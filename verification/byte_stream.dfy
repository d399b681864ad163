/** An abstract `java.io.InputStream` and the short-read tolerant `readNBytes`
    helper that fills a whole buffer from it. */
module ByteStream {
  import opened Wrappers

  /** Java's `byte`. Only equality of bytes matters to the model, so the
      unsigned 8-bit vector stands for the signed Java type. */
  type byte = bv8

  /** The unread part of a stream, together with a schedule that decides how
      many bytes each `read` call hands out. A stream may legally return fewer
      bytes than asked for; `grants` lets every such short-read pattern be
      expressed. Once the schedule is used up, reads return as much as they can. */
  datatype Stream = Stream(rest: seq<byte>, grants: seq<nat>)

  /** What one `read(b, off, len)` call returns: the count (-1 at end of
      stream), the buffer after the call and the stream after the call. */
  datatype ReadStep = ReadStep(count: int, buf: seq<byte>, next: Stream)

  function Min(a: int, b: int): int
  {
    if a <= b then a else b
  }

  function Clamp(x: int, lo: int, hi: int): int
  {
    if x < lo then lo else if hi < x then hi else x
  }

  /** `InputStream.read(b, off, len)`: asking for zero bytes returns 0; at end
      of stream it returns -1; otherwise it stores between 1 and
      `min(len, remaining)` next bytes at `b[off..]` and returns how many. */
  function Read(s: Stream, b: seq<byte>, off: nat, len: nat): (r: ReadStep)
    requires off + len <= |b|
    ensures len == 0 ==> r == ReadStep(0, b, s)
    ensures len > 0 && |s.rest| == 0 ==> r.count == -1 && r.buf == b && r.next.rest == s.rest
    ensures len > 0 && |s.rest| > 0 ==>
      && 1 <= r.count <= Min(len, |s.rest|)
      && r.buf == b[..off] + s.rest[..r.count] + b[off + r.count..]
      && r.next.rest == s.rest[r.count..]
  {
    if len == 0 then ReadStep(0, b, s)
    else if |s.rest| == 0 then ReadStep(-1, b, s)
    else
      var most := Min(len, |s.rest|);
      var count := if |s.grants| == 0 then most else Clamp(s.grants[0], 1, most);
      var later := if |s.grants| == 0 then [] else s.grants[1..];
      ReadStep(count, b[..off] + s.rest[..count] + b[off + count..], Stream(s.rest[count..], later))
  }

  /** `readNBytes(in, b)`: calls `read` until the buffer is full or a call
      returns a non-positive count. The first `n` buffer cells receive the next
      `n` stream bytes, the others keep their old contents, and because a read
      never hands out zero bytes before end of stream, `n` is exactly the
      smaller of the buffer length and what the stream still holds. */
  method ReadNBytes(s: Stream, b: seq<byte>) returns (n: nat, filled: seq<byte>, after: Stream)
    ensures n == Min(|b|, |s.rest|)
    ensures |filled| == |b|
    ensures filled[..n] == s.rest[..n]
    ensures filled[n..] == b[n..]
    ensures after.rest == s.rest[n..]
    ensures n == 0 <==> |b| == 0 || |s.rest| == 0
  {
    n := 0;
    filled := b;
    after := s;
    var len := |b|;
    while n < len
      invariant n <= len && n <= |s.rest|
      invariant |filled| == len
      invariant filled[..n] == s.rest[..n]
      invariant filled[n..] == b[n..]
      invariant after.rest == s.rest[n..]
      decreases len - n
    {
      var step := Read(after, filled, n, len - n);
      if step.count <= 0 {
        break;
      }
      assert step.buf[..n + step.count] == filled[..n] + after.rest[..step.count];
      assert s.rest[..n + step.count] == s.rest[..n] + s.rest[n..][..step.count];
      n := n + step.count;
      filled := step.buf;
      after := step.next;
    }
  }
}
