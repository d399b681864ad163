/** `checkContentsEquals`: two streams compared in lockstep, one 8192-byte
    chunk at a time, collecting every differing byte and the bytes of the
    diagnostic window. */
module ContentCheck {
  import opened Wrappers
  import opened ByteStream
  import opened ByteDiff

  /** Size of both comparison buffers. */
  const ChunkSize: nat := 8192

  /** `n` zero bytes, the contents of a freshly allocated Java array. */
  function ZeroBytes(n: nat): (z: seq<byte>)
    ensures |z| == n
  {
    if n == 0 then []
    else if n % 2 == 1 then ZeroBytes(n - 1) + [0]
    else ZeroBytes(n / 2) + ZeroBytes(n / 2)
  }

  lemma {:induction false} ZeroBytesAreZero(n: nat)
    ensures forall i :: 0 <= i < n ==> ZeroBytes(n)[i] == 0
    decreases n
  {
    if n % 2 == 1 {
      ZeroBytesAreZero(n - 1);
    } else if n > 0 {
      ZeroBytesAreZero(n / 2);
    }
  }

  /** The zero-filled buffers Java allocates before the first read. */
  const Zeros: seq<byte> := ZeroBytes(ChunkSize)

  /** Both buffers start as 8192 zero bytes, as `new byte[8192]` does. */
  lemma ZerosAreZero()
    ensures |Zeros| == ChunkSize
    ensures forall i :: 0 <= i < |Zeros| ==> Zeros[i] == 0
  {
    ZeroBytesAreZero(ChunkSize);
  }

  /** The stream-protocol errors, each raised as an `IllegalArgumentException`. */
  datatype CompareError =
    | EofOnFirstStream
    | EofOnSecondStream
    | ReadSizeDifferent(numRead1: int, numRead2: int)

  /** What a completed comparison hands back: the differing bytes and the two
      diagnostic-window sequences. */
  datatype Comparison = Comparison(differentBytes: seq<DifferentByte>, jarEndSequence: seq<byte>, tmpEndSequence: seq<byte>)

  /** How far the inner loop scans each chunk: the source runs to the buffer's
      length; the corrected loop runs to the number of bytes just read. */
  datatype ScanBound = WholeBuffer | BytesRead

  function Limit(bound: ScanBound, numRead: nat): nat
  {
    match bound
    case WholeBuffer => ChunkSize
    case BytesRead => numRead
  }

  const NoComparison := Comparison([], [], [])

  function Join(a: Comparison, b: Comparison): Comparison
  {
    Comparison(a.differentBytes + b.differentBytes, a.jarEndSequence + b.jarEndSequence, a.tmpEndSequence + b.tmpEndSequence)
  }

  /** Prefixes what the remaining chunks yield with what was collected so far;
      an exception discards the collection. */
  function Continue(acc: Comparison, r: Result<Comparison, CompareError>): Result<Comparison, CompareError>
  {
    match r
    case Success(c) => Success(Join(acc, c))
    case Failure(e) => Failure(e)
  }

  /** What scanning one pair of equally long byte sequences adds, counting
      positions from `start`. */
  function Inspect(x: seq<byte>, y: seq<byte>, start: int): Comparison
    requires |x| == |y|
  {
    Comparison(Differences(x, y, start), Window(x, start), Window(y, start))
  }

  /** Reference definition of the comparison loop, one chunk per call. `r1`
      and `r2` are the unread stream contents, `buf1` and `buf2` the buffers
      as the previous chunk left them, `start` the position of the chunk. */
  function ScanChunks(r1: seq<byte>, r2: seq<byte>, buf1: seq<byte>, buf2: seq<byte>, start: int, bound: ScanBound): (r: Result<Comparison, CompareError>)
    requires |buf1| == ChunkSize && |buf2| == ChunkSize
    ensures r.Success? <==> |r1| == |r2|
    decreases |r1|
  {
    var n1 := Min(ChunkSize, |r1|);
    var n2 := Min(ChunkSize, |r2|);
    if n1 == 0 then
      if n2 > 0 then Failure(EofOnFirstStream) else Success(NoComparison)
    else if n2 == 0 then Failure(EofOnSecondStream)
    else if n2 != n1 then Failure(ReadSizeDifferent(n1, n2))
    else
      var c1 := r1[..n1] + buf1[n1..];
      var c2 := r2[..n2] + buf2[n2..];
      var k := Limit(bound, n1);
      Continue(Inspect(c1[..k], c2[..k], start), ScanChunks(r1[n1..], r2[n2..], c1, c2, start + ChunkSize, bound))
  }

  /** Length of a stream rounded up to whole chunks. */
  function PaddedLength(len: nat): nat
    decreases len
  {
    if len == 0 then 0
    else if len <= ChunkSize then ChunkSize
    else ChunkSize + PaddedLength(len - ChunkSize)
  }

  lemma {:induction false} PaddedLengthBounds(len: nat)
    ensures len <= PaddedLength(len) < len + ChunkSize
    ensures PaddedLength(len) % ChunkSize == 0
    decreases len
  {
    if len > ChunkSize {
      PaddedLengthBounds(len - ChunkSize);
    }
  }

  function ScannedLength(len: nat, bound: ScanBound): (n: nat)
    ensures len <= n
  {
    PaddedLengthBounds(len);
    match bound
    case WholeBuffer => PaddedLength(len)
    case BytesRead => len
  }

  /** The bytes the scan actually compares for one stream, chunk after chunk:
      with `BytesRead` the stream itself; with `WholeBuffer` the stream followed
      by the stale tail its short final chunk leaves in the buffer. */
  function Scanned(r: seq<byte>, buf: seq<byte>, bound: ScanBound): (v: seq<byte>)
    requires |buf| == ChunkSize
    ensures |v| == ScannedLength(|r|, bound)
    decreases |r|
  {
    if |r| == 0 then []
    else
      var n := Min(ChunkSize, |r|);
      var c := r[..n] + buf[n..];
      c[..Limit(bound, n)] + Scanned(r[n..], c, bound)
  }

  /** The scanned bytes start with the stream itself; only the whole-buffer
      scan adds anything after it, padding to a whole number of chunks. */
  lemma {:induction false} ScannedExtendsStream(r: seq<byte>, buf: seq<byte>, bound: ScanBound)
    requires |buf| == ChunkSize
    ensures Scanned(r, buf, bound)[..|r|] == r
    ensures bound == BytesRead ==> Scanned(r, buf, bound) == r
    decreases |r|
  {
    if |r| > 0 {
      var n := Min(ChunkSize, |r|);
      var c := r[..n] + buf[n..];
      ScannedExtendsStream(r[n..], c, bound);
      var v := Scanned(r, buf, bound);
      assert v == c[..Limit(bound, n)] + Scanned(r[n..], c, bound);
      if n < ChunkSize {
        assert r[n..] == [];
        assert v == c[..Limit(bound, n)];
        assert v[..|r|] == r;
      } else {
        var t := Scanned(r[n..], c, bound);
        assert |t| >= |r| - n;
        assert v[..|r|] == c[..n] + t[..|r| - n];
        assert r == r[..n] + r[n..];
      }
    }
  }

  /** Streams whose length is a whole number of chunks leave no stale bytes:
      the source's loop then compares exactly the stream contents. */
  lemma {:induction false} WholeChunksScanNoStaleBytes(r: seq<byte>, buf: seq<byte>)
    requires |buf| == ChunkSize
    requires |r| % ChunkSize == 0
    ensures Scanned(r, buf, WholeBuffer) == r
    decreases |r|
  {
    if |r| > 0 {
      assert |r| >= ChunkSize;
      assert (|r| - ChunkSize) % ChunkSize == 0;
      var c := r[..ChunkSize];
      assert c == r[..ChunkSize] + buf[ChunkSize..];
      assert Scanned(r, buf, WholeBuffer) == c[..ChunkSize] + Scanned(r[ChunkSize..], c, WholeBuffer);
      WholeChunksScanNoStaleBytes(r[ChunkSize..], c);
      assert r == c + r[ChunkSize..];
    }
  }

  lemma InspectAppend(x1: seq<byte>, x2: seq<byte>, y1: seq<byte>, y2: seq<byte>, start: int)
    requires |x1| == |y1| && |x2| == |y2|
    ensures Inspect(x1 + x2, y1 + y2, start) == Join(Inspect(x1, y1, start), Inspect(x2, y2, start + |x1|))
  {
    DifferencesAppend(x1, x2, y1, y2, start);
    WindowAppend(x1, x2, start);
    WindowAppend(y1, y2, start);
  }

  /** Scanning a chunk and then what follows it is one scan over both, as
      long as the chunk is whole or nothing follows it. */
  lemma InspectChunk(x: seq<byte>, y: seq<byte>, t1: seq<byte>, t2: seq<byte>, start: int)
    requires |x| == |y| && |t1| == |t2|
    requires |x| == ChunkSize || (t1 == [] && t2 == [])
    ensures Inspect(x + t1, y + t2, start) == Join(Inspect(x, y, start), Inspect(t1, t2, start + ChunkSize))
  {
    InspectAppend(x, t1, y, t2, start);
    if |x| != ChunkSize {
      assert Inspect(t1, t2, start + |x|) == NoComparison == Inspect(t1, t2, start + ChunkSize);
    }
  }

  /** The chunked comparison of two equally long streams succeeds, and yields
      what a single scan over the two scanned byte sequences yields. */
  lemma {:induction false} ScanMatchesScanned(r1: seq<byte>, r2: seq<byte>, buf1: seq<byte>, buf2: seq<byte>, start: int, bound: ScanBound)
    requires |buf1| == ChunkSize && |buf2| == ChunkSize
    requires |r1| == |r2|
    ensures |Scanned(r1, buf1, bound)| == |Scanned(r2, buf2, bound)|
    ensures ScanChunks(r1, r2, buf1, buf2, start, bound)
         == Success(Inspect(Scanned(r1, buf1, bound), Scanned(r2, buf2, bound), start))
    decreases |r1|
  {
    if |r1| == 0 {
      assert Inspect([], [], start) == NoComparison;
    } else {
      var n := Min(ChunkSize, |r1|);
      var c1 := r1[..n] + buf1[n..];
      var c2 := r2[..n] + buf2[n..];
      var k := Limit(bound, n);
      var t1, t2 := Scanned(r1[n..], c1, bound), Scanned(r2[n..], c2, bound);
      assert Scanned(r1, buf1, bound) == c1[..k] + t1;
      assert Scanned(r2, buf2, bound) == c2[..k] + t2;
      ScanMatchesScanned(r1[n..], r2[n..], c1, c2, start + ChunkSize, bound);
      assert ScanChunks(r1, r2, buf1, buf2, start, bound)
          == Continue(Inspect(c1[..k], c2[..k], start), Success(Inspect(t1, t2, start + ChunkSize)));
      InspectChunk(c1[..k], c2[..k], t1, t2, start);
    }
  }

  /** The comparison fails exactly when the two streams differ in length, and
      the error says how: the shorter stream ends on a chunk boundary (end of
      stream on one side only) or inside a chunk (different read sizes). */
  lemma {:induction false} ScanFailsOnLengthMismatch(r1: seq<byte>, r2: seq<byte>, buf1: seq<byte>, buf2: seq<byte>, start: int, bound: ScanBound)
    requires |buf1| == ChunkSize && |buf2| == ChunkSize
    ensures ScanChunks(r1, r2, buf1, buf2, start, bound).Success? <==> |r1| == |r2|
    ensures ScanChunks(r1, r2, buf1, buf2, start, bound) == Failure(LengthMismatchError(|r1|, |r2|)) <==> |r1| != |r2|
    decreases |r1|
  {
    var n1 := Min(ChunkSize, |r1|);
    var n2 := Min(ChunkSize, |r2|);
    if n1 > 0 && n2 > 0 && n1 == n2 {
      if n1 < ChunkSize {
        ScanMatchesScanned(r1, r2, buf1, buf2, start, bound);
      } else {
        ScanFailsOnLengthMismatch(r1[n1..], r2[n2..], r1[..n1] + buf1[n1..], r2[..n2] + buf2[n2..], start + ChunkSize, bound);
        LengthMismatchErrorShift(|r1|, |r2|);
      }
    }
  }

  /** The error two streams of lengths `len1 != len2` run into: whichever is
      shorter ends either on a chunk boundary, so that only its read reports end
      of stream, or inside a chunk, so that the two reads return different
      counts. */
  function LengthMismatchError(len1: nat, len2: nat): (e: CompareError)
    ensures len1 != len2 ==>
      && (e == EofOnFirstStream <==> len1 < len2 && len1 % ChunkSize == 0)
      && (e == EofOnSecondStream <==> len2 < len1 && len2 % ChunkSize == 0)
      && (e.ReadSizeDifferent? ==>
            && 0 < e.numRead1 <= ChunkSize && 0 < e.numRead2 <= ChunkSize
            && e.numRead1 != e.numRead2
            && Min(e.numRead1, e.numRead2) == Min(len1, len2) % ChunkSize)
  {
    var parting := Min(len1, len2) / ChunkSize * ChunkSize;
    var n1 := Min(ChunkSize, len1 - parting);
    var n2 := Min(ChunkSize, len2 - parting);
    if n1 == 0 then EofOnFirstStream
    else if n2 == 0 then EofOnSecondStream
    else ReadSizeDifferent(n1, n2)
  }

  /** Dropping one whole chunk from two streams that both hold one does not
      change where they part. */
  lemma LengthMismatchErrorShift(len1: nat, len2: nat)
    requires ChunkSize <= len1 && ChunkSize <= len2
    ensures LengthMismatchError(len1 - ChunkSize, len2 - ChunkSize) == LengthMismatchError(len1, len2)
  {
    var m := Min(len1, len2);
    assert Min(len1 - ChunkSize, len2 - ChunkSize) == m - ChunkSize;
    assert (m - ChunkSize) / ChunkSize == m / ChunkSize - 1;
  }

  lemma JoinNothing(c: Comparison)
    ensures Join(NoComparison, c) == c && Join(c, NoComparison) == c
  {
    assert [] + c.differentBytes == c.differentBytes == c.differentBytes + [];
    assert [] + c.jarEndSequence == c.jarEndSequence == c.jarEndSequence + [];
    assert [] + c.tmpEndSequence == c.tmpEndSequence == c.tmpEndSequence + [];
  }

  lemma ContinueFromNothing(r: Result<Comparison, CompareError>)
    ensures Continue(NoComparison, r) == r
  {
    if r.Success? {
      JoinNothing(r.value);
    }
  }

  lemma ContinueJoin(acc: Comparison, here: Comparison, r: Result<Comparison, CompareError>)
    ensures Continue(acc, Continue(here, r)) == Continue(Join(acc, here), r)
  {
    match r
    case Success(c) =>
      assert Join(acc, Join(here, c)) == Join(Join(acc, here), c);
    case Failure(_) =>
  }

  /** Reference result of comparing two complete streams from fresh buffers. */
  function ContentsCompared(a: seq<byte>, b: seq<byte>, bound: ScanBound): Result<Comparison, CompareError>
  {
    ScanChunks(a, b, Zeros, Zeros, 0, bound)
  }

  /** The inner loop of `checkContentsEquals` over the first `limit` cells
      of the two buffers: records every cell where they differ and copies the
      cells that fall in the diagnostic window, appending to `acc`. */
  method ScanChunk(buffer1: seq<byte>, buffer2: seq<byte>, limit: nat, bufferStart: int, acc: Comparison) returns (r: Comparison)
    requires limit <= |buffer1| == |buffer2|
    ensures r == Join(acc, Inspect(buffer1[..limit], buffer2[..limit], bufferStart))
  {
    var differentBytes := acc.differentBytes;
    var jarEndSequence := acc.jarEndSequence;
    var tmpEndSequence := acc.tmpEndSequence;
    var i := 0;
    while i < limit
      invariant i <= limit
      invariant differentBytes == acc.differentBytes + Differences(buffer1[..i], buffer2[..i], bufferStart)
      invariant jarEndSequence == acc.jarEndSequence + Window(buffer1[..i], bufferStart)
      invariant tmpEndSequence == acc.tmpEndSequence + Window(buffer2[..i], bufferStart)
    {
      assert buffer1[..i + 1][..i] == buffer1[..i] && buffer2[..i + 1][..i] == buffer2[..i];
      if buffer1[i] != buffer2[i] {
        differentBytes := differentBytes + [DifferentByte(bufferStart + i, buffer1[i], buffer2[i])];
      }
      if InWindow(bufferStart + i) {
        jarEndSequence := jarEndSequence + [buffer1[i]];
        tmpEndSequence := tmpEndSequence + [buffer2[i]];
      }
      i := i + 1;
    }
    r := Comparison(differentBytes, jarEndSequence, tmpEndSequence);
  }

  /** What reading the next chunk of both streams leads to: both streams
      ended together, a protocol error, or a chunk of `numRead` bytes in each
      buffer. */
  datatype ChunkRead =
    | BothEnded
    | Broken(error: CompareError)
    | Chunk(next1: seq<byte>, next2: seq<byte>, after1: Stream, after2: Stream, numRead: nat)

  /** One pass through the head of the comparison loop: fill both buffers
      with `ReadNBytes` and check the two counts against each other. */
  method ReadChunks(s1: Stream, s2: Stream, buffer1: seq<byte>, buffer2: seq<byte>, bufferStart: int, bound: ScanBound)
    returns (c: ChunkRead)
    requires |buffer1| == ChunkSize && |buffer2| == ChunkSize
    ensures c.BothEnded? ==> ScanChunks(s1.rest, s2.rest, buffer1, buffer2, bufferStart, bound) == Success(NoComparison)
    ensures c.Broken? ==> ScanChunks(s1.rest, s2.rest, buffer1, buffer2, bufferStart, bound) == Failure(c.error)
    ensures c.Chunk? ==>
      && |c.next1| == ChunkSize && |c.next2| == ChunkSize
      && 0 < c.numRead <= ChunkSize
      && |c.after1.rest| < |s1.rest|
      && ScanChunks(s1.rest, s2.rest, buffer1, buffer2, bufferStart, bound)
         == Continue(Inspect(c.next1[..Limit(bound, c.numRead)], c.next2[..Limit(bound, c.numRead)], bufferStart),
                     ScanChunks(c.after1.rest, c.after2.rest, c.next1, c.next2, bufferStart + ChunkSize, bound))
  {
    var numRead1, next1, after1 := ReadNBytes(s1, buffer1);
    var numRead2, next2, after2 := ReadNBytes(s2, buffer2);
    if numRead1 <= 0 {
      if numRead2 > 0 {
        return Broken(EofOnFirstStream);
      }
      return BothEnded;
    }
    if numRead2 <= 0 {
      return Broken(EofOnSecondStream);
    }
    if numRead2 != numRead1 {
      return Broken(ReadSizeDifferent(numRead1, numRead2));
    }
    assert next1 == s1.rest[..numRead1] + buffer1[numRead1..];
    assert next2 == s2.rest[..numRead2] + buffer2[numRead2..];
    c := Chunk(next1, next2, after1, after2, numRead1);
  }

  /** The comparison loop of `checkContentsEquals`, with the inner loop's
      bound as a parameter: read a chunk from each stream, raise the protocol
      errors, otherwise scan the chunk and move on. */
  method CompareStreams(in1: Stream, in2: Stream, bound: ScanBound) returns (r: Result<Comparison, CompareError>)
    ensures r == ContentsCompared(in1.rest, in2.rest, bound)
  {
    var buffer1 := Zeros;
    var buffer2 := Zeros;
    var s1, s2 := in1, in2;
    var acc := NoComparison;
    var bufferStart := 0;
    ContinueFromNothing(ContentsCompared(in1.rest, in2.rest, bound));
    while true
      invariant |buffer1| == ChunkSize && |buffer2| == ChunkSize
      invariant ContentsCompared(in1.rest, in2.rest, bound)
             == Continue(acc, ScanChunks(s1.rest, s2.rest, buffer1, buffer2, bufferStart, bound))
      decreases |s1.rest|
    {
      var c := ReadChunks(s1, s2, buffer1, buffer2, bufferStart, bound);
      match c
      case BothEnded =>
        JoinNothing(acc);
        return Success(acc);
      case Broken(e) =>
        return Failure(e);
      case Chunk(next1, next2, after1, after2, numRead) =>
        var limit := Limit(bound, numRead);
        ContinueJoin(acc, Inspect(next1[..limit], next2[..limit], bufferStart),
                     ScanChunks(after1.rest, after2.rest, next1, next2, bufferStart + ChunkSize, bound));
        acc := ScanChunk(next1, next2, limit, bufferStart, acc);
        buffer1, buffer2 := next1, next2;
        s1, s2 := after1, after2;
        bufferStart := bufferStart + ChunkSize;
    }
  }
}
