/** `checkContentsEquals` as the source writes it, the corrected comparison,
    and the input on which the two part ways. */
module CheckContents {
  import opened Wrappers
  import opened ByteStream
  import opened ByteDiff
  import opened ContentCheck

  /** Rounded up to whole chunks, a stream reaches into the third chunk
      exactly when it holds more than two chunks. */
  lemma PaddedLengthThirdChunk(len: nat)
    ensures len > 2 * ChunkSize ==> PaddedLength(len) >= 3 * ChunkSize
    ensures len <= 2 * ChunkSize ==> PaddedLength(len) <= 2 * ChunkSize
  {
    if len > 2 * ChunkSize {
      PaddedLengthBounds(len - 2 * ChunkSize);
      assert PaddedLength(len) == ChunkSize + PaddedLength(len - ChunkSize);
      assert PaddedLength(len - ChunkSize) == ChunkSize + PaddedLength(len - 2 * ChunkSize);
    } else if len > ChunkSize {
      assert PaddedLength(len) == ChunkSize + PaddedLength(len - ChunkSize);
    }
  }

  /** On success the source's scan has read exactly two whole chunks or less
      (no window bytes at all), or has gone through the third chunk, whose
      whole buffer covers the window. */
  lemma WindowLengthAsWritten(a: seq<byte>)
    ensures |Window(Scanned(a, Zeros, WholeBuffer), 0)|
         == if |a| > 2 * ChunkSize then WindowEnd - WindowStart else 0
  {
    var v := Scanned(a, Zeros, WholeBuffer);
    WindowIsSlice(v);
    PaddedLengthThirdChunk(|a|);
    assert |v| == PaddedLength(|a|);
  }

  /** Each record the source's comparison reports shows two different bytes,
      the records come in increasing position order, and no position lies
      beyond the streams rounded up to whole chunks. */
  lemma AsWrittenRecordsOrdered(a: seq<byte>, b: seq<byte>)
    requires |a| == |b|
    ensures ContentsCompared(a, b, WholeBuffer).Success?
    ensures StrictlyIncreasing(ContentsCompared(a, b, WholeBuffer).value.differentBytes)
    ensures forall d :: d in ContentsCompared(a, b, WholeBuffer).value.differentBytes ==>
      && d.jarResourceByte != d.tmpFileByte
      && 0 <= d.position < PaddedLength(|a|)
  {
    ScanFailsOnLengthMismatch(a, b, Zeros, Zeros, 0, WholeBuffer);
    ScanMatchesScanned(a, b, Zeros, Zeros, 0, WholeBuffer);
    DifferencesOrdered(Scanned(a, Zeros, WholeBuffer), Scanned(b, Zeros, WholeBuffer), 0);
  }

  /** Whatever the inner loop's bound, the comparison of two equally long
      streams reports every position where they differ, with the two bytes
      found there, and every record at a position inside the streams carries
      the stream bytes at that position. */
  lemma EveryDifferenceReported(a: seq<byte>, b: seq<byte>, bound: ScanBound)
    requires |a| == |b|
    ensures ContentsCompared(a, b, bound).Success?
    ensures forall j :: 0 <= j < |a| && a[j] != b[j] ==>
      DifferentByte(j, a[j], b[j]) in ContentsCompared(a, b, bound).value.differentBytes
    ensures forall d :: d in ContentsCompared(a, b, bound).value.differentBytes && 0 <= d.position < |a| ==>
      d.jarResourceByte == a[d.position] && d.tmpFileByte == b[d.position]
  {
    ScanMatchesScanned(a, b, Zeros, Zeros, 0, bound);
    ScannedExtendsStream(a, Zeros, bound);
    ScannedExtendsStream(b, Zeros, bound);
    PrefixDifferencesReported(Scanned(a, Zeros, bound), Scanned(b, Zeros, bound), a, b);
  }

  /** Scanning two sequences that start with `a` and `b` records every
      difference between `a` and `b`, and every record inside them carries
      their bytes. */
  lemma PrefixDifferencesReported(va: seq<byte>, vb: seq<byte>, a: seq<byte>, b: seq<byte>)
    requires |va| == |vb| && |a| == |b| <= |va|
    requires va[..|a|] == a && vb[..|b|] == b
    ensures forall j :: 0 <= j < |a| && a[j] != b[j] ==> DifferentByte(j, a[j], b[j]) in Differences(va, vb, 0)
    ensures forall d :: d in Differences(va, vb, 0) && 0 <= d.position < |a| ==>
      d.jarResourceByte == a[d.position] && d.tmpFileByte == b[d.position]
  {
    DifferencesExactly(va, vb, 0);
    assert forall j :: 0 <= j < |a| ==> va[j] == va[..|a|][j] && vb[j] == vb[..|a|][j];
  }

  /** Two streams with the same contents compare without a single record, and
      their window sequences are equal. */
  lemma AsWrittenIdenticalStreams(a: seq<byte>)
    ensures ContentsCompared(a, a, WholeBuffer).Success?
    ensures ContentsCompared(a, a, WholeBuffer).value.differentBytes == []
    ensures ContentsCompared(a, a, WholeBuffer).value.jarEndSequence
         == ContentsCompared(a, a, WholeBuffer).value.tmpEndSequence
  {
    ScanMatchesScanned(a, a, Zeros, Zeros, 0, WholeBuffer);
    NoDifferencesInEqual(Scanned(a, Zeros, WholeBuffer), 0);
  }

  /** The two window sequences of the source's comparison have equal length:
      39 once a third chunk has been compared, none otherwise; for streams
      that reach past the window they are the stream bytes at positions 18961
      to 18999. */
  lemma AsWrittenWindow(a: seq<byte>, b: seq<byte>)
    requires |a| == |b|
    ensures ContentsCompared(a, b, WholeBuffer).Success?
    ensures |ContentsCompared(a, b, WholeBuffer).value.jarEndSequence|
         == |ContentsCompared(a, b, WholeBuffer).value.tmpEndSequence|
         == if |a| > 2 * ChunkSize then WindowEnd - WindowStart else 0
    ensures |a| >= WindowEnd ==>
      && ContentsCompared(a, b, WholeBuffer).value.jarEndSequence == a[WindowStart..WindowEnd]
      && ContentsCompared(a, b, WholeBuffer).value.tmpEndSequence == b[WindowStart..WindowEnd]
  {
    ScanFailsOnLengthMismatch(a, b, Zeros, Zeros, 0, WholeBuffer);
    ScanMatchesScanned(a, b, Zeros, Zeros, 0, WholeBuffer);
    WindowLengthAsWritten(a);
    WindowLengthAsWritten(b);
    if |a| >= WindowEnd {
      WindowOfLongStream(a, Zeros);
      WindowOfLongStream(b, Zeros);
    }
  }

  /** A stream that reaches past the window has its own bytes in the window:
      stale bytes only ever follow the end of the stream. */
  lemma WindowOfLongStream(a: seq<byte>, buf: seq<byte>)
    requires |buf| == ChunkSize
    requires |a| >= WindowEnd
    ensures Window(Scanned(a, buf, WholeBuffer), 0) == a[WindowStart..WindowEnd]
  {
    var v := Scanned(a, buf, WholeBuffer);
    assert |v| >= |a|;
    ScannedExtendsStream(a, buf, WholeBuffer);
    WindowIsSlice(v);
    assert Min(|v|, WindowStart) == WindowStart && Min(|v|, WindowEnd) == WindowEnd;
    assert v[WindowStart..WindowEnd] == v[..|a|][WindowStart..WindowEnd];
  }


  /** `checkContentsEquals(in1, in2, jarEndSequence, tmpEndSequence)` as
      written: the inner loop runs over the whole buffer. */
  method CheckContentsEquals(in1: Stream, in2: Stream) returns (r: Result<Comparison, CompareError>)
    ensures r == ContentsCompared(in1.rest, in2.rest, WholeBuffer)
    ensures r.Failure? <==> |in1.rest| != |in2.rest|
    ensures r.Failure? ==> r.error == LengthMismatchError(|in1.rest|, |in2.rest|)
    ensures r.Success? ==> StrictlyIncreasing(r.value.differentBytes)
    ensures r.Success? ==> forall d :: d in r.value.differentBytes ==>
      && d.jarResourceByte != d.tmpFileByte
      && 0 <= d.position < PaddedLength(|in1.rest|)
    ensures r.Success? ==> forall j :: 0 <= j < |in1.rest| && in1.rest[j] != in2.rest[j] ==>
      DifferentByte(j, in1.rest[j], in2.rest[j]) in r.value.differentBytes
    ensures r.Success? ==> forall d :: d in r.value.differentBytes && 0 <= d.position < |in1.rest| ==>
      d.jarResourceByte == in1.rest[d.position] && d.tmpFileByte == in2.rest[d.position]
    ensures in1.rest == in2.rest ==>
      r.Success? && r.value.differentBytes == [] && r.value.jarEndSequence == r.value.tmpEndSequence
    ensures r.Success? ==>
      |r.value.jarEndSequence| == |r.value.tmpEndSequence|
        == if |in1.rest| > 2 * ChunkSize then WindowEnd - WindowStart else 0
    ensures r.Success? && |in1.rest| >= WindowEnd ==>
      && r.value.jarEndSequence == in1.rest[WindowStart..WindowEnd]
      && r.value.tmpEndSequence == in2.rest[WindowStart..WindowEnd]
  {
    r := CompareStreams(in1, in2, WholeBuffer);
    ScanFailsOnLengthMismatch(in1.rest, in2.rest, Zeros, Zeros, 0, WholeBuffer);
    AsWrittenIdenticalStreams(in1.rest);
    if r.Success? {
      AsWrittenRecordsOrdered(in1.rest, in2.rest);
      EveryDifferenceReported(in1.rest, in2.rest, WholeBuffer);
      AsWrittenWindow(in1.rest, in2.rest);
    }
  }

  /** The comparison with the inner loop stopped at the number of bytes read:
      every reported record is a real difference inside the streams, every real
      difference is reported, and the window holds exactly the stream bytes at
      window positions. */
  method CheckContentsEqualsFixed(in1: Stream, in2: Stream) returns (r: Result<Comparison, CompareError>)
    ensures r == ContentsCompared(in1.rest, in2.rest, BytesRead)
    ensures r.Failure? <==> |in1.rest| != |in2.rest|
    ensures r.Failure? ==> r.error == LengthMismatchError(|in1.rest|, |in2.rest|)
    ensures |in1.rest| == |in2.rest| ==> r == Success(Inspect(in1.rest, in2.rest, 0))
    ensures in1.rest == in2.rest ==>
      r.Success? && r.value.differentBytes == [] && r.value.jarEndSequence == r.value.tmpEndSequence
    ensures r.Success? ==> StrictlyIncreasing(r.value.differentBytes)
    ensures r.Success? ==> forall d :: d in r.value.differentBytes <==>
      && 0 <= d.position < |in1.rest|
      && in1.rest[d.position] != in2.rest[d.position]
      && d.jarResourceByte == in1.rest[d.position]
      && d.tmpFileByte == in2.rest[d.position]
    ensures r.Success? ==>
      && r.value.jarEndSequence == in1.rest[Min(|in1.rest|, WindowStart)..Min(|in1.rest|, WindowEnd)]
      && r.value.tmpEndSequence == in2.rest[Min(|in2.rest|, WindowStart)..Min(|in2.rest|, WindowEnd)]
  {
    r := CompareStreams(in1, in2, BytesRead);
    var a, b := in1.rest, in2.rest;
    ScanFailsOnLengthMismatch(a, b, Zeros, Zeros, 0, BytesRead);
    if |a| == |b| {
      ScanMatchesScanned(a, b, Zeros, Zeros, 0, BytesRead);
      ScannedExtendsStream(a, Zeros, BytesRead);
      ScannedExtendsStream(b, Zeros, BytesRead);
      DifferencesOrdered(a, b, 0);
      DifferencesExactly(a, b, 0);
      WindowIsSlice(a);
      WindowIsSlice(b);
      NoDifferencesInEqual(a, 0);
    }
  }

  /** `checkContentsEquals` with the inner loop's bound chosen by the caller:
      `WholeBuffer` runs it as the source writes it, `BytesRead` corrected. */
  method CheckContentsWith(in1: Stream, in2: Stream, bound: ScanBound) returns (r: Result<Comparison, CompareError>)
    ensures r == ContentsCompared(in1.rest, in2.rest, bound)
    ensures r.Failure? <==> |in1.rest| != |in2.rest|
    ensures r.Failure? ==> r.error == LengthMismatchError(|in1.rest|, |in2.rest|)
    ensures in1.rest == in2.rest ==> r.Success? && r.value.differentBytes == []
    ensures r.Success? ==> forall d :: d in r.value.differentBytes ==>
      && d.jarResourceByte != d.tmpFileByte
      && 0 <= d.position < PaddedLength(|in1.rest|)
    ensures r.Success? ==> forall j :: 0 <= j < |in1.rest| && in1.rest[j] != in2.rest[j] ==>
      DifferentByte(j, in1.rest[j], in2.rest[j]) in r.value.differentBytes
    ensures r.Success? && bound == BytesRead ==> r.value == Inspect(in1.rest, in2.rest, 0)
  {
    if bound == WholeBuffer {
      r := CheckContentsEquals(in1, in2);
    } else {
      r := CheckContentsEqualsFixed(in1, in2);
      PaddedLengthBounds(|in1.rest|);
    }
  }

  /** When both streams hold a whole number of chunks there are no stale
      bytes, and the source's comparison agrees with the corrected one. */
  lemma WholeChunksCompareAlike(a: seq<byte>, b: seq<byte>)
    requires |a| % ChunkSize == 0 && |b| % ChunkSize == 0
    ensures ContentsCompared(a, b, WholeBuffer) == ContentsCompared(a, b, BytesRead)
  {
    ScanFailsOnLengthMismatch(a, b, Zeros, Zeros, 0, WholeBuffer);
    ScanFailsOnLengthMismatch(a, b, Zeros, Zeros, 0, BytesRead);
    if |a| == |b| {
      ScanMatchesScanned(a, b, Zeros, Zeros, 0, WholeBuffer);
      ScanMatchesScanned(a, b, Zeros, Zeros, 0, BytesRead);
      WholeChunksScanNoStaleBytes(a, Zeros);
      WholeChunksScanNoStaleBytes(b, Zeros);
      ScannedExtendsStream(a, Zeros, BytesRead);
      ScannedExtendsStream(b, Zeros, BytesRead);
    }
  }

  /** With one byte in its second chunk, a stream is scanned by the source
      as its first chunk followed by that byte and the 8191 stale bytes the
      first chunk left behind in the buffer. */
  lemma ShortSecondChunkScan(a: seq<byte>, buf: seq<byte>)
    requires |buf| == ChunkSize
    requires |a| == ChunkSize + 1
    ensures Scanned(a, buf, WholeBuffer) == a[..ChunkSize] + ([a[ChunkSize]] + a[1..ChunkSize])
  {
    var c := a[..ChunkSize];
    assert a[..ChunkSize] + buf[ChunkSize..] == c;
    var last := a[ChunkSize..][..1] + c[1..];
    assert last == [a[ChunkSize]] + a[1..ChunkSize];
    assert Scanned(a[ChunkSize..], c, WholeBuffer) == last[..ChunkSize] + Scanned([], last, WholeBuffer);
  }

  /** The source's inner loop reports a difference past the end of two
      streams of 8193 bytes that differ at one index `i` with
      `1 <= i < 8192`: besides the real difference at `i` it reports one at
      `8192 + i`, because the short final chunk leaves byte `i` of the first
      chunk in each buffer, and those stale bytes differ. */
  lemma StaleBytesReportedPastEnd(p: seq<byte>, u: byte, w: byte, q: seq<byte>)
    requires u != w
    requires 1 <= |p| < ChunkSize && |p| + 1 + |q| == ChunkSize + 1
    ensures ContentsCompared(p + [u] + q, p + [w] + q, WholeBuffer)
         == Success(Comparison([DifferentByte(|p|, u, w), DifferentByte(ChunkSize + |p|, u, w)], [], []))
    ensures |p + [u] + q| <= ChunkSize + |p|
  {
    var a, b := p + [u] + q, p + [w] + q;
    ScanMatchesScanned(a, b, Zeros, Zeros, 0, WholeBuffer);
    StaleScan(p, u, q, Zeros);
    StaleScan(p, w, q, Zeros);
    StaleChunksCompared(p, u, w, q[..|q| - 1], [q[|q| - 1]] + p[1..]);
  }

  /** The two scanned sequences of the stale layout, compared: the real
      record in the first chunk and its stale copy in the second. */
  lemma StaleChunksCompared(p: seq<byte>, u: byte, w: byte, r: seq<byte>, z: seq<byte>)
    requires u != w
    requires 1 <= |p| && |z| == |p| && |p| + 1 + |r| == ChunkSize
    ensures Inspect((p + [u] + r) + (z + [u] + r), (p + [w] + r) + (z + [w] + r), 0)
         == Comparison([DifferentByte(|p|, u, w), DifferentByte(ChunkSize + |p|, u, w)], [], [])
  {
    SingleDifferenceBeforeWindow(p, u, w, r, 0);
    SingleDifferenceBeforeWindow(z, u, w, r, ChunkSize);
    TwoChunksTwoRecords(p + [u] + r, p + [w] + r, z + [u] + r, z + [w] + r,
                        DifferentByte(|p|, u, w), DifferentByte(ChunkSize + |p|, u, w));
  }

  /** A whole chunk with one record followed by a chunk with one record, no
      window bytes in either, give the two records. */
  lemma TwoChunksTwoRecords(h1: seq<byte>, h2: seq<byte>, t1: seq<byte>, t2: seq<byte>, d1: DifferentByte, d2: DifferentByte)
    requires |h1| == |h2| == ChunkSize && |t1| == |t2|
    requires Inspect(h1, h2, 0) == Comparison([d1], [], [])
    requires Inspect(t1, t2, ChunkSize) == Comparison([d2], [], [])
    ensures Inspect(h1 + t1, h2 + t2, 0) == Comparison([d1, d2], [], [])
  {
    InspectAppend(h1, t1, h2, t2, 0);
    assert Join(Comparison([d1], [], []), Comparison([d2], [], [])) == Comparison([d1, d2], [], []);
  }

  /** Two sequences that lie before the window and differ at one index give
      one record and no window bytes. */
  lemma SingleDifferenceBeforeWindow(p: seq<byte>, u: byte, w: byte, r: seq<byte>, start: int)
    requires u != w
    requires start + |p| + 1 + |r| <= WindowStart
    ensures Inspect(p + [u] + r, p + [w] + r, start) == Comparison([DifferentByte(start + |p|, u, w)], [], [])
  {
    SingleDifference(p, u, w, r, start);
    WindowOutside(p + [u] + r, start);
    WindowOutside(p + [w] + r, start);
  }

  /** What the source scans of a stream of 8193 bytes with byte `u` at index
      `|p|`: the first chunk, then the last byte followed by the stale bytes
      1 to 8191 of the first chunk, among them `u` again. */
  lemma StaleScan(p: seq<byte>, u: byte, q: seq<byte>, buf: seq<byte>)
    requires |buf| == ChunkSize
    requires 1 <= |p| < ChunkSize && |p| + 1 + |q| == ChunkSize + 1
    ensures var r, z := q[..|q| - 1], [q[|q| - 1]] + p[1..];
      Scanned(p + [u] + q, buf, WholeBuffer) == (p + [u] + r) + (z + [u] + r)
  {
    var a := p + [u] + q;
    var r, z := q[..|q| - 1], [q[|q| - 1]] + p[1..];
    ShortSecondChunkScan(a, buf);
    assert a[..ChunkSize] == p + [u] + r;
    assert [a[ChunkSize]] + a[1..ChunkSize] == z + [u] + r;
  }

  /** On the same two streams the corrected comparison reports the one real
      difference and nothing past the end of the streams. */
  lemma StaleBytesIgnoredWhenFixed(p: seq<byte>, u: byte, w: byte, q: seq<byte>)
    requires u != w
    requires 1 <= |p| < ChunkSize && |p| + 1 + |q| == ChunkSize + 1
    ensures ContentsCompared(p + [u] + q, p + [w] + q, BytesRead)
         == Success(Comparison([DifferentByte(|p|, u, w)], [], []))
  {
    var a, b := p + [u] + q, p + [w] + q;
    ScanMatchesScanned(a, b, Zeros, Zeros, 0, BytesRead);
    ScannedExtendsStream(a, Zeros, BytesRead);
    ScannedExtendsStream(b, Zeros, BytesRead);
    SingleDifferenceBeforeWindow(p, u, w, q, 0);
  }
}
