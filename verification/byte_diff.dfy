/** The per-byte comparison of two equally long byte sequences: the
    `DifferentByte` records it yields and the fixed diagnostic window it copies. */
module ByteDiff {
  import opened Wrappers
  import opened ByteStream

  /** One position where the two compared streams disagree, with the byte read
      from the archive resource and the byte read from the extracted file. */
  datatype DifferentByte = DifferentByte(position: int, jarResourceByte: byte, tmpFileByte: byte)

  /** First absolute position copied into the diagnostic window (the source
      tests `position > 18960`). */
  const WindowStart: int := 18961
  /** First absolute position past the diagnostic window (`position < 19000`). */
  const WindowEnd: int := 19000

  predicate InWindow(position: int)
  {
    WindowStart <= position < WindowEnd
  }

  predicate StrictlyIncreasing(ds: seq<DifferentByte>)
  {
    forall i, j :: 0 <= i < j < |ds| ==> ds[i].position < ds[j].position
  }

  /** The records for every index where `x` and `y` disagree, in index order,
      with positions counted from `start`. */
  function Differences(x: seq<byte>, y: seq<byte>, start: int): seq<DifferentByte>
    requires |x| == |y|
    decreases |x|
  {
    if |x| == 0 then []
    else
      var i := |x| - 1;
      Differences(x[..i], y[..i], start)
        + (if x[i] != y[i] then [DifferentByte(start + i, x[i], y[i])] else [])
  }

  /** The bytes of `x` whose absolute position (counted from `start`) lies in
      the diagnostic window, in order. */
  function Window(x: seq<byte>, start: int): seq<byte>
    decreases |x|
  {
    if |x| == 0 then []
    else
      var i := |x| - 1;
      Window(x[..i], start) + (if InWindow(start + i) then [x[i]] else [])
  }

  /** A record is reported exactly when its position holds two different
      bytes, and it carries those two bytes. */
  lemma {:induction false} DifferencesExactly(x: seq<byte>, y: seq<byte>, start: int)
    requires |x| == |y|
    ensures forall d :: d in Differences(x, y, start) <==>
      && start <= d.position < start + |x|
      && x[d.position - start] != y[d.position - start]
      && d.jarResourceByte == x[d.position - start]
      && d.tmpFileByte == y[d.position - start]
    decreases |x|
  {
    if |x| > 0 {
      var i := |x| - 1;
      DifferencesExactly(x[..i], y[..i], start);
    }
  }

  /** The records come in strictly increasing position order. */
  lemma {:induction false} DifferencesIncreasing(x: seq<byte>, y: seq<byte>, start: int)
    requires |x| == |y|
    ensures StrictlyIncreasing(Differences(x, y, start))
    decreases |x|
  {
    if |x| > 0 {
      var i := |x| - 1;
      DifferencesIncreasing(x[..i], y[..i], start);
      DifferencesExactly(x[..i], y[..i], start);
      var earlier := Differences(x[..i], y[..i], start);
      assert forall j :: 0 <= j < |earlier| ==> earlier[j] in earlier;
    }
  }

  /** Every record shows two different bytes, lies inside the compared range,
      and the records come in strictly increasing position order. */
  lemma {:induction false} DifferencesOrdered(x: seq<byte>, y: seq<byte>, start: int)
    requires |x| == |y|
    ensures forall d :: d in Differences(x, y, start) ==> d.jarResourceByte != d.tmpFileByte
    ensures forall d :: d in Differences(x, y, start) ==> start <= d.position < start + |x|
    ensures StrictlyIncreasing(Differences(x, y, start))
  {
    DifferencesExactly(x, y, start);
    DifferencesIncreasing(x, y, start);
  }

  /** Identical sequences have no differences. */
  lemma {:induction false} NoDifferencesInEqual(x: seq<byte>, start: int)
    ensures Differences(x, x, start) == []
    decreases |x|
  {
    if |x| > 0 {
      NoDifferencesInEqual(x[..|x| - 1], start);
    }
  }

  /** Comparing two concatenations chunk by chunk gives the same records as
      comparing them whole. */
  lemma {:induction false} DifferencesAppend(x1: seq<byte>, x2: seq<byte>, y1: seq<byte>, y2: seq<byte>, start: int)
    requires |x1| == |y1| && |x2| == |y2|
    ensures Differences(x1 + x2, y1 + y2, start)
      == Differences(x1, y1, start) + Differences(x2, y2, start + |x1|)
    decreases |x2|
  {
    if |x2| == 0 {
      assert x1 + x2 == x1 && y1 + y2 == y1;
    } else {
      var j := |x2| - 1;
      var x, y := x1 + x2, y1 + y2;
      var i := |x| - 1;
      assert x[..i] == x1 + x2[..j] && y[..i] == y1 + y2[..j];
      assert x[i] == x2[j] && y[i] == y2[j];
      var last := if x[i] != y[i] then [DifferentByte(start + i, x[i], y[i])] else [];
      assert Differences(x, y, start) == Differences(x[..i], y[..i], start) + last;
      assert Differences(x2, y2, start + |x1|)
          == Differences(x2[..j], y2[..j], start + |x1|) + last;
      DifferencesAppend(x1, x2[..j], y1, y2[..j], start);
    }
  }

  /** Two sequences that agree except at one index differ only there. */
  lemma SingleDifference(p: seq<byte>, u: byte, w: byte, q: seq<byte>, start: int)
    requires u != w
    ensures Differences(p + [u] + q, p + [w] + q, start) == [DifferentByte(start + |p|, u, w)]
  {
    DifferencesAppend(p + [u], q, p + [w], q, start);
    DifferencesAppend(p, [u], p, [w], start);
    NoDifferencesInEqual(p, start);
    NoDifferencesInEqual(q, start + |p| + 1);
    var one: seq<byte>, other: seq<byte> := [u], [w];
    assert Differences(one, other, start + |p|) == [DifferentByte(start + |p|, u, w)] by {
      assert one[..0] == [] && other[..0] == [];
    }
  }

  lemma {:induction false} WindowAppend(x1: seq<byte>, x2: seq<byte>, start: int)
    ensures Window(x1 + x2, start) == Window(x1, start) + Window(x2, start + |x1|)
    decreases |x2|
  {
    if |x2| == 0 {
      assert x1 + x2 == x1;
    } else {
      var j := |x2| - 1;
      assert (x1 + x2)[..|x1| + j] == x1 + x2[..j];
      WindowAppend(x1, x2[..j], start);
    }
  }

  /** Counted from position 0, the window is the slice of `x` between the
      window bounds, cut off where `x` ends. */
  lemma {:induction false} WindowIsSlice(x: seq<byte>)
    ensures Window(x, 0) == x[Min(|x|, WindowStart)..Min(|x|, WindowEnd)]
    decreases |x|
  {
    if |x| > 0 {
      var i := |x| - 1;
      WindowIsSlice(x[..i]);
      assert Window(x, 0) == Window(x[..i], 0) + (if InWindow(i) then [x[i]] else []);
      if i < WindowStart {
        assert Window(x, 0) == [];
      } else if i < WindowEnd {
        assert x[WindowStart..i + 1] == x[..i][WindowStart..i] + [x[i]];
      } else {
        assert x[WindowStart..WindowEnd] == x[..i][WindowStart..WindowEnd];
      }
    }
  }

  /** A chunk that lies wholly before or wholly after the window copies nothing. */
  lemma {:induction false} WindowOutside(x: seq<byte>, start: int)
    requires start + |x| <= WindowStart || WindowEnd <= start
    ensures Window(x, start) == []
    decreases |x|
  {
    if |x| > 0 {
      WindowOutside(x[..|x| - 1], start);
    }
  }
}
