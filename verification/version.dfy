/** `getVersion`: the library version read from `jansi.properties`, cut down
    to digits and dots, with `"unknown"` as fallback. */
module Version {
  import opened Wrappers

  const Unknown: string := "unknown"

  /** What loading the properties resource finds: `None` when the resource is
      missing, `Some(None)` when it has no `version` key, `Some(Some(v))` when
      the key holds `v`. `loadFails` stands for an `IOException` thrown while
      opening or parsing the resource. */
  datatype VersionSource = VersionSource(properties: Option<Option<string>>, loadFails: bool)

  /** Characters at or below the space, which `String.trim` removes. */
  predicate IsTrimmed(c: char)
  {
    c <= ' '
  }

  /** The characters the pattern `[^0-9.]` does not match. */
  predicate IsVersionChar(c: char)
  {
    '0' <= c <= '9' || c == '.'
  }

  predicate AllVersionChars(s: string)
  {
    forall i :: 0 <= i < |s| ==> IsVersionChar(s[i])
  }

  function TrimStart(s: string): (t: string)
    ensures |t| <= |s| && t == s[|s| - |t|..]
    ensures |t| > 0 ==> !IsTrimmed(t[0])
    ensures forall k :: 0 <= k < |s| - |t| ==> IsTrimmed(s[k])
    decreases |s|
  {
    if |s| > 0 && IsTrimmed(s[0]) then TrimStart(s[1..]) else s
  }

  function TrimEnd(s: string): (t: string)
    ensures |t| <= |s| && t == s[..|t|]
    ensures |t| > 0 ==> !IsTrimmed(t[|t| - 1])
    ensures forall k :: |t| <= k < |s| ==> IsTrimmed(s[k])
    decreases |s|
  {
    if |s| > 0 && IsTrimmed(s[|s| - 1]) then TrimEnd(s[..|s| - 1]) else s
  }

  /** `String.trim`: drops the leading and trailing characters at or below
      the space, and keeps everything between them. */
  function Trim(s: string): (t: string)
    ensures |t| <= |s|
    ensures |t| > 0 ==> !IsTrimmed(t[0]) && !IsTrimmed(t[|t| - 1])
    ensures var i := |s| - |TrimStart(s)|;
      && i + |t| <= |s|
      && t == s[i..i + |t|]
      && (forall k :: 0 <= k < i ==> IsTrimmed(s[k]))
      && (forall k :: i + |t| <= k < |s| ==> IsTrimmed(s[k]))
  {
    var u := TrimStart(s);
    var t := TrimEnd(u);
    PrefixOfSuffix(s, u, t);
    t
  }

  /** A prefix `t` of a suffix `u` of `s` is the slice of `s` where `u` starts. */
  lemma PrefixOfSuffix(s: string, u: string, t: string)
    requires |u| <= |s| && u == s[|s| - |u|..]
    requires |t| <= |u| && t == u[..|t|]
    ensures t == s[|s| - |u|..|s| - |u| + |t|]
  {
    assert u[..|t|] == s[|s| - |u|..][..|t|];
  }

  /** `replaceAll("[^0-9.]", "")`: keeps the digits and dots, in order. */
  function KeepVersionChars(s: string): (r: string)
    ensures |r| <= |s|
    ensures AllVersionChars(r)
    decreases |s|
  {
    if |s| == 0 then []
    else if IsVersionChar(s[0]) then [s[0]] + KeepVersionChars(s[1..])
    else KeepVersionChars(s[1..])
  }

  /** `getVersion()`: the version sanitised, or `"unknown"` when the resource
      is missing or cannot be loaded. A missing key falls back to `"unknown"`
      first and is then sanitised like any value, which leaves `""`. */
  function GetVersion(src: VersionSource): (version: string)
    ensures version == Unknown <==> src.properties.None? || src.loadFails
    ensures version != Unknown ==> AllVersionChars(version)
    ensures src.properties == Some(None) && !src.loadFails ==> version == ""
    ensures src.properties.Some? && src.properties.value.Some? && !src.loadFails ==>
      version == KeepVersionChars(src.properties.value.value)
  {
    match src.properties
    case None => Unknown
    case Some(props) =>
      if src.loadFails then Unknown
      else
        var raw := match props case None => Unknown case Some(v) => v;
        var version := KeepVersionChars(Trim(raw));
        TrimIrrelevant(raw);
        assert version != Unknown by {
          assert !IsVersionChar(Unknown[0]);
        }
        UnknownSanitisesToNothing();
        version
  }

  /** The fallback itself holds no digit or dot. */
  lemma UnknownSanitisesToNothing()
    ensures KeepVersionChars(Trim(Unknown)) == ""
  {
    assert forall i :: 0 <= i < |Unknown| ==> !IsVersionChar(Unknown[i]);
    NoVersionCharsSanitiseToNothing(Unknown);
  }

  /** A value without digits or dots sanitises to nothing, trimmed or not. */
  lemma NoVersionCharsSanitiseToNothing(s: string)
    requires forall i :: 0 <= i < |s| ==> !IsVersionChar(s[i])
    ensures KeepVersionChars(Trim(s)) == ""
  {
    TrimIrrelevant(s);
    KeepDropsAll(s);
  }

  /** `s` occurs in `t` in order, possibly with gaps. */
  predicate IsSubsequence(s: string, t: string)
    decreases |t|
  {
    if |s| == 0 then true
    else if |t| == 0 then false
    else if s[0] == t[0] then IsSubsequence(s[1..], t[1..])
    else IsSubsequence(s, t[1..])
  }

  /** Sanitising only deletes characters: the result is an order-preserving
      subsequence of the input. */
  lemma {:induction false} KeepIsSubsequence(s: string)
    ensures IsSubsequence(KeepVersionChars(s), s)
    decreases |s|
  {
    if |s| > 0 {
      KeepIsSubsequence(s[1..]);
      var rest := KeepVersionChars(s[1..]);
      if !IsVersionChar(s[0]) && |rest| > 0 {
        assert IsVersionChar(rest[0]);
      }
    }
  }

  /** Sanitising keeps every digit and dot of its input, as often as it occurs. */
  lemma {:induction false} KeepCountsVersionChars(s: string)
    ensures forall c :: IsVersionChar(c) ==> multiset(KeepVersionChars(s))[c] == multiset(s)[c]
    decreases |s|
  {
    if |s| > 0 {
      KeepCountsVersionChars(s[1..]);
      assert s == [s[0]] + s[1..];
      assert multiset(s) == multiset([s[0]]) + multiset(s[1..]);
    }
  }

  /** Sanitising distributes over concatenation, so it is fixed by what it
      does to each single character. */
  lemma {:induction false} KeepAppend(s: string, t: string)
    ensures KeepVersionChars(s + t) == KeepVersionChars(s) + KeepVersionChars(t)
    decreases |s|
  {
    if |s| == 0 {
      assert s + t == t;
    } else {
      assert (s + t)[1..] == s[1..] + t;
      KeepAppend(s[1..], t);
    }
  }

  /** A string made of digits and dots only is left as it is. */
  lemma {:induction false} KeepLeavesVersionStrings(s: string)
    requires AllVersionChars(s)
    ensures KeepVersionChars(s) == s
    decreases |s|
  {
    if |s| > 0 {
      KeepLeavesVersionStrings(s[1..]);
    }
  }

  /** Sanitising twice is sanitising once. */
  lemma {:induction false} KeepIdempotent(s: string)
    ensures KeepVersionChars(KeepVersionChars(s)) == KeepVersionChars(s)
  {
    KeepLeavesVersionStrings(KeepVersionChars(s));
  }

  /** A string without digits or dots sanitises to nothing. */
  lemma {:induction false} KeepDropsAll(s: string)
    requires forall i :: 0 <= i < |s| ==> !IsVersionChar(s[i])
    ensures KeepVersionChars(s) == ""
    decreases |s|
  {
    if |s| > 0 {
      KeepDropsAll(s[1..]);
    }
  }

  lemma {:induction false} TrimStartKeeps(s: string)
    ensures KeepVersionChars(TrimStart(s)) == KeepVersionChars(s)
    decreases |s|
  {
    if |s| > 0 && IsTrimmed(s[0]) {
      TrimStartKeeps(s[1..]);
    }
  }

  lemma {:induction false} TrimEndKeeps(s: string)
    ensures KeepVersionChars(TrimEnd(s)) == KeepVersionChars(s)
    decreases |s|
  {
    if |s| > 0 && IsTrimmed(s[|s| - 1]) {
      var init, last := s[..|s| - 1], [s[|s| - 1]];
      TrimEndKeeps(init);
      assert s == init + last;
      KeepAppend(init, last);
      assert KeepVersionChars(last) == "";
    }
  }

  /** Trimming before sanitising changes nothing: every character trim removes
      is also removed by the filter. */
  lemma TrimIrrelevant(s: string)
    ensures KeepVersionChars(Trim(s)) == KeepVersionChars(s)
  {
    TrimStartKeeps(s);
    TrimEndKeeps(TrimStart(s));
  }
}
