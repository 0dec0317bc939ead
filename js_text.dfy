/**
 * The two JavaScript string built-ins the CSV reader relies on:
 * `String.prototype.split` with a one-character separator and
 * `String.prototype.trim`.
 *
 * `Split` is pinned down by its inverse `Join` (both round trips are
 * proved); `Trim` by `IsTrimOf`, which it satisfies and which has exactly
 * one solution.
 */
module JsText {

  /**
   * The characters `trim` removes: the ECMAScript WhiteSpace code points
   * (tab, vertical tab, form feed, space, no-break space, the byte order
   * mark and the other space separators) and the LineTerminator ones
   * (line feed, carriage return, line and paragraph separators).
   */
  predicate IsJsWhitespace(c: char) {
    var n := c as int;
    n == 0x09 || n == 0x0A || n == 0x0B || n == 0x0C || n == 0x0D ||
    n == 0x20 || n == 0xA0 || n == 0x1680 || (0x2000 <= n <= 0x200A) ||
    n == 0x2028 || n == 0x2029 || n == 0x202F || n == 0x205F ||
    n == 0x3000 || n == 0xFEFF
  }

  // ---------------------------------------------------------------------
  // split

  /**
   * `s.split(sep)`: the pieces between separators, always at least one
   * (the empty string splits into one empty piece).
   */
  function Split(s: string, sep: char): (parts: seq<string>)
    ensures |parts| >= 1
  {
    if |s| == 0 then [""]
    else
      var rest := Split(s[1..], sep);
      if s[0] == sep then [""] + rest
      else [[s[0]] + rest[0]] + rest[1..]
  }

  /** No piece holds the separator, and there is one more piece than separators. */
  lemma {:induction false} SplitPieces(s: string, sep: char)
    ensures forall k :: 0 <= k < |Split(s, sep)| ==> sep !in Split(s, sep)[k]
    ensures |Split(s, sep)| == multiset(s)[sep] + 1
  {
    if |s| > 0 {
      SplitPieces(s[1..], sep);
      assert s == [s[0]] + s[1..];
      var rest := Split(s[1..], sep);
      if s[0] != sep {
        assert forall k :: 1 <= k < |Split(s, sep)| ==> Split(s, sep)[k] == rest[k];
      }
    }
  }

  /** `parts.join(sep)`, the inverse of `Split`. */
  function Join(parts: seq<string>, sep: char): string
    requires |parts| >= 1
  {
    if |parts| == 1 then parts[0] else parts[0] + [sep] + Join(parts[1..], sep)
  }

  /** Joining the pieces back gives the text that was split. */
  lemma {:induction false} JoinSplit(s: string, sep: char)
    ensures Join(Split(s, sep), sep) == s
  {
    if |s| > 0 {
      JoinSplit(s[1..], sep);
      var rest := Split(s[1..], sep);
      if s[0] != sep {
        var parts := [[s[0]] + rest[0]] + rest[1..];
        assert parts[1..] == rest[1..];
        if |rest| > 1 {
          assert rest == [rest[0]] + rest[1..];
          assert Join(rest, sep) == rest[0] + [sep] + Join(rest[1..], sep);
        }
      }
    }
  }

  /** Splitting text that starts with a piece free of `sep` extends the first piece only. */
  lemma {:induction false} SplitPrefix(p: string, t: string, sep: char)
    requires sep !in p
    ensures Split(p + t, sep) == [p + Split(t, sep)[0]] + Split(t, sep)[1..]
  {
    if |p| > 0 {
      SplitPrefix(p[1..], t, sep);
      assert (p + t)[1..] == p[1..] + t;
      assert (p + t)[0] == p[0];
      assert [p[0]] + (p[1..] + Split(t, sep)[0]) == p + Split(t, sep)[0];
    } else {
      var parts := Split(t, sep);
      assert p + t == t;
      assert p + parts[0] == parts[0];
      assert parts == [parts[0]] + parts[1..];
    }
  }

  /** Splitting joined pieces that hold no separator gives the pieces back. */
  lemma {:induction false} SplitJoin(parts: seq<string>, sep: char)
    requires |parts| >= 1
    requires forall k :: 0 <= k < |parts| ==> sep !in parts[k]
    ensures Split(Join(parts, sep), sep) == parts
  {
    if |parts| == 1 {
      SplitPrefix(parts[0], "", sep);
      assert parts[0] + "" == parts[0];
    } else {
      var t := [sep] + Join(parts[1..], sep);
      SplitJoin(parts[1..], sep);
      assert t[1..] == Join(parts[1..], sep);
      assert Split(t, sep) == [""] + parts[1..];
      SplitPrefix(parts[0], t, sep);
      assert parts[0] + [sep] + Join(parts[1..], sep) == parts[0] + t;
      assert parts[0] + "" == parts[0];
      assert parts == [parts[0]] + parts[1..];
    }
  }

  // ---------------------------------------------------------------------
  // trim

  /** `s[lo..hi]` is `s` with its leading and trailing whitespace removed. */
  predicate TrimmedAt(s: string, lo: int, hi: int) {
    0 <= lo <= hi <= |s| &&
    (forall i :: 0 <= i < lo ==> IsJsWhitespace(s[i])) &&
    (forall i :: hi <= i < |s| ==> IsJsWhitespace(s[i])) &&
    (lo == hi || (!IsJsWhitespace(s[lo]) && !IsJsWhitespace(s[hi - 1])))
  }

  ghost predicate IsTrimOf(r: string, s: string) {
    exists lo, hi :: TrimmedAt(s, lo, hi) && r == s[lo..hi]
  }

  /** Drops the leading whitespace: a suffix of `s` that does not start with whitespace. */
  function TrimStart(s: string): string {
    if |s| > 0 && IsJsWhitespace(s[0]) then TrimStart(s[1..]) else s
  }

  /** Drops the trailing whitespace: a prefix of `s` that does not end with whitespace. */
  function TrimEnd(s: string): string {
    if |s| > 0 && IsJsWhitespace(s[|s| - 1]) then TrimEnd(s[..|s| - 1]) else s
  }

  /**
   * `s.trim()`: no whitespace at either end of the result, and a string
   * without whitespace at its ends is left as it is.
   */
  function Trim(s: string): (r: string)
    ensures |r| <= |s|
    ensures r == [] || (!IsJsWhitespace(r[0]) && !IsJsWhitespace(r[|r| - 1]))
    ensures (s == [] || (!IsJsWhitespace(s[0]) && !IsJsWhitespace(s[|s| - 1]))) ==> r == s
  {
    var a := TrimStart(s);
    TrimStartDropsLeadingWhitespace(s);
    TrimEndDropsTrailingWhitespace(a);
    assert a != [] ==> TrimEnd(a) == [] || TrimEnd(a)[0] == a[0];
    TrimEnd(a)
  }

  /** `TrimStart` drops exactly the leading whitespace. */
  lemma {:induction false} TrimStartDropsLeadingWhitespace(s: string)
    ensures |TrimStart(s)| <= |s| && TrimStart(s) == s[|s| - |TrimStart(s)|..]
    ensures TrimStart(s) == [] || !IsJsWhitespace(TrimStart(s)[0])
    ensures forall i :: 0 <= i < |s| - |TrimStart(s)| ==> IsJsWhitespace(s[i])
  {
    if |s| > 0 && IsJsWhitespace(s[0]) {
      TrimStartDropsLeadingWhitespace(s[1..]);
    }
  }

  /** `TrimEnd` drops exactly the trailing whitespace. */
  lemma {:induction false} TrimEndDropsTrailingWhitespace(s: string)
    ensures |TrimEnd(s)| <= |s| && TrimEnd(s) == s[..|TrimEnd(s)|]
    ensures TrimEnd(s) == [] || !IsJsWhitespace(TrimEnd(s)[|TrimEnd(s)| - 1])
    ensures forall i :: |TrimEnd(s)| <= i < |s| ==> IsJsWhitespace(s[i])
  {
    if |s| > 0 && IsJsWhitespace(s[|s| - 1]) {
      TrimEndDropsTrailingWhitespace(s[..|s| - 1]);
    }
  }

  /** `Trim` removes the leading and trailing whitespace and nothing else. */
  lemma TrimRemovesSurroundingWhitespace(s: string)
    ensures IsTrimOf(Trim(s), s)
  {
    var a := TrimStart(s);
    var r := TrimEnd(a);
    TrimStartDropsLeadingWhitespace(s);
    TrimEndDropsTrailingWhitespace(a);
    var lo := |s| - |a|;
    var hi := lo + |r|;
    assert r == s[lo..hi];
    assert forall i :: hi <= i < |s| ==> s[i] == a[i - lo];
    assert forall i :: hi <= i < |s| ==> IsJsWhitespace(s[i]);
    assert lo < hi ==> s[lo] == r[0] && s[hi - 1] == r[|r| - 1];
    assert TrimmedAt(s, lo, hi);
  }

  /** The bounds of a trim are determined by the string. */
  lemma TrimBoundsUnique(s: string, lo1: int, hi1: int, lo2: int, hi2: int)
    requires TrimmedAt(s, lo1, hi1) && TrimmedAt(s, lo2, hi2)
    ensures s[lo1..hi1] == s[lo2..hi2]
  {
    if lo1 < hi1 && lo2 < hi2 {
      assert !(lo1 < lo2) by { assert !IsJsWhitespace(s[lo1]); }
      assert !(lo2 < lo1) by { assert !IsJsWhitespace(s[lo2]); }
      assert !(hi1 < hi2) by { assert !IsJsWhitespace(s[hi2 - 1]); }
      assert !(hi2 < hi1) by { assert !IsJsWhitespace(s[hi1 - 1]); }
    } else if lo1 < hi1 || lo2 < hi2 {
      // a non-empty trim and an empty one cannot both exist
      assert false;
    }
  }

  /** There is only one way to trim a string, so `IsTrimOf` defines `Trim`. */
  lemma TrimIsUnique(r1: string, r2: string, s: string)
    requires IsTrimOf(r1, s) && IsTrimOf(r2, s)
    ensures r1 == r2
  {
    var lo1, hi1 :| TrimmedAt(s, lo1, hi1) && r1 == s[lo1..hi1];
    var lo2, hi2 :| TrimmedAt(s, lo2, hi2) && r2 == s[lo2..hi2];
    TrimBoundsUnique(s, lo1, hi1, lo2, hi2);
  }
}
