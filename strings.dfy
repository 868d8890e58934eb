/**
 * The java.lang.String operations the proxy relies on, over `string`, a
 * sequence of Unicode scalar values (Java's strings are UTF-16 code units;
 * nothing here depends on the difference, because every separator, prefix
 * and case-insensitive name compared is ASCII):
 *  - `split` with a literal separator and no limit (trailing empty pieces dropped),
 *  - joining pieces with a separator (what a StringBuilder loop produces),
 *  - `startsWith`, `equalsIgnoreCase` restricted to ASCII case folding,
 *  - `Integer.toString`, with a decimal parser as its inverse.
 */
module Strings {
  import opened Wrappers

  /** `s.startsWith(prefix)`. */
  predicate StartsWith(s: string, prefix: string) {
    |prefix| <= |s| && s[..|prefix|] == prefix
  }

  /** `sep` occurs in `s` starting at index `i`. */
  predicate OccursAt(s: string, sep: string, i: int) {
    0 <= i && i + |sep| <= |s| && s[i..i + |sep|] == sep
  }

  ghost predicate Contains(s: string, sep: string) {
    exists i :: OccursAt(s, sep, i)
  }

  /**
   * `sep` does not occur in `p`, not even straddling the end of `p` when `sep`
   * is written after it: `p` can be followed by `sep` in a joined string
   * without moving the first occurrence of `sep` back into `p`.
   */
  ghost predicate SepFree(p: string, sep: string) {
    forall j :: 0 <= j < |p| ==> !OccursAt(p + sep, sep, j)
  }

  /** The first index at or after `from` where `sep` occurs in `s`, as `s.indexOf(sep, from)`. */
  function IndexOfFrom(s: string, sep: string, from: nat): (r: Option<nat>)
    requires sep != []
    ensures r.Some? ==> from <= r.value && OccursAt(s, sep, r.value)
    ensures r.Some? ==> forall j :: from <= j < r.value ==> !OccursAt(s, sep, j)
    ensures r.None? ==> forall j :: from <= j ==> !OccursAt(s, sep, j)
    decreases |s| - from
  {
    if from + |sep| > |s| then None
    else if s[from..from + |sep|] == sep then Some(from)
    else IndexOfFrom(s, sep, from + 1)
  }

  /** The pieces between the leftmost non-overlapping occurrences of `sep`, empty pieces included. */
  function RawSplit(s: string, sep: string): seq<string>
    requires sep != []
    decreases |s|
  {
    match IndexOfFrom(s, sep, 0)
    case None => [s]
    case Some(i) => [s[..i]] + RawSplit(s[i + |sep|..], sep)
  }

  /** Removes the empty pieces at the end, as `String.split` does when called without a limit. */
  function DropTrailingEmpty(ps: seq<string>): (r: seq<string>)
    ensures |r| <= |ps| && r == ps[..|r|]
    ensures r == [] || r[|r| - 1] != ""
    ensures forall k :: |r| <= k < |ps| ==> ps[k] == ""
  {
    if ps != [] && ps[|ps| - 1] == "" then DropTrailingEmpty(ps[..|ps| - 1]) else ps
  }

  /**
   * `s.split(sep)` for a separator without regular-expression metacharacters:
   * when `sep` does not occur the result is `[s]` (so `"".split(sep)` is `[""]`);
   * otherwise the raw pieces with the trailing empty ones removed, which can
   * leave no piece at all.
   */
  function Split(s: string, sep: string): seq<string>
    requires sep != []
  {
    if IndexOfFrom(s, sep, 0).None? then [s] else DropTrailingEmpty(RawSplit(s, sep))
  }

  /** The pieces with `sep` between consecutive ones. */
  function Join(ps: seq<string>, sep: string): string {
    if |ps| == 0 then ""
    else if |ps| == 1 then ps[0]
    else ps[0] + sep + Join(ps[1..], sep)
  }

  lemma {:induction false} JoinAppend(ps: seq<string>, x: string, sep: string)
    requires ps != []
    ensures Join(ps + [x], sep) == Join(ps, sep) + sep + x
  {
    if |ps| == 1 {
      assert ps + [x] == [ps[0], x];
      assert Join([x], sep) == x;
    } else {
      assert (ps + [x])[1..] == ps[1..] + [x];
      JoinAppend(ps[1..], x, sep);
    }
  }

  lemma JoinIsEmpty(ps: seq<string>, sep: string)
    requires forall p :: p in ps ==> p != ""
    ensures Join(ps, sep) == "" <==> ps == []
  {
    if ps != [] {
      assert ps[0] in ps;
      assert |Join(ps, sep)| >= |ps[0]|;
    }
  }

  /** A piece that `sep` cannot be found in is not found in any of its slices. */
  lemma NotContainsSlice(s: string, x: string, a: nat, b: nat)
    requires a <= b <= |s|
    requires !Contains(s, x)
    ensures !Contains(s[a..b], x)
  {
    forall j
      ensures !OccursAt(s[a..b], x, j)
    {
      if 0 <= j && j + |x| <= b - a {
        var inSlice, inWhole := s[a..b][j..j + |x|], s[a + j..a + j + |x|];
        forall k | 0 <= k < |x|
          ensures inSlice[k] == inWhole[k]
        {
        }
        assert inSlice == inWhole;
        assert !OccursAt(s, x, a + j);
      }
    }
  }

  /** No raw piece contains the separator itself. */
  lemma {:induction false} RawSplitPiecesAvoidSep(s: string, sep: string)
    requires sep != []
    ensures forall p :: p in RawSplit(s, sep) ==> !Contains(p, sep)
    decreases |s|
  {
    match IndexOfFrom(s, sep, 0)
    case None =>
    case Some(i) =>
      forall j
        ensures !OccursAt(s[..i], sep, j)
      {
        if 0 <= j && j + |sep| <= i {
          assert s[..i][j..j + |sep|] == s[j..j + |sep|];
          assert !OccursAt(s, sep, j);
        }
      }
      RawSplitPiecesAvoidSep(s[i + |sep|..], sep);
  }

  /** What cannot be found in `s` cannot be found in any raw piece of `s`. */
  lemma {:induction false} RawSplitPiecesInherit(s: string, sep: string, x: string)
    requires sep != []
    requires !Contains(s, x)
    ensures forall p :: p in RawSplit(s, sep) ==> !Contains(p, x)
    decreases |s|
  {
    match IndexOfFrom(s, sep, 0)
    case None =>
    case Some(i) =>
      NotContainsSlice(s, x, 0, i);
      NotContainsSlice(s, x, i + |sep|, |s|);
      assert s[i + |sep|..|s|] == s[i + |sep|..];
      RawSplitPiecesInherit(s[i + |sep|..], sep, x);
  }

  /** No piece of `s.split(sep)` contains `sep`. */
  lemma SplitPiecesAvoidSep(s: string, sep: string)
    requires sep != []
    ensures forall p :: p in Split(s, sep) ==> !Contains(p, sep)
  {
    RawSplitPiecesAvoidSep(s, sep);
  }

  /** The pieces of `s.split(sep)` inherit every substring `s` lacks. */
  lemma SplitPiecesInherit(s: string, sep: string, x: string)
    requires sep != []
    requires !Contains(s, x)
    ensures forall p :: p in Split(s, sep) ==> !Contains(p, x)
  {
    RawSplitPiecesInherit(s, sep, x);
  }

  lemma SepFreeAvoidsSep(p: string, sep: string)
    requires sep != [] && SepFree(p, sep)
    ensures !Contains(p, sep)
  {
    forall j
      ensures !OccursAt(p, sep, j)
    {
      if 0 <= j && j + |sep| <= |p| {
        assert !OccursAt(p + sep, sep, j);
        assert (p + sep)[j..j + |sep|] == p[j..j + |sep|];
      }
    }
  }

  /** Joining pieces that are free of `sep` and splitting again gives the raw pieces back. */
  lemma {:induction false} RawSplitJoin(ps: seq<string>, sep: string)
    requires sep != [] && ps != []
    requires forall p :: p in ps ==> SepFree(p, sep)
    ensures RawSplit(Join(ps, sep), sep) == ps
  {
    var p := ps[0];
    assert p in ps;
    if |ps| == 1 {
      SepFreeAvoidsSep(p, sep);
    } else {
      var rest := Join(ps[1..], sep);
      var s := p + sep + rest;
      assert Join(ps, sep) == s;
      assert s[..|p| + |sep|] == p + sep;
      assert OccursAt(s, sep, |p|) by {
        assert s[|p|..|p| + |sep|] == sep;
      }
      forall j | 0 <= j < |p|
        ensures !OccursAt(s, sep, j)
      {
        assert !OccursAt(p + sep, sep, j);
        assert (p + sep)[j..j + |sep|] == s[j..j + |sep|];
      }
      var r := IndexOfFrom(s, sep, 0);
      assert r == Some(|p|);
      assert s[..|p|] == p;
      assert s[|p| + |sep|..] == rest;
      RawSplitJoin(ps[1..], sep);
      assert RawSplit(s, sep) == [p] + ps[1..];
    }
  }

  /** `Join(ps, sep).split(sep)` is `ps` when the pieces are free of `sep` and the last one is not empty. */
  lemma SplitJoin(ps: seq<string>, sep: string)
    requires sep != [] && ps != [] && ps[|ps| - 1] != ""
    requires forall p :: p in ps ==> SepFree(p, sep)
    ensures Split(Join(ps, sep), sep) == ps
  {
    RawSplitJoin(ps, sep);
    if |ps| >= 2 {
      var p := ps[0];
      var s := Join(ps, sep);
      assert s == p + sep + Join(ps[1..], sep);
      assert s[|p|..|p| + |sep|] == sep;
      assert OccursAt(s, sep, |p|);
    } else {
      SepFreeAvoidsSep(ps[0], sep);
    }
  }

  /** A piece that lacks the separator's first character is free of the separator. */
  lemma FirstCharSepFree(p: string, sep: string)
    requires sep != []
    requires forall k :: 0 <= k < |p| ==> p[k] != sep[0]
    ensures SepFree(p, sep)
  {
    forall j | 0 <= j < |p|
      ensures !OccursAt(p + sep, sep, j)
    {
      if j + |sep| <= |p + sep| {
        assert (p + sep)[j..j + |sep|][0] == p[j];
      }
    }
  }

  /* ---------------- case-insensitive comparison ---------------- */

  function AsciiLower(c: char): char {
    if 'A' <= c <= 'Z' then (c as int + 32) as char else c
  }

  /** `a.equalsIgnoreCase(b)`, folding the ASCII letters only. */
  predicate EqualsIgnoreCase(a: string, b: string) {
    |a| == |b| && forall i :: 0 <= i < |a| ==> AsciiLower(a[i]) == AsciiLower(b[i])
  }

  /* ---------------- decimal numbers ---------------- */

  function Digit(d: nat): char
    requires d < 10
  {
    ('0' as int + d) as char
  }

  /** `Integer.toString(n)` for a non-negative `n`. */
  function NatToDecimal(n: nat): (r: string)
    ensures r != []
    ensures forall k :: 0 <= k < |r| ==> '0' <= r[k] <= '9'
    decreases n
  {
    if n < 10 then [Digit(n)] else NatToDecimal(n / 10) + [Digit(n % 10)]
  }

  /** `Integer.toString(n)`. */
  function IntToDecimal(n: int): string {
    if n < 0 then "-" + NatToDecimal(-n) else NatToDecimal(n)
  }

  /** The value of a string of decimal digits. */
  function ParseDecimal(s: string): int {
    if s == [] then 0 else ParseDecimal(s[..|s| - 1]) * 10 + (s[|s| - 1] as int - '0' as int)
  }

  lemma {:induction false} DecimalRoundTrip(n: nat)
    ensures ParseDecimal(NatToDecimal(n)) == n
    decreases n
  {
    if n >= 10 {
      var d := NatToDecimal(n / 10);
      assert (d + [Digit(n % 10)])[..|d|] == d;
      DecimalRoundTrip(n / 10);
    }
  }

  /** The last index of `c` in `s`, as `s.lastIndexOf(c)`. */
  function LastIndexOf(s: string, c: char): (r: Option<nat>)
    ensures r.Some? ==> r.value < |s| && s[r.value] == c && forall k :: r.value < k < |s| ==> s[k] != c
    ensures r.None? ==> forall k :: 0 <= k < |s| ==> s[k] != c
  {
    if s == [] then None
    else if s[|s| - 1] == c then Some(|s| - 1)
    else LastIndexOf(s[..|s| - 1], c)
  }
}
