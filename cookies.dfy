/**
 * Cookie re-scoping (ProxyHelper.getRealCookie and getCookieNamePrefix).
 * Cookies the proxy hands to its clients carry the name prefix
 * "!Proxy!" + servletName; on the way back in, only cookies carrying that
 * prefix are forwarded, with the prefix removed, and every other cookie of
 * the client is held back.
 *
 * The Cookie value is cut with `split("; ")` and every piece with
 * `split("=")`, so a piece is cut at EVERY '=', trailing empty parts are
 * discarded, and only pieces that yield exactly two parts are candidates.
 */
module CookieRewriter {
  import opened Wrappers
  import opened Strings

  const CookieSeparator := "; "

  /** getCookieNamePrefix(): the marker followed by the servlet's name. */
  function CookieNamePrefix(servletName: string): string {
    "!Proxy!" + servletName
  }

  /** A "; "-piece is forwarded: its "="-split has exactly two parts and the first carries the prefix. */
  predicate Qualifies(piece: string, prefix: string) {
    var kv := Split(piece, "=");
    |kv| == 2 && StartsWith(kv[0], prefix)
  }

  /** The forwarded form of a qualifying piece: its name without the prefix, "=", its value. */
  function Rewrite(piece: string, prefix: string): string
    requires Qualifies(piece, prefix)
  {
    var kv := Split(piece, "=");
    kv[0][|prefix|..] + "=" + kv[1]
  }

  /** The forwarded pairs, in input order. */
  function Emitted(pieces: seq<string>, prefix: string): seq<string> {
    if pieces == [] then []
    else
      var last := pieces[|pieces| - 1];
      Emitted(pieces[..|pieces| - 1], prefix)
        + (if Qualifies(last, prefix) then [Rewrite(last, prefix)] else [])
  }

  /**
   * The value getRealCookie returns: the forwarded pairs joined with "; ", or
   * the input unchanged when its split yields no piece at all (then the loop
   * that would overwrite it never runs).
   */
  function RealCookie(cookieValue: string, prefix: string): string {
    var pieces := Split(cookieValue, CookieSeparator);
    if pieces == [] then cookieValue else Join(Emitted(pieces, prefix), CookieSeparator)
  }

  /* ---------------- what is forwarded ---------------- */

  /** A forwarded pair is exactly the rewrite of some qualifying input piece. */
  lemma {:induction false} EmittedIff(pieces: seq<string>, prefix: string, q: string)
    ensures q in Emitted(pieces, prefix) <==>
            exists p :: p in pieces && Qualifies(p, prefix) && q == Rewrite(p, prefix)
  {
    if pieces != [] {
      var init := pieces[..|pieces| - 1];
      var last := pieces[|pieces| - 1];
      assert pieces == init + [last];
      EmittedIff(init, prefix, q);
      if q in Emitted(pieces, prefix) && q !in Emitted(init, prefix) {
        assert last in pieces;
      }
      if exists p :: p in pieces && Qualifies(p, prefix) && q == Rewrite(p, prefix) {
        var p :| p in pieces && Qualifies(p, prefix) && q == Rewrite(p, prefix);
        if p != last {
          assert p in init;
        }
      }
    }
  }

  lemma EmittedNonEmpty(pieces: seq<string>, prefix: string)
    ensures forall q :: q in Emitted(pieces, prefix) ==> q != ""
  {
    forall q | q in Emitted(pieces, prefix)
      ensures q != ""
    {
      EmittedIff(pieces, prefix, q);
      var p :| p in pieces && Qualifies(p, prefix) && q == Rewrite(p, prefix);
      var kv := Split(p, "=");
      assert q[|kv[0][|prefix|..]|] == '=';
    }
  }

  /** If at least one piece exists and none qualifies, the result is the empty string. */
  lemma {:induction false} RealCookieNoneQualify(cookieValue: string, prefix: string)
    requires Split(cookieValue, CookieSeparator) != []
    requires forall p :: p in Split(cookieValue, CookieSeparator) ==> !Qualifies(p, prefix)
    ensures RealCookie(cookieValue, prefix) == ""
  {
    var pieces := Split(cookieValue, CookieSeparator);
    if Emitted(pieces, prefix) != [] {
      var q := Emitted(pieces, prefix)[0];
      EmittedIff(pieces, prefix, q);
    }
  }

  /* ---------------- the rewritten value parses back into the forwarded pairs ---------------- */

  /** Text free of "; " stays free of it around a character that is neither ';' nor ' '. */
  lemma NoSeparatorAround(a: string, c: char, b: string)
    requires !Contains(a, CookieSeparator) && !Contains(b, CookieSeparator)
    requires c != ';' && c != ' '
    ensures !Contains(a + [c] + b, CookieSeparator)
  {
    var s := a + [c] + b;
    forall j
      ensures !OccursAt(s, CookieSeparator, j)
    {
      if 0 <= j && j + 2 <= |s| {
        if j + 2 <= |a| {
          assert s[j..j + 2] == a[j..j + 2];
          assert !OccursAt(a, CookieSeparator, j);
        } else if j == |a| - 1 {
          assert s[j + 1] == c;
        } else if j == |a| {
          assert s[j] == c;
        } else {
          var i := j - |a| - 1;
          assert s[j..j + 2] == b[i..i + 2];
          assert !OccursAt(b, CookieSeparator, i);
        }
      }
    }
  }

  /** Text free of "; " can be followed by "; " without creating an earlier occurrence. */
  lemma CookieSeparatorFree(q: string)
    requires !Contains(q, CookieSeparator)
    ensures SepFree(q, CookieSeparator)
  {
    var s := q + CookieSeparator;
    forall j | 0 <= j < |q|
      ensures !OccursAt(s, CookieSeparator, j)
    {
      if j + 2 <= |q| {
        assert s[j..j + 2] == q[j..j + 2];
        assert !OccursAt(q, CookieSeparator, j);
      } else {
        assert s[j + 1] == ';';
      }
    }
  }

  /** A forwarded pair made from a piece without "; " has no "; " either. */
  lemma RewriteSeparatorFree(piece: string, prefix: string)
    requires Qualifies(piece, prefix) && !Contains(piece, CookieSeparator)
    ensures SepFree(Rewrite(piece, prefix), CookieSeparator)
  {
    var kv := Split(piece, "=");
    SplitPiecesInherit(piece, "=", CookieSeparator);
    assert kv[0] in kv && kv[1] in kv;
    NotContainsSlice(kv[0], CookieSeparator, |prefix|, |kv[0]|);
    assert kv[0][|prefix|..|kv[0]|] == kv[0][|prefix|..];
    NoSeparatorAround(kv[0][|prefix|..], '=', kv[1]);
    assert Rewrite(piece, prefix) == kv[0][|prefix|..] + ['='] + kv[1];
    CookieSeparatorFree(Rewrite(piece, prefix));
  }

  /**
   * Whenever something is forwarded, splitting the rewritten Cookie value
   * again on "; " yields exactly the forwarded pairs, in order: the target
   * sees the re-scoped cookies and nothing else.
   */
  lemma RealCookieReparses(cookieValue: string, prefix: string)
    requires Split(cookieValue, CookieSeparator) != []
    requires Emitted(Split(cookieValue, CookieSeparator), prefix) != []
    ensures Split(RealCookie(cookieValue, prefix), CookieSeparator)
         == Emitted(Split(cookieValue, CookieSeparator), prefix)
  {
    var pieces := Split(cookieValue, CookieSeparator);
    var out := Emitted(pieces, prefix);
    SplitPiecesAvoidSep(cookieValue, CookieSeparator);
    forall q | q in out
      ensures SepFree(q, CookieSeparator)
    {
      EmittedIff(pieces, prefix, q);
      var p :| p in pieces && Qualifies(p, prefix) && q == Rewrite(p, prefix);
      RewriteSeparatorFree(p, prefix);
    }
    EmittedNonEmpty(pieces, prefix);
    assert out[|out| - 1] in out;
    SplitJoin(out, CookieSeparator);
  }

  /* ---------------- the value returned unchanged ---------------- */

  /** `k` copies of `sep`. */
  function Repeat(sep: string, k: nat): string {
    if k == 0 then "" else sep + Repeat(sep, k - 1)
  }

  lemma {:induction false} RawSplitOfRepeat(sep: string, k: nat)
    requires sep != []
    ensures RawSplit(Repeat(sep, k), sep) == seq(k + 1, _ => "")
  {
    var s := Repeat(sep, k);
    if k == 0 {
      assert IndexOfFrom(s, sep, 0).None?;
    } else {
      assert s[..|sep|] == sep;
      assert IndexOfFrom(s, sep, 0) == Some(0);
      assert s[|sep|..] == Repeat(sep, k - 1);
      RawSplitOfRepeat(sep, k - 1);
      assert RawSplit(s, sep) == [""] + seq(k, _ => "");
    }
  }

  lemma {:induction false} RawSplitAllEmpty(s: string, sep: string)
    requires sep != []
    requires forall p :: p in RawSplit(s, sep) ==> p == ""
    ensures s == Repeat(sep, |RawSplit(s, sep)| - 1)
    decreases |s|
  {
    match IndexOfFrom(s, sep, 0)
    case None =>
      assert s in RawSplit(s, sep);
    case Some(i) =>
      assert s[..i] in RawSplit(s, sep);
      var rest := s[i + |sep|..];
      assert forall p :: p in RawSplit(rest, sep) ==> p in RawSplit(s, sep);
      RawSplitAllEmpty(rest, sep);
      assert s == s[..i + |sep|] + rest;
  }

  /**
   * The split yields no piece exactly when the value is one or more copies of
   * "; " and nothing else; such a value is returned unchanged.
   */
  lemma NoPiecesIff(cookieValue: string, prefix: string)
    ensures Split(cookieValue, CookieSeparator) == [] <==>
            exists k :: 1 <= k && cookieValue == Repeat(CookieSeparator, k)
    ensures Split(cookieValue, CookieSeparator) == [] ==> RealCookie(cookieValue, prefix) == cookieValue
  {
    var sep := CookieSeparator;
    if Split(cookieValue, sep) == [] {
      var raw := RawSplit(cookieValue, sep);
      assert IndexOfFrom(cookieValue, sep, 0).Some?;
      assert forall p :: p in raw ==> p == "";
      RawSplitAllEmpty(cookieValue, sep);
      assert cookieValue[..IndexOfFrom(cookieValue, sep, 0).value] in raw;
      assert 1 <= |raw| - 1 by {
        var i := IndexOfFrom(cookieValue, sep, 0).value;
        assert raw == [cookieValue[..i]] + RawSplit(cookieValue[i + |sep|..], sep);
      }
    }
    if exists k :: 1 <= k && cookieValue == Repeat(sep, k) {
      var k :| 1 <= k && cookieValue == Repeat(sep, k);
      RawSplitOfRepeat(sep, k);
      assert cookieValue[..|sep|] == sep;
      assert OccursAt(cookieValue, sep, 0);
      DropAllEmpty(seq(k + 1, _ => ""));
    }
  }

  lemma {:induction false} DropAllEmpty(ps: seq<string>)
    requires forall p :: p in ps ==> p == ""
    ensures DropTrailingEmpty(ps) == []
  {
    if ps != [] {
      assert ps[|ps| - 1] in ps;
      var init := ps[..|ps| - 1];
      forall p | p in init
        ensures p == ""
      {
        var k :| 0 <= k < |init| && init[k] == p;
        assert ps[k] in ps;
      }
      DropAllEmpty(init);
    }
  }

  /**
   * One more piece for the loop of getRealCookie: the joined pairs grow by
   * the piece's rewrite, after a separator only when something was already
   * emitted, and the joined text is empty exactly when nothing was.
   */
  lemma JoinEmittedStep(pieces: seq<string>, p: string, prefix: string)
    ensures Join(Emitted(pieces, prefix), CookieSeparator) == "" <==> Emitted(pieces, prefix) == []
    ensures Join(Emitted(pieces + [p], prefix), CookieSeparator)
         == if !Qualifies(p, prefix) then Join(Emitted(pieces, prefix), CookieSeparator)
            else if Emitted(pieces, prefix) == [] then Rewrite(p, prefix)
            else Join(Emitted(pieces, prefix), CookieSeparator) + CookieSeparator + Rewrite(p, prefix)
  {
    var before := Emitted(pieces, prefix);
    EmittedNonEmpty(pieces, prefix);
    JoinIsEmpty(before, CookieSeparator);
    assert (pieces + [p])[..|pieces|] == pieces;
    if Qualifies(p, prefix) {
      assert Emitted(pieces + [p], prefix) == before + [Rewrite(p, prefix)];
      if before != [] {
        JoinAppend(before, Rewrite(p, prefix), CookieSeparator);
      } else {
        assert before + [Rewrite(p, prefix)] == [Rewrite(p, prefix)];
      }
    } else {
      assert Emitted(pieces + [p], prefix) == before;
    }
  }

  /* ---------------- typical inputs ---------------- */

  /** Text with neither '=' nor ';'. */
  ghost predicate Plain(t: string) {
    forall k :: 0 <= k < |t| ==> t[k] != '=' && t[k] != ';'
  }

  /** `n + "=" + v` splits on '=' into `[n, v]` when neither part has '=' and `v` is not empty. */
  lemma SplitPair(n: string, v: string)
    requires Plain(n) && Plain(v) && v != ""
    ensures Split(n + "=" + v, "=") == [n, v]
  {
    FirstCharSepFree(n, "=");
    FirstCharSepFree(v, "=");
    assert Join([n, v], "=") == n + "=" + v;
    SplitJoin([n, v], "=");
  }

  /** A plain `name=value` pair with the prefix is forwarded as `name=value`. */
  lemma PrefixedPairQualifies(prefix: string, name: string, value: string)
    requires Plain(prefix + name) && Plain(value) && value != ""
    ensures Qualifies(prefix + name + "=" + value, prefix)
    ensures Rewrite(prefix + name + "=" + value, prefix) == name + "=" + value
  {
    SplitPair(prefix + name, value);
    assert (prefix + name)[..|prefix|] == prefix;
    assert (prefix + name)[|prefix|..] == name;
  }

  /**
   * A prefixed pair followed by a foreign pair: only the first is forwarded,
   * without its prefix ("!Proxy!svcAname=val; other=ignored" becomes "name=val"
   * for the servlet named "svcA").
   */
  lemma ForeignPairDropped(prefix: string, name: string, value: string, other: string, otherValue: string)
    requires Plain(prefix + name) && Plain(value) && value != ""
    requires Plain(other) && Plain(otherValue) && otherValue != "" && !StartsWith(other, prefix)
    ensures RealCookie(prefix + name + "=" + value + "; " + other + "=" + otherValue, prefix)
         == name + "=" + value
  {
    var p0, p1 := prefix + name + "=" + value, other + "=" + otherValue;
    var v := p0 + "; " + p1;
    assert v == prefix + name + "=" + value + "; " + other + "=" + otherValue;
    FirstCharSepFree(p0, CookieSeparator);
    FirstCharSepFree(p1, CookieSeparator);
    assert [p0, p1][1..] == [p1];
    assert Join([p0, p1], CookieSeparator) == v;
    SplitJoin([p0, p1], CookieSeparator);
    PrefixedPairQualifies(prefix, name, value);
    SplitPair(other, otherValue);
    assert !Qualifies(p1, prefix);
    assert [p0, p1][..1] == [p0];
    assert |[p0][..0]| == 0;
    assert Emitted([p0], prefix) == [name + "=" + value];
    assert Emitted([p0, p1], prefix) == [name + "=" + value];
  }

  /** A piece with two '=' splits into three parts and is dropped ("!Proxy!svcA=x=y" gives ""). */
  lemma TwoEqualsDropped(name: string, x: string, y: string, prefix: string)
    requires Plain(name) && Plain(x) && Plain(y) && y != ""
    ensures RealCookie(name + "=" + x + "=" + y, prefix) == ""
  {
    var p0 := name + "=" + x + "=" + y;
    FirstCharSepFree(p0, CookieSeparator);
    SplitJoin([p0], CookieSeparator);
    FirstCharSepFree(name, "=");
    FirstCharSepFree(x, "=");
    FirstCharSepFree(y, "=");
    assert [name, x, y][1..] == [x, y];
    assert [x, y][1..] == [y];
    assert Join([y], "=") == y;
    assert Join([x, y], "=") == x + "=" + y;
    assert Join([name, x, y], "=") == name + "=" + (x + "=" + y);
    assert Join([name, x, y], "=") == p0;
    SplitJoin([name, x, y], "=");
    assert !Qualifies(p0, prefix);
    assert |[p0][..0]| == 0;
    assert Emitted([p0], prefix) == [];
  }

  /**
   * A trailing '=' yields an empty last part, which split discards: the pair
   * is forwarded with that '=' cut off its value, so a base64 value loses its
   * padding ("!Proxy!svcAid=abc=" gives "id=abc").
   */
  lemma TrailingEqualsCut(prefix: string, name: string, value: string)
    requires Plain(prefix + name) && Plain(value) && value != ""
    ensures RealCookie(prefix + name + "=" + value + "=", prefix) == name + "=" + value
  {
    var n: string := prefix + name;
    var p0: string := n + "=" + value + "=";
    FirstCharSepFree(p0, CookieSeparator);
    SplitJoin([p0], CookieSeparator);
    SplitTrailingEquals(n, value);
    assert n[..|prefix|] == prefix;
    assert n[|prefix|..] == name;
    assert Qualifies(p0, prefix);
    assert Rewrite(p0, prefix) == name + "=" + value;
    assert |[p0][..0]| == 0;
    assert Emitted([p0], prefix) == [name + "=" + value];
  }

  /** Splitting `n=v=` on '=' drops the empty trailing piece. */
  lemma SplitTrailingEquals(n: string, value: string)
    requires Plain(n) && Plain(value) && value != ""
    ensures Split(n + "=" + value + "=", "=") == [n, value]
  {
    var p0: string := n + "=" + value + "=";
    FirstCharSepFree(n, "=");
    FirstCharSepFree(value, "=");
    assert [n, value, ""][1..] == [value, ""];
    assert [value, ""][1..] == [""];
    assert Join([""], "=") == "";
    assert Join([value, ""], "=") == value + "=" + "";
    assert Join([n, value, ""], "=") == n + "=" + (value + "=" + "");
    assert Join([n, value, ""], "=") == p0;
    RawSplitJoin([n, value, ""], "=");
    assert p0[|n|..|n| + 1] == "=";
    assert OccursAt(p0, "=", |n|);
    assert IndexOfFrom(p0, "=", 0).Some?;
    assert [n, value, ""][..2] == [n, value];
    assert DropTrailingEmpty([n, value, ""]) == [n, value];
  }

  /** A value made of separators only is passed through as it is. */
  lemma SeparatorsOnlyUnchanged(prefix: string)
    ensures RealCookie("; ; ", prefix) == "; ; "
  {
    assert Repeat(CookieSeparator, 2) == "; ; ";
    NoPiecesIff("; ; ", prefix);
  }

  /* ---------------- namespaces ---------------- */

  /** Distinct servlet names give distinct prefixes. */
  lemma CookieNamePrefixInjective(a: string, b: string)
    requires CookieNamePrefix(a) == CookieNamePrefix(b)
    ensures a == b
  {
    assert a == CookieNamePrefix(a)[7..];
  }

  /**
   * The prefixes are not prefix-free: a cookie made for a servlet named
   * `a + b` also carries the prefix of a servlet named `a`, and that servlet
   * forwards it (with name `b + name`).
   */
  lemma CookieNamespacesNest(a: string, b: string, name: string, value: string)
    requires Plain(a + b + name) && Plain(value) && value != ""
    ensures Qualifies(CookieNamePrefix(a + b) + name + "=" + value, CookieNamePrefix(a))
    ensures Rewrite(CookieNamePrefix(a + b) + name + "=" + value, CookieNamePrefix(a)) == b + name + "=" + value
  {
    var n := CookieNamePrefix(a + b) + name;
    assert n == CookieNamePrefix(a) + (b + name);
    assert n == "!Proxy!" + (a + b + name);
    MarkedPlain(a + b + name);
    PrefixedPairQualifies(CookieNamePrefix(a), b + name, value);
  }

  /** The marker has neither '=' nor ';'. */
  lemma MarkedPlain(t: string)
    requires Plain(t)
    ensures Plain("!Proxy!" + t)
  {
    var s := "!Proxy!" + t;
    forall k | 7 <= k < |s|
      ensures s[k] == t[k - 7]
    {
    }
  }
}
