/** The paths that a pattern of glob.c stands for, segment by segment. */
module GlobPaths {
  import opened Sequences
  import opened GlobLang
  import opened GlobCompile

  const SLASH := Lit(SEP)

  /** The token that ends the segment of token k: a slash or the end of the pattern. */
  function SegEnd(toks: seq<Token>, k: nat): (e: nat)
    requires k <= |toks|
    ensures k <= e <= |toks| && (e < |toks| ==> toks[e] == SLASH)
    ensures forall i :: k <= i < e ==> toks[i] != SLASH
    decreases |toks| - k
  {
    if k == |toks| || toks[k] == SLASH then k else SegEnd(toks, k + 1)
  }

  predicate AllLit(toks: seq<Token>) {
    forall i :: 0 <= i < |toks| ==> toks[i].Lit?
  }

  /** A leading period is matched by a literal period only, unless GLOB_DOT; "." and ".." always so. */
  predicate DotRule(first: Token, name: string, dot: bool) {
    name != "" && name[0] == DOT && first != Lit(DOT) ==> dot && name != "." && name != ".."
  }

  /** GLOB_DOT, and no_match: the pattern starts with the negation. */
  datatype Mode = Mode(dot: bool, negated: bool)

  /** A segment with metacharacters lets a name through. */
  ghost predicate Passes(seg: seq<Token>, name: string, mode: Mode) {
    seg != [] && Matches(seg, name) != mode.negated && DotRule(seg[0], name, mode.dot)
  }

  /** The rest of a path passes the pattern from token k on, segment by segment. */
  ghost predicate Fits(toks: seq<Token>, k: nat, rest: string, mode: Mode)
    requires k <= |toks|
    decreases |toks| - k
  {
    if k == |toks| then rest == ""
    else
      var e := SegEnd(toks, k);
      if AllLit(toks[k..e]) then
        // a segment without metacharacters, or a slash, stands for itself
        rest != "" && Lit(rest[0]) == toks[k] && Fits(toks, k + 1, rest[1..], mode)
      else if e == k then false
      else
        var n := CompLen(rest);
        n > 0 && Passes(toks[k..e], rest[..n], mode) && Fits(toks, e, rest[n..], mode)
  }

  // ----- what a negation stands for -----

  /** The path has the components of the pattern, and those without metacharacters are the same. */
  ghost predicate Aligned(toks: seq<Token>, k: nat, rest: string, dot: bool)
    requires k <= |toks|
    decreases |toks| - k
  {
    if k == |toks| then rest == ""
    else
      var e := SegEnd(toks, k);
      if AllLit(toks[k..e]) then
        rest != "" && Lit(rest[0]) == toks[k] && Aligned(toks, k + 1, rest[1..], dot)
      else
        var n := CompLen(rest);
        n > 0 && DotRule(toks[k], rest[..n], dot) && Aligned(toks, e, rest[n..], dot)
  }

  /** The number of segments with metacharacters, of which a literal one is passed character by character. */
  function Metas(toks: seq<Token>, k: nat): nat
    requires k <= |toks|
    decreases |toks| - k
  {
    if k == |toks| then 0
    else
      var e := SegEnd(toks, k);
      if AllLit(toks[k..e]) then Metas(toks, k + 1) else 1 + Metas(toks, e)
  }

  /** How many of them the components match. */
  ghost function Hits(toks: seq<Token>, k: nat, rest: string): nat
    requires k <= |toks|
    decreases |toks| - k
  {
    if k == |toks| then 0
    else
      var e := SegEnd(toks, k);
      if AllLit(toks[k..e]) then Hits(toks, k + 1, if rest == "" then "" else rest[1..])
      else
        var n := CompLen(rest);
        (if Matches(toks[k..e], rest[..n]) then 1 else 0) + Hits(toks, e, rest[n..])
  }

  /** A pattern asks for a match in every segment, and a negated pattern for one in none. */
  lemma {:induction false} NegatedBySegment(toks: seq<Token>, k: nat, rest: string, dot: bool)
    requires k <= |toks|
    ensures Hits(toks, k, rest) <= Metas(toks, k)
    ensures Fits(toks, k, rest, Mode(dot, false)) <==>
            Aligned(toks, k, rest, dot) && Hits(toks, k, rest) == Metas(toks, k)
    ensures Fits(toks, k, rest, Mode(dot, true)) <==> Aligned(toks, k, rest, dot) && Hits(toks, k, rest) == 0
    decreases |toks| - k
  {
    hide Matches;
    if k < |toks| {
      var e := SegEnd(toks, k);
      if AllLit(toks[k..e]) {
        NegatedBySegment(toks, k + 1, if rest == "" then "" else rest[1..], dot);
      } else {
        NegatedBySegment(toks, e, rest[CompLen(rest)..], dot);
        assert toks[k..e][0] == toks[k];
      }
    }
  }

  /** So the negated pattern stands for the other paths exactly when all segments are hit or none, and there is one. */
  lemma NegationIsComplement(toks: seq<Token>, rest: string, dot: bool)
    requires Aligned(toks, 0, rest, dot)
    ensures (Fits(toks, 0, rest, Mode(dot, true)) <==> !Fits(toks, 0, rest, Mode(dot, false))) <==>
            Metas(toks, 0) > 0 && Hits(toks, 0, rest) in {0, Metas(toks, 0)}
  {
    NegatedBySegment(toks, 0, rest, dot);
  }

  /** The path x/b is passed neither by the pattern with the segments a* and b* nor by its negation. */
  lemma NeitherFits(dot: bool)
    ensures var toks := [Lit('a'), Star, SLASH, Lit('b'), Star];
            && Aligned(toks, 0, "x/b", dot)
            && !Fits(toks, 0, "x/b", Mode(dot, false)) && !Fits(toks, 0, "x/b", Mode(dot, true))
  {
    var toks := [Lit('a'), Star, SLASH, Lit('b'), Star];
    SegmentsOf(toks);
    OneMatch();
    NegatedBySegment(toks, 0, "x/b", dot);
    hide Fits, Matches, SegEnd, AllLit;
    Components();
    assert Hits(toks, 5, "") == 0 && Metas(toks, 5) == 0 && Aligned(toks, 5, "", dot);
    assert Hits(toks, 3, "b") == 1 && Metas(toks, 3) == 1 && Aligned(toks, 3, "b", dot);
    assert Hits(toks, 2, "/b") == 1 && Metas(toks, 2) == 1 && Aligned(toks, 2, "/b", dot);
    assert Hits(toks, 0, "x/b") == 1 && Metas(toks, 0) == 2;
  }

  lemma Components()
    ensures "x/b"[..1] == "x" && "x/b"[1..] == "/b" && "/b"[1..] == "b" && "b"[..1] == "b" && "b"[1..] == ""
    ensures CompLen("b") == 1 && CompLen("/b") == 0 && CompLen("x/b") == 1
  {
  }

  lemma SegmentsOf(toks: seq<Token>)
    requires toks == [Lit('a'), Star, SLASH, Lit('b'), Star]
    ensures SegEnd(toks, 0) == 2 && SegEnd(toks, 2) == 2 && SegEnd(toks, 3) == 5
    ensures toks[0..2] == [Lit('a'), Star] && toks[2..2] == [] && toks[3..5] == [Lit('b'), Star]
    ensures !AllLit(toks[0..2]) && AllLit(toks[2..2]) && !AllLit(toks[3..5])
  {
    assert SegEnd(toks, 4) == 5;
    assert SegEnd(toks, 3) == 5;
    assert SegEnd(toks, 1) == 2;
    assert toks[0..2][1] == Star && toks[3..5][1] == Star;
  }

  lemma OneMatch()
    ensures Matches([Lit('b'), Star], "b") && !Matches([Lit('a'), Star], "x")
  {
    assert [Lit('b'), Star][1..] == [Star] && [Star][1..] == [] && "b"[1..] == "";
    assert Matches([], ""[0..]);
    assert Matches([Star], "");
  }

  // ----- the paths of the pattern as written -----

  lemma {:induction false} SegEndSuffix(x: seq<Token>, i: nat, y: seq<Token>, j: nat)
    requires i <= |x| && j <= |y| && x[i..] == y[j..]
    ensures SegEnd(x, i) - i == SegEnd(y, j) - j
    decreases |x| - i
  {
    assert |x| - i == |x[i..]| == |y[j..]| == |y| - j;
    if i < |x| {
      assert x[i] == x[i..][0] == y[j..][0] == y[j];
      assert x[i + 1..] == x[i..][1..] && y[j + 1..] == y[j..][1..];
      if x[i] != SLASH {
        SegEndSuffix(x, i + 1, y, j + 1);
      }
    }
  }

  lemma SameSuffix(x: seq<Token>, i: nat, y: seq<Token>, j: nat)
    requires i < |x| && j < |y| && x[i..] == y[j..]
    ensures |x| - i == |y| - j && x[i] == y[j] && x[i + 1..] == y[j + 1..]
    ensures var e, e' := SegEnd(x, i), SegEnd(y, j);
            e - i == e' - j && x[i..e] == y[j..e'] && x[e..] == y[e'..]
  {
    assert |x| - i == |x[i..]| == |y[j..]| == |y| - j;
    SegEndSuffix(x, i, y, j);
    var e, e' := SegEnd(x, i), SegEnd(y, j);
    SlicesBehind(x, i, e);
    SlicesBehind(y, j, e');
    SlicesBehind(x, i, i + 1);
    SlicesBehind(y, j, j + 1);
  }

  lemma SlicesBehind<T>(s: seq<T>, i: nat, e: nat)
    requires i <= e <= |s|
    ensures s[i..e] == s[i..][..e - i] && s[e..] == s[i..][e - i..] && (i < |s| ==> s[i] == s[i..][0])
  {
  }

  /** Only the tokens still to come matter. */
  lemma {:induction false} FitsSuffix(x: seq<Token>, i: nat, y: seq<Token>, j: nat, rest: string, mode: Mode)
    requires i <= |x| && j <= |y| && x[i..] == y[j..]
    ensures Fits(x, i, rest, mode) <==> Fits(y, j, rest, mode)
    decreases |x| - i
  {
    hide Passes;
    hide AllLit;
    assert |x| - i == |x[i..]| == |y[j..]| == |y| - j;
    if i < |x| {
      SameSuffix(x, i, y, j);
      var e, e' := SegEnd(x, i), SegEnd(y, j);
      if rest != "" {
        FitsSuffix(x, i + 1, y, j + 1, rest[1..], mode);
      }
      if e > i {
        FitsSuffix(x, e, y, e', rest[CompLen(rest)..], mode);
      }
    }
  }

  /** A segment that reaches from a over the stars into r. */
  lemma SegEndOver(a: seq<Token>, mid: seq<Token>, r: seq<Token>, k: nat)
    requires k <= |a| && SegEnd(a, k) == |a| && forall i :: 0 <= i < |mid| ==> mid[i] != SLASH
    ensures SegEnd(a + mid + r, k) == |a + mid| + SegEnd(r, 0)
    decreases |a| + |mid| - k
  {
    var x := a + mid + r;
    forall i | k <= i < |a + mid| ensures x[i] != SLASH {
      if i < |a| {
        assert a[i] != SLASH;
      }
    }
    SegEndOverStep(x, k, |a + mid|);
    assert x[|a + mid|..] == r == r[0..];
    SegEndSuffix(x, |a + mid|, r, 0);
  }

  lemma {:induction false} SegEndOverStep(x: seq<Token>, k: nat, m: nat)
    requires k <= m <= |x| && forall i :: k <= i < m ==> x[i] != SLASH
    ensures SegEnd(x, k) == SegEnd(x, m)
    decreases m - k
  {
    if k < m {
      SegEndOverStep(x, k + 1, m);
    }
  }

  lemma {:induction false} SegEndWithin(a: seq<Token>, z: seq<Token>, k: nat)
    requires k <= |a| && SegEnd(a, k) < |a|
    ensures SegEnd(a + z, k) == SegEnd(a, k)
    decreases |a| - k
  {
    assert (a + z)[k] == a[k];
    if a[k] != SLASH {
      SegEndWithin(a, z, k + 1);
    }
  }

  /** The segment around the stars, with one star or two, matches the same names. */
  lemma StarSegment(a: seq<Token>, r: seq<Token>, k: nat, name: string)
    requires k <= |a| && SegEnd(a, k) == |a|
    ensures var x, y := a + [Star, Star] + r, a + [Star] + r;
            && SegEnd(x, k) == |a| + 2 + SegEnd(r, 0) && SegEnd(y, k) == |a| + 1 + SegEnd(r, 0)
            && x[k] == y[k] && x[SegEnd(x, k)..] == y[SegEnd(y, k)..]
            && !AllLit(x[k..SegEnd(x, k)]) && !AllLit(y[k..SegEnd(y, k)])
            && (Matches(x[k..SegEnd(x, k)], name) <==> Matches(y[k..SegEnd(y, k)], name))
  {
    var x, y := a + [Star, Star] + r, a + [Star] + r;
    SegEndOver(a, [Star, Star], r, k);
    SegEndOver(a, [Star], r, k);
    var m := SegEnd(r, 0);
    var sx, sy := x[k..SegEnd(x, k)], y[k..SegEnd(y, k)];
    assert sx == a[k..] + ([Star, Star] + r[..m]) && sy == a[k..] + ([Star] + r[..m]);
    assert sx[|a| - k] == Star && sy[|a| - k] == Star;
    assert x[SegEnd(x, k)..] == r[m..] == y[SegEnd(y, k)..];
    forall s ensures Matches([Star, Star] + r[..m], s) <==> Matches([Star] + r[..m], s) {
      StarStar(r[..m], s);
    }
    Congruence(a[k..], [Star, Star] + r[..m], [Star] + r[..m], name);
  }

  /** The stars are in the segment at k. */
  lemma FitsStarHere(a: seq<Token>, r: seq<Token>, k: nat, rest: string, mode: Mode)
    requires k <= |a| && SegEnd(a, k) == |a|
    ensures Fits(a + [Star, Star] + r, k, rest, mode) <==> Fits(a + [Star] + r, k, rest, mode)
  {
    hide Matches;
    var x, y := a + [Star, Star] + r, a + [Star] + r;
    var n := CompLen(rest);
    StarSegment(a, r, k, rest[..n]);
    FitsSuffix(x, SegEnd(x, k), y, SegEnd(y, k), rest[n..], mode);
    hide AllLit;
    assert x[k..SegEnd(x, k)][0] == x[k] && y[k..SegEnd(y, k)][0] == y[k];
  }

  /** The segment at k ends in front of z. */
  lemma SegmentWithin(a: seq<Token>, z: seq<Token>, k: nat)
    requires k <= |a| && SegEnd(a, k) < |a|
    ensures var e := SegEnd(a, k); SegEnd(a + z, k) == e && (a + z)[k..e] == a[k..e] && (a + z)[k] == a[k]
  {
    SegEndWithin(a, z, k);
  }

  /** Nor does a second star change which paths fit. */
  lemma {:induction false} FitsStar(a: seq<Token>, r: seq<Token>, k: nat, rest: string, mode: Mode)
    requires k <= |a|
    ensures Fits(a + [Star, Star] + r, k, rest, mode) <==> Fits(a + [Star] + r, k, rest, mode)
    decreases |a| - k
  {
    hide Passes;
    hide AllLit;
    var e := SegEnd(a, k);
    if e == |a| {
      FitsStarHere(a, r, k, rest, mode);
    } else {
      assert a + [Star, Star] + r == a + ([Star, Star] + r) && a + [Star] + r == a + ([Star] + r);
      SegmentWithin(a, [Star, Star] + r, k);
      SegmentWithin(a, [Star] + r, k);
      if rest != "" {
        FitsStar(a, r, k + 1, rest[1..], mode);
      }
      if e > k {
        FitsStar(a, r, e, rest[CompLen(rest)..], mode);
      }
    }
  }

  lemma AppendFits(acc: seq<Token>, t: Token, max: nat, r: seq<Token>, rest: string, mode: Mode)
    requires max > 0
    ensures Fits(Append(acc, t, max) + r, 0, rest, mode) <==> Fits(acc + [t] + r, 0, rest, mode)
  {
    if t.Star? && Ends(acc, Star, max) {
      var a := acc[..|acc| - 1];
      assert acc[|acc| - 1] == Star;
      FitsStar(a, r, 0, rest, mode);
      assert acc + r == a + [Star] + r;
      assert acc + [t] + r == a + [Star, Star] + r;
    }
  }

  /** The collapsed pattern stands for the paths of the pattern as written. */
  lemma {:induction false} CollapseFits(acc: seq<Token>, toks: seq<Token>, max: nat, rest: string, mode: Mode)
    requires max > 0
    ensures Fits(AppendAll(acc, toks, max), 0, rest, mode) <==> Fits(acc + toks, 0, rest, mode)
    decreases |toks|
  {
    if toks == [] {
      assert acc + toks == acc;
    } else {
      CollapseFits(Append(acc, toks[0], max), toks[1..], max, rest, mode);
      AppendFits(acc, toks[0], max, toks[1..], rest, mode);
      assert acc + toks == acc + [toks[0]] + toks[1..];
    }
  }
}
