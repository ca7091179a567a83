/** Where the segments of a compiled pattern end: for the tokens, and for glob2, which looks for slashes only. */
module GlobSegments {
  import opened Sequences
  import opened GlobLang
  import opened GlobMatch
  import opened GlobCompile
  import opened GlobPaths

  predicate Mentions(i: Item, c: char) {
    match i
    case Single(x) => x == c
    case Span(lo, hi) => lo == c || hi == c
  }

  /** The token is no set that mentions c. */
  predicate Avoids(t: Token, c: char) {
    t.Set? ==> forall j :: 0 <= j < |t.items| ==> !Mentions(t.items[j], c)
  }

  /** No set mentions a slash. */
  predicate SlashFree(toks: seq<Token>) {
    forall i :: 0 <= i < |toks| ==> Avoids(toks[i], SEP)
  }

  /** The tokens of a string, which has no end within. */
  predicate NoEos(toks: seq<Token>) {
    forall i :: 0 <= i < |toks| ==> toks[i].Wellformed() && toks[i] != Lit(EOS) && Avoids(toks[i], EOS)
  }

  predicate Clean(toks: seq<Token>) {
    SlashFree(toks) && NoEos(toks)
  }

  predicate StopsAt(c: PatChar) {
    c == Plain(SEP) || c == Plain(EOS)
  }

  predicate NoStop(q: seq<PatChar>) {
    forall x :: 0 <= x < |q| ==> !StopsAt(q[x])
  }

  predicate HasMeta(q: seq<PatChar>) {
    exists x :: 0 <= x < |q| && q[x].meta
  }

  lemma {:induction false} ItemsNoStop(items: seq<Item>)
    requires forall i :: 0 <= i < |items| ==> !Mentions(items[i], SEP) && !Mentions(items[i], EOS)
    ensures NoStop(EncodeItems(items))
  {
    if items != [] {
      ItemsNoStop(items[1..]);
    }
  }

  lemma TokenChars(t: Token, alt: bool)
    requires Clean([t]) && t != SLASH
    ensures NoStop(EncodeToken(t, alt)) && (HasMeta(EncodeToken(t, alt)) <==> !t.Lit?)
  {
    assert [t][0] == t;
    if t.Set? {
      ItemsNoStop(t.items);
    }
    if !t.Lit? {
      assert EncodeToken(t, alt)[0].meta;
    }
  }

  lemma MetaConcat(a: seq<PatChar>, b: seq<PatChar>)
    ensures HasMeta(a + b) <==> HasMeta(a) || HasMeta(b)
  {
    if HasMeta(a) {
      var x :| 0 <= x < |a| && a[x].meta;
      assert (a + b)[x].meta;
    }
    if HasMeta(b) {
      var x :| 0 <= x < |b| && b[x].meta;
      assert (a + b)[|a| + x].meta;
    }
  }

  lemma {:induction false} SegmentChars(toks: seq<Token>, alt: bool)
    requires Clean(toks) && forall i :: 0 <= i < |toks| ==> toks[i] != SLASH
    ensures NoStop(Encode(toks, alt)) && (HasMeta(Encode(toks, alt)) <==> !AllLit(toks))
  {
    if toks != [] {
      assert [toks[0]][0] == toks[0];
      TokenChars(toks[0], alt);
      SegmentChars(toks[1..], alt);
      MetaConcat(EncodeToken(toks[0], alt), Encode(toks[1..], alt));
      assert AllLit(toks) <==> toks[0].Lit? && AllLit(toks[1..]);
    }
  }

  lemma {:induction false} LiteralChars(toks: seq<Token>, alt: bool)
    requires AllLit(toks)
    ensures |Encode(toks, alt)| == |toks|
    ensures forall i :: 0 <= i < |toks| ==> Encode(toks, alt)[i] == Plain(toks[i].c)
  {
    if toks != [] {
      LiteralChars(toks[1..], alt);
    }
  }

  /** Where the segment of token k ends in the compiled pattern. */
  lemma SegmentSpan(pat: seq<PatChar>, i: nat, patend: nat, toks: seq<Token>, k: nat, alt: bool)
    requires PatAt(pat, i, patend, toks, k, alt) && Clean(toks) && pat[patend] == Plain(EOS)
    ensures var e := SegEnd(toks, k);
            var p := i + |Encode(toks[k..e], alt)|;
            && p <= patend && pat[i..p] == Encode(toks[k..e], alt) && PatAt(pat, p, patend, toks, e, alt)
            && (forall x :: i <= x < p ==> !StopsAt(pat[x])) && StopsAt(pat[p])
            && (HasMeta(pat[i..p]) <==> !AllLit(toks[k..e]))
            && (pat[p] == Plain(EOS) <==> e == |toks|)
  {
    hide Encode;
    hide NoStop;
    hide HasMeta;
    hide AllLit;
    var e := SegEnd(toks, k);
    var seg := toks[k..e];
    assert toks[k..] == seg + toks[e..];
    EncodeConcat(seg, toks[e..], alt);
    SegmentChars(seg, alt);
    var p := i + |Encode(seg, alt)|;
    Cut(pat, i, patend, Encode(seg, alt), Encode(toks[e..], alt));
    StopChar(pat, p, patend, toks, e, alt);
    NoStopInside(pat, i, p);
  }

  lemma Cut<T>(s: seq<T>, i: nat, j: nat, a: seq<T>, b: seq<T>)
    requires i <= j <= |s| && s[i..j] == a + b
    ensures var p := i + |a|; p <= j && s[i..p] == a && s[p..j] == b
  {
    var p := i + |a|;
    assert |s[i..j]| == |a| + |b|;
    forall x | 0 <= x < |a| ensures s[i..p][x] == a[x] {
      assert s[i..j][x] == (a + b)[x];
    }
    forall x | 0 <= x < |b| ensures s[p..j][x] == b[x] {
      assert s[i..j][|a| + x] == (a + b)[|a| + x];
    }
  }

  lemma NoStopInside(pat: seq<PatChar>, i: nat, p: nat)
    requires i <= p <= |pat| && NoStop(pat[i..p])
    ensures forall x :: i <= x < p ==> !StopsAt(pat[x])
  {
    forall x | i <= x < p ensures !StopsAt(pat[x]) {
      assert pat[i..p][x - i] == pat[x];
    }
  }

  lemma StopChar(pat: seq<PatChar>, p: nat, patend: nat, toks: seq<Token>, e: nat, alt: bool)
    requires PatAt(pat, p, patend, toks, e, alt) && Clean(toks) && pat[patend] == Plain(EOS)
    requires e < |toks| ==> toks[e] == SLASH
    ensures StopsAt(pat[p]) && (pat[p] == Plain(EOS) <==> e == |toks|)
  {
    AtToken(pat, p, patend, toks, e, alt);
    if e < |toks| {
      assert pat[p..p + 1][0] == Plain(SEP);
    }
  }

  // ----- what match may rely on -----

  ghost predicate ClosedBehind(q: seq<PatChar>, x: nat) {
    exists y :: x < y < |q| && q[y] == M_END
  }

  ghost predicate UpperBehind(q: seq<PatChar>, x: nat) {
    x + 1 < |q| && !q[x + 1].meta
  }

  /** A piece of compiled pattern made of whole tokens. */
  ghost predicate Sane(q: seq<PatChar>) {
    forall x :: 0 <= x < |q| ==>
      && q[x].c != EOS
      && (q[x] == M_RNG ==> UpperBehind(q, x))
      && (q[x] == M_SET ==> ClosedBehind(q, x))
  }

  lemma SaneConcat(a: seq<PatChar>, b: seq<PatChar>)
    requires Sane(a) && Sane(b)
    ensures Sane(a + b)
  {
    var q := a + b;
    forall x | 0 <= x < |q| && q[x] == M_SET
      ensures ClosedBehind(q, x)
    {
      if x < |a| {
        assert a[x] == M_SET;
        var y :| x < y < |a| && a[y] == M_END;
        assert q[y] == M_END;
      } else {
        assert b[x - |a|] == M_SET;
        var y :| x - |a| < y < |b| && b[y] == M_END;
        assert q[|a| + y] == M_END;
      }
    }
    forall x | 0 <= x < |q| && q[x] == M_RNG
      ensures UpperBehind(q, x)
    {
      if x < |a| {
        assert a[x] == M_RNG && q[x + 1] == a[x + 1];
      } else {
        assert b[x - |a|] == M_RNG && q[x + 1] == b[x + 1 - |a|];
      }
    }
  }

  lemma {:induction false} ItemsSane(items: seq<Item>)
    requires forall i :: 0 <= i < |items| ==> !Mentions(items[i], EOS)
    ensures Sane(EncodeItems(items)) && M_SET !in EncodeItems(items)
  {
    if items != [] {
      ItemsSane(items[1..]);
      SaneConcat(EncodeItem(items[0]), EncodeItems(items[1..]));
    }
  }

  lemma TokenSane(t: Token, alt: bool)
    requires t != Lit(EOS) && Avoids(t, EOS)
    ensures Sane(EncodeToken(t, alt))
  {
    if t.Set? {
      ItemsSane(t.items);
      SetSane(if t.neg then [Meta(NotChar(alt))] else [], EncodeItems(t.items), alt);
    }
  }

  lemma SetSane(not: seq<PatChar>, body: seq<PatChar>, alt: bool)
    requires Sane(body) && (not == [] || not == [Meta(NotChar(alt))])
    ensures Sane([M_SET] + not + body + [M_END])
  {
    var rest := not + body + [M_END];
    SaneConcat(not, body);
    SaneConcat(not + body, [M_END]);
    SaneBehind(M_SET, rest);
    assert [M_SET] + not + body + [M_END] == [M_SET] + rest;
  }

  lemma SaneBehind(h: PatChar, q: seq<PatChar>)
    requires Sane(q) && h.c != EOS && h != M_RNG && q != [] && q[|q| - 1] == M_END
    ensures Sane([h] + q)
  {
    var r := [h] + q;
    assert r[|r| - 1] == M_END;
    forall x | 0 <= x < |r|
      ensures r[x].c != EOS && (r[x] == M_SET ==> ClosedBehind(r, x)) && (r[x] == M_RNG ==> UpperBehind(r, x))
    {
      if x > 0 {
        assert r[x] == q[x - 1];
        if r[x] == M_RNG {
          assert UpperBehind(q, x - 1) && r[x + 1] == q[x];
        }
      }
    }
  }

  lemma {:induction false} EncodeSane(toks: seq<Token>, alt: bool)
    requires NoEos(toks)
    ensures Sane(Encode(toks, alt))
  {
    if toks != [] {
      TokenSane(toks[0], alt);
      EncodeSane(toks[1..], alt);
      SaneConcat(EncodeToken(toks[0], alt), Encode(toks[1..], alt));
    }
  }

  lemma EncodeIsWhole(toks: seq<Token>, alt: bool, pat: seq<PatChar>, end: nat)
    requires NoEos(toks) && end < |pat| && pat[..end] == Encode(toks, alt) && pat[end] == Plain(EOS)
    ensures Whole(pat, end)
  {
    EncodeSane(toks, alt);
    var q := pat[..end];
    forall x | 0 <= x < end && pat[x] == M_SET
      ensures exists y :: x < y < end && pat[y] == M_END
    {
      assert q[x] == M_SET && ClosedBehind(q, x);
      var y :| x < y < |q| && q[y] == M_END;
      assert pat[y] == M_END;
    }
    forall x | 0 <= x < end && pat[x] == M_RNG
      ensures x + 1 < end && !pat[x + 1].meta
    {
      assert q[x] == M_RNG && UpperBehind(q, x) && pat[x + 1] == q[x + 1];
    }
    assert forall x :: 0 <= x < end ==> pat[x] == q[x];
  }

  // ----- counting slashes -----

  /** The slashes that glob2 sees in a compiled pattern. */
  function Seps(q: seq<PatChar>): nat {
    if q == [] then 0 else (if q[0] == Plain(SEP) then 1 else 0) + Seps(q[1..])
  }

  lemma {:induction false} SepsConcat(a: seq<PatChar>, b: seq<PatChar>)
    ensures Seps(a + b) == Seps(a) + Seps(b)
  {
    if a == [] {
      assert a + b == b;
    } else {
      assert (a + b)[1..] == a[1..] + b;
      SepsConcat(a[1..], b);
    }
  }

  function Slashes(toks: seq<Token>): nat {
    if toks == [] then 0 else (if toks[0] == SLASH then 1 else 0) + Slashes(toks[1..])
  }

  lemma {:induction false} SlashesConcat(a: seq<Token>, b: seq<Token>)
    ensures Slashes(a + b) == Slashes(a) + Slashes(b)
  {
    if a == [] {
      assert a + b == b;
    } else {
      assert (a + b)[1..] == a[1..] + b;
      SlashesConcat(a[1..], b);
    }
  }

  lemma {:induction false} NoSlashes(toks: seq<Token>)
    requires forall i :: 0 <= i < |toks| ==> toks[i] != SLASH
    ensures Slashes(toks) == 0
  {
    if toks != [] {
      NoSlashes(toks[1..]);
    }
  }

  /** The slashes of a path. */
  function Count(s: string): nat {
    if s == "" then 0 else (if s[0] == SEP then 1 else 0) + Count(s[1..])
  }

  lemma {:induction false} CountConcat(a: string, b: string)
    ensures Count(a + b) == Count(a) + Count(b)
  {
    if a == "" {
      assert a + b == b;
    } else {
      assert (a + b)[1..] == a[1..] + b;
      CountConcat(a[1..], b);
    }
  }

  lemma {:induction false} CountNone(s: string)
    requires SEP !in s
    ensures Count(s) == 0
  {
    if s != "" {
      CountNone(s[1..]);
    }
  }

  lemma SepsOfItem(i: Item)
    ensures Seps(EncodeItem(i)) == 0 <==> !Mentions(i, SEP)
  {
    match i
    case Single(c) => assert EncodeItem(i)[1..] == [];
    case Span(lo, hi) =>
      SepsConcat([Plain(lo)] + [M_RNG], [Plain(hi)]);
      SepsConcat([Plain(lo)], [M_RNG]);
      assert EncodeItem(i) == [Plain(lo)] + [M_RNG] + [Plain(hi)];
      assert [Plain(lo)][1..] == [] && [M_RNG][1..] == [] && [Plain(hi)][1..] == [];
  }

  lemma {:induction false} SepsOfItems(items: seq<Item>)
    ensures Seps(EncodeItems(items)) == 0 <==> forall j :: 0 <= j < |items| ==> !Mentions(items[j], SEP)
  {
    if items != [] {
      SepsOfItems(items[1..]);
      SepsOfItem(items[0]);
      SepsConcat(EncodeItem(items[0]), EncodeItems(items[1..]));
      assert forall j :: 0 < j < |items| ==> items[j] == items[1..][j - 1];
      assert forall j :: 0 <= j < |items[1..]| ==> items[1..][j] == items[j + 1];
    }
  }

  lemma SepsOfToken(t: Token, alt: bool)
    ensures Seps(EncodeToken(t, alt)) >= Slashes([t])
    ensures Seps(EncodeToken(t, alt)) == Slashes([t]) <==> Avoids(t, SEP)
  {
    if t.Set? {
      SepsOfItems(t.items);
      var not, body := if t.neg then [Meta(NotChar(alt))] else [], EncodeItems(t.items);
      SepsConcat([M_SET] + not + body, [M_END]);
      SepsConcat([M_SET] + not, body);
      SepsConcat([M_SET], not);
    }
  }

  /** glob2 sees at least the slashes of the tokens, and no others exactly when no set mentions one. */
  lemma {:induction false} SepsOfEncode(toks: seq<Token>, alt: bool)
    ensures Seps(Encode(toks, alt)) >= Slashes(toks)
    ensures Seps(Encode(toks, alt)) == Slashes(toks) <==> SlashFree(toks)
  {
    if toks != [] {
      SepsOfToken(toks[0], alt);
      SepsOfEncode(toks[1..], alt);
      SepsConcat(EncodeToken(toks[0], alt), Encode(toks[1..], alt));
      SlashesConcat([toks[0]], toks[1..]);
      assert toks == [toks[0]] + toks[1..];
      assert SlashFree(toks) <==> Avoids(toks[0], SEP) && SlashFree(toks[1..]);
    }
  }

  /** A path that the pattern stands for has its slashes and no others. */
  lemma {:induction false} FitsCount(toks: seq<Token>, k: nat, rest: string, mode: Mode)
    requires k <= |toks| && Fits(toks, k, rest, mode)
    ensures Count(rest) == Slashes(toks[k..])
    decreases |toks| - k
  {
    hide Matches;
    if k < |toks| {
      var e := SegEnd(toks, k);
      if AllLit(toks[k..e]) {
        FitsCount(toks, k + 1, rest[1..], mode);
        assert toks[k..][0] == toks[k] && toks[k..][1..] == toks[k + 1..];
      } else {
        var n := CompLen(rest);
        FitsCount(toks, e, rest[n..], mode);
        assert rest == rest[..n] + rest[n..] && toks[k..] == toks[k..e] + toks[e..];
        CountConcat(rest[..n], rest[n..]);
        CountNone(rest[..n]);
        SlashesConcat(toks[k..e], toks[e..]);
        NoSlashes(toks[k..e]);
      }
    }
  }

  // ----- where segments end -----

  /** Where glob2 finds the end of a segment. */
  function RawEnd(q: seq<PatChar>, i: nat): (p: nat)
    requires i <= |q|
    ensures i <= p <= |q| && (p < |q| ==> StopsAt(q[p])) && forall x :: i <= x < p ==> !StopsAt(q[x])
    decreases |q| - i
  {
    if i == |q| || StopsAt(q[i]) then i else RawEnd(q, i + 1)
  }

  /** Where token k starts in the compiled pattern. */
  function Place(toks: seq<Token>, k: nat, alt: bool): nat
    requires k <= |toks|
  {
    |Encode(toks[..k], alt)|
  }

  lemma Places(toks: seq<Token>, j: nat, k: nat, alt: bool)
    requires j <= k <= |toks|
    ensures var q, a, b := Encode(toks, alt), Place(toks, j, alt), Place(toks, k, alt);
            a <= b <= |q| && q[a..b] == Encode(toks[j..k], alt) && q[b..] == Encode(toks[k..], alt)
  {
    assert toks == toks[..k] + toks[k..] && toks[..k] == toks[..j] + toks[j..k];
    EncodeConcat(toks[..k], toks[k..], alt);
    EncodeConcat(toks[..j], toks[j..k], alt);
  }

  ghost predicate EndsAgree(toks: seq<Token>, k: nat, alt: bool)
    requires k <= |toks|
  {
    Place(toks, k, alt) <= |Encode(toks, alt)| &&
    RawEnd(Encode(toks, alt), Place(toks, k, alt)) == Place(toks, SegEnd(toks, k), alt)
  }

  /** The segments that glob2 finds are those of the tokens exactly when no set mentions a slash. */
  lemma SegmentEndsAgree(toks: seq<Token>, alt: bool)
    requires NoEos(toks)
    ensures SlashFree(toks) <==> forall k :: 0 <= k <= |toks| ==> EndsAgree(toks, k, alt)
  {
    if SlashFree(toks) {
      forall k | 0 <= k <= |toks|
        ensures EndsAgree(toks, k, alt)
      {
        CleanEnd(toks, k, alt);
      }
    } else {
      var i :| 0 <= i < |toks| && !Avoids(toks[i], SEP);
      StopsInside(toks, i, alt);
    }
  }

  lemma CleanEnd(toks: seq<Token>, k: nat, alt: bool)
    requires Clean(toks) && k <= |toks|
    ensures EndsAgree(toks, k, alt)
  {
    hide Encode;
    var q, e := Encode(toks, alt), SegEnd(toks, k);
    var pat, a := q + [Plain(EOS)], Place(toks, k, alt);
    Places(toks, k, |toks|, alt);
    Places(toks, k, e, alt);
    assert toks[k..|toks|] == toks[k..] && toks[..|toks|] == toks;
    assert pat[a..|q|] == q[a..] == Encode(toks[k..], alt);
    SegmentSpan(pat, a, |q|, toks, k, alt);
    var p := a + |Encode(toks[k..e], alt)|;
    assert p == Place(toks, e, alt);
    assert forall x :: a <= x < |q| ==> pat[x] == q[x];
  }

  lemma StopsInside(toks: seq<Token>, i: nat, alt: bool)
    requires i < |toks| && !Avoids(toks[i], SEP)
    ensures !EndsAgree(toks, i, alt)
  {
    hide Encode;
    var q, e := Encode(toks, alt), SegEnd(toks, i);
    var a, b := Place(toks, i, alt), Place(toks, i + 1, alt);
    Places(toks, i, i + 1, alt);
    Places(toks, i + 1, e, alt);
    assert toks[i..i + 1] == [toks[i]];
    OneToken(toks[i], alt);
    SepsOfToken(toks[i], alt);
    var x := SepWithin(q[a..b]);
    assert q[a + x] == q[a..b][x];
  }

  lemma OneToken(t: Token, alt: bool)
    ensures Encode([t], alt) == EncodeToken(t, alt)
  {
    assert [t][1..] == [];
  }

  lemma {:induction false} SepWithin(q: seq<PatChar>) returns (x: nat)
    requires Seps(q) > 0
    ensures x < |q| && q[x] == Plain(SEP)
  {
    if q[0] == Plain(SEP) {
      x := 0;
    } else {
      x := SepWithin(q[1..]);
      x := x + 1;
    }
  }

  // ----- the tokens of a string -----

  predicate ItemsAvoid(items: seq<Item>, c: char) {
    forall j :: 0 <= j < |items| ==> !Mentions(items[j], c)
  }

  lemma ItemsAvoidCons(i: Item, items: seq<Item>, c: char)
    requires !Mentions(i, c) && ItemsAvoid(items, c)
    ensures ItemsAvoid([i] + items, c)
  {
  }

  lemma {:induction false} ItemsNoEos(q: seq<PatChar>, k: nat)
    requires k < |q| && ClosesFrom(q, k + 1) && forall x :: 0 <= x < |q| ==> q[x].c != EOS
    ensures ItemsAvoid(ItemsFrom(q, k).0, EOS) && ItemsFrom(q, k).0 != []
    decreases |q| - k
  {
    var range := k + 2 < |q| && q[k + 1] == RANGE && q[k + 2] != RBRACKET;
    var next := if range then k + 3 else k + 1;
    var item := if range then Span(q[k].c, q[k + 2].c) else Single(q[k].c);
    assert !Mentions(item, EOS);
    if q[next] != RBRACKET {
      ItemsNoEos(q, next);
      ItemsAvoidCons(item, ItemsFrom(q, next).0, EOS);
    }
  }

  lemma NoEosCons(t: Token, toks: seq<Token>)
    requires t.Wellformed() && t != Lit(EOS) && Avoids(t, EOS) && NoEos(toks)
    ensures NoEos([t] + toks)
  {
  }

  lemma {:induction false} ParseNoEos(q: seq<PatChar>, alt: bool)
    requires forall x :: 0 <= x < |q| ==> q[x].c != EOS
    ensures NoEos(Parse(q, alt))
    decreases |q|
  {
    hide NoEos;
    if q == [] {
      NoEosNone();
    } else if OpensSet(q, alt) {
      var (items, end) := ItemsFrom(q, SetStart(q, alt));
      ItemsNoEos(q, SetStart(q, alt));
      ParseNoEos(q[end..], alt);
      NoEosCons(Set(SetStart(q, alt) == 2, items), Parse(q[end..], alt));
    } else {
      ParseNoEos(q[1..], alt);
      NoEosCons(if q[0] == QUESTION then One else if q[0] == STAR then Star else Lit(q[0].c), Parse(q[1..], alt));
    }
  }

  lemma NoEosNone()
    ensures NoEos([])
  {
  }

  /** Collapsing stars touches no set. */
  lemma {:induction false} CollapseMentions(acc: seq<Token>, toks: seq<Token>, max: nat)
    ensures SlashFree(AppendAll(acc, toks, max)) <==> SlashFree(acc) && SlashFree(toks)
    ensures NoEos(acc) && NoEos(toks) ==> NoEos(AppendAll(acc, toks, max))
    decreases |toks|
  {
    if toks != [] {
      CollapseMentions(Append(acc, toks[0], max), toks[1..], max);
      assert SlashFree(toks) <==> Avoids(toks[0], SEP) && SlashFree(toks[1..]);
      assert SlashFree(Append(acc, toks[0], max)) <==> SlashFree(acc) && Avoids(toks[0], SEP) by {
        SlashFreeSnoc(acc, toks[0]);
      }
    }
  }

  lemma SlashFreeSnoc(acc: seq<Token>, t: Token)
    ensures SlashFree(acc + [t]) <==> SlashFree(acc) && Avoids(t, SEP)
  {
    assert (acc + [t])[|acc|] == t;
    assert forall i :: 0 <= i < |acc| ==> (acc + [t])[i] == acc[i];
  }
}
