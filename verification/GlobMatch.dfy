/** match of glob.c: a loop that backtracks to the last star only. */
module GlobMatch {
  import opened GlobLang

  /** The first character of a compiled pattern tells what its first token is. */
  lemma HeadTells(toks: seq<Token>, alt: bool)
    requires toks != [] && Wellformed(toks)
    ensures var q := Encode(toks, alt);
            && (q[0] == M_ALL <==> toks[0].Star?)
            && (q[0] == M_ONE <==> toks[0].One?)
            && (q[0] == M_SET <==> toks[0].Set?)
            && (!q[0].meta <==> toks[0].Lit?)
            && (toks[0].Lit? ==> q[0] == Plain(toks[0].c))
            && q[..|EncodeToken(toks[0], alt)|] == EncodeToken(toks[0], alt)
            && q[|EncodeToken(toks[0], alt)|..] == Encode(toks[1..], alt)
            && 0 < |EncodeToken(toks[0], alt)| <= |q| && (|EncodeToken(toks[0], alt)| == 1 || toks[0].Set?)
  {
  }

  /** The place of the scan of a set: in front of an item, or behind the lower end of a range. */
  datatype Place = Before | Inside

  ghost predicate Scanning(rest: seq<PatChar>, items: seq<Item>, m: nat, place: Place) {
    match place
    case Before => m <= |items| && rest == EncodeItems(items[m..]) + [M_END]
    case Inside =>
      && m < |items| && items[m].Span?
      && rest == [M_RNG, Plain(items[m].hi)] + EncodeItems(items[m + 1..]) + [M_END]
  }

  ghost predicate ScanAt(pat: seq<PatChar>, q: nat, stop: nat, items: seq<Item>, m: nat, place: Place) {
    q < stop <= |pat| && Scanning(pat[q..stop], items, m, place)
  }

  lemma AtItem(pat: seq<PatChar>, q: nat, stop: nat, items: seq<Item>, m: nat)
    requires ScanAt(pat, q, stop, items, m, Before)
    ensures m <= |items| && (m == |items| <==> pat[q] == M_END)
    ensures m == |items| ==> q + 1 == stop
    ensures m < |items| ==>
              && pat[q] == Plain(if items[m].Single? then items[m].c else items[m].lo)
              && (items[m].Single? ==> ScanAt(pat, q + 1, stop, items, m + 1, Before))
              && (items[m].Span? ==> ScanAt(pat, q + 1, stop, items, m, Inside))
  {
    var rest := pat[q..stop];
    assert pat[q] == rest[0] && pat[q + 1..stop] == rest[1..];
    if m < |items| {
      assert items[m..][0] == items[m] && items[m..][1..] == items[m + 1..];
      assert rest == EncodeItem(items[m]) + (EncodeItems(items[m + 1..]) + [M_END]);
    } else {
      assert rest == [M_END];
    }
  }

  lemma AtRange(pat: seq<PatChar>, q: nat, stop: nat, items: seq<Item>, m: nat)
    requires ScanAt(pat, q, stop, items, m, Inside)
    ensures m < |items| && items[m].Span? && q + 2 < stop
    ensures pat[q] == M_RNG && pat[q + 1] == Plain(items[m].hi)
    ensures ScanAt(pat, q + 2, stop, items, m + 1, Before)
  {
    var rest := pat[q..stop];
    assert pat[q] == rest[0] && pat[q + 1] == rest[1] && pat[q + 2..stop] == rest[2..];
    assert rest[2..] == EncodeItems(items[m + 1..]) + [M_END];
  }

  /** What ok says at a place of the scan. */
  ghost predicate SoFar(items: seq<Item>, m: nat, place: Place, k: char) {
    && m <= |items|
    && (AnyHas(items[..m], k) || (place == Inside && m < |items| && items[m].Span? && items[m].lo == k))
  }

  lemma SoFarStep(items: seq<Item>, m: nat, k: char)
    requires m < |items|
    ensures SoFar(items, m + 1, Before, k) <==> SoFar(items, m, Before, k) || items[m].Has(k)
  {
    assert forall i :: 0 <= i < m ==> items[..m + 1][i] == items[..m][i];
    if AnyHas(items[..m], k) {
      var i :| 0 <= i < |items[..m]| && items[..m][i].Has(k);
      assert items[..m + 1][i].Has(k);
    }
    if items[m].Has(k) {
      assert items[..m + 1][m].Has(k);
    }
  }

  lemma SoFarAll(items: seq<Item>, k: char)
    ensures SoFar(items, |items|, Before, k) <==> AnyHas(items, k)
    ensures !SoFar(items, 0, Before, k)
  {
    assert items[..|items|] == items;
  }

  /** The token t is compiled at p. */
  ghost predicate SetAt(pat: seq<PatChar>, p: nat, alt: bool, t: Token) {
    && t.Set? && t.items != []
    && p + |EncodeToken(t, alt)| <= |pat| && pat[p..p + |EncodeToken(t, alt)|] == EncodeToken(t, alt)
  }

  /** The place of the scan among the items of the set. */
  ghost predicate AtPlace(pat: seq<PatChar>, q: nat, stop: nat, t: Token, m: nat, place: Place, wc1: char, ok: bool,
                          k: char)
    requires t.Set?
  {
    && ScanAt(pat, q, stop, t.items, m, place)
    && ok == SoFar(t.items, m, place, k)
    && (place == Inside ==> m < |t.items| && t.items[m].Span? && wc1 == t.items[m].lo)
  }

  /**
   * The M_SET case of match: scan the set that starts at p and say whether it
   * takes k. The scan goes to the end of the set, wherever the segment ends.
   */
  method MatchSet(pat: seq<PatChar>, p: nat, k: char, alt: bool, ghost end: nat, ghost exact: bool, ghost t: Token)
    returns (takes: bool, next: nat)
    requires Whole(pat, end) && p < end && pat[p] == M_SET && (exact ==> SetAt(pat, p, alt, t))
    ensures p < next <= end
    ensures exact ==> takes == t.Takes(k) && next == p + |EncodeToken(t, alt)|
  {
    hide EncodeToken;
    hide AtPlace;
    hide AnyHas;
    ghost var stop := p + |EncodeToken(t, alt)|;
    ghost var y :| p < y < end && pat[y] == M_END;
    var ok := false;
    var q := p + 1;
    if exact {
      ScanStart(pat, p, alt, t, k);
    }
    var negate := pat[q] == Meta(NotChar(alt));
    if negate {
      q := q + 1;
    }
    var wc1 := pat[q].c;
    ghost var m: nat, place := 0, Before;
    while pat[q] != M_END
      invariant p < q <= y
      invariant exact ==> q < stop && AtPlace(pat, q, stop, t, m, place, wc1, ok, k)
      decreases y - q
    {
      var wc := pat[q].c;
      ghost var q', wc0, ok0 := q, wc1, ok;
      if pat[q] == M_RNG {
        q := q + 1;
        var wc2 := pat[q].c;
        if Coll(wc1, k) <= 0 && Coll(k, wc2) <= 0 {
          ok := true;
        }
      } else {
        if wc == k {
          ok := true;
        }
      }
      q := q + 1;
      wc1 := wc;
      if exact {
        m, place := ScanStep(pat, q', q, stop, t, m, place, wc0, wc1, ok0, ok, k);
      }
    }
    if exact {
      ScanEnd(pat, q, stop, t, m, place, wc1, ok, k);
    }
    takes, next := ok != negate, q + 1;
  }

  lemma ScanStart(pat: seq<PatChar>, p: nat, alt: bool, t: Token, k: char)
    requires SetAt(pat, p, alt, t)
    ensures var q, stop := if t.neg then p + 2 else p + 1, p + |EncodeToken(t, alt)|;
            && p + 1 < stop <= |pat| && q < stop && (pat[p + 1] == Meta(NotChar(alt)) <==> t.neg)
            && forall wc1 :: AtPlace(pat, q, stop, t, 0, Before, wc1, false, k)
  {
    SetHead(pat, p, alt, t);
    SoFarAll(t.items, k);
  }

  /** One turn of the scan. */
  ghost method ScanStep(pat: seq<PatChar>, q: nat, q': nat, stop: nat, t: Token, m: nat, place: Place,
                        wc1: char, wc1': char, ok: bool, ok': bool, k: char) returns (m': nat, place': Place)
    requires t.Set? && q < |pat| && pat[q] != M_END && AtPlace(pat, q, stop, t, m, place, wc1, ok, k)
    requires q' == (if pat[q] == M_RNG then q + 2 else q + 1) && wc1' == pat[q].c
    requires q + 1 < |pat|
    requires ok' == (ok || if pat[q] == M_RNG then Coll(wc1, k) <= 0 && Coll(k, pat[q + 1].c) <= 0 else pat[q].c == k)
    ensures q' < stop && AtPlace(pat, q', stop, t, m', place', wc1', ok', k)
  {
    hide Scanning;
    hide AnyHas;
    m', place' := m, place;
    if place == Before {
      AtItem(pat, q, stop, t.items, m);
    } else {
      AtRange(pat, q, stop, t.items, m);
    }
    SoFarStep(t.items, m, k);
    if pat[q] == M_RNG || t.items[m].Single? {
      m', place' := m + 1, Before;
    } else {
      place' := Inside;
    }
  }

  lemma ScanEnd(pat: seq<PatChar>, q: nat, stop: nat, t: Token, m: nat, place: Place, wc1: char, ok: bool, k: char)
    requires t.Set? && q < |pat| && pat[q] == M_END && AtPlace(pat, q, stop, t, m, place, wc1, ok, k)
    ensures q + 1 == stop && ok == AnyHas(t.items, k)
  {
    hide Scanning;
    hide AnyHas;
    if place == Before {
      AtItem(pat, q, stop, t.items, m);
    } else {
      AtRange(pat, q, stop, t.items, m);
    }
    SoFarAll(t.items, k);
  }

  lemma SetHead(pat: seq<PatChar>, p: nat, alt: bool, t: Token)
    requires SetAt(pat, p, alt, t)
    ensures var q, stop := if t.neg then p + 2 else p + 1, p + |EncodeToken(t, alt)|;
            && p + 1 < stop && q < stop
            && (pat[p + 1] == Meta(NotChar(alt)) <==> t.neg)
            && ScanAt(pat, q, stop, t.items, 0, Before)
  {
    var e := EncodeToken(t, alt);
    var body := EncodeItems(t.items) + [M_END];
    assert e == [M_SET] + (if t.neg then [Meta(NotChar(alt))] else []) + body;
    assert pat[p + 1] == e[1];
    assert pat[p..p + |e|][if t.neg then 2 else 1..] == body;
    assert t.items[0..] == t.items;
  }

  // ----- the loop -----

  /** The pattern from p to patend is the compiled form of the tokens from i on. */
  ghost predicate PatAt(pat: seq<PatChar>, p: nat, patend: nat, toks: seq<Token>, i: nat, alt: bool) {
    p <= patend < |pat| && i <= |toks| && pat[p..patend] == Encode(toks[i..], alt)
  }

  lemma SlicesOf<T>(s: seq<T>, p: nat, e: nat, end: nat)
    requires p <= p + e <= end <= |s|
    ensures s[p..p + e] == s[p..end][..e] && s[p + e..end] == s[p..end][e..] && (p < end ==> s[p..end][0] == s[p])
  {
  }

  lemma AtToken(pat: seq<PatChar>, p: nat, patend: nat, toks: seq<Token>, i: nat, alt: bool)
    requires PatAt(pat, p, patend, toks, i, alt) && Wellformed(toks)
    ensures i <= |toks| && p <= patend && (i == |toks| <==> p == patend)
    ensures i < |toks| ==>
              var e := |EncodeToken(toks[i], alt)|;
              && (pat[p] == M_ALL <==> toks[i].Star?)
              && (pat[p] == M_ONE <==> toks[i].One?)
              && (pat[p] == M_SET <==> toks[i].Set?)
              && (toks[i].Lit? <==> !pat[p].meta) && (toks[i].Lit? ==> pat[p].c == toks[i].c)
              && toks[i].Wellformed() && (e == 1 || toks[i].Set?)
              && p + e <= patend && pat[p..p + e] == EncodeToken(toks[i], alt)
              && PatAt(pat, p + e, patend, toks, i + 1, alt)
  {
    hide EncodeToken;
    if i == |toks| {
      assert toks[i..] == [];
    } else {
      hide Encode;
      HeadTells(toks[i..], alt);
      assert toks[i..][1..] == toks[i + 1..];
      var q, e := pat[p..patend], |EncodeToken(toks[i], alt)|;
      SlicesOf(pat, p, e, patend);
    }
  }

  /** The tokens from i on match the name from n on. */
  ghost predicate Hope(toks: seq<Token>, name: seq<char>, i: nat, n: nat) {
    i <= |toks| && n <= |name| && Matches(toks[i..], name[n..])
  }

  lemma HopeEnd(toks: seq<Token>, name: seq<char>, n: nat)
    requires n <= |name|
    ensures Hope(toks, name, |toks|, n) <==> n == |name|
  {
  }

  lemma HopeOne(toks: seq<Token>, name: seq<char>, i: nat, n: nat)
    requires i < |toks| && !toks[i].Star? && n <= |name|
    ensures Hope(toks, name, i, n) <==> n < |name| && toks[i].Takes(name[n]) && Hope(toks, name, i + 1, n + 1)
  {
    assert toks[i..][1..] == toks[i + 1..];
    if n < |name| {
      assert name[n..][1..] == name[n + 1..];
    }
  }

  lemma HopeStar(toks: seq<Token>, name: seq<char>, i: nat, n: nat)
    requires i < |toks| && toks[i].Star? && n <= |name|
    ensures Hope(toks, name, i, n) <==> Hope(toks, name, i + 1, n) || Hope(toks, name, i, n + 1)
  {
    StarUnfolds(toks[i..], name[n..]);
    assert toks[i..][1..] == toks[i + 1..];
    if n < |name| {
      assert name[n..][1..] == name[n + 1..];
    }
  }

  lemma HopeStars(toks: seq<Token>, name: seq<char>, i: nat, n: nat)
    requires i + 1 < |toks| && toks[i].Star? && toks[i + 1].Star? && n <= |name|
    ensures Hope(toks, name, i, n) <==> Hope(toks, name, i + 1, n)
  {
    StarStar(toks[i + 2..], name[n..]);
    assert toks[i..] == [Star, Star] + toks[i + 2..] && toks[i + 1..] == [Star] + toks[i + 2..];
  }

  lemma HopeLast(toks: seq<Token>, name: seq<char>, j: nat, m: nat, i: nat, n: nat)
    requires j < i < |toks| && toks[j].Star? && toks[i].Star? && forall k :: j < k < i ==> !toks[k].Star?
    requires n <= |name| && n <= m + (i - j - 1) && Hope(toks, name, j, m)
    ensures Hope(toks, name, i, n)
  {
    var seg := toks[j + 1..i];
    assert toks[j..] == [Star] + seg + toks[i..];
    LastStarSuffices(seg, toks[i..], name, m, n);
  }

  lemma HopeWhole(toks: seq<Token>, name: seq<char>)
    ensures Hope(toks, name, 0, 0) <==> Matches(toks, name)
  {
    assert toks[0..] == toks && name[0..] == name;
  }

  lemma HopePast(toks: seq<Token>, name: seq<char>, j: nat)
    ensures !Hope(toks, name, j, |name| + 1)
  {
  }

  /** Go to the last of a run of stars. */
  method SkipStars(name: seq<char>, pat: seq<PatChar>, p: nat, patend: nat, alt: bool,
                   ghost end: nat, ghost exact: bool, ghost toks: seq<Token>, ghost i: nat, ghost n: nat)
    returns (p': nat, ghost i': nat)
    requires Whole(pat, end) && p < end && pat[p] == M_ALL
    requires exact ==> PatAt(pat, p, patend, toks, i, alt) && Wellformed(toks) && !pat[patend].meta
    requires exact ==> i < |toks| && toks[i].Star? && n <= |name|
    ensures p <= p' < end && pat[p'] == M_ALL
    ensures exact ==> p' < patend && PatAt(pat, p', patend, toks, i', alt)
    ensures exact ==> i <= i' < |toks| && toks[i'].Star?
    ensures exact ==> (Hope(toks, name, i', n) <==> Hope(toks, name, i, n))
  {
    hide Hope;
    hide PatAt;
    hide EncodeToken;
    p', i' := p, i;
    if exact {
      AtToken(pat, p', patend, toks, i', alt);
    }
    while pat[p' + 1] == M_ALL
      invariant p <= p' < end && pat[p'] == M_ALL
      invariant exact ==> p' < patend && PatAt(pat, p', patend, toks, i', alt)
      invariant exact ==> i <= i' < |toks| && toks[i'].Star?
      invariant exact ==> (Hope(toks, name, i', n) <==> Hope(toks, name, i, n))
      decreases end - p'
    {
      if exact {
        AtToken(pat, p', patend, toks, i', alt);
        AtToken(pat, p' + 1, patend, toks, i' + 1, alt);
        HopeStars(toks, name, i', n);
        i' := i' + 1;
      }
      p' := p' + 1;
    }
  }

  /** The cases of match that take one character: M_ONE, M_SET and a plain character. */
  method TakeOne(name: seq<char>, n: nat, pat: seq<PatChar>, p: nat, patend: nat, alt: bool,
                 ghost end: nat, ghost exact: bool, ghost toks: seq<Token>, ghost i: nat)
    returns (took: bool, next: nat)
    requires Whole(pat, end) && p <= end && n <= |name| && pat[p] != M_ALL && SEP !in name && EOS !in name
    requires p < patend || n < |name|
    requires exact ==> PatAt(pat, p, patend, toks, i, alt) && Wellformed(toks) && Stops(pat, patend)
    ensures took ==> n < |name| && p < next <= end
    ensures exact && took ==> i < |toks| && !toks[i].Star? && PatAt(pat, next, patend, toks, i + 1, alt)
    ensures exact && took ==> (Hope(toks, name, i, n) <==> Hope(toks, name, i + 1, n + 1))
    ensures exact && !took ==> !Hope(toks, name, i, n)
  {
    hide Encode;
    hide EncodeToken;
    hide Hope;
    hide PatAt;
    if exact {
      AtToken(pat, p, patend, toks, i, alt);
      if i < |toks| {
        HopeOne(toks, name, i, n);
      } else {
        HopeEnd(toks, name, n);
      }
    }
    took, next := false, p;
    if n < |name| {
      assert name[n] in name;
      if pat[p] == M_ONE {
        took, next := true, p + 1;
      } else if pat[p] == M_SET {
        took, next := MatchSet(pat, p, name[n], alt, end, exact, if exact then toks[i] else One);
      } else if name[n] == pat[p].c {
        took, next := true, p + 1;
      }
    }
  }

  /** The segment ends at a slash or at the end of the pattern. */
  predicate Stops(pat: seq<PatChar>, patend: nat) {
    patend < |pat| && !pat[patend].meta && pat[patend].c in {SEP, EOS}
  }

  /**
   * The state of the loop. Token i is the one at p and n the place in the name;
   * j is the star at patNext, and e the place in the name it was last tried at.
   */
  ghost predicate State(toks: seq<Token>, name: seq<char>, n: nat, nameNext: nat, i: nat, j: nat, e: int) {
    && n <= |name| && nameNext <= |name| + 1 && j <= i <= |toks|
    && (if nameNext == 0 then e == -1 && j == 0 else
          && j < |toks| && toks[j].Star?
          && (|| (i == j && n == nameNext == e)
              || (j < i && n == nameNext - 1 + (i - j - 1) && e == nameNext - 1 && NoStar(toks, j + 1, i))))
    && (Matches(toks, name) <==> Hope(toks, name, i, n) || (nameNext > 0 && Hope(toks, name, j, nameNext)))
  }

  ghost predicate NoStar(toks: seq<Token>, a: nat, b: nat) {
    forall k :: a <= k < b && k < |toks| ==> !toks[k].Star?
  }

  /** Only the current star matters once it is reached, and it may take one more character or none. */
  lemma AtStar(toks: seq<Token>, name: seq<char>, n: nat, nameNext: nat, i: nat, j: nat, e: int)
    requires State(toks, name, n, nameNext, i, j, e) && i < |toks| && toks[i].Star?
    ensures Matches(toks, name) <==> Hope(toks, name, i, n)
  {
    hide Hope;
    hide Matches;
    if nameNext > 0 && j < i && Hope(toks, name, j, nameNext) {
      HopeLast(toks, name, j, nameNext, i, n);
    }
  }

  lemma PastStar(toks: seq<Token>, name: seq<char>, n: nat, i: nat)
    requires i < |toks| && toks[i].Star? && n <= |name|
    requires Matches(toks, name) <==> Hope(toks, name, i, n)
    ensures State(toks, name, n, n + 1, i + 1, i, n)
  {
    hide Hope;
    hide Matches;
    HopeStar(toks, name, i, n);
  }

  lemma Taken(toks: seq<Token>, name: seq<char>, n: nat, nameNext: nat, i: nat, j: nat, e: int)
    requires State(toks, name, n, nameNext, i, j, e) && i < |toks| && !toks[i].Star? && n < |name|
    requires Hope(toks, name, i, n) <==> Hope(toks, name, i + 1, n + 1)
    ensures State(toks, name, n + 1, nameNext, i + 1, j, e)
  {
    hide Hope;
    hide Matches;
  }

  lemma NotTaken(toks: seq<Token>, name: seq<char>, n: nat, nameNext: nat, i: nat, j: nat, e: int)
    requires State(toks, name, n, nameNext, i, j, e) && !Hope(toks, name, i, n)
    requires i == |toks| || !toks[i].Star?
    ensures nameNext == 0 || nameNext == |name| + 1 ==> !Matches(toks, name)
    ensures 0 < nameNext <= |name| ==>
              State(toks, name, nameNext, nameNext, j, j, nameNext) && e < nameNext
  {
    hide Matches;
    HopePast(toks, name, j);
  }

  /** Where the loop is, whatever the pattern: it has come back to the last star, or gone on from there. */
  ghost predicate Track(pat: seq<PatChar>, end: nat, p: nat, patNext: nat, name: seq<char>, n: nat, nameNext: nat,
                        e: int) {
    && end < |pat| && patNext <= p <= end && n <= |name| && nameNext <= |name| + 1 && -1 <= e <= |name|
    && if nameNext == 0 then e == -1 else
         && patNext < end && pat[patNext] == M_ALL
         && (if p == patNext then n == nameNext == e else e == nameNext - 1)
  }

  /**
   * match: does the compiled segment pat[start..patend] match the name? patNext
   * and nameNext remember the last star and where to resume it; nameNext is 0
   * until there has been one. nameEnd is -1 until the end of the name was seen.
   * The loop comes to an end for every segment; when the segment is the compiled
   * form of tokens (exact), the answer is that of their language.
   */
  method Match(name: seq<char>, pat: seq<PatChar>, start: nat, patend: nat, alt: bool,
               ghost end: nat, ghost exact: bool, ghost toks: seq<Token>)
    returns (r: bool)
    requires Whole(pat, end) && start <= patend <= end && SEP !in name && EOS !in name
    requires exact ==> PatAt(pat, start, patend, toks, 0, alt) && Wellformed(toks) && Stops(pat, patend)
    ensures exact ==> r == Matches(toks, name)
  {
    hide Matches;
    hide Hope;
    hide Encode;
    hide EncodeToken;
    var p: nat, n: nat := start, 0;
    var patNext: nat, nameNext: nat, nameEnd := start, 0, -1;
    ghost var i: nat, j: nat, e: int := 0, 0, -1;
    HopeWhole(toks, name);
    while p < patend || n < |name|
      invariant Track(pat, end, p, patNext, name, n, nameNext, e)
      invariant nameEnd in {-1, |name|} && (nameNext == |name| + 1 ==> nameEnd == |name|)
      invariant exact ==> InStep(pat, p, patend, patNext, alt, toks, name, n, nameNext, i, j, e)
      decreases |pat| - (if nameNext == 0 then 0 else patNext + 1), |name| + 1 - e, |pat| - p
    {
      if exact {
        AtToken(pat, p, patend, toks, i, alt);
      }
      if n == |name| {
        nameEnd := |name|;
      }
      if pat[p] == M_ALL {
        if exact {
          AtStar(toks, name, n, nameNext, i, j, e);
        }
        p, i := SkipStars(name, pat, p, patend, alt, end, exact, toks, i, n);
        if exact {
          AtToken(pat, p, patend, toks, i, alt);
          PastStar(toks, name, n, i);
        }
        patNext, nameNext := p, n + 1;
        p := p + 1;
        i, j, e := i + 1, i, n;
        continue;
      }
      var took, next := TakeOne(name, n, pat, p, patend, alt, end, exact, toks, i);
      if took {
        if exact {
          Taken(toks, name, n, nameNext, i, j, e);
        }
        n, p, i := n + 1, next, i + 1;
        continue;
      }
      if exact {
        NotTaken(toks, name, n, nameNext, i, j, e);
      }
      if nameNext != 0 && (nameEnd == -1 || nameNext <= nameEnd) {
        p, n := patNext, nameNext;
        i, e := j, nameNext;
        continue;
      }
      return false;
    }
    if exact {
      AtToken(pat, p, patend, toks, i, alt);
      HopeEnd(toks, name, n);
    }
    return true;
  }

  /** The loop stands at the tokens i and, for the last star, j. */
  ghost predicate InStep(pat: seq<PatChar>, p: nat, patend: nat, patNext: nat, alt: bool, toks: seq<Token>,
                         name: seq<char>, n: nat, nameNext: nat, i: nat, j: nat, e: int) {
    && State(toks, name, n, nameNext, i, j, e)
    && PatAt(pat, p, patend, toks, i, alt)
    && (nameNext > 0 ==> PatAt(pat, patNext, patend, toks, j, alt))
  }
}
