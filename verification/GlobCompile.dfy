/** The two passes of glob() that turn a pattern into its compiled form, in place. */
module GlobCompile {
  import opened GlobLang

  const LBRACKET := Plain('[')
  const RBRACKET := Plain(']')
  const QUESTION := Plain('?')
  const STAR := Plain('*')
  const RANGE := Plain('-')
  const QUOTE := '\\'
  const END := Plain(EOS)

  // ----- what a pattern means, read from left to right -----

  /** Strchr(q + k, ']') finds an unquoted bracket. */
  ghost predicate ClosesFrom(q: seq<PatChar>, k: nat) {
    exists b :: k <= b < |q| && q[b] == RBRACKET
  }

  /** The elements of a set from position k on, and the position behind its closing bracket. */
  ghost function ItemsFrom(q: seq<PatChar>, k: nat): (r: (seq<Item>, nat))
    requires k < |q| && ClosesFrom(q, k + 1)
    ensures k < r.1 <= |q| && r.0 != []
    decreases |q| - k
  {
    var range := k + 2 < |q| && q[k + 1] == RANGE && q[k + 2] != RBRACKET;
    var item := if range then Span(q[k].c, q[k + 2].c) else Single(q[k].c);
    var next := if range then k + 3 else k + 1;
    if q[next] == RBRACKET then ([item], next + 1)
    else
      var (items, end) := ItemsFrom(q, next);
      ([item] + items, end)
  }

  /** Where the elements of a set start: behind the bracket and the negation. */
  function SetStart(q: seq<PatChar>, alt: bool): nat {
    if 1 < |q| && q[1] == Plain(NotChar(alt)) then 2 else 1
  }

  /** A bracket opens a set if something can close it behind the first element. */
  ghost predicate OpensSet(q: seq<PatChar>, alt: bool) {
    q != [] && q[0] == LBRACKET && SetStart(q, alt) < |q| && ClosesFrom(q, SetStart(q, alt) + 1)
  }

  /** The tokens of a pattern; a bracket that is never closed is an ordinary character. */
  ghost function Parse(q: seq<PatChar>, alt: bool): seq<Token>
    decreases |q|
  {
    if q == [] then []
    else if OpensSet(q, alt) then
      var (items, end) := ItemsFrom(q, SetStart(q, alt));
      [Set(SetStart(q, alt) == 2, items)] + Parse(q[end..], alt)
    else
      [if q[0] == QUESTION then One else if q[0] == STAR then Star else Lit(q[0].c)] + Parse(q[1..], alt)
  }

  // ----- collapsing stars -----

  /** The last n elements are x. */
  predicate Ends<T(==)>(s: seq<T>, x: T, n: nat) {
    n <= |s| && forall i :: |s| - n <= i < |s| ==> s[i] == x
  }

  lemma EndsSnoc<T>(s: seq<T>, y: T, x: T, n: nat)
    requires n > 0
    ensures Ends(s + [y], x, n) <==> y == x && Ends(s, x, n - 1)
  {
    var r := s + [y];
    assert r[|s|] == y;
    if Ends(r, x, n) {
      assert forall i :: |s| - (n - 1) <= i < |s| ==> r[i] == s[i];
    }
  }

  /** Append a token, unless it is a star behind as many stars as may stay. */
  function Append(acc: seq<Token>, t: Token, max: nat): seq<Token> {
    if t.Star? && Ends(acc, Star, max) then acc else acc + [t]
  }

  function AppendAll(acc: seq<Token>, toks: seq<Token>, max: nat): seq<Token>
    decreases |toks|
  {
    if toks == [] then acc else AppendAll(Append(acc, toks[0], max), toks[1..], max)
  }

  lemma {:induction false} Congruence(a: seq<Token>, x: seq<Token>, y: seq<Token>, name: seq<char>)
    requires forall s :: Matches(x, s) <==> Matches(y, s)
    ensures Matches(a + x, name) <==> Matches(a + y, name)
    decreases |a|
  {
    if a == [] {
      assert a + x == x && a + y == y;
    } else {
      assert (a + x)[1..] == a[1..] + x && (a + y)[1..] == a[1..] + y;
      forall s ensures Matches(a[1..] + x, s) <==> Matches(a[1..] + y, s) {
        Congruence(a[1..], x, y, s);
      }
    }
  }

  lemma AppendKeeps(acc: seq<Token>, t: Token, max: nat, rest: seq<Token>, name: seq<char>)
    requires max > 0
    ensures Matches(Append(acc, t, max) + rest, name) <==> Matches(acc + [t] + rest, name)
  {
    if t.Star? && Ends(acc, Star, max) {
      var a := acc[..|acc| - 1];
      assert acc[|acc| - 1] == Star;
      forall s ensures Matches([Star] + rest, s) <==> Matches([Star, Star] + rest, s) {
        StarStar(rest, s);
      }
      Congruence(a, [Star] + rest, [Star, Star] + rest, name);
      assert acc + rest == a + ([Star] + rest);
      assert acc + [t] + rest == a + ([Star, Star] + rest);
    }
  }

  /** The collapsed pattern matches what the pattern matches. */
  lemma {:induction false} CollapseKeeps(acc: seq<Token>, toks: seq<Token>, max: nat, name: seq<char>)
    requires max > 0
    ensures Matches(AppendAll(acc, toks, max), name) <==> Matches(acc + toks, name)
    decreases |toks|
  {
    if toks == [] {
      assert acc + toks == acc;
    } else {
      CollapseKeeps(Append(acc, toks[0], max), toks[1..], max, name);
      AppendKeeps(acc, toks[0], max, toks[1..], name);
      assert acc + toks == acc + [toks[0]] + toks[1..];
    }
  }

  // ----- the first pass: quotes -----

  /** A backslash protects the next character; at the very end it protects itself. */
  function Quoted(pattern: string): (q: seq<PatChar>)
    ensures |q| <= |pattern|
  {
    if pattern == "" then []
    else if pattern[0] == QUOTE then
      if |pattern| == 1 then [PatChar(QUOTE, false, true)]
      else [PatChar(pattern[1], false, true)] + Quoted(pattern[2..])
    else [Plain(pattern[0])] + Quoted(pattern[1..])
  }

  /** The pass that copies the pattern into patbuf, with GLOB_QUOTE set. */
  method CopyQuoted(pattern: string) returns (patbuf: array<PatChar>, n: nat)
    ensures fresh(patbuf) && patbuf.Length == |pattern| + 1 && n <= |pattern|
    ensures patbuf[..n] == Quoted(pattern) && patbuf[n] == END
  {
    patbuf := new PatChar[|pattern| + 1](_ => END);
    n := 0;
    var patnext := 0;
    while patnext < |pattern|
      invariant n <= patnext <= |pattern| && patbuf.Length == |pattern| + 1
      invariant patbuf[..n] + Quoted(pattern[patnext..]) == Quoted(pattern)
      decreases |pattern| - patnext
    {
      ghost var done, rest := patbuf[..n], pattern[patnext..];
      var c := pattern[patnext];
      patnext := patnext + 1;
      if c == QUOTE {
        if patnext == |pattern| {
          patbuf[n] := PatChar(QUOTE, false, true);
        } else {
          patbuf[n] := PatChar(pattern[patnext], false, true);
          patnext := patnext + 1;
          assert rest[2..] == pattern[patnext..];
        }
      } else {
        patbuf[n] := Plain(c);
        assert rest[1..] == pattern[patnext..];
      }
      n := n + 1;
      assert patbuf[..n] == done + [patbuf[n - 1]];
      Assoc(done, [patbuf[n - 1]], Quoted(pattern[patnext..]));
    }
    patbuf[n] := END;
  }

  // ----- the second pass: metacharacters, in place -----

  /** The buffer holds q from position r on, and then the end. */
  ghost predicate Holds(buf: array<PatChar>, r: nat, q: seq<PatChar>)
    reads buf
  {
    && r + |q| < buf.Length && buf[r..r + |q|] == q && buf[r + |q|] == END
    && (forall i :: 0 <= i < |q| ==> q[i].c != EOS && !q[i].meta)
  }

  /** Strchr(buf + from, ']') != NULL. */
  method FindBracket(buf: array<PatChar>, from: nat, ghost r: nat, ghost q: seq<PatChar>) returns (found: bool)
    requires Holds(buf, r, q) && r <= from <= r + |q|
    ensures found <==> ClosesFrom(q, from - r)
  {
    var i := from;
    while buf[i] != END && buf[i] != RBRACKET
      invariant from <= i <= r + |q|
      invariant forall b :: from - r <= b < i - r ==> q[b] != RBRACKET
      decreases r + |q| - i
    {
      assert buf[r..r + |q|][i - r] == buf[i];
      i := i + 1;
    }
    found := buf[i] == RBRACKET;
    if i < r + |q| {
      assert buf[r..r + |q|][i - r] == buf[i];
    }
  }

  lemma EncodeNoItems()
    ensures EncodeItems([]) == []
  {
  }

  lemma {:induction false} EncodeItemsSnoc(items: seq<Item>, i: Item)
    ensures EncodeItems(items + [i]) == EncodeItems(items) + EncodeItem(i)
  {
    if items == [] {
      assert EncodeItems([i]) == EncodeItem(i) + EncodeItems([]);
    } else {
      assert (items + [i])[1..] == items[1..] + [i];
      EncodeItemsSnoc(items[1..], i);
    }
  }

  /** Nothing behind position x has been overwritten. */
  ghost predicate Unread(buf: array<PatChar>, x: nat, r: nat, q: seq<PatChar>)
    reads buf
  {
    r <= x && r + |q| < buf.Length && forall i :: x <= i <= r + |q| ==> buf[i] == if i < r + |q| then q[i - r] else END
  }

  /** One element of a set: write it, and a range if one follows. */
  method CompileItem(buf: array<PatChar>, r: nat, k: nat, w: nat, c: PatChar, ghost q: seq<PatChar>)
    returns (next: nat, w': nat, ghost item: Item)
    requires Unread(buf, r + k + 1, r, q) && k < |q| && c == q[k] && ClosesFrom(q, k + 1) && w <= r + k
    modifies buf
    ensures k < next < |q| && w < w' <= r + next && Unread(buf, r + next, r, q)
    ensures buf[..w'] == old(buf[..w]) + EncodeItem(item)
    ensures q[next] == RBRACKET ==> ItemsFrom(q, k) == ([item], next + 1)
    ensures q[next] != RBRACKET ==>
              && ClosesFrom(q, next + 1)
              && ItemsFrom(q, k) == ([item] + ItemsFrom(q, next).0, ItemsFrom(q, next).1)
  {
    var x := r + k + 1;
    buf[w] := Plain(c.c);
    w', next, item := w + 1, k + 1, Single(c.c);
    if buf[x] == RANGE && buf[x + 1] != RBRACKET {
      var hi := buf[x + 1];
      buf[w'] := M_RNG;
      buf[w' + 1] := Plain(hi.c);
      w', next, item := w' + 2, k + 3, Span(c.c, hi.c);
    }
  }

  /** The elements of a set, up to and including the closing bracket. */
  method CompileItems(buf: array<PatChar>, r: nat, start: nat, w: nat, ghost q: seq<PatChar>)
    returns (r': nat, w': nat, ghost items: seq<Item>)
    requires Unread(buf, r + start, r, q) && start < |q| && ClosesFrom(q, start + 1) && w <= r + start
    modifies buf
    ensures r + start < r' <= r + |q| && w <= w' < r' && Unread(buf, r', r, q)
    ensures (items, r' - r) == ItemsFrom(q, start)
    ensures buf[..w'] == old(buf[..w]) + EncodeItems(items)
  {
    hide ItemsFrom;
    hide EncodeItems;
    hide EncodeItem;
    hide ClosesFrom;
    EncodeNoItems();
    var k := start;
    w', items := w, [];
    ghost var whole := ItemsFrom(q, k);
    var c := buf[r + k];
    assert [] + whole.0 == whole.0 && buf[..w] + [] == buf[..w];
    while true
      invariant k < |q| && c == q[k] && ClosesFrom(q, k + 1) && w <= w' <= r + k && start <= k
      invariant Unread(buf, r + k + 1, r, q)
      invariant buf[..w'] == old(buf[..w]) + EncodeItems(items)
      invariant whole == (items + ItemsFrom(q, k).0, ItemsFrom(q, k).1)
      decreases |q| - k
    {
      ghost var item;
      var next;
      next, w', item := CompileItem(buf, r, k, w', c, q);
      EncodeItemsSnoc(items, item);
      Assoc(old(buf[..w]), EncodeItems(items), EncodeItem(item));
      if q[next] != RBRACKET {
        Assoc(items, [item], ItemsFrom(q, next).0);
      }
      items := items + [item];
      k := next;
      c := buf[r + k];
      if c == RBRACKET {
        break;
      }
    }
    r' := r + k + 1;
  }

  /** The set that the bracket at r opens, with the write pointer at w. */
  method CompileSet(buf: array<PatChar>, r: nat, w: nat, alt: bool, ghost q: seq<PatChar>)
    returns (r': nat, w': nat, ghost t: Token)
    requires Unread(buf, r, r, q) && w <= r && OpensSet(q, alt)
    modifies buf
    ensures t == Set(SetStart(q, alt) == 2, ItemsFrom(q, SetStart(q, alt)).0)
    ensures r' == r + ItemsFrom(q, SetStart(q, alt)).1 && w <= w' <= r' && Unread(buf, r', r, q)
    ensures buf[..w'] == old(buf[..w]) + EncodeToken(t, alt)
  {
    hide ItemsFrom;
    hide EncodeItems;
    var neg := buf[r + 1] == Plain(NotChar(alt));
    var k := if neg then 2 else 1;
    buf[w] := M_SET;
    w' := w + 1;
    if neg {
      buf[w'] := Meta(NotChar(alt));
      w' := w' + 1;
    }
    ghost var head := [M_SET] + (if neg then [Meta(NotChar(alt))] else []);
    assert buf[..w'] == old(buf[..w]) + head;
    ghost var items;
    r', w', items := CompileItems(buf, r, k, w', q);
    t := Set(neg, items);
    buf[w'] := M_END;
    w' := w' + 1;
    assert buf[..w'] == old(buf[..w]) + (head + EncodeItems(items) + [M_END]);
  }

  // ----- the star test looks at what has been written -----

  lemma {:induction false} TailTells(toks: seq<Token>, n: nat, alt: bool)
    requires Wellformed(toks)
    ensures Ends(Encode(toks, alt), M_ALL, n) <==> Ends(toks, Star, n)
    decreases n
  {
    if n > 0 && toks != [] {
      var init, last := toks[..|toks| - 1], toks[|toks| - 1];
      assert toks == init + [last];
      EncodeConcat(init, [last], alt);
      var e := EncodeToken(last, alt);
      assert Encode([last], alt) == e + [];
      TailTells(init, n - 1, alt);
      EndsSnoc(init, last, Star, n);
      EndsSnoc(Encode(init, alt) + e[..|e| - 1], e[|e| - 1], M_ALL, n);
      assert Encode(toks, alt) == Encode(init, alt) + e[..|e| - 1] + [e[|e| - 1]];
      if last.Star? {
        assert Encode(init, alt) + e[..|e| - 1] == Encode(init, alt);
      }
    }
  }

  /** Some token is a metacharacter: what GLOB_MAGCHAR reports. */
  predicate HasMagic(toks: seq<Token>) {
    exists i :: 0 <= i < |toks| && !toks[i].Lit?
  }

  function MaxStars(globstar: bool): nat {
    if globstar then 3 else 1
  }

  lemma Appended(acc: seq<Token>, t: Token, max: nat, alt: bool)
    requires Wellformed(acc) && t.Wellformed() && max > 0
    ensures Wellformed(Append(acc, t, max))
    ensures HasMagic(Append(acc, t, max)) <==> HasMagic(acc) || !t.Lit?
    ensures Append(acc, t, max) == acc + [t] ==>
              Encode(Append(acc, t, max), alt) == Encode(acc, alt) + EncodeToken(t, alt)
  {
    EncodeConcat(acc, [t], alt);
    assert Encode([t], alt) == EncodeToken(t, alt) + [];
    var r := Append(acc, t, max);
    if r == acc + [t] {
      assert r[|acc|] == t;
      if HasMagic(acc) {
        var i :| 0 <= i < |acc| && !acc[i].Lit?;
        assert !r[i].Lit?;
      }
    } else {
      assert acc[|acc| - 1] == Star;
    }
  }

  /** The test of the STAR case, which looks at what has been written before w. */
  method StarStays(buf: array<PatChar>, w: nat, globstar: bool, alt: bool, ghost acc: seq<Token>) returns (stays: bool)
    requires w <= buf.Length && Wellformed(acc) && buf[..w] == Encode(acc, alt)
    ensures stays <==> !Ends(acc, Star, MaxStars(globstar))
  {
    hide Encode;
    hide Wellformed;
    TailTells(acc, 1, alt);
    TailTells(acc, 3, alt);
    assert forall i :: 0 <= i < w ==> buf[..w][i] == buf[i];
    stays := w == 0 || buf[w - 1] != M_ALL ||
             (globstar && (w == 1 || buf[w - 2] != M_ALL || w == 2 || buf[w - 3] != M_ALL));
  }

  /** The switch of the compile loop for one character that opens no set. */
  method CompileOne(buf: array<PatChar>, w: nat, c: PatChar, globstar: bool, alt: bool, ghost acc: seq<Token>)
    returns (w': nat, ghost t: Token)
    requires w < buf.Length && Wellformed(acc) && buf[..w] == Encode(acc, alt)
    modifies buf
    ensures t == if c == QUESTION then One else if c == STAR then Star else Lit(c.c)
    ensures w <= w' <= w + 1 && buf[..w'] == Encode(Append(acc, t, MaxStars(globstar)), alt)
    ensures forall i :: w < i < buf.Length ==> buf[i] == old(buf[i])
  {
    t := if c == QUESTION then One else if c == STAR then Star else Lit(c.c);
    Appended(acc, t, MaxStars(globstar), alt);
    hide Encode;
    w' := w + 1;
    if c == QUESTION {
      buf[w] := M_ONE;
    } else if c == STAR {
      var stays := StarStays(buf, w, globstar, alt, acc);
      if stays {
        buf[w] := M_ALL;
      } else {
        w' := w;
      }
    } else {
      buf[w] := Plain(c.c);
    }
    assert buf[..w] == old(buf[..w]);
  }

  /** What the rest of the pattern means after one turn of the loop. */
  lemma ParseStep(q: seq<PatChar>, alt: bool, acc: seq<Token>, max: nat)
    requires q != []
    ensures OpensSet(q, alt) ==> q[0] == LBRACKET
    ensures OpensSet(q, alt) ==>
              var (items, end) := ItemsFrom(q, SetStart(q, alt));
              AppendAll(acc, Parse(q, alt), max) ==
              AppendAll(Append(acc, Set(SetStart(q, alt) == 2, items), max), Parse(q[end..], alt), max)
    ensures !OpensSet(q, alt) ==>
              AppendAll(acc, Parse(q, alt), max) ==
              AppendAll(Append(acc, if q[0] == QUESTION then One else if q[0] == STAR then Star else Lit(q[0].c), max),
                        Parse(q[1..], alt), max)
  {
    var toks := Parse(q, alt);
    assert toks[1..] ==
           if OpensSet(q, alt) then Parse(q[ItemsFrom(q, SetStart(q, alt)).1..], alt) else Parse(q[1..], alt);
  }

  /** The LBRACKET case: is there a set, or just a bracket? */
  method LooksLikeSet(buf: array<PatChar>, r: nat, alt: bool, ghost q: seq<PatChar>) returns (set_: bool)
    requires Holds(buf, r, q) && q != [] && q[0] == LBRACKET
    ensures set_ <==> OpensSet(q, alt)
  {
    assert forall x :: r <= x < r + |q| ==> buf[x] == buf[r..r + |q|][x - r];
    var qpatnext := r + 1;
    if buf[qpatnext] == Plain(NotChar(alt)) {
      qpatnext := qpatnext + 1;
    }
    if buf[qpatnext] == END {
      return false;
    }
    set_ := FindBracket(buf, qpatnext + 1, r, q);
  }

  /**
   * The compile loop of glob(), in place: the write pointer w never passes the
   * read pointer r, and what is written is the pattern with its stars collapsed.
   */
  method Compile(buf: array<PatChar>, alt: bool, globstar: bool, ghost q: seq<PatChar>)
    returns (len: nat, magic: bool, ghost toks: seq<Token>)
    requires Holds(buf, 0, q)
    modifies buf
    ensures len <= |q| && buf[len] == END
    ensures toks == AppendAll([], Parse(q, alt), MaxStars(globstar)) && Wellformed(toks)
    ensures buf[..len] == Encode(toks, alt)
    ensures magic <==> HasMagic(toks)
  {
    var r, w: nat := 0, 0;
    magic, toks := false, [];
    assert q[0..] == q;
    while buf[r] != END
      invariant w <= r <= |q| && Holds(buf, r, q[r..])
      invariant Wellformed(toks) && buf[..w] == Encode(toks, alt)
      invariant AppendAll(toks, Parse(q[r..], alt), MaxStars(globstar)) ==
                AppendAll([], Parse(q, alt), MaxStars(globstar))
      invariant magic <==> HasMagic(toks)
      decreases |q| - r
    {
      r, w, magic, toks := CompileTurn(buf, r, w, magic, alt, globstar, q, toks);
    }
    Unreads(buf, r, q[r..]);
    buf[w] := END;
    len := w;
  }

  /** One turn of the loop. */
  method CompileTurn(buf: array<PatChar>, r: nat, w: nat, magic: bool, alt: bool, globstar: bool,
                     ghost q: seq<PatChar>, ghost toks: seq<Token>)
    returns (r': nat, w': nat, magic': bool, ghost toks': seq<Token>)
    requires w <= r <= |q| && Holds(buf, r, q[r..]) && buf[r] != END
    requires Wellformed(toks) && buf[..w] == Encode(toks, alt) && (magic <==> HasMagic(toks))
    modifies buf
    ensures r < r' <= |q| && w' <= r' && Holds(buf, r', q[r'..])
    ensures Wellformed(toks') && buf[..w'] == Encode(toks', alt) && (magic' <==> HasMagic(toks'))
    ensures AppendAll(toks', Parse(q[r'..], alt), MaxStars(globstar)) ==
            AppendAll(toks, Parse(q[r..], alt), MaxStars(globstar))
  {
    hide Encode;
    hide Parse;
    hide AppendAll;
    hide HasMagic;
    hide OpensSet;
    hide ItemsFrom;
    hide EncodeToken;
    ghost var rest, max := q[r..], MaxStars(globstar);
    Unreads(buf, r, rest);
    assert rest != [] && rest[0] == buf[r];
    ParseStep(rest, alt, toks, max);
    var c := buf[r];
    var set_ := false;
    if c == LBRACKET {
      set_ := LooksLikeSet(buf, r, alt, rest);
    }
    ghost var t;
    if set_ {
      r', w', t := CompileSet(buf, r, w, alt, rest);
    } else {
      w', t := CompileOne(buf, w, c, globstar, alt, toks);
      r' := r + 1;
    }
    Appended(toks, t, max, alt);
    magic' := magic || set_ || c == QUESTION || c == STAR;
    toks' := Append(toks, t, max);
    assert rest[r' - r..] == q[r'..];
    Holding(buf, r', r, q, rest);
  }

  lemma Unreads(buf: array<PatChar>, r: nat, q: seq<PatChar>)
    requires Holds(buf, r, q)
    ensures Unread(buf, r, r, q)
    ensures buf[r] == END <==> q == []
  {
    assert forall x :: r <= x < r + |q| ==> buf[x] == buf[r..r + |q|][x - r];
  }

  lemma Holding(buf: array<PatChar>, r': nat, r: nat, q: seq<PatChar>, rest: seq<PatChar>)
    requires r <= r' <= |q| && rest == q[r..] && Unread(buf, r', r, rest)
    requires forall i :: 0 <= i < |rest| ==> rest[i].c != EOS && !rest[i].meta
    ensures Holds(buf, r', q[r'..])
  {
    assert forall i :: 0 <= i < |q[r'..]| ==> q[r'..][i] == rest[i + (r' - r)];
    assert buf[r'..r' + |q[r'..]|] == q[r'..];
  }

  /** A pattern that starts with the negation character asks for what does not match the rest. */
  predicate Negated(pattern: string, alt: bool) {
    pattern != "" && pattern[0] == NotChar(alt)
  }

  /** The pattern behind the negation. */
  function Body(pattern: string, alt: bool): (body: string)
    ensures EOS !in pattern ==> EOS !in body
  {
    if Negated(pattern, alt) then pattern[1..] else pattern
  }

  /** The tokens of the pattern as written. */
  ghost function TokensOf(pattern: string, alt: bool): seq<Token> {
    Parse(Quoted(Body(pattern, alt)), alt)
  }

  /**
   * The two passes of glob() over the pattern behind its negation: the compiled
   * pattern has the stars of the pattern as written collapsed, and its language.
   */
  method CompilePattern(pattern: string, alt: bool, globstar: bool)
    returns (patbuf: array<PatChar>, len: nat, magic: bool, noMatch: bool, ghost toks: seq<Token>)
    requires EOS !in pattern
    ensures fresh(patbuf) && len < patbuf.Length && patbuf[len] == END
    ensures patbuf[..len] == Encode(toks, alt) && Wellformed(toks)
    ensures noMatch <==> Negated(pattern, alt)
    ensures toks == AppendAll([], TokensOf(pattern, alt), MaxStars(globstar))
    ensures forall name :: Matches(toks, name) <==> Matches(TokensOf(pattern, alt), name)
    ensures magic <==> HasMagic(toks)
  {
    noMatch := pattern != "" && pattern[0] == NotChar(alt);
    var body := if noMatch then pattern[1..] else pattern;
    var n;
    patbuf, n := CopyQuoted(body);
    QuotedChars(body);
    ghost var q := Quoted(body);
    len, magic, toks := Compile(patbuf, alt, globstar, q);
    forall name ensures Matches(toks, name) <==> Matches(Parse(q, alt), name) {
      CollapseKeeps([], Parse(q, alt), MaxStars(globstar), name);
      assert [] + Parse(q, alt) == Parse(q, alt);
    }
  }

  lemma {:induction false} QuotedChars(pattern: string)
    requires EOS !in pattern
    ensures forall i :: 0 <= i < |Quoted(pattern)| ==> Quoted(pattern)[i].c != EOS && !Quoted(pattern)[i].meta
    decreases |pattern|
  {
    if pattern != "" && pattern[0] == QUOTE && |pattern| > 1 {
      QuotedChars(pattern[2..]);
    } else if pattern != "" {
      QuotedChars(pattern[1..]);
    }
  }

  // ----- brackets -----

  /** A range is what lies between its ends exactly when these are in order; otherwise it is its lower end. */
  lemma RangeKeepsLowEnd(lo: char, hi: char)
    ensures (forall k :: Span(lo, hi).Has(k) <==> lo <= k <= hi) <==> lo <= hi
    ensures hi < lo ==> forall k :: Span(lo, hi).Has(k) <==> k == lo
  {
    assert Span(lo, hi).Has(lo);
  }

  /** The characters of "[b-a]": the set takes b. */
  lemma EmptyRangeTakes(alt: bool)
    ensures Parse([LBRACKET, Plain('b'), RANGE, Plain('a'), RBRACKET], alt) == [Set(false, [Span('b', 'a')])]
    ensures Set(false, [Span('b', 'a')]).Takes('b') && !Set(false, [Span('b', 'a')]).Takes('a')
  {
    var q := [LBRACKET, Plain('b'), RANGE, Plain('a'), RBRACKET];
    assert q[4] == RBRACKET;
    assert ItemsFrom(q, 1) == ([Span('b', 'a')], 5);
    assert q[5..] == [];
    assert [Span('b', 'a')][0].Has('b');
  }

  /** A bracket that nothing closes is an ordinary character, and so are those behind it. */
  lemma UnclosedIsLiteral(q: seq<PatChar>, alt: bool)
    requires q != [] && q[0] == LBRACKET && RBRACKET !in q
    ensures Parse(q, alt) == [Lit('[')] + Parse(q[1..], alt)
  {
  }

  // ----- quoting -----

  /** s with a backslash in front of every character. */
  function Escaped(s: string): string {
    if s == "" then "" else [QUOTE, s[0]] + Escaped(s[1..])
  }

  function Literals(s: string): seq<Token> {
    if s == "" then [] else [Lit(s[0])] + Literals(s[1..])
  }

  lemma {:induction false} LiteralsMatch(s: string, name: string)
    ensures Matches(Literals(s), name) <==> name == s
    decreases |s|
  {
    if s != "" {
      LiteralsStep(s);
      hide Literals;
      if name != "" {
        LiteralsMatch(s[1..], name[1..]);
        SameString(s, name);
      }
    }
  }

  lemma LiteralsStep(s: string)
    requires s != ""
    ensures Literals(s) != [] && Literals(s)[0] == Lit(s[0]) && Literals(s)[1..] == Literals(s[1..])
  {
  }

  lemma SameString(s: string, t: string)
    requires s != "" && t != ""
    ensures t == s <==> t[0] == s[0] && t[1..] == s[1..]
  {
    assert s == [s[0]] + s[1..] && t == [t[0]] + t[1..];
  }

  lemma {:induction false} EscapedParses(s: string, alt: bool)
    ensures Parse(Quoted(Escaped(s)), alt) == Literals(s)
    decreases |s|
  {
    if s != "" {
      EscapedParses(s[1..], alt);
      assert Escaped(s)[2..] == Escaped(s[1..]);
      var q := Quoted(Escaped(s));
      assert q[0] == PatChar(s[0], false, true) && q[1..] == Quoted(Escaped(s[1..]));
    }
  }

  /** A fully quoted string is not negated, and matches itself and nothing else. */
  lemma QuotingIsLiteral(s: string, alt: bool, name: string)
    ensures !Negated(Escaped(s), alt)
    ensures Matches(TokensOf(Escaped(s), alt), name) <==> name == s
  {
    EscapedParses(s, alt);
    LiteralsMatch(s, name);
  }
}
