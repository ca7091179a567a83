/** What patterns mean as they are written, character by character. */
module GlobMeaning {
  import opened GlobLang
  import opened GlobCompile
  import opened GlobPaths
  import opened GlobSegments
  import opened GlobWalk
  import Sequences

  // ----- reading quoted text -----

  lemma QuotedPlain(c: char, p: string)
    requires c != '\\'
    ensures Quoted([c] + p) == [Plain(c)] + Quoted(p)
  {
    assert ([c] + p)[1..] == p;
  }

  lemma {:induction false} QuotedText(s: string, p: string)
    ensures Quoted(Escaped(s) + p) == Quoted(Escaped(s)) + Quoted(p)
    decreases |s|
  {
    if s == "" {
      assert Escaped(s) + p == p;
    } else {
      var e := Escaped(s);
      assert e == [QUOTE, s[0]] + Escaped(s[1..]);
      assert (e + p)[2..] == Escaped(s[1..]) + p && e[2..] == Escaped(s[1..]);
      QuotedText(s[1..], p);
      var h := [PatChar(s[0], false, true)];
      assert h + (Quoted(Escaped(s[1..])) + Quoted(p)) == h + Quoted(Escaped(s[1..])) + Quoted(p);
    }
  }

  /** Quoted characters stand for themselves, whatever follows. */
  lemma {:induction false} ParseText(s: string, q: seq<PatChar>, alt: bool)
    ensures Parse(Quoted(Escaped(s)) + q, alt) == Literals(s) + Parse(q, alt)
    decreases |s|
  {
    TextStep(s, q);
    hide Parse, Quoted, Escaped, Literals;
    if s == "" {
      assert Literals(s) + Parse(q, alt) == Parse(q, alt);
    } else {
      var h, rest := PatChar(s[0], false, true), Quoted(Escaped(s[1..]));
      ParseText(s[1..], q, alt);
      ParseQuoted(h, rest + q, alt);
      Assoc([Lit(s[0])], Literals(s[1..]), Parse(q, alt));
    }
  }

  lemma TextStep(s: string, q: seq<PatChar>)
    ensures s == "" ==> Quoted(Escaped(s)) + q == q && Literals(s) == []
    ensures s != "" ==>
              && Quoted(Escaped(s)) + q == [PatChar(s[0], false, true)] + (Quoted(Escaped(s[1..])) + q)
              && Literals(s) == [Lit(s[0])] + Literals(s[1..])
  {
    if s == "" {
      assert Quoted("") + q == q;
    } else {
      QuotedEscape(s[0], Escaped(s[1..]));
      hide Quoted;
      Assoc([PatChar(s[0], false, true)], Quoted(Escaped(s[1..])), q);
    }
  }

  lemma QuotedEscape(c: char, p: string)
    ensures Quoted([QUOTE, c] + p) == [PatChar(c, false, true)] + Quoted(p)
  {
    assert ([QUOTE, c] + p)[2..] == p;
  }

  lemma ParseQuoted(h: PatChar, q: seq<PatChar>, alt: bool)
    requires h.quoted
    ensures Parse([h] + q, alt) == [Lit(h.c)] + Parse(q, alt)
  {
    assert ([h] + q)[1..] == q;
  }

  lemma ParseTextOnly(s: string, alt: bool)
    ensures Parse(Quoted(Escaped(s)), alt) == Literals(s)
  {
    EscapedParses(s, alt);
  }

  /** A pattern in which w stands between quoted texts is read as the token between their characters. */
  lemma Between(s: string, w: string, t: string, tok: Token, alt: bool)
    requires w != "" && w[0] != NotChar(alt)
    requires Parse(Quoted(w + Escaped(t)), alt) == [tok] + Literals(t)
    ensures TokensOf(Escaped(s) + w + Escaped(t), alt) == Literals(s) + [tok] + Literals(t)
  {
    hide Parse, Quoted, Escaped, Literals;
    NotNegated(s, w, Escaped(t), alt);
    QuotedText(s, w + Escaped(t));
    ParseText(s, Quoted(w + Escaped(t)), alt);
    Assoc(Literals(s), [tok], Literals(t));
  }

  lemma NotNegated(s: string, w: string, e: string, alt: bool)
    requires w != "" && w[0] != NotChar(alt)
    ensures var p := Escaped(s) + w + e; p == Escaped(s) + (w + e) && !Negated(p, alt)
  {
    assert s == "" ==> Escaped(s) == "" && Escaped(s) + w + e == w + e;
  }

  // ----- matching text -----

  lemma {:induction false} TextThen(s: string, rest: seq<Token>, name: string)
    ensures Matches(Literals(s) + rest, name) <==>
            |s| <= |name| && name[..|s|] == s && Matches(rest, name[|s|..])
    decreases |s|
  {
    if s == "" {
      assert Literals(s) + rest == rest && name[0..] == name;
    } else {
      LiteralsStep(s);
      var toks := Literals(s) + rest;
      assert toks[0] == Lit(s[0]) && toks[1..] == Literals(s[1..]) + rest;
      hide Literals;
      if name != "" {
        TextThen(s[1..], rest, name[1..]);
        if |s| <= |name| {
          assert name[1..][|s| - 1..] == name[|s|..];
          Prefix(s, name);
        }
      }
    }
  }

  lemma Prefix(s: string, name: string)
    requires 0 < |s| <= |name|
    ensures name[..|s|] == s <==> name[0] == s[0] && name[1..][..|s| - 1] == s[1..]
  {
    assert name[..|s|] == [name[0]] + name[1..][..|s| - 1] && s == [s[0]] + s[1..];
  }

  /** There is one character between s and t. */
  predicate Around(s: string, t: string, name: string) {
    |name| == |s| + 1 + |t| && name[..|s|] == s && name[|s| + 1..] == t
  }

  lemma OneBetween(s: string, tok: Token, t: string, name: string)
    requires !tok.Star?
    ensures Matches(Literals(s) + [tok] + Literals(t), name) <==>
            Around(s, t, name) && tok.Takes(name[|s|])
  {
    hide Literals, Matches;
    Assoc(Literals(s), [tok], Literals(t));
    TextThen(s, [tok] + Literals(t), name);
    if |s| <= |name| {
      OneThen(tok, t, name[|s|..]);
      if |s| < |name| {
        assert name[|s|..][1..] == name[|s| + 1..] && name[|s|..][0] == name[|s|];
      }
    }
  }

  lemma OneThen(tok: Token, t: string, name: string)
    requires !tok.Star?
    ensures Matches([tok] + Literals(t), name) <==> name != "" && tok.Takes(name[0]) && name[1..] == t
  {
    hide Literals;
    assert ([tok] + Literals(t))[1..] == Literals(t);
    if name != "" {
      LiteralsMatch(t, name[1..]);
    }
  }

  // ----- the metacharacters -----

  /** A star between quoted texts: what starts with the one and ends with the other, without overlap. */
  lemma StarMeans(s: string, t: string, alt: bool, name: string)
    ensures Matches(TokensOf(Escaped(s) + "*" + Escaped(t), alt), name) <==>
            |s| + |t| <= |name| && name[..|s|] == s && name[|name| - |t|..] == t
  {
    hide TokensOf, Escaped, Literals, Matches;
    StarTokens(s, t, alt);
    StarBetween(s, t, name);
  }

  lemma StarBetween(s: string, t: string, name: string)
    ensures Matches(Literals(s) + [Star] + Literals(t), name) <==>
            |s| + |t| <= |name| && name[..|s|] == s && name[|name| - |t|..] == t
  {
    hide *;
    Assoc(Literals(s), [Star], Literals(t));
    TextThen(s, [Star] + Literals(t), name);
    if |s| <= |name| {
      StarThen(t, name[|s|..]);
      SameTail(name, |s|, t);
    }
  }

  predicate EndsWith(name: string, t: string) {
    |t| <= |name| && name[|name| - |t|..] == t
  }

  lemma SameTail(name: string, m: nat, t: string)
    requires m <= |name|
    ensures EndsWith(name[m..], t) <==> m + |t| <= |name| && name[|name| - |t|..] == t
  {
    assert m + |t| <= |name| ==> name[m..][|name[m..]| - |t|..] == name[|name| - |t|..];
  }

  lemma StarTokens(s: string, t: string, alt: bool)
    ensures TokensOf(Escaped(s) + "*" + Escaped(t), alt) == Literals(s) + [Star] + Literals(t)
  {
    QuotedPlain('*', Escaped(t));
    ParseMeta(Plain('*'), Quoted(Escaped(t)), alt);
    hide TokensOf, Escaped, Literals, Quoted, Parse;
    ParseTextOnly(t, alt);
    assert ['*'] == "*";
    Between(s, "*", t, Star, alt);
  }

  /** The two metacharacters that stand alone. */
  lemma ParseMeta(c: PatChar, z: seq<PatChar>, alt: bool)
    requires c == Plain('*') || c == Plain('?')
    ensures Parse([c] + z, alt) == [if c == Plain('*') then Star else One] + Parse(z, alt)
  {
    assert ([c] + z)[1..] == z;
  }

  lemma StarThen(t: string, name: string)
    ensures Matches([Star] + Literals(t), name) <==> EndsWith(name, t)
  {
    var toks := [Star] + Literals(t);
    assert toks[1..] == Literals(t);
    forall k | 0 <= k <= |name|
      ensures Matches(Literals(t), name[k..]) <==> name[k..] == t
    {
      LiteralsMatch(t, name[k..]);
    }
  }

  /** A question mark between quoted texts: one character between them. */
  lemma QuestionMeans(s: string, t: string, alt: bool, name: string)
    ensures Matches(TokensOf(Escaped(s) + "?" + Escaped(t), alt), name) <==>
            |name| == |s| + 1 + |t| && name[..|s|] == s && name[|s| + 1..] == t
  {
    hide TokensOf, Escaped, Literals, Matches;
    QuestionTokens(s, t, alt);
    OneBetween(s, One, t, name);
  }

  lemma QuestionTokens(s: string, t: string, alt: bool)
    ensures TokensOf(Escaped(s) + "?" + Escaped(t), alt) == Literals(s) + [One] + Literals(t)
  {
    hide TokensOf, Escaped, Literals, Quoted, Parse;
    QuotedPlain('?', Escaped(t));
    assert ['?'] == "?";
    ParseMeta(Plain('?'), Quoted(Escaped(t)), alt);
    ParseTextOnly(t, alt);
    Between(s, "?", t, One, alt);
  }

  /** A bracket around x between quoted texts, read as the set tok. */
  lemma BracketBetween(s: string, x: string, t: string, tok: Token, alt: bool, name: string)
    requires '\\' !in x && tok.Set?
    requires var z := Quoted(Escaped(t)); Parse([LBRACKET] + Plains(x) + [RBRACKET] + z, alt) == [tok] + Parse(z, alt)
    ensures Matches(TokensOf(Escaped(s) + "[" + x + "]" + Escaped(t), alt), name) <==>
            Around(s, t, name) && tok.Takes(name[|s|])
  {
    hide TokensOf, Escaped, Literals, Matches, Quoted, Parse, Plains;
    BracketTokens(s, x, t, tok, alt);
    OneBetween(s, tok, t, name);
  }

  lemma BracketTokens(s: string, x: string, t: string, tok: Token, alt: bool)
    requires '\\' !in x && tok.Set?
    requires var z := Quoted(Escaped(t)); Parse([LBRACKET] + Plains(x) + [RBRACKET] + z, alt) == [tok] + Parse(z, alt)
    ensures TokensOf(Escaped(s) + "[" + x + "]" + Escaped(t), alt) == Literals(s) + [tok] + Literals(t)
  {
    hide TokensOf, Escaped, Literals, Quoted, Parse;
    QuotedBrackets(x, Escaped(t));
    ParseTextOnly(t, alt);
    Between(s, "[" + x + "]", t, tok, alt);
    Regrouped(Escaped(s), x, Escaped(t));
  }

  lemma Regrouped(a: string, x: string, b: string)
    ensures a + "[" + x + "]" + b == a + ("[" + x + "]") + b
  {
  }

  /** A bracket around one character: that character. */
  lemma BracketMeans(s: string, c: char, t: string, alt: bool, name: string)
    requires c != '\\' && c != (if alt then '^' else '!')
    ensures Matches(TokensOf(Escaped(s) + "[" + [c] + "]" + Escaped(t), alt), name) <==> name == s + [c] + t
  {
    hide TokensOf, Escaped, Matches, Quoted, Parse, Plains, Token.Takes;
    BracketReads(c, Quoted(Escaped(t)), alt);
    BracketBetween(s, [c], t, Set(false, [Single(c)]), alt, name);
    SpelledOut(s, c, t, name);
  }

  lemma BracketReads(c: char, z: seq<PatChar>, alt: bool)
    requires c != (if alt then '^' else '!')
    ensures Parse([LBRACKET] + Plains([c]) + [RBRACKET] + z, alt) == [Set(false, [Single(c)])] + Parse(z, alt)
    ensures forall k :: Set(false, [Single(c)]).Takes(k) <==> k == c
  {
    hide Parse;
    assert [LBRACKET] + Plains([c]) + [RBRACKET] == [LBRACKET, Plain(c), RBRACKET];
    BracketParses([LBRACKET, Plain(c), RBRACKET], z, alt, Set(false, [Single(c)]));
    assert [Single(c)][0].Has(c);
  }

  lemma SpelledOut(s: string, c: char, t: string, name: string)
    ensures name == s + [c] + t <==>
            |name| == |s| + 1 + |t| && name[..|s|] == s && name[|s|] == c && name[|s| + 1..] == t
  {
    if |name| == |s| + 1 + |t| {
      assert name == name[..|s|] + [name[|s|]] + name[|s| + 1..];
    }
    var n := s + [c] + t;
    assert n[..|s|] == s && n[|s|] == c && n[|s| + 1..] == t;
  }

  /** A negated bracket around one character: any other. */
  lemma NotBracketMeans(s: string, c: char, t: string, alt: bool, name: string)
    requires c != '\\'
    ensures Matches(TokensOf(Escaped(s) + "[" + [if alt then '^' else '!', c] + "]" + Escaped(t), alt), name) <==>
            |name| == |s| + 1 + |t| && name[..|s|] == s && name[|s|] != c && name[|s| + 1..] == t
  {
    hide TokensOf, Escaped, Matches;
    NotBracketAround(s, c, t, alt, name);
  }

  lemma NotBracketAround(s: string, c: char, t: string, alt: bool, name: string)
    requires c != '\\'
    ensures Matches(TokensOf(Escaped(s) + "[" + [if alt then '^' else '!', c] + "]" + Escaped(t), alt), name) <==>
            Around(s, t, name) && name[|s|] != c
  {
    hide *;
    NotBracketReads(c, Quoted(Escaped(t)), alt);
    BracketBetween(s, [if alt then '^' else '!', c], t, Set(true, [Single(c)]), alt, name);
  }

  lemma NotBracketReads(c: char, z: seq<PatChar>, alt: bool)
    ensures var x := [if alt then '^' else '!', c];
            Parse([LBRACKET] + Plains(x) + [RBRACKET] + z, alt) == [Set(true, [Single(c)])] + Parse(z, alt)
    ensures forall k :: Set(true, [Single(c)]).Takes(k) <==> k != c
  {
    hide Parse;
    var not := if alt then '^' else '!';
    assert [LBRACKET] + Plains([not, c]) + [RBRACKET] == [LBRACKET, Plain(not), Plain(c), RBRACKET];
    BracketParses([LBRACKET, Plain(not), Plain(c), RBRACKET], z, alt, Set(true, [Single(c)]));
    assert [Single(c)][0].Has(c);
  }

  /** A range: what lies between its ends, and its lower end. */
  lemma RangeMeans(s: string, lo: char, hi: char, t: string, alt: bool, name: string)
    requires lo != '\\' && lo != (if alt then '^' else '!') && hi != '\\' && hi != ']'
    ensures Matches(TokensOf(Escaped(s) + "[" + [lo, '-', hi] + "]" + Escaped(t), alt), name) <==>
            && |name| == |s| + 1 + |t| && name[..|s|] == s && name[|s| + 1..] == t
            && (lo <= name[|s|] <= hi || name[|s|] == lo)
  {
    hide TokensOf, Escaped, Matches;
    RangeAround(s, lo, hi, t, alt, name);
  }

  lemma RangeAround(s: string, lo: char, hi: char, t: string, alt: bool, name: string)
    requires lo != '\\' && lo != (if alt then '^' else '!') && hi != '\\' && hi != ']'
    ensures Matches(TokensOf(Escaped(s) + "[" + [lo, '-', hi] + "]" + Escaped(t), alt), name) <==>
            Around(s, t, name) && (lo <= name[|s|] <= hi || name[|s|] == lo)
  {
    hide *;
    RangeReads(lo, hi, Quoted(Escaped(t)), alt);
    BracketBetween(s, [lo, '-', hi], t, Set(false, [Span(lo, hi)]), alt, name);
  }

  lemma RangeReads(lo: char, hi: char, z: seq<PatChar>, alt: bool)
    requires lo != (if alt then '^' else '!') && hi != ']'
    ensures Parse([LBRACKET] + Plains([lo, '-', hi]) + [RBRACKET] + z, alt) ==
            [Set(false, [Span(lo, hi)])] + Parse(z, alt)
    ensures forall k :: Set(false, [Span(lo, hi)]).Takes(k) <==> lo <= k <= hi || k == lo
  {
    hide Parse;
    assert [LBRACKET] + Plains([lo, '-', hi]) + [RBRACKET] == [LBRACKET, Plain(lo), RANGE, Plain(hi), RBRACKET];
    BracketParses([LBRACKET, Plain(lo), RANGE, Plain(hi), RBRACKET], z, alt, Set(false, [Span(lo, hi)]));
    assert forall k :: [Span(lo, hi)][0].Has(k) <==> lo <= k <= hi || k == lo;
  }

  function Plains(x: string): (q: seq<PatChar>)
    ensures |q| == |x| && forall i :: 0 <= i < |x| ==> q[i] == Plain(x[i])
  {
    seq(|x|, i requires 0 <= i < |x| => Plain(x[i]))
  }

  lemma QuotedBrackets(x: string, p: string)
    requires '\\' !in x
    ensures Quoted("[" + x + "]" + p) == [LBRACKET] + Plains(x) + [RBRACKET] + Quoted(p)
  {
    assert "[" + x + "]" + p == ['['] + (x + ("]" + p));
    QuotedPlain('[', x + ("]" + p));
    QuotedPlains(x, "]" + p);
    QuotedPlain(']', p);
    assert [LBRACKET] + (Plains(x) + ([RBRACKET] + Quoted(p))) == [LBRACKET] + Plains(x) + [RBRACKET] + Quoted(p);
  }

  lemma {:induction false} QuotedPlains(x: string, p: string)
    requires '\\' !in x
    ensures Quoted(x + p) == Plains(x) + Quoted(p)
    decreases |x|
  {
    if x == "" {
      assert x + p == p;
    } else {
      QuotedPlains(x[1..], p);
      QuotedPlain(x[0], x[1..] + p);
      assert x + p == [x[0]] + (x[1..] + p);
      assert Plains(x) == [Plain(x[0])] + Plains(x[1..]);
      assert [Plain(x[0])] + (Plains(x[1..]) + Quoted(p)) == Plains(x) + Quoted(p);
    }
  }

  /** The three forms of a bracket, in front of z. */
  lemma BracketParses(b: seq<PatChar>, z: seq<PatChar>, alt: bool, tok: Token)
    requires
      || (|b| == 3 && b == [LBRACKET, b[1], RBRACKET] && !b[1].meta && !b[1].quoted && b[1].c != NotChar(alt) &&
          tok == Set(false, [Single(b[1].c)]))
      || (|b| == 4 && b == [LBRACKET, Plain(NotChar(alt)), b[2], RBRACKET] && !b[2].meta && !b[2].quoted &&
          tok == Set(true, [Single(b[2].c)]))
      || (|b| == 5 && b == [LBRACKET, b[1], RANGE, b[3], RBRACKET] && !b[1].meta && !b[1].quoted &&
          b[1].c != NotChar(alt) && b[3] != RBRACKET && tok == Set(false, [Span(b[1].c, b[3].c)]))
    ensures Parse(b + z, alt) == [tok] + Parse(z, alt)
  {
    var q, n := b + z, |b|;
    assert q[n..] == z && q[n - 1] == RBRACKET && forall i :: 0 <= i < n ==> q[i] == b[i];
    var k := SetStart(q, alt);
    assert k == if n == 4 then 2 else 1;
    assert ClosesFrom(q, k + 1);
    assert ItemsFrom(q, k) == (tok.items, n);
  }

  // ----- what glob finds -----

  /** The paths of a star between quoted texts without slashes are names; a star in front finds no leading period. */
  lemma StarFits(s: string, t: string, alt: bool, dot: bool, name: string)
    requires '/' !in s && '/' !in t
    ensures Fits(TokensOf(Escaped(s) + "*" + Escaped(t), alt), 0, name, Mode(dot, false)) <==>
            && name != "" && '/' !in name
            && |s| + |t| <= |name| && name[..|s|] == s && name[|name| - |t|..] == t
            && (s == "" && name[0] == '.' ==> dot && name != "." && name != "..")
  {
    hide TokensOf, Escaped, Matches, Literals, Fits;
    var toks := TokensOf(Escaped(s) + "*" + Escaped(t), alt);
    StarTokens(s, t, alt);
    StarMeans(s, t, alt, name);
    LiteralTokens(s);
    LiteralTokens(t);
    assert toks[|s|] == Star && toks[0] == if s == "" then Star else Lit(s[0]);
    OneSegment(toks, name, Mode(dot, false));
    if |s| <= |name| && s != "" {
      assert name[..|s|][0] == name[0];
    }
  }

  lemma {:induction false} LiteralTokens(s: string)
    ensures |Literals(s)| == |s| && forall i :: 0 <= i < |s| ==> Literals(s)[i] == Lit(s[i])
    decreases |s|
  {
    if s != "" {
      LiteralTokens(s[1..]);
    }
  }

  /** The paths of a pattern of one segment with metacharacters. */
  lemma OneSegment(toks: seq<Token>, name: string, mode: Mode)
    requires !AllLit(toks) && forall i :: 0 <= i < |toks| ==> toks[i] != SLASH
    ensures Fits(toks, 0, name, mode) <==> name != "" && '/' !in name && Passes(toks, name, mode)
  {
    hide Passes;
    assert SegEnd(toks, 0) == |toks| && toks[0..|toks|] == toks;
    var n := Sequences.CompLen(name);
    assert Fits(toks, |toks|, name[n..], mode) <==> name[n..] == "";
    WholeComp(name);
    if '/' !in name {
      assert name[..n] == name && name[n..] == "";
    }
  }

  lemma WholeComp(name: string)
    ensures Sequences.CompLen(name) == |name| <==> '/' !in name
  {
    var n := Sequences.CompLen(name);
    if n < |name| {
      assert name[n] in name;
    } else {
      assert name[..n] == name;
    }
  }

  /** The call of glob on such a pattern. */
  method GlobStar(fs: FileSystem, s: string, t: string, alt: bool, dot: bool) returns (paths: seq<string>)
    requires IsTree(fs) && '/' !in s && '/' !in t && EOS !in s && EOS !in t
    ensures forall name :: name in paths <==>
              && EOS !in name && fs.kind(name) != Absent && name != "" && '/' !in name
              && |s| + |t| <= |name| && name[..|s|] == s && name[|name| - |t|..] == t
              && (s == "" && name[0] == '.' ==> dot && name != "." && name != "..")
  {
    var p := Escaped(s) + "*" + Escaped(t);
    StarPattern(s, t, alt);
    forall name
      ensures Fits(TokensOf(p, alt), 0, name, Mode(dot, false)) <==>
              && name != "" && '/' !in name
              && |s| + |t| <= |name| && name[..|s|] == s && name[|name| - |t|..] == t
              && (s == "" && name[0] == '.' ==> dot && name != "." && name != "..")
    {
      StarFits(s, t, alt, dot, name);
    }
    hide Fits, TokensOf, IsTree, SlashFree, Escaped;
    paths := Glob(fs, p, alt, dot);
  }

  lemma StarPattern(s: string, t: string, alt: bool)
    requires EOS !in s && EOS !in t
    ensures var p := Escaped(s) + "*" + Escaped(t);
            EOS !in p && !Negated(p, alt) && Body(p, alt) == p != "" && SlashFree(TokensOf(p, alt))
  {
    EscapedChars(s);
    EscapedChars(t);
    StarTokens(s, t, alt);
    LiteralTokens(s);
    LiteralTokens(t);
  }

  /** Quoting puts a backslash in front of every character. */
  lemma {:induction false} EscapedIs(s: string)
    ensures |Escaped(s)| == 2 * |s|
    ensures forall i :: 0 <= i < |s| ==> Escaped(s)[2 * i] == '\\' && Escaped(s)[2 * i + 1] == s[i]
    decreases |s|
  {
    if s != "" {
      EscapedIs(s[1..]);
      var e, f := Escaped(s), Escaped(s[1..]);
      forall i | 0 <= i < |s|
        ensures e[2 * i] == '\\' && e[2 * i + 1] == s[i]
      {
        if i > 0 {
          assert e[2 * i] == f[2 * (i - 1)] && e[2 * i + 1] == f[2 * (i - 1) + 1];
        }
      }
    }
  }

  lemma {:induction false} EscapedChars(s: string)
    requires EOS !in s
    ensures EOS !in Escaped(s) && (s != "" ==> Escaped(s) != "" && Escaped(s)[0] == QUOTE)
    decreases |s|
  {
    if s != "" {
      EscapedChars(s[1..]);
    }
  }
}
