/** The pattern language of glob.c: tokens, what they match, and how they are stored. */
module GlobLang {
  /**
   * A Char of glob.c: the character in the low byte, the bit M_META of a
   * compiled metacharacter and the bit M_PROTECT of a quoted character.
   */
  datatype PatChar = PatChar(c: char, meta: bool, quoted: bool)

  function Plain(c: char): PatChar { PatChar(c, false, false) }

  function Meta(c: char): PatChar { PatChar(c, true, false) }

  const EOS := '\0'
  const SEP := '/'
  const DOT := '.'
  const M_ALL := Meta('*')
  const M_ONE := Meta('?')
  const M_SET := Meta('[')
  const M_RNG := Meta('-')
  const M_END := Meta(']')

  /** The two characters that can negate a set: ! and, with GLOB_ALTNOT, ^. */
  function NotChar(alt: bool): char {
    if alt then '^' else '!'
  }

  /** globcharcoll without a locale. */
  function Coll(a: char, b: char): int {
    a as int - b as int
  }

  datatype Item = Single(c: char) | Span(lo: char, hi: char) {
    /** The lower end of a range is also an element of its own. */
    predicate Has(k: char) {
      match this
      case Single(c) => c == k
      case Span(lo, hi) => lo == k || (Coll(lo, k) <= 0 && Coll(k, hi) <= 0)
    }
  }

  datatype Token = Star | One | Lit(c: char) | Set(neg: bool, items: seq<Item>) {
    /** The token matches this one character. */
    predicate Takes(k: char) {
      match this
      case Star => false
      case One => true
      case Lit(c) => c == k
      case Set(neg, items) => neg != AnyHas(items, k)
    }

    predicate Wellformed() {
      Set? ==> items != []
    }
  }

  predicate AnyHas(items: seq<Item>, k: char) {
    exists i :: 0 <= i < |items| && items[i].Has(k)
  }

  predicate Wellformed(toks: seq<Token>) {
    forall i :: 0 <= i < |toks| ==> toks[i].Wellformed()
  }

  /**
   * The language of a pattern: the name can be cut into one piece for each
   * token, any piece for a star and one character for every other token.
   */
  ghost predicate Matches(toks: seq<Token>, name: seq<char>)
    decreases |toks|
  {
    if toks == [] then name == []
    else if toks[0].Star? then exists k :: 0 <= k <= |name| && Matches(toks[1..], name[k..])
    else name != [] && toks[0].Takes(name[0]) && Matches(toks[1..], name[1..])
  }

  // ----- the compiled form -----

  function EncodeItem(i: Item): (r: seq<PatChar>)
    ensures r != []
  {
    match i
    case Single(c) => [Plain(c)]
    case Span(lo, hi) => [Plain(lo), M_RNG, Plain(hi)]
  }

  function EncodeItems(items: seq<Item>): seq<PatChar> {
    if items == [] then [] else EncodeItem(items[0]) + EncodeItems(items[1..])
  }

  function EncodeToken(t: Token, alt: bool): (r: seq<PatChar>)
    ensures r != []
  {
    match t
    case Star => [M_ALL]
    case One => [M_ONE]
    case Lit(c) => [Plain(c)]
    case Set(neg, items) =>
      [M_SET] + (if neg then [Meta(NotChar(alt))] else []) + EncodeItems(items) + [M_END]
  }

  function Encode(toks: seq<Token>, alt: bool): (r: seq<PatChar>)
    ensures |toks| <= |r|
  {
    if toks == [] then [] else EncodeToken(toks[0], alt) + Encode(toks[1..], alt)
  }

  /**
   * What a compiled pattern that ends at end is like wherever one starts to read
   * it: the end of the string comes at end only, every set is closed, and every
   * range has its upper end.
   */
  ghost predicate Whole(pat: seq<PatChar>, end: nat) {
    && end < |pat| && pat[end] == Plain(EOS)
    && (forall x :: 0 <= x < end ==> pat[x].c != EOS)
    && (forall x :: 0 <= x < end && pat[x] == M_RNG ==> x + 1 < end && !pat[x + 1].meta)
    && (forall x :: 0 <= x < end && pat[x] == M_SET ==> exists y :: x < y < end && pat[y] == M_END)
  }

  lemma Assoc<T>(a: seq<T>, b: seq<T>, c: seq<T>)
    ensures a + b + c == a + (b + c)
  {
  }

  lemma {:induction false} EncodeConcat(a: seq<Token>, b: seq<Token>, alt: bool)
    ensures Encode(a + b, alt) == Encode(a, alt) + Encode(b, alt)
  {
    if a == [] {
      assert a + b == b;
    } else {
      EncodeConcat(a[1..], b, alt);
      assert (a + b)[1..] == a[1..] + b && (a + b)[0] == a[0];
      Assoc(EncodeToken(a[0], alt), Encode(a[1..], alt), Encode(b, alt));
    }
  }

  // ----- facts about the language -----

  /** A star can always take more. */
  lemma StarAbsorbs(toks: seq<Token>, name: seq<char>, a: nat, b: nat)
    requires toks != [] && toks[0].Star? && a <= b <= |name| && Matches(toks, name[b..])
    ensures Matches(toks, name[a..])
  {
    var k :| 0 <= k <= |name[b..]| && Matches(toks[1..], name[b..][k..]);
    assert name[b..][k..] == name[a..][k + (b - a)..];
  }

  /** What a star does one character at a time. */
  lemma StarUnfolds(toks: seq<Token>, name: seq<char>)
    requires toks != [] && toks[0].Star?
    ensures Matches(toks, name) <==> Matches(toks[1..], name) || (name != [] && Matches(toks, name[1..]))
  {
    if Matches(toks, name) {
      var k :| 0 <= k <= |name| && Matches(toks[1..], name[k..]);
      if k == 0 {
        assert name[0..] == name;
      } else {
        assert name[k..] == name[1..][k - 1..];
      }
    }
    if Matches(toks[1..], name) {
      assert name[0..] == name;
    }
    if name != [] && Matches(toks, name[1..]) {
      assert name[0..] == name;
      StarAbsorbs(toks, name, 0, 1);
    }
  }

  /** A stretch without stars matches pieces of its own length only. */
  ghost predicate Fixed(toks: seq<Token>, name: seq<char>)
    requires |toks| <= |name|
  {
    forall i :: 0 <= i < |toks| ==> !toks[i].Star? && toks[i].Takes(name[i])
  }

  lemma {:induction false} FixedPrefix(seg: seq<Token>, rest: seq<Token>, name: seq<char>)
    requires forall i :: 0 <= i < |seg| ==> !seg[i].Star?
    ensures Matches(seg + rest, name) <==> |seg| <= |name| && Fixed(seg, name) && Matches(rest, name[|seg|..])
  {
    if seg == [] {
      assert seg + rest == rest && name[0..] == name;
    } else {
      assert (seg + rest)[1..] == seg[1..] + rest;
      if name != [] {
        FixedPrefix(seg[1..], rest, name[1..]);
        if |seg| <= |name| {
          assert name[1..][|seg| - 1..] == name[|seg|..];
          assert Fixed(seg, name) <==> seg[0].Takes(name[0]) && Fixed(seg[1..], name[1..]);
        }
      }
    }
  }

  /**
   * Remembering only the last star loses no match: once a second star is
   * reached at n, whatever an earlier star could still do from j on, the second
   * star can do from n on.
   */
  lemma LastStarSuffices(seg: seq<Token>, rest: seq<Token>, name: seq<char>, j: nat, n: nat)
    requires forall i :: 0 <= i < |seg| ==> !seg[i].Star?
    requires rest != [] && rest[0].Star?
    requires n <= j + |seg| && j <= |name| && n <= |name|
    requires Matches([Star] + seg + rest, name[j..])
    ensures Matches(rest, name[n..])
  {
    assert ([Star] + seg + rest)[1..] == seg + rest;
    var k :| 0 <= k <= |name[j..]| && Matches(seg + rest, name[j..][k..]);
    FixedPrefix(seg, rest, name[j..][k..]);
    assert name[j..][k..][|seg|..] == name[j + k + |seg|..];
    StarAbsorbs(rest, name, n, j + k + |seg|);
  }

  /** Two stars in a row are one. */
  lemma StarStar(rest: seq<Token>, name: seq<char>)
    ensures Matches([Star, Star] + rest, name) <==> Matches([Star] + rest, name)
  {
    var one, two := [Star] + rest, [Star, Star] + rest;
    assert two[1..] == one && name[0..] == name;
    if Matches(two, name) {
      var k :| 0 <= k <= |name| && Matches(one, name[k..]);
      StarAbsorbs(one, name, 0, k);
    }
  }
}
