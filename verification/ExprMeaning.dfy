/** What expressions of numbers come to, in terms of the numbers. */
module ExprMeaning {
  import opened Sequences
  import opened ExprSyntax
  import opened ExprValue
  import opened ExprEval

  // ----- reading operators of the string levels -----

  /** The level k reads e from p to q. */
  ghost predicate Reads(ws: seq<string>, compat: bool, k: nat, p: nat, e: SExpr, q: nat)
    requires 6 <= k <= 10 && p <= |ws|
  {
    ParseS(ws, compat, k, p, false) == Good(e, q)
  }

  /** No operator of the levels from j up to k stands at q. */
  ghost predicate Still(ws: seq<string>, j: nat, k: nat, q: nat) {
    forall i :: j <= i < k && i < 10 ==> Operator(ws, i, q).NoOp?
  }

  lemma {:induction false} Lower(ws: seq<string>, compat: bool, j: nat, k: nat, p: nat, e: SExpr, q: nat)
    requires 6 <= j <= k <= 10 && p <= |ws| && Reads(ws, compat, k, p, e, q) && Still(ws, j, k, q)
    ensures Reads(ws, compat, j, p, e, q)
    decreases k - j
  {
    if j < k {
      Lower(ws, compat, j + 1, k, p, e, q);
      assert Operator(ws, j, q).NoOp?;
      hide Operator;
      TailStops(ws, compat, j, e, q);
    }
  }

  lemma TailStops(ws: seq<string>, compat: bool, k: nat, e: SExpr, q: nat)
    requires 6 <= k < 10 && q <= |ws| && Operator(ws, k, q).NoOp?
    ensures TailS(ws, compat, k, e, q, false) == Good(e, q)
  {
  }

  lemma Word(ws: seq<string>, compat: bool, k: nat, p: nat)
    requires 6 <= k <= 10 && p < |ws| && IsPlain(ws[p]) && Still(ws, k, 10, p + 1)
    ensures Reads(ws, compat, k, p, Text(ws[p], false), p + 1)
  {
    hide Operator;
    PlainAt(ws, compat, k, p, false);
  }

  lemma TailGoes(ws: seq<string>, compat: bool, k: nat, l: SExpr, at: nat, op: Op, next: nat, r: SExpr, q: nat)
    requires 6 <= k < 10 && at <= |ws| && Operator(ws, k, at) == OpTo(op, next) && next <= |ws|
    requires Reads(ws, compat, if compat then k else k + 1, next, r, q) && q <= |ws|
    ensures TailS(ws, compat, k, l, at, false) ==
            if compat || k == 7 then Good(Bin(op, l, r), q) else TailS(ws, compat, k, Bin(op, l, r), q, false)
  {
  }

  lemma Starts(ws: seq<string>, compat: bool, k: nat, p: nat, l: SExpr, at: nat)
    requires 6 <= k < 10 && p <= |ws| && Reads(ws, compat, k + 1, p, l, at)
    ensures at <= |ws| && ParseS(ws, compat, k, p, false) == TailS(ws, compat, k, l, at, false)
  {
  }

  /** An operator of level k between what that level and the next read. */
  lemma Infix(ws: seq<string>, compat: bool, k: nat, p: nat, l: SExpr, at: nat, op: Op, next: nat, r: SExpr, q: nat)
    requires 6 <= k < 10 && p <= |ws| && Reads(ws, compat, k + 1, p, l, at)
    requires at <= |ws| && Operator(ws, k, at) == OpTo(op, next) && next <= |ws|
    requires Reads(ws, compat, if compat then k else k + 1, next, r, q) && q <= |ws|
    requires compat || k == 7 || Operator(ws, k, q).NoOp?
    ensures Reads(ws, compat, k, p, Bin(op, l, r), q)
  {
    Starts(ws, compat, k, p, l, at);
    TailGoes(ws, compat, k, l, at, op, next, r, q);
    if !compat && k != 7 {
      TailStops(ws, compat, k, Bin(op, l, r), q);
    }
  }

  /** Without compat_expr a second operator of the level takes the first one's result. */
  lemma InfixTwice(ws: seq<string>, k: nat, p: nat, l: SExpr, at: nat, op: Op, next: nat, m: SExpr, mid: nat,
                   op2: Op, next2: nat, r: SExpr, q: nat)
    requires 6 <= k < 10 && k != 7 && p <= |ws| && Reads(ws, false, k + 1, p, l, at)
    requires at <= |ws| && Operator(ws, k, at) == OpTo(op, next)
    requires next <= |ws| && Reads(ws, false, k + 1, next, m, mid)
    requires mid <= |ws| && Operator(ws, k, mid) == OpTo(op2, next2) && next2 <= |ws|
    requires Reads(ws, false, k + 1, next2, r, q) && q <= |ws| && Operator(ws, k, q).NoOp?
    ensures Reads(ws, false, k, p, Bin(op2, Bin(op, l, m), r), q)
  {
    Starts(ws, false, k, p, l, at);
    TailGoes(ws, false, k, l, at, op, next, m, mid);
    TailGoes(ws, false, k, Bin(op, l, m), mid, op2, next2, r, q);
    TailStops(ws, false, k, Bin(op2, Bin(op, l, m), r), q);
  }

  /** Behind the last word there is no operator of any level. */
  lemma AtEnd(ws: seq<string>, j: nat, k: nat)
    ensures Still(ws, j, k, |ws|)
  {
  }

  /** An expression that the level 6 reads to the end is the whole. */
  lemma {:induction false} Whole(ws: seq<string>, compat: bool, k: nat, e: SExpr)
    requires k <= 5 && Reads(ws, compat, 6, 0, e, |ws|)
    ensures ParseN(ws, compat, k, 0, false) == Good(Read(e), |ws|)
    decreases 5 - k
  {
    if k < 5 {
      Whole(ws, compat, k + 1, e);
    }
  }

  // ----- numbers -----

  const MIN := -0x8000_0000_0000_0000
  const MAX := 0x7FFF_FFFF_FFFF_FFFF

  /** What getn and putn of the shell do: a number is written so that it is read back. */
  ghost predicate Writes(env: Env) {
    forall i :: MIN <= i <= MAX ==>
      var s := env.putn(i);
      s != "" && (s[0] == '-' || '0' <= s[0] <= '9') && env.getn(s) == Some(i)
  }

  /** The word is neither an operator nor a pattern. */
  ghost predicate IsWord(env: Env, x: string) {
    IsPlain(x) && forall h :: env.glob(h, x) == Some(x)
  }

  /** The word is a number. */
  ghost predicate IsNumber(env: Env, x: string, a: int) {
    && MIN <= a <= MAX && IsWord(env, x)
    && x != "" && (x[0] == '-' || '0' <= x[0] <= '9') && env.getn(x) == Some(a)
  }

  lemma Written(env: Env, i: int)
    requires Writes(env) && MIN <= i <= MAX
    ensures Egetn(env, env.putn(i)) == Some(i)
  {
    var s := env.putn(i);
    assert s != "" && env.getn(s) == Some(i);
  }

  lemma NumberMeans(env: Env, compat: bool, x: string, a: int, h: History)
    requires IsNumber(env, x, a)
    ensures MeanS(env, Text(x, false), h) == Ok(x, h) && Egetn(env, x) == Some(a)
    ensures HarmlessS(env, compat, Text(x, false), h)
  {
  }

  /** The numbers that the 64 bits of c stand for, c being any integer. */
  predicate Wraps(v: int, c: int) {
    MIN <= v <= MAX && (v - c) % 0x1_0000_0000_0000_0000 == 0
  }

  lemma WrapIs(c: int)
    ensures Wraps(Wrap(c), c)
  {
  }

  // ----- the operator signs -----

  /** The operators between two numbers, as words, with their level and what the trees call them. */
  datatype Sign = Sign(words: seq<string>, k: nat, op: Op)

  predicate IsSign(g: Sign) {
    || g == Sign(["*"], 9, Mul) || g == Sign(["/"], 9, Div) || g == Sign(["%"], 9, Mod)
    || g == Sign(["+"], 8, Add) || g == Sign(["-"], 8, Sub)
    || g == Sign(["<<"], 7, Shl) || g == Sign([">>"], 7, Shr)
    || g == Sign(["<"], 6, Less) || g == Sign([">"], 6, More)
    || g == Sign(["<", "="], 6, LessEq) || g == Sign([">", "="], 6, MoreEq)
  }

  /** The sign stands at p, with a number behind it. */
  ghost predicate SignAt(ws: seq<string>, p: nat, g: Sign) {
    && IsSign(g) && p + |g.words| < |ws| && ws[p..p + |g.words|] == g.words
    && ws[p + |g.words|] != "="
  }

  lemma SignReads(ws: seq<string>, p: nat, g: Sign)
    requires SignAt(ws, p, g)
    ensures 6 <= g.k < 10 && Operator(ws, g.k, p) == OpTo(g.op, p + |g.words|) && Still(ws, g.k + 1, 10, p)
  {
    assert ws[p] == ws[p..p + |g.words|][0];
    assert |g.words| == 2 ==> ws[p + 1] == ws[p..p + |g.words|][1];
  }

  /** x sign y */
  lemma TwoNumbers(ws: seq<string>, compat: bool, x: string, g: Sign, y: string)
    requires ws == [x] + g.words + [y] && IsSign(g) && IsPlain(x) && IsPlain(y) && y != "="
    ensures ParseN(ws, compat, 0, 0, false) == Good(Read(Bin(g.op, Text(x, false), Text(y, false))), |ws|)
  {
    hide Operator, ParseN, ParseS, IsPlain;
    var n := |g.words|;
    assert ws[1..1 + n] == g.words && ws[0] == x && ws[1 + n] == y;
    SignReads(ws, 1, g);
    AtEnd(ws, 6, 10);
    var k := if compat then g.k else g.k + 1;
    Word(ws, compat, g.k + 1, 0);
    assert Still(ws, k, 10, |ws|);
    Word(ws, compat, k, 1 + n);
    assert Operator(ws, g.k, |ws|).NoOp?;
    var e := Bin(g.op, Text(x, false), Text(y, false));
    Infix(ws, compat, g.k, 0, Text(x, false), 1, g.op, 1 + n, Text(y, false), |ws|);
    Lower(ws, compat, 6, g.k, 0, e, |ws|);
    Whole(ws, compat, 0, e);
  }

  // ----- the values -----

  /** Two numbers and an operator on them that has a result. */
  lemma BinMeans(env: Env, compat: bool, op: Op, e: SExpr, f: SExpr, x: string, y: string, v: int)
    requires Writes(env) && MIN <= v <= MAX
    requires MeanS(env, e, []) == Ok(x, []) && MeanS(env, f, []) == Ok(y, []) && Apply(env, op, x, y) == Some(v)
    requires HarmlessS(env, compat, e, []) && HarmlessS(env, compat, f, [])
    ensures MeanS(env, Bin(op, e, f), []) == Ok(env.putn(v), []) && HarmlessS(env, compat, Bin(op, e, f), [])
    ensures MeanN(env, Read(Bin(op, e, f)), []) == Ok(v, []) && HarmlessN(env, compat, Read(Bin(op, e, f)), [])
    ensures Egetn(env, env.putn(v)) == Some(v)
  {
    hide Apply;
    Written(env, v);
  }

  lemma BinFails(env: Env, compat: bool, op: Op, x: string, y: string)
    requires MeanS(env, Text(x, false), []) == Ok(x, []) && MeanS(env, Text(y, false), []) == Ok(y, [])
    requires Apply(env, op, x, y) == None
    ensures MeanN(env, Read(Bin(op, Text(x, false), Text(y, false))), []) == Err
  {
    hide Apply;
  }

  /** The quotient and the remainder of C: towards zero, and with the sign of the dividend. */
  predicate Divides(a: int, b: int, q: int, r: int) {
    a == b * q + r && Rest(a, Absolute(b), r)
  }

  predicate Rest(a: int, n: int, r: int) {
    -n < r < n && (r < 0 ==> a < 0) && (r > 0 ==> a > 0)
  }

  function Absolute(b: int): int {
    if b < 0 then -b else b
  }

  lemma QuotIs(a: int, b: int)
    requires b != 0
    ensures Divides(a, b, Quot(a, b), a - b * Quot(a, b))
  {
    Towards(a, b);
    DivMod(Abs(a), Abs(b));
    RestIs(a, Abs(b), Abs(b) * (Abs(a) / Abs(b)));
  }

  lemma RestIs(a: int, n: int, p: int)
    requires 0 <= Absolute(a) - p < n && 0 <= p
    ensures Rest(a, n, a - if a < 0 then -p else p)
  {
  }

  lemma Towards(a: int, b: int)
    requires b != 0
    ensures var n: int, q: int := Abs(b), Abs(a) / Abs(b); b * Quot(a, b) == if a < 0 then -(n * q) else n * q
  {
    var n: int, q: int := Abs(b), Abs(a) / Abs(b);
    Negated(n, q);
    var t := Quot(a, b);
    assert t == q || t == -q;
    assert b == n || b == -n;
  }

  lemma DivMod(a: int, n: int)
    requires n > 0
    ensures 0 <= a - n * (a / n) < n && (a >= 0 ==> 0 <= n * (a / n))
  {
    assert a == n * (a / n) + a % n;
  }

  lemma Negated(n: int, q: int)
    ensures (-n) * q == -(n * q) == n * (-q) && (-n) * (-q) == n * q
  {
  }

  lemma QuotWithin(a: int, b: int)
    requires b != 0 && b != -1 && MIN <= a <= MAX
    ensures MIN <= Quot(a, b) <= MAX
  {
    var m: int, n: int := Abs(a), Abs(b);
    var q := m / n;
    assert q * n <= m;
    Scaled(q, n);
    if n > 1 {
      Scaled(q, n - 1);
      assert q * n == q * (n - 1) + q;
    }
  }

  /** A number times a positive one is at least as far from 0. */
  lemma Scaled(v: int, p: int)
    requires p > 0
    ensures (v >= 0 ==> v * p >= v) && (v <= 0 ==> v * p <= v)
  {
  }

  lemma RemWithin(a: int, b: int)
    requires b != 0 && MIN <= a <= MAX && MIN <= b <= MAX
    ensures MIN <= a - b * Quot(a, b) <= MAX
  {
    QuotIs(a, b);
  }

  /** A shift to the right rounds down. */
  lemma ShiftRight(a: int, n: nat)
    requires MIN <= a <= MAX
    ensures var v := a / Pow2(n); v * Pow2(n) <= a < (v + 1) * Pow2(n) && MIN <= v <= MAX
  {
    var p: int := Pow2(n);
    hide Pow2;
    Rounded(a, p);
  }

  lemma Rounded(a: int, p: int)
    requires p > 0 && MIN <= a <= MAX
    ensures var v := a / p; v * p <= a < (v + 1) * p && MIN <= v <= MAX
  {
    var v := a / p;
    DivMod(a, p);
    Distribute(v, p);
    Scaled(v, p);
    Scaled(v + 1, p);
  }

  lemma Distribute(v: int, p: int)
    ensures (v + 1) * p == v * p + p && v * p == p * v
  {
  }

  /** Pow2 is the power of two. */
  lemma Powers(n: nat)
    ensures Pow2(0) == 1 && Pow2(n + 1) == 2 * Pow2(n)
  {
  }

  /** The result of an operator on two numbers. */
  lemma Applied(env: Env, op: Op, x: string, y: string, a: int, b: int)
    requires Egetn(env, x) == Some(a) && Egetn(env, y) == Some(b) && MIN <= a <= MAX && MIN <= b <= MAX
    ensures var r := Apply(env, op, x, y);
            && (r.Some? ==> MIN <= r.value <= MAX)
            && (r.None? <==> (op.Div? || op.Mod?) && b == 0)
            && (op.Add? ==> Wraps(r.value, a + b)) && (op.Sub? ==> Wraps(r.value, a - b))
            && (op.Mul? ==> Wraps(r.value, a * b))
            && (op.Less? ==> r.value == if a < b then 1 else 0) && (op.LessEq? ==> r.value == if a <= b then 1 else 0)
            && (op.More? ==> r.value == if a > b then 1 else 0) && (op.MoreEq? ==> r.value == if a >= b then 1 else 0)
  {
    hide Pow2, Quot, Egetn, Wrap;
    WrapIs(a + b);
    WrapIs(a - b);
    WrapIs(a * b);
    WrapIs(-a);
    if op.Div? && b != 0 && b != -1 {
      QuotWithin(a, b);
    }
    if op.Mod? && b != 0 {
      RemWithin(a, b);
    }
    if 0 <= b < 64 {
      ShiftRight(a, b);
      WrapIs(a * Pow2(b));
    }
  }

  lemma Divided(env: Env, x: string, y: string, a: int, b: int)
    requires Egetn(env, x) == Some(a) && Egetn(env, y) == Some(b) && b != 0
    ensures var q, r := Apply(env, Div, x, y), Apply(env, Mod, x, y);
            && q.Some? && r.Some?
            && (b == -1 ==> Wraps(q.value, -a) && r.value == 0)
            && (b != -1 ==> Divides(a, b, q.value, r.value))
  {
    hide Egetn, Quot, Wrap, Wraps, Divides, Apply;
    Quotient(env, x, y, a, b);
    Remainder(env, x, y, a, b);
    QuotIs(a, b);
    WrapIs(-a);
  }

  lemma Quotient(env: Env, x: string, y: string, a: int, b: int)
    requires Egetn(env, x) == Some(a) && Egetn(env, y) == Some(b) && b != 0
    ensures Apply(env, Div, x, y) == Some(if b == -1 then Wrap(-a) else Quot(a, b))
  {
    hide Egetn, Quot, Wrap;
  }

  lemma Remainder(env: Env, x: string, y: string, a: int, b: int)
    requires Egetn(env, x) == Some(a) && Egetn(env, y) == Some(b) && b != 0
    ensures Apply(env, Mod, x, y) == Some(if b == -1 then 0 else a - b * Quot(a, b))
  {
    hide Egetn, Quot, Wrap;
  }

  lemma ShiftedBy(env: Env, x: string, y: string, a: int, b: int)
    requires Egetn(env, x) == Some(a) && Egetn(env, y) == Some(b) && MIN <= a <= MAX
    ensures var l, r := Apply(env, Shl, x, y), Apply(env, Shr, x, y);
            && l.Some? && r.Some?
            && (b < 0 || b >= 64 ==> l.value == r.value == 0)
            && (0 <= b < 64 ==> Wraps(l.value, a * Pow2(b)) && r.value * Pow2(b) <= a < (r.value + 1) * Pow2(b))
  {
    hide Egetn;
    if 0 <= b < 64 {
      ShiftRight(a, b);
      WrapIs(a * Pow2(b));
    }
  }

  // ----- what expr returns -----

  /** The words of an expression, evaluated. */
  method Evaluate(env: Env, compat: bool, ws: seq<string>) returns (r: Out<int>)
    ensures var t := ParseN(ws, compat, 0, 0, false);
            r == if t.Good? && HarmlessN(env, compat, t.e, []) then MeanN(env, t.e, []) else Err
  {
    hide ParseN, HarmlessN, MeanN;
    var ev := new Evaluator(ws, compat, env);
    r := ev.Expr();
  }

  /** Two numbers with an operator between them. */
  lemma Computed(env: Env, compat: bool, ws: seq<string>, x: string, g: Sign, y: string, a: int, b: int)
    requires Writes(env) && IsNumber(env, x, a) && IsNumber(env, y, b) && IsSign(g) && ws == [x] + g.words + [y]
    ensures var t, v := ParseN(ws, compat, 0, 0, false), Apply(env, g.op, x, y);
            && t.Good? && (v.None? ==> MeanN(env, t.e, []) == Err)
            && (v.Some? ==> MeanN(env, t.e, []) == Ok(v.value, []) && HarmlessN(env, compat, t.e, []))
  {
    hide ParseN, Apply, IsSign;
    TwoNumbers(ws, compat, x, g, y);
    NumberMeans(env, compat, x, a, []);
    NumberMeans(env, compat, y, b, []);
    Applied(env, g.op, x, y, a, b);
    var v := Apply(env, g.op, x, y);
    if v.Some? {
      BinMeans(env, compat, g.op, Text(x, false), Text(y, false), x, y, v.value);
    } else {
      BinFails(env, compat, g.op, x, y);
    }
  }

  /** x + y, x - y and x * y wrap; the relations are 1 or 0. */
  method Arithmetic(env: Env, compat: bool, x: string, words: seq<string>, y: string, a: int, b: int)
    returns (r: Out<int>)
    requires Writes(env) && IsNumber(env, x, a) && IsNumber(env, y, b)
    requires words in {["+"], ["-"], ["*"], ["<"], [">"], ["<", "="], [">", "="]}
    ensures r.Ok? && r.h == []
    ensures words == ["+"] ==> Wraps(r.v, a + b)
    ensures words == ["-"] ==> Wraps(r.v, a - b)
    ensures words == ["*"] ==> Wraps(r.v, a * b)
    ensures words == ["<"] ==> r.v == if a < b then 1 else 0
    ensures words == [">"] ==> r.v == if a > b then 1 else 0
    ensures words == ["<", "="] ==> r.v == if a <= b then 1 else 0
    ensures words == [">", "="] ==> r.v == if a >= b then 1 else 0
  {
    ghost var g := if words == ["+"] then Sign(words, 8, Add) else if words == ["-"] then Sign(words, 8, Sub)
                   else if words == ["*"] then Sign(words, 9, Mul) else if words == ["<"] then Sign(words, 6, Less)
                   else if words == [">"] then Sign(words, 6, More)
                   else if words == ["<", "="] then Sign(words, 6, LessEq) else Sign(words, 6, MoreEq);
    hide ParseN, HarmlessN, MeanN, Apply, Writes, Egetn;
    Computed(env, compat, [x] + words + [y], x, g, y, a, b);
    NumberMeans(env, compat, x, a, []);
    NumberMeans(env, compat, y, b, []);
    Applied(env, g.op, x, y, a, b);
    r := Evaluate(env, compat, [x] + words + [y]);
  }

  /** x / y and x % y: the quotient and remainder of C; a divisor of -1 negates, and wraps. */
  method Division(env: Env, compat: bool, x: string, y: string, a: int, b: int) returns (q: Out<int>, m: Out<int>)
    requires Writes(env) && IsNumber(env, x, a) && IsNumber(env, y, b)
    ensures b == 0 ==> q.Err? && m.Err?
    ensures b != 0 ==> q.Ok? && m.Ok? && q.h == m.h == []
    ensures b == -1 ==> Wraps(q.v, -a) && m.v == 0
    ensures b != 0 && b != -1 ==> Divides(a, b, q.v, m.v)
  {
    hide ParseN, HarmlessN, MeanN, Apply, Writes, Egetn;
    Computed(env, compat, [x] + ["/"] + [y], x, Sign(["/"], 9, Div), y, a, b);
    Computed(env, compat, [x] + ["%"] + [y], x, Sign(["%"], 9, Mod), y, a, b);
    NumberMeans(env, compat, x, a, []);
    NumberMeans(env, compat, y, b, []);
    Applied(env, Div, x, y, a, b);
    Applied(env, Mod, x, y, a, b);
    if b != 0 {
      Divided(env, x, y, a, b);
    }
    q := Evaluate(env, compat, [x] + ["/"] + [y]);
    m := Evaluate(env, compat, [x] + ["%"] + [y]);
  }

  /** x << y and x >> y: times a power of two, wrapping, and divided by it, rounding down; 0 for counts that are no
      bit number. */
  method Shifts(env: Env, compat: bool, x: string, y: string, a: int, b: int) returns (l: Out<int>, r: Out<int>)
    requires Writes(env) && IsNumber(env, x, a) && IsNumber(env, y, b)
    ensures l.Ok? && r.Ok? && l.h == r.h == []
    ensures b < 0 || b >= 64 ==> l.v == r.v == 0
    ensures 0 <= b < 64 ==> Wraps(l.v, a * Pow2(b)) && r.v * Pow2(b) <= a < (r.v + 1) * Pow2(b)
  {
    hide ParseN, HarmlessN, MeanN, Apply, Writes, Egetn, Pow2, Wraps;
    Computed(env, compat, [x] + ["<<"] + [y], x, Sign(["<<"], 7, Shl), y, a, b);
    Computed(env, compat, [x] + [">>"] + [y], x, Sign([">>"], 7, Shr), y, a, b);
    NumberMeans(env, compat, x, a, []);
    NumberMeans(env, compat, y, b, []);
    ShiftedBy(env, x, y, a, b);
    l := Evaluate(env, compat, [x] + ["<<"] + [y]);
    r := Evaluate(env, compat, [x] + [">>"] + [y]);
  }

  // ----- comparisons of words, the logical operators, and ! and ~ -----

  /** The value of one number. */
  lemma ReadMeans(env: Env, compat: bool, x: string, a: int)
    requires IsNumber(env, x, a)
    ensures MeanN(env, Read(Text(x, false)), []) == Ok(a, []) && HarmlessN(env, compat, Read(Text(x, false)), [])
    ensures EvalN(env, compat, Read(Text(x, false)), true, []) == Ok(a, [])
  {
    NumberMeans(env, compat, x, a, []);
  }

  lemma NoOperators(ws: seq<string>, p: nat)
    requires p < |ws| && ws[p] in {"==", "!=", "=~", "!~"}
    ensures Still(ws, 6, 10, p)
  {
  }

  /** x == y and x != y compare the words; x =~ y and x !~ y match x with y, which no file names replace. */
  method Sameness(env: Env, compat: bool, x: string, sign: string, y: string) returns (r: Out<int>)
    requires IsWord(env, x) && IsPlain(y) && sign in {"==", "!=", "=~", "!~"}
    requires sign in {"==", "!="} ==> IsWord(env, y)
    ensures r.Ok? && r.h == []
    ensures sign == "==" ==> r.v == if x == y then 1 else 0
    ensures sign == "!=" ==> r.v == if x == y then 0 else 1
    ensures sign == "=~" ==> r.v == if env.gmatch(x, y) then 1 else 0
    ensures sign == "!~" ==> r.v == if env.gmatch(x, y) then 0 else 1
  {
    SamenessReads([x, sign, y], compat);
    hide ParseN, IsPlain;
    r := Evaluate(env, compat, [x, sign, y]);
  }

  function SameCode(sign: string): nat {
    if sign == "==" then EQEQ else if sign == "!=" then NOTEQ else if sign == "=~" then EQMATCH else NOTEQMATCH
  }

  lemma SamenessReads(ws: seq<string>, compat: bool)
    requires |ws| == 3 && IsPlain(ws[0]) && IsPlain(ws[2]) && ws[1] in {"==", "!=", "=~", "!~"}
    ensures ParseN(ws, compat, 0, 0, false) ==
            Good(Equal(SameCode(ws[1]), Text(ws[0], false), Text(ws[2], SameCode(ws[1]) >= EQMATCH)), 3)
  {
    hide Operator, IsPlain;
    NoOperators(ws, 1);
    AtEnd(ws, 6, 10);
    Word(ws, compat, 6, 0);
    var code := SameCode(ws[1]);
    PlainAt(ws, compat, 6, 2, code >= EQMATCH);
    var e := Equal(code, Text(ws[0], false), Text(ws[2], code >= EQMATCH));
    hide ParseS;
    assert ParseN(ws, compat, 5, 0, false) == Good(e, 3);
    NoLogic(ws, compat, 0, e);
  }

  /** What level 5 reads to the end is the whole. */
  lemma {:induction false} NoLogic(ws: seq<string>, compat: bool, k: nat, e: NExpr)
    requires k <= 5 && ParseN(ws, compat, 5, 0, false) == Good(e, |ws|)
    ensures ParseN(ws, compat, k, 0, false) == Good(e, |ws|)
    decreases 5 - k
  {
    if k < 5 {
      NoLogic(ws, compat, k + 1, e);
    }
  }

  // ----- the logical operators -----

  ghost predicate ReadsN(ws: seq<string>, compat: bool, k: nat, p: nat, e: NExpr, q: nat)
    requires k <= 5 && p <= |ws|
  {
    ParseN(ws, compat, k, p, false) == Good(e, q)
  }

  /** No sign of the levels from j up to k stands at q. */
  ghost predicate StillN(ws: seq<string>, j: nat, k: nat, q: nat) {
    forall i :: j <= i < k && i < 5 ==> WordAt(ws, q) != Some(LogicSign(i))
  }

  /** The signs of the logical levels. */
  function LogicSign(k: nat): string {
    if k == 0 then "||" else if k == 1 then "&&" else if k == 2 then "|" else if k == 3 then "^" else "&"
  }

  lemma {:induction false} LowerN(ws: seq<string>, compat: bool, j: nat, k: nat, p: nat, e: NExpr, q: nat)
    requires j <= k <= 5 && p <= |ws| && ReadsN(ws, compat, k, p, e, q) && StillN(ws, j, k, q)
    ensures ReadsN(ws, compat, j, p, e, q)
    decreases k - j
  {
    if j < k {
      LowerN(ws, compat, j + 1, k, p, e, q);
      assert WordAt(ws, q) != Some(LogicSign(j));
      StopN(ws, compat, j, e, q);
    }
  }

  lemma StopN(ws: seq<string>, compat: bool, k: nat, e: NExpr, q: nat)
    requires k < 5 && q <= |ws| && WordAt(ws, q) != Some(LogicSign(k))
    ensures TailN(ws, compat, k, e, q, false) == Good(e, q)
  {
  }

  /** A number, with none of the operators from level k on behind it. */
  lemma NumberN(ws: seq<string>, compat: bool, k: nat, p: nat)
    requires k <= 5 && p < |ws| && IsPlain(ws[p]) && Still(ws, 6, 10, p + 1) && StillN(ws, k, 5, p + 1)
    requires Isa(WordAt(ws, p + 1), EQOP) == 0
    ensures ReadsN(ws, compat, k, p, Read(Text(ws[p], false)), p + 1)
  {
    hide Operator, Isa;
    Word(ws, compat, 6, p);
    hide ParseS;
    LowerN(ws, compat, k, 5, p, Read(Text(ws[p], false)), p + 1);
  }

  /** A sign of level k between what the next level and the right side read. */
  lemma JoinN(ws: seq<string>, compat: bool, k: nat, p: nat, l: NExpr, at: nat, r: NExpr, q: nat)
    requires k < 5 && p <= |ws| && ReadsN(ws, compat, k + 1, p, l, at) && at < |ws| && ws[at] == LogicSign(k)
    requires ReadsN(ws, compat, if compat then k else k + 1, at + 1, r, q) && q <= |ws|
    requires compat || WordAt(ws, q) != Some(LogicSign(k))
    ensures ReadsN(ws, compat, k, p, Logic(k, l, r), q)
  {
    GoN(ws, compat, k, l, at, r, q);
    if !compat {
      StopN(ws, compat, k, Logic(k, l, r), q);
    }
  }

  lemma GoN(ws: seq<string>, compat: bool, k: nat, l: NExpr, at: nat, r: NExpr, q: nat)
    requires k < 5 && at < |ws| && ws[at] == LogicSign(k)
    requires ReadsN(ws, compat, if compat then k else k + 1, at + 1, r, q) && q <= |ws|
    ensures TailN(ws, compat, k, l, at, false) ==
            if compat then Good(Logic(k, l, r), q) else TailN(ws, compat, k, Logic(k, l, r), q, false)
  {
  }

  /** What stands behind the words that follow here. */
  lemma Quiets(ws: seq<string>)
    ensures Still(ws, 6, 10, |ws|) && StillN(ws, 0, 5, |ws|) && Isa(WordAt(ws, |ws|), EQOP) == 0
    ensures forall p :: 0 <= p < |ws| && ws[p] == "||" ==>
              Still(ws, 6, 10, p) && StillN(ws, 1, 5, p) && Isa(WordAt(ws, p), EQOP) == 0
    ensures forall p :: 0 <= p < |ws| && ws[p] == "&&" ==>
              Still(ws, 6, 10, p) && StillN(ws, 2, 5, p) && StillN(ws, 0, 1, p) && Isa(WordAt(ws, p), EQOP) == 0
  {
  }

  /** x || y and x && y */
  lemma LogicReads(ws: seq<string>, compat: bool, x: string, k: nat, y: string)
    requires k <= 1 && ws == [x, LogicSign(k), y] && IsPlain(x) && IsPlain(y)
    ensures ReadsN(ws, compat, 0, 0, Logic(k, Read(Text(x, false)), Read(Text(y, false))), 3)
  {
    hide Operator, IsPlain, Isa, ReadsN;
    Quiets(ws);
    NumberN(ws, compat, k + 1, 0);
    NumberN(ws, compat, if compat then k else k + 1, 2);
    var e := Logic(k, Read(Text(x, false)), Read(Text(y, false)));
    JoinN(ws, compat, k, 0, Read(Text(x, false)), 1, Read(Text(y, false)), 3);
    LowerN(ws, compat, 0, k, 0, e, 3);
  }

  /** && binds its operands before || does. */
  lemma LogicLevels(ws: seq<string>, compat: bool, x: string, y: string, z: string, andFirst: bool)
    requires ws == [x, if andFirst then "&&" else "||", y, if andFirst then "||" else "&&", z]
    requires IsPlain(x) && IsPlain(y) && IsPlain(z)
    ensures var a, b, c := Read(Text(x, false)), Read(Text(y, false)), Read(Text(z, false));
            ReadsN(ws, compat, 0, 0, if andFirst then Logic(0, Logic(1, a, b), c) else Logic(0, a, Logic(1, b, c)), 5)
  {
    hide Operator, IsPlain, Isa, ReadsN;
    Quiets(ws);
    var a, b, c := Read(Text(x, false)), Read(Text(y, false)), Read(Text(z, false));
    if andFirst {
      NumberN(ws, compat, 2, 0);
      NumberN(ws, compat, if compat then 1 else 2, 2);
      JoinN(ws, compat, 1, 0, a, 1, b, 3);
      NumberN(ws, compat, if compat then 0 else 1, 4);
      JoinN(ws, compat, 0, 0, Logic(1, a, b), 3, c, 5);
    } else {
      NumberN(ws, compat, 1, 0);
      NumberN(ws, compat, 2, 2);
      NumberN(ws, compat, if compat then 1 else 2, 4);
      JoinN(ws, compat, 1, 2, b, 3, c, 5);
      LowerN(ws, compat, 0, 1, 2, Logic(1, b, c), 5);
      JoinN(ws, compat, 0, 0, a, 1, Logic(1, b, c), 5);
    }
  }

  /** A logical operator on two expressions that have values, also when they are skipped. */
  lemma LogicMeans(env: Env, compat: bool, k: nat, l: NExpr, r: NExpr, a: int, b: int)
    requires k <= 1 && MeanN(env, l, []) == Ok(a, []) && MeanN(env, r, []) == Ok(b, [])
    requires HarmlessN(env, compat, l, []) && HarmlessN(env, compat, r, [])
    requires EvalN(env, compat, l, true, []).Ok? && EvalN(env, compat, r, true, []).Ok?
    ensures var e := Logic(k, l, r);
            && MeanN(env, e, []) == Ok(if k == 0 then (if a != 0 || b != 0 then 1 else 0)
                                       else if a != 0 && b != 0 then 1 else 0, [])
            && HarmlessN(env, compat, e, []) && EvalN(env, compat, e, true, []).Ok?
  {
    IgnoredRunsNothing(env, compat, l, []);
  }

  /** x || y and x && y are 1 or 0, whatever compat_expr says, and so are the three numbers in either order of both. */
  method Logical(env: Env, compat: bool, x: string, y: string, z: string, a: int, b: int, c: int)
    returns (either: Out<int>, both: Out<int>, orAnd: Out<int>, andOr: Out<int>)
    requires IsNumber(env, x, a) && IsNumber(env, y, b) && IsNumber(env, z, c)
    ensures either == Ok(if a != 0 || b != 0 then 1 else 0, [])
    ensures both == Ok(if a != 0 && b != 0 then 1 else 0, [])
    ensures orAnd == Ok(if a != 0 || (b != 0 && c != 0) then 1 else 0, [])
    ensures andOr == Ok(if (a != 0 && b != 0) || c != 0 then 1 else 0, [])
  {
    either, both := LogicalTwo(env, compat, x, y, a, b);
    orAnd := LogicalThree(env, compat, x, y, z, a, b, c, false);
    andOr := LogicalThree(env, compat, x, y, z, a, b, c, true);
  }

  method LogicalTwo(env: Env, compat: bool, x: string, y: string, a: int, b: int)
    returns (either: Out<int>, both: Out<int>)
    requires IsNumber(env, x, a) && IsNumber(env, y, b)
    ensures either == Ok(if a != 0 || b != 0 then 1 else 0, [])
    ensures both == Ok(if a != 0 && b != 0 then 1 else 0, [])
  {
    ghost var l, r := Read(Text(x, false)), Read(Text(y, false));
    ReadMeans(env, compat, x, a);
    ReadMeans(env, compat, y, b);
    LogicMeans(env, compat, 0, l, r, a, b);
    LogicMeans(env, compat, 1, l, r, a, b);
    LogicReads([x, "||", y], compat, x, 0, y);
    LogicReads([x, "&&", y], compat, x, 1, y);
    hide ParseN, MeanN, HarmlessN, EvalN;
    either := Evaluate(env, compat, [x, "||", y]);
    both := Evaluate(env, compat, [x, "&&", y]);
  }

  method LogicalThree(env: Env, compat: bool, x: string, y: string, z: string, a: int, b: int, c: int, andFirst: bool)
    returns (r: Out<int>)
    requires IsNumber(env, x, a) && IsNumber(env, y, b) && IsNumber(env, z, c)
    ensures r == Ok(if if andFirst then (a != 0 && b != 0) || c != 0 else a != 0 || (b != 0 && c != 0)
                    then 1 else 0, [])
  {
    ghost var e, f, g := Read(Text(x, false)), Read(Text(y, false)), Read(Text(z, false));
    ReadMeans(env, compat, x, a);
    ReadMeans(env, compat, y, b);
    ReadMeans(env, compat, z, c);
    if andFirst {
      LogicMeans(env, compat, 1, e, f, a, b);
      LogicMeans(env, compat, 0, Logic(1, e, f), g, if a != 0 && b != 0 then 1 else 0, c);
    } else {
      LogicMeans(env, compat, 1, f, g, b, c);
      LogicMeans(env, compat, 0, e, Logic(1, f, g), a, if b != 0 && c != 0 then 1 else 0);
    }
    var ws := [x, if andFirst then "&&" else "||", y, if andFirst then "||" else "&&", z];
    LogicLevels(ws, compat, x, y, z, andFirst);
    hide ParseN, MeanN, HarmlessN, EvalN;
    r := Evaluate(env, compat, ws);
  }

  // ----- ! and ~ and parentheses -----

  lemma OperandAt(ws: seq<string>, compat: bool, p: nat)
    requires p <= |ws|
    ensures ParseS(ws, compat, 10, p, false) == Operand(ws, compat, p, false)
  {
  }

  lemma UnaryReads(compat: bool, sign: string, x: string)
    requires sign in {"!", "~"} && IsPlain(x)
    ensures ParseN([sign, x], compat, 0, 0, false) ==
            Good(Read(if sign == "!" then Bang(Text(x, false)) else Tilde(Text(x, false))), 2)
  {
    hide Operator, IsPlain;
    var ws := [sign, x];
    AtEnd(ws, 6, 10);
    Word(ws, compat, 10, 1);
    var e := if sign == "!" then Bang(Text(x, false)) else Tilde(Text(x, false));
    assert "~"[0] != "!"[0];
    OperandAt(ws, compat, 0);
    assert Operand(ws, compat, 0, false) == Good(e, 2);
    Lower(ws, compat, 6, 10, 0, e, 2);
    Whole(ws, compat, 0, e);
  }

  lemma ParenReads(compat: bool, x: string)
    requires IsPlain(x)
    ensures ParseN(["(", x, ")"], compat, 0, 0, false) == Good(Read(Paren(Read(Text(x, false)))), 3)
  {
    hide Operator, IsPlain, Isa;
    var ws := ["(", x, ")"];
    ParenQuiet(ws, 2);
    NumberN(ws, compat, 0, 1);
    var e := Paren(Read(Text(x, false)));
    assert "("[0] != "!"[0] && "("[0] != "~"[0];
    OperandAt(ws, compat, 0);
    assert ")"[0] == ')';
    assert Operand(ws, compat, 0, false) == Good(e, 3);
    AtEnd(ws, 6, 10);
    Lower(ws, compat, 6, 10, 0, e, 3);
    Whole(ws, compat, 0, e);
  }

  lemma ParenQuiet(ws: seq<string>, p: nat)
    requires p < |ws| && ws[p] == ")"
    ensures Still(ws, 6, 10, p) && StillN(ws, 0, 5, p) && Isa(WordAt(ws, p), EQOP) == 0
  {
  }

  /** ! x is 1 for 0 and 0 otherwise, ~ x is all bits turned, and ( x ) is x. */
  method Unary(env: Env, compat: bool, x: string, a: int) returns (n: Out<int>, t: Out<int>, p: Out<int>)
    requires Writes(env) && IsNumber(env, x, a)
    ensures n == Ok(if a == 0 then 1 else 0, [])
    ensures t == Ok(-a - 1, [])
    ensures p == Ok(a, [])
  {
    NumberMeans(env, compat, x, a, []);
    UnaryReads(compat, "!", x);
    UnaryReads(compat, "~", x);
    ParenReads(compat, x);
    Written(env, if a == 0 then 1 else 0);
    Written(env, -a - 1);
    Written(env, a);
    ReadMeans(env, compat, x, a);
    hide ParseN, Egetn, Writes;
    n := Evaluate(env, compat, ["!", x]);
    t := Evaluate(env, compat, ["~", x]);
    p := Evaluate(env, compat, ["(", x, ")"]);
  }

  // ----- blocks -----

  lemma {:induction false} CloseAt(ws: seq<string>, p: nat, q: nat)
    requires p <= q < |ws| && ws[q] == "}" && "}" !in ws[p..q]
    ensures Close(ws, p) == q
    decreases q - p
  {
    if p < q {
      assert ws[p] == ws[p..q][0] && ws[p..q][1..] == ws[p + 1..q];
      CloseAt(ws, p + 1, q);
    }
  }

  /** A block from p to q, with none of the operators from level k on behind it. */
  lemma BlockN(ws: seq<string>, compat: bool, k: nat, p: nat, q: nat)
    requires k <= 5 && p < q < |ws| && ws[p] == "{" && ws[q] == "}" && "}" !in ws[p + 1..q]
    requires Still(ws, 6, 10, q + 1) && StillN(ws, k, 5, q + 1) && Isa(WordAt(ws, q + 1), EQOP) == 0
    ensures ReadsN(ws, compat, k, p, Read(Brace(ws[p + 1..q])), q + 1)
  {
    hide Operator, Isa;
    CloseAt(ws, p + 1, q);
    OperandAt(ws, compat, p);
    var e := Brace(ws[p + 1..q]);
    BraceOperand(ws, compat, p, q);
    Lower(ws, compat, 6, 10, p, e, q + 1);
    hide ParseS;
    LowerN(ws, compat, k, 5, p, Read(e), q + 1);
  }

  lemma BraceOperand(ws: seq<string>, compat: bool, p: nat, q: nat)
    requires p < q < |ws| && ws[p] == "{" && Close(ws, p + 1) == q
    ensures Operand(ws, compat, p, false) == Good(Brace(ws[p + 1..q]), q + 1)
  {
    assert "{"[0] != "!"[0] && "{"[0] != "~"[0] && "{"[0] != "("[0];
  }

  /** { a } and { b } with a logical operator between them. */
  lemma BlocksRead(ws: seq<string>, compat: bool, k: nat, a: seq<string>, b: seq<string>)
    requires k <= 1 && ws == ["{"] + a + ["}", LogicSign(k), "{"] + b + ["}"] && "}" !in a && "}" !in b
    ensures ParseN(ws, compat, 0, 0, false) == Good(Logic(k, Read(Brace(a)), Read(Brace(b))), |ws|)
  {
    hide Operator, Isa, ParseN;
    Quiets(ws);
    var n := |a| + 3;
    assert ws[1..|a| + 1] == a && ws[n + 1..|ws| - 1] == b;
    BlockN(ws, compat, k + 1, 0, |a| + 1);
    BlockN(ws, compat, if compat then k else k + 1, n, |ws| - 1);
    var e := Logic(k, Read(Brace(a)), Read(Brace(b)));
    JoinN(ws, compat, k, 0, Read(Brace(a)), |a| + 2, Read(Brace(b)), |ws|);
    LowerN(ws, compat, 0, k, 0, e, |ws|);
  }

  lemma BlockMeans(env: Env, compat: bool, a: seq<string>, h: History)
    requires Writes(env)
    ensures MeanN(env, Read(Brace(a)), h) == match env.status(h, a)
                                             case None => Err
                                             case Some(zero) => Ok(if zero then 1 else 0, h + [a])
    ensures HarmlessN(env, compat, Read(Brace(a)), h)
  {
    Written(env, 1);
    Written(env, 0);
    hide Writes, Egetn;
  }

  /**
   * { a } && { b } and { a } || { b }: a block is 1 if its status is 0, and 0
   * otherwise, and the second one is run only if the first leaves it open.
   */
  method Blocks(env: Env, compat: bool, a: seq<string>, sign: string, b: seq<string>) returns (r: Out<int>)
    requires Writes(env) && env.getn("") == Some(0) && "}" !in a && "}" !in b && sign in {"&&", "||"}
    ensures match env.status([], a)
            case None => r.Err?
            case Some(zero) =>
              if zero != (sign == "&&") then r == Ok(if zero then 1 else 0, [a])
              else match env.status([a], b)
                   case None => r.Err?
                   case Some(zero2) => r == Ok(if zero2 then 1 else 0, [a, b])
  {
    var ws := ["{"] + a + ["}", sign, "{"] + b + ["}"];
    ghost var k := if sign == "||" then 0 else 1;
    BlocksRead(ws, compat, k, a, b);
    BlocksMean(env, compat, k, a, b);
    hide ParseN, HarmlessN, MeanN, Writes;
    r := Evaluate(env, compat, ws);
  }

  lemma BlocksMean(env: Env, compat: bool, k: nat, a: seq<string>, b: seq<string>)
    requires Writes(env) && env.getn("") == Some(0) && k <= 1
    ensures var e := Logic(k, Read(Brace(a)), Read(Brace(b))); var m := MeanN(env, e, []);
            && (m.Ok? ==> HarmlessN(env, compat, e, []))
            && match env.status([], a)
               case None => m.Err?
               case Some(zero) =>
                 if zero != (k == 1) then m == Ok(if zero then 1 else 0, [a])
                 else match env.status([a], b)
                      case None => m.Err?
                      case Some(zero2) => m == Ok(if zero2 then 1 else 0, [a, b])
  {
    BlockMeans(env, compat, a, []);
    BlockMeans(env, compat, b, [a]);
    assert [] + [a] == [a] && [a] + [b] == [a, b];
    assert EvalN(env, compat, Read(Brace(b)), true, [a]) == Ok(0, [a]);
    hide Writes, Egetn;
  }

  // ----- products before sums, and which of two differences is first -----

  lemma SumSigns(ws: seq<string>, p: nat)
    requires p + 1 < |ws| && ws[p] in {"+", "-", "*"} && ws[p + 1] != "="
    ensures ws[p] == "+" ==> Operator(ws, 8, p) == OpTo(Add, p + 1) && Still(ws, 9, 10, p)
    ensures ws[p] == "-" ==> Operator(ws, 8, p) == OpTo(Sub, p + 1) && Still(ws, 9, 10, p)
    ensures ws[p] == "*" ==> Operator(ws, 9, p) == OpTo(Mul, p + 1)
  {
  }

  /** x + y * z and x * y + z: the product is the operand of the sum. */
  lemma ProductsFirst(ws: seq<string>, compat: bool, x: string, y: string, z: string, front: bool)
    requires ws == [x, if front then "*" else "+", y, if front then "+" else "*", z]
    requires IsPlain(x) && IsPlain(y) && IsPlain(z) && y != "=" && z != "="
    ensures var a, b, c := Text(x, false), Text(y, false), Text(z, false);
            ParseN(ws, compat, 0, 0, false) ==
            Good(Read(if front then Bin(Add, Bin(Mul, a, b), c) else Bin(Add, a, Bin(Mul, b, c))), 5)
  {
    hide Operator, IsPlain, ParseN, ParseS, Reads;
    var a, b, c := Text(x, false), Text(y, false), Text(z, false);
    SumSigns(ws, 1);
    SumSigns(ws, 3);
    AtEnd(ws, 6, 10);
    if front {
      Word(ws, compat, 10, 0);
      Word(ws, compat, if compat then 9 else 10, 2);
      assert Operator(ws, 9, 3).NoOp?;
      Infix(ws, compat, 9, 0, a, 1, Mul, 2, b, 3);
      Word(ws, compat, if compat then 8 else 9, 4);
      Infix(ws, compat, 8, 0, Bin(Mul, a, b), 3, Add, 4, c, 5);
    } else {
      Word(ws, compat, 9, 0);
      Word(ws, compat, 10, 2);
      Word(ws, compat, if compat then 9 else 10, 4);
      Infix(ws, compat, 9, 2, b, 3, Mul, 4, c, 5);
      Lower(ws, compat, 8, 9, 2, Bin(Mul, b, c), 5);
      Infix(ws, compat, 8, 0, a, 1, Add, 2, Bin(Mul, b, c), 5);
    }
    var e := if front then Bin(Add, Bin(Mul, a, b), c) else Bin(Add, a, Bin(Mul, b, c));
    Lower(ws, compat, 6, 8, 0, e, 5);
    Finish(ws, compat, e);
  }

  lemma Finish(ws: seq<string>, compat: bool, e: SExpr)
    requires Reads(ws, compat, 6, 0, e, |ws|)
    ensures ParseN(ws, compat, 0, 0, false) == Good(Read(e), |ws|)
  {
    Whole(ws, compat, 0, e);
  }

  /** x - y - z: the left difference first, but with compat_expr the right one. */
  lemma DifferencesRead(ws: seq<string>, compat: bool, x: string, y: string, z: string)
    requires ws == [x, "-", y, "-", z] && IsPlain(x) && IsPlain(y) && IsPlain(z) && y != "=" && z != "="
    ensures var a, b, c := Text(x, false), Text(y, false), Text(z, false);
            ParseN(ws, compat, 0, 0, false) ==
            Good(Read(if compat then Bin(Sub, a, Bin(Sub, b, c)) else Bin(Sub, Bin(Sub, a, b), c)), 5)
  {
    hide Operator, IsPlain, ParseN, ParseS, Reads;
    var a, b, c := Text(x, false), Text(y, false), Text(z, false);
    SumSigns(ws, 1);
    SumSigns(ws, 3);
    AtEnd(ws, 6, 10);
    Word(ws, compat, 9, 0);
    Word(ws, compat, 9, 2);
    if compat {
      Word(ws, compat, 8, 4);
      Infix(ws, compat, 8, 2, b, 3, Sub, 4, c, 5);
      Infix(ws, compat, 8, 0, a, 1, Sub, 2, Bin(Sub, b, c), 5);
    } else {
      Word(ws, compat, 9, 4);
      InfixTwice(ws, 8, 0, a, 1, Sub, 2, b, 3, Sub, 4, c, 5);
    }
    var e := if compat then Bin(Sub, a, Bin(Sub, b, c)) else Bin(Sub, Bin(Sub, a, b), c);
    Lower(ws, compat, 6, 8, 0, e, 5);
    Finish(ws, compat, e);
  }

  /** The expression comes to the text x, which is the number a. */
  ghost predicate Comes(env: Env, compat: bool, e: SExpr, x: string, a: int) {
    && MeanS(env, e, []) == Ok(x, []) && HarmlessS(env, compat, e, [])
    && Egetn(env, x) == Some(a) && MIN <= a <= MAX
  }

  /** The expression has the value v. */
  ghost predicate HasValue(env: Env, compat: bool, e: NExpr, v: int) {
    MeanN(env, e, []) == Ok(v, []) && HarmlessN(env, compat, e, [])
  }

  /** An operator on the results of others. */
  lemma Above(env: Env, compat: bool, op: Op, e: SExpr, f: SExpr, x: string, y: string, a: int, b: int) returns (v: int)
    requires Writes(env) && op in {Add, Sub, Mul}
    requires Comes(env, compat, e, x, a) && Comes(env, compat, f, y, b)
    ensures Comes(env, compat, Bin(op, e, f), env.putn(v), v) && HasValue(env, compat, Read(Bin(op, e, f)), v)
    ensures (op.Add? ==> Wraps(v, a + b)) && (op.Sub? ==> Wraps(v, a - b)) && (op.Mul? ==> Wraps(v, a * b))
  {
    Applied(env, op, x, y, a, b);
    v := Apply(env, op, x, y).value;
    hide Apply, Egetn, Wraps, Writes, MeanS, MeanN, HarmlessS, HarmlessN;
    BinMeans(env, compat, op, e, f, x, y, v);
  }

  /** Whole turns around do not change what is left. */
  lemma TurnsAround(x: int, k: int)
    ensures x % RANGE == 0 ==> (x + k * RANGE) % RANGE == 0
  {
    if x % RANGE == 0 {
      var j := x / RANGE;
      assert x + k * RANGE == (j + k) * RANGE;
    }
  }

  /** Wrapping early or late is the same. */
  lemma WrapsThrough(v: int, w: int, c: int, d: int)
    requires Wraps(w, c)
    ensures Wraps(v, w + d) ==> Wraps(v, c + d)
    ensures Wraps(v, d - w) ==> Wraps(v, d - c)
    ensures Wraps(v, w - d) ==> Wraps(v, c - d)
  {
    var k := (w - c) / RANGE;
    TurnsAround(v - (w + d), k);
    TurnsAround(v - (d - w), -k);
    TurnsAround(v - (w - d), k);
  }

  /** x + y * z, x * y + z and x - y - z */
  method Precedence(env: Env, compat: bool, x: string, y: string, z: string, a: int, b: int, c: int)
    returns (r: Out<int>, s: Out<int>, t: Out<int>)
    requires Writes(env) && IsNumber(env, x, a) && IsNumber(env, y, b) && IsNumber(env, z, c)
    ensures r.Ok? && s.Ok? && t.Ok? && r.h == s.h == t.h == []
    ensures Wraps(r.v, a + b * c) && Wraps(s.v, a * b + c)
    ensures Wraps(t.v, if compat then a - (b - c) else a - b - c)
  {
    SumOfProduct(env, compat, x, y, z, a, b, c);
    ProductInSum(env, compat, x, y, z, a, b, c);
    Differences(env, compat, x, y, z, a, b, c);
    hide ParseN, MeanN, HarmlessN, Wraps;
    r := Evaluate(env, compat, [x, "+", y, "*", z]);
    s := Evaluate(env, compat, [x, "*", y, "+", z]);
    t := Evaluate(env, compat, [x, "-", y, "-", z]);
  }

  /** The words have a value that stands for c. */
  ghost predicate Values(env: Env, compat: bool, ws: seq<string>, c: int) {
    var t := ParseN(ws, compat, 0, 0, false);
    t.Good? && exists v :: HasValue(env, compat, t.e, v) && Wraps(v, c)
  }

  lemma SumOfProduct(env: Env, compat: bool, x: string, y: string, z: string, a: int, b: int, c: int)
    requires Writes(env) && IsNumber(env, x, a) && IsNumber(env, y, b) && IsNumber(env, z, c)
    ensures Values(env, compat, [x, "+", y, "*", z], a + b * c)
  {
    hide ParseN, Comes, HasValue, IsNumber, Writes, Wraps, IsPlain;
    ThreeNumbers(env, compat, x, y, z, a, b, c);
    ProductsFirst([x, "+", y, "*", z], compat, x, y, z, false);
    var w := Above(env, compat, Mul, Text(y, false), Text(z, false), y, z, b, c);
    var v := Above(env, compat, Add, Text(x, false), Bin(Mul, Text(y, false), Text(z, false)), x, env.putn(w), a, w);
    WrapsThrough(v, w, b * c, a);
  }

  lemma ProductInSum(env: Env, compat: bool, x: string, y: string, z: string, a: int, b: int, c: int)
    requires Writes(env) && IsNumber(env, x, a) && IsNumber(env, y, b) && IsNumber(env, z, c)
    ensures Values(env, compat, [x, "*", y, "+", z], a * b + c)
  {
    hide ParseN, Comes, HasValue, IsNumber, Writes, Wraps, IsPlain;
    ThreeNumbers(env, compat, x, y, z, a, b, c);
    ProductsFirst([x, "*", y, "+", z], compat, x, y, z, true);
    var w := Above(env, compat, Mul, Text(x, false), Text(y, false), x, y, a, b);
    var v := Above(env, compat, Add, Bin(Mul, Text(x, false), Text(y, false)), Text(z, false), env.putn(w), z, w, c);
    WrapsThrough(v, w, a * b, c);
  }

  lemma Differences(env: Env, compat: bool, x: string, y: string, z: string, a: int, b: int, c: int)
    requires Writes(env) && IsNumber(env, x, a) && IsNumber(env, y, b) && IsNumber(env, z, c)
    ensures Values(env, compat, [x, "-", y, "-", z], if compat then a - (b - c) else a - b - c)
  {
    hide ParseN, Comes, HasValue, IsNumber, Writes, Wraps, IsPlain;
    ThreeNumbers(env, compat, x, y, z, a, b, c);
    DifferencesRead([x, "-", y, "-", z], compat, x, y, z);
    if compat {
      var w := Above(env, compat, Sub, Text(y, false), Text(z, false), y, z, b, c);
      var v := Above(env, compat, Sub, Text(x, false), Bin(Sub, Text(y, false), Text(z, false)), x, env.putn(w), a, w);
      WrapsThrough(v, w, b - c, a);
    } else {
      var w := Above(env, compat, Sub, Text(x, false), Text(y, false), x, y, a, b);
      var v := Above(env, compat, Sub, Bin(Sub, Text(x, false), Text(y, false)), Text(z, false), env.putn(w), z, w, c);
      WrapsThrough(v, w, a - b, c);
    }
  }

  lemma ThreeNumbers(env: Env, compat: bool, x: string, y: string, z: string, a: int, b: int, c: int)
    requires IsNumber(env, x, a) && IsNumber(env, y, b) && IsNumber(env, z, c)
    ensures Comes(env, compat, Text(x, false), x, a) && Comes(env, compat, Text(y, false), y, b)
    ensures Comes(env, compat, Text(z, false), z, c) && IsPlain(x) && IsPlain(y) && IsPlain(z) && y != "=" && z != "="
  {
    NumberMeans(env, compat, x, a, []);
    NumberMeans(env, compat, y, b, []);
    NumberMeans(env, compat, z, c, []);
  }
}
