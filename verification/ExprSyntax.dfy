/** The words of an expression, read as a tree (the grammar of exp0 to exp6 of sh.exp.c). */
module ExprSyntax {
  import opened Sequences

  // ----- words -----

  /** The word at p, if there is one. */
  function WordAt(ws: seq<string>, p: nat): Option<string> {
    if p < |ws| then Some(ws[p]) else None
  }

  datatype What = What(add: bool, mul: bool, eq: bool, rel: bool, rest: bool)

  const ADDOP := What(true, false, false, false, false)
  const MULOP := What(false, true, false, false, false)
  const EQOP := What(false, false, true, false, false)
  const RELOP := What(false, false, false, true, false)
  const ANYOP := What(true, true, true, true, true)

  const EQEQ := 1
  const GTR := 2
  const LSS := 4
  const NOTEQ := 6
  const EQMATCH := 7
  const NOTEQMATCH := 8

  /** isa: what kind of operator a word is, 0 for none. */
  function Isa(w: Option<string>, what: What): (code: nat)
    ensures w.None? && !what.rest ==> code == 0
  {
    if w.None? then if what.rest then 1 else 0
    else
      var cp := w.value;
      if cp == "" then 0
      else if |cp| == 1 && what.add && cp[0] in "+-" then 1
      else if |cp| == 1 && what.mul && cp[0] in "*/%" then 1
      else if |cp| == 1 && what.rest && cp[0] in "()!~^\"" then 1
      else if |cp| == 2 && what.rest && (cp == "|&" || cp == "<<" || cp == ">>") then 1
      else if |cp| == 2 && what.eq && cp == "==" then EQEQ
      else if |cp| == 2 && what.eq && cp == "=~" then EQMATCH
      else if |cp| == 2 && what.eq && cp == "!=" then NOTEQ
      else if |cp| == 2 && what.eq && cp == "!~" then NOTEQMATCH
      else if what.rel && cp[0] == '<' then LSS
      else if what.rel && cp[0] == '>' then GTR
      else 0
  }

  /** The operator words, level by level. Any word that starts with < or > is a relation. */
  lemma OperatorWords(w: string)
    ensures Isa(Some(w), ADDOP) != 0 <==> w in {"+", "-"}
    ensures Isa(Some(w), MULOP) != 0 <==> w in {"*", "/", "%"}
    ensures Isa(Some(w), EQOP) == EQEQ <==> w == "=="
    ensures Isa(Some(w), EQOP) == NOTEQ <==> w == "!="
    ensures Isa(Some(w), EQOP) == EQMATCH <==> w == "=~"
    ensures Isa(Some(w), EQOP) == NOTEQMATCH <==> w == "!~"
    ensures Isa(Some(w), EQOP) != 0 <==> w in {"==", "!=", "=~", "!~"}
    ensures Isa(Some(w), RELOP) == LSS <==> w != "" && w[0] == '<'
    ensures Isa(Some(w), RELOP) == GTR <==> w != "" && w[0] == '>'
    ensures Isa(Some(w), RELOP) != 0 <==> w != "" && w[0] in {'<', '>'}
    ensures Isa(Some(w), ANYOP) != 0 <==>
            || w in {"+", "-", "*", "/", "%", "(", ")", "!", "~", "^", "\"", "|&", "==", "=~", "!=", "!~"}
            || (w != "" && w[0] in {'<', '>'})
  {
    if |w| == 1 {
      assert w == [w[0]];
    } else if |w| == 2 {
      assert w == [w[0], w[1]];
    }
  }

  const FILETESTS := "erwxfdzoplstSXLbcugkmK"
  const FILEVALS := "ZAMCDIUGNFPL"

  predicate IsTest(w: string) {
    |w| > 1 && w[0] == '-' && (w[1] in FILETESTS || w[1] in FILEVALS)
  }

  /** The end of the file test letters, or of the octal digits, that start at i. */
  function SkipIn(w: string, i: nat, letters: string): (j: nat)
    requires i <= |w|
    ensures i <= j <= |w|
    decreases |w| - i
  {
    if i < |w| && w[i] in letters then SkipIn(w, i + 1, letters) else i
  }

  /** What filetest accepts behind the dash. */
  predicate GoodFlags(w: string)
    requires IsTest(w)
  {
    var f0 := SkipIn(w, 1, FILETESTS);
    var f := if f0 == |w| && w[f0 - 1] == 'L' then f0 - 1 else f0;
    if f < |w| && w[f] in FILEVALS then
      var g := if w[f] == 'P' then SkipIn(w, f + 1, "01234567") else f + 1;
      g == |w| || (w[g..] == ":" && w[f] in "AMCUGP")
    else
      f == |w| && f != 1
  }

  // ----- trees -----

  datatype Op = Less | LessEq | More | MoreEq | Shl | Shr | Add | Sub | Mul | Div | Mod

  /** Numbers: the levels of || && | ^ & and of the comparisons of strings. */
  datatype NExpr =
    | Logic(k: nat, l: NExpr, r: NExpr)
    | Equal(code: nat, a: SExpr, b: SExpr)
    | Read(a: SExpr)

  /** Strings: the levels of < << + * and the operands. */
  datatype SExpr =
    | Bin(op: Op, x: SExpr, y: SExpr)
    | OpText(x: SExpr, text: string)
    | Bang(x: SExpr)
    | Tilde(x: SExpr)
    | Paren(n: NExpr)
    | Brace(block: seq<string>)
    | Empty
    | Text(w: string, ng: bool)
    | Test(flags: string, file: string, ng: bool)

  datatype Parsed<E> = Bad | Good(e: E, at: nat)

  function Sign(k: nat): string {
    if k == 0 then "||" else if k == 1 then "&&" else if k == 2 then "|" else if k == 3 then "^" else "&"
  }

  datatype Seen = NoOp | OpTo(op: Op, next: nat)

  /** The operator of the level k at p, and where its right side starts. */
  function Operator(ws: seq<string>, k: nat, p: nat): (s: Seen)
    ensures s.OpTo? ==> p < s.next <= |ws|
  {
    var w := WordAt(ws, p);
    if k == 6 then
      var code := Isa(w, RELOP);
      if code == 0 then NoOp
      else if WordAt(ws, p + 1) == Some("=") then OpTo(if code == GTR then MoreEq else LessEq, p + 2)
      else OpTo(if code == GTR then More else Less, p + 1)
    else if k == 7 then
      if w.Some? && |w.value| > 1 && w.value[0] in "<>" && w.value[0] == w.value[1]
      then OpTo(if w.value[0] == '<' then Shl else Shr, p + 1) else NoOp
    else if k == 8 then
      if Isa(w, ADDOP) == 0 then NoOp else OpTo(if w.value[0] == '+' then Add else Sub, p + 1)
    else
      if Isa(w, MULOP) == 0 then NoOp
      else OpTo(if w.value[0] == '*' then Mul else if w.value[0] == '/' then Div else Mod, p + 1)
  }

  /** The first "}" from p on, or the end of the words. */
  function Close(ws: seq<string>, p: nat): (q: nat)
    requires p <= |ws|
    ensures p <= q <= |ws| && (q < |ws| ==> ws[q] == "}") && "}" !in ws[p..q]
    decreases |ws| - p
  {
    if p == |ws| || ws[p] == "}" then p else Close(ws, p + 1)
  }

  /** The numeric levels: k is 0 for ||, up to 5 for the comparisons of strings. */
  function ParseN(ws: seq<string>, compat: bool, k: nat, p: nat, ng: bool): (r: Parsed<NExpr>)
    requires k <= 5 && p <= |ws|
    ensures r.Good? ==> p <= r.at <= |ws|
    decreases |ws| - p, 11 - k
  {
    if k < 5 then
      match ParseN(ws, compat, k + 1, p, ng)
      case Bad => Bad
      case Good(l, q) => TailN(ws, compat, k, l, q, ng)
    else
      match ParseS(ws, compat, 6, p, ng)
      case Bad => Bad
      case Good(l, q) =>
        var code := Isa(WordAt(ws, q), EQOP);
        if code == 0 then Good(Read(l), q)
        else
          match ParseS(ws, compat, 6, q + 1, ng || code >= EQMATCH)
          case Bad => Bad
          case Good(r, q') => Good(Equal(code, l, r), q')
  }

  /** With compat_expr operators of a level group to the right, without it to the left. */
  function TailN(ws: seq<string>, compat: bool, k: nat, l: NExpr, p: nat, ng: bool): (r: Parsed<NExpr>)
    requires k < 5 && p <= |ws|
    ensures r.Good? ==> p <= r.at <= |ws|
    decreases |ws| - p, 0
  {
    if WordAt(ws, p) != Some(Sign(k)) then Good(l, p)
    else
      match ParseN(ws, compat, if compat then k else k + 1, p + 1, ng && k > 1)
      case Bad => Bad
      case Good(r, q) => if compat then Good(Logic(k, l, r), q) else TailN(ws, compat, k, Logic(k, l, r), q, ng)
  }

  /** The string levels: 6 for < and >, 7 for the shifts, 8 for sums, 9 for products, 10 for operands. */
  function ParseS(ws: seq<string>, compat: bool, k: nat, p: nat, ng: bool): (r: Parsed<SExpr>)
    requires 6 <= k <= 10 && p <= |ws|
    ensures r.Good? ==> p <= r.at <= |ws|
    decreases |ws| - p, 11 - k
  {
    if k == 10 then Operand(ws, compat, p, ng)
    else
      match ParseS(ws, compat, k + 1, p, ng)
      case Bad => Bad
      case Good(l, q) => TailS(ws, compat, k, l, q, ng)
  }

  /** A shift takes one right side only; a product sign to the right of =~ is itself the operand. */
  function TailS(ws: seq<string>, compat: bool, k: nat, l: SExpr, p: nat, ng: bool): (r: Parsed<SExpr>)
    requires 6 <= k < 10 && p <= |ws|
    ensures r.Good? ==> p <= r.at <= |ws|
    decreases |ws| - p, 0
  {
    match Operator(ws, k, p)
    case NoOp => Good(l, p)
    case OpTo(op, next) =>
      if k == 9 && ng then Good(OpText(l, ws[p]), next)
      else
        match ParseS(ws, compat, if compat then k else k + 1, next, ng)
        case Bad => Bad
        case Good(r, q) =>
          if compat || k == 7 then Good(Bin(op, l, r), q) else TailS(ws, compat, k, Bin(op, l, r), q, ng)
  }

  function Operand(ws: seq<string>, compat: bool, p: nat, ng: bool): (r: Parsed<SExpr>)
    requires p <= |ws|
    ensures r.Good? ==> p <= r.at <= |ws|
    decreases |ws| - p, 0
  {
    if p == |ws| then Bad
    else if ws[p] == "!" then
      match ParseS(ws, compat, 10, p + 1, ng)
      case Bad => Bad
      case Good(x, q) => Good(Bang(x), q)
    else if ws[p] == "~" then
      match ParseS(ws, compat, 10, p + 1, ng)
      case Bad => Bad
      case Good(x, q) => Good(Tilde(x), q)
    else if ws[p] == "(" then
      match ParseN(ws, compat, 0, p + 1, ng)
      case Bad => Bad
      case Good(n, q) => if q < |ws| && ws[q] != "" && ws[q][0] == ')' then Good(Paren(n), q + 1) else Bad
    else if ws[p] == "{" then
      var q := Close(ws, p + 1);
      if q == |ws| then Bad else Good(Brace(ws[p + 1..q]), q + 1)
    else if Isa(Some(ws[p]), ANYOP) != 0 then Good(Empty, p)
    else if IsTest(ws[p]) then
      if !GoodFlags(ws[p]) || p + 1 == |ws| then Bad else Good(Test(ws[p], ws[p + 1], ng), p + 2)
    else Good(Text(ws[p], ng), p + 1)
  }

  // ----- chained shifts -----

  predicate IsPlain(w: string) {
    w != "!" && w != "~" && w != "(" && w != "{" && Isa(Some(w), ANYOP) == 0 && !IsTest(w)
  }

  /** No operator of the levels from k on at q. */
  ghost predicate Quiet(ws: seq<string>, k: nat, q: nat) {
    forall i :: k <= i < 10 ==> Operator(ws, i, q).NoOp?
  }

  /** A plain word with no operator of the levels from k on behind it. */
  lemma {:induction false} PlainAt(ws: seq<string>, compat: bool, k: nat, p: nat, ng: bool)
    requires 6 <= k <= 10 && p < |ws| && IsPlain(ws[p])
    requires Quiet(ws, k, p + 1)
    ensures ParseS(ws, compat, k, p, ng) == Good(Text(ws[p], ng), p + 1)
    decreases 10 - k
  {
    if k < 10 {
      PlainAt(ws, compat, k + 1, p, ng);
      assert Operator(ws, k, p + 1).NoOp?;
    }
  }

  lemma ShiftSign(ws: seq<string>, p: nat, k: nat)
    requires p + 1 < |ws| && ws[p] == "<<" && ws[p + 1] != "=" && 6 <= k < 10
    ensures Operator(ws, k, p) == if k == 6 then OpTo(Less, p + 1) else if k == 7 then OpTo(Shl, p + 1) else NoOp
  {
  }

  lemma NoSign(ws: seq<string>, k: nat)
    ensures Operator(ws, k, |ws|).NoOp?
  {
  }

  lemma LevelUp(ws: seq<string>, k: nat, p: nat)
    requires 6 <= k < 10 && p <= |ws|
    ensures var t := ParseS(ws, false, k + 1, p, false);
            t.Good? ==> ParseS(ws, false, k, p, false) == TailS(ws, false, k, t.e, t.at, false)
  {
  }

  /** Shifts do not chain: without compat_expr the second of two << is read as a less-than sign. */
  lemma ShiftsDoNotChain(a: string, b: string, c: string)
    requires IsPlain(a) && IsPlain(b) && IsPlain(c) && b != "=" && c != "="
    ensures ParseS([a, "<<", b, "<<", c], false, 6, 0, false)
         == Good(Bin(Less, Bin(Shl, Text(a, false), Text(b, false)), Text(c, false)), 5)
  {
    hide Operator;
    hide IsPlain;
    hide Operand;
    var ws := [a, "<<", b, "<<", c];
    var x, y, z := Text(a, false), Text(b, false), Text(c, false);
    forall k | 6 <= k < 10
      ensures ShiftSigns(ws, k)
    {
      ShiftSign(ws, 1, k);
      ShiftSign(ws, 3, k);
      NoSign(ws, k);
    }
    assert ShiftSigns(ws, 6) && ShiftSigns(ws, 7) && ShiftSigns(ws, 8) && ShiftSigns(ws, 9);
    PlainAt(ws, false, 8, 0, false);
    PlainAt(ws, false, 8, 2, false);
    PlainAt(ws, false, 7, 4, false);
    hide ParseS;
    assert TailS(ws, false, 7, x, 1, false) == Good(Bin(Shl, x, y), 3);
    LevelUp(ws, 7, 0);
    assert TailS(ws, false, 6, Bin(Less, Bin(Shl, x, y), z), 5, false) == Good(Bin(Less, Bin(Shl, x, y), z), 5);
    assert TailS(ws, false, 6, Bin(Shl, x, y), 3, false) == Good(Bin(Less, Bin(Shl, x, y), z), 5);
    LevelUp(ws, 6, 0);
  }

  ghost predicate ShiftSigns(ws: seq<string>, k: nat)
    requires |ws| == 5
  {
    && Operator(ws, k, 1) == (if k == 6 then OpTo(Less, 2) else if k == 7 then OpTo(Shl, 2) else NoOp)
    && Operator(ws, k, 3) == (if k == 6 then OpTo(Less, 4) else if k == 7 then OpTo(Shl, 4) else NoOp)
    && Operator(ws, k, 5) == NoOp
  }
}
