/** What the trees of expressions mean, and what evaluating them in sh.exp.c's "ignore" mode comes to. */
module ExprValue {
  import opened Sequences
  import opened ExprSyntax

  /** The blocks run so far. */
  type History = seq<seq<string>>

  /** The shell around the evaluator; what it says may depend on the blocks run before. */
  datatype Env = Env(
    getn: string -> Option<int>,
    putn: int -> string,
    bits: (nat, int, int) -> int,
    gmatch: (string, string) -> bool,
    glob: (History, string) -> Option<string>,
    isFile: (History, string) -> bool,
    ftest: (History, string, string) -> Option<string>,
    status: (History, seq<string>) -> Option<bool>)

  datatype Out<T> = Ok(v: T, h: History) | Err

  // ----- numbers -----

  const RANGE := 0x1_0000_0000_0000_0000

  /** The 64-bit signed number an unsigned sum, difference or product is taken for. */
  function Wrap(x: int): (r: int)
    ensures -(RANGE / 2) <= r < RANGE / 2 && (r - x) % RANGE == 0
  {
    (x + RANGE / 2) % RANGE - RANGE / 2
  }

  function Pow2(n: nat): (r: nat)
    ensures r > 0
  {
    if n == 0 then 1 else 2 * Pow2(n - 1)
  }

  /** C division truncates towards zero. */
  function Quot(a: int, b: int): int
    requires b != 0
  {
    if (a < 0) == (b < 0) then Abs(a) / Abs(b) else -(Abs(a) / Abs(b))
  }

  function Abs(a: int): nat {
    if a < 0 then -a else a
  }

  function Num(b: bool): int {
    if b then 1 else 0
  }

  /** egetn */
  function Egetn(env: Env, s: string): Option<int> {
    if s != "" && s[0] != '-' && !('0' <= s[0] <= '9') then None else env.getn(s)
  }

  /** An operator of the string levels on its operands; None for an error. */
  function Apply(env: Env, op: Op, x: string, y: string): Option<int> {
    match Egetn(env, y)
    case None => None
    case Some(b) =>
      if op.Shl? || op.Shr? then
        if !(0 <= b < 64) then Some(0)
        else
          match Egetn(env, x)
          case None => None
          case Some(a) => Some(if op.Shl? then Wrap(a * Pow2(b)) else a / Pow2(b))
      else if op.Mod? && b == -1 then Some(0)
      else
        match Egetn(env, x)
        case None => None
        case Some(a) =>
          match op
          case Less => Some(Num(a < b))
          case LessEq => Some(Num(a <= b))
          case More => Some(Num(a > b))
          case MoreEq => Some(Num(a >= b))
          case Add => Some(Wrap(a + b))
          case Sub => Some(Wrap(a - b))
          case Mul => Some(Wrap(a * b))
          case Div => if b == 0 then None else Some(if b == -1 then Wrap(-a) else Quot(a, b))
          case _ => if b == 0 then None else Some(a - b * Quot(a, b))
  }

  function Compare(env: Env, code: nat, x: string, y: string): int {
    if code == EQEQ then Num(x == y)
    else if code == NOTEQ then Num(x != y)
    else if code == EQMATCH then Num(env.gmatch(x, y))
    else Num(!env.gmatch(x, y))
  }

  function Combine(env: Env, k: nat, a: int, b: int): int {
    if k == 0 then Num(a != 0 || b != 0) else if k == 1 then Num(a != 0 && b != 0) else env.bits(k, a, b)
  }

  // ----- the meaning of an expression -----

  /** || and && leave their right side alone where the left side decides. */
  function MeanN(env: Env, e: NExpr, h: History): Out<int>
    decreases e
  {
    match e
    case Logic(k, l, r) => (
      match MeanN(env, l, h)
      case Err => Err
      case Ok(a, h1) =>
        if k == 0 && a != 0 then Ok(1, h1)
        else if k == 1 && a == 0 then Ok(0, h1)
        else
          match MeanN(env, r, h1)
          case Err => Err
          case Ok(b, h2) => Ok(Combine(env, k, a, b), h2))
    case Equal(code, x, y) => (
      match MeanS(env, x, h)
      case Err => Err
      case Ok(a, h1) =>
        match MeanS(env, y, h1)
        case Err => Err
        case Ok(b, h2) => Ok(Compare(env, code, a, b), h2))
    case Read(x) =>
      match MeanS(env, x, h)
      case Err => Err
      case Ok(a, h1) => Number(Egetn(env, a), h1)
  }

  function Number(n: Option<int>, h: History): Out<int> {
    match n case None => Err case Some(v) => Ok(v, h)
  }

  function Put(env: Env, n: Option<int>, h: History): Out<string> {
    match n case None => Err case Some(v) => Ok(env.putn(v), h)
  }

  function Given(s: Option<string>, h: History): Out<string> {
    match s case None => Err case Some(v) => Ok(v, h)
  }

  function MeanS(env: Env, e: SExpr, h: History): Out<string>
    decreases e
  {
    match e
    case Bin(op, x, y) => (
      match MeanS(env, x, h)
      case Err => Err
      case Ok(a, h1) =>
        match MeanS(env, y, h1)
        case Err => Err
        case Ok(b, h2) => Put(env, Apply(env, op, a, b), h2))
    case OpText(x, text) => (
      match MeanS(env, x, h)
      case Err => Err
      case Ok(_, h1) => Ok(text, h1))
    case Bang(x) => (
      match MeanS(env, x, h)
      case Err => Err
      case Ok(a, h1) => Put(env, Not(Egetn(env, a)), h1))
    case Tilde(x) => (
      match MeanS(env, x, h)
      case Err => Err
      case Ok(a, h1) => Put(env, Flip(Egetn(env, a)), h1))
    case Paren(n) => (
      match MeanN(env, n, h)
      case Err => Err
      case Ok(v, h1) => Ok(env.putn(v), h1))
    case Brace(block) => Ran(env, block, h)
    case Empty => Ok("", h)
    case Text(w, ng) => if ng then Ok(w, h) else Given(env.glob(h, w), h)
    case Test(flags, file, ng) =>
      if Isa(Some(file), ANYOP) != 0 && !env.isFile(h, file) then Err else Tested(env, flags, file, ng, h)
  }

  function Not(n: Option<int>): Option<int> {
    match n case None => None case Some(v) => Some(Num(v == 0))
  }

  function Flip(n: Option<int>): Option<int> {
    match n case None => None case Some(v) => Some(-v - 1)
  }

  /** A block is run, once. */
  function Ran(env: Env, block: seq<string>, h: History): Out<string> {
    match env.status(h, block)
    case None => Err
    case Some(zero) => Ok(env.putn(Num(zero)), h + [block])
  }

  function Tested(env: Env, flags: string, file: string, ng: bool, h: History): Out<string> {
    match (if ng then Some(file) else env.glob(h, file))
    case None => Err
    case Some(name) => Given(env.ftest(h, flags, name), h)
  }

  // ----- what the evaluator comes to -----

  /** The value of an operator that is being ignored. */
  function Ignored(op: Op): int {
    match op
    case Less => LSS
    case LessEq => LSS + 1
    case More => GTR
    case MoreEq => GTR + 1
    case _ => 0
  }

  function SkipRight(k: nat, a: int): bool {
    (k == 0 && a != 0) || (k == 1 && a == 0)
  }

  /** Evaluation with the ignore bit ign: everything is gone through, and what is ignored gets a value of no use. */
  function EvalN(env: Env, compat: bool, e: NExpr, ign: bool, h: History): Out<int>
    decreases e
  {
    match e
    case Logic(k, l, r) => (
      match EvalN(env, compat, l, ign, h)
      case Err => Err
      case Ok(a, h1) =>
        match EvalN(env, compat, r, ign || SkipRight(k, a), h1)
        case Err => Err
        case Ok(b, h2) => Ok(if compat || !ign then Combine(env, k, a, b) else a, h2))
    case Equal(code, x, y) => (
      match EvalS(env, compat, x, ign, h)
      case Err => Err
      case Ok(a, h1) =>
        match EvalS(env, compat, y, ign, h1)
        case Err => Err
        case Ok(b, h2) => Ok(if ign then code else Compare(env, code, a, b), h2))
    case Read(x) =>
      match EvalS(env, compat, x, ign, h)
      case Err => Err
      case Ok(a, h1) => Number(Egetn(env, a), h1)
  }

  /** Shifts, ! and ~ read their operands as numbers even when ignored. */
  function Result(env: Env, op: Op, a: string, b: string, ign: bool): Option<int> {
    if ign && !op.Shl? && !op.Shr? then Some(Ignored(op)) else Apply(env, op, a, b)
  }

  function EvalS(env: Env, compat: bool, e: SExpr, ign: bool, h: History): Out<string>
    decreases e
  {
    match e
    case Bin(op, x, y) => (
      match EvalS(env, compat, x, ign, h)
      case Err => Err
      case Ok(a, h1) =>
        match EvalS(env, compat, y, ign, h1)
        case Err => Err
        case Ok(b, h2) => Put(env, Result(env, op, a, b, ign), h2))
    case OpText(x, text) => (
      match EvalS(env, compat, x, ign, h)
      case Err => Err
      case Ok(_, h1) => Ok(text, h1))
    case Bang(x) => (
      match EvalS(env, compat, x, ign, h)
      case Err => Err
      case Ok(a, h1) => Put(env, Not(Egetn(env, a)), h1))
    case Tilde(x) => (
      match EvalS(env, compat, x, ign, h)
      case Err => Err
      case Ok(a, h1) => Put(env, Flip(Egetn(env, a)), h1))
    case Paren(n) => (
      match EvalN(env, compat, n, ign, h)
      case Err => Err
      case Ok(v, h1) => Ok(env.putn(v), h1))
    case Brace(block) => if ign then Ok("", h) else Ran(env, block, h)
    case Empty => Ok("", h)
    case Text(w, ng) => if ng then Ok(w, h) else Given(env.glob(h, w), h)
    case Test(flags, file, ng) =>
      if Isa(Some(file), ANYOP) != 0 && !env.isFile(h, file) then Err
      else if ign then Ok("", h)
      else Tested(env, flags, file, ng, h)
  }

  // ----- properties -----

  /** What is ignored runs no block. */
  lemma {:induction false} IgnoredRunsNothing(env: Env, compat: bool, e: NExpr, h: History)
    ensures EvalN(env, compat, e, true, h).Ok? ==> EvalN(env, compat, e, true, h).h == h
    decreases e
  {
    match e
    case Logic(k, l, r) =>
      IgnoredRunsNothing(env, compat, l, h);
      IgnoredRunsNothing(env, compat, r, h);
    case Equal(_, x, y) =>
      IgnoredRunsNothingS(env, compat, x, h);
      IgnoredRunsNothingS(env, compat, y, h);
    case Read(x) => IgnoredRunsNothingS(env, compat, x, h);
  }

  lemma {:induction false} IgnoredRunsNothingS(env: Env, compat: bool, e: SExpr, h: History)
    ensures EvalS(env, compat, e, true, h).Ok? ==> EvalS(env, compat, e, true, h).h == h
    decreases e
  {
    match e
    case Bin(_, x, y) =>
      IgnoredRunsNothingS(env, compat, x, h);
      IgnoredRunsNothingS(env, compat, y, h);
    case OpText(x, _) => IgnoredRunsNothingS(env, compat, x, h);
    case Bang(x) => IgnoredRunsNothingS(env, compat, x, h);
    case Tilde(x) => IgnoredRunsNothingS(env, compat, x, h);
    case Paren(n) => IgnoredRunsNothing(env, compat, n, h);
    case _ =>
  }

  /** An evaluation that raises no error gives the meaning, and runs the blocks the meaning needs. */
  lemma {:induction false} EvalMeans(env: Env, compat: bool, e: NExpr, h: History)
    ensures EvalN(env, compat, e, false, h).Ok? ==> EvalN(env, compat, e, false, h) == MeanN(env, e, h)
    decreases e
  {
    match e
    case Logic(k, l, r) =>
      EvalMeans(env, compat, l, h);
      var a := EvalN(env, compat, l, false, h);
      if a.Ok? {
        EvalMeans(env, compat, r, a.h);
        IgnoredRunsNothing(env, compat, r, a.h);
      }
    case Equal(_, x, y) =>
      EvalMeansS(env, compat, x, h);
      var a := EvalS(env, compat, x, false, h);
      if a.Ok? {
        EvalMeansS(env, compat, y, a.h);
      }
    case Read(x) => EvalMeansS(env, compat, x, h);
  }

  lemma {:induction false} EvalMeansS(env: Env, compat: bool, e: SExpr, h: History)
    ensures EvalS(env, compat, e, false, h).Ok? ==> EvalS(env, compat, e, false, h) == MeanS(env, e, h)
    decreases e
  {
    match e
    case Bin(_, x, y) =>
      EvalMeansS(env, compat, x, h);
      var a := EvalS(env, compat, x, false, h);
      if a.Ok? {
        EvalMeansS(env, compat, y, a.h);
      }
    case OpText(x, _) => EvalMeansS(env, compat, x, h);
    case Bang(x) => EvalMeansS(env, compat, x, h);
    case Tilde(x) => EvalMeansS(env, compat, x, h);
    case Paren(n) => EvalMeans(env, compat, n, h);
    case _ =>
  }

  /** Every operand of || or && that the left side makes superfluous goes through without an error. */
  predicate HarmlessN(env: Env, compat: bool, e: NExpr, h: History)
    decreases e
  {
    match e
    case Logic(k, l, r) =>
      HarmlessN(env, compat, l, h) &&
      (match MeanN(env, l, h)
       case Err => true
       case Ok(a, h1) => if SkipRight(k, a) then EvalN(env, compat, r, true, h1).Ok? else HarmlessN(env, compat, r, h1))
    case Equal(_, x, y) =>
      HarmlessS(env, compat, x, h) &&
      (match MeanS(env, x, h) case Err => true case Ok(_, h1) => HarmlessS(env, compat, y, h1))
    case Read(x) => HarmlessS(env, compat, x, h)
  }

  predicate HarmlessS(env: Env, compat: bool, e: SExpr, h: History)
    decreases e
  {
    match e
    case Bin(_, x, y) =>
      HarmlessS(env, compat, x, h) &&
      (match MeanS(env, x, h) case Err => true case Ok(_, h1) => HarmlessS(env, compat, y, h1))
    case OpText(x, _) => HarmlessS(env, compat, x, h)
    case Bang(x) => HarmlessS(env, compat, x, h)
    case Tilde(x) => HarmlessS(env, compat, x, h)
    case Paren(n) => HarmlessN(env, compat, n, h)
    case _ => true
  }

  /** The evaluation raises no error exactly when the meaning has none and skipping does no harm. */
  lemma {:induction false} EvalSucceeds(env: Env, compat: bool, e: NExpr, h: History)
    ensures EvalN(env, compat, e, false, h).Ok? <==> MeanN(env, e, h).Ok? && HarmlessN(env, compat, e, h)
    decreases e
  {
    EvalMeans(env, compat, e, h);
    match e
    case Logic(k, l, r) =>
      EvalSucceeds(env, compat, l, h);
      EvalMeans(env, compat, l, h);
      var a := EvalN(env, compat, l, false, h);
      if a.Ok? {
        EvalSucceeds(env, compat, r, a.h);
        EvalMeans(env, compat, r, a.h);
      }
    case Equal(_, x, y) =>
      EvalSucceedsS(env, compat, x, h);
      EvalMeansS(env, compat, x, h);
      var a := EvalS(env, compat, x, false, h);
      if a.Ok? {
        EvalSucceedsS(env, compat, y, a.h);
      }
    case Read(x) =>
      EvalSucceedsS(env, compat, x, h);
      EvalMeansS(env, compat, x, h);
  }

  lemma {:induction false} EvalSucceedsS(env: Env, compat: bool, e: SExpr, h: History)
    ensures EvalS(env, compat, e, false, h).Ok? <==> MeanS(env, e, h).Ok? && HarmlessS(env, compat, e, h)
    decreases e
  {
    match e
    case Bin(_, x, y) =>
      EvalSucceedsS(env, compat, x, h);
      EvalMeansS(env, compat, x, h);
      var a := EvalS(env, compat, x, false, h);
      if a.Ok? {
        EvalSucceedsS(env, compat, y, a.h);
        EvalMeansS(env, compat, y, a.h);
      }
    case OpText(x, _) => EvalSucceedsS(env, compat, x, h);
    case Bang(x) =>
      EvalSucceedsS(env, compat, x, h);
      EvalMeansS(env, compat, x, h);
    case Tilde(x) =>
      EvalSucceedsS(env, compat, x, h);
      EvalMeansS(env, compat, x, h);
    case Paren(n) => EvalSucceeds(env, compat, n, h);
    case _ =>
  }

  /** What is skipped can still fail: an operand that is no number is an error even where || does not need it. */
  lemma SkippedOperandFails(env: Env, compat: bool, n: string, x: string, h: History)
    requires Egetn(env, n).Some? && Egetn(env, n).value != 0 && Egetn(env, x).None?
    ensures var e := Logic(0, Read(Text(n, true)), Read(Text(x, true)));
            MeanN(env, e, h) == Ok(1, h) && EvalN(env, compat, e, false, h).Err?
  {
    hide Egetn;
    var l, r := Read(Text(n, true)), Read(Text(x, true));
    assert MeanS(env, Text(n, true), h) == Ok(n, h) && EvalS(env, compat, Text(n, true), false, h) == Ok(n, h);
    assert EvalS(env, compat, Text(x, true), true, h) == Ok(x, h);
    assert MeanN(env, l, h) == EvalN(env, compat, l, false, h) && EvalN(env, compat, r, true, h).Err?;
  }
}
