/** The recursive descent over the words of an expression: exp0 to exp6 and filetest of sh.exp.c. */
module ExprEval {
  import opened Sequences
  import opened ExprSyntax
  import opened ExprValue

  /** An error in what has been read stays one, however the level goes on. */
  lemma {:induction false} TailErrN(env: Env, ws: seq<string>, compat: bool, k: nat, l: NExpr, p: nat, ng: bool,
                                    ign: bool, h: History)
    requires k < 5 && p <= |ws| && EvalN(env, compat, l, ign, h).Err?
    ensures var t := TailN(ws, compat, k, l, p, ng); t.Good? ==> EvalN(env, compat, t.e, ign, h).Err?
    decreases |ws| - p
  {
    if WordAt(ws, p) == Some(Sign(k)) && !compat {
      var r := ParseN(ws, compat, k + 1, p + 1, ng && k > 1);
      if r.Good? {
        TailErrN(env, ws, compat, k, Logic(k, l, r.e), r.at, ng, ign, h);
      }
    }
  }

  lemma {:induction false} TailErrS(env: Env, ws: seq<string>, compat: bool, k: nat, l: SExpr, p: nat, ng: bool,
                                    ign: bool, h: History)
    requires 6 <= k < 10 && p <= |ws| && EvalS(env, compat, l, ign, h).Err?
    ensures var t := TailS(ws, compat, k, l, p, ng); t.Good? ==> EvalS(env, compat, t.e, ign, h).Err?
    decreases |ws| - p
  {
    var o := Operator(ws, k, p);
    if o.OpTo? && !(k == 9 && ng) && !compat && k != 7 {
      var r := ParseS(ws, compat, k + 1, o.next, ng);
      if r.Good? {
        TailErrS(env, ws, compat, k, Bin(o.op, l, r.e), r.at, ng, ign, h);
      }
    }
  }

  /** Shifts are computed even when ignored. */
  lemma ShiftResult(env: Env, op: Op, a: string, b: string, ign: bool)
    requires op.Shl? || op.Shr?
    ensures Result(env, op, a, b, ign) == Apply(env, op, a, b)
  {
  }

  class Evaluator {
    const ws: seq<string>
    const compat: bool
    const env: Env
    var vp: nat
    var ran: History

    constructor (ws: seq<string>, compat: bool, env: Env)
      ensures this.ws == ws && this.compat == compat && this.env == env && vp == 0 && ran == []
    {
      this.ws, this.compat, this.env := ws, compat, env;
      vp, ran := 0, [];
    }

    /** A level has read t, and comes to r. */
    ghost predicate DoneN(t: Parsed<NExpr>, ign: bool, h: History, r: Out<int>)
      reads this
    {
      match t
      case Bad => r.Err?
      case Good(e, q) => r == EvalN(env, compat, e, ign, h) && (r.Ok? ==> vp == q && ran == r.h)
    }

    ghost predicate DoneS(t: Parsed<SExpr>, ign: bool, h: History, r: Out<string>)
      reads this
    {
      match t
      case Bad => r.Err?
      case Good(e, q) => r == EvalS(env, compat, e, ign, h) && (r.Ok? ==> vp == q && ran == r.h)
    }

    /** The level k has read e so far, and its value is p1. */
    ghost predicate SoFarN(k: nat, p: nat, ng: bool, ign: bool, h: History, e: NExpr, p1: int)
      requires k < 5 && p <= |ws|
      reads this
    {
      && p <= vp <= |ws| && EvalN(env, compat, e, ign, h) == Ok(p1, ran)
      && ParseN(ws, compat, k, p, ng) == TailN(ws, compat, k, e, vp, ng)
    }

    ghost predicate SoFarS(k: nat, p: nat, ng: bool, ign: bool, h: History, e: SExpr, p1: string)
      requires 6 <= k < 10 && p <= |ws|
      reads this
    {
      && p <= vp <= |ws| && EvalS(env, compat, e, ign, h) == Ok(p1, ran)
      && ParseS(ws, compat, k, p, ng) == TailS(ws, compat, k, e, vp, ng)
    }

    /** expr */
    method Expr() returns (r: Out<int>)
      requires vp <= |ws|
      modifies this
      ensures match ParseN(ws, compat, 0, old(vp), false)
              case Bad => r.Err?
              case Good(e, q) =>
                && r == (if HarmlessN(env, compat, e, old(ran)) then MeanN(env, e, old(ran)) else Err)
                && (r.Ok? ==> vp == q && ran == r.h)
    {
      ghost var t, h := ParseN(ws, compat, 0, vp, false), ran;
      hide ParseN;
      r := Exp0(false, false);
      if t.Good? {
        EvalMeans(env, compat, t.e, h);
        EvalSucceeds(env, compat, t.e, h);
      }
    }

    /** The first operand of a numeric level, which came to r. */
    lemma FirstN(k: nat, p: nat, ng: bool, ign: bool, h: History, r: Out<int>)
      requires k < 5 && p <= |ws|
      requires match ParseN(ws, compat, k + 1, p, ng)
               case Bad => r.Err?
               case Good(e, _) => r == EvalN(env, compat, e, ign, h)
      ensures r.Err? ==> var f := ParseN(ws, compat, k, p, ng); f.Good? ==> EvalN(env, compat, f.e, ign, h).Err?
      ensures r.Ok? ==>
                var t := ParseN(ws, compat, k + 1, p, ng);
                t.Good? && ParseN(ws, compat, k, p, ng) == TailN(ws, compat, k, t.e, t.at, ng)
    {
      var t := ParseN(ws, compat, k + 1, p, ng);
      if t.Good? && r.Err? {
        TailErrN(env, ws, compat, k, t.e, t.at, ng, ign, h);
      }
    }

    lemma LastN(k: nat, e: NExpr, p: nat, ng: bool)
      requires k < 5 && p <= |ws| && WordAt(ws, p) != Some(Sign(k))
      ensures TailN(ws, compat, k, e, p, ng) == Good(e, p)
    {
    }

    /** One operator of a numeric level, at p, and its right side, which came to r. */
    lemma StepN(k: nat, p0: nat, ng: bool, ign: bool, h: History, e: NExpr, p: nat, a: int, h1: History, r: Out<int>)
      requires k < 5 && p0 <= p < |ws| && ws[p] == Sign(k)
      requires ParseN(ws, compat, k, p0, ng) == TailN(ws, compat, k, e, p, ng)
      requires EvalN(env, compat, e, ign, h) == Ok(a, h1)
      requires match ParseN(ws, compat, if compat then k else k + 1, p + 1, ng && k > 1)
               case Bad => r.Err?
               case Good(y, _) => r == EvalN(env, compat, y, ign || SkipRight(k, a), h1)
      ensures r.Err? ==> var f := ParseN(ws, compat, k, p0, ng); f.Good? ==> EvalN(env, compat, f.e, ign, h).Err?
      ensures r.Ok? ==>
                var t := ParseN(ws, compat, if compat then k else k + 1, p + 1, ng && k > 1);
                t.Good? && var e' := Logic(k, e, t.e);
                && EvalN(env, compat, e', ign, h) == Ok(if compat || !ign then Combine(env, k, a, r.v) else a, r.h)
                && ParseN(ws, compat, k, p0, ng)
                   == if compat then Good(e', t.at) else TailN(ws, compat, k, e', t.at, ng)
    {
      hide ParseN;
      var t := ParseN(ws, compat, if compat then k else k + 1, p + 1, ng && k > 1);
      if t.Good? && r.Err? && !compat {
        TailErrN(env, ws, compat, k, Logic(k, e, t.e), t.at, ng, ign, h);
      }
    }

    /** exp0: || */
    method Exp0(ign: bool, ng: bool) returns (r: Out<int>)
      requires vp <= |ws|
      modifies this
      ensures DoneN(ParseN(ws, compat, 0, old(vp), ng), ign, old(ran), r)
      decreases |ws| - vp, 11
    {
      hide ParseN;
      hide TailN;
      hide EvalN;
      ghost var p0, h0 := vp, ran;
      r := Exp1(ign, ng);
      FirstN(0, p0, ng, ign, h0, r);
      if r.Err? {
        return;
      }
      var p1 := r.v;
      ghost var e := ParseN(ws, compat, 1, p0, ng).e;
      while vp < |ws| && ws[vp] == "||"
        invariant SoFarN(0, p0, ng, ign, h0, e, p1)
        decreases |ws| - vp
      {
        ghost var p, h1, a := vp, ran, p1;
        vp := vp + 1;
        if compat {
          r := Exp0(ign || p1 != 0, false);
        } else {
          r := Exp1(ign || p1 != 0, false);
        }
        StepN(0, p0, ng, ign, h0, e, p, a, h1, r);
        if r.Err? {
          return;
        }
        if compat || !ign {
          p1 := Num(p1 != 0 || r.v != 0);
        }
        e := Logic(0, e, ParseN(ws, compat, if compat then 0 else 1, p + 1, false).e);
        if compat {
          return Ok(p1, ran);
        }
      }
      LastN(0, e, vp, ng);
      r := Ok(p1, ran);
    }

    /** exp1: && */
    method Exp1(ign: bool, ng: bool) returns (r: Out<int>)
      requires vp <= |ws|
      modifies this
      ensures DoneN(ParseN(ws, compat, 1, old(vp), ng), ign, old(ran), r)
      decreases |ws| - vp, 10
    {
      hide ParseN;
      hide TailN;
      hide EvalN;
      ghost var p0, h0 := vp, ran;
      r := Exp2x(ign, ng);
      FirstN(1, p0, ng, ign, h0, r);
      if r.Err? {
        return;
      }
      var p1 := r.v;
      ghost var e := ParseN(ws, compat, 2, p0, ng).e;
      while vp < |ws| && ws[vp] == "&&"
        invariant SoFarN(1, p0, ng, ign, h0, e, p1)
        decreases |ws| - vp
      {
        ghost var p, h1, a := vp, ran, p1;
        vp := vp + 1;
        if compat {
          r := Exp1(ign || p1 == 0, false);
        } else {
          r := Exp2x(ign || p1 == 0, false);
        }
        StepN(1, p0, ng, ign, h0, e, p, a, h1, r);
        if r.Err? {
          return;
        }
        if compat || !ign {
          p1 := Num(p1 != 0 && r.v != 0);
        }
        e := Logic(1, e, ParseN(ws, compat, if compat then 1 else 2, p + 1, false).e);
        if compat {
          return Ok(p1, ran);
        }
      }
      LastN(1, e, vp, ng);
      r := Ok(p1, ran);
    }

    /** exp2x: | */
    method Exp2x(ign: bool, ng: bool) returns (r: Out<int>)
      requires vp <= |ws|
      modifies this
      ensures DoneN(ParseN(ws, compat, 2, old(vp), ng), ign, old(ran), r)
      decreases |ws| - vp, 9
    {
      hide ParseN;
      hide TailN;
      hide EvalN;
      ghost var p0, h0 := vp, ran;
      r := Exp2a(ign, ng);
      FirstN(2, p0, ng, ign, h0, r);
      if r.Err? {
        return;
      }
      var p1 := r.v;
      ghost var e := ParseN(ws, compat, 3, p0, ng).e;
      while vp < |ws| && ws[vp] == "|"
        invariant SoFarN(2, p0, ng, ign, h0, e, p1)
        decreases |ws| - vp
      {
        ghost var p, h1, a := vp, ran, p1;
        vp := vp + 1;
        if compat {
          r := Exp2x(ign, ng);
        } else {
          r := Exp2a(ign, ng);
        }
        StepN(2, p0, ng, ign, h0, e, p, a, h1, r);
        if r.Err? {
          return;
        }
        if compat || !ign {
          p1 := env.bits(2, p1, r.v);
        }
        e := Logic(2, e, ParseN(ws, compat, if compat then 2 else 3, p + 1, ng).e);
        if compat {
          return Ok(p1, ran);
        }
      }
      LastN(2, e, vp, ng);
      r := Ok(p1, ran);
    }

    /** exp2a: ^ */
    method Exp2a(ign: bool, ng: bool) returns (r: Out<int>)
      requires vp <= |ws|
      modifies this
      ensures DoneN(ParseN(ws, compat, 3, old(vp), ng), ign, old(ran), r)
      decreases |ws| - vp, 8
    {
      hide ParseN;
      hide TailN;
      hide EvalN;
      ghost var p0, h0 := vp, ran;
      r := Exp2b(ign, ng);
      FirstN(3, p0, ng, ign, h0, r);
      if r.Err? {
        return;
      }
      var p1 := r.v;
      ghost var e := ParseN(ws, compat, 4, p0, ng).e;
      while vp < |ws| && ws[vp] == "^"
        invariant SoFarN(3, p0, ng, ign, h0, e, p1)
        decreases |ws| - vp
      {
        ghost var p, h1, a := vp, ran, p1;
        vp := vp + 1;
        if compat {
          r := Exp2a(ign, ng);
        } else {
          r := Exp2b(ign, ng);
        }
        StepN(3, p0, ng, ign, h0, e, p, a, h1, r);
        if r.Err? {
          return;
        }
        if compat || !ign {
          p1 := env.bits(3, p1, r.v);
        }
        e := Logic(3, e, ParseN(ws, compat, if compat then 3 else 4, p + 1, ng).e);
        if compat {
          return Ok(p1, ran);
        }
      }
      LastN(3, e, vp, ng);
      r := Ok(p1, ran);
    }

    /** exp2b: & */
    method Exp2b(ign: bool, ng: bool) returns (r: Out<int>)
      requires vp <= |ws|
      modifies this
      ensures DoneN(ParseN(ws, compat, 4, old(vp), ng), ign, old(ran), r)
      decreases |ws| - vp, 7
    {
      hide ParseN;
      hide TailN;
      hide EvalN;
      ghost var p0, h0 := vp, ran;
      r := Exp2c(ign, ng);
      FirstN(4, p0, ng, ign, h0, r);
      if r.Err? {
        return;
      }
      var p1 := r.v;
      ghost var e := ParseN(ws, compat, 5, p0, ng).e;
      while vp < |ws| && ws[vp] == "&"
        invariant SoFarN(4, p0, ng, ign, h0, e, p1)
        decreases |ws| - vp
      {
        ghost var p, h1, a := vp, ran, p1;
        vp := vp + 1;
        if compat {
          r := Exp2b(ign, ng);
        } else {
          r := Exp2c(ign, ng);
        }
        StepN(4, p0, ng, ign, h0, e, p, a, h1, r);
        if r.Err? {
          return;
        }
        if compat || !ign {
          p1 := env.bits(4, p1, r.v);
        }
        e := Logic(4, e, ParseN(ws, compat, if compat then 4 else 5, p + 1, ng).e);
        if compat {
          return Ok(p1, ran);
        }
      }
      LastN(4, e, vp, ng);
      r := Ok(p1, ran);
    }

    lemma ReadOrEqual(p: nat, ng: bool)
      requires p <= |ws|
      ensures var t := ParseS(ws, compat, 6, p, ng);
              match t
              case Bad => ParseN(ws, compat, 5, p, ng).Bad?
              case Good(a, q) =>
                var code := Isa(WordAt(ws, q), EQOP);
                if code == 0 then ParseN(ws, compat, 5, p, ng) == Good(Read(a), q)
                else
                  match ParseS(ws, compat, 6, q + 1, ng || code >= EQMATCH)
                  case Bad => ParseN(ws, compat, 5, p, ng).Bad?
                  case Good(b, q') => ParseN(ws, compat, 5, p, ng) == Good(Equal(code, a, b), q')
    {
      hide ParseS;
    }

    /** exp2c: == != =~ !~ */
    method Exp2c(ign: bool, ng: bool) returns (r: Out<int>)
      requires vp <= |ws|
      modifies this
      ensures DoneN(ParseN(ws, compat, 5, old(vp), ng), ign, old(ran), r)
      decreases |ws| - vp, 6
    {
      ReadOrEqual(vp, ng);
      hide ParseN;
      hide ParseS;
      hide EvalS;
      hide Egetn;
      hide Compare;
      hide Isa;
      var s1 := Exp3(ign, ng);
      if s1.Err? {
        return Err;
      }
      if Isa(WordAt(ws, vp), EQOP) != 0 {
        r := RightSide(ign, ng, s1.v);
      } else {
        r := Number(Egetn(env, s1.v), ran);
      }
    }

    /** The comparison with what stands behind the operator word; a is the left side. */
    method RightSide(ign: bool, ng: bool, a: string) returns (r: Out<int>)
      requires vp < |ws| && Isa(WordAt(ws, vp), EQOP) != 0
      modifies this
      ensures var code := Isa(WordAt(ws, old(vp)), EQOP);
              match ParseS(ws, compat, 6, old(vp) + 1, ng || code >= EQMATCH)
              case Bad => r.Err?
              case Good(b, q) =>
                match EvalS(env, compat, b, ign, old(ran))
                case Err => r.Err?
                case Ok(y, h) =>
                  r == Ok(if ign then code else Compare(env, code, a, y), h) && vp == q && ran == h
      decreases |ws| - vp, 5
    {
      hide ParseS;
      hide EvalS;
      hide Compare;
      hide Isa;
      var i := Isa(WordAt(ws, vp), EQOP);
      EqualCode(WordAt(ws, vp));
      vp := vp + 1;
      var s2 := Exp3(ign, ng || i == EQMATCH || i == NOTEQMATCH);
      if s2.Err? {
        return Err;
      }
      r := Ok(if ign then i else Compare(env, i, a, s2.v), ran);
    }

    lemma EqualCode(w: Option<string>)
      ensures Isa(w, EQOP) >= EQMATCH <==> Isa(w, EQOP) == EQMATCH || Isa(w, EQOP) == NOTEQMATCH
      ensures Isa(w, EQOP) != 0 ==> w.Some?
    {
    }

    /** The first operand of a string level, which came to r. */
    lemma FirstS(k: nat, p: nat, ng: bool, ign: bool, h: History, r: Out<string>)
      requires 6 <= k < 10 && p <= |ws|
      requires match ParseS(ws, compat, k + 1, p, ng)
               case Bad => r.Err?
               case Good(e, _) => r == EvalS(env, compat, e, ign, h)
      ensures r.Err? ==> var f := ParseS(ws, compat, k, p, ng); f.Good? ==> EvalS(env, compat, f.e, ign, h).Err?
      ensures r.Ok? ==>
                var t := ParseS(ws, compat, k + 1, p, ng);
                t.Good? && ParseS(ws, compat, k, p, ng) == TailS(ws, compat, k, t.e, t.at, ng)
    {
      hide TailS;
      hide Operand;
      var t := ParseS(ws, compat, k + 1, p, ng);
      if t.Good? && r.Err? {
        TailErrS(env, ws, compat, k, t.e, t.at, ng, ign, h);
      }
    }

    lemma LastS(k: nat, e: SExpr, p: nat, ng: bool)
      requires 6 <= k < 10 && p <= |ws| && Operator(ws, k, p).NoOp?
      ensures TailS(ws, compat, k, e, p, ng) == Good(e, p)
    {
    }

    /** One operator of a string level, at p, and its right side, which came to r. */
    lemma StepS(k: nat, p0: nat, ng: bool, ign: bool, h: History, e: SExpr, p: nat, a: string, h1: History,
                r: Out<string>)
      requires 6 <= k < 10 && p0 <= p < |ws| && Operator(ws, k, p).OpTo? && !(k == 9 && ng)
      requires ParseS(ws, compat, k, p0, ng) == TailS(ws, compat, k, e, p, ng)
      requires EvalS(env, compat, e, ign, h) == Ok(a, h1)
      requires match ParseS(ws, compat, if compat then k else k + 1, Operator(ws, k, p).next, ng)
               case Bad => r.Err?
               case Good(y, _) => r == EvalS(env, compat, y, ign, h1)
      ensures r.Err? || Result(env, Operator(ws, k, p).op, a, r.v, ign).None? ==>
                var f := ParseS(ws, compat, k, p0, ng); f.Good? ==> EvalS(env, compat, f.e, ign, h).Err?
      ensures r.Ok? ==>
                var o := Operator(ws, k, p);
                var t := ParseS(ws, compat, if compat then k else k + 1, o.next, ng);
                t.Good? && var e' := Bin(o.op, e, t.e);
                && EvalS(env, compat, e', ign, h) == Put(env, Result(env, o.op, a, r.v, ign), r.h)
                && ParseS(ws, compat, k, p0, ng)
                   == if compat || k == 7 then Good(e', t.at) else TailS(ws, compat, k, e', t.at, ng)
    {
      hide ParseS;
      hide Operator;
      hide Result;
      var o := Operator(ws, k, p);
      var t := ParseS(ws, compat, if compat then k else k + 1, o.next, ng);
      if t.Good? && !compat && k != 7 && EvalS(env, compat, Bin(o.op, e, t.e), ign, h).Err? {
        TailErrS(env, ws, compat, k, Bin(o.op, e, t.e), t.at, ng, ign, h);
      }
    }

    /** A product sign to the right of =~. */
    lemma StepText(p0: nat, ign: bool, h: History, e: SExpr, p: nat, a: string, h1: History)
      requires p0 <= p < |ws| && Operator(ws, 9, p).OpTo?
      requires ParseS(ws, compat, 9, p0, true) == TailS(ws, compat, 9, e, p, true)
      requires EvalS(env, compat, e, ign, h) == Ok(a, h1)
      ensures ParseS(ws, compat, 9, p0, true) == Good(OpText(e, ws[p]), p + 1)
      ensures EvalS(env, compat, OpText(e, ws[p]), ign, h) == Ok(ws[p], h1)
    {
      hide ParseS;
    }

    method Relation() returns (op: Op)
      requires Isa(WordAt(ws, vp), RELOP) != 0
      modifies `vp
      ensures Operator(ws, 6, old(vp)) == OpTo(op, vp) && old(vp) < vp <= |ws|
    {
      var code := Isa(WordAt(ws, vp), RELOP);
      vp := vp + 1;
      var orEqual := vp < |ws| && ws[vp] == "=";
      if orEqual {
        vp := vp + 1;
      }
      op := if code == GTR then if orEqual then MoreEq else More else if orEqual then LessEq else Less;
    }

    /** exp3: < > <= >= */
    method Exp3(ign: bool, ng: bool) returns (r: Out<string>)
      requires vp <= |ws|
      modifies this
      ensures DoneS(ParseS(ws, compat, 6, old(vp), ng), ign, old(ran), r)
      decreases |ws| - vp, 5
    {
      hide ParseS;
      hide TailS;
      hide EvalS;
      hide Result;
      ghost var p0, h0 := vp, ran;
      r := Exp3a(ign, ng);
      FirstS(6, p0, ng, ign, h0, r);
      if r.Err? {
        return;
      }
      var p1 := r.v;
      ghost var e := ParseS(ws, compat, 7, p0, ng).e;
      while Isa(WordAt(ws, vp), RELOP) != 0
        invariant SoFarS(6, p0, ng, ign, h0, e, p1)
        decreases |ws| - vp
      {
        ghost var p, h1 := vp, ran;
        var op := Relation();
        if compat {
          r := Exp3(ign, ng);
        } else {
          r := Exp3a(ign, ng);
        }
        StepS(6, p0, ng, ign, h0, e, p, p1, h1, r);
        if r.Err? {
          return;
        }
        var i := Result(env, op, p1, r.v, ign);
        if i.None? {
          return Err;
        }
        p1 := env.putn(i.value);
        e := Bin(op, e, ParseS(ws, compat, if compat then 6 else 7, Operator(ws, 6, p).next, ng).e);
        if compat {
          return Ok(p1, ran);
        }
      }
      LastS(6, e, vp, ng);
      r := Ok(p1, ran);
    }

    /** exp3a: one << or >> */
    method Exp3a(ign: bool, ng: bool) returns (r: Out<string>)
      requires vp <= |ws|
      modifies this
      ensures DoneS(ParseS(ws, compat, 7, old(vp), ng), ign, old(ran), r)
      decreases |ws| - vp, 4
    {
      hide ParseS;
      hide TailS;
      hide EvalS;
      hide Result;
      ghost var p0, h0 := vp, ran;
      r := Exp4(ign, ng);
      FirstS(7, p0, ng, ign, h0, r);
      if r.Err? {
        return;
      }
      var p1 := r.v;
      ghost var e := ParseS(ws, compat, 8, p0, ng).e;
      if vp < |ws| && |ws[vp]| > 1 && ws[vp][0] in "<>" && ws[vp][0] == ws[vp][1] {
        ghost var p, h1 := vp, ran;
        var op := if ws[vp][0] == '<' then Shl else Shr;
        vp := vp + 1;
        if compat {
          r := Exp3a(ign, ng);
        } else {
          r := Exp4(ign, ng);
        }
        StepS(7, p0, ng, ign, h0, e, p, p1, h1, r);
        if r.Err? {
          return;
        }
        var i := Apply(env, op, p1, r.v);
        ShiftResult(env, op, p1, r.v, ign);
        if i.None? {
          return Err;
        }
        return Ok(env.putn(i.value), ran);
      }
      LastS(7, e, vp, ng);
      r := Ok(p1, ran);
    }

    /** exp4: + - */
    method Exp4(ign: bool, ng: bool) returns (r: Out<string>)
      requires vp <= |ws|
      modifies this
      ensures DoneS(ParseS(ws, compat, 8, old(vp), ng), ign, old(ran), r)
      decreases |ws| - vp, 3
    {
      hide ParseS;
      hide TailS;
      hide EvalS;
      hide Result;
      ghost var p0, h0 := vp, ran;
      r := Exp5(ign, ng);
      FirstS(8, p0, ng, ign, h0, r);
      if r.Err? {
        return;
      }
      var p1 := r.v;
      ghost var e := ParseS(ws, compat, 9, p0, ng).e;
      while Isa(WordAt(ws, vp), ADDOP) != 0
        invariant SoFarS(8, p0, ng, ign, h0, e, p1)
        decreases |ws| - vp
      {
        ghost var p, h1 := vp, ran;
        var op := if ws[vp][0] == '+' then Add else Sub;
        vp := vp + 1;
        if compat {
          r := Exp4(ign, ng);
        } else {
          r := Exp5(ign, ng);
        }
        StepS(8, p0, ng, ign, h0, e, p, p1, h1, r);
        if r.Err? {
          return;
        }
        var i := Result(env, op, p1, r.v, ign);
        if i.None? {
          return Err;
        }
        p1 := env.putn(i.value);
        e := Bin(op, e, ParseS(ws, compat, if compat then 8 else 9, Operator(ws, 8, p).next, ng).e);
        if compat {
          return Ok(p1, ran);
        }
      }
      LastS(8, e, vp, ng);
      r := Ok(p1, ran);
    }

    /** exp5: * / %; to the right of =~ the sign itself is wanted */
    method Exp5(ign: bool, ng: bool) returns (r: Out<string>)
      requires vp <= |ws|
      modifies this
      ensures DoneS(ParseS(ws, compat, 9, old(vp), ng), ign, old(ran), r)
      decreases |ws| - vp, 2
    {
      hide ParseS;
      hide TailS;
      hide EvalS;
      hide Result;
      ghost var p0, h0 := vp, ran;
      r := Exp6(ign, ng);
      FirstS(9, p0, ng, ign, h0, r);
      if r.Err? {
        return;
      }
      var p1 := r.v;
      ghost var e := ParseS(ws, compat, 10, p0, ng).e;
      while Isa(WordAt(ws, vp), MULOP) != 0
        invariant SoFarS(9, p0, ng, ign, h0, e, p1)
        decreases |ws| - vp
      {
        ghost var p, h1 := vp, ran;
        var sign := ws[vp];
        vp := vp + 1;
        if ng {
          StepText(p0, ign, h0, e, p, p1, h1);
          return Ok(sign, ran);
        }
        var op := if sign[0] == '*' then Mul else if sign[0] == '/' then Div else Mod;
        if compat {
          r := Exp5(ign, ng);
        } else {
          r := Exp6(ign, ng);
        }
        StepS(9, p0, ng, ign, h0, e, p, p1, h1, r);
        if r.Err? {
          return;
        }
        var i := Result(env, op, p1, r.v, ign);
        if i.None? {
          return Err;
        }
        p1 := env.putn(i.value);
        e := Bin(op, e, ParseS(ws, compat, if compat then 9 else 10, Operator(ws, 9, p).next, ng).e);
        if compat {
          return Ok(p1, ran);
        }
      }
      LastS(9, e, vp, ng);
      r := Ok(p1, ran);
    }

    method ExpBang(ign: bool, ng: bool) returns (r: Out<string>)
      requires vp < |ws| && ws[vp] == "!"
      modifies this
      ensures DoneS(Operand(ws, compat, old(vp), ng), ign, old(ran), r)
      decreases |ws| - vp, 0
    {
      hide ParseS;
      hide Egetn;
      vp := vp + 1;
      r := Exp6(ign, ng);
      if r.Ok? {
        r := Put(env, Not(Egetn(env, r.v)), ran);
      }
    }

    method ExpTilde(ign: bool, ng: bool) returns (r: Out<string>)
      requires vp < |ws| && ws[vp] == "~"
      modifies this
      ensures DoneS(Operand(ws, compat, old(vp), ng), ign, old(ran), r)
      decreases |ws| - vp, 0
    {
      hide ParseS;
      hide Egetn;
      vp := vp + 1;
      r := Exp6(ign, ng);
      if r.Ok? {
        r := Put(env, Flip(Egetn(env, r.v)), ran);
      }
    }

    method ExpParen(ign: bool, ng: bool) returns (r: Out<string>)
      requires vp < |ws| && ws[vp] == "("
      modifies this
      ensures DoneS(Operand(ws, compat, old(vp), ng), ign, old(ran), r)
      decreases |ws| - vp, 0
    {
      hide ParseN;
      hide EvalN;
      vp := vp + 1;
      var c := Exp0(ign, ng);
      if c.Err? {
        return Err;
      }
      if vp == |ws| || ws[vp] == "" || ws[vp][0] != ')' {
        return Err;
      }
      vp := vp + 1;
      r := Ok(env.putn(c.v), ran);
    }

    lemma {:induction false} CloseAt(p: nat, q: nat)
      requires p <= q < |ws| && ws[q] == "}" && forall i :: p <= i < q ==> ws[i] != "}"
      ensures Close(ws, p) == q
      decreases q - p
    {
      if p < q {
        CloseAt(p + 1, q);
      }
    }

    lemma NeverClosed(p: nat)
      requires p <= |ws| && forall i :: p <= i < |ws| ==> ws[i] != "}"
      ensures Close(ws, p) == |ws|
    {
    }

    method ExpBrace(ign: bool, ng: bool) returns (r: Out<string>)
      requires vp < |ws| && ws[vp] == "{"
      modifies this
      ensures DoneS(Operand(ws, compat, old(vp), ng), ign, old(ran), r)
    {
      vp := vp + 1;
      var v := vp;
      while true
        invariant v <= vp <= |ws| && forall i :: v <= i < vp ==> ws[i] != "}"
        invariant unchanged(`ran)
        decreases |ws| - vp
      {
        if vp == |ws| {
          NeverClosed(v);
          return Err;
        }
        vp := vp + 1;
        if ws[vp - 1] == "}" {
          break;
        }
      }
      CloseAt(v, vp - 1);
      if ign {
        return Ok("", ran);
      }
      r := Evalav(ws[v..vp - 1]);
    }

    /** evalav: run the words of a block; the answer is whether its status is zero. */
    method Evalav(block: seq<string>) returns (r: Out<string>)
      modifies `ran
      ensures r == Ran(env, block, old(ran)) && (r.Ok? ==> ran == r.h)
    {
      var zero := env.status(ran, block);
      if zero.None? {
        return Err;
      }
      ran := ran + [block];
      r := Ok(env.putn(Num(zero.value)), ran);
    }

    /** filetest; vp is behind the flags. */
    method Filetest(flags: string, ign: bool, ng: bool) returns (r: Out<string>)
      requires 0 < vp <= |ws| && ws[vp - 1] == flags && IsTest(flags)
      modifies this
      ensures if GoodFlags(flags) && old(vp) < |ws|
              then r == EvalS(env, compat, Test(flags, ws[old(vp)], ng), ign, old(ran))
                   && (r.Ok? ==> vp == old(vp) + 1 && ran == r.h)
              else r.Err?
    {
      hide GoodFlags;
      if !GoodFlags(flags) {
        return Err;
      }
      if vp == |ws| || (Isa(Some(ws[vp]), ANYOP) != 0 && !env.isFile(ran, ws[vp])) {
        return Err;
      }
      var dp := ws[vp];
      vp := vp + 1;
      if ign {
        return Ok("", ran);
      }
      r := Tested(env, flags, dp, ng, ran);
    }

    /** exp6: operands */
    method Exp6(ign: bool, ng: bool) returns (r: Out<string>)
      requires vp <= |ws|
      modifies this
      ensures DoneS(ParseS(ws, compat, 10, old(vp), ng), ign, old(ran), r)
      decreases |ws| - vp, 1
    {
      hide ParseN;
      hide GoodFlags;
      if vp == |ws| {
        return Err;
      }
      if ws[vp] == "!" {
        r := ExpBang(ign, ng);
      } else if ws[vp] == "~" {
        r := ExpTilde(ign, ng);
      } else if ws[vp] == "(" {
        r := ExpParen(ign, ng);
      } else if ws[vp] == "{" {
        r := ExpBrace(ign, ng);
      } else {
        r := Word(ign, ng);
      }
    }

    method Word(ign: bool, ng: bool) returns (r: Out<string>)
      requires vp < |ws| && ws[vp] != "!" && ws[vp] != "~" && ws[vp] != "(" && ws[vp] != "{"
      modifies this
      ensures DoneS(Operand(ws, compat, old(vp), ng), ign, old(ran), r)
    {
      hide GoodFlags;
      hide Isa;
      if Isa(Some(ws[vp]), ANYOP) != 0 {
        return Ok("", ran);
      }
      var cp := ws[vp];
      vp := vp + 1;
      if IsTest(cp) {
        r := Filetest(cp, ign, ng);
        return;
      }
      r := if ng then Ok(cp, ran) else Given(env.glob(ran, cp), ran);
    }
  }
}
