/** dot_lock and dot_unlock of dotlock.c, as one process runs them among others. */
module DotLock {
  import opened Sequences
  import opened LockProtocol

  /** What happens next: a step of another process, or how the next call of this one comes out. */
  datatype Turn = Theirs(e: Event) | Ours(effect: bool, report: Report)

  /** How the calls of this process come out, one after the other. */
  function Answers(turns: seq<Turn>): (r: seq<Turn>)
    ensures |r| <= |turns| && forall i :: 0 <= i < |r| ==> r[i].Ours?
  {
    if turns == [] then [] else (if turns[0].Ours? then [turns[0]] else []) + Answers(turns[1..])
  }

  /** How call n comes out; with no turns left calls fail. */
  function Answer(turns: seq<Turn>, n: nat): (t: Turn)
    ensures t.Ours?
  {
    if n < |Answers(turns)| then Answers(turns)[n] else Ours(false, Other)
  }

  /** n calls have been made in between. */
  ghost predicate Called(was: seq<Turn>, turns: seq<Turn>, n: nat) {
    forall j: nat :: Answer(turns, j) == Answer(was, n + j)
  }

  lemma NextAnswer(was: seq<Turn>, turns: seq<Turn>, n: nat)
    requires Called(was, turns, n)
    ensures Answer(turns, 0) == Answer(was, n)
  {
  }

  datatype Result = Locked | Failed(errno: Report)

  /** The call before the unlink leads to this result. */
  predicate Reported(step: Step, r: Result) {
    match step
    case Link(_, report) => report != Fine && r == Failed(report)
    case Stat(ok, links) => r == if !ok then Failed(Other) else if links == 2 then Locked else Failed(Exists)
    case _ => false
  }

  /** From the step from on and before the step to, no open failed, and unlinks were for a lock that is taken. */
  ghost predicate Retried(m: seq<Step>, from: nat, to: nat)
    requires to <= |m|
  {
    forall i :: from < i < to ==>
      (m[i].Open? ==> m[i].report != Other) && (m[i].Unlink? ==> Reported(m[i - 1], Failed(Exists)))
  }

  /** The calls of one more try. */
  lemma TrySteps(was: seq<Step>, opens: seq<Step>, rest: seq<Step>, r: Result, from: nat)
    requires opens != [] && (forall i :: 0 <= i < |opens| ==> opens[i].Open?)
    requires forall i :: 0 <= i < |opens| - 1 ==> opens[i].report == Exists
    requires if opens[|opens| - 1].report == Other then rest == [] && r == Failed(Other)
             else |rest| >= 2 && rest[|rest| - 1].Unlink? && Reported(rest[|rest| - 2], r) && rest[0].Link?
                  && (|rest| == 2 || (|rest| == 3 && rest[1].Stat?))
    requires from <= |was| && Retried(was, from, |was|)
    ensures var m := was + [Start] + opens + rest;
            && (if m[|m| - 1].Open? then m[|m| - 1].report == Other && r == Failed(Other)
                else m[|m| - 1].Unlink? && Reported(m[|m| - 2], r))
            && Retried(m, from, |m| - 1) && (r == Failed(Exists) ==> Retried(m, from, |m|))
  {
    var m := was + [Start] + opens + rest;
    var n := |was| + 1 + |opens|;
    assert forall i :: 0 <= i < |was| ==> m[i] == was[i];
    assert m[|was|] == Start;
    assert forall i :: |was| < i < n ==> m[i] == opens[i - |was| - 1];
    assert forall i :: n <= i < |m| ==> m[i] == rest[i - n];
    hide Reported;
    forall i | from < i < |m| - 1
      ensures (m[i].Open? ==> m[i].report != Other) && (m[i].Unlink? ==> Reported(m[i - 1], Failed(Exists)))
    {
      if i < |was| {
        assert m[i - 1] == was[i - 1];
      }
    }
  }

  class Process {
    const me: nat
    var s: State
    var turns: seq<Turn>
    ghost var run: seq<Event>

    constructor (me: nat, turns: seq<Turn>)
      ensures this.me == me && this.turns == turns && Valid() && s.Pc(me) == Idle
    {
      this.me, this.turns := me, turns;
      s, run := INIT, [];
    }

    /** The state is one the protocol leads to. */
    ghost predicate Valid()
      reads this
    {
      Run(INIT, run) == Some(s)
    }

    /** The steps this process has taken. */
    ghost function Mine(): seq<Step>
      reads this
    {
      Steps(run, me)
    }

    method Take(p: nat, step: Step)
      requires Valid() && Can(s, p, step)
      modifies `s, `run
      ensures Valid() && s == Do(old(s), p, step) && run == old(run) + [Event(p, step)]
      ensures Mine() == if p == me then old(Mine()) + [step] else old(Mine())
    {
      RunOn(INIT, run, Event(p, step));
      s := Do(s, p, step);
      ghost var before := run;
      run := run + [Event(p, step)];
      assert run[..|run| - 1] == before;
    }

    /** The others go on until a call of this process comes back. */
    method Call() returns (effect: bool, report: Report)
      requires Valid()
      modifies this
      ensures Valid() && s.Pc(me) == old(s.Pc(me)) && old(run) <= run && Mine() == old(Mine())
      ensures |turns| <= |old(turns)| && (|turns| == |old(turns)| ==> report == Other && !effect)
      ensures Ours(effect, report) == Answer(old(turns), 0) && Called(old(turns), turns, 1)
    {
      while turns != [] && turns[0].Theirs?
        invariant Valid() && s.Pc(me) == old(s.Pc(me)) && |turns| <= |old(turns)|
        invariant old(run) <= run && Mine() == old(Mine()) && Answers(turns) == Answers(old(turns))
        decreases |turns|
      {
        var e := turns[0].e;
        if e.p != me && Can(s, e.p, e.step) {
          Take(e.p, e.step);
        }
        turns := turns[1..];
      }
      if turns == [] {
        return false, Other;
      }
      effect, report := turns[0].effect, turns[0].report;
      turns := turns[1..];
    }

    method OpenTemp() returns (report: Report, ghost step: Step)
      requires Valid() && s.Pc(me).Opening?
      modifies this
      ensures old(run) <= run && Mine() == old(Mine()) + [step] && step.Open? && step.report == report
      ensures report == Answer(old(turns), 0).report && Called(old(turns), turns, 1)
      ensures Valid() && |turns| <= |old(turns)| && (|turns| == |old(turns)| ==> report == Other)
      ensures s.Pc(me) == if report.Fine? || (report.Exists? && old(s.Pc(me)).tries + 1 >= TRIES) then Opened
                          else if report.Exists? then Opening(old(s.Pc(me)).tries + 1) else Idle
    {
      var effect;
      effect, report := Call();
      if effect && Temp(me) in s.dir {
        effect := false;
      }
      step := Open(effect, report);
      Take(me, Open(effect, report));
    }

    /** The link: before is the state the call meets, and made whether it makes the link, whatever it reports. */
    method LinkTemp() returns (report: Report, ghost before: State, ghost made: bool)
      requires Valid() && s.Pc(me) == Opened
      modifies this
      ensures Valid() && |turns| <= |old(turns)| && s.Pc(me) == if report.Fine? then Linked else Bad
      ensures old(run) <= run && Mine() == old(Mine()) + [Link(made, report)]
      ensures report == Answer(old(turns), 0).report && Called(old(turns), turns, 1)
      ensures made <==> Answer(old(turns), 0).effect && Temp(me) in before.dir && Lock !in before.dir
      ensures s.dir == if made then before.dir[Lock := before.dir[Temp(me)]] else before.dir
    {
      var effect;
      effect, report := LinkCall();
      before, made := s, effect;
      Take(me, Link(effect, report));
    }

    method LinkCall() returns (effect: bool, report: Report)
      requires Valid() && s.Pc(me) == Opened
      modifies this
      ensures Valid() && |turns| <= |old(turns)| && s.Pc(me) == Opened && Can(s, me, Link(effect, report))
      ensures old(run) <= run && Mine() == old(Mine())
      ensures report == Answer(old(turns), 0).report && Called(old(turns), turns, 1)
      ensures effect <==> Answer(old(turns), 0).effect && Temp(me) in s.dir && Lock !in s.dir
    {
      effect, report := Call();
      if effect && (Lock in s.dir || Temp(me) !in s.dir) {
        effect := false;
      }
    }

    method StatTemp() returns (ok: bool, nlink: nat)
      requires Valid() && s.Pc(me) == Linked
      modifies this
      ensures Valid() && |turns| <= |old(turns)| && s.Pc(me) == if ok then Statted(nlink) else Bad
      ensures old(run) <= run && Mine() == old(Mine()) + [Stat(ok, nlink)]
      ensures ok <==> Answer(old(turns), 0).effect && Temp(me) in s.dir
    {
      var effect, report := Call();
      ok := effect && Temp(me) in s.dir;
      nlink := if ok then Links(s.dir, s.dir[Temp(me)]) else 0;
      Take(me, Stat(ok, nlink));
    }

    method UnlinkTemp()
      requires Valid() && (s.Pc(me).Statted? || s.Pc(me) == Bad)
      modifies this
      ensures Valid() && |turns| <= |old(turns)|
      ensures s.Pc(me) == if old(s.Pc(me)) == Statted(2) then Holding else Idle
      ensures old(run) <= run && exists ok :: Mine() == old(Mine()) + [Unlink(ok)]
    {
      var effect, report := Call();
      Take(me, Unlink(effect));
    }

    /**
     * create_exclusive: it opens up to five times while the name is taken, and
     * goes on when the last open made it or was the fifth. The rest are link
     * and stat as far as they work, and unlink.
     */
    method CreateExclusive() returns (r: Result, ghost opens: seq<Step>, ghost rest: seq<Step>)
      requires Valid() && s.Pc(me) == Idle
      modifies this
      ensures Valid() && s.Pc(me) == if r.Locked? then Holding else Idle
      ensures |turns| <= |old(turns)| && (|turns| == |old(turns)| ==> r == Failed(Other))
      ensures old(run) <= run && Mine() == old(Mine()) + [Start] + opens + rest
      ensures 1 <= |opens| <= 5 && forall i :: 0 <= i < |opens| ==> opens[i].Open?
      ensures forall i :: 0 <= i < |opens| - 1 ==> opens[i].report == Exists
      ensures forall i :: 0 <= i < |opens| ==> opens[i].report == Answer(old(turns), i).report
      ensures opens[|opens| - 1].report == Other ==> rest == [] && r == Failed(Other)
      ensures opens[|opens| - 1].report == Exists ==> |opens| == 5
      ensures opens[|opens| - 1].report != Other ==>
                |rest| >= 2 && rest[0].Link? && rest[|rest| - 1].Unlink? &&
                rest[0].report == Answer(old(turns), |opens|).report &&
                if rest[0].report != Fine then |rest| == 2 && r == Failed(rest[0].report)
                else |rest| == 3 && rest[1].Stat? &&
                     r == if !rest[1].ok then Failed(Other) else if rest[1].links == 2 then Locked else Failed(Exists)
    {
      hide *;
      Begin();
      ghost var was := turns;
      var ok;
      ok, opens := OpenFive();
      if !ok {
        return Failed(Other), opens, [];
      }
      NextAnswer(was, turns, |opens|);
      r, rest := LinkAndStat();
    }

    method Begin()
      requires Valid() && s.Pc(me) == Idle
      modifies `s, `run
      ensures Valid() && s.Pc(me) == Opening(0) && old(run) <= run && Mine() == old(Mine()) + [Start]
    {
      Take(me, Start);
    }

    /** Up to five opens. */
    method OpenFive() returns (ok: bool, ghost opens: seq<Step>)
      requires Valid() && s.Pc(me) == Opening(0)
      modifies this
      ensures Valid() && s.Pc(me) == if ok then Opened else Idle
      ensures |turns| <= |old(turns)| && (|turns| == |old(turns)| ==> !ok)
      ensures old(run) <= run && Mine() == old(Mine()) + opens
      ensures 1 <= |opens| <= 5 && forall i :: 0 <= i < |opens| ==> opens[i].Open?
      ensures forall i :: 0 <= i < |opens| - 1 ==> opens[i].report == Exists
      ensures forall i :: 0 <= i < |opens| ==> opens[i].report == Answer(old(turns), i).report
      ensures Called(old(turns), turns, |opens|)
      ensures ok <==> opens[|opens| - 1].report != Other
      ensures opens[|opens| - 1].report == Exists ==> |opens| == 5
    {
      var ntries := 0;
      opens := [];
      while ntries < TRIES
        invariant ntries == |opens| <= TRIES && Valid()
        invariant s.Pc(me) == if ntries < TRIES then Opening(ntries) else Opened
        invariant |turns| <= |old(turns)| && (|turns| == |old(turns)| ==> ntries == 0)
        invariant old(run) <= run && Mine() == old(Mine()) + opens
        invariant forall i :: 0 <= i < |opens| ==> opens[i].Open? && opens[i].report == Exists
        invariant forall i :: 0 <= i < |opens| ==> opens[i].report == Answer(old(turns), i).report
        invariant Called(old(turns), turns, |opens|)
      {
        var report;
        ghost var step;
        NextAnswer(old(turns), turns, |opens|);
        report, step := OpenTemp();
        opens := opens + [step];
        if report.Fine? {
          break;
        } else if report.Other? {
          return false, opens;
        }
        ntries := ntries + 1;
      }
      ok := true;
    }

    /** link and stat as far as they work, and the unlink in any case. */
    method LinkAndStat() returns (r: Result, ghost rest: seq<Step>)
      requires Valid() && s.Pc(me) == Opened
      modifies this
      ensures Valid() && s.Pc(me) == if r.Locked? then Holding else Idle
      ensures |turns| <= |old(turns)| && old(run) <= run && Mine() == old(Mine()) + rest
      ensures |rest| >= 2 && rest[0].Link? && rest[|rest| - 1].Unlink? &&
              rest[0].report == Answer(old(turns), 0).report &&
              if rest[0].report != Fine then |rest| == 2 && r == Failed(rest[0].report)
              else |rest| == 3 && rest[1].Stat? &&
                   r == if !rest[1].ok then Failed(Other) else if rest[1].links == 2 then Locked else Failed(Exists)
    {
      var report;
      ghost var before, made;
      report, before, made := LinkTemp();
      if !report.Fine? {
        UnlinkTemp();
        rest := [Link(made, report), Last(Mine())];
        return Failed(report), rest;
      }
      var ok, nlink := StatTemp();
      UnlinkTemp();
      rest := [Link(made, report), Stat(ok, nlink), Last(Mine())];
      if !ok {
        return Failed(Other), rest;
      }
      if nlink != 2 {
        return Failed(Exists), rest;
      }
      r := Locked;
    }

    /**
     * dot_lock: at most this process holds the lock afterwards. All tries but
     * the last found the lock taken, and it is tried again after these only.
     */
    method DotLock(pollinterval: int) returns (r: Result, ghost tries: seq<Result>)
      requires Valid() && s.Pc(me) == Idle
      modifies this
      ensures Valid() && s.Pc(me) == if r.Locked? then Holding else Idle
      ensures r.Locked? ==> forall q :: Owns(s, q) <==> q == me
      ensures tries != [] && Last(tries) == r && (r == Failed(Exists) ==> pollinterval == -1)
      ensures |tries| > 1 ==> pollinterval != -1
      ensures forall i :: 0 <= i < |tries| - 1 ==> tries[i] == Failed(Exists)
      ensures old(run) <= run && old(Mine()) <= Mine() && |old(Mine())| + 2 <= |Mine()|
      ensures var last := Mine()[|Mine()| - 1];
              if last.Open? then last.report == Other && r == Failed(Other)
              else last.Unlink? && Reported(Mine()[|Mine()| - 2], r)
      ensures pollinterval != -1 && Mine()[|Mine()| - 1].Unlink? ==>
                var prev := Mine()[|Mine()| - 2];
                (prev.Link? ==> prev.report != Exists) && (prev.Stat? && prev.ok ==> prev.links == 2)
      ensures Retried(Mine(), |old(Mine())|, |Mine()| - 1)
    {
      tries := [];
      while true
        invariant Valid() && s.Pc(me) == Idle
        invariant tries != [] ==> pollinterval != -1
        invariant forall i :: 0 <= i < |tries| ==> tries[i] == Failed(Exists)
        invariant old(run) <= run && old(Mine()) <= Mine()
        invariant Retried(Mine(), |old(Mine())|, |Mine()|)
        decreases |turns|
      {
        ghost var was := Mine();
        ghost var opens, rest;
        r, opens, rest := CreateExclusive();
        TrySteps(was, opens, rest, r, |old(Mine())|);
        tries := tries + [r];
        if r.Locked? {
          RunSafe(run);
          assert Owns(s, me);
          return;
        }
        if r.errno != Exists || pollinterval == -1 {
          return;
        }
      }
    }

    /** dot_unlock, by the holder. Whether its unlink works is not looked at; the lock is gone only if it does. */
    method DotUnlock() returns (effect: bool)
      requires Valid() && s.Pc(me) == Holding
      modifies this
      ensures Valid() && s.Pc(me) == Idle && (Lock in s.dir <==> !effect) && forall q :: !Owns(s, q)
      ensures old(run) <= run && Mine() == old(Mine()) + [Release(effect)] && effect == Answer(old(turns), 0).effect
    {
      var report;
      effect, report := Call();
      RunSafe(run);
      ghost var t := s;
      assert forall q :: Owns(t, q) <==> q == me by { assert Owns(t, me); }
      assert Lock in t.dir by { assert Owns(t, me); }
      Take(me, Release(effect));
      assert s.dir == if effect then t.dir - {Lock} else t.dir;
      assert forall q :: q != me ==> s.Pc(q) == t.Pc(q);
      assert forall q :: Owns(s, q) ==> Owns(t, q);
    }
  }
}
