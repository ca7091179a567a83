/** The steps of dotlock.c, taken by any number of processes in any order. */
module LockProtocol {
  import opened Sequences

  datatype Name = Lock | Temp(p: nat)

  datatype Inode = Inode(owner: nat, serial: nat)

  /** What a system call reports; over NFS it may report wrongly. */
  datatype Report = Fine | Exists | Other

  /** Where a process is: the call it makes next. */
  datatype Pc = Idle | Opening(tries: nat) | Opened | Linked | Statted(links: nat) | Bad | Holding | Dead

  datatype State = State(dir: map<Name, Inode>, next: nat, pcs: map<nat, Pc>) {
    function Pc(p: nat): Pc {
      if p in pcs then pcs[p] else Idle
    }

    function At(p: nat, pc: Pc): State {
      this.(pcs := pcs[p := pc])
    }

    function Unlinked(n: Name): State {
      this.(dir := dir - {n})
    }
  }

  datatype Step =
    | Start
    | Open(effect: bool, report: Report)
    | Link(effect: bool, report: Report)
    | Stat(ok: bool, links: nat)
    | Unlink(ok: bool)
    | Release(ok: bool)
    | Crash

  const TRIES := 5

  function Links(dir: map<Name, Inode>, ino: Inode): nat {
    |set n | n in dir && dir[n] == ino|
  }

  /** A name that is taken stops open and link, and a name that is not there stops link and stat. */
  predicate Can(s: State, p: nat, step: Step) {
    var pc := s.Pc(p);
    match step
    case Start => pc == Idle
    case Open(effect, report) => pc.Opening? && (effect ==> Temp(p) !in s.dir)
    case Link(effect, _) => pc == Opened && (effect ==> Temp(p) in s.dir && Lock !in s.dir)
    case Stat(ok, links) => pc == Linked && (ok ==> Temp(p) in s.dir && links == Links(s.dir, s.dir[Temp(p)]))
    case Unlink(_) => pc == Bad || pc.Statted?
    case Release(_) => pc == Holding
    case Crash => pc != Dead
  }

  function Do(s: State, p: nat, step: Step): State
    requires Can(s, p, step)
  {
    match step
    case Start => s.At(p, Opening(0))
    case Open(effect, report) =>
      var t := if effect then s.(dir := s.dir[Temp(p) := Inode(p, s.next)], next := s.next + 1) else s;
      if report.Fine? || (report.Exists? && s.Pc(p).tries + 1 >= TRIES) then t.At(p, Opened)
      else if report.Exists? then t.At(p, Opening(s.Pc(p).tries + 1))
      else t.At(p, Idle)
    case Link(effect, report) =>
      var t := if effect then s.(dir := s.dir[Lock := s.dir[Temp(p)]]) else s;
      t.At(p, if report.Fine? then Linked else Bad)
    case Stat(ok, links) => s.At(p, if ok then Statted(links) else Bad)
    case Unlink(ok) =>
      var t := if ok then s.Unlinked(Temp(p)) else s;
      t.At(p, if s.Pc(p) == Statted(2) then Holding else Idle)
    case Release(ok) => (if ok then s.Unlinked(Lock) else s).At(p, Idle)
    case Crash => s.At(p, Dead)
  }

  // ----- runs -----

  datatype Event = Event(p: nat, step: Step)

  const INIT := State(map[], 0, map[])

  /** The state the events lead to; None when one of them cannot happen. */
  function Run(s: State, run: seq<Event>): Option<State> {
    if run == [] then Some(s)
    else
      match Run(s, run[..|run| - 1])
      case None => None
      case Some(t) =>
        var e := run[|run| - 1];
        if Can(t, e.p, e.step) then Some(Do(t, e.p, e.step)) else None
  }

  /** The steps of one process, in order. */
  ghost function Steps(run: seq<Event>, p: nat): seq<Step> {
    if run == [] then []
    else
      var t := Steps(run[..|run| - 1], p);
      if Last(run).p == p then t + [Last(run).step] else t
  }

  // ----- safety -----

  /** The process has won: it holds the lock, or is about to. */
  predicate Owns(s: State, p: nat) {
    s.Pc(p) == Statted(2) || s.Pc(p) == Holding
  }

  ghost predicate Inv(s: State) {
    && (forall n :: n in s.dir ==> s.dir[n].serial < s.next)
    && (forall p :: Temp(p) in s.dir ==> s.dir[Temp(p)].owner == p)
    && (forall p :: Owns(s, p) ==> Lock in s.dir && s.dir[Lock].owner == p)
  }

  /** The count of links tells whether the lock is one's own. */
  lemma LinkCount(s: State, p: nat)
    requires Inv(s) && Temp(p) in s.dir
    ensures Links(s.dir, s.dir[Temp(p)]) == 2 <==> Lock in s.dir && s.dir[Lock] == s.dir[Temp(p)]
  {
    var ino := s.dir[Temp(p)];
    var names := set n | n in s.dir && s.dir[n] == ino;
    assert forall n :: n in names ==> n == Lock || n == Temp(p);
    if Lock in s.dir && s.dir[Lock] == ino {
      assert names == {Lock, Temp(p)};
    } else {
      assert names == {Temp(p)};
    }
  }

  lemma StepSafe(s: State, p: nat, step: Step)
    requires Inv(s) && Can(s, p, step)
    ensures Inv(Do(s, p, step))
  {
    if step.Stat? && step.ok {
      LinkCount(s, p);
    }
    var t := Do(s, p, step);
    assert forall q :: q != p ==> t.Pc(q) == s.Pc(q);
    forall q | Owns(t, q)
      ensures Lock in t.dir && t.dir[Lock].owner == q
    {
      if q != p {
        assert Owns(s, q);
        assert !step.Release? by { assert Owns(s, p) <== step.Release?; }
      } else if step.Unlink? {
        assert Owns(s, p);
      }
    }
  }

  lemma {:induction false} RunSafe(run: seq<Event>)
    requires Run(INIT, run).Some?
    ensures Inv(Run(INIT, run).value)
    decreases |run|
  {
    if run != [] {
      RunSafe(run[..|run| - 1]);
      var e := run[|run| - 1];
      StepSafe(Run(INIT, run[..|run| - 1]).value, e.p, e.step);
    }
  }

  /** In every interleaving at most one process holds the lock, whatever open and link report. */
  lemma MutualExclusion(run: seq<Event>, p: nat, q: nat)
    requires var r := Run(INIT, run); r.Some? && Owns(r.value, p) && Owns(r.value, q)
    ensures p == q
  {
    RunSafe(run);
  }

  // ----- a lost reply -----

  /** The lock is there, and nobody can come to own it. */
  ghost predicate Stuck(s: State) {
    && Inv(s) && Lock in s.dir && (forall p :: !Owns(s, p))
    && (forall p :: Temp(p) in s.dir ==> s.dir[Temp(p)] != s.dir[Lock])
  }

  lemma StepStuck(s: State, p: nat, step: Step)
    requires Stuck(s) && Can(s, p, step)
    ensures Stuck(Do(s, p, step))
  {
    StepSafe(s, p, step);
    if step.Stat? && step.ok {
      LinkCount(s, p);
    }
    var t := Do(s, p, step);
    assert !Owns(s, p) && s.dir[Lock].serial < s.next;
    assert t.dir[Lock] == s.dir[Lock];
    assert forall q :: Temp(q) in t.dir ==> Temp(q) in s.dir || q == p;
    forall q
      ensures !Owns(t, q)
    {
      assert !Owns(s, q);
      assert q != p ==> t.Pc(q) == s.Pc(q);
    }
  }

  /** Once stuck, the lock is never had again. */
  lemma {:induction false} StuckForever(s: State, run: seq<Event>)
    requires Stuck(s) && Run(s, run).Some?
    ensures Stuck(Run(s, run).value)
    decreases |run|
  {
    if run != [] {
      StuckForever(s, run[..|run| - 1]);
      var e := run[|run| - 1];
      StepStuck(Run(s, run[..|run| - 1]).value, e.p, e.step);
    }
  }

  /** A link that was made but reported as failed leaves the lock stuck. */
  lemma LostReplySticks(s: State, p: nat, report: Report, ok: bool)
    requires Inv(s) && Can(s, p, Link(true, report)) && !report.Fine?
    ensures var t := Do(s, p, Link(true, report));
            Can(t, p, Unlink(true)) && Stuck(Do(t, p, Unlink(true)))
  {
    var t := Do(s, p, Link(true, report));
    StepSafe(s, p, Link(true, report));
    StepSafe(t, p, Unlink(true));
    var u := Do(t, p, Unlink(true));
    forall q
      ensures !Owns(u, q)
    {
      assert q != p ==> u.Pc(q) == s.Pc(q);
      assert !Owns(s, q);
    }
  }

  // ----- without faults -----

  /** The calls report what they did, unlink works, and nobody crashes. */
  predicate Honest(s: State, p: nat, step: Step) {
    match step
    case Open(effect, report) => effect && report.Fine?
    case Link(effect, report) => (effect <==> report.Fine?) && (effect <==> Lock !in s.dir)
    case Stat(ok, _) => ok
    case Unlink(ok) => ok
    case Release(ok) => ok
    case Crash => false
    case Start => true
  }

  /** p has made the link that is the lock. */
  predicate Made(s: State, p: nat) {
    Owns(s, p) || (s.Pc(p) == Linked && Temp(p) in s.dir && Lock in s.dir && s.dir[Temp(p)] == s.dir[Lock])
  }

  /** The lock is there just as long as its owner is taking or holding it. */
  ghost predicate Live(s: State) {
    && Inv(s)
    && (Lock in s.dir ==> Made(s, s.dir[Lock].owner))
    && (forall p :: Temp(p) in s.dir <==> s.Pc(p) == Opened || s.Pc(p) == Linked || s.Pc(p).Statted? || s.Pc(p) == Bad)
    && (forall p :: s.Pc(p) == Linked ==> Made(s, p))
    && (forall p :: s.Pc(p).Statted? ==> s.Pc(p).links == 2)
  }

  lemma StepLive(s: State, p: nat, step: Step)
    requires Live(s) && Can(s, p, step) && Honest(s, p, step)
    ensures Live(Do(s, p, step))
  {
    StepSafe(s, p, step);
    var t := Do(s, p, step);
    assert forall q :: q != p ==> t.Pc(q) == s.Pc(q);
    if step.Stat? {
      LinkCount(s, p);
    }
    if step.Release? {
      assert Owns(s, p);
    }
    if Lock in t.dir {
      var o := t.dir[Lock].owner;
      if Lock in s.dir {
        assert Made(s, o) && t.dir[Lock] == s.dir[Lock];
        assert Made(t, o);
      }
    }
    forall q | t.Pc(q) == Linked
      ensures Made(t, q)
    {
      if q != p {
        assert Made(s, q);
      }
    }
  }

  /** Without faults the lock is never left behind. */
  lemma {:induction false} NeverLeftBehind(run: seq<Event>)
    requires Run(INIT, run).Some?
    requires forall i :: 0 <= i < |run| ==> HonestAt(run, i)
    ensures Live(Run(INIT, run).value)
    decreases |run|
  {
    if run != [] {
      var init, e := run[..|run| - 1], run[|run| - 1];
      assert HonestAt(run, |run| - 1);
      forall i | 0 <= i < |init|
        ensures HonestAt(init, i)
      {
        assert HonestAt(run, i) && init[..i] == run[..i];
      }
      NeverLeftBehind(init);
      StepLive(Run(INIT, init).value, e.p, e.step);
    }
  }

  ghost predicate HonestAt(run: seq<Event>, i: nat)
    requires i < |run|
  {
    Run(INIT, run[..i]).Some? && Honest(Run(INIT, run[..i]).value, run[i].p, run[i].step)
  }

  // ----- a lock that outlives its owner -----

  /** The lock is there, and the one who made it is neither taking nor holding it. */
  predicate Orphaned(s: State) {
    Lock in s.dir && !Made(s, s.dir[Lock].owner)
  }

  /** The link was made and reported as failed, stat failed after it, dot_unlock could not unlink, or the owner died. */
  predicate Abandons(s: State, p: nat, step: Step) {
    match step
    case Link(effect, report) => effect && !report.Fine?
    case Stat(ok, _) => !ok && Made(s, p)
    case Release(ok) => !ok
    case Crash => Made(s, p)
    case _ => false
  }

  /** The owner comes back to a temporary file that is still linked to the lock, and a link is falsely reported. */
  predicate Adopts(s: State, p: nat, step: Step) {
    step == Link(false, Fine) && Temp(p) in s.dir && Lock in s.dir && s.dir[Temp(p)] == s.dir[Lock]
  }

  /** One step: exactly these steps orphan the lock and take it back. */
  lemma StepOrphans(s: State, p: nat, step: Step)
    requires Inv(s) && Can(s, p, step)
    ensures Orphaned(Do(s, p, step)) <==> Abandons(s, p, step) || (Orphaned(s) && !Adopts(s, p, step))
  {
    var t := Do(s, p, step);
    assert forall q :: q != p ==> t.Pc(q) == s.Pc(q);
    if step.Stat? && step.ok {
      LinkCount(s, p);
    }
    if Owns(s, p) {
      assert Lock in s.dir && s.dir[Lock].owner == p;
    }
  }

  /** The last step of the run that orphaned the lock or took it back did the former. */
  ghost predicate LeftBehind(run: seq<Event>)
    requires Run(INIT, run).Some?
    decreases |run|
  {
    if run == [] then false
    else
      var init, e := run[..|run| - 1], run[|run| - 1];
      var s := Run(INIT, init).value;
      Abandons(s, e.p, e.step) || (LeftBehind(init) && !Adopts(s, e.p, e.step))
  }

  /** A lock file outlives its owner in a run exactly when it is left behind in this way. */
  lemma {:induction false} OutlivesOwner(run: seq<Event>)
    requires Run(INIT, run).Some?
    ensures Orphaned(Run(INIT, run).value) <==> LeftBehind(run)
    decreases |run|
  {
    if run != [] {
      var init, e := run[..|run| - 1], run[|run| - 1];
      OutlivesOwner(init);
      RunSafe(init);
      StepOrphans(Run(INIT, init).value, e.p, e.step);
    }
  }

  lemma RunOne(s: State, e: Event)
    requires Can(s, e.p, e.step)
    ensures Run(s, [e]) == Some(Do(s, e.p, e.step))
  {
    assert [e][..0] == [];
  }

  lemma RunOn(s: State, run: seq<Event>, e: Event)
    requires var t := Run(s, run); t.Some? && Can(t.value, e.p, e.step)
    ensures Run(s, run + [e]) == Some(Do(Run(s, run).value, e.p, e.step))
  {
    assert (run + [e])[..|run|] == run;
  }

  /** A process alone at a free lock gets it. */
  lemma AloneGetsIt(s: State, p: nat)
    requires Inv(s) && s.Pc(p) == Idle && Lock !in s.dir && Temp(p) !in s.dir
    ensures var r := Run(s, [Event(p, Start)] + [Event(p, Open(true, Fine))] + [Event(p, Link(true, Fine))]
                            + [Event(p, Stat(true, 2))] + [Event(p, Unlink(true))]);
            r.Some? && r.value.Pc(p) == Holding
  {
    var a := Do(s, p, Start);
    var b := Do(a, p, Open(true, Fine));
    var c := Do(b, p, Link(true, Fine));
    StepSafe(s, p, Start);
    StepSafe(a, p, Open(true, Fine));
    StepSafe(b, p, Link(true, Fine));
    LinkCount(c, p);
    var d := Do(c, p, Stat(true, 2));
    assert d.Pc(p) == Statted(2);
    hide Run;
    hide Inv;
    hide Links;
    var run := [Event(p, Start)];
    RunOne(s, Event(p, Start));
    RunOn(s, run, Event(p, Open(true, Fine)));
    run := run + [Event(p, Open(true, Fine))];
    RunOn(s, run, Event(p, Link(true, Fine)));
    run := run + [Event(p, Link(true, Fine))];
    RunOn(s, run, Event(p, Stat(true, 2)));
    run := run + [Event(p, Stat(true, 2))];
    RunOn(s, run, Event(p, Unlink(true)));
  }
}
