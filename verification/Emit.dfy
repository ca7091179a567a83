/** update_line: the edits that turn the row on the screen from old into new. */
module Emit {
  import opened Cells
  import opened TerminalIO
  import opened RowPlan
  import opened Differ

  /** The buffers of one call: old is the row of Display, new the row of Vdisplay. */
  ghost predicate Setup(t: Terminal, old_: array<Cell>, new_: array<Cell>, line: int)
    reads t
  {
    && t.Valid()
    && 0 <= line < |t.display| && t.display[line] == old_ && old_ != new_
    && t.width < old_.Length
    && (t.caps.tabs ==> t.width <= 256)
  }

  /** The row on record starts with these cells. */
  ghost predicate OnRecord(old_: array<Cell>, text: seq<Cell>)
    reads old_
  {
    |text| <= old_.Length && forall k :: 0 <= k < |text| ==> old_[k] == text[k]
  }

  /** MoveToChar over cells that the editor has on record as they are. */
  method GoTo(t: Terminal, old_: array<Cell>, new_: array<Cell>, line: int, where: nat, ghost text: seq<Cell>)
    requires Setup(t, old_, new_, line) && t.cursorV == line && 0 <= t.cursorH
    requires At(t, t.cursorH, text)
    requires where <= |text| && where <= t.width && (forall k :: 0 <= k < where ==> old_[k] == text[k])
    modifies t`rows, t`realV, t`realH, t`cursorV, t`cursorH
    ensures At(t, t.cursorH, text) && t.cursorV == line
    ensures t.cursorH == if where < t.width then where else old(t.cursorH)
    ensures OnlyRow(t, line, old(t.rows))
  {
    assert t.Shown(line, where);
    t.MoveToChar(where);
  }

  /** What an edit of the first difference needs to know about the buffers, cell by cell. */
  ghost predicate Matched(o: seq<Cell>, n: seq<Cell>, f: int, nsb: int, nse: int, fx: int) {
    && 0 <= f <= nsb <= nse <= |n| && f <= nsb - fx && nse - fx <= |o|
    && (forall i :: 0 <= i < f ==> o[i] == n[i])
    && (forall i :: nsb <= i < nse ==> o[i - fx] == n[i])
  }

  /** str_cp of n cells that hold no NUL. */
  method CopyText(a: array<Cell>, b: array<Cell>, at: nat, n: nat)
    requires a != b && at + n <= a.Length && at + n <= b.Length
    requires forall i :: at <= i < at + n ==> b[i] != NUL
    modifies a
    ensures forall j :: 0 <= j < a.Length ==> a[j] == if at <= j < at + n then b[j] else old(a[j])
  {
    ghost var s := b[at..at + n];
    assert forall i :: 0 <= i < n ==> s[i] != NUL;
    assert Len(s) == n;
    StrCp(a, at, b, at, n);
  }

  /** str_insert and str_cp: the row on record follows InsertAndWrite. */
  method ShadowGrow(old_: array<Cell>, new_: array<Cell>, w: nat, f: int, nsb: int, nse: int, fx: nat)
    requires old_ != new_ && w < old_.Length && nse <= w
    requires Matched(old_[..], new_[..], f, nsb, nse, fx)
    requires forall i :: f <= i < nsb ==> new_[i] != NUL
    modifies old_
    ensures forall i :: 0 <= i < nse ==> old_[i] == new_[i]
  {
    if fx > 0 {
      StrInsert(old_, f, w, new_, f, fx);
    }
    CopyText(old_, new_, f + fx, (nsb - f) - fx);
  }

  /** str_delete and str_cp: the row on record follows DeleteAndWrite. */
  method ShadowShrink(old_: array<Cell>, new_: array<Cell>, w: nat, f: int, nsb: int, nse: int, fx: int)
    requires old_ != new_ && w < old_.Length && fx < 0 && nse - fx <= w && nsb - fx < w
    requires Matched(old_[..], new_[..], f, nsb, nse, fx)
    requires forall i :: f <= i < nsb ==> new_[i] != NUL
    modifies old_
    ensures forall i :: 0 <= i < nse ==> old_[i] == new_[i]
  {
    StrDelete(old_, f, w, -fx);
    CopyText(old_, new_, f, nsb - f);
  }

  // ----- the texts a row goes through -----

  /** The stretches of the two texts that a plan tells apart. */
  datatype Parts = Parts(x: seq<Cell>, a1: seq<Cell>, b1: seq<Cell>, m: seq<Cell>,
                         a2: seq<Cell>, b2: seq<Cell>, tail: seq<Cell>) {
    ghost function Old(): seq<Cell> { x + a1 + (m + (a2 + tail)) }

    /** Once the first difference has been dealt with. */
    ghost function Half(): seq<Cell> { x + b1 + (m + (a2 + tail)) }

    ghost function New(): seq<Cell> { x + b1 + (m + (b2 + tail)) }
  }

  ghost function PartsOf(p: Plan, o: seq<Cell>, n: seq<Cell>): (q: Parts)
    requires p.Sound(o, n)
  {
    Parts(n[..p.f], o[p.f..p.osb], n[p.f..p.nsb], n[p.nsb..p.nse], o[p.ose..p.ols], n[p.nse..p.nls], n[p.nls..p.ne])
  }

  /** The offsets of the plan agree with the stretches. */
  ghost predicate Measures(p: Plan, q: Parts) {
    && |q.x| == p.f
    && |q.a1| == p.osb - p.f && |q.b1| == p.nsb - p.f
    && |q.m| == p.ose - p.osb == p.nse - p.nsb
    && |q.a2| == p.ols - p.ose && |q.b2| == p.nls - p.nse
    && |q.tail| == p.oe - p.ols == p.ne - p.nls
  }

  /** Where the text of new says so. */
  ghost predicate Reads(p: Plan, q: Parts, n: seq<Cell>) {
    && Measures(p, q) && p.ne < |n|
    && n[p.f..p.nsb] == q.b1 && n[p.nse..p.nls] == q.b2
    && n[..p.nse] == q.x + q.b1 + q.m
    && (forall i :: 0 <= i < p.ne ==> n[i] != NUL)
  }

  lemma PlanParts(p: Plan, o: seq<Cell>, n: seq<Cell>)
    requires p.Sound(o, n) && p.ne < |n| && forall i :: 0 <= i < p.ne ==> n[i] != NUL
    ensures var q := PartsOf(p, o, n);
            Reads(p, q, n) && q.Old() == o[..p.oe] && q.New() == n[..p.ne] && q.x + q.a1 + q.m == o[..p.ose]
    ensures Matched(o, n, p.f, p.nsb, p.nse, p.Fx())
  {
    Split(p, o, n);
    forall i | 0 <= i < p.f ensures o[i] == n[i] {
      assert o[..p.f][i] == n[..p.f][i];
    }
    forall i | p.nsb <= i < p.nse ensures o[i - p.Fx()] == n[i] {
      assert o[p.osb..p.ose][i - p.nsb] == n[p.nsb..p.nse][i - p.nsb];
    }
  }

  /** What every stage is given: a plan for this screen and the texts it speaks of. */
  ghost predicate Given(t: Terminal, old_: array<Cell>, new_: array<Cell>, line: int, p: Plan, q: Parts)
    reads t, new_
  {
    && Setup(t, old_, new_, line) && t.cursorV == line && 0 <= t.cursorH
    && p.Settled() && p.Within(t.caps.CanIns(), t.caps.CanDel())
    && p.oe <= t.width && p.ne <= t.width
    && Reads(p, q, new_[..])
    // rows that differ where a match of unchanged place would start have no match
    && (p.Fx() == 0 ==> p.Sx() == 0)
  }

  /** The last column that an early insert must not push over the margin. */
  function LastUseful(p: Plan): int {
    if p.ols != p.oe then p.oe else p.ose
  }

  /** The first insert is made early. */
  predicate InsertsEarly(p: Plan, w: nat) {
    p.nsb != p.f && p.Fx() > 0 && LastUseful(p) + p.Fx() < w
  }

  lemma NothingKept(q: Parts)
    requires q.m == q.a2 == q.b2 == q.tail == []
    ensures q.Old() == q.x + q.a1 && q.New() == q.x + q.b1
  {
  }

  /** The first difference does not shrink, and something is kept behind it. */
  method GrowFirst(t: Terminal, old_: array<Cell>, new_: array<Cell>, line: int, p: Plan,
                   ghost q: Parts, ghost y: seq<Cell>)
    requires Given(t, old_, new_, line, p, q) && p.Fx() >= 0 && p.nsb != p.ne
    requires Matched(old_[..], new_[..], p.f, p.nsb, p.nse, p.Fx())
    requires At(t, p.f, q.x + q.a1 + y)
    modifies t`rows, t`realV, t`realH, t`cursorV, t`cursorH, t`inserting, old_
    ensures At(t, p.nsb, q.x + q.b1 + y) && OnlyRow(t, line, old(t.rows)) && t.cursorV == line
    ensures forall i :: 0 <= i < p.nse ==> old_[i] == new_[i]
  {
    hide Fit;
    InsertAndWrite(t, new_, p.f, p.Fx(), (p.nsb - p.f) - p.Fx(), q.x, q.a1, q.b1, y);
    ShadowGrow(old_, new_, t.width, p.f, p.nsb, p.nse, p.Fx());
  }

  /** The early first insert. */
  method EarlyInsert(t: Terminal, old_: array<Cell>, new_: array<Cell>, line: int, p: Plan, ghost q: Parts)
    returns (done: bool)
    requires Given(t, old_, new_, line, p, q) && InsertsEarly(p, t.width)
    requires Matched(old_[..], new_[..], p.f, p.nsb, p.nse, p.Fx())
    requires At(t, t.cursorH, q.Old())
    modifies t`rows, t`realV, t`realH, t`cursorV, t`cursorH, t`inserting, old_
    ensures t.Valid() && !t.inserting && OnlyRow(t, line, old(t.rows))
    ensures line <= t.cursorV <= line + 1
    ensures done == (p.nsb == p.ne)
    ensures done ==> t.InSync() && t.RowAt(line) == Fit(q.New(), t.width)
    ensures !done ==>
              && At(t, t.cursorH, q.Half()) && t.cursorV == line && 0 <= t.cursorH
              && (forall i :: 0 <= i < p.nse ==> old_[i] == new_[i])
  {
    hide Fit;
    hide Blanks;
    hide RowIn;
    GoTo(t, old_, new_, line, p.f, q.Old());
    if p.nsb != p.ne {
      GrowFirst(t, old_, new_, line, p, q, q.m + (q.a2 + q.tail));
      done := false;
    } else {
      NothingKept(q);
      WriteAndClear(t, new_, p.f, p.nsb - p.f, 0, q.x, q.a1, q.b1);
      CopyText(old_, new_, p.f, p.nsb - p.f);
      done := true;
    }
  }

  /** The first difference shrinks. */
  method FirstDelete(t: Terminal, old_: array<Cell>, new_: array<Cell>, line: int, p: Plan, ghost q: Parts)
    returns (done: bool)
    requires Given(t, old_, new_, line, p, q) && p.Fx() < 0
    requires Matched(old_[..], new_[..], p.f, p.nsb, p.nse, p.Fx())
    requires At(t, t.cursorH, q.Old())
    modifies t`rows, t`realV, t`realH, t`cursorV, t`cursorH, old_
    ensures t.Valid() && OnlyRow(t, line, old(t.rows)) && done == (p.osb == p.oe)
    ensures line <= t.cursorV <= line + 1
    ensures done ==>
              && t.RowAt(line) == Fit(q.New(), t.width)
              && (t.InSync() <==> t.caps.clearToEnd || p.oe < t.width)
    ensures !done ==>
              && At(t, t.cursorH, q.Half()) && t.cursorV == line && 0 <= t.cursorH
              && (forall i :: 0 <= i < p.nse ==> old_[i] == new_[i])
  {
    hide Fit;
    hide Blanks;
    hide RowIn;
    GoTo(t, old_, new_, line, p.f, q.Old());
    if p.osb != p.oe {
      DeleteAndWrite(t, new_, p.f, -p.Fx(), p.nsb - p.f, q.x, q.a1, q.b1, q.m + (q.a2 + q.tail));
      ShadowShrink(old_, new_, t.width, p.f, p.nsb, p.nse, p.Fx());
      done := false;
    } else {
      NothingKept(q);
      WriteAndClear(t, new_, p.f, p.nsb - p.f, p.oe - p.ne, q.x, q.a1, q.b1);
      done := true;
    }
  }

  /** SecondDelete blanks the row up to the right margin without the string ce. */
  predicate LosesCursor(t: Terminal, p: Plan, fx: int) {
    !t.caps.clearToEnd && p.ols == p.oe && p.ne < t.width <= p.oe + fx
  }

  lemma Regroup(q: Parts, left: seq<Cell>, z: seq<Cell>)
    ensures q.x + left + (q.m + (z + q.tail)) == (q.x + left + q.m) + z + q.tail
    ensures q.tail == [] ==> q.x + left + (q.m + (z + q.tail)) == (q.x + left + q.m) + z
    ensures q.x + left + (q.m + z) == (q.x + left) + (q.m + z)
  {
  }

  /** The first difference is dealt with, or its insertion has been put off. */
  predicate FirstDone(t: Terminal, p: Plan, fx: int) {
    if fx == p.Fx() then fx > 0 ==> InsertsEarly(p, t.width)
    else fx == 0 && p.Fx() > 0 && !InsertsEarly(p, t.width)
  }

  /**
   * The second difference shrinks. The first one is either dealt with (left is
   * q.b1) or still to come (left is q.a1). The row then shows z after the match.
   */
  method SecondDelete(t: Terminal, old_: array<Cell>, new_: array<Cell>, line: int, p: Plan, fx: int,
                      ghost q: Parts, ghost left: seq<Cell>) returns (ghost z: seq<Cell>)
    requires Given(t, old_, new_, line, p, q) && p.Sx() < 0
    requires |left| == p.osb - p.f + fx && FirstDone(t, p, fx)
    requires At(t, t.cursorH, q.x + left + (q.m + (q.a2 + q.tail)))
    requires OnRecord(old_, q.x + left + q.m)
    modifies t`rows, t`realV, t`realH, t`cursorV, t`cursorH
    ensures t.Valid() && 0 <= t.cursorH && OnlyRow(t, line, old(t.rows))
    ensures t.RowAt(line) == Fit(q.x + left + (q.m + z), t.width)
    // otherwise the late insert will push z over the margin
    ensures z == q.b2 + q.tail || (p.nse == p.ne == t.width && fx != p.Fx())
    ensures t.InSync() <==> !LosesCursor(t, p, fx)
    ensures line <= t.cursorV <= line + 1
    ensures fx == 0 ==> t.cursorV == line
  {
    Regroup(q, left, q.a2);
    Regroup(q, left, q.b2);
    GoTo(t, old_, new_, line, p.ose + fx, q.x + left + (q.m + (q.a2 + q.tail)));
    if p.ols != p.oe {
      DeleteAndWrite(t, new_, p.nse, -p.Sx(), p.nls - p.nse, q.x + left + q.m, q.a2, q.b2, q.tail);
      z := q.b2 + q.tail;
    } else {
      z := SecondDeleteEnd(t, old_, new_, line, p, fx, q, left);
    }
  }

  /** SecondDelete with nothing to keep behind the second difference. */
  method SecondDeleteEnd(t: Terminal, old_: array<Cell>, new_: array<Cell>, line: int, p: Plan, fx: int,
                         ghost q: Parts, ghost left: seq<Cell>) returns (ghost z: seq<Cell>)
    requires Given(t, old_, new_, line, p, q) && p.Sx() < 0 && p.ols == p.oe
    requires |left| == p.osb - p.f + fx && FirstDone(t, p, fx)
    requires At(t, p.ose + fx, (q.x + left + q.m) + q.a2)
    modifies t`rows, t`realV, t`realH, t`cursorV, t`cursorH
    ensures t.Valid() && 0 <= t.cursorH && OnlyRow(t, line, old(t.rows))
    ensures t.RowAt(line) == Fit(q.x + left + (q.m + z), t.width)
    ensures z == q.b2 + q.tail || (p.nse == p.ne == t.width && fx != p.Fx())
    ensures t.InSync() <==> !LosesCursor(t, p, fx)
    ensures line <= t.cursorV <= line + 1
    ensures fx == 0 ==> t.cursorV == line
  {
    Regroup(q, left, q.a2);
    Regroup(q, left, q.b2);
    var olen := Min(p.oe + fx, t.width);
    WriteAndClear(t, new_, p.nse, p.nls - p.nse, olen - p.ne, q.x + left + q.m, q.a2, q.b2);
    z := if fx == p.Fx() then q.b2 + q.tail else q.a2 + q.tail;
  }

  /** The first insert, if it was put off, or the overwriting of a first difference that keeps its length. */
  method LateInsert(t: Terminal, old_: array<Cell>, new_: array<Cell>, line: int, p: Plan,
                    ghost q: Parts, ghost z: seq<Cell>)
    requires Given(t, old_, new_, line, p, q) && p.nsb != p.f && p.Fx() >= 0
    requires Matched(old_[..], new_[..], p.f, p.nsb, p.nse, p.Fx())
    requires At(t, t.cursorH, q.x + q.a1 + (q.m + z))
    requires forall k :: 0 <= k < p.f ==> old_[k] == q.x[k]
    requires p.nsb == p.ne ==> z == []
    modifies t`rows, t`realV, t`realH, t`cursorV, t`cursorH, t`inserting, old_
    ensures At(t, t.cursorH, q.x + q.b1 + (q.m + z)) || p.nsb == p.ne == t.width
    ensures t.Valid() && t.InSync() && !t.inserting && 0 <= t.cursorH && OnlyRow(t, line, old(t.rows))
    ensures t.RowAt(line) == Fit(q.x + q.b1 + (q.m + z), t.width)
    ensures line <= t.cursorV <= line + 1
    ensures p.nsb != p.ne || p.ne < t.width ==> t.cursorV == line
    ensures forall i :: 0 <= i < p.nse ==> old_[i] == new_[i]
  {
    hide Fit;
    hide Blanks;
    hide RowIn;
    GoTo(t, old_, new_, line, p.f, q.x + q.a1 + (q.m + z));
    if p.nsb != p.ne {
      GrowFirst(t, old_, new_, line, p, q, q.m + z);
    } else {
      NothingLeft(q, z);
      WriteAndClear(t, new_, p.f, p.nsb - p.f, 0, q.x, q.a1, q.b1);
      CopyText(old_, new_, p.f, p.nsb - p.f);
    }
  }

  lemma NothingLeft(q: Parts, z: seq<Cell>)
    requires q.m == z == []
    ensures q.x + q.a1 + (q.m + z) == q.x + q.a1 && q.x + q.b1 + (q.m + z) == q.x + q.b1
  {
  }

  /** The second difference does not shrink: the row is new up to the end of the match. */
  method SecondInsert(t: Terminal, old_: array<Cell>, new_: array<Cell>, line: int, p: Plan, ghost q: Parts)
    requires Given(t, old_, new_, line, p, q) && p.Sx() >= 0 && p.nse < t.width
    requires At(t, t.cursorH, q.Half())
    requires forall i :: 0 <= i < p.nse ==> old_[i] == new_[i]
    modifies t`rows, t`realV, t`realH, t`cursorV, t`cursorH, t`inserting
    ensures t.Valid() && !t.inserting && t.InSync() && OnlyRow(t, line, old(t.rows))
    ensures line <= t.cursorV <= line + 1
    ensures t.RowAt(line) == Fit(q.New(), t.width)
  {
    hide Fit;
    Regroup(q, q.b1, q.a2);
    Regroup(q, q.b1, q.b2);
    ghost var x := q.x + q.b1 + q.m;
    assert forall k :: 0 <= k < p.nse ==> new_[k] == new_[..p.nse][k] == q.Half()[k];
    GoTo(t, old_, new_, line, p.nse, q.Half());
    if p.ols != p.oe {
      InsertAndWrite(t, new_, p.nse, p.Sx(), (p.nls - p.nse) - p.Sx(), x, q.a2, q.b2, q.tail);
    } else {
      WriteAndClear(t, new_, p.nse, p.nls - p.nse, 0, x, q.a2, q.b2);
    }
  }

  // ----- all the edits of one row -----

  /** What is left of fx when the second difference is looked at. */
  function FxNow(p: Plan, w: nat): int {
    if p.Fx() < 0 || InsertsEarly(p, w) then p.Fx() else 0
  }

  /** After the edits the editor no longer knows where the cursor is. */
  predicate EndsLost(t: Terminal, p: Plan) {
    || (!t.caps.clearToEnd && p.Fx() < 0 && p.osb == p.oe == t.width)
    || (p.Sx() < 0 && LosesCursor(t, p, FxNow(p, t.width)))
  }

  /** The edits of the first difference that come before those of the second. */
  method EmitFirst(t: Terminal, old_: array<Cell>, new_: array<Cell>, line: int, p: Plan, ghost q: Parts)
    returns (fx: int, done: bool, ghost left: seq<Cell>)
    requires Given(t, old_, new_, line, p, q)
    requires Matched(old_[..], new_[..], p.f, p.nsb, p.nse, p.Fx())
    requires OnRecord(old_, q.x + q.a1 + q.m)
    requires At(t, t.cursorH, q.Old())
    modifies t`rows, t`realV, t`realH, t`cursorV, t`cursorH, t`inserting, old_
    ensures t.Valid() && !t.inserting && OnlyRow(t, line, old(t.rows)) && fx == FxNow(p, t.width)
    ensures line <= t.cursorV <= line + 1
    ensures done ==> t.RowAt(line) == Fit(q.New(), t.width) && p.Sx() >= 0
    ensures done ==> (t.InSync() <==> !EndsLost(t, p))
    ensures !done ==> At(t, t.cursorH, q.x + left + (q.m + (q.a2 + q.tail))) && t.cursorV == line && 0 <= t.cursorH
    ensures !done ==> OnRecord(old_, q.x + left + q.m)
    ensures !done ==> left == if fx == 0 then q.a1 else q.b1
    ensures !done && fx == 0 ==> Matched(old_[..], new_[..], p.f, p.nsb, p.nse, p.Fx())
    ensures !done ==> !(p.Fx() < 0 && p.osb == p.oe)
  {
    hide Fit;
    left := q.b1;
    if InsertsEarly(p, t.width) {
      fx := p.Fx();
      done := EarlyInsert(t, old_, new_, line, p, q);
    } else if p.Fx() < 0 {
      fx := p.Fx();
      done := FirstDelete(t, old_, new_, line, p, q);
    } else {
      fx, done, left := 0, false, q.a1;
    }
    assert forall k :: 0 <= k < p.nse ==> new_[k] == new_[..p.nse][k];
  }

  /** The edits of the second difference when it shrinks, and the first one if it was put off. */
  method EmitShrinking(t: Terminal, old_: array<Cell>, new_: array<Cell>, line: int, p: Plan, fx: int,
                       ghost q: Parts, ghost left: seq<Cell>)
    requires Given(t, old_, new_, line, p, q) && p.Sx() < 0 && fx == FxNow(p, t.width)
    requires left == if fx == 0 then q.a1 else q.b1
    requires At(t, t.cursorH, q.x + left + (q.m + (q.a2 + q.tail))) && OnRecord(old_, q.x + left + q.m)
    requires fx == 0 ==> Matched(old_[..], new_[..], p.f, p.nsb, p.nse, p.Fx())
    requires !(p.Fx() < 0 && p.osb == p.oe)
    modifies t`rows, t`realV, t`realH, t`cursorV, t`cursorH, t`inserting, old_
    ensures t.Valid() && !t.inserting && 0 <= t.cursorH
    ensures t.RowAt(line) == Fit(q.New(), t.width) && OnlyRow(t, line, old(t.rows))
    ensures line <= t.cursorV <= line + 1
    ensures t.InSync() <==> !EndsLost(t, p)
  {
    hide Fit;
    hide Plan.Within;
    ghost var z := SecondDelete(t, old_, new_, line, p, fx, q, left);
    if p.nsb != p.f && p.osb - p.f <= p.nsb - p.f && fx == 0 {
      LateInsert(t, old_, new_, line, p, q, z);
    }
    if z != q.b2 + q.tail {
      FitCut(q.x + q.b1 + q.m, z, q.b2 + q.tail, t.width);
      Reassociate(q, z);
      Reassociate(q, q.b2 + q.tail);
    }
  }

  lemma Reassociate(q: Parts, z: seq<Cell>)
    ensures q.x + q.b1 + (q.m + z) == q.x + q.b1 + q.m + z
  {
  }

  /** All the edits, from the cursor in the row to the row showing new. */
  method EmitEdits(t: Terminal, old_: array<Cell>, new_: array<Cell>, line: int, p: Plan, ghost q: Parts)
    requires Given(t, old_, new_, line, p, q)
    requires Matched(old_[..], new_[..], p.f, p.nsb, p.nse, p.Fx())
    requires OnRecord(old_, q.x + q.a1 + q.m) && At(t, t.cursorH, q.Old())
    modifies t`rows, t`realV, t`realH, t`cursorV, t`cursorH, t`inserting, old_
    ensures t.Valid() && !t.inserting
    ensures t.RowAt(line) == Fit(q.New(), t.width) && OnlyRow(t, line, old(t.rows))
    ensures line <= t.cursorV <= line + 1
    ensures t.InSync() <==> !EndsLost(t, p)
  {
    hide Fit;
    var fx, done; ghost var left;
    fx, done, left := EmitFirst(t, old_, new_, line, p, q);
    if done {
      return;
    }
    if p.Sx() < 0 {
      EmitShrinking(t, old_, new_, line, p, fx, q, left);
      return;
    }
    if p.nsb != p.f && p.osb - p.f <= p.nsb - p.f && fx == 0 {
      LateInsert(t, old_, new_, line, p, q, q.a2 + q.tail);
    }
    if p.nse == t.width {
      // MoveToChar refuses the column past the margin and there is nothing to write
      Regroup(q, q.b1, q.a2);
      Regroup(q, q.b1, q.b2);
      FitCut(q.x + q.b1 + q.m, q.a2, q.b2, t.width);
    } else {
      SecondInsert(t, old_, new_, line, p, q);
    }
  }

  /** What Refresh has set up when it calls update_line. */
  ghost predicate Drawable(t: Terminal, new_: array<Cell>, line: int)
    requires t.Valid()
    reads t, new_, set l | 0 <= l < |t.display| :: t.display[l]
  {
    && 0 <= line < |t.display|
    && (forall l :: 0 <= l < |t.display| ==> t.width < t.display[l].Length && t.display[l] != new_)
    && (forall k, l :: 0 <= k < l < |t.display| ==> t.display[k] != t.display[l])
    && Len(t.display[line][..]) <= t.width && Len(new_[..]) <= t.width && Len(new_[..]) < new_.Length
    && t.RowAt(line) == Fit(t.display[line][..Len(t.display[line][..])], t.width)
  }

  /** The terminal can reach the row. */
  ghost predicate Reachable(t: Terminal, line: int)
    requires t.Valid()
    reads t, set l | 0 <= l < |t.display| :: t.display[l]
  {
    && t.InSync() && !t.inserting && 0 <= t.cursorV < |t.display|
    && (line < t.cursorV ==> t.caps.up)
    && (t.caps.tabs ==> t.width <= 256)
    && (t.caps.autoMargin ==> t.ShownBetween(t.cursorV, line))
  }

  /** A plan for the texts the buffers hold once their trailing blanks are cut. */
  ghost predicate PlanFor(p: Plan, o: seq<Cell>, n: seq<Cell>, canIns: bool, canDel: bool) {
    && p.Sound(o, n) && p.Settled() && p.Within(canIns, canDel)
    && p.oe == Len(o) < |o| && p.ne == Len(n) < |n|
    && (p.f < p.oe ==> o[p.f] != n[p.f])
  }

  /** A match that is not shifted would start at the first difference, where the rows differ. */
  lemma KeptPlace(p: Plan, o: seq<Cell>, n: seq<Cell>)
    requires p.Sound(o, n) && p.Settled() && p.Fx() == 0 && (p.f < p.oe ==> o[p.f] != n[p.f])
    ensures p.Sx() == 0
  {
  }

  /** The first difference, and both texts without their trailing blanks. */
  method TrimBoth(old_: array<Cell>, new_: array<Cell>, w: nat, keepBlanks: bool)
    returns (f: nat, oe: nat, ne: nat)
    requires old_ != new_ && Len(old_[..]) <= w < old_.Length && Len(new_[..]) <= w && Len(new_[..]) < new_.Length
    modifies old_, new_
    ensures f <= oe == Len(old_[..]) <= old(Len(old_[..])) && f <= ne == Len(new_[..]) <= old(Len(new_[..]))
    ensures Fit(old_[..oe], w) == Fit(old(old_[..Len(old_[..])]), w)
    ensures Fit(new_[..ne], w) == Fit(old(new_[..Len(new_[..])]), w)
    ensures f == Common(old_[..oe], new_[..ne])
    ensures old_[f] == NUL || old_[f] != new_[f]
    ensures (old_[..oe], new_[..ne]) == Trimmed(old(TextOf(old_[..])), old(TextOf(new_[..])), keepBlanks)
  {
    hide Fit;
    hide Len;
    hide TrimTo;
    hide Common;
    ghost var o, n := TextOf(old_[..]), TextOf(new_[..]);
    f := FindFirstDiff(old_, new_);
    oe := Strend(old_, f);
    assert old_[..oe] == o;
    oe := CutBlanks(old_, f, oe, keepBlanks);
    ne := Strend(new_, f);
    assert new_[..ne] == n;
    ne := CutBlanks(new_, f, ne, keepBlanks);
    TrimmedCommon(o, n, keepBlanks);
  }

  /** Everything update_line finds out before it moves the cursor. */
  method PlanLine(old_: array<Cell>, new_: array<Cell>, w: nat, keepBlanks: bool, canIns: bool, canDel: bool)
    returns (same: bool, p: Plan)
    requires old_ != new_ && Len(old_[..]) <= w < old_.Length && Len(new_[..]) <= w && Len(new_[..]) < new_.Length
    modifies old_, new_
    ensures Fit(old_[..Len(old_[..])], w) == Fit(old(old_[..Len(old_[..])]), w)
    ensures Fit(new_[..Len(new_[..])], w) == Fit(old(new_[..Len(new_[..])]), w)
    ensures Len(old_[..]) <= old(Len(old_[..])) && Len(new_[..]) <= old(Len(new_[..]))
    ensures same ==> old_[..Len(old_[..])] == new_[..Len(new_[..])] && p.Sx() == 0 == p.Fx()
    ensures !same ==> PlanFor(p, old_[..], new_[..], canIns, canDel)
    ensures p == PlanOn(old(TextOf(old_[..])), old(TextOf(new_[..])), keepBlanks, canIns, canDel)
  {
    hide Fit;
    hide Len;
    hide PlanOf;
    hide Trimmed;
    hide Common;
    var f, oe, ne := TrimBoth(old_, new_, w, keepBlanks);
    same := old_[f] == NUL && new_[f] == NUL;
    CommonWithin(old_[..oe], new_[..ne]);
    if same {
      LenAt(old_[..], f);
      LenAt(new_[..], f);
      assert old_[..oe] == new_[..ne];
      PlanOfSame(old_[..oe], canIns, canDel);
      p := Plan(f, f, f, f, f, f, f, f, f);
    } else {
      p := FindPlan(old_, new_, f, oe, ne, canIns, canDel);
      PlanIsFor(old_[..], new_[..], oe, ne, canIns, canDel);
    }
  }

  lemma CommonWithin(a: seq<Cell>, b: seq<Cell>)
    ensures var f := Common(a, b); f <= |a| && f <= |b| && a[..f] == b[..f]
  {
  }

  lemma PlanIsFor(o: seq<Cell>, n: seq<Cell>, oe: nat, ne: nat, canIns: bool, canDel: bool)
    requires oe == Len(o) < |o| && ne == Len(n) < |n|
    ensures PlanFor(PlanOf(o[..oe], n[..ne], canIns, canDel), o, n, canIns, canDel)
  {
    hide PlanOf;
    var a, b := o[..oe], n[..ne];
    PlanIsSound(a, b, canIns, canDel);
    SoundBeyond(PlanOf(a, b, canIns, canDel), o, n);
  }

  lemma SoundBeyond(p: Plan, o: seq<Cell>, n: seq<Cell>)
    requires 0 <= p.oe <= |o| && 0 <= p.ne <= |n| && p.Sound(o[..p.oe], n[..p.ne])
    ensures p.Sound(o, n)
  {
    SliceOfFront(o, 0, p.f, p.oe);
    SliceOfFront(o, p.osb, p.ose, p.oe);
    SliceOfFront(o, p.ols, p.oe, p.oe);
    SliceOfFront(n, 0, p.f, p.ne);
    SliceOfFront(n, p.nsb, p.nse, p.ne);
    SliceOfFront(n, p.nls, p.ne, p.ne);
  }

  lemma LenAt(s: seq<Cell>, f: nat)
    requires f <= Len(s) < |s| && s[f] == NUL
    ensures Len(s) == f
  {
  }

  /** MoveToLine, and what it leaves alone. */
  method GoToLine(t: Terminal, new_: array<Cell>, line: int)
    requires t.Valid() && Drawable(t, new_, line) && Reachable(t, line)
    modifies t`rows, t`realV, t`realH, t`cursorV, t`cursorH
    ensures t.Valid() && t.InSync() && t.cursorV == line && 0 <= t.cursorH
    ensures forall k :: RowIn(t.rows, k, t.width) == RowIn(old(t.rows), k, t.width)
    ensures t.RowAt(line) == old(t.RowAt(line))
  {
    t.MoveToLine(line);
    assert forall k :: RowIn(t.rows, k, t.width) == t.RowAt(k);
  }

  /** Everything update_line does to the terminal. */
  method EmitPlan(t: Terminal, new_: array<Cell>, line: int, p: Plan)
    requires t.Valid() && Drawable(t, new_, line) && Reachable(t, line)
    requires PlanFor(p, t.display[line][..], new_[..], t.caps.CanIns(), t.caps.CanDel())
    modifies t`rows, t`realV, t`realH, t`cursorV, t`cursorH, t`inserting, t.display[line]
    ensures t.Valid() && !t.inserting
    ensures t.RowAt(line) == Fit(new_[..Len(new_[..])], t.width) && OnlyRow(t, line, old(t.rows))
    ensures line <= t.cursorV <= line + 1
    ensures t.InSync() <==> !EndsLost(t, p)
  {
    hide Fit;
    hide Len;
    ghost var o, n := t.display[line][..], new_[..];
    PlanParts(p, o, n);
    if p.Fx() == 0 {
      KeptPlace(p, o, n);
    }
    GoToLine(t, new_, line);
    EmitEdits(t, t.display[line], new_, line, p, PartsOf(p, o, n));
  }

  /**
   * update_line. keepBlanks is the highlighting mode that leaves trailing blanks
   * alone. Whether the editor still knows where the cursor is depends on the
   * terminal and the two texts, as the lemmas below say.
   */
  method UpdateLine(t: Terminal, new_: array<Cell>, line: int, keepBlanks: bool)
    requires t.Valid() && Drawable(t, new_, line) && Reachable(t, line)
    modifies t`rows, t`realV, t`realH, t`cursorV, t`cursorH, t`inserting, t.display[line], new_
    ensures t.Valid() && !t.inserting
    ensures Len(new_[..]) <= old(Len(new_[..]))
    ensures Fit(new_[..Len(new_[..])], t.width) == Fit(old(new_[..Len(new_[..])]), t.width)
    ensures t.RowAt(line) == Fit(old(new_[..Len(new_[..])]), t.width) && OnlyRow(t, line, old(t.rows))
    ensures t.cursorV == old(t.cursorV) || line <= t.cursorV <= line + 1
    ensures t.InSync() <==> !CursorLost(t, old(TextOf(t.display[line][..])), old(TextOf(new_[..])), keepBlanks)
  {
    hide Fit;
    hide Len;
    hide PlanOn;
    var same, p := PlanLine(t.display[line], new_, t.width, keepBlanks, t.caps.CanIns(), t.caps.CanDel());
    if !same {
      EmitPlan(t, new_, line, p);
    }
  }

  /** The plan of update_line for the text on the screen and the new one. */
  function PlanOn(o: seq<Cell>, n: seq<Cell>, keepBlanks: bool, canIns: bool, canDel: bool): Plan {
    var (a, b) := Trimmed(o, n, keepBlanks);
    PlanOf(a, b, canIns, canDel)
  }

  /** The editor loses the cursor when it turns a row that shows o into one that shows n. */
  predicate CursorLost(t: Terminal, o: seq<Cell>, n: seq<Cell>, keepBlanks: bool) {
    EndsLost(t, PlanOn(o, n, keepBlanks, t.caps.CanIns(), t.caps.CanDel()))
  }

  lemma PlanOnEnds(t: Terminal, o: seq<Cell>, n: seq<Cell>, keepBlanks: bool)
    ensures var (a, b) := Trimmed(o, n, keepBlanks);
            var p := PlanOn(o, n, keepBlanks, t.caps.CanIns(), t.caps.CanDel());
            && p.Sound(a, b) && p.Settled() && p.oe == |a| <= |o| && p.ne == |b| <= |n| && p.f == Common(o, n)
  {
    hide PlanOf;
    var (a, b) := Trimmed(o, n, keepBlanks);
    TrimmedCommon(o, n, keepBlanks);
    PlanIsSound(a, b, t.caps.CanIns(), t.caps.CanDel());
  }

  /**
   * Whatever else the terminal can do, emptying a row loses the cursor exactly
   * when there is no string ce and the row is full to the margin.
   */
  lemma EmptyingLosesCursor(t: Terminal, o: seq<Cell>, keepBlanks: bool)
    requires 0 < t.width && |o| <= t.width
    ensures CursorLost(t, o, [], keepBlanks) <==>
            !t.caps.clearToEnd && |o| == t.width && (keepBlanks || o[t.width - 1] != BLANK)
  {
    hide PlanOn;
    PlanOnEnds(t, o, [], keepBlanks);
  }

  /** With the string ce, with room for both texts in the row, or when the new text fills the row, it is never lost. */
  lemma KeepsCursor(t: Terminal, o: seq<Cell>, n: seq<Cell>, keepBlanks: bool)
    requires || t.caps.clearToEnd || |o| + |n| < t.width
             || (|n| >= t.width > 0 && (keepBlanks || n[|n| - 1] != BLANK))
    ensures !CursorLost(t, o, n, keepBlanks)
  {
    hide PlanOn;
    PlanOnEnds(t, o, n, keepBlanks);
  }

  /**
   * Tabs on a terminal of more than 256 columns. A cell is put behind the row, the cursor stands in the row at column
   * 256 or further, and tabs are the way to go: the first move of update_line goes too far. It is right only where the
   * tabs end at the last column and that is the place.
   */
  method TabsOvershoot(t: Terminal, new_: array<Cell>, line: int, c: Cell, keepBlanks: bool)
    returns (p: Plan)
    requires t.Valid() && Drawable(t, new_, line) && t.InSync() && !t.inserting && t.cursorV == line
    requires c != NUL && c != BLANK && TextOf(new_[..]) == TextOf(t.display[line][..]) + [c]
    requires t.TabOverrun(t.cursorH, Len(t.display[line][..]))
    modifies t`rows, t`realV, t`realH, t`cursorV, t`cursorH, t.display[line], new_
    ensures p == PlanOn(old(TextOf(t.display[line][..])), old(TextOf(new_[..])), keepBlanks,
                        t.caps.CanIns(), t.caps.CanDel())
    ensures p.f == old(Len(t.display[line][..])) == t.cursorH
    ensures t.InSync() <==> t.Stopped(p.f)
  {
    hide Len;
    hide Fit;
    hide PlanOn;
    ghost var o, n := TextOf(t.display[line][..]), TextOf(new_[..]);
    CommonIs(o, n, |o|);
    var same;
    same, p := PlanLine(t.display[line], new_, t.width, keepBlanks, t.caps.CanIns(), t.caps.CanDel());
    PlanOnEnds(t, o, n, keepBlanks);
    FitSame(t.display[line][..p.oe], o, t.width);
    OverrunTo(t, line, p.f);
  }

  lemma FitSame(a: seq<Cell>, b: seq<Cell>, w: nat)
    requires |a| == |b| <= w && Fit(a, w) == Fit(b, w)
    ensures a == b && forall i :: 0 <= i < |a| ==> a[i] == Fit(a, w)[i]
  {
    forall i | 0 <= i < |a|
      ensures a[i] == b[i]
    {
      assert Fit(a, w)[i] == Fit(b, w)[i];
    }
  }

  /** The moves of update_line to the first difference. */
  method OverrunTo(t: Terminal, line: int, f: int)
    requires t.Valid() && t.InSync() && !t.inserting && t.cursorV == line
    requires 0 <= line < |t.display| && forall l :: 0 <= l < |t.display| ==> t.width < t.display[l].Length
    requires f < t.width && t.TabOverrun(t.cursorH, f) && t.Shown(line, f)
    modifies t`rows, t`realV, t`realH, t`cursorV, t`cursorH
    ensures t.cursorH == f && (t.InSync() <==> t.Stopped(f))
  {
    t.MoveToLine(line);
    t.MoveToChar(f);
  }
}
