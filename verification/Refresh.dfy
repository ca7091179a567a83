/** The line loop of Refresh: every row of the screen is brought up to date. */
module Refresh {
  import opened Cells
  import opened TerminalIO
  import opened RowPlan
  import opened Differ
  import opened Emit

  /** The text in a buffer. */
  ghost function Text(a: array<Cell>): seq<Cell>
    reads a
  {
    a[..Len(a[..])]
  }

  /** Row l is on record: Display holds it, filled out to the margin unless never drawn. */
  ghost predicate OnFile(t: Terminal, l: int)
    requires t.Valid() && 0 <= l < |t.display|
    reads t, t.display[l]
  {
    && t.width < t.display[l].Length
    && (t.display[l][0] == NUL || Len(t.display[l][..]) == t.width)
    && t.RowAt(l) == Fit(Text(t.display[l]), t.width)
  }

  lemma OnFileShown(t: Terminal, l: int)
    requires t.Valid() && 0 <= l < |t.display| && OnFile(t, l) && t.display[l][0] != NUL
    ensures t.Shown(l, t.width)
  {
    forall k | 0 <= k < t.width ensures t.display[l][k] == t.RowAt(l)[k] {
      assert t.display[l][k] == Text(t.display[l])[k];
    }
  }

  lemma FitNul(s: seq<Cell>, w: nat)
    requires forall i :: 0 <= i < |s| ==> s[i] != NUL
    ensures forall i :: 0 <= i < w ==> Fit(s, w)[i] != NUL
    ensures Fit(Fit(s, w), w) == Fit(s, w)
  {
  }

  lemma LenIs(s: seq<Cell>, n: nat)
    requires n < |s| && s[n] == NUL && forall i :: 0 <= i < n ==> s[i] != NUL
    ensures Len(s) == n
  {
  }

  /** The buffers are separate and every row of the screen is on record. */
  ghost predicate Ready(t: Terminal)
    requires t.Valid()
    reads t, t.display
  {
    && (forall k, l :: 0 <= k < l < |t.display| ==> t.display[k] != t.display[l])
    && (forall l :: 0 <= l < |t.display| ==> OnFile(t, l))
    && t.InSync() && !t.inserting
  }

  /** The terminal can go up, and its tabs are safe. */
  predicate Capable(t: Terminal) {
    t.caps.up && (t.caps.tabs ==> t.width <= 256)
  }

  /** update_line keeps track of the cursor when it brings row l to text; with the string ce it always does. */
  ghost predicate Safe(t: Terminal, l: int, text: seq<Cell>, keepBlanks: bool)
    requires 0 <= l < |t.display|
    reads t.display[l]
  {
    !CursorLost(t, Text(t.display[l]), text, keepBlanks)
  }

  /** Display holds a drawn row here. */
  ghost predicate Drawn(t: Terminal, l: int)
    requires 0 <= l < |t.display|
    reads t.display[l]
  {
    0 < t.display[l].Length && t.display[l][0] != NUL
  }

  /** new is none of the buffers of Display. */
  ghost predicate Apart(t: Terminal, new_: array<Cell>) {
    forall l :: 0 <= l < |t.display| ==> t.display[l] != new_
  }

  lemma ReadyDraws(t: Terminal, new_: array<Cell>, line: int)
    requires t.Valid() && Ready(t) && Capable(t) && Apart(t, new_)
    requires 0 <= line < |t.display| && 0 <= t.cursorV < |t.display|
    requires Len(new_[..]) <= t.width && Len(new_[..]) < new_.Length
    ensures Drawable(t, new_, line) && Reachable(t, line)
  {
    assert OnFile(t, line);
    forall l | 0 <= l < |t.display|
      ensures t.width < t.display[l].Length && (t.display[l][0] != NUL ==> t.Shown(l, t.width))
    {
      assert OnFile(t, l);
      if t.display[l][0] != NUL {
        OnFileShown(t, l);
      }
    }
  }

  /** cpy_pad_spaces puts a row that shows the new text on record. */
  method Record(t: Terminal, new_: array<Cell>, line: int)
    requires t.Valid() && 0 <= line < |t.display| && t.display[line] != new_
    requires t.width < t.display[line].Length && Len(new_[..]) < new_.Length
    requires t.RowAt(line) == Fit(Text(new_), t.width)
    modifies t.display[line]
    ensures OnFile(t, line) && Drawn(t, line)
  {
    CpyPadSpaces(t.display[line], new_, t.width);
    FitNul(Text(new_), t.width);
    assert t.display[line][..t.width] == Fit(Text(new_), t.width);
    LenIs(t.display[line][..], t.width);
  }

  /** One turn of the loop: update_line, then cpy_pad_spaces. */
  method RefreshRow(t: Terminal, new_: array<Cell>, line: int, keepBlanks: bool)
    requires t.Valid() && Ready(t) && Capable(t) && Apart(t, new_)
    requires 0 <= line < |t.display| && 0 <= t.cursorV < |t.display|
    requires Len(new_[..]) <= t.width && Len(new_[..]) < new_.Length
    requires Safe(t, line, Text(new_), keepBlanks)
    modifies t`rows, t`realV, t`realH, t`cursorV, t`cursorH, t`inserting, t.display[line], new_
    ensures t.Valid() && Ready(t)
    ensures t.RowAt(line) == Fit(old(Text(new_)), t.width) && Drawn(t, line)
    ensures OnlyRow(t, line, old(t.rows))
    ensures t.cursorV == old(t.cursorV) || line <= t.cursorV <= line + 1
  {
    hide Fit;
    hide Len;
    hide CursorLost;
    ReadyDraws(t, new_, line);
    UpdateLine(t, new_, line, keepBlanks);
    Record(t, new_, line);
    forall l | 0 <= l < |t.display| ensures OnFile(t, l) {
      if l != line {
        assert old(OnFile(t, l)) && t.RowAt(l) == old(t.RowAt(l));
      }
    }
  }

  /** A row that is no longer used: update_line towards the empty text, then end the buffer at once. */
  method ClearRow(t: Terminal, empty: array<Cell>, line: int, keepBlanks: bool)
    requires t.Valid() && Ready(t) && Capable(t) && Apart(t, empty)
    requires 0 <= line < |t.display| && 0 <= t.cursorV < |t.display|
    requires 0 < empty.Length && empty[0] == NUL && Safe(t, line, [], keepBlanks)
    modifies t`rows, t`realV, t`realH, t`cursorV, t`cursorH, t`inserting, t.display[line], empty
    ensures t.Valid() && Ready(t) && empty[0] == NUL
    ensures t.RowAt(line) == Blanks(t.width)
    ensures OnlyRow(t, line, old(t.rows))
    ensures t.cursorV == old(t.cursorV) || line <= t.cursorV <= line + 1
  {
    hide CursorLost;
    LenIs(empty[..], 0);
    assert Text(empty) == [];
    ReadyDraws(t, empty, line);
    UpdateLine(t, empty, line, keepBlanks);
    assert t.RowAt(line) == Blanks(t.width) && empty[0] == NUL;
    t.display[line][0] := NUL;
    LenIs(t.display[line][..], 0);
    forall l | 0 <= l < |t.display| ensures OnFile(t, l) {
      if l != line {
        assert old(OnFile(t, l)) && t.RowAt(l) == old(t.RowAt(l));
      }
    }
  }

  /** The buffers of Vdisplay are separate, and their texts fit the screen. */
  ghost predicate Composed(t: Terminal, vdisplay: seq<array<Cell>>)
    reads vdisplay
  {
    && (forall k, l :: 0 <= k < l < |vdisplay| ==> vdisplay[k] != vdisplay[l])
    && (forall l :: 0 <= l < |vdisplay| ==>
          Apart(t, vdisplay[l]) && Len(vdisplay[l][..]) <= t.width && Len(vdisplay[l][..]) < vdisplay[l].Length)
  }

  /** The rows up to newV, which show Vdisplay afterwards. */
  method RefreshUsed(t: Terminal, vdisplay: seq<array<Cell>>, newV: nat, keepBlanks: bool)
    requires t.Valid() && Ready(t) && Capable(t) && Composed(t, vdisplay)
    requires newV < |vdisplay| && newV + 1 < |t.display| && 0 <= t.cursorV < |t.display|
    requires forall l :: 0 <= l <= newV ==> Safe(t, l, Text(vdisplay[l]), keepBlanks)
    modifies t`rows, t`realV, t`realH, t`cursorV, t`cursorH, t`inserting, t.display, vdisplay
    ensures t.Valid() && Ready(t) && 0 <= t.cursorV < |t.display|
    ensures forall l :: 0 <= l <= newV ==> t.RowAt(l) == Fit(old(Text(vdisplay[l])), t.width)
    ensures forall l :: 0 <= l <= newV ==> Drawn(t, l)
    ensures forall l :: l < 0 || newV < l ==> t.RowAt(l) == old(t.RowAt(l))
    ensures forall l :: newV < l < |t.display| ==> t.display[l][..] == old(t.display[l][..])
  {
    hide Fit;
    hide Len;
    hide CursorLost;
    var curLine := 0;
    while curLine <= newV
      invariant 0 <= curLine <= newV + 1
      invariant t.Valid() && Ready(t) && 0 <= t.cursorV < |t.display|
      invariant forall l :: curLine <= l < |vdisplay| ==> vdisplay[l][..] == old(vdisplay[l][..])
      invariant forall l :: curLine <= l < |t.display| ==> t.display[l][..] == old(t.display[l][..])
      invariant forall l :: 0 <= l < curLine ==> Drawn(t, l)
      invariant forall l :: 0 <= l < curLine ==> t.RowAt(l) == Fit(old(Text(vdisplay[l])), t.width)
      invariant forall l :: l < 0 || curLine <= l ==> t.RowAt(l) == old(t.RowAt(l))
    {
      assert old(Safe(t, curLine, Text(vdisplay[curLine]), keepBlanks));
      RefreshRow(t, vdisplay[curLine], curLine, keepBlanks);
      curLine := curLine + 1;
    }
  }

  /** The rows after newV that the last Refresh used, which are blank afterwards. */
  method ClearUnused(t: Terminal, empty: array<Cell>, newV: nat, oldV: int, keepBlanks: bool)
    requires t.Valid() && Ready(t) && Capable(t) && Apart(t, empty) && 0 < empty.Length && empty[0] == NUL
    requires newV + 1 < |t.display| && oldV + 1 < |t.display| && 0 <= t.cursorV < |t.display|
    requires forall l :: newV < l <= oldV ==> Safe(t, l, [], keepBlanks)
    modifies t`rows, t`realV, t`realH, t`cursorV, t`cursorH, t`inserting, t.display, empty
    ensures t.Valid() && Ready(t) && 0 <= t.cursorV < |t.display|
    ensures forall l :: newV < l <= oldV ==> t.RowAt(l) == Blanks(t.width)
    ensures forall l :: l <= newV || oldV < l ==> t.RowAt(l) == old(t.RowAt(l))
    ensures forall l :: 0 <= l <= newV && old(Drawn(t, l)) ==> Drawn(t, l)
  {
    hide CursorLost;
    var curLine := newV + 1;
    while curLine <= oldV
      invariant newV < curLine && (curLine <= oldV + 1 || curLine == newV + 1)
      invariant t.Valid() && Ready(t) && 0 <= t.cursorV < |t.display| && empty[0] == NUL
      invariant forall l :: curLine <= l < |t.display| ==> t.display[l][..] == old(t.display[l][..])
      invariant forall l :: newV < l < curLine ==> t.RowAt(l) == Blanks(t.width)
      invariant forall l :: l <= newV || curLine <= l ==> t.RowAt(l) == old(t.RowAt(l))
      invariant forall l :: 0 <= l <= newV && old(Drawn(t, l)) ==> Drawn(t, l)
    {
      ghost var before := t.rows;
      assert forall l :: newV < l < curLine ==> RowIn(before, l, t.width) == t.RowAt(l) == Blanks(t.width);
      assert old(Safe(t, curLine, [], keepBlanks));
      ClearRow(t, empty, curLine, keepBlanks);
      curLine := curLine + 1;
    }
  }

  /**
   * The second half of Refresh: given the rows composed in Vdisplay up to newV,
   * and the last row oldV used by the previous call, the screen shows exactly
   * these rows and the cursor is where it belongs.
   */
  method RefreshLines(t: Terminal, vdisplay: seq<array<Cell>>, empty: array<Cell>,
                      newV: nat, oldV: int, curV: nat, curH: nat, keepBlanks: bool)
    requires t.Valid() && Ready(t) && Capable(t) && Composed(t, vdisplay)
    requires Apart(t, empty) && empty !in vdisplay && 0 < empty.Length && empty[0] == NUL
    requires newV < |vdisplay| && newV + 1 < |t.display| && oldV + 1 < |t.display| && 0 <= t.cursorV < |t.display|
    requires curV <= newV && curH < t.width
    requires forall l :: 0 <= l <= newV ==> Safe(t, l, Text(vdisplay[l]), keepBlanks)
    requires forall l :: newV < l <= oldV ==> Safe(t, l, [], keepBlanks)
    modifies t`rows, t`realV, t`realH, t`cursorV, t`cursorH, t`inserting, t.display, vdisplay, empty
    ensures t.Valid() && Ready(t)
    ensures forall l :: 0 <= l <= newV ==> t.RowAt(l) == Fit(old(Text(vdisplay[l])), t.width)
    ensures forall l :: newV < l <= oldV ==> t.RowAt(l) == Blanks(t.width)
    ensures forall l :: l < 0 || (newV < l && oldV < l) ==> t.RowAt(l) == old(t.RowAt(l))
    ensures (t.realV, t.realH) == (curV, curH) && forall l :: 0 <= l <= newV ==> Drawn(t, l)
  {
    hide Fit;
    hide Len;
    hide CursorLost;
    RefreshUsed(t, vdisplay, newV, keepBlanks);
    forall l | newV < l <= oldV
      ensures Safe(t, l, [], keepBlanks)
    {
      assert old(Safe(t, l, [], keepBlanks));
    }
    assert Drawn(t, curV);
    ClearUnused(t, empty, newV, oldV, keepBlanks);
    PlaceCursor(t, curV, curH);
  }

  /** MoveToLine and MoveToChar to the place of the cursor in the input line. */
  method PlaceCursor(t: Terminal, curV: nat, curH: nat)
    requires t.Valid() && Ready(t) && Capable(t) && 0 <= t.cursorV < |t.display|
    requires curV < |t.display| && Drawn(t, curV)
    modifies t`rows, t`realV, t`realH, t`cursorV, t`cursorH
    ensures t.Valid() && Ready(t) && t.realV == curV && (curH < t.width ==> t.realH == curH)
    ensures forall l :: t.RowAt(l) == old(t.RowAt(l))
  {
    forall l | 0 <= l < |t.display|
      ensures t.width < t.display[l].Length && (t.display[l][0] != NUL ==> t.Shown(l, t.width))
    {
      assert OnFile(t, l);
      if t.display[l][0] != NUL {
        OnFileShown(t, l);
      }
    }
    t.MoveToLine(curV);
    assert curH < t.width ==> t.Shown(curV, curH);
    t.MoveToChar(curH);
    forall l | 0 <= l < |t.display| ensures OnFile(t, l) {
      assert old(OnFile(t, l)) && t.RowAt(l) == old(t.RowAt(l));
    }
  }
}
