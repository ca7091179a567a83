/** Refresh of ed.refresh.c from the input line to the screen. */
module Screen {
  import opened Cells
  import opened TerminalIO
  import opened RowPlan
  import opened Emit
  import opened Refresh
  import Sequences
  import Layout
  import DrawLine

  ghost predicate NulFree(rows: seq<string>) {
    forall r :: 0 <= r < |rows| ==> NUL !in rows[r]
  }

  lemma {:induction false} AddCellsNulFree(rows: seq<string>, s: string, th: nat)
    requires rows != [] && NulFree(rows) && NUL !in s
    ensures NulFree(Layout.AddCells(rows, s, th))
    decreases |s|
  {
    if s != "" {
      var init := s[..|s| - 1];
      AddCellsNulFree(rows, init, th);
      var t := Layout.AddCells(rows, init, th);
      assert s[|s| - 1] in s && NUL !in Sequences.Last(t);
    }
  }

  lemma {:induction false} AddAllNulFree(rows: seq<string>, gs: seq<Layout.Glyph>, th: nat)
    requires Layout.Laid(rows, th) && NulFree(rows) && forall g :: g in gs ==> Layout.Sane(g)
    ensures NulFree(Layout.AddAll(rows, gs, th))
    decreases |gs|
  {
    if gs != [] {
      var init, g := gs[..|gs| - 1], gs[|gs| - 1];
      AddAllNulFree(rows, init, th);
      var t := Layout.AddAll(rows, init, th);
      assert g in gs;
      if g.Newline? {
        assert Layout.AddGlyph(t, g, th) == t + [""];
      } else {
        AddCellsNulFree(t, Layout.Cells(g, |Sequences.Last(t)|, th), th);
      }
    }
  }

  /** A row closed by a NUL holds its line. */
  lemma HoldsLine(d: DrawLine.VDisplay, r: nat, line: string)
    requires d.RowIs(r, line, true) && NUL !in line
    ensures Len(d.rows[r][..]) == |line| && Text(d.rows[r]) == line
  {
    assert forall i :: 0 <= i < |line| ==> line[i] in line;
    LenIs(d.rows[r][..], |line|);
  }

  /** The buffers of the display are none of those the terminal is compared with. */
  ghost predicate Aside(t: Terminal, d: DrawLine.VDisplay) {
    d.width == t.width && forall l :: 0 <= l < |d.rows| ==> Apart(t, d.rows[l])
  }

  /**
   * Refresh: prompt and input are laid out in the virtual display, the rows of
   * the screen are brought up to date, and the cursor goes to its place.
   */
  method RefreshScreen(t: Terminal, d: DrawLine.VDisplay, prompt: seq<Layout.Glyph>, input: seq<Layout.Glyph>,
                       cursor: nat, empty: array<Cell>, oldV: int, keepBlanks: bool) returns (newV: nat)
    requires t.Valid() && Ready(t) && Capable(t) && Aside(t, d) && DrawLine.Separate(d.rows, d.width)
    requires Apart(t, empty) && empty !in d.rows && 0 < empty.Length && empty[0] == NUL
    requires cursor <= |input| && forall g :: g in prompt + input ==> Layout.Sane(g)
    requires var n := |Layout.AddAll([""], prompt + input, t.width)|; n <= |d.rows| && n < |t.display|
    requires oldV + 1 < |t.display| && 0 <= t.cursorV < |t.display|
    requires var lines := Layout.AddAll([""], prompt + input, t.width);
             && (forall l :: 0 <= l < |lines| ==> Safe(t, l, lines[l], keepBlanks))
             && (forall l :: |lines| <= l <= oldV ==> Safe(t, l, [], keepBlanks))
    modifies t`rows, t`realV, t`realH, t`cursorV, t`cursorH, t`inserting, t.display, d, d.rows, empty
    ensures t.Valid() && Ready(t)
    ensures var lines := Layout.AddAll([""], prompt + input, t.width);
            && newV == |lines| - 1
            && (forall l :: 0 <= l <= newV ==> t.RowAt(l) == Fit(lines[l], t.width))
            && (forall l :: newV < l <= oldV ==> t.RowAt(l) == Blanks(t.width))
            && (forall l :: l < 0 || (newV < l && oldV < l) ==> t.RowAt(l) == old(t.RowAt(l)))
    ensures var cur := Layout.DrawnAll(Layout.Pos(0, 0), prompt + input[..cursor], t.width);
            (t.realV, t.realH) == (cur.v, cur.h)
    ensures forall l :: 0 <= l <= newV ==> Drawn(t, l)
  {
    var cur;
    hide CursorLost;
    newV, cur := Compose(t, d, prompt, input, cursor);
    RefreshLines(t, d.rows[..newV + 1], empty, newV, oldV, cur.v, cur.h, keepBlanks);
  }

  /** What one key shows on the first row. */
  function KeyRow(c: char): string
    requires 0 < c as int < 256 && c != '\n' && c != '\t'
  {
    var n := c as int;
    if n < 32 then "^" + [(n + 64) as char]
    else if n < 127 then [c]
    else if n == 127 then "^?"
    else "\\" + [Layout.Digit(n / 64), Layout.Digit(n / 8 % 8), Layout.Digit(n % 8)]
  }

  /** Refresh of an input of one key, without a prompt: the first row shows it, and the cursor stands behind it. */
  method ShowKey(t: Terminal, d: DrawLine.VDisplay, c: char, empty: array<Cell>, oldV: int, keepBlanks: bool)
    requires t.Valid() && Ready(t) && Capable(t) && Aside(t, d) && DrawLine.Separate(d.rows, d.width)
    requires Apart(t, empty) && empty !in d.rows && 0 < empty.Length && empty[0] == NUL
    requires 4 < t.width && 0 < c as int < 256 && c != '\n' && c != '\t'
    requires 0 < |d.rows| && 1 < |t.display| && oldV + 1 < |t.display| && 0 <= t.cursorV < |t.display|
    requires Safe(t, 0, KeyRow(c), keepBlanks) && forall l :: 1 <= l <= oldV ==> Safe(t, l, [], keepBlanks)
    modifies t`rows, t`realV, t`realH, t`cursorV, t`cursorH, t`inserting, t.display, d, d.rows, empty
    ensures t.Valid() && Ready(t) && t.RowAt(0) == Fit(KeyRow(c), t.width)
    ensures (t.realV, t.realH) == (0, |KeyRow(c)|)
  {
    hide CursorLost;
    ghost var gs := [Layout.GlyphOf(c)];
    KeyLine(c, t.width);
    hide Layout.AddAll;
    hide Layout.DrawnAll;
    assert [] + gs == gs && gs[..1] == gs;
    var newV := RefreshScreen(t, d, [], [Layout.GlyphOf(c)], 1, empty, oldV, keepBlanks);
  }

  lemma KeyLine(c: char, th: nat)
    requires 4 < th && 0 < c as int < 256 && c != '\n' && c != '\t'
    ensures var gs := [Layout.GlyphOf(c)];
            && Layout.AddAll([""], gs, th) == [KeyRow(c)]
            && Layout.DrawnAll(Layout.Pos(0, 0), gs, th) == Layout.Pos(|KeyRow(c)|, 0)
  {
    Layout.OneKey(c, th);
    KeyEnd([Layout.GlyphOf(c)], KeyRow(c), th);
  }

  lemma KeyEnd(gs: seq<Layout.Glyph>, row: string, th: nat)
    requires 0 < th && Layout.AddAll([""], gs, th) == [row]
    ensures Layout.DrawnAll(Layout.Pos(0, 0), gs, th) == Layout.Pos(|row|, 0)
  {
  }

  /** Counting and drawing come to the same place: no tab crosses a margin, and no character two. */
  predicate Counts(gs: seq<Layout.Glyph>, th: nat) {
    1 < th && forall g :: g in gs ==> Layout.Sane(g) && (g.Tab? ==> th % 8 == 0) && (g.Illegal? ==> 4 <= th)
  }

  /**
   * RefCursor: the cursor goes to the counted position, which is drawn, and
   * nothing is drawn. Where counting and drawing agree this is the place where
   * Refresh would put it.
   */
  method RefCursor(t: Terminal, prompt: seq<Layout.Glyph>, input: seq<Layout.Glyph>, cursor: nat)
    requires t.Valid() && Ready(t) && Capable(t) && 0 <= t.cursorV < |t.display| && cursor <= |input|
    requires var p := Layout.CalculatedAll(Layout.Pos(0, 0), prompt + input[..cursor], t.width);
             p.v < |t.display| && Drawn(t, p.v)
    modifies t`rows, t`realV, t`realH, t`cursorV, t`cursorH
    ensures t.Valid() && Ready(t) && forall l :: t.RowAt(l) == old(t.RowAt(l))
    ensures var p := Layout.CalculatedAll(Layout.Pos(0, 0), prompt + input[..cursor], t.width);
            t.realV == p.v && (p.h < t.width ==> t.realH == p.h)
    ensures Counts(prompt + input[..cursor], t.width) ==>
              var cur := Layout.DrawnAll(Layout.Pos(0, 0), prompt + input[..cursor], t.width);
              (t.realV, t.realH) == (cur.v, cur.h)
  {
    hide Layout.CalculatedAll;
    hide Layout.DrawnAll;
    var p := DrawLine.RefCursor(prompt, input, cursor, t.width);
    if Counts(prompt + input[..cursor], t.width) {
      SamePlace(prompt + input[..cursor], t.width);
    }
    PlaceCursor(t, p.v, p.h);
  }

  lemma SamePlace(gs: seq<Layout.Glyph>, th: nat)
    requires Counts(gs, th)
    ensures var cur := Layout.DrawnAll(Layout.Pos(0, 0), gs, th);
            Layout.CalculatedAll(Layout.Pos(0, 0), gs, th) == cur && cur.h < th
  {
    Layout.LineAgrees(Layout.Pos(0, 0), gs, th);
  }

  /** The first half: the display holds the lines, each closed, and the terminal is as it was. */
  method Compose(t: Terminal, d: DrawLine.VDisplay, prompt: seq<Layout.Glyph>, input: seq<Layout.Glyph>, cursor: nat)
    returns (newV: nat, cur: Layout.Pos)
    requires t.Valid() && Ready(t) && Aside(t, d) && DrawLine.Separate(d.rows, d.width)
    requires cursor <= |input| && forall g :: g in prompt + input ==> Layout.Sane(g)
    requires |Layout.AddAll([""], prompt + input, t.width)| <= |d.rows|
    modifies d, d.rows
    ensures t.Valid() && Ready(t)
    ensures var lines := Layout.AddAll([""], prompt + input, t.width);
            && newV == |lines| - 1 && Composed(t, d.rows[..newV + 1])
            && forall l :: 0 <= l <= newV ==> Text(d.rows[l]) == lines[l]
    ensures cur == Layout.DrawnAll(Layout.Pos(0, 0), prompt + input[..cursor], t.width)
    ensures cur.v <= newV && cur.h < t.width
  {
    hide Layout.AddAll;
    hide Layout.DrawnAll;
    hide Composed;
    hide Closed;
    hide OnFile;
    newV, cur := LayOut(d, prompt, input, cursor);
    LinesHeld(t, d, prompt, input, cursor);
    assert forall l :: 0 <= l < |t.display| ==> old(OnFile(t, l)) && OnFile(t, l);
  }

  /** What is laid out fits the screen, and the cursor is in it. */
  lemma LinesHeld(t: Terminal, d: DrawLine.VDisplay, prompt: seq<Layout.Glyph>, input: seq<Layout.Glyph>, cursor: nat)
    requires 0 < t.width && Aside(t, d) && Closed(d, Layout.AddAll([""], prompt + input, t.width))
    requires cursor <= |input| && forall g :: g in prompt + input ==> Layout.Sane(g)
    ensures var lines := Layout.AddAll([""], prompt + input, t.width);
            && 0 < |lines| <= |d.rows| && Composed(t, d.rows[..|lines|])
            && forall l :: 0 <= l < |lines| ==> Text(d.rows[l]) == lines[l]
    ensures var cur := Layout.DrawnAll(Layout.Pos(0, 0), prompt + input[..cursor], t.width);
            cur.v < |Layout.AddAll([""], prompt + input, t.width)| && cur.h < t.width
  {
    hide Layout.AddAll;
    hide Layout.DrawnAll;
    hide Composed;
    LinesLaid(prompt + input, t.width);
    CursorWithin(prompt, input, cursor, t.width);
    AllHeld(t, d, Layout.AddAll([""], prompt + input, t.width));
  }

  lemma LinesLaid(gs: seq<Layout.Glyph>, th: nat)
    requires 0 < th && forall g :: g in gs ==> Layout.Sane(g)
    ensures var lines := Layout.AddAll([""], gs, th);
            && 0 < |lines| && Layout.DrawnAll(Layout.Pos(0, 0), gs, th).v == |lines| - 1
            && NulFree(lines) && forall r :: 0 <= r < |lines| ==> |lines[r]| <= th
  {
    AddAllNulFree([""], gs, th);
  }

  /** Every line is in its buffer, closed by a NUL. */
  ghost predicate Closed(d: DrawLine.VDisplay, lines: seq<string>)
    reads d, d.rows
  {
    && DrawLine.Separate(d.rows, d.width) && |lines| <= |d.rows|
    && forall r :: 0 <= r < |lines| ==> d.RowIs(r, lines[r], true)
  }

  method LayOut(d: DrawLine.VDisplay, prompt: seq<Layout.Glyph>, input: seq<Layout.Glyph>, cursor: nat)
    returns (newV: nat, cur: Layout.Pos)
    requires DrawLine.Separate(d.rows, d.width) && 0 < d.width && cursor <= |input|
    requires |Layout.AddAll([""], prompt + input, d.width)| <= |d.rows|
    modifies d, d.rows
    ensures var lines := Layout.AddAll([""], prompt + input, d.width); newV == |lines| - 1 && Closed(d, lines)
    ensures cur == Layout.DrawnAll(Layout.Pos(0, 0), prompt + input[..cursor], d.width)
  {
    ghost var lines := Layout.AddAll([""], prompt + input, d.width);
    hide Layout.AddAll;
    hide Layout.DrawnAll;
    d.h, d.v := 0, 0;
    cur := DrawLine.DrawInput(d, prompt, input, cursor);
    newV := d.v;
    d.Close(lines);
  }

  lemma AllHeld(t: Terminal, d: DrawLine.VDisplay, lines: seq<string>)
    requires Aside(t, d) && Closed(d, lines) && NulFree(lines) && forall r :: 0 <= r < |lines| ==> |lines[r]| <= t.width
    ensures Composed(t, d.rows[..|lines|])
    ensures forall l :: 0 <= l < |lines| ==> Text(d.rows[l]) == lines[l]
  {
    forall l | 0 <= l < |lines|
      ensures Text(d.rows[l]) == lines[l] && Len(d.rows[l][..]) == |lines[l]|
    {
      HoldsLine(d, l, lines[l]);
    }
  }

  lemma CursorWithin(prompt: seq<Layout.Glyph>, input: seq<Layout.Glyph>, cursor: nat, th: nat)
    requires th > 0 && cursor <= |input|
    ensures Layout.DrawnAll(Layout.Pos(0, 0), prompt + input[..cursor], th).v
         <= Layout.DrawnAll(Layout.Pos(0, 0), prompt + input, th).v
    ensures Layout.DrawnAll(Layout.Pos(0, 0), prompt + input[..cursor], th).h < th
  {
    hide Layout.AddAll;
    hide Layout.DrawnAll;
    var all := prompt + input;
    assert all[..|prompt| + cursor] == prompt + input[..cursor];
    DrawLine.Growing([""], all, |prompt| + cursor, th);
    RowOfEnd(all[..|prompt| + cursor], th);
    RowOfEnd(all, th);
  }

  lemma RowOfEnd(gs: seq<Layout.Glyph>, th: nat)
    requires 0 < th
    ensures |Layout.AddAll([""], gs, th)| == Layout.DrawnAll(Layout.Pos(0, 0), gs, th).v + 1
    ensures Layout.DrawnAll(Layout.Pos(0, 0), gs, th).h < th
  {
  }
}
