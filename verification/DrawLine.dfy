/** The virtual display of ed.refresh.c: Draw, Vdraw, and the cursor that RefCursor works out without drawing. */
module DrawLine {
  import opened Sequences
  import opened Layout

  /** The buffers of the rows are different ones, with room for a NUL behind the last column. */
  ghost predicate Separate(rows: seq<array<char>>, width: nat) {
    && (forall k, l :: 0 <= k < l < |rows| ==> rows[k] != rows[l])
    && forall r :: 0 <= r < |rows| ==> width < rows[r].Length
  }

  class VDisplay {
    const width: nat
    const rows: seq<array<char>>
    var h: nat
    var v: nat

    /** The display over its buffers, with the cursor in the corner. */
    constructor (width: nat, rows: seq<array<char>>)
      requires 0 < width && rows != [] && Separate(rows, width)
      ensures Holds([""]) && this.width == width && this.rows == rows
    {
      this.width, this.rows := width, rows;
      h, v := 0, 0;
    }

    /** The lines stand in the buffers, all but the last closed by a NUL, and the cursor is behind them. */
    ghost predicate Holds(lines: seq<string>)
      reads this, rows
    {
      && Separate(rows, width) && Laid(lines, width) && End(lines) == Pos(h, v) && |lines| <= |rows|
      && forall r :: 0 <= r < |lines| ==> RowIs(r, lines[r], r < |lines| - 1)
    }

    ghost predicate RowIs(r: nat, line: string, closed: bool)
      reads this, rows
    {
      && r < |rows| && |line| < rows[r].Length
      && (forall c :: 0 <= c < |line| ==> rows[r][c] == line[c])
      && (closed ==> rows[r][|line|] == NUL)
    }

    /** Vdraw of one column */
    method Vdraw(c: char, ghost lines: seq<string>)
      requires Holds(lines) && |AddCell(lines, c, width)| <= |rows|
      modifies this, rows
      ensures Holds(AddCell(lines, c, width)) && h == if old(h) + 1 >= width then 0 else old(h) + 1
    {
      ghost var lines' := AddCell(lines, c, width);
      rows[v][h] := c;
      h := h + 1;
      if h >= width {
        rows[v][width] := NUL;
        h := 0;
        v := v + 1;
      }
      forall r | 0 <= r < |lines'|
        ensures RowIs(r, lines'[r], r < |lines'| - 1)
      {
        assert r < |lines| ==> RowIs(r, lines[r], r < |lines| - 1);
      }
    }

    /** Vdraw of the NUL behind everything. */
    method Close(ghost lines: seq<string>)
      requires Holds(lines)
      modifies this, rows
      ensures Separate(rows, width) && forall r :: 0 <= r < |lines| ==> RowIs(r, lines[r], true)
    {
      rows[v][h] := NUL;
      h := h + 1;
      if h >= width {
        rows[v][width] := NUL;
        h := 0;
        v := v + 1;
      }
      forall r | 0 <= r < |lines|
        ensures RowIs(r, lines[r], true)
      {
        assert old(RowIs(r, lines[r], r < |lines| - 1));
      }
    }

    /** Several cells, one after the other. */
    method VdrawAll(s: string, ghost lines: seq<string>)
      requires Holds(lines) && |AddCells(lines, s, width)| <= |rows|
      modifies this, rows
      ensures Holds(AddCells(lines, s, width))
    {
      for k := 0 to |s|
        invariant Holds(AddCells(lines, s[..k], width))
      {
        Partial(lines, s, k + 1, width);
        assert s[..k + 1][..k] == s[..k];
        Vdraw(s[k], AddCells(lines, s[..k], width));
      }
      assert s[..|s|] == s;
    }

    /** Draw: a newline closes its row. */
    method DrawNewline(ghost lines: seq<string>)
      requires Holds(lines) && |lines| < |rows|
      modifies this, rows
      ensures Holds(lines + [""])
    {
      rows[v][h] := NUL;
      h := 0;
      v := v + 1;
      forall r | 0 <= r <= |lines|
        ensures RowIs(r, (lines + [""])[r], r < |lines|)
      {
        assert r < |lines| ==> RowIs(r, lines[r], r < |lines| - 1);
      }
    }

    /** Draw: blanks until the column is a multiple of eight, which after a margin it is. */
    method DrawTab(ghost lines: seq<string>)
      requires Holds(lines) && |AddGlyph(lines, Tab, width)| <= |rows|
      modifies this, rows
      ensures Holds(AddGlyph(lines, Tab, width))
    {
      ghost var s := Cells(Tab, h, width);
      assert |Last(lines)| == h;
      hide AddCells;
      hide TabCells;
      hide RowIs;
      hide Laid;
      Blanks(lines, s);
    }

    method Blanks(ghost lines: seq<string>, ghost s: string)
      requires h < width && |s| == TabCells(h, width) && forall k :: 0 <= k < |s| ==> s[k] == ' '
      requires Holds(lines) && |AddCells(lines, s, width)| <= |rows|
      modifies this, rows
      ensures Holds(AddCells(lines, s, width))
    {
      hide TabCells, AddCells;
      ghost var k, h0 := 0, h;
      NoBlanks(lines, s, h, width);
      while true
        invariant k < |s| && Holds(AddCells(lines, s[..k], width)) && h == h0 + k
        decreases |s| - k
      {
        TabStep(h0, k, width);
        OneBlank(lines, s, k);
        k := k + 1;
        if h % 8 == 0 {
          break;
        }
      }
      assert s[..|s|] == s;
    }

    method OneBlank(ghost lines: seq<string>, ghost s: string, ghost k: nat)
      requires k < |s| && s[k] == ' ' && lines != []
      requires Holds(AddCells(lines, s[..k], width)) && |AddCells(lines, s, width)| <= |rows|
      modifies this, rows
      ensures Holds(AddCells(lines, s[..k + 1], width)) && h == if old(h) + 1 >= width then 0 else old(h) + 1
    {
      Partial(lines, s, k + 1, width);
      assert s[..k + 1][..k] == s[..k];
      Vdraw(' ', AddCells(lines, s[..k], width));
    }

    /** Draw */
    method Draw(g: Glyph, ghost lines: seq<string>)
      requires Holds(lines) && |AddGlyph(lines, g, width)| <= |rows|
      modifies this, rows
      ensures Holds(AddGlyph(lines, g, width))
    {
      match g
      case Newline => DrawNewline(lines);
      case Tab => DrawTab(lines);
      case Plain(c) => VdrawAll([c], lines);
      case Control(shown) => VdrawAll(['^', shown], lines);
      case Illegal(digits) => VdrawAll(['\\'] + digits, lines);
    }
  }

  /** A tab ends at its last cell, and not before. */
  lemma NoBlanks(lines: seq<string>, s: string, h: nat, th: nat)
    requires h < th && |s| == TabCells(h, th) && lines != []
    ensures 0 < |s| && AddCells(lines, s[..0], th) == lines
  {
  }

  lemma TabStep(h0: nat, k: nat, th: nat)
    requires h0 < th && k < TabCells(h0, th)
    ensures var h := if h0 + k + 1 >= th then 0 else h0 + k + 1; h % 8 == 0 <==> k + 1 == TabCells(h0, th)
    ensures k + 1 < TabCells(h0, th) ==> h0 + k + 1 < th
  {
    assert k + 1 < TabCells(h0, th) ==> !IsStop(h0 + k + 1);
  }

  lemma {:induction false} Partial(rows: seq<string>, s: string, k: nat, th: nat)
    requires rows != [] && k <= |s|
    ensures |AddCells(rows, s[..k], th)| <= |AddCells(rows, s, th)|
    decreases |s| - k
  {
    if k < |s| {
      Partial(rows, s, k + 1, th);
      assert s[..k + 1][..k] == s[..k];
    } else {
      assert s[..k] == s;
    }
  }

  // ----- the cursor -----

  /** The display drawn by Refresh, and the place it notes for the cursor. */
  method DrawInput(d: VDisplay, prompt: seq<Glyph>, input: seq<Glyph>, cursor: nat) returns (cur: Pos)
    requires d.Holds([""]) && cursor <= |input|
    requires d.width > 0 && |AddAll([""], prompt + input, d.width)| <= |d.rows|
    modifies d, d.rows
    ensures d.Holds(AddAll([""], prompt + input, d.width))
    ensures cur == DrawnAll(Pos(0, 0), prompt + input[..cursor], d.width)
  {
    hide AddAll;
    hide DrawnAll;
    hide VDisplay.Holds;
    ghost var all := prompt + input;
    assert all[..|prompt|] == prompt && all[|prompt|..] == input;
    DrawPrompt(d, prompt, all);
    cur := DrawLine(d, |prompt|, input, cursor, all);
    assert all[..|prompt| + cursor] == prompt + input[..cursor];
  }

  method DrawLine(d: VDisplay, from: nat, input: seq<Glyph>, cursor: nat, ghost all: seq<Glyph>) returns (cur: Pos)
    requires cursor <= |input| && from + |input| == |all| && all[from..] == input
    requires d.width > 0 && |AddAll([""], all, d.width)| <= |d.rows| && d.Holds(AddAll([""], all[..from], d.width))
    modifies d, d.rows
    ensures d.Holds(AddAll([""], all, d.width))
    ensures cur == DrawnAll(Pos(0, 0), all[..from + cursor], d.width)
  {
    hide AddAll;
    hide DrawnAll;
    hide VDisplay.Holds;
    ghost var goal := DrawnAll(Pos(0, 0), all[..from + cursor], d.width);
    var curH: int, curV := -1, 0;
    var k := 0;
    while k < |input|
      invariant k <= |input| && d.Holds(AddAll([""], all[..from + k], d.width))
      invariant if k <= cursor then curH == -1 else curH == goal.h && curV == goal.v
    {
      if k >= cursor && curH == -1 {
        CursorAt(d, all[..from + k]);
        curH, curV := d.h, d.v;
      }
      DrawNext(d, all, from + k, input[k]);
      k := k + 1;
    }
    if curH == -1 {
      CursorAt(d, all[..from + k]);
      curH, curV := d.h, d.v;
    }
    cur := Pos(curH, curV);
    assert all[..from + k] == all;
  }

  lemma CursorAt(d: VDisplay, gs: seq<Glyph>)
    requires d.width > 0 && d.Holds(AddAll([""], gs, d.width))
    ensures Pos(d.h, d.v) == DrawnAll(Pos(0, 0), gs, d.width)
  {
  }

  method DrawPrompt(d: VDisplay, prompt: seq<Glyph>, ghost all: seq<Glyph>)
    requires d.Holds([""]) && prompt <= all
    requires d.width > 0 && |AddAll([""], all, d.width)| <= |d.rows|
    modifies d, d.rows
    ensures d.Holds(AddAll([""], all[..|prompt|], d.width))
  {
    for k := 0 to |prompt|
      invariant d.Holds(AddAll([""], all[..k], d.width))
    {
      DrawNext(d, all, k, prompt[k]);
    }
  }

  method DrawNext(d: VDisplay, ghost all: seq<Glyph>, ghost k: nat, g: Glyph)
    requires d.width > 0 && k < |all| && g == all[k] && d.Holds(AddAll([""], all[..k], d.width))
    requires |AddAll([""], all, d.width)| <= |d.rows|
    modifies d, d.rows
    ensures d.Holds(AddAll([""], all[..k + 1], d.width))
  {
    assert all[..k + 1][..k] == all[..k];
    Growing([""], all, k + 1, d.width);
    d.Draw(g, AddAll([""], all[..k], d.width));
  }

  lemma {:induction false} Growing(rows: seq<string>, gs: seq<Glyph>, k: nat, th: nat)
    requires Laid(rows, th) && k <= |gs|
    ensures |AddAll(rows, gs[..k], th)| <= |AddAll(rows, gs, th)|
    decreases |gs| - k
  {
    if k < |gs| {
      Growing(rows, gs, k + 1, th);
      assert gs[..k + 1][..k] == gs[..k];
    } else {
      assert gs[..k] == gs;
    }
  }

  /** CalcPosition */
  method CalcPosition(g: Glyph, th: nat, p: Pos) returns (q: Pos)
    ensures q == Calculated(p, g, th)
  {
    var h, v := p.h, p.v;
    match g {
      case Newline => h, v := 0, v + 1;
      case Tab =>
        h := h + 1;
        while h % 8 != 0
          invariant p.h < h <= NextStop(p.h)
          decreases NextStop(p.h) - h
        {
          h := h + 1;
        }
      case Control(_) => h := h + 2;
      case Illegal(_) => h := h + 4;
      case Plain(_) => h := h + 1;
    }
    if h >= th {
      h := h - th;
      v := v + 1;
    }
    q := Pos(h, v);
  }

  /** RefCursor: where the cursor goes when nothing is drawn. */
  method RefCursor(prompt: seq<Glyph>, input: seq<Glyph>, cursor: nat, th: nat) returns (p: Pos)
    requires cursor <= |input|
    ensures p == CalculatedAll(Pos(0, 0), prompt + input[..cursor], th)
  {
    p := CalcOver(prompt, th, Pos(0, 0));
    p := CalcOver(input[..cursor], th, p);
    CalculatedOver(Pos(0, 0), prompt, input[..cursor], th);
  }

  method CalcOver(gs: seq<Glyph>, th: nat, p0: Pos) returns (p: Pos)
    ensures p == CalculatedAll(p0, gs, th)
  {
    p := p0;
    for k := 0 to |gs|
      invariant p == CalculatedAll(p0, gs[..k], th)
    {
      assert gs[..k + 1][..k] == gs[..k];
      p := CalcPosition(gs[k], th, p);
    }
    assert gs[..|gs|] == gs;
  }

  lemma {:induction false} CalculatedOver(p: Pos, s: seq<Glyph>, t: seq<Glyph>, th: nat)
    ensures CalculatedAll(p, s + t, th) == CalculatedAll(CalculatedAll(p, s, th), t, th)
    decreases |t|
  {
    if t == [] {
      assert s + t == s;
    } else {
      assert (s + t)[..|s + t| - 1] == s + t[..|t| - 1];
      CalculatedOver(p, s, t[..|t| - 1], th);
    }
  }

  /** RefCursor comes to the place that Refresh notes. */
  method SameCursor(d: VDisplay, prompt: seq<Glyph>, input: seq<Glyph>, cursor: nat) returns (drawn: Pos, counted: Pos)
    requires d.Holds([""]) && cursor <= |input|
    requires d.width > 1 && |AddAll([""], prompt + input, d.width)| <= |d.rows|
    requires forall g :: g in prompt + input ==>
               Sane(g) && (g.Tab? ==> d.width % 8 == 0) && (g.Illegal? ==> 4 <= d.width)
    modifies d, d.rows
    ensures drawn == counted
  {
    LineAgrees(Pos(0, 0), prompt + input[..cursor], d.width);
    drawn := DrawInput(d, prompt, input, cursor);
    counted := RefCursor(prompt, input, cursor, d.width);
  }
}
