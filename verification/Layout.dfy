/** Where the characters of a line come to stand on the screen: the positions of ed.refresh.c. */
module Layout {
  import opened Sequences

  const NUL := '\0'

  /** A character by its class: one column, a control character shown as two, an unprintable byte shown as four. */
  datatype Glyph = Plain(c: char) | Newline | Tab | Control(shown: char) | Illegal(digits: seq<char>)

  predicate Sane(g: Glyph) {
    (g.Illegal? ==> |g.digits| == 3 && NUL !in g.digits) && (g.Plain? ==> g.c != NUL) && (g.Control? ==> g.shown != NUL)
  }

  datatype Pos = Pos(h: nat, v: nat)

  // ----- drawing, one cell at a time -----

  /** The place behind one more cell, with th columns to a row. */
  function Next(p: Pos, th: nat): (q: Pos)
    requires p.h < th
    ensures q.h < th && p.v <= q.v <= p.v + 1
  {
    if p.h + 1 == th then Pos(0, p.v + 1) else Pos(p.h + 1, p.v)
  }

  function NextN(p: Pos, n: nat, th: nat): (q: Pos)
    requires p.h < th
    ensures q.h < th && p.v <= q.v
  {
    if n == 0 then p else Next(NextN(p, n - 1, th), th)
  }

  predicate IsStop(c: nat) {
    c % 8 == 0
  }

  /** Blanks to the next column that is a multiple of eight, or to the margin. */
  function TabCells(h: nat, th: nat): (n: nat)
    requires h < th
    ensures 0 < n && h + n <= th && ((h + n) % 8 == 0 || h + n == th)
    ensures forall c :: h < c < h + n ==> !IsStop(c)
  {
    var n := 8 - h % 8;
    if h + n <= th then n else th - h
  }

  /** The cells a glyph takes at column h. */
  function Cells(g: Glyph, h: nat, th: nat): (s: seq<char>)
    requires h < th
  {
    match g
    case Plain(c) => [c]
    case Newline => []
    case Tab => seq(TabCells(h, th), _ => ' ')
    case Control(shown) => ['^', shown]
    case Illegal(digits) => ['\\'] + digits
  }

  /** Where Draw leaves the virtual cursor. */
  function Drawn(p: Pos, g: Glyph, th: nat): (q: Pos)
    requires p.h < th
    ensures q.h < th && p.v <= q.v
  {
    if g.Newline? then Pos(0, p.v + 1) else NextN(p, |Cells(g, p.h, th)|, th)
  }

  function DrawnAll(p: Pos, gs: seq<Glyph>, th: nat): (q: Pos)
    requires p.h < th
    ensures q.h < th && p.v <= q.v
  {
    if gs == [] then p else Drawn(DrawnAll(p, gs[..|gs| - 1], th), gs[|gs| - 1], th)
  }

  // ----- counting, a glyph at a time -----

  function Width(g: Glyph): nat {
    match g
    case Plain(_) => 1
    case Control(_) => 2
    case Illegal(_) => 4
    case _ => 0
  }

  /** The column a tab leads to, whatever the margin. */
  function NextStop(h: nat): (s: nat)
    ensures h < s <= h + 8 && s % 8 == 0
  {
    h + 8 - h % 8
  }

  /** CalcPosition */
  function Calculated(p: Pos, g: Glyph, th: nat): Pos {
    var q := if g.Newline? then Pos(0, p.v + 1)
             else if g.Tab? then Pos(NextStop(p.h), p.v)
             else Pos(p.h + Width(g), p.v);
    if q.h >= th then Pos(q.h - th, q.v + 1) else q
  }

  function CalculatedAll(p: Pos, gs: seq<Glyph>, th: nat): Pos {
    if gs == [] then p else Calculated(CalculatedAll(p, gs[..|gs| - 1], th), gs[|gs| - 1], th)
  }

  // ----- the two agree -----

  /** A glyph does not pass more than one margin, and a tab stops at the margin at the latest. */
  predicate Countable(h: nat, g: Glyph, th: nat) {
    if g.Tab? then NextStop(h) <= th else h + Width(g) < 2 * th
  }

  lemma {:induction false} NextNIs(p: Pos, n: nat, th: nat)
    requires p.h < th && p.h + n < 2 * th
    ensures NextN(p, n, th) == if p.h + n < th then Pos(p.h + n, p.v) else Pos(p.h + n - th, p.v + 1)
    decreases n
  {
    if n > 0 {
      NextNIs(p, n - 1, th);
    }
  }

  /** One glyph is counted as it is drawn just when it is countable. */
  lemma StepAgrees(p: Pos, g: Glyph, th: nat)
    requires p.h < th && Sane(g)
    ensures Calculated(p, g, th) == Drawn(p, g, th) <==> Countable(p.h, g, th)
  {
    if g.Tab? {
      NextNIs(p, TabCells(p.h, th), th);
    } else if p.h + Width(g) < 2 * th {
      NextNIs(p, Width(g), th);
    }
  }

  /** On a screen of at least two columns, or four if there are unprintable bytes, and of a multiple of eight if there
      are tabs, counting and drawing agree for every line, across any number of margins. */
  lemma {:induction false} LineAgrees(p: Pos, gs: seq<Glyph>, th: nat)
    requires p.h < th && 2 <= th
    requires forall g :: g in gs ==> Sane(g) && (g.Tab? ==> th % 8 == 0) && (g.Illegal? ==> 4 <= th)
    ensures CalculatedAll(p, gs, th) == DrawnAll(p, gs, th)
    decreases |gs|
  {
    if gs != [] {
      var init, g := gs[..|gs| - 1], gs[|gs| - 1];
      LineAgrees(p, init, th);
      StepAgrees(DrawnAll(p, init, th), g, th);
    }
  }

  /** A tab is counted wrong from the last columns of a screen whose width is no multiple of eight. */
  lemma TabBeyondMargin(th: nat, v: nat)
    requires th > 0 && th % 8 != 0
    ensures Calculated(Pos(th - 1, v), Tab, th) != Drawn(Pos(th - 1, v), Tab, th)
  {
    StepAgrees(Pos(th - 1, v), Tab, th);
    assert NextStop(th - 1) % 8 == 0;
  }

  // ----- the rows a line is laid out in -----

  /** The place behind the last cell. */
  function End(rows: seq<string>): Pos
    requires rows != []
  {
    Pos(|Last(rows)|, |rows| - 1)
  }

  ghost predicate Laid(rows: seq<string>, th: nat) {
    rows != [] && (forall r :: 0 <= r < |rows| ==> |rows[r]| <= th) && |Last(rows)| < th
  }

  function AddCell(rows: seq<string>, x: char, th: nat): (r: seq<string>)
    requires rows != []
    ensures r != [] && |rows| <= |r| <= |rows| + 1
  {
    var row := Last(rows) + [x];
    var init := rows[..|rows| - 1];
    if |row| == th then init + [row, ""] else init + [row]
  }

  function AddCells(rows: seq<string>, s: string, th: nat): (r: seq<string>)
    requires rows != []
    ensures r != [] && |rows| <= |r|
    decreases |s|
  {
    if s == "" then rows else AddCell(AddCells(rows, s[..|s| - 1], th), s[|s| - 1], th)
  }

  function AddGlyph(rows: seq<string>, g: Glyph, th: nat): (r: seq<string>)
    requires rows != [] && |Last(rows)| < th
    ensures r != [] && |rows| <= |r|
  {
    if g.Newline? then rows + [""] else AddCells(rows, Cells(g, |Last(rows)|, th), th)
  }

  lemma AddCellEnd(rows: seq<string>, x: char, th: nat)
    requires Laid(rows, th)
    ensures var r := AddCell(rows, x, th); Laid(r, th) && End(r) == Next(End(rows), th)
  {
  }

  lemma {:induction false} AddCellsEnd(rows: seq<string>, s: string, th: nat)
    requires Laid(rows, th)
    ensures var r := AddCells(rows, s, th); Laid(r, th) && End(r) == NextN(End(rows), |s|, th)
    decreases |s|
  {
    if s != "" {
      AddCellsEnd(rows, s[..|s| - 1], th);
      AddCellEnd(AddCells(rows, s[..|s| - 1], th), s[|s| - 1], th);
      hide AddCell;
      hide Laid;
      hide End;
    }
  }

  /** The virtual cursor is at the end of what has been laid out. */
  lemma AddGlyphEnd(rows: seq<string>, g: Glyph, th: nat)
    requires Laid(rows, th)
    ensures var r := AddGlyph(rows, g, th); Laid(r, th) && End(r) == Drawn(End(rows), g, th)
  {
    if !g.Newline? {
      AddCellsEnd(rows, Cells(g, |Last(rows)|, th), th);
    }
  }

  /** The rows of a line, drawn behind others. */
  function AddAll(rows: seq<string>, gs: seq<Glyph>, th: nat): (r: seq<string>)
    requires Laid(rows, th)
    ensures Laid(r, th) && |rows| <= |r| && End(r) == DrawnAll(End(rows), gs, th)
  {
    if gs == [] then rows
    else
      var t := AddAll(rows, gs[..|gs| - 1], th);
      AddGlyphEnd(t, gs[|gs| - 1], th);
      AddGlyph(t, gs[|gs| - 1], th)
  }

  // ----- no cell is lost -----

  function Flat(rows: seq<string>): string {
    if rows == [] then "" else Flat(rows[..|rows| - 1]) + Last(rows)
  }

  lemma FlatSnoc(rows: seq<string>, x: string)
    ensures Flat(rows + [x]) == Flat(rows) + x
  {
    assert (rows + [x])[..|rows|] == rows;
  }

  lemma AddCellFlat(rows: seq<string>, x: char, th: nat)
    requires rows != []
    ensures Flat(AddCell(rows, x, th)) == Flat(rows) + [x]
  {
    var init, row := rows[..|rows| - 1], Last(rows) + [x];
    FlatSnoc(init, row);
    FlatSnoc(init + [row], "");
    assert init + [row] + [""] == init + [row, ""];
  }

  lemma {:induction false} AddCellsFlat(rows: seq<string>, s: string, th: nat)
    requires rows != []
    ensures Flat(AddCells(rows, s, th)) == Flat(rows) + s
    decreases |s|
  {
    if s == "" {
      assert Flat(rows) + s == Flat(rows);
    } else {
      AddCellsFlat(rows, s[..|s| - 1], th);
      OneMoreFlat(rows, s, th);
    }
  }

  /** The last cell of s, behind the others. */
  lemma OneMoreFlat(rows: seq<string>, s: string, th: nat)
    requires rows != [] && s != "" && Flat(AddCells(rows, s[..|s| - 1], th)) == Flat(rows) + s[..|s| - 1]
    ensures Flat(AddCells(rows, s, th)) == Flat(rows) + s
  {
    hide AddCell;
    hide Flat;
    var init, x := s[..|s| - 1], s[|s| - 1];
    AddCellFlat(AddCells(rows, init, th), x, th);
    Behind(Flat(rows), init, x);
    assert s == init + [x];
  }

  lemma Behind(a: string, b: string, x: char)
    ensures a + (b + [x]) == a + b + [x]
  {
  }

  /** Read row by row, the screen shows the cells of the glyph behind those that were there. */
  lemma AddGlyphFlat(rows: seq<string>, g: Glyph, th: nat)
    requires rows != [] && |Last(rows)| < th
    ensures Flat(AddGlyph(rows, g, th)) == Flat(rows) + Cells(g, |Last(rows)|, th)
  {
    if g.Newline? {
      FlatSnoc(rows, "");
    } else {
      AddCellsFlat(rows, Cells(g, |Last(rows)|, th), th);
    }
  }

  // ----- what is shown, in cells -----

  /** The class of a character of one byte, and what Draw shows for it. */
  function GlyphOf(c: char): (g: Glyph)
    requires 0 < c as int < 256
    ensures Sane(g)
  {
    var n := c as int;
    if c == '\n' then Newline
    else if c == '\t' then Tab
    else if n < 32 then Control((n + 64) as char)
    else if n == 127 then Control('?')
    else if n < 127 then Plain(c)
    else Illegal([Digit(n / 64), Digit(n / 8 % 8), Digit(n % 8)])
  }

  function Digit(n: nat): (d: char)
    requires n < 8
    ensures d != NUL
  {
    ('0' as int + n) as char
  }

  lemma FlatOneRow(s: string)
    ensures Flat([s]) == s
  {
    assert [s][..0] == [];
  }

  /** What each glyph puts behind the cells that are there. */
  lemma ShownAs(rows: seq<string>, g: Glyph, th: nat)
    requires rows != [] && |Last(rows)| < th
    ensures var after, before := Flat(AddGlyph(rows, g, th)), Flat(rows);
            && (g.Plain? ==> after == before + [g.c])
            && (g.Newline? ==> after == before)
            && (g.Control? ==> after == before + "^" + [g.shown])
            && (g.Illegal? ==> after == before + "\\" + g.digits)
            && (g.Tab? ==> after == before + Blanks(|Last(rows)|, th))
  {
    AddGlyphFlat(rows, g, th);
    if g.Control? {
      assert Flat(rows) + ['^', g.shown] == Flat(rows) + "^" + [g.shown];
    } else if g.Illegal? {
      assert Flat(rows) + (['\\'] + g.digits) == Flat(rows) + "\\" + g.digits;
    }
  }

  /** Blanks to the next column that is a multiple of eight, or to the margin. */
  function Blanks(h: nat, th: nat): (s: string)
    requires h < th
    ensures forall i :: 0 <= i < |s| ==> s[i] == ' '
    ensures if h - h % 8 + 8 <= th then |s| == 8 - h % 8 else h + |s| == th
  {
    seq(TabCells(h, th), _ => ' ')
  }

  /** A newline starts a row; anything else fills rows to the margin before it starts one. */
  lemma FillsRows(rows: seq<string>, g: Glyph, th: nat)
    requires Laid(rows, th)
    ensures var r, n := AddGlyph(rows, g, th), |rows| - 1;
            && (g.Newline? ==> r == rows + [""])
            && (!g.Newline? ==> |r| > n && r[..n] == rows[..n] && forall k :: n <= k < |r| - 1 ==> |r[k]| == th)
  {
    if !g.Newline? {
      CellsFill(rows, Cells(g, |Last(rows)|, th), th);
    }
  }

  lemma {:induction false} CellsFill(rows: seq<string>, s: string, th: nat)
    requires Laid(rows, th)
    ensures var r, n := AddCells(rows, s, th), |rows| - 1;
            |r| > n && r[..n] == rows[..n] && forall k :: n <= k < |r| - 1 ==> |r[k]| == th
    decreases |s|
  {
    if s != "" {
      var init := s[..|s| - 1];
      CellsFill(rows, init, th);
      AddCellsEnd(rows, init, th);
      CellFills(AddCells(rows, init, th), s[|s| - 1], th, |rows| - 1);
    }
  }

  lemma CellFills(rows: seq<string>, x: char, th: nat, n: nat)
    requires Laid(rows, th) && n < |rows| && forall k :: n <= k < |rows| - 1 ==> |rows[k]| == th
    ensures var r := AddCell(rows, x, th);
            |r| > n && r[..n] == rows[..n] && forall k :: n <= k < |r| - 1 ==> |r[k]| == th
  {
  }

  /** The last glyph of a line, behind the others. */
  lemma OneMoreGlyph(rows: seq<string>, gs: seq<Glyph>, th: nat)
    requires Laid(rows, th) && gs != []
    ensures var t, g := AddAll(rows, gs[..|gs| - 1], th), gs[|gs| - 1];
            && Laid(t, th) && t != [] && |Last(t)| < th
            && AddAll(rows, gs, th) == AddGlyph(t, g, th) && Laid(AddAll(rows, gs, th), th)
  {
  }

  /** What each glyph of a line adds to what is shown of those in front of it. */
  lemma LineShows(gs: seq<Glyph>, k: nat, th: nat)
    requires 0 < th && k < |gs|
    ensures Laid([""], th)
    ensures var rows, g := AddAll([""], gs[..k], th), gs[k];
            var before, after := Flat(rows), Flat(AddAll([""], gs[..k + 1], th));
            && |Last(rows)| < th
            && (g.Plain? ==> after == before + [g.c])
            && (g.Newline? ==> after == before)
            && (g.Control? ==> after == before + "^" + [g.shown])
            && (g.Illegal? ==> after == before + "\\" + g.digits)
            && (g.Tab? ==> after == before + Blanks(|Last(rows)|, th))
  {
    hide AddAll, Laid, AddGlyph, Flat;
    EmptyRow(th);
    assert gs[..k + 1][..k] == gs[..k];
    OneMoreGlyph([""], gs[..k + 1], th);
    ShownAs(AddAll([""], gs[..k], th), gs[k], th);
  }

  lemma NoGlyph(rows: seq<string>, th: nat)
    requires Laid(rows, th)
    ensures AddAll(rows, [], th) == rows
  {
  }

  lemma EmptyRow(th: nat)
    requires 0 < th
    ensures Laid([""], th)
  {
  }

  /** Rows above those that are drawn on stay as they are. */
  lemma {:induction false} AboveStays(above: seq<string>, rows: seq<string>, gs: seq<Glyph>, th: nat)
    requires Laid(rows, th) && Laid(above + rows, th)
    ensures AddAll(above + rows, gs, th) == above + AddAll(rows, gs, th)
    decreases |gs|
  {
    hide AddAll, Laid, AddGlyph;
    if gs == [] {
      NoGlyph(above + rows, th);
      NoGlyph(rows, th);
    } else {
      var init := gs[..|gs| - 1];
      OneMoreGlyph(above + rows, gs, th);
      OneMoreGlyph(rows, gs, th);
      AboveStays(above, rows, init, th);
      GlyphStays(above, AddAll(rows, init, th), gs[|gs| - 1], th);
    }
  }

  lemma GlyphStays(above: seq<string>, rows: seq<string>, g: Glyph, th: nat)
    requires rows != [] && |Last(rows)| < th
    ensures Last(above + rows) == Last(rows) && AddGlyph(above + rows, g, th) == above + AddGlyph(rows, g, th)
  {
    if g.Newline? {
      assert above + rows + [""] == above + (rows + [""]);
    } else {
      CellsStay(above, rows, Cells(g, |Last(rows)|, th), th);
    }
  }

  lemma {:induction false} CellsStay(above: seq<string>, rows: seq<string>, s: string, th: nat)
    requires rows != []
    ensures AddCells(above + rows, s, th) == above + AddCells(rows, s, th)
    decreases |s|
  {
    if s != "" {
      var init := s[..|s| - 1];
      CellsStay(above, rows, init, th);
      CellStays(above, AddCells(rows, init, th), s[|s| - 1], th);
    }
  }

  lemma CellStays(above: seq<string>, rows: seq<string>, x: char, th: nat)
    requires rows != []
    ensures AddCell(above + rows, x, th) == above + AddCell(rows, x, th)
  {
    var all, n := above + rows, |rows| - 1;
    assert all[..|all| - 1] == above + rows[..n];
    assert above + rows[..n] + [Last(rows) + [x]] == above + (rows[..n] + [Last(rows) + [x]]);
    assert above + rows[..n] + [Last(rows) + [x], ""] == above + (rows[..n] + [Last(rows) + [x], ""]);
  }

  lemma {:induction false} AddMore(rows: seq<string>, a: seq<Glyph>, b: seq<Glyph>, th: nat)
    requires Laid(rows, th)
    ensures AddAll(rows, a + b, th) == AddAll(AddAll(rows, a, th), b, th)
    decreases |b|
  {
    if b == [] {
      assert a + b == a;
    } else {
      assert (a + b)[..|a + b| - 1] == a + b[..|b| - 1];
      AddMore(rows, a, b[..|b| - 1], th);
    }
  }

  /** The rows of a line are those in front of a newline and those behind it. */
  lemma NewlineSplits(a: seq<Glyph>, b: seq<Glyph>, th: nat)
    requires 0 < th
    ensures AddAll([""], a + [Newline] + b, th) == AddAll([""], a, th) + AddAll([""], b, th)
  {
    var t := AddAll([""], a, th);
    AddMore([""], a + [Newline], b, th);
    assert (a + [Newline])[..|a|] == a;
    AboveStays(t, [""], b, th);
  }

  /** All rows but the last are full. */
  ghost predicate Full(rows: seq<string>, th: nat) {
    forall k :: 0 <= k < |rows| - 1 ==> |rows[k]| == th
  }

  lemma GlyphKeepsFull(rows: seq<string>, g: Glyph, th: nat)
    requires Laid(rows, th) && Full(rows, th) && !g.Newline?
    ensures Full(AddGlyph(rows, g, th), th)
  {
    FillsRows(rows, g, th);
    var r, n := AddGlyph(rows, g, th), |rows| - 1;
    forall k | 0 <= k < n
      ensures |r[k]| == th
    {
      assert r[k] == r[..n][k] == rows[..n][k] == rows[k];
    }
  }

  lemma {:induction false} RowsAreFull(gs: seq<Glyph>, th: nat)
    requires 0 < th && Newline !in gs
    ensures Laid([""], th) && Full(AddAll([""], gs, th), th)
    decreases |gs|
  {
    hide AddAll, Laid, AddGlyph, Full;
    EmptyRow(th);
    if gs == [] {
      NoGlyph([""], th);
      FullRow();
    } else {
      OneMoreGlyph([""], gs, th);
      RowsAreFull(gs[..|gs| - 1], th);
      assert gs[|gs| - 1] in gs;
      GlyphKeepsFull(AddAll([""], gs[..|gs| - 1], th), gs[|gs| - 1], th);
    }
  }

  lemma FullRow()
    ensures forall th :: Full([""], th)
  {
  }

  /** Printable text is shown as it is. */
  lemma {:induction false} TextIsShown(s: string, th: nat)
    requires 0 < th && forall i :: 0 <= i < |s| ==> ' ' <= s[i] <= '~'
    ensures Laid([""], th) && Flat(AddAll([""], GlyphsOf(s), th)) == s
    decreases |s|
  {
    hide AddAll, Laid, AddGlyph, Flat;
    EmptyRow(th);
    var gs := GlyphsOf(s);
    if s == "" {
      NoGlyph([""], th);
      FlatOneRow("");
      assert gs == [];
    } else {
      var init := s[..|s| - 1];
      OneMoreGlyph([""], gs, th);
      TextIsShown(init, th);
      assert gs[..|s| - 1] == GlyphsOf(init);
      ShownAs(AddAll([""], GlyphsOf(init), th), gs[|s| - 1], th);
      assert init + [s[|s| - 1]] == s;
    }
  }

  function GlyphsOf(s: string): (gs: seq<Glyph>)
    requires forall i :: 0 <= i < |s| ==> 0 < s[i] as int < 256
    ensures |gs| == |s| && forall i :: 0 <= i < |s| ==> gs[i] == GlyphOf(s[i])
  {
    seq(|s|, i requires 0 <= i < |s| => GlyphOf(s[i]))
  }

  /** The row that one key gives: a control character behind a caret, a byte that cannot be shown in octal. */
  lemma OneKey(c: char, th: nat)
    requires 4 < th && 0 < c as int < 256 && c != '\n' && c != '\t'
    ensures Laid([""], th)
    ensures var n, lines := c as int, AddAll([""], [GlyphOf(c)], th);
            && (n < 32 ==> lines == ["^" + [(n + 64) as char]])
            && (32 <= n < 127 ==> lines == [[c]])
            && (n == 127 ==> lines == ["^?"])
            && (n > 127 ==> lines == ["\\" + [Digit(n / 64), Digit(n / 8 % 8), Digit(n % 8)]])
  {
    hide AddAll, Laid, AddGlyph, Flat;
    EmptyRow(th);
    var g := GlyphOf(c);
    assert [g][..0] == [];
    OneMoreGlyph([""], [g], th);
    NoGlyph([""], th);
    ShownAs([""], g, th);
    FlatOneRow("");
    Short(g, th);
    var r := AddGlyph([""], g, th);
    FlatOneRow(r[0]);
    assert r == [r[0]];
    assert forall x: char :: "" + "^" + [x] == "^" + [x] && "" + [x] == [x];
    assert "^" + ['?'] == "^?";
    if g.Illegal? {
      assert "" + "\\" + g.digits == "\\" + g.digits;
    }
  }

  /** The three digits are those of the byte. */
  lemma Octal(n: nat)
    requires n < 256
    ensures n / 64 < 8 && n == 64 * (n / 64) + 8 * (n / 8 % 8) + n % 8
  {
  }

  lemma Short(g: Glyph, th: nat)
    requires 4 < th && Sane(g) && !g.Newline? && !g.Tab?
    ensures |AddGlyph([""], g, th)| == 1
  {
    AddGlyphEnd([""], g, th);
    NextShort(Pos(0, 0), |Cells(g, 0, th)|, th);
  }

  lemma {:induction false} NextShort(p: Pos, n: nat, th: nat)
    requires p.h + n < th
    ensures NextN(p, n, th) == Pos(p.h + n, p.v)
  {
    if n > 0 {
      NextShort(p, n - 1, th);
    }
  }
}
