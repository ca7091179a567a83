/** The rows of cells that the differ of ed.refresh.c edits, as values. */
module Cells {
  type Cell = char

  const NUL: Cell := '\0'
  const BLANK: Cell := ' '

  function Blanks(n: nat): (s: seq<Cell>)
    ensures |s| == n && forall i :: 0 <= i < n ==> s[i] == BLANK
  {
    seq(n, _ => BLANK)
  }

  /** s cut or padded with blanks to exactly w cells: what a row showing s looks like. */
  function Fit(s: seq<Cell>, w: nat): (r: seq<Cell>)
    ensures |r| == w
    ensures forall i :: 0 <= i < w ==> r[i] == if i < |s| then s[i] else BLANK
  {
    if |s| >= w then s[..w] else s + Blanks(w - |s|)
  }

  /** Overwrite the cells from column h on with s. */
  function Put(row: seq<Cell>, h: nat, s: seq<Cell>): (r: seq<Cell>)
    requires h + |s| <= |row|
    ensures |r| == |row|
    ensures forall i :: 0 <= i < |row| ==> r[i] == if h <= i < h + |s| then s[i - h] else row[i]
  {
    row[..h] + s + row[h + |s|..]
  }

  /** Insert s in front of column h; what is pushed over the right margin is lost. */
  function InsertAt(row: seq<Cell>, h: nat, s: seq<Cell>): (r: seq<Cell>)
    requires h <= |row|
    ensures |r| == |row|
    ensures forall i :: 0 <= i < |row| ==>
              r[i] == if i < h then row[i] else if i < h + |s| then s[i - h] else row[i - |s|]
  {
    (row[..h] + s + row[h..])[..|row|]
  }

  /** Delete n cells at column h; blanks come in from the right. */
  function DeleteAt(row: seq<Cell>, h: nat, n: nat): (r: seq<Cell>)
    requires h <= |row|
    ensures |r| == |row|
    ensures forall i :: 0 <= i < |row| ==>
              r[i] == if i < h then row[i] else if i + n < |row| then row[i + n] else BLANK
  {
    if h + n <= |row| then row[..h] + row[h + n..] + Blanks(n) else row[..h] + Blanks(|row| - h)
  }

  /** What writing s from column h on does, in insert mode or over the old cells. */
  function Written(inserting: bool, row: seq<Cell>, h: nat, s: seq<Cell>): (r: seq<Cell>)
    requires h + |s| <= |row|
    ensures |r| == |row|
  {
    if inserting then InsertAt(row, h, s) else Put(row, h, s)
  }

  /** What is left of s in the last column of a row where the cursor does not move on. */
  function Piled(row: seq<Cell>, s: seq<Cell>): (r: seq<Cell>)
    requires row != []
    ensures |r| == |row|
  {
    if s == [] then row else row[..|row| - 1] + [s[|s| - 1]]
  }

  lemma PiledStep(row: seq<Cell>, s: seq<Cell>, c: Cell)
    requires row != []
    ensures Put(Piled(row, s), |row| - 1, [c]) == Piled(row, s + [c])
  {
    var r, n := Piled(row, s), |row| - 1;
    assert r[..n] == row[..n] && r[n + 1..] == [];
    assert Put(r, n, [c]) == row[..n] + [c];
  }

  lemma WrittenStep(inserting: bool, row: seq<Cell>, h: nat, s: seq<Cell>, c: Cell)
    requires h + |s| < |row|
    ensures Written(inserting, Written(inserting, row, h, s), h + |s|, [c]) == Written(inserting, row, h, s + [c])
  {
  }

  // ----- how the row operations act on a row that shows a known text -----

  /** Insert the difference in length, then overwrite: a in front of y becomes the longer b. */
  lemma ReplaceGrow(x: seq<Cell>, a: seq<Cell>, b: seq<Cell>, y: seq<Cell>, w: nat)
    requires |a| <= |b| && |x + b| <= w
    ensures var fx := |b| - |a|;
            Put(InsertAt(Fit(x + a + y, w), |x|, b[..fx]), |x| + fx, b[fx..]) == Fit(x + b + y, w)
  {
    hide Put, InsertAt, Fit;
    var d := |b| - |a|;
    var f := Fit(x + a + y, w);
    FitCells(x + a + y, w);
    FitCells(x + b + y, w);
    InsertThenPut(f, |x|, b, d);
    Moved(x, a, b, y, f, Put(InsertAt(f, |x|, b[..d]), |x| + d, b[d..]), Fit(x + b + y, w));
  }

  lemma FitCells(s: seq<Cell>, w: nat)
    ensures |Fit(s, w)| == w
    ensures forall i :: 0 <= i < w ==> Fit(s, w)[i] == if i < |s| then s[i] else BLANK
  {
  }

  lemma InsertThenPut(f: seq<Cell>, h: nat, b: seq<Cell>, d: nat)
    requires d <= |b| && h + |b| <= |f|
    ensures |InsertAt(f, h, b[..d])| == |f|
    ensures var l := Put(InsertAt(f, h, b[..d]), h + d, b[d..]);
            && |l| == |f|
            && (forall i :: 0 <= i < h ==> l[i] == f[i])
            && (forall i :: 0 <= i < |b| ==> l[h + i] == b[i])
            && (forall i :: h + |b| <= i < |f| ==> l[i] == f[i - d])
  {
  }

  /** Three rows of one length: f shows a between x and y, r shows b there, and l has b and what is behind it moved. */
  lemma Moved(x: seq<Cell>, a: seq<Cell>, b: seq<Cell>, y: seq<Cell>, f: seq<Cell>, l: seq<Cell>, r: seq<Cell>)
    requires |f| == |l| == |r| >= |x| + |b|
    requires forall i :: 0 <= i < |f| ==> f[i] == if i < |x + a + y| then (x + a + y)[i] else BLANK
    requires forall i :: 0 <= i < |r| ==> r[i] == if i < |x + b + y| then (x + b + y)[i] else BLANK
    requires forall i :: 0 <= i < |x| ==> l[i] == f[i]
    requires forall i :: 0 <= i < |b| ==> l[|x| + i] == b[i]
    requires var d := |a| - |b|;
             forall i :: |x| + |b| <= i < |l| ==> l[i] == if i + d < |f| then f[i + d] else BLANK
    requires |a| <= |b| || |x + a + y| <= |f|
    ensures l == r
  {
    var d := |a| - |b|;
    forall i | 0 <= i < |l|
      ensures l[i] == r[i]
    {
      if |x| <= i < |x| + |b| {
        assert l[|x| + (i - |x|)] == b[i - |x|];
      }
    }
  }

  /** Delete the difference in length, then overwrite: a in front of y becomes the shorter b. */
  lemma ReplaceShrink(x: seq<Cell>, a: seq<Cell>, b: seq<Cell>, y: seq<Cell>, w: nat)
    requires |b| <= |a| && |x + a + y| <= w
    ensures Put(DeleteAt(Fit(x + a + y, w), |x|, |a| - |b|), |x|, b) == Fit(x + b + y, w)
  {
    var f := Fit(x + a + y, w);
    var m := DeleteAt(f, |x|, |a| - |b|);
    Moved(x, a, b, y, f, Put(m, |x|, b), Fit(x + b + y, w));
  }

  /** Overwriting the end of a text by something at least as long leaves nothing of it. */
  lemma ReplaceEnd(x: seq<Cell>, a: seq<Cell>, b: seq<Cell>, w: nat)
    requires |x + b| <= w && (|a| <= |b| || |x + b| == w)
    ensures Put(Fit(x + a, w), |x|, b) == Fit(x + b, w)
  {
  }

  /** Overwriting the end by something shorter and clearing the rest of the row. */
  lemma ReplaceAndClear(x: seq<Cell>, a: seq<Cell>, b: seq<Cell>, w: nat)
    requires |x + b| <= w
    ensures Fit(Put(Fit(x + a, w), |x|, b)[..|x + b|], w) == Fit(x + b, w)
  {
  }

  /** The same where the clearing is done by writing num blanks. */
  lemma ReplaceAndBlank(x: seq<Cell>, a: seq<Cell>, b: seq<Cell>, num: nat, w: nat)
    requires |x + b| + num <= w && (|x + a| <= |x + b| + num || |x + b| + num == w)
    ensures Put(Put(Fit(x + a, w), |x|, b), |x + b|, Blanks(num)) == Fit(x + b, w)
  {
  }

  /** What is past the right margin does not show. */
  lemma FitCut(x: seq<Cell>, y: seq<Cell>, z: seq<Cell>, w: nat)
    requires w <= |x|
    ensures Fit(x + y, w) == Fit(x + z, w)
  {
  }

  lemma EditNothing(row: seq<Cell>, h: nat)
    requires h <= |row|
    ensures Put(row, h, []) == InsertAt(row, h, []) == DeleteAt(row, h, 0) == row
  {
  }

  lemma PutSame(row: seq<Cell>, h: nat, s: seq<Cell>)
    requires h + |s| <= |row| && s == row[h..h + |s|]
    ensures Put(row, h, s) == row
  {
  }

  /** Inserting character by character inserts the whole string. */
  lemma InsertStep(row: seq<Cell>, h: nat, s: seq<Cell>, c: Cell)
    requires h + |s| < |row|
    ensures InsertAt(InsertAt(row, h, s), h + |s|, [c]) == InsertAt(row, h, s + [c])
  {
  }

  /** Opening blanks and then writing over them is an insertion. */
  lemma OpenThenPut(row: seq<Cell>, h: nat, s: seq<Cell>)
    requires h + |s| <= |row|
    ensures Put(InsertAt(row, h, Blanks(|s|)), h, s) == InsertAt(row, h, s)
  {
  }

  /** Deleting one cell at a time deletes them all. */
  lemma DeleteStep(row: seq<Cell>, h: nat, n: nat)
    requires h <= |row|
    ensures DeleteAt(DeleteAt(row, h, n), h, 1) == DeleteAt(row, h, n + 1)
  {
    var d, e, f := DeleteAt(row, h, n), DeleteAt(DeleteAt(row, h, n), h, 1), DeleteAt(row, h, n + 1);
    forall i | 0 <= i < |row|
      ensures e[i] == f[i]
    {
      assert h <= i && i + 1 < |row| ==> e[i] == d[i + 1];
    }
  }
}

/**
 * The terminal and the output routines of ed.screen.c. The real cursor and the
 * cells on the screen are kept apart from the position the editor believes in
 * (cursorV, cursorH), so that "the editor has not lost track" is a property.
 */
module TerminalIO {
  import opened Cells

  /** What termcap says. The letters are the termcap names of the strings. */
  datatype Caps = Caps(
    multiInsert: bool,   // IC
    charInsert: bool,    // ic
    insertMode: bool,    // im together with ei
    multiDelete: bool,   // DC
    charDelete: bool,    // dc
    clearToEnd: bool,    // ce
    columnTo: bool,      // ch
    right: bool,         // RI
    left: bool,          // LE
    down: bool,          // DO
    up: bool,            // up or UP
    tabs: bool,          // T_Tabs
    autoMargin: bool     // MARGIN_AUTO
  ) {
    predicate CanIns() { multiInsert || charInsert || insertMode }

    predicate CanDel() { multiDelete || charDelete }
  }

  function RowIn(rows: map<int, seq<Cell>>, l: int, w: nat): (r: seq<Cell>)
    requires l in rows ==> |rows[l]| == w
    ensures |r| == w
  {
    if l in rows then rows[l] else Blanks(w)
  }

  /** The masked tab arithmetic of MoveToChar is exact up to column 255 and too large from there on. */
  lemma TabCount(from: int, to: int)
    requires 0 <= from < to
    ensures (Floor8(to) - Floor8(from) % 256) % 8 == 0
    ensures from < 256 ==> Floor8(from) % 256 == Floor8(from) <= Floor8(to)
    ensures 256 <= from ==> Floor8(from) % 256 <= 248 && Floor8(from) >= Floor8(from) % 256 + 256
  {
  }

  function Floor8(x: int): int {
    x - x % 8
  }

  function Max(a: int, b: int): int {
    if a < b then b else a
  }

  function Min(a: int, b: int): int {
    if a < b then a else b
  }

  class Terminal {
    const width: nat                 // TermH
    const caps: Caps
    const display: seq<array<Cell>>  // Display: what the editor thinks is on each row

    var rows: map<int, seq<Cell>>    // the cells really on the screen
    var realV: int
    var realH: nat
    var inserting: bool
    var cursorV: int                 // CursorV
    var cursorH: int                 // CursorH

    ghost predicate Valid()
      reads this
    {
      && 0 < width
      && realH < width
      && (forall l :: l in rows ==> |rows[l]| == width)
    }

    /** Row l of the screen; a row never written is blank. */
    function RowAt(l: int): (r: seq<Cell>)
      requires Valid()
      reads this
      ensures |r| == width
    {
      RowIn(rows, l, width)
    }

    /** The editor knows where the cursor is. */
    ghost predicate InSync()
      reads this
    {
      cursorV == realV && cursorH == realH
    }

    constructor (width: nat, caps: Caps, display: seq<array<Cell>>)
      requires 0 < width
      ensures Valid() && InSync() && !inserting && rows == map[]
      ensures this.width == width && this.caps == caps && this.display == display
      ensures cursorV == 0 && cursorH == 0
    {
      this.width, this.caps, this.display := width, caps, display;
      rows, realV, realH, inserting, cursorV, cursorH := map[], 0, 0, false, 0, 0;
    }

    // ----- what the terminal does with the strings sent to it -----

    method SetRow(r: seq<Cell>)
      requires Valid() && |r| == width
      modifies this`rows
      ensures Valid() && RowAt(realV) == r && rows == old(rows)[realV := r]
      ensures forall l :: l != realV ==> RowAt(l) == old(RowAt(l))
    {
      rows := rows[realV := r];
    }

    /** putraw of a printing character. */
    method PutChar(c: Cell)
      requires Valid()
      modifies this`rows, this`realV, this`realH
      ensures Valid()
      ensures RowAt(old(realV)) == Written(inserting, old(RowAt(realV)), old(realH), [c])
      ensures rows == old(rows)[old(realV) := Written(inserting, old(RowAt(realV)), old(realH), [c])]
      ensures forall l :: l != old(realV) ==> RowAt(l) == old(RowAt(l))
      ensures old(realH) + 1 < width ==> realV == old(realV) && realH == old(realH) + 1
      ensures old(realH) + 1 == width && caps.autoMargin ==> realV == old(realV) + 1 && realH == 0
      ensures old(realH) + 1 == width && !caps.autoMargin ==> realV == old(realV) && realH == width - 1
    {
      var row := RowAt(realV);
      SetRow(Written(inserting, row, realH, [c]));
      if realH + 1 < width {
        realH := realH + 1;
      } else if caps.autoMargin {
        realV, realH := realV + 1, 0;
      }
    }

    /** One tab character: to the next tab stop, never past the last column. */
    method Tab()
      requires Valid()
      modifies this`realH
      ensures Valid() && realH == Min(Floor8(old(realH)) + 8, width - 1)
    {
      realH := Min(Floor8(realH) + 8, width - 1);
    }

    method Backspace()
      requires Valid()
      modifies this`realH
      ensures Valid() && realH == Max(old(realH) - 1, 0)
    {
      realH := Max(realH - 1, 0);
    }

    method OpenBlanks(n: nat)
      requires Valid()
      modifies this`rows
      ensures Valid() && RowAt(realV) == InsertAt(old(RowAt(realV)), realH, Blanks(n))
      ensures forall l :: l != realV ==> RowAt(l) == old(RowAt(l))
    {
      SetRow(InsertAt(RowAt(realV), realH, Blanks(n)));
    }

    method RemoveCells(n: nat)
      requires Valid()
      modifies this`rows
      ensures Valid() && RowAt(realV) == DeleteAt(old(RowAt(realV)), realH, n)
      ensures forall l :: l != realV ==> RowAt(l) == old(RowAt(l))
    {
      SetRow(DeleteAt(RowAt(realV), realH, n));
    }

    /** Where the cursor of this terminal ends after n cells are written from (v, h). */
    function After(v: int, h: nat, n: nat): (p: (int, nat))
      requires h < width
      ensures p.1 < width && p.0 >= v
      ensures h + n < width ==> p == (v, h + n)
      ensures h + n == width && n > 0 ==> p == if caps.autoMargin then (v + 1, 0) else (v, (width - 1) as nat)
      ensures h + n >= width && caps.autoMargin ==> p.0 > v
      ensures h + n >= width && !caps.autoMargin ==> p == (v, (width - 1) as nat)
    {
      if n == 0 then (v, h)
      else
        var (v', h') := After(v, h, n - 1);
        if h' + 1 < width then (v', h' + 1) else if caps.autoMargin then (v' + 1, 0) else (v', h')
    }

    ghost predicate Wide(m: map<int, seq<Cell>>) {
      forall l :: l in m ==> |m[l]| == width
    }

    /** The screen after the cells s are written over it from (v, h) on, wherever they come to stand. */
    ghost function Typed(m: map<int, seq<Cell>>, v: int, h: nat, s: seq<Cell>): (u: map<int, seq<Cell>>)
      requires h < width && Wide(m)
      ensures Wide(u)
    {
      if s == [] then m
      else
        var n := |s| - 1;
        var u, (v', h') := Typed(m, v, h, s[..n]), After(v, h, n);
        u[v' := Put(RowIn(u, v', width), h', [s[n]])]
    }

    lemma TypedMore(m: map<int, seq<Cell>>, v: int, h: nat, s: seq<Cell>, c: Cell)
      requires h < width && Wide(m)
      ensures var u, p := Typed(m, v, h, s), After(v, h, |s|);
              Typed(m, v, h, s + [c]) == u[p.0 := Put(RowIn(u, p.0, width), p.1, [c])]
    {
      assert (s + [c])[..|s|] == s;
    }

    lemma TypedNone(m: map<int, seq<Cell>>, v: int, h: nat, s: seq<Cell>)
      requires h < width && Wide(m) && s == []
      ensures Typed(m, v, h, s) == m
    {
    }

    /** At the last column, where the cursor stays. */
    predicate Piles(h: nat)
      reads this
    {
      h + 1 == width && !caps.autoMargin && !inserting
    }

    /** s has been written from (v, h) on a screen that held the rows before. */
    ghost predicate Wrote(before: map<int, seq<Cell>>, v: int, h: nat, s: seq<Cell>)
      requires Valid() && h < width
      requires forall l :: l in before ==> |before[l]| == width
      reads this
    {
      && (realV, realH) == After(v, h, |s|)
      && (h + |s| <= width ==> forall l :: l != v ==> RowAt(l) == RowIn(before, l, width))
      && (h + |s| <= width ==> RowAt(v) == Written(inserting, RowIn(before, v, width), h, s))
      && (!inserting ==> rows == Typed(before, v, h, s))
      && (Piles(h) ==>
            && RowAt(v) == Piled(RowIn(before, v, width), s)
            && forall l :: l != v ==> RowAt(l) == RowIn(before, l, width))
    }

    method PutNext(c: Cell, ghost before: map<int, seq<Cell>>, ghost v: int, ghost h: nat, ghost s: seq<Cell>)
      requires Valid() && h < width
      requires forall l :: l in before ==> |before[l]| == width
      requires Wrote(before, v, h, s)
      modifies this`rows, this`realV, this`realH
      ensures Valid() && Wrote(before, v, h, s + [c])
    {
      hide Put;
      hide InsertAt;
      hide Piled;
      hide Typed;
      if h + |s| < width {
        WrittenStep(inserting, RowIn(before, v, width), h, s, c);
      }
      PiledStep(RowIn(before, v, width), s, c);
      TypedMore(before, v, h, s, c);
      PutChar(c);
    }

    /** n printing characters from buf[at..], straight to the terminal. */
    method PutAll(buf: array<Cell>, at: nat, n: nat)
      requires Valid() && at + n <= buf.Length
      modifies this`rows, this`realV, this`realH
      ensures Valid() && Wrote(old(rows), old(realV), old(realH), buf[at..at + n])
    {
      ghost var before, v, h := rows, realV, realH;
      EditNothing(RowAt(v), h);
      var i := 0;
      while i < n
        invariant 0 <= i <= n && Valid()
        invariant Wrote(before, v, h, buf[at..at + i])
      {
        PutNext(buf[at + i], before, v, h, buf[at..at + i]);
        assert buf[at..at + i] + [buf[at + i]] == buf[at..at + (i + 1)];
        i := i + 1;
      }
    }

    // ----- ed.screen.c -----

    /** The first n cells that the editor has on record for row l are really there. */
    ghost predicate Shown(l: int, n: int)
      requires Valid()
      reads this, display
    {
      && 0 <= l < |display|
      && n <= width < display[l].Length
      && forall k :: 0 <= k < n ==> display[l][k] == RowAt(l)[k]
    }

    /** so_write: write n cells starting at buf[at]. */
    method SoWrite(buf: array<Cell>, at: int, n: int)
      requires Valid() && 0 <= cursorH
      requires 0 < n <= width ==> 0 <= at && at + n <= buf.Length
      modifies this`rows, this`realV, this`realH, this`cursorV, this`cursorH
      ensures Valid() && 0 <= cursorH
      ensures old(cursorV) <= cursorV <= old(cursorV) + 1
      ensures n <= 0 || n > width ==> unchanged(this)
      ensures old(realH) + n <= width ==> forall l :: l != old(realV) ==> RowAt(l) == old(RowAt(l))
      ensures 0 < n && old(cursorH) + n < width ==> cursorV == old(cursorV) && cursorH == old(cursorH) + n
      ensures 0 < n <= width && old(cursorH) + n >= width && caps.autoMargin ==>
                cursorV == old(cursorV) + 1 && cursorH == 0
      ensures 0 < n <= width ==> (realV, realH) == After(old(realV), old(realH), n)
      ensures old(InSync()) && 0 < n && old(cursorH) + n <= width ==>
                && InSync()
                && RowAt(old(realV)) == Written(inserting, old(RowAt(realV)), old(realH), buf[at..at + n])
      ensures 0 < n <= width && !inserting ==> rows == Typed(old(rows), old(realV), old(realH), buf[at..at + n])
      ensures old(Piles(realH)) && 0 < n <= width ==>
                && RowAt(old(realV)) == Piled(old(RowAt(realV)), buf[at..at + n])
                && forall l :: l != old(realV) ==> RowAt(l) == old(RowAt(l))
    {
      hide Typed;
      if n <= 0 {
        return;
      }
      if n > width {
        return;
      }
      PutAll(buf, at, n);
      cursorH := cursorH + n;
      if cursorH >= width {
        if caps.autoMargin {
          cursorH, cursorV := 0, cursorV + 1;
        } else {
          cursorH := width - 1;
        }
      }
    }

    // ----- cursor motion -----

    /** k tab characters. */
    method TabBy(k: nat)
      requires Valid()
      modifies this`realH
      ensures Valid()
      ensures realH == if k == 0 then old(realH) else Min(Floor8(old(realH)) + 8 * k, width - 1)
    {
      var i := 0;
      while i < k
        invariant 0 <= i <= k && Valid()
        invariant realH == if i == 0 then old(realH) else Min(Floor8(old(realH)) + 8 * i, width - 1)
      {
        Tab();
        i := i + 1;
      }
    }

    /** k backspaces. */
    method BackBy(k: nat)
      requires Valid()
      modifies this`realH
      ensures Valid() && realH == Max(old(realH) - k, 0)
    {
      var i := 0;
      while i < k
        invariant 0 <= i <= k && Valid() && realH == Max(old(realH) - i, 0)
      {
        Backspace();
        i := i + 1;
      }
    }

    /** MoveToChar reaches its tab loop, and does so from a column that CursorH & 0370 cuts down. */
    predicate TabOverrun(from: int, to: int) {
      && 256 <= from < to
      && caps.tabs
      && !(to - from > 4 && (caps.columnTo || caps.right))
    }

    /** Too many tabs stop at the last column. The cursor is right there if it is where it should go, unless what is
        written from there on takes it to the next row. */
    predicate Stopped(to: int) {
      to == width - 1 && (to % 8 == 0 || !caps.autoMargin)
    }

    /** MoveToChar, with the mc_again jump unrolled: it is taken at most once, from column 0. */
    method MoveToChar(where: int)
      requires Valid() && 0 <= cursorH && 0 <= where
      requires 0 <= cursorV < |display| && width < display[cursorV].Length
      modifies this`rows, this`realV, this`realH, this`cursorV, this`cursorH
      ensures Valid() && 0 <= cursorH && cursorV == old(cursorV)
      ensures where < width ==> cursorH == where
      ensures where >= width ==> unchanged(this)
      ensures old(InSync()) && !inserting && where < width && old(Shown(cursorV, where)) ==>
                && (InSync() <==> !TabOverrun(old(cursorH), where) || Stopped(where))
                && (!TabOverrun(old(cursorH), where) || (Stopped(where) && where % 8 == 0) ==>
                      forall l :: RowAt(l) == old(RowAt(l)))
      ensures old(InSync()) && !inserting && where < width && TabOverrun(old(cursorH), where) ==>
                Overran(old(rows), old(cursorH), where)
      ensures old(InSync()) && !inserting && where < width && TabOverrun(old(cursorH), where) && Stopped(where) ==>
                && RowAt(cursorV) == Piled(old(RowAt(cursorV)), display[cursorV][Floor8(where)..where])
                && forall l :: l != cursorV ==> RowAt(l) == old(RowAt(l))
    {
      if where == cursorH || where >= width {
        return;
      }
      var del := where - cursorH;
      if where == 0 {
        realH, cursorH := 0, 0;
      } else if (del < -4 || del > 4) && caps.columnTo {
        realH, cursorH := where, where;
      } else if del > 0 {
        MoveForward(where);
      } else if -del > 4 && caps.left {
        realH, cursorH := Max(realH + del, 0), where;
      } else if if caps.tabs then -del > where / 8 + where % 8 else -del > where {
        realH, cursorH := 0, 0;
        // mc_again
        if where > 4 && caps.columnTo {
          realH, cursorH := where, where;
        } else {
          MoveForward(where);
        }
      } else {
        BackBy(-del);
        cursorH := where;
      }
    }

    /** Where too many tabs lead from column from. */
    function Overshoot(from: nat, to: nat): (h: nat)
      requires 256 <= from < to < width
      ensures h < width
    {
      TabCount(from, to);
      Min(Floor8(from) + (Floor8(to) - Floor8(from) % 256), width - 1)
    }

    /** The cells between the stop before column to and that column are written from too far right on. */
    ghost predicate Overran(before: map<int, seq<Cell>>, from: nat, to: nat)
      requires 0 <= cursorV < |display| && Wide(before) && 256 <= from < to < width < display[cursorV].Length
      reads this, display
    {
      var h, s := Overshoot(from, to), display[cursorV][Floor8(to)..to];
      rows == Typed(before, cursorV, h, s) && (realV, realH) == After(cursorV, h, |s|)
    }

    /** Tab to the last stop before column where, as far as CursorH & 0370 lets it. */
    method TabTowards(where: int)
      requires Valid() && 0 <= cursorH < where < width
      modifies this`realH, this`cursorH
      ensures Valid() && 0 <= cursorH <= where && cursorH - old(cursorH) <= where - old(cursorH)
      ensures old(realH) == old(cursorH) < 256 || !caps.tabs ==> realH - cursorH == old(realH) - old(cursorH)
      ensures old(realH) == old(cursorH) >= 256 && caps.tabs ==>
                cursorH == Floor8(where) && realH == Overshoot(old(cursorH), where)
      ensures old(realH) == old(cursorH) >= 256 && caps.tabs && where < width - 1 ==> realH > cursorH
      ensures old(realH) == old(cursorH) >= 256 && caps.tabs && where == width - 1 ==> realH == width - 1
    {
      TabCount(cursorH, where);
      if caps.tabs && Floor8(cursorH) % 256 != Floor8(where) {
        var k := (Floor8(where) - Floor8(cursorH) % 256) / 8;
        TabBy(k);
        cursorH := Floor8(where);
      }
    }

    lemma ShownSame(l: int, from: nat, to: nat)
      requires Valid() && from <= to && Shown(l, to)
      ensures Put(RowAt(l), from, display[l][from..to]) == RowAt(l)
    {
      var row, s := RowAt(l), display[l][from..to];
      assert forall i :: 0 <= i < |s| ==> s[i] == row[from + i];
      PutSame(row, from, s);
    }

    /** Move right by writing again what is already there. */
    method Rewrite(where: int)
      requires Valid() && 0 <= cursorH <= where < width
      requires 0 <= cursorV < |display| && width < display[cursorV].Length
      modifies this`rows, this`realV, this`realH, this`cursorV, this`cursorH
      ensures Valid() && cursorV == old(cursorV) && cursorH == where
      ensures (realV, realH) == After(old(realV), old(realH), where - old(cursorH))
      ensures old(Piles(realH)) && old(realV) == cursorV ==>
                && RowAt(cursorV) == Piled(old(RowAt(cursorV)), display[cursorV][old(cursorH)..where])
                && forall l :: l != cursorV ==> RowAt(l) == old(RowAt(l))
      ensures old(InSync()) && !inserting && old(Shown(cursorV, where)) ==> forall l :: RowAt(l) == old(RowAt(l))
      ensures old(cursorH) == where ==> forall l :: RowAt(l) == old(RowAt(l))
      ensures !inserting ==> rows == Typed(old(rows), old(realV), old(realH), display[cursorV][old(cursorH)..where])
    {
      hide Put;
      hide Typed;
      TypedNone(rows, realV, realH, display[cursorV][cursorH..cursorH]);
      if InSync() && Shown(cursorV, where) {
        ShownSame(cursorV, cursorH, where);
      }
      SoWrite(display[cursorV], cursorH, where - cursorH);
    }

    /** The branch of MoveToChar that goes right: RI, or tabs and then rewriting what is there. */
    method MoveForward(where: int)
      requires Valid() && 0 <= cursorH < where < width
      requires 0 <= cursorV < |display| && width < display[cursorV].Length
      modifies this`rows, this`realV, this`realH, this`cursorV, this`cursorH
      ensures Valid() && cursorV == old(cursorV) && cursorH == where
      ensures old(InSync()) && !inserting && old(Shown(cursorV, where)) && !TabOverrun'(old(cursorH), where) ==>
                InSync() && forall l :: RowAt(l) == old(RowAt(l))
      ensures old(InSync()) && TabOverrun'(old(cursorH), where) ==> (InSync() <==> Stopped(where))
      ensures old(InSync()) && !inserting && TabOverrun'(old(cursorH), where) ==>
                Overran(old(rows), old(cursorH), where)
      ensures old(InSync()) && !inserting && TabOverrun'(old(cursorH), where) && Stopped(where) ==>
                && RowAt(cursorV) == Piled(old(RowAt(cursorV)), display[cursorV][Floor8(where)..where])
                && forall l :: l != cursorV ==> RowAt(l) == old(RowAt(l))
    {
      hide Typed;
      var del := where - cursorH;
      if del > 4 && caps.right {
        realH := Min(realH + del, width - 1);
      } else {
        TabTowards(where);
        assert forall l :: RowAt(l) == old(RowAt(l));
        Rewrite(where);
      }
      cursorH := where;
    }

    predicate TabOverrun'(from: int, to: int) {
      256 <= from < to && caps.tabs && !(to - from > 4 && caps.right)
    }

    // ----- editing the row under the cursor -----

    /** Where column h of row v is, when h may be the right margin. */
    function Wrapped(v: int, h: int): (p: (int, int)) {
      if h < width then (v, h) else if caps.autoMargin then (v + 1, 0) else (v, width - 1)
    }

    /** Insert_write, by whichever of IC, im/ei or ic the terminal has. */
    method InsertWrite(buf: array<Cell>, at: int, num: int)
      requires Valid() && 0 <= cursorH && !inserting
      requires 0 < num <= width ==> 0 <= at && at + num <= buf.Length
      modifies this`rows, this`realV, this`realH, this`cursorV, this`cursorH, this`inserting
      ensures Valid() && 0 <= cursorH && !inserting
      ensures num <= 0 || num > width || !caps.CanIns() ==> unchanged(this)
      ensures old(InSync()) && 0 < num && caps.CanIns() && old(cursorH) + num <= width ==>
                && InSync() && (cursorV, cursorH) == Wrapped(old(cursorV), old(cursorH) + num)
                && RowAt(old(cursorV)) == InsertAt(old(RowAt(cursorV)), old(realH), buf[at..at + num])
                && (forall l :: l != old(cursorV) ==> RowAt(l) == old(RowAt(l)))
    {
      if num <= 0 || !caps.CanIns() || num > width {
        return;
      }
      if caps.multiInsert && (num > 1 || !caps.charInsert) {
        InsertAtOnce(buf, at, num);
      } else if caps.insertMode {
        InsertInMode(buf, at, num);
      } else {
        InsertOneByOne(buf, at, num);
      }
    }

    /** IC and then the cells. */
    method InsertAtOnce(buf: array<Cell>, at: nat, num: nat)
      requires Valid() && 0 <= cursorH && !inserting
      requires 0 < num <= width && at + num <= buf.Length
      modifies this`rows, this`realV, this`realH, this`cursorV, this`cursorH
      ensures Valid() && 0 <= cursorH
      ensures old(InSync()) && old(cursorH) + num <= width ==>
                && InSync() && (cursorV, cursorH) == Wrapped(old(cursorV), old(cursorH) + num)
                && RowAt(old(cursorV)) == InsertAt(old(RowAt(cursorV)), old(realH), buf[at..at + num])
                && (forall l :: l != old(cursorV) ==> RowAt(l) == old(RowAt(l)))
    {
      hide Typed;
      hide Put;
      hide InsertAt;
      if realH + num <= width {
        OpenThenPut(RowAt(realV), realH, buf[at..at + num]);
      }
      OpenBlanks(num);
      SoWrite(buf, at, num);
    }

    /** im, the cells, and ei. */
    method InsertInMode(buf: array<Cell>, at: nat, num: nat)
      requires Valid() && 0 <= cursorH && !inserting
      requires 0 < num <= width && at + num <= buf.Length
      modifies this`rows, this`realV, this`realH, this`cursorV, this`cursorH, this`inserting
      ensures Valid() && 0 <= cursorH && !inserting
      ensures old(InSync()) && old(cursorH) + num <= width ==>
                && InSync() && (cursorV, cursorH) == Wrapped(old(cursorV), old(cursorH) + num)
                && RowAt(old(cursorV)) == InsertAt(old(RowAt(cursorV)), old(realH), buf[at..at + num])
                && (forall l :: l != old(cursorV) ==> RowAt(l) == old(RowAt(l)))
    {
      hide Typed;
      hide InsertAt;
      inserting := true;
      assert forall l :: RowAt(l) == old(RowAt(l));
      SoWrite(buf, at, num);
      ghost var shown := rows;
      inserting := false;
      assert forall l :: RowAt(l) == RowIn(shown, l, width);
    }

    /** The last resort of Insert_write: ic in front of every character. */
    method InsertOneByOne(buf: array<Cell>, at: nat, num: nat)
      requires Valid() && 0 <= cursorH && !inserting
      requires 0 < num <= width && at + num <= buf.Length
      modifies this`rows, this`realV, this`realH, this`cursorV, this`cursorH
      ensures Valid() && 0 <= cursorH
      ensures old(InSync()) && old(cursorH) + num <= width ==>
                && InSync() && (cursorV, cursorH) == Wrapped(old(cursorV), old(cursorH) + num)
                && RowAt(old(cursorV)) == InsertAt(old(RowAt(cursorV)), old(realH), buf[at..at + num])
                && (forall l :: l != old(cursorV) ==> RowAt(l) == old(RowAt(l)))
    {
      ghost var before, v, h := rows, cursorV, realH;
      ghost var fits := InSync() && h + num <= width;
      EditNothing(RowAt(v), h);
      var i := 0;
      while i < num
        invariant 0 <= i <= num && Valid() && 0 <= cursorH
        invariant fits ==> Inserted(before, v, h, buf[at..at + i])
      {
        InsertOne(buf, at + i, before, v, h, buf[at..at + i]);
        assert buf[at..at + i] + [buf[at + i]] == buf[at..at + (i + 1)];
        i := i + 1;
      }
    }

    /** s has been inserted at column h of row v on a screen that held the rows before. */
    ghost predicate Inserted(before: map<int, seq<Cell>>, v: int, h: nat, s: seq<Cell>)
      requires Valid() && h < width
      requires forall l :: l in before ==> |before[l]| == width
      reads this
    {
      && InSync() && (cursorV, cursorH) == Wrapped(v, h + |s|)
      && RowAt(v) == InsertAt(RowIn(before, v, width), h, s)
      && (forall l :: l != v ==> RowAt(l) == RowIn(before, l, width))
    }

    method InsertOne(buf: array<Cell>, at: nat,
                     ghost before: map<int, seq<Cell>>, ghost v: int, ghost h: nat, ghost s: seq<Cell>)
      requires Valid() && 0 <= cursorH && !inserting && at < buf.Length && h < width
      requires forall l :: l in before ==> |before[l]| == width
      modifies this`rows, this`realV, this`realH, this`cursorV, this`cursorH
      ensures Valid() && 0 <= cursorH
      ensures old(Inserted(before, v, h, s)) && h + |s| + 1 <= width ==> Inserted(before, v, h, s + [buf[at]])
    {
      hide Put;
      hide InsertAt;
      hide Typed;
      OpenThenPut(RowAt(realV), realH, [buf[at]]);
      if Inserted(before, v, h, s) && h + |s| + 1 <= width {
        InsertStep(RowIn(before, v, width), h, s, buf[at]);
      }
      assert buf[at..at + 1] == [buf[at]];
      OpenBlanks(1);
      SoWrite(buf, at, 1);
    }

    /** DeleteChars, by DC or by dc once per character. */
    method DeleteChars(num: int)
      requires Valid()
      modifies this`rows
      ensures Valid()
      ensures num <= 0 || num > width || !caps.CanDel() ==> unchanged(this)
      ensures 0 < num <= width && caps.CanDel() ==> RowAt(realV) == DeleteAt(old(RowAt(realV)), realH, num)
      ensures forall l :: l != realV ==> RowAt(l) == old(RowAt(l))
    {
      if num <= 0 || !caps.CanDel() || num > width {
        return;
      }
      if caps.multiDelete && (num > 1 || !caps.charDelete) {
        RemoveCells(num);
        return;
      }
      ghost var row := RowAt(realV);
      EditNothing(row, realH);
      var i := 0;
      while i < num
        invariant 0 <= i <= num && Valid()
        invariant RowAt(realV) == DeleteAt(row, realH, i)
        invariant forall l :: l != realV ==> RowAt(l) == old(RowAt(l))
      {
        DeleteStep(row, realH, i);
        RemoveCells(1);
        i := i + 1;
      }
    }

    /**
     * ClearEOL. Without the string ce it writes num spaces, and then counts
     * CursorH up without the wrap test that so_write makes.
     */
    method ClearEOL(num: int)
      requires Valid() && !inserting
      modifies this`rows, this`realV, this`realH, this`cursorH
      ensures Valid()
      ensures num <= 0 ==> unchanged(this)
      ensures 0 < num && caps.clearToEnd ==>
                && unchanged(`realV, `realH, `cursorH)
                && RowAt(realV) == Fit(old(RowAt(realV))[..realH], width)
                && (forall l :: l != realV ==> RowAt(l) == old(RowAt(l)))
      ensures 0 < num && !caps.clearToEnd ==>
                && cursorH == old(cursorH) + num
                && (realV, realH) == After(old(realV), old(realH), num)
      ensures 0 < num && !caps.clearToEnd && old(realH) + num <= width ==>
                && RowAt(old(realV)) == Put(old(RowAt(realV)), old(realH), Blanks(num))
                && (forall l :: l != old(realV) ==> RowAt(l) == old(RowAt(l)))
    {
      hide Typed;
      if num <= 0 {
        return;
      }
      if caps.clearToEnd {
        SetRow(Fit(RowAt(realV)[..realH], width));
        return;
      }
      ghost var before, v, h := rows, realV, realH;
      EditNothing(RowAt(v), h);
      TypedNone(before, v, h, Blanks(0));
      var i := 0;
      while i < num
        invariant 0 <= i <= num && Valid() && cursorH == old(cursorH)
        invariant Wrote(before, v, h, Blanks(i))
      {
        PutNext(BLANK, before, v, h, Blanks(i));
        assert Blanks(i) + [BLANK] == Blanks(i + 1);
        i := i + 1;
      }
      cursorH := cursorH + num;
    }

    /** The rows that MoveToLine crosses by rewriting their last cell are on record as they are. */
    ghost predicate ShownBetween(from: int, to: int)
      requires Valid()
      reads this, set l | 0 <= l < |display| :: display[l]
    {
      forall l :: from <= l < to && 0 <= l < |display| && 0 < display[l].Length && display[l][0] != NUL ==>
        Shown(l, width)
    }

    /** Wrap to the next row by writing the last cell of this one again. */
    method WrapDown()
      requires Valid() && 0 <= cursorH && !inserting && caps.autoMargin
      requires 0 <= cursorV < |display| && width < display[cursorV].Length
      modifies this`rows, this`realV, this`realH, this`cursorV, this`cursorH
      ensures Valid() && cursorV == old(cursorV) + 1 && cursorH == 0
      ensures old(InSync()) && old(Shown(cursorV, width)) && (caps.tabs ==> width <= 256) ==>
                InSync() && forall l :: RowAt(l) == old(RowAt(l))
    {
      hide Put;
      ghost var known := InSync() && Shown(cursorV, width) && (caps.tabs ==> width <= 256);
      MoveToChar(width - 1);
      if known {
        assert InSync() && Shown(cursorV, width);
        PutSame(RowAt(realV), realH, display[cursorV][cursorH..width]);
      }
      SoWrite(display[cursorV], cursorH, width - cursorH);
    }

    method MoveToLine(where: int)
      requires Valid() && 0 <= cursorH && !inserting
      requires 0 <= cursorV < |display| && 0 <= where < |display|
      requires forall l :: 0 <= l < |display| ==> width < display[l].Length
      modifies this`rows, this`realV, this`realH, this`cursorV, this`cursorH
      ensures Valid() && cursorV == where && 0 <= cursorH
      ensures where == old(cursorV) ==> unchanged(this)
      ensures old(InSync()) && where < old(cursorV) ==> (InSync() <==> caps.up)
      ensures old(InSync()) && (where < old(cursorV) ==> caps.up) && (caps.tabs ==> width <= 256)
                && (caps.autoMargin ==> old(ShownBetween(cursorV, where))) ==>
                InSync() && forall l :: RowAt(l) == old(RowAt(l))
    {
      if where == cursorV {
        return;
      }
      var del := where - cursorV;
      if del > 0 {
        ghost var known := InSync() && (caps.tabs ==> width <= 256)
                           && (caps.autoMargin ==> ShownBetween(cursorV, where));
        while del > 0
          invariant Valid() && 0 <= cursorH && !inserting && 0 <= del
          invariant 0 < del ==> old(cursorV) <= cursorV == where - del
          invariant known ==> realH == cursorH && realV == where - del
          invariant known ==> forall l :: RowAt(l) == old(RowAt(l))
        {
          if caps.autoMargin && display[cursorV][0] != NUL {
            assert known ==> Shown(cursorV, width);
            WrapDown();
            del := del - 1;
          } else if del > 1 && caps.down {
            realV, del := realV + del, 0;
          } else {
            // each newline goes out as carriage return and line feed
            realV, realH, del := realV + del, 0, 0;
            cursorH := 0;
          }
        }
      } else if caps.up {
        realV := realV + del;
      }
      cursorV := where;
    }
  }
}
