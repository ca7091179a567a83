/** The editing half of update_line, and the buffer edits that shadow it. */
module Differ {
  import opened Cells
  import opened TerminalIO
  import opened RowPlan

  // ----- str_insert, str_delete, str_cp, cpy_pad_spaces -----

  /** Shift d[dat..dlen] right by k; what passes dlen is lost. */
  method OpenUp(d: array<Cell>, dat: nat, dlen: nat, k: nat)
    requires dat + k <= dlen < d.Length
    modifies d
    ensures forall i :: 0 <= i < dat ==> d[i] == old(d[i])
    ensures forall i :: dat + k <= i < dlen ==> d[i] == old(d[i - k])
  {
    var b := dlen - 1;
    var a := b - k;
    while a >= dat
      invariant dat - 1 <= a && b - a == k && b < dlen
      invariant forall i :: 0 <= i <= b ==> d[i] == old(d[i])
      invariant forall i :: b < i < dlen ==> d[i] == old(d[i - k])
    {
      d[b] := d[a];
      a, b := a - 1, b - 1;
    }
    d[dlen] := NUL;
  }

  /** Insert num cells of s[at..] into d at dat, or as many as there is room for; d holds dlen cells and a NUL. */
  method StrInsert(d: array<Cell>, dat: nat, dlen: nat, s: array<Cell>, at: nat, num: int)
    requires dat <= dlen < d.Length && d != s
    requires num > 0 ==> at + Min(num, dlen - dat) <= s.Length
    modifies d
    ensures num <= 0 ==> d[..] == old(d[..])
    ensures 0 < num ==>
              var k := Min(num, dlen - dat);
              forall j :: 0 <= j < dlen ==>
                d[j] == if j < dat then old(d[j]) else if j < dat + k then s[at + (j - dat)] else old(d[j - k])
  {
    if num <= 0 {
      return;
    }
    var k := Min(num, dlen - dat);
    if k > 0 {
      OpenUp(d, dat, dlen, k);
    }
    FillIn(d, dat, s, at, k);
  }

  /** Write k cells of s[at..] over d[dat..]. */
  method FillIn(d: array<Cell>, dat: nat, s: array<Cell>, at: nat, k: nat)
    requires d != s && dat + k <= d.Length && at + k <= s.Length
    modifies d
    ensures forall j :: 0 <= j < d.Length ==> d[j] == if dat <= j < dat + k then s[at + (j - dat)] else old(d[j])
  {
    var i := 0;
    while i < k
      invariant 0 <= i <= k
      invariant forall j :: 0 <= j < d.Length ==> d[j] == if dat <= j < dat + i then s[at + (j - dat)] else old(d[j])
    {
      d[dat + i] := s[at + i];
      i := i + 1;
    }
  }

  /** Delete num cells of d at dat. */
  method StrDelete(d: array<Cell>, dat: nat, dlen: nat, num: int)
    requires dat < dlen < d.Length
    modifies d
    ensures num <= 0 ==> d[..] == old(d[..])
    ensures 0 < num && dat + num < dlen ==> forall j :: 0 <= j < dlen - num ==>
              d[j] == if j < dat then old(d[j]) else old(d[j + num])
    ensures 0 < num && dat + num >= dlen ==> d[dat] == NUL && d[..dat] == old(d[..dat])
  {
    if num <= 0 {
      return;
    }
    if dat + num >= dlen {
      d[dat] := NUL;
      return;
    }
    var b := dat;
    while b + num < dlen
      invariant dat <= b && b + num <= dlen
      invariant forall i :: 0 <= i < dat ==> d[i] == old(d[i])
      invariant forall i :: dat <= i < b ==> d[i] == old(d[i + num])
      invariant forall i :: b <= i < dlen ==> d[i] == old(d[i])
    {
      d[b] := d[b + num];
      b := b + 1;
    }
    d[dlen] := NUL;
  }

  /** Copy n cells of b[bt..] over a[at..], stopping at a NUL. */
  method StrCp(a: array<Cell>, at: nat, b: array<Cell>, bt: nat, n: nat)
    requires a != b && bt + n <= b.Length && at + Len(b[bt..bt + n]) <= a.Length
    modifies a
    ensures var k := Len(b[bt..bt + n]);
            forall j :: 0 <= j < a.Length ==> a[j] == if at <= j < at + k then b[bt + (j - at)] else old(a[j])
  {
    var i := 0;
    ghost var s := b[bt..bt + n];
    while i < n && b[bt + i] != NUL
      invariant 0 <= i <= Len(s)
      invariant forall j :: 0 <= j < a.Length ==> a[j] == if at <= j < at + i then b[bt + (j - at)] else old(a[j])
    {
      a[at + i] := b[bt + i];
      i := i + 1;
    }
  }

  /** cpy_pad_spaces: the new text, padded with blanks, becomes the row on record. */
  method CpyPadSpaces(dst: array<Cell>, src: array<Cell>, width: nat)
    requires dst != src && width < dst.Length && Len(src[..]) < src.Length
    modifies dst
    ensures dst[..width] == Fit(src[..Len(src[..])], width) && dst[width] == NUL
  {
    var i := 0;
    while i < width && src[i] != NUL
      invariant 0 <= i <= width && i <= Len(src[..])
      invariant dst[..i] == src[..i]
    {
      dst[i] := src[i];
      i := i + 1;
    }
    ghost var n := i;
    while i < width
      invariant n <= i <= width
      invariant dst[..n] == src[..n] && forall j :: n <= j < i ==> dst[j] == BLANK
    {
      dst[i] := BLANK;
      i := i + 1;
    }
    dst[width] := NUL;
  }

  // ----- the parts of the two rows that a plan tells apart -----

  lemma SplitAt(s: seq<Cell>, a: nat, b: nat, c: nat, d: nat, e: nat)
    requires a <= b <= c <= d <= e <= |s|
    ensures s[..e] == s[..a] + s[a..b] + (s[b..c] + (s[c..d] + s[d..e]))
    ensures s[..c] == s[..a] + s[a..b] + s[b..c] && s[..b] == s[..a] + s[a..b]
  {
  }

  /** How a sound plan splits both texts. */
  lemma Split(p: Plan, o: seq<Cell>, n: seq<Cell>)
    requires p.Sound(o, n)
    ensures o[..p.oe] == n[..p.f] + o[p.f..p.osb] + (n[p.nsb..p.nse] + (o[p.ose..p.ols] + n[p.nls..p.ne]))
    ensures n[..p.ne] == n[..p.f] + n[p.f..p.nsb] + (n[p.nsb..p.nse] + (n[p.nse..p.nls] + n[p.nls..p.ne]))
    ensures n[..p.nse] == n[..p.f] + n[p.f..p.nsb] + n[p.nsb..p.nse]
    ensures n[..p.nsb] == n[..p.f] + n[p.f..p.nsb]
  {
    SplitAt(o, p.f, p.osb, p.ose, p.ols, p.oe);
    SplitAt(n, p.f, p.nsb, p.nse, p.nls, p.ne);
  }

  // ----- the three ways in which a stretch of the row is replaced -----

  /** Ready to edit the row under the cursor at column h, where the row shows text. */
  ghost predicate At(t: Terminal, h: int, text: seq<Cell>)
    reads t
  {
    && t.Valid() && t.InSync() && !t.inserting
    && t.cursorH == h
    && t.RowAt(t.cursorV) == Fit(text, t.width)
  }

  /** No row but l differs from the rows before. */
  ghost predicate OnlyRow(t: Terminal, l: int, before: map<int, seq<Cell>>)
    requires t.Valid() && forall k :: k in before ==> |before[k]| == t.width
    reads t
  {
    forall k :: k != l ==> t.RowAt(k) == RowIn(before, k, t.width)
  }

  /** Insert_write of b, which may be nothing. */
  method InsertPart(t: Terminal, new_: array<Cell>, at: nat, fx: nat, ghost b: seq<Cell>)
    requires t.Valid() && t.InSync() && !t.inserting && t.cursorH == at && (fx > 0 ==> t.caps.CanIns())
    requires at + fx < t.width && at + fx <= new_.Length && new_[at..at + fx] == b
    modifies t`rows, t`realV, t`realH, t`cursorV, t`cursorH, t`inserting
    ensures t.Valid() && t.InSync() && !t.inserting && t.cursorV == old(t.cursorV) && t.cursorH == at + fx
    ensures t.RowAt(t.cursorV) == InsertAt(old(t.RowAt(t.cursorV)), at, b)
    ensures OnlyRow(t, t.cursorV, old(t.rows))
  {
    hide Terminal.Typed;
    hide InsertAt;
    if fx > 0 {
      t.InsertWrite(new_, at, fx);
    } else {
      EditNothing(t.RowAt(t.cursorV), at);
    }
  }

  /** so_write of b, which may be nothing. */
  method WritePart(t: Terminal, new_: array<Cell>, at: nat, n: nat, ghost b: seq<Cell>)
    requires t.Valid() && t.InSync() && !t.inserting && t.cursorH == at
    requires at + n < t.width && at + n <= new_.Length && new_[at..at + n] == b
    modifies t`rows, t`realV, t`realH, t`cursorV, t`cursorH
    ensures t.Valid() && t.InSync() && t.cursorV == old(t.cursorV) && t.cursorH == at + n
    ensures t.RowAt(t.cursorV) == Put(old(t.RowAt(t.cursorV)), at, b)
    ensures OnlyRow(t, t.cursorV, old(t.rows))
  {
    hide Terminal.Typed;
    hide Put;
    if n == 0 {
      EditNothing(t.RowAt(t.cursorV), at);
    }
    t.SoWrite(new_, at, n);
  }

  /** Insert_write of fx cells and so_write of the rest: a becomes the longer new[at..]. */
  method InsertAndWrite(t: Terminal, new_: array<Cell>, at: nat, fx: nat, rest: nat,
                        ghost x: seq<Cell>, ghost a: seq<Cell>, ghost b: seq<Cell>, ghost y: seq<Cell>)
    requires At(t, at, x + a + y) && |x| == at && (fx > 0 ==> t.caps.CanIns())
    requires |x + b| < t.width && |x + b| <= new_.Length && new_[|x|..|x + b|] == b
    requires |a| == rest && |b| == fx + rest
    modifies t`rows, t`realV, t`realH, t`cursorV, t`cursorH, t`inserting
    ensures At(t, |x + b|, x + b + y) && t.cursorV == old(t.cursorV)
    ensures OnlyRow(t, t.cursorV, old(t.rows))
  {
    hide Put;
    hide InsertAt;
    hide Fit;
    assert new_[at..at + fx] == b[..fx] && new_[at + fx..at + fx + rest] == b[fx..];
    ReplaceGrow(x, a, b, y, t.width);
    InsertPart(t, new_, at, fx, b[..fx]);
    WritePart(t, new_, at + fx, rest, b[fx..]);
  }

  /** DeleteChars of num cells and so_write: a becomes the shorter new[at..]. */
  method DeleteAndWrite(t: Terminal, new_: array<Cell>, at: nat, num: nat, n: nat,
                        ghost x: seq<Cell>, ghost a: seq<Cell>, ghost b: seq<Cell>, ghost y: seq<Cell>)
    requires At(t, |x|, x + a + y) && t.caps.CanDel() && 0 < num
    requires |x + a + y| <= t.width && |x + b| < t.width && at + n <= new_.Length && new_[at..at + n] == b
    requires |b| == n && |a| == num + n
    modifies t`rows, t`realV, t`realH, t`cursorV, t`cursorH
    ensures At(t, |x + b|, x + b + y) && t.cursorV == old(t.cursorV)
    ensures OnlyRow(t, t.cursorV, old(t.rows))
  {
    hide Terminal.Typed;
    hide Put;
    hide DeleteAt;
    ReplaceShrink(x, a, b, y, t.width);
    t.DeleteChars(num);
    t.SoWrite(new_, at, n);
    if n == 0 {
      EditNothing(t.RowAt(t.cursorV), |x|);
    }
  }

  /** so_write over the end of the text and ClearEOL of what is left of the old one. */
  method WriteAndClear(t: Terminal, new_: array<Cell>, at: nat, n: nat, num: int,
                       ghost x: seq<Cell>, ghost a: seq<Cell>, ghost b: seq<Cell>)
    requires At(t, |x|, x + a) || (n == 0 && num <= 0 && t.Valid() && t.InSync() && !t.inserting)
    requires |x + b| <= t.width && at + n <= new_.Length && new_[at..at + n] == b && |b| == n
    requires || (n == 0 && num <= 0)
             || (|x + b| + num <= t.width && (|x + a| <= |x + b| + num || t.width <= |x + b| + num))
    modifies t`rows, t`realV, t`realH, t`cursorV, t`cursorH
    ensures t.Valid() && 0 <= t.cursorH
    ensures old(t.cursorV) <= t.cursorV <= old(t.cursorV) + 1
    ensures n == 0 && num <= 0 ==> unchanged(t)
    ensures 0 < n || 0 < num ==> t.RowAt(old(t.cursorV)) == Fit(x + b, t.width)
    ensures OnlyRow(t, old(t.cursorV), old(t.rows))
    // writing blanks up to the right margin is where the editor loses the cursor
    ensures t.InSync() <==> t.caps.clearToEnd || num <= 0 || |x + b| + num < t.width
    ensures 0 < num || |x + b| < t.width ==> t.cursorV == old(t.cursorV)
  {
    hide Terminal.Typed;
    hide Terminal.Piles;
    hide Put;
    hide Fit;
    ghost var row := t.RowAt(t.cursorV);
    t.SoWrite(new_, at, n);
    if n == 0 && num <= 0 {
      return;
    }
    if n == 0 {
      EditNothing(row, |x|);
    }
    if num <= 0 {
      ReplaceEnd(x, a, b, t.width);
    } else if t.caps.clearToEnd {
      ReplaceAndClear(x, a, b, t.width);
    } else {
      ReplaceAndBlank(x, a, b, num, t.width);
    }
    t.ClearEOL(num);
  }
}
