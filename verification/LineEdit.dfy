/** The line of the editor: inserting, deleting, killing, yanking and undoing in ed.chared.c. */
module LineEdit {
  import opened Sequences
  import opened KillList
  import opened KillRing

  datatype Action = Nop | Delete | Insert

  /** A line without its characters lo to hi. */
  function Cut(t: string, lo: nat, hi: nat): string
    requires lo <= hi <= |t|
  {
    t[..lo] + t[hi..]
  }

  /** A line with x put in at lo. */
  function Paste(t: string, lo: nat, x: string): string
    requires lo <= |t|
  {
    t[..lo] + x + t[lo..]
  }

  lemma PasteCut(t: string, lo: nat, hi: nat, x: string)
    requires lo <= hi <= |t|
    ensures Paste(Cut(t, lo, hi), lo, x) == t[..lo] + x + t[hi..]
    ensures Paste(Cut(t, lo, hi), lo, x) == t <==> x == t[lo..hi]
  {
    var r := t[..lo] + x + t[hi..];
    if r == t {
      assert |x| == hi - lo && forall i :: 0 <= i < |x| ==> x[i] == r[lo + i];
    }
  }

  lemma LengthOf(t: string, lo: nat, hi: nat)
    requires lo <= hi <= |t|
    ensures |Cut(t, lo, hi)| == |t| - (hi - lo)
  {
  }

  lemma CutIs(t: string, lo: nat, num: nat, r: string)
    requires lo + num <= |t| == |r| + num
    requires forall i :: 0 <= i < lo ==> r[i] == t[i]
    requires forall i :: lo <= i < |r| ==> r[i] == t[i + num]
    ensures r == Cut(t, lo, lo + num)
  {
  }

  lemma PasteIs(t: string, lo: nat, x: string, r: string)
    requires lo <= |t| && |r| == |t| + |x|
    requires forall i :: 0 <= i < lo ==> r[i] == t[i]
    requires forall i :: lo <= i < lo + |x| ==> r[i] == x[i - lo]
    requires forall i :: lo + |x| <= i < |r| ==> r[i] == t[i - |x|]
    ensures r == Paste(t, lo, x)
  {
  }

  lemma PartOf(a: array<char>, n: nat, lo: nat, hi: nat)
    requires lo <= hi <= n <= a.Length
    ensures a[lo..hi] == a[..n][lo..hi]
  {
  }

  /** Where the mark goes when the characters from lo to hi are deleted. */
  function MarkAfter(mark: int, lo: nat, hi: nat): int
    requires lo <= hi
  {
    if mark > lo && mark <= hi then lo else if mark > lo then mark - (hi - lo) else mark
  }

  /** The mark keeps its place in the text that stays, and falls on the cut if its own went. */
  lemma MarkKeeps(t: string, mark: nat, lo: nat, hi: nat)
    requires lo <= hi <= |t| && mark <= |t|
    ensures var r, m := Cut(t, lo, hi), MarkAfter(mark, lo, hi);
            && 0 <= m <= |r| && MarkAfter(-1, lo, hi) == -1
            && (mark <= lo ==> r[..m] == t[..mark])
            && (mark >= hi ==> r[m..] == t[mark..])
            && (lo <= mark <= hi ==> r[..m] == t[..lo] && r[m..] == t[hi..])
            && (mark < lo || hi <= mark < |t| ==> m < |r| && r[m] == t[mark])
  {
  }

  /** An insertion at p takes the mark along with the text behind it. */
  lemma MarkMoves(t: string, mark: nat, p: nat, x: string)
    requires p <= |t| && mark <= |t|
    ensures var r, m := Paste(t, p, x), if mark > p then mark + |x| else mark;
            && (mark <= p ==> r[..m] == t[..mark])
            && (mark > p ==> r[m..] == t[mark..])
  {
    var r := Paste(t, p, x);
    assert mark > p ==> r[p + |x|..] == t[p..] && r[p + |x|..][mark - p..] == r[mark + |x|..];
  }

  class Editor {
    const buf: array<char>
    const undo: array<char>
    const vi: bool
    var cursor: nat
    var lastChar: nat
    var mark: int
    var undoAction: Action
    var undoPtr: nat
    var undoSize: nat

    constructor (size: nat, vi: bool)
      requires size > 2
      ensures Valid() && Marked() && fresh(buf) && fresh(undo) && buf.Length == size && this.vi == vi && lastChar == 0
    {
      buf := new char[size];
      undo := new char[size];
      this.vi := vi;
      cursor, lastChar, mark := 0, 0, -1;
      undoAction, undoPtr, undoSize := Nop, 0, 0;
    }

    /** Two places are kept free behind the line. */
    ghost predicate Valid()
      reads `cursor, `lastChar
    {
      buf != undo && buf.Length == undo.Length && cursor <= lastChar && lastChar + 2 < buf.Length
    }

    /** The mark is in the line, or -1 when it is not set. */
    ghost predicate Marked()
      reads `lastChar, `mark
    {
      -1 <= mark <= lastChar
    }

    ghost function Text(): string
      requires lastChar <= buf.Length
      reads `lastChar, buf
    {
      buf[..lastChar]
    }

    predicate Fits(num: nat) reads `lastChar { lastChar + num + 2 < buf.Length }

    /** for (cp = LastChar; cp >= Cursor; cp--) */
    method OpenUp(num: nat)
      requires Valid() && Fits(num)
      modifies buf
      ensures forall i :: 0 <= i < cursor ==> buf[i] == old(buf[i])
      ensures forall i :: cursor + num <= i <= lastChar + num ==> buf[i] == old(buf[i - num])
    {
      ghost var b := buf[..];
      var cp: int := lastChar;
      while cp >= cursor
        invariant cursor - 1 <= cp <= lastChar
        invariant forall i :: 0 <= i <= cp ==> buf[i] == b[i]
        invariant forall i :: cp + num < i <= lastChar + num ==> buf[i] == b[i - num]
      {
        buf[cp + num] := buf[cp];
        cp := cp - 1;
      }
    }

    /** c_insert: open num places at the cursor; what stands in them is left over. */
    method CInsert(num: nat)
      requires Valid()
      modifies `lastChar, `mark, buf
      ensures Valid() && lastChar == if old(Fits(num)) then old(lastChar) + num else old(lastChar)
      ensures !old(Fits(num)) ==> buf[..] == old(buf[..]) && mark == old(mark)
      ensures old(Marked()) ==> Marked()
      ensures old(Marked() && Fits(num)) ==> mark == if old(mark) > cursor then old(mark) + num else old(mark)
      ensures forall i :: 0 <= i < cursor ==> buf[i] == old(buf[i])
      ensures old(Fits(num)) ==> forall i :: cursor + num <= i < lastChar ==> buf[i] == old(buf[i - num])
    {
      if lastChar + num >= buf.Length - 2 {
        return;
      }
      if cursor < lastChar {
        OpenUp(num);
        if mark > cursor {
          mark := mark + num;
        }
      }
      lastChar := lastChar + num;
    }

    /** The character at i; beyond the buffer it could be anything. */
    function Peek(i: nat): char
      reads buf
    {
      if i < buf.Length then buf[i] else '?'
    }

    /** for (cp = from; cp <= LastChar; cp++) with what is overwritten saved for undo */
    method SaveAndShift(from: nat, num: nat)
      requires Valid() && from + num <= lastChar
      modifies buf, undo
      ensures forall i :: 0 <= i < from ==> buf[i] == old(buf[i])
      ensures forall i :: from <= i < lastChar - num ==> buf[i] == old(buf[i + num])
      ensures forall i :: 0 <= i < num ==> undo[i] == old(buf[from + i])
    {
      var cp, kp := from, 0;
      while cp <= lastChar
        invariant from <= cp <= lastChar + 1 && kp == cp - from
        invariant forall i :: 0 <= i < from ==> buf[i] == old(buf[i])
        invariant forall i :: from <= i < cp && i < lastChar - num ==> buf[i] == old(buf[i + num])
        invariant forall i :: cp <= i < buf.Length ==> buf[i] == old(buf[i])
        invariant forall i :: 0 <= i < kp ==> undo[i] == old(buf[from + i])
      {
        undo[kp] := buf[cp];
        buf[cp] := Peek(cp + num);
        cp, kp := cp + 1, kp + 1;
      }
    }

    /** for (cp = from; cp + num <= LastChar; cp++) */
    method Shift(from: nat, num: nat)
      requires Valid() && from + num <= lastChar
      modifies buf
      ensures forall i :: 0 <= i < from ==> buf[i] == old(buf[i])
      ensures forall i :: from <= i < lastChar - num ==> buf[i] == old(buf[i + num])
    {
      var cp := from;
      while cp + num <= lastChar
        invariant from <= cp <= lastChar + 1 - num
        invariant forall i :: 0 <= i < from ==> buf[i] == old(buf[i])
        invariant forall i :: from <= i < cp ==> buf[i] == old(buf[i + num])
        invariant forall i :: cp <= i < buf.Length ==> buf[i] == old(buf[i])
      {
        buf[cp] := buf[cp + num];
        cp := cp + 1;
      }
    }

    /** What a deletion of lo to hi leaves for undo, in vi mode. */
    ghost predicate Undoable(t: string, lo: nat, hi: nat)
      requires lo <= hi <= |t|
      reads `undoAction, `undoPtr, `undoSize, undo
    {
      undoAction == Insert && undoPtr == lo && undoSize == hi - lo <= undo.Length && undo[..hi - lo] == t[lo..hi]
    }

    method Remove(from: nat, num: nat)
      requires Valid() && 0 < num && from + num <= lastChar
      modifies `undoAction, `undoPtr, `undoSize, `lastChar, buf, undo
      ensures lastChar == old(lastChar) - num && Text() == Cut(old(Text()), from, from + num)
      ensures vi ==> Undoable(old(Text()), from, from + num)
    {
      ghost var t := Text();
      if vi {
        undoAction, undoSize, undoPtr := Insert, num, from;
        SaveAndShift(from, num);
      } else {
        Shift(from, num);
      }
      lastChar := lastChar - num;
      CutIs(t, from, num, Text());
      hide Cut;
    }

    /** c_delafter */
    method CDelAfter(num0: nat)
      requires Valid()
      modifies this, buf, undo
      ensures Valid() && cursor == old(cursor) && (old(Marked()) ==> Marked())
      ensures var t, hi := old(Text()), old(if cursor + num0 < lastChar then cursor + num0 else lastChar);
              && Text() == Cut(t, cursor, hi) && mark == MarkAfter(old(mark), cursor, hi)
              && (vi && cursor < hi ==> Undoable(t, cursor, hi))
    {
      var num := if num0 > lastChar - cursor then lastChar - cursor else num0;
      if num > 0 {
        Remove(cursor, num);
        if mark > cursor && mark <= cursor + num {
          mark := cursor;
        } else if mark > cursor {
          mark := mark - num;
        }
      }
    }

    /** c_delbefore */
    method CDelBefore(num0: nat)
      requires Valid()
      modifies this, buf, undo
      ensures Valid() && (old(Marked()) ==> Marked())
      ensures var t, hi := old(Text()), old(cursor);
              && cursor == (if num0 < hi then hi - num0 else 0)
              && Text() == Cut(t, cursor, hi) && mark == MarkAfter(old(mark), cursor, hi)
              && (vi && cursor < hi ==> Undoable(t, cursor, hi))
    {
      var num := if num0 > cursor then cursor else num0;
      if num > 0 {
        Remove(cursor - num, num);
        cursor := cursor - num;
        if mark > cursor && mark <= cursor + num {
          mark := cursor;
        } else if mark > cursor {
          mark := mark - num;
        }
      }
    }

    /** What v_undo counts on: what it is to put back fits, and what it is to take out is there. */
    predicate CanUndo()
      reads `undoAction, `undoPtr, `undoSize, `lastChar
    {
      match undoAction
      case Insert => undoPtr <= lastChar && undoSize <= undo.Length && Fits(undoSize)
      case Delete => undoPtr + undoSize <= lastChar
      case Nop => true
    }

    /** v_undo: take back a deletion, or the insertion that took it back; the mark stays where it was in that case. */
    method VUndo() returns (ok: bool)
      requires Valid() && CanUndo()
      modifies this, buf, undo
      ensures Valid() && ok == !old(undoAction).Nop? && undoPtr == old(undoPtr) && undoSize == old(undoSize)
      ensures old(undoAction).Insert? && undoSize > 0 ==>
                && Text() == Paste(old(Text()), undoPtr, old(undo[..undoSize])) && cursor == undoPtr
                && undoAction == Delete && CanUndo()
                && (old(Marked()) ==> Marked() && mark == old(if mark > undoPtr then mark + undoSize else mark))
      ensures old(undoAction).Delete? && undoSize > 0 ==>
                && Text() == Cut(old(Text()), undoPtr, undoPtr + undoSize) && cursor == undoPtr
                && Undoable(old(Text()), undoPtr, undoPtr + undoSize) && CanUndo() && mark == old(mark)
    {
      match undoAction
      case Delete =>
        if undoSize != 0 {
          TakeOut();
        }
        ok := true;
      case Insert =>
        if undoSize != 0 {
          PutBack();
        }
        ok := true;
      case Nop => ok := false;
    }

    method PutBack()
      requires Valid() && CanUndo() && undoAction == Insert && undoSize > 0
      modifies `cursor, `lastChar, `mark, `undoAction, buf
      ensures Valid() && undoAction == Delete && CanUndo()
      ensures old(Marked()) ==> Marked() && mark == if old(mark) > undoPtr then old(mark) + undoSize else old(mark)
      ensures Text() == Paste(old(Text()), undoPtr, undo[..undoSize]) && cursor == undoPtr
    {
      cursor := undoPtr;
      PutIn(undo[..undoSize]);
      undoAction := Delete;
    }

    method TakeOut()
      requires Valid() && CanUndo() && undoAction == Delete && undoSize > 0
      modifies `cursor, `lastChar, `undoAction, buf, undo
      ensures Valid() && undoAction == Insert && CanUndo() && cursor == undoPtr
      ensures Text() == Cut(old(Text()), undoPtr, undoPtr + undoSize)
      ensures Undoable(old(Text()), undoPtr, undoPtr + undoSize)
    {
      ghost var t := Text();
      SaveOut();
      ShiftAll(undoPtr, undoSize);
      lastChar := lastChar - undoSize;
      cursor := undoPtr;
      undoAction := Insert;
      CutIs(t, undoPtr, undoSize, Text());
      hide Cut;
    }

    method SaveOut()
      requires Valid() && undoPtr + undoSize <= lastChar
      modifies undo
      ensures undo[..undoSize] == Text()[undoPtr..undoPtr + undoSize]
    {
      var loop := 0;
      while loop < undoSize
        invariant loop <= undoSize
        invariant forall i :: 0 <= i < loop ==> undo[i] == buf[undoPtr + i]
      {
        undo[loop] := buf[undoPtr + loop];
        loop := loop + 1;
      }
      PartOf(buf, lastChar, undoPtr, undoPtr + undoSize);
      assert undo[..undoSize] == buf[undoPtr..undoPtr + undoSize];
    }

    /** for (cp = from; cp <= LastChar; cp++), without saving */
    method ShiftAll(from: nat, num: nat)
      requires Valid() && from + num <= lastChar
      modifies buf
      ensures forall i :: 0 <= i < from ==> buf[i] == old(buf[i])
      ensures forall i :: from <= i < lastChar - num ==> buf[i] == old(buf[i + num])
    {
      var cp := from;
      while cp <= lastChar
        invariant from <= cp <= lastChar + 1
        invariant forall i :: 0 <= i < from ==> buf[i] == old(buf[i])
        invariant forall i :: from <= i < cp && i < lastChar - num ==> buf[i] == old(buf[i + num])
        invariant forall i :: cp <= i < buf.Length ==> buf[i] == old(buf[i])
      {
        buf[cp] := Peek(cp + num);
        cp := cp + 1;
      }
    }

    /** The characters of x go to the places from p on. */
    method CopyIn(x: string, p: nat)
      requires p + |x| <= buf.Length
      modifies buf
      ensures forall i :: p <= i < p + |x| ==> buf[i] == x[i - p]
      ensures forall i :: 0 <= i < buf.Length && !(p <= i < p + |x|) ==> buf[i] == old(buf[i])
    {
      var i := 0;
      while i < |x|
        invariant i <= |x|
        invariant forall k :: p <= k < p + i ==> buf[k] == x[k - p]
        invariant forall k :: 0 <= k < buf.Length && !(p <= k < p + i) ==> buf[k] == old(buf[k])
      {
        buf[p + i] := x[i];
        i := i + 1;
      }
    }

    /** Open the places for x at the cursor, and fill them. */
    method PutIn(x: string)
      requires Valid() && Fits(|x|)
      modifies `lastChar, `mark, buf
      ensures Valid() && lastChar == old(lastChar) + |x| && Text() == Paste(old(Text()), cursor, x)
      ensures old(Marked()) ==> Marked() && mark == if old(mark) > cursor then old(mark) + |x| else old(mark)
    {
      ghost var t := Text();
      CInsert(|x|);
      CopyIn(x, cursor);
      PasteIs(t, cursor, x, Text());
    }

    /** In vi mode: c_delafter or c_delbefore, and two undos. The first brings the line back, the second takes the
        same characters out again. */
    method DeleteUndoUndo(num: nat, before: bool) returns (ghost back: string)
      requires Valid() && vi && num > 0 && (if before then cursor > 0 else cursor < lastChar)
      modifies this, buf, undo
      ensures Valid() && back == old(Text())
      ensures var hi := old(if before then cursor else if cursor + num < lastChar then cursor + num else lastChar);
              cursor < hi && Text() == Cut(old(Text()), cursor, hi)
    {
      ghost var t := Text();
      hide Cut;
      if before {
        CDelBefore(num);
      } else {
        CDelAfter(num);
      }
      back := UndoTwice(t, undoPtr, undoPtr + undoSize);
    }

    method UndoTwice(ghost t: string, ghost lo: nat, ghost hi: nat) returns (ghost back: string)
      requires Valid() && lo < hi <= |t| && |t| + 2 < buf.Length && Text() == Cut(t, lo, hi) && Undoable(t, lo, hi)
      modifies this, buf, undo
      ensures Valid() && back == t && Text() == Cut(t, lo, hi) && cursor == lo
    {
      UndoOnce(t, lo, hi);
      back := Text();
      var ok := VUndo();
    }

    method UndoOnce(ghost t: string, ghost lo: nat, ghost hi: nat)
      requires Valid() && lo < hi <= |t| && |t| + 2 < buf.Length && Text() == Cut(t, lo, hi) && Undoable(t, lo, hi)
      modifies this, buf, undo
      ensures Valid() && Text() == t && CanUndo()
      ensures undoAction == Delete && undoPtr == lo && undoSize == hi - lo
    {
      PasteCut(t, lo, hi, t[lo..hi]);
      LengthOf(t, lo, hi);
      hide Cut;
      hide Paste;
      var ok := VUndo();
    }
  }

  // ----- killing and yanking -----

  /** while (YankPos < 0) YankPos += KillRingLen; YankPos %= KillRingLen; */
  method UpAround(y0: int, len: nat) returns (y: int)
    requires len > 0
    ensures y == y0 % len
  {
    y := y0;
    while y < 0
      invariant y % len == y0 % len
      decreases -y
    {
      ModPlus(y, len);
      y := y + len;
    }
    y := y % len;
  }

  /** The commands that kill; those on words have found the other end of the word. */
  datatype Kill = KillEnd | KillBeg | KillAll | KillRegion | DelWordPrev(from: nat) | DelWordNext(to: nat)

  /** What a command kills; None when it refuses. */
  function Span(k: Kill, len: nat, cursor: nat, mark: int): (r: Option<(nat, nat)>)
    requires cursor <= len && mark <= len
    requires match k
             case DelWordPrev(from) => from <= cursor
             case DelWordNext(to) => cursor <= to <= len
             case _ => true
    ensures r.Some? ==> r.value.0 <= r.value.1 <= len
  {
    match k
    case KillEnd => Some((cursor, len))
    case KillBeg => Some((0, cursor))
    case KillAll => Some((0, len))
    case KillRegion =>
      if mark < 0 then None else if mark > cursor then Some((cursor, mark)) else Some((mark, cursor))
    case DelWordPrev(from) => if cursor == 0 then None else Some((from, cursor))
    case DelWordNext(to) => if cursor == len then None else Some((cursor, to))
  }

  /** Killing the whole line sets the mark to its start, and the other kills move it with the text. */
  function MarkLeft(k: Kill, mark: int, lo: nat, hi: nat): int
    requires lo <= hi
  {
    if k.KillAll? then 0 else MarkAfter(mark, lo, hi)
  }

  /** What each command takes out of the line, what it leaves, and when it refuses. */
  lemma SpanTakes(k: Kill, t: string, c: nat, mark: int, lo: nat, hi: nat)
    requires c <= |t| && mark <= |t|
    requires k.DelWordPrev? ==> k.from <= c
    requires k.DelWordNext? ==> c <= k.to <= |t|
    ensures var s := Span(k, |t|, c, mark);
            && (s.None? <==> (k.KillRegion? && mark < 0) || (k.DelWordPrev? && c == 0) || (k.DelWordNext? && c == |t|))
            && (s == Some((lo, hi)) ==>
                  && (k.KillEnd? ==> t[lo..hi] == t[c..] && Cut(t, lo, hi) == t[..c] && lo == c)
                  && (k.KillBeg? ==> t[lo..hi] == t[..c] && Cut(t, lo, hi) == t[c..] && lo == 0)
                  && (k.KillAll? ==> t[lo..hi] == t && Cut(t, lo, hi) == "" && lo == 0)
                  && (k.KillRegion? && mark <= c ==> t[lo..hi] == t[mark..c] && Cut(t, lo, hi) == t[..mark] + t[c..])
                  && (k.KillRegion? && mark > c ==> t[lo..hi] == t[c..mark] && Cut(t, lo, hi) == t[..c] + t[mark..])
                  && (k.DelWordPrev? ==> t[lo..hi] == t[k.from..c] && Cut(t, lo, hi) == t[..k.from] + t[c..])
                  && (k.DelWordNext? ==> t[lo..hi] == t[c..k.to] && Cut(t, lo, hi) == t[..c] + t[k.to..]))
  {
  }

  predicate CanKill(k: Kill, ed: Editor)
    reads ed`cursor, ed`lastChar
  {
    match k
    case DelWordPrev(from) => from <= ed.cursor
    case DelWordNext(to) => ed.cursor <= to <= ed.lastChar
    case _ => true
  }

  class Killer {
    const ed: Editor
    const kills: Ring

    ghost predicate Valid()
      reads ed`cursor, ed`lastChar, ed`mark, kills, kills.ring
    {
      ed.Valid() && ed.Marked() && kills.Valid()
    }

    constructor (ed: Editor, kills: Ring)
      requires ed.Valid() && ed.Marked() && kills.Valid()
      ensures this.ed == ed && this.kills == kills && Valid()
    {
      this.ed, this.kills := ed, kills;
    }

    /** The characters lo to hi have been killed, and the mark is where it is left. */
    twostate predicate Killed(lo: nat, hi: nat, mark: int, dup: KillDup)
      requires old(Valid()) && lo <= hi <= old(ed.lastChar)
      reads ed, ed.buf, kills, kills.ring
    {
      && Valid() && kills.ring == old(kills.ring)
      && ed.cursor == lo && ed.mark == mark && ed.Text() == Cut(old(ed.Text()), lo, hi)
      && kills.Entries() == Pushed(old(kills.Entries()), kills.ring.Length, dup, Some(old(ed.Text())[lo..hi]))
      && kills.len > 0 && kills.yank == kills.Top()
    }

    twostate predicate Refused()
      requires old(Valid())
      reads ed, ed.buf, kills, kills.ring
    {
      && Valid() && kills.ring == old(kills.ring) && kills.Entries() == old(kills.Entries())
      && ed.Text() == old(ed.Text()) && ed.cursor == old(ed.cursor) && ed.mark == old(ed.mark)
    }

    /** c_push_kill of a part of the line. */
    method Push(lo: nat, hi: nat, dup: KillDup)
      requires Valid() && lo <= hi <= ed.lastChar
      modifies kills, kills.ring
      ensures kills.Valid() && kills.ring == old(kills.ring) && kills.len > 0 && kills.yank == kills.Top()
      ensures kills.Entries() == Pushed(old(kills.Entries()), kills.ring.Length, dup, Some(ed.Text()[lo..hi]))
    {
      PartOf(ed.buf, ed.lastChar, lo, hi);
      kills.PushKill(ed.buf[lo..hi], dup);
    }

    method EKillEnd(dup: KillDup)
      requires Valid()
      modifies ed, kills, kills.ring
      ensures Killed(old(ed.cursor), old(ed.lastChar), MarkAfter(old(ed.mark), old(ed.cursor), old(ed.lastChar)), dup)
    {
      hide Pushed;
      Push(ed.cursor, ed.lastChar, dup);
      ed.lastChar := ed.cursor;
      if ed.mark > ed.cursor {
        ed.mark := ed.cursor;
      }
    }

    method EKillBeg(dup: KillDup)
      requires Valid()
      modifies ed, ed.buf, ed.undo, kills, kills.ring
      ensures Killed(0, old(ed.cursor), MarkAfter(old(ed.mark), 0, old(ed.cursor)), dup)
    {
      hide Pushed;
      Push(0, ed.cursor, dup);
      ed.CDelBefore(ed.cursor);
    }

    method EKillAll(dup: KillDup)
      requires Valid()
      modifies ed, kills, kills.ring
      ensures Killed(0, old(ed.lastChar), 0, dup)
    {
      hide Pushed;
      Push(0, ed.lastChar, dup);
      ed.cursor, ed.mark, ed.lastChar := 0, 0, 0;
    }

    method EKillRegion(dup: KillDup) returns (ok: bool)
      requires Valid()
      modifies ed, ed.buf, ed.undo, kills, kills.ring
      ensures ok == (old(ed.mark) >= 0) && (!ok ==> Refused())
      ensures ok ==> Killed(old(if ed.mark > ed.cursor then ed.cursor else ed.mark),
                            old(if ed.mark > ed.cursor then ed.mark else ed.cursor),
                            old(if ed.mark > ed.cursor then ed.cursor else ed.mark), dup)
    {
      hide Pushed;
      if ed.mark < 0 {
        return false;
      }
      ok := true;
      if ed.mark > ed.cursor {
        RegionAfter(dup);
      } else {
        RegionBefore(dup);
      }
    }

    method RegionAfter(dup: KillDup)
      requires Valid() && ed.cursor < ed.mark
      modifies ed, ed.buf, ed.undo, kills, kills.ring
      ensures Killed(old(ed.cursor), old(ed.mark), old(ed.cursor), dup)
    {
      hide Pushed;
      Push(ed.cursor, ed.mark, dup);
      ed.CDelAfter(ed.mark - ed.cursor);
      ed.mark := ed.cursor;
    }

    method RegionBefore(dup: KillDup)
      requires Valid() && 0 <= ed.mark <= ed.cursor
      modifies ed, ed.buf, ed.undo, kills, kills.ring
      ensures Killed(old(ed.mark), old(ed.cursor), old(ed.mark), dup)
    {
      hide Pushed;
      Push(ed.mark, ed.cursor, dup);
      ed.CDelBefore(ed.cursor - ed.mark);
    }

    /** e_delwordprev; from is where the word starts. */
    method EDelWordPrev(from: nat, dup: KillDup) returns (ok: bool)
      requires Valid() && from <= ed.cursor
      modifies ed, ed.buf, ed.undo, kills, kills.ring
      ensures ok == (old(ed.cursor) > 0) && (!ok ==> Refused())
      ensures ok ==> Killed(from, old(ed.cursor), MarkAfter(old(ed.mark), from, old(ed.cursor)), dup)
    {
      hide Pushed;
      if ed.cursor == 0 {
        return false;
      }
      Push(from, ed.cursor, dup);
      ed.CDelBefore(ed.cursor - from);
      ok := true;
    }

    /** e_delwordnext; to is the end of the word. */
    method EDelWordNext(to: nat, dup: KillDup) returns (ok: bool)
      requires Valid() && ed.cursor <= to <= ed.lastChar
      modifies ed, ed.buf, ed.undo, kills, kills.ring
      ensures ok == (old(ed.cursor < ed.lastChar)) && (!ok ==> Refused())
      ensures ok ==> Killed(old(ed.cursor), to, MarkAfter(old(ed.mark), old(ed.cursor), to), dup)
    {
      hide Pushed;
      if ed.cursor == ed.lastChar {
        return false;
      }
      Push(ed.cursor, to, dup);
      ed.CDelAfter(to - ed.cursor);
      ok := true;
    }

    /** The kill commands. */
    method Command(k: Kill, dup: KillDup) returns (ok: bool)
      requires Valid() && CanKill(k, ed)
      modifies ed, ed.buf, ed.undo, kills, kills.ring
      ensures var s := old(Span(k, ed.lastChar, ed.cursor, ed.mark));
              && ok == s.Some?
              && if ok then Killed(s.value.0, s.value.1, MarkLeft(k, old(ed.mark), s.value.0, s.value.1), dup)
                 else Refused()
    {
      hide Pushed;
      hide Killed;
      hide Refused;
      ok := true;
      match k
      case KillEnd => EKillEnd(dup);
      case KillBeg => EKillBeg(dup);
      case KillAll => EKillAll(dup);
      case KillRegion => ok := EKillRegion(dup);
      case DelWordPrev(from) => ok := EDelWordPrev(from, dup);
      case DelWordNext(to) => ok := EDelWordNext(to, dup);
    }

    /** e_yank_kill; once: the argument is 1. */
    method EYankKill(once: bool) returns (ok: bool)
      requires Valid()
      modifies ed, ed.buf
      ensures Valid()
      ensures ok == (kills.len > 0 && old(ed.Fits(|kills.ring[kills.yank].value|)))
      ensures !ok ==> ed.Text() == old(ed.Text())
      ensures ok ==> var x, c := kills.ring[kills.yank].value, old(ed.cursor);
                && ed.Text() == Paste(old(ed.Text()), c, x)
                && ed.cursor == (if once then c + |x| else c) && ed.mark == (if once then c else c + |x|)
    {
      if kills.len == 0 {
        return false;
      }
      var x := kills.ring[kills.yank].value;
      if ed.lastChar + |x| >= ed.buf.Length - 2 {
        return false;
      }
      var c := ed.cursor;
      ed.PutIn(x);
      if once {
        ed.mark, ed.cursor := c, c + |x|;
      } else {
        ed.mark := c + |x|;
      }
      ok := true;
    }

    /** YankPos -= Argument, around the ring. */
    method StepBack(n: nat)
      requires kills.Valid() && kills.len > 0
      modifies kills`yank
      ensures kills.Valid() && kills.yank == (old(kills.yank) - n) % kills.len
    {
      var y := UpAround(kills.yank - n, kills.len);
      kills.yank := y;
    }

    /** e_yank_pop: what is between mark and cursor gives way to an older kill. */
    method EYankPop(n: nat) returns (ok: bool)
      requires Valid() && ed.mark >= 0
      modifies ed, ed.buf, ed.undo, kills`yank
      ensures Valid() && ed.mark >= 0
      ensures kills.len > 0 ==> kills.yank == (old(kills.yank) - n) % kills.len
      ensures !ok ==> ed.Text() == old(ed.Text())
      ensures kills.len > 0 ==> ok == (var x := |kills.ring[kills.yank].value|;
                old(ed.lastChar - Hi() + Lo()) + x + 2 < ed.buf.Length)
      ensures ok ==> kills.len > 0 && var x := kills.ring[kills.yank].value;
                && ed.Text() == old(ed.Text()[..Lo()]) + x + old(ed.Text()[Hi()..])
                && Lo() == old(Lo()) && Hi() == Lo() + |x| && (ed.cursor > ed.mark ==> old(ed.cursor > ed.mark))
    {
      if kills.len == 0 {
        return false;
      }
      StepBack(n);
      var after := ed.cursor > ed.mark;
      var delLen := if after then ed.cursor - ed.mark else ed.mark - ed.cursor;
      var x := kills.ring[kills.yank].value;
      if ed.lastChar + |x| - delLen >= ed.buf.Length - 2 {
        return false;
      }
      ReplaceRegion(after, delLen, x);
      ok := true;
    }

    method ReplaceRegion(after: bool, delLen: nat, x: string)
      requires ed.Valid() && ed.Marked() && ed.mark >= 0 && after == (ed.cursor > ed.mark) && delLen == Hi() - Lo()
      requires ed.lastChar - delLen + |x| + 2 < ed.buf.Length
      modifies ed, ed.buf, ed.undo
      ensures ed.Valid() && ed.Marked() && ed.mark >= 0
      ensures ed.Text() == old(ed.Text()[..Lo()]) + x + old(ed.Text()[Hi()..])
      ensures Lo() == old(Lo()) && Hi() == Lo() + |x| && (ed.cursor > ed.mark ==> after)
    {
      ghost var t, lo, hi := ed.Text(), Lo(), Hi();
      PasteCut(t, lo, hi, x);
      hide Cut;
      hide Paste;
      if after {
        ed.CDelBefore(delLen);
      } else {
        ed.CDelAfter(delLen);
      }
      var c := ed.cursor;
      assert ed.Text() == Cut(t, lo, hi) && c == lo;
      LengthOf(t, lo, hi);
      ed.PutIn(x);
      if after {
        ed.mark, ed.cursor := c, c + |x|;
      } else {
        ed.mark := c + |x|;
      }
    }

    /** The region between mark and cursor. */
    ghost function Lo(): nat
      requires ed.mark >= 0
      reads ed
    {
      if ed.cursor > ed.mark then ed.mark else ed.cursor
    }

    ghost function Hi(): nat
      requires ed.mark >= 0
      reads ed
    {
      if ed.cursor > ed.mark then ed.cursor else ed.mark
    }

    /** Killing and yanking gives the line back, unless killdup=all left an older kill on top. */
    method KillYank(k: Kill, dup: KillDup) returns (ok: bool)
      requires Valid() && CanKill(k, ed)
      requires Span(k, ed.lastChar, ed.cursor, ed.mark).Some?
      modifies ed, ed.buf, ed.undo, kills, kills.ring
      ensures Valid()
      ensures Kept(old(kills.Entries()), dup, Some(old(Part(k)))) <==> ok && ed.Text() == old(ed.Text())
    {
      hide Pushed, Kept, Cut, Paste, MarkLeft;
      ghost var t, e, x := ed.Text(), kills.Entries(), Part(k);
      ghost var lo, hi := SpanOf(k).0, SpanOf(k).1;
      ok := Command(k, dup);
      LastPushed(e, kills.ring.Length, dup, Some(x));
      kills.TopEntry();
      PasteCut(t, lo, hi, kills.ring[kills.yank].value);
      LengthOf(t, lo, hi);
      ok := EYankKill(true);
    }

    /** Where the text that a command kills starts and ends. */
    ghost function SpanOf(k: Kill): (s: (nat, nat))
      requires Valid() && CanKill(k, ed) && Span(k, ed.lastChar, ed.cursor, ed.mark).Some?
      reads ed, kills, kills.ring
      ensures s == Span(k, ed.lastChar, ed.cursor, ed.mark).value && s.0 <= s.1 <= ed.lastChar
    {
      Span(k, ed.lastChar, ed.cursor, ed.mark).value
    }

    /** The text that a command kills. */
    ghost function Part(k: Kill): string
      requires Valid() && CanKill(k, ed) && Span(k, ed.lastChar, ed.cursor, ed.mark).Some?
      reads ed, ed.buf, kills, kills.ring
    {
      ed.Text()[SpanOf(k).0..SpanOf(k).1]
    }

    /** After a yank, popping n times steps n entries back: the yanked text gives way to the entry n older. */
    method YankPop(n: nat) returns (yanked: bool, popped: bool)
      requires Valid() && kills.len > n && kills.yank == kills.Top()
      modifies ed, ed.buf, ed.undo, kills`yank
      ensures Valid()
      ensures yanked <==> old(ed.Fits(|kills.ring[kills.yank].value|))
      ensures popped <==>
                yanked && old(ed.lastChar) + |old(kills.Entries())[kills.len - 1 - n].value| + 2 < ed.buf.Length
      ensures popped ==>
                ed.Text() == Paste(old(ed.Text()), old(ed.cursor), kills.Entries()[kills.len - 1 - n].value)
    {
      ghost var t, c := ed.Text(), ed.cursor;
      kills.BelowTop(n);
      hide Cut;
      yanked := EYankKill(true);
      popped := false;
      if yanked {
        ghost var x := kills.ring[kills.yank].value;
        PasteEnds(t, c, x);
        popped := EYankPop(n);
      }
    }
  }

  lemma PasteEnds(t: string, c: nat, x: string)
    requires c <= |t|
    ensures var r := Paste(t, c, x); |r| == |t| + |x| && r[..c] == t[..c] && r[c + |x|..] == t[c..]
  {
  }
}
