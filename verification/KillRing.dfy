/** The kill ring of ed.chared.c: SetKillRing and c_push_kill. */
module KillRing {
  import opened Sequences
  import opened KillList

  /** The first n slots hold text, and no others. */
  ghost predicate Filled(a: array<Slot>, n: nat)
    reads a
  {
    forall i :: 0 <= i < a.Length ==> (a[i].Some? <==> i < n)
  }

  // ----- searching and shifting the n entries of a ring that starts at st -----

  method Below(ghost st: nat, n: nat, j: nat, ghost b: nat) returns (j': nat)
    requires st <= n && b < n && j == Place(st, n, b)
    ensures b > 0 ==> j' == Place(st, n, b - 1)
  {
    ModOnce(j + n - 1, n);
    j' := (j - 1 + n) % n;
  }

  method Above(ghost st: nat, n: nat, j: nat, ghost b: nat) returns (j': nat)
    requires st <= n && b < n - 1 && j == Place(st, n, b)
    ensures j' == Place(st, n, b + 1)
  {
    ModOnce(j + 1, n);
    j' := (j + 1) % n;
  }

  /** Search down from the newest entry, in slot top: the entry found is b, in the slot j. */
  method FindDown(a: array<Slot>, n: nat, ghost st: nat, text: string, top: nat) returns (j: nat, i: nat, ghost b: nat)
    requires st <= n && 0 < n <= a.Length && top == Place(st, n, n - 1)
    ensures i <= n && b == LastAt(InOrder(a[..], n, st), Some(text))
    ensures if i < n then b == n - 1 - i && j == Place(st, n, b) else b == n
  {
    hide Place;
    hide LastAt;
    j, i := top, 0;
    ghost var e := InOrder(a[..], n, st);
    hide InOrder;
    while i < n
      invariant i <= n && (i < n ==> j == Place(st, n, n - 1 - i))
      invariant forall k :: n - 1 - i < k < n ==> e[k] != Some(text)
    {
      b := n - 1 - i;
      if a[j] == Some(text) {
        LastIs(e, Some(text), b);
        return;
      }
      j := Below(st, n, j, b);
      i := i + 1;
    }
    b := n;
    LastNone(e, Some(text));
  }

  /** The entries behind b, up to cur, have gone down by one slot. */
  ghost predicate Slid(a: array<Slot>, n: nat, st: nat, e: seq<Slot>, b: nat, cur: nat)
    requires st <= n <= a.Length && |e| == n && b <= cur < n
    reads a
  {
    forall d {:trigger Place(st, n, d)} :: 0 <= d < n ==> a[Place(st, n, d)] == if b <= d < cur then e[d + 1] else e[d]
  }

  /** One entry takes the slot of the one below it. */
  method Lower(a: array<Slot>, n: nat, ghost st: nat, j: nat, ghost e: seq<Slot>, ghost b: nat, ghost cur: nat)
    returns (j': nat)
    requires st <= n <= a.Length && |e| == n && b <= cur < n - 1 && j == Place(st, n, cur) && Slid(a, n, st, e, b, cur)
    modifies a
    ensures Slid(a, n, st, e, b, cur + 1) && j' == Place(st, n, cur + 1)
    ensures forall d :: 0 <= d < a.Length && d != j ==> a[d] == old(a[d])
    ensures a[j] == old(a[j'])
  {
    j' := Above(st, n, j, cur);
    forall d | 0 <= d < n && d != cur
      ensures Place(st, n, d) != j
    {
      OneSlotEach(st, n, d, cur);
    }
    hide Place;
    a[j] := a[j'];
  }

  /** The i0 entries above b go down one slot each. */
  method SlideDown(a: array<Slot>, n: nat, ghost st: nat, j0: nat, i0: nat, ghost e: seq<Slot>, ghost b: nat)
    returns (j: nat)
    requires st <= n <= a.Length && |e| == n && b < n && j0 == Place(st, n, b) && i0 == n - 1 - b
    requires Slid(a, n, st, e, b, b)
    modifies a
    ensures j == Place(st, n, n - 1) && Slid(a, n, st, e, b, n - 1)
    ensures forall d :: n <= d < a.Length ==> a[d] == old(a[d])
  {
    hide Place;
    hide Slid;
    var i;
    i, j := i0, j0;
    while i > 0
      invariant 0 <= i <= i0 && j == Place(st, n, n - 1 - i) && Slid(a, n, st, e, b, n - 1 - i)
      invariant forall d :: n <= d < a.Length ==> a[d] == old(a[d])
    {
      j := Lower(a, n, st, j, e, b, n - 1 - i);
      i := i - 1;
    }
  }

  /** Move the entry b, in the slot j0, behind the i0 newer ones. */
  method MoveUp(a: array<Slot>, n: nat, ghost st: nat, j0: nat, i0: nat, ghost b: nat)
    requires st <= n <= a.Length && b < n && j0 == Place(st, n, b) && i0 == n - 1 - b
    modifies a
    ensures var e := old(InOrder(a[..], n, st)); InOrder(a[..], n, st) == Without(e, b) + [e[b]]
    ensures forall d :: n <= d < a.Length ==> a[d] == old(a[d])
  {
    ghost var e := InOrder(a[..], n, st);
    var save := a[j0];
    assert e[b] == save;
    hide Place;
    var j := SlideDown(a, n, st, j0, i0, e, b);
    forall d | 0 <= d < n - 1
      ensures Place(st, n, d) != j
    {
      OneSlotEach(st, n, d, n - 1);
    }
    a[j] := save;
    EndSlid(a, n, st, e, b);
  }

  lemma EndSlid(a: array<Slot>, n: nat, st: nat, e: seq<Slot>, b: nat)
    requires st <= n <= a.Length && |e| == n && b < n
    requires forall d {:trigger Place(st, n, d)} :: 0 <= d < n ==>
               a[Place(st, n, d)] == if d == n - 1 then e[b] else if b <= d then e[d + 1] else e[d]
    ensures InOrder(a[..], n, st) == Without(e, b) + [e[b]]
  {
    var r, t := Without(e, b) + [e[b]], InOrder(a[..], n, st);
    hide Place;
    hide InOrder;
    forall d | 0 <= d < n
      ensures t[d] == r[d]
    {
      assert t[d] == a[Place(st, n, d)];
    }
  }

  /** killdup=erase: an equal entry is moved up. */
  method EraseDup(a: array<Slot>, n: nat, ghost st: nat, text: string, top: nat) returns (done: bool)
    requires st <= n && 0 < n <= a.Length && top == Place(st, n, n - 1)
    requires Filled(a, n)
    modifies a
    ensures Filled(a, n)
    ensures var e, x := old(InOrder(a[..], n, st)), Some(text);
            && done == (LastAt(e, x) < n)
            && InOrder(a[..], n, st) == if done then Without(e, LastAt(e, x)) + [e[LastAt(e, x)]] else e
  {
    AllSome(a[..], n, st);
    ghost var e := InOrder(a[..], n, st);
    hide InOrder;
    hide Place;
    hide LastAt;
    var j, i, b := FindDown(a, n, st, text, top);
    done := i < n;
    if done {
      MoveUp(a, n, st, j, i, b);
      MovedSome(e, b);
      SomeSlots(a[..], n, st);
    }
  }

  /** killdup=all: whether the text is there already. */
  method Held(a: array<Slot>, n: nat, ghost st: nat, text: string) returns (found: bool)
    requires st <= n <= a.Length
    ensures found <==> Some(text) in InOrder(a[..], n, st)
  {
    var i := 0;
    while i < n
      invariant i <= n && forall k :: 0 <= k < i ==> a[k] != Some(text)
    {
      if a[i] == Some(text) {
        SlotHeld(a[..], n, st, i);
        return true;
      }
      i := i + 1;
    }
    found := false;
  }

  /** The check for duplicates: whether nothing is to be pushed. */
  method CheckDup(a: array<Slot>, n: nat, ghost st: nat, text: string, top: nat, dup: KillDup) returns (done: bool)
    requires st <= n && 0 < n <= a.Length && top == Place(st, n, n - 1) && !dup.Unset?
    requires Filled(a, n)
    modifies a
    ensures Filled(a, n)
    ensures var e, x, r := old(InOrder(a[..], n, st)), Some(text), InOrder(a[..], n, st);
            if done then r == Pushed(e, a.Length, dup, x)
            else r == e && Pushed(e, a.Length, dup, x) == Added(e, a.Length, x)
  {
    ghost var e, x, max := InOrder(a[..], n, st), Some(text), a.Length;
    assert e[n - 1] == a[top];
    hide InOrder;
    hide Place;
    hide Pushed;
    hide LastAt;
    hide Added;
    if dup.Erase? {
      done := EraseDup(a, n, st, text, top);
      PushedErase(e, max, x);
    } else if dup.All? {
      done := Held(a, n, st, text);
      PushedAll(e, max, x);
    } else if dup.Prev? {
      done := a[top] == Some(text);
      PushedPrev(e, max, x);
    } else {
      done := false;
      PushedAny(e, max, dup, x);
    }
  }

  class Ring {
    var ring: array<Slot>
    var len: nat
    var pos: nat
    var yank: int

    constructor (max: nat)
      requires max > 0
      ensures Valid() && fresh(ring) && ring.Length == max && len == 0
    {
      ring := new Slot[max](i => None);
      len, pos, yank := 0, 0, -1;
    }

    /** Entries fill the ring from the start until it is full. */
    ghost predicate Shape()
      reads `ring, `len, `pos
    {
      0 < ring.Length && len <= ring.Length && pos < ring.Length && (len < ring.Length ==> pos == len)
    }

    ghost predicate Valid()
      reads this, ring
    {
      Shape() && -1 <= yank < len && (len > 0 ==> yank >= 0)
      && Filled(ring, len)
    }

    ghost function Start(): nat
      requires Shape()
      reads `ring, `len, `pos
    {
      if pos < len then pos else len
    }

    ghost function Entries(): seq<Slot>
      requires Shape()
      reads `ring, `len, `pos, ring
    {
      InOrder(ring[..], len, Start())
    }

    /** The newest entry. */
    ghost function Top(): nat
      requires Shape() && len > 0
      reads `ring, `len, `pos
    {
      if pos == 0 then len - 1 else pos - 1
    }

    /** The copying loop of SetKillRing: the count slots from j0 on. */
    method Copy(to: array<Slot>, j0: nat, count: nat)
      requires Shape() && 0 < count <= len && count <= to.Length && to != ring && j0 <= len && j0 < ring.Length
      modifies to
      ensures forall i :: 0 <= i < count ==> to[i] == ring[Around(j0, len, i)]
      ensures forall i :: count <= i < to.Length ==> to[i] == old(to[i])
    {
      var i, j := 0, j0;
      while i < len
        invariant 0 <= i <= len && (i < len ==> j == Around(j0, len, i))
        invariant forall k :: 0 <= k < i && k < count ==> to[k] == ring[Around(j0, len, k)]
        invariant forall k :: count <= k < to.Length ==> to[k] == old(to[k])
      {
        if i < count {
          to[i] := ring[j];
        }
        if i + 1 < len {
          ModOnce(j + 1, len);
        }
        j := (j + 1) % len;
        i := i + 1;
      }
    }

    /** SetKillRing: the newest entries stay, in order, but a ring that is not full loses its oldest when it is to
        hold them all. */
    method SetKillRing(max0: int)
      requires Valid()
      modifies this
      ensures Shape() && ring.Length == if max0 < 1 then 1 else max0
      ensures Entries() == Resized(old(Entries()), old(ring.Length), ring.Length)
      ensures Sound(old(len), old(ring.Length), ring.Length) ==> Valid()
    {
      var max := if max0 < 1 then 1 else max0;
      if max == ring.Length {
        ResizedSame(Entries(), max, max);
        return;
      }
      var to := new Slot[max](i => None);
      if len != 0 {
        Transfer(to);
      } else {
        ResizedSame(Entries(), ring.Length, max);
        ring := to;
      }
    }

    /** The entries go to the new buffer, and it takes the place of the old. */
    method Transfer(to: array<Slot>)
      requires Valid() && len > 0 && 0 < to.Length != ring.Length && to != ring
      requires forall i :: 0 <= i < to.Length ==> to[i] == None
      modifies this, to
      ensures ring == to && Shape() && Entries() == Resized(old(Entries()), old(ring.Length), to.Length)
      ensures Sound(old(len), old(ring.Length), to.Length) ==> Valid()
    {
      hide Resized;
      hide InOrder;
      hide Sound;
      Refill(to);
      Move(to);
    }

    /** The entries go to the new buffer; the old one is left as it is. */
    method Refill(to: array<Slot>)
      requires Valid() && len > 0 && 0 < to.Length != ring.Length && to != ring
      requires forall i :: 0 <= i < to.Length ==> to[i] == None
      modifies to
      ensures var n := if to.Length < len then to.Length else len;
              && to[..n] == Resized(Entries(), ring.Length, to.Length)
              && (Sound(len, ring.Length, to.Length) ==> Filled(to, n))
    {
      CopyNewest(to);
      if Sound(len, ring.Length, to.Length) {
        AllFilled();
        FilledStays(Entries(), ring.Length, to.Length);
        ghost var n := if to.Length < len then to.Length else len;
        FilledSlots(to[..], n, to[..n]);
      }
    }

    lemma AllFilled()
      requires Valid()
      ensures forall i :: 0 <= i < len ==> Entries()[i].Some?
    {
    }

    method CopyNewest(to: array<Slot>)
      requires Valid() && len > 0 && 0 < to.Length != ring.Length && to != ring
      requires forall i :: 0 <= i < to.Length ==> to[i] == None
      modifies to
      ensures var n := if to.Length < len then to.Length else len;
              && to[..n] == Resized(Entries(), ring.Length, to.Length)
              && forall i :: n <= i < to.Length ==> to[i] == None
    {
      var max, count, j := to.Length, len, pos;
      if max < len {
        count := max;
        ModOnce(pos - count + len, len);
        j := (pos - count + len) % len;
      }
      Copy(to, j, count);
      ResizedAt(ring[..], len, pos, to[..count], j, max);
    }

    method Move(to: array<Slot>)
      requires Valid() && len > 0 && 0 < to.Length
      modifies this
      ensures ring == to && len == (if to.Length < old(len) then to.Length else old(len)) && Shape() && yank == len - 1
      ensures Entries() == to[..len] && (Filled(to, len) ==> Valid())
    {
      var count, max := if to.Length < len then to.Length else len, to.Length;
      len := count;
      ModOnce(count, max);
      pos := count % max;
      yank := count - 1;
      ring := to;
    }

    /** Put the text into the slot at pos. */
    method Put(text: string)
      requires Valid()
      modifies this, ring
      ensures Valid() && ring == old(ring) && len > 0 && yank == Top()
      ensures var e := old(Entries()); Entries() == Added(e, ring.Length, Some(text))
    {
      ghost var s, p := ring[..], pos;
      PutInOrder(s, len, pos, Some(text));
      hide InOrder;
      hide Added;
      yank := pos;
      var at := pos;
      if len < ring.Length {
        len := len + 1;
      }
      ModOnce(pos + 1, ring.Length);
      pos := (pos + 1) % ring.Length;
      ring[at] := Some(text);
      assert ring[..] == s[p := Some(text)];
    }

    lemma TopEntry()
      requires Shape() && len > 0
      ensures ring[Top()] == Last(Entries())
    {
    }

    /** Going down from the newest entry slot by slot meets the older ones in order. */
    lemma BelowTop(n: nat)
      requires Shape() && n < len
      ensures 0 <= (Top() - n) % len < len && ring[(Top() - n) % len] == Entries()[len - 1 - n]
    {
      if Top() >= n {
        ModOnce(Top() - n, len);
      } else {
        ModOnce(Top() - n + len, len);
        ModPlus(Top() - n, len);
      }
    }

    lemma TopPlace()
      requires Shape() && len > 0
      ensures Entries() == InOrder(ring[..], len, Start()) && Place(Start(), len, len - 1) == Top()
    {
    }

    /** c_push_kill */
    method PushKill(text: string, dup: KillDup)
      requires Valid()
      modifies this, ring
      ensures Valid() && ring == old(ring) && len > 0 && yank == Top()
      ensures Entries() == Pushed(old(Entries()), ring.Length, dup, Some(text))
    {
      PushedFirst(ring.Length, dup, Some(text));
      PushedAny(Entries(), ring.Length, Unset, Some(text));
      hide InOrder;
      hide Place;
      hide Pushed;
      hide LastAt;
      hide Added;
      if len > 0 && !dup.Unset? {
        ModOnce(pos + len - 1, len);
        yank := (pos - 1 + len) % len;
        TopPlace();
        var done := CheckDup(ring, len, Start(), text, yank, dup);
        if done {
          return;
        }
      }
      Put(text);
    }
  }
}
