/** The kill ring of ed.chared.c as a list of its entries, the oldest first. */
module KillList {
  import opened Sequences

  /** A slot of the ring; one that was never filled has no buffer. */
  type Slot = Option<string>

  /** The shell variable killdup. */
  datatype KillDup = Unset | Erase | All | Prev | OtherWord

  // ----- rings as lists, the oldest entry first -----

  /** The slot i steps after the oldest of len entries, when the next one goes to pos. */
  function Place(pos: nat, len: nat, i: nat): (j: nat)
    requires pos <= len && i < len
    ensures j < len
  {
    if pos + i < len then pos + i else pos + i - len
  }

  /** The entries in order; pos is where the next one goes. */
  function InOrder<T>(s: seq<T>, len: nat, pos: nat): (r: seq<T>)
    requires len <= |s| && pos <= len
    ensures |r| == len && forall i :: 0 <= i < len ==> r[i] == s[Place(pos, len, i)]
  {
    s[pos..len] + s[..pos]
  }

  /** The newest n entries. */
  function Newest<T>(e: seq<T>, n: nat): seq<T>
    requires n <= |e|
  {
    e[|e| - n..]
  }

  /** The place of the newest x, or the length. */
  function LastAt(e: seq<Slot>, x: Slot): (i: nat)
    ensures i <= |e| && (i < |e| ==> e[i] == x && x !in e[i + 1..]) && (i == |e| ==> x !in e)
  {
    if e == [] then 0
    else if Last(e) == x then |e| - 1
    else
      var i := LastAt(e[..|e| - 1], x);
      if i == |e| - 1 then |e| else i
  }

  /** Text put at pos: the newest entry, in the place of the oldest if the ring is full. */
  function Added(e: seq<Slot>, max: nat, x: Slot): seq<Slot>
    requires 0 < max
  {
    (if |e| < max then e else if e == [] then e else e[1..]) + [x]
  }

  /** The ring after a kill: with erase an equal entry moves to the end, with all or prev it is left where it is. */
  function Pushed(e: seq<Slot>, max: nat, dup: KillDup, x: Slot): seq<Slot>
    requires 0 < max
  {
    if dup.Erase? && x in e then Without(e, LastAt(e, x)) + [x]
    else if dup.All? && x in e then e
    else if dup.Prev? && e != [] && Last(e) == x then e
    else Added(e, max, x)
  }

  /** With killdup=erase the ring never holds the same text twice. */
  lemma EraseKeepsDistinct(e: seq<Slot>, max: nat, x: Slot)
    requires 0 < max && NoDup(e)
    ensures NoDup(Pushed(e, max, Erase, x))
  {
    var k := LastAt(e, x);
    if x in e {
      WithoutDistinct(e, k);
      OneMoreBehind(Without(e, k), x);
    } else {
      assert forall i :: 0 <= i < |e| ==> e[i] in e;
    }
  }

  lemma WithoutDistinct(e: seq<Slot>, k: nat)
    requires NoDup(e) && k < |e|
    ensures NoDup(Without(e, k)) && e[k] !in Without(e, k)
  {
  }

  lemma OneMoreBehind(e: seq<Slot>, x: Slot)
    requires NoDup(e) && x !in e
    ensures NoDup(e + [x])
  {
    assert forall i :: 0 <= i < |e| ==> e[i] in e;
  }

  /** After a kill its text is the newest entry, but for killdup=all and an older equal one. */
  predicate Kept(e: seq<Slot>, dup: KillDup, x: Slot) {
    dup.All? && x in e ==> Last(e) == x
  }

  lemma LastPushed(e: seq<Slot>, max: nat, dup: KillDup, x: Slot)
    requires 0 < max
    ensures var r := Pushed(e, max, dup, x); r != [] && (Last(r) == x <==> Kept(e, dup, x))
  {
  }

  /** A new kill goes behind the others, and the oldest goes where there is no room. */
  lemma KillAdds(oldest: Slot, e: seq<Slot>, max: nat, dup: KillDup, x: Slot)
    requires 0 < max
    ensures x !in e && |e| < max ==> Pushed(e, max, dup, x) == e + [x]
    ensures x !in e && x != oldest && |e| + 1 == max ==> Pushed([oldest] + e, max, dup, x) == e + [x]
    ensures (dup.Unset? || dup.OtherWord?) && |e| < max ==> Pushed(e, max, dup, x) == e + [x]
    ensures (dup.Unset? || dup.OtherWord?) && |e| + 1 == max ==> Pushed([oldest] + e, max, dup, x) == e + [x]
  {
    assert ([oldest] + e)[1..] == e;
    assert forall y :: y in [oldest] + e ==> y == oldest || y in e;
  }

  /** A kill that is there already, last in between a and b: erase moves it, all leaves it, and prev looks at b. */
  lemma KillAgain(a: seq<Slot>, x: Slot, b: seq<Slot>, max: nat)
    requires 0 < max && x !in b && |a| + 1 + |b| <= max
    ensures var e := a + [x] + b;
            && Pushed(e, max, Erase, x) == a + b + [x]
            && Pushed(e, max, All, x) == e
            && (b == [] ==> Pushed(e, max, Prev, x) == e)
            && (b != [] && |e| < max ==> Pushed(e, max, Prev, x) == e + [x])
            && (b != [] && |e| == max ==> Pushed(e, max, Prev, x) == e[1..] + [x])
  {
    var e := a + [x] + b;
    assert e[|a|] == x;
    LastBetween(a, x, b);
    assert Without(e, |a|) == a + b;
    PushedErase(e, max, x);
    PushedAll(e, max, x);
    PushedPrev(e, max, x);
    assert b != [] ==> e[|e| - 1] == b[|b| - 1] && b[|b| - 1] in b;
    hide Pushed, LastAt;
  }

  lemma {:induction false} LastBetween(a: seq<Slot>, x: Slot, b: seq<Slot>)
    requires x !in b
    ensures LastAt(a + [x] + b, x) == |a|
  {
    var e := a + [x] + b;
    hide LastAt;
    forall k | |a| < k < |e|
      ensures e[k] != x
    {
      assert e[k] == b[k - |a| - 1];
    }
    LastIs(e, x, |a|);
  }

  /** The ring after a run of kills. */
  function AllPushed(e: seq<Slot>, max: nat, dup: KillDup, kills: seq<Slot>): (r: seq<Slot>)
    requires 0 < max
  {
    if kills == [] then e else Pushed(AllPushed(e, max, dup, kills[..|kills| - 1]), max, dup, Last(kills))
  }

  /** Without killdup the ring holds the newest kills of any run, as many as it has room for. */
  lemma {:induction false} HoldsNewest(max: nat, dup: KillDup, kills: seq<Slot>)
    requires 0 < max && (dup.Unset? || dup.OtherWord?)
    ensures AllPushed([], max, dup, kills) == kills[if |kills| < max then 0 else |kills| - max..]
    decreases |kills|
  {
    if kills != [] {
      var front, x := kills[..|kills| - 1], Last(kills);
      HoldsNewest(max, dup, front);
      AddsNewest(front, max, x);
      PushedAny(AllPushed([], max, dup, front), max, dup, x);
      assert kills == front + [x];
    }
  }

  lemma AddsNewest(front: seq<Slot>, max: nat, x: Slot)
    requires 0 < max
    ensures var n := |front|; var kills := front + [x];
            Added(front[if n < max then 0 else n - max..], max, x) == kills[if n + 1 < max then 0 else n + 1 - max..]
  {
    var n := |front|;
    if n >= max {
      assert front[n - max..][1..] == front[n + 1 - max..];
    }
  }

  /** With killdup=erase it holds them without all but the last of each text. */
  lemma {:induction false} HoldsLastOfEach(max: nat, kills: seq<Slot>)
    requires 0 < max
    ensures AllPushed([], max, Erase, kills) == Newest(LastOfEach(kills), Least(max, |LastOfEach(kills)|))
    decreases |kills|
  {
    hide *;
    if kills == [] {
      NoKills(max);
    } else {
      var front, x := kills[..|kills| - 1], kills[|kills| - 1];
      HoldsLastOfEach(max, front);
      OneMoreKill(max, front, x);
      LastOfEachDistinct(front);
      ErasePushes(LastOfEach(front), max, x);
      assert kills == front + [x];
    }
  }

  lemma NoKills(max: nat)
    requires 0 < max
    ensures AllPushed([], max, Erase, []) == Newest(LastOfEach([]), Least(max, |LastOfEach([])|))
  {
    assert LastOfEach([]) == [];
  }

  lemma OneMoreKill(max: nat, front: seq<Slot>, x: Slot)
    requires 0 < max
    ensures AllPushed([], max, Erase, front + [x]) == Pushed(AllPushed([], max, Erase, front), max, Erase, x)
    ensures LastOfEach(front + [x]) == Except(LastOfEach(front), x) + [x]
  {
    var kills := front + [x];
    assert kills[..|kills| - 1] == front;
    hide Pushed, Except;
  }

  /** One more kill under erase. */
  lemma ErasePushes(d: seq<Slot>, max: nat, x: Slot)
    requires 0 < max && NoDup(d)
    ensures var d' := Except(d, x) + [x];
            Pushed(Newest(d, Least(max, |d|)), max, Erase, x) == Newest(d', Least(max, |d'|))
  {
    hide NoDup;
    if x in d {
      var k :| 0 <= k < |d| && d[k] == x;
      ExceptAt(d, x, k);
      ErasesAt(d, max, k);
    } else {
      ExceptNone(d, x);
      AddsBehind(d, max, x);
    }
  }

  lemma AddsBehind(d: seq<Slot>, max: nat, x: Slot)
    requires 0 < max && x !in d
    ensures Pushed(Newest(d, Least(max, |d|)), max, Erase, x) == Newest(d + [x], Least(max, |d| + 1))
  {
    var n := Least(max, |d|);
    var e := Newest(d, n);
    assert forall y :: y in e ==> y in d;
    assert Pushed(e, max, Erase, x) == Added(e, max, x);
    if |d| >= max {
      assert e[1..] == d[|d| - n + 1..];
    }
  }

  lemma ErasesAt(d: seq<Slot>, max: nat, k: nat)
    requires 0 < max && NoDup(d) && k < |d|
    ensures Pushed(Newest(d, Least(max, |d|)), max, Erase, d[k]) == Newest(Without(d, k) + [d[k]], Least(max, |d|))
  {
    var n := Least(max, |d|);
    var e, off, x := Newest(d, n), |d| - n, d[k];
    assert forall i :: 0 <= i < n ==> e[i] == d[off + i];
    if k >= off {
      LastIs(e, x, k - off);
      assert e[k - off] == x;
      ErasedInside(d, n, k);
    } else {
      assert x !in e;
      assert Pushed(e, max, Erase, x) == e[1..] + [x];
      assert Without(d, k)[off..] == d[off + 1..] == e[1..];
    }
  }

  lemma ErasedInside(d: seq<Slot>, n: nat, k: nat)
    requires n <= |d| && |d| - n <= k < |d|
    ensures Without(Newest(d, n), k - (|d| - n)) + [d[k]] == Newest(Without(d, k) + [d[k]], n)
  {
    var off := |d| - n;
    var e := Newest(d, n);
    assert e[..k - off] == d[off..k] && e[k - off + 1..] == d[k + 1..];
    assert Without(d, k)[off..] == d[off..k] + d[k + 1..];
  }

  lemma {:induction false} ExceptNone(d: seq<Slot>, x: Slot)
    requires x !in d
    ensures Except(d, x) == d
  {
    if d != [] {
      ExceptNone(d[1..], x);
    }
  }

  lemma {:induction false} ExceptAt(d: seq<Slot>, x: Slot, k: nat)
    requires NoDup(d) && k < |d| && d[k] == x
    ensures Except(d, x) == Without(d, k)
    decreases k
  {
    if k == 0 {
      ExceptNone(d[1..], x);
    } else {
      ExceptAt(d[1..], x, k - 1);
    }
  }

  lemma {:induction false} ExceptDistinct(d: seq<Slot>, x: Slot)
    requires NoDup(d)
    ensures NoDup(Except(d, x))
  {
    if d != [] {
      ExceptDistinct(d[1..], x);
      assert forall i :: 0 < i < |d| ==> d[i] == d[1..][i - 1];
      assert d[0] !in d[1..];
      OneMoreFront(d[0], Except(d[1..], x));
    }
  }

  lemma OneMoreFront(x: Slot, e: seq<Slot>)
    requires NoDup(e) && x !in e
    ensures NoDup([x] + e)
  {
    assert forall i :: 0 <= i < |e| ==> e[i] in e;
  }

  lemma {:induction false} LastOfEachDistinct(kills: seq<Slot>)
    ensures NoDup(LastOfEach(kills))
  {
    if kills != [] {
      var front := LastOfEach(kills[..|kills| - 1]);
      LastOfEachDistinct(kills[..|kills| - 1]);
      ExceptDistinct(front, Last(kills));
      OneMoreBehind(Except(front, Last(kills)), Last(kills));
    }
  }

  function Least(a: nat, b: nat): nat {
    if a < b then a else b
  }

  /** A run without the kills that came again later. */
  function LastOfEach(kills: seq<Slot>): (r: seq<Slot>)
    ensures |r| <= |kills| && forall x :: x in r <==> x in kills
  {
    if kills == [] then []
    else Except(LastOfEach(kills[..|kills| - 1]), Last(kills)) + [Last(kills)]
  }

  function Except(e: seq<Slot>, x: Slot): (r: seq<Slot>)
    ensures |r| <= |e| && forall y :: y in r <==> y in e && y != x
  {
    if e == [] then [] else (if e[0] == x then [] else [e[0]]) + Except(e[1..], x)
  }

  lemma PushedErase(e: seq<Slot>, max: nat, x: Slot)
    requires 0 < max
    ensures var r, k := Pushed(e, max, Erase, x), LastAt(e, x);
            r == if k < |e| then Without(e, k) + [e[k]] else Added(e, max, x)
  {
  }

  lemma PushedAll(e: seq<Slot>, max: nat, x: Slot)
    requires 0 < max
    ensures Pushed(e, max, All, x) == if x in e then e else Added(e, max, x)
  {
  }

  lemma PushedPrev(e: seq<Slot>, max: nat, x: Slot)
    requires 0 < max && e != []
    ensures Pushed(e, max, Prev, x) == if e[|e| - 1] == x then e else Added(e, max, x)
  {
  }

  lemma PushedAny(e: seq<Slot>, max: nat, dup: KillDup, x: Slot)
    requires 0 < max && (dup.Unset? || dup.OtherWord?)
    ensures Pushed(e, max, dup, x) == Added(e, max, x)
  {
  }

  lemma PushedFirst(max: nat, dup: KillDup, x: Slot)
    requires 0 < max
    ensures Pushed([], max, dup, x) == Added([], max, x)
  {
  }

  lemma {:induction false} LastIs(e: seq<Slot>, x: Slot, b: nat)
    requires b < |e| && e[b] == x && forall k :: b < k < |e| ==> e[k] != x
    ensures LastAt(e, x) == b
    decreases |e|
  {
    if b < |e| - 1 {
      LastIs(e[..|e| - 1], x, b);
    }
  }

  lemma {:induction false} LastNone(e: seq<Slot>, x: Slot)
    requires forall k :: 0 <= k < |e| ==> e[k] != x
    ensures LastAt(e, x) == |e|
    decreases |e|
  {
    if e != [] {
      LastNone(e[..|e| - 1], x);
    }
  }

  lemma OneSlotEach(st: nat, n: nat, a: nat, b: nat)
    requires st <= n && a < n && b < n && a != b
    ensures Place(st, n, a) != Place(st, n, b)
  {
  }

  /** Every slot below n is that of an entry. */
  lemma SlotHeld(s: seq<Slot>, n: nat, st: nat, i: nat)
    requires st <= n <= |s| && i < n
    ensures s[i] in InOrder(s, n, st)
  {
    var b := if i >= st then i - st else i + n - st;
    assert InOrder(s, n, st)[b] == s[i];
  }

  lemma AllSome(s: seq<Slot>, n: nat, st: nat)
    requires st <= n <= |s| && forall i :: 0 <= i < n ==> s[i].Some?
    ensures forall d :: 0 <= d < n ==> InOrder(s, n, st)[d].Some?
  {
  }

  lemma SomeSlots(s: seq<Slot>, n: nat, st: nat)
    requires st <= n <= |s| && forall d :: 0 <= d < n ==> InOrder(s, n, st)[d].Some?
    ensures forall i :: 0 <= i < n ==> s[i].Some?
  {
    forall i | 0 <= i < n
      ensures s[i].Some?
    {
      SlotHeld(s, n, st, i);
    }
  }

  lemma MovedSome(e: seq<Slot>, b: nat)
    requires b < |e| && forall d :: 0 <= d < |e| ==> e[d].Some?
    ensures forall d :: 0 <= d < |e| ==> (Without(e, b) + [e[b]])[d].Some?
  {
  }

  lemma FilledSlots(s: seq<Slot>, n: nat, r: seq<Slot>)
    requires n <= |s| && s[..n] == r && (forall d :: 0 <= d < |r| ==> r[d].Some?)
    requires forall i :: n <= i < |s| ==> s[i] == None
    ensures forall i :: 0 <= i < |s| ==> (s[i].Some? <==> i < n)
  {
  }

  lemma PutPlace(size: nat, len: nat, pos: nat, d: nat)
    requires len <= size && pos < size && (len < size ==> pos == len)
    requires d <= len && d < size
    ensures var start, len' := if pos < len then pos else len, if len < size then len + 1 else len;
            var pos' := if pos + 1 < size then pos + 1 else 0;
            var start' := if pos' < len' then pos' else len';
            && (d == len' - 1 ==> Place(start', len', d) == pos)
            && (d < len' - 1 ==> var d0 := if len < size then d else d + 1;
                 d0 < len && Place(start', len', d) == Place(start, len, d0) != pos)
  {
  }

  lemma PutInOrder(s: seq<Slot>, len: nat, pos: nat, x: Slot)
    requires len <= |s| && pos < |s| && (len < |s| ==> pos == len)
    ensures var start, len' := if pos < len then pos else len, if len < |s| then len + 1 else len;
            var pos' := if pos + 1 < |s| then pos + 1 else 0;
            var e := InOrder(s, len, start);
            InOrder(s[pos := x], len', if pos' < len' then pos' else len')
            == Added(e, |s|, x)
  {
    var start, len' := if pos < len then pos else len, if len < |s| then len + 1 else len;
    var pos' := if pos + 1 < |s| then pos + 1 else 0;
    var e := InOrder(s, len, start);
    var e' := InOrder(s[pos := x], len', if pos' < len' then pos' else len');
    var r := Added(e, |s|, x);
    hide InOrder;
    assert |r| == len';
    forall d | 0 <= d < len'
      ensures e'[d] == r[d]
    {
      PutPlace(|s|, len, pos, d);
      hide Place;
      if d < len' - 1 {
        assert r[d] == e[if len < |s| then d else d + 1];
      }
    }
  }

  /** What Copy takes over is the ring resized. */
  lemma ResizedAt(s: seq<Slot>, len: nat, pos: nat, r: seq<Slot>, j0: nat, max: nat)
    requires 0 < |r| <= len <= |s| && pos < |s| && (len < |s| ==> pos == len)
    requires forall i :: len <= i < |s| ==> s[i] == None
    requires j0 == if |r| < len then (if pos >= |r| then pos - |r| else pos - |r| + len) else pos
    requires forall i :: 0 <= i < |r| ==> r[i] == s[Around(j0, len, i)]
    requires max == |r| < len || (|r| == len <= max && max != |s|)
    ensures r == Resized(InOrder(s, len, if pos < len then pos else len), |s|, max)
  {
    var start := if pos < len then pos else len;
    var e := InOrder(s, len, start);
    hide InOrder;
    forall i | 0 <= i < |r|
      ensures Taken(e, |s|, r, i)
    {
      SameSlot(len, |s|, pos, j0, |r|, i);
      hide Around;
      hide Place;
      assert r[i] == s[Around(j0, len, i)];
    }
    ResizedIs(e, |s|, max, r);
  }

  ghost predicate Taken(e: seq<Slot>, max: nat, r: seq<Slot>, i: nat)
    requires i < |r| <= |e|
  {
    if |e| == max || |r| < |e| then r[i] == e[|e| - |r| + i]
    else if i == 0 then r[i] == None
    else r[i] == e[i]
  }

  lemma ResizedIs(e: seq<Slot>, max: nat, max': nat, r: seq<Slot>)
    requires 0 < |r| <= |e| <= max && (max' == |r| < |e| || (|r| == |e| <= max' && max' != max))
    requires forall i :: 0 <= i < |r| ==> Taken(e, max, r, i)
    ensures r == Resized(e, max, max')
  {
    var t := Resized(e, max, max');
    assert |t| == |r|;
    forall i | 0 <= i < |r|
      ensures r[i] == t[i]
    {
      assert Taken(e, max, r, i);
    }
  }

  lemma SameSlot(len: nat, size: nat, pos: nat, j0: nat, n: nat, i: nat)
    requires i < n <= len <= size && pos < size && (len < size ==> pos == len)
    requires j0 == if n < len then (if pos >= n then pos - n else pos - n + len) else pos
    ensures j0 <= len && j0 < size && Around(j0, len, i) < size
    ensures len == size || n < len || i > 0 ==>
              Around(j0, len, i) == Place(if pos < len then pos else len, len, len - n + i)
    ensures len < size && n == len && i == 0 ==> Around(j0, len, i) == len
  {
  }

  lemma ResizedSame(e: seq<Slot>, max: nat, max': nat)
    requires |e| <= max
    ensures max' == max || e == [] ==> Resized(e, max, max') == e
  {
  }

  lemma FilledStays(e: seq<Slot>, max: nat, max': nat)
    requires forall i :: 0 <= i < |e| ==> e[i].Some?
    requires Sound(|e|, max, max')
    ensures forall i :: 0 <= i < |Resized(e, max, max')| ==> Resized(e, max, max')[i].Some?
  {
  }

  /** The slot j0 + i of len, around the end; j0 itself may be the free slot behind them. */
  function Around(j0: nat, len: nat, i: nat): (j: nat)
    requires j0 <= len && i < len
    ensures i > 0 || j0 < len ==> j < len
    ensures i == 0 ==> j == j0
  {
    if i == 0 || j0 + i < len then j0 + i else j0 + i - len
  }

  lemma ModUnique(x: int, q: int, r: int, n: nat)
    requires n > 0 && x == q * n + r && 0 <= r < n
    ensures x % n == r
  {
    var p := x / n;
    assert (q - p) * n == x % n - r;
    Multiples(q - p, n);
  }

  lemma Multiples(d: int, n: nat)
    ensures d >= 1 ==> d * n >= n
    ensures d <= -1 ==> d * n + n <= 0
  {
  }

  lemma ModPlus(a: int, n: nat)
    requires n > 0
    ensures (a + n) % n == a % n
  {
    var q, r := a / n, a % n;
    assert a + n == (q + 1) * n + r;
    ModUnique(a + n, q + 1, r, n);
  }

  lemma ModOnce(x: nat, n: nat)
    requires 0 < n && x < 2 * n
    ensures x % n == if x < n then x else x - n
  {
    if x >= n {
      assert (x - n) % n == x - n && x % n == (x - n + n) % n;
    }
  }

  /** A ring that is full, is to be cut, keeps its size or is empty is resized as it should be. */
  predicate Sound(len: nat, max: nat, max': nat) {
    len == max || max' < len || max' == max || len == 0
  }

  function Resized(e: seq<Slot>, max: nat, max': nat): seq<Slot> {
    if max' < |e| then Newest(e, max')
    else if Sound(|e|, max, max') then e
    else [None] + e[1..]
  }

  /** Growing keeps the entries just when the ring is full or empty. */
  lemma ResizeKeeps(e: seq<Slot>, max: nat, max': nat)
    requires |e| <= max && |e| <= max' && forall i :: 0 <= i < |e| ==> e[i].Some?
    ensures Resized(e, max, max') == e <==> Sound(|e|, max, max')
  {
    if !Sound(|e|, max, max') {
      assert Resized(e, max, max')[0] == None;
    }
  }
}
