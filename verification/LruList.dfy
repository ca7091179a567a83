/** Least-recently-used caches as lists, the most recent entry first. */
module LruList {
  import opened Sequences

  datatype Entry = Entry(name: string, found: bool)

  const SIZE := 64

  function Take<T>(s: seq<T>, n: nat): seq<T> {
    if |s| <= n then s else s[..n]
  }

  function Names(c: seq<Entry>): (r: seq<string>)
    ensures |r| == |c| && forall i :: 0 <= i < |c| ==> r[i] == c[i].name
  {
    seq(|c|, i requires 0 <= i < |c| => c[i].name)
  }

  /** Where a name stands, or the length. */
  function Find(s: seq<string>, x: string): (i: nat)
    ensures i <= |s| && (i < |s| ==> s[i] == x) && x !in s[..i] && (i == |s| <==> x !in s)
  {
    if s == [] then 0 else if s[0] == x then 0 else 1 + Find(s[1..], x)
  }

  /** A hit moves to the front; a miss is stored there, and pushes out the last of a full cache. */
  function Used(c: seq<Entry>, x: Entry): seq<Entry> {
    var i := Find(Names(c), x.name);
    if i < |c| then [c[i]] + Without(c, i) else Take([x] + c, SIZE)
  }

  /** The cache after a run of uses, each with the verdict that a miss would store. */
  function After(uses: seq<Entry>): seq<Entry> {
    if uses == [] then [] else Used(After(uses[..|uses| - 1]), uses[|uses| - 1])
  }

  // ----- what was used most recently -----

  function Minus(s: seq<string>, x: string): (r: seq<string>)
    ensures x !in r && forall y :: y in r <==> y in s && y != x
  {
    if s == [] then [] else if s[0] == x then Minus(s[1..], x) else [s[0]] + Minus(s[1..], x)
  }

  /** All names used so far, the most recent use first. */
  function Recent(uses: seq<Entry>): seq<string> {
    if uses == [] then []
    else var x := uses[|uses| - 1].name; [x] + Minus(Recent(uses[..|uses| - 1]), x)
  }

  lemma {:induction false} MinusAbsent(s: seq<string>, x: string)
    requires x !in s
    ensures Minus(s, x) == s
  {
    if s != [] {
      MinusAbsent(s[1..], x);
    }
  }

  /** Taking the one x out of a list. */
  lemma {:induction false} MinusOne(s: seq<string>, i: nat)
    requires NoDup(s) && i < |s|
    ensures Minus(s, s[i]) == Without(s, i)
  {
    if i == 0 {
      assert s[0] !in s[1..];
      MinusAbsent(s[1..], s[0]);
    } else {
      assert NoDup(s[1..]);
      MinusOne(s[1..], i - 1);
      assert [s[0]] + Without(s[1..], i - 1) == Without(s, i);
    }
  }

  lemma MinusNoDup(s: seq<string>, x: string)
    requires NoDup(s)
    ensures NoDup([x] + Minus(s, x))
  {
    if x in s {
      var i := Find(s, x);
      MinusOne(s, i);
    } else {
      MinusAbsent(s, x);
    }
  }

  lemma {:induction false} RecentNoDup(uses: seq<Entry>)
    ensures NoDup(Recent(uses))
    decreases |uses|
  {
    if uses != [] {
      RecentNoDup(uses[..|uses| - 1]);
      MinusNoDup(Recent(uses[..|uses| - 1]), uses[|uses| - 1].name);
    }
  }

  /** The front of the list of recent names after one more use, from the front before. */
  lemma FrontStep(d: seq<string>, x: string)
    requires NoDup(d)
    ensures var f, i := Take(d, SIZE), Find(Take(d, SIZE), x);
            Take([x] + Minus(d, x), SIZE) == if i < |f| then [x] + Without(f, i) else Take([x] + f, SIZE)
  {
    var f, i := Take(d, SIZE), Find(Take(d, SIZE), x);
    if i < |f| {
      MinusOne(d, i);
    } else if x in d {
      var k := Find(d, x);
      assert forall j :: 0 <= j < |f| ==> f[j] == d[j];
      MinusOne(d, k);
    } else {
      MinusAbsent(d, x);
    }
  }

  /** The cache holds just the 64 names used most recently, in that order. */
  lemma {:induction false} HoldsMostRecent(uses: seq<Entry>)
    ensures Names(After(uses)) == Take(Recent(uses), 64)
    decreases |uses|
  {
    if uses != [] {
      var init, x := uses[..|uses| - 1], uses[|uses| - 1];
      HoldsMostRecent(init);
      RecentNoDup(init);
      FrontStep(Recent(init), x.name);
      UsedNames(After(init), x);
    }
  }

  lemma UsedNames(c: seq<Entry>, x: Entry)
    ensures var n, i := Names(c), Find(Names(c), x.name);
            Names(Used(c, x)) == if i < |n| then [x.name] + Without(n, i) else Take([x.name] + n, SIZE)
  {
  }

  /** The verdict that was stored last for a name: that of its last use when it was not among the SIZE names used
      most recently. */
  function LastStored(uses: seq<Entry>, x: string): Option<bool> {
    if uses == [] then None
    else
      var init, u := uses[..|uses| - 1], uses[|uses| - 1];
      if u.name == x && x !in Take(Recent(init), SIZE) then Some(u.found) else LastStored(init, x)
  }

  /** The cache gives for each of its names the verdict that was stored last, however the verdicts change. */
  lemma {:induction false} HoldsLastStored(uses: seq<Entry>)
    ensures forall e :: e in After(uses) ==> LastStored(uses, e.name) == Some(e.found)
    decreases |uses|
  {
    if uses != [] {
      var init, u := uses[..|uses| - 1], uses[|uses| - 1];
      HoldsLastStored(init);
      HoldsMostRecent(uses);
      HoldsMostRecent(init);
      RecentNoDup(uses);
      UsedEntries(After(init), u);
      forall e | e in After(uses)
        ensures LastStored(uses, e.name) == Some(e.found)
      {
        if e in After(init) {
          var k :| 0 <= k < |After(init)| && After(init)[k] == e;
          assert Names(After(init))[k] == e.name;
        }
      }
    }
  }

  /** What is in the cache after a use was there before, or is the new entry after a miss. */
  lemma UsedEntries(c: seq<Entry>, x: Entry)
    ensures forall e :: e in Used(c, x) ==> e in c || (e == x && x.name !in Names(c))
  {
  }

  /** The use just made is at the front. */
  lemma FrontIsLast(uses: seq<Entry>)
    requires uses != []
    ensures After(uses) != [] && LastStored(uses, uses[|uses| - 1].name) == Some(After(uses)[0].found)
  {
    HoldsLastStored(uses);
    assert After(uses)[0] in After(uses);
  }
}
