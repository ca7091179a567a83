/** The cache of command verdicts in ed.syntax.c: 64 slots with the age of their last use. */
module CommandCache {
  import opened Sequences
  import opened LruList

  const NAMELEN := 64

  /** What a slot keeps of a name, and what two names are compared by. */
  function Key(name: string): (k: string)
    ensures |k| < NAMELEN && (|name| < NAMELEN ==> k == name)
  {
    if |name| < NAMELEN then name else name[..NAMELEN - 1]
  }

  /** Two names are taken for one exactly when they are equal, or both too long and equal up to the length kept. */
  lemma SameKey(a: string, b: string)
    ensures Key(a) == Key(b) <==>
            a == b || (|a| >= 63 && |b| >= 63 && a[..63] == b[..63])
  {
    assert |a| == 63 ==> a[..63] == a;
    assert |b| == 63 ==> b[..63] == b;
  }

  // ----- slots in the order of their last use -----

  ghost predicate InUse(order: seq<nat>) {
    NoDup(order) && forall k :: 0 <= k < |order| ==> order[k] < SIZE
  }

  /** Later uses have later ages. */
  ghost predicate Aged(ages: seq<nat>, order: seq<nat>, clock: nat)
    requires |ages| == SIZE && InUse(order)
  {
    && (forall a, b :: 0 <= a < b < |order| ==> ages[order[a]] > ages[order[b]])
    && (forall a :: 0 <= a < |order| ==> ages[order[a]] <= clock)
  }

  /** The slots in use are those with a verdict, and no two have the same name. */
  ghost predicate Kept(names: seq<string>, found: seq<int>, order: seq<nat>)
    requires |names| == |found| == SIZE && InUse(order)
  {
    && (forall i :: 0 <= i < SIZE ==> (found[i] >= 0 <==> i in order))
    && (forall i :: 0 <= i < SIZE ==> -1 <= found[i] <= 1)
    && NoDup(Names(EntriesOf(names, found, order)))
  }

  function EntriesOf(names: seq<string>, found: seq<int>, order: seq<nat>): (c: seq<Entry>)
    requires |names| == |found| && forall k :: 0 <= k < |order| ==> order[k] < |names|
    ensures |c| == |order| && forall k :: 0 <= k < |order| ==> c[k] == Entry(names[order[k]], found[order[k]] == 1)
  {
    seq(|order|, k requires 0 <= k < |order| => Entry(names[order[k]], found[order[k]] == 1))
  }

  /** Moving one element to the front. */
  lemma ToFront<T>(s: seq<T>, k: nat)
    requires NoDup(s) && k < |s|
    ensures var r := [s[k]] + Without(s, k);
            && NoDup(r) && (forall a :: 0 <= a < |r| ==> r[a] == s[Source(a, k)])
            && (forall x :: x in s <==> x in r)
  {
    FrontAt(s, k);
    FrontNoDup(s, k, [s[k]] + Without(s, k));
  }

  /** Where the elements of r, which is s with element k in front, come from. */
  function Source(a: nat, k: nat): nat {
    if a == 0 then k else if a <= k then a - 1 else a
  }

  lemma FrontNoDup<T>(s: seq<T>, k: nat, r: seq<T>)
    requires NoDup(s) && k < |s| == |r| && forall a :: 0 <= a < |r| ==> r[a] == s[Source(a, k)]
    ensures NoDup(r) && forall x :: x in s <==> x in r
  {
    forall a, b | 0 <= a < b < |r|
      ensures r[a] != r[b]
    {
      var i, j := Source(a, k), Source(b, k);
      assert i < j ==> s[i] != s[j];
      assert j < i ==> s[j] != s[i];
    }
    assert forall a :: 0 <= a < |s| ==> s[a] == r[if a == k then 0 else if a < k then a + 1 else a];
  }

  lemma FrontAt<T>(s: seq<T>, k: nat)
    requires k < |s|
    ensures var r := [s[k]] + Without(s, k);
            && |r| == |s| && (forall a :: 0 <= a < |r| ==> r[a] == s[Source(a, k)])
  {
  }

  lemma TouchEntries(names: seq<string>, found: seq<int>, order: seq<nat>, k: nat)
    requires |names| == |found| == SIZE && InUse(order) && k < |order|
    ensures var o, c := [order[k]] + Without(order, k), EntriesOf(names, found, order);
            && InUse(o) && EntriesOf(names, found, o) == [c[k]] + Without(c, k)
            && Names([c[k]] + Without(c, k)) == [Names(c)[k]] + Without(Names(c), k)
  {
    ToFront(order, k);
  }

  lemma TouchKeeps(names: seq<string>, found: seq<int>, order: seq<nat>, k: nat)
    requires |names| == |found| == SIZE && InUse(order) && Kept(names, found, order) && k < |order|
    ensures var o, c := [order[k]] + Without(order, k), EntriesOf(names, found, order);
            InUse(o) && Kept(names, found, o) && EntriesOf(names, found, o) == [c[k]] + Without(c, k)
  {
    TouchEntries(names, found, order, k);
    ToFront(order, k);
    ToFront(Names(EntriesOf(names, found, order)), k);
    hide NoDup;
    hide Without;
    hide EntriesOf;
    hide Names;
  }

  lemma TouchAges(ages: seq<nat>, order: seq<nat>, clock: nat, k: nat)
    requires |ages| == SIZE && InUse(order) && Aged(ages, order, clock) && k < |order|
    ensures var o := [order[k]] + Without(order, k); InUse(o) && Aged(ages[order[k] := clock + 1], o, clock + 1)
  {
    ToFront(order, k);
  }

  /** The uses that calls of cmd_on_path with these words make of the cache. */
  function UsesOf(words: seq<string>, searches: seq<string -> bool>): seq<Entry>
    requires |words| == |searches|
  {
    if words == [] then []
    else
      var n := |words| - 1;
      UsesOf(words[..n], searches[..n]) + if words[n] == "" then [] else [Entry(Key(words[n]), searches[n](words[n]))]
  }

  /** The answer to the last word: the verdict stored last. */
  ghost predicate Answers(words: seq<string>, searches: seq<string -> bool>, verdict: bool)
    requires |words| == |searches| > 0
  {
    var word := words[|words| - 1];
    if word == "" then !verdict else LastStored(UsesOf(words, searches), Key(word)) == Some(verdict)
  }

  /** The next word of a run: from a cache c to c', with this answer. */
  lemma OneMore(words: seq<string>, searches: seq<string -> bool>, i: nat, c: seq<Entry>, c': seq<Entry>, v: bool)
    requires |words| == |searches| && i < |words| && c == After(UsesOf(words[..i], searches[..i]))
    requires words[i] == "" ==> !v && c' == c
    requires words[i] != "" ==>
               c' == Used(c, Entry(Key(words[i]), searches[i](words[i]))) && c' != [] && v == c'[0].found
    ensures c' == After(UsesOf(words[..i + 1], searches[..i + 1]))
    ensures Answers(words[..i + 1], searches[..i + 1], v)
  {
    hide Used;
    var w, s := words[..i + 1], searches[..i + 1];
    var before := UsesOf(words[..i], searches[..i]);
    assert w[..i] == words[..i] && s[..i] == searches[..i];
    if words[i] == "" {
      assert UsesOf(w, s) == before;
    } else {
      var uses := UsesOf(w, s);
      assert uses == before + [Entry(Key(words[i]), searches[i](words[i]))];
      assert uses[..|uses| - 1] == before;
      FrontIsLast(uses);
    }
  }

  lemma NoUses(words: seq<string>, searches: seq<string -> bool>)
    requires words == [] && searches == []
    ensures After(UsesOf(words, searches)) == []
  {
  }

  class Cache {
    const names: array<string>
    const found: array<int>
    const ages: array<nat>
    var clock: nat
    /** The slots in use, the most recently used first. */
    ghost var order: seq<nat>

    /** cache_init */
    constructor ()
      ensures Valid() && Contents() == [] && fresh(names) && fresh(found) && fresh(ages)
    {
      names := new string[SIZE](_ => "");
      found := new int[SIZE](_ => -1);
      ages := new nat[SIZE](_ => 0);
      clock, order := 0, [];
    }

    ghost predicate Shape()
      reads this
    {
      names.Length == found.Length == ages.Length == SIZE && InUse(order)
    }

    ghost predicate Valid()
      reads this, names, found, ages
    {
      Shape() && Aged(ages[..], order, clock) && Kept(names[..], found[..], order)
    }

    ghost function Contents(): (c: seq<Entry>)
      requires Shape()
      reads this, names, found
    {
      EntriesOf(names[..], found[..], order)
    }

    /** The slot that holds the key, or SIZE. */
    method Slot(key: string) returns (i: nat, ghost k: nat)
      requires Valid()
      ensures i <= SIZE && k == Find(Names(Contents()), key)
      ensures if i < SIZE then k < |order| && order[k] == i else k == |order|
    {
      i := 0;
      ghost var n := Names(Contents());
      k := Find(n, key);
      assert k < |order| ==> order[k] in order && names[order[k]] == n[k];
      while i < SIZE
        invariant i <= SIZE && forall j :: 0 <= j < i && found[j] >= 0 ==> names[j] != key
      {
        if found[i] >= 0 && names[i] == key {
          ghost var p :| 0 <= p < |order| && order[p] == i;
          assert n[p] == key;
          FindIs(n, key, p);
          return;
        }
        i := i + 1;
      }
    }

    /** cache_lookup: a hit is made the most recent. */
    method Lookup(name: string) returns (r: int)
      requires Valid()
      modifies this, ages
      ensures Valid()
      ensures var c, i := old(Contents()), Find(Names(old(Contents())), Key(name));
              if i < |c| then r == (if c[i].found then 1 else 0) && Contents() == [c[i]] + Without(c, i)
              else r == -1 && Contents() == c
    {
      var i, k := Slot(Key(name));
      if i == SIZE {
        return -1;
      }
      Touch(i, k);
      r := found[i];
    }

    /** Give the slot a new age. */
    method Touch(i: nat, ghost k: nat)
      requires Valid() && k < |order| && order[k] == i
      modifies this, ages
      ensures Valid() && Contents() == [old(Contents())[k]] + Without(old(Contents()), k)
    {
      TouchKeeps(names[..], found[..], order, k);
      TouchAges(ages[..], order, clock, k);
      hide NoDup;
      hide Kept;
      hide Aged;
      clock := clock + 1;
      ages[i] := clock;
      order := [i] + Without(order, k);
      assert ages[..] == old(ages[..])[i := clock];
    }

    /** The slot to store into: an empty one, or the one used least recently. */
    method Victim() returns (v: nat)
      requires Valid()
      ensures Evicts(order, v)
    {
      v := 0;
      while v < SIZE
        invariant v <= SIZE && forall j :: 0 <= j < v ==> found[j] >= 0
      {
        if found[v] < 0 {
          NotFull(order, SIZE, v);
          return;
        }
        v := v + 1;
      }
      Full(order, SIZE);
      v := Oldest();
    }

    method Oldest() returns (v: nat)
      requires Valid() && |order| == SIZE && forall j :: 0 <= j < SIZE ==> j in order
      ensures v == order[SIZE - 1]
    {
      v := 0;
      var oldest := ages[0];
      for i := 1 to SIZE
        invariant v < SIZE && oldest == ages[v] && forall j :: 0 <= j < i ==> ages[j] >= oldest
      {
        if ages[i] < oldest {
          oldest, v := ages[i], i;
        }
      }
      assert v in order;
      ghost var p :| 0 <= p < |order| && order[p] == v;
      assert ages[..][order[SIZE - 1]] >= ages[..][order[p]];
    }

    /** cache_store, behind a miss */
    method Store(name: string, verdict: bool)
      requires Valid() && Key(name) !in Names(Contents())
      modifies this, names, found, ages
      ensures Valid() && Contents() == Take([Entry(Key(name), verdict)] + old(Contents()), SIZE)
    {
      var v := Victim();
      Overwrite(v, Key(name), if verdict then 1 else 0);
    }

    method Overwrite(v: nat, key: string, f: int)
      requires Valid() && Evicts(order, v) && key !in Names(Contents()) && 0 <= f <= 1
      modifies this, names, found, ages
      ensures Valid() && Contents() == Take([Entry(key, f == 1)] + old(Contents()), SIZE)
    {
      StoreKeeps(names[..], found[..], order, v, key, f);
      StoreAges(ages[..], order, clock, v);
      hide NoDup;
      hide Kept;
      hide Aged;
      hide Staying;
      hide EntriesOf;
      hide Names;
      hide Take;
      names[v] := key;
      found[v] := f;
      clock := clock + 1;
      ages[v] := clock;
      order := [v] + Staying(order);
      assert ages[..] == old(ages[..])[v := clock];
      assert names[..] == old(names[..])[v := key];
      assert found[..] == old(found[..])[v := f];
    }

    /** cmd_on_path: the cached verdict, or the one the search of the path comes to, which is then cached. */
    method CmdOnPath(word: string, search: string -> bool) returns (r: bool)
      requires Valid()
      modifies this, names, found, ages
      ensures Valid() && (word == "" ==> !r && Contents() == old(Contents()))
      ensures word != "" ==>
                var x := Entry(Key(word), search(word));
                && Contents() == Used(old(Contents()), x)
                && Contents() != [] && r == Contents()[0].found
    {
      if word == "" {
        return false;
      }
      var cached := Lookup(word);
      if cached >= 0 {
        return cached == 1;
      }
      r := search(word);
      Store(word, r);
    }

    /** A run of calls on an empty cache, each with the search as it is then. The cache ends with the words used most
        recently, and each answer is the verdict stored last for its word. */
    method Run(words: seq<string>, searches: seq<string -> bool>) returns (verdicts: seq<bool>)
      requires Valid() && Contents() == [] && |words| == |searches|
      modifies this, names, found, ages
      ensures Valid() && Contents() == After(UsesOf(words, searches)) && |verdicts| == |words|
      ensures forall i :: 0 <= i < |words| ==> Answers(words[..i + 1], searches[..i + 1], verdicts[i])
    {
      hide UsesOf, Answers, After, Used, EntriesOf, Aged, Kept, NoDup;
      verdicts := [];
      assert words[..0] == [] && searches[..0] == [];
      NoUses(words[..0], searches[..0]);
      for i := 0 to |words|
        invariant Valid() && Contents() == After(UsesOf(words[..i], searches[..i])) && |verdicts| == i
        invariant forall j :: 0 <= j < i ==> Answers(words[..j + 1], searches[..j + 1], verdicts[j])
      {
        ghost var c := Contents();
        var v := CmdOnPath(words[i], searches[i]);
        OneMore(words, searches, i, c, Contents(), v);
        verdicts := verdicts + [v];
      }
      assert words[..|words|] == words && searches[..|words|] == searches;
    }
  }

  // ----- all slots in use -----

  lemma LeftOut(s: seq<nat>, p: nat)
    requires NoDup(s) && p < |s|
    ensures NoDup(Without(s, p)) && forall x :: x in Without(s, p) <==> x in s && x != s[p]
  {
    var r := Without(s, p);
    assert forall a :: 0 <= a < |r| ==> r[a] == s[if a < p then a else a + 1];
    assert forall a :: 0 <= a < |s| && a != p ==> s[a] == r[if a < p then a else a - 1];
  }

  /** Different numbers below n are n in number just when they are all of them. */
  lemma {:induction false} Elements(s: seq<nat>, n: nat)
    requires NoDup(s) && forall x :: x in s ==> x < n
    ensures |s| <= n && (|s| == n <==> forall i :: 0 <= i < n ==> i in s)
    decreases n
  {
    assert s != [] ==> s[0] in s;
    if n == 0 {
    } else if n - 1 in s {
      var p :| 0 <= p < |s| && s[p] == n - 1;
      LeftOut(s, p);
      hide NoDup;
      Elements(Without(s, p), n - 1);
    } else {
      Elements(s, n - 1);
    }
  }

  lemma NotFull(order: seq<nat>, n: nat, v: nat)
    requires NoDup(order) && (forall k :: 0 <= k < |order| ==> order[k] < n) && v < n && v !in order
    ensures |order| < n
  {
    Elements(order, n);
  }

  lemma Full(order: seq<nat>, n: nat)
    requires NoDup(order) && (forall k :: 0 <= k < |order| ==> order[k] < n) && forall i :: 0 <= i < n ==> i in order
    ensures |order| == n
  {
    Elements(order, n);
  }

  /** The slots that stay when v is stored into. */
  function Staying(order: seq<nat>): seq<nat> {
    if |order| < SIZE then order else order[..SIZE - 1]
  }

  ghost predicate Evicts(order: seq<nat>, v: nat) {
    InUse(order) && v < SIZE && if |order| < SIZE then v !in order else |order| == SIZE && v == order[SIZE - 1]
  }

  lemma StoreAges(ages: seq<nat>, order: seq<nat>, clock: nat, v: nat)
    requires |ages| == SIZE && InUse(order) && Aged(ages, order, clock) && Evicts(order, v)
    ensures var o := [v] + Staying(order); InUse(o) && Aged(ages[v := clock + 1], o, clock + 1)
  {
  }

  lemma StoreInUse(order: seq<nat>, v: nat)
    requires Evicts(order, v)
    ensures var o := [v] + Staying(order);
            && InUse(o) && (forall i :: i in o <==> i == v || i in order)
            && forall a :: 0 < a < |o| ==> o[a] == order[a - 1] != v
  {
    var o := [v] + Staying(order);
    assert forall a :: 0 <= a < |order| ==> order[a] == if a < SIZE - 1 then o[a + 1] else o[0];
    assert forall a :: 0 < a < |o| ==> o[a] == order[a - 1] && order[a - 1] in order;
  }

  lemma StoreEntries(names: seq<string>, found: seq<int>, order: seq<nat>, v: nat, key: string, f: int)
    requires |names| == |found| == SIZE && Evicts(order, v)
    requires var o := [v] + Staying(order); InUse(o) && forall a :: 0 < a < |o| ==> o[a] == order[a - 1] != v
    ensures EntriesOf(names[v := key], found[v := f], [v] + Staying(order))
         == Take([Entry(key, f == 1)] + EntriesOf(names, found, order), SIZE)
  {
    hide NoDup;
    var o, c := [v] + Staying(order), EntriesOf(names, found, order);
    var l, r := EntriesOf(names[v := key], found[v := f], o), Take([Entry(key, f == 1)] + c, SIZE);
    assert |l| == |r|;
    forall a | 0 <= a < |l|
      ensures l[a] == r[a]
    {
      if a > 0 {
        assert o[a] == order[a - 1] != v && r[a] == c[a - 1];
      }
    }
  }

  lemma StoreNoDup(c: seq<Entry>, x: Entry)
    requires NoDup(Names(c)) && x.name !in Names(c)
    ensures NoDup(Names(Take([x] + c, SIZE)))
  {
    var n := Names(c);
    var r := Names(Take([x] + c, SIZE));
    assert forall a :: 0 < a < |r| ==> r[a] == n[a - 1] && n[a - 1] in n;
  }

  lemma StoreKeeps(names: seq<string>, found: seq<int>, order: seq<nat>, v: nat, key: string, f: int)
    requires |names| == |found| == SIZE && InUse(order) && Kept(names, found, order) && Evicts(order, v)
    requires key !in Names(EntriesOf(names, found, order)) && 0 <= f <= 1
    ensures var o, n', f', c := [v] + Staying(order), names[v := key], found[v := f], EntriesOf(names, found, order);
            && InUse(o) && Kept(n', f', o)
            && EntriesOf(n', f', o) == Take([Entry(key, f == 1)] + c, SIZE)
  {
    StoreInUse(order, v);
    StoreEntries(names, found, order, v, key, f);
    StoreNoDup(EntriesOf(names, found, order), Entry(key, f == 1));
    hide NoDup;
    hide EntriesOf;
    hide Names;
    hide Take;
    hide Staying;
  }

  lemma {:induction false} FindIs(s: seq<string>, x: string, p: nat)
    requires p < |s| && s[p] == x && NoDup(s)
    ensures Find(s, x) == p
  {
    if p > 0 {
      FindIs(s[1..], x, p - 1);
    }
  }
}
