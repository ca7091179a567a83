/** The doubly linked entries of the directory stack of sh.dir.c. */
module DirLinks {
  import opened Sequences
  import opened DirStack

  class Dir {
    const name: string
    var next: Dir
    var prev: Dir

    constructor (name: string)
      ensures this.name == name
    {
      this.name := name;
      next, prev := this, this;
    }
  }

  /** Each entry is linked to the one behind it, both ways. */
  ghost predicate Chain(s: seq<Dir>)
    reads s
  {
    forall i :: 0 <= i < |s| - 1 ==> s[i].prev == s[i + 1] && s[i + 1].next == s[i]
  }

  function Names(s: seq<Dir>): (t: seq<string>)
    ensures |t| == |s| && forall i :: 0 <= i < |s| ==> t[i] == s[i].name
  {
    seq(|s|, i requires 0 <= i < |s| => s[i].name)
  }

  lemma NamesTop(x: Dir, s: seq<Dir>)
    ensures Names([x] + s) == [x.name] + Names(s)
  {
  }

  lemma NamesSplit(s: seq<Dir>, i: nat, k: nat)
    requires k <= i <= |s|
    ensures Names(s[i..] + s[k..i]) == Names(s)[i..] + Names(s)[k..i]
  {
  }

  lemma NamesSwap(s: seq<Dir>)
    requires |s| > 1
    ensures Names([s[1], s[0]] + s[2..]) == [Names(s)[1], Names(s)[0]] + Names(s)[2..]
  {
  }

  lemma NamesWithout(s: seq<Dir>, i: nat)
    requires i < |s|
    ensures Names(Without(s, i)) == Without(Names(s), i)
  {
  }

  /** k is the twin of j that comes first behind the sentinel. */
  predicate FirstTwin(s: seq<Dir>, j: nat, k: nat)
    requires j < |s|
  {
    k < |s| && k != j && s[k].name == s[j].name && forall i :: 0 <= i < k && i != j ==> s[i].name != s[j].name
  }

  lemma Twin(s: seq<Dir>, j: nat, k: nat)
    requires j < |s| && k <= |s|
    requires forall i :: 0 <= i < k && i != j ==> s[i].name != s[j].name
    requires k < |s| ==> k != j && s[k].name == s[j].name
    ensures k < |s| ==> Uniqued(true, Names(Turned(s, j)), Names(Turned(Without(s, k), Shifted(j, k))))
    ensures k == |s| ==> Uniqued(true, Names(Turned(s, j)), Names(Turned(s, j)))
  {
    var t := Turned(s, j);
    TurnedAt(s, j, 0);
    if k < |s| {
      var i := Behind(j, k, |s|);
      TurnedAt(s, j, i);
      TurnedWithout(s, j, i);
      NamesWithout(t, i);
      assert Names(t)[i] == Names(t)[0];
    } else {
      forall i | 0 < i < |t|
        ensures Names(t)[i] != Names(t)[0]
      {
        TurnedAt(s, j, i);
      }
    }
  }

  /** No entry but f[p] has its di_prev in the way, none but f[n] its di_next. */
  ghost predicate Alone(f: seq<Dir>, p: nat, n: nat)
    requires p < |f| - 1 && 0 < n < |f|
  {
    && (forall i :: 0 <= i < |f| - 1 && i != p ==> f[i] != f[p])
    && (forall i :: 0 < i < |f| && i != n ==> f[i] != f[n])
  }

  lemma Apart(head: Dir, nodes: seq<Dir>, p: nat, n: nat)
    requires head !in nodes && NoDup(nodes) && p <= |nodes| && 0 < n < |nodes| + 2
    ensures Alone([head] + nodes + [head], p, n)
  {
    var f := [head] + nodes + [head];
    assert forall i :: 0 < i < |f| - 1 ==> f[i] == nodes[i - 1] && nodes[i - 1] in nodes;
  }

  method CutOut(dp: Dir, ghost f: seq<Dir>, ghost k: nat)
    requires 0 < k < |f| - 1 && f[k] == dp && Chain(f) && Alone(f, k - 1, k + 1)
    modifies f
    ensures Chain(Without(f, k))
  {
    assert f[k - 1] == dp.next && f[k + 1] == dp.prev;
    dp.prev.next := dp.next;
    dp.next.prev := dp.prev;
    ChainWithout(f, k);
  }

  method LinkIn(dp: Dir, at: Dir, ghost f: seq<Dir>, ghost k: nat)
    requires 0 < k < |f| - 1 && f[k] == at && Chain(f) && Alone(f, k - 1, k) && dp !in f
    modifies f, dp
    ensures Chain(With(f, k, dp))
  {
    assert f[k - 1] == at.next;
    assert forall i :: 0 <= i < |f| ==> f[i] in f;
    dp.prev := at;
    dp.next := at.next;
    at.next := dp;
    dp.next.prev := dp;
    ChainWith(f, k, dp);
  }

  method LinkOver(dp: Dir, at: Dir, ghost f: seq<Dir>, ghost k: nat)
    requires 0 < k < |f| - 1 && f[k] == at && Chain(f) && Alone(f, k - 1, k + 1) && dp !in f
    modifies f, dp
    ensures Chain(f[k := dp])
  {
    assert f[k - 1] == at.next && f[k + 1] == at.prev;
    assert forall i :: 0 <= i < |f| ==> f[i] in f;
    dp.next := at.next;
    dp.prev := at.prev;
    dp.prev.next := dp;
    dp.next.prev := dp;
    ChainUpdate(f, k, dp);
  }

  lemma WithoutKeeps(head: Dir, nodes: seq<Dir>, j: nat)
    requires head !in nodes && NoDup(nodes) && j < |nodes|
    ensures head !in Without(nodes, j) && NoDup(Without(nodes, j)) && nodes[j] !in Without(nodes, j)
    ensures [head] + Without(nodes, j) + [head] == Without([head] + nodes + [head], j + 1)
  {
  }

  lemma WithKeeps(head: Dir, nodes: seq<Dir>, j: nat, x: Dir)
    requires head !in nodes && NoDup(nodes) && j <= |nodes| && x != head && x !in nodes
    ensures head !in With(nodes, j, x) && NoDup(With(nodes, j, x))
    ensures [head] + With(nodes, j, x) + [head] == With([head] + nodes + [head], j + 1, x)
  {
    assert forall i :: 0 <= i < |nodes| ==> nodes[i] in nodes;
  }

  lemma UpdateKeeps(head: Dir, nodes: seq<Dir>, j: nat, x: Dir)
    requires head !in nodes && NoDup(nodes) && j < |nodes| && x != head && x !in nodes
    ensures head !in nodes[j := x] && NoDup(nodes[j := x])
    ensures [head] + nodes[j := x] + [head] == ([head] + nodes + [head])[j + 1 := x]
  {
    assert forall i :: 0 <= i < |nodes| ==> nodes[i] in nodes;
  }

  lemma ChainWithout(f: seq<Dir>, k: nat)
    requires 0 < k < |f| - 1 && f[k - 1].prev == f[k + 1] && f[k + 1].next == f[k - 1]
    requires forall i :: 0 <= i < |f| - 1 && i != k - 1 ==> f[i].prev == f[i + 1]
    requires forall i :: 0 < i < |f| && i != k + 1 ==> f[i].next == f[i - 1]
    ensures Chain(Without(f, k))
  {
    var g := Without(f, k);
    forall i | 0 <= i < |g| - 1
      ensures g[i].prev == g[i + 1] && g[i + 1].next == g[i]
    {
      if i < k - 1 { assert f[i + 1].next == f[i]; }
      else if i >= k { assert f[i + 1].prev == f[i + 2] && f[i + 2].next == f[i + 1]; }
    }
  }

  lemma ChainWith(f: seq<Dir>, k: nat, x: Dir)
    requires 0 < k < |f| && f[k - 1].prev == x && x.prev == f[k] && f[k].next == x && x.next == f[k - 1]
    requires forall i :: 0 <= i < |f| - 1 && i != k - 1 ==> f[i].prev == f[i + 1]
    requires forall i :: 0 < i < |f| && i != k ==> f[i].next == f[i - 1]
    ensures Chain(With(f, k, x))
  {
    var g := With(f, k, x);
    forall i | 0 <= i < |g| - 1
      ensures g[i].prev == g[i + 1] && g[i + 1].next == g[i]
    {
      if i < k - 1 { assert f[i + 1].next == f[i]; }
      else if i > k { assert f[i - 1].prev == f[i] && f[i].next == f[i - 1]; }
    }
  }

  lemma ChainUpdate(f: seq<Dir>, k: nat, x: Dir)
    requires 0 < k < |f| - 1 && f[k - 1].prev == x && x.prev == f[k + 1] && f[k + 1].next == x && x.next == f[k - 1]
    requires forall i :: 0 <= i < |f| - 1 && i != k - 1 && i != k ==> f[i].prev == f[i + 1]
    requires forall i :: 0 < i < |f| && i != k + 1 && i != k ==> f[i].next == f[i - 1]
    ensures Chain(f[k := x])
  {
    var g := f[k := x];
    forall i | 0 <= i < |g| - 1
      ensures g[i].prev == g[i + 1] && g[i + 1].next == g[i]
    {
      if i != k - 1 && i != k { assert f[i].prev == f[i + 1] && f[i + 1].next == f[i]; }
    }
  }
}
