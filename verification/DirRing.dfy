/** The directory stack of sh.dir.c: a circular doubly linked list with a sentinel. */
module DirRing {
  import opened Sequences
  import opened DirStack
  import opened DirLinks

  datatype Find = Found(dp: Dir) | NotFound | TooDeep

  class Ring {
    const head: Dir
    var dcwd: Dir
    ghost var nodes: seq<Dir>
    ghost var c: nat

    ghost function Full(): seq<Dir>
      reads this
    {
      [head] + nodes + [head]
    }

    /** The list is well formed: closed through the sentinel, and no entry is met twice. */
    ghost predicate Ringed()
      reads this, head, nodes
    {
      head !in nodes && NoDup(nodes) && Chain(Full())
    }

    ghost predicate Valid()
      reads this, head, nodes
    {
      c < |nodes| && nodes[c] == dcwd && Ringed()
    }

    /** dinit: the ring of one directory. */
    constructor (name: string)
      ensures Valid() && fresh(head) && fresh(nodes) && |nodes| == 1 && dcwd.name == name
    {
      head := new Dir("");
      dcwd := new Dir(name);
      new;
      nodes, c := [dcwd], 0;
      head.next, head.prev := dcwd, dcwd;
      dcwd.next, dcwd.prev := head, head;
    }

    /** The entries in the order of display: from dcwd along di_prev. */
    ghost function Stack(): seq<Dir>
      requires c <= |nodes|
      reads this
    {
      Turned(nodes, c)
    }

    /** Take dp out of the ring. */
    method Unlink(dp: Dir, ghost j: nat)
      requires Ringed() && j < |nodes| && nodes[j] == dp
      modifies `nodes, head, nodes
      ensures Ringed() && nodes == Without(old(nodes), j) && dp !in nodes
    {
      Apart(head, nodes, j, j + 2);
      WithoutKeeps(head, nodes, j);
      CutOut(dp, Full(), j + 1);
      nodes := Without(nodes, j);
    }

    /** Put dp in front of the current entry. */
    method PutOnTop(dp: Dir)
      requires Valid() && dp != head && dp !in nodes
      modifies `nodes, head, nodes, dp
      ensures c <= |nodes| && Ringed() && nodes == With(old(nodes), c, dp)
    {
      Apart(head, nodes, c, c + 1);
      WithKeeps(head, nodes, c, dp);
      LinkIn(dp, dcwd, Full(), c + 1);
      nodes := With(nodes, c, dp);
    }

    /** Put dp in the place of the current entry. */
    method Replace(dp: Dir)
      requires Valid() && dp != head && dp !in nodes
      modifies `nodes, head, nodes, dp
      ensures Ringed() && nodes == old(nodes)[c := dp]
    {
      Apart(head, nodes, c, c + 2);
      UpdateKeeps(head, nodes, c, dp);
      LinkOver(dp, dcwd, Full(), c + 1);
      nodes := nodes[c := dp];
    }

    /** The displayed names. */
    ghost function Shown(): seq<string>
      requires c <= |nodes|
      reads this
    {
      Names(Stack())
    }

    /** di_prev, over the sentinel. */
    method Older(dp: Dir, ghost j: nat) returns (r: Dir)
      requires Ringed() && j < |nodes| && nodes[j] == dp
      ensures r == nodes[if j + 1 < |nodes| then j + 1 else 0]
    {
      assert Full()[j + 1] == dp && dp.prev == Full()[j + 2] && Full()[0].prev == Full()[1];
      r := dp.prev;
      if r == head {
        r := head.prev;
      }
    }

    /** dnewcwd: make dp the current entry; with dunique its first twin from the sentinel goes. */
    method DNewCwd(dp: Dir, dunique: bool, ghost j: nat)
      requires Ringed() && j < |nodes| && nodes[j] == dp
      modifies this, head, nodes
      ensures Valid() && dcwd == dp && forall n :: n in nodes ==> n in old(nodes)
      ensures Uniqued(dunique, Names(Turned(old(nodes), j)), Shown())
      ensures forall k :: dunique && FirstTwin(old(nodes), j, k) ==>
                nodes == Without(old(nodes), k) && c == Shifted(j, k)
      ensures !dunique || (forall k :: 0 <= k < |old(nodes)| && k != j ==> old(nodes)[k].name != dp.name) ==>
                nodes == old(nodes) && c == j
    {
      ghost var s, at := nodes, j;
      if dunique {
        var dn := head.prev;
        ghost var k := 0;
        assert Full()[0].prev == Full()[1];
        while dn != head
          invariant Ringed() && nodes == s && at == j && k <= |s| && dn == Full()[k + 1]
          invariant forall i :: 0 <= i < k && i != j ==> s[i].name != dp.name
          decreases |s| - k
        {
          if dn != dp && dn.name == dp.name {
            Unlink(dn, k);
            at := Shifted(j, k);
            break;
          }
          assert Full()[k + 1].prev == Full()[k + 2];
          dn, k := dn.prev, k + 1;
        }
        Twin(s, j, k);
      }
      dcwd, c := dp, at;
    }

    method FindForward(n: nat) returns (r: Find)
      requires Valid()
      ensures match Meant(Plus(n), |nodes|, c)
              case At(j) => r == Found(nodes[j])
              case Nowhere => r == NotFound
              case Deep => r == TooDeep
    {
      if n == 0 {
        return NotFound;
      }
      var dp, i := dcwd, n;
      while i != 0
        invariant 0 <= i <= n && n - i < |nodes| && dp == nodes[Step(c, n - i, |nodes|)]
      {
        dp := Older(dp, Step(c, n - i, |nodes|));
        i := i - 1;
        if dp == dcwd {
          return TooDeep;
        }
      }
      r := Found(dp);
    }

    method FindBackward(n: nat) returns (r: Find)
      requires Valid()
      ensures match Meant(Minus(n), |nodes|, c)
              case At(j) => r == Found(nodes[j])
              case Nowhere => r == NotFound
              case Deep => r == TooDeep
    {
      ghost var m := |nodes|;
      assert Full()[m].prev == Full()[m + 1] && Full()[m + 1].next == Full()[m];
      var dp, i := head.next, n;
      if dp == head {
        return NotFound;
      }
      while i > 0 && dp != head
        invariant 0 <= i <= n && n - i <= m && dp == Full()[m - (n - i)]
      {
        assert Full()[m - (n - i) - 1].prev == Full()[m - (n - i)];
        dp, i := dp.next, i - 1;
      }
      if dp == head || dp == dcwd {
        return NotFound;
      }
      r := Found(dp);
    }

    /** dfind: the entry a numeric argument means. */
    method DFind(arg: Arg) returns (r: Find)
      requires Valid()
      ensures match Meant(arg, |nodes|, c)
              case At(j) => r == Found(nodes[j])
              case Nowhere => r == NotFound
              case Deep => r == TooDeep
    {
      match arg
      case NoArg => r := NotFound;
      case Name => r := NotFound;
      case Plus(n) => r := FindForward(n);
      case Minus(n) => r := FindBackward(n);
    }

    /** A new entry on top. */
    method PushNew(name: string, dunique: bool)
      requires Valid()
      modifies this, head, nodes
      ensures Valid() && forall n :: n in nodes ==> n in old(nodes) || fresh(n)
      ensures Uniqued(dunique, [name] + old(Shown()), Shown())
    {
      hide NoDup;
      hide Chain;
      hide Turned;
      var dp := new Dir(name);
      TurnedWith(nodes, c, dp);
      NamesTop(dp, Stack());
      hide Names;
      hide Uniqued;
      ghost var t := [name] + Shown();
      PutOnTop(dp);
      assert Names(Turned(nodes, c)) == t && nodes[c] == dp;
      DNewCwd(dp, dunique, c);
    }

    /** dextract, and the bare pushd: take the entry i down the stack out, and put it on top. */
    method Extract(dp: Dir, ghost i: nat)
      requires Valid() && 0 < i < |nodes| && Stack()[i] == dp
      modifies `nodes, `c, head, nodes
      ensures Ringed() && c < |nodes| && nodes[c] == dp
      ensures forall i :: 0 <= i < |nodes| ==> nodes[i] in old(nodes)
      ensures Stack() == [dp] + Without(old(Stack()), i)
    {
      hide NoDup;
      hide Chain;
      hide Turned;
      ghost var j := Step(c, i, |nodes|);
      TurnedAt(nodes, c, i);
      TurnedWithout(nodes, c, i);
      Unlink(dp, j);
      c := Shifted(c, j);
      TurnedWith(nodes, c, dp);
      PutOnTop(dp);
    }

    /** pushd without arguments: exchange the top two. */
    method SwapTop(reach: bool, dunique: bool) returns (ok: bool)
      requires Valid()
      modifies this, head, nodes
      ensures Valid() && forall n :: n in nodes ==> n in old(nodes)
      ensures ok == (reach && |old(Shown())| > 1)
      ensures var t := old(Shown()); if ok then Uniqued(dunique, [t[1], t[0]] + t[2..], Shown()) else Shown() == t
    {
      var dp := Older(dcwd, c);
      if dp == dcwd || !reach {
        return false;
      }
      ghost var s := Stack();
      assert s[1] == dp;
      Extract(dp, 1);
      assert Stack() == [s[1], s[0]] + s[2..];
      NamesSwap(s);
      DNewCwd(dp, dunique, c);
      ok := true;
    }

    /** pushd +n: bring an entry to the top, alone or with all below it. */
    method BringUp(dp: Dir, extract: bool, dunique: bool, ghost i: nat)
      requires Valid() && 0 < i < |nodes| && Stack()[i] == dp
      modifies this, head, nodes
      ensures Valid() && forall n :: n in nodes ==> n in old(nodes)
      ensures var t := old(Shown());
              Uniqued(dunique, if extract then [t[i]] + Without(t, i) else t[i..] + t[..i], Shown())
    {
      ghost var j, s := Step(c, i, |nodes|), Stack();
      TurnedAt(nodes, c, i);
      if extract {
        Extract(dp, i);
        NamesTop(dp, Without(s, i));
        NamesWithout(s, i);
        DNewCwd(dp, dunique, c);
      } else {
        TurnedOn(nodes, c, i);
        NamesSplit(s, i, 0);
        DNewCwd(dp, dunique, j);
      }
    }

    /** dopushd */
    method Pushd(arg: Arg, home: bool, reach: bool, follow: Option<string>, extract: bool, dunique: bool)
      returns (ok: bool)
      requires Valid()
      modifies this, head, nodes
      ensures Valid() && forall n :: n in nodes ==> n in old(nodes) || fresh(n)
      ensures var p, t := PushPlan(arg, home, reach, follow, |old(nodes)|, old(c)), old(Shown());
              ok == !p.Fail? && Pushed(p, extract, dunique, t, Shown())
    {
      if arg == NoArg && !home {
        ok := SwapTop(reach, dunique);
        return;
      }
      if arg == NoArg && !reach {
        return false;
      }
      var f := DFind(arg);
      match f
      case Found(dp) =>
        if !reach {
          return false;
        }
        ghost var i := Behind(c, Meant(arg, |nodes|, c).j, |nodes|);
        TurnedAt(nodes, c, i);
        BringUp(dp, extract, dunique, i);
        ok := true;
      case TooDeep => ok := false;
      case NotFound =>
        ok := follow.Some?;
        if ok {
          PushNew(follow.value, dunique);
        }
    }

    /** Leave the current entry for the one i down the stack, dropping it. */
    method LeaveFor(dp: Dir, dunique: bool, ghost i: nat)
      requires Valid() && 0 < i < |nodes| && Stack()[i] == dp
      modifies this, head, nodes
      ensures Valid() && forall n :: n in nodes ==> n in old(nodes)
      ensures var t := old(Shown()); Uniqued(dunique, t[i..] + t[1..i], Shown())
    {
      ghost var j := Step(c, i, |nodes|);
      TurnedAt(nodes, c, i);
      TurnedDrop(nodes, c, i);
      NamesSplit(Stack(), i, 1);
      Unlink(dcwd, c);
      DNewCwd(dp, dunique, Shifted(j, c));
    }

    /** dopopd */
    method Popd(arg: Arg, reach: bool, dunique: bool) returns (ok: bool)
      requires Valid()
      modifies this, head, nodes
      ensures Valid() && forall n :: n in nodes ==> n in old(nodes)
      ensures var p, t := PopPlan(arg, reach, |old(nodes)|, old(c)), old(Shown());
              ok == !p.Fail? && Popped(p, dunique, t, Shown())
    {
      if arg == NoArg {
        ok := PopTop(reach, dunique);
        return;
      }
      var f := DFind(arg);
      ok := f.Found?;
      if ok {
        ghost var j := Meant(arg, |nodes|, c).j;
        Discard(f.dp, j, Behind(c, j, |nodes|));
      }
    }

    method PopTop(reach: bool, dunique: bool) returns (ok: bool)
      requires Valid()
      modifies this, head, nodes
      ensures Valid() && forall n :: n in nodes ==> n in old(nodes)
      ensures var t := old(Shown());
              ok == (reach && |t| > 1) && if ok then Uniqued(dunique, t[1..], Shown()) else Shown() == t
    {
      var p := Older(dcwd, c);
      if p == dcwd || !reach {
        return false;
      }
      ghost var t := Shown();
      LeaveFor(p, dunique, 1);
      assert t[1..] + t[1..1] == t[1..];
      return true;
    }

    method Discard(dp: Dir, ghost j: nat, ghost i: nat)
      requires Valid() && 0 < i < |nodes| && j == Step(c, i, |nodes|) && nodes[j] == dp
      modifies `nodes, `c, head, nodes
      ensures Valid() && Shown() == Without(old(Shown()), i) && forall n :: n in nodes ==> n in old(nodes)
    {
      TurnedWithout(nodes, c, i);
      NamesWithout(Stack(), i);
      Unlink(dp, j);
      c := Shifted(c, j);
    }

    /** Exchange the current entry for a new one. */
    method ReplaceTop(name: string, dunique: bool)
      requires Valid()
      modifies this, head, nodes
      ensures Valid() && forall n :: n in nodes ==> n in old(nodes) || fresh(n)
      ensures Uniqued(dunique, [name] + old(Shown())[1..], Shown())
    {
      var dp := new Dir(name);
      ghost var s := Stack();
      assert Turned(nodes[c := dp], c) == [dp] + s[1..];
      NamesTop(dp, s[1..]);
      assert Names(s)[1..] == Names(s[1..]);
      Replace(dp);
      DNewCwd(dp, dunique, c);
    }

    /** dochngd: arg is the word as it stands behind cd, follow the directory's name, with no word that of home. */
    method Chngd(arg: Arg, reach: bool, follow: Option<string>, dunique: bool) returns (ok: bool)
      requires Valid()
      modifies this, head, nodes
      ensures Valid() && forall n :: n in nodes ==> n in old(nodes) || fresh(n)
      ensures var p, t := ChangePlan(arg, reach, follow, |old(nodes)|, old(c)), old(Shown());
              ok == !p.Fail? && Changed(p, dunique, t, Shown())
    {
      var f := DFind(arg);
      match f
      case Found(dp) =>
        if !reach {
          return false;
        }
        ghost var i := Behind(c, Meant(arg, |nodes|, c).j, |nodes|);
        TurnedAt(nodes, c, i);
        LeaveFor(dp, dunique, i);
        ok := true;
      case TooDeep => ok := false;
      case NotFound =>
        if arg.Minus? || follow.None? || (arg == NoArg && !reach) {
          return false;
        }
        ReplaceTop(follow.value, dunique);
        ok := true;
    }

    /** dirs -c */
    method Clear()
      requires Valid()
      modifies `nodes, `c, head, nodes
      ensures Valid() && Shown() == [old(Shown())[0]] && forall n :: n in nodes ==> n in old(nodes)
    {
      head.next, head.prev := dcwd, dcwd;
      dcwd.next, dcwd.prev := head, head;
      nodes, c := [dcwd], 0;
    }

    method PutBelow(name: string)
      requires Valid()
      modifies `nodes, `c, head, nodes
      ensures Valid() && Shown() == old(Shown()) + [name]
      ensures forall i :: 0 <= i < |nodes| ==> nodes[i] in old(nodes) || fresh(nodes[i])
    {
      var dp := new Dir(name);
      ghost var s := Stack();
      assert Turned(With(nodes, c, dp), c + 1) == s + [dp];
      assert Names(s + [dp]) == Names(s) + [name];
      PutOnTop(dp);
      c := c + 1;
    }

    /** dsetstack: the current entry, and below it what $dirstack was set to, up to the first empty word. */
    method SetStack(vec: seq<string>)
      requires Valid()
      modifies `nodes, `c, head, nodes
      ensures Valid() && Shown() == [old(Shown())[0]] + vec[..Words(vec)]
    {
      Clear();
      ghost var top := Shown();
      assert vec[..0] == [];
      var k := 0;
      while k < |vec| && vec[k] != ""
        invariant k <= Words(vec) && Valid() && Shown() == top + vec[..k]
        invariant forall i :: 0 <= i < |nodes| ==> nodes[i] in old(nodes) || fresh(nodes[i])
      {
        assert vec[..k + 1] == vec[..k] + [vec[k]];
        PutBelow(vec[k]);
        k := k + 1;
      }
    }

    /** Setting dirstack to its own value lists the current directory twice; names of directories are not empty. */
    method SetToItself()
      requires Valid() && "" !in Names(nodes)
      modifies `nodes, `c, head, nodes
      ensures Valid() && Shown() == [old(Shown())[0]] + old(Names(nodes))
      ensures Shown()[0] == Shown()[1 + old(c)]
    {
      ghost var names := Names(nodes);
      var vec := GetStack();
      assert Words(vec) == |vec|;
      assert vec[..|vec|] == vec;
      SetStack(vec);
    }

    /** The ring from the current entry on, with the sentinel in its place. */
    ghost function Circle(): seq<Dir>
      requires c <= |nodes|
      reads this
    {
      nodes[c..] + [head] + nodes[..c]
    }

    ghost predicate Circular()
      requires Valid()
      reads this, head, nodes
    {
      var f := Circle();
      && (forall i :: 0 <= i < |f| - 1 ==> f[i].prev == f[i + 1] && f[i + 1].next == f[i])
      && f[|f| - 1].prev == dcwd && dcwd.next == f[|f| - 1]
      && (forall i :: 0 < i < |f| ==> f[i] != dcwd)
      && (forall i :: 0 <= i < |f| - 1 ==> f[i] != f[|f| - 1])
      && (forall i :: 0 <= i < |f| ==> (f[i] == head <==> i == |nodes| - c))
    }

    lemma Around()
      requires Valid()
      ensures Circular()
    {
      var f, g, m := Circle(), Full(), |nodes|;
      forall i | 0 <= i < |f| - 1
        ensures f[i].prev == f[i + 1] && f[i + 1].next == f[i]
      {
        var k := if i < m - c then c + 1 + i else i - (m - c);
        assert f[i] == g[k] && f[i + 1] == g[k + 1];
      }
      assert f[m] == g[c] && g[c].prev == g[c + 1];
      assert forall i :: 0 <= i < m ==> nodes[i] in nodes;
    }

    /** printdirs: the names it prints, in order. */
    method PrintDirs() returns (out: seq<string>)
      requires Valid()
      ensures out == Shown()
    {
      Around();
      ghost var f, m, k := Circle(), |nodes|, 0;
      out := [];
      var dp := dcwd;
      while true
        invariant 0 <= k <= m && dp == f[k]
        invariant out == Shown()[..if k <= m - c then k else k - 1]
        decreases m - k
      {
        if dp != head {
          out := out + [dp.name];
        }
        assert k < m ==> f[k + 1] != dcwd;
        dp := dp.prev;
        if dp == dcwd {
          break;
        }
        k := k + 1;
      }
      assert Shown()[..m] == Shown();
    }

    /** di_next, and whether the whole ring has been seen. */
    method Younger(dp: Dir, ghost f: seq<Dir>, ghost k: nat) returns (r: Dir, all: bool)
      requires Valid() && f == Circle() && k < |f| && dp == f[k]
      ensures (all <==> k == 0) && (k > 0 ==> r == f[k - 1])
    {
      Around();
      assert k > 0 ==> Circle()[k - 1].prev == Circle()[k];
      r := dp.next;
      all := r == dcwd.next;
    }

    /** On the way around, the sentinel is passed over behind the z newest entries. */
    ghost predicate Passing(f: seq<Dir>, t: seq<string>, z: nat) {
      z < |f| == |t| + 1 && forall k :: 0 <= k < |f| ==>
        (f[k] == head <==> k == z) && (k < z ==> f[k].name == t[k]) && (k > z ==> f[k].name == t[k - 1])
    }

    lemma SentinelAt()
      requires Valid()
      ensures Passing(Circle(), Shown(), |nodes| - c) && dcwd.next == Circle()[|nodes|]
    {
      Around();
    }

    method Append(script: seq<Line>, name: string, ghost t: seq<string>) returns (r: seq<Line>)
      requires |script| < |t| && script == Lines(t, |script|) && name == t[|t| - 1 - |script|]
      ensures |r| == |script| + 1 && r == Lines(t, |r|)
    {
      r := script + [if script == [] then Cd(name) else Pd(name)];
    }

    /** recdirs: the script, up to cap lines and one more; a negative cap, or none, is as good as unbounded. */
    method RecDirs(cap: int) returns (script: seq<Line>)
      requires Valid()
      ensures script == Script(Shown(), cap)
    {
      ghost var f, t, z := Circle(), Shown(), |nodes| - c;
      ghost var k := |t|;
      LinesNone(t);
      SentinelAt();
      hide Circle;
      hide Shown;
      hide Lines;
      hide Script;
      hide Chain;
      hide NoDup;
      script := [];
      var dp, num := dcwd.next, cap;
      while true
        invariant 0 <= k <= |t| && dp == f[k]
        invariant num == cap - |script| && (cap >= 0 ==> num >= 0)
        invariant |script| == if k >= z then |t| - k else |t| - k - 1
        invariant script == Lines(t, |script|)
        decreases k
      {
        if dp != head {
          script := Append(script, dp.name, t);
          num := num - 1;
          if num + 1 == 0 {
            break;
          }
        }
        var all;
        dp, all := Younger(dp, f, k);
        if all {
          break;
        }
        k := k - 1;
      }
      Scripted(t, |script|, cap);
    }

    /** Sourcing the script, up to the first directory that cannot be reached. */
    method Load(script: seq<Line>, reach: string -> bool, dunique: bool)
      requires Valid()
      modifies this, head, nodes
      ensures Valid()
      ensures (dunique ==> NoDup(old(Shown()))) ==>
                Shown() == Played(script[..Reached(script, reach)], old(Shown()), dunique)
    {
      hide Played;
      hide Run;
      hide NoDup;
      hide Chain;
      hide Names;
      ghost var t := Shown();
      var k := 0;
      var ok := true;
      PlayedNone(t, dunique);
      assert script[..0] == [];
      while ok && k < |script|
        invariant k <= Reached(script, reach) && Valid() && (!ok ==> k == Reached(script, reach))
        invariant Plays(script[..k], t, dunique)
        invariant forall i :: 0 <= i < |nodes| ==> nodes[i] in old(nodes) || fresh(nodes[i])
        decreases |script| - k, ok
      {
        PlayedMore(script, k, t, dunique);
        ok := Line(script[k], reach, dunique);
        assert forall i :: 0 <= i < |nodes| ==> nodes[i] in nodes;
        if ok {
          k := k + 1;
        }
      }
    }

    /** The script has led from t to the stack, provided that there is no choice of twins. */
    ghost predicate Plays(script: seq<Line>, t: seq<string>, dunique: bool)
      requires c <= |nodes| && t != []
      reads this
    {
      (dunique ==> NoDup(t)) ==> Shown() == Played(script, t, dunique) && (dunique ==> NoDup(Shown()))
    }

    method Line(l: Line, reach: string -> bool, dunique: bool) returns (ok: bool)
      requires Valid()
      modifies this, head, nodes
      ensures Valid() && ok == reach(l.name)
      ensures !ok ==> Shown() == old(Shown())
      ensures ok && (dunique ==> NoDup(old(Shown()))) ==>
                Shown() == Run(l, old(Shown()), dunique) && (dunique ==> NoDup(Shown()))
      ensures forall n :: n in nodes ==> n in old(nodes) || fresh(n)
    {
      ghost var t := Shown();
      var follow := if reach(l.name) then Some(l.name) else None;
      match l {
        case Cd(x) =>
          ok := Chngd(Name, true, follow, dunique);
          if ok && (dunique ==> NoDup(t)) {
            assert ([x] + t[1..])[1..] == t[1..];
            OneTwin(dunique, [x] + t[1..], Shown());
          }
        case Pd(x) =>
          ok := Pushd(Name, false, true, follow, false, dunique);
          if ok && (dunique ==> NoDup(t)) {
            assert ([x] + t)[1..] == t;
            OneTwin(dunique, [x] + t, Shown());
          }
      }
    }

    /** dgetstack: what $dirstack is set to. */
    method GetStack() returns (out: seq<string>)
      requires Valid()
      ensures out == Names(nodes)
    {
      out := [];
      ghost var f, k := Full(), 0;
      var dn := head.prev;
      assert f[0].prev == f[1];
      while dn != head
        invariant k <= |nodes| && dn == f[k + 1] && out == Names(nodes)[..k]
        decreases |nodes| - k
      {
        assert f[k + 1].prev == f[k + 2];
        out := out + [dn.name];
        dn, k := dn.prev, k + 1;
      }
    }
  }
}
