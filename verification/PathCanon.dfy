/** Canonical path names: the component stack that dcanon_internal of sh.dir.c works out in place. */
module PathCanon {
  import opened Sequences

  const NUL := '\0'

  // ----- paths as stacks of components -----

  predicate IsRest(s: string) {
    s == "" || s[0] == '/'
  }

  /** The components behind the slashes of a path; extra slashes give empty ones. */
  function Comps(s: string): seq<string>
    requires IsRest(s)
    decreases |s|
  {
    if s == "" then []
    else
      var r := s[1..];
      [r[..CompLen(r)]] + Comps(r[CompLen(r)..])
  }

  /** What one component does to the stack: "" and "." nothing, ".." pops or stays at the root. */
  function Enter(stack: seq<string>, c: string): seq<string> {
    if c == "" || c == "." then stack
    else if c == ".." then if stack == [] then [] else stack[..|stack| - 1]
    else stack + [c]
  }

  function EnterAll(stack: seq<string>, comps: seq<string>): seq<string>
    decreases |comps|
  {
    if comps == [] then stack else EnterAll(Enter(stack, comps[0]), comps[1..])
  }

  predicate IsComp(c: string) {
    c != "" && c != "." && c != ".." && '/' !in c && NUL !in c
  }

  predicate IsStack(stack: seq<string>) {
    forall i :: 0 <= i < |stack| ==> IsComp(stack[i])
  }

  /** The components, each behind its slash. */
  function Joined(stack: seq<string>): (s: string)
    ensures stack != [] ==> s != "" && s[0] == '/'
    ensures stack == [] ==> s == ""
  {
    if stack == [] then "" else Joined(stack[..|stack| - 1]) + "/" + stack[|stack| - 1]
  }

  /** The canonical path name of a stack. */
  function Render(stack: seq<string>): (s: string)
    ensures s != "" && s[0] == '/'
  {
    if stack == [] then "/" else Joined(stack)
  }

  lemma JoinedSnoc(stack: seq<string>, c: string)
    ensures Joined(stack + [c]) == Joined(stack) + "/" + c
  {
    assert (stack + [c])[..|stack|] == stack;
  }

  lemma {:induction false} CompLenOf(c: string, t: string)
    requires '/' !in c && IsRest(t)
    ensures CompLen(c + t) == |c|
  {
    if c == "" {
      assert c + t == t;
    } else {
      assert (c + t)[1..] == c[1..] + t && (c + t)[0] == c[0] && c[0] in c;
      CompLenOf(c[1..], t);
    }
  }

  /** Taking the first component off the rest of a path. */
  lemma CompsCons(c: string, t: string)
    requires '/' !in c && IsRest(t)
    ensures Comps("/" + c + t) == [c] + Comps(t)
  {
    var s := "/" + c + t;
    assert s[1..] == c + t;
    CompLenOf(c, t);
    assert (c + t)[..|c|] == c && (c + t)[|c|..] == t;
  }

  lemma EnterFirst(stack: seq<string>, c: string, t: string)
    requires '/' !in c && IsRest(t)
    ensures EnterAll(stack, Comps("/" + c + t)) == EnterAll(Enter(stack, c), Comps(t))
  {
    CompsCons(c, t);
    assert ([c] + Comps(t))[1..] == Comps(t);
  }

  /** Doubled slashes do not matter. */
  lemma EnterSlash(stack: seq<string>, t: string)
    requires IsRest(t)
    ensures EnterAll(stack, Comps("/" + t)) == EnterAll(stack, Comps(t))
  {
    assert "/" + "" + t == "/" + t;
    EnterFirst(stack, "", t);
  }

  lemma Regroup(a: string, c: string, t: string)
    ensures (a + "/" + c) + t == a + ("/" + c + t)
  {
  }

  /** The part of a path that is canonical already leads to its own stack. */
  lemma {:induction false} CanonicalPrefix(stack: seq<string>, t: string)
    requires IsStack(stack) && IsRest(t)
    ensures IsRest(Joined(stack) + t)
    ensures EnterAll([], Comps(Joined(stack) + t)) == EnterAll(stack, Comps(t))
    decreases |stack|
  {
    hide Comps;
    hide EnterAll;
    hide Joined;
    if stack == [] {
      JoinedNone();
      assert "" + t == t;
    } else {
      var init, c := stack[..|stack| - 1], stack[|stack| - 1];
      assert init + [c] == stack;
      JoinedSnoc(init, c);
      Regroup(Joined(init), c, t);
      CanonicalPrefix(init, "/" + c + t);
      EnterFirst(init, c, t);
    }
  }

  lemma JoinedNone()
    ensures Joined([]) == ""
  {
  }

  lemma {:induction false} StaysStack(stack: seq<string>, comps: seq<string>)
    requires IsStack(stack) && forall i :: 0 <= i < |comps| ==> '/' !in comps[i] && NUL !in comps[i]
    ensures IsStack(EnterAll(stack, comps))
    decreases |comps|
  {
    if comps != [] {
      StaysStack(Enter(stack, comps[0]), comps[1..]);
    }
  }

  /** The canonical form of an absolute path. */
  function Canon(path: string): string
    requires path != "" && path[0] == '/'
  {
    Render(EnterAll([], Comps(path)))
  }

  /** Canonical names are their own canonical form. */
  lemma CanonIdempotent(stack: seq<string>)
    requires IsStack(stack)
    ensures Canon(Render(stack)) == Render(stack)
  {
    if stack == [] {
      assert Comps("/") == [""] by { CompsCons("", ""); assert "/" + "" + "" == "/"; }
    } else {
      CanonicalPrefix(stack, "");
      assert Joined(stack) + "" == Joined(stack);
    }
  }

  // ----- the laws of canonical names, on the names themselves -----

  lemma FirstComp(a: string) returns (c: string, t: string)
    requires IsRest(a) && a != ""
    ensures a == "/" + c + t && '/' !in c && IsRest(t) && |t| < |a|
  {
    var r := a[1..];
    c, t := r[..CompLen(r)], r[CompLen(r)..];
    assert a == ["/"[0]] + r;
  }

  lemma {:induction false} CompsConcat(a: string, t: string)
    requires IsRest(a) && IsRest(t)
    ensures IsRest(a + t) && Comps(a + t) == Comps(a) + Comps(t)
    decreases |a|
  {
    hide Comps;
    if a == "" {
      NoComps();
      assert a + t == t;
    } else {
      var c, u := FirstComp(a);
      MoreSlash(c, u, t);
      CompsConcat(u, t);
      CompsCons(c, u);
      CompsCons(c, u + t);
      assert [c] + Comps(u) + Comps(t) == [c] + (Comps(u) + Comps(t));
    }
  }

  lemma NoComps()
    ensures Comps("") == []
  {
  }

  lemma MoreSlash(c: string, u: string, t: string)
    ensures ("/" + c + u) + t == "/" + c + (u + t)
  {
  }

  lemma {:induction false} EnterConcat(stack: seq<string>, a: seq<string>, b: seq<string>)
    ensures EnterAll(stack, a + b) == EnterAll(EnterAll(stack, a), b)
    decreases |a|
  {
    if a == [] {
      assert a + b == b;
    } else {
      assert (a + b)[1..] == a[1..] + b;
      EnterConcat(Enter(stack, a[0]), a[1..], b);
    }
  }

  /** The stack that a path leads to. */
  function Reach(path: string): seq<string>
    requires IsRest(path)
  {
    EnterAll([], Comps(path))
  }

  lemma ReachOn(a: string, c: string, t: string)
    requires IsRest(a) && '/' !in c && IsRest(t)
    ensures IsRest(a + "/" + c + t) && Reach(a + "/" + c + t) == EnterAll(Enter(Reach(a), c), Comps(t))
  {
    assert a + "/" + c + t == a + ("/" + c + t);
    CompsConcat(a, "/" + c + t);
    EnterConcat([], Comps(a), Comps("/" + c + t));
    EnterFirst(Reach(a), c, t);
  }

  lemma ReachJoin(a: string, t: string)
    requires IsRest(a) && IsRest(t)
    ensures IsRest(a + t) && Reach(a + t) == EnterAll(Reach(a), Comps(t))
  {
    CompsConcat(a, t);
    EnterConcat([], Comps(a), Comps(t));
  }

  /** A component and the ".." behind it can be left out, wherever they stand. */
  lemma ParentUndoes(a: string, c: string, t: string)
    requires IsRest(a) && IsComp(c) && IsRest(t)
    ensures Canon(a + "/" + c + "/.." + t) == if a + t == "" then "/" else Canon(a + t)
  {
    hide Comps;
    hide EnterAll;
    assert a + "/" + c + "/.." + t == a + "/" + c + ("/.." + t);
    ReachOn(a, c, "/.." + t);
    var stack := Enter(Reach(a), c);
    assert "/" + ".." + t == "/.." + t;
    EnterFirst(stack, "..", t);
    assert Enter(stack, "..") == Reach(a);
    ReachJoin(a, t);
    if a + t == "" {
      NoPath();
    }
  }

  lemma NoPath()
    ensures Reach("") == []
  {
  }

  /** The parent of the root is the root. */
  lemma ParentOfRoot(t: string)
    requires IsRest(t)
    ensures Canon("/.." + t) == Canon("/" + t)
  {
    assert "" + "/" + ".." + t == "/.." + t && "" + "/" + "" + t == "/" + t;
    NoPath();
    ReachOn("", "..", t);
    ReachOn("", "", t);
  }

  /** "." can be left out, wherever it stands. */
  lemma DotIsNothing(a: string, t: string)
    requires IsRest(a) && IsRest(t)
    ensures Canon(a + "/." + t) == Canon(a + "/" + t) == if a + t == "" then "/" else Canon(a + t)
  {
    assert a + "/" + "." + t == a + "/." + t && a + "/" + "" + t == a + "/" + t;
    ReachOn(a, ".", t);
    ReachOn(a, "", t);
    ReachJoin(a, t);
    if a + t == "" {
      NoPath();
    }
  }

  /** And so can all slashes but one. */
  lemma SlashesAreOne(a: string, t: string)
    requires IsRest(a)
    ensures Canon(a + "//" + t) == Canon(a + "/" + t)
  {
    assert a + "/" + "" + ("/" + t) == a + "//" + t && a + ("/" + t) == a + "/" + t;
    ReachOn(a, "", "/" + t);
    ReachJoin(a, "/" + t);
  }

  /** An ordinary component behind a canonical name stays. */
  lemma ComponentStays(a: string, c: string)
    requires (a == "" || (a[0] == '/' && a != "/" && Canon(a) == a)) && IsComp(c)
    ensures Canon(a + "/" + c) == a + "/" + c
  {
    assert a + "/" + c + "" == a + "/" + c;
    ReachOn(a, c, "");
    assert Comps("") == [];
    if a == "" {
      NoPath();
      JoinedNone();
    }
    JoinedSnoc(Reach(a), c);
  }

  lemma RootStays()
    ensures Canon("/") == "/"
  {
    assert "" + "/" + "" + "" == "/";
    NoPath();
    ReachOn("", "", "");
  }

  /** Ordinary components, each behind one slash, make a canonical name. */
  lemma {:induction false} JoinedIsCanonical(stack: seq<string>)
    requires IsStack(stack)
    ensures Joined(stack) != "" ==> Canon(Joined(stack)) == Joined(stack)
    decreases |stack|
  {
    if stack != [] {
      var init, c := stack[..|stack| - 1], stack[|stack| - 1];
      JoinedIsCanonical(init);
      ComponentStays(Joined(init), c);
    }
  }
}
