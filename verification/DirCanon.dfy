/** The loop of dcanon_internal (sh.dir.c), which compacts a path in its buffer. */
module DirCanon {
  import opened Sequences
  import opened PathCanon

  /** The buffer holds the NUL-terminated text t. */
  ghost predicate Holds(a: array<char>, t: string)
    reads a
  {
    |t| < a.Length && a[|t|] == NUL && NUL !in t && forall i :: 0 <= i < |t| ==> a[i] == t[i]
  }

  /** The same, but the slash behind the component c has been overwritten by NUL. */
  ghost predicate HoldsCut(a: array<char>, pre: string, c: string, tail: string)
    reads a
  {
    var t, p := pre + "/" + c + tail, |pre| + 1 + |c|;
    |t| < a.Length && a[|t|] == NUL && NUL !in t && forall i :: 0 <= i < |t| ==> a[i] == if i == p then NUL else t[i]
  }

  /** for (p1 = to, p2 = from; (*p1++ = *p2++) != '\0';) */
  method ShiftDown(a: array<char>, to: nat, from: nat, ghost n: nat)
    requires to <= from <= n < a.Length && a[n] == NUL
    requires forall i :: from <= i < n ==> a[i] != NUL
    modifies a
    ensures forall i :: 0 <= i < to ==> a[i] == old(a[i])
    ensures forall i :: to <= i <= to + (n - from) ==> a[i] == old(a[i + (from - to)])
  {
    var p1, p2 := to, from;
    while true
      invariant to <= p1 && p2 == p1 + (from - to) <= n
      invariant forall i :: 0 <= i < to ==> a[i] == old(a[i])
      invariant forall i :: to <= i < p1 ==> a[i] == old(a[i + (from - to)])
      invariant forall i :: p1 <= i < a.Length ==> a[i] == old(a[i])
      decreases n - p2
    {
      a[p1] := a[p2];
      if a[p1] == NUL {
        break;
      }
      p1, p2 := p1 + 1, p2 + 1;
    }
  }

  /** Flush extra slashes behind the one at p. */
  method FlushSlashes(a: array<char>, p: nat, ghost pre: string, ghost rest: string) returns (ghost r: string)
    requires Holds(a, pre + rest) && p == |pre| && rest != "" && rest[0] == '/'
    modifies a
    ensures Holds(a, pre + "/" + r) && |r| < |rest| && (r != "" ==> r[0] != '/')
    ensures exists k :: 0 < k <= |rest| && r == rest[k..] && forall i :: 0 <= i < k ==> rest[i] == '/'
  {
    var q := p + 1;
    while a[q] == '/'
      invariant p < q <= p + |rest|
      invariant forall i :: 0 <= i < q - p ==> rest[i] == '/'
      decreases p + |rest| - q
    {
      q := q + 1;
    }
    r := rest[q - p..];
    if q != p + 1 {
      ShiftDown(a, p + 1, q, |pre + rest|);
    }
  }

  /** Find the end of the component at sp, and cut the path there. */
  method CutComponent(a: array<char>, sp: nat, ghost pre: string, ghost r: string) returns (p: nat, slash: bool)
    requires Holds(a, pre + "/" + r) && sp == |pre| + 1 && (r != "" ==> r[0] != '/')
    modifies a
    ensures p == sp + CompLen(r) && (slash <==> CompLen(r) < |r|)
    ensures HoldsCut(a, pre, r[..CompLen(r)], r[CompLen(r)..])
  {
    ghost var t := pre + "/" + r;
    ghost var n := CompLen(r);
    assert t == pre + "/" + r[..n] + r[n..];
    assert forall i :: 0 <= i < n ==> r[..n][i] == r[i] && r[..n][i] in r[..n];
    p, slash := sp, false;
    if a[p] != NUL {
      p := p + 1;
      while a[p] != NUL
        invariant sp < p <= sp + n && !slash
        invariant forall i :: 0 <= i < |t| ==> a[i] == t[i]
        invariant a[|t|] == NUL
        decreases sp + n - p
      {
        if a[p] == '/' {
          slash := true;
          a[p] := NUL;
          break;
        }
        p := p + 1;
      }
    }
  }

  lemma {:induction false} FlushKeeps(stack: seq<string>, rest: string, k: nat)
    requires 0 < k <= |rest| && forall i :: 0 <= i < k ==> rest[i] == '/'
    ensures EnterAll(stack, Comps(rest)) == EnterAll(stack, Comps("/" + rest[k..]))
    decreases k
  {
    hide EnterAll;
    hide Comps;
    if k == 1 {
      assert rest == "/" + rest[1..];
    } else {
      assert rest == "/" + rest[1..] && rest[1..][0] == '/';
      EnterSlash(stack, rest[1..]);
      FlushKeeps(stack, rest[1..], k - 1);
      assert rest[1..][k - 1..] == rest[k..];
    }
  }

  /** Where one turn of the loop leaves the buffer: at the rest of the path, or finished. */
  ghost predicate Turned(a: array<char>, p: nat, done: bool, stack: seq<string>, rest: string, goal: seq<string>)
    reads a
  {
    && IsStack(stack) && IsStack(goal) && p < a.Length
    && (if done then a[p] == NUL && Holds(a, Render(goal))
        else && IsRest(rest) && (stack != [] || rest != "") && p == |Joined(stack)| && Holds(a, Joined(stack) + rest)
             && EnterAll(stack, Comps(rest)) == goal)
  }

  lemma NulFree(stack: seq<string>)
    requires IsStack(stack)
    ensures NUL !in Joined(stack)
  {
    if stack != [] {
      assert IsComp(stack[|stack| - 1]);
      NulFree(stack[..|stack| - 1]);
    }
  }

  /** The null component, at the end of the path: drop the slash unless it is the root. */
  method NullComponent(a: array<char>, sp: nat, ghost pre: string) returns (atRoot: bool)
    requires Holds(a, pre + "/") && sp == |pre| + 1
    modifies a
    ensures atRoot == (pre == "") && Holds(a, if pre == "" then "/" else pre) && a[sp] == NUL
  {
    if sp - 1 == 0 {
      return true;
    }
    a[sp - 1] := NUL;
    return false;
  }

  /** The component ".". */
  method Dot(a: array<char>, sp: nat, p: nat, slash: bool, ghost pre: string, ghost tail: string) returns (p': nat)
    requires HoldsCut(a, pre, ".", tail) && sp == |pre| + 1 && p == sp + 1 && (slash <==> tail != "") && IsRest(tail)
    modifies a
    ensures slash ==> p' == |pre| && Holds(a, pre + tail)
    ensures !slash ==> p' == p && a[p'] == NUL && Holds(a, if pre == "" then "/" else pre)
  {
    p' := p;
    if slash {
      ShiftDown(a, sp, p + 1, |pre + "/" + "." + tail|);
      p' := sp - 1;
    } else if sp - 1 != 0 {
      a[sp - 1] := NUL;
    } else {
      a[sp] := NUL;
    }
  }

  /** An ordinary name: put the slash back. */
  method Name(a: array<char>, p: nat, slash: bool, ghost pre: string, ghost c: string, ghost tail: string)
    requires HoldsCut(a, pre, c, tail) && p == |pre| + 1 + |c| && (slash <==> tail != "") && IsRest(tail)
    modifies a
    ensures Holds(a, pre + "/" + c + tail)
  {
    if slash {
      a[p] := '/';
    }
  }

  /** while (*--sp != '/'): back over the last component of the stack. */
  method BackUp(a: array<char>, from: nat, ghost stack: seq<string>) returns (sp: nat)
    requires IsStack(stack) && stack != [] && from == |Joined(stack)| <= a.Length
    requires forall i :: 0 <= i < from ==> a[i] == Joined(stack)[i]
    ensures sp == |Joined(stack[..|stack| - 1])|
  {
    ghost var init, c := Joined(stack[..|stack| - 1]), stack[|stack| - 1];
    assert IsComp(c) && Joined(stack) == init + "/" + c;
    assert forall i :: |init| < i < from ==> a[i] == c[i - |init| - 1] && c[i - |init| - 1] in c;
    sp := from - 1;
    while a[sp] != '/'
      invariant |init| <= sp < from
      decreases sp
    {
      sp := sp - 1;
    }
  }

  /** Take the path down to the slash at sp, behind up, and join the tail behind p to it. */
  method JoinTail(a: array<char>, sp: nat, p: nat, slash: bool, ghost pre: string, ghost up: string, ghost tail: string)
    returns (p': nat)
    requires HoldsCut(a, pre, "..", tail) && p == |pre| + 3 && (slash <==> tail != "") && IsRest(tail)
    requires up <= pre && sp == |up| && (pre + "/")[sp] == '/'
    modifies a
    ensures slash ==> p' == sp && Holds(a, up + tail)
    ensures !slash ==> p' == p && a[p'] == NUL && Holds(a, if up == "" then "/" else up)
  {
    p' := p;
    if slash {
      ShiftDown(a, sp + 1, p + 1, |pre + "/" + ".." + tail|);
      p' := sp;
    } else if sp == 0 {
      a[1] := NUL;
    } else {
      a[sp] := NUL;
    }
  }

  lemma Upwards(stack: seq<string>)
    requires IsStack(stack)
    ensures var up := Enter(stack, "..");
            && IsStack(up) && (up == [] <==> Joined(up) == "")
            && Joined(up) <= Joined(stack) && (Joined(stack) + "/")[|Joined(up)|] == '/'
  {
  }

  /** The component "..". */
  method DotDot(a: array<char>, sp0: nat, p: nat, slash: bool, ghost stack: seq<string>, ghost tail: string)
    returns (p': nat)
    requires IsStack(stack) && HoldsCut(a, Joined(stack), "..", tail)
    requires sp0 == |Joined(stack)| + 1 && p == sp0 + 2 && (slash <==> tail != "") && IsRest(tail)
    modifies a
    ensures var up := Enter(stack, "..");
            && IsStack(up)
            && (slash ==> p' == |Joined(up)| && Holds(a, Joined(up) + tail))
            && (!slash ==> p' == p && a[p'] == NUL && Holds(a, Render(up)))
  {
    var sp := sp0 - 1;
    if sp != 0 {
      sp := BackUp(a, sp, stack);
    }
    Upwards(stack);
    p' := JoinTail(a, sp, p, slash, Joined(stack), Joined(Enter(stack, "..")), tail);
  }

  /** The tests of the loop tell the component. */
  lemma Which(a: array<char>, pre: string, c: string, tail: string)
    requires HoldsCut(a, pre, c, tail) && (c == "" ==> tail == "")
    ensures var sp := |pre| + 1;
            && sp < a.Length && (a[sp] == NUL <==> c == "")
            && (c != "" ==> sp + 1 < a.Length)
            && (c != "" && a[sp] == '.' ==> (a[sp + 1] == NUL <==> c == "."))
            && (c != "" && a[sp] == '.' && a[sp + 1] == '.' ==> sp + 2 < a.Length && (a[sp + 2] == NUL <==> c == ".."))
            && (c == "." ==> a[sp] == '.') && (c == ".." ==> a[sp] == '.' && a[sp + 1] == '.')
  {
    var t, sp := pre + "/" + c + tail, |pre| + 1;
    assert forall i :: 0 <= i < |c| ==> t[sp + i] == c[i] && t[sp + i] in t;
  }

  /** The component c has been entered; tail is left. */
  lemma Entered(stack: seq<string>, c: string, tail: string, goal: seq<string>)
    requires IsStack(stack) && '/' !in c && NUL !in c && IsRest(tail)
    requires EnterAll(stack, Comps("/" + c + tail)) == goal
    ensures IsStack(Enter(stack, c)) && EnterAll(Enter(stack, c), Comps(tail)) == goal
    ensures tail == "" ==> Enter(stack, c) == goal
    ensures IsComp(c) ==> Joined(Enter(stack, c)) == Joined(stack) + "/" + c
  {
    EnterFirst(stack, c, tail);
    if IsComp(c) {
      JoinedSnoc(stack, c);
    }
  }

  /** The three cases that edit the buffer or leave it, on the component c. */
  method Component(a: array<char>, sp: nat, p: nat, slash: bool,
      ghost stack: seq<string>, ghost c: string, ghost tail: string, ghost goal: seq<string>)
    returns (p': nat, atRoot: bool, ghost done: bool)
    requires IsStack(stack) && IsStack(goal) && HoldsCut(a, Joined(stack), c, tail) && '/' !in c && NUL !in c
    requires sp == |Joined(stack)| + 1 && p == sp + |c| && (slash <==> tail != "") && IsRest(tail)
    requires c == "" ==> tail == ""
    requires EnterAll(stack, Comps("/" + c + tail)) == goal
    modifies a
    ensures Turned(a, p', done, Enter(stack, c), tail, goal) && (atRoot ==> done)
  {
    hide EnterAll;
    hide Comps;
    ghost var pre := Joined(stack);
    Which(a, pre, c, tail);
    Entered(stack, c, tail, goal);
    if a[sp] == NUL {
      assert pre + "/" + "" + "" == pre + "/";
      atRoot := NullComponent(a, sp, pre);
      p', done := p, true;
    } else if a[sp] == '.' && a[sp + 1] == NUL {
      p' := Dot(a, sp, p, slash, pre, tail);
      atRoot, done := false, !slash;
    } else if a[sp] == '.' && a[sp + 1] == '.' && a[sp + 2] == NUL {
      p' := DotDot(a, sp, p, slash, stack, tail);
      atRoot, done := false, !slash;
    } else {
      Name(a, p, slash, pre, c, tail);
      p', atRoot, done := p, false, false;
    }
  }

  /** One turn of the loop: flush slashes, cut the component at p off, and enter it. */
  method Turn(a: array<char>, p: nat, ghost stack: seq<string>, ghost rest: string, ghost goal: seq<string>)
    returns (p': nat, atRoot: bool, ghost done: bool, ghost stack': seq<string>, ghost rest': string)
    requires Turned(a, p, false, stack, rest, goal) && rest != ""
    modifies a
    ensures Turned(a, p', done, stack', rest', goal) && (atRoot ==> done) && |rest'| < |rest|
  {
    ghost var pre := Joined(stack);
    hide EnterAll;
    hide Comps;
    hide Joined;
    hide Render;
    hide Enter;
    hide CompLen;
    ghost var r := FlushSlashes(a, p, pre, rest);
    ghost var c, tail := Flushed(a, stack, rest, r);
    var sp := p + 1;
    var e, slash := CutComponent(a, sp, pre, r);
    p', atRoot, done := Component(a, sp, e, slash, stack, c, tail, goal);
    stack', rest' := Enter(stack, c), tail;
  }

  /** With the slashes flushed the path goes on with the component c. */
  lemma Flushed(a: array<char>, stack: seq<string>, rest: string, r: string) returns (c: string, tail: string)
    requires IsStack(stack) && Holds(a, Joined(stack) + "/" + r) && (r != "" ==> r[0] != '/')
    requires exists k :: 0 < k <= |rest| && r == rest[k..] && forall i :: 0 <= i < k ==> rest[i] == '/'
    ensures c == r[..CompLen(r)] && tail == r[CompLen(r)..] && |tail| < |rest| && (c == "" ==> tail == "")
    ensures '/' !in c && NUL !in c && IsRest(tail) && (CompLen(r) < |r| <==> tail != "")
    ensures IsRest(rest) && EnterAll(stack, Comps(rest)) == EnterAll(stack, Comps("/" + c + tail))
  {
    hide Comps;
    hide EnterAll;
    c, tail := r[..CompLen(r)], r[CompLen(r)..];
    assert r == c + tail && "/" + r == "/" + c + tail;
    FlushedKeeps(stack, rest, r);
    NulFreeEnd(Joined(stack) + "/", r);
  }

  lemma FlushedKeeps(stack: seq<string>, rest: string, r: string)
    requires exists k :: 0 < k <= |rest| && r == rest[k..] && forall i :: 0 <= i < k ==> rest[i] == '/'
    ensures |r| < |rest| && IsRest(rest) && EnterAll(stack, Comps(rest)) == EnterAll(stack, Comps("/" + r))
  {
    hide Comps;
    hide EnterAll;
    var k :| 0 < k <= |rest| && r == rest[k..] && forall i :: 0 <= i < k ==> rest[i] == '/';
    assert rest[0] == '/';
    FlushKeeps(stack, rest, k);
  }

  lemma NulFreeEnd(s: string, r: string)
    requires NUL !in s + r
    ensures NUL !in r
  {
    assert forall i :: 0 <= i < |r| ==> (s + r)[|s| + i] == r[i];
  }

  lemma Arrived(a: array<char>, p: nat, stack: seq<string>, rest: string, goal: seq<string>)
    requires Turned(a, p, false, stack, rest, goal) && a[p] == NUL
    ensures Holds(a, Render(goal))
  {
    var t := Joined(stack) + rest;
    NulFreeEnd(Joined(stack), rest);
    assert t == Joined(stack);
  }

  lemma {:induction false} CompsClean(s: string)
    requires IsRest(s) && NUL !in s
    ensures forall c :: c in Comps(s) ==> '/' !in c && NUL !in c
    decreases |s|
  {
    if s != "" {
      var r := s[1..];
      CompsClean(r[CompLen(r)..]);
    }
  }

  /** The canonical form of any path is canonical. */
  lemma CanonTwice(path: string)
    requires path != "" && path[0] == '/' && NUL !in path
    ensures Canon(Canon(path)) == Canon(path)
  {
    CompsClean(path);
    StaysStack([], Comps(path));
    CanonIdempotent(EnterAll([], Comps(path)));
  }

  /** The loop of dcanon_internal from p on, behind a part that is canonical already. */
  method Canonicalize(a: array<char>, p0: nat, ghost stack0: seq<string>, ghost rest0: string)
    requires IsStack(stack0) && IsRest(rest0) && (stack0 != [] || rest0 != "")
    requires Holds(a, Joined(stack0) + rest0) && p0 == |Joined(stack0)|
    modifies a
    ensures Holds(a, Render(EnterAll(stack0, Comps(rest0))))
  {
    hide Joined;
    hide Comps;
    ghost var goal := EnterAll(stack0, Comps(rest0));
    CompsClean(rest0);
    StaysStack(stack0, Comps(rest0));
    ghost var stack, rest, done := stack0, rest0, false;
    var p := p0;
    while a[p] != NUL
      invariant Turned(a, p, done, stack, rest, goal)
      decreases |rest|
    {
      assert rest != "";
      var atRoot;
      p, atRoot, done, stack, rest := Turn(a, p, stack, rest, goal);
      if atRoot {
        break;
      }
    }
    if !done {
      Arrived(a, p, stack, rest, goal);
    }
  }

  /** Copy the text of src, its NUL with it, to dst from at on; the end is behind the NUL. */
  method StrCopy(dst: array<char>, at: nat, src: array<char>, ghost t: string) returns (end: nat)
    requires Holds(src, t) && at + |t| < dst.Length && dst != src
    modifies dst
    ensures end == at + |t| + 1 && dst[at + |t|] == NUL
    ensures forall i :: 0 <= i < at ==> dst[i] == old(dst[i])
    ensures forall i :: at <= i < at + |t| ==> dst[i] == t[i - at]
  {
    assert forall i :: 0 <= i < |t| ==> t[i] in t;
    var p, q := at, 0;
    while true
      invariant forall i :: 0 <= i < |t| ==> t[i] != NUL
      invariant 0 <= q <= |t| && p == at + q && Holds(src, t)
      invariant forall i :: 0 <= i < at ==> dst[i] == old(dst[i])
      invariant forall i :: at <= i < p ==> dst[i] == t[i - at]
      decreases |t| - q
    {
      dst[p] := src[q];
      p, q := p + 1, q + 1;
      if dst[p - 1] == NUL {
        break;
      }
    }
    end := p;
  }

  /** What dgoto is asked for: the name itself, or the name below the current directory. */
  function Asked(stack: seq<string>, arg: string): (path: string)
    ensures path != "" && path[0] == '/'
  {
    if arg != "" && arg[0] == '/' then arg else Render(stack) + "/" + arg
  }

  lemma AskedBelow(stack: seq<string>, arg: string)
    requires IsStack(stack) && (arg == "" || arg[0] != '/')
    ensures Canon(Asked(stack, arg)) == Render(EnterAll(stack, Comps("/" + arg)))
  {
    hide Comps;
    hide EnterAll;
    hide Joined;
    if stack == [] {
      assert "/" + "/" + arg == "/" + ("/" + arg);
      EnterSlash([], "/" + arg);
    } else {
      JoinedBlank(stack);
      assert Asked(stack, arg) == Joined(stack) + ("/" + arg);
      CanonicalPrefix(stack, "/" + arg);
    }
  }

  /** Going to a name below, to the parent, to the same place, and to an absolute name, from any directory. */
  lemma Goto(stack: seq<string>, c: string, arg: string)
    requires IsStack(stack) && IsComp(c) && arg != "" && arg[0] == '/'
    ensures Canon(Asked(stack, c)) == Joined(stack) + "/" + c
    ensures Canon(Asked(stack + [c], "..")) == if stack == [] then "/" else Joined(stack)
    ensures Canon(Asked([], "..")) == "/"
    ensures Canon(Asked(stack + [c], ".")) == Joined(stack) + "/" + c
    ensures Canon(Asked(stack, arg)) == Canon(arg)
  {
    hide Joined;
    hide Canon;
    Below(stack, c);
    Parent(stack, c);
    Same(stack, c);
    RootParent();
  }

  lemma Below(stack: seq<string>, c: string)
    requires IsStack(stack) && IsComp(c)
    ensures Canon(Asked(stack, c)) == Joined(stack) + "/" + c
  {
    JoinedIsCanonical(stack);
    ComponentStays(Joined(stack), c);
    if stack == [] {
      SlashesAreOne("", c);
      assert "" + "//" + c == "/" + "/" + c;
    }
  }

  lemma Parent(stack: seq<string>, c: string)
    requires IsStack(stack) && IsComp(c)
    ensures Canon(Asked(stack + [c], "..")) == if stack == [] then "/" else Joined(stack)
  {
    JoinedIsCanonical(stack);
    JoinedSnoc(stack, c);
    hide Canon;
    hide Joined;
    ParentUndoes(Joined(stack), c, "");
    ParentName(Joined(stack), c);
    JoinedBlank(stack);
  }

  lemma ParentName(dir: string, c: string)
    ensures dir + "/" + c + "/.." + "" == (dir + "/" + c) + "/" + ".." && dir + "" == dir
  {
  }

  lemma JoinedBlank(stack: seq<string>)
    ensures Joined(stack) == "" <==> stack == []
    ensures stack != [] ==> Joined(stack)[0] == '/'
  {
  }

  lemma Same(stack: seq<string>, c: string)
    requires IsStack(stack) && IsComp(c)
    ensures Canon(Asked(stack + [c], ".")) == Joined(stack) + "/" + c
  {
    JoinedSnoc(stack, c);
    JoinedIsCanonical(stack + [c]);
    hide Canon;
    var dir := Joined(stack) + "/" + c;
    DotIsNothing(dir, "");
    assert dir + "/." + "" == Asked(stack + [c], ".") && dir + "" == dir;
  }

  lemma RootParent()
    ensures Canon(Asked([], "..")) == "/"
  {
    hide Canon;
    SlashesAreOne("", "..");
    assert "" + "//" + ".." == "/" + "/" + ".." && "" + "/" + ".." == "/.." + "";
    ParentOfRoot("");
    assert "/" + "" == "/";
    RootStays();
  }

  method StrLen(a: array<char>, ghost t: string) returns (n: nat)
    requires Holds(a, t)
    ensures n == |t|
  {
    n := 0;
    assert forall i :: 0 <= i < |t| ==> t[i] in t;
    while a[n] != NUL
      invariant n <= |t| && forall i :: 0 <= i < |t| ==> t[i] != NUL
      decreases |t| - n
    {
      n := n + 1;
    }
  }

  lemma RootIsOne(stack: seq<string>)
    requires IsStack(stack)
    ensures |Render(stack)| == 1 <==> stack == []
  {
    if stack != [] {
      assert IsComp(stack[|stack| - 1]);
    }
  }

  lemma JoinedHeld(a: array<char>, pre: string, arg: string)
    requires |pre| + 1 + |arg| < a.Length && a[|pre| + 1 + |arg|] == NUL && a[|pre|] == '/'
    requires NUL !in pre && NUL !in arg
    requires forall i :: 0 <= i < |pre| ==> a[i] == pre[i]
    requires forall i :: |pre| < i <= |pre| + |arg| ==> a[i] == arg[i - (|pre| + 1)]
    ensures Holds(a, pre + ("/" + arg))
  {
  }

  /** The name of the current directory and the argument, joined by a slash. */
  method JoinCwd(name: array<char>, cp: array<char>, ghost stack: seq<string>, ghost arg: string)
    returns (dp: array<char>, p: nat)
    requires IsStack(stack) && Holds(name, Render(stack)) && Holds(cp, arg)
    ensures fresh(dp) && p == |Joined(stack)| && Holds(dp, Joined(stack) + ("/" + arg))
  {
    var cwdlen := StrLen(name, Render(stack));
    var arglen := StrLen(cp, arg);
    if cwdlen == 1 {
      RootIsOne(stack);
      cwdlen := 0;
    }
    dp := new char[cwdlen + arglen + 2](i => NUL);
    var e := StrCopy(dp, 0, name, Render(stack));
    if cwdlen != 0 {
      dp[e - 1] := '/';
    } else {
      e := e - 1;
    }
    RootIsOne(stack);
    var end := StrCopy(dp, e, cp, arg);
    p := cwdlen;
    JoinedHeld(dp, Joined(stack), arg);
  }

  /** dgoto: the canonical name of a directory. */
  method Dgoto(name: array<char>, cp: array<char>, ghost stack: seq<string>, ghost arg: string)
    returns (ret: array<char>)
    requires IsStack(stack) && Holds(name, Render(stack)) && Holds(cp, arg) && name != cp
    modifies cp
    ensures Holds(ret, Canon(Asked(stack, arg)))
    ensures ret == cp || fresh(ret)
  {
    if cp[0] != '/' {
      var p;
      ret, p := JoinCwd(name, cp, stack, arg);
      AskedBelow(stack, arg);
      Canonicalize(ret, p, stack, "/" + arg);
    } else {
      ret := cp;
      assert Joined([]) + arg == arg;
      Canonicalize(ret, 0, [], arg);
    }
  }
}
