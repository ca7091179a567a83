/** What the directory commands of sh.dir.c do to the displayed stack. */
module DirStack {
  import opened Sequences

  // ----- rings as sequences -----

  /** The displayed stack: from the current entry on, around the end. */
  function Turned<T>(s: seq<T>, c: nat): seq<T>
    requires c <= |s|
  {
    s[c..] + s[..c]
  }

  function With<T>(s: seq<T>, j: nat, x: T): seq<T>
    requires j <= |s|
  {
    s[..j] + [x] + s[j..]
  }

  /** The position i steps on around the ring. */
  function Step(c: nat, i: nat, m: nat): (j: nat)
    requires c < m && i < m
    ensures j < m
  {
    if c + i < m then c + i else c + i - m
  }

  lemma TurnedAt<T>(s: seq<T>, c: nat, i: nat)
    requires c < |s| && i < |s|
    ensures Turned(s, c)[i] == s[Step(c, i, |s|)]
  {
  }

  /** Making the entry i steps on current rotates the displayed stack. */
  lemma TurnedOn<T>(s: seq<T>, c: nat, i: nat)
    requires c < |s| && i < |s|
    ensures var t := Turned(s, c); Turned(s, Step(c, i, |s|)) == t[i..] + t[..i]
  {
  }

  lemma TurnedWith<T>(s: seq<T>, c: nat, x: T)
    requires c <= |s|
    ensures Turned(With(s, c, x), c) == [x] + Turned(s, c)
  {
  }

  /** Where the entry at c is after the one at j has gone. */
  function Shifted(c: nat, j: nat): (c': nat) {
    if j < c then c - 1 else c
  }

  lemma TurnedWithout<T>(s: seq<T>, c: nat, i: nat)
    requires c < |s| && i < |s| && i != 0
    ensures var j := Step(c, i, |s|);
            j != c && Turned(Without(s, j), Shifted(c, j)) == Without(Turned(s, c), i)
  {
    var j, t, w := Step(c, i, |s|), Turned(s, c), Without(s, Step(c, i, |s|));
    if j > c {
      assert w[c..] == s[c..j] + s[j + 1..] && w[..c] == s[..c];
      assert t[..i] == s[c..j] && t[i + 1..] == s[j + 1..] + s[..c];
    } else {
      assert w[c - 1..] == s[c..] && w[..c - 1] == s[..j] + s[j + 1..c];
      assert t[..i] == s[c..] + s[..j] && t[i + 1..] == s[j + 1..c];
    }
  }

  /** Dropping the current entry for the one i steps on. */
  lemma TurnedDrop<T>(s: seq<T>, c: nat, i: nat)
    requires c < |s| && i < |s| && i != 0
    ensures var j, t := Step(c, i, |s|), Turned(s, c);
            Shifted(j, c) < |s| - 1 && Turned(Without(s, c), Shifted(j, c)) == t[i..] + t[1..i]
  {
    var j, t, w := Step(c, i, |s|), Turned(s, c), Without(s, c);
    if j > c {
      assert w[j - 1..] == s[j..] && w[..j - 1] == s[..c] + s[c + 1..j];
      assert t[i..] == s[j..] + s[..c] && t[1..i] == s[c + 1..j];
    } else {
      assert w[j..] == s[j..c] + s[c + 1..] && w[..j] == s[..j];
      assert t[i..] == s[j..c] && t[1..i] == s[c + 1..] + s[..j];
    }
  }

  /** How far around the ring from c the position j is. */
  function Behind(c: nat, j: nat, m: nat): (i: nat)
    requires c < m && j < m
    ensures i < m && Step(c, i, m) == j && (i == 0 <==> j == c)
  {
    if j >= c then j - c else j - c + m
  }

  /** The number of words in front of an empty one. */
  function Words(vec: seq<string>): (n: nat)
    ensures n <= |vec| && (forall i :: 0 <= i < n ==> vec[i] != "") && (n < |vec| ==> vec[n] == "")
  {
    if vec == [] || vec[0] == "" then 0 else 1 + Words(vec[1..])
  }

  // ----- the commands -----

  datatype Arg = NoArg | Plus(n: nat) | Minus(n: nat) | Name

  datatype Place = At(j: nat) | Nowhere | Deep

  /** Which entry of the ring a numeric argument means. */
  function Meant(arg: Arg, m: nat, c: nat): (p: Place)
    requires c < m
    ensures p.At? ==> p.j < m && p.j != c
  {
    match arg
    case Plus(n) => if n == 0 then Nowhere else if n < m then At(Step(c, n, m)) else Deep
    case Minus(n) => if n >= m || m - 1 - n == c then Nowhere else At(m - 1 - n)
    case _ => Nowhere
  }

  /** What a command comes to, with the displayed entry it is about. */
  datatype Plan = Fail | New(name: string) | Swap | Bring(i: nat) | Drop(i: nat)

  /** With dunique set, another entry of the same name as the top is dropped. */
  ghost predicate Uniqued(dunique: bool, t: seq<string>, r: seq<string>) {
    if dunique && exists i :: 0 < i < |t| && t[i] == t[0]
    then exists i :: 0 < i < |t| && t[i] == t[0] && r == Without(t, i)
    else r == t
  }

  /** What pushd comes to, given whether the directory can be reached and the name dfollow finds. */
  function PushPlan(arg: Arg, home: bool, reach: bool, follow: Option<string>, m: nat, c: nat): (p: Plan)
    requires c < m
    ensures p.Bring? ==> 0 < p.i < m
  {
    if arg == NoArg && !home then if m == 1 || !reach then Fail else Swap
    else if arg == NoArg && !reach then Fail
    else
      match Meant(arg, m, c)
      case At(j) => if reach then Bring(Behind(c, j, m)) else Fail
      case Deep => Fail
      case Nowhere => if follow.Some? then New(follow.value) else Fail
  }

  /** The stack pushd is to leave. */
  ghost predicate Pushed(p: Plan, extract: bool, dunique: bool, t: seq<string>, r: seq<string>)
    requires p.Bring? ==> p.i < |t|
    requires p.Swap? ==> |t| > 1
  {
    match p
    case New(x) => Uniqued(dunique, [x] + t, r)
    case Swap => Uniqued(dunique, [t[1], t[0]] + t[2..], r)
    case Bring(i) => Uniqued(dunique, if extract then [t[i]] + Without(t, i) else t[i..] + t[..i], r)
    case _ => r == t
  }

  /** What popd comes to. */
  function PopPlan(arg: Arg, reach: bool, m: nat, c: nat): (p: Plan)
    requires c < m
    ensures p.Drop? ==> p.i < m && 1 < m
  {
    if arg == NoArg then if m > 1 && reach then Drop(0) else Fail
    else
      match Meant(arg, m, c)
      case At(j) => Drop(Behind(c, j, m))
      case _ => Fail
  }

  ghost predicate Popped(p: Plan, dunique: bool, t: seq<string>, r: seq<string>)
    requires p.Drop? ==> p.i < |t|
  {
    match p
    case Drop(i) => if i == 0 then Uniqued(dunique, t[1..], r) else r == Without(t, i)
    case _ => r == t
  }

  /** What cd comes to. */
  function ChangePlan(arg: Arg, reach: bool, follow: Option<string>, m: nat, c: nat): (p: Plan)
    requires c < m
    ensures p.Bring? ==> 0 < p.i < m
  {
    match Meant(arg, m, c)
    case At(j) => if reach then Bring(Behind(c, j, m)) else Fail
    case Deep => Fail
    case Nowhere => if follow.Some? && (arg == NoArg ==> reach) && !arg.Minus? then New(follow.value) else Fail
  }

  ghost predicate Changed(p: Plan, dunique: bool, t: seq<string>, r: seq<string>)
    requires p.Bring? ==> 0 < p.i < |t|
    requires t != []
  {
    match p
    case New(x) => Uniqued(dunique, [x] + t[1..], r)
    case Bring(i) => Uniqued(dunique, t[i..] + t[1..i], r)
    case _ => r == t
  }

  // ----- the commands on the displayed stack itself -----

  /** The entry at i comes to the top, alone or by turning the stack. */
  ghost predicate Brought(i: nat, extract: bool, dunique: bool, t: seq<string>, r: seq<string>)
    requires i < |t|
  {
    Uniqued(dunique, if extract then [t[i]] + t[..i] + t[i + 1..] else t[i..] + t[..i], r)
  }

  /** pushd without an argument swaps or goes home, with +n it brings up the entry n from the top, with -n the one
      n from the sentinel. */
  lemma PushMeans(arg: Arg, home: bool, reach: bool, follow: Option<string>, c: nat, extract: bool, dunique: bool,
                  t: seq<string>, r: seq<string>)
    requires c < |t| && Pushed(PushPlan(arg, home, reach, follow, |t|, c), extract, dunique, t, r)
    ensures var fails := PushPlan(arg, home, reach, follow, |t|, c).Fail?;
            && (fails ==> r == t)
            && (arg == NoArg && !home ==>
                  if |t| > 1 && reach then !fails && Uniqued(dunique, [t[1], t[0]] + t[2..], r) else fails)
            && (arg == Name || arg == Plus(0) || (arg == NoArg && home && reach) ==>
                  if follow.Some? then !fails && Uniqued(dunique, [follow.value] + t, r) else fails)
            && (arg == NoArg && home && !reach ==> fails)
            && (arg.Plus? && 0 < arg.n < |t| ==>
                  if reach then !fails && Brought(arg.n, extract, dunique, t, r) else fails)
            && (arg.Plus? && arg.n >= |t| ==> fails)
            && (arg.Minus? && arg.n < |t| - 1 - c ==>
                  if reach then !fails && Brought(|t| - 1 - arg.n - c, extract, dunique, t, r) else fails)
            && (arg.Minus? && |t| - 1 - c < arg.n < |t| ==>
                  if reach then !fails && Brought(2 * |t| - 1 - arg.n - c, extract, dunique, t, r) else fails)
            && (arg.Minus? && (arg.n >= |t| || arg.n == |t| - 1 - c) ==>
                  if follow.Some? then !fails && Uniqued(dunique, [follow.value] + t, r) else fails)
  {
    hide Uniqued;
    match PushPlan(arg, home, reach, follow, |t|, c)
    case Bring(i) => assert [t[i]] + Without(t, i) == [t[i]] + t[..i] + t[i + 1..];
    case _ =>
  }

  /** popd drops the top, or the entry a number means, which must not be the top. */
  lemma PopMeans(arg: Arg, reach: bool, c: nat, dunique: bool, t: seq<string>, r: seq<string>)
    requires c < |t| && Popped(PopPlan(arg, reach, |t|, c), dunique, t, r)
    ensures var fails := PopPlan(arg, reach, |t|, c).Fail?;
            && (fails ==> r == t)
            && (arg == NoArg ==> if |t| > 1 && reach then !fails && Uniqued(dunique, t[1..], r) else fails)
            && (arg == Name || arg == Plus(0) || (arg.Plus? && arg.n >= |t|) ==> fails)
            && (arg.Plus? && 0 < arg.n < |t| ==> !fails && r == t[..arg.n] + t[arg.n + 1..])
            && (arg.Minus? && arg.n < |t| - 1 - c ==>
                  var i := |t| - 1 - arg.n - c; !fails && r == t[..i] + t[i + 1..])
            && (arg.Minus? && |t| - 1 - c < arg.n < |t| ==>
                  var i := 2 * |t| - 1 - arg.n - c; !fails && r == t[..i] + t[i + 1..])
            && (arg.Minus? && (arg.n >= |t| || arg.n == |t| - 1 - c) ==> fails)
  {
    hide Uniqued;
  }

  /** cd replaces the top, or leaves it for the entry a number means. */
  lemma ChangeMeans(arg: Arg, reach: bool, follow: Option<string>, c: nat, dunique: bool,
                    t: seq<string>, r: seq<string>)
    requires c < |t| && Changed(ChangePlan(arg, reach, follow, |t|, c), dunique, t, r)
    ensures var fails := ChangePlan(arg, reach, follow, |t|, c).Fail?;
            && (fails ==> r == t)
            && (arg == Name || arg == Plus(0) || arg == NoArg ==>
                  if follow.Some? && (arg == NoArg ==> reach)
                  then !fails && Uniqued(dunique, [follow.value] + t[1..], r) else fails)
            && (arg.Plus? && 0 < arg.n < |t| ==>
                  if reach then !fails && Uniqued(dunique, t[arg.n..] + t[1..arg.n], r) else fails)
            && (arg.Plus? && arg.n >= |t| ==> fails)
            && (arg.Minus? && arg.n < |t| - 1 - c ==>
                  var i := |t| - 1 - arg.n - c;
                  if reach then !fails && Uniqued(dunique, t[i..] + t[1..i], r) else fails)
            && (arg.Minus? && |t| - 1 - c < arg.n < |t| ==>
                  var i := 2 * |t| - 1 - arg.n - c;
                  if reach then !fails && Uniqued(dunique, t[i..] + t[1..i], r) else fails)
            && (arg.Minus? && (arg.n >= |t| || arg.n == |t| - 1 - c) ==> fails)
  {
    hide Uniqued;
  }

  /** With dunique set, the twin below the top goes and the rest stays in its order. */
  lemma TwinGoes(x: string, above: seq<string>, below: seq<string>, r: seq<string>)
    requires x !in above && x !in below
    ensures Uniqued(true, [x] + above + [x] + below, r) ==> r == [x] + above + below
    ensures Uniqued(true, [x] + above, r) ==> r == [x] + above
    ensures Uniqued(false, [x] + above, r) ==> r == [x] + above
  {
    var t := [x] + above + [x] + below;
    assert t[|above| + 1] == x;
    assert forall i :: 0 < i < |t| && i != |above| + 1 ==> t[i] in above || t[i] in below;
    assert Without(t, |above| + 1) == [x] + above + below;
    assert forall i :: 0 < i < |[x] + above| ==> ([x] + above)[i] in above;
  }

  // ----- the script of recdirs -----

  datatype Line = Cd(name: string) | Pd(name: string)

  /** The first n lines of the script: cd to the bottom of the stack, and up from there. */
  function Lines(t: seq<string>, n: nat): (s: seq<Line>)
    requires n <= |t|
    ensures |s| == n
  {
    if n == 0 then [] else Lines(t, n - 1) + [if n == 1 then Cd(t[|t| - 1]) else Pd(t[|t| - n])]
  }

  lemma LinesNone(t: seq<string>)
    ensures Lines(t, 0) == []
  {
  }

  function Script(t: seq<string>, cap: int): seq<Line> {
    Lines(t, if 0 <= cap < |t| then cap + 1 else |t|)
  }

  /** The place of x, or the length. */
  function Find(t: seq<string>, x: string): (i: nat)
    ensures i <= |t| && (i < |t| ==> t[i] == x) && (i == |t| <==> x !in t)
  {
    if t == [] || t[0] == x then 0 else 1 + Find(t[1..], x)
  }

  /** With dunique the twin of the current directory goes, where there is but one. */
  function Tidied(dunique: bool, t: seq<string>): (r: seq<string>)
    requires t != []
    ensures r != []
  {
    var i := Find(t[1..], t[0]);
    if dunique && i + 1 < |t| then Without(t, i + 1) else t
  }

  lemma OneTwin(dunique: bool, t: seq<string>, r: seq<string>)
    requires t != [] && (dunique ==> NoDup(t[1..])) && Uniqued(dunique, t, r)
    ensures r == Tidied(dunique, t) && (dunique ==> NoDup(r))
  {
    if dunique {
      UniquedDistinct(t, r);
      assert forall i :: 0 < i < |t| ==> t[i] == t[1..][i - 1];
      var p := Find(t[1..], t[0]);
      assert p < |t| - 1 ==> t[p + 1] == t[0];
    }
  }

  /** What one line of the script does to the stack. */
  function Run(l: Line, t: seq<string>, dunique: bool): (r: seq<string>)
    requires t != []
    ensures r != []
  {
    match l
    case Cd(x) => Tidied(dunique, [x] + t[1..])
    case Pd(x) => Tidied(dunique, [x] + t)
  }

  function Played(script: seq<Line>, t: seq<string>, dunique: bool): (r: seq<string>)
    requires t != []
    ensures r != []
  {
    if script == [] then t
    else Run(script[|script| - 1], Played(script[..|script| - 1], t, dunique), dunique)
  }

  /** The lines in front of the first whose directory cannot be reached, which ends the sourcing. */
  function Reached(script: seq<Line>, reach: string -> bool): (n: nat)
    ensures n <= |script| && (forall i :: 0 <= i < n ==> reach(script[i].name))
    ensures n < |script| ==> !reach(script[n].name)
  {
    if script == [] || !reach(script[0].name) then 0 else 1 + Reached(script[1..], reach)
  }

  /** Nothing is to be tidied behind distinct names. */
  lemma TidyAlready(dunique: bool, t: seq<string>)
    requires t != [] && (dunique ==> NoDup(t))
    ensures Tidied(dunique, t) == t
  {
    var p := Find(t[1..], t[0]);
    assert p + 1 < |t| ==> t[p + 1] == t[0];
  }

  lemma PlayedNone(t: seq<string>, dunique: bool)
    requires t != []
    ensures Played([], t, dunique) == t
  {
  }

  lemma PlayedMore(script: seq<Line>, k: nat, t: seq<string>, dunique: bool)
    requires k < |script| && t != []
    ensures Played(script[..k + 1], t, dunique) == Run(script[k], Played(script[..k], t, dunique), dunique)
  {
    assert script[..k + 1][..k] == script[..k];
  }

  lemma OneOnTop(t: seq<string>, k: nat, dunique: bool)
    requires k < |t| && (dunique ==> NoDup(t))
    ensures Tidied(dunique, [t[k]] + t[k + 1..]) == t[k..]
  {
    hide Tidied;
    assert [t[k]] + t[k + 1..] == t[k..];
    assert forall i :: 0 <= i < |t[k..]| ==> t[k..][i] == t[k + i];
    TidyAlready(dunique, t[k..]);
  }

  lemma LastLine(t: seq<string>, n: nat, t0: seq<string>, dunique: bool)
    requires 0 < n <= |t| && t0 != []
    ensures var l := if n == 1 then Cd(t[|t| - 1]) else Pd(t[|t| - n]);
            Played(Lines(t, n), t0, dunique) == Run(l, Played(Lines(t, n - 1), t0, dunique), dunique)
  {
    var script := Lines(t, n);
    assert script[..n] == script && script[..n - 1] == Lines(t, n - 1);
  }

  lemma {:induction false} LinesRestore(t: seq<string>, n: nat, t0: seq<string>, dunique: bool)
    requires 0 < n <= |t| && |t0| == 1 && (dunique ==> NoDup(t))
    ensures Played(Lines(t, n), t0, dunique) == t[|t| - n..]
  {
    hide Tidied, NoDup, Played, Lines;
    LastLine(t, n, t0, dunique);
    OneOnTop(t, |t| - n, dunique);
    if n > 1 {
      LinesRestore(t, n - 1, t0, dunique);
    } else {
      LinesNone(t);
      PlayedNone(t0, dunique);
      assert t0[1..] == [] == t[|t|..];
    }
  }

  /** The script restores the stack it was written from, unless savedirs cuts its top off. */
  lemma ScriptRestores(t: seq<string>, cap: int, t0: seq<string>, dunique: bool)
    requires t != [] && |t0| == 1 && (dunique ==> NoDup(t))
    ensures Played(Script(t, cap), t0, dunique) == t[|t| - |Script(t, cap)|..]
    ensures Played(Script(t, cap), t0, dunique) == t <==> cap < 0 || cap >= |t| - 1
  {
    LinesRestore(t, |Script(t, cap)|, t0, dunique);
  }

  lemma Scripted(t: seq<string>, n: nat, cap: int)
    requires n <= |t| && if 0 <= cap < |t| then n == cap + 1 else n == |t|
    ensures Script(t, cap) == Lines(t, n)
  {
  }

  // ----- with dunique set, names stay distinct -----

  lemma UniquedDistinct(t: seq<string>, r: seq<string>)
    requires Uniqued(true, t, r) && t != [] && NoDup(t[1..])
    ensures NoDup(r)
  {
    assert forall i :: 0 < i < |t| ==> t[i] == t[1..][i - 1];
  }

  lemma TurnedDistinct(t: seq<string>, i: nat)
    requires i <= |t| && NoDup(t)
    ensures NoDup(t[i..] + t[..i])
  {
  }

  lemma BringDistinct(i: nat, extract: bool, t: seq<string>, r: seq<string>)
    requires i < |t| && NoDup(t) && Uniqued(true, if extract then [t[i]] + Without(t, i) else t[i..] + t[..i], r)
    ensures NoDup(r)
  {
    hide Uniqued;
    if extract {
      assert ([t[i]] + Without(t, i))[1..] == Without(t, i);
      UniquedDistinct([t[i]] + Without(t, i), r);
    } else {
      TurnedDistinct(t, i);
      UniquedDistinct(t[i..] + t[..i], r);
    }
  }

  lemma PushedDistinct(p: Plan, extract: bool, t: seq<string>, r: seq<string>)
    requires (p.Bring? ==> p.i < |t|) && (p.Swap? ==> |t| > 1) && Pushed(p, extract, true, t, r) && NoDup(t)
    ensures NoDup(r)
  {
    match p
    case New(x) => assert ([x] + t)[1..] == t; UniquedDistinct([x] + t, r);
    case Swap => UniquedDistinct([t[1], t[0]] + t[2..], r);
    case Bring(i) => BringDistinct(i, extract, t, r);
    case _ =>
  }

  lemma ChangedDistinct(p: Plan, t: seq<string>, r: seq<string>)
    requires (p.Bring? ==> 0 < p.i < |t|) && t != [] && Changed(p, true, t, r) && NoDup(t)
    ensures NoDup(r)
  {
    match p
    case New(x) => assert ([x] + t[1..])[1..] == t[1..]; UniquedDistinct([x] + t[1..], r);
    case Bring(i) =>
      assert t[i..] + t[1..i] == Turned(t[1..], i - 1);
      TurnedDistinct(t[1..], i - 1);
      UniquedDistinct(t[i..] + t[1..i], r);
    case _ =>
  }

  lemma PoppedDistinct(p: Plan, t: seq<string>, r: seq<string>)
    requires (p.Drop? ==> p.i < |t|) && |t| > 1 && Popped(p, true, t, r) && NoDup(t)
    ensures NoDup(r)
  {
    if p == Drop(0) {
      UniquedDistinct(t[1..], r);
    }
  }

  // ----- counting from the bottom -----

  /** -n counts from the bottom of the displayed stack just when the sentinel stands behind it. */
  lemma BottomCount(m: nat, c: nat)
    requires c < m
    ensures c == 0 <==>
            forall n: nat :: Meant(Minus(n), m, c).At? ==> Behind(c, Meant(Minus(n), m, c).j, m) == m - 1 - n
  {
    if c != 0 {
      assert Meant(Minus(m - 1), m, c) == At(0);
    }
  }

  /** $dirstack reads as the displayed stack in the same case, for distinct names. */
  lemma DirstackShown<T>(s: seq<T>, c: nat)
    requires c < |s| && NoDup(s)
    ensures Turned(s, c) == s <==> c == 0
  {
    TurnedAt(s, c, 0);
  }
}
