/** update_line of ed.refresh.c: finding what two versions of a row share. */
module RowPlan {
  import opened Cells

  /** The length of the NUL-terminated text that starts the buffer. */
  function Len(s: seq<Cell>): (n: nat)
    ensures n <= |s|
    ensures forall i :: 0 <= i < n ==> s[i] != NUL
    ensures n < |s| ==> s[n] == NUL
  {
    if s == [] || s[0] == NUL then 0 else 1 + Len(s[1..])
  }

  /**
   * The pointers of update_line as offsets. f is ofd and nfd: the first
   * difference has the same offset in both rows.
   */
  datatype Plan = Plan(f: int, osb: int, ose: int, ols: int, oe: int, nsb: int, nse: int, nls: int, ne: int) {
    function Fx(): int { (nsb - f) - (osb - f) }

    function Sx(): int { (nls - nse) - (ols - ose) }

    /** The match and the tail given up. */
    function NoMatch(): Plan { this.(osb := ols, ose := ols, nsb := nls, nse := nls) }

    function NoTail(): Plan { this.(ols := oe, nls := ne) }

    /** What the differ has found: a common prefix, a shifted match and a common tail. */
    ghost predicate Sound(o: seq<Cell>, n: seq<Cell>) {
      && 0 <= f <= osb <= ose <= ols <= oe <= |o|
      && f <= nsb <= nse <= nls <= ne <= |n|
      && o[..f] == n[..f]
      && o[osb..ose] == n[nsb..nse]
      && o[ols..oe] == n[nls..ne]
      && ose - osb == nse - nsb
      && oe - ols == ne - nls
      // the match starts at the first difference in one of the rows
      && (osb < ose ==> osb == f || nsb == f)
    }

    /** An empty match sits directly in front of the common tail. */
    predicate Settled() {
      osb < ose || (osb == ose == ols && nsb == nse == nls)
    }

    /** The edits that follow need nothing the terminal cannot do. */
    predicate Within(canIns: bool, canDel: bool) {
      && (Fx() > 0 && nsb != ne ==> canIns)
      && (Sx() > 0 && ols != oe ==> canIns)
      && (Fx() < 0 && osb != oe ==> canDel)
      && (Sx() < 0 && ols != oe ==> canDel)
    }
  }

  const MIN_END_KEEP := 4

  // ----- the plan as a function of the two texts -----

  function TextOf(s: seq<Cell>): seq<Cell> {
    s[..Len(s)]
  }

  /** The length of the longest common prefix. */
  function Common(a: seq<Cell>, b: seq<Cell>): (n: nat)
    ensures n <= |a| && n <= |b| && forall i :: 0 <= i < n ==> a[i] == b[i]
    ensures n < |a| && n < |b| ==> a[n] != b[n]
  {
    if a == [] || b == [] || a[0] != b[0] then 0 else 1 + Common(a[1..], b[1..])
  }

  lemma CommonIs(a: seq<Cell>, b: seq<Cell>, n: nat)
    requires n <= |a| && n <= |b| && forall i :: 0 <= i < n ==> a[i] == b[i]
    requires n < |a| && n < |b| ==> a[n] != b[n]
    ensures Common(a, b) == n
  {
  }

  /** The length of the longest common tail of what is behind the first f cells. */
  function CommonTail(a: seq<Cell>, b: seq<Cell>, f: nat): (k: nat)
    requires f <= |a| && f <= |b|
    ensures k <= |a| - f && k <= |b| - f && forall i :: |a| - k <= i < |a| ==> a[i] == b[i - |a| + |b|]
    ensures k < |a| - f && k < |b| - f ==> a[|a| - k - 1] != b[|b| - k - 1]
  {
    if f == |a| || f == |b| || a[|a| - 1] != b[|b| - 1] then 0
    else 1 + CommonTail(a[..|a| - 1], b[..|b| - 1], f)
  }

  lemma CommonTailIs(a: seq<Cell>, b: seq<Cell>, f: nat, k: nat)
    requires f <= |a| && f <= |b| && k <= |a| - f && k <= |b| - f
    requires forall i :: |a| - k <= i < |a| ==> a[i] == b[i - |a| + |b|]
    requires k < |a| - f && k < |b| - f ==> a[|a| - k - 1] != b[|b| - k - 1]
    ensures CommonTail(a, b, f) == k
  {
  }

  /** A stretch of one row and the equal one of the other. */
  datatype Span = Span(asb: int, ase: int, bsb: int, bse: int) {
    function Length(): int { bse - bsb }
  }

  /** The longest match of a at f with b at j. */
  function MatchAt(a: seq<Cell>, b: seq<Cell>, f: nat, j: nat): Span
    requires f <= |a| && j <= |b|
  {
    var k := Common(a[f..], b[j..]);
    Span(f, f + k, j, j + k)
  }

  /** Worth keeping: longer than half the distance it is shifted by. */
  predicate Worth(s: Span, f: nat) {
    2 * s.Length() > s.bsb - f
  }

  /** The match that the scan of b[f..n] for something that starts like a at f ends with, from the one at hand. */
  function Scanned(a: seq<Cell>, b: seq<Cell>, f: nat, best: Span, n: nat): Span
    requires f <= |a| && f <= n <= |b|
    decreases n
  {
    if n == f then best
    else
      var m, s := Scanned(a, b, f, best, n - 1), MatchAt(a, b, f, n - 1);
      if m.Length() < s.Length() && Worth(s, f) then s else m
  }

  /** The scan finds the longest match of those worth keeping. */
  lemma {:induction false} ScanIsLongest(a: seq<Cell>, b: seq<Cell>, f: nat, best: Span, n: nat)
    requires f <= |a| && f <= n <= |b|
    ensures var m := Scanned(a, b, f, best, n);
            && best.Length() <= m.Length()
            && (forall j :: f <= j < n && Worth(MatchAt(a, b, f, j), f) ==>
                              MatchAt(a, b, f, j).Length() <= m.Length())
            && (m == best || (Worth(m, f) && exists j :: f <= j < n && m == MatchAt(a, b, f, j)))
    decreases n
  {
    hide MatchAt;
    hide Worth;
    if n > f {
      ScanIsLongest(a, b, f, best, n - 1);
    }
  }

  lemma {:induction false} NothingToScan(a: seq<Cell>, b: seq<Cell>, f: nat, best: Span, n: nat)
    requires f == |a| && f <= n <= |b| && 0 <= best.Length()
    ensures Scanned(a, b, f, best, n) == best
    decreases n
  {
    if n > f {
      NothingToScan(a, b, f, best, n - 1);
    }
  }

  lemma NoRun(a: seq<Cell>, b: seq<Cell>, f: nat, j: nat)
    requires f <= |a| && j < |b| && (f < |a| ==> a[f] != b[j])
    ensures MatchAt(a, b, f, j).Length() == 0
  {
  }

  function Swapped(s: Span): Span {
    Span(s.bsb, s.bse, s.asb, s.ase)
  }

  /** Case 1 and then case 2, from the empty match in front of the common tail. */
  function ScannedBoth(a: seq<Cell>, b: seq<Cell>, f: nat): Span
    requires f <= |a| && f <= |b|
  {
    var s := Scanned(a, b, f, Span(|a|, |a|, |b|, |b|), |b|);
    Swapped(Scanned(b, a, f, Swapped(s), |a|))
  }

  /** What the searches find in two texts. */
  function Found(o: seq<Cell>, n: seq<Cell>): Plan {
    var f := Common(o, n);
    var k := CommonTail(o, n, f);
    var ols, nls := |o| - k, |n| - k;
    var s := ScannedBoth(o[..ols], n[..nls], f);
    Plan(f, s.asb, s.ase, ols, |o|, s.bsb, s.bse, nls, |n|)
  }

  function WithoutShortTail(p: Plan): Plan {
    if p.oe - p.ols < MIN_END_KEEP then p.NoTail() else p
  }

  function WithoutInserts(p: Plan, fx: int, sx: int): Plan {
    var q := if fx > 0 then p.NoMatch() else p;
    var r := if sx > 0 then q.NoTail() else q;
    if r.ols < r.nls then r.NoTail() else r
  }

  function WithoutDeletes(p: Plan, fx: int, sx: int): Plan {
    var q := if fx < 0 then p.NoMatch() else p;
    var r := if sx < 0 then q.NoTail() else q;
    if r.nls < r.ols then r.NoTail() else r
  }

  function WithoutShortMatch(p: Plan): Plan {
    if p.ose - p.osb < MIN_END_KEEP then p.NoMatch() else p
  }

  /** What Pragmatics I to III leave of a plan. */
  function Pragmatic(p: Plan, canIns: bool, canDel: bool): Plan {
    var q := WithoutShortTail(p);
    var r := if canIns then q else WithoutInserts(q, q.Fx(), q.Sx());
    var s := if canDel then r else WithoutDeletes(r, q.Fx(), q.Sx());
    WithoutShortMatch(s)
  }

  /** The plan of update_line for two texts whose trailing blanks are cut. */
  function PlanOf(o: seq<Cell>, n: seq<Cell>, canIns: bool, canDel: bool): Plan {
    Pragmatic(Found(o, n), canIns, canDel)
  }

  // ----- what every plan is like -----

  /** A span of the two texts, from column f on; it starts at f in one of them unless it is empty. */
  ghost predicate Fits(s: Span, a: seq<Cell>, b: seq<Cell>, f: int) {
    && 0 <= f <= s.asb <= s.ase <= |a| && f <= s.bsb <= s.bse <= |b|
    && s.ase - s.asb == s.bse - s.bsb && a[s.asb..s.ase] == b[s.bsb..s.bse]
    && (s.asb < s.ase ==> s.asb == f || s.bsb == f)
  }

  lemma MatchFits(a: seq<Cell>, b: seq<Cell>, f: nat, j: nat)
    requires f <= |a| && f <= j <= |b|
    ensures Fits(MatchAt(a, b, f, j), a, b, f)
  {
    var k := Common(a[f..], b[j..]);
    assert a[f..][..k] == b[j..][..k];
    assert a[f..f + k] == a[f..][..k] && b[j..j + k] == b[j..][..k];
  }

  lemma {:induction false} ScannedFits(a: seq<Cell>, b: seq<Cell>, f: nat, best: Span, n: nat)
    requires f <= |a| && f <= n <= |b| && Fits(best, a, b, f)
    ensures Fits(Scanned(a, b, f, best, n), a, b, f)
    decreases n
  {
    hide Fits;
    hide MatchAt;
    if n > f {
      ScannedFits(a, b, f, best, n - 1);
      MatchFits(a, b, f, n - 1);
    }
  }

  lemma SwappedFits(s: Span, a: seq<Cell>, b: seq<Cell>, f: nat)
    requires Fits(s, a, b, f)
    ensures Fits(Swapped(s), b, a, f)
  {
  }

  lemma BothFit(a: seq<Cell>, b: seq<Cell>, f: nat)
    requires f <= |a| && f <= |b|
    ensures Fits(ScannedBoth(a, b, f), a, b, f)
  {
    hide Scanned;
    var e := Span(|a|, |a|, |b|, |b|);
    var s := Scanned(a, b, f, e, |b|);
    ScannedFits(a, b, f, e, |b|);
    SwappedFits(s, a, b, f);
    ScannedFits(b, a, f, Swapped(s), |a|);
    SwappedFits(Scanned(b, a, f, Swapped(s), |a|), b, a, f);
  }

  lemma FoundIsSound(o: seq<Cell>, n: seq<Cell>)
    ensures var p := Found(o, n); p.Sound(o, n) && (p.f, p.oe, p.ne) == (Common(o, n), |o|, |n|)
  {
    hide Fits;
    hide Plan.Sound;
    FoundWithin(o, n);
    var p := Found(o, n);
    hide Found;
    hide ScannedBoth;
    BothFit(o[..p.ols], n[..p.nls], p.f);
    SoundWhen(p, o, n);
  }

  ghost predicate FoundIn(p: Plan, o: seq<Cell>, n: seq<Cell>) {
    && 0 <= p.f <= p.ols <= p.oe == |o| && p.f <= p.nls <= p.ne == |n|
    && p.f == Common(o, n) && p.oe - p.ols == p.ne - p.nls == CommonTail(o, n, p.f)
  }

  lemma FoundWithin(o: seq<Cell>, n: seq<Cell>)
    ensures var p := Found(o, n);
            FoundIn(p, o, n) && Span(p.osb, p.ose, p.nsb, p.nse) == ScannedBoth(o[..p.ols], n[..p.nls], p.f)
  {
    hide ScannedBoth;
  }

  lemma SoundWhen(p: Plan, o: seq<Cell>, n: seq<Cell>)
    requires FoundIn(p, o, n) && Fits(Span(p.osb, p.ose, p.nsb, p.nse), o[..p.ols], n[..p.nls], p.f)
    ensures p.Sound(o, n)
  {
    SliceOfFront(o, p.osb, p.ose, p.ols);
    SliceOfFront(n, p.nsb, p.nse, p.nls);
  }

  lemma SliceOfFront(s: seq<Cell>, i: nat, j: nat, k: nat)
    requires i <= j <= k <= |s|
    ensures s[i..j] == s[..k][i..j]
  {
  }

  /** What the editor may rely on once Pragmatics II has catered for a terminal that cannot insert. */
  predicate NeedsNoInsert(p: Plan) {
    && (p.osb < p.ose ==> p.Fx() <= 0)
    && (p.osb < p.ose && p.ols != p.oe ==> p.Sx() <= 0)
    && (p.ols != p.oe ==> p.nls <= p.ols)
  }

  predicate NeedsNoDelete(p: Plan) {
    && (p.osb < p.ose ==> p.Fx() >= 0)
    && (p.osb < p.ose && p.ols != p.oe ==> p.Sx() >= 0)
    && (p.ols != p.oe ==> p.ols <= p.nls)
  }

  /** fx and sx were computed before the pointers moved, yet still say what matters. */
  predicate StillTells(p: Plan, fx: int, sx: int) {
    && (p.osb < p.ose ==> fx == p.Fx())
    && (p.osb < p.ose && p.ols != p.oe ==> sx == p.Sx())
  }

  lemma InsertsAvoided(p: Plan, fx: int, sx: int, o: seq<Cell>, n: seq<Cell>)
    requires p.Sound(o, n) && StillTells(p, fx, sx)
    ensures var q := WithoutInserts(p, fx, sx);
            && q.Sound(o, n) && StillTells(q, fx, sx) && NeedsNoInsert(q)
            && (q.f, q.oe, q.ne) == (p.f, p.oe, p.ne)
  {
  }

  lemma DeletesAvoided(p: Plan, fx: int, sx: int, o: seq<Cell>, n: seq<Cell>)
    requires p.Sound(o, n) && StillTells(p, fx, sx)
    ensures var q := WithoutDeletes(p, fx, sx);
            && q.Sound(o, n) && NeedsNoDelete(q) && (NeedsNoInsert(p) ==> NeedsNoInsert(q))
            && (q.f, q.oe, q.ne) == (p.f, p.oe, p.ne)
  {
  }

  lemma ShortMatchDropped(p: Plan, o: seq<Cell>, n: seq<Cell>)
    requires p.Sound(o, n)
    ensures var q := WithoutShortMatch(p);
            && q.Sound(o, n) && q.Settled() && (q.f, q.oe, q.ne) == (p.f, p.oe, p.ne)
            && (NeedsNoInsert(p) ==> NeedsNoInsert(q)) && (NeedsNoDelete(p) ==> NeedsNoDelete(q))
  {
  }

  lemma ShortTailDropped(p: Plan, o: seq<Cell>, n: seq<Cell>)
    requires p.Sound(o, n)
    ensures var q := WithoutShortTail(p); q.Sound(o, n) && (q.f, q.oe, q.ne) == (p.f, p.oe, p.ne)
  {
  }

  lemma NeedsWithin(p: Plan, canIns: bool, canDel: bool, o: seq<Cell>, n: seq<Cell>)
    requires p.Sound(o, n) && p.Settled() && (canIns || NeedsNoInsert(p)) && (canDel || NeedsNoDelete(p))
    ensures p.Within(canIns, canDel)
  {
  }

  lemma PragmaticIsWithin(p: Plan, canIns: bool, canDel: bool, o: seq<Cell>, n: seq<Cell>)
    requires p.Sound(o, n)
    ensures var q := Pragmatic(p, canIns, canDel);
            q.Sound(o, n) && q.Settled() && q.Within(canIns, canDel) && (q.f, q.oe, q.ne) == (p.f, p.oe, p.ne)
  {
    hide WithoutShortTail, WithoutInserts, WithoutDeletes, WithoutShortMatch;
    hide Plan.Sound, Plan.Within, Plan.Settled, NeedsNoInsert, NeedsNoDelete;
    var q := WithoutShortTail(p);
    ShortTailDropped(p, o, n);
    var fx, sx := q.Fx(), q.Sx();
    var r := if canIns then q else WithoutInserts(q, fx, sx);
    InsertsAvoided(q, fx, sx, o, n);
    var s := if canDel then r else WithoutDeletes(r, fx, sx);
    DeletesAvoided(r, fx, sx, o, n);
    ShortMatchDropped(s, o, n);
    NeedsWithin(WithoutShortMatch(s), canIns, canDel, o, n);
  }

  /** For all texts the plan is sound, and asks for nothing that the terminal cannot do. */
  lemma PlanIsSound(o: seq<Cell>, n: seq<Cell>, canIns: bool, canDel: bool)
    ensures var p := PlanOf(o, n, canIns, canDel);
            && p.Sound(o, n) && p.Settled() && p.Within(canIns, canDel)
            && (p.f, p.oe, p.ne) == (Common(o, n), |o|, |n|)
  {
    hide Plan.Sound;
    hide Found;
    hide Pragmatic;
    FoundIsSound(o, n);
    PragmaticIsWithin(Found(o, n), canIns, canDel, o, n);
  }

  lemma PlanOfSame(o: seq<Cell>, canIns: bool, canDel: bool)
    ensures var f := |o|; PlanOf(o, o, canIns, canDel) == Plan(f, f, f, f, f, f, f, f, f)
  {
    CommonIs(o, o, |o|);
  }

  /** Trailing blanks cut, but not below the first low cells. */
  function TrimTo(s: seq<Cell>, low: nat, keep: bool): (t: seq<Cell>)
    requires low <= |s|
    ensures low <= |t| <= |s| && t == s[..|t|]
    ensures keep ==> t == s
    ensures forall i :: |t| <= i < |s| ==> s[i] == BLANK
    ensures low < |t| && !keep ==> t[|t| - 1] != BLANK
  {
    if keep || low == |s| || s[|s| - 1] != BLANK then s else TrimTo(s[..|s| - 1], low, keep)
  }

  lemma TrimFits(s: seq<Cell>, low: nat, keep: bool)
    requires low <= |s|
    ensures forall w :: |s| <= w ==> Fit(TrimTo(s, low, keep), w) == Fit(s, w)
  {
  }

  /** Both texts as they are compared. */
  function Trimmed(o: seq<Cell>, n: seq<Cell>, keep: bool): (seq<Cell>, seq<Cell>) {
    var f := Common(o, n);
    (TrimTo(o, f, keep), TrimTo(n, f, keep))
  }

  lemma TrimmedCommon(o: seq<Cell>, n: seq<Cell>, keep: bool)
    ensures var (a, b) := Trimmed(o, n, keep); Common(a, b) == Common(o, n)
  {
    var f := Common(o, n);
    var (a, b) := Trimmed(o, n, keep);
    assert a[..f] == o[..f] && b[..f] == n[..f];
    CommonIs(a, b, f);
  }

  // ----- the searches -----

  method FindFirstDiff(old_: array<Cell>, new_: array<Cell>) returns (f: nat)
    requires Len(old_[..]) < old_.Length && Len(new_[..]) < new_.Length
    ensures f <= Len(old_[..]) && f <= Len(new_[..])
    ensures old_[..f] == new_[..f]
    ensures old_[f] == NUL || old_[f] != new_[f]
    ensures f == Common(TextOf(old_[..]), TextOf(new_[..]))
  {
    f := 0;
    while old_[f] != NUL && old_[f] == new_[f]
      invariant f <= Len(old_[..]) && f <= Len(new_[..])
      invariant old_[..f] == new_[..f]
      decreases Len(old_[..]) - f
    {
      f := f + 1;
    }
    assert TextOf(old_[..])[..f] == old_[..f] && TextOf(new_[..])[..f] == new_[..f];
    CommonIs(TextOf(old_[..]), TextOf(new_[..]), f);
  }

  method Strend(a: array<Cell>, from: nat) returns (e: nat)
    requires from <= Len(a[..]) < a.Length
    ensures e == Len(a[..])
  {
    e := from;
    while a[e] != NUL
      invariant from <= e <= Len(a[..])
      decreases Len(a[..]) - e
    {
      e := e + 1;
    }
  }

  /** Step back over trailing blanks, not past low, and end the text there. */
  method CutBlanks(a: array<Cell>, low: nat, end: nat, keep: bool) returns (e: nat)
    requires low <= end == Len(a[..]) < a.Length
    modifies a
    ensures low <= e <= end && Len(a[..]) == e && a[..e] == old(a[..e])
    ensures a[..e] == TrimTo(old(a[..end]), low, keep)
    ensures forall w :: end <= w ==> Fit(a[..e], w) == Fit(old(a[..end]), w)
  {
    hide Fit;
    e := end;
    if !keep {
      while low < e && a[e - 1] == BLANK
        invariant low <= e <= end
        invariant TrimTo(a[..e], low, keep) == TrimTo(a[..end], low, keep)
      {
        assert a[..e][..e - 1] == a[..e - 1];
        e := e - 1;
      }
    }
    TrimFits(a[..end], low, keep);
    a[e] := NUL;
    assert Len(a[..]) == e;
  }

  /** The longest common tail that does not reach back over the first difference. */
  method FindLastSame(old_: array<Cell>, new_: array<Cell>, f: nat, oe: nat, ne: nat) returns (ols: nat, nls: nat)
    requires f <= oe == Len(old_[..]) < old_.Length && f <= ne == Len(new_[..]) < new_.Length
    ensures f <= ols <= oe && f <= nls <= ne
    ensures oe - ols == ne - nls == CommonTail(old_[..oe], new_[..ne], f) && old_[ols..oe] == new_[nls..ne]
  {
    var o, n := oe, ne;
    while f < o && f < n
      invariant f <= o <= oe && f <= n <= ne && oe - o == ne - n
      invariant forall i :: o <= i < oe ==> old_[i] == new_[i - oe + ne]
    {
      o, n := o - 1, n - 1;
      if old_[o] != new_[n] {
        break;
      }
    }
    if old_[o] != new_[n] {
      o, n := o + 1, n + 1;
    }
    ols, nls := o, n;
    TailIs(old_[..], new_[..], f, ols, oe, nls, ne);
  }

  lemma TailIs(o: seq<Cell>, n: seq<Cell>, f: nat, ols: nat, oe: nat, nls: nat, ne: nat)
    requires f <= ols <= oe <= |o| && f <= nls <= ne <= |n| && oe - ols == ne - nls
    requires forall i :: ols <= i < oe ==> o[i] == n[i - oe + ne]
    requires f < ols && f < nls ==> o[ols - 1] != n[nls - 1]
    ensures CommonTail(o[..oe], n[..ne], f) == oe - ols && o[ols..oe] == n[nls..ne]
  {
    CommonTailIs(o[..oe], n[..ne], f, oe - ols);
  }

  /**
   * Case 1 and case 2 of the search for a shifted match are the same scan with
   * the roles of the rows exchanged: look in b for something that starts like a
   * at f. A match replaces the one at hand when it is longer and longer than
   * half the distance it was shifted by.
   */
  method ScanMatch(a: array<Cell>, b: array<Cell>, f: nat, als: nat, bls: nat,
                   asb: nat, ase: nat, bsb: nat, bse: nat)
    returns (asb': nat, ase': nat, bsb': nat, bse': nat)
    requires f <= als <= Len(a[..]) < a.Length && f <= bls < b.Length
    requires f <= asb <= ase <= als && f <= bsb <= bse <= bls
    ensures Span(asb', ase', bsb', bse') == Scanned(a[..als], b[..bls], f, Span(asb, ase, bsb, bse), bls)
    ensures f <= asb' <= ase' <= als && f <= bsb' <= bse' <= bls
  {
    hide MatchAt;
    ghost var s := Span(asb, ase, bsb, bse);
    asb', ase', bsb', bse' := asb, ase, bsb, bse;
    if a[f] == NUL {
      NothingToScan(a[..als], b[..bls], f, s, bls);
      return;
    }
    var n := f;
    while n < bls
      invariant f <= n <= bls
      invariant f <= asb' <= ase' <= als && f <= bsb' <= bse' <= bls
      invariant Span(asb', ase', bsb', bse') == Scanned(a[..als], b[..bls], f, s, n)
    {
      if a[f] == b[n] {
        var o, p := RunOfEquals(a, b, f, n, als, bls);
        if bse' - bsb' < p - n && 2 * (p - n) > n - f {
          bsb', bse', asb', ase' := n, p, f, o;
        }
      } else {
        NoRun(a[..als], b[..bls], f, n);
      }
      n := n + 1;
    }
  }

  /** How far a from f on and b from n on are the same. */
  method RunOfEquals(a: array<Cell>, b: array<Cell>, f: nat, n: nat, als: nat, bls: nat) returns (o: nat, p: nat)
    requires f <= als <= a.Length && n <= bls <= b.Length
    ensures f <= o <= als && n <= p <= bls && o - f == p - n
    ensures MatchAt(a[..als], b[..bls], f, n) == Span(f, o, n, p)
  {
    o, p := f, n;
    while p < bls && o < als && a[o] == b[p]
      invariant f <= o <= als && n <= p <= bls && o - f == p - n
      invariant forall i :: f <= i < o ==> a[i] == b[i - f + n]
    {
      o, p := o + 1, p + 1;
    }
    CommonIs(a[..als][f..], b[..bls][n..], o - f);
  }

  /** Pragmatics I: a common tail too short to be worth keeping. */
  method DropShortTail(p: Plan) returns (q: Plan)
    ensures q == WithoutShortTail(p)
  {
    q := p;
    if q.oe - q.ols < MIN_END_KEEP {
      q := q.NoTail();
    }
  }

  /** Pragmatics II for a terminal that cannot insert. */
  method AvoidInserts(p: Plan, fx: int, sx: int) returns (q: Plan)
    ensures q == WithoutInserts(p, fx, sx)
  {
    q := p;
    if fx > 0 {
      q := q.NoMatch();
    }
    if sx > 0 {
      q := q.NoTail();
    }
    if q.ols - q.f < q.nls - q.f {
      q := q.NoTail();
    }
  }

  /** Pragmatics II for a terminal that cannot delete. */
  method AvoidDeletes(p: Plan, fx: int, sx: int) returns (q: Plan)
    ensures q == WithoutDeletes(p, fx, sx)
  {
    q := p;
    if fx < 0 {
      q := q.NoMatch();
    }
    if sx < 0 {
      q := q.NoTail();
    }
    if q.ols - q.f > q.nls - q.f {
      q := q.NoTail();
    }
  }

  /** Pragmatics III: a match too short to be worth keeping, or left behind by Pragmatics II. */
  method DropShortMatch(p: Plan) returns (q: Plan)
    ensures q == WithoutShortMatch(p)
  {
    q := p;
    if q.ose - q.osb < MIN_END_KEEP {
      q := q.NoMatch();
    }
  }

  /**
   * Pragmatics I to III. The fx and sx that Pragmatics II tests are computed
   * once and not brought up to date while it moves the pointers.
   */
  method Pragmatics(p: Plan, canIns: bool, canDel: bool) returns (q: Plan)
    ensures q == Pragmatic(p, canIns, canDel)
  {
    q := DropShortTail(p);
    var fx, sx := q.Fx(), q.Sx();
    if !canIns {
      q := AvoidInserts(q, fx, sx);
    }
    if !canDel {
      q := AvoidDeletes(q, fx, sx);
    }
    q := DropShortMatch(q);
  }

  /** Case 1 and case 2, one after the other. */
  method ScanBoth(old_: array<Cell>, new_: array<Cell>, f: nat, ols: nat, nls: nat)
    returns (osb: nat, ose: nat, nsb: nat, nse: nat)
    requires f <= ols <= Len(old_[..]) < old_.Length && f <= nls <= Len(new_[..]) < new_.Length
    ensures Span(osb, ose, nsb, nse) == ScannedBoth(old_[..ols], new_[..nls], f)
  {
    hide Len;
    hide Scanned;
    osb, ose, nsb, nse := ScanMatch(old_, new_, f, ols, nls, ols, ols, nls, nls);
    nsb, nse, osb, ose := ScanMatch(new_, old_, f, nls, ols, nsb, nse, osb, ose);
  }

  /** The searches of update_line and what Pragmatics leaves of them. */
  method FindPlan(old_: array<Cell>, new_: array<Cell>, f: nat, oe: nat, ne: nat, canIns: bool, canDel: bool)
    returns (p: Plan)
    requires f <= oe == Len(old_[..]) < old_.Length && f <= ne == Len(new_[..]) < new_.Length
    requires f == Common(old_[..oe], new_[..ne])
    ensures p == PlanOf(old_[..oe], new_[..ne], canIns, canDel)
  {
    hide Len;
    hide ScannedBoth;
    hide CommonTail;
    hide Pragmatic;
    var ols, nls := FindLastSame(old_, new_, f, oe, ne);
    assert old_[..oe][..ols] == old_[..ols] && new_[..ne][..nls] == new_[..nls];
    var osb, ose, nsb, nse := ScanBoth(old_, new_, f, ols, nls);
    p := Pragmatics(Plan(f, osb, ose, ols, oe, nsb, nse, nls, ne), canIns, canDel);
  }
}
