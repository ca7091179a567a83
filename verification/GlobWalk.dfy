/** glob2 and glob3 of glob.c: walking a directory tree along a compiled pattern. */
module GlobWalk {
  import opened Sequences
  import opened GlobLang
  import opened GlobMatch
  import opened GlobCompile
  import opened GlobPaths
  import opened GlobSegments

  datatype Kind = Absent | Plainfile | Directory

  /** What lstat and readdir answer; the empty path lists the current directory. */
  datatype FileSystem = FileSystem(kind: string -> Kind, list: string -> seq<string>)

  predicate IsName(c: string) {
    c != "" && SEP !in c && EOS !in c
  }

  predicate IsPrefix(d: string) {
    d == "" || d[|d| - 1] == SEP
  }

  /** If d/c or anything under it exists, then d is a directory and c is one of its entries. */
  ghost predicate Joined(fs: FileSystem, d: string, c: string, t: string) {
    IsPrefix(d) && IsName(c) && (t == "" || t[0] == SEP) && fs.kind(d + c + t) != Absent ==>
      (d == "" || fs.kind(d) == Directory) && c in fs.list(d)
  }

  ghost predicate IsTree(fs: FileSystem) {
    && (forall d, i :: 0 <= i < |fs.list(d)| ==> IsName(fs.list(d)[i]))
    && (forall d, i, j :: 0 <= i < j < |fs.list(d)| ==> fs.list(d)[i] != fs.list(d)[j])
    && (forall d, c, t :: Joined(fs, d, c, t))
  }

  /** s is a path that continues prefix along the pattern from token k on. */
  ghost predicate Path(toks: seq<Token>, k: nat, prefix: string, s: string, mode: Mode) {
    k <= |toks| && |prefix| <= |s| && s[..|prefix|] == prefix && Fits(toks, k, s[|prefix|..], mode)
  }

  lemma LitStep(toks: seq<Token>, k: nat, prefix: string, s: string, mode: Mode)
    requires k < |toks| && toks[k].Lit? && AllLit(toks[k..SegEnd(toks, k)])
    ensures Path(toks, k, prefix, s, mode) <==> Path(toks, k + 1, prefix + [toks[k].c], s, mode)
  {
    if |prefix| < |s| {
      assert s[|prefix|..][1..] == s[|prefix + [toks[k].c]|..];
      assert s[..|prefix| + 1] == s[..|prefix|] + [s[|prefix|]];
    }
  }

  lemma PathEnd(toks: seq<Token>, prefix: string, s: string, mode: Mode)
    ensures Path(toks, |toks|, prefix, s, mode) <==> s == prefix
  {
    if |s| == |prefix| {
      assert s[..|prefix|] == s;
    }
  }

  /** The component of s behind prefix. */
  function CompAt(prefix: string, s: string): string
    requires |prefix| <= |s|
  {
    s[|prefix|..][..CompLen(s[|prefix|..])]
  }

  lemma {:induction false} CompLenOf(name: string, t: string)
    requires SEP !in name && (t == "" || t[0] == SEP)
    ensures CompLen(name + t) == |name|
  {
    if name == "" {
      assert name + t == t;
    } else {
      assert (name + t)[1..] == name[1..] + t && (name + t)[0] == name[0] && name[0] in name;
      CompLenOf(name[1..], t);
    }
  }

  /** What follows a segment is nothing or a slash. */
  lemma FitsTail(toks: seq<Token>, k: nat, t: string, mode: Mode)
    requires k <= |toks| && (k < |toks| ==> toks[k] == SLASH) && Fits(toks, k, t, mode)
    ensures t == "" || t[0] == SEP
  {
    if k < |toks| {
      assert SegEnd(toks, k) == k;
    }
  }

  /** s continues prefix by name, and then by a slash or not at all. */
  lemma Continues(prefix: string, name: string, s: string, t: string)
    requires s == prefix + name + t && SEP !in name && (t == "" || t[0] == SEP)
    ensures s[|prefix|..] == name + t && CompLen(s[|prefix|..]) == |name| && CompAt(prefix, s) == name
    ensures s[|prefix|..][|name|..] == t == s[|prefix + name|..] && s[..|prefix|] == prefix
  {
    assert s[|prefix|..] == name + t;
    CompLenOf(name, t);
  }

  lemma MetaBack(toks: seq<Token>, k: nat, e: nat, prefix: string, name: string, s: string, mode: Mode)
    requires k < |toks| && e == SegEnd(toks, k) && !AllLit(toks[k..e]) && IsName(name)
    requires Passes(toks[k..e], name, mode) && Path(toks, e, prefix + name, s, mode)
    ensures |prefix| <= |s| && CompAt(prefix, s) == name && Path(toks, k, prefix, s, mode)
  {
    hide Matches;
    var t := s[|prefix + name|..];
    FitsTail(toks, e, t, mode);
    assert s == prefix + name + t;
    Continues(prefix, name, s, t);
    assert s[|prefix|..][..|name|] == name;
  }

  lemma MetaForth(toks: seq<Token>, k: nat, e: nat, prefix: string, name: string, s: string, mode: Mode)
    requires k < |toks| && e == SegEnd(toks, k) && !AllLit(toks[k..e]) && IsName(name)
    requires |prefix| <= |s| && CompAt(prefix, s) == name && Path(toks, k, prefix, s, mode)
    ensures Passes(toks[k..e], name, mode) && Path(toks, e, prefix + name, s, mode)
  {
    hide Matches;
    assert s[|prefix|..][|name|..] == s[|prefix + name|..];
    assert s[..|prefix + name|] == prefix + name;
  }

  /** The paths behind one name that matches the segment. */
  lemma MetaStep(toks: seq<Token>, k: nat, e: nat, prefix: string, name: string, s: string, mode: Mode)
    requires k < |toks| && e == SegEnd(toks, k) && !AllLit(toks[k..e]) && IsName(name)
    ensures |prefix| <= |s| && CompAt(prefix, s) == name && Path(toks, k, prefix, s, mode) <==>
              Passes(toks[k..e], name, mode) && Path(toks, e, prefix + name, s, mode)
  {
    hide Path;
    hide Matches;
    if Passes(toks[k..e], name, mode) && Path(toks, e, prefix + name, s, mode) {
      MetaBack(toks, k, e, prefix, name, s, mode);
    }
    if |prefix| <= |s| && CompAt(prefix, s) == name && Path(toks, k, prefix, s, mode) {
      MetaForth(toks, k, e, prefix, name, s, mode);
    }
  }

  /** In a tree, a path that exists goes through an entry of the directory. */
  lemma ThroughEntry(fs: FileSystem, toks: seq<Token>, k: nat, e: nat, prefix: string, s: string, mode: Mode)
    requires IsTree(fs) && IsPrefix(prefix) && EOS !in s
    requires k < |toks| && e == SegEnd(toks, k) && !AllLit(toks[k..e])
    requires Path(toks, k, prefix, s, mode) && fs.kind(s) != Absent
    ensures (prefix == "" || fs.kind(prefix) == Directory) && CompAt(prefix, s) in fs.list(prefix)
  {
    var rest := s[|prefix|..];
    var n := CompLen(rest);
    assert s == prefix + rest[..n] + rest[n..];
    assert Joined(fs, prefix, rest[..n], rest[n..]);
  }

  // ----- the walk -----

  /** found lists, once each, the existing paths that continue prefix along the pattern. */
  ghost predicate Lists(fs: FileSystem, toks: seq<Token>, k: nat, prefix: string, mode: Mode, found: seq<string>) {
    && NoDup(found)
    && (forall s :: s in found <==> EOS !in s && Path(toks, k, prefix, s, mode) && fs.kind(s) != Absent)
  }

  /** The same for those paths whose next component is one of names. */
  ghost predicate ListsUnder(fs: FileSystem, toks: seq<Token>, k: nat, prefix: string, mode: Mode,
                             names: seq<string>, found: seq<string>) {
    && NoDup(found)
    && (forall s :: s in found <==> EOS !in s && Path(toks, k, prefix, s, mode) && fs.kind(s) != Absent
                                    && CompAt(prefix, s) in names)
  }

  lemma {:induction false} LitSegment(toks: seq<Token>, k: nat, e: nat, prefix: string, lit: string, s: string,
                                      mode: Mode)
    requires k <= |toks| && e == SegEnd(toks, k) && AllLit(toks[k..e]) && |lit| == e - k
    requires forall i :: 0 <= i < |lit| ==> lit[i] == toks[k + i].c
    ensures Path(toks, k, prefix, s, mode) <==> Path(toks, e, prefix + lit, s, mode)
    decreases e - k
  {
    if k == e {
      assert prefix + lit == prefix;
    } else {
      assert toks[k..e][0].Lit?;
      LitStep(toks, k, prefix, s, mode);
      assert toks[k + 1..e] == toks[k..e][1..];
      LitSegment(toks, k + 1, e, prefix + [toks[k].c], lit[1..], s, mode);
      assert prefix + [toks[k].c] + lit[1..] == prefix + lit;
    }
  }

  lemma ListsAll(fs: FileSystem, toks: seq<Token>, k: nat, e: nat, prefix: string, mode: Mode, found: seq<string>)
    requires IsTree(fs) && IsPrefix(prefix)
    requires k < |toks| && e == SegEnd(toks, k) && !AllLit(toks[k..e])
    requires prefix == "" || fs.kind(prefix) == Directory ==>
               ListsUnder(fs, toks, k, prefix, mode, fs.list(prefix), found)
    requires !(prefix == "" || fs.kind(prefix) == Directory) ==> found == []
    ensures Lists(fs, toks, k, prefix, mode, found)
  {
    forall s | EOS !in s && Path(toks, k, prefix, s, mode) && fs.kind(s) != Absent ensures s in found {
      ThroughEntry(fs, toks, k, e, prefix, s, mode);
    }
  }

  /** One more name: f lists what is under it, if it matches, and nothing otherwise. */
  lemma ListsMore(fs: FileSystem, toks: seq<Token>, k: nat, e: nat, prefix: string, mode: Mode,
                  names: seq<string>, name: string, found: seq<string>, f: seq<string>)
    requires k < |toks| && e == SegEnd(toks, k) && !AllLit(toks[k..e]) && IsName(name) && name !in names
    requires ListsUnder(fs, toks, k, prefix, mode, names, found)
    requires if Passes(toks[k..e], name, mode)
             then Lists(fs, toks, e, prefix + name, mode, f) else f == []
    ensures ListsUnder(fs, toks, k, prefix, mode, names + [name], found + f)
  {
    hide Path;
    PathLonger();
    forall s ensures s in f <==> EOS !in s && Path(toks, k, prefix, s, mode) && fs.kind(s) != Absent
                                 && |prefix| <= |s| && CompAt(prefix, s) == name {
      MetaStep(toks, k, e, prefix, name, s, mode);
    }
    assert forall s :: s in found && s in f ==> CompAt(prefix, s) in names && CompAt(prefix, s) == name;
    NoDupConcat(found, f);
  }

  lemma NoDupConcat(a: seq<string>, b: seq<string>)
    requires NoDup(a) && NoDup(b) && forall s :: s in a ==> s !in b
    ensures NoDup(a + b)
  {
    forall i, j | 0 <= i < j < |a + b| ensures (a + b)[i] != (a + b)[j] {
      if i < |a| <= j {
        assert a[i] in a && b[j - |a|] in b;
      }
    }
  }

  lemma PathLonger()
    ensures forall toks, k: nat, prefix, s, mode :: Path(toks, k, prefix, s, mode) ==> |prefix| <= |s|
  {
  }

  /** The characters of a stretch of compiled pattern, as glob2 copies them. */
  function Chars(q: seq<PatChar>): (s: string)
    ensures |s| == |q| && forall i :: 0 <= i < |q| ==> s[i] == q[i].c
  {
    seq(|q|, i requires 0 <= i < |q| => q[i].c)
  }

  /** At least n slashes in each path. */
  ghost predicate Many(found: seq<string>, n: nat) {
    forall s :: s in found ==> Count(s) >= n
  }

  /** The state of the glob: the path under construction and the paths found. */
  class Walker {
    const fs: FileSystem
    const alt: bool   // GLOB_ALTNOT
    const mode: Mode  // GLOB_DOT and no_match
    var pathbuf: string
    var paths: seq<string>   // gl_pathv

    constructor (fs: FileSystem, alt: bool, mode: Mode)
      ensures this.fs == fs && this.alt == alt && this.mode == mode && pathbuf == "" && paths == []
    {
      this.fs, this.alt, this.mode, pathbuf, paths := fs, alt, mode, "", [];
    }

    /** The segment at pos, copied to pathbuf on the way to its end. */
    method CopySegment(pat: seq<PatChar>, pos: nat, patend: nat, ghost toks: seq<Token>, ghost k: nat)
      returns (p: nat, anymeta: bool)
      requires Whole(pat, patend) && pos <= patend && k <= |toks|
      requires Clean(toks) ==> PatAt(pat, pos, patend, toks, k, alt)
      modifies this`pathbuf
      ensures pos <= p <= patend && pathbuf == old(pathbuf) + Chars(pat[pos..p])
      ensures StopsAt(pat[p]) && (forall x :: pos <= x < p ==> !StopsAt(pat[x])) && (anymeta ==> pos < p)
      ensures Clean(toks) ==>
                && pat[pos..p] == Encode(toks[k..SegEnd(toks, k)], alt)
                && PatAt(pat, p, patend, toks, SegEnd(toks, k), alt)
                && (pat[p] == Plain(EOS) <==> SegEnd(toks, k) == |toks|)
                && (anymeta <==> !AllLit(toks[k..SegEnd(toks, k)]))
    {
      hide Encode;
      hide PatAt;
      hide AllLit;
      ghost var stop := pos + |Encode(toks[k..SegEnd(toks, k)], alt)|;
      if Clean(toks) {
        SegmentSpan(pat, pos, patend, toks, k, alt);
      }
      p, anymeta := pos, false;
      while !StopsAt(pat[p])
        invariant pos <= p <= patend && pathbuf == old(pathbuf) + Chars(pat[pos..p])
        invariant forall x :: pos <= x < p ==> !StopsAt(pat[x])
        invariant Clean(toks) ==> p <= stop
        invariant anymeta <==> HasMeta(pat[pos..p])
        decreases patend - p
      {
        MetaConcat(pat[pos..p], [pat[p]]);
        assert pat[pos..p + 1] == pat[pos..p] + [pat[p]];
        assert HasMeta([pat[p]]) <==> pat[p].meta by { assert [pat[p]][0] == pat[p]; }
        if pat[p].meta {
          anymeta := true;
        }
        pathbuf := pathbuf + [pat[p].c];
        p := p + 1;
      }
    }

    /** The slashes at pos. */
    method CopySlashes(pat: seq<PatChar>, pos: nat, patend: nat, ghost toks: seq<Token>, ghost k: nat)
      returns (next: nat, ghost k': nat)
      requires Whole(pat, patend) && pos <= patend && k <= |toks|
      requires Clean(toks) ==> PatAt(pat, pos, patend, toks, k, alt)
      modifies this`pathbuf
      ensures pos <= next <= patend && k <= k' <= |toks| && old(pathbuf) <= pathbuf
      ensures pat[pos] == Plain(SEP) ==> pos < next
      ensures Count(pathbuf) + Seps(pat[next..patend]) == Count(old(pathbuf)) + Seps(pat[pos..patend])
      ensures Clean(toks) ==> SlashesCopied(pat, next, patend, toks, k, k', old(pathbuf), pathbuf)
      ensures pos < next ==> IsPrefix(pathbuf)
      ensures next == pos ==> pathbuf == old(pathbuf) && k' == k
      ensures EOS !in old(pathbuf) ==> EOS !in pathbuf
    {
      hide Path;
      hide Encode;
      hide PatAt;
      next, k' := pos, k;
      while pat[next] == Plain(SEP)
        invariant pos <= next <= patend && k <= k' <= |toks| && old(pathbuf) <= pathbuf
        invariant Count(pathbuf) + Seps(pat[next..patend]) == Count(old(pathbuf)) + Seps(pat[pos..patend])
        invariant Clean(toks) ==> SlashesCopied(pat, next, patend, toks, k, k', old(pathbuf), pathbuf)
        invariant pos < next ==> IsPrefix(pathbuf)
        invariant next == pos ==> pathbuf == old(pathbuf) && k' == k
        invariant EOS !in old(pathbuf) ==> EOS !in pathbuf
        decreases patend - next
      {
        if Clean(toks) {
          OneSlash(pat, next, patend, toks, k, k', old(pathbuf), pathbuf);
          k' := k' + 1;
        }
        SepsAt(pat, next, patend);
        CountConcat(pathbuf, [SEP]);
        pathbuf := pathbuf + [SEP];
        next := next + 1;
      }
    }

    /** The pattern from next on is that of the tokens from k' on, and going on from there is going on from k. */
    ghost predicate SlashesCopied(pat: seq<PatChar>, next: nat, patend: nat, toks: seq<Token>, k: nat, k': nat,
                                  before: string, now: string)
    {
      && PatAt(pat, next, patend, toks, k', alt)
      && forall s :: Path(toks, k, before, s, mode) <==> Path(toks, k', now, s, mode)
    }

    lemma OneSlash(pat: seq<PatChar>, next: nat, patend: nat, toks: seq<Token>, k: nat, k': nat,
                   before: string, now: string)
      requires Whole(pat, patend) && next <= patend && pat[next] == Plain(SEP) && Clean(toks)
      requires SlashesCopied(pat, next, patend, toks, k, k', before, now)
      ensures k' < |toks| && SlashesCopied(pat, next + 1, patend, toks, k, k' + 1, before, now + [SEP])
    {
      hide Path;
      hide Encode;
      hide PatAt;
      AtToken(pat, next, patend, toks, k', alt);
      assert toks[k'] == SLASH && SegEnd(toks, k') == k';
      forall s ensures Path(toks, k', now, s, mode) <==> Path(toks, k' + 1, now + [SEP], s, mode) {
        LitStep(toks, k', now, s, mode);
      }
    }

    /** Where glob2 is in its loop, if no set mentions a slash: at token kk. */
    ghost predicate Along(pat: seq<PatChar>, pos: nat, patend: nat, toks: seq<Token>, k: nat, kk: nat, before: string,
                          now: string)
    {
      && EOS !in now && kk <= |toks| && (IsPrefix(now) || kk == |toks| || toks[kk] == SLASH)
      && SlashesCopied(pat, pos, patend, toks, k, kk, before, now)
    }

    /**
     * glob2: from the pattern at start on, add to paths the existing paths that
     * continue pathbuf. A segment without metacharacters is copied; at the first
     * one with metacharacters glob3 takes over. Every slash that is seen on the
     * way is in the paths.
     */
    method Glob2(pat: seq<PatChar>, start: nat, patend: nat, ghost toks: seq<Token>, ghost k: nat)
      returns (ghost found: seq<string>)
      requires Whole(pat, patend) && start <= patend && k <= |toks| && IsTree(fs)
      requires Clean(toks) ==>
                 && PatAt(pat, start, patend, toks, k, alt)
                 && EOS !in pathbuf && (IsPrefix(pathbuf) || k == |toks| || toks[k] == SLASH)
      modifies this
      ensures paths == old(paths) + found && old(pathbuf) <= pathbuf
      ensures Clean(toks) ==> Lists(fs, toks, k, old(pathbuf), mode, found)
      ensures Many(found, Count(old(pathbuf)) + Seps(pat[start..patend]))
      decreases patend - start, 2
    {
      hide Path;
      hide Encode;
      hide PatAt;
      hide Seps;
      hide Count;
      hide IsTree;
      var pos, kk: nat := start, k;
      ghost var n := Count(pathbuf) + Seps(pat[start..patend]);
      while true
        invariant start <= pos <= patend && k <= kk <= |toks|
        invariant paths == old(paths) && old(pathbuf) <= pathbuf
        invariant Count(pathbuf) + Seps(pat[pos..patend]) >= n
        invariant Clean(toks) ==> Along(pat, pos, patend, toks, k, kk, old(pathbuf), pathbuf)
        decreases patend - pos
      {
        if pat[pos] == Plain(EOS) {
          if Clean(toks) {
            AtToken(pat, pos, patend, toks, kk, alt);
          }
          NoSeps(pat, pos);
          found := EndOfPattern(toks, kk);
          return;
        }
        ghost var before := pathbuf;
        var origLen := |pathbuf|;
        var p, anymeta := CopySegment(pat, pos, patend, toks, kk);
        if !anymeta {
          ghost var e := SegEnd(toks, kk);
          if Clean(toks) {
            SegmentCopied(toks, kk, e, before, pat, pos, p, alt, mode);
          }
          SepsSkip(pat, pos, p, patend);
          CountConcat(before, Chars(pat[pos..p]));
          var next;
          next, kk := CopySlashes(pat, p, patend, toks, e);
          pos := next;
        } else {
          pathbuf := pathbuf[..origLen];
          assert pathbuf == before;
          found := Glob3(pat, pos, p, patend, toks, kk);
          return;
        }
      }
    }

    /** The end of the pattern in glob2: the path is kept if there is something there. */
    method EndOfPattern(ghost toks: seq<Token>, ghost k: nat) returns (ghost found: seq<string>)
      modifies this`paths
      ensures paths == old(paths) + found && Many(found, Count(pathbuf))
      ensures k == |toks| && EOS !in pathbuf ==> Lists(fs, toks, k, pathbuf, mode, found)
    {
      hide Path;
      forall s | k == |toks| ensures Path(toks, k, pathbuf, s, mode) <==> s == pathbuf {
        PathEnd(toks, pathbuf, s, mode);
      }
      if fs.kind(pathbuf) == Absent {
        found := [];
      } else {
        found := [pathbuf];
        paths := paths + [pathbuf];
      }
    }

    /** The test of glob3 on a name that starts with a period. */
    predicate Skips(first: PatChar, name: string)
      requires name != ""
    {
      name[0] == DOT && first != Plain(DOT) && (!mode.dot || |name| == 1 || (name[1] == DOT && |name| == 2))
    }

    /** The segment that glob3 is given: it has metacharacters and ends in front of restpattern. */
    ghost predicate Segment(pat: seq<PatChar>, start: nat, restpattern: nat, patend: nat, toks: seq<Token>, k: nat) {
      && Whole(pat, patend) && start < restpattern <= patend && k <= |toks|
      && StopsAt(pat[restpattern]) && (forall x :: start <= x < restpattern ==> !StopsAt(pat[x]))
      && (Clean(toks) ==>
            && k < |toks| && !AllLit(toks[k..SegEnd(toks, k)])
            && PatAt(pat, start, patend, toks, k, alt) && PatAt(pat, restpattern, patend, toks, SegEnd(toks, k), alt)
            && pat[start..restpattern] == Encode(toks[k..SegEnd(toks, k)], alt))
    }

    /**
     * glob3: the segment pat[start..restpattern] has metacharacters; try every
     * entry of the directory pathbuf.
     */
    method Glob3(pat: seq<PatChar>, start: nat, restpattern: nat, patend: nat, ghost toks: seq<Token>, ghost k: nat)
      returns (ghost found: seq<string>)
      requires IsTree(fs) && Segment(pat, start, restpattern, patend, toks, k)
      requires Clean(toks) ==> EOS !in pathbuf && IsPrefix(pathbuf)
      modifies this
      ensures paths == old(paths) + found && old(pathbuf) <= pathbuf
      ensures Clean(toks) ==> Lists(fs, toks, k, old(pathbuf), mode, found)
      ensures Many(found, Count(old(pathbuf)) + Seps(pat[start..patend]))
      decreases patend - start, 1
    {
      hide Path;
      hide Encode;
      hide Matches;
      ghost var e := SegEnd(toks, k);
      ghost var prefix := pathbuf;
      var origLen := |pathbuf|;
      found := [];
      if pathbuf != "" && fs.kind(pathbuf) != Directory {
        if Clean(toks) {
          ListsAll(fs, toks, k, e, prefix, mode, []);
        }
        return;
      }
      var entries := fs.list(pathbuf);
      var idx := 0;
      while idx < |entries|
        invariant 0 <= idx <= |entries|
        invariant prefix <= pathbuf
        invariant paths == old(paths) + found && Many(found, Count(prefix) + Seps(pat[start..patend]))
        invariant Clean(toks) ==> ListsUnder(fs, toks, k, prefix, mode, entries[..idx], found)
      {
        var name := entries[idx];
        pathbuf := pathbuf[..origLen];
        assert pathbuf == prefix;
        ghost var f := TryEntry(pat, start, restpattern, patend, name, toks, k);
        if Clean(toks) {
          ListsMore(fs, toks, k, e, prefix, mode, entries[..idx], name, found, f);
        }
        assert entries[..idx + 1] == entries[..idx] + [name];
        found := found + f;
        idx := idx + 1;
      }
      assert entries[..idx] == entries;
      if Clean(toks) {
        ListsAll(fs, toks, k, e, prefix, mode, found);
      }
    }

    /** One turn of the readdir loop of glob3. */
    method TryEntry(pat: seq<PatChar>, start: nat, restpattern: nat, patend: nat, name: string,
                    ghost toks: seq<Token>, ghost k: nat)
      returns (ghost f: seq<string>)
      requires IsTree(fs) && IsName(name) && Segment(pat, start, restpattern, patend, toks, k)
      requires Clean(toks) ==> EOS !in pathbuf
      modifies this
      ensures paths == old(paths) + f && old(pathbuf) <= pathbuf
      ensures Clean(toks) ==>
                if Passes(toks[k..SegEnd(toks, k)], name, mode)
                then Lists(fs, toks, SegEnd(toks, k), old(pathbuf) + name, mode, f) else f == []
      ensures Many(f, Count(old(pathbuf)) + Seps(pat[start..patend]))
      decreases patend - start, 0
    {
      hide Path;
      hide Matches;
      hide Lists;
      f := [];
      if Clean(toks) {
        FirstChar(pat, start, patend, toks, k, alt);
        SegmentAlone(pat, start, restpattern, toks, k, alt);
      }
      if Skips(pat[start], name) {
        return;
      }
      SepsSkip(pat, start, restpattern, patend);
      CountConcat(pathbuf, name);
      pathbuf := pathbuf + name;
      var m := Match(name, pat, start, restpattern, alt, patend, Clean(toks), toks[k..SegEnd(toks, k)]);
      if m == mode.negated {
        return;
      }
      f := Glob2(pat, restpattern, patend, toks, SegEnd(toks, k));
    }
  }

  lemma NoSeps(pat: seq<PatChar>, x: nat)
    requires x <= |pat|
    ensures Seps(pat[x..x]) == 0
  {
  }

  lemma SepsAt(pat: seq<PatChar>, x: nat, end: nat)
    requires x < end <= |pat|
    ensures Seps(pat[x..end]) == (if pat[x] == Plain(SEP) then 1 else 0) + Seps(pat[x + 1..end])
  {
    assert pat[x..end][1..] == pat[x + 1..end];
  }

  /** There is no slash before the end of a segment. */
  lemma {:induction false} SepsSkip(pat: seq<PatChar>, a: nat, b: nat, end: nat)
    requires a <= b <= end <= |pat| && forall x :: a <= x < b ==> !StopsAt(pat[x])
    ensures Seps(pat[a..end]) == Seps(pat[b..end])
    decreases b - a
  {
    if a < b {
      SepsAt(pat, a, end);
      SepsSkip(pat, a + 1, b, end);
    }
  }

  lemma FirstChar(pat: seq<PatChar>, p: nat, patend: nat, toks: seq<Token>, k: nat, alt: bool)
    requires PatAt(pat, p, patend, toks, k, alt) && Clean(toks) && k < |toks|
    ensures p < |pat| && (pat[p] == Plain(DOT) <==> toks[k] == Lit(DOT))
  {
    AtToken(pat, p, patend, toks, k, alt);
    if toks[k].Lit? {
      assert pat[p..p + 1][0] == pat[p];
    }
  }

  lemma SegmentAlone(pat: seq<PatChar>, p: nat, e: nat, toks: seq<Token>, k: nat, alt: bool)
    requires k <= |toks| && Clean(toks) && p <= e < |pat| && pat[p..e] == Encode(toks[k..SegEnd(toks, k)], alt)
    ensures PatAt(pat, p, e, toks[k..SegEnd(toks, k)], 0, alt) && Wellformed(toks[k..SegEnd(toks, k)])
  {
    var seg := toks[k..SegEnd(toks, k)];
    assert seg[0..] == seg;
  }

  lemma SegmentCopied(toks: seq<Token>, k: nat, e: nat, prefix: string,
                      pat: seq<PatChar>, pos: nat, p: nat, alt: bool, mode: Mode)
    requires k <= |toks| && e == SegEnd(toks, k) && AllLit(toks[k..e]) && Clean(toks)
    requires pos <= p <= |pat| && pat[pos..p] == Encode(toks[k..e], alt)
    ensures forall s :: Path(toks, k, prefix, s, mode) <==> Path(toks, e, prefix + Chars(pat[pos..p]), s, mode)
    ensures EOS !in Chars(pat[pos..p])
  {
    var lit := Chars(pat[pos..p]);
    LiteralChars(toks[k..e], alt);
    assert forall i :: 0 <= i < |lit| ==> lit[i] == toks[k..e][i].c && toks[k + i] != Lit(EOS);
    forall s ensures Path(toks, k, prefix, s, mode) <==> Path(toks, e, prefix + lit, s, mode) {
      LitSegment(toks, k, e, prefix, lit, s, mode);
    }
  }

  /** The paths of the compiled tokens are those of the pattern as written, and have just its slashes. */
  lemma AsWritten(src: seq<Token>, toks: seq<Token>, mode: Mode)
    requires toks == AppendAll([], src, 1)
    ensures forall s :: Path(toks, 0, "", s, mode) <==> Fits(src, 0, s, mode)
    ensures forall s :: Fits(src, 0, s, mode) ==> Count(s) == Slashes(toks)
  {
    hide Fits;
    assert [] + src == src && toks[0..] == toks;
    forall s
      ensures Path(toks, 0, "", s, mode) <==> Fits(src, 0, s, mode)
      ensures Fits(src, 0, s, mode) ==> Count(s) == Slashes(toks)
    {
      CollapseFits([], src, 1, s, mode);
      assert s[0..] == s && s[..0] == "";
      if Fits(toks, 0, s, mode) {
        FitsCount(toks, 0, s, mode);
      }
    }
  }

  lemma Collapsed(src: seq<Token>)
    requires NoEos(src)
    ensures var toks := AppendAll([], src, 1); NoEos(toks) && (SlashFree(toks) <==> SlashFree(src))
  {
    CollapseMentions([], src, 1);
  }

  /** What the walk has found, in terms of the pattern as written. */
  lemma FoundFits(fs: FileSystem, src: seq<Token>, toks: seq<Token>, alt: bool, mode: Mode, found: seq<string>)
    requires toks == AppendAll([], src, 1) && NoEos(src)
    requires Clean(toks) ==> Lists(fs, toks, 0, "", mode, found)
    requires Many(found, Count("") + Seps(Encode(toks, alt)))
    ensures SlashFree(src) ==>
              NoDup(found) && forall s :: s in found <==> EOS !in s && fs.kind(s) != Absent && Fits(src, 0, s, mode)
    ensures !SlashFree(src) ==> forall s :: s in found ==> !Fits(src, 0, s, mode)
  {
    hide Fits;
    hide Encode;
    hide Path;
    Collapsed(src);
    hide AppendAll;
    hide SlashFree;
    hide NoEos;
    AsWritten(src, toks, mode);
    SepsOfEncode(toks, alt);
  }

  /** no_match, and what GLOB_DOT says. */
  function ModeOf(pattern: string, alt: bool, dot: bool): Mode {
    Mode(dot, Negated(pattern, alt))
  }

  /**
   * glob() without GLOB_STAR, up to the order of the result. If no set mentions
   * a slash, the paths found are, once each, the existing ones whose components
   * pass the pattern as written segment by segment. Otherwise none of these is
   * found.
   */
  method Glob(fs: FileSystem, pattern: string, alt: bool, dot: bool) returns (paths: seq<string>)
    requires IsTree(fs) && EOS !in pattern
    ensures Body(pattern, alt) == "" ==> paths == []
    ensures Body(pattern, alt) != "" && SlashFree(TokensOf(pattern, alt)) ==>
              && NoDup(paths)
              && forall s :: s in paths <==>
                   EOS !in s && fs.kind(s) != Absent && Fits(TokensOf(pattern, alt), 0, s, ModeOf(pattern, alt, dot))
    ensures !SlashFree(TokensOf(pattern, alt)) ==>
              forall s :: s in paths ==> !Fits(TokensOf(pattern, alt), 0, s, ModeOf(pattern, alt, dot))
  {
    hide Fits;
    hide Matches;
    hide Encode;
    hide TokensOf;
    hide AppendAll;
    hide SlashFree;
    hide NoEos;
    hide IsTree;
    var patbuf, len, magic, noMatch; ghost var toks;
    patbuf, len, magic, noMatch, toks := CompilePattern(pattern, alt, false);
    var pat := patbuf[..len + 1];
    assert pat[..len] == patbuf[..len];
    CompiledTokens(pattern, alt);
    EmptyPattern(pattern, alt, toks, len, pat);
    if pat[0] == END {
      // glob1: a null pathname is invalid
      return [];
    }
    paths := Walk(fs, pat, len, alt, Mode(dot, noMatch), TokensOf(pattern, alt), toks);
  }

  /** glob1 on a pattern that is not empty. */
  method Walk(fs: FileSystem, pat: seq<PatChar>, len: nat, alt: bool, mode: Mode,
              ghost src: seq<Token>, ghost toks: seq<Token>) returns (paths: seq<string>)
    requires IsTree(fs) && toks == AppendAll([], src, 1) && NoEos(src)
    requires len + 1 == |pat| && pat[..len] == Encode(toks, alt) && pat[len] == Plain(EOS)
    ensures SlashFree(src) ==>
              NoDup(paths) && forall s :: s in paths <==> EOS !in s && fs.kind(s) != Absent && Fits(src, 0, s, mode)
    ensures !SlashFree(src) ==> forall s :: s in paths ==> !Fits(src, 0, s, mode)
  {
    hide Fits;
    hide Matches;
    hide Encode;
    hide Whole;
    hide AppendAll;
    hide SlashFree;
    hide NoEos;
    hide Seps;
    hide Lists;
    hide Many;
    hide IsTree;
    Collapsed(src);
    assert toks[0..] == toks && pat[0..len] == pat[..len];
    EncodeIsWhole(toks, alt, pat, len);
    var w := new Walker(fs, alt, mode);
    ghost var found := w.Glob2(pat, 0, len, toks, 0);
    paths := w.paths;
    assert [] + found == found;
    FoundFits(fs, src, toks, alt, mode, found);
  }

  lemma {:induction false} NoneCollapsed(acc: seq<Token>, src: seq<Token>)
    ensures |acc| <= |AppendAll(acc, src, 1)| && (src != [] ==> AppendAll(acc, src, 1) != [])
    decreases |src|
  {
    if src != [] {
      NoneCollapsed(Append(acc, src[0], 1), src[1..]);
    }
  }

  /** The compiled pattern is empty just if the pattern behind the negation is. */
  lemma EmptyPattern(pattern: string, alt: bool, toks: seq<Token>, len: nat, pat: seq<PatChar>)
    requires toks == AppendAll([], TokensOf(pattern, alt), 1) && NoEos(TokensOf(pattern, alt))
    requires len + 1 == |pat| && pat[..len] == Encode(toks, alt) && pat[len] == END
    ensures pat[0] == END <==> Body(pattern, alt) == ""
  {
    Collapsed(TokensOf(pattern, alt));
    EncodeIsWhole(toks, alt, pat, len);
    NoneCollapsed([], TokensOf(pattern, alt));
    assert TokensOf(pattern, alt) == [] <==> Body(pattern, alt) == "";
    hide TokensOf;
    assert pat[0] == END <==> len == 0;
  }

  lemma CompiledTokens(pattern: string, alt: bool)
    requires EOS !in pattern
    ensures NoEos(TokensOf(pattern, alt))
  {
    QuotedChars(Body(pattern, alt));
    ParseNoEos(Quoted(Body(pattern, alt)), alt);
  }

  /** "[a/b]" is one set, and "a" matches it. */
  lemma BracketSlashParses(alt: bool, dot: bool)
    ensures !Negated("[a/b]", alt)
    ensures TokensOf("[a/b]", alt) == [Set(false, [Single('a'), Single('/'), Single('b')])]
    ensures !SlashFree(TokensOf("[a/b]", alt)) && Fits(TokensOf("[a/b]", alt), 0, "a", Mode(dot, false))
  {
    QuotedBracket();
    var q := Quoted("[a/b]");
    assert q[4] == RBRACKET;
    assert ItemsFrom(q, 3) == ([Single('b')], 5);
    assert [Single('/')] + [Single('b')] == [Single('/'), Single('b')];
    assert ItemsFrom(q, 2) == ([Single('/'), Single('b')], 5);
    assert [Single('a')] + [Single('/'), Single('b')] == [Single('a'), Single('/'), Single('b')];
    assert ItemsFrom(q, 1) == ([Single('a'), Single('/'), Single('b')], 5);
    var t := Set(false, [Single('a'), Single('/'), Single('b')]);
    assert q[5..] == [];
    assert t.items[1] == Single(SEP) && t.items[0].Has('a');
    OneSetFits(t, 'a', dot);
  }

  lemma QuotedBracket()
    ensures Quoted("[a/b]") == [Plain('['), Plain('a'), Plain('/'), Plain('b'), Plain(']')]
  {
    var s := "[a/b]";
    assert s[1..] == "a/b]" && s[1..][1..] == "/b]" && s[1..][1..][1..] == "b]";
    assert "b]"[1..] == "]" && "]"[1..] == "";
  }

  lemma OneSetFits(t: Token, c: char, dot: bool)
    requires t.Set? && t.Takes(c) && c != SEP && c != DOT
    ensures Fits([t], 0, [c], Mode(dot, false))
  {
    var toks := [t];
    assert SegEnd(toks, 0) == 1 && toks[0..1] == toks;
    assert [c][1..] == [] && toks[1..] == [];
    CompLenOf([c], "");
    assert [c] + "" == [c] && [c][..1] == [c];
  }

  /** The call of glob that misses "a" where it exists. */
  method BracketSlash(fs: FileSystem, alt: bool, dot: bool) returns (paths: seq<string>)
    requires IsTree(fs) && fs.kind("a") != Absent
    ensures Fits(TokensOf("[a/b]", alt), 0, "a", Mode(dot, false)) && "a" !in paths
  {
    hide Fits, TokensOf, IsTree, SlashFree;
    BracketSlashParses(alt, dot);
    paths := Glob(fs, "[a/b]", alt, dot);
  }
}
