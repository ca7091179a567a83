/** The hash of the command path in sh.exec.c, and the search it speeds up. */
module CommandHash {
  /** The file system as the search sees it: which directories can be read, the names they list, and the files in
      them that could be run. */
  datatype FileSystem = FileSystem(readable: set<string>, names: string -> seq<string>, runs: (string, string) -> bool)

  predicate Absolute(dir: string) {
    dir != "" && dir[0] == '/'
  }

  predicate IsDots(name: string) {
    name == "." || name == ".."
  }

  /** What can be run in a directory has an entry there; "." and ".." are directories and cannot be run. Whether the
      entries can be read is another matter. */
  ghost predicate Sound(fs: FileSystem) {
    forall dir, name :: Absolute(dir) && '/' !in name && fs.runs(dir, name) ==> name in fs.names(dir) && !IsDots(name)
  }

  /** An empty entry and "." both mean the current directory. */
  predicate Tries(fs: FileSystem, dir: string, name: string) {
    fs.runs(if dir == "." then "" else dir, name)
  }

  /** The plain search: one more than the index of the first entry, from i on, that has the command. */
  function Search(fs: FileSystem, path: seq<string>, name: string, i: nat): (r: nat)
    requires i <= |path|
    ensures r == 0 ==> forall k :: i <= k < |path| ==> !Tries(fs, path[k], name)
    ensures r > 0 ==> i < r <= |path| && Tries(fs, path[r - 1], name)
    ensures r > 0 ==> forall k :: i <= k < r - 1 ==> !Tries(fs, path[k], name)
    decreases |path| - i
  {
    if i == |path| then 0 else if Tries(fs, path[i], name) then i + 1 else Search(fs, path, name, i + 1)
  }

  /** What a search goes by: nothing, or the bits of one bucket. */
  datatype View = Everything | Bucket(bits: set<nat>, width: nat)

  /** The entry i is looked into. */
  predicate Shows(v: View, path: seq<string>, i: nat)
    requires i < |path|
  {
    !Absolute(path[i]) || v.Everything? || (v.width > 0 && BitOf(v.width, i) in v.bits)
  }

  /** The search that skips what the bucket does not show. */
  function HashedSearch(fs: FileSystem, path: seq<string>, name: string, v: View, i: nat): (r: nat)
    requires i <= |path|
    ensures r == 0 ==> forall k :: i <= k < |path| && Shows(v, path, k) ==> !Tries(fs, path[k], name)
    ensures r > 0 ==> i < r <= |path| && Shows(v, path, r - 1) && Tries(fs, path[r - 1], name)
    ensures r > 0 ==> forall k :: i <= k < r - 1 && Shows(v, path, k) ==> !Tries(fs, path[k], name)
    decreases |path| - i
  {
    if i == |path| then 0
    else if Shows(v, path, i) && Tries(fs, path[i], name) then i + 1
    else HashedSearch(fs, path, name, v, i + 1)
  }

  /** The part of the path iscommand goes through. */
  function SearchPath(path: seq<string>, name: string): (r: seq<string>)
    ensures r != []
  {
    if path == [] || '/' in name then [""] else path
  }

  const HSHMUL := 241

  /** hashname */
  function HashOf(name: string, length: nat): (h: nat)
    requires length > 0
    ensures h < length
    decreases |name|
  {
    if name == "" then 0
    else (HashOf(name[..|name| - 1], length) * HSHMUL + name[|name| - 1] as int) % length
  }

  /** The bytes of a bucket, for the width the user gave or 0, and the number of entries. */
  function WidthFor(uhashwidth: nat, n: nat): (w: nat)
    ensures uhashwidth == 0 ==> w in {1, 2, 4, 8} && (n <= 8 * w || w == 8)
    ensures uhashwidth == 0 && w > 1 ==> n > 4 * w
    ensures w > 0
  {
    if uhashwidth != 0 then uhashwidth
    else if n <= 8 then 1 else if n <= 16 then 2 else if n <= 32 then 4 else 8
  }

  /** The number of buckets, for the length the user gave or 0. */
  function LengthFor(uhashlength: nat, w: nat): (l: nat)
    requires w > 0
    ensures l > 0
  {
    if uhashlength != 0 then uhashlength else w * (8 * 64)
  }

  /** More entries than a bucket of w bytes has bits share them. */
  function BitOf(w: nat, i: nat): (b: nat)
    requires w > 0
    ensures b < 8 * w
  {
    i % (8 * w)
  }

  /** One of the names is hashed into bucket h of a table of this length. */
  ghost predicate Lists(names: seq<string>, length: nat, h: nat)
    requires length > 0
  {
    exists n :: 0 <= n < |names| && !IsDots(names[n]) && HashOf(names[n], length) == h
  }

  ghost predicate Hashes(fs: FileSystem, dir: string, length: nat, h: nat)
    requires length > 0
  {
    Absolute(dir) && dir in fs.readable && Lists(fs.names(dir), length, h)
  }

  /** The bits of bucket h that the first n entries of the path put on. */
  ghost function PathBits(fs: FileSystem, path: seq<string>, n: nat, w: nat, length: nat, h: nat): (bits: set<nat>)
    requires w > 0 && length > 0 && n <= |path|
  {
    set j | 0 <= j < n && Hashes(fs, path[j], length, h) :: BitOf(w, j)
  }

  /** A table of this length and width for the path. */
  ghost predicate IsTable(t: seq<set<nat>>, fs: FileSystem, path: seq<string>, w: nat)
    requires w > 0
  {
    t != [] && forall h :: 0 <= h < |t| ==> t[h] == PathBits(fs, path, |path|, w, |t|, h)
  }

  lemma ListsOneMore(names: seq<string>, n: nat, length: nat)
    requires n < |names| && length > 0
    ensures forall h :: Lists(names[..n + 1], length, h) <==>
                        Lists(names[..n], length, h) || (!IsDots(names[n]) && HashOf(names[n], length) == h)
  {
    assert names[..n + 1] == names[..n] + [names[n]];
    if !IsDots(names[n]) {
      var h := HashOf(names[n], length);
      assert !IsDots(names[..n + 1][n]) && HashOf(names[..n + 1][n], length) == h;
      assert Lists(names[..n + 1], length, h);
    }
    forall h | Lists(names[..n], length, h)
      ensures Lists(names[..n + 1], length, h)
    {
      var k :| 0 <= k < n && !IsDots(names[..n][k]) && HashOf(names[..n][k], length) == h;
      assert names[..n + 1][k] == names[..n][k];
    }
    forall h | Lists(names[..n + 1], length, h)
      ensures Lists(names[..n], length, h) || (!IsDots(names[n]) && HashOf(names[n], length) == h)
    {
      var k :| 0 <= k < n + 1 && !IsDots(names[..n + 1][k]) && HashOf(names[..n + 1][k], length) == h;
      assert k < n ==> names[..n + 1][k] == names[..n][k];
    }
  }

  lemma BitsOneMore(fs: FileSystem, path: seq<string>, i: nat, w: nat, length: nat)
    requires i < |path| && w > 0 && length > 0
    ensures forall h :: PathBits(fs, path, i + 1, w, length, h) ==
                        PathBits(fs, path, i, w, length, h)
                        + (if Hashes(fs, path[i], length, h) then {BitOf(w, i)} else {})
  {
    forall h
      ensures PathBits(fs, path, i + 1, w, length, h) ==
              PathBits(fs, path, i, w, length, h) + (if Hashes(fs, path[i], length, h) then {BitOf(w, i)} else {})
    {
    }
  }

  /** Bucket h of the table, or what lies at its place behind the end of the table. */
  function BucketAt(t: seq<set<nat>>, h: nat, beyond: nat -> set<nat>): (bits: set<nat>) {
    if h < |t| then t[h] else beyond(h)
  }

  /** Entry k is hashed under h, or shares its bit with one that is. */
  ghost predicate Noted(fs: FileSystem, path: seq<string>, w: nat, length: nat, h: nat, k: nat)
    requires w > 0 && length > 0 && k < |path|
  {
    exists j :: 0 <= j < |path| && BitOf(w, j) == BitOf(w, k) && Hashes(fs, path[j], length, h)
  }

  lemma NotedByItself(fs: FileSystem, path: seq<string>, w: nat, length: nat, name: string, k: nat)
    requires w > 0 && length > 0 && Sound(fs) && '/' !in name
    requires k < |path| && Tries(fs, path[k], name) && Absolute(path[k]) && path[k] in fs.readable
    ensures Noted(fs, path, w, length, HashOf(name, length), k)
  {
    var names := fs.names(path[k]);
    var n :| 0 <= n < |names| && names[n] == name;
    assert !IsDots(names[n]) && HashOf(names[n], length) == HashOf(name, length);
    assert Hashes(fs, path[k], length, HashOf(name, length));
  }

  /** With the table of the path the hashed search finds what the plain one does exactly when the entry the plain one
      finds is relative or noted. */
  lemma FreshAgrees(t: seq<set<nat>>, fs: FileSystem, path: seq<string>, w: nat, name: string)
    requires w > 0 && t != [] && IsTable(t, fs, path, w)
    ensures var h, s := HashOf(name, |t|), Search(fs, path, name, 0);
            HashedSearch(fs, path, name, Bucket(t[h], w), 0) == s <==>
              s == 0 || !Absolute(path[s - 1]) || Noted(fs, path, w, |t|, h, s - 1)
  {
    var h, s := HashOf(name, |t|), Search(fs, path, name, 0);
    hide *;
    FirstShown(fs, path, name, Bucket(t[h], w));
    if s > 0 {
      ShownIfNoted(t, fs, path, w, h, s - 1);
    }
  }

  lemma ShownIfNoted(t: seq<set<nat>>, fs: FileSystem, path: seq<string>, w: nat, h: nat, k: nat)
    requires w > 0 && IsTable(t, fs, path, w) && h < |t| && k < |path|
    ensures Shows(Bucket(t[h], w), path, k) <==> !Absolute(path[k]) || Noted(fs, path, w, |t|, h, k)
  {
    hide IsTable, BitOf, Noted;
    BitIsNoted(t, fs, path, w, h, k);
  }

  /** And it is noted when its directory can be read. */
  lemma ReadableAgrees(t: seq<set<nat>>, fs: FileSystem, path: seq<string>, w: nat, name: string)
    requires w > 0 && t != [] && IsTable(t, fs, path, w) && Sound(fs) && '/' !in name
    requires var s := Search(fs, path, name, 0);
             s > 0 && Absolute(path[s - 1]) ==> path[s - 1] in fs.readable
    ensures HashedSearch(fs, path, name, Bucket(t[HashOf(name, |t|)], w), 0) == Search(fs, path, name, 0)
  {
    hide IsTable, HashedSearch, Search, Sound, Hashes, HashOf, BitOf, Noted;
    var s := Search(fs, path, name, 0);
    FreshAgrees(t, fs, path, w, name);
    if s > 0 && Absolute(path[s - 1]) {
      NotedByItself(fs, path, w, |t|, name, s - 1);
    }
  }

  lemma BitIsNoted(t: seq<set<nat>>, fs: FileSystem, path: seq<string>, w: nat, h: nat, k: nat)
    requires w > 0 && IsTable(t, fs, path, w) && h < |t| && k < |path|
    ensures BitOf(w, k) in t[h] <==> Noted(fs, path, w, |t|, h, k)
  {
  }

  lemma FirstShown(fs: FileSystem, path: seq<string>, name: string, v: View)
    ensures var s := Search(fs, path, name, 0);
            s <= |path| &&
            (HashedSearch(fs, path, name, v, 0) == s <==> s == 0 || Shows(v, path, s - 1))
  {
  }

  /** A directory that can be searched but not read hides what it has: the plain search finds the command, the hashed
      one does not, nor does it after another dohash. */
  lemma UnreadableHides(t: seq<set<nat>>, fs: FileSystem, dir: string, w: nat, name: string)
    requires w > 0 && IsTable(t, fs, [dir], w) && Absolute(dir) && dir !in fs.readable && fs.runs(dir, name)
    ensures Search(fs, [dir], name, 0) == 1
    ensures HashedSearch(fs, [dir], name, Bucket(t[HashOf(name, |t|)], w), 0) == 0
  {
  }

  ghost predicate FoundStale(length: nat, fs: FileSystem, path: seq<string>, w: nat, name: string, h: nat, k: nat,
                             beyond: nat -> set<nat>)
    requires w > 0 && length > 0
  {
    && k < |path|
    && Tries(fs, path[k], name)
    && (!Absolute(path[k]) || if h < length then Noted(fs, path, w, length, h, k) else BitOf(w, k) in beyond(h))
  }

  /** The pass after dohash, with the hash h of an older table, misses nothing exactly when some entry with the command
      is relative, or noted under h in the new table, or has its bit on where h lies behind its end. */
  lemma StaleFinds(t: seq<set<nat>>, fs: FileSystem, path: seq<string>, w: nat, name: string, h: nat,
                   beyond: nat -> set<nat>)
    requires w > 0 && IsTable(t, fs, path, w)
    ensures var v := Bucket(BucketAt(t, h, beyond), w);
            (HashedSearch(fs, path, name, v, 0) == 0 <==> Search(fs, path, name, 0) == 0) <==>
            (Search(fs, path, name, 0) > 0 ==> exists k :: FoundStale(|t|, fs, path, w, name, h, k, beyond))
  {
    var v := Bucket(BucketAt(t, h, beyond), w);
    forall k | 0 <= k < |path|
      ensures Shows(v, path, k) && Tries(fs, path[k], name) <==> FoundStale(|t|, fs, path, w, name, h, k, beyond)
    {
      if h < |t| {
        BitIsNoted(t, fs, path, w, h, k);
      }
    }
    var r := HashedSearch(fs, path, name, v, 0);
    if r > 0 {
      assert FoundStale(|t|, fs, path, w, name, h, r - 1, beyond);
    }
  }

  /** And it finds just what the plain search finds exactly when this holds of the entry the plain search finds. */
  lemma StaleAgrees(t: seq<set<nat>>, fs: FileSystem, path: seq<string>, w: nat, name: string, h: nat,
                    beyond: nat -> set<nat>)
    requires w > 0 && t != [] && IsTable(t, fs, path, w)
    ensures var s := Search(fs, path, name, 0);
            HashedSearch(fs, path, name, Bucket(BucketAt(t, h, beyond), w), 0) == s <==>
              s == 0 || FoundStale(|t|, fs, path, w, name, h, s - 1, beyond)
  {
    hide IsTable, HashedSearch, Search, Hashes, BitOf, Noted;
    var s := Search(fs, path, name, 0);
    FirstShown(fs, path, name, Bucket(BucketAt(t, h, beyond), w));
    if s > 0 && h < |t| {
      BitIsNoted(t, fs, path, w, h, s - 1);
    }
  }

  /** So with a table of the old length it misses no command that has a readable entry. */
  lemma SameLengthFinds(t: seq<set<nat>>, fs: FileSystem, path: seq<string>, w: nat, name: string, h: nat, k: nat,
                        beyond: nat -> set<nat>)
    requires w > 0 && IsTable(t, fs, path, w) && Sound(fs) && '/' !in name
    requires k < |path| && Tries(fs, path[k], name) && (Absolute(path[k]) ==> path[k] in fs.readable)
    requires h == HashOf(name, |t|)
    ensures HashedSearch(fs, path, name, Bucket(BucketAt(t, h, beyond), w), 0) > 0
  {
    if Absolute(path[k]) {
      NotedByItself(fs, path, w, |t|, name, k);
    }
    StaleFinds(t, fs, path, w, name, h, beyond);
    assert FoundStale(|t|, fs, path, w, name, h, k, beyond);
  }

  /** Where the new hash differs from the old one, the only command of the path is missed. */
  lemma StaleMisses(t: seq<set<nat>>, fs: FileSystem, dir: string, w: nat, name: string, h: nat,
                    beyond: nat -> set<nat>)
    requires w > 0 && IsTable(t, fs, [dir], w) && Absolute(dir) && fs.runs(dir, name) && fs.names(dir) == [name]
    requires if h < |t| then h != HashOf(name, |t|) else beyond(h) == {}
    ensures Search(fs, [dir], name, 0) == 1
    ensures HashedSearch(fs, [dir], name, Bucket(BucketAt(t, h, beyond), w), 0) == 0
  {
  }

  /** The lengths dohash chooses divide each other, and then the hashes are the same up to the smaller length. */
  lemma {:induction false} HashShrinks(name: string, length: nat, m: nat)
    requires length > 0 && m > 0
    ensures length * m > 0 && HashOf(name, length * m) % length == HashOf(name, length)
    ensures HashOf(name, length * m) == HashOf(name, length) <==> HashOf(name, length * m) < length
    decreases |name|
  {
    if name != "" {
      var front := name[..|name| - 1];
      HashShrinks(front, length, m);
      ModStep(HashOf(front, length * m), name[|name| - 1] as int, length, m);
    }
    Below(HashOf(name, length * m), length);
  }

  lemma Below(x: nat, n: nat)
    requires n > 0
    ensures x % n == x <==> x < n
  {
  }

  lemma ModStep(x: nat, c: nat, length: nat, m: nat)
    requires length > 0 && m > 0
    ensures length * m > 0
    ensures ((x * HSHMUL + c) % (length * m)) % length == ((x % length) * HSHMUL + c) % length
  {
    ModOfMod(x * HSHMUL + c, length, m);
    var y := x % length;
    assert x == x / length * length + y;
    assert x * HSHMUL + c == (y * HSHMUL + c) + length * (x / length * HSHMUL);
    ModPlus(y * HSHMUL + c, length, x / length * HSHMUL);
  }

  lemma ModPlus(a: int, n: int, q: int)
    requires n > 0
    ensures (a + n * q) % n == a % n
  {
    var b := a + n * q;
    var d := b / n - a / n - q;
    assert n * d == a % n - b % n;
    Multiple(n, d);
  }

  lemma Multiple(n: int, d: int)
    requires n > 0
    ensures d >= 1 ==> n * d >= n
    ensures d <= -1 ==> n * d <= -n
  {
  }

  lemma ModOfMod(a: nat, n: nat, m: nat)
    requires n > 0 && m > 0
    ensures n * m > 0 && (a % (n * m)) % n == a % n
  {
    assert n * m > 0;
    var q, r := a / (n * m), a % (n * m);
    assert a == r + n * (m * q);
    ModPlus(r, n, m * q);
  }

  class Hash {
    /** The buckets, each the set of the bits that are on in it. */
    var xhash: array<set<nat>>
    var hashwidth: nat
    var havhash: bool
    /** The sizes the user asked for, or 0. */
    var uhashlength: nat
    var uhashwidth: nat

    constructor ()
      ensures Valid() && !havhash && uhashlength == uhashwidth == 0
    {
      xhash := new set<nat>[0];
      hashwidth, havhash, uhashlength, uhashwidth := 1, false, 0, 0;
    }

    ghost predicate Valid()
      reads this
    {
      hashwidth > 0 && (havhash ==> xhash.Length > 0)
    }

    /** The table is the one of this path. */
    ghost predicate Fresh(fs: FileSystem, path: seq<string>)
      requires Valid()
      reads this, xhash
    {
      && IsTable(xhash[..], fs, path, hashwidth)
      && hashwidth == WidthFor(uhashwidth, |path|)
      && xhash.Length == LengthFor(uhashlength, hashwidth)
    }

    /** hashname, with its loop */
    method HashName(name: string) returns (h: nat)
      requires xhash.Length > 0
      ensures h == HashOf(name, xhash.Length)
    {
      h := 0;
      for k := 0 to |name|
        invariant h == HashOf(name[..k], xhash.Length)
      {
        assert name[..k + 1][..k] == name[..k];
        h := (h * HSHMUL + name[k] as int) % xhash.Length;
      }
      assert name[..|name|] == name;
    }

    /** What the search of a name goes by, for a hash value that may be of another table. */
    ghost function ViewAt(hashval: nat, slash: bool, beyond: nat -> set<nat>): (v: View)
      reads this, xhash
    {
      if slash || !havhash then Everything else Bucket(BucketAt(xhash[..], hashval, beyond), hashwidth)
    }

    /** One pass of iscommand over the path. */
    method Scan(fs: FileSystem, opv: seq<string>, name: string, slash: bool, hashval: nat, beyond: nat -> set<nat>)
      returns (r: nat)
      requires Valid()
      ensures r == HashedSearch(fs, opv, name, ViewAt(hashval, slash, beyond), 0)
    {
      ghost var v := ViewAt(hashval, slash, beyond);
      var i := 0;
      while i < |opv|
        invariant i <= |opv|
        invariant HashedSearch(fs, opv, name, v, 0) == HashedSearch(fs, opv, name, v, i)
      {
        var skip := false;
        if !slash && Absolute(opv[i]) && havhash {
          skip := BitOf(hashwidth, i) !in BucketAt(xhash[..], hashval, beyond);
        }
        if !skip && Tries(fs, opv[i], name) {
          return i + 1;
        }
        i := i + 1;
      }
      r := 0;
    }

    /** bis: a bit goes on, and the others stay as they are. */
    method Bis(h: nat, i: nat)
      requires Valid() && h < xhash.Length
      modifies xhash
      ensures xhash[h] == old(xhash[h]) + {BitOf(hashwidth, i)}
      ensures forall k :: 0 <= k < xhash.Length && k != h ==> xhash[k] == old(xhash[k])
    {
      xhash[h] := xhash[h] + {BitOf(hashwidth, i)};
    }

    /** The names of one directory. */
    method HashDir(names: seq<string>, i: nat)
      requires Valid() && xhash.Length > 0
      modifies xhash
      ensures forall k :: 0 <= k < xhash.Length ==>
                xhash[k] == old(xhash[k]) + (if Lists(names, xhash.Length, k) then {BitOf(hashwidth, i)} else {})
    {
      for n := 0 to |names|
        invariant forall k :: 0 <= k < xhash.Length ==>
          xhash[k] == old(xhash[k]) + (if Lists(names[..n], xhash.Length, k) then {BitOf(hashwidth, i)} else {})
      {
        ListsOneMore(names, n, xhash.Length);
        if !IsDots(names[n]) {
          var hashval := HashName(names[n]);
          Bis(hashval, i);
        }
      }
      assert names[..|names|] == names;
    }

    /** dohash, for the words that follow rehash. */
    method DoHash(fs: FileSystem, path: seq<string>, vv: seq<nat>)
      requires Valid()
      modifies this
      ensures Valid() && havhash && Fresh(fs, path)
      ensures uhashlength == if |vv| > 0 then vv[0] else old(uhashlength)
      ensures uhashwidth == if |vv| <= 1 then old(uhashwidth) else if vv[1] in {1, 2, 8} then vv[1] else 0
    {
      if |vv| > 0 {
        uhashlength := vv[0];
        if |vv| > 1 {
          uhashwidth := if vv[1] in {1, 2, 8} then vv[1] else 0;
        }
      }
      hashwidth := WidthFor(uhashwidth, |path|);
      var hashlength := LengthFor(uhashlength, hashwidth);
      xhash := new set<nat>[hashlength](_ => {});
      havhash := true;
      HashPath(fs, path);
    }

    /** The loop of dohash over the entries of the path. */
    method HashPath(fs: FileSystem, path: seq<string>)
      requires Valid() && xhash.Length > 0 && forall h :: 0 <= h < xhash.Length ==> xhash[h] == {}
      modifies xhash
      ensures IsTable(xhash[..], fs, path, hashwidth)
    {
      var i := 0;
      while i < |path|
        invariant i <= |path|
        invariant forall h :: 0 <= h < xhash.Length ==> xhash[h] == PathBits(fs, path, i, hashwidth, xhash.Length, h)
      {
        if Absolute(path[i]) && path[i] in fs.readable {
          HashDir(fs.names(path[i]), i);
        }
        BitsOneMore(fs, path, i, hashwidth, xhash.Length);
        i := i + 1;
      }
    }

    /** iscommand. The hash of the name is taken once, so a pass after dohash may use the hash of an older table; the
        result is that of the one pass or the two. */
    method IsCommand(fs: FileSystem, path: seq<string>, name: string, autorehash: bool, beyond: nat -> set<nat>)
      returns (r: nat)
      requires Valid()
      modifies this
      ensures Valid() && havhash == old(havhash)
      ensures uhashlength == old(uhashlength) && uhashwidth == old(uhashwidth)
      ensures var opv, slash := SearchPath(path, name), '/' in name;
              var hashval := if old(havhash) then HashOf(name, old(xhash.Length)) else 0;
              var first := HashedSearch(fs, opv, name, old(ViewAt(hashval, slash, beyond)), 0);
              if first > 0 || !autorehash || !havhash || path == [] || slash then
                r == first && (old(Fresh(fs, path)) ==> Fresh(fs, path))
              else
                Fresh(fs, path) && r == HashedSearch(fs, path, name, ViewAt(hashval, slash, beyond), 0)
      ensures '/' in name || path == [] ==> r == if fs.runs("", name) then 1 else 0
      ensures '/' !in name && path != [] ==> r <= |path| && Truly(fs, path, name, r)
    {
      var slash := '/' in name;
      var opv := SearchPath(path, name);
      AloneIn(fs, name);
      PassFinds(fs, opv, name);
      var hashval := 0;
      if havhash {
        hashval := HashName(name);
      }
      r := Scan(fs, opv, name, slash, hashval, beyond);
      if r == 0 && autorehash && havhash && path != [] && !slash {
        DoHash(fs, path, []);
        r := Scan(fs, opv, name, slash, hashval, beyond);
      }
    }
  }

  lemma AloneIn(fs: FileSystem, name: string)
    ensures forall v :: HashedSearch(fs, [""], name, v, 0) == if fs.runs("", name) then 1 else 0
  {
    forall v
      ensures HashedSearch(fs, [""], name, v, 0) == if fs.runs("", name) then 1 else 0
    {
      assert HashedSearch(fs, [""], name, v, 1) == 0;
    }
  }

  /** What is found is there, and no entry for the current directory, nor another relative one, is passed over. */
  ghost predicate Truly(fs: FileSystem, path: seq<string>, name: string, r: nat) {
    && (0 < r <= |path| ==> fs.runs(if path[r - 1] in {"", "."} then "" else path[r - 1], name))
    && (forall k :: 0 <= k < |path| && path[k] in {"", "."} && fs.runs("", name) ==> 0 < r <= k + 1)
    && (forall k :: 0 <= k < |path| && path[k] != "." && path[k] != "" && path[k][0] != '/' && fs.runs(path[k], name)
                    ==> 0 < r <= k + 1)
  }

  lemma PassFinds(fs: FileSystem, path: seq<string>, name: string)
    ensures forall v :: HashedSearch(fs, path, name, v, 0) <= |path|
                        && Truly(fs, path, name, HashedSearch(fs, path, name, v, 0))
  {
    forall v
      ensures HashedSearch(fs, path, name, v, 0) <= |path|
              && Truly(fs, path, name, HashedSearch(fs, path, name, v, 0))
    {
      var r := HashedSearch(fs, path, name, v, 0);
      assert forall k :: 0 <= k < |path| && !Absolute(path[k]) ==> Shows(v, path, k);
    }
  }

  lemma PlainFinds(fs: FileSystem, path: seq<string>, name: string)
    ensures var r := Search(fs, path, name, 0);
            && r <= |path| && Truly(fs, path, name, r)
            && (forall k :: 0 <= k < (if r == 0 then |path| else r - 1) && path[k] != "." ==> !fs.runs(path[k], name))
  {
  }

  lemma AnyView(fs: FileSystem, path: seq<string>, name: string)
    ensures var s := Search(fs, path, name, 0);
            forall v :: HashedSearch(fs, path, name, v, 0) == s <==> s == 0 || Shows(v, path, s - 1)
  {
    forall v
      ensures var s := Search(fs, path, name, 0);
              HashedSearch(fs, path, name, v, 0) == s <==> s == 0 || Shows(v, path, s - 1)
    {
      FirstShown(fs, path, name, v);
    }
  }

  /** dohash and then iscommand: the result of the plain search, whenever the directory of the command can be read. */
  method RehashAndFind(hash: Hash, fs: FileSystem, path: seq<string>, name: string, autorehash: bool,
                       beyond: nat -> set<nat>) returns (r: nat)
    requires hash.Valid() && Sound(fs)
    modifies hash
    ensures var opv := SearchPath(path, name);
            var s := Search(fs, opv, name, 0);
            (s > 0 && Absolute(opv[s - 1]) ==> opv[s - 1] in fs.readable) ==> r == s
    ensures '/' in name || path == [] ==> r == if fs.runs("", name) then 1 else 0
    ensures '/' !in name && path != [] ==> r <= |path| && Truly(fs, path, name, r)
    ensures '/' !in name && path != [] && (forall d :: d in path && d != "" && d[0] == '/' ==> d in fs.readable) ==>
              forall k :: 0 <= k < (if r == 0 then |path| else r - 1) && path[k] != "." ==> !fs.runs(path[k], name)
  {
    hide Search, HashedSearch, IsTable, Sound, HashOf, Truly;
    PlainFinds(fs, path, name);
    hash.DoHash(fs, path, []);
    ghost var t, w := hash.xhash[..], hash.hashwidth;
    ghost var opv := SearchPath(path, name);
    ghost var s := Search(fs, opv, name, 0);
    AnyView(fs, opv, name);
    if path != [] && '/' !in name && (s > 0 && Absolute(opv[s - 1]) ==> opv[s - 1] in fs.readable) {
      ReadableAgrees(t, fs, path, w, name);
    }
    r := hash.IsCommand(fs, path, name, autorehash, beyond);
  }

  /** A run: the path of nine directories is hashed into 1024 buckets, the path becomes one entry without a dohash, as
      foreach makes it, and autorehash builds 512 buckets. The hash 543 of ls then lies behind the table; unless the
      bit happens to be on there, ls is not found though the plain search finds it. */
  method ShrunkPath(fs: FileSystem, nine: seq<string>, dir: string, beyond: nat -> set<nat>) returns (r: nat)
    requires |nine| == 9 && (forall d :: d in nine ==> fs.names(d) == []) && Absolute(dir) && fs.runs(dir, "ls")
    ensures Search(fs, [dir], "ls", 0) == 1
    ensures r == if 0 in beyond(543) then 1 else 0
  {
    var hash := new Hash();
    hash.DoHash(fs, nine, []);
    assert hash.xhash.Length == 1024;
    HashOfLs();
    NothingListed(hash.xhash[..], fs, nine, hash.hashwidth);
    r := LookUp(hash, fs, dir, beyond);
  }

  /** The call of iscommand in that run. */
  method LookUp(hash: Hash, fs: FileSystem, dir: string, beyond: nat -> set<nat>) returns (r: nat)
    requires hash.Valid() && hash.havhash && hash.uhashlength == 0 && hash.uhashwidth == 0
    requires Absolute(dir) && fs.runs(dir, "ls") && hash.xhash.Length == 1024 && hash.xhash[543] == {}
    modifies hash
    ensures Search(fs, [dir], "ls", 0) == 1
    ensures r == if 0 in beyond(543) then 1 else 0
  {
    HashOfLs();
    NothingShown(fs, dir, Bucket({}, hash.hashwidth));
    hide HashOf, HashedSearch, Search, IsTable;
    r := hash.IsCommand(fs, [dir], "ls", true, beyond);
    NothingShown(fs, dir, Bucket(beyond(543), 1));
  }

  lemma NothingShown(fs: FileSystem, dir: string, v: View)
    requires v.Bucket? && Absolute(dir) && fs.runs(dir, "ls") && v.width > 0
    ensures Search(fs, [dir], "ls", 0) == 1
    ensures HashedSearch(fs, [dir], "ls", v, 0) == if 0 in v.bits then 1 else 0
  {
  }

  lemma HashOfLs()
    ensures HashOf("ls", 1024) == 543
  {
    assert "ls"[..1] == "l" && "l"[..0] == "";
    assert HashOf("l", 1024) == 108;
  }

  lemma NothingListed(t: seq<set<nat>>, fs: FileSystem, path: seq<string>, w: nat)
    requires w > 0 && IsTable(t, fs, path, w) && forall d :: d in path ==> fs.names(d) == []
    ensures forall h :: 0 <= h < |t| ==> t[h] == {}
  {
  }
}
