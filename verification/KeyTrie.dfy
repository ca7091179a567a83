/** The extended-key trie of ed.xmap.c as a value, and the map it stands for. */
module KeyTrie {
  import opened Sequences

  type Char = char

  datatype Kind = XK_CMD | XK_STR | XK_EXE | XK_NOD

  /** A command code, or a string. */
  datatype Value = Command(cmd: int) | Text(str: seq<Char>)

  const NO_VALUE := Text([])
  const F_XKEY := 1       // the sequence-lead-in command, which cannot be bound to a sequence

  datatype Binding = Binding(kind: Kind, val: Value)

  /** A node with its first child and its next sibling. */
  datatype Forest = Nil | Node(ch: Char, kind: Kind, val: Value, next: Forest, sibling: Forest)

  predicate Prefix(a: seq<Char>, b: seq<Char>) {
    a <= b
  }

  // ----- what a trie binds -----

  /** Keys are bound at the childless nodes only. */
  function Lookup(f: Forest, key: seq<Char>): Option<Binding> {
    if f == Nil || key == [] then None
    else if f.ch != key[0] then Lookup(f.sibling, key)
    else if |key| > 1 then Lookup(f.next, key[1..])
    else if f.next == Nil then Some(Binding(f.kind, f.val))
    else None
  }

  /** No node starts this character in the row of siblings. */
  predicate Lacks(f: Forest, c: Char) {
    f == Nil || (f.ch != c && Lacks(f.sibling, c))
  }

  /** Siblings are distinct, and no childless node is left unbound. */
  predicate Wellformed(f: Forest) {
    f == Nil ||
    (&& Lacks(f.sibling, f.ch)
     && (f.next == Nil ==> f.kind != XK_NOD)
     && Wellformed(f.next) && Wellformed(f.sibling))
  }

  /** Something is bound below a nonempty trie. */
  lemma {:induction false} SomethingBound(f: Forest) returns (key: seq<Char>)
    requires Wellformed(f) && f != Nil
    ensures key != [] && Lookup(f, key).Some?
  {
    if f.next == Nil {
      key := [f.ch];
    } else {
      var k := SomethingBound(f.next);
      key := [f.ch] + k;
    }
  }

  /** No bound key is a proper prefix of another. */
  lemma {:induction false} PrefixFree(f: Forest, a: seq<Char>, b: seq<Char>)
    requires Lookup(f, a).Some? && Lookup(f, b).Some? && Prefix(a, b)
    ensures a == b
    decreases f
  {
    if f.ch != a[0] {
      PrefixFree(f.sibling, a, b);
    } else if |a| > 1 {
      PrefixFree(f.next, a[1..], b[1..]);
      assert a == [a[0]] + a[1..] && b == [b[0]] + b[1..];
    }
  }

  // ----- adding a key -----

  function Fresh(c: Char): Forest {
    Node(c, XK_NOD, NO_VALUE, Nil, Nil)
  }

  /** TryNode: from the first node of a row of siblings. */
  function Add(f: Forest, key: seq<Char>, b: Binding): (r: Forest)
    requires f != Nil && key != []
    ensures r != Nil && r.ch == f.ch
    decreases |key|, 1, f
  {
    if f.ch == key[0] then Descend(f, key, b)
    else if f.sibling == Nil then f.(sibling := Descend(Fresh(key[0]), key, b))
    else f.(sibling := Add(f.sibling, key, b))
  }

  /** TryNode: once the node for the first character is found or made. */
  function Descend(f: Forest, key: seq<Char>, b: Binding): (r: Forest)
    requires f != Nil && key != [] && f.ch == key[0]
    ensures r != Nil && r.ch == f.ch && r.sibling == f.sibling && (r.next == Nil ==> r.kind == b.kind)
    decreases |key|, 0, f
  {
    if |key| == 1 then f.(next := Nil, kind := b.kind, val := b.val)
    else f.(next := Add(if f.next == Nil then Fresh(key[1]) else f.next, key[1..], b))
  }

  /** AddXkey on the whole trie. */
  function AddKey(f: Forest, key: seq<Char>, b: Binding): Forest
    requires key != []
  {
    Add(if f == Nil then Fresh(key[0]) else f, key, b)
  }

  /** What adding key does to the binding of q: q is bound, dropped, or untouched. */
  function Added(key: seq<Char>, b: Binding, q: seq<Char>, before: Option<Binding>): Option<Binding> {
    if q == key then Some(b) else if Prefix(q, key) || Prefix(key, q) then None else before
  }

  lemma {:induction false} AddBinds(f: Forest, key: seq<Char>, b: Binding, q: seq<Char>)
    requires f != Nil && key != []
    ensures Lookup(Add(f, key, b), q) == Added(key, b, q, Lookup(f, q))
    decreases |key|, 1, f
  {
    if f.ch == key[0] {
      DescendBinds(f, key, b, q);
    } else if f.sibling == Nil {
      DescendBinds(Fresh(key[0]), key, b, q);
    } else {
      AddBinds(f.sibling, key, b, q);
    }
  }

  lemma {:induction false} DescendBinds(f: Forest, key: seq<Char>, b: Binding, q: seq<Char>)
    requires f != Nil && key != [] && f.ch == key[0]
    ensures Lookup(Descend(f, key, b), q) == Added(key, b, q, Lookup(f, q))
    decreases |key|, 0, f
  {
    if q != [] && q[0] == f.ch {
      Tails(key, q);
      if |key| > 1 && |q| > 1 {
        AddBinds(if f.next == Nil then Fresh(key[1]) else f.next, key[1..], b, q[1..]);
        FreshBinds(key[1], q[1..]);
      }
    }
  }

  lemma FreshBinds(c: Char, q: seq<Char>)
    ensures Lookup(Fresh(c), q) == if q == [c] then Some(Binding(XK_NOD, NO_VALUE)) else None
  {
  }

  lemma Tails(a: seq<Char>, b: seq<Char>)
    requires a != [] && b != [] && a[0] == b[0]
    ensures (a == b <==> a[1..] == b[1..]) && (Prefix(a, b) <==> Prefix(a[1..], b[1..]))
    ensures Prefix(b, a) <==> Prefix(b[1..], a[1..])
  {
    assert a == [a[0]] + a[1..] && b == [b[0]] + b[1..];
  }

  lemma {:induction false} AddLacks(f: Forest, key: seq<Char>, b: Binding, c: Char)
    requires f != Nil && key != [] && Lacks(f, c) && c != key[0]
    ensures Lacks(Add(f, key, b), c)
    decreases f
  {
    if f.ch != key[0] && f.sibling != Nil {
      AddLacks(f.sibling, key, b, c);
    }
  }

  lemma {:induction false} AddWellformed(f: Forest, key: seq<Char>, b: Binding)
    requires f != Nil && key != [] && b.kind != XK_NOD
    requires Wellformed(f) || f == Fresh(key[0])
    ensures Wellformed(Add(f, key, b))
    decreases |key|, 1, f
  {
    if f.ch == key[0] {
      DescendWellformed(f, key, b);
    } else if f.sibling == Nil {
      DescendWellformed(Fresh(key[0]), key, b);
    } else {
      AddWellformed(f.sibling, key, b);
      AddLacks(f.sibling, key, b, f.ch);
    }
  }

  lemma {:induction false} DescendWellformed(f: Forest, key: seq<Char>, b: Binding)
    requires f != Nil && key != [] && f.ch == key[0] && b.kind != XK_NOD
    requires Wellformed(f) || f == Fresh(key[0])
    ensures Wellformed(Descend(f, key, b))
    decreases |key|, 0, f
  {
    if |key| > 1 {
      AddWellformed(if f.next == Nil then Fresh(key[1]) else f.next, key[1..], b);
    }
  }

  /**
   * AddXkey(key): key is bound to the new value, every proper prefix and every
   * extension of it is dropped, and nothing else changes.
   */
  lemma AddKeyRefines(f: Forest, key: seq<Char>, b: Binding)
    requires Wellformed(f) && key != [] && b.kind != XK_NOD
    ensures Wellformed(AddKey(f, key, b))
    ensures forall q :: Lookup(AddKey(f, key, b), q) == Added(key, b, q, Lookup(f, q))
  {
    var g := if f == Nil then Fresh(key[0]) else f;
    AddWellformed(g, key, b);
    forall q ensures Lookup(AddKey(f, key, b), q) == Added(key, b, q, Lookup(f, q)) {
      AddBinds(g, key, b, q);
      FreshBinds(key[0], q);
    }
  }

  // ----- deleting a key -----

  /** TryDeleteNode: the row of siblings that is left, and whether a node went. */
  function Delete(f: Forest, key: seq<Char>): (r: (Forest, bool))
    requires key != []
    decreases |key|, f
  {
    if f == Nil then (Nil, false)
    else if f.ch != key[0] then
      var (g, gone) := Delete(f.sibling, key);
      (f.(sibling := g), gone)
    else if |key| == 1 then (f.sibling, true)
    else if f.next == Nil then (f, false)
    else
      var (g, gone) := Delete(f.next, key[1..]);
      if gone && g == Nil then (f.sibling, true) else (f.(next := g), false)
  }

  function Deleted(key: seq<Char>, q: seq<Char>, before: Option<Binding>): Option<Binding> {
    if Prefix(key, q) then None else before
  }

  lemma {:induction false} DeleteLacks(f: Forest, key: seq<Char>, c: Char)
    requires key != [] && Lacks(f, c)
    ensures Lacks(Delete(f, key).0, c)
    decreases f
  {
    if f != Nil && f.ch != key[0] {
      DeleteLacks(f.sibling, key, c);
    }
  }

  /** A row that lacks a character binds no key that starts with it. */
  lemma {:induction false} LacksBinds(f: Forest, q: seq<Char>)
    requires q != [] && Lacks(f, q[0])
    ensures Lookup(f, q) == None
    decreases f
  {
    if f != Nil {
      LacksBinds(f.sibling, q);
    }
  }

  lemma {:induction false} DeleteBinds(f: Forest, key: seq<Char>, q: seq<Char>)
    requires key != [] && Wellformed(f)
    ensures Lookup(Delete(f, key).0, q) == Deleted(key, q, Lookup(f, q))
    ensures Wellformed(Delete(f, key).0)
    decreases |key|, f
  {
    if f != Nil {
      if f.ch != key[0] {
        DeleteBinds(f.sibling, key, q);
        DeleteLacks(f.sibling, key, f.ch);
      } else if q != [] && q[0] == f.ch {
        Tails(key, q);
        LacksBinds(f.sibling, q);
        if |key| > 1 {
          DeleteBinds(f.next, key[1..], q[1..]);
        }
      } else if |key| > 1 {
        DeleteBinds(f.next, key[1..], []);
      }
    }
  }

  /**
   * DeleteXkey(key): exactly the keys that start with key go. The prefix of a
   * deleted key that was bound before a longer key shadowed it does not come back.
   */
  lemma DeleteKeyRefines(f: Forest, key: seq<Char>)
    requires Wellformed(f) && key != []
    ensures Wellformed(Delete(f, key).0)
    ensures forall q :: Lookup(Delete(f, key).0, q) == Deleted(key, q, Lookup(f, q))
  {
    forall q ensures Lookup(Delete(f, key).0, q) == Deleted(key, q, Lookup(f, q)) {
      DeleteBinds(f, key, q);
    }
    DeleteBinds(f, key, []);
  }

  // ----- reading a key -----

  /**
   * What TraverseMap comes to: a binding after so many characters, the end of
   * the input in the middle of a key, no key, or a crash for want of a node to
   * start from.
   */
  datatype Reading = Found(b: Binding, used: nat) | EndOfFile | Mismatch | Crashed

  /** input holds the character already read and those that can still be read. */
  function Traverse(f: Forest, input: seq<Char>): (r: Reading)
    requires f != Nil && input != []
    ensures !r.Crashed? && (r.Found? ==> 0 < r.used <= |input|)
    decreases |input|, f
  {
    if f.ch != input[0] then
      if f.sibling != Nil then Traverse(f.sibling, input) else Mismatch
    else if f.next == Nil then Found(Binding(f.kind, f.val), 1)
    else if |input| == 1 then EndOfFile
    else
      var r := Traverse(f.next, input[1..]);
      if r.Found? then r.(used := r.used + 1) else r
  }

  /** Some bound key goes on where the input ends. */
  ghost predicate Unfinished(f: Forest, input: seq<Char>) {
    exists key :: Prefix(input, key) && key != input && Lookup(f, key).Some?
  }

  lemma {:induction false} TraverseFinds(f: Forest, input: seq<Char>, n: nat)
    requires Wellformed(f) && f != Nil && input != [] && n <= |input|
    ensures var r := Traverse(f, input);
            && (r.Found? ==> 0 < r.used <= |input| && Lookup(f, input[..r.used]) == Some(r.b))
            && (Lookup(f, input[..n]).Some? ==> r == Found(Lookup(f, input[..n]).value, n))
    decreases |input|, f
  {
    if f.ch != input[0] {
      if f.sibling != Nil {
        TraverseFinds(f.sibling, input, n);
      }
    } else if f.next != Nil && |input| > 1 {
      TraverseFinds(f.next, input[1..], if n > 0 then n - 1 else 0);
      assert forall m :: 0 < m <= |input| ==> input[..m][1..] == input[1..][..m - 1];
    }
  }

  lemma {:induction false} TraverseEnds(f: Forest, input: seq<Char>)
    requires Wellformed(f) && f != Nil && input != []
    ensures Traverse(f, input).EndOfFile? <==> Unfinished(f, input)
    decreases |input|, f
  {
    if f.ch != input[0] {
      assert forall key :: Prefix(input, key) ==> key != [] && key[0] == input[0];
      if Unfinished(f, input) {
        var key :| Prefix(input, key) && key != input && Lookup(f, key).Some?;
        assert Lookup(f.sibling, key).Some?;
      }
      if f.sibling != Nil {
        TraverseEnds(f.sibling, input);
        if Unfinished(f.sibling, input) {
          var key :| Prefix(input, key) && key != input && Lookup(f.sibling, key).Some?;
          assert Lookup(f, key).Some?;
        }
      }
    } else if f.next == Nil {
      forall key | Prefix(input, key) && key != input ensures Lookup(f, key) == None {
        assert |key| == |input| ==> key == input;
      }
    } else if |input| == 1 {
      var k := SomethingBound(f.next);
      var key := [f.ch] + k;
      assert key[1..] == k && Lookup(f, key).Some? && Prefix(input, key) && key != input;
    } else {
      TraverseEnds(f.next, input[1..]);
      if Unfinished(f.next, input[1..]) {
        var k :| Prefix(input[1..], k) && k != input[1..] && Lookup(f.next, k).Some?;
        var key := [f.ch] + k;
        assert key[1..] == k && Lookup(f, key).Some?;
        assert input == [input[0]] + input[1..];
        Tails(input, key);
      }
      if Unfinished(f, input) {
        var key :| Prefix(input, key) && key != input && Lookup(f, key).Some?;
        Tails(input, key);
      }
    }
  }

  /** TraverseMap returns the binding of the one key that the input starts with, if there is one. */
  lemma TraverseReads(f: Forest, input: seq<Char>)
    requires Wellformed(f) && f != Nil && input != []
    ensures var r := Traverse(f, input);
            && (r.Found? ==> r.used <= |input| && Lookup(f, input[..r.used]) == Some(r.b))
            && (forall n: nat :: n <= |input| && Lookup(f, input[..n]).Some? ==>
                                   r == Found(Lookup(f, input[..n]).value, n))
            && (r.EndOfFile? <==> Unfinished(f, input))
  {
    TraverseEnds(f, input);
    TraverseFinds(f, input, 0);
    forall n: nat | n <= |input| && Lookup(f, input[..n]).Some?
      ensures Traverse(f, input) == Found(Lookup(f, input[..n]).value, n)
    {
      TraverseFinds(f, input, n);
    }
  }
}
