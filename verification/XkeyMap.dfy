/** The nodes of ed.xmap.c, mutated in place. */
module XkeyMap {
  import opened Sequences
  import opened KeyTrie

  class XmapNode {
    var ch: Char
    var kind: Kind
    var val: Value
    var next: XmapNode?      // first character after this one
    var sibling: XmapNode?   // another character in this place

    ghost var model: Forest
    ghost var repr: set<XmapNode>

    ghost predicate Valid()
      reads this, repr
      decreases repr
    {
      && this in repr
      && (next != null ==> next in repr && next.repr <= repr && this !in next.repr && next.Valid())
      && (sibling != null ==> sibling in repr && sibling.repr <= repr && this !in sibling.repr && sibling.Valid())
      && (next != null && sibling != null ==> next.repr !! sibling.repr)
      && model == Node(ch, kind, val, ModelOf(next), ModelOf(sibling))
    }

    /** GetFreeNode. */
    constructor (ch: Char)
      ensures Valid() && fresh(repr) && model == Fresh(ch)
    {
      this.ch, kind, val, next, sibling := ch, XK_NOD, NO_VALUE, null, null;
      model, repr := Fresh(ch), {this};
    }

    /** Take over what the links say into the ghost fields. */
    ghost method Refold()
      requires next != null ==> this !in next.repr && next.Valid()
      requires sibling != null ==> this !in sibling.repr && sibling.Valid()
      requires next != null && sibling != null ==> next.repr !! sibling.repr
      modifies this`model, this`repr
      ensures Valid() && model == Node(ch, kind, val, ModelOf(next), ModelOf(sibling))
      ensures repr == {this} + ReprOf(next) + ReprOf(sibling)
    {
      model := Node(ch, kind, val, ModelOf(next), ModelOf(sibling));
      repr := {this} + ReprOf(next) + ReprOf(sibling);
    }

    /** TryNode: find the sibling for the first character, or make it, and go on from there. */
    method TryNode(key: seq<Char>, b: Binding)
      requires Valid() && key != []
      modifies repr
      ensures Valid() && fresh(repr - old(repr))
      ensures model == Add(old(model), key, b)
      decreases |key|, 1, repr
    {
      if ch == key[0] {
        Descend(key, b);
      } else {
        if sibling == null {
          sibling := new XmapNode(key[0]);
          sibling.Descend(key, b);
        } else {
          sibling.TryNode(key, b);
        }
        Refold();
      }
    }

    /** TryNode once the node is there: bind it, or go on below it. */
    method Descend(key: seq<Char>, b: Binding)
      requires Valid() && key != [] && ch == key[0]
      modifies repr
      ensures Valid() && fresh(repr - old(repr))
      ensures model == KeyTrie.Descend(old(model), key, b)
      decreases |key|, 0, repr
    {
      if |key| == 1 {
        next := null;   // lose longer keys with this prefix
        kind, val := b.kind, b.val;
      } else {
        if next == null {
          next := new XmapNode(key[1]);
        }
        next.TryNode(key[1..], b);
      }
      Refold();
    }
  }

  /**
   * TryDeleteNode. C passes the address of the link; here the caller stores the
   * link that comes back.
   */
  method TryDeleteNode(n: XmapNode, key: seq<Char>) returns (n': XmapNode?, gone: bool)
    requires n.Valid() && key != []
    modifies n.repr
    ensures n' != null ==> n'.Valid() && n'.repr <= old(n.repr)
    ensures (ModelOf(n'), gone) == Delete(old(n.model), key)
    decreases |key|, n.repr
  {
    n', gone := n, false;
    if n.ch != key[0] {
      if n.sibling != null {
        var s;
        s, gone := TryDeleteNode(n.sibling, key);
        n.sibling := s;
        n.Refold();
      }
    } else if |key| == 1 {
      n', gone := n.sibling, true;
    } else if n.next != null {
      var c, below := TryDeleteNode(n.next, key[1..]);
      n.next := c;
      n.Refold();
      if below && c == null {
        n', gone := n.sibling, true;
      }
    }
  }

  /**
   * TraverseMap: read_ are the characters that can still be read, c the one just
   * read. last is what *ch->buf holds afterwards.
   */
  method TraverseMap(n: XmapNode, c: Char, read_: seq<Char>) returns (r: Reading, last: Char)
    requires n.Valid()
    ensures r == Traverse(n.model, [c] + read_)
    ensures r.Found? && r.b.kind != XK_CMD ==> last == '\0'
    ensures r.Found? && r.b.kind == XK_CMD ==> last == ([c] + read_)[r.used - 1]
    decreases |read_|, n.repr
  {
    if n.ch == c {
      if n.next != null {
        if read_ == [] {
          return EndOfFile, c;
        }
        assert ([c] + read_)[1..] == [read_[0]] + read_[1..];
        r, last := TraverseMap(n.next, read_[0], read_[1..]);
        if r.Found? {
          r := r.(used := r.used + 1);
        }
      } else {
        r := Found(Binding(n.kind, n.val), 1);
        last := if n.kind != XK_CMD then '\0' else c;
      }
    } else if n.sibling != null {
      r, last := TraverseMap(n.sibling, c, read_);
    } else {
      r, last := Mismatch, c;
    }
  }

  ghost function ModelOf(n: XmapNode?): Forest
    reads n
  {
    if n == null then Nil else n.model
  }

  ghost function ReprOf(n: XmapNode?): set<XmapNode>
    reads n
  {
    if n == null then {} else n.repr
  }

  /** The current Xmap. */
  class Xmap {
    var root: XmapNode?

    ghost predicate Valid()
      reads this, root, ReprOf(root)
    {
      (root != null ==> root.Valid()) && Wellformed(ModelOf(root))
    }

    /** The bindings in force. */
    ghost function Bound(key: seq<Char>): Option<Binding>
      reads this, root
    {
      Lookup(ModelOf(root), key)
    }

    constructor ()
      ensures Valid() && forall key :: Bound(key) == None
    {
      root := null;
    }

    /** AddXkey: empty keys and the lead-in command itself are refused. */
    method AddXkey(key: seq<Char>, val: Value, ntype: Kind)
      requires Valid() && ntype != XK_NOD
      modifies this, ReprOf(root)
      ensures Valid() && fresh(ReprOf(root) - old(ReprOf(root)))
      ensures var refused := key == [] || (ntype == XK_CMD && val == Command(F_XKEY));
              forall q :: Bound(q) ==
                          if refused then old(Bound(q)) else Added(key, Binding(ntype, val), q, old(Bound(q)))
    {
      if key == [] || (ntype == XK_CMD && val == Command(F_XKEY)) {
        return;
      }
      ghost var before := ModelOf(root);
      AddKeyRefines(before, key, Binding(ntype, val));
      if root == null {
        root := new XmapNode(key[0]);
      }
      root.TryNode(key, Binding(ntype, val));
      assert ModelOf(root) == AddKey(before, key, Binding(ntype, val));
    }

    /** DeleteXkey: -1 for the empty key. */
    method DeleteXkey(key: seq<Char>) returns (r: int)
      requires Valid()
      modifies this, ReprOf(root)
      ensures Valid() && ReprOf(root) <= old(ReprOf(root)) && r == if key == [] then -1 else 0
      ensures forall q :: Bound(q) == if key == [] then old(Bound(q)) else Deleted(key, q, old(Bound(q)))
    {
      if key == [] {
        return -1;
      }
      ghost var before := ModelOf(root);
      DeleteKeyRefines(before, key);
      if root != null {
        var n, gone := TryDeleteNode(root, key);
        root := n;
      }
      assert ModelOf(root) == Delete(before, key).0;
      return 0;
    }

    /** GetXkey. TraverseMap starts from the root whether or not there is one, and bindkey -r can have taken the last
        key away while a key is still bound to the lead-in command. */
    method GetXkey(c: Char, read_: seq<Char>) returns (r: Reading, last: Char)
      requires Valid()
      ensures r.Crashed? <==> forall key :: Bound(key) == None
      ensures r.Found? ==> r.used <= |read_| + 1 && Bound(([c] + read_)[..r.used]) == Some(r.b)
      ensures forall n: nat :: n <= |read_| + 1 && Bound(([c] + read_)[..n]).Some? ==>
                r == Found(Bound(([c] + read_)[..n]).value, n)
      ensures r.EndOfFile? <==> Unfinished(ModelOf(root), [c] + read_)
    {
      if root == null {
        return Crashed, c;
      }
      r, last := TraverseMap(root, c, read_);
      TraverseReads(ModelOf(root), [c] + read_);
      ghost var key := SomethingBound(ModelOf(root));
      assert Bound(key).Some?;
    }
  }
}
