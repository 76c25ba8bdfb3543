/** The tree of byte-string keys (src/utils/str_rb.c). A node's `entry` is its key. */
module StrRb {
  import opened Bufio
  import opened RbTree
  import opened Seqs
  import opened RbPlug
  import opened RbInsert
  import opened RbUnlink

  type Key = seq<Byte>

  // ------------------------------------------------------- order of keys

  /** memcmp over the first n bytes: the difference at the first mismatch. */
  function Memcmp(a: Key, b: Key, n: nat): int
    requires n <= |a| && n <= |b|
  {
    if n == 0 then 0
    else if a[0] != b[0] then a[0] - b[0]
    else Memcmp(a[1..], b[1..], n - 1)
  }

  function Common(a: Key, b: Key): nat {
    if |a| > |b| then |b| else |a|
  }

  /** The branch conditions of every search loop: the searched key equals the
      node's key, or lies on its left, or on its right. */
  predicate Equal(key: Key, node: Key) {
    Memcmp(node, key, Common(node, key)) == 0 && |key| == |node|
  }

  predicate Less(key: Key, node: Key) {
    var rc := Memcmp(node, key, Common(node, key));
    (rc == 0 && |key| < |node|) || rc > 0
  }

  /** Less, one byte at a time. */
  lemma LessStep(a: Key, b: Key)
    ensures b == [] ==> !Less(a, b)
    ensures b != [] && a == [] ==> Less(a, b)
    ensures b != [] && a != [] ==> (Less(a, b) <==> a[0] < b[0] || (a[0] == b[0] && Less(a[1..], b[1..])))
  {
    if b != [] && a != [] {
      assert Common(b, a) == Common(b[1..], a[1..]) + 1;
    }
  }

  /** a is less than b: they agree up to some place where a ends, or where its byte is
      the smaller one. */
  ghost predicate Precedes(a: Key, b: Key, k: nat) {
    k <= |a| && k < |b| && a[..k] == b[..k] && (k == |a| || a[k] < b[k])
  }

  lemma {:induction false} LessIs(a: Key, b: Key)
    ensures Less(a, b) <==> exists k: nat :: Precedes(a, b, k)
  {
    LessStep(a, b);
    if a != [] && b != [] && a[0] == b[0] {
      LessIs(a[1..], b[1..]);
      if k: nat :| Precedes(a[1..], b[1..], k) {
        assert a[..k + 1] == [a[0]] + a[1..][..k] && b[..k + 1] == [b[0]] + b[1..][..k];
        assert Precedes(a, b, k + 1);
      }
      if k: nat :| Precedes(a, b, k) {
        assert k > 0;
        assert a[..k][1..] == a[1..][..k - 1] && b[..k][1..] == b[1..][..k - 1];
        assert Precedes(a[1..], b[1..], k - 1);
      }
    } else {
      assert Less(a, b) ==> Precedes(a, b, 0);
      forall k: nat | 0 < k <= |a| && k < |b| ensures a[..k] != b[..k] {
        assert a[..k][0] == a[0] && b[..k][0] == b[0];
      }
    }
  }

  lemma {:induction false} EqualIsEquality(a: Key, b: Key)
    ensures Equal(a, b) <==> a == b
  {
    if a != [] && b != [] && a[0] == b[0] {
      EqualIsEquality(a[1..], b[1..]);
      assert Common(b, a) == Common(b[1..], a[1..]) + 1;
      assert a == [a[0]] + a[1..] && b == [b[0]] + b[1..];
    }
  }

  /** Exactly one of less, equal, greater. */
  lemma {:induction false} Trichotomy(a: Key, b: Key)
    ensures Less(a, b) || a == b || Less(b, a)
    ensures !(Less(a, b) && Less(b, a)) && !Less(a, a)
  {
    LessStep(a, b);
    LessStep(b, a);
    LessStep(a, a);
    if a != [] {
      Trichotomy(a[1..], if b == [] then [] else b[1..]);
      if b != [] && a[0] == b[0] {
        assert a == [a[0]] + a[1..] && b == [b[0]] + b[1..];
      }
    }
  }

  lemma {:induction false} Transitive(a: Key, b: Key, c: Key)
    requires Less(a, b) && Less(b, c)
    ensures Less(a, c)
  {
    LessStep(a, b);
    LessStep(b, c);
    LessStep(a, c);
    if a != [] && a[0] == b[0] == c[0] {
      Transitive(a[1..], b[1..], c[1..]);
    }
  }

  // ------------------------------------------------------------- the tree

  ghost predicate Ascending(s: seq<RbNode<Key>>) {
    forall i, j :: 0 <= i < j < |s| ==> Less(s[i].entry, s[j].entry)
  }

  ghost predicate AllBelow(s: seq<RbNode<Key>>, k: Key) {
    forall i :: 0 <= i < |s| ==> Less(s[i].entry, k)
  }

  ghost predicate AllAbove(s: seq<RbNode<Key>>, k: Key) {
    forall i :: 0 <= i < |s| ==> Less(k, s[i].entry)
  }

  ghost predicate Has(s: seq<RbNode<Key>>, k: Key) {
    exists i :: 0 <= i < |s| && s[i].entry == k
  }

  lemma AscendingConcat(s: seq<RbNode<Key>>, t: seq<RbNode<Key>>)
    requires Ascending(s + t)
    ensures Ascending(s) && Ascending(t)
    ensures forall i, j :: 0 <= i < |s| && 0 <= j < |t| ==> Less(s[i].entry, t[j].entry)
  {
    var u := s + t;
    assert forall i :: 0 <= i < |s| ==> u[i] == s[i];
    assert forall j :: 0 <= j < |t| ==> u[|s| + j] == t[j];
  }

  lemma AscendingSplit(t: Tree<Key>)
    requires t.Node? && Ascending(Inorder(t))
    ensures Ascending(Inorder(t.left)) && Ascending(Inorder(t.right))
    ensures AllBelow(Inorder(t.left), t.node.entry) && AllAbove(Inorder(t.right), t.node.entry)
  {
    AscendingConcat(Inorder(t.left) + [t.node], Inorder(t.right));
    AscendingConcat(Inorder(t.left), [t.node]);
    assert (Inorder(t.left) + [t.node])[|Inorder(t.left)|] == t.node;
    assert [t.node][0] == t.node;
  }

  /** Going left: everything from node on is above key. */
  lemma GoLeft(n: RbNode<Key>, right: seq<RbNode<Key>>, after: seq<RbNode<Key>>, key: Key)
    requires AllAbove(right, n.entry) && AllAbove(after, key) && Less(key, n.entry)
    ensures AllAbove([n] + right + after, key)
  {
    forall i | 0 <= i < |right| ensures Less(key, right[i].entry) {
      Transitive(key, n.entry, right[i].entry);
    }
  }

  lemma GoRight(n: RbNode<Key>, left: seq<RbNode<Key>>, before: seq<RbNode<Key>>, key: Key)
    requires AllBelow(left, n.entry) && AllBelow(before, key) && Less(n.entry, key)
    ensures AllBelow(before + left + [n], key)
  {
    forall i | 0 <= i < |left| ensures Less(left[i].entry, key) {
      Transitive(left[i].entry, n.entry, key);
    }
  }

  /** A key with everything before it below and everything after it above is absent. */
  lemma GapMisses(a: seq<RbNode<Key>>, b: seq<RbNode<Key>>, key: Key)
    requires AllBelow(a, key) && AllAbove(b, key)
    ensures !Has(a + b, key)
  {
    forall i | 0 <= i < |a + b| ensures (a + b)[i].entry != key {
      Trichotomy((a + b)[i].entry, key);
    }
  }

  /** struct str_rb. `rejected` counts the inserts refused as duplicates. */
  class StrTree {
    const root: RbRoot<Key>
    var size: int
    ghost var tree: Tree<Key>
    ghost var rejected: nat

    ghost predicate Valid()
      reads this, root, Nodes(tree)
    {
      Holds(root, tree) && Ascending(Contents()) && size == |Contents()| + rejected
    }

    ghost function Contents(): seq<RbNode<Key>>
      reads this
    {
      Inorder(tree)
    }

    constructor ()
      ensures Valid() && Contents() == [] && rejected == 0 && fresh(root)
    {
      root := new RbRoot();
      size, rejected := 0, 0;
      tree := Leaf;
      new;
      assert Rb<Key>(Leaf, 0);
    }

    /** The loop of str_rb_find, str_rb_find_leaf and str_rb_insert: it stops at the
        entry with this key, or at the gap where such an entry would hang. */
    method Search(key: Key) returns (found: RbNode?<Key>, parent: RbNode?<Key>, s: Side, ghost c: Ctx<Key>)
      requires Holds(root, tree) && Ascending(Contents())
      ensures found != null ==> found in Contents() && found.entry == key
      ensures found == null ==> Plug(c, Leaf) == tree && parent == Bottom(c, null) && (c.Step? ==> c.side == s)
      ensures found == null ==> AllBelow(Before(c), key) && AllAbove(After(c), key)
      ensures found == null && parent != null ==>
        parent.Kid(s) == null && if s.Left? then Less(key, parent.entry) else Less(parent.entry, key)
    {
      var np := root.node;
      parent, s, found := null, Left, null;
      ghost var t := tree;
      c := Top;
      while np != null
        invariant found == null
        invariant Plug(c, t) == tree && Rep(t, np, Bottom(c, null))
        invariant parent == Bottom(c, null) && (c.Step? ==> c.side == s)
        invariant AllBelow(Before(c), key) && AllAbove(After(c), key)
        invariant Ascending(Inorder(t))
        invariant parent != null ==>
          parent.Kid(s) == np && if s.Left? then Less(key, parent.entry) else Less(parent.entry, key)
        decreases t
      {
        parent := np;
        AscendingSplit(t);
        if Equal(key, parent.entry) {
          EqualIsEquality(key, parent.entry);
          InsidePlug(c, t);
          found := parent;
          return;
        }
        if Less(key, parent.entry) {
          GoLeft(parent, Inorder(t.right), After(c), key);
          c, t := Step(c, Left, parent, t.black, t.right), t.left;
          s, np := Left, parent.left;
        } else {
          EqualIsEquality(key, parent.entry);
          Trichotomy(key, parent.entry);
          GoRight(parent, Inorder(t.left), Before(c), key);
          c, t := Step(c, Right, parent, t.black, t.left), t.right;
          s, np := Right, parent.right;
        }
      }
    }

    /** str_rb_find. */
    method Find(key: Key) returns (r: RbNode?<Key>)
      requires Valid()
      ensures r == null <==> !Has(Contents(), key)
      ensures r != null ==> r in Contents() && r.entry == key
    {
      var parent, s;
      ghost var c;
      r, parent, s, c := Search(key);
      if r == null {
        SlotOrder(c);
        GapMisses(Before(c), After(c), key);
      }
    }

    /** str_rb_find_leaf: on a miss, the last node on the search path: of the in-order
        predecessor and successor of the missing key, the one with no child on its side. */
    method FindLeaf(key: Key) returns (r: RbNode?<Key>)
      requires Valid()
      ensures r == null <==> Contents() == []
      ensures r != null ==>
        if Has(Contents(), key) then r in Contents() && r.entry == key
        else NextToGap(Contents(), r, key) && Facing(r, key)
    {
      var found, s;
      ghost var c;
      found, r, s, c := Search(key);
      if found != null {
        return found;
      }
      SlotOrder(c);
      GapMisses(Before(c), After(c), key);
      BottomNextToGap(c, key);
    }

    /** str_rb_insert: counts the entry before looking for a duplicate. */
    method Insert(entry: RbNode<Key>) returns (rc: int)
      requires Valid() && entry !in Nodes(tree)
      modifies this, root, Nodes(tree), entry
      ensures Valid() && size == old(size) + 1
      ensures rc == if Has(old(Contents()), entry.entry) then -1 else 0
      ensures rc == -1 ==> tree == old(tree) && rejected == old(rejected) + 1
      ensures rc == 0 ==> rejected == old(rejected) && Nodes(tree) == old(Nodes(tree)) + {entry}
      ensures rc == 0 ==> exists i :: 0 <= i <= |old(Contents())| && PlacedAt(old(Contents()), i, entry, Contents())
    {
      hide Holds, Inorder, Nodes, Around, Before, After, Ascending, Has;
      size := size + 1;
      TreeAllocated(tree);
      var found, parent, s;
      ghost var c;
      found, parent, s, c := Search(entry.entry);
      if found != null {
        HasIt(Contents(), found);
        rejected := rejected + 1;
        return -1;
      }
      SlotOrder(c);
      GapMisses(Before(c), After(c), entry.entry);
      ghost var x, h := Open(root, c, Leaf);
      SlotFacts(c, entry);
      LinkNode(entry, parent, s, root, c);
      tree := InsertColor(entry, root, c);
      PlacedFacts(Before(c), entry, After(c));
      SameNodes(old(tree), c, tree, entry);
      rc := 0;
    }

    /** str_rb_delete. */
    method Delete(entry: RbNode<Key>)
      requires Valid() && entry in Nodes(tree)
      modifies this, root, Nodes(tree)
      ensures Valid() && size == old(size) - 1 && rejected == old(rejected)
      ensures Contents() == Minus(old(Contents()), entry) && Nodes(tree) == old(Nodes(tree)) - {entry}
    {
      hide Minus, NoDup, Ascending, Inorder, Distinct;
      DistinctByOrder(tree);
      assert entry in Elems(Inorder(tree));
      MinusOrdered(Inorder(tree), entry);
      size := size - 1;
      tree := Erase(entry, root, tree);
      DistinctByOrder(tree);
    }
  }

  /** The node has no child on the side of the key. */
  ghost predicate Facing(r: RbNode<Key>, key: Key)
    reads r
  {
    (Less(key, r.entry) && r.left == null) || (Less(r.entry, key) && r.right == null)
  }

  lemma HasIt(s: seq<RbNode<Key>>, n: RbNode<Key>)
    requires n in s
    ensures Has(s, n.entry)
  {
  }

  /** t is s with n put at position i, after all smaller keys and before all larger. */
  ghost predicate PlacedAt(s: seq<RbNode<Key>>, i: nat, n: RbNode<Key>, t: seq<RbNode<Key>>)
    requires i <= |s|
  {
    t == s[..i] + [n] + s[i..] && AllBelow(s[..i], n.entry) && AllAbove(s[i..], n.entry)
  }

  lemma PlacedFacts(a: seq<RbNode<Key>>, n: RbNode<Key>, b: seq<RbNode<Key>>)
    requires Ascending(a + b) && AllBelow(a, n.entry) && AllAbove(b, n.entry)
    ensures Ascending(a + [n] + b) && PlacedAt(a + b, |a|, n, a + [n] + b)
  {
    AscendingConcat(a, b);
    assert (a + b)[..|a|] == a && (a + b)[|a|..] == b;
  }

  /** r is the largest key below `key`, or the smallest above it. */
  ghost predicate NextToGap(s: seq<RbNode<Key>>, r: RbNode<Key>, key: Key) {
    exists i :: 0 <= i < |s| && s[i] == r &&
      ((AllBelow(s[..i + 1], key) && AllAbove(s[i + 1..], key)) || (AllBelow(s[..i], key) && AllAbove(s[i..], key)))
  }

  /** The node above an empty hole stands next to it in order. */
  lemma BottomNextToGap(c: Ctx<Key>, key: Key)
    requires AllBelow(Before(c), key) && AllAbove(After(c), key)
    ensures c.Step? ==> NextToGap(Before(c) + After(c), c.node, key) && Before(c) + After(c) != []
    ensures c.Top? ==> Before(c) + After(c) == []
  {
    if c.Step? {
      var s := Before(c) + After(c);
      BottomIsEdge(c);
      if c.side.Left? {
        var i := |Before(c)|;
        assert s[i] == c.node && s[..i] == Before(c) && s[i..] == After(c);
      } else {
        var i := |Before(c)| - 1;
        assert s[i] == c.node && s[..i + 1] == Before(c) && s[i + 1..] == After(c);
      }
    }
  }

  lemma BottomIsEdge<E>(c: Ctx<E>)
    requires c.Step?
    ensures if c.side.Left? then After(c) != [] && After(c)[0] == c.node
      else Before(c) != [] && Before(c)[|Before(c)| - 1] == c.node
  {
  }

  /** Removing one of distinct nodes keeps the rest, and their order. */
  lemma {:induction false} MinusOrdered(s: seq<RbNode<Key>>, x: RbNode<Key>)
    requires x in s && NoDup(s) && Ascending(s)
    ensures Ascending(Minus(s, x)) && |Minus(s, x)| == |s| - 1
    ensures Elems(Minus(s, x)) == Elems(s) - {x}
  {
    hide Minus, Elems, NoDup;
    var p, q := MinusCut(s, x);
    forall i | 0 <= i < |p + q| ensures (p + q)[i] == s[if i < |p| then i else i + 1] {
    }
  }

  lemma InsidePlug(c: Ctx<Key>, t: Tree<Key>)
    requires t.Node?
    ensures t.node in Inorder(Plug(c, t))
  {
    PlugContents(c, t);
    DistinctByOrder(Plug(c, t));
    assert t.node in Elems(Inorder(Plug(c, t)));
  }
}
