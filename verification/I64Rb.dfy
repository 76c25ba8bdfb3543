/** The tree of 64-bit keys (src/utils/i64_rb.c). A node's `entry` is its key. */
module I64Rb {
  import opened RbTree
  import opened Seqs
  import opened RbPlug
  import opened RbInsert
  import opened RbUnlink
  import opened RbWalk

  ghost predicate Sorted(s: seq<RbNode<int>>) {
    forall i, j :: 0 <= i < j < |s| ==> s[i].entry <= s[j].entry
  }

  ghost predicate AllAtMost(s: seq<RbNode<int>>, k: int) {
    forall i :: 0 <= i < |s| ==> s[i].entry <= k
  }

  ghost predicate AllAbove(s: seq<RbNode<int>>, k: int) {
    forall i :: 0 <= i < |s| ==> s[i].entry > k
  }

  /** The nodes of s with key k, in the order of s. */
  ghost function OfKey(s: seq<RbNode<int>>, k: int): seq<RbNode<int>> {
    if s == [] then [] else (if s[0].entry == k then [s[0]] else []) + OfKey(s[1..], k)
  }

  lemma {:induction false} OfKeyConcat(s: seq<RbNode<int>>, t: seq<RbNode<int>>, k: int)
    ensures OfKey(s + t, k) == OfKey(s, k) + OfKey(t, k)
    decreases |s|
  {
    if s == [] {
      assert s + t == t;
    } else {
      assert (s + t)[1..] == s[1..] + t && (s + t)[0] == s[0];
      OfKeyConcat(s[1..], t, k);
      var one, rest := if s[0].entry == k then [s[0]] else [], OfKey(s[1..], k);
      assert (one + rest) + OfKey(t, k) == one + (rest + OfKey(t, k));
    }
  }

  lemma {:induction false} OfKeyAbove(s: seq<RbNode<int>>, k: int)
    requires AllAbove(s, k)
    ensures OfKey(s, k) == []
  {
    if s != [] {
      OfKeyAbove(s[1..], k);
    }
  }

  /** t is s with n put at position i, after all keys <= n's and before all others. */
  ghost predicate PlacedAt(s: seq<RbNode<int>>, i: nat, n: RbNode<int>, t: seq<RbNode<int>>)
    requires i <= |s|
  {
    t == s[..i] + [n] + s[i..] && AllAtMost(s[..i], n.entry) && AllAbove(s[i..], n.entry)
  }

  /** A node placed after its equals is last among them. */
  lemma OfKeyPlaced(a: seq<RbNode<int>>, n: RbNode<int>, b: seq<RbNode<int>>, k: int)
    requires AllAbove(b, n.entry)
    ensures OfKey(a + [n] + b, k) == OfKey(a + b, k) + (if n.entry == k then [n] else [])
  {
    OfKeyConcat(a + [n], b, k);
    OfKeyConcat(a, [n], k);
    OfKeyConcat(a, b, k);
    assert OfKey([n], k) == if n.entry == k then [n] else [];
    if n.entry == k {
      OfKeyAbove(b, k);
    }
  }

  lemma SortedConcat(s: seq<RbNode<int>>, t: seq<RbNode<int>>)
    requires Sorted(s + t)
    ensures Sorted(s) && Sorted(t)
    ensures forall i, j :: 0 <= i < |s| && 0 <= j < |t| ==> s[i].entry <= t[j].entry
  {
    var u := s + t;
    assert forall i :: 0 <= i < |s| ==> u[i] == s[i];
    assert forall j :: 0 <= j < |t| ==> u[|s| + j] == t[j];
  }

  lemma SortedSplit(t: Tree<int>)
    requires t.Node? && Sorted(Inorder(t))
    ensures Sorted(Inorder(t.left)) && Sorted(Inorder(t.right))
    ensures AllAtMost(Inorder(t.left), t.node.entry)
    ensures forall i :: 0 <= i < |Inorder(t.right)| ==> Inorder(t.right)[i].entry >= t.node.entry
  {
    SortedConcat(Inorder(t.left) + [t.node], Inorder(t.right));
    SortedConcat(Inorder(t.left), [t.node]);
    assert (Inorder(t.left) + [t.node])[|Inorder(t.left)|] == t.node;
    assert [t.node][0] == t.node;
  }

  /** struct i64_rb. */
  class I64Tree {
    const root: RbRoot<int>
    var elemSize: int
    ghost var tree: Tree<int>

    ghost predicate Valid()
      reads this, root, Nodes(tree)
    {
      Holds(root, tree) && Sorted(Contents()) && elemSize == |Contents()|
    }

    ghost function Contents(): seq<RbNode<int>>
      reads this
    {
      Inorder(tree)
    }

    constructor ()
      ensures Valid() && Contents() == [] && fresh(root)
    {
      root := new RbRoot();
      elemSize := 0;
      tree := Leaf;
      new;
      assert Rb<int>(Leaf, 0);
    }

    /** The search for the link position: after all keys <= key, before all others. */
    method FindSlot(key: int) returns (parent: RbNode?<int>, s: Side, ghost c: Ctx<int>)
      requires Holds(root, tree) && Sorted(Contents())
      ensures Plug(c, Leaf) == tree && parent == Bottom(c, null) && (c.Step? ==> c.side == s)
      ensures AllAtMost(Before(c), key) && AllAbove(After(c), key)
    {
      var cur := root.node;
      parent, s := null, Left;
      ghost var t := tree;
      c := Top;
      while cur != null
        invariant Plug(c, t) == tree && Rep(t, cur, Bottom(c, null))
        invariant parent == Bottom(c, null) && (c.Step? ==> c.side == s)
        invariant AllAtMost(Before(c), key) && AllAbove(After(c), key)
        invariant Sorted(Inorder(t))
        decreases t
      {
        parent := cur;
        SortedSplit(t);
        if key < parent.entry {
          c, t := Step(c, Left, parent, t.black, t.right), t.left;
          s, cur := Left, parent.left;
        } else {
          c, t := Step(c, Right, parent, t.black, t.left), t.right;
          s, cur := Right, parent.right;
        }
      }
    }

    /** i64_rb_insert: node goes after every node with a key not greater than its own. */
    method Insert(node: RbNode<int>)
      requires Valid() && node !in Nodes(tree)
      modifies this, root, Nodes(tree), node
      ensures Valid() && Nodes(tree) == old(Nodes(tree)) + {node}
      ensures exists i :: 0 <= i <= |old(Contents())| && PlacedAt(old(Contents()), i, node, Contents())
      ensures forall k :: OfKey(Contents(), k) == OfKey(old(Contents()), k) + (if node.entry == k then [node] else [])
    {
      hide Holds, Inorder, Nodes, Around, Before, After, Sorted;
      elemSize := elemSize + 1;
      var parent, s;
      ghost var c;
      TreeAllocated(tree);
      parent, s, c := FindSlot(node.entry);
      ghost var x, h := Open(root, c, Leaf);
      SlotFacts(c, node);
      LinkNode(node, parent, s, root, c);
      tree := InsertColor(node, root, c);
      PlacedFacts(Before(c), node, After(c));
      SameNodes(old(tree), c, tree, node);
    }

    /** i64_rb_min. */
    method Min() returns (n: RbNode?<int>)
      requires Valid()
      ensures if Contents() == [] then n == null else n == Contents()[0]
      ensures n != null ==> n in Nodes(tree) && forall m :: m in Contents() ==> n.entry <= m.entry
    {
      n := Outermost(root, Left, tree);
      DistinctByOrder(tree);
    }

    /** i64_rb_max. */
    method Max() returns (n: RbNode?<int>)
      requires Valid()
      ensures if Contents() == [] then n == null else n == Contents()[|Contents()| - 1]
      ensures n != null ==> n in Nodes(tree) && forall m :: m in Contents() ==> m.entry <= n.entry
    {
      n := Outermost(root, Right, tree);
      DistinctByOrder(tree);
    }

    /** i64_rb_delete. */
    method Delete(node: RbNode<int>)
      requires Valid() && node in Nodes(tree)
      modifies this, root, Nodes(tree)
      ensures Valid() && Contents() == Minus(old(Contents()), node)
      ensures Nodes(tree) == old(Nodes(tree)) - {node}
    {
      DistinctByOrder(tree);
      MinusOrdered(Inorder(tree), node);
      elemSize := elemSize - 1;
      tree := Erase(node, root, tree);
      DistinctByOrder(tree);
    }
  }

  lemma PlacedFacts(a: seq<RbNode<int>>, n: RbNode<int>, b: seq<RbNode<int>>)
    requires Sorted(a + b) && AllAtMost(a, n.entry) && AllAbove(b, n.entry)
    ensures Sorted(a + [n] + b) && PlacedAt(a + b, |a|, n, a + [n] + b)
    ensures forall k :: OfKey(a + [n] + b, k) == OfKey(a + b, k) + (if n.entry == k then [n] else [])
  {
    SortedConcat(a, b);
    assert (a + b)[..|a|] == a && (a + b)[|a|..] == b;
    forall k ensures OfKey(a + [n] + b, k) == OfKey(a + b, k) + (if n.entry == k then [n] else []) {
      OfKeyPlaced(a, n, b, k);
    }
  }

  /** Removing one of distinct nodes keeps the rest, and their order. */
  lemma {:induction false} MinusOrdered(s: seq<RbNode<int>>, x: RbNode<int>)
    requires x in s && NoDup(s) && Sorted(s)
    ensures Sorted(Minus(s, x)) && |Minus(s, x)| == |s| - 1
    ensures Elems(Minus(s, x)) == Elems(s) - {x}
  {
    hide Minus, Elems, NoDup;
    var p, q := MinusCut(s, x);
    forall i | 0 <= i < |p + q| ensures (p + q)[i] == s[if i < |p| then i else i + 1] {
    }
  }

  /** Inserting distinct nodes one by one into an empty tree. */
  method Fill(t: I64Tree, nodes: seq<RbNode<int>>)
    requires t.Valid() && t.Contents() == [] && NoDup(nodes)
    modifies t, t.root, nodes
    ensures t.Valid() && Nodes(t.tree) == Elems(nodes)
    ensures forall k :: OfKey(t.Contents(), k) == OfKey(nodes, k)
  {
    hide Inorder, Nodes, Holds, Sorted;
    var i := 0;
    EmptyNodes(t.tree);
    while i < |nodes|
      invariant 0 <= i <= |nodes| && t.Valid() && Nodes(t.tree) == Elems(nodes[..i])
      invariant forall k :: OfKey(t.Contents(), k) == OfKey(nodes[..i], k)
      modifies t, t.root, nodes
    {
      PrefixStep(nodes, i);
      t.Insert(nodes[i]);
      i := i + 1;
    }
    assert nodes[..i] == nodes;
  }

  /** i64_rb_min followed by i64_rb_delete. */
  method TakeMin(t: I64Tree) returns (n: RbNode?<int>)
    requires t.Valid()
    modifies t, t.root, Nodes(t.tree)
    ensures t.Valid() && Nodes(t.tree) <= old(Nodes(t.tree))
    ensures if old(t.Contents()) == [] then n == null && t.Contents() == []
            else n == old(t.Contents())[0] && t.Contents() == old(t.Contents())[1..]
  {
    hide Inorder, Nodes, Holds, Minus, NoDup, Sorted;
    TreeAllocated(t.tree);
    ValidNoDup(t);
    n := t.Min();
    if n != null {
      MinusFirst(t.Contents());
      t.Delete(n);
    }
  }

  /** Repeatedly deleting the minimum until the tree is empty. */
  method Drain(t: I64Tree) returns (out: seq<RbNode<int>>)
    requires t.Valid()
    modifies t, t.root, Nodes(t.tree)
    ensures out == old(t.Contents()) && Sorted(out)
    ensures t.Valid() && t.Contents() == []
  {
    hide Inorder, Nodes, Holds, Sorted;
    out := [];
    ghost var all := t.Contents();
    while true
      invariant t.Valid() && Nodes(t.tree) <= old(Nodes(t.tree))
      invariant out + t.Contents() == all
      decreases |t.Contents()|
    {
      var n := TakeMin(t);
      if n == null {
        assert out + [] == out;
        break;
      }
      out := out + [n];
    }
  }

  /** A stable sort: keys ascend, and nodes of equal key keep their order. */
  method SortThrough(t: I64Tree, nodes: seq<RbNode<int>>) returns (out: seq<RbNode<int>>)
    requires t.Valid() && t.Contents() == [] && NoDup(nodes)
    modifies t, t.root, nodes
    ensures Sorted(out) && forall k :: OfKey(out, k) == OfKey(nodes, k)
    ensures t.Valid() && t.Contents() == []
  {
    hide Inorder, Nodes, Holds;
    Fill(t, nodes);
    out := Drain(t);
  }

  lemma ValidNoDup(t: I64Tree)
    requires t.Valid()
    ensures NoDup(t.Contents())
  {
    DistinctByOrder(t.tree);
  }

  lemma PrefixStep(nodes: seq<RbNode<int>>, i: nat)
    requires i < |nodes| && NoDup(nodes)
    ensures Elems(nodes[..i + 1]) == Elems(nodes[..i]) + {nodes[i]} && nodes[i] !in Elems(nodes[..i])
    ensures forall k ::
      OfKey(nodes[..i + 1], k) == OfKey(nodes[..i], k) + (if nodes[i].entry == k then [nodes[i]] else [])
  {
    var before := nodes[..i];
    assert nodes[..i + 1] == before + [nodes[i]];
    ElemsAppend(before, nodes[i]);
    forall k ensures OfKey(nodes[..i + 1], k) == OfKey(before, k) + (if nodes[i].entry == k then [nodes[i]] else []) {
      OfKeyConcat(before, [nodes[i]], k);
      assert OfKey([nodes[i]], k) == if nodes[i].entry == k then [nodes[i]] else [];
    }
  }

  lemma ElemsAppend(s: seq<RbNode<int>>, n: RbNode<int>)
    ensures Elems(s + [n]) == Elems(s) + {n}
  {
    NoDupConcat(s, [n]);
    assert Elems([n]) == {n};
  }

  lemma EmptyNodes(t: Tree<int>)
    requires Inorder(t) == []
    ensures Nodes(t) == {}
  {
  }
}
