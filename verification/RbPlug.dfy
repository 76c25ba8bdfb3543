/** What plugging a context does to a tree: contents, shape and heap. */
module RbPlug {
  import opened RbTree
  import opened Seqs

  /** The nodes a tree mentions exist, so a callee that may not modify them leaves
      them alone. */
  lemma {:induction false} TreeAllocated<E>(t: Tree<E>)
    ensures forall o :: o in Nodes(t) ==> allocated(o)
  {
    match t
    case Leaf =>
    case Node(l, n, b, r) => TreeAllocated(l); TreeAllocated(r);
  }

  lemma {:induction false} CtxAllocated<E>(c: Ctx<E>)
    ensures forall o :: o in CtxNodes(c) ==> allocated(o)
  {
    match c
    case Top =>
    case Step(up, _, _, _, sib) => TreeAllocated(sib); CtxAllocated(up);
  }

  lemma {:induction false} PlugContents<E>(c: Ctx<E>, t: Tree<E>)
    ensures Nodes(Plug(c, t)) == CtxNodes(c) + Nodes(t)
    ensures Inorder(Plug(c, t)) == Around(c, Inorder(t))
    ensures Sep(c, t) <==> Distinct(Plug(c, t))
  {
    match c
    case Top =>
    case Step(up, s, n, b, sib) => PlugContents(up, Mk(s, t, n, b, sib));
  }

  lemma {:induction false} PlugRb<E>(c: Ctx<E>, t: Tree<E>, h: nat)
    requires CtxRb(c, h) && Rb(t, h) && !IsRed(t)
    ensures !IsRed(Plug(c, t)) && exists k: nat :: Rb(Plug(c, t), k)
  {
    match c
    case Top =>
    case Step(up, s, n, true, sib) => PlugRb(up, Mk(s, t, n, true, sib), h + 1);
    case Step(up, s, n, false, sib) =>
      var t' := Mk(s, t, n, false, sib);
      assert Rb(Mk(up.side, t', up.node, true, up.sib), h + 1);
      PlugRb(up.up, Mk(up.side, t', up.node, true, up.sib), h + 1);
  }

  lemma {:induction false} UnplugRb<E>(c: Ctx<E>, t: Tree<E>, k: nat) returns (h: nat)
    requires Rb(Plug(c, t), k) && !IsRed(Plug(c, t))
    ensures Rb(t, h) && CtxRb(c, h)
    ensures IsRed(t) ==> c.Step? && c.black
  {
    match c
    case Top => h := k;
    case Step(up, s, n, b, sib) =>
      var h' := UnplugRb(up, Mk(s, t, n, b, sib), k);
      h := if b then h' - 1 else h';
  }

  lemma {:induction false} PlugRep<E>(c: Ctx<E>, t: Tree<E>, x: RbNode?<E>, q: RbNode?<E>, y: RbNode?<E>)
    requires Seg(c, x, q, y) && Rep(t, y, Bottom(c, q))
    ensures Rep(Plug(c, t), x, q)
  {
    match c
    case Top =>
    case Step(up, s, n, b, sib) => PlugRep(up, Mk(s, t, n, b, sib), x, q, n);
  }

  lemma {:induction false} UnplugRep<E>(c: Ctx<E>, t: Tree<E>, x: RbNode?<E>, q: RbNode?<E>) returns (y: RbNode?<E>)
    requires Rep(Plug(c, t), x, q)
    ensures Seg(c, x, q, y) && Rep(t, y, Bottom(c, q))
  {
    match c
    case Top => y := x;
    case Step(up, s, n, b, sib) =>
      var z := UnplugRep(up, Mk(s, t, n, b, sib), x, q);
      y := n.Kid(s);
  }

  lemma BottomInside<E>(c: Ctx<E>)
    ensures c.Step? ==> c.node in CtxNodes(c)
  {
  }

  /** What a context puts before and after the content of its hole. */
  ghost function Before<E>(c: Ctx<E>): seq<RbNode<E>> {
    match c
    case Top => []
    case Step(up, Left, n, _, sib) => Before(up)
    case Step(up, Right, n, _, sib) => Before(up) + Inorder(sib) + [n]
  }

  ghost function After<E>(c: Ctx<E>): seq<RbNode<E>> {
    match c
    case Top => []
    case Step(up, Left, n, _, sib) => [n] + Inorder(sib) + After(up)
    case Step(up, Right, n, _, sib) => After(up)
  }

  lemma {:induction false} AroundIs<E>(c: Ctx<E>, s: seq<RbNode<E>>)
    ensures Around(c, s) == Before(c) + s + After(c)
  {
    match c
    case Top =>
    case Step(up, Left, n, _, sib) => AroundIs(up, s + [n] + Inorder(sib));
    case Step(up, Right, n, _, sib) => AroundIs(up, Inorder(sib) + [n] + s);
  }

  /** Sharing is visible in the in-order sequence. */
  lemma {:induction false} DistinctByOrder<E>(t: Tree<E>)
    ensures Distinct(t) <==> NoDup(Inorder(t))
    ensures Nodes(t) == Elems(Inorder(t))
  {
    match t
    case Leaf =>
    case Node(l, n, _, r) =>
      DistinctByOrder(l);
      DistinctByOrder(r);
      NoDupConcat(Inorder(l) + [n], Inorder(r));
      NoDupConcat(Inorder(l), [n]);
  }

  /** A restructuring that keeps the in-order sequence keeps the nodes and
      introduces no sharing. */
  lemma SepByOrder<E>(c: Ctx<E>, t: Tree<E>)
    ensures Sep(c, t) <==> NoDup(Around(c, Inorder(t)))
    ensures CtxNodes(c) + Nodes(t) == Elems(Around(c, Inorder(t)))
  {
    PlugContents(c, t);
    DistinctByOrder(Plug(c, t));
  }

  /** A pointer is null exactly when the tree below it is empty. */
  lemma RepRoot<E>(t: Tree<E>, x: RbNode?<E>, q: RbNode?<E>)
    requires Rep(t, x, q)
    ensures x == null <==> t.Leaf?
    ensures x != null ==> t.node == x && x in Nodes(t) && t.black == x.black && x.parent == q
    ensures x != null ==> Rep(t.left, x.left, x) && Rep(t.right, x.right, x)
  {
  }

  lemma MkRep<E>(s: Side, a: Tree<E>, n: RbNode<E>, b: Tree<E>)
    requires Rep(a, n.Kid(s), n) && Rep(b, n.Kid(s.Other()), n)
    ensures Rep(Mk(s, a, n, n.black, b), n, n.parent)
  {
  }

  lemma MkNodes<E>(s: Side, a: Tree<E>, n: RbNode<E>, black: bool, b: Tree<E>)
    ensures Nodes(Mk(s, a, n, black, b)) == Nodes(a) + {n} + Nodes(b)
    ensures Distinct(Mk(s, a, n, black, b)) <==>
      n !in Nodes(a) && n !in Nodes(b) && Nodes(a) !! Nodes(b) && Distinct(a) && Distinct(b)
  {
  }

  /** The root of a non-empty subtree, seen from side s. */
  lemma Kids<E>(t: Tree<E>, x: RbNode<E>, q: RbNode?<E>, s: Side)
    requires Rep(t, x, q) && Distinct(t)
    ensures t.Node? && t.node == x && Nodes(t) == Nodes(Sub(t, s)) + {x} + Nodes(Sub(t, s.Other()))
    ensures Rep(Sub(t, s), x.Kid(s), x) && Rep(Sub(t, s.Other()), x.Kid(s.Other()), x)
    ensures x !in Nodes(Sub(t, s)) && x !in Nodes(Sub(t, s.Other())) && Nodes(Sub(t, s)) !! Nodes(Sub(t, s.Other()))
    ensures Distinct(Sub(t, s)) && Distinct(Sub(t, s.Other()))
  {
  }

  /** Moving one node from the context into the subtree. */
  lemma Zip<E>(root: RbRoot<E>, c: Ctx<E>, t: Tree<E>, x: RbNode?<E>)
    requires c.Step? && At(root, c, t, x)
    ensures var t' := Mk(c.side, t, c.node, c.black, c.sib);
      At(root, c.up, t', c.node) && Around(c.up, Inorder(t')) == Around(c, Inorder(t))
  {
  }

  /** Moving the root of the subtree into the context. */
  lemma Unzip<E>(root: RbRoot<E>, c: Ctx<E>, s: Side, a: Tree<E>, n: RbNode<E>, b: bool, sib: Tree<E>)
    requires At(root, c, Mk(s, a, n, b, sib), n)
    ensures At(root, Step(c, s, n, b, sib), a, if a.Leaf? then null else a.node)
    ensures Around(Step(c, s, n, b, sib), Inorder(a)) == Around(c, Inorder(Mk(s, a, n, b, sib)))
  {
    assert Rep(a, n.Kid(s), n);
  }

  /** Closing a split: the pieces form the red-black tree Plug(c, t). */
  lemma Close<E>(root: RbRoot<E>, c: Ctx<E>, t: Tree<E>, x: RbNode?<E>, h: nat)
    requires At(root, c, t, x) && Sep(c, t) && CtxRb(c, h) && Rb(t, h) && !IsRed(t)
    ensures Holds(root, Plug(c, t))
    ensures Nodes(Plug(c, t)) == CtxNodes(c) + Nodes(t)
    ensures Inorder(Plug(c, t)) == Around(c, Inorder(t))
  {
    PlugContents(c, t);
    PlugRb(c, t, h);
    PlugRep(c, t, root.node, null, x);
  }

  /** A red subtree closes just as well below a black node. */
  lemma CloseAny<E>(root: RbRoot<E>, c: Ctx<E>, t: Tree<E>, x: RbNode?<E>, h: nat) returns (res: Tree<E>)
    requires At(root, c, t, x) && Sep(c, t) && CtxRb(c, h) && Rb(t, h)
    requires IsRed(t) ==> c.Step? && c.black
    ensures Holds(root, res) && Inorder(res) == Around(c, Inorder(t))
  {
    if IsRed(t) {
      SepByOrder(c, t);
      Zip(root, c, t, x);
      var t' := Mk(c.side, t, c.node, true, c.sib);
      SepByOrder(c.up, t');
      Close(root, c.up, t', c.node, h + 1);
      res := Plug(c.up, t');
    } else {
      Close(root, c, t, x, h);
      res := Plug(c, t);
    }
  }

  /** Opening a red-black tree at any of its splits. */
  lemma Open<E>(root: RbRoot<E>, c: Ctx<E>, t: Tree<E>) returns (x: RbNode?<E>, h: nat)
    requires Holds(root, Plug(c, t))
    ensures At(root, c, t, x) && Sep(c, t) && CtxRb(c, h) && Rb(t, h)
    ensures IsRed(t) ==> c.Step? && c.black
    ensures Nodes(Plug(c, t)) == CtxNodes(c) + Nodes(t)
    ensures Inorder(Plug(c, t)) == Around(c, Inorder(t))
  {
    PlugContents(c, t);
    var k: nat :| Rb(Plug(c, t), k);
    h := UnplugRb(c, t, k);
    x := UnplugRep(c, t, root.node, null);
  }

  /** Every node of a tree can be brought into focus. */
  lemma {:induction false} Focus<E>(t: Tree<E>, n: RbNode<E>, c: Ctx<E>) returns (d: Ctx<E>, u: Tree<E>)
    requires n in Nodes(t)
    ensures Plug(d, u) == Plug(c, t) && u.Node? && u.node == n
  {
    if t.node == n {
      d, u := c, t;
    } else if n in Nodes(t.left) {
      d, u := Focus(t.left, n, Step(c, Left, t.node, t.black, t.right));
    } else {
      d, u := Focus(t.right, n, Step(c, Right, t.node, t.black, t.left));
    }
  }

  lemma SlotFacts<E>(c: Ctx<E>, n: RbNode<E>)
    requires CtxDistinct(c)
    ensures Nodes(Plug(c, Leaf)) == CtxNodes(c) && Inorder(Plug(c, Leaf)) == Before(c) + After(c)
    ensures Around(c, [n]) == Before(c) + [n] + After(c)
  {
    PlugContents(c, Leaf);
    AroundIs(c, [n]);
    SlotOrder(c);
  }

  lemma SlotOrder<E>(c: Ctx<E>)
    ensures Inorder(Plug(c, Leaf)) == Before(c) + After(c)
  {
    PlugContents(c, Leaf);
    AroundIs(c, []);
    assert Inorder<E>(Leaf) == [];
  }

  lemma SameNodes<E>(before: Tree<E>, c: Ctx<E>, after: Tree<E>, n: RbNode<E>)
    requires before == Plug(c, Leaf) && Inorder(after) == Around(c, [n])
    ensures Nodes(after) == Nodes(before) + {n}
  {
    hide Nodes, Inorder, Around, Before, After, Elems;
    DistinctByOrder(before);
    DistinctByOrder(after);
    AroundIs(c, [n]);
    SlotOrder(c);
    ElemsInsert(Before(c), n, After(c));
  }
}
