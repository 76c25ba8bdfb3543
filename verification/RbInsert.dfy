/** rb_insert_color (src/utils/krb.c). The source writes each case twice, once
    per side; here one body serves both, with `s` the side of gparent on which
    parent hangs. */
module RbInsert {
  import opened RbTree
  import opened Seqs
  import opened RbPlug

  /** __rb_change_child: replaces prev by x below parent, or at the root. */
  method ChangeChild<E>(prev: RbNode<E>, x: RbNode?<E>, parent: RbNode?<E>, root: RbRoot<E>, ghost c: Ctx<E>)
    requires Seg(c, root.node, null, prev) && parent == Bottom(c, null) && CtxDistinct(c)
    requires prev !in CtxNodes(c)
    modifies root, if parent == null then {} else {parent}
    ensures Seg(c, root.node, null, x)
    ensures parent != null ==> parent.parent == old(parent.parent) && parent.black == old(parent.black)
  {
    if parent != null {
      if parent.left == prev {
        parent.left := x;
      } else {
        parent.right := x;
      }
    } else {
      root.node := x;
    }
  }

  /** __rb_rotate_set_parents: x takes prev's parent and colour, prev goes below x. */
  method RotateSetParents<E>(prev: RbNode<E>, x: RbNode<E>, root: RbRoot<E>, color: bool, ghost c: Ctx<E>)
    requires Seg(c, root.node, null, prev) && prev.parent == Bottom(c, null) && CtxDistinct(c)
    requires prev !in CtxNodes(c) && x !in CtxNodes(c) && prev != x
    modifies root, prev, x, CtxNodes(c)
    ensures Seg(c, root.node, null, x)
    ensures x.parent == old(prev.parent) && x.black == old(prev.black)
    ensures prev.parent == x && prev.black == color
    ensures forall s :: prev.Kid(s) == old(prev.Kid(s)) && x.Kid(s) == old(x.Kid(s))
  {
    var parent := prev.parent;
    x.parent, x.black := prev.parent, prev.black;
    prev.parent, prev.black := x, color;
    ChangeChild(prev, x, parent, root, c);
  }

  /** rb_set_parent_color on the root of a subtree. */
  method SetParentColor<E>(x: RbNode<E>, p: RbNode?<E>, b: bool, ghost t: Tree<E>)
    requires t.Node? && Rep(t, x, x.parent) && Distinct(t)
    modifies x
    ensures Rep(t.(black := b), x, p)
  {
    x.parent, x.black := p, b;
  }

  /** if (x) rb_set_parent(x, p), for the subtree below x. */
  method Adopt<E>(x: RbNode?<E>, p: RbNode<E>, ghost t: Tree<E>, ghost q: RbNode<E>)
    requires Rep(t, x, q) && Distinct(t)
    modifies if x == null then {} else {x}
    ensures Rep(t, x, p)
  {
    if x != null {
      x.parent := p;
    }
  }

  /** A split taken apart at its first frame. */
  lemma OneFrame<E>(root: RbRoot<E>, c: Ctx<E>, t: Tree<E>, x: RbNode?<E>)
    requires At(root, c, t, x) && Sep(c, t) && c.Step?
    ensures var p := c.node;
      && p !in Nodes(t) && p !in Nodes(c.sib) && p !in CtxNodes(c.up)
      && CtxNodes(c.up) !! Nodes(t) && CtxNodes(c.up) !! Nodes(c.sib) && Nodes(t) !! Nodes(c.sib)
      && CtxDistinct(c.up) && Distinct(c.sib) && Distinct(t)
      && Seg(c.up, root.node, null, p) && p.parent == Bottom(c.up, null) && p.black == c.black
      && Rep(t, p.Kid(c.side), p) && Rep(c.sib, p.Kid(c.side.Other()), p)
      && CtxNodes(c) == CtxNodes(c.up) + {p} + Nodes(c.sib)
  {
  }

  /** Case 1: red parent and red uncle turn black, the grandparent red. */
  method FlipColors<E>(root: RbRoot<E>, parent: RbNode<E>, gparent: RbNode<E>, uncle: RbNode<E>,
                       ghost up: Ctx<E>, ghost s: Side, ghost p: Tree<E>, ghost u: Tree<E>)
    requires p.Node? && p.node == parent && u.Node? && u.node == uncle
    requires At(root, Step(up, s, gparent, true, u), p, parent) && Sep(Step(up, s, gparent, true, u), p)
    modifies parent, gparent, uncle
    ensures At(root, up, Mk(s, p.(black := true), gparent, false, u.(black := true)), gparent)
    ensures gparent.parent == old(gparent.parent)
  {
    hide Rep, Nodes, Distinct, Seg, CtxNodes, CtxDistinct;
    OneFrame(root, Step(up, s, gparent, true, u), p, parent);
    Kids(p, parent, gparent, Left);
    Kids(u, uncle, gparent, Left);
    uncle.parent, uncle.black := gparent, true;
    parent.parent, parent.black := gparent, true;
    gparent.black := false;
    MkRep(Left, p.left, parent, p.right);
    MkRep(Left, u.left, uncle, u.right);
    MkRep(s, p.(black := true), gparent, u.(black := true));
  }

  /** Case 2: rotates node above its parent. The links from gparent and from node
      upwards stay as they were; case 3 rewrites them. */
  method RotateInner<E>(node: RbNode<E>, parent: RbNode<E>, s: Side, ghost a: Tree<E>, ghost b: Tree<E>,
                        ghost sib: Tree<E>)
    requires node != parent && {node, parent} !! Nodes(a) && {node, parent} !! Nodes(b) && {node, parent} !! Nodes(sib)
    requires Nodes(a) !! Nodes(b) && Nodes(a) !! Nodes(sib) && Distinct(a) && !IsRed(a)
    requires Rep(sib, parent.Kid(s), parent)
    requires Rep(a, node.Kid(s), node) && Rep(b, node.Kid(s.Other()), node)
    modifies node, parent, Nodes(a)
    ensures Rep(Mk(s, sib, parent, false, a), node.Kid(s), node)
    ensures Rep(b, node.Kid(s.Other()), node)
  {
    hide Rep, Nodes, Distinct;
    TreeAllocated(a); TreeAllocated(b); TreeAllocated(sib);
    var tmp := node.Kid(s);
    RepRoot(a, tmp, node);
    if s.Left? {
      parent.right, node.left := tmp, parent;
    } else {
      parent.left, node.right := tmp, parent;
    }
    if tmp != null {
      SetParentColor(tmp, parent, true, a);
    }
    parent.parent, parent.black := node, false;
    MkRep(s, sib, parent, a);
  }

  /** Before case 3: parent stands below gparent on side s, with subtrees a and b
      and uncle u; only the link from gparent down to parent may be stale. */
  ghost predicate Outer<E>(root: RbRoot<E>, parent: RbNode<E>, gparent: RbNode<E>, s: Side,
                           up: Ctx<E>, a: Tree<E>, b: Tree<E>, u: Tree<E>)
    reads root, parent, gparent, CtxNodes(up), Nodes(a), Nodes(b), Nodes(u)
  {
    && gparent != parent && {gparent, parent} !! Nodes(a)
    && {gparent, parent} !! Nodes(b) && {gparent, parent} !! Nodes(u)
    && {gparent, parent} !! CtxNodes(up) && CtxDistinct(up)
    && CtxNodes(up) !! Nodes(a) && CtxNodes(up) !! Nodes(b) && CtxNodes(up) !! Nodes(u)
    && Nodes(b) !! Nodes(a) && Nodes(b) !! Nodes(u) && Distinct(b)
    && Seg(up, root.node, null, gparent) && gparent.parent == Bottom(up, null) && gparent.black
    && Rep(u, gparent.Kid(s.Other()), gparent)
    && Rep(a, parent.Kid(s), parent) && Rep(b, parent.Kid(s.Other()), parent)
  }

  /** Case 3: rotates parent above gparent; the two exchange colours. */
  method RotateOuter<E>(root: RbRoot<E>, parent: RbNode<E>, gparent: RbNode<E>, s: Side,
                        ghost up: Ctx<E>, ghost a: Tree<E>, ghost b: Tree<E>, ghost u: Tree<E>)
    requires Outer(root, parent, gparent, s, up, a, b, u) && !IsRed(b)
    modifies root, parent, gparent, Nodes(b), CtxNodes(up)
    ensures At(root, up, Mk(s, a, parent, true, Mk(s.Other(), u, gparent, false, b)), parent)
  {
    hide Rep, Nodes, Distinct, Seg, CtxNodes, CtxDistinct;
    TreeAllocated(a); TreeAllocated(b); TreeAllocated(u); CtxAllocated(up);
    var tmp := parent.Kid(s.Other());
    RepRoot(b, tmp, parent);
    if s.Left? {
      gparent.left, parent.right := tmp, gparent;
    } else {
      gparent.right, parent.left := tmp, gparent;
    }
    if tmp != null {
      SetParentColor(tmp, gparent, true, b);
    }
    RotateSetParents(gparent, parent, root, false, up);
    MkRep(s.Other(), u, gparent, b);
    MkRep(s, a, parent, Mk(s.Other(), u, gparent, false, b));
  }

  // ------------------------------------------- what the cases do to the tree

  lemma FlipFacts<E>(up: Ctx<E>, s: Side, g: RbNode<E>, p: Tree<E>, u: Tree<E>, h: nat)
    requires p.Node? && IsRed(u)
    requires CtxRb(Step(up, s, g, true, u), h) && Rb(p.left, h) && Rb(p.right, h)
    ensures var t := Mk(s, p.(black := true), g, false, u.(black := true));
      && Rb(t, h + 1) && CtxRb(up, h + 1)
      && Around(up, Inorder(t)) == Around(Step(up, s, g, true, u), Inorder(p))
  {
  }

  lemma OuterFacts<E>(up: Ctx<E>, s: Side, g: RbNode<E>, n: RbNode<E>, a: Tree<E>, b: Tree<E>, u: Tree<E>, h: nat)
    requires CtxRb(Step(up, s, g, true, u), h) && Rb(a, h) && Rb(b, h) && !IsRed(b) && !IsRed(u)
    ensures var t := Mk(s, a, n, true, Mk(s.Other(), u, g, false, b));
      && Rb(t, h + 1) && CtxRb(up, h + 1)
      && Around(up, Inorder(t)) == Around(Step(up, s, g, true, u), Inorder(Mk(s, a, n, false, b)))
  {
    if s.Left? {
      assert Inorder(a) + [n] + (Inorder(b) + [g] + Inorder(u)) == (Inorder(a) + [n] + Inorder(b)) + [g] + Inorder(u);
    } else {
      assert (Inorder(u) + [g] + Inorder(b)) + [n] + Inorder(a) == Inorder(u) + [g] + (Inorder(b) + [n] + Inorder(a));
    }
  }

  /** Rotating n above p keeps the in-order sequence. */
  lemma InnerFacts<E>(s: Side, p: RbNode<E>, n: RbNode<E>, a: Tree<E>, b: Tree<E>, sib: Tree<E>)
    ensures Inorder(Mk(s, sib, p, false, Mk(s, a, n, false, b))) == Inorder(Mk(s, Mk(s, sib, p, false, a), n, false, b))
  {
    if s.Left? {
      assert (Inorder(sib) + [p] + Inorder(a)) + [n] + Inorder(b)
        == Inorder(sib) + [p] + (Inorder(a) + [n] + Inorder(b));
    } else {
      assert Inorder(b) + [n] + (Inorder(a) + [p] + Inorder(sib))
        == (Inorder(b) + [n] + Inorder(a)) + [p] + Inorder(sib);
    }
  }

  /** The loop invariant of __rb_insert: node is red, and a red parent of node is
      the only possible flaw of the tree. */
  ghost predicate RedAt<E>(root: RbRoot<E>, c: Ctx<E>, t: Tree<E>, node: RbNode<E>, h: nat)
    reads root, CtxNodes(c), Nodes(t)
  {
    && t.Node? && t.node == node && !t.black
    && At(root, c, t, node) && Sep(c, t) && Rb(t, h) && CtxRb(c, h)
  }

  /** The loop ends: node is the root and turns black. */
  method InsertAtTop<E>(root: RbRoot<E>, node: RbNode<E>, ghost c: Ctx<E>, ghost t: Tree<E>, ghost h: nat)
      returns (ghost res: Tree<E>)
    requires RedAt(root, c, t, node, h) && c.Top?
    modifies node
    ensures Holds(root, res) && Inorder(res) == Around(c, Inorder(t))
  {
    node.parent, node.black := null, true;
    res := t.(black := true);
    Close(root, c, res, node, h + 1);
  }

  method InsertFlip<E>(root: RbRoot<E>, node: RbNode<E>, parent: RbNode<E>, gparent: RbNode<E>, uncle: RbNode<E>,
                       ghost c: Ctx<E>, ghost t: Tree<E>, ghost h: nat) returns (ghost t': Tree<E>)
    requires RedAt(root, c, t, node, h) && c.Step? && !c.black && parent == c.node
    requires gparent == c.up.node && IsRed(c.up.sib) && uncle == c.up.sib.node
    modifies parent, gparent, uncle
    ensures RedAt(root, c.up.up, t', gparent, h + 1) && gparent.parent == Bottom(c.up.up, null)
    ensures Around(c.up.up, Inorder(t')) == Around(c, Inorder(t))
  {
    ghost var up, u := c.up.up, c.up.sib;
    ghost var p := Mk(c.side, t, parent, false, c.sib);
    SepByOrder(c, t);
    Zip(root, c, t, node);
    SepByOrder(c.up, p);
    FlipColors(root, parent, gparent, uncle, up, c.up.side, p, u);
    FlipFacts(up, c.up.side, gparent, p, u, h);
    t' := Mk(c.up.side, p.(black := true), gparent, false, u.(black := true));
    SepByOrder(up, t');
  }

  /** Case 2 when it applies: brings node above parent. */
  method InsertInner<E>(root: RbRoot<E>, node: RbNode<E>, parent: RbNode<E>, gparent: RbNode<E>, s: Side,
                        ghost c: Ctx<E>, ghost t: Tree<E>)
    requires t.Node? && t.node == node && At(root, c, t, node) && Sep(c, t) && !IsRed(Sub(t, s))
    requires c.Step? && c.up.Step? && parent == c.node && gparent == c.up.node && c.up.black
    requires s == c.up.side == c.side.Other()
    modifies node, parent, Nodes(Sub(t, s))
    ensures Outer(root, node, gparent, s, c.up.up, Mk(s, c.sib, parent, false, Sub(t, s)), Sub(t, s.Other()), c.up.sib)
  {
    hide Rep, Nodes, Distinct, Seg, CtxNodes, CtxDistinct;
    ghost var a, b := Sub(t, s), Sub(t, s.Other());
    TwoFrames(root, c, t, node);
    Kids(t, node, parent, s);
    CtxAllocated(c.up.up);
    TreeAllocated(c.up.sib);
    MkNodes(s, c.sib, parent, false, a);
    RotateInner(node, parent, s, a, b, c.sib);
  }

  /** A split whose context has two frames, taken apart. */
  lemma TwoFrames<E>(root: RbRoot<E>, c: Ctx<E>, t: Tree<E>, x: RbNode?<E>)
    requires At(root, c, t, x) && Sep(c, t) && c.Step? && c.up.Step?
    ensures var up, u, sib, g, p := c.up.up, c.up.sib, c.sib, c.up.node, c.node;
      && g != p && {g, p} !! Nodes(t) && {g, p} !! Nodes(sib) && {g, p} !! Nodes(u) && {g, p} !! CtxNodes(up)
      && CtxNodes(up) !! Nodes(t) && CtxNodes(up) !! Nodes(sib) && CtxNodes(up) !! Nodes(u)
      && Nodes(t) !! Nodes(sib) && Nodes(t) !! Nodes(u) && Nodes(sib) !! Nodes(u)
      && CtxDistinct(up) && Distinct(sib) && Distinct(u)
      && Seg(up, root.node, null, g) && g.parent == Bottom(up, null) && g.black == c.up.black
      && g.Kid(c.up.side) == p && p.parent == g && p.black == c.black
      && Rep(u, g.Kid(c.up.side.Other()), g) && Rep(t, p.Kid(c.side), p) && Rep(sib, p.Kid(c.side.Other()), p)
  {
    var d := c.up;
    assert Seg(d, root.node, null, c.node) && CtxDistinct(d);
    assert CtxNodes(c) == CtxNodes(d) + {c.node} + Nodes(c.sib);
    assert CtxNodes(d) == CtxNodes(d.up) + {d.node} + Nodes(d.sib);
  }

  lemma OuterAlready<E>(root: RbRoot<E>, c: Ctx<E>, t: Tree<E>, node: RbNode<E>)
    requires At(root, c, t, node) && Sep(c, t) && c.Step? && c.up.Step? && c.up.black && c.side == c.up.side
    ensures Outer(root, c.node, c.up.node, c.side, c.up.up, t, c.sib, c.up.sib)
  {
    hide Rep, Nodes, Distinct, Seg, CtxNodes, CtxDistinct;
    TwoFrames(root, c, t, node);
  }

  lemma InnerIsOther<E>(root: RbRoot<E>, c: Ctx<E>, t: Tree<E>, node: RbNode<E>, s: Side)
    requires At(root, c, t, node) && Sep(c, t) && c.Step? && t.Node?
    ensures c.node.Kid(s.Other()) == node <==> c.side == s.Other()
  {
  }

  /** Cases 2 and 3: there is no red uncle, so one or two rotations end the loop. */
  method InsertRotate<E>(root: RbRoot<E>, node: RbNode<E>, parent: RbNode<E>, gparent: RbNode<E>, s: Side,
                         ghost c: Ctx<E>, ghost t: Tree<E>, ghost h: nat) returns (ghost res: Tree<E>)
    requires RedAt(root, c, t, node, h) && c.Step? && !c.black && parent == c.node
    requires gparent == c.up.node && s == c.up.side && !IsRed(c.up.sib)
    modifies root, CtxNodes(c), Nodes(t)
    ensures Holds(root, res)
    ensures Inorder(res) == Around(c, Inorder(t))
  {
    ghost var up, u, a, b := c.up.up, c.up.sib, t, c.sib;
    var top := parent;
    SepByOrder(c, t);
    InnerIsOther(root, c, t, node, s);
    if node == parent.Kid(s.Other()) {
      InsertInner(root, node, parent, gparent, s, c, t);
      InnerFacts(s, parent, node, Sub(t, s), Sub(t, s.Other()), c.sib);
      top, a, b := node, Mk(s, c.sib, parent, false, Sub(t, s)), Sub(t, s.Other());
    } else {
      OuterAlready(root, c, t, node);
    }
    RotateOuter(root, top, gparent, s, up, a, b, u);
    OuterFacts(up, s, gparent, top, a, b, u, h);
    res := Mk(s, a, top, true, Mk(s.Other(), u, gparent, false, b));
    SepByOrder(up, res);
    Close(root, up, res, top, h + 1);
    res := Plug(up, res);
  }

  /** The uncle's side is found by comparing pointers. */
  lemma SideOfParent<E>(root: RbRoot<E>, c: Ctx<E>, t: Tree<E>, x: RbNode?<E>)
    requires At(root, c, t, x) && Sep(c, t) && c.Step? && c.up.Step?
    ensures c.up.side == if c.node != c.up.node.right then Left else Right
    ensures var tmp := c.up.node.Kid(c.up.side.Other());
      && (tmp != null && !tmp.black <==> IsRed(c.up.sib)) && (tmp != null ==> c.up.sib.Node? && c.up.sib.node == tmp)
  {
    TwoFrames(root, c, t, x);
  }

  /** What the loop can read off its two pointers. */
  lemma RedAtFacts<E>(root: RbRoot<E>, c: Ctx<E>, t: Tree<E>, node: RbNode<E>, h: nat)
    requires RedAt(root, c, t, node, h)
    ensures node in Nodes(t) && node.parent == Bottom(c, null)
    ensures c.Step? ==> c.node.black == c.black && c.node in CtxNodes(c)
    ensures CtxNodes(c) + Nodes(t) == Elems(Around(c, Inorder(t)))
  {
    SepByOrder(c, t);
  }

  lemma Single<E>(n: RbNode<E>)
    ensures Inorder(Node(Leaf, n, false, Leaf)) == [n] && Nodes(Node(Leaf, n, false, Leaf)) == {n}
  {
  }

  /** A red parent is not the root, and its parent is black. */
  lemma RedParent<E>(root: RbRoot<E>, c: Ctx<E>, t: Tree<E>, node: RbNode<E>, h: nat)
    requires RedAt(root, c, t, node, h) && c.Step? && !c.node.black
    ensures !c.black && c.up.Step? && c.up.black && c.node.parent == c.up.node
    ensures Bottom(c.up.up, null) == c.up.node.parent
    ensures c.up.side == if c.node != c.up.node.right then Left else Right
    ensures var tmp := c.up.node.Kid(c.up.side.Other());
      && (tmp != null && !tmp.black <==> IsRed(c.up.sib)) && (tmp != null ==> c.up.sib.Node? && c.up.sib.node == tmp)
    ensures {c.node, c.up.node} <= CtxNodes(c) && Nodes(c.up.sib) <= CtxNodes(c)
    ensures c.up.sib.Node? ==> c.up.sib.node in Nodes(c.up.sib)
  {
    TwoFrames(root, c, t, node);
    SideOfParent(root, c, t, node);
  }

  /** rb_insert_color: newNode has just been linked, red and without children, into
      the hole of a red-black tree. */
  method InsertColor<E>(newNode: RbNode<E>, root: RbRoot<E>, ghost hole: Ctx<E>) returns (ghost res: Tree<E>)
    requires RedAt(root, hole, Node(Leaf, newNode, false, Leaf), newNode, 0)
    modifies root, newNode, CtxNodes(hole)
    ensures Holds(root, res)
    ensures Inorder(res) == Around(hole, [newNode])
  {
    hide Rep, Nodes, Distinct, Seg, CtxNodes, CtxDistinct, Around, Rb, CtxRb;
    var node: RbNode<E> := newNode;
    var parent := node.parent;
    ghost var c, t, h := hole, Node(Leaf, newNode, false, Leaf), 0;
    Single(newNode);
    RedAtFacts(root, c, t, node, h);
    CtxAllocated(hole);
    while true
      invariant RedAt(root, c, t, node, h) && parent == Bottom(c, null)
      invariant Around(c, Inorder(t)) == Around(hole, [newNode])
      invariant CtxNodes(c) + Nodes(t) == CtxNodes(hole) + {newNode}
      decreases c
    {
      RedAtFacts(root, c, t, node, h);
      if parent == null {
        res := InsertAtTop(root, node, c, t, h);
        break;
      } else if parent.black {
        res := CloseAny(root, c, t, node, h);
        break;
      }
      var gparent := parent.parent;
      RedParent(root, c, t, node, h);
      var s := if parent != gparent.right then Left else Right;
      var tmp := gparent.Kid(s.Other());
      if tmp != null && !tmp.black {
        t := InsertFlip(root, node, parent, gparent, tmp, c, t, h);
        node := gparent;
        parent := node.parent;
        c, h := c.up.up, h + 1;
        RedAtFacts(root, c, t, node, h);
        continue;
      }
      res := InsertRotate(root, node, parent, gparent, s, c, t, h);
      break;
    }
  }

  /** rb_link_node: x becomes the child on side s of parent, or the root. */
  method LinkNode<E>(x: RbNode<E>, parent: RbNode?<E>, s: Side, root: RbRoot<E>, ghost c: Ctx<E>)
    requires At(root, c, Leaf, null) && CtxDistinct(c) && parent == Bottom(c, null) && (c.Step? ==> c.side == s)
    requires x !in CtxNodes(c) && CtxRb(c, 0)
    modifies x, root, CtxNodes(c)
    ensures RedAt(root, c, Node(Leaf, x, false, Leaf), x, 0)
  {
    x.parent, x.black := parent, false;
    x.left, x.right := null, null;
    if parent == null {
      root.node := x;
    } else if s.Left? {
      parent.left := x;
    } else {
      parent.right := x;
    }
    Single(x);
    assert Distinct(Node(Leaf, x, false, Leaf));
    assert Rep<E>(Leaf, null, x);
    assert Rep(Node(Leaf, x, false, Leaf), x, parent);
  }
}
