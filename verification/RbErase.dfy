/** ____rb_erase_color (src/utils/krb.c), with each pair of mirrored branches
    written once: `s` is the side of parent on which the short subtree hangs. */
module RbErase {
  import opened RbTree
  import opened Seqs
  import opened RbPlug
  import opened RbInsert

  /** Case 1: a red sibling is rotated above parent, which is case 3 of the
      insertion on the other side (here the inner subtree is never empty). */
  method EraseRedSibling<E>(root: RbRoot<E>, parent: RbNode<E>, sibling: RbNode<E>, s: Side,
                            ghost up: Ctx<E>, ghost t: Tree<E>, ghost near: Tree<E>, ghost far: Tree<E>)
    requires Outer(root, sibling, parent, s.Other(), up, far, near, t) && near.Node? && !IsRed(near)
    modifies root, parent, sibling, Nodes(near), CtxNodes(up)
    ensures At(root, up, Mk(s.Other(), far, sibling, true, Mk(s, t, parent, false, near)), sibling)
  {
    hide Rep, Nodes, Distinct, Seg, CtxNodes, CtxDistinct;
    RotateOuter(root, sibling, parent, s.Other(), up, far, near, t);
  }

  /** Case 3: the sibling's red near child is rotated above it. The parent pointers of
      the sibling and of that child are left to case 4. */
  method EraseNearRed<E>(parent: RbNode<E>, sibling: RbNode<E>, near: RbNode<E>, s: Side,
                         ghost a: Tree<E>, ghost b: Tree<E>, ghost far: Tree<E>)
    requires parent != sibling && parent != near && parent !in Nodes(a) + Nodes(b) + Nodes(far)
    requires near != sibling && {near, sibling} !! Nodes(a)
    requires {near, sibling} !! Nodes(b) && {near, sibling} !! Nodes(far)
    requires Nodes(b) !! Nodes(a) && Nodes(b) !! Nodes(far) && Distinct(b) && !IsRed(b)
    requires Rep(far, sibling.Kid(s.Other()), sibling)
    requires Rep(a, near.Kid(s), near) && Rep(b, near.Kid(s.Other()), near)
    modifies parent, near, sibling, Nodes(b)
    ensures parent.Kid(s.Other()) == near && parent.Kid(s) == old(parent.Kid(s))
    ensures parent.parent == old(parent.parent) && parent.black == old(parent.black)
    ensures near.Kid(s.Other()) == sibling && Rep(a, near.Kid(s), near)
    ensures Rep(Mk(s, b, sibling, old(sibling.black), far), sibling, old(sibling.parent))
  {
    hide Rep, Nodes, Distinct;
    TreeAllocated(a); TreeAllocated(b); TreeAllocated(far);
    var tmp := near.Kid(s.Other());
    RepRoot(b, tmp, near);
    if s.Left? {
      sibling.left, near.right, parent.right := tmp, sibling, near;
    } else {
      sibling.right, near.left, parent.left := tmp, sibling, near;
    }
    if tmp != null {
      SetParentColor(tmp, sibling, true, b);
    }
    MkRep(s, b, sibling, far);
  }

  /** Before case 4: sibling, with near subtree m and far child f, is to replace
      parent; the link from parent to sibling and f's parent link may be stale. */
  ghost predicate Heavy<E>(root: RbRoot<E>, parent: RbNode<E>, sibling: RbNode<E>, s: Side,
                           up: Ctx<E>, t: Tree<E>, m: Tree<E>, f: Tree<E>)
    reads root, parent, sibling, CtxNodes(up), Nodes(t), Nodes(m), Nodes(f)
  {
    && parent != sibling && {parent, sibling} !! Nodes(t)
    && {parent, sibling} !! Nodes(m) && {parent, sibling} !! Nodes(f)
    && {parent, sibling} !! CtxNodes(up) && CtxDistinct(up)
    && CtxNodes(up) !! Nodes(t) && CtxNodes(up) !! Nodes(m) && CtxNodes(up) !! Nodes(f)
    && Nodes(t) !! Nodes(m) && Nodes(t) !! Nodes(f) && Nodes(m) !! Nodes(f) && Distinct(m) && Distinct(f)
    && Seg(up, root.node, null, parent) && parent.parent == Bottom(up, null)
    && Rep(t, parent.Kid(s), parent) && Rep(m, sibling.Kid(s), sibling)
    && f.Node? && f.node == sibling.Kid(s.Other()) && Rep(f, f.node, f.node.parent)
  }

  /** The links case 4 rewrites below parent and sibling. */
  method EraseFarLinks<E>(parent: RbNode<E>, sibling: RbNode<E>, far: RbNode<E>, s: Side, ghost root: RbRoot<E>,
                          ghost up: Ctx<E>, ghost t: Tree<E>, ghost m: Tree<E>, ghost f: Tree<E>)
    requires Heavy(root, parent, sibling, s, up, t, m, f) && far == f.node
    modifies parent, sibling, Nodes(m), Nodes(f)
    ensures Rep(t, parent.Kid(s), parent) && Rep(m, parent.Kid(s.Other()), parent)
    ensures sibling.Kid(s) == parent && Rep(f.(black := true), sibling.Kid(s.Other()), sibling)
    ensures parent.parent == old(parent.parent) && parent.black == old(parent.black)
  {
    hide Rep, Nodes, Distinct, Seg, CtxNodes, CtxDistinct;
    TreeAllocated(t); TreeAllocated(m); TreeAllocated(f);
    var tmp := sibling.Kid(s);
    RepRoot(m, tmp, sibling);
    RepRoot(f, far, far.parent);
    Blackened(f);
    if s.Left? {
      parent.right, sibling.left := tmp, parent;
    } else {
      parent.left, sibling.right := tmp, parent;
    }
    SetParentColor(far, sibling, true, f);
    Adopt(tmp, parent, m, sibling);
  }

  /** Case 4: sibling is rotated above parent and takes its colour. */
  method EraseFarRed<E>(root: RbRoot<E>, parent: RbNode<E>, sibling: RbNode<E>, far: RbNode<E>, s: Side,
                        ghost up: Ctx<E>, ghost t: Tree<E>, ghost m: Tree<E>, ghost f: Tree<E>)
    requires Heavy(root, parent, sibling, s, up, t, m, f) && far == f.node
    modifies root, parent, sibling, Nodes(m), Nodes(f), CtxNodes(up)
    ensures At(root, up, Mk(s, Mk(s, t, parent, true, m), sibling, old(parent.black), f.(black := true)), sibling)
  {
    hide Rep, Nodes, Distinct, Seg, CtxNodes, CtxDistinct;
    TreeAllocated(t); TreeAllocated(m); TreeAllocated(f); CtxAllocated(up);
    Blackened(f);
    EraseFarLinks(parent, sibling, far, s, root, up, t, m, f);
    RotateSetParents(parent, sibling, root, true, up);
    MkRep(s, t, parent, m);
    MkRep(s, Mk(s, t, parent, true, m), sibling, f.(black := true));
  }

  lemma Blackened<E>(t: Tree<E>)
    requires t.Node?
    ensures Nodes(t.(black := true)) == Nodes(t) && Inorder(t.(black := true)) == Inorder(t)
  {
  }

  /** The loop invariant of ____rb_erase_color: paths through the black subtree t
      below node are one black node short, and node is not the root. */
  ghost predicate ShortAt<E>(root: RbRoot<E>, c: Ctx<E>, t: Tree<E>, node: RbNode?<E>, h: nat)
    reads root, CtxNodes(c), Nodes(t)
  {
    c.Step? && At(root, c, t, node) && Sep(c, t) && Rb(t, h) && !IsRed(t) && CtxRb(c, h + 1)
  }

  /** The sibling exists, and comparing it with node tells the side. */
  lemma Sibling<E>(root: RbRoot<E>, c: Ctx<E>, t: Tree<E>, node: RbNode?<E>, h: nat)
    requires ShortAt(root, c, t, node, h)
    ensures c.side == if node != c.node.right then Left else Right
    ensures c.sib.Node? && c.sib.node == c.node.Kid(c.side.Other()) && c.sib.node.black == c.sib.black
    ensures c.node.black == c.black && c.node.parent == Bottom(c.up, null)
    ensures c.node in CtxNodes(c) && c.sib.node in CtxNodes(c)
    ensures !c.sib.black ==>
      c.black && Sub(c.sib, c.side).Node? && Sub(c.sib, c.side).black && Sub(c.sib, c.side.Other()).Node?
  {
    OneFrame(root, c, t, node);
    assert Rb(c.sib, h + 1);
    RepRoot(t, node, c.node);
    RepRoot(c.sib, c.node.Kid(c.side.Other()), c.node);
    if !c.sib.black {
      assert Rb(c.sib.left, h + 1) && Rb(c.sib.right, h + 1);
    }
  }

  /** The context after case 1. */
  ghost function Lowered<E>(c: Ctx<E>): Ctx<E>
    requires c.Step? && c.sib.Node?
  {
    Step(Step(c.up, c.side, c.sib.node, true, Sub(c.sib, c.side.Other())), c.side, c.node, false, Sub(c.sib, c.side))
  }

  lemma LoweredFacts<E>(c: Ctx<E>, t: Tree<E>, h: nat)
    requires c.Step? && IsRed(c.sib) && CtxRb(c, h + 1) && c.black
    ensures CtxRb(Lowered(c), h + 1)
    ensures Around(Lowered(c), Inorder(t)) == Around(c, Inorder(t))
  {
    var near, far, p, n := Sub(c.sib, c.side), Sub(c.sib, c.side.Other()), c.node, c.sib.node;
    if c.side.Left? {
      assert (Inorder(t) + [p] + Inorder(near)) + [n] + Inorder(far)
        == Inorder(t) + [p] + (Inorder(near) + [n] + Inorder(far));
    } else {
      assert Inorder(far) + [n] + (Inorder(near) + [p] + Inorder(t))
        == (Inorder(far) + [n] + Inorder(near)) + [p] + Inorder(t);
    }
  }

  method EraseCase1<E>(root: RbRoot<E>, node: RbNode?<E>, parent: RbNode<E>, sibling: RbNode<E>, s: Side,
                       ghost c: Ctx<E>, ghost t: Tree<E>, ghost h: nat) returns (tmp1: RbNode<E>)
    requires ShortAt(root, c, t, node, h) && parent == c.node && s == c.side && IsRed(c.sib) && sibling == c.sib.node
    modifies root, CtxNodes(c)
    ensures ShortAt(root, Lowered(c), t, node, h) && Lowered(c).sib.Node? && tmp1 == Lowered(c).sib.node
    ensures Around(Lowered(c), Inorder(t)) == Around(c, Inorder(t))
  {
    hide Rep, Nodes, Distinct, Seg, CtxNodes, CtxDistinct, Rb, CtxRb, Inorder, Around;
    Sibling(root, c, t, node, h);
    OneFrame(root, c, t, node);
    Kids(c.sib, sibling, parent, s);
    SepByOrder(c, t);
    RepRoot(Sub(c.sib, s), sibling.Kid(s), sibling);
    RepRoot(t, node, parent);
    tmp1 := sibling.Kid(s);
    EraseRedSibling(root, parent, sibling, s, c.up, t, Sub(c.sib, s), Sub(c.sib, s.Other()));
    LoweredFacts(c, t, h);
    Unzip(root, c.up, s, Mk(s, t, parent, false, Sub(c.sib, s)), sibling, true, Sub(c.sib, s.Other()));
    Unzip(root, Lowered(c).up, s, t, parent, false, Sub(c.sib, s));
    SepByOrder(Lowered(c), t);
  }

  lemma Case2Facts<E>(c: Ctx<E>, t: Tree<E>, h: nat)
    requires c.Step? && CtxRb(c, h + 1) && Rb(t, h) && !IsRed(t)
    requires c.sib.Node? && c.sib.black && !IsRed(c.sib.left) && !IsRed(c.sib.right)
    ensures var t' := Mk(c.side, t, c.node, true, c.sib.(black := false));
      && Rb(t', h + 1) && Around(c.up, Inorder(t')) == Around(c, Inorder(t))
    ensures if c.black then CtxRb(c.up, h + 2) else c.up.Step? && CtxRb(c.up, h + 1)
    ensures c.up.Top? ==> CtxRb(c.up, h + 1)
  {
    assert Rb(c.sib, h + 1);
  }

  /** Case 2: a black sibling without red child turns red. A red parent then turns
      black and the loop ends; otherwise the whole subtree below parent is short. */
  method EraseCase2<E>(root: RbRoot<E>, node: RbNode?<E>, parent: RbNode<E>, sibling: RbNode<E>,
                       ghost c: Ctx<E>, ghost t: Tree<E>, ghost h: nat)
      returns (again: bool, ghost t': Tree<E>, ghost res: Tree<E>)
    requires ShortAt(root, c, t, node, h) && parent == c.node && c.sib.Node? && sibling == c.sib.node
    requires c.sib.black && !IsRed(c.sib.left) && !IsRed(c.sib.right)
    modifies parent, sibling
    ensures parent.parent == old(parent.parent)
    ensures Around(c.up, Inorder(t')) == Around(c, Inorder(t))
    ensures again ==> ShortAt(root, c.up, t', parent, h + 1) && parent.parent == c.up.node && c.black
    ensures !again ==> Holds(root, res) && Inorder(res) == Around(c, Inorder(t))
  {
    hide Rep, Nodes, Distinct, Seg, CtxNodes, CtxDistinct, Rb, CtxRb, Inorder, Around;
    SepByOrder(c, t);
    OneFrame(root, c, t, node);
    Kids(c.sib, sibling, parent, Left);
    Case2Facts(c, t, h);
    sibling.parent, sibling.black := parent, false;
    if !parent.black {
      parent.black := true;
      again := false;
    } else {
      again := parent.parent != null;
    }
    MkRep(Left, c.sib.left, sibling, c.sib.right);
    MkRep(c.side, t, parent, c.sib.(black := false));
    t' := Mk(c.side, t, parent, true, c.sib.(black := false));
    SepByOrder(c.up, t');
    if !again {
      res := CloseAny(root, c.up, t', parent, h + 1);
    } else {
      res := t';
    }
  }

  /** Before case 4: sibling is the middle of the whole subtree below parent, its
      near part m has full height and its far child will have it once black. */
  ghost predicate HeavyAt<E>(root: RbRoot<E>, parent: RbNode<E>, sibling: RbNode<E>, s: Side,
                             c: Ctx<E>, t: Tree<E>, m: Tree<E>, f: Tree<E>, h: nat)
    reads root, parent, sibling, CtxNodes(c), Nodes(t), Nodes(m), Nodes(f)
  {
    && c.Step? && parent == c.node && parent.black == c.black && s == c.side
    && Heavy(root, parent, sibling, s, c.up, t, m, f)
    && Rb(t, h) && !IsRed(t) && Rb(m, h) && Rb(f.(black := true), h + 1) && CtxRb(c, h + 1)
    && NoDup(Around(c, Inorder(t)))
    && Inorder(c.sib) == Inorder(Mk(s, m, sibling, true, f))
  }

  lemma HeavyNow<E>(root: RbRoot<E>, c: Ctx<E>, t: Tree<E>, node: RbNode?<E>, h: nat)
    requires ShortAt(root, c, t, node, h) && c.sib.Node? && c.sib.black && IsRed(Sub(c.sib, c.side.Other()))
    ensures HeavyAt(root, c.node, c.sib.node, c.side, c, t, Sub(c.sib, c.side), Sub(c.sib, c.side.Other()), h)
  {
    hide Rep, Nodes, Distinct, Seg, CtxNodes, CtxDistinct;
    SepByOrder(c, t);
    OneFrame(root, c, t, node);
    Kids(c.sib, c.sib.node, c.node, c.side);
    RepRoot(Sub(c.sib, c.side.Other()), c.sib.node.Kid(c.side.Other()), c.sib.node);
    assert c.sib == Mk(c.side, Sub(c.sib, c.side), c.sib.node, true, Sub(c.sib, c.side.Other()));
    assert Rb(c.sib, h + 1);
    assert Rb(Sub(c.sib, c.side.Other()), h);
  }

  /** What case 3 does to the sibling's subtree `sib`, seen as a tree. */
  lemma NearFacts<E>(sib: Tree<E>, s: Side, h: nat)
    requires sib.Node? && sib.black && Rb(sib, h + 1) && IsRed(Sub(sib, s)) && !IsRed(Sub(sib, s.Other()))
    ensures var n, far := Sub(sib, s), Sub(sib, s.Other());
      var m, b := Sub(n, s), Sub(n, s.Other());
      var f := Mk(s, b, sib.node, true, far);
      && !IsRed(b) && Rb(m, h) && Rb(f, h + 1)
      && Inorder(sib) == Inorder(Mk(s, m, n.node, true, f))
  {
    var n, far := Sub(sib, s), Sub(sib, s.Other());
    assert sib == Mk(s, Mk(s, Sub(n, s), n.node, false, Sub(n, s.Other())), sib.node, true, far);
    assert Rb(n, h) && Rb(far, h);
    InnerFacts(s, n.node, sib.node, Sub(n, s.Other()), far, Sub(n, s));
  }

  /** Case 3: brings the red near child into the sibling's place. */
  method EraseNear<E>(root: RbRoot<E>, parent: RbNode<E>, sibling: RbNode<E>, near: RbNode<E>, s: Side,
                      ghost c: Ctx<E>, ghost t: Tree<E>, ghost node: RbNode?<E>, ghost h: nat)
      returns (ghost m: Tree<E>, ghost f: Tree<E>)
    requires ShortAt(root, c, t, node, h) && parent == c.node && s == c.side && c.sib.Node? && sibling == c.sib.node
    requires c.sib.black && IsRed(Sub(c.sib, s)) && near == Sub(c.sib, s).node && !IsRed(Sub(c.sib, s.Other()))
    modifies CtxNodes(c)
    ensures HeavyAt(root, parent, near, s, c, t, m, f, h) && f.node == sibling && parent.Kid(s.Other()) == near
    ensures Nodes(m) + Nodes(f) + {near} == Nodes(c.sib)
  {
    hide Rep, Nodes, Distinct, Seg, CtxNodes, CtxDistinct, Rb, Inorder, Around;
    ghost var n, far := Sub(c.sib, s), Sub(c.sib, s.Other());
    ghost var a, b := Sub(n, s), Sub(n, s.Other());
    SepByOrder(c, t);
    OneFrame(root, c, t, node);
    Kids(c.sib, sibling, parent, s);
    RepRoot(c.sib, sibling, parent);
    RepRoot(n, sibling.Kid(s), sibling);
    Kids(n, near, sibling, s);
    NearFacts(c.sib, s, h);
    TreeAllocated(t); CtxAllocated(c.up);
    m, f := a, Mk(s, b, sibling, true, far);
    MkNodes(s, b, sibling, true, far);
    EraseNearRed(parent, sibling, near, s, a, b, far);
    RepRoot(f, sibling, parent);
  }

  /** Case 4 closes the gap. */
  method EraseFar<E>(root: RbRoot<E>, parent: RbNode<E>, sibling: RbNode<E>, far: RbNode<E>, s: Side,
                     ghost c: Ctx<E>, ghost t: Tree<E>, ghost m: Tree<E>, ghost f: Tree<E>, ghost h: nat)
      returns (ghost res: Tree<E>)
    requires HeavyAt(root, parent, sibling, s, c, t, m, f, h) && far == f.node
    modifies root, parent, sibling, Nodes(m), Nodes(f), CtxNodes(c.up)
    ensures Holds(root, res) && Inorder(res) == Around(c, Inorder(t))
  {
    hide Rep, Nodes, Distinct, Seg, CtxNodes, CtxDistinct;
    EraseFarRed(root, parent, sibling, far, s, c.up, t, m, f);
    res := Mk(s, Mk(s, t, parent, true, m), sibling, c.black, f.(black := true));
    InnerFacts(s, parent, sibling, m, f, t);
    Blackened(f);
    assert Around(c.up, Inorder(res)) == Around(c, Inorder(t)) by {
      if s.Left? {
        assert Inorder(res) == Inorder(t) + [parent] + Inorder(c.sib);
      } else {
        assert Inorder(res) == Inorder(c.sib) + [parent] + Inorder(t);
      }
    }
    SepByOrder(c.up, res);
    res := CloseAny(root, c.up, res, sibling, if c.black then h + 2 else h + 1);
  }

  /** The colours of the sibling's children, read through pointers. */
  lemma SiblingKids<E>(root: RbRoot<E>, c: Ctx<E>, t: Tree<E>, node: RbNode?<E>, h: nat)
    requires ShortAt(root, c, t, node, h) && c.sib.Node?
    ensures forall s :: var k := c.sib.node.Kid(s);
      && (k != null && !k.black <==> IsRed(Sub(c.sib, s)))
      && (k != null ==> Sub(c.sib, s).Node? && k == Sub(c.sib, s).node)
    ensures c.node in CtxNodes(c) && c.sib.node in Nodes(c.sib) && Nodes(c.sib) <= CtxNodes(c)
    ensures Nodes(c.sib.left) + Nodes(c.sib.right) <= CtxNodes(c)
  {
    OneFrame(root, c, t, node);
    Kids(c.sib, c.sib.node, c.node, Left);
    RepRoot(c.sib.left, c.sib.node.left, c.sib.node);
    RepRoot(c.sib.right, c.sib.node.right, c.sib.node);
  }

  /** Cases 3 and 4: the sibling has a red child, so rotations end the loop. */
  method EraseRotate<E>(root: RbRoot<E>, node: RbNode?<E>, parent: RbNode<E>, sibling0: RbNode<E>, s: Side,
                        ghost c: Ctx<E>, ghost t: Tree<E>, ghost h: nat) returns (ghost res: Tree<E>)
    requires ShortAt(root, c, t, node, h) && parent == c.node && s == c.side && c.sib.Node? && sibling0 == c.sib.node
    requires c.sib.black && (IsRed(c.sib.left) || IsRed(c.sib.right))
    modifies root, CtxNodes(c)
    ensures Holds(root, res) && Inorder(res) == Around(c, Inorder(t))
  {
    var sibling := sibling0;
    var tmp1 := sibling.Kid(s.Other());
    ghost var m, f := Sub(c.sib, s), Sub(c.sib, s.Other());
    SiblingKids(root, c, t, node, h);
    if tmp1 == null || tmp1.black {
      var tmp2 := sibling.Kid(s);
      m, f := EraseNear(root, parent, sibling, tmp2, s, c, t, node, h);
      tmp1, sibling := sibling, tmp2;
    } else {
      HeavyNow(root, c, t, node, h);
    }
    res := EraseFar(root, parent, sibling, tmp1, s, c, t, m, f, h);
  }

  lemma Empty<E>()
    ensures Nodes<E>(Leaf) == {} && Inorder<E>(Leaf) == []
  {
  }

  /** ____rb_erase_color: the empty subtree in the hole below parent is one black
      node short; afterwards the whole tree is red-black again, in the same order. */
  method EraseColor<E>(parent0: RbNode<E>, root: RbRoot<E>, ghost hole: Ctx<E>) returns (ghost res: Tree<E>)
    requires ShortAt(root, hole, Leaf, null, 0) && parent0 == hole.node
    modifies root, CtxNodes(hole)
    ensures Holds(root, res) && Inorder(res) == Around(hole, [])
  {
    hide Rep, Nodes, Distinct, Seg, CtxNodes, CtxDistinct, Rb, CtxRb, Around;
    var node: RbNode?<E> := null;
    var parent: RbNode<E> := parent0;
    ghost var c, t: Tree<E>, h := hole, Leaf, 0;
    CtxAllocated(hole);
    Empty<E>();
    SepByOrder(c, t);
    while true
      invariant ShortAt(root, c, t, node, h) && parent == c.node
      invariant Around(c, Inorder(t)) == Around(hole, [])
      invariant CtxNodes(c) + Nodes(t) == CtxNodes(hole)
      decreases c
    {
      Sibling(root, c, t, node, h);
      var s := if node != parent.right then Left else Right;
      var sibling: RbNode<E> := parent.Kid(s.Other());
      SepByOrder(c, t);
      if !sibling.black {
        sibling := EraseCase1(root, node, parent, sibling, s, c, t, h);
        c := Lowered(c);
        SepByOrder(c, t);
        Sibling(root, c, t, node, h);
      }
      SiblingKids(root, c, t, node, h);
      if (sibling.Kid(s.Other()) == null || sibling.Kid(s.Other()).black)
          && (sibling.Kid(s) == null || sibling.Kid(s).black) {
        var again;
        again, t, res := EraseCase2(root, node, parent, sibling, c, t, h);
        if !again {
          break;
        }
        node := parent;
        parent := node.parent;
        c, h := c.up, h + 1;
        SepByOrder(c, t);
        continue;
      }
      res := EraseRotate(root, node, parent, sibling, s, c, t, h);
      break;
    }
  }
}
