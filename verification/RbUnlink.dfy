/** __rb_erase_augmented (src/utils/krb_augmented.c) and rb_erase (src/utils/krb.c). */
module RbUnlink {
  import opened RbTree
  import opened Seqs
  import opened RbPlug
  import opened RbInsert
  import opened RbErase

  // ------------------------------------------------------ grafted contexts

  /** Context d placed in the hole of context base. */
  ghost function Graft<E>(d: Ctx<E>, base: Ctx<E>): Ctx<E> {
    match d
    case Top => base
    case Step(up, s, n, b, sib) => Step(Graft(up, base), s, n, b, sib)
  }

  lemma {:induction false} GraftTree<E>(d: Ctx<E>, base: Ctx<E>, t: Tree<E>)
    ensures Plug(Graft(d, base), t) == Plug(base, Plug(d, t))
    ensures CtxNodes(Graft(d, base)) == CtxNodes(d) + CtxNodes(base)
    ensures base.Step? ==> Graft(d, base).Step? && Graft(d, base).node == Bottom(d, base.node)
  {
    match d
    case Top =>
    case Step(up, s, n, b, sib) => GraftTree(up, base, Mk(s, t, n, b, sib));
  }

  lemma {:induction false} GraftAround<E>(d: Ctx<E>, base: Ctx<E>, s: seq<RbNode<E>>)
    ensures Around(Graft(d, base), s) == Around(base, Around(d, s))
  {
    match d
    case Top =>
    case Step(up, Left, n, _, sib) => GraftAround(up, base, s + [n] + Inorder(sib));
    case Step(up, Right, n, _, sib) => GraftAround(up, base, Inorder(sib) + [n] + s);
  }

  lemma {:induction false} GraftSeg<E>(d: Ctx<E>, base: Ctx<E>, x: RbNode?<E>, q: RbNode?<E>, z: RbNode?<E>,
                                       y: RbNode?<E>)
    requires Seg(d, z, Bottom(base, q), y) && Seg(base, x, q, z)
    ensures Seg(Graft(d, base), x, q, y) && Bottom(Graft(d, base), q) == Bottom(d, Bottom(base, q))
  {
    match d
    case Top =>
    case Step(up, s, n, b, sib) => GraftSeg(up, base, x, q, z, n);
  }

  /** A red-black subtree taken apart at the hole of d. */
  lemma {:induction false} GraftRb<E>(d: Ctx<E>, base: Ctx<E>, u: Tree<E>, h: nat) returns (k: nat)
    requires CtxRb(base, h) && Rb(Plug(d, u), h) && (IsRed(Plug(d, u)) ==> base.Step? && base.black)
    ensures CtxRb(Graft(d, base), k) && Rb(u, k)
    ensures IsRed(u) ==> Graft(d, base).Step? && Graft(d, base).black
  {
    match d
    case Top => k := h;
    case Step(up, s, n, b, sib) =>
      var k' := GraftRb(up, base, Mk(s, u, n, b, sib), h);
      k := if b then k' - 1 else k';
  }

  /** A path that only goes left. */
  ghost predicate LeftPath<E>(d: Ctx<E>) {
    d.Step? ==> d.side.Left? && LeftPath(d.up)
  }

  lemma {:induction false} LeftAround<E>(d: Ctx<E>, s: seq<RbNode<E>>, t: seq<RbNode<E>>)
    requires LeftPath(d)
    ensures Around(d, s + t) == s + Around(d, t)
  {
    if d.Step? {
      var v := [d.node] + Inorder(d.sib);
      LeftAround(d.up, s, t + v);
      assert s + t + [d.node] + Inorder(d.sib) == s + (t + v);
      assert t + [d.node] + Inorder(d.sib) == t + v;
    }
  }

  // ------------------------------------------------------------ the heap

  /** The topmost frame of a non-empty context, split off. */
  lemma {:induction false} SplitTop<E>(d: Ctx<E>, x: RbNode<E>, q: RbNode?<E>, y: RbNode?<E>)
      returns (e: Ctx<E>, s: Side, sib: Tree<E>)
    requires Seg(d, x, q, y) && d.Step? && CtxDistinct(d)
    ensures d == Graft(e, Step(Top, s, x, x.black, sib)) && CtxNodes(d) == CtxNodes(e) + {x} + Nodes(sib)
    ensures x.parent == q && Seg(e, x.Kid(s), x, y) && Rep(sib, x.Kid(s.Other()), x)
    ensures x !in CtxNodes(e) && x !in Nodes(sib)
  {
    if d.up.Top? {
      e, s, sib := Top, d.side, d.sib;
    } else {
      e, s, sib := SplitTop(d.up, x, q, d.node);
      e := Step(e, d.side, d.node, d.black, d.sib);
    }
  }

  /** rb_set_parent on the topmost node of a context. */
  method HangCtx<E>(x: RbNode<E>, p: RbNode<E>, ghost d: Ctx<E>, ghost q: RbNode<E>, ghost y: RbNode?<E>)
    requires Seg(d, x, q, y) && d.Step? && CtxDistinct(d)
    modifies x
    ensures Seg(d, x, p, y)
    ensures x.black == old(x.black) && x.left == old(x.left) && x.right == old(x.right)
  {
    ghost var e, s, sib := SplitTop(d, x, q, y);
    x.parent := p;
    GraftSeg(e, Step(Top, s, x, x.black, sib), x, p, x.Kid(s), y);
  }

  /** The do-while loop of case 3: from child, whose left child is not empty, down
      to the leftmost node. */
  method Leftmost<E>(child: RbNode<E>, ghost r: Tree<E>, ghost q: RbNode<E>)
      returns (parent: RbNode<E>, successor: RbNode<E>, ghost d: Ctx<E>, ghost u: Tree<E>)
    requires Rep(r, child, q) && child.left != null
    ensures Plug(d, u) == r && d.Step? && parent == d.node && LeftPath(d)
    ensures Seg(d, child, q, successor) && Rep(u, successor, parent) && successor.left == null
  {
    parent, successor := child, child.left;
    d, u := Step(Top, Left, child, r.black, r.right), r.left;
    while successor.left != null
      invariant Plug(d, u) == r && d.Step? && parent == d.node && LeftPath(d)
      invariant Seg(d, child, q, successor) && Rep(u, successor, parent)
      decreases u
    {
      d, u := Step(d, Left, successor, u.black, u.right), u.left;
      parent := successor;
      successor := successor.left;
    }
  }

  // ----------------------------------------------------------- unlinking

  /** A split of a red-black tree at node. */
  ghost predicate SplitAt<E>(root: RbRoot<E>, c: Ctx<E>, t: Tree<E>, node: RbNode<E>, h: nat)
    reads root, CtxNodes(c), Nodes(t)
  {
    && t.Node? && t.node == node && At(root, c, t, node) && Sep(c, t)
    && Rb(t, h) && CtxRb(c, h) && (IsRed(t) ==> c.Step? && c.black)
  }

  /** What __rb_erase_augmented leaves: a finished tree with the in-order sequence
      `order`, or one whose hole below `rebalance` is a black node short. */
  ghost predicate Unlinked<E>(root: RbRoot<E>, rebalance: RbNode?<E>, hole: Ctx<E>, res: Tree<E>, order: seq<RbNode<E>>)
    reads root, Nodes(res), CtxNodes(hole)
  {
    if rebalance == null then
      Holds(root, res) && Inorder(res) == order
    else
      ShortAt(root, hole, Leaf, null, 0) && rebalance == hole.node && Around(hole, []) == order
  }

  /** With one child or none, that child has no children, and is red if present. */
  lemma LoneChild<E>(t: Tree<E>, s: Side, h: nat)
    requires t.Node? && Rb(t, h) && Sub(t, s).Leaf?
    ensures var k := Sub(t, s.Other());
      if k.Node? then t.black && !k.black && h == 1 && k.left.Leaf? && k.right.Leaf?
      else h == if t.black then 1 else 0
    ensures Inorder(Sub(t, s.Other())) == Inorder(t.left) + Inorder(t.right)
  {
    var k := Sub(t, s.Other());
    assert Rb<E>(Leaf, if t.black then h - 1 else h);
    if k.Node? {
      assert Rb(k, 0);
      assert Rb(k.left, 0) && Rb(k.right, 0);
    }
    assert Inorder<E>(Leaf) == [];
  }

  /** Dropping node from the sequence leaves no duplicate. */
  lemma OrderMinus<E>(c: Ctx<E>, l: Tree<E>, n: RbNode<E>, r: Tree<E>)
    requires NoDup(Around(c, Inorder(l) + [n] + Inorder(r)))
    ensures NoDup(Around(c, Inorder(l) + Inorder(r)))
  {
    hide NoDup, Around, Inorder, Before, After;
    AroundIs(c, Inorder(l) + [n] + Inorder(r));
    AroundIs(c, Inorder(l) + Inorder(r));
    NoDupDrop(Before(c), Inorder(l), n, Inorder(r), After(c));
  }

  lemma NothingThere<E>(root: RbRoot<E>, c: Ctx<E>)
    requires Seg(c, root.node, null, null)
    ensures At(root, c, Leaf, null)
  {
  }

  /** Case 1: node has at most one child, on side s.Other(), which takes its place. */
  method SpliceOut<E>(node: RbNode<E>, child: RbNode?<E>, root: RbRoot<E>,
                      ghost s: Side, ghost c: Ctx<E>, ghost t: Tree<E>, ghost h: nat)
      returns (rebalance: RbNode?<E>, ghost res: Tree<E>)
    requires SplitAt(root, c, t, node, h) && Sub(t, s).Leaf? && child == node.Kid(s.Other())
    modifies root, CtxNodes(c), Nodes(t)
    ensures Unlinked(root, rebalance, c, res, Around(c, Inorder(t.left) + Inorder(t.right)))
  {
    hide Rep, Nodes, Distinct, Seg, CtxNodes, CtxDistinct, Around;
    ghost var k := Sub(t, s.Other());
    BottomInside(c);
    CtxAllocated(c); TreeAllocated(k);
    RepRoot(t, node, Bottom(c, null));
    LoneChild(t, s, h);
    Kids(t, node, node.parent, s);
    RepRoot(k, child, node);
    SepByOrder(c, t);
    OrderMinus(c, t.left, node, t.right);
    var parent, black := node.parent, node.black;
    ChangeChild(node, child, parent, root, c);
    if child != null {
      SetParentColor(child, parent, black, k);
      k := k.(black := black);
      rebalance := null;
    } else {
      rebalance := if black then parent else null;
    }
    RepRoot(k, child, parent);
    SepByOrder(c, k);
    res := k;
    if rebalance == null {
      res := CloseAny(root, c, k, child, if k.Node? then 1 else 0);
    } else {
      NothingThere(root, c);
    }
  }

  /** node, its successor and the five parts around them: context c above node,
      node's left subtree l, context d from node's right child down to the
      successor, and the successor's right subtree r. No two share a node. */
  ghost predicate Parts<E>(node: RbNode<E>, succ: RbNode<E>, c: Ctx<E>, l: Tree<E>, d: Ctx<E>, r: Tree<E>) {
    && node != succ && {node, succ} !! CtxNodes(c) && {node, succ} !! Nodes(l)
    && {node, succ} !! CtxNodes(d) && {node, succ} !! Nodes(r)
    && CtxNodes(c) !! Nodes(l) && CtxNodes(c) !! CtxNodes(d) && CtxNodes(c) !! Nodes(r)
    && Nodes(l) !! CtxNodes(d) && Nodes(l) !! Nodes(r) && CtxNodes(d) !! Nodes(r)
    && CtxDistinct(c) && Distinct(l) && CtxDistinct(d) && Distinct(r)
  }

  /** successor takes over node's left subtree and the link from above. */
  method TakeLinks<E>(node: RbNode<E>, successor: RbNode<E>, root: RbRoot<E>,
                      ghost c: Ctx<E>, ghost l: Tree<E>, ghost d: Ctx<E>, ghost r: Tree<E>, ghost z: RbNode?<E>)
    requires Parts(node, successor, c, l, d, r) && l.Node?
    requires Seg(c, root.node, null, node) && node.parent == Bottom(c, null) && Rep(l, node.left, node)
    requires Seg(d, successor.right, successor, z) && Rep(r, z, successor)
    modifies root, CtxNodes(c), Nodes(l), successor
    ensures Seg(c, root.node, null, successor) && Rep(l, successor.left, successor)
    ensures Seg(d, successor.right, successor, z) && Rep(r, z, successor)
    ensures successor.black == old(successor.black)
  {
    hide Rep, Nodes, Distinct, Seg, CtxNodes, CtxDistinct;
    BottomInside(c);
    CtxAllocated(c); CtxAllocated(d); TreeAllocated(l); TreeAllocated(r);
    RepRoot(l, node.left, node);
    var tmp := node.left;
    successor.left := tmp;
    SetParentColor(tmp, successor, tmp.black, l);
    ChangeChild(node, successor, node.parent, root, c);
  }

  /** The common end of cases 2 and 3: successor, already detached, takes node's
      place; child2, its former right child, hangs below parent. */
  method ReplaceBySuccessor<E>(node: RbNode<E>, successor: RbNode<E>, parent: RbNode<E>, child2: RbNode?<E>,
                               root: RbRoot<E>, ghost c: Ctx<E>, ghost l: Tree<E>, ghost d: Ctx<E>, ghost r: Tree<E>)
      returns (rebalance: RbNode?<E>)
    requires Parts(node, successor, c, l, d, r) && l.Node?
    requires Seg(c, root.node, null, node) && node.parent == Bottom(c, null) && Rep(l, node.left, node)
    requires Seg(d, successor.right, successor, child2) && Rep(r, child2, successor) && parent == Bottom(d, successor)
    modifies root, CtxNodes(c), Nodes(l), successor, Nodes(r)
    ensures var base := Step(c, Right, successor, old(node.black), l);
      At(root, Graft(d, base), if r.Leaf? then r else r.(black := true), child2)
    ensures rebalance == if child2 == null && old(successor.black) then parent else null
  {
    hide Rep, Nodes, Distinct, Seg, CtxNodes, CtxDistinct, Around, Graft;
    CtxAllocated(c); CtxAllocated(d); TreeAllocated(l);
    RepRoot(r, child2, successor);
    var up, black := node.parent, node.black;
    TakeLinks(node, successor, root, c, l, d, r, child2);
    var wasBlack := successor.black;
    successor.parent, successor.black := up, black;
    if child2 != null {
      SetParentColor(child2, parent, true, r);
      rebalance := null;
    } else {
      rebalance := if wasBlack then parent else null;
    }
    ghost var base := Step(c, Right, successor, black, l);
    BaseSeg(root, c, successor, l);
    GraftSeg(d, base, root.node, null, successor.right, child2);
    if child2 == null {
      NothingThere(root, Graft(d, base));
    }
  }

  lemma BaseSeg<E>(root: RbRoot<E>, c: Ctx<E>, n: RbNode<E>, l: Tree<E>)
    requires Seg(c, root.node, null, n) && n.parent == Bottom(c, null) && Rep(l, n.left, n)
    ensures Seg(Step(c, Right, n, n.black, l), root.node, null, n.right)
  {
  }

  /** The pieces around the successor, as trees. */
  lemma SuccessorFacts<E>(c: Ctx<E>, t: Tree<E>, h: nat, d: Ctx<E>, u: Tree<E>)
    requires t.Node? && Sep(c, t) && Rb(t, h) && CtxRb(c, h) && (IsRed(t) ==> c.Step? && c.black)
    requires Plug(d, u) == t.right && LeftPath(d) && u.Node? && u.left.Leaf?
    ensures Parts(t.node, u.node, c, t.left, d, u.right)
    ensures CtxNodes(d) + Nodes(u) == Nodes(t.right) && Nodes(u) == {u.node} + Nodes(u.right)
    ensures var k := if u.right.Leaf? then u.right else u.right.(black := true);
      var hole := Graft(d, Step(c, Right, u.node, t.black, t.left));
      && Rb(k, if u.right.Leaf? then 0 else 1) && !IsRed(k)
      && CtxRb(hole, if u.right.Leaf? && !u.black then 0 else 1)
      && CtxNodes(hole) == CtxNodes(c) + Nodes(t.left) + {u.node} + CtxNodes(d)
      && Around(hole, Inorder(k)) == Around(c, Inorder(t.left) + Inorder(t.right))
  {
    var base := Step(c, Right, u.node, t.black, t.left);
    PlugContents(d, u);
    assert Nodes(u) == {u.node} + Nodes(u.right);
    SuccessorHeights(c, t, h, d, u);
    GraftTree(d, base, u.right);
    SuccessorOrder(c, t, d, u);
    SuccessorParts(c, t, d, u);
  }

  lemma SuccessorHeights<E>(c: Ctx<E>, t: Tree<E>, h: nat, d: Ctx<E>, u: Tree<E>)
    requires t.Node? && Rb(t, h) && CtxRb(c, h) && (IsRed(t) ==> c.Step? && c.black)
    requires Plug(d, u) == t.right && u.Node? && u.left.Leaf?
    ensures CtxRb(Graft(d, Step(c, Right, u.node, t.black, t.left)), if u.right.Leaf? && !u.black then 0 else 1)
    ensures u.right.Node? ==> u.black && Rb(u.right.(black := true), 1)
  {
    var base := Step(c, Right, u.node, t.black, t.left);
    var k := GraftRb(d, base, u, if t.black then h - 1 else h);
    LoneChild(u, Left, k);
  }

  lemma SuccessorOrder<E>(c: Ctx<E>, t: Tree<E>, d: Ctx<E>, u: Tree<E>)
    requires t.Node? && Plug(d, u) == t.right && LeftPath(d) && u.Node? && u.left.Leaf?
    ensures Around(Graft(d, Step(c, Right, u.node, t.black, t.left)), Inorder(u.right))
      == Around(c, Inorder(t.left) + Inorder(t.right))
  {
    var s := Inorder(u.right);
    GraftAround(d, Step(c, Right, u.node, t.black, t.left), s);
    PlugContents(d, u);
    LeftAround(d, [u.node], s);
    assert Inorder(u) == [u.node] + s;
    assert Inorder(t.left) + [u.node] + Around(d, s) == Inorder(t.left) + ([u.node] + Around(d, s));
  }

  lemma SuccessorParts<E>(c: Ctx<E>, t: Tree<E>, d: Ctx<E>, u: Tree<E>)
    requires t.Node? && Sep(c, t) && Plug(d, u) == t.right && u.Node? && u.left.Leaf?
    ensures Parts(t.node, u.node, c, t.left, d, u.right)
  {
    PlugContents(d, u);
    assert Nodes(u) == {u.node} + Nodes(u.right);
  }

  /** Case 3 only: the successor leaves its place on the left edge of node's right
      subtree and becomes that subtree's parent. */
  method DetachSuccessor<E>(child: RbNode<E>, parent: RbNode<E>, successor: RbNode<E>, ghost node: RbNode<E>,
                            ghost d: Ctx<E>, ghost r: Tree<E>) returns (child2: RbNode?<E>)
    requires Seg(d, child, node, successor) && d.Step? && d.side.Left? && parent == d.node && CtxDistinct(d)
    requires Rep(r, successor.right, successor) && successor !in CtxNodes(d)
    requires successor !in Nodes(r) && CtxNodes(d) !! Nodes(r)
    modifies CtxNodes(d), successor
    ensures Seg(d, successor.right, successor, child2) && Rep(r, child2, successor)
    ensures child2 == old(successor.right) && successor.black == old(successor.black)
  {
    CtxAllocated(d); TreeAllocated(r);
    TopInside(d, child, node, successor);
    child2 := successor.right;
    parent.left := child2;
    assert Seg(d, child, node, child2);
    successor.right := child;
    assert Seg(d, child, node, child2);
    HangCtx(child, successor, d, node, child2);
  }

  lemma TopInside<E>(d: Ctx<E>, x: RbNode<E>, q: RbNode?<E>, y: RbNode?<E>)
    requires Seg(d, x, q, y) && d.Step? && CtxDistinct(d)
    ensures x in CtxNodes(d)
  {
    var e, s, sib := SplitTop(d, x, q, y);
  }

  /** Finds the successor in node's right subtree r and, in case 3, detaches it. */
  method IsolateSuccessor<E>(child: RbNode<E>, ghost node: RbNode<E>, ghost r: Tree<E>)
      returns (parent: RbNode<E>, successor: RbNode<E>, child2: RbNode?<E>, ghost d: Ctx<E>, ghost u: Tree<E>)
    requires Rep(r, child, node) && Distinct(r)
    modifies Nodes(r)
    ensures Plug(d, u) == r && LeftPath(d) && u.Node? && u.left.Leaf?
    ensures u.node == successor && u.black == successor.black
    ensures Seg(d, successor.right, successor, child2)
    ensures Rep(u.right, child2, successor) && parent == Bottom(d, successor)
  {
    successor, parent := child, child;
    d, u := Top, r;
    if child.left == null {
      child2 := successor.right;
    } else {
      parent, successor, d, u := Leftmost(child, r, node);
      PlugContents(d, u);
      RepRoot(u, successor, parent);
      child2 := DetachSuccessor(child, parent, successor, node, d, u.right);
    }
  }

  /** Cases 2 and 3: node has two children. */
  method UnlinkInner<E>(node: RbNode<E>, child: RbNode<E>, root: RbRoot<E>, ghost c: Ctx<E>, ghost t: Tree<E>,
                        ghost h: nat)
      returns (rebalance: RbNode?<E>, ghost hole: Ctx<E>, ghost res: Tree<E>)
    requires SplitAt(root, c, t, node, h) && t.left.Node? && t.right.Node? && child == t.right.node
    modifies root, CtxNodes(c), Nodes(t)
    ensures Unlinked(root, rebalance, hole, res, Around(c, Inorder(t.left) + Inorder(t.right)))
    ensures rebalance != null ==> CtxNodes(hole) <= CtxNodes(c) + Nodes(t)
  {
    hide Rep, Nodes, Distinct, Seg, CtxNodes, CtxDistinct, Around, Graft, Rb, CtxRb;
    RepRoot(t, node, Bottom(c, null));
    Kids(t, node, node.parent, Right);
    RepRoot(t.right, node.right, node);
    SepByOrder(c, t);
    OrderMinus(c, t.left, node, t.right);
    CtxAllocated(c); TreeAllocated(t.left);
    var parent, successor, child2;
    ghost var d, u;
    parent, successor, child2, d, u := IsolateSuccessor(child, node, t.right);
    SuccessorFacts(c, t, h, d, u);
    GraftTree(d, Step(c, Right, successor, t.black, t.left), u.right);
    rebalance := ReplaceBySuccessor(node, successor, parent, child2, root, c, t.left, d, u.right);
    hole := Graft(d, Step(c, Right, successor, t.black, t.left));
    res := if u.right.Leaf? then u.right else u.right.(black := true);
    SepByOrder(hole, res);
    Settle(root, rebalance, hole, res, u, child2);
    if rebalance == null {
      res := CloseAny(root, hole, res, child2, if u.right.Leaf? then 0 else 1);
    }
  }

  /** The successor's old place needs rebalancing only if a black leaf-most node left it. */
  lemma Settle<E>(root: RbRoot<E>, rebalance: RbNode?<E>, hole: Ctx<E>, k: Tree<E>, u: Tree<E>, child2: RbNode?<E>)
    requires At(root, hole, k, child2) && u.Node? && k == if u.right.Leaf? then u.right else u.right.(black := true)
    requires hole.Step?
    ensures child2 == null <==> u.right.Leaf?
    ensures u.right.Leaf? ==> At(root, hole, Leaf, null) && Inorder(k) == [] && Rb(k, 0)
  {
  }

  // ------------------------------------------------------------- rb_erase

  lemma MinusAround<E>(c: Ctx<E>, l: Tree<E>, n: RbNode<E>, r: Tree<E>)
    requires NoDup(Around(c, Inorder(l) + [n] + Inorder(r)))
    ensures Around(c, Inorder(l) + Inorder(r)) == Minus(Around(c, Inorder(l) + [n] + Inorder(r)), n)
  {
    hide NoDup, Minus, Around, Inorder, Before, After;
    AroundIs(c, Inorder(l) + [n] + Inorder(r));
    AroundIs(c, Inorder(l) + Inorder(r));
    MinusMiddle(Before(c), Inorder(l), n, Inorder(r), After(c));
  }

  /** __rb_erase_augmented: takes node out and returns where to rebalance. */
  method Unlink<E>(node: RbNode<E>, root: RbRoot<E>, ghost c: Ctx<E>, ghost t: Tree<E>, ghost h: nat)
      returns (rebalance: RbNode?<E>, ghost hole: Ctx<E>, ghost res: Tree<E>)
    requires SplitAt(root, c, t, node, h)
    modifies root, CtxNodes(c), Nodes(t)
    ensures Unlinked(root, rebalance, hole, res, Around(c, Inorder(t.left) + Inorder(t.right)))
    ensures rebalance != null ==> CtxNodes(hole) <= CtxNodes(c) + Nodes(t)
  {
    hide Nodes, Distinct, Seg, CtxNodes, CtxDistinct, Around, Rb, CtxRb;
    var child, tmp := node.right, node.left;
    RepRoot(t, node, Bottom(c, null));
    RepRoot(t.left, tmp, node);
    RepRoot(t.right, child, node);
    hole := c;
    if tmp == null {
      rebalance, res := SpliceOut(node, child, root, Left, c, t, h);
    } else if child == null {
      rebalance, res := SpliceOut(node, tmp, root, Right, c, t, h);
    } else {
      rebalance, hole, res := UnlinkInner(node, child, root, c, t, h);
    }
  }

  /** rb_erase. */
  method Erase<E>(node: RbNode<E>, root: RbRoot<E>, ghost t: Tree<E>) returns (ghost res: Tree<E>)
    requires Holds(root, t) && node in Nodes(t)
    modifies root, Nodes(t)
    ensures Holds(root, res) && Inorder(res) == Minus(Inorder(t), node)
  {
    ghost var c, u := Focus(t, node, Top);
    ghost var x, h := Open(root, c, u);
    assert x == node;
    SepByOrder(c, u);
    MinusAround(c, u.left, node, u.right);
    var rebalance;
    ghost var hole;
    rebalance, hole, res := Unlink(node, root, c, u, h);
    if rebalance != null {
      res := EraseColor(rebalance, root, hole);
    }
  }
}
