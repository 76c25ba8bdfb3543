/** rb_first, rb_last, rb_next, rb_prev and rb_replace_node (src/utils/krb.c), and
    the height of a red-black tree. Forward and backward walks are one walk, whose
    side is Right for rb_next and Left for rb_prev. */
module RbWalk {
  import opened RbTree
  import opened Seqs
  import opened RbPlug
  import opened RbInsert

  /** The outermost node of t on side s. */
  ghost function End<E>(t: Tree<E>, s: Side): RbNode<E>
    requires t.Node?
  {
    if Sub(t, s).Leaf? then t.node else End(Sub(t, s), s)
  }

  lemma {:induction false} EndOrder<E>(t: Tree<E>, s: Side)
    requires t.Node?
    ensures End(t, s) in Nodes(t) && |Inorder(t)| > 0
    ensures End(t, s) == Inorder(t)[if s.Left? then 0 else |Inorder(t)| - 1]
  {
    if Sub(t, s).Node? {
      EndOrder(Sub(t, s), s);
    }
  }

  /** The descent shared by rb_first, rb_last, rb_next and rb_prev. */
  method Descend<E>(start: RbNode<E>, s: Side, ghost t: Tree<E>, ghost q: RbNode?<E>) returns (n: RbNode<E>)
    requires Rep(t, start, q)
    ensures n == End(t, s)
  {
    n := start;
    ghost var u, p := t, q;
    while n.Kid(s) != null
      invariant Rep(u, n, p) && End(u, s) == End(t, s)
      decreases u
    {
      u, p := Sub(u, s), n;
      n := n.Kid(s);
    }
  }

  /** rb_first (s is Left) and rb_last (s is Right). */
  method Outermost<E>(root: RbRoot<E>, s: Side, ghost t: Tree<E>) returns (n: RbNode?<E>)
    requires Holds(root, t)
    ensures n == null <==> Inorder(t) == []
    ensures n != null ==> n == Inorder(t)[if s.Left? then 0 else |Inorder(t)| - 1]
  {
    if root.node == null {
      return null;
    }
    EndOrder(t, s);
    n := Descend(root.node, s, t, null);
  }

  /** What stands next to position i on side s, null if nothing does. */
  ghost function Beyond<E>(order: seq<RbNode<E>>, i: nat, s: Side): RbNode?<E>
    requires i < |order|
  {
    if s.Right? then (if i + 1 < |order| then order[i + 1] else null)
    else (if i > 0 then order[i - 1] else null)
  }

  /** y is the neighbour of x on side s in order, null if there is none. */
  ghost predicate Adjacent<E>(order: seq<RbNode<E>>, x: RbNode<E>, y: RbNode?<E>, s: Side) {
    exists i :: 0 <= i < |order| && order[i] == x && y == Beyond(order, i, s)
  }

  /** The last node of the piece `mid` on side s has its neighbour just outside. */
  ghost predicate Edge<E>(mid: seq<RbNode<E>>, x: RbNode<E>, s: Side) {
    mid != [] && x == mid[if s.Left? then 0 else |mid| - 1]
  }

  /** mid and rest side by side, rest on side s of mid. */
  ghost function Beside<A>(s: Side, mid: seq<A>, rest: seq<A>): seq<A> {
    if s.Right? then mid + rest else rest + mid
  }

  lemma AdjacentAround<E>(c: Ctx<E>, mid: seq<RbNode<E>>, rest: seq<RbNode<E>>, x: RbNode<E>, y: RbNode<E>, s: Side)
    requires Edge(mid, x, s) && Edge(rest, y, s.Other())
    ensures Adjacent(Around(c, Beside(s, mid, rest)), x, y, s)
  {
    var a, b := Before(c), After(c);
    var order := Around(c, Beside(s, mid, rest));
    AroundIs(c, Beside(s, mid, rest));
    if s.Right? {
      var i := |a| + |mid| - 1;
      assert order[i] == x && Beyond(order, i, s) == y;
    } else {
      var i := |a| + |rest|;
      assert order[i] == x && Beyond(order, i, s) == y;
    }
  }

  lemma SideOfNode<E>(root: RbRoot<E>, c: Ctx<E>, t: Tree<E>, x: RbNode<E>, s: Side)
    requires At(root, c, t, x) && Sep(c, t) && c.Step? && t.Node? && t.node == x
    ensures c.node.Kid(s) == x <==> c.side == s
    ensures c.node.parent == Bottom(c.up, null)
  {
  }

  lemma FrameAround<E>(c: Ctx<E>, mid: seq<RbNode<E>>, s: Side)
    requires c.Step?
    ensures c.side == s ==> Around(c, mid) == Around(c.up, Beside(s, Beside(s, Inorder(c.sib), [c.node]), mid))
    ensures c.side != s ==> Around(c, mid) == Around(c.up, Beside(s, mid, Beside(s, [c.node], Inorder(c.sib))))
  {
    assert mid + [c.node] + Inorder(c.sib) == mid + ([c.node] + Inorder(c.sib));
  }

  lemma EdgeBeside<E>(s: Side, front: seq<RbNode<E>>, mid: seq<RbNode<E>>, x: RbNode<E>)
    requires Edge(mid, x, s)
    ensures Edge(Beside(s, front, mid), x, s)
  {
  }

  lemma EdgeFront<E>(s: Side, x: RbNode<E>, rest: seq<RbNode<E>>)
    ensures Edge(Beside(s, [x], rest), x, s.Other())
  {
  }

  /** Climbing one frame: what was passed is on the far side, or the frame's node
      is the neighbour. */
  lemma Climb<E>(c: Ctx<E>, mid: seq<RbNode<E>>, x: RbNode<E>, s: Side)
    requires c.Step? && Edge(mid, x, s)
    ensures c.side == s ==>
      var m := Beside(s, Beside(s, Inorder(c.sib), [c.node]), mid);
      Around(c, mid) == Around(c.up, m) && Edge(m, x, s)
    ensures c.side != s ==> Adjacent(Around(c, mid), x, c.node, s)
  {
    hide Around, Beside, Edge, Adjacent, Inorder;
    FrameAround(c, mid, s);
    if c.side == s {
      EdgeBeside(s, Beside(s, Inorder(c.sib), [c.node]), mid, x);
    } else {
      EdgeFront(s, c.node, Inorder(c.sib));
      AdjacentAround(c.up, mid, Beside(s, [c.node], Inorder(c.sib)), x, c.node, s);
    }
  }

  /** A node's own subtree on side s holds its neighbour. */
  lemma {:induction false} BelowNode<E>(c: Ctx<E>, u: Tree<E>, s: Side)
    requires u.Node?
    ensures if Sub(u, s).Node? then Adjacent(Around(c, Inorder(u)), u.node, End(Sub(u, s), s.Other()), s)
      else Edge(Inorder(u), u.node, s)
  {
    hide Around, Adjacent;
    if Sub(u, s).Node? {
      EndOrder(Sub(u, s), s.Other());
      var mid := Beside(s, Inorder(Sub(u, s.Other())), [u.node]);
      AdjacentAround(c, mid, Inorder(Sub(u, s)), u.node, End(Sub(u, s), s.Other()), s);
      assert Inorder(u) == Beside(s, mid, Inorder(Sub(u, s))) by {
        if s.Left? {
          assert Inorder(u.left) + [u.node] + Inorder(u.right) == Inorder(u.left) + ([u.node] + Inorder(u.right));
        }
      }
    }
  }

  /** rb_next (s is Right) and rb_prev (s is Left) on a linked node. */
  method Neighbour<E>(node0: RbNode<E>, s: Side, ghost root: RbRoot<E>, ghost t: Tree<E>) returns (y: RbNode?<E>)
    requires Holds(root, t) && node0 in Nodes(t)
    ensures Adjacent(Inorder(t), node0, y, s)
  {
    hide Rep, Seg, Nodes, CtxNodes, Distinct, CtxDistinct, Inorder, Around, Adjacent;
    ghost var c, u := Focus(t, node0, Top);
    PlugTop(u, c, t);
    ghost var x, h := Open(root, c, u);
    RepRoot(u, x, Bottom(c, null));
    Kids(u, node0, Bottom(c, null), s);
    RepRoot(Sub(u, s), node0.Kid(s), node0);
    BelowNode(c, u, s);
    if node0.Kid(s) != null {
      y := Descend(node0.Kid(s), s.Other(), Sub(u, s), node0);
      return;
    }
    var node := node0;
    var parent := node.parent;
    ghost var mid := Inorder(u);
    while parent != null && node == parent.Kid(s)
      invariant At(root, c, u, node) && Sep(c, u) && u.Node? && u.node == node && parent == Bottom(c, null)
      invariant Edge(mid, node0, s) && Around(c, mid) == Inorder(t)
      decreases c
    {
      SideOfNode(root, c, u, node, s);
      Climb(c, mid, node0, s);
      SepByOrder(c, u);
      Zip(root, c, u, node);
      mid := Beside(s, Beside(s, Inorder(c.sib), [c.node]), mid);
      u := Mk(c.side, u, c.node, c.black, c.sib);
      c := c.up;
      SepByOrder(c, u);
      node := parent;
      parent := node.parent;
    }
    y := parent;
    if parent != null {
      SideOfNode(root, c, u, node, s);
      Climb(c, mid, node0, s);
    } else {
      TopEdge(c, mid, node0, s);
    }
  }

  lemma PlugTop<E>(u: Tree<E>, c: Ctx<E>, t: Tree<E>)
    requires Plug(c, u) == Plug(Top, t)
    ensures Plug(c, u) == t
  {
  }

  lemma TopEdge<E>(c: Ctx<E>, mid: seq<RbNode<E>>, x: RbNode<E>, s: Side)
    requires c.Top? && Edge(mid, x, s)
    ensures Adjacent(Around(c, mid), x, null, s)
  {
    var i := if s.Left? then 0 else |mid| - 1;
    assert mid[i] == x && Beyond(mid, i, s) == null;
  }

  /** *x = *y, for the embedded node only. */
  method Copy<E>(y: RbNode<E>, x: RbNode<E>)
    requires x != y
    modifies x
    ensures x.parent == y.parent && x.black == y.black && x.left == y.left && x.right == y.right
  {
    x.parent, x.black, x.left, x.right := y.parent, y.black, y.left, y.right;
  }

  /** The heap half of rb_replace_node. */
  method TakePlace<E>(victim: RbNode<E>, newNode: RbNode<E>, root: RbRoot<E>, ghost c: Ctx<E>, ghost t: Tree<E>)
    requires t.Node? && t.node == victim && At(root, c, t, victim) && Sep(c, t)
    requires newNode !in CtxNodes(c) && newNode !in Nodes(t)
    modifies root, CtxNodes(c), Nodes(t), newNode
    ensures At(root, c, t.(node := newNode), newNode)
  {
    hide Seg, CtxNodes, CtxDistinct, Nodes, Rep, Distinct;
    RepRoot(t, victim, Bottom(c, null));
    Kids(t, victim, victim.parent, Left);
    RepRoot(t.left, victim.left, victim);
    RepRoot(t.right, victim.right, victim);
    BottomInside(c);
    CtxAllocated(c); TreeAllocated(t.left); TreeAllocated(t.right);
    var parent := victim.parent;
    ChangeChild(victim, newNode, parent, root, c);
    assert Rep(t.left, victim.left, victim) && Rep(t.right, victim.right, victim);
    Adopt(victim.left, newNode, t.left, victim);
    assert Seg(c, root.node, null, newNode) && Rep(t.right, victim.right, victim);
    Adopt(victim.right, newNode, t.right, victim);
    assert Seg(c, root.node, null, newNode) && Rep(t.left, victim.left, newNode);
    Copy(victim, newNode);
    MkRep(Left, t.left, newNode, t.right);
  }

  /** s with every x replaced by y. */
  ghost function Subst<A>(s: seq<A>, x: A, y: A): seq<A> {
    seq(|s|, i requires 0 <= i < |s| => if s[i] == x then y else s[i])
  }

  lemma {:induction false} SubstMiddle<E>(c: Ctx<E>, t: Tree<E>, y: RbNode<E>)
    requires t.Node? && NoDup(Around(c, Inorder(t)))
    requires y !in Around(c, Inorder(t))
    ensures Around(c, Inorder(t.(node := y))) == Subst(Around(c, Inorder(t)), t.node, y)
    ensures NoDup(Around(c, Inorder(t.(node := y))))
  {
    hide Around, NoDup, Subst, Before, After;
    AroundIs(c, Inorder(t));
    AroundIs(c, Inorder(t.(node := y)));
    Regroup(Before(c), Inorder(t.left), t.node, Inorder(t.right), After(c));
    Regroup(Before(c), Inorder(t.left), y, Inorder(t.right), After(c));
    SubstOne(Before(c) + Inorder(t.left), t.node, Inorder(t.right) + After(c), y);
  }

  lemma {:induction false} Regroup<A>(a: seq<A>, b: seq<A>, x: A, d: seq<A>, e: seq<A>)
    ensures a + (b + [x] + d) + e == (a + b) + [x] + (d + e)
  {
  }

  lemma {:induction false} SubstOne<A>(a: seq<A>, x: A, b: seq<A>, y: A)
    requires NoDup(a + [x] + b) && y !in a + [x] + b
    ensures Subst(a + [x] + b, x, y) == a + [y] + b && NoDup(a + [y] + b)
  {
    var s, t := a + [x] + b, a + [y] + b;
    assert s[|a|] == x;
    forall i | 0 <= i < |s| && i != |a| ensures s[i] != x && t[i] == s[i] && t[i] != y {
    }
  }

  /** rb_replace_node: newNode takes victim's place, with no other change of order. */
  method ReplaceNode<E>(victim: RbNode<E>, newNode: RbNode<E>, root: RbRoot<E>, ghost t: Tree<E>)
      returns (ghost res: Tree<E>)
    requires Holds(root, t) && victim in Nodes(t) && newNode !in Nodes(t)
    modifies root, Nodes(t), newNode
    ensures Holds(root, res) && Inorder(res) == Subst(Inorder(t), victim, newNode)
  {
    ghost var c, u := Focus(t, victim, Top);
    PlugTop(u, c, t);
    ghost var x, h := Open(root, c, u);
    RepRoot(u, x, Bottom(c, null));
    SepByOrder(c, u);
    SubstMiddle(c, u, newNode);
    TakePlace(victim, newNode, root, c, u);
    res := u.(node := newNode);
    SepByOrder(c, res);
    res := CloseAny(root, c, res, newNode, h);
  }

  // ---------------------------------------------------------------- height

  ghost function Height<E>(t: Tree<E>): nat {
    if t.Leaf? then 0 else 1 + if Height(t.left) > Height(t.right) then Height(t.left) else Height(t.right)
  }

  ghost function Pow2(n: nat): nat {
    if n == 0 then 1 else 2 * Pow2(n - 1)
  }

  lemma {:induction false} Heights<E>(t: Tree<E>, h: nat)
    requires Rb(t, h)
    ensures Height(t) <= 2 * h + (if IsRed(t) then 1 else 0)
    ensures Pow2(h) <= |Inorder(t)| + 1
  {
    if t.Node? {
      var k := if t.black then h - 1 else h;
      Heights(t.left, k);
      Heights(t.right, k);
    }
  }

  lemma {:induction false} Pow2Sum(a: nat, b: nat)
    ensures Pow2(a + b) == Pow2(a) * Pow2(b)
  {
    if a > 0 {
      Pow2Sum(a - 1, b);
      assert Pow2(a + b) == 2 * (Pow2(a - 1) * Pow2(b));
    }
  }

  lemma {:induction false} Pow2Mono(a: nat, b: nat)
    requires a <= b
    ensures Pow2(a) <= Pow2(b)
  {
    if a < b {
      Pow2Mono(a, b - 1);
    }
  }

  lemma Squares(p: nat, n: nat)
    requires p <= n
    ensures p * p <= n * n
  {
    assert p * p <= p * n;
    assert p * n <= n * n;
  }

  /** The height is at most twice the binary logarithm of the node count plus one. */
  lemma Logarithmic<E>(root: RbRoot<E>, t: Tree<E>)
    requires Holds(root, t)
    ensures Pow2(Height(t)) <= (|Inorder(t)| + 1) * (|Inorder(t)| + 1)
  {
    var h: nat :| Rb(t, h);
    Heights(t, h);
    Pow2Mono(Height(t), 2 * h);
    Pow2Sum(h, h);
    Squares(Pow2(h), |Inorder(t)| + 1);
  }
}
