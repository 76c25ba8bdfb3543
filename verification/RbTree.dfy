/** The node heap of src/utils/krb.c and the two shapes its proofs use:
    a functional tree for the subtree below a pointer, and a context for
    everything above it. */
module RbTree {

  datatype Side = Left | Right
  {
    function Other(): Side { if Left? then Right else Left }
  }

  /** struct rb_node. `black` is the low bit of __rb_parent_color and `parent`
      the remaining bits; `entry` is the structure the node is embedded in. */
  class RbNode<E> {
    var parent: RbNode?<E>
    var black: bool
    var left: RbNode?<E>
    var right: RbNode?<E>
    const entry: E

    constructor (e: E)
      ensures entry == e && parent == null && left == null && right == null && !black
    {
      entry := e;
      parent, black, left, right := null, false, null, null;
    }

    function Kid(s: Side): RbNode?<E>
      reads this
    {
      if s.Left? then left else right
    }
  }

  /** struct rb_root. */
  class RbRoot<E> {
    var node: RbNode?<E>

    constructor ()
      ensures node == null
    {
      node := null;
    }
  }

  // ---------------------------------------------------------------- trees

  datatype Tree<!E> = Leaf | Node(left: Tree<E>, node: RbNode<E>, black: bool, right: Tree<E>)

  /** The tree whose `s` child is `a` and whose other child is `b`. */
  ghost function Mk<E>(s: Side, a: Tree<E>, n: RbNode<E>, black: bool, b: Tree<E>): Tree<E> {
    if s.Left? then Node(a, n, black, b) else Node(b, n, black, a)
  }

  ghost function Sub<E>(t: Tree<E>, s: Side): Tree<E>
    requires t.Node?
  {
    if s.Left? then t.left else t.right
  }

  ghost function Nodes<E>(t: Tree<E>): set<RbNode<E>> {
    match t
    case Leaf => {}
    case Node(l, n, _, r) => Nodes(l) + {n} + Nodes(r)
  }

  ghost function Inorder<E>(t: Tree<E>): seq<RbNode<E>> {
    match t
    case Leaf => []
    case Node(l, n, _, r) => Inorder(l) + [n] + Inorder(r)
  }

  ghost predicate Distinct<E>(t: Tree<E>) {
    match t
    case Leaf => true
    case Node(l, n, _, r) =>
      && n !in Nodes(l) && n !in Nodes(r) && Nodes(l) !! Nodes(r)
      && Distinct(l) && Distinct(r)
  }

  ghost predicate IsRed<E>(t: Tree<E>) {
    t.Node? && !t.black
  }

  /** No red node has a red child and every path to a leaf crosses h black nodes. */
  ghost predicate Rb<E>(t: Tree<E>, h: nat) {
    match t
    case Leaf => h == 0
    case Node(l, _, true, r) => h > 0 && Rb(l, h - 1) && Rb(r, h - 1)
    case Node(l, _, false, r) => !IsRed(l) && !IsRed(r) && Rb(l, h) && Rb(r, h)
  }

  /** The heap below pointer x, whose parent pointer is q, is exactly t. */
  ghost predicate Rep<E>(t: Tree<E>, x: RbNode?<E>, q: RbNode?<E>)
    reads Nodes(t)
  {
    match t
    case Leaf => x == null
    case Node(l, n, b, r) =>
      && x == n && n.parent == q && n.black == b
      && Rep(l, n.left, n) && Rep(r, n.right, n)
  }

  // ------------------------------------------------------------- contexts

  /** A tree with a hole, read from the hole upwards: the hole is the `side`
      child of `node`, whose other child is `sib`. */
  datatype Ctx<!E> = Top | Step(up: Ctx<E>, side: Side, node: RbNode<E>, black: bool, sib: Tree<E>)

  ghost function Plug<E>(c: Ctx<E>, t: Tree<E>): Tree<E> {
    match c
    case Top => t
    case Step(up, s, n, b, sib) => Plug(up, Mk(s, t, n, b, sib))
  }

  ghost function CtxNodes<E>(c: Ctx<E>): set<RbNode<E>> {
    match c
    case Top => {}
    case Step(up, _, n, _, sib) => CtxNodes(up) + {n} + Nodes(sib)
  }

  /** The node the hole hangs from; q when the context is empty. */
  ghost function Bottom<E>(c: Ctx<E>, q: RbNode?<E>): RbNode?<E> {
    if c.Top? then q else c.node
  }

  /** The in-order sequence of a plugged context whose hole holds s. */
  ghost function Around<E>(c: Ctx<E>, s: seq<RbNode<E>>): seq<RbNode<E>> {
    match c
    case Top => s
    case Step(up, Left, n, _, sib) => Around(up, s + [n] + Inorder(sib))
    case Step(up, Right, n, _, sib) => Around(up, Inorder(sib) + [n] + s)
  }

  ghost predicate CtxDistinct<E>(c: Ctx<E>) {
    match c
    case Top => true
    case Step(up, _, n, _, sib) =>
      && n !in CtxNodes(up) && n !in Nodes(sib) && CtxNodes(up) !! Nodes(sib)
      && Distinct(sib) && CtxDistinct(up)
  }

  /** Plugging a tree with a black (or empty) root and black height h yields a
      red-black tree with a black root. */
  ghost predicate CtxRb<E>(c: Ctx<E>, h: nat) {
    match c
    case Top => true
    case Step(up, _, _, true, sib) => Rb(sib, h) && CtxRb(up, h + 1)
    case Step(up, _, _, false, sib) =>
      Rb(sib, h) && !IsRed(sib) && up.Step? && up.black && CtxRb(up, h)
  }

  /** The heap between pointer x (whose parent pointer is q) and the hole pointer
      y is exactly c. */
  ghost predicate Seg<E>(c: Ctx<E>, x: RbNode?<E>, q: RbNode?<E>, y: RbNode?<E>)
    reads CtxNodes(c)
  {
    match c
    case Top => x == y
    case Step(up, s, n, b, sib) =>
      && n.Kid(s) == y && n.black == b && n.parent == Bottom(up, q)
      && Rep(sib, n.Kid(s.Other()), n)
      && Seg(up, x, q, n)
  }

  /** The pieces of a split share no node. */
  ghost predicate Sep<E>(c: Ctx<E>, t: Tree<E>) {
    CtxDistinct(c) && Distinct(t) && CtxNodes(c) !! Nodes(t)
  }

  /** The whole heap under root, split at pointer x into context c and subtree t. */
  ghost predicate At<E>(root: RbRoot<E>, c: Ctx<E>, t: Tree<E>, x: RbNode?<E>)
    reads root, CtxNodes(c), Nodes(t)
  {
    Seg(c, root.node, null, x) && Rep(t, x, Bottom(c, null))
  }

  /** root holds the red-black tree t: black root, no red-red edge, equal black
      heights, parent pointers that mirror the child pointers, no sharing. */
  ghost predicate Holds<E>(root: RbRoot<E>, t: Tree<E>)
    reads root, Nodes(t)
  {
    Rep(t, root.node, null) && Distinct(t) && !IsRed(t) && exists h: nat :: Rb(t, h)
  }
}
