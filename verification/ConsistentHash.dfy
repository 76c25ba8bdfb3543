/** src/utils/consistent_hash.c: keys spread over virtual nodes that are kept both in
    a list and in a tree ordered by digest. */
module ConsistentHash {
  import opened RbTree
  import opened Seqs
  import opened RbPlug
  import opened StrRb

  const VNODES := 100

  /** struct conhash_entry; `node` is the embedded tree node, whose key is the digest. */
  class Entry {
    const key: Key
    const owner: int
    const vno: nat
    const node: RbNode<Key>

    constructor (key: Key, owner: int, vno: nat, digest: Key)
      ensures this.key == key && this.owner == owner && this.vno == vno && fresh(node) && node.entry == digest
    {
      this.key, this.owner, this.vno := key, owner, vno;
      node := new RbNode(digest);
    }
  }

  /** What a key was added with. */
  datatype Member = Member(key: Key, owner: int)

  datatype VNode = VNode(key: Key, owner: int, vno: nat)

  ghost function Blocks(m: Member, n: nat): (s: seq<VNode>)
    ensures |s| == n
  {
    seq(n, i requires 0 <= i < n => VNode(m.key, m.owner, i))
  }

  /** The list a set of members gives rise to: all virtual nodes of each. */
  ghost function Expand(ms: seq<Member>): seq<VNode> {
    if ms == [] then [] else Blocks(ms[0], VNODES) + Expand(ms[1..])
  }

  ghost function Image(l: seq<Entry>): (s: seq<VNode>)
    ensures |s| == |l|
  {
    seq(|l|, i requires 0 <= i < |l| => VNode(l[i].key, l[i].owner, l[i].vno))
  }

  ghost function NodeSeq(l: seq<Entry>): (s: seq<RbNode<Key>>)
    ensures |s| == |l|
  {
    seq(|l|, i requires 0 <= i < |l| => l[i].node)
  }

  lemma ImageConcat(a: seq<Entry>, b: seq<Entry>)
    ensures Image(a + b) == Image(a) + Image(b) && NodeSeq(a + b) == NodeSeq(a) + NodeSeq(b)
  {
  }

  // --------------------------------------------------- dropping one key

  ghost function Drop(s: seq<VNode>, key: Key): seq<VNode> {
    if s == [] then [] else (if s[0].key == key then [] else [s[0]]) + Drop(s[1..], key)
  }

  ghost function Without(ms: seq<Member>, key: Key): seq<Member> {
    if ms == [] then [] else (if ms[0].key == key then [] else [ms[0]]) + Without(ms[1..], key)
  }

  /** The members that stay are those with another key, in their order. */
  lemma {:induction false} WithoutIs(ms: seq<Member>, key: Key)
    ensures forall m :: m in Without(ms, key) <==> m in ms && m.key != key
    ensures forall i :: 0 <= i <= |ms| ==> Without(ms, key) == Without(ms[..i], key) + Without(ms[i..], key)
  {
    forall i | 0 <= i <= |ms| ensures Without(ms, key) == Without(ms[..i], key) + Without(ms[i..], key) {
      WithoutConcat(ms[..i], ms[i..], key);
      assert ms[..i] + ms[i..] == ms;
    }
    WithoutHas(ms, key);
  }

  lemma {:induction false} WithoutHas(ms: seq<Member>, key: Key)
    ensures forall m :: m in Without(ms, key) <==> m in ms && m.key != key
  {
    if ms != [] {
      WithoutHas(ms[1..], key);
      assert forall m :: m in ms <==> m == ms[0] || m in ms[1..];
    }
  }

  lemma {:induction false} WithoutConcat(a: seq<Member>, b: seq<Member>, key: Key)
    ensures Without(a + b, key) == Without(a, key) + Without(b, key)
  {
    if a == [] {
      assert a + b == b;
    } else {
      assert (a + b)[1..] == a[1..] + b;
      WithoutConcat(a[1..], b, key);
    }
  }

  lemma {:induction false} DropConcat(s: seq<VNode>, t: seq<VNode>, key: Key)
    ensures Drop(s + t, key) == Drop(s, key) + Drop(t, key)
  {
    if s == [] {
      assert s + t == t;
    } else {
      assert (s + t)[1..] == s[1..] + t;
      DropConcat(s[1..], t, key);
    }
  }

  lemma {:induction false} DropUniform(s: seq<VNode>, k: Key, key: Key)
    requires forall i :: 0 <= i < |s| ==> s[i].key == k
    ensures Drop(s, key) == if k == key then [] else s
  {
    if s != [] {
      DropUniform(s[1..], k, key);
      assert s == [s[0]] + s[1..];
    }
  }

  /** Dropping a key's entries removes whole members. */
  lemma {:induction false} DropExpand(ms: seq<Member>, key: Key)
    ensures Drop(Expand(ms), key) == Expand(Without(ms, key))
  {
    if ms != [] {
      DropConcat(Blocks(ms[0], VNODES), Expand(ms[1..]), key);
      DropUniform(Blocks(ms[0], VNODES), ms[0].key, key);
      DropExpand(ms[1..], key);
      assert ms[0].key == key ==> Without(ms, key) == Without(ms[1..], key);
      assert ([ms[0]] + Without(ms[1..], key))[1..] == Without(ms[1..], key);
    }
  }

  lemma {:induction false} MemberListed(ms: seq<Member>, m: Member)
    requires m in ms
    ensures VNode(m.key, m.owner, 0) in Expand(ms)
  {
    if ms[0] == m {
      assert Blocks(m, VNODES)[0] == VNode(m.key, m.owner, 0);
    } else {
      MemberListed(ms[1..], m);
    }
  }

  // ------------------------------------------------- trees as sets of nodes

  /** A sorted sequence is determined by its elements. */
  lemma {:induction false} SortedUnique(s: seq<RbNode<Key>>, t: seq<RbNode<Key>>)
    requires Ascending(s) && Ascending(t) && Elems(s) == Elems(t)
    ensures s == t
  {
    if s == [] {
      NoElems(t);
    } else {
      assert s[0] in Elems(t) && t != [];
      assert t[0] in Elems(s);
      var i :| 0 <= i < |t| && t[i] == s[0];
      var j :| 0 <= j < |s| && s[j] == t[0];
      Trichotomy(s[0].entry, t[0].entry);
      assert s[0] == t[0];
      TailElems(s);
      TailElems(t);
      SortedUnique(s[1..], t[1..]);
    }
  }

  lemma NoElems<A>(t: seq<A>)
    ensures Elems(t) == {} <==> t == []
    ensures NoDup<A>([])
  {
    if t != [] {
      assert t[0] in Elems(t);
    }
  }

  lemma TailElems(s: seq<RbNode<Key>>)
    requires Ascending(s) && s != []
    ensures Elems(s[1..]) == Elems(s) - {s[0]} && Ascending(s[1..])
  {
    Trichotomy(s[0].entry, s[0].entry);
    forall k | 0 < k < |s| ensures s[k] != s[0] && s[k] == s[1..][k - 1] {
      Trichotomy(s[0].entry, s[k].entry);
    }
  }

  ghost predicate Digests(l: seq<Entry>, digest: (Key, nat, nat) -> Key) {
    forall e :: e in l ==> e.node.entry == digest(e.key, VNODES, e.vno)
  }

  /** Virtual node i of key finds its digest unused by s and by the ones before it. */
  ghost predicate Free(s: seq<RbNode<Key>>, key: Key, digest: (Key, nat, nat) -> Key, i: nat) {
    !Has(s, digest(key, VNODES, i)) && forall j :: 0 <= j < i ==> digest(key, VNODES, j) != digest(key, VNODES, i)
  }

  /** A key whose digests are all different, and none of which is in use, is accepted. */
  lemma FreshKey(s: seq<RbNode<Key>>, key: Key, digest: (Key, nat, nat) -> Key)
    requires forall i: nat :: i < 100 ==> !Has(s, digest(key, 100, i))
    requires forall i: nat, j: nat :: i < j < 100 ==> digest(key, 100, i) != digest(key, 100, j)
    ensures forall i :: 0 <= i < VNODES ==> Free(s, key, digest, i)
  {
  }

  /** Used digests, once `head` has been put into a tree that held s. */
  lemma HasGrown(s: seq<RbNode<Key>>, head: seq<Entry>, now: seq<RbNode<Key>>, key: Key, owner: int,
                 digest: (Key, nat, nat) -> Key)
    requires Elems(now) == Elems(s) + Elems(NodeSeq(head)) && Digests(head, digest)
    requires Image(head) == Blocks(Member(key, owner), |head|)
    ensures Has(now, digest(key, VNODES, |head|)) <==> !Free(s, key, digest, |head|)
  {
    var d := digest(key, VNODES, |head|);
    forall j | 0 <= j < |head| ensures head[j].node.entry == digest(key, VNODES, j) && head[j].node in Elems(now) {
      assert head[j] in head && Image(head)[j] == VNode(key, owner, j) && NodeSeq(head)[j] in Elems(NodeSeq(head));
    }
    if Has(now, d) {
      var i :| 0 <= i < |now| && now[i].entry == d;
      assert now[i] in Elems(now);
      if now[i] in Elems(s) {
        HasIt(s, now[i]);
      } else {
        var j :| 0 <= j < |head| && NodeSeq(head)[j] == now[i];
      }
    }
    if !Free(s, key, digest, |head|) {
      if Has(s, d) {
        var i :| 0 <= i < |s| && s[i].entry == d;
        assert s[i] in Elems(s) && s[i] in Elems(now);
        HasIt(now, s[i]);
      } else {
        var j :| 0 <= j < |head| && digest(key, VNODES, j) == d;
        HasIt(now, head[j].node);
      }
    }
  }

  /** struct consistent_hash. */
  class ConHash {
    const digest: (Key, nat, nat) -> Key
    const tree: StrTree
    var list: seq<Entry>
    ghost var members: seq<Member>

    /** The list and the tree hold the same entries, and the list consists of all
        virtual nodes of each member. */
    ghost predicate Valid()
      reads this, tree, tree.root, Nodes(tree.tree)
    {
      && tree.Valid() && Nodes(tree.tree) == Elems(NodeSeq(list)) && NoDup(NodeSeq(list))
      && Digests(list, digest) && Image(list) == Expand(members)
    }

    constructor (digest: (Key, nat, nat) -> Key)
      ensures Valid() && members == [] && this.digest == digest && fresh(tree) && fresh(tree.root)
    {
      this.digest, list, members := digest, [], [];
      tree := new StrTree();
    }

    /** consistent_hash_add: all virtual nodes or none. */
    method Add(key: Key, owner: int) returns (rc: int)
      requires Valid()
      modifies this, tree, tree.root, Nodes(tree.tree)
      ensures Valid()
      ensures rc == if forall i :: 0 <= i < VNODES ==> Free(old(tree.Contents()), key, digest, i) then 0 else -1
      ensures rc == 0 ==> members == [Member(key, owner)] + old(members) && tree.size == old(tree.size) + 100
      ensures rc == -1 ==> members == old(members) && list == old(list) && tree.Contents() == old(tree.Contents())
      ensures rc == -1 ==> tree.size == old(tree.size) + 1
    {
      hide Ascending, Has, NoDup, Nodes, Inorder, StrTree.Valid;
      ghost var was, nodes := tree.Contents(), Nodes(tree.tree);
      TreeElems(tree);
      NoElems<RbNode<Key>>([]);
      var head: seq<Entry> := [];
      var i := 0;
      while i < VNODES
        invariant 0 <= i <= VNODES && |head| == i
        invariant tree.Valid() && Nodes(tree.tree) == nodes + Elems(NodeSeq(head)) && NoDup(NodeSeq(head))
        invariant nodes !! Elems(NodeSeq(head)) && fresh(Elems(NodeSeq(head)))
        invariant list == old(list) && members == old(members) && Digests(head, digest)
        invariant Image(head) == Blocks(Member(key, owner), i)
        invariant tree.size == old(tree.size) + i && tree.rejected == old(tree.rejected)
        invariant forall j :: 0 <= j < i ==> Free(was, key, digest, j)
      {
        TreeAllocated(tree.tree);
        TreeElems(tree);
        HasGrown(was, head, tree.Contents(), key, owner, digest);
        var vce := new Entry(key, owner, i, digest(key, VNODES, i));
        var ok := tree.Insert(vce.node);
        if ok < 0 {
          break;
        }
        Appended(head, vce);
        head := head + [vce];
        i := i + 1;
      }
      if i == VNODES {
        Joined(head, list, Member(key, owner), members);
        ImageConcat(head, list);
        NoDupConcat(NodeSeq(head), NodeSeq(list));
        list := head + list;
        members := [Member(key, owner)] + members;
        return 0;
      }
      assert !Free(was, key, digest, i);
      Rollback(head);
      TreeElems(tree);
      SortedUnique(tree.Contents(), was);
      rc := -1;
    }

    /** The loop that takes the entries of `head` out of the tree again. */
    method Rollback(head: seq<Entry>)
      requires tree.Valid() && Elems(NodeSeq(head)) <= Nodes(tree.tree) && NoDup(NodeSeq(head))
      modifies tree, tree.root, Nodes(tree.tree)
      ensures tree.Valid() && Nodes(tree.tree) == old(Nodes(tree.tree)) - Elems(NodeSeq(head))
      ensures tree.size == old(tree.size) - |head| && tree.rejected == old(tree.rejected)
    {
      hide NoDup, Nodes, Inorder, StrTree.Valid;
      var k := 0;
      assert NodeSeq(head[..0]) == [];
      while k < |head|
        invariant 0 <= k <= |head| && tree.Valid()
        invariant Nodes(tree.tree) == old(Nodes(tree.tree)) - Elems(NodeSeq(head[..k]))
        invariant tree.size == old(tree.size) - k && tree.rejected == old(tree.rejected)
      {
        OneMore(head, k);
        tree.Delete(head[k].node);
        k := k + 1;
      }
      assert head[..k] == head;
    }

    /** consistent_hash_rm: all entries of the key leave both the list and the tree. */
    method Rm(key: Key) returns (rc: int)
      requires Valid()
      modifies this, tree, tree.root, Nodes(tree.tree)
      ensures Valid() && rc == 0
      ensures members == Without(old(members), key)
    {
      hide NoDup, Nodes, Inorder, StrTree.Valid, Expand, Without, Drop, Image, Minus;
      var all, kept := list, [];
      var i := 0;
      assert all[0..] == all;
      DropNothing(key);
      while i < |all|
        invariant 0 <= i <= |all| && list == kept + all[i..] && members == old(members)
        invariant tree.Valid() && Nodes(tree.tree) == Elems(NodeSeq(list)) && NoDup(NodeSeq(list))
        invariant Nodes(tree.tree) <= old(Nodes(tree.tree))
        invariant Digests(list, digest) && Drop(Image(all), key) == Image(kept) + Drop(Image(all[i..]), key)
      {
        var vce := all[i];
        OneOut(kept, all, i, key);
        if vce.key != key {
          kept := kept + [vce];
        } else {
          list := kept + all[i + 1..];
          tree.Delete(vce.node);
        }
        i := i + 1;
      }
      assert all[i..] == [] && list == kept;
      DropExpand(members, key);
      members := Without(members, key);
      rc := 0;
    }

    /** consistent_hash_get: searches with the raw key, not a digest, and answers with
        the owner of the node where that search ends. */
    method Get(key: Key) returns (found: bool, owner: int)
      requires Valid()
      ensures found <==> members != []
      ensures found ==> exists e ::
        && e in list && e.owner == owner && Member(e.key, e.owner) in members
        && Nearest(tree.Contents(), e.node, key) && (e.node.entry == key || Facing(e.node, key))
    {
      TreeElems(tree);
      EmptyExpand(members);
      var r := tree.FindLeaf(key);
      if r == null {
        NoElems(tree.Contents());
        NoElems(NodeSeq(list));
        return false, 0;
      }
      AtNode(r);
      var e :| e in list && e.node == r;
      Belongs(list, e, members);
      found, owner := true, e.owner;
    }

    /** cont_of: a node of the tree is embedded in an entry of the list. */
    lemma AtNode(r: RbNode<Key>)
      requires Valid()
      requires if Has(tree.Contents(), r.entry) then r in tree.Contents()
        else exists k :: NextToGap(tree.Contents(), r, k)
      ensures exists e :: e in list && e.node == r
    {
      TreeElems(tree);
      assert r in Elems(tree.Contents());
      var i :| 0 <= i < |list| && NodeSeq(list)[i] == r;
      assert list[i] in list && list[i].node == r;
    }
  }

  /** Where a search for `key` ends. */
  ghost predicate Nearest(s: seq<RbNode<Key>>, n: RbNode<Key>, key: Key) {
    if Has(s, key) then n.entry == key else NextToGap(s, n, key)
  }

  lemma TreeElems(t: StrTree)
    ensures Nodes(t.tree) == Elems(t.Contents())
    ensures t.Valid() ==> Ascending(t.Contents())
  {
    DistinctByOrder(t.tree);
  }

  lemma Appended(head: seq<Entry>, e: Entry)
    requires NoDup(NodeSeq(head)) && e.node !in Elems(NodeSeq(head))
    ensures NodeSeq(head + [e]) == NodeSeq(head) + [e.node] && NoDup(NodeSeq(head + [e]))
    ensures Elems(NodeSeq(head + [e])) == Elems(NodeSeq(head)) + {e.node}
    ensures Image(head + [e]) == Image(head) + [VNode(e.key, e.owner, e.vno)]
  {
    ImageConcat(head, [e]);
    NoDupConcat(NodeSeq(head), [e.node]);
  }

  lemma Joined(head: seq<Entry>, list: seq<Entry>, m: Member, ms: seq<Member>)
    requires Image(head) == Blocks(m, VNODES) && Image(list) == Expand(ms)
    ensures Image(head + list) == Expand([m] + ms)
  {
    ImageConcat(head, list);
    assert ([m] + ms)[1..] == ms;
  }

  lemma OneMore(head: seq<Entry>, k: nat)
    requires k < |head| && NoDup(NodeSeq(head))
    ensures Elems(NodeSeq(head[..k + 1])) == Elems(NodeSeq(head[..k])) + {head[k].node}
    ensures head[k].node !in Elems(NodeSeq(head[..k])) && head[k].node in Elems(NodeSeq(head))
  {
    assert head[..k + 1] == head[..k] + [head[k]] && NodeSeq(head)[k] == head[k].node;
    ImageConcat(head[..k], [head[k]]);
    assert NodeSeq([head[k]]) == [head[k].node];
    forall j | 0 <= j < k ensures NodeSeq(head[..k])[j] != head[k].node {
      assert NodeSeq(head)[j] == NodeSeq(head[..k])[j];
    }
  }

  lemma DropNothing(key: Key)
    ensures Drop([], key) == []
  {
  }

  lemma OneOut(kept: seq<Entry>, all: seq<Entry>, i: nat, key: Key)
    requires i < |all| && NoDup(NodeSeq(kept + all[i..]))
    ensures kept + all[i..] == kept + [all[i]] + all[i + 1..]
    ensures Elems(NodeSeq(kept + all[i..])) == Elems(NodeSeq(kept + all[i + 1..])) + {all[i].node}
    ensures NoDup(NodeSeq(kept + all[i + 1..])) && all[i].node !in Elems(NodeSeq(kept + all[i + 1..]))
    ensures Drop(Image(all[i..]), key) == (if all[i].key == key then [] else Image([all[i]]))
      + Drop(Image(all[i + 1..]), key)
    ensures Image(kept + [all[i]]) == Image(kept) + Image([all[i]])
  {
    var x, rest := all[i], all[i + 1..];
    assert all[i..] == [x] + rest;
    ImageConcat(kept, all[i..]);
    ImageConcat([x], rest);
    ImageConcat(kept, rest);
    assert NodeSeq([x]) == [x.node];
    NoDupConcat(NodeSeq(kept), [x.node] + NodeSeq(rest));
    NoDupConcat([x.node], NodeSeq(rest));
    NoDupConcat(NodeSeq(kept), NodeSeq(rest));
    assert Image(all[i..])[1..] == Image(rest);
    ImageConcat(kept, [x]);
  }

  lemma EmptyExpand(ms: seq<Member>)
    ensures Expand(ms) == [] <==> ms == []
  {
  }

  lemma {:induction false} ListedMember(ms: seq<Member>, v: VNode)
    requires v in Expand(ms)
    ensures Member(v.key, v.owner) in ms
  {
    if v in Blocks(ms[0], VNODES) {
      var i :| 0 <= i < VNODES && Blocks(ms[0], VNODES)[i] == v;
      assert Member(v.key, v.owner) == ms[0];
    } else {
      ListedMember(ms[1..], v);
    }
  }

  lemma Belongs(list: seq<Entry>, e: Entry, ms: seq<Member>)
    requires Image(list) == Expand(ms) && e in list
    ensures Member(e.key, e.owner) in ms
  {
    var i :| 0 <= i < |list| && list[i] == e;
    assert Image(list)[i] == VNode(e.key, e.owner, e.vno);
    ListedMember(ms, VNode(e.key, e.owner, e.vno));
  }

  /** A key that is already a member is refused. */
  lemma MemberRefused(h: ConHash, m: Member)
    requires h.Valid() && m in h.members
    ensures !Free(h.tree.Contents(), m.key, h.digest, 0)
  {
    MemberListed(h.members, m);
    var i :| 0 <= i < |h.list| && Image(h.list)[i] == VNode(m.key, m.owner, 0);
    assert h.list[i] in h.list && NodeSeq(h.list)[i] in Elems(NodeSeq(h.list));
    TreeElems(h.tree);
    HasIt(h.tree.Contents(), h.list[i].node);
  }
}
