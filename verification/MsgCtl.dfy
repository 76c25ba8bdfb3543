/** uctl's SADD, SRM, SSWITCH and SCOPY on heap messages, verified against the
    functions of MsgOps. */
module MsgCtl {
  import opened Bufio
  import opened MsgTree
  import opened MsgOps
  import opened MsgHeap

  /** msgbuf_lens. */
  method LensOf(msg: Msgbuf, ghost t: Tree) returns (n: nat)
    requires Rep(t) && t.obj == msg
    ensures n == Lens(Val(t))
    decreases t
  {
    hide Rep, RepAll, Objs, ObjsAll, Distinct, DistinctAll, Roots, Lens, LensAll, Val, ValAll;
    NodeFacts(t);
    n := HDR + |msg.ubase|;
    var i := 0;
    assert t.subs[0..] == t.subs;
    while i < |msg.subs|
      invariant 0 <= i <= |msg.subs| == |t.subs| && RepAll(t.subs) && Lens(Val(t)) == n + LensAll(ValAll(t.subs[i..]))
    {
      Split(t.subs, i);
      RootAt(t.subs, i);
      ObjsAllAllocated(t.subs);
      var m := LensOf(msg.subs[i], t.subs[i]);
      LensStep(t.subs, i);
      n := n + m;
      i := i + 1;
    }
    assert t.subs[i..] == [];
    NoMore();
  }

  lemma NoMore()
    ensures LensAll(ValAll([])) == 0
  {
  }

  lemma NodeFacts(t: Tree)
    requires Rep(t)
    ensures t.obj.checksum == t.checksum && t.obj.cmsgNum == t.num && t.obj.cmsgLength == t.clen && t.obj.soff == t.soff
    ensures t.obj.ubase == t.data && t.obj.subs == Roots(t.subs) && RepAll(t.subs)
    ensures Objs(t) == {t.obj} + ObjsAll(t.subs) && Lens(Val(t)) == HDR + |t.data| + LensAll(ValAll(t.subs))
    ensures Distinct(t) ==> t.obj !in ObjsAll(t.subs) && DistinctAll(t.subs)
  {
  }

  lemma MakeNode(t: Tree)
    requires t.obj.checksum == t.checksum && t.obj.cmsgNum == t.num
    requires t.obj.cmsgLength == t.clen && t.obj.soff == t.soff
    requires t.obj.ubase == t.data && t.obj.subs == Roots(t.subs) && RepAll(t.subs)
    requires t.obj !in ObjsAll(t.subs) && DistinctAll(t.subs)
    ensures Rep(t) && Distinct(t) && Objs(t) == {t.obj} + ObjsAll(t.subs)
  {
  }

  lemma OneSub(x: Tree)
    ensures Roots([x]) == [x.obj] && ObjsAll([x]) == Objs(x)
    ensures (DistinctAll([x]) <==> Distinct(x)) && (RepAll([x]) <==> Rep(x))
    ensures ValAll([x]) == [Val(x)]
  {
    assert [x][1..] == [];
  }

  lemma {:induction false} LensStep(ts: seq<Tree>, i: nat)
    requires i < |ts|
    ensures LensAll(ValAll(ts[i..])) == Lens(Val(ts[i])) + LensAll(ValAll(ts[i + 1..]))
  {
    assert ts[i..][1..] == ts[i + 1..];
    assert ValAll(ts[i..])[1..] == ValAll(ts[i + 1..]);
  }

  ghost function WithSub(t: Tree, x: Tree): Tree {
    t.(num := t.num + 1, clen := t.clen + Lens(Val(x)), subs := t.subs + [x])
  }

  lemma {:induction false} WithSubVal(t: Tree, x: Tree)
    ensures var u := WithSub(t, x);
      && u == t.(num := t.num + 1, clen := t.clen + Lens(Val(x)), subs := t.subs + [x])
      && Val(u) == Val(t).(num := t.num + 1, clen := t.clen + Lens(Val(x)), subs := Val(t).subs + [Val(x)])
      && Val(t).num == t.num && Val(t).clen == t.clen
  {
    ObjsConcat(t.subs, [x]);
    OneSub(x);
  }

  lemma AddIs(m: Msg, x: Msg)
    ensures Add(m, x) == if m.num == SUBNUMMARK || m.clen + Lens(x) > CMSGLENMARK then EFBIG
      else Added(m.(num := m.num + 1, clen := m.clen + Lens(x), subs := m.subs + [x]))
  {
  }

  /** sub_msgbuf_add. */
  method SubAdd(msg: Msgbuf, sub: Msgbuf, ghost t: Tree, ghost x: Tree) returns (rc: int, ghost u: Tree)
    requires Rep(t) && t.obj == msg && Distinct(t) && Rep(x) && x.obj == sub && Distinct(x) && Objs(t) !! Objs(x)
    modifies msg
    ensures Rep(u) && u.obj == msg && Distinct(u) && Rep(x)
    ensures var a := Add(Val(t), Val(x)); if a.EFBIG? then rc == -1 && u == t else rc == 0 && Val(u) == a.msg
    ensures Objs(u) == if rc == 0 then Objs(t) + Objs(x) else Objs(t)
  {
    hide Rep, RepAll, Objs, ObjsAll, Distinct, DistinctAll, Roots, Lens, LensAll, Val, ValAll, Add, WithSub;
    u := t;
    NodeFacts(t);
    WithSubVal(t, x);
    AddIs(Val(t), Val(x));
    ObjsAllocated(t);
    ObjsAllocated(x);
    ObjsAllAllocated(t.subs);
    var lens := LensOf(sub, x);
    if msg.cmsgNum == SUBNUMMARK || msg.cmsgLength + lens > CMSGLENMARK {
      return -1, u;
    }
    u := WithSub(t, x);
    ObjsConcat(t.subs, [x]);
    RootsConcat(t.subs, [x]);
    OneSub(x);
    msg.cmsgNum, msg.cmsgLength, msg.subs := msg.cmsgNum + 1, msg.cmsgLength + lens, msg.subs + [sub];
    MakeNode(u);
    rc := 0;
  }

  ghost function WithoutSub(t: Tree, i: nat): Tree
    requires i < |t.subs|
  {
    t.(num := (t.num - 1) % 16, clen := (t.clen - Lens(Val(t.subs[i]))) % 4096, subs := t.subs[..i] + t.subs[i + 1..])
  }

  lemma {:induction false} ValAt(ts: seq<Tree>, i: nat)
    requires i < |ts|
    ensures ValAll(ts)[i] == Val(ts[i]) && ValAll(ts)[..i] == ValAll(ts[..i])
    ensures ValAll(ts)[i + 1..] == ValAll(ts[i + 1..])
  {
    hide *;
    var a, b := ts[..i], ts[i + 1..];
    assert ts == a + ([ts[i]] + b);
    ObjsConcat(a, [ts[i]] + b);
    ObjsConcat([ts[i]], b);
    OneSub(ts[i]);
    Parts(ValAll(a), Val(ts[i]), ValAll(b));
  }

  lemma Parts<A>(a: seq<A>, x: A, b: seq<A>)
    ensures var s := a + ([x] + b); s[|a|] == x && s[..|a|] == a && s[|a| + 1..] == b
  {
  }

  lemma {:induction false} ObjsIn(ts: seq<Tree>, i: nat)
    requires i < |ts|
    ensures Objs(ts[i]) <= ObjsAll(ts)
  {
    Split(ts, i);
  }

  /** Distinct subs have distinct roots. */
  lemma {:induction false} SameSub(ts: seq<Tree>, i: nat, k: nat)
    requires i < |ts| && k < |ts| && DistinctAll(ts) && ts[i].obj == ts[k].obj
    ensures i == k
  {
    var a, b := if i < k then i else k, if i < k then k else i;
    if a < b {
      Split(ts, a);
      assert ts[b] == ts[a + 1..][b - a - 1];
      ObjsIn(ts[a + 1..], b - a - 1);
    }
  }

  lemma {:induction false} WithoutSubVal(t: Tree, i: nat)
    requires i < |t.subs|
    ensures var u := WithoutSub(t, i);
      && u == t.(num := (t.num - 1) % 16, clen := (t.clen - Lens(Val(t.subs[i]))) % 4096,
              subs := t.subs[..i] + t.subs[i + 1..])
      && Val(u) == Rm(Val(t), i)
  {
    hide Lens, LensAll, Rep, Objs, Distinct, RepAll, ObjsAll, DistinctAll, ValAll;
    ValAt(t.subs, i);
    ObjsConcat(t.subs[..i], t.subs[i + 1..]);
  }

  lemma {:induction false} RootsAround(ts: seq<Tree>, i: nat)
    requires i < |ts|
    ensures Roots(ts)[..i] == Roots(ts[..i]) && Roots(ts)[i + 1..] == Roots(ts[i + 1..])
  {
  }

  lemma {:induction false} SidesDistinct(ts: seq<Tree>, i: nat)
    requires i < |ts| && DistinctAll(ts)
    ensures DistinctAll(ts[..i]) && DistinctAll(ts[i + 1..])
  {
    assert ts == ts[..i] + ts[i..] && ts[i..][1..] == ts[i + 1..];
    ObjsConcat(ts[..i], ts[i..]);
  }

  /** sub_msgbuf_rm; the BUG_ON after it cannot fire since both fields are unsigned. */
  method SubRm(msg: Msgbuf, rm: Msgbuf, ghost t: Tree, ghost i: nat) returns (ghost u: Tree)
    requires Rep(t) && t.obj == msg && Distinct(t) && i < |t.subs| && t.subs[i].obj == rm
    modifies msg
    ensures Rep(u) && u.obj == msg && Distinct(u) && Val(u) == Rm(Val(t), i)
    ensures Rep(t.subs[i]) && Objs(u) !! Objs(t.subs[i]) && Objs(t) == Objs(u) + Objs(t.subs[i])
  {
    hide Rep, RepAll, Objs, ObjsAll, Distinct, DistinctAll, Roots, Lens, LensAll, Val, ValAll, Rm, WithoutSub;
    NodeFacts(t);
    Split(t.subs, i);
    ObjsAllAllocated(t.subs);
    var lens := LensOf(rm, t.subs[i]);
    RootAt(t.subs, i);
    var k :| 0 <= k < |msg.subs| && msg.subs[k] == rm;
    RootAt(t.subs, k);
    SameSub(t.subs, i, k);
    WithoutSubVal(t, i);
    SidesDistinct(t.subs, i);
    u := WithoutSub(t, i);
    ObjsConcat(t.subs[..i], t.subs[i + 1..]);
    RootsConcat(t.subs[..i], t.subs[i + 1..]);
    RootsAround(t.subs, i);
    msg.cmsgNum, msg.cmsgLength := (msg.cmsgNum - 1) % 16, (msg.cmsgLength - lens) % 4096;
    msg.subs := msg.subs[..k] + msg.subs[k + 1..];
    MakeNode(u);
  }

  /** sub_msgbuf_switch. */
  method SubSwitch(src: Msgbuf, dst: Msgbuf, ghost s: Tree, ghost d: Tree) returns (ghost s': Tree, ghost d': Tree)
    requires Rep(s) && s.obj == src && Distinct(s) && Rep(d) && d.obj == dst && Distinct(d) && Objs(s) !! Objs(d)
    modifies src, dst
    ensures Rep(s') && s'.obj == src && Distinct(s') && Rep(d') && d'.obj == dst && Distinct(d')
    ensures (Val(s'), Val(d')) == Switch(Val(s), Val(d)) && Objs(s') !! Objs(d')
  {
    hide Rep, RepAll, Objs, ObjsAll, Distinct, DistinctAll, Roots, Lens, LensAll;
    NodeFacts(s);
    NodeFacts(d);
    ObjsAllAllocated(s.subs + d.subs);
    s', d' := s.(num := 0, clen := 0, subs := []), d.(num := s.num, clen := s.clen, subs := s.subs + d.subs);
    ObjsConcat(s.subs, d.subs);
    RootsConcat(s.subs, d.subs);
    Nothing();
    dst.cmsgNum, dst.cmsgLength, dst.subs := src.cmsgNum, src.cmsgLength, src.subs + dst.subs;
    src.cmsgNum, src.cmsgLength, src.subs := 0, 0, [];
    MakeNode(s');
    MakeNode(d');
  }

  lemma Nothing()
    ensures Roots([]) == [] && ObjsAll([]) == {} && DistinctAll([]) && RepAll([])
  {
  }

  ghost function Bud(obj: Msgbuf, checksum: nat, data: seq<Byte>): Tree {
    Tree(obj, checksum, 0, 0, 0, data, [])
  }

  /** msgbuf_alloc and the copy of the payload that ubufdup and clone_ubuf make. */
  method Dup(data: seq<Byte>, crc: nat -> nat) returns (msg: Msgbuf, ghost t: Tree)
    ensures fresh(msg) && t.obj == msg && Rep(t) && Distinct(t) && Objs(t) == {msg} && Val(t) == Alloc(data, crc)
  {
    var checksum := crc(|data|) % 0x1_0000;
    msg := new Msgbuf(checksum, data);
    t := Bud(msg, checksum, data);
    Nothing();
    MakeNode(t);
  }

  lemma {:induction false} CopyStep(dst: Msg, ts: seq<Tree>, i: nat, crc: nat -> nat)
    requires i < |ts|
    ensures var a := Add(dst, Alloc(ts[i].data, crc));
      CopySubs(dst, ValAll(ts[i..]), crc) == CopySubs(if a.Added? then a.msg else dst, ValAll(ts[i + 1..]), crc)
  {
    assert ts[i..][1..] == ts[i + 1..] && ts[i..][0] == ts[i];
    assert ValAll(ts[i..])[1..] == ValAll(ts[i + 1..]) && ValAll(ts[i..])[0] == Val(ts[i]);
  }

  lemma CopyDone(dst: Msg, crc: nat -> nat)
    ensures CopySubs(dst, ValAll([]), crc) == dst
  {
  }

  lemma CloneIs(m: Msg, crc: nat -> nat)
    ensures MsgOps.Clone(m, crc) == CopySubs(Alloc(m.data, crc), m.subs, crc)
  {
  }

  lemma ValSubs(t: Tree)
    ensures Val(t).subs == ValAll(t.subs) && Val(t).data == t.data
  {
  }

  /** clone_ubuf with the loop of sub_msgbuf_copy. */
  method Clone(msg: Msgbuf, crc: nat -> nat, ghost t: Tree) returns (dst: Msgbuf, ghost u: Tree)
    requires Rep(t) && t.obj == msg
    ensures Rep(u) && u.obj == dst && Distinct(u) && fresh(Objs(u)) && Val(u) == MsgOps.Clone(Val(t), crc)
  {
    hide Rep, RepAll, Objs, ObjsAll, Distinct, DistinctAll, Roots, Val, ValAll, Add, Alloc, CopySubs, Bud, MsgOps.Clone;
    NodeFacts(t);
    ValSubs(t);
    CloneIs(Val(t), crc);
    ObjsAllAllocated(t.subs);
    dst, u := Dup(msg.ubase, crc);
    var i := 0;
    assert t.subs[0..] == t.subs;
    while i < |msg.subs|
      invariant 0 <= i <= |msg.subs| == |t.subs| && RepAll(t.subs) && msg.subs == Roots(t.subs)
      invariant Rep(u) && u.obj == dst && Distinct(u) && fresh(Objs(u))
      invariant CopySubs(Val(u), ValAll(t.subs[i..]), crc) == MsgOps.Clone(Val(t), crc)
    {
      Split(t.subs, i);
      RootAt(t.subs, i);
      NodeFacts(t.subs[i]);
      CopyStep(Val(u), t.subs, i, crc);
      ObjsAllAllocated(t.subs);
      ObjsAllocated(u);
      var sub; ghost var x;
      sub, x := Dup(msg.subs[i].ubase, crc);
      var rc;
      rc, u := SubAdd(dst, sub, u, x);
      i := i + 1;
    }
    assert t.subs[i..] == [];
    CopyDone(Val(u), crc);
  }
}
