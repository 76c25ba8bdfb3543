/** struct msgbuf_head (src/msgbuf/msgbuf_head.c) on heap messages: size accounting,
    the order of callbacks, scatter lists and recording of sent bytes. */
module MsgHead {
  import opened Bufio
  import opened MsgTree
  import opened MsgSend
  import opened MsgQueue
  import opened MsgHeap

  /** The callbacks of struct msgbuf_vfptr. */
  datatype Event = EvAdd | EvRm | EvEmpty | EvNonEmpty | EvFull | EvNonFull

  /** The bytes `size` accounts for: payloads of the queued messages, without subs. */
  ghost function Payload(ms: seq<Msg>): nat {
    if ms == [] then 0 else |ms[0].data| + Payload(ms[1..])
  }

  lemma {:induction false} PayloadConcat(a: seq<Msg>, b: seq<Msg>)
    ensures Payload(a + b) == Payload(a) + Payload(b)
  {
    if a == [] {
      assert a + b == b;
    } else {
      assert (a + b)[1..] == a[1..] + b;
      PayloadConcat(a[1..], b);
    }
  }

  function If(b: bool, e: Event): seq<Event> {
    if b then [e] else []
  }

  /** The callbacks msgbuf_head_in makes, in order. */
  function InFired(handlers: set<Event>, wnd: int, size: int, wasEmpty: bool): seq<Event> {
    If(EvNonEmpty in handlers && wasEmpty, EvNonEmpty) + If(EvAdd in handlers, EvAdd)
    + If(EvFull in handlers && wnd - size <= 0, EvFull)
  }

  /** The callbacks msgbuf_head_out makes, in order; size is the new size. */
  function OutFired(handlers: set<Event>, wnd: int, size: int, nowEmpty: bool): seq<Event> {
    If(EvRm in handlers, EvRm) + If(EvNonFull in handlers && wnd - size > 0, EvNonFull)
    + If(EvEmpty in handlers && nowEmpty, EvEmpty)
  }

  function Turn(e: Event): nat {
    match e
    case EvNonEmpty => 0
    case EvRm => 0
    case EvAdd => 1
    case EvNonFull => 1
    case EvFull => 2
    case EvEmpty => 2
  }

  predicate InTurn(fired: seq<Event>) {
    forall i, j :: 0 <= i < j < |fired| ==> Turn(fired[i]) < Turn(fired[j])
  }

  /** Which handlers an operation calls, each once, and in what order: adding calls
      `nonempty` on an empty queue, `add`, and `full` when the window is used up; removing
      calls `rm`, `nonfull` when it is not, and `empty` when nothing is left. */
  lemma FiredIs(handlers: set<Event>, wnd: int, size: int, empty: bool)
    ensures var r := InFired(handlers, wnd, size, empty);
      && InTurn(r) && forall e :: e in r <==>
        e in handlers && ((e == EvNonEmpty && empty) || e == EvAdd || (e == EvFull && size >= wnd))
    ensures var r := OutFired(handlers, wnd, size, empty);
      && InTurn(r) && forall e :: e in r <==>
        e in handlers && (e == EvRm || (e == EvNonFull && size < wnd) || (e == EvEmpty && empty))
  {
    hide InTurn;
    UpToThree(EvNonEmpty in handlers && empty, EvNonEmpty, EvAdd in handlers, EvAdd,
              EvFull in handlers && wnd - size <= 0, EvFull);
    UpToThree(EvRm in handlers, EvRm, EvNonFull in handlers && wnd - size > 0, EvNonFull,
              EvEmpty in handlers && empty, EvEmpty);
  }

  lemma UpToThree(a: bool, x: Event, b: bool, y: Event, c: bool, z: Event)
    requires Turn(x) < Turn(y) < Turn(z)
    ensures var r := If(a, x) + If(b, y) + If(c, z);
      InTurn(r) && forall e :: e in r <==> (a && e == x) || (b && e == y) || (c && e == z)
  {
    var r := If(a, x) + If(b, y) + If(c, z);
    if a {
      if b { assert r == if c then [x, y, z] else [x, y]; } else { assert r == if c then [x, z] else [x]; }
    } else {
      if b { assert r == if c then [y, z] else [y]; } else { assert r == if c then [z] else []; }
    }
  }

  /** The callbacks of taking the first n messages out of a queue, one after the other. */
  ghost function OutsFired(handlers: set<Event>, wnd: int, q: seq<Msg>, n: nat): seq<Event>
    requires n <= |q|
  {
    if n == 0 then []
    else OutFired(handlers, wnd, Payload(q[1..]), q[1..] == []) + OutsFired(handlers, wnd, q[1..], n - 1)
  }

  class MsgHead {
    const handlers: set<Event>
    var wnd: int
    var size: int
    var head: seq<Msgbuf>
    ghost var trees: seq<Tree>

    ghost predicate Valid()
      reads this, ObjsAll(trees)
    {
      head == Roots(trees) && RepAll(trees) && DistinctAll(trees) && size == Payload(Msgs())
    }

    /** The queued messages. */
    ghost function Msgs(): (ms: seq<Msg>)
      reads this
      ensures |ms| == |trees|
    {
      ValAll(trees)
    }

    constructor (handlers: set<Event>, wnd: int)
      ensures Valid() && Msgs() == [] && this.wnd == wnd && this.handlers == handlers
    {
      this.handlers, this.wnd, size, head, trees := handlers, wnd, 0, [], [];
    }

    /** msgbuf_head_in. */
    method In(msg: Msgbuf, ghost t: Tree) returns (fired: seq<Event>)
      requires Valid() && Rep(t) && Distinct(t) && t.obj == msg && Objs(t) !! ObjsAll(trees)
      modifies this
      ensures Valid() && trees == old(trees) + [t] && Msgs() == old(Msgs()) + [Val(t)] && wnd == old(wnd)
      ensures size == old(size) + |Val(t).data|
      ensures fired == InFired(handlers, wnd, size, old(Msgs()) == [])
    {
      fired := If(EvNonEmpty in handlers && head == [], EvNonEmpty);
      ObjsConcat(trees, [t]);
      RootsConcat(trees, [t]);
      OneInList(t);
      PayloadConcat(Msgs(), [Val(t)]);
      head := head + [msg];
      size := size + |msg.ubase|;
      fired := fired + If(EvAdd in handlers, EvAdd);
      fired := fired + If(EvFull in handlers && wnd - size <= 0, EvFull);
      trees := trees + [t];
    }

    /** msgbuf_head_out. */
    method Out() returns (msg: Msgbuf?, fired: seq<Event>)
      requires Valid()
      modifies this
      ensures Valid() && wnd == old(wnd) && ObjsAll(trees) <= old(ObjsAll(trees))
      ensures old(Msgs()) == [] ==> msg == null && fired == [] && trees == old(trees) && size == old(size)
      ensures old(Msgs()) != [] ==>
        && msg == old(trees[0].obj) && trees == old(trees)[1..] && Msgs() == old(Msgs())[1..]
        && size == old(size) - |old(Msgs())[0].data|
        && fired == OutFired(handlers, wnd, size, Msgs() == [])
    {
      hide Rep, RepAll, Distinct, DistinctAll, Roots, Val, ValAll, Objs, ObjsAll, Payload;
      fired, msg := [], null;
      if head == [] {
        return;
      }
      HeadTree(trees);
      msg := head[0];
      head := head[1..];
      size := size - |msg.ubase|;
      trees := trees[1..];
      fired := fired + If(EvRm in handlers, EvRm);
      fired := fired + If(EvNonFull in handlers && wnd - size > 0, EvNonFull);
      fired := fired + If(EvEmpty in handlers && head == [], EvEmpty);
    }

    /** msgbuf_head_preinstall_iovs. */
    method PreinstallIovs(iovs: array<seq<Byte>>, n: nat) returns (installed: nat)
      requires Valid() && n <= iovs.Length && SaneAll(Msgs())
      modifies iovs
      ensures installed <= n && iovs[..installed] == SerializeAll(Msgs(), n)
    {
      installed := SerializeWalk(head, iovs, 0, n, trees);
      assert iovs[0..0 + installed] == iovs[..installed];
    }

    /** msgbuf_head_install_iovs: records `length` sent bytes and counts the messages
        that msgbuf_install_iovs reports as complete. */
    method InstallIovs(length: nat) returns (n: nat, left: nat)
      requires Valid() && SaneAll(Msgs())
      modifies ObjsAll(trees), `trees
      ensures Valid() && head == old(head) && size == old(size) && ObjsAll(trees) == old(ObjsAll(trees))
      ensures QInstalled(Msgs(), n, left) == QInstall(old(Msgs()), length)
    {
      ghost var us;
      n, left, us := InstallQueue(head, length, trees);
      SamePayload(Msgs(), ValAll(us), length);
      trees := us;
    }

    /** sndhead_install_iovs: records the bytes, then removes the complete messages. */
    method RecordSent(nbytes: nat) returns (fired: seq<Event>)
      requires Valid() && SaneAll(Msgs()) && Queue(Msgs()) && 0 < nbytes <= |PendingAll(Msgs())|
      modifies this, ObjsAll(trees)
      ensures Valid() && wnd == old(wnd) && ObjsAll(trees) <= old(ObjsAll(trees))
      ensures var r := QInstall(old(Msgs()), nbytes);
        Msgs() == r.msgs[r.n..] && fired == OutsFired(handlers, wnd, r.msgs, r.n)
    {
      hide QInstall, QAdvanced, Rep, RepAll, Val, ValAll, Distinct;
      hide DistinctAll, Roots, Payload, Sane, SaneAll, Queue, PendingAll, If;
      fired := [];
      assert [] + OutsFired(handlers, wnd, QInstall(Msgs(), nbytes).msgs, 0) == [];
      ghost var r := QInstall(Msgs(), nbytes);
      QInstallAdvances(Msgs(), nbytes);
      var n, left := InstallIovs(nbytes);
      while n > 0
        invariant 0 <= n <= r.n && Valid() && wnd == old(wnd) && ObjsAll(trees) <= old(ObjsAll(trees))
        invariant Msgs() == r.msgs[r.n - n..]
        invariant OutsFired(handlers, wnd, r.msgs, r.n) == fired + OutsFired(handlers, wnd, Msgs(), n)
        decreases n
      {
        var msg, more := Out();
        assert r.msgs[r.n - n..][1..] == r.msgs[r.n - (n - 1)..];
        SeqAssoc(fired, more, OutsFired(handlers, wnd, Msgs(), n - 1));
        fired := fired + more;
        n := n - 1;
      }
    }
  }

  lemma {:induction false} HeadTree(ts: seq<Tree>)
    requires ts != [] && RepAll(ts)
    ensures ts[0].obj.ubase == Val(ts[0]).data && ObjsAll(ts[1..]) <= ObjsAll(ts)
    ensures RepAll(ts[1..]) && (DistinctAll(ts) ==> DistinctAll(ts[1..]))
    ensures Roots(ts)[0] == ts[0].obj && Roots(ts)[1..] == Roots(ts[1..])
    ensures ValAll(ts)[0] == Val(ts[0]) && ValAll(ts)[1..] == ValAll(ts[1..])
    ensures Payload(ValAll(ts)) == |Val(ts[0]).data| + Payload(ValAll(ts[1..]))
  {
    assert ValAll(ts)[1..] == ValAll(ts[1..]);
    assert Rep(ts[0]);
  }

  lemma OneInList(t: Tree)
    ensures ObjsAll([t]) == Objs(t) && ValAll([t]) == [Val(t)]
    ensures DistinctAll([t]) == Distinct(t) && Roots([t]) == [t.obj]
    ensures RepAll([t]) == Rep(t) && Payload([Val(t)]) == |Val(t).data|
  {
    assert [t][1..] == [];
  }

  /** Recording sent bytes changes no payload. */
  lemma {:induction false} SamePayload(q: seq<Msg>, r: seq<Msg>, k: nat)
    requires SaneAll(q) && r == QInstall(q, k).msgs
    ensures Payload(r) == Payload(q)
  {
    if q != [] {
      var a := Install(q[0], k);
      assert r[0] == a.msg && r[1..] == if a.left == 0 then q[1..] else QInstall(q[1..], a.left).msgs;
      if a.left != 0 {
        SamePayload(q[1..], r[1..], a.left);
      }
    }
  }

  /** msgbuf_install_iovs: 0 exactly when the message counts as completely sent. */
  method InstallOne(msg: Msgbuf, length: nat, ghost t: Tree) returns (rc: int, left: nat, ghost u: Tree)
    requires Rep(t) && t.obj == msg && Distinct(t) && Sane(Val(t))
    modifies Objs(t)
    ensures Rep(u) && SameShape(t, u)
    ensures var a := Install(Val(t), length);
      Val(u) == a.msg && left == a.left && rc == Complete(Val(t), a.ret) - 1
  {
    var installed;
    var full := HDR + |msg.ubase| + msg.cmsgLength;
    installed, left, u := InstallInto(msg, length, t);
    rc := if installed == full then 0 else -1;
  }

  /** whole is the outcome of a queue walk that has produced `done` and has `rest` before it. */
  ghost predicate QSoFar(whole: QInstalled, done: seq<Tree>, rest: seq<Tree>, left: nat, n: nat)
    requires SaneAll(ValAll(rest))
  {
    var b := QInstall(ValAll(rest), left);
    whole == QInstalled(ValAll(done) + b.msgs, n + b.n, b.left)
  }

  lemma QStart(ts: seq<Tree>, k: nat)
    requires SaneAll(ValAll(ts))
    ensures ts[0..] == ts && QSoFar(QInstall(ValAll(ts), k), ts[..0], ts[0..], k, 0)
  {
    assert ts[0..] == ts && ValAll(ts[..0]) == [];
  }

  lemma QInstallStep(ms: seq<Msg>, k: nat)
    requires ms != [] && SaneAll(ms)
    ensures var a := Install(ms[0], k);
      var one := Complete(ms[0], a.ret);
      QInstall(ms, k) == if a.left == 0 then QInstalled([a.msg] + ms[1..], one, 0)
        else var b := QInstall(ms[1..], a.left); QInstalled([a.msg] + b.msgs, one + b.n, b.left)
  {
  }

  /** msgbuf_install_iovs' test, as a count. */
  function Complete(m: Msg, ret: nat): (n: nat)
    ensures n <= 1
  {
    if ret == Len(m) + m.clen then 1 else 0
  }

  lemma {:induction false} QStep(whole: QInstalled, done: seq<Tree>, ts: seq<Tree>, i: nat, u: Tree, k: nat, left: nat,
                                 n: nat, one: nat)
    requires i < |ts| && SaneAll(ValAll(ts[i..])) && Sane(Val(ts[i])) && SaneAll(ValAll(ts[i + 1..]))
    requires QSoFar(whole, done, ts[i..], k, n)
    requires var a := Install(Val(ts[i]), k); Val(u) == a.msg && left == a.left && one == Complete(Val(ts[i]), a.ret)
    ensures left > 0 ==> QSoFar(whole, done + [u], ts[i + 1..], left, n + one)
    ensures left == 0 ==> whole == QInstalled(ValAll(done + [u]) + ValAll(ts[i + 1..]), n + one, 0)
  {
    hide Install, Sane, Val;
    SaneAt(ts, i);
    var ms := ValAll(ts[i..]);
    QInstallStep(ms, k);
    assert ms[1..] == ValAll(ts[i + 1..]) && ms[0] == Val(ts[i]);
    ObjsConcat(done, [u]);
    assert ValAll([u]) == [Val(u)];
    if left == 0 {
      SeqAssoc(ValAll(done), [Val(u)], ValAll(ts[i + 1..]));
    } else {
      SeqAssoc(ValAll(done), [Val(u)], QInstall(ms[1..], left).msgs);
    }
  }

  lemma QEnd(whole: QInstalled, us: seq<Tree>, ts: seq<Tree>, i: nat, n: nat)
    requires i <= |us| == |ts| && us[i..] == ts[i..]
    requires whole == QInstalled(ValAll(us[..i]) + ValAll(ts[i..]), n, 0)
    ensures QInstalled(ValAll(us), n, 0) == whole
  {
    ObjsConcat(us[..i], us[i..]);
    assert us == us[..i] + us[i..];
  }

  lemma QDone(whole: QInstalled, us: seq<Tree>, ts: seq<Tree>, left: nat, n: nat)
    requires |us| == |ts| && SaneAll(ValAll(ts[|ts|..])) && QSoFar(whole, us[..|ts|], ts[|ts|..], left, n)
    ensures QInstalled(ValAll(us), n, left) == whole
  {
    assert us[..|ts|] == us && ts[|ts|..] == [];
    assert ValAll(us) + [] == ValAll(us);
  }

  /** The loop of msgbuf_head_install_iovs. */
  method InstallQueue(list: seq<Msgbuf>, length: nat, ghost ts: seq<Tree>)
      returns (n: nat, left: nat, ghost us: seq<Tree>)
    requires RepAll(ts) && list == Roots(ts) && DistinctAll(ts) && SaneAll(ValAll(ts))
    modifies ObjsAll(ts)
    ensures RepAll(us) && DistinctAll(us) && Roots(us) == list && ObjsAll(us) == ObjsAll(ts)
    ensures QInstalled(ValAll(us), n, left) == QInstall(ValAll(ts), length)
  {
    hide *;
    n, left, us := 0, length, ts;
    ghost var whole := QInstall(ValAll(ts), length);
    var i := 0;
    WalkStart(ts, length);
    QStart(ts, length);
    while i < |list|
      invariant 0 <= i <= |list| == |ts| == |us| && us[i..] == ts[i..]
      invariant RepAll(us) && DistinctAll(us) && SameShapeAll(ts, us) && Roots(us) == list && ObjsAll(us) == ObjsAll(ts)
      invariant SaneAll(ValAll(ts[i..]))
      invariant QSoFar(whole, us[..i], ts[i..], left, n)
    {
      SaneAt(ts, i);
      Split(us, i);
      RootAt(us, i);
      assert us[i] == us[i..][0] == ts[i..][0] == ts[i];
      ObjsAllAllocated(us[..i]);
      ObjsAllAllocated(us[i + 1..]);
      ghost var u, k, was := us[i], left, us;
      var rc;
      rc, left, u := InstallOne(list[i], left, u);
      us := us[i := u];
      assert us[..i] == was[..i] && us[i + 1..] == was[i + 1..] && us[i] == u;
      assert us[i + 1..] == was[i..][1..] == ts[i..][1..] == ts[i + 1..];
      Split(us, i);
      ShapeStep(ts, was, i, u);
      QStep(whole, was[..i], ts, i, u, k, left, n, rc + 1);
      assert us[..i + 1] == was[..i] + [u];
      if rc == 0 {
        n := n + 1;
      }
      i := i + 1;
      if left == 0 {
        QEnd(whole, us, ts, i, n);
        return;
      }
    }
    QDone(whole, us, ts, left, n);
  }
}
