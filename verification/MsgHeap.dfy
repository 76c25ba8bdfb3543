/** struct msgbuf as mutable objects. Each operation of src/msgbuf/msgbuf.c is
    verified against the function of the same name on message values. */
module MsgHeap {
  import opened Bufio
  import opened MsgTree
  import opened MsgSend

  /** struct msgbuf; `subs` is the list hanging at cmsg_head. */
  class Msgbuf {
    var checksum: nat
    var cmsgNum: nat
    var cmsgLength: nat
    var soff: nat
    var ubase: seq<Byte>
    var subs: seq<Msgbuf>

    constructor (checksum: nat, data: seq<Byte>)
      ensures this.checksum == checksum && cmsgNum == 0 && cmsgLength == 0 && soff == 0 && ubase == data && subs == []
    {
      this.checksum, cmsgNum, cmsgLength, soff, ubase, subs := checksum, 0, 0, 0, data, [];
    }
  }

  // --------------------------------------------------- the heap as a value

  /** A message value together with the objects it lives in. */
  datatype Tree = Tree(obj: Msgbuf, checksum: nat, num: nat, clen: nat, soff: nat, data: seq<Byte>, subs: seq<Tree>)

  ghost function Val(t: Tree): (m: Msg)
    ensures |m.subs| == |t.subs|
    decreases t, 1
  {
    Msg(t.checksum, t.num, t.clen, t.soff, t.data, ValAll(t.subs))
  }

  ghost function ValAll(ts: seq<Tree>): (ms: seq<Msg>)
    ensures |ms| == |ts|
    decreases ts, 0
  {
    if ts == [] then [] else [Val(ts[0])] + ValAll(ts[1..])
  }

  ghost function Objs(t: Tree): set<Msgbuf>
    decreases t, 1
  {
    {t.obj} + ObjsAll(t.subs)
  }

  ghost function ObjsAll(ts: seq<Tree>): set<Msgbuf>
    decreases ts, 0
  {
    if ts == [] then {} else Objs(ts[0]) + ObjsAll(ts[1..])
  }

  ghost function Roots(ts: seq<Tree>): (s: seq<Msgbuf>)
    ensures |s| == |ts|
  {
    seq(|ts|, i requires 0 <= i < |ts| => ts[i].obj)
  }

  ghost predicate Distinct(t: Tree)
    decreases t, 1
  {
    t.obj !in ObjsAll(t.subs) && DistinctAll(t.subs)
  }

  ghost predicate DistinctAll(ts: seq<Tree>)
    decreases ts, 0
  {
    ts == [] || (Distinct(ts[0]) && Objs(ts[0]) !! ObjsAll(ts[1..]) && DistinctAll(ts[1..]))
  }

  ghost predicate Rep(t: Tree)
    reads Objs(t)
    decreases t, 1
  {
    && t.obj.checksum == t.checksum && t.obj.cmsgNum == t.num && t.obj.cmsgLength == t.clen && t.obj.soff == t.soff
    && t.obj.ubase == t.data && t.obj.subs == Roots(t.subs) && RepAll(t.subs)
  }

  ghost predicate RepAll(ts: seq<Tree>)
    reads ObjsAll(ts)
    decreases ts, 0
  {
    ts == [] || (Rep(ts[0]) && RepAll(ts[1..]))
  }

  lemma {:induction false} ObjsAllocated(t: Tree)
    ensures forall o :: o in Objs(t) ==> allocated(o)
    decreases t, 1
  {
    ObjsAllAllocated(t.subs);
  }

  lemma {:induction false} ObjsAllAllocated(ts: seq<Tree>)
    ensures forall o :: o in ObjsAll(ts) ==> allocated(o)
    decreases ts, 0
  {
    if ts != [] {
      ObjsAllocated(ts[0]);
      ObjsAllAllocated(ts[1..]);
    }
  }

  lemma {:induction false} ObjsConcat(a: seq<Tree>, b: seq<Tree>)
    ensures ObjsAll(a + b) == ObjsAll(a) + ObjsAll(b) && ValAll(a + b) == ValAll(a) + ValAll(b)
    ensures DistinctAll(a + b) <==> DistinctAll(a) && DistinctAll(b) && ObjsAll(a) !! ObjsAll(b)
    ensures RepAll(a + b) <==> RepAll(a) && RepAll(b)
  {
    if a == [] {
      assert a + b == b;
    } else {
      assert (a + b)[1..] == a[1..] + b && (a + b)[0] == a[0];
      ObjsConcat(a[1..], b);
    }
  }

  lemma RootsConcat(a: seq<Tree>, b: seq<Tree>)
    ensures Roots(a + b) == Roots(a) + Roots(b)
  {
  }

  lemma Split(ts: seq<Tree>, i: nat)
    requires i < |ts|
    ensures ts == ts[..i] + [ts[i]] + ts[i + 1..] && ts[i..][0] == ts[i] && ts[i..][1..] == ts[i + 1..]
    ensures ObjsAll(ts) == ObjsAll(ts[..i]) + Objs(ts[i]) + ObjsAll(ts[i + 1..])
    ensures DistinctAll(ts) ==>
      && Distinct(ts[i]) && ObjsAll(ts[..i]) !! Objs(ts[i])
      && ObjsAll(ts[..i]) !! ObjsAll(ts[i + 1..]) && Objs(ts[i]) !! ObjsAll(ts[i + 1..])
    ensures RepAll(ts) <==> RepAll(ts[..i]) && Rep(ts[i]) && RepAll(ts[i + 1..])
  {
    var a, x, b := ts[..i], ts[i], ts[i + 1..];
    assert ts == a + ([x] + b) && ([x] + b)[1..] == b;
    ObjsConcat(a, [x] + b);
  }

  lemma SaneAt(ts: seq<Tree>, i: nat)
    requires i < |ts| && SaneAll(ValAll(ts[i..]))
    ensures Sane(Val(ts[i])) && SaneAll(ValAll(ts[i + 1..]))
    ensures ValAll(ts[i..]) == [Val(ts[i])] + ValAll(ts[i + 1..])
  {
    assert ts[i..][1..] == ts[i + 1..];
    assert ValAll(ts[i..])[1..] == ValAll(ts[i + 1..]);
  }

  // ------------------------------------------------------------- serialize

  /** msgbuf_serialize: fills iovs from `at` on; an entry holds the bytes it points at. */
  method SerializeInto(msg: Msgbuf, iovs: array<seq<Byte>>, at: nat, n: nat, ghost t: Tree) returns (installed: nat)
    requires Rep(t) && t.obj == msg && Sane(Val(t)) && at + n <= iovs.Length
    modifies iovs
    ensures iovs[..at] == old(iovs[..at]) && installed <= n
    ensures iovs[at..at + installed] == Serialize(Val(t), n)
    decreases t, 1
  {
    installed := 0;
    if n == 0 {
      return;
    }
    var own := Le16(msg.checksum) + Le16(msg.cmsgNum + 16 * msg.cmsgLength) + Le32(|msg.ubase|) + msg.ubase;
    assert own == Own(Val(t));
    NotAnArray(t.subs, iovs);
    iovs[at] := own[msg.soff..];
    if |iovs[at]| > 0 {
      installed := installed + 1;
    }
    ghost var was := iovs[..];
    var more := SerializeWalk(msg.subs, iovs, at + installed, n - installed, t.subs);
    Extend(was, iovs[..], at, installed, more);
    installed := installed + more;
  }

  /** The walk of msgbuf_serialize over a node's subs and of
      msgbuf_head_preinstall_iovs over a queue. */
  method SerializeWalk(list: seq<Msgbuf>, iovs: array<seq<Byte>>, at: nat, n: nat, ghost ts: seq<Tree>)
      returns (installed: nat)
    requires RepAll(ts) && list == Roots(ts) && SaneAll(ValAll(ts)) && at + n <= iovs.Length
    modifies iovs
    ensures iovs[..at] == old(iovs[..at]) && installed <= n
    ensures iovs[at..at + installed] == SerializeAll(ValAll(ts), n)
    decreases ts, 0
  {
    hide *;
    installed := 0;
    ghost var all, out: seq<seq<Byte>> := SerializeAll(ValAll(ts), n), [];
    var i := 0;
    assert ts[0..] == ts;
    while i < |list|
      invariant 0 <= i <= |list| == |ts| && installed == |out| <= n
      invariant iovs[..at] == old(iovs[..at]) && iovs[at..at + installed] == out && RepAll(ts)
      invariant SaneAll(ValAll(ts[i..]))
      invariant all == out + SerializeAll(ValAll(ts[i..]), n - installed)
    {
      SaneAt(ts, i);
      Split(ts, i);
      RootAt(ts, i);
      ObjsAllAllocated(ts);
      NotAnArray(ts, iovs);
      ghost var was := iovs[..];
      var more := SerializeInto(list[i], iovs, at + installed, n - installed, ts[i]);
      Extend(was, iovs[..], at, installed, more);
      WalkStep(all, out, ts, i, n - installed);
      out := out + iovs[at + installed..at + installed + more];
      installed := installed + more;
      if installed == n {
        return;
      }
      i := i + 1;
    }
    WalkEnd(ts, n - installed);
  }

  lemma RootAt(ts: seq<Tree>, i: nat)
    requires i < |ts|
    ensures Roots(ts)[i] == ts[i].obj
  {
  }

  lemma {:induction false} WalkStep(all: seq<seq<Byte>>, out: seq<seq<Byte>>, ts: seq<Tree>, i: nat, n: nat)
    requires i < |ts| && SaneAll(ValAll(ts[i..])) && Sane(Val(ts[i])) && SaneAll(ValAll(ts[i + 1..]))
    requires all == out + SerializeAll(ValAll(ts[i..]), n)
    ensures var p := Serialize(Val(ts[i]), n);
      all == if |p| == n then out + p else (out + p) + SerializeAll(ValAll(ts[i + 1..]), n - |p|)
  {
    SaneAt(ts, i);
    var p := Serialize(Val(ts[i]), n);
    if |p| < n {
      SeqAssoc(out, p, SerializeAll(ValAll(ts[i + 1..]), n - |p|));
    }
  }

  lemma WalkEnd(ts: seq<Tree>, n: nat)
    ensures SerializeAll(ValAll(ts[|ts|..]), n) == []
  {
  }

  lemma {:induction false} NotAnArray(ts: seq<Tree>, a: array<seq<Byte>>)
    ensures forall o :: o in ObjsAll(ts) ==> o as object != a
  {
  }

  lemma Extend(was: seq<seq<Byte>>, now: seq<seq<Byte>>, at: nat, m: nat, more: nat)
    requires |was| == |now| && at + m + more <= |now| && now[..at + m] == was[..at + m]
    ensures now[..at] == was[..at]
    ensures now[at..at + m + more] == was[at..at + m] + now[at + m..at + m + more]
  {
    assert now[..at] == now[..at + m][..at] && was[..at] == was[..at + m][..at];
    assert now[at..at + m] == now[..at + m][at..] == was[..at + m][at..] == was[at..at + m];
  }

  // ---------------------------------------------------------- install_iovs

  /** u is t after an operation that only touched soff fields: same objects. */
  ghost predicate SameShape(t: Tree, u: Tree) {
    u.obj == t.obj && Objs(u) == Objs(t) && (Distinct(t) ==> Distinct(u))
  }

  ghost predicate SameShapeAll(ts: seq<Tree>, us: seq<Tree>) {
    |us| == |ts| && Roots(us) == Roots(ts) && ObjsAll(us) == ObjsAll(ts) && (DistinctAll(ts) ==> DistinctAll(us))
  }

  lemma SameShapeCons(ts: seq<Tree>, i: nat, u: Tree)
    requires i < |ts| && SameShape(ts[i], u)
    ensures SameShapeAll(ts, ts[i := u])
  {
    var us := ts[i := u];
    Split(ts, i);
    Split(us, i);
    assert us[..i] == ts[..i] && us[i + 1..] == ts[i + 1..];
    ObjsConcat(ts[..i] + [ts[i]], ts[i + 1..]);
    ObjsConcat(ts[..i], [ts[i]]);
    ObjsConcat(us[..i] + [u], us[i + 1..]);
    ObjsConcat(us[..i], [u]);
    assert ObjsAll([u]) == Objs(u) && ObjsAll([ts[i]]) == Objs(ts[i]);
    assert DistinctAll([u]) == Distinct(u) && DistinctAll([ts[i]]) == Distinct(ts[i]);
  }

  /** The result of InstallAll on a list whose first i messages are done and whose
      i-th has just been handled. */
  lemma InstallAllStep(ms: seq<Msg>, k: nat)
    requires ms != [] && SaneAll(ms)
    ensures var a := Install(ms[0], k);
      InstallAll(ms, k) == if a.left == 0 then InstalledAll([a.msg] + ms[1..], 0, a.ret)
        else var b := InstallAll(ms[1..], a.left); InstalledAll([a.msg] + b.msgs, b.left, a.ret + b.sum)
  {
  }

  /** __msgbuf_install_iovs. */
  method InstallInto(msg: Msgbuf, length: nat, ghost t: Tree) returns (installed: nat, left: nat, ghost u: Tree)
    requires Rep(t) && t.obj == msg && Distinct(t) && Sane(Val(t))
    modifies Objs(t)
    ensures Rep(u) && SameShape(t, u)
    ensures Installed(Val(u), left, installed) == Install(Val(t), length)
    decreases t, 1
  {
    var room := HDR + |msg.ubase| - msg.soff;
    var diff := if length > room then room else length;
    msg.soff := msg.soff + diff;
    u := t.(soff := t.soff + diff);
    left := length - diff;
    if left == 0 {
      return msg.soff, left, u;
    }
    installed := msg.soff;
    ghost var us;
    var sum;
    sum, left, us := InstallWalk(msg.subs, left, t.subs);
    installed := installed + sum;
    u := u.(subs := us);
  }

  /** The walk of __msgbuf_install_iovs over a node's subs: ends when every accepted
      byte is accounted for. */
  method InstallWalk(list: seq<Msgbuf>, length: nat, ghost ts: seq<Tree>)
      returns (sum: nat, left: nat, ghost us: seq<Tree>)
    requires RepAll(ts) && list == Roots(ts) && DistinctAll(ts) && SaneAll(ValAll(ts))
    modifies ObjsAll(ts)
    ensures RepAll(us) && SameShapeAll(ts, us)
    ensures InstalledAll(ValAll(us), left, sum) == InstallAll(ValAll(ts), length)
    decreases ts, 0
  {
    hide *;
    sum, left, us := 0, length, ts;
    ghost var whole := InstallAll(ValAll(ts), length);
    var i := 0;
    WalkStart(ts, length);
    while i < |list|
      invariant 0 <= i <= |list| == |ts| == |us| && us[i..] == ts[i..]
      invariant RepAll(us) && DistinctAll(us) && SameShapeAll(ts, us) && Roots(us) == list && ObjsAll(us) == ObjsAll(ts)
      invariant SaneAll(ValAll(ts[i..]))
      invariant InstallSoFar(whole, us[..i], ts[i..], left, sum)
    {
      SaneAt(ts, i);
      Split(us, i);
      RootAt(us, i);
      assert us[i] == us[i..][0] == ts[i..][0] == ts[i];
      ObjsAllAllocated(us[..i]);
      ObjsAllAllocated(us[i + 1..]);
      ghost var u, k, was := us[i], left, us;
      var ret;
      ret, left, u := InstallInto(list[i], left, u);
      us := us[i := u];
      assert us[..i] == was[..i] && us[i + 1..] == was[i + 1..] && us[i] == u;
      assert us[i + 1..] == was[i..][1..] == ts[i..][1..] == ts[i + 1..];
      Split(us, i);
      ShapeStep(ts, was, i, u);
      assert Installed(Val(u), left, ret) == Install(Val(ts[i]), k);
      SoFarStep(whole, was[..i], ts, i, u, k, left, ret, sum);
      assert us[..i + 1] == was[..i] + [u];
      sum := sum + ret;
      i := i + 1;
      if left == 0 {
        SoFarEnd(whole, us, ts, i, sum);
        return;
      }
    }
    SoFarDone(whole, us, ts, left, sum);
  }

  /** whole is the outcome of a walk that has produced `done` and has `rest` before it. */
  ghost predicate InstallSoFar(whole: InstalledAll, done: seq<Tree>, rest: seq<Tree>, left: nat, sum: nat)
    requires SaneAll(ValAll(rest))
  {
    var b := InstallAll(ValAll(rest), left);
    whole == InstalledAll(ValAll(done) + b.msgs, b.left, sum + b.sum)
  }

  lemma WalkStart(ts: seq<Tree>, k: nat)
    requires SaneAll(ValAll(ts)) && DistinctAll(ts)
    ensures ts[0..] == ts && SameShapeAll(ts, ts)
    ensures InstallSoFar(InstallAll(ValAll(ts), k), ts[..0], ts[0..], k, 0)
  {
    assert ts[0..] == ts && ValAll(ts[..0]) == [];
  }

  lemma ShapeStep(ts: seq<Tree>, us: seq<Tree>, i: nat, u: Tree)
    requires i < |us| && SameShapeAll(ts, us) && DistinctAll(ts) && SameShape(us[i], u)
    ensures SameShapeAll(ts, us[i := u]) && DistinctAll(us[i := u])
    ensures Roots(us[i := u]) == Roots(ts) && ObjsAll(us[i := u]) == ObjsAll(ts)
  {
    SameShapeCons(us, i, u);
  }

  lemma SoFarStep(whole: InstalledAll, done: seq<Tree>, ts: seq<Tree>, i: nat, u: Tree, k: nat, left: nat, ret: nat,
                  sum: nat)
    requires i < |ts| && SaneAll(ValAll(ts[i..])) && Sane(Val(ts[i])) && SaneAll(ValAll(ts[i + 1..]))
    requires Installed(Val(u), left, ret) == Install(Val(ts[i]), k) && InstallSoFar(whole, done, ts[i..], k, sum)
    ensures left > 0 ==> InstallSoFar(whole, done + [u], ts[i + 1..], left, sum + ret)
    ensures left == 0 ==> whole == InstalledAll(ValAll(done + [u]) + ValAll(ts[i + 1..]), 0, sum + ret)
  {
    SaneAt(ts, i);
    var ms := ValAll(ts[i..]);
    InstallAllStep(ms, k);
    assert ms[1..] == ValAll(ts[i + 1..]) && ms[0] == Val(ts[i]);
    ObjsConcat(done, [u]);
    assert ValAll([u]) == [Val(u)];
    if left == 0 {
      SeqAssoc(ValAll(done), [Val(u)], ValAll(ts[i + 1..]));
    } else {
      SeqAssoc(ValAll(done), [Val(u)], InstallAll(ms[1..], left).msgs);
    }
  }

  lemma SoFarEnd(whole: InstalledAll, us: seq<Tree>, ts: seq<Tree>, i: nat, sum: nat)
    requires i <= |us| == |ts| && us[i..] == ts[i..]
    requires whole == InstalledAll(ValAll(us[..i]) + ValAll(ts[i..]), 0, sum)
    ensures InstalledAll(ValAll(us), 0, sum) == whole
  {
    ObjsConcat(us[..i], us[i..]);
    assert us == us[..i] + us[i..];
  }

  lemma SoFarDone(whole: InstalledAll, us: seq<Tree>, ts: seq<Tree>, left: nat, sum: nat)
    requires |us| == |ts| && SaneAll(ValAll(ts[|ts|..])) && InstallSoFar(whole, us[..|ts|], ts[|ts|..], left, sum)
    ensures InstalledAll(ValAll(us), left, sum) == whole
  {
    assert us[..|ts|] == us && ts[|ts|..] == [];
    assert ValAll(us) + [] == ValAll(us);
  }
}
