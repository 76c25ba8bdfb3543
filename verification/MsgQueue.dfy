/** The send queue (msgbuf_head_preinstall_iovs, msgbuf_head_install_iovs and the
    removal loop of sndhead_install_iovs), as functions on queues of messages. */
module MsgQueue {
  import opened MsgTree
  import opened MsgParse
  import opened MsgSend

  /** The pieces one send prepares at most. */
  const NIOVS := 100

  // -------------------------------------------------- the tree behind soff

  lemma {:induction false} FreshSame(m: Msg)
    ensures Lens(Fresh(m)) == Lens(m) && (NumsRight(Fresh(m)) <==> NumsRight(m))
    ensures Fit(m) ==> Fit(Fresh(m)) && Bytes(Fresh(m)) == Bytes(m)
    decreases m, 1
  {
    FreshAllSame(m.subs);
  }

  lemma {:induction false} FreshAllSame(ms: seq<Msg>)
    ensures LensAll(FreshAll(ms)) == LensAll(ms) && (NumsRightAll(FreshAll(ms)) <==> NumsRightAll(ms))
    ensures FitAll(ms) ==> FitAll(FreshAll(ms)) && BytesAll(FreshAll(ms)) == BytesAll(ms)
    decreases ms, 0
  {
    if ms != [] {
      FreshSame(ms[0]);
      FreshAllSame(ms[1..]);
      assert FreshAll(ms)[1..] == FreshAll(ms[1..]);
    }
  }

  lemma {:induction false} FreshFits(m: Msg, after: nat)
    ensures Fits(Fresh(m), after) <==> Fits(m, after)
    decreases m, 1
  {
    FreshAllSame(m.subs);
    FreshFitsAll(m.subs, after);
  }

  lemma {:induction false} FreshFitsAll(ms: seq<Msg>, after: nat)
    ensures FitsAll(FreshAll(ms), after) <==> FitsAll(ms, after)
    decreases ms, 0
  {
    if ms != [] {
      assert FreshAll(ms)[1..] == FreshAll(ms[1..]);
      FreshAllSame(ms[1..]);
      FreshFits(ms[0], LensAll(ms[1..]) + after);
      FreshFitsAll(ms[1..], after);
    }
  }

  lemma {:induction false} FreshFramed(m: Msg)
    ensures Framed(Fresh(m)) <==> Framed(m)
  {
    FreshSame(m);
    FreshAllSame(m.subs);
    FreshFitsAll(m.subs, 0);
  }

  /** An unsent tree has its whole wire image pending. */
  lemma {:induction false} UnsentPending(m: Msg)
    requires Unsent(m) && Fit(m)
    ensures Sane(m) && Pending(m) == Bytes(m) && Fresh(m) == m
    decreases m, 1
  {
    UnsentAllPending(m.subs);
    assert Own(m)[0..] == Own(m);
  }

  lemma {:induction false} UnsentAllPending(ms: seq<Msg>)
    requires UnsentAll(ms) && FitAll(ms)
    ensures SaneAll(ms) && PendingAll(ms) == BytesAll(ms) && FreshAll(ms) == ms
    decreases ms, 0
  {
    if ms != [] {
      UnsentPending(ms[0]);
      UnsentAllPending(ms[1..]);
      assert ms == [ms[0]] + ms[1..];
    }
  }

  // --------------------------------------------------------- install_iovs

  datatype QInstalled = QInstalled(msgs: seq<Msg>, n: nat, left: nat)

  /** msgbuf_head_install_iovs: n counts the messages reported as fully sent. */
  function QInstall(q: seq<Msg>, k: nat): (r: QInstalled)
    requires SaneAll(q)
    ensures |r.msgs| == |q| && r.n <= |q|
  {
    if q == [] then QInstalled([], 0, k)
    else
      var a := Install(q[0], k);
      var one := if a.ret == Len(q[0]) + q[0].clen then 1 else 0;
      if a.left == 0 then QInstalled([a.msg] + q[1..], one, 0)
      else
        var b := QInstall(q[1..], a.left);
        QInstalled([a.msg] + b.msgs, one + b.n, b.left)
  }

  /** The send queue between operations: framed messages, only the first partly
      sent, and that one not completely. */
  predicate Queue(q: seq<Msg>) {
    FramedAll(q) && (q == [] || (Prefix(q[0]) && UnsentAll(q[1..]) && NotDone(q[0])))
  }

  predicate NotDone(m: Msg) {
    Sane(m) && Pending(m) != []
  }

  /** Recording k accepted bytes: the first n messages are complete and go away, and
      what is left is again a queue whose pending bytes are k fewer. */
  predicate QAdvanced(q: seq<Msg>, k: nat, r: QInstalled) {
    && SaneAll(q) && k <= |PendingAll(q)| && |r.msgs| == |q| && r.n <= |q| && r.left == 0
    && FreshAll(r.msgs) == FreshAll(q)
    && DoneAll(r.msgs[..r.n]) && Queue(r.msgs[r.n..]) && SaneAll(r.msgs[r.n..])
    && PendingAll(r.msgs[r.n..]) == PendingAll(q)[k..]
  }

  lemma {:induction false} QInstallAdvances(q: seq<Msg>, k: nat)
    requires Queue(q) && SaneAll(q) && 0 < k <= |PendingAll(q)|
    ensures QAdvanced(q, k, QInstall(q, k))
  {
    var a := Install(q[0], k);
    var head, tail := Pending(q[0]), PendingAll(q[1..]);
    InstallAdvances(q[0], k);
    HeadFramed(q[0], a.msg);
    if k < |head| {
      QStop(q, k, a);
    } else if k == |head| {
      QExact(q, k, a);
    } else {
      QueueTail(q);
      QInstallAdvances(q[1..], k - |head|);
      QGoOn(q, k, a, QInstall(q[1..], a.left));
    }
  }

  /** The test of msgbuf_install_iovs: the returned count equals own length plus
      cmsg_length exactly when nothing is pending. */
  lemma HeadFramed(m: Msg, m': Msg)
    requires Framed(m) && Fresh(m') == Fresh(m) && Sane(m')
    ensures Framed(m') && Lens(m) == Len(m) + m.clen
    ensures Lens(m) - |Pending(m')| == Len(m) + m.clen <==> Pending(m') == []
  {
    FreshFramed(m);
    FreshFramed(m');
  }

  /** An unsent list is a queue. */
  lemma UnsentQueue(q: seq<Msg>)
    requires UnsentAll(q) && FramedAll(q)
    ensures Queue(q) && SaneAll(q)
  {
    UnsentAllFacts(q);
    if q != [] {
      UnsentFacts(q[0]);
    }
  }

  lemma QueueTail(q: seq<Msg>)
    requires Queue(q) && q != []
    ensures Queue(q[1..]) && SaneAll(q[1..])
  {
    UnsentQueue(q[1..]);
  }

  lemma QStop(q: seq<Msg>, k: nat, a: Installed)
    requires Queue(q) && q != [] && SaneAll(q) && 0 < k < |Pending(q[0])| && a == Install(q[0], k)
    requires Advanced(q[0], k, a.msg, a.left, a.ret) && Framed(a.msg) && Lens(q[0]) == Len(q[0]) + q[0].clen
    ensures QAdvanced(q, k, QInstall(q, k))
  {
    var r := [a.msg] + q[1..];
    assert r[1..] == q[1..] && r[0] == a.msg && r[0..] == r && r[..0] == [];
    DropConcat(Pending(q[0]), PendingAll(q[1..]), k);
    assert QInstall(q, k) == QInstalled(r, 0, 0);
  }

  lemma QExact(q: seq<Msg>, k: nat, a: Installed)
    requires Queue(q) && q != [] && SaneAll(q) && 0 < k == |Pending(q[0])| && a == Install(q[0], k)
    requires Advanced(q[0], k, a.msg, a.left, a.ret) && Framed(a.msg) && Lens(q[0]) == Len(q[0]) + q[0].clen
    ensures QAdvanced(q, k, QInstall(q, k))
  {
    var r := [a.msg] + q[1..];
    assert r[1..] == q[1..] && r[0] == a.msg && r[..1] == [a.msg];
    DropConcat(Pending(q[0]), PendingAll(q[1..]), k);
    DoneFacts(a.msg);
    assert QInstall(q, k) == QInstalled(r, 1, 0);
    UnsentQueue(q[1..]);
    assert [a.msg][1..] == [];
    assert DoneAll([a.msg]);
  }

  lemma {:induction false} QGoOn(q: seq<Msg>, k: nat, a: Installed, b: QInstalled)
    requires Queue(q) && q != [] && SaneAll(q) && |Pending(q[0])| < k <= |PendingAll(q)| && a == Install(q[0], k)
    requires Advanced(q[0], k, a.msg, a.left, a.ret) && Lens(q[0]) == Len(q[0]) + q[0].clen
    requires b == QInstall(q[1..], a.left) && QAdvanced(q[1..], a.left, b)
    ensures QAdvanced(q, k, QInstall(q, k))
  {
    var r := [a.msg] + b.msgs;
    DoneFacts(a.msg);
    assert QInstall(q, k) == QInstalled(r, 1 + b.n, b.left);
    assert r[1..] == b.msgs && r[0] == a.msg;
    assert r[..1 + b.n] == [a.msg] + b.msgs[..b.n] && r[1 + b.n..] == b.msgs[b.n..];
    assert ([a.msg] + b.msgs[..b.n])[1..] == b.msgs[..b.n];
    DropConcat(Pending(q[0]), PendingAll(q[1..]), k);
  }
}
