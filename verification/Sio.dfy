/** One connection's loop thread (src/socket/sio/sio.c): sending from the queue and
    receiving into the queue, on the heap messages and the paged buffer. */
module Sio {
  import opened Bufio
  import opened MsgTree
  import opened MsgParse
  import opened MsgSend
  import opened MsgQueue
  import opened MsgHeap
  import opened MsgHead
  import opened MsgRecv

  /** The scatter list a send offers to the kernel. */
  ghost function Offered(q: seq<Msg>): seq<Byte>
    requires SaneAll(q)
  {
    Concat(SerializeAll(q, NIOVS))
  }

  /** The send queue once k accepted bytes are recorded. */
  ghost function Left(q: seq<Msg>, k: nat): seq<Msg>
    requires SaneAll(q)
  {
    if k == 0 then q else var r := QInstall(q, k); r.msgs[r.n..]
  }

  /** rex_sock_sendv on the bytes of a scatter list: takes at most `accept`, or fails
      when accept is not positive. */
  method Sendv(iovs: seq<seq<Byte>>, accept: int) returns (nbytes: int, sent: seq<Byte>)
    ensures accept <= 0 ==> nbytes == -1 && sent == []
    ensures accept > 0 ==> nbytes == Min(accept, |Concat(iovs)|) && sent == Concat(iovs)[..nbytes]
  {
    if accept <= 0 {
      return -1, [];
    }
    sent := [];
    var i := 0;
    assert iovs[0..] == iovs;
    while i < |iovs| && |sent| < accept
      invariant 0 <= i <= |iovs| && |sent| <= accept
      invariant |sent| < accept ==> Concat(iovs) == sent + Concat(iovs[i..])
      invariant |sent| == accept ==> accept <= |Concat(iovs)| && sent == Concat(iovs)[..accept]
    {
      var n := Min(|iovs[i]|, accept - |sent|);
      assert iovs[i..][1..] == iovs[i + 1..];
      SeqAssoc(sent, iovs[i], Concat(iovs[i + 1..]));
      assert Concat(iovs) == sent + (iovs[i] + Concat(iovs[i + 1..]));
      sent := sent + iovs[i][..n];
      i := i + 1;
    }
    assert i == |iovs| ==> Concat(iovs[i..]) == [];
    nbytes := |sent|;
  }

  /** The messages a receiver takes off b, one after the other, as long as each takes
      bytes with it, and what stays. */
  function Messages(b: seq<Byte>): seq<Msg>
    decreases |b|
  {
    match Parse(b)
    case Got(m, rest) => if |rest| < |b| then [m] + Messages(rest) else []
    case _ => []
  }

  function Unparsed(b: seq<Byte>): (u: seq<Byte>)
    ensures Parse(u).Got? ==> |Parse(u).rest| == |u|
    decreases |b|
  {
    match Parse(b)
    case Got(m, rest) => if |rest| < |b| then Unparsed(rest) else b
    case _ => b
  }

  /** How the receiver's loop ends on b: it waits for more, a BUG_ON stops it, or it
      decodes a message that takes no bytes, again and again. */
  datatype Ending = Waits | Stops | Spins

  function EndOf(b: seq<Byte>): Ending {
    match Parse(Unparsed(b))
    case Short => Waits
    case Broken => Stops
    case Got(_, _) => Spins
  }

  /** The messages that at most n turns of the loop decode. */
  function Decodes(b: seq<Byte>, n: nat): seq<Msg>
    decreases n
  {
    if n == 0 then []
    else
      match Parse(b)
      case Got(m, rest) => [m] + Decodes(rest, n - 1)
      case _ => []
  }

  /** The loop ends if and only if it does not reach a header whose length is the one
      that wraps to zero. */
  lemma LoopEnds(b: seq<Byte>)
    ensures (exists n: nat :: |Decodes(b, n)| < n) <==> EndOf(b) != Spins
    ensures EndOf(b) == Spins <==>
      var u := Unparsed(b); |u| >= HDR && ReadHeader(u).ulen == WORD - HDR && ReadHeader(u).clen <= |u|
  {
    ZeroByte(Unparsed(b));
    if EndOf(b) == Spins {
      forall n: nat ensures |Decodes(b, n)| == n {
        SpinsForever(b, n);
      }
    } else {
      Finishes(b);
    }
  }

  lemma {:induction false} SpinsForever(b: seq<Byte>, n: nat)
    requires EndOf(b) == Spins
    ensures |Decodes(b, n)| == n
    decreases n
  {
    hide Parse;
    if n > 0 {
      ZeroByte(b);
      SpinsForever(Parse(b).rest, n - 1);
    }
  }

  lemma {:induction false} Finishes(b: seq<Byte>)
    requires EndOf(b) != Spins
    ensures |Decodes(b, |Messages(b)| + 1)| == |Messages(b)|
    decreases |b|
  {
    hide Parse;
    if Parse(b).Got? {
      Finishes(Parse(b).rest);
    }
  }

  /** Bytes of whole messages followed by an unfinished one: exactly the messages. */
  lemma {:induction false} MessagesOf(ms: seq<Msg>, tail: seq<Byte>)
    requires FramedAll(ms) && Parse(tail) == Short
    ensures Messages(BytesAll(ms) + tail) == FreshAll(ms) && Unparsed(BytesAll(ms) + tail) == tail
    decreases |ms|
  {
    if ms == [] {
      assert [] + tail == tail;
    } else {
      assert BytesAll(ms) + tail == Bytes(ms[0]) + (BytesAll(ms[1..]) + tail);
      RoundTrip(ms[0], BytesAll(ms[1..]) + tail);
      MessagesOf(ms[1..], tail);
    }
  }

  class Connection {
    const snd: MsgHead
    const rcv: MsgHead
    const rbuf: Bio

    constructor (sndWnd: int, rcvWnd: int)
      ensures SndValid() && RcvValid() && snd.Msgs() == [] && rcv.Msgs() == [] && rbuf.Contents() == []
    {
      snd := new MsgHead({EvAdd}, sndWnd);
      rcv := new MsgHead({EvFull, EvNonFull}, rcvWnd);
      rbuf := new Bio();
    }

    ghost predicate SndValid()
      reads snd, ObjsAll(snd.trees)
    {
      snd.Valid() && Queue(snd.Msgs()) && SaneAll(snd.Msgs())
    }

    ghost predicate RcvValid()
      reads rcv, ObjsAll(rcv.trees), rbuf, rbuf.repr
    {
      rcv.Valid() && rbuf.Valid() && rcv !in rbuf.repr && forall o :: o in ObjsAll(rcv.trees) ==> o !in rbuf.repr
    }

    lemma SndParts()
      ensures SndValid() <==> snd.Valid() && Queue(snd.Msgs()) && SaneAll(snd.Msgs())
    {
    }

    /** __simple_send: offers at most NIOVS pieces and records what was accepted. */
    method SimpleSend(accept: int) returns (rc: int, sent: seq<Byte>)
      requires SndValid()
      modifies snd, ObjsAll(snd.trees)
      ensures SndValid() && rc == if old(snd.Msgs()) == [] || accept <= 0 then -1 else 0
      ensures rc == -1 ==> sent == [] && snd.Msgs() == old(snd.Msgs())
      ensures rc == 0 ==> sent != [] && sent == old(Offered(snd.Msgs()))[..Min(accept, |old(Offered(snd.Msgs()))|)]
      ensures snd.Msgs() == Left(old(snd.Msgs()), |sent|)
      ensures sent + PendingAll(snd.Msgs()) == old(PendingAll(snd.Msgs()))
      ensures ObjsAll(snd.trees) <= old(ObjsAll(snd.trees))
    {
      hide SndValid, MsgHead.Valid, MsgHead.Msgs, Queue, SaneAll, PendingAll;
      hide SerializeAll, Concat, QInstall, QAdvanced, Offered, Objs, ObjsAll;
      SndParts();
      ghost var q := snd.Msgs();
      OfferedFacts(q);
      var iovs := new seq<Byte>[NIOVS](_ => []);
      ObjsAllAllocated(snd.trees);
      NotAnArray(snd.trees, iovs);
      var n := snd.PreinstallIovs(iovs, NIOVS);
      SndParts();
      sent := [];
      assert [] + PendingAll(q) == PendingAll(q);
      if n == 0 {
        return -1, [];
      }
      var nbytes;
      nbytes, sent := Sendv(iovs[..n], accept);
      if nbytes <= 0 {
        return -1, [];
      }
      QInstallAdvances(q, nbytes);
      AdvancedFacts(q, nbytes, sent);
      var fired := snd.RecordSent(nbytes);
      SndParts();
      rc := 0;
    }

    /** flush_snd_msgbuf: sends until the queue is empty or the kernel refuses; a script
        that runs out stands for EAGAIN. */
    method FlushSnd(script: seq<int>) returns (sent: seq<Byte>)
      requires SndValid()
      modifies snd, ObjsAll(snd.trees)
      ensures SndValid() && sent + PendingAll(snd.Msgs()) == old(PendingAll(snd.Msgs()))
      ensures (forall i :: 0 <= i < |script| ==> script[i] > 0) && |script| >= |sent + PendingAll(snd.Msgs())| ==>
        PendingAll(snd.Msgs()) == []
    {
      hide MsgHead.Valid, MsgHead.Msgs, PendingAll, Offered, ObjsAll;
      NothingPending();
      sent := [];
      var i := 0;
      assert [] + PendingAll(snd.Msgs()) == PendingAll(snd.Msgs());
      while i < |script|
        invariant 0 <= i <= |script| && SndValid() && i <= |sent|
        invariant ObjsAll(snd.trees) <= old(ObjsAll(snd.trees))
        invariant sent + PendingAll(snd.Msgs()) == old(PendingAll(snd.Msgs()))
      {
        var rc, more := SimpleSend(script[i]);
        if rc < 0 {
          return;
        }
        SeqAssoc(sent, more, PendingAll(snd.Msgs()));
        sent := sent + more;
        i := i + 1;
      }
    }

    /** sio_connector_rcv: takes what the network delivers, then hands up every message
        that is complete. Where the code's loop would spin, this one stops and says so. */
    method ConnectorRcv(script: seq<ReadResult>) returns (rc: int, ending: Ending)
      requires RcvValid() && forall r :: r in script && r.ReadBytes? ==> |r.data| <= PAGE_SIZE
      modifies rcv, rbuf.repr
      ensures RcvValid()
      ensures var all := old(rbuf.Contents()) + Delivered(script);
        if Delivered(script) == [] && Fatal(script) then
          rc == -1 && rcv.Msgs() == old(rcv.Msgs()) && rbuf.Contents() == old(rbuf.Contents())
        else
          rc == 0 && rcv.Msgs() == old(rcv.Msgs()) + Messages(all) && ending == EndOf(all)
          && (ending != Stops ==> rbuf.Contents() == Unparsed(all))
    {
      hide Flat, Apart, MsgHead.Msgs, MsgHead.Valid, ObjsAll, Objs, Rep, RepAll, Distinct;
      hide DistinctAll, Val, ValAll, Parse, Messages, Unparsed, Delivered, Fatal, Outcome, EndOf;
      ending := Waits;
      ghost var all := rbuf.Contents() + Delivered(script);
      assert rbuf.Contents() + [] == rbuf.Contents();
      ObjsAllAllocated(rcv.trees);
      var nbytes := rbuf.Prefetch(script);
      if nbytes < 0 {
        return -1, Waits;
      }
      rc := 0;
      ghost var got := [];
      assert rcv.Msgs() == old(rcv.Msgs()) + [] && [] + Messages(all) == Messages(all);
      while true
        invariant RcvValid() && fresh(rbuf.repr - old(rbuf.repr)) && rc == 0
        invariant rcv.Msgs() == old(rcv.Msgs()) + got && Messages(all) == got + Messages(rbuf.Contents())
        invariant Unparsed(all) == Unparsed(rbuf.Contents())
        decreases |rbuf.Contents()|
      {
        ghost var b := rbuf.Contents();
        var before := rbuf.bsize;
        SameEnd(all, b);
        ObjsAllAllocated(rcv.trees);
        var st, msg;
        ghost var ts;
        st, msg, ts := Deserialize(rbuf);
        OutcomeFacts(b, st, ts, rbuf.Contents());
        if st != Ok || rbuf.bsize == before {
          ending := if st == Again then Waits else if st == Bug then Stops else Spins;
          break;
        }
        SeqAssoc(got, [Val(ts[0])], Messages(rbuf.Contents()));
        SeqAssoc(old(rcv.Msgs()), got, [Val(ts[0])]);
        var fired := rcv.In(msg, ts[0]);
        JoinObjs(rcv.trees, ts[0]);
        got := got + [Val(ts[0])];
      }
      assert got + [] == got;
    }
  }

  lemma NothingPending()
    ensures PendingAll([]) == []
  {
  }

  lemma {:induction false} JoinObjs(trees: seq<Tree>, t: Tree)
    requires trees != [] && trees[|trees| - 1] == t
    ensures ObjsAll(trees) == ObjsAll(trees[..|trees| - 1]) + Objs(t)
  {
    assert trees == trees[..|trees| - 1] + [t] && [t][1..] == [];
    ObjsConcat(trees[..|trees| - 1], [t]);
  }

  /** What a call of msgbuf_deserialize does to the messages to come. */
  lemma {:induction false} OutcomeFacts(b: seq<Byte>, st: Status, ts: seq<Tree>, after: seq<Byte>)
    requires Outcome(b, st, ts, after)
    ensures st == Ok ==> |ts| == 1 && Rep(ts[0]) && Distinct(ts[0]) && ObjsAll(ts) == Objs(ts[0]) && |after| <= |b|
    ensures st == Ok && |after| < |b| ==>
      Messages(b) == [Val(ts[0])] + Messages(after) && Unparsed(b) == Unparsed(after)
    ensures st == Ok && |after| == |b| ==> Messages(b) == [] && Unparsed(b) == b == after && EndOf(b) == Spins
    ensures st == Again ==> Messages(b) == [] && Unparsed(b) == b == after && EndOf(b) == Waits
    ensures st == Bug ==> Messages(b) == [] && Unparsed(b) == b && EndOf(b) == Stops
  {
    ZeroByte(b);
    if st == Ok {
      assert ts[1..] == [];
    }
  }

  lemma SameEnd(all: seq<Byte>, b: seq<Byte>)
    requires Unparsed(all) == Unparsed(b)
    ensures EndOf(all) == EndOf(b)
  {
  }

  lemma {:induction false} OfferedFacts(q: seq<Msg>)
    requires Queue(q) && SaneAll(q)
    ensures Offered(q) == Concat(SerializeAll(q, 100)) && Offered(q) <= PendingAll(q)
    ensures SerializeAll(q, NIOVS) == [] <==> q == []
    ensures q != [] ==> Offered(q) != []
  {
    var p := SerializeAll(q, NIOVS);
    SerializeAllDescribes(q, NIOVS);
    if q != [] {
      assert Pending(q[0]) != [];
    }
    if p != [] {
      assert p[0] != [];
    }
  }

  lemma AdvancedFacts(q: seq<Msg>, k: nat, sent: seq<Byte>)
    requires SaneAll(q) && QAdvanced(q, k, QInstall(q, k)) && k <= |Offered(q)|
    requires sent == Offered(q)[..k] && Offered(q) <= PendingAll(q)
    ensures var r := QInstall(q, k);
      Queue(r.msgs[r.n..]) && SaneAll(r.msgs[r.n..]) && sent + PendingAll(r.msgs[r.n..]) == PendingAll(q)
  {
    assert PendingAll(q)[..k] + PendingAll(q)[k..] == PendingAll(q);
  }
}
