/** A REQREP proxy (src/sp/reqrep/pipeline.c): a replier endpoint whose requests go
    out through a requester endpoint, and replies the other way. */
module ReqRep {
  import opened RrHdr

  /** struct req_tgtd and struct rep_tgtd, with the local queue of each. */
  class ReqTarget {
    const uuid: Uuid
    var queue: seq<Rr>
    var out: bool

    constructor (uuid: Uuid)
      ensures this.uuid == uuid && queue == [] && out
    {
      this.uuid, queue, out := uuid, [], true;
    }
  }

  class RepTarget {
    var uuid: Uuid
    var queue: seq<Rr>
    var out: bool

    constructor ()
      ensures uuid == ZERO && queue == [] && out
    {
      uuid, queue, out := ZERO, [], true;
    }
  }

  /** The header sits first and its ttl points into rt[]. */
  predicate Readable(m: Rr) {
    HasHdr(m) && 1 <= GetHdr(m).ttl <= |GetHdr(m).rt|
  }

  class Proxy {
    var front: seq<RepTarget>
    var back: seq<ReqTarget>

    constructor ()
      ensures front == [] && back == []
    {
      front, back := [], [];
    }

    /** receiver_add: `go` is what the load balancer selected. */
    method ReceiverAdd(tg: RepTarget, go: seq<ReqTarget>, m: Rr) returns (rc: int)
      requires Readable(m) && tg in front && |go| <= 1 && forall g :: g in go ==> g in back
      modifies tg`uuid, if go == [] then {} else {go[0]}
      ensures rc == |go| - 1
      ensures go == [] ==> tg.uuid == old(tg.uuid)
      ensures go != [] ==> tg.uuid == RtCur(GetHdr(m)) && go[0].queue == old(go[0].queue) + [m] && go[0].out
    {
      var cur := RtCur(GetHdr(m));
      if go == [] {
        return -1;
      }
      if tg.uuid != cur {
        tg.uuid := cur;
      }
      go[0].queue := go[0].queue + [m];
      go[0].out := true;
      rc := 0;
    }

    /** dispatcher_rm: the request leaves with this hop on its path stack. */
    method DispatcherRm(tg: ReqTarget) returns (rc: int, m: seq<Rr>)
      requires tg in back && forall q :: q in tg.queue ==> Appendable(q)
      modifies tg
      ensures rc == if old(tg.queue) == [] then -1 else 0
      ensures rc == -1 ==> m == [] && tg.queue == [] && !tg.out
      ensures rc == 0 ==>
        && Appendable(old(tg.queue)[0]) && m == [RtAppend(old(tg.queue)[0], tg.uuid)]
        && tg.queue == old(tg.queue)[1..] && tg.out == old(tg.out)
    {
      if tg.queue == [] {
        tg.out := false;
        return -1, [];
      }
      assert tg.queue[0] in tg.queue;
      m := [RtAppend(tg.queue[0], tg.uuid)];
      tg.queue := tg.queue[1..];
      rc := 0;
    }

    /** route_backward: the first frontend target with the uuid one level up. */
    method RouteBackward(m: Rr) returns (tg: RepTarget?)
      requires HasHdr(m) && 2 <= GetHdr(m).ttl <= |GetHdr(m).rt| + 1
      ensures tg == null <==> forall t :: t in front ==> t.uuid != RtPrev(GetHdr(m))
      ensures tg != null ==> tg.uuid == RtPrev(GetHdr(m)) && exists i ::
        0 <= i < |front| && front[i] == tg && forall k :: 0 <= k < i ==> front[k].uuid != RtPrev(GetHdr(m))
    {
      var rt := RtPrev(GetHdr(m));
      var i := 0;
      while i < |front|
        invariant 0 <= i <= |front| && forall k :: 0 <= k < i ==> front[k].uuid != rt
      {
        if front[i].uuid == rt {
          return front[i];
        }
        i := i + 1;
      }
      tg := null;
    }

    /** dispatcher_add: the reply goes back one level, with ttl one lower. */
    method DispatcherAdd(m: Rr) returns (rc: int, tg: RepTarget?)
      requires HasHdr(m) && 2 <= GetHdr(m).ttl <= |GetHdr(m).rt| + 1
      modifies front
      ensures rc == if forall t :: t in front ==> old(t.uuid) != RtPrev(GetHdr(m)) then -1 else 0
      ensures tg != null <==> rc == 0
      ensures tg != null ==>
        tg in front && tg.uuid == RtPrev(GetHdr(m)) && tg.queue == old(tg.queue) + [Lower(m)] && tg.out
      ensures tg != null ==> exists i ::
        0 <= i < |front| && front[i] == tg && forall k :: 0 <= k < i ==> front[k].uuid != RtPrev(GetHdr(m))
      ensures forall t :: t in front && t != tg ==> t.queue == old(t.queue) && t.out == old(t.out)
      ensures forall t :: t in front ==> t.uuid == old(t.uuid)
    {
      tg := RouteBackward(m);
      if tg == null {
        return -1, null;
      }
      tg.queue := tg.queue + [Lower(m)];
      tg.out := true;
      rc := 0;
    }

    /** receiver_rm. */
    method ReceiverRm(tg: RepTarget) returns (rc: int, m: seq<Rr>)
      requires tg in front
      modifies tg`queue, tg`out
      ensures rc == if old(tg.queue) == [] then -1 else 0
      ensures old(tg.queue) == m + tg.queue && |m| == rc + 1 && tg.out == (old(tg.out) && rc == 0)
    {
      if tg.queue == [] {
        tg.out := false;
        return -1, [];
      }
      m := [tg.queue[0]];
      tg.queue := tg.queue[1..];
      rc := 0;
    }
  }

  /** tg, the i-th of the list, has moved to its front. */
  predicate Fronted(was: seq<RepTarget>, now: seq<RepTarget>, tg: RepTarget, i: nat) {
    i < |was| && was[i] == tg && now == [tg] + was[..i] + was[i + 1..]
  }

  /** The end points: reqep_add, repep_add and repep_send. */
  class Requester {
    var rcv: seq<Rr>

    constructor ()
      ensures rcv == []
    {
      rcv := [];
    }

    /** reqep_add: a reply without subs has no header and is refused. */
    method Add(m: Rr) returns (rc: int)
      modifies this
      ensures rc == if m.subs == [] then -1 else 0
      ensures rcv == if m.subs == [] then old(rcv) else old(rcv) + [LowerFirst(m)]
      ensures HasHdr(m) ==> rcv == old(rcv) + [Lower(m)]
    {
      if m.subs == [] {
        return -1;
      }
      rcv := rcv + [LowerFirst(m)];
      rc := 0;
    }
  }

  class Replier {
    var connectors: seq<RepTarget>
    var rcv: seq<Rr>

    constructor ()
      ensures connectors == [] && rcv == []
    {
      connectors, rcv := [], [];
    }

    /** repep_add: remembers under which uuid the peer knows this connection. */
    method Add(tg: RepTarget, m: Rr)
      requires Readable(m)
      modifies this`rcv, tg`uuid
      ensures rcv == old(rcv) + [m] && tg.uuid == RtCur(GetHdr(m))
    {
      var cur := RtCur(GetHdr(m));
      if tg.uuid != cur {
        tg.uuid := cur;
      }
      rcv := rcv + [m];
    }

    /** repep_send: the reply leaves through the target it names, which moves to the
        front of the list; without one it goes nowhere. */
    method Send(m: Rr) returns (tg: RepTarget?, sent: Rr)
      requires Readable(m)
      modifies `connectors
      ensures sent == TurnBack(m)
      ensures tg == null <==> forall t :: t in old(connectors) ==> t.uuid != RtCur(GetHdr(m))
      ensures tg == null ==> connectors == old(connectors)
      ensures tg != null ==>
        tg in old(connectors) && tg.uuid == RtCur(GetHdr(m)) && connectors != [] && connectors[0] == tg
      ensures tg != null ==> exists i ::
        && 0 <= i < |old(connectors)| && Fronted(old(connectors), connectors, tg, i)
        && forall k :: 0 <= k < i ==> old(connectors)[k].uuid != RtCur(GetHdr(m))
      ensures multiset(connectors) == multiset(old(connectors))
    {
      var rt := RtCur(GetHdr(m));
      sent := TurnBack(m);
      var i := 0;
      while i < |connectors|
        invariant 0 <= i <= |connectors| && connectors == old(connectors)
        invariant forall k :: 0 <= k < i ==> connectors[k].uuid != rt
      {
        if connectors[i].uuid == rt {
          tg := connectors[i];
          assert connectors == connectors[..i] + [tg] + connectors[i + 1..];
          ghost var was := connectors;
          connectors := [tg] + connectors[..i] + connectors[i + 1..];
          assert Fronted(was, connectors, tg, i);
          return;
        }
        i := i + 1;
      }
      tg := null;
    }
  }
}
