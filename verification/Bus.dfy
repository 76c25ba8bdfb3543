/** A BUS endpoint (src/sp/bus/bus.c): every message goes to all targets but the one
    it came from. */
module Bus {
  import opened Seqs
  import opened MsgTree
  import opened MsgOps

  /** struct bus_tgtd; `out` is whether XPOLLOUT is among the polled events. */
  class Target {
    var queue: seq<Msg>
    var out: bool

    constructor ()
      ensures queue == [] && out
    {
      queue, out := [], true;
    }
  }

  /** The queues of an endpoint's targets after it sends msg. */
  function Sent(qs: seq<seq<Msg>>, msg: Msg, crc: nat -> nat): seq<seq<Msg>> {
    seq(|qs|, i requires 0 <= i < |qs| => qs[i] + [if i == |qs| - 1 then msg else Clone(msg, crc)])
  }

  /** And after it has added msg, which came in on the target at `src`. */
  function Forwarded(qs: seq<seq<Msg>>, src: nat, msg: Msg, crc: nat -> nat): seq<seq<Msg>> {
    seq(|qs|, i requires 0 <= i < |qs| => qs[i] + if i == src then [] else [Clone(msg, crc)])
  }

  class Endpoint {
    const crc: nat -> nat
    var connectors: seq<Target>
    var rcv: seq<Msg>

    /** A target with something queued is polled for output. */
    ghost predicate Valid()
      reads this, connectors
    {
      NoDup(connectors) && forall t :: t in connectors && t.queue != [] ==> t.out
    }

    function Queues(): seq<seq<Msg>>
      reads this, connectors
    {
      seq(|connectors|, i requires 0 <= i < |connectors| reads this, connectors => connectors[i].queue)
    }

    constructor (crc: nat -> nat)
      ensures Valid() && connectors == [] && rcv == [] && this.crc == crc
    {
      this.crc := crc;
      connectors, rcv := [], [];
    }

    /** bus_ep_join and the registration in epbase_add_tgtd. */
    method Join() returns (t: Target)
      requires Valid()
      modifies this`connectors
      ensures Valid() && fresh(t) && connectors == old(connectors) + [t] && t.queue == []
    {
      t := new Target();
      connectors := connectors + [t];
    }

    /** bus_ep_send: the last target gets the message itself, the others clones. */
    method Send(msg: Msg)
      requires Valid()
      modifies connectors
      ensures Valid() && Queues() == Sent(old(Queues()), msg, crc)
    {
      var i := 0;
      while i < |connectors|
        invariant 0 <= i <= |connectors| && Valid()
        invariant forall k :: 0 <= k < i ==>
          connectors[k].queue == old(connectors[k].queue) + [if k == |connectors| - 1 then msg else Clone(msg, crc)]
        invariant forall k :: i <= k < |connectors| ==> connectors[k].queue == old(connectors[k].queue)
      {
        var dst := connectors[i];
        var tmp := if i < |connectors| - 1 then Clone(msg, crc) else msg;
        dst.queue := dst.queue + [tmp];
        dst.out := true;
        i := i + 1;
      }
    }

    /** bus_ep_add: clones to every target but the source, the message itself to the
        local receive queue. */
    method Add(src: Target, msg: Msg)
      requires Valid()
      modifies connectors, `rcv
      ensures Valid() && rcv == old(rcv) + [msg]
      ensures forall i :: 0 <= i < |connectors| && connectors[i] == src ==>
        Queues() == Forwarded(old(Queues()), i, msg, crc)
      ensures src !in connectors ==> Queues() == Forwarded(old(Queues()), |connectors|, msg, crc)
    {
      var i := 0;
      while i < |connectors|
        invariant 0 <= i <= |connectors| && Valid() && rcv == old(rcv)
        invariant forall k :: 0 <= k < i ==>
          connectors[k].queue == old(connectors[k].queue) + if connectors[k] == src then [] else [Clone(msg, crc)]
        invariant forall k :: i <= k < |connectors| ==> connectors[k].queue == old(connectors[k].queue)
      {
        var tg := connectors[i];
        if tg != src {
          tg.queue := tg.queue + [Clone(msg, crc)];
          tg.out := true;
        }
        i := i + 1;
      }
      rcv := rcv + [msg];
    }

    /** bus_ep_rm: what goes out on a target that became writable. */
    method Rm(tg: Target) returns (rc: int, msg: seq<Msg>)
      requires Valid() && tg in connectors
      modifies tg
      ensures Valid() && rc == if old(tg.queue) == [] then -1 else 0
      ensures old(tg.queue) == msg + tg.queue && |msg| == rc + 1 && (rc == -1 ==> !tg.out)
    {
      if tg.queue == [] {
        tg.out := false;
        return -1, [];
      }
      msg := [tg.queue[0]];
      tg.queue := tg.queue[1..];
      rc := 0;
    }
  }

  // -------------------------------------------------------------- contents

  lemma {:induction false} BareBare(subs: seq<Msg>, crc: nat -> nat)
    ensures Bare(Bare(subs, crc), crc) == Bare(subs, crc)
  {
    if subs != [] {
      BareBare(subs[1..], crc);
      var b := Bare(subs, crc);
      assert b[0] == Alloc(subs[0].data, crc) && b[1..] == Bare(subs[1..], crc);
    }
  }

  /** Cloning again changes nothing. */
  lemma CloneTwice(m: Msg, crc: nat -> nat)
    requires Accurate(m)
    ensures Clone(Clone(m, crc), crc) == Clone(m, crc)
  {
    var c := Clone(m, crc);
    CopyAll(Alloc(m.data, crc), m.subs, crc);
    CopyAll(Alloc(c.data, crc), c.subs, crc);
    BareBare(m.subs, crc);
    CloneFacts(m, crc);
    CloneFacts(c, crc);
    Same(c, Clone(c, crc));
  }

  /** Accurate messages are equal when their own parts and their subs are. */
  lemma Same(a: Msg, b: Msg)
    requires Accurate(a) && Accurate(b) && a.data == b.data && a.subs == b.subs
    requires a.checksum == b.checksum && a.soff == b.soff
    ensures a == b
  {
  }
}
