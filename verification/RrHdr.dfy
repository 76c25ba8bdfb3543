/** The routing header of REQREP messages (src/sp/reqrep/rr.h) and the per-message
    effect of the endpoint operations. */
module RrHdr {
  import opened Bufio
  import opened MsgTree
  import opened MsgOps

  /** uuid_t; ZERO is what a fresh rep_tgtd holds. */
  type Uuid = int
  const ZERO: Uuid := 0

  /** struct rrhdr: ttl and endTtl are 4-bit fields, rt[] is the path stack. */
  datatype Hdr = Hdr(go: bool, ttl: nat, endTtl: nat, rt: seq<Uuid>)

  /** A sub of a message: a routing header or something of the user's. */
  datatype Sub = Head(h: Hdr) | Other(data: seq<Byte>)

  datatype Rr = Rr(data: seq<Byte>, subs: seq<Sub>)

  /** get_rrhdr finds a header: the first sub. */
  predicate HasHdr(m: Rr) {
    m.subs != [] && m.subs[0].Head?
  }

  function GetHdr(m: Rr): Hdr
    requires HasHdr(m)
  {
    m.subs[0].h
  }

  function SetHdr(m: Rr, h: Hdr): Rr
    requires HasHdr(m)
  {
    m.(subs := [Head(h)] + m.subs[1..])
  }

  function NewHdr(uuid: Uuid): Hdr {
    Hdr.Hdr(true, 1, 0, [uuid])
  }

  /** __rt_cur and __rt_prev; their BUG_ONs are the preconditions. */
  function RtCur(h: Hdr): Uuid
    requires 1 <= h.ttl <= |h.rt|
  {
    h.rt[h.ttl - 1]
  }

  function RtPrev(h: Hdr): Uuid
    requires 2 <= h.ttl <= |h.rt| + 1
  {
    h.rt[h.ttl - 2]
  }

  /** __rt_append: one more entry of space, then the entry at the new ttl is written. */
  function Append(h: Hdr, uuid: Uuid): Hdr
    requires 1 <= (h.ttl + 1) % 16 <= |h.rt| + 1
  {
    var ttl := (h.ttl + 1) % 16;
    h.(ttl := ttl, rt := (h.rt + [ZERO])[ttl - 1 := uuid])
  }

  /** reqep_send: the header becomes the last sub. */
  function ReqSend(m: Rr, uuid: Uuid): Rr {
    m.(subs := m.subs + [Head(NewHdr(uuid))])
  }

  /** The BUG_ON behind __rt_append cannot fire. */
  predicate Appendable(m: Rr) {
    HasHdr(m) && 1 <= (GetHdr(m).ttl + 1) % 16 <= |GetHdr(m).rt| + 1
  }

  /** That BUG_ON stops exactly a header whose 4-bit ttl is used up, or runs ahead of it. */
  lemma AppendableIs(m: Rr)
    requires HasHdr(m) && GetHdr(m).ttl < 16
    ensures Appendable(m) <==> GetHdr(m).ttl != 15 && GetHdr(m).ttl <= |GetHdr(m).rt|
  {
  }

  /** rt_append: the first sub leaves and its extension becomes the last sub. */
  function RtAppend(m: Rr, uuid: Uuid): Rr
    requires Appendable(m)
  {
    m.(subs := m.subs[1..] + [Head(Append(GetHdr(m), uuid))])
  }

  /** pg->ttl--, on a 4-bit field. */
  function Lower(m: Rr): Rr
    requires HasHdr(m)
  {
    var h := GetHdr(m);
    SetHdr(m, h.(ttl := (h.ttl + 15) % 16))
  }

  /** Where struct rrhdr has its ttl, in the low four bits. */
  const TTL_AT := 16

  /** The same on whatever the first sub is, which is not checked. A sub that ends before
      that place stays as it is: what changes lies outside the message. */
  function LowerFirst(m: Rr): Rr
    requires m.subs != []
  {
    match m.subs[0]
    case Head(_) => Lower(m)
    case Other(d) =>
      if |d| <= TTL_AT then m
      else m.(subs := [Other(d[TTL_AT := d[TTL_AT] / 16 * 16 + (d[TTL_AT] % 16 + 15) % 16])] + m.subs[1..])
  }

  /** repep_send marks the way back. */
  function TurnBack(m: Rr): Rr
    requires HasHdr(m)
  {
    var h := GetHdr(m);
    SetHdr(m, h.(go := false, endTtl := h.ttl))
  }

  // ------------------------------------------------- what is left as it is

  /** Sending and forwarding a request, and answering it: the payload and the other subs
      stay, only the header is touched. */
  lemma RequestKept(m: Rr, uuid: Uuid)
    ensures ReqSend(m, uuid).data == m.data && |ReqSend(m, uuid).subs| == |m.subs| + 1
    ensures ReqSend(m, uuid).subs[..|m.subs|] == m.subs
    ensures m.subs == [] ==> HasHdr(ReqSend(m, uuid)) && GetHdr(ReqSend(m, uuid)) == Hdr.Hdr(true, 1, 0, [uuid])
    ensures Appendable(m) ==>
      var n := RtAppend(m, uuid); n.data == m.data && |n.subs| == |m.subs| && n.subs[..|m.subs| - 1] == m.subs[1..]
    ensures Appendable(m) && |m.subs| == 1 ==>
      var n := RtAppend(m, uuid); HasHdr(n) && GetHdr(n).go == GetHdr(m).go && GetHdr(n).endTtl == GetHdr(m).endTtl
  {
  }

  lemma ReplyKept(m: Rr)
    requires HasHdr(m)
    ensures var n := TurnBack(m);
      && n.data == m.data && HasHdr(n) && |n.subs| == |m.subs| && n.subs[1..] == m.subs[1..]
      && !GetHdr(n).go && GetHdr(n).endTtl == GetHdr(n).ttl == GetHdr(m).ttl && GetHdr(n).rt == GetHdr(m).rt
    ensures var n := Lower(m);
      && n.data == m.data && HasHdr(n) && |n.subs| == |m.subs| && n.subs[1..] == m.subs[1..]
      && GetHdr(n).go == GetHdr(m).go && GetHdr(n).endTtl == GetHdr(m).endTtl && GetHdr(n).rt == GetHdr(m).rt
      && (GetHdr(n).ttl + 1) % 16 == GetHdr(m).ttl % 16
  {
  }

  /** Lowering whatever comes first changes four bits of it and nothing else. */
  lemma FirstKept(m: Rr)
    requires m.subs != []
    ensures var n := LowerFirst(m);
      && n.data == m.data && |n.subs| == |m.subs| && n.subs[1..] == m.subs[1..]
      && (m.subs[0].Head? <==> n.subs[0].Head?) && (HasHdr(m) ==> n == Lower(m))
    ensures m.subs[0].Other? ==> var d, e := m.subs[0].data, LowerFirst(m).subs[0].data;
      && |e| == |d| && (forall i :: 0 <= i < |d| && i != TTL_AT ==> e[i] == d[i])
      && (|d| > TTL_AT ==> e[TTL_AT] / 16 == d[TTL_AT] / 16 && (e[TTL_AT] as int + 1) % 16 == d[TTL_AT] % 16)
  {
  }

  // -------------------------------------------------- where the header ends up

  predicate UserSubs(m: Rr) {
    forall s :: s in m.subs ==> s.Other?
  }

  /** The header of a sent request can be found exactly when the user put no subs on
      the message. */
  lemma SendFirst(m: Rr, uuid: Uuid)
    requires UserSubs(m)
    ensures HasHdr(ReqSend(m, uuid)) <==> m.subs == []
    ensures m.subs == [] ==> GetHdr(ReqSend(m, uuid)) == NewHdr(uuid)
  {
    if m.subs != [] {
      assert m.subs[0] in m.subs;
    }
  }

  /** After forwarding, the extended header can be found exactly when it is the only sub. */
  lemma AppendFirst(m: Rr, uuid: Uuid)
    requires Appendable(m)
    requires forall i :: 1 <= i < |m.subs| ==> m.subs[i].Other?
    ensures HasHdr(RtAppend(m, uuid)) <==> |m.subs| == 1
    ensures |m.subs| == 1 ==> GetHdr(RtAppend(m, uuid)) == Append(GetHdr(m), uuid)
  {
  }

  /** A request with one sub of its own, and one that is forwarded with such a sub. */
  lemma HeaderLostWitness()
    ensures !HasHdr(ReqSend(Rr([], [Other([])]), 1))
    ensures var m := Rr([], [Head(NewHdr(1)), Other([])]); Appendable(m) && !HasHdr(RtAppend(m, 2))
  {
    SendFirst(Rr([], [Other([])]), 1);
    AppendFirst(Rr([], [Head(NewHdr(1)), Other([])]), 2);
  }

  /** ttl stays exact for up to 15 hops and is lost at the sixteenth. */
  lemma TtlWidth(h: Hdr, uuid: Uuid)
    requires h.ttl == |h.rt| <= 15
    ensures |h.rt| < 15 <==> (h.ttl + 1) % 16 == h.ttl + 1
    ensures |h.rt| < 15 ==> Append(h, uuid) == h.(ttl := h.ttl + 1, rt := h.rt + [uuid])
  {
    if |h.rt| < 15 {
      assert (h.rt + [ZERO])[h.ttl := uuid] == h.rt + [uuid];
    }
  }

  // ------------------------------------------------------------------ sizes

  const SIZEOF_RRHDR := 24
  const SIZEOF_RTENTRY := 34

  /** SADD never refuses a header of up to 15 entries on a message without other subs. */
  lemma HeaderFits(m: Msg, hdr: seq<Byte>, crc: nat -> nat)
    requires Accurate(m) && m.subs == [] && exists n :: 1 <= n <= 15 && |hdr| == SIZEOF_RRHDR + SIZEOF_RTENTRY * n
    ensures Add(m, Alloc(hdr, crc)).Added? && Accurate(Add(m, Alloc(hdr, crc)).msg)
  {
    var x := Alloc(hdr, crc);
    assert Accurate(x) && Lens(x) == HDR + |hdr| && LensAll([]) == 0;
    AddAccurate(m, x);
  }
}
