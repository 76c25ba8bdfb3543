/** The whole framing pipeline of one connection as a state machine: threads append
    to the send queue, the sender's loop thread scatters, sends and records, the
    network delivers bytes in any pieces, and the receiver's loop thread parses
    (src/socket/sio/sio.c). Every step is one critical section or system call. */
module Pipeline {
  import opened Bufio
  import opened MsgTree
  import opened MsgParse
  import opened MsgSend
  import opened MsgQueue

  /** snd: the send queue; offered: the scatter list prepared and not yet handed to
      the kernel; taken: bytes the kernel accepted that the queue does not know of
      yet; wire: bytes in flight; rbuf: the receiver's byte queue; rcv: messages
      handed up; queued: every message ever appended, in order. */
  datatype State = State(snd: seq<Msg>, offered: seq<Byte>, taken: nat, wire: seq<Byte>,
                         rbuf: seq<Byte>, rcv: seq<Msg>, queued: seq<Msg>)

  const Init := State([], [], 0, [], [], [], [])

  datatype Step =
    | Append(m: Msg)       // snd_msgbuf_head_add, any thread
    | Prepare              // sndhead_preinstall_iovs
    | Sendv(k: nat)        // rex_sock_sendv accepts k bytes of the scatter list
    | Refused              // rex_sock_sendv reports an error
    | Record               // sndhead_install_iovs and removal of complete messages
    | Arrive(k: nat)       // bio_prefetch takes k bytes off the network
    | Deliver              // one successful msgbuf_deserialize

  predicate Enabled(s: State, t: Step) {
    match t
    case Append(m) => Unsent(m) && Framed(m)
    case Prepare => s.taken == 0 && SaneAll(s.snd)
    case Sendv(k) => s.taken == 0 && 0 < k <= |s.offered|
    case Refused => s.taken == 0
    case Record => s.taken > 0 && SaneAll(s.snd)
    case Arrive(k) => k <= |s.wire|
    case Deliver => Parse(s.rbuf).Got?
  }

  function Next(s: State, t: Step): State
    requires Enabled(s, t)
  {
    match t
    case Append(m) => s.(snd := s.snd + [m], queued := s.queued + [m])
    case Prepare => s.(offered := Concat(SerializeAll(s.snd, NIOVS)))
    case Sendv(k) => s.(wire := s.wire + s.offered[..k], offered := [], taken := k)
    case Refused => s.(offered := [])
    case Record =>
      var r := QInstall(s.snd, s.taken);
      s.(snd := r.msgs[r.n..], taken := 0)
    case Arrive(k) => s.(wire := s.wire[k..], rbuf := s.rbuf + s.wire[..k])
    case Deliver =>
      var p := Parse(s.rbuf);
      s.(rbuf := p.rest, rcv := s.rcv + [p.msg])
  }

  /** A run: states joined by enabled steps, from the initial state. */
  ghost predicate Run(states: seq<State>, steps: seq<Step>) {
    && |states| == |steps| + 1 && states[0] == Init
    && forall i :: 0 <= i < |steps| ==> Enabled(states[i], steps[i]) && states[i + 1] == Next(states[i], steps[i])
  }

  // ------------------------------------------------------------- invariant

  /** What is in the pipe beyond the receiver's queue: bytes on the wire, then the
      pending bytes of the send queue less those already on the wire. */
  function Upstream(s: State): seq<Byte>
    requires SaneAll(s.snd) && s.taken <= |PendingAll(s.snd)|
  {
    s.wire + PendingAll(s.snd)[s.taken..]
  }

  predicate Inv(s: State) {
    && UnsentAll(s.queued) && FramedAll(s.queued)
    && Queue(s.snd) && SaneAll(s.snd)
    && s.taken <= |PendingAll(s.snd)| && (s.taken > 0 ==> s.offered == [])
    && s.offered <= PendingAll(s.snd)
    && |s.rcv| <= |s.queued| && s.rcv == s.queued[..|s.rcv|]
    && |s.snd| <= |s.queued| && FreshAll(s.snd) == s.queued[|s.queued| - |s.snd|..]
    && FramedAll(s.queued[|s.rcv|..])
    && s.rbuf + Upstream(s) == BytesAll(s.queued[|s.rcv|..])
  }

  lemma InitInv()
    ensures Inv(Init)
  {
  }

  lemma AppendPending(q: seq<Msg>, m: Msg)
    requires Queue(q) && SaneAll(q) && Unsent(m) && Framed(m)
    ensures Queue(q + [m]) && SaneAll(q + [m]) && PendingAll(q + [m]) == PendingAll(q) + Bytes(m)
    ensures FreshAll(q + [m]) == FreshAll(q) + [m]
  {
    UnsentPending(m);
    AppendSane(q, m);
    FramedConcat(q, [m]);
    FreshConcat(q, [m]);
    assert FreshAll([m]) == [Fresh(m)] + FreshAll([]) == [m];
    UnsentFacts(m);
    if q == [] {
      assert q + [m] == [m];
    } else {
      assert (q + [m])[1..] == q[1..] + [m] && (q + [m])[0] == q[0];
      UnsentConcat(q[1..], m);
    }
  }

  lemma {:induction false} UnsentConcat(q: seq<Msg>, m: Msg)
    requires UnsentAll(q) && Unsent(m)
    ensures UnsentAll(q + [m])
  {
    if q == [] {
      assert q + [m] == [m];
    } else {
      assert (q + [m])[1..] == q[1..] + [m];
      UnsentConcat(q[1..], m);
    }
  }

  lemma {:induction false} AppendSane(q: seq<Msg>, m: Msg)
    requires SaneAll(q) && Sane(m)
    ensures SaneAll(q + [m]) && PendingAll(q + [m]) == PendingAll(q) + Pending(m)
  {
    if q == [] {
      assert q + [m] == [m];
      assert PendingAll([m]) == Pending(m) + PendingAll([]) == Pending(m);
    } else {
      assert (q + [m])[1..] == q[1..] + [m] && (q + [m])[0] == q[0];
      AppendSane(q[1..], m);
      SeqAssoc(Pending(q[0]), PendingAll(q[1..]), Pending(m));
    }
  }

  lemma OneMessage(m: Msg)
    requires Framed(m)
    ensures FramedAll([m]) && BytesAll([m]) == Bytes(m)
  {
    assert BytesAll([m]) == Bytes(m) + BytesAll([]);
  }

  lemma SuffixAppend<A>(q: seq<A>, n: nat, x: A)
    requires n <= |q|
    ensures (q + [x])[n..] == q[n..] + [x] && (q + [x])[..n] == q[..n]
  {
  }

  lemma Lengthen(r: seq<Byte>, w: seq<Byte>, p: seq<Byte>, k: nat, b: seq<Byte>)
    requires k <= |p|
    ensures r + (w + (p + b)[k..]) == (r + (w + p[k..])) + b
  {
    assert (p + b)[k..] == p[k..] + b;
  }

  lemma AppendStep(s: State, m: Msg)
    requires Inv(s) && Unsent(m) && Framed(m)
    ensures Inv(Next(s, Append(m)))
  {
    hide PendingAll, BytesAll, Bytes, UnsentAll, FramedAll, SaneAll, FreshAll, Queue;
    var s' := Next(s, Append(m));
    AppendPending(s.snd, m);
    UnsentConcat(s.queued, m);
    FramedConcat(s.queued, [m]);
    OneMessage(m);
    var n, k := |s.rcv|, |s.queued| - |s.snd|;
    SuffixAppend(s.queued, n, m);
    SuffixAppend(s.queued, k, m);
    FramedConcat(s.queued[n..], [m]);
    BytesConcat(s.queued[n..], [m]);
    Lengthen(s.rbuf, s.wire, PendingAll(s.snd), s.taken, Bytes(m));
  }

  lemma PrepareStep(s: State)
    requires Inv(s) && Enabled(s, Prepare)
    ensures Inv(Next(s, Prepare))
  {
    SerializeAllDescribes(s.snd, NIOVS);
  }

  lemma SendvStep(s: State, k: nat)
    requires Inv(s) && Enabled(s, Sendv(k))
    ensures Inv(Next(s, Sendv(k)))
  {
    var p := PendingAll(s.snd);
    assert s.offered[..k] == p[..k];
    assert p[0..] == p[..k] + p[k..];
    assert (s.wire + p[..k]) + p[k..] == s.wire + p[0..];
  }

  lemma {:induction false} RecordStep(s: State)
    requires Inv(s) && Enabled(s, Record)
    ensures Inv(Next(s, Record))
  {
    hide QInstall, Queue, UnsentAll, FramedAll, BytesAll, FreshAll, DoneAll, PendingAll, SaneAll, Parse;
    var r := QInstall(s.snd, s.taken);
    QInstallAdvances(s.snd, s.taken);
    var s' := Next(s, Record);
    assert PendingAll(s'.snd)[0..] == PendingAll(s'.snd);
    assert r.msgs == r.msgs[..r.n] + r.msgs[r.n..];
    FreshConcat(r.msgs[..r.n], r.msgs[r.n..]);
    var all := s.queued[|s.queued| - |s.snd|..];
    assert FreshAll(s'.snd) == all[r.n..];
    assert all[r.n..] == s.queued[|s.queued| - |s'.snd|..];
  }

  lemma ArriveStep(s: State, k: nat)
    requires Inv(s) && Enabled(s, Arrive(k))
    ensures Inv(Next(s, Arrive(k)))
  {
    hide PendingAll, BytesAll, UnsentAll, FramedAll, SaneAll, FreshAll, Queue;
    Shift(s.rbuf, s.wire, k, PendingAll(s.snd)[s.taken..]);
  }

  lemma Shift(r: seq<Byte>, w: seq<Byte>, k: nat, p: seq<Byte>)
    requires k <= |w|
    ensures (r + w[..k]) + (w[k..] + p) == r + (w + p)
  {
  }

  /** What the receiver can find at the front of its queue. */
  lemma FrontOfQueue(s: State)
    requires Inv(s)
    ensures Parse(s.rbuf) != Broken
    ensures Parse(s.rbuf).Got? ==> |s.rcv| < |s.queued|
    ensures Parse(s.rbuf).Got? ==> var m := s.queued[|s.rcv|];
      Framed(m) && Parse(s.rbuf).msg == m && s.rbuf == Bytes(m) + Parse(s.rbuf).rest
    ensures Parse(s.rbuf).Short? && |s.rcv| < |s.queued| ==> |s.rbuf| < Lens(s.queued[|s.rcv|])
  {
    var rest := s.queued[|s.rcv|..];
    if rest != [] {
      var m := rest[0];
      UnsentAt(s.queued, |s.rcv|);
      UnsentPending(m);
      var b := BytesAll(rest);
      assert b == Bytes(m) + BytesAll(rest[1..]);
      if |s.rbuf| < Lens(m) {
        assert s.rbuf == b[..|s.rbuf|] == Bytes(m)[..|s.rbuf|];
        Truncated(m, |s.rbuf|);
      } else {
        var t := s.rbuf[Lens(m)..];
        assert s.rbuf == b[..|s.rbuf|];
        assert s.rbuf == Bytes(m) + t;
        RoundTrip(m, t);
      }
    } else {
      assert s.rbuf == [];
    }
  }

  lemma {:induction false} UnsentAt(q: seq<Msg>, i: nat)
    requires UnsentAll(q) && FramedAll(q) && i < |q|
    ensures Unsent(q[i]) && Framed(q[i])
  {
    if i > 0 {
      UnsentAt(q[1..], i - 1);
    }
  }

  lemma DeliverStep(s: State)
    requires Inv(s) && Enabled(s, Deliver)
    ensures Inv(Next(s, Deliver))
  {
    hide PendingAll, BytesAll, Bytes, UnsentAll, FramedAll, SaneAll, FreshAll, Queue, Parse;
    FrontOfQueue(s);
    var n := |s.rcv|;
    var m, t := s.queued[n], Parse(s.rbuf).rest;
    NextMessage(s.queued, n);
    SamePrefix(Bytes(m), t, Upstream(s), BytesAll(s.queued[n + 1..]));
  }

  lemma NextMessage(q: seq<Msg>, n: nat)
    requires n < |q| && FramedAll(q[n..])
    ensures FramedAll(q[n + 1..]) && Framed(q[n]) && BytesAll(q[n..]) == Bytes(q[n]) + BytesAll(q[n + 1..])
    ensures q[..n + 1] == q[..n] + [q[n]]
  {
    assert q[n..][1..] == q[n + 1..] && q[n..][0] == q[n];
  }

  lemma SamePrefix(a: seq<Byte>, t: seq<Byte>, u: seq<Byte>, y: seq<Byte>)
    requires (a + t) + u == a + y
    ensures t + u == y
  {
    SeqAssoc(a, t, u);
    assert t + u == (a + (t + u))[|a|..] && y == (a + y)[|a|..];
  }

  lemma StepInv(s: State, t: Step)
    requires Inv(s) && Enabled(s, t)
    ensures Inv(Next(s, t))
  {
    match t
    case Append(m) => AppendStep(s, m);
    case Prepare => PrepareStep(s);
    case Sendv(k) => SendvStep(s, k);
    case Refused =>
    case Record => RecordStep(s);
    case Arrive(k) => ArriveStep(s, k);
    case Deliver => DeliverStep(s);
  }

  lemma {:induction false} RunInv(states: seq<State>, steps: seq<Step>, i: nat)
    requires Run(states, steps) && i < |states|
    ensures Inv(states[i])
  {
    if i == 0 {
      InitInv();
    } else {
      RunInv(states, steps, i - 1);
      assert Enabled(states[i - 1], steps[i - 1]);
      StepInv(states[i - 1], steps[i - 1]);
    }
  }

  // ---------------------------------------------------------- main theorem

  /** In every run the messages handed up are a prefix of the messages queued: same
      trees, same order, none lost, duplicated or torn; no BUG_ON fires in the parser;
      and once nothing is in the pipe any more, all of them have been handed up. */
  lemma Delivery(states: seq<State>, steps: seq<Step>, i: nat)
    requires Run(states, steps) && i < |states|
    ensures var s := states[i];
      && s.rcv <= s.queued
      && Parse(s.rbuf) != Broken
      && (s.snd == [] && s.wire == [] && !Parse(s.rbuf).Got? ==> s.rcv == s.queued && s.rbuf == [])
  {
    var s := states[i];
    RunInv(states, steps, i);
    FrontOfQueue(s);
    if s.snd == [] && s.wire == [] && !Parse(s.rbuf).Got? {
      Drained(s);
    }
  }

  lemma Drained(s: State)
    requires Inv(s) && s.snd == [] && s.wire == [] && Parse(s.rbuf).Short?
    ensures s.rcv == s.queued && s.rbuf == []
  {
    FrontOfQueue(s);
    assert s.rbuf == BytesAll(s.queued[|s.rcv|..]);
    assert |s.rbuf| == LensAll(s.queued[|s.rcv|..]);
  }

  /** Sending never gets stuck: with something queued and nothing unrecorded, the next
      scatter list is not empty. */
  lemma SomethingToOffer(states: seq<State>, steps: seq<Step>, i: nat)
    requires Run(states, steps) && i < |states| && states[i].snd != [] && states[i].taken == 0
    ensures Enabled(states[i], Prepare) && Next(states[i], Prepare).offered != []
  {
    var s := states[i];
    RunInv(states, steps, i);
    SerializeAllDescribes(s.snd, NIOVS);
    assert PendingAll(s.snd) == Pending(s.snd[0]) + PendingAll(s.snd[1..]);
    var p := SerializeAll(s.snd, NIOVS);
    if |p| == NIOVS {
      assert p[0] != [] && Concat(p) == p[0] + Concat(p[1..]);
    }
  }
}
