/** The methods of a connection are runs of the steps of Pipeline: what is proved of every
    run there holds of connections. */
module SioSteps {
  import opened Bufio
  import opened MsgTree
  import opened MsgParse
  import opened MsgSend
  import opened MsgQueue
  import opened Pipeline
  import opened Sio

  /** One __simple_send: the scatter list, what the kernel takes of it, the record. */
  lemma SendIsSteps(s: State, accept: nat)
    requires Inv(s) && s.taken == 0 && s.snd != [] && accept > 0
    ensures
      var k := Min(accept, |Offered(s.snd)|);
      && Enabled(s, Prepare) && Enabled(Next(s, Prepare), Sendv(k))
      && Enabled(Next(Next(s, Prepare), Sendv(k)), Record)
      && Next(Next(Next(s, Prepare), Sendv(k)), Record)
        == s.(offered := [], wire := s.wire + Offered(s.snd)[..k], snd := Left(s.snd, k))
  {
    OfferedFacts(s.snd);
  }

  /** One that the kernel refuses: nothing but the scatter list is gone. */
  lemma RefusedIsSteps(s: State)
    requires Inv(s) && s.taken == 0
    ensures Enabled(s, Prepare) && Enabled(Next(s, Prepare), Step.Refused)
    ensures Next(Next(s, Prepare), Step.Refused) == s.(offered := [])
  {
  }

  /** Deliver as long as that is possible. */
  function DeliverMany(s: State): State
    decreases |s.rbuf|
  {
    if Enabled(s, Deliver) && |Parse(s.rbuf).rest| < |s.rbuf| then DeliverMany(Next(s, Deliver)) else s
  }

  lemma {:induction false} DeliverAll(s: State)
    requires Inv(s)
    ensures DeliverMany(s) == s.(rbuf := Unparsed(s.rbuf), rcv := s.rcv + Messages(s.rbuf))
    ensures EndOf(s.rbuf) == Waits && Inv(DeliverMany(s))
    decreases |s.rbuf|
  {
    hide Inv, Parse;
    FrontOfQueue(s);
    if Parse(s.rbuf).Got? {
      DeliverStep(s);
      DeliverAll(Next(s, Deliver));
    }
  }

  /** sio_connector_rcv on k bytes from the network: they arrive and messages are delivered
      as long as there are any. In no run does the loop hit a BUG_ON or spin. */
  lemma ReceiveIsSteps(s: State, k: nat)
    requires Inv(s) && k <= |s.wire|
    ensures
      var all := s.rbuf + s.wire[..k];
      && EndOf(all) == Waits
      && DeliverMany(Next(s, Arrive(k)))
        == s.(wire := s.wire[k..], rbuf := Unparsed(all), rcv := s.rcv + Messages(all))
  {
    StepInv(s, Arrive(k));
    DeliverAll(Next(s, Arrive(k)));
  }
}
