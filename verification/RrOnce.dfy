/** What becomes of the requests and answers in a network of requesters, proxies and
    repliers: each is at one place at a time, and arrives as it was sent. */
module RrOnce {
  import opened Bufio
  import opened RrHdr
  import opened RrNet

  datatype Place = ReqWire | ReqQ | Served | RepWire | RepQ | Replied

  /** The i-th message at a place of connection k, or of node k. */
  datatype Pos = Pos(place: Place, k: nat, i: nat)

  function ListAt(s: Net, place: Place, k: nat): seq<Item> {
    match place
    case ReqWire => s.reqWire(k)
    case ReqQ => s.reqQ(k)
    case Served => s.served(k)
    case RepWire => s.repWire(k)
    case RepQ => s.repQ(k)
    case Replied => seq(|s.replies(k)|, i requires 0 <= i < |s.replies(k)| => s.replies(k)[i].1)
  }

  /** Which request is there; -1 where there is none. */
  function ReqAt(s: Net, p: Pos): int {
    var list := ListAt(s, p.place, p.k);
    if p.i < |list| then list[p.i].req else -1
  }

  /** Every request is at exactly one place, unless a proxy without a target dropped it. */
  ghost predicate Once(s: Net) {
    && (forall p :: ReqAt(s, p) < |s.asked|) && (forall r :: r in s.dropped ==> r < |s.asked|)
    && (forall p, q :: ReqAt(s, p) >= 0 && ReqAt(s, p) == ReqAt(s, q) ==> p == q)
    && (forall r: nat :: r < |s.asked| ==> (r !in s.dropped <==> exists p :: ReqAt(s, p) == r))
  }

  /** A request has the payload it was sent with and started where it was sent, and is
      marked as going; an answer has the payload it was given, for that request, and is
      marked as coming back from the end of the path. */
  predicate Right(s: Net, place: Place, it: Item) {
    && it.req < |s.asked| && it.path != [] && it.path[0] == s.asked[it.req].k && HasHdr(it.msg)
    && var h := GetHdr(it.msg);
    if place.ReqWire? || place.ReqQ? || place.Served? then
      it.msg.data == s.asked[it.req].data && h.go && h.endTtl == 0 && h.ttl == |it.path|
    else
      it.rep < |s.answered| && s.answered[it.rep] == Answer(it.req, it.msg.data) && !h.go && h.endTtl == |it.path|
  }

  ghost predicate AllRight(s: Net) {
    forall place, k: nat, i :: 0 <= i < |ListAt(s, place, k)| ==> Right(s, place, ListAt(s, place, k)[i])
  }

  // ------------------------------------------------------- what a step moves

  predicate Same(s: Net, t: Net, place: Place, k: nat) {
    ListAt(t, place, k) == ListAt(s, place, k)
  }

  /** The i-th message at (a, j) is taken out. */
  predicate Cut(s: Net, t: Net, a: Place, j: nat, i: nat) {
    i < |ListAt(s, a, j)| && ListAt(t, a, j) == ListAt(s, a, j)[..i] + ListAt(s, a, j)[i + 1..]
  }

  predicate Put(s: Net, t: Net, b: Place, k: nat, it: Item) {
    ListAt(t, b, k) == ListAt(s, b, k) + [it]
  }

  ghost predicate Moved(s: Net, t: Net, a: Place, j: nat, i: nat, b: Place, k: nat, it: Item) {
    && a != b && Cut(s, t, a, j, i) && it.req == ListAt(s, a, j)[i].req && Put(s, t, b, k, it)
    && (forall p, l: nat :: (p != a || l != j) && (p != b || l != k) ==> Same(s, t, p, l))
    && t.asked == s.asked && t.dropped == s.dropped && s.answered <= t.answered
  }

  ghost predicate Gone(s: Net, t: Net, a: Place, j: nat, i: nat) {
    && Cut(s, t, a, j, i) && (forall p, l: nat :: p != a || l != j ==> Same(s, t, p, l))
    && t.asked == s.asked && t.dropped == s.dropped + {ListAt(s, a, j)[i].req} && t.answered == s.answered
  }

  ghost predicate Came(s: Net, t: Net, b: Place, k: nat, it: Item, ask: Ask) {
    && Put(s, t, b, k, it) && it.req == |s.asked| && (forall p, l: nat :: p != b || l != k ==> Same(s, t, p, l))
    && t.asked == s.asked + [ask] && t.dropped == s.dropped && t.answered == s.answered
  }

  /** Where the message at p was before. */
  function Before(t: Net, a: Place, j: nat, i: nat, b: Place, k: nat, p: Pos): Pos {
    if p.place == a && p.k == j && p.i >= i then p.(i := p.i + 1)
    else if p.place == b && p.k == k && p.i + 1 == |ListAt(t, b, k)| then Pos(a, j, i)
    else p
  }

  /** And where the one at p goes. */
  function Later(s: Net, a: Place, j: nat, i: nat, b: Place, k: nat, p: Pos): Pos {
    if p.place == a && p.k == j && p.i == i then Pos(b, k, |ListAt(s, b, k)|)
    else if p.place == a && p.k == j && p.i > i then p.(i := p.i - 1)
    else p
  }

  lemma WasAt(s: Net, t: Net, a: Place, j: nat, i: nat, b: Place, k: nat, it: Item, p: Pos)
    requires Moved(s, t, a, j, i, b, k, it) && ReqAt(t, p) >= 0
    ensures ReqAt(s, Before(t, a, j, i, b, k, p)) == ReqAt(t, p)
  {
    hide ListAt;
    if p.place == b && p.k == k {
      assert Put(s, t, b, k, it);
    } else if p.place != a || p.k != j {
      assert Same(s, t, p.place, p.k);
    }
  }

  lemma ThereAndBack(s: Net, t: Net, a: Place, j: nat, i: nat, b: Place, k: nat, it: Item, p: Pos)
    requires Moved(s, t, a, j, i, b, k, it) && ReqAt(t, p) >= 0
    ensures Later(s, a, j, i, b, k, Before(t, a, j, i, b, k, p)) == p
  {
    hide ListAt;
    assert Put(s, t, b, k, it);
  }

  lemma WillBeAt(s: Net, t: Net, a: Place, j: nat, i: nat, b: Place, k: nat, it: Item, p: Pos)
    requires Moved(s, t, a, j, i, b, k, it) && ReqAt(s, p) >= 0
    ensures ReqAt(t, Later(s, a, j, i, b, k, p)) == ReqAt(s, p)
  {
    hide ListAt;
    if p.place == b && p.k == k {
      assert Put(s, t, b, k, it);
    } else if p.place != a || p.k != j {
      assert Same(s, t, p.place, p.k);
    }
  }

  lemma MovedOnce(s: Net, t: Net, a: Place, j: nat, i: nat, b: Place, k: nat, it: Item)
    requires Once(s) && Moved(s, t, a, j, i, b, k, it)
    ensures Once(t)
  {
    hide ReqAt, Moved, Before, Later;
    assert t.asked == s.asked && t.dropped == s.dropped by { MovedLogs(s, t, a, j, i, b, k, it); }
    forall p ensures ReqAt(t, p) < |t.asked| {
      if ReqAt(t, p) >= 0 { WasAt(s, t, a, j, i, b, k, it, p); }
    }
    forall p, q | ReqAt(t, p) >= 0 && ReqAt(t, p) == ReqAt(t, q) ensures p == q {
      WasAt(s, t, a, j, i, b, k, it, p);
      WasAt(s, t, a, j, i, b, k, it, q);
      ThereAndBack(s, t, a, j, i, b, k, it, p);
      ThereAndBack(s, t, a, j, i, b, k, it, q);
    }
    forall r: nat | r < |t.asked| ensures r !in t.dropped <==> exists p :: ReqAt(t, p) == r {
      forall p ensures ReqAt(t, p) == r ==> r !in t.dropped {
        if ReqAt(t, p) == r { WasAt(s, t, a, j, i, b, k, it, p); }
      }
      if r !in s.dropped {
        var p :| ReqAt(s, p) == r;
        WillBeAt(s, t, a, j, i, b, k, it, p);
      }
    }
  }

  lemma MovedLogs(s: Net, t: Net, a: Place, j: nat, i: nat, b: Place, k: nat, it: Item)
    requires Moved(s, t, a, j, i, b, k, it)
    ensures t.asked == s.asked && t.dropped == s.dropped
  {
  }

  lemma GoneOnce(s: Net, t: Net, a: Place, j: nat, i: nat)
    requires Once(s) && Gone(s, t, a, j, i)
    ensures Once(t)
  {
    hide ListAt;
    var r := ListAt(s, a, j)[i].req;
    assert ReqAt(s, Pos(a, j, i)) == r;
    forall p | ReqAt(t, p) >= 0 ensures ReqAt(s, Skip(a, j, i, p)) == ReqAt(t, p) {
      if p.place != a || p.k != j { assert Same(s, t, p.place, p.k); }
    }
    forall p | ReqAt(s, p) >= 0 && p != Pos(a, j, i) ensures exists q :: ReqAt(t, q) == ReqAt(s, p) {
      if p.place != a || p.k != j { assert Same(s, t, p.place, p.k); }
      assert ReqAt(t, if p.place == a && p.k == j && p.i > i then p.(i := p.i - 1) else p) == ReqAt(s, p);
    }
    forall p, q | ReqAt(t, p) >= 0 && ReqAt(t, p) == ReqAt(t, q) ensures p == q {
      assert Skip(a, j, i, p) == Skip(a, j, i, q);
    }
    forall x: nat | x < |t.asked| ensures x !in t.dropped <==> exists p :: ReqAt(t, p) == x {
      if p: Pos :| ReqAt(t, p) == x {
        assert Skip(a, j, i, p) != Pos(a, j, i);
      }
      if x !in t.dropped {
        var p :| ReqAt(s, p) == x;
      }
    }
  }

  function Skip(a: Place, j: nat, i: nat, p: Pos): Pos {
    if p.place == a && p.k == j && p.i >= i then p.(i := p.i + 1) else p
  }

  lemma CameOnce(s: Net, t: Net, b: Place, k: nat, it: Item, ask: Ask)
    requires Once(s) && Came(s, t, b, k, it, ask)
    ensures Once(t)
  {
    hide ListAt;
    var last := Pos(b, k, |ListAt(s, b, k)|);
    assert Put(s, t, b, k, it) && ReqAt(t, last) == |s.asked|;
    forall p | p != last ensures ReqAt(t, p) == ReqAt(s, p) {
      if p.place != b || p.k != k { assert Same(s, t, p.place, p.k); }
    }
    assert ReqAt(s, last) == -1;
    forall r: nat | r < |t.asked| ensures r !in t.dropped <==> exists p :: ReqAt(t, p) == r {
      if r < |s.asked| && r !in s.dropped {
        var p :| ReqAt(s, p) == r;
        assert ReqAt(t, p) == r;
      }
    }
  }

  // ----------------------------------------------------------- payloads

  lemma StillRight(s: Net, t: Net, place: Place, it: Item)
    requires Right(s, place, it) && s.asked <= t.asked && s.answered <= t.answered
    ensures Right(t, place, it)
  {
  }

  lemma MovedRight(s: Net, t: Net, a: Place, j: nat, i: nat, b: Place, k: nat, it: Item)
    requires AllRight(s) && Moved(s, t, a, j, i, b, k, it) && Right(t, b, it)
    ensures AllRight(t)
  {
    hide ListAt, Right;
    forall p, l: nat, x | 0 <= x < |ListAt(t, p, l)| ensures Right(t, p, ListAt(t, p, l)[x]) {
      if p == a && l == j {
        StillRight(s, t, p, ListAt(s, p, l)[if x < i then x else x + 1]);
      } else {
        assert Put(s, t, b, k, it) && (p != b || l != k ==> Same(s, t, p, l));
        if x < |ListAt(s, p, l)| { StillRight(s, t, p, ListAt(s, p, l)[x]); }
      }
    }
  }

  lemma GoneRight(s: Net, t: Net, a: Place, j: nat, i: nat)
    requires AllRight(s) && Gone(s, t, a, j, i)
    ensures AllRight(t)
  {
    hide ListAt, Right;
    forall p, l: nat, x | 0 <= x < |ListAt(t, p, l)| ensures Right(t, p, ListAt(t, p, l)[x]) {
      assert p != a || l != j ==> Same(s, t, p, l);
      StillRight(s, t, p, ListAt(s, p, l)[if p == a && l == j && x >= i then x + 1 else x]);
    }
  }

  lemma CameRight(s: Net, t: Net, b: Place, k: nat, it: Item, ask: Ask)
    requires AllRight(s) && Came(s, t, b, k, it, ask) && Right(t, b, it)
    ensures AllRight(t)
  {
    hide ListAt, Right;
    forall p, l: nat, x | 0 <= x < |ListAt(t, p, l)| ensures Right(t, p, ListAt(t, p, l)[x]) {
      assert Put(s, t, b, k, it) && (p != b || l != k ==> Same(s, t, p, l));
      if x < |ListAt(s, p, l)| { StillRight(s, t, p, ListAt(s, p, l)[x]); }
    }
  }

  // ------------------------------------------------------------ the steps

  ghost predicate Kept(s: Net) {
    Once(s) && AllRight(s)
  }

  lemma FirstRight(s: Net, place: Place, k: nat, i: nat)
    requires AllRight(s) && i < |ListAt(s, place, k)|
    ensures Right(s, place, ListAt(s, place, k)[i])
  {
  }

  /** A message that moves stays right if it gets no other payload than it should. */
  lemma Move(s: Net, t: Net, a: Place, j: nat, i: nat, b: Place, k: nat, it: Item)
    requires Kept(s) && Moved(s, t, a, j, i, b, k, it)
    requires Right(s, a, ListAt(s, a, j)[i]) ==> Right(t, b, it)
    ensures Kept(t)
  {
    hide Once, AllRight, Moved, Right;
    MovedFrom(s, t, a, j, i, b, k, it);
    FirstRight(s, a, j, i);
    MovedOnce(s, t, a, j, i, b, k, it);
    MovedRight(s, t, a, j, i, b, k, it);
  }

  lemma MovedFrom(s: Net, t: Net, a: Place, j: nat, i: nat, b: Place, k: nat, it: Item)
    requires Moved(s, t, a, j, i, b, k, it)
    ensures i < |ListAt(s, a, j)|
  {
  }

  lemma RequestComes(s: Net, k: nat, body: Rr)
    requires Enabled(s, Request(k, body))
    ensures var it := Item(ReqSend(body, s.topo.uuid[k]), [k], [], |s.asked|, 0);
      Came(s, Do(s, Request(k, body)), ReqWire, k, it, Ask(k, body.data))
  {
  }

  lemma DropGoes(s: Net, k: nat)
    requires Enabled(s, Drop(k)) && Safe(s, Drop(k))
    ensures Gone(s, Do(s, Drop(k)), ReqWire, k, 0)
  {
  }

  lemma DispatchMoves(s: Net, k: nat)
    requires Enabled(s, Dispatch(k)) && Safe(s, Dispatch(k))
    ensures var was := s.reqQ(k)[0];
      var it := was.(msg := RtAppend(was.msg, s.topo.uuid[k]), path := was.path + [k]);
      Moved(s, Do(s, Dispatch(k)), ReqQ, k, 0, ReqWire, k, it)
  {
  }

  lemma ForwardMoves(s: Net, k: nat, go: nat)
    requires Enabled(s, Forward(k, go)) && Safe(s, Forward(k, go))
    ensures Moved(s, Do(s, Forward(k, go)), ReqWire, k, 0, ReqQ, go, s.reqWire(k)[0])
  {
  }

  lemma ServeMoves(s: Net, k: nat)
    requires Enabled(s, Serve(k)) && Safe(s, Serve(k))
    ensures Moved(s, Do(s, Serve(k)), ReqWire, k, 0, Served, s.topo.to[k], s.reqWire(k)[0])
  {
  }

  lemma ReplyMoves(s: Net, n: nat, i: nat, body: Rr)
    requires Enabled(s, Reply(n, i, body)) && Safe(s, Reply(n, i, body))
    requires Route(s, Reply(n, i, body)) < |s.topo.to|
    ensures var was, r := s.served(n)[i], Route(s, Reply(n, i, body));
      var m := body.(subs := was.msg.subs);
      var it := was.(msg := TurnBack(m), back := was.back + [r], rep := |s.answered|);
      Moved(s, Do(s, Reply(n, i, body)), Served, n, i, RepWire, r, it)
  {
    hide Route;
  }

  lemma GoBackMoves(s: Net, k: nat)
    requires Enabled(s, GoBack(k)) && Safe(s, GoBack(k)) && Route(s, GoBack(k)) < |s.topo.to|
    ensures var was := s.repWire(k)[0];
      Moved(s, Do(s, GoBack(k)), RepWire, k, 0, RepQ, Route(s, GoBack(k)), was.(msg := Lower(was.msg)))
  {
    hide Route;
  }

  lemma ReturnMoves(s: Net, k: nat)
    requires Enabled(s, Return(k))
    ensures var was := s.repQ(k)[0];
      Moved(s, Do(s, Return(k)), RepQ, k, 0, RepWire, k, was.(back := was.back + [k]))
  {
  }

  lemma FinishMoves(s: Net, k: nat)
    requires Enabled(s, Finish(k)) && Safe(s, Finish(k))
    ensures var was := s.repWire(k)[0];
      Moved(s, Do(s, Finish(k)), RepWire, k, 0, Replied, s.topo.from[k], was.(msg := Lower(was.msg)))
  {
    var was, n := s.repWire(k)[0], s.topo.from[k];
    assert Put(s, Do(s, Finish(k)), Replied, n, was.(msg := Lower(was.msg)));
  }

  lemma OutStep(s: Net, step: Step)
    requires Inv(s) && Kept(s) && Enabled(s, step) && Safe(s, step) && (step.Request? || step.Drop? || step.Dispatch?)
    ensures Kept(Do(s, step))
  {
    hide Inv, Once, AllRight, Moved, Came, Gone;
    var t := Do(s, step);
    match step {
      case Request(k, body) =>
        var it := Item(ReqSend(body, s.topo.uuid[k]), [k], [], |s.asked|, 0);
        RequestKept(body, s.topo.uuid[k]);
        RequestComes(s, k, body);
        CameOnce(s, t, ReqWire, k, it, Ask(k, body.data));
        CameRight(s, t, ReqWire, k, it, Ask(k, body.data));
      case Drop(k) =>
        DropGoes(s, k);
        GoneOnce(s, t, ReqWire, k, 0);
        GoneRight(s, t, ReqWire, k, 0);
      case Dispatch(k) =>
        var was := s.reqQ(k)[0];
        Forwardable(s, k);
        RequestKept(was.msg, s.topo.uuid[k]);
        DispatchMoves(s, k);
        Move(s, t, ReqQ, k, 0, ReqWire, k, was.(msg := RtAppend(was.msg, s.topo.uuid[k]), path := was.path + [k]));
    }
  }

  /** A queued request has its header alone, as deep as its path, and so has what is sent. */
  lemma Forwardable(s: Net, k: nat)
    requires Inv(s) && Enabled(s, Dispatch(k)) && Safe(s, Dispatch(k))
    ensures var it := s.reqQ(k)[0]; var m := RtAppend(it.msg, s.topo.uuid[k]);
      |it.msg.subs| == 1 && HasHdr(m) && GetHdr(m).ttl == |it.path| + 1
  {
    hide ShortChains;
    assert Arrived(s.topo, s.repUuid, s.reqQ(k)[0], s.topo.from[k]);
    DispatchFacts(s.topo, s.repUuid, s.reqQ(k)[0], k);
  }

  lemma InStep(s: Net, step: Step)
    requires Kept(s) && Enabled(s, step) && Safe(s, step) && (step.Forward? || step.Serve?)
    ensures Kept(Do(s, step))
  {
    hide Kept, Moved;
    var t, k := Do(s, step), step.k;
    if step.Forward? {
      ForwardMoves(s, k, step.go);
      Move(s, t, ReqWire, k, 0, ReqQ, step.go, s.reqWire(k)[0]);
    } else {
      ServeMoves(s, k);
      Move(s, t, ReqWire, k, 0, Served, s.topo.to[k], s.reqWire(k)[0]);
    }
  }

  lemma AnswerStep(s: Net, n: nat, i: nat, body: Rr)
    requires Inv(s) && Kept(s) && Enabled(s, Reply(n, i, body)) && Safe(s, Reply(n, i, body))
    ensures Kept(Do(s, Reply(n, i, body)))
  {
    hide Inv, Kept, Moved, Route;
    var t, r := Do(s, Reply(n, i, body)), Route(s, Reply(n, i, body));
    RouteExists(s, Reply(n, i, body));
    var was := s.served(n)[i];
    var m := body.(subs := was.msg.subs);
    ReplyKept(m);
    ReplyMoves(s, n, i, body);
    Move(s, t, Served, n, i, RepWire, r, was.(msg := TurnBack(m), back := was.back + [r], rep := |s.answered|));
  }

  lemma GoBackStep(s: Net, k: nat)
    requires Inv(s) && Kept(s) && Enabled(s, GoBack(k)) && Safe(s, GoBack(k))
    ensures Kept(Do(s, GoBack(k)))
  {
    hide Inv, Kept, Moved, Route;
    var was := s.repWire(k)[0];
    RouteExists(s, GoBack(k));
    ReplyKept(was.msg);
    GoBackMoves(s, k);
    Move(s, Do(s, GoBack(k)), RepWire, k, 0, RepQ, Route(s, GoBack(k)), was.(msg := Lower(was.msg)));
  }

  lemma ReturnStep(s: Net, k: nat)
    requires Kept(s) && Enabled(s, Return(k))
    ensures Kept(Do(s, Return(k)))
  {
    hide Kept, Moved;
    var was := s.repQ(k)[0];
    ReturnMoves(s, k);
    Move(s, Do(s, Return(k)), RepQ, k, 0, RepWire, k, was.(back := was.back + [k]));
  }

  lemma FinishStep(s: Net, k: nat)
    requires Kept(s) && Enabled(s, Finish(k)) && Safe(s, Finish(k))
    ensures Kept(Do(s, Finish(k)))
  {
    hide Kept, Moved;
    var was := s.repWire(k)[0];
    ReplyKept(was.msg);
    FinishMoves(s, k);
    Move(s, Do(s, Finish(k)), RepWire, k, 0, Replied, s.topo.from[k], was.(msg := Lower(was.msg)));
  }

  lemma KeptStep(s: Net, step: Step)
    requires Inv(s) && Kept(s) && Enabled(s, step) && Safe(s, step)
    ensures Kept(Do(s, step))
  {
    hide Inv, Kept, Do;
    match step {
      case Request(_, _) => OutStep(s, step);
      case Drop(_) => OutStep(s, step);
      case Dispatch(_) => OutStep(s, step);
      case Forward(_, _) => InStep(s, step);
      case Serve(_) => InStep(s, step);
      case Reply(n, i, body) => AnswerStep(s, n, i, body);
      case GoBack(k) => GoBackStep(s, k);
      case Return(k) => ReturnStep(s, k);
      case Finish(k) => FinishStep(s, k);
    }
  }

  // --------------------------------------------------------------- progress

  /** A message that has not arrived can always move on: the first one on a wire or in a
      queue, and any request a server has. */
  lemma NeverStuck(s: Net, p: Pos, body: Rr)
    requires Inv(s) && ReqAt(s, p) >= 0 && (p.place.Served? || (p.i == 0 && p.k < |s.topo.from|)) && body.subs == []
    ensures p.place.ReqWire? ==>
      Enabled(s, Serve(p.k)) || Enabled(s, Drop(p.k)) || exists go :: Enabled(s, Forward(p.k, go))
    ensures p.place.ReqQ? ==> Enabled(s, Dispatch(p.k))
    ensures p.place.Served? ==> Enabled(s, Reply(p.k, p.i, body))
    ensures p.place.RepWire? ==> Enabled(s, GoBack(p.k)) || Enabled(s, Finish(p.k))
    ensures p.place.RepQ? ==> Enabled(s, Return(p.k))
  {
    hide ShortChains, Tracks, Known, Uuids;
    var t, u, k := s.topo, s.repUuid, p.k;
    match p.place {
      case ReqWire =>
        if t.kind(t.to[k]) == Relay && !Enabled(s, Drop(k)) {
          var go :| 0 <= go < |t.from| && t.from[go] == t.to[k];
          assert Enabled(s, Forward(k, go));
        }
      case ReqQ =>
        assert Arrived(t, u, s.reqQ(k)[0], t.from[k]);
        QueuedAtRelay(t, u, s.reqQ(k)[0], k);
      case Served =>
      case RepWire =>
      case RepQ =>
        assert Coming(t, u, s.repQ(k)[0], k, false);
        ReturnsFromRelay(t, u, s.repQ(k)[0], k);
      case Replied =>
    }
  }

  lemma QueuedAtRelay(t: Topo, u: nat -> Uuid, it: Item, k: nat)
    requires WellFormed(t) && k < |t.from| && Arrived(t, u, it, t.from[k])
    ensures t.kind(t.from[k]) == Relay
  {
    hide ShortChains;
  }

  lemma ReturnsFromRelay(t: Topo, u: nat -> Uuid, it: Item, k: nat)
    requires WellFormed(t) && k < |t.from| && Coming(t, u, it, k, false)
    ensures t.kind(t.to[k]) == Relay
  {
    hide ShortChains;
    var next := GetHdr(it.msg).ttl;
    NotFirst(t, it.path, next);
    assert t.to[it.path[next - 1]] == t.from[it.path[next]];
  }

  /** How far a message is from its end. */
  function Rank(place: Place, it: Item): int {
    match place
    case ReqWire => 132 - 2 * |it.path|
    case ReqQ => 131 - 2 * |it.path|
    case Served => 100
    case RepWire => if HasHdr(it.msg) then 2 * GetHdr(it.msg).ttl + 1 else 0
    case RepQ => if HasHdr(it.msg) then 2 * GetHdr(it.msg).ttl + 2 else 0
    case Replied => 0
  }

  datatype Hop = Hop(a: Place, j: nat, i: nat, b: Place, k: nat, it: Item)

  /** What moves in a step, from where to where. */
  ghost function HopOf(s: Net, step: Step): Hop
    requires Inv(s) && Enabled(s, step) && Safe(s, step) && !step.Request? && !step.Drop?
  {
    match step
    case Dispatch(k) =>
      var was := s.reqQ(k)[0];
      Hop(ReqQ, k, 0, ReqWire, k, was.(msg := RtAppend(was.msg, s.topo.uuid[k]), path := was.path + [k]))
    case Forward(k, go) => Hop(ReqWire, k, 0, ReqQ, go, s.reqWire(k)[0])
    case Serve(k) => Hop(ReqWire, k, 0, Served, s.topo.to[k], s.reqWire(k)[0])
    case Reply(n, i, body) =>
      var was, r := s.served(n)[i], Route(s, step);
      var m := body.(subs := was.msg.subs);
      Hop(Served, n, i, RepWire, r, was.(msg := TurnBack(m), back := was.back + [r], rep := |s.answered|))
    case GoBack(k) =>
      var was := s.repWire(k)[0];
      Hop(RepWire, k, 0, RepQ, Route(s, step), was.(msg := Lower(was.msg)))
    case Return(k) =>
      var was := s.repQ(k)[0];
      Hop(RepQ, k, 0, RepWire, k, was.(back := was.back + [k]))
    case Finish(k) =>
      var was := s.repWire(k)[0];
      Hop(RepWire, k, 0, Replied, s.topo.from[k], was.(msg := Lower(was.msg)))
  }

  /** Every step but a new request takes a message nearer to its end, or drops it. */
  lemma Nearer(s: Net, step: Step)
    requires Inv(s) && Enabled(s, step) && Safe(s, step) && !step.Request? && !step.Drop?
    ensures var h := HopOf(s, step); var was := ListAt(s, h.a, h.j);
      && Moved(s, Do(s, step), h.a, h.j, h.i, h.b, h.k, h.it)
      && h.i < |was| && 0 <= Rank(h.b, h.it) < Rank(h.a, was[h.i]) <= 130
  {
    hide Moved, Do, Route;
    Ranks(s, step);
    match step {
      case Dispatch(k) => DispatchMoves(s, k);
      case Forward(k, go) => ForwardMoves(s, k, go);
      case Serve(k) => ServeMoves(s, k);
      case Reply(n, i, body) =>
        RouteExists(s, step);
        ReplyMoves(s, n, i, body);
      case GoBack(k) =>
        RouteExists(s, step);
        GoBackMoves(s, k);
      case Return(k) => ReturnMoves(s, k);
      case Finish(k) => FinishMoves(s, k);
    }
  }

  lemma Ranks(s: Net, step: Step)
    requires Inv(s) && Enabled(s, step) && Safe(s, step) && !step.Request? && !step.Drop?
    ensures var h := HopOf(s, step); var was := ListAt(s, h.a, h.j);
      h.i < |was| && 0 <= Rank(h.b, h.it) < Rank(h.a, was[h.i]) <= 130
  {
    hide ShortChains, Chain, Known, Uuids, Route, Reversed, Lower, TurnBack;
    var t, u := s.topo, s.repUuid;
    match step {
      case Dispatch(k) =>
        assert Arrived(t, u, s.reqQ(k)[0], t.from[k]);
        ChainShort(t, s.reqQ(k)[0].path);
        NotEmpty(t, s.reqQ(k)[0].path);
      case Forward(k, go) =>
        assert OnReqWire(t, u, s.reqWire(k)[0], k);
        ChainShort(t, s.reqWire(k)[0].path);
        NotEmpty(t, s.reqWire(k)[0].path);
      case Serve(k) =>
        assert OnReqWire(t, u, s.reqWire(k)[0], k);
        ChainShort(t, s.reqWire(k)[0].path);
        NotEmpty(t, s.reqWire(k)[0].path);
      case Reply(n, i, body) =>
        assert Arrived(t, u, s.served(n)[i], n);
        ChainShort(t, s.served(n)[i].path);
        ReplyKept(body.(subs := s.served(n)[i].msg.subs));
      case GoBack(k) =>
        assert Coming(t, u, s.repWire(k)[0], k, true);
        ChainShort(t, s.repWire(k)[0].path);
        ReplyKept(s.repWire(k)[0].msg);
        Lowered(s.repWire(k)[0].msg);
      case Return(k) =>
        ReturnRank(s, k);
      case Finish(k) =>
        assert Coming(t, u, s.repWire(k)[0], k, true);
        ChainShort(t, s.repWire(k)[0].path);
    }
  }

  lemma NotEmpty(t: Topo, p: seq<nat>)
    requires WellFormed(t) && Chain(t, p)
    ensures p != []
  {
  }

  lemma ReturnRank(s: Net, k: nat)
    requires Inv(s) && Enabled(s, Return(k))
    ensures var it := s.repQ(k)[0]; HasHdr(it.msg) && 0 <= GetHdr(it.msg).ttl <= 15
  {
    hide ShortChains, Chain, Known, Uuids, Route, Reversed;
    if k < |s.topo.from| {
      assert Coming(s.topo, s.repUuid, s.repQ(k)[0], k, false);
      ChainShort(s.topo, s.repQ(k)[0].path);
    }
  }

  // ------------------------------------------------------------ whole runs

  lemma {:induction false} RunKept(s: Net, steps: seq<Step>)
    requires Init(s)
    ensures Run(s, steps).Reached? ==> Kept(Run(s, steps).s)
    decreases |steps|
  {
    hide Inv, Kept, Do, Enabled, Safe;
    if steps == [] {
      NothingYet(s);
    } else {
      var before, last := steps[..|steps| - 1], steps[|steps| - 1];
      RunKept(s, before);
      RunInv(s, before);
      var r := Run(s, before);
      if r.Reached? && Enabled(r.s, last) && Safe(r.s, last) {
        KeptStep(r.s, last);
      }
    }
  }

  lemma NothingYet(s: Net)
    requires Init(s)
    ensures Kept(s)
  {
  }

  /** In every run each request is at exactly one place: on its way, at the server, on its
      way back as an answer, or handed up; unless a proxy without a target dropped it. */
  lemma ExactlyOnce(s: Net, steps: seq<Step>)
    requires Init(s) && Run(s, steps).Reached?
    ensures Once(Run(s, steps).s)
  {
    RunKept(s, steps);
  }

  /** In every run a server gets the payload that was sent, and what a requester gets is
      the payload of the answer given to a request it sent over that connection. */
  lemma Contents(s: Net, steps: seq<Step>, n: nat, i: nat)
    requires Init(s) && Run(s, steps).Reached?
    ensures var t := Run(s, steps).s;
      i < |t.served(n)| ==>
        t.served(n)[i].req < |t.asked| && t.served(n)[i].msg.data == t.asked[t.served(n)[i].req].data
    ensures var t := Run(s, steps).s;
      i < |t.replies(n)| ==> var (k, it) := t.replies(n)[i];
        && it.req < |t.asked| && it.rep < |t.answered| && t.answered[it.rep].req == it.req
        && it.msg.data == t.answered[it.rep].data && t.asked[it.req].k == k
  {
    hide Run, Once, AllRight, Right;
    RunKept(s, steps);
    var t := Run(s, steps).s;
    if i < |t.served(n)| {
      ServedRight(t, n, i);
    }
    if i < |t.replies(n)| {
      RepliedRight(t, n, i);
      RepliesRetrace(s, steps, n, i);
    }
  }

  lemma ServedRight(t: Net, n: nat, i: nat)
    requires AllRight(t) && i < |t.served(n)|
    ensures var it := t.served(n)[i]; it.req < |t.asked| && it.msg.data == t.asked[it.req].data
  {
    FirstRight(t, Served, n, i);
  }

  lemma RepliedRight(t: Net, n: nat, i: nat)
    requires AllRight(t) && i < |t.replies(n)|
    ensures var it := t.replies(n)[i].1;
      && it.req < |t.asked| && it.rep < |t.answered| && t.answered[it.rep] == Answer(it.req, it.msg.data)
      && it.path != [] && it.path[0] == t.asked[it.req].k
  {
    FirstRight(t, Replied, n, i);
  }
}
