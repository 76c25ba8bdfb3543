/** REQREP through chains of proxies: replies retrace their requests. Any number of
    requests are under way at once and load balancers choose freely. */
module RrNet {
  import opened Bufio
  import opened RrHdr
  import opened ReqRep

  datatype Kind = Client | Relay | Server

  /** Connection k joins a requester at node from[k] to a replier at node to[k]; a
      proxy is a Relay node. uuid[k] is the uuid of its req_tgtd. */
  datatype Topo = Topo(from: seq<nat>, to: seq<nat>, uuid: seq<Uuid>, kind: nat -> Kind)

  /** Distinct uuids, and ends of the right kinds. */
  ghost predicate Sized(t: Topo) {
    && |t.from| == |t.to| == |t.uuid|
    && (forall k :: 0 <= k < |t.uuid| ==> t.uuid[k] != ZERO && t.kind(t.from[k]) != Server && t.kind(t.to[k]) != Client)
    && forall j, k :: 0 <= j < k < |t.uuid| ==> t.uuid[j] != t.uuid[k]
  }

  /** A chain of connections that starts at a client. */
  ghost predicate Chain(t: Topo, p: seq<nat>)
    requires Sized(t)
  {
    && p != [] && (forall i :: 0 <= i < |p| ==> p[i] < |t.from|) && t.kind(t.from[p[0]]) == Client
    && forall i :: 0 < i < |p| ==> t.to[p[i - 1]] == t.from[p[i]]
  }

  /** No chain of more than 15 connections, that is of more than 14 proxies. */
  ghost predicate ShortChains(t: Topo)
    requires Sized(t)
  {
    forall p :: Chain(t, p) ==> |p| <= 15
  }

  ghost predicate WellFormed(t: Topo) {
    Sized(t) && ShortChains(t)
  }

  /** A message on its way, with the connections its request went through and those its
      reply has gone through; which request it is, and which answer once it is one. */
  datatype Item = Item(msg: Rr, path: seq<nat>, back: seq<nat>, req: nat, rep: nat)

  datatype Ask = Ask(k: nat, data: seq<Byte>)
  datatype Answer = Answer(req: nat, data: seq<Byte>)

  /** Per connection: what is on the wire each way, the local queue of the req_tgtd
      and of the rep_tgtd, and the uuid the rep_tgtd has learnt. Per node: requests
      received, and replies received with the connection they came in on. And all requests
      made, all answers given, and the requests dropped. */
  datatype Net = Net(
    topo: Topo, reqWire: nat -> seq<Item>, repWire: nat -> seq<Item>, reqQ: nat -> seq<Item>, repQ: nat -> seq<Item>,
    repUuid: nat -> Uuid, served: nat -> seq<Item>, replies: nat -> seq<(nat, Item)>,
    asked: seq<Ask>, answered: seq<Answer>, dropped: set<nat>)

  datatype Step =
    | Request(k: nat, body: Rr)      // reqep_send selects connection k
    | Forward(k: nat, go: nat)              // receiver_add of what arrives on k; go is selected
    | Drop(k: nat)                          // receiver_add without a target to select
    | Dispatch(k: nat)                      // dispatcher_rm
    | Serve(k: nat)                         // repep_add
    | Reply(n: nat, i: nat, body: Rr)       // repep_send for the i-th request received at n
    | GoBack(k: nat)                        // dispatcher_add of what arrives on k
    | Return(k: nat)                        // receiver_rm
    | Finish(k: nat)                        // reqep_add

  function At(f: nat -> seq<Item>, k: nat, q: seq<Item>): nat -> seq<Item> {
    (j: nat) => if j == k then q else f(j)
  }

  /** get_tgtd_if: the first connection into n whose rep_tgtd has this uuid, from k on. */
  function Find(s: Net, n: nat, uuid: Uuid, k: nat): (r: nat)
    ensures r <= k || r <= |s.topo.to|
    decreases |s.topo.to| - k
  {
    if k >= |s.topo.to| || (s.topo.to[k] == n && s.repUuid(k) == uuid) then k else Find(s, n, uuid, k + 1)
  }

  ghost predicate Enabled(s: Net, step: Step) {
    var t := s.topo;
    match step
    case Request(k, body) => k < |t.from| && k < |t.uuid| && body.subs == [] && t.kind(t.from[k]) == Client
    case Forward(k, go) =>
      k < |t.to| && t.kind(t.to[k]) == Relay && s.reqWire(k) != [] && go < |t.from| && t.from[go] == t.to[k]
    case Drop(k) =>
      && k < |t.to| && t.kind(t.to[k]) == Relay && s.reqWire(k) != []
      && forall j :: 0 <= j < |t.from| ==> t.from[j] != t.to[k]
    case Dispatch(k) => k < |t.from| && k < |t.uuid| && t.kind(t.from[k]) == Relay && s.reqQ(k) != []
    case Serve(k) => k < |t.to| && t.kind(t.to[k]) == Server && s.reqWire(k) != []
    case Reply(n, i, body) => t.kind(n) == Server && i < |s.served(n)| && body.subs == []
    case GoBack(k) => k < |t.from| && t.kind(t.from[k]) == Relay && s.repWire(k) != []
    case Return(k) => k < |t.to| && t.kind(t.to[k]) == Relay && s.repQ(k) != []
    case Finish(k) => k < |t.from| && t.kind(t.from[k]) == Client && s.repWire(k) != []
  }

  /** No header is missing and no BUG_ON of rr.h fires. */
  ghost predicate Safe(s: Net, step: Step)
    requires Enabled(s, step)
  {
    match step
    case Forward(k, _) => Readable(s.reqWire(k)[0].msg)
    case Drop(k) => Readable(s.reqWire(k)[0].msg)
    case Serve(k) => Readable(s.reqWire(k)[0].msg)
    case Dispatch(k) => Appendable(s.reqQ(k)[0].msg)
    case Reply(n, i, _) => Readable(s.served(n)[i].msg)
    case GoBack(k) => var m := s.repWire(k)[0].msg; HasHdr(m) && 2 <= GetHdr(m).ttl <= |GetHdr(m).rt| + 1
    case Finish(k) => HasHdr(s.repWire(k)[0].msg)
    case _ => true
  }

  /** The target a reply goes to; the number of connections when there is none. */
  function Route(s: Net, step: Step): nat
    requires (step.Reply? && step.i < |s.served(step.n)| && Readable(s.served(step.n)[step.i].msg)) ||
      (step.GoBack? && step.k < |s.topo.from| && s.repWire(step.k) != [] &&
       var m := s.repWire(step.k)[0].msg; HasHdr(m) && 2 <= GetHdr(m).ttl <= |GetHdr(m).rt| + 1)
  {
    match step
    case Reply(n, i, _) => Find(s, n, RtCur(GetHdr(s.served(n)[i].msg)), 0)
    case GoBack(k) => Find(s, s.topo.from[k], RtPrev(GetHdr(s.repWire(k)[0].msg)), 0)
  }

  /** receiver_add and repep_add: the rep_tgtd of k learns the uuid in the header. */
  function Learn(s: Net, k: nat, uuid: Uuid): nat -> Uuid {
    (j: nat) => if j == k then uuid else s.repUuid(j)
  }

  function Do(s: Net, step: Step): Net
    requires Enabled(s, step) && Safe(s, step)
  {
    var t := s.topo;
    match step
    case Request(k, body) =>
      s.(reqWire := At(s.reqWire, k, s.reqWire(k) + [Item(ReqSend(body, t.uuid[k]), [k], [], |s.asked|, 0)]),
         asked := s.asked + [Ask(k, body.data)])
    case Forward(k, go) =>
      var it := s.reqWire(k)[0];
      s.(reqWire := At(s.reqWire, k, s.reqWire(k)[1..]), reqQ := At(s.reqQ, go, s.reqQ(go) + [it]),
         repUuid := Learn(s, k, RtCur(GetHdr(it.msg))))
    case Drop(k) => s.(reqWire := At(s.reqWire, k, s.reqWire(k)[1..]), dropped := s.dropped + {s.reqWire(k)[0].req})
    case Dispatch(k) =>
      var it := s.reqQ(k)[0];
      s.(reqQ := At(s.reqQ, k, s.reqQ(k)[1..]),
         reqWire := At(s.reqWire, k, s.reqWire(k) + [it.(msg := RtAppend(it.msg, t.uuid[k]), path := it.path + [k])]))
    case Serve(k) =>
      var it := s.reqWire(k)[0];
      s.(reqWire := At(s.reqWire, k, s.reqWire(k)[1..]), served := At(s.served, t.to[k], s.served(t.to[k]) + [it]),
         repUuid := Learn(s, k, RtCur(GetHdr(it.msg))))
    case Reply(n, i, body) =>
      var it := s.served(n)[i];
      var r := Route(s, step);
      var resp := it.(msg := TurnBack(body.(subs := it.msg.subs)), back := it.back + [r], rep := |s.answered|);
      s.(served := At(s.served, n, s.served(n)[..i] + s.served(n)[i + 1..]),
         repWire := if r < |t.to| then At(s.repWire, r, s.repWire(r) + [resp]) else s.repWire,
         answered := s.answered + [Answer(it.req, body.data)])
    case GoBack(k) =>
      var it := s.repWire(k)[0];
      var r := Route(s, step);
      s.(repWire := At(s.repWire, k, s.repWire(k)[1..]),
         repQ := if r < |t.to| then At(s.repQ, r, s.repQ(r) + [it.(msg := Lower(it.msg))]) else s.repQ)
    case Return(k) =>
      var it := s.repQ(k)[0];
      s.(repQ := At(s.repQ, k, s.repQ(k)[1..]),
         repWire := At(s.repWire, k, s.repWire(k) + [it.(back := it.back + [k])]))
    case Finish(k) =>
      var it := s.repWire(k)[0];
      var n := t.from[k];
      s.(repWire := At(s.repWire, k, s.repWire(k)[1..]),
         replies := (j: nat) => if j == n then s.replies(n) + [(k, it.(msg := Lower(it.msg)))] else s.replies(j))
  }

  // ------------------------------------------------------------ invariants

  ghost function Uuids(t: Topo, p: seq<nat>): seq<Uuid>
    requires WellFormed(t) && forall i :: 0 <= i < |p| ==> p[i] < |t.from|
  {
    seq(|p|, i requires 0 <= i < |p| => t.uuid[p[i]])
  }

  lemma ChainShort(t: Topo, p: seq<nat>)
    requires WellFormed(t) && Chain(t, p)
    ensures |p| <= 15
  {
  }

  /** The message's only sub is a header whose stack is the path, ttl deep. */
  ghost predicate Tracks(t: Topo, it: Item, ttl: nat)
    requires WellFormed(t)
  {
    && Chain(t, it.path) && |it.msg.subs| == 1 && HasHdr(it.msg)
    && GetHdr(it.msg).rt == Uuids(t, it.path) && GetHdr(it.msg).ttl == ttl <= |it.path|
  }

  /** The far ends of the first n connections of the path know their uuids. */
  ghost predicate Known(t: Topo, u: nat -> Uuid, p: seq<nat>, n: nat)
    requires WellFormed(t) && n <= |p| && forall i :: 0 <= i < |p| ==> p[i] < |t.from|
  {
    forall i :: 0 <= i < n ==> u(p[i]) == t.uuid[p[i]]
  }

  ghost function Reversed(p: seq<nat>): seq<nat> {
    if p == [] then [] else Reversed(p[1..]) + [p[0]]
  }

  /** A request sent over k. */
  ghost predicate OnReqWire(t: Topo, u: nat -> Uuid, it: Item, k: nat)
    requires WellFormed(t)
  {
    Tracks(t, it, |it.path|) && it.path[|it.path| - 1] == k && Known(t, u, it.path, |it.path| - 1) && it.back == []
  }

  /** A request that has arrived at n. */
  ghost predicate Arrived(t: Topo, u: nat -> Uuid, it: Item, n: nat)
    requires WellFormed(t)
  {
    Tracks(t, it, |it.path|) && t.to[it.path[|it.path| - 1]] == n && Known(t, u, it.path, |it.path|) && it.back == []
  }

  /** A reply about to go (sent == false) or gone (sent) over k, which its ttl names. */
  ghost predicate Coming(t: Topo, u: nat -> Uuid, it: Item, k: nat, sent: bool)
    requires WellFormed(t)
  {
    && HasHdr(it.msg) && var ttl := GetHdr(it.msg).ttl;
    && Tracks(t, it, ttl) && 1 <= ttl && it.path[ttl - 1] == k && Known(t, u, it.path, |it.path|)
    && it.back == Reversed(it.path[if sent then ttl - 1 else ttl..]) && (!sent ==> ttl < |it.path|)
  }

  /** A reply received at n over k: ttl 0, back at the connection that sent the request. */
  ghost predicate Home(t: Topo, it: Item, k: nat, n: nat)
    requires WellFormed(t)
  {
    Tracks(t, it, 0) && it.path[0] == k && t.from[k] == n && it.back == Reversed(it.path)
  }

  ghost predicate Inv(s: Net) {
    var t, u := s.topo, s.repUuid;
    && WellFormed(t)
    && (forall k: nat :: k < |t.uuid| ==> u(k) == ZERO || u(k) == t.uuid[k])
    && (forall k: nat, i :: k < |t.from| && 0 <= i < |s.reqWire(k)| ==> OnReqWire(t, u, s.reqWire(k)[i], k))
    && (forall k: nat, i :: k < |t.from| && 0 <= i < |s.reqQ(k)| ==> Arrived(t, u, s.reqQ(k)[i], t.from[k]))
    && (forall n: nat, i :: 0 <= i < |s.served(n)| ==> Arrived(t, u, s.served(n)[i], n))
    && (forall n: nat :: s.served(n) != [] ==> t.kind(n) == Server)
    && (forall k: nat, i :: k < |t.from| && 0 <= i < |s.repWire(k)| ==> Coming(t, u, s.repWire(k)[i], k, true))
    && (forall k: nat, i :: k < |t.from| && 0 <= i < |s.repQ(k)| ==> Coming(t, u, s.repQ(k)[i], k, false))
    && (forall n: nat, i :: 0 <= i < |s.replies(n)| ==> Home(t, s.replies(n)[i].1, s.replies(n)[i].0, n))
  }

  /** No message anywhere and no uuid learnt. */
  ghost predicate Blank(s: Net) {
    && Sized(s.topo)
    && (forall k: nat ::
       s.repUuid(k) == ZERO && s.reqWire(k) == [] && s.repWire(k) == [] && s.reqQ(k) == [] && s.repQ(k) == [])
    && (forall n: nat :: s.served(n) == [] && s.replies(n) == [])
    && s.asked == [] && s.answered == [] && s.dropped == {}
  }

  ghost predicate Init(s: Net) {
    Blank(s) && ShortChains(s.topo)
  }

  lemma InitInv(s: Net)
    requires Init(s)
    ensures Inv(s)
  {
  }

  // ------------------------------------------------- what the steps read

  /** Every header the code reads is there and in bounds. */
  lemma {:induction false} AlwaysSafe(s: Net, step: Step)
    requires Inv(s) && Enabled(s, step)
    ensures Safe(s, step)
  {
    hide ShortChains;
    var t, u := s.topo, s.repUuid;
    match step {
      case Forward(k, _) => assert OnReqWire(t, u, s.reqWire(k)[0], k);
      case Drop(k) => assert OnReqWire(t, u, s.reqWire(k)[0], k);
      case Serve(k) => assert OnReqWire(t, u, s.reqWire(k)[0], k);
      case Dispatch(k) =>
        var it := s.reqQ(k)[0];
        assert Arrived(t, u, it, t.from[k]);
        Longer(t, it.path, k);
      case Reply(n, i, _) => assert Arrived(t, u, s.served(n)[i], n);
      case GoBack(k) =>
        var it := s.repWire(k)[0];
        assert Coming(t, u, it, k, true);
        NotFirst(t, it.path, GetHdr(it.msg).ttl - 1);
      case Finish(k) => assert Coming(t, u, s.repWire(k)[0], k, true);
      case _ =>
    }
  }

  /** A chain that goes on from a proxy has at most 14 connections so far. */
  lemma Longer(t: Topo, p: seq<nat>, k: nat)
    requires WellFormed(t) && Chain(t, p) && k < |t.from| && t.to[p[|p| - 1]] == t.from[k]
    ensures Chain(t, p + [k]) && |p| < 15 && Uuids(t, p + [k]) == Uuids(t, p) + [t.uuid[k]]
  {
    hide ShortChains;
    assert Chain(t, p + [k]);
    ChainShort(t, p + [k]);
  }

  /** Only the first connection of a chain starts at a client. */
  lemma NotFirst(t: Topo, p: seq<nat>, i: nat)
    requires WellFormed(t) && Chain(t, p) && i < |p|
    ensures t.kind(t.from[p[i]]) == Client <==> i == 0
    ensures t.kind(t.from[p[i]]) == Relay <==> i > 0
  {
    if i > 0 {
      assert t.to[p[i - 1]] == t.from[p[i]];
    }
  }

  /** get_tgtd_if finds the only target that knows the uuid. */
  lemma {:induction false} FindOnly(s: Net, n: nat, j: nat, k: nat)
    requires Inv(s) && k <= j < |s.topo.to| && s.topo.to[j] == n && s.repUuid(j) == s.topo.uuid[j]
    ensures Find(s, n, s.topo.uuid[j], k) == j
    decreases j - k
  {
    hide ShortChains;
    if k < j {
      assert s.topo.uuid[k] != s.topo.uuid[j];
      assert s.topo.uuid[j] != ZERO;
      FindOnly(s, n, j, k + 1);
    }
  }

  /** A reply is never lost: it goes to the connection its request came in on. */
  lemma RouteExists(s: Net, step: Step)
    requires Inv(s) && Enabled(s, step) && Safe(s, step) && (step.Reply? || step.GoBack?)
    ensures Route(s, step) < |s.topo.to|
    ensures step.Reply? ==> var p := s.served(step.n)[step.i].path; Route(s, step) == p[|p| - 1]
    ensures step.GoBack? ==>
      var it := s.repWire(step.k)[0];
      2 <= GetHdr(it.msg).ttl <= |it.path| && Route(s, step) == it.path[GetHdr(it.msg).ttl - 2]
  {
    hide ShortChains;
    var t, u := s.topo, s.repUuid;
    if step.Reply? {
      var it := s.served(step.n)[step.i];
      assert Arrived(t, u, it, step.n);
      var j := it.path[|it.path| - 1];
      assert u(j) == t.uuid[j];
      FindOnly(s, step.n, j, 0);
    } else {
      var it := s.repWire(step.k)[0];
      assert Coming(t, u, it, step.k, true);
      var ttl := GetHdr(it.msg).ttl;
      var j := it.path[ttl - 2];
      assert u(j) == t.uuid[j] && t.to[it.path[ttl - 2]] == t.from[it.path[ttl - 1]];
      FindOnly(s, t.from[step.k], j, 0);
    }
  }

  /** Whichever target with the uuid a search finds, in whatever order it looks: it is the
      one on the reply's way. */
  lemma RouteUnique(s: Net, step: Step, j: nat)
    requires Inv(s) && Enabled(s, step) && Safe(s, step) && (step.Reply? || step.GoBack?) && j < |s.topo.to|
    requires s.topo.to[j] == if step.Reply? then step.n else s.topo.from[step.k]
    requires s.repUuid(j) == if step.Reply? then RtCur(GetHdr(s.served(step.n)[step.i].msg))
      else RtPrev(GetHdr(s.repWire(step.k)[0].msg))
    ensures Route(s, step) == j
  {
    hide ShortChains;
    var t, u := s.topo, s.repUuid;
    if step.Reply? {
      assert Arrived(t, u, s.served(step.n)[step.i], step.n);
    } else {
      assert Coming(t, u, s.repWire(step.k)[0], step.k, true);
      NotFirst(t, s.repWire(step.k)[0].path, GetHdr(s.repWire(step.k)[0].msg).ttl - 1);
    }
    FindOnly(s, t.to[j], j, 0);
  }

  // --------------------------------------------------- items across steps

  lemma {:induction false} ReversedSnoc(p: seq<nat>, i: nat)
    requires i < |p|
    ensures Reversed(p[i..]) == Reversed(p[i + 1..]) + [p[i]]
  {
    assert p[i..][1..] == p[i + 1..];
  }

  lemma SentFacts(t: Topo, u: nat -> Uuid, k: nat, body: Rr, req: nat)
    requires WellFormed(t) && k < |t.from| && t.kind(t.from[k]) == Client && body.subs == []
    ensures OnReqWire(t, u, Item(ReqSend(body, t.uuid[k]), [k], [], req, 0), k)
  {
    SendFirst(body, t.uuid[k]);
    assert Uuids(t, [k]) == [t.uuid[k]];
  }

  /** Arriving teaches the rep_tgtd the uuid of this very connection. */
  lemma ArriveFacts(t: Topo, u: nat -> Uuid, it: Item, k: nat)
    requires WellFormed(t) && k < |t.from| && OnReqWire(t, u, it, k)
    ensures Readable(it.msg) && RtCur(GetHdr(it.msg)) == t.uuid[k]
    ensures forall v: nat -> Uuid ::
      v(k) == t.uuid[k] && (forall j: nat :: j != k ==> v(j) == u(j)) ==> Arrived(t, v, it, t.to[k])
  {
  }

  lemma DispatchFacts(t: Topo, u: nat -> Uuid, it: Item, k: nat)
    requires WellFormed(t) && k < |t.from| && Arrived(t, u, it, t.from[k])
    ensures Appendable(it.msg)
    ensures OnReqWire(t, u, it.(msg := RtAppend(it.msg, t.uuid[k]), path := it.path + [k]), k)
  {
    hide ShortChains;
    Longer(t, it.path, k);
    AppendFirst(it.msg, t.uuid[k]);
    TtlWidth(GetHdr(it.msg), t.uuid[k]);
  }

  lemma ReplyFacts(t: Topo, u: nat -> Uuid, it: Item, n: nat, body: Rr, rep: nat)
    requires WellFormed(t) && Arrived(t, u, it, n) && body.subs == []
    ensures var k := it.path[|it.path| - 1];
      Coming(t, u, it.(msg := TurnBack(body.(subs := it.msg.subs)), back := it.back + [k], rep := rep), k, true)
  {
    var p := it.path;
    ReversedSnoc(p, |p| - 1);
    assert p[|p|..] == [] && it.back + [p[|p| - 1]] == [] + [p[|p| - 1]];
  }

  lemma Lowered(m: Rr)
    requires HasHdr(m) && 1 <= GetHdr(m).ttl <= 15
    ensures var n := Lower(m);
      && HasHdr(n) && |n.subs| == |m.subs|
      && GetHdr(n).ttl == GetHdr(m).ttl - 1 && GetHdr(n).rt == GetHdr(m).rt
  {
  }

  lemma LowerFacts(t: Topo, u: nat -> Uuid, it: Item, k: nat)
    requires WellFormed(t) && k < |t.from| && Coming(t, u, it, k, true)
    ensures var ttl := GetHdr(it.msg).ttl; var low := it.(msg := Lower(it.msg));
      && (ttl >= 2 ==> Coming(t, u, low, it.path[ttl - 2], false))
      && (ttl == 1 ==> Home(t, low, k, t.from[k]))
      && (t.kind(t.from[k]) == Client <==> ttl == 1)
  {
    var ttl := GetHdr(it.msg).ttl;
    hide ShortChains, Chain, Uuids, Reversed, Lower;
    ChainShort(t, it.path);
    Lowered(it.msg);
    NotFirst(t, it.path, ttl - 1);
    assert it.path[0..] == it.path;
  }

  lemma ReturnFacts(t: Topo, u: nat -> Uuid, it: Item, k: nat)
    requires WellFormed(t) && k < |t.from| && Coming(t, u, it, k, false)
    ensures Coming(t, u, it.(back := it.back + [k]), k, true)
  {
    ReversedSnoc(it.path, GetHdr(it.msg).ttl - 1);
  }

  /** Learning a connection's own uuid spoils nothing. */
  lemma LearnKeeps(t: Topo, u: nat -> Uuid, v: nat -> Uuid, k: nat)
    requires WellFormed(t) && k < |t.from| && v(k) == t.uuid[k] && forall j: nat :: j != k ==> v(j) == u(j)
    ensures forall it, j :: OnReqWire(t, u, it, j) ==> OnReqWire(t, v, it, j)
    ensures forall it, n :: Arrived(t, u, it, n) ==> Arrived(t, v, it, n)
    ensures forall it, j, sent :: Coming(t, u, it, j, sent) ==> Coming(t, v, it, j, sent)
  {
  }

  // ------------------------------------------------------------- the steps

  lemma StepReq(s: Net, step: Step)
    requires Inv(s) && Enabled(s, step) && Safe(s, step) && (step.Request? || step.Dispatch? || step.Drop?)
    ensures Inv(Do(s, step))
  {
    hide ShortChains, OnReqWire, Arrived, Coming, Home, Readable, Appendable, RtAppend, ReqSend;
    var t, u := s.topo, s.repUuid;
    match step {
      case Request(k, body) => SentFacts(t, u, k, body, |s.asked|);
      case Dispatch(k) => DispatchFacts(t, u, s.reqQ(k)[0], k);
      case Drop(k) =>
    }
  }

  lemma StepArrive(s: Net, step: Step)
    requires Inv(s) && Enabled(s, step) && Safe(s, step) && (step.Forward? || step.Serve?)
    ensures Inv(Do(s, step))
  {
    hide ShortChains, OnReqWire, Arrived, Coming, Home, Readable, GetHdr, RtCur;
    var t, u := s.topo, s.repUuid;
    var it := s.reqWire(step.k)[0];
    ArriveFacts(t, u, it, step.k);
    LearnKeeps(t, u, Learn(s, step.k, t.uuid[step.k]), step.k);
  }

  lemma StepReply(s: Net, n: nat, i: nat, body: Rr)
    requires Inv(s) && Enabled(s, Reply(n, i, body)) && Safe(s, Reply(n, i, body))
    ensures Inv(Do(s, Reply(n, i, body)))
  {
    hide ShortChains, OnReqWire, Arrived, Coming, Home, Readable, GetHdr, TurnBack, Route;
    RouteExists(s, Reply(n, i, body));
    ReplyFacts(s.topo, s.repUuid, s.served(n)[i], n, body, |s.answered|);
  }

  lemma StepGoBack(s: Net, k: nat)
    requires Inv(s) && Enabled(s, GoBack(k)) && Safe(s, GoBack(k))
    ensures Inv(Do(s, GoBack(k)))
  {
    hide ShortChains, OnReqWire, Arrived, Coming, Home, GetHdr, Lower, Route;
    RouteExists(s, GoBack(k));
    LowerFacts(s.topo, s.repUuid, s.repWire(k)[0], k);
  }

  lemma StepReturn(s: Net, k: nat)
    requires Inv(s) && Enabled(s, Return(k))
    ensures Inv(Do(s, Return(k)))
  {
    hide ShortChains, OnReqWire, Arrived, Coming, Home;
    ReturnFacts(s.topo, s.repUuid, s.repQ(k)[0], k);
  }

  lemma StepFinish(s: Net, k: nat)
    requires Inv(s) && Enabled(s, Finish(k)) && Safe(s, Finish(k))
    ensures Inv(Do(s, Finish(k)))
  {
    hide ShortChains, OnReqWire, Arrived, Coming, Home, GetHdr, Lower;
    LowerFacts(s.topo, s.repUuid, s.repWire(k)[0], k);
  }

  lemma StepInv(s: Net, step: Step)
    requires Inv(s) && Enabled(s, step)
    ensures Safe(s, step) && Inv(Do(s, step))
  {
    hide Inv;
    AlwaysSafe(s, step);
    match step {
      case Request(_, _) => StepReq(s, step);
      case Dispatch(_) => StepReq(s, step);
      case Drop(_) => StepReq(s, step);
      case Forward(_, _) => StepArrive(s, step);
      case Serve(_) => StepArrive(s, step);
      case Reply(n, i, body) => StepReply(s, n, i, body);
      case GoBack(k) => StepGoBack(s, k);
      case Return(k) => StepReturn(s, k);
      case Finish(k) => StepFinish(s, k);
    }
  }

  // ------------------------------------------------------------ whole runs

  datatype Outcome = Reached(s: Net) | Stuck | Bug

  ghost function Run(s: Net, steps: seq<Step>): Outcome
    decreases |steps|
  {
    if steps == [] then Reached(s)
    else
      match Run(s, steps[..|steps| - 1])
      case Reached(t) =>
        var step := steps[|steps| - 1];
        if !Enabled(t, step) then Stuck else if !Safe(t, step) then Bug else Reached(Do(t, step))
      case other => other
  }

  lemma {:induction false} RunInv(s: Net, steps: seq<Step>)
    requires Init(s)
    ensures !Run(s, steps).Bug? && (Run(s, steps).Reached? ==> Inv(Run(s, steps).s))
    decreases |steps|
  {
    if steps == [] {
      InitInv(s);
    } else {
      RunInv(s, steps[..|steps| - 1]);
      var r := Run(s, steps[..|steps| - 1]);
      if r.Reached? && Enabled(r.s, steps[|steps| - 1]) {
        StepInv(r.s, steps[|steps| - 1]);
      }
    }
  }

  /** Every reply a requester gets has ttl 0, came in on the connection its request was
      first sent on, and went back through exactly the request's hops. */
  lemma RepliesRetrace(s: Net, steps: seq<Step>, n: nat, i: nat)
    requires Init(s) && Run(s, steps).Reached? && i < |Run(s, steps).s.replies(n)|
    ensures var t := Run(s, steps).s; var (k, it) := t.replies(n)[i];
      && it.path != [] && k == it.path[0] && k < |t.topo.from| && t.topo.from[k] == n
      && it.back == Reversed(it.path) && HasHdr(it.msg) && GetHdr(it.msg).ttl == 0
  {
    RunInv(s, steps);
    var t := Run(s, steps).s;
    assert Home(t.topo, t.replies(n)[i].1, t.replies(n)[i].0, n);
  }

  /** On the way the ttl is the length of the path still to go, and at most 15. */
  lemma TtlExact(s: Net, steps: seq<Step>, k: nat, i: nat)
    requires Init(s) && Run(s, steps).Reached? && k < |Run(s, steps).s.topo.from|
    ensures var t := Run(s, steps).s;
      i < |t.reqWire(k)| ==>
        HasHdr(t.reqWire(k)[i].msg) && GetHdr(t.reqWire(k)[i].msg).ttl == |t.reqWire(k)[i].path| <= 15
    ensures var t := Run(s, steps).s;
      i < |t.repWire(k)| ==> var it := t.repWire(k)[i];
        HasHdr(it.msg) && 1 <= GetHdr(it.msg).ttl <= 15 && GetHdr(it.msg).ttl + |it.back| == |it.path| + 1
  {
    RunInv(s, steps);
    var t := Run(s, steps).s;
    if i < |t.reqWire(k)| {
      assert OnReqWire(t.topo, t.repUuid, t.reqWire(k)[i], k);
    }
    if i < |t.repWire(k)| {
      var it := t.repWire(k)[i];
      assert Coming(t.topo, t.repUuid, it, k, true);
      ReversedLen(it.path[GetHdr(it.msg).ttl - 1..]);
    }
  }

  lemma {:induction false} ReversedLen(p: seq<nat>)
    ensures |Reversed(p)| == |p|
  {
    if p != [] { ReversedLen(p[1..]); }
  }

  /** No reply is ever dropped for want of a target. */
  lemma NoReplyLost(s: Net, steps: seq<Step>, step: Step)
    requires Init(s) && Run(s, steps).Reached? && Enabled(Run(s, steps).s, step) && (step.Reply? || step.GoBack?)
    ensures Safe(Run(s, steps).s, step) && Route(Run(s, steps).s, step) < |Run(s, steps).s.topo.to|
  {
    RunInv(s, steps);
    AlwaysSafe(Run(s, steps).s, step);
    RouteExists(Run(s, steps).s, step);
  }

  // ------------------------------------------------- chains of any length

  /** The only message anywhere is a request on the wire of k, n hops old. */
  ghost predicate Alone(s: Net, k: nat, n: nat) {
    && |s.reqWire(k)| == 1 && (forall j: nat :: j != k ==> s.reqWire(j) == []) && (forall j: nat :: s.reqQ(j) == [])
    && var m := s.reqWire(k)[0].msg;
    |m.subs| == 1 && HasHdr(m) && GetHdr(m).ttl == |GetHdr(m).rt| == n
  }

  /** A request is sent along the first n connections of p. */
  ghost function March(p: seq<nat>, n: nat): seq<Step>
    requires 1 <= n <= |p|
  {
    if n == 1 then [Request(p[0], Rr([], []))]
    else March(p, n - 1) + [Forward(p[n - 2], p[n - 1])] + [Dispatch(p[n - 1])]
  }

  lemma RunSnoc(s: Net, steps: seq<Step>, step: Step)
    requires Run(s, steps).Reached? && Enabled(Run(s, steps).s, step)
    ensures var t := Run(s, steps).s;
      Run(s, steps + [step]) == if Safe(t, step) then Reached(Do(t, step)) else Bug
  {
    assert (steps + [step])[..|steps|] == steps;
  }

  /** One hop further: the request arrives, and leaves again unless it was the 15th. */
  lemma Hop(s: Net, steps: seq<Step>, j: nat, k: nat, n: nat)
    requires Run(s, steps).Reached? && Alone(Run(s, steps).s, j, n) && 1 <= n <= 15
    requires var t := Run(s, steps).s.topo; Sized(t) && j < |t.to| && k < |t.from| && t.to[j] == t.from[k]
    ensures var r := Run(s, steps + [Forward(j, k)] + [Dispatch(k)]);
      if n < 15 then r.Reached? && Alone(r.s, k, n + 1) && r.s.topo == Run(s, steps).s.topo else r == Bug
  {
    hide Run;
    var a := Run(s, steps).s;
    Arrives(a, j, k, n);
    RunSnoc(s, steps, Forward(j, k));
    Leaves(Do(a, Forward(j, k)), k, n);
    RunSnoc(s, steps + [Forward(j, k)], Dispatch(k));
  }

  lemma Arrives(s: Net, j: nat, k: nat, n: nat)
    requires Sized(s.topo) && Alone(s, j, n) && 1 <= n <= 15
    requires var t := s.topo; j < |t.to| && k < |t.from| && t.to[j] == t.from[k]
    ensures Enabled(s, Forward(j, k)) && Safe(s, Forward(j, k))
    ensures var d := Do(s, Forward(j, k)); d.topo == s.topo && Queued(d, k, n)
  {
    var d, it := Do(s, Forward(j, k)), s.reqWire(j)[0];
    assert s.reqWire(j)[1..] == [] && d.reqQ(k) == [it];
  }

  /** The only message anywhere is a request queued for k, n hops old. */
  ghost predicate Queued(s: Net, k: nat, n: nat) {
    && |s.reqQ(k)| == 1 && (forall j: nat :: j != k ==> s.reqQ(j) == []) && (forall j: nat :: s.reqWire(j) == [])
    && var m := s.reqQ(k)[0].msg;
    |m.subs| == 1 && HasHdr(m) && GetHdr(m).ttl == |GetHdr(m).rt| == n
  }

  lemma Leaves(s: Net, k: nat, n: nat)
    requires Sized(s.topo) && Queued(s, k, n) && 1 <= n <= 15
    requires k < |s.topo.from| && s.topo.kind(s.topo.from[k]) == Relay
    ensures Enabled(s, Dispatch(k)) && (Safe(s, Dispatch(k)) <==> n < 15)
    ensures n < 15 ==> var d := Do(s, Dispatch(k)); d.topo == s.topo && Alone(d, k, n + 1)
  {
    var it := s.reqQ(k)[0];
    TtlWidth(GetHdr(it.msg), s.topo.uuid[k]);
    if n < 15 {
      AppendFirst(it.msg, s.topo.uuid[k]);
      assert s.reqQ(k)[1..] == [];
    }
  }

  lemma {:induction false} Marches(s: Net, p: seq<nat>, n: nat)
    requires Blank(s) && Chain(s.topo, p) && 1 <= n <= |p| && n <= 15
    ensures var r := Run(s, March(p, n)); r.Reached? && Alone(r.s, p[n - 1], n) && r.s.topo == s.topo
  {
    if n == 1 {
      var step := Request(p[0], Rr([], []));
      assert Run(s, []) == Reached(s);
      RunSnoc(s, [], step);
      SendFirst(Rr([], []), s.topo.uuid[p[0]]);
      assert [] + [step] == [step];
    } else {
      Marches(s, p, n - 1);
      Hop(s, March(p, n - 1), p[n - 2], p[n - 1], n - 1);
    }
  }

  /** The 4-bit ttl limits chains exactly: no run trips a BUG_ON if and only if no
      chain has more than 15 connections. */
  lemma {:induction false} LongChains(s: Net)
    requires Blank(s)
    ensures (forall steps :: Run(s, steps) != Bug) <==> ShortChains(s.topo)
  {
    hide Run;
    if ShortChains(s.topo) {
      forall steps ensures Run(s, steps) != Bug {
        RunInv(s, steps);
      }
    } else {
      var p :| Chain(s.topo, p) && |p| > 15;
      Marches(s, p, 15);
      Hop(s, March(p, 15), p[14], p[15], 15);
    }
  }
}
