/** BUS endpoints joined into a tree: every broadcast reaches every other endpoint
    exactly once, and propagation ends. */
module BusNet {
  import opened MsgTree
  import opened MsgOps
  import opened Bus
  import opened Seqs

  // ------------------------------------------------------------- the tree

  /** A tree on 0..|par|-1: node 0 is a root and every other node hangs below an
      earlier one. Every finite tree can be numbered so. */
  type Par = p: seq<nat> | forall i :: 0 < i < |p| ==> p[i] < i witness []

  predicate Adj(p: Par, a: nat, b: nat) {
    a < |p| && b < |p| && ((b > 0 && p[b] == a) || (a > 0 && p[a] == b))
  }

  /** The neighbour of a on the path from a to v. */
  function Next(p: Par, a: nat, v: nat): (x: nat)
    requires a < |p| && v < |p|
    ensures x < |p|
    decreases v
  {
    if v == a then a
    else if v < a then p[a]
    else if p[v] == a then v
    else Next(p, a, p[v])
  }

  function Dist(p: Par, a: nat, v: nat): nat
    requires a < |p| && v < |p|
    decreases a + v
  {
    if v == a then 0 else if v < a then 1 + Dist(p, p[a], v) else 1 + Dist(p, a, p[v])
  }

  lemma {:induction false} NextAdj(p: Par, a: nat, v: nat)
    requires a < |p| && v < |p| && a != v
    ensures Adj(p, a, Next(p, a, v)) && (v > a ==> Next(p, a, v) <= v)
    decreases v
  {
    if v > a && p[v] != a {
      NextAdj(p, a, p[v]);
    }
  }

  /** Of the two ends of an edge, exactly one has the other on its way to v. */
  lemma {:induction false} EdgeSides(p: Par, a: nat, b: nat, v: nat)
    requires Adj(p, a, b) && v < |p|
    ensures (Next(p, a, v) == b) != (Next(p, b, v) == a)
    decreases v, if b < a then 1 else 0
  {
    if b < a {
      EdgeSides(p, b, a, v);
    } else if v <= b {
      if v > a { NextAdj(p, a, v); }
    } else if p[v] != a && p[v] != b {
      EdgeSides(p, a, b, p[v]);
    }
  }

  /** One hop towards v is one hop less to go. */
  lemma {:induction false} DistNext(p: Par, a: nat, v: nat)
    requires a < |p| && v < |p| && a != v
    ensures Dist(p, a, v) == 1 + Dist(p, Next(p, a, v), v)
    decreases v
  {
    if v > a && p[v] != a {
      var x := Next(p, a, p[v]);
      DistNext(p, a, p[v]);
      NextAdj(p, a, p[v]);
      assert x < v;
    }
  }

  // ---------------------------------------------------------- the network

  /** A message on its way; `id` tells broadcasts apart. */
  datatype Copy = Copy(id: nat, body: Msg)

  datatype Broadcast = Broadcast(origin: nat, msg: Msg)

  /** queue(a, b) is the queue of endpoint a's target towards b, wire(a, b) what
      has been sent from a and not been added at b, rcv(v) all that was handed up at v;
      order(v) is the order of v's connectors. */
  datatype Net = Net(
    par: Par, crc: nat -> nat, order: nat -> seq<nat>,
    queue: (nat, nat) -> seq<Copy>, wire: (nat, nat) -> seq<Copy>, rcv: nat -> seq<Copy>, sent: seq<Broadcast>)

  datatype Step = Start(v: nat, msg: Msg) | Transmit(a: nat, b: nat) | Arrive(a: nat, b: nat)

  ghost predicate WellFormed(s: Net) {
    forall v: nat, x: nat :: v < |s.par| ==> (x in s.order(v) <==> Adj(s.par, v, x))
  }

  predicate Enabled(s: Net, step: Step) {
    match step
    case Start(v, msg) => v < |s.par| && Accurate(msg)
    case Transmit(a, b) => Adj(s.par, a, b) && s.queue(a, b) != []
    case Arrive(a, b) => Adj(s.par, a, b) && s.wire(a, b) != []
  }

  /** What bus_ep_send queues towards x. */
  function Outgoing(s: Net, v: nat, x: nat, c: Copy): Copy {
    if s.order(v) != [] && s.order(v)[|s.order(v)| - 1] == x then c else Copy(c.id, Clone(c.body, s.crc))
  }

  function Do(s: Net, step: Step): Net
    requires Enabled(s, step)
  {
    match step
    case Start(v, msg) =>
      var c := Copy(|s.sent|, msg);
      s.(queue := (a: nat, b: nat) => if a == v && b in s.order(v) then s.queue(a, b) + [Outgoing(s, v, b, c)]
                    else s.queue(a, b),
         sent := s.sent + [Broadcast(v, msg)])
    case Transmit(u, w) =>
      s.(queue := (a: nat, b: nat) => if a == u && b == w && s.queue(u, w) != [] then s.queue(u, w)[1..]
                    else s.queue(a, b),
         wire := (a: nat, b: nat) => if a == u && b == w && s.queue(u, w) != []
                     then s.wire(u, w) + [s.queue(u, w)[0]] else s.wire(a, b))
    case Arrive(u, w) =>
      var c := s.wire(u, w)[0];
      s.(wire := (a: nat, b: nat) => if a == u && b == w && s.wire(u, w) != [] then s.wire(u, w)[1..] else s.wire(a, b),
         queue := (a: nat, b: nat) => if a == w && b in s.order(w) && b != u
                     then s.queue(a, b) + [Copy(c.id, Clone(c.body, s.crc))] else s.queue(a, b),
         rcv := (v: nat) => if v == w then s.rcv(w) + [c] else s.rcv(v))
  }

  // ------------------------------------------------------------------ sums

  function Sum(n: nat, f: nat -> nat): nat {
    if n == 0 then 0 else Sum(n - 1, f) + f(n - 1)
  }

  lemma {:induction false} SumSame(n: nat, f: nat -> nat, g: nat -> nat)
    requires forall a :: 0 <= a < n ==> f(a) == g(a)
    ensures Sum(n, f) == Sum(n, g)
  {
    if n > 0 { SumSame(n - 1, f, g); }
  }

  lemma {:induction false} SumChange(n: nat, f: nat -> nat, g: nat -> nat, i: nat)
    requires i < n && forall a :: 0 <= a < n && a != i ==> f(a) == g(a)
    ensures Sum(n, g) - Sum(n, f) == g(i) - f(i)
  {
    if i == n - 1 { SumSame(n - 1, f, g); } else { SumChange(n - 1, f, g, i); }
  }

  lemma {:induction false} SumChange2(n: nat, f: nat -> nat, g: nat -> nat, i: nat, j: nat)
    requires i < n && j < n && i != j && forall a :: 0 <= a < n && a != i && a != j ==> f(a) == g(a)
    ensures Sum(n, g) - Sum(n, f) == g(i) - f(i) + g(j) - f(j)
  {
    var h := (a: nat) => if a == i then g(a) else f(a);
    SumChange(n, f, h, i);
    SumChange(n, h, g, j);
  }

  lemma {:induction false} SumZero(n: nat, f: nat -> nat)
    ensures Sum(n, f) == 0 <==> forall a :: 0 <= a < n ==> f(a) == 0
  {
    if n > 0 { SumZero(n - 1, f); }
  }

  lemma {:induction false} SumLess(n: nat, f: nat -> nat, g: nat -> nat, i: nat)
    requires i < n && g(i) < f(i) && forall a :: 0 <= a < n ==> g(a) <= f(a)
    ensures Sum(n, g) < Sum(n, f)
  {
    if i == n - 1 {
      SumLeq(n - 1, f, g);
    } else {
      SumLess(n - 1, f, g, i);
    }
  }

  lemma {:induction false} SumLeq(n: nat, f: nat -> nat, g: nat -> nat)
    requires forall a :: 0 <= a < n ==> g(a) <= f(a)
    ensures Sum(n, g) <= Sum(n, f)
  {
    if n > 0 { SumLeq(n - 1, f, g); }
  }

  // -------------------------------------------------- copies bound for v

  function Count(q: seq<Copy>, id: nat): nat {
    if q == [] then 0 else (if q[0].id == id then 1 else 0) + Count(q[1..], id)
  }

  lemma {:induction false} CountConcat(p: seq<Copy>, q: seq<Copy>, id: nat)
    ensures Count(p + q, id) == Count(p, id) + Count(q, id)
  {
    if p == [] {
      assert p + q == q;
    } else {
      assert (p + q)[1..] == p[1..] + q;
      CountConcat(p[1..], q, id);
    }
  }

  lemma CountOne(q: seq<Copy>, c: Copy, id: nat)
    ensures Count(q + [c], id) == Count(q, id) + if c.id == id then 1 else 0
  {
    CountConcat(q, [c], id);
  }

  /** Copies of id that stand at a and will pass on towards v. */
  function Bound(s: Net, id: nat, v: nat, a: nat): nat
    requires v < |s.par|
  {
    if a == v || a >= |s.par| then 0
    else
      var x := Next(s.par, a, v);
      Count(s.queue(a, x), id) + Count(s.wire(a, x), id)
  }

  /** Deliveries of id at v, made and to come. */
  function Destined(s: Net, id: nat, v: nat): nat
    requires v < |s.par|
  {
    Count(s.rcv(v), id) + Sum(|s.par|, a => Bound(s, id, v, a))
  }

  lemma StartDestined(s: Net, v0: nat, msg: Msg, id: nat, v: nat)
    requires WellFormed(s) && Enabled(s, Start(v0, msg)) && v < |s.par|
    ensures Destined(Do(s, Start(v0, msg)), id, v) == Destined(s, id, v) + if id == |s.sent| && v != v0 then 1 else 0
  {
    var t := Do(s, Start(v0, msg));
    var f, g := (a: nat) => Bound(s, id, v, a), (a: nat) => Bound(t, id, v, a);
    if v != v0 {
      var x := Next(s.par, v0, v);
      NextAdj(s.par, v0, v);
      CountOne(s.queue(v0, x), Outgoing(s, v0, x, Copy(|s.sent|, msg)), id);
    }
    SumChange(|s.par|, f, g, v0);
  }

  lemma TransmitDestined(s: Net, u: nat, w: nat, id: nat, v: nat)
    requires Enabled(s, Transmit(u, w)) && v < |s.par|
    ensures Destined(Do(s, Transmit(u, w)), id, v) == Destined(s, id, v)
  {
    var t := Do(s, Transmit(u, w));
    var q := s.queue(u, w);
    CountOne(s.wire(u, w), q[0], id);
    SumSame(|s.par|, a => Bound(s, id, v, a), a => Bound(t, id, v, a));
  }

  /** Where a copy of c arriving over (u, w) leaves and joins those bound for v. */
  lemma ArriveBound(s: Net, u: nat, w: nat, id: nat, v: nat, a: nat)
    requires WellFormed(s) && Enabled(s, Arrive(u, w)) && v < |s.par| && a < |s.par|
    ensures var one := if s.wire(u, w)[0].id == id && Next(s.par, u, v) == w then 1 else 0;
      Bound(Do(s, Arrive(u, w)), id, v, a) == Bound(s, id, v, a)
        - (if a == u && u != v then one else 0) + (if a == w && w != v then one else 0)
  {
    EdgeSides(s.par, u, w, v);
    if a == w && w != v {
      var c := s.wire(u, w)[0];
      var x := Next(s.par, w, v);
      NextAdj(s.par, w, v);
      CountOne(s.queue(w, x), Copy(c.id, Clone(c.body, s.crc)), id);
    }
  }

  lemma ArriveDestined(s: Net, u: nat, w: nat, id: nat, v: nat)
    requires WellFormed(s) && Enabled(s, Arrive(u, w)) && v < |s.par|
    ensures Destined(Do(s, Arrive(u, w)), id, v) == Destined(s, id, v)
  {
    hide Next, Bound;
    var t := Do(s, Arrive(u, w));
    var f, g := (a: nat) => Bound(s, id, v, a), (a: nat) => Bound(t, id, v, a);
    Here(s.par, v);
    EdgeSides(s.par, u, w, v);
    CountOne(s.rcv(w), s.wire(u, w)[0], id);
    forall a: nat | a < |s.par| {
      ArriveBound(s, u, w, id, v, a);
    }
    SumChange2(|s.par|, f, g, u, w);
  }

  lemma Here(p: Par, v: nat)
    requires v < |p|
    ensures Next(p, v, v) == v
  {
  }

  // ------------------------------------------------------------ invariants

  /** Every copy in the network is genuine. */
  ghost predicate AllGenuine(s: Net) {
    && (forall a: nat, b: nat, i :: 0 <= i < |s.queue(a, b)| ==> Genuine(s, s.queue(a, b)[i]))
    && (forall a: nat, b: nat, i :: 0 <= i < |s.wire(a, b)| ==> Genuine(s, s.wire(a, b)[i]))
    && (forall v: nat, i :: 0 <= i < |s.rcv(v)| ==> Genuine(s, s.rcv(v)[i]))
  }

  /** A copy of broadcast c.id carries its message or a clone of it. */
  predicate Genuine(s: Net, c: Copy) {
    c.id < |s.sent| && var m := s.sent[c.id].msg; Accurate(m) && (c.body == m || c.body == Clone(m, s.crc))
  }

  ghost predicate Inv(s: Net) {
    && WellFormed(s)
    && (forall v: nat, id: nat :: v < |s.par| ==>
          Destined(s, id, v) == if id < |s.sent| && s.sent[id].origin != v then 1 else 0)
    && AllGenuine(s)
  }

  ghost predicate Init(s: Net) {
    && WellFormed(s) && s.sent == []
    && (forall a: nat, b: nat :: s.queue(a, b) == [] && s.wire(a, b) == []) && forall v: nat :: s.rcv(v) == []
  }

  lemma InitInv(s: Net)
    requires Init(s)
    ensures Inv(s)
  {
    forall v: nat, id: nat | v < |s.par| ensures Destined(s, id, v) == 0 {
      SumZero(|s.par|, a => Bound(s, id, v, a));
    }
  }

  lemma DestinedStep(s: Net, step: Step)
    requires Inv(s) && Enabled(s, step)
    ensures var t := Do(s, step); forall v: nat, id: nat :: v < |t.par| ==>
      Destined(t, id, v) == if id < |t.sent| && t.sent[id].origin != v then 1 else 0
  {
    hide Destined, Genuine;
    forall v: nat, id: nat | v < |s.par|
      ensures var t := Do(s, step); Destined(t, id, v) == if id < |t.sent| && t.sent[id].origin != v then 1 else 0
    {
      match step {
        case Start(v0, msg) => StartDestined(s, v0, msg, id, v);
        case Transmit(u, w) => TransmitDestined(s, u, w, id, v);
        case Arrive(u, w) => ArriveDestined(s, u, w, id, v);
      }
    }
  }

  lemma {:induction false} GenuineStart(s: Net, v: nat, msg: Msg)
    requires AllGenuine(s) && Enabled(s, Start(v, msg))
    ensures AllGenuine(Do(s, Start(v, msg)))
  {
    hide Accurate, Clone;
    var t := Do(s, Start(v, msg));
    assert forall c :: Genuine(s, c) ==> Genuine(t, c);
  }

  lemma {:induction false} GenuineTransmit(s: Net, u: nat, w: nat)
    requires AllGenuine(s) && Enabled(s, Transmit(u, w))
    ensures AllGenuine(Do(s, Transmit(u, w)))
  {
    hide Accurate, Clone;
    var t := Do(s, Transmit(u, w));
    assert forall c :: Genuine(s, c) ==> Genuine(t, c);
    assert Genuine(s, s.queue(u, w)[0]);
  }

  lemma {:induction false} GenuineArrive(s: Net, u: nat, w: nat)
    requires AllGenuine(s) && Enabled(s, Arrive(u, w))
    ensures AllGenuine(Do(s, Arrive(u, w)))
  {
    hide Accurate, Clone;
    var t := Do(s, Arrive(u, w));
    assert forall c :: Genuine(s, c) ==> Genuine(t, c);
    var c := s.wire(u, w)[0];
    assert Genuine(s, c);
    CloneTwice(s.sent[c.id].msg, s.crc);
  }

  lemma StepInv(s: Net, step: Step)
    requires Inv(s) && Enabled(s, step)
    ensures Inv(Do(s, step))
  {
    hide Destined, Genuine;
    DestinedStep(s, step);
    match step {
      case Start(v, msg) => GenuineStart(s, v, msg);
      case Transmit(u, w) => GenuineTransmit(s, u, w);
      case Arrive(u, w) => GenuineArrive(s, u, w);
    }
  }

  // ------------------------------------------------------------ whole runs

  datatype Outcome = Reached(s: Net) | Stuck

  function Run(s: Net, steps: seq<Step>): Outcome
    decreases |steps|
  {
    if steps == [] then Reached(s)
    else
      match Run(s, steps[..|steps| - 1])
      case Stuck => Stuck
      case Reached(t) => if Enabled(t, steps[|steps| - 1]) then Reached(Do(t, steps[|steps| - 1])) else Stuck
  }

  lemma {:induction false} RunInv(s: Net, steps: seq<Step>)
    requires Init(s)
    ensures Run(s, steps).Reached? ==> Inv(Run(s, steps).s) && Run(s, steps).s.par == s.par
    decreases |steps|
  {
    if steps == [] {
      InitInv(s);
    } else {
      RunInv(s, steps[..|steps| - 1]);
      var r := Run(s, steps[..|steps| - 1]);
      if r.Reached? && Enabled(r.s, steps[|steps| - 1]) {
        StepInv(r.s, steps[|steps| - 1]);
      }
    }
  }

  /** Nothing is queued or on the wire. */
  ghost predicate Still(s: Net) {
    forall a: nat, b: nat :: Adj(s.par, a, b) ==> s.queue(a, b) == [] && s.wire(a, b) == []
  }

  lemma OnceEach(t: Net, id: nat, v: nat)
    requires Inv(t) && v < |t.par|
    ensures var due := if id < |t.sent| && t.sent[id].origin != v then 1 else 0;
      Count(t.rcv(v), id) <= due && (Still(t) ==> Count(t.rcv(v), id) == due)
  {
    hide Bound, Count;
    assert Destined(t, id, v) == if id < |t.sent| && t.sent[id].origin != v then 1 else 0;
    if Still(t) {
      forall a: nat | a < |t.par| ensures Bound(t, id, v, a) == 0 {
        NoneBound(t, id, v, a);
      }
      SumZero(|t.par|, a => Bound(t, id, v, a));
    }
  }

  lemma NoneBound(t: Net, id: nat, v: nat, a: nat)
    requires Still(t) && v < |t.par| && a < |t.par|
    ensures Bound(t, id, v, a) == 0
  {
    if a != v { NextAdj(t.par, a, v); }
  }

  /** At any time: never more than once, never at the origin; once nothing is in
      flight: exactly once everywhere else. */
  lemma ExactlyOnce(s: Net, steps: seq<Step>, id: nat, v: nat)
    requires Init(s) && Run(s, steps).Reached? && v < |s.par|
    ensures var t := Run(s, steps).s;
      && Count(t.rcv(v), id) <= 1
      && (Count(t.rcv(v), id) == 1 ==> id < |t.sent| && t.sent[id].origin != v)
      && (Still(t) && id < |t.sent| && t.sent[id].origin != v ==> Count(t.rcv(v), id) == 1)
  {
    hide Run, Inv, Still, Count;
    RunInv(s, steps);
    OnceEach(Run(s, steps).s, id, v);
  }

  /** What is handed up carries the broadcast's payload; it is the broadcast itself
      when no sub had subs of its own. */
  lemma Contents(s: Net, steps: seq<Step>, v: nat, i: nat)
    requires Init(s) && Run(s, steps).Reached? && v < |s.par| && i < |Run(s, steps).s.rcv(v)|
    ensures var t := Run(s, steps).s; var c := t.rcv(v)[i];
      c.id < |t.sent| && var m := t.sent[c.id].msg; (
      && c.body.data == m.data && (c.body == m || c.body.subs == Bare(m.subs, t.crc))
      && (Untouched(m, t.crc) && (forall x :: x in m.subs ==> Untouched(x, t.crc) && x.subs == []) ==> c.body == m))
  {
    RunInv(s, steps);
    var t := Run(s, steps).s;
    var c := t.rcv(v)[i];
    assert Genuine(t, c);
    var m := t.sent[c.id].msg;
    CloneFacts(m, t.crc);
    if Untouched(m, t.crc) && (forall x :: x in m.subs ==> Untouched(x, t.crc) && x.subs == []) {
      CloneExact(m, t.crc);
    }
  }

  // ----------------------------------------------------------- termination

  function Cost(d: nat, queued: nat, wired: nat): nat
    requires d > 0
  {
    2 * d * queued + (2 * d - 1) * wired
  }

  lemma CostSteps(d: nat, q: nat, k: nat)
    requires d > 0
    ensures q > 0 ==> Cost(d, q - 1, k + 1) == Cost(d, q, k) - 1
    ensures k > 0 ==> Cost(d, q, k - 1) == Cost(d, q, k) - (2 * d - 1)
    ensures Cost(d, q + 1, k) == Cost(d, q, k) + 2 * d
  {
    assert 2 * d * (q - 1) == 2 * d * q - 2 * d && 2 * d * (q + 1) == 2 * d * q + 2 * d;
    assert (2 * d - 1) * (k - 1) == (2 * d - 1) * k - (2 * d - 1)
      && (2 * d - 1) * (k + 1) == (2 * d - 1) * k + (2 * d - 1);
  }

  /** Steps still ahead of the copies at a that are bound for v: two per hop, one
      less for a copy already on the wire. */
  function Ahead(s: Net, v: nat, a: nat): nat {
    if v >= |s.par| || a >= |s.par| || a == v then 0
    else
      var x := Next(s.par, a, v);
      var d := Dist(s.par, a, v);
      DistNext(s.par, a, v);
      Cost(d, |s.queue(a, x)|, |s.wire(a, x)|)
  }

  function AheadFor(s: Net, v: nat): nat {
    Sum(|s.par|, a => Ahead(s, v, a))
  }

  function Remaining(s: Net): nat {
    Sum(|s.par|, v => AheadFor(s, v))
  }

  lemma TransmitAhead(s: Net, u: nat, w: nat, v: nat)
    requires Enabled(s, Transmit(u, w)) && v < |s.par|
    ensures AheadFor(Do(s, Transmit(u, w)), v) == AheadFor(s, v) - if u != v && Next(s.par, u, v) == w then 1 else 0
  {
    hide Cost, Dist, Next;
    var t := Do(s, Transmit(u, w));
    var f, g := (a: nat) => Ahead(s, v, a), (a: nat) => Ahead(t, v, a);
    if u != v && Next(s.par, u, v) == w {
      DistNext(s.par, u, v);
      CostSteps(Dist(s.par, u, v), |s.queue(u, w)|, |s.wire(u, w)|);
    }
    SumChange(|s.par|, f, g, u);
  }

  lemma {:induction false} ArriveAheadAt(s: Net, u: nat, w: nat, v: nat, a: nat)
    requires WellFormed(s) && Enabled(s, Arrive(u, w)) && v < |s.par| && a < |s.par|
    ensures var on := u != v && Next(s.par, u, v) == w;
      Ahead(Do(s, Arrive(u, w)), v, a) == Ahead(s, v, a)
        - (if on && a == u then 2 * Dist(s.par, u, v) - 1 else 0)
        + (if on && a == w && w != v then 2 * Dist(s.par, w, v) else 0)
  {
    hide Cost, Dist, Next, Clone, Accurate;
    EdgeSides(s.par, u, w, v);
    Here(s.par, v);
    if a == v {
    } else if a != u && a != w {
    } else {
      var x, d := Next(s.par, a, v), Dist(s.par, a, v);
      var q, k := |s.queue(a, x)|, |s.wire(a, x)|;
      NextAdj(s.par, a, v);
      DistNext(s.par, a, v);
      CostSteps(d, q, k);
    }
  }

  lemma ArriveAhead(s: Net, u: nat, w: nat, v: nat)
    requires WellFormed(s) && Enabled(s, Arrive(u, w)) && v < |s.par|
    ensures AheadFor(Do(s, Arrive(u, w)), v) == AheadFor(s, v) - if u != v && Next(s.par, u, v) == w then 1 else 0
  {
    hide Ahead, Next, Dist;
    var t := Do(s, Arrive(u, w));
    var f, g := (a: nat) => Ahead(s, v, a), (a: nat) => Ahead(t, v, a);
    forall a: nat | a < |s.par| {
      ArriveAheadAt(s, u, w, v, a);
    }
    SumChange2(|s.par|, f, g, u, w);
    if u != v { DistNext(s.par, u, v); }
    Arrived(s.par, v);
  }

  lemma Arrived(p: Par, v: nat)
    requires v < |p|
    ensures Dist(p, v, v) == 0
  {
  }

  /** Every step that forwards or delivers a copy brings the end closer, for at least
      the endpoint it is one hop away from. */
  lemma ForwardStep(s: Net, step: Step)
    requires WellFormed(s) && Enabled(s, step) && !step.Start?
    ensures Remaining(Do(s, step)) < Remaining(s)
  {
    var t := Do(s, step);
    var f, g := (v: nat) => AheadFor(s, v), (v: nat) => AheadFor(t, v);
    var u, w := step.a, step.b;
    forall v: nat | v < |s.par| ensures g(v) == f(v) - if u != v && Next(s.par, u, v) == w then 1 else 0 {
      if step.Transmit? { TransmitAhead(s, u, w, v); } else { ArriveAhead(s, u, w, v); }
    }
    EdgeSides(s.par, u, w, w);
    SumLess(|s.par|, f, g, w);
  }

  /** A run without new broadcasts has at most Remaining(s) steps. */
  lemma {:induction false} Terminates(s: Net, steps: seq<Step>)
    requires WellFormed(s) && Run(s, steps).Reached? && forall i :: 0 <= i < |steps| ==> !steps[i].Start?
    ensures WellFormed(Run(s, steps).s) && |steps| + Remaining(Run(s, steps).s) <= Remaining(s)
    decreases |steps|
  {
    if steps != [] {
      Terminates(s, steps[..|steps| - 1]);
      ForwardStep(Run(s, steps[..|steps| - 1]).s, steps[|steps| - 1]);
    }
  }

  // ------------------------------------------------- endpoints in the network

  function Bodies(q: seq<Copy>): seq<Msg> {
    seq(|q|, i requires 0 <= i < |q| => q[i].body)
  }

  /** The queues of v's targets, in the order of its connectors. */
  function QueuesAt(s: Net, v: nat): seq<seq<Msg>> {
    seq(|s.order(v)|, i requires 0 <= i < |s.order(v)| => Bodies(s.queue(v, s.order(v)[i])))
  }

  lemma BodiesSnoc(q: seq<Copy>, c: Copy)
    ensures Bodies(q + [c]) == Bodies(q) + [c.body]
  {
  }

  /** A broadcast does to the queues of its origin what bus_ep_send does, and nothing to
      any other. */
  lemma StartIsSend(s: Net, v: nat, msg: Msg)
    requires Enabled(s, Start(v, msg)) && NoDup(s.order(v))
    ensures var t := Do(s, Start(v, msg));
      QueuesAt(t, v) == Sent(QueuesAt(s, v), msg, s.crc) && forall x: nat :: x != v ==> QueuesAt(t, x) == QueuesAt(s, x)
  {
    var t, c, o := Do(s, Start(v, msg)), Copy(|s.sent|, msg), s.order(v);
    forall i | 0 <= i < |o| ensures QueuesAt(t, v)[i] == Sent(QueuesAt(s, v), msg, s.crc)[i] {
      BodiesSnoc(s.queue(v, o[i]), Outgoing(s, v, o[i], c));
    }
  }

  /** An arrival does to the queues of the endpoint what bus_ep_add does. */
  lemma ArriveIsAdd(s: Net, u: nat, w: nat, src: nat)
    requires Enabled(s, Arrive(u, w)) && NoDup(s.order(w)) && src < |s.order(w)| && s.order(w)[src] == u
    ensures var t, c := Do(s, Arrive(u, w)), s.wire(u, w)[0];
      && QueuesAt(t, w) == Forwarded(QueuesAt(s, w), src, c.body, s.crc)
      && Bodies(t.rcv(w)) == Bodies(s.rcv(w)) + [c.body]
      && forall x: nat :: x != w ==> QueuesAt(t, x) == QueuesAt(s, x) && t.rcv(x) == s.rcv(x)
  {
    var t, c, o := Do(s, Arrive(u, w)), s.wire(u, w)[0], s.order(w);
    BodiesSnoc(s.rcv(w), c);
    forall i | 0 <= i < |o| ensures QueuesAt(t, w)[i] == Forwarded(QueuesAt(s, w), src, c.body, s.crc)[i] {
      if i != src {
        BodiesSnoc(s.queue(w, o[i]), Copy(c.id, Clone(c.body, s.crc)));
      }
    }
  }

  /** A transmission takes what bus_ep_rm takes off the queue of that target. */
  lemma TransmitIsRm(s: Net, u: nat, w: nat, dst: nat)
    requires Enabled(s, Transmit(u, w)) && NoDup(s.order(u)) && dst < |s.order(u)| && s.order(u)[dst] == w
    ensures var t := Do(s, Transmit(u, w));
      && QueuesAt(s, u)[dst] == [s.queue(u, w)[0].body] + QueuesAt(t, u)[dst]
      && QueuesAt(t, u) == QueuesAt(s, u)[dst := QueuesAt(t, u)[dst]]
      && t.wire(u, w) == s.wire(u, w) + [s.queue(u, w)[0]]
  {
    var q, r := s.queue(u, w), Do(s, Transmit(u, w)).queue(u, w);
    assert r == q[1..] && Bodies(q) == [q[0].body] + Bodies(q[1..]);
  }
}
