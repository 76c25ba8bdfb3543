/** Flow control of one connector (src/socket/sio/sio.c): any number of threads that
    queue and take messages, and the loop thread. A step is one critical section of
    sb->lock or sig->lock; callbacks that post signals run under sb->lock. */
module Flow {
  import opened EvSig
  import opened MsgHead

  const EV_SNDBUF_ADD: Signo := 0x001
  const EV_RCVBUF_FULL: Signo := 0x110
  const EV_RCVBUF_NONFULL: Signo := 0x120

  /** Who holds sb->lock between a queue operation and the signal it posts. */
  datatype Lock = Unlocked | Posting(signo: Signo, byLoop: bool)

  /** Where the loop thread stands. */
  datatype Pc =
    | Idle                     // waiting for events
    | Taking                   // in the handler's loop, about to take a signal
    | Got(signo: Signo)        // about to act on a signal
    | Unsignalling             // saw no signal, about to call ev_unsignal
    | Reading(write: bool)     // in sio_connector_rcv; `write`: EV_WRITE follows
    | Entering(back: Back)     // about to call sio_lock_send
    | Flushing(back: Back)     // in flush_snd_msgbuf
  datatype Back = ToIdle | ToTaking

  /** snd holds messages by payload size, as does rcv; `posted` and `handled` record the
      signals so far, `sends` and `sent` the messages queued and sent, `receipts` and
      `read` those received and taken. */
  datatype State = State(
    sig: Sig, lock: Lock, pc: Pc, snd: seq<nat>, rcv: seq<nat>, size: int, wnd: int,
    evRead: bool, evWrite: bool, sendLock: bool, posted: seq<Signo>, handled: seq<Signo>,
    sends: seq<nat>, sent: seq<nat>, receipts: seq<nat>, read: seq<nat>)

  // ------------------------------------------------------------- callbacks

  const SND_HANDLERS: set<Event> := {EvAdd}
  const RCV_HANDLERS: set<Event> := {EvFull, EvNonFull}

  /** The signals the callbacks of a queue operation post, in order. */
  function Signals(fired: seq<Event>, s: State): seq<Signo> {
    if fired == [] then [] else One(fired[0], s) + Signals(fired[1..], s)
  }

  function One(e: Event, s: State): seq<Signo> {
    match e
    case EvAdd => if !s.sendLock && !s.evWrite then [EV_SNDBUF_ADD] else []
    case EvFull => [EV_RCVBUF_FULL]
    case EvNonFull => [EV_RCVBUF_NONFULL]
    case _ => []
  }

  lemma SndFires(s: State, wasEmpty: bool)
    ensures Signals(InFired(SND_HANDLERS, 0, 0, wasEmpty), s) ==
      if !s.sendLock && !s.evWrite then [EV_SNDBUF_ADD] else []
  {
    assert InFired(SND_HANDLERS, 0, 0, wasEmpty) == [EvAdd];
    assert [EvAdd][1..] == [];
  }

  lemma RcvFires(s: State, wnd: int, size: int, b: bool)
    ensures Signals(InFired(RCV_HANDLERS, wnd, size, b), s) == if size < wnd then [] else [EV_RCVBUF_FULL]
    ensures Signals(OutFired(RCV_HANDLERS, wnd, size, b), s) == if size < wnd then [EV_RCVBUF_NONFULL] else []
  {
    assert InFired(RCV_HANDLERS, wnd, size, b) == if size < wnd then [] else [EvFull];
    assert OutFired(RCV_HANDLERS, wnd, size, b) == if size < wnd then [EvNonFull] else [];
    assert [EvFull][1..] == [] && [EvNonFull][1..] == [];
  }

  /** The lock after the queue operation: still held while there is a signal to post. */
  function Held(signals: seq<Signo>, byLoop: bool): Lock
    requires |signals| <= 1
  {
    if signals == [] then Unlocked else Posting(signals[0], byLoop)
  }

  // ----------------------------------------------------------------- steps

  datatype Step =
    | SndAdd(size: nat) | RcvRm | PostSignal                       // any thread
    | SigEvent | SockEvent(read: bool, write: bool)                // the loop thread
    | TakeSignal | Act | EvUnsignal | RcvAdd(size: nat) | ReadDone | LockSend | SndRm | FlushDone

  /** The loop thread itself is inside a posting callback. */
  predicate LoopBusy(s: State) {
    s.lock.Posting? && s.lock.byLoop
  }

  /** snd_msgbuf_head_add by a sender. */
  function SndAddStep(s: State, size: nat): State {
    SndFires(s, s.snd == []);
    s.(snd := s.snd + [size], sends := s.sends + [size],
       lock := Held(Signals(InFired(SND_HANDLERS, 0, 0, s.snd == []), s), false))
  }

  /** rcv_msgbuf_head_rm by a receiver; nothing happens on an empty queue. */
  function RcvRmStep(s: State): State {
    if s.rcv == [] then s
    else
      var size := s.size - s.rcv[0];
      RcvFires(s, s.wnd, size, s.rcv[1..] == []);
      s.(rcv := s.rcv[1..], size := size, read := s.read + [s.rcv[0]],
         lock := Held(Signals(OutFired(RCV_HANDLERS, s.wnd, size, s.rcv[1..] == []), s), false))
  }

  /** rcv_msgbuf_head_add by the loop thread. */
  function RcvAddStep(s: State, size: nat): State {
    RcvFires(s, s.wnd, s.size + size, s.rcv == []);
    s.(rcv := s.rcv + [size], size := s.size + size, receipts := s.receipts + [size],
       lock := Held(Signals(InFired(RCV_HANDLERS, s.wnd, s.size + size, s.rcv == []), s), true))
  }

  /** sio_usignal_hndl: the interest in EV_READ follows the signal, a send attempt
      starts with sio_connector_hndl. */
  function ActStep(s: State): State
    requires s.pc.Got?
  {
    var t := s.(handled := s.handled + [s.pc.signo]);
    if s.pc.signo == EV_SNDBUF_ADD then t.(pc := Entering(ToTaking))
    else if s.pc.signo == EV_RCVBUF_FULL then t.(evRead := false, pc := Taking)
    else if s.pc.signo == EV_RCVBUF_NONFULL then t.(evRead := true, pc := Taking)
    else t.(pc := Taking)
  }

  function Return(back: Back): Pc {
    if back.ToIdle? then Idle else Taking
  }

  predicate Enabled(s: State, step: Step) {
    match step
    case SndAdd(_) => s.lock.Unlocked?
    case RcvRm => s.lock.Unlocked?
    case PostSignal => s.lock.Posting?
    case SigEvent => s.pc.Idle? && s.sig.tokens > 0
    case SockEvent(_, _) => s.pc.Idle?
    case TakeSignal => s.pc.Taking?
    case Act => s.pc.Got? && (s.pc.signo == EV_RCVBUF_FULL || s.pc.signo == EV_RCVBUF_NONFULL ==> s.lock.Unlocked?)
    case EvUnsignal => s.pc.Unsignalling?
    case RcvAdd(_) => s.pc.Reading? && s.lock.Unlocked?
    case ReadDone => s.pc.Reading? && !LoopBusy(s)
    case LockSend => s.pc.Entering? && s.lock.Unlocked?
    case SndRm => s.pc.Flushing? && s.lock.Unlocked? && s.snd != []
    case FlushDone => s.pc.Flushing? && s.lock.Unlocked?
  }

  /** A BUG_ON of the code that this step would trip, or a token it would miss. */
  predicate Trips(s: State, step: Step) {
    match step
    case LockSend => s.sendLock
    case FlushDone => !s.sendLock
    case EvUnsignal => s.sig.queue != [] && s.sig.tokens == 0
    case RcvRm => s.rcv == [] && s.size != 0
    case _ => false
  }

  function Do(s: State, step: Step): State
    requires Enabled(s, step) && !Trips(s, step)
  {
    match step
    case SndAdd(size) => SndAddStep(s, size)
    case RcvRm => RcvRmStep(s)
    case PostSignal => s.(sig := Posted(s.sig, s.lock.signo), lock := Unlocked, posted := s.posted + [s.lock.signo])
    case SigEvent => s.(pc := Taking)
    case SockEvent(read, write) => s.(pc := if read then Reading(write) else if write then Entering(ToIdle) else Idle)
    case TakeSignal =>
      if s.sig.queue == [] then s.(pc := Unsignalling)
      else s.(pc := Got(s.sig.queue[0]), sig := Taken(s.sig, 1))
    case Act => ActStep(s)
    case EvUnsignal => s.(sig := Unsignalled(s.sig), pc := Idle)
    case RcvAdd(size) => RcvAddStep(s, size)
    case ReadDone => s.(pc := if s.pc.write then Entering(ToIdle) else Idle)
    case LockSend => s.(sendLock := true, pc := Flushing(s.pc.back))
    case SndRm => s.(snd := s.snd[1..], sent := s.sent + [s.snd[0]])
    case FlushDone => s.(sendLock := false, evWrite := s.snd != [], pc := Return(s.pc.back))
  }

  predicate Init(s: State) {
    && s.sig == Sig([], 0) && s.lock.Unlocked? && s.pc.Idle? && s.snd == [] && s.rcv == [] && s.size == 0 && s.wnd > 0
    && s.evRead && !s.evWrite && !s.sendLock && s.posted == [] && s.handled == []
    && s.sends == [] && s.sent == [] && s.receipts == [] && s.read == []
  }

  // ------------------------------------------------------------ invariants

  function Sum(q: seq<nat>): nat {
    if q == [] then 0 else q[0] + Sum(q[1..])
  }

  lemma {:induction false} SumConcat(p: seq<nat>, q: seq<nat>)
    ensures Sum(p + q) == Sum(p) + Sum(q)
  {
    if p == [] {
      assert p + q == q;
    } else {
      assert (p + q)[1..] == p[1..] + q;
      SumConcat(p[1..], q);
    }
  }

  /** Signals on their way, oldest first: in hand, queued, about to be posted. */
  function OnTheWay(s: State): seq<Signo> {
    InHand(s) + s.sig.queue + ToPost(s)
  }

  function InHand(s: State): seq<Signo> {
    if s.pc.Got? then [s.pc.signo] else []
  }

  function ToPost(s: State): seq<Signo> {
    if s.lock.Posting? then [s.lock.signo] else []
  }

  /** The interest in EV_READ after acting on q in order. */
  function Interest(evRead: bool, q: seq<Signo>): bool
    decreases |q|
  {
    if q == [] then evRead
    else
      var x := q[|q| - 1];
      if x == EV_RCVBUF_FULL then false
      else if x == EV_RCVBUF_NONFULL then true
      else Interest(evRead, q[..|q| - 1])
  }

  lemma InterestAppend(evRead: bool, q: seq<Signo>, x: Signo)
    ensures Interest(evRead, q + [x]) ==
      if x == EV_RCVBUF_FULL then false else if x == EV_RCVBUF_NONFULL then true else Interest(evRead, q)
  {
    assert (q + [x])[..|q|] == q;
  }

  /** Acting on the oldest signal first. */
  lemma {:induction false} InterestFront(evRead: bool, x: Signo, q: seq<Signo>)
    ensures Interest(evRead, [x] + q) == Interest(Interest(evRead, [x]), q)
    decreases |q|
  {
    if q == [] {
      assert [x] + q == [x];
    } else {
      var y := q[|q| - 1];
      assert [x] + q == ([x] + q[..|q| - 1]) + [y];
      InterestAppend(evRead, [x] + q[..|q| - 1], y);
      InterestFront(evRead, x, q[..|q| - 1]);
    }
  }

  /** A queued send is going to be tried. */
  predicate NotStranded(s: State) {
    s.snd != [] ==> s.evWrite || s.sendLock || EV_SNDBUF_ADD in OnTheWay(s) || s.pc.Entering?
  }

  predicate InHandler(s: State) {
    s.pc.Taking? || s.pc.Got? || (s.pc.Entering? && s.pc.back.ToTaking?) || (s.pc.Flushing? && s.pc.back.ToTaking?)
  }

  /** Enough tokens for the loop to come back to what is queued. */
  predicate Awake(s: State) {
    && (s.sig.queue != [] ==> s.sig.tokens > 0)
    && (InHandler(s) || s.pc.Unsignalling? ==> s.sig.tokens > 0)
    && (s.pc.Unsignalling? && s.sig.queue != [] ==> s.sig.tokens > 1)
  }

  /** No token wakes a loop that has nothing to handle, and EV_WRITE is on only while
      there is something to write. */
  predicate Asleep(s: State) {
    && (!InHandler(s) && !s.pc.Unsignalling? && s.sig.queue == [] ==> s.sig.tokens == 0)
    && (s.evWrite && s.snd == [] ==> s.pc.Flushing?)
  }

  predicate Inv(s: State) {
    && s.wnd > 0 && s.size == Sum(s.rcv)
    && (s.sendLock <==> s.pc.Flushing?)
    && (LoopBusy(s) ==> s.pc.Reading?)
    && Awake(s) && Asleep(s) && NotStranded(s)
    && s.posted == s.handled + InHand(s) + s.sig.queue
    && s.sends == s.sent + s.snd && s.receipts == s.read + s.rcv
    && Interest(s.evRead, OnTheWay(s)) == (s.size < s.wnd)
  }

  lemma InitInv(s: State)
    requires Init(s)
    ensures Inv(s)
  {
  }

  /** No BUG_ON fires and no token is missing when the loop wants to remove one. */
  lemma NeverTrips(s: State, step: Step)
    requires Inv(s) && Enabled(s, step)
    ensures !Trips(s, step)
  {
  }

  /** Queue operations: at most one signal joins those on the way, at the end. */
  lemma {:induction false} SndAddInv(s: State, size: nat)
    requires Inv(s) && Enabled(s, SndAdd(size))
    ensures Inv(SndAddStep(s, size))
  {
    hide Signals, InFired, OutFired, Interest, Sum, OnTheWay, InHand;
    var t := SndAddStep(s, size);
    SndFires(s, s.snd == []);
    Joined(s, t, EV_SNDBUF_ADD);
    SameHand(s, t);
    assert t.sends == s.sends + [size] && s.sent + (s.snd + [size]) == (s.sent + s.snd) + [size];
  }

  lemma {:induction false} RcvRmInv(s: State)
    requires Inv(s) && Enabled(s, RcvRm)
    ensures Inv(RcvRmStep(s))
  {
    hide Signals, InFired, OutFired, Interest, OnTheWay, InHand;
    if s.rcv != [] {
      var t := RcvRmStep(s);
      RcvFires(s, s.wnd, t.size, t.rcv == []);
      Joined(s, t, EV_RCVBUF_NONFULL);
      SameHand(s, t);
      assert s.read + s.rcv == (s.read + [s.rcv[0]]) + s.rcv[1..];
    }
  }

  lemma {:induction false} RcvAddInv(s: State, size: nat)
    requires Inv(s) && Enabled(s, RcvAdd(size))
    ensures Inv(RcvAddStep(s, size))
  {
    hide Signals, InFired, OutFired, Interest, OnTheWay, InHand;
    var t := RcvAddStep(s, size);
    RcvFires(s, s.wnd, t.size, s.rcv == []);
    SumConcat(s.rcv, [size]);
    assert Sum([size]) == size;
    Joined(s, t, EV_RCVBUF_FULL);
    SameHand(s, t);
    assert s.read + (s.rcv + [size]) == (s.read + s.rcv) + [size];
  }

  lemma SameHand(s: State, t: State)
    requires t.pc == s.pc
    ensures InHand(t) == InHand(s)
  {
  }

  lemma Joined(s: State, t: State, x: Signo)
    requires s.lock.Unlocked? && t.sig == s.sig && t.pc == s.pc
    ensures t.lock.Unlocked? ==> OnTheWay(t) == OnTheWay(s)
    ensures t.lock.Posting? && t.lock.signo == x ==> OnTheWay(t) == OnTheWay(s) + [x]
    ensures Interest(s.evRead, OnTheWay(s) + [x]) ==
      if x == EV_RCVBUF_FULL then false else if x == EV_RCVBUF_NONFULL then true else Interest(s.evRead, OnTheWay(s))
    ensures forall y :: y in OnTheWay(s) ==> y in OnTheWay(s) + [x]
    ensures x in OnTheWay(s) + [x]
  {
    InterestAppend(s.evRead, OnTheWay(s), x);
    assert (OnTheWay(s) + [x])[|OnTheWay(s)|] == x;
  }

  lemma Regroup(h: seq<Signo>, g: seq<Signo>, q: seq<Signo>, p: seq<Signo>)
    ensures g + (q + p) + [] == g + q + p && h + g + (q + p) == (h + g + q) + p
  {
  }

  lemma FirstOut(h: seq<Signo>, q: seq<Signo>, p: seq<Signo>)
    requires q != []
    ensures [q[0]] + q[1..] + p == [] + q + p && h + [q[0]] + q[1..] == h + [] + q
  {
    assert q == [q[0]] + q[1..];
  }

  /** Posting and taking a signal only move it along. */
  lemma {:induction false} MoveStep(s: State, step: Step)
    requires Inv(s) && Enabled(s, step) && (step.PostSignal? || step.TakeSignal?)
    ensures Inv(Do(s, step))
  {
    hide Interest, Sum;
    var t := Do(s, step);
    assert OnTheWay(t) == OnTheWay(s) && t.posted == t.handled + InHand(t) + t.sig.queue by {
      if step.PostSignal? {
        Regroup(s.handled, InHand(s), s.sig.queue, [s.lock.signo]);
      } else if s.sig.queue != [] {
        FirstOut(s.handled, s.sig.queue, ToPost(s));
      }
      assert s.posted == s.handled + InHand(s) + s.sig.queue;
    }
  }

  lemma ActedOut(h: seq<Signo>, x: Signo, q: seq<Signo>, p: seq<Signo>)
    ensures [x] + q + p == [x] + (q + p) && [] + q + p == q + p && h + [x] + q == (h + [x]) + [] + q
  {
  }

  /** Acting on a signal takes it off the front of those on the way. */
  lemma {:induction false} ActFacts(s: State)
    requires Enabled(s, Act) && s.posted == s.handled + InHand(s) + s.sig.queue
    ensures var t := ActStep(s);
      && Interest(t.evRead, OnTheWay(t)) == Interest(s.evRead, OnTheWay(s))
      && t.posted == t.handled + InHand(t) + t.sig.queue
      && (EV_SNDBUF_ADD in OnTheWay(s) ==> s.pc.signo == EV_SNDBUF_ADD || EV_SNDBUF_ADD in OnTheWay(t))
  {
    hide Interest;
    var t := ActStep(s);
    var x, rest := s.pc.signo, s.sig.queue + ToPost(s);
    ActedOut(s.handled, x, s.sig.queue, ToPost(s));
    assert OnTheWay(s) == [x] + rest && OnTheWay(t) == rest;
    InterestFront(s.evRead, x, rest);
    InterestAppend(s.evRead, [], x);
    NothingLeft(s.evRead);
    assert [] + [x] == [x];
  }

  lemma {:induction false} ActInv(s: State)
    requires Inv(s) && Enabled(s, Act)
    ensures Inv(ActStep(s))
  {
    hide Sum, Interest, OnTheWay, InHand;
    ActFacts(s);
  }

  lemma NothingLeft(evRead: bool)
    ensures Interest(evRead, []) == evRead
  {
  }

  /** The loop thread's other steps leave the signals on their way alone. */
  lemma LoopStep(s: State, step: Step)
    requires Inv(s) && Enabled(s, step)
    requires step.SigEvent? || step.SockEvent? || step.EvUnsignal? || step.ReadDone? || step.LockSend?
      || step.SndRm? || step.FlushDone?
    ensures Inv(Do(s, step))
  {
    var t := Do(s, step);
    assert OnTheWay(t) == OnTheWay(s);
    assert t.posted == t.handled + InHand(t) + t.sig.queue;
  }

  lemma StepInv(s: State, step: Step)
    requires Inv(s) && Enabled(s, step)
    ensures !Trips(s, step) && Inv(Do(s, step))
  {
    NeverTrips(s, step);
    match step {
      case SndAdd(size) => SndAddInv(s, size);
      case RcvRm => RcvRmInv(s);
      case RcvAdd(size) => RcvAddInv(s, size);
      case PostSignal => MoveStep(s, step);
      case TakeSignal => MoveStep(s, step);
      case Act => ActInv(s);
      case _ => LoopStep(s, step);
    }
  }

  // ------------------------------------------------------------ whole runs

  /** The state after a run, if every step was enabled and tripped no BUG_ON. */
  datatype Outcome = Reached(s: State) | Stuck | Bug

  function Run(s: State, steps: seq<Step>): Outcome
    decreases |steps|
  {
    if steps == [] then Reached(s)
    else
      match Run(s, steps[..|steps| - 1])
      case Reached(t) =>
        var step := steps[|steps| - 1];
        if !Enabled(t, step) then Stuck else if Trips(t, step) then Bug else Reached(Do(t, step))
      case other => other
  }

  /** Every interleaving keeps the invariant and no BUG_ON ever fires. */
  lemma {:induction false} RunInv(s: State, steps: seq<Step>)
    requires Init(s)
    ensures !Run(s, steps).Bug? && (Run(s, steps).Reached? ==> Inv(Run(s, steps).s))
    decreases |steps|
  {
    if steps == [] {
      InitInv(s);
    } else {
      RunInv(s, steps[..|steps| - 1]);
      var r := Run(s, steps[..|steps| - 1]);
      if r.Reached? && Enabled(r.s, steps[|steps| - 1]) {
        StepInv(r.s, steps[|steps| - 1]);
      }
    }
  }

  /** No stranded send, no lost wake-up, no signal and no message lost, repeated or
      reordered. */
  lemma Safety(s: State, steps: seq<Step>)
    requires Init(s) && Run(s, steps).Reached?
    ensures var t := Run(s, steps).s;
      && (t.snd != [] ==> t.evWrite || t.sendLock || EV_SNDBUF_ADD in OnTheWay(t) || t.pc.Entering?)
      && (t.evWrite && !t.sendLock ==> t.snd != [])
      && (t.pc.Idle? ==> (t.sig.queue != [] <==> t.sig.tokens > 0))
      && t.posted == t.handled + InHand(t) + t.sig.queue
      && t.sends == t.sent + t.snd && t.receipts == t.read + t.rcv
      && t.size == Sum(t.rcv) && Interest(t.evRead, OnTheWay(t)) == (t.size < t.wnd)
  {
    RunInv(s, steps);
  }

  /** A loop that waits with an empty pipe and nobody posting: what the interests say. */
  lemma Quiet(s: State, steps: seq<Step>)
    requires Init(s) && Run(s, steps).Reached?
    requires var t := Run(s, steps).s; t.pc.Idle? && t.sig.tokens == 0 && t.lock.Unlocked?
    ensures var t := Run(s, steps).s;
      && t.handled == t.posted && (t.evWrite <==> t.snd != []) && (t.evRead <==> Sum(t.rcv) < t.wnd)
  {
    RunInv(s, steps);
    var t := Run(s, steps).s;
    assert OnTheWay(t) == [] && t.handled + [] + [] == t.handled;
  }

  // ---------------------------------------------------------- coming to rest

  /** What the loop thread does by itself, and the posting of a signal that is due. */
  predicate Settling(step: Step) {
    !step.SndAdd? && !step.RcvRm? && !step.SockEvent? && !step.RcvAdd?
  }

  predicate Resting(s: State) {
    s.pc.Idle? && s.sig.tokens == 0 && s.lock.Unlocked?
  }

  function Stage(pc: Pc): nat {
    match pc
    case Unsignalling => 0
    case Taking => 1
    case Flushing(back) => if back.ToTaking? then 2 else 6
    case Entering(back) => if back.ToTaking? then 3 else 7
    case Got(_) => 4
    case Idle => 5
    case Reading(_) => 8
  }

  /** A bound on the settling steps to come. */
  function Energy(s: State): nat {
    7 * (|s.sig.queue| + if s.lock.Posting? then 2 else 0) + |s.snd| + 6 * s.sig.tokens + Stage(s.pc)
  }

  lemma EnergyFalls(s: State, step: Step)
    requires Inv(s) && Enabled(s, step) && Settling(step)
    ensures !Trips(s, step) && Energy(Do(s, step)) < Energy(s)
  {
    hide Interest, OnTheWay, Sum;
    NeverTrips(s, step);
  }

  lemma {:induction false} RunFrom(s: State, steps: seq<Step>, t: State, more: seq<Step>)
    requires Run(s, steps) == Reached(t)
    ensures Run(s, steps + more) == Run(t, more)
    decreases |more|
  {
    hide Run;
    if more == [] {
      assert steps + more == steps;
      RunNone(t);
    } else {
      var before, last := more[..|more| - 1], more[|more| - 1];
      RunFrom(s, steps, t, before);
      SameNext(s, steps + before, t, before, last);
      assert steps + more == steps + before + [last] && more == before + [last];
    }
  }

  lemma {:induction false} SameNext(s: State, a: seq<Step>, t: State, b: seq<Step>, step: Step)
    requires Run(s, a) == Run(t, b)
    ensures Run(s, a + [step]) == Run(t, b + [step])
  {
    assert (a + [step])[..|a|] == a && (b + [step])[..|b|] == b;
  }

  /** Left to itself the loop comes to rest: every run of settling steps is bounded ... */
  lemma {:induction false} SettlesSoon(s: State, steps: seq<Step>)
    requires Inv(s) && Run(s, steps).Reached? && forall step :: step in steps ==> Settling(step)
    ensures Inv(Run(s, steps).s) && |steps| + Energy(Run(s, steps).s) <= Energy(s)
    decreases |steps|
  {
    hide Inv, Enabled, Trips, Do, Energy, Settling;
    if steps != [] {
      var before, last := steps[..|steps| - 1], steps[|steps| - 1];
      SettlesSoon(s, before);
      assert Settling(last);
      EnergyFalls(Run(s, before).s, last);
      StepInv(Run(s, before).s, last);
    }
  }

  /** ... and one that is not at rest has a step to take. */
  lemma NotStuck(s: State)
    requires Inv(s) && !Resting(s)
    ensures exists step :: Settling(step) && Enabled(s, step)
  {
    var step := if s.lock.Posting? then PostSignal else
      match s.pc
      case Idle => SigEvent
      case Taking => TakeSignal
      case Got(_) => Act
      case Unsignalling => EvUnsignal
      case Reading(_) => ReadDone
      case Entering(_) => LockSend
      case Flushing(_) => FlushDone;
    assert Settling(step) && Enabled(s, step);
  }

  // -------------------------------------------------------- socket events

  function Removals(n: nat): seq<Step> {
    seq(n, i => SndRm)
  }

  lemma {:induction false} Flushes(s: State, n: nat)
    requires s.pc.Flushing? && s.lock.Unlocked? && n <= |s.snd|
    ensures Run(s, Removals(n)) == Reached(s.(snd := s.snd[n..], sent := s.sent + s.snd[..n]))
    decreases n
  {
    if n == 0 {
      assert Removals(0) == [] && s.snd[0..] == s.snd && s.sent + s.snd[..0] == s.sent;
    } else {
      Flushes(s, n - 1);
      assert Removals(n)[..n - 1] == Removals(n - 1);
      assert s.sent + s.snd[..n - 1] + [s.snd[n - 1]] == s.sent + s.snd[..n];
    }
  }

  lemma OneMore(s: State, steps: seq<Step>, t: State, step: Step)
    requires Run(s, steps) == Reached(t) && Enabled(t, step) && !Trips(t, step)
    ensures Run(s, steps + [step]) == Reached(Do(t, step))
  {
    assert (steps + [step])[..|steps|] == steps;
  }

  /** An event for writing, whether one for reading comes with it or not: if the kernel
      takes everything, the queue is empty and EV_WRITE off when the loop is back. */
  lemma WriteDrains(s: State, read: bool)
    requires Inv(s) && s.pc.Idle? && s.lock.Unlocked?
    ensures Run(s, [SockEvent(read, true)] + (if read then [ReadDone] else []) + [LockSend] + Removals(|s.snd|)
        + [FlushDone])
      == Reached(s.(snd := [], evWrite := false, sent := s.sent + s.snd))
  {
    hide Run;
    var a := s.(pc := if read then Reading(true) else Entering(ToIdle));
    RunNone(s);
    OneMore(s, [], s, SockEvent(read, true));
    assert [] + [SockEvent(read, true)] == [SockEvent(read, true)];
    var so := [SockEvent(read, true)] + if read then [ReadDone] else [];
    var b := s.(pc := Entering(ToIdle));
    if read {
      OneMore(s, [SockEvent(read, true)], a, ReadDone);
    } else {
      assert so == [SockEvent(read, true)];
    }
    OneMore(s, so, b, LockSend);
    var c := b.(sendLock := true, pc := Flushing(ToIdle));
    Flushes(c, |s.snd|);
    RunFrom(s, so + [LockSend], c, Removals(|s.snd|));
    var d := c.(snd := [], sent := s.sent + s.snd);
    assert s.snd[|s.snd|..] == [] && s.snd[..|s.snd|] == s.snd;
    OneMore(s, so + [LockSend] + Removals(|s.snd|), d, FlushDone);
  }

  lemma RunNone(s: State)
    ensures Run(s, []) == Reached(s)
  {
  }

  /** An event for reading brings a message into the receive queue, and the loop is told
      to stop reading if that fills it. */
  lemma ReadReceives(s: State, write: bool, size: nat)
    requires Inv(s) && s.pc.Idle? && s.lock.Unlocked?
    ensures var r := Run(s, [SockEvent(true, write), RcvAdd(size)]);
      && r.Reached? && r.s.rcv == s.rcv + [size] && r.s.size == s.size + size && r.s.receipts == s.receipts + [size]
      && r.s.lock == if s.size + size < s.wnd then Unlocked else Posting(EV_RCVBUF_FULL, true)
  {
    hide Run;
    RunNone(s);
    OneMore(s, [], s, SockEvent(true, write));
    assert [] + [SockEvent(true, write)] == [SockEvent(true, write)];
    var a := s.(pc := Reading(write));
    OneMore(s, [SockEvent(true, write)], a, RcvAdd(size));
    assert [SockEvent(true, write)] + [RcvAdd(size)] == [SockEvent(true, write), RcvAdd(size)];
    RcvFires(a, s.wnd, s.size + size, s.rcv == []);
  }

  /** An event for reading that brings nothing leaves everything as it was. */
  lemma ReadEnds(s: State)
    requires Inv(s) && s.pc.Idle? && s.lock.Unlocked?
    ensures Run(s, [SockEvent(true, false), ReadDone]) == Reached(s)
    ensures Run(s, [SockEvent(false, false)]) == Reached(s)
  {
    hide Run;
    RunNone(s);
    OneMore(s, [], s, SockEvent(false, false));
    OneMore(s, [], s, SockEvent(true, false));
    assert forall step: Step :: [] + [step] == [step];
    OneMore(s, [SockEvent(true, false)], s.(pc := Reading(false)), ReadDone);
    assert [SockEvent(true, false)] + [ReadDone] == [SockEvent(true, false), ReadDone];
  }

  // ------------------------------------------------------ who changes what

  /** The loop thread alone moves its program counter and changes the interests and the
      flag that a send is running; each at its one place. */
  lemma Frames(s: State, step: Step)
    requires Enabled(s, step) && !Trips(s, step)
    ensures var t := Do(s, step);
      && (t.evRead != s.evRead ==> step.Act?) && (t.evWrite != s.evWrite ==> step.FlushDone?)
      && (t.sendLock != s.sendLock ==> step.LockSend? || step.FlushDone?) && t.wnd == s.wnd
      && (t.pc != s.pc ==> !step.SndAdd? && !step.RcvRm? && !step.PostSignal? && !step.RcvAdd? && !step.SndRm?)
      && (t.snd != s.snd ==> step.SndAdd? || step.SndRm?) && (t.rcv != s.rcv ==> step.RcvAdd? || step.RcvRm?)
  {
    hide Signals, InFired, OutFired;
  }

  /** Between a queue operation and its signal nobody else touches the queues, the
      interests or that flag; a loop about to start a send does not wait for the lock. */
  lemma Excluded(s: State, step: Step)
    requires s.lock.Posting? && Enabled(s, step) && !Trips(s, step)
    ensures var t := Do(s, step);
      && t.snd == s.snd && t.rcv == s.rcv && t.evRead == s.evRead && t.evWrite == s.evWrite && t.sendLock == s.sendLock
      && (t.lock == s.lock || step.PostSignal?)
    ensures s.pc == Got(EV_SNDBUF_ADD) ==> Enabled(s, Act)
  {
  }
}
