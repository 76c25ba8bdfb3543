/** The readiness cache of xpoll (src/poll/eventpoll.c, src/poll/poll_struct.c) and the
    events sockets report to it (src/socket/eventnotify.c). */
module Xpoll {
  import opened Seqs

  /** A set of XPOLLIN, XPOLLOUT and XPOLLERR. */
  datatype Mask = Mask(pollin: bool, pollout: bool, pollerr: bool)

  const NONE := Mask(false, false, false)
  const ALL := Mask(true, true, true)

  const XPOLL_HEADFD := -0x3654

  function And(a: Mask, b: Mask): Mask {
    Mask(a.pollin && b.pollin, a.pollout && b.pollout, a.pollerr && b.pollerr)
  }

  /** struct poll_entry with its pollbase. */
  class Entry {
    const fd: int
    const owner: Poll
    var events: Mask
    var happened: Mask

    constructor (fd: int, owner: Poll)
      ensures this.fd == fd && this.owner == owner && events == NONE && happened == NONE
    {
      this.fd, this.owner, events, happened := fd, owner, NONE, NONE;
    }
  }

  /** What the poller keeps per entry in the array it fills. */
  datatype Fd = Fd(fd: int, events: Mask, happened: Mask)

  function Snapshot(e: Entry): Fd
    reads e
  {
    Fd(e.fd, e.events, e.happened)
  }

  function Snapshots(s: seq<Entry>): (r: seq<Fd>)
    reads s
    ensures |r| == |s|
  {
    seq(|s|, i requires 0 <= i < |s| reads s => Snapshot(s[i]))
  }

  /** How many entries are ready. */
  function Ready(s: seq<Entry>): (n: nat)
    reads s
    ensures n <= |s|
  {
    if s == [] then 0 else (if s[0].happened == NONE then 0 else 1) + Ready(s[1..])
  }

  /** Ready entries come first. */
  ghost predicate ReadyFirst(s: seq<Entry>)
    reads s
  {
    forall i, j :: 0 <= i < j < |s| && s[j].happened != NONE ==> s[i].happened != NONE
  }

  /** In a list with the ready ones first, those are the first Ready(s). */
  lemma {:induction false} ReadyIsPrefix(s: seq<Entry>, n: nat)
    requires ReadyFirst(s) && n <= |s|
    ensures (forall i :: 0 <= i < n ==> s[i].happened != NONE) <==> n <= Ready(s)
  {
    if s != [] {
      assert ReadyFirst(s[1..]);
      if s[0].happened == NONE {
        NoneReady(s);
      } else if n > 0 {
        ReadyIsPrefix(s[1..], n - 1);
        assert forall i :: 1 <= i < n ==> s[i] == s[1..][i - 1];
      }
    }
  }

  lemma {:induction false} NoneReady(s: seq<Entry>)
    requires ReadyFirst(s) && s != [] && s[0].happened == NONE
    ensures Ready(s) == 0
  {
    if |s| > 1 {
      assert s[1].happened == NONE && s[1..][0] == s[1];
      NoneReady(s[1..]);
    }
  }

  /** A list of entries of p without an entry or a socket twice. */
  ghost predicate OwnList(s: seq<Entry>, p: Poll) {
    NoDup(s) && (forall e :: e in s ==> e.owner == p) && forall x, y :: x in s && y in s && x.fd == y.fd ==> x == y
  }

  lemma OwnListGrows(s: seq<Entry>, p: Poll, e: Entry)
    requires OwnList(s, p) && e.owner == p && forall x :: x in s ==> x.fd != e.fd
    ensures OwnList(s + [e], p)
  {
    Appended(s, e);
  }

  /** struct xpoll_t. */
  class Poll {
    var lru: seq<Entry>

    /** No fd twice. */
    ghost predicate Entries()
      reads this
    {
      OwnList(lru, this)
    }

    ghost predicate Valid()
      reads this, lru
    {
      Entries() && ReadyFirst(lru)
    }

    /** Ready entries first, but for e where it is marked ready. */
    ghost predicate Fits(e: Entry)
      reads this, lru, e
    {
      && (forall i, j ::
          0 <= i < j < |lru| && lru[i] != e && lru[j] != e && lru[j].happened != NONE ==> lru[i].happened != NONE)
      && (e.happened == NONE ==> ReadyFirst(lru))
    }

    lemma FitsMinus(i: nat)
      requires NoDup(lru) && i < |lru| && Fits(lru[i])
      ensures ReadyFirst(lru[..i] + lru[i + 1..])
    {
    }

    constructor ()
      ensures Valid() && lru == []
    {
      lru := [];
    }

    /** find_poll_entry: the entry of a socket, or the first entry for XPOLL_HEADFD. */
    method Find(fd: int) returns (e: Entry?)
      requires Entries()
      ensures e == null <==> forall x :: x in lru ==> x.fd != fd && fd != XPOLL_HEADFD
      ensures e != null ==> e in lru && if fd == XPOLL_HEADFD then e == lru[0] else e.fd == fd
    {
      var i := 0;
      while i < |lru|
        invariant 0 <= i <= |lru| && forall k :: 0 <= k < i ==> lru[k].fd != fd && fd != XPOLL_HEADFD
      {
        if lru[i].fd == fd || fd == XPOLL_HEADFD {
          return lru[i];
        }
        i := i + 1;
      }
      e := null;
    }

    /** xpollbase_emit: caches the events; an entry that has left the poller reports
        that the socket should drop it too. */
    method Emit(e: Entry, events: Mask) returns (drop: bool)
      requires Entries() && e.owner == this && e.events != NONE && (e in lru ==> Fits(e))
      modifies `lru, e`happened
      ensures Entries() && drop == (e !in old(lru)) && (drop ==> lru == old(lru) && e.happened == old(e.happened))
      ensures !drop ==> e.happened == events && ReadyFirst(lru) && Minus(lru, e) == Minus(old(lru), e)
      ensures !drop && events != NONE ==> lru == [e] + Minus(old(lru), e)
      ensures !drop && events == NONE ==>
        lru == if old(e.happened) != NONE then Minus(old(lru), e) + [e] else old(lru)
      ensures (forall x :: x in lru <==> x in old(lru)) && (old(Valid()) ==> Valid())
    {
      hide NoDup, ReadyFirst, Minus;
      MinusNone(lru, e);
      if e !in lru {
        return true;
      }
      var i :| 0 <= i < |lru| && lru[i] == e;
      ghost var others := Minus(lru, e);
      MinusIs(lru, i);
      MinusMembers(lru, e);
      FitsMinus(i);
      if events != NONE {
        e.happened := events;
        lru := [e] + (lru[..i] + lru[i + 1..]);
        Rejoined(others, e);
        RejoinedMinus(others, e);
      } else if e.happened != NONE {
        e.happened := NONE;
        lru := (lru[..i] + lru[i + 1..]) + [e];
        Rejoined(others, e);
        RejoinedMinus(others, e);
      }
      drop := false;
    }

    /** xpoll_wait once it holds the lock for good: the ready entries, at most size. */
    method Wait(size: nat) returns (fds: seq<Fd>)
      requires Valid()
      ensures fds == Snapshots(lru)[..if size < Ready(lru) then size else Ready(lru)]
      ensures forall i :: 0 <= i < |fds| ==> fds[i].happened != NONE
    {
      fds := [];
      var n := 0;
      while n < |lru| && lru[n].happened != NONE && n < size
        invariant 0 <= n <= |lru| && n <= size && fds == Snapshots(lru)[..n]
        invariant forall i :: 0 <= i < n ==> lru[i].happened != NONE
      {
        fds := fds + [Snapshot(lru[n])];
        n := n + 1;
      }
      ReadyIsPrefix(lru, n);
      if n < |lru| { ReadyIsPrefix(lru, n + 1); }
    }

    /** rm_poll_entry. */
    method Rm(fd: int) returns (rc: int)
      requires Valid()
      modifies `lru
      ensures Valid() && rc == if exists x :: x in old(lru) && (x.fd == fd || fd == XPOLL_HEADFD) then 0 else -1
      ensures rc == -1 ==> lru == old(lru)
      ensures rc == 0 && fd == XPOLL_HEADFD ==> lru == old(lru)[1..]
      ensures rc == 0 && fd != XPOLL_HEADFD ==> exists e :: e in old(lru) && lru == Minus(old(lru), e) && e.fd == fd
      ensures forall x :: x in lru ==> x in old(lru)
      ensures fd != XPOLL_HEADFD ==> forall x :: x in lru <==> x in old(lru) && x.fd != fd
      ensures rc == 0 ==> |lru| < |old(lru)|
    {
      hide NoDup, ReadyFirst, Minus;
      var found := Find(fd);
      if found == null {
        return -1;
      }
      var e: Entry := found;
      MinusNone(lru, e);
      MinusMembers(lru, e);
      var i :| 0 <= i < |lru| && lru[i] == e;
      MinusIs(lru, i);
      CutReady(lru, i);
      if fd == XPOLL_HEADFD { MinusFirst(lru); }
      lru := lru[..i] + lru[i + 1..];
      rc := 0;
    }
  }

  lemma {:induction false} CutReady(s: seq<Entry>, i: nat)
    requires ReadyFirst(s) && i < |s|
    ensures ReadyFirst(s[..i] + s[i + 1..])
  {
  }

  /** Putting a ready entry in front, or an idle one at the end. */
  lemma {:induction false} Rejoined(others: seq<Entry>, e: Entry)
    requires ReadyFirst(others) && e !in others
    ensures e.happened != NONE ==> ReadyFirst([e] + others)
    ensures e.happened == NONE ==> ReadyFirst(others + [e])
    ensures NoDup(others) ==> NoDup([e] + others) && NoDup(others + [e])
  {
  }

  lemma {:induction false} RejoinedMinus(others: seq<Entry>, e: Entry)
    requires e !in others
    ensures Minus([e] + others, e) == others && Minus(others + [e], e) == others
  {
    MinusAbsent(others, e);
    MinusLast(others, e);
    assert ([e] + others)[1..] == others;
  }

  // --------------------------------------------------------------- sockets

  /** What decides a socket's events: the payload lengths of the messages in its two
      queues, how many connections wait to be accepted, its send window, its end. */
  datatype State = State(rcv: seq<nat>, acceptq: nat, snd: seq<nat>, sndWnd: int, epipe: bool)

  function Sum(s: seq<nat>): nat {
    if s == [] then 0 else s[0] + Sum(s[1..])
  }

  /** check_pollevents. */
  function Check(listener: bool, c: State, events: Mask): Mask {
    Mask(events.pollin && (if listener then c.acceptq > 0 else c.rcv != []),
         events.pollout && (c.snd == [] || Sum(c.snd) < c.sndWnd),
         events.pollerr && c.epipe)
  }

  datatype Event =
    | RcvAdd(len: nat)    // rcv_msgbuf_head_add
    | RcvRm               // rcv_msgbuf_head_rm, which may find nothing
    | SndAdd(len: nat)    // snd_msgbuf_head_add, which queues whether there is room or not
    | SndRm               // snd_msgbuf_head_rm
    | AcceptAdd           // acceptq_add
    | AcceptRm            // acceptq_rm
    | Broken              // the connection fails in the event loop
    | SetWnd(wnd: int)    // the option for the send window
    | AcceptFails         // accepting fails in the event loop

  /** The last two change the socket without a call of emit_pollevents. */
  predicate Reports(ev: Event) {
    !ev.SetWnd? && !ev.AcceptFails?
  }

  function Rest(s: seq<nat>): seq<nat> {
    if s == [] then [] else s[1..]
  }

  function After(c: State, ev: Event): State {
    match ev
    case RcvAdd(len) => c.(rcv := c.rcv + [len])
    case RcvRm => c.(rcv := Rest(c.rcv))
    case SndAdd(len) => c.(snd := c.snd + [len])
    case SndRm => c.(snd := Rest(c.snd))
    case AcceptAdd => c.(acceptq := c.acceptq + 1)
    case AcceptRm => if c.acceptq == 0 then c else c.(acceptq := c.acceptq - 1)
    case SetWnd(wnd) => c.(sndWnd := wnd)
    case _ => c.(epipe := true)
  }

  /** A socket as it is opened, and after a history of events. */
  function Opened(sndWnd: int): State {
    State([], 0, [], sndWnd, false)
  }

  function Trace(c: State, evs: seq<Event>): State
    decreases |evs|
  {
    if evs == [] then c else After(Trace(c, evs[..|evs| - 1]), evs[|evs| - 1])
  }

  // -------------------------------------------------- events, from the history

  datatype Side = Receiving | Sending | Accepting

  /** What has been put into a queue, in order: payload lengths, 0 for a connection. */
  function Added(evs: seq<Event>, side: Side): seq<nat>
    decreases |evs|
  {
    if evs == [] then []
    else
      Added(evs[..|evs| - 1], side) +
      match (evs[|evs| - 1], side)
      case (RcvAdd(len), Receiving) => [len]
      case (SndAdd(len), Sending) => [len]
      case (AcceptAdd, Accepting) => [0]
      case _ => []
  }

  predicate Takes(ev: Event, side: Side) {
    match side
    case Receiving => ev.RcvRm?
    case Sending => ev.SndRm?
    case Accepting => ev.AcceptRm?
  }

  /** How many have been taken out: the oldest each time, none where there is none. */
  function Removed(evs: seq<Event>, side: Side): (n: nat)
    ensures n <= |Added(evs, side)|
    decreases |evs|
  {
    if evs == [] then 0
    else
      var before := evs[..|evs| - 1];
      var n := Removed(before, side);
      if Takes(evs[|evs| - 1], side) && n < |Added(before, side)| then n + 1 else n
  }

  function Window(evs: seq<Event>, sndWnd: int): int
    decreases |evs|
  {
    if evs == [] then sndWnd
    else if evs[|evs| - 1].SetWnd? then evs[|evs| - 1].wnd else Window(evs[..|evs| - 1], sndWnd)
  }

  /** What a poller is to be told of a socket with this history: XPOLLIN while something
      that was received, or is to be accepted, has not been taken; XPOLLOUT while all that
      was to be sent is gone or the payloads not yet sent add up to less than the window;
      XPOLLERR once the connection or the listener has failed. */
  predicate Tells(listener: bool, sndWnd: int, evs: seq<Event>, interest: Mask, shown: Mask) {
    var side := if listener then Accepting else Receiving;
    var unsent := Added(evs, Sending)[Removed(evs, Sending)..];
    && (shown.pollin <==> interest.pollin && Removed(evs, side) < |Added(evs, side)|)
    && (shown.pollout <==> interest.pollout && (unsent == [] || Sum(unsent) < Window(evs, sndWnd)))
    && (shown.pollerr <==>
          interest.pollerr && exists i :: 0 <= i < |evs| && (evs[i] == Broken || evs[i] == AcceptFails))
  }

  lemma {:induction false} TraceReceived(sndWnd: int, evs: seq<Event>)
    ensures Trace(Opened(sndWnd), evs).rcv == Added(evs, Receiving)[Removed(evs, Receiving)..]
    decreases |evs|
  {
    if evs != [] {
      TraceReceived(sndWnd, evs[..|evs| - 1]);
    }
  }

  lemma {:induction false} TraceSent(sndWnd: int, evs: seq<Event>)
    ensures Trace(Opened(sndWnd), evs).snd == Added(evs, Sending)[Removed(evs, Sending)..]
    decreases |evs|
  {
    if evs != [] {
      TraceSent(sndWnd, evs[..|evs| - 1]);
    }
  }

  lemma {:induction false} TraceAccepted(sndWnd: int, evs: seq<Event>)
    ensures Trace(Opened(sndWnd), evs).acceptq == |Added(evs, Accepting)| - Removed(evs, Accepting)
    decreases |evs|
  {
    if evs != [] {
      TraceAccepted(sndWnd, evs[..|evs| - 1]);
    }
  }

  lemma {:induction false} TraceWindow(sndWnd: int, evs: seq<Event>)
    ensures Trace(Opened(sndWnd), evs).sndWnd == Window(evs, sndWnd)
    decreases |evs|
  {
    if evs != [] {
      TraceWindow(sndWnd, evs[..|evs| - 1]);
    }
  }

  lemma {:induction false} TraceFails(sndWnd: int, evs: seq<Event>)
    ensures Trace(Opened(sndWnd), evs).epipe <==>
      exists i :: 0 <= i < |evs| && (evs[i] == Broken || evs[i] == AcceptFails)
    decreases |evs|
  {
    if evs != [] {
      var before, last := evs[..|evs| - 1], |evs| - 1;
      TraceFails(sndWnd, before);
      assert forall i :: 0 <= i < last ==> before[i] == evs[i];
      assert evs[last].Broken? ==> evs[last] == Broken;
      assert evs[last].AcceptFails? ==> evs[last] == AcceptFails;
    }
  }

  /** check_pollevents tells just that, whatever has happened to the socket. */
  lemma {:induction false} CheckTells(listener: bool, sndWnd: int, evs: seq<Event>, events: Mask)
    ensures Tells(listener, sndWnd, evs, events, Check(listener, Trace(Opened(sndWnd), evs), events))
  {
    hide Trace, Added, Removed, Window, Sum;
    TraceReceived(sndWnd, evs);
    TraceSent(sndWnd, evs);
    TraceAccepted(sndWnd, evs);
    TraceWindow(sndWnd, evs);
    TraceFails(sndWnd, evs);
  }

  /** What one event does to what is shown, given the state it finds. */
  predicate Turned(listener: bool, c: State, ev: Event, interest: Mask, shown: Mask) {
    && (ev.RcvAdd? && !listener ==> (shown.pollin <==> interest.pollin))
    && (ev.AcceptAdd? && listener ==> (shown.pollin <==> interest.pollin))
    && (ev.RcvRm? && !listener ==> (shown.pollin <==> interest.pollin && |c.rcv| > 1))
    && (ev.AcceptRm? && listener ==> (shown.pollin <==> interest.pollin && c.acceptq > 1))
    && (ev.SndAdd? ==> (shown.pollout <==> interest.pollout && Sum(c.snd) + ev.len < c.sndWnd))
    && (ev.SndRm? ==> (shown.pollout <==>
          interest.pollout && (|c.snd| <= 1 || Sum(c.snd) - c.snd[0] < c.sndWnd)))
    && (ev.Broken? ==> (shown.pollerr <==> interest.pollerr))
  }

  lemma {:induction false} EventTurns(listener: bool, c: State, ev: Event, events: Mask)
    ensures Turned(listener, c, ev, events, Check(listener, After(c, ev), events))
  {
    if ev.SndAdd? { SumSnoc(c.snd, ev.len); }
  }

  lemma {:induction false} SumSnoc(s: seq<nat>, n: nat)
    ensures Sum(s + [n]) == Sum(s) + n
  {
    if s == [] {
      assert [] + [n] == [n] && [n][1..] == [];
    } else {
      assert (s + [n])[1..] == s[1..] + [n];
      SumSnoc(s[1..], n);
    }
  }

  /** The parts of struct sockbase that decide its events, and the entries that poll it;
      `log` is all that has happened to it since it was opened. */
  class Socket {
    const fd: int
    const listener: bool
    var rcv: seq<nat>
    var acceptq: nat
    var snd: seq<nat>
    var sndWnd: int
    var epipe: bool
    var entries: seq<Entry>
    ghost const firstWnd: int
    ghost var log: seq<Event>

    constructor (fd: int, listener: bool, sndWnd: int)
      ensures this.fd == fd && this.listener == listener && entries == [] && firstWnd == sndWnd && log == []
      ensures Now() == Opened(sndWnd) && Faithful()
    {
      this.fd, this.listener, this.sndWnd, firstWnd, log := fd, listener, sndWnd, sndWnd, [];
      rcv, acceptq, snd, epipe, entries := [], 0, [], false, [];
    }

    /** The queues and flags are what the history makes of them. */
    ghost predicate Faithful()
      reads `rcv, `acceptq, `snd, `sndWnd, `epipe, `log
    {
      Now() == Trace(Opened(firstWnd), log)
    }

    function Now(): State
      reads `rcv, `acceptq, `snd, `sndWnd, `epipe
    {
      State(rcv, acceptq, snd, sndWnd, epipe)
    }

    function CheckPollevents(events: Mask): Mask
      reads `rcv, `acceptq, `snd, `sndWnd, `epipe
    {
      Check(listener, Now(), events)
    }

    /** What happens to the queues and flags, before anything is reported. */
    method Apply(ev: Event)
      requires Faithful()
      modifies `rcv, `acceptq, `snd, `sndWnd, `epipe, `log
      ensures Now() == After(old(Now()), ev) && log == old(log) + [ev] && Faithful()
    {
      assert (log + [ev])[..|log|] == log;
      log := log + [ev];
      match ev {
        case RcvAdd(len) => rcv := rcv + [len];
        case RcvRm => if rcv != [] { rcv := rcv[1..]; }
        case SndAdd(len) => snd := snd + [len];
        case SndRm => if snd != [] { snd := snd[1..]; }
        case AcceptAdd => acceptq := acceptq + 1;
        case AcceptRm => if acceptq > 0 { acceptq := acceptq - 1; }
        case Broken => epipe := true;
        case SetWnd(wnd) => sndWnd := wnd;
        case AcceptFails => epipe := true;
      }
    }

    /** Checking all events and masking is checking the masked ones. */
    lemma CheckMask(events: Mask)
      ensures And(CheckPollevents(ALL), events) == CheckPollevents(events)
    {
    }

    ghost predicate Linked()
      reads this, entries, set e | e in entries :: e.owner
    {
      NoDup(entries) && forall e :: e in entries ==> e.fd == fd && e.events != NONE && e.owner.Entries()
    }

    /** The cache agrees with the socket: every entry that is attached to its poller
        shows the events it is interested in. */
    ghost predicate Agrees()
      reads this, entries, set e | e in entries :: e.owner
    {
      forall e :: e in entries && e in e.owner.lru ==> e.happened == CheckPollevents(e.events)
    }

    /** __emit_pollevents: entries that have left their poller are dropped. */
    method EmitPollevents(ghost good: map<Poll, set<Entry>>)
      requires Linked() && forall e :: e in entries ==> Waiting(e)
      requires forall p :: p in good ==> Steady(p, good[p])
      modifies `entries, entries, set e | e in entries :: e.owner
      ensures Linked() && Agrees() && forall e :: e in entries ==> e.owner.Valid()
      ensures forall p :: p in good ==> Steady(p, good[p])
      ensures forall e :: e in entries <==> e in old(entries) && old(e in e.owner.lru)
      ensures forall e :: e in old(entries) ==>
        e.events == old(e.events) && (e !in entries ==> e.happened == old(e.happened))
      ensures forall e :: e in old(entries) ==> Members(e.owner) == old(Members(e.owner))
    {
      hide NoDup, Waiting, Told, Only, Kept, Steady;
      var happened := CheckPollevents(ALL);
      ghost var all, was := entries, Snapshots(entries);
      ghost var here := set e | e in all && e in e.owner.lru;
      ghost var pools := Pools(entries);
      KeptStart(all, here, pools);
      var kept := EmitEach(entries, happened, was, here, pools, good);
      OnlyFacts(all, here);
      KeptFacts(all, was, here, pools);
      entries := kept;
      forall e | e in entries ensures
        && e.happened == CheckPollevents(e.events) && e in e.owner.lru && e.owner.Valid()
        && e.events != NONE && e.fd == fd {
        var k :| 0 <= k < |all| && all[k] == e;
        ToldFacts(e, happened);
        CheckMask(e.events);
      }
    }
  }

  /** The loop of __emit_pollevents; `here` are the entries still in their poller. */
  method EmitEach(all: seq<Entry>, happened: Mask, ghost was: seq<Fd>, ghost here: set<Entry>,
                  ghost pools: seq<set<Entry>>, ghost good: map<Poll, set<Entry>>) returns (kept: seq<Entry>)
    requires forall p :: p in good ==> Steady(p, good[p])
    ensures forall p :: p in good ==> Steady(p, good[p])
    requires NoDup(all) && |was| == |all| && |pools| == |all| && Kept(all, was, here, pools)
    requires forall k :: 0 <= k < |all| ==> Waiting(all[k])
    requires forall k :: 0 <= k < |all| ==> was[k].events != NONE && all[k].fd == all[0].fd
    modifies all, set e | e in all :: e.owner
    ensures kept == Only(all, here) && Kept(all, was, here, pools)
    ensures forall k :: 0 <= k < |all| && all[k] in here ==> Told(all[k], happened)
  {
    hide NoDup, Waiting, Told, Only, Kept, Steady;
    kept := [];
    var i := 0;
    OnlyNone(here);
    while i < |all|
      invariant 0 <= i <= |all| && kept == Only(all[..i], here) && Kept(all, was, here, pools)
      invariant forall k :: 0 <= k < i ==> all[k] in here ==> Told(all[k], happened)
      invariant forall k :: i <= k < |all| ==> Waiting(all[k])
      invariant forall p :: p in good ==> Steady(p, good[p])
    {
      OnlySnoc(all, i, here);
      var drop := EmitNext(all[i], all, i, happened, was, here, pools, good);
      if !drop {
        kept := kept + [all[i]];
      }
      i := i + 1;
    }
    assert all[..i] == all;
  }

  /** The elements of s that are in a set. */
  ghost function Only(s: seq<Entry>, keep: set<Entry>): seq<Entry> {
    if s == [] then [] else Only(s[..|s| - 1], keep) + if s[|s| - 1] in keep then [s[|s| - 1]] else []
  }

  lemma OnlyNone(keep: set<Entry>)
    ensures Only([], keep) == []
  {
  }

  lemma OnlySnoc(s: seq<Entry>, i: nat, keep: set<Entry>)
    requires i < |s|
    ensures Only(s[..i + 1], keep) == Only(s[..i], keep) + if s[i] in keep then [s[i]] else []
  {
    assert s[..i + 1][..i] == s[..i];
  }

  lemma {:induction false} OnlyFacts(s: seq<Entry>, keep: set<Entry>)
    ensures forall e :: e in Only(s, keep) <==> e in s && e in keep
    ensures NoDup(s) ==> NoDup(Only(s, keep))
  {
    if s != [] {
      OnlyFacts(s[..|s| - 1], keep);
      assert s == s[..|s| - 1] + [s[|s| - 1]];
    }
  }

  /** Ready to be told its events. */
  ghost predicate Waiting(e: Entry)
    reads e, e.owner, e.owner.lru
  {
    e.owner.Entries() && (e in e.owner.lru ==> e.owner.Fits(e))
  }

  /** Has been told its events. */
  ghost predicate Told(e: Entry, happened: Mask)
    reads e, e.owner, e.owner.lru
  {
    e in e.owner.lru && e.happened == And(happened, e.events) && e.owner.Valid()
  }

  /** A poller in order, with this set of entries. */
  ghost predicate Steady(p: Poll, members: set<Entry>)
    reads p, p.lru
  {
    p.Valid() && Members(p) == members
  }

  lemma ToldFacts(e: Entry, happened: Mask)
    requires Told(e, happened)
    ensures e in e.owner.lru && e.happened == And(happened, e.events) && e.owner.Valid()
  {
  }

  ghost function Members(p: Poll): set<Entry>
    reads p
  {
    set x | x in p.lru
  }

  ghost function Pools(all: seq<Entry>): (r: seq<set<Entry>>)
    reads all, set e | e in all :: e.owner
    ensures |r| == |all|
  {
    seq(|all|, k requires 0 <= k < |all| reads all, set e | e in all :: e.owner => Members(all[k].owner))
  }

  /** Telling entries their events moves them about and marks them, no more. */
  ghost predicate Kept(all: seq<Entry>, was: seq<Fd>, here: set<Entry>, pools: seq<set<Entry>>)
    reads all, set e | e in all :: e.owner
  {
    |was| == |all| == |pools| && forall k :: 0 <= k < |all| ==>
      && all[k].events == was[k].events && (all[k] in here <==> all[k] in all[k].owner.lru)
      && Members(all[k].owner) == pools[k]
      && (all[k] !in here ==> all[k].happened == was[k].happened)
  }

  lemma KeptStart(all: seq<Entry>, here: set<Entry>, pools: seq<set<Entry>>)
    requires forall e :: e in all ==> (e in here <==> e in e.owner.lru)
    requires |pools| == |all| && forall k :: 0 <= k < |all| ==> pools[k] == Members(all[k].owner)
    ensures Kept(all, Snapshots(all), here, pools)
  {
  }

  lemma KeptFacts(all: seq<Entry>, was: seq<Fd>, here: set<Entry>, pools: seq<set<Entry>>)
    requires Kept(all, was, here, pools)
    ensures |was| == |all| == |pools| && forall k :: 0 <= k < |all| ==>
      && all[k].events == was[k].events && (all[k] in here <==> all[k] in all[k].owner.lru)
      && Members(all[k].owner) == pools[k]
      && (all[k] !in here ==> all[k].happened == was[k].happened)
  {
  }

  /** One turn of __emit_pollevents' loop. */
  method EmitNext(e: Entry, all: seq<Entry>, i: nat, happened: Mask, ghost was: seq<Fd>, ghost here: set<Entry>,
                  ghost pools: seq<set<Entry>>, ghost good: map<Poll, set<Entry>>) returns (drop: bool)
    requires forall p :: p in good ==> Steady(p, good[p])
    ensures forall p :: p in good ==> Steady(p, good[p])
    requires i < |all| == |was| && NoDup(all) && all[i] == e
    requires forall k :: 0 <= k < i && all[k] in here ==> Told(all[k], happened)
    requires Kept(all, was, here, pools) && forall k :: 0 <= k < |all| ==> was[k].events != NONE
    requires forall k :: i <= k < |all| ==> Waiting(all[k])
    requires forall k :: 0 <= k < |all| ==> all[k].fd == all[i].fd
    modifies e.owner, e`happened
    ensures drop == (e !in here)
    ensures Kept(all, was, here, pools)
    ensures forall k :: 0 <= k <= i && all[k] in here ==> Told(all[k], happened)
    ensures forall k :: i < k < |all| ==> Waiting(all[k])
  {
    hide NoDup, ReadyFirst, Poll.Fits;
    Unlike(all, i);
    drop := e.owner.Emit(e, And(happened, e.events));
  }

  lemma Unlike(s: seq<Entry>, i: nat)
    requires i < |s| && NoDup(s)
    ensures forall k :: 0 <= k < |s| && k != i ==> s[k] != s[i]
    ensures s[i] !in s[..i]
  {
  }

  lemma ValidWaiting(e: Entry)
    requires e.owner.Valid()
    ensures Waiting(e)
  {
  }

  lemma Unattached(e: Entry)
    requires e.owner.Entries() && e !in e.owner.lru
    ensures Waiting(e)
  {
  }

  lemma Fitting(e: Entry)
    requires e.owner.Entries() && e.owner.Fits(e)
    ensures Waiting(e)
  {
  }

  lemma Appended(s: seq<Entry>, e: Entry)
    requires NoDup(s) && e !in s
    ensures NoDup(s + [e])
  {
  }

  lemma LastFits(p: Poll, e: Entry)
    requires p.lru != [] && p.lru[|p.lru| - 1] == e && ReadyFirst(p.lru[..|p.lru| - 1])
    ensures p.Fits(e)
  {
  }
}
