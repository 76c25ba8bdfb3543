/** All sockets and pollers of a process: the operations of src/poll/eventpoll.c,
    src/socket/send.c, src/socket/recv.c and src/socket/close.c keep the readiness caches
    right, whatever sequence of them is carried out. */
module XpollSys {
  import opened Seqs
  import opened Xpoll

  const XPOLL_ADD := 1
  const XPOLL_DEL := 2
  const XPOLL_MOD := 3

  /** What a call comes back with: its return code, or a BUG_ON that stops the process. */
  datatype Result = Done(rc: int) | Abort

  /** A refused call, a BUG_ON on an empty interest, or success. */
  function Outcome(refused: bool, events: Mask): Result {
    if refused then Done(-1) else if events == NONE then Abort else Done(0)
  }

  /** The poller has an entry for this socket. */
  ghost predicate Polled(p: Poll, fd: int)
    reads p
  {
    exists x :: x in p.lru && x.fd == fd
  }

  datatype Op =
    | OpOpen(fd: int, listener: bool, sndWnd: int)
    | OpCreate(id: int)
    | OpQueue(fd: int, ev: Event)
    | OpCtl(id: int, ctl: int, fd: int, events: Mask, happened: Mask)
    | OpWait(id: int, size: nat)
    | OpClose(fd: int)
    | OpPollClose(id: int)

  /** Whether a socket can be stale after an operation, given whether it was before. */
  predicate MayBeStale(op: Op, fd: int, was: bool) {
    if op.OpQueue? && op.fd == fd then !Reports(op.ev) else was && !(op.OpClose? && op.fd == fd)
  }

  /** The last change of the socket in ops was not reported; `was` before any. */
  predicate Unreported(ops: seq<Op>, fd: int, was: bool)
    decreases |ops|
  {
    if ops == [] then was else MayBeStale(ops[|ops| - 1], fd, Unreported(ops[..|ops| - 1], fd, was))
  }

  /** socks and polls are the tables; pollers are all ever created, since a poller lives
      as long as an entry refers to it; stale are the sockets that have changed without a
      report and not reported since. */
  class System {
    var socks: map<int, Socket>
    var polls: map<int, Poll>
    ghost var pollers: set<Poll>
    ghost var stale: set<int>
    ghost var repr: set<object>

    /** The tables and lists fit together: no poller lists an entry or a socket twice, no
        socket lists an entry twice, and what a poller lists is on its socket's list. */
    ghost predicate Shape()
      reads this, repr
    {
      && this in repr && stale <= socks.Keys && (forall id :: id in polls ==> polls[id] in pollers)
      && (forall p :: p in pollers ==> p in repr && (forall e :: e in p.lru ==> e in repr) && p.Entries())
      && (forall fd :: fd in socks ==> SockShape(fd))
      && (forall p, e :: p in pollers && e in p.lru ==> e.fd in socks && e in socks[e.fd].entries)
    }

    ghost predicate SockShape(fd: int)
      requires fd in socks
      reads this, repr
    {
      var s := socks[fd];
      && fd >= 0 && s in repr && s.fd == fd && NoDup(s.entries) && s.Faithful()
      && forall e :: e in s.entries ==> e in repr && e.fd == fd && e.events != NONE && e.owner in pollers
    }

    /** Every poller, but for y, lists its ready entries first. */
    ghost predicate Ordered(y: Poll?)
      requires Shape()
      reads this, repr
    {
      forall p :: p in pollers && p != y ==> ReadyFirst(p.lru)
    }

    /** Each entry attached to its poller shows the events of its socket, unless that
        socket is stale or x. */
    ghost predicate Agreeing(x: Socket?)
      requires Shape()
      reads this, repr
    {
      forall fd :: fd in socks && fd !in stale && socks[fd] != x ==> SockAgrees(socks[fd])
    }

    ghost predicate SockAgrees(s: Socket)
      requires s in repr && forall e :: e in s.entries ==> e in repr && e.owner in repr
      reads this, s, repr
    {
      s.Agrees()
    }

    /** Sockets other than fd are in the state they were in. */
    twostate predicate Steadfast(fd: int)
      reads this, set k | k in socks :: socks[k]
    {
      forall k :: k in socks && k != fd ==>
        k in old(socks) && socks[k] == old(socks)[k]
        && socks[k].Now() == old(socks[k].Now()) && socks[k].log == old(socks[k].log)
    }

    /** The invariant at quiescent points. */
    ghost predicate Valid()
      reads this, repr
    {
      Shape() && Ordered(null) && Agreeing(null)
    }

    constructor ()
      ensures Valid() && socks == map[] && polls == map[] && stale == {} && fresh(repr)
    {
      socks, polls, pollers, stale := map[], map[], {}, {};
      repr := {this};
    }

    /** xsocket or xaccept: a new socket in a free slot of the table. */
    method Open(fd: nat, listener: bool, sndWnd: int)
      requires Valid() && fd !in socks
      modifies this
      ensures Valid() && fresh(repr - old(repr)) && fd in socks
      ensures socks == old(socks)[fd := socks[fd]] && polls == old(polls) && stale == old(stale)
      ensures fresh(socks[fd]) && socks[fd].listener == listener && socks[fd].Now() == Opened(sndWnd)
      ensures socks[fd].firstWnd == sndWnd && socks[fd].log == []
      ensures pollers == old(pollers) && forall p :: p in old(pollers) ==> p.lru == old(p.lru)
    {
      hide NoDup, ReadyFirst, Socket.Faithful;
      var s := new Socket(fd, listener, sndWnd);
      NothingTwice();
      socks := socks[fd := s];
      repr := repr + {s};
      assert SockShape(fd);
      assert forall fd :: fd in socks ==> SockShape(fd);
      assert Shape();
      assert Ordered(null);
      assert Agreeing(null);
    }

    /** xpoll_create. */
    method Create(id: int)
      requires Valid() && id !in polls
      modifies this
      ensures Valid() && fresh(repr - old(repr)) && id in polls
      ensures polls == old(polls)[id := polls[id]] && socks == old(socks) && stale == old(stale)
      ensures polls[id].lru == []
    {
      hide NoDup, ReadyFirst, Socket.CheckPollevents, Socket.Faithful;
      var p := new Poll();
      PollerParts(p);
      polls := polls[id := p];
      pollers := pollers + {p};
      repr := repr + {p};
      assert forall k :: k in socks ==> SockShape(k);
      assert Shape();
      assert Ordered(null);
      forall k | k in socks && k !in stale ensures SockAgrees(socks[k]) {
        assert old(SockAgrees(socks[k]));
      }
    }

    /** emit_pollevents on one socket repairs what its change left stale. */
    method Refresh(s: Socket, ghost y: Poll?)
      requires Shape() && Ordered(y) && Agreeing(s) && s.fd in socks
      requires socks[s.fd] == s && forall e :: e in s.entries ==> Waiting(e)
      requires y != null ==> exists e :: e in s.entries && e.owner == y && e in y.lru
      modifies s`entries, `stale, s.entries, set e | e in s.entries :: e.owner
      ensures Valid() && stale == old(stale) - {s.fd}
      ensures forall e :: e in s.entries <==> e in old(s.entries) && old(e in e.owner.lru)
      ensures forall p :: p in pollers ==> Members(p) == old(Members(p))
      ensures forall e :: e in old(s.entries) ==> e.events == old(e.events)
    {
      hide NoDup, ReadyFirst, Waiting, Agreeing, Socket.Agrees, Socket.CheckPollevents, Socket.Faithful, Poll.Entries;
      Emit(s, y);
      assert Agreeing(s) && SockAgrees(s);
      Settle(s);
    }

    /** Once it has reported, the socket is stale no more. */
    method Settle(s: Socket)
      requires Shape() && Ordered(null) && Agreeing(s) && s.fd in socks && socks[s.fd] == s && SockAgrees(s)
      modifies `stale
      ensures Valid() && stale == old(stale) - {s.fd}
    {
      hide NoDup, ReadyFirst, Socket.Agrees, Socket.CheckPollevents, Socket.Faithful, Poll.Entries;
      assert forall fd :: fd in socks && (fd !in stale || fd == s.fd) ==> SockAgrees(socks[fd]);
      stale := stale - {s.fd};
      assert forall fd :: fd in socks ==> SockShape(fd);
      assert Shape();
    }

    method Emit(s: Socket, ghost y: Poll?)
      requires Shape() && Ordered(y) && Agreeing(s) && s.fd in socks
      requires socks[s.fd] == s && forall e :: e in s.entries ==> Waiting(e)
      requires y != null ==> exists e :: e in s.entries && e.owner == y && e in y.lru
      modifies s`entries, s.entries, set e | e in s.entries :: e.owner
      ensures Shape() && Ordered(null) && Agreeing(s) && SockAgrees(s)
      ensures forall e :: e in s.entries <==> e in old(s.entries) && old(e in e.owner.lru)
      ensures forall p :: p in pollers ==> Members(p) == old(Members(p))
      ensures forall e :: e in old(s.entries) ==> e.events == old(e.events)
    {
      hide NoDup, ReadyFirst, Waiting, Socket.CheckPollevents, Socket.Faithful;
      ghost var good := map p | p in pollers && p != y :: Members(p);
      s.EmitPollevents(good);
      forall p | p in pollers ensures p.Valid() && Members(p) == old(Members(p)) {
        if p != y { assert p in good && Steady(p, good[p]); }
      }
      forall p, e | p in pollers && e in p.lru
        ensures e in repr && e.fd in socks && e in socks[e.fd].entries
      {
        assert e in Members(p) && e in old(Members(p));
      }
      assert Shape();
      forall fd | fd in socks && fd !in stale && socks[fd] != s ensures SockAgrees(socks[fd]) {
        assert old(SockAgrees(socks[fd]));
        forall e | e in socks[fd].entries ensures e.happened == old(e.happened) && e.events == old(e.events) {
          assert e !in old(s.entries);
        }
        forall e | e in socks[fd].entries && e in e.owner.lru ensures e in old(e.owner.lru) {
          assert e in Members(e.owner) && e in old(Members(e.owner));
        }
      }
    }

    /** The change of one socket's queues and flags, before the socket reports. */
    method Change(s: Socket, ev: Event)
      requires Valid() && s.fd in socks && socks[s.fd] == s
      modifies s
      ensures s.Now() == After(old(s.Now()), ev) && s.log == old(s.log) + [ev]
      ensures s.entries == old(s.entries) && Shape() && Ordered(null) && Agreeing(s)
    {
      hide NoDup, ReadyFirst, Socket.CheckPollevents, Socket.Faithful, Poll.Entries;
      s.Apply(ev);
      assert forall k :: k in socks ==> SockShape(k);
      assert Shape();
      assert Ordered(null);
      forall k | k in socks && k !in stale && socks[k] != s ensures SockAgrees(socks[k]) {
        assert old(SockAgrees(socks[k]));
      }
    }

    /** Any operation of send.c and recv.c, an accept or the end of a connection: done
        and reported. */
    method Queue(fd: int, ev: Event) returns (rc: int)
      requires Valid() && Reports(ev)
      modifies repr
      ensures Valid() && repr == old(repr) && socks == old(socks) && polls == old(polls)
      ensures rc == if fd in socks then 0 else -1
      ensures stale == old(stale) - {fd} && (fd in socks ==> socks[fd].Now() == After(old(socks[fd].Now()), ev))
      ensures fd in socks ==> socks[fd].log == old(socks[fd].log) + [ev] && forall p, e ::
        p in pollers && e in p.lru && e.fd == fd ==>
          Turned(socks[fd].listener, old(socks[fd].Now()), ev, e.events, e.happened)
      ensures pollers == old(pollers) && Steadfast(fd) && forall p :: p in pollers ==> Members(p) == old(Members(p))
    {
      if fd !in socks {
        return -1;
      }
      hide NoDup, ReadyFirst, Waiting, Socket.CheckPollevents, Socket.Faithful;
      var s := socks[fd];
      Change(s, ev);
      AllWaiting(s);
      Refresh(s, null);
      forall p, e | p in pollers && e in p.lru && e.fd == fd
        ensures Turned(s.listener, old(socks[fd].Now()), ev, e.events, e.happened)
      {
        ShownIs(p, e);
        EventTurns(s.listener, old(socks[fd].Now()), ev, e.events);
      }
      rc := 0;
    }

    /** What an attached entry shows of a socket that is not stale. */
    lemma ShownIs(p: Poll, e: Entry)
      requires Valid() && p in pollers && e in p.lru && e.fd !in stale
      ensures e.fd in socks && e.happened == Check(socks[e.fd].listener, socks[e.fd].Now(), e.events)
    {
      hide ReadyFirst, NoDup;
      assert SockAgrees(socks[e.fd]);
    }

    /** At every quiescent point: an entry shows what the history of its socket says,
        unless that history ends with a change the code does not report. */
    lemma Shows(p: Poll, e: Entry)
      requires Valid() && p in pollers && e in p.lru && e.fd !in stale
      ensures e.fd in socks
      ensures var s := socks[e.fd]; Tells(s.listener, s.firstWnd, s.log, e.events, e.happened)
    {
      hide Tells, Ordered;
      ShownIs(p, e);
      var s := socks[e.fd];
      assert SockShape(e.fd) && s.Faithful();
      CheckTells(s.listener, s.firstWnd, s.log, e.events);
    }

    method Mark(s: Socket)
      requires Shape() && Ordered(null) && Agreeing(s) && s.fd in socks && socks[s.fd] == s
      modifies `stale
      ensures Valid() && stale == old(stale) + {s.fd}
    {
      hide NoDup, ReadyFirst, Socket.Agrees, Socket.CheckPollevents, Socket.Faithful, Poll.Entries;
      stale := stale + {s.fd};
      assert forall fd :: fd in socks ==> SockShape(fd);
      assert Shape();
    }

    /** A change that is not reported. The caches of a socket that was not stale stay right
        if and only if no attached entry's events have changed. */
    method Silent(fd: int, ev: Event) returns (rc: int)
      requires Valid() && !Reports(ev)
      modifies repr
      ensures Valid() && repr == old(repr) && socks == old(socks) && polls == old(polls) && pollers == old(pollers)
      ensures rc == (if fd in socks then 0 else -1) && stale == if fd in socks then old(stale) + {fd} else old(stale)
      ensures Steadfast(fd) && (fd in socks ==> socks[fd].Now() == After(old(socks[fd].Now()), ev))
      ensures fd in socks ==> socks[fd].log == old(socks[fd].log) + [ev]
      ensures forall p :: p in pollers ==> p.lru == old(p.lru)
      ensures forall p, e :: p in pollers && e in p.lru ==> Snapshot(e) == old(Snapshot(e))
      ensures fd in socks && fd !in old(stale) ==>
        var s := socks[fd];
        (SockAgrees(s) <==> forall e :: e in s.entries && e in e.owner.lru ==>
          s.CheckPollevents(e.events) == old(s.CheckPollevents(e.events)))
    {
      if fd !in socks {
        return -1;
      }
      hide NoDup, ReadyFirst, Waiting, Socket.CheckPollevents, Socket.Faithful;
      var s := socks[fd];
      assert fd !in stale ==> SockAgrees(s);
      Change(s, ev);
      Mark(s);
      rc := 0;
    }

    /** rm_poll_entry: lists only get shorter, so nothing else changes. */
    method Drop(p: Poll, fd: int) returns (rc: int)
      requires Valid() && p in pollers
      modifies p
      ensures Valid() && Members(p) <= old(Members(p)) && (rc == 0 ==> |p.lru| < |old(p.lru)|)
      ensures rc == if exists x :: x in old(p.lru) && (x.fd == fd || fd == XPOLL_HEADFD) then 0 else -1
      ensures rc != 0 ==> p.lru == old(p.lru)
      ensures rc == 0 && fd == XPOLL_HEADFD ==> p.lru == old(p.lru)[1..]
      ensures fd != XPOLL_HEADFD ==> forall x :: x in p.lru <==> x in old(p.lru) && x.fd != fd
    {
      hide NoDup, ReadyFirst, Minus;
      PollerValid(p);
      rc := p.Rm(fd);
      PollerParts(p);
      assert Shape();
      assert Ordered(null);
      forall k | k in socks && k !in stale ensures SockAgrees(socks[k]) {
        assert old(SockAgrees(socks[k]));
      }
    }

    lemma PollerIn(id: int)
      requires Shape() && id in polls
      ensures polls[id] in pollers
    {
    }

    lemma PollerValid(p: Poll)
      requires Shape() && Ordered(null) && p in pollers
      ensures p.Valid()
    {
    }

    lemma AllWaiting(s: Socket)
      requires Shape() && Ordered(null) && s.fd in socks && socks[s.fd] == s
      ensures forall x :: x in s.entries ==> Waiting(x)
    {
      hide NoDup, ReadyFirst, Waiting, Socket.CheckPollevents, Socket.Faithful;
      forall x | x in s.entries ensures Waiting(x) {
        PollerValid(x.owner);
        ValidWaiting(x);
      }
    }

    lemma PollerParts(p: Poll)
      requires p.Valid()
      ensures p.Entries() && ReadyFirst(p.lru)
    {
    }

    /** add_poll_entry and add_pollbase: the new entry goes last in both lists. */
    method Attach(p: Poll, s: Socket, e: Entry)
      requires Valid() && p in pollers && s.fd in socks && socks[s.fd] == s && e.events != NONE
      requires e !in repr && e.fd == s.fd && e.owner == p && forall x :: x in p.lru ==> x.fd != s.fd
      modifies p, s`entries, `repr
      ensures p.lru == old(p.lru) + [e] && s.entries == old(s.entries) + [e]
      ensures repr == old(repr) + {e} && Shape() && Ordered(p) && Agreeing(s) && p.Fits(e)
    {
      hide NoDup, ReadyFirst, Poll.Fits, Poll.Entries, Socket.CheckPollevents, Socket.Faithful, OwnList;
      PollerValid(p);
      EntriesAre(p);
      OwnListGrows(p.lru, p, e);
      Appended(s.entries, e);
      p.lru := p.lru + [e];
      s.entries := s.entries + [e];
      repr := repr + {e};
      assert forall k :: k in socks ==> SockShape(k);
      LastFits(p, e);
      EntriesAre(p);
      assert Shape();
      assert Ordered(p);
      forall k | k in socks && k !in stale && socks[k] != s ensures SockAgrees(socks[k]) {
        assert old(SockAgrees(socks[k]));
      }
    }

    lemma EntriesAre(p: Poll)
      ensures p.Entries() <==> OwnList(p.lru, p)
    {
    }

    lemma WaitingAfter(s: Socket, p: Poll, e: Entry)
      requires Shape() && Ordered(p) && s.fd in socks && socks[s.fd] == s
      requires e in s.entries && e.owner == p && e in p.lru && p.Fits(e)
      ensures forall x :: x in s.entries ==> Waiting(x)
    {
      hide NoDup, ReadyFirst, Poll.Fits, Waiting;
      forall x | x in s.entries ensures Waiting(x) {
        if x == e {
          Fitting(e);
        } else if x.owner == p {
          Unattached(x);
        } else {
          PollerIs(x.owner);
          ValidWaiting(x);
        }
      }
    }

    /** Both lists, then emit_pollevents. */
    method Join(p: Poll, s: Socket, e: Entry)
      requires Valid() && p in pollers && s.fd in socks && socks[s.fd] == s && e.events != NONE
      requires e !in repr && e.fd == s.fd && e.owner == p && forall x :: x in p.lru ==> x.fd != s.fd
      modifies repr, e
      ensures Valid() && repr == old(repr) + {e} && socks == old(socks) && polls == old(polls)
      ensures pollers == old(pollers) && Steadfast(-1)
      ensures stale == old(stale) - {s.fd} && e.events == old(e.events)
      ensures Members(p) == old(Members(p)) + {e}
      ensures forall q :: q in pollers && q != p ==> Members(q) == old(Members(q))
    {
      hide NoDup, ReadyFirst, Poll.Fits, Poll.Entries, Waiting, Ordered, Agreeing;
      hide Socket.CheckPollevents, Socket.Faithful;
      Attach(p, s, e);
      WaitingAfter(s, p, e);
      assert Members(p) == old(Members(p)) + {e};
      Refresh(s, p);
    }

    /** xpoll_add; `happened` is what the caller's structure happens to contain. */
    method Add(p: Poll, fd: int, events: Mask, happened: Mask) returns (r: Result)
      requires Valid() && p in pollers
      modifies repr
      ensures Valid() && fresh(repr - old(repr)) && socks == old(socks)
      ensures polls == old(polls) && pollers == old(pollers) && Steadfast(-1)
      ensures r == Outcome(fd !in socks || old(Polled(p, fd)), events)
      ensures stale == if r == Done(0) then old(stale) - {fd} else old(stale)
      ensures r == Done(0) ==>
        exists e :: fresh(e) && Members(p) == old(Members(p)) + {e} && e.fd == fd && e.events == events
      ensures r != Done(0) ==> p.lru == old(p.lru)
      ensures forall q :: q in pollers && q != p ==> Members(q) == old(Members(q))
    {
      hide NoDup, ReadyFirst, Poll.Fits, Poll.Entries, Waiting, Ordered, Agreeing;
      hide Socket.CheckPollevents, Socket.Faithful;
      if fd !in socks {
        return Done(-1);
      }
      var s := socks[fd];
      var found := p.Find(fd);
      if found != null {
        return Done(-1);
      }
      if events == NONE {
        return Abort;
      }
      var e := new Entry(fd, p);
      e.events, e.happened := events, happened;
      Join(p, s, e);
      r := Done(0);
    }

    /** xpoll_mod. */
    method Mod(p: Poll, fd: int, events: Mask) returns (r: Result)
      requires Valid() && p in pollers
      modifies repr
      ensures Valid() && repr == old(repr) && socks == old(socks) && polls == old(polls) && pollers == old(pollers)
      ensures Steadfast(-1) && r == Outcome(fd !in socks || !old(Polled(p, fd)), events)
      ensures stale == if r == Done(0) then old(stale) - {fd} else old(stale)
      ensures r == Done(0) ==> exists e :: e in p.lru && e.fd == fd && e.events == events
      ensures forall q :: q in pollers ==> Members(q) == old(Members(q))
    {
      hide NoDup, ReadyFirst, Poll.Fits, Poll.Entries, Waiting, Ordered, Agreeing;
      hide Socket.CheckPollevents, Socket.Faithful;
      if fd !in socks {
        return Done(-1);
      }
      var s := socks[fd];
      var e := p.Find(fd);
      if e == null {
        return Done(-1);
      }
      if events == NONE {
        return Abort;
      }
      Renew(p, s, e, events);
      r := Done(0);
    }

    /** The new interest, then emit_pollevents. */
    method Renew(p: Poll, s: Socket, e: Entry, events: Mask)
      requires Valid() && p in pollers && s.fd in socks && socks[s.fd] == s && events != NONE
      requires e in p.lru && e in s.entries
      modifies repr
      ensures Valid() && repr == old(repr) && socks == old(socks) && polls == old(polls) && pollers == old(pollers)
      ensures Steadfast(-1) && stale == old(stale) - {s.fd} && e in p.lru && e.events == events
      ensures forall q :: q in pollers ==> Members(q) == old(Members(q))
    {
      hide NoDup, ReadyFirst, Poll.Fits, Poll.Entries, Waiting, Ordered, Agreeing;
      hide Socket.CheckPollevents, Socket.Faithful;
      Retarget(s, e, events);
      AllWaiting(s);
      Refresh(s, null);
      assert e in Members(p);
    }

    /** The update of one entry's interest, before the socket reports. */
    method Retarget(s: Socket, e: Entry, events: Mask)
      requires Valid() && s.fd in socks && socks[s.fd] == s && e in s.entries && events != NONE
      modifies e`events
      ensures e.events == events && Shape() && Ordered(null) && Agreeing(s)
    {
      hide NoDup, ReadyFirst, Socket.CheckPollevents, Socket.Faithful;
      e.events := events;
      assert forall k :: k in socks ==> SockShape(k);
      assert Shape();
      forall p | p in pollers ensures ReadyFirst(p.lru) {
        assert old(ReadyFirst(p.lru));
        SameReady(p.lru);
      }
      forall k | k in socks && k !in stale && socks[k] != s ensures SockAgrees(socks[k]) {
        assert old(SockAgrees(socks[k]));
        assert e !in socks[k].entries;
      }
    }

    /** __xclose: every entry of the socket leaves its poller, then the socket is gone. */
    method Close(fd: int) returns (rc: int)
      requires Valid()
      modifies repr
      ensures Valid() && repr == old(repr) && polls == old(polls) && pollers == old(pollers)
      ensures rc == (if fd in old(socks) then 0 else -1) && socks == old(socks) - {fd} && stale == old(stale) - {fd}
      ensures Steadfast(fd)
      ensures forall p :: p in pollers ==> Members(p) == set e | e in old(Members(p)) && e.fd != fd
    {
      hide NoDup, ReadyFirst, Socket.CheckPollevents, Socket.Faithful;
      if fd !in socks {
        NotListed(fd);
        assert socks == socks - {fd};
        return -1;
      }
      var s := socks[fd];
      DropAll(s);
      Forget(s);
      rc := 0;
    }

    /** The loop of __xclose: XPOLL_DEL on the poller of every entry. */
    method DropAll(s: Socket)
      requires Valid() && s.fd in socks && socks[s.fd] == s
      modifies pollers
      ensures Valid() && forall p, e :: p in pollers && e in p.lru ==> e.fd != s.fd
      ensures forall p, e :: p in pollers && e in p.lru ==> e in old(Members(p))
      ensures forall p, e :: p in pollers && e in old(Members(p)) && e.fd != s.fd ==> e in p.lru
    {
      hide NoDup, ReadyFirst, Ordered, Agreeing;
      var i := 0;
      while i < |s.entries|
        invariant 0 <= i <= |s.entries| && Valid()
        invariant forall y, x :: y in s.entries[..i] && x in y.owner.lru ==> x.fd != s.fd
        invariant forall p, e :: p in pollers && e in old(Members(p)) && e.fd != s.fd ==> e in p.lru
        invariant forall p, e :: p in pollers && e in p.lru ==> e in old(Members(p))
      {
        var rm := Drop(s.entries[i].owner, s.fd);
        assert s.entries[..i + 1] == s.entries[..i] + [s.entries[i]];
        i := i + 1;
      }
      assert s.entries[..i] == s.entries;
      NoneLeft(s);
    }

    /** The last xput takes the socket out of the table. */
    method Forget(s: Socket)
      requires Valid() && s.fd in socks && socks[s.fd] == s
      requires forall p, e :: p in pollers && e in p.lru ==> e.fd != s.fd
      modifies `socks, `stale
      ensures Valid() && socks == old(socks) - {s.fd} && stale == old(stale) - {s.fd}
    {
      hide NoDup, ReadyFirst, Socket.CheckPollevents, Socket.Faithful;
      socks, stale := socks - {s.fd}, stale - {s.fd};
      assert forall k :: k in socks ==> SockShape(k);
      assert Shape();
      assert Ordered(null);
      forall k | k in socks && k !in stale ensures SockAgrees(socks[k]) {
        assert old(SockAgrees(socks[k]));
      }
    }

    /** Once every owner has dropped the socket, no poller lists it. */
    lemma NoneLeft(s: Socket)
      requires Shape() && s.fd in socks && socks[s.fd] == s
      requires forall y, x :: y in s.entries && x in y.owner.lru ==> x.fd != s.fd
      ensures forall p, e :: p in pollers && e in p.lru ==> e.fd != s.fd
    {
    }

    lemma NotListed(fd: int)
      requires Shape() && fd !in socks
      ensures forall p, e :: p in pollers && e in p.lru ==> e.fd != fd
    {
    }

    /** xpoll_close: entries leave from the head until none is left. */
    method ClosePoll(id: int) returns (rc: int)
      requires Valid()
      modifies repr
      ensures Valid() && repr == old(repr) && socks == old(socks) && pollers == old(pollers)
      ensures rc == (if id in old(polls) then 0 else -1) && polls == old(polls) - {id} && stale == old(stale)
      ensures Steadfast(-1)
      ensures id in old(polls) ==> old(polls)[id].lru == []
      ensures forall p :: p in pollers && (id !in old(polls) || p != old(polls)[id]) ==> p.lru == old(p.lru)
    {
      hide NoDup, ReadyFirst, Socket.CheckPollevents, Socket.Faithful;
      if id !in polls {
        assert polls == polls - {id};
        return -1;
      }
      var p := polls[id];
      var gone := 0;
      while gone == 0
        invariant Valid() && (gone == 0 || (gone == -1 && p.lru == []))
        modifies p
        decreases |p.lru| + if gone == 0 then 1 else 0
      {
        assert p.lru != [] ==> p.lru[0] in p.lru;
        gone := Drop(p, XPOLL_HEADFD);
      }
      polls := polls - {id};
      rc := 0;
    }

    /** xpoll_ctl. */
    method Ctl(id: int, op: int, fd: int, events: Mask, happened: Mask) returns (r: Result)
      requires Valid()
      modifies repr
      ensures Valid() && fresh(repr - old(repr)) && socks == old(socks) && polls == old(polls)
      ensures pollers == old(pollers) && Steadfast(-1)
      ensures id !in polls || op !in {XPOLL_ADD, XPOLL_DEL, XPOLL_MOD} ==> r == Done(-1)
      ensures stale == if r == Done(0) && op != XPOLL_DEL then old(stale) - {fd} else old(stale)
      ensures r == Abort ==> events == NONE
      ensures id in polls && op == XPOLL_ADD ==>
        r == if fd !in socks || old(Polled(polls[id], fd)) then Done(-1) else if events == NONE then Abort else Done(0)
      ensures id in polls && op == XPOLL_MOD ==>
        r == if fd !in socks || !old(Polled(polls[id], fd)) then Done(-1) else if events == NONE then Abort else Done(0)
      ensures id in polls && op == XPOLL_ADD && r == Done(0) ==> exists e ::
        fresh(e) && Members(polls[id]) == old(Members(polls[id])) + {e} && e.fd == fd && e.events == events
      ensures id in polls && op == XPOLL_MOD && r == Done(0) ==>
        exists e :: e in polls[id].lru && e.fd == fd && e.events == events
      ensures id in polls && op == XPOLL_MOD ==> Members(polls[id]) == old(Members(polls[id]))
      ensures id in polls && op == XPOLL_DEL && fd != XPOLL_HEADFD ==>
        && r == (if old(Polled(polls[id], fd)) then Done(0) else Done(-1))
        && Members(polls[id]) == set e | e in old(Members(polls[id])) && e.fd != fd
      ensures id in polls && op == XPOLL_DEL && fd == XPOLL_HEADFD ==>
        && r == (if old(polls[id].lru) != [] then Done(0) else Done(-1))
        && polls[id].lru == if old(polls[id].lru) != [] then old(polls[id].lru)[1..] else []
      ensures forall q :: q in old(pollers) && (id !in polls || q != polls[id]) ==> Members(q) == old(Members(q))
    {
      hide Ordered, Agreeing, NoDup;
      if id !in polls {
        return Done(-1);
      }
      if op == XPOLL_ADD {
        r := Add(polls[id], fd, events, happened);
      } else if op == XPOLL_DEL {
        assert polls[id].lru != [] ==> polls[id].lru[0] in polls[id].lru;
        var rc := Drop(polls[id], fd);
        r := Done(rc);
      } else if op == XPOLL_MOD {
        r := Mod(polls[id], fd, events);
      } else {
        r := Done(-1);
      }
    }

    /** xpoll_wait: it reports as many of the entries that show something as there is room
        for, no socket twice; of a socket that is not stale it reports the truth, and where
        the poller has no stale socket it misses none. */
    method Wait(id: int, size: nat) returns (fds: seq<Fd>)
      requires Valid()
      ensures id !in polls ==> fds == []
      ensures id in polls ==> var n := |ReadyOf(polls[id].lru)|; |fds| == if size < n then size else n
      ensures id in polls && (forall e :: e in polls[id].lru ==> e.fd !in stale) ==>
        ReadyOf(polls[id].lru) == Happening(polls[id])
      ensures forall i :: 0 <= i < |fds| ==> fds[i].fd in socks && id in polls && Listed(polls[id], fds[i])
      ensures forall i :: 0 <= i < |fds| && fds[i].fd !in stale ==>
        var s := socks[fds[i].fd]; Tells(s.listener, s.firstWnd, s.log, fds[i].events, fds[i].happened)
      ensures forall i, j :: 0 <= i < j < |fds| ==> fds[i].fd != fds[j].fd
    {
      if id !in polls {
        return [];
      }
      hide NoDup, ReadyFirst, ReadyOf, Tells, Listed, Ready, Snapshots, Shape, Agreeing, Ordered, OwnList;
      hide Socket.CheckPollevents, Socket.Faithful;
      var p := polls[id];
      PollerIn(id);
      PollerValid(p);
      fds := p.Wait(size);
      SnapshotsAre(p.lru);
      ReadyAre(p);
      Reported(p, fds);
    }

    /** What the poller's entries show is true of their sockets. */
    lemma Reported(p: Poll, fds: seq<Fd>)
      requires Valid() && p in pollers && p.Valid()
      requires |fds| <= |p.lru|
      requires forall i :: 0 <= i < |fds| ==> fds[i] == Snapshot(p.lru[i]) && fds[i].happened != NONE
      ensures forall i :: 0 <= i < |fds| ==> fds[i].fd in socks && Listed(p, fds[i])
      ensures forall i :: 0 <= i < |fds| && fds[i].fd !in stale ==>
        var s := socks[fds[i].fd]; Tells(s.listener, s.firstWnd, s.log, fds[i].events, fds[i].happened)
      ensures forall i, j :: 0 <= i < j < |fds| ==> fds[i].fd != fds[j].fd
    {
      hide Tells, ReadyFirst, Ready, Snapshots, Socket.CheckPollevents, Socket.Faithful, Agreeing, Ordered;
      ReadyAre(p);
      forall i | 0 <= i < |fds|
        ensures fds[i].fd in socks && Listed(p, fds[i])
        ensures fds[i].fd !in stale ==>
          var s := socks[fds[i].fd]; Tells(s.listener, s.firstWnd, s.log, fds[i].events, fds[i].happened)
      {
        var e := p.lru[i];
        assert e in ReadyOf(p.lru) && Snapshot(e) == fds[i];
        if e.fd !in stale { Shows(p, e); }
      }
      forall i, j | 0 <= i < j < |fds| ensures fds[i].fd != fds[j].fd {
        assert p.lru[i] != p.lru[j];
      }
    }

    /** f is what an entry of p shows. */
    ghost predicate Listed(p: Poll, f: Fd)
      requires Shape() && p in pollers
      reads this, repr
    {
      exists e :: e in ReadyOf(p.lru) && Snapshot(e) == f && (e.fd !in stale ==> e in Happening(p))
    }

    /** The entries of a poller whose sockets have an event of interest now. */
    ghost function Happening(p: Poll): set<Entry>
      requires Shape() && p in pollers
      reads this, repr
    {
      set e | e in p.lru && socks[e.fd].CheckPollevents(e.events) != NONE
    }

    lemma ReadyAre(p: Poll)
      requires Valid() && p in pollers
      ensures |ReadyOf(p.lru)| == Ready(p.lru)
      ensures forall e :: e in p.lru && e.fd !in stale ==>
        && e.happened == socks[e.fd].CheckPollevents(e.events) && (e in ReadyOf(p.lru) <==> e in Happening(p))
      ensures (forall e :: e in p.lru ==> e.fd !in stale) ==> ReadyOf(p.lru) == Happening(p)
    {
      forall e | e in p.lru && e.fd !in stale ensures e.happened == socks[e.fd].CheckPollevents(e.events) {
        assert SockAgrees(socks[e.fd]);
      }
      ReadySet(p.lru);
    }

    /** Any sequence of operations: a BUG_ON ends it, nothing else breaks the invariant, and
        a socket is stale only if its last change was not reported. An operation that opens
        something in a slot in use stands for one in a free slot. */
    method Run(ops: seq<Op>) returns (done: nat, aborted: bool)
      requires Valid()
      modifies repr
      ensures Valid() && fresh(repr - old(repr))
      ensures done <= |ops| && (!aborted ==> done == |ops|)
      ensures aborted ==> 0 < done && ops[done - 1].OpCtl? && ops[done - 1].events == NONE
      ensures forall fd :: fd in stale ==> Unreported(ops[..done], fd, fd in old(stale))
    {
      assert this in repr;
      hide Valid;
      aborted, done := false, 0;
      while done < |ops| && !aborted
        invariant 0 <= done <= |ops| && Valid() && fresh(repr - old(repr)) && this in repr
        invariant aborted ==> 0 < done && ops[done - 1].OpCtl? && ops[done - 1].events == NONE
        invariant forall fd :: fd in stale ==> Unreported(ops[..done], fd, fd in old(stale))
      {
        assert ops[..done + 1][..done] == ops[..done];
        aborted := Perform(ops[done]);
        done := done + 1;
      }
    }

    method Perform(op: Op) returns (aborted: bool)
      requires Valid()
      modifies repr
      ensures Valid() && fresh(repr - old(repr)) && this in repr
      ensures aborted <==>
        && op.OpCtl? && op.id in old(polls) && op.fd in old(socks) && op.events == NONE
        && ((op.ctl == XPOLL_ADD && !old(Polled(polls[op.id], op.fd)))
          || (op.ctl == XPOLL_MOD && old(Polled(polls[op.id], op.fd))))
      ensures socks.Keys == if op.OpOpen? && op.fd >= 0 then old(socks).Keys + {op.fd}
        else if op.OpClose? then old(socks).Keys - {op.fd} else old(socks).Keys
      ensures polls.Keys == if op.OpCreate? then old(polls).Keys + {op.id}
        else if op.OpPollClose? then old(polls).Keys - {op.id} else old(polls).Keys
      ensures op.OpQueue? && op.fd in old(socks) ==>
        socks == old(socks) && socks[op.fd].log == old(socks[op.fd].log) + [op.ev]
      ensures forall fd :: fd in stale ==> MayBeStale(op, fd, fd in old(stale))
    {
      hide Ordered, Agreeing;
      aborted := false;
      match op {
        case OpOpen(fd, listener, sndWnd) =>
          if fd >= 0 && fd !in socks { Open(fd, listener, sndWnd); }
        case OpCreate(id) =>
          if id !in polls { Create(id); }
        case OpQueue(fd, ev) =>
          if Reports(ev) {
            var rc := Queue(fd, ev);
          } else {
            var rc := Silent(fd, ev);
          }
        case OpCtl(id, ctl, fd, events, happened) =>
          var r := Ctl(id, ctl, fd, events, happened);
          aborted := r == Abort;
        case OpWait(id, size) =>
          var fds := Wait(id, size);
        case OpClose(fd) =>
          var rc := Close(fd);
        case OpPollClose(id) =>
          var rc := ClosePoll(id);
      }
    }

    lemma PollerIs(p: Poll)
      requires p.Entries() && ReadyFirst(p.lru)
      ensures p.Valid()
    {
    }
  }

  ghost function ReadyOf(s: seq<Entry>): set<Entry>
    reads s
  {
    set e | e in s && e.happened != NONE
  }

  lemma {:induction false} ReadySet(s: seq<Entry>)
    requires NoDup(s)
    ensures |ReadyOf(s)| == Ready(s)
    decreases |s|
  {
    if s == [] {
      assert ReadyOf(s) == {};
    } else {
      var x, rest := s[0], s[1..];
      assert s == [x] + rest && x !in rest && NoDup(rest);
      ReadySet(rest);
      if x.happened == NONE {
        assert ReadyOf(s) == ReadyOf(rest);
      } else {
        assert ReadyOf(s) == ReadyOf(rest) + {x} && x !in ReadyOf(rest);
      }
    }
  }

  lemma SnapshotsAre(s: seq<Entry>)
    ensures |Snapshots(s)| == |s| && forall i :: 0 <= i < |s| ==> Snapshots(s)[i] == Snapshot(s[i])
  {
  }

  lemma NothingTwice()
    ensures NoDup<Entry>([]) && ReadyFirst([])
  {
  }

  twostate lemma SameReady(s: seq<Entry>)
    requires old(ReadyFirst(s)) && forall e :: e in s ==> e.happened == old(e.happened)
    ensures ReadyFirst(s)
  {
  }

  /** A listener that fails to accept: its poller has an XPOLLERR to report, and reports
      nothing. */
  method UnseenWitness() returns (sys: System, fds: seq<Fd>)
    ensures sys.Valid() && 2 in sys.polls && |sys.Happening(sys.polls[2])| == 1 && fds == []
  {
    hide System.Shape, System.Ordered, System.Agreeing, NoDup, ReadyFirst;
    hide ReadyOf, System.Happening, Socket.CheckPollevents, System.SockAgrees;
    ghost var e;
    sys, e := Watched(true, 0, Mask(false, false, true));
    sys.PollerIn(2);
    var rc := sys.Silent(1, AcceptFails);
    sys.PollerIn(2);
    assert e in Members(sys.polls[2]) && Snapshot(e).happened == NONE;
    Unseen(sys, e);
    fds := sys.Wait(2, 1);
  }

  /** A connector with a send queue over its window, which is then set above it: its poller
      has an XPOLLOUT to report, and reports nothing. */
  method WindowWitness() returns (sys: System, fds: seq<Fd>)
    ensures sys.Valid() && 2 in sys.polls && |sys.Happening(sys.polls[2])| == 1 && fds == []
  {
    hide System.Shape, System.Ordered, System.Agreeing, NoDup, ReadyFirst;
    hide ReadyOf, System.Happening, Socket.CheckPollevents, System.SockAgrees;
    ghost var e;
    sys, e := Watched(false, 10, Mask(false, true, false));
    sys.PollerIn(2);
    var rc := sys.Silent(1, SetWnd(100));
    sys.PollerIn(2);
    assert e in Members(sys.polls[2]) && Snapshot(e).happened == NONE;
    Unseen(sys, e);
    fds := sys.Wait(2, 1);
  }

  lemma Unseen(sys: System, e: Entry)
    requires sys.Valid() && 2 in sys.polls && Members(sys.polls[2]) == {e} && e.fd == 1 && 1 in sys.socks
    requires e.happened == NONE && e.events != NONE
    requires e.events == if sys.socks[1].listener then Mask(false, false, true) else Mask(false, true, false)
    requires sys.socks[1].Now() ==
      if sys.socks[1].listener then State([], 0, [], 0, true) else State([], 0, [20], 100, false)
    ensures sys.polls[2] in sys.pollers && ReadyOf(sys.polls[2].lru) == {} && sys.Happening(sys.polls[2]) == {e}
  {
    var p := sys.polls[2];
    sys.PollerIn(2);
    assert forall x :: x in p.lru <==> x in Members(p);
    SumSnoc([], 20);
    assert [] + [20] == [20];
    assert sys.socks[1].CheckPollevents(e.events) == e.events;
  }

  /** A socket, with one message to send if it is a connector, and what is polled of it. */
  method Watched(listener: bool, wnd: nat, interest: Mask) returns (sys: System, ghost e: Entry)
    requires wnd <= 20 && interest == if listener then Mask(false, false, true) else Mask(false, true, false)
    ensures sys.Valid() && fresh(sys.repr) && 1 in sys.socks && 2 in sys.polls && sys.socks[1].listener == listener
    ensures Members(sys.polls[2]) == {e} && e.fd == 1 && e.events == interest && e.happened == NONE
    ensures sys.socks[1].Now() == State([], 0, if listener then [] else [20], wnd, false)
  {
    hide System.Shape, System.Ordered, System.Agreeing, NoDup, ReadyFirst, Socket.CheckPollevents;
    sys := new System();
    sys.Open(1, listener, wnd);
    if !listener {
      var rc := sys.Queue(1, SndAdd(20));
      assert [] + [20] == [20];
    }
    sys.Create(2);
    sys.PollerIn(2);
    assert !Polled(sys.polls[2], 1) && Members(sys.polls[2]) == {};
    var r := sys.Ctl(2, XPOLL_ADD, 1, interest, NONE);
    e :| Members(sys.polls[2]) == {e} && e.fd == 1 && e.events == interest;
    sys.PollerIn(2);
    assert e in Members(sys.polls[2]);
    sys.ShownIs(sys.polls[2], e);
    SumSnoc([], 20);
  }
}
