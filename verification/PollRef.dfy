/** The life of one poll_entry and of the reference that xpoll_add holds on its socket
    (src/poll/poll_struct.c, src/poll/eventpoll.c, src/socket/sockbase.c, src/socket/close.c)
    under every interleaving of the threads using them. */
module PollRef {

  /** How far xpoll_add is: it holds the socket and the new entry, add_pollbase holds the
      socket too, the entry is on the socket's list, add_pollbase is back, all is done. */
  datatype Adder = Holding | Linking | Linked | Emitting | Done

  /** The entry: inPoll and inSock say whether it is on the poller's and on the socket's
      list, holders counts other threads with a reference they will put, lost those nobody
      will put. The socket: its count, whether the table still has it, whether it still
      has the reference of its creation, how many other threads hold it, and whether
      sockbase_exit is through. */
  datatype Life = Life(ref: int, inPoll: bool, inSock: bool, holders: nat, lost: nat, destroyed: nat,
                       adder: Adder, sockRef: int, slot: bool, open: bool, sockHolders: nat, gone: bool)

  datatype Step =
    | AddGet        // xget in add_pollbase finds the socket
    | AttachFails   // xget in add_pollbase finds none: xpoll_add forgets its reference
    | Attach        // the adder's reference becomes that of the socket's list
    | AddPut        // xput in add_pollbase
    | AddDone       // xput in xpoll_add
    | Get           // get_poll_entry
    | Unlink        // rm_poll_entry takes it off the poller's list, to put it afterwards
    | EmitUnlinked  // xpollbase_emit finds it off the poller's list and takes it off the socket's;
                    // the transport may report events until sockbase_exit
    | Put           // poll_entry_put by a thread that holds a reference
    | SockGet       // xget by some other thread
    | SockPut       // xput by some other thread
    | Clear         // the thread whose xput was the last takes the socket out of the table
    | Exit          // and its close ends in sockbase_exit
    | Close         // __xclose: the entry leaves the socket's list, the reference of its
                    // creation passes to the closing thread; a socket is closed once

  /** After add_poll_entry in xpoll_add: one reference for the poller's list, one for the
      adder; the socket is in the table, with n other holders. */
  function Fresh(open: bool, n: nat): Life {
    Life(2, true, false, 0, 0, 0, Holding, 1 + One(open) + n, true, open, n, false)
  }

  /** xget needs the table entry. */
  predicate Enabled(s: Life, step: Step) {
    match step
    case AddGet => s.adder.Holding? && s.slot
    case AttachFails => s.adder.Holding? && !s.slot
    case Attach => s.adder.Linking?
    case AddPut => s.adder.Linked?
    case AddDone => s.adder.Emitting?
    case Get => s.inPoll
    case Unlink => s.inPoll
    case EmitUnlinked => s.inSock && !s.inPoll && !s.gone
    case Put => s.holders > 0
    case SockGet => s.slot
    case SockPut => s.sockHolders > 0
    case Clear => s.slot && s.sockRef == 0
    case Exit => !s.slot && !s.gone
    case Close => s.open
  }

  /** The BUG_ONs: in poll_entry_put a negative count or destroying a listed entry, in
      add_pollbase an entry that is listed already, in xget a socket in the table without
      references, in sockbase_exit an entry still on the socket's list. */
  predicate Trips(s: Life, step: Step) {
    match step
    case Put => s.ref - 1 < 0 || (s.ref == 1 && s.inPoll)
    case Attach => s.inSock
    case AddGet => s.sockRef == 0
    case SockGet => s.sockRef == 0
    case Exit => s.inSock
    case _ => false
  }

  function Do(s: Life, step: Step): Life
    requires Enabled(s, step)
  {
    match step
    case AddGet => s.(adder := Linking, sockRef := s.sockRef + 1)
    case AttachFails => s.(adder := Emitting, lost := s.lost + 1)
    case Attach => s.(adder := Linked, inSock := true)
    case AddPut => s.(adder := Emitting, sockRef := s.sockRef - 1)
    case AddDone => s.(adder := Done, sockRef := s.sockRef - 1)
    case Get => s.(ref := s.ref + 1, holders := s.holders + 1)
    case Unlink => s.(inPoll := false, holders := s.holders + 1)
    case EmitUnlinked => s.(inSock := false, holders := s.holders + 1)
    case Put =>
      s.(ref := s.ref - 1, holders := s.holders - 1, destroyed := if s.ref == 1 then s.destroyed + 1 else s.destroyed)
    case SockGet => s.(sockRef := s.sockRef + 1, sockHolders := s.sockHolders + 1)
    case SockPut => s.(sockRef := s.sockRef - 1, sockHolders := s.sockHolders - 1)
    case Clear => s.(slot := false)
    case Exit => s.(gone := true)
    case Close =>
      s.(open := false, sockHolders := s.sockHolders + 1, inSock := false,
         holders := if s.inSock then s.holders + 1 else s.holders)
  }

  function One(b: bool): nat {
    if b then 1 else 0
  }

  /** Bug says at which step a BUG_ON fired. */
  datatype Outcome = Reached(s: Life) | Stuck | Bug(step: Step)

  function Next(r: Outcome, step: Step): Outcome {
    match r
    case Reached(t) => if !Enabled(t, step) then Stuck else if Trips(t, step) then Bug(step) else Reached(Do(t, step))
    case _ => r
  }

  function Run(s: Life, steps: seq<Step>): Outcome
    decreases |steps|
  {
    if steps == [] then Reached(s) else Next(Run(s, steps[..|steps| - 1]), steps[|steps| - 1])
  }

  /** The adder's references on the entry and on the socket. */
  function AdderHas(a: Adder): nat {
    One(a.Holding? || a.Linking?)
  }

  function AdderHasSock(a: Adder): nat {
    match a
    case Holding => 1
    case Linking => 2
    case Linked => 2
    case Emitting => 1
    case Done => 0
  }

  predicate Inv(s: Life) {
    && s.lost == 0 && s.ref == One(s.inPoll) + One(s.inSock) + AdderHas(s.adder) + s.holders
    && s.destroyed == One(s.ref == 0) && (AdderHas(s.adder) == 1 ==> !s.inSock)
    && s.sockRef == One(s.open) + s.sockHolders + AdderHasSock(s.adder) && (!s.slot ==> s.sockRef == 0)
    && (s.gone ==> !s.slot && !s.inSock)
  }

  lemma {:induction false} StepInv(s: Life, step: Step)
    requires Inv(s) && Enabled(s, step)
    ensures Trips(s, step) ==> (step.Exit? && s.inSock) || (step.SockGet? && s.sockRef == 0)
    ensures !Trips(s, step) ==> Inv(Do(s, step))
  {
    match step {
      case Close =>
      case Put =>
      case _ =>
    }
  }

  /** The entry's count is membership in the two lists plus the threads that hold it, the
      socket's likewise, and no BUG_ON fires but those of sockbase_exit and of xget. */
  lemma {:induction false} Counted(open: bool, n: nat, steps: seq<Step>)
    ensures var r := Run(Fresh(open, n), steps); r.Bug? ==> r.step.Exit? || r.step.SockGet?
    ensures Run(Fresh(open, n), steps).Reached? ==> Inv(Run(Fresh(open, n), steps).s)
    decreases |steps|
  {
    hide Inv, Do, Trips, Enabled;
    if steps == [] {
      Starts(open, n);
    } else {
      Counted(open, n, steps[..|steps| - 1]);
      var r := Run(Fresh(open, n), steps[..|steps| - 1]);
      if r.Reached? && Enabled(r.s, steps[|steps| - 1]) {
        StepInv(r.s, steps[|steps| - 1]);
      }
    }
  }

  lemma Starts(open: bool, n: nat)
    ensures Inv(Fresh(open, n))
  {
  }

  /** xpoll_add's own reference keeps the socket in the table: add_pollbase never fails. */
  lemma AttachNeverFails(open: bool, n: nat, steps: seq<Step>)
    requires Run(Fresh(open, n), steps).Reached?
    ensures !Enabled(Run(Fresh(open, n), steps).s, AttachFails)
  {
    Counted(open, n, steps);
  }

  /** What the other BUG_ONs ask for, in every reachable state: a thread that holds the
      entry may put it, and frees no listed entry; the adder's socket is in the table with
      references, and its entry is on no socket's list yet. */
  lemma OthersHold(open: bool, n: nat, steps: seq<Step>)
    requires Run(Fresh(open, n), steps).Reached?
    ensures var s := Run(Fresh(open, n), steps).s;
      && (s.holders > 0 ==> s.ref >= 1 && (s.ref == 1 ==> !s.inPoll))
      && (s.adder.Holding? ==> s.slot && s.sockRef > 0) && (s.adder.Linking? ==> !s.inSock)
  {
    Counted(open, n, steps);
  }

  // ---------------------------------------------------- when a BUG_ON fires

  /** The entry was put on the socket's list at step k and not taken off since. */
  predicate AttachedAt(steps: seq<Step>, k: nat)
    requires k < |steps|
  {
    steps[k] == Attach && Close !in steps[k..] && EmitUnlinked !in steps[k..]
  }

  /** The entry is on the socket's list, going by the steps alone. */
  predicate Listed(steps: seq<Step>) {
    exists k :: 0 <= k < |steps| && AttachedAt(steps, k)
  }

  lemma ListedSnoc(steps: seq<Step>, last: Step)
    ensures Listed(steps + [last]) <==> last.Attach? || (Listed(steps) && !last.Close? && !last.EmitUnlinked?)
  {
    var all := steps + [last];
    assert all[|steps|..] == [last];
    assert last.Attach? ==> AttachedAt(all, |steps|);
    forall k | 0 <= k < |steps|
      ensures AttachedAt(all, k) <==> AttachedAt(steps, k) && !last.Close? && !last.EmitUnlinked?
    {
      assert all[k..] == steps[k..] + [last];
    }
  }

  /** The flags of the state are what the steps say. */
  lemma {:induction false} History(open: bool, n: nat, steps: seq<Step>)
    requires Run(Fresh(open, n), steps).Reached?
    ensures var s := Run(Fresh(open, n), steps).s;
      (s.open <==> open && Close !in steps) && (s.inSock <==> Listed(steps)) && (s.gone <==> Exit in steps)
    decreases |steps|
  {
    hide Listed, Do, Enabled, Trips;
    if steps == [] {
      NotListed();
    } else {
      var before, last := steps[..|steps| - 1], steps[|steps| - 1];
      History(open, n, before);
      assert steps == before + [last];
      ListedSnoc(before, last);
      Flags(Run(Fresh(open, n), before).s, last);
    }
  }

  lemma Flags(s: Life, step: Step)
    requires Enabled(s, step)
    ensures Do(s, step).open <==> s.open && !step.Close?
    ensures Do(s, step).inSock <==> step.Attach? || (s.inSock && !step.Close? && !step.EmitUnlinked?)
    ensures Do(s, step).gone <==> s.gone || step.Exit?
  {
  }

  lemma NotListed()
    ensures !Listed([])
  {
  }

  /** The run gets to step i, with nothing stopping it before, and the step is possible. */
  predicate GetsTo(s: Life, steps: seq<Step>, i: nat)
    requires i < |steps|
  {
    Run(s, steps[..i]).Reached? && Enabled(Run(s, steps[..i]).s, steps[i])
  }

  lemma {:induction false} BugAt(s: Life, steps: seq<Step>, x: Step)
    ensures Run(s, steps) == Bug(x) <==>
      exists i :: 0 <= i < |steps| && steps[i] == x && GetsTo(s, steps, i) && Trips(Run(s, steps[..i]).s, x)
    decreases |steps|
  {
    hide Enabled, Trips, Do;
    if steps != [] {
      var before, last := steps[..|steps| - 1], steps[|steps| - 1];
      BugAt(s, before, x);
      forall i | 0 <= i < |before|
        ensures steps[..i] == before[..i] && (GetsTo(s, steps, i) <==> GetsTo(s, before, i))
      {
        assert steps[..i] == before[..i];
      }
    }
  }

  /** Step i is sockbase_exit on a socket whose list the entry joined after xclose had
      emptied it, and has not left since. */
  predicate Straggler(open: bool, steps: seq<Step>, i: nat)
    requires i < |steps|
  {
    steps[i] == Exit && exists k :: 0 <= k < i && AttachedAt(steps[..i], k) && (!open || Close in steps[..k])
  }

  /** For all runs: the BUG_ON of sockbase_exit fires if and only if the run gets to the
      exit of a socket to which the entry was attached after xclose. */
  lemma {:induction false} ExitTrips(open: bool, n: nat, steps: seq<Step>)
    ensures Run(Fresh(open, n), steps) == Bug(Exit) <==>
      exists i :: 0 <= i < |steps| && GetsTo(Fresh(open, n), steps, i) && Straggler(open, steps, i)
  {
    var s := Fresh(open, n);
    BugAt(s, steps, Exit);
    forall i | 0 <= i < |steps| && GetsTo(s, steps, i) && steps[i] == Exit
      ensures Trips(Run(s, steps[..i]).s, Exit) <==> Straggler(open, steps, i)
    {
      ExitFires(open, n, steps, i);
    }
  }

  lemma {:induction false} ExitFires(open: bool, n: nat, steps: seq<Step>, i: nat)
    requires i < |steps| && GetsTo(Fresh(open, n), steps, i) && steps[i] == Exit
    ensures Run(Fresh(open, n), steps[..i]).s.inSock <==> Straggler(open, steps, i)
  {
    hide Run, Do;
    var before := steps[..i];
    Counted(open, n, before);
    History(open, n, before);
    assert open ==> Close in before;
    forall k | 0 <= k < i && AttachedAt(before, k) ensures !open || Close in steps[..k] {
      assert before == before[..k] + before[k..] && before[..k] == steps[..k];
    }
  }

  /** The BUG_ON of xget fires if and only if some thread calls it between the last xput
      and the clearing of the socket's slot. */
  lemma {:induction false} GetTrips(open: bool, n: nat, steps: seq<Step>)
    ensures Run(Fresh(open, n), steps) == Bug(SockGet) <==>
      exists i :: 0 <= i < |steps| && steps[i] == SockGet && GetsTo(Fresh(open, n), steps, i)
        && Run(Fresh(open, n), steps[..i]).s.sockRef == 0
  {
    BugAt(Fresh(open, n), steps, SockGet);
  }

  /** Nobody attaches or looks up the socket after xclose. */
  predicate Orderly(steps: seq<Step>) {
    forall j, k :: 0 <= j < k < |steps| && steps[j] == Close ==> steps[k] != Attach && steps[k] != SockGet
  }

  /** What a caller can see to: then no run trips any BUG_ON. */
  lemma {:induction false} NoBug(n: nat, steps: seq<Step>)
    requires Orderly(steps)
    ensures !Run(Fresh(true, n), steps).Bug?
  {
    var s := Fresh(true, n);
    Counted(true, n, steps);
    ExitTrips(true, n, steps);
    GetTrips(true, n, steps);
    forall i | 0 <= i < |steps| ensures !Straggler(true, steps, i) {
      forall k | 0 <= k < i && AttachedAt(steps[..i], k) ensures Close !in steps[..k] {
        assert steps[k] == Attach;
      }
    }
    forall i | 0 <= i < |steps| && steps[i] == SockGet && GetsTo(s, steps, i)
      ensures Run(s, steps[..i]).s.sockRef > 0
    {
      Counted(true, n, steps[..i]);
      History(true, n, steps[..i]);
      assert Close !in steps[..i];
    }
  }

  /** xclose, and only then the attach of an xpoll_add that was under way. */
  lemma StragglerWitness()
    ensures Run(Fresh(true, 0), [Close, AddGet, Attach, AddPut, AddDone, SockPut, Clear, Exit]) == Bug(Exit)
  {
    hide Run;
    var s := Fresh(true, 0);
    LateAttach();
    var a, b := Runs(s, [Close, AddGet, Attach, AddPut], LATE, AddDone);
    a, b := Runs(s, a, b, SockPut);
    a, b := Runs(s, a, b, Clear);
    RunSnoc(s, a, Exit);
    assert a + [Exit] == [Close, AddGet, Attach, AddPut, AddDone, SockPut, Clear, Exit];
  }

  /** The closing thread is the socket's last holder but the adder; the entry is listed. */
  const LATE := Life(2, true, true, 0, 0, 0, Emitting, 2, true, false, 1, false)

  lemma LateAttach()
    ensures Run(Fresh(true, 0), [Close, AddGet, Attach, AddPut]) == Reached(LATE)
  {
    hide Run;
    var s := Fresh(true, 0);
    RunNone(s);
    var a, b := Runs(s, [], s, Close);
    a, b := Runs(s, a, b, AddGet);
    a, b := Runs(s, a, b, Attach);
    a, b := Runs(s, a, b, AddPut);
    assert a == [Close, AddGet, Attach, AddPut];
  }

  lemma RunNone(s: Life)
    ensures Run(s, []) == Reached(s)
  {
  }

  lemma RunSnoc(s: Life, steps: seq<Step>, step: Step)
    ensures Run(s, steps + [step]) == Next(Run(s, steps), step)
  {
    assert (steps + [step])[..|steps|] == steps;
  }

  lemma Runs(s: Life, steps: seq<Step>, t: Life, step: Step) returns (more: seq<Step>, u: Life)
    requires Run(s, steps) == Reached(t) && Enabled(t, step) && !Trips(t, step)
    ensures more == steps + [step] && u == Do(t, step) && Run(s, more) == Reached(u)
  {
    RunSnoc(s, steps, step);
    more, u := steps + [step], Do(t, step);
  }

  // --------------------------------------------------------- end of the entry

  /** In every run the entry is destroyed exactly once: never while anything refers to it,
      and as soon as nothing does; so once the socket and the poller are done with it and
      no thread holds it, it has been. And threads can always put what they hold. */
  lemma DestroyedOnce(open: bool, n: nat, steps: seq<Step>)
    requires Run(Fresh(open, n), steps).Reached?
    ensures var s := Run(Fresh(open, n), steps).s;
      && s.destroyed == (if s.inPoll || s.inSock || AdderHas(s.adder) == 1 || s.holders > 0 then 0 else 1)
      && (Exit in steps && !s.inPoll && s.holders == 0 ==> s.destroyed == 1)
      && (s.holders > 0 ==> Enabled(s, Put) && !Trips(s, Put) && Do(s, Put).holders == s.holders - 1)
  {
    Counted(open, n, steps);
    History(open, n, steps);
  }

  /** No step that reads or writes a destroyed entry is possible; those that are leave it
      alone. */
  lemma NoUseAfter(open: bool, n: nat, steps: seq<Step>, step: Step)
    requires Run(Fresh(open, n), steps).Reached? && Run(Fresh(open, n), steps).s.destroyed == 1
    requires Enabled(Run(Fresh(open, n), steps).s, step)
    ensures step in {AddPut, AddDone, SockGet, SockPut, Clear, Exit, Close}
    ensures var s := Run(Fresh(open, n), steps).s;
      var t := Do(s, step);
      t.(adder := s.adder, sockRef := s.sockRef, slot := s.slot, open := s.open, sockHolders := s.sockHolders,
         gone := s.gone) == s
  {
    Counted(open, n, steps);
  }
}
