/** The weighted round-robin load balancer (src/sp/reqrep/lbs_rrbin.c). */
module Rrbin {

  /** A target with its struct rrbin_entry. */
  datatype Ent<T> = Ent(tg: T, origin: int, current: int)

  /** weight_rrbin_select on a non-empty list: the first target is picked; when its
      counter runs out it is refilled and moves to the tail. */
  function Selected<T>(q: seq<Ent<T>>): (r: seq<Ent<T>>)
    ensures |r| == |q|
  {
    if q == [] then q
    else
      var current := q[0].current - 1;
      if current <= 0 then q[1..] + [q[0].(current := q[0].origin)] else [q[0].(current := current)] + q[1..]
  }

  /** The list after n selections and the targets they pick. */
  function Run<T>(q: seq<Ent<T>>, n: nat): (r: seq<Ent<T>>)
    ensures |r| == |q|
    decreases n
  {
    if n == 0 then q else Run(Selected(q), n - 1)
  }

  function Picks<T>(q: seq<Ent<T>>, n: nat): (r: seq<T>)
    requires q != []
    ensures |r| == n
    decreases n
  {
    if n == 0 then [] else [q[0].tg] + Picks(Selected(q), n - 1)
  }

  lemma {:induction false} RunAdd<T>(q: seq<Ent<T>>, m: nat, n: nat)
    ensures Run(q, m + n) == Run(Run(q, m), n)
    ensures q != [] ==> Picks(q, m + n) == Picks(q, m) + Picks(Run(q, m), n)
    decreases m
  {
    hide Selected;
    if m == 0 {
      assert q != [] ==> [] + Picks(q, n) == Picks(q, n);
    } else {
      RunAdd(Selected(q), m - 1, n);
    }
  }

  /** How often a target is still picked before it goes to the tail, and how often
      after it has been refilled. A weight below 1 counts as 1. */
  function Left<T>(e: Ent<T>): nat {
    if e.current < 1 then 1 else e.current
  }

  function Turns<T>(e: Ent<T>): nat {
    if e.origin < 1 then 1 else e.origin
  }

  function Refilled<T>(q: seq<Ent<T>>): (r: seq<Ent<T>>)
    ensures |r| == |q|
  {
    seq(|q|, i requires 0 <= i < |q| => q[i].(current := q[i].origin))
  }

  function LeftAll<T>(q: seq<Ent<T>>): nat {
    if q == [] then 0 else Left(q[0]) + LeftAll(q[1..])
  }

  function Repeat<T>(x: T, n: nat): (r: seq<T>)
    ensures |r| == n
  {
    seq(n, i => x)
  }

  /** What one pass over the list picks. */
  function Pass<T>(q: seq<Ent<T>>): seq<T> {
    if q == [] then [] else Repeat(q[0].tg, Left(q[0])) + Pass(q[1..])
  }

  /** The head is picked until its counter runs out. */
  lemma {:induction false} UseUp<T>(e: Ent<T>, rest: seq<Ent<T>>)
    ensures Run([e] + rest, Left(e)) == rest + [e.(current := e.origin)]
    ensures Picks([e] + rest, Left(e)) == Repeat(e.tg, Left(e))
    decreases Left(e)
  {
    var q := [e] + rest;
    assert q[1..] == rest;
    if e.current > 1 {
      var e' := e.(current := e.current - 1);
      UseUp(e', rest);
      assert Selected(q) == [e'] + rest;
      assert [e.tg] + Repeat(e.tg, Left(e')) == Repeat(e.tg, Left(e));
    } else {
      assert Run(q, 1) == Run(Selected(q), 0);
      assert Picks(q, 1) == [e.tg] + Picks(Selected(q), 0);
    }
  }

  /** From any counters at all: one pass picks each target Left times, in order, and
      ends with the same order and every counter full. */
  lemma {:induction false} OnePass<T>(q: seq<Ent<T>>, done: seq<Ent<T>>)
    requires q + done != []
    ensures Run(q + done, LeftAll(q)) == done + Refilled(q) && Picks(q + done, LeftAll(q)) == Pass(q)
    decreases |q|
  {
    hide Selected, Run, Picks;
    if q == [] {
      NoRun(done);
      assert q + done == done == done + Refilled(q);
    } else {
      var e, rest := q[0], q[1..];
      var done' := done + [e.(current := e.origin)];
      assert q + done == [e] + (rest + done);
      UseUp(e, rest + done);
      assert (rest + done) + [e.(current := e.origin)] == rest + done';
      OnePass(rest, done');
      RunAdd(q + done, Left(e), LeftAll(rest));
      assert done' + Refilled(rest) == done + Refilled(q);
    }
  }

  // ------------------------------------------------------ weighted fairness

  function Count<T(==)>(s: seq<T>, x: T): nat {
    if s == [] then 0 else (if s[0] == x then 1 else 0) + Count(s[1..], x)
  }

  lemma {:induction false} CountConcat<T>(s: seq<T>, t: seq<T>, x: T)
    ensures Count(s + t, x) == Count(s, x) + Count(t, x)
  {
    if s == [] {
      assert s + t == t;
    } else {
      assert (s + t)[1..] == s[1..] + t;
      CountConcat(s[1..], t, x);
    }
  }

  lemma {:induction false} CountRepeat<T>(y: T, n: nat, x: T)
    ensures Count(Repeat(y, n), x) == if y == x then n else 0
  {
    if n > 0 {
      assert Repeat(y, n)[1..] == Repeat(y, n - 1);
      CountRepeat(y, n - 1, x);
    }
  }

  predicate Distinct<T(==)>(q: seq<Ent<T>>) {
    forall i, j :: 0 <= i < j < |q| ==> q[i].tg != q[j].tg
  }

  lemma {:induction false} CountPass<T>(q: seq<Ent<T>>, x: T)
    requires Distinct(q)
    ensures (forall i :: 0 <= i < |q| ==> q[i].tg != x) ==> Count(Pass(q), x) == 0
    ensures forall i :: 0 <= i < |q| && q[i].tg == x ==> Count(Pass(q), x) == Left(q[i])
  {
    if q != [] {
      var rest := q[1..];
      CountConcat(Repeat(q[0].tg, Left(q[0])), Pass(rest), x);
      CountRepeat(q[0].tg, Left(q[0]), x);
      CountPass(rest, x);
      forall i | 0 < i < |q| ensures q[i] == rest[i - 1] {}
    }
  }

  /** Every counter but the first target's is full, and that one is on its turn. */
  predicate InTurn<T>(q: seq<Ent<T>>) {
    q != [] && (forall i :: 1 <= i < |q| ==> q[i].current == q[i].origin)
    && (q[0].current == q[0].origin || 1 <= q[0].current < q[0].origin)
  }

  function TurnsAll<T>(q: seq<Ent<T>>): nat {
    if q == [] then 0 else Turns(q[0]) + TurnsAll(q[1..])
  }

  lemma {:induction false} FullTurns<T>(q: seq<Ent<T>>)
    requires forall i :: 0 <= i < |q| ==> q[i].current == q[i].origin
    ensures LeftAll(q) == TurnsAll(q) && Refilled(q) == q
  {
    if q != [] { FullTurns(q[1..]); }
  }

  /** A list whose head is on its turn is one that was full some picks ago. */
  lemma {:induction false} Rewind<T>(e: Ent<T>, rest: seq<Ent<T>>, k: nat)
    requires 1 <= e.current && e.origin == e.current + k
    ensures Run([e.(current := e.origin)] + rest, k) == [e] + rest
    decreases k
  {
    var full := [e.(current := e.origin)] + rest;
    if k > 0 {
      var up := e.(current := e.current + 1);
      Rewind(up, rest, k - 1);
      RunAdd(full, k - 1, 1);
      assert ([up] + rest)[1..] == rest;
      assert Run([up] + rest, 1) == Run(Selected([up] + rest), 0) == [e] + rest;
    } else {
      assert e.(current := e.origin) == e;
    }
  }

  lemma FairFromFull<T>(q: seq<Ent<T>>, i: nat)
    requires Distinct(q) && i < |q| && forall j :: 0 <= j < |q| ==> q[j].current == q[j].origin
    ensures Run(q, TurnsAll(q)) == q && Count(Picks(q, TurnsAll(q)), q[i].tg) == Turns(q[i])
  {
    assert q + [] == q && [] + Refilled(q) == Refilled(q);
    OnePass(q, []);
    FullTurns(q);
    CountPass(q, q[i].tg);
  }

  /** A cycle is a cycle from each of its points, with the same picks. */
  lemma Shift<T>(full: seq<Ent<T>>, k: nat, total: nat, x: T)
    requires full != [] && Run(full, total) == full
    ensures var q := Run(full, k); Run(q, total) == q && Count(Picks(q, total), x) == Count(Picks(full, total), x)
  {
    hide Run, Picks, Selected, Count;
    var q := Run(full, k);
    RunAdd(full, k, total);
    RunAdd(full, total, k);
    CountConcat(Picks(full, k), Picks(q, total), x);
    CountConcat(Picks(full, total), Picks(full, k), x);
  }

  /** Any run of as many selections as the weights add up to, started at any point of a
      turn, picks each target exactly its weight times and restores the list. */
  lemma {:induction false} Fair<T>(q: seq<Ent<T>>, i: nat)
    requires InTurn(q) && Distinct(q) && i < |q|
    ensures Run(q, TurnsAll(q)) == q && Count(Picks(q, TurnsAll(q)), q[i].tg) == Turns(q[i])
  {
    hide Picks, Selected, Count, Run;
    var e, rest := q[0], q[1..];
    var full := [e.(current := e.origin)] + rest;
    var k := if e.current == e.origin then 0 else e.origin - e.current;
    assert q == [e] + rest && full[1..] == rest && full[i].tg == q[i].tg;
    if k > 0 { Rewind(e, rest, k); } else { NoRun(q); }
    assert Run(full, k) == q;
    FairFromFull(full, i);
    Shift(full, k, TurnsAll(q), q[i].tg);
  }

  lemma NoRun<T>(q: seq<Ent<T>>)
    ensures Run(q, 0) == q && (q != [] ==> Picks(q, 0) == [])
  {
  }

  /** Whatever the counters and weights are set to, after one pass the list is in turn. */
  lemma Settles<T>(q: seq<Ent<T>>)
    requires q != []
    ensures Run(q, LeftAll(q)) == Refilled(q) && InTurn(Refilled(q))
  {
    assert q + [] == q && [] + Refilled(q) == Refilled(q);
    OnePass(q, []);
  }

  // ------------------------------------------------------------ the balancer

  class Target {
    const fd: int
    var originWeight: int
    var currentWeight: int

    constructor (fd: int)
      ensures this.fd == fd && originWeight == 1 && currentWeight == 1
    {
      this.fd, originWeight, currentWeight := fd, 1, 1;
    }
  }

  class RrbinLbs {
    var head: seq<Target>

    ghost predicate Valid()
      reads this
    {
      forall i, j :: 0 <= i < j < |head| ==> head[i] != head[j]
    }

    ghost function State(): (q: seq<Ent<Target>>)
      reads this, head
      ensures |q| == |head|
    {
      seq(|head|, i requires 0 <= i < |head| reads this, head =>
        Ent(head[i], head[i].originWeight, head[i].currentWeight))
    }

    constructor ()
      ensures Valid() && State() == []
    {
      head := [];
    }

    /** weight_rrbin_add. */
    method Add(tg: Target)
      requires Valid() && tg !in head
      modifies this, tg
      ensures Valid() && State() == old(State()) + [Ent(tg, 1, 1)]
    {
      tg.originWeight, tg.currentWeight := 1, 1;
      head := head + [tg];
    }

    /** weight_rrbin_rm. */
    method Rm(tg: Target)
      requires Valid() && tg in head
      modifies this
      ensures Valid()
      ensures exists i ::
        0 <= i < |old(head)| && old(head)[i] == tg && State() == old(State())[..i] + old(State())[i + 1..]
    {
      var i :| 0 <= i < |head| && head[i] == tg;
      ghost var was := State();
      ghost var list := head;
      head := head[..i] + head[i + 1..];
      assert State() == was[..i] + was[i + 1..];
      assert list[i] == tg;
    }

    /** weight_rrbin_select. */
    method Select() returns (tg: Target?)
      requires Valid()
      modifies this, head
      ensures Valid() && State() == Selected(old(State()))
      ensures tg == if old(State()) == [] then null else old(State())[0].tg
    {
      if head == [] {
        return null;
      }
      tg := head[0];
      tg.currentWeight := tg.currentWeight - 1;
      if tg.currentWeight <= 0 {
        tg.currentWeight := tg.originWeight;
        head := head[1..] + [tg];
      }
    }

    /** The target with this file descriptor, if any. */
    method FindTarget(connectors: seq<Target>, fd: int) returns (tg: Target?)
      ensures tg == null <==> forall t :: t in connectors ==> t.fd != fd
      ensures tg != null ==> tg in connectors && tg.fd == fd
    {
      var i := 0;
      while i < |connectors|
        invariant 0 <= i <= |connectors| && forall k :: 0 <= k < i ==> connectors[k].fd != fd
      {
        if connectors[i].fd == fd {
          return connectors[i];
        }
        i := i + 1;
      }
      tg := null;
    }

    /** set_rrbin_weight: refused for another balancer; the running counter stays. */
    method SetWeight(connectors: seq<Target>, rrbin: bool, fd: int, weight: int) returns (rc: int)
      requires Valid() && forall t :: t in connectors <==> t in head
      requires forall i, j :: 0 <= i < j < |head| ==> head[i].fd != head[j].fd
      modifies head
      ensures Valid() && head == old(head) && rc == if rrbin then 0 else -1
      ensures forall i :: 0 <= i < |head| ==>
        State()[i] == if rrbin && head[i].fd == fd then old(State())[i].(origin := weight) else old(State())[i]
    {
      if !rrbin {
        return -1;
      }
      var tg := FindTarget(connectors, fd);
      if tg != null {
        tg.originWeight := weight;
      }
      rc := 0;
    }
  }
}
