/** Scatter lists and partial sends (msgbuf_serialize, __msgbuf_install_iovs and the
    queue walks of src/msgbuf/msgbuf_head.c), as functions on message values. */
module MsgSend {
  import opened Bufio
  import opened MsgTree
  import opened MsgParse

  // ------------------------------------------------------- what is pending

  /** soff within bounds everywhere. */
  predicate Sane(m: Msg)
    decreases m, 1
  {
    FieldsFit(m) && m.soff <= Len(m) && SaneAll(m.subs)
  }

  predicate SaneAll(ms: seq<Msg>)
    decreases ms, 0
  {
    ms == [] || (Sane(ms[0]) && SaneAll(ms[1..]))
  }

  /** The unsent bytes of a tree, pre-order. */
  function Pending(m: Msg): seq<Byte>
    requires Sane(m)
    decreases m, 1
  {
    Own(m)[m.soff..] + PendingAll(m.subs)
  }

  function PendingAll(ms: seq<Msg>): seq<Byte>
    requires SaneAll(ms)
    decreases ms, 0
  {
    if ms == [] then [] else Pending(ms[0]) + PendingAll(ms[1..])
  }

  // -------------------------------------------------------- scatter lists

  /** msgbuf_serialize: at most n pieces, none empty. */
  function Serialize(m: Msg, n: nat): (p: seq<seq<Byte>>)
    requires Sane(m)
    ensures |p| <= n
    decreases m, 1
  {
    if n == 0 then []
    else
      var own := Own(m)[m.soff..];
      var first := if own == [] then [] else [own];
      first + SerializeAll(m.subs, n - |first|)
  }

  /** The walk over a list of messages, ending when n pieces are installed. */
  function SerializeAll(ms: seq<Msg>, n: nat): (p: seq<seq<Byte>>)
    requires SaneAll(ms)
    ensures |p| <= n
    decreases ms, 0
  {
    if ms == [] then []
    else
      var p := Serialize(ms[0], n);
      if |p| == n then p else p + SerializeAll(ms[1..], n - |p|)
  }

  function Concat(p: seq<seq<Byte>>): seq<Byte> {
    if p == [] then [] else p[0] + Concat(p[1..])
  }

  lemma {:induction false} ConcatPlus(p: seq<seq<Byte>>, q: seq<seq<Byte>>)
    ensures Concat(p + q) == Concat(p) + Concat(q)
  {
    if p == [] {
      assert p + q == q;
    } else {
      assert (p + q)[1..] == p[1..] + q && (p + q)[0] == p[0];
      ConcatPlus(p[1..], q);
      SeqAssoc(p[0], Concat(p[1..]), Concat(q));
    }
  }

  predicate NoEmpty(p: seq<seq<Byte>>) {
    forall i :: 0 <= i < |p| ==> p[i] != []
  }

  /** The pieces are the start of the pending bytes: all of them, or exactly n pieces. */
  predicate Describes(p: seq<seq<Byte>>, n: nat, all: seq<Byte>) {
    |p| <= n && NoEmpty(p) && Concat(p) <= all && (|p| < n ==> Concat(p) == all)
  }

  lemma DescribesPlus(p: seq<seq<Byte>>, q: seq<seq<Byte>>, n: nat, a: seq<Byte>, b: seq<Byte>)
    requires Describes(p, n, a) && |p| < n && Describes(q, n - |p|, b)
    ensures Describes(p + q, n, a + b)
  {
    ConcatPlus(p, q);
  }

  lemma {:induction false} SerializeDescribes(m: Msg, n: nat)
    requires Sane(m)
    ensures Describes(Serialize(m, n), n, Pending(m))
    decreases m, 1
  {
    if n > 0 {
      var own := Own(m)[m.soff..];
      var first := if own == [] then [] else [own];
      assert Concat(first) == own;
      if |first| < n {
        SerializeAllDescribes(m.subs, n - |first|);
        DescribesPlus(first, SerializeAll(m.subs, n - |first|), n, own, PendingAll(m.subs));
      } else {
        assert SerializeAll(m.subs, 0) == [];
        assert first + [] == first;
      }
    }
  }

  lemma {:induction false} SerializeAllDescribes(ms: seq<Msg>, n: nat)
    requires SaneAll(ms)
    ensures Describes(SerializeAll(ms, n), n, PendingAll(ms))
    decreases ms, 0
  {
    if ms != [] {
      var p := Serialize(ms[0], n);
      SerializeDescribes(ms[0], n);
      if |p| < n {
        SerializeAllDescribes(ms[1..], n - |p|);
        DescribesPlus(p, SerializeAll(ms[1..], n - |p|), n, Pending(ms[0]), PendingAll(ms[1..]));
      }
    }
  }

  // --------------------------------------------- recording what was accepted

  /** What __msgbuf_install_iovs leaves: the message, the bytes still to account for,
      and its return value. */
  datatype Installed = Installed(msg: Msg, left: nat, ret: nat)
  datatype InstalledAll = InstalledAll(msgs: seq<Msg>, left: nat, sum: nat)

  function Install(m: Msg, k: nat): (r: Installed)
    requires Sane(m)
    decreases m, 1
  {
    var room := Len(m) - m.soff;
    var diff := if k > room then room else k;
    var m' := m.(soff := m.soff + diff);
    if k - diff == 0 then Installed(m', 0, m'.soff)
    else
      var r := InstallAll(m.subs, k - diff);
      Installed(m'.(subs := r.msgs), r.left, m'.soff + r.sum)
  }

  function InstallAll(ms: seq<Msg>, k: nat): (r: InstalledAll)
    requires SaneAll(ms)
    ensures |r.msgs| == |ms|
    decreases ms, 0
  {
    if ms == [] then InstalledAll([], k, 0)
    else
      var a := Install(ms[0], k);
      if a.left == 0 then InstalledAll([a.msg] + ms[1..], 0, a.ret)
      else
        var b := InstallAll(ms[1..], a.left);
        InstalledAll([a.msg] + b.msgs, b.left, a.ret + b.sum)
  }

  /** Nothing sent, everything sent, or a pre-order prefix sent. */
  predicate Unsent(m: Msg)
    decreases m, 1
  {
    FieldsFit(m) && m.soff == 0 && UnsentAll(m.subs)
  }

  predicate UnsentAll(ms: seq<Msg>)
    decreases ms, 0
  {
    ms == [] || (Unsent(ms[0]) && UnsentAll(ms[1..]))
  }

  predicate Done(m: Msg)
    decreases m, 1
  {
    FieldsFit(m) && m.soff == Len(m) && DoneAll(m.subs)
  }

  predicate DoneAll(ms: seq<Msg>)
    decreases ms, 0
  {
    ms == [] || (Done(ms[0]) && DoneAll(ms[1..]))
  }

  /** The invariant of partial sends. */
  predicate Prefix(m: Msg)
    decreases m, 1
  {
    FieldsFit(m) && m.soff <= Len(m) && if m.soff < Len(m) then UnsentAll(m.subs) else PrefixAll(m.subs)
  }

  predicate PrefixAll(ms: seq<Msg>)
    decreases ms, 0
  {
    ms == [] || (Done(ms[0]) && PrefixAll(ms[1..])) || (Prefix(ms[0]) && UnsentAll(ms[1..]))
  }

  lemma {:induction false} UnsentFacts(m: Msg)
    requires Unsent(m)
    ensures Prefix(m) && Sane(m) && |Pending(m)| == Lens(m)
    decreases m, 1
  {
    UnsentAllFacts(m.subs);
  }

  lemma {:induction false} UnsentAllFacts(ms: seq<Msg>)
    requires UnsentAll(ms)
    ensures PrefixAll(ms) && SaneAll(ms) && |PendingAll(ms)| == LensAll(ms)
    decreases ms, 0
  {
    if ms != [] {
      UnsentFacts(ms[0]);
      UnsentAllFacts(ms[1..]);
    }
  }

  lemma {:induction false} DoneFacts(m: Msg)
    requires Done(m)
    ensures Prefix(m) && Sane(m) && Pending(m) == []
    decreases m, 1
  {
    DoneAllFacts(m.subs);
  }

  lemma {:induction false} DoneAllFacts(ms: seq<Msg>)
    requires DoneAll(ms)
    ensures PrefixAll(ms) && SaneAll(ms) && PendingAll(ms) == []
    decreases ms, 0
  {
    if ms != [] {
      DoneFacts(ms[0]);
      DoneAllFacts(ms[1..]);
    }
  }

  lemma {:induction false} PrefixSane(m: Msg)
    requires Prefix(m)
    ensures Sane(m) && |Pending(m)| <= Lens(m)
    decreases m, 1
  {
    if m.soff < Len(m) {
      UnsentAllFacts(m.subs);
    } else {
      PrefixAllSane(m.subs);
    }
  }

  lemma {:induction false} PrefixAllSane(ms: seq<Msg>)
    requires PrefixAll(ms)
    ensures SaneAll(ms) && |PendingAll(ms)| <= LensAll(ms)
    decreases ms, 0
  {
    if ms != [] {
      if Done(ms[0]) && PrefixAll(ms[1..]) {
        DoneFacts(ms[0]);
        PrefixAllSane(ms[1..]);
      } else {
        PrefixSane(ms[0]);
        UnsentAllFacts(ms[1..]);
      }
    }
  }

  /** m' is m with k more bytes recorded as sent. */
  predicate Advanced(m: Msg, k: nat, m': Msg, left: nat, ret: int)
    requires Sane(m)
  {
    var all := Pending(m);
    && Prefix(m') && Sane(m') && Fresh(m') == Fresh(m) && Lens(m') == Lens(m)
    && Pending(m') == all[Min(k, |all|)..] && left == k - Min(k, |all|)
    && ret == Lens(m) - |Pending(m')| && (k >= |all| ==> Done(m'))
  }

  predicate AdvancedAll(ms: seq<Msg>, k: nat, ms': seq<Msg>, left: nat, ret: int)
    requires SaneAll(ms)
  {
    var all := PendingAll(ms);
    && PrefixAll(ms') && SaneAll(ms') && FreshAll(ms') == FreshAll(ms) && LensAll(ms') == LensAll(ms)
    && PendingAll(ms') == all[Min(k, |all|)..] && left == k - Min(k, |all|)
    && ret == LensAll(ms) - |PendingAll(ms')| && (k >= |all| ==> DoneAll(ms'))
  }

  lemma {:induction false} FreshConcat(a: seq<Msg>, b: seq<Msg>)
    ensures FreshAll(a + b) == FreshAll(a) + FreshAll(b)
  {
    if a == [] {
      assert a + b == b;
    } else {
      assert (a + b)[1..] == a[1..] + b && (a + b)[0] == a[0];
      FreshConcat(a[1..], b);
      SeqAssoc([Fresh(a[0])], FreshAll(a[1..]), FreshAll(b));
    }
  }

  lemma DropConcat<A>(x: seq<A>, y: seq<A>, k: nat)
    ensures k <= |x| ==> (x + y)[k..] == x[k..] + y
    ensures |x| <= k <= |x| + |y| ==> (x + y)[k..] == y[k - |x|..]
  {
  }

  /** The accepted bytes end within m's own bytes. */
  lemma InstallOwn(m: Msg, k: nat)
    requires Prefix(m) && Sane(m) && 0 < k <= Len(m) - m.soff
    ensures var m' := m.(soff := m.soff + k); Advanced(m, k, m', 0, m'.soff)
  {
    var m' := m.(soff := m.soff + k);
    var own, rest := Own(m)[m.soff..], PendingAll(m.subs);
    UnsentAllFacts(m.subs);
    DropConcat(own, rest, k);
    assert Own(m') == Own(m) && Own(m')[m'.soff..] == own[k..];
    if k >= |own| + |rest| {
      UnsentDone(m.subs);
    }
  }

  /** They go on into the subs. */
  lemma {:induction false} InstallRest(m: Msg, k: nat, r: InstalledAll)
    requires Prefix(m) && Sane(m) && k > Len(m) - m.soff
    requires AdvancedAll(m.subs, k - (Len(m) - m.soff), r.msgs, r.left, r.sum)
    ensures var m' := m.(soff := Len(m), subs := r.msgs); Advanced(m, k, m', r.left, m'.soff + r.sum)
  {
    var m' := m.(soff := Len(m), subs := r.msgs);
    var own, rest := Own(m)[m.soff..], PendingAll(m.subs);
    DropConcat(own, rest, Min(k, |own| + |rest|));
    assert Own(m') == Own(m) && Own(m')[m'.soff..] == [];
    assert Pending(m') == PendingAll(r.msgs);
  }

  lemma {:induction false} InstallAdvances(m: Msg, k: nat)
    requires Prefix(m) && Sane(m) && k > 0
    ensures var r := Install(m, k); Advanced(m, k, r.msg, r.left, r.ret)
    decreases m, 1
  {
    hide Advanced, AdvancedAll, Pending, PendingAll;
    var room := Len(m) - m.soff;
    if k <= room {
      InstallOwn(m, k);
    } else {
      if m.soff < Len(m) {
        UnsentAllFacts(m.subs);
      }
      InstallAllAdvances(m.subs, k - room);
      InstallRest(m, k, InstallAll(m.subs, k - room));
    }
  }

  /** Trees without subs need no sending: an empty list of unsent subs is done. */
  lemma UnsentDone(ms: seq<Msg>)
    requires UnsentAll(ms) && SaneAll(ms)
    ensures ms == [] ==> DoneAll(ms)
    ensures ms != [] ==> |PendingAll(ms)| > 0
  {
    UnsentAllFacts(ms);
  }

  lemma InstallHead(ms: seq<Msg>, k: nat, a: Installed)
    requires ms != [] && SaneAll(ms) && UnsentAll(ms[1..]) && 0 < k <= |Pending(ms[0])|
    requires Advanced(ms[0], k, a.msg, a.left, a.ret)
    ensures AdvancedAll(ms, k, [a.msg] + ms[1..], 0, a.ret)
  {
    var head, tail := Pending(ms[0]), PendingAll(ms[1..]);
    var r := [a.msg] + ms[1..];
    assert r[1..] == ms[1..] && r[0] == a.msg;
    DropConcat(head, tail, k);
    UnsentAllFacts(ms[1..]);
    if k >= |head| + |tail| {
      UnsentDone(ms[1..]);
      DoneFacts(a.msg);
    }
  }

  lemma {:induction false} InstallTail(ms: seq<Msg>, k: nat, a: Installed, b: InstalledAll)
    requires ms != [] && SaneAll(ms) && k > |Pending(ms[0])|
    requires Advanced(ms[0], k, a.msg, a.left, a.ret) && AdvancedAll(ms[1..], a.left, b.msgs, b.left, b.sum)
    ensures AdvancedAll(ms, k, [a.msg] + b.msgs, b.left, a.ret + b.sum)
  {
    var head, tail := Pending(ms[0]), PendingAll(ms[1..]);
    var r := [a.msg] + b.msgs;
    assert r[1..] == b.msgs && r[0] == a.msg;
    DropConcat(head, tail, Min(k, |head| + |tail|));
    DoneFacts(a.msg);
    assert PendingAll(r) == PendingAll(b.msgs);
  }

  lemma {:induction false} InstallAllAdvances(ms: seq<Msg>, k: nat)
    requires PrefixAll(ms) && SaneAll(ms) && k > 0
    ensures var r := InstallAll(ms, k); AdvancedAll(ms, k, r.msgs, r.left, r.sum)
    decreases ms, 0
  {
    if ms != [] {
      HeadPrefix(ms);
      InstallAdvances(ms[0], k);
      var a := Install(ms[0], k);
      if a.left == 0 {
        UnsentRest(ms);
        InstallHead(ms, k, a);
      } else {
        DonePrefix(ms);
        InstallAllAdvances(ms[1..], a.left);
        InstallTail(ms, k, a, InstallAll(ms[1..], a.left));
      }
    }
  }

  lemma HeadPrefix(ms: seq<Msg>)
    requires PrefixAll(ms) && ms != []
    ensures Prefix(ms[0])
  {
    if Done(ms[0]) {
      DoneFacts(ms[0]);
    }
  }

  /** The rest of a prefix is a prefix; it is unsent unless the head is done. */
  lemma DonePrefix(ms: seq<Msg>)
    requires PrefixAll(ms) && ms != []
    ensures PrefixAll(ms[1..])
  {
    if !(Done(ms[0]) && PrefixAll(ms[1..])) {
      UnsentAllFacts(ms[1..]);
    }
  }

  lemma UnsentRest(ms: seq<Msg>)
    requires PrefixAll(ms) && ms != [] && SaneAll(ms) && Pending(ms[0]) != []
    ensures UnsentAll(ms[1..])
  {
    if Done(ms[0]) {
      DoneFacts(ms[0]);
    }
  }
}
