/** ualloc, uctl's SADD, SRM, SSWITCH and SCOPY, and clone_ubuf, on message values. */
module MsgOps {
  import opened Bufio
  import opened MsgTree
  import opened MsgParse

  /** msgbuf_alloc; crc is the checksum of the length field. */
  function Alloc(data: seq<Byte>, crc: nat -> nat): Msg {
    Msg(crc(|data|) % 0x1_0000, 0, 0, 0, data, [])
  }

  datatype Added = EFBIG | Added(msg: Msg)

  /** sub_msgbuf_add. */
  function Add(m: Msg, x: Msg): Added {
    if m.num == SUBNUMMARK || m.clen + Lens(x) > CMSGLENMARK then EFBIG
    else Added(m.(num := m.num + 1, clen := m.clen + Lens(x), subs := m.subs + [x]))
  }

  /** sub_msgbuf_rm of the i-th sub; the fields wrap at their widths. */
  function Rm(m: Msg, i: nat): Msg
    requires i < |m.subs|
  {
    m.(num := (m.num - 1) % 16, clen := (m.clen - Lens(m.subs[i])) % 4096, subs := m.subs[..i] + m.subs[i + 1..])
  }

  /** sub_msgbuf_switch: the source's subs go in front of the destination's, and the
      destination's fields are overwritten. */
  function Switch(src: Msg, dst: Msg): (Msg, Msg) {
    (src.(num := 0, clen := 0, subs := []), dst.(num := src.num, clen := src.clen, subs := src.subs + dst.subs))
  }

  /** Payload, checksum and what has been sent are as before. */
  predicate OwnKept(m: Msg, r: Msg) {
    r.data == m.data && r.checksum == m.checksum && r.soff == m.soff
  }

  /** Adding well-formed parts keeps lengths and counts right. */
  lemma AddAccurate(m: Msg, x: Msg)
    requires Accurate(m) && Accurate(x)
    ensures Add(m, x).Added? <==> |m.subs| < 15 && LensAll(m.subs) + Lens(x) <= 4095
    ensures Add(m, x).Added? ==>
      var r := Add(m, x).msg; Accurate(r) && r.subs == m.subs + [x] && OwnKept(m, r)
  {
    LensConcat(m.subs, [x]);
    AccurateConcat(m.subs, [x]);
    assert LensAll([x]) == Lens(x);
  }

  /** Lengths and accuracy of a list split around one element. */
  lemma SplitList(a: seq<Msg>, x: Msg, b: seq<Msg>)
    ensures LensAll(a + [x] + b) == LensAll(a + b) + Lens(x)
    ensures AccurateAll(a + [x] + b) <==> AccurateAll(a + b) && Accurate(x)
  {
    LensConcat(a + [x], b);
    LensConcat(a, [x]);
    LensConcat(a, b);
    AccurateConcat(a + [x], b);
    AccurateConcat(a, [x]);
    AccurateConcat(a, b);
    assert LensAll([x]) == Lens(x) && (AccurateAll([x]) <==> Accurate(x));
  }

  lemma Small(x: nat, n: nat)
    requires x < n
    ensures x % n == x
  {
  }

  lemma {:induction false} RmAccurate(m: Msg, i: nat)
    requires Accurate(m) && i < |m.subs|
    ensures Accurate(Rm(m, i)) && Accurate(m.subs[i])
    ensures Rm(m, i).subs == m.subs[..i] + m.subs[i + 1..] && OwnKept(m, Rm(m, i))
  {
    hide LensAll, AccurateAll, Lens;
    var a, x, b := m.subs[..i], m.subs[i], m.subs[i + 1..];
    assert m.subs == a + [x] + b;
    SplitList(a, x, b);
    Small(m.num - 1, 16);
    Small(LensAll(a + b), 4096);
  }

  /** SSWITCH yields an accurate destination exactly when that had no subs before. */
  lemma SwitchAccurate(src: Msg, dst: Msg)
    requires Accurate(src) && Accurate(dst)
    ensures var (s, d) := Switch(src, dst);
      && Accurate(s) && s.subs == [] && OwnKept(src, s) && d.subs == src.subs + dst.subs && OwnKept(dst, d)
      && (Accurate(d) <==> dst.subs == [])
  {
    if dst.subs == [] {
      assert src.subs + dst.subs == src.subs;
    }
  }

  lemma {:induction false} Around<A>(s: seq<A>, i: nat, x: A)
    requires i < |s|
    ensures s == s[..i] + [s[i]] + s[i + 1..] && s[i := x] == s[..i] + [x] + s[i + 1..]
  {
  }

  /** An empty message, and one without payload that has the single sub x. */
  const EMPTY := Msg(0, 0, 0, 0, [], [])

  function Over(x: Msg, clen: nat): Msg {
    EMPTY.(num := 1, clen := clen, subs := [x])
  }

  lemma OverFacts(x: Msg, clen: nat)
    requires clen <= CMSGLENMARK
    ensures var m := Over(x, clen);
      && LensAll(m.subs) == Lens(x) && Lens(m) == HDR + Lens(x) && (NumsRight(m) <==> NumsRight(x))
      && (Made(m) <==> Made(x)) && (Accurate(m) <==> clen == Lens(x) && Accurate(x))
    ensures forall n: nat :: FitsAll([x], n) <==> x.clen <= LensAll(x.subs) + n && FitsAll(x.subs, n)
  {
    var s := Over(x, clen).subs;
    assert s == [x] && s[1..] == [];
    assert NumsRightAll(s[1..]) && MadeAll(s[1..]) && AccurateAll(s[1..]) && LensAll(s[1..]) == 0;
    assert NumsRightAll(s) <==> NumsRight(x);
    assert MadeAll(s) <==> Made(x);
    assert AccurateAll(s) <==> Accurate(x);
    assert forall n: nat :: Fits(x, n) <==> x.clen <= LensAll(x.subs) + n && FitsAll(x.subs, n);
  }

  lemma EmptyFacts()
    ensures LensAll(EMPTY.subs) == 0 && Lens(EMPTY) == HDR
    ensures NumsRight(EMPTY) && Made(EMPTY) && Accurate(EMPTY) && forall n: nat :: FitsAll(EMPTY.subs, n)
  {
  }

  /** A message with one empty sub, and what goes wrong when it receives another's subs. */
  lemma SwitchWitness()
    ensures var one := Over(EMPTY, 8); Accurate(one) && !Accurate(Switch(one, one).1)
  {
    EmptyFacts();
    OverFacts(EMPTY, 8);
    SwitchAccurate(Over(EMPTY, 8), Over(EMPTY, 8));
  }

  /** SADD on a child that already hangs below p always leaves p's length stale. */
  lemma {:induction false} AddBelowAttached(p: Msg, i: nat, x: Msg)
    requires Accurate(p) && i < |p.subs| && Accurate(x) && Add(p.subs[i], x).Added?
    ensures var q := p.(subs := p.subs[i := Add(p.subs[i], x).msg]);
      !Accurate(q) && q.clen < LensAll(q.subs)
  {
    var a, c, b := p.subs[..i], p.subs[i], p.subs[i + 1..];
    var c' := Add(c, x).msg;
    Around(p.subs, i, c');
    SplitList(a, c, b);
    SplitList(a, c', b);
    LensConcat(c.subs, [x]);
  }

  /** An empty message put below the empty sub of a message. */
  lemma AddBelowWitness()
    ensures var p := Over(EMPTY, 8);
      && Accurate(p) && Add(EMPTY, EMPTY) == Added(p)
      && var q := p.(subs := [Add(EMPTY, EMPTY).msg]); !Accurate(q) && q.clen < LensAll(q.subs)
  {
    EmptyFacts();
    OverFacts(EMPTY, 8);
    var p := Over(EMPTY, 8);
    AddBelowAttached(p, 0, EMPTY);
    assert p.subs[0 := Add(EMPTY, EMPTY).msg] == [Add(EMPTY, EMPTY).msg];
  }

  // ------------------------------------------------------------- cloning

  /** The loop of sub_msgbuf_copy: adds a bare copy of each child, ignoring failures. */
  function CopySubs(dst: Msg, subs: seq<Msg>, crc: nat -> nat): Msg
    decreases |subs|
  {
    if subs == [] then dst
    else
      var r := Add(dst, Alloc(subs[0].data, crc));
      CopySubs(if r.Added? then r.msg else dst, subs[1..], crc)
  }

  /** clone_ubuf. */
  function Clone(m: Msg, crc: nat -> nat): Msg {
    CopySubs(Alloc(m.data, crc), m.subs, crc)
  }

  /** The children of a clone: payloads without their own subs. */
  function Bare(subs: seq<Msg>, crc: nat -> nat): (r: seq<Msg>)
    ensures |r| == |subs|
    decreases |subs|
  {
    if subs == [] then [] else [Alloc(subs[0].data, crc)] + Bare(subs[1..], crc)
  }

  lemma {:induction false} BareLens(subs: seq<Msg>, crc: nat -> nat)
    ensures LensAll(Bare(subs, crc)) <= LensAll(subs)
  {
    if subs != [] {
      BareLens(subs[1..], crc);
      var b := Bare(subs, crc);
      assert b[1..] == Bare(subs[1..], crc) && b[0] == Alloc(subs[0].data, crc);
      assert Lens(b[0]) == Len(subs[0]);
    }
  }

  lemma {:induction false} CopyAll(dst: Msg, subs: seq<Msg>, crc: nat -> nat)
    requires Accurate(dst) && AccurateAll(subs) && |dst.subs| + |subs| <= 15
    requires LensAll(dst.subs) + LensAll(subs) <= 4095
    ensures var r := CopySubs(dst, subs, crc);
      Accurate(r) && r.data == dst.data && r.checksum == dst.checksum
      && r.soff == dst.soff && r.subs == dst.subs + Bare(subs, crc)
    decreases |subs|
  {
    if subs == [] {
      assert dst.subs + [] == dst.subs;
    } else {
      var x := Alloc(subs[0].data, crc);
      AddAccurate(dst, x);
      LensConcat(dst.subs, [x]);
      assert LensAll([x]) == Lens(x) <= Lens(subs[0]);
      CopyAll(Add(dst, x).msg, subs[1..], crc);
      SeqAssoc(dst.subs, [x], Bare(subs[1..], crc));
    }
  }

  lemma {:induction false} BareAt(subs: seq<Msg>, crc: nat -> nat)
    ensures forall i :: 0 <= i < |subs| ==>
      var c := Bare(subs, crc)[i]; c.data == subs[i].data && c.subs == [] && Untouched(c, crc)
  {
    if subs != [] {
      BareAt(subs[1..], crc);
      assert forall i :: 0 < i < |subs| ==>
        Bare(subs, crc)[i] == Bare(subs[1..], crc)[i - 1] && subs[i] == subs[1..][i - 1];
    }
  }

  /** No add of a clone ever fails: it has the payload and one bare copy per child. */
  lemma CloneFacts(m: Msg, crc: nat -> nat)
    requires Accurate(m)
    ensures var r := Clone(m, crc); Accurate(r) && r.data == m.data && r.subs == Bare(m.subs, crc)
    ensures Untouched(Clone(m, crc), crc)
    ensures forall i :: 0 <= i < |m.subs| ==>
      var c := Clone(m, crc).subs[i]; c.data == m.subs[i].data && c.subs == [] && Untouched(c, crc)
  {
    CopyAll(Alloc(m.data, crc), m.subs, crc);
    assert [] + Bare(m.subs, crc) == Bare(m.subs, crc);
    BareAt(m.subs, crc);
  }

  /** m was made by ualloc and has not been sent. */
  predicate Untouched(m: Msg, crc: nat -> nat) {
    m.checksum == crc(|m.data|) % 0x1_0000 && m.soff == 0
  }

  lemma {:induction false} BareSame(subs: seq<Msg>, crc: nat -> nat)
    requires AccurateAll(subs) && forall c :: c in subs ==> Untouched(c, crc)
    ensures Bare(subs, crc) == subs <==> forall c :: c in subs ==> c.subs == []
  {
    if subs != [] {
      var b := Bare(subs, crc);
      var x, rest := subs[0], subs[1..];
      assert subs == [x] + rest && b[0] == Alloc(x.data, crc) && b[1..] == Bare(rest, crc);
      assert Untouched(x, crc) && Accurate(x);
      assert Alloc(x.data, crc) == x <==> x.subs == [];
      assert forall c :: c in subs <==> c == x || c in rest;
      BareSame(rest, crc);
      assert b == subs <==> b[0] == x && b[1..] == rest;
    }
  }

  /** A clone equals the original exactly when no sub has subs of its own: deeper
      levels are dropped. */
  lemma {:induction false} CloneExact(m: Msg, crc: nat -> nat)
    requires Accurate(m) && Untouched(m, crc) && forall c :: c in m.subs ==> Untouched(c, crc)
    ensures Clone(m, crc) == m <==> forall c :: c in m.subs ==> c.subs == []
  {
    CloneFacts(m, crc);
    CopyAll(Alloc(m.data, crc), m.subs, crc);
    BareSame(m.subs, crc);
  }

  lemma Single(x: Msg)
    ensures LensAll([x]) == Lens(x) && (AccurateAll([x]) <==> Accurate(x))
  {
    assert [x][0] == x && [x][1..] == [];
  }

  /** A message whose sub has a sub: its clone is another message. */
  lemma CloneWitness(crc: nat -> nat)
    ensures
      var leaf := Alloc([], crc);
      var sub := leaf.(num := 1, clen := 8, subs := [leaf]);
      var m := leaf.(num := 1, clen := 16, subs := [sub]);
      Accurate(m) && Clone(m, crc) != m
  {
    var leaf := Alloc([], crc);
    var sub := leaf.(num := 1, clen := 8, subs := [leaf]);
    var m := leaf.(num := 1, clen := 16, subs := [sub]);
    Single(leaf);
    Single(sub);
    assert Accurate(leaf) && Lens(leaf) == 8;
    assert Accurate(sub) && Lens(sub) == 16;
    assert sub in m.subs && sub.subs != [] && forall c :: c in m.subs ==> c == sub;
    CloneExact(m, crc);
  }

  /** SADD(b, leaf), SADD(a, b), SRM(b, leaf), SADD(root, a): the root's cmsg_length is
      right, a's is 8 too large, and the receiver stops at its BUG_ON. */
  lemma StaleBelowWitness()
    ensures var b := Over(EMPTY, 8);
      && Add(EMPTY, EMPTY) == Added(b) && Add(EMPTY, b) == Added(Over(b, 16)) && Rm(b, 0) == EMPTY
      && Over(b, 16).(subs := [Rm(b, 0)]) == Over(EMPTY, 16)
      && Add(EMPTY, Over(EMPTY, 16)) == Added(Over(Over(EMPTY, 16), 16))
    ensures var root := Over(Over(EMPTY, 16), 16);
      NumsRight(root) && root.clen == LensAll(root.subs) && Parse(Bytes(root)) == Broken
  {
    var b, stale := Over(EMPTY, 8), Over(EMPTY, 16);
    var root := Over(stale, 16);
    hide Lens, LensAll, NumsRight, NumsRightAll, Made, MadeAll, Accurate, AccurateAll, Fits, FitsAll, Bytes, Parse;
    EmptyFacts();
    OverFacts(EMPTY, 8);
    OverFacts(EMPTY, 16);
    OverFacts(b, 16);
    OverFacts(stale, 16);
    assert b.subs[..0] + b.subs[1..] == [];
    ParseBytes(root, []);
    assert Bytes(root) + [] == Bytes(root);
  }

  /** SADD(a, b), SADD(b, leaf), SADD(root, a): a's cmsg_length is 8 too small, the root's
      is right, and the message is framed and decoded as it was sent. */
  lemma StaleHarmlessWitness()
    ensures var b := Over(EMPTY, 8);
      && Add(EMPTY, EMPTY) == Added(b) && Over(b, 8) == b.(subs := [Add(EMPTY, EMPTY).msg])
      && Add(EMPTY, Over(b, 8)) == Added(Over(Over(b, 8), 24))
    ensures var root := Over(Over(Over(EMPTY, 8), 8), 24);
      && Made(root) && !Accurate(root) && Parse(Bytes(root)) == Got(Fresh(root), [])
      && forall k: nat :: k < Lens(root) ==> Parse(Bytes(root)[..k]) == Short
  {
    var b := Over(EMPTY, 8);
    var stale := Over(b, 8);
    hide Lens, LensAll, NumsRight, NumsRightAll, Made, MadeAll, Accurate, AccurateAll, Fits, FitsAll, Bytes, Parse;
    EmptyFacts();
    OverFacts(EMPTY, 8);
    OverFacts(b, 8);
    OverFacts(stale, 24);
    FramingExact(Over(stale, 24));
  }
}
