/** msgbuf_deserialize on the paged byte queue, building heap messages. */
module MsgRecv {
  import opened Bufio
  import opened MsgTree
  import opened MsgParse
  import opened MsgHeap

  /** EAGAIN, a failed BUG_ON, or success. */
  datatype Status = Again | Bug | Ok

  /** What a parse of `before` demands of the outcome; ts is the new message, if any. */
  ghost predicate Outcome(before: seq<Byte>, st: Status, ts: seq<Tree>, after: seq<Byte>)
    reads ObjsAll(ts)
  {
    match Parse(before)
    case Short => st == Again && after == before && ts == []
    case Broken => st == Bug && ts == []
    case Got(m, rest) => st == Ok && |ts| == 1 && RepAll(ts) && DistinctAll(ts) && Val(ts[0]) == m && after == rest
  }

  /** The rest of a list of subs, seen from the middle of the loop. */
  ghost function AfterSome(done: seq<Tree>, p: ParsedAll): ParsedAll {
    match p
    case BrokenAll => BrokenAll
    case GotAll(ms, rest) => GotAll(ValAll(done) + ms, rest)
  }

  lemma AfterSomeStep(done: seq<Tree>, ts: seq<Tree>, n: nat, b: seq<Byte>)
    requires n > 0
    ensures Parse(b).Got? && |ts| == 1 && Parse(b).msg == Val(ts[0]) ==>
      AfterSome(done, ParseAll(n, b)) == AfterSome(done + ts, ParseAll(n - 1, Parse(b).rest))
    ensures !Parse(b).Got? ==> AfterSome(done, ParseAll(n, b)) == BrokenAll
  {
    if Parse(b).Got? && |ts| == 1 && Parse(b).msg == Val(ts[0]) {
      ObjsConcat(done, ts);
      assert ValAll(ts) == [Val(ts[0])] + ValAll(ts[1..]) == [Val(ts[0])];
      match ParseAll(n - 1, Parse(b).rest)
      case BrokenAll =>
      case GotAll(ms, rest) => SeqAssoc(ValAll(done), [Val(ts[0])], ms);
    }
  }

  lemma AfterNone(p: ParsedAll)
    ensures AfterSome([], p) == p
  {
    if p.GotAll? { assert [] + p.msgs == p.msgs; }
  }

  /** extract_msgbuf: the frame and payload read off the queue into a new message; null
      where the code reports a failure or its allocation is smaller than the frame says. */
  method Extract(input: Bio) returns (msg: Msgbuf?)
    requires input.Valid() && HDR <= |input.Contents()|
    modifies input.repr
    ensures input.Valid() && input.repr == old(input.repr)
    ensures match old(Take(input.Contents()))
      case Refused => msg == null && input.Contents() == old(input.Contents())
      case Extracted(len, h, data) =>
        && msg != null && fresh(msg) && input.Contents() == old(input.Contents())[len..]
        && msg.checksum == h.checksum && msg.cmsgNum == h.num && msg.cmsgLength == h.clen
        && msg.soff == 0 && msg.subs == [] && msg.ubase == data
  {
    hide Flat, Apart, ReadHeader;
    ghost var b := input.Contents();
    var frame := input.Copy(HDR);
    SameHeader(b, HDR);
    ReadHeaderFits(b);
    var ulen := ReadHeader(frame).ulen;
    var len := Len32(ulen);
    if input.bsize < len || (len >= HDR && ulen + SIZEOF_MSGBUF >= WORD) {
      return null;
    }
    var bytes := input.Read(len);
    var over := if len < HDR then bytes + (Le16(0) + Le16(0) + Le32(ulen))[len..] else bytes;
    if len >= HDR {
      SameHeader(b, len);
    }
    var h := ReadHeader(over);
    msg := new Msgbuf(h.checksum, if len < HDR then [] else bytes[HDR..]);
    msg.cmsgNum, msg.cmsgLength := h.num, h.clen;
  }

  /** msgbuf_deserialize. */
  method Deserialize(input: Bio) returns (st: Status, msg: Msgbuf?, ghost ts: seq<Tree>)
    requires input.Valid()
    modifies input.repr
    ensures input.Valid() && input.repr == old(input.repr)
    ensures Outcome(old(input.Contents()), st, ts, input.Contents())
    ensures fresh(ObjsAll(ts)) && (st == Ok ==> |ts| == 1 && msg == ts[0].obj)
    decreases |input.Contents()|, 1
  {
    hide Flat, Apart, Objs, ObjsAll, Rep, RepAll, Distinct, DistinctAll, Val, ValAll, Roots, ReadHeader, ParseAll, Take;
    ghost var b := input.Contents();
    st, msg, ts := Again, null, [];
    NoTrees();
    if input.bsize < HDR {
      return;
    }
    var frame := input.Copy(HDR);
    var h := ReadHeader(frame);
    SameHeader(b, HDR);
    if input.bsize < Need(h) {
      return;
    }
    var m := Extract(input);
    if m == null {
      return Bug, null, [];
    }
    ghost var t, subs := Take(b), [];
    st, subs := ReceiveSubs(input, m, m.cmsgNum);
    if st == Ok {
      msg := m;
      ts := [Tree(m, t.h.checksum, t.h.num, t.h.clen, 0, t.data, subs)];
      OneTree(ts[0]);
    }
  }

  lemma NoTrees()
    ensures RepAll([]) && DistinctAll([]) && ValAll([]) == [] && ObjsAll([]) == {}
  {
  }

  lemma OneTree(t: Tree)
    requires RepAll(t.subs) && DistinctAll(t.subs) && t.obj !in ObjsAll(t.subs) && t.obj.subs == Roots(t.subs)
    requires t.obj.checksum == t.checksum && t.obj.cmsgNum == t.num
    requires t.obj.cmsgLength == t.clen && t.obj.soff == t.soff && t.obj.ubase == t.data
    ensures RepAll([t]) && DistinctAll([t]) && ObjsAll([t]) == {t.obj} + ObjsAll(t.subs)
    ensures Val(t) == Msg(t.checksum, t.num, t.clen, t.soff, t.data, ValAll(t.subs))
  {
    assert [t][1..] == [];
  }

  /** The loop of msgbuf_deserialize over the announced number of subs. */
  method ReceiveSubs(input: Bio, m: Msgbuf, num: nat) returns (st: Status, ghost subs: seq<Tree>)
    requires input.Valid() && m.subs == [] && m !in input.repr
    modifies input.repr, m`subs
    ensures input.Valid() && input.repr == old(input.repr)
    ensures match ParseAll(num, old(input.Contents()))
      case BrokenAll => st == Bug
      case GotAll(ms, rest) =>
        st == Ok && RepAll(subs) && DistinctAll(subs) && ValAll(subs) == ms
        && m.subs == Roots(subs) && input.Contents() == rest
    ensures fresh(ObjsAll(subs)) && m !in ObjsAll(subs)
    ensures m.checksum == old(m.checksum) && m.cmsgNum == old(m.cmsgNum)
    ensures m.cmsgLength == old(m.cmsgLength) && m.soff == old(m.soff) && m.ubase == old(m.ubase)
    decreases |input.Contents()|, if num > 0 then 2 else 0
  {
    hide Flat, Apart, Objs, ObjsAll, Rep, RepAll, Distinct, DistinctAll, Val, ValAll, Roots, ParseAll, Parse, AfterSome;
    st, subs := Ok, [];
    ghost var whole := ParseAll(num, input.Contents());
    NoTrees();
    AfterNone(whole);
    var sno := num;
    while sno > 0
      invariant st == Ok && 0 <= sno <= num && input.Valid() && input.repr == old(input.repr)
      invariant RepAll(subs) && DistinctAll(subs) && m.subs == Roots(subs)
      invariant fresh(ObjsAll(subs)) && m !in ObjsAll(subs)
      invariant |input.Contents()| <= old(|input.Contents()|)
      invariant whole == AfterSome(subs, ParseAll(sno, input.Contents()))
      decreases sno
    {
      ghost var b := input.Contents();
      var s;
      ghost var ts;
      ObjsAllAllocated(subs);
      st, s, ts := Deserialize(input);
      AfterSomeStep(subs, ts, sno, b);
      if st != Ok {
        return Bug, subs;
      }
      ObjsConcat(subs, ts);
      RootsConcat(subs, ts);
      RootAt(ts, 0);
      assert Roots(ts) == [s];
      m.subs := m.subs + [s];
      subs := subs + ts;
      sno := sno - 1;
    }
    AfterAll(subs, input.Contents());
  }

  lemma AfterAll(done: seq<Tree>, b: seq<Byte>)
    ensures AfterSome(done, ParseAll(0, b)) == GotAll(ValAll(done), b)
  {
    assert ValAll(done) + [] == ValAll(done);
  }
}
