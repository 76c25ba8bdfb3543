/** msgbuf_deserialize against the wire format: round trip, truncation, soundness,
    and what stale length fields do. */
module MsgParse {
  import opened Bufio
  import opened MsgTree

  /** m as the receiver builds it: nothing sent yet. */
  function Fresh(m: Msg): (r: Msg)
    ensures |r.subs| == |m.subs|
    decreases m, 1
  {
    m.(soff := 0, subs := FreshAll(m.subs))
  }

  function FreshAll(ms: seq<Msg>): (r: seq<Msg>)
    ensures |r| == |ms|
    decreases ms, 0
  {
    if ms == [] then [] else [Fresh(ms[0])] + FreshAll(ms[1..])
  }

  /** The first checks of a parse, on bytes that start with m's own bytes. */
  lemma OwnPrefix(m: Msg, rest: seq<Byte>)
    requires FieldsFit(m) && IntLength(m)
    ensures var b := Own(m) + rest;
      && |b| >= HDR && ReadHeader(b) == Hdr(m.checksum, m.num, m.clen, |m.data|)
      && b[HDR..HDR + |m.data|] == m.data && b[HDR + |m.data|..] == rest
      && Need(ReadHeader(b)) == Len(m) + m.clen && Take(b) == Extracted(Len(m), ReadHeader(b), m.data)
  {
    assert Own(m) + rest == Header(m) + (m.data + rest);
    HeaderInverse(m, m.data + rest);
    PlainTake(Own(m) + rest);
  }

  // ------------------------------------------------ what a stream decodes to

  /** With `after` more bytes behind it, m's cmsg_length is not more than what follows
      m's own bytes, and so for every node below. */
  predicate Fits(m: Msg, after: nat)
    decreases m, 1
  {
    m.clen <= LensAll(m.subs) + after && FitsAll(m.subs, after)
  }

  predicate FitsAll(ms: seq<Msg>, after: nat)
    decreases ms, 0
  {
    ms == [] || (Fits(ms[0], LensAll(ms[1..]) + after) && FitsAll(ms[1..], after))
  }

  /** A whole message followed by s: it waits for what its own cmsg_length wants, and
      then decodes to itself exactly when no node below wants more than there is. */
  lemma {:induction false} ParseBytes(m: Msg, s: seq<Byte>)
    requires NumsRight(m)
    ensures Parse(Bytes(m) + s) ==
      if m.clen > LensAll(m.subs) + |s| then Short
      else if FitsAll(m.subs, |s|) then Got(Fresh(m), s) else Broken
    decreases m, 1
  {
    var r := BytesAll(m.subs) + s;
    assert Bytes(m) + s == Own(m) + r;
    OwnPrefix(m, r);
    ParseBytesAll(m.subs, s);
  }

  lemma {:induction false} ParseBytesAll(ms: seq<Msg>, s: seq<Byte>)
    requires NumsRightAll(ms)
    ensures ParseAll(|ms|, BytesAll(ms) + s) == if FitsAll(ms, |s|) then GotAll(FreshAll(ms), s) else BrokenAll
    decreases ms, 0
  {
    hide Parse, Bytes, Fresh, Lens;
    if ms == [] {
      assert [] + s == s;
    } else {
      var r := BytesAll(ms[1..]) + s;
      assert BytesAll(ms) + s == Bytes(ms[0]) + r;
      ParseBytes(ms[0], r);
      ParseBytesAll(ms[1..], s);
    }
  }

  /** A strict prefix: it waits for what cmsg_length wants, and never decodes. */
  lemma {:induction false} ParseCut(m: Msg, k: nat)
    requires NumsRight(m) && k < Lens(m)
    ensures Parse(Bytes(m)[..k]) == if k < Len(m) + m.clen then Short else Broken
    decreases m, 1
  {
    var b := Bytes(m)[..k];
    if k >= Len(m) {
      var r := BytesAll(m.subs)[..k - Len(m)];
      assert b == Own(m) + r;
      OwnPrefix(m, r);
      if |m.subs| > 0 { ParseCutAll(m.subs, k - Len(m)); }
    } else if k >= HDR {
      OwnPrefix(m, BytesAll(m.subs));
      SameHeader(Bytes(m), k);
      PlainTake(b);
    }
  }

  lemma {:induction false} ParseCutAll(ms: seq<Msg>, k: nat)
    requires NumsRightAll(ms) && k < LensAll(ms)
    ensures ParseAll(|ms|, BytesAll(ms)[..k]) == BrokenAll
    decreases ms, 0
  {
    var b, x, y := BytesAll(ms)[..k], Bytes(ms[0]), BytesAll(ms[1..]);
    if k < |x| {
      assert b == x[..k];
      ParseCut(ms[0], k);
    } else {
      assert b == x + y[..k - |x|];
      ParseBytes(ms[0], y[..k - |x|]);
      ParseCutAll(ms[1..], k - |x|);
    }
  }

  lemma {:induction false} FitsMore(m: Msg, a: nat, b: nat)
    requires Fits(m, a) && a <= b
    ensures Fits(m, b)
    decreases m, 1
  {
    FitsAllMore(m.subs, a, b);
  }

  lemma {:induction false} FitsAllMore(ms: seq<Msg>, a: nat, b: nat)
    requires FitsAll(ms, a) && a <= b
    ensures FitsAll(ms, b)
    decreases ms, 0
  {
    if ms != [] {
      FitsMore(ms[0], LensAll(ms[1..]) + a, LensAll(ms[1..]) + b);
      FitsAllMore(ms[1..], a, b);
    }
  }

  /** All counts are right, the root's cmsg_length is the sum of the subtree lengths, and
      no node below has a cmsg_length beyond the message's end. */
  function Framed(m: Msg): (r: bool)
    ensures r ==> NumsRight(m)
  {
    NumsRight(m) && m.clen == LensAll(m.subs) && FitsAll(m.subs, 0)
  }

  function FramedAll(ms: seq<Msg>): (r: bool)
    ensures r ==> NumsRightAll(ms)
  {
    ms == [] || (Framed(ms[0]) && FramedAll(ms[1..]))
  }

  lemma {:induction false} FramedConcat(a: seq<Msg>, b: seq<Msg>)
    ensures FramedAll(a + b) <==> FramedAll(a) && FramedAll(b)
  {
    if a == [] {
      assert a + b == b;
    } else {
      assert (a + b)[1..] == a[1..] + b;
      FramedConcat(a[1..], b);
    }
  }

  lemma {:induction false} AccurateFramed(m: Msg)
    requires Accurate(m)
    ensures Framed(m)
    decreases m, 1
  {
    AccurateFitsAll(m.subs);
  }

  lemma {:induction false} AccurateFitsAll(ms: seq<Msg>)
    requires AccurateAll(ms)
    ensures FitsAll(ms, 0)
    decreases ms, 0
  {
    if ms != [] {
      AccurateFramed(ms[0]);
      FitsMore(ms[0], 0, LensAll(ms[1..]));
      AccurateFitsAll(ms[1..]);
    }
  }

  /** Decoding such a tree followed by anything returns the tree and the rest. */
  lemma RoundTrip(m: Msg, s: seq<Byte>)
    requires Framed(m)
    ensures Parse(Bytes(m) + s) == Got(Fresh(m), s)
  {
    ParseBytes(m, s);
    FitsAllMore(m.subs, 0, |s|);
  }

  /** A strict prefix of one is left untouched: the parser waits. */
  lemma Truncated(m: Msg, k: nat)
    requires Framed(m) && k < Lens(m)
    ensures Parse(Bytes(m)[..k]) == Short
  {
    ParseCut(m, k);
  }

  lemma SameHeader(b: seq<Byte>, k: nat)
    requires HDR <= k <= |b|
    ensures ReadHeader(b[..k]) == ReadHeader(b)
  {
    assert b[..k][2..][0] == b[2..][0] && b[..k][2..][1] == b[2..][1];
    assert forall i :: 0 <= i < 4 ==> b[..k][4..][i] == b[4..][i];
  }

  // -------------------------------------------------- what decoding yields

  /** Fields fit and the child count is right; cmsg_length may be anything. */
  function Decoded(m: Msg): (r: bool)
    ensures r ==> Fit(m)
    decreases m, 1
  {
    FieldsFit(m) && m.num == |m.subs| && m.soff == 0 && DecodedAll(m.subs)
  }

  function DecodedAll(ms: seq<Msg>): (r: bool)
    ensures r ==> FitAll(ms)
    decreases ms, 0
  {
    ms == [] || (Decoded(ms[0]) && DecodedAll(ms[1..]))
  }

  lemma {:induction false} OwnRead(b: seq<Byte>, m: Msg, h: Hdr)
    requires |b| >= HDR && h == ReadHeader(b) && HDR + h.ulen <= |b| && FieldsFit(m)
    requires m.checksum == h.checksum && m.num == h.num && m.clen == h.clen && m.data == b[HDR..HDR + h.ulen]
    ensures Own(m) + b[HDR + h.ulen..] == b
  {
    hide ReadHeader;
    ReadHeaderFits(b);
    assert Header(m) == b[..HDR];
    assert b == b[..HDR] + b[HDR..HDR + h.ulen] + b[HDR + h.ulen..];
  }

  /** Every header that the parse of b reads is plain. */
  predicate AllPlain(b: seq<Byte>)
    requires Parse(b).Got?
    decreases |b|, 1, 0
  {
    Plain(ReadHeader(b)) && SubsPlain(Take(b).h.num, b[Take(b).len..])
  }

  predicate SubsPlain(n: nat, b: seq<Byte>)
    requires ParseAll(n, b).GotAll?
    decreases |b|, if n > 0 then 2 else 0, n
  {
    n == 0 || (AllPlain(b) && SubsPlain(n - 1, Parse(b).rest))
  }

  /** For all received bytes: what is decoded has fields that fit and the announced
      number of subs, and it re-encodes to exactly the bytes consumed if and only if no
      header on the way announces a length that wraps; with one that does, fewer bytes
      were consumed than the message has. */
  lemma {:induction false} Soundness(b: seq<Byte>)
    ensures var p := Parse(b); p.Got? ==>
      && Decoded(p.msg) && (AllPlain(b) <==> Bytes(p.msg) + p.rest == b)
      && |Bytes(p.msg)| + |p.rest| >= |b| && (!AllPlain(b) ==> |Bytes(p.msg)| + |p.rest| > |b|)
    decreases |b|, 1, 0
  {
    hide Parse, ParseAll, Take, AllPlain, SubsPlain, ReadHeader, Bytes, BytesAll, Own;
    var p := Parse(b);
    if p.Got? {
      ParseIs(b);
      var t := Take(b);
      SoundnessAll(t.h.num, b[t.len..]);
      BytesParts(p.msg);
      if Plain(ReadHeader(b)) {
        OwnRead(b, p.msg, t.h);
        Regroup(b, t.len, Own(p.msg), BytesAll(p.msg.subs), p.rest);
      }
    }
  }

  /** One level of a decode: frame, payload, subs. */
  lemma {:induction false} ParseIs(b: seq<Byte>)
    requires Parse(b).Got?
    ensures |b| >= HDR && Take(b).Extracted?
    ensures var t, r := Take(b), ParseAll(Take(b).h.num, b[Take(b).len..]);
      && r.GotAll? && Parse(b) == Got(Msg(t.h.checksum, t.h.num, t.h.clen, 0, t.data, r.msgs), r.rest)
      && (AllPlain(b) <==> Plain(ReadHeader(b)) && SubsPlain(t.h.num, b[t.len..]))
    ensures var t, h := Take(b), ReadHeader(b);
      if Plain(h) then t.len == HDR + h.ulen && t.h == h && t.data == b[HDR..t.len] else t.len < HDR && t.data == []
  {
    hide ReadHeader, Overlaid;
    ReadHeaderFits(b);
  }

  lemma BytesParts(m: Msg)
    requires Fit(m)
    ensures Bytes(m) == Own(m) + BytesAll(m.subs) && |Own(m)| == HDR + |m.data|
  {
  }

  /** b is its first n bytes, re-encoded as `own`, and what follows. */
  lemma Regroup(b: seq<Byte>, n: nat, own: seq<Byte>, subs: seq<Byte>, rest: seq<Byte>)
    requires n <= |b| && own + b[n..] == b
    ensures own + subs + rest == b <==> subs + rest == b[n..]
  {
    SeqAssoc(own, subs, rest);
    if own + (subs + rest) == b {
      assert (own + (subs + rest))[|own|..] == subs + rest && (own + b[n..])[|own|..] == b[n..];
    }
  }

  lemma {:induction false} SoundnessAll(n: nat, b: seq<Byte>)
    ensures var p := ParseAll(n, b); p.GotAll? ==>
      && DecodedAll(p.msgs) && (SubsPlain(n, b) <==> BytesAll(p.msgs) + p.rest == b)
      && |BytesAll(p.msgs)| + |p.rest| >= |b| && (!SubsPlain(n, b) ==> |BytesAll(p.msgs)| + |p.rest| > |b|)
    decreases |b|, if n > 0 then 2 else 0, n
  {
    hide Parse, AllPlain, Bytes;
    var p := ParseAll(n, b);
    if p.GotAll? && n > 0 {
      Soundness(b);
      var q := Parse(b);
      SoundnessAll(n - 1, q.rest);
      var r := ParseAll(n - 1, q.rest);
      assert p.msgs == [q.msg] + r.msgs && p.msgs[1..] == r.msgs;
      SeqAssoc(Bytes(q.msg), BytesAll(r.msgs), r.rest);
    }
  }

  /** A decode that consumes nothing, so that decoding again does the same for ever,
      happens exactly for the one length whose u32 sum is 0. */
  lemma ZeroByte(b: seq<Byte>)
    ensures Parse(b).Got? && |Parse(b).rest| == |b| <==>
      |b| >= HDR && ReadHeader(b).ulen == WORD - HDR && ReadHeader(b).clen <= |b|
    ensures Parse(b).Got? && |Parse(b).rest| == |b| ==> Parse(b).rest == b && Parse(b).msg.subs == []
  {
    hide ReadHeader, Overlaid;
    if |b| >= HDR {
      ReadHeaderFits(b);
      if ReadHeader(b).ulen == WORD - HDR {
        assert Len32(WORD - HDR) == 0 && b[0..] == b;
      }
    }
  }

  /** One such input, and what is decoded from it. */
  lemma ZeroByteWitness()
    ensures var b := [0, 0, 0, 0, 0xF8, 0xFF, 0xFF, 0xFF];
      Parse(b) == Got(Msg(0, 0, 0, 0, [], []), b) && !AllPlain(b)
  {
    var b: seq<Byte> := [0, 0, 0, 0, 0xF8, 0xFF, 0xFF, 0xFF];
    assert ReadHeader(b) == Hdr(0, 0, 0, WORD - HDR);
    assert Need(ReadHeader(b)) == 0 && b[0..] == b;
    assert Take(b) == Extracted(0, Overlaid(b, 0, WORD - HDR), []);
    assert b[..0] + (Le16(0) + Le16(0) + Le32(WORD - HDR))[0..] == b;
  }

  // -------------------------------------------------- stale length fields

  /** Fields and payload sizes that a user's calls can produce; counts and lengths may
      be anything that fits. */
  function Made(m: Msg): (r: bool)
    ensures r ==> Fit(m)
    decreases m, 1
  {
    FieldsFit(m) && IntLength(m) && MadeAll(m.subs)
  }

  function MadeAll(ms: seq<Msg>): (r: bool)
    ensures r ==> FitAll(ms)
    decreases ms, 0
  {
    ms == [] || (Made(ms[0]) && MadeAll(ms[1..]))
  }

  lemma {:induction false} DecodedNums(m: Msg)
    requires Made(m) && Decoded(Fresh(m))
    ensures NumsRight(m)
    decreases m, 1
  {
    DecodedNumsAll(m.subs);
  }

  lemma {:induction false} DecodedNumsAll(ms: seq<Msg>)
    requires MadeAll(ms) && DecodedAll(FreshAll(ms))
    ensures NumsRightAll(ms)
    decreases ms, 0
  {
    if ms != [] {
      assert FreshAll(ms)[1..] == FreshAll(ms[1..]);
      DecodedNums(ms[0]);
      DecodedNumsAll(ms[1..]);
    }
  }

  /** For every tree: the parser waits on every strict prefix and decodes the whole to the
      tree if and only if it is framed. */
  lemma FramingExact(m: Msg)
    requires Made(m)
    ensures (forall k: nat :: k < Lens(m) ==> Parse(Bytes(m)[..k]) == Short) && Parse(Bytes(m)) == Got(Fresh(m), [])
      <==> Framed(m)
  {
    var b := Bytes(m);
    if Parse(b) == Got(Fresh(m), []) {
      Soundness(b);
      DecodedNums(m);
    }
    if NumsRight(m) {
      assert b + [] == b;
      ParseBytes(m, []);
      if m.clen < LensAll(m.subs) {
        TooShort(m);
      } else {
        forall k: nat | k < Lens(m) ensures Parse(b[..k]) == Short {
          ParseCut(m, k);
        }
      }
    }
  }

  /** A cmsg_length that is too small makes a BUG_ON fire on some prefix. */
  lemma TooShort(m: Msg)
    requires NumsRight(m) && m.clen < LensAll(m.subs)
    ensures Parse(Bytes(m)[..Len(m) + m.clen]) == Broken
  {
    ParseCut(m, Len(m) + m.clen);
  }

  /** No BUG_ON fires on any prefix exactly when the root's cmsg_length is too large, or
      right with none below reaching beyond the end. */
  lemma NeverBroken(m: Msg)
    requires NumsRight(m)
    ensures (forall k: nat :: k <= Lens(m) ==> Parse(Bytes(m)[..k]) != Broken) <==>
      m.clen >= LensAll(m.subs) && (m.clen == LensAll(m.subs) ==> FitsAll(m.subs, 0))
  {
    var b := Bytes(m);
    assert b[..Lens(m)] == b == b + [];
    ParseBytes(m, []);
    if m.clen < LensAll(m.subs) {
      TooShort(m);
    } else {
      forall k: nat | k < Lens(m) ensures Parse(b[..k]) != Broken {
        ParseCut(m, k);
      }
    }
  }
}
