/** Message trees and their wire format (src/msgbuf/msgbuf.h, src/msgbuf/msgbuf.c),
    as values. `soff` is how much of a node's own bytes has been sent. */
module MsgTree {
  import opened Bufio

  datatype Msg = Msg(checksum: nat, num: nat, clen: nat, soff: nat, data: seq<Byte>, subs: seq<Msg>)

  const HDR := 8
  const SUBNUMMARK := 15
  const CMSGLENMARK := 4095

  /** sizeof(struct msgbuf), and the number of values of a u32. */
  const SIZEOF_MSGBUF := 48
  const WORD := 0x1_0000_0000

  // ------------------------------------------------------------- lengths

  /** msgbuf_len. */
  function Len(m: Msg): nat { HDR + |m.data| }

  /** msgbuf_lens. */
  function Lens(m: Msg): (n: nat)
    ensures n >= HDR
    decreases m, 1
  {
    Len(m) + LensAll(m.subs)
  }

  function LensAll(ms: seq<Msg>): nat
    decreases ms, 0
  {
    if ms == [] then 0 else Lens(ms[0]) + LensAll(ms[1..])
  }

  lemma {:induction false} LensConcat(a: seq<Msg>, b: seq<Msg>)
    ensures LensAll(a + b) == LensAll(a) + LensAll(b)
  {
    if a == [] {
      assert a + b == b;
    } else {
      assert (a + b)[1..] == a[1..] + b;
      LensConcat(a[1..], b);
    }
  }

  /** The fields fit their widths: u16, 4 bits, 12 bits and a length with which the
      u32 size of the allocation does not wrap. */
  predicate FieldsFit(m: Msg) {
    m.checksum < 0x1_0000 && m.num <= SUBNUMMARK && m.clen <= CMSGLENMARK && |m.data| + SIZEOF_MSGBUF < WORD
  }

  /** A length that ualloc's int argument can carry, so that of any message a user
      makes. */
  predicate IntLength(m: Msg) {
    |m.data| < 0x8000_0000
  }

  /** Every node's fields fit. */
  predicate Fit(m: Msg)
    decreases m, 1
  {
    FieldsFit(m) && FitAll(m.subs)
  }

  predicate FitAll(ms: seq<Msg>)
    decreases ms, 0
  {
    ms == [] || (Fit(ms[0]) && FitAll(ms[1..]))
  }

  /** Every node has the size of one that a user made, and its cmsg_num is right. */
  function NumsRight(m: Msg): (r: bool)
    ensures r ==> Fit(m)
    decreases m, 1
  {
    FieldsFit(m) && IntLength(m) && m.num == |m.subs| && NumsRightAll(m.subs)
  }

  function NumsRightAll(ms: seq<Msg>): (r: bool)
    ensures r ==> FitAll(ms)
    decreases ms, 0
  {
    ms == [] || (NumsRight(ms[0]) && NumsRightAll(ms[1..]))
  }

  /** Every node's cmsg_num and cmsg_length tell the truth. */
  function Accurate(m: Msg): (r: bool)
    ensures r ==> NumsRight(m)
    decreases m, 1
  {
    FieldsFit(m) && IntLength(m) && m.num == |m.subs| && m.clen == LensAll(m.subs) && AccurateAll(m.subs)
  }

  function AccurateAll(ms: seq<Msg>): (r: bool)
    ensures r ==> NumsRightAll(ms)
    decreases ms, 0
  {
    ms == [] || (Accurate(ms[0]) && AccurateAll(ms[1..]))
  }

  lemma {:induction false} AccurateConcat(a: seq<Msg>, b: seq<Msg>)
    ensures AccurateAll(a + b) <==> AccurateAll(a) && AccurateAll(b)
  {
    if a == [] {
      assert a + b == b;
    } else {
      assert (a + b)[1..] == a[1..] + b;
      AccurateConcat(a[1..], b);
    }
  }

  // -------------------------------------------------------- wire format

  function Le16(x: nat): seq<Byte>
    requires x < 0x1_0000
  {
    [x % 256, x / 256]
  }

  function Le32(x: nat): seq<Byte>
    requires x < 0x1_0000_0000
  {
    [x % 256, x / 256 % 256, x / 256 / 256 % 256, x / 256 / 256 / 256]
  }

  function FromLe16(b: seq<Byte>): nat
    requires |b| >= 2
  {
    b[0] as int + 256 * b[1] as int
  }

  function FromLe32(b: seq<Byte>): nat
    requires |b| >= 4
  {
    b[0] as int + 256 * (b[1] as int + 256 * (b[2] as int + 256 * b[3] as int))
  }

  /** struct msghdr: u16 checksum, 4-bit cmsg_num in the low bits of the next u16
      with 12-bit cmsg_length above it, u32 ulen. */
  function Header(m: Msg): (b: seq<Byte>)
    requires FieldsFit(m)
    ensures |b| == HDR
  {
    Le16(m.checksum) + Le16(m.num + 16 * m.clen) + Le32(|m.data|)
  }

  datatype Hdr = Hdr(checksum: nat, num: nat, clen: nat, ulen: nat)

  function ReadHeader(b: seq<Byte>): Hdr
    requires |b| >= HDR
  {
    var w := FromLe16(b[2..]);
    Hdr(FromLe16(b), w % 16, w / 16, FromLe32(b[4..]))
  }

  lemma Digit(low: nat, high: nat)
    requires low < 256
    ensures (low + 256 * high) % 256 == low && (low + 256 * high) / 256 == high
  {
  }

  lemma Le32Inverse(x: nat)
    requires x < 0x1_0000_0000
    ensures FromLe32(Le32(x)) == x
  {
    var y := x / 256;
    var z := y / 256;
    assert x == x % 256 + 256 * y && y == y % 256 + 256 * z && z == z % 256 + 256 * (z / 256);
  }

  lemma Le32Back(b: seq<Byte>)
    requires |b| >= 4
    ensures FromLe32(b) < 0x1_0000_0000 && Le32(FromLe32(b)) == b[..4]
  {
    Digit(b[2], b[3]);
    Digit(b[1], b[2] as int + 256 * b[3] as int);
    Digit(b[0], b[1] as int + 256 * (b[2] as int + 256 * b[3] as int));
  }

  lemma Le16Back(b: seq<Byte>)
    requires |b| >= 2
    ensures FromLe16(b) < 0x1_0000 && Le16(FromLe16(b)) == b[..2]
  {
    Digit(b[0], b[1]);
  }

  lemma HeaderInverse(m: Msg, rest: seq<Byte>)
    requires FieldsFit(m)
    ensures ReadHeader(Header(m) + rest) == Hdr(m.checksum, m.num, m.clen, |m.data|)
  {
    var b := Header(m) + rest;
    Le32Inverse(|m.data|);
    assert FromLe16(b) == FromLe16(Le16(m.checksum)) == m.checksum;
    assert FromLe16(b[2..]) == FromLe16(Le16(m.num + 16 * m.clen)) == m.num + 16 * m.clen;
    assert FromLe32(b[4..]) == FromLe32(Le32(|m.data|));
  }

  /** Where each field is: the low byte first, the count in the low four bits of the third
      byte, the length of the subs above it. */
  lemma HeaderLayout(m: Msg)
    requires FieldsFit(m)
    ensures var b := Header(m);
      && m.checksum == b[0] as int + 0x100 * b[1] as int
      && m.num == b[2] % 16 && m.clen == b[2] as int / 16 + 16 * b[3] as int
      && |m.data| == b[4] as int + 0x100 * b[5] as int + 0x1_0000 * b[6] as int + 0x100_0000 * b[7] as int
  {
    var b, w, n := Header(m), m.num + 16 * m.clen, |m.data|;
    assert b[2] == w % 256 && b[3] == w / 256 && w == w % 256 + 256 * (w / 256);
    assert b[4] == n % 256 && b[5] == n / 256 % 256 && b[6] == n / 256 / 256 % 256 && b[7] == n / 256 / 256 / 256;
  }

  lemma ReadHeaderFits(b: seq<Byte>)
    requires |b| >= HDR
    ensures var h := ReadHeader(b);
      && h.checksum < 0x1_0000 && h.num <= SUBNUMMARK && h.clen <= CMSGLENMARK && h.ulen < 0x1_0000_0000
      && Le16(h.checksum) + Le16(h.num + 16 * h.clen) + Le32(h.ulen) == b[..HDR]
  {
    Le16Back(b);
    Le16Back(b[2..]);
    Le32Back(b[4..]);
    var w := FromLe16(b[2..]);
    assert w == w % 16 + 16 * (w / 16);
    assert b[..HDR] == b[..2] + b[2..][..2] + b[4..][..4];
  }

  /** The bytes of one node: frame header and payload. */
  function Own(m: Msg): (b: seq<Byte>)
    requires FieldsFit(m)
    ensures |b| == Len(m)
  {
    Header(m) + m.data
  }

  /** The bytes of a whole tree, pre-order, whatever its counts and lengths say. */
  function Bytes(m: Msg): (b: seq<Byte>)
    requires Fit(m)
    ensures |b| == Lens(m)
    decreases m, 1
  {
    Own(m) + BytesAll(m.subs)
  }

  function BytesAll(ms: seq<Msg>): (b: seq<Byte>)
    requires FitAll(ms)
    ensures |b| == LensAll(ms)
    decreases ms, 0
  {
    if ms == [] then [] else Bytes(ms[0]) + BytesAll(ms[1..])
  }

  lemma SeqAssoc<A>(x: seq<A>, y: seq<A>, z: seq<A>)
    ensures x + (y + z) == (x + y) + z
  {
  }

  lemma {:induction false} BytesConcat(a: seq<Msg>, b: seq<Msg>)
    requires FitAll(a) && FitAll(b)
    ensures FitAll(a + b) && BytesAll(a + b) == BytesAll(a) + BytesAll(b)
  {
    if a == [] {
      assert a + b == b;
    } else {
      assert (a + b)[1..] == a[1..] + b;
      BytesConcat(a[1..], b);
      assert (a + b)[0] == a[0];
      SeqAssoc(Bytes(a[0]), BytesAll(a[1..]), BytesAll(b));
    }
  }

  // ------------------------------------------------------------- parsing

  /** msgbuf_len of a frame that announces ulen payload bytes: a u32. */
  function Len32(ulen: nat): nat {
    (HDR + ulen) % WORD
  }

  /** What msgbuf_recv_finish waits for: a sum of u32s. */
  function Need(h: Hdr): nat {
    (Len32(h.ulen) + h.clen) % WORD
  }

  /** The frame of a new message after the first `len` bytes of b were read over it. */
  function Overlaid(b: seq<Byte>, len: nat, ulen: nat): (h: Hdr)
    requires len <= |b| && len < HDR && ulen < WORD
    ensures h.checksum < 0x1_0000 && h.num <= SUBNUMMARK && h.clen <= CMSGLENMARK
    ensures len <= 2 ==> h.num == 0
  {
    var frame := b[..len] + (Le16(0) + Le16(0) + Le32(ulen))[len..];
    ReadHeaderFits(frame);
    ReadHeader(frame)
  }

  /** extract_msgbuf: refused, or a message with frame h and payload `data` after len
      bytes were read. */
  datatype Extracted = Refused | Extracted(len: nat, h: Hdr, data: seq<Byte>)

  function Take(b: seq<Byte>): (t: Extracted)
    requires |b| >= HDR
    ensures t.Extracted? ==> t.len <= |b| && (t.h.num > 0 ==> t.len >= 3)
    ensures t.Extracted? ==> t.h.checksum < 0x1_0000 && t.h.num <= SUBNUMMARK && t.h.clen <= CMSGLENMARK
    ensures t.Extracted? ==> |t.data| + SIZEOF_MSGBUF < WORD
  {
    ReadHeaderFits(b);
    var h := ReadHeader(b);
    var len := Len32(h.ulen);
    if |b| < len then Refused
    else if len < HDR then Extracted(len, Overlaid(b, len, h.ulen), [])
    else if h.ulen + SIZEOF_MSGBUF < WORD then Extracted(len, h, b[HDR..len])
    else Refused
  }

  /** A header with which no u32 sum wraps: the length is what it says. */
  predicate Plain(h: Hdr) {
    HDR + h.ulen < WORD
  }

  lemma PlainTake(b: seq<Byte>)
    requires |b| >= HDR && ReadHeader(b).ulen < 0x8000_0000
    ensures var h := ReadHeader(b);
      && h.num <= SUBNUMMARK && h.clen <= CMSGLENMARK && Plain(h) && Need(h) == HDR + h.ulen + h.clen
      && (HDR + h.ulen <= |b| ==> Take(b) == Extracted(HDR + h.ulen, h, b[HDR..HDR + h.ulen]))
  {
    ReadHeaderFits(b);
  }

  /** msgbuf_deserialize: not enough bytes yet, a failed BUG_ON, or a message. */
  datatype Parsed = Short | Broken | Got(msg: Msg, rest: seq<Byte>)
  datatype ParsedAll = BrokenAll | GotAll(msgs: seq<Msg>, rest: seq<Byte>)

  function Parse(b: seq<Byte>): (p: Parsed)
    ensures p.Got? ==> |p.rest| <= |b|
    decreases |b|, 1, 0
  {
    if |b| < HDR || |b| < Need(ReadHeader(b)) then Short
    else
      match Take(b)
      case Refused => Broken
      case Extracted(len, h, data) => (
        match ParseAll(h.num, b[len..])
        case BrokenAll => Broken
        case GotAll(subs, rest) => Got(Msg(h.checksum, h.num, h.clen, 0, data, subs), rest))
  }

  /** The loop over the announced number of subs: each must be complete. */
  function ParseAll(n: nat, b: seq<Byte>): (p: ParsedAll)
    ensures p.GotAll? ==> |p.rest| <= |b| && |p.msgs| == n
    decreases |b|, if n > 0 then 2 else 0, n
  {
    if n == 0 then GotAll([], b)
    else
      match Parse(b)
      case Got(m, rest) => (
        match ParseAll(n - 1, rest)
        case BrokenAll => BrokenAll
        case GotAll(ms, rest') => GotAll([m] + ms, rest'))
      case _ => BrokenAll
  }
}
