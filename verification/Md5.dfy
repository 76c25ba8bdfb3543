/** Streaming MD5 (src/utils/md5.c) around an arbitrary block function: whatever the
    pieces, the digest is that of RFC 1321's padded message. */
module Md5 {
  import opened Bufio
  import opened MsgTree
  import opened MsgHeap

  const BLOCK := 64

  /** The four 32-bit words of the state. */
  type Word = x: nat | x < 0x1_0000_0000
  datatype Words = Words(a: Word, b: Word, c: Word, d: Word)

  const INIT := Words(0x67452301, 0xefcdab89, 0x98badcfe, 0x10325476)

  type Compress = (Words, seq<Byte>) -> Words

  /** The block function applied to consecutive blocks. */
  ghost function Fold(f: Compress, st: Words, data: seq<Byte>): Words
    decreases |data|
  {
    if |data| < BLOCK then st else Fold(f, f(st, data[..BLOCK]), data[BLOCK..])
  }

  lemma {:induction false} FoldConcat(f: Compress, st: Words, a: seq<Byte>, b: seq<Byte>)
    requires |a| % BLOCK == 0
    ensures Fold(f, st, a + b) == Fold(f, Fold(f, st, a), b)
    decreases |a|
  {
    if a == [] {
      assert a + b == b;
    } else {
      assert (a + b)[..BLOCK] == a[..BLOCK] && (a + b)[BLOCK..] == a[BLOCK..] + b;
      FoldConcat(f, f(st, a[..BLOCK]), a[BLOCK..], b);
    }
  }

  lemma FoldBlock(f: Compress, st: Words, a: seq<Byte>, block: seq<Byte>)
    requires |a| % BLOCK == 0 && |block| == BLOCK
    ensures Fold(f, st, a + block) == f(Fold(f, st, a), block)
  {
    FoldConcat(f, st, a, block);
    assert block[..BLOCK] == block;
    assert Fold(f, f(Fold(f, st, a), block), block[BLOCK..]) == f(Fold(f, st, a), block);
  }

  // --------------------------------------------- RFC 1321, sections 3.1 to 3.3

  function Zeros(n: nat): (z: seq<Byte>)
    ensures |z| == n
  {
    seq(n, i => 0)
  }

  function Le64(x: nat): (b: seq<Byte>)
    requires x < 0x1_0000_0000_0000_0000
    ensures |b| == 8
  {
    Le32(x % 0x1_0000_0000) + Le32(x / 0x1_0000_0000)
  }

  /** The number of zero bytes after the byte holding the 1 bit. */
  function ZeroCount(n: nat): nat {
    (119 - n % BLOCK) % BLOCK
  }

  lemma BitsOfBytes(m: nat)
    ensures (8 * m) % 512 == 8 * (m % 64)
  {
    assert 8 * m == 512 * (m / 64) + 8 * (m % 64);
  }

  /** Section 3.1: a 1 bit and the fewest 0 bits that leave the length in bits
      congruent to 448 modulo 512. */
  lemma PaddingIsLeast(n: nat, k: nat)
    ensures (8 * (n + 1 + ZeroCount(n))) % 512 == 448
    ensures (8 * (n + 1 + k)) % 512 == 448 ==> k >= ZeroCount(n)
  {
    BitsOfBytes(n + 1 + ZeroCount(n));
    BitsOfBytes(n + 1 + k);
    var r := n % BLOCK;
    assert n == BLOCK * (n / BLOCK) + r;
  }

  /** Section 3.2: the length in bits before padding, its low-order 64 bits. */
  ghost function Padded(m: seq<Byte>): seq<Byte> {
    m + [0x80] + Zeros(ZeroCount(|m|)) + Le64(8 * |m| % 0x1_0000_0000_0000_0000)
  }

  /** Section 3.5: the words from A to D, low-order byte first. */
  function Output(st: Words): (out: seq<Byte>)
    ensures |out| == 16
  {
    Le32(st.a) + Le32(st.b) + Le32(st.c) + Le32(st.d)
  }

  /** The word at each place of the digest, read low-order byte first. */
  lemma OutputWords(st: Words)
    ensures var out := Output(st);
      && FromLe32(out) == st.a && FromLe32(out[4..]) == st.b
      && FromLe32(out[8..]) == st.c && FromLe32(out[12..]) == st.d
  {
    var out := Output(st);
    WordAt(out, 0, st.a);
    WordAt(out, 4, st.b);
    WordAt(out, 8, st.c);
    WordAt(out, 12, st.d);
    assert out[0..] == out;
  }

  /** A word is read back where its four bytes are. */
  lemma WordAt(b: seq<Byte>, i: nat, x: Word)
    requires i + 4 <= |b| && b[i] == Le32(x)[0] && b[i + 1] == Le32(x)[1]
    requires b[i + 2] == Le32(x)[2] && b[i + 3] == Le32(x)[3]
    ensures FromLe32(b[i..]) == x
  {
    Le32Inverse(x);
    assert b[i..][0] == b[i] && b[i..][1] == b[i + 1] && b[i..][2] == b[i + 2] && b[i..][3] == b[i + 3];
    SameBytes(b[i..], Le32(x));
  }

  lemma SameBytes(b: seq<Byte>, c: seq<Byte>)
    requires |b| >= 4 && |c| >= 4 && b[0] == c[0] && b[1] == c[1] && b[2] == c[2] && b[3] == c[3]
    ensures FromLe32(b) == FromLe32(c)
  {
  }

  lemma FourBytes()
    ensures forall x: Word :: |Le32(x)| == 4
  {
  }

  /** Section 3.3: the bytes of the words the state starts from. */
  lemma StartBytes()
    ensures Le32(INIT.a) == [0x01, 0x23, 0x45, 0x67] && Le32(INIT.b) == [0x89, 0xab, 0xcd, 0xef]
    ensures Le32(INIT.c) == [0xfe, 0xdc, 0xba, 0x98] && Le32(INIT.d) == [0x76, 0x54, 0x32, 0x10]
  {
  }

  /** Sections 3.1 and 3.2: the input, a 1 bit, 0 bits, and in the last eight bytes the
      length of the input in bits, low-order byte first; whole blocks, none too many. */
  lemma PaddedIs(m: seq<Byte>)
    ensures var p := Padded(m); var n := |p| - 8;
      && |p| % BLOCK == 0 && |m| + 9 <= |p| < |m| + 9 + BLOCK
      && p[..|m|] == m && p[|m|] == 0x80 && (forall i :: |m| < i < n ==> p[i] == 0)
      && FromLe32(p[n..]) + 0x1_0000_0000 * FromLe32(p[n + 4..]) == 8 * |m| % TWO64
  {
    hide Le32, FromLe32;
    FourBytes();
    var x := 8 * |m| % TWO64;
    var p, z := Padded(m), Zeros(ZeroCount(|m|));
    var low, high := x % 0x1_0000_0000, x / 0x1_0000_0000;
    var n := |p| - 8;
    assert p == m + [0x80] + z + (Le32(low) + Le32(high));
    assert n == |m| + 1 + |z|;
    WordAt(p, n, low);
    WordAt(p, n + 4, high);
    PaddedSize(|m|);
  }

  lemma PaddedSize(n: nat)
    ensures (n + 1 + ZeroCount(n) + 8) % BLOCK == 0 && ZeroCount(n) < BLOCK
  {
  }

  ghost function Digest(f: Compress, m: seq<Byte>): seq<Byte> {
    Output(Fold(f, INIT, Padded(m)))
  }

  // ------------------------------------------------------------- the stream

  const TWO64 := 0x1_0000_0000_0000_0000

  /** Whole blocks of `fed` are folded into st, b is the remainder. */
  ghost predicate Held(f: Compress, st: Words, b: seq<Byte>, fed: seq<Byte>) {
    var n := |fed| - |b|;
    0 <= n && n % BLOCK == 0 && fed[n..] == b && st == Fold(f, INIT, fed[..n])
  }

  lemma Buffered(f: Compress, st: Words, b: seq<Byte>, fed: seq<Byte>, data: seq<Byte>)
    requires Held(f, st, b, fed)
    ensures Held(f, st, b + data, fed + data)
  {
    assert (fed + data)[..|fed| - |b|] == fed[..|fed| - |b|];
  }

  lemma Flushed(f: Compress, st: Words, b: seq<Byte>, fed: seq<Byte>)
    requires Held(f, st, b, fed) && |b| == BLOCK
    ensures Held(f, f(st, b), [], fed)
  {
    FoldBlock(f, INIT, fed[..|fed| - |b|], b);
    assert fed == fed[..|fed| - |b|] + b && fed[..|fed|] == fed;
  }

  lemma AllFolded(f: Compress, st: Words, fed: seq<Byte>)
    requires Held(f, st, [], fed)
    ensures st == Fold(f, INIT, fed)
  {
    assert fed[..|fed|] == fed;
  }

  lemma Remainder(f: Compress, st: Words, b: seq<Byte>, fed: seq<Byte>)
    requires Held(f, st, b, fed) && |b| < BLOCK
    ensures |b| <= |fed| && ZeroCount(|fed|) == if |b| < 56 then 55 - |b| else 119 - |b|
  {
    assert |fed| % BLOCK == |b|;
  }

  /** The bit count of n bytes, on 64 bits. */
  predicate Counted(length: nat, n: nat) {
    length == 8 * n % TWO64
  }

  lemma CountBlock(length: nat, n: nat)
    requires Counted(length, n)
    ensures Counted((length + 8 * BLOCK) % TWO64, n + BLOCK)
  {
  }

  /** struct md5_state; `seen` is all input so far. */
  class Md5State {
    const compress: Compress
    var length: nat
    var state: Words
    var curlen: nat
    const buf: array<Byte>
    ghost var seen: seq<Byte>

    /** Whole blocks are folded into the state, the remainder is buffered, and length
        counts the bits of the whole blocks. */
    ghost predicate Valid()
      reads this, buf
    {
      buf.Length == BLOCK && curlen < BLOCK && Held(compress, state, buf[..curlen], seen) && curlen <= |seen|
      && Counted(length, |seen| - curlen)
    }

    /** md5_init. */
    constructor (compress: Compress)
      ensures Valid() && seen == [] && this.compress == compress && fresh(buf)
    {
      this.compress, length, state, curlen, seen := compress, 0, INIT, 0, [];
      buf := new Byte[BLOCK](i => 0);
    }

    /** One turn of md5_process's loop. */
    method Absorb(data: seq<Byte>) returns (n: nat)
      requires Valid() && data != []
      modifies this, buf
      ensures Valid() && 0 < n <= |data| && seen == old(seen) + data[..n]
    {
      hide Held, Counted;
      CountBlock(length, |seen| - curlen);
      if curlen == 0 && |data| >= BLOCK {
        n := BLOCK;
        Buffered(compress, state, [], seen, data[..n]);
        assert [] + data[..n] == data[..n] && buf[..0] == [];
        seen := seen + data[..n];
        Flushed(compress, state, data[..n], seen);
        state := compress(state, data[..n]);
        length := (length + BLOCK * 8) % TWO64;
      } else {
        n := Min(|data|, BLOCK - curlen);
        Buffered(compress, state, buf[..curlen], seen, data[..n]);
        CopyIn(data[..n]);
        curlen := curlen + n;
        seen := seen + data[..n];
        if curlen == BLOCK {
          assert buf[..] == buf[..curlen] && buf[..0] == [];
          Flushed(compress, state, buf[..], seen);
          state := compress(state, buf[..]);
          length := (length + 8 * BLOCK) % TWO64;
          curlen := 0;
        }
      }
    }

    /** memcpy to the end of what is buffered. */
    method CopyIn(data: seq<Byte>)
      requires buf.Length == BLOCK && curlen + |data| <= BLOCK
      modifies buf
      ensures buf[..curlen + |data|] == old(buf[..curlen]) + data
    {
      var i := 0;
      while i < |data|
        invariant 0 <= i <= |data| && buf[..curlen + i] == old(buf[..curlen]) + data[..i]
      {
        buf[curlen + i] := data[i];
        assert data[..i + 1] == data[..i] + [data[i]];
        i := i + 1;
      }
      assert data[..i] == data;
    }

    /** md5_process. */
    method Process(data: seq<Byte>)
      requires Valid()
      modifies this, buf
      ensures Valid() && seen == old(seen) + data
    {
      hide Valid;
      var at := 0;
      assert old(seen) + data[..0] == old(seen);
      while at < |data|
        invariant 0 <= at <= |data| && Valid() && seen == old(seen) + data[..at]
      {
        var n := Absorb(data[at..]);
        assert data[..at + n] == data[..at] + data[at..][..n];
        at := at + n;
      }
      assert data[..at] == data;
    }

    /** The zero-filling loops of md5_done. */
    method Fill(to: nat)
      requires buf.Length == BLOCK && curlen <= to <= BLOCK
      modifies this`curlen, buf
      ensures curlen == to && buf[..to] == old(buf[..curlen]) + Zeros(to - old(curlen))
    {
      assert Zeros(0) == [];
      ghost var start := curlen;
      while curlen < to
        invariant start <= curlen <= to && buf[..curlen] == old(buf[..curlen]) + Zeros(curlen - start)
      {
        buf[curlen] := 0;
        curlen := curlen + 1;
      }
    }

    /** The padding of md5_done: up to 56 bytes of the last block. */
    method Pad()
      requires buf.Length == BLOCK && curlen < BLOCK && Held(compress, state, buf[..curlen], seen)
      modifies this`state, this`curlen, buf
      ensures curlen == 56 && seen == old(seen)
      ensures Held(compress, state, buf[..56], seen + [0x80] + Zeros(ZeroCount(|seen|)))
    {
      hide Held, Zeros, Fold, ZeroCount;
      ghost var b := buf[..curlen];
      Remainder(compress, state, b, seen);
      Buffered(compress, state, b, seen, [0x80]);
      ghost var fed := seen + [0x80];
      buf[curlen] := 0x80;
      curlen := curlen + 1;
      assert buf[..curlen] == b + [0x80];
      NoZeros();
      ghost var zeros := 0;
      if curlen > 56 {
        zeros := BLOCK - curlen;
        fed := LastBlock(fed);
      }
      assert fed == seen + [0x80] + Zeros(zeros);
      ghost var more := 56 - curlen;
      Buffered(compress, state, buf[..curlen], fed, Zeros(more));
      MoreZeros(seen + [0x80], zeros, more);
      Fill(56);
    }

    /** The block that has no room for the length. */
    method LastBlock(ghost fed: seq<Byte>) returns (ghost now: seq<Byte>)
      requires buf.Length == BLOCK && curlen <= BLOCK && Held(compress, state, buf[..curlen], fed)
      modifies this`state, this`curlen, buf
      ensures curlen == 0 && now == fed + Zeros(BLOCK - old(curlen)) && Held(compress, state, buf[..0], now)
    {
      hide Held, Zeros;
      ghost var zeros := BLOCK - curlen;
      Buffered(compress, state, buf[..curlen], fed, Zeros(zeros));
      Fill(BLOCK);
      now := fed + Zeros(zeros);
      assert buf[..] == buf[..BLOCK];
      Flushed(compress, state, buf[..], now);
      state := compress(state, buf[..]);
      curlen := 0;
      assert buf[..0] == [];
    }

    /** md5_done. */
    method Done() returns (out: seq<Byte>)
      requires Valid()
      modifies this, buf
      ensures out == Digest(compress, seen) && seen == old(seen)
      ensures |out| == 16
      ensures var st := Fold(compress, INIT, Padded(seen));
        && FromLe32(out) == st.a && FromLe32(out[4..]) == st.b
        && FromLe32(out[8..]) == st.c && FromLe32(out[12..]) == st.d
    {
      hide Held, Zeros, Fold, ZeroCount, FromLe32, Le32;
      Bits(|seen|, curlen, length);
      length := (length + curlen * 8) % TWO64;
      Pad();
      ghost var fed := seen + [0x80] + Zeros(ZeroCount(|seen|));
      Buffered(compress, state, buf[..56], fed, Le64(length));
      CopyIn(Le64(length));
      fed := fed + Le64(length);
      assert buf[..] == buf[..BLOCK];
      Flushed(compress, state, buf[..], fed);
      AllFolded(compress, compress(state, buf[..]), fed);
      state := compress(state, buf[..]);
      out := Output(state);
      OutputWords(state);
    }
  }

  lemma Bits(n: nat, curlen: nat, length: nat)
    requires curlen <= n && Counted(length, n - curlen)
    ensures (length + curlen * 8) % TWO64 == 8 * n % TWO64
  {
  }

  lemma NoZeros()
    ensures Zeros(0) == []
  {
  }

  lemma MoreZeros(x: seq<Byte>, m: nat, n: nat)
    ensures x + Zeros(m) + Zeros(n) == x + Zeros(m + n)
  {
  }

  // --------------------------------------------------- digest of a message

  /** __msgbuf_md5: the digest sees every node's bytes, whatever the counts say. */
  method MsgInto(md5: Md5State, msg: Msgbuf, ghost t: Tree)
    requires md5.Valid() && Rep(t) && t.obj == msg && Fit(Val(t))
    modifies md5, md5.buf
    ensures md5.Valid() && md5.seen == old(md5.seen) + Bytes(Val(t))
    decreases t
  {
    hide Md5State.Valid, Rep, RepAll, Roots, Fit, FitAll, Bytes, BytesAll, Own, Val, ValAll, Objs, ObjsAll;
    Elsewhere(t, md5, md5.buf);
    ElsewhereAll(t.subs, md5, md5.buf);
    ObjsAllocated(t);
    ObjsAllAllocated(t.subs);
    OwnFacts(t);
    var own := Le16(msg.checksum) + Le16(msg.cmsgNum + 16 * msg.cmsgLength) + Le32(|msg.ubase|) + msg.ubase;
    md5.Process(own);
    var i := 0;
    assert t.subs[0..] == t.subs;
    SubsStart(md5.seen, old(md5.seen), t);
    while i < |msg.subs|
      invariant 0 <= i <= |msg.subs| == |t.subs| && md5.Valid() && RepAll(t.subs) && msg.subs == Roots(t.subs)
      invariant FitAll(ValAll(t.subs[i..]))
      invariant md5.seen + BytesAll(ValAll(t.subs[i..])) == old(md5.seen) + Bytes(Val(t))
    {
      Split(t.subs, i);
      RootAt(t.subs, i);
      SubsStep(md5.seen, t.subs, i);
      ElsewhereAll(t.subs, md5, md5.buf);
      ObjsAllAllocated(t.subs);
      MsgInto(md5, msg.subs[i], t.subs[i]);
      i := i + 1;
    }
    assert t.subs[i..] == [];
    NoBytes(md5.seen);
  }

  lemma NoBytes(seen: seq<Byte>)
    ensures FitAll(ValAll([])) && seen + BytesAll(ValAll([])) == seen
  {
  }

  lemma {:induction false} OwnFacts(t: Tree)
    requires Rep(t) && Fit(Val(t))
    ensures var m := t.obj;
      && m.checksum < 0x1_0000 && m.cmsgNum + 16 * m.cmsgLength < 0x1_0000
      && |m.ubase| < 0x1_0000_0000 && FieldsFit(Val(t))
      && Own(Val(t)) == Le16(m.checksum) + Le16(m.cmsgNum + 16 * m.cmsgLength) + Le32(|m.ubase|) + m.ubase
      && m.subs == Roots(t.subs) && RepAll(t.subs)
  {
  }

  lemma {:induction false} SubsStart(seen: seq<Byte>, before: seq<Byte>, t: Tree)
    requires Fit(Val(t)) && seen == before + Own(Val(t))
    ensures FitAll(ValAll(t.subs)) && seen + BytesAll(ValAll(t.subs)) == before + Bytes(Val(t))
  {
  }

  lemma {:induction false} SubsStep(seen: seq<Byte>, ts: seq<Tree>, i: nat)
    requires i < |ts| && FitAll(ValAll(ts[i..]))
    ensures Fit(Val(ts[i])) && FitAll(ValAll(ts[i + 1..]))
    ensures seen + BytesAll(ValAll(ts[i..])) == seen + Bytes(Val(ts[i])) + BytesAll(ValAll(ts[i + 1..]))
  {
    assert ts[i..][1..] == ts[i + 1..] && ValAll(ts[i..])[1..] == ValAll(ts[i + 1..]);
    SeqAssoc(seen, Bytes(Val(ts[i])), BytesAll(ValAll(ts[i + 1..])));
  }

  lemma {:induction false} Elsewhere(t: Tree, a: Md5State, b: array<Byte>)
    ensures forall o :: o in Objs(t) ==> o as object != a && o as object != b
  {
  }

  lemma {:induction false} ElsewhereAll(ts: seq<Tree>, a: Md5State, b: array<Byte>)
    ensures forall o :: o in ObjsAll(ts) ==> o as object != a && o as object != b
  {
  }
}
