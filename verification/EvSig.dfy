/** struct ev_sig (src/ev/ev.c): a queue of signals with a pipe that wakes the loop. */
module EvSig {
  import opened Bufio
  import opened MsgTree

  type Signo = x: nat | x < 0x1_0000_0000

  /** The signals not yet taken and the number of tokens in the pipe. */
  datatype Sig = Sig(queue: seq<Signo>, tokens: nat)

  /** ev_signal: a token goes into the pipe when the queue was empty. */
  function Posted(s: Sig, signo: Signo): Sig {
    Sig(s.queue + [signo], if s.queue == [] then s.tokens + 1 else s.tokens)
  }

  /** ev_get_signals. */
  function Taken(s: Sig, size: nat): Sig {
    Sig(s.queue[Min(size, |s.queue|)..], s.tokens)
  }

  /** ev_unsignal: all tokens leave with an empty queue, otherwise one. */
  function Unsignalled(s: Sig): Sig
    requires s.queue != [] ==> s.tokens > 0
  {
    Sig(s.queue, if s.queue == [] then 0 else s.tokens - 1)
  }

  const INT := 4

  /** Signals as the bytes the bio holds. */
  ghost function Packed(q: seq<Signo>): (b: seq<Byte>)
    ensures |b| == INT * |q|
  {
    if q == [] then [] else Le32(q[0]) + Packed(q[1..])
  }

  lemma {:induction false} PackedConcat(p: seq<Signo>, q: seq<Signo>)
    ensures Packed(p + q) == Packed(p) + Packed(q)
  {
    if p == [] {
      assert p + q == q;
    } else {
      assert (p + q)[1..] == p[1..] + q;
      PackedConcat(p[1..], q);
    }
  }

  /** The bytes of the first n signals are the first 4 * n bytes. */
  lemma {:induction false} PackedSplit(q: seq<Signo>, n: nat)
    requires n <= |q|
    ensures Packed(q)[..INT * n] == Packed(q[..n]) && Packed(q)[INT * n..] == Packed(q[n..])
  {
    assert q == q[..n] + q[n..];
    PackedConcat(q[..n], q[n..]);
  }

  class EventSignal {
    const signals: Bio
    var tokens: nat
    ghost var queue: seq<Signo>

    ghost predicate Valid()
      reads this, signals, signals.repr
    {
      && signals.Valid() && this !in signals.repr && signals.Contents() == Packed(queue)
    }

    ghost function State(): Sig
      reads this
    {
      Sig(queue, tokens)
    }

    constructor ()
      ensures Valid() && State() == Sig([], 0) && fresh(signals.repr) && fresh(signals)
    {
      signals := new Bio();
      tokens, queue := 0, [];
    }

    /** ev_signal. */
    method Signal(signo: Signo)
      requires Valid()
      modifies this, signals.repr
      ensures Valid() && State() == Posted(old(State()), signo) && fresh(signals.repr - old(signals.repr))
      ensures queue == old(queue) + [signo] && tokens == old(tokens) + if old(queue) == [] then 1 else 0
    {
      PackedConcat(queue, [signo]);
      assert Packed([signo]) == Le32(signo) + [] == Le32(signo);
      if signals.bsize == 0 {
        assert queue == [];
        tokens := tokens + 1;
      }
      var rc := signals.Write(Le32(signo));
      queue := queue + [signo];
    }

    /** ev_get_signals; fills an array of at most `size` signals. */
    method GetSignals(size: nat) returns (sigset: seq<Signo>)
      requires Valid()
      modifies this`queue, signals.repr
      ensures Valid() && State() == Taken(old(State()), size) && signals.repr == old(signals.repr)
      ensures old(queue) == sigset + queue && |sigset| == Min(size, |old(queue)|) && tokens == old(tokens)
    {
      ghost var n := Min(size, |queue|);
      PackedSplit(queue, n);
      ghost var whole := queue;
      var bytes := signals.Read(INT * size);
      assert |bytes| == INT * n && bytes == Packed(whole[..n]);
      queue := queue[n..];
      sigset := Unpack(bytes, whole[..n]);
    }

    /** ev_unsignal. */
    method Unsignal()
      requires Valid() && (queue != [] ==> tokens > 0)
      modifies this`tokens
      ensures Valid() && State() == Unsignalled(old(State())) && queue == old(queue)
      ensures tokens == if old(tokens) == 0 || queue == [] then 0 else old(tokens) - 1
    {
      if signals.bsize == 0 {
        assert queue == [];
        while tokens > 0 {
          tokens := tokens - Min(tokens, 1024);
        }
      } else {
        assert queue != [];
        tokens := tokens - 1;
      }
    }
  }

  /** Reading the copied bytes as an array of ints. */
  method Unpack(bytes: seq<Byte>, ghost q: seq<Signo>) returns (sigset: seq<Signo>)
    requires bytes == Packed(q)
    ensures sigset == q
  {
    sigset := [];
    var i := 0;
    while i < |bytes| / INT
      invariant 0 <= i <= |bytes| / INT == |q| && sigset == q[..i]
    {
      PackedSplit(q, i);
      PackedSplit(q[i..], 1);
      assert bytes[INT * i..][..INT] == Packed([q[i]]) == Le32(q[i]);
      assert bytes[INT * i..] == Le32(q[i]) + bytes[INT * i + INT..];
      Le32Inverse(q[i]);
      sigset := sigset + [FromLe32(bytes[INT * i..])];
      i := i + 1;
    }
  }
}
