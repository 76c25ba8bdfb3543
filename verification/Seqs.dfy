/** Sequences without repetition, and taking an element out of one. */
module Seqs {

  ghost predicate NoDup<A>(s: seq<A>) {
    forall i, j :: 0 <= i < j < |s| ==> s[i] != s[j]
  }

  ghost function Elems<A>(s: seq<A>): set<A> {
    set x | x in s
  }

  lemma NoDupConcat<A>(s: seq<A>, t: seq<A>)
    ensures NoDup(s + t) <==> NoDup(s) && NoDup(t) && Elems(s) !! Elems(t)
    ensures Elems(s + t) == Elems(s) + Elems(t)
  {
    var u := s + t;
    if NoDup(u) {
      forall i, j | 0 <= i < j < |s| ensures s[i] != s[j] { assert u[i] == s[i] && u[j] == s[j]; }
      forall i, j | 0 <= i < j < |t| ensures t[i] != t[j] { assert u[|s| + i] == t[i] && u[|s| + j] == t[j]; }
      forall i, j | 0 <= i < |s| && 0 <= j < |t| ensures s[i] != t[j] { assert u[i] == s[i] && u[|s| + j] == t[j]; }
    }
    if NoDup(s) && NoDup(t) && Elems(s) !! Elems(t) {
      forall i, j | 0 <= i < j < |u| ensures u[i] != u[j] {
        if i < |s| <= j { assert u[i] in Elems(s) && u[j] in Elems(t); }
      }
    }
  }

  lemma NoDupDrop<A>(a: seq<A>, l: seq<A>, n: A, r: seq<A>, b: seq<A>)
    requires NoDup(a + (l + [n] + r) + b)
    ensures NoDup(a + (l + r) + b)
  {
    var before, after := a + (l + [n] + r) + b, a + (l + r) + b;
    var k := |a| + |l|;
    forall i, j | 0 <= i < j < |after| ensures after[i] != after[j] {
      var i', j' := if i < k then i else i + 1, if j < k then j else j + 1;
      assert before[i'] == after[i] && before[j'] == after[j];
    }
  }

  lemma ElemsInsert<A>(a: seq<A>, n: A, b: seq<A>)
    ensures Elems(a + [n] + b) == Elems(a + b) + {n}
  {
    var s, t := a + [n] + b, a + b;
    assert s[|a|] == n;
    forall i | 0 <= i < |t| ensures t[i] == s[if i < |a| then i else i + 1] {
    }
    forall i | 0 <= i < |s| && i != |a| ensures s[i] == t[if i < |a| then i else i - 1] {
    }
  }

  /** s without x. */
  ghost function Minus<A>(s: seq<A>, x: A): (r: seq<A>)
    ensures |r| <= |s|
  {
    if s == [] then [] else (if s[0] == x then [] else [s[0]]) + Minus(s[1..], x)
  }

  lemma {:induction false} MinusConcat<A>(s: seq<A>, t: seq<A>, x: A)
    ensures Minus(s + t, x) == Minus(s, x) + Minus(t, x)
  {
    if s == [] {
      assert s + t == t;
    } else {
      assert (s + t)[1..] == s[1..] + t;
      MinusConcat(s[1..], t, x);
    }
  }

  lemma {:induction false} MinusAbsent<A>(s: seq<A>, x: A)
    requires x !in s
    ensures Minus(s, x) == s
  {
    if s != [] {
      MinusAbsent(s[1..], x);
    }
  }

  lemma {:induction false} MinusOnce<A>(p: seq<A>, x: A, q: seq<A>)
    requires NoDup(p + ([x] + q))
    ensures Minus(p + ([x] + q), x) == p + q
  {
    hide NoDup, Minus;
    assert x !in p && x !in q by {
      NoDupConcat(p, [x] + q);
      NoDupConcat([x], q);
      assert x in [x] && x in Elems([x]) && x in Elems([x] + q);
    }
    MinusConcat(p, [x] + q, x);
    MinusConcat([x], q, x);
    MinusAbsent(p, x);
    MinusAbsent(q, x);
    MinusSingle(x);
    assert [] + q == q;
  }

  lemma MinusSingle<A>(x: A)
    ensures Minus([x], x) == []
  {
    assert [x][1..] == [];
  }

  lemma MinusMiddle<A>(a: seq<A>, l: seq<A>, x: A, r: seq<A>, b: seq<A>)
    requires NoDup(a + (l + [x] + r) + b)
    ensures Minus(a + (l + [x] + r) + b, x) == a + (l + r) + b
  {
    hide NoDup, Minus;
    assert a + (l + [x] + r) + b == (a + l) + ([x] + (r + b));
    assert a + (l + r) + b == (a + l) + (r + b);
    MinusOnce(a + l, x, r + b);
  }

  lemma {:induction false} MinusMembers<A>(s: seq<A>, e: A)
    ensures e !in Minus(s, e) && forall x :: x in s && x != e <==> x in Minus(s, e)
  {
    if s != [] { MinusMembers(s[1..], e); }
  }

  lemma MinusIs<A>(s: seq<A>, i: nat)
    requires i < |s| && NoDup(s)
    ensures Minus(s, s[i]) == s[..i] + s[i + 1..]
  {
    hide NoDup, Minus;
    assert s == s[..i] + ([s[i]] + s[i + 1..]);
    MinusOnce(s[..i], s[i], s[i + 1..]);
  }

  lemma {:induction false} MinusNone<A>(s: seq<A>, e: A)
    requires NoDup(s)
    ensures NoDup(Minus(s, e)) && (e !in s ==> Minus(s, e) == s)
  {
    if e in s {
      var i :| 0 <= i < |s| && s[i] == e;
      MinusIs(s, i);
    } else {
      MinusAbsent(s, e);
    }
  }

  lemma {:induction false} MinusLast<A>(s: seq<A>, e: A)
    requires e !in s
    ensures Minus(s + [e], e) == s
  {
    if s == [] {
      assert [e][1..] == [] && s + [e] == [e];
    } else {
      assert (s + [e])[1..] == s[1..] + [e];
      MinusLast(s[1..], e);
    }
  }

  /** Removing one of distinct elements: where it was cut out, and what is left. */
  lemma {:induction false} MinusCut<A>(s: seq<A>, x: A) returns (p: seq<A>, q: seq<A>)
    requires x in s && NoDup(s)
    ensures s == p + [x] + q && Minus(s, x) == p + q
    ensures Elems(Minus(s, x)) == Elems(s) - {x}
  {
    hide Minus, NoDup;
    var i :| 0 <= i < |s| && s[i] == x;
    p, q := s[..i], s[i + 1..];
    assert s == p + ([x] + q) && s == p + [x] + q;
    MinusOnce(p, x, q);
    ElemsInsert(p, x, q);
    MinusMembers(s, x);
  }

  /** Taking the first element out of a sequence of distinct elements leaves the rest. */
  lemma MinusFirst<A>(s: seq<A>)
    requires s != [] && NoDup(s)
    ensures Minus(s, s[0]) == s[1..]
  {
    MinusIs(s, 0);
  }
}
