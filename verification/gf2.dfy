/**
 Polynomials over GF(2), each written as the set of exponents whose coefficient is 1.
 The generator is x^16 + x^12 + x^5 + 1, the one of CRC-16/CCITT.
 */
module Gf2 {

  type poly = set<nat>

  /** Addition, which is also subtraction: the exponents that occur in exactly one summand. */
  ghost function Add(a: poly, b: poly): poly {
    (a - b) + (b - a)
  }

  /** Multiplication by x^k. */
  ghost function Shift(a: poly, k: nat): poly {
    set i | i in a :: i + k
  }

  /** Multiplication by the generator. */
  ghost function TimesG(q: poly): poly {
    Add(Add(Shift(q, 16), Shift(q, 12)), Add(Shift(q, 5), q))
  }

  /** `r` is what division of `a` by the generator leaves. */
  ghost predicate IsRemainder(a: poly, r: poly) {
    (forall i :: i in r ==> i < 16) && exists q: poly :: a == Add(TimesG(q), r)
  }

  lemma InShift(a: poly, k: nat, i: nat)
    ensures i in Shift(a, k) <==> i >= k && i - k in a
  {
    if i >= k && i - k in a {
      assert (i - k) + k in Shift(a, k);
    }
  }

  lemma InTimesG(q: poly, i: nat)
    ensures i in TimesG(q) <==>
      (((i >= 16 && i - 16 in q) != (i >= 12 && i - 12 in q)) != ((i >= 5 && i - 5 in q) != (i in q)))
  {
    InShift(q, 16, i);
    InShift(q, 12, i);
    InShift(q, 5, i);
  }

  lemma AddShift(a: poly, b: poly, k: nat)
    ensures Shift(Add(a, b), k) == Add(Shift(a, k), Shift(b, k))
  {
    forall i: nat ensures i in Shift(Add(a, b), k) <==> i in Add(Shift(a, k), Shift(b, k)) {
      InShift(Add(a, b), k, i);
      InShift(a, k, i);
      InShift(b, k, i);
    }
  }

  lemma ShiftShift(a: poly, j: nat, k: nat)
    ensures Shift(Shift(a, j), k) == Shift(a, j + k)
  {
    forall i: nat ensures i in Shift(Shift(a, j), k) <==> i in Shift(a, j + k) {
      InShift(Shift(a, j), k, i);
      InShift(a, j + k, i);
      if i >= k {
        InShift(a, j, i - k);
      }
    }
  }

  lemma TimesGShift(q: poly, k: nat)
    ensures TimesG(Shift(q, k)) == Shift(TimesG(q), k)
  {
    forall j | j in {5, 12, 16} ensures Shift(Shift(q, k), j) == Shift(Shift(q, j), k) {
      ShiftShift(q, k, j);
      ShiftShift(q, j, k);
    }
    AddShift(Shift(q, 16), Shift(q, 12), k);
    AddShift(Shift(q, 5), q, k);
    AddShift(Add(Shift(q, 16), Shift(q, 12)), Add(Shift(q, 5), q), k);
  }

  lemma TimesGAdd(p: poly, q: poly)
    ensures TimesG(Add(p, q)) == Add(TimesG(p), TimesG(q))
  {
    forall i: nat ensures i in TimesG(Add(p, q)) <==> i in Add(TimesG(p), TimesG(q)) {
      InTimesG(Add(p, q), i);
      InTimesG(p, i);
      InTimesG(q, i);
    }
  }

  /** Multiplying a congruence by x^k and adding a polynomial to both of its sides. */
  lemma Congruent(a: poly, q: poly, r: poly, k: nat, b: poly)
    requires a == Add(TimesG(q), r)
    ensures Add(Shift(a, k), b) == Add(TimesG(Shift(q, k)), Add(Shift(r, k), b))
  {
    AddShift(TimesG(q), r, k);
    TimesGShift(q, k);
    AddAssoc(Shift(TimesG(q), k), Shift(r, k), b);
  }

  lemma AddAssoc(a: poly, b: poly, c: poly)
    ensures Add(Add(a, b), c) == Add(a, Add(b, c))
  {
  }

  lemma Chain(a: poly, q: poly, b: poly, p: poly, r: poly)
    requires a == Add(TimesG(q), b) && b == Add(TimesG(p), r)
    ensures a == Add(TimesG(Add(q, p)), r)
  {
    TimesGAdd(q, p);
    AddAssoc(TimesG(q), TimesG(p), r);
  }

  // ---------------------------------------------------------------------------------------------
  // Multiples of the generator are wide

  lemma {:induction false} HasMax(q: poly) returns (m: nat)
    requires q != {}
    ensures m in q && forall i :: i in q ==> i <= m
    decreases |q|
  {
    var k :| k in q;
    var rest := q - {k};
    m := k;
    if rest != {} {
      var n := HasMax(rest);
      m := if k < n then n else k;
    }
    assert forall i :: i in q ==> i == k || i in rest;
  }

  lemma {:induction false} HasMin(q: poly) returns (m: nat)
    requires q != {}
    ensures m in q && forall i :: i in q ==> m <= i
    decreases |q|
  {
    var k :| k in q;
    var rest := q - {k};
    m := k;
    if rest != {} {
      var n := HasMin(rest);
      m := if n < k then n else k;
    }
    assert forall i :: i in q ==> i == k || i in rest;
  }

  /** A non-zero multiple of the generator has two terms at least 16 exponents apart. */
  lemma MultiplesAreWide(q: poly) returns (low: nat, high: nat)
    requires q != {}
    ensures low in TimesG(q) && high in TimesG(q) && high >= low + 16
  {
    low := HasMin(q);
    high := HasMax(q);
    InTimesG(q, low);
    InTimesG(q, high + 16);
    high := high + 16;
  }

  /** Division by the generator leaves one remainder. */
  lemma RemainderUnique(a: poly, r: poly, s: poly)
    requires IsRemainder(a, r) && IsRemainder(a, s)
    ensures r == s
  {
    var p :| a == Add(TimesG(p), r);
    var q :| a == Add(TimesG(q), s);
    TimesGAdd(p, q);
    assert TimesG(Add(p, q)) == Add(r, s);
    if Add(p, q) != {} {
      var low, high := MultiplesAreWide(Add(p, q));
    } else {
      assert p == q;
      assert Add(TimesG(p), a) == r && Add(TimesG(q), a) == s;
    }
  }

  // ---------------------------------------------------------------------------------------------
  // Number of terms, modulo 2

  ghost predicate Odd(a: poly) {
    |a| % 2 == 1
  }

  lemma OddAdd(a: poly, b: poly)
    ensures Odd(Add(a, b)) == (Odd(a) != Odd(b))
  {
    assert a == (a - b) + (a * b) && b == (b - a) + (a * b);
    assert |a| == |a - b| + |a * b| && |b| == |b - a| + |a * b|;
    assert |Add(a, b)| == |a - b| + |b - a|;
  }

  lemma {:induction false} ShiftSize(a: poly, k: nat)
    ensures |Shift(a, k)| == |a|
    decreases |a|
  {
    if a == {} {
      assert Shift(a, k) == {};
    } else {
      var i :| i in a;
      ShiftSize(a - {i}, k);
      forall j: nat ensures j in Shift(a, k) <==> j in Shift(a - {i}, k) + {i + k} {
        InShift(a, k, j);
        InShift(a - {i}, k, j);
      }
      InShift(a - {i}, k, i + k);
      assert Shift(a, k) == Shift(a - {i}, k) + {i + k};
    }
  }

  /** A multiple of the generator has an even number of terms. */
  lemma MultiplesAreEven(q: poly)
    ensures !Odd(TimesG(q))
  {
    ShiftSize(q, 16);
    ShiftSize(q, 12);
    ShiftSize(q, 5);
    OddAdd(Shift(q, 16), Shift(q, 12));
    OddAdd(Shift(q, 5), q);
    OddAdd(Add(Shift(q, 16), Shift(q, 12)), Add(Shift(q, 5), q));
  }
}
