/**
 What the CRC loops compute: the remainder of a polynomial division over GF(2), and what that
 implies for the errors a frame check detects.
 */
module CrcDivision {
  import opened Bytes
  import opened Crc
  import opened Gf2

  // ---------------------------------------------------------------------------------------------
  // Registers and messages as polynomials

  /** The register with only bit `i` set. */
  function Mask(i: nat): bv16
    requires i < 16
  {
    if i < 8 then
      if i < 4 then (if i < 2 then (if i == 0 then 0x1 else 0x2) else (if i == 2 then 0x4 else 0x8))
      else if i < 6 then (if i == 4 then 0x10 else 0x20) else (if i == 6 then 0x40 else 0x80)
    else
      if i < 12 then (if i < 10 then (if i == 8 then 0x100 else 0x200) else (if i == 10 then 0x400 else 0x800))
      else if i < 14 then (if i == 12 then 0x1000 else 0x2000) else (if i == 14 then 0x4000 else 0x8000)
  }

  predicate Bit(r: bv16, i: nat) {
    i < 16 && r & Mask(i) != 0
  }

  /** Bit i of the register is the coefficient of x^i. */
  ghost function Poly(r: bv16): poly {
    set i: nat | i < 16 && Bit(r, i)
  }

  /** 2^i, for the bits of a byte. */
  function Weight(i: nat): (w: nat)
    requires i < 8
    ensures w > 0
  {
    if i < 4 then (if i < 2 then (if i == 0 then 1 else 2) else (if i == 2 then 4 else 8))
    else (if i < 6 then (if i == 4 then 16 else 32) else (if i == 6 then 64 else 128))
  }

  /** Bit i of the low byte of n. */
  predicate IntBit(n: nat, i: nat) {
    i < 8 && n / Weight(i) % 2 == 1
  }

  /** The bits of a byte; bit 7 comes first in the division. */
  ghost function BytePoly(b: byte): poly {
    set i: nat | i < 8 && IntBit(b, i)
  }

  /** The bits of a byte string, the first byte holding the highest exponents. */
  ghost function MessagePoly(s: bytes): poly {
    set i: nat | i < 8 * |s| && IntBit(s[|s| - 1 - i / 8], i % 8)
  }

  lemma XorLaws(r: bv16, s: bv16, m: bv16)
    ensures (r ^ s) & m == (r & m) ^ (s & m)
    ensures m ^ m == 0 && m ^ 0 == m && 0 ^ m == m
  {
  }

  lemma BitXor(r: bv16, s: bv16, i: nat)
    requires i < 16
    ensures Bit(r ^ s, i) == (Bit(r, i) != Bit(s, i))
  {
    XorLaws(r, s, Mask(i));
  }

  lemma BitLeft(r: bv16, i: nat)
    requires i < 16
    ensures Bit(r << 1, i) == (i > 0 && Bit(r, i - 1))
    ensures Bit(r << 8, i) == (i >= 8 && Bit(r, i - 8))
  {
  }

  lemma HighTable(n: nat)
    requires n < 0x1_0000
    ensures (n as bv16) & 0x0100 != 0 <==> IntBit(n / 256, 0)
    ensures (n as bv16) & 0x0200 != 0 <==> IntBit(n / 256, 1)
    ensures (n as bv16) & 0x0400 != 0 <==> IntBit(n / 256, 2)
    ensures (n as bv16) & 0x0800 != 0 <==> IntBit(n / 256, 3)
  {
  }

  lemma HighestTable(n: nat)
    requires n < 0x1_0000
    ensures (n as bv16) & 0x1000 != 0 <==> IntBit(n / 256, 4)
    ensures (n as bv16) & 0x2000 != 0 <==> IntBit(n / 256, 5)
    ensures (n as bv16) & 0x4000 != 0 <==> IntBit(n / 256, 6)
    ensures (n as bv16) & 0x8000 != 0 <==> IntBit(n / 256, 7)
  {
  }

  /** The bits of a converted integer are those of its two bytes. */
  lemma BitOfInt(n: nat, i: nat)
    requires n < 0x1_0000 && i < 16
    ensures Bit(n as bv16, i) == if i < 8 then IntBit(n, i) else IntBit(n / 256, i - 8)
  {
    if i < 8 {
    } else {
      HighTable(n);
      HighestTable(n);
    }
    hide IntBit;
  }

  lemma PolyXor(r: bv16, s: bv16)
    ensures Poly(r ^ s) == Add(Poly(r), Poly(s))
  {
    forall i: nat | i < 16 ensures Bit(r ^ s, i) == (Bit(r, i) != Bit(s, i)) {
      BitXor(r, s, i);
    }
  }

  lemma PolyLeft(r: bv16)
    ensures Poly(r << 1) == Shift(Poly(r), 1) - {16}
  {
    forall i: nat ensures i in Poly(r << 1) <==> i < 16 && i in Shift(Poly(r), 1) {
      InShift(Poly(r), 1, i);
      if i < 16 {
        BitLeft(r, i);
      }
    }
    InShift(Poly(r), 1, 16);
    assert forall i :: i in Shift(Poly(r), 1) ==> i <= 16;
  }

  lemma PolyGenerator()
    ensures Poly(GENERATOR) == {0, 5, 12} && TimesG({0}) == {0, 5, 12, 16} && TimesG({}) == {}
  {
    forall i: nat ensures i in Poly(GENERATOR) <==> i in {0, 5, 12} {
    }
    forall i: nat ensures i in TimesG({0}) <==> i in {0, 5, 12, 16} {
      InTimesG({0}, i);
    }
    forall i: nat ensures i !in TimesG({}) {
      InTimesG({}, i);
    }
  }

  lemma TopBit(r: bv16)
    ensures 16 in Shift(Poly(r), 1) <==> r & 0x8000 != 0
  {
    InShift(Poly(r), 1, 16);
  }

  lemma Reduce(a: poly, r: poly)
    requires 16 in a && r == Add(a - {16}, {0, 5, 12})
    ensures a == Add({0, 5, 12, 16}, r)
  {
  }

  /** One round multiplies by x and subtracts the generator when the degree reaches 16. */
  lemma PolyStep(r: bv16)
    ensures Shift(Poly(r), 1) == Add(TimesG(if r & 0x8000 != 0 then {0} else {}), Poly(BitStep(r)))
  {
    TopBit(r);
    PolyLeft(r);
    PolyGenerator();
    if r & 0x8000 != 0 {
      PolyXor(r << 1, GENERATOR);
      Reduce(Shift(Poly(r), 1), Poly(BitStep(r)));
    } else {
      assert Shift(Poly(r), 1) == Add({}, Poly(BitStep(r)));
    }
  }

  lemma {:induction false} PolySteps(r: bv16, n: nat) returns (q: poly)
    ensures Shift(Poly(r), n) == Add(TimesG(q), Poly(BitSteps(r, n)))
  {
    if n == 0 {
      q := {};
      assert Shift(Poly(r), 0) == Poly(r);
    } else {
      var p := PolySteps(r, n - 1);
      var mid := BitSteps(r, n - 1);
      PolyStep(mid);
      Congruent(Shift(Poly(r), n - 1), p, Poly(mid), 1, {});
      ShiftShift(Poly(r), n - 1, 1);
      q := Add(Shift(p, 1), if mid & 0x8000 != 0 then {0} else {});
      Chain(Shift(Poly(r), n), Shift(p, 1), Shift(Poly(mid), 1), if mid & 0x8000 != 0 then {0} else {}, Poly(BitSteps(r, n)));
    }
  }

  lemma PolyByte(b: byte)
    ensures Poly((b as bv16) << 8) == Shift(BytePoly(b), 8)
  {
    forall i: nat ensures i in Poly((b as bv16) << 8) <==> i in Shift(BytePoly(b), 8) {
      InShift(BytePoly(b), 8, i);
      if i < 16 {
        BitLeft(b as bv16, i);
        if i >= 8 {
          BitOfInt(b, i - 8);
        }
      }
    }
  }

  lemma MessageAppend(s: bytes, b: byte)
    ensures MessagePoly(s + [b]) == Add(Shift(MessagePoly(s), 8), BytePoly(b))
  {
    forall i: nat ensures i in MessagePoly(s + [b]) <==> i in Add(Shift(MessagePoly(s), 8), BytePoly(b)) {
      InShift(MessagePoly(s), 8, i);
      if 8 <= i < 8 * |s| + 8 {
        assert (s + [b])[|s| - i / 8] == s[|s| - 1 - (i - 8) / 8];
      }
    }
  }

  // ---------------------------------------------------------------------------------------------
  // Division

  /** What the register stands for: the start value, then the message, then 16 zero bits. */
  ghost function Dividend(r: bv16, s: bytes): poly {
    Add(Shift(Poly(r), 8 * |s|), Shift(MessagePoly(s), 16))
  }

  lemma DividendAppend(r: bv16, s: bytes, b: byte)
    ensures Dividend(r, s + [b]) == Add(Shift(Dividend(r, s), 8), Shift(BytePoly(b), 16))
  {
    var start, m := Shift(Poly(r), 8 * |s|), MessagePoly(s);
    calc {
      Dividend(r, s + [b]);
      { MessageAppend(s, b); ShiftShift(Poly(r), 8 * |s|, 8); }
      Add(Shift(start, 8), Shift(Add(Shift(m, 8), BytePoly(b)), 16));
      { AddShift(Shift(m, 8), BytePoly(b), 16); ShiftShift(m, 8, 16); ShiftShift(m, 16, 8); }
      Add(Shift(start, 8), Add(Shift(Shift(m, 16), 8), Shift(BytePoly(b), 16)));
      { AddAssoc(Shift(start, 8), Shift(Shift(m, 16), 8), Shift(BytePoly(b), 16)); }
      Add(Add(Shift(start, 8), Shift(Shift(m, 16), 8)), Shift(BytePoly(b), 16));
      { AddShift(start, Shift(m, 16), 8); }
      Add(Shift(Dividend(r, s), 8), Shift(BytePoly(b), 16));
    }
  }

  lemma FeedByte(mid: bv16, b: byte)
    ensures Add(Shift(Poly(mid), 8), Shift(BytePoly(b), 16)) == Shift(Poly(mid ^ ((b as bv16) << 8)), 8)
  {
    ShiftShift(BytePoly(b), 8, 8);
    AddShift(Poly(mid), Shift(BytePoly(b), 8), 8);
    PolyByte(b);
    PolyXor(mid, (b as bv16) << 8);
  }

  lemma QuotientStep(r: bv16, s: bytes, b: byte, p: poly) returns (q: poly)
    requires Dividend(r, s) == Add(TimesG(p), Poly(Run(r, s)))
    ensures Dividend(r, s + [b]) == Add(TimesG(q), Poly(Run(r, s + [b])))
  {
    var mid := Run(r, s);
    var fed := mid ^ ((b as bv16) << 8);
    DividendAppend(r, s, b);
    Congruent(Dividend(r, s), p, Poly(mid), 8, Shift(BytePoly(b), 16));
    FeedByte(mid, b);
    var t := PolySteps(fed, 8);
    RunAppend(r, s, b);
    Chain(Dividend(r, s + [b]), Shift(p, 8), Shift(Poly(fed), 8), t, Poly(BitSteps(fed, 8)));
    q := Add(Shift(p, 8), t);
  }

  lemma {:induction false} Quotient(r: bv16, s: bytes) returns (q: poly)
    ensures Dividend(r, s) == Add(TimesG(q), Poly(Run(r, s)))
  {
    if s == [] {
      q := {};
      PolyGenerator();
      assert Shift(Poly(r), 0) == Poly(r) && MessagePoly(s) == {} && Shift(MessagePoly(s), 16) == {};
      assert Add(Poly(r), {}) == Poly(r) == Add({}, Poly(r));
    } else {
      var front, b := s[..|s|-1], s[|s|-1];
      assert s == front + [b];
      var p := Quotient(r, front);
      q := QuotientStep(r, front, b, p);
    }
  }

  /**
   After `update` over any bytes the register is the remainder of the polynomial division of
   (start value * x^(8n) + message * x^16) by x^16 + x^12 + x^5 + 1.
   */
  lemma Division(r: bv16, s: bytes)
    ensures IsRemainder(Dividend(r, s), Poly(Run(r, s)))
    ensures forall p: poly :: IsRemainder(Dividend(r, s), p) ==> p == Poly(Run(r, s))
  {
    var q := Quotient(r, s);
    forall p: poly | IsRemainder(Dividend(r, s), p) ensures p == Poly(Run(r, s)) {
      RemainderUnique(Dividend(r, s), p, Poly(Run(r, s)));
    }
  }

  lemma AddSwap(a: poly, b: poly, c: poly, d: poly)
    ensures Add(Add(a, b), Add(c, d)) == Add(Add(a, c), Add(b, d))
  {
  }

  /** The registers of two messages of one length differ by the remainder of their difference. */
  lemma Affine(r: bv16, a: bytes, b: bytes)
    requires |a| == |b|
    ensures IsRemainder(Shift(Add(MessagePoly(a), MessagePoly(b)), 16), Add(Poly(Run(r, a)), Poly(Run(r, b))))
  {
    var p := Quotient(r, a);
    var q := Quotient(r, b);
    var ra, rb := Poly(Run(r, a)), Poly(Run(r, b));
    var start := Shift(Poly(r), 8 * |a|);
    calc {
      Shift(Add(MessagePoly(a), MessagePoly(b)), 16);
      { AddShift(MessagePoly(a), MessagePoly(b), 16); }
      Add(Shift(MessagePoly(a), 16), Shift(MessagePoly(b), 16));
      { Cancel(start, Shift(MessagePoly(a), 16), Shift(MessagePoly(b), 16)); }
      Add(Dividend(r, a), Dividend(r, b));
      { AddSwap(TimesG(p), ra, TimesG(q), rb); TimesGAdd(p, q); }
      Add(TimesG(Add(p, q)), Add(ra, rb));
    }
  }

  lemma Cancel(s: poly, a: poly, b: poly)
    ensures Add(a, b) == Add(Add(s, a), Add(s, b))
  {
  }

  // ---------------------------------------------------------------------------------------------
  // Error detection

  /** The positions of the bits in which two byte strings of one length differ. */
  ghost function Flipped(a: bytes, b: bytes): poly {
    Add(MessagePoly(a), MessagePoly(b))
  }

  /** An error burst: at least one bit differs, and all that do lie within 16 consecutive bits. */
  ghost predicate Burst(a: bytes, b: bytes, low: nat) {
    |a| == |b| && Flipped(a, b) != {} && forall i :: i in Flipped(a, b) ==> low <= i < low + 16
  }

  lemma NarrowIsNoMultiple(d: poly, low: nat, q: poly)
    requires d != {} && forall i :: i in d ==> low <= i < low + 16
    ensures Shift(d, 16) != TimesG(q)
  {
    if Shift(d, 16) == TimesG(q) {
      var i :| i in d;
      InShift(d, 16, i + 16);
      PolyGenerator();
      var lo, hi := MultiplesAreWide(q);
      InShift(d, 16, lo);
      InShift(d, 16, hi);
    }
  }

  lemma ChecksumIsRun(s: bytes)
    ensures Checksum(s) == Run(INITIAL, s)
  {
    var r := Run(INITIAL, s);
    assert r ^ XOR_OUT == r;
  }

  /** A burst always changes the checksum, whatever the length of the message. */
  lemma BurstChangesChecksum(a: bytes, b: bytes, low: nat)
    requires Burst(a, b, low)
    ensures Checksum(a) != Checksum(b)
  {
    ChecksumIsRun(a);
    ChecksumIsRun(b);
    Affine(INITIAL, a, b);
    if Checksum(a) == Checksum(b) {
      assert Add(Poly(Checksum(a)), Poly(Checksum(b))) == {};
      var q :| Shift(Flipped(a, b), 16) == Add(TimesG(q), {});
      assert Add(TimesG(q), {}) == TimesG(q);
      NarrowIsNoMultiple(Flipped(a, b), low, q);
    }
  }

  lemma Monotone(w: nat, a: nat, b: nat)
    requires a <= b
    ensures w * a <= w * b
  {
  }

  lemma QuotientIs(n: nat, w: nat, x: nat, r: nat)
    requires r < w && n == w * x + r
    ensures n / w == x
  {
    var d := n / w;
    assert n == w * d + n % w;
    if d < x {
      Monotone(w, d + 1, x);
    } else if d > x {
      Monotone(w, x + 1, d);
    }
  }

  /** Adding a multiple of 2w leaves the parity of the quotient by w alone. */
  lemma SameParity(n: nat, q: nat, r: nat, w: nat, m: nat)
    requires w > 0 && n == w * (2 * m * q) + r
    ensures n / w % 2 == r / w % 2
  {
    var t := m * q;
    var x := 2 * t + r / w;
    assert n == w * x + r % w by {
      assert n == w * (2 * t) + r && r == w * (r / w) + r % w;
      assert w * (2 * t) + w * (r / w) == w * x;
    }
    QuotientIs(n, w, x, r % w);
  }

  lemma BitOfLowByte(n: nat, i: nat)
    requires i < 8
    ensures IntBit(n % 256, i) == IntBit(n, i)
  {
    var q, r := n / 256, n % 256;
    if i < 4 {
      if i == 0 { SameParity(n, q, r, 1, 128); }
      else if i == 1 { SameParity(n, q, r, 2, 64); }
      else if i == 2 { SameParity(n, q, r, 4, 32); }
      else { SameParity(n, q, r, 8, 16); }
    } else {
      if i == 4 { SameParity(n, q, r, 16, 8); }
      else if i == 5 { SameParity(n, q, r, 32, 4); }
      else if i == 6 { SameParity(n, q, r, 64, 2); }
      else { SameParity(n, q, r, 128, 1); }
    }
  }

  lemma BitOfField(c: bv16, i: nat)
    requires i < 16
    ensures Bit(c, i) == if i < 8 then IntBit(Field(c)[0], i) else IntBit(Field(c)[1], i - 8)
  {
    hide Bit, IntBit, Field;
    assert (c as int) as bv16 == c;
    FieldBytes(c);
    BitOfInt(c as int, i);
    if i < 8 {
      BitOfLowByte(c as int, i);
    }
  }

  lemma FieldPoly(c: bv16)
    ensures Poly(c) == Add(BytePoly(Field(c)[0]), Shift(BytePoly(Field(c)[1]), 8))
  {
    var lo, hi := Field(c)[0], Field(c)[1];
    forall i: nat ensures i in Poly(c) <==> i in Add(BytePoly(lo), Shift(BytePoly(hi), 8)) {
      InShift(BytePoly(hi), 8, i);
      if i < 16 {
        BitOfField(c, i);
      }
    }
  }

  lemma OddField(c: bv16)
    ensures Odd(Poly(c)) == (Odd(BytePoly(Field(c)[0])) != Odd(BytePoly(Field(c)[1])))
  {
    FieldPoly(c);
    OddAdd(BytePoly(Field(c)[0]), Shift(BytePoly(Field(c)[1]), 8));
    ShiftSize(BytePoly(Field(c)[1]), 8);
  }

  lemma OddMessage(s: bytes, b: byte)
    ensures Odd(MessagePoly(s + [b])) == (Odd(MessagePoly(s)) != Odd(BytePoly(b)))
  {
    MessageAppend(s, b);
    ShiftSize(MessagePoly(s), 8);
    OddAdd(Shift(MessagePoly(s), 8), BytePoly(b));
  }

  lemma InitialIsEven()
    ensures !Odd(Poly(INITIAL))
  {
    forall i: nat | i < 16 ensures Bit(INITIAL, i) {
    }
    BelowSize(Poly(INITIAL), 16);
  }

  lemma {:induction false} BelowSize(p: poly, n: nat)
    requires forall i: nat :: i in p <==> i < n
    ensures |p| == n
  {
    if n == 0 {
      assert p == {};
    } else {
      BelowSize(p - {n - 1}, n - 1);
    }
  }

  lemma ChecksumParity(s: bytes)
    ensures Odd(Poly(Checksum(s))) == Odd(MessagePoly(s))
  {
    var start, m, r := Shift(Poly(INITIAL), 8 * |s|), Shift(MessagePoly(s), 16), Poly(Run(INITIAL, s));
    var q := Quotient(INITIAL, s);
    OddAdd(start, m);
    ShiftSize(Poly(INITIAL), 8 * |s|);
    ShiftSize(MessagePoly(s), 16);
    InitialIsEven();
    OddAdd(TimesG(q), r);
    MultiplesAreEven(q);
    ChecksumIsRun(s);
  }

  /** A payload followed by its CRC field has an even number of one bits. */
  lemma EvenParity(s: bytes)
    ensures !Odd(MessagePoly(s + Field(Checksum(s))))
  {
    var f := Field(Checksum(s));
    ChecksumParity(s);
    OddField(Checksum(s));
    OddMessage(s, f[0]);
    OddMessage(s + [f[0]], f[1]);
    assert s + f == s + [f[0]] + [f[1]];
  }
}
