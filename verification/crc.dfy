/** The bitwise CRC-16/CCITT loops. What they compute is the subject of CrcDivision. */
module Crc {
  import opened Bytes

  const GENERATOR: bv16 := 0x1021
  const INITIAL: bv16 := 0xFFFF
  const XOR_OUT: bv16 := 0x0000

  // ---------------------------------------------------------------------------------------------
  // What the loops compute

  /** One round of the inner loop. */
  function BitStep(r: bv16): bv16 {
    if r & 0x8000 != 0 then (r << 1) ^ GENERATOR else r << 1
  }

  /** `n` rounds of the inner loop. */
  function BitSteps(r: bv16, n: nat): bv16 {
    if n == 0 then r else BitStep(BitSteps(r, n - 1))
  }

  /** The register after `update` has run over `s`, starting from `r`. */
  function Run(r: bv16, s: bytes): bv16 {
    if s == [] then r
    else
      var last := |s| - 1;
      BitSteps(Run(r, s[..last]) ^ ((s[last] as bv16) << 8), 8)
  }

  /** What `finalize` makes of the register. */
  function Final(r: bv16): bv16 {
    r ^ XOR_OUT
  }

  /** The CRC of a payload. */
  function Checksum(s: bytes): bv16 {
    Final(Run(INITIAL, s))
  }

  /** A CRC accumulator. */
  class CRC {
    var reg: bv16

    constructor ()
      ensures reg == INITIAL
    {
      reg := INITIAL;
    }

    method Reset()
      modifies this
      ensures reg == INITIAL
    {
      reg := INITIAL;
    }

    method Update(data: array<byte>, len: nat)
      requires len <= data.Length
      modifies this
      ensures reg == Run(old(reg), data[..len])
    {
      for i := 0 to len
        invariant reg == Run(old(reg), data[..i])
      {
        assert data[..i+1][..i] == data[..i];
        UpdateByte(data[i]);
      }
    }

    method UpdateByte(b: byte)
      modifies this
      ensures reg == BitSteps(old(reg) ^ ((b as bv16) << 8), 8)
    {
      reg := reg ^ ((b as bv16) << 8);
      ghost var start := reg;
      for j := 0 to 8
        invariant reg == BitSteps(start, j)
      {
        if reg & 0x8000 != 0 {
          reg := (reg << 1) ^ GENERATOR;
        } else {
          reg := reg << 1;
        }
      }
    }

    method Finalize() returns (value: bv16)
      ensures value == Final(reg)
    {
      return reg ^ XOR_OUT;
    }
  }

  /** `reset`, `update` and `finalize` in a row. */
  method Compute(data: array<byte>, len: nat) returns (value: bv16)
    requires len <= data.Length
    ensures value == Checksum(data[..len])
  {
    hide Run, Final;
    var crc := new CRC();
    crc.Reset();
    crc.Update(data, len);
    value := crc.Finalize();
  }

  // ---------------------------------------------------------------------------------------------
  // The CRC field of a frame: two bytes, least significant first

  function Field(c: bv16): (f: bytes)
    ensures |f| == 2
  {
    [LoByte(c as int), HiByte(c as int)]
  }

  function ReadField(lo: byte, hi: byte): nat {
    Word(hi, lo)
  }

  lemma FieldBytes(c: bv16)
    ensures Field(c)[0] == (c as int) % 256 && Field(c)[1] == (c as int) / 256
  {
    hide HiByte, LoByte;
    ByteOfWord(c as int);
  }

  lemma ByteOfWord(v: nat)
    requires v <= 0xFFFF
    ensures LoByte(v) == v % 256 && HiByte(v) == v / 256
  {
    BytesOf(v);
  }

  lemma FieldRoundTrip(c: bv16)
    ensures ReadField(Field(c)[0], Field(c)[1]) == c as int
  {
    hide Word, HiByte, LoByte;
    WordOfBytes(c as int);
  }

  /** A frame's two CRC bytes match a checksum exactly when they are its encoding. */
  lemma FieldMatches(c: bv16, lo: byte, hi: byte)
    ensures ReadField(lo, hi) == c as int <==> [lo, hi] == Field(c)
  {
    hide Word, HiByte, LoByte;
    WordOfBytes(c as int);
    BytesOfWord(hi, lo);
  }

  lemma FieldInjective(a: bv16, b: bv16)
    requires Field(a) == Field(b)
    ensures a == b
  {
    FieldRoundTrip(a);
    FieldRoundTrip(b);
    assert (a as int) as bv16 == a && (b as int) as bv16 == b;
  }

  function EightSteps(r: bv16): bv16 {
    BitStep(BitStep(BitStep(BitStep(BitStep(BitStep(BitStep(BitStep(r))))))))
  }

  lemma EightStepsAre(r: bv16)
    ensures BitSteps(r, 8) == EightSteps(r)
  {
    hide BitStep;
    assert BitSteps(r, 1) == BitStep(BitSteps(r, 0));
    assert BitSteps(r, 2) == BitStep(BitSteps(r, 1)) && BitSteps(r, 3) == BitStep(BitSteps(r, 2));
    assert BitSteps(r, 4) == BitStep(BitSteps(r, 3)) && BitSteps(r, 5) == BitStep(BitSteps(r, 4));
    assert BitSteps(r, 6) == BitStep(BitSteps(r, 5)) && BitSteps(r, 7) == BitStep(BitSteps(r, 6));
  }

  lemma RunDigit(s: bytes, d: byte, before: bv16, after: bv16)
    requires Run(INITIAL, s) == before
    requires EightSteps(before ^ ((d as bv16) << 8)) == after
    ensures Run(INITIAL, s + [d]) == after
  {
    hide EightSteps;
    RunAppend(INITIAL, s, d);
    EightStepsAre(before ^ ((d as bv16) << 8));
  }

  lemma CheckRegisters()
    ensures EightSteps(0xFFFF ^ (0x31 << 8)) == 0xC782
    ensures EightSteps(0xC782 ^ (0x32 << 8)) == 0x3DBA
    ensures EightSteps(0x3DBA ^ (0x33 << 8)) == 0x5BCE
    ensures EightSteps(0x5BCE ^ (0x34 << 8)) == 0x5349
    ensures EightSteps(0x5349 ^ (0x35 << 8)) == 0x4560
    ensures EightSteps(0x4560 ^ (0x36 << 8)) == 0x2EF4
    ensures EightSteps(0x2EF4 ^ (0x37 << 8)) == 0x7718
    ensures EightSteps(0x7718 ^ (0x38 << 8)) == 0xA12B
    ensures EightSteps(0xA12B ^ (0x39 << 8)) == 0x29B1
  {
  }

  /** The check value of CRC-16/CCITT with this initial value: the CRC of the digits 1 to 9. */
  lemma CheckValue()
    ensures Checksum([0x31, 0x32, 0x33, 0x34, 0x35, 0x36, 0x37, 0x38, 0x39]) == 0x29B1
  {
    hide EightSteps, Run;
    CheckRegisters();
    RunNone();
    var s: bytes := [];
    RunDigit(s, 0x31, 0xFFFF, 0xC782);
    s := s + [0x31];
    RunDigit(s, 0x32, 0xC782, 0x3DBA);
    s := s + [0x32];
    RunDigit(s, 0x33, 0x3DBA, 0x5BCE);
    s := s + [0x33];
    RunDigit(s, 0x34, 0x5BCE, 0x5349);
    s := s + [0x34];
    RunDigit(s, 0x35, 0x5349, 0x4560);
    s := s + [0x35];
    RunDigit(s, 0x36, 0x4560, 0x2EF4);
    s := s + [0x36];
    RunDigit(s, 0x37, 0x2EF4, 0x7718);
    s := s + [0x37];
    RunDigit(s, 0x38, 0x7718, 0xA12B);
    s := s + [0x38];
    RunDigit(s, 0x39, 0xA12B, 0x29B1);
    s := s + [0x39];
    assert s == [0x31, 0x32, 0x33, 0x34, 0x35, 0x36, 0x37, 0x38, 0x39];
  }

  lemma RunNone()
    ensures Run(INITIAL, []) == 0xFFFF
  {
  }

  lemma RunAppend(r: bv16, s: bytes, b: byte)
    ensures Run(r, s + [b]) == BitSteps(Run(r, s) ^ ((b as bv16) << 8), 8)
  {
    assert (s + [b])[..|s|] == s;
  }

  /** The register carries everything the CRC keeps of the bytes seen so far. */
  lemma {:induction false} RunConcat(r: bv16, a: bytes, b: bytes)
    ensures Run(r, a + b) == Run(Run(r, a), b)
  {
    hide BitSteps;
    if b == [] {
      assert a + b == a;
    } else {
      var front, last := b[..|b|-1], b[|b|-1];
      RunConcat(r, a, front);
      RunAppend(r, a + front, last);
      RunAppend(Run(r, a), front, last);
      assert a + b == a + front + [last] && b == front + [last];
    }
  }
}
