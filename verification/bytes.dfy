/** Bytes, 16-bit words and the optional values shared by every layer of the stack. */
module Bytes {

  type byte = x: int | 0 <= x < 256

  type bytes = seq<byte>

  datatype Option<+T> = None | Some(value: T)

  // Words and their bytes are reached by counting, which spares proofs about headers the arithmetic of
  // quotients and remainders; WordIs and BytesOf give the usual terms.

  /** The unsigned 16-bit value whose high byte is `hi` and low byte is `lo`. */
  function Word(hi: byte, lo: byte): (w: nat)
    ensures w < 256 * (hi as nat + 1)
  {
    if hi == 0 then lo else 256 + Word(hi - 1, lo)
  }

  /** Bits 0..7 of a value, as `v & 0xFF` computes them. */
  function LoByte(v: nat): byte {
    if v < 256 then v else LoByte(v - 256)
  }

  /** Bits 8..15 of a value, as `(v >> 8) & 0xFF` computes them. */
  function HiByte(v: nat): byte {
    if v < 256 then 0 else LoByte(HiByte(v - 256) + 1)
  }

  lemma {:induction false} WordIs(hi: byte, lo: byte)
    ensures Word(hi, lo) == (hi as nat) * 256 + lo
  {
    if hi > 0 {
      WordIs(hi - 1, lo);
    }
  }

  lemma {:induction false} BytesOf(v: nat)
    ensures LoByte(v) == v % 256 && HiByte(v) == v / 256 % 256
  {
    if v >= 256 {
      BytesOf(v - 256);
    }
  }

  lemma WordOfBytes(v: nat)
    requires v <= 0xFFFF
    ensures Word(HiByte(v), LoByte(v)) == v
  {
    BytesOf(v);
    WordIs(HiByte(v), LoByte(v));
  }

  lemma BytesOfWord(hi: byte, lo: byte)
    ensures HiByte(Word(hi, lo)) == hi && LoByte(Word(hi, lo)) == lo
  {
    BytesOf(Word(hi, lo));
    WordIs(hi, lo);
  }

  /** Concatenation of a list of byte strings. */
  function Flatten(parts: seq<bytes>): bytes {
    if parts == [] then [] else parts[0] + Flatten(parts[1..])
  }

  lemma {:induction false} FlattenAppend(a: seq<bytes>, b: seq<bytes>)
    ensures Flatten(a + b) == Flatten(a) + Flatten(b)
  {
    if a == [] {
      assert a + b == b;
    } else {
      calc {
        Flatten(a + b);
        { assert (a + b)[1..] == a[1..] + b; }
        a[0] + Flatten(a[1..] + b);
        { FlattenAppend(a[1..], b); }
        a[0] + (Flatten(a[1..]) + Flatten(b));
        Flatten(a) + Flatten(b);
      }
    }
  }

  /** The array holds `s` from index `pos` on. */
  ghost predicate At(a: array<byte>, pos: nat, s: bytes)
    reads a
  {
    pos + |s| <= a.Length && forall k :: 0 <= k < |s| ==> a[pos + k] == s[k]
  }

  /** The elements of `a` occur in `b` in the same order, perhaps with others between them. */
  predicate Within<T(==)>(a: seq<T>, b: seq<T>) {
    a == [] || (b != [] && ((a[0] == b[0] && Within(a[1..], b[1..])) || Within(a, b[1..])))
  }

  lemma {:induction false} WithinConcat<T>(a: seq<T>, b: seq<T>, c: seq<T>, d: seq<T>)
    requires Within(a, b) && Within(c, d)
    ensures Within(a + c, b + d)
    decreases |b|
  {
    if b == [] {
      assert a + c == c && b + d == d;
    } else {
      assert (b + d)[1..] == b[1..] + d;
      if a != [] && a[0] == b[0] && Within(a[1..], b[1..]) {
        WithinConcat(a[1..], b[1..], c, d);
        assert (a + c)[1..] == a[1..] + c;
      } else {
        WithinConcat(a, b[1..], c, d);
      }
    }
  }

  lemma {:induction false} WithinSelf<T>(a: seq<T>)
    ensures Within(a, a)
  {
    if a != [] {
      WithinSelf(a[1..]);
    }
  }
}
