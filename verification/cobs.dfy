/**
 Consistent Overhead Byte Stuffing: the code as a relation on byte strings.

 `Encode` and `Decode` describe which string a packet is turned into and back; the pointer loops of
 the implementation are proved against them in CobsCodec.
 */
module Cobs {
  import opened Bytes

  /** Number of data bytes in a block that carries no implied zero. */
  const FULL_BLOCK := 254

  ghost predicate ZeroFree(s: bytes) {
    forall i :: 0 <= i < |s| ==> s[i] != 0
  }

  /** Length of the zero-free run that starts `s`, cut off at `limit`. */
  function RunLength(s: bytes, limit: nat): (k: nat)
    ensures k <= |s| && k <= limit
    ensures forall i :: 0 <= i < k ==> s[i] != 0
    ensures k < |s| && k < limit ==> s[k] == 0
  {
    if s == [] || limit == 0 || s[0] == 0 then 0 else 1 + RunLength(s[1..], limit - 1)
  }

  function Encode(s: bytes): bytes {
    var k := RunLength(s, FULL_BLOCK);
    if k == FULL_BLOCK then [0xFF] + s[..k] + Encode(s[k..])
    else if k == |s| then [k + 1] + s
    else [k + 1] + s[..k] + Encode(s[k+1..])
  }

  function Decode(x: bytes): Option<bytes> {
    if x == [] then Some([])
    else if x[0] == 0 || x[0] > |x| then None
    else
      var rest := x[x[0]..];
      match Decode(rest)
      case None => None
      case Some(d) => Some(x[1..x[0]] + Separator(x[0], rest != []) + d)
  }

  // ---------------------------------------------------------------------------------------------
  // Inverse

  lemma RunLengthIs(s: bytes, limit: nat, k: nat)
    requires k <= |s| && k <= limit
    requires forall i :: 0 <= i < k ==> s[i] != 0
    requires k == limit || k == |s| || s[k] == 0
    ensures RunLength(s, limit) == k
  {
  }

  lemma {:induction false} EncodeNonEmpty(s: bytes)
    ensures |Encode(s)| >= |s| + 1
    ensures ZeroFree(Encode(s))
  {
    var k := RunLength(s, FULL_BLOCK);
    if k < |s| || k == FULL_BLOCK {
      var tail := if k == FULL_BLOCK then s[k..] else s[k+1..];
      EncodeNonEmpty(tail);
      assert Encode(s) == [k + 1] + s[..k] + Encode(tail);
    }
  }

  /** The bytes a decoder puts between a block with code `c` and what follows it. */
  function Separator(c: byte, more: bool): bytes {
    if c < 0xFF && more then [0] else []
  }

  lemma DecodeBlock(block: bytes, rest: bytes)
    requires |block| <= FULL_BLOCK
    ensures var c := |block| + 1; Decode([c] + block + rest) == match Decode(rest)
            case None => None
            case Some(d) => Some(block + Separator(c, rest != []) + d)
  {
    var x := [|block| + 1] + block + rest;
    assert x[1..x[0]] == block && x[x[0]..] == rest;
  }

  /** How the encoder treats a packet that starts with the content of one block. */
  lemma EncodeBlock(block: bytes, rest: bytes, tail: bytes)
    requires ZeroFree(block) && |block| <= FULL_BLOCK
    requires rest == [] ==> tail == []
    ensures var c := |block| + 1;
            Encode(block + Separator(c, rest != []) + tail)
            == [c] + block + if c == 0xFF || rest != [] then Encode(tail) else []
  {
    var c := |block| + 1;
    var d := block + Separator(c, rest != []) + tail;
    RunLengthIs(d, FULL_BLOCK, |block|);
    assert d[..|block|] == block;
    if c == 0xFF {
      assert d[|block|..] == tail;
    } else if rest != [] {
      assert d[|block|+1..] == tail;
    } else {
      assert d == block;
    }
  }

  lemma Resplit(s: bytes, k: nat)
    requires k <= |s| && k <= FULL_BLOCK
    requires k < FULL_BLOCK ==> k < |s| && s[k] == 0
    ensures s == s[..k] + Separator(k + 1, true) + if k == FULL_BLOCK then s[k..] else s[k+1..]
  {
  }

  lemma RoundTripLast(block: bytes)
    requires ZeroFree(block) && |block| < FULL_BLOCK
    ensures Decode(Encode(block)) == Some(block)
  {
    RunLengthIs(block, FULL_BLOCK, |block|);
    assert [|block| + 1] + block + [] == [|block| + 1] + block;
    DecodeBlock(block, []);
    assert block + [] + [] == block;
  }

  lemma RoundTripStep(block: bytes, tail: bytes)
    requires ZeroFree(block) && |block| <= FULL_BLOCK
    requires Decode(Encode(tail)) == Some(tail)
    ensures var s := block + Separator(|block| + 1, true) + tail; Decode(Encode(s)) == Some(s)
  {
    EncodeNonEmpty(tail);
    EncodeBlock(block, Encode(tail), tail);
    DecodeBlock(block, Encode(tail));
  }

  /** Decoding undoes encoding, for inputs of every length and content. */
  lemma {:induction false} RoundTrip(s: bytes)
    ensures Decode(Encode(s)) == Some(s)
  {
    var k := RunLength(s, FULL_BLOCK);
    if k == |s| && k < FULL_BLOCK {
      RoundTripLast(s);
    } else {
      var tail := if k == FULL_BLOCK then s[k..] else s[k+1..];
      Resplit(s, k);
      RoundTrip(tail);
      RoundTripStep(s[..k], tail);
    }
  }

  // ---------------------------------------------------------------------------------------------
  // Canonicity

  /** The last block of a decodable string is a full one, with nothing after it. */
  predicate EndsFull(x: bytes) {
    x == [] || (0 < x[0] <= |x| && (x[0] < 0xFF ==> x[0] < |x|) && EndsFull(x[x[0]..]))
  }

  lemma EndsFullStep(block: bytes, rest: bytes)
    requires |block| <= FULL_BLOCK
    ensures EndsFull([|block| + 1] + block + rest) == ((|block| == FULL_BLOCK || rest != []) && EndsFull(rest))
  {
    var x := [|block| + 1] + block + rest;
    assert x[x[0]..] == rest;
  }

  lemma CanonicalStep(block: bytes, rest: bytes, tail: bytes)
    requires ZeroFree(block) && |block| <= FULL_BLOCK && (rest == [] ==> tail == [])
    requires Encode(tail) == rest + if EndsFull(rest) then [1] else []
    ensures var x := [|block| + 1] + block + rest;
      Encode(block + Separator(|block| + 1, rest != []) + tail) == x + if EndsFull(x) then [1] else []
  {
    EndsFullStep(block, rest);
    EncodeBlock(block, rest, tail);
    hide Encode, EndsFull, Separator;
  }

  /**
   A zero-free string is the encoding of what it decodes to, except that a string ending in a full
   block lacks the 0x01 which the encoder would add.
   */
  lemma {:induction false} Canonical(x: bytes)
    requires ZeroFree(x) && Decode(x).Some?
    ensures Encode(Decode(x).value) == x + if EndsFull(x) then [1] else []
  {
    if x != [] {
      hide Encode, EndsFull, Separator;
      var c := x[0];
      var block, rest := x[1..c], x[c..];
      assert x == [c] + block + rest;
      DecodeBlock(block, rest);
      Canonical(rest);
      CanonicalStep(block, rest, Decode(rest).value);
    }
  }

  /** Two zero-free strings that decode alike differ by at most one trailing 0x01. */
  lemma DecodeInjective(x: bytes, y: bytes)
    requires ZeroFree(x) && ZeroFree(y)
    requires Decode(x).Some? && Decode(x) == Decode(y)
    ensures x == y || x == y + [1] || y == x + [1]
    ensures EndsFull(x) == EndsFull(y) ==> x == y
  {
    Canonical(x);
    Canonical(y);
    var e := Encode(Decode(x).value);
    if EndsFull(x) == EndsFull(y) {
      assert x == e[..|x|] && y == e[..|y|];
    }
  }

  // ---------------------------------------------------------------------------------------------
  // Size

  /**
   Number of full blocks a packet fills: every maximal zero-free run of length r holds r / 254 of
   them.
   */
  function FullBlocks(s: bytes): nat
    decreases |s|
  {
    var r := RunLength(s, |s|);
    r / FULL_BLOCK + if r == |s| then 0 else FullBlocks(s[r+1..])
  }

  lemma {:induction false} FullBlocksStep(s: bytes)
    requires RunLength(s, FULL_BLOCK) == FULL_BLOCK
    ensures FullBlocks(s) == 1 + FullBlocks(s[FULL_BLOCK..])
  {
    var r, t := RunLength(s, |s|), s[FULL_BLOCK..];
    RunLengthIs(t, |t|, r - FULL_BLOCK);
    if r < |s| {
      assert t[r-FULL_BLOCK+1..] == s[r+1..];
    }
  }

  /** An encoding is longer than its input by one byte, and by one more per full block. */
  lemma {:induction false} EncodedSize(s: bytes)
    ensures |Encode(s)| == |s| + 1 + FullBlocks(s)
  {
    var k := RunLength(s, FULL_BLOCK);
    if k == FULL_BLOCK {
      FullBlocksStep(s);
      EncodedSize(s[k..]);
    } else {
      RunLengthIs(s, |s|, k);
      if k < |s| {
        EncodedSize(s[k+1..]);
      }
    }
  }

  lemma {:induction false} FullBlocksBound(s: bytes)
    ensures FullBlocks(s) * FULL_BLOCK <= |s|
    ensures FullBlocks(s) <= |s| / FULL_BLOCK
    decreases |s|
  {
    var r := RunLength(s, |s|);
    if r < |s| {
      FullBlocksBound(s[r+1..]);
    }
  }

  /** The overhead never exceeds one byte, plus one for every 254 bytes of input. */
  lemma EncodedSizeBound(s: bytes)
    ensures |s| + 1 <= |Encode(s)| <= |s| + |s| / FULL_BLOCK + 1
  {
    EncodedSize(s);
    FullBlocksBound(s);
  }
}
