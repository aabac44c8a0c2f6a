/** The pointer loops of the COBS encoder and decoder, proved against the code in Cobs. */
module CobsCodec {
  import opened Bytes
  import opened Cobs

  /** How many bytes the encoder reports: all of the encoding, or 0 when it does not fit. */
  function EncodedLength(s: bytes, capacity: nat): nat {
    if |Encode(s)| <= capacity then |Encode(s)| else 0
  }

  /** How many bytes the decoder reports: 0 also stands for a malformed or oversized packet. */
  function DecodedLength(x: bytes, capacity: nat): nat {
    match Decode(x)
    case None => 0
    case Some(d) => if |d| <= capacity then |d| else 0
  }

  // ---------------------------------------------------------------------------------------------
  // Progress of the encoder: `done` is final, `block` follows an open code byte, `rest` is unread.

  ghost predicate Encoding(s: bytes, done: bytes, block: bytes, rest: bytes) {
    ZeroFree(block) && |block| < FULL_BLOCK && Encode(s) == done + Encode(block + rest)
  }

  lemma EncodingStart(s: bytes)
    ensures Encoding(s, [], [], s)
  {
    assert [] + s == s && [] + Encode(s) == Encode(s);
  }

  lemma EncodingRoom(s: bytes, done: bytes, block: bytes, rest: bytes)
    requires Encoding(s, done, block, rest)
    ensures |Encode(s)| >= |done| + |block| + |rest| + 1
  {
    EncodeNonEmpty(block + rest);
  }

  lemma Regroup(a: bytes, b: bytes, c: bytes, d: bytes)
    ensures a + (b + c + d) == a + b + c + d
  {
  }

  lemma CloseBlock(s: bytes, done: bytes, block: bytes, more: bool, rest: bytes)
    requires ZeroFree(block) && |block| <= FULL_BLOCK && (more || |block| == FULL_BLOCK)
    requires Encode(s) == done + Encode(block + Separator(|block| + 1, more) + rest)
    ensures Encoding(s, done + [|block| + 1] + block, [], rest)
  {
    var c := |block| + 1;
    EncodeNonEmpty(rest);
    EncodeBlock(block, Encode(rest), rest);
    assert Separator(c, more) == Separator(c, Encode(rest) != []);
    hide Encode, Separator;
    Regroup(done, [c], block, Encode(rest));
    assert [] + rest == rest;
  }

  lemma EncodingZero(s: bytes, done: bytes, block: bytes, rest: bytes)
    requires Encoding(s, done, block, [0] + rest)
    ensures Encoding(s, done + [|block| + 1] + block, [], rest)
  {
    assert block + ([0] + rest) == block + Separator(|block| + 1, true) + rest;
    CloseBlock(s, done, block, true, rest);
  }

  lemma EncodingByte(s: bytes, done: bytes, block: bytes, b: byte, rest: bytes)
    requires b != 0 && Encoding(s, done, block, [b] + rest)
    ensures |block| + 1 < FULL_BLOCK ==> Encoding(s, done, block + [b], rest)
    ensures |block| + 1 == FULL_BLOCK ==> Encoding(s, done + [0xFF] + (block + [b]), [], rest)
  {
    assert block + ([b] + rest) == block + [b] + rest;
    if |block| + 1 == FULL_BLOCK {
      assert block + [b] + [] + rest == block + [b] + rest;
      CloseBlock(s, done, block + [b], false, rest);
    }
  }

  lemma EncodingEnd(s: bytes, done: bytes, block: bytes)
    requires Encoding(s, done, block, [])
    ensures Encode(s) == done + [|block| + 1] + block
  {
    assert block + [] == block;
    RunLengthIs(block, FULL_BLOCK, |block|);
    assert done + ([|block| + 1] + block) == done + [|block| + 1] + block;
  }

  /** `*code_ptr = code`: completes the open block. */
  method PatchCode(output: array<byte>, codeAt: nat, code: byte, ghost done: bytes, ghost block: bytes)
    requires codeAt == |done| && code == |block| + 1
    requires At(output, 0, done) && At(output, codeAt + 1, block)
    modifies output
    ensures At(output, 0, done + [code] + block)
  {
    output[codeAt] := code;
  }

  /** `*output = b`: adds a byte to the open block. */
  method PutByte(output: array<byte>, o: nat, b: byte, ghost done: bytes, ghost block: bytes)
    requires o == |done| + 1 + |block| && o < output.Length
    requires At(output, 0, done) && At(output, |done| + 1, block)
    modifies output
    ensures At(output, 0, done) && At(output, |done| + 1, block + [b])
  {
    output[o] := b;
  }

  /**
   Encodes `input[..inLen]` into `output[..outSize]`, or reports 0 when there is no buffer or the
   encoding does not fit.
   */
  method CobsEncode(input: array?<byte>, inLen: nat, output: array?<byte>, outSize: nat) returns (n: nat)
    requires input != null ==> inLen <= input.Length
    requires output != null ==> outSize <= output.Length && output != input
    modifies output
    ensures input == null || output == null || outSize == 0 ==> n == 0
    ensures input != null && output != null && outSize > 0 ==>
      n == EncodedLength(input[..inLen], outSize) && (n > 0 ==> output[..n] == Encode(input[..inLen]))
  {
    if input == null || output == null || outSize == 0 {
      return 0;
    }
    n := EncodeBytes(input, inLen, output, outSize);
  }

  /**
   The encoder's loop. The code byte of the block under construction is left open and patched when
   the block ends.
   */
  method EncodeBytes(input: array<byte>, inLen: nat, output: array<byte>, outSize: nat) returns (n: nat)
    requires inLen <= input.Length && 0 < outSize <= output.Length && output != input
    modifies output
    ensures n == EncodedLength(input[..inLen], outSize) && (n > 0 ==> output[..n] == Encode(input[..inLen]))
  {
    ghost var s := input[..inLen];
    var i := 0;
    var codeAt, o := 0, 1;
    var code: byte := 1;
    ghost var done, block, rest: bytes := [], [], s;
    EncodingStart(s);
    hide Encode, ZeroFree;
    while i < inLen
      invariant 0 <= i <= inLen && rest == s[i..]
      invariant codeAt == |done| && code == |block| + 1 && o == codeAt + code <= outSize
      invariant At(output, 0, done) && At(output, codeAt + 1, block)
      invariant Encoding(s, done, block, rest)
    {
      assert rest == [input[i]] + s[i+1..];
      EncodingRoom(s, done, block, rest);
      rest := s[i+1..];
      if input[i] == 0 {
        EncodingZero(s, done, block, rest);
        PatchCode(output, codeAt, code, done, block);
        done, block := done + [code] + block, [];
        code := 1;
        codeAt := o;
        o := o + 1;
        if o > outSize {
          return 0;
        }
      } else {
        if o >= outSize {
          return 0;
        }
        EncodingByte(s, done, block, input[i], rest);
        PutByte(output, o, input[i], done, block);
        block := block + [input[i]];
        o := o + 1;
        code := code + 1;
        if code == 0xFF {
          PatchCode(output, codeAt, code, done, block);
          done, block := done + [code] + block, [];
          code := 1;
          codeAt := o;
          o := o + 1;
          if o > outSize {
            EncodingRoom(s, done, block, rest);
            return 0;
          }
        }
      }
      i := i + 1;
    }
    EncodingEnd(s, done, block);
    if codeAt >= outSize {
      assert false; // the slot of every code byte was checked when it was reserved
    }
    PatchCode(output, codeAt, code, done, block);
    assert output[..o] == done + [code] + block;
    return o;
  }

  // ---------------------------------------------------------------------------------------------
  // Progress of the decoder: `done` is written, `rest` is unread.

  ghost predicate Decoding(x: bytes, done: bytes, rest: bytes) {
    match Decode(rest)
    case None => Decode(x) == None
    case Some(d) => Decode(x) == Some(done + d)
  }

  lemma DecodingStart(x: bytes)
    ensures Decoding(x, [], x)
  {
    if Decode(x).Some? {
      assert [] + Decode(x).value == Decode(x).value;
    }
  }

  lemma DecodingBlock(x: bytes, done: bytes, block: bytes, tail: bytes)
    requires |block| < 0xFF && Decoding(x, done, [|block| + 1] + block + tail)
    ensures Decoding(x, done + block + Separator(|block| + 1, tail != []), tail)
  {
    DecodeBlock(block, tail);
    if Decode(tail).Some? {
      Regroup(done, block, Separator(|block| + 1, tail != []), Decode(tail).value);
    }
  }

  lemma DecodingBroken(x: bytes, done: bytes, rest: bytes)
    requires rest != [] && (rest[0] == 0 || rest[0] > |rest|) && Decoding(x, done, rest)
    ensures Decode(x) == None
  {
  }

  lemma BrokenLength(x: bytes, capacity: nat)
    requires Decode(x) == None
    ensures DecodedLength(x, capacity) == 0
  {
  }

  lemma DecodingEnd(x: bytes, done: bytes)
    requires Decoding(x, done, [])
    ensures Decode(x) == Some(done)
  {
    assert done + [] == done;
  }

  /** One block: its content, and a zero if more follows a block that is not full. */
  lemma DecodingStep(x: bytes, done: bytes, i: nat, code: nat)
    requires 0 < code && i + code <= |x| && code == x[i] && Decoding(x, done, x[i..])
    ensures var zero := code < 0xFF && i + code < |x|;
      Decoding(x, done + x[i+1..i+code] + (if zero then [0] else []), x[i+code..])
  {
    SplitBlock(x, i, code);
    DecodingBlock(x, done, x[i+1..i+code], x[i+code..]);
  }

  lemma DecodingTooBig(x: bytes, done: bytes, i: nat, code: nat, capacity: nat)
    requires i < |x| && code == x[i] > 0 && Decoding(x, done, x[i..])
    requires i + code > |x| || |done| + code - 1 > capacity
    ensures DecodedLength(x, capacity) == 0
  {
    if i + code > |x| {
      DecodingBroken(x, done, x[i..]);
    } else {
      DecodingStep(x, done, i, code);
      var zero := code < 0xFF && i + code < |x|;
      DecodingRoom(x, done + x[i+1..i+code] + (if zero then [0] else []), x[i+code..], capacity);
    }
  }

  lemma DecodingRoom(x: bytes, done: bytes, rest: bytes, capacity: nat)
    requires Decoding(x, done, rest) && |done| > capacity
    ensures DecodedLength(x, capacity) == 0
  {
  }

  lemma SplitBlock(x: bytes, i: nat, code: nat)
    requires i + code <= |x| && 0 < code
    ensures x[i..] == [x[i]] + x[i+1..i+code] + x[i+code..]
  {
  }

  /** Copies `count` bytes, unless the packet or the output buffer ends first. */
  method CopyBlock(input: array<byte>, i: nat, inLen: nat, output: array<byte>, o: nat, outSize: nat,
                   count: nat, ghost x: bytes, ghost done: bytes) returns (ok: bool)
    requires input != output && i <= inLen <= input.Length && o <= outSize <= output.Length
    requires |x| == inLen && At(input, 0, x)
    requires o == |done| && At(output, 0, done)
    modifies output
    ensures ok <==> i + count <= inLen && o + count <= outSize
    ensures ok ==> At(output, 0, done + x[i..i+count])
  {
    for k := 0 to count
      invariant i + k <= inLen && o + k <= outSize
      invariant At(input, 0, x) && At(output, 0, done)
      invariant forall j :: i <= j < i + k ==> output[o - i + j] == x[j]
    {
      if i + k >= inLen || o + k >= outSize {
        return false;
      }
      output[o + k] := input[i + k];
    }
    return true;
  }

  lemma AtStart(a: array<byte>, s: bytes)
    requires At(a, 0, s)
    ensures a[..|s|] == s
  {
  }

  /**
   Decodes `input[..inLen]` into `output[..outSize]`. A missing buffer, an empty packet, a malformed
   one and one that does not fit are all reported as 0.
   */
  method CobsDecode(input: array?<byte>, inLen: nat, output: array?<byte>, outSize: nat) returns (n: nat)
    requires input != null ==> inLen <= input.Length
    requires output != null ==> outSize <= output.Length && output != input
    modifies output
    ensures input == null || output == null ==> n == 0
    ensures input != null && output != null ==>
      n == DecodedLength(input[..inLen], outSize) && (n > 0 ==> Some(output[..n]) == Decode(input[..inLen]))
  {
    if input == null || output == null || inLen == 0 {
      return 0;
    }
    n := DecodeBytes(input, inLen, output, outSize);
  }

  /**
   The body of the decoder's loop: one block, from its code byte on. Reports failure when the packet
   cannot be decoded into the output buffer.
   */
  method DecodeOne(input: array<byte>, start: nat, inLen: nat, output: array<byte>, from: nat, outSize: nat,
                   ghost x: bytes, ghost done: bytes) returns (ok: bool, i: nat, o: nat, ghost after: bytes)
    requires inLen <= input.Length && outSize <= output.Length && output != input
    requires start < inLen == |x| && At(input, 0, x) && from == |done| <= outSize && At(output, 0, done)
    requires Decoding(x, done, x[start..])
    modifies output
    ensures !ok ==> DecodedLength(x, outSize) == 0
    ensures ok ==> start < i <= inLen && o == |after| <= outSize && At(output, 0, after) && Decoding(x, after, x[i..])
  {
    hide Decode, Decoding, DecodedLength;
    ok, i, o, after := false, start, from, done;
    var code := input[i];
    i := i + 1;
    if code == 0 {
      DecodingBroken(x, done, x[start..]);
      BrokenLength(x, outSize);
      return;
    }
    var fits := CopyBlock(input, i, inLen, output, o, outSize, code - 1, x, done);
    if !fits {
      DecodingTooBig(x, done, start, code, outSize);
      return;
    }
    DecodingStep(x, done, start, code);
    after := done + x[i..i+(code-1)];
    i, o := i + (code - 1), o + (code - 1);
    if code < 0xFF && i < inLen {
      after := after + [0];
      if o >= outSize {
        DecodingRoom(x, after, x[i..], outSize);
        return;
      }
      output[o] := 0;
      o := o + 1;
    } else {
      assert after + [] == after;
    }
    ok := true;
  }

  /** The decoder's loop over blocks. */
  method DecodeBytes(input: array<byte>, inLen: nat, output: array<byte>, outSize: nat) returns (n: nat)
    requires inLen <= input.Length && outSize <= output.Length && output != input
    modifies output
    ensures n == DecodedLength(input[..inLen], outSize) && (n > 0 ==> Some(output[..n]) == Decode(input[..inLen]))
  {
    ghost var x := input[..inLen];
    var i, o := 0, 0;
    ghost var done: bytes := [];
    DecodingStart(x);
    assert x[0..] == x && At(input, 0, x) && At(output, 0, done);
    hide Decode, Decoding, At;
    while i < inLen
      invariant 0 <= i <= inLen && o == |done| <= outSize
      invariant At(output, 0, done) && Decoding(x, done, x[i..])
    {
      var ok;
      ok, i, o, done := DecodeOne(input, i, inLen, output, o, outSize, x, done);
      if !ok {
        return 0;
      }
    }
    AtStart(output, done);
    DecodingEnd(x, done);
    return o;
  }
}
