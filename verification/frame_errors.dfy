/** Which damaged raw frames the receiver's check rejects. */
module FrameErrors {
  import opened Bytes
  import opened Crc
  import opened CrcDivision
  import opened Gf2
  import opened LinkModel

  /** The check accepts exactly the raw frames that a sender builds, each as its own payload. */
  lemma AcceptedIffBuilt(max: nat, cfg: Config, raw: bytes, p: bytes)
    ensures Extract(max, cfg, raw) == Payload(p) <==> |p| <= max && raw == RawFrame(cfg, p)
  {
    hide ReadField, Field, Checksum;
    if cfg.useCrc && |raw| >= CRC_SIZE {
      var n := |raw| - CRC_SIZE;
      assert raw == raw[..n] + [raw[n], raw[n+1]];
      FieldMatches(Checksum(raw[..n]), raw[n], raw[n+1]);
      if raw == RawFrame(cfg, p) {
        assert raw[..n] == p && [raw[n], raw[n+1]] == Field(Checksum(p));
      }
    }
  }

  /** A raw frame whose payload bytes were hit by a burst of at most 16 bits is rejected. */
  lemma BurstRejected(max: nat, cfg: Config, p: bytes, damaged: bytes, low: nat)
    requires cfg.useCrc && |p| <= max && Burst(p, damaged, low)
    ensures Extract(max, cfg, damaged + Field(Checksum(p))) == CrcError
  {
    var raw, c := damaged + Field(Checksum(p)), Field(Checksum(p));
    var n := |damaged|;
    assert raw[..n] == damaged && raw[n] == c[0] && raw[n+1] == c[1] && c == [raw[n], raw[n+1]];
    BurstChangesChecksum(p, damaged, low);
    FieldMatches(Checksum(damaged), raw[n], raw[n+1]);
    if c == Field(Checksum(damaged)) {
      FieldInjective(Checksum(p), Checksum(damaged));
    }
  }

  /** A raw frame in which an odd number of bits was flipped, check included, is rejected. */
  lemma OddErrorsRejected(max: nat, cfg: Config, p: bytes, damaged: bytes)
    requires cfg.useCrc && |p| <= max && |damaged| == |RawFrame(cfg, p)| && Odd(Flipped(RawFrame(cfg, p), damaged))
    ensures Extract(max, cfg, damaged) == CrcError
  {
    EvenParity(p);
    OddAdd(MessagePoly(RawFrame(cfg, p)), MessagePoly(damaged));
    var e := Extract(max, cfg, damaged);
    if e.Payload? {
      AcceptedIffBuilt(max, cfg, damaged, e.payload);
      EvenParity(e.payload);
    }
  }
}
