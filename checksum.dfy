/** The additive packet checksum of sr.c (ComputeChecksum, IsCorrupted) and
    the packets both sides build with it. */
module Checksum {
  import opened Protocol

  /** Sum of the payload bytes, accumulated from the first byte to the last. */
  function ByteSum(s: seq<int>): int
    decreases |s|
  {
    if s == [] then 0 else ByteSum(s[..|s| - 1]) + s[|s| - 1]
  }

  /** The checksum covers seqnum, acknum and every payload byte, never the
      checksum field itself. */
  function ComputeChecksum(p: Packet): int
  {
    p.seqnum + p.acknum + ByteSum(p.payload)
  }

  /** ComputeChecksum as sr.c computes it: the header sum, then one payload
      byte at a time, in order. */
  method SumChecksum(packet: Packet) returns (checksum: int)
    ensures checksum == ComputeChecksum(packet)
  {
    checksum := packet.seqnum + packet.acknum;
    var i := 0;
    while i < PAYLOADSIZE
      invariant 0 <= i <= PAYLOADSIZE
      invariant checksum == packet.seqnum + packet.acknum + ByteSum(packet.payload[..i])
    {
      assert packet.payload[..i + 1][..i] == packet.payload[..i];
      checksum := checksum + packet.payload[i];
      i := i + 1;
    }
    assert packet.payload[..PAYLOADSIZE] == packet.payload;
  }

  predicate IsCorrupted(p: Packet)
  {
    p.checksum != ComputeChecksum(p)
  }

  /** `sendpkt.checksum = ComputeChecksum(sendpkt)`: a packet whose checksum
      is filled in last passes the check and keeps every other field. */
  function Stamp(p: Packet): (r: Packet)
    ensures !IsCorrupted(r)
    ensures r.seqnum == p.seqnum && r.acknum == p.acknum && r.payload == p.payload
  {
    p.(checksum := ComputeChecksum(p))
  }

  /** The data packet A_output builds for a message. */
  function DataPacket(seqnum: int, message: Payload): (r: Packet)
    ensures !IsCorrupted(r)
    ensures r.seqnum == seqnum && r.acknum == NOTINUSE && r.payload == message
  {
    Stamp(Packet(seqnum, NOTINUSE, 0, message))
  }

  /** The payload of every ACK: twenty '0' characters (code 48). */
  function AckFill(): Payload { seq(20, _ => 48) }

  /** The ACK packet B_input builds on both of its paths. */
  function AckPacket(seqnum: int, acknum: int): (r: Packet)
    ensures !IsCorrupted(r)
    ensures r.seqnum == seqnum && r.acknum == acknum && r.payload == AckFill()
  {
    Stamp(Packet(seqnum, acknum, 0, AckFill()))
  }

  /** Replacing one byte moves the sum by exactly the difference. */
  lemma {:induction false} SumUpdate(s: seq<int>, i: int, v: int)
    requires 0 <= i < |s|
    ensures ByteSum(s[i := v]) == ByteSum(s) - s[i] + v
  {
    var n := |s| - 1;
    if i < n {
      assert s[i := v][..n] == s[..n][i := v];
      SumUpdate(s[..n], i, v);
    } else {
      assert s[i := v][..n] == s[..n];
    }
  }

  /** Overwriting any single payload byte of a good packet with a different
      value is always detected. */
  lemma PayloadChangeDetected(p: Packet, i: int, v: int)
    requires !IsCorrupted(p)
    requires 0 <= i < PAYLOADSIZE && v != p.payload[i]
    ensures IsCorrupted(p.(payload := p.payload[i := v]))
  {
    SumUpdate(p.payload, i, v);
  }

  /** Changing just the seqnum, or just the acknum, of a good packet is
      always detected. */
  lemma HeaderChangeDetected(p: Packet, seqnum: int, acknum: int)
    requires !IsCorrupted(p)
    ensures seqnum != p.seqnum ==> IsCorrupted(p.(seqnum := seqnum))
    ensures acknum != p.acknum ==> IsCorrupted(p.(acknum := acknum))
  {
  }

  /** The checksum is only a weak detector: exchanging two payload bytes
      leaves it unchanged, so the damaged packet passes. */
  lemma SwapUndetected(p: Packet, i: int, j: int)
    requires !IsCorrupted(p)
    requires 0 <= i < PAYLOADSIZE && 0 <= j < PAYLOADSIZE
    ensures !IsCorrupted(p.(payload := p.payload[i := p.payload[j]][j := p.payload[i]]))
  {
    var s := p.payload;
    SumUpdate(s, i, s[j]);
    SumUpdate(s[i := s[j]], j, s[i]);
  }

  /** Likewise, raising seqnum and lowering acknum by the same amount passes. */
  lemma CompensatingHeaderChangeUndetected(p: Packet, d: int)
    requires !IsCorrupted(p)
    ensures !IsCorrupted(p.(seqnum := p.seqnum + d, acknum := p.acknum - d))
  {
  }
}
