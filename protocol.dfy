/** Constants, packet layout and emulator events shared by the sender (A) and
    the receiver (B) of the selective-repeat transport in sr.c. */
module Protocol {

  /** The maximum number of buffered, unacknowledged packets. */
  const WINDOWSIZE: int := 6
  /** Sequence numbers are counted modulo SEQSPACE. */
  const SEQSPACE: int := 7
  /** Filler for a header field that is not in use (the acknum of a data packet). */
  const NOTINUSE: int := -1
  /** Bytes in a packet payload and in an application message. */
  const PAYLOADSIZE: int := 20

  /** A payload or a message: 20 bytes, each read through an `(int)` cast. */
  type Payload = s: seq<int> | |s| == PAYLOADSIZE witness seq(20, _ => 0)

  /** `struct pkt`. */
  datatype Packet = Packet(seqnum: int, acknum: int, checksum: int, payload: Payload)

  /** A packet slot of static storage before anything is written to it. */
  function ZeroPacket(): Packet { Packet(0, 0, 0, seq(20, _ => 0)) }

  /** The two ends of the simulated link. */
  datatype Entity = A | B

  /** The calls the protocol makes into the network emulator, in the order made. */
  datatype Event =
    | ToLayer3(from: Entity, packet: Packet)   // hand a packet to the unreliable channel
    | ToLayer5(to: Entity, data: Payload)      // deliver a payload to the application
    | StartTimer(side: Entity)
    | StopTimer(side: Entity)

  /** `x % SEQSPACE` for the sums that advance a sequence number, none of
      which reaches twice the sequence space (SeqModIsMod). */
  function SeqMod(x: int): int
    requires 0 <= x < 2 * SEQSPACE
  {
    if x < SEQSPACE then x else x - SEQSPACE
  }

  lemma SeqModIsMod(x: int)
    requires 0 <= x < 2 * SEQSPACE
    ensures SeqMod(x) == x % SEQSPACE
  {
  }

  datatype Option<T> = None | Some(value: T)

  /** C's `%` on int: the quotient truncates toward zero, so the remainder
      takes the sign of the dividend (Dafny's `%` never returns a negative). */
  function CRem(a: int, b: int): (r: int)
    requires b > 0
    ensures -b < r < b
    ensures a >= 0 ==> r == a % b
    ensures a <= 0 ==> r <= 0
  {
    if a >= 0 then a % b else -((-a) % b)
  }

  /** Number of set flags. */
  function Count(flags: seq<bool>): (n: nat)
    ensures n <= |flags|
  {
    if flags == [] then 0 else Count(flags[..|flags| - 1]) + (if flags[|flags| - 1] then 1 else 0)
  }

  /** Clearing one set flag lowers the count by exactly one. */
  lemma {:induction false} CountClear(flags: seq<bool>, k: int)
    requires 0 <= k < |flags| && flags[k]
    ensures Count(flags[k := false]) == Count(flags) - 1
  {
    var n := |flags| - 1;
    var cleared := flags[k := false];
    if k < n {
      assert cleared[..n] == flags[..n][k := false];
      CountClear(flags[..n], k);
    } else {
      assert cleared[..n] == flags[..n];
    }
  }

  /** The `tolayer3` calls that send `ps`, one per packet, in order. */
  function Transmit(from: Entity, ps: seq<Packet>): seq<Event>
  {
    seq(|ps|, i requires 0 <= i < |ps| => ToLayer3(from, ps[i]))
  }

  /** The `tolayer5` calls that deliver `ds`, one per payload, in order. */
  function Deliveries(to: Entity, ds: seq<Payload>): seq<Event>
  {
    seq(|ds|, i requires 0 <= i < |ds| => ToLayer5(to, ds[i]))
  }

  /** One more transmission is one more `tolayer3` call at the end of a log. */
  lemma TransmitAppend(log: seq<Event>, from: Entity, ps: seq<Packet>, p: Packet)
    ensures log + Transmit(from, ps) + [ToLayer3(from, p)] == log + Transmit(from, ps + [p])
  {
    assert Transmit(from, ps + [p]) == Transmit(from, ps) + [ToLayer3(from, p)];
  }

  /** One more delivery is one more `tolayer5` call at the end of a log. */
  lemma DeliveriesAppend(log: seq<Event>, to: Entity, ds: seq<Payload>, d: Payload)
    ensures log + Deliveries(to, ds) + [ToLayer5(to, d)] == log + Deliveries(to, ds + [d])
  {
    assert Deliveries(to, ds + [d]) == Deliveries(to, ds) + [ToLayer5(to, d)];
  }
}
