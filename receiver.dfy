/** Receiver B of sr.c as it runs: its globals as the fields of one object,
    B_init and B_input as methods that update them in place. B_input is
    proved to take the step RecvWindow.Receive describes, so the lemmas
    there apply to it. */
module ReceiverB {
  import opened Protocol
  import opened Checksum
  import opened RecvWindow

  class Receiver {
    var rbuffer: array<Packet>    // packets received out of order, slot seq % WINDOWSIZE
    var rcvd: array<bool>         // rcvd[k]: slot k holds a packet not yet delivered
    var expectedseqnum: int       // the next sequence number to deliver
    var nextseqnum: int           // B_nextseqnum: sequence number of the next ACK
    var packetsReceived: nat      // packets stored for the first time
    ghost var log: seq<Event>     // every call made into the emulator, oldest first

    /** The globals as a value. */
    function State(): RecvState
      reads this`rbuffer, this`rcvd, rbuffer, rcvd, this`expectedseqnum, this`nextseqnum
    {
      RecvState(rbuffer[..], rcvd[..], expectedseqnum, nextseqnum)
    }

    ghost predicate Valid()
      reads this`rbuffer, this`rcvd, rbuffer, rcvd, this`expectedseqnum, this`nextseqnum
    {
      RecvShape(State())
    }

    /** Static storage before B_init: zeroed slots and counters. */
    constructor ()
      ensures fresh(rbuffer) && fresh(rcvd)
      ensures rbuffer[..] == seq(WINDOWSIZE, _ => ZeroPacket())
      ensures rcvd[..] == seq(WINDOWSIZE, _ => false)
      ensures expectedseqnum == 0 && nextseqnum == 0 && packetsReceived == 0
      ensures log == []
    {
      rbuffer := new Packet[WINDOWSIZE](_ => ZeroPacket());
      rcvd := new bool[WINDOWSIZE](_ => false);
      expectedseqnum, nextseqnum, packetsReceived := 0, 0, 0;
      log := [];
    }

    /** B_init: nothing received, packet 0 expected, ACKs numbered from 1. */
    method Init()
      requires rbuffer.Length == WINDOWSIZE && rcvd.Length == WINDOWSIZE
      modifies this, rcvd
      ensures rbuffer == old(rbuffer) && rcvd == old(rcvd)
      ensures State() == Initial(old(rbuffer[..]))
      ensures Valid()
      ensures packetsReceived == old(packetsReceived) && log == old(log)
    {
      expectedseqnum := 0;
      nextseqnum := 1;
      var i := 0;
      while i < WINDOWSIZE
        invariant 0 <= i <= WINDOWSIZE
        invariant rbuffer == old(rbuffer) && rcvd == old(rcvd)
        invariant forall j :: 0 <= j < i ==> !rcvd[j]
        invariant expectedseqnum == 0 && nextseqnum == 1
        invariant packetsReceived == old(packetsReceived) && log == old(log)
      {
        rcvd[i] := false;
        i := i + 1;
      }
      assert rcvd[..] == seq(WINDOWSIZE, _ => false);
    }

    /** B_input: ACK the packet, store it if it is new and in the window,
        then deliver the run of stored packets from `expectedseqnum`. */
    method Input(packet: Packet)
      requires Valid() && Defined(State(), packet)
      modifies this`expectedseqnum, this`nextseqnum, this`packetsReceived, this`log, rbuffer, rcvd
      ensures State() == Receive(old(State()), packet).state
      ensures log == old(log) + [ToLayer3(B, Receive(old(State()), packet).ack)]
                              + Deliveries(B, Receive(old(State()), packet).delivered)
      ensures Valid()
      ensures packetsReceived == old(packetsReceived) + (if IsNewPacket(old(State()), packet) then 1 else 0)
    {
      ghost var r0 := State();
      var sq := packet.seqnum;
      var diff := CRem(sq - expectedseqnum + SEQSPACE, SEQSPACE);
      var inWindow := diff < WINDOWSIZE;

      if IsCorrupted(packet) || !inWindow {
        var sendpkt := AckPacket(nextseqnum, SeqMod(expectedseqnum - 1 + SEQSPACE));
        nextseqnum := SeqMod(nextseqnum + 1);
        log := log + [ToLayer3(B, sendpkt)];
        assert Receive(r0, packet) == RecvStep(r0.(nextAck := nextseqnum), sendpkt, []);
      } else {
        Accept(packet);
      }
    }

    /** B_input past the checks: store a new packet, ACK it whether new or
        not, and deliver in order only when it was new. */
    method Accept(packet: Packet)
      requires Valid() && Accepts(State(), packet) && packet.seqnum >= 0
      modifies this`expectedseqnum, this`nextseqnum, this`packetsReceived, this`log, rbuffer, rcvd
      ensures State() == Receive(old(State()), packet).state
      ensures log == old(log) + [ToLayer3(B, Receive(old(State()), packet).ack)]
                              + Deliveries(B, Receive(old(State()), packet).delivered)
      ensures Valid()
      ensures packetsReceived == old(packetsReceived) + (if IsNewPacket(old(State()), packet) then 1 else 0)
    {
      ghost var r0 := State();
      ghost var next := SeqMod(r0.nextAck + 1);
      var sq := packet.seqnum;
      var newPkt := false;
      var k := Slot(sq);
      if !rcvd[k] {
        packetsReceived := packetsReceived + 1;
        rbuffer[k] := packet;
        rcvd[k] := true;
        newPkt := true;
      }

      var sendpkt := AckPacket(nextseqnum, sq);
      nextseqnum := SeqMod(nextseqnum + 1);
      log := log + [ToLayer3(B, sendpkt)];

      if newPkt {
        ghost var d := Deliver(r0.rbuffer[k := packet], r0.rcvd[k := true], r0.expected);
        assert rbuffer[..] == r0.rbuffer[k := packet] && rcvd[..] == r0.rcvd[k := true];
        assert Receive(r0, packet) ==
          RecvStep(RecvState(r0.rbuffer[k := packet], d.rcvd, d.expected, next), sendpkt, d.payloads);
        DeliverInOrder();
      } else {
        assert Receive(r0, packet) == RecvStep(r0.(nextAck := next), sendpkt, []);
      }
    }

    /** The delivery loop of B_input: hand up the payload of the slot of
        `expectedseqnum` while that slot holds a packet. */
    method DeliverInOrder()
      requires Valid()
      modifies this`expectedseqnum, this`log, rcvd
      ensures var d := Deliver(old(rbuffer[..]), old(rcvd[..]), old(expectedseqnum));
        && rcvd[..] == d.rcvd && expectedseqnum == d.expected
        && log == old(log) + Deliveries(B, d.payloads)
    {
      ghost var rb := rbuffer[..];
      ghost var cur := rcvd[..];
      ghost var d0 := Deliver(rb, cur, expectedseqnum);
      ghost var delivered: seq<Payload> := [];
      while rcvd[Slot(expectedseqnum)]
        invariant 0 <= expectedseqnum < SEQSPACE
        invariant rcvd[..] == cur && rbuffer[..] == rb
        invariant Remaining(rb, cur, expectedseqnum, delivered, d0)
        invariant log == old(log) + Deliveries(B, delivered)
        decreases Count(cur)
      {
        var j := Slot(expectedseqnum);
        RemainingStep(rb, cur, expectedseqnum, delivered, d0);
        DeliveriesAppend(old(log), B, delivered, rb[j].payload);
        log := log + [ToLayer5(B, rbuffer[j].payload)];
        delivered := delivered + [rb[j].payload];
        rcvd[j] := false;
        cur := cur[j := false];
        expectedseqnum := SeqMod(expectedseqnum + 1);
      }
      RemainingDone(rb, cur, expectedseqnum, delivered, d0);
    }
  }
}
