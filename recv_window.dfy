/** Receiver B of sr.c as values: its globals as one state, B_input as a
    function from a state and a packet to the next state, the ACK it sends
    and the payloads it hands up, and the properties of that step. */
module RecvWindow {
  import opened Protocol
  import opened Checksum

  /** rbuffer[], rcvd[], expectedseqnum and B_nextseqnum. */
  datatype RecvState = RecvState(rbuffer: seq<Packet>, rcvd: seq<bool>, expected: int, nextAck: int)

  /** What one call of B_input does: the new state, the ACK handed to
      layer 3 and the payloads handed to layer 5, in order. */
  datatype RecvStep = RecvStep(state: RecvState, ack: Packet, delivered: seq<Payload>)

  /** What the delivery loop leaves behind. */
  datatype Delivery = Delivery(rcvd: seq<bool>, expected: int, payloads: seq<Payload>)

  predicate RecvShape(r: RecvState)
  {
    && |r.rbuffer| == WINDOWSIZE && |r.rcvd| == WINDOWSIZE
    && 0 <= r.expected < SEQSPACE && 0 <= r.nextAck < SEQSPACE
  }

  /** The receiver slot of a sequence number, `seq % WINDOWSIZE` (SlotIsMod). */
  function Slot(seqnum: int): (k: int)
    requires seqnum >= 0
    ensures 0 <= k < WINDOWSIZE
  {
    if seqnum < WINDOWSIZE then seqnum else Slot(seqnum - WINDOWSIZE)
  }

  lemma {:induction false} SlotIsMod(seqnum: int)
    requires seqnum >= 0
    ensures Slot(seqnum) == seqnum % WINDOWSIZE
  {
    if seqnum >= WINDOWSIZE {
      SlotIsMod(seqnum - WINDOWSIZE);
    }
  }

  /** The sequence number `t` places after `e`. */
  function SeqAfter(e: int, t: int): (n: int)
    requires 0 <= e && 0 <= t
    ensures 0 <= n < SEQSPACE
  {
    (e + t) % SEQSPACE
  }

  /** The sequence number just before `e`: the last one delivered in order. */
  function Previous(e: int): int
  {
    if e == 0 then SEQSPACE - 1 else e - 1
  }

  /** `diff` of B_input, taken with C's remainder: how far `seqnum` lies
      ahead of `expected`. For a non-negative `seqnum` it is the number of
      places after `expected` at which `seqnum` comes round. */
  function Diff(seqnum: int, expected: int): (d: int)
    ensures -SEQSPACE < d < SEQSPACE
    ensures 0 <= seqnum && 0 <= expected < SEQSPACE ==>
      0 <= d && SeqAfter(expected, d) == seqnum % SEQSPACE
  {
    CRem(seqnum - expected + SEQSPACE, SEQSPACE)
  }

  /** The packet passes the checksum and lies inside the receive window. */
  predicate Accepts(r: RecvState, p: Packet)
  {
    !IsCorrupted(p) && Diff(p.seqnum, r.expected) < WINDOWSIZE
  }

  /** B_input indexes rbuffer[] and rcvd[] with `seq % WINDOWSIZE` once a
      packet is accepted; for a negative seq that index is negative, which C
      leaves undefined. */
  predicate Defined(r: RecvState, p: Packet)
  {
    Accepts(r, p) ==> p.seqnum >= 0
  }

  /** An accepted packet whose slot is free: it is stored and counted. */
  predicate IsNewPacket(r: RecvState, p: Packet)
    requires RecvShape(r) && Defined(r, p)
  {
    Accepts(r, p) && !r.rcvd[Slot(p.seqnum)]
  }

  /** The slot of every set flag holds a good packet that belongs there and
      lies inside the window. */
  predicate SlotHolds(rbuffer: seq<Packet>, rcvd: seq<bool>, e: int, k: int)
    requires |rbuffer| == WINDOWSIZE && |rcvd| == WINDOWSIZE && 0 <= k < WINDOWSIZE
  {
    rcvd[k] ==>
      var q := rbuffer[k];
      && !IsCorrupted(q) && 0 <= q.seqnum < SEQSPACE && Slot(q.seqnum) == k
      && Diff(q.seqnum, e) < WINDOWSIZE
  }

  predicate SlotsInv(rbuffer: seq<Packet>, rcvd: seq<bool>, e: int)
  {
    && |rbuffer| == WINDOWSIZE && |rcvd| == WINDOWSIZE && 0 <= e < SEQSPACE
    && forall k :: 0 <= k < WINDOWSIZE ==> SlotHolds(rbuffer, rcvd, e, k)
  }

  /** The receiver invariant. */
  predicate Inv(r: RecvState)
  {
    RecvShape(r) && SlotsInv(r.rbuffer, r.rcvd, r.expected)
  }

  /** B_init: nothing received, packet 0 expected, ACKs numbered from 1. */
  function Initial(rbuffer: seq<Packet>): (r: RecvState)
    requires |rbuffer| == WINDOWSIZE
    ensures Inv(r) && Count(r.rcvd) == 0
    ensures r.expected == 0 && r.nextAck == 1 && r.rbuffer == rbuffer
  {
    var r := RecvState(rbuffer, seq(WINDOWSIZE, _ => false), 0, 1);
    assert Count(r.rcvd) == 0 by { NoneSet(r.rcvd); }
    r
  }

  lemma {:induction false} NoneSet(flags: seq<bool>)
    requires forall k :: 0 <= k < |flags| ==> !flags[k]
    ensures Count(flags) == 0
  {
    if flags != [] {
      NoneSet(flags[..|flags| - 1]);
    }
  }

  /** Going once round the sequence space changes no sequence number. */
  lemma ModRound(x: int)
    requires 0 <= x
    ensures (x + SEQSPACE) % SEQSPACE == x % SEQSPACE
  {
    var q, m := x / SEQSPACE, x % SEQSPACE;
    assert x + SEQSPACE == SEQSPACE * (q + 1) + m;
  }

  /** One more step through the sequence space. */
  lemma SeqAfterStep(e: int, t: int)
    requires 0 <= e < SEQSPACE && 0 <= t
    ensures SeqAfter(SeqMod(e + 1), t) == SeqAfter(e, t + 1)
  {
    if e == SEQSPACE - 1 {
      ModRound(t);
    }
  }

  /** The delivery loop of B_input: while the slot of `expected` holds a
      packet, hand its payload up, clear the slot and expect the next
      number. Every pass clears a set flag, so it stops, at an empty slot. */
  function Deliver(rbuffer: seq<Packet>, rcvd: seq<bool>, expected: int): (d: Delivery)
    requires |rbuffer| == WINDOWSIZE && |rcvd| == WINDOWSIZE && 0 <= expected < SEQSPACE
    ensures |d.rcvd| == WINDOWSIZE && 0 <= d.expected < SEQSPACE
    decreases Count(rcvd)
  {
    var k := Slot(expected);
    if !rcvd[k] then Delivery(rcvd, expected, [])
    else
      CountClear(rcvd, k);
      var rest := Deliver(rbuffer, rcvd[k := false], SeqMod(expected + 1));
      Delivery(rest.rcvd, rest.expected, [rbuffer[k].payload] + rest.payloads)
  }

  /** The delivery loop stops at an empty slot, and every payload it hands
      up clears one set flag. */
  lemma {:induction false} DeliverStops(rbuffer: seq<Packet>, rcvd: seq<bool>, expected: int)
    requires |rbuffer| == WINDOWSIZE && |rcvd| == WINDOWSIZE && 0 <= expected < SEQSPACE
    ensures var d := Deliver(rbuffer, rcvd, expected);
      && !d.rcvd[Slot(d.expected)]
      && Count(d.rcvd) + |d.payloads| == Count(rcvd)
    decreases Count(rcvd)
  {
    var k := Slot(expected);
    if rcvd[k] {
      CountClear(rcvd, k);
      DeliverStops(rbuffer, rcvd[k := false], SeqMod(expected + 1));
    }
  }

  /** Part way through the delivery loop: having handed up `delivered`, the
      loop run from flags `rcvd` and number `e` ends as the `whole` run does
      and hands up the rest of its payloads. */
  ghost predicate Remaining(rbuffer: seq<Packet>, rcvd: seq<bool>, e: int, delivered: seq<Payload>, whole: Delivery)
    requires |rbuffer| == WINDOWSIZE && |rcvd| == WINDOWSIZE && 0 <= e < SEQSPACE
  {
    var d := Deliver(rbuffer, rcvd, e);
    d.rcvd == whole.rcvd && d.expected == whole.expected && delivered + d.payloads == whole.payloads
  }

  /** One pass of the delivery loop: hand up the payload of the slot of `e`,
      clear it and move to the next number. */
  lemma RemainingStep(rbuffer: seq<Packet>, rcvd: seq<bool>, e: int, delivered: seq<Payload>, whole: Delivery)
    requires |rbuffer| == WINDOWSIZE && |rcvd| == WINDOWSIZE && 0 <= e < SEQSPACE
    requires Remaining(rbuffer, rcvd, e, delivered, whole) && rcvd[Slot(e)]
    ensures Count(rcvd[Slot(e) := false]) < Count(rcvd)
    ensures Remaining(rbuffer, rcvd[Slot(e) := false], SeqMod(e + 1), delivered + [rbuffer[Slot(e)].payload], whole)
  {
    CountClear(rcvd, Slot(e));
    var rest := Deliver(rbuffer, rcvd[Slot(e) := false], SeqMod(e + 1));
    assert delivered + ([rbuffer[Slot(e)].payload] + rest.payloads)
        == (delivered + [rbuffer[Slot(e)].payload]) + rest.payloads;
  }

  /** The loop stops at an empty slot, having done all of the whole run. */
  lemma RemainingDone(rbuffer: seq<Packet>, rcvd: seq<bool>, e: int, delivered: seq<Payload>, whole: Delivery)
    requires |rbuffer| == WINDOWSIZE && |rcvd| == WINDOWSIZE && 0 <= e < SEQSPACE
    requires Remaining(rbuffer, rcvd, e, delivered, whole) && !rcvd[Slot(e)]
    ensures rcvd == whole.rcvd && e == whole.expected && delivered == whole.payloads
  {
  }

  /** The delivery loop only clears flags. */
  lemma {:induction false} DeliverClearsOnly(rbuffer: seq<Packet>, rcvd: seq<bool>, expected: int)
    requires |rbuffer| == WINDOWSIZE && |rcvd| == WINDOWSIZE && 0 <= expected < SEQSPACE
    ensures var d := Deliver(rbuffer, rcvd, expected);
      forall k :: 0 <= k < WINDOWSIZE && d.rcvd[k] ==> rcvd[k]
    decreases Count(rcvd)
  {
    var k := Slot(expected);
    if rcvd[k] {
      CountClear(rcvd, k);
      var rest := Deliver(rbuffer, rcvd[k := false], SeqMod(expected + 1));
      assert Deliver(rbuffer, rcvd, expected).rcvd == rest.rcvd;
      DeliverClearsOnly(rbuffer, rcvd[k := false], SeqMod(expected + 1));
    }
  }

  /** The delivery loop ends expecting the number after the last one it
      delivered. */
  lemma {:induction false} DeliverEnd(rbuffer: seq<Packet>, rcvd: seq<bool>, expected: int)
    requires |rbuffer| == WINDOWSIZE && |rcvd| == WINDOWSIZE && 0 <= expected < SEQSPACE
    ensures var d := Deliver(rbuffer, rcvd, expected);
      d.expected == SeqAfter(expected, |d.payloads|)
    decreases Count(rcvd)
  {
    var k := Slot(expected);
    if rcvd[k] {
      CountClear(rcvd, k);
      var e' := SeqMod(expected + 1);
      var rest := Deliver(rbuffer, rcvd[k := false], e');
      assert Deliver(rbuffer, rcvd, expected) ==
        Delivery(rest.rcvd, rest.expected, [rbuffer[k].payload] + rest.payloads);
      DeliverEnd(rbuffer, rcvd[k := false], e');
      SeqAfterStep(expected, |rest.payloads|);
    }
  }

  /** The first payload the delivery loop hands up is that of the slot of
      `expected`, which it leaves empty. */
  lemma DeliverFirst(rbuffer: seq<Packet>, rcvd: seq<bool>, expected: int)
    requires |rbuffer| == WINDOWSIZE && |rcvd| == WINDOWSIZE && 0 <= expected < SEQSPACE
    requires rcvd[Slot(expected)]
    ensures var d := Deliver(rbuffer, rcvd, expected);
      |d.payloads| > 0 && !d.rcvd[Slot(expected)] && d.payloads[0] == rbuffer[Slot(expected)].payload
  {
    var k := Slot(expected);
    CountClear(rcvd, k);
    var cleared := rcvd[k := false];
    var rest := Deliver(rbuffer, cleared, SeqMod(expected + 1));
    DeliverClearsOnly(rbuffer, cleared, SeqMod(expected + 1));
    assert !cleared[k];
    assert !rest.rcvd[k];
  }

  /** The `t`-th payload the delivery loop hands up is that of the slot of
      `expected + t` (mod SEQSPACE), which held a packet and is left empty. */
  lemma {:induction false} DeliverAt(rbuffer: seq<Packet>, rcvd: seq<bool>, expected: int, t: int)
    requires |rbuffer| == WINDOWSIZE && |rcvd| == WINDOWSIZE && 0 <= expected < SEQSPACE
    requires 0 <= t < |Deliver(rbuffer, rcvd, expected).payloads|
    ensures var d := Deliver(rbuffer, rcvd, expected);
      var k := Slot(SeqAfter(expected, t));
      rcvd[k] && !d.rcvd[k] && d.payloads[t] == rbuffer[k].payload
    decreases t
  {
    var k := Slot(expected);
    assert rcvd[k];
    if t == 0 {
      assert SeqAfter(expected, 0) == expected;
      DeliverFirst(rbuffer, rcvd, expected);
    } else {
      CountClear(rcvd, k);
      var e' := SeqMod(expected + 1);
      var rest := Deliver(rbuffer, rcvd[k := false], e');
      assert Deliver(rbuffer, rcvd, expected) ==
        Delivery(rest.rcvd, rest.expected, [rbuffer[k].payload] + rest.payloads);
      DeliverAt(rbuffer, rcvd[k := false], e', t - 1);
      SeqAfterStep(expected, t - 1);
    }
  }

  /** The delivery loop hands up, in order, the payloads of the slots of
      `expected`, `expected + 1`, ... (mod SEQSPACE), each of which held a
      packet and is cleared afterwards. */
  lemma DeliverRun(rbuffer: seq<Packet>, rcvd: seq<bool>, expected: int)
    requires |rbuffer| == WINDOWSIZE && |rcvd| == WINDOWSIZE && 0 <= expected < SEQSPACE
    ensures var d := Deliver(rbuffer, rcvd, expected);
      && d.expected == SeqAfter(expected, |d.payloads|)
      && forall t :: 0 <= t < |d.payloads| ==>
        var k := Slot(SeqAfter(expected, t));
        rcvd[k] && !d.rcvd[k] && d.payloads[t] == rbuffer[k].payload
  {
    DeliverEnd(rbuffer, rcvd, expected);
    forall t | 0 <= t < |Deliver(rbuffer, rcvd, expected).payloads| {
      DeliverAt(rbuffer, rcvd, expected, t);
    }
  }

  /** B_input. */
  function Receive(r: RecvState, p: Packet): (step: RecvStep)
    requires RecvShape(r) && Defined(r, p)
    ensures RecvShape(step.state)
    ensures !IsCorrupted(step.ack) && step.ack.seqnum == r.nextAck
    ensures step.state.nextAck == SeqAfter(r.nextAck, 1)
  {
    var next := SeqMod(r.nextAck + 1);
    if !Accepts(r, p) then
      RecvStep(r.(nextAck := next), AckPacket(r.nextAck, SeqMod(r.expected - 1 + SEQSPACE)), [])
    else
      var k := Slot(p.seqnum);
      if r.rcvd[k] then
        RecvStep(r.(nextAck := next), AckPacket(r.nextAck, p.seqnum), [])
      else
        var rbuffer := r.rbuffer[k := p];
        var d := Deliver(rbuffer, r.rcvd[k := true], r.expected);
        RecvStep(RecvState(rbuffer, d.rcvd, d.expected, next), AckPacket(r.nextAck, p.seqnum), d.payloads)
  }

  /** A corrupted or out-of-window packet changes no slot and delivers
      nothing; it is answered with an ACK for the packet before the one
      expected. */
  lemma RejectedAck(r: RecvState, p: Packet)
    requires RecvShape(r) && !Accepts(r, p)
    ensures var step := Receive(r, p);
      && step.state == r.(nextAck := SeqAfter(r.nextAck, 1))
      && step.delivered == []
      && step.ack.acknum == Previous(r.expected)
  {
  }

  /** An accepted packet, new or not, is answered with an ACK naming it. */
  lemma AcceptedAck(r: RecvState, p: Packet)
    requires RecvShape(r) && Defined(r, p) && Accepts(r, p)
    ensures Receive(r, p).ack.acknum == p.seqnum
  {
  }

  /** A packet whose slot is already full is ACKed again but neither stored
      nor counted, and nothing is delivered. */
  lemma DuplicateIgnored(r: RecvState, p: Packet)
    requires RecvShape(r) && Defined(r, p) && Accepts(r, p) && r.rcvd[Slot(p.seqnum)]
    ensures !IsNewPacket(r, p)
    ensures Receive(r, p).state == r.(nextAck := SeqAfter(r.nextAck, 1))
    ensures Receive(r, p).delivered == []
  {
  }

  /** A duplicate is idempotent: taking it a second time changes only the
      ACK counter again. */
  lemma DuplicateIdempotent(r: RecvState, p: Packet)
    requires RecvShape(r) && Defined(r, p) && Accepts(r, p) && r.rcvd[Slot(p.seqnum)]
    ensures var s1 := Receive(r, p).state;
      Defined(s1, p) && Receive(s1, p).state == s1.(nextAck := SeqAfter(s1.nextAck, 1))
  {
    DuplicateIgnored(r, p);
    var s1 := Receive(r, p).state;
    DuplicateIgnored(s1, p);
  }

  /** A new packet is stored in its slot, then the run of filled slots from
      `expected` is delivered: it ends at an empty slot, delivers at most a
      window's worth, and moves `expected` past exactly what it delivered. */
  lemma NewPacketStored(r: RecvState, p: Packet)
    requires RecvShape(r) && Defined(r, p) && IsNewPacket(r, p)
    ensures var step := Receive(r, p);
      && step.state.rbuffer == r.rbuffer[Slot(p.seqnum) := p]
      && !step.state.rcvd[Slot(step.state.expected)]
      && Count(step.state.rcvd) + |step.delivered| == Count(r.rcvd) + 1
      && |step.delivered| <= WINDOWSIZE
      && step.state.expected == SeqAfter(r.expected, |step.delivered|)
  {
    var k := Slot(p.seqnum);
    CountClear(r.rcvd[k := true], k);
    assert r.rcvd[k := true][k := false] == r.rcvd;
    DeliverEnd(r.rbuffer[k := p], r.rcvd[k := true], r.expected);
    DeliverStops(r.rbuffer[k := p], r.rcvd[k := true], r.expected);
  }

  /** The packet B expects is handed up at once, ahead of anything else. */
  lemma InOrderDelivered(r: RecvState, p: Packet)
    requires RecvShape(r) && Defined(r, p) && IsNewPacket(r, p) && p.seqnum == r.expected
    ensures |Receive(r, p).delivered| >= 1 && Receive(r, p).delivered[0] == p.payload
  {
    assert Slot(SeqAfter(r.expected, 0)) == Slot(p.seqnum);
  }

  /** Advancing `expected` by one lowers the distance of every other
      sequence number by one. */
  lemma DiffStep(s: int, e: int)
    requires 0 <= s < SEQSPACE && 0 <= e < SEQSPACE && s != e
    ensures Diff(s, SeqMod(e + 1)) == Diff(s, e) - 1
  {
  }

  /** The delivery loop keeps the slot invariant. */
  lemma {:induction false} DeliverKeepsInv(rbuffer: seq<Packet>, rcvd: seq<bool>, e: int)
    requires SlotsInv(rbuffer, rcvd, e)
    ensures var d := Deliver(rbuffer, rcvd, e); SlotsInv(rbuffer, d.rcvd, d.expected)
    decreases Count(rcvd)
  {
    var k := Slot(e);
    if rcvd[k] {
      CountClear(rcvd, k);
      var rcvd' := rcvd[k := false];
      var e' := SeqMod(e + 1);
      forall j | 0 <= j < WINDOWSIZE
        ensures SlotHolds(rbuffer, rcvd', e', j)
      {
        assert SlotHolds(rbuffer, rcvd, e, j);
        if rcvd'[j] {
          DiffStep(rbuffer[j].seqnum, e);
        }
      }
      DeliverKeepsInv(rbuffer, rcvd', e');
    }
  }

  /** B_input keeps the receiver invariant, for packets numbered inside the
      sequence space (the only ones A sends). */
  lemma ReceivePreservesInv(r: RecvState, p: Packet)
    requires Inv(r) && Defined(r, p) && (Accepts(r, p) ==> p.seqnum < SEQSPACE)
    ensures Inv(Receive(r, p).state)
  {
    if IsNewPacket(r, p) {
      var k := Slot(p.seqnum);
      var rbuffer := r.rbuffer[k := p];
      var rcvd := r.rcvd[k := true];
      forall j | 0 <= j < WINDOWSIZE
        ensures SlotHolds(rbuffer, rcvd, r.expected, j)
      {
        assert SlotHolds(r.rbuffer, r.rcvd, r.expected, j);
      }
      DeliverKeepsInv(rbuffer, rcvd, r.expected);
    }
  }

  /** Under the invariant, every payload handed up comes from a good packet
      stored in the slot of the number it is delivered as, but that packet
      need not carry that number. */
  lemma DeliveredFromSlots(r: RecvState, p: Packet)
    requires Inv(r) && Defined(r, p) && (Accepts(r, p) ==> p.seqnum < SEQSPACE)
    ensures var step := Receive(r, p);
      forall t :: 0 <= t < |step.delivered| ==>
        var q := step.state.rbuffer[Slot(SeqAfter(r.expected, t))];
        && !IsCorrupted(q) && q.payload == step.delivered[t] && q.seqnum >= 0
        && Slot(q.seqnum) == Slot(SeqAfter(r.expected, t))
  {
    if IsNewPacket(r, p) {
      var k := Slot(p.seqnum);
      var rbuffer := r.rbuffer[k := p];
      var rcvd := r.rcvd[k := true];
      forall j | 0 <= j < WINDOWSIZE
        ensures SlotHolds(rbuffer, rcvd, r.expected, j)
      {
        assert SlotHolds(r.rbuffer, r.rcvd, r.expected, j);
      }
      var d := Deliver(rbuffer, rcvd, r.expected);
      forall t | 0 <= t < |d.payloads|
        ensures var q := rbuffer[Slot(SeqAfter(r.expected, t))];
          && !IsCorrupted(q) && q.payload == d.payloads[t] && q.seqnum >= 0
          && Slot(q.seqnum) == Slot(SeqAfter(r.expected, t))
      {
        DeliverAt(rbuffer, rcvd, r.expected, t);
        assert SlotHolds(rbuffer, rcvd, r.expected, Slot(SeqAfter(r.expected, t)));
      }
    }
  }

  /** Slot aliasing (SEQSPACE < 2 * WINDOWSIZE): with packet 2 expected the
      window is 2, 3, 4, 5, 6, 0 and both 6 and 0 use slot 0. Once 6 sits
      there, packet 0 is accepted and ACKed as a duplicate, yet never stored:
      slot 0 still holds packet 6 and nothing is handed up. */
  lemma AliasedPacketDropped(r: RecvState, p: Packet)
    requires RecvShape(r) && r.expected == 2 && r.rcvd[0] && r.rbuffer[0].seqnum == 6
    requires !IsCorrupted(p) && p.seqnum == 0
    ensures Accepts(r, p) && Receive(r, p).ack.acknum == 0
    ensures Receive(r, p).state == r.(nextAck := SeqAfter(r.nextAck, 1))
    ensures Receive(r, p).state.rbuffer[0].seqnum == 6
    ensures Receive(r, p).delivered == []
  {
    assert Slot(p.seqnum) == 0;
  }

  /** Slot aliasing the other way: with packet 6 expected and slot 0 empty,
      packet 0 shares the slot of the expected number and is handed up at
      once, in place of packet 6. */
  lemma AliasedPacketDeliveredEarly(r: RecvState, p: Packet)
    requires RecvShape(r) && r.expected == 6 && !r.rcvd[0]
    requires !IsCorrupted(p) && p.seqnum == 0
    ensures IsNewPacket(r, p) && p.seqnum != r.expected
    ensures |Receive(r, p).delivered| >= 1 && Receive(r, p).delivered[0] == p.payload
  {
    assert Slot(p.seqnum) == 0 == Slot(SeqAfter(r.expected, 0));
  }
}
