/** Sender A of sr.c as it runs: its globals as the fields of one object,
    A_init, A_output, A_input and A_timerinterrupt as methods that update
    them in place. Each method is proved to take the step the matching
    function of SendWindow describes, so the lemmas there apply to it. */
module SenderA {
  import opened Protocol
  import opened Checksum
  import opened SendWindow

  class Sender {
    var buffer: array<Packet>     // packets awaiting an ACK, a ring of WINDOWSIZE slots
    var acked: array<bool>        // acked[k]: the packet in slot k has been acknowledged
    var windowfirst: int          // slot of the oldest packet in the window
    var windowlast: int           // slot of the newest packet in the window
    var windowcount: int          // number of packets in the window
    var nextseqnum: int           // A_nextseqnum: sequence number of the next new packet
    var windowFull: nat           // messages refused because the window was full
    var totalAcksReceived: nat    // uncorrupted ACKs received
    var newAcks: nat              // ACKs that acknowledged a packet for the first time
    var packetsResent: nat        // packets sent again on a timeout
    ghost var log: seq<Event>     // every call made into the emulator, oldest first

    /** The globals as a value. */
    function State(): SendState
      reads this`buffer, this`acked, buffer, acked
      reads this`windowfirst, this`windowlast, this`windowcount, this`nextseqnum
    {
      SendState(buffer[..], acked[..], windowfirst, windowlast, windowcount, nextseqnum)
    }

    ghost predicate Valid()
      reads this`buffer, this`acked, buffer, acked
      reads this`windowfirst, this`windowlast, this`windowcount, this`nextseqnum
    {
      Inv(State())
    }

    /** Counters other than the ones named are unchanged. */
    twostate predicate CountersKept()
      reads this
    {
      && windowFull == old(windowFull) && totalAcksReceived == old(totalAcksReceived)
      && newAcks == old(newAcks) && packetsResent == old(packetsResent)
    }

    /** Static storage before A_init: zeroed slots and counters. */
    constructor ()
      ensures fresh(buffer) && fresh(acked)
      ensures buffer[..] == seq(WINDOWSIZE, _ => ZeroPacket())
      ensures acked[..] == seq(WINDOWSIZE, _ => false)
      ensures windowfirst == 0 && windowlast == 0 && windowcount == 0 && nextseqnum == 0
      ensures windowFull == 0 && totalAcksReceived == 0 && newAcks == 0 && packetsResent == 0
      ensures log == []
    {
      buffer := new Packet[WINDOWSIZE](_ => ZeroPacket());
      acked := new bool[WINDOWSIZE](_ => false);
      windowfirst, windowlast, windowcount, nextseqnum := 0, 0, 0, 0;
      windowFull, totalAcksReceived, newAcks, packetsResent := 0, 0, 0, 0;
      log := [];
    }

    /** A_init: an empty window whose next packet is numbered 0. */
    method Init()
      requires buffer.Length == WINDOWSIZE && acked.Length == WINDOWSIZE
      modifies this, acked
      ensures buffer == old(buffer) && acked == old(acked)
      ensures State() == Initial(old(buffer[..]))
      ensures Valid()
      ensures CountersKept() && log == old(log)
    {
      nextseqnum := 0;
      windowfirst := 0;
      windowlast := -1;
      windowcount := 0;
      var i := 0;
      while i < WINDOWSIZE
        invariant 0 <= i <= WINDOWSIZE
        invariant buffer == old(buffer) && acked == old(acked)
        invariant forall j :: 0 <= j < i ==> !acked[j]
        invariant nextseqnum == 0 && windowfirst == 0 && windowlast == -1 && windowcount == 0
        invariant CountersKept() && log == old(log)
      {
        acked[i] := false;
        i := i + 1;
      }
      assert acked[..] == seq(WINDOWSIZE, _ => false);
    }

    /** A_output: send a message if the window has room, else count it as
        refused. */
    method Output(message: Payload)
      requires Valid()
      modifies this`windowlast, this`windowcount, this`nextseqnum, this`windowFull, this`log, buffer, acked
      ensures State() == Send(old(State()), message).state
      ensures log == old(log) + Send(old(State()), message).events
      ensures Valid()
      ensures windowFull == old(windowFull) + (if old(windowcount) < WINDOWSIZE then 0 else 1)
      ensures totalAcksReceived == old(totalAcksReceived) && newAcks == old(newAcks)
      ensures packetsResent == old(packetsResent)
    {
      ghost var s0 := State();
      if windowcount < WINDOWSIZE {
        var sendpkt := DataPacket(nextseqnum, message);
        windowlast := Pos(windowlast, 1);
        buffer[windowlast] := sendpkt;
        acked[windowlast] := false;
        windowcount := windowcount + 1;
        log := log + [ToLayer3(A, sendpkt)];
        if windowcount == 1 {
          log := log + [StartTimer(A)];
        }
        nextseqnum := SeqMod(nextseqnum + 1);
      } else {
        windowFull := windowFull + 1;
      }
      SendPreservesInv(s0, message);
    }

    /** A_input: take an ACK from the channel. */
    method Input(packet: Packet)
      requires Valid()
      modifies this`windowfirst, this`windowcount, this`totalAcksReceived, this`newAcks, this`log, acked
      ensures State() == OnAck(old(State()), packet).state
      ensures log == old(log) + OnAck(old(State()), packet).events
      ensures Valid()
      ensures totalAcksReceived == old(totalAcksReceived) + (if IsCorrupted(packet) then 0 else 1)
      ensures newAcks == old(newAcks) + (if IsFreshAck(old(State()), packet) then 1 else 0)
      ensures windowFull == old(windowFull) && packetsResent == old(packetsResent)
    {
      ghost var s0 := State();
      FreshAckFound(s0, packet);
      AckPreservesInv(s0, packet);
      if IsCorrupted(packet) {
        assert OnAck(s0, packet) == SendStep(s0, []);
      } else {
        totalAcksReceived := totalAcksReceived + 1;
        var i := FindSlot(packet.acknum);
        if i < windowcount {
          var idx := Pos(windowfirst, i);
          if !acked[idx] {
            ghost var _, n := FreshStep(s0, packet);
            newAcks := newAcks + 1;
            AckAt(i);
          } else {
            assert OnAck(s0, packet) == SendStep(s0, []);
          }
        } else {
          assert OnAck(s0, packet) == SendStep(s0, []);
        }
      }
    }

    /** The search loop of A_input: the window position of the packet an ACK
        names, or `windowcount` when none is in the window. */
    method FindSlot(acknum: int) returns (i: int)
      requires SendShape(State())
      ensures 0 <= i <= windowcount
      ensures i < windowcount <==> FindAck(Outstanding(State()), acknum).Some?
      ensures i < windowcount ==> FindAck(Outstanding(State()), acknum) == Some(i)
    {
      ghost var ps := Outstanding(State());
      i := 0;
      while i < windowcount && buffer[Pos(windowfirst, i)].seqnum != acknum
        invariant 0 <= i <= windowcount
        invariant forall j :: 0 <= j < i ==> ps[j].seqnum != acknum
      {
        i := i + 1;
      }
      if i < windowcount {
        assert ps[i] == buffer[Pos(windowfirst, i)];
      }
    }

    /** The fresh-ACK branch of A_input: flag window position `i`, stop the
        timer, slide, and restart the timer if packets remain. */
    method AckAt(i: int)
      requires SendShape(State()) && 0 <= i < windowcount
      modifies this`windowfirst, this`windowcount, this`log, acked
      ensures var marked := old(acked[..])[Pos(old(windowfirst), i) := true];
        var n := RunFrom(marked, old(windowfirst), old(windowcount), 0);
        && State() == Slid(old(State()), marked, n)
        && log == old(log) + ([StopTimer(A)] + if old(windowcount) - n > 0 then [StartTimer(A)] else [])
    {
      var idx := Pos(windowfirst, i);
      acked[idx] := true;
      log := log + [StopTimer(A)];
      Slide();
      if windowcount > 0 {
        log := log + [StartTimer(A)];
        assert log == old(log) + ([StopTimer(A)] + [StartTimer(A)]);
      } else {
        assert log == old(log) + ([StopTimer(A)] + []);
      }
    }

    /** The slide loop of A_input: move `windowfirst` past the acked
        packets at the start of the window, clearing their flags. */
    method Slide()
      requires SendShape(State())
      modifies this`windowfirst, this`windowcount, acked
      ensures State() ==
        Slid(old(State()), old(acked[..]), RunFrom(old(acked[..]), old(windowfirst), old(windowcount), 0))
    {
      ghost var s0 := State();
      ghost var flags := acked[..];
      ghost var cur := flags;
      ghost var j := 0;
      while windowcount > 0 && acked[windowfirst]
        invariant 0 <= j <= s0.count && windowcount == s0.count - j
        invariant windowfirst == Pos(s0.first, j)
        invariant acked[..] == cur && cur == Cleared(flags, s0.first, j)
        invariant forall t :: 0 <= t < j ==> flags[Pos(s0.first, t)]
        decreases windowcount
      {
        ClearedStep(flags, s0.first, j);
        acked[windowfirst] := false;
        cur := cur[windowfirst := false];
        windowfirst := Pos(windowfirst, 1);
        windowcount := windowcount - 1;
        j := j + 1;
      }
      if windowcount > 0 {
        ClearedStep(flags, s0.first, j);
      }
      RunFromIs(flags, s0.first, s0.count, j);
    }

    /** A_timerinterrupt: resend every unacked packet of the window and
        restart the timer. */
    method TimerInterrupt()
      requires Valid()
      modifies this`log, this`packetsResent
      ensures State() == OnTimeout(old(State())).state
      ensures log == old(log) + OnTimeout(old(State())).events
      ensures Valid()
      ensures packetsResent ==
        old(packetsResent) + |Unacked(Outstanding(old(State())), AckFlags(old(State())))|
      ensures windowFull == old(windowFull) && totalAcksReceived == old(totalAcksReceived)
      ensures newAcks == old(newAcks)
    {
      Resend();
      log := log + [StartTimer(A)];
    }

    /** The resend loop of A_timerinterrupt: hand every unacked packet of the
        window to layer 3 again, oldest first. */
    method Resend()
      requires SendShape(State())
      modifies this`log, this`packetsResent
      ensures log == old(log) + Transmit(A, Unacked(Outstanding(old(State())), AckFlags(old(State()))))
      ensures packetsResent ==
        old(packetsResent) + |Unacked(Outstanding(old(State())), AckFlags(old(State())))|
    {
      ghost var s0 := State();
      var i := 0;
      while i < windowcount
        invariant 0 <= i <= windowcount
        invariant log == old(log) + Transmit(A, Resent(s0, i))
        invariant packetsResent == old(packetsResent) + |Resent(s0, i)|
      {
        var idx := Pos(windowfirst, i);
        ResentStep(s0, i);
        if !acked[idx] {
          TransmitAppend(old(log), A, Resent(s0, i), buffer[idx]);
          log := log + [ToLayer3(A, buffer[idx])];
          packetsResent := packetsResent + 1;
        }
        i := i + 1;
      }
      ResentAll(s0);
    }
  }

  /** Position `j` is not yet cleared, and clearing it extends the cleared
      prefix by one. */
  lemma ClearedStep(flags: seq<bool>, first: int, j: int)
    requires |flags| == WINDOWSIZE && 0 <= first < WINDOWSIZE && 0 <= j < WINDOWSIZE
    ensures 0 <= Pos(first, j) < WINDOWSIZE
    ensures Cleared(flags, first, j)[Pos(first, j)] == flags[Pos(first, j)]
    ensures Cleared(flags, first, j)[Pos(first, j) := false] == Cleared(flags, first, j + 1)
  {
    PosOffset(first, j);
    forall k | 0 <= k < WINDOWSIZE
      ensures (Offset(first, k) == j) == (k == Pos(first, j))
    {
      PosOffset(first, k);
    }
  }

  /** The run of set flags from position 0 ends at the first clear one. */
  lemma RunFromIs(flags: seq<bool>, first: int, count: int, n: int)
    requires |flags| == WINDOWSIZE && 0 <= first < WINDOWSIZE && 0 <= n <= count <= WINDOWSIZE
    requires forall t :: 0 <= t < n ==> flags[Pos(first, t)]
    requires n == count || !flags[Pos(first, n)]
    ensures RunFrom(flags, first, count, 0) == n
  {
  }
}
