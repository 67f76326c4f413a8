/** Sender A of sr.c as values: a snapshot of its globals, one function per
    event (A_output, A_input, A_timerinterrupt) giving the next snapshot and
    the emulator calls made, and the properties of those functions. */
module SendWindow {
  import opened Protocol
  import opened Checksum

  /** `buffer`, `acked`, `windowfirst`, `windowlast`, `windowcount` and
      `A_nextseqnum`. */
  datatype SendState = SendState(
    buffer: seq<Packet>, acked: seq<bool>, first: int, last: int, count: int, next: int)

  /** What one sender event does: the next state and the calls into the emulator. */
  datatype SendStep = SendStep(state: SendState, events: seq<Event>)

  /** The ring slot of window position `i`: `(first + i) % WINDOWSIZE`. */
  function Pos(first: int, i: int): int
  {
    if first + i < WINDOWSIZE then first + i else first + i - WINDOWSIZE
  }

  /** The window position of ring slot `k`. */
  function Offset(first: int, k: int): int
  {
    if first <= k then k - first else k - first + WINDOWSIZE
  }

  /** Pos is the C expression `(first + i) % WINDOWSIZE`. */
  lemma PosIsMod(first: int, i: int)
    requires 0 <= first + i < 2 * WINDOWSIZE
    ensures Pos(first, i) == (first + i) % WINDOWSIZE
  {
  }

  /** Pos and Offset are inverse bijections of the ring slots. */
  lemma PosOffset(first: int, i: int)
    requires 0 <= first < WINDOWSIZE && 0 <= i < WINDOWSIZE
    ensures 0 <= Pos(first, i) < WINDOWSIZE && Offset(first, Pos(first, i)) == i
    ensures 0 <= Offset(first, i) < WINDOWSIZE && Pos(first, Offset(first, i)) == i
  {
  }

  /** Array sizes and the ranges of the indices. */
  predicate SendShape(s: SendState)
  {
    && |s.buffer| == WINDOWSIZE && |s.acked| == WINDOWSIZE
    && 0 <= s.first < WINDOWSIZE && -1 <= s.last < WINDOWSIZE
    && 0 <= s.count <= WINDOWSIZE && 0 <= s.next < SEQSPACE
  }

  /** The packets in the window, oldest first. */
  function Outstanding(s: SendState): seq<Packet>
    requires SendShape(s)
  {
    seq(s.count, i requires 0 <= i < s.count => s.buffer[Pos(s.first, i)])
  }

  /** The acked flags of the window, oldest first. */
  function AckFlags(s: SendState): seq<bool>
    requires SendShape(s)
  {
    seq(s.count, i requires 0 <= i < s.count => s.acked[Pos(s.first, i)])
  }

  /** The sequence number that window position `i` must carry:
      `(next - count + i) mod SEQSPACE`, for `0 <= i < count`. */
  function SeqAt(s: SendState, i: int): int
  {
    var x := s.next - s.count + i;
    if x < 0 then x + SEQSPACE else x
  }

  /** A data packet as A_output built it, numbered `seqnum`. */
  predicate InFlight(p: Packet, seqnum: int)
  {
    p.seqnum == seqnum && p.acknum == NOTINUSE && !IsCorrupted(p)
  }

  /** The sender invariant: `windowlast` is the slot before the first free
      one, the window holds consecutive sequence numbers ending just before
      `A_nextseqnum`, and no slot outside the window is flagged acked. */
  predicate Inv(s: SendState)
  {
    && SendShape(s)
    && Pos(s.last, 1) == Pos(s.first, s.count)
    && (forall i :: 0 <= i < s.count ==> InFlight(s.buffer[Pos(s.first, i)], SeqAt(s, i)))
    && (forall k :: 0 <= k < WINDOWSIZE && Offset(s.first, k) >= s.count ==> !s.acked[k])
  }

  /** Since a window is shorter than the sequence space, the packets in it
      carry pairwise distinct sequence numbers. */
  lemma SeqnumsDistinct(s: SendState, i: int, j: int)
    requires Inv(s)
    requires 0 <= i < s.count && 0 <= j < s.count && i != j
    ensures Outstanding(s)[i].seqnum != Outstanding(s)[j].seqnum
  {
    assert Outstanding(s)[i].seqnum == SeqAt(s, i);
    assert Outstanding(s)[j].seqnum == SeqAt(s, j);
  }

  // ---------------------------------------------------------------- A_init

  /** The state A_init leaves behind; the packet slots keep their contents. */
  function Initial(buffer: seq<Packet>): (s: SendState)
    requires |buffer| == WINDOWSIZE
    ensures Inv(s) && Outstanding(s) == []
  {
    SendState(buffer, seq(WINDOWSIZE, _ => false), 0, -1, 0, 0)
  }

  // -------------------------------------------------------------- A_output

  /** A_output: when the window has room, number the message, store it in
      the slot after `windowlast`, send it, and start the timer if it is the
      only outstanding packet; otherwise drop it. */
  function Send(s: SendState, message: Payload): (r: SendStep)
    requires SendShape(s)
    ensures SendShape(r.state)
  {
    if s.count < WINDOWSIZE then
      var packet := DataPacket(s.next, message);
      var slot := Pos(s.last, 1);
      SendStep(
        SendState(s.buffer[slot := packet], s.acked[slot := false], s.first, slot,
                  s.count + 1, SeqMod(s.next + 1)),
        [ToLayer3(A, packet)] + if s.count + 1 == 1 then [StartTimer(A)] else [])
    else
      SendStep(s, [])
  }

  /** A send appends exactly one fresh, unacked packet numbered
      `A_nextseqnum` to the window and transmits it; a full window is left
      as it was and nothing is sent. */
  lemma SendAppends(s: SendState, message: Payload)
    requires Inv(s)
    ensures var r := Send(s, message);
      if s.count < WINDOWSIZE then
        && Outstanding(r.state) == Outstanding(s) + [DataPacket(s.next, message)]
        && AckFlags(r.state) == AckFlags(s) + [false]
        && r.state.first == s.first
        && r.state.next == SeqMod(s.next + 1)
        && r.events == Transmit(A, [DataPacket(s.next, message)])
                       + (if s.count == 0 then [StartTimer(A)] else [])
      else
        r.state == s && r.events == []
  {
    if s.count < WINDOWSIZE {
      var r := Send(s, message).state;
      var slot := Pos(s.last, 1);
      forall i | 0 <= i < s.count
        ensures Pos(s.first, i) != slot
      {
        PosOffset(s.first, i);
        PosOffset(s.first, s.count);
      }
    }
  }

  /** A send preserves the sender invariant. */
  lemma SendPreservesInv(s: SendState, message: Payload)
    requires Inv(s)
    ensures Inv(Send(s, message).state)
  {
    if s.count < WINDOWSIZE {
      var r := Send(s, message).state;
      var slot := Pos(s.last, 1);
      assert slot == Pos(s.first, s.count);
      forall i | 0 <= i < r.count
        ensures InFlight(r.buffer[Pos(r.first, i)], SeqAt(r, i))
      {
        PosOffset(s.first, i);
        PosOffset(s.first, s.count);
        if i < s.count {
          assert Pos(s.first, i) != slot;
          assert SeqAt(r, i) == SeqAt(s, i);
        }
      }
      forall k | 0 <= k < WINDOWSIZE && Offset(r.first, k) >= r.count
        ensures !r.acked[k]
      {
        PosOffset(s.first, k);
        PosOffset(s.first, s.count);
      }
    }
  }

  // --------------------------------------------------------------- A_input

  /** The first window position whose packet carries `acknum`. */
  function FindAck(ps: seq<Packet>, acknum: int): (r: Option<nat>)
    ensures r.Some? ==> r.value < |ps| && ps[r.value].seqnum == acknum
    ensures r.Some? ==> forall j :: 0 <= j < r.value ==> ps[j].seqnum != acknum
    ensures r.None? ==> forall j :: 0 <= j < |ps| ==> ps[j].seqnum != acknum
  {
    if ps == [] then None
    else if ps[0].seqnum == acknum then Some(0)
    else match FindAck(ps[1..], acknum)
      case None => None
      case Some(j) => Some(j + 1)
  }

  /** The end of the run of set flags that starts at window position `j`. */
  function RunFrom(flags: seq<bool>, first: int, count: int, j: int): (n: int)
    requires |flags| == WINDOWSIZE && 0 <= first < WINDOWSIZE
    requires 0 <= j <= count <= WINDOWSIZE
    ensures j <= n <= count
    ensures forall t :: j <= t < n ==> flags[Pos(first, t)]
    ensures n < count ==> !flags[Pos(first, n)]
    decreases count - j
  {
    if j < count && flags[Pos(first, j)] then RunFrom(flags, first, count, j + 1) else j
  }

  /** `flags` with the first `n` window positions cleared. */
  function Cleared(flags: seq<bool>, first: int, n: int): seq<bool>
    requires |flags| == WINDOWSIZE
  {
    seq(WINDOWSIZE, k requires 0 <= k < WINDOWSIZE => if Offset(first, k) < n then false else flags[k])
  }

  /** The state after the slide loop has moved `windowfirst` forward `n`
      times, clearing each slot it left. */
  function Slid(s: SendState, flags: seq<bool>, n: int): SendState
    requires SendShape(s) && |flags| == WINDOWSIZE && 0 <= n <= s.count
  {
    SendState(s.buffer, Cleared(flags, s.first, n), Pos(s.first, n), s.last, s.count - n, s.next)
  }

  /** Advancing a ring index twice is advancing it once by the sum. */
  lemma PosShift(first: int, n: int, m: int)
    requires 0 <= first < WINDOWSIZE && 0 <= n && 0 <= m && n + m <= WINDOWSIZE
    ensures Pos(Pos(first, n), m) == Pos(first, n + m)
  {
  }

  /** After sliding `n` positions, position `t` of the new window is
      position `n + t` of the old one; only slots at old positions `< n`
      were cleared. */
  lemma SlidRing(s: SendState, flags: seq<bool>, n: int)
    requires SendShape(s) && |flags| == WINDOWSIZE && 0 <= n <= s.count
    ensures SendShape(Slid(s, flags, n))
    ensures forall t :: 0 <= t <= s.count - n ==> Pos(Slid(s, flags, n).first, t) == Pos(s.first, n + t)
    ensures forall q :: 0 <= q < WINDOWSIZE ==>
      Slid(s, flags, n).acked[q] == (Offset(s.first, q) >= n && flags[q])
    ensures forall q :: 0 <= q < WINDOWSIZE && n < WINDOWSIZE && Offset(s.first, q) >= n ==>
      Offset(Slid(s, flags, n).first, q) == Offset(s.first, q) - n
  {
    forall t | 0 <= t <= s.count - n
      ensures Pos(Pos(s.first, n), t) == Pos(s.first, n + t)
    {
      PosShift(s.first, n, t);
    }
  }

  /** The sliding window seen through Outstanding and AckFlags. */
  lemma SlidWindow(s: SendState, flags: seq<bool>, n: int)
    requires SendShape(s) && |flags| == WINDOWSIZE && 0 <= n <= s.count
    ensures Outstanding(Slid(s, flags, n)) == Outstanding(s)[n..]
    ensures forall t :: 0 <= t < s.count - n ==>
      AckFlags(Slid(s, flags, n))[t] == flags[Pos(s.first, n + t)] && Offset(s.first, Pos(s.first, n + t)) >= n
  {
    SlidRing(s, flags, n);
    forall j | n <= j < s.count
      ensures Offset(s.first, Pos(s.first, j)) == j
    {
      PosOffset(s.first, j);
    }
  }

  /** Setting the acked flag of window position `i` in the ring. */
  lemma MarkAt(s: SendState, i: int)
    requires SendShape(s) && 0 <= i < s.count
    ensures forall t :: 0 <= t < s.count ==>
      s.acked[Pos(s.first, i) := true][Pos(s.first, t)] == AckFlags(s)[i := true][t]
  {
    forall t | 0 <= t < s.count
      ensures (Pos(s.first, t) == Pos(s.first, i)) == (t == i)
    {
      PosOffset(s.first, t);
      PosOffset(s.first, i);
    }
  }

  /** A_input: a corrupted ACK, one that matches no packet in the window, or
      one for a packet already acked changes nothing. A fresh ACK flags its
      packet, then the window slides past the run of acked packets at its
      start, and the timer is stopped and restarted if packets remain. */
  function OnAck(s: SendState, p: Packet): (r: SendStep)
    requires SendShape(s)
    ensures SendShape(r.state)
  {
    if IsCorrupted(p) then SendStep(s, [])
    else match FindAck(Outstanding(s), p.acknum)
      case None => SendStep(s, [])
      case Some(i) =>
        var k := Pos(s.first, i);
        if s.acked[k] then SendStep(s, [])
        else
          var marked := s.acked[k := true];
          var n := RunFrom(marked, s.first, s.count, 0);
          SendStep(Slid(s, marked, n), [StopTimer(A)] + if s.count - n > 0 then [StartTimer(A)] else [])
  }

  /** An uncorrupted ACK for a packet in the window not yet acked. */
  predicate IsFreshAck(s: SendState, p: Packet)
    requires SendShape(s)
  {
    !IsCorrupted(p) &&
    exists i :: 0 <= i < s.count && Outstanding(s)[i].seqnum == p.acknum && !AckFlags(s)[i]
  }

  /** An ACK is fresh exactly when the search of A_input finds its packet
      and that packet is not yet acked: the search cannot stop early at
      another packet, as window sequence numbers are distinct. */
  lemma FreshAckFound(s: SendState, p: Packet)
    requires Inv(s)
    ensures IsFreshAck(s, p) <==>
      (!IsCorrupted(p) && FindAck(Outstanding(s), p.acknum).Some? &&
       !AckFlags(s)[FindAck(Outstanding(s), p.acknum).value])
  {
    var ps := Outstanding(s);
    if IsFreshAck(s, p) {
      var j :| 0 <= j < s.count && ps[j].seqnum == p.acknum && !AckFlags(s)[j];
      var i := FindAck(ps, p.acknum).value;
      if i != j { SeqnumsDistinct(s, i, j); }
    }
  }

  /** A_input changes the sender's state exactly when the ACK is fresh;
      corrupted, unmatched and duplicate ACKs make no change and no call. */
  lemma AckChangesOnlyWhenFresh(s: SendState, p: Packet)
    requires Inv(s)
    ensures OnAck(s, p).state != s <==> IsFreshAck(s, p)
    ensures !IsFreshAck(s, p) ==> OnAck(s, p).events == []
  {
    FreshAckFound(s, p);
    if IsFreshAck(s, p) {
      var i := FindAck(Outstanding(s), p.acknum).value;
      var k := Pos(s.first, i);
      var marked := s.acked[k := true];
      var n := RunFrom(marked, s.first, s.count, 0);
      var r := OnAck(s, p).state;
      assert r == Slid(s, marked, n);
      if n == 0 {
        SlidRing(s, marked, n);
        PosOffset(s.first, i);
        assert r.acked[k] != s.acked[k];
      } else {
        assert r.count != s.count;
      }
    }
  }

  /** The search and the flag of a fresh ACK, and the step A_input takes. */
  lemma FreshStep(s: SendState, p: Packet) returns (i: int, n: int)
    requires Inv(s) && IsFreshAck(s, p)
    ensures FindAck(Outstanding(s), p.acknum) == Some(i)
    ensures 0 <= i < s.count && !AckFlags(s)[i] && !IsCorrupted(p)
    ensures n == RunFrom(s.acked[Pos(s.first, i) := true], s.first, s.count, 0)
    ensures OnAck(s, p) == SendStep(Slid(s, s.acked[Pos(s.first, i) := true], n),
                                    [StopTimer(A)] + if s.count - n > 0 then [StartTimer(A)] else [])
  {
    FreshAckFound(s, p);
    i := FindAck(Outstanding(s), p.acknum).value;
    n := RunFrom(s.acked[Pos(s.first, i) := true], s.first, s.count, 0);
  }

  /** The slide seen through the window: the first `n` positions, the run
      of acked packets at its start once position `i` is flagged, leave. */
  lemma SlideView(s: SendState, i: int, n: int)
    requires SendShape(s) && 0 <= i < s.count
    requires n == RunFrom(s.acked[Pos(s.first, i) := true], s.first, s.count, 0)
    ensures var r := Slid(s, s.acked[Pos(s.first, i) := true], n);
      var marked := AckFlags(s)[i := true];
      && SendShape(r) && r.count == s.count - n
      && (forall t :: 0 <= t < n ==> marked[t])
      && (r.count > 0 ==> !marked[n])
      && Outstanding(r) == Outstanding(s)[n..]
      && AckFlags(r) == marked[n..]
  {
    var ring := s.acked[Pos(s.first, i) := true];
    MarkAt(s, i);
    SlidRing(s, ring, n);
    SlidWindow(s, ring, n);
  }

  /** The slide seen through the ring: the slots left behind are cleared
      and the slide stops at an unacked slot or an empty window. */
  lemma SlideClears(s: SendState, i: int, n: int)
    requires SendShape(s) && 0 <= i < s.count
    requires n == RunFrom(s.acked[Pos(s.first, i) := true], s.first, s.count, 0)
    ensures var r := Slid(s, s.acked[Pos(s.first, i) := true], n);
      && (r.count == 0 || !r.acked[r.first])
      && (forall t :: 0 <= t < n ==> !r.acked[Pos(s.first, t)])
  {
    var ring := s.acked[Pos(s.first, i) := true];
    var r := Slid(s, ring, n);
    SlideView(s, i, n);
    SlidRing(s, ring, n);
    forall t | 0 <= t < n
      ensures !r.acked[Pos(s.first, t)]
    {
      PosOffset(s.first, t);
    }
    if r.count > 0 {
      assert r.acked[r.first] == AckFlags(r)[0];
    }
  }

  /** The fresh-ACK window slide. With `d` the number of packets slid out:
      the window loses its first `d` packets, which were exactly the run of
      acked packets at its start; the slots slid past are cleared; the new
      window is empty or starts with an unacked packet; and the timer is
      stopped, then restarted exactly when packets remain. */
  lemma AckSlides(s: SendState, p: Packet)
    requires Inv(s) && IsFreshAck(s, p)
    ensures FindAck(Outstanding(s), p.acknum).Some?
    ensures var i := FindAck(Outstanding(s), p.acknum).value;
      var r := OnAck(s, p);
      var d := s.count - r.state.count;
      var marked := AckFlags(s)[i := true];
      && SendShape(r.state)
      && 0 <= d <= s.count
      && (forall t :: 0 <= t < d ==> marked[t])
      && (r.state.count > 0 ==> !marked[d])
      && Outstanding(r.state) == Outstanding(s)[d..]
      && AckFlags(r.state) == marked[d..]
      && (r.state.count == 0 || !r.state.acked[r.state.first])
      && (forall t :: 0 <= t < d ==> !r.state.acked[Pos(s.first, t)])
      && r.events == [StopTimer(A)] + (if r.state.count > 0 then [StartTimer(A)] else [])
  {
    var i, n := FreshStep(s, p);
    SlideView(s, i, n);
    SlideClears(s, i, n);
  }

  /** A_input preserves the sender invariant. */
  lemma AckPreservesInv(s: SendState, p: Packet)
    requires Inv(s)
    ensures Inv(OnAck(s, p).state)
  {
    if IsFreshAck(s, p) {
      var i, n := FreshStep(s, p);
      SlidInv(s, i, n);
    } else {
      AckChangesOnlyWhenFresh(s, p);
    }
  }

  /** The sender invariant survives flagging an unacked window position and
      sliding past the acked run. */
  lemma SlidInv(s: SendState, i: int, n: int)
    requires Inv(s) && 0 <= i < s.count
    requires n == RunFrom(s.acked[Pos(s.first, i) := true], s.first, s.count, 0)
    ensures Inv(Slid(s, s.acked[Pos(s.first, i) := true], n))
  {
    var ring := s.acked[Pos(s.first, i) := true];
    var r := Slid(s, ring, n);
    assert SendShape(r) by { SlidRing(s, ring, n); }
    assert Pos(r.last, 1) == Pos(r.first, r.count) by {
      PosShift(s.first, n, s.count - n);
    }
    SlidInFlight(s, ring, n);
    SlidOutside(s, i, n);
  }

  /** Sliding keeps the packets and sequence numbers of the positions left. */
  lemma SlidInFlight(s: SendState, flags: seq<bool>, n: int)
    requires Inv(s) && |flags| == WINDOWSIZE && 0 <= n <= s.count
    ensures var r := Slid(s, flags, n);
      forall t :: 0 <= t < r.count ==> InFlight(r.buffer[Pos(r.first, t)], SeqAt(r, t))
  {
    var r := Slid(s, flags, n);
    SlidRing(s, flags, n);
    forall t | 0 <= t < r.count
      ensures InFlight(r.buffer[Pos(r.first, t)], SeqAt(r, t))
    {
      assert SeqAt(r, t) == SeqAt(s, n + t);
    }
  }

  /** After the slide no slot outside the new window is flagged acked. */
  lemma SlidOutside(s: SendState, i: int, n: int)
    requires Inv(s) && 0 <= i < s.count
    requires n == RunFrom(s.acked[Pos(s.first, i) := true], s.first, s.count, 0)
    ensures var r := Slid(s, s.acked[Pos(s.first, i) := true], n);
      forall q :: 0 <= q < WINDOWSIZE && Offset(r.first, q) >= r.count ==> !r.acked[q]
  {
    var k := Pos(s.first, i);
    var ring := s.acked[k := true];
    var r := Slid(s, ring, n);
    SlidRing(s, ring, n);
    PosOffset(s.first, i);
    forall q | 0 <= q < WINDOWSIZE && Offset(r.first, q) >= r.count
      ensures !r.acked[q]
    {
      if Offset(s.first, q) >= n {
        assert q != k;
      }
    }
  }

  /** Once a fresh ACK has been taken, it is fresh no more: its packet has
      either left the window or is now flagged acked. */
  lemma AckNoLongerFresh(s: SendState, p: Packet)
    requires Inv(s) && IsFreshAck(s, p)
    ensures !IsFreshAck(OnAck(s, p).state, p)
  {
    var i, n := FreshStep(s, p);
    SlideView(s, i, n);
    var r := OnAck(s, p).state;
    forall j | 0 <= j < r.count && Outstanding(r)[j].seqnum == p.acknum
      ensures AckFlags(r)[j]
    {
      assert Outstanding(s)[n + j].seqnum == p.acknum;
      if n + j != i {
        SeqnumsDistinct(s, i, n + j);
      }
    }
  }

  /** Delivering the same ACK twice leaves the sender as delivering it once. */
  lemma AckIdempotent(s: SendState, p: Packet)
    requires Inv(s)
    ensures OnAck(OnAck(s, p).state, p) == SendStep(OnAck(s, p).state, [])
  {
    var r := OnAck(s, p).state;
    AckPreservesInv(s, p);
    AckChangesOnlyWhenFresh(s, p);
    if IsFreshAck(s, p) {
      AckNoLongerFresh(s, p);
    }
    AckChangesOnlyWhenFresh(r, p);
  }

  // ------------------------------------------------------- A_timerinterrupt

  /** The window's packets whose acked flag is clear, in window order. */
  function Unacked(ps: seq<Packet>, flags: seq<bool>): seq<Packet>
    requires |ps| == |flags|
  {
    if ps == [] then []
    else
      var n := |ps| - 1;
      Unacked(ps[..n], flags[..n]) + if flags[n] then [] else [ps[n]]
  }

  /** Unacked keeps one packet per clear flag. */
  lemma {:induction false} UnackedLength(ps: seq<Packet>, flags: seq<bool>)
    requires |ps| == |flags|
    ensures |Unacked(ps, flags)| == |ps| - Count(flags)
  {
    if ps != [] {
      UnackedLength(ps[..|ps| - 1], flags[..|ps| - 1]);
    }
  }

  /** Every packet whose flag is clear is kept. */
  lemma {:induction false} UnackedKeeps(ps: seq<Packet>, flags: seq<bool>, i: int)
    requires |ps| == |flags| && 0 <= i < |ps| && !flags[i]
    ensures ps[i] in Unacked(ps, flags)
  {
    var n := |ps| - 1;
    if i < n {
      UnackedKeeps(ps[..n], flags[..n], i);
    }
  }

  /** Every packet kept is one whose flag is clear; `i` is its position. */
  lemma {:induction false} UnackedFrom(ps: seq<Packet>, flags: seq<bool>, p: Packet) returns (i: int)
    requires |ps| == |flags| && p in Unacked(ps, flags)
    ensures 0 <= i < |ps| && !flags[i] && ps[i] == p
  {
    var n := |ps| - 1;
    if p in Unacked(ps[..n], flags[..n]) {
      i := UnackedFrom(ps[..n], flags[..n], p);
    } else {
      i := n;
    }
  }

  /** Unacked keeps exactly the packets whose flag is clear: one per clear flag. */
  lemma UnackedExactly(ps: seq<Packet>, flags: seq<bool>)
    requires |ps| == |flags|
    ensures |Unacked(ps, flags)| == |ps| - Count(flags)
    ensures forall p :: p in Unacked(ps, flags) <==> exists i :: 0 <= i < |ps| && !flags[i] && ps[i] == p
  {
    UnackedLength(ps, flags);
    forall p
      ensures p in Unacked(ps, flags) <==> exists i :: 0 <= i < |ps| && !flags[i] && ps[i] == p
    {
      if p in Unacked(ps, flags) {
        var i := UnackedFrom(ps, flags, p);
      }
      forall i | 0 <= i < |ps| && !flags[i] && ps[i] == p {
        UnackedKeeps(ps, flags, i);
      }
    }
  }

  /** A_timerinterrupt: resend every unacked packet of the window, oldest
      first, then start the timer again; the window itself is untouched. */
  function OnTimeout(s: SendState): SendStep
    requires SendShape(s)
  {
    SendStep(s, Transmit(A, Unacked(Outstanding(s), AckFlags(s))) + [StartTimer(A)])
  }

  /** A timeout changes no state, resends one packet per unacked window
      position and exactly those packets, and always restarts the timer. */
  lemma TimeoutResendsUnacked(s: SendState)
    requires Inv(s)
    ensures var r := OnTimeout(s);
      var resent := Unacked(Outstanding(s), AckFlags(s));
      && r.state == s
      && r.events == Transmit(A, resent) + [StartTimer(A)]
      && |resent| == s.count - Count(AckFlags(s))
      && forall p :: p in resent <==>
           exists i :: 0 <= i < s.count && !AckFlags(s)[i] && Outstanding(s)[i] == p
  {
    UnackedExactly(Outstanding(s), AckFlags(s));
  }

  /** What the resend loop has handed to layer 3 after visiting the first
      `i` window positions. */
  function Resent(s: SendState, i: int): seq<Packet>
    requires SendShape(s) && 0 <= i <= s.count
  {
    Unacked(Outstanding(s)[..i], AckFlags(s)[..i])
  }

  /** Visiting window position `i` resends its packet exactly when that
      packet is not acked. */
  lemma ResentStep(s: SendState, i: int)
    requires SendShape(s) && 0 <= i < s.count
    ensures 0 <= Pos(s.first, i) < WINDOWSIZE
    ensures Resent(s, i + 1) ==
      Resent(s, i) + if s.acked[Pos(s.first, i)] then [] else [s.buffer[Pos(s.first, i)]]
  {
    var ps := Outstanding(s);
    var flags := AckFlags(s);
    assert ps[..i + 1][..i] == ps[..i] && flags[..i + 1][..i] == flags[..i];
  }

  /** After the last window position every unacked packet has been resent. */
  lemma ResentAll(s: SendState)
    requires SendShape(s)
    ensures Resent(s, s.count) == Unacked(Outstanding(s), AckFlags(s))
  {
    assert Outstanding(s)[..s.count] == Outstanding(s);
    assert AckFlags(s)[..s.count] == AckFlags(s);
  }

  // ------------------------------------------------------------- the timer

  /** Replays A's timer calls against the emulator's single timer, starting
      from `running`: None when a start finds it already running or a stop
      finds it idle, otherwise whether it is running at the end. */
  function RunTimer(running: bool, evs: seq<Event>): Option<bool>
    decreases |evs|
  {
    if evs == [] then Some(running)
    else
      match evs[0]
      case StartTimer(side) =>
        if side != A then RunTimer(running, evs[1..])
        else if running then None
        else RunTimer(true, evs[1..])
      case StopTimer(side) =>
        if side != A then RunTimer(running, evs[1..])
        else if !running then None
        else RunTimer(false, evs[1..])
      case _ => RunTimer(running, evs[1..])
  }

  /** Packet transmissions leave the timer alone. */
  lemma {:induction false} RunTimerSkipsTransmit(running: bool, ps: seq<Packet>, rest: seq<Event>)
    ensures RunTimer(running, Transmit(A, ps) + rest) == RunTimer(running, rest)
  {
    if ps != [] {
      assert (Transmit(A, ps) + rest)[0] == ToLayer3(A, ps[0]);
      assert (Transmit(A, ps) + rest)[1..] == Transmit(A, ps[1..]) + rest;
      RunTimerSkipsTransmit(running, ps[1..], rest);
    } else {
      assert Transmit(A, ps) + rest == rest;
    }
  }

  /** If the timer runs exactly while packets are outstanding, a send keeps
      it so, never starting a second timer. */
  lemma SendKeepsTimer(s: SendState, message: Payload)
    requires Inv(s)
    ensures var r := Send(s, message);
      RunTimer(s.count > 0, r.events) == Some(r.state.count > 0)
  {
    if s.count < WINDOWSIZE {
      var packet := DataPacket(s.next, message);
      var timer := if s.count == 0 then [StartTimer(A)] else [];
      assert Send(s, message).events == Transmit(A, [packet]) + timer;
      RunTimerSkipsTransmit(s.count > 0, [packet], timer);
    }
  }

  /** Likewise for an ACK: the stop always finds the timer running, and the
      restart never finds it running. */
  lemma AckKeepsTimer(s: SendState, p: Packet)
    requires Inv(s)
    ensures var r := OnAck(s, p);
      RunTimer(s.count > 0, r.events) == Some(r.state.count > 0)
  {
    if IsFreshAck(s, p) {
      var i, n := FreshStep(s, p);
      var restart := if s.count - n > 0 then [StartTimer(A)] else [];
      var evs := [StopTimer(A)] + restart;
      assert evs[0] == StopTimer(A) && evs[1..] == restart;
      assert RunTimer(true, evs) == RunTimer(false, restart);
      assert RunTimer(false, restart) == Some(s.count - n > 0);
    } else {
      AckChangesOnlyWhenFresh(s, p);
    }
  }

  /** The timer fires only while packets are outstanding, after which it is
      idle; the interrupt restarts it exactly once. */
  lemma TimeoutKeepsTimer(s: SendState)
    requires Inv(s) && s.count > 0
    ensures var r := OnTimeout(s);
      RunTimer(false, r.events) == Some(r.state.count > 0)
  {
    RunTimerSkipsTransmit(false, Unacked(Outstanding(s), AckFlags(s)), [StartTimer(A)]);
  }
}
