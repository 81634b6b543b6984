/** What a connection has to do, stated on header fields, flags and times. */
module ConnectionDuties {
  import opened Machine
  import opened WrappingIntegers
  import opened Fragments
  import opened TcpSegments
  import opened Reassembly
  import opened TcpReceivers
  import opened SegmentSizes
  import opened TcpSenders
  import opened SenderRuns
  import opened SenderDuties
  import opened TcpStates
  import opened TcpConnections
  import opened ConnectionRuns

  // -- Where a segment goes -----------------------------------------------------------------------------------

  /** The receiver gets every small segment out of order; before the end of its stream, everything in LISTEN
      that has a SYN and everything later that has none and is not empty; and nothing else. */
  lemma ToReceiver(c: Conn, seg: Segment, c': Conn)
    requires FlagInv(c) && Hearable(c, seg) && SegmentSpec(c, seg, c') && c.active
    ensures if || SmallOutOfOrder(c, seg)
               || (!seg.header.rst && !c.InputEnded() && !c.rcv.synRecv && seg.header.syn)
               || (!seg.header.rst && !c.InputEnded() && c.rcv.synRecv && !seg.header.syn && (seg.payload != [] || seg.header.fin))
            then ReceiveSpec(c.rcv, seg, c'.rcv)
            else c'.rcv == c.rcv
    ensures c'.sinceLast == 0
  {
    hide Wrap, Unwrap, Represents, Disjoint, Assembler.Valid, ReceiveSpec, SenderMoves, FlagsMove, Outputs, AckDefined;
    FlagFacts(c);
    EarlyMeans(c, seg);
  }

  /** The sender gets the acknowledgment of every small segment out of order, and of every other segment that is
      no RST: in LISTEN of those with a SYN, later of those without. It takes over window and number; other
      segments leave both alone. */
  lemma ToSender(c: Conn, seg: Segment, c': Conn)
    requires ConnInv(c) && Acceptable(c, seg) && Hearable(c, seg) && SegmentSpec(c, seg, c') && c.active
    ensures var heard := seg.header.ack && (SmallOutOfOrder(c, seg) || (!seg.header.rst && (c.rcv.synRecv <==> !seg.header.syn)));
            && c'.snd.q.base == (if heard then NewBase(c.snd.q, AbsoluteAck(c.snd, seg.header.ackno)) else c.snd.q.base)
            && c'.snd.q.win == (if heard then Max(seg.header.win, 1) else c.snd.q.win)
  {
    hide Wrap, Unwrap, Represents, Disjoint, Assembler.Valid, ReceiveSpec, FlagsMove, Outputs, AckDefined, AckSpec, FillSpec, Harmless, Inv, Paced;
    EarlyMeans(c, seg);
    ConnSums(c);
    if !c.ResetBy(seg) {
      var mid, segs :| SenderMoves(c, seg, mid, c'.snd, segs) && Outputs(c, seg, segs, c');
      if c.Heeds(seg) {
        AckInv(c.snd, seg.header.ackno, seg.header.win, mid);
      }
      if Fills(c, seg) {
        FillInv(mid, c'.snd, segs);
      }
    }
  }

  /** After the SYN of the peer, and after every acknowledgment -- unless the inbound stream has ended and we
      linger -- everything goes out that can. */
  lemma ThenFills(c: Conn, seg: Segment, c': Conn)
    requires ConnInv(c) && Acceptable(c, seg) && Hearable(c, seg) && SegmentSpec(c, seg, c') && c.active
    requires || (SmallOutOfOrder(c, seg) && seg.header.ack)
             || (!SmallOutOfOrder(c, seg) && !seg.header.rst && !c.rcv.synRecv && seg.header.syn)
             || (!SmallOutOfOrder(c, seg) && !seg.header.rst && c.rcv.synRecv && seg.header.ack && !seg.header.syn
                 && (c.InputEnded() ==> !c.linger))
    ensures Settled(c'.snd)
  {
    hide Wrap, Unwrap, Represents, Disjoint, Assembler.Valid, ReceiveSpec, FlagsMove, Outputs, AckDefined, AckSpec, FillSpec, Harmless, Inv, Paced, Settled;
    EarlyMeans(c, seg);
    ConnSums(c);
    ConnPending(c);
    var mid, segs :| SenderMoves(c, seg, mid, c'.snd, segs) && Outputs(c, seg, segs, c');
    if c.Heeds(seg) {
      AckInv(c.snd, seg.header.ackno, seg.header.win, mid);
    }
    FillSettles(mid, c'.snd, segs);
  }

  // -- What is put out in return -----------------------------------------------------------------------------------

  /** What a segment gets in return. Something is put out exactly if new numbers are sent, or if the segment
      calls for an answer and -- unless it is small and out of order, or the inbound stream has ended -- nothing
      older is queued. Everything put out carries the current acknowledgment; the new numbers are all in it; and
      what takes up no numbers has the next number. */
  lemma Answered(c: Conn, seg: Segment, c': Conn)
    requires ConnInv(c) && Acceptable(c, seg) && Hearable(c, seg) && SegmentSpec(c, seg, c')
    requires c.active && (seg.header.rst ==> SmallOutOfOrder(c, seg))
    ensures c.out <= c'.out
    ensures var sent := c'.out[|c.out|..];
            && (sent != [] <==>
                  || c'.snd.q.next > c.snd.q.next
                  || (CallsForAnswer(c, seg) && (SmallOutOfOrder(c, seg) || c.InputEnded() || c.out == [])))
            && Numbers(sent) == c'.snd.q.next - c.snd.q.next
            && (forall i :: 0 <= i < |sent| ==> c'.rcv.synRecv ==> CarriesAck(sent[i], c'.rcv))
            && (forall i :: 0 <= i < |sent| && sent[i].Length() == 0 ==> sent[i].header.seqno == Wrap(c.snd.q.next, c.snd.isn))
  {
    hide Wrap, Unwrap, Represents, Disjoint, Assembler.Valid, ReceiveSpec, FlagsMove, AckDefined, AckSpec, FillSpec, Harmless, Inv, Paced,
      Demands, Conn.Early, Conn.Takes, Conn.Heeds, Fills, CarriesAck, CallsForAnswer, Numbers, StampAll, SmallOutOfOrder;
    EarlyMeans(c, seg);
    ConnPending(c);
    ConnSums(c);
    DemandsMeans(c, seg);
    var mid, segs :| SenderMoves(c, seg, mid, c'.snd, segs) && Outputs(c, seg, segs, c');
    var e := Emitted(c, seg, c'.snd, segs);
    assert c'.out[|c.out|..] == StampAll(e, c'.rcv);
    SentInReturn(c, seg, c', mid, segs);
    LingerSendsNothing(c, seg, mid, c'.snd, segs);
    EmittedNumbers(c, seg, c'.snd, segs);
    StampedNumbers(e, c'.rcv);
    StampedCarry(e, c'.rcv);
  }

  /** What the sender sends in return. */
  lemma SentInReturn(c: Conn, seg: Segment, c': Conn, mid: Sender, segs: seq<Segment>)
    requires ConnInv(c) && Acceptable(c, seg) && Hearable(c, seg) && SenderMoves(c, seg, mid, c'.snd, segs)
    ensures c'.snd.q.next == c.snd.q.next + Numbers(segs) && c'.snd.isn == c.snd.isn
    ensures forall i :: 0 <= i < |segs| ==> segs[i].Length() > 0 && !segs[i].header.rst && !segs[i].header.ack
  {
    hide Wrap, Unwrap, Represents, Disjoint, Assembler.Valid, AckDefined, AckSpec, FillSpec, Harmless, Inv, Paced, FlagInv, Conn.Heeds, Fills, Numbers;
    ConnSums(c);
    ConnPending(c);
    NoSegments();
    if c.Heeds(seg) {
      HeedsAck(c, seg);
      AckInv(c.snd, seg.header.ackno, seg.header.win, mid);
    }
    if Fills(c, seg) {
      FillInv(mid, c'.snd, segs);
      FillConserves(mid, c'.snd, segs);
      forall i | 0 <= i < |segs|
        ensures segs[i].Length() > 0 && !segs[i].header.rst && !segs[i].header.ack
      {
        FillPlain(mid, c'.snd, segs, i);
      }
    }
  }

  lemma LingerSendsNothing(c: Conn, seg: Segment, mid: Sender, s': Sender, segs: seq<Segment>)
    requires Hearable(c, seg) && SenderMoves(c, seg, mid, s', segs)
    ensures c.InputEnded() && !c.Early(seg) && c.linger ==> segs == []
  {
    hide AckSpec, FillSpec, AckDefined;
  }

  lemma HeedsAck(c: Conn, seg: Segment)
    requires Hearable(c, seg) && Acceptable(c, seg) && c.Heeds(seg)
    ensures AckDefined(c.snd, seg.header.ackno) && Harmless(c.snd.q, AbsoluteAck(c.snd, seg.header.ackno))
  {
    hide AckDefined, Harmless;
  }

  lemma EmittedNumbers(c: Conn, seg: Segment, s': Sender, segs: seq<Segment>)
    requires s'.q.next == c.snd.q.next + Numbers(segs) && s'.isn == c.snd.isn
    requires forall i :: 0 <= i < |segs| ==> segs[i].Length() > 0 && !segs[i].header.rst && !segs[i].header.ack
    requires c.InputEnded() && !c.Early(seg) && c.linger ==> segs == []
    ensures var e := Emitted(c, seg, s', segs);
            && Numbers(e) == Numbers(segs)
            && (segs == [] <==> Numbers(segs) == 0)
            && (e != [] <==> segs != [] || (Demands(c, seg) && (c.Early(seg) || c.InputEnded() || c.out == [])))
            && (forall i :: 0 <= i < |e| ==> !e[i].header.rst && !e[i].header.ack)
            && (forall i :: 0 <= i < |e| && e[i].Length() == 0 ==> e[i].header.seqno == Wrap(c.snd.q.next, c.snd.isn))
  {
    hide Wrap, Demands, Conn.Early, Numbers;
    NoSegments();
    NumbersPositive(segs);
    NumbersBefore(EmptySegment(c.snd), segs);
    NumbersBefore(EmptySegment(s'), segs);
    NumbersBefore(EmptySegment(s'), []);
    assert [EmptySegment(s')] + [] == [EmptySegment(s')] && [] + segs == segs;
  }

  lemma {:induction false} NumbersPositive(segs: seq<Segment>)
    requires forall i :: 0 <= i < |segs| ==> segs[i].Length() > 0
    ensures segs == [] <==> Numbers(segs) == 0
  {
  }

  lemma {:induction false} NumbersBefore(seg: Segment, segs: seq<Segment>)
    requires seg.Length() == 0
    ensures Numbers([seg] + segs) == Numbers(segs)
    decreases |segs|
  {
    var x := [seg] + segs;
    if segs == [] {
      assert x == [seg] && x[..0] == [];
    } else {
      NumbersBefore(seg, segs[..|segs| - 1]);
      assert x[..|x| - 1] == [seg] + segs[..|segs| - 1];
    }
  }

  lemma {:induction false} StampedNumbers(e: seq<Segment>, r: Receiver)
    ensures Numbers(StampAll(e, r)) == Numbers(e)
  {
    hide Stamp;
    if e != [] {
      var l := |e| - 1;
      StampedNumbers(e[..l], r);
      StampSame(e[l], r);
      assert StampAll(e, r)[..l] == StampAll(e[..l], r);
    }
  }

  lemma StampedCarry(e: seq<Segment>, r: Receiver)
    requires forall i :: 0 <= i < |e| ==> !e[i].header.rst
    ensures forall i :: 0 <= i < |e| ==>
              var t := StampAll(e, r)[i];
              && (r.synRecv ==> CarriesAck(t, r)) && t.Length() == e[i].Length() && t.header.seqno == e[i].header.seqno
  {
    hide Stamp, CarriesAck, StampAll;
    forall i | 0 <= i < |e|
      ensures var t := StampAll(e, r)[i];
              && (r.synRecv ==> CarriesAck(t, r)) && t.Length() == e[i].Length() && t.header.seqno == e[i].header.seqno
    {
      StampSame(e[i], r);
    }
  }

  /** In particular a FIN that comes again after the inbound stream has ended is acknowledged again, lingering or not. */
  lemma RepeatedFinAnswered(c: Conn, seg: Segment, c': Conn)
    requires ConnInv(c) && Acceptable(c, seg) && Hearable(c, seg) && SegmentSpec(c, seg, c')
    requires c.active && c.InputEnded() && seg.header.fin && !seg.header.syn && !seg.header.rst
    ensures |c'.out| > |c.out| && CarriesAck(c'.out[|c.out|], c'.rcv)
  {
    hide SegmentSpec, Hearable, Acceptable, CarriesAck, Numbers, Inv, Paced, Wrap, Represents, Disjoint, Assembler.Valid;
    Answered(c, seg, c');
    ConnPending(c);
    assert CallsForAnswer(c, seg);
    assert c'.rcv.synRecv by { SynStays(c, seg, c'); }
    assert c'.out[|c.out|..][0] == c'.out[|c.out|];
  }

  lemma SynStays(c: Conn, seg: Segment, c': Conn)
    requires FlagInv(c) && Hearable(c, seg) && SegmentSpec(c, seg, c')
    ensures c.rcv.synRecv ==> c'.rcv.synRecv
  {
    hide Wrap, Unwrap, Represents, Disjoint, Assembler.Valid, PushSpec, SenderMoves, FlagsMove, Outputs, AckDefined;
  }

  // -- Time ----------------------------------------------------------------------------------------------------------

  /** The ninth retransmission in a row is due. */
  predicate Ninth(c: Conn, ms: nat) {
    Due(c.snd.t, ms) && c.snd.t.retransmissions == MAX_RETX_ATTEMPTS
  }

  /** What time does to an active connection. It gives up exactly at the ninth retransmission; otherwise it
      closes exactly if it is in its final wait and ten initial timeouts have passed since the last segment. */
  lemma TimeEnds(c: Conn, rtTimeout: nat, ms: nat, c': Conn)
    requires ConnInv(c) && ConnTickSpec(c, rtTimeout, ms, c') && c.active
    ensures c'.sndError <==> Ninth(c, ms)
    ensures !c'.active && !c'.sndError <==> !Ninth(c, ms) && c.timeWait && c.sinceLast + ms >= 10 * rtTimeout
    ensures c'.sinceLast == c.sinceLast + ms && c'.rcv == c.rcv && c'.linger == c.linger && c'.timeWait == c.timeWait
  {
    hide Wrap, Represents, Disjoint, Assembler.Valid, Inv, Paced, TickSpec, StampAll;
    ConnSums(c);
    ConnPending(c);
    var s', segs :| TickSpec(c.snd, ms, s', segs) && c' == TickOutcome(AfterTick(c, ms, s', segs), rtTimeout);
    TimeoutClock(c.snd, ms, s', segs);
  }

  /** So the final wait comes to its end: with our FIN acknowledged, in CLOSED. */
  lemma WaitEndsClosed(c: Conn, rtTimeout: nat, ms: nat, c': Conn)
    requires ConnInv(c) && ConnTickSpec(c, rtTimeout, ms, c')
    requires c.State() == OfficialState(TIME_WAIT) && c.timeWait && c.sinceLast + ms >= 10 * rtTimeout
    ensures c'.State() == OfficialState(CLOSED)
  {
    hide Wrap, Represents, Disjoint, Assembler.Valid, Inv, ConnTickSpec, Conn.State, OfficialState;
    NamesMeant(c, TIME_WAIT);
    TimeEnds(c, rtTimeout, ms, c');
    AckedStops(c);
    TickKeeps(c, rtTimeout, ms, c');
    TickKeepsFin(c, rtTimeout, ms, c');
    NamesMeant(c', CLOSED);
  }

  lemma AckedStops(c: Conn)
    requires ConnInv(c) && c.snd.q.finAcked
    ensures !c.snd.t.running
  {
    hide Represents, Disjoint, Wrap, Sum, Sized, Held, Paced, Assembler.Valid;
  }

  lemma TickKeepsFin(c: Conn, rtTimeout: nat, ms: nat, c': Conn)
    requires ConnTickSpec(c, rtTimeout, ms, c')
    ensures c'.snd.q.finAcked == c.snd.q.finAcked
  {
    hide Wrap, TickSpec, StampAll;
    if c.active {
      var s', segs :| TickSpec(c.snd, ms, s', segs) && c' == TickOutcome(AfterTick(c, ms, s', segs), rtTimeout);
      TickFlags(c.snd, ms, s', segs);
    }
  }

  /** What goes out with time: nothing before the timeout; then what the sender sends again, carrying the current
      acknowledgment; and in giving up one RST in place of everything, numbered like the first. */
  lemma TimeSends(c: Conn, rtTimeout: nat, ms: nat, c': Conn)
    requires ConnInv(c) && ConnTickSpec(c, rtTimeout, ms, c') && c.active
    ensures !Due(c.snd.t, ms) ==> c'.out == c.out
    ensures Due(c.snd.t, ms) && !Ninth(c, ms) ==>
              && |c'.out| == |c.out| + 1 && c.out <= c'.out
              && var sent := c'.out[|c.out|];
              && sent.Length() > 0 && (c.rcv.synRecv ==> CarriesAck(sent, c.rcv))
              && (c.snd.q.unAcked != [] ==>
                    var base, n := c.snd.q.base, c.snd.q.sizes[0];
                    && n > 0 && 1 <= base && base - 1 + n <= |c.snd.out.written|
                    && sent.header.seqno == Wrap(base, c.snd.isn) && sent.payload == c.snd.out.written[base - 1..base - 1 + n]
                    && (sent.header.fin <==> c.snd.q.finSent && base + n + 1 == c.snd.q.next))
    ensures Ninth(c, ms) ==>
              && |c'.out| == 1 && c'.out[0].header.rst && c'.out[0].Length() == 0
              && (c.out != [] ==> c'.out[0].header.seqno == c.out[0].header.seqno)
              && (c.out == [] && c.snd.q.unAcked != [] ==> c'.out[0].header.seqno == Wrap(c.snd.q.base, c.snd.isn))
  {
    hide Wrap, Represents, Disjoint, Assembler.Valid, Inv, Paced, TickSpec, StampAll, Stamp, CarriesAck, TickOutcome;
    ConnSums(c);
    ConnPending(c);
    var s', segs :| TickSpec(c.snd, ms, s', segs) && c' == TickOutcome(AfterTick(c, ms, s', segs), rtTimeout);
    TimeoutClock(c.snd, ms, s', segs);
    TimeoutSends(c.snd, ms, s', segs);
    var c1 := AfterTick(c, ms, s', segs);
    OutcomeOut(c1, rtTimeout);
    RetransmissionsBounded(c);
    if segs == [] {
      StampNone(c.rcv);
      assert c1.out == c.out;
    } else {
      var t := Stamp(segs[0], c.rcv);
      StampSame(segs[0], c.rcv);
      assert StampAll(segs, c.rcv) == [t];
      assert c1.out[|c.out|] == t;
    }
  }

  lemma RetransmissionsBounded(c: Conn)
    requires ConnInv(c) && c.active
    ensures c.snd.t.retransmissions <= MAX_RETX_ATTEMPTS
  {
    hide Inv, FlagInv, Paced;
  }

  lemma OutcomeOut(c: Conn, rtTimeout: nat)
    requires c.pending == []
    ensures var c' := TickOutcome(c, rtTimeout);
            if c.snd.t.retransmissions > MAX_RETX_ATTEMPTS
            then |c'.out| == 1 && c'.out[0].header.rst && c'.out[0].Length() == 0 && (c.out != [] ==> c'.out[0].header.seqno == c.out[0].header.seqno)
            else c'.out == c.out
  {
    hide Wrap;
  }

  // -- Calls of the owner -----------------------------------------------------------------------------------------------

  /** Filling at the owner's call: all new numbers go out, in order after what is queued, and nothing that could
      be sent is left. */
  lemma CallSends(c: Conn, c': Conn)
    requires ConnInv(c) && FillOut(c, c')
    ensures c.out <= c'.out && Numbers(c'.out[|c.out|..]) == c'.snd.q.next - c.snd.q.next
    ensures Settled(c'.snd) && c'.snd.out.written == c.snd.out.written && c'.snd.out.ended == c.snd.out.ended
    ensures c' == c.(snd := c'.snd, out := c'.out)
  {
    hide Wrap, Represents, Disjoint, Assembler.Valid, Inv, Paced, FillSpec, StampAll, Numbers, Settled;
    ConnPending(c);
    var segs :| FillSpec(c.snd, c'.snd, segs) && c' == c.(snd := c'.snd, pending := [], out := c.out + StampAll(segs, c.rcv));
    FillInv(c.snd, c'.snd, segs);
    FillConserves(c.snd, c'.snd, segs);
    FillSettles(c.snd, c'.snd, segs);
    StampedNumbers(segs, c.rcv);
    assert c'.out[|c.out|..] == StampAll(segs, c.rcv);
  }

  /** Writing appends as much as there is room for, nothing once the stream has ended, and then sends. */
  lemma WriteSends(c: Conn, data: seq<byte>, mid: Sender, c': Conn)
    requires ConnInv(c) && WriteSpec(c.snd, data, mid) && mid.out.Valid() && FillOut(c.(snd := mid), c')
    ensures var room := c.snd.out.capacity - (|c.snd.out.written| - c.snd.out.read);
            var n := if c.snd.out.ended then 0 else if room < |data| then room else |data|;
            0 <= n <= |data| && c'.snd.out.written == c.snd.out.written + data[..n]
    ensures c'.snd.out.ended == c.snd.out.ended && Settled(c'.snd)
    ensures c.out <= c'.out && Numbers(c'.out[|c.out|..]) == c'.snd.q.next - c.snd.q.next
  {
    hide Wrap, Represents, Disjoint, Assembler.Valid, Inv, FillOut, Paced, Numbers, Settled;
    WriteInv(c.snd, data, mid);
    CallSends(c.(snd := mid), c');
  }

  /** Ending the outbound stream ends it, and then sends. */
  lemma EndSends(c: Conn, c': Conn)
    requires ConnInv(c) && c.snd.out.Valid() && FillOut(c.(snd := EndedSender(c.snd)), c')
    ensures c'.snd.out.ended && c'.snd.out.written == c.snd.out.written && Settled(c'.snd)
    ensures c.out <= c'.out && Numbers(c'.out[|c.out|..]) == c'.snd.q.next - c.snd.q.next
  {
    hide Wrap, Represents, Disjoint, Assembler.Valid, Inv, FillOut, Paced, Numbers, Settled;
    EndInv(c.snd, EndedSender(c.snd));
    CallSends(c.(snd := EndedSender(c.snd)), c');
  }
}
