/** Runs of a connection, from its beginning, to states where it does not do what one would expect. */
module ConnectionExamples {
  import opened Machine
  import opened WrappingIntegers
  import opened ByteStreams
  import opened Fragments
  import opened TcpSegments
  import opened Reassembly
  import R = ReassemblyRuns
  import opened TcpReceivers
  import opened SegmentSizes
  import opened TcpSenders
  import opened SenderRuns
  import opened TcpStates
  import opened TcpConnections
  import opened ConnectionRuns

  // -- What arrives -------------------------------------------------------------------------------------

  /** The peer's SYN, acknowledging ours. */
  function SynAck(isn: uint32, peer: uint32): Segment {
    Segment(BLANK.(seqno := peer, syn := true, ack := true, ackno := Wrap(1, isn), win := 100), [])
  }

  /** A SYN that carries a FIN. */
  function SynFin(peer: uint32): Segment {
    Segment(BLANK.(seqno := peer, syn := true, fin := true), [])
  }

  /** The peer's FIN, right after its SYN, acknowledging our SYN. */
  function PeerFin(isn: uint32, peer: uint32): Segment {
    Segment(BLANK.(seqno := Wrap(1, peer), fin := true, ack := true, ackno := Wrap(1, isn), win := 100), [])
  }

  /** An RST with a number already received. */
  function OldRst(peer: uint32): Segment {
    Segment(BLANK.(seqno := peer, rst := true), [])
  }

  /** An acknowledgment of our FIN with a number already received. */
  function OldAck(isn: uint32, peer: uint32): Segment {
    Segment(BLANK.(seqno := peer, ack := true, ackno := Wrap(2, isn), win := 100), [])
  }

  // -- The two halves along the way -----------------------------------------------------------------------

  function Ready(isn: uint32): Sender {
    Flying(isn, [], 0, 100)
  }

  /** Our FIN is in flight. */
  function FinFlying(isn: uint32): Sender {
    Sender(Queue([], [], true, true, true, false, 1, 2, 100), Clock(1000, 1000, true, 0, 0, true, 0, 0), Stream([], 0, 100, true), isn)
  }

  function Deaf(): Receiver {
    Receiver(Assembler(Stream([], 0, 100, false), map[], false, 0), false, 0, 0)
  }

  function Listening(peer: uint32): Receiver {
    Receiver(Assembler(Stream([], 0, 100, false), map[], false, 0), true, peer, Wrap(1, peer))
  }

  /** The peer has closed without sending anything. */
  function Told(peer: uint32): Receiver {
    Receiver(Assembler(Stream([], 0, 100, true), map[], true, 0), true, peer, Wrap(2, peer))
  }

  lemma ReceiveSyn(isn: uint32, peer: uint32)
    ensures Deaf().Valid() && Listening(peer).Valid() && Told(peer).Valid()
    ensures Deaf().Spacious(0) && ReceiveSpec(Deaf(), SynAck(isn, peer), Listening(peer))
    ensures ReceiveSpec(Deaf(), SynFin(peer), Told(peer))
  {
    hide Wrap, Unwrap, Represents;
  }

  lemma ReceiveFin(isn: uint32, peer: uint32)
    ensures Listening(peer).Valid() && Listening(peer).Spacious(0)
    ensures ReceiveSpec(Listening(peer), PeerFin(isn, peer), Told(peer))
    ensures ReceiveSpec(Listening(peer), OldRst(peer), Listening(peer))
    ensures Told(peer).Valid() && Told(peer).Spacious(0)
    ensures ReceiveSpec(Told(peer), OldAck(isn, peer), Told(peer))
  {
    hide Wrap, Unwrap, Represents;
    ReceiveSyn(isn, peer);
    UnwrapExact(1, peer, 0);
  }

  /** The numbers one apart differ on the wire. */
  lemma OldNumber(peer: uint32)
    ensures Wrap(0, peer) == peer && Wrap(1, peer) != peer && Wrap(2, peer) != peer
  {
  }

  lemma SenderSteps(isn: uint32)
    ensures Initial(100, 1000, isn).out.Valid()
    ensures FillSpec(Initial(100, 1000, isn), Calling(isn), [Initial(100, 1000, isn).SynSegment()])
    ensures AckSpec(Calling(isn), Wrap(1, isn), 100, Ready(isn)) && Harmless(Calling(isn).q, AbsoluteAck(Calling(isn), Wrap(1, isn)))
    ensures Ready(isn).out.Valid() && FillSpec(Ready(isn), Ready(isn), [])
    ensures AckSpec(Ready(isn), Wrap(1, isn), 100, Ready(isn)) && Harmless(Ready(isn).q, AbsoluteAck(Ready(isn), Wrap(1, isn)))
  {
    hide Wrap, Unwrap;
    UnwrapExact(1, isn, 0);
    UnwrapExact(1, isn, 1);
    assert Sum([]) == 0;
  }

  lemma ClosingSteps(isn: uint32)
    ensures EndedSender(Ready(isn)).out.Valid()
    ensures FillSpec(EndedSender(Ready(isn)), FinFlying(isn), [EndedSender(Ready(isn)).FinSegment(1)])
    ensures FinFlying(isn).out.Valid() && FillSpec(FinFlying(isn), FinFlying(isn), [])
    ensures AckSpec(FinFlying(isn), Wrap(1, isn), 100, FinFlying(isn))
    ensures Harmless(FinFlying(isn).q, AbsoluteAck(FinFlying(isn), Wrap(1, isn)))
    ensures var s' := FinAcknowledged(isn);
            && AckSpec(FinFlying(isn), Wrap(2, isn), 100, s') && Harmless(FinFlying(isn).q, AbsoluteAck(FinFlying(isn), Wrap(2, isn)))
            && s'.out.Valid() && FillSpec(s', s', [])
  {
    hide Wrap, Unwrap;
    UnwrapExact(1, isn, 1);
    UnwrapExact(2, isn, 1);
    assert Sum([]) == 0;
  }

  function FinAcknowledged(isn: uint32): Sender {
    Sender(Queue([], [], true, true, true, true, 2, 2, 100), Clock(1000, 1000, false, 0, 0, true, 0, 0), Stream([], 0, 100, true), isn)
  }

  // -- The connection along the way -------------------------------------------------------------------------

  function Start(isn: uint32): Conn {
    InitialConn(100, 100, 1000, isn)
  }

  function Called(isn: uint32): Conn {
    Start(isn).(snd := Calling(isn), out := StampAll([Initial(100, 1000, isn).SynSegment()], Deaf()))
  }

  function Established(isn: uint32, peer: uint32): Conn {
    Called(isn).(snd := Ready(isn), rcv := Listening(peer))
  }

  function FinWait(isn: uint32, peer: uint32): Conn {
    var c := Established(isn, peer);
    c.(snd := FinFlying(isn), out := c.out + StampAll([EndedSender(Ready(isn)).FinSegment(1)], Listening(peer)))
  }

  function Closing(isn: uint32, peer: uint32): Conn {
    FinWait(isn, peer).(rcv := Told(peer), timeWait := true)
  }

  function CloseWaiting(isn: uint32, peer: uint32): Conn {
    Established(isn, peer).(rcv := Told(peer), linger := false)
  }

  function LastAck(isn: uint32, peer: uint32): Conn {
    var c := CloseWaiting(isn, peer);
    c.(snd := FinFlying(isn), out := c.out + StampAll([EndedSender(Ready(isn)).FinSegment(1)], Told(peer)))
  }

  lemma StartFine(isn: uint32)
    ensures ConnInv(Start(isn))
  {
    InitialConnInv(100, 100, 1000, isn);
  }

  lemma CallStep(isn: uint32)
    ensures ConnStep(Start(isn), 1000, Connects, Called(isn)) && ConnInv(Called(isn))
  {
    hide Wrap, Represents, Disjoint, ConnInv, FillSpec, StampAll, FillOut;
    StartFine(isn);
    SenderSteps(isn);
    var syn := Initial(100, 1000, isn).SynSegment();
    FillOutIntro(Start(isn), Calling(isn), [syn], Called(isn));
    ConnStepInv(Start(isn), 1000, Connects, Called(isn));
  }

  /** A segment without payload has been handled as specified. */
  lemma Arrived(c: Conn, seg: Segment, c': Conn, mid: Sender, segs: seq<Segment>)
    requires ConnInv(c) && Acceptable(c, seg) && Hearable(c, seg)
    requires c.active && !c.ResetBy(seg)
    requires c'.sinceLast == 0 && c'.sndError == c.sndError && c'.rcvError == c.rcvError
    requires if c.Takes(seg) then ReceiveSpec(c.rcv, seg, c'.rcv) else c'.rcv == c.rcv
    requires SenderMoves(c, seg, mid, c'.snd, segs)
    requires FlagsMove(c, seg, c')
    requires c'.pending == [] && c'.out == c.out + StampAll(Emitted(c, seg, c'.snd, segs), c'.rcv)
    ensures ConnStep(c, 1000, Arrives(seg), c') && ConnInv(c')
  {
    hide Wrap, Unwrap, Represents, Disjoint, ConnInv, Harmless, ReceiveSpec, SenderMoves, FlagsMove, StampAll, Emitted, SegmentSpec;
    SegmentDone(c, seg, c', mid, segs, Emitted(c, seg, c'.snd, segs));
    SegmentKeeps(c, seg, c');
  }

  lemma EstablishStep(isn: uint32, peer: uint32)
    ensures ConnStep(Called(isn), 1000, Arrives(SynAck(isn, peer)), Established(isn, peer)) && ConnInv(Established(isn, peer))
  {
    hide Wrap, Unwrap, Represents, Disjoint, ConnInv, AckSpec, FillSpec, ReceiveSpec, Harmless, ConnStep, Inv, StampAll, Assembler.Valid;
    CallStep(isn);
    SenderSteps(isn);
    ReceiveSyn(isn, peer);
    ConnSums(Called(isn));
    ConnPending(Called(isn));
    StampNone(Listening(peer));
    assert Called(isn).out != [];
    ConnHears(Called(isn), SynAck(isn, peer));
    Arrived(Called(isn), SynAck(isn, peer), Established(isn, peer), Ready(isn), []);
  }

  lemma EndStep(isn: uint32, c: Conn, c': Conn)
    requires ConnInv(c) && c.snd == Ready(isn)
    requires c' == c.(snd := FinFlying(isn), out := c.out + StampAll([EndedSender(Ready(isn)).FinSegment(1)], c.rcv))
    ensures ConnStep(c, 1000, Ends, c') && ConnInv(c')
  {
    hide Wrap, Unwrap, Represents, Disjoint, ConnInv, FillSpec, AckSpec, Harmless, StampAll, FillOut, Sender.FinSegment, Ready, FinFlying,
      FinAcknowledged, EndedSender;
    ClosingSteps(isn);
    ConnPending(c);
    var mid := c.(snd := EndedSender(c.snd));
    assert c' == mid.(snd := FinFlying(isn), pending := [], out := mid.out + StampAll([EndedSender(Ready(isn)).FinSegment(1)], mid.rcv));
    FillOutIntro(mid, FinFlying(isn), [EndedSender(Ready(isn)).FinSegment(1)], c');
    ConnStepInv(c, 1000, Ends, c');
  }

  lemma ClosingStep(isn: uint32, peer: uint32)
    requires ConnInv(FinWait(isn, peer))
    ensures ConnStep(FinWait(isn, peer), 1000, Arrives(PeerFin(isn, peer)), Closing(isn, peer)) && ConnInv(Closing(isn, peer))
  {
    hide Wrap, Unwrap, Represents, Disjoint, ConnInv, AckSpec, FillSpec, ReceiveSpec, Harmless, ConnStep, Inv, StampAll, Assembler.Valid;
    ClosingSteps(isn);
    ReceiveFin(isn, peer);
    ConnSums(FinWait(isn, peer));
    ConnPending(FinWait(isn, peer));
    StampNone(Told(peer));
    assert FinWait(isn, peer).out != [];
    ConnHears(FinWait(isn, peer), PeerFin(isn, peer));
    Arrived(FinWait(isn, peer), PeerFin(isn, peer), Closing(isn, peer), FinFlying(isn), []);
  }

  lemma CloseWaitStep(isn: uint32, peer: uint32)
    requires ConnInv(Established(isn, peer))
    ensures ConnStep(Established(isn, peer), 1000, Arrives(PeerFin(isn, peer)), CloseWaiting(isn, peer))
    ensures ConnInv(CloseWaiting(isn, peer))
  {
    hide Wrap, Unwrap, Represents, Disjoint, ConnInv, AckSpec, FillSpec, ReceiveSpec, Harmless, ConnStep, Inv, StampAll, Assembler.Valid;
    SenderSteps(isn);
    ReceiveFin(isn, peer);
    ConnSums(Established(isn, peer));
    ConnPending(Established(isn, peer));
    StampNone(Told(peer));
    assert Established(isn, peer).out != [];
    ConnHears(Established(isn, peer), PeerFin(isn, peer));
    Arrived(Established(isn, peer), PeerFin(isn, peer), CloseWaiting(isn, peer), Ready(isn), []);
  }

  // -- An RST that is no reset -----------------------------------------------------------------------------------

  function AfterOldRst(isn: uint32, peer: uint32): Conn {
    var c := Established(isn, peer);
    c.(out := c.out + StampAll([EmptySegment(Ready(isn))], Listening(peer)))
  }

  /** An RST numbered like the SYN leaves an established connection active and established. */
  lemma OldRstExample(isn: uint32, peer: uint32)
    ensures ConnRun(Start(isn), 1000, [Connects, Arrives(SynAck(isn, peer)), Arrives(OldRst(peer))],
                    [Start(isn), Called(isn), Established(isn, peer), AfterOldRst(isn, peer)])
    ensures AfterOldRst(isn, peer).active && AfterOldRst(isn, peer).State() == OfficialState(ESTABLISHED)
  {
    hide Wrap, Unwrap, Represents, Disjoint, ConnInv, AckSpec, FillSpec, ReceiveSpec, Harmless, ConnStep, Inv, StampAll, Assembler.Valid, Conn.State;
    var c, c', seg := Established(isn, peer), AfterOldRst(isn, peer), OldRst(peer);
    CallStep(isn);
    EstablishStep(isn, peer);
    SenderSteps(isn);
    ReceiveFin(isn, peer);
    OldNumber(peer);
    ConnSums(c);
    ConnPending(c);
    ConnHears(c, seg);
    Arrived(c, seg, c', c.snd, []);
    NamesMeant(c', ESTABLISHED);
  }

  // -- An answer that is not sent ----------------------------------------------------------------------------------

  /** While our SYN has not been collected, the peer's SYN is received but not acknowledged: nothing is
      put out, and what is there carries no acknowledgment. */
  lemma SuppressedExample(isn: uint32, peer: uint32)
    ensures ConnRun(Start(isn), 1000, [Connects, Arrives(SynAck(isn, peer))], [Start(isn), Called(isn), Established(isn, peer)])
    ensures Demands(Called(isn), SynAck(isn, peer)) && Established(isn, peer).out == Called(isn).out
    ensures forall i :: 0 <= i < |Called(isn).out| ==> !Called(isn).out[i].header.ack
  {
    hide Wrap, ConnStep, ConnInv, Represents, StampAll;
    CallStep(isn);
    EstablishStep(isn, peer);
  }

  // -- A wait that runs out ----------------------------------------------------------------------------------------

  function WaitOver(isn: uint32, peer: uint32): Conn {
    var c, s := Closing(isn, peer), FinFlying(isn);
    c.(snd := s.(t := s.t.Ticked(10000).Backed()), sinceLast := 10000, active := false,
       out := c.out + StampAll([s.RetransmitSegment()], Told(peer)))
  }

  /** Both ends close at once and our FIN gets lost: after ten timeouts the connection is over, in a state
      that has no official name. */
  lemma WaitExample(isn: uint32, peer: uint32)
    ensures ConnRun(Start(isn), 1000,
                    [Connects, Arrives(SynAck(isn, peer)), Ends, Arrives(PeerFin(isn, peer)), Ticks(10000)],
                    [Start(isn), Called(isn), Established(isn, peer), FinWait(isn, peer), Closing(isn, peer), WaitOver(isn, peer)])
    ensures Closing(isn, peer).State() == OfficialState(CLOSING)
    ensures !WaitOver(isn, peer).active && !WaitOver(isn, peer).sndError
    ensures forall o :: WaitOver(isn, peer).State() != OfficialState(o)
  {
    hide Wrap, Unwrap, Represents, Disjoint, ConnInv, ConnStep, Inv, StampAll, Assembler.Valid, Conn.State, WaitOver;
    CallStep(isn);
    EstablishStep(isn, peer);
    EndStep(isn, Established(isn, peer), FinWait(isn, peer));
    ClosingStep(isn, peer);
    NamesMeant(Closing(isn, peer), CLOSING);
    WaitStep(isn, peer);
  }

  lemma FinTicks(isn: uint32)
    ensures var s := FinFlying(isn);
            && s.FrontReady()
            && TickSpec(s, 10000, s.(t := s.t.Ticked(10000).Backed()), [s.RetransmitSegment()])
  {
    hide Wrap;
  }

  lemma FinWaitFields(isn: uint32, peer: uint32)
    ensures var c := FinWait(isn, peer);
            c.snd == FinFlying(isn) && c.active && !c.sndError && c.linger && c.sinceLast == 0
  {
    hide Wrap, StampAll;
  }

  lemma TickIsStep(c: Conn, ms: nat, c': Conn)
    requires ConnTickSpec(c, 1000, ms, c')
    ensures ConnStep(c, 1000, Ticks(ms), c')
  {
    hide ConnTickSpec, ConnInv;
  }

  lemma WaitOutcome(isn: uint32, peer: uint32)
    ensures var c, c', s := Closing(isn, peer), WaitOver(isn, peer), FinFlying(isn);
            && c.active && c.snd == s && s.FrontReady() && !c'.active && !c'.sndError && !c'.snd.q.finAcked
            && !c.snd.q.finAcked
            && c' == TickOutcome(AfterTick(c, 10000, s.(t := s.t.Ticked(10000).Backed()), [s.RetransmitSegment()]), 1000)
  {
    hide Wrap, StampAll, FinWait, Sender.RetransmitSegment;
    FinWaitFields(isn, peer);
  }

  lemma WaitStep(isn: uint32, peer: uint32)
    requires ConnInv(Closing(isn, peer))
    ensures ConnStep(Closing(isn, peer), 1000, Ticks(10000), WaitOver(isn, peer))
    ensures !WaitOver(isn, peer).active && !WaitOver(isn, peer).sndError
    ensures forall o :: WaitOver(isn, peer).State() != OfficialState(o)
  {
    hide Wrap, Unwrap, Represents, Disjoint, ConnInv, Inv, StampAll, Assembler.Valid, Conn.State, TickSpec, Sender.RetransmitSegment,
      ConnStep, ConnTickSpec, OfficialState, Closing, WaitOver, FinFlying, TickOutcome, AfterTick, Clock.Ticked, Clock.Backed;
    var c, c', s := Closing(isn, peer), WaitOver(isn, peer), FinFlying(isn);
    var s' := s.(t := s.t.Ticked(10000).Backed());
    FinTicks(isn);
    WaitOutcome(isn, peer);
    TickDone(c, 1000, 10000, s', [s.RetransmitSegment()], c');
    TickIsStep(c, 10000, c');
    WaitRunsOut(c, 1000, 10000, c');
  }

  // -- An acknowledgment of the FIN that ends nothing ------------------------------------------------------------------

  function LastAckMissed(isn: uint32, peer: uint32): Conn {
    var c := LastAck(isn, peer);
    c.(snd := FinAcknowledged(isn), out := c.out + StampAll([EmptySegment(FinAcknowledged(isn))], Told(peer)))
  }

  /** The peer closes, then we do, and our FIN is acknowledged -- by a segment with an old number. The
      connection stays active, in a state that has no official name. */
  lemma LastAckExample(isn: uint32, peer: uint32)
    ensures ConnRun(Start(isn), 1000,
                    [Connects, Arrives(SynAck(isn, peer)), Arrives(PeerFin(isn, peer)), Ends, Arrives(OldAck(isn, peer))],
                    [Start(isn), Called(isn), Established(isn, peer), CloseWaiting(isn, peer), LastAck(isn, peer), LastAckMissed(isn, peer)])
    ensures LastAck(isn, peer).State() == OfficialState(LAST_ACK)
    ensures LastAckMissed(isn, peer).active && LastAckMissed(isn, peer).snd.q.finAcked
    ensures forall o :: LastAckMissed(isn, peer).State() != OfficialState(o)
  {
    hide Wrap, Unwrap, Represents, Disjoint, ConnInv, ConnStep, Inv, StampAll, Assembler.Valid, Conn.State, LastAckMissed;
    CallStep(isn);
    EstablishStep(isn, peer);
    CloseWaitStep(isn, peer);
    EndStep(isn, CloseWaiting(isn, peer), LastAck(isn, peer));
    NamesMeant(LastAck(isn, peer), LAST_ACK);
    LastAckStep(isn, peer);
  }

  lemma LastAckStep(isn: uint32, peer: uint32)
    requires ConnInv(LastAck(isn, peer)) && LastAck(isn, peer).State() == OfficialState(LAST_ACK)
    ensures ConnStep(LastAck(isn, peer), 1000, Arrives(OldAck(isn, peer)), LastAckMissed(isn, peer))
    ensures LastAckMissed(isn, peer).active && LastAckMissed(isn, peer).snd.q.finAcked
    ensures forall o :: LastAckMissed(isn, peer).State() != OfficialState(o)
  {
    hide Wrap, Unwrap, Represents, Disjoint, ConnInv, AckSpec, FillSpec, ReceiveSpec, Harmless, Inv, StampAll, Assembler.Valid, Conn.State, SegmentSpec;
    var c, c', seg := LastAck(isn, peer), LastAckMissed(isn, peer), OldAck(isn, peer);
    ClosingSteps(isn);
    ReceiveFin(isn, peer);
    OldNumber(peer);
    ConnSums(c);
    ConnPending(c);
    ConnHears(c, seg);
    Arrived(c, seg, c', FinAcknowledged(isn), []);
    LastAckEnds(c, seg, c');
  }

  // -- An end that is not noticed ----------------------------------------------------------------------------------------

  function EndMissed(isn: uint32, peer: uint32): Conn {
    Start(isn).(snd := Calling(isn), rcv := Told(peer), out := StampAll([Initial(100, 1000, isn).SynSegment()], Told(peer)))
  }

  /** A SYN that carries a FIN ends the inbound stream, but no way to close is chosen. */
  lemma EndMissedExample(isn: uint32, peer: uint32)
    ensures ConnRun(Start(isn), 1000, [Arrives(SynFin(peer))], [Start(isn), EndMissed(isn, peer)])
    ensures EndMissed(isn, peer).active && EndMissed(isn, peer).InputEnded() && !Decided(EndMissed(isn, peer))
  {
    hide Wrap, Unwrap, Represents, Disjoint, ConnInv, FillSpec, ReceiveSpec, ConnStep, Inv, StampAll, Assembler.Valid;
    var c, c' := Start(isn), EndMissed(isn, peer);
    StartFine(isn);
    SenderSteps(isn);
    ReceiveSyn(0, peer);
    ConnSums(c);
    ConnPending(c);
    ConnHears(c, SynFin(peer));
    Arrived(c, SynFin(peer), c', c.snd, [Initial(100, 1000, isn).SynSegment()]);
  }

  // -- An end that is not noticed on a small segment -----------------------------------------------------------------------

  /** Two bytes have arrived with the FIN in a capacity of one: the second waits. `read` have been read. */
  function HalfTold(peer: uint32, x: byte, y: byte, read: nat): Receiver {
    Receiver(R.OneWaits(x, y).(eofSeen := true, eofIdx := 2, out := Stream([x], read, 1, false)), true, peer, Wrap(2, peer))
  }

  function AllTold(peer: uint32, x: byte, y: byte): Receiver {
    Receiver(Assembler(Stream([x, y], 1, 1, true), map[], true, 2), true, peer, Wrap(4, peer))
  }

  function Narrow(peer: uint32): Receiver {
    Receiver(R.Initial(1), true, peer, Wrap(1, peer))
  }

  function PeerSyn(peer: uint32): Segment {
    Segment(BLANK.(seqno := peer, syn := true), [])
  }

  function TwoAndFin(peer: uint32, x: byte, y: byte): Segment {
    Segment(BLANK.(seqno := Wrap(1, peer), fin := true), [x, y])
  }

  /** One byte beyond the window. */
  function FarByte(peer: uint32, z: byte): Segment {
    Segment(BLANK.(seqno := Wrap(6, peer)), [z])
  }

  lemma PushTwo(x: byte, y: byte)
    ensures R.Initial(1).Valid() && R.OneWaits(x, y).(eofSeen := true, eofIdx := 2).Valid()
    ensures PushSpec(R.Initial(1), [x, y], 0, true, R.OneWaits(x, y).(eofSeen := true, eofIdx := 2))
  {
    hide Represents, Size, Disjoint, Assembler.Valid;
    var a, d: seq<byte> := R.Initial(1), [x, y];
    R.InitialFaithful(1, []);
    R.OneWaitsHolds(x, y);
    SameValid(R.OneWaits(x, y), R.OneWaits(x, y).(eofSeen := true, eofIdx := 2));
    DenoteEmpty();
    NothingCovers(a.frags, 0);
    assert !a.Dropped(0, d) && a.NewIndex(0) == 0;
    assert a.Merged(0, d) == Placed(0, d);
    assert Placed(0, d) == map[0 := x, 1 := y];
    assert map[0 := x, 1 := y] - Interval(0, 1) == map[1 := y];
  }

  lemma SameValid(a: Assembler, a': Assembler)
    requires a.Valid() && a'.frags == a.frags && a'.out.Valid() && a'.out.written == a.out.written && a.Limit() <= a'.Limit()
    ensures a'.Valid()
  {
    hide Disjoint;
  }

  lemma PushFar(peer: uint32, x: byte, y: byte, z: byte)
    ensures HalfTold(peer, x, y, 1).asm.Valid() && AllTold(peer, x, y).asm.Valid()
    ensures PushSpec(HalfTold(peer, x, y, 1).asm, [z], 5, false, AllTold(peer, x, y).asm)
  {
    hide Represents, Size, Disjoint, Assembler.Valid, Wrap;
    var a, a' := HalfTold(peer, x, y, 1).asm, AllTold(peer, x, y).asm;
    R.OneWaitsHolds(x, y);
    SameValid(R.OneWaits(x, y), a);
    AllToldValid(peer, x, y);
    DenoteEmpty();
    assert a.Pending() == map[1 := y];
    FarPush(a, z);
    var none: map<nat, byte> := map[];
    assert map[1 := y] - Interval(1, 1) == none;
  }

  lemma AllToldValid(peer: uint32, x: byte, y: byte)
    ensures AllTold(peer, x, y).asm.Valid()
  {
    hide Wrap;
  }

  lemma FarPush(a: Assembler, z: byte)
    requires a.Valid() && a.Pending().Keys == {1} && a.Limit() == 2 && a.Next() == 1
    ensures !a.Dropped(5, [z]) && a.Merged(5, [z]) == a.Pending()
  {
    hide Represents, Size, Disjoint;
    NotHeld(a, 5);
    assert Rewritten(a.Pending(), a.Fresh(5, [z])) == a.Pending();
  }

  lemma NotHeld(a: Assembler, index: nat)
    requires a.Valid() && index !in a.Pending()
    ensures EndOf(a.frags, index) == index
  {
  }

  lemma NarrowReceives(peer: uint32, x: byte, y: byte, z: byte)
    ensures var first := Receiver(R.Initial(1), false, 0, 0);
            first.Valid() && first.Spacious(0) && ReceiveSpec(first, PeerSyn(peer), Narrow(peer))
    ensures Narrow(peer).Valid() && Narrow(peer).Spacious(2) && ReceiveSpec(Narrow(peer), TwoAndFin(peer, x, y), HalfTold(peer, x, y, 0))
    ensures ReadSpec(HalfTold(peer, x, y, 0).asm, 1, HalfTold(peer, x, y, 1).asm)
    ensures HalfTold(peer, x, y, 1).Valid() && HalfTold(peer, x, y, 1).Spacious(1)
    ensures ReceiveSpec(HalfTold(peer, x, y, 1), FarByte(peer, z), AllTold(peer, x, y))
  {
    hide Wrap, Unwrap, Represents, Disjoint, Assembler.Valid, DrainSpec, Assembler.Merged, Assembler.Dropped;
    R.InitialFaithful(1, []);
    PushTwo(x, y);
    PushFar(peer, x, y, z);
    UnwrapExact(1, peer, 0);
    UnwrapExact(6, peer, 1);
  }

  function Start1(isn: uint32): Conn {
    InitialConn(100, 1, 1000, isn)
  }

  function Greeted(isn: uint32, peer: uint32): Conn {
    Start1(isn).(snd := Calling(isn), rcv := Narrow(peer), out := StampAll([Initial(100, 1000, isn).SynSegment()], Narrow(peer)))
  }

  function EarlyEnd(isn: uint32, peer: uint32, x: byte, y: byte): Conn {
    var c := Greeted(isn, peer);
    c.(rcv := AllTold(peer, x, y), out := c.out + StampAll([EmptySegment(Calling(isn))], AllTold(peer, x, y)))
  }

  lemma GreetStep(isn: uint32, peer: uint32)
    ensures ConnStep(Start1(isn), 1000, Arrives(PeerSyn(peer)), Greeted(isn, peer)) && ConnInv(Greeted(isn, peer))
  {
    hide Wrap, Unwrap, Represents, Disjoint, ConnInv, FlagInv, FillSpec, ReceiveSpec, ConnStep, Inv, StampAll, Assembler.Valid, Harmless, AckDefined;
    var c := Start1(isn);
    InitialConnInv(100, 1, 1000, isn);
    SenderSteps(isn);
    NarrowReceives(peer, 0, 0, 0);
    ConnHears(c, PeerSyn(peer));
    Arrived(c, PeerSyn(peer), Greeted(isn, peer), c.snd, [Initial(100, 1000, isn).SynSegment()]);
  }

  lemma TwoStep(isn: uint32, peer: uint32, x: byte, y: byte)
    requires ConnInv(Greeted(isn, peer))
    ensures var c, c' := Greeted(isn, peer), Greeted(isn, peer).(rcv := HalfTold(peer, x, y, 0));
            ConnStep(c, 1000, Arrives(TwoAndFin(peer, x, y)), c') && ConnInv(c')
  {
    hide Wrap, Unwrap, Represents, Disjoint, ConnInv, FlagInv, FillSpec, ReceiveSpec, ConnStep, Inv, StampAll, Assembler.Valid, Harmless, AckDefined;
    var c, seg := Greeted(isn, peer), TwoAndFin(peer, x, y);
    NarrowReceives(peer, x, y, 0);
    ConnPending(c);
    ConnHears(c, seg);
    StampNone(HalfTold(peer, x, y, 0));
    assert c.out != [];
    Arrived(c, seg, c.(rcv := HalfTold(peer, x, y, 0)), c.snd, []);
  }

  lemma ReadStep(isn: uint32, peer: uint32, x: byte, y: byte)
    requires ConnInv(Greeted(isn, peer).(rcv := HalfTold(peer, x, y, 0)))
    ensures var c := Greeted(isn, peer);
            var c1, c2 := c.(rcv := HalfTold(peer, x, y, 0)), c.(rcv := HalfTold(peer, x, y, 1));
            ConnStep(c1, 1000, Reads(1), c2) && ConnInv(c2)
  {
    hide Wrap, Unwrap, Represents, Disjoint, ConnInv, FlagInv, ReceiveSpec, StampAll, Assembler.Valid;
    var c := Greeted(isn, peer);
    NarrowReceives(peer, x, y, 0);
    ConnStepInv(c.(rcv := HalfTold(peer, x, y, 0)), 1000, Reads(1), c.(rcv := HalfTold(peer, x, y, 1)));
  }

  lemma FarStep(isn: uint32, peer: uint32, x: byte, y: byte, z: byte)
    requires ConnInv(Greeted(isn, peer).(rcv := HalfTold(peer, x, y, 1)))
    ensures ConnStep(Greeted(isn, peer).(rcv := HalfTold(peer, x, y, 1)), 1000, Arrives(FarByte(peer, z)), EarlyEnd(isn, peer, x, y))
  {
    hide Wrap, Unwrap, Represents, Disjoint, ConnInv, FlagInv, FillSpec, ReceiveSpec, ConnStep, Inv, StampAll, Assembler.Valid, Harmless, AckDefined;
    var c, seg := Greeted(isn, peer).(rcv := HalfTold(peer, x, y, 1)), FarByte(peer, z);
    NarrowReceives(peer, x, y, z);
    FarNumber(peer);
    ConnPending(c);
    ConnHears(c, seg);
    Arrived(c, seg, EarlyEnd(isn, peer, x, y), c.snd, []);
  }

  lemma FarNumber(peer: uint32)
    ensures Wrap(6, peer) != Wrap(2, peer)
  {
  }

  /** The end of the stream waits behind a full output. Once there is room, a byte beyond the window has it
      written, on the path of small segments out of order: no way to close is chosen. */
  lemma EarlyEndExample(isn: uint32, peer: uint32, x: byte, y: byte, z: byte)
    ensures var c := Greeted(isn, peer);
            ConnRun(Start1(isn), 1000, [Arrives(PeerSyn(peer)), Arrives(TwoAndFin(peer, x, y)), Reads(1), Arrives(FarByte(peer, z))],
                    [Start1(isn), c, c.(rcv := HalfTold(peer, x, y, 0)), c.(rcv := HalfTold(peer, x, y, 1)), EarlyEnd(isn, peer, x, y)])
    ensures var c' := EarlyEnd(isn, peer, x, y); c'.active && c'.InputEnded() && !Decided(c')
  {
    hide Wrap, ConnStep, ConnInv, StampAll;
    GreetStep(isn, peer);
    TwoStep(isn, peer, x, y);
    ReadStep(isn, peer, x, y);
    FarStep(isn, peer, x, y, z);
  }
}
