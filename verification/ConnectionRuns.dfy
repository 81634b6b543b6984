/** What holds over every run of a connection. */
module ConnectionRuns {
  import opened Machine
  import opened WrappingIntegers
  import opened ByteStreams
  import opened Fragments
  import opened TcpSegments
  import opened Reassembly
  import opened TcpReceivers
  import opened SegmentSizes
  import opened TcpSenders
  import opened SenderRuns
  import opened TcpStates
  import opened TcpConnections

  // -- What a segment gets in return -------------------------------------------------------------------------

  /** The segment is out of order and small: at most one number, which is not the next, and no SYN. */
  predicate SmallOutOfOrder(c: Conn, seg: Segment) {
    && c.rcv.synRecv && seg.header.seqno != c.rcv.ackno
    && |seg.payload| + (if seg.header.fin then 1 else 0) <= 1 && !seg.header.syn
  }

  lemma EarlyMeans(c: Conn, seg: Segment)
    ensures c.Early(seg) <==> SmallOutOfOrder(c, seg)
  {
  }

  /** The segment calls for an answer: it is small and out of order; or a FIN after the inbound stream has ended;
      or it takes up numbers before that; or it is the SYN that we wait for. */
  predicate CallsForAnswer(c: Conn, seg: Segment) {
    || SmallOutOfOrder(c, seg)
    || (c.InputEnded() && !seg.header.syn && seg.header.fin)
    || (!c.InputEnded() && c.rcv.synRecv && !seg.header.syn && (seg.payload != [] || seg.header.fin))
    || (!c.rcv.synRecv && seg.header.syn)
  }

  lemma DemandsMeans(c: Conn, seg: Segment)
    requires FlagInv(c)
    ensures Demands(c, seg) <==> CallsForAnswer(c, seg)
  {
    hide Represents, Disjoint, Wrap, Assembler.Valid;
    EarlyMeans(c, seg);
  }

  /** The segment carries the acknowledgment and the window that the receiver has on offer. */
  predicate CarriesAck(seg: Segment, r: Receiver) {
    seg.header.ack && seg.header.ackno == r.ackno && seg.header.win == r.Window() % 0x1_0000 && !seg.header.rst
  }

  /** Every segment that filling puts out takes up numbers, and comes without acknowledgment. */
  lemma FillPlain(s: Sender, s': Sender, segs: seq<Segment>, i: nat)
    requires s.out.Valid() && FillSpec(s, s', segs) && i < |segs|
    ensures segs[i].Length() > 0 && !segs[i].header.rst && !segs[i].header.ack
  {
    hide Wrap, Queue.Remain;
  }

  lemma StampSame(seg: Segment, r: Receiver)
    ensures Stamp(seg, r).Length() == seg.Length() && Stamp(seg, r).payload == seg.payload
    ensures Stamp(seg, r).header.seqno == seg.header.seqno
    ensures Stamp(seg, r).header.syn == seg.header.syn && Stamp(seg, r).header.fin == seg.header.fin
    ensures Stamp(seg, r).header.rst == seg.header.rst
    ensures !seg.header.rst && r.synRecv ==> CarriesAck(Stamp(seg, r), r)
  {
  }

  /** What a segment gets in return, whatever acknowledgment it carries. Everything put out carries the current
      acknowledgment and window. Something is put out exactly if filling the window sent something new,
      or if the segment calls for an answer that is not suppressed -- which it is when older segments have not
      been collected yet, although these do not carry the new acknowledgment. Once the inbound stream has
      ended and we linger, only a FIN or a small segment out of order is answered. */
  lemma Answers(c: Conn, seg: Segment, c': Conn)
    requires FlagInv(c) && Hearable(c, seg) && SegmentSpec(c, seg, c')
    requires c.active && (seg.header.rst ==> SmallOutOfOrder(c, seg))
    ensures c.out <= c'.out
    ensures c'.rcv.synRecv ==> forall i :: |c.out| <= i < |c'.out| ==> CarriesAck(c'.out[i], c'.rcv)
    ensures c'.out != c.out <==>
              || c'.snd.q.next > c.snd.q.next
              || (CallsForAnswer(c, seg) && (SmallOutOfOrder(c, seg) || c.InputEnded() || c.out == []))
    ensures c.InputEnded() && c.linger && !SmallOutOfOrder(c, seg) && !(seg.header.fin && !seg.header.syn) ==> c'.out == c.out
  {
    hide Wrap, Unwrap, Represents, Disjoint, Assembler.Valid, ReceiveSpec, AckSpec, FillSpec, FlagsMove, AckDefined, CarriesAck, StampAll,
      Demands, Conn.Early, Conn.Heeds, Conn.Takes;
    EarlyMeans(c, seg);
    DemandsMeans(c, seg);
    var mid, segs :| SenderMoves(c, seg, mid, c'.snd, segs) && Outputs(c, seg, segs, c');
    if c.Heeds(seg) {
      assert AckDefined(c.snd, seg.header.ackno);
      AckMovesNothing(c.snd, seg.header.ackno, seg.header.win, mid);
    }
    if Fills(c, seg) {
      FillGrows(mid, c'.snd, segs);
    }
    EmittedCarries(c, seg, mid, c'.snd, segs, c'.rcv);
    forall i | |c.out| <= i < |c'.out| && c'.rcv.synRecv
      ensures CarriesAck(c'.out[i], c'.rcv)
    {
      assert c'.out[i] == StampAll(Emitted(c, seg, c'.snd, segs), c'.rcv)[i - |c.out|];
    }
  }

  lemma EmittedCarries(c: Conn, seg: Segment, mid: Sender, s': Sender, segs: seq<Segment>, r: Receiver)
    requires Hearable(c, seg) && SenderMoves(c, seg, mid, s', segs)
    ensures var t := StampAll(Emitted(c, seg, s', segs), r);
            r.synRecv ==> forall i :: 0 <= i < |t| ==> CarriesAck(t[i], r)
  {
    hide Wrap, AckSpec, FillSpec, AckDefined, CarriesAck, StampAll, Demands, Conn.Early, Conn.Heeds, Fills, Stamp;
    var e := Emitted(c, seg, s', segs);
    forall i | 0 <= i < |e|
      ensures r.synRecv ==> CarriesAck(StampAll(e, r)[i], r)
    {
      if Fills(c, seg) {
        forall j | 0 <= j < |segs|
          ensures !segs[j].header.rst
        {
          FillPlain(mid, s', segs, j);
        }
      }
      StampSame(e[i], r);
    }
  }

  lemma AckMovesNothing(s: Sender, ackno: uint32, window: uint16, s': Sender)
    requires AckDefined(s, ackno) && AckSpec(s, ackno, window, s')
    ensures s'.q.next == s.q.next
  {
    hide Wrap, Unwrap, CutSizes;
  }

  /** An RST resets the connection exactly if it is not a small segment out of order; if it is, the
      connection stays active. */
  lemma ResetExactly(c: Conn, seg: Segment, c': Conn)
    requires FlagInv(c) && Hearable(c, seg) && SegmentSpec(c, seg, c')
    requires c.active && seg.header.rst
    ensures c'.State() == OfficialState(RESET) <==> !c.Early(seg)
    ensures c.Early(seg) ==> c'.active
  {
    hide Wrap, Unwrap, Inv, Represents, Disjoint, Assembler.Valid, ReceiveSpec, SenderMoves, Paced, Outputs;
  }

  /** Exactly one of the two ways to close has been chosen. */
  predicate Decided(c: Conn) {
    !c.linger != c.timeWait
  }

  /** The end of the inbound stream decides how to close exactly if it does not come on a small segment
      out of order or with the SYN: by waiting if our FIN is out by then, else without lingering. If it
      does come so, neither way is chosen. */
  lemma EndNoticed(c: Conn, seg: Segment, c': Conn)
    requires FlagInv(c) && Hearable(c, seg) && SegmentSpec(c, seg, c')
    requires !c.InputEnded() && c'.InputEnded()
    ensures Decided(c') <==> !c.Early(seg) && c.rcv.synRecv
    ensures c'.active && (!Decided(c') ==> c'.linger && !c'.timeWait)
    ensures Decided(c') ==> (c'.timeWait <==> c'.snd.q.finSent) && (c'.linger <==> c'.snd.q.finSent)
  {
    hide Wrap, Unwrap, Inv, Represents, Disjoint, Assembler.Valid, ReceiveSpec, SenderMoves, Paced, Outputs, Conn.Takes;
  }

  /** The acknowledgment of our FIN ends LAST_ACK, with CLOSED -- exactly if it does not come on a small
      segment out of order. If it does, the connection stays active, in a state without official name. */
  lemma LastAckEnds(c: Conn, seg: Segment, c': Conn)
    requires ConnInv(c) && Acceptable(c, seg) && Hearable(c, seg) && SegmentSpec(c, seg, c')
    requires c.State() == OfficialState(LAST_ACK) && c'.snd.q.finAcked
    ensures c'.State() == OfficialState(CLOSED) <==> !c.Early(seg)
    ensures c.Early(seg) ==> c'.active && forall o :: c'.State() != OfficialState(o)
  {
    hide Wrap, Unwrap, Inv, Represents, Disjoint, Assembler.Valid, ReceiveSpec, AckSpec, FillSpec, Harmless, Paced, Outputs, Conn.State, SenderMoves;
    NamesMeant(c, LAST_ACK);
    SegmentKeeps(c, seg, c');
    NamesMeant(c', CLOSED);
    if !c.Heeds(seg) {
      FinNotAcked(c, seg, c');
    }
    forall o
      ensures c'.State() == OfficialState(o) <==> Meant(c', o)
    {
      NamesMeant(c', o);
    }
    InvFacts(c'.snd);
  }

  lemma FinNotAcked(c: Conn, seg: Segment, c': Conn)
    requires FlagInv(c) && Hearable(c, seg) && SegmentSpec(c, seg, c')
    requires !c.Heeds(seg) && !c.snd.q.finAcked
    ensures !c'.snd.q.finAcked
  {
    hide Wrap, Unwrap, Inv, Represents, Disjoint, Assembler.Valid, ReceiveSpec, FillSpec, Harmless, Paced, Outputs, FlagsMove;
    if c.active && !c.ResetBy(seg) {
      var mid, segs :| SenderMoves(c, seg, mid, c'.snd, segs) && Outputs(c, seg, segs, c');
      if Fills(c, seg) {
        FillAcksNothing(mid, c'.snd, segs);
      }
    }
  }

  // -- Whole runs ------------------------------------------------------------------------------------------

  datatype ConnEvent =
    | Arrives(seg: Segment)
    | Ticks(ms: nat)
    | Writes(data: seq<byte>)
    | Ends
    | Connects
    | Reads(len: nat)
    | Collects(k: nat)

  /** One call on a connection that is in order; segments that arrive are acceptable ones. */
  ghost predicate ConnStep(c: Conn, rtTimeout: nat, e: ConnEvent, c': Conn) {
    ConnInv(c) && c.snd.out.Valid() && Sum(c.snd.q.sizes) == |c.snd.q.unAcked| ==>
    match e
    case Arrives(seg) => Acceptable(c, seg) && Hearable(c, seg) && SegmentSpec(c, seg, c')
    case Ticks(ms) => ConnTickSpec(c, rtTimeout, ms, c')
    case Writes(data) =>
      if data == [] then c' == c
      else exists mid :: WriteSpec(c.snd, data, mid) && mid.out.Valid() && FillOut(c.(snd := mid), c')
    case Ends => FillOut(c.(snd := EndedSender(c.snd)), c')
    case Connects => FillOut(c, c')
    case Reads(len) => ReadOutSpec(c, len, c')
    case Collects(k) => k <= |c.out| && c' == c.(out := c.out[k..])
  }

  lemma ConnStepInv(c: Conn, rtTimeout: nat, e: ConnEvent, c': Conn)
    requires ConnInv(c) && ConnStep(c, rtTimeout, e, c')
    ensures ConnInv(c')
  {
    hide Represents, Size, Disjoint, Wrap, Inv, ConnInv, SegmentSpec, Acceptable, ConnTickSpec, FillOut, WriteSpec;
    ConnSums(c);
    match e
    case Arrives(seg) => SegmentKeeps(c, seg, c');
    case Ticks(ms) => TickKeeps(c, rtTimeout, ms, c');
    case Writes(data) =>
      if data != [] {
        var mid :| WriteSpec(c.snd, data, mid) && mid.out.Valid() && FillOut(c.(snd := mid), c');
        WriteKeeps(c, data, mid, c');
      }
    case Ends => EndKeeps(c, c');
    case Connects => FillKeeps(c, c');
    case Reads(len) => ReadKeeps(c, len, c');
    case Collects(k) => CollectKeeps(c, k);
  }

  ghost predicate ConnRun(first: Conn, rtTimeout: nat, events: seq<ConnEvent>, states: seq<Conn>) {
    && |states| == |events| + 1
    && states[0] == first
    && forall i :: 0 <= i < |events| ==> ConnStep(states[i], rtTimeout, events[i], states[i + 1])
  }

  /** Over every run of a connection: giving up lingering and the final wait never go together, and an
      ending is a reset that says RESET, or a close with both streams ended that says CLOSED exactly if
      our FIN was acknowledged. */
  lemma {:induction false} ShutdownSafety(sendCapacity: nat, recvCapacity: nat, rtTimeout: uint16, isn: uint32,
                                          events: seq<ConnEvent>, states: seq<Conn>, n: nat)
    requires ConnRun(InitialConn(sendCapacity, recvCapacity, rtTimeout, isn), rtTimeout, events, states) && n <= |events|
    ensures ConnInv(states[n])
    ensures var c := states[n];
            && !(c.timeWait && !c.linger)
            && (!c.active && c.sndError ==> c.State() == OfficialState(RESET))
            && (!c.active && !c.sndError ==> c.InputEnded() && c.snd.q.finSent)
            && (!c.active && !c.sndError ==> (c.State() == OfficialState(CLOSED) <==> c.snd.q.finAcked))
            && (!c.active && !c.sndError && !c.linger ==> c.snd.q.finAcked)
  {
    hide Represents, Size, Disjoint, Wrap, Inv, ConnStep, Conn.State, Paced, Receiver.Valid;
    if n == 0 {
      InitialConnInv(sendCapacity, recvCapacity, rtTimeout, isn);
    } else {
      ShutdownSafety(sendCapacity, recvCapacity, rtTimeout, isn, events, states, n - 1);
      ConnStepInv(states[n - 1], rtTimeout, events[n - 1], states[n]);
    }
    if !states[n].active {
      Endings(states[n]);
    }
  }

  // -- Any acknowledgments -------------------------------------------------------------------------------------

  /** One call, where nothing is assumed of the acknowledgments that arrive but that the program defines
      what they do. */
  ghost predicate LooseStep(c: Conn, rtTimeout: nat, e: ConnEvent, c': Conn) {
    FlagInv(c) ==>
    match e
    case Arrives(seg) => Hearable(c, seg) && SegmentSpec(c, seg, c')
    case Ticks(ms) => ConnTickSpec(c, rtTimeout, ms, c')
    case Writes(data) =>
      if data == [] then c' == c
      else exists mid :: WriteSpec(c.snd, data, mid) && mid.out.Valid() && FillOut(c.(snd := mid), c')
    case Ends => FillOut(c.(snd := EndedSender(c.snd)), c')
    case Connects => FillOut(c, c')
    case Reads(len) => ReadOutSpec(c, len, c')
    case Collects(k) => k <= |c.out| && c' == c.(out := c.out[k..])
  }

  lemma LooseStepFlags(c: Conn, rtTimeout: nat, e: ConnEvent, c': Conn)
    requires FlagInv(c) && LooseStep(c, rtTimeout, e, c')
    ensures FlagInv(c')
  {
    hide Represents, Size, Disjoint, FlagInv, Hearable, SegmentSpec, ConnTickSpec, FillOut, WriteSpec;
    FlagFacts(c);
    match e
    case Arrives(seg) => SegmentFlags(c, seg, c');
    case Ticks(ms) => TickKeepsFlags(c, rtTimeout, ms, c');
    case Writes(data) =>
      if data != [] {
        var mid :| WriteSpec(c.snd, data, mid) && mid.out.Valid() && FillOut(c.(snd := mid), c');
        WriteKeepsFlags(c, data, mid, c');
      }
    case Ends => EndKeepsFlags(c, c');
    case Connects => FillKeepsFlags(c, c');
    case Reads(len) => ReadKeeps(c, len, c');
    case Collects(k) => CollectKeeps(c, k);
  }

  ghost predicate LooseRun(first: Conn, rtTimeout: nat, events: seq<ConnEvent>, states: seq<Conn>) {
    && |states| == |events| + 1
    && states[0] == first
    && forall i :: 0 <= i < |events| ==> LooseStep(states[i], rtTimeout, events[i], states[i + 1])
  }

  /** Over every run of a connection, whatever acknowledgments arrive: giving up lingering and the final wait
      never go together; a reset reports exactly RESET; and any other end has the inbound stream ended and
      the FIN sent, and acknowledged if lingering was given up. */
  lemma {:induction false} FlagSafety(sendCapacity: nat, recvCapacity: nat, rtTimeout: uint16, isn: uint32,
                                      events: seq<ConnEvent>, states: seq<Conn>, n: nat)
    requires LooseRun(InitialConn(sendCapacity, recvCapacity, rtTimeout, isn), rtTimeout, events, states) && n <= |events|
    ensures FlagInv(states[n])
    ensures var c := states[n];
            && !(c.timeWait && !c.linger)
            && (c.State() == OfficialState(RESET) <==> c.sndError)
            && (c.sndError ==> !c.active)
            && (!c.active && !c.sndError ==> c.InputEnded() && c.snd.q.finSent)
            && (!c.active && !c.sndError && !c.linger ==> c.snd.q.finAcked)
  {
    hide Represents, Size, Disjoint, Wrap, LooseStep, Conn.State, Receiver.Valid;
    if n == 0 {
      InitialConnInv(sendCapacity, recvCapacity, rtTimeout, isn);
      ConnPending(states[0]);
    } else {
      FlagSafety(sendCapacity, recvCapacity, rtTimeout, isn, events, states, n - 1);
      LooseStepFlags(states[n - 1], rtTimeout, events[n - 1], states[n]);
    }
    ResetReported(states[n]);
  }

  lemma ResetReported(c: Conn)
    requires FlagInv(c)
    ensures c.State() == OfficialState(RESET) <==> c.sndError
  {
    hide Represents, Size, Disjoint, Wrap, Receiver.Valid;
  }

  /** A run whose acknowledgments are all handled as meant is one of these. */
  lemma StepIsLoose(c: Conn, rtTimeout: nat, e: ConnEvent, c': Conn)
    requires ConnInv(c) && ConnStep(c, rtTimeout, e, c')
    ensures LooseStep(c, rtTimeout, e, c')
  {
    hide Represents, Size, Disjoint, Wrap, Inv, FlagInv, SegmentSpec, Acceptable, Hearable, ConnTickSpec, FillOut, WriteSpec, Paced;
    ConnSums(c);
  }

  // -- What goes out ------------------------------------------------------------------------------------------

  /** The sequence number is one of the stream, its SYN or its FIN, or the next one after. */
  ghost predicate Numbered(seqno: uint32, isn: uint32, out: Stream) {
    exists abs: nat :: abs <= |out.written| + 2 && seqno == Wrap(abs, isn)
  }

  /** An empty segment, sent for its acknowledgment or as a reset. */
  ghost predicate Bare(seg: Segment, isn: uint32, out: Stream) {
    seg.payload == [] && !seg.header.syn && !seg.header.fin && Numbered(seg.header.seqno, isn, out)
  }

  /** All that is on its way out: empty segments, and true slices of the outbound stream. */
  ghost predicate OnlyTrue(c: Conn) {
    AllTrue(c.out, c.snd.isn, c.snd.out)
  }

  ghost predicate AllTrue(segs: seq<Segment>, isn: uint32, out: Stream) {
    forall i :: 0 <= i < |segs| ==> True(segs[i], isn, out)
  }

  ghost predicate True(seg: Segment, isn: uint32, out: Stream) {
    Bare(seg, isn, out) || Genuine(seg, isn, out)
  }

  lemma TrueNumbered(seg: Segment, isn: uint32, out: Stream)
    requires True(seg, isn, out)
    ensures Numbered(seg.header.seqno, isn, out)
  {
    hide Wrap;
    if abs: nat :| Accurate(seg, abs, isn, out) {
      assert abs <= |out.written| + 2;
    }
  }

  lemma TrueLater(seg: Segment, isn: uint32, out: Stream, out': Stream)
    requires True(seg, isn, out)
    requires out.written <= out'.written && (out.ended ==> out'.ended && out'.written == out.written)
    ensures True(seg, isn, out')
  {
    hide Wrap, Genuine;
    if Genuine(seg, isn, out) {
      GenuineLater(seg, isn, out, out');
    } else {
      var abs: nat :| abs <= |out.written| + 2 && seg.header.seqno == Wrap(abs, isn);
      assert abs <= |out'.written| + 2;
    }
  }

  /** Empty segments are sent at the next number. */
  lemma EmptyTrue(s: Sender)
    requires Inv(s)
    ensures True(EmptySegment(s), s.isn, s.out) && Numbered(Wrap(s.q.next, s.isn), s.isn, s.out)
  {
    hide Wrap, Sized, Held, Sum, Genuine;
    assert s.q.next <= |s.out.written| + 2;
  }

  lemma StampTrue(seg: Segment, r: Receiver, isn: uint32, out: Stream)
    requires True(seg, isn, out)
    ensures True(Stamp(seg, r), isn, out)
  {
    hide Wrap;
    if abs: nat :| Accurate(seg, abs, isn, out) {
      assert Accurate(Stamp(seg, r), abs, isn, out);
    }
  }

  /** Putting out true segments, while the outbound stream may grow, keeps everything true. */
  lemma AppendTrue(c: Conn, segs: seq<Segment>, c': Conn)
    requires OnlyTrue(c) && c'.out == c.out + StampAll(segs, c'.rcv) && c'.snd.isn == c.snd.isn
    requires c.snd.out.written <= c'.snd.out.written
    requires c.snd.out.ended ==> c'.snd.out.ended && c'.snd.out.written == c.snd.out.written
    requires AllTrue(segs, c.snd.isn, c'.snd.out)
    ensures OnlyTrue(c')
  {
    hide AllTrue, StampAll;
    AllTrueLater(c.out, c.snd.isn, c.snd.out, c'.snd.out);
    AllStamped(segs, c'.rcv, c.snd.isn, c'.snd.out);
    AllTrueTogether(c.out, StampAll(segs, c'.rcv), c.snd.isn, c'.snd.out);
  }

  lemma AllTrueLater(segs: seq<Segment>, isn: uint32, out: Stream, out': Stream)
    requires AllTrue(segs, isn, out)
    requires out.written <= out'.written && (out.ended ==> out'.ended && out'.written == out.written)
    ensures AllTrue(segs, isn, out')
  {
    hide True;
    forall i | 0 <= i < |segs|
      ensures True(segs[i], isn, out')
    {
      TrueLater(segs[i], isn, out, out');
    }
  }

  lemma AllStamped(segs: seq<Segment>, r: Receiver, isn: uint32, out: Stream)
    requires AllTrue(segs, isn, out)
    ensures AllTrue(StampAll(segs, r), isn, out)
  {
    hide True, Stamp, StampAll;
    forall i | 0 <= i < |segs|
      ensures True(StampAll(segs, r)[i], isn, out)
    {
      StampTrue(segs[i], r, isn, out);
    }
  }

  lemma AllTrueTogether(x: seq<Segment>, y: seq<Segment>, isn: uint32, out: Stream)
    requires AllTrue(x, isn, out) && AllTrue(y, isn, out)
    ensures AllTrue(x + y, isn, out)
  {
    hide True;
  }

  /** Over every run of a connection, everything it puts out is a true slice of its outbound stream, or
      an empty segment with a number of that stream. */
  lemma {:induction false} OutputSafety(sendCapacity: nat, recvCapacity: nat, rtTimeout: uint16, isn: uint32,
                                        events: seq<ConnEvent>, states: seq<Conn>, n: nat)
    requires ConnRun(InitialConn(sendCapacity, recvCapacity, rtTimeout, isn), rtTimeout, events, states) && n <= |events|
    ensures OnlyTrue(states[n])
  {
    hide Represents, Size, Disjoint, Wrap, Inv, ConnStep, ConnInv, True;
    if n > 0 {
      OutputSafety(sendCapacity, recvCapacity, rtTimeout, isn, events, states, n - 1);
      ShutdownSafety(sendCapacity, recvCapacity, rtTimeout, isn, events, states, n - 1);
      StepTrue(states[n - 1], rtTimeout, events[n - 1], states[n]);
    }
  }

  lemma StepTrue(c: Conn, rtTimeout: nat, e: ConnEvent, c': Conn)
    requires ConnInv(c) && ConnStep(c, rtTimeout, e, c') && OnlyTrue(c)
    ensures OnlyTrue(c')
  {
    hide Represents, Size, Disjoint, Wrap, Inv, ConnInv, SegmentSpec, Acceptable, ConnTickSpec, FillOut, OnlyTrue;
    ConnSums(c);
    ConnPending(c);
    match e
    case Arrives(seg) => SegmentTrue(c, seg, c');
    case Ticks(ms) => TickTrue(c, rtTimeout, ms, c');
    case Writes(data) =>
      if data != [] {
        var mid :| WriteSpec(c.snd, data, mid) && mid.out.Valid() && FillOut(c.(snd := mid), c');
        WriteInv(c.snd, data, mid);
        FillTrue(c, mid, c');
      }
    case Ends =>
      EndInv(c.snd, EndedSender(c.snd));
      FillTrue(c, EndedSender(c.snd), c');
    case Connects => FillTrue(c, c.snd, c');
    case Reads(len) => SameTrue(c, 0, c');
    case Collects(k) => SameTrue(c, k, c');
  }

  lemma SameTrue(c: Conn, k: nat, c': Conn)
    requires OnlyTrue(c) && k <= |c.out| && c'.out == c.out[k..] && c'.snd == c.snd
    ensures OnlyTrue(c')
  {
    hide True;
  }

  lemma FillTrue(c: Conn, mid: Sender, c': Conn)
    requires OnlyTrue(c) && Inv(mid) && mid.isn == c.snd.isn && mid.out.Valid() && FillOut(c.(snd := mid), c')
    requires c.snd.out.written <= mid.out.written
    requires c.snd.out.ended ==> mid.out.ended && mid.out.written == c.snd.out.written
    ensures OnlyTrue(c')
  {
    hide Represents, Size, Disjoint, Wrap, Inv, OnlyTrue, FillSpec, Genuine, StampAll;
    var segs :| FillSpec(mid, c'.snd, segs) && c' == c.(snd := c'.snd, pending := [], out := c.out + StampAll(segs, c.rcv));
    FillGenuine(mid, c'.snd, segs);
    AppendTrue(c, segs, c');
  }

  lemma FillGenuine(s: Sender, s': Sender, segs: seq<Segment>)
    requires Inv(s) && s.out.Valid() && FillSpec(s, s', segs)
    ensures Inv(s') && s'.out.written == s.out.written && s'.out.ended == s.out.ended && s'.isn == s.isn
    ensures AllTrue(segs, s.isn, s'.out)
  {
    hide Inv, FillSpec, Genuine, Bare;
    FillInv(s, s', segs);
    forall i | 0 <= i < |segs|
      ensures Genuine(segs[i], s.isn, s'.out)
    {
      GenuineLater(segs[i], s.isn, s.out, s'.out);
    }
  }

  lemma SegmentTrue(c: Conn, seg: Segment, c': Conn)
    requires ConnInv(c) && Acceptable(c, seg) && Hearable(c, seg) && SegmentSpec(c, seg, c')
    requires OnlyTrue(c)
    ensures OnlyTrue(c')
  {
    hide Wrap, Unwrap, Inv, Represents, Disjoint, Assembler.Valid, ReceiveSpec, AckSpec, FillSpec, Harmless, Paced, FlagsMove,
      OnlyTrue, AllTrue, StampAll, Demands, Fills, Conn.Heeds, Conn.Takes, Conn.Early, Conn.ResetBy, Emitted;
    if !c.active || c.ResetBy(seg) {
      SameTrue(c, 0, c');
    } else {
      var mid, segs :| SenderMoves(c, seg, mid, c'.snd, segs) && Outputs(c, seg, segs, c');
      if c.Heeds(seg) {
        ConnSums(c);
        AckInv(c.snd, seg.header.ackno, seg.header.win, mid);
      }
      if Fills(c, seg) {
        FillGenuine(mid, c'.snd, segs);
      } else {
        assert AllTrue(segs, c.snd.isn, c'.snd.out) by { NoneTrue(c.snd.isn, c'.snd.out); }
      }
      EmittedTrue(c, seg, c'.snd, segs);
      AppendTrue(c, Emitted(c, seg, c'.snd, segs), c');
    }
  }

  lemma NoneTrue(isn: uint32, out: Stream)
    ensures AllTrue([], isn, out)
  {
  }

  lemma EmittedTrue(c: Conn, seg: Segment, s': Sender, segs: seq<Segment>)
    requires Inv(c.snd) && Inv(s') && s'.isn == c.snd.isn
    requires s'.out.written == c.snd.out.written && s'.out.ended == c.snd.out.ended
    requires AllTrue(segs, s'.isn, s'.out)
    ensures AllTrue(Emitted(c, seg, s', segs), s'.isn, s'.out)
  {
    hide Inv, True, EmptySegment, Demands, Conn.Early, Represents, Disjoint;
    EmptyTrue(c.snd);
    EmptyTrue(s');
    TrueLater(EmptySegment(c.snd), c.snd.isn, c.snd.out, s'.out);
  }

  lemma TickTrue(c: Conn, rtTimeout: nat, ms: nat, c': Conn)
    requires ConnInv(c) && ConnTickSpec(c, rtTimeout, ms, c') && OnlyTrue(c)
    ensures OnlyTrue(c')
  {
    hide Wrap, Represents, Disjoint, Assembler.Valid, Inv, Paced, TickSpec, StampAll, OnlyTrue, RstNumber;
    if c.active {
      var s', segs :| TickSpec(c.snd, ms, s', segs) && c' == TickOutcome(AfterTick(c, ms, s', segs), rtTimeout);
      var c1 := AfterTick(c, ms, s', segs);
      TickInv(c.snd, ms, s', segs);
      assert AllTrue(segs, c.snd.isn, s'.out) by { hide Genuine; }
      AppendTrue(c, segs, c1);
      RstTrue(c1);
      if c'.out == c1.out {
        SameTrue(c1, 0, c');
      } else {
        ReplacedTrue(c1, [RstSegment(RstNumber(c1))], c');
      }
    } else {
      SameTrue(c, 0, c');
    }
  }

  lemma ReplacedTrue(c: Conn, segs: seq<Segment>, c': Conn)
    requires AllTrue(segs, c.snd.isn, c.snd.out) && c'.snd == c.snd && c'.out == segs
    ensures OnlyTrue(c')
  {
    hide AllTrue;
  }

  /** The RST takes the place of what was queued. */
  lemma RstTrue(c: Conn)
    requires Inv(c.snd) && OnlyTrue(c) && c.pending == []
    ensures AllTrue([RstSegment(RstNumber(c))], c.snd.isn, c.snd.out)
  {
    hide Wrap, Inv, Genuine;
    if c.out == [] {
      EmptyTrue(c.snd);
    } else {
      assert True(c.out[0], c.snd.isn, c.snd.out);
      TrueNumbered(c.out[0], c.snd.isn, c.snd.out);
    }
    assert Bare(RstSegment(RstNumber(c)), c.snd.isn, c.snd.out);
  }

  // -- How long giving up takes -------------------------------------------------------------------------------

  /** The time that passes with the events. */
  function Elapsed(events: seq<ConnEvent>): nat {
    if events == [] then 0 else Elapsed(events[..|events| - 1]) + Passing(events[|events| - 1])
  }

  function Passing(e: ConnEvent): nat {
    if e.Ticks? then e.ms else 0
  }

  /** The event does not bring news of a window of zero. */
  predicate Open(e: ConnEvent) {
    e.Arrives? && e.seg.header.ack ==> e.seg.header.win != 0
  }

  /** Every retransmission so far has doubled the timeout. */
  predicate Doubling(t: Clock) {
    t.doubling && t.doubled == t.retransmissions
  }

  /** The timer has just been started. */
  predicate Fresh(t: Clock) {
    t == t.Started()
  }

  /** A call starts the timer, or leaves it stopped, or lets it run on, counting the time that passes. */
  predicate Passes(t: Clock, ms: nat, t': Clock) {
    && t'.initial == t.initial
    && (Fresh(t') || !t'.running || (t.running && t'.total == t.total + ms))
  }

  lemma StepTime(c: Conn, rtTimeout: nat, e: ConnEvent, c': Conn)
    requires ConnInv(c) && ConnStep(c, rtTimeout, e, c')
    ensures Passes(c.snd.t, if c.active then Passing(e) else 0, c'.snd.t)
    ensures c'.snd.q.base == c.snd.q.base || Fresh(c'.snd.t) || !c'.snd.t.running
    ensures Open(e) && Doubling(c.snd.t) ==> Doubling(c'.snd.t)
  {
    hide Represents, Size, Disjoint, Wrap, Inv, SegmentSpec, Acceptable, ConnTickSpec, FillOut, Paced;
    ConnSums(c);
    match e
    case Arrives(seg) => SegmentTime(c, seg, c');
    case Ticks(ms) => TickTime(c, rtTimeout, ms, c');
    case Writes(data) =>
      if data != [] {
        var mid :| WriteSpec(c.snd, data, mid) && mid.out.Valid() && FillOut(c.(snd := mid), c');
        WriteInv(c.snd, data, mid);
        FillTime(c.(snd := mid), c');
      }
    case Ends =>
      EndInv(c.snd, EndedSender(c.snd));
      FillTime(c.(snd := EndedSender(c.snd)), c');
    case Connects => FillTime(c, c');
    case Reads(len) =>
    case Collects(k) =>
  }

  lemma FillTime(c: Conn, c': Conn)
    requires Inv(c.snd) && c.snd.out.Valid() && FillOut(c, c')
    ensures c'.snd.t == c.snd.t || c'.snd.t == c.snd.t.Started()
    ensures c'.snd.q.base == c.snd.q.base
  {
    hide Inv, FillSpec, StampAll;
    var segs :| FillSpec(c.snd, c'.snd, segs) && c' == c.(snd := c'.snd, pending := [], out := c.out + StampAll(segs, c.rcv));
    FillFlags(c.snd, c'.snd, segs);
    FillInv(c.snd, c'.snd, segs);
  }

  lemma TickTime(c: Conn, rtTimeout: nat, ms: nat, c': Conn)
    requires ConnTickSpec(c, rtTimeout, ms, c')
    ensures Passes(c.snd.t, if c.active then ms else 0, c'.snd.t)
    ensures Doubling(c.snd.t) ==> Doubling(c'.snd.t)
    ensures c'.snd.t.retransmissions > c.snd.t.retransmissions ==> c.snd.t.running && c'.snd.t.total == c.snd.t.total + ms
    ensures c'.snd.q.base == c.snd.q.base
  {
    hide Wrap, Represents, Disjoint, Inv, StampAll, Queue.Remain, Sender.RetransmitSegment;
  }

  lemma SegmentTime(c: Conn, seg: Segment, c': Conn)
    requires ConnInv(c) && Acceptable(c, seg) && Hearable(c, seg) && SegmentSpec(c, seg, c')
    ensures Passes(c.snd.t, 0, c'.snd.t)
    ensures c'.snd.q.base == c.snd.q.base || Fresh(c'.snd.t) || !c'.snd.t.running
    ensures Open(Arrives(seg)) && Doubling(c.snd.t) ==> Doubling(c'.snd.t)
  {
    hide Wrap, Unwrap, Inv, Represents, Disjoint, Assembler.Valid, ReceiveSpec, AckSpec, FillSpec, Harmless, Paced, FlagsMove,
      Fills, Outputs;
    if c.active && !c.ResetBy(seg) {
      var mid, segs :| SenderMoves(c, seg, mid, c'.snd, segs) && Outputs(c, seg, segs, c');
      if c.Heeds(seg) {
        ConnSums(c);
        AckInv(c.snd, seg.header.ackno, seg.header.win, mid);
        AckFlags(c.snd, seg.header.ackno, seg.header.win, mid);
        ProgressRestarts(c.snd, seg.header.ackno, seg.header.win, mid);
      }
      if Fills(c, seg) {
        FillFlags(mid, c'.snd, segs);
        FillInv(mid, c'.snd, segs);
      }
    }
  }

  /** An acknowledgment that moves the base begins the clock anew. */
  lemma ProgressRestarts(s: Sender, ackno: uint32, window: uint16, s': Sender)
    requires AckDefined(s, ackno) && AckSpec(s, ackno, window, s')
    ensures s'.q.base == s.q.base || Fresh(s'.t) || !s'.t.running
  {
    hide Wrap, Unwrap, AdvanceSpec;
  }

  lemma {:induction false} RunTime(sendCapacity: nat, recvCapacity: nat, rtTimeout: uint16, isn: uint32,
                                   events: seq<ConnEvent>, states: seq<Conn>, n: nat)
    requires ConnRun(InitialConn(sendCapacity, recvCapacity, rtTimeout, isn), rtTimeout, events, states) && n <= |events|
    ensures ConnInv(states[n]) && states[n].snd.t.initial == rtTimeout
    ensures (forall i :: 0 <= i < n ==> Open(events[i])) ==> Doubling(states[n].snd.t)
  {
    hide Represents, Size, Disjoint, Wrap, Inv, ConnStep, ConnInv, Doubling;
    ShutdownSafety(sendCapacity, recvCapacity, rtTimeout, isn, events, states, n);
    if n == 0 {
      assert Doubling(states[0].snd.t) by { StartsDoubling(sendCapacity, recvCapacity, rtTimeout, isn); }
    } else {
      RunTime(sendCapacity, recvCapacity, rtTimeout, isn, events, states, n - 1);
      StepTime(states[n - 1], rtTimeout, events[n - 1], states[n]);
    }
  }

  lemma StartsDoubling(sendCapacity: nat, recvCapacity: nat, rtTimeout: uint16, isn: uint32)
    ensures Doubling(InitialConn(sendCapacity, recvCapacity, rtTimeout, isn).snd.t)
  {
  }

  /** The timer was started at `m` and has been running since, for as long as the events took, without anything
      new being acknowledged; if it was doubling then, and no window of zero has been seen since, every
      retransmission since has doubled. */
  ghost predicate RunningSince(events: seq<ConnEvent>, states: seq<Conn>, m: nat, n: nat) {
    && m <= n <= |events| < |states|
    && Fresh(states[m].snd.t)
    && states[n].snd.t.total == Elapsed(events[m..n])
    && states[n].snd.q.base == states[m].snd.q.base
    && (states[m].snd.t.doubling && (forall i :: m <= i < n ==> Open(events[i])) ==> Doubling(states[n].snd.t))
  }

  lemma {:induction false} StartedOnce(sendCapacity: nat, recvCapacity: nat, rtTimeout: uint16, isn: uint32,
                                       events: seq<ConnEvent>, states: seq<Conn>, n: nat)
    requires ConnRun(InitialConn(sendCapacity, recvCapacity, rtTimeout, isn), rtTimeout, events, states) && n <= |events|
    requires states[n].active && states[n].snd.t.running
    ensures exists m: nat :: RunningSince(events, states, m, n)
  {
    hide Represents, Size, Disjoint, Wrap, Inv, ConnStep, ConnInv;
    if Fresh(states[n].snd.t) {
      assert events[n..n] == [];
      assert RunningSince(events, states, n, n);
    } else {
      assert n > 0;
      var c, c' := states[n - 1], states[n];
      ShutdownSafety(sendCapacity, recvCapacity, rtTimeout, isn, events, states, n - 1);
      StepTime(c, rtTimeout, events[n - 1], c');
      if !c.active {
        OverStaysOver(c, rtTimeout, events[n - 1], c');
      }
      StartedOnce(sendCapacity, recvCapacity, rtTimeout, isn, events, states, n - 1);
      var m: nat :| RunningSince(events, states, m, n - 1);
      RunsOn(events, states, m, n - 1);
    }
  }

  lemma RunsOn(events: seq<ConnEvent>, states: seq<Conn>, m: nat, n: nat)
    requires n < |events| < |states| && RunningSince(events, states, m, n)
    requires states[n + 1].snd.t.total == states[n].snd.t.total + Passing(events[n])
    requires states[n + 1].snd.q.base == states[n].snd.q.base
    requires Open(events[n]) && Doubling(states[n].snd.t) ==> Doubling(states[n + 1].snd.t)
    ensures RunningSince(events, states, m, n + 1)
  {
    hide Doubling, Open, Passing, Represents, Disjoint;
    assert events[m..n + 1][..n - m] == events[m..n];
  }

  /** A connection that gives up has waited, since its timer was last started and with nothing new
      acknowledged, at least 511 initial timeouts if no window of zero has been advertised in the meantime (nor was the last one before),
      and nine in any case. */
  lemma GivingUpTakesTime(sendCapacity: nat, recvCapacity: nat, rtTimeout: uint16, isn: uint32,
                          events: seq<ConnEvent>, states: seq<Conn>, n: nat)
    requires ConnRun(InitialConn(sendCapacity, recvCapacity, rtTimeout, isn), rtTimeout, events, states) && n < |events|
    requires events[n].Ticks? && states[n].active && states[n + 1].sndError
    ensures exists m: nat ::
              && RunningSince(events, states, m, n + 1)
              && 9 * rtTimeout <= Elapsed(events[m..n + 1])
              && ((forall i :: 0 <= i <= n ==> Open(events[i])) ==> states[m].snd.t.doubling)
              && (states[m].snd.t.doubling && (forall i :: m <= i <= n ==> Open(events[i])) ==>
                    511 * rtTimeout <= Elapsed(events[m..n + 1]))
  {
    hide Represents, Size, Disjoint, Wrap, Inv, ConnInv, ConnTickSpec, Conn.State, Elapsed, RunningSince;
    var c, c' := states[n], states[n + 1];
    RunTime(sendCapacity, recvCapacity, rtTimeout, isn, events, states, n + 1);
    ShutdownSafety(sendCapacity, recvCapacity, rtTimeout, isn, events, states, n);
    ConnSums(c);
    assert ConnStep(c, rtTimeout, events[n], c');
    GivingUp(c, rtTimeout, events[n].ms, c');
    FewBefore(c);
    TickTime(c, rtTimeout, events[n].ms, c');
    StartedOnce(sendCapacity, recvCapacity, rtTimeout, isn, events, states, n);
    var m: nat :| RunningSince(events, states, m, n);
    RunsOn(events, states, m, n);
    assert m <= n by { StartedBefore(events, states, m, n); }
    RunTime(sendCapacity, recvCapacity, rtTimeout, isn, events, states, m);
    WaitedFor(events, states, m, n + 1, rtTimeout);
  }

  lemma FewBefore(c: Conn)
    requires ConnInv(c) && c.active
    ensures c.snd.t.retransmissions <= MAX_RETX_ATTEMPTS
  {
  }

  lemma StartedBefore(events: seq<ConnEvent>, states: seq<Conn>, m: nat, n: nat)
    requires RunningSince(events, states, m, n)
    ensures m <= n
  {
  }

  lemma WaitedFor(events: seq<ConnEvent>, states: seq<Conn>, m: nat, n: nat, rtTimeout: nat)
    requires RunningSince(events, states, m, n) && 9 * rtTimeout <= states[n].snd.t.total
    requires Doubling(states[n].snd.t) ==> 511 * rtTimeout <= states[n].snd.t.total
    ensures 9 * rtTimeout <= Elapsed(events[m..n])
    ensures states[m].snd.t.doubling && (forall i :: m <= i < n ==> Open(events[i])) ==> 511 * rtTimeout <= Elapsed(events[m..n])
  {
  }

  /** What is over stays over, in the way it ended. */
  lemma OverStaysOver(c: Conn, rtTimeout: nat, e: ConnEvent, c': Conn)
    requires ConnInv(c) && ConnStep(c, rtTimeout, e, c')
    requires !c.active
    ensures !c'.active && c'.sndError == c.sndError
    ensures c.State() == OfficialState(CLOSED) ==> c'.State() == OfficialState(CLOSED)
    ensures c.State() == OfficialState(RESET) ==> c'.State() == OfficialState(RESET)
  {
    hide Represents, Size, Disjoint, Wrap, Inv, Acceptable, FillSpec, Paced, ConnInv, Conn.State;
    ConnSums(c);
    ConnStepInv(c, rtTimeout, e, c');
    assert !c'.active && c'.sndError == c.sndError;
    OverKeepsFin(c, rtTimeout, e, c');
    Endings(c);
    Endings(c');
    OneEnding(c);
  }

  lemma OneEnding(c: Conn)
    requires ConnInv(c) && !c.active
    ensures c.State() == OfficialState(CLOSED) ==> !c.sndError
    ensures c.State() == OfficialState(RESET) ==> c.sndError
  {
    hide Represents, Size, Disjoint, Wrap, Inv, Paced;
  }

  lemma OverKeepsFin(c: Conn, rtTimeout: nat, e: ConnEvent, c': Conn)
    requires ConnInv(c) && ConnStep(c, rtTimeout, e, c')
    requires !c.active
    ensures c'.snd.q.finAcked == c.snd.q.finAcked
  {
    hide Represents, Size, Disjoint, Wrap, Inv, Acceptable, FillSpec, Paced, ConnInv;
    ConnSums(c);
    match e
    case Arrives(seg) =>
    case Ticks(ms) =>
    case Writes(data) =>
      if data != [] {
        var mid :| WriteSpec(c.snd, data, mid) && mid.out.Valid() && FillOut(c.(snd := mid), c');
        FillOutFin(c.(snd := mid), c');
      }
    case Ends => FillOutFin(c.(snd := EndedSender(c.snd)), c');
    case Connects => FillOutFin(c, c');
    case Reads(len) =>
    case Collects(k) =>
  }

  lemma FillOutFin(c: Conn, c': Conn)
    requires c.snd.out.Valid() && FillOut(c, c')
    ensures c'.snd.q.finAcked == c.snd.q.finAcked
  {
    hide FillSpec, StampAll;
    var segs :| FillSpec(c.snd, c'.snd, segs) && c' == c.(snd := c'.snd, pending := [], out := c.out + StampAll(segs, c.rcv));
    FillAcksNothing(c.snd, c'.snd, segs);
  }

  // -- Whether the end is noticed ----------------------------------------------------------------------------

  /** The inbound stream ends with event `k`. */
  ghost predicate EndsAt(events: seq<ConnEvent>, states: seq<Conn>, k: nat) {
    k < |events| < |states| && events[k].Arrives? && !states[k].InputEnded() && states[k + 1].InputEnded()
  }

  /** Once the inbound stream has ended nothing changes the decision how to close; without one, only a
      reset ends the connection. */
  lemma StepDecided(c: Conn, rtTimeout: nat, e: ConnEvent, c': Conn)
    requires ConnInv(c) && ConnStep(c, rtTimeout, e, c')
    ensures c.InputEnded() ==> c'.InputEnded() && c'.linger == c.linger && c'.timeWait == c.timeWait
    ensures c.InputEnded() && !Decided(c) && c.active ==> c'.active || c'.sndError
    ensures !c.InputEnded() && c'.InputEnded() ==> e.Arrives?
  {
    hide Represents, Size, Disjoint, Wrap, Inv, Paced, SenderMoves, TickSpec, FillSpec, ReceiveSpec, Outputs;
    ConnSums(c);
    match e
    case Arrives(seg) =>
      if c.Takes(seg) && c'.rcv != c.rcv {
        EndedStays(c.rcv, seg, c'.rcv);
      }
    case Ticks(ms) =>
    case Writes(data) =>
    case Ends =>
    case Connects =>
    case Reads(len) =>
    case Collects(k) =>
  }

  /** Over every run, when the inbound stream has ended: exactly one way to close is chosen if and only if
      the end did not come on a small segment out of order or with the SYN. If it did, only a reset
      ever ends the connection. */
  lemma {:induction false} EndDecided(sendCapacity: nat, recvCapacity: nat, rtTimeout: uint16, isn: uint32,
                                      events: seq<ConnEvent>, states: seq<Conn>, n: nat)
    requires ConnRun(InitialConn(sendCapacity, recvCapacity, rtTimeout, isn), rtTimeout, events, states) && n <= |events|
    requires states[n].InputEnded()
    ensures exists k: nat ::
              && k < n && EndsAt(events, states, k)
              && (Decided(states[n]) <==> !states[k].Early(events[k].seg) && states[k].rcv.synRecv)
    ensures !Decided(states[n]) && !states[n].active ==> states[n].sndError
  {
    hide Represents, Size, Disjoint, Wrap, Inv, ConnStep, ConnInv, Decided, Conn.Early;
    assert n > 0;
    var c, e, c' := states[n - 1], events[n - 1], states[n];
    ShutdownSafety(sendCapacity, recvCapacity, rtTimeout, isn, events, states, n - 1);
    StepDecided(c, rtTimeout, e, c');
    if c.InputEnded() {
      EndDecided(sendCapacity, recvCapacity, rtTimeout, isn, events, states, n - 1);
      SameDecision(c, c');
      if !c.active {
        OverStaysOver(c, rtTimeout, e, c');
      }
    } else {
      assert EndsAt(events, states, n - 1);
      ArrivalNoticed(c, rtTimeout, e.seg, c');
    }
  }

  lemma SameDecision(c: Conn, c': Conn)
    requires c'.linger == c.linger && c'.timeWait == c.timeWait
    ensures Decided(c') <==> Decided(c)
  {
  }

  lemma ArrivalNoticed(c: Conn, rtTimeout: nat, seg: Segment, c': Conn)
    requires ConnInv(c) && ConnStep(c, rtTimeout, Arrives(seg), c') && !c.InputEnded() && c'.InputEnded()
    ensures Decided(c') <==> !c.Early(seg) && c.rcv.synRecv
    ensures c'.active
  {
    hide Represents, Size, Disjoint, Wrap, Inv, ConnInv, SegmentSpec, Decided, Conn.Early;
    ConnSums(c);
    EndNoticed(c, seg, c');
  }
}
