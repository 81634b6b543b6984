/** A whole endpoint: handshake, transfer both ways, closing, lingering, giving up. */
module TcpConnections {
  import opened Machine
  import opened WrappingIntegers
  import opened ByteStreams
  import opened Fragments
  import opened TcpSegments
  import opened Reassembly
  import opened TcpReceivers
  import opened SegmentSizes
  import opened TcpSenders
  import opened SenderRuns
  import opened TcpStates

  const MAX_RETX_ATTEMPTS: nat := 8

  // -- Values -------------------------------------------------------------------------------------

  /** `pending` are the sender's segments not yet stamped, `out` those ready to leave. */
  datatype Conn = Conn(
    snd: Sender,
    rcv: Receiver,
    sndError: bool,
    rcvError: bool,
    pending: seq<Segment>,
    out: seq<Segment>,
    linger: bool,
    active: bool,
    timeWait: bool,
    sinceLast: nat)
  {
    predicate InputEnded() {
      rcv.asm.out.ended
    }

    function State(): TcpState {
      Summarize(snd, sndError, rcv, rcvError, active, linger)
    }

    /** Small segments that are not the next one expected are answered on a path of their own. */
    predicate Early(seg: Segment) {
      rcv.synRecv && seg.header.seqno != rcv.ackno && seg.Length() <= 1 && !seg.header.syn
    }

    /** The segment reaches the receiver. */
    predicate Takes(seg: Segment) {
      active && (Early(seg) || (!seg.header.rst && !InputEnded() &&
                                (if rcv.synRecv then !seg.header.syn && seg.Length() != 0 else seg.header.syn)))
    }

    /** The acknowledgment in the segment reaches the sender. */
    predicate Heeds(seg: Segment) {
      active && seg.header.ack &&
      (Early(seg) || (!seg.header.rst && (if rcv.synRecv then !seg.header.syn else seg.header.syn)))
    }

    /** The segment resets the connection. */
    predicate ResetBy(seg: Segment) {
      active && !Early(seg) && seg.header.rst
    }
  }

  /** Fill in what the receiver has to say. */
  function Stamp(seg: Segment, r: Receiver): Segment {
    if seg.header.rst || !r.synRecv then seg
    else seg.(header := seg.header.(ack := true, ackno := r.ackno, win := r.Window() % 0x1_0000))
  }

  function StampAll(segs: seq<Segment>, r: Receiver): (stamped: seq<Segment>)
    ensures |stamped| == |segs|
    ensures forall i :: 0 <= i < |segs| ==> stamped[i] == Stamp(segs[i], r)
  {
    if segs == [] then [] else StampAll(segs[..|segs| - 1], r) + [Stamp(segs[|segs| - 1], r)]
  }

  /** What holds of a connection between any two calls. */
  ghost predicate ConnInv(c: Conn) {
    && FlagInv(c)
    && Inv(c.snd) && Paced(c.snd.t)
    && (c.active ==> c.snd.t.retransmissions <= MAX_RETX_ATTEMPTS)
  }

  /** The part of it that any acknowledgment keeps, even one that breaks the accounting of the sender. */
  ghost predicate FlagInv(c: Conn) {
    && c.rcv.Valid() && c.snd.out.Valid()
    && (c.snd.q.finAcked ==> c.snd.q.finSent)
    && c.pending == []
    && c.sndError == c.rcvError
    // lingering given up and the final wait never go together
    && !(c.timeWait && !c.linger)
    && (c.timeWait ==> c.InputEnded() && c.snd.q.finSent)
    && (!c.linger ==> c.InputEnded())
    // a connection is over only by a reset, or with the inbound stream ended and the FIN sent
    && (c.sndError ==> !c.active)
    && (!c.active && !c.sndError ==> c.InputEnded() && c.snd.q.finSent)
    && (!c.active && !c.sndError && !c.linger ==> c.snd.q.finAcked)
  }

  // -- What the invariant says about the official states --------------------------------------------

  /** Every reset reports exactly RESET; a connection over otherwise has ended both ways, and reports
      CLOSED exactly if its FIN has been acknowledged -- always so if it did not linger. */
  lemma Endings(c: Conn)
    requires ConnInv(c) && !c.active
    ensures c.sndError ==> c.State() == OfficialState(RESET)
    ensures !c.sndError ==> c.InputEnded() && c.snd.q.finSent
    ensures !c.sndError ==> (c.State() == OfficialState(CLOSED) <==> c.snd.q.finAcked)
    ensures !c.sndError && !c.linger ==> c.State() == OfficialState(CLOSED)
  {
    hide Represents, Size, Disjoint, Wrap, Inv;
    SummaryAgrees(c.snd);
  }

  /** The official names, by the flags of the two halves instead of their counters. */
  predicate Meant(c: Conn, o: Official) {
    var q := c.snd.q;
    match o
    case LISTEN => c.active && c.linger && !q.synSent && !c.rcv.synRecv
    case SYN_SENT => c.active && c.linger && q.synSent && !q.synAcked && !c.rcv.synRecv
    case SYN_RCVD => c.active && c.linger && q.synSent && !q.synAcked && c.rcv.synRecv && !c.InputEnded()
    case ESTABLISHED => c.active && c.linger && q.synAcked && !q.finSent && c.rcv.synRecv && !c.InputEnded()
    case CLOSE_WAIT => c.active && !c.linger && q.synAcked && !q.finSent
    case LAST_ACK => c.active && !c.linger && q.synAcked && q.finSent && !q.finAcked
    case FIN_WAIT_1 => c.active && c.linger && q.synAcked && q.finSent && !q.finAcked && c.rcv.synRecv && !c.InputEnded()
    case FIN_WAIT_2 => c.active && c.linger && q.finAcked && c.rcv.synRecv && !c.InputEnded()
    case CLOSING => c.active && c.linger && q.synAcked && q.finSent && !q.finAcked && c.InputEnded()
    case TIME_WAIT => c.active && c.linger && q.finAcked && c.InputEnded()
    case CLOSED => !c.active && !c.sndError && q.finAcked
    case RESET => c.sndError
  }

  /** The state derived from the counters bears a name exactly if the flags mean it. */
  lemma NamesMeant(c: Conn, o: Official)
    requires ConnInv(c)
    ensures c.State() == OfficialState(o) <==> Meant(c, o)
  {
    hide Represents, Size, Disjoint, Wrap, Inv, Paced, Assembler.Valid;
    ConnSums(c);
    ConnPending(c);
    InvFacts(c.snd);
    SummaryAgrees(c.snd);
  }

  // -- How the flags of the sender move ---------------------------------------------------------------

  /** Filling the window and handling acknowledgments set the FIN flags, never clear them. */
  lemma FillFlags(s: Sender, s': Sender, segs: seq<Segment>)
    requires Inv(s) && s.out.Valid() && FillSpec(s, s', segs)
    ensures Inv(s')
    ensures s.q.finSent ==> s' == s && segs == []
    ensures s'.q.finAcked == s.q.finAcked
    ensures s'.out.written == s.out.written && s'.out.ended == s.out.ended
    ensures s'.t == s.t || s'.t == s.t.Started()
    ensures forall i :: 0 <= i < |segs| ==> !segs[i].header.rst
  {
    hide Wrap, Counted, Sized, Held, Queue.Remain;
    FillInv(s, s', segs);
    InvFacts(s);
    if !s.q.finSent && s.q.synSent && s.q.synAcked && !(s.out.Eof() && s.q.Remain() > 1) {
      ManyFlags(s, |segs|);
    }
  }

  lemma {:induction false} ManyFlags(s: Sender, n: nat)
    requires s.out.Valid()
    ensures var r := SendMany(s, n);
            && r.q.finAcked == s.q.finAcked
            && (r.t == s.t || r.t == s.t.Started())
  {
    hide Wrap, Sender.Take, Sender.TakesFin;
    if n > 0 {
      ManyFlags(s, n - 1);
    }
  }

  lemma AckFlags(s: Sender, ackno: uint32, window: uint16, s': Sender)
    requires AckDefined(s, ackno) && AckSpec(s, ackno, window, s')
    ensures s'.q.finSent == s.q.finSent
    ensures s.q.finAcked ==> s'.q.finAcked
    ensures s'.q.finAcked ==> s.q.finAcked || s.q.finSent
    ensures s'.out == s.out
    ensures s'.t.doubling == (window != 0)
    ensures s'.t == s.t.(doubling := s'.t.doubling) || s'.t == s.t.(doubling := s'.t.doubling).Started()
            || s'.t == s.t.(doubling := s'.t.doubling).Stopped()
  {
    hide Wrap, Unwrap, Sized, Held, CutSizes;
  }

  lemma FillOnlySends(s: Sender, s': Sender, segs: seq<Segment>)
    requires s.out.Valid() && FillSpec(s, s', segs)
    ensures s'.out.Valid()
    ensures s.q.finSent ==> s'.q.finSent
    ensures s'.q.finAcked == s.q.finAcked
  {
    hide Wrap, Queue.Remain;
    ManyFlags(s, |segs|);
  }

  lemma PacedAfter(t: Clock, t': Clock)
    requires Paced(t)
    requires || t' == t.(doubling := t'.doubling) || t' == t.(doubling := t'.doubling).Started()
             || t' == t.(doubling := t'.doubling).Stopped()
    ensures Paced(t') && t'.retransmissions <= t.retransmissions
  {
  }

  function InitialConn(sendCapacity: nat, recvCapacity: nat, rtTimeout: uint16, isn: uint32): Conn {
    Conn(TcpSenders.Initial(sendCapacity, rtTimeout, isn),
         Receiver(Assembler(Stream([], 0, recvCapacity, false), map[], false, 0), false, 0, 0),
         false, false, [], [], true, true, false, 0)
  }

  lemma InitialConnInv(sendCapacity: nat, recvCapacity: nat, rtTimeout: uint16, isn: uint32)
    ensures ConnInv(InitialConn(sendCapacity, recvCapacity, rtTimeout, isn))
    ensures InitialConn(sendCapacity, recvCapacity, rtTimeout, isn).State() == OfficialState(LISTEN)
  {
    hide Represents, Size, Wrap;
    InitialInv(sendCapacity, rtTimeout, isn);
  }

  // -- What a segment does ------------------------------------------------------------------------------

  /** After the segment the sender fills its window. */
  predicate Fills(c: Conn, seg: Segment) {
    if c.Early(seg) then seg.header.ack
    else if c.InputEnded() then !c.linger && seg.header.ack && !seg.header.syn
    else if c.rcv.synRecv then seg.header.ack && !seg.header.syn
    else seg.header.syn
  }

  /** The sender handles the acknowledgment, if it reaches it, and then fills its window, if it may. */
  ghost predicate SenderMoves(c: Conn, seg: Segment, mid: Sender, s': Sender, segs: seq<Segment>)
    requires Hearable(c, seg)
  {
    && (if c.Heeds(seg) then AckSpec(c.snd, seg.header.ackno, seg.header.win, mid) else mid == c.snd)
    && mid.out.Valid()
    && (if Fills(c, seg) then FillSpec(mid, s', segs) else s' == mid && segs == [])
  }

  /** The end of the inbound stream decides how to close: without lingering if our FIN has not gone
      out by then, else by waiting -- provided it is noticed on the main path. */
  ghost predicate FlagsMove(c: Conn, seg: Segment, c': Conn) {
    var noticed := !c.Early(seg) && c.rcv.synRecv && !c.InputEnded() && c'.InputEnded();
    && c'.linger == (c.linger && !(noticed && !c'.snd.q.finSent))
    && c'.timeWait == (c.timeWait || (noticed && c'.snd.q.finSent))
    && c'.active == !(c.InputEnded() && !c.Early(seg) && !c.linger && c.Heeds(seg) && c'.snd.q.finAcked)
  }

  /** The segment demands that something be sent. */
  predicate Demands(c: Conn, seg: Segment) {
    || c.Early(seg)
    || (if c.InputEnded() then !seg.header.syn && seg.header.fin
        else if c.rcv.synRecv then !seg.header.syn && seg.Length() > 0
        else seg.header.syn)
  }

  /** What is put out: the repeated acknowledgment of a FIN; what filling the window gave; and, where
      something is demanded and nothing else can carry it, an empty segment. */
  function Emitted(c: Conn, seg: Segment, s': Sender, segs: seq<Segment>): seq<Segment> {
    if c.InputEnded() && !c.Early(seg) then
      (if Demands(c, seg) then [EmptySegment(if c.linger then s' else c.snd)] else []) + segs
    else if Demands(c, seg) && segs == [] && (c.Early(seg) || c.out == []) then [EmptySegment(s')]
    else segs
  }

  ghost predicate Outputs(c: Conn, seg: Segment, segs: seq<Segment>, c': Conn) {
    c'.pending == [] && c'.out == c.out + StampAll(Emitted(c, seg, c'.snd, segs), c'.rcv)
  }

  /** The 64-bit counters do not come near their limits. */
  predicate Roomy(c: Conn, seg: Segment) {
    c.rcv.Spacious(|seg.payload|) && c.snd.q.base + TWO31 < TWO63
  }

  /** The program defines what the segment does: the counters have room, and the bytes to be removed from
      the queue, if the acknowledgment reaches the sender, are there. */
  ghost predicate Hearable(c: Conn, seg: Segment) {
    c.rcv.Valid() && Roomy(c, seg) && (c.Heeds(seg) ==> AckDefined(c.snd, seg.header.ackno))
  }

  predicate AckDefined(s: Sender, ackno: uint32) {
    && s.q.base + TWO31 < TWO63
    && (AckIgnored(s.q, AbsoluteAck(s, ackno)) || Advancable(s.q, AbsoluteAck(s, ackno)))
  }

  /** An acknowledgment that reaches the sender is one that it handles as meant. */
  ghost predicate Acceptable(c: Conn, seg: Segment) {
    && Roomy(c, seg)
    && (c.Heeds(seg) ==> Harmless(c.snd.q, AbsoluteAck(c.snd, seg.header.ackno)))
  }

  ghost predicate SegmentSpec(c: Conn, seg: Segment, c': Conn)
    requires Hearable(c, seg)
  {
    if !c.active then c' == c
    else if c.ResetBy(seg) then c' == c.(sinceLast := 0, sndError := true, rcvError := true, active := false)
    else
      && c'.sinceLast == 0 && c'.sndError == c.sndError && c'.rcvError == c.rcvError
      && (if c.Takes(seg) then ReceiveSpec(c.rcv, seg, c'.rcv) else c'.rcv == c.rcv)
      && FlagsMove(c, seg, c')
      && exists mid, segs :: SenderMoves(c, seg, mid, c'.snd, segs) && Outputs(c, seg, segs, c')
  }

  /** No segment whatever can break the part of the invariant that is about the flags. */
  lemma SegmentFlags(c: Conn, seg: Segment, c': Conn)
    requires FlagInv(c) && Hearable(c, seg) && SegmentSpec(c, seg, c')
    ensures FlagInv(c')
  {
    hide Wrap, Unwrap, Represents, Disjoint, Assembler.Valid, ReceiveSpec, AckSpec, FillSpec, AckDefined, Outputs;
    if c.active && !c.ResetBy(seg) {
      var mid, segs :| SenderMoves(c, seg, mid, c'.snd, segs) && Outputs(c, seg, segs, c');
      SenderFlags(c, seg, mid, c'.snd, segs);
      if c.Takes(seg) {
        TcpReceivers.StepValid(c.rcv, TcpReceivers.Event.Arrive(seg), c'.rcv);
        EndedStays(c.rcv, seg, c'.rcv);
      }
      assert c'.pending == [] by { OutputsPending(c, seg, segs, c'); }
    }
  }

  lemma SenderFlags(c: Conn, seg: Segment, mid: Sender, s': Sender, segs: seq<Segment>)
    requires Hearable(c, seg) && SenderMoves(c, seg, mid, s', segs) && c.snd.out.Valid()
    ensures s'.out.Valid()
    ensures c.snd.q.finSent ==> s'.q.finSent
    ensures c.snd.q.finAcked ==> s'.q.finAcked
    ensures s'.q.finAcked ==> c.snd.q.finAcked || s'.q.finSent
  {
    hide Wrap, Unwrap, AckSpec, FillSpec, AckDefined, Represents, Disjoint, Assembler.Valid;
    if c.Heeds(seg) {
      AckFlags(c.snd, seg.header.ackno, seg.header.win, mid);
    }
    if Fills(c, seg) {
      FillOnlySends(mid, s', segs);
    }
  }

  /** No segment, acceptable to the two halves, can break the invariant. */
  lemma SegmentKeeps(c: Conn, seg: Segment, c': Conn)
    requires ConnInv(c) && Acceptable(c, seg) && Hearable(c, seg) && SegmentSpec(c, seg, c')
    ensures ConnInv(c')
  {
    hide Wrap, Unwrap, Inv, FlagInv, ReceiveSpec, AckSpec, FillSpec, Harmless, Paced, Outputs, AckDefined, Represents, Disjoint, Assembler.Valid;
    SegmentFlags(c, seg, c');
    if c.active && !c.ResetBy(seg) {
      var mid, segs :| SenderMoves(c, seg, mid, c'.snd, segs) && Outputs(c, seg, segs, c');
      SenderKeeps(c, seg, mid, c'.snd, segs);
    }
  }

  lemma OutputsPending(c: Conn, seg: Segment, segs: seq<Segment>, c': Conn)
    requires Outputs(c, seg, segs, c')
    ensures c'.pending == []
  {
  }

  lemma EndedStays(r: Receiver, seg: Segment, r': Receiver)
    requires r.Valid() && r.Spacious(|seg.payload|) && ReceiveSpec(r, seg, r')
    ensures r.asm.out.ended ==> r'.asm.out.ended
  {
    hide Wrap, Unwrap, Represents, Disjoint, Assembler.Valid, DrainSpec, Assembler.Merged, Assembler.Dropped;
  }

  lemma SenderKeeps(c: Conn, seg: Segment, mid: Sender, s': Sender, segs: seq<Segment>)
    requires Inv(c.snd) && Acceptable(c, seg) && Hearable(c, seg) && Paced(c.snd.t)
    requires SenderMoves(c, seg, mid, s', segs)
    ensures Inv(s') && Paced(s'.t) && s'.t.retransmissions <= c.snd.t.retransmissions
  {
    hide Wrap, Unwrap, Inv, AckSpec, FillSpec, Harmless, Paced, AckDefined, Represents, Disjoint;
    InvFacts(c.snd);
    if c.Heeds(seg) {
      AckInv(c.snd, seg.header.ackno, seg.header.win, mid);
      AckFlags(c.snd, seg.header.ackno, seg.header.win, mid);
      PacedAfter(c.snd.t, mid.t);
    }
    if Fills(c, seg) {
      FillFlags(mid, s', segs);
      PacedAfter(mid.t, s'.t);
    }
  }

  // -- Calls of the owner, as values ----------------------------------------------------------------------

  function EmptySegment(s: Sender): Segment {
    Segment(BLANK.(seqno := Wrap(s.q.next, s.isn)), [])
  }

  function EndedSender(s: Sender): Sender {
    s.(out := s.out.(ended := true))
  }

  /** The window has been filled and everything put out is on its way, stamped. */
  ghost predicate FillOut(c: Conn, c': Conn) {
    c.snd.out.Valid() && exists segs ::
      FillSpec(c.snd, c'.snd, segs) && c' == c.(snd := c'.snd, pending := [], out := c.out + StampAll(segs, c.rcv))
  }

  lemma FillOutIntro(c: Conn, s': Sender, segs: seq<Segment>, c': Conn)
    requires c.snd.out.Valid() && FillSpec(c.snd, s', segs)
    requires c' == c.(snd := s', pending := [], out := c.out + StampAll(segs, c.rcv))
    ensures FillOut(c, c')
  {
    hide FillSpec, StampAll;
  }

  lemma ConnSums(c: Conn)
    requires ConnInv(c)
    ensures FlagInv(c) && Sum(c.snd.q.sizes) == |c.snd.q.unAcked| && c.snd.FrontReady() && c.snd.out.Valid()
  {
    hide Represents, Size, Disjoint, Wrap, Sized, Held;
    InvFacts(c.snd);
  }

  lemma SegmentIgnored(c: Conn, seg: Segment)
    requires Hearable(c, seg) && !c.active
    ensures SegmentSpec(c, seg, c)
  {
  }

  lemma SegmentResets(c: Conn, seg: Segment)
    requires Hearable(c, seg) && c.ResetBy(seg)
    ensures SegmentSpec(c, seg, c.(sinceLast := 0, sndError := true, rcvError := true, active := false))
  {
  }

  lemma StampNone(r: Receiver)
    ensures StampAll([], r) == []
  {
  }

  lemma StampOneMore(segs: seq<Segment>, n: nat, r: Receiver)
    requires n < |segs|
    ensures StampAll(segs[..n + 1], r) == StampAll(segs[..n], r) + [Stamp(segs[n], r)]
  {
    hide Stamp;
  }

  lemma StampConcat(x: seq<Segment>, y: seq<Segment>, r: Receiver)
    ensures StampAll(x + y, r) == StampAll(x, r) + StampAll(y, r)
  {
  }

  lemma FillAcksNothing(s: Sender, s': Sender, segs: seq<Segment>)
    requires s.out.Valid() && FillSpec(s, s', segs)
    ensures s'.q.finAcked == s.q.finAcked
  {
    hide Wrap, Queue.Remain;
    ManyFlags(s, |segs|);
  }

  lemma NothingToFill(s: Sender)
    requires s.out.Valid() && s.q.finAcked
    ensures FillSpec(s, s, [])
  {
  }

  lemma SegmentDone(c: Conn, seg: Segment, c': Conn, mid: Sender, segs: seq<Segment>, emitted: seq<Segment>)
    requires Hearable(c, seg)
    requires c.active && !c.ResetBy(seg)
    requires c'.sinceLast == 0 && c'.sndError == c.sndError && c'.rcvError == c.rcvError
    requires if c.Takes(seg) then ReceiveSpec(c.rcv, seg, c'.rcv) else c'.rcv == c.rcv
    requires SenderMoves(c, seg, mid, c'.snd, segs)
    requires FlagsMove(c, seg, c')
    requires c'.pending == [] && c'.out == c.out + StampAll(emitted, c'.rcv)
    requires emitted == Emitted(c, seg, c'.snd, segs)
    ensures SegmentSpec(c, seg, c')
  {
    hide Represents, Size, Disjoint, Wrap, Unwrap, ReceiveSpec, SenderMoves, FlagsMove, Inv, StampAll, Assembler.Valid, Paced, Emitted;
    assert Outputs(c, seg, segs, c');
  }

  /** The acknowledgment, if there is one, is handled and the window filled. */
  ghost predicate HeedSpec(s: Sender, seg: Segment, mid: Sender, s': Sender, segs: seq<Segment>)
    requires seg.header.ack ==> AckDefined(s, seg.header.ackno)
  {
    && mid.out.Valid()
    && if seg.header.ack then AckSpec(s, seg.header.ackno, seg.header.win, mid) && FillSpec(mid, s', segs)
       else mid == s && s' == mid && segs == []
  }

  lemma HeedNone(s: Sender, seg: Segment)
    requires !seg.header.ack && s.out.Valid()
    ensures HeedSpec(s, seg, s, s, [])
  {
  }

  lemma HeedOne(s: Sender, seg: Segment, mid: Sender, s': Sender, segs: seq<Segment>)
    requires seg.header.ack && AckDefined(s, seg.header.ackno)
    requires AckSpec(s, seg.header.ackno, seg.header.win, mid) && mid.out.Valid() && FillSpec(mid, s', segs)
    ensures HeedSpec(s, seg, mid, s', segs)
  {
    hide AckSpec, FillSpec, AckDefined;
  }

  lemma SynIgnored(c: Conn, seg: Segment)
    requires FlagInv(c) && Hearable(c, seg)
    requires c.active && !c.Early(seg) && !seg.header.rst && !c.InputEnded() && c.rcv.synRecv && seg.header.syn
    ensures SegmentSpec(c, seg, c.(sinceLast := 0))
  {
    hide Represents, Size, Disjoint, Wrap, Unwrap, ReceiveSpec, Assembler.Valid, AckDefined, StampAll;
    FlagFacts(c);
    StampNone(c.rcv);
    SegmentDone(c, seg, c.(sinceLast := 0), c.snd, [], []);
  }

  lemma SynAfterFin(c: Conn, seg: Segment)
    requires FlagInv(c) && Hearable(c, seg)
    requires c.active && !c.Early(seg) && !seg.header.rst && c.InputEnded() && seg.header.syn
    ensures SegmentSpec(c, seg, c.(sinceLast := 0))
  {
    hide Represents, Size, Disjoint, Wrap, Unwrap, ReceiveSpec, Assembler.Valid, AckDefined, StampAll;
    FlagFacts(c);
    StampNone(c.rcv);
    SegmentDone(c, seg, c.(sinceLast := 0), c.snd, [], []);
  }

  lemma AckHeard(c: Conn, seg: Segment)
    requires Hearable(c, seg) && c.active && !seg.header.rst && c.rcv.synRecv && !seg.header.syn
    ensures seg.header.ack ==> AckDefined(c.snd, seg.header.ackno)
  {
    hide AckDefined;
  }

  lemma EarlyHeard(c: Conn, seg: Segment)
    requires Hearable(c, seg) && c.active && c.Early(seg)
    ensures c.rcv.Spacious(|seg.payload|) && (seg.header.ack ==> AckDefined(c.snd, seg.header.ackno))
  {
    hide AckDefined;
  }

  lemma EarlyDone(c: Conn, seg: Segment, c': Conn, mid: Sender, segs: seq<Segment>, emitted: seq<Segment>)
    requires FlagInv(c) && Hearable(c, seg) && c.active && c.Early(seg)
    requires c.rcv.Valid() && c.rcv.Spacious(|seg.payload|) && ReceiveSpec(c.rcv, seg, c'.rcv)
    requires (seg.header.ack ==> AckDefined(c.snd, seg.header.ackno)) && HeedSpec(c.snd, seg, mid, c'.snd, segs)
    requires emitted == if segs == [] then [EmptySegment(c'.snd)] else segs
    requires c' == c.(sinceLast := 0, rcv := c'.rcv, snd := c'.snd, out := c.out + StampAll(emitted, c'.rcv))
    ensures SegmentSpec(c, seg, c')
  {
    hide Represents, Size, Disjoint, Wrap, Unwrap, ReceiveSpec, AckSpec, FillSpec, Assembler.Valid, AckDefined, StampAll, SegmentSpec, Conn.Early;
    FlagFacts(c);
    SegmentDone(c, seg, c', mid, segs, emitted);
  }

  lemma CloseWaitDone(c: Conn, seg: Segment, c': Conn, mid: Sender, segs: seq<Segment>, emitted: seq<Segment>)
    requires FlagInv(c) && Hearable(c, seg) && c.active && !c.Early(seg) && !seg.header.rst && c.InputEnded() && !seg.header.syn && !c.linger
    requires (seg.header.ack ==> AckDefined(c.snd, seg.header.ackno)) && HeedSpec(c.snd, seg, mid, c'.snd, segs)
    requires emitted == if seg.header.fin then [EmptySegment(c.snd)] else []
    requires c' == c.(sinceLast := 0, snd := c'.snd, out := c.out + StampAll(emitted + segs, c.rcv),
                      active := !(seg.header.ack && c'.snd.q.finAcked))
    ensures SegmentSpec(c, seg, c')
  {
    hide Represents, Size, Disjoint, Wrap, Unwrap, ReceiveSpec, AckSpec, FillSpec, Assembler.Valid, AckDefined, StampAll, SegmentSpec, Conn.Early;
    FlagFacts(c);
    SegmentDone(c, seg, c', mid, segs, emitted + segs);
  }

  lemma SynRecvDone(c: Conn, seg: Segment, c1: Conn, c': Conn, mid: Sender, segs: seq<Segment>, emitted: seq<Segment>)
    requires FlagInv(c) && Hearable(c, seg)
    requires c.active && !c.Early(seg) && !seg.header.rst && !c.InputEnded() && c.rcv.synRecv && !seg.header.syn
    requires c1 == c.(sinceLast := 0, rcv := c1.rcv, snd := c1.snd, out := c1.out)
    requires if seg.Length() != 0 then ReceiveSpec(c.rcv, seg, c1.rcv) else c1.rcv == c.rcv
    requires HeedSpec(c.snd, seg, mid, c1.snd, segs)
    requires c' == if c1.InputEnded()
                   then c1.(linger := c1.linger && c1.snd.q.finSent, timeWait := c1.timeWait || c1.snd.q.finSent)
                   else c1
    requires c'.out == c.out + StampAll(emitted, c'.rcv)
    requires emitted == if seg.Length() > 0 && c.out == [] && segs == [] then [EmptySegment(c1.snd)] else segs
    ensures SegmentSpec(c, seg, c')
  {
    hide Represents, Size, Disjoint, Wrap, Unwrap, ReceiveSpec, AckSpec, FillSpec, Assembler.Valid, AckDefined, StampAll, SegmentSpec;
    FlagFacts(c);
    SegmentDone(c, seg, c', mid, segs, emitted);
  }

  lemma FlagFacts(c: Conn)
    requires FlagInv(c)
    ensures c.pending == [] && c.snd.out.Valid() && c.rcv.Valid() && (c.InputEnded() ==> c.rcv.synRecv)
  {
  }

  lemma ConnPending(c: Conn)
    requires ConnInv(c)
    ensures FlagInv(c) && Inv(c.snd)
    ensures c.pending == [] && c.snd.out.Valid() && (c.InputEnded() ==> c.rcv.synRecv)
  {
    hide Inv, Paced, Represents, Disjoint;
  }

  /** With the accounting of the sender in order, whatever there is room for can be handled. */
  lemma ConnHears(c: Conn, seg: Segment)
    requires ConnInv(c) && Roomy(c, seg)
    ensures Hearable(c, seg)
  {
    hide Paced, Represents, Disjoint, Wrap, Unwrap, Sized, Held, Assembler.Valid;
  }

  lemma FillKeepsFlags(c: Conn, c': Conn)
    requires FlagInv(c) && FillOut(c, c')
    ensures FlagInv(c')
  {
    hide Wrap, Represents, Disjoint, Assembler.Valid, FillSpec, StampAll;
    var segs :| FillSpec(c.snd, c'.snd, segs) && c' == c.(snd := c'.snd, pending := [], out := c.out + StampAll(segs, c.rcv));
    FillOnlySends(c.snd, c'.snd, segs);
  }

  lemma FillKeeps(c: Conn, c': Conn)
    requires ConnInv(c) && c.snd.out.Valid() && FillOut(c, c')
    ensures ConnInv(c')
  {
    hide Wrap, Represents, Disjoint, Inv, FillSpec, Paced, FlagInv, StampAll;
    FillKeepsFlags(c, c');
    var segs :| FillSpec(c.snd, c'.snd, segs) && c' == c.(snd := c'.snd, pending := [], out := c.out + StampAll(segs, c.rcv));
    FillFlags(c.snd, c'.snd, segs);
    PacedAfter(c.snd.t, c'.snd.t);
  }

  lemma WriteKeepsFlags(c: Conn, data: seq<byte>, mid: Sender, c': Conn)
    requires FlagInv(c) && WriteSpec(c.snd, data, mid) && mid.out.Valid() && FillOut(c.(snd := mid), c')
    ensures FlagInv(c')
  {
    hide Wrap, Represents, Disjoint, Assembler.Valid, FillOut;
    FillKeepsFlags(c.(snd := mid), c');
  }

  lemma WriteKeeps(c: Conn, data: seq<byte>, mid: Sender, c': Conn)
    requires ConnInv(c) && WriteSpec(c.snd, data, mid) && mid.out.Valid() && FillOut(c.(snd := mid), c')
    ensures ConnInv(c')
  {
    hide Wrap, Represents, Disjoint, Assembler.Valid, Inv, FillOut, Paced;
    WriteInv(c.snd, data, mid);
    FillKeeps(c.(snd := mid), c');
  }

  lemma EndKeepsFlags(c: Conn, c': Conn)
    requires FlagInv(c) && FillOut(c.(snd := EndedSender(c.snd)), c')
    ensures FlagInv(c')
  {
    hide Wrap, Represents, Disjoint, Assembler.Valid, FillOut;
    FillKeepsFlags(c.(snd := EndedSender(c.snd)), c');
  }

  lemma EndKeeps(c: Conn, c': Conn)
    requires ConnInv(c) && c.snd.out.Valid() && FillOut(c.(snd := EndedSender(c.snd)), c')
    ensures ConnInv(c')
  {
    hide Wrap, Represents, Disjoint, Assembler.Valid, Inv, FillOut, Paced;
    EndInv(c.snd, EndedSender(c.snd));
    FillKeeps(c.(snd := EndedSender(c.snd)), c');
  }

  ghost predicate ReadOutSpec(c: Conn, len: nat, c': Conn) {
    c' == c.(rcv := c.rcv.(asm := c'.rcv.asm)) && ReadSpec(c.rcv.asm, len, c'.rcv.asm)
  }

  lemma ReadKeeps(c: Conn, len: nat, c': Conn)
    requires FlagInv(c) && ReadOutSpec(c, len, c')
    ensures FlagInv(c') && (ConnInv(c) ==> ConnInv(c'))
  {
    hide Represents, Size, Disjoint, Wrap, Inv, Paced;
  }

  lemma CollectKeeps(c: Conn, k: nat)
    requires FlagInv(c) && k <= |c.out|
    ensures FlagInv(c.(out := c.out[k..])) && (ConnInv(c) ==> ConnInv(c.(out := c.out[k..])))
  {
    hide Represents, Size, Disjoint, Wrap, Inv, Paced;
  }

  // -- Time, as values ------------------------------------------------------------------------------------

  function RstSegment(seqno: uint32): Segment {
    Segment(BLANK.(seqno := seqno, rst := true), [])
  }

  function RstNumber(c: Conn): uint32 {
    if c.out != [] then c.out[0].header.seqno
    else if c.pending != [] then c.pending[0].header.seqno
    else Wrap(c.snd.q.next, c.snd.isn)
  }

  lemma StampRst(seqno: uint32, r: Receiver)
    ensures StampAll([RstSegment(seqno)], r) == [RstSegment(seqno)]
  {
    assert [RstSegment(seqno)][..0] == [];
    StampNone(r);
  }

  /** The connection after the sender has ticked and its segments have been sent. */
  function AfterTick(c: Conn, ms: nat, s': Sender, segs: seq<Segment>): Conn {
    c.(snd := s', sinceLast := c.sinceLast + ms, out := c.out + StampAll(segs, c.rcv))
  }

  /** One retransmission too many resets the connection, with an RST in place of all that was
      queued; otherwise a final wait that has lasted long enough ends it. */
  function TickOutcome(c1: Conn, rtTimeout: nat): Conn {
    if c1.snd.t.retransmissions > MAX_RETX_ATTEMPTS then
      c1.(pending := [], out := [RstSegment(RstNumber(c1))], sndError := true, rcvError := true, active := false)
    else if c1.timeWait && c1.sinceLast >= 10 * rtTimeout then c1.(active := false)
    else c1
  }

  ghost predicate ConnTickSpec(c: Conn, rtTimeout: nat, ms: nat, c': Conn) {
    if !c.active then c' == c
    else c.snd.FrontReady() && exists s', segs :: TickSpec(c.snd, ms, s', segs) && c' == TickOutcome(AfterTick(c, ms, s', segs), rtTimeout)
  }

  lemma TickIdle(c: Conn, rtTimeout: nat, ms: nat)
    requires !c.active
    ensures ConnTickSpec(c, rtTimeout, ms, c)
  {
  }

  lemma TickDone(c: Conn, rtTimeout: nat, ms: nat, s': Sender, segs: seq<Segment>, c': Conn)
    requires c.snd.FrontReady() && c.active && TickSpec(c.snd, ms, s', segs)
    requires c' == TickOutcome(AfterTick(c, ms, s', segs), rtTimeout)
    ensures ConnTickSpec(c, rtTimeout, ms, c')
  {
    hide TickSpec, AfterTick, TickOutcome;
  }

  /** A tick keeps the pace of the timer. */
  lemma TickClock(s: Sender, ms: nat, s': Sender, segs: seq<Segment>)
    requires Inv(s) && s.FrontReady() && TickSpec(s, ms, s', segs) && Paced(s.t) && s.t.retransmissions <= 8
    ensures Paced(s'.t) && s'.t.initial == s.t.initial
  {
    hide Wrap, Inv, Paced, Queue.Remain, Sender.RetransmitSegment;
    if s.t.running {
      TickPaced(s.t, ms);
      var t := s.t.Ticked(ms);
      if t.elapsed >= t.timeout {
        BackPaced(t);
      }
    }
  }

  lemma TickKeepsFlags(c: Conn, rtTimeout: nat, ms: nat, c': Conn)
    requires FlagInv(c) && ConnTickSpec(c, rtTimeout, ms, c')
    ensures FlagInv(c')
  {
    hide Wrap, Represents, Disjoint, Assembler.Valid, TickSpec, StampAll;
    if c.active {
      var s', segs :| TickSpec(c.snd, ms, s', segs) && c' == TickOutcome(AfterTick(c, ms, s', segs), rtTimeout);
      TickFlags(c.snd, ms, s', segs);
    }
  }

  lemma TickKeeps(c: Conn, rtTimeout: nat, ms: nat, c': Conn)
    requires ConnInv(c) && ConnTickSpec(c, rtTimeout, ms, c')
    ensures ConnInv(c')
  {
    hide Wrap, Represents, Disjoint, Assembler.Valid, Inv, Paced, TickSpec, StampAll, FlagInv;
    TickKeepsFlags(c, rtTimeout, ms, c');
    if c.active {
      var s', segs :| TickSpec(c.snd, ms, s', segs) && c' == TickOutcome(AfterTick(c, ms, s', segs), rtTimeout);
      TickInv(c.snd, ms, s', segs);
      TickClock(c.snd, ms, s', segs);
    }
  }

  lemma TickFlags(s: Sender, ms: nat, s': Sender, segs: seq<Segment>)
    requires s.FrontReady() && TickSpec(s, ms, s', segs)
    ensures s.q.finSent ==> s'.q.finSent
    ensures s'.q.finAcked == s.q.finAcked && s'.out == s.out
  {
    hide Wrap, Queue.Remain, Sender.RetransmitSegment;
  }

  /** Giving up: it happens at the ninth retransmission in a row, no sooner than 511 initial timeouts
      after the timer was last started if none of them met a zero window (nine in any case), and
      leaves one RST to be sent. */
  lemma GivingUp(c: Conn, rtTimeout: nat, ms: nat, c': Conn)
    requires ConnInv(c) && ConnTickSpec(c, rtTimeout, ms, c')
    requires c.active && c'.sndError
    ensures c'.State() == OfficialState(RESET)
    ensures c'.snd.t.retransmissions == 9
    ensures c'.snd.t.doubled == 9 ==> 511 * c'.snd.t.initial <= c'.snd.t.total
    ensures 9 * c'.snd.t.initial <= c'.snd.t.total
    ensures |c'.out| == 1 && c'.out[0].header.rst
  {
    hide Wrap, Represents, Disjoint, Assembler.Valid, Inv, TickSpec, StampAll;
    TickKeeps(c, rtTimeout, ms, c');
    Endings(c');
    GiveUpTime(c'.snd.t);
  }

  /** A wait that runs out before our FIN is acknowledged ends the connection in a state that has no
      official name. */
  lemma WaitRunsOut(c: Conn, rtTimeout: nat, ms: nat, c': Conn)
    requires ConnInv(c) && ConnTickSpec(c, rtTimeout, ms, c')
    requires c.active && !c'.active && !c'.sndError
    ensures c.timeWait && c'.sinceLast >= 10 * rtTimeout
    ensures (exists o :: c'.State() == OfficialState(o)) <==> c.snd.q.finAcked
  {
    hide Wrap, Represents, Disjoint, Assembler.Valid, Inv, TickSpec, StampAll, Paced;
    var s', segs :| TickSpec(c.snd, ms, s', segs) && c' == TickOutcome(AfterTick(c, ms, s', segs), rtTimeout);
    TickFlags(c.snd, ms, s', segs);
    TickKeeps(c, rtTimeout, ms, c');
    Endings(c');
    SummaryAgrees(c'.snd);
    if c.snd.q.finAcked {
      assert c'.State() == OfficialState(CLOSED);
    }
  }

  // -- The object ---------------------------------------------------------------------------------------

  class TCPConnection {
    const rtTimeout: uint16
    const receiver: TCPReceiver
    const sender: TCPSender
    var segmentsOut: seq<Segment>
    var linger: bool
    var active: bool
    var timeWait: bool
    var timeSinceLastSegmentReceived: nat

    ghost function SenderParts(): set<object> {
      {sender, sender.timer, sender.queue, sender.stream}
    }

    ghost function ReceiverParts(): set<object> {
      {receiver, receiver.reassembler, receiver.reassembler.output}
    }

    ghost function View(): Conn
      reads this, SenderParts(), ReceiverParts()
    {
      Conn(sender.View(), receiver.View(), sender.stream.error, receiver.reassembler.output.error,
           sender.segmentsOut, segmentsOut, linger, active, timeWait, timeSinceLastSegmentReceived)
    }

    /** The objects are in order; this holds even within a call. */
    ghost predicate Sound()
      reads this, SenderParts(), ReceiverParts()
    {
      && sender.stream != receiver.reassembler.output
      && sender.stream.Valid() && sender.View().out.Valid()
      && receiver.Valid()
      && sender.timer.initialTimeout == rtTimeout
    }

    ghost predicate Valid()
      reads this, SenderParts(), ReceiverParts()
    {
      Sound() && FlagInv(View())
    }

    constructor (sendCapacity: nat, recvCapacity: nat, rtTimeout: uint16, isn: uint32)
      ensures Valid() && ConnInv(View()) && fresh(SenderParts() + ReceiverParts())
      ensures View() == InitialConn(sendCapacity, recvCapacity, rtTimeout, isn)
    {
      hide Represents, Size, Disjoint, Wrap, Assembler.Valid, Receiver.Valid, StreamReassembler.Valid, ByteStream.Valid, Inv, Paced;
      var r := new TCPReceiver(recvCapacity);
      var s := new TCPSender(sendCapacity, rtTimeout, isn);
      assert r.Valid() && r.View() == Receiver(Assembler(Stream([], 0, recvCapacity, false), map[], false, 0), false, 0, 0);
      this.rtTimeout := rtTimeout;
      receiver := r;
      sender := s;
      segmentsOut := [];
      linger, active, timeWait, timeSinceLastSegmentReceived := true, true, false, 0;
      new;
      InitialConnInv(sendCapacity, recvCapacity, rtTimeout, isn);
    }

    function ReceiverFinRecv(): (b: bool)
      reads ReceiverParts()
    {
      receiver.reassembler.output.inputEnded
    }

    /** The fields that decide between branches, in terms of the value. */
    lemma FieldsMean()
      ensures ReceiverFinRecv() == View().InputEnded()
      ensures linger == View().linger && segmentsOut == View().out && sender.segmentsOut == View().pending
      ensures sender.queue.finAcked == View().snd.q.finAcked
      ensures sender.timer.consecutiveRetransmissions == View().snd.t.retransmissions
      ensures active == View().active && timeWait == View().timeWait && timeSinceLastSegmentReceived == View().sinceLast
      ensures receiver.View() == View().rcv
    {
    }

    /** At the end of the inbound stream: no lingering if our FIN is not out yet, else wait. */
    method DecideClosing()
      requires Sound()
      modifies this`linger, this`timeWait
      ensures Sound()
      ensures View() == old(View()).(linger := old(View()).linger && old(View()).snd.q.finSent,
                                     timeWait := old(View()).timeWait || old(View()).snd.q.finSent)
    {
      hide Represents, Size, Disjoint, Wrap, Assembler.Valid, Receiver.Valid, StreamReassembler.Valid, ByteStream.Valid;
      if !sender.queue.finSent {
        linger := false;
      } else {
        timeWait := true;
      }
    }

    // -- Shutting down

    method UncleanShutdown()
      requires Sound()
      modifies this`active, sender.stream, receiver.reassembler.output
      ensures Sound()
      ensures View() == old(View()).(sndError := true, rcvError := true, active := false)
    {
      hide Represents, Size, Disjoint, Wrap, Assembler.Valid;
      sender.stream.SetError();
      receiver.reassembler.output.SetError();
      active := false;
    }

    method CleanShutdown()
      requires Sound()
      modifies this`active
      ensures Sound()
      ensures View() == old(View()).(active := false)
    {
      hide Represents, Size, Disjoint, Wrap, Assembler.Valid, Receiver.Valid, StreamReassembler.Valid, ByteStream.Valid;
      active := false;
    }

    // -- Output

    /** Move the sender's segments out, each carrying the current acknowledgment and window. */
    method UpdateOutput()
      requires Sound()
      modifies this`segmentsOut, sender`segmentsOut
      ensures Sound()
      ensures View() == old(View()).(pending := [], out := old(View()).out + StampAll(old(View()).pending, old(View()).rcv))
    {
      hide Represents, Size, Disjoint, Wrap, Assembler.Valid, Receiver.Valid, StreamReassembler.Valid, ByteStream.Valid, Stamp, StampAll;
      StampNone(receiver.View());
      ghost var queued := sender.segmentsOut;
      ghost var n := 0;
      ghost var r := receiver.View();
      while sender.segmentsOut != []
        invariant n <= |queued| && sender.segmentsOut == queued[n..]
        invariant segmentsOut == old(segmentsOut) + StampAll(queued[..n], r)
        decreases |sender.segmentsOut|
      {
        var seg := StampFront(sender.segmentsOut[0]);
        segmentsOut := segmentsOut + [seg];
        sender.segmentsOut := sender.segmentsOut[1..];
        StampOneMore(queued, n, r);
        n := n + 1;
      }
      assert queued[..n] == queued;
    }

    method StampFront(seg: Segment) returns (stamped: Segment)
      requires Sound()
      ensures stamped == Stamp(seg, receiver.View())
    {
      hide Represents, Size, Disjoint, Wrap, Assembler.Valid;
      stamped := seg;
      var ackno := receiver.Ackno();
      if !seg.header.rst && ackno.Some? {
        var window := receiver.WindowSize();
        stamped := seg.(header := seg.header.(ack := true, ackno := ackno.value, win := window % 0x1_0000));
      }
    }

    // -- Using the two halves

    method TakeSegment(seg: Segment)
      requires Sound() && View().rcv.Spacious(|seg.payload|)
      modifies ReceiverParts()
      ensures Sound() && ReceiveSpec(old(View()).rcv, seg, View().rcv)
      ensures View() == old(View()).(rcv := View().rcv)
    {
      hide Represents, Size, Disjoint, Wrap, Unwrap, Assembler.Valid, Receiver.Valid, StreamReassembler.Valid, ByteStream.Valid, ReceiveSpec;
      receiver.SegmentReceived(seg);
    }

    method TakeAck(seg: Segment)
      requires Sound() && AckDefined(View().snd, seg.header.ackno)
      modifies sender.timer, sender.queue
      ensures Sound() && AckSpec(old(View()).snd, seg.header.ackno, seg.header.win, View().snd)
      ensures View().snd.out.Valid()
      ensures View() == old(View()).(snd := View().snd)
    {
      hide Represents, Size, Disjoint, Wrap, Unwrap, Assembler.Valid, Receiver.Valid, StreamReassembler.Valid, ByteStream.Valid, AckSpec;
      sender.AckReceived(seg.header.ackno, seg.header.win);
    }

    method Fill() returns (ghost segs: seq<Segment>)
      requires Sound()
      modifies SenderParts()
      ensures Sound() && FillSpec(old(View()).snd, View().snd, segs)
      ensures View() == old(View()).(snd := View().snd, pending := old(View()).pending + segs)
    {
      hide Represents, Size, Disjoint, Wrap, Assembler.Valid, Receiver.Valid, StreamReassembler.Valid, FillSpec;
      sender.FillWindow();
      segs := sender.Since(old(sender.segmentsOut));
    }

    method SendEmpty()
      requires Sound()
      modifies sender`segmentsOut
      ensures Sound()
      ensures View() == old(View()).(pending := old(View()).pending + [EmptySegment(old(View()).snd)])
    {
      hide Represents, Size, Disjoint, Wrap, Assembler.Valid, Receiver.Valid, StreamReassembler.Valid, ByteStream.Valid;
      sender.SendEmptySegment();
    }

    /** Fill the window and send. */
    method FillAndSend()
      requires Sound() && View().pending == []
      modifies this`segmentsOut, SenderParts()
      ensures Sound() && FillOut(old(View()), View())
    {
      hide Represents, Size, Disjoint, Wrap, Assembler.Valid, Receiver.Valid, StreamReassembler.Valid, ByteStream.Valid, FillSpec, FillOut, StampAll;
      ghost var segs := Fill();
      ghost var s' := sender.View();
      UpdateOutput();
      FillOutIntro(old(View()), s', segs, View());
    }

    method AnswerAndSend()
      requires Sound() && View().pending == []
      modifies this`segmentsOut, sender`segmentsOut
      ensures Sound()
      ensures View() == old(View()).(out := old(View()).out + StampAll([EmptySegment(old(View()).snd)], old(View()).rcv))
    {
      hide Represents, Size, Disjoint, Wrap, Assembler.Valid, Receiver.Valid, StreamReassembler.Valid, ByteStream.Valid;
      SendEmpty();
      UpdateOutput();
    }

    // -- The calls of the owner

    method Write(data: seq<byte>) returns (n: nat)
      requires Valid()
      modifies this`segmentsOut, SenderParts()
      ensures Valid() && (old(ConnInv(View())) ==> ConnInv(View()))
      ensures n == old(View()).snd.out.Accepts(|data|) || (data == [] && n == 0)
      ensures data == [] ==> View() == old(View())
      ensures data != [] ==> exists mid :: WriteSpec(old(View()).snd, data, mid) && mid.out.Valid() && FillOut(old(View()).(snd := mid), View())
    {
      hide Represents, Size, Disjoint, Wrap, Assembler.Valid, Receiver.Valid, StreamReassembler.Valid, FillOut, FlagInv, ConnInv;
      if data == [] {
        return 0;
      }
      FlagFacts(View());
      n := sender.stream.Write(data);
      ghost var mid := sender.View();
      assert WriteSpec(old(View()).snd, data, mid);
      FillAndSend();
      WriteKeepsFlags(old(View()), data, mid, View());
      if ConnInv(old(View())) {
        WriteKeeps(old(View()), data, mid, View());
      }
    }

    method EndInputStream()
      requires Valid()
      modifies this`segmentsOut, SenderParts()
      ensures Valid() && (old(ConnInv(View())) ==> ConnInv(View()))
      ensures FillOut(old(View()).(snd := EndedSender(old(View()).snd)), View())
    {
      hide Represents, Size, Disjoint, Wrap, Assembler.Valid, Receiver.Valid, StreamReassembler.Valid, FillOut, FlagInv, ConnInv;
      FlagFacts(View());
      sender.stream.EndInput();
      FillAndSend();
      EndKeepsFlags(old(View()), View());
      if ConnInv(old(View())) {
        EndKeeps(old(View()), View());
      }
    }

    method Connect()
      requires Valid()
      modifies this`segmentsOut, SenderParts()
      ensures Valid() && (old(ConnInv(View())) ==> ConnInv(View()))
      ensures FillOut(old(View()), View())
    {
      hide Represents, Size, Disjoint, Wrap, Assembler.Valid, Receiver.Valid, StreamReassembler.Valid, FillOut, FlagInv, ConnInv;
      FlagFacts(View());
      FillAndSend();
      FillKeepsFlags(old(View()), View());
      if ConnInv(old(View())) {
        FillKeeps(old(View()), View());
      }
    }

    // -- A segment arrives

    method SegmentReceived(seg: Segment)
      requires Valid() && Hearable(View(), seg)
      modifies this, SenderParts(), ReceiverParts()
      ensures Valid() && SegmentSpec(old(View()), seg, View())
      ensures old(ConnInv(View()) && Acceptable(View(), seg)) ==> ConnInv(View())
    {
      hide Represents, Size, Disjoint, Wrap, Unwrap, Assembler.Valid, Receiver.Valid, StreamReassembler.Valid, ByteStream.Valid,
        FlagInv, ConnInv, Acceptable, Hearable, SegmentSpec, View;
      ghost var c := View();
      FieldsMean();
      if !active {
        SegmentIgnored(c, seg);
        return;
      }
      ResetTime();
      FieldsMean();
      var ackno := receiver.Ackno();
      var h := seg.header;
      if ackno.Some? && h.seqno != ackno.value && seg.Length() <= 1 && !h.syn {
        OutOfOrder(seg, c);
      } else if h.rst {
        UncleanShutdown();
        SegmentResets(c, seg);
      } else if ReceiverFinRecv() {
        AfterFin(seg, c);
      } else if ackno.None? {
        InListen(seg, c);
      } else {
        InSynRecv(seg, c);
      }
      SegmentFlags(c, seg, View());
      if ConnInv(c) && Acceptable(c, seg) {
        SegmentKeeps(c, seg, View());
      }
    }

    method ResetTime()
      requires Sound()
      modifies this`timeSinceLastSegmentReceived
      ensures Sound() && View() == old(View()).(sinceLast := 0)
    {
      hide Represents, Size, Disjoint, Wrap, Assembler.Valid, Receiver.Valid, StreamReassembler.Valid, ByteStream.Valid;
      timeSinceLastSegmentReceived := 0;
    }

    ghost predicate Started(c: Conn, seg: Segment)
      reads this, SenderParts(), ReceiverParts()
    {
      && Sound() && FlagInv(c) && Hearable(c, seg)
      && View() == c.(sinceLast := 0)
      && c.active
    }

    /** Hand the acknowledgment, if there is one, to the sender and let it fill its window. */
    method HeedAndFill(seg: Segment) returns (ghost mid: Sender, ghost segs: seq<Segment>)
      requires Sound() && (seg.header.ack ==> AckDefined(View().snd, seg.header.ackno)) && View().snd.out.Valid()
      modifies SenderParts()
      ensures Sound() && HeedSpec(old(View()).snd, seg, mid, View().snd, segs)
      ensures View() == old(View()).(snd := View().snd, pending := old(View()).pending + segs)
    {
      hide Represents, Size, Disjoint, Wrap, Unwrap, Assembler.Valid, Receiver.Valid, StreamReassembler.Valid, ByteStream.Valid,
        FlagInv, ReceiveSpec, AckSpec, FillSpec, AckDefined, StampAll, Outputs, SegmentSpec, Sound, View;
      mid, segs := View().snd, [];
      if seg.header.ack {
        TakeAck(seg);
        mid := View().snd;
        segs := Fill();
      }
    }

    /** The same, and send. */
    method HeedFillSend(seg: Segment) returns (ghost mid: Sender, ghost segs: seq<Segment>)
      requires Sound() && (seg.header.ack ==> AckDefined(View().snd, seg.header.ackno)) && View().snd.out.Valid() && View().pending == []
      modifies this`segmentsOut, SenderParts()
      ensures Sound() && HeedSpec(old(View()).snd, seg, mid, View().snd, segs)
      ensures View() == old(View()).(snd := View().snd, out := old(View()).out + StampAll(segs, old(View()).rcv))
    {
      hide Represents, Size, Disjoint, Wrap, Unwrap, Assembler.Valid, Receiver.Valid, StreamReassembler.Valid, ByteStream.Valid,
        FlagInv, ReceiveSpec, AckSpec, FillSpec, AckDefined, StampAll, Outputs, SegmentSpec, Sound, View;
      mid, segs := HeedAndFill(seg);
      StampNone(View().rcv);
      if seg.header.ack {
        UpdateOutput();
      }
    }

    /** If nothing is on its way out, send an empty segment. */
    method EnsureAnswer(ghost before: seq<Segment>, ghost emitted: seq<Segment>) returns (ghost emitted': seq<Segment>)
      requires Sound() && View().pending == [] && View().out == before + StampAll(emitted, View().rcv)
      modifies this`segmentsOut, sender`segmentsOut
      ensures Sound() && View() == old(View()).(out := before + StampAll(emitted', old(View()).rcv))
      ensures emitted' == if before == [] && emitted == [] then [EmptySegment(old(View()).snd)] else emitted
    {
      hide Represents, Size, Disjoint, Wrap, Unwrap, Assembler.Valid, Receiver.Valid, StreamReassembler.Valid, ByteStream.Valid,
        FlagInv, ReceiveSpec, AckSpec, FillSpec, AckDefined, StampAll, Outputs, SegmentSpec, Sound, View;
      emitted' := emitted;
      FieldsMean();
      if segmentsOut == [] {
        StampConcat(emitted, [EmptySegment(View().snd)], View().rcv);
        emitted' := emitted + [EmptySegment(View().snd)];
        AnswerAndSend();
      }
    }

    /** Answer a keep-alive or a small segment from the future. */
    method OutOfOrder(seg: Segment, ghost c: Conn)
      requires Started(c, seg) && c.Early(seg)
      modifies this, SenderParts(), ReceiverParts()
      ensures Sound() && SegmentSpec(c, seg, View())
    {
      hide Represents, Size, Disjoint, Wrap, Unwrap, Assembler.Valid, Receiver.Valid, StreamReassembler.Valid, ByteStream.Valid,
        FlagInv, Hearable, ReceiveSpec, AckSpec, FillSpec, AckDefined, StampAll, Outputs, SegmentSpec, Sound, View,
        Conn.Takes, Conn.Heeds, Conn.Early, Fills, FlagsMove, Demands, HeedSpec;
      FlagFacts(c);
      EarlyHeard(c, seg);
      TakeSegment(seg);
      ghost var mid, segs := HeedAndFill(seg);
      ghost var emitted := EnsurePending();
      UpdateOutput();
      EarlyDone(c, seg, View(), mid, segs, emitted);
    }

    method EnsurePending() returns (ghost pending: seq<Segment>)
      requires Sound()
      modifies sender`segmentsOut
      ensures Sound() && View() == old(View()).(pending := pending)
      ensures pending == if old(View()).pending == [] then [EmptySegment(old(View()).snd)] else old(View()).pending
    {
      hide Represents, Size, Disjoint, Wrap, Unwrap, Assembler.Valid, Receiver.Valid, StreamReassembler.Valid, ByteStream.Valid,
        FlagInv, ReceiveSpec, AckSpec, FillSpec, AckDefined, StampAll, Outputs, SegmentSpec, Sound, View;
      FieldsMean();
      if sender.segmentsOut == [] {
        SendEmpty();
      }
      pending := View().pending;
    }

    /** The inbound stream has ended: only the sender still has business. */
    method AfterFin(seg: Segment, ghost c: Conn)
      requires Started(c, seg) && !c.Early(seg) && !seg.header.rst && c.InputEnded()
      modifies this, SenderParts()
      ensures Sound() && SegmentSpec(c, seg, View())
    {
      hide Represents, Size, Disjoint, Wrap, Unwrap, Assembler.Valid, Receiver.Valid, StreamReassembler.Valid, ByteStream.Valid,
        FlagInv, ReceiveSpec, AckSpec, FillSpec, AckDefined, StampAll, Outputs, SegmentSpec, Sound, View;
      FieldsMean();
      if seg.header.syn {
        SynAfterFin(c, seg);
      } else if !linger {
        CloseWait(seg, c);
      } else {
        Lingering(seg, c);
      }
    }

    /** Repeat the acknowledgment of a FIN. */
    method AnswerFin(seg: Segment) returns (ghost emitted: seq<Segment>)
      requires Sound() && View().pending == []
      modifies this`segmentsOut, sender`segmentsOut
      ensures Sound() && emitted == if seg.header.fin then [EmptySegment(old(View()).snd)] else []
      ensures View() == old(View()).(out := old(View()).out + StampAll(emitted, old(View()).rcv))
    {
      hide Represents, Size, Disjoint, Wrap, Unwrap, Assembler.Valid, Receiver.Valid, StreamReassembler.Valid, ByteStream.Valid,
        FlagInv, ReceiveSpec, AckSpec, FillSpec, AckDefined, StampAll, Outputs, SegmentSpec, Sound, View;
      emitted := [];
      StampNone(View().rcv);
      if seg.header.fin {
        emitted := [EmptySegment(View().snd)];
        AnswerAndSend();
      }
    }

    /** In CLOSE_WAIT or LAST_ACK. */
    method CloseWait(seg: Segment, ghost c: Conn)
      requires Started(c, seg) && !c.Early(seg) && !seg.header.rst && c.InputEnded() && !seg.header.syn && !c.linger
      modifies this, SenderParts()
      ensures Sound() && SegmentSpec(c, seg, View())
    {
      hide Represents, Size, Disjoint, Wrap, Unwrap, Assembler.Valid, Receiver.Valid, StreamReassembler.Valid, ByteStream.Valid,
        FlagInv, Hearable, ReceiveSpec, AckSpec, FillSpec, AckDefined, StampAll, Outputs, SegmentSpec, Sound, View,
        Conn.Takes, Conn.Heeds, Conn.Early, Fills, FlagsMove, Demands, HeedSpec;
      FlagFacts(c);
      AckHeard(c, seg);
      ghost var emitted := AnswerFin(seg);
      if !seg.header.ack {
        HeedNone(c.snd, seg);
        assert emitted + [] == emitted;
        CloseWaitDone(c, seg, View(), c.snd, [], emitted);
        return;
      }
      TakeAck(seg);
      ghost var mid := View().snd;
      ghost var segs := CloseOrFill();
      StampConcat(emitted, segs, c.rcv);
      HeedOne(c.snd, seg, mid, View().snd, segs);
      CloseWaitDone(c, seg, View(), mid, segs, emitted);
    }

    /** LAST_ACK is over once the FIN is acknowledged; CLOSE_WAIT goes on sending. */
    method CloseOrFill() returns (ghost segs: seq<Segment>)
      requires Sound() && View().pending == [] && View().snd.out.Valid()
      modifies this, SenderParts()
      ensures Sound() && FillSpec(old(View()).snd, View().snd, segs)
      ensures View().snd.q.finAcked == old(View()).snd.q.finAcked
      ensures View() == old(View()).(snd := View().snd, out := old(View()).out + StampAll(segs, old(View()).rcv),
                                     active := old(View()).active && !old(View()).snd.q.finAcked)
    {
      hide Represents, Size, Disjoint, Wrap, Assembler.Valid, Receiver.Valid, StreamReassembler.Valid, ByteStream.Valid,
        FillSpec, StampAll, Sound, View;
      FieldsMean();
      segs := [];
      StampNone(View().rcv);
      if sender.queue.finAcked {
        NothingToFill(View().snd);
        CleanShutdown();
      } else {
        segs := FillAndUpdate();
        FillAcksNothing(old(View()).snd, View().snd, segs);
      }
    }

    /** After both ends have closed, ours first. */
    method Lingering(seg: Segment, ghost c: Conn)
      requires Started(c, seg) && !c.Early(seg) && !seg.header.rst && c.InputEnded() && !seg.header.syn && c.linger
      modifies this, SenderParts()
      ensures Sound() && SegmentSpec(c, seg, View())
    {
      hide Represents, Size, Disjoint, Wrap, Unwrap, Assembler.Valid, Receiver.Valid, StreamReassembler.Valid, ByteStream.Valid,
        FlagInv, ReceiveSpec, AckSpec, FillSpec, AckDefined, StampAll, Outputs, SegmentSpec, Sound, View;
      FlagFacts(c);
      if seg.header.ack {
        TakeAck(seg);
      }
      ghost var mid := View().snd;
      ghost var emitted := AnswerFin(seg);
      SegmentDone(c, seg, View(), mid, [], emitted);
    }

    method FillAndUpdate() returns (ghost segs: seq<Segment>)
      requires Sound() && View().pending == []
      modifies this`segmentsOut, SenderParts()
      ensures Sound() && FillSpec(old(View()).snd, View().snd, segs)
      ensures View() == old(View()).(snd := View().snd, out := old(View()).out + StampAll(segs, old(View()).rcv))
    {
      hide Represents, Size, Disjoint, Wrap, Assembler.Valid, Receiver.Valid, StreamReassembler.Valid, ByteStream.Valid, FillSpec, StampAll;
      segs := Fill();
      UpdateOutput();
    }

    /** No SYN yet: only a SYN counts. */
    method InListen(seg: Segment, ghost c: Conn)
      requires Started(c, seg) && !c.Early(seg) && !seg.header.rst && !c.InputEnded() && !c.rcv.synRecv
      modifies this, SenderParts(), ReceiverParts()
      ensures Sound() && SegmentSpec(c, seg, View())
    {
      hide Represents, Size, Disjoint, Wrap, Unwrap, Assembler.Valid, Receiver.Valid, StreamReassembler.Valid, ByteStream.Valid,
        FlagInv, ReceiveSpec, AckSpec, FillSpec, AckDefined, StampAll, Outputs, SegmentSpec, Sound, View;
      FlagFacts(c);
      if !seg.header.syn {
        StampNone(c.rcv);
        SegmentDone(c, seg, View(), c.snd, [], []);
        return;
      }
      TakeSegment(seg);
      if seg.header.ack {
        TakeAck(seg);
      }
      ghost var mid := View().snd;
      ghost var segs := FillAndUpdate();
      ghost var emitted := EnsureAnswer(c.out, segs);
      SegmentDone(c, seg, View(), mid, segs, emitted);
    }

    /** Between SYN and FIN. */
    method InSynRecv(seg: Segment, ghost c: Conn)
      requires Started(c, seg) && !c.Early(seg) && !seg.header.rst && !c.InputEnded() && c.rcv.synRecv
      modifies this, SenderParts(), ReceiverParts()
      ensures Sound() && SegmentSpec(c, seg, View())
    {
      hide Represents, Size, Disjoint, Wrap, Unwrap, Assembler.Valid, Receiver.Valid, StreamReassembler.Valid, ByteStream.Valid,
        FlagInv, ReceiveSpec, AckSpec, FillSpec, AckDefined, StampAll, Outputs, SegmentSpec, Sound, View,
        Conn.Takes, Conn.Heeds, Fills, FlagsMove, Demands, HeedSpec;
      FlagFacts(c);
      if seg.header.syn {
        SynIgnored(c, seg);
        return;
      }
      AckHeard(c, seg);
      if seg.Length() != 0 {
        TakeSegment(seg);
      }
      ghost var mid, segs := HeedFillSend(seg);
      ghost var emitted := segs;
      if seg.Length() > 0 {
        emitted := EnsureAnswer(c.out, emitted);
      }
      ghost var c1 := View();
      NoticeEnd(c.out, emitted);
      SynRecvDone(c, seg, c1, View(), mid, segs, emitted);
    }

    /** If the inbound stream has just ended, decide how to close. The end came with a segment that
        has been answered, so no further answer is needed. */
    method NoticeEnd(ghost before: seq<Segment>, ghost emitted: seq<Segment>)
      requires Sound() && View().pending == [] && View().out == before + StampAll(emitted, View().rcv)
      requires View().InputEnded() ==> before != [] || emitted != []
      modifies this, sender`segmentsOut
      ensures Sound()
      ensures View() == if old(View()).InputEnded()
                        then old(View()).(linger := old(View()).linger && old(View()).snd.q.finSent,
                                          timeWait := old(View()).timeWait || old(View()).snd.q.finSent)
                        else old(View())
    {
      hide Represents, Size, Disjoint, Wrap, Unwrap, Assembler.Valid, Receiver.Valid, StreamReassembler.Valid, ByteStream.Valid,
        StampAll, Sound, View;
      FieldsMean();
      if ReceiverFinRecv() {
        DecideClosing();
        ghost var emitted' := EnsureAnswer(before, emitted);
      }
    }

    // -- Time passes

    method CleanSegQueue(queue: seq<Segment>) returns (cleaned: seq<Segment>)
      ensures cleaned == []
    {
      cleaned := queue;
      while cleaned != [] {
        cleaned := cleaned[1..];
      }
    }

    /** Replace everything queued by one RST, numbered like the first segment queued. */
    method SendRSTSeg()
      requires Sound()
      modifies this`segmentsOut, sender`segmentsOut
      ensures Sound()
      ensures View() == old(View()).(pending := [], out := [RstSegment(RstNumber(old(View())))])
    {
      hide Represents, Size, Disjoint, Wrap, Unwrap, Assembler.Valid, Receiver.Valid, StreamReassembler.Valid, ByteStream.Valid, StampAll;
      var sqn := EmptyQueues();
      sender.SendEmptySegment();
      var rst := sender.segmentsOut[0];
      sender.segmentsOut := [rst.(header := rst.header.(seqno := sqn, rst := true))];
      StampRst(sqn, receiver.View());
      UpdateOutput();
    }

    /** Drop all that is queued, keeping the number of the first. */
    method EmptyQueues() returns (sqn: uint32)
      requires Sound()
      modifies this`segmentsOut, sender`segmentsOut
      ensures Sound() && sqn == RstNumber(old(View()))
      ensures View() == old(View()).(pending := [], out := [])
    {
      hide Represents, Size, Disjoint, Wrap, Unwrap, Assembler.Valid, Receiver.Valid, StreamReassembler.Valid, ByteStream.Valid;
      if segmentsOut != [] {
        sqn := segmentsOut[0].header.seqno;
        segmentsOut := CleanSegQueue(segmentsOut);
        sender.segmentsOut := CleanSegQueue(sender.segmentsOut);
      } else if sender.segmentsOut != [] {
        sqn := sender.segmentsOut[0].header.seqno;
        sender.segmentsOut := CleanSegQueue(sender.segmentsOut);
      } else {
        sqn := Wrap(sender.queue.next, sender.isn);
      }
    }

    method TickSender(ms: nat) returns (ghost segs: seq<Segment>)
      requires Sound() && View().snd.FrontReady()
      modifies sender, sender.timer, sender.queue
      ensures Sound() && TickSpec(old(View()).snd, ms, View().snd, segs)
      ensures View() == old(View()).(snd := View().snd, pending := old(View()).pending + segs)
    {
      hide Represents, Size, Disjoint, Wrap, Assembler.Valid, Receiver.Valid, StreamReassembler.Valid, TickSpec;
      sender.Tick(ms);
      segs := sender.Since(old(sender.segmentsOut));
    }

    method AddTime(ms: nat)
      requires Sound()
      modifies this`timeSinceLastSegmentReceived
      ensures Sound() && View() == old(View()).(sinceLast := old(View()).sinceLast + ms)
    {
      hide Represents, Size, Disjoint, Wrap, Assembler.Valid, Receiver.Valid, StreamReassembler.Valid, ByteStream.Valid;
      timeSinceLastSegmentReceived := timeSinceLastSegmentReceived + ms;
    }

    /** Give up, or stop waiting, when it is time. */
    method EndIfDue()
      requires Sound() && View().pending == []
      modifies this, sender, sender.stream, receiver.reassembler.output
      ensures Sound() && View() == TickOutcome(old(View()), rtTimeout)
    {
      hide Represents, Size, Disjoint, Wrap, Unwrap, Assembler.Valid, Receiver.Valid, StreamReassembler.Valid, ByteStream.Valid,
        Sound, View, RstNumber;
      FieldsMean();
      if sender.timer.consecutiveRetransmissions > MAX_RETX_ATTEMPTS {
        SendRSTSeg();
        UncleanShutdown();
        return;
      }
      if timeWait && timeSinceLastSegmentReceived >= 10 * rtTimeout {
        CleanShutdown();
      }
    }

    method Tick(ms: nat)
      requires Valid() && (View().active ==> View().snd.FrontReady())
      modifies this, SenderParts(), ReceiverParts()
      ensures Valid() && (old(ConnInv(View())) ==> ConnInv(View()))
      ensures ConnTickSpec(old(View()), rtTimeout, ms, View())
    {
      hide Represents, Size, Disjoint, Wrap, Unwrap, Assembler.Valid, Receiver.Valid, StreamReassembler.Valid, ByteStream.Valid,
        FlagInv, ConnInv, StampAll, TickSpec, Sound, View, TickOutcome, ConnTickSpec;
      ghost var c := View();
      FlagFacts(c);
      FieldsMean();
      if !active {
        TickIdle(c, rtTimeout, ms);
        return;
      }
      AddTime(ms);
      ghost var segs := TickSender(ms);
      ghost var s' := View().snd;
      assert c.pending + segs == segs;
      UpdateOutput();
      assert View() == AfterTick(c, ms, s', segs);
      EndIfDue();
      TickDone(c, rtTimeout, ms, s', segs, View());
      TickKeepsFlags(c, rtTimeout, ms, View());
      if ConnInv(c) {
        TickKeeps(c, rtTimeout, ms, View());
      }
    }

    /** The owner reads from the inbound stream. */
    method ReadInbound(len: nat) returns (bytes: seq<byte>)
      requires Valid()
      modifies receiver.reassembler.output
      ensures Valid() && (old(ConnInv(View())) ==> ConnInv(View()))
      ensures ReadOutSpec(old(View()), len, View())
      ensures |bytes| == Min(old(View()).rcv.asm.out.Buffered(), len)
      ensures bytes == View().rcv.asm.out.written[old(View()).rcv.asm.out.read..View().rcv.asm.out.read]
    {
      hide Represents, Size, Disjoint, Wrap, Assembler.Valid, Receiver.Valid, StreamReassembler.Valid, ByteStream.Valid, FlagInv, ConnInv;
      bytes := receiver.ReadInbound(len);
      ReadKeeps(old(View()), len, View());
    }

    /** The owner takes the first `k` segments off the outgoing queue. */
    method Collect(k: nat) returns (segs: seq<Segment>)
      requires Valid() && k <= |View().out|
      modifies this`segmentsOut
      ensures Valid() && (old(ConnInv(View())) ==> ConnInv(View()))
      ensures View() == old(View()).(out := View().out)
      ensures |segs| == k && segs + View().out == old(View()).out
    {
      hide Represents, Size, Disjoint, Wrap, Assembler.Valid, Receiver.Valid, StreamReassembler.Valid, ByteStream.Valid, FlagInv, ConnInv;
      CollectKeeps(View(), k);
      segs := segmentsOut[..k];
      segmentsOut := segmentsOut[k..];
    }
  }
}
