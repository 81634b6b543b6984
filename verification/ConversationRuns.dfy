/** What holds over every conversation of two connections. */
module ConversationRuns {
  import opened Machine
  import opened WrappingIntegers
  import opened Fragments
  import opened TcpSegments
  import opened Reassembly
  import R = ReassemblyRuns
  import opened TcpReceivers
  import opened SegmentSizes
  import opened TcpSenders
  import opened SenderRuns
  import opened TcpStates
  import opened TcpConnections
  import opened ConnectionRuns
  import opened Transfer
  import TransferSteps
  import TransferDelivery
  import opened Conversation
  import opened ConversationSteps

  // -- What an end puts out -----------------------------------------------------------------------------------

  /** What is to be known of the segments that an arrival leads to. */
  ghost function EmittedNotes(c: Conn, seg: Segment, s': Sender, segs: seq<Segment>, k: seq<Sent>, ackAbs: nat): seq<Sent> {
    var empty := Sent(0, s'.q.next, ackAbs);
    if c.InputEnded() && !c.Early(seg) then (if Demands(c, seg) then [empty] else []) + k
    else if Demands(c, seg) && segs == [] && (c.Early(seg) || c.out == []) then [empty]
    else k
  }

  lemma EmittedNoted(c: Conn, seg: Segment, s': Sender, segs: seq<Segment>, k: seq<Sent>, net: set<Packet>, ackAbs: nat)
    requires Noted(segs, k, net, s', ackAbs)
    ensures Noted(Emitted(c, seg, s', segs), EmittedNotes(c, seg, s', segs, k, ackAbs), net, s', ackAbs)
  {
    hide Demands, Conn.Early, Noted, Represents, Disjoint;
    EmptyNoted(c.snd, net, s', ackAbs);
    EmptyNoted(s', net, s', ackAbs);
    NotedTogether([EmptySegment(c.snd)], [Sent(0, s'.q.next, ackAbs)], segs, k, net, s', ackAbs);
    NotedTogether([EmptySegment(s')], [Sent(0, s'.q.next, ackAbs)], segs, k, net, s', ackAbs);
    assert [] + segs == segs && [] + k == k;
  }

  lemma EmptyNoted(s: Sender, net: set<Packet>, s': Sender, ackAbs: nat)
    ensures Noted([EmptySegment(s)], [Sent(0, s'.q.next, ackAbs)], net, s', ackAbs)
  {
    hide Wrap;
  }

  lemma NotedTogether(e: seq<Segment>, k: seq<Sent>, f: seq<Segment>, l: seq<Sent>, net: set<Packet>, s: Sender, ackAbs: nat)
    requires Noted(e, k, net, s, ackAbs) && Noted(f, l, net, s, ackAbs)
    ensures Noted(e + f, k + l, net, s, ackAbs)
  {
    hide Fit;
  }

  lemma NothingNoted(net: set<Packet>, s: Sender, ackAbs: nat)
    ensures Noted([], [], net, s, ackAbs)
  {
  }

  // -- A segment arrives ------------------------------------------------------------------------------------------

  /** Both directions, seen from one end with connection `c`: `x` are the segments from it, `y` those to it. */
  ghost predicate Both(c: Conn, x: seq<Segment>, m: seq<Sent>, net: set<Packet>,
                       peer: Conn, y: seq<Segment>, n: seq<Sent>, peerNet: set<Packet>) {
    && OneWay(c.snd, x, m, net, peer.rcv, y, n)
    && OneWay(peer.snd, y, n, peerNet, c.rcv, x, m)
  }

  /** There is always room for what arrives, and its acknowledgment is always acceptable. */
  lemma HeadAcceptable(c: Conn, x: seq<Segment>, m: seq<Sent>, net: set<Packet>,
                       peer: Conn, y: seq<Segment>, n: seq<Sent>, peerNet: set<Packet>)
    requires Both(c, x, m, net, peer, y, n, peerNet) && y != []
    ensures Acceptable(c, y[0])
  {
    hide SystemInv, Represents, Disjoint, Assembler.Valid, Acks, Harmless, Wrap, Unwrap, Core, Plain, Below, Conn.Early;
    var z := System(peer.snd, c.rcv, peerNet, Acks(x, m));
    SpaciousNext(z);
    SpaciousNext(System(c.snd, peer.rcv, net, Acks(y, n)));
    assert Fit(y[0], n[0], peerNet, peer.snd);
    SmallPayload(z, y[0], n[0]);
    if y[0].header.ack {
      HeadHarmless(c.snd, x, m, net, peer.rcv, y, n);
    }
  }

  lemma SmallPayload(z: System, seg: Segment, k: Sent)
    requires SystemInv(z) && Fit(seg, k, z.net, z.snd)
    ensures |seg.payload| <= MAX_PAYLOAD_SIZE
  {
    hide SystemInv, Accurate, Tracked;
    if !Plain(seg) {
      PacketTracked(z, Packet(k.abs, Core(seg)));
    }
  }

  /** A segment that has arrived leaves the queue; what it leads to joins the other. */
  lemma Hears(c: Conn, x: seq<Segment>, m: seq<Sent>, net: set<Packet>,
              peer: Conn, y: seq<Segment>, n: seq<Sent>, peerNet: set<Packet>, c': Conn)
    returns (m': seq<Sent>, net': set<Packet>)
    requires ConnInv(c) && Sum(c.snd.q.sizes) == |c.snd.q.unAcked|
    requires Both(c, x, m, net, peer, y, n, peerNet) && y != []
    requires Hearable(c, y[0]) && SegmentSpec(c, y[0], c')
    ensures c.out <= c'.out
    ensures Both(c', x + c'.out[|c.out|..], m', net', peer, y[1..], n[1..], peerNet)
  {
    hide SystemInv, OneWay, Represents, Disjoint, Assembler.Valid, Wrap, Unwrap, Inv, Paced, FlagsMove, Emitted, StampAll, Demands,
      Conn.Takes, Conn.Heeds, Conn.Early, Conn.ResetBy, Fills, ReceiveSpec, AckSpec, FillSpec, ConnInv;
    var seg := y[0];
    m', net' := m, net;
    ConnPending(c);
    HearsNothing(c, x, m, net, peer, y, n, peerNet);
    if !c.active || c.ResetBy(seg) {
      assert x + c'.out[|c.out|..] == x;
    } else {
      var mid, segs :| SenderMoves(c, seg, mid, c'.snd, segs) && Outputs(c, seg, segs, c');
      HearsBoth(c, x, m, net, peer, y, n, peerNet, mid, c'.rcv);
      var ackAbs, k := c'.rcv.Expected(), [];
      if Fills(c, seg) {
        FillMoves(mid, x, m, net, peer.rcv, y[1..], n[1..], c'.snd, segs, ackAbs);
        net' := net + FillPackets(mid, segs);
        k := FillNotes(mid, segs, c'.snd, ackAbs);
      } else {
        NothingNoted(net, mid, ackAbs);
      }
      EmittedNoted(c, seg, c'.snd, segs, k, net', ackAbs);
      var e, l := Emitted(c, seg, c'.snd, segs), EmittedNotes(c, seg, c'.snd, segs, k, ackAbs);
      Emission(c'.snd, x, m, net', peer.rcv, y[1..], n[1..], peer.snd, peerNet, c'.rcv, e, l);
      m' := m + l;
      assert c'.out[|c.out|..] == StampAll(e, c'.rcv);
    }
  }

  /** The head is not looked at by either half. */
  lemma HearsNothing(c: Conn, x: seq<Segment>, m: seq<Sent>, net: set<Packet>,
                     peer: Conn, y: seq<Segment>, n: seq<Sent>, peerNet: set<Packet>)
    requires ConnInv(c) && Sum(c.snd.q.sizes) == |c.snd.q.unAcked|
    requires Both(c, x, m, net, peer, y, n, peerNet) && y != [] && Hearable(c, y[0])
    ensures |y| == |n| && Both(c, x, m, net, peer, y[1..], n[1..], peerNet)
  {
    hide ConnInv, SystemInv, Queued, Acks, Represents, Disjoint;
    HeadAcked(c.snd, x, m, net, peer.rcv, y, n, false, c.snd);
    HeadDropped(peer.snd, y, n, peerNet, c.rcv, x, m);
  }

  /** The head goes to the two halves, as far as they take it. */
  lemma HearsBoth(c: Conn, x: seq<Segment>, m: seq<Sent>, net: set<Packet>,
                  peer: Conn, y: seq<Segment>, n: seq<Sent>, peerNet: set<Packet>, mid: Sender, r': Receiver)
    requires ConnInv(c) && Sum(c.snd.q.sizes) == |c.snd.q.unAcked|
    requires Both(c, x, m, net, peer, y, n, peerNet) && y != [] && Hearable(c, y[0])
    requires if c.Heeds(y[0]) then AckSpec(c.snd, y[0].header.ackno, y[0].header.win, mid) else mid == c.snd
    requires if c.Takes(y[0]) then ReceiveSpec(c.rcv, y[0], r') else r' == c.rcv
    ensures OneWay(mid, x, m, net, peer.rcv, y[1..], n[1..])
    ensures OneWay(peer.snd, y[1..], n[1..], peerNet, r', x, m)
  {
    hide OneWay, Represents, Disjoint, Conn.Takes, Conn.Early, ReceiveSpec, AckSpec, Inv, Paced, Assembler.Valid;
    HeadAcked(c.snd, x, m, net, peer.rcv, y, n, c.Heeds(y[0]), mid);
    if c.Takes(y[0]) {
      HeadTaken(peer.snd, y, n, peerNet, c.rcv, x, m, r');
    } else {
      HeadDropped(peer.snd, y, n, peerNet, c.rcv, x, m);
    }
  }

  // -- Calls of the owner --------------------------------------------------------------------------------------------

  /** The window is filled and everything sent. */
  lemma Speaks(c: Conn, x: seq<Segment>, m: seq<Sent>, net: set<Packet>,
               peer: Conn, y: seq<Segment>, n: seq<Sent>, peerNet: set<Packet>, c': Conn)
    returns (m': seq<Sent>, net': set<Packet>)
    requires Both(c, x, m, net, peer, y, n, peerNet) && c.snd.out.Valid() && FillOut(c, c')
    ensures c.out <= c'.out
    ensures Both(c', x + c'.out[|c.out|..], m', net', peer, y, n, peerNet)
  {
    hide OneWay, Represents, Disjoint, FillSpec, StampAll;
    var segs :| FillSpec(c.snd, c'.snd, segs) && c' == c.(snd := c'.snd, pending := [], out := c.out + StampAll(segs, c.rcv));
    var ackAbs := c.rcv.Expected();
    FillMoves(c.snd, x, m, net, peer.rcv, y, n, c'.snd, segs, ackAbs);
    net' := net + FillPackets(c.snd, segs);
    var k := FillNotes(c.snd, segs, c'.snd, ackAbs);
    Emission(c'.snd, x, m, net', peer.rcv, y, n, peer.snd, peerNet, c.rcv, segs, k);
    m' := m + k;
    assert c'.out[|c.out|..] == StampAll(segs, c.rcv);
  }

  lemma WritesIn(c: Conn, x: seq<Segment>, m: seq<Sent>, net: set<Packet>,
                 peer: Conn, y: seq<Segment>, n: seq<Sent>, peerNet: set<Packet>, data: seq<byte>, mid: Sender)
    requires Both(c, x, m, net, peer, y, n, peerNet) && WriteSpec(c.snd, data, mid) && Small(mid, peer.rcv)
    ensures Both(c.(snd := mid), x, m, net, peer, y, n, peerNet)
  {
    hide SystemInv, Queued, Represents, Disjoint, Acks, Assembler.Valid;
    var z := System(c.snd, peer.rcv, net, Acks(y, n));
    AlwaysReady(z);
    TransferSteps.WriteStep(z, data, z.(snd := mid));
    QueuedLater(x, m, net, c.snd, peer.rcv, net, mid);
  }

  lemma EndsIn(c: Conn, x: seq<Segment>, m: seq<Sent>, net: set<Packet>,
               peer: Conn, y: seq<Segment>, n: seq<Sent>, peerNet: set<Packet>)
    requires Both(c, x, m, net, peer, y, n, peerNet)
    ensures Both(c.(snd := EndedSender(c.snd)), x, m, net, peer, y, n, peerNet)
  {
    hide SystemInv, Queued, Represents, Disjoint, Acks, Assembler.Valid;
    var z, mid := System(c.snd, peer.rcv, net, Acks(y, n)), EndedSender(c.snd);
    AlwaysReady(z);
    TransferSteps.EndStep(z, z.(snd := mid));
    QueuedLater(x, m, net, c.snd, peer.rcv, net, mid);
  }

  lemma ReadsOut(c: Conn, x: seq<Segment>, m: seq<Sent>, net: set<Packet>,
                 peer: Conn, y: seq<Segment>, n: seq<Sent>, peerNet: set<Packet>, len: nat, c': Conn)
    requires Both(c, x, m, net, peer, y, n, peerNet) && ReadOutSpec(c, len, c')
    ensures Both(c', x, m, net, peer, y, n, peerNet)
  {
    hide SystemInv, Represents, Disjoint, Acks, Fit, ReadSpec;
    var z := System(peer.snd, c.rcv, peerNet, Acks(x, m));
    AlwaysReady(z);
    TransferSteps.ReadStep(z, len, z.(rcv := c'.rcv));
    BelowNext(z.(rcv := c'.rcv));
    ReadGot(c.rcv, len, c'.rcv);
  }

  lemma ReadGot(r: Receiver, len: nat, r': Receiver)
    requires r.asm.Valid() && r'.asm.Valid() && ReadSpec(r.asm, len, r'.asm)
    ensures forall hi: nat :: Below(r, hi) ==> Below(r', hi)
  {
    hide Represents, Size, Disjoint;
    assert forall p: nat :: Got(r'.asm, p) <==> Got(r.asm, p);
  }

  // -- Time -------------------------------------------------------------------------------------------------------------

  /** Time passes: what is sent again joins the queue, unless the connection gives up. Then all that had
      not been collected is replaced by one RST. */
  lemma Waits(c: Conn, sent: seq<Segment>, m: seq<Sent>, net: set<Packet>,
              peer: Conn, y: seq<Segment>, n: seq<Sent>, peerNet: set<Packet>, rtTimeout: nat, ms: nat, c': Conn)
    returns (m': seq<Sent>, net': set<Packet>)
    requires ConnInv(c) && Both(c, sent + c.out, m, net, peer, y, n, peerNet) && ConnTickSpec(c, rtTimeout, ms, c')
    ensures Both(c', sent + c'.out, m', net', peer, y, n, peerNet)
  {
    hide OneWay, Represents, Disjoint, TickSpec, StampAll, ConnInv, Wrap, TickOutcome;
    m', net' := m, net;
    if c.active {
      var s', segs :| TickSpec(c.snd, ms, s', segs) && c' == TickOutcome(AfterTick(c, ms, s', segs), rtTimeout);
      var c1, x, ackAbs := AfterTick(c, ms, s', segs), sent + c.out, c.rcv.Expected();
      TickMoves(c.snd, x, m, net, peer.rcv, y, n, ms, s', segs, ackAbs);
      net' := net + TickPackets(c.snd, segs);
      var k := TickNotes(c.snd, segs, ackAbs);
      Emission(s', x, m, net', peer.rcv, y, n, peer.snd, peerNet, c.rcv, segs, k);
      m' := m + k;
      assert x + StampAll(segs, c.rcv) == sent + c1.out;
      m' := Outcome(c1, sent, m', net', peer, y, n, peerNet, rtTimeout);
    }
  }

  lemma Outcome(c: Conn, sent: seq<Segment>, m: seq<Sent>, net: set<Packet>,
                peer: Conn, y: seq<Segment>, n: seq<Sent>, peerNet: set<Packet>, rtTimeout: nat)
    returns (m': seq<Sent>)
    requires Both(c, sent + c.out, m, net, peer, y, n, peerNet)
    ensures var c' := TickOutcome(c, rtTimeout); Both(c', sent + c'.out, m', net, peer, y, n, peerNet)
  {
    hide OneWay, Represents, Disjoint, RstNumber, Wrap;
    m' := m;
    if c.snd.t.retransmissions > MAX_RETX_ATTEMPTS {
      m' := Replaced(c, sent, m, net, peer, y, n, peerNet, RstSegment(RstNumber(c)));
    }
  }

  /** All that `c` has not handed over is replaced by one empty segment without acknowledgment. */
  lemma Replaced(c: Conn, sent: seq<Segment>, m: seq<Sent>, net: set<Packet>,
                 peer: Conn, y: seq<Segment>, n: seq<Sent>, peerNet: set<Packet>, seg: Segment)
    returns (m': seq<Sent>)
    requires Both(c, sent + c.out, m, net, peer, y, n, peerNet) && Plain(seg) && !seg.header.ack
    ensures Both(c, sent + [seg], m', net, peer, y, n, peerNet)
  {
    hide SystemInv, Queued, Represents, Disjoint, Acks, Below, Assembler.Valid;
    var l, x := |sent|, sent + c.out;
    QueuedSizes(x, m, net, c.snd, peer.rcv);
    QueuedWithout(x, m, net, c.snd, peer.rcv, l, |x|);
    assert x[..l] + x[|x|..] == sent && m[..l] + m[|x|..] == m[..l];
    BelowNext(System(c.snd, peer.rcv, net, Acks(y, n)));
    var k := Sent(0, c.snd.q.next, 0);
    QueuedMore(sent, m[..l], net, c.snd, peer.rcv, [seg], [k]);
    m' := m[..l] + [k];
    AcksConcat(sent, m[..l], c.out, m[l..]);
    assert m[..l] + m[l..] == m;
    var z := System(peer.snd, c.rcv, peerNet, Acks(x, m));
    LoseLater(z, |Acks(sent, m[..l])|);
    AcksConcat(sent, m[..l], [seg], [k]);
    AcksOne(seg, k);
    assert z.acks[..|Acks(sent, m[..l])|] == Acks(sent + [seg], m');
  }

  // -- Loss -----------------------------------------------------------------------------------------------------------------

  /** One segment under way is lost. */
  lemma Loses(c: Conn, x: seq<Segment>, m: seq<Sent>, net: set<Packet>,
              peer: Conn, y: seq<Segment>, n: seq<Sent>, peerNet: set<Packet>, i: nat)
    requires Both(c, x, m, net, peer, y, n, peerNet) && i < |x|
    ensures |x| == |m| && Both(c, x[..i] + x[i + 1..], m[..i] + m[i + 1..], net, peer, y, n, peerNet)
  {
    hide SystemInv, Queued, Represents, Disjoint, Acks, AckOf, Below, Assembler.Valid;
    QueuedSizes(x, m, net, c.snd, peer.rcv);
    QueuedWithout(x, m, net, c.snd, peer.rcv, i, i + 1);
    var x1, m1, x2, m2 := x[..i], m[..i], x[i + 1..], m[i + 1..];
    AcksConcat(x1, m1, x[i..], m[i..]);
    AcksHead(x[i..], m[i..]);
    AcksConcat(x1, m1, x2, m2);
    assert x1 + x[i..] == x && m1 + m[i..] == m && x[i..][1..] == x2 && m[i..][1..] == m2;
    var z, a := System(peer.snd, c.rcv, peerNet, Acks(x, m)), |Acks(x1, m1)|;
    OneAtMost(x[i], m[i]);
    assert Acks(x, m) == Acks(x1, m1) + AckOf(x[i], m[i]) + Acks(x2, m2);
    if AckOf(x[i], m[i]) == [] {
      assert Acks(x, m) == Acks(x1 + x2, m1 + m2);
    } else {
      LoseOneAck(z, a);
      assert z.acks[..a] + z.acks[a + 1..] == Acks(x1 + x2, m1 + m2);
    }
  }

  lemma OneAtMost(seg: Segment, k: Sent)
    ensures |AckOf(seg, k)| <= 1
  {
  }

  // -- Every step keeps the invariant ---------------------------------------------------------------------------------------

  lemma LinkedBoth(p: Pair, w: Notes)
    ensures Linked(p, w) <==> Both(p.a, p.FromA(), w.m, w.netA, p.b, p.FromB(), w.n, w.netB)
  {
    hide OneWay;
  }

  lemma Relinked(p: Pair, m: seq<Sent>, net: set<Packet>, n: seq<Sent>, peerNet: set<Packet>)
    requires ConnInv(p.a) && ConnInv(p.b) && Both(p.a, p.FromA(), m, net, p.b, p.FromB(), n, peerNet)
    ensures PairInv(p)
  {
    hide ConnInv, Both, Linked;
    LinkedBoth(p, Notes(m, n, net, peerNet));
  }

  lemma ReceiveKeepsPair(p: Pair, p': Pair)
    requires PairInv(p) && Acts(p, Receive, p')
    ensures Acceptable(p.a, p.ba[0])
    ensures PairInv(p')
  {
    hide ConnInv, Both, Linked, SegmentSpec, Acceptable, Represents, Disjoint, Pair.FromA, Pair.FromB;
    var w :| Linked(p, w);
    var x, y, seg := p.FromA(), p.FromB(), p.ba[0];
    LinkedBoth(p, w);
    HeadFirst(p);
    HeadAcceptable(p.a, x, w.m, w.netA, p.b, y, w.n, w.netB);
    ConnSums(p.a);
    AcceptableRoomy(p.a, seg);
    ConnHears(p.a, seg);
    SegmentKeeps(p.a, seg, p'.a);
    var m', net' := Hears(p.a, x, w.m, w.netA, p.b, y, w.n, w.netB, p'.a);
    OutGrown(p, p');
    HeadGone(p, p');
    NoteSizes(p.a, x, w.m, w.netA, p.b, y, w.n, w.netB);
    Relinked(p', m', net', w.n[1..], w.netB);
  }

  lemma NoteSizes(c: Conn, x: seq<Segment>, m: seq<Sent>, net: set<Packet>,
                  peer: Conn, y: seq<Segment>, n: seq<Sent>, peerNet: set<Packet>)
    requires Both(c, x, m, net, peer, y, n, peerNet)
    ensures |x| == |m| && |y| == |n|
  {
    hide SystemInv, Represents, Disjoint, Acks;
  }

  lemma HeadFirst(p: Pair)
    requires p.ba != []
    ensures p.FromB() != [] && p.FromB()[0] == p.ba[0]
  {
  }

  lemma HeadGone(p: Pair, p': Pair)
    requires p.ba != [] && p'.ba == p.ba[1..] && p'.b == p.b
    ensures p'.FromB() == p.FromB()[1..]
  {
  }

  lemma AcceptableRoomy(c: Conn, seg: Segment)
    requires Acceptable(c, seg)
    ensures Roomy(c, seg)
  {
    hide Harmless;
  }

  /** What an end puts out joins the queue from it. */
  lemma OutGrown(p: Pair, p': Pair)
    requires p'.ab == p.ab && p.a.out <= p'.a.out
    ensures p'.FromA() == p.FromA() + p'.a.out[|p.a.out|..]
  {
  }

  lemma SpeakKeepsPair(p: Pair, w: Notes, mid: Sender, p': Pair)
    requires ConnInv(p'.a) && ConnInv(p.b) && p' == p.(a := p'.a) && mid.out.Valid()
    requires Both(p.a.(snd := mid), p.FromA(), w.m, w.netA, p.b, p.FromB(), w.n, w.netB)
    requires FillOut(p.a.(snd := mid), p'.a)
    ensures PairInv(p')
  {
    hide ConnInv, Both, FillOut, Represents, Disjoint, Pair.FromA, Pair.FromB;
    var m', net' := Speaks(p.a.(snd := mid), p.FromA(), w.m, w.netA, p.b, p.FromB(), w.n, w.netB, p'.a);
    OutGrown(p, p');
    SameOther(p, p');
    Relinked(p', m', net', w.n, w.netB);
  }

  lemma SameOther(p: Pair, p': Pair)
    requires p'.b == p.b && p'.ba == p.ba
    ensures p'.FromB() == p.FromB()
  {
  }

  lemma CallKeepsPair(p: Pair, e: ConnEvent, p': Pair)
    requires PairInv(p) && Acts(p, Call(e), p')
    ensures PairInv(p')
  {
    hide ConnInv, Both, Linked, FillOut, ConnTickSpec, ReadSpec, Small, Represents, Disjoint, Pair.FromA, Pair.FromB, WriteSpec, EndedSender;
    var w :| Linked(p, w);
    LinkedBoth(p, w);
    ConnSums(p.a);
    ConnStepInv(p.a, p.rtA, e, p'.a);
    SameOther(p, p');
    var x, y := p.FromA(), p.FromB();
    match e
    case Ticks(ms) =>
      FromAIs(p);
      FromAIs(p');
      var m', net' := Waits(p.a, p.ab, w.m, w.netA, p.b, y, w.n, w.netB, p.rtA, ms, p'.a);
      Relinked(p', m', net', w.n, w.netB);
    case Writes(data) =>
      if data == [] {
        assert p' == p;
      } else {
        var mid :| WriteSpec(p.a.snd, data, mid) && mid.out.Valid() && FillOut(p.a.(snd := mid), p'.a);
        WriteStaysSmall(p.a, data, mid, p'.a, p.b.rcv);
        WritesIn(p.a, x, w.m, w.netA, p.b, y, w.n, w.netB, data, mid);
        SpeakKeepsPair(p, w, mid, p');
      }
    case Ends =>
      EndedValid(p.a.snd);
      EndsIn(p.a, x, w.m, w.netA, p.b, y, w.n, w.netB);
      SpeakKeepsPair(p, w, EndedSender(p.a.snd), p');
    case Connects =>
      assert p.a.(snd := p.a.snd) == p.a;
      SpeakKeepsPair(p, w, p.a.snd, p');
    case Reads(len) =>
      ReadsOut(p.a, x, w.m, w.netA, p.b, y, w.n, w.netB, len, p'.a);
      FromAIs(p);
      FromAIs(p');
      Relinked(p', w.m, w.netA, w.n, w.netB);
  }

  lemma FromAIs(p: Pair)
    ensures p.FromA() == p.ab + p.a.out
  {
  }

  lemma EndedValid(s: Sender)
    requires s.out.Valid()
    ensures EndedSender(s).out.Valid()
  {
  }

  lemma WriteStaysSmall(c: Conn, data: seq<byte>, mid: Sender, c': Conn, r: Receiver)
    requires ConnInv(c) && WriteSpec(c.snd, data, mid) && mid.out.Valid() && FillOut(c.(snd := mid), c') && Small(c'.snd, r)
    ensures Small(mid, r)
  {
    hide ConnInv, FillSpec, StampAll, Represents, Disjoint, Inv;
    ConnPending(c);
    WriteInv(c.snd, data, mid);
    var segs :| FillSpec(mid, c'.snd, segs) && c' == c.(snd := c'.snd, pending := [], out := c.out + StampAll(segs, c.rcv));
    FillInv(mid, c'.snd, segs);
  }

  lemma CollectKeepsPair(p: Pair, k: nat, p': Pair)
    requires PairInv(p) && Acts(p, Act.Collect(k), p')
    ensures PairInv(p')
  {
    hide ConnInv, Both, Linked, OneWay;
    var w :| Linked(p, w);
    LinkedBoth(p, w);
    ConnPending(p.a);
    CollectKeeps(p.a, k);
    assert p'.FromA() == p.FromA();
    assert Both(p'.a, p'.FromA(), w.m, w.netA, p.b, p.FromB(), w.n, w.netB) by {
      SameHalves(p.a, p'.a, p.FromA(), w.m, w.netA, p.b, p.FromB(), w.n, w.netB);
    }
    Relinked(p', w.m, w.netA, w.n, w.netB);
  }

  lemma SameHalves(c: Conn, c': Conn, x: seq<Segment>, m: seq<Sent>, net: set<Packet>,
                   peer: Conn, y: seq<Segment>, n: seq<Sent>, peerNet: set<Packet>)
    requires Both(c, x, m, net, peer, y, n, peerNet) && c'.snd == c.snd && c'.rcv == c.rcv
    ensures Both(c', x, m, net, peer, y, n, peerNet)
  {
    hide OneWay;
  }

  lemma LoseKeepsPair(p: Pair, i: nat, p': Pair)
    requires PairInv(p) && Acts(p, Lose(i), p')
    ensures PairInv(p')
  {
    hide ConnInv, Both, Linked, OneWay;
    var w :| Linked(p, w);
    LinkedBoth(p, w);
    var x := p.FromA();
    Loses(p.a, x, w.m, w.netA, p.b, p.FromB(), w.n, w.netB, i);
    assert p'.FromA() == x[..i] + x[i + 1..];
    Relinked(p', w.m[..i] + w.m[i + 1..], w.netA, w.n, w.netB);
  }

  lemma ActKeepsPair(p: Pair, act: Act, p': Pair)
    requires PairInv(p) && Acts(p, act, p')
    ensures PairInv(p')
  {
    hide PairInv, Acts;
    match act
    case Call(e) => CallKeepsPair(p, e, p');
    case Collect(k) => CollectKeepsPair(p, k, p');
    case Receive => ReceiveKeepsPair(p, p');
    case Lose(i) => LoseKeepsPair(p, i, p');
  }

  lemma StepKeepsPair(p: Pair, e: PairEvent, p': Pair)
    requires PairInv(p) && PairStep(p, e, p')
    ensures PairInv(p')
  {
    hide PairInv, Acts;
    match e
    case First(act) => ActKeepsPair(p, act, p');
    case Second(act) =>
      SwapInv(p);
      ActKeepsPair(p.Swap(), act, p'.Swap());
      SwapInv(p'.Swap());
      assert p'.Swap().Swap() == p';
  }

  lemma {:induction false} PairRunInv(a: Setup, b: Setup, events: seq<PairEvent>, states: seq<Pair>, n: nat)
    requires a.recvCapacity < 0x1_0000 && b.recvCapacity < 0x1_0000
    requires PairRun(Beginning(a, b), events, states) && n <= |events|
    ensures PairInv(states[n])
  {
    hide PairInv, PairStep;
    if n == 0 {
      BeginningInv(a, b);
    } else {
      PairRunInv(a, b, events, states, n - 1);
      StepKeepsPair(states[n - 1], events[n - 1], states[n]);
    }
  }

  // -- What that means -----------------------------------------------------------------------------------------------------------

  /** What `c` writes arrives at `peer` in order and unaltered, ends only as a whole, and is there as a
      whole once `c` has been told so. */
  predicate Delivers(c: Conn, peer: Conn) {
    var sent, got := c.snd.out, peer.rcv.asm.out;
    && got.written <= sent.written
    && (got.ended ==> sent.ended && got.written == sent.written)
    && (c.snd.q.finAcked ==> got.ended)
  }

  lemma SystemDelivers(z: System)
    requires SystemInv(z)
    ensures var sent, got := z.snd.out, z.rcv.asm.out;
            && got.written <= sent.written
            && (got.ended ==> sent.ended && got.written == sent.written)
            && (z.snd.q.finAcked ==> got.ended)
  {
    hide Represents, Size, Disjoint, Wrap, R.Agrees, NetFine, Fitting, WholeEntries, Harmless, Assembler.Valid;
    TransferDelivery.Agrees(z);
  }

  lemma InvDelivers(p: Pair)
    requires PairInv(p)
    ensures Delivers(p.a, p.b)
  {
    hide ConnInv, SystemInv, Queued, Represents, Disjoint, Acks;
    var w :| Linked(p, w);
    SystemDelivers(System(p.a.snd, p.b.rcv, w.netA, Acks(p.FromB(), w.n)));
  }

  lemma InvAccepts(p: Pair)
    requires PairInv(p) && p.ba != []
    ensures Acceptable(p.a, p.ba[0])
  {
    hide ConnInv, Both, Linked, Acceptable, Represents, Disjoint, Pair.FromA, Pair.FromB;
    var w :| Linked(p, w);
    LinkedBoth(p, w);
    HeadFirst(p);
    HeadAcceptable(p.a, p.FromA(), w.m, w.netA, p.b, p.FromB(), w.n, w.netB);
  }

  /** Over every conversation of two connections, whatever their owners do and whatever gets lost: each end
      is in order, every segment that arrives is acceptable, and both streams are delivered. */
  lemma BothWays(a: Setup, b: Setup, events: seq<PairEvent>, states: seq<Pair>, n: nat)
    requires a.recvCapacity < 0x1_0000 && b.recvCapacity < 0x1_0000
    requires PairRun(Beginning(a, b), events, states) && n <= |events|
    ensures var p := states[n];
            && ConnInv(p.a) && ConnInv(p.b)
            && Delivers(p.a, p.b) && Delivers(p.b, p.a)
            && (p.ba != [] ==> Acceptable(p.a, p.ba[0]))
            && (p.ab != [] ==> Acceptable(p.b, p.ab[0]))
  {
    hide ConnInv, Linked, Acceptable, Delivers;
    var p := states[n];
    PairRunInv(a, b, events, states, n);
    SwapInv(p);
    InvDelivers(p);
    InvDelivers(p.Swap());
    if p.ba != [] {
      InvAccepts(p);
    }
    if p.ab != [] {
      InvAccepts(p.Swap());
    }
  }

  /** Both streams have ended, and each has arrived as a whole. */
  predicate Done(c: Conn, peer: Conn) {
    && c.snd.out.ended && peer.rcv.asm.out.ended && peer.rcv.asm.out.written == c.snd.out.written
    && peer.snd.out.ended && c.rcv.asm.out.ended && c.rcv.asm.out.written == peer.snd.out.written
  }

  /** When either end reports TIME_WAIT or CLOSED, all is done both ways. */
  lemma ClosedMeansDone(a: Setup, b: Setup, events: seq<PairEvent>, states: seq<Pair>, n: nat, o: Official)
    requires a.recvCapacity < 0x1_0000 && b.recvCapacity < 0x1_0000
    requires PairRun(Beginning(a, b), events, states) && n <= |events|
    requires o == CLOSED || o == TIME_WAIT
    ensures states[n].a.State() == OfficialState(o) ==> Done(states[n].a, states[n].b)
    ensures states[n].b.State() == OfficialState(o) ==> Done(states[n].b, states[n].a)
  {
    hide PairStep, Conn.State, OfficialState, Acceptable, ConnInv;
    var p := states[n];
    BothWays(a, b, events, states, n);
    EndDone(p.a, p.b, o);
    EndDone(p.b, p.a, o);
  }

  lemma EndDone(c: Conn, peer: Conn, o: Official)
    requires ConnInv(c) && Delivers(c, peer) && Delivers(peer, c) && (o == CLOSED || o == TIME_WAIT)
    ensures c.State() == OfficialState(o) ==> Done(c, peer)
  {
    hide Conn.State, OfficialState, Inv, Paced, Represents, Disjoint, Assembler.Valid;
    NamesMeant(c, o);
  }
}
