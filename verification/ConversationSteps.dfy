/** Whatever an end of a conversation does, or the network, keeps the invariant of the pair. */
module ConversationSteps {
  import opened Machine
  import opened WrappingIntegers
  import opened Fragments
  import opened TcpSegments
  import opened Reassembly
  import opened TcpReceivers
  import opened SegmentSizes
  import opened TcpSenders
  import opened SenderRuns
  import opened TcpConnections
  import opened ConnectionRuns
  import opened Transfer
  import TransferSteps
  import TransferDelivery
  import opened Conversation

  // -- Queues ------------------------------------------------------------------------------------------------

  lemma QueuedLater(x: seq<Segment>, m: seq<Sent>, net: set<Packet>, s: Sender, r: Receiver, net': set<Packet>, s': Sender)
    requires r.asm.Valid() && Queued(x, m, net, s, r)
    requires net <= net' && s.q.next <= s'.q.next
    ensures Queued(x, m, net', s', r)
  {
    hide Represents, Size, Disjoint, Below, Plain, Core;
  }

  lemma QueuedMore(x: seq<Segment>, m: seq<Sent>, net: set<Packet>, s: Sender, r: Receiver, e: seq<Segment>, k: seq<Sent>)
    requires r.asm.Valid() && Queued(x, m, net, s, r) && |e| == |k| && Below(r, s.q.next)
    requires forall i :: 0 <= i < |e| ==> Fit(e[i], k[i], net, s) && k[i].hi == s.q.next
    ensures Queued(x + e, m + k, net, s, r)
  {
    hide Represents, Size, Disjoint, Below;
    assert forall i :: 0 <= i < |x| ==> m[i].hi <= s.q.next;
  }

  /** Losing segments leaves the others in order. */
  lemma QueuedWithout(x: seq<Segment>, m: seq<Sent>, net: set<Packet>, s: Sender, r: Receiver, i: nat, j: nat)
    requires r.asm.Valid() && Queued(x, m, net, s, r) && i <= j <= |x|
    ensures Queued(x[..i] + x[j..], m[..i] + m[j..], net, s, r)
  {
    hide Represents, Size, Disjoint, Below, Fit;
  }

  /** What has been received was sent before. */
  lemma BelowNext(z: System)
    requires SystemInv(z)
    ensures z.rcv.asm.Valid() && Below(z.rcv, z.snd.q.next)
  {
    hide Represents, Size, Disjoint, Wrap, Sized, Held, Sum, NetFine, WholeEntries, AcksFine, Fitting, Assembler.Valid;
  }

  /** `k` says what is to be known of the segments `e`, not stamped yet, when they are sent now. */
  ghost predicate Noted(e: seq<Segment>, k: seq<Sent>, net: set<Packet>, s: Sender, ackAbs: nat) {
    && |e| == |k|
    && forall i :: 0 <= i < |e| ==>
         && Fit(e[i], k[i], net, s) && k[i].hi == s.q.next && k[i].ackAbs == ackAbs
         && !e[i].header.ack && !e[i].header.rst
  }

  lemma FitStamped(seg: Segment, k: Sent, net: set<Packet>, s: Sender, r: Receiver)
    requires Fit(seg, k, net, s)
    ensures Fit(Stamp(seg, r), k, net, s)
  {
    assert Core(Stamp(seg, r)) == Core(seg);
  }

  /** Segments are stamped and join the queue: the one direction has data more under way, the other acknowledgments. */
  lemma Emission(s: Sender, x: seq<Segment>, m: seq<Sent>, net: set<Packet>, r: Receiver, y: seq<Segment>, n: seq<Sent>,
                 peer: Sender, peerNet: set<Packet>, here: Receiver, e: seq<Segment>, k: seq<Sent>)
    requires OneWay(s, x, m, net, r, y, n) && OneWay(peer, y, n, peerNet, here, x, m)
    requires Noted(e, k, net, s, here.Expected())
    ensures OneWay(s, x + StampAll(e, here), m + k, net, r, y, n)
    ensures OneWay(peer, y, n, peerNet, here, x + StampAll(e, here), m + k)
  {
    hide SystemInv, Represents, Disjoint, Below, StampAll, Stamp, Queued, Acks, Assembler.Valid;
    BelowNext(System(s, r, net, Acks(y, n)));
    var t := StampAll(e, here);
    forall i | 0 <= i < |t|
      ensures Fit(t[i], k[i], net, s)
    {
      FitStamped(e[i], k[i], net, s, here);
    }
    QueuedMore(x, m, net, s, r, t, k);
    var z := System(peer, here, peerNet, Acks(x, m));
    WindowFits(z);
    AcksStamped(e, k, here);
    SendAcks(z, Acks(t, k));
    QueuedSizes(x, m, net, s, r);
    AcksConcat(x, m, t, k);
  }

  lemma QueuedSizes(x: seq<Segment>, m: seq<Sent>, net: set<Packet>, s: Sender, r: Receiver)
    requires r.asm.Valid() && Queued(x, m, net, s, r)
    ensures |x| == |m|
  {
  }

  // -- The sender moves --------------------------------------------------------------------------------------------

  ghost function FillNotes(s: Sender, segs: seq<Segment>, s': Sender, ackAbs: nat): (k: seq<Sent>)
    requires s.out.Valid()
    ensures |k| == |segs| && forall i :: 0 <= i < |k| ==> k[i] == Sent(FillStart(s, i), s'.q.next, ackAbs)
  {
    seq(|segs|, i requires 0 <= i => Sent(FillStart(s, i), s'.q.next, ackAbs))
  }

  /** What filling puts out comes without acknowledgment. */
  lemma FillBlank(s: Sender, s': Sender, segs: seq<Segment>, i: nat)
    requires s.out.Valid() && FillSpec(s, s', segs) && i < |segs|
    ensures Core(segs[i]) == segs[i] && !segs[i].header.rst
  {
    hide Wrap, Queue.Remain, Sender.Take, Sender.TakesFin, Sender.CanSend;
  }

  lemma FillStartsLate(s: Sender, i: nat)
    requires Inv(s) && s.out.Valid()
    ensures s.q.base <= FillStart(s, i)
  {
    hide Wrap, Sized, Held, Sum;
    TransferSteps.ManyPrefix(s, 0, i);
  }

  lemma WindowWidth(z: System)
    requires SystemInv(z)
    ensures Inv(z.snd) && z.snd.out.Valid() && z.snd.q.next < z.snd.q.base + 0x1_0000
    ensures z.snd.q.base <= z.rcv.asm.Next() + 2
  {
    hide Represents, Size, Disjoint, Wrap, Inv, NetFine, WholeEntries, ReceiverFine, Fitting, AckFine, Assembler.Valid;
    InvFacts(z.snd);
  }

  lemma PacketTracked(z: System, pkt: Packet)
    requires SystemInv(z) && pkt in z.net
    ensures Accurate(pkt.seg, pkt.abs, z.snd.isn, z.snd.out) && Tracked(z.snd.q, pkt)
    ensures pkt.abs + |pkt.seg.payload| <= z.snd.q.next && |pkt.seg.payload| <= MAX_PAYLOAD_SIZE
  {
    hide Represents, Size, Disjoint, Wrap, Inv, WholeEntries, ReceiverFine, Fitting, AcksFine;
  }

  lemma FillMoves(s: Sender, x: seq<Segment>, m: seq<Sent>, net: set<Packet>, r: Receiver, y: seq<Segment>, n: seq<Sent>,
                  s': Sender, segs: seq<Segment>, ackAbs: nat)
    requires OneWay(s, x, m, net, r, y, n) && s.out.Valid() && FillSpec(s, s', segs)
    ensures OneWay(s', x, m, net + FillPackets(s, segs), r, y, n)
    ensures Noted(segs, FillNotes(s, segs, s', ackAbs), net + FillPackets(s, segs), s', ackAbs)
  {
    hide SystemInv, FillSpec, Represents, Disjoint, Queued, Acks, FillStart, Assembler.Valid, Core, Plain, Wrap, Accurate, Tracked, Inv;
    var z := System(s, r, net, Acks(y, n));
    var net' := net + FillPackets(s, segs);
    var z' := System(s', r, net', Acks(y, n));
    AlwaysReady(z);
    TransferSteps.FillStep(z, segs, z');
    FillGrows(s, s', segs);
    QueuedLater(x, m, net, s, r, net', s');
    WindowWidth(z);
    WindowWidth(z');
    FillInv(s, s', segs);
    var k := FillNotes(s, segs, s', ackAbs);
    forall i | 0 <= i < |segs|
      ensures Fit(segs[i], k[i], net', s') && !segs[i].header.ack && !segs[i].header.rst
    {
      FillBlank(s, s', segs, i);
      FillStartsLate(s, i);
      assert Packet(FillStart(s, i), segs[i]) in FillPackets(s, segs);
      PacketTracked(z', Packet(FillStart(s, i), segs[i]));
      assert !segs[i].header.ack by { CoreBlank(segs[i]); }
    }
  }

  lemma CoreBlank(seg: Segment)
    requires Core(seg) == seg
    ensures !seg.header.ack
  {
  }

  ghost function TickNotes(s: Sender, segs: seq<Segment>, ackAbs: nat): (k: seq<Sent>)
    ensures |k| == |segs| && forall i :: 0 <= i < |k| ==> k[i] == Sent(Max(RetransmitStart(s), 0), s.q.next, ackAbs)
  {
    seq(|segs|, i => Sent(Max(RetransmitStart(s), 0), s.q.next, ackAbs))
  }

  lemma TickBlank(s: Sender, ms: nat, s': Sender, segs: seq<Segment>, i: nat)
    requires s.FrontReady() && TickSpec(s, ms, s', segs) && i < |segs|
    ensures Core(segs[i]) == segs[i] && !segs[i].header.rst
  {
    hide Wrap, Queue.Remain;
  }

  lemma TickMoves(s: Sender, x: seq<Segment>, m: seq<Sent>, net: set<Packet>, r: Receiver, y: seq<Segment>, n: seq<Sent>,
                  ms: nat, s': Sender, segs: seq<Segment>, ackAbs: nat)
    requires OneWay(s, x, m, net, r, y, n) && s.FrontReady() && TickSpec(s, ms, s', segs)
    ensures OneWay(s', x, m, net + TickPackets(s, segs), r, y, n)
    ensures Noted(segs, TickNotes(s, segs, ackAbs), net + TickPackets(s, segs), s', ackAbs)
  {
    hide SystemInv, TickSpec, Represents, Disjoint, Queued, Acks, Assembler.Valid, Core, Plain, Wrap, Accurate, Tracked, Inv, RetransmitStart;
    var z := System(s, r, net, Acks(y, n));
    var net' := net + TickPackets(s, segs);
    var z' := System(s', r, net', Acks(y, n));
    AlwaysReady(z);
    TransferSteps.TickStep(z, ms, segs, z');
    FineSender(z);
    TransferSteps.TickQueue(s, ms, s', segs);
    QueuedLater(x, m, net, s, r, net', s');
    WindowWidth(z);
    var k := TickNotes(s, segs, ackAbs);
    forall i | 0 <= i < |segs|
      ensures Fit(segs[i], k[i], net', s') && !segs[i].header.ack && !segs[i].header.rst
    {
      TickBlank(s, ms, s', segs, i);
      TransferSteps.TickPacketFine(s, ms, s', segs, i);
      assert Packet(Max(RetransmitStart(s), 0), segs[i]) in TickPackets(s, segs);
      PacketTracked(z', Packet(Max(RetransmitStart(s), 0), segs[i]));
      assert !segs[i].header.ack by { CoreBlank(segs[i]); }
    }
  }

  lemma FineSender(z: System)
    requires SystemInv(z)
    ensures SenderFine(z.snd) && z.snd.FrontReady()
  {
    hide Represents, Size, Disjoint, Wrap, Inv, NetFine, WholeEntries, ReceiverFine, Fitting, AcksFine;
    InvFacts(z.snd);
  }

  // -- A segment arrives: its data ---------------------------------------------------------------------------------------

  /** An empty segment leaves the receiver as it is. */
  lemma PlainIgnored(r: Receiver, seg: Segment, r': Receiver)
    requires r.Valid() && r.Spacious(|seg.payload|) && ReceiveSpec(r, seg, r') && Plain(seg)
    ensures r' == r
  {
    hide Wrap, Unwrap, Represents, Disjoint, DrainSpec, Assembler.Merged, Assembler.Dropped;
  }

  /** The receiver does not look at the acknowledgment. */
  lemma CoreReceived(r: Receiver, seg: Segment, r': Receiver)
    requires r.Valid() && r.Spacious(|seg.payload|) && ReceiveSpec(r, seg, r')
    ensures ReceiveSpec(r, Core(seg), r')
  {
    hide Wrap, Unwrap, Represents, Disjoint, PushSpec;
  }

  /** Order keeps segments within reach of the receiver. */
  lemma HeadReachable(z: System, seg: Segment, k: Sent)
    requires SystemInv(z) && Fit(seg, k, z.net, z.snd) && !Plain(seg) && z.rcv.asm.Valid() && Below(z.rcv, k.hi)
    ensures Reachable(k.abs, z.rcv.asm.Next())
  {
    hide SystemInv, Represents, Disjoint, Plain, Core, Assembler.Valid;
    WindowWidth(z);
    var next := z.rcv.asm.Next();
    assert next == 0 || Got(z.rcv.asm, next - 1);
  }

  /** Only the bytes of a push can be new. */
  lemma PushGot(a: Assembler, data: seq<byte>, index: uint64, eof: bool, a': Assembler)
    requires a.Valid() && a'.Valid() && PushSpec(a, data, index, eof, a')
    ensures forall p: nat :: Got(a', p) ==> Got(a, p) || index <= p < index + |data|
  {
    hide Represents, Size, Disjoint, Assembler.Valid, Assembler.Dropped, Assembler.NewIndex, Assembler.Fresh;
    TransferDelivery.FreshRange(a, index, data);
    forall p: nat | Got(a', p)
      ensures Got(a, p) || index <= p < index + |data|
    {
      if data != [] && !a.out.ended && !Got(a, p) {
        assert p in a.Merged(index, data);
      }
    }
  }

  lemma DeliveredBelow(z: System, pkt: Packet, r': Receiver, hi: nat)
    requires SystemInv(z) && pkt in z.net && z.rcv.Valid() && z.rcv.Spacious(|pkt.seg.payload|)
    requires !pkt.seg.header.syn ==> Reachable(pkt.abs, z.rcv.asm.Next())
    requires ReceiveSpec(z.rcv, pkt.seg, r') && r'.Valid()
    requires Below(z.rcv, hi) && pkt.abs + |pkt.seg.payload| <= hi
    ensures Below(r', hi)
  {
    hide SystemInv, Represents, Disjoint, Assembler.Valid, PushSpec, Accurate, Tracked, Wrap, Unwrap, Got;
    PacketTracked(z, pkt);
    SpaciousNext(z);
    if !z.rcv.Ignores(pkt.seg) {
      var index := z.rcv.IndexOf(pkt.seg);
      PacketIndex(z, pkt);
      PushGot(z.rcv.asm, pkt.seg.payload, index, pkt.seg.header.fin, r'.asm);
    }
  }

  lemma SpaciousNext(z: System)
    requires SystemInv(z)
    ensures z.rcv.Valid() && z.rcv.asm.Next() + TWO31 < TWO63 && z.rcv.Spacious(MAX_PAYLOAD_SIZE)
    ensures z.snd.q.base + TWO31 < TWO63 && z.snd.q.next < TWO63
  {
    hide Represents, Size, Disjoint, Wrap, Sized, Held, Sum, NetFine, WholeEntries, AcksFine, Fitting;
  }

  lemma PacketIndex(z: System, pkt: Packet)
    requires SystemInv(z) && pkt in z.net && z.rcv.asm.Next() + TWO31 < TWO63 && z.snd.q.next < TWO63
    requires !pkt.seg.header.syn ==> Reachable(pkt.abs, z.rcv.asm.Next()) && z.rcv.synRecv
    ensures pkt.seg.payload != [] ==> pkt.abs == z.rcv.IndexOf(pkt.seg) + 1
  {
    hide SystemInv, Represents, Disjoint, Wrap, Unwrap, Tracked;
    PacketTracked(z, pkt);
    if !pkt.seg.header.syn {
      SameIsn(z);
      TransferDelivery.DeliveredIndex(z.snd, z.rcv, pkt);
    }
  }

  lemma SameIsn(z: System)
    requires SystemInv(z) && z.rcv.synRecv
    ensures z.rcv.isn == z.snd.isn
  {
    hide Represents, Size, Disjoint, Wrap, Inv, NetFine, WholeEntries, AcksFine, Fitting, Assembler.Valid;
  }

  /** The segment at the head of the queue is received. */
  lemma HeadTaken(s: Sender, x: seq<Segment>, m: seq<Sent>, net: set<Packet>, r: Receiver, y: seq<Segment>, n: seq<Sent>, r': Receiver)
    requires OneWay(s, x, m, net, r, y, n) && x != [] && r.Valid() && r.Spacious(|x[0].payload|) && ReceiveSpec(r, x[0], r')
    ensures OneWay(s, x[1..], m[1..], net, r', y, n)
  {
    hide SystemInv, Represents, Disjoint, Assembler.Valid, ReceiveSpec, Below, Acks, Core, Plain, Wrap, Unwrap;
    var z, k := System(s, r, net, Acks(y, n)), m[0];
    TcpReceivers.StepValid(r, TcpReceivers.Event.Arrive(x[0]), r');
    if Plain(x[0]) {
      PlainIgnored(r, x[0], r');
    } else {
      var pkt := Packet(k.abs, Core(x[0]));
      HeadReachable(z, x[0], k);
      CoreReceived(r, x[0], r');
      AlwaysReady(z);
      SamePayload(x[0]);
      TransferDelivery.DeliverStep(z, pkt, z.(rcv := r'));
      forall i | 1 <= i < |m|
        ensures Below(r', m[i].hi)
      {
        DeliveredBelow(z, pkt, r', m[i].hi);
      }
    }
  }

  lemma SamePayload(seg: Segment)
    ensures Core(seg).payload == seg.payload && Core(seg).header.syn == seg.header.syn
  {
  }

  /** The segment at the head of the queue is not looked at. */
  lemma HeadDropped(s: Sender, x: seq<Segment>, m: seq<Sent>, net: set<Packet>, r: Receiver, y: seq<Segment>, n: seq<Sent>)
    requires OneWay(s, x, m, net, r, y, n) && x != []
    ensures OneWay(s, x[1..], m[1..], net, r, y, n)
  {
    hide SystemInv, Represents, Disjoint, Assembler.Valid, Acks;
    QueuedWithout(x, m, net, s, r, 0, 1);
    assert x[..0] + x[1..] == x[1..] && m[..0] + m[1..] == m[1..];
  }

  // -- A segment arrives: its acknowledgment ----------------------------------------------------------------------------------

  /** Every acknowledgment that arrives is one that the sender handles as meant. */
  lemma HeadHarmless(s: Sender, x: seq<Segment>, m: seq<Sent>, net: set<Packet>, r: Receiver, y: seq<Segment>, n: seq<Sent>)
    requires OneWay(s, x, m, net, r, y, n) && y != [] && y[0].header.ack
    ensures s.q.base + TWO31 < TWO63 && Harmless(s.q, AbsoluteAck(s, y[0].header.ackno))
  {
    hide SystemInv, Represents, Disjoint, Queued, Assembler.Valid, Acks, Harmless, Wrap, Unwrap;
    AcksHead(y, n);
    FirstHarmless(System(s, r, net, Acks(y, n)));
  }

  lemma FirstHarmless(z: System)
    requires SystemInv(z) && z.acks != []
    ensures z.snd.q.base + TWO31 < TWO63 && Harmless(z.snd.q, AbsoluteAck(z.snd, z.acks[0].ackno))
  {
    hide Wrap, Unwrap, Represents, Disjoint, NetFine, Fitting, WholeEntries, OnMark, Harmless, Sized, Held, Sum, Assembler.Valid;
    TransferSteps.ExpectedOnMark(z.snd, z.rcv);
    assert AckFine(z.snd, z.rcv, z.acks[0]);
    AlwaysReady(z);
    TransferDelivery.AckMeant(z.snd, z.rcv, z.acks[0]);
  }

  /** The acknowledgment at the head of the queue is handled, or ignored. */
  lemma HeadAcked(s: Sender, x: seq<Segment>, m: seq<Sent>, net: set<Packet>, r: Receiver, y: seq<Segment>, n: seq<Sent>,
                  heeded: bool, mid: Sender)
    requires OneWay(s, x, m, net, r, y, n) && y != []
    requires s.q.base + TWO31 < TWO63 && Sum(s.q.sizes) == |s.q.unAcked|
    requires if heeded then y[0].header.ack && AckSpec(s, y[0].header.ackno, y[0].header.win, mid) else mid == s
    ensures OneWay(mid, x, m, net, r, y[1..], n[1..])
  {
    hide SystemInv, Represents, Disjoint, Queued, Assembler.Valid, Acks, Harmless, Wrap, Unwrap, AckSpec, Sum;
    AcksHead(y, n);
    var z := System(s, r, net, Acks(y, n));
    if heeded {
      AlwaysReady(z);
      assert Acks(y, n)[1..] == Acks(y[1..], n[1..]);
      TransferDelivery.DeliverAckStep(z, System(mid, r, net, Acks(y[1..], n[1..])));
      AckMovesNothing(s, y[0].header.ackno, y[0].header.win, mid);
      QueuedLater(x, m, net, s, r, net, mid);
    } else if y[0].header.ack {
      LoseOneAck(z, 0);
      assert z.acks[..0] + z.acks[1..] == Acks(y[1..], n[1..]);
    } else {
      assert Acks(y, n) == Acks(y[1..], n[1..]);
    }
  }
}
