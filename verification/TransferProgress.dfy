/** One undisturbed round trip makes progress. */
module TransferProgress {
  import opened Machine
  import opened WrappingIntegers
  import opened Fragments
  import opened TcpSegments
  import opened Reassembly
  import R = ReassemblyRuns
  import opened TcpReceivers
  import opened SegmentSizes
  import opened TcpSenders
  import opened SenderRuns
  import opened SenderDuties
  import opened Transfer
  import TransferSteps
  import TransferDelivery

  /** The receiver has room for what the sender would send again. */
  predicate HasRoom(z: System) {
    z.snd.q.unAcked != [] && z.snd.q.sizes != [] ==> z.snd.q.base - 1 + z.snd.q.sizes[0] <= z.rcv.asm.Limit()
  }

  /** What a delivered retransmission leads to: the receiver then expects something behind it. */
  lemma RetransmissionTaken(z: System, ms: nat, segs: seq<Segment>, z1: System, z2: System)
    requires SystemInv(z) && Ready(z) && Due(z.snd.t, ms) && HasRoom(z)
    requires Next(z, Transfer.Event.Tick(ms, segs), z1) && SystemInv(z1) && Ready(z1)
    requires segs != [] && Next(z1, Deliver(Packet(z.snd.q.base, segs[0])), z2) && SystemInv(z2)
    ensures z1.snd.q == z.snd.q && z2.snd == z1.snd && z2.acks == z.acks
    ensures z2.rcv.synRecv && z.snd.q.base < z2.rcv.Expected()
  {
    hide Wrap, Unwrap, SystemInv, TickSpec, ReceiveSpec, Represents, Disjoint, Assembler.Valid, Inv, SenderFine, ReceiverFine, Receiver.Valid;
    var s, seg := z.snd, segs[0];
    FineEnds(z);
    FineEnds(z2);
    DueFacts(s);
    TransferSteps.TickQueue(s, ms, z1.snd, segs);
    TimeoutSends(s, ms, z1.snd, segs);
    ClockApart(z2.snd, s, z2.rcv);
    if s.q.unAcked != [] {
      DataTaken(z.snd, z.rcv, seg, z2.rcv);
    } else if seg.header.syn {
      SynTaken(z.snd, z.rcv, seg, z2.rcv);
    } else {
      FinTaken(z.snd, z.rcv, seg, z2.rcv);
    }
  }

  /** The clock plays no part in what is known of the receiver. */
  lemma ClockApart(s: Sender, s': Sender, r: Receiver)
    requires ReceiverFine(s, r) && s'.q == s.q && s'.out == s.out && s'.isn == s.isn
    ensures ReceiverFine(s', r)
  {
    hide Represents, Size, Disjoint, Wrap, Assembler.Valid, R.Faithful, Tidy;
  }

  lemma FineEnds(z: System)
    requires SystemInv(z)
    ensures SenderFine(z.snd) && z.snd.FrontReady() && ReceiverFine(z.snd, z.rcv) && Inv(z.snd) && z.rcv.Valid()
    ensures z.snd.q.base <= (if z.rcv.synRecv then z.rcv.Expected() else 0)
    ensures z.rcv.Spacious(MAX_PAYLOAD_SIZE) && z.rcv.asm.Next() + TWO31 < TWO63 && z.snd.q.base < TWO63
    ensures z.snd.q.next < z.snd.q.base + 0x1_0000
  {
    hide Represents, Size, Disjoint, Wrap, Sized, Held, Sum, NetFine, WholeEntries, AckFine, Fitting;
    InvFacts(z.snd);
  }

  /** The first bytes in flight, when they arrive and there is room, are written -- or have been. */
  lemma DataTaken(s: Sender, r: Receiver, seg: Segment, r': Receiver)
    requires SenderFine(s) && Inv(s) && ReceiverFine(s, r) && ReceiverFine(s, r') && s.q.unAcked != [] && s.q.sizes != []
    requires s.q.base <= (if r.synRecv then r.Expected() else 0) && r.asm.Next() + TWO31 < TWO63 && s.q.base < TWO63
    requires r.Valid() && r.Spacious(|seg.payload|) && ReceiveSpec(r, seg, r')
    requires var base, n := s.q.base, s.q.sizes[0];
             && n > 0 && 1 <= base && base - 1 + n <= |s.out.written|
             && seg.header.seqno == Wrap(base, s.isn) && !seg.header.syn && |seg.payload| == n
             && base - 1 + n <= r.asm.Limit()
             && Reachable(base, r.asm.Next())
    ensures r'.synRecv && s.q.base < r'.Expected()
  {
    hide Wrap, Unwrap, PushSpec, Represents, Disjoint, Inv, Assembler.Valid, R.Agrees;
    var a, a', index := r.asm, r'.asm, s.q.base - 1;
    IndexExact(r, seg, s.q.base);
    if a'.out.ended {
      assert a'.Next() == |s.out.written|;
    } else if !a.out.ended {
      TransferDelivery.PushInWindow(a, seg.payload, index, seg.header.fin, a');
      NextBehind(r, seg, r', index);
    } else {
      EndStays(r, seg, r');
    }
  }

  lemma EndStays(r: Receiver, seg: Segment, r': Receiver)
    requires r.Valid() && r.Spacious(|seg.payload|) && ReceiveSpec(r, seg, r') && r.asm.out.ended
    ensures r'.asm.out.ended
  {
    hide Wrap, Unwrap, Represents, Disjoint, Assembler.Valid, DrainSpec, Assembler.Merged, Assembler.Dropped;
  }

  lemma NextBehind(r: Receiver, seg: Segment, r': Receiver, index: nat)
    requires r.Valid() && r.Spacious(|seg.payload|) && ReceiveSpec(r, seg, r') && r'.asm.Valid() && seg.payload != []
    requires Tidy(r'.asm) && TransferDelivery.Grown(r.asm, index, |seg.payload|, r'.asm, true) && index <= r.asm.Next()
    ensures index < r'.asm.Next()
  {
    hide Wrap, Unwrap, ReceiveSpec, Represents, Disjoint, Assembler.Valid;
    TcpReceivers.StepMonotone(r, Arrive(seg), r');
    assert Got(r'.asm, index);
  }

  lemma SynTaken(s: Sender, r: Receiver, seg: Segment, r': Receiver)
    requires SenderFine(s) && !s.q.synAcked && seg.header.syn
    requires Inv(s) && r.Valid() && r.Spacious(|seg.payload|) && ReceiveSpec(r, seg, r')
    ensures r'.synRecv && s.q.base < r'.Expected()
  {
    hide Wrap, Unwrap, PushSpec, Represents, Disjoint, Assembler.Valid, Sized, Held, Sum;
  }

  lemma FinTaken(s: Sender, r: Receiver, seg: Segment, r': Receiver)
    requires SenderFine(s) && Inv(s) && ReceiverFine(s, r) && ReceiverFine(s, r')
    requires s.q.unAcked == [] && s.q.finSent && !s.q.finAcked
    requires s.q.base <= (if r.synRecv then r.Expected() else 0)
    requires seg.payload == [] && seg.header.fin && !seg.header.syn && seg.header.seqno == Wrap(s.q.next - 1, s.isn)
    requires r.asm.Next() + TWO31 < TWO63 && s.q.base < TWO63 && Reachable(s.q.base, r.asm.Next())
    requires r.Valid() && r.Spacious(0) && ReceiveSpec(r, seg, r')
    ensures r'.synRecv && s.q.base < r'.Expected()
  {
    hide Wrap, Unwrap, Represents, Disjoint, Assembler.Valid, Sized, Held, R.Agrees, Assembler.Merged, Assembler.Dropped, DrainSpec;
    assert s.q.next == s.q.base + 1;
    IndexExact(r, seg, s.q.base);
  }

  /** Progress: from any state in which the timer runs and no acknowledgment is under way, let the timeout be
      reached, what is sent again arrive where there is room, and its acknowledgment come back. Then something
      new has been acknowledged. */
  lemma RoundTripAdvances(z: System, ms: nat, segs: seq<Segment>, z1: System, z2: System, z3: System, z4: System)
    requires SystemInv(z) && z.acks == [] && Due(z.snd.t, ms) && HasRoom(z)
    requires Next(z, Transfer.Event.Tick(ms, segs), z1)
    requires segs != [] ==> Next(z1, Deliver(Packet(z.snd.q.base, segs[0])), z2)
    requires Next(z2, SendAck, z3) && Next(z3, DeliverAck, z4)
    ensures segs != [] && z.snd.q.base < z4.snd.q.base
  {
    hide SystemInv, Next, TickSpec, Represents, Disjoint, Inv, Wrap, Unwrap;
    AlwaysReady(z);
    TransferDelivery.StepInv(z, Transfer.Event.Tick(ms, segs), z1);
    TimeoutSpeaks(z, ms, segs, z1);
    AlwaysReady(z1);
    TransferDelivery.StepInv(z1, Deliver(Packet(z.snd.q.base, segs[0])), z2);
    AlwaysReady(z2);
    TransferDelivery.StepInv(z2, SendAck, z3);
    AlwaysReady(z3);
    TransferDelivery.StepInv(z3, DeliverAck, z4);
    RetransmissionTaken(z, ms, segs, z1, z2);
    AckTaken(z2, z3, z4);
  }

  lemma TimeoutSpeaks(z: System, ms: nat, segs: seq<Segment>, z1: System)
    requires SystemInv(z) && Ready(z) && Next(z, Transfer.Event.Tick(ms, segs), z1) && Due(z.snd.t, ms)
    ensures segs != []
  {
    hide SystemInv, TickSpec, Wrap, Inv, Represents, Disjoint;
    FineEnds(z);
    TimeoutSends(z.snd, ms, z1.snd, segs);
  }

  /** An acknowledgment of everything expected moves the base there. */
  lemma AckTaken(z2: System, z3: System, z4: System)
    requires SystemInv(z2) && Ready(z2) && z2.acks == [] && Next(z2, SendAck, z3)
    requires SystemInv(z3) && Ready(z3) && Next(z3, DeliverAck, z4)
    ensures z4.snd.q.base == Max(z2.snd.q.base, z2.rcv.Expected())
  {
    hide Wrap, Unwrap, Represents, Disjoint, NetFine, Fitting, WholeEntries, OnMark, Harmless, Sized, Held, Sum, Assembler.Valid, AckSpec, R.Faithful;
    var s, r, m := z3.snd, z3.rcv, z3.acks[0];
    assert AckFine(s, r, m);
    TransferSteps.ExpectedOnMark(s, r);
    TransferDelivery.AckMeant(s, r, m);
    AckInv(s, m.ackno, m.window, z4.snd);
  }
}
