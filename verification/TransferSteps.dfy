/** Every step of the joined system keeps its invariant. */
module TransferSteps {
  import opened Machine
  import opened WrappingIntegers
  import opened ByteStreams
  import opened Fragments
  import opened TcpSegments
  import opened Reassembly
  import R = ReassemblyRuns
  import opened TcpReceivers
  import opened SegmentSizes
  import opened TcpSenders
  import opened SenderRuns
  import opened Transfer

  // -- The sending application ---------------------------------------------------------------------

  /** A stream that grows, or ends, leaves everything on the way accurate and every byte received faithful. */
  lemma GrownFine(s: Sender, s': Sender, net: set<Packet>, r: Receiver)
    requires NetFine(s, net) && ReceiverFine(s, r)
    requires s' == s.(out := s'.out) && s'.out.read == s.out.read
    requires s.out.written <= s'.out.written && (s.out.ended ==> s'.out.ended && s'.out.written == s.out.written)
    ensures NetFine(s', net) && ReceiverFine(s', r)
  {
    hide Represents, Size, Disjoint, Wrap, Tracked, Accurate, Assembler.Valid;
    forall pkt | pkt in net
      ensures Accurate(pkt.seg, pkt.abs, s'.isn, s'.out)
    {
      AccurateLater(pkt.seg, pkt.abs, s.isn, s.out, s'.out);
    }
  }

  lemma WriteStep(z: System, data: seq<byte>, z': System)
    requires SystemInv(z) && Ready(z) && Next(z, Transfer.Event.Write(data), z')
    ensures SystemInv(z')
  {
    hide Represents, Size, Disjoint, Wrap, Inv, NetFine, ReceiverFine, WholeEntries, Fitting, OnMark, Receiver.Valid;
    OutValid(z.snd);
    WriteInv(z.snd, data, z'.snd);
    GrownFine(z.snd, z'.snd, z.net, z.rcv);
  }

  lemma OutValid(s: Sender)
    requires Inv(s)
    ensures s.out.Valid()
  {
  }

  lemma EndStep(z: System, z': System)
    requires SystemInv(z) && Ready(z) && Next(z, Transfer.Event.End, z')
    ensures SystemInv(z')
  {
    hide Represents, Size, Disjoint, Wrap, Inv, NetFine, ReceiverFine, WholeEntries, Fitting, OnMark, Receiver.Valid;
    EndInv(z.snd, z'.snd);
    GrownFine(z.snd, z'.snd, z.net, z.rcv);
  }

  // -- The receiving application -------------------------------------------------------------------

  lemma SameGot(q: Queue, a: Assembler, a': Assembler)
    requires a.Valid() && a'.Valid() && WholeEntries(q, a)
    requires a'.Pending() == a.Pending() && a'.Next() == a.Next()
    ensures WholeEntries(q, a')
  {
    hide Represents, Size, Disjoint, Assembler.Valid, InEntry;
    assert forall p: nat :: Got(a', p) <==> Got(a, p);
    forall i: nat | i < |q.sizes|
      ensures WholeEntry(q, a', i)
    {
      assert WholeEntry(q, a, i);
    }
  }

  lemma ReadStep(z: System, len: nat, z': System)
    requires SystemInv(z) && Ready(z) && Next(z, Transfer.Event.Read(len), z')
    ensures SystemInv(z')
  {
    hide Represents, Size, Disjoint, Wrap, Inv, NetFine, SenderFine, OnMark, InEntry, Entry;
    var a, a' := z.rcv.asm, z'.rcv.asm;
    assert a'.Valid() && a'.Pending() == a.Pending() && a'.Next() == a.Next() && a.Limit() <= a'.Limit();
    assert z'.rcv.Expected() == z.rcv.Expected() && z.rcv.Window() <= z'.rcv.Window();
    assert WholeEntries(z'.snd.q, a') by {
      SameGot(z.snd.q, a, a');
    }
  }

  // -- Acknowledgments sent and lost ---------------------------------------------------------------

  lemma LoseAckStep(z: System, i: nat, z': System)
    requires SystemInv(z) && Ready(z) && Next(z, LoseAck(i), z')
    ensures SystemInv(z')
  {
    hide Represents, Size, Disjoint, Wrap, Inv, NetFine, SenderFine, ReceiverFine, WholeEntries, Fitting, AckFine, Receiver.Valid;
    forall j | 0 <= j < |z'.acks|
      ensures z'.acks[j] == z.acks[if j < i then j else j + 1]
    {
    }
  }

  /** The next byte expected lies where a recorded segment begins or ends. */
  lemma ExpectedOnMark(s: Sender, r: Receiver)
    requires SenderFine(s) && ReceiverFine(s, r) && WholeEntries(s.q, r.asm) && r.synRecv
    requires s.q.base <= r.Expected()
    ensures OnMark(s.q, r.Expected())
    ensures r.Expected() <= s.q.next
  {
    hide Represents, Size, Disjoint, Wrap, WholeEntries, Sized, Held, Sum, Assembler.Valid, Assembler.Pending;
    if r.asm.out.ended || !s.q.synAcked || r.Expected() <= s.q.base {
    } else {
      BoundaryAtNext(s, r.asm);
    }
  }

  lemma BoundaryAtNext(s: Sender, a: Assembler)
    requires Inv(s) && s.q.synAcked && a.Valid() && WholeEntries(s.q, a)
    requires a.Next() !in a.Pending()
    requires s.q.base <= a.Next() + 1 && a.Next() <= s.out.read
    ensures OnBoundary(s.q.sizes, a.Next() + 1 - s.q.base) || (s.q.finSent && s.q.finAcked)
  {
    hide Represents, Size, Disjoint, Wrap, Held, Sized, Assembler.Valid;
    if !s.q.finAcked {
      var n := a.Next() + 1 - s.q.base;
      assert n <= Sum(s.q.sizes);
      var i := Locate(s.q.sizes, n, |s.q.sizes|);
      if i < |s.q.sizes| {
        NotInside(s.q, a, i);
      }
    }
  }

  /** The segment in which the `n`-th byte lies, or the boundary on which it is. */
  lemma {:induction false} Locate(sizes: seq<nat>, n: nat, j: nat) returns (i: nat)
    requires j <= |sizes| && n <= Total(sizes, j)
    ensures i <= j && Total(sizes, i) <= n
    ensures Total(sizes, i) == n || (i < j && n < Total(sizes, i + 1))
  {
    if n == Total(sizes, j) {
      i := j;
    } else if n < Total(sizes, j - 1) {
      i := Locate(sizes, n, j - 1);
    } else {
      i := j - 1;
    }
  }

  lemma NotInside(q: Queue, a: Assembler, i: nat)
    requires a.Valid() && WholeEntries(q, a) && i < |q.sizes| && a.Next() !in a.Pending() && q.base >= 1
    ensures !(q.base + Total(q.sizes, i) < a.Next() + 1 < q.base + Total(q.sizes, i + 1))
  {
    hide Represents, Size, Disjoint, Assembler.Valid, Total;
    var first: nat := q.base + Total(q.sizes, i) - 1;
    assert WholeEntry(q, a, i);
    assert !(InEntry(q, i, first) && Got(a, first) && InEntry(q, i, a.Next()));
  }

  lemma SendAckStep(z: System, z': System)
    requires SystemInv(z) && Ready(z) && Next(z, SendAck, z')
    ensures SystemInv(z')
  {
    hide Represents, Size, Disjoint, Wrap, Inv, NetFine, WholeEntries, Fitting, OnMark, Assembler.Valid;
    ExpectedOnMark(z.snd, z.rcv);
    assert z.rcv.ackno == Wrap(z.rcv.Expected(), z.snd.isn);
  }

  // -- Filling the window --------------------------------------------------------------------------

  /** What filling the window does to the record of segments in flight: it only appends to it. */
  ghost predicate Extends(s: Sender, s': Sender) {
    && s'.q.base == s.q.base && s'.q.synAcked == s.q.synAcked && s'.q.win == s.q.win && s'.isn == s.isn
    && s'.out.written == s.out.written && s'.out.ended == s.out.ended
    && s.out.read <= s'.out.read
    && s.q.sizes <= s'.q.sizes
    && s.q.next <= s'.q.next
    && (s.q.synSent ==> s'.q.synSent)
    && (s.q.finSent ==> s'.q == s.q)
  }

  lemma {:induction false} ManyExtends(s: Sender, n: nat)
    requires Inv(s) && s.q.synAcked && !s.q.finSent && s.out.Valid()
    requires forall i :: 0 <= i < n ==> SendMany(s, i).CanSend()
    ensures Extends(s, SendMany(s, n))
    ensures |SendMany(s, n).q.sizes| == |s.q.sizes| + n
  {
    hide Wrap, Inv, Sender.CanSend, Sender.Take, Sender.TakesFin;
    if n > 0 {
      ManyExtends(s, n - 1);
    }
  }

  lemma {:induction false} ManyPrefix(s: Sender, i: nat, n: nat)
    requires s.out.Valid() && i <= n
    ensures SendMany(s, i).q.sizes <= SendMany(s, n).q.sizes
    ensures SendMany(s, i).q.next <= SendMany(s, n).q.next
    ensures SendMany(s, i).q.finSent ==> SendMany(s, n).q.finSent
  {
    hide Wrap, Sender.CanSend, Sender.Take, Sender.TakesFin;
    if i < n {
      ManyPrefix(s, i, n - 1);
    }
  }

  lemma TotalOfPrefix(x: seq<nat>, y: seq<nat>, i: nat)
    requires x <= y && i <= |x|
    ensures Total(x, i) == Total(y, i)
  {
    assert y == x + y[|x|..];
    TotalPrefix(x, y[|x|..], i);
  }

  /** The `i`-th data segment of a burst is recorded as the next entry, at its own number. */
  lemma ManyEntry(s: Sender, i: nat, n: nat)
    requires Inv(s) && s.q.synAcked && !s.q.finSent && s.out.Valid() && i < n
    requires forall j :: 0 <= j < n ==> SendMany(s, j).CanSend()
    ensures var r, q' := SendMany(s, i), SendMany(s, n).q;
            && Entry(q', r.q.next, |r.DataSegment().payload|, |s.q.sizes| + i)
            && r.q.next + |r.DataSegment().payload| <= q'.next
            && (r.DataSegment().header.fin ==> q'.finSent)
            && !r.DataSegment().header.syn
  {
    hide Wrap, Sender.CanSend, Inv, Entry, Sender.AfterData, Sender.DataSegment;
    var r := SendMany(s, i);
    ManyInv(s, i);
    ManyExtends(s, i);
    StillOpen(r);
    OneEntry(r);
    ManyPrefix(s, i + 1, n);
    ManyBase(s, i + 1);
    ManyBase(s, n);
    EntryLater(r.AfterData().q, SendMany(s, n).q, r.q.next, |r.DataSegment().payload|, |s.q.sizes| + i);
  }

  lemma OneEntry(r: Sender)
    requires Inv(r) && r.q.synAcked && !r.q.finSent && r.out.Valid()
    ensures Entry(r.AfterData().q, r.q.next, |r.DataSegment().payload|, |r.q.sizes|)
    ensures r.q.next + |r.DataSegment().payload| <= r.AfterData().q.next
    ensures r.DataSegment().header.fin ==> r.AfterData().q.finSent
    ensures !r.DataSegment().header.syn
  {
    hide Wrap, Sized, Held, Queue.Remain;
    TotalOfPrefix(r.q.sizes, r.AfterData().q.sizes, |r.q.sizes|);
  }

  lemma EntryLater(q: Queue, q': Queue, abs: nat, len: nat, i: nat)
    requires Entry(q, abs, len, i) && q'.base == q.base && q.sizes <= q'.sizes
    ensures Entry(q', abs, len, i)
  {
    TotalOfPrefix(q.sizes, q'.sizes, i);
  }

  lemma ManyBase(s: Sender, n: nat)
    requires s.out.Valid()
    ensures SendMany(s, n).q.base == s.q.base
  {
    hide Wrap, Sender.CanSend, Sender.Take, Sender.TakesFin;
  }

  lemma FillExtends(s: Sender, s': Sender, segs: seq<Segment>)
    requires SenderFine(s) && s.out.Valid() && FillSpec(s, s', segs)
    ensures SenderFine(s') && Extends(s, s')
  {
    hide Wrap, Counted, Sized, Held, Queue.Remain, Sender.SynSegment, Sender.DataSegment, InWindow;
    FillInv(s, s', segs);
    FillInWindow(s, s', segs);
    InvFacts(s);
    if !s.q.synAcked {
      NoEarlyFin(s);
    }
    if s.q.synAcked && !s.q.finSent {
      if s.out.Eof() && s.q.Remain() > 1 {
      } else {
        ManyExtends(s, |segs|);
      }
    }
  }

  /** Before the SYN is acknowledged the window has no space for the FIN. */
  lemma NoEarlyFin(s: Sender)
    requires SenderFine(s) && !s.q.synAcked
    ensures !s.SynCarriesFin() && !s.q.finSent
    ensures s.q.synSent ==> s.q.Remain() <= 1
  {
    hide Wrap, Sum, Queue.Remain;
    ExactSpace(s.q);
    ExactSpace(s.SynQueue());
  }

  lemma TrackedExtends(s: Sender, s': Sender, pkt: Packet)
    requires Extends(s, s') && Tracked(s.q, pkt)
    ensures Tracked(s'.q, pkt)
  {
    hide Entry;
    if pkt.seg.payload != [] && pkt.abs + |pkt.seg.payload| > s.q.base {
      var i: nat :| Entry(s.q, pkt.abs, |pkt.seg.payload|, i);
      EntryLater(s.q, s'.q, pkt.abs, |pkt.seg.payload|, i);
    }
  }

  lemma OldPacketsFine(s: Sender, s': Sender, net: set<Packet>)
    requires NetFine(s, net) && Extends(s, s')
    ensures NetFine(s', net)
  {
    hide Accurate, Tracked;
    forall pkt | pkt in net
      ensures Accurate(pkt.seg, pkt.abs, s'.isn, s'.out) && Tracked(s'.q, pkt)
    {
      AccurateLater(pkt.seg, pkt.abs, s.isn, s.out, s'.out);
      TrackedExtends(s, s', pkt);
    }
  }

  /** Every packet put out by filling the window is accurate and recorded. */
  lemma FillPacketFine(s: Sender, s': Sender, segs: seq<Segment>, i: nat)
    requires SenderFine(s) && s.out.Valid() && FillSpec(s, s', segs) && i < |segs|
    ensures Accurate(segs[i], FillStart(s, i), s.isn, s.out)
    ensures Tracked(s'.q, Packet(FillStart(s, i), segs[i]))
    ensures s.q.base <= FillStart(s, i)
  {
    hide Wrap, Counted, Sized, Held, Queue.Remain, InWindow, Accurate, Sender.DataSegment;
    InvFacts(s);
    if !s.q.synSent {
      NoEarlyFin(s);
      SynInv(s, s.t.Kicked());
    } else if s.out.Eof() && s.q.Remain() > 1 {
      FinInv(s, s.t.Kicked());
    } else {
      BurstAccurate(s, segs, i);
      ManyEntry(s, i, |segs|);
      ManyPrefix(s, 0, i);
    }
  }

  lemma FillNet(s: Sender, s': Sender, segs: seq<Segment>, net: set<Packet>)
    requires SenderFine(s) && s.out.Valid() && FillSpec(s, s', segs) && Extends(s, s') && NetFine(s, net)
    ensures NetFine(s', net + FillPackets(s, segs))
  {
    hide Accurate, Tracked, SenderFine, FillSpec, FillStart;
    OldPacketsFine(s, s', net);
    forall pkt | pkt in FillPackets(s, segs)
      ensures Accurate(pkt.seg, pkt.abs, s'.isn, s'.out) && Tracked(s'.q, pkt)
    {
      var i :| 0 <= i < |segs| && pkt == Packet(FillStart(s, i), segs[i]);
      FillPacketFine(s, s', segs, i);
      AccurateLater(pkt.seg, pkt.abs, s.isn, s.out, s'.out);
    }
  }

  lemma FillFits(s: Sender, s': Sender, segs: seq<Segment>, r: Receiver, net: set<Packet>)
    requires SenderFine(s) && SenderFine(s') && s.out.Valid() && FillSpec(s, s', segs) && Extends(s, s')
    requires ReceiverFine(s, r) && Fitting(net, r.asm.Limit())
    requires s.q.win >= 2 ==> s.q.base + s.q.win <= r.Expected() + r.Window()
    ensures Fitting(net + FillPackets(s, segs), r.asm.Limit())
  {
    hide Inv, FillStart, Represents, Disjoint, Wrap, Assembler.Valid;
    forall pkt | pkt in FillPackets(s, segs)
      ensures pkt.abs + |pkt.seg.payload| <= r.asm.Limit() + 1 || |pkt.seg.payload| <= 1
    {
      var i :| 0 <= i < |segs| && pkt == Packet(FillStart(s, i), segs[i]);
      FillPacketFine(s, s', segs, i);
      if r.asm.out.ended {
        assert s.q.finSent;
      }
    }
  }

  lemma ExtendsReceiver(s: Sender, s': Sender, r: Receiver)
    requires ReceiverFine(s, r) && Extends(s, s')
    ensures ReceiverFine(s', r)
  {
    hide Represents, Size, Disjoint, Wrap, Assembler.Valid, R.Agrees;
  }

  lemma MarkExtends(s: Sender, s': Sender, abs: nat)
    requires Extends(s, s') && OnMark(s.q, abs)
    ensures OnMark(s'.q, abs)
  {
    if abs > s.q.base && s.q.synAcked && OnBoundary(s.q.sizes, abs - s.q.base) {
      var n := abs - s.q.base;
      var i: nat :| i <= |s.q.sizes| && Total(s.q.sizes, i) == n;
      TotalOfPrefix(s.q.sizes, s'.q.sizes, i);
      assert Total(s'.q.sizes, i) == n;
    }
  }

  lemma ExtendsAcks(s: Sender, s': Sender, r: Receiver, acks: seq<AckMsg>)
    requires AcksFine(s, r, acks) && Extends(s, s')
    ensures AcksFine(s', r, acks)
  {
    hide OnMark, Wrap, Represents, Disjoint;
    forall i | 0 <= i < |acks|
      ensures AckFine(s', r, acks[i])
    {
      MarkExtends(s, s', acks[i].abs);
    }
  }

  /** The receiver has nothing yet of the segments just recorded. */
  lemma ExtendsWhole(s: Sender, s': Sender, r: Receiver)
    requires Inv(s) && Inv(s') && Extends(s, s') && ReceiverFine(s, r) && WholeEntries(s.q, r.asm)
    ensures WholeEntries(s'.q, r.asm)
  {
    hide Represents, Size, Disjoint, Wrap, Assembler.Valid, R.Faithful, Sized, Held, Total;
    forall i: nat | i < |s'.q.sizes|
      ensures WholeEntry(s'.q, r.asm, i)
    {
      if i < |s.q.sizes| {
        OldEntryWhole(s, s', r.asm, i);
      } else {
        NewEntryBeyond(s, s', i);
        assert forall p: nat :: InEntry(s'.q, i, p) ==> !Got(r.asm, p);
      }
    }
  }

  lemma OldEntryWhole(s: Sender, s': Sender, a: Assembler, i: nat)
    requires Extends(s, s') && a.Valid() && WholeEntries(s.q, a) && i < |s.q.sizes|
    ensures WholeEntry(s'.q, a, i)
  {
    hide Represents, Size, Disjoint, Assembler.Valid, Total;
    TotalOfPrefix(s.q.sizes, s'.q.sizes, i);
    TotalOfPrefix(s.q.sizes, s'.q.sizes, i + 1);
    assert WholeEntry(s.q, a, i);
    assert forall p: nat :: InEntry(s'.q, i, p) <==> InEntry(s.q, i, p);
  }

  lemma NewEntryBeyond(s: Sender, s': Sender, i: nat)
    requires Inv(s) && Inv(s') && Extends(s, s') && |s.q.sizes| <= i < |s'.q.sizes|
    ensures s.out.read + 1 <= s'.q.base + Total(s'.q.sizes, i)
  {
    hide Sized, Held, Total;
    TotalOfPrefix(s.q.sizes, s'.q.sizes, |s.q.sizes|);
    TotalMonotone(s'.q.sizes, |s.q.sizes|, i);
  }

  lemma FillStep(z: System, segs: seq<Segment>, z': System)
    requires SystemInv(z) && Ready(z) && Next(z, Transfer.Event.Fill(segs), z')
    ensures SystemInv(z')
  {
    hide Represents, Size, Disjoint, Wrap, Inv, NetFine, ReceiverFine, WholeEntries, Fitting, AckFine, Receiver.Valid, FillSpec, FillPackets, InWindow;
    FillExtends(z.snd, z'.snd, segs);
    FillNet(z.snd, z'.snd, segs, z.net);
    FillFits(z.snd, z'.snd, segs, z.rcv, z.net);
    ExtendsReceiver(z.snd, z'.snd, z.rcv);
    ExtendsAcks(z.snd, z'.snd, z.rcv, z.acks);
    ExtendsWhole(z.snd, z'.snd, z.rcv);
  }

  // -- Ticks -----------------------------------------------------------------------------------------

  lemma TickPacketFine(s: Sender, ms: nat, s': Sender, segs: seq<Segment>, i: nat)
    requires SenderFine(s) && s.FrontReady() && TickSpec(s, ms, s', segs) && i < |segs|
    ensures RetransmitStart(s) >= 0
    ensures Accurate(segs[i], RetransmitStart(s), s.isn, s.out)
    ensures Tracked(s.q, Packet(RetransmitStart(s), segs[i]))
    ensures s.q.base <= RetransmitStart(s)
  {
    hide Wrap, Held, Queue.Remain, Accurate, Sum;
    InvFacts(s);
    TickInv(s, ms, s', segs);
    RetransmitAccurate(s);
    if s.RetransmitsSyn() {
      NoEarlyFin(s);
    } else if s.q.unAcked != [] {
      assert Total(s.q.sizes, 0) == 0;
      assert Entry(s.q, s.q.base, s.q.sizes[0], 0);
      FrontFits(s.q.sizes);
    }
  }

  lemma TickStep(z: System, ms: nat, segs: seq<Segment>, z': System)
    requires SystemInv(z) && Ready(z) && Next(z, Transfer.Event.Tick(ms, segs), z')
    ensures SystemInv(z')
  {
    hide Represents, Size, Disjoint, Wrap, Inv, NetFine, ReceiverFine, WholeEntries, Fitting, AckFine, Receiver.Valid, TickSpec, TickPackets, InWindow;
    var s, s' := z.snd, z'.snd;
    TickInv(s, ms, s', segs);
    TickInWindow(s, ms, s', segs);
    TickQueue(s, ms, s', segs);
    assert Extends(s, s');
    OldPacketsFine(s, s', z.net);
    TickNet(s, ms, s', segs, z.net);
    TickFits(s, ms, s', segs, z.rcv, z.net);
    ExtendsReceiver(s, s', z.rcv);
    ExtendsAcks(s, s', z.rcv, z.acks);
    ExtendsWhole(s, s', z.rcv);
  }

  /** In the joined system a retransmission changes no counter. */
  lemma TickQueue(s: Sender, ms: nat, s': Sender, segs: seq<Segment>)
    requires SenderFine(s) && s.FrontReady() && TickSpec(s, ms, s', segs)
    ensures s'.q == s.q && s'.out == s.out && s'.isn == s.isn
  {
    hide Wrap, Inv, Queue.Remain, Sender.RetransmitSegment;
    if !s.q.synAcked {
      NoEarlyFin(s);
    }
  }

  lemma TickNet(s: Sender, ms: nat, s': Sender, segs: seq<Segment>, net: set<Packet>)
    requires SenderFine(s) && s.FrontReady() && TickSpec(s, ms, s', segs) && NetFine(s', net)
    requires s'.q == s.q && s'.out == s.out && s'.isn == s.isn
    ensures NetFine(s', net + TickPackets(s, segs))
  {
    hide Accurate, Tracked, SenderFine, TickSpec;
    forall pkt | pkt in TickPackets(s, segs)
      ensures Accurate(pkt.seg, pkt.abs, s'.isn, s'.out) && Tracked(s'.q, pkt)
    {
      var i :| 0 <= i < |segs| && pkt == Packet(Max(RetransmitStart(s), 0), segs[i]);
      TickPacketFine(s, ms, s', segs, i);
    }
  }

  lemma TickFits(s: Sender, ms: nat, s': Sender, segs: seq<Segment>, r: Receiver, net: set<Packet>)
    requires SenderFine(s) && s.FrontReady() && TickSpec(s, ms, s', segs)
    requires ReceiverFine(s, r) && Fitting(net, r.asm.Limit())
    requires s.q.win >= 2 ==> s.q.base + s.q.win <= r.Expected() + r.Window()
    ensures Fitting(net + TickPackets(s, segs), r.asm.Limit())
  {
    hide Inv, Represents, Disjoint, Wrap, TickSpec, Accurate;
    forall pkt | pkt in TickPackets(s, segs)
      ensures pkt.abs + |pkt.seg.payload| <= r.asm.Limit() + 1 || |pkt.seg.payload| <= 1
    {
      var i :| 0 <= i < |segs| && pkt == Packet(Max(RetransmitStart(s), 0), segs[i]);
      TickPacketFine(s, ms, s', segs, i);
      AccurateEnd(pkt.seg, pkt.abs, s.isn, s.out);
    }
  }

  lemma AccurateEnd(seg: Segment, abs: nat, isn: uint32, out: Stream)
    requires Accurate(seg, abs, isn, out)
    ensures abs + |seg.payload| <= |out.written| + 1
  {
    hide Wrap;
  }
}
