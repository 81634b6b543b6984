/** Delivering a data segment, or an acknowledgment, keeps the invariant of the joined system. */
module TransferDelivery {
  import opened Machine
  import opened WrappingIntegers
  import opened ByteStreams
  import opened Fragments
  import opened TcpSegments
  import opened Reassembly
  import R = ReassemblyRuns
  import opened TcpReceivers
  import opened SegmentSizes
  import opened TcpSenders
  import opened SenderRuns
  import opened Transfer
  import TransferSteps

  // -- What a push does to the set of bytes received -----------------------------------------------

  /** All bytes received, written or waiting. */
  ghost function Everything(a: Assembler): map<nat, byte>
    requires a.Valid()
  {
    (map p | p in Interval(0, a.Next()) :: a.out.written[p]) + a.Pending()
  }

  lemma EverythingRefined(a: Assembler)
    requires a.Valid() && Tidy(a)
    ensures R.Refines(a, Everything(a))
  {
    hide Represents, Size, Disjoint;
  }

  /** The bytes received are those received before, and those of the push if it was accepted. */
  ghost predicate Grown(a: Assembler, index: nat, n: nat, a': Assembler, accepted: bool)
    requires a.Valid() && a'.Valid()
  {
    forall p: nat :: Got(a', p) <==> Got(a, p) || (accepted && index <= p < index + n)
  }

  lemma PushInWindow(a: Assembler, data: seq<byte>, index: uint64, eof: bool, a': Assembler)
    requires a.Valid() && Tidy(a) && a'.Valid() && PushSpec(a, data, index, eof, a')
    requires index + |data| <= a.Limit() && !a'.out.ended
    ensures Tidy(a') && Grown(a, index, |data|, a', true)
  {
    hide Represents, Size, Disjoint, Assembler.Valid, PushSpec, Assembler.Merged, Assembler.Fresh, IsPlaced;
    EverythingRefined(a);
    R.MergedInWindow(a, index, data);
    R.PushRefines(a, data, index, eof, a', Everything(a));
    FreshRange(a, index, data);
    GotIs(a, Everything(a));
    GotIs(a', Everything(a) + a.Fresh(index, data));
    forall p: nat
      ensures Got(a', p) <==> Got(a, p) || index <= p < index + |data|
    {
      assert Got(a', p) <==> p in Everything(a) || p in a.Fresh(index, data);
    }
  }

  /** The bytes received are those of the byte map that is refined. */
  lemma GotIs(a: Assembler, r: map<nat, byte>)
    requires a.Valid() && R.Refines(a, r)
    ensures Tidy(a) && forall p: nat :: Got(a, p) <==> p in r
  {
    hide Represents, Size, Disjoint, Assembler.Valid;
  }

  lemma FreshRange(a: Assembler, index: nat, data: seq<byte>)
    ensures forall p: nat :: p in a.Fresh(index, data) <==> index <= p < index + |data| && a.Next() <= p
  {
  }

  /** A single byte beyond the window is refused without any effect. */
  lemma PushProbe(a: Assembler, data: seq<byte>, index: uint64, eof: bool, a': Assembler)
    requires a.Valid() && Tidy(a) && a'.Valid() && PushSpec(a, data, index, eof, a')
    requires |data| == 1 && a.Limit() <= index && index + 1 < TWO64 && !a.out.ended
    ensures Tidy(a') && Grown(a, index, 1, a', false)
    ensures a'.out == a.out
  {
    hide Represents, Size, Disjoint, Assembler.Merged, Assembler.Dropped, IsPlaced, Drained, Assembler.Fresh;
    ProbeMerged(a, data, index);
    var o := a.out.(ended := eof && a'.eofIdx == a.Next());
    DrainNothing(o, a.Merged(index, data), a.Limit(), a');
    UndrainedPending(o, a.Merged(index, data), a.Limit(), a');
  }

  lemma UndrainedPending(o: Stream, waiting: map<nat, byte>, limit: nat, a': Assembler)
    requires a'.Valid() && DrainSpec(o, waiting, limit, a') && a'.out == o
    ensures a'.Pending() == waiting
  {
    hide Represents, Size, Disjoint;
  }

  lemma BeyondPending(a: Assembler, index: nat)
    requires a.Valid() && Tidy(a) && a.Limit() <= index
    ensures !Stored(a.frags, index)
  {
    assert index !in a.Pending();
  }

  lemma ProbeMerged(a: Assembler, data: seq<byte>, index: nat)
    requires a.Valid() && Tidy(a) && |data| == 1 && a.Limit() <= index
    ensures !a.Dropped(index, data) && a.Merged(index, data) == a.Pending()
  {
    hide Represents, Size, Disjoint;
    BeyondPending(a, index);
    FreshRange(a, index, data);
    assert Rewritten(a.Pending(), a.Fresh(index, data)) == a.Pending();
  }

  lemma PushEnded(a': Assembler, s: seq<byte>)
    requires a'.Valid() && R.Faithful(a', s) && a'.out.ended
    ensures Tidy(a') && a'.Pending() == map[] && a'.Next() == |s|
  {
    hide Represents, Size, Disjoint;
    R.PendingAfterNext(a');
    assert forall p :: p !in a'.Pending();
  }

  /** A segment of the stream, inside the window or a single byte, is taken whole or not at all. */
  lemma PushWhole(a: Assembler, data: seq<byte>, index: uint64, eof: bool, a': Assembler, s: seq<byte>)
    returns (accepted: bool)
    requires a.Valid() && Tidy(a) && a'.Valid() && PushSpec(a, data, index, eof, a')
    requires R.Faithful(a', s)
    requires index + |data| <= a.Limit() || |data| <= 1
    requires index + |data| < TWO64
    ensures Tidy(a')
    ensures a'.out.ended || Grown(a, index, |data|, a', accepted)
  {
    hide Represents, Size, Disjoint, Assembler.Valid, DrainSpec, Assembler.Merged, Assembler.Dropped, R.Faithful, R.Agrees;
    accepted := false;
    if a'.out.ended {
      PushEnded(a', s);
    } else if data == [] {
      assert a'.Pending() == a.Pending();
    } else if index + |data| <= a.Limit() {
      PushInWindow(a, data, index, eof, a');
      accepted := true;
    } else {
      PushProbe(a, data, index, eof, a');
    }
  }

  // -- Entries stay whole -----------------------------------------------------------------------------

  lemma DisjointEntries(q: Queue, i: nat, j: nat, p: nat)
    requires i < |q.sizes| && j < |q.sizes| && InEntry(q, i, p) && InEntry(q, j, p)
    ensures i == j
  {
    if i < j {
      TotalMonotone(q.sizes, i + 1, j);
    } else if j < i {
      TotalMonotone(q.sizes, j + 1, i);
    }
  }

  lemma OutsideEntry(q: Queue, pkt: Packet, i: nat, j: nat, p: nat)
    requires i < |q.sizes| && InEntry(q, i, p) && Entry(q, pkt.abs, |pkt.seg.payload|, j) && i != j && pkt.abs >= 1
    ensures !(pkt.abs - 1 <= p < pkt.abs - 1 + |pkt.seg.payload|)
  {
    if pkt.abs - 1 <= p < pkt.abs - 1 + |pkt.seg.payload| {
      TotalStep(q.sizes, j);
      DisjointEntries(q, i, j, p);
    }
  }

  lemma EntryStaysWhole(q: Queue, a: Assembler, a': Assembler, pkt: Packet, accepted: bool, i: nat)
    requires a.Valid() && a'.Valid() && i < |q.sizes| && WholeEntry(q, a, i)
    requires pkt.abs >= 1 && Tracked(q, pkt) && pkt.seg.payload != []
    requires Grown(a, pkt.abs - 1, |pkt.seg.payload|, a', accepted)
    ensures WholeEntry(q, a', i)
  {
    hide Represents, Size, Disjoint, Assembler.Valid, Got;
    if pkt.abs + |pkt.seg.payload| <= q.base {
      assert forall p: nat :: InEntry(q, i, p) ==> (Got(a', p) <==> Got(a, p));
    } else {
      var j: nat :| Entry(q, pkt.abs, |pkt.seg.payload|, j);
      if i == j && accepted {
        TotalStep(q.sizes, j);
        assert forall p: nat :: InEntry(q, i, p) ==> Got(a', p);
      } else {
        forall p: nat | InEntry(q, i, p)
          ensures Got(a', p) <==> Got(a, p)
        {
          if i != j {
            OutsideEntry(q, pkt, i, j, p);
          }
        }
      }
    }
  }

  lemma EntriesStayWhole(s: Sender, a: Assembler, a': Assembler, pkt: Packet, index: nat, accepted: bool)
    requires Inv(s) && a.Valid() && a'.Valid() && WholeEntries(s.q, a)
    requires pkt.seg.payload != [] ==> pkt.abs == index + 1
    requires Tracked(s.q, pkt) && R.Faithful(a', s.out.written)
    requires a'.out.ended || Grown(a, index, |pkt.seg.payload|, a', accepted)
    ensures WholeEntries(s.q, a')
  {
    hide Represents, Size, Disjoint, Assembler.Valid, Tracked, Got, Inv, R.Agrees;
    forall i: nat | i < |s.q.sizes|
      ensures WholeEntry(s.q, a', i)
    {
      assert WholeEntry(s.q, a, i);
      if a'.out.ended {
        AllGot(s, a', i);
      } else if pkt.seg.payload != [] {
        EntryStaysWhole(s.q, a, a', pkt, accepted, i);
      }
    }
  }

  lemma AllGot(s: Sender, a': Assembler, i: nat)
    requires Inv(s) && a'.Valid() && a'.Next() == |s.out.written| && i < |s.q.sizes|
    ensures WholeEntry(s.q, a', i)
  {
    hide Represents, Size, Disjoint, Assembler.Valid, Sized, Held, Total;
    TotalMonotone(s.q.sizes, i + 1, |s.q.sizes|);
    assert forall p: nat :: InEntry(s.q, i, p) ==> p < |s.out.written|;
  }

  // -- Delivering a segment -----------------------------------------------------------------------------

  lemma WrapZero(isn: uint32)
    ensures Wrap(0, isn) == isn
  {
  }

  /** The receiver places a delivered segment where its sender meant it. */
  lemma DeliveredIndex(s: Sender, r: Receiver, pkt: Packet)
    requires Accurate(pkt.seg, pkt.abs, s.isn, s.out) && r.isn == s.isn
    requires r.asm.Next() + TWO31 < TWO63 && pkt.abs < TWO63
    requires !pkt.seg.header.syn ==> Reachable(pkt.abs, r.asm.Next())
    ensures r.IndexOf(pkt.seg) == if pkt.seg.header.syn then 0 else pkt.abs - 1
  {
    hide Wrap, Unwrap;
    if !pkt.seg.header.syn {
      IndexExact(r, pkt.seg, pkt.abs);
    }
  }

  lemma DeliveredSlice(s: Sender, pkt: Packet, index: uint64)
    requires Accurate(pkt.seg, pkt.abs, s.isn, s.out) && |s.out.written| < TWO64
    requires index == if pkt.seg.header.syn then 0 else pkt.abs - 1
    ensures R.SliceOf(s.out.written, R.Event.Push(pkt.seg.payload, index, pkt.seg.header.fin))
    ensures pkt.seg.payload != [] ==> pkt.abs == index + 1
  {
    hide Wrap;
  }

  /** The bytes received all lie before what the sender has read off its stream. */
  lemma GotBeforeRead(s: Sender, a: Assembler, a': Assembler, pkt: Packet, index: nat, accepted: bool)
    requires Inv(s) && s.q.synSent && a.Valid() && a'.Valid() && Tracked(s.q, pkt)
    requires Accurate(pkt.seg, pkt.abs, s.isn, s.out)
    requires pkt.seg.payload != [] ==> pkt.abs == index + 1
    requires a'.out.ended ==> a'.Pending() == map[] && a'.Next() == |s.out.written| && s.q.finSent
    requires a'.out.ended || Grown(a, index, |pkt.seg.payload|, a', accepted)
    requires a.Next() <= s.out.read && forall p :: p in a.Pending() ==> p < s.out.read
    ensures a'.Next() <= s.out.read && forall p :: p in a'.Pending() ==> p < s.out.read
  {
    hide Wrap, Sized, Held, Sum, Represents, Disjoint, Assembler.Valid;
    if !a'.out.ended {
      assert pkt.seg.payload != [] ==> index + |pkt.seg.payload| <= s.out.read;
      assert forall p: nat :: Got(a', p) ==> p < s.out.read;
      assert Got(a', s.out.read) || a'.Next() <= s.out.read;
      forall p | p in a'.Pending()
        ensures p < s.out.read
      {
        assert Got(a', p);
      }
    }
  }

  ghost predicate Deliverable(s: Sender, r: Receiver, pkt: Packet) {
    && Accurate(pkt.seg, pkt.abs, s.isn, s.out) && Tracked(s.q, pkt)
    && (pkt.abs + |pkt.seg.payload| <= r.asm.Limit() + 1 || |pkt.seg.payload| <= 1)
    && (!pkt.seg.header.syn ==> Reachable(pkt.abs, r.asm.Next()))
    && r.Spacious(|pkt.seg.payload|) && Small(s, r)
  }

  /** A segment that is looked at. */
  lemma DeliverLooked(s: Sender, r: Receiver, pkt: Packet, r': Receiver)
    requires SenderFine(s) && ReceiverFine(s, r) && WholeEntries(s.q, r.asm) && Deliverable(s, r, pkt)
    requires ReceiveSpec(r, pkt.seg, r') && !r.Ignores(pkt.seg)
    ensures ReceiverFine(s, r') && WholeEntries(s.q, r'.asm)
  {
    hide Wrap, Unwrap, Represents, Disjoint, Inv, Assembler.Valid, PushSpec, WholeEntries, Accurate, Tidy, R.Agrees, Tracked;
    var a, a' := r.asm, r'.asm;
    TcpReceivers.StepValid(r, TcpReceivers.Event.Arrive(pkt.seg), r');
    TrackedFacts(s, pkt);
    var index := if pkt.seg.header.syn then 0 else pkt.abs - 1;
    if !pkt.seg.header.syn {
      DeliveredIndex(s, r, pkt);
    }
    assert PushSpec(a, pkt.seg.payload, index, pkt.seg.header.fin, a');
    DeliveredSlice(s, pkt, index);
    var e := R.Event.Push(pkt.seg.payload, index, pkt.seg.header.fin);
    R.StepFaithful(a, e, a', s.out.written);
    var accepted := PushWhole(a, pkt.seg.payload, index, pkt.seg.header.fin, a', s.out.written);
    EntriesStayWhole(s, a, a', pkt, index, accepted);
    PushMark(a, pkt.seg.payload, index, pkt.seg.header.fin, a');
    if a'.out.ended {
      PushEnded(a', s.out.written);
    }
    GotBeforeRead(s, a, a', pkt, index, accepted);
    if pkt.seg.header.syn {
      WrapZero(s.isn);
    }
  }

  lemma PushMark(a: Assembler, data: seq<byte>, index: uint64, eof: bool, a': Assembler)
    requires a.Valid() && PushSpec(a, data, index, eof, a')
    ensures a'.eofSeen ==> a.eofSeen || eof
    ensures a'.out.capacity == a.out.capacity && a'.out.read == a.out.read
    ensures a'.out.ended ==> a.out.ended || a'.eofSeen
  {
    hide Represents, Size, Disjoint, Drained, Assembler.Merged, Assembler.Dropped;
  }

  lemma TrackedFacts(s: Sender, pkt: Packet)
    requires Inv(s) && Tracked(s.q, pkt) && Accurate(pkt.seg, pkt.abs, s.isn, s.out)
    ensures pkt.seg.header.fin ==> s.q.finSent && s.out.ended
    ensures pkt.seg.header.syn ==> s.q.synSent && pkt.abs == 0 && pkt.seg.payload == []
    ensures !pkt.seg.header.syn ==> pkt.abs >= 1
    ensures pkt.abs + |pkt.seg.payload| <= |s.out.written| + 2
    ensures pkt.seg.header.seqno == Wrap(pkt.abs, s.isn)
  {
    hide Wrap, Sum, Sized, Held;
  }

  lemma DeliverStep(z: System, pkt: Packet, z': System)
    requires SystemInv(z) && Ready(z) && Next(z, Transfer.Event.Deliver(pkt), z')
    ensures SystemInv(z')
  {
    hide Wrap, Unwrap, Represents, Disjoint, Inv, ReceiverFine, Accurate, Tracked, OnMark, ReceiveSpec, WholeEntries, Receiver.Valid;
    assert Deliverable(z.snd, z.rcv, pkt);
    ReceiveKeeps(z.rcv, pkt.seg, z'.rcv);
    if !z.rcv.Ignores(pkt.seg) {
      DeliverLooked(z.snd, z.rcv, pkt, z'.rcv);
    }
    TcpReceivers.StepMonotone(z.rcv, TcpReceivers.Event.Arrive(pkt.seg), z'.rcv);
  }

  lemma ReceiveKeeps(r: Receiver, seg: Segment, r': Receiver)
    requires r.Valid() && r.Spacious(|seg.payload|) && ReceiveSpec(r, seg, r')
    ensures r.Ignores(seg) ==> r' == r
    ensures r'.asm.Limit() == r.asm.Limit() && r'.asm.out.capacity == r.asm.out.capacity
    ensures !r.Ignores(seg) ==> r'.synRecv
  {
    hide Wrap, Unwrap, Represents, Disjoint, PushSpec;
    if !r.Ignores(seg) {
      PushMark(r.asm, seg.payload, r.IndexOf(seg), seg.header.fin, r'.asm);
    }
  }

  // -- Delivering an acknowledgment ----------------------------------------------------------------------

  /** In the joined system acknowledgments mean what they say, and are harmless. */
  lemma AckMeant(s: Sender, r: Receiver, m: AckMsg)
    requires SenderFine(s) && s.q.base + TWO31 < TWO63 && AckFine(s, r, m) && m.abs <= s.q.next
    ensures AbsoluteAck(s, m.ackno) == m.abs && Harmless(s.q, m.abs)
  {
    hide Wrap, Unwrap, Sized, Held, Total;
    UnwrapExact(m.abs, s.isn, s.q.base);
  }

  /** The record of segments in flight is cut off at `abs`, which becomes the base. */
  ghost predicate CutOff(q: Queue, abs: nat, q': Queue, k: nat) {
    && k <= |q.sizes| && q'.base == abs && q.base <= abs
    && abs == q.base + Total(q.sizes, k)
    && q'.sizes == q.sizes[k..]
  }

  /** What remains recorded after an acknowledgment: the record cut off there, or nothing at all
      once everything has been acknowledged. */
  ghost predicate Remains(q: Queue, abs: nat, q': Queue) {
    && q'.base == abs && q'.next == q.next
    && q'.synSent == q.synSent && q'.finSent == q.finSent && q'.synAcked
    && ((exists k: nat :: CutOff(q, abs, q', k)) || (Sum(q'.sizes) == 0 && abs == q.next))
  }

  lemma AckRemains(s: Sender, m: AckMsg, s': Sender, r: Receiver)
    requires SenderFine(s) && s.q.base + TWO31 < TWO63 && Sum(s.q.sizes) == |s.q.unAcked|
    requires AckFine(s, r, m) && m.abs <= s.q.next && AbsoluteAck(s, m.ackno) == m.abs
    requires AckSpec(s, m.ackno, m.window, s')
    ensures Remains(s.q, m.abs, s'.q)
  {
    hide Wrap, Unwrap, Sized, Held;
    var q, q' := s.q, s'.q;
    assert Total(q.sizes, 0) == 0;
    if m.abs <= q.base {
      assert q.sizes[0..] == q.sizes;
      assert CutOff(q, m.abs, q', 0);
    } else if m.abs == 1 || (q.finSent && m.abs == q.next) {
    } else {
      var q1 := q.(win := Max(m.window, 1));
      BoundaryCuts(q1, m.abs, q');
      var k: nat :| CutOff(q1, m.abs, q', k);
      assert CutOff(q, m.abs, q', k);
    }
  }

  lemma BoundaryCuts(q: Queue, abs: nat, q': Queue)
    requires q.base < abs && Sum(q.sizes) == |q.unAcked| && EraseSpec(q, abs, q')
    requires OnBoundary(q.sizes, abs - q.base)
    ensures exists k: nat :: CutOff(q, abs, q', k)
  {
    var n := abs - q.base;
    var j: nat :| j <= |q.sizes| && Total(q.sizes, j) == n;
    FirstEnd(q.sizes, n, j);
    var i: nat :| i <= j && AtEnd(q.sizes, n, i);
    CutAtEnd(q.sizes, n, q'.sizes);
    TotalMonotone(q.sizes, j, |q.sizes|);
    var k: nat :| AtEnd(q.sizes, n, k) && q'.sizes == q.sizes[k..];
    assert CutOff(q, abs, q', k);
  }

  lemma CutAtEnd(sizes: seq<nat>, n: nat, sizes': seq<nat>)
    requires CutSizes(sizes, n, sizes') && OnBoundary(sizes, n)
    ensures exists i: nat :: AtEnd(sizes, n, i) && sizes' == sizes[i..]
  {
    if i: nat :| Inside(sizes, n, i) {
      NotOnBoundary(sizes, n, i);
    }
    if Sum(sizes) < n {
      NotBeyond(sizes, n);
    }
  }

  lemma TrackedRemains(q: Queue, abs: nat, q': Queue, pkt: Packet)
    requires Remains(q, abs, q') && q.base <= abs && Tracked(q, pkt)
    ensures Tracked(q', pkt)
  {
    hide Sum, Total;
    if pkt.seg.payload != [] && pkt.abs + |pkt.seg.payload| > abs {
      var i: nat :| Entry(q, pkt.abs, |pkt.seg.payload|, i);
      var k: nat :| CutOff(q, abs, q', k);
      TotalStep(q.sizes, i);
      if i < k {
        TotalMonotone(q.sizes, i + 1, k);
      } else {
        TotalDrop(q.sizes, k, i - k);
        assert Entry(q', pkt.abs, |pkt.seg.payload|, i - k);
      }
    }
  }

  lemma WholeRemains(q: Queue, abs: nat, q': Queue, a: Assembler)
    requires Remains(q, abs, q') && a.Valid() && WholeEntries(q, a)
    ensures WholeEntries(q', a)
  {
    hide Represents, Size, Disjoint, Assembler.Valid, Got;
    if k: nat :| CutOff(q, abs, q', k) {
      forall i: nat | i < |q'.sizes|
        ensures WholeEntry(q', a, i)
      {
        TotalDrop(q.sizes, k, i);
        TotalDrop(q.sizes, k, i + 1);
        assert WholeEntry(q, a, k + i);
        assert forall p: nat :: InEntry(q', i, p) <==> InEntry(q, k + i, p);
      }
    } else {
      forall i: nat | i < |q'.sizes|
        ensures WholeEntry(q', a, i)
      {
        TotalMonotone(q'.sizes, i + 1, |q'.sizes|);
        assert forall p: nat :: !InEntry(q', i, p);
      }
    }
  }

  lemma MarkRemains(q: Queue, abs: nat, q': Queue, later: nat)
    requires Remains(q, abs, q') && q.base <= abs <= later <= q.next && OnMark(q, later)
    requires !q.synAcked ==> abs >= 1
    ensures OnMark(q', later)
  {
    hide Sum, Total;
    if later > abs && q.synAcked && OnBoundary(q.sizes, later - q.base) {
      var n := later - q.base;
      var i: nat :| i <= |q.sizes| && Total(q.sizes, i) == n;
      var k: nat :| CutOff(q, abs, q', k);
      if i < k {
        TotalMonotone(q.sizes, i, k);
      } else {
        TotalDrop(q.sizes, k, i - k);
        var n' := later - q'.base;
        assert Total(q'.sizes, i - k) == n';
      }
    }
  }

  lemma NetRemains(s: Sender, s': Sender, abs: nat, net: set<Packet>)
    requires NetFine(s, net) && Remains(s.q, abs, s'.q) && s.q.base <= abs
    requires s'.out == s.out && s'.isn == s.isn
    ensures NetFine(s', net)
  {
    hide Accurate, Tracked, Remains;
    forall pkt | pkt in net
      ensures Tracked(s'.q, pkt)
    {
      TrackedRemains(s.q, abs, s'.q, pkt);
    }
  }

  lemma AcksRemain(s: Sender, s': Sender, r: Receiver, acks: seq<AckMsg>)
    requires AcksFine(s, r, acks) && acks != [] && Remains(s.q, acks[0].abs, s'.q)
    requires s'.isn == s.isn && s'.q.win == Max(acks[0].window, 1) && r.Expected() <= s.q.next
    ensures AcksFine(s', r, acks[1..])
  {
    hide OnMark, Wrap, Remains, Represents, Disjoint;
    var m := acks[0];
    assert AckFine(s, r, m);
    assert s'.q.base == m.abs by { RemainsBase(s.q, m.abs, s'.q); }
    forall i | 0 <= i < |acks[1..]|
      ensures AckFine(s', r, acks[1..][i])
    {
      assert AckFine(s, r, acks[i + 1]);
      MarkRemains(s.q, m.abs, s'.q, acks[i + 1].abs);
    }
  }

  lemma RemainsBase(q: Queue, abs: nat, q': Queue)
    requires Remains(q, abs, q')
    ensures q'.base == abs && q'.finSent == q.finSent && q'.synSent == q.synSent && q'.synAcked
  {
  }

  lemma ReceiverRemains(s: Sender, s': Sender, r: Receiver)
    requires ReceiverFine(s, r) && s'.out == s.out && s'.isn == s.isn && r.synRecv
    requires s'.q.finSent == s.q.finSent && s'.q.synSent == s.q.synSent
    ensures ReceiverFine(s', r)
  {
    hide Represents, Size, Disjoint, Wrap, Assembler.Valid, R.Faithful, Tidy;
  }

  lemma DeliverAckStep(z: System, z': System)
    requires SystemInv(z) && Ready(z) && Next(z, Transfer.Event.DeliverAck, z')
    ensures SystemInv(z')
  {
    hide Wrap, Unwrap, Represents, Disjoint, Inv, InWindow, ReceiverFine, NetFine, Fitting, WholeEntries,
      OnMark, AckSpec, Harmless, Remains, Assembler.Valid, Sum;
    var s, s', r, m := z.snd, z'.snd, z.rcv, z.acks[0];
    assert AckFine(s, r, m);
    TransferSteps.ExpectedOnMark(s, r);
    AckMeant(s, r, m);
    AckInv(s, m.ackno, m.window, s');
    AckInWindow(s, m.ackno, m.window, s');
    SpaceInWindow(s.q);
    AckRemains(s, m, s', r);
    RemainsBase(s.q, m.abs, s'.q);
    NetRemains(s, s', m.abs, z.net);
    WholeRemains(s.q, m.abs, s'.q, r.asm);
    AcksRemain(s, s', r, z.acks);
    ReceiverRemains(s, s', r);
  }

  // -- Whole runs ------------------------------------------------------------------------------------------

  lemma StepInv(z: System, e: Transfer.Event, z': System)
    requires SystemInv(z) && Ready(z) && Next(z, e, z')
    ensures SystemInv(z')
  {
    hide SystemInv, Next, Ready;
    match e
    case Write(data) => TransferSteps.WriteStep(z, data, z');
    case End => TransferSteps.EndStep(z, z');
    case Fill(segs) => TransferSteps.FillStep(z, segs, z');
    case Tick(ms, segs) => TransferSteps.TickStep(z, ms, segs, z');
    case Deliver(pkt) => DeliverStep(z, pkt, z');
    case Read(len) => TransferSteps.ReadStep(z, len, z');
    case SendAck => TransferSteps.SendAckStep(z, z');
    case LoseAck(i) => TransferSteps.LoseAckStep(z, i, z');
    case DeliverAck => DeliverAckStep(z, z');
  }

  ghost predicate Run(first: System, events: seq<Transfer.Event>, states: seq<System>) {
    && |states| == |events| + 1
    && states[0] == first
    && forall i :: 0 <= i < |events| ==> Next(states[i], events[i], states[i + 1])
  }

  lemma {:induction false} RunInv(sendCapacity: nat, retxTimeout: uint16, isn: uint32, recvCapacity: nat,
                                  events: seq<Transfer.Event>, states: seq<System>, n: nat)
    requires recvCapacity < 0x1_0000 && n <= |events|
    requires Run(Initially(sendCapacity, retxTimeout, isn, recvCapacity), events, states)
    ensures SystemInv(states[n])
  {
    hide SystemInv, Next, Ready;
    if n == 0 {
      InitiallyInv(sendCapacity, retxTimeout, isn, recvCapacity);
    } else {
      RunInv(sendCapacity, retxTimeout, isn, recvCapacity, events, states, n - 1);
      AlwaysReady(states[n - 1]);
      StepInv(states[n - 1], events[n - 1], states[n]);
    }
  }

  /** End to end, in every state of every run: what the receiver has written is a prefix of what was
      written into the sender, and its input has ended only if that is all of an ended stream. */
  lemma EndToEnd(sendCapacity: nat, retxTimeout: uint16, isn: uint32, recvCapacity: nat,
                 events: seq<Transfer.Event>, states: seq<System>, n: nat)
    requires recvCapacity < 0x1_0000 && n <= |events|
    requires Run(Initially(sendCapacity, retxTimeout, isn, recvCapacity), events, states)
    ensures var sent, got := states[n].snd.out, states[n].rcv.asm.out;
            && got.written <= sent.written
            && (got.ended ==> sent.ended && got.written == sent.written)
  {
    hide Represents, Size, Disjoint, Wrap, Inv, R.Agrees;
    RunInv(sendCapacity, retxTimeout, isn, recvCapacity, events, states, n);
  }

  /** The two ends agree: the acknowledgment number on offer lies between the sender's base and its
      next number; every acknowledgment on its way is one the sender handles as meant; the window is
      never overfilled; and once the FIN is acknowledged the receiver has it all. */
  lemma Agreement(sendCapacity: nat, retxTimeout: uint16, isn: uint32, recvCapacity: nat,
                  events: seq<Transfer.Event>, states: seq<System>, n: nat)
    requires recvCapacity < 0x1_0000 && n <= |events|
    requires Run(Initially(sendCapacity, retxTimeout, isn, recvCapacity), events, states)
    ensures var s, r, acks := states[n].snd, states[n].rcv, states[n].acks;
            && Inv(s) && InWindow(s.q)
            && (r.synRecv ==> s.q.base <= r.Expected() <= s.q.next && OnMark(s.q, r.Expected()))
            && s.q.base + TWO31 < TWO63
            && (forall i :: 0 <= i < |acks| ==>
                  AbsoluteAck(s, acks[i].ackno) == acks[i].abs && Harmless(s.q, acks[i].abs))
            && (s.q.finAcked ==> r.asm.out.ended && r.asm.out.written == s.out.written)
  {
    RunInv(sendCapacity, retxTimeout, isn, recvCapacity, events, states, n);
    Agrees(states[n]);
  }

  lemma Agrees(z: System)
    requires SystemInv(z)
    ensures var s, r, acks := z.snd, z.rcv, z.acks;
            && Inv(s) && InWindow(s.q)
            && (r.synRecv ==> s.q.base <= r.Expected() <= s.q.next && OnMark(s.q, r.Expected()))
            && s.q.base + TWO31 < TWO63
            && (forall i :: 0 <= i < |acks| ==>
                  AbsoluteAck(s, acks[i].ackno) == acks[i].abs && Harmless(s.q, acks[i].abs))
            && (s.q.finAcked ==> r.asm.out.ended && r.asm.out.written == s.out.written)
  {
    hide Wrap, Unwrap, Represents, Disjoint, NetFine, Fitting, WholeEntries, OnMark, Harmless, Sized, Held, Sum, Assembler.Valid;
    var s, r := z.snd, z.rcv;
    if r.synRecv {
      TransferSteps.ExpectedOnMark(s, r);
    }
    forall i | 0 <= i < |z.acks|
      ensures AbsoluteAck(s, z.acks[i].ackno) == z.acks[i].abs && Harmless(s.q, z.acks[i].abs)
    {
      assert AckFine(s, r, z.acks[i]);
      AckMeant(s, r, z.acks[i]);
    }
  }
}
