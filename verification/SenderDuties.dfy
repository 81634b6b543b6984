/** What a sender has to do, stated on its fields and on the segments it puts out. */
module SenderDuties {
  import opened Machine
  import opened WrappingIntegers
  import opened TcpSegments
  import opened SegmentSizes
  import opened TcpSenders
  import opened SenderRuns

  // -- Retransmission -----------------------------------------------------------------------------------

  /** After `ms` more the timeout has been reached. */
  predicate Due(t: Clock, ms: nat) {
    t.running && t.elapsed + ms >= t.timeout
  }

  /** A timeout sends exactly one segment, and one that takes up sequence numbers: with bytes in flight the
      first segment of them, whole, with the FIN exactly if that comes right after; else the SYN or the
      FIN. Before the timeout nothing is sent. */
  lemma TimeoutSends(s: Sender, ms: nat, s': Sender, segs: seq<Segment>)
    requires Inv(s) && s.FrontReady() && TickSpec(s, ms, s', segs)
    ensures |segs| == if Due(s.t, ms) then 1 else 0
    ensures segs != [] ==> segs[0].Length() > 0 && !segs[0].header.rst && !segs[0].header.ack
    ensures segs != [] && s.q.unAcked != [] ==>
              var seg, base, n := segs[0], s.q.base, s.q.sizes[0];
              && n > 0 && 1 <= base && base - 1 + n <= |s.out.written|
              && seg.header.seqno == Wrap(base, s.isn) && !seg.header.syn
              && seg.payload == s.out.written[base - 1..base - 1 + n]
              && (seg.header.fin <==> s.q.finSent && base + n + 1 == s.q.next)
    ensures segs != [] && s.q.unAcked == [] ==>
              var seg := segs[0];
              && seg.payload == []
              && (seg.header.syn <==> !s.q.synAcked && !s.q.finSent)
              && (seg.header.fin <==> s'.q.finSent)
              && seg.header.seqno == Wrap(if seg.header.syn then 0 else s.q.next - 1, s.isn)
  {
    hide Wrap, Queue.Remain, Sum, Held;
    InvFacts(s);
    if Due(s.t, ms) {
      DueFacts(s);
      if s.q.unAcked != [] {
        FrontHeld(s);
      }
    }
  }

  lemma DueFacts(s: Sender)
    requires Inv(s) && s.t.running
    ensures !s.q.finAcked && s.q.synSent
    ensures s.q.unAcked != [] ==> s.q.synAcked
    ensures s.q.unAcked == [] ==> (!s.q.synAcked && !s.q.finSent) || s.q.finSent
  {
    hide Sum, Sized, Held;
  }

  /** The first segment in flight is the stretch of the stream at the base. */
  lemma FrontHeld(s: Sender)
    requires Inv(s) && s.q.unAcked != []
    ensures s.FrontReady() && s.q.sizes[0] > 0 && s.q.base >= 1 && s.q.base - 1 + s.q.sizes[0] <= |s.out.written|
    ensures s.q.unAcked[..s.q.sizes[0]] == s.out.written[s.q.base - 1..s.q.base - 1 + s.q.sizes[0]]
  {
    hide Total;
    InvFacts(s);
    if |s.q.sizes| == 1 {
      TotalNone(s.q.sizes);
      TotalStep(s.q.sizes, 0);
    }
  }

  /** The clock: time counts only while the timer runs; a timeout begins it anew, counts, and doubles the
      timeout unless the window is zero. Nothing else moves but what a repeated SYN may add. */
  lemma TimeoutClock(s: Sender, ms: nat, s': Sender, segs: seq<Segment>)
    requires Inv(s) && s.FrontReady() && TickSpec(s, ms, s', segs)
    ensures !s.t.running ==> s' == s
    ensures s.t.running && !Due(s.t, ms) ==>
              && s'.t.elapsed == s.t.elapsed + ms && s'.t.timeout == s.t.timeout
              && s'.t.retransmissions == s.t.retransmissions && s'.t.running
    ensures Due(s.t, ms) ==>
              && s'.t.elapsed == 0 && s'.t.retransmissions == s.t.retransmissions + 1 && s'.t.running
              && s'.t.timeout == if s.t.doubling then 2 * s.t.timeout % TWO32 else s.t.timeout
    ensures s'.t.initial == s.t.initial && s'.t.doubling == s.t.doubling
    ensures s'.q.base == s.q.base && s'.q.unAcked == s.q.unAcked && s'.q.sizes == s.q.sizes && s'.q.win == s.q.win && s'.out == s.out
  {
    hide Wrap, Queue.Remain, Sum, Held, Sized, Sender.RetransmitSegment, Sender.SynCarriesFin;
    if Due(s.t, ms) {
      DueFacts(s);
    }
  }

  // -- Acknowledgments ------------------------------------------------------------------------------------

  /** The clock after an acknowledgment. One that is of something new begins it anew, with the initial timeout
      and no retransmissions, running exactly if something is still in flight. An old one, or one beyond a
      FIN already sent, leaves it alone. Either way the doubling goes with the window. */
  lemma AckClock(s: Sender, ackno: uint32, window: uint16, s': Sender)
    requires Inv(s) && s.q.base + TWO31 < TWO63 && Sum(s.q.sizes) == |s.q.unAcked|
    requires AckSpec(s, ackno, window, s') && Harmless(s.q, AbsoluteAck(s, ackno))
    ensures s'.t.doubling == (window != 0) && s'.t.initial == s.t.initial
    ensures var abs := AbsoluteAck(s, ackno);
            if s.q.base < abs && !(s.q.finSent && abs > s.q.next)
            then
              && s'.t.elapsed == 0 && s'.t.total == 0 && s'.t.retransmissions == 0 && s'.t.doubled == 0
              && s'.t.timeout == s.t.initial
              && (s'.t.running <==> s'.q.base < s'.q.next)
            else
              && s'.t.elapsed == s.t.elapsed && s'.t.total == s.t.total && s'.t.retransmissions == s.t.retransmissions
              && s'.t.doubled == s.t.doubled && s'.t.timeout == s.t.timeout && s'.t.running == s.t.running
  {
    hide Wrap, Unwrap, Harmless, AdvanceSpec, Sum, Counted, Sized, Held;
    AckInv(s, ackno, window, s');
  }

  // -- Filling the window -----------------------------------------------------------------------------------

  /** The sequence numbers that segments take up. */
  function Numbers(segs: seq<Segment>): nat {
    if segs == [] then 0 else Numbers(segs[..|segs| - 1]) + segs[|segs| - 1].Length()
  }

  /** The bytes that segments carry, one after the other. */
  function Payloads(segs: seq<Segment>): seq<byte> {
    if segs == [] then [] else Payloads(segs[..|segs| - 1]) + segs[|segs| - 1].payload
  }

  /** Every sequence number taken up goes out, in order and once; the payloads are the bytes read off the stream. */
  ghost predicate Conserved(s: Sender, s': Sender, segs: seq<Segment>) {
    && s.out.read <= s'.out.read <= |s.out.written| && s'.out.written == s.out.written
    && s'.q.next == s.q.next + Numbers(segs)
    && Payloads(segs) == s.out.written[s.out.read..s'.out.read]
    && forall i :: 0 <= i < |segs| ==> segs[i].header.seqno == Wrap(s.q.next + Numbers(segs[..i]), s.isn)
  }

  /** Filling conserves. */
  lemma FillConserves(s: Sender, s': Sender, segs: seq<Segment>)
    requires Inv(s) && FillSpec(s, s', segs)
    ensures Conserved(s, s', segs)
  {
    hide Wrap, Queue.Remain, Counted, Sized, Held, Conserved, Sender.SynSegment, Sender.AfterSyn, SendSpec;
    InvFacts(s);
    if segs == [] && s' == s {
      NoneConserved(s);
    } else if !s.q.synSent {
      SynConserved(s, s.t.Kicked());
    } else if s.out.Eof() && s.q.Remain() > 1 {
      OneConserved(s, s', s.FinSegment(s.q.next));
    } else {
      BurstConserved(s, s', segs);
    }
  }

  lemma NoneConserved(s: Sender)
    requires s.out.Valid()
    ensures Conserved(s, s, [])
  {
    hide Wrap;
  }

  /** One segment without payload, at the next number. */
  lemma OneConserved(s: Sender, s': Sender, seg: Segment)
    requires s.out.Valid() && s'.out == s.out && seg.payload == [] && seg.header.seqno == Wrap(s.q.next, s.isn)
    requires s'.q.next == s.q.next + seg.Length()
    ensures Conserved(s, s', [seg])
  {
    hide Wrap;
    NoSegments();
    OneSegmentMore([seg], 1);
    assert [seg][..1] == [seg] && [seg][..0] == [];
  }

  lemma SynConserved(s: Sender, t: Clock)
    requires Inv(s) && !s.q.synSent
    ensures Conserved(s, s.AfterSyn().(t := t), [s.SynSegment()])
  {
    hide Wrap, Queue.Remain, Sum, Sized, Held, Conserved;
    OneConserved(s, s.AfterSyn().(t := t), s.SynSegment());
  }

  lemma BurstConserved(s: Sender, s': Sender, segs: seq<Segment>)
    requires s.out.Valid() && SendSpec(s, s', segs)
    ensures Conserved(s, s', segs)
  {
    hide Wrap, Sender.CanSend, Sender.DataSegment, Sender.AfterData, Numbers, Payloads, SendMany;
    BurstConserves(s, segs, |segs|);
    assert segs[..|segs|] == segs;
    forall i | 0 <= i < |segs|
      ensures segs[i].header.seqno == Wrap(s.q.next + Numbers(segs[..i]), s.isn)
    {
      BurstNumber(s, segs, i);
    }
  }

  lemma BurstNumber(s: Sender, segs: seq<Segment>, n: nat)
    requires s.out.Valid() && n < |segs|
    requires forall i :: 0 <= i < |segs| ==> segs[i] == SendMany(s, i).DataSegment()
    ensures segs[n].header.seqno == Wrap(s.q.next + Numbers(segs[..n]), s.isn)
  {
    hide Wrap, Sender.DataSegment, Sender.AfterData, Numbers, Payloads, SendMany;
    BurstConserves(s, segs, n);
    DataNumber(SendMany(s, n));
  }

  lemma {:induction false} BurstConserves(s: Sender, segs: seq<Segment>, n: nat)
    requires s.out.Valid() && n <= |segs|
    requires forall i :: 0 <= i < |segs| ==> segs[i] == SendMany(s, i).DataSegment()
    ensures var r := SendMany(s, n);
            && s.out.read <= r.out.read <= |s.out.written| && r.out.written == s.out.written && r.isn == s.isn
            && r.q.next == s.q.next + Numbers(segs[..n])
            && Payloads(segs[..n]) == s.out.written[s.out.read..r.out.read]
  {
    hide Wrap, Sender.AfterData, Sender.DataSegment, Numbers, Payloads;
    if n == 0 {
      NoSegments();
      assert segs[..0] == [] && s.out.written[s.out.read..s.out.read] == [];
    } else {
      BurstConserves(s, segs, n - 1);
      var r := SendMany(s, n - 1);
      DataCounts(r);
      OneSegmentMore(segs, n);
      SlicesJoin(s.out.written, s.out.read, r.out.read, r.AfterData().out.read);
    }
  }

  lemma NoSegments()
    ensures Numbers([]) == 0 && Payloads([]) == []
  {
  }

  lemma OneSegmentMore(segs: seq<Segment>, n: nat)
    requires 0 < n <= |segs|
    ensures Numbers(segs[..n]) == Numbers(segs[..n - 1]) + segs[n - 1].Length()
    ensures Payloads(segs[..n]) == Payloads(segs[..n - 1]) + segs[n - 1].payload
  {
    assert segs[..n][..n - 1] == segs[..n - 1];
  }

  lemma SlicesJoin(x: seq<byte>, i: nat, j: nat, k: nat)
    requires i <= j <= k <= |x|
    ensures x[i..j] + x[j..k] == x[i..k]
  {
  }

  lemma DataNumber(s: Sender)
    requires s.out.Valid()
    ensures s.DataSegment().header.seqno == Wrap(s.q.next, s.isn)
  {
    hide Wrap, Queue.Remain;
  }

  lemma DataCounts(s: Sender)
    requires s.out.Valid()
    ensures var s', seg := s.AfterData(), s.DataSegment();
            && s'.q.next == s.q.next + seg.Length() && s'.out.read == s.out.read + |seg.payload|
            && s.out.read <= s'.out.read <= |s.out.written| && s'.out.written == s.out.written && s'.isn == s.isn
            && seg.payload == s.out.written[s.out.read..s'.out.read]
  {
    hide Wrap, Queue.Remain;
  }

  /** No segment is smaller than it has to be: all but the last carry the maximum. */
  lemma FillFull(s: Sender, s': Sender, segs: seq<Segment>)
    requires Inv(s) && InWindow(s.q) && FillSpec(s, s', segs)
    ensures forall i :: 0 <= i < |segs| ==> |segs[i].payload| <= MAX_PAYLOAD_SIZE
    ensures forall i :: 0 <= i < |segs| - 1 ==> |segs[i].payload| == MAX_PAYLOAD_SIZE
  {
    hide Wrap, Queue.Remain, Counted, Sized, Held, Sender.CanSend;
    InvFacts(s);
    if s.q.synSent && s.q.synAcked && !s.q.finSent && !(s.out.Eof() && s.q.Remain() > 1) {
      forall i | 0 <= i < |segs|
        ensures |segs[i].payload| <= MAX_PAYLOAD_SIZE
        ensures i < |segs| - 1 ==> |segs[i].payload| == MAX_PAYLOAD_SIZE
      {
        ManyInWindow(s, i);
        if i < |segs| - 1 {
          assert SendMany(s, i + 1).CanSend();
          MoreMeansFull(SendMany(s, i));
        }
      }
    }
  }

  lemma MoreMeansFull(s: Sender)
    requires s.out.Valid() && InWindow(s.q) && s.CanSend() && s.AfterData().CanSend()
    ensures |s.DataSegment().payload| == MAX_PAYLOAD_SIZE
  {
    hide Wrap, Queue.Remain;
    DataInWindow(s);
    ExactSpace(s.q);
    ExactSpace(s.AfterData().q);
  }

  /** What filling achieves: the SYN is out; before it is acknowledged only a FIN may follow, exactly if the
      stream is over and the window leaves two numbers; after that, all goes out that there is room for. */
  lemma FillAchieves(s: Sender, s': Sender, segs: seq<Segment>)
    requires Inv(s) && InWindow(s.q) && FillSpec(s, s', segs)
    ensures s'.q.synSent
    ensures s.q.synSent && !s.q.synAcked && !s.q.finSent ==>
              (s'.q.finSent <==> s.out.Eof() && s.q.next + 1 < s.q.base + s.q.win) && s'.out == s.out
    ensures s.q.synAcked ==> s'.q.next == s'.q.base + s'.q.win || (s'.out.Buffered() == 0 && (s'.out.ended ==> s'.q.finSent))
  {
    hide Wrap, Queue.Remain, Sized, Held, Sum;
    ExactSpace(s.q);
    FillInWindow(s, s', segs);
    FillInv(s, s', segs);
  }

  /** Filling leaves a running timer alone, and starts one that is stopped exactly if it sends something. */
  lemma FillClock(s: Sender, s': Sender, segs: seq<Segment>)
    requires Inv(s) && FillSpec(s, s', segs)
    ensures s.t.running || segs == [] ==> s'.t == s.t
    ensures !s.t.running && segs != [] ==>
              && s'.t.running && s'.t.elapsed == 0 && s'.t.total == 0 && s'.t.retransmissions == 0 && s'.t.doubled == 0
              && s'.t.timeout == s.t.initial && s'.t.initial == s.t.initial && s'.t.doubling == s.t.doubling
  {
    hide Wrap, Queue.Remain, Counted, Sized, Held;
    InvFacts(s);
    if s.q.synSent && s.q.synAcked && !s.q.finSent && !(s.out.Eof() && s.q.Remain() > 1) {
      BurstClock(s, |segs|);
    }
  }

  lemma {:induction false} BurstClock(s: Sender, n: nat)
    requires s.out.Valid()
    ensures SendMany(s, n).t == if n == 0 then s.t else s.t.Kicked()
  {
    hide Wrap, Sender.Take, Sender.TakesFin;
    if n > 0 {
      BurstClock(s, n - 1);
    }
  }

  /** The sender has nothing more to send for now: its FIN is out; or the window is full or the stream used up;
      or it waits for its SYN to be acknowledged. */
  predicate Settled(s: Sender) {
    && s.q.synSent
    && (|| s.q.finSent
        || (if s.q.synAcked then s.q.Remain() == 0 || (s.out.Buffered() == 0 && !s.out.ended)
            else !(s.out.Eof() && s.q.Remain() > 1)))
  }

  /** Filling leaves nothing that could be sent. */
  lemma FillSettles(s: Sender, s': Sender, segs: seq<Segment>)
    requires Inv(s) && FillSpec(s, s', segs)
    ensures Settled(s')
  {
    hide Wrap, Queue.Remain, Sized, Held, Sum;
    FillInv(s, s', segs);
    if s.q.synSent && s.q.synAcked && !s.q.finSent && !(s.out.Eof() && s.q.Remain() > 1) {
      BurstStays(s, |segs|);
    }
  }

  lemma {:induction false} BurstStays(s: Sender, n: nat)
    requires s.out.Valid()
    ensures SendMany(s, n).q.synSent == s.q.synSent && SendMany(s, n).q.synAcked == s.q.synAcked
  {
    hide Wrap, Sender.Take, Sender.TakesFin;
    if n > 0 {
      BurstStays(s, n - 1);
    }
  }
}
