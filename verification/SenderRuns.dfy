/** What holds in every state of a sender, and of every segment it puts out. */
module SenderRuns {
  import opened Machine
  import opened WrappingIntegers
  import opened ByteStreams
  import opened TcpSegments
  import opened SegmentSizes
  import opened TcpSenders

  function Bit(b: bool): nat {
    if b then 1 else 0
  }

  /** The counters, the flags and the two records of what is in flight agree. */
  ghost predicate Counted(q: Queue, out: Stream) {
    && out.Valid()
    && Sum(q.sizes) == |q.unAcked|
    && q.next == q.base + |q.unAcked| + Bit(q.synSent && !q.synAcked) + Bit(q.finSent && !q.finAcked)
    && q.next == Bit(q.synSent) + out.read + Bit(q.finSent)
    && (q.synAcked ==> q.synSent)
    && (q.base == 0 <==> !q.synAcked)
    && (!q.synAcked ==> q.unAcked == [] && q.sizes == [])
    && (q.finSent ==> q.synSent && out.Eof())
    && (q.finAcked ==> q.finSent && q.unAcked == [])
    && q.win >= 1
  }

  /** Recorded sizes are those of segments: at most the maximum, and empty only for a lone FIN. */
  ghost predicate Sized(q: Queue) {
    && Proper(q.sizes)
    && (forall i :: 0 <= i < |q.sizes| ==> q.sizes[i] <= MAX_PAYLOAD_SIZE)
    && (forall i :: 0 <= i < |q.sizes| && q.sizes[i] == 0 ==> q.finSent)
  }

  /** The bytes in flight are the stretch of the stream that ends where reading has got to. */
  ghost predicate Held(q: Queue, out: Stream) {
    |q.unAcked| <= out.read <= |out.written| && q.unAcked == out.written[out.read - |q.unAcked|..out.read]
  }

  /** The invariant of the sender. The timer runs exactly while something is in flight. */
  ghost predicate Inv(s: Sender) {
    && Counted(s.q, s.out)
    && Sized(s.q)
    && Held(s.q, s.out)
    && (s.t.running <==> s.q.next > s.q.base)
  }

  /** The segment is a true slice of the stream at the absolute sequence number `abs`. */
  ghost predicate Accurate(seg: Segment, abs: nat, isn: uint32, out: Stream) {
    && seg.header.seqno == Wrap(abs, isn)
    && !seg.header.rst
    && |seg.payload| <= MAX_PAYLOAD_SIZE
    && (seg.header.syn ==> abs == 0 && seg.payload == [] && (seg.header.fin ==> out.ended && out.written == []))
    && (!seg.header.syn ==>
          && 1 <= abs <= |out.written| + 1 - |seg.payload|
          && seg.payload == out.written[abs - 1..abs - 1 + |seg.payload|]
          && (seg.header.fin ==> out.ended && abs - 1 + |seg.payload| == |out.written|))
  }

  /** The segment is a true slice of the stream, wherever. */
  ghost predicate Genuine(seg: Segment, isn: uint32, out: Stream) {
    exists abs: nat :: Accurate(seg, abs, isn, out)
  }

  lemma InitialInv(capacity: nat, retxTimeout: uint16, isn: uint32)
    ensures Inv(Initial(capacity, retxTimeout, isn))
  {
  }

  // -- The application writes ------------------------------------------------------------------

  ghost predicate WriteSpec(s: Sender, data: seq<byte>, s': Sender) {
    var n := s.out.Accepts(|data|);
    0 <= n <= |data| && s' == s.(out := s.out.(written := s.out.written + data[..n]))
  }

  ghost predicate EndSpec(s: Sender, s': Sender) {
    s' == s.(out := s.out.(ended := true))
  }

  lemma WriteInv(s: Sender, data: seq<byte>, s': Sender)
    requires Inv(s) && WriteSpec(s, data, s')
    ensures Inv(s')
  {
    hide Sum, Sized;
    if s.q.finSent {
      assert s'.out.written == s.out.written;
    }
    assert s'.out.written[s.out.read - |s.q.unAcked|..s.out.read] == s.out.written[s.out.read - |s.q.unAcked|..s.out.read];
  }

  lemma EndInv(s: Sender, s': Sender)
    requires Inv(s) && EndSpec(s, s')
    ensures Inv(s')
  {
  }

  /** What has been put out stays accurate: the stream only grows, and not once it has ended. */
  lemma AccurateLater(seg: Segment, abs: nat, isn: uint32, out: Stream, out': Stream)
    requires Accurate(seg, abs, isn, out)
    requires out.written <= out'.written && (out.ended ==> out'.ended && out'.written == out.written)
    ensures Accurate(seg, abs, isn, out')
  {
    hide Wrap;
  }

  // -- Sending -----------------------------------------------------------------------------------

  lemma SynInv(s: Sender, t: Clock)
    requires Inv(s) && !s.q.synAcked && !s.q.finSent && t.running
    ensures Inv(s.AfterSyn().(t := t))
    ensures Accurate(s.SynSegment(), 0, s.isn, s.out)
  {
    hide Wrap, Sum;
  }

  lemma FinInv(s: Sender, t: Clock)
    requires Inv(s) && s.q.synSent && !s.q.finSent && s.out.Eof() && t.running
    ensures Inv(s.(q := s.q.(finSent := true, next := s.q.next + 1), t := t))
    ensures Accurate(s.FinSegment(s.q.next), s.q.next, s.isn, s.out)
  {
    hide Wrap, Sum;
  }

  lemma DataInv(s: Sender)
    requires Inv(s) && s.q.synAcked && !s.q.finSent && s.CanSend()
    ensures Inv(s.AfterData()) && s.AfterData().q.synAcked
    ensures Accurate(s.DataSegment(), s.q.next, s.isn, s.out)
  {
    hide Wrap, Sum;
    SumAppend(s.q.sizes, s.Take());
    DataHeld(s);
    assert s.Take() == 0 ==> s.TakesFin();
  }

  lemma DataHeld(s: Sender)
    requires s.out.Valid() && Held(s.q, s.out)
    ensures Held(s.AfterData().q, s.AfterData().out)
  {
  }

  /** Every data segment of a burst is accurate, the invariant holds throughout, and each one
      starts where the one before ended. */
  lemma {:induction false} ManyInv(s: Sender, n: nat)
    requires Inv(s) && s.q.synAcked && !s.q.finSent
    requires forall i :: 0 <= i < n ==> SendMany(s, i).CanSend()
    ensures var r := SendMany(s, n);
            && Inv(r) && r.q.synAcked
            && r.out.written == s.out.written && r.out.ended == s.out.ended && r.isn == s.isn
            && r.q.base == s.q.base && r.q.win == s.q.win
  {
    hide Wrap, Counted, Sized, Held, Sender.Take, Sender.TakesFin, Sender.CanSend;
    InvFacts(s);
    if n > 0 {
      ManyInv(s, n - 1);
      var r := SendMany(s, n - 1);
      assert r.CanSend();
      StillOpen(r);
      DataInv(r);
    }
  }

  lemma StillOpen(s: Sender)
    requires Inv(s) && s.CanSend()
    ensures !s.q.finSent
  {
  }

  /** Filling the window keeps the invariant and puts out accurate segments only. */
  lemma FillInv(s: Sender, s': Sender, segs: seq<Segment>)
    requires Inv(s) && FillSpec(s, s', segs)
    ensures Inv(s')
    ensures s'.out.written == s.out.written && s'.out.ended == s.out.ended && s'.isn == s.isn
    ensures s'.q.base == s.q.base && s'.q.win == s.q.win
    ensures forall i :: 0 <= i < |segs| ==> Genuine(segs[i], s.isn, s.out)
  {
    hide Wrap, Counted, Sized, Held, Queue.Remain, Sender.DataSegment, Accurate;
    InvFacts(s);
    if s.q.finAcked || s.q.finSent {
    } else if !s.q.synSent {
      SynInv(s, s.t.Kicked());
      assert Accurate(segs[0], 0, s.isn, s.out);
    } else if s.out.Eof() && s.q.Remain() > 1 {
      FinInv(s, s.t.Kicked());
      assert Accurate(segs[0], s.q.next, s.isn, s.out);
    } else if s.q.synAcked {
      ManyInv(s, |segs|);
      forall i | 0 <= i < |segs|
        ensures Genuine(segs[i], s.isn, s.out)
      {
        BurstAccurate(s, segs, i);
      }
    }
  }

  /** Filling takes up new sequence numbers exactly if it puts something out. */
  lemma FillGrows(s: Sender, s': Sender, segs: seq<Segment>)
    requires s.out.Valid() && FillSpec(s, s', segs)
    ensures s.q.next <= s'.q.next
    ensures segs != [] <==> s.q.next < s'.q.next
  {
    hide Wrap, Sender.Take, Sender.TakesFin, Sender.CanSend, Queue.Remain;
    if !s.q.finAcked && !s.q.finSent && s.q.synSent && s.q.synAcked && !(s.out.Eof() && s.q.Remain() > 1) {
      ManyGrow(s, |segs|);
    }
  }

  lemma {:induction false} ManyGrow(s: Sender, n: nat)
    requires s.out.Valid()
    requires forall i :: 0 <= i < n ==> SendMany(s, i).CanSend()
    ensures s.q.next + n <= SendMany(s, n).q.next
  {
    hide Sender.CanSend;
    if n > 0 {
      ManyGrow(s, n - 1);
      DataGrows(SendMany(s, n - 1));
    }
  }

  lemma DataGrows(s: Sender)
    requires s.out.Valid() && s.CanSend()
    ensures s.q.next < s.AfterData().q.next
  {
    hide Wrap, Queue.Remain;
  }

  lemma InvFacts(s: Sender)
    requires Inv(s)
    ensures s.out.Valid() && s.FrontReady() && Sum(s.q.sizes) == |s.q.unAcked| && s.q.base <= s.q.next && s.q.win >= 1
    ensures (s.q.synAcked ==> s.q.synSent) && (s.q.finAcked ==> s.q.finSent) && (s.q.base == 0 <==> !s.q.synAcked)
  {
    if s.q.unAcked != [] {
      FrontFits(s.q.sizes);
    }
  }

  lemma FrontFits(sizes: seq<nat>)
    requires Sum(sizes) > 0
    ensures sizes != [] && sizes[0] <= Sum(sizes)
  {
    TotalMonotone(sizes, 1, |sizes|);
    assert Total(sizes, 1) == sizes[0];
  }

  lemma BurstAccurate(s: Sender, segs: seq<Segment>, i: nat)
    requires Inv(s) && s.q.synAcked && !s.q.finSent && i < |segs|
    requires forall j :: 0 <= j < |segs| ==> SendMany(s, j).CanSend() && segs[j] == SendMany(s, j).DataSegment()
    ensures Accurate(segs[i], SendMany(s, i).q.next, s.isn, s.out)
  {
    hide Wrap, Counted, Sized, Held, Sender.CanSend, Sender.DataSegment, Accurate;
    InvFacts(s);
    ManyInv(s, i);
    var r := SendMany(s, i);
    StillOpen(r);
    DataInv(r);
    AccurateLater(segs[i], r.q.next, s.isn, r.out, s.out);
  }

  // -- Retransmission --------------------------------------------------------------------------

  /** The absolute number at which the segment sent again starts. */
  function RetransmitStart(s: Sender): int {
    if s.RetransmitsSyn() then 0 else if s.q.unAcked != [] then s.q.base else s.q.next - 1
  }

  /** While the timer runs there is always something to send again, and it is a true slice. */
  lemma RetransmitAccurate(s: Sender)
    requires Inv(s) && s.t.running
    ensures s.FrontReady() && !s.q.finAcked
    ensures s.q.synSent && (s.RetransmitsSyn() || s.q.unAcked != [] || s.q.finSent)
    ensures RetransmitStart(s) >= 0
    ensures Accurate(s.RetransmitSegment(), RetransmitStart(s), s.isn, s.out)
  {
    hide Wrap, Sum;
    InvFacts(s);
    if s.RetransmitsSyn() {
      SynInv(s, s.t);
    } else if s.q.unAcked != [] {
      FrontAccurate(s);
    }
  }

  lemma FrontAccurate(s: Sender)
    requires Inv(s) && s.q.unAcked != [] && s.FrontReady()
    ensures Accurate(s.FrontSegment(), s.q.base, s.isn, s.out)
  {
    hide Wrap, Sum;
  }

  /** It is the earliest segment outstanding, unless the FIN went out before the SYN was
      acknowledged: then the FIN is sent again instead of the SYN. */
  lemma RetransmitEarliest(s: Sender)
    requires Inv(s) && s.t.running
    ensures RetransmitStart(s) == s.q.base <==> s.q.synAcked || !s.q.finSent
  {
  }

  lemma TickInv(s: Sender, ms: nat, s': Sender, segs: seq<Segment>)
    requires Inv(s) && s.FrontReady() && TickSpec(s, ms, s', segs)
    ensures Inv(s')
    ensures s'.out == s.out && s'.isn == s.isn && s'.q.base == s.q.base && s'.q.win == s.q.win
    ensures |segs| <= 1
    ensures segs != [] ==> s.t.running && segs[0] == s.RetransmitSegment()
    ensures forall i :: 0 <= i < |segs| ==> Genuine(segs[i], s.isn, s.out)
  {
    hide Wrap, Counted, Sized, Held, Accurate, Queue.Remain;
    if s.t.running {
      var s1 := s.(t := s.t.Ticked(ms));
      if s1.t.elapsed >= s1.t.timeout {
        RetransmitAccurate(s1);
        if s1.RetransmitsSyn() {
          SynInv(s1, s1.t.Backed());
        }
      }
    }
  }

  // -- Acknowledgments ----------------------------------------------------------------------------

  /** The acknowledgments that the sender handles as meant: ignored ones; the SYN's own; the end
      of everything including the FIN; the boundary of a segment, or the inside of the front
      one; and, while nothing is in flight, any number beyond. */
  ghost predicate Harmless(q: Queue, abs: nat) {
    || AckIgnored(q, abs)
    || (if !q.synSent then abs != 1
        else if !q.synAcked then abs == 1
        else if abs > q.next then q.unAcked == []
        else
          || (q.finSent && abs == q.next)
          || OnBoundary(q.sizes, abs - q.base)
          || (q.sizes != [] && abs - q.base < q.sizes[0]))
  }

  /** The base that a harmless acknowledgment leads to. */
  function NewBase(q: Queue, abs: nat): nat {
    if q.base < abs <= q.next then abs else q.base
  }

  lemma CutSized(q: Queue, n: nat, sizes': seq<nat>)
    requires Sized(q) && CutSizes(q.sizes, n, sizes')
    ensures Sized(q.(sizes := sizes'))
  {
    hide Total;
    if i: nat :| AtEnd(q.sizes, n, i) && sizes' == q.sizes[i..] {
    } else if i: nat :| Inside(q.sizes, n, i) && sizes' == q.sizes[i := Total(q.sizes, i + 1) - n] {
      TotalStep(q.sizes, i);
    }
  }

  lemma EraseHeld(q: Queue, out: Stream, n: nat)
    requires Held(q, out) && n <= |q.unAcked|
    ensures Held(q.(unAcked := q.unAcked[n..]), out)
  {
  }

  lemma EraseHarmless(s: Sender, abs: nat, q': Queue)
    requires Inv(s) && s.q.synAcked && s.q.base < abs <= s.q.next && s.q.unAcked != []
    requires !(s.q.finSent && abs == s.q.next)
    requires EraseSpec(s.q, abs, q')
    ensures Counted(q', s.out) <==> OnBoundary(s.q.sizes, abs - s.q.base) || (s.q.sizes != [] && abs - s.q.base < s.q.sizes[0])
    ensures Sized(q') && Held(q', s.out) && q'.base == abs
  {
    hide Sum, CutSizes, OnBoundary, Proper;
    var n := abs - s.q.base;
    CutSums(s.q.sizes, n, q'.sizes);
    EraseHeld(s.q, s.out, n);
    CutSized(s.q, n, q'.sizes);
  }

  lemma AdvanceHarmless(s: Sender, abs: nat, q': Queue, t': Clock)
    requires Inv(s) && !AckIgnored(s.q, abs)
    requires Sum(s.q.sizes) == |s.q.unAcked| && AdvanceSpec(s.q, abs, q')
    requires t'.running <==> q'.unAcked != [] || (q'.finSent && !q'.finAcked)
    ensures Inv(s.(q := q', t := t')) <==> Harmless(s.q, abs)
    ensures Harmless(s.q, abs) ==> q'.base == NewBase(s.q, abs)
  {
    hide EraseSpec, OnBoundary, Sum;
    if abs == 1 || (s.q.finSent && abs == s.q.next) || s.q.unAcked == [] {
      FlagsHarmless(s, abs, q', t');
    } else if abs <= s.q.next {
      EraseHarmless(s, abs, q');
      EraseFlags(s.q, abs, q');
      hide Sized, Held;
    } else {
      NotErased(s, abs, q');
    }
  }

  lemma EraseFlags(q: Queue, abs: nat, q': Queue)
    requires q.base < abs && Sum(q.sizes) == |q.unAcked| && EraseSpec(q, abs, q')
    ensures q'.finSent == q.finSent && q'.finAcked == q.finAcked && q'.next == q.next
  {
    hide CutSizes;
  }

  /** Acknowledgments of the SYN, of the FIN, and with no bytes in flight. */
  lemma FlagsHarmless(s: Sender, abs: nat, q': Queue, t': Clock)
    requires Inv(s) && !AckIgnored(s.q, abs)
    requires Sum(s.q.sizes) == |s.q.unAcked| && AdvanceSpec(s.q, abs, q')
    requires abs == 1 || (s.q.finSent && abs == s.q.next) || s.q.unAcked == []
    requires t'.running <==> q'.unAcked != [] || (q'.finSent && !q'.finAcked)
    ensures Inv(s.(q := q', t := t')) <==> Harmless(s.q, abs)
    ensures Harmless(s.q, abs) ==> q'.base == NewBase(s.q, abs)
  {
    hide EraseSpec;
    assert OnBoundary(s.q.sizes, Sum(s.q.sizes));
    if abs == 1 {
    } else if s.q.finSent && abs == s.q.next {
      if s.q.unAcked == [] {
        assert Inv(s.(q := q', t := t')) <==> Harmless(s.q, abs);
      } else {
        assert Inv(s.(q := q', t := t')) <==> Harmless(s.q, abs);
      }
    } else {
      assert q' == s.q;
    }
  }

  lemma NotErased(s: Sender, abs: nat, q': Queue)
    requires Inv(s) && s.q.unAcked != [] && abs > s.q.next && EraseSpec(s.q, abs, q')
    ensures Sum(q'.sizes) != |q'.unAcked|
  {
    hide Total;
    var n := abs - s.q.base;
    if i: nat :| AtEnd(s.q.sizes, n, i) {
      TotalMonotone(s.q.sizes, i, |s.q.sizes|);
    } else if i: nat :| Inside(s.q.sizes, n, i) {
      TotalMonotone(s.q.sizes, i + 1, |s.q.sizes|);
    }
  }

  /** The invariant survives an acknowledgment if and only if it is harmless -- which the sender's
      state before the call decides. */
  lemma AckInv(s: Sender, ackno: uint32, window: uint16, s': Sender)
    requires Inv(s) && s.q.base + TWO31 < TWO63 && Sum(s.q.sizes) == |s.q.unAcked|
    requires AckSpec(s, ackno, window, s')
    ensures Inv(s') <==> Harmless(s.q, AbsoluteAck(s, ackno))
    ensures s'.out == s.out && s'.isn == s.isn && s'.q.next == s.q.next && s'.q.win == Max(window, 1)
    ensures Harmless(s.q, AbsoluteAck(s, ackno)) ==> s'.q.base == NewBase(s.q, AbsoluteAck(s, ackno))
  {
    hide Wrap, Unwrap, AdvanceSpec, Inv, Harmless, Sum;
    var abs := AbsoluteAck(s, ackno);
    var s1 := s.(q := s.q.(win := Max(window, 1)), t := s.t.(doubling := window != 0));
    WindowInv(s, Max(window, 1), window != 0, abs);
    if !AckIgnored(s.q, abs) {
      AdvanceHarmless(s1, abs, s'.q, s'.t);
      AdvanceKeeps(s1.q, abs, s'.q);
      assert s' == s1.(q := s'.q, t := s'.t);
    }
  }

  /** The window plays no part in the accounting. */
  lemma WindowInv(s: Sender, win: nat, doubling: bool, abs: nat)
    requires Inv(s) && win >= 1
    ensures Inv(s.(q := s.q.(win := win), t := s.t.(doubling := doubling)))
    ensures Harmless(s.q.(win := win), abs) <==> Harmless(s.q, abs)
    ensures AckIgnored(s.q, abs) ==> Harmless(s.q, abs)
    ensures Sum(s.q.sizes) == |s.q.unAcked| && s.q.base <= s.q.next
  {
    hide Sum, Harmless, Counted, Sized, Held;
    InvFacts(s);
    WindowHarmless(s.q, win, abs);
    WindowCounted(s.q, s.out, win);
    WindowHeld(s.q, s.out, win);
  }

  lemma WindowCounted(q: Queue, out: Stream, win: nat)
    requires Counted(q, out) && win >= 1
    ensures Counted(q.(win := win), out)
  {
    hide Sum;
  }

  lemma WindowHeld(q: Queue, out: Stream, win: nat)
    ensures Held(q.(win := win), out) <==> Held(q, out)
    ensures Sized(q.(win := win)) <==> Sized(q)
  {
    hide Proper;
  }

  lemma WindowHarmless(q: Queue, win: nat, abs: nat)
    ensures Harmless(q.(win := win), abs) <==> Harmless(q, abs)
    ensures AckIgnored(q, abs) ==> Harmless(q, abs)
  {
    hide OnBoundary;
  }

  lemma AdvanceKeeps(q: Queue, abs: nat, q': Queue)
    requires q.base < abs && Sum(q.sizes) == |q.unAcked| && AdvanceSpec(q, abs, q')
    ensures q'.next == q.next && q'.win == q.win
  {
    hide CutSizes;
  }

  // -- Runs -------------------------------------------------------------------------------------

  datatype Event =
    | Write(data: seq<byte>)
    | End
    | Fill
    | Tick(ms: nat)
    | Ack(ackno: uint32, window: uint16)

  /** What the calls on the sender rely on. */
  ghost predicate Callable(s: Sender) {
    s.out.Valid() && s.FrontReady() && Sum(s.q.sizes) == |s.q.unAcked|
  }

  /** One call on the sender; `segs` are the segments it puts out. Acknowledgments are harmless ones. */
  ghost predicate Step(s: Sender, e: Event, s': Sender, segs: seq<Segment>) {
    Callable(s) ==>
    match e
    case Write(data) => WriteSpec(s, data, s') && segs == []
    case End => EndSpec(s, s') && segs == []
    case Fill => FillSpec(s, s', segs)
    case Tick(ms) => TickSpec(s, ms, s', segs)
    case Ack(ackno, window) =>
      s.q.base + TWO31 < TWO63 && Harmless(s.q, AbsoluteAck(s, ackno)) && AckSpec(s, ackno, window, s') && segs == []
  }

  lemma StepInv(s: Sender, e: Event, s': Sender, segs: seq<Segment>)
    requires Inv(s) && Step(s, e, s', segs)
    ensures Inv(s') && s'.isn == s.isn
    ensures s.out.written <= s'.out.written && (s.out.ended ==> s'.out.ended && s'.out.written == s.out.written)
    ensures forall i :: 0 <= i < |segs| ==> Genuine(segs[i], s.isn, s'.out)
  {
    hide Wrap, Inv, Harmless, FillSpec, TickSpec, AckSpec, Genuine, Sum;
    InvFacts(s);
    match e
    case Write(data) => WriteInv(s, data, s');
    case End => EndInv(s, s');
    case Fill =>
      FillInv(s, s', segs);
      forall i | 0 <= i < |segs| ensures Genuine(segs[i], s.isn, s'.out) {
        GenuineLater(segs[i], s.isn, s.out, s'.out);
      }
    case Tick(ms) => TickInv(s, ms, s', segs);
    case Ack(ackno, window) => AckInv(s, ackno, window, s');
  }

  lemma GenuineLater(seg: Segment, isn: uint32, out: Stream, out': Stream)
    requires Genuine(seg, isn, out)
    requires out.written <= out'.written && (out.ended ==> out'.ended && out'.written == out.written)
    ensures Genuine(seg, isn, out')
  {
    hide Accurate;
    var abs: nat :| Accurate(seg, abs, isn, out);
    AccurateLater(seg, abs, isn, out, out');
  }

  ghost predicate Run(first: Sender, events: seq<Event>, states: seq<Sender>, segs: seq<seq<Segment>>) {
    && |states| == |events| + 1 == |segs| + 1
    && states[0] == first
    && forall i :: 0 <= i < |events| ==> Step(states[i], events[i], states[i + 1], segs[i])
  }

  /** Over every run with harmless acknowledgments: the accounting holds in every state, and every
      segment ever put out, first sent or sent again, is and stays a true slice of the stream. */
  lemma {:induction false} SenderSafety(capacity: nat, retxTimeout: uint16, isn: uint32, events: seq<Event>,
                                        states: seq<Sender>, segs: seq<seq<Segment>>, n: nat)
    requires Run(Initial(capacity, retxTimeout, isn), events, states, segs) && n <= |events|
    ensures Inv(states[n]) && states[n].isn == isn
    ensures forall i, j :: 0 <= i < n && 0 <= j < |segs[i]| ==> Genuine(segs[i][j], isn, states[n].out)
  {
    hide Wrap, Inv, Step, Genuine, Sum;
    if n == 0 {
      InitialInv(capacity, retxTimeout, isn);
    } else {
      SenderSafety(capacity, retxTimeout, isn, events, states, segs, n - 1);
      StepInv(states[n - 1], events[n - 1], states[n], segs[n - 1]);
      forall i, j | 0 <= i < n && 0 <= j < |segs[i]|
        ensures Genuine(segs[i][j], isn, states[n].out)
      {
        if i < n - 1 {
          GenuineLater(segs[i][j], isn, states[n - 1].out, states[n].out);
        }
      }
    }
  }

  // -- Flow control -----------------------------------------------------------------------------

  /** The space left is computed correctly exactly if no more is in flight than the window allows;
      otherwise it wraps around to a huge number. */
  lemma ExactSpace(q: Queue)
    requires q.base <= q.next && q.win < TWO64 && q.next - q.base < TWO64
    ensures q.Remain() == q.base + q.win - q.next <==> InWindow(q)
    ensures !InWindow(q) ==> q.Remain() == TWO64 + q.base + q.win - q.next
  {
  }

  lemma DataInWindow(s: Sender)
    requires s.out.Valid() && InWindow(s.q) && s.CanSend()
    ensures InWindow(s.AfterData().q)
  {
    hide Queue.Remain;
    ExactSpace(s.q);
  }

  lemma {:induction false} ManyInWindow(s: Sender, n: nat)
    requires s.out.Valid() && InWindow(s.q)
    requires forall i :: 0 <= i < n ==> SendMany(s, i).CanSend()
    ensures InWindow(SendMany(s, n).q)
  {
    hide InWindow, Sender.CanSend, Sender.AfterData;
    if n > 0 {
      ManyInWindow(s, n - 1);
      DataInWindow(SendMany(s, n - 1));
    }
  }

  /** Filling never overfills, and after the handshake it stops only with the window full or with
      nothing left to send. */
  lemma FillInWindow(s: Sender, s': Sender, segs: seq<Segment>)
    requires Inv(s) && InWindow(s.q) && FillSpec(s, s', segs)
    ensures InWindow(s'.q)
    ensures s.q.synAcked && !s.q.finSent ==> s'.q.next == s'.q.base + s'.q.win || !s'.HasContent()
  {
    hide Wrap, Counted, Sized, Held, Queue.Remain, Sender.SynSegment, Sender.DataSegment;
    InvFacts(s);
    ExactSpace(s.q);
    SynInWindow(s);
    if s.q.finAcked || s.q.finSent || !s.q.synSent {
    } else if s.out.Eof() && s.q.Remain() > 1 {
    } else if s.q.synAcked {
      ManyInWindow(s, |segs|);
      ExactSpace(s'.q);
    }
  }

  lemma SynInWindow(s: Sender)
    requires Inv(s) && InWindow(s.q)
    ensures !s.q.synAcked ==> InWindow(s.AfterSyn().q)
  {
    hide Queue.Remain;
    if !s.q.synAcked {
      ExactSpace(s.SynQueue());
    }
  }

  lemma TickInWindow(s: Sender, ms: nat, s': Sender, segs: seq<Segment>)
    requires Inv(s) && s.FrontReady() && InWindow(s.q) && TickSpec(s, ms, s', segs)
    ensures InWindow(s'.q)
  {
    hide Wrap, Counted, Sized, Held, Queue.Remain, Sender.SynSegment, Sender.RetransmitSegment;
    SynInWindow(s);
  }

  /** After a harmless acknowledgment the window is respected exactly if it leaves room for what is in
      flight (a window of 0 standing for 1) -- whatever the window was before. */
  lemma AckInWindow(s: Sender, ackno: uint32, window: uint16, s': Sender)
    requires Inv(s) && s.q.base + TWO31 < TWO63 && Sum(s.q.sizes) == |s.q.unAcked|
    requires AckSpec(s, ackno, window, s') && Harmless(s.q, AbsoluteAck(s, ackno))
    ensures InWindow(s'.q) <==> s.q.next <= NewBase(s.q, AbsoluteAck(s, ackno)) + Max(window, 1)
  {
    hide Wrap, Unwrap, Counted, Sized, Held, Harmless, AdvanceSpec;
    AckInv(s, ackno, window, s');
    InvFacts(s);
  }

  /** If there is an acknowledgment, its window leaves room for what is in flight. */
  ghost predicate Accommodates(s: Sender, e: Event) {
    e.Ack? && s.q.base + TWO31 < TWO63 ==> s.q.next <= NewBase(s.q, AbsoluteAck(s, e.ackno)) + Max(e.window, 1)
  }

  /** The acknowledgment moves the right edge of the window nowhere to the left. */
  ghost predicate EdgeKept(s: Sender, e: Event) {
    e.Ack? && s.q.base + TWO31 < TWO63 ==>
      s.q.win == 1 || s.q.base + s.q.win <= NewBase(s.q, AbsoluteAck(s, e.ackno)) + e.window
  }

  /** An edge that does not move left leaves room. */
  lemma EdgeAccommodates(s: Sender, e: Event)
    requires InWindow(s.q) && EdgeKept(s, e)
    ensures Accommodates(s, e)
  {
    hide Wrap, Unwrap;
  }

  lemma StepInWindow(s: Sender, e: Event, s': Sender, segs: seq<Segment>)
    requires Inv(s) && InWindow(s.q) && Step(s, e, s', segs)
    ensures InWindow(s'.q) <==> Accommodates(s, e)
  {
    hide Wrap, Unwrap, Inv, Harmless, FillSpec, TickSpec, AckSpec, Sum;
    InvFacts(s);
    match e
    case Write(data) =>
    case End =>
    case Fill => FillInWindow(s, s', segs);
    case Tick(ms) => TickInWindow(s, ms, s', segs);
    case Ack(ackno, window) => AckInWindow(s, ackno, window, s');
  }

  /** Over every run with harmless acknowledgments: no more is ever in flight than the window allows, and
      the space left is always computed exactly, if and only if every acknowledgment left room for
      what was in flight. */
  lemma {:induction false} FlowControl(capacity: nat, retxTimeout: uint16, isn: uint32, events: seq<Event>,
                                       states: seq<Sender>, segs: seq<seq<Segment>>, n: nat)
    requires Run(Initial(capacity, retxTimeout, isn), events, states, segs) && n <= |events|
    ensures (forall k :: 0 <= k <= n ==> InWindow(states[k].q)) <==>
              (forall i :: 0 <= i < n ==> Accommodates(states[i], events[i]))
    ensures forall k :: 0 <= k <= n && InWindow(states[k].q) ==>
              states[k].q.Remain() == states[k].q.base + states[k].q.win - states[k].q.next
  {
    hide Wrap, Inv, Step, Genuine, Sum, Accommodates, Queue.Remain, InWindow;
    if n == 0 {
      InitialInWindow(capacity, retxTimeout, isn);
    } else {
      FlowControl(capacity, retxTimeout, isn, events, states, segs, n - 1);
      SenderSafety(capacity, retxTimeout, isn, events, states, segs, n - 1);
      if InWindow(states[n - 1].q) {
        StepInWindow(states[n - 1], events[n - 1], states[n], segs[n - 1]);
      }
    }
    if InWindow(states[n].q) {
      SpaceInWindow(states[n].q);
    }
  }

  lemma InitialInWindow(capacity: nat, retxTimeout: uint16, isn: uint32)
    ensures InWindow(Initial(capacity, retxTimeout, isn).q)
  {
  }

  lemma SpaceInWindow(q: Queue)
    requires InWindow(q)
    ensures q.base <= q.next <= q.base + q.win
    ensures q.Remain() == q.base + q.win - q.next
  {
  }

  /** In particular, if the right edge never moves left. */
  lemma {:induction false} FlowControlByEdge(capacity: nat, retxTimeout: uint16, isn: uint32, events: seq<Event>,
                                             states: seq<Sender>, segs: seq<seq<Segment>>, n: nat)
    requires Run(Initial(capacity, retxTimeout, isn), events, states, segs) && n <= |events|
    requires forall i :: 0 <= i < n ==> EdgeKept(states[i], events[i])
    ensures InWindow(states[n].q)
  {
    hide Wrap, Inv, Step, Genuine, Sum, EdgeKept, Accommodates, InWindow;
    if n == 0 {
      InitialInWindow(capacity, retxTimeout, isn);
    } else {
      FlowControlByEdge(capacity, retxTimeout, isn, events, states, segs, n - 1);
      SenderSafety(capacity, retxTimeout, isn, events, states, segs, n - 1);
      EdgeAccommodates(states[n - 1], events[n - 1]);
      StepInWindow(states[n - 1], events[n - 1], states[n], segs[n - 1]);
    }
  }

  // -- A FIN ahead of its time ------------------------------------------------------------------

  /** A SYN is in flight. */
  function Calling(isn: uint32): Sender {
    Sender(Queue([], [], true, false, false, false, 0, 1, 1), Clock(1000, 1000, true, 0, 0, true, 0, 0), Stream([], 0, 100, false), isn)
  }

  /** The SYN is in flight and the stream is over; `win` is the window. */
  function SynAlone(isn: uint32, win: nat): Sender {
    Calling(isn).(q := Calling(isn).q.(win := win), out := Stream([], 0, 100, true))
  }

  /** Both SYN and FIN are in flight, neither acknowledged. */
  function FinAhead(isn: uint32): Sender {
    SynAlone(isn, 10).(q := SynAlone(isn, 10).q.(finSent := true, next := 2))
  }

  /** If the stream ends at once, and after the SYN a window is announced without acknowledging it, the FIN
      goes out ahead -- and from then on is what timeouts send, instead of the SYN. */
  lemma EarlyFinExample(isn: uint32)
    ensures var s := Initial(100, 1000, isn);
            var s1 := s.(out := s.out.(ended := true));
            Run(s, [End, Fill, Ack(Wrap(0, isn), 10), Fill], [s, s1, SynAlone(isn, 1), SynAlone(isn, 10), FinAhead(isn)],
                [[], [s1.SynSegment()], [], [SynAlone(isn, 10).FinSegment(1)]])
    ensures var s := FinAhead(isn);
            && Inv(s) && s.t.running && RetransmitStart(s) == 1 && s.q.base == 0
            && s.FrontReady() && s.RetransmitSegment() == s.FinSegment(1)
  {
    hide Wrap, Unwrap, Step;
    var s := Initial(100, 1000, isn);
    var s1 := s.(out := s.out.(ended := true));
    var events := [End, Fill, Ack(Wrap(0, isn), 10), Fill];
    var states := [s, s1, SynAlone(isn, 1), SynAlone(isn, 10), FinAhead(isn)];
    var segs := [[], [s1.SynSegment()], [], [SynAlone(isn, 10).FinSegment(1)]];
    EarlyFinSteps(isn);
    forall i | 0 <= i < |events|
      ensures Step(states[i], events[i], states[i + 1], segs[i])
    {
      assert i == 0 || i == 1 || i == 2 || i == 3;
    }
  }

  lemma EarlyFinSteps(isn: uint32)
    ensures var s := Initial(100, 1000, isn);
            var s1 := s.(out := s.out.(ended := true));
            && Step(s, End, s1, []) && Step(s1, Fill, SynAlone(isn, 1), [s1.SynSegment()])
            && Step(SynAlone(isn, 1), Ack(Wrap(0, isn), 10), SynAlone(isn, 10), [])
            && Step(SynAlone(isn, 10), Fill, FinAhead(isn), [SynAlone(isn, 10).FinSegment(1)])
  {
    hide Wrap, Unwrap;
    UnwrapExact(0, isn, 0);
  }

  // -- Acknowledgments of what was not sent, or of SYN and FIN at once -------------------------------

  /** An acknowledgment after which the accounting no longer holds. */
  ghost predicate Breaks(s: Sender, ackno: uint32, window: uint16, s': Sender) {
    && Inv(s) && s.q.base + TWO31 < TWO63 && Sum(s.q.sizes) == |s.q.unAcked|
    && AckSpec(s, ackno, window, s')
    && !Inv(s')
  }

  function BothAcked(isn: uint32): Sender {
    FinAhead(isn).(q := FinAhead(isn).q.(finAcked := true, base := 1), t := FinAhead(isn).t.Stopped())
  }

  /** For instance: the acknowledgment of SYN and FIN at once counts the FIN only. A number stays in flight
      for good, with the timer stopped. */
  lemma BothAckedExample(isn: uint32)
    ensures Breaks(FinAhead(isn), Wrap(2, isn), 10, BothAcked(isn))
    ensures var s' := BothAcked(isn); s'.q.base < s'.q.next && !s'.t.running
  {
    hide Wrap, Unwrap, Inv, Sum;
    EarlyFinExample(isn);
    InvFacts(FinAhead(isn));
    UnwrapExact(2, isn, 0);
    AckInv(FinAhead(isn), Wrap(2, isn), 10, BothAcked(isn));
  }

  /** For instance: an acknowledgment beyond a SYN in flight stops the timer, so that the SYN is never sent again. */
  lemma SynForgottenExample(isn: uint32)
    ensures var s' := Calling(isn).(t := Calling(isn).t.Stopped());
            Breaks(Calling(isn), Wrap(5, isn), 1, s') && s'.q.base < s'.q.next && !s'.t.running
  {
    hide Wrap, Unwrap, Inv, Sum;
    CallingInv(isn);
    InvFacts(Calling(isn));
    UnwrapExact(5, isn, 0);
    AckInv(Calling(isn), Wrap(5, isn), 1, Calling(isn).(t := Calling(isn).t.Stopped()));
  }

  lemma CallingInv(isn: uint32)
    ensures Inv(Calling(isn))
  {
    hide Wrap, Unwrap, FillSpec, Inv;
    HandshakeSteps(isn);
    InitialInv(100, 1000, isn);
    StepInv(Initial(100, 1000, isn), Fill, Calling(isn), [Initial(100, 1000, isn).SynSegment()]);
  }

  /** For instance: an acknowledgment of the SYN before it is sent puts the base behind the next number. */
  lemma NothingSentExample(isn: uint32)
    ensures var s := Initial(100, 1000, isn);
            var s' := s.(q := s.q.(synAcked := true, base := 1), t := s.t.Stopped());
            Breaks(s, Wrap(1, isn), 1, s') && s'.q.next < s'.q.base
  {
    hide Wrap, Unwrap, Inv, Sum;
    var s := Initial(100, 1000, isn);
    var s' := s.(q := s.q.(synAcked := true, base := 1), t := s.t.Stopped());
    InitialInv(100, 1000, isn);
    InvFacts(s);
    UnwrapExact(1, isn, 0);
    AckInv(s, Wrap(1, isn), 1, s');
  }

  // -- A window that shrinks --------------------------------------------------------------------

  /** The sender after the handshake, with a window of `win` and `n` of the bytes of `data` in flight. */
  function Flying(isn: uint32, data: seq<byte>, n: nat, win: nat): Sender
    requires n <= |data|
  {
    Sender(Queue(data[..n], if n == 0 then [] else [n], true, true, false, false, 1, 1 + n, win),
           Clock(1000, 1000, n > 0, 0, 0, true, 0, 0), Stream(data, n, 100, false), isn)
  }

  /** For instance: five bytes are in flight in a window of ten. An acknowledgment of none of them that
      announces a window of three is harmless, but makes the space left 2^64 - 2. */
  lemma ShrinkExample(isn: uint32, data: seq<byte>)
    requires |data| == 5
    ensures var s := Initial(100, 1000, isn);
            var states := [s, Calling(isn), Flying(isn, [], 0, 10), Flying(isn, data, 0, 10), Flying(isn, data, 5, 10), Flying(isn, data, 5, 3)];
            var events := [Fill, Ack(Wrap(1, isn), 10), Write(data), Fill, Ack(Wrap(1, isn), 3)];
            && Run(s, events, states, [[s.SynSegment()], [], [], [Flying(isn, data, 0, 10).DataSegment()], []])
            && !InWindow(states[5].q) && states[5].q.Remain() == TWO64 - 2
  {
    hide Wrap, Unwrap, Step;
    var s := Initial(100, 1000, isn);
    var states := [s, Calling(isn), Flying(isn, [], 0, 10), Flying(isn, data, 0, 10), Flying(isn, data, 5, 10), Flying(isn, data, 5, 3)];
    var events := [Fill, Ack(Wrap(1, isn), 10), Write(data), Fill, Ack(Wrap(1, isn), 3)];
    var segs := [[s.SynSegment()], [], [], [Flying(isn, data, 0, 10).DataSegment()], []];
    HandshakeSteps(isn);
    SendSteps(isn, data);
    ShrinkStep(isn, data);
    forall i | 0 <= i < |events|
      ensures Step(states[i], events[i], states[i + 1], segs[i])
    {
      assert i == 0 || i == 1 || i == 2 || i == 3 || i == 4;
    }
  }

  lemma HandshakeSteps(isn: uint32)
    ensures Step(Initial(100, 1000, isn), Fill, Calling(isn), [Initial(100, 1000, isn).SynSegment()])
    ensures Step(Calling(isn), Ack(Wrap(1, isn), 10), Flying(isn, [], 0, 10), [])
  {
    hide Wrap, Unwrap;
    UnwrapExact(1, isn, 0);
  }

  lemma SendSteps(isn: uint32, data: seq<byte>)
    requires 0 < |data| <= 10
    ensures Step(Flying(isn, [], 0, 10), Write(data), Flying(isn, data, 0, 10), [])
    ensures Step(Flying(isn, data, 0, 10), Fill, Flying(isn, data, |data|, 10), [Flying(isn, data, 0, 10).DataSegment()])
  {
    hide Wrap, Unwrap;
    var a, b := Flying(isn, data, 0, 10), Flying(isn, data, |data|, 10);
    assert a.AfterData() == b by {
      assert [] + data[0..|data|] == data[..|data|];
    }
    assert SendMany(a, 0) == a && SendMany(a, 1) == b;
    assert [] + data[..|data|] == data;
  }

  lemma ShrinkStep(isn: uint32, data: seq<byte>)
    requires |data| == 5
    ensures Step(Flying(isn, data, 5, 10), Ack(Wrap(1, isn), 3), Flying(isn, data, 5, 3), [])
  {
    hide Wrap, Unwrap;
    UnwrapExact(1, isn, 1);
  }

  // -- An acknowledgment inside a later segment ---------------------------------------------------

  /** Three bytes in flight, three more written. */
  function HalfSent(isn: uint32, x: seq<byte>, y: seq<byte>): Sender
    requires |x| == 3
  {
    Flying(isn, x, 3, 10).(out := Stream(x + y, 3, 100, false))
  }

  /** Two segments of three bytes in flight. */
  function TwoFlying(isn: uint32, x: seq<byte>, y: seq<byte>): Sender
    requires |x| == 3 && |y| == 3
  {
    Flying(isn, x, 3, 10).(q := Queue(x + y, [3, 3], true, true, false, false, 1, 7, 10), out := Stream(x + y, 6, 100, false))
  }

  /** For instance: of two segments of three bytes in flight four bytes are acknowledged. Two bytes are
      left in flight, but the sizes recorded for them are three and two. */
  lemma StaleExample(isn: uint32, x: seq<byte>, y: seq<byte>, s': Sender)
    requires |x| == 3 && |y| == 3
    requires s' == TwoFlying(isn, x, y).(q := Queue(y[1..], [3, 2], true, true, false, false, 5, 7, 10))
    ensures var s := Initial(100, 1000, isn);
            Run(s, [Fill, Ack(Wrap(1, isn), 10), Write(x), Fill, Write(y), Fill],
                [s, Calling(isn), Flying(isn, [], 0, 10), Flying(isn, x, 0, 10), Flying(isn, x, 3, 10), HalfSent(isn, x, y), TwoFlying(isn, x, y)],
                [[s.SynSegment()], [], [], [Flying(isn, x, 0, 10).DataSegment()], [], [HalfSent(isn, x, y).DataSegment()]])
    ensures Inv(TwoFlying(isn, x, y)) && AckSpec(TwoFlying(isn, x, y), Wrap(5, isn), 10, s')
    ensures Sum(s'.q.sizes) == 5 && |s'.q.unAcked| == 2 && !Inv(s')
  {
    hide Wrap, Unwrap, Step, AckSpec, Inv;
    HandshakeSteps(isn);
    SendSteps(isn, x);
    StaleSteps(isn, x, y);
    StaleAck(isn, x, y, s');
    var s := Initial(100, 1000, isn);
    var events := [Fill, Ack(Wrap(1, isn), 10), Write(x), Fill, Write(y), Fill];
    var states := [s, Calling(isn), Flying(isn, [], 0, 10), Flying(isn, x, 0, 10), Flying(isn, x, 3, 10), HalfSent(isn, x, y), TwoFlying(isn, x, y)];
    var segs := [[s.SynSegment()], [], [], [Flying(isn, x, 0, 10).DataSegment()], [], [HalfSent(isn, x, y).DataSegment()]];
    forall i | 0 <= i < |events|
      ensures Step(states[i], events[i], states[i + 1], segs[i])
    {
      assert i == 0 || i == 1 || i == 2 || i == 3 || i == 4 || i == 5;
    }
  }

  lemma StaleSteps(isn: uint32, x: seq<byte>, y: seq<byte>)
    requires |x| == 3 && |y| == 3
    ensures Step(Flying(isn, x, 3, 10), Write(y), HalfSent(isn, x, y), [])
    ensures Step(HalfSent(isn, x, y), Fill, TwoFlying(isn, x, y), [HalfSent(isn, x, y).DataSegment()])
  {
    hide Wrap, Unwrap;
    assert y[..3] == y;
    var c, d := HalfSent(isn, x, y), TwoFlying(isn, x, y);
    assert c.AfterData() == d by {
      assert x[..3] + (x + y)[3..6] == x + y;
    }
    assert SendMany(c, 0) == c && SendMany(c, 1) == d;
  }

  lemma StaleAck(isn: uint32, x: seq<byte>, y: seq<byte>, s': Sender)
    requires |x| == 3 && |y| == 3
    requires s' == TwoFlying(isn, x, y).(q := Queue(y[1..], [3, 2], true, true, false, false, 5, 7, 10))
    ensures Inv(TwoFlying(isn, x, y)) && AckSpec(TwoFlying(isn, x, y), Wrap(5, isn), 10, s')
    ensures Sum(s'.q.sizes) == 5 && |s'.q.unAcked| == 2 && !Inv(s')
  {
    hide Wrap, Unwrap, CutSizes;
    var s := TwoFlying(isn, x, y);
    UnwrapExact(5, isn, 1);
    StaleSizesExample();
    assert Sum([3, 3]) == 6 by {
      assert Total([3, 3], 1) == 3;
    }
    assert (x + y)[4..] == y[1..];
    assert s.out.written[0..6] == x + y;
  }

  // -- Giving up ------------------------------------------------------------------------------------

  function Pow2(n: nat): nat {
    if n == 0 then 1 else 2 * Pow2(n - 1)
  }

  lemma {:induction false} Pow2Grows(m: nat, n: nat)
    requires m <= n
    ensures 1 <= Pow2(m) <= Pow2(n)
  {
    if m < n {
      Pow2Grows(m, n - 1);
    } else if m > 0 {
      Pow2Grows(m - 1, m - 1);
    }
  }

  /** Since the timer was started: the timeout has been doubled `doubled` times, out of as many
      retransmissions at most, and each of them took at least the timeout it had to wait for. */
  ghost predicate Paced(t: Clock) {
    && t.initial < 0x1_0000
    && t.doubled <= t.retransmissions <= 9
    && t.timeout == t.initial * Pow2(t.doubled)
    && t.initial * (Pow2(t.doubled) - 1) + t.initial * (t.retransmissions - t.doubled) + t.elapsed <= t.total
  }

  lemma TickPaced(t: Clock, ms: nat)
    requires Paced(t)
    ensures Paced(t.Ticked(ms))
  {
  }

  /** A timeout that has been waited for keeps the pace; the doubling does not overflow 32 bits. */
  lemma BackPaced(t: Clock)
    requires Paced(t) && t.elapsed >= t.timeout && t.retransmissions <= 8
    ensures Paced(t.Backed())
    ensures t.doubling ==> t.Backed().timeout == 2 * t.timeout
  {
    Pow2Grows(t.doubled, 8);
    assert Pow2(8) == 256;
    Products(t.initial, Pow2(t.doubled), t.retransmissions - t.doubled);
    assert Pow2(t.doubled + 1) == 2 * Pow2(t.doubled);
  }

  lemma Products(a: nat, p: nat, k: nat)
    requires 1 <= p <= 256
    ensures a * (2 * p) == 2 * (a * p)
    ensures a * (2 * p - 1) == a * (p - 1) + a * p
    ensures a * (k + 1) == a * k + a
    ensures a <= a * p <= a * 256
  {
  }

  /** Giving up after nine retransmissions takes 511 initial timeouts if all of them doubled the
      timeout, and no less than nine in any case. */
  lemma GiveUpTime(t: Clock)
    requires Paced(t) && t.retransmissions == 9
    ensures t.doubled == 9 ==> 511 * t.initial <= t.total
    ensures 9 * t.initial <= t.total
  {
    assert Pow2(9) == 512;
    PowAtLeast(t.doubled);
    if t.doubled < 9 {
      Nine(t.initial, Pow2(t.doubled) - 1, 9 - t.doubled);
    }
  }

  lemma Nine(a: nat, p: nat, k: nat)
    requires p + k >= 9
    ensures a * p + a * k >= 9 * a
  {
    assert a * p + a * k == a * (p + k);
  }

  lemma {:induction false} PowAtLeast(n: nat)
    ensures Pow2(n) >= n + 1
  {
    if n > 0 {
      PowAtLeast(n - 1);
    }
  }
}
