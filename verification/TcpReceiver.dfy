/** The receiving half of a connection. */
module TcpReceivers {
  import opened Machine
  import opened WrappingIntegers
  import opened ByteStreams
  import opened Fragments
  import opened TcpSegments
  import opened Reassembly

  datatype Receiver = Receiver(asm: Assembler, synRecv: bool, isn: uint32, ackno: uint32) {
    /** The absolute number of the next sequence number expected. */
    function Expected(): nat {
      asm.Next() + 1 + (if asm.out.ended then 1 else 0)
    }

    function Window(): int {
      asm.out.Room()
    }

    ghost predicate Valid() {
      && asm.Valid()
      && (synRecv ==> ackno == Wrap(Expected(), isn))
      && (!synRecv ==> asm.Next() == 0 && !asm.out.ended)
    }

    /** Room in the 64-bit numbers for a segment of `n` bytes. */
    predicate Spacious(n: nat) {
      asm.Limit() + n + TWO32 < TWO63
    }

    /** The stream index that a segment's payload is taken to start at. A sequence number equal
        to the initial one stands for the SYN; on any other segment it wraps to the last index. */
    function IndexOf(seg: Segment): uint64
      requires asm.Next() + TWO31 < TWO63
    {
      if seg.header.syn then 0 else (Unwrap(seg.header.seqno, isn, asm.Next()) - 1) % TWO64
    }

    /** Segments that are not looked at: a second SYN, or anything before the first. */
    predicate Ignores(seg: Segment) {
      seg.header.syn == synRecv
    }
  }

  ghost predicate ReceiveSpec(r: Receiver, seg: Segment, r': Receiver)
    requires r.Valid() && r.Spacious(|seg.payload|)
  {
    if r.Ignores(seg) then r' == r
    else
      && r'.synRecv
      && r'.isn == (if seg.header.syn then seg.header.seqno else r.isn)
      && PushSpec(r.asm, seg.payload, r.IndexOf(seg), seg.header.fin, r'.asm)
      && r'.ackno == Wrap(r'.Expected(), r'.isn)
  }

  class TCPReceiver {
    const reassembler: StreamReassembler
    const capacity: nat
    var synRecv: bool
    var isn: uint32
    var ackno: uint32

    ghost function View(): Receiver
      reads this, reassembler, reassembler.output
    {
      Receiver(reassembler.View(), synRecv, isn, ackno)
    }

    ghost predicate Valid()
      reads this, reassembler, reassembler.output
    {
      && reassembler.Valid()
      && reassembler.capacity == capacity
      && View().Valid()
    }

    constructor (capacity: nat)
      ensures Valid() && fresh(reassembler) && fresh(reassembler.output) && !reassembler.output.error
      ensures this.capacity == capacity
      ensures View() == Receiver(Assembler(Stream([], 0, capacity, false), map[], false, 0), false, 0, 0)
    {
      reassembler := new StreamReassembler(capacity);
      this.capacity := capacity;
      synRecv, isn, ackno := false, 0, 0;
    }

    method SegmentReceived(seg: Segment)
      requires Valid() && View().Spacious(|seg.payload|)
      modifies this, reassembler, reassembler.output
      ensures Valid() && reassembler.output.error == old(reassembler.output.error)
      ensures ReceiveSpec(old(View()), seg, View())
    {
      hide Represents, Size, Disjoint, PushSpec, Wrap, Unwrap;
      var h := seg.header;
      var absIndex: uint64;
      if h.syn {
        if synRecv {
          return;
        }
        synRecv := true;
        isn := h.seqno;
        absIndex := 0;
      } else {
        if !synRecv {
          return;
        }
        var checkpoint := reassembler.output.bytesWritten;
        absIndex := (Unwrap(h.seqno, isn, checkpoint) - 1) % TWO64;
      }
      reassembler.PushSubstring(seg.payload, absIndex, h.fin);
      var output := reassembler.output;
      var exSqn := output.bytesWritten + 1;
      ackno := Wrap(exSqn, isn);
      if output.inputEnded {
        WrapNext(exSqn, isn);
        ackno := Plus(ackno, 1);
      }
    }

    method Ackno() returns (a: Option<uint32>)
      requires Valid()
      ensures a == if View().synRecv then Some(View().ackno) else None
      ensures a.Some? ==> a.value == Wrap(View().Expected(), View().isn)
    {
      hide Represents, Size, Disjoint, Wrap;
      a := if synRecv then Some(ackno) else None;
    }

    method WindowSize() returns (n: nat)
      requires Valid()
      ensures n == View().Window()
      ensures View().asm.Next() + n == View().asm.out.read + View().asm.out.capacity
    {
      hide Represents, Size, Disjoint, Wrap;
      n := capacity - reassembler.output.size;
    }

    /** A reader takes bytes off the inbound stream. */
    method ReadInbound(len: nat) returns (bytes: seq<byte>)
      requires Valid()
      modifies reassembler.output
      ensures Valid() && reassembler.output.error == old(reassembler.output.error)
      ensures View() == old(View()).(asm := View().asm) && ReadSpec(old(View()).asm, len, View().asm)
      ensures |bytes| == Min(old(View()).asm.out.Buffered(), len)
      ensures bytes == View().asm.out.written[old(View()).asm.out.read..View().asm.out.read]
    {
      hide Represents, Size, Disjoint, Wrap;
      bytes := reassembler.ReadOutput(len);
    }
  }

  lemma WrapNext(n: nat, isn: uint32)
    ensures Plus(Wrap(n, isn), 1) == Wrap(n + 1, isn)
  {
    WrapSum(n, isn);
    WrapSum(n + 1, isn);
    ShiftByMultiple(isn + n + 1, (isn + n) % TWO32 + 1, (isn + n) / TWO32);
  }

  /** The window on offer reaches exactly up to the first byte that the capacity rules out. */
  lemma WindowIsRoom(r: Receiver)
    requires r.Valid()
    ensures 0 <= r.Window() <= r.asm.out.capacity
    ensures r.asm.Next() + r.Window() == r.asm.out.read + r.asm.out.capacity
  {
    hide Represents, Size, Disjoint, Wrap;
  }

  // -- Runs of the receiver ------------------------------------------------------------

  datatype Event = Arrive(seg: Segment) | Read(len: nat)

  /** One call, made in a state that is in order, within the reach of 64-bit indices. */
  ghost predicate Step(r: Receiver, e: Event, r': Receiver) {
    r.Valid() ==>
    match e
    case Arrive(seg) => r.Spacious(|seg.payload|) && ReceiveSpec(r, seg, r')
    case Read(len) => r' == r.(asm := r'.asm) && ReadSpec(r.asm, len, r'.asm)
  }

  lemma StepValid(r: Receiver, e: Event, r': Receiver)
    requires r.Valid() && Step(r, e, r')
    ensures r'.Valid()
  {
    hide Represents, Size, Disjoint, Wrap, DrainSpec, Assembler.Merged, Assembler.Dropped;
  }

  /** The acknowledgment never retreats, and neither does the right edge of the window. */
  lemma StepMonotone(r: Receiver, e: Event, r': Receiver)
    requires r.Valid() && Step(r, e, r')
    ensures r.asm.out.written <= r'.asm.out.written
    ensures r.Expected() <= r'.Expected()
    ensures r.Expected() + r.Window() <= r'.Expected() + r'.Window()
    ensures r.synRecv ==> r'.synRecv && r'.isn == r.isn
  {
    hide Represents, Size, Disjoint, Wrap, Unwrap, Assembler.Merged, Assembler.Dropped;
  }

  ghost predicate Run(capacity: nat, events: seq<Event>, states: seq<Receiver>) {
    && |states| == |events| + 1
    && states[0] == Receiver(Assembler(Stream([], 0, capacity, false), map[], false, 0), false, 0, 0)
    && forall i :: 0 <= i < |events| ==> Step(states[i], events[i], states[i + 1])
  }

  /** In every state of every run, once a SYN has arrived the acknowledgment on offer is the one
      for the next byte, counting the SYN and the end of the stream. */
  lemma {:induction false} AckCurrent(capacity: nat, events: seq<Event>, states: seq<Receiver>, n: nat)
    requires Run(capacity, events, states) && n <= |events|
    ensures states[n].Valid()
    ensures states[n].synRecv ==>
              states[n].ackno == Wrap(|states[n].asm.out.written| + 1 + (if states[n].asm.out.ended then 1 else 0), states[n].isn)
  {
    hide Represents, Size, Wrap, ReceiveSpec;
    if n == 0 {
      assert states[0].asm.Valid();
    } else {
      AckCurrent(capacity, events, states, n - 1);
      StepValid(states[n - 1], events[n - 1], states[n]);
    }
  }

  /** The window never shrinks from the right: an edge once offered stays covered. */
  lemma {:induction false} EdgeNeverRetreats(capacity: nat, events: seq<Event>, states: seq<Receiver>, m: nat, n: nat)
    requires Run(capacity, events, states) && m <= n <= |events|
    ensures states[m].Expected() + states[m].Window() <= states[n].Expected() + states[n].Window()
  {
    hide Represents, Size, Disjoint, Wrap, ReceiveSpec, Receiver.Valid;
    if m < n {
      EdgeNeverRetreats(capacity, events, states, m, n - 1);
      AckCurrent(capacity, events, states, n - 1);
      StepMonotone(states[n - 1], events[n - 1], states[n]);
    }
  }

  // -- Where a segment's payload goes ------------------------------------------------------

  /** A segment is placed where its sender meant it exactly if its absolute number is within reach
      of what has been written. */
  lemma IndexExact(r: Receiver, seg: Segment, abs: nat)
    requires r.asm.Next() + TWO31 < TWO63
    requires !seg.header.syn && seg.header.seqno == Wrap(abs, r.isn) && 1 <= abs < TWO63
    ensures r.IndexOf(seg) == abs - 1 <==> Reachable(abs, r.asm.Next())
  {
    hide Wrap, Unwrap;
    UnwrapExact(abs, r.isn, r.asm.Next());
  }

  /** A segment numbered like the SYN but without its mark is taken to lie at the very last index, so
      that its payload is refused. Its FIN counts all the same: the input ends, early, if the
      payload is one byte longer than what has been written. If it does not end it so, the segment
      has bytes written exactly if it has a payload, some wait at the next index (left there by an
      output once full) and there is room by now: those waiting, up to the next gap. The input then
      also ends if a shorter FIN, or an earlier mark, has been reached. */
  lemma NumberOfSyn(r: Receiver, seg: Segment, r': Receiver)
    requires r.Valid() && r.Spacious(|seg.payload|) && ReceiveSpec(r, seg, r')
    requires r.synRecv && !seg.header.syn && Unwrap(seg.header.seqno, r.isn, r.asm.Next()) == 0
    requires !r.asm.out.ended
    ensures var a, a', ends := r.asm, r'.asm, seg.header.fin && |seg.payload| == r.asm.Next() + 1;
            var resumes := seg.payload != [] && a.Next() in a.Pending();
            && a'.Valid()
            && (a'.Next() > a.Next() <==> resumes && !ends && a.Next() < a.Limit())
            && Drained(a.Pending(), a.out.written, a'.frags, a'.out.written)
            && (a'.Next() > a.Next() ==> a'.Next() !in a.Pending() || a'.Next() == a.Limit() || a'.out.ended)
            && (a'.out.ended <==>
                  ends || (resumes && (if seg.header.fin then |seg.payload| - 1 <= a'.Next() else a.eofSeen && a.eofIdx <= a'.Next())))
  {
    hide Unwrap, Wrap, Represents, Disjoint, PushSpec, Drained;
    assert r.IndexOf(seg) == TWO64 - 1;
    PushLast(r.asm, seg.payload, seg.header.fin, r'.asm);
  }

  lemma PushLast(a: Assembler, data: seq<byte>, eof: bool, a': Assembler)
    requires a.Valid() && a.Limit() + |data| < TWO63 && PushSpec(a, data, TWO64 - 1, eof, a')
    requires !a.out.ended
    ensures var ends := eof && |data| == a.Next() + 1;
            var resumes := data != [] && a.Next() in a.Pending();
            && a'.Valid()
            && (a'.Next() > a.Next() <==> resumes && !ends && a.Next() < a.Limit())
            && Drained(a.Pending(), a.out.written, a'.frags, a'.out.written)
            && (a'.Next() > a.Next() ==> a'.Next() !in a.Pending() || a'.Next() == a.Limit() || a'.out.ended)
            && (a'.out.ended <==>
                  ends || (resumes && (if eof then |data| - 1 <= a'.Next() else a.eofSeen && a.eofIdx <= a'.Next())))
  {
    hide Represents, Size, Disjoint, Assembler.Merged, Assembler.Dropped;
    if data == [] {
      assert a.Pending() - Interval(a.Next(), 0) == a.Pending();
    } else {
      FarAway(a, TWO64 - 1, data);
    }
  }

  lemma FarAway(a: Assembler, index: nat, data: seq<byte>)
    requires a.Valid() && index >= TWO63 && data != [] && a.Limit() < TWO63
    ensures !a.Dropped(index, data)
    ensures a.Merged(index, data) == a.Pending()
  {
    hide Represents, Size, Disjoint;
    NothingCovers(a.frags, index);
    HeldBelow(a);
    assert Rewritten(a.Pending(), a.Fresh(index, data)) == a.Pending();
  }

  lemma HeldBelow(a: Assembler)
    requires a.Valid()
    ensures forall p :: p in a.Pending() ==> p < TWO63
  {
    forall p | p in a.Pending()
      ensures p < TWO63
    {
      var k: nat :| Covers(a.frags, k, p);
    }
  }

  /** For instance: right after the handshake, one byte with FIN numbered like the SYN ends an
      input of which nothing has been received. */
  lemma NumberOfSynExample(r: Receiver, isn: uint32, b: byte)
    requires r == Receiver(Assembler(Stream([], 0, 100, false), map[], false, 0), true, isn, Wrap(1, isn))
    ensures var first := Receiver(Assembler(Stream([], 0, 100, false), map[], false, 0), false, 0, 0);
            Run(100, [Arrive(Segment(BLANK.(seqno := isn, syn := true), []))], [first, r])
    ensures r.Valid()
    ensures var seg := Segment(BLANK.(seqno := isn, fin := true), [b]);
            forall r' :: ReceiveSpec(r, seg, r') ==> r'.asm.out.ended && r'.asm.out.written == []
  {
    var seg := Segment(BLANK.(seqno := isn, fin := true), [b]);
    DenoteEmpty();
    assert Unwrap(isn, isn, 0) == 0 by {
      assert Wrap(0, isn) == isn;
      UnwrapExact(0, isn, 0);
    }
    forall r' | ReceiveSpec(r, seg, r')
      ensures r'.asm.out.ended && r'.asm.out.written == []
    {
      NumberOfSyn(r, seg, r');
      assert r'.asm.out.written == [];
    }
  }
}
