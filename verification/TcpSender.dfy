/** The sending half of a connection. */
module TcpSenders {
  import opened Machine
  import opened WrappingIntegers
  import opened ByteStreams
  import opened TcpSegments
  import opened SegmentSizes

  const MAX_PAYLOAD_SIZE: nat := 1000

  // -- Values ---------------------------------------------------------------------------

  /** The bytes in flight, the sizes of the segments that carried them, and the counters and flags. */
  datatype Queue = Queue(
    unAcked: seq<byte>,
    sizes: seq<nat>,
    synSent: bool,
    synAcked: bool,
    finSent: bool,
    finAcked: bool,
    base: nat,
    next: nat,
    win: nat)
  {
    /** Window space left, in the 64-bit arithmetic of the program: more in flight than the
        window allows wraps to a huge space. */
    function Remain(): nat {
      (win - (next - base)) % TWO64
    }

    /** The number before `next`, which wraps around at 0. */
    function BeforeNext(): nat {
      if next == 0 then TWO64 - 1 else next - 1
    }
  }

  /** The retransmission timer. `total` and `doubled` are history: the time ticked and the
      doublings made since the timer was last started. */
  datatype Clock = Clock(
    initial: nat,
    timeout: nat,
    running: bool,
    elapsed: nat,
    retransmissions: nat,
    doubling: bool,
    total: nat,
    doubled: nat)
  {
    function Started(): Clock {
      this.(timeout := initial, running := true, elapsed := 0, retransmissions := 0, total := 0, doubled := 0)
    }

    function Stopped(): Clock {
      Started().(running := false)
    }

    /** What the first transmission of a segment does. */
    function Kicked(): Clock {
      if running then this else Started()
    }

    function Ticked(ms: nat): Clock {
      this.(elapsed := elapsed + ms, total := total + ms)
    }

    /** What a retransmission does. */
    function Backed(): Clock {
      this.(timeout := if doubling then timeout * 2 % TWO32 else timeout,
            elapsed := 0,
            retransmissions := retransmissions + 1,
            doubled := if doubling then doubled + 1 else doubled)
    }
  }

  datatype Sender = Sender(q: Queue, t: Clock, out: Stream, isn: uint32) {
    predicate HasContent() {
      out.Buffered() > 0 || (out.Eof() && !q.finSent)
    }

    predicate CanSend() {
      q.Remain() > 0 && HasContent()
    }

    // -- Handshake and end ----------------------------------------------------------------

    function SynQueue(): Queue {
      if q.synSent then q else q.(synSent := true, next := q.next + 1)
    }

    predicate SynCarriesFin() {
      out.Eof() && SynQueue().Remain() >= 2
    }

    function SynSegment(): Segment {
      Segment(BLANK.(seqno := Wrap(0, isn), syn := true, fin := SynCarriesFin()), [])
    }

    function AfterSyn(): Sender {
      this.(q := if SynCarriesFin() then SynQueue().(finSent := true, next := SynQueue().next + 1) else SynQueue())
    }

    function FinSegment(abs: nat): Segment {
      Segment(BLANK.(seqno := Wrap(abs, isn), fin := true), [])
    }

    // -- Data -----------------------------------------------------------------------------

    /** Payload bytes of the next data segment. */
    function Take(): nat
      requires out.Valid()
    {
      Min(Min(q.Remain(), MAX_PAYLOAD_SIZE), out.Buffered())
    }

    predicate TakesFin()
      requires out.Valid()
    {
      out.ended && Take() == out.Buffered() && q.Remain() > Take()
    }

    function DataSegment(): Segment
      requires out.Valid()
    {
      Segment(BLANK.(seqno := Wrap(q.next, isn), fin := TakesFin()), out.written[out.read..out.read + Take()])
    }

    /** The state once the next data segment has been sent. */
    function AfterData(): (s: Sender)
      requires out.Valid()
      ensures s.out.Valid()
    {
      var n := Take();
      Sender(
        q.(unAcked := q.unAcked + out.written[out.read..out.read + n],
           sizes := q.sizes + [n],
           next := q.next + n + (if TakesFin() then 1 else 0),
           finSent := q.finSent || TakesFin()),
        t.Kicked(),
        out.(read := out.read + n),
        isn)
    }

    // -- Retransmission ---------------------------------------------------------------------

    predicate FrontReady() {
      q.unAcked != [] ==> q.sizes != [] && q.sizes[0] <= |q.unAcked|
    }

    function FrontSegment(): Segment
      requires q.sizes != [] && q.sizes[0] <= |q.unAcked|
    {
      Segment(BLANK.(seqno := Wrap(q.base, isn), fin := q.finSent && q.next - 1 == q.base + q.sizes[0]),
              q.unAcked[..q.sizes[0]])
    }

    predicate RetransmitsSyn() {
      !q.finSent && q.synSent && !q.synAcked
    }

    /** What a timeout sends again: after the FIN has gone out, the front segment or the FIN;
        before that the SYN or the front segment -- and a blank segment if there is none. */
    function RetransmitSegment(): Segment
      requires FrontReady()
    {
      if RetransmitsSyn() then SynSegment()
      else if q.unAcked != [] then FrontSegment()
      else if q.finSent then FinSegment(q.BeforeNext())
      else Segment(BLANK, [])
    }
  }

  /** No more is in flight than the window allows; so the subtraction for the space left is exact. */
  ghost predicate InWindow(q: Queue) {
    q.base <= q.next <= q.base + q.win && q.win < TWO64
  }

  // -- Transitions --------------------------------------------------------------------------

  /** The state after `n` data segments. */
  ghost function SendMany(s: Sender, n: nat): (r: Sender)
    requires s.out.Valid()
    ensures r.out.Valid()
  {
    if n == 0 then s else SendMany(s, n - 1).AfterData()
  }

  ghost predicate SentSoFar(s: Sender, s': Sender, segs: seq<Segment>)
    requires s.out.Valid()
  {
    && (forall i :: 0 <= i < |segs| ==> SendMany(s, i).CanSend() && segs[i] == SendMany(s, i).DataSegment())
    && s' == SendMany(s, |segs|)
  }

  /** Data segments are sent for as long as there is space and content. */
  ghost predicate SendSpec(s: Sender, s': Sender, segs: seq<Segment>)
    requires s.out.Valid()
  {
    SentSoFar(s, s', segs) && !s'.CanSend()
  }

  ghost predicate FillSpec(s: Sender, s': Sender, segs: seq<Segment>)
    requires s.out.Valid()
  {
    if s.q.finAcked || s.q.finSent then s' == s && segs == []
    else if !s.q.synSent then segs == [s.SynSegment()] && s' == s.AfterSyn().(t := s.t.Kicked())
    else if s.out.Eof() && s.q.Remain() > 1 then
      && segs == [s.FinSegment(s.q.next)]
      && s' == s.(q := s.q.(finSent := true, next := s.q.next + 1), t := s.t.Kicked())
    else if !s.q.synAcked then s' == s && segs == []
    else SendSpec(s, s', segs)
  }

  ghost predicate RetransmitSpec(s: Sender, s': Sender, segs: seq<Segment>)
    requires s.FrontReady()
  {
    if s.q.finAcked then s' == s && segs == []
    else
      && segs == [s.RetransmitSegment()]
      && s' == (if s.RetransmitsSyn() then s.AfterSyn() else s).(t := s.t.Backed())
  }

  ghost predicate TickSpec(s: Sender, ms: nat, s': Sender, segs: seq<Segment>)
    requires s.FrontReady()
  {
    if !s.t.running then s' == s && segs == []
    else
      var s1 := s.(t := s.t.Ticked(ms));
      if s1.t.elapsed >= s1.t.timeout then RetransmitSpec(s1, s', segs)
      else s' == s1 && segs == []
  }

  /** The bytes that an acknowledgment removes are there to be removed: beyond them, erasing from the
      queue is undefined. Recorded sizes that add up to the bytes in flight guarantee it. */
  predicate Erasable(q: Queue, ackno: nat) {
    q.base < ackno ==> Min(ackno - q.base, Sum(q.sizes)) <= |q.unAcked|
  }

  /** The acknowledgment does not go as far as erasing, or may erase. */
  predicate Advancable(q: Queue, ackno: nat) {
    ackno == 1 || (q.finSent && ackno == q.next) || q.unAcked == [] || Erasable(q, ackno)
  }

  /** Removing acknowledged bytes, as far as sizes are recorded. */
  ghost predicate EraseSpec(q: Queue, ackno: nat, q': Queue)
    requires q.base < ackno && Erasable(q, ackno)
  {
    var n := Min(ackno - q.base, Sum(q.sizes));
    && q' == q.(base := q.base + n, unAcked := q.unAcked[n..], sizes := q'.sizes)
    && CutSizes(q.sizes, ackno - q.base, q'.sizes)
  }

  ghost predicate AdvanceSpec(q: Queue, ackno: nat, q': Queue)
    requires q.base < ackno && Advancable(q, ackno)
  {
    if ackno == 1 then q' == q.(synAcked := true, base := q.base + 1)
    else if q.finSent && ackno == q.next then
      q' == if q.unAcked == [] then q.(finAcked := true, base := q.base + 1)
            else q.(finAcked := true, base := ackno, unAcked := [], sizes := [])
    else if q.unAcked == [] then q' == q
    else EraseSpec(q, ackno, q')
  }

  /** The acknowledgments that move nothing: old ones, and ones beyond a FIN already sent. */
  predicate AckIgnored(q: Queue, abs: nat) {
    abs <= q.base || (q.finSent && abs > q.next)
  }

  function AbsoluteAck(s: Sender, ackno: uint32): nat
    requires s.q.base + TWO31 < TWO63
  {
    Unwrap(ackno, s.isn, s.q.base)
  }

  ghost predicate AckSpec(s: Sender, ackno: uint32, window: uint16, s': Sender)
    requires s.q.base + TWO31 < TWO63
    requires AckIgnored(s.q, AbsoluteAck(s, ackno)) || Advancable(s.q, AbsoluteAck(s, ackno))
  {
    var s1 := s.(q := s.q.(win := Max(window, 1)), t := s.t.(doubling := window != 0));
    var abs := AbsoluteAck(s, ackno);
    if AckIgnored(s.q, abs) then s' == s1
    else
      && s'.out == s.out && s'.isn == s.isn
      && AdvanceSpec(s1.q, abs, s'.q)
      && s'.t == if s'.q.unAcked != [] || (s'.q.finSent && !s'.q.finAcked) then s1.t.Started() else s1.t.Stopped()
  }

  // -- Objects --------------------------------------------------------------------------------

  class Timer {
    const initialTimeout: nat
    var timeout: nat
    var running: bool
    var msSinceBaseSegSent: nat
    var consecutiveRetransmissions: nat
    var doubleTimeout: bool
    ghost var total: nat
    ghost var doubled: nat

    ghost function View(): Clock
      reads this
    {
      Clock(initialTimeout, timeout, running, msSinceBaseSegSent, consecutiveRetransmissions, doubleTimeout, total, doubled)
    }

    constructor (initial: nat)
      ensures View() == Clock(initial, initial, false, 0, 0, true, 0, 0)
    {
      initialTimeout, timeout, running := initial, initial, false;
      msSinceBaseSegSent, consecutiveRetransmissions, doubleTimeout := 0, 0, true;
      total, doubled := 0, 0;
    }

    method StartTimer()
      modifies this
      ensures View() == old(View()).Started()
    {
      running := true;
      msSinceBaseSegSent := 0;
      consecutiveRetransmissions := 0;
      timeout := initialTimeout;
      total, doubled := 0, 0;
    }

    method StopTimer()
      modifies this
      ensures View() == old(View()).Stopped()
    {
      StartTimer();
      running := false;
    }

    /** The second half of a retransmission. */
    method BackOff()
      modifies this
      ensures View() == old(View()).Backed()
    {
      if doubleTimeout {
        timeout := timeout * 2 % TWO32;
        doubled := doubled + 1;
      }
      msSinceBaseSegSent := 0;
      consecutiveRetransmissions := consecutiveRetransmissions + 1;
    }
  }

  class UnAckQueue {
    var unAcked: seq<byte>
    var sizes: seq<nat>
    var synSent: bool
    var synAcked: bool
    var finSent: bool
    var finAcked: bool
    var base: nat
    var next: nat
    var win: nat

    ghost function View(): Queue
      reads this
    {
      Queue(unAcked, sizes, synSent, synAcked, finSent, finAcked, base, next, win)
    }

    constructor ()
      ensures View() == Queue([], [], false, false, false, false, 0, 0, 1)
    {
      unAcked, sizes := [], [];
      synSent, synAcked, finSent, finAcked := false, false, false, false;
      base, next, win := 0, 0, 1;
    }

    method Push(seg: Segment)
      modifies this
      ensures View() == old(View()).(unAcked := old(unAcked) + seg.payload, sizes := old(sizes) + [|seg.payload|])
    {
      unAcked := unAcked + seg.payload;
      sizes := sizes + [|seg.payload|];
    }

    method UpdateBase(ackno: nat)
      requires ackno <= base || Advancable(View(), ackno)
      modifies this
      ensures ackno <= old(base) ==> View() == old(View())
      ensures ackno > old(base) ==> AdvanceSpec(old(View()), ackno, View())
    {
      if ackno <= base {
        return;
      } else if ackno == 1 {
        synAcked := true;
        base := base + 1;
      } else if finSent && ackno == next {
        finAcked := true;
        if unAcked != [] {
          Erase(ackno);
        } else {
          base := base + 1;
        }
      } else {
        if unAcked != [] {
          Erase(ackno);
        }
      }
    }

    /** Remove the bytes before `ackno`, walking over the recorded sizes. */
    method Erase(ackno: nat)
      requires base < ackno && ((finSent && ackno == next) || Erasable(View(), ackno))
      modifies this
      ensures if old(finSent && ackno == next) then View() == old(View()).(base := ackno, unAcked := [], sizes := [])
              else EraseSpec(old(View()), ackno, View())
    {
      if finSent && ackno == next {
        base := ackno;
        unAcked := [];
        sizes := [];
      } else {
        EraseBytes(ackno);
      }
    }

    method EraseBytes(ackno: nat)
      requires base < ackno && Erasable(View(), ackno)
      modifies this`base, this`sizes, this`unAcked
      ensures EraseSpec(old(View()), ackno, View())
    {
      hide EraseSpec, CutSizes, AtEnd, Inside, Total;
      ghost var q := View();
      var bytesToErase := 0;
      var i := 0;
      TotalNone(sizes);
      while i < |sizes|
        invariant i <= |sizes|
        invariant sizes == q.sizes && unAcked == q.unAcked
        invariant base == q.base + Total(sizes, i) < ackno
        invariant bytesToErase == Total(sizes, i)
      {
        var size := sizes[i];
        var nextSqn := base + size;
        TotalStep(sizes, i);
        if nextSqn == ackno {
          EraseToEnd(q, ackno, i + 1);
          bytesToErase := bytesToErase + size;
          sizes := sizes[i + 1..];
          base := ackno;
          unAcked := unAcked[bytesToErase..];
          return;
        } else if nextSqn < ackno {
          bytesToErase := bytesToErase + size;
          base := nextSqn;
          i := i + 1;
        } else {
          EraseInside(q, ackno, i);
          var bytesAcked := ackno - base;
          bytesToErase := bytesToErase + bytesAcked;
          base := ackno;
          sizes := sizes[i := size - bytesAcked];
          unAcked := unAcked[bytesToErase..];
          return;
        }
      }
      EraseAll(q, ackno);
      unAcked := unAcked[bytesToErase..];
    }
  }

  lemma EraseToEnd(q: Queue, ackno: nat, i: nat)
    requires q.base < ackno && Erasable(q, ackno)
    requires 0 < i <= |q.sizes| && q.base + Total(q.sizes, i) == ackno && q.base + Total(q.sizes, i - 1) < ackno
    ensures ackno - q.base <= |q.unAcked|
    ensures EraseSpec(q, ackno, q.(base := ackno, unAcked := q.unAcked[ackno - q.base..], sizes := q.sizes[i..]))
  {
    TotalMonotone(q.sizes, i, |q.sizes|);
    assert AtEnd(q.sizes, ackno - q.base, i);
  }

  lemma EraseInside(q: Queue, ackno: nat, i: nat)
    requires q.base < ackno && Erasable(q, ackno)
    requires i < |q.sizes| && q.base + Total(q.sizes, i) < ackno < q.base + Total(q.sizes, i + 1)
    ensures ackno - q.base <= |q.unAcked|
    ensures EraseSpec(q, ackno, q.(base := ackno, unAcked := q.unAcked[ackno - q.base..],
                                   sizes := q.sizes[i := q.base + Total(q.sizes, i + 1) - ackno]))
  {
    TotalMonotone(q.sizes, i + 1, |q.sizes|);
    assert Inside(q.sizes, ackno - q.base, i);
  }

  lemma EraseAll(q: Queue, ackno: nat)
    requires q.base < ackno && Erasable(q, ackno) && q.base + Sum(q.sizes) < ackno
    ensures EraseSpec(q, ackno, q.(base := q.base + Sum(q.sizes), unAcked := q.unAcked[Sum(q.sizes)..]))
  {
  }

  class TCPSender {
    const timer: Timer
    const queue: UnAckQueue
    const stream: ByteStream
    const isn: uint32
    var segmentsOut: seq<Segment>

    ghost function View(): Sender
      reads this, timer, queue, stream
    {
      Sender(queue.View(), timer.View(), stream.View(), isn)
    }

    /** The segments put out since the queue of outgoing segments was `before`. */
    ghost function Since(before: seq<Segment>): seq<Segment>
      reads this
      requires before <= segmentsOut
    {
      segmentsOut[|before|..]
    }

    constructor (capacity: nat, retxTimeout: uint16, isn: uint32)
      ensures stream.Valid() && !stream.error && segmentsOut == []
      ensures fresh(timer) && fresh(queue) && fresh(stream)
      ensures View() == Initial(capacity, retxTimeout, isn)
    {
      timer := new Timer(retxTimeout);
      queue := new UnAckQueue();
      stream := new ByteStream(capacity);
      this.isn := isn;
      segmentsOut := [];
    }

    method FirstPush(seg: Segment)
      modifies this, timer
      ensures segmentsOut == old(segmentsOut) + [seg]
      ensures timer.View() == old(timer.View()).Kicked()
    {
      segmentsOut := segmentsOut + [seg];
      if !timer.running {
        timer.StartTimer();
      }
    }

    /** What the window leaves after the bytes in flight; it wraps around if they are more than that. */
    function RemainSpace(): (n: nat)
      reads queue
      ensures InWindow(queue.View()) ==> queue.next + n == queue.base + queue.win
      ensures 0 < queue.next - queue.base - queue.win < TWO64 ==> n == TWO64 - (queue.next - queue.base - queue.win)
      ensures n == queue.View().Remain()
    {
      (queue.win - (queue.next - queue.base)) % TWO64
    }

    method MakeSynSeg() returns (seg: Segment)
      requires stream.Valid()
      modifies queue
      ensures seg == old(View()).SynSegment() && View() == old(View()).AfterSyn()
    {
      hide Wrap;
      var h := BLANK.(seqno := Wrap(0, isn), syn := true);
      if !queue.synSent {
        queue.synSent := true;
        queue.next := queue.next + 1;
      }
      if stream.size == 0 && stream.inputEnded && RemainSpace() >= 2 {
        h := h.(fin := true);
        queue.finSent := true;
        queue.next := queue.next + 1;
      }
      seg := Segment(h, []);
    }

    method MakeFirstFinSeg() returns (seg: Segment)
      modifies queue
      ensures seg == old(View()).FinSegment(old(queue.next))
      ensures queue.View() == old(queue.View()).(finSent := true, next := old(queue.next) + 1)
    {
      hide Wrap;
      seg := Segment(BLANK.(seqno := Wrap(queue.next, isn), fin := true), []);
      queue.next := queue.next + 1;
      queue.finSent := true;
    }

    method MakeNotFirstFinSeg() returns (seg: Segment)
      ensures seg == View().FinSegment(queue.View().BeforeNext())
    {
      hide Wrap;
      seg := Segment(BLANK.(fin := true, seqno := Wrap(if queue.next == 0 then TWO64 - 1 else queue.next - 1, isn)), []);
    }

    method FrontSeg() returns (seg: Segment)
      requires queue.sizes != [] && queue.sizes[0] <= |queue.unAcked|
      ensures seg == View().FrontSegment()
    {
      hide Wrap;
      var toSend := queue.sizes[0];
      var payload := queue.unAcked[..toSend];
      seg := Segment(BLANK.(seqno := Wrap(queue.base, isn)), payload);
      if queue.finSent && queue.next - 1 == queue.base + toSend {
        seg := seg.(header := seg.header.(fin := true));
      }
    }

    /** Read a payload off the stream, with the FIN if it is the last and fits. */
    method MakePayLoadSeg() returns (seg: Segment)
      requires stream.Valid()
      modifies queue, stream
      ensures stream.Valid() && stream.error == old(stream.error)
      ensures seg == old(View()).DataSegment()
      ensures stream.View() == old(View()).AfterData().out
      ensures queue.next == old(View()).AfterData().q.next
      ensures queue.finSent == old(View()).AfterData().q.finSent
      ensures queue.View() == old(queue.View()).(next := queue.next, finSent := queue.finSent)
    {
      hide Wrap, InWindow, Queue.Remain, Sender.AfterData, Sender.DataSegment, Sender.TakesFin;
      var h := BLANK.(seqno := Wrap(queue.next, isn));
      var toSend := Min(RemainSpace(), MAX_PAYLOAD_SIZE);
      DataParts(View());
      var payload := stream.Read(toSend);
      var remain := RemainSpace();
      if stream.size == 0 && stream.inputEnded && remain - |payload| > 0 {
        h := h.(fin := true);
        queue.finSent := true;
        queue.next := queue.next + 1;
      }
      queue.next := queue.next + |payload|;
      seg := Segment(h, payload);
    }

    method SendPayLoad()
      requires stream.Valid()
      modifies this, timer, queue, stream
      ensures stream.Valid() && stream.error == old(stream.error)
      ensures View() == old(View()).AfterData()
      ensures segmentsOut == old(segmentsOut) + [old(View()).DataSegment()]
    {
      hide Wrap;
      var seg := MakePayLoadSeg();
      queue.Push(seg);
      FirstPush(seg);
    }

    method FillWindow()
      requires stream.Valid()
      modifies this, timer, queue, stream
      ensures stream.Valid() && stream.error == old(stream.error)
      ensures old(segmentsOut) <= segmentsOut
      ensures FillSpec(old(View()), View(), Since(old(segmentsOut)))
    {
      hide Wrap, SendSpec, Queue.Remain, Sender.AfterSyn, Sender.SynSegment;
      if queue.finAcked || (queue.finSent && !queue.finAcked) {
        return;
      }
      if !queue.synSent {
        var seg := MakeSynSeg();
        FirstPush(seg);
        return;
      }
      if !queue.finSent && stream.size == 0 && stream.inputEnded && RemainSpace() > 1 {
        var seg := MakeFirstFinSeg();
        FirstPush(seg);
        assert segmentsOut == old(segmentsOut) + [seg];
      }
      if queue.synSent && !queue.synAcked {
        return;
      }
      ghost var before := segmentsOut;
      ghost var s := View();
      FillLoop();
      if !s.CanSend() {
        NothingSent(s, View(), Since(before));
      }
    }

    method FillLoop()
      requires stream.Valid()
      modifies this, timer, queue, stream
      ensures stream.Valid() && stream.error == old(stream.error)
      ensures old(segmentsOut) <= segmentsOut
      ensures SendSpec(old(View()), View(), Since(old(segmentsOut)))
    {
      hide Wrap, Queue.Remain, Sender.AfterData, Sender.DataSegment, SentSoFar;
      ghost var s := View();
      ghost var sent: seq<Segment> := [];
      SentNothingYet(s);
      while RemainSpace() > 0 && (stream.size > 0 || (stream.size == 0 && stream.inputEnded && !queue.finSent))
        invariant stream.Valid() && stream.error == old(stream.error)
        invariant segmentsOut == old(segmentsOut) + sent
        invariant SentSoFar(s, View(), sent)
        decreases stream.size, !queue.finSent
      {
        Progress(View());
        SentOneMore(s, View(), sent);
        sent := sent + [View().DataSegment()];
        SendPayLoad();
      }
      assert Since(old(segmentsOut)) == sent;
    }

    method SetWindowSize(size: uint16)
      modifies timer, queue
      ensures queue.View() == old(queue.View()).(win := Max(size, 1))
      ensures timer.View() == old(timer.View()).(doubling := size != 0)
    {
      timer.doubleTimeout := size != 0;
      queue.win := if size > 0 then size else 1;
    }

    method AckReceived(ackno: uint32, windowSize: uint16)
      requires queue.base + TWO31 < TWO63
      requires AckIgnored(queue.View(), AbsoluteAck(View(), ackno)) || Advancable(queue.View(), AbsoluteAck(View(), ackno))
      modifies timer, queue
      ensures AckSpec(old(View()), ackno, windowSize, View())
    {
      hide Wrap, Unwrap, AdvanceSpec;
      SetWindowSize(windowSize);
      var absAckno := Unwrap(ackno, isn, queue.base);
      if (queue.finSent && absAckno > queue.next) || absAckno <= 0 || absAckno < queue.base {
        return;
      }
      if absAckno > queue.base {
        queue.UpdateBase(absAckno);
        if queue.unAcked != [] || (queue.finSent && !queue.finAcked) {
          timer.StartTimer();
        } else {
          timer.StopTimer();
        }
      }
    }

    /** The segment to be sent again. */
    method RetransmitSeg() returns (seg: Segment)
      requires stream.Valid() && View().FrontReady() && !queue.finAcked
      modifies queue
      ensures View() == if old(View()).RetransmitsSyn() then old(View()).AfterSyn() else old(View())
      ensures seg == old(View()).RetransmitSegment()
    {
      hide Wrap, Queue.Remain, Sender.AfterSyn, Sender.SynSegment;
      seg := Segment(BLANK, []);
      if queue.finSent && !queue.finAcked {
        if queue.unAcked == [] {
          seg := MakeNotFirstFinSeg();
        } else {
          seg := FrontSeg();
        }
      } else if queue.synSent && !queue.synAcked {
        seg := MakeSynSeg();
      } else if queue.unAcked != [] {
        seg := FrontSeg();
      }
    }

    method TimeoutRetransmit()
      requires stream.Valid() && View().FrontReady()
      modifies this, timer, queue
      ensures stream.Valid()
      ensures old(segmentsOut) <= segmentsOut
      ensures RetransmitSpec(old(View()), View(), Since(old(segmentsOut)))
    {
      hide Wrap, Sender.AfterSyn, Sender.RetransmitSegment, Clock.Backed;
      if queue.finAcked {
        return;
      }
      var seg := RetransmitSeg();
      segmentsOut := segmentsOut + [seg];
      timer.BackOff();
    }

    method Tick(ms: nat)
      requires stream.Valid() && View().FrontReady()
      modifies this, timer, queue
      ensures stream.Valid()
      ensures old(segmentsOut) <= segmentsOut
      ensures TickSpec(old(View()), ms, View(), Since(old(segmentsOut)))
    {
      hide Wrap, RetransmitSpec;
      if timer.running {
        timer.msSinceBaseSegSent := timer.msSinceBaseSegSent + ms;
        timer.total := timer.total + ms;
        assert View() == old(View()).(t := old(View()).t.Ticked(ms));
        if timer.msSinceBaseSegSent >= timer.timeout {
          TimeoutRetransmit();
        }
      }
    }

    method SendEmptySegment()
      modifies this`segmentsOut
      ensures segmentsOut == old(segmentsOut) + [Segment(BLANK.(seqno := Wrap(queue.next, isn)), [])]
    {
      hide Wrap;
      segmentsOut := segmentsOut + [Segment(BLANK.(seqno := Wrap(queue.next, isn)), [])];
    }
  }

  function Initial(capacity: nat, retxTimeout: uint16, isn: uint32): Sender {
    Sender(Queue([], [], false, false, false, false, 0, 0, 1),
           Clock(retxTimeout, retxTimeout, false, 0, 0, true, 0, 0),
           Stream([], 0, capacity, false),
           isn)
  }

  /** Every data segment uses up bytes of the stream or the chance to send the FIN. */
  lemma Progress(s: Sender)
    requires s.out.Valid() && s.CanSend()
    ensures var s' := s.AfterData();
            || s'.out.Buffered() < s.out.Buffered()
            || (s'.out.Buffered() == s.out.Buffered() && !s.q.finSent && s'.q.finSent)
  {
  }

  /** The next data segment, and what it leads to, in terms of the payload read. */
  lemma DataParts(s: Sender)
    requires s.out.Valid()
    ensures var n := Min(Min(s.q.Remain(), MAX_PAYLOAD_SIZE), s.out.Buffered());
            var fin := s.out.ended && n == s.out.Buffered() && s.q.Remain() > n;
            && s.DataSegment() == Segment(BLANK.(seqno := Wrap(s.q.next, s.isn), fin := fin), s.out.written[s.out.read..s.out.read + n])
            && s.AfterData().out == s.out.(read := s.out.read + n)
            && s.AfterData().q.next == s.q.next + n + (if fin then 1 else 0)
            && s.AfterData().q.finSent == (s.q.finSent || fin)
  {
    hide Wrap, Queue.Remain;
  }

  lemma SentNothingYet(s: Sender)
    requires s.out.Valid()
    ensures SentSoFar(s, s, [])
  {
  }

  lemma SentOneMore(s: Sender, s': Sender, segs: seq<Segment>)
    requires s.out.Valid() && s'.out.Valid() && s'.CanSend() && SentSoFar(s, s', segs)
    ensures SentSoFar(s, s'.AfterData(), segs + [s'.DataSegment()])
  {
    hide Sender.AfterData, Sender.DataSegment, Sender.CanSend;
  }

  lemma NothingSent(s: Sender, s': Sender, segs: seq<Segment>)
    requires s.out.Valid() && !s.CanSend() && SendSpec(s, s', segs)
    ensures s' == s && segs == []
  {
    assert SendMany(s, 0) == s;
  }
}
