/** What a receiver keeps of what arrives, over every run. */
module ReceiverRuns {
  import opened Machine
  import opened WrappingIntegers
  import opened ByteStreams
  import opened Fragments
  import opened TcpSegments
  import opened Reassembly
  import R = ReassemblyRuns
  import opened TcpReceivers

  // -- The reference: what the segments say ---------------------------------------------------------------

  /** What is to be known of a connection's inbound half from the segments alone: whether there was a SYN,
      the bytes at their indices, and whether there was a FIN. */
  datatype Heard = Heard(syn: bool, bytes: map<nat, byte>, fin: bool)

  /** A SYN counts if it is the first, anything else if there was one. The payload of a segment with the
      absolute number `abs` starts at index `abs - 1`, that of the SYN at 0. Newer bytes win, as long as
      the older ones are not contiguous yet. */
  ghost function Hear(h: Heard, seg: Segment, abs: nat): Heard
    requires seg.header.syn || abs >= 1
  {
    if seg.header.syn == h.syn then h
    else Heard(true, R.RefPush(h.bytes, if seg.header.syn then 0 else abs - 1, seg.payload), h.fin || seg.header.fin)
  }

  /** The absolute numbers that the senders of the arriving segments gave them, one per event. */
  ghost predicate Numbering(events: seq<Event>, nums: seq<nat>) {
    |nums| == |events| && forall i :: 0 <= i < |events| && events[i].Arrive? ==> events[i].seg.header.syn || nums[i] >= 1
  }

  ghost function HeardBy(events: seq<Event>, nums: seq<nat>, n: nat): Heard
    requires Numbering(events, nums) && n <= |events|
  {
    if n == 0 then Heard(false, map[], false)
    else if events[n - 1].Arrive? then Hear(HeardBy(events, nums, n - 1), events[n - 1].seg, nums[n - 1])
    else HeardBy(events, nums, n - 1)
  }

  /** The segment has the number `abs` and, unless it is a SYN, is within reach of the receiver. */
  ghost predicate Within(r: Receiver, seg: Segment, abs: nat) {
    !seg.header.syn && r.synRecv ==>
      1 <= abs < TWO63 && seg.header.seqno == Wrap(abs, r.isn) && Reachable(abs, r.asm.Next())
  }

  /** Where the payload of the segment ends. */
  function EndIndex(seg: Segment, abs: nat): int {
    (if seg.header.syn then 0 else abs - 1) + |seg.payload|
  }

  // -- Nothing that arrives inside the window is lost ----------------------------------------------------------

  ghost predicate Keeps(r: Receiver, h: Heard)
    requires r.asm.Valid()
  {
    && r.synRecv == h.syn
    && R.Refines(r.asm, h.bytes)
    && r.asm.eofSeen == h.fin
    && !r.asm.out.ended
  }

  lemma ArriveKeeps(r: Receiver, seg: Segment, abs: nat, r': Receiver, h: Heard)
    requires r.Valid() && r.Spacious(|seg.payload|) && ReceiveSpec(r, seg, r') && Keeps(r, h)
    requires (seg.header.syn || abs >= 1) && Within(r, seg, abs)
    requires EndIndex(seg, abs) <= r.asm.Limit() && !r'.asm.out.ended
    ensures r'.Valid() && Keeps(r', Hear(h, seg, abs))
  {
    hide Represents, Size, Disjoint, Wrap, Unwrap, PushSpec, R.Refines, Assembler.Valid;
    TcpReceivers.StepValid(r, Arrive(seg), r');
    if seg.header.syn != r.synRecv {
      var index := if seg.header.syn then 0 else abs - 1;
      SpaciousNext(r, seg);
      if !seg.header.syn {
        IndexExact(r, seg, abs);
      }
      PushKept(r.asm, seg.payload, index, seg.header.fin, r'.asm, h.bytes);
    }
  }

  lemma SpaciousNext(r: Receiver, seg: Segment)
    requires r.Valid() && r.Spacious(|seg.payload|)
    ensures r.asm.Next() + TWO31 < TWO63 && r.asm.Limit() + |seg.payload| < TWO63
  {
    hide Represents, Size, Disjoint, Wrap;
  }

  lemma PushKept(a: Assembler, data: seq<byte>, index: uint64, eof: bool, a': Assembler, bytes: map<nat, byte>)
    requires a.Valid() && a'.Valid() && PushSpec(a, data, index, eof, a') && R.Refines(a, bytes)
    requires a.Limit() + |data| < TWO63 && index + |data| <= a.Limit() && !a'.out.ended
    ensures R.Refines(a', R.RefPush(bytes, index, data))
    ensures a'.eofSeen == (a.eofSeen || eof)
  {
    hide Represents, Size, Disjoint, Assembler.Merged, Assembler.Dropped, DrainSpec, R.Refines, R.RefPush, Assembler.Valid;
    R.StepRefines(a, R.Event.Push(data, index, eof), a', bytes);
  }

  lemma ReadKeeps(r: Receiver, len: nat, r': Receiver, h: Heard)
    requires r.Valid() && TcpReceivers.Step(r, Read(len), r') && Keeps(r, h)
    ensures r'.Valid() && Keeps(r', h)
  {
    hide Represents, Size, Disjoint, Wrap, R.Refines;
    TcpReceivers.StepValid(r, Read(len), r');
    R.StepRefines(r.asm, R.Event.Read(len), r'.asm, h.bytes);
  }

  /** Arrivals are within reach and end inside the window, in a run whose input has not ended. */
  ghost predicate Tame(events: seq<Event>, nums: seq<nat>, states: seq<Receiver>, n: nat)
    requires |states| == |events| + 1 && Numbering(events, nums) && n <= |events|
  {
    forall i :: 0 <= i < n && events[i].Arrive? ==>
      && Within(states[i], events[i].seg, nums[i])
      && EndIndex(events[i].seg, nums[i]) <= states[i].asm.Limit()
      && !states[i + 1].asm.out.ended
  }

  /** Everything that arrives is kept: over every run of arrivals inside the window, the receiver holds exactly
      the bytes of the payloads, each at the index that its segment's number gives it; it has written exactly
      their maximal contiguous prefix, and acknowledges just that; and it knows of a FIN exactly if one came. */
  lemma {:induction false} ReceiverRefinement(capacity: nat, events: seq<Event>, nums: seq<nat>, states: seq<Receiver>, n: nat)
    requires Run(capacity, events, states) && Numbering(events, nums) && n <= |events|
    requires Tame(events, nums, states, n)
    ensures var r, h := states[n], HeardBy(events, nums, n);
            && r.Valid() && r.synRecv == h.syn && r.asm.eofSeen == h.fin
            && R.Refines(r.asm, h.bytes)
            && r.asm.Next() == R.FirstGap(h.bytes)
            && (r.synRecv ==> r.ackno == Wrap(R.FirstGap(h.bytes) + 1, r.isn))
  {
    RunKeeps(capacity, events, nums, states, n);
    hide Represents, Size, Disjoint, Wrap, R.Refines, Step, Assembler.Valid;
    R.GapIsNext(states[n].asm, HeardBy(events, nums, n).bytes);
  }

  lemma {:induction false} RunKeeps(capacity: nat, events: seq<Event>, nums: seq<nat>, states: seq<Receiver>, n: nat)
    requires Run(capacity, events, states) && Numbering(events, nums) && n <= |events|
    requires Tame(events, nums, states, n)
    ensures states[n].Valid() && Keeps(states[n], HeardBy(events, nums, n))
  {
    hide Represents, Size, Disjoint, Wrap, R.Refines, ReceiveSpec, Hear, Within, Keeps, Receiver.Valid;
    if n == 0 {
      FirstKeeps(capacity);
    } else {
      RunKeeps(capacity, events, nums, states, n - 1);
      var r, e, r' := states[n - 1], events[n - 1], states[n];
      match e
      case Arrive(seg) => ArriveKeeps(r, seg, nums[n - 1], r', HeardBy(events, nums, n - 1));
      case Read(len) => ReadKeeps(r, len, r', HeardBy(events, nums, n - 1));
    }
  }

  lemma FirstKeeps(capacity: nat)
    ensures var r := Receiver(Assembler(Stream([], 0, capacity, false), map[], false, 0), false, 0, 0);
            r.Valid() && Keeps(r, Heard(false, map[], false))
  {
    hide Represents, Size, Wrap, R.Refines;
    R.InitialRefines(capacity);
  }

  // -- The end of the stream ---------------------------------------------------------------------------------------

  /** The segment carries a slice of `s`, a FIN only with the last of it. */
  ghost predicate CarriesSlice(seg: Segment, abs: nat, s: seq<byte>) {
    && 0 <= EndIndex(seg, abs) - |seg.payload|
    && EndIndex(seg, abs) <= |s|
    && seg.payload == s[EndIndex(seg, abs) - |seg.payload|..EndIndex(seg, abs)]
    && (seg.header.fin ==> EndIndex(seg, abs) == |s|)
  }

  /** Over every run of slices of one stream, inside the window or not: what is written is a prefix of the
      stream, and the input has ended exactly if a FIN has come and all of the stream is written. */
  lemma {:induction false} ReceiverSafety(capacity: nat, events: seq<Event>, nums: seq<nat>, states: seq<Receiver>, s: seq<byte>, n: nat)
    requires Run(capacity, events, states) && Numbering(events, nums) && n <= |events| && |s| < TWO64
    requires forall i :: 0 <= i < n && events[i].Arrive? ==>
               Within(states[i], events[i].seg, nums[i]) && CarriesSlice(events[i].seg, nums[i], s)
    ensures states[n].Valid() && R.Faithful(states[n].asm, s) && states[n].synRecv == HeardBy(events, nums, n).syn
    ensures states[n].asm.out.written <= s
    ensures states[n].asm.out.ended <==> HeardBy(events, nums, n).fin && |states[n].asm.out.written| == |s|
  {
    hide Represents, Size, Disjoint, Wrap, ReceiveSpec, Within, CarriesSlice, R.Agrees, Receiver.Valid;
    RunFaithful(capacity, events, nums, states, s, n);
  }

  ghost predicate Follows(r: Receiver, h: Heard, s: seq<byte>) {
    && r.Valid() && R.Faithful(r.asm, s)
    && r.synRecv == h.syn && r.asm.eofSeen == h.fin
  }

  lemma {:induction false} RunFaithful(capacity: nat, events: seq<Event>, nums: seq<nat>, states: seq<Receiver>, s: seq<byte>, n: nat)
    requires Run(capacity, events, states) && Numbering(events, nums) && n <= |events| && |s| < TWO64
    requires forall i :: 0 <= i < n && events[i].Arrive? ==>
               Within(states[i], events[i].seg, nums[i]) && CarriesSlice(events[i].seg, nums[i], s)
    ensures Follows(states[n], HeardBy(events, nums, n), s)
  {
    hide Represents, Size, Disjoint, Wrap, ReceiveSpec, Within, CarriesSlice, Hear, Receiver.Valid, R.Faithful;
    if n == 0 {
      FirstFollows(capacity, s);
    } else {
      RunFaithful(capacity, events, nums, states, s, n - 1);
      var r, e, r' := states[n - 1], events[n - 1], states[n];
      match e
      case Arrive(seg) => ArriveFollows(r, seg, nums[n - 1], r', HeardBy(events, nums, n - 1), s);
      case Read(len) => ReadFollows(r, len, r', HeardBy(events, nums, n - 1), s);
    }
  }

  lemma FirstFollows(capacity: nat, s: seq<byte>)
    ensures Follows(Receiver(Assembler(Stream([], 0, capacity, false), map[], false, 0), false, 0, 0), Heard(false, map[], false), s)
  {
    hide Represents, Size, Wrap, R.Faithful;
    R.InitialFaithful(capacity, s);
  }

  lemma ReadFollows(r: Receiver, len: nat, r': Receiver, h: Heard, s: seq<byte>)
    requires Follows(r, h, s) && TcpReceivers.Step(r, Read(len), r')
    ensures Follows(r', h, s)
  {
    hide Represents, Size, Disjoint, Wrap, R.Faithful;
    TcpReceivers.StepValid(r, Read(len), r');
    R.StepFaithful(r.asm, R.Event.Read(len), r'.asm, s);
  }

  lemma ArriveFollows(r: Receiver, seg: Segment, abs: nat, r': Receiver, h: Heard, s: seq<byte>)
    requires Follows(r, h, s) && r.Spacious(|seg.payload|) && ReceiveSpec(r, seg, r') && |s| < TWO64
    requires (seg.header.syn || abs >= 1) && Within(r, seg, abs) && CarriesSlice(seg, abs, s)
    ensures Follows(r', Hear(h, seg, abs), s)
  {
    hide Represents, Size, Disjoint, Wrap, Unwrap, PushSpec, R.Faithful, R.RefPush, Assembler.Valid;
    TcpReceivers.StepValid(r, Arrive(seg), r');
    if seg.header.syn != r.synRecv {
      var index := if seg.header.syn then 0 else abs - 1;
      SpaciousNext(r, seg);
      if !seg.header.syn {
        IndexExact(r, seg, abs);
      }
      PushFollows(r.asm, seg.payload, index, seg.header.fin, r'.asm, s);
    }
  }

  lemma PushFollows(a: Assembler, data: seq<byte>, index: uint64, eof: bool, a': Assembler, s: seq<byte>)
    requires a.Valid() && a'.Valid() && PushSpec(a, data, index, eof, a') && R.Faithful(a, s)
    requires a.Limit() + |data| < TWO63 && R.SliceOf(s, R.Event.Push(data, index, eof))
    ensures R.Faithful(a', s) && a'.eofSeen == (a.eofSeen || eof)
  {
    hide Represents, Size, Disjoint, Assembler.Merged, Assembler.Dropped, DrainSpec, R.Agrees, Assembler.Valid;
    R.StepFaithful(a, R.Event.Push(data, index, eof), a', s);
  }

  // -- An instance ----------------------------------------------------------------------------------------------------

  function AtNumber(peer: uint32, abs: nat, payload: seq<byte>): Segment {
    Segment(BLANK.(seqno := Wrap(abs, peer)), payload)
  }

  /** A SYN, then two bytes ahead of two others. */
  function Shuffled(peer: uint32, w: byte, x: byte, y: byte, z: byte): seq<Event> {
    [Arrive(Segment(BLANK.(seqno := peer, syn := true), [])), Arrive(AtNumber(peer, 3, [y, z])), Arrive(AtNumber(peer, 1, [w, x]))]
  }

  const SHUFFLED_NUMBERS: seq<nat> := [0, 3, 1]

  /** For instance: two bytes that arrive ahead of two others wait, and then all four are written and acknowledged. */
  lemma ShuffledExample(peer: uint32, w: byte, x: byte, y: byte, z: byte, states: seq<Receiver>)
    requires Run(100, Shuffled(peer, w, x, y, z), states)
    ensures states[2].asm.Valid() && states[2].asm.out.written == [] && states[2].asm.Pending() == map[2 := y, 3 := z]
    ensures states[3].asm.out.written == [w, x, y, z] && states[3].ackno == Wrap(5, peer)
  {
    hide Represents, Size, Disjoint, Wrap, Step, R.FirstGap, Within, HeardBy, Shuffled, Assembler.Valid;
    var events, nums := Shuffled(peer, w, x, y, z), SHUFFLED_NUMBERS;
    ShuffledTame(peer, w, x, y, z, states);
    ShuffledBytes(w, x, y, z);
    ReceiverRefinement(100, events, nums, states, 2);
    ReceiverRefinement(100, events, nums, states, 3);
    ShuffledHeard(peer, w, x, y, z);
    var a, b := states[2].asm, states[3].asm;
    assert a.out.written == [] && a.Pending() == Ahead(y, z);
    assert b.out.written == [w, x, y, z];
  }

  lemma ShuffledNumbered(peer: uint32, w: byte, x: byte, y: byte, z: byte)
    ensures Numbering(Shuffled(peer, w, x, y, z), SHUFFLED_NUMBERS)
  {
    hide Wrap;
  }

  function Ahead(y: byte, z: byte): map<nat, byte> {
    map[2 := y, 3 := z]
  }

  function All(w: byte, x: byte, y: byte, z: byte): map<nat, byte> {
    map[0 := w, 1 := x, 2 := y, 3 := z]
  }

  lemma ShuffledBytes(w: byte, x: byte, y: byte, z: byte)
    ensures R.FirstGap(Ahead(y, z)) == 0 && R.FirstGap(All(w, x, y, z)) == 4
    ensures R.RefPush(map[], 0, []) == map[]
    ensures R.RefPush(map[], 2, [y, z]) == Ahead(y, z)
    ensures R.RefPush(Ahead(y, z), 0, [w, x]) == All(w, x, y, z)
  {
    hide Size, R.FirstGap, R.RefPush, IsPlaced;
    var none: map<nat, byte> := map[];
    GapAt(none, 0);
    GapAt(Ahead(y, z), 0);
    GapAt(All(w, x, y, z), 4);
    PushFromStart(none, 0, []);
    PushFromStart(none, 2, [y, z]);
    PushFromStart(Ahead(y, z), 0, [w, x]);
    PlacedTwo(2, y, z);
    PlacedTwo(0, w, x);
    PlacedNothing(none, 0);
    assert none + Ahead(y, z) == Ahead(y, z);
    assert Ahead(y, z) + map[0 := w, 1 := x] == All(w, x, y, z);
  }

  /** As long as the first byte is missing, every byte pushed counts. */
  lemma PushFromStart(r: map<nat, byte>, index: nat, data: seq<byte>)
    requires R.FirstGap(r) == 0
    ensures R.RefPush(r, index, data) == r + Placed(index, data)
  {
    hide Size, R.FirstGap;
  }

  lemma PlacedTwo(a: nat, x: byte, y: byte)
    ensures Placed(a, [x, y]) == map[a := x, a + 1 := y]
  {
    hide Size;
    var r: map<nat, byte> := map[a := x, a + 1 := y];
    assert forall p: nat :: p in Placed(a, [x, y]) <==> p in r;
  }

  lemma ShuffledHeard(peer: uint32, w: byte, x: byte, y: byte, z: byte)
    requires Numbering(Shuffled(peer, w, x, y, z), SHUFFLED_NUMBERS)
    ensures HeardBy(Shuffled(peer, w, x, y, z), SHUFFLED_NUMBERS, 1) == Heard(true, map[], false)
    ensures HeardBy(Shuffled(peer, w, x, y, z), SHUFFLED_NUMBERS, 2) == Heard(true, Ahead(y, z), false)
    ensures HeardBy(Shuffled(peer, w, x, y, z), SHUFFLED_NUMBERS, 3) == Heard(true, All(w, x, y, z), false)
  {
    hide Wrap, R.RefPush, Ahead, All;
    ShuffledBytes(w, x, y, z);
    assert HeardBy(Shuffled(peer, w, x, y, z), SHUFFLED_NUMBERS, 0) == Heard(false, map[], false);
    assert HeardBy(Shuffled(peer, w, x, y, z), SHUFFLED_NUMBERS, 1) == Heard(true, map[], false);
    assert HeardBy(Shuffled(peer, w, x, y, z), SHUFFLED_NUMBERS, 2) == Heard(true, Ahead(y, z), false);
  }

  lemma GapAt(r: map<nat, byte>, g: nat)
    requires R.IsGap(r, g)
    ensures R.FirstGap(r) == g
  {
    var f := R.FirstGap(r);
    assert f < g || f == g || g < f;
  }

  lemma ShuffledTame(peer: uint32, w: byte, x: byte, y: byte, z: byte, states: seq<Receiver>)
    requires Run(100, Shuffled(peer, w, x, y, z), states)
    ensures Numbering(Shuffled(peer, w, x, y, z), SHUFFLED_NUMBERS)
    ensures Tame(Shuffled(peer, w, x, y, z), SHUFFLED_NUMBERS, states, 3)
    ensures states[3].isn == peer
  {
    hide Represents, Size, Disjoint, Wrap, ReceiveSpec, R.FirstGap, HeardBy, Receiver.Valid, Assembler.Valid, CarriesSlice, R.Faithful;
    var events, nums, s := Shuffled(peer, w, x, y, z), SHUFFLED_NUMBERS, [w, x, y, z];
    ShuffledNumbered(peer, w, x, y, z);
    ShuffledHeard(peer, w, x, y, z);
    var r0, r1, r2, r3 := states[0], states[1], states[2], states[3];
    ShuffledSlices(peer, w, x, y, z);
    ReceiverSafety(100, events, nums, states, s, 0);
    assert Step(r0, events[0], r1);
    ArriveBasics(r0, events[0].seg, r1);
    ReceiverSafety(100, events, nums, states, s, 1);
    assert Step(r1, events[1], r2);
    ArriveBasics(r1, events[1].seg, r2);
    ReceiverSafety(100, events, nums, states, s, 2);
    assert Step(r2, events[2], r3);
    ArriveBasics(r2, events[2].seg, r3);
    ReceiverSafety(100, events, nums, states, s, 3);
  }

  lemma ShuffledSlices(peer: uint32, w: byte, x: byte, y: byte, z: byte)
    ensures var events, nums := Shuffled(peer, w, x, y, z), SHUFFLED_NUMBERS;
            forall i :: 0 <= i < 3 ==> events[i].Arrive? && CarriesSlice(events[i].seg, nums[i], [w, x, y, z])
  {
    hide Wrap, CarriesSlice, AtNumber;
    var events, nums, s := Shuffled(peer, w, x, y, z), SHUFFLED_NUMBERS, [w, x, y, z];
    NothingCarried(Segment(BLANK.(seqno := peer, syn := true), []), s);
    TwoCarried(peer, 3, y, z, s);
    TwoCarried(peer, 1, w, x, s);
    forall i | 0 <= i < 3
      ensures events[i].Arrive? && CarriesSlice(events[i].seg, nums[i], s)
    {
      assert i == 0 || i == 1 || i == 2;
    }
  }

  lemma NothingCarried(seg: Segment, s: seq<byte>)
    requires seg.payload == [] && seg.header.syn && !seg.header.fin
    ensures CarriesSlice(seg, 0, s)
  {
  }

  lemma TwoCarried(peer: uint32, abs: nat, x: byte, y: byte, s: seq<byte>)
    requires 1 <= abs && abs + 1 <= |s| && s[abs - 1] == x && s[abs] == y
    ensures CarriesSlice(AtNumber(peer, abs, [x, y]), abs, s)
  {
    hide Wrap;
    assert s[abs - 1..abs + 1] == [x, y];
  }

  lemma ArriveBasics(r: Receiver, seg: Segment, r': Receiver)
    requires r.Valid() && r.Spacious(|seg.payload|) && ReceiveSpec(r, seg, r')
    ensures r'.asm.Limit() == r.asm.Limit()
    ensures r.synRecv ==> r'.synRecv && r'.isn == r.isn
    ensures !r.synRecv && seg.header.syn ==> r'.synRecv && r'.isn == seg.header.seqno
  {
    hide Represents, Size, Disjoint, Wrap, Unwrap, Assembler.Merged, Assembler.Dropped;
  }
}
