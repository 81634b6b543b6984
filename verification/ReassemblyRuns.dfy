/** What holds over every run of pushes and reads. */
module ReassemblyRuns {
  import opened Machine
  import opened ByteStreams
  import opened Fragments
  import opened Reassembly

  datatype Event = Push(data: seq<byte>, index: uint64, eof: bool) | Read(len: nat)

  /** One call, made in a state that is in order, within the reach of 64-bit indices. */
  ghost predicate Step(a: Assembler, e: Event, a': Assembler) {
    a.Valid() ==>
    match e
    case Push(data, index, eof) => a.Limit() + |data| < TWO63 && PushSpec(a, data, index, eof, a')
    case Read(len) => ReadSpec(a, len, a')
  }

  lemma StepValid(a: Assembler, e: Event, a': Assembler)
    requires a.Valid() && Step(a, e, a')
    ensures a'.Valid()
  {
    hide Represents, Size, Disjoint, IsPlaced, DrainSpec;
  }

  function Initial(capacity: nat): Assembler {
    Assembler(Stream([], 0, capacity, false), map[], false, 0)
  }

  /** `states` are the states of a run: initially empty, then one per event. */
  ghost predicate Run(capacity: nat, events: seq<Event>, states: seq<Assembler>) {
    && |states| == |events| + 1
    && states[0] == Initial(capacity)
    && forall i :: 0 <= i < |events| ==> Step(states[i], events[i], states[i + 1])
  }

  // -- Slices of one stream -------------------------------------------------------

  /** The event is a read, or pushes a slice of `s`, marked only if it reaches the end of `s`. */
  ghost predicate SliceOf(s: seq<byte>, e: Event) {
    e.Push? ==>
      && e.index + |e.data| <= |s| < TWO64
      && e.data == s[e.index..e.index + |e.data|]
      && (e.eof ==> e.index + |e.data| == |s|)
  }

  /** Every byte of `r` is the byte of `s` at the same index. */
  ghost predicate Agrees(r: map<nat, byte>, s: seq<byte>) {
    forall p :: p in r ==> p < |s| && r[p] == s[p]
  }

  /** Bytes written and waiting are those of `s`; the input has ended exactly if the mark has
      been seen and everything is written. */
  ghost predicate Faithful(a: Assembler, s: seq<byte>)
    requires a.Valid()
  {
    && a.out.written <= s
    && Agrees(a.Pending(), s)
    && (a.eofSeen ==> a.eofIdx == |s|)
    && (a.out.ended <==> a.eofSeen && a.Next() == |s|)
  }

  lemma FreshAgrees(a: Assembler, index: nat, data: seq<byte>, s: seq<byte>)
    requires index + |data| <= |s| && data == s[index..index + |data|]
    ensures Agrees(a.Fresh(index, data), s)
  {
    hide Represents, Size, Disjoint;
    var r := a.Fresh(index, data);
    forall p | p in r
      ensures p < |s| && r[p] == s[p]
    {
      assert r[p] == data[p - index];
    }
  }

  lemma MergedAgrees(a: Assembler, index: nat, data: seq<byte>, s: seq<byte>)
    requires a.Valid() && Agrees(a.Pending(), s)
    requires index + |data| <= |s| && data == s[index..index + |data|]
    ensures Agrees(a.Merged(index, data), s)
  {
    hide Represents, Size, Disjoint, IsPlaced, Assembler.Fresh, Assembler.NewIndex, Assembler.Dropped;
    FreshAgrees(a, index, data, s);
  }

  lemma DrainFaithful(a: Assembler, waiting: map<nat, byte>, limit: nat, a': Assembler, s: seq<byte>)
    requires a'.Valid() && Agrees(waiting, s)
    requires a.out.written <= s && DrainSpec(a.out, waiting, limit, a')
    ensures a'.out.written <= s && Agrees(a'.Pending(), s)
    ensures a'.Next() != a.Next() ==> a.Next() in waiting
  {
    hide Represents, Size, Disjoint, IsPlaced;
    var w := a'.out.written;
    if |w| > a.Next() {
      assert |w| - 1 in waiting;
    }
    assert forall p :: 0 <= p < |w| ==> w[p] == s[p];
  }

  lemma StepFaithful(a: Assembler, e: Event, a': Assembler, s: seq<byte>)
    requires a.Valid() && Step(a, e, a') && a'.Valid()
    requires Faithful(a, s) && SliceOf(s, e)
    ensures Faithful(a', s)
  {
    hide Represents, Size, Disjoint, IsPlaced, Assembler.Merged, Assembler.Dropped;
    if e.Push? && !a.out.ended && e.data != [] {
      MergedAgrees(a, e.index, e.data, s);
      if !a.Dropped(e.index, e.data) {
        var o := a.(out := a.out.(ended := e.eof && a'.eofIdx == a.Next()));
        DrainFaithful(o, a.Merged(e.index, e.data), a.Limit(), a', s);
      }
    }
  }

  lemma InitialFaithful(capacity: nat, s: seq<byte>)
    ensures Initial(capacity).Valid() && Faithful(Initial(capacity), s)
  {
    hide Represents, Size;
    DenoteEmpty();
  }

  /** Whatever slices of `s` are pushed, in any order and however often, within the window or
      not: the output is always a prefix of `s`, every byte held is in its place, and the input
      has ended if and only if a marked slice was pushed and all of `s` has been written. */
  lemma {:induction false} SliceSafety(capacity: nat, events: seq<Event>, states: seq<Assembler>, s: seq<byte>, n: nat)
    requires Run(capacity, events, states) && n <= |events|
    requires forall i :: 0 <= i < n ==> SliceOf(s, events[i])
    ensures states[n].Valid() && Faithful(states[n], s)
    ensures states[n].eofSeen ==> exists i :: 0 <= i < n && events[i].Push? && events[i].eof
    ensures (exists i :: 0 <= i < n && events[i].Push? && events[i].eof) ==> states[n].eofSeen
  {
    hide Represents, Size, Disjoint, Assembler.Valid, PushSpec, Faithful;
    if n == 0 {
      InitialFaithful(capacity, s);
    } else {
      SliceSafety(capacity, events, states, s, n - 1);
      var a, e, a' := states[n - 1], events[n - 1], states[n];
      StepValid(a, e, a');
      StepFaithful(a, e, a', s);
      StepMark(a, e, a', s);
    }
  }

  lemma StepMark(a: Assembler, e: Event, a': Assembler, s: seq<byte>)
    requires a.Valid() && Step(a, e, a') && Faithful(a, s)
    ensures a'.eofSeen <==> a.eofSeen || (e.Push? && e.eof && !a.out.ended)
    ensures a.out.ended ==> a'.eofSeen
  {
    hide Represents, Size, Disjoint, IsPlaced;
  }

  // -- The reference: one byte map ---------------------------------------------------

  ghost predicate IsGap(r: map<nat, byte>, g: nat) {
    g !in r && forall p: nat :: p < g ==> p in r
  }

  lemma {:induction false} GapBelow(r: map<nat, byte>, n: nat)
    requires forall p: nat :: p < n ==> p in r
    ensures exists g :: IsGap(r, g)
    decreases |r| - n
  {
    IntervalFits(r, n);
    if n in r {
      IntervalFits(r, n + 1);
      GapBelow(r, n + 1);
    } else {
      assert IsGap(r, n);
    }
  }

  lemma IntervalFits(r: map<nat, byte>, n: nat)
    requires forall p: nat :: p < n ==> p in r
    ensures n <= |r|
  {
    SubsetSize(Interval(0, n), r.Keys);
  }

  lemma {:induction false} SubsetSize(x: set<nat>, y: set<nat>)
    requires x <= y
    ensures |x| <= |y|
  {
    assert y == x + (y - x);
  }

  /** The least index missing from `r`. */
  ghost function FirstGap(r: map<nat, byte>): (g: nat)
    ensures IsGap(r, g)
  {
    GapBelow(r, 0);
    var g :| IsGap(r, g);
    g
  }

  /** A push overwrites exactly the positions it covers from the first gap on. */
  ghost function RefPush(r: map<nat, byte>, index: nat, data: seq<byte>): map<nat, byte> {
    r + (map p | p in Placed(index, data) && p >= FirstGap(r) :: Placed(index, data)[p])
  }

  /** The bytes received in a run, newest first wins, as long as they are not yet contiguous. */
  ghost function Received(events: seq<Event>): map<nat, byte> {
    if events == [] then map[]
    else
      var r, e := Received(events[..|events| - 1]), events[|events| - 1];
      match e
      case Push(data, index, _) => RefPush(r, index, data)
      case Read(_) => r
  }

  /** `a` holds the bytes `r`: written up to the first gap, the rest waiting inside the window. */
  ghost predicate Refines(a: Assembler, r: map<nat, byte>)
    requires a.Valid()
  {
    && (forall p: nat :: p in r <==> p < a.Next() || p in a.Pending())
    && (forall p :: p in r ==> r[p] == if p < a.Next() then a.out.written[p] else a.Pending()[p])
    && a.Next() !in a.Pending()
    && (forall p :: p in a.Pending() ==> a.Next() <= p < a.Limit())
  }

  lemma GapIsNext(a: Assembler, r: map<nat, byte>)
    requires a.Valid() && Refines(a, r)
    ensures FirstGap(r) == a.Next()
  {
    hide Represents, Size, Disjoint;
    var g := FirstGap(r);
    assert g == a.Next() || g < a.Next() || a.Next() < g;
  }

  lemma PendingAfterNext(a: Assembler)
    requires a.Valid()
    ensures forall p :: p in a.Pending() ==> a.Next() <= p
  {
    forall p | p in a.Pending()
      ensures a.Next() <= p
    {
      var k: nat :| Covers(a.frags, k, p);
    }
  }

  /** Inside the window a push is never refused, so newer bytes always win. */
  lemma MergedInWindow(a: Assembler, index: nat, data: seq<byte>)
    requires a.Valid() && index + |data| <= a.Limit()
    ensures a.Merged(index, data) == a.Pending() + a.Fresh(index, data)
  {
    hide Represents, Size, Disjoint, IsPlaced;
    EndOfAtLeast(a.frags, a.NewIndex(index));
  }

  lemma FreshIs(a: Assembler, index: nat, data: seq<byte>)
    ensures a.Fresh(index, data) == map p | p in Placed(index, data) && p >= a.Next() :: Placed(index, data)[p]
  {
    hide Represents, Size, Disjoint;
    var r := map p | p in Placed(index, data) && p >= a.Next() :: Placed(index, data)[p];
    var f := a.Fresh(index, data);
    assert forall p: nat :: p in r <==> p in f;
    assert forall p :: p in r ==> r[p] == f[p];
  }

  lemma StepRefines(a: Assembler, e: Event, a': Assembler, r: map<nat, byte>)
    requires a.Valid() && Step(a, e, a') && a'.Valid() && Refines(a, r)
    requires e.Push? ==> e.index + |e.data| <= a.Limit() && !a'.out.ended
    ensures Refines(a', if e.Push? then RefPush(r, e.index, e.data) else r)
  {
    hide Represents, Size, Disjoint, IsPlaced, Assembler.Merged;
    if e.Push? {
      GapIsNext(a, r);
      FreshIs(a, e.index, e.data);
      MergedInWindow(a, e.index, e.data);
      PushRefines(a, e.data, e.index, e.eof, a', r);
    }
  }

  /** `r` consists of the bytes written to `o` and of the waiting ones. */
  ghost predicate Holds(o: Stream, waiting: map<nat, byte>, r: map<nat, byte>) {
    && (forall p: nat :: p in r <==> p < |o.written| || p in waiting)
    && (forall p :: p in r ==> r[p] == if p < |o.written| then o.written[p] else waiting[p])
    && (forall p :: p in waiting ==> |o.written| <= p < o.read + o.capacity)
  }

  lemma HoldsOverlay(a: Assembler, index: nat, data: seq<byte>, r: map<nat, byte>)
    requires a.Valid() && Holds(a.out, a.Pending(), r) && index + |data| <= a.Limit()
    ensures Holds(a.out, a.Pending() + a.Fresh(index, data), r + a.Fresh(index, data))
  {
    hide Represents, Size, Disjoint, IsPlaced, Assembler.Fresh, Assembler.Valid;
    FreshKeys(a, index, data);
  }

  lemma FreshKeys(a: Assembler, index: nat, data: seq<byte>)
    ensures forall p :: p in a.Fresh(index, data) ==> a.Next() <= p < index + |data|
  {
  }

  lemma RefinesHolds(a: Assembler, r: map<nat, byte>)
    requires a.Valid() && Refines(a, r)
    ensures Holds(a.out, a.Pending(), r)
  {
    hide Represents, Size, Disjoint;
  }

  lemma HoldsRefines(a: Assembler, r: map<nat, byte>, a': Assembler)
    requires a'.Valid() && Holds(a.out, a'.Pending(), r)
    requires a'.out == a.out && a'.Next() !in a'.Pending()
    ensures Refines(a', r)
  {
    hide Represents, Size, Disjoint;
  }

  lemma NotStored(a: Assembler)
    requires a.Valid() && a.Next() !in a.Pending()
    ensures EndOf(a.frags, a.Next()) == a.Next()
  {
  }

  lemma DroppedMisses(a: Assembler, index: nat, data: seq<byte>)
    requires a.Valid() && a.Next() !in a.Pending() && a.Dropped(index, data)
    ensures a.Next() !in a.Fresh(index, data)
  {
    hide Represents, Size, Disjoint;
    NotStored(a);
  }

  lemma DrainRefines(o: Stream, waiting: map<nat, byte>, a': Assembler, r: map<nat, byte>)
    requires a'.Valid() && Holds(o, waiting, r)
    requires DrainSpec(o, waiting, o.read + o.capacity, a') && !a'.out.ended
    ensures Refines(a', r)
  {
    hide Represents, Size, Disjoint, Assembler.Valid;
    assert forall p :: p in a'.Pending() <==> p in waiting && a'.Next() <= p;
    assert forall p :: p in a'.Pending() ==> a'.Pending()[p] == waiting[p];
  }

  lemma PushRefines(a: Assembler, data: seq<byte>, index: uint64, eof: bool, a': Assembler, r: map<nat, byte>)
    requires a.Valid() && PushSpec(a, data, index, eof, a') && a'.Valid() && Refines(a, r) && !a'.out.ended
    requires index + |data| <= a.Limit()
    requires a.Merged(index, data) == a.Pending() + a.Fresh(index, data)
    ensures Refines(a', r + a.Fresh(index, data))
  {
    hide Represents, Size, Disjoint, IsPlaced, Assembler.Merged, Assembler.Dropped, Assembler.Fresh, Assembler.Valid, Drained, Holds;
    RefinesHolds(a, r);
    HoldsOverlay(a, index, data, r);
    if data == [] {
      NoFresh(a, index);
      assert r + map[] == r;
      HoldsRefines(a, r, a');
    } else if a.Dropped(index, data) {
      DroppedMisses(a, index, data);
      HoldsRefines(a, r + a.Fresh(index, data), a');
    } else {
      assert a.out == a.out.(ended := eof && a'.eofIdx == a.Next());
      DrainRefines(a.out, a.Merged(index, data), a', r + a.Fresh(index, data));
    }
  }

  lemma NoFresh(a: Assembler, index: nat)
    ensures a.Fresh(index, []) == map[]
  {
  }

  /** Pushes inside the window, in a run whose input has not ended. */
  ghost predicate Windowed(events: seq<Event>, states: seq<Assembler>, n: nat)
    requires |states| == |events| + 1 && n <= |events|
  {
    forall i :: 0 <= i < n ==>
      events[i].Push? ==> events[i].index + |events[i].data| <= states[i].Limit() && !states[i + 1].out.ended
  }

  /** For pushes inside the window the ordered map of strings refines one byte map in which the
      newest byte wins: the output is exactly its maximal contiguous prefix, the strings hold
      exactly the rest, no string starts at the next index, and what is held fits the capacity. */
  lemma {:induction false} WindowRefinement(capacity: nat, events: seq<Event>, states: seq<Assembler>, n: nat)
    requires Run(capacity, events, states) && n <= |events|
    requires Windowed(events, states, n)
    ensures var a, r := states[n], Received(events[..n]);
            && a.Valid() && Refines(a, r)
            && a.Next() == FirstGap(r)
            && a.Next() !in a.frags
            && a.out.Buffered() + |a.Pending()| <= capacity
  {
    hide Represents, Size, Disjoint, Assembler.Valid, PushSpec, Refines;
    if n == 0 {
      InitialRefines(capacity);
      assert events[..n] == [];
    } else {
      WindowRefinement(capacity, events, states, n - 1);
      var a, e, a' := states[n - 1], events[n - 1], states[n];
      StepValid(a, e, a');
      StepRefines(a, e, a', Received(events[..n - 1]));
      assert events[..n][..n - 1] == events[..n - 1];
    }
    GapIsNext(states[n], Received(events[..n]));
    StructureKept(capacity, events, states, n);
    HeldFits(states[n], Received(events[..n]));
  }

  lemma InitialRefines(capacity: nat)
    ensures Initial(capacity).Valid() && Refines(Initial(capacity), map[])
  {
    hide Represents, Size;
    DenoteEmpty();
  }

  /** Whatever is pushed, sensible or not, the waiting strings stay non-empty, disjoint and in their range,
      and the output within its capacity. */
  lemma {:induction false} StructureKept(capacity: nat, events: seq<Event>, states: seq<Assembler>, n: nat)
    requires Run(capacity, events, states) && n <= |events|
    ensures states[n].Valid() && states[n].out.capacity == capacity
  {
    hide Represents, Size, Disjoint, IsPlaced;
    if n == 0 {
      assert states[0] == Initial(capacity);
      InitialFaithful(capacity, []);
    } else {
      StructureKept(capacity, events, states, n - 1);
      assert Step(states[n - 1], events[n - 1], states[n]);
    }
  }

  lemma HeldFits(a: Assembler, r: map<nat, byte>)
    requires a.Valid() && Refines(a, r)
    ensures a.Next() !in a.frags
    ensures a.out.Buffered() + |a.Pending()| <= a.out.capacity
  {
    hide Represents, Size, Disjoint;
    NotWaiting(a);
    SubsetSize(a.Pending().Keys, Interval(a.Next(), a.Limit() - a.Next()));
  }

  // -- Nothing received is lost, unless... ---------------------------------------------

  /** The pushes that discard held bytes: they start before `Next()` while the output is full,
      and reach beyond the string that waits at `Next()`. */
  ghost predicate Discards(a: Assembler, index: nat, data: seq<byte>) {
    index < a.Next() && a.Limit() <= a.Next() && data != [] && !a.Dropped(index, data) && a.frags != map[]
  }

  /** A held byte stays held or gets written -- for every push whatever, except exactly those above. */
  lemma PushKeeps(a: Assembler, data: seq<byte>, index: uint64, eof: bool, a': Assembler)
    requires a.Valid() && PushSpec(a, data, index, eof, a') && a'.Valid() && !a.out.ended
    ensures (forall p :: p in a.Pending() ==> p in a'.Pending() || p < a'.Next()) <==> !Discards(a, index, data)
  {
    hide Represents, Size, Disjoint, IsPlaced, Assembler.Dropped, Assembler.Fresh, Assembler.Valid;
    NonEmpty(a);
    if data != [] {
      PendingAfterNext(a);
      if Discards(a, index, data) {
        assert a'.Pending() == map[];
      }
    }
  }

  /** For instance: with a capacity of one byte, two bytes are pushed -- one is written, one waits. When
      three bytes are then pushed at 0, the waiting byte is gone, and not written either. */
  lemma DiscardsExample(x: byte, y: byte, data: seq<byte>)
    requires |data| == 3
    ensures var a1, a2 := OneWaits(x, y), OneWaits(x, y).(frags := map[]);
            && Run(1, [Push([x, y], 0, false), Push(data, 0, false)], [Initial(1), a1, a2])
            && a1.Valid() && a2.Valid() && Discards(a1, 0, data)
            && 1 in a1.Pending() && 1 !in a2.Pending() && a2.Next() == 1
  {
    hide Represents, Size, Disjoint, PushSpec, Assembler.Valid;
    var a1, a2 := OneWaits(x, y), OneWaits(x, y).(frags := map[]);
    var events, states := [Push([x, y], 0, false), Push(data, 0, false)], [Initial(1), a1, a2];
    OneWaitsPush(x, y);
    OneWaitsLoses(x, y, data);
    forall i | 0 <= i < |events|
      ensures Step(states[i], events[i], states[i + 1])
    {
      assert i == 0 || i == 1;
    }
  }

  /** One byte written, which is all that the output takes, and one waiting. */
  function OneWaits(x: byte, y: byte): Assembler {
    Assembler(Stream([x], 0, 1, false), map[1 := [y]], false, 0)
  }

  lemma OneWaitsHolds(x: byte, y: byte)
    ensures OneWaits(x, y).Valid() && OneWaits(x, y).Pending() == map[1 := y]
  {
    var m: Fragments := map[1 := [y]];
    assert Represents(m, map[1 := y]) by {
      assert Covers(m, 1, 1);
    }
    RepresentsUnique(m, Denote(m), map[1 := y]);
  }

  lemma OneWaitsPush(x: byte, y: byte)
    ensures Step(Initial(1), Push([x, y], 0, false), OneWaits(x, y))
  {
    hide Represents, Size, Disjoint, Assembler.Valid;
    var a, a', d: seq<byte> := Initial(1), OneWaits(x, y), [x, y];
    InitialFaithful(1, []);
    OneWaitsHolds(x, y);
    DenoteEmpty();
    NothingCovers(a.frags, 0);
    assert !a.Dropped(0, d) && a.NewIndex(0) == 0;
    assert a.Merged(0, d) == Placed(0, d);
    assert Placed(0, d) == map[0 := x, 1 := y];
    assert map[0 := x, 1 := y] - Interval(0, 1) == map[1 := y];
  }

  lemma OneWaitsLoses(x: byte, y: byte, data: seq<byte>)
    requires |data| == 3
    ensures var a, a' := OneWaits(x, y), OneWaits(x, y).(frags := map[]);
            && a.Valid() && a'.Valid() && Discards(a, 0, data)
            && Step(a, Push(data, 0, false), a')
            && 1 in a.Pending() && a'.Pending() == map[]
  {
    hide Represents, Size, Disjoint;
    var a, a' := OneWaits(x, y), OneWaits(x, y).(frags := map[]);
    OneWaitsHolds(x, y);
    OneWaitsEmptied(x, y);
    DenoteEmpty();
    assert EndOf(a.frags, 1) == 2 by {
      assert Covers(a.frags, 1, 1);
      EndOfOwner(a.frags, 1, 1);
    }
    assert a.frags != map[] by {
      assert 1 in a.frags;
    }
    assert a.Merged(0, data) == map[];
    var none: map<nat, byte> := map[];
    assert none - Interval(1, 0) == none;
  }

  lemma OneWaitsEmptied(x: byte, y: byte)
    ensures OneWaits(x, y).(frags := map[]).Valid()
  {
  }

  // -- Capacity -----------------------------------------------------------------------------

  /** Every waiting byte lies before the limit. */
  ghost predicate InReach(a: Assembler)
    requires a.Valid()
  {
    forall p :: p in a.Pending() ==> p < a.Limit()
  }

  /** Bytes that wait before the limit fit the capacity, together with those still to be read. */
  lemma InReachFits(a: Assembler)
    requires a.Valid() && InReach(a)
    ensures a.out.Buffered() + |a.Pending()| <= a.out.capacity
  {
    hide Represents, Size, Disjoint;
    PendingAfterNext(a);
    SubsetSize(a.Pending().Keys, Interval(a.Next(), a.Limit() - a.Next()));
  }

  /** Only the start of a string is compared with the limit: a push leaves everything before the limit
      exactly if it changes nothing, is dropped or refused as a whole, or ends before the limit. */
  lemma LimitKept(a: Assembler, data: seq<byte>, index: uint64, eof: bool, a': Assembler)
    requires a.Valid() && PushSpec(a, data, index, eof, a') && a'.Valid() && InReach(a)
    ensures InReach(a') <==>
              || a.out.ended || data == []
              || a.Dropped(index, data) || a.NewIndex(index) >= a.Limit()
              || index + |data| <= a.Limit()
    ensures InReach(a') ==> a'.out.Buffered() + |a'.Pending()| <= a'.out.capacity
  {
    hide Represents, Size, Disjoint, IsPlaced, Assembler.Dropped, Assembler.NewIndex, Assembler.Valid, Assembler.Fresh;
    if !a.out.ended && data != [] {
      FreshKeys(a, index, data);
      assert a'.Limit() == a.Limit();
      if a.Dropped(index, data) {
        DroppedCovered(a, index, data);
        assert InReach(a');
      } else if a.NewIndex(index) >= a.Limit() || index + |data| <= a.Limit() {
        assert InReach(a');
      } else {
        var last := index + |data| - 1;
        LastFresh(a, index, data);
        NextWithin(a');
        assert last in a'.Pending() && last >= a'.Limit();
      }
    } else {
      assert a'.Pending() == a.Pending() && a'.Limit() == a.Limit();
    }
    if InReach(a') {
      InReachFits(a');
    }
  }

  /** Conservation: a push moves bytes from waiting to written and loses none of the merged ones. So the
      capacity is respected afterwards exactly if the merged bytes fit. */
  lemma PushConserves(a: Assembler, data: seq<byte>, index: uint64, eof: bool, a': Assembler)
    requires a.Valid() && PushSpec(a, data, index, eof, a') && a'.Valid() && !a.out.ended
    ensures a'.out.Buffered() + |a'.Pending().Keys|
            == a.out.Buffered() + |(if data == [] then a.Pending() else a.Merged(index, data)).Keys|
  {
    hide Represents, Disjoint, IsPlaced, Assembler.Dropped, Assembler.Valid, Assembler.Merged, Assembler.Fresh;
    if data != [] && !a.Dropped(index, data) {
      var waiting, gone := a.Merged(index, data), Interval(a.Next(), a'.Next() - a.Next());
      assert gone <= waiting.Keys;
      DropKeys(waiting, gone);
    }
  }

  lemma NextWithin(a: Assembler)
    requires a.Valid()
    ensures a.Next() <= a.Limit()
  {
  }

  /** What is not dropped brings at least its last byte. */
  lemma LastFresh(a: Assembler, index: nat, data: seq<byte>)
    requires a.Valid() && data != [] && !a.Dropped(index, data)
    ensures index + |data| - 1 in a.Fresh(index, data)
  {
    hide Represents, Size, Disjoint;
    EndOfAtLeast(a.frags, a.NewIndex(index));
    EndOfAtLeast(a.frags, index);
  }

  /** What is dropped brings no index that is not held. */
  lemma DroppedCovered(a: Assembler, index: nat, data: seq<byte>)
    requires a.Valid() && a.Dropped(index, data)
    ensures forall p :: p in a.Fresh(index, data) ==> p in a.Pending()
  {
    hide Represents, Size, Disjoint;
    FreshKeys(a, index, data);
    forall p | p in a.Fresh(index, data)
      ensures p in a.Pending()
    {
      assert index <= p;
      if p < a.NewIndex(index) {
        UpToEnd(a.frags, index, p);
      } else {
        UpToEnd(a.frags, a.NewIndex(index), p);
      }
    }
  }

  lemma UpToEnd(m: Fragments, p: nat, q: nat)
    requires Disjoint(m) && p <= q < EndOf(m, p)
    ensures q in Denote(m)
  {
    assert Covers(m, Owner(m, p), q);
  }

  /** For instance: two bytes pushed into a capacity of one are both held. */
  lemma OverflowExample(x: byte, y: byte)
    ensures Run(1, [Push([x, y], 0, false)], [Initial(1), OneWaits(x, y)])
    ensures OneWaits(x, y).Valid() && OneWaits(x, y).out.Buffered() + |OneWaits(x, y).Pending()| == 2
  {
    hide Represents, Size, Disjoint, PushSpec, Assembler.Valid;
    OneWaitsPush(x, y);
    OneWaitsHolds(x, y);
  }

  lemma NonEmpty(a: Assembler)
    requires a.Valid()
    ensures a.frags != map[] <==> a.Pending() != map[]
  {
    if k: nat :| k in a.frags {
      assert Covers(a.frags, k, k);
    }
    if a.Pending() != map[] {
      var p :| p in a.Pending();
    }
  }
}
