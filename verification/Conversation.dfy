/** Two whole connections, joined by two channels that lose segments but keep their order. */
module Conversation {
  import opened Machine
  import opened WrappingIntegers
  import opened Fragments
  import opened TcpSegments
  import opened TcpReceivers
  import opened SegmentSizes
  import opened TcpSenders
  import opened SenderRuns
  import opened TcpConnections
  import opened ConnectionRuns
  import opened Transfer
  import TransferSteps

  // -- The system ------------------------------------------------------------------------------------------

  /** `ab` are the segments collected from `a` and under way to `b`, oldest first; `ba` those the other way. */
  datatype Pair = Pair(a: Conn, b: Conn, ab: seq<Segment>, ba: seq<Segment>, rtA: nat, rtB: nat) {
    function Swap(): Pair {
      Pair(b, a, ba, ab, rtB, rtA)
    }

    /** Everything that `a` has put out and `b` has not received, lost segments aside. */
    function FromA(): seq<Segment> {
      ab + a.out
    }

    function FromB(): seq<Segment> {
      ba + b.out
    }
  }

  datatype Act =
    | Call(e: ConnEvent)
    | Collect(k: nat)
    | Receive
    | Lose(i: nat)

  /** The calls of an owner, other than those that exchange segments. */
  predicate Owned(e: ConnEvent) {
    !e.Arrives? && !e.Collects?
  }

  /** `a` acts, or a segment that it has sent gets lost. Nothing is assumed of the segments that arrive. */
  ghost predicate Acts(p: Pair, act: Act, p': Pair) {
    match act
    case Call(e) =>
      // the 64-bit counters do not come near their limits
      Owned(e) && ConnStep(p.a, p.rtA, e, p'.a) && Small(p'.a.snd, p.b.rcv) && p' == p.(a := p'.a)
    case Collect(k) =>
      k <= |p.a.out| && p' == p.(a := p.a.(out := p.a.out[k..]), ab := p.ab + p.a.out[..k])
    case Receive =>
      && p.ba != []
      && (Hearable(p.a, p.ba[0]) ==> SegmentSpec(p.a, p.ba[0], p'.a))
      && p' == p.(a := p'.a, ba := p.ba[1..])
    case Lose(i) =>
      i < |p.ab| && p' == p.(ab := p.ab[..i] + p.ab[i + 1..])
  }

  datatype PairEvent = First(act: Act) | Second(act: Act)

  ghost predicate PairStep(p: Pair, e: PairEvent, p': Pair) {
    match e
    case First(act) => Acts(p, act, p')
    case Second(act) => Acts(p.Swap(), act, p'.Swap())
  }

  /** How an end is set up. */
  datatype Setup = Setup(sendCapacity: nat, recvCapacity: nat, rtTimeout: uint16, isn: uint32) {
    function Conn(): Conn {
      InitialConn(sendCapacity, recvCapacity, rtTimeout, isn)
    }
  }

  function Beginning(a: Setup, b: Setup): Pair {
    Pair(a.Conn(), b.Conn(), [], [], a.rtTimeout, b.rtTimeout)
  }

  ghost predicate PairRun(first: Pair, events: seq<PairEvent>, states: seq<Pair>) {
    && |states| == |events| + 1
    && states[0] == first
    && forall i :: 0 <= i < |events| ==> PairStep(states[i], events[i], states[i + 1])
  }

  // -- What is known of the segments under way -----------------------------------------------------------------

  /** The absolute number of a segment, the sender's next number when it was sent, and the absolute
      number that its acknowledgment stands for. */
  datatype Sent = Sent(abs: nat, hi: nat, ackAbs: nat)

  /** A segment without what the receiving half has filled in. */
  function Core(seg: Segment): Segment {
    seg.(header := seg.header.(ack := false, ackno := 0, win := 0))
  }

  predicate Plain(seg: Segment) {
    seg.payload == [] && !seg.header.syn && !seg.header.fin
  }

  function AckOf(seg: Segment, k: Sent): seq<AckMsg> {
    if seg.header.ack then [AckMsg(k.ackAbs, seg.header.ackno, seg.header.win)] else []
  }

  /** The acknowledgments under way with the segments `x`. */
  function Acks(x: seq<Segment>, m: seq<Sent>): seq<AckMsg>
    requires |x| == |m|
  {
    if x == [] then [] else Acks(x[..|x| - 1], m[..|x| - 1]) + AckOf(x[|x| - 1], m[|x| - 1])
  }

  /** A segment takes up no number, or is one of the packets sent, not far behind the next number then. */
  ghost predicate Fit(seg: Segment, k: Sent, net: set<Packet>, s: Sender) {
    && k.hi <= s.q.next
    && (Plain(seg) || (Packet(k.abs, Core(seg)) in net && k.abs + |seg.payload| <= k.hi <= k.abs + 0x1_0000))
  }

  /** Everything received lies below the number `hi`. */
  ghost predicate Below(r: Receiver, hi: nat)
    requires r.asm.Valid()
  {
    forall p: nat :: Got(r.asm, p) ==> p + 2 <= hi
  }

  /** What is under way from `s` to `r`: in the order sent, so that what has been received was sent before. */
  ghost predicate Queued(x: seq<Segment>, m: seq<Sent>, net: set<Packet>, s: Sender, r: Receiver)
    requires r.asm.Valid()
  {
    && |x| == |m|
    && (forall i :: 0 <= i < |x| ==> Fit(x[i], m[i], net, s) && Below(r, m[i].hi))
    && (forall i, j :: 0 <= i < j < |m| ==> m[i].hi <= m[j].hi)
  }

  /** One direction: data go from `s` to `r` with the segments `x`, acknowledgments come back with `y`. */
  ghost predicate OneWay(s: Sender, x: seq<Segment>, m: seq<Sent>, net: set<Packet>, r: Receiver, y: seq<Segment>, n: seq<Sent>) {
    && |y| == |n|
    && SystemInv(System(s, r, net, Acks(y, n)))
    && r.asm.Valid() && Queued(x, m, net, s, r)
  }

  datatype Notes = Notes(m: seq<Sent>, n: seq<Sent>, netA: set<Packet>, netB: set<Packet>) {
    function Swap(): Notes {
      Notes(n, m, netB, netA)
    }
  }

  ghost predicate Linked(p: Pair, w: Notes) {
    && OneWay(p.a.snd, p.FromA(), w.m, w.netA, p.b.rcv, p.FromB(), w.n)
    && OneWay(p.b.snd, p.FromB(), w.n, w.netB, p.a.rcv, p.FromA(), w.m)
  }

  /** Both ends are in order, and each direction is an instance of the joined sender and receiver. */
  ghost predicate PairInv(p: Pair) {
    ConnInv(p.a) && ConnInv(p.b) && exists w :: Linked(p, w)
  }

  lemma SwapInv(p: Pair)
    requires PairInv(p)
    ensures PairInv(p.Swap())
  {
    hide ConnInv, OneWay;
    var w :| Linked(p, w);
    assert Linked(p.Swap(), w.Swap());
  }

  lemma BeginningInv(a: Setup, b: Setup)
    requires a.recvCapacity < 0x1_0000 && b.recvCapacity < 0x1_0000
    ensures PairInv(Beginning(a, b))
  {
    hide ConnInv, SystemInv, Represents, Disjoint, OneWay;
    var p := Beginning(a, b);
    InitialConnInv(a.sendCapacity, a.recvCapacity, a.rtTimeout, a.isn);
    InitialConnInv(b.sendCapacity, b.recvCapacity, b.rtTimeout, b.isn);
    InitiallyInv(a.sendCapacity, a.rtTimeout, a.isn, b.recvCapacity);
    InitiallyInv(b.sendCapacity, b.rtTimeout, b.isn, a.recvCapacity);
    BeginningOneWay(a, b);
    BeginningOneWay(b, a);
    assert p.FromA() == [] && p.FromB() == [];
    assert Linked(p, Notes([], [], {}, {}));
  }

  lemma BeginningOneWay(a: Setup, b: Setup)
    requires SystemInv(Initially(a.sendCapacity, a.rtTimeout, a.isn, b.recvCapacity))
    ensures OneWay(a.Conn().snd, [], [], {}, b.Conn().rcv, [], [])
  {
    hide SystemInv, Represents;
    assert System(a.Conn().snd, b.Conn().rcv, {}, []) == Initially(a.sendCapacity, a.rtTimeout, a.isn, b.recvCapacity);
  }

  // -- Acknowledgments under way ---------------------------------------------------------------------------------

  lemma {:induction false} AcksConcat(x: seq<Segment>, m: seq<Sent>, y: seq<Segment>, n: seq<Sent>)
    requires |x| == |m| && |y| == |n|
    ensures Acks(x + y, m + n) == Acks(x, m) + Acks(y, n)
    decreases |y|
  {
    hide AckOf, Acks;
    if y == [] {
      AcksNone();
      assert x + y == x && m + n == m;
    } else {
      var l, z, k := |y| - 1, x + y, m + n;
      AcksConcat(x, m, y[..l], n[..l]);
      assert z[..|x| + l] == x + y[..l] && k[..|x| + l] == m + n[..l];
      AcksLast(z, k);
      AcksLast(y, n);
    }
  }

  lemma AcksNone()
    ensures Acks([], []) == []
  {
  }

  lemma AcksLast(x: seq<Segment>, m: seq<Sent>)
    requires |x| == |m| && x != []
    ensures Acks(x, m) == Acks(x[..|x| - 1], m[..|x| - 1]) + AckOf(x[|x| - 1], m[|x| - 1])
  {
    hide AckOf;
  }

  lemma AcksOne(seg: Segment, k: Sent)
    ensures Acks([seg], [k]) == AckOf(seg, k)
  {
    assert [seg][..0] == [] && [k][..0] == [];
  }

  /** The first segment's acknowledgment comes first. */
  lemma AcksHead(y: seq<Segment>, n: seq<Sent>)
    requires |y| == |n| && y != []
    ensures Acks(y, n) == AckOf(y[0], n[0]) + Acks(y[1..], n[1..])
  {
    AcksConcat([y[0]], [n[0]], y[1..], n[1..]);
    AcksOne(y[0], n[0]);
    assert [y[0]] + y[1..] == y && [n[0]] + n[1..] == n;
  }

  ghost predicate Current(r: Receiver, m: AckMsg) {
    m.abs == r.Expected() && m.ackno == r.ackno && m.window == r.Window()
  }

  ghost predicate AllCurrent(r: Receiver, acks: seq<AckMsg>) {
    forall i :: 0 <= i < |acks| ==> Current(r, acks[i])
  }

  lemma StampCurrent(seg: Segment, k: Sent, r: Receiver)
    requires !seg.header.ack && !seg.header.rst && k.ackAbs == r.Expected() && 0 <= r.Window() < 0x1_0000
    ensures AllCurrent(r, AckOf(Stamp(seg, r), k)) && (!r.synRecv ==> AckOf(Stamp(seg, r), k) == [])
  {
  }

  /** Segments stamped now carry the acknowledgment of now, if there is one. */
  lemma {:induction false} AcksStamped(e: seq<Segment>, k: seq<Sent>, r: Receiver)
    requires |e| == |k| && 0 <= r.Window() < 0x1_0000
    requires forall i :: 0 <= i < |e| ==> !e[i].header.ack && !e[i].header.rst && k[i].ackAbs == r.Expected()
    ensures var acks := Acks(StampAll(e, r), k);
            (!r.synRecv ==> acks == []) && AllCurrent(r, acks)
  {
    hide Represents, Disjoint, Current;
    if e != [] {
      var l := |e| - 1;
      AcksStamped(e[..l], k[..l], r);
      assert StampAll(e, r)[..l] == StampAll(e[..l], r);
      var before, last := Acks(StampAll(e[..l], r), k[..l]), AckOf(Stamp(e[l], r), k[l]);
      assert Acks(StampAll(e, r), k) == before + last;
      StampCurrent(e[l], k[l], r);
    }
  }

  lemma {:induction false} SendAcks(z: System, acks: seq<AckMsg>)
    requires SystemInv(z)
    requires (acks != [] ==> z.rcv.synRecv) && AllCurrent(z.rcv, acks)
    ensures SystemInv(z.(acks := z.acks + acks))
    decreases |acks|
  {
    hide SystemInv;
    if acks == [] {
      assert z.acks + acks == z.acks;
    } else {
      var l := |acks| - 1;
      SendAcks(z, acks[..l]);
      var z1 := z.(acks := z.acks + acks[..l]);
      assert z1.acks + [acks[l]] == z.acks + acks;
      SendOneAck(z1, acks[l]);
    }
  }

  lemma SendOneAck(z: System, m: AckMsg)
    requires SystemInv(z) && z.rcv.synRecv && Current(z.rcv, m)
    ensures SystemInv(z.(acks := z.acks + [m]))
  {
    hide SystemInv, Represents, Disjoint;
    AlwaysReady(z);
    WindowFits(z);
    TransferSteps.SendAckStep(z, z.(acks := z.acks + [m]));
  }

  lemma WindowFits(z: System)
    requires SystemInv(z)
    ensures z.rcv.asm.Valid() && 0 <= z.rcv.Window() < 0x1_0000
  {
    hide Represents, Size, Disjoint, Wrap, Inv, NetFine, WholeEntries, AcksFine, Fitting;
  }

  lemma LoseOneAck(z: System, i: nat)
    requires SystemInv(z) && i < |z.acks|
    ensures SystemInv(z.(acks := z.acks[..i] + z.acks[i + 1..]))
  {
    hide SystemInv;
    AlwaysReady(z);
    TransferSteps.LoseAckStep(z, i, z.(acks := z.acks[..i] + z.acks[i + 1..]));
  }

  /** All the later acknowledgments may get lost. */
  lemma {:induction false} LoseLater(z: System, i: nat)
    requires SystemInv(z) && i <= |z.acks|
    ensures SystemInv(z.(acks := z.acks[..i]))
    decreases |z.acks|
  {
    hide SystemInv;
    if i == |z.acks| {
      assert z.acks[..i] == z.acks;
    } else {
      var l := |z.acks| - 1;
      LoseOneAck(z, l);
      assert z.acks[..l] + z.acks[l + 1..] == z.acks[..l];
      LoseLater(z.(acks := z.acks[..l]), i);
      assert z.acks[..l][..i] == z.acks[..i];
    }
  }
}
