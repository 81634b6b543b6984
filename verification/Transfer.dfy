/** A sender and a receiver joined by a channel that loses, duplicates and reorders data segments
    and by an acknowledgment channel that loses but does not reorder. */
module Transfer {
  import opened Machine
  import opened WrappingIntegers
  import opened Fragments
  import opened TcpSegments
  import opened Reassembly
  import R = ReassemblyRuns
  import opened TcpReceivers
  import opened SegmentSizes
  import opened TcpSenders
  import opened SenderRuns

  /** A segment on its way, with the absolute number its sender gave it. */
  datatype Packet = Packet(abs: nat, seg: Segment)

  /** An acknowledgment on its way, with the absolute number it stands for. */
  datatype AckMsg = AckMsg(abs: nat, ackno: uint32, window: uint16) {
    function Edge(): nat {
      abs + window
    }
  }

  datatype System = System(snd: Sender, rcv: Receiver, net: set<Packet>, acks: seq<AckMsg>)

  datatype Event =
    | Write(data: seq<byte>)
    | End
    | Fill(segs: seq<Segment>)
    | Tick(ms: nat, segs: seq<Segment>)
    | Deliver(pkt: Packet)
    | Read(len: nat)
    | SendAck
    | LoseAck(i: nat)
    | DeliverAck

  /** The absolute number of the `i`-th segment that filling the window puts out. */
  ghost function FillStart(s: Sender, i: nat): nat
    requires s.out.Valid()
  {
    if s.q.synSent then SendMany(s, i).q.next else 0
  }

  ghost function FillPackets(s: Sender, segs: seq<Segment>): set<Packet>
    requires s.out.Valid()
  {
    set i | 0 <= i < |segs| :: Packet(FillStart(s, i), segs[i])
  }

  ghost function TickPackets(s: Sender, segs: seq<Segment>): set<Packet> {
    set i | 0 <= i < |segs| :: Packet(Max(RetransmitStart(s), 0), segs[i])
  }

  /** The 64-bit counters do not come near their limits. */
  predicate Small(s: Sender, r: Receiver) {
    |s.out.written| + r.asm.out.capacity + TWO32 + 0x1_0000 < TWO63
  }

  /** What the calls on the two ends rely on. */
  ghost predicate Ready(z: System) {
    Callable(z.snd) && z.snd.q.base + TWO31 < TWO63 && z.rcv.Valid()
  }

  ghost predicate Next(z: System, e: Event, z': System) {
    Ready(z) ==>
    match e
    case Write(data) =>
      WriteSpec(z.snd, data, z'.snd) && Small(z'.snd, z.rcv) && z' == z.(snd := z'.snd)
    case End =>
      EndSpec(z.snd, z'.snd) && z' == z.(snd := z'.snd)
    case Fill(segs) =>
      && FillSpec(z.snd, z'.snd, segs)
      && z' == z.(snd := z'.snd, net := z.net + FillPackets(z.snd, segs))
    case Tick(ms, segs) =>
      && TickSpec(z.snd, ms, z'.snd, segs)
      && z' == z.(snd := z'.snd, net := z.net + TickPackets(z.snd, segs))
    case Deliver(pkt) =>
      // old duplicates linger less than half the sequence space
      && pkt in z.net && z.rcv.Spacious(|pkt.seg.payload|)
      && (!pkt.seg.header.syn ==> Reachable(pkt.abs, z.rcv.asm.Next()))
      && ReceiveSpec(z.rcv, pkt.seg, z'.rcv)
      && z' == z.(rcv := z'.rcv)
    case Read(len) =>
      && ReadSpec(z.rcv.asm, len, z'.rcv.asm)
      && z' == z.(rcv := z.rcv.(asm := z'.rcv.asm))
    case SendAck =>
      && z.rcv.synRecv && 0 <= z.rcv.Window() < 0x1_0000
      && z' == z.(acks := z.acks + [AckMsg(z.rcv.Expected(), z.rcv.ackno, z.rcv.Window())])
    case LoseAck(i) =>
      i < |z.acks| && z' == z.(acks := z.acks[..i] + z.acks[i + 1..])
    case DeliverAck =>
      && z.acks != []
      && AckSpec(z.snd, z.acks[0].ackno, z.acks[0].window, z'.snd)
      && z' == z.(snd := z'.snd, acks := z.acks[1..])
  }

  function Initially(sendCapacity: nat, retxTimeout: uint16, isn: uint32, recvCapacity: nat): System {
    System(TcpSenders.Initial(sendCapacity, retxTimeout, isn),
           Receiver(R.Initial(recvCapacity), false, 0, 0),
           {}, [])
  }

  // -- The invariant ------------------------------------------------------------------------------

  ghost predicate SenderFine(s: Sender) {
    && Inv(s) && InWindow(s.q) && s.q.win < 0x1_0000
    && (!s.q.synAcked ==> s.q.win == 1 && !s.q.finSent)
  }

  /** `[abs, abs + len)` is the `i`-th recorded segment in flight. */
  ghost predicate Entry(q: Queue, abs: nat, len: nat, i: nat) {
    i < |q.sizes| && abs == q.base + Total(q.sizes, i) && len == q.sizes[i]
  }

  /** A packet with payload is acknowledged already or is one of the recorded segments. */
  ghost predicate Tracked(q: Queue, pkt: Packet) {
    && (pkt.seg.header.syn ==> q.synSent)
    && (pkt.seg.header.fin ==> q.finSent)
    && pkt.abs + |pkt.seg.payload| <= q.next
    && (pkt.seg.payload != [] ==>
          || pkt.abs + |pkt.seg.payload| <= q.base
          || exists i: nat :: Entry(q, pkt.abs, |pkt.seg.payload|, i))
  }

  ghost predicate NetFine(s: Sender, net: set<Packet>) {
    forall pkt :: pkt in net ==> Accurate(pkt.seg, pkt.abs, s.isn, s.out) && Tracked(s.q, pkt)
  }

  /** Payloads end within the window, or are single bytes. */
  ghost predicate Fitting(net: set<Packet>, limit: nat) {
    forall pkt :: pkt in net ==> pkt.abs + |pkt.seg.payload| <= limit + 1 || |pkt.seg.payload| <= 1
  }

  /** Nothing waits at the next index, and nothing beyond the window. */
  ghost predicate Tidy(a: Assembler)
    requires a.Valid()
  {
    a.Next() !in a.Pending() && forall p :: p in a.Pending() ==> a.Next() <= p < a.Limit()
  }

  ghost predicate ReceiverFine(s: Sender, r: Receiver) {
    && r.Valid()
    && r.asm.out.capacity < 0x1_0000
    && R.Faithful(r.asm, s.out.written)
    && Tidy(r.asm)
    && (r.asm.eofSeen ==> s.out.ended && s.q.finSent)
    && r.asm.Next() <= s.out.read
    && (forall p :: p in r.asm.Pending() ==> p < s.out.read)
    && (r.synRecv ==> s.q.synSent && r.isn == s.isn)
    && (!r.synRecv ==> r.asm.Next() == 0 && r.asm.Pending() == map[] && !r.asm.eofSeen && s.q.base == 0)
  }

  ghost predicate Got(a: Assembler, p: nat)
    requires a.Valid()
  {
    p < a.Next() || p in a.Pending()
  }

  /** Of each recorded segment the receiver has all the bytes or none. */
  ghost predicate WholeEntries(q: Queue, a: Assembler)
    requires a.Valid()
  {
    forall i: nat :: i < |q.sizes| ==> WholeEntry(q, a, i)
  }

  ghost predicate InEntry(q: Queue, i: nat, p: nat)
    requires i < |q.sizes|
  {
    q.base + Total(q.sizes, i) <= p + 1 < q.base + Total(q.sizes, i + 1)
  }

  ghost predicate WholeEntry(q: Queue, a: Assembler, i: nat)
    requires a.Valid() && i < |q.sizes|
  {
    || (forall p: nat :: InEntry(q, i, p) ==> Got(a, p))
    || (forall p: nat :: InEntry(q, i, p) ==> !Got(a, p))
  }

  /** The number is old, or where a recorded segment begins or ends, or past the FIN. */
  ghost predicate OnMark(q: Queue, abs: nat) {
    || abs <= q.base
    || (q.synAcked && OnBoundary(q.sizes, abs - q.base))
    || (q.finSent && abs == q.next)
    || (!q.synAcked && abs == 1)
  }

  ghost predicate AckFine(s: Sender, r: Receiver, m: AckMsg) {
    && m.ackno == Wrap(m.abs, s.isn)
    && 1 <= m.abs && s.q.base <= m.abs <= r.Expected()
    && m.Edge() <= r.Expected() + r.Window()
    && (s.q.win >= 2 ==> s.q.base + s.q.win <= m.Edge())
    && OnMark(s.q, m.abs)
  }

  /** Acknowledgments are in order, and in order between what the sender knows and what the
      receiver would say now. */
  ghost predicate AcksFine(s: Sender, r: Receiver, acks: seq<AckMsg>) {
    && (!r.synRecv ==> acks == [])
    && (forall i :: 0 <= i < |acks| ==> AckFine(s, r, acks[i]))
    && (forall i, j :: 0 <= i < j < |acks| ==> acks[i].abs <= acks[j].abs && acks[i].Edge() <= acks[j].Edge())
    && s.q.base <= (if r.synRecv then r.Expected() else 0)
    && (s.q.win >= 2 ==> r.synRecv && s.q.base + s.q.win <= r.Expected() + r.Window())
  }

  ghost predicate SystemInv(z: System) {
    && SenderFine(z.snd)
    && NetFine(z.snd, z.net)
    && ReceiverFine(z.snd, z.rcv)
    && Fitting(z.net, z.rcv.asm.Limit())
    && WholeEntries(z.snd.q, z.rcv.asm)
    && AcksFine(z.snd, z.rcv, z.acks)
    && Small(z.snd, z.rcv)
  }

  lemma InitiallyInv(sendCapacity: nat, retxTimeout: uint16, isn: uint32, recvCapacity: nat)
    requires recvCapacity < 0x1_0000
    ensures SystemInv(Initially(sendCapacity, retxTimeout, isn, recvCapacity))
  {
    hide Wrap, Represents;
    R.InitialFaithful(recvCapacity, []);
    DenoteEmpty();
    InitialInv(sendCapacity, retxTimeout, isn);
  }

  /** The calls can always be made. */
  lemma AlwaysReady(z: System)
    requires SystemInv(z)
    ensures Ready(z)
  {
    hide Represents, Size, Disjoint, Wrap, Sum, Sized, Held;
    InvFacts(z.snd);
  }
}
