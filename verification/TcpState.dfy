/** The state of a connection as section 3.2 of RFC 793 names it, read off the counters. */
module TcpStates {
  import opened Machine
  import opened WrappingIntegers
  import opened TcpReceivers
  import opened TcpSenders
  import opened SenderRuns

  datatype SenderSummary = SenderError | Closed | SynSent | SynAcked | FinSent | FinAcked
  datatype ReceiverSummary = ReceiverError | Listen | SynRecv | FinRecv

  datatype TcpState = TcpState(sender: SenderSummary, receiver: ReceiverSummary, active: bool, linger: bool)

  datatype Official =
    | LISTEN | SYN_RCVD | SYN_SENT | ESTABLISHED | CLOSE_WAIT | LAST_ACK
    | FIN_WAIT_1 | FIN_WAIT_2 | CLOSING | TIME_WAIT | CLOSED | RESET

  function OfficialState(o: Official): TcpState {
    match o
    case LISTEN => TcpState(Closed, Listen, true, true)
    case SYN_RCVD => TcpState(SynSent, SynRecv, true, true)
    case SYN_SENT => TcpState(SynSent, Listen, true, true)
    case ESTABLISHED => TcpState(SynAcked, SynRecv, true, true)
    case CLOSE_WAIT => TcpState(SynAcked, FinRecv, true, false)
    case LAST_ACK => TcpState(FinSent, FinRecv, true, false)
    case CLOSING => TcpState(FinSent, FinRecv, true, true)
    case FIN_WAIT_1 => TcpState(FinSent, SynRecv, true, true)
    case FIN_WAIT_2 => TcpState(FinAcked, SynRecv, true, true)
    case TIME_WAIT => TcpState(FinAcked, FinRecv, true, true)
    case RESET => TcpState(SenderError, ReceiverError, false, false)
    case CLOSED => TcpState(FinAcked, FinRecv, false, false)
  }

  function SummarizeSender(s: Sender, error: bool): SenderSummary {
    if error then SenderError
    else if s.q.next == 0 then Closed
    else if s.q.next == s.q.next - s.q.base then SynSent
    else if !s.out.Eof() then SynAcked
    else if s.q.next < |s.out.written| + 2 then SynAcked
    else if s.q.next - s.q.base > 0 then FinSent
    else FinAcked
  }

  function SummarizeReceiver(r: Receiver, error: bool): ReceiverSummary {
    if error then ReceiverError
    else if !r.synRecv then Listen
    else if r.asm.out.ended then FinRecv
    else SynRecv
  }

  function Summarize(s: Sender, sError: bool, r: Receiver, rError: bool, active: bool, linger: bool): TcpState {
    TcpState(SummarizeSender(s, sError), SummarizeReceiver(r, rError), active, active && linger)
  }

  /** The counters tell what the flags say, in every state of a sender without error. A FIN sent
      before the SYN is acknowledged does not show. */
  lemma SummaryAgrees(s: Sender)
    requires Inv(s)
    ensures var summary := SummarizeSender(s, false);
            && (summary == Closed <==> !s.q.synSent)
            && (summary == SynSent <==> s.q.synSent && !s.q.synAcked)
            && (summary == SynAcked <==> s.q.synAcked && !s.q.finSent)
            && (summary == FinSent <==> s.q.synAcked && s.q.finSent && !s.q.finAcked)
            && (summary == FinAcked <==> s.q.finAcked)
  {
  }

  /** Without the accounting it does not: after an acknowledgment of SYN and FIN at once, the counters say
      that the FIN is in flight and the flags that it is acknowledged. */
  lemma SummaryFails(isn: uint32)
    ensures Breaks(FinAhead(isn), Wrap(2, isn), 10, BothAcked(isn))
    ensures SummarizeSender(BothAcked(isn), false) == FinSent && BothAcked(isn).q.finAcked
  {
    hide Wrap, Breaks;
    BothAckedExample(isn);
  }

  /** No two official names stand for the same summary. */
  lemma OfficialDistinct(a: Official, b: Official)
    ensures OfficialState(a) == OfficialState(b) <==> a == b
  {
  }
}
