/** The wire formats byte by byte, as section 3.1 of RFC 793 and section 3.1 of RFC 791 draw them, and the
    verdicts of the parsers in terms of the bytes. */
module WireFormat {
  import opened Machine
  import opened TcpSegments
  import opened Checksums
  import opened NetParsing
  import opened TcpWire
  import opened IPv4Wire

  // -- Numbers in the bytes -----------------------------------------------------------------------------------

  function U16At(b: seq<byte>, i: nat): nat
    requires i + 2 <= |b|
  {
    0x100 * b[i] as int + b[i + 1]
  }

  function U32At(b: seq<byte>, i: nat): nat
    requires i + 4 <= |b|
  {
    0x100_0000 * b[i] as int + 0x1_0000 * b[i + 1] as int + 0x100 * b[i + 2] as int + b[i + 3]
  }

  lemma Spell1(b: seq<byte>, i: nat)
    requires i + 1 <= |b|
    ensures ValueOf(b[i..][..1]) == b[i]
  {
    var x := b[i..][..1];
    assert x[..0] == [];
  }

  lemma Spell2(b: seq<byte>, i: nat)
    requires i + 2 <= |b|
    ensures ValueOf(b[i..][..2]) == U16At(b, i)
  {
    var x := b[i..][..2];
    assert x[..1] == b[i..][..1];
    Spell1(b, i);
  }

  lemma Spell4(b: seq<byte>, i: nat)
    requires i + 4 <= |b|
    ensures ValueOf(b[i..][..4]) == U32At(b, i)
  {
    var x := b[i..][..4];
    var y := x[..3];
    assert y == b[i..][..3] && y[..2] == b[i..][..2];
    Spell2(b, i);
    assert ValueOf(y) == ValueOf(y[..2]) * 256 + y[2];
    assert ValueOf(x) == ValueOf(y) * 256 + x[3];
  }

  /** Reading a number that is there moves on behind it. */
  lemma Reads1(b: seq<byte>, i: nat)
    requires i + 1 <= |b|
    ensures Cursor(b[i..], NoError).Int(1) == (b[i] as nat, Cursor(b[i + 1..], NoError))
  {
    hide ValueOf;
    Spell1(b, i);
    assert b[i..][1..] == b[i + 1..];
  }

  lemma Reads2(b: seq<byte>, i: nat)
    requires i + 2 <= |b|
    ensures Cursor(b[i..], NoError).Int(2) == (U16At(b, i), Cursor(b[i + 2..], NoError))
  {
    hide ValueOf;
    Spell2(b, i);
    assert b[i..][2..] == b[i + 2..];
  }

  lemma Reads4(b: seq<byte>, i: nat)
    requires i + 4 <= |b|
    ensures Cursor(b[i..], NoError).Int(4) == (U32At(b, i), Cursor(b[i + 4..], NoError))
  {
    hide ValueOf;
    Spell4(b, i);
    assert b[i..][4..] == b[i + 4..];
  }

  // -- The TCP header ----------------------------------------------------------------------------------------------

  predicate Bit(b: byte, i: nat)
    requires i < 8
  {
    var x: int := b;
    match i
    case 0 => x % 2 == 1
    case 1 => x / 2 % 2 == 1
    case 2 => x / 4 % 2 == 1
    case 3 => x / 8 % 2 == 1
    case 4 => x / 16 % 2 == 1
    case 5 => x / 32 % 2 == 1
    case 6 => x / 64 % 2 == 1
    case 7 => x / 128 % 2 == 1
  }

  /** Parsing takes each field of a TCP header from its place. */
  lemma TcpFieldsAt(b: seq<byte>)
    requires |b| >= 20
    ensures var h := FieldsAt(Cursor(b, NoError)).0;
            && h.sport == U16At(b, 0) && h.dport == U16At(b, 2)
            && h.seqno == U32At(b, 4) && h.ackno == U32At(b, 8)
            && h.doff == b[12] / 16
            && h.urg == Bit(b[13], 5) && h.ack == Bit(b[13], 4) && h.psh == Bit(b[13], 3)
            && h.rst == Bit(b[13], 2) && h.syn == Bit(b[13], 1) && h.fin == Bit(b[13], 0)
            && h.win == U16At(b, 14) && h.cksum == U16At(b, 16) && h.uptr == U16At(b, 18)
    ensures FieldsAt(Cursor(b, NoError)).1 == Cursor(b[20..], NoError)
  {
    hide ValueOf, Cursor.Int, Power256, U16At, U32At;
    assert b[0..] == b;
    Reads2(b, 0);
    Reads2(b, 2);
    Reads4(b, 4);
    Reads4(b, 8);
    Reads1(b, 12);
    Reads1(b, 13);
    Reads2(b, 14);
    Reads2(b, 16);
    Reads2(b, 18);
  }

  /** Serializing puts each field of a TCP header in its place, and zeros behind. */
  lemma TcpFieldsPut(h: Header)
    requires 5 <= h.doff < 16
    ensures var b := HeaderBytes(h);
            && |b| == 4 * h.doff as int
            && h.sport == U16At(b, 0) && h.dport == U16At(b, 2)
            && h.seqno == U32At(b, 4) && h.ackno == U32At(b, 8)
            && h.doff == b[12] / 16
            && h.urg == Bit(b[13], 5) && h.ack == Bit(b[13], 4) && h.psh == Bit(b[13], 3)
            && h.rst == Bit(b[13], 2) && h.syn == Bit(b[13], 1) && h.fin == Bit(b[13], 0)
            && h.win == U16At(b, 14) && h.cksum == U16At(b, 16) && h.uptr == U16At(b, 18)
            && forall i :: 20 <= i < |b| ==> b[i] == 0
  {
    hide ValueOf, Cursor.Int, HeaderBytes, FieldsAt, U16At, U32At, Bit;
    var b := HeaderBytes(h);
    FieldsRead(h, []);
    assert b + [] == b;
    TcpFieldsAt(b);
    assert b[20..] == Zeros(4 * h.doff - TCP_LENGTH) + [];
    forall i | 20 <= i < |b|
      ensures b[i] == 0
    {
      assert b[i] == b[20..][i - 20];
    }
  }

  /** In a header that is cut off, fields that are not there read as 0, and an error stays. */
  lemma TcpFieldsShort(b: seq<byte>)
    requires |b| < 20
    ensures FieldsAt(Cursor(b, NoError)).1.err == PacketTooShort
    ensures FieldsAt(Cursor(b, NoError)).0.doff == if |b| < 13 then 0 else b[12] / 16
  {
    hide ValueOf, Power256, U16At, U32At;
    if |b| >= 13 {
      TcpOffsetThere(b);
    } else {
      assert b[0..] == b;
    }
  }

  lemma TcpOffsetThere(b: seq<byte>)
    requires 13 <= |b| < 20
    ensures FieldsAt(Cursor(b, NoError)).1.err == PacketTooShort
    ensures FieldsAt(Cursor(b, NoError)).0.doff == b[12] / 16
  {
    hide ValueOf, Power256, U16At, U32At, Cursor.Int;
    assert b[0..] == b;
    Reads2(b, 0);
    Reads2(b, 2);
    Reads4(b, 4);
    Reads4(b, 8);
    Reads1(b, 12);
    TcpRestShort(Cursor(b[13..], NoError));
  }

  /** Less than the seven bytes that the last fields take. */
  lemma TcpRestShort(c: Cursor)
    requires c.err == NoError && |c.buf| < 7
    ensures c.Int(1).1.Int(2).1.Int(2).1.Int(2).1.err == PacketTooShort
  {
    hide ValueOf;
  }

  /** The verdict on a TCP header. */
  lemma TcpVerdict(b: seq<byte>)
    ensures var r := HeaderAt(Cursor(b, NoError)).2;
            && (r == HeaderTooShort <==> |b| < 13 || b[12] / 16 < 5)
            && (r == PacketTooShort <==> |b| >= 13 && b[12] / 16 >= 5 && |b| < 4 * (b[12] / 16))
            && (r == NoError <==> |b| >= 13 && b[12] / 16 >= 5 && |b| >= 4 * (b[12] / 16))
  {
    hide FieldsAt, U16At, U32At;
    if |b| < 20 {
      TcpFieldsShort(b);
    } else {
      TcpFieldsAt(b);
    }
  }

  /** The verdict on a segment: that of the checksum; then only whether bytes were missing, whatever the header
      says of itself. */
  lemma SegmentVerdict(before: Segment, b: seq<byte>, pseudo: uint32)
    ensures var (seg, r) := SegmentOf(before, b, pseudo);
            && (r == BadChecksum <==> Fold(CheckedSum(pseudo, b)) != 0xffff)
            && (r == PacketTooShort <==>
                  Fold(CheckedSum(pseudo, b)) == 0xffff && (|b| < 20 || (b[12] / 16 >= 5 && |b| < 4 * (b[12] / 16))))
            && (r == NoError <==>
                  Fold(CheckedSum(pseudo, b)) == 0xffff && |b| >= 20 && (b[12] / 16 >= 5 ==> |b| >= 4 * (b[12] / 16)))
            && (r == NoError ==> seg.payload == b[if b[12] / 16 < 5 then 20 else 4 * (b[12] / 16)..])
            && (r == BadChecksum ==> seg == before)
  {
    hide FieldsAt, U16At, U32At, CheckedSum, Fold;
    if |b| < 20 {
      TcpFieldsShort(b);
    } else {
      TcpFieldsAt(b);
      var n: int := 4 * (b[12] / 16);
      if 20 <= n <= |b| {
        assert b[20..][n - 20..] == b[n..];
      }
    }
  }

  // -- The IPv4 header -------------------------------------------------------------------------------------------------

  /** Parsing takes each field of an IPv4 header from its place. */
  lemma IpFieldsAt(b: seq<byte>)
    requires |b| >= 20
    ensures var h := FixedPart(Cursor(b, NoError)).0;
            && h.ver == b[0] / 16 && h.hlen == b[0] % 16 && h.tos == b[1]
            && h.len == U16At(b, 2) && h.id == U16At(b, 4)
            && h.df == Bit(b[6], 6) && h.mf == Bit(b[6], 5) && h.offset == U16At(b, 6) % 0x2000
            && h.ttl == b[8] && h.proto == b[9] && h.cksum == U16At(b, 10)
            && h.src == U32At(b, 12) && h.dst == U32At(b, 16)
    ensures FixedPart(Cursor(b, NoError)).1 == Cursor(b[20..], NoError)
  {
    hide ValueOf, Cursor.Int, Power256, U32At;
    assert b[0..] == b;
    Reads1(b, 0);
    Reads1(b, 1);
    Reads2(b, 2);
    Reads2(b, 4);
    Reads2(b, 6);
    Reads1(b, 8);
    Reads1(b, 9);
    Reads2(b, 10);
    Reads4(b, 12);
    Reads4(b, 16);
    FragmentBits(b[6], b[7]);
  }

  lemma FragmentBits(hi: byte, lo: byte)
    ensures var w := 0x100 * hi as int + lo;
            BitSet(w, 0x4000) == Bit(hi, 6) && BitSet(w, 0x2000) == Bit(hi, 5)
  {
  }

  /** Serializing puts each field of an IPv4 header in its place, and zeros behind. */
  lemma IpFieldsPut(h: IpHeader)
    requires Expressible(h)
    ensures var b := IpBytes(h);
            && |b| == 4 * h.hlen as int
            && b[0] == 64 + h.hlen && h.tos == b[1]
            && h.len == U16At(b, 2) && h.id == U16At(b, 4)
            && h.df == Bit(b[6], 6) && h.mf == Bit(b[6], 5) && h.offset == U16At(b, 6) % 0x2000
            && h.ttl == b[8] && h.proto == b[9] && h.cksum == U16At(b, 10)
            && h.src == U32At(b, 12) && h.dst == U32At(b, 16)
            && forall i :: 20 <= i < |b| ==> b[i] == 0
  {
    hide ValueOf, Cursor.Int, IpBytes, FixedPart, U16At, U32At, Bit;
    var b := IpBytes(h);
    FixedRoundTrip(h, []);
    assert b + [] == b;
    IpFieldsAt(b);
    assert b[20..] == Zeros(4 * h.hlen - IP_LENGTH) + [];
    forall i | 20 <= i < |b|
      ensures b[i] == 0
    {
      assert b[i] == b[20..][i - 20];
    }
  }

  /** The verdict on an IPv4 header: the checks in their order. */
  lemma IpVerdict(before: IpHeader, b: seq<byte>)
    ensures var r := IpAt(before, Cursor(b, NoError)).2;
            if |b| < 20 || |b| < 4 * (b[0] % 16) then r == PacketTooShort
            else if b[0] / 16 != 4 then r == WrongIPVersion
            else if b[0] % 16 < 5 then r == HeaderTooShort
            else if |b| != U16At(b, 2) then r == TruncatedPacket
            else if Fold(WordSum(b[..4 * (b[0] % 16)], false)) != 0xffff then r == BadChecksum
            else r == NoError
  {
    hide FixedPart, U16At, WordSum, Fold;
    if |b| >= 20 {
      IpFieldsAt(b);
      var n: int := 4 * (b[0] % 16);
      if n <= |b| {
        WordSumBound(b[..n], false);
      }
    }
  }

  /** A datagram is accepted exactly if its header is well-formed with the right total length -- or, as the
      verdict on the header is not looked at, if what follows the first twenty bytes happens to be as long as
      the header's length fields say; for fewer than twenty bytes, as those of the header parsed before say. */
  lemma DatagramAccepted(before: IpHeader, b: seq<byte>)
    ensures DatagramOf(before, b).2 == NoError <==>
              if |b| < 20 then |b| == before.PayloadLength()
              else
                || RightLength(b)
                || |b| - 20 == (U16At(b, 2) - 4 * (b[0] % 16)) % 0x1_0000
  {
    hide FixedPart, U16At, WordSum, Fold, IpAt;
    if |b| < 20 {
      IpRestShort(before, b);
    } else {
      IpRest(before, b);
    }
  }

  /** The header is well-formed and the total length right. */
  predicate RightLength(b: seq<byte>)
    requires |b| >= 20
  {
    b[0] / 16 == 4 && 5 <= b[0] % 16 && 4 * (b[0] % 16) <= |b| == U16At(b, 2)
  }

  /** What is left as payload: what follows the header if that is right, else what follows twenty bytes. */
  lemma IpRest(before: IpHeader, b: seq<byte>)
    requires |b| >= 20
    ensures var (h, c, _) := IpAt(before, Cursor(b, NoError));
            && h.len == U16At(b, 2) && h.hlen == b[0] % 16
            && c.err == NoError
            && |c.buf| == |b| - (if RightLength(b) then 4 * (b[0] % 16) else 20)
  {
    hide FixedPart, U16At, WordSum, Fold;
    IpFieldsAt(b);
  }

  lemma IpRestShort(before: IpHeader, b: seq<byte>)
    requires |b| < 20
    ensures IpAt(before, Cursor(b, NoError)).0 == before && IpAt(before, Cursor(b, NoError)).1 == Cursor(b, NoError)
  {
  }

  /** For instance: a header of the wrong version. */
  lemma WrongVersionAccepted(before: IpHeader, b: seq<byte>)
    requires |b| == 20 && b[0] == 0x65 && b[2] == 0 && b[3] == 20
    ensures IpAt(before, Cursor(b, NoError)).2 == WrongIPVersion && DatagramOf(before, b).2 == NoError
  {
    hide FixedPart, WordSum, Fold;
    IpVerdict(before, b);
    DatagramAccepted(before, b);
  }

  /** The pseudo-header of the TCP checksum: both addresses, a zero, the protocol, the length. */
  function PseudoHeader(h: IpHeader): seq<byte> {
    Encode(h.src, 4) + Encode(h.dst, 4) + [0, h.proto] + Encode(h.PayloadLength(), 2)
  }

  lemma Encode4(v: uint32)
    ensures Encode(v, 4) == [v / 0x100_0000, v / 0x1_0000 % 0x100, v / 0x100 % 0x100, v % 0x100]
  {
    assert Encode(v, 4) == Encode(v / 256, 3) + [v % 256];
    assert Encode(v / 256, 3) == Encode(v / 256 / 256, 2) + [v / 256 % 256];
    Encode2(v / 0x1_0000);
    assert v / 256 / 256 == v / 0x1_0000;
  }

  /** What it adds to the checksum is the sum of its words. */
  lemma PseudoSum(h: IpHeader)
    ensures h.PseudoCksum() == WordSum(PseudoHeader(h), false)
  {
    hide WordSum, Encode;
    Encode4(h.src);
    Encode4(h.dst);
    Encode2(h.PayloadLength());
    FourSum(h.src);
    FourSum(h.dst);
    WordOf(0, h.proto);
    WordOf(h.PayloadLength() / 256, h.PayloadLength() % 256);
    var a, b, c, d := Encode(h.src, 4), Encode(h.dst, 4), [0, h.proto], Encode(h.PayloadLength(), 2);
    WordSumConcat(a + b + c, d, false);
    WordSumConcat(a + b, c, false);
    WordSumConcat(a, b, false);
  }

  lemma FourSum(v: uint32)
    ensures WordSum(Encode(v, 4), false) == v / 0x1_0000 + v % 0x1_0000
  {
    hide WordSum, Encode, Word;
    Encode4(v);
    var x, y := [v / 0x100_0000, v / 0x1_0000 % 0x100], [v / 0x100 % 0x100, v % 0x100];
    assert Encode(v, 4) == x + y;
    WordSumConcat(x, y, false);
    WordOf(x[0], x[1]);
    WordOf(y[0], y[1]);
    Halves(v);
  }

  lemma Halves(v: uint32)
    ensures Word(v / 0x100_0000, v / 0x1_0000 % 0x100) == v / 0x1_0000
    ensures Word(v / 0x100 % 0x100, v % 0x100) == v % 0x1_0000
  {
    var hi, lo: int := v / 0x1_0000, v % 0x1_0000;
    assert hi / 0x100 == v / 0x100_0000 && lo / 0x100 == v / 0x100 % 0x100 && lo % 0x100 == v % 0x100;
  }
}
