/** IPv4 headers and datagrams as bytes: section 3.1 of RFC 791. */
module IPv4Wire {
  import opened Machine
  import opened TcpSegments
  import opened Checksums
  import opened NetParsing
  import opened TcpWire

  const IP_LENGTH: nat := 20

  datatype IpHeader = IpHeader(
    ver: byte,
    hlen: byte,
    tos: byte,
    len: uint16,
    id: uint16,
    df: bool,
    mf: bool,
    offset: uint16,
    ttl: byte,
    proto: byte,
    cksum: uint16,
    src: uint32,
    dst: uint32)
  {
    /** In 16 bits, like the field it is compared with. */
    function PayloadLength(): uint16 {
      (len - 4 * hlen) % 0x1_0000
    }

    /** What the pseudo-header of the TCP checksum adds up to. */
    function PseudoCksum(): uint32 {
      src / 0x1_0000 + src % 0x1_0000 + dst / 0x1_0000 + dst % 0x1_0000 + proto + PayloadLength()
    }
  }

  // -- The header ----------------------------------------------------------------------------------------

  function FirstByte(h: IpHeader): byte {
    var ver: int := h.ver;
    ver * 16 % 256 + h.hlen % 16
  }

  function FragmentWord(h: IpHeader): uint16 {
    FlagBit(h.df, 0x4000) + FlagBit(h.mf, 0x2000) + h.offset % 0x2000
  }

  function IpStart(h: IpHeader): (bytes: seq<byte>)
    ensures |bytes| == 10
  {
    Encode(FirstByte(h), 1) + Encode(h.tos, 1) + Encode(h.len, 2) + Encode(h.id, 2)
    + Encode(FragmentWord(h), 2) + Encode(h.ttl, 1) + Encode(h.proto, 1)
  }

  function IpEnd(h: IpHeader): (bytes: seq<byte>)
    requires h.hlen >= 5
    ensures |bytes| == 4 * h.hlen - 12
  {
    Encode(h.src, 4) + (Encode(h.dst, 4) + Zeros(4 * h.hlen - IP_LENGTH))
  }

  function IpBytes(h: IpHeader): (bytes: seq<byte>)
    requires h.hlen >= 5
    ensures |bytes| == 4 * h.hlen
  {
    IpStart(h) + Encode(h.cksum, 2) + IpEnd(h)
  }

  datatype IpSerialized = IpOk(bytes: seq<byte>) | WrongVersion | HeaderShort | WrongSize

  method SerializeIp(h: IpHeader) returns (r: IpSerialized)
    ensures r == if h.ver != 4 then WrongVersion else if h.hlen < 5 then HeaderShort else IpOk(IpBytes(h))
  {
    hide Encode;
    if h.ver != 4 {
      return WrongVersion;
    }
    if 4 * h.hlen as int < IP_LENGTH {
      return HeaderShort;
    }
    var ret: seq<byte> := [];
    ret := UnparseInt(ret, FirstByte(h), 1);
    ret := UnparseInt(ret, h.tos, 1);
    ret := UnparseInt(ret, h.len, 2);
    ret := UnparseInt(ret, h.id, 2);
    ret := UnparseInt(ret, FragmentWord(h), 2);
    ret := UnparseInt(ret, h.ttl, 1);
    ret := UnparseInt(ret, h.proto, 1);
    assert ret == IpStart(h);
    ret := UnparseInt(ret, h.cksum, 2);
    ret := UnparseInt(ret, h.src, 4);
    ret := UnparseInt(ret, h.dst, 4);
    ret := ret + Zeros(4 * h.hlen - |ret|);
    r := IpOk(ret);
  }

  /** The twenty bytes that every header has. */
  function FixedPart(c: Cursor): (IpHeader, Cursor) {
    var (first, c1) := c.Int(1);
    var (tos, c2) := c1.Int(1);
    var (len, c3) := c2.Int(2);
    var (id, c4) := c3.Int(2);
    var (fo, c5) := c4.Int(2);
    var (ttl, c6) := c5.Int(1);
    var (proto, c7) := c6.Int(1);
    var (cksum, c8) := c7.Int(2);
    var (src, c9) := c8.Int(4);
    var (dst, c10) := c9.Int(4);
    Fits(c, 1); Fits(c1, 1); Fits(c2, 2); Fits(c3, 2); Fits(c4, 2); Fits(c5, 1); Fits(c6, 1); Fits(c7, 2); Fits(c8, 4); Fits(c9, 4);
    (IpHeader(first / 16, first % 16, tos, len, id, BitSet(fo, 0x4000), BitSet(fo, 0x2000), fo % 0x2000,
              ttl, proto, cksum, src, dst), c10)
  }

  /** The checks on a header, in their order. */
  function IpAt(before: IpHeader, c: Cursor): (IpHeader, Cursor, ParseResult) {
    if |c.buf| < IP_LENGTH then (before, c, PacketTooShort)
    else
      var (h, c1) := FixedPart(c);
      if |c.buf| < 4 * h.hlen then (h, c1, PacketTooShort)
      else if h.ver != 4 then (h, c1, WrongIPVersion)
      else if h.hlen < 5 then (h, c1, HeaderTooShort)
      else if |c.buf| != h.len then (h, c1, TruncatedPacket)
      else
        var c2 := c1.Skip(4 * h.hlen - IP_LENGTH);
        if c2.err != NoError then (h, c2, c2.err)
        else if Fold(CheckedSum(0, c.buf[..4 * h.hlen])) != 0xffff then (h, c2, BadChecksum)
        else (h, c2, NoError)
  }

  method ParseFixed(p: NetParser) returns (h: IpHeader)
    modifies p
    ensures (h, p.View()) == FixedPart(old(p.View()))
  {
    hide ValueOf, Cursor.Int, Power256;
    var first := p.U8();
    var tos := p.U8();
    var len := p.U16();
    var id := p.U16();
    var fo := p.U16();
    var ttl := p.U8();
    var proto := p.U8();
    var cksum := p.U16();
    var src := p.U32();
    var dst := p.U32();
    h := IpHeader(first / 16, first % 16, tos, len, id, BitSet(fo, 0x4000), BitSet(fo, 0x2000), fo % 0x2000,
                  ttl, proto, cksum, src, dst);
  }

  method ParseIp(before: IpHeader, p: NetParser) returns (h: IpHeader, r: ParseResult)
    modifies p
    ensures (h, p.View(), r) == IpAt(before, old(p.View()))
  {
    hide FixedPart, WordSum, Fold, Power256, ValueOf, Cursor.Int, Cursor.Skip;
    var original := p.buffer;
    var dataSize := |original|;
    if dataSize < IP_LENGTH {
      return before, PacketTooShort;
    }
    h := ParseFixed(p);
    var hlen: int := h.hlen;
    if dataSize < 4 * hlen {
      return h, PacketTooShort;
    }
    if h.ver != 4 {
      return h, WrongIPVersion;
    }
    if h.hlen < 5 {
      return h, HeaderTooShort;
    }
    if dataSize != h.len {
      return h, TruncatedPacket;
    }
    p.RemovePrefix(4 * hlen - IP_LENGTH);
    if p.error != NoError {
      return h, p.error;
    }
    var check := new InternetChecksum(0);
    check.Add(original[..4 * hlen]);
    var v := check.Value();
    r := if v != 0 then BadChecksum else NoError;
  }

  lemma FragmentReadBack(h: IpHeader)
    requires h.offset < 0x2000
    ensures var w := FragmentWord(h);
            BitSet(w, 0x4000) == h.df && BitSet(w, 0x2000) == h.mf && w % 0x2000 == h.offset
  {
  }

  /** The headers that the format can express. */
  predicate Expressible(h: IpHeader) {
    h.ver == 4 && 5 <= h.hlen < 16 && h.offset < 0x2000
  }

  lemma IpNested(h: IpHeader, rest: seq<byte>)
    requires h.hlen >= 5
    ensures IpBytes(h) + rest
            == IpStart(h) + (Encode(h.cksum, 2) + (Encode(h.src, 4) + (Encode(h.dst, 4) + (Zeros(4 * h.hlen - IP_LENGTH) + rest))))
  {
    hide Encode, IpStart;
    var pad := Zeros(4 * h.hlen - IP_LENGTH);
    Regroup(IpStart(h) + Encode(h.cksum, 2), IpEnd(h), rest);
    Regroup(IpStart(h), Encode(h.cksum, 2), IpEnd(h) + rest);
    Regroup(Encode(h.src, 4), Encode(h.dst, 4) + pad, rest);
    Regroup(Encode(h.dst, 4), pad, rest);
  }

  /** The bytes of a header, one field after the other. */
  lemma IpUnrolled(h: IpHeader, rest: seq<byte>)
    requires h.hlen >= 5
    ensures IpBytes(h) + rest ==
            Encode(FirstByte(h), 1) + (Encode(h.tos, 1) + (Encode(h.len, 2) + (Encode(h.id, 2) + (Encode(FragmentWord(h), 2)
            + (Encode(h.ttl, 1) + (Encode(h.proto, 1) + (Encode(h.cksum, 2) + (Encode(h.src, 4) + (Encode(h.dst, 4)
            + (Zeros(4 * h.hlen - IP_LENGTH) + rest))))))))))
  {
    hide Encode, IpBytes, IpEnd;
    IpNested(h, rest);
    Nest(Encode(FirstByte(h), 1), Encode(h.tos, 1), Encode(h.len, 2), Encode(h.id, 2), Encode(FragmentWord(h), 2),
         Encode(h.ttl, 1), Encode(h.proto, 1),
         Encode(h.cksum, 2) + (Encode(h.src, 4) + (Encode(h.dst, 4) + (Zeros(4 * h.hlen - IP_LENGTH) + rest))));
  }

  lemma FixedRoundTrip(h: IpHeader, rest: seq<byte>)
    requires Expressible(h)
    ensures FixedPart(Cursor(IpBytes(h) + rest, NoError)) == (h, Cursor(Zeros(4 * h.hlen - IP_LENGTH) + rest, NoError))
  {
    hide Encode, ValueOf, Power256, IpBytes, IpStart, IpEnd, FirstByte, FragmentWord, BitSet, Zeros;
    var t10 := Zeros(4 * h.hlen - IP_LENGTH) + rest;
    var t9 := Encode(h.dst, 4) + t10;
    var t8 := Encode(h.src, 4) + t9;
    var t7 := Encode(h.cksum, 2) + t8;
    var t6 := Encode(h.proto, 1) + t7;
    var t5 := Encode(h.ttl, 1) + t6;
    var t4 := Encode(FragmentWord(h), 2) + t5;
    var t3 := Encode(h.id, 2) + t4;
    var t2 := Encode(h.len, 2) + t3;
    var t1 := Encode(h.tos, 1) + t2;
    IpUnrolled(h, rest);
    Powers();
    ReadEncoded(FirstByte(h), 1, t1);
    ReadEncoded(h.tos, 1, t2);
    ReadEncoded(h.len, 2, t3);
    ReadEncoded(h.id, 2, t4);
    ReadEncoded(FragmentWord(h), 2, t5);
    ReadEncoded(h.ttl, 1, t6);
    ReadEncoded(h.proto, 1, t7);
    ReadEncoded(h.cksum, 2, t8);
    ReadEncoded(h.src, 4, t9);
    ReadEncoded(h.dst, 4, t10);
    FragmentReadBack(h);
    FirstReadBack(h);
  }

  lemma FirstReadBack(h: IpHeader)
    requires h.ver == 4 && h.hlen < 16
    ensures FirstByte(h) / 16 == 4 && FirstByte(h) % 16 == h.hlen
  {
  }

  // -- The datagram -------------------------------------------------------------------------------------

  function IpChecksumOf(h: IpHeader): uint16
    requires h.hlen >= 5
  {
    0xffff - Fold(CheckedSum(0, IpBytes(h.(cksum := 0))))
  }

  function WithIpChecksum(h: IpHeader): IpHeader
    requires h.hlen >= 5
  {
    h.(cksum := IpChecksumOf(h))
  }

  function DatagramBytes(h: IpHeader, payload: seq<byte>): seq<byte>
    requires h.hlen >= 5
  {
    IpBytes(WithIpChecksum(h)) + payload
  }

  method SerializeDatagram(h: IpHeader, payload: seq<byte>) returns (r: IpSerialized)
    ensures r == if |payload| != h.PayloadLength() then WrongSize
                 else if h.ver != 4 then WrongVersion
                 else if h.hlen < 5 then HeaderShort
                 else IpOk(DatagramBytes(h, payload))
  {
    hide WordSum, Fold, IpBytes;
    if |payload| != h.PayloadLength() {
      return WrongSize;
    }
    var headerOut := h.(cksum := 0);
    r := SerializeIp(headerOut);
    if !r.IpOk? {
      return;
    }
    var check := new InternetChecksum(0);
    check.Add(r.bytes);
    var cksum := check.Value();
    headerOut := headerOut.(cksum := cksum);
    r := SerializeIp(headerOut);
    r := IpOk(r.bytes + payload);
  }

  /** Parsing a datagram reads the header without looking at the verdict on it; only the size of what
      follows is compared with what the header says. */
  function DatagramOf(before: IpHeader, buffer: seq<byte>): (IpHeader, seq<byte>, ParseResult) {
    var (h, c, _) := IpAt(before, Cursor(buffer, NoError));
    (h, c.buf, if |c.buf| != h.PayloadLength() then PacketTooShort else c.err)
  }

  method ParseDatagram(before: IpHeader, buffer: seq<byte>) returns (h: IpHeader, payload: seq<byte>, r: ParseResult)
    ensures (h, payload, r) == DatagramOf(before, buffer)
  {
    hide IpAt;
    var p := new NetParser(buffer);
    var verdict;
    h, verdict := ParseIp(before, p);
    payload := p.buffer;
    if |payload| != h.PayloadLength() {
      return h, payload, PacketTooShort;
    }
    r := p.error;
  }

  lemma IpCarriedSum(h: IpHeader)
    requires 5 <= h.hlen < 16
    ensures Fold(CheckedSum(0, IpBytes(WithIpChecksum(h)))) == 0xffff
  {
    hide WordSum, Encode, Fold, IpStart, IpEnd;
    var ck := IpChecksumOf(h);
    SameAround(h, 0);
    SameAround(h, ck);
    Encode2(0);
    Encode2(ck);
    WordSumBound(IpBytes(h.(cksum := 0)), false);
    WordSumBound(IpBytes(h.(cksum := ck)), false);
    CarriedVerifies(0, IpStart(h), IpEnd(h));
  }

  lemma SameAround(h: IpHeader, ck: uint16)
    requires h.hlen >= 5
    ensures IpStart(h.(cksum := ck)) == IpStart(h) && IpEnd(h.(cksum := ck)) == IpEnd(h)
  {
  }

  /** An expressible header with the right total length passes every check once it carries its checksum. */
  lemma IpRoundTrip(before: IpHeader, h: IpHeader, payload: seq<byte>)
    requires Expressible(h) && 4 * h.hlen as int + |payload| == h.len
    ensures IpAt(before, Cursor(DatagramBytes(h, payload), NoError)) == (WithIpChecksum(h), Cursor(payload, NoError), NoError)
  {
    hide WordSum, Encode, Fold, FixedPart, IpBytes;
    var h' := WithIpChecksum(h);
    var pad := Zeros(4 * h.hlen - IP_LENGTH);
    var bytes := DatagramBytes(h, payload);
    FixedRoundTrip(h', payload);
    assert (pad + payload)[|pad|..] == payload;
    assert bytes[..4 * h.hlen] == IpBytes(h');
    IpCarriedSum(h);
  }

  /** A TCP segment put into a datagram, sent as bytes and taken out again: no error at either layer, the
      same payload, the same headers but for the checksums filled in. */
  lemma WireRoundTrip(beforeIp: IpHeader, beforeTcp: Segment, ip: IpHeader, seg: Segment)
    requires Expressible(ip) && 5 <= seg.header.doff < 16
    requires 4 * ip.hlen as int + 4 * seg.header.doff as int + |seg.payload| == ip.len
    ensures var tcpBytes := SegmentBytes(seg, ip.PseudoCksum());
            && DatagramOf(beforeIp, DatagramBytes(ip, tcpBytes)) == (WithIpChecksum(ip), tcpBytes, NoError)
            && WithIpChecksum(ip).PseudoCksum() == ip.PseudoCksum()
            && SegmentOf(beforeTcp, tcpBytes, ip.PseudoCksum()) == (WithChecksum(seg, ip.PseudoCksum()), NoError)
  {
    hide WordSum, Encode, Fold, IpAt, HeaderAt, HeaderBytes, IpBytes, SegmentOf;
    var tcpBytes := SegmentBytes(seg, ip.PseudoCksum());
    IpRoundTrip(beforeIp, ip, tcpBytes);
    SegmentRoundTrip(beforeTcp, seg, ip.PseudoCksum());
  }

  /** The verdict on the header being ignored, a header checksum is never the reason to refuse a
      datagram: version, header length and total length being right, any checksum passes. */
  lemma IpChecksumIgnored(before: IpHeader, h: IpHeader, payload: seq<byte>)
    requires Expressible(h) && 4 * h.hlen as int + |payload| == h.len
    ensures DatagramOf(before, IpBytes(h) + payload) == (h, payload, NoError)
    ensures IpAt(before, Cursor(IpBytes(h) + payload, NoError)).2 == BadChecksum
            <==> Fold(CheckedSum(0, IpBytes(h))) != 0xffff
  {
    hide WordSum, Encode, Fold, FixedPart, IpBytes;
    var pad := Zeros(4 * h.hlen - IP_LENGTH);
    FixedRoundTrip(h, payload);
    assert (pad + payload)[|pad|..] == payload;
    assert (IpBytes(h) + payload)[..4 * h.hlen] == IpBytes(h);
  }
}
