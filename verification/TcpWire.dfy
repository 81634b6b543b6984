/** TCP headers and segments as bytes: section 3.1 of RFC 793. */
module TcpWire {
  import opened Machine
  import opened TcpSegments
  import opened Checksums
  import opened NetParsing

  const TCP_LENGTH: nat := 20

  function Zeros(n: nat): (z: seq<byte>)
    ensures |z| == n
  {
    seq(n, _ => 0)
  }

  // -- The header -------------------------------------------------------------------------------------

  function FlagBit(b: bool, weight: nat): nat {
    if b then weight else 0
  }

  function FlagByte(h: Header): byte {
    FlagBit(h.urg, 32) + FlagBit(h.ack, 16) + FlagBit(h.psh, 8) + FlagBit(h.rst, 4) + FlagBit(h.syn, 2) + FlagBit(h.fin, 1)
  }

  /** The data offset takes the upper half of its byte; what does not fit is lost. */
  function OffsetByte(h: Header): byte {
    var doff: int := h.doff;
    doff * 16 % 256
  }

  /** Everything before the checksum. */
  function HeaderStart(h: Header): (bytes: seq<byte>)
    ensures |bytes| == 16
  {
    Encode(h.sport, 2) + Encode(h.dport, 2) + Encode(h.seqno, 4) + Encode(h.ackno, 4)
    + Encode(OffsetByte(h), 1) + Encode(FlagByte(h), 1) + Encode(h.win, 2)
  }

  function HeaderBytes(h: Header): (bytes: seq<byte>)
    requires h.doff >= 5
    ensures |bytes| == 4 * h.doff
  {
    HeaderStart(h) + Encode(h.cksum, 2) + (Encode(h.uptr, 2) + Zeros(4 * h.doff - TCP_LENGTH))
  }

  datatype Serialized = Bytes(bytes: seq<byte>) | TooShort

  /** Serialize the header; a data offset below the minimum is refused. */
  method SerializeHeader(h: Header) returns (r: Serialized)
    ensures r == if h.doff < 5 then TooShort else Bytes(HeaderBytes(h))
  {
    hide Encode;
    if h.doff < 5 {
      return TooShort;
    }
    var ret: seq<byte> := [];
    ret := UnparseInt(ret, h.sport, 2);
    ret := UnparseInt(ret, h.dport, 2);
    ret := UnparseInt(ret, h.seqno, 4);
    ret := UnparseInt(ret, h.ackno, 4);
    ret := UnparseInt(ret, OffsetByte(h), 1);
    ret := UnparseInt(ret, FlagByte(h), 1);
    ret := UnparseInt(ret, h.win, 2);
    assert ret == HeaderStart(h);
    ret := UnparseInt(ret, h.cksum, 2);
    ret := UnparseInt(ret, h.uptr, 2);
    ret := ret + Zeros(4 * h.doff - |ret|);
    r := Bytes(ret);
  }

  predicate BitSet(b: nat, weight: nat)
    requires weight > 0
  {
    b / weight % 2 == 1
  }

  /** The twenty bytes that every header has. */
  function FieldsAt(c: Cursor): (Header, Cursor) {
    var (sport, c1) := c.Int(2);
    var (dport, c2) := c1.Int(2);
    var (seqno, c3) := c2.Int(4);
    var (ackno, c4) := c3.Int(4);
    var (offset, c5) := c4.Int(1);
    var (flags, c6) := c5.Int(1);
    var (win, c7) := c6.Int(2);
    var (cksum, c8) := c7.Int(2);
    var (uptr, c9) := c8.Int(2);
    Fits(c, 2); Fits(c1, 2); Fits(c2, 4); Fits(c3, 4); Fits(c4, 1); Fits(c5, 1); Fits(c6, 2); Fits(c7, 2); Fits(c8, 2);
    (Header(sport, dport, seqno, ackno, offset / 16,
            BitSet(flags, 32), BitSet(flags, 16), BitSet(flags, 8), BitSet(flags, 4), BitSet(flags, 2), BitSet(flags, 1),
            win, cksum, uptr), c9)
  }

  /** The header found at the cursor, the cursor behind it, and the verdict on it. */
  function HeaderAt(c: Cursor): (Header, Cursor, ParseResult) {
    var (h, c1) := FieldsAt(c);
    if h.doff < 5 then (h, c1, HeaderTooShort)
    else (h, c1.Skip(4 * h.doff - TCP_LENGTH), c1.Skip(4 * h.doff - TCP_LENGTH).err)
  }

  method ParseFields(p: NetParser) returns (h: Header)
    modifies p
    ensures (h, p.View()) == FieldsAt(old(p.View()))
  {
    hide ValueOf, Cursor.Int, Power256;
    var sport := p.U16();
    var dport := p.U16();
    var seqno := p.U32();
    var ackno := p.U32();
    var offset := p.U8();
    var flags := p.U8();
    var win := p.U16();
    var cksum := p.U16();
    var uptr := p.U16();
    h := Header(sport, dport, seqno, ackno, offset / 16,
                BitSet(flags, 32), BitSet(flags, 16), BitSet(flags, 8), BitSet(flags, 4), BitSet(flags, 2), BitSet(flags, 1),
                win, cksum, uptr);
  }

  method ParseHeader(p: NetParser) returns (h: Header, r: ParseResult)
    modifies p
    ensures (h, p.View(), r) == HeaderAt(old(p.View()))
  {
    hide FieldsAt, Cursor.Skip;
    h := ParseFields(p);
    if h.doff < 5 {
      return h, HeaderTooShort;
    }
    p.RemovePrefix(4 * h.doff - TCP_LENGTH);
    r := p.error;
  }

  lemma FlagsReadBack(h: Header)
    ensures var b := FlagByte(h);
            && BitSet(b, 32) == h.urg && BitSet(b, 16) == h.ack && BitSet(b, 8) == h.psh
            && BitSet(b, 4) == h.rst && BitSet(b, 2) == h.syn && BitSet(b, 1) == h.fin
  {
  }

  lemma OffsetReadBack(h: Header)
    ensures OffsetByte(h) / 16 == h.doff % 16
  {
    var doff: int := h.doff;
    var q, r := doff / 16, doff % 16;
    assert doff * 16 == q * 256 + r * 16;
    assert doff * 16 % 256 == r * 16;
  }

  lemma HeaderNested(h: Header, rest: seq<byte>)
    requires h.doff >= 5
    ensures HeaderBytes(h) + rest
            == HeaderStart(h) + (Encode(h.cksum, 2) + (Encode(h.uptr, 2) + (Zeros(4 * h.doff - TCP_LENGTH) + rest)))
  {
    hide Encode, HeaderStart;
    var pad := Zeros(4 * h.doff - TCP_LENGTH);
    Regroup(HeaderStart(h) + Encode(h.cksum, 2), Encode(h.uptr, 2) + pad, rest);
    Regroup(HeaderStart(h), Encode(h.cksum, 2), Encode(h.uptr, 2) + pad + rest);
    Regroup(Encode(h.uptr, 2), pad, rest);
  }

  /** The bytes of a header, one field after the other. */
  lemma HeaderUnrolled(h: Header, rest: seq<byte>)
    requires h.doff >= 5
    ensures HeaderBytes(h) + rest ==
            Encode(h.sport, 2) + (Encode(h.dport, 2) + (Encode(h.seqno, 4) + (Encode(h.ackno, 4) + (Encode(OffsetByte(h), 1)
            + (Encode(FlagByte(h), 1) + (Encode(h.win, 2) + (Encode(h.cksum, 2) + (Encode(h.uptr, 2)
            + (Zeros(4 * h.doff - TCP_LENGTH) + rest)))))))))
  {
    hide Encode, HeaderBytes;
    HeaderNested(h, rest);
    Nest(Encode(h.sport, 2), Encode(h.dport, 2), Encode(h.seqno, 4), Encode(h.ackno, 4), Encode(OffsetByte(h), 1),
         Encode(FlagByte(h), 1), Encode(h.win, 2),
         Encode(h.cksum, 2) + (Encode(h.uptr, 2) + (Zeros(4 * h.doff - TCP_LENGTH) + rest)));
  }

  /** Every header that can be serialized is read back, with the data offset modulo 16. */
  lemma FieldsRead(h: Header, rest: seq<byte>)
    requires h.doff >= 5
    ensures FieldsAt(Cursor(HeaderBytes(h) + rest, NoError))
            == (h.(doff := h.doff % 16), Cursor(Zeros(4 * h.doff - TCP_LENGTH) + rest, NoError))
  {
    hide Encode, ValueOf, Power256, HeaderBytes, HeaderStart, FlagByte, OffsetByte, BitSet, Zeros;
    var t9 := Zeros(4 * h.doff - TCP_LENGTH) + rest;
    var t8 := Encode(h.uptr, 2) + t9;
    var t7 := Encode(h.cksum, 2) + t8;
    var t6 := Encode(h.win, 2) + t7;
    var t5 := Encode(FlagByte(h), 1) + t6;
    var t4 := Encode(OffsetByte(h), 1) + t5;
    var t3 := Encode(h.ackno, 4) + t4;
    var t2 := Encode(h.seqno, 4) + t3;
    var t1 := Encode(h.dport, 2) + t2;
    HeaderUnrolled(h, rest);
    Powers();
    ReadEncoded(h.sport, 2, t1);
    ReadEncoded(h.dport, 2, t2);
    ReadEncoded(h.seqno, 4, t3);
    ReadEncoded(h.ackno, 4, t4);
    ReadEncoded(OffsetByte(h), 1, t5);
    ReadEncoded(FlagByte(h), 1, t6);
    ReadEncoded(h.win, 2, t7);
    ReadEncoded(h.cksum, 2, t8);
    ReadEncoded(h.uptr, 2, t9);
    FlagsReadBack(h);
    OffsetReadBack(h);
  }

  /** A header survives the trip exactly if its data offset fits the four bits it has. */
  lemma HeaderRoundTrip(h: Header, rest: seq<byte>)
    requires h.doff >= 5
    ensures HeaderAt(Cursor(HeaderBytes(h) + rest, NoError)) == (h, Cursor(rest, NoError), NoError) <==> h.doff < 16
  {
    hide FieldsAt, HeaderBytes, Zeros, Cursor.Skip;
    FieldsRead(h, rest);
    SkipZeros(4 * h.doff - TCP_LENGTH, rest);
  }

  lemma SkipZeros(n: nat, rest: seq<byte>)
    ensures Cursor(Zeros(n) + rest, NoError).Skip(n) == Cursor(rest, NoError)
  {
    assert (Zeros(n) + rest)[n..] == rest;
  }

  // -- The segment ---------------------------------------------------------------------------------------

  /** The sum that is checked: the lower layer's contribution and the words, in 32 bits. */
  function CheckedSum(pseudo: uint32, bytes: seq<byte>): uint32 {
    (pseudo + WordSum(bytes, false)) % TWO32
  }

  function Unchecked(seg: Segment): seq<byte>
    requires seg.header.doff >= 5
  {
    HeaderBytes(seg.header.(cksum := 0)) + seg.payload
  }

  function ChecksumOf(seg: Segment, pseudo: uint32): uint16
    requires seg.header.doff >= 5
  {
    0xffff - Fold(CheckedSum(pseudo, Unchecked(seg)))
  }

  function WithChecksum(seg: Segment, pseudo: uint32): Segment
    requires seg.header.doff >= 5
  {
    seg.(header := seg.header.(cksum := ChecksumOf(seg, pseudo)))
  }

  function SegmentBytes(seg: Segment, pseudo: uint32): seq<byte>
    requires seg.header.doff >= 5
  {
    HeaderBytes(WithChecksum(seg, pseudo).header) + seg.payload
  }

  method SerializeSegment(seg: Segment, pseudo: uint32) returns (r: Serialized)
    ensures r == if seg.header.doff < 5 then TooShort else Bytes(SegmentBytes(seg, pseudo))
  {
    hide WordSum, HeaderBytes, Fold;
    var headerOut := seg.header.(cksum := 0);
    var h := SerializeHeader(headerOut);
    if h.TooShort? {
      return TooShort;
    }
    var check := new InternetChecksum(pseudo);
    check.Add(h.bytes);
    check.Add(seg.payload);
    SumInChunks(pseudo, h.bytes, seg.payload);
    var cksum := check.Value();
    headerOut := headerOut.(cksum := cksum);
    h := SerializeHeader(headerOut);
    r := Bytes(h.bytes + seg.payload);
  }

  /** Adding in two chunks, the first of even length, gives the sum of the whole. */
  lemma SumInChunks(pseudo: uint32, x: seq<byte>, y: seq<byte>)
    requires |x| % 2 == 0
    ensures !ParityAfter(|x|, false)
    ensures ((pseudo + WordSum(x, false)) % TWO32 + WordSum(y, false)) % TWO32 == CheckedSum(pseudo, x + y)
  {
    hide WordSum;
    WordSumConcat(x, y, false);
    AddModulo(pseudo + WordSum(x, false), WordSum(y, false));
  }

  /** Parsing: a bad checksum leaves the segment as it was; otherwise header and payload are read, and
      the verdict is the parser's own -- that of the header is not looked at. */
  function SegmentOf(before: Segment, buffer: seq<byte>, pseudo: uint32): (Segment, ParseResult) {
    if Fold(CheckedSum(pseudo, buffer)) != 0xffff then (before, BadChecksum)
    else
      var (h, c, _) := HeaderAt(Cursor(buffer, NoError));
      (Segment(h, c.buf), c.err)
  }

  method ParseSegment(before: Segment, buffer: seq<byte>, pseudo: uint32) returns (seg: Segment, r: ParseResult)
    ensures (seg, r) == SegmentOf(before, buffer, pseudo)
  {
    hide WordSum, HeaderAt, Fold;
    var check := new InternetChecksum(pseudo);
    check.Add(buffer);
    var v := check.Value();
    if v != 0 {
      return before, BadChecksum;
    }
    var p := new NetParser(buffer);
    var h, verdict := ParseHeader(p);
    seg := Segment(h, p.buffer);
    r := p.error;
  }

  lemma CarriedSum(seg: Segment, pseudo: uint32)
    requires seg.header.doff >= 5
    requires pseudo + 0xff00 * (4 * seg.header.doff + |seg.payload|) + 0xffff < TWO32
    ensures Fold(CheckedSum(pseudo, SegmentBytes(seg, pseudo))) == 0xffff
  {
    hide WordSum, Encode, Fold, HeaderBytes, HeaderStart;
    var ck := ChecksumOf(seg, pseudo);
    var x, y := HeaderStart(seg.header), AfterChecksum(seg);
    AroundChecksum(seg, 0);
    AroundChecksum(seg, ck);
    Encode2(0);
    Encode2(ck);
    WordSumBound(Unchecked(seg), false);
    WordSumBound(SegmentBytes(seg, pseudo), false);
    CarriedVerifies(pseudo, x, y);
  }

  function AfterChecksum(seg: Segment): seq<byte>
    requires seg.header.doff >= 5
  {
    Encode(seg.header.uptr, 2) + Zeros(4 * seg.header.doff - TCP_LENGTH) + seg.payload
  }

  lemma AroundChecksum(seg: Segment, ck: uint16)
    requires seg.header.doff >= 5
    ensures HeaderBytes(seg.header.(cksum := ck)) + seg.payload == HeaderStart(seg.header) + Encode(ck, 2) + AfterChecksum(seg)
  {
    hide Encode;
    assert HeaderStart(seg.header.(cksum := ck)) == HeaderStart(seg.header);
  }

  /** A segment whose header fits its offset field, serialized and parsed with the same contribution of
      the lower layer, comes back without error, the same but for the checksum filled in. */
  lemma SegmentRoundTrip(before: Segment, seg: Segment, pseudo: uint32)
    requires 5 <= seg.header.doff < 16
    requires pseudo + 0xff00 * (4 * seg.header.doff + |seg.payload|) + 0xffff < TWO32
    ensures SegmentOf(before, SegmentBytes(seg, pseudo), pseudo) == (WithChecksum(seg, pseudo), NoError)
  {
    hide WordSum, Encode, Fold, HeaderAt, HeaderBytes;
    CarriedSum(seg, pseudo);
    HeaderRoundTrip(WithChecksum(seg, pseudo).header, seg.payload);
  }

  /** A damaged word is noticed: if the bytes verify and one aligned word is changed, parsing reports a
      bad checksum -- exactly unless the change swaps 0x0000 and 0xffff, with something left to sum. */
  lemma DamageNoticed(before: Segment, buffer: seq<byte>, pseudo: uint32, i: nat, hi: byte, lo: byte)
    requires 2 * i + 1 < |buffer| && pseudo + 0xff00 * |buffer| < TWO32
    requires SegmentOf(before, buffer, pseudo).1 != BadChecksum
    ensures var w, w' := Word(buffer[2 * i], buffer[2 * i + 1]), Word(hi, lo);
            SegmentOf(before, buffer[2 * i := hi][2 * i + 1 := lo], pseudo) == (before, BadChecksum) <==>
              w != w' && !(w == 0 && w' == 0xffff) && !(w == 0xffff && w' == 0 && pseudo + WordSum(buffer, false) > 0xffff)
  {
    hide WordSum, HeaderAt, Fold;
    var damaged := buffer[2 * i := hi][2 * i + 1 := lo];
    ParserNeverBadChecksum(buffer);
    ParserNeverBadChecksum(damaged);
    WordSumBound(buffer, false);
    WordSumBound(damaged, false);
    ChangeDetected(pseudo, buffer, i, hi, lo);
  }

  lemma ParserNeverBadChecksum(buffer: seq<byte>)
    ensures HeaderAt(Cursor(buffer, NoError)).1.err != BadChecksum
  {
    hide ValueOf;
  }
}
