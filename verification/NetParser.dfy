/** Reading and writing integers in network byte order. */
module NetParsing {
  import opened Machine

  datatype ParseResult =
    | NoError
    | BadChecksum
    | PacketTooShort
    | WrongIPVersion
    | HeaderTooShort
    | TruncatedPacket
    | Unsupported

  function Power256(n: nat): nat {
    if n == 0 then 1 else 256 * Power256(n - 1)
  }

  /** The number that bytes spell, most significant first. */
  function ValueOf(bytes: seq<byte>): nat {
    if bytes == [] then 0 else ValueOf(bytes[..|bytes| - 1]) * 256 + bytes[|bytes| - 1]
  }

  /** The `n` bytes that spell `v`. */
  function Encode(v: nat, n: nat): (bytes: seq<byte>)
    ensures |bytes| == n
  {
    if n == 0 then [] else Encode(v / 256, n - 1) + [v % 256]
  }

  /** What is encoded can be read back. */
  lemma {:induction false} DecodeEncode(v: nat, n: nat)
    requires v < Power256(n)
    ensures ValueOf(Encode(v, n)) == v
  {
    if n > 0 {
      DecodeEncode(v / 256, n - 1);
      assert Encode(v, n)[..n - 1] == Encode(v / 256, n - 1);
    }
  }

  /** What is read fits, and encodes to the bytes read. */
  lemma {:induction false} EncodeDecode(bytes: seq<byte>)
    ensures ValueOf(bytes) < Power256(|bytes|)
    ensures Encode(ValueOf(bytes), |bytes|) == bytes
  {
    if bytes != [] {
      EncodeDecode(bytes[..|bytes| - 1]);
      assert bytes == bytes[..|bytes| - 1] + [bytes[|bytes| - 1]];
    }
  }

  lemma Encode2(v: uint16)
    ensures Encode(v, 2) == [v / 256, v % 256]
  {
    assert Encode(v / 256, 1) == Encode(v / 256 / 256, 0) + [v / 256 % 256];
  }

  /** The value of a parser: what is left to read, and the error that sticks. */
  datatype Cursor = Cursor(buf: seq<byte>, err: ParseResult) {
    function Checked(n: nat): Cursor {
      if n > |buf| then this.(err := PacketTooShort) else this
    }

    /** Once there is an error, nothing is read any more. */
    function Int(n: nat): (nat, Cursor) {
      if Checked(n).err != NoError then (0, Checked(n)) else (ValueOf(buf[..n]), this.(buf := buf[n..]))
    }

    function Skip(n: nat): Cursor {
      if Checked(n).err != NoError then Checked(n) else this.(buf := buf[n..])
    }
  }

  /** Reading an encoded number leaves the rest. */
  lemma ReadEncoded(v: nat, n: nat, rest: seq<byte>)
    requires v < Power256(n)
    ensures Cursor(Encode(v, n) + rest, NoError).Int(n) == (v, Cursor(rest, NoError))
  {
    DecodeEncode(v, n);
    assert (Encode(v, n) + rest)[..n] == Encode(v, n);
    assert (Encode(v, n) + rest)[n..] == rest;
  }

  lemma Powers()
    ensures Power256(1) == 0x100 && Power256(2) == 0x1_0000 && Power256(4) == 0x1_0000_0000
  {
    assert Power256(3) == 0x100_0000;
  }

  class NetParser {
    var buffer: seq<byte>
    var error: ParseResult

    ghost function View(): Cursor
      reads this
    {
      Cursor(buffer, error)
    }

    constructor (buffer: seq<byte>)
      ensures View() == Cursor(buffer, NoError)
    {
      this.buffer, error := buffer, NoError;
    }

    method CheckSize(size: nat)
      modifies this`error
      ensures View() == old(View()).Checked(size)
    {
      if size > |buffer| {
        error := PacketTooShort;
      }
    }

    method ParseInt(len: nat) returns (ret: nat)
      modifies this
      ensures (ret, View()) == old(View()).Int(len)
    {
      CheckSize(len);
      if error != NoError {
        return 0;
      }
      ret := 0;
      assert buffer[..0] == [];
      for i := 0 to len
        invariant ret == ValueOf(buffer[..i])
      {
        assert buffer[..i + 1][..i] == buffer[..i];
        ret := ret * 256;
        ret := ret + buffer[i];
      }
      buffer := buffer[len..];
    }

    method U32() returns (v: uint32)
      modifies this
      ensures (v, View()) == old(View()).Int(4)
    {
      Fits(View(), 4);
      v := ParseInt(4);
    }

    method U16() returns (v: uint16)
      modifies this
      ensures (v, View()) == old(View()).Int(2)
    {
      Fits(View(), 2);
      v := ParseInt(2);
    }

    method U8() returns (v: byte)
      modifies this
      ensures (v, View()) == old(View()).Int(1)
    {
      Fits(View(), 1);
      v := ParseInt(1);
    }

    method RemovePrefix(n: nat)
      modifies this
      ensures View() == old(View()).Skip(n)
    {
      CheckSize(n);
      if error != NoError {
        return;
      }
      buffer := buffer[n..];
    }
  }

  lemma Fits(c: Cursor, n: nat)
    ensures c.Int(n).0 < Power256(n)
    ensures Power256(1) == 0x100 && Power256(2) == 0x1_0000 && Power256(4) == 0x1_0000_0000
  {
    Powers();
    PowerPositive(n);
    if n <= |c.buf| {
      EncodeDecode(c.buf[..n]);
    }
  }

  lemma {:induction false} PowerPositive(n: nat)
    ensures Power256(n) > 0
  {
    if n > 0 {
      PowerPositive(n - 1);
    }
  }

  /** The program's shift-and-mask loop appends exactly the encoding. */
  method UnparseInt(s: seq<byte>, val: nat, len: nat) returns (r: seq<byte>)
    ensures r == s + Encode(val, len)
  {
    r := s;
    for i := 0 to len
      invariant r == s + Encode(val, len)[..i]
    {
      ByteOf(val, len, i);
      var theByte := val / Power256(len - i - 1) % 256;
      r := r + [theByte];
    }
    assert Encode(val, len)[..len] == Encode(val, len);
  }

  lemma {:induction false} ByteOf(v: nat, n: nat, i: nat)
    requires i < n
    ensures Power256(n - i - 1) > 0
    ensures Encode(v, n)[i] == v / Power256(n - i - 1) % 256
  {
    PowerPositive(n - i - 1);
    if i < n - 1 {
      ByteOf(v / 256, n - 1, i);
      DivideTwice(v, Power256(n - i - 2));
    }
  }

  lemma DivideTwice(v: nat, p: nat)
    requires p > 0
    ensures v / 256 / p == v / (256 * p)
  {
    var q, r := v / 256, v % 256;
    var a, b := q / p, q % p;
    assert v == (a * p + b) * 256 + r;
    assert v == a * (256 * p) + (b * 256 + r);
    assert b * 256 + r < 256 * p;
    QuotientUnique(v, 256 * p, a, b * 256 + r);
  }

  lemma QuotientUnique(v: nat, d: nat, a: nat, r: nat)
    requires d > 0 && v == a * d + r && r < d
    ensures v / d == a
  {
    var q := v / d;
    assert v == q * d + v % d;
    assert (q - a) * d == r - v % d;
    SmallMultiple(q - a, d);
  }

  lemma SmallMultiple(k: int, d: int)
    requires -d < k * d < d
    ensures k == 0
  {
    assert k >= 1 ==> k * d >= d;
    assert k <= -1 ==> k * d <= -d;
  }

  lemma Regroup(x: seq<byte>, y: seq<byte>, z: seq<byte>)
    ensures x + y + z == x + (y + z)
  {
  }

  lemma Nest(a: seq<byte>, b: seq<byte>, c: seq<byte>, d: seq<byte>, e: seq<byte>, f: seq<byte>, g: seq<byte>, rest: seq<byte>)
    ensures a + b + c + d + e + f + g + rest == a + (b + (c + (d + (e + (f + (g + rest))))))
  {
    Regroup(a + b + c + d + e + f, g, rest);
    Regroup(a + b + c + d + e, f, g + rest);
    Regroup(a + b + c + d, e, f + (g + rest));
    Regroup(a + b + c, d, e + (f + (g + rest)));
    Regroup(a + b, c, d + (e + (f + (g + rest))));
    Regroup(a, b, c + (d + (e + (f + (g + rest)))));
  }
}
