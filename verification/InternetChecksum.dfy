/** The Internet checksum of RFC 1071. */
module Checksums {
  import opened Machine

  /** The sum of the 16-bit words of `data`; with `odd`, the first byte completes a word. */
  function WordSum(data: seq<byte>, odd: bool): nat {
    if data == [] then 0
    else WordSum(data[..|data| - 1], odd) + Weight(|data| - 1, odd) * data[|data| - 1]
  }

  /** The place value of byte `i`. */
  function Weight(i: nat, odd: bool): nat {
    if (i % 2 == 1) != odd then 1 else 256
  }

  function Word(hi: byte, lo: byte): uint16 {
    var h: int := hi;
    h * 256 + lo
  }

  function ParityAfter(n: nat, odd: bool): bool {
    (n % 2 == 1) != odd
  }

  /** The ones' complement reading of a sum: its residue modulo 65535, with 65535 for all multiples but 0. */
  function Fold(sum: nat): (r: nat)
    ensures r < 0x1_0000
  {
    if sum == 0 then 0 else (sum - 1) % 0xffff + 1
  }

  class InternetChecksum {
    var sum: uint32
    var parity: bool

    constructor (initialSum: uint32)
      ensures sum == initialSum && !parity
    {
      sum, parity := initialSum, false;
    }

    /** Adding bytes adds their words, in the 32-bit arithmetic of the accumulator. */
    method Add(data: seq<byte>)
      modifies this
      ensures sum == (old(sum) + WordSum(data, old(parity))) % TWO32
      ensures parity == ParityAfter(|data|, old(parity))
    {
      hide WordSum;
      var i := 0;
      ghost var total: nat := sum;
      assert data[..0] == [];
      WordSumNone(parity);
      while i < |data|
        invariant i <= |data|
        invariant total == old(sum) + WordSum(data[..i], old(parity)) && sum == total % TWO32
        invariant parity == ParityAfter(i, old(parity))
      {
        var val: nat := data[i];
        if !parity {
          val := val * 256;
        }
        WordSumStep(data, i, old(parity));
        AddModulo(total, val);
        total := total + val;
        sum := (sum + val) % TWO32;
        parity := !parity;
        i := i + 1;
      }
      assert data[..i] == data;
    }

    /** Folding ends, and yields the complement of the folded sum. */
    method Value() returns (v: uint16)
      ensures v == 0xffff - Fold(sum)
    {
      var ret: nat := sum;
      while ret > 0xffff
        invariant Fold(ret) == Fold(sum)
        invariant ret < TWO32
        decreases ret
      {
        FoldStep(ret);
        ret := ret / 0x1_0000 + ret % 0x1_0000;
      }
      v := 0xffff - ret;
    }
  }

  lemma WordSumNone(odd: bool)
    ensures WordSum([], odd) == 0
  {
  }

  lemma WordSumStep(data: seq<byte>, i: nat, odd: bool)
    requires i < |data|
    ensures WordSum(data[..i + 1], odd) == WordSum(data[..i], odd) + Weight(i, odd) * data[i]
  {
    assert data[..i + 1][..i] == data[..i];
  }

  lemma AddModulo(a: nat, b: nat)
    ensures (a % TWO32 + b) % TWO32 == (a + b) % TWO32
  {
  }

  lemma FoldCongruent(a: nat, b: nat)
    requires a > 0 && b > 0 && (a - b) % 0xffff == 0
    ensures Fold(a) == Fold(b)
  {
    assert (a - 1) % 0xffff == (b - 1) % 0xffff;
  }

  lemma FoldStep(ret: nat)
    requires ret > 0xffff
    ensures Fold(ret / 0x1_0000 + ret % 0x1_0000) == Fold(ret)
    ensures 0 < ret / 0x1_0000 + ret % 0x1_0000 < ret
  {
    var hi, lo := ret / 0x1_0000, ret % 0x1_0000;
    assert ret == hi * 0x1_0000 + lo;
    assert ret - (hi + lo) == hi * 0xffff;
    FoldCongruent(ret, hi + lo);
  }

  // -- Laws ----------------------------------------------------------------------------------------------

  lemma WeightShift(m: nat, n: nat, odd: bool)
    ensures Weight(m + n, odd) == Weight(n, ParityAfter(m, odd))
  {
  }

  /** However the data is chunked, the words are the same. */
  lemma {:induction false} WordSumConcat(x: seq<byte>, y: seq<byte>, odd: bool)
    ensures WordSum(x + y, odd) == WordSum(x, odd) + WordSum(y, ParityAfter(|x|, odd))
    decreases |y|
  {
    hide WordSum, Weight;
    WordSumNone(ParityAfter(|x|, odd));
    if y == [] {
      assert x + y == x;
    } else {
      var n, z := |y| - 1, x + y;
      WordSumConcat(x, y[..n], odd);
      WeightShift(|x|, n, odd);
      WordSumStep(z, |x| + n, odd);
      WordSumStep(y, n, ParityAfter(|x|, odd));
      assert z[..|x| + n] == x + y[..n];
      assert z[..|x| + n + 1] == z && y[..n + 1] == y;
    }
  }

  lemma {:induction false} WordSumBound(data: seq<byte>, odd: bool)
    ensures WordSum(data, odd) <= 0xff00 * |data|
  {
    if data != [] {
      WordSumBound(data[..|data| - 1], odd);
    }
  }

  /** A sum and its complement fold to all ones. */
  lemma ComplementFills(sum: nat)
    ensures Fold(sum + (0xffff - Fold(sum))) == 0xffff
  {
    if sum > 0 {
      var t := sum + (0xffff - Fold(sum));
      var q := (sum - 1) / 0xffff;
      assert sum - 1 == q * 0xffff + (sum - 1) % 0xffff;
      assert t == q * 0xffff + 0xffff;
      FoldMultiple(q);
    }
  }

  lemma FoldMultiple(q: nat)
    ensures Fold(q * 0xffff + 0xffff) == 0xffff
  {
    var t := q * 0xffff + 0xffff;
    assert t - 1 == q * 0xffff + 0xfffe;
  }

  /** Changing one aligned 16-bit word of data that verifies goes unnoticed exactly if it is no
      change, or if it swaps 0x0000 and 0xffff (and the sum does not vanish). */
  lemma WordChange(sum: nat, w: uint16, w': uint16)
    requires w <= sum && Fold(sum) == 0xffff
    ensures Fold(sum - w + w') == 0xffff <==>
              w' == w || (w == 0 && w' == 0xffff) || (w == 0xffff && w' == 0 && sum > 0xffff)
  {
    FoldFull(sum);
    FoldFull(sum - w + w');
    var k :| sum == k * 0xffff;
    if Fold(sum - w + w') == 0xffff {
      var j :| sum - w + w' == j * 0xffff;
      assert w' - w == (j - k) * 0xffff;
      assert -1 <= j - k <= 1;
    }
    if w == 0 && w' == 0xffff {
      assert sum - w + w' == (k + 1) * 0xffff;
    }
    if w == 0xffff && w' == 0 && sum > 0xffff {
      assert sum - w + w' == (k - 1) * 0xffff;
    }
  }

  lemma FoldFull(sum: nat)
    ensures Fold(sum) == 0xffff <==> sum > 0 && exists k: int :: sum == k * 0xffff
  {
    if sum > 0 {
      var q := (sum - 1) / 0xffff;
      assert sum - 1 == q * 0xffff + (sum - 1) % 0xffff;
      if Fold(sum) == 0xffff {
        assert sum == (q + 1) * 0xffff;
      }
      if k: int :| sum == k * 0xffff {
        assert k >= 1;
        FoldMultiple(k - 1);
      }
    }
  }

  /** In terms of bytes: word `i` of the data contributes its value to the sum. */
  lemma {:induction false} WordAt(data: seq<byte>, i: nat, hi: byte, lo: byte)
    requires 2 * i + 1 < |data|
    ensures WordSum(data[2 * i := hi][2 * i + 1 := lo], false)
            == WordSum(data, false) - Word(data[2 * i], data[2 * i + 1]) + Word(hi, lo)
    ensures Word(data[2 * i], data[2 * i + 1]) <= WordSum(data, false)
  {
    var x, y := data[..2 * i], data[2 * i + 2..];
    WordSplit(x, data[2 * i], data[2 * i + 1], y);
    WordSplit(x, hi, lo, y);
    assert data == x + [data[2 * i], data[2 * i + 1]] + y;
    assert data[2 * i := hi][2 * i + 1 := lo] == x + [hi, lo] + y;
  }

  lemma WordSplit(x: seq<byte>, hi: byte, lo: byte, y: seq<byte>)
    requires |x| % 2 == 0
    ensures WordSum(x + [hi, lo] + y, false) == WordSum(x, false) + Word(hi, lo) + WordSum(y, false)
  {
    WordSumConcat(x + [hi, lo], y, false);
    WordSumConcat(x, [hi, lo], false);
    WordOf(hi, lo);
  }

  lemma WordOf(hi: byte, lo: byte)
    ensures WordSum([hi, lo], false) == Word(hi, lo)
  {
    assert [hi, lo][..1] == [hi];
    assert [hi][..0] == [];
    assert WordSum([hi], false) == 256 * hi;
  }

  /** Data whose checksum field, at an even place, was zero verifies once the field carries the checksum. */
  lemma CarriedVerifies(initial: nat, x: seq<byte>, y: seq<byte>)
    requires |x| % 2 == 0
    ensures var ck := 0xffff - Fold(initial + WordSum(x + [0, 0] + y, false));
            Fold(initial + WordSum(x + [ck / 256, ck % 256] + y, false)) == 0xffff
  {
    hide WordSum, Fold;
    var sum := initial + WordSum(x + [0, 0] + y, false);
    var ck := 0xffff - Fold(sum);
    WordSplit(x, 0, 0, y);
    WordSplit(x, ck / 256, ck % 256, y);
    ComplementFills(sum);
  }

  /** A change of one aligned word of data that verifies goes unnoticed exactly if it is no change, or
      swaps 0x0000 and 0xffff (and the sum does not vanish). */
  lemma ChangeDetected(initial: nat, data: seq<byte>, i: nat, hi: byte, lo: byte)
    requires 2 * i + 1 < |data| && Fold(initial + WordSum(data, false)) == 0xffff
    ensures var w, w' := Word(data[2 * i], data[2 * i + 1]), Word(hi, lo);
            var data' := data[2 * i := hi][2 * i + 1 := lo];
            Fold(initial + WordSum(data', false)) == 0xffff <==>
              w' == w || (w == 0 && w' == 0xffff) || (w == 0xffff && w' == 0 && initial + WordSum(data, false) > 0xffff)
  {
    WordAt(data, i, hi, lo);
    WordChange(initial + WordSum(data, false), Word(data[2 * i], data[2 * i + 1]), Word(hi, lo));
  }
}
