/** 32-bit sequence numbers and their 64-bit absolute counterparts. */
module WrappingIntegers {
  import opened Machine

  /** Modular addition of two 32-bit numbers. */
  function Plus(a: uint32, b: uint32): uint32 {
    (a + b) % TWO32
  }

  /** The signed 32-bit reading of the modular difference `a - b`. */
  function Distance(a: uint32, b: uint32): (d: int)
    ensures -TWO31 <= d < TWO31
    ensures (b + d) % TWO32 == a
  {
    var raw := (a - b) % TWO32;
    if raw < TWO31 then raw else raw - TWO32
  }

  function Wrap(n: nat, isn: uint32): uint32 {
    Plus(isn, n % TWO32)
  }

  /** The 64-bit pattern of `x` read as a signed number. */
  function AsInt64(x: uint64): int {
    if x < TWO63 then x else x - TWO64
  }

  /** The signed subtraction in `Unwrap` does not overflow. */
  predicate SignedSafe(n: uint32, isn: uint32, checkpoint: uint64) {
    -TWO63 <= AsInt64(checkpoint) - Distance(Wrap(checkpoint, isn), n) < TWO63
  }

  /** Where the subtraction overflows the program's result is undefined, and nothing is claimed of this one. */
  function Unwrap(n: uint32, isn: uint32, checkpoint: uint64): uint64 {
    var dis := Distance(Wrap(checkpoint, isn), n);
    var rst := AsInt64(checkpoint) - dis;
    (if rst < 0 then rst + TWO32 else rst) % TWO64
  }

  /** The absolute numbers that survive a trip over the wire for a checkpoint below 2^63. */
  predicate Reachable(v: nat, checkpoint: nat) {
    checkpoint - TWO31 < v <= checkpoint + TWO31 || checkpoint + TWO31 < v < TWO32
  }

  lemma WrapSum(n: nat, isn: uint32)
    ensures Wrap(n, isn) == (isn + n) % TWO32
  {
  }

  lemma ShiftByMultiple(x: int, y: int, k: int)
    requires x == y + k * TWO32
    ensures x % TWO32 == y % TWO32
  {
  }

  lemma Quotients(x: int, y: int) returns (k: int)
    requires x % TWO32 == y % TWO32
    ensures x == y + k * TWO32
  {
    k := x / TWO32 - y / TWO32;
  }

  /** Below 2^63 no signed overflow is involved: the distance is simply taken off the checkpoint. */
  lemma UnwrapValue(n: uint32, isn: uint32, checkpoint: uint64)
    requires checkpoint + TWO31 < TWO63
    ensures var r := checkpoint - Distance(Wrap(checkpoint, isn), n);
            Unwrap(n, isn, checkpoint) == if r < 0 then r + TWO32 else r
  {
  }

  /** The result wraps back to `n` and lies among the reachable numbers. */
  lemma UnwrapInverts(n: uint32, isn: uint32, checkpoint: uint64)
    requires checkpoint + TWO31 < TWO63
    ensures Wrap(Unwrap(n, isn, checkpoint), isn) == n
    ensures Reachable(Unwrap(n, isn, checkpoint), checkpoint)
  {
    hide Wrap, Unwrap, Distance;
    var r := Unwrap(n, isn, checkpoint);
    var dis := Distance(Wrap(checkpoint, isn), n);
    UnwrapValue(n, isn, checkpoint);
    WrapSum(r, isn);
    var k := Residue(n, isn, checkpoint);
    if checkpoint - dis < 0 {
      ShiftByMultiple(isn + r, n, k + 1);
    } else {
      ShiftByMultiple(isn + r, n, k);
    }
  }

  lemma Residue(n: uint32, isn: uint32, checkpoint: uint64) returns (k: int)
    ensures isn + checkpoint - Distance(Wrap(checkpoint, isn), n) == n + k * TWO32
  {
    var dis := Distance(Wrap(checkpoint, isn), n);
    WrapSum(checkpoint, isn);
    k := Quotients(isn + checkpoint, n + dis);
  }

  /** Two numbers share a wire form exactly when they differ by a multiple of 2^32. */
  lemma WrapInjective(v: nat, w: nat, isn: uint32)
    ensures Wrap(v, isn) == Wrap(w, isn) <==> exists k: int :: v == w + k * TWO32
  {
    WrapSum(v, isn);
    WrapSum(w, isn);
    if Wrap(v, isn) == Wrap(w, isn) {
      var k := Quotients(isn + v, isn + w);
      assert v == w + k * TWO32;
    }
    if k: int :| v == w + k * TWO32 {
      ShiftByMultiple(isn + v, isn + w, k);
    }
  }

  /** A round trip is exact precisely for the reachable numbers. */
  lemma UnwrapExact(v: nat, isn: uint32, checkpoint: uint64)
    requires checkpoint + TWO31 < TWO63
    ensures Unwrap(Wrap(v, isn), isn, checkpoint) == v <==> Reachable(v, checkpoint)
  {
    hide Wrap, Unwrap;
    var r := Unwrap(Wrap(v, isn), isn, checkpoint);
    UnwrapInverts(Wrap(v, isn), isn, checkpoint);
    WrapInjective(v, r, isn);
    var k: int :| v == r + k * TWO32;
  }

  function Abs(x: int): nat {
    if x < 0 then -x else x
  }

  /** Of all absolute numbers that wrap to `n`, `Unwrap` picks the nearest one; a tie goes upward. */
  lemma UnwrapNearest(n: uint32, isn: uint32, checkpoint: uint64, m: nat)
    requires checkpoint + TWO31 < TWO63
    requires Wrap(m, isn) == n
    ensures Abs(Unwrap(n, isn, checkpoint) - checkpoint) <= Abs(m - checkpoint)
    ensures Abs(Unwrap(n, isn, checkpoint) - checkpoint) == Abs(m - checkpoint) ==> m <= Unwrap(n, isn, checkpoint)
  {
    hide Wrap, Unwrap;
    var r := Unwrap(n, isn, checkpoint);
    UnwrapInverts(n, isn, checkpoint);
    WrapInjective(m, r, isn);
    var k: int :| m == r + k * TWO32;
    assert k == 0 || k >= 1 || k <= -1;
  }

  /** From 2^63 on the signed cast makes every result that fits 64 bits 2^32 too large: the number at
      the signed distance from the checkpoint is returned exactly if the checkpoint is below 2^63
      and that number is not negative. */
  lemma UnwrapCheckpoint(n: uint32, isn: uint32, checkpoint: uint64)
    requires SignedSafe(n, isn, checkpoint)
    ensures var near := checkpoint - Distance(Wrap(checkpoint, isn), n);
            && (Unwrap(n, isn, checkpoint) == near <==> checkpoint < TWO63 && near >= 0)
            && (checkpoint >= TWO63 ==>
                  Unwrap(n, isn, checkpoint) == if near < TWO64 then (near + TWO32) % TWO64 else near - TWO64)
    ensures var w := Wrap(checkpoint, isn);
            SignedSafe(w, isn, checkpoint) && (Unwrap(w, isn, checkpoint) == checkpoint <==> checkpoint < TWO63)
  {
    hide Wrap, Distance;
    NoDistance(Wrap(checkpoint, isn));
  }

  lemma NoDistance(w: uint32)
    ensures Distance(w, w) == 0
  {
  }
}
