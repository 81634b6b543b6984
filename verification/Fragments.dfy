/** Ordered maps of byte strings, and the byte map that such a map denotes. */
module Fragments {
  import opened Machine

  /** Start index of a stored string -> its bytes. */
  type Fragments = map<nat, seq<byte>>

  ghost predicate Covers(m: Fragments, k: nat, p: nat) {
    k in m && k <= p < k + |m[k]|
  }

  /** Strings are non-empty and pairwise disjoint. */
  ghost predicate Disjoint(m: Fragments) {
    && (forall k :: k in m ==> m[k] != [])
    && (forall k, j :: k in m && j in m && k < j ==> k + |m[k]| <= j)
  }

  /** The number of bytes in a byte map. */
  ghost function Size(r: map<nat, byte>): nat {
    |r.Keys|
  }

  // -- Intervals and placed strings ------------------------------------------

  ghost predicate IsInterval(s: set<nat>, a: nat, n: nat) {
    (forall p: nat :: p in s <==> a <= p < a + n) && |s| == n
  }

  lemma {:induction false} IntervalExists(a: nat, n: nat)
    ensures exists s :: IsInterval(s, a, n)
  {
    if n == 0 {
      assert IsInterval({}, a, 0);
    } else {
      IntervalExists(a, n - 1);
      var s: set<nat> :| IsInterval(s, a, n - 1);
      assert IsInterval(s + {a + n - 1}, a, n);
    }
  }

  /** The indices `a, a + 1, ..., a + n - 1`. */
  ghost function Interval(a: nat, n: nat): (s: set<nat>)
    ensures IsInterval(s, a, n)
  {
    IntervalExists(a, n);
    var s :| IsInterval(s, a, n);
    s
  }

  ghost predicate IsPlaced(r: map<nat, byte>, a: nat, d: seq<byte>) {
    && (forall p: nat :: p in r <==> a <= p < a + |d|)
    && (forall p :: p in r ==> r[p] == d[p - a])
    && Size(r) == |d|
  }

  lemma PlacedExists(a: nat, d: seq<byte>)
    ensures exists r :: IsPlaced(r, a, d)
  {
    var r := map p | p in Interval(a, |d|) :: d[p - a];
    assert r.Keys == Interval(a, |d|);
    assert IsPlaced(r, a, d);
  }

  /** The bytes of `d`, placed from index `a` on. */
  ghost function Placed(a: nat, d: seq<byte>): (r: map<nat, byte>)
    ensures IsPlaced(r, a, d)
  {
    PlacedExists(a, d);
    var r :| IsPlaced(r, a, d);
    r
  }

  // -- Denotation -------------------------------------------------------------

  /** `r` holds exactly the bytes of the strings in `m`, each at its own index. */
  ghost predicate Represents(m: Fragments, r: map<nat, byte>) {
    && (forall k: nat, p: nat :: Covers(m, k, p) ==> p in r && r[p] == m[k][p - k])
    && (forall p :: p in r ==> exists k: nat :: Covers(m, k, p))
  }

  lemma RepresentsUnique(m: Fragments, r: map<nat, byte>, s: map<nat, byte>)
    requires Represents(m, r) && Represents(m, s)
    ensures r == s
  {
    assert forall p :: p in r ==> p in s && r[p] == s[p];
    assert forall p :: p in s ==> p in r;
  }

  lemma RepresentsInsert(m: Fragments, r: map<nat, byte>, k: nat, d: seq<byte>, r': map<nat, byte>)
    requires Represents(m, r) && k !in m
    requires forall p :: p in r ==> !(k <= p < k + |d|)
    requires forall p :: p in r' <==> p in r || k <= p < k + |d|
    requires forall p :: p in r' ==> r'[p] == if k <= p < k + |d| then d[p - k] else r[p]
    ensures Represents(m[k := d], r')
  {
    var m' := m[k := d];
    forall j: nat, p: nat | Covers(m', j, p)
      ensures p in r' && r'[p] == m'[j][p - j]
    {
      if j != k {
        assert Covers(m, j, p);
        assert p in r;
      }
    }
    forall p | p in r'
      ensures exists j: nat :: Covers(m', j, p)
    {
      if k <= p < k + |d| {
        assert Covers(m', k, p);
      } else {
        var j: nat :| Covers(m, j, p);
        assert Covers(m', j, p);
      }
    }
  }

  lemma OtherCovers(m: Fragments, k: nat, j: nat, p: nat)
    requires Disjoint(m) && k in m && Covers(m - {k}, j, p)
    ensures Covers(m, j, p) && !(k <= p < k + |m[k]|)
  {
    assert j < k || k < j;
  }

  lemma RepresentsErase(m: Fragments, r: map<nat, byte>, k: nat, r': map<nat, byte>)
    requires Disjoint(m) && Represents(m, r) && k in m
    requires forall p :: p in r' <==> p in r && !(k <= p < k + |m[k]|)
    requires forall p :: p in r' ==> r'[p] == r[p]
    ensures Represents(m - {k}, r')
  {
    var m' := m - {k};
    forall j: nat, p: nat | Covers(m', j, p)
      ensures p in r' && r'[p] == m'[j][p - j]
    {
      OtherCovers(m, k, j, p);
    }
    forall p | p in r'
      ensures exists j: nat :: Covers(m', j, p)
    {
      var j: nat :| Covers(m, j, p);
      assert Covers(m', j, p);
    }
  }

  /** `[k, k + n)` meets no stored string. */
  ghost predicate Free(m: Fragments, k: nat, n: nat) {
    forall j :: j in m ==> j + |m[j]| <= k || k + n <= j
  }

  lemma PutBack(m: Fragments, k: nat, d: seq<byte>)
    ensures (m - {k})[k := d] == m[k := d]
    ensures k in m ==> m[k := m[k]] == m
  {
  }

  lemma FreeMisses(m: Fragments, r: map<nat, byte>, k: nat, n: nat)
    requires Represents(m, r) && Free(m, k, n)
    ensures forall p :: p in r ==> !(k <= p < k + n)
  {
    forall p | p in r
      ensures !(k <= p < k + n)
    {
      var j: nat :| Covers(m, j, p);
    }
  }

  lemma EraseFrees(m: Fragments, k: nat)
    requires Disjoint(m) && k in m
    ensures Disjoint(m - {k}) && Free(m - {k}, k, |m[k]|)
  {
    forall j | j in m - {k}
      ensures j + |m[j]| <= k || k + |m[k]| <= j
    {
      assert j < k || k < j;
    }
  }

  lemma RepresentsInsertFree(m: Fragments, r: map<nat, byte>, k: nat, d: seq<byte>)
    requires Represents(m, r) && k !in m && Free(m, k, |d|)
    ensures Represents(m[k := d], r + Placed(k, d))
    ensures r.Keys !! Placed(k, d).Keys
  {
    FreeMisses(m, r, k, |d|);
    RepresentsInsert(m, r, k, d, r + Placed(k, d));
  }

  lemma {:induction false} RepresentsExists(m: Fragments)
    requires Disjoint(m)
    ensures exists r :: Represents(m, r)
  {
    if m == map[] {
      assert Represents(m, map[]);
    } else {
      var k: nat :| k in m;
      var m' := m - {k};
      EraseFrees(m, k);
      RepresentsExists(m');
      var r: map<nat, byte> :| Represents(m', r);
      PutBack(m, k, m[k]);
      RepresentsInsertFree(m', r, k, m[k]);
    }
  }

  /** The byte map that the stored strings stand for. */
  ghost function Denote(m: Fragments): (r: map<nat, byte>)
    requires Disjoint(m)
    ensures Represents(m, r)
  {
    RepresentsExists(m);
    var r :| Represents(m, r);
    r
  }

  lemma DropKeys(r: map<nat, byte>, s: set<nat>)
    requires s <= r.Keys
    ensures Size(r - s) == Size(r) - |s|
  {
    assert (r - s).Keys == r.Keys - s;
  }

  lemma AddKeys(r: map<nat, byte>, s: map<nat, byte>)
    requires r.Keys !! s.Keys
    ensures Size(r + s) == Size(r) + Size(s)
  {
    assert (r + s).Keys == r.Keys + s.Keys;
  }

  lemma OverlayAfterDrop(r: map<nat, byte>, s: map<nat, byte>)
    requires s.Keys <= r.Keys
    ensures r - s.Keys + s == r + s
    ensures (r + s).Keys == r.Keys
  {
  }

  lemma PlacedKeys(k: nat, d: seq<byte>)
    ensures Placed(k, d).Keys == Interval(k, |d|)
  {
  }

  lemma DenoteCovers(m: Fragments, k: nat)
    requires Disjoint(m) && k in m
    ensures Interval(k, |m[k]|) <= Denote(m).Keys
  {
    forall p | p in Interval(k, |m[k]|)
      ensures p in Denote(m).Keys
    {
      assert Covers(m, k, p);
    }
  }

  /** Erasing a string removes exactly its bytes. */
  lemma DenoteErase(m: Fragments, k: nat)
    requires Disjoint(m) && k in m
    ensures Disjoint(m - {k})
    ensures Denote(m - {k}) == Denote(m) - Interval(k, |m[k]|)
    ensures Size(Denote(m - {k})) == Size(Denote(m)) - |m[k]|
  {
    var gone := Interval(k, |m[k]|);
    RepresentsErase(m, Denote(m), k, Denote(m) - gone);
    RepresentsUnique(m - {k}, Denote(m - {k}), Denote(m) - gone);
    EraseFrees(m, k);
    DenoteCovers(m, k);
    DropKeys(Denote(m), gone);
  }

  lemma InsertDisjoint(m: Fragments, k: nat, d: seq<byte>)
    requires Disjoint(m) && d != [] && Free(m, k, |d|)
    ensures k !in m && Disjoint(m[k := d])
  {
    assert k !in m;
  }

  lemma PlacedSize(k: nat, d: seq<byte>)
    ensures Size(Placed(k, d)) == |d|
  {
  }

  /** Storing a string in a free place adds exactly its bytes. */
  lemma DenoteInsert(m: Fragments, k: nat, d: seq<byte>)
    requires Disjoint(m) && d != [] && Free(m, k, |d|)
    ensures Disjoint(m[k := d])
    ensures Denote(m[k := d]) == Denote(m) + Placed(k, d)
    ensures Size(Denote(m[k := d])) == Size(Denote(m)) + |d|
  {
    hide Represents, IsPlaced;
    InsertDisjoint(m, k, d);
    RepresentsInsertFree(m, Denote(m), k, d);
    RepresentsUnique(m[k := d], Denote(m[k := d]), Denote(m) + Placed(k, d));
    AddKeys(Denote(m), Placed(k, d));
    PlacedSize(k, d);
  }

  /** Replacing a string by one of the same length rewrites exactly its bytes. */
  lemma DenoteReplace(m: Fragments, k: nat, d: seq<byte>)
    requires Disjoint(m) && k in m && |d| == |m[k]|
    ensures Disjoint(m[k := d])
    ensures Denote(m[k := d]) == Denote(m) + Placed(k, d)
    ensures Denote(m[k := d]).Keys == Denote(m).Keys
  {
    EraseFrees(m, k);
    DenoteErase(m, k);
    DenoteInsert(m - {k}, k, d);
    PutBack(m, k, d);
    DenoteCovers(m, k);
    PlacedKeys(k, d);
    OverlayAfterDrop(Denote(m), Placed(k, d));
  }

  // -- Partial overwriting ----------------------------------------------------

  /** `base` with `d` written over it from offset `o` on. */
  function Splice(base: seq<byte>, o: nat, d: seq<byte>): (r: seq<byte>)
    requires o + |d| <= |base|
    ensures |r| == |base|
  {
    base[..o] + d + base[o + |d|..]
  }

  lemma SpliceAt(base: seq<byte>, o: nat, d: seq<byte>, i: nat)
    requires o + |d| <= |base| && i < |base|
    ensures Splice(base, o, d)[i] == if o <= i < o + |d| then d[i - o] else base[i]
  {
  }

  /** Writing over part of a stored string changes exactly the bytes written. */
  lemma DenoteOverwrite(m: Fragments, k: nat, s: seq<byte>, over: map<nat, byte>)
    requires Disjoint(m) && k in m && |s| == |m[k]|
    requires Placed(k, s) == Placed(k, m[k]) + over
    ensures Disjoint(m[k := s])
    ensures Denote(m[k := s]) == Denote(m) + over
    ensures Denote(m[k := s]).Keys == Denote(m).Keys
  {
    DenoteReplace(m, k, s);
    DenoteHolds(m, k);
    OverlayAgreeing(Denote(m), Placed(k, m[k]), over);
  }

  lemma DenoteHolds(m: Fragments, k: nat)
    requires Disjoint(m) && k in m
    ensures forall q :: q in Placed(k, m[k]) ==> q in Denote(m) && Denote(m)[q] == Placed(k, m[k])[q]
  {
    forall q | q in Placed(k, m[k])
      ensures q in Denote(m) && Denote(m)[q] == Placed(k, m[k])[q]
    {
      assert Covers(m, k, q);
    }
  }

  lemma OverlayAgreeing(r: map<nat, byte>, s: map<nat, byte>, t: map<nat, byte>)
    requires forall q :: q in s ==> q in r && r[q] == s[q]
    ensures r + (s + t) == r + t
  {
  }

  lemma PlacedSplice(k: nat, base: seq<byte>, p: nat, d: seq<byte>)
    requires k <= p && p + |d| <= k + |base|
    ensures Placed(k, Splice(base, p - k, d)) == Placed(k, base) + Placed(p, d)
  {
    var s := Splice(base, p - k, d);
    var r := Placed(k, base) + Placed(p, d);
    forall q | q in r
      ensures k <= q < k + |s| && r[q] == s[q - k]
    {
      SpliceAt(base, p - k, d, q - k);
    }
    PlacedIs(k, s, r);
  }

  lemma PlacedIs(a: nat, d: seq<byte>, r: map<nat, byte>)
    requires forall p: nat :: p in r <==> a <= p < a + |d|
    requires forall p :: p in r ==> r[p] == d[p - a]
    ensures Placed(a, d) == r
  {
  }

  /** A placed string may be laid down in two pieces, in either order. */
  lemma PlacedConcat(a: nat, x: seq<byte>, y: seq<byte>)
    ensures Placed(a, x + y) == Placed(a, x) + Placed(a + |x|, y)
    ensures Placed(a, x + y) == Placed(a + |x|, y) + Placed(a, x)
  {
    PlacedIs(a, x + y, Placed(a, x) + Placed(a + |x|, y));
    PlacedIs(a, x + y, Placed(a + |x|, y) + Placed(a, x));
  }

  lemma OverlayAssociative(r: map<nat, byte>, s: map<nat, byte>, t: map<nat, byte>)
    ensures r + s + t == r + (s + t)
  {
  }

  ghost predicate Stored(m: Fragments, p: nat) {
    exists k: nat :: Covers(m, k, p)
  }

  ghost function Owner(m: Fragments, p: nat): (k: nat)
    requires Stored(m, p)
    ensures Covers(m, k, p)
  {
    var k: nat :| Covers(m, k, p);
    k
  }

  /** The end of the string that covers `p`, or `p` itself when none does. */
  ghost function EndOf(m: Fragments, p: nat): nat {
    if Stored(m, p) then Owner(m, p) + |m[Owner(m, p)]| else p
  }

  lemma EndOfOwner(m: Fragments, k: nat, p: nat)
    requires Disjoint(m) && Covers(m, k, p)
    ensures EndOf(m, p) == k + |m[k]|
  {
    var j := Owner(m, p);
    assert !(j < k) && !(k < j);
  }

  // -- Taking bytes off the front of a string -----------------------------------

  /** What is left of `m` when the first `n` bytes of the string at `k` are taken off. */
  function TakeFront(m: Fragments, k: nat, n: nat): Fragments
    requires k in m && n <= |m[k]|
  {
    if n < |m[k]| then (m - {k})[k + n := m[k][n..]] else m - {k}
  }

  lemma DenoteTakeFront(m: Fragments, k: nat, n: nat)
    requires Disjoint(m) && k in m && n <= |m[k]|
    ensures var m' := TakeFront(m, k, n);
            && Disjoint(m')
            && Denote(m') == Denote(m) - Interval(k, n)
            && Size(Denote(m')) == Size(Denote(m)) - n
  {
    hide Represents, Size, IsPlaced, IsInterval, Disjoint, Free;
    EraseFrees(m, k);
    DenoteErase(m, k);
    if n < |m[k]| {
      assert m[k] == m[k][..n] + m[k][n..];
      ReplaceBySuffix(m, k, m[k][..n], m[k][n..]);
    }
  }

  lemma ReplaceBySuffix(m: Fragments, k: nat, x: seq<byte>, y: seq<byte>)
    requires Disjoint(m) && k in m && m[k] == x + y && y != []
    ensures var m' := (m - {k})[k + |x| := y];
            && Disjoint(m')
            && Denote(m') == Denote(m) - Interval(k, |x|)
            && Size(Denote(m')) == Size(Denote(m)) - |x|
  {
    hide Represents, Size, IsPlaced, IsInterval, Disjoint, Free;
    var n := |x| + |y|;
    assert |m[k]| == n;
    EraseFrees(m, k);
    DenoteErase(m, k);
    FreeSuffix(m - {k}, k, n, |x|);
    DenoteInsert(m - {k}, k + |x|, y);
    SuffixStays(m, k, x, y);
  }

  lemma SuffixStays(m: Fragments, k: nat, x: seq<byte>, y: seq<byte>)
    requires Disjoint(m) && k in m && m[k] == x + y
    ensures Denote(m) - Interval(k, |x| + |y|) + Placed(k + |x|, y) == Denote(m) - Interval(k, |x|)
  {
    hide Represents, Size, Disjoint;
    DenoteHolds(m, k);
    PlacedConcat(k, x, y);
    RestoreSuffix(Denote(m), k, x, y);
  }

  lemma FreeSuffix(m: Fragments, k: nat, len: nat, n: nat)
    requires Free(m, k, len) && n <= len
    ensures Free(m, k + n, len - n)
  {
  }

  lemma RestoreSuffix(r: map<nat, byte>, k: nat, x: seq<byte>, y: seq<byte>)
    requires forall q :: q in Placed(k, x + y) ==> q in r && r[q] == Placed(k, x + y)[q]
    requires Placed(k, x + y) == Placed(k, x) + Placed(k + |x|, y)
    ensures r - Interval(k, |x| + |y|) + Placed(k + |x|, y) == r - Interval(k, |x|)
  {
  }

  // -- Ordered access ---------------------------------------------------------

  lemma {:induction false} LeastExists(s: set<nat>)
    requires s != {}
    ensures exists k :: k in s && forall j :: j in s ==> k <= j
  {
    var x :| x in s;
    var rest := s - {x};
    assert forall j :: j in s ==> j == x || j in rest;
    if rest == {} {
      assert x in s && forall j :: j in s ==> x <= j;
    } else {
      LeastExists(rest);
      var k :| k in rest && forall j :: j in rest ==> k <= j;
      var least := Min(k, x);
      assert least in s && forall j :: j in s ==> least <= j;
    }
  }

  lemma {:induction false} GreatestExists(s: set<nat>)
    requires s != {}
    ensures exists k :: k in s && forall j :: j in s ==> j <= k
  {
    var x :| x in s;
    var rest := s - {x};
    assert forall j :: j in s ==> j == x || j in rest;
    if rest == {} {
      assert x in s && forall j :: j in s ==> j <= x;
    } else {
      GreatestExists(rest);
      var k :| k in rest && forall j :: j in rest ==> j <= k;
      var greatest := Max(k, x);
      assert greatest in s && forall j :: j in s ==> j <= greatest;
    }
  }

  /** An iterator into the map: a key, or the end. */
  type Iterator = Option<nat>

  ghost predicate IsLowerBound(m: Fragments, x: nat, it: Iterator) {
    match it
    case Some(k) => k in m && x <= k && forall j :: j in m && x <= j ==> k <= j
    case None => forall j :: j in m ==> j < x
  }

  method LowerBound(m: Fragments, x: nat) returns (it: Iterator)
    ensures IsLowerBound(m, x, it)
  {
    var s := set k | k in m && x <= k;
    assert forall j :: j in m && x <= j ==> j in s;
    if s == {} {
      return None;
    }
    LeastExists(s);
    var k :| k in s && forall j :: j in s ==> k <= j;
    it := Some(k);
  }

  /** The greatest key at or below `x` -- the iterator before `LowerBound(x + 1)`. */
  method Before(m: Fragments, x: nat) returns (it: Iterator)
    ensures match it
            case Some(k) => k in m && k <= x && forall j :: j in m && j <= x ==> j <= k
            case None => forall j :: j in m ==> x < j
  {
    var s := set k | k in m && k <= x;
    assert forall j :: j in m && j <= x ==> j in s;
    if s == {} {
      return None;
    }
    GreatestExists(s);
    var k :| k in s && forall j :: j in s ==> j <= k;
    it := Some(k);
  }
}
