/** Reassembly of overlapping, out-of-order substrings into one byte stream. */
module Reassembly {
  import opened Machine
  import opened ByteStreams
  import opened Fragments

  /** The value of a reassembler: its output stream, the strings waiting behind a gap, and
      the announced end of the stream. */
  datatype Assembler = Assembler(out: Stream, frags: Fragments, eofSeen: bool, eofIdx: nat) {
    /** Index of the first byte that has not been written to the output. */
    function Next(): nat {
      |out.written|
    }

    /** Index of the first byte that the capacity rules out. */
    function Limit(): nat {
      out.read + out.capacity
    }

    /** Strings are non-empty and disjoint; each starts at or after `Next()` and before
        `Limit()`, except that the remainder left by a full output starts at `Next()`. */
    ghost predicate Valid() {
      && out.Valid()
      && Disjoint(frags)
      && (forall k :: k in frags ==> Next() <= k && (k < Limit() || k == Next()))
      && (forall k :: k in frags ==> k + |frags[k]| < TWO63)
    }

    ghost function Pending(): map<nat, byte>
      requires Valid()
    {
      Denote(frags)
    }

    /** Where the part of a push at `index` that is neither written nor already covered begins. */
    ghost function NewIndex(index: nat): nat {
      if index < Next() then Next() else EndOf(frags, index)
    }

    /** A push that brings nothing new: it ends within what is written, or within the strings
        that its start runs into. */
    ghost predicate Dropped(index: nat, data: seq<byte>) {
      index + |data| <= EndOf(frags, NewIndex(index))
    }

    /** The bytes of a push at or after `Next()`, each at its own index. */
    ghost function Fresh(index: nat, data: seq<byte>): map<nat, byte> {
      if index >= Next() then Placed(index, data)
      else if index + |data| <= Next() then map[]
      else Placed(Next(), data[Next() - index..])
    }

    /** The waiting bytes once a push has been merged in. Newer bytes win. A push whose new
        part starts beyond the limit only rewrites bytes already held -- and, when it starts
        before `Next()` while the output is full, discards what was held. */
    ghost function Merged(index: nat, data: seq<byte>): map<nat, byte>
      requires Valid()
    {
      if Dropped(index, data) || NewIndex(index) < Limit() then Pending() + Fresh(index, data)
      else if index < Next() then map[]
      else Rewritten(Pending(), Fresh(index, data))
    }
  }

  /** `r` with the values of `s` at the keys that both have. */
  ghost function Rewritten(r: map<nat, byte>, s: map<nat, byte>): map<nat, byte> {
    map p | p in r :: if p in s then s[p] else r[p]
  }

  /** Pushing `data` at `index`, with or without the end-of-stream mark.

      Nothing happens once the input has ended. Otherwise the waiting bytes become `Merged`;
      unless the push was dropped, the bytes from `Next()` on are then written out for as long
      as they are contiguous, the output has room and the input has not ended. The input ends
      when a mark at `Next()` arrives, or when the writing reaches the marked end. */
  ghost predicate PushSpec(a: Assembler, data: seq<byte>, index: uint64, eof: bool, a': Assembler)
    requires a.Valid()
  {
    if a.out.ended then a' == a
    else
      && a'.Valid()
      && a'.eofSeen == (a.eofSeen || eof)
      && a'.eofIdx == (if eof then (index + |data|) % TWO64 else a.eofIdx)
      && var endsHere := eof && a'.eofIdx == a.Next();
      if data == [] then a' == a.(eofSeen := a'.eofSeen, eofIdx := a'.eofIdx, out := a.out.(ended := endsHere))
      else if a.Dropped(index, data) then
        a'.out == a.out.(ended := endsHere) && a'.Pending() == a.Merged(index, data)
      else
        DrainSpec(a.out.(ended := endsHere), a.Merged(index, data), a.Limit(), a')
  }

  /** From the stream `o` and the waiting bytes `waiting`, writing out the contiguous bytes leads to `a'`. */
  ghost predicate DrainSpec(o: Stream, waiting: map<nat, byte>, limit: nat, a': Assembler)
    requires a'.Valid()
  {
    var from := |o.written|;
    && a'.out.read == o.read && a'.out.capacity == o.capacity
    && Drained(waiting, o.written, a'.frags, a'.out.written)
    && a'.out.ended == (o.ended || (from in waiting && a'.eofSeen && a'.eofIdx <= a'.Next()))
    && (a'.Next() !in waiting || a'.Next() == limit || a'.out.ended)
    && (a'.Next() > from <==> from in waiting && !o.ended && from < limit)
  }

  /** The bytes added to `w` to make `w'` are those waiting at these indices; the others still wait. */
  ghost predicate Drained(waiting: map<nat, byte>, w: seq<byte>, m': Fragments, w': seq<byte>)
    requires Disjoint(m')
  {
    && w <= w'
    && (forall p :: |w| <= p < |w'| ==> p in waiting && w'[p] == waiting[p])
    && Denote(m') == waiting - Interval(|w|, |w'| - |w|)
  }

  ghost predicate ReadSpec(a: Assembler, len: nat, a': Assembler) {
    a' == a.(out := a.out.(read := a.out.read + Min(a.out.Buffered(), len)))
  }

  class StreamReassembler {
    const output: ByteStream
    const capacity: nat
    var exIdx: nat
    var unassembled: Fragments
    var unassembledSize: nat
    var eofSignRecv: bool
    var eofIdx: nat

    ghost function View(): Assembler
      reads this, output
    {
      Assembler(output.View(), unassembled, eofSignRecv, eofIdx)
    }

    ghost predicate Valid()
      reads this, output
    {
      && output.Valid()
      && output.capacity == capacity
      && exIdx == output.bytesWritten
      && View().Valid()
      && unassembledSize == Size(Denote(unassembled))
    }

    constructor (capacity: nat)
      ensures Valid() && fresh(output) && !output.error
      ensures View() == Assembler(Stream([], 0, capacity, false), map[], false, 0)
    {
      output := new ByteStream(capacity);
      this.capacity := capacity;
      exIdx, unassembled, unassembledSize, eofSignRecv, eofIdx := 0, map[], 0, false, 0;
      new;
      assert Represents(map[], map[]);
      RepresentsUnique(map[], Denote(map[]), map[]);
    }

    /** The first string starting at or after `idx` (after 0, when `idx` is 0). */
    method GetBackItr(idx: nat) returns (it: Iterator)
      ensures IsLowerBound(unassembled, Max(idx, 1), it)
    {
      if idx == 0 {
        it := LowerBound(unassembled, 1);
      } else {
        it := LowerBound(unassembled, idx);
      }
    }

    /** The last string starting at or before `idx`; for the largest index, whose successor
        wraps to 0, the first string instead. */
    method GetFrontItr(idx: uint64) returns (it: Iterator)
      requires forall k :: k in unassembled ==> k < TWO63
      ensures it.Some? ==> it.value in unassembled && it.value <= idx
      ensures idx + 1 < TWO64 && it.Some? ==> forall j :: j in unassembled && j <= idx ==> j <= it.value
      ensures idx + 1 < TWO64 && it.None? ==> forall j :: j in unassembled ==> idx < j
    {
      if (idx + 1) % TWO64 == 0 {
        it := LowerBound(unassembled, 0);
      } else {
        it := Before(unassembled, idx);
      }
    }

    /** The front half of the cutting: skip what is written, and write over the string that
        the push runs into at its start. */
    method CutFront(idx: uint64, data: seq<byte>) returns (drop: bool, idx': nat, data': seq<byte>)
      requires Cuttable(unassembled, exIdx, data)
      modifies this`unassembled
      ensures FrontCut(old(unassembled), exIdx, idx, data, unassembled, drop, idx', data')
    {
      hide Represents, Size, IsPlaced, FrontCut, NoneAcross, OnlyOverlaid;
      drop, idx', data' := false, idx, data;
      if idx < exIdx {
        if idx + |data| <= exIdx {
          drop := true;
        } else {
          data' := data[exIdx - idx..];
          idx' := exIdx;
        }
        FrontSkipped(unassembled, exIdx, idx, data, drop, idx', data');
      } else {
        var fIt := GetFrontItr(idx);
        if fIt.Some? {
          var fIdx: nat := fIt.value;
          var fData := unassembled[fIdx];
          var fTailIdxNext := fIdx + |fData|;
          if fTailIdxNext > idx {
            var n := Min(fTailIdxNext - idx, |data|);
            var updated := Splice(fData, idx - fIdx, data[..n]);
            PlacedSplice(fIdx, fData, idx, data[..n]);
            OverwriteOne(unassembled, fIdx, updated, Placed(idx, data[..n]));
            unassembled := unassembled[fIdx := updated];
            if idx + |data| <= fTailIdxNext {
              drop := true;
            } else {
              data' := data[n..];
              idx' := fTailIdxNext;
            }
            FrontOverwritten(old(unassembled), exIdx, idx, data, fIdx, n, unassembled, drop, idx', data');
            return;
          }
        }
        FrontUntouched(unassembled, exIdx, idx, data, fIt);
      }
    }

    /** The back half of the cutting: drop the strings that the push covers, write over the one
        in which it ends, and keep of the push what meets no string any more. */
    method CutBack(idx: nat, data: seq<byte>) returns (drop: bool, rest: seq<byte>)
      requires Disjoint(unassembled) && data != [] && NoneAcross(unassembled, idx)
      requires idx == 0 ==> 0 !in unassembled
      requires unassembledSize == Size(Denote(unassembled))
      modifies this`unassembled, this`unassembledSize
      ensures Disjoint(unassembled) && unassembledSize == Size(Denote(unassembled))
      ensures BackCut(old(unassembled), idx, data, unassembled, drop, rest)
    {
      hide Represents, Size, IsPlaced, BackCut, NoneAcross, OnlyOverlaid, BackLoop, Disjoint;
      drop, rest := false, data;
      var bIt := GetBackItr(idx);
      BackLoopStart(unassembled, idx, data);
      while bIt.Some?
        invariant Disjoint(unassembled) && unassembledSize == Size(Denote(unassembled))
        invariant BackLoop(old(unassembled), idx, data, unassembled)
        invariant IsLowerBound(unassembled, idx, bIt)
        decreases unassembled.Keys
      {
        var bIdx: nat := bIt.value;
        var bData := unassembled[bIdx];
        if idx + |data| <= bIdx {
          break;
        } else if idx + |data| <= bIdx + |bData| {
          var tail := data[bIdx - idx..];
          var updated := Splice(bData, 0, tail);
          PlacedSplice(bIdx, bData, bIdx, tail);
          OverwriteOne(unassembled, bIdx, updated, Placed(bIdx, tail));
          if idx == bIdx {
            drop := true;
            BackInside(old(unassembled), idx, data, unassembled, updated);
          } else {
            rest := data[..bIdx - idx];
            BackPartly(old(unassembled), idx, data, unassembled, bIdx, updated);
          }
          unassembled := unassembled[bIdx := updated];
          return;
        } else {
          BackErase(old(unassembled), idx, data, unassembled, bIdx);
          DenoteErase(unassembled, bIdx);
          unassembledSize := unassembledSize - |bData|;
          unassembled := unassembled - {bIdx};
          bIt := LowerBound(unassembled, bIdx);
        }
      }
      BackDone(old(unassembled), idx, data, unassembled, bIt);
    }

    /** Both halves of the cutting. */
    method CutData(idx: uint64, data: seq<byte>) returns (drop: bool, newIdx: nat, rest: seq<byte>)
      requires Valid() && Cuttable(unassembled, exIdx, data)
      modifies this`unassembled, this`unassembledSize
      ensures Disjoint(unassembled) && unassembledSize == Size(Denote(unassembled))
      ensures CutSpec(old(View()), idx, data, unassembled, drop, newIdx, rest)
    {
      hide Represents, Size, IsPlaced, FrontCut, BackCut, NoneAcross, OnlyOverlaid, Disjoint;
      var idx', data';
      drop, idx', data' := CutFront(idx, data);
      newIdx, rest := idx', data';
      FrontShape(old(unassembled), exIdx, idx, data, unassembled, drop, idx', data');
      if drop {
        CutInFront(old(View()), idx, data, unassembled, idx', data');
        return;
      }
      ghost var m1 := unassembled;
      drop, rest := CutBack(idx', data');
      CutCompose(old(View()), idx, data, m1, idx', data', unassembled, drop, rest);
    }

    /** Write out as much as fits of the string at `exIdx`; the rest of it is stored under its new index. */
    method DrainOne() returns (all: bool)
      requires Valid() && exIdx in unassembled
      modifies this`exIdx, this`unassembled, this`unassembledSize, output
      ensures Valid() && output.error == old(output.error)
      ensures DrainOneSpec(old(View()), View(), all)
    {
      hide Represents, Size, IsPlaced, IsInterval, Disjoint, Drained, TakeFront;
      var currData := unassembled[exIdx];
      DenoteTakeFront(unassembled, exIdx, output.View().Accepts(|currData|));
      var pushed := output.Write(currData);
      unassembledSize := unassembledSize - pushed;
      unassembled := TakeFront(unassembled, exIdx, pushed);
      exIdx := exIdx + pushed;
      if eofSignRecv && eofIdx <= exIdx {
        output.EndInput();
      }
      all := pushed == |currData|;
      DrainFits(old(View()), View(), all);
    }

    /** Write out the contiguous bytes from the string at `exIdx` on. */
    method Drain()
      requires Valid() && exIdx in unassembled
      modifies this`exIdx, this`unassembled, this`unassembledSize, output
      ensures Valid() && output.error == old(output.error)
      ensures DrainSpec(old(View()).out, old(View()).Pending(), old(View()).Limit(), View())
    {
      hide Represents, Size, IsPlaced, IsInterval, Disjoint, Drained, DrainLoop, DrainOneSpec;
      DrainStart(View());
      var it: Iterator := Some(exIdx);
      while it.Some?
        invariant Valid() && output.error == old(output.error)
        invariant DrainLoop(old(View()), View())
        invariant IsLowerBound(unassembled, 0, it)
        decreases unassembled.Keys
      {
        if it.value > exIdx {
          break;
        }
        ghost var a := View();
        var all := DrainOne();
        DrainStep(old(View()), a, View(), all);
        if !all {
          return;
        }
        it := LowerBound(unassembled, 0);
      }
      DrainDone(old(View()), View());
    }

    /** Cut a substring against what is held, and store what is left of it if it starts below the limit. */
    method Absorb(data: seq<byte>, index: uint64) returns (drop: bool)
      requires Valid() && data != []
      requires View().Limit() + |data| < TWO63
      modifies this`unassembled, this`unassembledSize
      ensures Valid()
      ensures drop <==> old(View()).Dropped(index, data)
      ensures View() == old(View()).(frags := unassembled)
      ensures Denote(unassembled) == old(View()).Merged(index, data)
    {
      hide Represents, Size, IsPlaced, IsInterval, Disjoint, Free, Survivors, OnlyOverlaid, Assembler.Valid, Assembler.Merged;
      ghost var a := View();
      ReadyToCut(a, data);
      var newIdx, rest;
      drop, newIdx, rest := CutData(index, data);
      if drop {
        MergeDropped(a, index, data, unassembled, newIdx, rest);
        return;
      }
      var firstUnacceptableIdx := exIdx + capacity - output.size;
      if newIdx < firstUnacceptableIdx {
        MergeStored(a, index, data, unassembled, newIdx, rest);
        unassembled := unassembled[newIdx := rest];
        unassembledSize := unassembledSize + |rest|;
      } else {
        MergeRefused(a, index, data, unassembled, newIdx, rest);
      }
    }

    /** Accept a substring of the stream that starts at `index`; with `eof`, its last byte is
        the last of the stream. */
    method PushSubstring(data: seq<byte>, index: uint64, eof: bool)
      requires Valid()
      requires View().Limit() + |data| < TWO63
      modifies this, output
      ensures Valid() && output.error == old(output.error)
      ensures PushSpec(old(View()), data, index, eof, View())
    {
      hide Represents, Size, IsPlaced, IsInterval, Disjoint, DrainSpec, DrainOneSpec, Assembler.Merged, Assembler.Dropped;
      if output.inputEnded {
        return;
      }
      if eof {
        eofSignRecv := true;
        eofIdx := (index + |data|) % TWO64;
        if eofIdx == exIdx {
          output.EndInput();
        }
      }
      if |data| == 0 {
        return;
      }
      ghost var a := View();
      SameMerge(old(View()), a, index, data);
      var drop := Absorb(data, index);
      if drop {
        return;
      }
      var begin := LowerBound(unassembled, 0);
      if begin.None? || begin.value != exIdx {
        NothingToDrain(View());
        return;
      }
      Drain();
    }

    /** A reader takes bytes off the output; this makes room but moves nothing by itself. */
    method ReadOutput(len: nat) returns (r: seq<byte>)
      requires Valid()
      modifies output
      ensures Valid() && output.error == old(output.error)
      ensures ReadSpec(old(View()), len, View())
      ensures |r| == Min(old(View()).out.Buffered(), len)
      ensures r == View().out.written[old(View()).out.read..View().out.read]
    {
      hide Represents, Size, IsPlaced, IsInterval, Disjoint;
      r := output.Read(len);
    }

    /** Each waiting index counts once, however often it has been pushed. */
    method UnassembledBytes() returns (n: nat)
      requires Valid()
      ensures n == |View().Pending()|
    {
      n := unassembledSize;
    }
  }

  ghost predicate Cuttable(m: Fragments, exIdx: nat, data: seq<byte>) {
    && Disjoint(m)
    && exIdx < TWO63
    && 0 < |data| < TWO63
    && forall k :: k in m ==> exIdx <= k && k + |m[k]| < TWO63
  }

  /** What the front half of the cutting does to the stored strings `m`. */
  ghost predicate FrontCut(m: Fragments, exIdx: nat, idx: nat, data: seq<byte>,
                           m': Fragments, drop: bool, idx': nat, data': seq<byte>)
    requires Disjoint(m)
  {
    var t := if idx < exIdx then exIdx else EndOf(m, idx);
    && (drop <==> idx + |data| <= t)
    && (!drop ==> idx <= t == idx' && data' == data[t - idx..])
    && (!drop ==> NoneAcross(m', idx'))
    && (idx < exIdx ==> m' == m)
    && (idx >= exIdx ==> idx <= t && OnlyOverlaid(m, m', Placed(idx, data[..Min(t - idx, |data|)])))
  }

  /** Every string lies wholly before or wholly at and after `p`. */
  ghost predicate NoneAcross(m: Fragments, p: nat) {
    forall k :: k in m && k < p ==> k + |m[k]| <= p
  }

  /** `m'` has strings of the same places and lengths as `m`, with the bytes `over` written over. */
  ghost predicate OnlyOverlaid(m: Fragments, m': Fragments, over: map<nat, byte>)
    requires Disjoint(m)
  {
    && Disjoint(m') && SameShape(m, m')
    && Denote(m').Keys == Denote(m).Keys
    && Size(Denote(m')) == Size(Denote(m))
    && Denote(m') == Denote(m) + over
  }

  lemma FrontSkipped(m: Fragments, exIdx: nat, idx: nat, data: seq<byte>, drop: bool, idx': nat, data': seq<byte>)
    requires Cuttable(m, exIdx, data) && idx < exIdx
    requires drop <==> idx + |data| <= exIdx
    requires !drop ==> idx' == exIdx && data' == data[exIdx - idx..]
    ensures FrontCut(m, exIdx, idx, data, m, drop, idx', data')
  {
  }

  lemma OverwriteOne(m: Fragments, k: nat, s: seq<byte>, over: map<nat, byte>)
    requires Disjoint(m) && k in m && |s| == |m[k]|
    requires Placed(k, s) == Placed(k, m[k]) + over
    ensures OnlyOverlaid(m, m[k := s], over)
    ensures Size(Denote(m[k := s])) == Size(Denote(m))
    ensures NoneAcross(m[k := s], k + |m[k]|)
  {
    assert SameShape(m, m[k := s]);
    NothingBeyond(m, m[k := s], k);
    DenoteOverwrite(m, k, s, over);
  }

  lemma FrontOverwritten(m: Fragments, exIdx: nat, idx: nat, data: seq<byte>, fIdx: nat, n: nat, m': Fragments,
                         drop: bool, idx': nat, data': seq<byte>)
    requires Cuttable(m, exIdx, data) && exIdx <= idx
    requires Covers(m, fIdx, idx)
    requires n == Min(fIdx + |m[fIdx]| - idx, |data|)
    requires OnlyOverlaid(m, m', Placed(idx, data[..n])) && NoneAcross(m', fIdx + |m[fIdx]|)
    requires drop <==> idx + |data| <= fIdx + |m[fIdx]|
    requires !drop ==> idx' == fIdx + |m[fIdx]| && data' == data[n..]
    ensures FrontCut(m, exIdx, idx, data, m', drop, idx', data')
  {
    hide Represents, Size, IsPlaced, Disjoint, NoneAcross, OnlyOverlaid;
    EndOfOwner(m, fIdx, idx);
    assert Min(EndOf(m, idx) - idx, |data|) == n;
  }

  lemma NothingBeyond(m: Fragments, m': Fragments, k: nat)
    requires Disjoint(m) && SameShape(m, m') && k in m
    ensures forall j :: j in m' && j < k + |m[k]| ==> j + |m'[j]| <= k + |m[k]|
  {
    forall j | j in m' && j < k + |m[k]|
      ensures j + |m'[j]| <= k + |m[k]|
    {
      assert j in m && !(k < j);
      if j < k { assert j + |m[j]| <= k; }
    }
  }

  lemma FrontUntouched(m: Fragments, exIdx: nat, idx: uint64, data: seq<byte>, fIt: Iterator)
    requires Cuttable(m, exIdx, data) && exIdx <= idx
    requires fIt.Some? ==> fIt.value in m && fIt.value <= idx && fIt.value + |m[fIt.value]| <= idx
    requires idx + 1 < TWO64 ==>
               match fIt
               case Some(k) => forall j :: j in m && j <= idx ==> j <= k
               case None => forall j :: j in m ==> idx < j
    ensures FrontCut(m, exIdx, idx, data, m, false, idx, data)
  {
    forall k | k in m && k <= idx
      ensures k + |m[k]| <= idx
    {
      if idx + 1 < TWO64 && k != fIt.value {
        assert k + |m[k]| <= fIt.value;
      }
    }
    NothingCovers(m, idx);
    PlacedNothing(Denote(m), idx);
    assert data[..0] == [];
  }

  /** What the back half of the cutting does to the stored strings `m`: together with the kept
      part of the push they hold every byte they held, the pushed bytes winning. */
  ghost predicate BackCut(m: Fragments, idx: nat, data: seq<byte>, m': Fragments, drop: bool, rest: seq<byte>)
    requires Disjoint(m) && Disjoint(m')
  {
    && (drop <==> idx in m && |data| <= |m[idx]|)
    && (drop ==> OnlyOverlaid(m, m', Placed(idx, data)))
    && (!drop ==>
          && rest != [] && rest <= data
          && Free(m', idx, |rest|)
          && Survivors(m, m', idx)
          && Denote(m') + Placed(idx, rest) == Denote(m) + Placed(idx, data))
  }

  /** `m'` has lost strings of `m` only at or after `idx`, and changed no length. */
  ghost predicate Survivors(m: Fragments, m': Fragments, idx: nat) {
    && (forall k :: k in m' ==> k in m && |m'[k]| == |m[k]|)
    && (forall k :: k in m && k < idx ==> k in m')
  }

  /** While the covered strings are being dropped. */
  ghost predicate BackLoop(m: Fragments, idx: nat, data: seq<byte>, m': Fragments)
    requires Disjoint(m) && Disjoint(m')
  {
    && NoneAcross(m, idx)
    && Survivors(m, m', idx)
    && (forall k :: k in m && k !in m' ==> idx <= k && k + |m[k]| < idx + |data|)
    && (forall k :: k in m' ==> m'[k] == m[k])
    && Denote(m') + Placed(idx, data) == Denote(m) + Placed(idx, data)
  }

  lemma BackLoopStart(m: Fragments, idx: nat, data: seq<byte>)
    requires Disjoint(m) && NoneAcross(m, idx)
    ensures BackLoop(m, idx, data, m)
  {
    hide NoneAcross, Represents, IsPlaced;
  }

  lemma OverlayHides(r: map<nat, byte>, gone: set<nat>, s: map<nat, byte>)
    requires gone <= s.Keys
    ensures r - gone + s == r + s
  {
  }

  lemma BackErase(m: Fragments, idx: nat, data: seq<byte>, m': Fragments, k: nat)
    requires Disjoint(m) && Disjoint(m') && BackLoop(m, idx, data, m')
    requires k in m' && idx <= k && k + |m'[k]| < idx + |data|
    ensures Disjoint(m' - {k}) && BackLoop(m, idx, data, m' - {k})
  {
    hide Represents, Size, NoneAcross;
    EraseFrees(m', k);
    DenoteErase(m', k);
    assert Denote(m' - {k}) + Placed(idx, data) == Denote(m') + Placed(idx, data) by {
      assert Interval(k, |m'[k]|) <= Placed(idx, data).Keys;
      OverlayHides(Denote(m'), Interval(k, |m'[k]|), Placed(idx, data));
    }
  }

  /** Nothing has been dropped while a string still starts at `idx`. */
  lemma BackInside(m: Fragments, idx: nat, data: seq<byte>, m': Fragments, s: seq<byte>)
    requires Disjoint(m) && Disjoint(m') && BackLoop(m, idx, data, m')
    requires idx in m' && |data| <= |m'[idx]|
    requires OnlyOverlaid(m', m'[idx := s], Placed(idx, data[idx - idx..]))
    ensures BackCut(m, idx, data, m'[idx := s], true, data)
  {
    hide Represents, Size, IsPlaced;
    assert data[idx - idx..] == data;
    assert forall k :: k in m && idx < k ==> idx + |m[idx]| <= k;
    assert m' == m;
  }

  lemma BackPartly(m: Fragments, idx: nat, data: seq<byte>, m': Fragments, k: nat, s: seq<byte>)
    requires Disjoint(m) && Disjoint(m') && BackLoop(m, idx, data, m')
    requires IsLowerBound(m', idx, Some(k))
    requires idx < k < idx + |data| <= k + |m'[k]|
    requires OnlyOverlaid(m', m'[k := s], Placed(k, data[k - idx..]))
    ensures BackCut(m, idx, data, m'[k := s], false, data[..k - idx])
  {
    hide Represents, Size, IsPlaced;
    var rest, tail := data[..k - idx], data[k - idx..];
    assert Denote(m'[k := s]) + Placed(idx, rest) == Denote(m) + Placed(idx, data) by {
      assert rest + tail == data;
      PlacedConcat(idx, rest, tail);
      OverlayAssociative(Denote(m'), Placed(k, tail), Placed(idx, rest));
    }
  }

  lemma BackDone(m: Fragments, idx: nat, data: seq<byte>, m': Fragments, it: Iterator)
    requires Disjoint(m) && Disjoint(m') && BackLoop(m, idx, data, m')
    requires data != []
    requires IsLowerBound(m', idx, it)
    requires it.Some? ==> idx + |data| <= it.value
    ensures BackCut(m, idx, data, m', false, data)
  {
    hide Represents, Size, IsPlaced;
    forall k | k in m'
      ensures k + |m'[k]| <= idx || idx + |data| <= k
    {
      if k < idx {
        assert k in m && k + |m[k]| <= idx;
      }
    }
  }

  /** What the cutting does: a dropped push has been written over stored bytes entirely; the
      rest of any other push starts at `newIdx` and completes the overlay. */
  ghost predicate CutSpec(a: Assembler, idx: nat, data: seq<byte>,
                          m': Fragments, drop: bool, newIdx: nat, rest: seq<byte>)
    requires a.Valid() && Disjoint(m')
  {
    && (drop <==> a.Dropped(idx, data))
    && (drop ==> OnlyOverlaid(a.frags, m', a.Fresh(idx, data)))
    && (!drop ==>
          && newIdx == a.NewIndex(idx)
          && 0 < |rest| <= |data|
          && Free(m', newIdx, |rest|)
          && Survivors(a.frags, m', newIdx)
          && Denote(m') + Placed(newIdx, rest) == a.Pending() + a.Fresh(idx, data))
  }

  /** What the back half of the cutting may rely on. */
  lemma FrontShape(m: Fragments, exIdx: nat, idx: nat, data: seq<byte>,
                   m': Fragments, drop: bool, idx': nat, data': seq<byte>)
    requires Cuttable(m, exIdx, data) && FrontCut(m, exIdx, idx, data, m', drop, idx', data')
    ensures Disjoint(m') && Size(Denote(m')) == Size(Denote(m))
    ensures !drop ==> data' != [] && NoneAcross(m', idx')
    ensures !drop && idx' == 0 ==> 0 !in m'
  {
    hide Represents, Size, IsPlaced;
    if !drop && idx' == 0 && 0 in m' {
      assert Covers(m, 0, 0);
      EndOfOwner(m, 0, 0);
    }
  }

  lemma CutInFront(a: Assembler, idx: nat, data: seq<byte>, m': Fragments, idx': nat, data': seq<byte>)
    requires a.Valid() && Disjoint(m') && data != []
    requires FrontCut(a.frags, a.Next(), idx, data, m', true, idx', data')
    ensures CutSpec(a, idx, data, m', true, idx', data')
  {
    hide Represents, Size, IsPlaced, Disjoint;
    EndOfAtLeast(a.frags, a.NewIndex(idx));
    if idx >= a.Next() {
      assert data[..|data|] == data;
    } else {
      OverlayNothing(a.Pending());
    }
  }

  lemma OverlayNothing(r: map<nat, byte>)
    ensures r + map[] == r
  {
  }

  lemma EndOfAtLeast(m: Fragments, p: nat)
    ensures p <= EndOf(m, p)
  {
  }

  lemma EndOfKey(m: Fragments, p: nat)
    requires Disjoint(m) && NoneAcross(m, p)
    ensures EndOf(m, p) == if p in m then p + |m[p]| else p
  {
    if p in m {
      assert Covers(m, p, p);
      EndOfOwner(m, p, p);
    } else {
      NothingCovers(m, p);
    }
  }

  lemma CutCompose(a: Assembler, idx: nat, data: seq<byte>, m1: Fragments, idx': nat, data': seq<byte>,
                   m2: Fragments, drop: bool, rest: seq<byte>)
    requires a.Valid() && Disjoint(m1) && Disjoint(m2) && data != []
    requires FrontCut(a.frags, a.Next(), idx, data, m1, false, idx', data')
    requires BackCut(m1, idx', data', m2, drop, rest)
    ensures CutSpec(a, idx, data, m2, drop, idx', rest)
  {
    hide Represents, Size, IsPlaced, Disjoint;
    assert NoneAcross(a.frags, idx') && SameShape(a.frags, m1);
    EndOfKey(a.frags, idx');
    FreshSplit(a, idx, data, m1, idx', data');
  }

  /** The bytes written over in front and those still to be placed make up the fresh bytes. */
  lemma FreshSplit(a: Assembler, idx: nat, data: seq<byte>, m1: Fragments, idx': nat, data': seq<byte>)
    requires a.Valid() && Disjoint(m1) && data != []
    requires FrontCut(a.frags, a.Next(), idx, data, m1, false, idx', data')
    ensures Denote(m1) + Placed(idx', data') == a.Pending() + a.Fresh(idx, data)
    ensures Denote(m1).Keys == Denote(a.frags).Keys && SameShape(a.frags, m1)
  {
    hide Represents, Size, IsPlaced, Disjoint;
    if idx >= a.Next() {
      var x := data[..idx' - idx];
      assert data == x + data';
      PlacedConcat(idx, x, data');
      OverlayAssociative(Denote(a.frags), Placed(idx, x), Placed(idx', data'));
    }
  }

  // -- Merging ------------------------------------------------------------------

  lemma ReadyToCut(a: Assembler, data: seq<byte>)
    requires a.Valid() && a.Limit() + |data| < TWO63 && data != []
    ensures Cuttable(a.frags, a.Next(), data)
  {
  }

  /** The mark of the end plays no part in the merging. */
  lemma SameMerge(a: Assembler, b: Assembler, index: nat, data: seq<byte>)
    requires a.Valid()
    requires b == a.(eofSeen := b.eofSeen, eofIdx := b.eofIdx, out := a.out.(ended := b.out.ended))
    ensures b.Valid() && b.Limit() == a.Limit()
    ensures b.Dropped(index, data) <==> a.Dropped(index, data)
    ensures b.Merged(index, data) == a.Merged(index, data)
  {
    hide Represents, Size, Disjoint, IsPlaced;
  }

  lemma MergeDropped(a: Assembler, index: nat, data: seq<byte>, m': Fragments, newIdx: nat, rest: seq<byte>)
    requires a.Valid() && Disjoint(m') && CutSpec(a, index, data, m', true, newIdx, rest)
    ensures a.(frags := m').Valid() && Denote(m') == a.Merged(index, data)
  {
    hide Represents, Size, Disjoint;
  }

  lemma MergeStored(a: Assembler, index: nat, data: seq<byte>, m': Fragments, newIdx: nat, rest: seq<byte>)
    requires a.Valid() && Disjoint(m') && CutSpec(a, index, data, m', false, newIdx, rest)
    requires newIdx < a.Limit() && a.Limit() + |data| < TWO63
    ensures a.(frags := m'[newIdx := rest]).Valid()
    ensures Denote(m'[newIdx := rest]) == a.Merged(index, data)
    ensures Size(Denote(m'[newIdx := rest])) == Size(Denote(m')) + |rest|
  {
    hide Represents, Size, Disjoint, IsPlaced, Free, Assembler.Valid, Assembler.Fresh, Survivors;
    DenoteInsert(m', newIdx, rest);
    assert a.(frags := m'[newIdx := rest]).Valid() by {
      StoredValid(a, index, data, m', newIdx, rest);
    }
  }

  lemma StoredValid(a: Assembler, index: nat, data: seq<byte>, m': Fragments, newIdx: nat, rest: seq<byte>)
    requires a.Valid() && Disjoint(m'[newIdx := rest])
    requires newIdx == a.NewIndex(index) && |rest| <= |data| && Survivors(a.frags, m', newIdx)
    requires newIdx < a.Limit() && a.Limit() + |data| < TWO63
    ensures a.(frags := m'[newIdx := rest]).Valid()
  {
    hide Represents, Size, Disjoint, IsPlaced;
    EndOfAtLeast(a.frags, index);
  }

  /** A push refused for starting beyond the limit has dropped no string, unless it began before
      `Next()` with the output full. */
  lemma MergeRefused(a: Assembler, index: nat, data: seq<byte>, m': Fragments, newIdx: nat, rest: seq<byte>)
    requires a.Valid() && Disjoint(m') && CutSpec(a, index, data, m', false, newIdx, rest)
    requires newIdx >= a.Limit()
    ensures a.(frags := m').Valid() && Denote(m') == a.Merged(index, data)
  {
    hide Represents, Size, IsPlaced;
    if index < a.Next() {
      assert forall k :: k in m' ==> k == a.Next();
      assert a.Next() !in m';
      assert m' == map[];
      DenoteEmpty();
    } else {
      RefusedKeepsStrings(a, index, m', newIdx);
      RefusedRewrites(a, index, data, m', newIdx, rest);
    }
  }

  lemma DenoteEmpty()
    ensures Denote(map[]) == map[]
  {
    RepresentsUnique(map[], Denote(map[]), map[]);
  }

  lemma RefusedKeepsStrings(a: Assembler, index: nat, m': Fragments, newIdx: nat)
    requires a.Valid() && Disjoint(m') && Survivors(a.frags, m', newIdx)
    requires a.Next() <= index && newIdx == EndOf(a.frags, index) >= a.Limit()
    ensures SameShape(a.frags, m')
  {
    hide Represents, Size, IsPlaced;
    EndOfAtLeast(a.frags, index);
    forall k | k in a.frags
      ensures k in m'
    {
      if k >= newIdx {
        assert Covers(a.frags, k, k);
        EndOfOwner(a.frags, k, k);
      }
    }
  }

  lemma RefusedRewrites(a: Assembler, index: nat, data: seq<byte>, m': Fragments, newIdx: nat, rest: seq<byte>)
    requires a.Valid() && Disjoint(m') && SameShape(a.frags, m')
    requires Free(m', newIdx, |rest|)
    requires Denote(m') + Placed(newIdx, rest) == a.Pending() + a.Fresh(index, data)
    ensures Denote(m') == Rewritten(a.Pending(), a.Fresh(index, data))
  {
    hide Represents, Size, Assembler.Fresh, SameShape, Free, Disjoint;
    FreeMisses(m', Denote(m'), newIdx, |rest|);
    SameShapeKeys(a.frags, m');
    var r := Rewritten(a.Pending(), a.Fresh(index, data));
    forall p | p in Denote(m')
      ensures p in r && Denote(m')[p] == r[p]
    {
      assert p !in Placed(newIdx, rest);
      assert (Denote(m') + Placed(newIdx, rest))[p] == Denote(m')[p];
    }
    assert r.Keys == Denote(m').Keys;
  }

  lemma SameShapeKeys(m: Fragments, m': Fragments)
    requires Disjoint(m) && Disjoint(m') && SameShape(m, m')
    ensures Denote(m).Keys == Denote(m').Keys
  {
    forall p | p in Denote(m)
      ensures p in Denote(m')
    {
      var k: nat :| Covers(m, k, p);
      assert Covers(m', k, p);
    }
    forall p | p in Denote(m')
      ensures p in Denote(m)
    {
      var k: nat :| Covers(m', k, p);
      assert Covers(m, k, p);
    }
  }

  lemma NothingToDrain(a: Assembler)
    requires a.Valid() && a.Next() !in a.frags
    ensures DrainSpec(a.out, a.Pending(), a.Limit(), a)
  {
    hide Represents, Size;
    NotWaiting(a);
    assert a.Pending() - Interval(a.Next(), 0) == a.Pending();
  }

  // -- Draining -----------------------------------------------------------------

  /** One string has been offered to the output. */
  ghost predicate DrainOneSpec(a: Assembler, a': Assembler, all: bool)
    requires a.Valid() && a.Next() in a.frags
  {
    var d := a.frags[a.Next()];
    var n := a.out.Accepts(|d|);
    && 0 <= n <= |d|
    && all == (n == |d|)
    && a'.out == a.out.(written := a.out.written + d[..n],
                        ended := a.out.ended || (a.eofSeen && a.eofIdx <= a.Next() + n))
    && a'.frags == TakeFront(a.frags, a.Next(), n)
    && a'.eofSeen == a.eofSeen && a'.eofIdx == a.eofIdx
  }

  /** Between two strings: `a0` is the state before draining, `a` the state so far. */
  ghost predicate DrainLoop(a0: Assembler, a: Assembler)
    requires a0.Valid() && a.Valid()
  {
    && a.out.read == a0.out.read && a.out.capacity == a0.out.capacity
    && a.eofSeen == a0.eofSeen && a.eofIdx == a0.eofIdx
    && a0.Next() in a0.Pending() && a0.Next() <= a.Next()
    && Drained(a0.Pending(), a0.out.written, a.frags, a.out.written)
    && (a.Next() == a0.Next() ==> a.out == a0.out && a.frags == a0.frags)
    && (a.Next() != a0.Next() ==> !a0.out.ended && a0.Next() < a0.Limit())
    && (a.Next() != a0.Next() ==> a.out.ended == (a0.out.ended || (a.eofSeen && a.eofIdx <= a.Next())))
  }

  lemma DrainStart(a: Assembler)
    requires a.Valid() && a.Next() in a.frags
    ensures DrainLoop(a, a)
  {
    hide Represents, Size;
    FrontBytes(a.frags, a.Next());
    assert a.Pending() - Interval(a.Next(), 0) == a.Pending();
  }

  lemma FrontBytes(m: Fragments, k: nat)
    requires Disjoint(m) && k in m
    ensures forall p :: k <= p < k + |m[k]| ==> p in Denote(m) && Denote(m)[p] == m[k][p - k]
  {
    forall p | k <= p < k + |m[k]|
      ensures p in Denote(m) && Denote(m)[p] == m[k][p - k]
    {
      assert Covers(m, k, p);
    }
  }

  lemma DrainedMore(waiting: map<nat, byte>, w: seq<byte>, m: Fragments, w': seq<byte>, n: nat)
    requires Disjoint(m) && Drained(waiting, w, m, w')
    requires |w'| in m && n <= |m[|w'|]|
    ensures Disjoint(TakeFront(m, |w'|, n))
    ensures Drained(waiting, w, TakeFront(m, |w'|, n), w' + m[|w'|][..n])
  {
    hide Represents, Size, Disjoint, IsPlaced;
    var k, w'' := |w'|, w' + m[|w'|][..n];
    DenoteTakeFront(m, k, n);
    assert waiting - Interval(|w|, k - |w|) - Interval(k, n) == waiting - Interval(|w|, k + n - |w|);
    FrontBytes(m, k);
    forall p | |w| <= p < |w''|
      ensures p in waiting && w''[p] == waiting[p]
    {
      if k <= p {
        assert p in Denote(m);
      }
    }
  }

  lemma DrainValid(a: Assembler, n: nat)
    requires a.Valid() && a.Next() in a.frags && n <= |a.frags[a.Next()]|
    ensures var m' := TakeFront(a.frags, a.Next(), n);
            && Disjoint(m')
            && (forall k :: k in m' ==> a.Next() + n <= k && (k < a.Limit() || k == a.Next() + n))
            && (forall k :: k in m' ==> k + |m'[k]| < TWO63)
  {
    assert Disjoint(TakeFront(a.frags, a.Next(), n)) by {
      DenoteTakeFront(a.frags, a.Next(), n);
    }
    assert forall k :: k in a.frags && k != a.Next() ==> a.Next() + |a.frags[a.Next()]| <= k < a.Limit();
  }

  /** However much the output accepts, what results is in order. */
  lemma DrainFits(a: Assembler, a': Assembler, all: bool)
    requires a.Valid() && a.Next() in a.frags && DrainOneSpec(a, a', all)
    ensures a'.Valid()
    ensures Size(Denote(a'.frags)) == Size(Denote(a.frags)) - (a'.Next() - a.Next())
  {
    hide Represents, Size, IsPlaced, Disjoint, TakeFront;
    var n := a.out.Accepts(|a.frags[a.Next()]|);
    DrainValid(a, n);
    DenoteTakeFront(a.frags, a.Next(), n);
  }

  lemma DrainStep(a0: Assembler, a: Assembler, a': Assembler, all: bool)
    requires a0.Valid() && a.Valid() && a'.Valid() && DrainLoop(a0, a)
    requires a.Next() in a.frags
    requires DrainOneSpec(a, a', all)
    ensures all ==> DrainLoop(a0, a') && a'.frags.Keys < a.frags.Keys
    ensures !all ==> DrainSpec(a0.out, a0.Pending(), a0.Limit(), a')
  {
    hide Represents, Size, IsPlaced, Drained;
    DrainedMore(a0.Pending(), a0.out.written, a.frags, a.out.written, a.out.Accepts(|a.frags[a.Next()]|));
  }

  lemma DrainDone(a0: Assembler, a: Assembler)
    requires a0.Valid() && a.Valid() && DrainLoop(a0, a)
    requires a.Next() !in a.frags
    ensures DrainSpec(a0.out, a0.Pending(), a0.Limit(), a)
  {
    hide Represents, Size, IsPlaced, Disjoint;
    NotWaiting(a);
  }

  lemma DrainNothing(o: Stream, waiting: map<nat, byte>, limit: nat, a': Assembler)
    requires a'.Valid() && DrainSpec(o, waiting, limit, a') && |o.written| !in waiting
    ensures a'.out == o
  {
    hide Represents, Size, Disjoint;
    assert a'.out.written == o.written;
  }

  /** A byte at `Next()` can only be held by a string that starts there. */
  lemma NotWaiting(a: Assembler)
    requires a.Valid()
    ensures a.Next() in a.Pending() <==> a.Next() in a.frags
  {
    if a.Next() in a.frags {
      FrontBytes(a.frags, a.Next());
    }
  }

  lemma NothingCovers(m: Fragments, idx: nat)
    requires Disjoint(m)
    requires forall k :: k in m && k < idx ==> k + |m[k]| <= idx
    requires idx !in m
    ensures EndOf(m, idx) == idx
  {
  }

  lemma PlacedNothing(r: map<nat, byte>, idx: nat)
    ensures r + Placed(idx, []) == r
  {
  }

  /** Same keys, and strings of the same lengths. */
  ghost predicate SameShape(m: Fragments, m': Fragments) {
    m.Keys == m'.Keys && forall k :: k in m ==> |m[k]| == |m'[k]|
  }
}
