/** The allocation cache of a span: a 64-bit window on the free slots, from which nextFreeFast takes
    one slot after the other. */
module SpanCache {

  type uint64 = x: nat | x < 0x1_0000_0000_0000_0000

  // ----- bits of a word -----

  function Bit(c: nat, i: nat): bool { if i == 0 then c % 2 == 1 else Bit(c / 2, i - 1) }

  function ShiftRight(c: nat, k: nat): (r: nat)
    ensures r <= c
  {
    if k == 0 then c else ShiftRight(c / 2, k - 1)
  }

  function Pow2(n: nat): nat { if n == 0 then 1 else 2 * Pow2(n - 1) }

  lemma EightMore(n: nat)
    ensures Pow2(n + 8) == 0x100 * Pow2(n)
  {
    assert Pow2(n + 2) == 2 * Pow2(n + 1) && Pow2(n + 4) == 2 * Pow2(n + 3) && Pow2(n + 3) == 2 * Pow2(n + 2);
    assert Pow2(n + 6) == 2 * Pow2(n + 5) && Pow2(n + 5) == 2 * Pow2(n + 4) && Pow2(n + 7) == 2 * Pow2(n + 6);
  }

  lemma Pow2Of64()
    ensures Pow2(64) == 0x1_0000_0000_0000_0000
  {
    EightMore(0);
    EightMore(8);
    EightMore(16);
    EightMore(24);
    EightMore(32);
    EightMore(40);
    EightMore(48);
    EightMore(56);
  }

  lemma {:induction false} ShiftedBit(c: nat, k: nat, i: nat)
    ensures Bit(ShiftRight(c, k), i) == Bit(c, k + i)
  {
    if k > 0 {
      ShiftedBit(c / 2, k - 1, i);
    }
  }

  lemma {:induction false} SmallBits(c: nat, n: nat, i: nat)
    requires c < Pow2(n) && i >= n
    ensures !Bit(c, i)
  {
    if i > 0 {
      SmallBits(c / 2, if n == 0 then 0 else n - 1, i - 1);
    }
  }

  /** Ctz64: the lowest bit that is set, or 64. */
  method TrailingZeros(c: uint64) returns (n: nat)
    ensures n <= 64 && forall i | 0 <= i < n :: !Bit(c, i)
    ensures n < 64 ==> Bit(c, n)
  {
    n := 0;
    var rest: nat := c;
    while n < 64 && rest % 2 == 0
      invariant n <= 64 && forall i | 0 <= i < n :: !Bit(c, i)
      invariant rest == ShiftRight(c, n)
    {
      ShiftedBit(c, n, 0);
      ShiftedBit(c, n, 1);
      ShiftNext(c, n);
      rest := rest / 2;
      n := n + 1;
    }
    ShiftedBit(c, n, 0);
  }

  lemma {:induction false} ShiftNext(c: nat, k: nat)
    ensures ShiftRight(c, k + 1) == ShiftRight(c, k) / 2
  {
    if k > 0 {
      ShiftNext(c / 2, k - 1);
    }
  }

  // ----- the span -----

  /** The free slots from a up to b, in increasing order. */
  ghost function FreeSlots(taken: set<nat>, a: nat, b: int): seq<nat>
    decreases b - a
  {
    if a >= b then [] else (if a in taken then [] else [a]) + FreeSlots(taken, a + 1, b)
  }

  lemma {:induction false} SkipTaken(taken: set<nat>, a: nat, m: nat, b: int)
    requires a <= m <= b && forall j | a <= j < m :: j in taken
    ensures FreeSlots(taken, a, b) == FreeSlots(taken, m, b)
    decreases m - a
  {
    if a < m {
      SkipTaken(taken, a + 1, m, b);
    }
  }

  /** FreeSlots are exactly the free ones, each once. */
  lemma {:induction false} FreeSlotsMember(taken: set<nat>, a: nat, b: int, j: nat)
    ensures j in FreeSlots(taken, a, b) <==> a <= j < b && j !in taken
    decreases b - a
  {
    if a < b {
      FreeSlotsMember(taken, a + 1, b, j);
      var rest := FreeSlots(taken, a + 1, b);
      assert a !in taken ==> (j in [a] + rest <==> j == a || j in rest);
    }
  }

  lemma {:induction false} FreeSlotsIncrease(taken: set<nat>, a: nat, b: int, i: nat, k: nat)
    requires i < k < |FreeSlots(taken, a, b)|
    ensures FreeSlots(taken, a, b)[i] < FreeSlots(taken, a, b)[k]
    decreases b - a
  {
    var rest := FreeSlots(taken, a + 1, b);
    if a in taken {
      FreeSlotsIncrease(taken, a + 1, b, i, k);
    } else if i > 0 {
      FreeSlotsIncrease(taken, a + 1, b, i - 1, k - 1);
    } else {
      assert rest[k - 1] in rest;
      FreeSlotsMember(taken, a + 1, b, rest[k - 1]);
    }
  }

  /** Bit i of a word says whether slot from+i of a block that ends at limit is free - also past the last
      slot of the span. */
  ghost predicate Window(c: uint64, from: nat, limit: nat, taken: set<nat>) {
    forall i | 0 <= i < 64 :: Bit(c, i) <==> from + i < limit && from + i !in taken
  }

  class Span {
    const base: nat
    const elemSize: nat
    const slots: nat
    var freeIndex: nat
    var allocCache: uint64
    var allocCount: nat
    ghost var taken: set<nat>   // what the allocation bits of the span mark
    ghost var limit: nat        // the end of the block the cache was filled from

    ghost predicate Valid()
      reads this
    {
      && base > 0 && elemSize > 0 && freeIndex <= slots
      && limit % 64 == 0 && freeIndex <= limit <= freeIndex + 64
      && Window(allocCache, freeIndex, limit, taken)
    }

    /** The slot at which the fast path gives up: the last of a block stays for the refill, unless it is
        the last of the span. */
    ghost function RefillPoint(): int
      reads this
    {
      if limit < slots then limit - 1 else slots
    }

    /** cacheSpan: the cache, just filled from the block of freeIndex, is shifted to start there. */
    method AlignCache()
      requires base > 0 && elemSize > 0 && freeIndex <= slots
      requires forall i | 0 <= i < 64 :: Bit(allocCache, i) <==> freeIndex / 64 * 64 + i !in taken
      modifies this`allocCache, this`limit
      ensures Valid() && limit == freeIndex / 64 * 64 + 64
    {
      var k := freeIndex % 64;
      Pow2Of64();
      forall i | 0 <= i < 64
        ensures Bit(ShiftRight(allocCache, k), i) <==>
                freeIndex + i < freeIndex / 64 * 64 + 64 && freeIndex + i !in taken
      {
        ShiftedBit(allocCache, k, i);
        if k + i >= 64 {
          SmallBits(allocCache, 64, k + i);
        }
      }
      allocCache := ShiftRight(allocCache, k);
      limit := freeIndex / 64 * 64 + 64;
    }

    /** nextFreeFast: the next free slot before the refill point, or 0 and nothing changed. */
    method NextFreeFast() returns (v: nat)
      requires Valid()
      modifies this`freeIndex, this`allocCache, this`allocCount
      ensures Valid()
      ensures v == 0 <==> FreeSlots(taken, old(freeIndex), RefillPoint()) == []
      ensures v == 0 ==> freeIndex == old(freeIndex) && allocCache == old(allocCache) && allocCount == old(allocCount)
      ensures v != 0 ==>
                var free := FreeSlots(taken, old(freeIndex), RefillPoint());
                && v == base + free[0] * elemSize && freeIndex == free[0] + 1 && allocCount == old(allocCount) + 1
                && free[1..] == FreeSlots(taken, freeIndex, RefillPoint())
    {
      hide Bit, ShiftRight, Window, FreeSlots;
      v := 0;
      var theBit := TrailingZeros(allocCache);
      if theBit < 64 {
        NextFree(theBit);
        Found(theBit);
        var result := freeIndex + theBit;
        if result < slots {
          var next := result + 1;
          BlockEnds(next);
          if next % 64 == 0 && next != slots {
            return;
          }
          Taking(theBit);
          allocCache := ShiftRight(allocCache, theBit + 1);
          freeIndex := next;
          allocCount := allocCount + 1;
          v := result * elemSize + base;
        }
      } else {
        NoneFree();
      }
    }

    /** Within the block only its end is a multiple of 64. */
    lemma BlockEnds(next: nat)
      requires Valid() && freeIndex < next <= limit
      ensures next % 64 == 0 <==> next == limit
    {}

    /** The slots before the one at bit n are taken; it is free, and next unless the refill takes it. */
    lemma NextFree(n: nat)
      requires Valid() && n < 64 && Bit(allocCache, n) && forall i | 0 <= i < n :: !Bit(allocCache, i)
      ensures var j, free := freeIndex + n, FreeSlots(taken, freeIndex, RefillPoint());
              if j < RefillPoint() then free == [j] + FreeSlots(taken, j + 1, RefillPoint()) else free == []
    {
      hide Bit;
      Found(n);
      Skipped(n);
      var j := freeIndex + n;
      if j < RefillPoint() {
        SkipTaken(taken, freeIndex, j, RefillPoint());
      } else if freeIndex <= RefillPoint() {
        SkipTaken(taken, freeIndex, RefillPoint(), RefillPoint());
      }
    }

    lemma NoneFree()
      requires Valid() && forall i | 0 <= i < 64 :: !Bit(allocCache, i)
      ensures FreeSlots(taken, freeIndex, RefillPoint()) == []
    {
      hide Bit;
      Skipped(64);
      if freeIndex <= RefillPoint() {
        SkipTaken(taken, freeIndex, RefillPoint(), RefillPoint());
      }
    }

    lemma Skipped(n: nat)
      requires Valid() && n <= 64 && forall i | 0 <= i < n :: !Bit(allocCache, i)
      ensures forall j | freeIndex <= j < freeIndex + n && j < limit :: j in taken
    {
      forall j | freeIndex <= j < freeIndex + n && j < limit ensures j in taken {
        assert !Bit(allocCache, j - freeIndex);
      }
    }

    lemma Found(n: nat)
      requires Valid() && n < 64 && Bit(allocCache, n)
      ensures freeIndex + n < limit && freeIndex + n !in taken
    {}

    lemma Taking(n: nat)
      requires Valid() && n < 64
      ensures Window(ShiftRight(allocCache, n + 1), freeIndex + n + 1, limit, taken)
    {
      Pow2Of64();
      var c: uint64, from := ShiftRight(allocCache, n + 1), freeIndex + n + 1;
      forall i | 0 <= i < 64 ensures Bit(c, i) <==> from + i < limit && from + i !in taken {
        ShiftedBit(allocCache, n + 1, i);
        if n + 1 + i >= 64 {
          SmallBits(allocCache, 64, n + 1 + i);
        }
      }
    }
  }

  /** Slots do not overlap. */
  lemma SlotsApart(size: nat, i: nat, k: nat)
    requires i < k
    ensures i * size + size <= k * size
  {
    assert (i + 1) * size <= k * size;
  }

  /** Repeated until it gives up, the fast path yields the addresses of all free slots up to the refill
      point, in increasing order and each once. */
  method Drain(s: Span) returns (vs: seq<nat>)
    requires s.Valid()
    modifies s`freeIndex, s`allocCache, s`allocCount
    ensures s.Valid() && s.allocCount == old(s.allocCount) + |vs|
    ensures var free := FreeSlots(s.taken, old(s.freeIndex), s.RefillPoint());
            |vs| == |free| && forall i | 0 <= i < |vs| :: vs[i] == s.base + free[i] * s.elemSize
    ensures forall i, k | 0 <= i < k < |vs| :: vs[i] + s.elemSize <= vs[k]
    ensures forall v | v in vs :: v + s.elemSize <= s.base + s.slots * s.elemSize
    ensures FreeSlots(s.taken, s.freeIndex, s.RefillPoint()) == []
  {
    vs := [];
    ghost var free := FreeSlots(s.taken, s.freeIndex, s.RefillPoint());
    while true
      invariant s.Valid() && s.allocCount == old(s.allocCount) + |vs|
      invariant |vs| <= |free| && forall i | 0 <= i < |vs| :: vs[i] == s.base + free[i] * s.elemSize
      invariant free[|vs|..] == FreeSlots(s.taken, s.freeIndex, s.RefillPoint())
      decreases |free| - |vs|
    {
      var v := s.NextFreeFast();
      if v == 0 {
        forall i, k | 0 <= i < k < |vs| ensures vs[i] + s.elemSize <= vs[k] {
          FreeSlotsIncrease(s.taken, old(s.freeIndex), s.RefillPoint(), i, k);
          SlotsApart(s.elemSize, free[i], free[k]);
        }
        forall i | 0 <= i < |vs| ensures vs[i] + s.elemSize <= s.base + s.slots * s.elemSize {
          FreeSlotsMember(s.taken, old(s.freeIndex), s.RefillPoint(), free[i]);
          SlotsApart(s.elemSize, free[i], s.slots);
        }
        return;
      }
      vs := vs + [v];
      assert free[|vs| - 1..][0] == free[|vs| - 1] && free[|vs| - 1..][1..] == free[|vs|..];
    }
  }
}
