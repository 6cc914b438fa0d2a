/** malloc(), free() and realloc() (memalloc/README.org, sections 7.1.2 to 7.1.4).

    The heap runs from a fixed start to the program break and is cut into
    blocks, each with its length stored in front of the bytes handed out.  Free
    blocks are recycled, split and coalesced; the break is raised in whole pages
    and lowered when enough memory at the top is free. */
module Heap {
  import opened Basics

  type Addr = int

  const NULL: Addr := 0

  /** Bytes in front of a block for its length, kept to the alignment. */
  const HEADER := 16

  /** The unit in which block sizes are counted, in bytes: room for the length
      and the two links of a block on the free list. */
  const UNIT := 32

  /** Units in a page of 4096 bytes. */
  const PAGE := 128

  /** Units of top-end free memory at which free() lowers the break (128 kB). */
  const TRIM := 4096

  datatype Block = Block(units: nat, free: bool) {
    function Bytes(): nat { UNIT * units }
  }

  /** `blocks` maps the address of each block to its size and state; `limit` is
      how far the break can be raised. */
  datatype Heap = Heap(start: Addr, brk: Addr, limit: Addr, blocks: map<Addr, Block>, mem: seq<Byte>) {
    predicate IsFree(a: Addr) { a in blocks && blocks[a].free }

    predicate IsLive(a: Addr) { a in blocks && !blocks[a].free }

    function End(a: Addr): Addr
      requires a in blocks
    {
      a + blocks[a].Bytes()
    }
  }

  /** The size in units of the block that serves a request for `n` bytes. */
  function Need(n: nat): nat { (HEADER + n + UNIT - 1) / UNIT }

  /** The size rounded up to whole pages. */
  function Pages(units: nat): nat { (units + PAGE - 1) / PAGE * PAGE }

  lemma Rounding(n: nat)
    ensures 0 < Need(n) && HEADER + n <= UNIT * Need(n) < HEADER + n + UNIT
    ensures n <= Pages(n) < n + PAGE
  {}

  // ----- The invariant -----

  ghost predicate InRange(h: Heap) {
    && 0 < h.start <= h.brk <= h.limit
    && |h.mem| == h.limit
    && forall a :: a in h.blocks ==> h.start <= a && 0 < h.blocks[a].units && h.End(a) <= h.brk
  }

  ghost predicate Disjoint(h: Heap) {
    forall a, b :: a in h.blocks && b in h.blocks && a < b ==> h.End(a) <= b
  }

  /** Where a block ends the next one begins, up to the break. */
  ghost predicate HasNext(h: Heap, a: Addr) {
    a in h.blocks ==> h.End(a) == h.brk || h.End(a) in h.blocks
  }

  ghost predicate Gapless(h: Heap) {
    && (h.start == h.brk || h.start in h.blocks)
    && forall a {:trigger HasNext(h, a)} :: HasNext(h, a)
  }

  /** No free block is followed by another. */
  ghost predicate NotFollowedByFree(h: Heap, a: Addr) {
    h.IsFree(a) ==> !h.IsFree(h.End(a))
  }

  ghost predicate Coalesced(h: Heap) {
    forall a {:trigger NotFollowedByFree(h, a)} :: NotFollowedByFree(h, a)
  }

  /** The free block at the top end is not large enough to be given back. */
  ghost predicate Trimmed(h: Heap) {
    forall a :: h.IsFree(a) && h.End(a) == h.brk ==> h.blocks[a].units < TRIM
  }

  ghost predicate Tiled(h: Heap) { InRange(h) && Disjoint(h) && Gapless(h) }

  ghost predicate Valid(h: Heap) { Tiled(h) && Coalesced(h) && Trimmed(h) }

  /** The blocks partition the heap: every address between start and break is
      in one of them, and in no other. */
  lemma EveryAddressInOneBlock(h: Heap, x: Addr)
    requires Tiled(h) && h.start <= x < h.brk
    ensures exists a :: a in h.blocks && a <= x < h.End(a)
    ensures forall a, b :: a in h.blocks && b in h.blocks && a <= x < h.End(a) && b <= x < h.End(b) ==> a == b
  {
    BlockFrom(h, h.start, x);
  }

  lemma {:induction false} BlockFrom(h: Heap, from: Addr, x: Addr)
    requires Tiled(h) && from in h.blocks && from <= x < h.brk
    ensures exists a :: a in h.blocks && a <= x < h.End(a)
    decreases x - from
  {
    assert HasNext(h, from);
    if x >= h.End(from) {
      BlockFrom(h, h.End(from), x);
    }
  }

  // ----- Recutting a stretch of the heap -----

  /** Replace the blocks from `lo` to `hi` by one of `s1` units and, behind it, a
      free one of `s2` units; either may be absent.  At the top end of the heap
      the break moves to where they end. */
  function Recut(h: Heap, lo: Addr, hi: Addr, s1: nat, free1: bool, s2: nat): Heap {
    var rest := map a | a in h.blocks && !(lo <= a < hi) :: h.blocks[a];
    var one := if s1 == 0 then rest else rest[lo := Block(s1, free1)];
    h.(brk := if hi == h.brk then lo + UNIT * (s1 + s2) else h.brk,
       blocks := if s2 == 0 then one else one[lo + UNIT * s1 := Block(s2, true)])
  }

  ghost predicate Boundary(h: Heap, x: Addr) { x == h.brk || x in h.blocks }

  ghost predicate CanRecut(h: Heap, lo: Addr, hi: Addr, s1: nat, s2: nat) {
    && Tiled(h) && lo <= hi && Boundary(h, lo) && Boundary(h, hi)
    && (s2 > 0 ==> s1 > 0)
    && (if hi == h.brk then lo + UNIT * (s1 + s2) <= h.limit else lo + UNIT * (s1 + s2) == hi)
  }

  /** Blocks that start before a boundary end before it. */
  lemma EndsBefore(h: Heap, a: Addr, x: Addr)
    requires Tiled(h) && a in h.blocks && Boundary(h, x) && a < x
    ensures h.End(a) <= x
  {}

  /** Which blocks there are afterwards. */
  lemma RecutBlock(h: Heap, lo: Addr, hi: Addr, s1: nat, free1: bool, s2: nat, x: Addr)
    requires s2 > 0 ==> s1 > 0
    ensures var b := Recut(h, lo, hi, s1, free1, s2).blocks;
            if s2 > 0 && x == lo + UNIT * s1 then x in b && b[x] == Block(s2, true)
            else if s1 > 0 && x == lo then x in b && b[x] == Block(s1, free1)
            else if x in h.blocks && !(lo <= x < hi) then x in b && b[x] == h.blocks[x]
            else x !in b
  {}

  lemma RecutInRange(h: Heap, lo: Addr, hi: Addr, s1: nat, free1: bool, s2: nat)
    requires CanRecut(h, lo, hi, s1, s2)
    ensures InRange(Recut(h, lo, hi, s1, free1, s2))
  {
    var h' := Recut(h, lo, hi, s1, free1, s2);
    forall a | a in h'.blocks ensures h'.start <= a && 0 < h'.blocks[a].units && h'.End(a) <= h'.brk {
      RecutBlock(h, lo, hi, s1, free1, s2, a);
      if a < lo { EndsBefore(h, a, lo); }
    }
  }

  lemma RecutDisjoint(h: Heap, lo: Addr, hi: Addr, s1: nat, free1: bool, s2: nat)
    requires CanRecut(h, lo, hi, s1, s2)
    ensures Disjoint(Recut(h, lo, hi, s1, free1, s2))
  {
    var h' := Recut(h, lo, hi, s1, free1, s2);
    forall a, b | a in h'.blocks && b in h'.blocks && a < b ensures h'.End(a) <= b {
      RecutBlock(h, lo, hi, s1, free1, s2, a);
      RecutBlock(h, lo, hi, s1, free1, s2, b);
      if a < lo && lo <= b { EndsBefore(h, a, lo); }
    }
  }

  lemma RecutHasNext(h: Heap, lo: Addr, hi: Addr, s1: nat, free1: bool, s2: nat, a: Addr)
    requires CanRecut(h, lo, hi, s1, s2)
    ensures HasNext(Recut(h, lo, hi, s1, free1, s2), a)
  {
    var h' := Recut(h, lo, hi, s1, free1, s2);
    RecutBlock(h, lo, hi, s1, free1, s2, a);
    if a in h'.blocks {
      RecutBlock(h, lo, hi, s1, free1, s2, h'.End(a));
      if a in h.blocks && !(lo <= a < hi) {
        assert HasNext(h, a);
        if a < lo { EndsBefore(h, a, lo); }
      }
    }
  }

  /** The recut heap is tiled again. */
  lemma RecutKeepsTiled(h: Heap, lo: Addr, hi: Addr, s1: nat, free1: bool, s2: nat)
    requires CanRecut(h, lo, hi, s1, s2)
    ensures Tiled(Recut(h, lo, hi, s1, free1, s2))
  {
    RecutInRange(h, lo, hi, s1, free1, s2);
    RecutDisjoint(h, lo, hi, s1, free1, s2);
    forall a ensures HasNext(Recut(h, lo, hi, s1, free1, s2), a) {
      RecutHasNext(h, lo, hi, s1, free1, s2, a);
    }
  }

  ghost predicate NoFreeBefore(h: Heap, x: Addr) {
    forall b :: h.IsFree(b) ==> h.End(b) != x
  }

  /** The new pieces touch no free block, and are not too large for the top. */
  ghost predicate FitsIn(h: Heap, lo: Addr, hi: Addr, s1: nat, free1: bool, s2: nat) {
    && (free1 || s1 == 0 ==> s2 == 0 && NoFreeBefore(h, lo))
    && (free1 || s2 > 0 ==> !h.IsFree(hi))
    && (hi == h.brk ==> s2 < TRIM && (free1 ==> s1 < TRIM))
  }

  lemma RecutCoalesced(h: Heap, lo: Addr, hi: Addr, s1: nat, free1: bool, s2: nat, a: Addr)
    requires Valid(h) && CanRecut(h, lo, hi, s1, s2) && FitsIn(h, lo, hi, s1, free1, s2)
    ensures NotFollowedByFree(Recut(h, lo, hi, s1, free1, s2), a)
  {
    var h' := Recut(h, lo, hi, s1, free1, s2);
    RecutBlock(h, lo, hi, s1, free1, s2, a);
    if h'.IsFree(a) {
      RecutBlock(h, lo, hi, s1, free1, s2, h'.End(a));
      if a in h.blocks && !(lo <= a < hi) {
        assert NotFollowedByFree(h, a);
        if a < lo { EndsBefore(h, a, lo); }
      }
    }
  }

  lemma RecutTrimmed(h: Heap, lo: Addr, hi: Addr, s1: nat, free1: bool, s2: nat)
    requires Valid(h) && CanRecut(h, lo, hi, s1, s2) && FitsIn(h, lo, hi, s1, free1, s2)
    ensures Trimmed(Recut(h, lo, hi, s1, free1, s2))
  {}

  lemma RecutKeepsValid(h: Heap, lo: Addr, hi: Addr, s1: nat, free1: bool, s2: nat, h': Heap)
    requires Valid(h) && CanRecut(h, lo, hi, s1, s2) && FitsIn(h, lo, hi, s1, free1, s2)
    requires h' == Recut(h, lo, hi, s1, free1, s2)
    ensures Valid(h')
  {
    RecutKeepsTiled(h, lo, hi, s1, free1, s2);
    RecutTrimmed(h, lo, hi, s1, free1, s2);
    forall a ensures NotFollowedByFree(Recut(h, lo, hi, s1, free1, s2), a) {
      RecutCoalesced(h, lo, hi, s1, free1, s2, a);
    }
  }

  // ----- malloc -----

  ghost predicate Fits(h: Heap, a: Addr, need: nat) { h.IsFree(a) && h.blocks[a].units >= need }

  /** Hand out a free block, leaving what is too much as a smaller free block. */
  function Take(h: Heap, a: Addr, need: nat): Heap
    requires a in h.blocks && h.blocks[a].units >= need
  {
    Recut(h, a, h.End(a), need, false, h.blocks[a].units - need)
  }

  /** Raise the break by whole pages; the excess becomes a free block. */
  function Grow(h: Heap, need: nat): Heap {
    Rounding(need);
    Recut(h, h.brk, h.brk, need, false, Pages(need) - need)
  }

  /** What malloc(n) may do, whichever free block its scan settles on. */
  ghost predicate Malloc(h: Heap, n: nat, h': Heap, p: Addr) {
    var need := Need(n);
    if exists a :: Fits(h, a, need) then
      Fits(h, p - HEADER, need) && h' == Take(h, p - HEADER, need)
    else if h.brk + UNIT * Pages(need) <= h.limit then p == h.brk + HEADER && h' == Grow(h, need)
    else p == NULL && h' == h
  }

  lemma CanTake(h: Heap, a: Addr, need: nat)
    requires Valid(h) && Fits(h, a, need) && need > 0
    ensures CanRecut(h, a, h.End(a), need, h.blocks[a].units - need)
    ensures FitsIn(h, a, h.End(a), need, false, h.blocks[a].units - need)
  {
    assert HasNext(h, a) && NotFollowedByFree(h, a);
  }

  lemma TakeKeepsValid(h: Heap, a: Addr, need: nat)
    requires Valid(h) && Fits(h, a, need) && need > 0
    ensures Valid(Take(h, a, need))
  {
    CanTake(h, a, need);
    RecutKeepsValid(h, a, h.End(a), need, false, h.blocks[a].units - need, Take(h, a, need));
  }

  lemma GrowKeepsValid(h: Heap, need: nat)
    requires Valid(h) && need > 0 && h.brk + UNIT * Pages(need) <= h.limit
    ensures Valid(Grow(h, need))
  {
    Rounding(need);
    RecutKeepsValid(h, h.brk, h.brk, need, false, Pages(need) - need, Grow(h, need));
  }

  lemma MallocKeepsValid(h: Heap, n: nat, h': Heap, p: Addr)
    requires Valid(h) && Malloc(h, n, h', p)
    ensures Valid(h')
  {
    Rounding(n);
    if exists a :: Fits(h, a, Need(n)) {
      TakeKeepsValid(h, p - HEADER, Need(n));
    } else if h.brk + UNIT * Pages(Need(n)) <= h.limit {
      GrowKeepsValid(h, Need(n));
    }
  }

  // ----- free -----

  /** Where the free stretch around a block being freed begins: at a free block
      that ends where this one starts, if there is one. */
  ghost function FreeFrom(h: Heap, a: Addr): (lo: Addr)
    ensures lo <= a
  {
    if b :| h.IsFree(b) && h.End(b) == a then b else a
  }

  function FreeTo(h: Heap, a: Addr): (hi: Addr)
    requires a in h.blocks
    ensures a <= hi
  {
    if h.IsFree(h.End(a)) then h.End(h.End(a)) else h.End(a)
  }

  /** What is left of a free stretch: of enough free memory at the top end,
      whole pages are given back. */
  function Remains(lo: Addr, hi: Addr, brk: Addr): nat
    requires lo <= hi
  {
    var total := (hi - lo) / UNIT;
    if hi == brk && total >= TRIM then total % PAGE else total
  }

  /** Coalesce the block with its free neighbours, and lower the break if the
      free memory at the top end is large enough. */
  ghost function Release(h: Heap, a: Addr): Heap
    requires a in h.blocks
  {
    var lo, hi := FreeFrom(h, a), FreeTo(h, a);
    Recut(h, lo, hi, Remains(lo, hi, h.brk), true, 0)
  }

  ghost function Free(h: Heap, p: Addr): Heap
    requires p != NULL ==> h.IsLive(p - HEADER)
  {
    if p == NULL then h else Release(h, p - HEADER)
  }

  /** The stretch is bounded by blocks in use and holds nothing but the block
      and its free neighbours. */
  lemma FreeStretch(h: Heap, a: Addr)
    requires Valid(h) && h.IsLive(a)
    ensures var lo, hi := FreeFrom(h, a), FreeTo(h, a);
            && h.start <= lo <= a < h.End(a) <= hi <= h.brk
            && Boundary(h, lo) && Boundary(h, hi) && (hi - lo) % UNIT == 0
            && NoFreeBefore(h, lo) && !h.IsFree(hi)
            && forall x :: h.IsLive(x) && lo <= x < hi ==> x == a
  {
    var lo, next := FreeFrom(h, a), h.End(a);
    assert HasNext(h, a) && HasNext(h, next) && NotFollowedByFree(h, next);
    forall b | h.IsFree(b) ensures h.End(b) != lo {
      assert NotFollowedByFree(h, b);
    }
  }

  lemma CanRelease(h: Heap, a: Addr)
    requires Valid(h) && h.IsLive(a)
    ensures var lo, hi := FreeFrom(h, a), FreeTo(h, a);
            var s1 := Remains(lo, hi, h.brk);
            lo < hi && CanRecut(h, lo, hi, s1, 0) && FitsIn(h, lo, hi, s1, true, 0)
  {
    FreeStretch(h, a);
  }

  lemma ReleaseKeepsValid(h: Heap, a: Addr)
    requires Valid(h) && h.IsLive(a)
    ensures Valid(Release(h, a))
  {
    var lo, hi := FreeFrom(h, a), FreeTo(h, a);
    CanRelease(h, a);
    RecutKeepsValid(h, lo, hi, Remains(lo, hi, h.brk), true, 0, Release(h, a));
  }

  /** free() ends the life of one block and touches no other. */
  lemma ReleaseLive(h: Heap, a: Addr, x: Addr)
    requires Valid(h) && h.IsLive(a)
    ensures var h' := Release(h, a);
            && (h'.IsLive(x) <==> h.IsLive(x) && x != a)
            && (h'.IsLive(x) ==> h'.blocks[x] == h.blocks[x])
            && h'.mem == h.mem
  {}

  // ----- Properties of malloc and free -----

  /** malloc() starts the life of one block, large enough and nobody else's. */
  lemma MallocLive(h: Heap, n: nat, h': Heap, p: Addr, x: Addr)
    requires Valid(h) && Malloc(h, n, h', p)
    ensures p == NULL ==> h' == h
    ensures p != NULL ==>
              && h'.IsLive(p - HEADER) && !h.IsLive(p - HEADER)
              && HEADER + n <= h'.blocks[p - HEADER].Bytes()
              && (x != p - HEADER ==> (h'.IsLive(x) <==> h.IsLive(x)))
              && (h.IsLive(x) ==> h'.blocks[x] == h.blocks[x])
              && h'.mem == h.mem
  {
    Rounding(n);
    var need := Need(n);
    if exists a :: Fits(h, a, need) {
      var a := p - HEADER;
      RecutBlock(h, a, h.End(a), need, false, h.blocks[a].units - need, x);
      RecutBlock(h, a, h.End(a), need, false, h.blocks[a].units - need, a);
    } else if h.brk + UNIT * Pages(need) <= h.limit {
      Rounding(need);
      RecutBlock(h, h.brk, h.brk, need, false, Pages(need) - need, x);
      RecutBlock(h, h.brk, h.brk, need, false, Pages(need) - need, h.brk);
    }
  }

  /** Behind a taken block the stretch that was free is free again. */
  lemma TakenEnd(h: Heap, a: Addr, need: nat, h': Heap)
    requires Valid(h) && Fits(h, a, need) && need > 0 && h' == Take(h, a, need)
    ensures h'.IsLive(a) && h'.blocks[a].units == need && FreeTo(h', a) == h.End(a)
  {
    var hi, rest := h.End(a), h.blocks[a].units - need;
    RecutBlock(h, a, hi, need, false, rest, a);
    RecutBlock(h, a, hi, need, false, rest, a + UNIT * need);
    assert NotFollowedByFree(h, a);
  }

  lemma TakenStart(h: Heap, a: Addr, need: nat, h': Heap)
    requires Valid(h) && Fits(h, a, need) && need > 0 && h' == Take(h, a, need)
    ensures FreeFrom(h', a) == a
  {
    forall b | h'.IsFree(b) ensures h'.End(b) != a {
      RecutBlock(h, a, h.End(a), need, false, h.blocks[a].units - need, b);
      assert NotFollowedByFree(h, b);
    }
  }

  lemma RecutBack(h: Heap, a: Addr, need: nat, h': Heap)
    requires Valid(h) && Fits(h, a, need) && need > 0 && h' == Take(h, a, need)
    ensures Recut(h', a, h.End(a), h.blocks[a].units, true, 0) == h
  {}

  /** A malloc() served from the free list followed by free() restores the heap,
      block for block. */
  lemma MallocThenFreeRestores(h: Heap, n: nat, h': Heap, p: Addr)
    requires Valid(h) && Malloc(h, n, h', p)
    requires exists a :: Fits(h, a, Need(n))
    ensures h'.IsLive(p - HEADER) && Free(h', p) == h
  {
    Rounding(n);
    var a, need := p - HEADER, Need(n);
    TakenEnd(h, a, need, h');
    TakenStart(h, a, need, h');
    TakenThenReleased(h, a, h');
    RecutBack(h, a, need, h');
  }

  lemma TakenThenReleased(h: Heap, a: Addr, h': Heap)
    requires h.IsFree(a) && a in h'.blocks && h'.brk == h.brk
    requires h.End(a) == h.brk ==> h.blocks[a].units < TRIM
    requires FreeFrom(h', a) == a && FreeTo(h', a) == h.End(a)
    ensures Release(h', a) == Recut(h', a, h.End(a), h.blocks[a].units, true, 0)
  {}

  /** Free the blocks one after the other. */
  ghost function FreeEach(h: Heap, order: seq<Addr>): Heap {
    if order == [] then h
    else
      var before := FreeEach(h, order[..|order| - 1]);
      if before.IsLive(order[|order| - 1]) then Release(before, order[|order| - 1]) else before
  }

  lemma {:induction false} FreeEachLive(h: Heap, order: seq<Addr>)
    requires Valid(h)
    ensures Valid(FreeEach(h, order))
    ensures forall x :: FreeEach(h, order).IsLive(x) <==> h.IsLive(x) && x !in order
  {
    if order != [] {
      var front, a := order[..|order| - 1], order[|order| - 1];
      var before := FreeEach(h, front);
      FreeEachLive(h, front);
      assert order == front + [a];
      if before.IsLive(a) {
        ReleaseKeepsValid(before, a);
        forall x ensures Release(before, a).IsLive(x) <==> before.IsLive(x) && x != a {
          ReleaseLive(before, a, x);
        }
      }
    }
  }

  /** Freeing every live block, in whatever order, leaves at most one block,
      and that smaller than what would have been given back. */
  lemma FreeingAllLeavesOne(h: Heap, order: seq<Addr>)
    requires Valid(h) && forall a :: h.IsLive(a) ==> a in order
    ensures var h' := FreeEach(h, order);
            && (forall a, b :: a in h'.blocks && b in h'.blocks ==> a == b)
            && h'.brk - h'.start < UNIT * TRIM
  {
    var h' := FreeEach(h, order);
    FreeEachLive(h, order);
    forall a | a in h'.blocks ensures h'.End(a) == h'.brk {
      assert HasNext(h', a) && NotFollowedByFree(h', a);
      assert !h'.IsLive(a) && !h'.IsLive(h'.End(a));
    }
    assert h'.start < h'.brk ==> !h'.IsLive(h'.start) && h'.IsFree(h'.start);
  }

  // ----- realloc -----

  ghost predicate CanAbsorb(h: Heap, a: Addr, need: nat) {
    && h.IsLive(a) && h.blocks[a].units < need && h.IsFree(h.End(a))
    && h.blocks[a].units + h.blocks[h.End(a)].units >= need
  }

  /** Take what is missing from the free block behind. */
  function Absorb(h: Heap, a: Addr, need: nat): Heap
    requires a in h.blocks && h.IsFree(h.End(a))
    requires h.blocks[a].units + h.blocks[h.End(a)].units >= need
  {
    Recut(h, a, h.End(h.End(a)), need, false, h.blocks[a].units + h.blocks[h.End(a)].units - need)
  }

  /** Raise the break behind the last block. */
  function Extend(h: Heap, a: Addr, need: nat): Heap
    requires a in h.blocks && h.blocks[a].units < need
  {
    Rounding(need - h.blocks[a].units);
    Recut(h, a, h.End(a), need, false, h.blocks[a].units + Pages(need - h.blocks[a].units) - need)
  }

  /** Copy `len` bytes from one place to another. */
  function Copy(mem: seq<Byte>, from: Addr, to: Addr, len: nat): seq<Byte> {
    if 0 <= from <= from + len <= |mem| && 0 <= to <= to + len <= |mem| then
      mem[..to] + mem[from..from + len] + mem[to + len..]
    else mem
  }

  /** The bytes of a block that its owner may use. */
  function Usable(h: Heap, a: Addr): nat
    requires a in h.blocks
  {
    if h.blocks[a].Bytes() < HEADER then 0 else h.blocks[a].Bytes() - HEADER
  }

  /** The contents of block `a` are copied to `r` and the block is freed. */
  ghost function Relocated(h1: Heap, a: Addr, r: Addr): Heap
    requires a in h1.blocks
  {
    Release(h1.(mem := Copy(h1.mem, a + HEADER, r, Usable(h1, a))), a)
  }

  /** A new block is found by malloc() and takes the place of block `a`. */
  ghost predicate Relocate(h: Heap, a: Addr, n: nat, h': Heap, r: Addr) {
    exists h1 :: Malloc(h, n, h1, r)
                 && if r == NULL then h' == h else a in h1.blocks && h' == Relocated(h1, a, r)
  }

  /** realloc(p, n) for a live block and a size other than 0. */
  ghost predicate Resize(h: Heap, p: Addr, n: nat, h': Heap, r: Addr)
    requires h.IsLive(p - HEADER)
  {
    var a, need := p - HEADER, Need(n);
    if need <= h.blocks[a].units then h' == h && r == p
    else if CanAbsorb(h, a, need) then h' == Absorb(h, a, need) && r == p
    else if h.End(a) == h.brk then
      if h.brk + UNIT * Pages(need - h.blocks[a].units) <= h.limit then h' == Extend(h, a, need) && r == p
      else h' == h && r == NULL
    else Relocate(h, a, n, h', r)
  }

  ghost predicate Realloc(h: Heap, p: Addr, n: nat, h': Heap, r: Addr)
    requires p != NULL ==> h.IsLive(p - HEADER)
  {
    if p == NULL then Malloc(h, n, h', r)
    else if n == 0 then Malloc(Free(h, p), 0, h', r)
    else Resize(h, p, n, h', r)
  }

  lemma CanAbsorbRecut(h: Heap, a: Addr, need: nat)
    requires Valid(h) && CanAbsorb(h, a, need)
    ensures var next := h.End(a);
            var rest := h.blocks[a].units + h.blocks[next].units - need;
            CanRecut(h, a, h.End(next), need, rest) && FitsIn(h, a, h.End(next), need, false, rest)
  {
    assert HasNext(h, h.End(a)) && NotFollowedByFree(h, h.End(a));
  }

  lemma CanExtendRecut(h: Heap, a: Addr, need: nat)
    requires Valid(h) && h.IsLive(a) && h.blocks[a].units < need && h.End(a) == h.brk
    requires h.brk + UNIT * Pages(need - h.blocks[a].units) <= h.limit
    ensures var rest := h.blocks[a].units + Pages(need - h.blocks[a].units) - need;
            rest >= 0 && CanRecut(h, a, h.brk, need, rest) && FitsIn(h, a, h.brk, need, false, rest)
  {
    Rounding(need - h.blocks[a].units);
  }

  lemma AbsorbKeepsValid(h: Heap, a: Addr, need: nat, h': Heap)
    requires Valid(h) && CanAbsorb(h, a, need) && h' == Absorb(h, a, need)
    ensures Valid(h')
  {
    var next := h.End(a);
    CanAbsorbRecut(h, a, need);
    RecutKeepsValid(h, a, h.End(next), need, false, h.blocks[a].units + h.blocks[next].units - need, h');
  }

  lemma ExtendKeepsValid(h: Heap, a: Addr, need: nat, h': Heap)
    requires Valid(h) && h.IsLive(a) && h.blocks[a].units < need && h.End(a) == h.brk && h' == Extend(h, a, need)
    requires h.brk + UNIT * Pages(need - h.blocks[a].units) <= h.limit
    ensures Valid(h')
  {
    CanExtendRecut(h, a, need);
    RecutKeepsValid(h, a, h.brk, need, false, h.blocks[a].units + Pages(need - h.blocks[a].units) - need, h');
  }

  lemma RelocatedKeepsValid(h1: Heap, a: Addr, r: Addr, h': Heap)
    requires Valid(h1) && h1.IsLive(a) && h' == Relocated(h1, a, r)
    ensures Valid(h')
  {
    var h2 := h1.(mem := Copy(h1.mem, a + HEADER, r, Usable(h1, a)));
    SameBlocksValid(h1, h2);
    ReleaseKeepsValid(h2, a);
  }

  lemma SameBlocksValid(h: Heap, h': Heap)
    requires Valid(h) && h' == h.(mem := h'.mem) && |h'.mem| == |h.mem|
    ensures Valid(h')
  {
    forall a ensures HasNext(h', a) && NotFollowedByFree(h', a) {
      assert HasNext(h, a) && NotFollowedByFree(h, a);
    }
  }

  lemma FreeKeepsValid(h: Heap, p: Addr, h': Heap)
    requires Valid(h) && (p != NULL ==> h.IsLive(p - HEADER)) && h' == Free(h, p)
    ensures Valid(h')
  {
    if p != NULL {
      ReleaseKeepsValid(h, p - HEADER);
    }
  }

  lemma ReallocKeepsValid(h: Heap, p: Addr, n: nat, h': Heap, r: Addr)
    requires Valid(h) && (p != NULL ==> h.IsLive(p - HEADER)) && Realloc(h, p, n, h', r)
    ensures Valid(h')
  {
    if p == NULL {
      MallocKeepsValid(h, n, h', r);
    } else if n == 0 {
      FreeKeepsValid(h, p, Free(h, p));
      MallocKeepsValid(Free(h, p), 0, h', r);
    } else {
      ResizeKeepsValid(h, p, n, h', r);
    }
  }

  lemma ResizeKeepsValid(h: Heap, p: Addr, n: nat, h': Heap, r: Addr)
    requires Valid(h) && h.IsLive(p - HEADER) && Resize(h, p, n, h', r)
    ensures Valid(h')
  {
    var a, need := p - HEADER, Need(n);
    if need > h.blocks[a].units {
      if CanAbsorb(h, a, need) {
        AbsorbKeepsValid(h, a, need, h');
      } else if h.End(a) == h.brk {
        if h.brk + UNIT * Pages(need - h.blocks[a].units) <= h.limit {
          ExtendKeepsValid(h, a, need, h');
        }
      } else if r != NULL {
        var h1 :| Malloc(h, n, h1, r) && a in h1.blocks && h' == Relocated(h1, a, r);
        MallocKeepsValid(h, n, h1, r);
        MallocLive(h, n, h1, r, a);
        RelocatedKeepsValid(h1, a, r, h');
      }
    }
  }

  // ----- What realloc keeps -----

  /** `len` bytes of memory from `x` on. */
  function Slice(mem: seq<Byte>, x: Addr, len: nat): seq<Byte> {
    if 0 <= x <= x + len <= |mem| then mem[x..x + len] else []
  }

  /** Block `x`, its size and its contents are the same in both heaps. */
  ghost predicate SameBlock(h: Heap, h': Heap, x: Addr) {
    && h.IsLive(x) && h'.IsLive(x) && h'.blocks[x] == h.blocks[x]
    && Slice(h'.mem, x, h.blocks[x].Bytes()) == Slice(h.mem, x, h.blocks[x].Bytes())
  }

  /** How many bytes of the block at `p` a block for `n` bytes has to keep. */
  function Kept(h: Heap, p: Addr, n: nat): nat
    requires h.IsLive(p - HEADER)
  {
    if n < Usable(h, p - HEADER) then n else Usable(h, p - HEADER)
  }

  /** The bytes at `p` are now at `r`, in a block that is large enough. */
  ghost predicate Carried(h: Heap, p: Addr, n: nat, h': Heap, r: Addr)
    requires h.IsLive(p - HEADER)
  {
    && h'.IsLive(r - HEADER) && HEADER + n <= h'.blocks[r - HEADER].Bytes()
    && Slice(h'.mem, r, Kept(h, p, n)) == Slice(h.mem, p, Kept(h, p, n))
  }

  /** Live blocks lie within memory and never overlap. */
  ghost predicate LiveApart(h: Heap) {
    && (forall a :: h.IsLive(a) ==> 0 < a < h.End(a) <= |h.mem|)
    && (forall a, b :: h.IsLive(a) && h.IsLive(b) && a != b ==> h.End(a) <= b || h.End(b) <= a)
  }

  lemma LiveBlocksApart(h: Heap)
    requires Valid(h)
    ensures LiveApart(h)
  {}

  /** `h'` has one live block more than `h`: one for `n` bytes at `r`. */
  ghost predicate Gained(h: Heap, n: nat, h': Heap, r: Addr) {
    && h'.mem == h.mem
    && h'.IsLive(r - HEADER) && !h.IsLive(r - HEADER) && HEADER + n <= h'.blocks[r - HEADER].Bytes()
    && forall x :: h.IsLive(x) ==> h'.IsLive(x) && h'.blocks[x] == h.blocks[x]
  }

  /** `h'` has lost live block `a`, whose contents have gone to `r`. */
  ghost predicate Lost(h: Heap, a: Addr, r: Addr, h': Heap)
    requires a in h.blocks
  {
    && h'.mem == Copy(h.mem, a + HEADER, r, Usable(h, a))
    && forall x :: h.IsLive(x) && x != a ==> h'.IsLive(x) && h'.blocks[x] == h.blocks[x]
  }

  lemma MallocGains(h: Heap, n: nat, h': Heap, r: Addr)
    requires Valid(h) && Malloc(h, n, h', r) && r != NULL
    ensures Gained(h, n, h', r)
  {
    forall x ensures h.IsLive(x) ==> h'.IsLive(x) && h'.blocks[x] == h.blocks[x] {
      MallocLive(h, n, h', r, x);
    }
    MallocLive(h, n, h', r, r - HEADER);
  }

  lemma RelocatedLoses(h: Heap, a: Addr, r: Addr, h': Heap)
    requires Valid(h) && h.IsLive(a) && h' == Relocated(h, a, r)
    ensures Lost(h, a, r, h')
  {
    var h2 := h.(mem := Copy(h.mem, a + HEADER, r, Usable(h, a)));
    SameBlocksValid(h, h2);
    forall x ensures h.IsLive(x) && x != a ==> h'.IsLive(x) && h'.blocks[x] == h.blocks[x] {
      ReleaseLive(h2, a, x);
    }
    ReleaseLive(h2, a, a);
  }

  /** A block gained, filled from a smaller one, and that one lost. */
  lemma GainedThenLost(h: Heap, p: Addr, n: nat, h1: Heap, h': Heap, r: Addr)
    requires h.IsLive(p - HEADER) && h.blocks[p - HEADER].units < Need(n)
    requires Gained(h, n, h1, r) && LiveApart(h1) && Lost(h1, p - HEADER, r, h')
    ensures Carried(h, p, n, h', r)
  {}

  lemma GainedThenLostElsewhere(h: Heap, p: Addr, n: nat, h1: Heap, h': Heap, r: Addr, x: Addr)
    requires h.IsLive(p - HEADER) && h.blocks[p - HEADER].units < Need(n)
    requires Gained(h, n, h1, r) && LiveApart(h1) && Lost(h1, p - HEADER, r, h')
    requires h.IsLive(x) && x != p - HEADER
    ensures SameBlock(h, h', x) && x != r - HEADER
  {}

  lemma RelocateSteps(h: Heap, a: Addr, n: nat, h1: Heap, h': Heap, r: Addr)
    requires Valid(h) && h.IsLive(a) && Malloc(h, n, h1, r) && r != NULL
    requires a in h1.blocks && h' == Relocated(h1, a, r)
    ensures Gained(h, n, h1, r) && LiveApart(h1) && Lost(h1, a, r, h')
  {
    MallocKeepsValid(h, n, h1, r);
    MallocGains(h, n, h1, r);
    LiveBlocksApart(h1);
    RelocatedLoses(h1, a, r, h');
  }

  lemma RelocateVia(h: Heap, a: Addr, n: nat, h': Heap, r: Addr) returns (h1: Heap)
    requires Valid(h) && h.IsLive(a) && Relocate(h, a, n, h', r) && r != NULL
    ensures Gained(h, n, h1, r) && LiveApart(h1) && Lost(h1, a, r, h')
  {
    h1 :| Malloc(h, n, h1, r) && a in h1.blocks && h' == Relocated(h1, a, r);
    RelocateSteps(h, a, n, h1, h', r);
  }

  lemma StepsCarry(h: Heap, p: Addr, n: nat, h1: Heap, h': Heap, r: Addr)
    requires h.IsLive(p - HEADER) && h.blocks[p - HEADER].units < Need(n)
    requires Gained(h, n, h1, r) && LiveApart(h1) && Lost(h1, p - HEADER, r, h')
    ensures Carried(h, p, n, h', r)
    ensures forall x :: h.IsLive(x) && x != p - HEADER ==> SameBlock(h, h', x) && x != r - HEADER
  {
    GainedThenLost(h, p, n, h1, h', r);
    forall x | h.IsLive(x) && x != p - HEADER ensures SameBlock(h, h', x) && x != r - HEADER {
      GainedThenLostElsewhere(h, p, n, h1, h', r, x);
    }
  }

  lemma AbsorbCarries(h: Heap, p: Addr, n: nat, h': Heap)
    requires Valid(h) && CanAbsorb(h, p - HEADER, Need(n)) && h' == Absorb(h, p - HEADER, Need(n))
    ensures Carried(h, p, n, h', p)
    ensures forall x :: h.IsLive(x) && x != p - HEADER ==> SameBlock(h, h', x)
  {}

  lemma ExtendCarries(h: Heap, p: Addr, n: nat, h': Heap)
    requires Valid(h) && h.IsLive(p - HEADER) && h.blocks[p - HEADER].units < Need(n) && h.End(p - HEADER) == h.brk
    requires h' == Extend(h, p - HEADER, Need(n))
    ensures Carried(h, p, n, h', p)
    ensures forall x :: h.IsLive(x) && x != p - HEADER ==> SameBlock(h, h', x)
  {}

  /** realloc() of a live block: on success the first bytes, as many as both
      sizes have, are where it points, in all its cases; every other live block
      is as it was; on failure so is the whole heap. */
  lemma ResizeCarries(h: Heap, p: Addr, n: nat, h': Heap, r: Addr)
    requires Valid(h) && h.IsLive(p - HEADER) && Resize(h, p, n, h', r)
    ensures r == NULL ==> h' == h
    ensures r != NULL ==>
              && Carried(h, p, n, h', r)
              && forall x :: h.IsLive(x) && x != p - HEADER ==> SameBlock(h, h', x) && x != r - HEADER
  {
    Rounding(n);
    var a, need := p - HEADER, Need(n);
    if need > h.blocks[a].units && r != NULL {
      if CanAbsorb(h, a, need) {
        AbsorbCarries(h, p, n, h');
      } else if h.End(a) == h.brk {
        ExtendCarries(h, p, n, h');
      } else {
        var h1 := RelocateVia(h, a, n, h', r);
        StepsCarry(h, p, n, h1, h', r);
      }
    }
  }

  // ----- Whole runs -----

  /** What a program may do with its heap; it stores only into its own blocks
      and frees and reallocates only what it holds. */
  datatype Call =
    | DoMalloc(n: nat)
    | DoFree(p: Addr)
    | DoRealloc(p: Addr, n: nat)
    | DoStore(a: Addr, k: nat, b: Byte)

  /** A program writes a byte of block `a`. */
  ghost predicate Store(h: Heap, a: Addr, k: nat, b: Byte, h': Heap) {
    h.IsLive(a) && a + HEADER <= k < h.End(a) && k < |h.mem| && h' == h.(mem := h.mem[k := b])
  }

  /** The call obeys the rules that malloc() and free() put on their callers. */
  predicate Allowed(h: Heap, call: Call) {
    match call
    case DoMalloc(_) => true
    case DoFree(p) => p != NULL ==> h.IsLive(p - HEADER)
    case DoRealloc(p, _) => p != NULL ==> h.IsLive(p - HEADER)
    case DoStore(a, k, _) => h.IsLive(a) && a + HEADER <= k < h.End(a) && k < |h.mem|
  }

  ghost predicate Performs(h: Heap, call: Call, h': Heap, r: Addr) {
    match call
    case DoMalloc(n) => Malloc(h, n, h', r)
    case DoFree(p) => (p != NULL ==> h.IsLive(p - HEADER)) && h' == Free(h, p)
    case DoRealloc(p, n) => (p != NULL ==> h.IsLive(p - HEADER)) && Realloc(h, p, n, h', r)
    case DoStore(a, k, b) => Store(h, a, k, b, h')
  }

  // One lemma for each kind of call keeps the proof of the next lemma small.

  lemma MallocCall(h: Heap, call: Call, h': Heap, r: Addr)
    requires Valid(h) && Performs(h, call, h', r) && call.DoMalloc?
    ensures Valid(h')
  {
    MallocKeepsValid(h, call.n, h', r);
  }

  lemma FreeCall(h: Heap, call: Call, h': Heap, r: Addr)
    requires Valid(h) && Performs(h, call, h', r) && call.DoFree?
    ensures Valid(h')
  {
    FreeKeepsValid(h, call.p, h');
  }

  lemma ReallocCall(h: Heap, call: Call, h': Heap, r: Addr)
    requires Valid(h) && Performs(h, call, h', r) && call.DoRealloc?
    ensures Valid(h')
  {
    ReallocKeepsValid(h, call.p, call.n, h', r);
  }

  lemma StoreCall(h: Heap, call: Call, h': Heap, r: Addr)
    requires Valid(h) && Performs(h, call, h', r) && call.DoStore?
    ensures Valid(h')
  {
    SameBlocksValid(h, h');
  }

  lemma PerformsKeepsValid(h: Heap, call: Call, h': Heap, r: Addr)
    requires Valid(h) && Performs(h, call, h', r)
    ensures Valid(h')
  {
    if call.DoMalloc? {
      MallocCall(h, call, h', r);
    } else if call.DoFree? {
      FreeCall(h, call, h', r);
    } else if call.DoRealloc? {
      ReallocCall(h, call, h', r);
    } else {
      StoreCall(h, call, h', r);
    }
  }

  /** A heap with nothing in it. */
  ghost predicate IsInitial(h: Heap) {
    0 < h.start == h.brk <= h.limit == |h.mem| && h.blocks == map[]
  }

  lemma InitialIsValid(h: Heap)
    requires IsInitial(h)
    ensures Valid(h)
  {}

  ghost predicate IsRun(heaps: seq<Heap>, calls: seq<Call>, results: seq<Addr>) {
    && |heaps| == |calls| + 1 && |results| == |calls|
    && forall i :: 0 <= i < |calls| ==> Performs(heaps[i], calls[i], heaps[i + 1], results[i])
  }

  /** In every heap that a run can lead to, the blocks tile the heap, no two
      free ones touch, and live ones never overlap. */
  lemma {:induction false} ReachableHeapsAreValid(heaps: seq<Heap>, calls: seq<Call>, results: seq<Addr>, k: nat)
    requires IsRun(heaps, calls, results) && k < |heaps| && IsInitial(heaps[0])
    ensures Valid(heaps[k]) && LiveApart(heaps[k])
  {
    if k == 0 {
      InitialIsValid(heaps[0]);
    } else {
      ReachableHeapsAreValid(heaps, calls, results, k - 1);
      assert Performs(heaps[k - 1], calls[k - 1], heaps[k], results[k - 1]);
      PerformsKeepsValid(heaps[k - 1], calls[k - 1], heaps[k], results[k - 1]);
    }
    LiveBlocksApart(heaps[k]);
  }

  /** The call is given no pointer to block `x`. */
  predicate SparesBlock(call: Call, x: Addr) {
    match call
    case DoMalloc(_) => true
    case DoFree(p) => p != x + HEADER
    case DoRealloc(p, _) => p != x + HEADER
    case DoStore(a, _, _) => a != x
  }

  lemma MallocKeepsBlock(h: Heap, n: nat, h': Heap, r: Addr, x: Addr)
    requires Valid(h) && Malloc(h, n, h', r) && h.IsLive(x)
    ensures SameBlock(h, h', x)
  {
    MallocLive(h, n, h', r, x);
  }

  lemma FreeKeepsBlock(h: Heap, p: Addr, h': Heap, x: Addr)
    requires Valid(h) && (p != NULL ==> h.IsLive(p - HEADER)) && h' == Free(h, p)
    requires h.IsLive(x) && p != x + HEADER
    ensures SameBlock(h, h', x)
  {}

  lemma ReallocKeepsBlock(h: Heap, p: Addr, n: nat, h': Heap, r: Addr, x: Addr)
    requires Valid(h) && (p != NULL ==> h.IsLive(p - HEADER)) && Realloc(h, p, n, h', r)
    requires h.IsLive(x) && p != x + HEADER
    ensures SameBlock(h, h', x)
  {
    if p == NULL {
      MallocKeepsBlock(h, n, h', r, x);
    } else if n == 0 {
      FreeKeepsValid(h, p, Free(h, p));
      FreeKeepsBlock(h, p, Free(h, p), x);
      MallocKeepsBlock(Free(h, p), 0, h', r, x);
    } else {
      ResizeCarries(h, p, n, h', r);
    }
  }

  lemma StoreKeepsBlock(h: Heap, a: Addr, k: nat, b: Byte, h': Heap, x: Addr)
    requires Valid(h) && Store(h, a, k, b, h') && h.IsLive(x) && a != x
    ensures SameBlock(h, h', x)
  {}

  lemma PerformsKeepsBlock(h: Heap, call: Call, h': Heap, r: Addr, x: Addr)
    requires Valid(h) && Performs(h, call, h', r) && h.IsLive(x) && SparesBlock(call, x)
    ensures SameBlock(h, h', x)
  {
    if call.DoMalloc? {
      MallocKeepsBlock(h, call.n, h', r, x);
    } else if call.DoFree? {
      FreeKeepsBlock(h, call.p, h', x);
    } else if call.DoRealloc? {
      ReallocKeepsBlock(h, call.p, call.n, h', r, x);
    } else {
      StoreKeepsBlock(h, call.a, call.k, call.b, h', x);
    }
  }

  /** Over a run whose calls are given no pointer to a live block, the block
      stays live, where it is and with every byte it held, whatever the other
      calls split, coalesce, move or give back. */
  lemma {:induction false} SparedBlockKept(heaps: seq<Heap>, calls: seq<Call>, results: seq<Addr>, k: nat, x: Addr)
    requires IsRun(heaps, calls, results) && k < |heaps| && Valid(heaps[0]) && heaps[0].IsLive(x)
    requires forall i :: 0 <= i < k ==> SparesBlock(calls[i], x)
    ensures Valid(heaps[k]) && SameBlock(heaps[0], heaps[k], x)
  {
    if k > 0 {
      SparedBlockKept(heaps, calls, results, k - 1, x);
      PerformsKeepsValid(heaps[k - 1], calls[k - 1], heaps[k], results[k - 1]);
      PerformsKeepsBlock(heaps[k - 1], calls[k - 1], heaps[k], results[k - 1], x);
    }
  }
}
