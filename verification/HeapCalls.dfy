/** What malloc(), free() and realloc() do for their callers, in bytes: when they
    succeed, how much they hand out and what becomes of the rest and of the
    program break (memalloc/README.org, sections 7.1.2 to 7.1.4). */
module HeapCalls {
  import opened Heap

  const PAGE_BYTES := 4096
  const TRIM_BYTES := 128 * 1024

  /** `x` bytes, rounded up to whole units. */
  function InUnits(x: nat): nat { (x + UNIT - 1) / UNIT * UNIT }

  /** `x` bytes, rounded up to whole pages. */
  function InPages(x: nat): nat { (x + PAGE_BYTES - 1) / PAGE_BYTES * PAGE_BYTES }

  lemma InPagesIs(x: nat, pages: nat)
    requires PAGE_BYTES * (pages - 1) < x <= PAGE_BYTES * pages
    ensures InPages(x) == PAGE_BYTES * pages
  {}

  lemma PagesInBytes(units: nat)
    ensures UNIT * Pages(units) == InPages(UNIT * units)
  {
    var pages := (units + PAGE - 1) / PAGE;
    assert PAGE * (pages - 1) < units <= PAGE * pages;
    InPagesIs(UNIT * units, pages);
  }

  lemma PagesOfUnits(x: nat)
    ensures InPages(InUnits(x)) == InPages(x)
  {
    var units, pages := (x + UNIT - 1) / UNIT, (x + PAGE_BYTES - 1) / PAGE_BYTES;
    assert UNIT * (units - 1) < x <= UNIT * units;
    assert PAGE_BYTES * (pages - 1) < x <= PAGE_BYTES * pages;
    InPagesIs(UNIT * units, pages);
  }

  lemma FitInBytes(n: nat, units: nat)
    ensures units >= Need(n) <==> UNIT * units >= HEADER + n
  {
    Rounding(n);
  }

  lemma InBytes(n: nat, units: nat)
    ensures UNIT * Need(n) == InUnits(HEADER + n)
    ensures UNIT * Pages(Need(n)) == InPages(HEADER + n)
    ensures units >= Need(n) <==> UNIT * units >= HEADER + n
    ensures UNIT * Pages(units) == InPages(UNIT * units)
  {
    FitInBytes(n, units);
    PagesInBytes(units);
    PagesInBytes(Need(n));
    PagesOfUnits(HEADER + n);
    assert UNIT * Need(n) == InUnits(HEADER + n);
  }

  // ----- malloc -----

  ghost predicate SomeBlockFits(h: Heap, n: nat) {
    exists a :: h.IsFree(a) && h.blocks[a].Bytes() >= HEADER + n
  }

  lemma FitsInBytes(h: Heap, a: Addr, n: nat)
    ensures Fits(h, a, Need(n)) <==> h.IsFree(a) && h.blocks[a].Bytes() >= HEADER + n
  {
    if h.IsFree(a) { InBytes(n, h.blocks[a].units); }
  }

  lemma SomeFits(h: Heap, n: nat)
    ensures SomeBlockFits(h, n) <==> exists a :: Fits(h, a, Need(n))
  {
    forall a ensures Fits(h, a, Need(n)) <==> h.IsFree(a) && h.blocks[a].Bytes() >= HEADER + n {
      FitsInBytes(h, a, n);
    }
  }

  /** malloc() fails exactly if no free block is large enough and the break
      cannot be raised by enough pages. */
  lemma MallocFailsIff(h: Heap, n: nat, h': Heap, p: Addr)
    requires Valid(h) && Malloc(h, n, h', p)
    ensures p == NULL <==> !SomeBlockFits(h, n) && h.limit - h.brk < InPages(HEADER + n)
  {
    SomeFits(h, n);
    InBytes(n, 0);
  }

  /** The first `size` bytes of a stretch are a block in use; what is left of the
      stretch, if anything, is one free block. */
  ghost predicate CutOff(h: Heap, a: Addr, size: nat, hi: Addr) {
    && h.IsLive(a) && h.blocks[a].Bytes() == size
    && (a + size == hi || (h.IsFree(a + size) && h.End(a + size) == hi))
  }

  lemma TakeCutsOff(h: Heap, a: Addr, need: nat)
    requires Fits(h, a, need) && need > 0
    ensures Take(h, a, need).brk == h.brk && CutOff(Take(h, a, need), a, UNIT * need, h.End(a))
  {
    var rest := h.blocks[a].units - need;
    RecutBlock(h, a, h.End(a), need, false, rest, a);
    RecutBlock(h, a, h.End(a), need, false, rest, a + UNIT * need);
  }

  lemma GrowCutsOff(h: Heap, need: nat)
    requires need > 0
    ensures var h' := Grow(h, need); h'.brk == h.brk + UNIT * Pages(need) && CutOff(h', h.brk, UNIT * need, h'.brk)
  {
    Rounding(need);
    RecutBlock(h, h.brk, h.brk, need, false, Pages(need) - need, h.brk);
    RecutBlock(h, h.brk, h.brk, need, false, Pages(need) - need, h.brk + UNIT * need);
  }

  /** malloc() hands out no more than it has to: a free block that is larger is
      split, the break is raised only if none fits, by whole pages, and what is
      too much stays free. */
  lemma MallocOutcome(h: Heap, n: nat, h': Heap, p: Addr)
    requires Valid(h) && Malloc(h, n, h', p) && p != NULL
    ensures var a, size := p - HEADER, InUnits(HEADER + n);
            if SomeBlockFits(h, n) then h.IsFree(a) && h'.brk == h.brk && CutOff(h', a, size, h.End(a))
            else a == h.brk && h'.brk == h.brk + InPages(HEADER + n) && CutOff(h', a, size, h'.brk)
  {
    SomeFits(h, n);
    InBytes(n, 0);
    Rounding(n);
    if SomeBlockFits(h, n) {
      TakeCutsOff(h, p - HEADER, Need(n));
    } else {
      GrowCutsOff(h, Need(n));
    }
  }

  // ----- free -----

  /** The block and its free neighbours become one free block; of that, if it
      is at the top end and 128 kB or more, whole pages are given back and less
      than a page stays. */
  lemma FreeOutcome(h: Heap, a: Addr)
    requires Valid(h) && h.IsLive(a)
    ensures var h', lo, hi := Free(h, a + HEADER), FreeFrom(h, a), FreeTo(h, a);
            var trimmed := hi == h.brk && hi - lo >= TRIM_BYTES;
            && lo <= a < h.End(a) <= hi
            && (if trimmed then h'.brk < h.brk && (h.brk - h'.brk) % PAGE_BYTES == 0 && 0 <= h'.brk - lo < PAGE_BYTES
                else h'.brk == h.brk)
            && var end := if trimmed then h'.brk else hi;
               lo < end ==> h'.IsFree(lo) && h'.End(lo) == end
  {
    var lo, hi := FreeFrom(h, a), FreeTo(h, a);
    FreeStretch(h, a);
    var s1 := Remains(lo, hi, h.brk);
    RecutBlock(h, lo, hi, s1, true, 0, lo);
    RemainsInBytes(lo, hi, h.brk);
  }

  lemma RemainsInBytes(lo: Addr, hi: Addr, brk: Addr)
    requires lo <= hi && (hi - lo) % UNIT == 0
    ensures var bytes := UNIT * Remains(lo, hi, brk);
            if hi == brk && hi - lo >= TRIM_BYTES then bytes < PAGE_BYTES && (hi - lo - bytes) % PAGE_BYTES == 0 && bytes < hi - lo
            else bytes == hi - lo
  {}

  // ----- realloc -----

  /** The block behind is free, and together they are large enough. */
  ghost predicate RoomBehind(h: Heap, a: Addr, n: nat)
    requires a in h.blocks
  {
    h.IsFree(h.End(a)) && h.blocks[a].Bytes() + h.blocks[h.End(a)].Bytes() >= HEADER + n
  }

  lemma AbsorbInBytes(h: Heap, a: Addr, n: nat)
    requires h.IsLive(a) && h.blocks[a].Bytes() < HEADER + n
    ensures CanAbsorb(h, a, Need(n)) <==> RoomBehind(h, a, n)
  {
    InBytes(n, h.blocks[a].units);
    if h.IsFree(h.End(a)) { InBytes(n, h.blocks[a].units + h.blocks[h.End(a)].units); }
  }

  /** How far the break is raised behind the last block. */
  function Missing(h: Heap, a: Addr, n: nat): nat
    requires a in h.blocks && h.blocks[a].Bytes() < HEADER + n
  {
    InPages(InUnits(HEADER + n) - h.blocks[a].Bytes())
  }

  lemma MissingInBytes(h: Heap, a: Addr, n: nat)
    requires a in h.blocks && h.blocks[a].Bytes() < HEADER + n
    ensures h.blocks[a].units < Need(n) && Missing(h, a, n) == UNIT * Pages(Need(n) - h.blocks[a].units)
  {
    InBytes(n, h.blocks[a].units);
    InBytes(n, Need(n) - h.blocks[a].units);
  }

  /** realloc() of a live block fails exactly if the block is too small, cannot
      absorb the one behind, and either is the last and the break cannot be
      raised far enough, or is not and malloc() fails. */
  ghost predicate ResizeFails(h: Heap, a: Addr, n: nat)
    requires a in h.blocks
  {
    && h.blocks[a].Bytes() < HEADER + n && !RoomBehind(h, a, n)
    && if h.End(a) == h.brk then h.limit - h.brk < Missing(h, a, n)
       else !SomeBlockFits(h, n) && h.limit - h.brk < InPages(HEADER + n)
  }

  /** It leaves the block where it is whenever it can. */
  ghost predicate ResizeStays(h: Heap, a: Addr, n: nat)
    requires a in h.blocks
  {
    || h.blocks[a].Bytes() >= HEADER + n || RoomBehind(h, a, n)
    || (h.End(a) == h.brk && h.limit - h.brk >= Missing(h, a, n))
  }

  lemma ResizeOutcome(h: Heap, p: Addr, n: nat, h': Heap, r: Addr)
    requires Valid(h) && h.IsLive(p - HEADER) && Resize(h, p, n, h', r)
    ensures r == NULL <==> ResizeFails(h, p - HEADER, n)
    ensures r == p <==> ResizeStays(h, p - HEADER, n)
  {
    var a := p - HEADER;
    InBytes(n, h.blocks[a].units);
    LiveBlocksApart(h);
    if h.blocks[a].Bytes() < HEADER + n {
      AbsorbInBytes(h, a, n);
      MissingInBytes(h, a, n);
      if !RoomBehind(h, a, n) && h.End(a) != h.brk {
        MovesOrFails(h, a, n, h', r);
      }
    }
  }

  lemma MovesOrFails(h: Heap, a: Addr, n: nat, h': Heap, r: Addr)
    requires Valid(h) && h.IsLive(a) && Relocate(h, a, n, h', r)
    ensures r == NULL <==> !SomeBlockFits(h, n) && h.limit - h.brk < InPages(HEADER + n)
    ensures r != a + HEADER
  {
    var h1 :| Malloc(h, n, h1, r)
              && if r == NULL then h' == h else a in h1.blocks && h' == Relocated(h1, a, r);
    MallocFailsIff(h, n, h1, r);
    MallocLive(h, n, h1, r, a);
    LiveBlocksApart(h);
  }

  /** Which blocks are in use after a successful realloc(): the same, but for the
      one that was resized, which is now at `r`; a moved block leaves nothing
      behind. */
  lemma ResizeLive(h: Heap, p: Addr, n: nat, h': Heap, r: Addr, x: Addr)
    requires Valid(h) && h.IsLive(p - HEADER) && Resize(h, p, n, h', r) && r != NULL
    ensures h'.IsLive(x) <==> (h.IsLive(x) && x != p - HEADER) || x == r - HEADER
  {
    var a, need := p - HEADER, Need(n);
    ResizeCarries(h, p, n, h', r);
    if need > h.blocks[a].units {
      if CanAbsorb(h, a, need) {
        RecutBlock(h, a, h.End(h.End(a)), need, false, h.blocks[a].units + h.blocks[h.End(a)].units - need, x);
      } else if h.End(a) == h.brk {
        Rounding(need - h.blocks[a].units);
        RecutBlock(h, a, h.End(a), need, false, h.blocks[a].units + Pages(need - h.blocks[a].units) - need, x);
      } else {
        MovedLive(h, a, n, h', r, x);
      }
    }
  }

  lemma MovedLive(h: Heap, a: Addr, n: nat, h': Heap, r: Addr, x: Addr)
    requires Valid(h) && h.IsLive(a) && Relocate(h, a, n, h', r) && r != NULL
    ensures h'.IsLive(x) <==> (h.IsLive(x) && x != a) || x == r - HEADER
  {
    var h1 := RelocateVia(h, a, n, h', r);
  }

  lemma RelocateVia(h: Heap, a: Addr, n: nat, h': Heap, r: Addr) returns (h1: Heap)
    requires Valid(h) && h.IsLive(a) && Relocate(h, a, n, h', r) && r != NULL
    ensures OneMore(h, n, h1, r) && OneLess(h1, a, h')
  {
    h1 :| Malloc(h, n, h1, r) && a in h1.blocks && h' == Relocated(h1, a, r);
    RelocateSteps(h, a, n, h1, h', r);
  }

  lemma RelocateSteps(h: Heap, a: Addr, n: nat, h1: Heap, h': Heap, r: Addr)
    requires Valid(h) && h.IsLive(a) && Malloc(h, n, h1, r) && r != NULL
    requires a in h1.blocks && h' == Relocated(h1, a, r)
    ensures OneMore(h, n, h1, r) && OneLess(h1, a, h')
  {
    MallocStep(h, n, h1, r);
    RelocatedStep(h1, a, r, h');
  }

  /** One block less in use, and the others as they were. */
  ghost predicate OneLess(h1: Heap, a: Addr, h': Heap) {
    && (forall x :: h'.IsLive(x) <==> h1.IsLive(x) && x != a)
    && (forall x :: h'.IsLive(x) ==> h'.blocks[x] == h1.blocks[x])
  }

  /** One block more in use, of just the right size. */
  ghost predicate OneMore(h: Heap, n: nat, h1: Heap, r: Addr) {
    && Valid(h1) && !h.IsLive(r - HEADER)
    && h1.IsLive(r - HEADER) && h1.blocks[r - HEADER].Bytes() == InUnits(HEADER + n)
    && forall x :: h1.IsLive(x) <==> h.IsLive(x) || x == r - HEADER
  }

  lemma MallocStep(h: Heap, n: nat, h1: Heap, r: Addr)
    requires Valid(h) && Malloc(h, n, h1, r) && r != NULL
    ensures OneMore(h, n, h1, r)
  {
    MallocKeepsValid(h, n, h1, r);
    MallocAllLive(h, n, h1, r);
    MallocSize(h, n, h1, r);
  }

  lemma MallocAllLive(h: Heap, n: nat, h1: Heap, r: Addr)
    requires Valid(h) && Malloc(h, n, h1, r) && r != NULL
    ensures !h.IsLive(r - HEADER) && forall x :: h1.IsLive(x) <==> h.IsLive(x) || x == r - HEADER
  {
    MallocLive(h, n, h1, r, r - HEADER);
    forall x ensures h1.IsLive(x) <==> h.IsLive(x) || x == r - HEADER {
      MallocLive(h, n, h1, r, x);
    }
  }

  lemma MallocSize(h: Heap, n: nat, h1: Heap, r: Addr)
    requires Valid(h) && Malloc(h, n, h1, r) && r != NULL
    ensures h1.IsLive(r - HEADER) && h1.blocks[r - HEADER].Bytes() == InUnits(HEADER + n)
  {
    MallocOutcome(h, n, h1, r);
  }

  lemma RelocatedStep(h: Heap, a: Addr, r: Addr, h': Heap)
    requires Valid(h) && h.IsLive(a) && h' == Relocated(h, a, r)
    ensures OneLess(h, a, h')
  {
    var h2 := h.(mem := Copy(h.mem, a + HEADER, r, Usable(h, a)));
    SameBlocksValid(h, h2);
    forall x ensures (h'.IsLive(x) <==> h.IsLive(x) && x != a) && (h'.IsLive(x) ==> h'.blocks[x] == h.blocks[x]) {
      ReleaseLive(h2, a, x);
    }
  }

  /** A block that has to grow gets no more than it needs: what it does not take
      of the block behind, or of the pages added, is one free block. */
  lemma ResizeCutsOff(h: Heap, p: Addr, n: nat, h': Heap, r: Addr)
    requires Valid(h) && h.IsLive(p - HEADER) && Resize(h, p, n, h', r) && r != NULL
    ensures var a, size := p - HEADER, InUnits(HEADER + n);
            if h.blocks[a].Bytes() >= HEADER + n then h' == h
            else if RoomBehind(h, a, n) then h'.brk == h.brk && CutOff(h', a, size, h.End(h.End(a)))
            else if h.End(a) == h.brk then h'.brk == h.brk + Missing(h, a, n) && CutOff(h', a, size, h'.brk)
            else h'.IsLive(r - HEADER) && h'.blocks[r - HEADER].Bytes() == size
  {
    var a, need := p - HEADER, Need(n);
    InBytes(n, h.blocks[a].units);
    if h.blocks[a].Bytes() < HEADER + n {
      AbsorbInBytes(h, a, n);
      MissingInBytes(h, a, n);
      if RoomBehind(h, a, n) {
        AbsorbCutsOff(h, a, need);
      } else if h.End(a) == h.brk {
        ExtendCutsOff(h, a, need);
      } else {
        MovedSize(h, a, n, h', r);
      }
    }
  }

  lemma AbsorbCutsOff(h: Heap, a: Addr, need: nat)
    requires CanAbsorb(h, a, need)
    ensures CutOff(Absorb(h, a, need), a, UNIT * need, h.End(h.End(a)))
    ensures Valid(h) ==> Absorb(h, a, need).brk == h.brk
  {
    var hi, rest := h.End(h.End(a)), h.blocks[a].units + h.blocks[h.End(a)].units - need;
    RecutBlock(h, a, hi, need, false, rest, a);
    RecutBlock(h, a, hi, need, false, rest, a + UNIT * need);
  }

  lemma ExtendCutsOff(h: Heap, a: Addr, need: nat)
    requires h.IsLive(a) && h.blocks[a].units < need && h.End(a) == h.brk
    ensures var h' := Extend(h, a, need);
            h'.brk == h.brk + UNIT * Pages(need - h.blocks[a].units) && CutOff(h', a, UNIT * need, h'.brk)
  {
    Rounding(need - h.blocks[a].units);
    var rest := h.blocks[a].units + Pages(need - h.blocks[a].units) - need;
    RecutBlock(h, a, h.brk, need, false, rest, a);
    RecutBlock(h, a, h.brk, need, false, rest, a + UNIT * need);
  }

  lemma MovedSize(h: Heap, a: Addr, n: nat, h': Heap, r: Addr)
    requires Valid(h) && h.IsLive(a) && Relocate(h, a, n, h', r) && r != NULL
    ensures h'.IsLive(r - HEADER) && h'.blocks[r - HEADER].Bytes() == InUnits(HEADER + n)
  {
    var h1 := RelocateVia(h, a, n, h', r);
    MoreThenLess(h, a, n, h1, h', r);
  }

  lemma MoreThenLess(h: Heap, a: Addr, n: nat, h1: Heap, h': Heap, r: Addr)
    requires h.IsLive(a) && OneMore(h, n, h1, r) && OneLess(h1, a, h')
    ensures h'.IsLive(r - HEADER) && h'.blocks[r - HEADER].Bytes() == InUnits(HEADER + n)
  {}

  /** realloc() of NULL is malloc(). */
  lemma ReallocOfNull(h: Heap, n: nat, h': Heap, r: Addr)
    ensures Realloc(h, NULL, n, h', r) <==> Malloc(h, n, h', r)
  {}

  /** realloc() to size 0 ends the life of the block; if it does not give NULL, a
      new one is there for no bytes at all. */
  lemma ReallocToNothing(h: Heap, p: Addr, h': Heap, r: Addr, x: Addr)
    requires Valid(h) && p != NULL && h.IsLive(p - HEADER) && Realloc(h, p, 0, h', r)
    ensures h'.IsLive(x) <==> (h.IsLive(x) && x != p - HEADER) || (r != NULL && x == r - HEADER)
    ensures r != NULL ==> h'.IsLive(r - HEADER) && HEADER <= h'.blocks[r - HEADER].Bytes()
  {
    FreeThenMalloc(h, p - HEADER, Release(h, p - HEADER), h', r, x);
  }

  lemma FreeThenMalloc(h: Heap, a: Addr, h1: Heap, h': Heap, r: Addr, x: Addr)
    requires Valid(h) && h.IsLive(a) && h1 == Release(h, a) && Malloc(h1, 0, h', r)
    ensures h'.IsLive(x) <==> (h.IsLive(x) && x != a) || (r != NULL && x == r - HEADER)
    ensures r != NULL ==> h'.IsLive(r - HEADER) && HEADER <= h'.blocks[r - HEADER].Bytes()
  {
    ReleaseStep(h, a, h1, x);
    if r != NULL {
      MallocStep(h1, 0, h', r);
    } else {
      MallocLive(h1, 0, h', r, x);
    }
  }

  lemma ReleaseStep(h: Heap, a: Addr, h1: Heap, x: Addr)
    requires Valid(h) && h.IsLive(a) && h1 == Release(h, a)
    ensures Valid(h1) && (h1.IsLive(x) <==> h.IsLive(x) && x != a)
  {
    ReleaseKeepsValid(h, a);
    ReleaseLive(h, a, x);
  }
}
