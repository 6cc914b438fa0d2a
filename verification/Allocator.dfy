/** malloc(), free() and realloc() at work in memory (memalloc/README.org,
    sections 7.1.3 and 7.1.4).

    All that the arena has are bytes, the program break and the address of the
    first free block: lengths and links are words in the blocks.  Free blocks
    are exactly those on the list, which is scanned first fit. */
module Allocator {
  import opened Basics
  import opened Words
  import opened Heap
  import opened FreeList
  import opened BlockLayout

  class Arena {
    const start: Addr
    const limit: Addr
    const mem: array<Byte>
    var brk: Addr
    var head: Addr

    // What the bytes mean: the length of each block, the links, the list that
    // they spell, the memory as its owners see it, and which of its bytes have a
    // defined value.
    ghost var units: map<Addr, nat>
    ghost var links: Links
    ghost var order: seq<Addr>
    ghost var contents: seq<Byte>
    ghost var defined: set<Addr>

    ghost function View(): Heap
      reads this
    {
      Heap(start, brk, limit, map a | a in units :: Block(units[a], a in links.next), contents)
    }

    /** The bytes hold the lengths of all blocks and spell the list of free ones. */
    ghost predicate Listed()
      reads this, mem
    {
      && limit == mem.Length && head == links.head
      && Spells(links, order) && Books(mem[..], units, links)
    }

    /** Every byte with a defined value is some owner's, and holds that value. */
    ghost predicate Faithful()
      reads this, mem
    {
      Agrees(View(), mem[..], defined)
    }

    constructor (base: Addr, memory: array<Byte>)
      requires 0 < base <= memory.Length < Values(SIZE)
      ensures start == brk == base && mem == memory && limit == memory.Length
      ensures Listed() && Valid(View()) && Faithful() && defined == {}
    {
      start, brk, limit, mem, head := base, base, memory.Length, memory, NULL;
      units, links, order := map[], Links(NULL, map[], map[]), [];
      contents, defined := memory[..], {};
    }

    // ----- Words in blocks -----

    method LengthOf(a: Addr) returns (size: nat)
      requires Listed() && a in units
      ensures size == units[a]
    {
      assert InBounds(units, mem.Length, a) && LengthAt(mem[..], units, a);
      size := ReadWord(mem, a);
    }

    method LinkOf(a: Addr, next: bool) returns (b: Addr)
      requires Listed() && a in links.next && a in links.prev
      ensures b == if next then links.next[a] else links.prev[a]
    {
      assert InBounds(units, mem.Length, a) && LinksAt(mem[..], links.next, links.prev, a);
      b := ReadWord(mem, a + LinkOffset(next));
    }

    /** Writes one link of block `f`; `free` are the blocks whose links may change. */
    method SetLink(f: Addr, next: bool, v: Addr, ghost free: set<Addr>)
      requires limit == mem.Length && Books(mem[..], units, links) && f in units && f in free && 0 <= v <= limit
      modifies this`links, mem
      ensures Books(mem[..], units, links) && links == Relinked(old(links), f, next, v)
      ensures Framed(old(mem[..]), mem[..], free, {})
    {
      assert InBounds(units, mem.Length, f);
      WriteWord(mem, f + LinkOffset(next), v);
      RelinkedKeeps(old(mem[..]), mem[..], units, links, f, next, v);
      FramedMore(old(mem[..]), mem[..], {f}, {}, free, {});
      links := Relinked(links, f, next, v);
    }

    // ----- The free list -----

    method JoinNeighbours(a: Addr)
      requires Listed() && a in links.next && a in links.prev
      modifies this`links, this`head, mem
      ensures links == Remove(old(links), a) && head == links.head && Books(mem[..], units, links)
      ensures Framed(old(mem[..]), mem[..], old(links.next.Keys), {})
    {
      ghost var free := links.next.Keys;
      var before := LinkOf(a, false);
      var after := LinkOf(a, true);
      NeighboursListed(links, order, units, mem[..], a);
      if before == NULL {
        head := after;
      } else {
        SetLink(before, true, after, free);
      }
      ghost var m := mem[..];
      if after != NULL {
        SetLink(after, false, before, free);
      }
      FramedTwice(old(mem[..]), m, mem[..], free, {});
      UnlinkedKeeps(mem[..], units, links, a, head);
      links := Links(head, links.next - {a}, links.prev - {a});
    }

    method Unlink(a: Addr)
      requires Listed() && a in links.next
      modifies this`links, this`order, this`head, mem
      ensures Listed() && links.next.Keys == old(links.next.Keys) - {a}
      ensures Framed(old(mem[..]), mem[..], old(links.next.Keys), {})
    {
      ghost var k :| 0 <= k < |order| && order[k] == a;
      ghost var order' := Without(order, k);
      RemoveSpells(links, order, k, Remove(links, a), order');
      RemoveKeySet(links, order, k);
      JoinNeighbours(a);
      order := order';
    }

    method LinkFront(a: Addr)
      requires Listed() && a in units && a !in links.next
      modifies this`links, this`order, this`head, mem
      ensures Listed() && links.next.Keys == old(links.next.Keys) + {a}
      ensures Framed(old(mem[..]), mem[..], links.next.Keys, {})
    {
      ghost var free := links.next.Keys + {a};
      HeadListed(links, order, units, mem[..], a);
      PushSpells(links, order, a);
      order := [a] + order;
      var first := head;
      SetLink(a, true, first, free);
      ghost var m := mem[..];
      SetLink(a, false, NULL, free);
      FramedTwice(old(mem[..]), m, mem[..], free, {});
      m := mem[..];
      if first != NULL {
        SetLink(first, false, a, free);
      }
      FramedTwice(old(mem[..]), m, mem[..], free, {});
      head := a;
      links := links.(head := a);
    }

    /** First fit: NULL if no block on the list is large enough. */
    method FindFit(need: nat) returns (a: Addr)
      requires Listed()
      ensures a == NULL ==> forall b :: !Fits(View(), b, need)
      ensures a != NULL ==> Fits(View(), a, need)
    {
      a := head;
      ghost var k := 0;
      AtEnd(order, k);
      while a != NULL
        invariant 0 <= k <= |order| && a == At(order, k)
        invariant forall i :: 0 <= i < k ==> order[i] in units && units[order[i]] < need
        invariant a != NULL ==> a in links.next
        decreases |order| - k
      {
        assert LinkedAt(links, order, k);
        var size := LengthOf(a);
        if size >= need {
          return;
        }
        a := LinkOf(a, true);
        k := k + 1;
        AtEnd(order, k);
      }
    }

    /** The free block that ends at `x`, if there is one. */
    method FindEndingAt(x: Addr) returns (b: Addr)
      requires Listed()
      ensures b == NULL ==> forall c :: View().IsFree(c) ==> View().End(c) != x
      ensures b != NULL ==> View().IsFree(b) && View().End(b) == x
    {
      b := head;
      ghost var k := 0;
      AtEnd(order, k);
      while b != NULL
        invariant 0 <= k <= |order| && b == At(order, k)
        invariant forall i :: 0 <= i < k ==> order[i] in units && order[i] + UNIT * units[order[i]] != x
        invariant b != NULL ==> b in links.next
        decreases |order| - k
      {
        assert LinkedAt(links, order, k);
        var size := LengthOf(b);
        if b + UNIT * size == x {
          return;
        }
        b := LinkOf(b, true);
        k := k + 1;
        AtEnd(order, k);
      }
    }

    /** Whether a free block begins at `x`. */
    method IsOnList(x: Addr) returns (found: bool)
      requires Listed()
      ensures found <==> x in links.next
    {
      var b := head;
      ghost var k := 0;
      AtEnd(order, k);
      while b != NULL && b != x
        invariant 0 <= k <= |order| && b == At(order, k)
        invariant forall i :: 0 <= i < k ==> order[i] != x
        invariant b != NULL ==> b in links.next
        decreases |order| - k
      {
        assert LinkedAt(links, order, k);
        b := LinkOf(b, true);
        k := k + 1;
        AtEnd(order, k);
      }
      return b != NULL;
    }

    // ----- Recutting in place -----

    method RemoveBlock(x: Addr)
      requires Listed() && x in units
      modifies this`units, this`links, this`order, this`head, mem
      ensures Listed() && units == old(units) - {x} && links.next.Keys == old(links.next.Keys) - {x}
      ensures Framed(old(mem[..]), mem[..], old(links.next.Keys), {})
    {
      var listed := IsOnList(x);
      if listed {
        Unlink(x);
      }
      StruckKeeps(mem[..], units, links, x);
      units := units - {x};
    }

    method InsertBlock(x: Addr, size: nat, free: bool)
      requires Listed() && RoomFor(units, limit, x, size)
      modifies this`units, this`links, this`order, this`head, mem
      ensures Listed() && units == old(units)[x := size]
      ensures links.next.Keys == old(links.next.Keys) + if free then {x} else {}
      ensures Framed(old(mem[..]), mem[..], links.next.Keys, {x})
    {
      WriteWord(mem, x, size);
      ghost var m := mem[..];
      EnteredKeeps(old(mem[..]), m, units, links, x, size);
      units := units[x := size];
      if free {
        LinkFront(x);
        FramedMore(m, mem[..], links.next.Keys, {}, links.next.Keys, {x});
      }
      FramedMore(old(mem[..]), m, {}, {x}, links.next.Keys, {x});
      FramedTwice(old(mem[..]), m, mem[..], links.next.Keys, {x});
    }

    /** Take every block from `lo` to `hi` off the books. */
    method ClearStretch(lo: Addr, hi: Addr)
      requires Listed() && Tiled(View()) && lo <= hi && Boundary(View(), lo) && Boundary(View(), hi)
      modifies this`units, this`links, this`order, this`head, mem
      ensures Listed() && Cleared(old(View()), lo, hi, units, links.next.Keys)
      ensures Framed(old(mem[..]), mem[..], old(links.next.Keys), {})
    {
      ghost var h, free := View(), links.next.Keys;
      assert Cleared(h, lo, lo, units, free);
      var x := lo;
      while x < hi
        invariant lo <= x <= hi && Boundary(h, x) && Listed()
        invariant Cleared(h, lo, x, units, links.next.Keys) && links.next.Keys <= free
        invariant Framed(old(mem[..]), mem[..], free, {})
        decreases hi - x
      {
        ghost var m, now := mem[..], links.next.Keys;
        ClearedMore(h, lo, x, hi, units, now);
        var size := LengthOf(x);
        RemoveBlock(x);
        FramedMore(m, mem[..], now, {}, free, {});
        FramedTwice(old(mem[..]), m, mem[..], free, {});
        x := x + UNIT * size;
      }
    }

    method InsertPieces(lo: Addr, s1: nat, free1: bool, s2: nat)
      requires Listed() && RoomForPieces(units, limit, lo, s1, s2)
      modifies this`units, this`links, this`order, this`head, mem
      ensures Listed()
      ensures units == WithPieces(old(units), lo, s1, s2)
      ensures links.next.Keys == WithFree(old(links.next.Keys), lo, s1, free1, s2)
      ensures Framed(old(mem[..]), mem[..], links.next.Keys, units.Keys)
    {
      if s1 > 0 {
        InsertBlock(lo, s1, free1);
      }
      ghost var m, free := mem[..], links.next.Keys;
      if s2 > 0 {
        InsertBlock(lo + UNIT * s1, s2, true);
        FramedMore(m, mem[..], links.next.Keys, {lo + UNIT * s1}, links.next.Keys, units.Keys);
      }
      FramedMore(old(mem[..]), m, free, if s1 > 0 then {lo} else {}, links.next.Keys, units.Keys);
      FramedTwice(old(mem[..]), m, mem[..], links.next.Keys, units.Keys);
    }

    /** Clears the stretch, then enters the pieces; `m` is memory in between. */
    method ReplaceBlocks(lo: Addr, hi: Addr, s1: nat, free1: bool, s2: nat) returns (ghost m: seq<Byte>)
      requires Listed() && CanRecut(View(), lo, hi, s1, s2)
      modifies this`units, this`links, this`order, this`head, mem
      ensures Listed() && View().blocks == Recut(old(View()), lo, hi, s1, free1, s2).blocks
      ensures Framed(old(mem[..]), m, old(links.next.Keys), {})
      ensures Framed(m, mem[..], links.next.Keys, units.Keys)
    {
      ghost var h := View();
      ClearStretch(lo, hi);
      m := mem[..];
      ClearedHasRoom(h, lo, hi, s1, s2, units, links.next.Keys);
      SameBooks(h, lo, hi, s1, free1, s2, units, links.next.Keys);
      InsertPieces(lo, s1, free1, s2);
    }

    /** Replace the blocks from `lo` to `hi` as `Heap.Recut` says; no byte of a
        block that is in use before and after changes. */
    method RecutStretch(lo: Addr, hi: Addr, s1: nat, free1: bool, s2: nat)
      requires Listed() && CanRecut(View(), lo, hi, s1, s2)
      modifies this`units, this`links, this`order, this`head, this`brk, mem
      ensures Listed() && View() == Recut(old(View()), lo, hi, s1, free1, s2)
      ensures SameHeld(old(View()), View(), old(mem[..]), mem[..])
    {
      ghost var h, free := View(), links.next.Keys;
      FreeBlocksAre(units, links.next.Keys, h);
      ghost var m := ReplaceBlocks(lo, hi, s1, free1, s2);
      if hi == brk {
        brk := lo + UNIT * (s1 + s2);
      }
      FreeBlocksAre(units, links.next.Keys, View());
      RecutFramed(h, lo, hi, s1, free1, s2, View(), old(mem[..]), m, mem[..]);
    }

    // ----- Blocks -----

    method TakeBlock(a: Addr, need: nat)
      requires Listed() && Valid(View()) && Fits(View(), a, need) && need > 0
      modifies this`units, this`links, this`order, this`head, this`brk, mem
      ensures Listed() && View() == Take(old(View()), a, need)
      ensures SameHeld(old(View()), View(), old(mem[..]), mem[..])
    {
      CanTake(View(), a, need);
      var size := LengthOf(a);
      RecutStretch(a, a + UNIT * size, need, false, size - need);
    }

    method GrowHeap(need: nat)
      requires Listed() && Valid(View()) && need > 0 && brk + UNIT * Pages(need) <= limit
      modifies this`units, this`links, this`order, this`head, this`brk, mem
      ensures Listed() && View() == Grow(old(View()), need)
      ensures SameHeld(old(View()), View(), old(mem[..]), mem[..])
    {
      Rounding(need);
      RecutStretch(brk, brk, need, false, Pages(need) - need);
    }

    method AllocateBlock(n: nat) returns (p: Addr)
      requires Listed() && Valid(View())
      modifies this`units, this`links, this`order, this`head, this`brk, mem
      ensures Listed() && Malloc(old(View()), n, View(), p)
      ensures SameHeld(old(View()), View(), old(mem[..]), mem[..])
    {
      Rounding(n);
      var need := Need(n);
      var a := FindFit(need);
      if a != NULL {
        TakeBlock(a, need);
        p := a + HEADER;
      } else if brk + UNIT * Pages(need) <= limit {
        p := brk + HEADER;
        GrowHeap(need);
      } else {
        p := NULL;
      }
    }

    /** The free stretch that will hold a block once it is freed. */
    method FreeBounds(a: Addr) returns (lo: Addr, hi: Addr)
      requires Listed() && Tiled(View()) && a in units
      ensures lo == FreeFrom(View(), a) && hi == FreeTo(View(), a)
    {
      lo := FindEndingAt(a);
      FreeFromIs(View(), a, lo);
      if lo == NULL {
        lo := a;
      }
      var size := LengthOf(a);
      hi := a + UNIT * size;
      var free := IsOnList(hi);
      if free {
        size := LengthOf(hi);
        hi := hi + UNIT * size;
      }
    }

    method ReleaseBlock(a: Addr)
      requires Listed() && Valid(View()) && View().IsLive(a)
      modifies this`units, this`links, this`order, this`head, this`brk, mem
      ensures Listed() && View() == Release(old(View()), a)
      ensures SameHeld(old(View()), View(), old(mem[..]), mem[..])
    {
      CanRelease(View(), a);
      var lo, hi := FreeBounds(a);
      RecutStretch(lo, hi, Remains(lo, hi, brk), true, 0);
    }

    method AbsorbNext(a: Addr, need: nat)
      requires Listed() && Valid(View()) && CanAbsorb(View(), a, need)
      modifies this`units, this`links, this`order, this`head, this`brk, mem
      ensures Listed() && View() == Absorb(old(View()), a, need)
      ensures SameHeld(old(View()), View(), old(mem[..]), mem[..])
    {
      CanAbsorbRecut(View(), a, need);
      var size := LengthOf(a);
      var next := a + UNIT * size;
      var more := LengthOf(next);
      RecutStretch(a, next + UNIT * more, need, false, size + more - need);
    }

    method ExtendLast(a: Addr, need: nat)
      requires Listed() && Valid(View()) && View().IsLive(a) && units[a] < need && View().End(a) == brk
      requires brk + UNIT * Pages(need - units[a]) <= limit
      modifies this`units, this`links, this`order, this`head, this`brk, mem
      ensures Listed() && View() == Extend(old(View()), a, need)
      ensures SameHeld(old(View()), View(), old(mem[..]), mem[..])
    {
      CanExtendRecut(View(), a, need);
      var size := LengthOf(a);
      RecutStretch(a, brk, need, false, size + Pages(need - size) - need);
    }

    // ----- The calls -----

    method AllocateBytes(n: nat) returns (p: Addr)
      requires Listed() && Valid(View()) && Faithful()
      modifies this`units, this`links, this`order, this`head, this`brk, mem
      ensures Listed() && Malloc(old(View()), n, View(), p) && Faithful()
    {
      ghost var h := View();
      p := AllocateBlock(n);
      MallocHolds(h, n, View(), p);
      StillAgrees(h, View(), old(mem[..]), mem[..], defined);
    }

    method FreeBytes(p: Addr)
      requires Listed() && Valid(View()) && Faithful() && (p != NULL ==> View().IsLive(p - HEADER))
      modifies this`units, this`links, this`order, this`head, this`brk, mem, this`defined
      ensures Listed() && View() == Free(old(View()), p) && Faithful()
      ensures defined == if p == NULL then old(defined) else FreedFrom(old(View()), old(defined), p)
    {
      if p != NULL {
        ghost var h := View();
        defined := Outside(defined, p, h.End(p - HEADER));
        LessAgrees(h, mem[..], old(defined), defined);
        ReleaseHolds(h, p - HEADER, Release(h, p - HEADER));
        ReleaseBlock(p - HEADER);
        StillAgrees(h, View(), old(mem[..]), mem[..], defined);
      }
    }

    /** Copies what is at `p` to `r`. */
    method CopyBytes(p: Addr, r: Addr, len: nat)
      requires 0 <= p && p + len <= mem.Length && 0 <= r && r + len <= mem.Length
      modifies mem
      ensures CopiedTo(old(mem[..]), mem[..], p, r, len)
    {
      forall k | 0 <= k < len {
        mem[r + k] := mem[p + k];
      }
      ghost var m, m' := old(mem[..]), mem[..];
      forall k ensures CopiedAt(m, m', p, r, len, k) {
        assert r <= k < r + len ==> mem[r + (k - r)] == old(mem[p + (k - r)]);
      }
    }

    /** Copies what block `a` holds to the bytes of another, at `r`; no length and
        no link is among those. */
    method FillBlock(a: Addr, r: Addr)
      requires Listed() && LiveApart(View()) && CanCopy(View(), a, r, defined)
      modifies mem
      ensures Listed() && CopiedTo(old(mem[..]), mem[..], a + HEADER, r, Usable(View(), a))
    {
      ghost var m := mem[..];
      var size := LengthOf(a);
      assert InBounds(units, mem.Length, a) && InBounds(units, mem.Length, r - HEADER);
      CopyBytes(a + HEADER, r, UNIT * size - HEADER);
      forall k | 0 <= k < mem.Length && !(r <= k < r + Usable(View(), a)) ensures mem[..][k] == m[k] {
        assert CopiedAt(m, mem[..], a + HEADER, r, Usable(View(), a), k);
      }
      UserBytesKeepBooks(m, mem[..], units, links, r - HEADER);
    }

    /** Gives what block `a` holds to the block whose bytes start at `r`. */
    method CopyBlock(a: Addr, r: Addr)
      requires Listed() && Valid(View()) && Faithful() && CanCopy(View(), a, r, defined)
      modifies mem, this`contents, this`defined
      ensures Listed() && Valid(View()) && Faithful()
      ensures View() == old(View()).(mem := Copy(old(View()).mem, a + HEADER, r, Usable(old(View()), a)))
      ensures defined == old(defined) + Moved(old(defined), a + HEADER, old(View()).End(a), r)
    {
      ghost var h, m := View(), mem[..];
      LiveBlocksApart(h);
      FillBlock(a, r);
      contents := Copy(contents, a + HEADER, r, Usable(h, a));
      CopyKeepsFaith(h, m, defined, a, r, View(), mem[..]);
      defined := defined + Moved(defined, a + HEADER, h.End(a), r);
    }

    method MoveInto(a: Addr, r: Addr)
      requires Listed() && Valid(View()) && Faithful() && CanCopy(View(), a, r, defined)
      modifies this`units, this`links, this`order, this`head, this`brk, mem, this`contents, this`defined
      ensures Listed() && View() == Relocated(old(View()), a, r) && Faithful()
      ensures defined == MovedFrom(old(View()), old(defined), a, r)
    {
      ghost var h := View();
      CopyBlock(a, r);
      CopiedOutside(h, defined, old(defined), a, r);
      FreeBytes(a + HEADER);
    }

    // The cases of realloc(), each with the promise of the whole.

    method ReallocateNull(n: nat) returns (r: Addr)
      requires Listed() && Valid(View()) && Faithful()
      modifies this`units, this`links, this`order, this`head, this`brk, mem, this`contents, this`defined
      ensures Listed() && Realloc(old(View()), NULL, n, View(), r) && Faithful()
      ensures defined == DefinedAfter(old(View()), old(defined), DoRealloc(NULL, n), r)
    {
      ghost var h := View();
      r := AllocateBytes(n);
      ReallocOfNull(h, n, View(), r);
    }

    method ReallocateToNothing(p: Addr) returns (r: Addr)
      requires Listed() && Valid(View()) && Faithful() && View().IsLive(p - HEADER) && p != NULL
      modifies this`units, this`links, this`order, this`head, this`brk, mem, this`contents, this`defined
      ensures Listed() && Realloc(old(View()), p, 0, View(), r) && Faithful()
      ensures defined == DefinedAfter(old(View()), old(defined), DoRealloc(p, 0), r)
    {
      ghost var h := View();
      FreeKeepsValid(h, p, Free(h, p));
      FreeBytes(p);
      r := AllocateBytes(0);
      ReallocToNothing(h, p, View(), r);
    }

    method ReallocateAbsorbing(p: Addr, n: nat) returns (r: Addr)
      requires Listed() && Valid(View()) && Faithful() && p != NULL && n > 0 && CanAbsorb(View(), p - HEADER, Need(n))
      modifies this`units, this`links, this`order, this`head, this`brk, mem
      ensures Listed() && Realloc(old(View()), p, n, View(), r) && Faithful()
      ensures defined == DefinedAfter(old(View()), defined, DoRealloc(p, n), r)
    {
      ghost var h := View();
      AbsorbHolds(h, p - HEADER, Need(n), Absorb(h, p - HEADER, Need(n)));
      AbsorbNext(p - HEADER, Need(n));
      StillAgrees(h, View(), old(mem[..]), mem[..], defined);
      ReallocAbsorbs(h, p, n, View());
      return p;
    }

    method ReallocateExtending(p: Addr, n: nat) returns (r: Addr)
      requires Listed() && Valid(View()) && Faithful() && p != NULL && n > 0 && View().IsLive(p - HEADER)
      requires units[p - HEADER] < Need(n) && !CanAbsorb(View(), p - HEADER, Need(n)) && View().End(p - HEADER) == brk
      modifies this`units, this`links, this`order, this`head, this`brk, mem
      ensures Listed() && Realloc(old(View()), p, n, View(), r) && Faithful()
      ensures defined == DefinedAfter(old(View()), defined, DoRealloc(p, n), r)
    {
      ghost var h := View();
      var a, need := p - HEADER, Need(n);
      var size := LengthOf(a);
      if brk + UNIT * Pages(need - size) > limit {
        ReallocFails(h, p, n);
        return NULL;
      }
      ExtendHolds(h, a, need, Extend(h, a, need));
      ExtendLast(a, need);
      StillAgrees(h, View(), old(mem[..]), mem[..], defined);
      ReallocExtends(h, p, n, View());
      return p;
    }

    /** A new block, if there is one, takes over from block `a`; `h1` is the heap
        that has both. */
    method MoveToNew(a: Addr, n: nat) returns (r: Addr, ghost h1: Heap)
      requires Listed() && Valid(View()) && Faithful() && View().IsLive(a) && units[a] < Need(n)
      modifies this`units, this`links, this`order, this`head, this`brk, mem, this`contents, this`defined
      ensures Listed() && Faithful() && Malloc(old(View()), n, h1, r) && r != a + HEADER
      ensures if r == NULL then View() == old(View()) else a in h1.blocks && View() == Relocated(h1, a, r)
      ensures defined == if r == NULL then old(defined) else MovedFrom(old(View()), old(defined), a, r)
    {
      ghost var h, m := View(), mem[..];
      LiveBlocksApart(h);
      r := AllocateBytes(n);
      h1 := View();
      if r != NULL {
        RoomToCopy(h, a, n, h1, r, m, defined);
        MovedAlike(h, h1, defined, a, r);
        MoveInto(a, r);
      }
    }

    method ReallocateMoving(p: Addr, n: nat) returns (r: Addr)
      requires Listed() && Valid(View()) && Faithful() && p != NULL && n > 0 && View().IsLive(p - HEADER)
      requires units[p - HEADER] < Need(n) && !CanAbsorb(View(), p - HEADER, Need(n)) && View().End(p - HEADER) != brk
      modifies this`units, this`links, this`order, this`head, this`brk, mem, this`contents, this`defined
      ensures Listed() && Realloc(old(View()), p, n, View(), r) && Faithful()
      ensures defined == DefinedAfter(old(View()), old(defined), DoRealloc(p, n), r)
    {
      ghost var h, h1 := View(), View();
      r, h1 := MoveToNew(p - HEADER, n);
      ReallocMoves(h, p, n, h1, View(), r, old(defined), defined);
    }

    method ReallocateBlock(p: Addr, n: nat) returns (r: Addr)
      requires Listed() && Valid(View()) && Faithful() && View().IsLive(p - HEADER) && p != NULL && n > 0
      modifies this`units, this`links, this`order, this`head, this`brk, mem, this`contents, this`defined
      ensures Listed() && Realloc(old(View()), p, n, View(), r) && Faithful()
      ensures defined == DefinedAfter(old(View()), old(defined), DoRealloc(p, n), r)
    {
      var a, need := p - HEADER, Need(n);
      var size := LengthOf(a);
      if need <= size {
        ReallocKeeps(View(), p, n, defined);
        return p;
      }
      var enough := CanGrowInto(a, need);
      if enough {
        r := ReallocateAbsorbing(p, n);
      } else if a + UNIT * size == brk {
        r := ReallocateExtending(p, n);
      } else {
        r := ReallocateMoving(p, n);
      }
    }

    /** Whether the block behind is free and large enough to make up the rest. */
    method CanGrowInto(a: Addr, need: nat) returns (enough: bool)
      requires Listed() && View().IsLive(a) && units[a] < need
      ensures enough <==> CanAbsorb(View(), a, need)
    {
      var size := LengthOf(a);
      enough := IsOnList(a + UNIT * size);
      if enough {
        var more := LengthOf(a + UNIT * size);
        enough := size + more >= need;
      }
    }

    method ReallocateBytes(p: Addr, n: nat) returns (r: Addr)
      requires Listed() && Valid(View()) && Faithful() && (p != NULL ==> View().IsLive(p - HEADER))
      modifies this`units, this`links, this`order, this`head, this`brk, mem, this`contents, this`defined
      ensures Listed() && Realloc(old(View()), p, n, View(), r) && Faithful()
      ensures defined == DefinedAfter(old(View()), old(defined), DoRealloc(p, n), r)
    {
      if p == NULL {
        r := ReallocateNull(n);
      } else if n == 0 {
        r := ReallocateToNothing(p);
      } else {
        r := ReallocateBlock(p, n);
      }
    }

    /** A program writes into its own block, and no length or link is lost. */
    method StoreByte(a: Addr, k: nat, b: Byte)
      requires Listed() && Valid(View()) && Faithful() && Allowed(View(), DoStore(a, k, b))
      modifies mem, this`contents, this`defined
      ensures Listed() && Store(old(View()), a, k, b, View()) && Faithful()
      ensures defined == old(defined) + {k}
    {
      ghost var h, m := View(), mem[..];
      mem[k] := b;
      UserBytesKeepBooks(m, mem[..], units, links, a);
      contents := contents[k := b];
      defined := defined + {k};
      StoreAgrees(h, m, old(defined), a, k, b, View(), mem[..]);
    }

    /** A byte with a defined value is found to have it. */
    method LoadByte(k: Addr) returns (b: Byte)
      requires Faithful() && k in defined
      ensures 0 <= k < |View().mem| && b == View().mem[k]
    {
      assert AgreesAt(View(), mem[..], defined, k);
      b := mem[k];
    }

    /** Whatever a program may ask for, the arena answers it as the heap of
        `Heap.Performs` does, and is in order again afterwards. */
    method Perform(call: Call) returns (r: Addr)
      requires Listed() && Valid(View()) && Faithful() && Allowed(View(), call)
      modifies this, mem
      ensures Listed() && Valid(View()) && Faithful() && Performs(old(View()), call, View(), r)
      ensures defined == DefinedAfter(old(View()), old(defined), call, r)
    {
      ghost var h := View();
      r := Dispatch(call);
      PerformsKeepsValid(h, call, View(), r);
    }

    /** A whole run; `heaps` and `values` are what it goes through. */
    method PerformAll(calls: seq<Call>) returns (results: seq<Addr>, ghost heaps: seq<Heap>, ghost values: seq<set<Addr>>)
      requires Listed() && Valid(View()) && Faithful() && AlwaysAllowed(View(), calls)
      modifies this, mem
      ensures Listed() && Valid(View()) && Faithful()
      ensures DefinedRun(heaps, calls, results, values)
      ensures heaps[0] == old(View()) && heaps[|calls|] == View()
      ensures values[0] == old(defined) && values[|calls|] == defined
    {
      results, heaps, values := [], [View()], [defined];
      assert calls[0..] == calls && calls[..0] == [];
      for k := 0 to |calls|
        invariant Listed() && Valid(View()) && Faithful() && AlwaysAllowed(View(), calls[k..])
        invariant DefinedRun(heaps, calls[..k], results, values)
        invariant heaps[0] == old(View()) && heaps[k] == View()
        invariant values[0] == old(defined) && values[k] == defined
      {
        assert calls[k..][0] == calls[k] && calls[k..][1..] == calls[k + 1..];
        var r := Perform(calls[k]);
        RunGrows(heaps, calls, results, values, k, View(), r, defined);
        results, heaps, values := results + [r], heaps + [View()], values + [defined];
      }
      assert calls[..|calls|] == calls;
    }

    /** What a program stores, it finds again, whatever else is asked of the arena
        in between, as long as nobody else is given the block. */
    method StoreThenFind(a: Addr, k: nat, b: Byte, calls: seq<Call>) returns (found: Byte)
      requires Listed() && Valid(View()) && Faithful() && AlwaysAllowed(View(), [DoStore(a, k, b)] + calls)
      requires forall i :: 0 <= i < |calls| ==> SparesBlock(calls[i], a)
      modifies this, mem
      ensures Listed() && Valid(View()) && Faithful() && found == b
    {
      assert ([DoStore(a, k, b)] + calls)[1..] == calls;
      var _ := Perform(DoStore(a, k, b));
      ghost var heaps, values;
      var results;
      results, heaps, values := PerformAll(calls);
      StoredByteKept(heaps, calls, results, values, |calls|, a, k);
      found := LoadByte(k);
    }

    method Dispatch(call: Call) returns (r: Addr)
      requires Listed() && Valid(View()) && Faithful() && Allowed(View(), call)
      modifies this, mem
      ensures Listed() && Faithful() && Performs(old(View()), call, View(), r)
      ensures defined == DefinedAfter(old(View()), old(defined), call, r)
    {
      if call.DoMalloc? {
        r := AllocateBytes(call.n);
      } else if call.DoFree? {
        FreeBytes(call.p);
        r := NULL;
      } else if call.DoRealloc? {
        r := ReallocateBytes(call.p, call.n);
      } else {
        StoreByte(call.a, call.k, call.b);
        r := NULL;
      }
    }
  }

  /** The neighbours of a block on the list are on it, too. */
  lemma NeighboursListed(links: Links, order: seq<Addr>, units: map<Addr, nat>, m: seq<Byte>, a: Addr)
    requires Spells(links, order) && Books(m, units, links) && a in links.next && a in links.prev
    ensures links.prev[a] == NULL || (links.prev[a] in links.next && 0 <= links.prev[a] <= |m|)
    ensures links.next[a] == NULL || (links.next[a] in links.next && 0 <= links.next[a] <= |m|)
  {
    var k :| 0 <= k < |order| && order[k] == a;
    assert LinkedAt(links, order, k);
    AtEnd(order, k - 1);
    AtEnd(order, k + 1);
    assert InBounds(units, |m|, links.prev[a]) && InBounds(units, |m|, links.next[a]);
  }

  lemma HeadListed(links: Links, order: seq<Addr>, units: map<Addr, nat>, m: seq<Byte>, a: Addr)
    requires Spells(links, order) && Books(m, units, links) && a in units && a !in links.next
    ensures a != NULL && a !in order && 0 <= a <= |m| && 0 <= links.head <= |m|
    ensures links.head == NULL || (links.head in links.next && links.head in units && links.head != a)
  {
    AtEnd(order, 0);
    assert InBounds(units, |m|, a) && InBounds(units, |m|, links.head);
  }

  ghost predicate RoomForPieces(units: map<Addr, nat>, limit: Addr, lo: Addr, s1: nat, s2: nat) {
    && (s1 > 0 ==> RoomFor(units, limit, lo, s1))
    && (s2 > 0 ==> s1 > 0 && RoomFor(units[lo := s1], limit, lo + UNIT * s1, s2))
  }

  /** Once the stretch is cleared, there is room for the pieces. */
  lemma ClearedHasRoom(h: Heap, lo: Addr, hi: Addr, s1: nat, s2: nat, units: map<Addr, nat>, free: set<Addr>)
    requires CanRecut(h, lo, hi, s1, s2) && Cleared(h, lo, hi, units, free)
    ensures RoomForPieces(units, h.limit, lo, s1, s2)
  {
    forall a ensures a in units ==> a + UNIT * units[a] <= lo || lo + UNIT * (s1 + s2) <= a {
      if a in units && a < lo { EndsBefore(h, a, lo); }
    }
    forall a ensures Clear(units, lo, s1, a) && Clear(units[lo := s1], lo + UNIT * s1, s2, a) {}
  }

  lemma FreeBlocksAre(units: map<Addr, nat>, free: set<Addr>, h: Heap)
    requires free <= units.Keys && h.blocks == map a | a in units :: Block(units[a], a in free)
    ensures FreeBlocks(h) == free && h.blocks.Keys == units.Keys
  {}

  /** Links and lengths are written outside the bytes in use. */
  lemma RecutFramed(h: Heap, lo: Addr, hi: Addr, s1: nat, free1: bool, s2: nat, h': Heap, m: seq<Byte>, m1: seq<Byte>, m': seq<Byte>)
    requires CanRecut(h, lo, hi, s1, s2) && h' == Recut(h, lo, hi, s1, free1, s2)
    requires Framed(m, m1, FreeBlocks(h), {}) && Framed(m1, m', FreeBlocks(h'), h'.blocks.Keys)
    ensures SameHeld(h, h', m, m')
  {
    var free := FreeBlocks(h) + FreeBlocks(h');
    RecutInRange(h, lo, hi, s1, free1, s2);
    RecutDisjoint(h, lo, hi, s1, free1, s2);
    FramedMore(m, m1, FreeBlocks(h), {}, free, h'.blocks.Keys);
    FramedMore(m1, m', FreeBlocks(h'), h'.blocks.Keys, free, h'.blocks.Keys);
    FramedTwice(m, m1, m', free, h'.blocks.Keys);
    FramedHeld(h, h', m, m');
  }

  /** At most one free block ends where another block begins. */
  lemma FreeFromIs(h: Heap, a: Addr, b: Addr)
    requires Tiled(h)
    requires if b == NULL then NoFreeBefore(h, a) else h.IsFree(b) && h.End(b) == a
    ensures FreeFrom(h, a) == if b == NULL then a else b
  {}

  // ----- Bytes with a defined value -----

  function Outside(defined: set<Addr>, lo: Addr, hi: Addr): set<Addr> {
    set k | k in defined && !(lo <= k < hi)
  }

  predicate ComesFrom(defined: set<Addr>, lo: Addr, r: Addr, k: Addr) { lo + k - r in defined }

  function Moved(defined: set<Addr>, lo: Addr, hi: Addr, r: Addr): set<Addr> {
    set k | r <= k < r + hi - lo && ComesFrom(defined, lo, r, k)
  }

  /** What was defined in the block whose bytes start at `p` is so no longer. */
  function FreedFrom(h: Heap, defined: set<Addr>, p: Addr): set<Addr> {
    if p - HEADER in h.blocks then Outside(defined, p, h.End(p - HEADER)) else defined
  }

  /** What was defined in block `a` is now defined from `r` on. */
  function MovedFrom(h: Heap, defined: set<Addr>, a: Addr, r: Addr): set<Addr> {
    if a in h.blocks then
      FreedFrom(h, defined, a + HEADER) + Moved(defined, a + HEADER, h.End(a), r)
    else defined
  }

  lemma MovedAlike(h: Heap, h1: Heap, defined: set<Addr>, a: Addr, r: Addr)
    requires a in h.blocks && a in h1.blocks && h1.blocks[a] == h.blocks[a]
    ensures MovedFrom(h1, defined, a, r) == MovedFrom(h, defined, a, r)
  {}

  /** A store defines a byte, malloc() none; free() and moving a block leave its
      bytes undefined. */
  function DefinedAfter(h: Heap, defined: set<Addr>, call: Call, r: Addr): set<Addr> {
    match call
    case DoMalloc(_) => defined
    case DoFree(p) => if p == NULL then defined else FreedFrom(h, defined, p)
    case DoRealloc(p, n) =>
      if p == NULL then defined
      else if n == 0 then FreedFrom(h, defined, p)
      else if r == NULL || r == p then defined
      else MovedFrom(h, defined, p - HEADER, r)
    case DoStore(_, k, _) => defined + {k}
  }

  lemma ReallocOfNull(h: Heap, n: nat, h': Heap, r: Addr)
    requires Malloc(h, n, h', r)
    ensures Realloc(h, NULL, n, h', r)
  {}

  lemma ReallocToNothing(h: Heap, p: Addr, h': Heap, r: Addr)
    requires p != NULL && h.IsLive(p - HEADER) && Malloc(Free(h, p), 0, h', r)
    ensures Realloc(h, p, 0, h', r)
  {}

  lemma ReallocKeeps(h: Heap, p: Addr, n: nat, defined: set<Addr>)
    requires p != NULL && n > 0 && h.IsLive(p - HEADER) && Need(n) <= h.blocks[p - HEADER].units
    ensures Realloc(h, p, n, h, p) && DefinedAfter(h, defined, DoRealloc(p, n), p) == defined
  {}

  lemma ReallocAbsorbs(h: Heap, p: Addr, n: nat, h': Heap)
    requires p != NULL && n > 0 && CanAbsorb(h, p - HEADER, Need(n)) && h' == Absorb(h, p - HEADER, Need(n))
    ensures Realloc(h, p, n, h', p)
  {}

  lemma ReallocFails(h: Heap, p: Addr, n: nat)
    requires p != NULL && n > 0 && h.IsLive(p - HEADER) && h.blocks[p - HEADER].units < Need(n)
    requires !CanAbsorb(h, p - HEADER, Need(n)) && h.End(p - HEADER) == h.brk
    requires h.brk + UNIT * Pages(Need(n) - h.blocks[p - HEADER].units) > h.limit
    ensures Realloc(h, p, n, h, NULL)
  {}

  lemma ReallocExtends(h: Heap, p: Addr, n: nat, h': Heap)
    requires p != NULL && n > 0 && h.IsLive(p - HEADER) && h.blocks[p - HEADER].units < Need(n)
    requires !CanAbsorb(h, p - HEADER, Need(n)) && h.End(p - HEADER) == h.brk
    requires h.brk + UNIT * Pages(Need(n) - h.blocks[p - HEADER].units) <= h.limit
    requires h' == Extend(h, p - HEADER, Need(n))
    ensures Realloc(h, p, n, h', p)
  {}

  lemma ReallocMoves(h: Heap, p: Addr, n: nat, h1: Heap, h': Heap, r: Addr, defined: set<Addr>, defined': set<Addr>)
    requires p != NULL && n > 0 && h.IsLive(p - HEADER) && h.blocks[p - HEADER].units < Need(n)
    requires !CanAbsorb(h, p - HEADER, Need(n)) && h.End(p - HEADER) != h.brk
    requires Malloc(h, n, h1, r)
    requires if r == NULL then h' == h else p - HEADER in h1.blocks && h' == Relocated(h1, p - HEADER, r)
    requires r != p && defined' == if r == NULL then defined else MovedFrom(h, defined, p - HEADER, r)
    ensures Realloc(h, p, n, h', r) && defined' == DefinedAfter(h, defined, DoRealloc(p, n), r)
  {}

  lemma StillAgrees(h: Heap, h': Heap, m: seq<Byte>, m': seq<Byte>, defined: set<Addr>)
    requires Agrees(h, m, defined) && SameHeld(h, h', m, m') && h'.mem == h.mem
    requires forall k :: k in defined && Held(h, k) ==> Held(h', k)
    ensures Agrees(h', m', defined)
  {
    forall k ensures AgreesAt(h', m', defined, k) {
      assert AgreesAt(h, m, defined, k);
    }
  }

  lemma LessAgrees(h: Heap, m: seq<Byte>, defined: set<Addr>, defined': set<Addr>)
    requires Agrees(h, m, defined) && defined' <= defined
    ensures Agrees(h, m, defined')
  {
    forall k ensures AgreesAt(h, m, defined', k) {
      assert AgreesAt(h, m, defined, k);
    }
  }

  lemma MallocHolds(h: Heap, n: nat, h': Heap, p: Addr)
    requires Valid(h) && Malloc(h, n, h', p)
    ensures h'.mem == h.mem && forall k :: Held(h, k) ==> Held(h', k)
  {
    forall k | Held(h, k) ensures Held(h', k) {
      var x :| h.IsLive(x) && x + HEADER <= k < h.End(x);
      MallocLive(h, n, h', p, x);
      assert h'.IsLive(x) && h'.End(x) == h.End(x);
    }
    MallocLive(h, n, h', p, NULL);
  }

  lemma ReleaseHolds(h: Heap, a: Addr, h': Heap)
    requires Valid(h) && h.IsLive(a) && h' == Release(h, a)
    ensures h'.mem == h.mem
    ensures forall k :: Held(h, k) && !(a + HEADER <= k < h.End(a)) ==> Held(h', k)
  {
    forall k | Held(h, k) && !(a + HEADER <= k < h.End(a)) ensures Held(h', k) {
      var x :| h.IsLive(x) && x + HEADER <= k < h.End(x);
      ReleaseLive(h, a, x);
      assert h'.IsLive(x) && h'.End(x) == h.End(x);
    }
    ReleaseLive(h, a, a);
  }

  /** A block that grows where it is holds what it held. */
  lemma GrownHolds(h: Heap, a: Addr, h': Heap, k: int)
    requires h.IsLive(a) && h'.IsLive(a) && h.blocks[a].units <= h'.blocks[a].units
    requires forall x :: h.IsLive(x) && x != a ==> h'.IsLive(x) && h'.blocks[x] == h.blocks[x]
    requires Held(h, k)
    ensures Held(h', k)
  {}

  lemma AbsorbHolds(h: Heap, a: Addr, need: nat, h': Heap)
    requires Valid(h) && CanAbsorb(h, a, need) && h' == Absorb(h, a, need)
    ensures h'.mem == h.mem && forall k :: Held(h, k) ==> Held(h', k)
  {
    var next := h.End(a);
    var rest := h.blocks[a].units + h.blocks[next].units - need;
    forall x | h.IsLive(x) ensures h'.IsLive(x) && (x != a ==> h'.blocks[x] == h.blocks[x]) && (x == a ==> h'.blocks[x].units == need) {
      RecutBlock(h, a, h.End(next), need, false, rest, x);
    }
    forall k | Held(h, k) ensures Held(h', k) {
      GrownHolds(h, a, h', k);
    }
  }

  lemma ExtendHolds(h: Heap, a: Addr, need: nat, h': Heap)
    requires Valid(h) && h.IsLive(a) && h.blocks[a].units < need && h.End(a) == h.brk && h' == Extend(h, a, need)
    ensures h'.mem == h.mem && forall k :: Held(h, k) ==> Held(h', k)
  {
    Rounding(need - h.blocks[a].units);
    var rest := h.blocks[a].units + Pages(need - h.blocks[a].units) - need;
    forall x | h.IsLive(x) ensures h'.IsLive(x) && (x != a ==> h'.blocks[x] == h.blocks[x]) && (x == a ==> h'.blocks[x].units == need) {
      RecutBlock(h, a, h.brk, need, false, rest, x);
    }
    forall k | Held(h, k) ensures Held(h', k) {
      GrownHolds(h, a, h', k);
    }
  }

  lemma StoreAgrees(h: Heap, m: seq<Byte>, defined: set<Addr>, a: Addr, k: nat, b: Byte, h': Heap, m': seq<Byte>)
    requires Agrees(h, m, defined) && Store(h, a, k, b, h') && m' == m[k := b]
    ensures Agrees(h', m', defined + {k})
  {
    forall j ensures AgreesAt(h', m', defined + {k}, j) {
      assert AgreesAt(h, m, defined, j);
      if j in defined { SameBlocksHold(h, h', j); }
      assert h'.IsLive(a) && h'.End(a) == h.End(a);
    }
  }

  /** There is a block in use at `r` with room for what block `a` holds, and with
      no byte yet defined. */
  ghost predicate CanCopy(h: Heap, a: Addr, r: Addr, defined: set<Addr>) {
    && h.IsLive(a) && h.IsLive(r - HEADER) && r - HEADER != a
    && r + Usable(h, a) <= h.End(r - HEADER)
    && forall k :: k in defined ==> !(r <= k < h.End(r - HEADER))
  }

  lemma RoomToCopy(h: Heap, a: Addr, n: nat, h1: Heap, r: Addr, m: seq<Byte>, defined: set<Addr>)
    requires Valid(h) && h.IsLive(a) && h.blocks[a].units < Need(n) && Malloc(h, n, h1, r) && r != NULL
    requires Agrees(h, m, defined)
    ensures Valid(h1) && CanCopy(h1, a, r, defined) && h1.blocks[a] == h.blocks[a]
  {
    MallocKeepsValid(h, n, h1, r);
    MallocGains(h, n, h1, r);
    LiveBlocksApart(h1);
    GainedRoom(h, a, n, h1, r, m, defined);
  }

  lemma GainedRoom(h: Heap, a: Addr, n: nat, h1: Heap, r: Addr, m: seq<Byte>, defined: set<Addr>)
    requires h.IsLive(a) && h.blocks[a].units < Need(n) && Gained(h, n, h1, r) && LiveApart(h1)
    requires Agrees(h, m, defined)
    ensures CanCopy(h1, a, r, defined) && h1.blocks[a] == h.blocks[a]
  {
    Rounding(n);
    forall k | k in defined ensures !(r <= k < h1.End(r - HEADER)) {
      assert AgreesAt(h, m, defined, k);
      var x :| h.IsLive(x) && x + HEADER <= k < h.End(x);
      assert h1.IsLive(x) && h1.End(x) == h.End(x) && x != r - HEADER;
    }
  }

  /** `len` bytes have gone from one place to another, and no other changed. */
  ghost predicate CopiedTo(m: seq<Byte>, m': seq<Byte>, from: Addr, to: Addr, len: nat) {
    |m'| == |m| && forall k {:trigger CopiedAt(m, m', from, to, len, k)} :: CopiedAt(m, m', from, to, len, k)
  }

  ghost predicate CopiedAt(m: seq<Byte>, m': seq<Byte>, from: Addr, to: Addr, len: nat, k: int)
    requires |m'| == |m|
  {
    0 <= k < |m| ==> m'[k] == if to <= k < to + len && 0 <= from + k - to < |m| then m[from + k - to] else m[k]
  }

  lemma CopyIsCopied(m: seq<Byte>, from: Addr, to: Addr, len: nat)
    requires 0 <= from <= from + len <= |m| && 0 <= to <= to + len <= |m|
    ensures CopiedTo(m, Copy(m, from, to, len), from, to, len)
  {}

  lemma SameBlocksHold(h: Heap, h': Heap, k: int)
    requires h'.blocks == h.blocks && Held(h, k)
    ensures Held(h', k)
  {
    var x :| h.IsLive(x) && x + HEADER <= k < h.End(x);
    assert h'.IsLive(x) && h'.End(x) == h.End(x);
  }

  lemma CopyBounds(h: Heap, a: Addr, r: Addr, defined: set<Addr>)
    requires LiveApart(h) && CanCopy(h, a, r, defined) && h.blocks[a].Bytes() >= HEADER
    ensures 0 < a && a + HEADER + Usable(h, a) == h.End(a) <= |h.mem|
    ensures 0 < r && r + Usable(h, a) <= h.End(r - HEADER) <= |h.mem|
    ensures h.End(a) <= r - HEADER || h.End(r - HEADER) <= a
  {}

  /** A byte that is copied with its block agrees where it arrives. */
  lemma MovedAgrees(h: Heap, m: seq<Byte>, defined: set<Addr>, a: Addr, r: Addr, h': Heap, m': seq<Byte>, k: Addr)
    requires Agrees(h, m, defined) && CanCopy(h, a, r, defined) && h'.blocks == h.blocks
    requires 0 <= a && 0 < r && h.End(r - HEADER) <= |m|
    requires CopiedTo(m, m', a + HEADER, r, Usable(h, a)) && CopiedTo(h.mem, h'.mem, a + HEADER, r, Usable(h, a))
    requires r <= k < r + h.End(a) - (a + HEADER) && ComesFrom(defined, a + HEADER, r, k)
    ensures Held(h', k) && 0 <= k < |m'| == |h'.mem| && m'[k] == h'.mem[k]
  {
    var len := Usable(h, a);
    assert AgreesAt(h, m, defined, a + HEADER + k - r);
    assert CopiedAt(m, m', a + HEADER, r, len, k) && CopiedAt(h.mem, h'.mem, a + HEADER, r, len, k);
    assert h'.IsLive(r - HEADER) && r - HEADER + HEADER <= k < h'.End(r - HEADER);
  }

  lemma CopyAgrees(h: Heap, m: seq<Byte>, defined: set<Addr>, a: Addr, r: Addr, h': Heap, m': seq<Byte>)
    requires Agrees(h, m, defined) && CanCopy(h, a, r, defined) && h'.blocks == h.blocks
    requires 0 <= a && 0 < r && h.End(r - HEADER) <= |m|
    requires CopiedTo(m, m', a + HEADER, r, Usable(h, a)) && CopiedTo(h.mem, h'.mem, a + HEADER, r, Usable(h, a))
    ensures Agrees(h', m', defined + Moved(defined, a + HEADER, h.End(a), r))
  {
    var len := Usable(h, a);
    var moved := Moved(defined, a + HEADER, h.End(a), r);
    forall k ensures AgreesAt(h', m', defined + moved, k) {
      assert AgreesAt(h, m, defined, k);
      assert CopiedAt(m, m', a + HEADER, r, len, k) && CopiedAt(h.mem, h'.mem, a + HEADER, r, len, k);
      if k in defined { SameBlocksHold(h, h', k); }
      if k in moved { MovedAgrees(h, m, defined, a, r, h', m', k); }
    }
  }

  lemma CopyKeepsFaith(h: Heap, m: seq<Byte>, defined: set<Addr>, a: Addr, r: Addr, h': Heap, m': seq<Byte>)
    requires Valid(h) && Agrees(h, m, defined) && CanCopy(h, a, r, defined)
    requires h' == h.(mem := Copy(h.mem, a + HEADER, r, Usable(h, a)))
    requires CopiedTo(m, m', a + HEADER, r, Usable(h, a))
    ensures Valid(h') && Agrees(h', m', defined + Moved(defined, a + HEADER, h.End(a), r))
  {
    LiveBlocksApart(h);
    CopyBounds(h, a, r, defined);
    CopyIsCopied(h.mem, a + HEADER, r, Usable(h, a));
    SameBlocksValid(h, h');
    CopyAgrees(h, m, defined, a, r, h', m');
  }

  lemma CopiedOutside(h: Heap, defined': set<Addr>, defined: set<Addr>, a: Addr, r: Addr)
    requires LiveApart(h) && CanCopy(h, a, r, defined) && h.blocks[a].Bytes() >= HEADER
    requires defined' == defined + Moved(defined, a + HEADER, h.End(a), r)
    ensures Outside(defined', a + HEADER, h.End(a)) == MovedFrom(h, defined, a, r)
  {}

  // ----- What a program has stored, it finds again -----

  /** A call that gets no pointer to block `x` leaves its defined bytes defined. */
  lemma StaysDefined(h: Heap, defined: set<Addr>, call: Call, h': Heap, r: Addr, x: Addr, k: Addr)
    requires LiveApart(h) && Performs(h, call, h', r) && SparesBlock(call, x)
    requires h.IsLive(x) && x + HEADER <= k < h.End(x) && k in defined
    ensures k in DefinedAfter(h, defined, call, r)
  {
    if (call.DoFree? || call.DoRealloc?) && call.p != NULL {
      OtherBlocksByte(h, call.p - HEADER, x, k);
      OutsideStays(h, defined, call.p, r, k);
    }
  }

  lemma OutsideStays(h: Heap, defined: set<Addr>, p: Addr, r: Addr, k: Addr)
    requires p - HEADER in h.blocks && k in defined && !(p - HEADER <= k < h.End(p - HEADER))
    ensures k in FreedFrom(h, defined, p) && k in MovedFrom(h, defined, p - HEADER, r)
  {}

  lemma OtherBlocksByte(h: Heap, a: Addr, x: Addr, k: Addr)
    requires LiveApart(h) && h.IsLive(a) && h.IsLive(x) && a != x && x + HEADER <= k < h.End(x)
    ensures !(a <= k < h.End(a))
  {}

  ghost predicate DefinedRun(heaps: seq<Heap>, calls: seq<Call>, results: seq<Addr>, defined: seq<set<Addr>>) {
    && IsRun(heaps, calls, results) && |defined| == |heaps|
    && forall i :: 0 <= i < |calls| ==> defined[i + 1] == DefinedAfter(heaps[i], defined[i], calls[i], results[i])
  }

  /** Whatever the arena answers, each call is one that its caller may make. */
  ghost predicate AlwaysAllowed(h: Heap, calls: seq<Call>)
    decreases |calls|
  {
    calls != [] ==>
      && Allowed(h, calls[0])
      && forall h', r :: Performs(h, calls[0], h', r) ==> AlwaysAllowed(h', calls[1..])
  }

  lemma RunGrows(heaps: seq<Heap>, calls: seq<Call>, results: seq<Addr>, values: seq<set<Addr>>, k: nat, h: Heap, r: Addr, defined: set<Addr>)
    requires k < |calls| && DefinedRun(heaps, calls[..k], results, values)
    requires Performs(heaps[k], calls[k], h, r) && defined == DefinedAfter(heaps[k], values[k], calls[k], r)
    ensures DefinedRun(heaps + [h], calls[..k + 1], results + [r], values + [defined])
  {}

  lemma SameByte(h: Heap, h': Heap, x: Addr, k: Addr)
    requires SameBlock(h, h', x) && LiveApart(h) && LiveApart(h') && x <= k < h.End(x)
    ensures 0 <= k < |h.mem| && k < |h'.mem| && h'.mem[k] == h.mem[k]
  {}

  /** Over a run whose calls get no pointer to a block, each of its defined bytes
      stays defined, with the same value. */
  lemma {:induction false} StoredByteKept(heaps: seq<Heap>, calls: seq<Call>, results: seq<Addr>, defined: seq<set<Addr>>, n: nat, x: Addr, k: Addr)
    requires DefinedRun(heaps, calls, results, defined) && n < |heaps| && Valid(heaps[0])
    requires heaps[0].IsLive(x) && x + HEADER <= k < heaps[0].End(x) && k in defined[0]
    requires forall i :: 0 <= i < n ==> SparesBlock(calls[i], x)
    ensures 0 <= k < |heaps[n].mem| && k < |heaps[0].mem|
    ensures k in defined[n] && heaps[n].mem[k] == heaps[0].mem[k]
  {
    LiveBlocksApart(heaps[0]);
    SparedBlockKept(heaps, calls, results, n, x);
    LiveBlocksApart(heaps[n]);
    SameByte(heaps[0], heaps[n], x, k);
    if n > 0 {
      StoredByteKept(heaps, calls, results, defined, n - 1, x, k);
      SparedBlockKept(heaps, calls, results, n - 1, x);
      LiveBlocksApart(heaps[n - 1]);
      assert Performs(heaps[n - 1], calls[n - 1], heaps[n], results[n - 1]);
      StaysDefined(heaps[n - 1], defined[n - 1], calls[n - 1], heaps[n], results[n - 1], x, k);
    }
  }

  function WithPieces(units: map<Addr, nat>, lo: Addr, s1: nat, s2: nat): map<Addr, nat> {
    var one := if s1 > 0 then units[lo := s1] else units;
    if s2 > 0 then one[lo + UNIT * s1 := s2] else one
  }

  function WithFree(free: set<Addr>, lo: Addr, s1: nat, free1: bool, s2: nat): set<Addr> {
    free + (if s1 > 0 && free1 then {lo} else {}) + (if s2 > 0 then {lo + UNIT * s1} else {})
  }

  /** Lengths and free list agree with the blocks outside a stretch. */
  ghost predicate Cleared(h: Heap, lo: Addr, hi: Addr, units: map<Addr, nat>, free: set<Addr>) {
    && (forall x :: x in units <==> x in h.blocks && !(lo <= x < hi))
    && (forall x :: x in units && x in h.blocks ==> units[x] == h.blocks[x].units)
    && (forall x :: x in free <==> h.IsFree(x) && !(lo <= x < hi))
  }

  /** The block at `x` is the next to go. */
  lemma ClearedMore(h: Heap, lo: Addr, x: Addr, hi: Addr, units: map<Addr, nat>, free: set<Addr>)
    requires Tiled(h) && lo <= x < hi && Boundary(h, x) && Boundary(h, hi) && Cleared(h, lo, x, units, free)
    ensures x in units && x < x + UNIT * units[x] <= hi && Boundary(h, x + UNIT * units[x])
    ensures Cleared(h, lo, x + UNIT * units[x], units - {x}, free - {x})
  {
    OneBlock(h, x, hi);
  }

  /** Block `x` is the only one up to its end, which is not beyond `hi`. */
  lemma OneBlock(h: Heap, x: Addr, hi: Addr)
    requires Tiled(h) && Boundary(h, x) && Boundary(h, hi) && x < hi
    ensures x in h.blocks && x < h.End(x) <= hi && Boundary(h, h.End(x))
    ensures forall a :: a in h.blocks && x <= a < h.End(x) ==> a == x
  {
    assert HasNext(h, x);
  }

  /** With the pieces entered, the books describe the recut heap. */
  lemma SameBooks(h: Heap, lo: Addr, hi: Addr, s1: nat, free1: bool, s2: nat, units: map<Addr, nat>, free: set<Addr>)
    requires Cleared(h, lo, hi, units, free)
    requires (s1 > 0 ==> lo !in units) && (s2 > 0 ==> s1 > 0 && lo + UNIT * s1 !in units)
    ensures var units', free' := WithPieces(units, lo, s1, s2), WithFree(free, lo, s1, free1, s2);
            (map x | x in units' :: Block(units'[x], x in free')) == Recut(h, lo, hi, s1, free1, s2).blocks
  {
    var units', free' := WithPieces(units, lo, s1, s2), WithFree(free, lo, s1, free1, s2);
    var mine := map x | x in units' :: Block(units'[x], x in free');
    forall x
      ensures x in mine <==> x in Recut(h, lo, hi, s1, free1, s2).blocks
      ensures x in mine ==> mine[x] == Recut(h, lo, hi, s1, free1, s2).blocks[x]
    {
      RecutBlock(h, lo, hi, s1, free1, s2, x);
    }
  }
}
