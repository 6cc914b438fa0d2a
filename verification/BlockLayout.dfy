/** Where the allocator keeps its books: in the bytes of the blocks themselves
    (memalloc/README.org, Figures 7.1 to 7.3).

    The length of a block is a word at its start, in front of the bytes handed
    out.  A free block has, further in, a word for the next and one for the
    previous block on the list. */
module BlockLayout {
  import opened Basics
  import opened Words
  import opened Heap
  import opened FreeList

  const NEXT := HEADER
  const PREV := HEADER + SIZE

  // ----- Blocks apart from each other -----

  ghost predicate InBounds(units: map<Addr, nat>, limit: Addr, a: Addr) {
    a in units ==> 0 < a && 0 < units[a] && a + UNIT * units[a] <= limit
  }

  ghost predicate Apart(units: map<Addr, nat>, a: Addr, b: Addr) {
    a in units && b in units && a < b ==> a + UNIT * units[a] <= b
  }

  ghost predicate Spaced(units: map<Addr, nat>, limit: Addr) {
    && (forall a {:trigger InBounds(units, limit, a)} :: InBounds(units, limit, a))
    && (forall a, b {:trigger Apart(units, a, b)} :: Apart(units, a, b))
  }

  // ----- What the bytes say -----

  ghost predicate LengthAt(m: seq<Byte>, units: map<Addr, nat>, a: Addr) {
    a in units ==> Word(m, a) == units[a]
  }

  ghost predicate LinksAt(m: seq<Byte>, next: map<Addr, Addr>, prev: map<Addr, Addr>, a: Addr) {
    && (a in next ==> Word(m, a + NEXT) == next[a])
    && (a in prev ==> Word(m, a + PREV) == prev[a])
  }

  ghost predicate Laid(m: seq<Byte>, units: map<Addr, nat>, next: map<Addr, Addr>, prev: map<Addr, Addr>) {
    && (forall a {:trigger LengthAt(m, units, a)} :: LengthAt(m, units, a))
    && (forall a {:trigger LinksAt(m, next, prev, a)} :: LinksAt(m, next, prev, a))
  }

  /** The books as a whole: lengths and links for blocks apart from each other,
      and links only for blocks that have a length. */
  ghost predicate Books(m: seq<Byte>, units: map<Addr, nat>, links: Links) {
    && |m| < Values(SIZE) && Spaced(units, |m|) && Laid(m, units, links.next, links.prev)
    && links.next.Keys <= units.Keys && links.prev.Keys <= units.Keys
  }

  // ----- Which bytes belong to whom -----

  ghost predicate LinkByte(free: set<Addr>, k: int) {
    exists f :: f in free && f + NEXT <= k < f + UNIT
  }

  ghost predicate HeadByte(heads: set<Addr>, k: int) {
    exists a :: a in heads && a <= k < a + SIZE
  }

  /** All bytes but links of blocks in `free` and lengths of blocks in `heads`
      are as they were. */
  ghost predicate Framed(m: seq<Byte>, m': seq<Byte>, free: set<Addr>, heads: set<Addr>) {
    && |m'| == |m|
    && forall k :: 0 <= k < |m| && !LinkByte(free, k) && !HeadByte(heads, k) ==> m'[k] == m[k]
  }

  lemma FramedTwice(m: seq<Byte>, m': seq<Byte>, m'': seq<Byte>, free: set<Addr>, heads: set<Addr>)
    requires Framed(m, m', free, heads) && Framed(m', m'', free, heads)
    ensures Framed(m, m'', free, heads)
  {}

  lemma FramedMore(m: seq<Byte>, m': seq<Byte>, free: set<Addr>, heads: set<Addr>, free': set<Addr>, heads': set<Addr>)
    requires Framed(m, m', free, heads) && free <= free' && heads <= heads'
    ensures Framed(m, m', free', heads')
  {}

  // ----- Writing the books -----

  /** A word of block `f` is apart from the words of all other blocks. */
  lemma WordsApart(units: map<Addr, nat>, limit: Addr, a: Addr, f: Addr)
    requires Spaced(units, limit) && a in units && f in units && a != f
    ensures a + UNIT <= f || f + UNIT <= a
  {
    assert InBounds(units, limit, a) && InBounds(units, limit, f);
    assert Apart(units, a, f) && Apart(units, f, a);
  }

  /** The links of all blocks as `links`, but with one of `f` changed to `v`. */
  function Relinked(links: Links, f: Addr, next: bool, v: nat): Links {
    if next then links.(next := links.next[f := v]) else links.(prev := links.prev[f := v])
  }

  function LinkOffset(next: bool): nat { if next then NEXT else PREV }

  lemma RelinkedKeeps(m: seq<Byte>, m': seq<Byte>, units: map<Addr, nat>, links: Links, f: Addr, next: bool, v: nat)
    requires Books(m, units, links) && f in units && Rewritten(m, m', f + LinkOffset(next), v)
    ensures Books(m', units, Relinked(links, f, next, v))
    ensures Framed(m, m', {f}, {})
  {
    var x := f + LinkOffset(next);
    forall a ensures LengthAt(m', units, a) {
      assert LengthAt(m, units, a);
      if a in units {
        if a != f { WordsApart(units, |m|, a, f); }
        OtherWord(m, m', x, v, a);
      }
    }
    var links' := Relinked(links, f, next, v);
    forall a ensures LinksAt(m', links'.next, links'.prev, a) {
      assert LinksAt(m, links.next, links.prev, a);
      if a == f {
        OtherWord(m, m', x, v, f + LinkOffset(!next));
      } else if a in units {
        WordsApart(units, |m|, a, f);
        OtherWord(m, m', x, v, a + NEXT);
        OtherWord(m, m', x, v, a + PREV);
      }
    }
    forall k | 0 <= k < |m| && x <= k < x + SIZE ensures LinkByte({f}, k) {}
  }

  /** A block may be entered where there is room for it. */
  ghost predicate RoomFor(units: map<Addr, nat>, limit: Addr, x: Addr, size: nat) {
    && x !in units && 0 < x && 0 < size && x + UNIT * size <= limit
    && forall a {:trigger Clear(units, x, size, a)} :: Clear(units, x, size, a)
  }

  ghost predicate Clear(units: map<Addr, nat>, x: Addr, size: nat, a: Addr) {
    a in units ==> a + UNIT * units[a] <= x || x + UNIT * size <= a
  }

  lemma EnteredSpaced(units: map<Addr, nat>, limit: Addr, x: Addr, size: nat)
    requires Spaced(units, limit) && RoomFor(units, limit, x, size)
    ensures Spaced(units[x := size], limit)
  {
    var units' := units[x := size];
    forall a ensures InBounds(units', limit, a) {
      assert InBounds(units, limit, a);
    }
    forall a, b ensures Apart(units', a, b) {
      assert Apart(units, a, b) && Clear(units, x, size, a) && Clear(units, x, size, b);
      assert InBounds(units, limit, a) && InBounds(units, limit, b);
    }
  }

  lemma EnteredKeeps(m: seq<Byte>, m': seq<Byte>, units: map<Addr, nat>, links: Links, x: Addr, size: nat)
    requires Books(m, units, links) && RoomFor(units, |m|, x, size) && Rewritten(m, m', x, size)
    ensures Books(m', units[x := size], links)
    ensures Framed(m, m', {}, {x})
  {
    var units' := units[x := size];
    EnteredSpaced(units, |m|, x, size);
    forall a ensures LengthAt(m', units', a) {
      assert LengthAt(m, units, a);
      if a in units {
        WordsApart(units', |m|, a, x);
        OtherWord(m, m', x, size, a);
      }
    }
    forall a ensures LinksAt(m', links.next, links.prev, a) {
      assert LinksAt(m, links.next, links.prev, a);
      if a in units {
        WordsApart(units', |m|, a, x);
        OtherWord(m, m', x, size, a + NEXT);
        OtherWord(m, m', x, size, a + PREV);
      }
    }
    forall k | 0 <= k < |m| && x <= k < x + SIZE ensures HeadByte({x}, k) {}
  }

  /** Links may be forgotten, and bytes that are not looked at any more stay. */
  lemma UnlinkedKeeps(m: seq<Byte>, units: map<Addr, nat>, links: Links, a: Addr, head: Addr)
    requires Books(m, units, links)
    ensures Books(m, units, Links(head, links.next - {a}, links.prev - {a}))
  {
    forall b ensures LinksAt(m, links.next - {a}, links.prev - {a}, b) {
      assert LinksAt(m, links.next, links.prev, b);
    }
  }

  /** Striking a block that has no links changes no bytes. */
  lemma StruckKeeps(m: seq<Byte>, units: map<Addr, nat>, links: Links, x: Addr)
    requires Books(m, units, links) && x !in links.next && x !in links.prev
    ensures Books(m, units - {x}, links)
  {
    var units' := units - {x};
    forall a ensures LengthAt(m, units', a) && InBounds(units', |m|, a) {
      assert LengthAt(m, units, a) && InBounds(units, |m|, a);
    }
    forall a, b ensures Apart(units', a, b) {
      assert Apart(units, a, b);
    }
  }

  // ----- What a program may write -----

  /** Whatever is written into a block in use, behind its header, the books are
      as they were. */
  lemma UserBytesKeepBooks(m: seq<Byte>, m': seq<Byte>, units: map<Addr, nat>, links: Links, a: Addr)
    requires Books(m, units, links) && a in units && a !in links.next && a !in links.prev
    requires |m'| == |m| && forall k :: 0 <= k < |m| && !(a + HEADER <= k < a + UNIT * units[a]) ==> m'[k] == m[k]
    ensures Books(m', units, links)
  {
    forall b ensures LengthAt(m', units, b) && LinksAt(m', links.next, links.prev, b) {
      assert LengthAt(m, units, b) && LinksAt(m, links.next, links.prev, b);
      if b in units {
        if b != a {
          assert Apart(units, a, b) && Apart(units, b, a) && InBounds(units, |m|, a) && InBounds(units, |m|, b);
        }
        SameWord(m, m', b);
        if b != a {
          SameWord(m, m', b + NEXT);
          SameWord(m, m', b + PREV);
        }
      }
    }
  }

  /** Byte `k` is one that the owner of a block in use may write. */
  ghost predicate Held(h: Heap, k: int) {
    exists a :: h.IsLive(a) && a + HEADER <= k < h.End(a)
  }

  /** The bytes that are handed out, before and after, are as they were. */
  ghost predicate SameHeld(h: Heap, h': Heap, m: seq<Byte>, m': seq<Byte>) {
    |m'| == |m| && forall k :: 0 <= k < |m| && Held(h, k) && Held(h', k) ==> m'[k] == m[k]
  }

  ghost function FreeBlocks(h: Heap): set<Addr> { set a | a in h.blocks && h.blocks[a].free }

  lemma HeldIsNobodyElses(h: Heap, k: int)
    requires InRange(h) && Disjoint(h) && Held(h, k)
    ensures !LinkByte(FreeBlocks(h), k) && !HeadByte(h.blocks.Keys, k)
  {}

  lemma FramedHeld(h: Heap, h': Heap, m: seq<Byte>, m': seq<Byte>)
    requires InRange(h) && Disjoint(h) && InRange(h') && Disjoint(h')
    requires Framed(m, m', FreeBlocks(h) + FreeBlocks(h'), h'.blocks.Keys)
    ensures SameHeld(h, h', m, m')
  {
    forall k | 0 <= k < |m| && Held(h, k) && Held(h', k) ensures m'[k] == m[k] {
      HeldIsNobodyElses(h, k);
      HeldIsNobodyElses(h', k);
    }
  }

  /** The bytes in `defined` are in use, and memory `m` holds what `h` says. */
  ghost predicate Agrees(h: Heap, m: seq<Byte>, defined: set<Addr>) {
    && |m| == |h.mem|
    && forall k {:trigger AgreesAt(h, m, defined, k)} :: AgreesAt(h, m, defined, k)
  }

  ghost predicate AgreesAt(h: Heap, m: seq<Byte>, defined: set<Addr>, k: Addr)
    requires |m| == |h.mem|
  {
    k in defined ==> Held(h, k) && 0 <= k < |m| && m[k] == h.mem[k]
  }
}
