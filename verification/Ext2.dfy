/** Block pointers of an ext2 i-node (filesys/README.org, section 14.4).

    An i-node holds 15 pointers: 12 to data blocks, then one to a block of
    pointers, one to a double and one to a triple indirect block.  A pointer 0
    is a hole.  The file must behave as a plain sparse array of blocks. */
module Ext2 {
  import opened Basics

  const DIRECT := 12
  const SLOTS := 15
  const POINTER_BYTES := 4

  // ----- From block number to pointer path and back -----

  /** How many levels of pointer blocks hang below a slot of the i-node. */
  function Depth(slot: nat): nat { if slot < DIRECT then 0 else slot - DIRECT + 1 }

  /** A path names a slot of the i-node, then one in each block of pointers. */
  predicate ValidPath(path: seq<nat>, p: nat) {
    && path != []
    && path[0] < SLOTS
    && |path| == Depth(path[0]) + 1
    && forall k :: 1 <= k < |path| ==> path[k] < p
  }

  /** Data blocks below a block of pointers `level` levels up, `p` to a block. */
  function Zone(level: nat, p: nat): nat {
    if level == 0 then 1 else Zone(level - 1, p) * p
  }

  /** The first file block reached through `level` levels of pointers. */
  function Base(level: nat, p: nat): nat {
    if level == 0 then 0 else if level == 1 then DIRECT else Base(level - 1, p) + Zone(level - 1, p)
  }

  function Capacity(p: nat): nat { Base(4, p) }

  /** The slots to follow to data block `m` of a zone. */
  function Indices(m: nat, level: nat, p: nat): seq<nat>
    requires p > 0
    decreases level
  {
    if level == 0 then [] else Indices(m / p, level - 1, p) + [m % p]
  }

  function Offset(indices: seq<nat>, p: nat): nat {
    if indices == [] then 0
    else Offset(indices[..|indices| - 1], p) * p + indices[|indices| - 1]
  }

  /** How many levels of pointers lie between the i-node and file block `n`. */
  function Level(n: nat, p: nat): nat {
    if n < DIRECT then 0 else if n < Base(2, p) then 1 else if n < Base(3, p) then 2 else 3
  }

  /** The pointers to follow to file block `n`. */
  function Path(n: nat, p: nat): seq<nat>
    requires p > 0
  {
    var level := Level(n, p);
    if level == 0 then [n]
    else [DIRECT + level - 1] + Indices(n - Base(level, p), level, p)
  }

  function FileBlock(path: seq<nat>, p: nat): nat
    requires ValidPath(path, p)
  {
    if path[0] < DIRECT then path[0] else Base(Depth(path[0]), p) + Offset(path[1..], p)
  }

  lemma CapacityIs(p: nat)
    ensures Capacity(p) == 12 + p + p * p + p * p * p
  {
    assert Zone(1, p) == p;
    assert Zone(2, p) == Zone(1, p) * p;
    assert Zone(3, p) == Zone(2, p) * p;
    assert Base(3, p) == Base(2, p) + Zone(2, p);
  }

  lemma TimesMonotonic(a: int, b: int, p: nat)
    ensures a <= b ==> a * p <= b * p
  {}

  lemma Quotient(m: nat, p: nat, bound: nat)
    requires p > 0 && m < bound * p
    ensures m / p < bound && m == (m / p) * p + m % p
  {}

  lemma AppendDigit(q: nat, r: nat, p: nat, bound: nat)
    requires r < p && q < bound
    ensures (q * p + r) / p == q && (q * p + r) % p == r
    ensures q * p + r < bound * p
  {
    var d, e := (q * p + r) / p, (q * p + r) % p;
    assert q * p + r == d * p + e;
    TimesMonotonic(d + 1, q, p);
    TimesMonotonic(q + 1, d, p);
    TimesMonotonic(q + 1, bound, p);
  }

  lemma {:induction false} IndicesLeadBack(m: nat, level: nat, p: nat)
    requires p > 0 && m < Zone(level, p)
    ensures |Indices(m, level, p)| == level
    ensures forall k :: 0 <= k < level ==> Indices(m, level, p)[k] < p
    ensures Offset(Indices(m, level, p), p) == m
    decreases level
  {
    if level > 0 {
      Quotient(m, p, Zone(level - 1, p));
      IndicesLeadBack(m / p, level - 1, p);
      var all := Indices(m, level, p);
      assert all[..level - 1] == Indices(m / p, level - 1, p);
      assert all[level - 1] == m % p;
    }
  }

  lemma {:induction false} OffsetsLeadBack(indices: seq<nat>, p: nat)
    requires p > 0 && forall k :: 0 <= k < |indices| ==> indices[k] < p
    ensures Offset(indices, p) < Zone(|indices|, p)
    ensures Indices(Offset(indices, p), |indices|, p) == indices
    decreases |indices|
  {
    if indices != [] {
      var front, last := indices[..|indices| - 1], indices[|indices| - 1];
      OffsetsLeadBack(front, p);
      AppendDigit(Offset(front, p), last, p, Zone(|front|, p));
      assert indices == front + [last];
    }
  }

  lemma Bases(p: nat)
    ensures Base(1, p) == DIRECT
    ensures Base(2, p) == Base(1, p) + Zone(1, p)
    ensures Base(3, p) == Base(2, p) + Zone(2, p)
    ensures Capacity(p) == Base(3, p) + Zone(3, p)
  {}

  /** Every block number in range has a path, which leads back to it. */
  lemma PathLeadsBack(n: nat, p: nat)
    requires p > 0 && n < Capacity(p)
    ensures ValidPath(Path(n, p), p) && FileBlock(Path(n, p), p) == n
  {
    Bases(p);
    var level := Level(n, p);
    if level > 0 {
      IndicesLeadBack(n - Base(level, p), level, p);
      assert Path(n, p)[1..] == Indices(n - Base(level, p), level, p);
    }
  }

  /** Every path belongs to a block number in range, whose path it is: with the
      lemma above, paths and block numbers correspond one to one. */
  lemma FileBlockLeadsBack(path: seq<nat>, p: nat)
    requires p > 0 && ValidPath(path, p)
    ensures FileBlock(path, p) < Capacity(p) && Path(FileBlock(path, p), p) == path
  {
    if path[0] < DIRECT {
      DirectPath(path[0], p);
      assert path == [path[0]];
    } else {
      OffsetsLeadBack(path[1..], p);
      ZonePath(path, Offset(path[1..], p), p);
    }
  }

  /** The pointers to follow, written out: none beyond the i-node for the first
      12 blocks, then one, two and three blocks of pointers. */
  lemma PathIs(n: nat, p: nat)
    requires p > 0 && n < Capacity(p)
    ensures var m1 := n - 12;
            var m2 := m1 - p;
            var m3 := m2 - p * p;
            Path(n, p) ==
              if n < 12 then [n]
              else if m1 < p then [12, m1]
              else if m2 < p * p then [13, m2 / p, m2 % p]
              else [14, m3 / p / p, m3 / p % p, m3 % p]
  {
    Bases(p);
    assert Zone(1, p) == p && Zone(2, p) == Zone(1, p) * p;
    PathLeadsBack(n, p);
    var level := Level(n, p);
    if level == 1 {
      IndicesOne(n - 12, p);
    } else if level == 2 {
      IndicesTwo(n - Base(2, p), p);
    } else if level == 3 {
      assert Zone(3, p) == Zone(2, p) * p;
      IndicesThree(n - Base(3, p), p);
    }
  }

  lemma IndicesOne(m: nat, p: nat)
    requires p > 0 && m < p
    ensures Indices(m, 1, p) == [m]
  {
    assert Indices(m, 1, p) == Indices(m / p, 0, p) + [m % p];
  }

  lemma IndicesTwo(m: nat, p: nat)
    requires p > 0 && m < p * p
    ensures Indices(m, 2, p) == [m / p, m % p]
  {
    Quotient(m, p, p);
    IndicesOne(m / p, p);
  }

  lemma IndicesThree(m: nat, p: nat)
    requires p > 0 && m < p * p * p
    ensures Indices(m, 3, p) == [m / p / p, m / p % p, m % p]
  {
    Quotient(m, p, p * p);
    IndicesTwo(m / p, p);
  }

  lemma DirectPath(n: nat, p: nat)
    requires p > 0 && n < DIRECT
    ensures n < Capacity(p) && Path(n, p) == [n]
  {
    Bases(p);
  }

  lemma ZonePath(path: seq<nat>, offset: nat, p: nat)
    requires p > 0 && ValidPath(path, p) && path[0] >= DIRECT
    requires offset < Zone(Depth(path[0]), p) && Indices(offset, Depth(path[0]), p) == path[1..]
    ensures var n := Base(Depth(path[0]), p) + offset; n < Capacity(p) && Path(n, p) == path
  {
    Bases(p);
    assert path == [path[0]] + path[1..];
    assert Level(Base(Depth(path[0]), p) + offset, p) == Depth(path[0]);
  }

  // ----- The pointer tree on disk -----

  /** `level` is 1, 2 or 3 for single, double and triple indirect blocks. */
  datatype Block = Data(bytes: seq<Byte>) | Pointers(level: nat, ptrs: seq<nat>) {
    function Level(): nat { if Data? then 0 else level }
  }

  /** References to blocks: the i-node itself, a hole, or a disk block > 0. */
  const INODE := -1
  const HOLE := 0

  datatype Volume = Volume(blockSize: nat, inode: seq<nat>, disk: map<nat, Block>) {
    function PerBlock(): nat { blockSize / POINTER_BYTES }

    predicate IsNode(b: int) { b == INODE || (b > 0 && b in disk && disk[b].Pointers?) }

    function Slots(b: int): seq<nat>
      requires IsNode(b)
    {
      if b == INODE then inode else disk[b].ptrs
    }

    /** The pointer in slot `i` of node `b`, a hole where there is none. */
    function Ptr(b: int, i: nat): nat {
      if IsNode(b) && i < |Slots(b)| then Slots(b)[i] else HOLE
    }

    function ChildLevel(b: int, i: nat): int
      requires IsNode(b)
    {
      if b == INODE then Depth(i) else disk[b].level - 1
    }

    ghost predicate WellFormed() {
      && blockSize >= POINTER_BYTES
      && |inode| == SLOTS
      && HOLE !in disk
      && (forall b :: b in disk ==> match disk[b]
                                    case Data(bytes) => |bytes| == blockSize
                                    case Pointers(level, ptrs) => level > 0 && |ptrs| == PerBlock())
      && (forall b, i :: IsNode(b) && Ptr(b, i) != HOLE ==>
                           Ptr(b, i) in disk && disk[Ptr(b, i)].Level() == ChildLevel(b, i))
      && Unshared()
    }

    /** No block is pointed to from two places. */
    ghost predicate Unshared() {
      forall b, i, c, j :: Ptr(b, i) == Ptr(c, j) != HOLE ==> b == c && i == j
    }

    /** The block at the end of a path, a hole if any pointer on it is. */
    function Follow(path: seq<nat>): int
      decreases |path|
    {
      if path == [] then INODE else Ptr(Follow(path[..|path| - 1]), path[|path| - 1])
    }

    function Zeros(): seq<Byte> { seq(blockSize, _ => 0) }

    /** The data block that holds file block `n`, if it has one. */
    function Leaf(n: nat): int
      requires PerBlock() > 0
    {
      if n < Capacity(PerBlock()) then Follow(Path(n, PerBlock())) else HOLE
    }

    /** File block `n` as a reader sees it. */
    function Contents(n: nat): seq<Byte>
      requires PerBlock() > 0
    {
      var b := Leaf(n);
      if b > 0 && b in disk && disk[b].Data? then disk[b].bytes else Zeros()
    }

    /** Hang a new block `x` into an empty slot. */
    function Attach(b: int, i: nat, x: nat, block: Block): Volume
      requires IsNode(b) && i < |Slots(b)|
    {
      if b == INODE then this.(inode := inode[i := x], disk := disk[x := block])
      else this.(disk := disk[x := block][b := disk[b].(ptrs := disk[b].ptrs[i := x])])
    }

    function Blank(level: nat): Block {
      if level == 0 then Data(Zeros()) else Pointers(level, seq(PerBlock(), _ => HOLE))
    }

    function Put(b: nat, bytes: seq<Byte>): Volume { this.(disk := disk[b := Data(bytes)]) }
  }

  // ----- Properties of the tree -----

  /** A pointer path determines the level of the block it reaches. */
  lemma {:induction false} FollowLevel(v: Volume, path: seq<nat>, k: nat)
    requires v.WellFormed() && ValidPath(path, v.PerBlock()) && 1 <= k <= |path|
    ensures var b := v.Follow(path[..k]);
            b == HOLE || (b > 0 && b in v.disk && v.disk[b].Level() == |path| - k)
  {
    assert path[..k][..k - 1] == path[..k - 1];
    if k == 1 {
      assert v.Follow(path[..0]) == INODE;
    } else {
      FollowLevel(v, path, k - 1);
    }
  }

  /** Two paths never lead to the same block. */
  lemma {:induction false} FollowIsInjective(v: Volume, p: seq<nat>, q: seq<nat>)
    requires v.WellFormed()
    requires v.Follow(p) == v.Follow(q) != HOLE
    ensures p == q
    decreases |p|
  {
    if p != [] && q != [] {
      var p', q' := p[..|p| - 1], q[..|q| - 1];
      assert v.Ptr(v.Follow(p'), p[|p| - 1]) == v.Ptr(v.Follow(q'), q[|q| - 1]);
      FollowIsInjective(v, p', q');
      assert p == p' + [p[|p| - 1]] && q == q' + [q[|q| - 1]];
    }
  }

  ghost predicate CanAttach(v: Volume, b: int, i: nat, x: nat) {
    && v.WellFormed()
    && v.IsNode(b) && i < |v.Slots(b)|
    && v.Ptr(b, i) == HOLE
    && v.ChildLevel(b, i) >= 0
    && x > 0 && x !in v.disk
  }

  function Attached(v: Volume, b: int, i: nat, x: nat): Volume
    requires v.IsNode(b) && i < |v.Slots(b)| && v.ChildLevel(b, i) >= 0
  {
    v.Attach(b, i, x, v.Blank(v.ChildLevel(b, i)))
  }

  /** Attaching a blank block changes one pointer and nothing else. */
  lemma AttachedPtr(v: Volume, b: int, i: nat, x: nat, c: int, j: nat)
    requires CanAttach(v, b, i, x)
    ensures var v' := Attached(v, b, i, x);
            v'.Ptr(c, j) == if c == b && j == i then x else v.Ptr(c, j)
  {}

  lemma AttachedKeepsWellFormed(v: Volume, b: int, i: nat, x: nat)
    requires CanAttach(v, b, i, x)
    ensures Attached(v, b, i, x).WellFormed()
  {
    var v' := Attached(v, b, i, x);
    forall c, j ensures v'.Ptr(c, j) == if c == b && j == i then x else v.Ptr(c, j) {
      AttachedPtr(v, b, i, x, c, j);
    }
    forall c, j | v'.IsNode(c) && v'.Ptr(c, j) != HOLE
      ensures v'.Ptr(c, j) in v'.disk && v'.disk[v'.Ptr(c, j)].Level() == v'.ChildLevel(c, j)
    {
      assert !v.IsNode(x) && v.Ptr(x, j) == HOLE;
    }
  }

  /** Paths that led somewhere still lead there; at most one path, the one to
      the new block, newly leads anywhere. */
  lemma {:induction false} AttachedFollow(v: Volume, b: int, i: nat, x: nat, path: seq<nat>)
    requires CanAttach(v, b, i, x)
    ensures var v' := Attached(v, b, i, x);
            || v'.Follow(path) == v.Follow(path)
            || (v.Follow(path) == HOLE && v'.Follow(path) == x)
    decreases |path|
  {
    if path != [] {
      var prefix, last := path[..|path| - 1], path[|path| - 1];
      var v' := Attached(v, b, i, x);
      AttachedFollow(v, b, i, x, prefix);
      AttachedPtr(v, b, i, x, v'.Follow(prefix), last);
    }
  }

  lemma AttachedKeepsContents(v: Volume, b: int, i: nat, x: nat, n: nat)
    requires CanAttach(v, b, i, x)
    ensures Attached(v, b, i, x).Contents(n) == v.Contents(n)
  {
    AttachedFollow(v, b, i, x, Path(n, v.PerBlock()));
    var c := v.Leaf(n);
    if c > 0 && c in v.disk && v.disk[c].Data? {
      assert c != b && c != x;
    }
  }

  /** A block attached on the way to file block `n` leaves every other file
      block where it was, and every other hole a hole. */
  lemma AttachedKeepsLeaf(v: Volume, path: seq<nat>, k: nat, x: nat, m: nat)
    requires ValidPath(path, v.PerBlock()) && k < |path| && m < Capacity(v.PerBlock())
    requires CanAttach(v, v.Follow(path[..k]), path[k], x)
    requires Path(m, v.PerBlock()) != path
    ensures Attached(v, v.Follow(path[..k]), path[k], x).Leaf(m) == v.Leaf(m)
  {
    var b := v.Follow(path[..k]);
    var v' := Attached(v, b, path[k], x);
    var other := Path(m, v.PerBlock());
    AttachedKeepsWellFormed(v, b, path[k], x);
    AttachedFollow(v, b, path[k], x, other);
    AttachedFollow(v, b, path[k], x, path[..k]);
    AttachedPtr(v, b, path[k], x, b, path[k]);
    assert path[..k + 1][..k] == path[..k];
    assert v'.Follow(path[..k + 1]) == x;
    PathLeadsBack(m, v.PerBlock());
    assert other == path[..k + 1] ==> |other| == |path|;
    assert k + 1 == |path| ==> path[..k + 1] == path;
    if v'.Follow(other) == x {
      FollowIsInjective(v', other, path[..k + 1]);
      assert false;
    }
  }

  lemma PutPtr(v: Volume, b: nat, bytes: seq<Byte>, c: int, j: nat)
    requires b > 0 && b in v.disk && v.disk[b].Data?
    ensures v.Put(b, bytes).Ptr(c, j) == v.Ptr(c, j)
  {}

  lemma {:induction false} PutFollow(v: Volume, b: nat, bytes: seq<Byte>, path: seq<nat>)
    requires b > 0 && b in v.disk && v.disk[b].Data?
    ensures v.Put(b, bytes).Follow(path) == v.Follow(path)
    decreases |path|
  {
    if path != [] {
      PutFollow(v, b, bytes, path[..|path| - 1]);
      PutPtr(v, b, bytes, v.Follow(path[..|path| - 1]), path[|path| - 1]);
    }
  }

  lemma PutKeepsWellFormed(v: Volume, b: nat, bytes: seq<Byte>)
    requires v.WellFormed() && b > 0 && b in v.disk && v.disk[b].Data? && |bytes| == v.blockSize
    ensures v.Put(b, bytes).WellFormed()
  {
    var v' := v.Put(b, bytes);
    forall c, j ensures v'.Ptr(c, j) == v.Ptr(c, j) {
      PutPtr(v, b, bytes, c, j);
    }
  }

  /** Filling a data block changes the one file block it holds. */
  lemma PutWritesOneBlock(v: Volume, n: nat, bytes: seq<Byte>, m: nat)
    requires v.WellFormed() && n < Capacity(v.PerBlock())
    requires v.Leaf(n) > 0 && v.Leaf(n) in v.disk && v.disk[v.Leaf(n)].Data?
    ensures v.Put(v.Leaf(n), bytes).Leaf(m) == v.Leaf(m)
    ensures v.Put(v.Leaf(n), bytes).Contents(m) == if m == n then bytes else v.Contents(m)
  {
    var p := v.PerBlock();
    PutFollow(v, v.Leaf(n), bytes, Path(m, p));
    if m != n && v.Leaf(m) == v.Leaf(n) {
      FollowIsInjective(v, Path(m, p), Path(n, p));
      PathLeadsBack(m, p);
      PathLeadsBack(n, p);
      assert false;
    }
  }

  /** No data block serves two file blocks. */
  lemma LeavesAreUnshared(v: Volume, m: nat, n: nat)
    requires v.WellFormed() && v.Leaf(m) == v.Leaf(n) != HOLE
    ensures m == n
  {
    var p := v.PerBlock();
    FollowIsInjective(v, Path(m, p), Path(n, p));
    PathLeadsBack(m, p);
    PathLeadsBack(n, p);
  }

  /** A hole reads as a block of null bytes, and so does all beyond the capacity. */
  lemma HoleReadsZero(v: Volume, n: nat, k: nat)
    requires v.WellFormed() && k < v.blockSize
    requires n >= Capacity(v.PerBlock()) || v.Follow(Path(n, v.PerBlock())) == HOLE
    ensures |v.Contents(n)| == v.blockSize && v.Contents(n)[k] == 0
  {}

  // ----- How many blocks a write needs -----

  /** The paths that lead along `path`, block by block. */
  ghost function Prefixes(path: seq<nat>): set<seq<nat>> {
    if path == [] then {} else Prefixes(path[..|path| - 1]) + {path}
  }

  /** Of these paths, those that lead nowhere yet. */
  ghost function Missing(v: Volume, paths: set<seq<nat>>): set<seq<nat>> {
    set q | q in paths && v.Follow(q) == HOLE
  }

  ghost predicate FilledAt(v: Volume, v': Volume, paths: set<seq<nat>>, q: seq<nat>) {
    v'.Follow(q) == HOLE <==> v.Follow(q) == HOLE && q !in paths
  }

  /** The holes at these paths are filled, and no others. */
  ghost predicate Filled(v: Volume, v': Volume, paths: set<seq<nat>>) {
    forall q {:trigger FilledAt(v, v', paths, q)} :: FilledAt(v, v', paths, q)
  }

  lemma FilledNone(v: Volume)
    ensures Filled(v, v, {}) && Missing(v, {}) == {}
  {}

  lemma FilledTwice(v: Volume, v': Volume, v'': Volume, paths: set<seq<nat>>, paths': set<seq<nat>>)
    requires Filled(v, v', paths) && Filled(v', v'', paths')
    ensures Filled(v, v'', paths + paths')
  {
    forall q ensures FilledAt(v, v'', paths + paths', q) {
      assert FilledAt(v, v', paths, q) && FilledAt(v', v'', paths', q);
    }
  }

  lemma MissingOne(v: Volume, q: seq<nat>)
    ensures Missing(v, {q}) == if v.Follow(q) == HOLE then {q} else {}
  {}

  lemma NothingToFill(v: Volume, q: seq<nat>)
    requires v.Follow(q) != HOLE
    ensures Filled(v, v, {q})
  {}

  /** What is missing for more paths is what is missing for some, and then for
      the others. */
  lemma MissingMore(v: Volume, v': Volume, paths: set<seq<nat>>, more: set<seq<nat>>)
    requires Filled(v, v', paths)
    ensures |Missing(v, paths + more)| == |Missing(v, paths)| + |Missing(v', more)|
  {
    forall q ensures q in Missing(v, paths + more) <==> q in Missing(v, paths) || q in Missing(v', more) {
      assert FilledAt(v, v', paths, q);
    }
    forall q ensures !(q in Missing(v, paths) && q in Missing(v', more)) {
      assert FilledAt(v, v', paths, q);
    }
    assert Missing(v, paths + more) == Missing(v, paths) + Missing(v', more);
  }

  lemma MissingWithin(v: Volume, paths: set<seq<nat>>, more: set<seq<nat>>)
    requires paths <= more
    ensures |Missing(v, paths)| <= |Missing(v, more)|
  {
    SubsetSize(Missing(v, paths), Missing(v, more));
  }

  lemma {:induction false} SubsetSize(a: set<seq<nat>>, b: set<seq<nat>>)
    requires a <= b
    ensures |a| <= |b|
  {
    assert b == a + (b - a);
  }

  lemma {:induction false} PrefixesOf(path: seq<nat>, k: nat)
    requires k <= |path|
    ensures Prefixes(path[..k]) <= Prefixes(path)
    ensures forall q :: q in Prefixes(path) ==> q != [] && |q| <= |path|
    ensures |Prefixes(path)| <= |path|
    decreases |path|
  {
    if path != [] {
      var front := path[..|path| - 1];
      PrefixesOf(front, if k < |path| then k else |front|);
      assert k < |path| ==> front[..k] == path[..k];
      assert k == |path| ==> path[..k] == path;
    }
  }

  /** One pointer more on the way: its path is new. */
  lemma OnePrefixMore(v: Volume, v': Volume, path: seq<nat>, k: nat)
    requires k < |path| && Filled(v, v', Prefixes(path[..k]))
    ensures Prefixes(path[..k + 1]) == Prefixes(path[..k]) + {path[..k + 1]} <= Prefixes(path)
    ensures |Missing(v, Prefixes(path[..k + 1]))| == |Missing(v, Prefixes(path[..k]))| + |Missing(v', {path[..k + 1]})|
  {
    assert path[..k + 1][..k] == path[..k];
    PrefixesOf(path, k + 1);
    MissingMore(v, v', Prefixes(path[..k]), {path[..k + 1]});
  }

  /** Attaching a block fills one hole and no other. */
  lemma AttachedFills(v: Volume, path: seq<nat>, k: nat, x: nat)
    requires k < |path| && CanAttach(v, v.Follow(path[..k]), path[k], x)
    ensures Filled(v, Attached(v, v.Follow(path[..k]), path[k], x), {path[..k + 1]})
  {
    var b := v.Follow(path[..k]);
    var v' := Attached(v, b, path[k], x);
    var paths := {path[..k + 1]};
    AttachedKeepsWellFormed(v, b, path[k], x);
    AttachedReaches(v, path, k, x);
    forall q ensures FilledAt(v, v', paths, q) {
      AttachedFollow(v, b, path[k], x, q);
      if v'.Follow(q) == x {
        FollowIsInjective(v', q, path[..k + 1]);
      }
    }
  }

  lemma AttachedReaches(v: Volume, path: seq<nat>, k: nat, x: nat)
    requires k < |path| && CanAttach(v, v.Follow(path[..k]), path[k], x)
    ensures v.Follow(path[..k + 1]) == HOLE && Attached(v, v.Follow(path[..k]), path[k], x).Follow(path[..k + 1]) == x
  {
    var b := v.Follow(path[..k]);
    AttachedFollow(v, b, path[k], x, path[..k]);
    AttachedPtr(v, b, path[k], x, b, path[k]);
    assert path[..k + 1][..k] == path[..k];
  }

  lemma PutKeepsFilled(v: Volume, v': Volume, b: nat, bytes: seq<Byte>, paths: set<seq<nat>>)
    requires Filled(v, v', paths) && b > 0 && b in v'.disk && v'.disk[b].Data?
    ensures Filled(v, v'.Put(b, bytes), paths)
  {
    forall q ensures FilledAt(v, v'.Put(b, bytes), paths, q) {
      assert FilledAt(v, v', paths, q);
      PutFollow(v', b, bytes, q);
    }
  }

  // ----- The file as a sparse array -----

  type Sparse = map<nat, seq<Byte>>

  datatype Write = Write(n: nat, bytes: seq<Byte>)

  ghost predicate Represents(v: Volume, sparse: Sparse)
    requires v.WellFormed()
  {
    forall n: nat :: v.Contents(n) == if n in sparse then sparse[n] else v.Zeros()
  }

  function Written(sparse: Sparse, writes: seq<Write>): Sparse {
    if writes == [] then sparse
    else
      var last := writes[|writes| - 1];
      Written(sparse, writes[..|writes| - 1])[last.n := last.bytes]
  }

  /** All the paths that the writes follow. */
  ghost function Spine(writes: seq<Write>, p: nat): set<seq<nat>>
    requires p > 0
  {
    if writes == [] then {}
    else Spine(writes[..|writes| - 1], p) + Prefixes(Path(writes[|writes| - 1].n, p))
  }

  ghost predicate WithinFile(writes: seq<Write>, capacity: nat) {
    forall k :: 0 <= k < |writes| ==> writes[k].n < capacity
  }

  /** The writes are within the file's capacity, and what is missing on their
      paths, counted once however often it is met, can be had from `free` blocks. */
  ghost predicate HasRoom(v: Volume, free: nat, writes: seq<Write>)
    requires v.PerBlock() > 0
  {
    WithinFile(writes, Capacity(v.PerBlock())) && |Missing(v, Spine(writes, v.PerBlock()))| <= free
  }

  lemma WithinNext(writes: seq<Write>, k: nat, capacity: nat)
    requires k < |writes|
    ensures WithinFile(writes[..k + 1], capacity) <==> WithinFile(writes[..k], capacity) && writes[k].n < capacity
  {
    assert writes[..k + 1] == writes[..k] + [writes[k]];
  }

  lemma SpineNext(v: Volume, v': Volume, writes: seq<Write>, k: nat, p: nat, paths: set<seq<nat>>)
    requires p > 0 && k < |writes| && paths == Prefixes(Path(writes[k].n, p)) && Filled(v, v', Spine(writes[..k], p))
    ensures Spine(writes[..k + 1], p) == Spine(writes[..k], p) + paths
    ensures |Missing(v, Spine(writes[..k + 1], p))| == |Missing(v, Spine(writes[..k], p))| + |Missing(v', paths)|
  {
    assert writes[..k + 1][..k] == writes[..k];
    MissingMore(v, v', Spine(writes[..k], p), paths);
  }

  lemma {:induction false} SpineGrows(writes: seq<Write>, k: nat, p: nat)
    requires p > 0 && k <= |writes|
    ensures Spine(writes[..k], p) <= Spine(writes, p)
    decreases |writes|
  {
    if k < |writes| {
      var front := writes[..|writes| - 1];
      SpineGrows(front, k, p);
      assert front[..k] == writes[..k];
    } else {
      assert writes[..k] == writes;
    }
  }

  /** Where there is room for all, there is room for the first few. */
  lemma RoomForFewer(v: Volume, free: nat, writes: seq<Write>, k: nat)
    requires v.PerBlock() > 0 && k <= |writes| && HasRoom(v, free, writes)
    ensures HasRoom(v, free, writes[..k])
  {
    SpineGrows(writes, k, v.PerBlock());
    MissingWithin(v, Spine(writes[..k], v.PerBlock()), Spine(writes, v.PerBlock()));
  }

  lemma RoomForAll(v: Volume, free: nat, writes: seq<Write>)
    requires v.PerBlock() > 0 && HasRoom(v, free, writes)
    ensures forall k :: 0 <= k <= |writes| ==> HasRoom(v, free, writes[..k])
  {
    forall k | 0 <= k <= |writes| ensures HasRoom(v, free, writes[..k]) {
      RoomForFewer(v, free, writes, k);
    }
  }

  lemma RoomUpTo(v: Volume, free: nat, writes: seq<Write>, n: nat)
    requires v.PerBlock() > 0 && n < |writes| && HasRoom(v, free, writes[..n]) && !HasRoom(v, free, writes[..n + 1])
    ensures forall k :: 0 <= k <= |writes| ==> (k <= n <==> HasRoom(v, free, writes[..k]))
  {
    forall k | 0 <= k <= |writes| ensures k <= n <==> HasRoom(v, free, writes[..k]) {
      if k <= n {
        RoomForFewer(v, free, writes[..n], k);
        assert writes[..n][..k] == writes[..k];
      } else if HasRoom(v, free, writes[..k]) {
        assert writes[..k][..n + 1] == writes[..n + 1];
        RoomForFewer(v, free, writes[..k], n + 1);
      }
    }
  }

  /** Volume `v` with `free` free blocks is what the writes made of `v0` with `free0`. */
  ghost predicate Progress(v0: Volume, free0: nat, v: Volume, free: nat, writes: seq<Write>) {
    && v0.PerBlock() > 0 && v.blockSize == v0.blockSize && HasRoom(v0, free0, writes)
    && Filled(v0, v, Spine(writes, v0.PerBlock()))
    && free == free0 - |Missing(v0, Spine(writes, v0.PerBlock()))|
  }

  /** There is room for the next write if what it finds missing can be had now. */
  lemma RoomForNext(v0: Volume, free0: nat, v: Volume, free: nat, writes: seq<Write>, k: nat, p: nat, paths: set<seq<nat>>)
    requires k < |writes| && Progress(v0, free0, v, free, writes[..k])
    requires p == v0.PerBlock() && paths == Prefixes(Path(writes[k].n, p))
    ensures HasRoom(v0, free0, writes[..k + 1]) <==> writes[k].n < Capacity(p) && |Missing(v, paths)| <= free
  {
    WithinNext(writes, k, Capacity(p));
    SpineNext(v0, v, writes, k, p, paths);
  }

  lemma ProgressMade(v0: Volume, free0: nat, v: Volume, free: nat, v': Volume, free': nat, writes: seq<Write>, k: nat, p: nat, paths: set<seq<nat>>)
    requires k < |writes| && Progress(v0, free0, v, free, writes[..k]) && v'.blockSize == v.blockSize
    requires p == v0.PerBlock() && paths == Prefixes(Path(writes[k].n, p)) && HasRoom(v0, free0, writes[..k + 1])
    requires Filled(v, v', paths) && free' == free - |Missing(v, paths)|
    ensures Progress(v0, free0, v', free', writes[..k + 1])
  {
    SpineNext(v0, v, writes, k, p, paths);
    FilledTwice(v0, v, v', Spine(writes[..k], p), paths);
  }

  /** A write needs four blocks at most, so four for each are always enough. */
  lemma {:induction false} FourEachSuffice(v: Volume, free: nat, writes: seq<Write>)
    requires v.PerBlock() > 0 && free >= 4 * |writes| && WithinFile(writes, Capacity(v.PerBlock()))
    ensures HasRoom(v, free, writes)
  {
    SpineSize(writes, v.PerBlock());
    SubsetSize(Missing(v, Spine(writes, v.PerBlock())), Spine(writes, v.PerBlock()));
  }

  lemma {:induction false} SpineSize(writes: seq<Write>, p: nat)
    requires p > 0 && WithinFile(writes, Capacity(p))
    ensures |Spine(writes, p)| <= 4 * |writes|
  {
    if writes != [] {
      var front, path := writes[..|writes| - 1], Path(writes[|writes| - 1].n, p);
      SpineSize(front, p);
      PathLeadsBack(writes[|writes| - 1].n, p);
      PrefixesOf(path, 0);
      UnionSize(Spine(front, p), Prefixes(path));
    }
  }

  lemma UnionSize(a: set<seq<nat>>, b: set<seq<nat>>)
    ensures |a + b| <= |a| + |b|
  {
    assert a + b == a + (b - a);
    SubsetSize(b - a, b);
  }

  datatype Status = Done | ENOSPC | EFBIG

  /** One file on a volume: its i-node, its blocks and the free blocks. */
  class Ext2File {
    const blockSize: nat
    var inode: seq<nat>
    var disk: map<nat, Block>
    var free: set<nat>

    ghost function View(): Volume
      reads this
    {
      Volume(blockSize, inode, disk)
    }

    ghost predicate Valid()
      reads this
    {
      View().WellFormed() && HOLE !in free && free !! disk.Keys
    }

    constructor (size: nat, available: set<nat>)
      requires size >= POINTER_BYTES && HOLE !in available
      ensures Valid() && blockSize == size && free == available
      ensures disk == map[] && inode == seq(SLOTS, _ => HOLE) && Represents(View(), map[])
    {
      blockSize, free := size, available;
      inode, disk := seq(SLOTS, _ => HOLE), map[];
      new;
      var v := View();
      forall n: nat ensures v.Leaf(n) <= HOLE {
        var path := Path(n, v.PerBlock());
        assert path != [] && v.Follow(path) == v.Ptr(v.Follow(path[..|path| - 1]), path[|path| - 1]);
      }
    }

    method FollowPointer(b: int, i: nat) returns (c: nat)
      requires Valid()
      ensures c == View().Ptr(b, i)
    {
      c := HOLE;
      if b == INODE {
        if i < |inode| { c := inode[i]; }
      } else if b > 0 && b in disk && disk[b].Pointers? && i < |disk[b].ptrs| {
        c := disk[b].ptrs[i];
      }
    }

    method ReadBlock(n: nat) returns (bytes: seq<Byte>)
      requires Valid()
      ensures bytes == View().Contents(n)
    {
      var p := blockSize / POINTER_BYTES;
      if n >= Capacity(p) {
        return seq(blockSize, _ => 0);
      }
      var path, b := Path(n, p), INODE;
      for k := 0 to |path|
        invariant b == View().Follow(path[..k])
      {
        assert path[..k + 1][..k] == path[..k];
        b := FollowPointer(b, path[k]);
      }
      assert path[..|path|] == path;
      if b > 0 && b in disk && disk[b].Data? {
        return disk[b].bytes;
      }
      return seq(blockSize, _ => 0);
    }

    /** Hang a blank block into an empty slot. */
    method AttachBlank(b: int, i: nat, level: nat, x: nat)
      requires Valid() && x in free && CanAttach(View(), b, i, x)
      requires level == View().ChildLevel(b, i)
      modifies this`inode, this`disk, this`free
      ensures Valid() && View() == Attached(old(View()), b, i, x) && free == old(free) - {x}
    {
      AttachedKeepsWellFormed(View(), b, i, x);
      free := free - {x};
      var blank := if level == 0 then Data(seq(blockSize, _ => 0))
                   else Pointers(level, seq(blockSize / POINTER_BYTES, _ => HOLE));
      disk := disk[x := blank];
      if b == INODE {
        inode := inode[i := x];
      } else {
        disk := disk[b := disk[b].(ptrs := disk[b].ptrs[i := x])];
      }
    }

    /** Attaches a free block where the pointer on the path to `n` is a hole. */
    method FillHole(n: nat, path: seq<nat>, k: nat, node: int) returns (next: nat)
      requires Valid() && n < Capacity(View().PerBlock()) && free != {}
      requires path == Path(n, View().PerBlock()) && ValidPath(path, View().PerBlock()) && k < |path|
      requires node == View().Follow(path[..k]) != HOLE && View().Ptr(node, path[k]) == HOLE
      modifies this`inode, this`disk, this`free
      ensures Valid() && disk.Keys + free == old(disk.Keys) + old(free) && SameFile(old(View()), View(), n)
      ensures next != HOLE && next == View().Follow(path[..k + 1])
      ensures Filled(old(View()), View(), {path[..k + 1]}) && |free| == |old(free)| - 1
    {
      ghost var v := View();
      NodeOnPath(v, path, k);
      next :| next in free;
      AttachBlank(node, path[k], |path| - k - 1, next);
      AttachedStep(v, path, k, next, n);
      AttachedFills(v, path, k, next);
    }

    /** One step down the path to file block `n`, attaching a blank block where
        the pointer is a hole; HOLE if there is no free block to attach. */
    method StepDown(n: nat, path: seq<nat>, k: nat, node: int) returns (next: nat)
      requires Valid() && n < Capacity(View().PerBlock())
      requires path == Path(n, View().PerBlock()) && ValidPath(path, View().PerBlock()) && k < |path|
      requires node == View().Follow(path[..k]) && node != HOLE
      modifies this`inode, this`disk, this`free
      ensures Valid() && disk.Keys + free == old(disk.Keys) + old(free) && SameFile(old(View()), View(), n)
      ensures next == HOLE <==> |old(free)| < |Missing(old(View()), {path[..k + 1]})|
      ensures next != HOLE ==>
                && next == View().Follow(path[..k + 1]) && Filled(old(View()), View(), {path[..k + 1]})
                && |free| == |old(free)| - |Missing(old(View()), {path[..k + 1]})|
    {
      assert path[..k + 1][..k] == path[..k];
      MissingOne(View(), path[..k + 1]);
      next := FollowPointer(node, path[k]);
      if next != HOLE {
        NothingToFill(View(), path[..k + 1]);
      } else if free != {} {
        next := FillHole(n, path, k, node);
      }
    }

    /** Allocates what is missing on the path to file block `n`, which succeeds
        exactly if there are as many free blocks; no file block changes either
        way, and no block is lost. */
    method Allocate(n: nat) returns (b: nat)
      requires Valid() && n < Capacity(View().PerBlock())
      modifies this`inode, this`disk, this`free
      ensures Valid() && disk.Keys + free == old(disk.Keys) + old(free)
      ensures SameFile(old(View()), View(), n)
      ensures b == HOLE <==> |old(free)| < |Missing(old(View()), Prefixes(Path(n, View().PerBlock())))|
      ensures b != HOLE ==>
                && b == View().Leaf(n) && b in disk && disk[b].Data?
                && Filled(old(View()), View(), Prefixes(Path(n, View().PerBlock())))
                && |free| == |old(free)| - |Missing(old(View()), Prefixes(Path(n, View().PerBlock())))|
    {
      var path, node := Path(n, blockSize / POINTER_BYTES), INODE;
      ghost var v0 := View();
      PathLeadsBack(n, v0.PerBlock());
      FilledNone(v0);
      assert path[..0] == [];
      for k := 0 to |path|
        invariant Valid() && disk.Keys + free == old(disk.Keys) + old(free)
        invariant node == View().Follow(path[..k]) && node != HOLE
        invariant SameFile(v0, View(), n)
        invariant Filled(v0, View(), Prefixes(path[..k]))
        invariant |free| == |old(free)| - |Missing(v0, Prefixes(path[..k]))|
      {
        ghost var v := View();
        OnePrefixMore(v0, v, path, k);
        var next := StepDown(n, path, k, node);
        SameFileTwice(v0, v, View(), n);
        if next == HOLE {
          MissingWithin(v0, Prefixes(path[..k + 1]), Prefixes(path));
          return HOLE;
        }
        FilledTwice(v0, v, View(), Prefixes(path[..k]), {path[..k + 1]});
        node := next;
      }
      assert path[..|path|] == path;
      FollowLevel(View(), path, |path|);
      return node;
    }

    method WriteBlock(n: nat, bytes: seq<Byte>) returns (status: Status)
      requires Valid() && |bytes| == blockSize
      modifies this`inode, this`disk, this`free
      ensures Valid() && disk.Keys + free == old(disk.Keys) + old(free)
      ensures status == EFBIG <==> n >= Capacity(View().PerBlock())
      ensures status == ENOSPC <==>
                && n < Capacity(View().PerBlock())
                && |old(free)| < |Missing(old(View()), Prefixes(Path(n, View().PerBlock())))|
      ensures forall m: nat :: View().Contents(m) == if m == n && status == Done then bytes else old(View()).Contents(m)
      ensures forall m: nat :: m != n ==> View().Leaf(m) == old(View()).Leaf(m)
      ensures status == Done ==>
                && Filled(old(View()), View(), Prefixes(Path(n, View().PerBlock())))
                && |free| == |old(free)| - |Missing(old(View()), Prefixes(Path(n, View().PerBlock())))|
    {
      if n >= Capacity(blockSize / POINTER_BYTES) {
        return EFBIG;
      }
      var b := Allocate(n);
      if b == HOLE {
        return ENOSPC;
      }
      ghost var v := View();
      forall m: nat
        ensures v.Put(b, bytes).Contents(m) == if m == n then bytes else v.Contents(m)
        ensures v.Put(b, bytes).Leaf(m) == v.Leaf(m)
      {
        PutWritesOneBlock(v, n, bytes, m);
      }
      PutKeepsWellFormed(v, b, bytes);
      PutKeepsFilled(old(View()), v, b, bytes, Prefixes(Path(n, v.PerBlock())));
      disk := disk[b := Data(bytes)];
      return Done;
    }

    /** A write to the file is a write to the sparse array that it stands for. */
    method WriteSparse(ghost sparse: Sparse, w: Write) returns (status: Status)
      requires Valid() && |w.bytes| == blockSize && Represents(View(), sparse)
      modifies this`inode, this`disk, this`free
      ensures Valid() && disk.Keys + free == old(disk.Keys) + old(free)
      ensures Represents(View(), if status == Done then sparse[w.n := w.bytes] else sparse)
      ensures status == Done <==>
                && w.n < Capacity(View().PerBlock())
                && |Missing(old(View()), Prefixes(Path(w.n, View().PerBlock())))| <= |old(free)|
      ensures status == Done ==>
                && Filled(old(View()), View(), Prefixes(Path(w.n, View().PerBlock())))
                && |free| == |old(free)| - |Missing(old(View()), Prefixes(Path(w.n, View().PerBlock())))|
    {
      ghost var v := View();
      status := WriteBlock(w.n, w.bytes);
      if status == Done {
        RepresentsAfterWrite(v, View(), sparse, w.n, w.bytes);
      }
    }

    /** One write of a run that began with `v0` and `free0` free blocks. */
    method WriteNext(ghost sparse: Sparse, writes: seq<Write>, k: nat, ghost v0: Volume, ghost free0: nat) returns (done: bool)
      requires Valid() && k < |writes| && |writes[k].bytes| == blockSize
      requires Represents(View(), Written(sparse, writes[..k])) && Progress(v0, free0, View(), |free|, writes[..k])
      modifies this`inode, this`disk, this`free
      ensures Valid() && disk.Keys + free == old(disk.Keys) + old(free)
      ensures done <==> HasRoom(v0, free0, writes[..k + 1])
      ensures Represents(View(), Written(sparse, if done then writes[..k + 1] else writes[..k]))
      ensures done ==> Progress(v0, free0, View(), |free|, writes[..k + 1])
    {
      ghost var v, was := View(), |free|;
      ghost var p := v.PerBlock();
      ghost var paths := Prefixes(Path(writes[k].n, p));
      assert writes[..k + 1][..k] == writes[..k];
      RoomForNext(v0, free0, v, was, writes, k, p, paths);
      var status := WriteSparse(Written(sparse, writes[..k]), writes[k]);
      done := status == Done;
      if done {
        ProgressMade(v0, free0, v, was, View(), |free|, writes, k, p, paths);
      }
    }

    /** A whole run of writes, stopped by the first that fails: the file holds
        exactly what a sparse array would after those that were done, and they
        are as many as there is room for. */
    method WriteAll(ghost sparse: Sparse, writes: seq<Write>) returns (count: nat)
      requires Valid() && Represents(View(), sparse)
      requires forall w :: w in writes ==> |w.bytes| == blockSize
      modifies this`inode, this`disk, this`free
      ensures Valid() && count <= |writes|
      ensures disk.Keys + free == old(disk.Keys) + old(free)
      ensures Represents(View(), Written(sparse, writes[..count]))
      ensures forall k :: 0 <= k <= |writes| ==> (k <= count <==> HasRoom(old(View()), |old(free)|, writes[..k]))
      ensures count == |writes| ==> |free| == |old(free)| - |Missing(old(View()), Spine(writes, View().PerBlock()))|
    {
      ghost var v0, free0 := View(), |free|;
      FilledNone(v0);
      for k := 0 to |writes|
        invariant Valid() && disk.Keys + free == old(disk.Keys) + old(free)
        invariant Represents(View(), Written(sparse, writes[..k]))
        invariant Progress(v0, free0, View(), |free|, writes[..k])
      {
        var done := WriteNext(sparse, writes, k, v0, free0);
        if !done {
          RoomUpTo(v0, free0, writes, k);
          return k;
        }
      }
      assert writes[..|writes|] == writes;
      RoomForAll(v0, free0, writes);
      return |writes|;
    }
  }

  /** A reader sees no change, and only file block `n` may have moved. */
  ghost predicate SameFile(v: Volume, v': Volume, n: nat) {
    && v.blockSize == v'.blockSize >= POINTER_BYTES
    && (forall m: nat :: v'.Contents(m) == v.Contents(m))
    && (forall m: nat :: m != n ==> v'.Leaf(m) == v.Leaf(m))
  }

  lemma SameFileTwice(v: Volume, v': Volume, v'': Volume, n: nat)
    requires SameFile(v, v', n) && SameFile(v', v'', n)
    ensures SameFile(v, v'', n)
  {}

  lemma RepresentsAfterWrite(v: Volume, v': Volume, sparse: Sparse, n: nat, bytes: seq<Byte>)
    requires v.WellFormed() && v'.WellFormed() && v.blockSize == v'.blockSize
    requires Represents(v, sparse)
    requires forall m: nat :: v'.Contents(m) == if m == n then bytes else v.Contents(m)
    ensures Represents(v', sparse[n := bytes])
  {}

  lemma NodeOnPath(v: Volume, path: seq<nat>, k: nat)
    requires v.WellFormed() && ValidPath(path, v.PerBlock()) && k < |path|
    requires v.Follow(path[..k]) != HOLE
    ensures var b := v.Follow(path[..k]);
            v.IsNode(b) && path[k] < |v.Slots(b)| && v.ChildLevel(b, path[k]) == |path| - k - 1
  {
    if k > 0 { FollowLevel(v, path, k); }
  }

  /** What one allocation on the way to file block `n` leaves unchanged. */
  lemma AttachedStep(v: Volume, path: seq<nat>, k: nat, x: nat, n: nat)
    requires ValidPath(path, v.PerBlock()) && k < |path|
    requires CanAttach(v, v.Follow(path[..k]), path[k], x)
    requires n < Capacity(v.PerBlock()) && path == Path(n, v.PerBlock())
    ensures var v' := Attached(v, v.Follow(path[..k]), path[k], x);
            v'.Follow(path[..k + 1]) == x && SameFile(v, v', n)
  {
    var b := v.Follow(path[..k]);
    var v' := Attached(v, b, path[k], x);
    AttachedFollow(v, b, path[k], x, path[..k]);
    AttachedPtr(v, b, path[k], x, b, path[k]);
    assert path[..k + 1][..k] == path[..k];
    forall m: nat ensures v'.Contents(m) == v.Contents(m) {
      AttachedKeepsContents(v, b, path[k], x, m);
    }
    forall m: nat | m != n ensures v'.Leaf(m) == v.Leaf(m) {
      if m < Capacity(v.PerBlock()) {
        PathLeadsBack(m, v.PerBlock());
        PathLeadsBack(n, v.PerBlock());
        AttachedKeepsLeaf(v, path, k, x, m);
      }
    }
  }
}
