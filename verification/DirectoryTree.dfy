/** In every run the directories form one tree, every link count is exact, and
    i-nodes live exactly as long as something refers to them
    (dirs_links/README.org, sections 18.1, 18.3, 18.4 and 18.6). */
module DirectoryTree {
  import opened Basics
  import opened Directories

  // ----- The shape of the tree -----

  /** A directory in use names itself "." and a directory in use "..". */
  ghost predicate Dots(fs: Inodes) {
    && InUse(fs, ROOT) && Entry(fs, ROOT, DotDot) == Some(ROOT)
    && forall d :: InUse(fs, d) ==>
                     Entry(fs, d, Dot) == Some(d) && Entry(fs, d, DotDot).Some? && InUse(fs, Parent(fs, d))
  }

  /** A directory that is not in use has no entries. */
  ghost predicate DeadAreEmpty(fs: Inodes) {
    forall d, n :: Entry(fs, d, n).Some? ==> InUse(fs, d)
  }

  /** Entry `n` of `d` is a name for directory `c`. */
  predicate Names(fs: Inodes, d: Ino, n: Name, c: Ino) {
    n.Named? && Entry(fs, d, n) == Some(c) && IsDir(fs, c)
  }

  /** What ".." says of a directory is where its name is, and it has only one;
      the root has none. */
  ghost predicate OneParent(fs: Inodes) {
    && (forall d, n, c :: Names(fs, d, n, c) ==> InUse(fs, c) && c != ROOT && Parent(fs, c) == d)
    && (forall d, n, m, c :: Names(fs, d, n, c) && Names(fs, d, m, c) ==> n == m)
    && (forall c :: InUse(fs, c) && c != ROOT ==> exists n :: Names(fs, Parent(fs, c), n, c))
  }

  ghost predicate RankedBy(fs: Inodes, rank: map<Ino, nat>) {
    forall c :: InUse(fs, c) ==>
                  c in rank && (c != ROOT ==> Parent(fs, c) in rank && rank[Parent(fs, c)] < rank[c])
  }

  ghost predicate NoCycles(fs: Inodes) { exists rank :: RankedBy(fs, rank) }

  ghost predicate Tree(fs: Inodes) {
    Dots(fs) && DeadAreEmpty(fs) && OneParent(fs) && NoCycles(fs)
  }

  /** Every walk along ".." arrives at the root. */
  lemma WalkReachesRoot(fs: Inodes, d: Ino)
    requires Tree(fs) && InUse(fs, d)
    ensures InSubtree(fs, ROOT, d)
  {
    var rank :| RankedBy(fs, rank);
    RankedWalk(fs, rank, d);
  }

  lemma {:induction false} RankedWalk(fs: Inodes, rank: map<Ino, nat>, d: Ino)
    requires Dots(fs) && RankedBy(fs, rank) && InUse(fs, d)
    ensures exists k: nat :: k <= rank[d] && Walk(fs, d, k) == ROOT
    decreases rank[d]
  {
    if d == ROOT {
      assert Walk(fs, d, 0) == ROOT;
    } else {
      RankedWalk(fs, rank, Parent(fs, d));
      var k: nat :| k <= rank[Parent(fs, d)] && Walk(fs, Parent(fs, d), k) == ROOT;
      assert Walk(fs, d, k + 1) == ROOT;
    }
  }

  // ----- Descent -----

  lemma SubtreeStep(fs: Inodes, top: Ino, c: Ino)
    ensures InSubtree(fs, top, Parent(fs, c)) ==> InSubtree(fs, top, c)
    ensures InSubtree(fs, top, c) && c != top ==> InSubtree(fs, top, Parent(fs, c))
  {
    if InSubtree(fs, top, Parent(fs, c)) {
      var k: nat :| Walk(fs, Parent(fs, c), k) == top;
      assert Walk(fs, c, k + 1) == top;
    }
    if InSubtree(fs, top, c) && c != top {
      var k: nat :| Walk(fs, c, k) == top;
      assert Walk(fs, Parent(fs, c), k - 1) == top;
    }
  }

  // ----- Erase: unlink, rmdir and the overwriting half of rename -----

  /** The entry may go: it names a file, or an empty directory. */
  ghost predicate Erasable(fs: Inodes, d: Ino, n: Name) {
    && n.Named? && Entry(fs, d, n).Some?
    && (IsDir(fs, Entry(fs, d, n).value) ==> Empty(fs, Entry(fs, d, n).value))
  }

  predicate Erased(fs: Inodes, d: Ino, n: Name, x: Ino, y: Name)
    requires Entry(fs, d, n).Some?
  {
    || (x == d && y == n)
    || (x == Entry(fs, d, n).value && IsDir(fs, x) && !y.Named?)
  }

  /** Erase removes that entry and, of an empty directory, "." and "..". */
  lemma EraseEntries(fs: Inodes, d: Ino, n: Name)
    requires Counted(fs) && DeadAreEmpty(fs) && Erasable(fs, d, n)
    ensures Counted(Erase(fs, d, n))
    ensures forall x, y :: Entry(Erase(fs, d, n), x, y) == if Erased(fs, d, n, x, y) then None else Entry(fs, x, y)
  {
    var i := Entry(fs, d, n).value;
    var fs1 := Drop(fs, d, n);
    DropKeepsCounted(fs, d, n);
    var fs2 := if IsDir(fs, i) then Drop(Drop(fs1, i, Dot), i, DotDot) else fs1;
    if IsDir(fs, i) {
      DropKeepsCounted(fs1, i, Dot);
      DropKeepsCounted(Drop(fs1, i, Dot), i, DotDot);
    }
    forall x, y ensures Entry(fs2, x, y) == if Erased(fs, d, n, x, y) then None else Entry(fs, x, y) {
      DropEntry(fs, d, n, x, y);
      DropEntry(fs1, i, Dot, x, y);
      DropEntry(Drop(fs1, i, Dot), i, DotDot, x, y);
    }
    forall y ensures Entry(fs2, i, y).None? {
      if IsDir(fs, i) && y.Named? { assert y !in fs[i].entries; }
    }
    ReclaimKeepsCounted(fs2, i);
  }

  lemma EraseKinds(fs: Inodes, d: Ino, n: Name, x: Ino)
    requires Entry(fs, d, n).Some?
    ensures IsDir(Erase(fs, d, n), x) ==> IsDir(fs, x)
    ensures x != Entry(fs, d, n).value ==> IsDir(Erase(fs, d, n), x) == IsDir(fs, x)
  {
    var i := Entry(fs, d, n).value;
    var fs1 := Drop(fs, d, n);
    DropEntry(fs, d, n, x, n);
    DropEntry(fs1, i, Dot, x, n);
    DropEntry(Drop(fs1, i, Dot), i, DotDot, x, n);
  }

  /** Nothing has its ".." in a directory that is empty. */
  lemma EmptyHasNoChildren(fs: Inodes, i: Ino, c: Ino)
    requires Tree(fs) && IsDir(fs, i) && Empty(fs, i) && InUse(fs, c) && c != ROOT
    ensures Parent(fs, c) != i
  {}

  lemma EraseKeepsUse(fs: Inodes, d: Ino, n: Name, c: Ino)
    requires Counted(fs) && Tree(fs) && Erasable(fs, d, n)
    ensures var i, fs' := Entry(fs, d, n).value, Erase(fs, d, n);
            && InUse(fs', c) == (InUse(fs, c) && !(c == i && IsDir(fs, i)))
            && (InUse(fs', c) ==> Parent(fs', c) == Parent(fs, c) && InUse(fs', Parent(fs', c)))
  {
    var i := Entry(fs, d, n).value;
    EraseEntries(fs, d, n);
    if InUse(fs, c) && !(c == i && IsDir(fs, i)) && IsDir(fs, i) {
      assert Names(fs, d, n, i);
      if c != ROOT {
        EmptyHasNoChildren(fs, i, c);
      }
    }
  }

  lemma EraseKeepsOneParent(fs: Inodes, d: Ino, n: Name)
    requires Counted(fs) && Tree(fs) && Erasable(fs, d, n)
    ensures OneParent(Erase(fs, d, n))
  {
    var i, fs' := Entry(fs, d, n).value, Erase(fs, d, n);
    EraseEntries(fs, d, n);
    forall x, y, c | Names(fs', x, y, c) ensures Names(fs, x, y, c) && InUse(fs', c) && Parent(fs', c) == x {
      EraseKinds(fs, d, n, c);
      assert Names(fs, x, y, c);
      if c == i {
        assert Names(fs, d, n, i);
      }
      EraseKeepsUse(fs, d, n, c);
    }
    forall c | InUse(fs', c) && c != ROOT ensures exists m :: Names(fs', Parent(fs', c), m, c) {
      EraseKeepsUse(fs, d, n, c);
      var m :| Names(fs, Parent(fs, c), m, c);
      EraseKinds(fs, d, n, c);
      assert Names(fs', Parent(fs', c), m, c);
    }
  }

  lemma EraseKeepsTree(fs: Inodes, d: Ino, n: Name)
    requires Counted(fs) && Tree(fs) && Erasable(fs, d, n)
    ensures Counted(Erase(fs, d, n)) && Tree(Erase(fs, d, n))
  {
    var i, fs' := Entry(fs, d, n).value, Erase(fs, d, n);
    EraseEntries(fs, d, n);
    EraseKeepsOneParent(fs, d, n);
    assert IsDir(fs, i) ==> Names(fs, d, n, i);
    var rank :| RankedBy(fs, rank);
    forall c ensures InUse(fs', c) ==> InUse(fs, c) && Parent(fs', c) == Parent(fs, c) && InUse(fs', Parent(fs', c)) {
      EraseKeepsUse(fs, d, n, c);
    }
    assert RankedBy(fs', rank);
  }

  // ----- New files, new links, new directories -----

  lemma SameEntriesKeepTree(fs: Inodes, fs': Inodes)
    requires Tree(fs)
    requires forall x, y :: Entry(fs', x, y) == Entry(fs, x, y)
    requires forall x, y :: Entry(fs, x, y).Some? ==> IsDir(fs', Entry(fs, x, y).value) == IsDir(fs, Entry(fs, x, y).value)
    ensures Tree(fs')
  {
    forall d, n, c ensures Names(fs', d, n, c) == Names(fs, d, n, c) {}
    var rank :| RankedBy(fs, rank);
    assert RankedBy(fs', rank);
    forall c | InUse(fs', c) && c != ROOT ensures exists n :: Names(fs', Parent(fs', c), n, c) {
      var n :| Names(fs, Parent(fs, c), n, c);
      assert Names(fs', Parent(fs', c), n, c);
    }
  }

  /** A fresh i-node without entries or names disturbs nothing. */
  lemma FreshKeeps(fs: Inodes, i: Ino, node: Inode)
    requires Counted(fs) && Tree(fs) && i !in fs
    requires node.nlink == 0 && (node.Dir? ==> node.entries == map[])
    ensures Counted(fs[i := node]) && Tree(fs[i := node])
    ensures forall x, y :: Entry(fs[i := node], x, y) == Entry(fs, x, y)
  {
    var fs' := fs[i := node];
    forall j | j in fs' ensures fs'[j].nlink == |Links(fs', j)| {
      forall x, y ensures (x, y) in Links(fs, j) <==> Entry(fs', x, y) == Some(j) {
        LinksAreEntries(fs, j, x, y);
      }
      LinksBy(fs', j, Links(fs, j));
      if j == i {
        forall p ensures p !in Links(fs, i) { LinksAreEntries(fs, i, p.0, p.1); }
        assert Links(fs, i) == {};
      }
    }
    SameEntriesKeepTree(fs, fs');
  }

  lemma AddFileKeepsTree(fs: Inodes, d: Ino, n: Name, i: Ino)
    requires Counted(fs) && Tree(fs) && InUse(fs, d) && Entry(fs, d, n).None?
    requires i in fs && !IsDir(fs, i)
    ensures Counted(Add(fs, d, n, i)) && Tree(Add(fs, d, n, i))
  {
    var fs' := Add(fs, d, n, i);
    AddKeepsCounted(fs, d, n, i);
    forall x, y
      ensures Entry(fs', x, y) == if x == d && y == n then Some(i) else Entry(fs, x, y)
      ensures IsDir(fs', x) == IsDir(fs, x)
    {
      AddEntry(fs, d, n, i, x, y);
    }
    forall x, y, c ensures Names(fs', x, y, c) == Names(fs, x, y, c) {}
    var rank :| RankedBy(fs, rank);
    assert RankedBy(fs', rank);
    forall c | InUse(fs', c) && c != ROOT ensures exists m :: Names(fs', Parent(fs', c), m, c) {
      var m :| Names(fs, Parent(fs, c), m, c);
      assert Names(fs', Parent(fs', c), m, c);
    }
  }

  function EntryAfterMkdir(fs: Inodes, d: Ino, n: Name, i: Ino, x: Ino, y: Name): Option<Ino> {
    if x == i && y == Dot then Some(i)
    else if x == i && y == DotDot then Some(d)
    else if x == d && y == n then Some(i)
    else Entry(fs, x, y)
  }

  lemma NewDirEntry(fs: Inodes, d: Ino, n: Name, i: Ino, x: Ino, y: Name)
    requires IsDir(fs, d) && i !in fs
    ensures Entry(NewDir(fs, d, n, i), x, y) == EntryAfterMkdir(fs, d, n, i, x, y)
    ensures IsDir(NewDir(fs, d, n, i), x) == (IsDir(fs, x) || x == i)
  {}

  lemma NewDirKeepsCounted(fs: Inodes, d: Ino, n: Name, i: Ino)
    requires Counted(fs) && Tree(fs) && IsDir(fs, d) && Entry(fs, d, n).None? && i !in fs
    ensures Counted(NewDir(fs, d, n, i))
  {
    var fs0 := fs[i := Dir(0, 0, map[])];
    var fs1 := Add(fs0, i, Dot, i);
    var fs2 := Add(fs1, i, DotDot, d);
    FreshKeeps(fs, i, Dir(0, 0, map[]));
    AddKeepsCounted(fs0, i, Dot, i);
    AddEntry(fs0, i, Dot, i, i, DotDot);
    AddEntry(fs0, i, Dot, i, d, n);
    AddKeepsCounted(fs1, i, DotDot, d);
    AddEntry(fs1, i, DotDot, d, d, n);
    AddKeepsCounted(fs2, d, n, i);
  }

  lemma MkdirNames(fs: Inodes, fs': Inodes, d: Ino, n: Name, i: Ino)
    requires NoDangling(fs) && i !in fs && n.Named?
    requires forall x, y :: Entry(fs', x, y) == EntryAfterMkdir(fs, d, n, i, x, y)
    requires forall x :: IsDir(fs', x) == (IsDir(fs, x) || x == i)
    ensures forall x, y, c :: Names(fs', x, y, c) <==> (x == d && y == n && c == i) || (Names(fs, x, y, c) && !(x == d && y == n))
    ensures forall x, y, c :: Names(fs, x, y, c) ==> c != i
  {}

  lemma MkdirUse(fs: Inodes, fs': Inodes, d: Ino, n: Name, i: Ino, c: Ino)
    requires Dots(fs) && n.Named? && i !in fs
    requires forall x, y :: Entry(fs', x, y) == EntryAfterMkdir(fs, d, n, i, x, y)
    ensures InUse(fs', c) <==> InUse(fs, c) || c == i
    ensures Parent(fs', c) == if c == i then d else Parent(fs, c)
  {}

  lemma MkdirOneParent(fs: Inodes, fs': Inodes, d: Ino, n: Name, i: Ino)
    requires NoDangling(fs) && Tree(fs) && InUse(fs, d) && Entry(fs, d, n).None? && i !in fs && n.Named?
    requires forall x, y :: Entry(fs', x, y) == EntryAfterMkdir(fs, d, n, i, x, y)
    requires forall x :: IsDir(fs', x) == (IsDir(fs, x) || x == i)
    ensures OneParent(fs')
  {
    MkdirNames(fs, fs', d, n, i);
    assert i != ROOT;
    forall x, y, c | Names(fs', x, y, c) ensures InUse(fs', c) && c != ROOT && Parent(fs', c) == x {
      MkdirUse(fs, fs', d, n, i, c);
    }
    forall c | InUse(fs', c) && c != ROOT ensures exists m :: Names(fs', Parent(fs', c), m, c) {
      MkdirUse(fs, fs', d, n, i, c);
      if c == i {
        assert Names(fs', d, n, c);
      } else {
        var m :| Names(fs, Parent(fs, c), m, c);
        assert Names(fs', Parent(fs', c), m, c);
      }
    }
  }

  lemma MkdirShape(fs: Inodes, fs': Inodes, d: Ino, n: Name, i: Ino)
    requires NoDangling(fs) && Tree(fs) && InUse(fs, d) && Entry(fs, d, n).None? && i !in fs
    requires forall x, y :: Entry(fs', x, y) == EntryAfterMkdir(fs, d, n, i, x, y)
    requires forall x :: IsDir(fs', x) == (IsDir(fs, x) || x == i)
    ensures Tree(fs')
  {
    assert n.Named?;
    MkdirOneParent(fs, fs', d, n, i);
    forall c
      ensures InUse(fs', c) <==> InUse(fs, c) || c == i
      ensures Parent(fs', c) == if c == i then d else Parent(fs, c)
    {
      MkdirUse(fs, fs', d, n, i, c);
    }
    var rank :| RankedBy(fs, rank);
    assert RankedBy(fs', rank[i := rank[d] + 1]);
  }

  lemma NewDirKeepsTree(fs: Inodes, d: Ino, n: Name, i: Ino)
    requires Counted(fs) && Tree(fs) && InUse(fs, d) && Entry(fs, d, n).None? && i !in fs
    ensures Counted(NewDir(fs, d, n, i)) && Tree(NewDir(fs, d, n, i))
  {
    NewDirKeepsCounted(fs, d, n, i);
    forall x, y
      ensures Entry(NewDir(fs, d, n, i), x, y) == EntryAfterMkdir(fs, d, n, i, x, y)
      ensures IsDir(NewDir(fs, d, n, i), x) == (IsDir(fs, x) || x == i)
    {
      NewDirEntry(fs, d, n, i, x, y);
    }
    MkdirShape(fs, NewDir(fs, d, n, i), d, n, i);
  }

  // ----- Move: the other half of rename -----

  ghost predicate Movable(fs: Inodes, od: Ino, on: Name, d: Ino, n: Name, i: Ino) {
    && Counted(fs) && Tree(fs)
    && on.Named? && n.Named? && Entry(fs, od, on) == Some(i) && Entry(fs, d, n).None? && InUse(fs, d)
    && (IsDir(fs, i) ==> !InSubtree(fs, i, d))
  }

  function EntryAfterMove(fs: Inodes, od: Ino, on: Name, d: Ino, n: Name, i: Ino, x: Ino, y: Name): Option<Ino> {
    if x == d && y == n then Some(i)
    else if x == od && y == on then None
    else if x == i && y == DotDot && IsDir(fs, i) then Some(d)
    else Entry(fs, x, y)
  }

  lemma MoveEntry(fs: Inodes, od: Ino, on: Name, d: Ino, n: Name, i: Ino, x: Ino, y: Name)
    requires on.Named? && n.Named? && Entry(fs, od, on) == Some(i) && i in fs
    requires Entry(fs, d, n).None? && IsDir(fs, d)
    ensures Entry(Move(fs, od, on, d, n, i), x, y) == EntryAfterMove(fs, od, on, d, n, i, x, y)
    ensures IsDir(Move(fs, od, on, d, n, i), x) == IsDir(fs, x)
  {
    var fs1 := Drop(fs, od, on);
    var fs2 := Add(fs1, d, n, i);
    DropEntry(fs, od, on, x, y);
    DropEntry(fs, od, on, d, y);
    AddEntry(fs1, d, n, i, x, y);
    AddEntry(fs1, d, n, i, i, y);
    DropEntry(fs2, i, DotDot, x, y);
    DropEntry(fs2, i, DotDot, i, y);
    if IsDir(fs, i) {
      DropEntry(fs, od, on, i, y);
      DropEntry(fs2, i, DotDot, d, y);
      AddEntry(fs1, d, n, i, d, y);
      AddEntry(Drop(fs2, i, DotDot), i, DotDot, d, x, y);
    }
  }

  lemma MoveKeepsCounted(fs: Inodes, od: Ino, on: Name, d: Ino, n: Name, i: Ino)
    requires Movable(fs, od, on, d, n, i)
    ensures Counted(Move(fs, od, on, d, n, i))
  {
    var fs1 := Drop(fs, od, on);
    var fs2 := Add(fs1, d, n, i);
    DropKeepsCounted(fs, od, on);
    DropEntry(fs, od, on, d, n);
    AddKeepsCounted(fs1, d, n, i);
    if IsDir(fs, i) {
      DropKeepsCounted(fs2, i, DotDot);
      DropEntry(fs, od, on, i, n);
      AddEntry(fs1, d, n, i, i, n);
      AddEntry(fs1, d, n, i, d, n);
      DropEntry(fs2, i, DotDot, i, DotDot);
      DropEntry(fs2, i, DotDot, d, n);
      AddKeepsCounted(Drop(fs2, i, DotDot), i, DotDot, d);
    }
  }

  /** `fs'` is `fs` with the entry for `i` moved. */
  ghost predicate Moved(fs: Inodes, fs': Inodes, od: Ino, on: Name, d: Ino, n: Name, i: Ino) {
    && (forall x, y :: Entry(fs', x, y) == EntryAfterMove(fs, od, on, d, n, i, x, y))
    && (forall x :: IsDir(fs', x) == IsDir(fs, x))
  }

  lemma MovedUse(fs: Inodes, fs': Inodes, od: Ino, on: Name, d: Ino, n: Name, i: Ino, c: Ino)
    requires on.Named? && n.Named? && Moved(fs, fs', od, on, d, n, i)
    ensures InUse(fs', c) == InUse(fs, c)
    ensures Parent(fs', c) == if c == i && IsDir(fs, i) then d else Parent(fs, c)
  {}

  lemma MovedNames(fs: Inodes, fs': Inodes, od: Ino, on: Name, d: Ino, n: Name, i: Ino, x: Ino, y: Name, c: Ino)
    requires Movable(fs, od, on, d, n, i) && Moved(fs, fs', od, on, d, n, i)
    ensures Names(fs', x, y, c) <==>
              || (x == d && y == n && c == i && IsDir(fs, i))
              || (Names(fs, x, y, c) && !(x == od && y == on))
    ensures Names(fs, x, y, c) && c == i ==> x == od && y == on
  {
    if Names(fs, x, y, c) && c == i {
      assert Names(fs, od, on, i);
    }
  }

  lemma MovedOneParent(fs: Inodes, fs': Inodes, od: Ino, on: Name, d: Ino, n: Name, i: Ino)
    requires Movable(fs, od, on, d, n, i) && Moved(fs, fs', od, on, d, n, i)
    ensures OneParent(fs')
  {
    forall x, y, c | Names(fs', x, y, c) ensures InUse(fs', c) && c != ROOT && Parent(fs', c) == x {
      MovedNames(fs, fs', od, on, d, n, i, x, y, c);
      MovedUse(fs, fs', od, on, d, n, i, c);
      assert c == i ==> Names(fs, od, on, i);
    }
    forall x, y, z, c | Names(fs', x, y, c) && Names(fs', x, z, c) ensures y == z {
      MovedNames(fs, fs', od, on, d, n, i, x, y, c);
      MovedNames(fs, fs', od, on, d, n, i, x, z, c);
    }
    forall c | InUse(fs', c) && c != ROOT ensures exists m :: Names(fs', Parent(fs', c), m, c) {
      MovedUse(fs, fs', od, on, d, n, i, c);
      var m :| Names(fs, Parent(fs, c), m, c);
      MovedNames(fs, fs', od, on, d, n, i, Parent(fs, c), m, c);
      MovedNames(fs, fs', od, on, d, n, i, d, n, c);
      assert Names(fs', Parent(fs', c), if c == i then n else m, c);
    }
  }

  /** Ranks below a moved directory are raised above its new parent's. */
  ghost function Raised(fs: Inodes, rank: map<Ino, nat>, i: Ino, lift: nat): map<Ino, nat> {
    map c | c in rank :: if InSubtree(fs, i, c) then rank[c] + lift else rank[c]
  }

  lemma MovedNoCycles(fs: Inodes, fs': Inodes, od: Ino, on: Name, d: Ino, n: Name, i: Ino)
    requires Movable(fs, od, on, d, n, i) && Moved(fs, fs', od, on, d, n, i)
    ensures NoCycles(fs')
  {
    var rank :| RankedBy(fs, rank);
    var raised := if IsDir(fs, i) then Raised(fs, rank, i, rank[d] + 1) else rank;
    forall c | InUse(fs', c)
      ensures c in raised && (c != ROOT ==> Parent(fs', c) in raised && raised[Parent(fs', c)] < raised[c])
    {
      MovedUse(fs, fs', od, on, d, n, i, c);
      SubtreeStep(fs, i, c);
      if c == i { assert Walk(fs, c, 0) == i; }
    }
    assert RankedBy(fs', raised);
  }

  lemma MovedDots(fs: Inodes, fs': Inodes, od: Ino, on: Name, d: Ino, n: Name, i: Ino)
    requires Movable(fs, od, on, d, n, i) && Moved(fs, fs', od, on, d, n, i)
    ensures Dots(fs') && DeadAreEmpty(fs')
  {
    forall c | InUse(fs', c)
      ensures Entry(fs', c, Dot) == Some(c) && Entry(fs', c, DotDot).Some? && InUse(fs', Parent(fs', c))
    {
      MovedUse(fs, fs', od, on, d, n, i, c);
      MovedUse(fs, fs', od, on, d, n, i, Parent(fs', c));
    }
    forall x, y | Entry(fs', x, y).Some? ensures InUse(fs', x) {
      MovedUse(fs, fs', od, on, d, n, i, x);
      assert x == i && IsDir(fs, i) ==> Names(fs, od, on, i);
    }
    MovedUse(fs, fs', od, on, d, n, i, ROOT);
    assert i == ROOT && IsDir(fs, i) ==> Names(fs, od, on, i);
  }

  lemma MoveIsMoved(fs: Inodes, od: Ino, on: Name, d: Ino, n: Name, i: Ino, fs': Inodes)
    requires on.Named? && n.Named? && Entry(fs, od, on) == Some(i) && i in fs
    requires Entry(fs, d, n).None? && IsDir(fs, d) && fs' == Move(fs, od, on, d, n, i)
    ensures Moved(fs, fs', od, on, d, n, i)
  {
    forall x, y
      ensures Entry(fs', x, y) == EntryAfterMove(fs, od, on, d, n, i, x, y) && IsDir(fs', x) == IsDir(fs, x)
    {
      MoveEntry(fs, od, on, d, n, i, x, y);
    }
  }

  /** Renaming keeps the tree, because no directory is moved below itself. */
  lemma MoveKeepsTree(fs: Inodes, od: Ino, on: Name, d: Ino, n: Name, i: Ino)
    requires Movable(fs, od, on, d, n, i)
    ensures Counted(Move(fs, od, on, d, n, i)) && Tree(Move(fs, od, on, d, n, i))
  {
    MoveKeepsCounted(fs, od, on, d, n, i);
    MoveIsMoved(fs, od, on, d, n, i, Move(fs, od, on, d, n, i));
    MovedDots(fs, Move(fs, od, on, d, n, i), od, on, d, n, i);
    MovedOneParent(fs, Move(fs, od, on, d, n, i), od, on, d, n, i);
    MovedNoCycles(fs, Move(fs, od, on, d, n, i), od, on, d, n, i);
  }

  // ----- Why the two rules of section 18.4 and 18.1 are needed -----

  lemma {:induction false} WalkFromRoot(fs: Inodes, k: nat)
    requires Dots(fs)
    ensures Walk(fs, ROOT, k) == ROOT
  {
    if k > 0 { WalkFromRoot(fs, k - 1); }
  }

  /** With the move done, everything below `i` would still rank above it. */
  lemma {:induction false} RankBelow(fs: Inodes, fs': Inodes, rank: map<Ino, nat>, i: Ino, x: Ino, k: nat)
    requires Dots(fs) && InUse(fs, x) && i != ROOT && Walk(fs, x, k) == i
    requires forall c :: InUse(fs', c) == InUse(fs, c) && (c != i ==> Parent(fs', c) == Parent(fs, c))
    requires RankedBy(fs', rank)
    ensures InUse(fs, i) && rank[i] <= rank[x]
    decreases k
  {
    if x != i {
      if x == ROOT { WalkFromRoot(fs, k); }
      RankBelow(fs, fs', rank, i, Parent(fs, x), k - 1);
    }
  }

  /** Moving a directory keeps the tree exactly when the new place is not below
      the directory itself, which is what EINVAL is for. */
  lemma MoveSafeIff(fs: Inodes, od: Ino, on: Name, d: Ino, n: Name, i: Ino)
    requires Counted(fs) && Tree(fs) && InUse(fs, d) && Names(fs, od, on, i)
    requires n.Named? && Entry(fs, d, n).None?
    ensures Tree(Move(fs, od, on, d, n, i)) <==> !InSubtree(fs, i, d)
  {
    if !InSubtree(fs, i, d) {
      MoveKeepsTree(fs, od, on, d, n, i);
    } else {
      MoveIsMoved(fs, od, on, d, n, i, Move(fs, od, on, d, n, i));
      MovedBelowItself(fs, Move(fs, od, on, d, n, i), od, on, d, n, i);
    }
  }

  lemma MovedBelowItself(fs: Inodes, fs': Inodes, od: Ino, on: Name, d: Ino, n: Name, i: Ino)
    requires Counted(fs) && Tree(fs) && InUse(fs, d) && Names(fs, od, on, i)
    requires n.Named? && Entry(fs, d, n).None? && InSubtree(fs, i, d)
    requires Moved(fs, fs', od, on, d, n, i)
    ensures !NoCycles(fs')
  {
    forall c
      ensures InUse(fs', c) == InUse(fs, c)
      ensures Parent(fs', c) == if c == i then d else Parent(fs, c)
    {
      MovedUse(fs, fs', od, on, d, n, i, c);
    }
    var k: nat :| Walk(fs, d, k) == i;
    forall rank ensures !RankedBy(fs', rank) {
      if RankedBy(fs', rank) {
        RankBelow(fs, fs', rank, i, d, k);
        assert false;
      }
    }
  }

  /** A further name keeps the tree exactly when it is not for a directory. */
  lemma HardLinkSafeIff(fs: Inodes, d: Ino, n: Name, i: Ino)
    requires Counted(fs) && Tree(fs) && InUse(fs, d) && n.Named? && Entry(fs, d, n).None?
    requires i in fs
    ensures Tree(Add(fs, d, n, i)) <==> !IsDir(fs, i)
  {
    if !IsDir(fs, i) {
      AddFileKeepsTree(fs, d, n, i);
    } else {
      var fs' := Add(fs, d, n, i);
      AddEntry(fs, d, n, i, d, n);
      AddEntry(fs, d, n, i, i, DotDot);
      assert Names(fs', d, n, i);
      if i != ROOT && InUse(fs, i) {
        var m :| Names(fs, Parent(fs, i), m, i);
        AddEntry(fs, d, n, i, Parent(fs, i), m);
        assert Names(fs', Parent(fs, i), m, i);
      }
    }
  }

  // ----- Names, open descriptions and lifetime -----

  ghost predicate HasName(fs: Inodes, i: Ino) { exists d, n :: Entry(fs, d, n) == Some(i) }

  lemma CountIsPositive(fs: Inodes, i: Ino)
    requires Counted(fs) && i in fs
    ensures fs[i].nlink > 0 <==> HasName(fs, i)
  {
    if HasName(fs, i) {
      var d, n :| Entry(fs, d, n) == Some(i);
      LinksAreEntries(fs, i, d, n);
    } else if fs[i].nlink > 0 {
      var p :| p in Links(fs, i);
      LinksAreEntries(fs, i, p.0, p.1);
    }
  }

  /** Whatever exists has a name or is open. */
  ghost predicate Held(fs: Inodes) { forall i :: i in fs ==> HasName(fs, i) || fs[i].opens > 0 }

  ghost predicate Valid(fs: Inodes) { Counted(fs) && Tree(fs) && Held(fs) }

  const EMPTY: Inodes := map[ROOT := Dir(2, 0, map[Dot := ROOT, DotDot := ROOT])]

  lemma EmptyIsValid()
    ensures Valid(EMPTY)
  {
    LinksBy(EMPTY, ROOT, {(ROOT, Dot), (ROOT, DotDot)});
    assert RankedBy(EMPTY, map[ROOT := 0]);
    assert Entry(EMPTY, ROOT, Dot) == Some(ROOT);
  }

  // ----- Rename as a whole -----

  lemma {:induction false} EraseWalk(fs: Inodes, d: Ino, n: Name, x: Ino, k: nat)
    requires Counted(fs) && Tree(fs) && Erasable(fs, d, n) && InUse(Erase(fs, d, n), x)
    ensures Walk(Erase(fs, d, n), x, k) == Walk(fs, x, k)
    decreases k
  {
    if k > 0 {
      EraseKeepsUse(fs, d, n, x);
      EraseWalk(fs, d, n, Parent(fs, x), k - 1);
    }
  }

  /** The new name's directory is not what that name stands for. */
  lemma NotItsOwnEntry(fs: Inodes, d: Ino, n: Name)
    requires Tree(fs) && n.Named? && InUse(fs, d)
    ensures Entry(fs, d, n) != Some(d)
  {
    var rank :| RankedBy(fs, rank);
    assert Entry(fs, d, n) == Some(d) ==> Names(fs, d, n, d);
  }

  /** rename() succeeds and has something to do. */
  ghost predicate Renames(fs: Inodes, od: Ino, on: Name, d: Ino, n: Name) {
    RenameStatus(fs, od, on, d, n) == Ok && !SameFile(fs, od, on, d, n)
  }

  lemma RenameErasable(fs: Inodes, od: Ino, on: Name, d: Ino, n: Name)
    requires Counted(fs) && Tree(fs) && Renames(fs, od, on, d, n) && Entry(fs, d, n).Some?
    ensures Erasable(fs, d, n)
  {}

  lemma RenameMovable(fs: Inodes, od: Ino, on: Name, d: Ino, n: Name)
    requires Counted(fs) && Tree(fs) && Renames(fs, od, on, d, n)
    ensures Movable(Cleared(fs, d, n), od, on, d, n, Entry(fs, od, on).value)
  {
    if Entry(fs, d, n).Some? {
      var i, fs' := Entry(fs, od, on).value, Erase(fs, d, n);
      RenameErasable(fs, od, on, d, n);
      EraseEntries(fs, d, n);
      EraseKeepsTree(fs, d, n);
      EraseKeepsUse(fs, d, n, d);
      NotItsOwnEntry(fs, d, n);
      EraseKinds(fs, d, n, i);
      if IsDir(fs', i) && InSubtree(fs', i, d) {
        var k: nat :| Walk(fs', d, k) == i;
        EraseWalk(fs, d, n, d, k);
        assert InSubtree(fs, i, d);
      }
    }
  }

  lemma RenameKeepsTree(fs: Inodes, od: Ino, on: Name, d: Ino, n: Name)
    requires Counted(fs) && Tree(fs)
    ensures Counted(Step(fs, Rename(od, on, d, n))) && Tree(Step(fs, Rename(od, on, d, n)))
  {
    if Renames(fs, od, on, d, n) {
      RenameMovable(fs, od, on, d, n);
      MoveKeepsTree(Cleared(fs, d, n), od, on, d, n, Entry(fs, od, on).value);
    }
  }

  /** rename() between two names for one file changes nothing, and succeeds. */
  lemma RenameSameFile(fs: Inodes, od: Ino, on: Name, d: Ino, n: Name)
    requires Counted(fs) && Tree(fs) && on.Named? && n.Named? && SameFile(fs, od, on, d, n)
    ensures StatusOf(fs, Rename(od, on, d, n)) == Ok
    ensures Step(fs, Rename(od, on, d, n)) == fs
  {}

  /** Of all entries rename() touches the two names, the ".." of a directory
      that moved, and the "." and ".." of an empty directory it replaced. */
  function EntryAfterRename(fs: Inodes, od: Ino, on: Name, d: Ino, n: Name, i: Ino, x: Ino, y: Name): Option<Ino> {
    if x == d && y == n then Some(i)
    else if x == od && y == on then None
    else if x == i && y == DotDot && IsDir(fs, i) then Some(d)
    else if Entry(fs, d, n) == Some(x) && IsDir(fs, x) && !y.Named? then None
    else Entry(fs, x, y)
  }

  lemma RenameEntry(fs: Inodes, od: Ino, on: Name, d: Ino, n: Name, x: Ino, y: Name)
    requires Counted(fs) && Tree(fs) && Renames(fs, od, on, d, n)
    ensures Entry(Step(fs, Rename(od, on, d, n)), x, y) ==
              EntryAfterRename(fs, od, on, d, n, Entry(fs, od, on).value, x, y)
  {
    MoveIntoCleared(fs, od, on, d, n, x, y);
    if Entry(fs, d, n).Some? {
      RenameErasable(fs, od, on, d, n);
      ErasedThenMoved(fs, od, on, d, n, Entry(fs, od, on).value, x, y);
    }
  }

  lemma MoveIntoCleared(fs: Inodes, od: Ino, on: Name, d: Ino, n: Name, x: Ino, y: Name)
    requires Counted(fs) && Tree(fs) && Renames(fs, od, on, d, n)
    ensures var i, fs' := Entry(fs, od, on).value, Cleared(fs, d, n);
            && Entry(Move(fs', od, on, d, n, i), x, y) == EntryAfterMove(fs', od, on, d, n, i, x, y)
            && IsDir(Move(fs', od, on, d, n, i), x) == IsDir(fs', x)
  {
    RenameMovable(fs, od, on, d, n);
    MoveEntry(Cleared(fs, d, n), od, on, d, n, Entry(fs, od, on).value, x, y);
  }

  lemma ErasedThenMoved(fs: Inodes, od: Ino, on: Name, d: Ino, n: Name, i: Ino, x: Ino, y: Name)
    requires Counted(fs) && DeadAreEmpty(fs) && Erasable(fs, d, n) && Entry(fs, d, n) != Some(i)
    ensures EntryAfterMove(Erase(fs, d, n), od, on, d, n, i, x, y) == EntryAfterRename(fs, od, on, d, n, i, x, y)
  {
    EraseEntries(fs, d, n);
    EraseKinds(fs, d, n, i);
  }

  // ----- Every run -----

  function WithOpens(fs: Inodes, i: Ino, opens: nat): Inodes
    requires i in fs
  {
    fs[i := fs[i].(opens := opens)]
  }

  lemma OpensEntry(fs: Inodes, i: Ino, opens: nat, x: Ino, y: Name)
    requires i in fs
    ensures Entry(WithOpens(fs, i, opens), x, y) == Entry(fs, x, y)
  {}

  lemma OpensKeepCounted(fs: Inodes, i: Ino, opens: nat)
    requires Counted(fs) && i in fs
    ensures Counted(WithOpens(fs, i, opens))
  {
    var fs' := WithOpens(fs, i, opens);
    forall x, y ensures Entry(fs', x, y) == Entry(fs, x, y) {
      OpensEntry(fs, i, opens, x, y);
    }
    forall j | j in fs' ensures fs'[j].nlink == |Links(fs', j)| {
      forall x, y ensures (x, y) in Links(fs, j) <==> Entry(fs', x, y) == Some(j) {
        LinksAreEntries(fs, j, x, y);
      }
      LinksBy(fs', j, Links(fs, j));
    }
  }

  lemma OpensKeepTree(fs: Inodes, i: Ino, opens: nat)
    requires Tree(fs) && i in fs
    ensures Tree(WithOpens(fs, i, opens))
  {
    forall x, y ensures Entry(WithOpens(fs, i, opens), x, y) == Entry(fs, x, y) {
      OpensEntry(fs, i, opens, x, y);
    }
    SameEntriesKeepTree(fs, WithOpens(fs, i, opens));
  }

  /** An i-node without a name holds no entries, so its going removes none. */
  lemma UnnamedIsEmpty(fs: Inodes, i: Ino)
    requires Counted(fs) && Dots(fs) && DeadAreEmpty(fs) && i in fs && fs[i].nlink == 0
    ensures forall n :: Entry(fs, i, n).None?
  {
    CountIsPositive(fs, i);
    forall n ensures Entry(fs, i, n).None? {
      assert Entry(fs, i, n).Some? ==> Entry(fs, i, Dot) == Some(i);
    }
  }

  ghost function Closed(fs: Inodes, i: Ino): Inodes
    requires i in fs && fs[i].opens > 0
  {
    Reclaim(WithOpens(fs, i, fs[i].opens - 1), i)
  }

  /** Closing changes no entry, even where it destroys the file. */
  lemma CloseEntries(fs: Inodes, i: Ino)
    requires Counted(fs) && Dots(fs) && DeadAreEmpty(fs) && i in fs && fs[i].opens > 0
    ensures Counted(Closed(fs, i))
    ensures forall x, y :: Entry(Closed(fs, i), x, y) == Entry(fs, x, y)
  {
    var fs1 := WithOpens(fs, i, fs[i].opens - 1);
    OpensKeepCounted(fs, i, fs[i].opens - 1);
    forall x, y ensures Entry(fs1, x, y) == Entry(fs, x, y) {
      OpensEntry(fs, i, fs[i].opens - 1, x, y);
    }
    if fs1[i].nlink == 0 {
      UnnamedIsEmpty(fs, i);
      ReclaimKeepsCounted(fs1, i);
    }
  }

  lemma CloseKeepsTree(fs: Inodes, i: Ino)
    requires Counted(fs) && Tree(fs) && i in fs && fs[i].opens > 0
    ensures Counted(Closed(fs, i)) && Tree(Closed(fs, i))
  {
    CloseEntries(fs, i);
    assert forall x, y :: Entry(fs, x, y).Some? ==> Entry(Closed(fs, i), x, y).Some?;
    SameEntriesKeepTree(fs, Closed(fs, i));
  }

  lemma CreateKeepsTree(fs: Inodes, d: Ino, n: Name, i: Ino)
    requires Counted(fs) && Tree(fs) && NewStatus(fs, d, n) == Ok && i !in fs
    ensures var fs' := Add(fs[i := File(0, 0)], d, n, i); Counted(fs') && Tree(fs')
  {
    FreshKeeps(fs, i, File(0, 0));
    AddFileKeepsTree(fs[i := File(0, 0)], d, n, i);
  }

  lemma RemoveKeepsTree(fs: Inodes, d: Ino, n: Name)
    requires Counted(fs) && Tree(fs) && (UnlinkStatus(fs, d, n) == Ok || RmdirStatus(fs, d, n) == Ok)
    ensures Counted(Erase(fs, d, n)) && Tree(Erase(fs, d, n))
  {
    RemoveErasable(fs, d, n);
    EraseKeepsTree(fs, d, n);
  }

  lemma StepKeepsTree(fs: Inodes, call: Call)
    requires Counted(fs) && Tree(fs)
    ensures Counted(Step(fs, call)) && Tree(Step(fs, call))
  {
    if StatusOf(fs, call) == Ok {
      match call
      case Create(d, n, i) => if i !in fs { CreateKeepsTree(fs, d, n, i); }
      case Mkdir(d, n, i) => if i !in fs { NewDirKeepsTree(fs, d, n, i); }
      case Link(od, on, d, n) => AddFileKeepsTree(fs, d, n, Entry(fs, od, on).value);
      case Unlink(d, n) => RemoveKeepsTree(fs, d, n);
      case Rmdir(d, n) => RemoveKeepsTree(fs, d, n);
      case Rename(od, on, d, n) => RenameKeepsTree(fs, od, on, d, n);
      case Open(d, n) =>
        OpensKeepCounted(fs, Entry(fs, d, n).value, fs[Entry(fs, d, n).value].opens + 1);
        OpensKeepTree(fs, Entry(fs, d, n).value, fs[Entry(fs, d, n).value].opens + 1);
      case Close(i) => CloseKeepsTree(fs, i);
    }
  }

  lemma RemoveErasable(fs: Inodes, d: Ino, n: Name)
    requires Tree(fs) && (UnlinkStatus(fs, d, n) == Ok || RmdirStatus(fs, d, n) == Ok)
    ensures Erasable(fs, d, n)
  {}

  // ----- Lifetime -----

  /** No open description is opened or closed, and no open i-node goes. */
  ghost predicate KeepsOpens(fs: Inodes, fs': Inodes) {
    forall j :: j in fs ==> (j in fs' ==> fs'[j].opens == fs[j].opens) && (fs[j].opens > 0 ==> j in fs')
  }

  lemma EraseOpens(fs: Inodes, d: Ino, n: Name)
    requires Entry(fs, d, n).Some?
    ensures KeepsOpens(fs, Erase(fs, d, n)) && Erase(fs, d, n).Keys <= fs.Keys
  {
    var i := Entry(fs, d, n).value;
    var fs1 := Drop(fs, d, n);
    forall j | j in fs
      ensures j in fs1 && fs1[j].opens == fs[j].opens
      ensures j in Drop(Drop(fs1, i, Dot), i, DotDot) && Drop(Drop(fs1, i, Dot), i, DotDot)[j].opens == fs[j].opens
    {
      DropEntry(fs, d, n, j, n);
      DropEntry(fs1, i, Dot, j, n);
      DropEntry(Drop(fs1, i, Dot), i, DotDot, j, n);
    }
    DropEntry(fs, d, n, d, n);
    DropEntry(fs1, i, Dot, d, n);
    DropEntry(Drop(fs1, i, Dot), i, DotDot, d, n);
  }

  lemma MoveOpens(fs: Inodes, od: Ino, on: Name, d: Ino, n: Name, i: Ino)
    requires on.Named? && n.Named? && Entry(fs, od, on) == Some(i) && i in fs
    requires Entry(fs, d, n).None? && IsDir(fs, d)
    ensures KeepsOpens(fs, Move(fs, od, on, d, n, i)) && Move(fs, od, on, d, n, i).Keys == fs.Keys
  {
    var fs1 := Drop(fs, od, on);
    var fs2 := Add(fs1, d, n, i);
    DropEntry(fs, od, on, d, n);
    DropEntry(fs, od, on, i, n);
    AddEntry(fs1, d, n, i, d, n);
    AddEntry(fs1, d, n, i, i, n);
    DropEntry(fs2, i, DotDot, d, n);
    DropEntry(fs2, i, DotDot, i, n);
    forall j | j in fs ensures Move(fs, od, on, d, n, i)[j].opens == fs[j].opens {
      DropEntry(fs, od, on, j, n);
      AddEntry(fs1, d, n, i, j, n);
      DropEntry(fs2, i, DotDot, j, n);
      if IsDir(fs, i) { AddEntry(Drop(fs2, i, DotDot), i, DotDot, d, j, n); }
    }
    if IsDir(fs, i) { AddEntry(Drop(fs2, i, DotDot), i, DotDot, d, d, n); }
  }

  /** Erase leaves no i-node behind that nothing holds. */
  lemma EraseHeld(fs: Inodes, d: Ino, n: Name)
    requires Valid(fs) && Erasable(fs, d, n)
    ensures Held(Erase(fs, d, n))
  {
    var i, fs' := Entry(fs, d, n).value, Erase(fs, d, n);
    EraseEntries(fs, d, n);
    EraseOpens(fs, d, n);
    EraseKeepsUse(fs, d, n, d);
    forall j | j in fs' ensures HasName(fs', j) || fs'[j].opens > 0 {
      if j == i {
        CountIsPositive(fs', i);
      } else if fs[j].opens == 0 {
        var x, y :| Entry(fs, x, y) == Some(j);
        EraseKeepsName(fs, d, n, x, y);
      }
    }
  }

  /** Whatever else was named by an entry still has a name after Erase. */
  lemma EraseKeepsName(fs: Inodes, d: Ino, n: Name, x: Ino, y: Name)
    requires Counted(fs) && Tree(fs) && Erasable(fs, d, n)
    requires Entry(fs, x, y).Some? && Entry(fs, x, y) != Entry(fs, d, n)
    ensures HasName(Erase(fs, d, n), Entry(fs, x, y).value)
  {
    var i, fs' := Entry(fs, d, n).value, Erase(fs, d, n);
    EraseEntries(fs, d, n);
    if Erased(fs, d, n, x, y) {
      assert Names(fs, d, n, i) && x == i && y == DotDot;
      EraseKeepsUse(fs, d, n, d);
      NotItsOwnEntry(fs, d, n);
      assert Entry(fs', d, Dot) == Some(d);
    } else {
      assert Entry(fs', x, y) == Entry(fs, x, y);
    }
  }

  lemma MoveNames(fs: Inodes, od: Ino, on: Name, d: Ino, n: Name, i: Ino, j: Ino)
    requires Movable(fs, od, on, d, n, i)
    ensures HasName(Move(fs, od, on, d, n, i), j) <==> HasName(fs, j)
  {
    var fs' := Move(fs, od, on, d, n, i);
    MoveIsMoved(fs, od, on, d, n, i, Move(fs, od, on, d, n, i));
    assert IsDir(fs, i) ==> Names(fs, od, on, i);
    if HasName(fs, j) {
      var x, y :| Entry(fs, x, y) == Some(j);
      MovedUse(fs, fs', od, on, d, n, i, od);
      if x == od && y == on {
        assert Entry(fs', d, n) == Some(j);
      } else if x == i && y == DotDot && IsDir(fs, i) {
        assert j == od && Entry(fs', od, Dot) == Some(od);
      } else {
        assert Entry(fs', x, y) == Some(j);
      }
    }
    if HasName(fs', j) {
      var x, y :| Entry(fs', x, y) == Some(j);
      if x == d && y == n {
        assert Entry(fs, od, on) == Some(j);
      } else if x == i && y == DotDot && IsDir(fs, i) {
        assert Entry(fs, d, Dot) == Some(j);
      } else {
        assert Entry(fs, x, y) == Some(j);
      }
    }
  }

  lemma RenameHeld(fs: Inodes, od: Ino, on: Name, d: Ino, n: Name)
    requires Valid(fs) && Renames(fs, od, on, d, n)
    ensures var fs' := Move(Cleared(fs, d, n), od, on, d, n, Entry(fs, od, on).value);
            Held(fs') && KeepsOpens(fs, fs') && forall j :: HasName(fs', j) ==> HasName(fs, j)
  {
    var i, fs1 := Entry(fs, od, on).value, Cleared(fs, d, n);
    var fs' := Move(fs1, od, on, d, n, i);
    RenameMovable(fs, od, on, d, n);
    ClearedHeld(fs, od, on, d, n);
    MoveOpens(fs1, od, on, d, n, i);
    forall j ensures HasName(fs', j) <==> HasName(fs1, j) {
      MoveNames(fs1, od, on, d, n, i, j);
    }
  }

  lemma ClearedHeld(fs: Inodes, od: Ino, on: Name, d: Ino, n: Name)
    requires Valid(fs) && Renames(fs, od, on, d, n)
    ensures var fs' := Cleared(fs, d, n);
            Held(fs') && KeepsOpens(fs, fs') && fs'.Keys <= fs.Keys && forall j :: HasName(fs', j) ==> HasName(fs, j)
  {
    if Entry(fs, d, n).Some? {
      RenameErasable(fs, od, on, d, n);
      EraseHeld(fs, d, n);
      EraseOpens(fs, d, n);
      EraseNames(fs, d, n);
    }
  }

  lemma EraseNames(fs: Inodes, d: Ino, n: Name)
    requires Counted(fs) && Tree(fs) && Erasable(fs, d, n)
    ensures forall j :: HasName(Erase(fs, d, n), j) ==> HasName(fs, j)
  {
    EraseEntries(fs, d, n);
    forall j | HasName(Erase(fs, d, n), j) ensures HasName(fs, j) {
      var x, y :| Entry(Erase(fs, d, n), x, y) == Some(j);
      assert Entry(fs, x, y) == Some(j);
    }
  }

  /** A step that adds names only: nothing goes, nothing is opened. */
  lemma LinkHeld(fs: Inodes, d: Ino, n: Name, i: Ino)
    requires Held(fs) && IsDir(fs, d) && i in fs && HasName(fs, i) && Entry(fs, d, n).None?
    ensures var fs' := Add(fs, d, n, i);
            Held(fs') && KeepsOpens(fs, fs') && forall j :: HasName(fs', j) ==> HasName(fs, j)
  {
    var fs' := Add(fs, d, n, i);
    forall x, y
      ensures Entry(fs', x, y) == if x == d && y == n then Some(i) else Entry(fs, x, y)
      ensures x in fs ==> x in fs' && fs'[x].opens == fs[x].opens
      ensures fs'.Keys == fs.Keys
    {
      AddEntry(fs, d, n, i, x, y);
    }
    AddEntry(fs, d, n, i, d, n);
    forall j ensures HasName(fs', j) <==> HasName(fs, j) {
      if HasName(fs, j) {
        var x, y :| Entry(fs, x, y) == Some(j);
        assert Entry(fs', x, y) == Some(j);
      }
    }
  }

  lemma CreateHeld(fs: Inodes, d: Ino, n: Name, i: Ino)
    requires Held(fs) && NoDangling(fs) && IsDir(fs, d) && i !in fs && Entry(fs, d, n).None?
    ensures var fs' := Add(fs[i := File(0, 0)], d, n, i);
            Held(fs') && KeepsOpens(fs, fs') && forall j :: j in fs && HasName(fs', j) ==> HasName(fs, j)
  {
    var fs1 := fs[i := File(0, 0)];
    var fs' := Add(fs1, d, n, i);
    forall x, y
      ensures Entry(fs', x, y) == if x == d && y == n then Some(i) else Entry(fs, x, y)
      ensures x in fs ==> x in fs' && fs'[x].opens == fs[x].opens
      ensures fs'.Keys == fs.Keys + {i}
    {
      AddEntry(fs1, d, n, i, x, y);
    }
    AddEntry(fs1, d, n, i, d, n);
    forall j | j in fs' ensures HasName(fs', j) || fs'[j].opens > 0 {
      if j == i {
        assert Entry(fs', d, n) == Some(i);
      } else if fs[j].opens == 0 {
        var x, y :| Entry(fs, x, y) == Some(j);
        assert Entry(fs', x, y) == Some(j);
      }
    }
  }

  lemma NewDirKeys(fs: Inodes, d: Ino, n: Name, i: Ino)
    requires IsDir(fs, d) && i !in fs
    ensures NewDir(fs, d, n, i).Keys == fs.Keys + {i} && KeepsOpens(fs, NewDir(fs, d, n, i))
  {}

  lemma MkdirHeld(fs: Inodes, d: Ino, n: Name, i: Ino)
    requires Held(fs) && NoDangling(fs) && Dots(fs) && InUse(fs, d) && i !in fs && Entry(fs, d, n).None?
    ensures var fs' := NewDir(fs, d, n, i);
            Held(fs') && KeepsOpens(fs, fs') && forall j :: j in fs && HasName(fs', j) ==> HasName(fs, j)
  {
    var fs' := NewDir(fs, d, n, i);
    NewDirKeys(fs, d, n, i);
    forall x, y ensures Entry(fs', x, y) == EntryAfterMkdir(fs, d, n, i, x, y) {
      NewDirEntry(fs, d, n, i, x, y);
    }
    forall j | j in fs' ensures HasName(fs', j) || fs'[j].opens > 0 {
      if j == i {
        assert Entry(fs', i, Dot) == Some(i);
      } else if fs[j].opens == 0 {
        var x, y :| Entry(fs, x, y) == Some(j);
        assert Entry(fs', x, y) == Some(j);
      }
    }
    forall j | j in fs && HasName(fs', j) ensures HasName(fs, j) {
      var x, y :| Entry(fs', x, y) == Some(j);
      assert Entry(fs, x, y) == Some(j) || (j == d && Entry(fs, d, Dot) == Some(d));
    }
  }

  /** Open descriptions of `j` after the call. */
  ghost function OpensAfter(fs: Inodes, call: Call, j: Ino): nat
    requires j in fs
  {
    if StatusOf(fs, call) != Ok then fs[j].opens
    else if call.Open? && Entry(fs, call.d, call.n) == Some(j) then fs[j].opens + 1
    else if call == Close(j) then fs[j].opens - 1
    else fs[j].opens
  }

  ghost predicate OpensFollow(fs: Inodes, call: Call, fs': Inodes) {
    forall j :: j in fs ==>
                  && (j in fs' ==> fs'[j].opens == OpensAfter(fs, call, j))
                  && (OpensAfter(fs, call, j) > 0 ==> j in fs')
  }

  ghost predicate NoNewNames(fs: Inodes, fs': Inodes) {
    forall j :: j in fs && HasName(fs', j) ==> HasName(fs, j)
  }

  lemma OpenHeld(fs: Inodes, i: Ino)
    requires Held(fs) && i in fs
    ensures var fs' := WithOpens(fs, i, fs[i].opens + 1); Held(fs') && NoNewNames(fs, fs')
  {
    SameNames(fs, WithOpens(fs, i, fs[i].opens + 1));
  }

  lemma SameNames(fs: Inodes, fs': Inodes)
    requires forall x, y :: Entry(fs', x, y) == Entry(fs, x, y)
    ensures forall j :: HasName(fs', j) <==> HasName(fs, j)
  {}

  lemma CloseHeld(fs: Inodes, i: Ino)
    requires Counted(fs) && Dots(fs) && DeadAreEmpty(fs) && Held(fs) && i in fs && fs[i].opens > 0
    ensures Held(Closed(fs, i)) && NoNewNames(fs, Closed(fs, i))
  {
    var fs' := Closed(fs, i);
    CloseEntries(fs, i);
    SameNames(fs, fs');
    forall j | j in fs' ensures HasName(fs', j) || fs'[j].opens > 0 {
      if j == i { CountIsPositive(fs', i); }
    }
  }

  lemma RemoveHeld(fs: Inodes, d: Ino, n: Name)
    requires Valid(fs) && (UnlinkStatus(fs, d, n) == Ok || RmdirStatus(fs, d, n) == Ok)
    ensures var fs' := Erase(fs, d, n); Held(fs') && KeepsOpens(fs, fs') && NoNewNames(fs, fs')
  {
    RemoveErasable(fs, d, n);
    EraseHeld(fs, d, n);
    EraseOpens(fs, d, n);
    EraseNames(fs, d, n);
  }

  lemma StepHeld(fs: Inodes, call: Call)
    requires Valid(fs)
    ensures Held(Step(fs, call)) && NoNewNames(fs, Step(fs, call))
  {
    if StatusOf(fs, call) == Ok {
      match call
      case Create(d, n, i) => if i !in fs { CreateHeld(fs, d, n, i); }
      case Mkdir(d, n, i) => if i !in fs { MkdirHeld(fs, d, n, i); }
      case Link(od, on, d, n) => LinkHeld(fs, d, n, Entry(fs, od, on).value);
      case Unlink(d, n) => RemoveHeld(fs, d, n);
      case Rmdir(d, n) => RemoveHeld(fs, d, n);
      case Rename(od, on, d, n) => if !SameFile(fs, od, on, d, n) { RenameHeld(fs, od, on, d, n); }
      case Open(d, n) => OpenHeld(fs, Entry(fs, d, n).value);
      case Close(i) => CloseHeld(fs, i);
    }
  }

  lemma RenameOpens(fs: Inodes, od: Ino, on: Name, d: Ino, n: Name)
    requires Valid(fs) && Renames(fs, od, on, d, n)
    ensures KeepsOpens(fs, Move(Cleared(fs, d, n), od, on, d, n, Entry(fs, od, on).value))
  {
    RenameHeld(fs, od, on, d, n);
  }

  lemma LinkOpens(fs: Inodes, d: Ino, n: Name, i: Ino)
    requires IsDir(fs, d) && i in fs
    ensures KeepsOpens(fs, Add(fs, d, n, i))
  {}

  lemma StepKeepsOpens(fs: Inodes, call: Call)
    requires Valid(fs) && StatusOf(fs, call) == Ok && !call.Open? && !call.Close?
    ensures KeepsOpens(fs, Step(fs, call))
  {
    match call
    case Create(d, n, i) => if i !in fs { LinkOpens(fs[i := File(0, 0)], d, n, i); }
    case Mkdir(d, n, i) => if i !in fs { NewDirKeys(fs, d, n, i); }
    case Link(od, on, d, n) => LinkOpens(fs, d, n, Entry(fs, od, on).value);
    case Unlink(d, n) => EraseOpens(fs, d, n);
    case Rmdir(d, n) => EraseOpens(fs, d, n);
    case Rename(od, on, d, n) => if !SameFile(fs, od, on, d, n) { RenameOpens(fs, od, on, d, n); }
  }

  lemma StepOpens(fs: Inodes, call: Call)
    requires Valid(fs)
    ensures OpensFollow(fs, call, Step(fs, call))
  {
    if StatusOf(fs, call) == Ok && !call.Open? && !call.Close? {
      StepKeepsOpens(fs, call);
    }
  }

  /** In every run the directories form a tree, every link count is exact and
      whatever exists has a name or is open. */
  lemma {:induction false} ValidForever(fs: Inodes, calls: seq<Call>)
    requires Valid(fs)
    ensures Valid(Run(fs, calls))
  {
    if calls != [] {
      var before, call := Run(fs, calls[..|calls| - 1]), calls[|calls| - 1];
      ValidForever(fs, calls[..|calls| - 1]);
      StepKeepsTree(before, call);
      StepHeld(before, call);
    }
  }

  /** An i-node is reclaimed by exactly that call which leaves it with neither
      a name nor an open description. */
  lemma LifetimeIsExact(fs: Inodes, call: Call, i: Ino)
    requires Valid(fs) && i in fs
    ensures i in Step(fs, call) <==> HasName(Step(fs, call), i) || OpensAfter(fs, call, i) > 0
  {
    StepKeepsTree(fs, call);
    StepHeld(fs, call);
    StepOpens(fs, call);
  }

  /** A link count that has fallen to 0 never rises again. */
  lemma NoRevival(fs: Inodes, call: Call, i: Ino)
    requires Valid(fs) && i in fs && fs[i].nlink == 0
    ensures i in Step(fs, call) ==> Step(fs, call)[i].nlink == 0
  {
    StepKeepsTree(fs, call);
    StepHeld(fs, call);
    CountIsPositive(fs, i);
    if i in Step(fs, call) { CountIsPositive(Step(fs, call), i); }
  }
}
