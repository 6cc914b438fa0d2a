/** What the calls of module `Directories` do for their callers: when they
    succeed, what every directory holds afterwards and how link counts move
    (dirs_links/README.org, sections 18.1 to 18.6). */
module DirectoryCalls {
  import opened Basics
  import opened Directories
  import opened DirectoryTree

  // ----- The entries after each call -----

  /** Every entry of every directory after a call that succeeds, told without
      link counts, open counts and the order in which things are done. */
  function EntryAfter(fs: Inodes, call: Call, x: Ino, y: Name): Option<Ino> {
    match call
    case Create(d, n, i) => if i !in fs && x == d && y == n then Some(i) else Entry(fs, x, y)
    case Mkdir(d, n, i) => if i in fs then Entry(fs, x, y) else EntryAfterMkdir(fs, d, n, i, x, y)
    case Link(od, on, d, n) => if x == d && y == n then Entry(fs, od, on) else Entry(fs, x, y)
    case Unlink(d, n) => if x == d && y == n then None else Entry(fs, x, y)
    case Rmdir(d, n) => if (x == d && y == n) || Entry(fs, d, n) == Some(x) then None else Entry(fs, x, y)
    case Rename(od, on, d, n) =>
      if SameFile(fs, od, on, d, n) || Entry(fs, od, on).None? then Entry(fs, x, y)
      else EntryAfterRename(fs, od, on, d, n, Entry(fs, od, on).value, x, y)
    case Open(_, _) => Entry(fs, x, y)
    case Close(_) => Entry(fs, x, y)
  }

  lemma CreateEntry(fs: Inodes, d: Ino, n: Name, i: Ino, x: Ino, y: Name)
    requires Counted(fs) && Tree(fs) && NewStatus(fs, d, n) == Ok && i !in fs
    ensures Entry(Add(fs[i := File(0, 0)], d, n, i), x, y) == if x == d && y == n then Some(i) else Entry(fs, x, y)
  {
    AddEntry(fs[i := File(0, 0)], d, n, i, x, y);
  }

  lemma EraseEntry(fs: Inodes, d: Ino, n: Name, x: Ino, y: Name)
    requires Counted(fs) && Tree(fs) && (UnlinkStatus(fs, d, n) == Ok || RmdirStatus(fs, d, n) == Ok)
    ensures Entry(Erase(fs, d, n), x, y) ==
              if (x == d && y == n) || (Entry(fs, d, n) == Some(x) && IsDir(fs, x)) then None else Entry(fs, x, y)
  {
    RemoveErasable(fs, d, n);
    EraseEntries(fs, d, n);
    if Entry(fs, d, n) == Some(x) && IsDir(fs, x) && y.Named? && (x != d || y != n) {
      assert y !in fs[x].entries;
    }
  }

  lemma CloseEntry(fs: Inodes, i: Ino, x: Ino, y: Name)
    requires Counted(fs) && Tree(fs) && i in fs && fs[i].opens > 0
    ensures Entry(Closed(fs, i), x, y) == Entry(fs, x, y)
  {
    CloseEntries(fs, i);
  }

  /** After a call that succeeds the directories hold exactly that; one that
      fails changes nothing. */
  lemma CallEntries(fs: Inodes, call: Call, x: Ino, y: Name)
    requires Counted(fs) && Tree(fs)
    ensures Entry(Step(fs, call), x, y) == if StatusOf(fs, call) == Ok then EntryAfter(fs, call, x, y) else Entry(fs, x, y)
    ensures StatusOf(fs, call) != Ok ==> Step(fs, call) == fs
  {
    if StatusOf(fs, call) == Ok {
      match call
      case Create(d, n, i) => if i !in fs { CreateEntry(fs, d, n, i, x, y); }
      case Mkdir(d, n, i) => if i !in fs { NewDirEntry(fs, d, n, i, x, y); }
      case Link(od, on, d, n) => AddEntry(fs, d, n, Entry(fs, od, on).value, x, y);
      case Unlink(d, n) => EraseEntry(fs, d, n, x, y);
      case Rmdir(d, n) => EraseEntry(fs, d, n, x, y);
      case Rename(od, on, d, n) => if !SameFile(fs, od, on, d, n) { RenameEntry(fs, od, on, d, n, x, y); }
      case Open(d, n) => OpensEntry(fs, Entry(fs, d, n).value, fs[Entry(fs, d, n).value].opens + 1, x, y);
      case Close(i) => CloseEntry(fs, i, x, y);
    }
  }

  /** A name stays, and names the same i-node, over every run whose calls leave it
      alone, whatever they do elsewhere. */
  lemma {:induction false} NameStays(fs: Inodes, calls: seq<Call>, x: Ino, y: Name)
    requires Valid(fs) && Entry(fs, x, y).Some?
    requires forall k :: 0 <= k < |calls| ==> Untouched(Run(fs, calls[..k]), calls[k], x, y)
    ensures Entry(Run(fs, calls), x, y) == Entry(fs, x, y)
  {
    if calls != [] {
      var before, call := calls[..|calls| - 1], calls[|calls| - 1];
      forall k | 0 <= k < |before| ensures Untouched(Run(fs, before[..k]), before[k], x, y) {
        assert before[..k] == calls[..k];
      }
      NameStays(fs, before, x, y);
      ValidForever(fs, before);
      assert Untouched(Run(fs, calls[..|calls| - 1]), call, x, y);
      CallEntries(Run(fs, before), call, x, y);
    }
  }

  /** The call is not given name `y` in directory `x`, does not replace or remove
      that directory, and does not move it if `y` is "..". */
  predicate Untouched(fs: Inodes, call: Call, x: Ino, y: Name) {
    match call
    case Create(d, n, _) => !(x == d && y == n)
    case Mkdir(d, n, _) => !(x == d && y == n)
    case Link(_, _, d, n) => !(x == d && y == n)
    case Unlink(d, n) => !(x == d && y == n)
    case Rmdir(d, n) => !(x == d && y == n) && Entry(fs, d, n) != Some(x)
    case Rename(od, on, d, n) =>
      && !(x == d && y == n) && !(x == od && y == on) && Entry(fs, d, n) != Some(x)
      && (y == DotDot ==> Entry(fs, od, on) != Some(x))
    case Open(_, _) => true
    case Close(_) => true
  }

  // ----- When the calls succeed -----

  ghost predicate Exists(fs: Inodes, d: Ino, n: Name) { InUse(fs, d) && Entry(fs, d, n).Some? }

  ghost predicate IsFree(fs: Inodes, d: Ino, n: Name) { InUse(fs, d) && Entry(fs, d, n).None? }

  /** Name `n` in `d` is that of a directory, or of something else. */
  ghost predicate NamesDir(fs: Inodes, d: Ino, n: Name) { exists i :: Entry(fs, d, n) == Some(i) && IsDir(fs, i) }

  ghost predicate NamesFile(fs: Inodes, d: Ino, n: Name) { exists i :: Entry(fs, d, n) == Some(i) && !IsDir(fs, i) }

  ghost predicate NamesEmptyDir(fs: Inodes, d: Ino, n: Name) {
    exists i :: Entry(fs, d, n) == Some(i) && IsDir(fs, i) && forall m: string :: Entry(fs, i, Named(m)).None?
  }

  /** What is at the old name would come to lie below itself. */
  ghost predicate BelowItself(fs: Inodes, od: Ino, on: Name, d: Ino) {
    exists i, k: nat :: Entry(fs, od, on) == Some(i) && IsDir(fs, i) && Walk(fs, d, k) == i
  }

  ghost predicate CanSucceed(fs: Inodes, call: Call) {
    match call
    case Create(d, n, _) => IsFree(fs, d, n)
    case Mkdir(d, n, _) => IsFree(fs, d, n)
    case Link(od, on, d, n) => Exists(fs, od, on) && NamesFile(fs, od, on) && IsFree(fs, d, n)
    case Unlink(d, n) => Exists(fs, d, n) && NamesFile(fs, d, n)
    case Rmdir(d, n) => Exists(fs, d, n) && n.Named? && NamesEmptyDir(fs, d, n)
    case Rename(od, on, d, n) =>
      && Exists(fs, od, on) && InUse(fs, d) && on.Named? && n.Named?
      && (|| Entry(fs, od, on) == Entry(fs, d, n)
          || (NamesFile(fs, od, on) && (Entry(fs, d, n).None? || NamesFile(fs, d, n)))
          || (NamesDir(fs, od, on) && !BelowItself(fs, od, on, d)
              && (Entry(fs, d, n).None? || NamesEmptyDir(fs, d, n))))
    case Open(d, n) => Exists(fs, d, n)
    case Close(i) => i in fs && fs[i].opens > 0
  }

  lemma EmptyIs(fs: Inodes, i: Ino)
    requires IsDir(fs, i)
    ensures Empty(fs, i) <==> forall m: string :: Entry(fs, i, Named(m)).None?
  {
    if !Empty(fs, i) {
      var n :| n in fs[i].entries && n.Named?;
      assert Entry(fs, i, Named(n.text)).Some?;
    }
  }

  /** Each call succeeds in exactly those cases. */
  lemma SucceedsIff(fs: Inodes, call: Call)
    requires Counted(fs)
    ensures StatusOf(fs, call) == Ok <==> CanSucceed(fs, call)
  {
    if call.Rmdir? && NamesDir(fs, call.d, call.n) {
      EmptyIs(fs, Entry(fs, call.d, call.n).value);
    } else if call.Rename? {
      RenameSucceedsIff(fs, call.od, call.on, call.d, call.n);
    }
  }

  lemma RenameSucceedsIff(fs: Inodes, od: Ino, on: Name, d: Ino, n: Name)
    requires Counted(fs)
    ensures RenameStatus(fs, od, on, d, n) == Ok <==> CanSucceed(fs, Rename(od, on, d, n))
  {
    if NamesDir(fs, d, n) {
      EmptyIs(fs, Entry(fs, d, n).value);
    }
    if Entry(fs, od, on).Some? {
      var i := Entry(fs, od, on).value;
      assert IsDir(fs, i) ==> (BelowItself(fs, od, on, d) <==> InSubtree(fs, i, d));
    }
  }

  /** The error tells which rule was broken. */
  lemma ErrorTells(fs: Inodes, od: Ino, on: Name, d: Ino, n: Name)
    requires Counted(fs) && InUse(fs, od) && InUse(fs, d)
    ensures StatusOf(fs, Unlink(d, n)) == ENOENT <==> Entry(fs, d, n).None?
    ensures StatusOf(fs, Unlink(d, n)) == EISDIR <==> NamesDir(fs, d, n)
    ensures StatusOf(fs, Link(od, on, d, n)) == ENOENT <==> Entry(fs, od, on).None?
    ensures StatusOf(fs, Link(od, on, d, n)) == EPERM <==> NamesDir(fs, od, on)
    ensures StatusOf(fs, Link(od, on, d, n)) == EEXIST <==> NamesFile(fs, od, on) && Entry(fs, d, n).Some?
    ensures n.Named? ==> (StatusOf(fs, Rmdir(d, n)) == ENOTDIR <==> NamesFile(fs, d, n))
    ensures n.Named? ==> (StatusOf(fs, Rmdir(d, n)) == ENOTEMPTY <==> NamesDir(fs, d, n) && !NamesEmptyDir(fs, d, n))
  {
    if NamesDir(fs, d, n) {
      EmptyIs(fs, Entry(fs, d, n).value);
    }
  }

  lemma RenameErrorTells(fs: Inodes, od: Ino, on: Name, d: Ino, n: Name)
    requires Counted(fs) && InUse(fs, od) && InUse(fs, d) && on.Named? && n.Named? && Entry(fs, od, on) != Entry(fs, d, n)
    ensures var status := StatusOf(fs, Rename(od, on, d, n));
            && (status == ENOENT <==> Entry(fs, od, on).None?)
            && (status == EINVAL <==> BelowItself(fs, od, on, d))
            && (status == EISDIR <==> NamesFile(fs, od, on) && NamesDir(fs, d, n))
            && (status == ENOTDIR <==> NamesDir(fs, od, on) && !BelowItself(fs, od, on, d) && NamesFile(fs, d, n))
            && (status == ENOTEMPTY <==>
                  NamesDir(fs, od, on) && !BelowItself(fs, od, on, d) && NamesDir(fs, d, n) && !NamesEmptyDir(fs, d, n))
  {
    if NamesDir(fs, d, n) {
      EmptyIs(fs, Entry(fs, d, n).value);
    }
    if Entry(fs, od, on).Some? {
      var i := Entry(fs, od, on).value;
      assert IsDir(fs, i) ==> (BelowItself(fs, od, on, d) <==> InSubtree(fs, i, d));
    }
  }

  // ----- I-nodes and their counts -----

  /** What a call makes is new and of the right kind, and nothing else is. */
  lemma NewNodes(fs: Inodes, call: Call, x: Ino)
    requires Valid(fs) && StatusOf(fs, call) == Ok && x !in fs
    ensures x in Step(fs, call) <==> (call.Create? || call.Mkdir?) && call.i == x
    ensures x in Step(fs, call) ==> Step(fs, call)[x].Dir? == call.Mkdir? && Step(fs, call)[x].opens == 0
  {
    match call
    case Create(d, n, i) => if i !in fs { AddEntry(fs[i := File(0, 0)], d, n, i, i, n); }
    case Mkdir(d, n, i) => if i !in fs { MkdirNode(fs, d, n, i); }
    case Link(od, on, d, n) => AddEntry(fs, d, n, Entry(fs, od, on).value, d, n);
    case Unlink(d, n) => EraseOpens(fs, d, n);
    case Rmdir(d, n) => EraseOpens(fs, d, n);
    case Rename(od, on, d, n) => if !SameFile(fs, od, on, d, n) { RenameNodes(fs, od, on, d, n); }
    case Open(_, _) =>
    case Close(_) =>
  }

  lemma MkdirNode(fs: Inodes, d: Ino, n: Name, i: Ino)
    requires IsDir(fs, d) && i !in fs
    ensures NewDir(fs, d, n, i).Keys == fs.Keys + {i}
    ensures NewDir(fs, d, n, i)[i].Dir? && NewDir(fs, d, n, i)[i].opens == 0
  {
    NewDirKeys(fs, d, n, i);
    NewDirEntry(fs, d, n, i, i, Dot);
  }

  lemma RenameNodes(fs: Inodes, od: Ino, on: Name, d: Ino, n: Name)
    requires Valid(fs) && Renames(fs, od, on, d, n)
    ensures Move(Cleared(fs, d, n), od, on, d, n, Entry(fs, od, on).value).Keys <= fs.Keys
  {
    ClearedHeld(fs, od, on, d, n);
    RenameMovable(fs, od, on, d, n);
    MovableNodes(Cleared(fs, d, n), od, on, d, n, Entry(fs, od, on).value);
  }

  lemma MovableNodes(fs: Inodes, od: Ino, on: Name, d: Ino, n: Name, i: Ino)
    requires Movable(fs, od, on, d, n, i)
    ensures Move(fs, od, on, d, n, i).Keys == fs.Keys
  {
    MoveOpens(fs, od, on, d, n, i);
  }

  /** link() raises one count. */
  lemma LinkRaises(fs: Inodes, od: Ino, on: Name, d: Ino, n: Name)
    requires Counted(fs) && Exists(fs, od, on) && NamesFile(fs, od, on) && IsFree(fs, d, n)
    ensures var i, fs' := Entry(fs, od, on).value, Step(fs, Link(od, on, d, n));
            i in fs && i in fs' && fs'[i].nlink == fs[i].nlink + 1
  {}

  lemma EraseLowers(fs: Inodes, d: Ino, n: Name, i: Ino)
    requires Entry(fs, d, n) == Some(i) && i in fs && !IsDir(fs, i) && fs[i].nlink > 0
    ensures var fs' := Erase(fs, d, n);
            && (i in fs' <==> fs[i].nlink > 1 || fs[i].opens > 0)
            && (i in fs' ==> fs'[i].nlink == fs[i].nlink - 1)
  {}

  /** unlink() lowers it, and the file goes with its last name unless it is open. */
  lemma UnlinkLowers(fs: Inodes, d: Ino, n: Name)
    requires Counted(fs) && Exists(fs, d, n) && NamesFile(fs, d, n)
    ensures var i, fs' := Entry(fs, d, n).value, Step(fs, Unlink(d, n));
            && i in fs
            && (i in fs' <==> fs[i].nlink > 1 || fs[i].opens > 0)
            && (i in fs' ==> fs'[i].nlink == fs[i].nlink - 1)
  {
    var i := Entry(fs, d, n).value;
    assert HasName(fs, i);
    CountIsPositive(fs, i);
    EraseLowers(fs, d, n, i);
  }
}
