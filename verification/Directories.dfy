/** Directory entries, link counts and the calls that change them
    (dirs_links/README.org, chapter 18).

    A directory is a table from names to i-nodes, with entries for "." and "..".
    Every call is built from two primitives, adding and removing one entry,
    which keep the link count of the i-node concerned. */
module Directories {
  import opened Basics

  type Ino = int

  const ROOT: Ino := 2

  datatype Name = Dot | DotDot | Named(text: string)

  /** `File` stands for everything that is not a directory, symbolic links
      included; `opens` counts the open file descriptions. */
  datatype Inode =
    | File(nlink: nat, opens: nat)
    | Dir(nlink: nat, opens: nat, entries: map<Name, Ino>)

  type Inodes = map<Ino, Inode>

  datatype Status = Ok | ENOENT | ENOTDIR | EISDIR | EEXIST | EPERM | ENOTEMPTY | EINVAL | EBADF

  predicate IsDir(fs: Inodes, d: Ino) { d in fs && fs[d].Dir? }

  function Entry(fs: Inodes, d: Ino, n: Name): Option<Ino> {
    if IsDir(fs, d) && n in fs[d].entries then Some(fs[d].entries[n]) else None
  }

  /** A directory that has been removed but is still open has lost its entries,
      and nothing can be created in it. */
  predicate InUse(fs: Inodes, d: Ino) { Entry(fs, d, Dot).Some? }

  predicate Empty(fs: Inodes, d: Ino)
    requires IsDir(fs, d)
  {
    forall n :: n in fs[d].entries ==> !n.Named?
  }

  // ----- Primitives -----

  function Add(fs: Inodes, d: Ino, n: Name, i: Ino): Inodes {
    if IsDir(fs, d) && i in fs then
      var fs' := fs[d := fs[d].(entries := fs[d].entries[n := i])];
      fs'[i := fs'[i].(nlink := fs'[i].nlink + 1)]
    else fs
  }

  function Drop(fs: Inodes, d: Ino, n: Name): Inodes {
    match Entry(fs, d, n)
    case None => fs
    case Some(i) =>
      var fs' := fs[d := fs[d].(entries := fs[d].entries - {n})];
      if i in fs' && fs'[i].nlink > 0 then fs'[i := fs'[i].(nlink := fs'[i].nlink - 1)] else fs'
  }

  /** The i-node goes when neither a name nor an open description is left. */
  function Reclaim(fs: Inodes, i: Ino): Inodes {
    if i in fs && fs[i].nlink == 0 && fs[i].opens == 0 then fs - {i} else fs
  }

  // ----- The calls -----

  /** The directory that ".." names; a removed directory leads nowhere. */
  function Parent(fs: Inodes, d: Ino): Ino {
    match Entry(fs, d, DotDot)
    case Some(p) => p
    case None => d
  }

  function Walk(fs: Inodes, d: Ino, steps: nat): Ino
    decreases steps
  {
    if steps == 0 then d else Walk(fs, Parent(fs, d), steps - 1)
  }

  /** Following ".." from `d` leads to `top`. */
  ghost predicate InSubtree(fs: Inodes, top: Ino, d: Ino) { exists k: nat :: Walk(fs, d, k) == top }

  datatype Call =
    | Create(d: Ino, n: Name, i: Ino)
    | Mkdir(d: Ino, n: Name, i: Ino)
    | Link(od: Ino, on: Name, d: Ino, n: Name)
    | Unlink(d: Ino, n: Name)
    | Rmdir(d: Ino, n: Name)
    | Rename(od: Ino, on: Name, d: Ino, n: Name)
    | Open(d: Ino, n: Name)
    | Close(i: Ino)

  /** Pathnames are given as a directory and a final component. */
  function DirStatus(fs: Inodes, d: Ino): Status {
    if !IsDir(fs, d) then ENOTDIR else if !InUse(fs, d) then ENOENT else Ok
  }

  function NewStatus(fs: Inodes, d: Ino, n: Name): Status {
    if DirStatus(fs, d) != Ok then DirStatus(fs, d)
    else if Entry(fs, d, n).Some? then EEXIST
    else Ok
  }

  function OldStatus(fs: Inodes, d: Ino, n: Name): Status {
    if DirStatus(fs, d) != Ok then DirStatus(fs, d)
    else if Entry(fs, d, n).None? || Entry(fs, d, n).value !in fs then ENOENT
    else Ok
  }

  function LinkStatus(fs: Inodes, od: Ino, on: Name, d: Ino, n: Name): Status {
    if OldStatus(fs, od, on) != Ok then OldStatus(fs, od, on)
    else if IsDir(fs, Entry(fs, od, on).value) then EPERM
    else NewStatus(fs, d, n)
  }

  function UnlinkStatus(fs: Inodes, d: Ino, n: Name): Status {
    if OldStatus(fs, d, n) != Ok then OldStatus(fs, d, n)
    else if IsDir(fs, Entry(fs, d, n).value) then EISDIR
    else Ok
  }

  function RmdirStatus(fs: Inodes, d: Ino, n: Name): Status {
    if OldStatus(fs, d, n) != Ok then OldStatus(fs, d, n)
    else if !n.Named? then EINVAL
    else if !IsDir(fs, Entry(fs, d, n).value) then ENOTDIR
    else if !Empty(fs, Entry(fs, d, n).value) then ENOTEMPTY
    else Ok
  }

  /** Old and new name are entries for one and the same i-node. */
  predicate SameFile(fs: Inodes, od: Ino, on: Name, d: Ino, n: Name) {
    Entry(fs, od, on).Some? && Entry(fs, od, on) == Entry(fs, d, n)
  }

  /** What may not be overwritten by what. */
  function OverwriteStatus(fs: Inodes, i: Ino, there: Option<Ino>): Status {
    if there.None? then Ok
    else if !IsDir(fs, i) then if IsDir(fs, there.value) then EISDIR else Ok
    else if !IsDir(fs, there.value) then ENOTDIR
    else if !Empty(fs, there.value) then ENOTEMPTY
    else Ok
  }

  ghost function RenameStatus(fs: Inodes, od: Ino, on: Name, d: Ino, n: Name): Status {
    if OldStatus(fs, od, on) != Ok then OldStatus(fs, od, on)
    else if DirStatus(fs, d) != Ok then DirStatus(fs, d)
    else if !on.Named? || !n.Named? then EINVAL
    else if SameFile(fs, od, on, d, n) then Ok
    else if IsDir(fs, Entry(fs, od, on).value) && InSubtree(fs, Entry(fs, od, on).value, d) then EINVAL
    else OverwriteStatus(fs, Entry(fs, od, on).value, Entry(fs, d, n))
  }

  ghost function StatusOf(fs: Inodes, call: Call): Status {
    match call
    case Create(d, n, _) => NewStatus(fs, d, n)
    case Mkdir(d, n, _) => NewStatus(fs, d, n)
    case Link(od, on, d, n) => LinkStatus(fs, od, on, d, n)
    case Unlink(d, n) => UnlinkStatus(fs, d, n)
    case Rmdir(d, n) => RmdirStatus(fs, d, n)
    case Rename(od, on, d, n) => RenameStatus(fs, od, on, d, n)
    case Open(d, n) => OldStatus(fs, d, n)
    case Close(i) => if i in fs && fs[i].opens > 0 then Ok else EBADF
  }

  /** Remove one entry; an i-node that loses its last one loses its own, too. */
  function Erase(fs: Inodes, d: Ino, n: Name): Inodes
    requires Entry(fs, d, n).Some?
  {
    var i := Entry(fs, d, n).value;
    var fs' := Drop(fs, d, n);
    Reclaim(if IsDir(fs, i) then Drop(Drop(fs', i, Dot), i, DotDot) else fs', i)
  }

  function NewDir(fs: Inodes, d: Ino, n: Name, i: Ino): Inodes {
    Add(Add(Add(fs[i := Dir(0, 0, map[])], i, Dot, i), i, DotDot, d), d, n, i)
  }

  /** Move the entry for `i` to a name that is free; a directory's ".." follows. */
  function Move(fs: Inodes, od: Ino, on: Name, d: Ino, n: Name, i: Ino): Inodes {
    var fs' := Add(Drop(fs, od, on), d, n, i);
    if IsDir(fs, i) then Add(Drop(fs', i, DotDot), i, DotDot, d) else fs'
  }

  /** An existing new name is removed first. */
  function Cleared(fs: Inodes, d: Ino, n: Name): Inodes {
    if Entry(fs, d, n).Some? then Erase(fs, d, n) else fs
  }

  /** The file system after a call; a call that fails changes nothing.  The
      kernel gives new files i-node numbers that are not in use. */
  ghost function Step(fs: Inodes, call: Call): Inodes {
    if StatusOf(fs, call) != Ok then fs
    else
      match call
      case Create(d, n, i) => if i in fs then fs else Add(fs[i := File(0, 0)], d, n, i)
      case Mkdir(d, n, i) => if i in fs then fs else NewDir(fs, d, n, i)
      case Link(od, on, d, n) => Add(fs, d, n, Entry(fs, od, on).value)
      case Unlink(d, n) => Erase(fs, d, n)
      case Rmdir(d, n) => Erase(fs, d, n)
      case Rename(od, on, d, n) =>
        if SameFile(fs, od, on, d, n) then fs else Move(Cleared(fs, d, n), od, on, d, n, Entry(fs, od, on).value)
      case Open(d, n) =>
        var i := Entry(fs, d, n).value;
        fs[i := fs[i].(opens := fs[i].opens + 1)]
      case Close(i) => Reclaim(fs[i := fs[i].(opens := fs[i].opens - 1)], i)
  }

  ghost function Run(fs: Inodes, calls: seq<Call>): Inodes {
    if calls == [] then fs else Step(Run(fs, calls[..|calls| - 1]), calls[|calls| - 1])
  }

  // ----- What the primitives do to the tables -----

  lemma AddEntry(fs: Inodes, d: Ino, n: Name, i: Ino, x: Ino, y: Name)
    requires IsDir(fs, d) && i in fs
    ensures Entry(Add(fs, d, n, i), x, y) == if x == d && y == n then Some(i) else Entry(fs, x, y)
    ensures IsDir(Add(fs, d, n, i), x) == IsDir(fs, x)
    ensures Add(fs, d, n, i).Keys == fs.Keys
    ensures x in fs ==> Add(fs, d, n, i)[x].opens == fs[x].opens
  {}

  lemma DropEntry(fs: Inodes, d: Ino, n: Name, x: Ino, y: Name)
    ensures Entry(Drop(fs, d, n), x, y) == if x == d && y == n then None else Entry(fs, x, y)
    ensures IsDir(Drop(fs, d, n), x) == IsDir(fs, x)
    ensures Drop(fs, d, n).Keys == fs.Keys
    ensures x in fs ==> Drop(fs, d, n)[x].opens == fs[x].opens
  {}

  // ----- Link counts -----

  /** The directory entries that name an i-node. */
  ghost function Links(fs: Inodes, i: Ino): set<(Ino, Name)> {
    set d, n | d in fs && fs[d].Dir? && n in fs[d].entries && fs[d].entries[n] == i :: (d, n)
  }

  lemma LinksAreEntries(fs: Inodes, i: Ino, d: Ino, n: Name)
    ensures (d, n) in Links(fs, i) <==> Entry(fs, d, n) == Some(i)
  {}

  /** The links are the pairs for which `Entry` says so, and no others. */
  lemma LinksBy(fs: Inodes, i: Ino, links: set<(Ino, Name)>)
    requires forall d, n :: (d, n) in links <==> Entry(fs, d, n) == Some(i)
    ensures Links(fs, i) == links
  {
    forall p ensures p in Links(fs, i) <==> p in links {
      LinksAreEntries(fs, i, p.0, p.1);
      assert p == (p.0, p.1);
    }
  }

  ghost predicate NoDangling(fs: Inodes) {
    forall d, n :: Entry(fs, d, n).Some? ==> Entry(fs, d, n).value in fs
  }

  /** Every link count equals the number of entries that name the i-node. */
  ghost predicate Counted(fs: Inodes) {
    NoDangling(fs) && forall i :: i in fs ==> fs[i].nlink == |Links(fs, i)|
  }

  lemma AddLinks(fs: Inodes, d: Ino, n: Name, i: Ino, j: Ino)
    requires IsDir(fs, d) && i in fs && Entry(fs, d, n).None?
    ensures Links(Add(fs, d, n, i), j) == Links(fs, j) + if j == i then {(d, n)} else {}
    ensures (d, n) !in Links(fs, j)
  {}

  lemma DropLinks(fs: Inodes, d: Ino, n: Name, j: Ino)
    ensures Links(Drop(fs, d, n), j) == Links(fs, j) - {(d, n)}
    ensures (d, n) in Links(fs, j) <==> Entry(fs, d, n) == Some(j)
  {}

  lemma AddKeepsCounted(fs: Inodes, d: Ino, n: Name, i: Ino)
    requires Counted(fs) && IsDir(fs, d) && i in fs && Entry(fs, d, n).None?
    ensures Counted(Add(fs, d, n, i))
  {
    var fs' := Add(fs, d, n, i);
    forall x, y | Entry(fs', x, y).Some? ensures Entry(fs', x, y).value in fs' {
      AddEntry(fs, d, n, i, x, y);
    }
    forall j | j in fs' ensures fs'[j].nlink == |Links(fs', j)| {
      AddLinks(fs, d, n, i, j);
    }
  }

  lemma DropCount(fs: Inodes, d: Ino, n: Name, j: Ino)
    requires j in fs && fs[j].nlink == |Links(fs, j)|
    ensures j in Drop(fs, d, n) && Drop(fs, d, n)[j].nlink == |Links(Drop(fs, d, n), j)|
  {
    DropLinks(fs, d, n, j);
    DropEntry(fs, d, n, j, n);
    if Entry(fs, d, n) == Some(j) {
      assert |Links(fs, j) - {(d, n)}| == |Links(fs, j)| - 1;
    } else {
      assert Links(fs, j) - {(d, n)} == Links(fs, j);
    }
  }

  lemma DropKeepsCounted(fs: Inodes, d: Ino, n: Name)
    requires Counted(fs)
    ensures Counted(Drop(fs, d, n))
  {
    var fs' := Drop(fs, d, n);
    forall x, y | Entry(fs', x, y).Some? ensures Entry(fs', x, y).value in fs' {
      DropEntry(fs, d, n, x, y);
    }
    DropEntry(fs, d, n, d, n);
    forall j | j in fs' ensures fs'[j].nlink == |Links(fs', j)| {
      DropCount(fs, d, n, j);
    }
  }

  /** Only an i-node that holds no entries itself may go. */
  lemma ReclaimKeepsCounted(fs: Inodes, i: Ino)
    requires Counted(fs)
    requires forall n :: Entry(fs, i, n).None?
    ensures Counted(Reclaim(fs, i))
    ensures forall x, y :: Entry(Reclaim(fs, i), x, y) == Entry(fs, x, y)
  {
    var fs' := Reclaim(fs, i);
    if fs' != fs {
      assert Links(fs, i) == {};
      forall x, y ensures Entry(fs', x, y) == Entry(fs, x, y) && Entry(fs, x, y) != Some(i) {
        LinksAreEntries(fs, i, x, y);
      }
      forall j | j in fs' ensures fs'[j].nlink == |Links(fs', j)| {
        forall x, y ensures (x, y) in Links(fs, j) <==> Entry(fs', x, y) == Some(j) {
          LinksAreEntries(fs, j, x, y);
        }
        LinksBy(fs', j, Links(fs, j));
      }
    }
  }
}
