/** The calls of dirs_links/README.org as updates of the i-node table in place. */
module FileSystem {
  import opened Basics
  import opened Directories
  import opened DirectoryTree

  class Volume {
    var inodes: Inodes

    constructor ()
      ensures inodes == EMPTY && Valid(inodes)
    {
      inodes := EMPTY;
      new;
      EmptyIsValid();
    }

    // ----- Primitives -----

    method AddLink(d: Ino, n: Name, i: Ino)
      requires IsDir(inodes, d) && i in inodes
      modifies this
      ensures inodes == Add(old(inodes), d, n, i)
    {
      inodes := inodes[d := inodes[d].(entries := inodes[d].entries[n := i])];
      inodes := inodes[i := inodes[i].(nlink := inodes[i].nlink + 1)];
    }

    method DropLink(d: Ino, n: Name)
      modifies this
      ensures inodes == Drop(old(inodes), d, n)
    {
      var entry := Entry(inodes, d, n);
      if entry.None? {
        return;
      }
      inodes := inodes[d := inodes[d].(entries := inodes[d].entries - {n})];
      var i := entry.value;
      if i in inodes && inodes[i].nlink > 0 {
        inodes := inodes[i := inodes[i].(nlink := inodes[i].nlink - 1)];
      }
    }

    method RemoveName(d: Ino, n: Name)
      requires Entry(inodes, d, n).Some?
      modifies this
      ensures inodes == Erase(old(inodes), d, n)
    {
      var i := Entry(inodes, d, n).value;
      var isDirectory := IsDir(inodes, i);
      DropLink(d, n);
      if isDirectory {
        DropLink(i, Dot);
        DropLink(i, DotDot);
      }
      ReclaimIfUnused(i);
    }

    method ReclaimIfUnused(i: Ino)
      modifies this
      ensures inodes == Reclaim(old(inodes), i)
    {
      if i in inodes && inodes[i].nlink == 0 && inodes[i].opens == 0 {
        inodes := inodes - {i};
      }
    }

    // ----- Calls -----

    /** An i-node number that is not in use is given. */
    method CreateFile(d: Ino, n: Name, i: Ino) returns (status: Status)
      requires i !in inodes
      modifies this
      ensures status == StatusOf(old(inodes), Create(d, n, i))
      ensures inodes == Step(old(inodes), Create(d, n, i))
    {
      status := NewStatus(inodes, d, n);
      if status == Ok {
        inodes := inodes[i := File(0, 0)];
        AddLink(d, n, i);
      }
    }

    method MakeDirectory(d: Ino, n: Name, i: Ino) returns (status: Status)
      requires i !in inodes
      modifies this
      ensures status == StatusOf(old(inodes), Mkdir(d, n, i))
      ensures inodes == Step(old(inodes), Mkdir(d, n, i))
    {
      status := NewStatus(inodes, d, n);
      if status == Ok {
        inodes := inodes[i := Dir(0, 0, map[])];
        AddLink(i, Dot, i);
        AddLink(i, DotDot, d);
        AddLink(d, n, i);
      }
    }

    method MakeLink(od: Ino, on: Name, d: Ino, n: Name) returns (status: Status)
      modifies this
      ensures status == StatusOf(old(inodes), Link(od, on, d, n))
      ensures inodes == Step(old(inodes), Link(od, on, d, n))
    {
      status := LinkStatus(inodes, od, on, d, n);
      if status == Ok {
        AddLink(d, n, Entry(inodes, od, on).value);
      }
    }

    method RemoveFile(d: Ino, n: Name) returns (status: Status)
      modifies this
      ensures status == StatusOf(old(inodes), Unlink(d, n))
      ensures inodes == Step(old(inodes), Unlink(d, n))
    {
      status := UnlinkStatus(inodes, d, n);
      if status == Ok {
        RemoveName(d, n);
      }
    }

    method RemoveDirectory(d: Ino, n: Name) returns (status: Status)
      modifies this
      ensures status == StatusOf(old(inodes), Rmdir(d, n))
      ensures inodes == Step(old(inodes), Rmdir(d, n))
    {
      status := RmdirStatus(inodes, d, n);
      if status == Ok {
        RemoveName(d, n);
      }
    }

    /** Climbs from `d` towards the root, looking for `top`. */
    method IsBelow(top: Ino, d: Ino) returns (below: bool)
      requires Tree(inodes) && InUse(inodes, d)
      ensures below == InSubtree(inodes, top, d)
    {
      var p := d;
      ghost var rank :| RankedBy(inodes, rank);
      while p != top && p != ROOT
        invariant InUse(inodes, p)
        invariant InSubtree(inodes, top, p) == InSubtree(inodes, top, d)
        decreases rank[p]
      {
        SubtreeStep(inodes, top, p);
        p := Parent(inodes, p);
      }
      if p == top {
        assert Walk(inodes, p, 0) == top;
      } else {
        forall k: nat ensures Walk(inodes, ROOT, k) != top { WalkFromRoot(inodes, k); }
      }
      return p == top;
    }

    /** Every reason not to rename, in the order in which they are looked for. */
    method CheckRename(od: Ino, on: Name, d: Ino, n: Name) returns (status: Status)
      requires Tree(inodes)
      ensures status == RenameStatus(inodes, od, on, d, n)
    {
      status := OldStatus(inodes, od, on);
      if status != Ok {
        return;
      }
      status := DirStatus(inodes, d);
      if status != Ok {
        return;
      }
      if !on.Named? || !n.Named? {
        return EINVAL;
      }
      if SameFile(inodes, od, on, d, n) {
        return Ok;
      }
      var i := Entry(inodes, od, on).value;
      if IsDir(inodes, i) {
        var below := IsBelow(i, d);
        if below {
          return EINVAL;
        }
      }
      return OverwriteStatus(inodes, i, Entry(inodes, d, n));
    }

    method RenameEntry(od: Ino, on: Name, d: Ino, n: Name) returns (status: Status)
      requires Counted(inodes) && Tree(inodes)
      modifies this
      ensures status == StatusOf(old(inodes), Rename(od, on, d, n))
      ensures inodes == Step(old(inodes), Rename(od, on, d, n))
    {
      status := CheckRename(od, on, d, n);
      if status == Ok && !SameFile(inodes, od, on, d, n) {
        PerformRename(od, on, d, n);
      }
    }

    method PerformRename(od: Ino, on: Name, d: Ino, n: Name)
      requires Counted(inodes) && Tree(inodes) && Renames(inodes, od, on, d, n)
      modifies this
      ensures inodes == Move(Cleared(old(inodes), d, n), od, on, d, n, Entry(old(inodes), od, on).value)
    {
      RenameMovable(inodes, od, on, d, n);
      var i := Entry(inodes, od, on).value;
      if Entry(inodes, d, n).Some? {
        RemoveName(d, n);
      }
      MoveName(od, on, d, n, i);
    }

    method MoveName(od: Ino, on: Name, d: Ino, n: Name, i: Ino)
      requires on.Named? && n.Named? && Entry(inodes, od, on) == Some(i) && i in inodes
      requires Entry(inodes, d, n).None? && IsDir(inodes, d)
      modifies this
      ensures inodes == Move(old(inodes), od, on, d, n, i)
    {
      var isDirectory := IsDir(inodes, i);
      DropEntry(inodes, od, on, d, n);
      DropEntry(inodes, od, on, i, n);
      DropLink(od, on);
      AddEntry(inodes, d, n, i, i, n);
      AddEntry(inodes, d, n, i, d, n);
      AddLink(d, n, i);
      if isDirectory {
        DropEntry(inodes, i, DotDot, i, n);
        DropEntry(inodes, i, DotDot, d, n);
        DropLink(i, DotDot);
        AddLink(i, DotDot, d);
      }
    }

    method OpenFile(d: Ino, n: Name) returns (status: Status)
      modifies this
      ensures status == StatusOf(old(inodes), Open(d, n))
      ensures inodes == Step(old(inodes), Open(d, n))
    {
      status := OldStatus(inodes, d, n);
      if status == Ok {
        var i := Entry(inodes, d, n).value;
        inodes := inodes[i := inodes[i].(opens := inodes[i].opens + 1)];
      }
    }

    method CloseFile(i: Ino) returns (status: Status)
      modifies this
      ensures status == StatusOf(old(inodes), Close(i))
      ensures inodes == Step(old(inodes), Close(i))
    {
      if i !in inodes || inodes[i].opens == 0 {
        return EBADF;
      }
      inodes := inodes[i := inodes[i].(opens := inodes[i].opens - 1)];
      ReclaimIfUnused(i);
      return Ok;
    }

    method Perform(call: Call)
      requires Counted(inodes) && Tree(inodes)
      modifies this
      ensures inodes == Step(old(inodes), call)
    {
      match call {
        case Create(d, n, i) => if i !in inodes { var _ := CreateFile(d, n, i); }
        case Mkdir(d, n, i) => if i !in inodes { var _ := MakeDirectory(d, n, i); }
        case Link(od, on, d, n) => var _ := MakeLink(od, on, d, n);
        case Unlink(d, n) => var _ := RemoveFile(d, n);
        case Rmdir(d, n) => var _ := RemoveDirectory(d, n);
        case Rename(od, on, d, n) => var _ := RenameEntry(od, on, d, n);
        case Open(d, n) => var _ := OpenFile(d, n);
        case Close(i) => var _ := CloseFile(i);
      }
    }

    /** A whole sequence of calls, from any valid state. */
    method PerformAll(calls: seq<Call>)
      requires Valid(inodes)
      modifies this
      ensures inodes == Run(old(inodes), calls) && Valid(inodes)
    {
      for k := 0 to |calls|
        invariant inodes == Run(old(inodes), calls[..k])
      {
        ValidForever(old(inodes), calls[..k]);
        assert calls[..k + 1][..k] == calls[..k];
        Perform(calls[k]);
      }
      assert calls[..|calls|] == calls;
      ValidForever(old(inodes), calls);
    }
  }
}
