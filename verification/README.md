# Kernel and library algorithms of the chapter notes, modelled and proved

The chapter notes describe, as precise rules and C listings, how a UNIX kernel
and its C library work. This project models six of those descriptions in Dafny
and proves what they promise, for all inputs and over all runs.

* **Process groups and sessions** (`Sessions.dfy`, `ProcessCalls.dfy`,
  `OrphanedGroups.dfy`, `Pipeline.dfy`). A process table and the calls fork, exec, exit, setpgid, setsid
  and signal delivery, first as functions on tables, then as methods of class
  `Kernel` that update the table. `ProcessCalls` says what each call does for its
  caller. `OrphanedGroups` says which calls end the
  orphanhood of a leader's group and which strand a stopped process, one call at
  a time and over whole runs. `Pipeline` adds the shell and the pipeline
  children of Listing 34.1, whose steps interleave in any order with each other
  and with every other process.
* **Directories** (`Directories.dfy`, `DirectoryTree.dfy`, `DirectoryCalls.dfy`,
  `FileSystem.dfy`).
  A table of i-nodes with entries, link counts and open counts. All calls are
  built from adding and dropping one entry. `DirectoryTree` proves that
  directories form a tree and that counts are exact, `DirectoryCalls` when each
  call succeeds and what directories hold after it; class `FileSystem.Volume`
  performs the calls in place, including the climb along ".." by which rename
  detects that a directory would move below itself.
* **The heap** (`Heap.dfy`, `HeapCalls.dfy`, `FreeList.dfy`, `Words.dfy`,
  `BlockLayout.dfy`, `Allocator.dfy`). `Heap` states what malloc, free and realloc do to the blocks
  between heap start and program break, leaving open which fitting block is
  taken; `HeapCalls` says in bytes when they succeed and what they hand out. Class `Allocator.Arena` has only an array of bytes, the break and the
  address of the first free block: lengths and the links of the free list are
  words in the blocks, read and written byte by byte. It is proved to do what
  `Heap` says, and that programs that write into their own blocks never
  disturb those words.
* **Process credentials** (`Credentials.dfy`). Real, effective, saved set and
  file-system user IDs and the five calls and exec that change them.
* **Access control lists** (`Acl.dfy`). The ordered permission check, an
  order-free statement of the same decision, the traditional check, chmod,
  stat, mask calculation and default ACLs.
* **Inotify and ext2** (`Inotify.dfy`, `Ext2.dfy`). The event queue with
  coalescing and overflow, the packed read buffer and the loop that walks it;
  the 15 block pointers of an i-node as a representation of a sparse array, with
  the exact number of free blocks that a sequence of writes needs.

`Basics.dfy` holds two shared types. Nothing here was executed: the claims are
those that Dafny's verifier proves.

## Where the notes leave a choice, or are not quite right

* *setsid.* Section 34.3 refuses a caller that leads its group. That is too
  weak: `WordedGuardBreaksHierarchy` is a run that ends with one group in two
  sessions, and `WordedGuardSafeIff` says exactly when the worded guard is
  enough. `Setsid` uses the guard in the ERRORS section of setsid() in the XSH
  volume of POSIX.1-2008: no process's group may bear the caller's ID.
* *Session leaders.* Section 34.7.4 calls the group of a session leader
  orphaned by definition. It is right after setsid() (`NewSessionIsOrphaned`),
  but a grandchild can be moved into it later (`LeaderGroupNeedNotBeOrphaned`).
  `OrphanhoodEndsIff` names the calls that end it, all of them setpgid(), from
  the table before the call; `LeaderOrphanedUntil` is the same over runs.
* *Stopped processes.* The section knows only of terminations as ways in which
  a group becomes orphaned, and the model has exit alone send SIGHUP and SIGCONT.
  setsid(), setpgid() and SIGSTOP can then leave a stopped process in an
  orphaned group: `SetsidCanStrand` and `SetpgidCanStrand` are runs, and
  `NoneStrandedForever` is the exact condition on each call of a run.
* *setpgid.* The restrictions are checked in the order in which they are
  listed; the session rule applies only when the new group is another one than
  the target's own ID.
* *Effective ID.* Section 9.7.1 says that only setresuid() can make the
  effective ID differ from both others. A privileged seteuid() can, too, as
  glibc builds it on setresuid(): `SeteuidCanUnsettle` is a run in which it
  does, `UnsettledExactlyBy` the exact statement.
  For the same reason an unprivileged seteuid() may name, besides the real and
  the saved ID, the effective ID that there is: the rule in the text has only the
  first two, the note on glibc and the note to Table 9-1 add the third.
* *File-system ID.* setreuid(), like setresuid(), sets it to the effective ID
  even where that is unchanged. exec of a file without the set-user-ID bit
  leaves it alone.
* *Privileged execution with an ACL.* An entry grants execute permission if it
  does so after masking; the mask itself is not a granting entry.
* *Pathnames.* Calls get a directory and a final component. The rename rule on
  a "directory prefix" is read as ancestry of the directories, found by
  following "..". That check comes before those on what is overwritten; a final
  component "." or ".." is EINVAL for rename and rmdir. A removed directory that
  is still open has lost its entries and takes no new ones.
* *The heap.* Block sizes are multiples of 32 bytes, with 16 for the length in front;
  the break is raised and lowered in pages of 4096 bytes, and lowered when at
  least 128 kB at the top end are free. A realloc() that needs no more room
  keeps the block as it is. At the end of the heap a realloc() that cannot
  raise the break fails, without looking for a block elsewhere. The length is
  the first of the two words in front of a block; the links of a free block are
  the two words behind those. Whether a block is free is found by looking for
  it on the list. Bytes that nobody has stored into have no defined value.
* *Inotify.* An event equal to the one at the tail is coalesced even when the
  queue is at its limit; repeated overflow events coalesce in the same way. An
  overflow event says that an event found no place (`MarkedIffDiscarded`); the
  event may come again and be read after all (`MarkedYetComplete`).

## Model

| member | source | states |
|---|---|---|
| `Sessions.HierarchyForever` | pgsjc/README.org:349-393 | after every sequence of fork, exec, exit, setpgid, setsid, signals and handlers, all members of a group are in one session, every session leader leads its own group, parents exist and no leader's parent is in its session |
| `Sessions.StepKeepsHierarchy` | pgsjc/README.org:194-211 | each single call, permitted or refused, keeps that two-level hierarchy |
| `Sessions.WordedGuardSafeIff` | pgsjc/README.org:349-384 | under the guard as worded, the hierarchy survives if and only if no process is in the group that bears the caller's ID |
| `Sessions.WordedGuardBreaksHierarchy` | pgsjc/README.org:369-384 | a run from boot after which the worded guard lets a group be split between two sessions |
| `Sessions.OrphanedAsSpecified` | pgsjc/README.org:1365-1371 | the two wordings of "orphaned" agree on every table and group |
| `Sessions.NewSessionIsOrphaned` | pgsjc/README.org:1376-1381 | right after setsid() the caller's group is orphaned |
| `OrphanedGroups.OrphanhoodEndsIff` | pgsjc/README.org:1365-1381 | the orphanhood of a leader's group is ended by exactly those setpgid() calls that bring in a process whose parent is elsewhere in the session, or take out the parent of a member; by no fork, exec, exit, setsid, signal or handler |
| `OrphanedGroups.SetpgidEndsIff` | pgsjc/README.org:1365-1381 | the two ways in which a setpgid() that moves a process ends it, told from the table before the call |
| `OrphanedGroups.LeaderOrphanedUntil` | pgsjc/README.org:1376-1381 | from the setsid() on, for as long as the leader's ID is not given out again, the group is orphaned at every point of a run if and only if no call of the run is one of those |
| `OrphanedGroups.LeaderGroupNeedNotBeOrphaned` | pgsjc/README.org:1376-1381 | a run from boot that ends with a session leader in a group that is not orphaned |
| `Sessions.NewlyOrphanedNearby` | pgsjc/README.org:1431-1436 | a group orphaned by an exit is that of the exiting process or of one of its children |
| `Sessions.CandidatesSuffice` | pgsjc/README.org:1417-1436 | hanging up the right ones among those groups gives the same table as the definition over all groups |
| `Sessions.ExitSignals` | pgsjc/README.org:1422-1429 | each survivor of an exit gets SIGHUP then SIGCONT exactly if its group became orphaned and had a stopped member, nothing otherwise, and stays stopped exactly if its group did not become orphaned |
| `OrphanedGroups.NoneStrandedForever` | pgsjc/README.org:1417-1436 | over every run of all the calls: no stopped process is ever in an orphaned group if and only if every setpgid(), setsid() and SIGSTOP of the run meets its condition when it is made |
| `OrphanedGroups.JobControlStrandsNobody` | pgsjc/README.org:1417-1429 | every run of fork, exec, exit, handlers and signals other than SIGSTOP meets those conditions and strands nobody |
| `OrphanedGroups.StepStrandsIff` | pgsjc/README.org:1417-1436 | one call of any kind strands nobody exactly if its condition, on the table before the call, holds |
| `OrphanedGroups.SetpgidStrandsIff` | pgsjc/README.org:1431-1436 | a setpgid() that moves a process strands nobody exactly if the group left keeps, for its stopped members, one with a parent outside or a child of the process moved, and the group joined has, for its own, the parent of that process outside or another member with another parent outside |
| `OrphanedGroups.SetpgidCanStrand` | pgsjc/README.org:1431-1436 | a run from boot after which a setpgid() leaves a stopped process in an orphaned group |
| `OrphanedGroups.SigstopStrandsIff` | pgsjc/README.org:1518-1523 | SIGSTOP, which is not discarded, strands its target exactly when the target's group is already orphaned |
| `OrphanedGroups.SetsidStrandsIff` | pgsjc/README.org:1417-1436 | setsid() strands nobody exactly when the caller runs and every stopped process's group is anchored by a member that is neither the caller nor its child |
| `OrphanedGroups.SetsidCanStrand` | pgsjc/README.org:1431-1436 | a run from boot after which a setsid() leaves a stopped process in an orphaned group |
| `ProcessCalls.ForkedChild` | pgsjc/README.org:386-393 | what a new child inherits and what it does not; nobody else changes |
| `ProcessCalls.MovableUntilExec` | pgsjc/README.org:207-211 | a parent may move a new child until the child execs, then gets EACCES; the child may move itself before and after |
| `ProcessCalls.ExecedIsOutOfReach` | pgsjc/README.org:207-211 | no parent can move any child that has execed |
| `ProcessCalls.ExecForgetsHandlers` | pgsjc/README.org:1518-1523 | after exec a stop signal stops the process again, unless its group is orphaned; exec moves nobody |
| `ProcessCalls.SetpgidOutcome` | pgsjc/README.org:194-211 | ESRCH, EPERM, EACCES and success each if and only if its rule says so; on success one group ID changes, otherwise nothing does |
| `ProcessCalls.SetsidOutcome` | pgsjc/README.org:357-373 | setsid() takes effect if and only if no group bears the caller's ID; then the caller is alone in a new group and session |
| `ProcessCalls.ExitOutcome` | pgsjc/README.org:1393-1396 | the process is gone, its children are init's, and nobody changes group or session |
| `ProcessCalls.SignalOutcome` | pgsjc/README.org:1518-1523 | which signals stop, resume or are discarded, that all but discarded ones are received, and that nobody else is affected |
| `ProcessCalls.StopThenContinue` | pgsjc/README.org:1422-1427 | stopping and then continuing a process leaves it as it was but for the signals received |
| `ProcessCalls.HandlerOutcome` | pgsjc/README.org:1518-1523 | with a handler a stop signal is received and stops nobody, in an orphaned group or not |
| `Sessions.Kernel.ForkProcess` | pgsjc/README.org:386-393 | adds a process with the caller's group and session, and keeps the hierarchy |
| `Sessions.Kernel.SetProcessGroup` | pgsjc/README.org:194-211 | status and new table of setpgid(), with ESRCH, EPERM and EACCES, and the hierarchy is kept |
| `Sessions.Kernel.CreateSession` | pgsjc/README.org:349-393 | EPERM exactly if some process's group bears the caller's ID; otherwise a new session whose group is orphaned; the hierarchy is kept |
| `Sessions.Kernel.Signal` | pgsjc/README.org:1518-1523 | stop signals that would stop a member of an orphaned group are discarded, all others delivered |
| `Sessions.Kernel.SetHandler` | pgsjc/README.org:1518-1523 | installing or removing a handler for stop signals keeps the hierarchy |
| `Sessions.Kernel.Terminate` | pgsjc/README.org:1417-1436 | examining only the groups of the caller and its children, in a loop over them in any order, performs exit as defined over all groups |
| `Sessions.Kernel.PerformAll` | pgsjc/README.org:349-393 | any sequence of calls in place gives the table that the rules define, with the hierarchy kept |
| `Pipeline.ParentAnswer` | pgsjc/README.org:236-247 | the shell's setpgid() for a child answers EACCES if and only if the child's exec, after its own setpgid(), is among the actions so far, and otherwise succeeds; the child is in the group either way |
| `Pipeline.DoneAsActed` | pgsjc/README.org:215-247 | what a child has done, placing itself and executing, is exactly what the order of the actions says |
| `Pipeline.SignalReaches` | pgsjc/README.org:222-230 | a signal to the job reaches the members of its group and nobody else |
| `Pipeline.PipelineCompletes` | pgsjc/README.org:215-277 | for any number of new processes there is a run that ends with all of them placed and executing |
| `Pipeline.PlacedBeforeExecAndSignal` | pgsjc/README.org:215-277 | for every interleaving and any number of children: whoever has execed is in the pipeline's group, a job-control signal reaches every child, no child's setpgid() fails, and the shell's fails only with EACCES on a child already in the group |
| `Pipeline.SetpgidOutcomes` | pgsjc/README.org:236-247 | the child's own call succeeds; the shell's gives EACCES exactly if the child has execed |
| `Pipeline.LeaderPlaced` | pgsjc/README.org:273-277 | by the time a further child exists the first is in the group named after it |
| `Pipeline.ActKeepsGood` | pgsjc/README.org:215-277 | every step of the shell, of a child or of any other process keeps the invariant of the job |
| `DirectoryTree.ValidForever` | dirs_links/README.org:119-124 | after every sequence of create, mkdir, link, unlink, rmdir, rename, open and close the directories form a tree, every link count equals the number of entries naming the i-node, and whatever exists has a name or is open |
| `DirectoryTree.StepKeepsTree` | dirs_links/README.org:592-657 | each single call keeps the tree and the exact link counts |
| `DirectoryTree.WalkReachesRoot` | dirs_links/README.org:627-628 | following ".." from any directory in use leads to the root |
| `DirectoryTree.MoveKeepsTree` | dirs_links/README.org:523-529 | moving an entry to a free name, not below itself, keeps tree and counts |
| `DirectoryTree.MoveSafeIff` | dirs_links/README.org:527-529 | moving a directory keeps the tree if and only if the new parent is not below it, so the EINVAL rule forbids neither too much nor too little |
| `DirectoryTree.HardLinkSafeIff` | dirs_links/README.org:148-149 | a further hard link, to whatever there is, keeps the tree if and only if it is not to a directory |
| `DirectoryTree.RenameSameFile` | dirs_links/README.org:498-507 | rename between two names of one i-node succeeds and changes nothing |
| `DirectoryTree.RenameEntry` | dirs_links/README.org:495-529 | every entry of every directory after a rename: old name gone, new name on the moved i-node, ".." of a moved directory on its new parent, entries of an overwritten directory gone, all others as before |
| `DirectoryTree.EraseEntries` | dirs_links/README.org:380-389 | removing a name removes that entry and, of a directory, its "." and "..", no other, and keeps the counts |
| `DirectoryTree.EraseKeepsTree` | dirs_links/README.org:647-657 | removing a file or an empty directory keeps the tree |
| `DirectoryTree.NewDirKeepsTree` | dirs_links/README.org:592-628 | mkdir with its "." and ".." keeps tree and counts |
| `DirectoryTree.LifetimeIsExact` | dirs_links/README.org:393-403 | an i-node survives a call if and only if afterwards it has a name or an open description |
| `DirectoryTree.NoRevival` | dirs_links/README.org:399-400 | no call gives a name to an i-node whose link count has fallen to 0 |
| `DirectoryTree.EmptyIsValid` | dirs_links/README.org:627-628 | a volume with nothing but its root satisfies all of this |
| `Directories.AddKeepsCounted` | dirs_links/README.org:107-114 | adding an entry at a free name keeps every count equal to the number of entries |
| `Directories.DropKeepsCounted` | dirs_links/README.org:119-124 | so does removing any entry |
| `Directories.ReclaimKeepsCounted` | dirs_links/README.org:119-124 | so does deallocating an i-node nobody names, and no entry changes |
| `DirectoryCalls.CallEntries` | dirs_links/README.org:352-657 | every entry of every directory after create, mkdir, link, unlink, rmdir, rename, open and close, told without counts; a call that fails changes nothing |
| `DirectoryCalls.NameStays` | dirs_links/README.org:119-128 | over every run a name that no call is given stays, and names the same i-node |
| `DirectoryCalls.SucceedsIff` | dirs_links/README.org:352-657 | each call succeeds if and only if names exist or are free, are of the right kind and, for directories, are empty or not below themselves |
| `DirectoryCalls.ErrorTells` | dirs_links/README.org:352-389 | the errors of link, unlink and rmdir each if and only if its rule is broken |
| `DirectoryCalls.RenameErrorTells` | dirs_links/README.org:516-529 | the errors of rename each if and only if its rule is broken |
| `DirectoryCalls.NewNodes` | dirs_links/README.org:592-628 | a call makes exactly the i-node it should, of the right kind, and no other |
| `DirectoryCalls.LinkRaises` | dirs_links/README.org:107-114 | link() raises the count of the file by one |
| `DirectoryCalls.UnlinkLowers` | dirs_links/README.org:380-403 | unlink() lowers it by one, and the file goes exactly if that was its last name and it is not open |
| `FileSystem.Volume.IsBelow` | dirs_links/README.org:527-529 | the climb along ".." ends and finds out whether one directory is below another |
| `FileSystem.Volume.CheckRename` | dirs_links/README.org:495-529 | the checks made one after the other give the status that the rules define |
| `FileSystem.Volume.RenameEntry` | dirs_links/README.org:488-529 | rename in place does what the rules define, errors included |
| `FileSystem.Volume.MakeLink` | dirs_links/README.org:352-354 | link in place: EEXIST if the new name exists, and no hard link to a directory |
| `FileSystem.Volume.MakeDirectory` | dirs_links/README.org:592-628 | mkdir in place, with its two entries |
| `FileSystem.Volume.RemoveFile` | dirs_links/README.org:380-389 | unlink in place, EISDIR for a directory |
| `FileSystem.Volume.RemoveDirectory` | dirs_links/README.org:647-657 | rmdir in place, only of an empty directory |
| `FileSystem.Volume.CloseFile` | dirs_links/README.org:393-403 | the last close of a file without a name reclaims it |
| `FileSystem.Volume.PerformAll` | dirs_links/README.org:119-124 | any sequence of calls in place gives the state that the rules define, and it is valid |
| `Heap.ReachableHeapsAreValid` | memalloc/README.org:255-346 | in every heap reached by malloc, free, realloc and stores from an empty one, the blocks tile the range from start to break, no two free blocks are adjacent, live blocks are apart and the top free block is below the trim threshold |
| `Heap.EveryAddressInOneBlock` | memalloc/README.org:344-350 | in such a heap every address between start and break lies in one block and no other |
| `Heap.SparedBlockKept` | memalloc/README.org:120-131 | over a run whose calls get no pointer to a live block, the block stays live, in place and with every byte unchanged |
| `Heap.MallocKeepsValid` | memalloc/README.org:306-321 | whichever fitting block is taken, split or not, and however the break is raised, the heap stays in order |
| `Heap.MallocLive` | memalloc/README.org:133-165 | malloc adds exactly one live block, large enough, changes no other, and on NULL changes nothing |
| `Heap.ReleaseKeepsValid` | memalloc/README.org:255-269 | coalescing with both neighbours and lowering the break keeps the heap in order |
| `Heap.ReleaseLive` | memalloc/README.org:167-192 | free ends the life of one block and changes no other |
| `HeapCalls.MallocFailsIff` | memalloc/README.org:156-161 | malloc() returns NULL if and only if no free block holds the bytes and the break cannot be raised by enough pages |
| `HeapCalls.MallocOutcome` | memalloc/README.org:306-321 | the block is exactly as large as needed; a larger free block is split, the break is raised only if none fits and by whole pages, and what is too much is one free block |
| `HeapCalls.FreeOutcome` | memalloc/README.org:255-269 | the block and its free neighbours become one free block; only 128 kB or more at the top end lower the break, by whole pages, leaving less than a page |
| `HeapCalls.ResizeOutcome` | memalloc/README.org:532-556 | when realloc() fails and when the block stays where it is, both if and only if |
| `HeapCalls.ResizeCutsOff` | memalloc/README.org:548-556 | a block that grows in place or moves gets exactly what it needs, the rest is one free block, and the break moves only behind the last block |
| `HeapCalls.ResizeLive` | memalloc/README.org:532-556 | the blocks in use after realloc() are the same but for the one resized: a moved block leaves nothing behind |
| `HeapCalls.ReallocToNothing` | memalloc/README.org:543-546 | realloc() to size 0 ends the life of the block and starts one for no bytes |
| `Heap.MallocThenFreeRestores` | memalloc/README.org:306-314 | a malloc served from the free list followed by free restores the heap, block for block |
| `Heap.FreeingAllLeavesOne` | memalloc/README.org:243-269 | freeing all live blocks, in any order, leaves at most one block, smaller than the trim threshold |
| `Heap.ReallocKeepsValid` | memalloc/README.org:543-556 | realloc, in all its cases including NULL and size 0, keeps the heap in order |
| `Heap.ResizeCarries` | memalloc/README.org:532-556 | whether it absorbs the next block, extends the heap or moves: the first bytes, as many as both sizes have, are where the result points, every other live block is unchanged, and on NULL so is the whole heap |
| `FreeList.PushSpells` | memalloc/README.org:336-338 | linking a block at the front of the doubly linked list yields a well-formed list with that block first |
| `FreeList.RemoveSpells` | memalloc/README.org:336-338 | joining a block's neighbours yields a well-formed list of the others in the same order |
| `Words.DecodeEncode` | memalloc/README.org:323-330 | a number stored in bytes is read back |
| `Words.WriteWord` | memalloc/README.org:323-330 | storing a word sets it and changes no byte elsewhere |
| `BlockLayout.RelinkedKeeps` | memalloc/README.org:336-338 | writing one link into a block changes no length and no other link |
| `BlockLayout.EnteredKeeps` | memalloc/README.org:323-330 | writing the length of a new block, where there is room for it, changes no other length and no link |
| `BlockLayout.UserBytesKeepBooks` | memalloc/README.org:323-338 | whatever is written into the bytes handed out of a block in use, all lengths and links in memory are as they were |
| `BlockLayout.FramedHeld` | memalloc/README.org:336-346 | writing lengths and links of other blocks changes no byte that is handed out before and after |
| `Allocator.Arena.JoinNeighbours` | memalloc/README.org:336-338 | taking a block off the list by rewriting two words in its neighbours |
| `Allocator.Arena.FindFit` | memalloc/README.org:306-311 | the scan of the list ends, and finds a free block that is large enough if there is one |
| `Allocator.Arena.RecutStretch` | memalloc/README.org:309-338 | the words and the break after replacing a stretch of blocks describe the heap as recut, the list holds exactly the free blocks, and no byte of a block in use before and after has changed |
| `Allocator.Arena.AllocateBytes` | memalloc/README.org:306-329 | malloc in place is one that the heap rules allow |
| `Allocator.Arena.FreeBytes` | memalloc/README.org:167-192 | free in place gives the heap that the rules define, and does nothing for NULL |
| `Allocator.Arena.ReallocateBytes` | memalloc/README.org:518-556 | realloc in place, bytes included, is one that the rules allow |
| `Allocator.Arena.StoreByte` | memalloc/README.org:323-338 | a program that stores into its own block changes that byte, gives it a value, and leaves list, lengths and blocks in order |
| `Allocator.Arena.LoadByte` | memalloc/README.org:133-137 | the byte in memory is the one that the heap rules say, if it has a value |
| `Allocator.StoredByteKept` | memalloc/README.org:120-131 | over a run whose calls get no pointer to a block, each of its bytes that has a value keeps it |
| `Allocator.Arena.Perform` | memalloc/README.org:255-346 | any permitted call is answered as the rules say, leaves words and blocks in order for the next, and leaves exactly those bytes with a value that the rules for malloc, free, realloc and stores give |
| `Allocator.Arena.PerformAll` | memalloc/README.org:255-346 | any sequence of permitted calls in place is a run of the heap rules, and leaves the arena in order |
| `Allocator.Arena.StoreThenFind` | memalloc/README.org:120-137 | a byte stored in a block is found again after any sequence of calls that get no pointer to the block |
| `Credentials.UnprivilegedForever` | proccred/README.org:597-602 | once 0 is none of the three IDs, no exec-free run is privileged and the three IDs stay in their starting set |
| `Credentials.ReachableUsers` | proccred/README.org:597-602 | exactly which users an exec-free run can act as: the three IDs, and everyone if 0 is among them |
| `Credentials.SetuidDropsRootForGood` | proccred/README.org:404-424 | after setuid(getuid()) as root, only the real user can be reached |
| `Credentials.SetuidKeepsSavedUnlessRoot` | proccred/README.org:426-430 | elsewhere the same call keeps the saved ID within reach, and exactly there |
| `Credentials.SetreuidDropsForGood` | proccred/README.org:527-542 | setreuid(getuid(), getuid()) is always permitted and leaves only the real user in reach |
| `Credentials.SetreuidKeepsSaved` | proccred/README.org:530-535 | setreuid(-1, getuid()) is always allowed and keeps the saved ID, to which the program can return |
| `Credentials.SetreuidOverwritesSaved` | proccred/README.org:524-529 | any other setreuid() that sets an ID overwrites the saved ID, and exactly when the old one stays in reach |
| `Credentials.ExecOutcome` | proccred/README.org:238-244 | exec sets the effective ID only with the bit, and copies it to the saved ID in any case |
| `Credentials.SetuidOutcome` | proccred/README.org:394-411 | setuid() by a privileged process sets all IDs, by another is seteuid() to the real or saved ID and else refused |
| `Credentials.OneIdSet` | proccred/README.org:771-796 | which values one call can give to one ID, if and only if, and that it leaves the others |
| `Credentials.AllOrNothing` | proccred/README.org:605-608 | calls that name several IDs are allowed exactly if each alone would be; refused ones change nothing |
| `Credentials.TemporaryDropRoundTrip` | proccred/README.org:451-458 | dropping and regaining with seteuid after exec of a set-user-ID program restores all four IDs |
| `Credentials.StaysSettled` | proccred/README.org:238-244 | over runs of setuid, setreuid, setfsuid, exec and unprivileged seteuid the effective ID equals the real or the saved one |
| `Credentials.UnsettledExactlyBy` | proccred/README.org:466-477 | the only calls that break this, and exactly when they do |
| `Credentials.SeteuidCanUnsettle` | proccred/README.org:475-477 | a run of exec and seteuid() that ends with the effective ID different from both others |
| `Credentials.SeteuidIsSetresuid` | proccred/README.org:466-470 | seteuid(x) and setresuid(-1, x, -1) are permitted in the same cases and have the same effect |
| `Credentials.FileSystemIdFollows` | proccred/README.org:283-290 | without setfsuid() the file-system ID always equals the effective ID |
| `Credentials.FileSystemIdConfined` | proccred/README.org:637-640 | without 0 among the three IDs the file-system ID stays among the four it started with |
| `Credentials.Process.SetUid` | proccred/README.org:394-411 | status and IDs of setuid() |
| `Credentials.Process.SetEuid` | proccred/README.org:440-470 | status and IDs of seteuid() as glibc has it |
| `Credentials.Process.SetReuid` | proccred/README.org:507-535 | status and IDs of setreuid(), with the rule on the saved ID |
| `Credentials.Process.SetResuid` | proccred/README.org:597-608 | status and IDs of setresuid(), all or nothing |
| `Credentials.Process.SetFsuid` | proccred/README.org:634-650 | the previous ID is returned whether or not the change was allowed |
| `Credentials.Process.ExecProgram` | proccred/README.org:238-244 | exec with and without the set-user-ID bit |
| `Credentials.Process.PerformAll` | proccred/README.org:390-477 | any sequence of calls in place gives the IDs that the rules define |
| `Acl.CheckIsGranted` | acl/README.org:111-146 | on every valid ACL the ordered first-match algorithm equals a rule on the set of entries |
| `Acl.CheckIgnoresOrder` | acl/README.org:111-146 | every reordering of a valid ACL is valid and decides alike |
| `Acl.MinimalIsTraditional` | files/README.org:929-981 | on a minimal ACL the decision is the owner, group, other check on the mode that stat() shows |
| `Acl.StatAfterChmod` | acl/README.org:266-274 | stat after chmod reads back the mode that was set, and the ACL stays valid |
| `Acl.ChmodBackRestores` | acl/README.org:266-274 | chmod to any mode and back to what stat showed restores the ACL entry for entry |
| `Acl.StatBoundsGrants` | acl/README.org:216-220 | what an ACL grants without privilege never exceeds the bits stat() shows |
| `Acl.ChmodLocksOut` | acl/README.org:228-232 | after clearing group and other bits no unprivileged user but the owner is granted anything |
| `Acl.CalcMaskMakesValid` | acl/README.org:818-825 | acl_calc_mask() makes valid any ACL that lacks only a mask, and changes no other entry |
| `Acl.CalcMaskIsLeastNeutral` | acl/README.org:818-825 | the calculated mask is the least that takes nothing from any group-class entry |
| `Acl.UnionIsLeast` | acl/README.org:820-822 | the union of the group class is its least upper bound |
| `Acl.InheritIsChmod` | acl/README.org:418-425 | the ACL inherited by a new file is the default ACL after chmod to its own mode cut down by the caller's |
| `Acl.ValidByCount` | acl/README.org:830-837 | validity by counting entries, in the words of acl_valid() |
| `Acl.AclValid` | acl/README.org:830-837 | one pass over the entries decides validity |
| `Acl.UnionOfGroupClass` | acl/README.org:820-822 | the loop over the entries computes the union of the group class |
| `Acl.FileAcl.ChangeMode` | acl/README.org:269-274 | chmod in place, entry by entry |
| `Acl.FileAcl.RecalculateMask` | acl/README.org:818-825 | acl_calc_mask() in place, creating the mask if there is none |
| `Inotify.LossesAreAnnounced` | inotify/README.org:304-318 | for every interleaving of events and reads: unless an overflow event was queued, delivered plus queued events equal the generated ones up to adjacent repeats |
| `Inotify.MarkedIffDiscarded` | inotify/README.org:494-498 | an overflow event has been or will be read if and only if some event of the run found the queue at its limit with another event at its tail |
| `Inotify.KeptIsAccepted` | inotify/README.org:494-498 | overflow or not, delivered plus queued events, markers aside, are the generated ones less those that found no place, up to adjacent repeats |
| `Inotify.MarkedYetComplete` | inotify/README.org:494-498 | runs in which an overflow event is queued and yet, markers aside, nothing is missing up to adjacent repeats |
| `Inotify.KeptIsSubsequence` | inotify/README.org:304-318 | overflow or not, delivered plus queued events, markers aside, are a subsequence of those generated |
| `Inotify.DeliveredIsSubsequence` | inotify/README.org:304-306 | so are the delivered ones |
| `Inotify.QueueHasNoRepeats` | inotify/README.org:312-318 | in every run no two neighbouring events of the queue are equal |
| `Inotify.EnqueueOutcome` | inotify/README.org:312-318 | a new event is merged, queued or replaced by an overflow event, case by case |
| `Inotify.NameFieldIsLeast` | inotify/README.org:278-286 | the name field is the least multiple of the padding unit that holds the name and its null byte, and empty without a name |
| `Inotify.QueueIsBounded` | inotify/README.org:494-498 | the queue never exceeds its limit by more than one overflow event |
| `Inotify.FitIsLargest` | inotify/README.org:297-299 | a read takes as many whole events as there are and will fit |
| `Inotify.ReadReturnsTen` | inotify/README.org:292-299 | with padding to a unit that divides NAME_MAX + 1, a read of BUF_LEN bytes returns at least ten events or all there are |
| `Inotify.HeaderOfPacked` | inotify/README.org:282-286 | a packed event is read back field by field, whatever follows it |
| `Inotify.RecordInBuffer` | inotify/README.org:282-286 | where the k-th event lies in the buffer, and that it is found there |
| `Inotify.WalkBuffer` | inotify/README.org:402-407 | the loop meets every packed event once, in order, and ends exactly at the end of what was read, for any names and padding |
| `Inotify.Instance.Notify` | inotify/README.org:312-318 | coalescing, queueing or overflow in place |
| `Inotify.Instance.ReadInto` | inotify/README.org:287-299 | the bytes that read() stores, what stays queued, and when it fails with EAGAIN or EINVAL |
| `Inotify.Instance.ReadAndWalk` | inotify/README.org:390-407 | what one round of the program's loop processes is exactly what left the queue |
| `Inotify.Instance.PerformAll` | inotify/README.org:304-318 | any sequence of events and reads in place delivers and leaves queued what the rules say |
| `Ext2.PathLeadsBack` | filesys/README.org:300-318 | every block number below the capacity has a valid pointer path that leads back to it |
| `Ext2.FileBlockLeadsBack` | filesys/README.org:300-318 | every valid path belongs to a block number below the capacity, whose path it is |
| `Ext2.PathIs` | filesys/README.org:300-310 | the pointers to follow to a block, written out for direct, single, double and triple indirect blocks |
| `Ext2.HoleReadsZero` | filesys/README.org:377-380 | a hole reads as null bytes |
| `Ext2.CapacityIs` | filesys/README.org:367-371 | the capacity is 12 + p + p² + p³ blocks for p pointers to a block |
| `Ext2.FollowIsInjective` | filesys/README.org:300-310 | no two pointer paths lead to the same disk block |
| `Ext2.LeavesAreUnshared` | filesys/README.org:300-310 | no data block serves two file blocks |
| `Ext2.AttachedKeepsWellFormed` | filesys/README.org:377-380 | hanging a blank block into a hole keeps the pointer tree well formed |
| `Ext2.AttachedKeepsContents` | filesys/README.org:377-380 | and changes nothing that a reader sees |
| `Ext2.AttachedFills` | filesys/README.org:377-380 | a block attached in a hole fills that hole and no other: of all pointer paths exactly one newly leads somewhere |
| `Ext2.PutWritesOneBlock` | filesys/README.org:300-318 | filling a data block changes one file block and moves none |
| `Ext2.FourEachSuffice` | filesys/README.org:300-310 | four free blocks for each write are always enough for writes within the capacity |
| `Ext2.Ext2File.constructor` | filesys/README.org:377-380 | a new file has no blocks and reads as zeros |
| `Ext2.Ext2File.ReadBlock` | filesys/README.org:314-316 | following the pointers one by one gives the block's contents, zeros for a hole |
| `Ext2.Ext2File.Allocate` | filesys/README.org:377-380 | allocation succeeds exactly if there are as many free blocks as pointers missing on the path, takes that many and fills those holes and no others; contents never change and no block is lost, even when it fails half way |
| `Ext2.Ext2File.WriteBlock` | filesys/README.org:300-318 | EFBIG exactly beyond the capacity, ENOSPC exactly if fewer blocks are free than are missing on the path; otherwise the write is done, changes one block and no other, and leaves other holes holes |
| `Ext2.Ext2File.WriteAll` | filesys/README.org:311-318 | after any sequence of writes the file equals a sparse array after those done, and the first k are done exactly if they are within the capacity and the free blocks cover what is missing on their paths, each block counted once |

## Left out

- Zombies and wait(): an exited process is gone at once; a stopped process is not kept from taking steps, which only adds runs.
- The default action of SIGHUP: a process that it kills takes an exit step of its own later.
- Controlling terminals, foreground groups, tcsetpgrp() and the EIO that replaces SIGTTIN and SIGTTOU.
- Pathname resolution, symbolic links as such, permissions of directories, mount points, the sticky bit and chroot().
- Programs that write outside the bytes handed out to them, and so over lengths and links, and the alignment of heap start and blocks.
- calloc(), memalign(), alloca(), the debugging facilities and memory mappings of large blocks: they would add only easy members.
- Group IDs, supplementary groups and capabilities: the group rules repeat those for users.
- setfacl and getfacl, the text forms of ACLs and the handle-based API.
- Watches, event masks and cookies' origin, blocking reads, dnotify: events are given, and a read of an empty queue returns EAGAIN.
- Ext2: one file with its pool of free blocks; truncation, block groups and writes of part of a block are not modelled. Pointer blocks carry their level, which a real disk leaves implicit in the path.
- umask, chown, file times and i-node flags of the files chapter: they take part in none of the properties above.
- The C programs that the notes link to, and the chapters without an algorithm of their own.
