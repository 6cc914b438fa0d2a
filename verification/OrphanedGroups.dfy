/** Orphaned process groups over whole runs (pgsjc/README.org, section 34.7.4):
    which calls can end the orphanhood of a session leader's group, and which
    can leave a stopped process in an orphaned group, where nobody resumes it. */
module OrphanedGroups {
  import opened Sessions

  // ----- What each call does to the anchors of a group -----

  lemma ForkKeepsOrphans(t: Table, c: Pid, child: Pid, g: Pid)
    requires Parents(t) && c in t
    ensures Orphaned(Fork(t, c, child), g) == Orphaned(t, g)
  {
    var t' := Fork(t, c, child);
    assert forall m :: m in t ==> Anchors(t', m, g) == Anchors(t, m, g);
    assert child !in t && child in t' ==> !Anchors(t', child, g);
  }

  /** What setsid() takes from the other groups is the caller, as a member with
      a parent outside and as such a parent; it gives them nothing. */
  lemma SetsidAnchors(t: Table, c: Pid, m: Pid, g: Pid)
    requires Hierarchy(t) && c in t && MayLeadSession(t, c)
    ensures Anchors(Setsid(t, c), m, g) <==> Anchors(t, m, g) && m != c && t[m].ppid != c
  {}

  /** The parent of `p` is in the session of `p`, outside group `g`. */
  predicate ParentOutside(t: Table, p: Pid, g: Pid) {
    p in t && t[p].ppid in t && t[t[p].ppid].sid == t[p].sid && t[t[p].ppid].pgid != g
  }

  /** setpgid() succeeds and takes `p` to another group than its own. */
  predicate Moves(t: Table, c: Pid, pid: Pid, pgid: Pid) {
    && c in t && SetpgidStatus(t, c, pid, pgid) == Success
    && t[Target(c, pid)].pgid != NewGroup(c, pid, pgid)
  }

  lemma SetpgidAnchors(t: Table, c: Pid, pid: Pid, pgid: Pid, m: Pid, g: Pid)
    requires Hierarchy(t) && Moves(t, c, pid, pgid)
    ensures var p, g1 := Target(c, pid), NewGroup(c, pid, pgid);
            Anchors(Setpgid(t, c, pid, pgid), m, g) <==>
              if m == p then g == g1 && ParentOutside(t, p, g1)
              else if m in t && t[m].ppid == p then t[m].pgid == g != g1 && t[m].sid == t[p].sid
              else Anchors(t, m, g)
  {}

  // ----- The group of a session leader -----

  /** Group `q` is that of the leader of session `q`, who may have exited: its
      ID is not given out again while the group or the session exists. */
  ghost predicate LeaderGroup(t: Table, q: Pid) {
    && (q in t ==> t[q].sid == q)
    && (forall m :: m in t && t[m].pgid == q ==> t[m].sid == q)
  }

  /** A setpgid() that takes a process whose parent is elsewhere in the session
      into the group, or takes the parent of a member out of it. */
  ghost predicate EndsOrphanhood(t: Table, call: Call, q: Pid) {
    && call.DoSetpgid? && Moves(t, call.c, call.pid, call.pgid)
    && var p, g1 := Target(call.c, call.pid), NewGroup(call.c, call.pid, call.pgid);
       || (g1 == q && ParentOutside(t, p, q))
       || (t[p].pgid == q && exists m :: m in t && m != p && t[m].ppid == p && t[m].pgid == q)
  }

  lemma SetpgidEndsIff(t: Table, c: Pid, pid: Pid, pgid: Pid, q: Pid)
    requires Hierarchy(t) && LeaderGroup(t, q) && Orphaned(t, q) && Moves(t, c, pid, pgid)
    ensures !Orphaned(Setpgid(t, c, pid, pgid), q) <==> EndsOrphanhood(t, DoSetpgid(c, pid, pgid), q)
  {
    var p, g1, t' := Target(c, pid), NewGroup(c, pid, pgid), Setpgid(t, c, pid, pgid);
    if m :| m in t' && Anchors(t', m, q) {
      SetpgidAnchors(t, c, pid, pgid, m, q);
      assert !Anchors(t, m, q);
    } else {
      SetpgidAnchors(t, c, pid, pgid, p, q);
      forall m | m in t && m != p && t[m].ppid == p && t[m].pgid == q ensures t[p].pgid != q {
        SetpgidAnchors(t, c, pid, pgid, m, q);
      }
    }
  }

  /** A parent that exits is replaced by init, which is in no other session. */
  lemma ExitKeepsOrphaned(t: Table, c: Pid, q: Pid)
    requires Hierarchy(t) && c in t && LeaderGroup(t, q) && Orphaned(t, q)
    ensures Orphaned(Exit(t, c), q)
  {
    if c != INIT {
      ExitOrphans(t, c, q);
      var t' := Reparented(t, c);
      forall m | m in t' ensures !Anchors(t', m, q) {
        assert !Anchors(t, m, q);
      }
    }
  }

  lemma SetsidKeepsOrphaned(t: Table, c: Pid, q: Pid)
    requires Hierarchy(t) && c in t && Orphaned(t, q)
    ensures Orphaned(Setsid(t, c), q)
  {}

  /** Exactly which call ends the orphanhood of a session leader's group, told
      from the table before the call: no fork, exec, exit, setsid, signal or handler. */
  lemma OrphanhoodEndsIff(t: Table, call: Call, q: Pid)
    requires Hierarchy(t) && LeaderGroup(t, q) && Orphaned(t, q)
    ensures !Orphaned(Step(t, call), q) <==> EndsOrphanhood(t, call, q)
  {
    if call.c in t {
      if call.DoFork? {
        ForkKeepsOrphans(t, call.c, call.child, q);
      } else if call.DoExec? {
        SameShapeKeeps(t, Exec(t, call.c));
      } else if call.DoExit? {
        ExitKeepsOrphaned(t, call.c, q);
      } else if call.DoSetpgid? {
        SetpgidEndsOrNot(t, call.c, call.pid, call.pgid, q);
      } else if call.DoSetsid? {
        SetsidKeepsOrphaned(t, call.c, q);
      } else if call.DoKill? {
        SameShapeKeeps(t, Deliver(t, call.c, call.sig));
      } else {
        SameShapeKeeps(t, Handle(t, call.c, call.handles));
      }
    }
  }

  lemma SetpgidEndsOrNot(t: Table, c: Pid, pid: Pid, pgid: Pid, q: Pid)
    requires Hierarchy(t) && c in t && LeaderGroup(t, q) && Orphaned(t, q)
    ensures !Orphaned(Setpgid(t, c, pid, pgid), q) <==> EndsOrphanhood(t, DoSetpgid(c, pid, pgid), q)
  {
    if Moves(t, c, pid, pgid) {
      SetpgidEndsIff(t, c, pid, pgid, q);
    } else {
      assert Setpgid(t, c, pid, pgid) == t;
    }
  }

  lemma SameShapeLeaderGroup(t: Table, t': Table, q: Pid)
    requires SameShape(t, t') && LeaderGroup(t, q)
    ensures LeaderGroup(t', q)
  {}

  lemma SetpgidKeepsLeaderGroup(t: Table, c: Pid, pid: Pid, pgid: Pid, q: Pid)
    requires Hierarchy(t) && LeaderGroup(t, q) && c in t
    ensures LeaderGroup(Setpgid(t, c, pid, pgid), q)
  {}

  lemma ExitKeepsLeaderGroup(t: Table, c: Pid, q: Pid)
    requires LeaderGroup(t, q) && c in t && c != INIT
    ensures LeaderGroup(Exit(t, c), q)
  {}

  lemma StaysLeaderGroup(t: Table, call: Call, q: Pid)
    requires Hierarchy(t) && LeaderGroup(t, q) && !(call.DoFork? && call.child == q)
    ensures LeaderGroup(Step(t, call), q)
  {
    if call.c in t {
      if call.DoExec? {
        SameShapeLeaderGroup(t, Exec(t, call.c), q);
      } else if call.DoExit? && call.c != INIT {
        ExitKeepsLeaderGroup(t, call.c, q);
      } else if call.DoSetpgid? {
        SetpgidKeepsLeaderGroup(t, call.c, call.pid, call.pgid, q);
      } else if call.DoKill? {
        SameShapeLeaderGroup(t, Deliver(t, call.c, call.sig), q);
      } else if call.DoHandle? {
        SameShapeLeaderGroup(t, Handle(t, call.c, call.handles), q);
      }
    }
  }

  /** The group is orphaned at the start and after each of the calls. */
  ghost predicate AlwaysOrphaned(t: Table, calls: seq<Call>, q: Pid) {
    && Orphaned(Run(t, calls), q)
    && (calls != [] ==> AlwaysOrphaned(t, calls[..|calls| - 1], q))
  }

  /** None of the calls, in the state in which it is made, ends orphanhood. */
  ghost predicate NeverEnded(t: Table, calls: seq<Call>, q: Pid) {
    calls != [] ==>
      var before := calls[..|calls| - 1];
      NeverEnded(t, before, q) && !EndsOrphanhood(Run(t, before), calls[|calls| - 1], q)
  }

  /** No call of the run gives ID `q` to a new process. */
  predicate NotReused(calls: seq<Call>, q: Pid) {
    forall k :: 0 <= k < |calls| && calls[k].DoFork? ==> calls[k].child != q
  }

  lemma {:induction false} LeaderGroupForever(t: Table, calls: seq<Call>, q: Pid)
    requires Hierarchy(t) && LeaderGroup(t, q) && NotReused(calls, q)
    ensures LeaderGroup(Run(t, calls), q)
  {
    if calls != [] {
      var before := calls[..|calls| - 1];
      LeaderGroupForever(t, before, q);
      HierarchyForever(t, before);
      StaysLeaderGroup(Run(t, before), calls[|calls| - 1], q);
    }
  }

  lemma {:induction false} OrphanedWhile(t: Table, calls: seq<Call>, q: Pid)
    requires Hierarchy(t) && LeaderGroup(t, q) && Orphaned(t, q) && NotReused(calls, q)
    ensures AlwaysOrphaned(t, calls, q) <==> NeverEnded(t, calls, q)
  {
    if calls != [] {
      var before := calls[..|calls| - 1];
      OrphanedWhile(t, before, q);
      if AlwaysOrphaned(t, before, q) {
        HierarchyForever(t, before);
        LeaderGroupForever(t, before, q);
        OrphanhoodEndsIff(Run(t, before), calls[|calls| - 1], q);
      }
    }
  }

  /** From its leader's setsid() on, even beyond the leader's exit, the group is
      orphaned all the time exactly if none of those setpgid() calls is made. */
  lemma LeaderOrphanedUntil(t: Table, q: Pid, calls: seq<Call>)
    requires Hierarchy(t) && q in t && MayLeadSession(t, q) && NotReused(calls, q)
    ensures AlwaysOrphaned(Setsid(t, q), calls, q) <==> NeverEnded(Setsid(t, q), calls, q)
  {
    SetsidKeepsHierarchy(t, q);
    NewSessionIsOrphaned(t, q);
    OrphanedWhile(Setsid(t, q), calls, q);
  }

  /** Leader 2 of session 2 has child 3 in group 3, which puts its own child 4
      back into group 2: 4's parent 3 is in the session and not in the group. */
  const LEADER_REJOINED := [
    DoFork(INIT, 2), DoSetsid(2), DoFork(2, 3), DoSetpgid(3, 0, 0), DoFork(3, 4), DoSetpgid(3, 4, 2)]

  function InSession2(ppid: Pid, pgid: Pid): Proc { Proc(pgid, 2, ppid, false, false, false, []) }

  lemma LeaderRejoinedStart()
    ensures Run(BOOT, LEADER_REJOINED[..3]) == BOOT[2 := InSession2(INIT, 2)][3 := InSession2(2, 2)]
  {
    var calls := LEADER_REJOINED;
    assert Run(BOOT, calls[..1]) == BOOT[2 := Born(INIT, INIT)] by { RunOne(BOOT, calls, 0); }
    assert Run(BOOT, calls[..2]) == BOOT[2 := InSession2(INIT, 2)] by { RunOne(BOOT, calls, 1); }
    RunOne(BOOT, calls, 2);
  }

  lemma LeaderRejoinedMiddle()
    ensures Run(BOOT, LEADER_REJOINED[..5]) ==
              BOOT[2 := InSession2(INIT, 2)][3 := InSession2(2, 3)][4 := InSession2(3, 3)]
  {
    var calls := LEADER_REJOINED;
    LeaderRejoinedStart();
    assert Run(BOOT, calls[..4]) == BOOT[2 := InSession2(INIT, 2)][3 := InSession2(2, 3)] by {
      RunOne(BOOT, calls, 3);
    }
    RunOne(BOOT, calls, 4);
  }

  lemma LeaderRejoinedTable()
    ensures Run(BOOT, LEADER_REJOINED) ==
              BOOT[2 := InSession2(INIT, 2)][3 := InSession2(2, 3)][4 := InSession2(3, 2)]
  {
    var calls := LEADER_REJOINED;
    LeaderRejoinedMiddle();
    var t := Run(BOOT, calls[..5]);
    assert GroupInSession(t, 2, 2) by { assert t[2].pgid == 2; }
    RunOne(BOOT, calls, 5);
    assert calls[..6] == calls;
  }

  lemma LeaderGroupNeedNotBeOrphaned()
    ensures var t := Run(BOOT, LEADER_REJOINED); 2 in t && t[2].sid == 2 && !Orphaned(t, 2)
  {
    LeaderRejoinedTable();
    assert Anchors(Run(BOOT, LEADER_REJOINED), 4, 2);
  }


  // ----- No stopped process is left in an orphaned group -----

  ghost predicate NoneStranded(t: Table) {
    forall p :: p in t && t[p].stopped ==> !Orphaned(t, t[p].pgid)
  }

  lemma ExitStrandsNone(t: Table, c: Pid)
    requires NoneStranded(t) && c in t
    ensures NoneStranded(Exit(t, c))
  {
    if c != INIT {
      var t', t'' := Reparented(t, c), Exit(t, c);
      ExitShape(t, c);
      SameShapeKeeps(t', t'');
      forall p | p in t'' && t''[p].stopped ensures !Orphaned(t'', t''[p].pgid) {
        var g := t'[p].pgid;
        assert t'[p].stopped && t[p].stopped && !Orphaned(t, g);
        assert HasStopped(t', g);
      }
    }
  }

  lemma ForkStrandsNone(t: Table, c: Pid, child: Pid)
    requires Parents(t) && NoneStranded(t) && c in t
    ensures NoneStranded(Fork(t, c, child))
  {
    var t' := Fork(t, c, child);
    forall p | p in t' && t'[p].stopped ensures !Orphaned(t', t'[p].pgid) {
      ForkKeepsOrphans(t, c, child, t[p].pgid);
    }
  }

  lemma DeliverStrandsNone(t: Table, p: Pid, sig: Signal)
    requires NoneStranded(t) && p in t && sig != SIGSTOP
    ensures NoneStranded(Deliver(t, p, sig))
  {
    SameShapeKeeps(t, Deliver(t, p, sig));
  }

  /** SIGSTOP is the one signal that strands its target, and does so exactly
      when the target's group is already orphaned. */
  lemma SigstopStrandsIff(t: Table, p: Pid)
    requires NoneStranded(t) && p in t
    ensures NoneStranded(Deliver(t, p, SIGSTOP)) <==> !Orphaned(t, t[p].pgid)
  {
    var t' := Deliver(t, p, SIGSTOP);
    SameShapeKeeps(t, t');
    assert t'[p].stopped;
  }

  /** What setsid() by `c` asks for if it is to strand nobody. */
  ghost predicate LeavesWatched(t: Table, c: Pid) {
    forall p :: p in t && t[p].stopped ==>
                  p != c && exists m :: Anchors(t, m, t[p].pgid) && m != c && t[m].ppid != c
  }

  /** Exactly when setsid() strands nobody: the caller is running, and every
      stopped process is in a group anchored by some member other than the
      caller and its children. */
  lemma SetsidStrandsIff(t: Table, c: Pid)
    requires Hierarchy(t) && c in t && MayLeadSession(t, c)
    ensures NoneStranded(Setsid(t, c)) <==> LeavesWatched(t, c)
  {
    var t' := Setsid(t, c);
    forall m, g ensures Anchors(t', m, g) <==> Anchors(t, m, g) && m != c && t[m].ppid != c {
      SetsidAnchors(t, c, m, g);
    }
    forall p | p in t && t[p].stopped
      ensures !Orphaned(t', t'[p].pgid) <==>
                p != c && exists m :: Anchors(t, m, t[p].pgid) && m != c && t[m].ppid != c
    {
      if p == c {
        NewSessionIsOrphaned(t, c);
      } else if m :| Anchors(t, m, t[p].pgid) && m != c && t[m].ppid != c {
        assert m in t' && Anchors(t', m, t'[p].pgid);
      }
    }
  }

  /** What moving `p` to group `g` asks for: if stopped processes stay behind,
      then so does a member with a parent outside or a child of `p`; if there
      are any in the new group, then `p` has its parent outside it, or another
      member has a parent there other than `p`. */
  ghost predicate MovesWatched(t: Table, p: Pid, g: Pid)
    requires p in t
  {
    && (StoppedBehind(t, p) ==> WatchedBehind(t, p))
    && (t[p].stopped || HasStopped(t, g) ==> WatchedAhead(t, p, g))
  }

  ghost predicate StoppedBehind(t: Table, p: Pid)
    requires p in t
  {
    exists s :: s in t && s != p && t[s].pgid == t[p].pgid && t[s].stopped
  }

  ghost predicate WatchedBehind(t: Table, p: Pid)
    requires p in t
  {
    var g0 := t[p].pgid;
    exists m :: m in t && m != p && t[m].pgid == g0 && (Anchors(t, m, g0) || t[m].ppid == p)
  }

  ghost predicate WatchedAhead(t: Table, p: Pid, g: Pid) {
    ParentOutside(t, p, g) || exists m :: Anchors(t, m, g) && m != p && t[m].ppid != p
  }

  lemma OldGroupOrphanedIff(t: Table, c: Pid, pid: Pid, pgid: Pid)
    requires Hierarchy(t) && Moves(t, c, pid, pgid)
    ensures var p := Target(c, pid); !Orphaned(Setpgid(t, c, pid, pgid), t[p].pgid) <==> WatchedBehind(t, p)
  {
    var p, t' := Target(c, pid), Setpgid(t, c, pid, pgid);
    forall m ensures Anchors(t', m, t[p].pgid) <==>
                       m in t && m != p && t[m].pgid == t[p].pgid && (Anchors(t, m, t[p].pgid) || t[m].ppid == p)
    {
      SetpgidAnchors(t, c, pid, pgid, m, t[p].pgid);
    }
  }

  lemma NewGroupOrphanedIff(t: Table, c: Pid, pid: Pid, pgid: Pid)
    requires Hierarchy(t) && Moves(t, c, pid, pgid)
    ensures var p, g := Target(c, pid), NewGroup(c, pid, pgid);
            !Orphaned(Setpgid(t, c, pid, pgid), g) <==> WatchedAhead(t, p, g)
  {
    var p, g, t' := Target(c, pid), NewGroup(c, pid, pgid), Setpgid(t, c, pid, pgid);
    forall m ensures Anchors(t', m, g) <==>
                       if m == p then ParentOutside(t, p, g) else Anchors(t, m, g) && t[m].ppid != p
    {
      SetpgidAnchors(t, c, pid, pgid, m, g);
    }
  }

  lemma OtherGroupsUnchanged(t: Table, c: Pid, pid: Pid, pgid: Pid, g: Pid)
    requires Hierarchy(t) && Moves(t, c, pid, pgid)
    requires g != t[Target(c, pid)].pgid && g != NewGroup(c, pid, pgid)
    ensures Orphaned(Setpgid(t, c, pid, pgid), g) == Orphaned(t, g)
  {
    var t' := Setpgid(t, c, pid, pgid);
    forall m ensures Anchors(t', m, g) == Anchors(t, m, g) {
      SetpgidAnchors(t, c, pid, pgid, m, g);
    }
  }

  /** Who could be stranded by a move, if all other groups are as they were. */
  lemma StrandedByMove(t: Table, t': Table, p: Pid, g: Pid)
    requires p in t && t' == t[p := t[p].(pgid := g)] && g != t[p].pgid
    requires forall s :: s in t && t[s].stopped && t[s].pgid != t[p].pgid && t[s].pgid != g ==> !Orphaned(t', t[s].pgid)
    ensures NoneStranded(t') <==>
              && (StoppedBehind(t, p) ==> !Orphaned(t', t[p].pgid))
              && (t[p].stopped || HasStopped(t, g) ==> !Orphaned(t', g))
  {
    if NoneStranded(t') {
      forall s | s in t && s != p && t[s].stopped ensures !Orphaned(t', t[s].pgid) {
        assert t'[s] == t[s];
      }
      assert t'[p].stopped == t[p].stopped;
    }
  }

  /** Exactly when a setpgid() that moves a process strands nobody. */
  lemma SetpgidStrandsIff(t: Table, c: Pid, pid: Pid, pgid: Pid)
    requires Hierarchy(t) && NoneStranded(t) && Moves(t, c, pid, pgid)
    ensures NoneStranded(Setpgid(t, c, pid, pgid)) <==> MovesWatched(t, Target(c, pid), NewGroup(c, pid, pgid))
  {
    var p, g := Target(c, pid), NewGroup(c, pid, pgid);
    OthersNotStranded(t, c, pid, pgid);
    StrandedByMove(t, Setpgid(t, c, pid, pgid), p, g);
    OldGroupOrphanedIff(t, c, pid, pgid);
    NewGroupOrphanedIff(t, c, pid, pgid);
  }

  lemma OthersNotStranded(t: Table, c: Pid, pid: Pid, pgid: Pid)
    requires Hierarchy(t) && NoneStranded(t) && Moves(t, c, pid, pgid)
    ensures var p, g := Target(c, pid), NewGroup(c, pid, pgid);
            forall s :: s in t && t[s].stopped && t[s].pgid != t[p].pgid && t[s].pgid != g ==>
                          !Orphaned(Setpgid(t, c, pid, pgid), t[s].pgid)
  {
    var p, g := Target(c, pid), NewGroup(c, pid, pgid);
    forall s | s in t && t[s].stopped && t[s].pgid != t[p].pgid && t[s].pgid != g
      ensures !Orphaned(Setpgid(t, c, pid, pgid), t[s].pgid)
    {
      OtherGroupsUnchanged(t, c, pid, pgid, t[s].pgid);
    }
  }

  /** The calls that strand nobody, told from the table before the call. */
  ghost predicate StrandsNobody(t: Table, call: Call) {
    call.c in t ==>
      match call
      case DoFork(_, _) => true
      case DoExec(_) => true
      case DoExit(_) => true
      case DoSetpgid(c, pid, pgid) =>
        Moves(t, c, pid, pgid) ==> MovesWatched(t, Target(c, pid), NewGroup(c, pid, pgid))
      case DoSetsid(c) => MayLeadSession(t, c) ==> LeavesWatched(t, c)
      case DoKill(c, sig) => sig == SIGSTOP ==> !Orphaned(t, t[c].pgid)
      case DoHandle(_, _) => true
  }

  // One lemma for each kind of call keeps the proof of `StepStrandsIff` small.

  lemma JobControlStep(t: Table, call: Call)
    requires Hierarchy(t) && NoneStranded(t) && call.c in t && JobControlCall(call)
    ensures NoneStranded(Step(t, call))
  {
    if call.DoFork? {
      ForkStrandsNone(t, call.c, call.child);
    } else if call.DoExec? {
      SameShapeKeeps(t, Exec(t, call.c));
    } else if call.DoExit? {
      ExitStrandsNone(t, call.c);
    } else if call.DoHandle? {
      SameShapeKeeps(t, Handle(t, call.c, call.handles));
    } else {
      DeliverStrandsNone(t, call.c, call.sig);
    }
  }

  lemma SetpgidStep(t: Table, call: Call)
    requires Hierarchy(t) && NoneStranded(t) && call.c in t && call.DoSetpgid?
    ensures NoneStranded(Step(t, call)) <==> StrandsNobody(t, call)
  {
    if Moves(t, call.c, call.pid, call.pgid) {
      SetpgidStrandsIff(t, call.c, call.pid, call.pgid);
    } else {
      assert Setpgid(t, call.c, call.pid, call.pgid) == t;
    }
  }

  lemma SetsidStep(t: Table, call: Call)
    requires Hierarchy(t) && NoneStranded(t) && call.c in t && call.DoSetsid?
    ensures NoneStranded(Step(t, call)) <==> StrandsNobody(t, call)
  {
    if MayLeadSession(t, call.c) {
      SetsidStrandsIff(t, call.c);
    }
  }

  lemma SigstopStep(t: Table, call: Call)
    requires Hierarchy(t) && NoneStranded(t) && call.c in t && call.DoKill? && call.sig == SIGSTOP
    ensures NoneStranded(Step(t, call)) <==> StrandsNobody(t, call)
  {
    SigstopStrandsIff(t, call.c);
  }

  /** Every call strands nobody exactly if its condition holds before it. */
  lemma StepStrandsIff(t: Table, call: Call)
    requires Hierarchy(t) && NoneStranded(t)
    ensures NoneStranded(Step(t, call)) <==> StrandsNobody(t, call)
  {
    if call.c in t {
      if JobControlCall(call) {
        JobControlStep(t, call);
      } else if call.DoSetpgid? {
        SetpgidStep(t, call);
      } else if call.DoSetsid? {
        SetsidStep(t, call);
      } else {
        SigstopStep(t, call);
      }
    }
  }

  /** Nobody is stranded at the start or after any of the calls. */
  ghost predicate NeverStranded(t: Table, calls: seq<Call>) {
    && NoneStranded(Run(t, calls))
    && (calls != [] ==> NeverStranded(t, calls[..|calls| - 1]))
  }

  /** Every call, in the state in which it is made, strands nobody. */
  ghost predicate AllStrandNobody(t: Table, calls: seq<Call>) {
    calls != [] ==>
      var before := calls[..|calls| - 1];
      AllStrandNobody(t, before) && StrandsNobody(Run(t, before), calls[|calls| - 1])
  }

  /** Over every run of all the calls: no stopped process is ever a member of an
      orphaned group if and only if each call meets its condition. */
  lemma {:induction false} NoneStrandedForever(t: Table, calls: seq<Call>)
    requires Hierarchy(t) && NoneStranded(t)
    ensures NeverStranded(t, calls) <==> AllStrandNobody(t, calls)
  {
    if calls != [] {
      var before := calls[..|calls| - 1];
      NoneStrandedForever(t, before);
      if NeverStranded(t, before) {
        HierarchyForever(t, before);
        StepStrandsIff(Run(t, before), calls[|calls| - 1]);
      }
    }
  }

  predicate JobControlCall(call: Call) {
    call.DoFork? || call.DoExec? || call.DoExit? || call.DoHandle? || (call.DoKill? && call.sig != SIGSTOP)
  }

  /** In particular in every run of fork, exec, exit, handlers and signals other
      than SIGSTOP, whatever the state. */
  lemma {:induction false} JobControlStrandsNobody(t: Table, calls: seq<Call>)
    requires Hierarchy(t) && NoneStranded(t)
    requires forall k :: 0 <= k < |calls| ==> JobControlCall(calls[k])
    ensures AllStrandNobody(t, calls) && NeverStranded(t, calls)
  {
    if calls != [] {
      JobControlStrandsNobody(t, calls[..|calls| - 1]);
    }
    NoneStrandedForever(t, calls);
  }

  // ----- Runs that strand a process -----

  /** Process 2 has a child 3, which stops in a group of its own. */
  const CHILD_STOPPED := [DoFork(INIT, 2), DoFork(2, 3), DoSetpgid(3, 0, 0), DoKill(3, SIGTSTP)]

  lemma ChildStoppedStart()
    ensures Run(BOOT, CHILD_STOPPED[..3]) == BOOT[2 := Born(INIT, INIT)][3 := Born(2, 3)]
  {
    var calls := CHILD_STOPPED;
    assert Run(BOOT, calls[..1]) == BOOT[2 := Born(INIT, INIT)] by { RunOne(BOOT, calls, 0); }
    assert Run(BOOT, calls[..2]) == BOOT[2 := Born(INIT, INIT)][3 := Born(2, INIT)] by { RunOne(BOOT, calls, 1); }
    RunOne(BOOT, calls, 2);
  }

  lemma ChildStoppedTable()
    ensures Run(BOOT, CHILD_STOPPED) ==
              BOOT[2 := Born(INIT, INIT)][3 := Born(2, 3).(stopped := true, received := [SIGTSTP])]
  {
    ChildStoppedStart();
    var calls, t := CHILD_STOPPED, Run(BOOT, CHILD_STOPPED[..3]);
    assert Anchors(t, 3, 3);
    RunOne(BOOT, calls, 3);
    assert Step(t, calls[3]) == Deliver(t, 3, SIGTSTP);
    assert t[3].received + [SIGTSTP] == [SIGTSTP];
    assert calls[..4] == calls;
  }

  lemma ChildStoppedAnchors(t: Table)
    requires t.Keys == {INIT, 2, 3} && t[INIT] == BOOT[INIT] && t[2] == Born(INIT, INIT)
    requires t[3] == Born(2, 3).(stopped := true, received := [SIGTSTP])
    ensures forall m, g :: Anchors(t, m, g) <==> m == 3 && g == 3
    ensures NoneStranded(t)
  {
    assert Anchors(t, 3, 3);
  }

  /** Nobody is stranded so far, and the child's parent is all that its group has. */
  lemma ChildStopped(t: Table)
    requires t == Run(BOOT, CHILD_STOPPED)
    ensures t.Keys == {INIT, 2, 3} && t[INIT] == BOOT[INIT] && t[2] == Born(INIT, INIT)
    ensures t[3] == Born(2, 3).(stopped := true, received := [SIGTSTP])
    ensures Hierarchy(t) && NoneStranded(t)
    ensures forall m, g :: Anchors(t, m, g) <==> m == 3 && g == 3
  {
    BootHierarchy();
    HierarchyForever(BOOT, CHILD_STOPPED);
    ChildStoppedTable();
    ChildStoppedAnchors(t);
  }

  /** setsid(), unlike exit, hangs nobody up: the child is stranded when its
      parent leaves the session. */
  lemma SetsidCanStrand()
    ensures var t := Run(BOOT, CHILD_STOPPED);
            2 in t && NoneStranded(t) && MayLeadSession(t, 2) && !NoneStranded(Setsid(t, 2))
  {
    var t := Run(BOOT, CHILD_STOPPED);
    ChildStopped(t);
    SetsidStrandsIff(t, 2);
  }

  /** Nor does setpgid(): the child is stranded when its parent takes it into a
      group that is orphaned. */
  lemma SetpgidCanStrand()
    ensures var t := Run(BOOT, CHILD_STOPPED);
            NoneStranded(t) && Moves(t, 2, 3, INIT) && !NoneStranded(Setpgid(t, 2, 3, INIT))
  {
    var t := Run(BOOT, CHILD_STOPPED);
    ChildStopped(t);
    assert Moves(t, 2, 3, INIT) by {
      assert t[INIT].pgid == INIT && t[INIT].sid == t[2].sid;
      assert GroupInSession(t, INIT, t[2].sid);
    }
    SetpgidStrandsIff(t, 2, 3, INIT);
  }
}
