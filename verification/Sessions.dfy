/** Process groups, sessions and orphaned process groups (pgsjc/README.org,
    sections 34.2, 34.3 and 34.7.4).

    A process table records each process's group, session and parent.  The
    calls below are functions on tables; class `Kernel` performs them in place. */
module Sessions {

  type Pid = nat

  /** init, which adopts orphaned processes and never exits. */
  const INIT: Pid := 1

  datatype Signal = SIGHUP | SIGCONT | SIGSTOP | SIGTSTP | SIGTTIN | SIGTTOU | SIGINT {
    predicate JobControlStop() { SIGTSTP? || SIGTTIN? || SIGTTOU? }
  }

  /** `handlesStop`: a handler is installed for the job-control stop signals.
      `received`: the signals delivered so far. */
  datatype Proc = Proc(pgid: Pid, sid: Pid, ppid: Pid, execed: bool,
                       stopped: bool, handlesStop: bool, received: seq<Signal>)

  type Table = map<Pid, Proc>

  datatype Status = Success | ESRCH | EPERM | EACCES

  const BOOT: Table := map[INIT := Proc(INIT, INIT, 0, true, false, false, [])]

  // ----- The calls -----

  /** A new process's ID is that of no process, group or session in existence. */
  predicate Unused(t: Table, pid: Pid) {
    pid != 0 && pid !in t && forall q :: q in t ==> t[q].pgid != pid && t[q].sid != pid
  }

  function Fork(t: Table, c: Pid, child: Pid): Table
    requires c in t
  {
    if Unused(t, child) then
      t[child := Proc(t[c].pgid, t[c].sid, c, false, false, t[c].handlesStop, [])]
    else t
  }

  function Exec(t: Table, c: Pid): Table
    requires c in t
  {
    t[c := t[c].(execed := true, handlesStop := false)]
  }

  predicate GroupInSession(t: Table, g: Pid, s: Pid) {
    exists q :: q in t && t[q].pgid == g && t[q].sid == s
  }

  /** Arguments 0 stand for the caller and for the target's own ID. */
  function Target(c: Pid, pid: Pid): Pid { if pid == 0 then c else pid }

  function NewGroup(c: Pid, pid: Pid, pgid: Pid): Pid { if pgid == 0 then Target(c, pid) else pgid }

  function SetpgidStatus(t: Table, c: Pid, pid: Pid, pgid: Pid): Status
    requires c in t
  {
    var p, g := Target(c, pid), NewGroup(c, pid, pgid);
    if p !in t || (p != c && t[p].ppid != c) then ESRCH
    else if g != p && !(t[p].sid == t[c].sid && GroupInSession(t, g, t[c].sid)) then EPERM
    else if t[p].sid == p then EPERM
    else if p != c && t[p].execed then EACCES
    else Success
  }

  function Setpgid(t: Table, c: Pid, pid: Pid, pgid: Pid): Table
    requires c in t
  {
    var p := Target(c, pid);
    if SetpgidStatus(t, c, pid, pgid) == Success then t[p := t[p].(pgid := NewGroup(c, pid, pgid))] else t
  }

  /** setsid() fails if the caller leads its group, or if any other process is
      still in a group that bears the caller's ID (XSH volume of POSIX.1-2008). */
  predicate MayLeadSession(t: Table, c: Pid) { forall q :: q in t ==> t[q].pgid != c }

  function NewSession(t: Table, c: Pid): Table
    requires c in t
  {
    t[c := t[c].(pgid := c, sid := c)]
  }

  function Setsid(t: Table, c: Pid): Table
    requires c in t
  {
    if MayLeadSession(t, c) then NewSession(t, c) else t
  }

  /** The guard as worded in section 34.3: only the caller's own group counts. */
  function WordedSetsid(t: Table, c: Pid): Table
    requires c in t
  {
    if t[c].pgid != c then NewSession(t, c) else t
  }

  // ----- Orphaned process groups -----

  /** Some member has a parent in the same session but in a different group. */
  predicate Anchors(t: Table, m: Pid, g: Pid) {
    && m in t && t[m].pgid == g
    && t[m].ppid in t && t[t[m].ppid].sid == t[m].sid && t[t[m].ppid].pgid != g
  }

  predicate Orphaned(t: Table, g: Pid) { forall m :: m in t ==> !Anchors(t, m, g) }

  predicate HasStopped(t: Table, g: Pid) { exists m :: m in t && t[m].pgid == g && t[m].stopped }

  /** The exiting process is gone and its children are adopted by init. */
  function Reparented(t: Table, c: Pid): Table {
    map p | p in t && p != c :: if t[p].ppid == c then t[p].(ppid := INIT) else t[p]
  }

  predicate NewlyOrphaned(t: Table, c: Pid, g: Pid) {
    !Orphaned(t, g) && Orphaned(Reparented(t, c), g)
  }

  /** SIGHUP, then SIGCONT, which resumes a stopped process. */
  function Hangup(p: Proc): Proc { p.(stopped := false, received := p.received + [SIGHUP, SIGCONT]) }

  /** Every group that the exit orphans and that has a stopped member is hung up. */
  function Exit(t: Table, c: Pid): Table
    requires c in t
  {
    if c == INIT then t
    else
      var t' := Reparented(t, c);
      map p | p in t' ::
        if NewlyOrphaned(t, c, t'[p].pgid) && HasStopped(t', t'[p].pgid) then Hangup(t'[p]) else t'[p]
  }

  /** Stop signals would stop a member of an orphaned group for ever and are
      discarded; SIGSTOP cannot be. */
  function Deliver(t: Table, p: Pid, sig: Signal): Table
    requires p in t
  {
    if sig.JobControlStop() && !t[p].handlesStop && Orphaned(t, t[p].pgid) then t
    else
      var stopped := if sig == SIGSTOP || (sig.JobControlStop() && !t[p].handlesStop) then true
                     else if sig == SIGCONT then false
                     else t[p].stopped;
      t[p := t[p].(stopped := stopped, received := t[p].received + [sig])]
  }

  /** A handler for the job-control stop signals is installed or taken away. */
  function Handle(t: Table, p: Pid, handles: bool): Table
    requires p in t
  {
    t[p := t[p].(handlesStop := handles)]
  }

  datatype Call =
    | DoFork(c: Pid, child: Pid)
    | DoExec(c: Pid)
    | DoExit(c: Pid)
    | DoSetpgid(c: Pid, pid: Pid, pgid: Pid)
    | DoSetsid(c: Pid)
    | DoKill(c: Pid, sig: Signal)
    | DoHandle(c: Pid, handles: bool)

  /** One step of the system; `c` is the process that acts or is signalled. */
  function Step(t: Table, call: Call): Table {
    if call.c !in t then t
    else
      match call
      case DoFork(c, child) => Fork(t, c, child)
      case DoExec(c) => Exec(t, c)
      case DoExit(c) => Exit(t, c)
      case DoSetpgid(c, pid, pgid) => Setpgid(t, c, pid, pgid)
      case DoSetsid(c) => Setsid(t, c)
      case DoKill(c, sig) => Deliver(t, c, sig)
      case DoHandle(c, handles) => Handle(t, c, handles)
  }

  function Run(t: Table, calls: seq<Call>): Table {
    if calls == [] then t else Step(Run(t, calls[..|calls| - 1]), calls[|calls| - 1])
  }

  // ----- The two-level hierarchy -----

  /** All members of a group are in one session. */
  ghost predicate TwoLevel(t: Table) {
    forall p, q :: p in t && q in t && t[p].pgid == t[q].pgid ==> t[p].sid == t[q].sid
  }

  /** A live process shares its session with the group that bears its ID. */
  ghost predicate LeadersInSession(t: Table) {
    forall p, q :: p in t && q in t && t[p].pgid == q ==> t[p].sid == t[q].sid
  }

  /** A live process whose ID names a session leads it and its own group. */
  ghost predicate SessionLeaders(t: Table) {
    && (forall p, q :: p in t && q in t && t[p].sid == q ==> t[q].sid == q)
    && (forall q :: q in t && t[q].sid == q ==> t[q].pgid == q)
  }

  ghost predicate Parents(t: Table) {
    && 0 !in t && INIT in t && t[INIT].ppid == 0 && t[INIT].sid == INIT
    && (forall p :: p in t && p != INIT ==> t[p].ppid in t && t[p].ppid != p)
  }

  /** The parent of a session leader is not in its session. */
  ghost predicate LeadersDetached(t: Table)
    requires Parents(t)
  {
    forall q :: q in t && q != INIT && t[q].sid == q ==> t[t[q].ppid].sid != q
  }

  ghost predicate Hierarchy(t: Table) {
    TwoLevel(t) && LeadersInSession(t) && SessionLeaders(t) && Parents(t) && LeadersDetached(t)
  }

  /** Same processes, groups, sessions and parents. */
  ghost predicate SameShape(t: Table, t': Table) {
    && t.Keys == t'.Keys
    && forall p :: p in t ==> t[p].pgid == t'[p].pgid && t[p].sid == t'[p].sid && t[p].ppid == t'[p].ppid
  }

  lemma SameShapeKeeps(t: Table, t': Table)
    requires SameShape(t, t')
    ensures Hierarchy(t) ==> Hierarchy(t')
    ensures forall g :: Orphaned(t, g) == Orphaned(t', g)
  {}

  lemma ForkKeepsHierarchy(t: Table, c: Pid, child: Pid)
    requires Hierarchy(t) && c in t
    ensures Hierarchy(Fork(t, c, child))
  {}

  lemma SetpgidKeepsHierarchy(t: Table, c: Pid, pid: Pid, pgid: Pid)
    requires Hierarchy(t) && c in t
    ensures Hierarchy(Setpgid(t, c, pid, pgid))
  {}

  lemma SetsidKeepsHierarchy(t: Table, c: Pid)
    requires Hierarchy(t) && c in t
    ensures Hierarchy(Setsid(t, c))
  {}

  lemma ExitKeepsHierarchy(t: Table, c: Pid)
    requires Hierarchy(t) && c in t
    ensures Hierarchy(Exit(t, c))
  {
    if c != INIT {
      ReparentedKeepsHierarchy(t, c);
      ExitShape(t, c);
      SameShapeKeeps(Reparented(t, c), Exit(t, c));
    }
  }

  lemma ReparentedKeepsHierarchy(t: Table, c: Pid)
    requires Hierarchy(t) && c in t && c != INIT
    ensures Hierarchy(Reparented(t, c))
  {}

  lemma ExitShape(t: Table, c: Pid)
    requires c in t && c != INIT
    ensures SameShape(Reparented(t, c), Exit(t, c))
  {}

  lemma StepKeepsHierarchy(t: Table, call: Call)
    requires Hierarchy(t)
    ensures Hierarchy(Step(t, call))
  {
    if call.c in t {
      if call.DoFork? {
        ForkKeepsHierarchy(t, call.c, call.child);
      } else if call.DoExec? {
        SameShapeKeeps(t, Exec(t, call.c));
      } else if call.DoExit? {
        ExitKeepsHierarchy(t, call.c);
      } else if call.DoSetpgid? {
        SetpgidKeepsHierarchy(t, call.c, call.pid, call.pgid);
      } else if call.DoSetsid? {
        SetsidKeepsHierarchy(t, call.c);
      } else if call.DoKill? {
        SameShapeKeeps(t, Deliver(t, call.c, call.sig));
      } else {
        SameShapeKeeps(t, Handle(t, call.c, call.handles));
      }
    }
  }

  /** In every run all members of a group stay in one session and every session
      leader leads its own group. */
  lemma {:induction false} HierarchyForever(t: Table, calls: seq<Call>)
    requires Hierarchy(t)
    ensures Hierarchy(Run(t, calls))
  {
    if calls != [] {
      HierarchyForever(t, calls[..|calls| - 1]);
      StepKeepsHierarchy(Run(t, calls[..|calls| - 1]), calls[|calls| - 1]);
    }
  }

  lemma BootHierarchy()
    ensures Hierarchy(BOOT)
  {}

  /** Exactly when the worded guard is enough: when it lets the call through,
      the hierarchy survives if and only if no other process is in the group
      that bears the caller's ID. */
  lemma WordedGuardSafeIff(t: Table, c: Pid)
    requires Hierarchy(t) && c in t && t[c].pgid != c
    ensures Hierarchy(WordedSetsid(t, c)) <==> MayLeadSession(t, c)
    ensures TwoLevel(WordedSetsid(t, c)) <==> MayLeadSession(t, c)
  {
    if MayLeadSession(t, c) {
      SetsidKeepsHierarchy(t, c);
    } else {
      var q :| q in t && t[q].pgid == c;
      var t' := WordedSetsid(t, c);
      assert q != c && t'[q].pgid == t'[c].pgid && t'[q].sid == t[c].sid != c;
    }
  }

  /** Process 2 leads group 2, has child 3 in it and moves back to group 1. */
  const LEADER_MOVED := [DoFork(INIT, 2), DoSetpgid(2, 0, 0), DoFork(2, 3), DoSetpgid(2, 0, INIT)]

  function Born(ppid: Pid, pgid: Pid): Proc { Proc(pgid, INIT, ppid, false, false, false, []) }

  lemma LeaderMovedTable()
    ensures Run(BOOT, LEADER_MOVED) == BOOT[2 := Born(INIT, INIT)][3 := Born(2, 2)]
  {
    var calls := LEADER_MOVED;
    assert Run(BOOT, calls[..1]) == BOOT[2 := Born(INIT, INIT)] by { RunOne(BOOT, calls, 0); }
    assert Run(BOOT, calls[..2]) == BOOT[2 := Born(INIT, 2)] by { RunOne(BOOT, calls, 1); }
    var t := BOOT[2 := Born(INIT, 2)][3 := Born(2, 2)];
    assert Run(BOOT, calls[..3]) == t by { RunOne(BOOT, calls, 2); }
    RunOne(BOOT, calls, 3);
    assert GroupInSession(t, INIT, INIT) by { assert t[INIT].pgid == INIT; }
    assert calls[..4] == calls;
  }

  lemma RunOne(t: Table, calls: seq<Call>, k: nat)
    requires k < |calls|
    ensures Run(t, calls[..k + 1]) == Step(Run(t, calls[..k]), calls[k])
  {
    assert calls[..k + 1][..k] == calls[..k];
  }

  /** With the worded guard, a run in which a group is split between sessions. */
  lemma WordedGuardBreaksHierarchy()
    ensures var t := Run(BOOT, LEADER_MOVED);
            2 in t && t[2].pgid != 2 && Hierarchy(t) && !TwoLevel(WordedSetsid(t, 2))
  {
    LeaderMovedTable();
    BootHierarchy();
    HierarchyForever(BOOT, LEADER_MOVED);
    var t := Run(BOOT, LEADER_MOVED);
    assert t[3].pgid == 2;
    WordedGuardSafeIff(t, 2);
  }

  // ----- Orphaned groups: what exit and fork change -----

  /** Section 34.7.4 states orphanhood both ways; they agree. */
  lemma OrphanedAsSpecified(t: Table, g: Pid)
    ensures Orphaned(t, g) <==>
              forall m :: m in t && t[m].pgid == g ==>
                            t[m].ppid !in t || t[t[m].ppid].pgid == g || t[t[m].ppid].sid != t[m].sid
  {}

  /** A group can be orphaned by an exit only if the exiting process or one of
      its children is a member, so only those groups need be looked at. */
  lemma NewlyOrphanedNearby(t: Table, c: Pid, g: Pid)
    requires c in t && NewlyOrphaned(t, c, g)
    ensures t[c].pgid == g || exists m :: m in t && t[m].ppid == c && t[m].pgid == g
  {
    var m :| m in t && Anchors(t, m, g);
    if m != c && t[m].ppid != c {
      assert Anchors(Reparented(t, c), m, g);
    }
  }

  /** After setsid() the caller's group is orphaned, as section 34.7.4 says of
      every session leader. */
  lemma NewSessionIsOrphaned(t: Table, c: Pid)
    requires Hierarchy(t) && c in t && MayLeadSession(t, c)
    ensures Orphaned(Setsid(t, c), c)
  {}

  lemma StoppedSurvivors(t: Table, c: Pid, g: Pid)
    ensures HasStopped(Reparented(t, c), g) <==> exists m :: m in t && m != c && t[m].pgid == g && t[m].stopped
  {
    if m :| m in t && m != c && t[m].pgid == g && t[m].stopped {
      assert m in Reparented(t, c) && Reparented(t, c)[m].stopped;
    }
  }

  lemma ExitOrphans(t: Table, c: Pid, g: Pid)
    requires c in t && c != INIT
    ensures Orphaned(Exit(t, c), g) == Orphaned(Reparented(t, c), g)
  {
    ExitShape(t, c);
    SameShapeKeeps(Reparented(t, c), Exit(t, c));
  }

  /** What the survivors of an exit are sent: SIGHUP then SIGCONT to all members
      of a group that it orphans and that has a stopped member, else nothing. */
  lemma ExitSignals(t: Table, c: Pid, p: Pid)
    requires c in t && c != INIT && p in t && p != c
    ensures var t', g := Exit(t, c), t[p].pgid;
            var orphaned := !Orphaned(t, g) && Orphaned(t', g);
            var anyStopped := exists m :: m in t && m != c && t[m].pgid == g && t[m].stopped;
            && p in t'
            && t'[p].received == t[p].received + (if orphaned && anyStopped then [SIGHUP, SIGCONT] else [])
            && t'[p].stopped == (t[p].stopped && !orphaned)
  {
    var g := t[p].pgid;
    ExitOrphans(t, c, g);
    StoppedSurvivors(t, c, g);
  }

  // ----- The process table, updated in place -----

  /** Hang up every member of the groups in `gs`. */
  function HangupAll(t: Table, gs: set<Pid>): Table {
    map p | p in t :: if t[p].pgid in gs then Hangup(t[p]) else t[p]
  }

  /** Only the groups of the exiting process and of its children are examined. */
  function Candidates(t: Table, c: Pid): set<Pid>
    requires c in t
  {
    {t[c].pgid} + set m | m in t && t[m].ppid == c :: t[m].pgid
  }

  /** Hanging up the candidates that need it is all that exit has to do. */
  lemma CandidatesSuffice(t: Table, c: Pid, gs: set<Pid>)
    requires c in t && c != INIT
    requires forall g :: g in gs <==> g in Candidates(t, c) && NewlyOrphaned(t, c, g) && HasStopped(Reparented(t, c), g)
    ensures HangupAll(Reparented(t, c), gs) == Exit(t, c)
  {
    var t' := Reparented(t, c);
    forall p | p in t'
      ensures t'[p].pgid in gs <==> NewlyOrphaned(t, c, t'[p].pgid) && HasStopped(t', t'[p].pgid)
    {
      if NewlyOrphaned(t, c, t'[p].pgid) {
        NewlyOrphanedNearby(t, c, t'[p].pgid);
      }
    }
  }

  class Kernel {
    var procs: Table

    constructor ()
      ensures procs == BOOT && Hierarchy(procs)
    {
      procs := BOOT;
    }

    /** The new ID is any that is unused; EAGAIN has no place here. */
    method ForkProcess(c: Pid, child: Pid)
      requires Hierarchy(procs) && c in procs && Unused(procs, child)
      modifies this
      ensures procs == Fork(old(procs), c, child) && Hierarchy(procs)
    {
      ForkKeepsHierarchy(procs, c, child);
      var p := procs[c];
      procs := procs[child := p.(ppid := c, execed := false, stopped := false, received := [])];
    }

    method ExecProgram(c: Pid)
      requires Hierarchy(procs) && c in procs
      modifies this
      ensures procs == Exec(old(procs), c) && Hierarchy(procs)
    {
      SameShapeKeeps(procs, Exec(procs, c));
      procs := procs[c := procs[c].(execed := true, handlesStop := false)];
    }

    method SetProcessGroup(c: Pid, pid: Pid, pgid: Pid) returns (status: Status)
      requires Hierarchy(procs) && c in procs
      modifies this
      ensures status == SetpgidStatus(old(procs), c, pid, pgid)
      ensures procs == Setpgid(old(procs), c, pid, pgid) && Hierarchy(procs)
    {
      SetpgidKeepsHierarchy(procs, c, pid, pgid);
      var p := if pid == 0 then c else pid;
      var g := if pgid == 0 then p else pgid;
      if p !in procs || (p != c && procs[p].ppid != c) {
        return ESRCH;
      }
      if g != p && (procs[p].sid != procs[c].sid || !GroupInSession(procs, g, procs[c].sid)) {
        return EPERM;
      }
      if procs[p].sid == p {
        return EPERM;
      }
      if p != c && procs[p].execed {
        return EACCES;
      }
      procs := procs[p := procs[p].(pgid := g)];
      return Success;
    }

    method CreateSession(c: Pid) returns (status: Status)
      requires Hierarchy(procs) && c in procs
      modifies this
      ensures status == if MayLeadSession(old(procs), c) then Success else EPERM
      ensures procs == Setsid(old(procs), c) && Hierarchy(procs)
      ensures status == Success ==> Orphaned(procs, c)
    {
      SetsidKeepsHierarchy(procs, c);
      if exists q :: q in procs && procs[q].pgid == c {
        return EPERM;
      }
      NewSessionIsOrphaned(procs, c);
      procs := procs[c := procs[c].(pgid := c, sid := c)];
      return Success;
    }

    method Signal(p: Pid, sig: Signal)
      requires Hierarchy(procs) && p in procs
      modifies this
      ensures procs == Deliver(old(procs), p, sig) && Hierarchy(procs)
    {
      SameShapeKeeps(procs, Deliver(procs, p, sig));
      var target := procs[p];
      if sig.JobControlStop() && !target.handlesStop {
        if Orphaned(procs, target.pgid) {
          return;
        }
        target := target.(stopped := true);
      } else if sig == SIGSTOP {
        target := target.(stopped := true);
      } else if sig == SIGCONT {
        target := target.(stopped := false);
      }
      procs := procs[p := target.(received := target.received + [sig])];
    }

    method SetHandler(c: Pid, handles: bool)
      requires Hierarchy(procs) && c in procs
      modifies this
      ensures procs == Handle(old(procs), c, handles) && Hierarchy(procs)
    {
      SameShapeKeeps(procs, Handle(procs, c, handles));
      procs := procs[c := procs[c].(handlesStop := handles)];
    }

    /** Orphanhood is judged before and after the exit, on the candidates only. */
    method Terminate(c: Pid)
      requires Hierarchy(procs) && c in procs && c != INIT
      modifies this
      ensures procs == Exit(old(procs), c) && Hierarchy(procs)
    {
      ExitKeepsHierarchy(procs, c);
      var candidates := Candidates(procs, c);
      var anchored := set g | g in candidates && !Orphaned(procs, g);
      procs := map p | p in procs && p != c ::
        if procs[p].ppid == c then procs[p].(ppid := INIT) else procs[p];
      HangupNewOrphans(old(procs), c, anchored);
    }

    method HangupNewOrphans(ghost t: Table, ghost c: Pid, anchored: set<Pid>)
      requires c in t && c != INIT && procs == Reparented(t, c)
      requires forall g :: g in anchored <==> g in Candidates(t, c) && !Orphaned(t, g)
      modifies this
      ensures procs == Exit(t, c)
    {
      ghost var t' := procs;
      var todo := anchored;
      ghost var hungUp: set<Pid> := {};
      assert procs == HangupAll(t', hungUp);
      while todo != {}
        invariant procs == HangupAll(t', hungUp)
        invariant todo !! hungUp && todo + hungUp <= anchored
        invariant forall g :: g in hungUp ==> Orphaned(t', g) && HasStopped(t', g)
        invariant forall g :: g in anchored && Orphaned(t', g) && HasStopped(t', g) ==> g in todo + hungUp
        decreases |todo|
      {
        var g :| g in todo;
        todo := todo - {g};
        HangupAllElsewhere(t', hungUp, g);
        if Orphaned(procs, g) && HasStopped(procs, g) {
          HangupOneMore(t', hungUp, g);
          procs := HangupAll(procs, {g});
          hungUp := hungUp + {g};
        }
      }
      CandidatesSuffice(t, c, hungUp);
    }

    /** One call of a process, which does nothing if there is no such process. */
    method Perform(call: Call)
      requires Hierarchy(procs)
      modifies this
      ensures procs == Step(old(procs), call) && Hierarchy(procs)
    {
      if call.c !in procs {
        return;
      }
      match call {
        case DoFork(c, child) => if Unused(procs, child) { ForkProcess(c, child); }
        case DoExec(c) => ExecProgram(c);
        case DoExit(c) => if c != INIT { Terminate(c); }
        case DoSetpgid(c, pid, pgid) => var _ := SetProcessGroup(c, pid, pgid);
        case DoSetsid(c) => var _ := CreateSession(c);
        case DoKill(c, sig) => Signal(c, sig);
        case DoHandle(c, handles) => SetHandler(c, handles);
      }
    }

    method PerformAll(calls: seq<Call>)
      requires Hierarchy(procs)
      modifies this
      ensures procs == Run(old(procs), calls) && Hierarchy(procs)
    {
      for k := 0 to |calls|
        invariant procs == Run(old(procs), calls[..k]) && Hierarchy(procs)
      {
        RunOne(old(procs), calls, k);
        Perform(calls[k]);
      }
      assert calls[..|calls|] == calls;
    }
  }

  lemma HangupOneMore(t: Table, gs: set<Pid>, g: Pid)
    requires g !in gs
    ensures HangupAll(HangupAll(t, gs), {g}) == HangupAll(t, gs + {g})
  {}

  /** Hanging up some groups tells nothing about another. */
  lemma HangupAllElsewhere(t: Table, gs: set<Pid>, g: Pid)
    requires g !in gs
    ensures Orphaned(HangupAll(t, gs), g) == Orphaned(t, g)
    ensures HasStopped(HangupAll(t, gs), g) == HasStopped(t, g)
  {
    var t' := HangupAll(t, gs);
    assert SameShape(t, t');
    SameShapeKeeps(t, t');
    if HasStopped(t, g) {
      var m :| m in t && t[m].pgid == g && t[m].stopped;
      assert t'[m] == t[m];
    }
  }
}
