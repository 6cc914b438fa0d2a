/** What the calls of module `Sessions` do for their callers, one by one: when
    they succeed, whom they change and whom they leave alone (pgsjc/README.org,
    sections 34.2, 34.3 and 34.7). */
module ProcessCalls {
  import opened Sessions

  ghost predicate OthersUnchanged(t: Table, t': Table, p: Pid) {
    forall q :: q in t && q != p ==> q in t' && t'[q] == t[q]
  }

  // ----- fork and exec -----

  /** A child starts in its parent's group and session, has not execed, is
      running, and has its parent's handlers but none of its signals. */
  lemma ForkedChild(t: Table, c: Pid, child: Pid)
    requires c in t && Unused(t, child)
    ensures var t' := Step(t, DoFork(c, child));
            && t'.Keys == t.Keys + {child} && OthersUnchanged(t, t', child)
            && t'[child].pgid == t[c].pgid && t'[child].sid == t[c].sid && t'[child].ppid == c
            && !t'[child].execed && !t'[child].stopped && t'[child].received == []
            && t'[child].handlesStop == t[c].handlesStop
  {}

  /** The parent may move a new child, until the child execs; the child may
      move itself before and after. */
  lemma MovableUntilExec(t: Table, c: Pid, child: Pid)
    requires Hierarchy(t) && c in t && Unused(t, child)
    ensures var t1 := Step(t, DoFork(c, child));
            var t2 := Step(t1, DoExec(child));
            && SetpgidStatus(t1, c, child, 0) == Success && SetpgidStatus(t1, child, 0, 0) == Success
            && SetpgidStatus(t2, c, child, 0) == EACCES && SetpgidStatus(t2, child, 0, 0) == Success
  {}

  /** No parent can move a child that has execed, whatever else it may do. */
  lemma ExecedIsOutOfReach(t: Table, p: Pid, c: Pid, g: Pid)
    requires Hierarchy(t) && p in t && c in t && t[c].ppid == p
    ensures SetpgidStatus(Step(t, DoExec(c)), p, c, g) in {EACCES, EPERM}
    ensures t[c].sid != c && (g == 0 || g == c) ==> SetpgidStatus(Step(t, DoExec(c)), p, c, g) == EACCES
  {}

  /** exec moves nobody and stops nobody, but forgets the caller's handlers: the
      next stop signal stops it, unless its group is orphaned. */
  lemma ExecForgetsHandlers(t: Table, c: Pid, sig: Signal)
    requires c in t && sig.JobControlStop()
    ensures var t' := Step(t, DoExec(c));
            && SameShape(t, t') && OthersUnchanged(t, t', c)
            && t'[c].stopped == t[c].stopped && t'[c].received == t[c].received
            && (Step(t', DoKill(c, sig))[c].stopped <==> t[c].stopped || !Orphaned(t, t[c].pgid))
  {
    SameShapeKeeps(t, Step(t, DoExec(c)));
  }

  // ----- setpgid and setsid -----

  /** The four restrictions on setpgid(), each on its own. */
  ghost predicate CallerOrChild(t: Table, c: Pid, p: Pid) { p in t && (p == c || t[p].ppid == c) }

  ghost predicate SameSession(t: Table, c: Pid, p: Pid, g: Pid)
    requires c in t && p in t
  {
    g != p ==> exists m :: m in t && t[m].pgid == g && t[m].sid == t[p].sid == t[c].sid
  }

  ghost predicate Leads(t: Table, p: Pid) { p in t && t[p].sid == p }

  ghost predicate ChildExeced(t: Table, c: Pid, p: Pid) { p in t && p != c && t[p].execed }

  /** setpgid() succeeds exactly within the restrictions, and then changes one
      group ID; otherwise it changes nothing, and the error tells why. */
  lemma SetpgidOutcome(t: Table, c: Pid, pid: Pid, pgid: Pid)
    requires c in t
    ensures var p, g := Target(c, pid), NewGroup(c, pid, pgid);
            var status, t' := SetpgidStatus(t, c, pid, pgid), Step(t, DoSetpgid(c, pid, pgid));
            && (status == ESRCH <==> !CallerOrChild(t, c, p))
            && (status == EPERM <==> CallerOrChild(t, c, p) && (!SameSession(t, c, p, g) || Leads(t, p)))
            && (status == EACCES <==>
                  CallerOrChild(t, c, p) && SameSession(t, c, p, g) && !Leads(t, p) && ChildExeced(t, c, p))
            && (status == Success ==> t'.Keys == t.Keys && OthersUnchanged(t, t', p) && t'[p] == t[p].(pgid := g))
            && (status != Success ==> t' == t)
  {
    var p, g := Target(c, pid), NewGroup(c, pid, pgid);
    if p in t {
      assert g != p && t[p].sid == t[c].sid && GroupInSession(t, g, t[c].sid) ==> SameSession(t, c, p, g);
    }
  }

  /** setsid() succeeds exactly if no group bears the caller's ID, and then the
      caller leads a new session and is alone in a new group. */
  lemma SetsidOutcome(t: Table, c: Pid)
    requires Hierarchy(t) && c in t
    ensures var t' := Step(t, DoSetsid(c));
            && t'.Keys == t.Keys && OthersUnchanged(t, t', c)
            && (t' != t <==> forall q :: q in t ==> t[q].pgid != c)
            && (t' != t ==>
                  && t'[c] == t[c].(pgid := c, sid := c)
                  && forall q :: q in t && q != c ==> t'[q].pgid != c && t'[q].sid != c)
  {
    if MayLeadSession(t, c) {
      assert Step(t, DoSetsid(c))[c].pgid == c;
    }
  }

  // ----- exit -----

  /** The process is gone, its children are init's, and nobody else has moved. */
  lemma ExitOutcome(t: Table, c: Pid)
    requires c in t && c != INIT
    ensures var t' := Step(t, DoExit(c));
            && t'.Keys == t.Keys - {c}
            && forall p :: p in t' ==>
                 && t'[p].pgid == t[p].pgid && t'[p].sid == t[p].sid && t'[p].execed == t[p].execed
                 && t'[p].handlesStop == t[p].handlesStop
                 && t'[p].ppid == if t[p].ppid == c then INIT else t[p].ppid
  {}

  // ----- Signals -----

  /** What a signal does to its target, and to nobody else: SIGSTOP stops it, a
      job-control stop signal does unless it is handled or discarded, SIGCONT
      resumes it, and every signal but a discarded one is received. */
  lemma SignalOutcome(t: Table, p: Pid, sig: Signal)
    requires p in t
    ensures var t' := Step(t, DoKill(p, sig));
            var discarded := sig in {SIGTSTP, SIGTTIN, SIGTTOU} && !t[p].handlesStop && Orphaned(t, t[p].pgid);
            && SameShape(t, t') && OthersUnchanged(t, t', p)
            && t'[p].received == t[p].received + (if discarded then [] else [sig])
            && (sig == SIGSTOP ==> t'[p].stopped)
            && (sig == SIGCONT ==> !t'[p].stopped)
            && (sig in {SIGTSTP, SIGTTIN, SIGTTOU} ==>
                  (t'[p].stopped <==> t[p].stopped || (!t[p].handlesStop && !Orphaned(t, t[p].pgid))))
            && (sig in {SIGHUP, SIGINT} ==> t'[p].stopped == t[p].stopped)
            && t'[p].execed == t[p].execed && t'[p].handlesStop == t[p].handlesStop
  {}

  /** A process that is stopped and then continued is as it was, but for the two
      signals that it has received. */
  lemma StopThenContinue(t: Table, p: Pid, sig: Signal)
    requires p in t && !t[p].stopped && !t[p].handlesStop && !Orphaned(t, t[p].pgid)
    requires sig.JobControlStop() || sig == SIGSTOP
    ensures var t1 := Step(t, DoKill(p, sig));
            t1[p].stopped && Step(t1, DoKill(p, SIGCONT)) == t[p := t[p].(received := t[p].received + [sig, SIGCONT])]
  {
    assert t[p].received + [sig] + [SIGCONT] == t[p].received + [sig, SIGCONT];
  }

  /** With a handler a stop signal is received and stops nobody, orphaned group
      or not; without one it is as if there had never been any. */
  lemma HandlerOutcome(t: Table, p: Pid, sig: Signal)
    requires p in t && sig.JobControlStop()
    ensures var t1, t0 := Step(t, DoHandle(p, true)), Step(t, DoHandle(p, false));
            && OthersUnchanged(t, t1, p) && OthersUnchanged(t, t0, p)
            && Step(t1, DoKill(p, sig)) == t1[p := t1[p].(received := t[p].received + [sig])]
            && Step(t1, DoHandle(p, false)) == t0
            && (!t[p].handlesStop ==> t0 == t)
  {
    var t1 := Step(t, DoHandle(p, true));
    assert t1[p].(received := t[p].received + [sig]) == t1[p].(stopped := t1[p].stopped, received := t1[p].received + [sig]);
  }
}
