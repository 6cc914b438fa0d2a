/** How a job-control shell places the processes of a pipeline in one process
    group (pgsjc/README.org, Listing 34.1).

    Shell and child both call setpgid() after each fork.  The shell, its
    children and every other process of the system take their steps in any
    order, under the rules of module `Sessions`. */
module Pipeline {
  import opened Basics
  import opened Sessions

  /** What one setpgid() of the shell returned, and the child's group then. */
  datatype ParentCall = ParentCall(status: Status, group: Pid)

  /** `children` in order of creation; for the first `parentCalls` of them the
      shell has made its setpgid() call, those in `placedSelf` have made their
      own; `signalled` holds the processes that a job-control signal reached. */
  datatype Job = Job(t: Table, shell: Pid, children: seq<Pid>, parentCalls: nat, placedSelf: set<Pid>,
                     results: seq<ParentCall>, childFailed: bool, signalled: Option<set<Pid>>) {

    /** The first process of the pipeline gives the group its ID. */
    function PipelinePgid(): Pid
      requires children != []
    {
      children[0]
    }

    predicate Outsider(call: Call) {
      call.DoKill? || (call.c != shell && call.c !in children)
    }
  }

  datatype Action =
    | ForkChild(pid: Pid)
    | ParentSetpgid
    | ChildSetpgid(i: nat)
    | ChildExec(i: nat)
    | SignalJob
    | Elsewhere(call: Call)

  /** One step; an action whose turn has not come leaves everything unchanged.
      No process of the pipeline terminates. */
  function Act(j: Job, a: Action): Job
    requires j.shell in j.t && forall c :: c in j.children ==> c in j.t
  {
    match a
    case ForkChild(pid) =>
      if j.parentCalls == |j.children| && j.signalled.None? && Unused(j.t, pid) then
        j.(t := Fork(j.t, j.shell, pid), children := j.children + [pid])
      else j
    case ParentSetpgid =>
      if j.parentCalls < |j.children| then
        var child := j.children[j.parentCalls];
        var t' := Setpgid(j.t, j.shell, child, j.PipelinePgid());
        j.(t := t', parentCalls := j.parentCalls + 1,
           results := j.results
                      + [ParentCall(SetpgidStatus(j.t, j.shell, child, j.PipelinePgid()), t'[child].pgid)])
      else j
    case ChildSetpgid(i) =>
      if i < |j.children| && j.children[i] !in j.placedSelf then
        var child := j.children[i];
        if SetpgidStatus(j.t, child, 0, j.PipelinePgid()) == Success then
          j.(t := Setpgid(j.t, child, 0, j.PipelinePgid()), placedSelf := j.placedSelf + {child})
        else j.(childFailed := true)
      else j
    case ChildExec(i) =>
      if i < |j.children| && j.children[i] in j.placedSelf then j.(t := Exec(j.t, j.children[i])) else j
    case SignalJob =>
      if j.children != [] && j.parentCalls == |j.children| && j.signalled.None? then
        j.(signalled := Some(set p | p in j.t && j.t[p].pgid == j.PipelinePgid()))
      else j
    case Elsewhere(call) =>
      if j.Outsider(call) then j.(t := Step(j.t, call)) else j
  }

  /** A child of the shell in the shell's session that leads no session. */
  predicate Child(t: Table, shell: Pid, c: Pid)
    requires shell in t
  {
    c in t && c != shell && c != 0 && t[c].ppid == shell && t[c].sid == t[shell].sid && c != t[shell].sid
  }

  predicate Placed(j: Job, c: Pid) { j.children != [] && c in j.t && j.t[c].pgid == j.PipelinePgid() }

  ghost predicate Good(j: Job) {
    && j.shell in j.t
    && (forall c :: c in j.children ==> Child(j.t, j.shell, c))
    && j.parentCalls <= |j.children| <= j.parentCalls + 1
    && (forall i :: 0 <= i < j.parentCalls ==> Placed(j, j.children[i]))
    && (forall c :: c in j.placedSelf ==> c in j.children && Placed(j, c))
    && (forall c :: c in j.children && j.t[c].execed ==> c in j.placedSelf)
    && !j.childFailed
    && (forall k :: 0 <= k < |j.results| ==> AsExpected(j, j.results[k]))
    && (j.signalled.Some? ==> forall c :: c in j.children ==> c in j.signalled.value)
  }

  /** Success or EACCES, with the child in the pipeline's group either way. */
  ghost predicate AsExpected(j: Job, r: ParentCall) {
    j.children != [] && r.status in {Success, EACCES} && r.group == j.PipelinePgid()
  }

  /** A step taken elsewhere leaves the children's group, session, parent and
      exec state alone, and the shell's session. */
  lemma ElsewhereFrame(t: Table, call: Call, p: Pid)
    requires p in t && (call.DoKill? || call.c != p)
    ensures p in Step(t, call)
    ensures Step(t, call)[p].sid == t[p].sid && Step(t, call)[p].execed == t[p].execed
    ensures call.DoKill? || t[p].ppid != call.c ==>
              Step(t, call)[p].pgid == t[p].pgid && Step(t, call)[p].ppid == t[p].ppid
  {}

  /** Why the child's own call cannot fail, and why the shell's can only find
      that the child has already placed itself and gone on to exec. */
  lemma SetpgidOutcomes(j: Job, c: Pid)
    requires Good(j) && c in j.children
    requires c == j.PipelinePgid() || Placed(j, j.PipelinePgid())
    ensures SetpgidStatus(j.t, c, 0, j.PipelinePgid()) == Success
    ensures SetpgidStatus(j.t, j.shell, c, j.PipelinePgid()) ==
              if j.t[c].execed then EACCES else Success
  {}

  /** By the time a second child exists, the first is in its own group. */
  lemma LeaderPlaced(j: Job, i: nat)
    requires Good(j) && i < |j.children|
    ensures j.children[i] == j.PipelinePgid() || Placed(j, j.PipelinePgid())
  {}

  lemma ForkKeepsGood(j: Job, pid: Pid)
    requires Good(j)
    ensures Good(Act(j, ForkChild(pid)))
  {}

  lemma ParentKeepsGood(j: Job)
    requires Good(j)
    ensures Good(Act(j, ParentSetpgid))
  {
    var j' := Act(j, ParentSetpgid);
    if j.parentCalls < |j.children| {
      var child := j.children[j.parentCalls];
      assert j.PipelinePgid() in j.children;
      LeaderPlaced(j, j.parentCalls);
      SetpgidOutcomes(j, child);
      assert Placed(j', child);
      assert forall c :: c in j.children && c != child ==> j'.t[c] == j.t[c];
      assert forall k :: 0 <= k < |j.results| ==> AsExpected(j, j.results[k]);
    }
  }

  lemma ChildKeepsGood(j: Job, i: nat)
    requires Good(j)
    ensures Good(Act(j, ChildSetpgid(i)))
  {
    var j' := Act(j, ChildSetpgid(i));
    if i < |j.children| && j.children[i] !in j.placedSelf {
      var child := j.children[i];
      assert j.PipelinePgid() in j.children;
      LeaderPlaced(j, i);
      SetpgidOutcomes(j, child);
      assert Placed(j', child);
      assert forall c :: c in j.children && c != child ==> j'.t[c] == j.t[c];
      assert forall k :: 0 <= k < |j.results| ==> AsExpected(j, j.results[k]);
    }
  }

  lemma SignalKeepsGood(j: Job)
    requires Good(j)
    ensures Good(Act(j, SignalJob))
  {}

  lemma OtherTableKeepsGood(j: Job, t': Table)
    requires Good(j) && j.shell in t' && t'[j.shell].sid == j.t[j.shell].sid
    requires forall c :: c in j.children ==>
               && c in t' && t'[c].pgid == j.t[c].pgid && t'[c].sid == j.t[c].sid
               && t'[c].ppid == j.t[c].ppid && (t'[c].execed ==> j.t[c].execed || c in j.placedSelf)
    ensures Good(j.(t := t'))
  {}

  lemma ElsewhereKeepsGood(j: Job, call: Call)
    requires Good(j)
    ensures Good(Act(j, Elsewhere(call)))
  {
    if j.Outsider(call) {
      ElsewhereFrame(j.t, call, j.shell);
      forall c | c in j.children
        ensures c in Step(j.t, call)
        ensures var c' := Step(j.t, call)[c];
                && c'.pgid == j.t[c].pgid && c'.sid == j.t[c].sid
                && c'.ppid == j.t[c].ppid && c'.execed == j.t[c].execed
      {
        assert Child(j.t, j.shell, c);
        ElsewhereFrame(j.t, call, c);
      }
      OtherTableKeepsGood(j, Step(j.t, call));
    }
  }

  lemma ActKeepsGood(j: Job, a: Action)
    requires Good(j)
    ensures Good(Act(j, a))
  {
    match a
    case ForkChild(pid) => ForkKeepsGood(j, pid);
    case ParentSetpgid => ParentKeepsGood(j);
    case ChildSetpgid(i) => ChildKeepsGood(j, i);
    case ChildExec(i) =>
      if i < |j.children| && j.children[i] in j.placedSelf {
        OtherTableKeepsGood(j, Exec(j.t, j.children[i]));
      }
    case SignalJob => SignalKeepsGood(j);
    case Elsewhere(call) => ElsewhereKeepsGood(j, call);
  }

  function Start(t: Table, shell: Pid): Job { Job(t, shell, [], 0, {}, [], false, None) }

  /** The state after a run that starts with the shell before its first fork. */
  function Run(t: Table, shell: Pid, actions: seq<Action>): (j: Job)
    requires shell in t
    ensures Good(j)
  {
    if actions == [] then Start(t, shell)
    else
      var before := Run(t, shell, actions[..|actions| - 1]);
      ActKeepsGood(before, actions[|actions| - 1]);
      Act(before, actions[|actions| - 1])
  }

  /** For every interleaving: a child that has execed is in the pipeline's
      group, a job-control signal reaches every child, no child's setpgid()
      fails, and the shell's own fails only with EACCES, on a child that is in
      the group already. */
  lemma PlacedBeforeExecAndSignal(t: Table, shell: Pid, actions: seq<Action>)
    requires shell in t
    ensures var j := Run(t, shell, actions);
            && (forall c :: c in j.children && j.t[c].execed ==> Placed(j, c))
            && (j.signalled.Some? ==> forall c :: c in j.children ==> c in j.signalled.value)
            && !j.childFailed
            && (forall r :: r in j.results ==>
                  (r.status == Success || r.status == EACCES) && j.children != [] && r.group == j.PipelinePgid())
  {}

  // ----- What the order of the actions decides -----

  lemma RunsOn(t: Table, shell: Pid, actions: seq<Action>, a: Action)
    requires shell in t
    ensures Run(t, shell, actions + [a]) == Act(Run(t, shell, actions), a)
  {
    assert (actions + [a])[..|actions|] == actions;
  }

  /** Among the actions is a setpgid() of child `i` that came after its fork. */
  ghost predicate HasPlaced(t: Table, shell: Pid, actions: seq<Action>, i: nat)
    requires shell in t
  {
    actions != [] &&
    var before, last := actions[..|actions| - 1], actions[|actions| - 1];
    HasPlaced(t, shell, before, i) || (last == ChildSetpgid(i) && i < |Run(t, shell, before).children|)
  }

  /** Among the actions is an exec of child `i` that came after that. */
  ghost predicate HasExeced(t: Table, shell: Pid, actions: seq<Action>, i: nat)
    requires shell in t
  {
    actions != [] &&
    var before, last := actions[..|actions| - 1], actions[|actions| - 1];
    HasExeced(t, shell, before, i) || (last == ChildExec(i) && HasPlaced(t, shell, before, i))
  }

  ghost predicate Distinct(children: seq<Pid>) {
    forall i, k :: 0 <= i < k < |children| ==> children[i] != children[k]
  }

  lemma ActKeepsDistinct(j: Job, a: Action)
    requires Good(j) && Distinct(j.children)
    ensures Distinct(Act(j, a).children) && |j.children| <= |Act(j, a).children|
    ensures forall i :: 0 <= i < |j.children| ==> Act(j, a).children[i] == j.children[i]
  {
    forall i | 0 <= i < |j.children| ensures j.children[i] in j.t {
      assert Child(j.t, j.shell, j.children[i]);
    }
  }

  /** How one action changes what child `i` has done. */
  lemma ChildAfter(j: Job, a: Action, i: nat)
    requires Good(j) && Distinct(j.children) && i < |j.children|
    ensures var j', c := Act(j, a), j.children[i];
            && c in j'.t && (c in j'.placedSelf <==> c in j.placedSelf || a == ChildSetpgid(i))
            && (j'.t[c].execed <==> j.t[c].execed || (a == ChildExec(i) && c in j.placedSelf))
  {
    var c := j.children[i];
    assert c in j.children && Child(j.t, j.shell, c);
    if a.ChildSetpgid? && a.i < |j.children| {
      LeaderPlaced(j, a.i);
      SetpgidOutcomes(j, j.children[a.i]);
    } else if a.Elsewhere? && j.Outsider(a.call) {
      ElsewhereFrame(j.t, a.call, c);
    }
  }

  lemma NewChild(j: Job, a: Action)
    requires Good(j) && |Act(j, a).children| > |j.children|
    ensures var j' := Act(j, a); var c := j'.children[|j.children|];
            && |j'.children| == |j.children| + 1 && a.ForkChild?
            && c in j'.t && c !in j'.placedSelf && !j'.t[c].execed
  {}

  /** What a child has done is told by the actions alone. */
  lemma {:induction false} DoneAsActed(t: Table, shell: Pid, actions: seq<Action>, i: nat)
    requires shell in t
    ensures var j := Run(t, shell, actions);
            && Distinct(j.children)
            && (i >= |j.children| ==> !HasPlaced(t, shell, actions, i) && !HasExeced(t, shell, actions, i))
            && (i < |j.children| ==>
                  && (j.children[i] in j.placedSelf <==> HasPlaced(t, shell, actions, i))
                  && (j.t[j.children[i]].execed <==> HasExeced(t, shell, actions, i)))
  {
    if actions != [] {
      var before, last := actions[..|actions| - 1], actions[|actions| - 1];
      var j := Run(t, shell, before);
      DoneAsActed(t, shell, before, i);
      ActKeepsDistinct(j, last);
      if i < |j.children| {
        ChildAfter(j, last, i);
      } else if i < |Run(t, shell, actions).children| {
        NewChild(j, last);
      }
    }
  }

  /** The shell's setpgid() for a child answers EACCES if and only if the child's
      exec, with its own setpgid() before it, is among the actions so far;
      otherwise it succeeds.  Either way the child is in the group. */
  lemma ParentAnswer(t: Table, shell: Pid, actions: seq<Action>)
    requires shell in t && Run(t, shell, actions).parentCalls < |Run(t, shell, actions).children|
    ensures var j, j' := Run(t, shell, actions), Run(t, shell, actions + [ParentSetpgid]);
            && j'.parentCalls == j.parentCalls + 1
            && j'.results == j.results
                 + [ParentCall(if HasExeced(t, shell, actions, j.parentCalls) then EACCES else Success, j.PipelinePgid())]
  {
    var j := Run(t, shell, actions);
    RunsOn(t, shell, actions, ParentSetpgid);
    DoneAsActed(t, shell, actions, j.parentCalls);
    LeaderPlaced(j, j.parentCalls);
    SetpgidOutcomes(j, j.children[j.parentCalls]);
  }

  /** A signal to the job reaches the members of its group, and nobody else. */
  lemma SignalReaches(t: Table, shell: Pid, actions: seq<Action>)
    requires shell in t
    requires var j := Run(t, shell, actions);
             j.children != [] && j.parentCalls == |j.children| && j.signalled.None?
    ensures var j, j' := Run(t, shell, actions), Run(t, shell, actions + [SignalJob]);
            && j'.signalled.Some?
            && forall p :: p in j'.signalled.value <==> p in j.t && j.t[p].pgid == j.PipelinePgid()
  {
    RunsOn(t, shell, actions, SignalJob);
  }

  // ----- A pipeline can be run to its end -----

  /** One child after the other, each moved by the shell before it acts. */
  function Script(pids: seq<Pid>): seq<Action> {
    if pids == [] then []
    else
      var k := |pids| - 1;
      Script(pids[..k]) + [ForkChild(pids[k])] + [ParentSetpgid] + [ChildSetpgid(k)] + [ChildExec(k)]
  }

  /** All have been forked, moved and started; no other ID has been used up. */
  ghost predicate Started(t: Table, j: Job, pids: seq<Pid>) {
    && j.children == pids && j.parentCalls == |pids| && j.signalled.None?
    && (forall i :: 0 <= i < |pids| ==> pids[i] in j.t && j.t[pids[i]].execed)
    && (forall x :: Unused(t, x) && x !in pids ==> Unused(j.t, x))
  }

  lemma OneStarted(t: Table, j0: Job, pids: seq<Pid>, pid: Pid)
    requires Good(j0) && Distinct(pids) && Started(t, j0, pids) && Unused(t, pid) && pid !in pids
    ensures var j1 := Act(j0, ForkChild(pid));
            && Good(j1)
            && var j2 := Act(j1, ParentSetpgid);
               && Good(j2)
               && var j3 := Act(j2, ChildSetpgid(|pids|));
                  && Good(j3) && Started(t, Act(j3, ChildExec(|pids|)), pids + [pid])
  {
    var j1 := Act(j0, ForkChild(pid));
    ForkStarts(t, j0, pids, pid);
    var j2 := Act(j1, ParentSetpgid);
    ParentGoesOn(t, j1, pids, pid);
    ActKeepsGood(j2, ChildSetpgid(|pids|));
    ChildGoesOn(t, j2, pids, pid);
  }

  /** Child `pid` has been forked, and moved if `moved`, after those in `pids`. */
  ghost predicate Starting(t: Table, j: Job, pids: seq<Pid>, pid: Pid, moved: bool) {
    && Good(j) && Distinct(j.children) && j.children == pids + [pid] && j.signalled.None?
    && j.parentCalls == |pids| + (if moved then 1 else 0)
    && (forall i :: 0 <= i < |pids| ==> pids[i] in j.t && j.t[pids[i]].execed)
    && (forall x :: Unused(t, x) && x !in pids + [pid] ==> Unused(j.t, x))
  }

  lemma ForkStarts(t: Table, j: Job, pids: seq<Pid>, pid: Pid)
    requires Good(j) && Distinct(pids) && Started(t, j, pids) && Unused(t, pid) && pid !in pids
    ensures Starting(t, Act(j, ForkChild(pid)), pids, pid, false)
  {
    ActKeepsGood(j, ForkChild(pid));
    ActKeepsDistinct(j, ForkChild(pid));
    var j' := Act(j, ForkChild(pid));
    forall x | Unused(t, x) && x !in pids + [pid] ensures Unused(j'.t, x) {
      assert Unused(j.t, x) && x != pid;
    }
  }

  lemma ParentGoesOn(t: Table, j: Job, pids: seq<Pid>, pid: Pid)
    requires Starting(t, j, pids, pid, false)
    ensures Starting(t, Act(j, ParentSetpgid), pids, pid, true)
  {
    ActKeepsGood(j, ParentSetpgid);
    ActKeepsDistinct(j, ParentSetpgid);
    UnusedStays(j, ParentSetpgid);
    forall i | 0 <= i < |pids| ensures Act(j, ParentSetpgid).t[pids[i]].execed {
      ChildAfter(j, ParentSetpgid, i);
      assert j.children[i] == pids[i];
    }
  }

  lemma ChildGoesOn(t: Table, j: Job, pids: seq<Pid>, pid: Pid)
    requires Starting(t, j, pids, pid, true)
    ensures var j' := Act(j, ChildSetpgid(|pids|));
            Good(j') && Started(t, Act(j', ChildExec(|pids|)), pids + [pid])
  {
    var k := |pids|;
    var j1 := Act(j, ChildSetpgid(k));
    ActKeepsGood(j, ChildSetpgid(k));
    ActKeepsDistinct(j, ChildSetpgid(k));
    UnusedStays(j, ChildSetpgid(k));
    UnusedStays(j1, ChildExec(k));
    ActKeepsGood(j1, ChildExec(k));
    forall i | 0 <= i <= k ensures (pids + [pid])[i] in Act(j1, ChildExec(k)).t && Act(j1, ChildExec(k)).t[(pids + [pid])[i]].execed {
      ChildAfter(j, ChildSetpgid(k), i);
      ChildAfter(j1, ChildExec(k), i);
    }
  }

  lemma UnusedStays(j: Job, a: Action)
    requires Good(j) && (a.ParentSetpgid? || a.ChildSetpgid? || a.ChildExec?)
    ensures forall x :: Unused(j.t, x) ==> Unused(Act(j, a).t, x)
    ensures Act(j, a).children == j.children && Act(j, a).signalled == j.signalled
    ensures !a.ParentSetpgid? ==> Act(j, a).parentCalls == j.parentCalls
  {
    if j.children != [] {
      assert j.PipelinePgid() in j.children && j.PipelinePgid() in j.t;
    }
  }

  /** For any number of new processes there is a run in which all of them end up
      executing their programs in one group, and are reached by a signal. */
  lemma {:induction false} PipelineCompletes(t: Table, shell: Pid, pids: seq<Pid>)
    requires shell in t && Distinct(pids) && forall i :: 0 <= i < |pids| ==> Unused(t, pids[i])
    ensures Started(t, Run(t, shell, Script(pids)), pids)
  {
    if pids != [] {
      var k := |pids| - 1;
      var front, pid := pids[..k], pids[k];
      PipelineCompletes(t, shell, front);
      var j0 := Run(t, shell, Script(front));
      OneStarted(t, j0, front, pid);
      assert front + [pid] == pids;
      var s1 := Script(front) + [ForkChild(pid)];
      var s2 := s1 + [ParentSetpgid];
      var s3 := s2 + [ChildSetpgid(k)];
      RunsOn(t, shell, Script(front), ForkChild(pid));
      RunsOn(t, shell, s1, ParentSetpgid);
      RunsOn(t, shell, s2, ChildSetpgid(k));
      RunsOn(t, shell, s3, ChildExec(k));
    }
  }
}
