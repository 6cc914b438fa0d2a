/** Process user IDs and the calls that change them (proccred/README.org).

    A process holds a real, an effective, a saved set-user and a file-system
    user ID.  It is privileged when its effective ID is 0.  `Permitted` and
    `Effect` give the rules of each call, `Run` a whole sequence of calls, and
    class `Process` the calls as updates of the four fields in place. */
module Credentials {

  type Uid = nat

  const ROOT: Uid := 0

  datatype Ids = Ids(ruid: Uid, euid: Uid, suid: Uid, fsuid: Uid) {
    predicate Privileged() { euid == ROOT }

    /** The three IDs that decide what an unprivileged process may become. */
    function Three(): set<Uid> { {ruid, euid, suid} }
  }

  /** An ID argument of setreuid() and setresuid(); `Keep` is the argument -1. */
  datatype Arg = Keep | To(uid: Uid) {
    function Or(current: Uid): Uid { if Keep? then current else uid }

    predicate Within(allowed: set<Uid>) { Keep? || uid in allowed }
  }

  datatype Call =
    | Setuid(uid: Uid)
    | Seteuid(uid: Uid)
    | Setreuid(r: Arg, e: Arg)
    | Setresuid(r: Arg, e: Arg, s: Arg)
    | Setfsuid(uid: Uid)
    | Exec(setUserId: bool, owner: Uid)

  datatype Status = Success | EPERM

  /** seteuid() is glibc's, built on setresuid(): the effective ID may be named. */
  predicate Permitted(c: Ids, call: Call) {
    match call
    case Setuid(u) => c.Privileged() || u in {c.ruid, c.suid}
    case Seteuid(u) => c.Privileged() || u in c.Three()
    case Setreuid(r, e) =>
      c.Privileged() || (r.Within({c.ruid, c.euid}) && e.Within(c.Three()))
    case Setresuid(r, e, s) =>
      c.Privileged() || (r.Within(c.Three()) && e.Within(c.Three()) && s.Within(c.Three()))
    case Setfsuid(u) => c.Privileged() || u in c.Three() + {c.fsuid}
    case Exec(_, _) => true
  }

  /** The IDs after a permitted call.  Every call that sets the effective ID
      sets the file-system ID to the same value. */
  function Effect(c: Ids, call: Call): Ids {
    match call
    case Setuid(u) =>
      if c.Privileged() then Ids(u, u, u, u) else Ids(c.ruid, u, c.suid, u)
    case Seteuid(u) => Ids(c.ruid, u, c.suid, u)
    case Setreuid(r, e) =>
      var eff := e.Or(c.euid);
      var toSaved := r.To? || (e.To? && e.uid != c.ruid);
      Ids(r.Or(c.ruid), eff, if toSaved then eff else c.suid, eff)
    case Setresuid(r, e, s) =>
      var eff := e.Or(c.euid);
      Ids(r.Or(c.ruid), eff, s.Or(c.suid), eff)
    case Setfsuid(u) => c.(fsuid := u)
    case Exec(bit, owner) =>
      if bit then Ids(c.ruid, owner, owner, owner) else c.(suid := c.euid)
  }

  /** A refused call changes nothing at all. */
  function Apply(c: Ids, call: Call): Ids {
    if Permitted(c, call) then Effect(c, call) else c
  }

  function Run(c: Ids, calls: seq<Call>): Ids
    decreases |calls|
  {
    if calls == [] then c else Run(Apply(c, calls[0]), calls[1..])
  }

  predicate ExecFree(calls: seq<Call>) {
    forall k :: 0 <= k < |calls| ==> !calls[k].Exec?
  }

  // ----- Privilege cannot be regained without exec -----

  /** Without 0 among the three IDs, no exec-free run is ever privileged and
      the three IDs never leave the set they started in. */
  lemma {:induction false} UnprivilegedForever(c: Ids, calls: seq<Call>)
    requires ROOT !in c.Three()
    requires ExecFree(calls)
    ensures Run(c, calls).Three() <= c.Three()
    ensures !Run(c, calls).Privileged()
    decreases |calls|
  {
    if calls != [] {
      assert !calls[0].Exec?;
      UnprivilegedForever(Apply(c, calls[0]), calls[1..]);
    }
  }

  ghost predicate CanReach(c: Ids, x: Uid) {
    exists calls :: ExecFree(calls) && Run(c, calls).euid == x
  }

  lemma ReachedBy(c: Ids, call: Call)
    requires !call.Exec?
    ensures CanReach(c, Apply(c, call).euid)
  {
    var calls := [call];
    assert Run(c, calls) == Run(Apply(c, call), []);
    assert ExecFree(calls) && Run(c, calls).euid == Apply(c, call).euid;
  }

  /** Exactly which users an exec-free run can act as: every one of the three
      IDs, and everyone at all once 0 is among them. */
  lemma ReachableUsers(c: Ids, x: Uid)
    ensures CanReach(c, x) <==> (x in c.Three() || ROOT in c.Three())
  {
    if x in c.Three() {
      ReachedBy(c, Setresuid(Keep, To(x), Keep));
    } else if ROOT in c.Three() {
      var calls := [Setresuid(Keep, To(ROOT), Keep), Seteuid(x)];
      var root := Apply(c, calls[0]);
      assert root.Privileged();
      assert calls[1..] == [Seteuid(x)];
      assert Run(c, calls) == Run(root, [Seteuid(x)]) == Run(Apply(root, Seteuid(x)), []);
      assert ExecFree(calls) && Run(c, calls).euid == x;
    } else {
      forall calls | ExecFree(calls)
        ensures Run(c, calls).euid != x
      {
        UnprivilegedForever(c, calls);
        assert Run(c, calls).euid in Run(c, calls).Three();
      }
    }
  }

  /** setuid(getuid()) in a set-user-ID-root program: whatever is called
      afterwards, short of exec, the process acts only as its real user. */
  lemma SetuidDropsRootForGood(c: Ids, x: Uid)
    requires c.Privileged() && c.ruid != ROOT
    ensures CanReach(Apply(c, Setuid(c.ruid)), x) <==> x == c.ruid
  {
    ReachableUsers(Apply(c, Setuid(c.ruid)), x);
  }

  /** The same call keeps the saved ID within reach in any set-user-ID program
      that is not running as root, so there it drops nothing for good. */
  lemma SetuidKeepsSavedUnlessRoot(c: Ids)
    requires c.ruid != ROOT
    ensures CanReach(Apply(c, Setuid(c.ruid)), c.suid)
            <==> (!c.Privileged() || c.suid == c.ruid)
  {
    ReachableUsers(Apply(c, Setuid(c.ruid)), c.suid);
  }

  /** setreuid(getuid(), getuid()) works in every set-user-ID program: only the
      real user remains reachable, and the old saved ID is lost. */
  lemma SetreuidDropsForGood(c: Ids, x: Uid)
    requires c.ruid != ROOT
    ensures Permitted(c, Setreuid(To(c.ruid), To(c.ruid)))
    ensures CanReach(Apply(c, Setreuid(To(c.ruid), To(c.ruid))), x) <==> x == c.ruid
  {
    ReachableUsers(Apply(c, Setreuid(To(c.ruid), To(c.ruid))), x);
  }

  /** seteuid(getuid()) followed by seteuid(euid) after exec of a set-user-ID
      program: privileges are dropped, then regained, and nothing else moved. */
  lemma TemporaryDropRoundTrip(before: Ids, owner: Uid)
    ensures var c := Apply(before, Exec(true, owner));
            var dropped := Apply(c, Seteuid(c.ruid));
            && dropped == c.(euid := c.ruid, fsuid := c.ruid)
            && Run(c, [Seteuid(c.ruid), Seteuid(c.euid)]) == c
  {
    var c := Apply(before, Exec(true, owner));
    var calls := [Seteuid(c.ruid), Seteuid(c.euid)];
    var dropped := Apply(c, calls[0]);
    assert calls[1..] == [calls[1]];
    assert Run(c, calls) == Run(dropped, [calls[1]]) == Run(Apply(dropped, calls[1]), []);
  }

  // ----- What the saved ID is for -----

  /** setreuid(-1, getuid()) drops privileges for a while: it is always allowed
      and leaves the saved ID, to which the program can return the same way. */
  lemma SetreuidKeepsSaved(c: Ids)
    ensures var call := Setreuid(Keep, To(c.ruid));
            && Permitted(c, call)
            && Apply(c, call) == c.(euid := c.ruid, fsuid := c.ruid)
            && CanReach(Apply(c, call), c.suid)
            && Apply(Apply(c, call), Setreuid(Keep, To(c.suid))).euid == c.suid
  {
    ReachableUsers(Apply(c, Setreuid(Keep, To(c.ruid))), c.suid);
  }

  /** With any other effective ID, or with a real ID given, the saved ID follows
      the effective one, and the old one is lost unless it is among the new IDs
      or root is. */
  lemma SetreuidOverwritesSaved(c: Ids, r: Arg, e: Arg)
    requires Permitted(c, Setreuid(r, e)) && (r.To? || e.Or(c.ruid) != c.ruid)
    ensures var c' := Apply(c, Setreuid(r, e));
            && c'.ruid == r.Or(c.ruid) && c'.euid == e.Or(c.euid) && c'.suid == c'.euid
            && (CanReach(c', c.suid) <==> c.suid in {c'.ruid, c'.euid} || ROOT in {c'.ruid, c'.euid})
  {
    ReachableUsers(Apply(c, Setreuid(r, e)), c.suid);
  }

  /** exec sets the effective ID only if the file has the set-user-ID bit, copies
      the effective ID to the saved one in any case, and so may lose it. */
  lemma ExecOutcome(c: Ids, bit: bool, owner: Uid)
    ensures var c' := Apply(c, Exec(bit, owner));
            && c'.ruid == c.ruid && c'.euid == (if bit then owner else c.euid) && c'.suid == c'.euid
            && (bit ==> c'.fsuid == owner) && (!bit ==> c'.fsuid == c.fsuid)
            && (CanReach(c', c.suid) <==> c.suid in {c'.ruid, c'.euid} || ROOT in {c'.ruid, c'.euid})
  {
    ReachableUsers(Apply(c, Exec(bit, owner)), c.suid);
  }

  // ----- What one call can make of each ID (Table 9-1) -----

  /** setuid() is seteuid() to an unprivileged process, but may not name the
      effective ID; a privileged one has all its IDs set. */
  lemma SetuidOutcome(c: Ids, u: Uid)
    ensures c.Privileged() ==> Apply(c, Setuid(u)) == Ids(u, u, u, u)
    ensures !c.Privileged() && u in {c.ruid, c.suid} ==> Apply(c, Setuid(u)) == Apply(c, Seteuid(u)) == c.(euid := u, fsuid := u)
    ensures !c.Privileged() && u !in {c.ruid, c.suid} ==> !Permitted(c, Setuid(u)) && Apply(c, Setuid(u)) == c
  {}

  /** Which values one call can give to one ID, and that it leaves the others. */
  lemma OneIdSet(c: Ids, x: Uid)
    ensures var c' := Apply(c, Seteuid(x)); (c'.euid == x <==> c.Privileged() || x in c.Three()) && c' == c.(euid := c'.euid, fsuid := c'.fsuid)
    ensures Apply(c, Setreuid(To(x), Keep)).ruid == x <==> c.Privileged() || x in {c.ruid, c.euid}
    ensures var c' := Apply(c, Setreuid(Keep, To(x))); (c'.euid == x <==> c.Privileged() || x in c.Three()) && c'.ruid == c.ruid
    ensures var c' := Apply(c, Setresuid(To(x), Keep, Keep)); (c'.ruid == x <==> c.Privileged() || x in c.Three()) && c'.euid == c.euid && c'.suid == c.suid
    ensures var c' := Apply(c, Setresuid(Keep, Keep, To(x))); (c'.suid == x <==> c.Privileged() || x in c.Three()) && c'.ruid == c.ruid && c'.euid == c.euid
    ensures var c' := Apply(c, Setfsuid(x)); (c'.fsuid == x <==> c.Privileged() || x in c.Three() + {c.fsuid}) && c' == c.(fsuid := c'.fsuid)
  {}

  /** Calls that name several IDs are all or nothing: allowed exactly if each ID
      alone would be, and then every one is set. */
  lemma AllOrNothing(c: Ids, r: Arg, e: Arg, s: Arg)
    ensures Permitted(c, Setresuid(r, e, s)) <==>
              Permitted(c, Setresuid(r, Keep, Keep)) && Permitted(c, Setresuid(Keep, e, Keep)) && Permitted(c, Setresuid(Keep, Keep, s))
    ensures Permitted(c, Setreuid(r, e)) <==> Permitted(c, Setreuid(r, Keep)) && Permitted(c, Setreuid(Keep, e))
    ensures var c' := Apply(c, Setresuid(r, e, s));
            if Permitted(c, Setresuid(r, e, s)) then
              c'.ruid == r.Or(c.ruid) && c'.euid == e.Or(c.euid) && c'.suid == s.Or(c.suid)
            else c' == c
    ensures !Permitted(c, Setreuid(r, e)) ==> Apply(c, Setreuid(r, e)) == c
  {}

  // ----- The effective ID equals the real or the saved ID -----

  ghost predicate Settled(c: Ids) { c.euid in {c.ruid, c.suid} }

  /** The calls that can never unsettle the effective ID. */
  predicate Settling(c: Ids, call: Call) {
    match call
    case Seteuid(_) => !c.Privileged()
    case Setresuid(_, _, _) => false
    case _ => true
  }

  predicate SettlingRun(c: Ids, calls: seq<Call>)
    decreases |calls|
  {
    calls != [] ==> Settling(c, calls[0]) && SettlingRun(Apply(c, calls[0]), calls[1..])
  }

  lemma {:induction false} StaysSettled(c: Ids, calls: seq<Call>)
    requires Settled(c) && SettlingRun(c, calls)
    ensures Settled(Run(c, calls))
    decreases |calls|
  {
    if calls != [] {
      StaysSettled(Apply(c, calls[0]), calls[1..]);
    }
  }

  /** Exactly when one call leaves the effective ID different from both others:
      a privileged seteuid() to a third value, or a permitted setresuid() whose
      own three results differ that way.  No other call can. */
  lemma UnsettledExactlyBy(c: Ids, call: Call)
    requires Settled(c)
    ensures !Settled(Apply(c, call)) <==>
              || (call.Seteuid? && c.Privileged() && call.uid !in {c.ruid, c.suid})
              || (call.Setresuid? && Permitted(c, call)
                  && call.e.Or(c.euid) !in {call.r.Or(c.ruid), call.s.Or(c.suid)})
  {}

  /** User 1000 executes a set-user-ID-root program, which then calls seteuid()
      with the ID of a third user. */
  const THIRD_USER := [Exec(true, ROOT), Seteuid(2000)]

  /** setresuid() is not the only call that can do so. */
  lemma SeteuidCanUnsettle()
    ensures var c := Ids(1000, 1000, 1000, 1000);
            Settled(c) && Run(c, THIRD_USER) == Ids(1000, 2000, ROOT, 2000) && !Settled(Run(c, THIRD_USER))
  {
    var c, calls := Ids(1000, 1000, 1000, 1000), THIRD_USER;
    assert calls[1..] == [Seteuid(2000)] && calls[1..][1..] == [];
    assert Run(c, calls) == Run(Ids(1000, ROOT, ROOT, ROOT), calls[1..]);
  }

  /** seteuid(x) and setresuid(-1, x, -1) are the same call. */
  lemma SeteuidIsSetresuid(c: Ids, x: Uid)
    ensures Permitted(c, Seteuid(x)) <==> Permitted(c, Setresuid(Keep, To(x), Keep))
    ensures Apply(c, Seteuid(x)) == Apply(c, Setresuid(Keep, To(x), Keep))
  {}

  // ----- The file-system ID follows the effective ID -----

  /** Only setfsuid() makes the file-system ID differ from the effective one. */
  lemma {:induction false} FileSystemIdFollows(c: Ids, calls: seq<Call>)
    requires c.fsuid == c.euid
    requires forall k :: 0 <= k < |calls| ==> !calls[k].Setfsuid?
    ensures Run(c, calls).fsuid == Run(c, calls).euid
    decreases |calls|
  {
    if calls != [] {
      assert !calls[0].Setfsuid?;
      FileSystemIdFollows(Apply(c, calls[0]), calls[1..]);
    }
  }

  /** setfsuid() is no way round the rules either: without 0 among the three IDs
      the file-system ID stays among the four that there were. */
  lemma {:induction false} FileSystemIdConfined(c: Ids, calls: seq<Call>)
    requires ROOT !in c.Three()
    requires ExecFree(calls)
    ensures Run(c, calls).fsuid in c.Three() + {c.fsuid}
    decreases |calls|
  {
    if calls != [] {
      assert !calls[0].Exec?;
      var next := Apply(c, calls[0]);
      UnprivilegedForever(c, [calls[0]]);
      assert Run(c, [calls[0]]) == Run(next, []) == next;
      FileSystemIdConfined(next, calls[1..]);
    }
  }

  /** The credentials of one process, changed in place by its calls. */
  class Process {
    var ruid: Uid
    var euid: Uid
    var suid: Uid
    var fsuid: Uid

    function View(): Ids
      reads this
    {
      Ids(ruid, euid, suid, fsuid)
    }

    constructor (ids: Ids)
      ensures View() == ids
    {
      ruid, euid := ids.ruid, ids.euid;
      suid, fsuid := ids.suid, ids.fsuid;
    }

    method SetUid(uid: Uid) returns (status: Status)
      modifies this
      ensures status == (if Permitted(old(View()), Setuid(uid)) then Success else EPERM)
      ensures View() == Apply(old(View()), Setuid(uid))
    {
      if euid == ROOT {
        ruid, suid := uid, uid;
      } else if uid != ruid && uid != suid {
        return EPERM;
      }
      euid, fsuid := uid, uid;
      return Success;
    }

    method SetEuid(uid: Uid) returns (status: Status)
      modifies this`euid, this`fsuid
      ensures status == (if Permitted(old(View()), Seteuid(uid)) then Success else EPERM)
      ensures View() == Apply(old(View()), Seteuid(uid))
    {
      if euid != ROOT && uid !in {ruid, euid, suid} {
        return EPERM;
      }
      euid, fsuid := uid, uid;
      return Success;
    }

    method SetReuid(r: Arg, e: Arg) returns (status: Status)
      modifies this
      ensures status == (if Permitted(old(View()), Setreuid(r, e)) then Success else EPERM)
      ensures View() == Apply(old(View()), Setreuid(r, e))
    {
      if euid != ROOT {
        if r.To? && r.uid != ruid && r.uid != euid {
          return EPERM;
        }
        if e.To? && e.uid != ruid && e.uid != euid && e.uid != suid {
          return EPERM;
        }
      }
      var previousReal := ruid;
      if r.To? { ruid := r.uid; }
      if e.To? { euid := e.uid; }
      if r.To? || (e.To? && e.uid != previousReal) {
        suid := euid;
      }
      fsuid := euid;
      return Success;
    }

    method SetResuid(r: Arg, e: Arg, s: Arg) returns (status: Status)
      modifies this
      ensures status == (if Permitted(old(View()), Setresuid(r, e, s)) then Success else EPERM)
      ensures View() == Apply(old(View()), Setresuid(r, e, s))
    {
      var mine := {ruid, euid, suid};
      if euid != ROOT && !(r.Within(mine) && e.Within(mine) && s.Within(mine)) {
        return EPERM;
      }
      if r.To? { ruid := r.uid; }
      if e.To? { euid := e.uid; }
      if s.To? { suid := s.uid; }
      fsuid := euid;
      return Success;
    }

    /** Reports no error: the previous file-system ID comes back whether or not
        the change was allowed. */
    method SetFsuid(uid: Uid) returns (previous: Uid)
      modifies this`fsuid
      ensures previous == old(fsuid)
      ensures View() == Apply(old(View()), Setfsuid(uid))
    {
      previous := fsuid;
      if euid == ROOT || uid in {ruid, euid, suid, fsuid} {
        fsuid := uid;
      }
    }

    method ExecProgram(setUserId: bool, owner: Uid)
      modifies this`euid, this`suid, this`fsuid
      ensures View() == Apply(old(View()), Exec(setUserId, owner))
    {
      if setUserId {
        euid, fsuid := owner, owner;
      }
      suid := euid;
    }

    method Perform(call: Call)
      modifies this
      ensures View() == Apply(old(View()), call)
    {
      match call {
        case Setuid(uid) => var _ := SetUid(uid);
        case Seteuid(uid) => var _ := SetEuid(uid);
        case Setreuid(r, e) => var _ := SetReuid(r, e);
        case Setresuid(r, e, s) => var _ := SetResuid(r, e, s);
        case Setfsuid(uid) => var _ := SetFsuid(uid);
        case Exec(bit, owner) => ExecProgram(bit, owner);
      }
    }

    method PerformAll(calls: seq<Call>)
      modifies this
      ensures View() == Run(old(View()), calls)
    {
      assert calls[0..] == calls;
      for k := 0 to |calls|
        invariant Run(View(), calls[k..]) == Run(old(View()), calls)
      {
        assert calls[k..][0] == calls[k] && calls[k..][1..] == calls[k + 1..];
        Perform(calls[k]);
      }
    }
  }
}
