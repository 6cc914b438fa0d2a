/** Access control lists (acl/README.org) and the traditional permission check
    they extend (files/README.org, section 15.4.3).

    `Check` is the kernel's ordered, first-match algorithm.  `Granted` states
    the same decision without any order, as a property of the set of entries. */
module Acl {
  import opened Basics

  datatype Perm = Read | Write | Execute

  type Perms = set<Perm>

  /** Tag type and, for named users and groups, the tag qualifier. */
  datatype Tag = UserObj | User(uid: nat) | GroupObj | Group(gid: nat) | Mask | Other {
    predicate Named() { User? || Group? }

    /** The entries whose permissions the mask limits. */
    predicate GroupClass() { User? || GroupObj? || Group? }
  }

  datatype Entry = Entry(tag: Tag, perms: Perms)

  datatype File = File(owner: nat, group: nat, isDirectory: bool)

  /** The IDs used in permission checks; user 0 is privileged. */
  datatype Process = Process(uid: nat, groups: set<nat>) {
    predicate Privileged() { uid == 0 }
  }

  /** The nine traditional permission bits. */
  datatype Mode = Mode(user: Perms, group: Perms, other: Perms)

  // ----- Validity -----

  predicate Has(acl: seq<Entry>, tag: Tag) {
    exists k :: 0 <= k < |acl| && acl[k].tag == tag
  }

  predicate DistinctTags(acl: seq<Entry>) {
    forall i, j :: 0 <= i < j < |acl| ==> acl[i].tag != acl[j].tag
  }

  predicate HasRequired(acl: seq<Entry>) {
    Has(acl, UserObj) && Has(acl, GroupObj) && Has(acl, Other)
  }

  predicate Extended(acl: seq<Entry>) {
    exists k :: 0 <= k < |acl| && acl[k].tag.Named()
  }

  predicate Valid(acl: seq<Entry>) {
    && DistinctTags(acl)
    && HasRequired(acl)
    && (Extended(acl) ==> Has(acl, Mask))
  }

  function TagsSeen(acl: seq<Entry>): set<Tag> {
    set k | 0 <= k < |acl| :: acl[k].tag
  }

  /** acl_valid(): one pass over the entries, remembering the tags met. */
  method AclValid(acl: seq<Entry>) returns (ok: bool)
    ensures ok == Valid(acl)
  {
    var seen: set<Tag> := {};
    var named := false;
    for n := 0 to |acl|
      invariant seen == TagsSeen(acl[..n])
      invariant DistinctTags(acl[..n])
      invariant named == Extended(acl[..n])
    {
      assert acl[..n + 1] == acl[..n] + [acl[n]];
      var tag := acl[n].tag;
      if tag in seen {
        assert !DistinctTags(acl);
        return false;
      }
      seen := seen + {tag};
      named := named || tag.Named();
      ghost var more := acl[..n + 1];
      assert forall k :: 0 <= k < n ==> more[k] == acl[..n][k];
      assert more[n].tag == tag;
    }
    assert acl[..|acl|] == acl;
    assert forall t :: t in seen <==> Has(acl, t);
    return UserObj in seen && GroupObj in seen && Other in seen && (named ==> Mask in seen);
  }

  /** How often a tag occurs. */
  function Count(acl: seq<Entry>, tag: Tag): nat {
    if acl == [] then 0
    else Count(acl[..|acl| - 1], tag) + if acl[|acl| - 1].tag == tag then 1 else 0
  }

  lemma {:induction false} CountIs(acl: seq<Entry>, tag: Tag)
    ensures Count(acl, tag) > 0 <==> Has(acl, tag)
    ensures Count(acl, tag) > 1 <==> exists i, j :: 0 <= i < j < |acl| && acl[i].tag == acl[j].tag == tag
  {
    if acl != [] {
      var front := acl[..|acl| - 1];
      CountIs(front, tag);
      assert forall k :: 0 <= k < |front| ==> front[k] == acl[k];
    }
  }

  /** The three entries for owner, group and others occur once each, a mask at
      most once, and no user or group is named twice. */
  ghost predicate OnceEach(acl: seq<Entry>) {
    && Count(acl, UserObj) == 1 && Count(acl, GroupObj) == 1 && Count(acl, Other) == 1
    && Count(acl, Mask) <= 1
    && (forall id :: Count(acl, User(id)) <= 1) && (forall id :: Count(acl, Group(id)) <= 1)
  }

  /** Validity as acl_valid() is said to judge it, by counting; if a user or group
      is named at all there has to be a mask. */
  lemma ValidByCount(acl: seq<Entry>)
    ensures Valid(acl) <==>
              && OnceEach(acl)
              && ((exists id :: Count(acl, User(id)) > 0 || Count(acl, Group(id)) > 0) ==> Count(acl, Mask) == 1)
  {
    forall t: Tag ensures (Count(acl, t) > 0 <==> Has(acl, t)) && (DistinctTags(acl) ==> Count(acl, t) <= 1) {
      CountIs(acl, t);
    }
    NamedByCount(acl);
    if OnceEach(acl) {
      forall i, j | 0 <= i < j < |acl| ensures acl[i].tag != acl[j].tag {
        CountIs(acl, acl[i].tag);
        AtMostOnce(acl, acl[i].tag);
      }
    }
  }

  lemma AtMostOnce(acl: seq<Entry>, tag: Tag)
    requires OnceEach(acl)
    ensures Count(acl, tag) <= 1
  {
    match tag
    case User(id) => assert Count(acl, User(id)) <= 1;
    case Group(id) => assert Count(acl, Group(id)) <= 1;
    case _ =>
  }

  lemma NamedByCount(acl: seq<Entry>)
    ensures Extended(acl) <==> exists id :: Count(acl, User(id)) > 0 || Count(acl, Group(id)) > 0
  {
    if Extended(acl) {
      var k :| 0 <= k < |acl| && acl[k].tag.Named();
      CountIs(acl, acl[k].tag);
      var id := if acl[k].tag.User? then acl[k].tag.uid else acl[k].tag.gid;
      assert acl[k].tag == User(id) || acl[k].tag == Group(id);
    }
    if id :| Count(acl, User(id)) > 0 || Count(acl, Group(id)) > 0 {
      CountIs(acl, User(id));
      CountIs(acl, Group(id));
    }
  }

  // ----- The ordered permission check -----

  /** Permissions of the first entry with this tag. */
  function Find(acl: seq<Entry>, tag: Tag): Option<Perms> {
    if acl == [] then None
    else if acl[0].tag == tag then Some(acl[0].perms)
    else Find(acl[1..], tag)
  }

  function MaskOf(acl: seq<Entry>): Perms {
    match Find(acl, Mask)
    case Some(p) => p
    case None => {Read, Write, Execute}
  }

  function PermsOf(acl: seq<Entry>, tag: Tag): Perms {
    match Find(acl, tag)
    case Some(p) => p
    case None => {}
  }

  /** Step 4b: the first matching ACL_GROUP entry that grants the request
      decides, and what it grants is then masked. */
  predicate GroupScan(acl: seq<Entry>, groups: set<nat>, mask: Perms, request: Perms) {
    if acl == [] then false
    else if acl[0].tag.Group? && acl[0].tag.gid in groups && request <= acl[0].perms then
      request <= acl[0].perms * mask
    else GroupScan(acl[1..], groups, mask, request)
  }

  predicate NamedGroupMatches(acl: seq<Entry>, groups: set<nat>) {
    exists k :: 0 <= k < |acl| && acl[k].tag.Group? && acl[k].tag.gid in groups
  }

  predicate SomeEntryGrantsExecute(acl: seq<Entry>, mask: Perms) {
    if acl == [] then false
    else
      || (acl[0].tag.GroupClass() && Execute in acl[0].perms * mask)
      || (acl[0].tag in {UserObj, Other} && Execute in acl[0].perms)
      || SomeEntryGrantsExecute(acl[1..], mask)
  }

  /** The permission-checking algorithm, in the order in which it is applied. */
  predicate Check(acl: seq<Entry>, file: File, proc: Process, request: Perms) {
    var mask := MaskOf(acl);
    if proc.Privileged() then
      Execute in request && !file.isDirectory ==> SomeEntryGrantsExecute(acl, mask)
    else if proc.uid == file.owner then
      request <= PermsOf(acl, UserObj)
    else if Find(acl, User(proc.uid)).Some? then
      request <= PermsOf(acl, User(proc.uid)) * mask
    else if file.group in proc.groups || NamedGroupMatches(acl, proc.groups) then
      if file.group in proc.groups && request <= PermsOf(acl, GroupObj) then
        request <= PermsOf(acl, GroupObj) * mask
      else GroupScan(acl, proc.groups, mask, request)
    else request <= PermsOf(acl, Other)
  }

  // ----- The same decision as a property of the set of entries -----

  /** `tag` is among the entries that speak for this unprivileged process. */
  ghost predicate SpeaksFor(acl: seq<Entry>, file: File, proc: Process, tag: Tag) {
    if proc.uid == file.owner then tag == UserObj
    else if exists e :: e in acl && e.tag == User(proc.uid) then tag == User(proc.uid)
    else if file.group in proc.groups
         || exists e :: e in acl && e.tag.Group? && e.tag.gid in proc.groups then
      || (tag == GroupObj && file.group in proc.groups)
      || (tag.Group? && tag.gid in proc.groups)
    else tag == Other
  }

  /** `e` grants the request once the mask, if any, is taken into account. */
  ghost predicate Grants(acl: seq<Entry>, e: Entry, request: Perms) {
    && !e.tag.Mask?
    && request <= e.perms
    && (e.tag.GroupClass() ==> forall m :: m in acl && m.tag == Mask ==> request <= m.perms)
  }

  ghost predicate Granted(acl: seq<Entry>, file: File, proc: Process, request: Perms) {
    if proc.Privileged() then
      Execute in request && !file.isDirectory ==> exists e :: e in acl && Grants(acl, e, {Execute})
    else
      exists e :: e in acl && SpeaksFor(acl, file, proc, e.tag) && Grants(acl, e, request)
  }

  lemma {:induction false} FindIsMembership(acl: seq<Entry>, tag: Tag)
    requires DistinctTags(acl)
    ensures Find(acl, tag).Some? <==> exists e :: e in acl && e.tag == tag
    ensures forall e :: e in acl && e.tag == tag ==> Find(acl, tag) == Some(e.perms)
  {
    if acl != [] {
      assert acl == [acl[0]] + acl[1..];
      FindIsMembership(acl[1..], tag);
      if acl[0].tag == tag {
        forall e | e in acl && e.tag == tag ensures e == acl[0] {
          var k :| 0 <= k < |acl| && acl[k] == e;
        }
      }
    }
  }

  lemma {:induction false} GroupScanIsMembership(acl: seq<Entry>, groups: set<nat>, mask: Perms, request: Perms)
    ensures GroupScan(acl, groups, mask, request) <==>
              request <= mask
              && exists e :: e in acl && e.tag.Group? && e.tag.gid in groups && request <= e.perms
  {
    if acl != [] {
      assert acl == [acl[0]] + acl[1..];
      GroupScanIsMembership(acl[1..], groups, mask, request);
    }
  }

  lemma {:induction false} ExecuteIsMembership(acl: seq<Entry>, mask: Perms)
    ensures SomeEntryGrantsExecute(acl, mask) <==>
              exists e :: e in acl && !e.tag.Mask? && Execute in e.perms
                          && (e.tag.GroupClass() ==> Execute in mask)
  {
    if acl != [] {
      assert acl == [acl[0]] + acl[1..];
      ExecuteIsMembership(acl[1..], mask);
    }
  }

  lemma MaskIsMembership(acl: seq<Entry>, request: Perms)
    requires DistinctTags(acl)
    ensures request <= MaskOf(acl) <==> forall m :: m in acl && m.tag == Mask ==> request <= m.perms
  {
    FindIsMembership(acl, Mask);
    if exists m :: m in acl && m.tag == Mask {
      var m :| m in acl && m.tag == Mask;
      assert MaskOf(acl) == m.perms;
    } else {
      forall p | p in request ensures p in MaskOf(acl) {
        match p case Read => case Write => case Execute =>
      }
    }
  }

  lemma HasIsMembership(acl: seq<Entry>, tag: Tag)
    ensures Has(acl, tag) <==> exists e :: e in acl && e.tag == tag
  {}

  /** The required entry that speaks for a class grants exactly its permissions. */
  lemma PermsOfIsMembership(acl: seq<Entry>, tag: Tag, request: Perms)
    requires DistinctTags(acl) && Has(acl, tag)
    ensures request <= PermsOf(acl, tag) <==> exists e :: e in acl && e.tag == tag && request <= e.perms
  {
    FindIsMembership(acl, tag);
    HasIsMembership(acl, tag);
  }

  /** First match in order and the order-free rule decide alike. */
  lemma CheckIsGranted(acl: seq<Entry>, file: File, proc: Process, request: Perms)
    requires Valid(acl)
    ensures Check(acl, file, proc, request) <==> Granted(acl, file, proc, request)
  {
    if proc.Privileged() {
      PrivilegedCheckIsGranted(acl, file, proc, request);
    } else if proc.uid == file.owner {
      PermsOfIsMembership(acl, UserObj, request);
    } else {
      FindIsMembership(acl, User(proc.uid));
      if Find(acl, User(proc.uid)).Some? {
        HasIsMembership(acl, User(proc.uid));
        PermsOfIsMembership(acl, User(proc.uid), request);
        MaskIsMembership(acl, request);
      } else if file.group in proc.groups || NamedGroupMatches(acl, proc.groups) {
        GroupCheckIsGranted(acl, file, proc, request);
      } else {
        assert forall e :: e in acl && e.tag.Group? ==> e.tag.gid !in proc.groups;
        PermsOfIsMembership(acl, Other, request);
      }
    }
  }

  lemma PrivilegedCheckIsGranted(acl: seq<Entry>, file: File, proc: Process, request: Perms)
    requires Valid(acl) && proc.Privileged()
    ensures Check(acl, file, proc, request) <==> Granted(acl, file, proc, request)
  {
    ExecuteIsMembership(acl, MaskOf(acl));
    MaskIsMembership(acl, {Execute});
    assert {Execute} <= MaskOf(acl) <==> Execute in MaskOf(acl);
    assert forall e: Entry :: {Execute} <= e.perms <==> Execute in e.perms;
  }

  lemma GroupCheckIsGranted(acl: seq<Entry>, file: File, proc: Process, request: Perms)
    requires Valid(acl) && !proc.Privileged() && proc.uid != file.owner
    requires forall e :: e in acl ==> e.tag != User(proc.uid)
    requires file.group in proc.groups || NamedGroupMatches(acl, proc.groups)
    ensures Check(acl, file, proc, request) <==> Granted(acl, file, proc, request)
  {
    FindIsMembership(acl, User(proc.uid));
    PermsOfIsMembership(acl, GroupObj, request);
    GroupScanIsMembership(acl, proc.groups, MaskOf(acl), request);
    MaskIsMembership(acl, request);
    if NamedGroupMatches(acl, proc.groups) {
      var k :| 0 <= k < |acl| && acl[k].tag.Group? && acl[k].tag.gid in proc.groups;
      assert acl[k] in acl;
    }
  }

  lemma PermutedMembers(acl: seq<Entry>, acl': seq<Entry>)
    requires multiset(acl) == multiset(acl')
    ensures forall e :: e in acl <==> e in acl'
  {
    forall e ensures e in acl <==> e in acl' {
      assert e in acl <==> e in multiset(acl);
      assert e in acl' <==> e in multiset(acl');
    }
  }

  /** Distinct tags are a matter of how often an entry occurs, and of which. */
  lemma PermutedDistinct(acl: seq<Entry>, acl': seq<Entry>)
    requires DistinctTags(acl) && multiset(acl) == multiset(acl')
    ensures DistinctTags(acl')
  {
    forall i, j | 0 <= i < j < |acl'| ensures acl'[i].tag != acl'[j].tag {
      if acl'[i].tag == acl'[j].tag {
        PermutedMembers(acl, acl');
        assert acl'[i] in acl && acl'[j] in acl;
        var x :| 0 <= x < |acl| && acl[x] == acl'[i];
        var y :| 0 <= y < |acl| && acl[y] == acl'[j];
        assert x == y;
        OccursTwice(acl', i, j);
        OccursOnce(acl, x);
      }
    }
  }

  lemma OccursTwice(s: seq<Entry>, i: nat, j: nat)
    requires i < j < |s| && s[i] == s[j]
    ensures multiset(s)[s[i]] >= 2
  {
    assert s == s[..j] + s[j..];
    assert s[i] in s[..j] && s[j] in s[j..];
    assert multiset(s[..j])[s[i]] >= 1 && multiset(s[j..])[s[j]] >= 1;
  }

  lemma OccursOnce(s: seq<Entry>, x: nat)
    requires DistinctTags(s) && x < |s|
    ensures multiset(s)[s[x]] == 1
  {
    var e, before, after := s[x], s[..x], s[x + 1..];
    assert s == before + [e] + after;
    assert e !in before && e !in after;
    assert multiset(before)[e] == 0 && multiset(after)[e] == 0;
  }

  lemma PermutedValid(acl: seq<Entry>, acl': seq<Entry>)
    requires Valid(acl) && multiset(acl) == multiset(acl')
    ensures Valid(acl')
  {
    PermutedDistinct(acl, acl');
    PermutedMembers(acl, acl');
    forall t ensures Has(acl, t) <==> Has(acl', t) {
      HasIsMembership(acl, t);
      HasIsMembership(acl', t);
    }
    if Extended(acl') {
      var k :| 0 <= k < |acl'| && acl'[k].tag.Named();
      assert acl'[k] in acl;
    }
  }

  /** The decision does not depend on the order in which entries are stored. */
  lemma CheckIgnoresOrder(acl: seq<Entry>, acl': seq<Entry>, file: File, proc: Process, request: Perms)
    requires Valid(acl) && multiset(acl) == multiset(acl')
    ensures Valid(acl')
    ensures Check(acl, file, proc, request) == Check(acl', file, proc, request)
  {
    PermutedMembers(acl, acl');
    PermutedValid(acl, acl');
    CheckIsGranted(acl, file, proc, request);
    CheckIsGranted(acl', file, proc, request);
    SpeaksForIgnoresOrder(acl, acl', file, proc);
    assert forall e :: Grants(acl, e, request) <==> Grants(acl', e, request);
    assert forall e :: Grants(acl, e, {Execute}) <==> Grants(acl', e, {Execute});
  }

  lemma SpeaksForIgnoresOrder(acl: seq<Entry>, acl': seq<Entry>, file: File, proc: Process)
    requires forall e :: e in acl <==> e in acl'
    ensures forall t :: SpeaksFor(acl, file, proc, t) <==> SpeaksFor(acl', file, proc, t)
  {}

  // ----- Traditional permissions -----

  /** Owner, group, other: the first class that applies decides alone. */
  predicate TraditionalCheck(mode: Mode, file: File, proc: Process, request: Perms) {
    if proc.Privileged() then
      Execute in request && !file.isDirectory ==> Execute in mode.user + mode.group + mode.other
    else if proc.uid == file.owner then request <= mode.user
    else if file.group in proc.groups then request <= mode.group
    else request <= mode.other
  }

  predicate Minimal(acl: seq<Entry>) {
    Valid(acl) && forall k :: 0 <= k < |acl| ==> acl[k].tag in {UserObj, GroupObj, Other}
  }

  /** What stat() reports: the mask, if there is one, shows as the group bits. */
  function Stat(acl: seq<Entry>): Mode {
    Mode(PermsOf(acl, UserObj),
         if Has(acl, Mask) then MaskOf(acl) else PermsOf(acl, GroupObj),
         PermsOf(acl, Other))
  }

  /** A minimal ACL means exactly what the traditional mode means. */
  lemma MinimalIsTraditional(acl: seq<Entry>, file: File, proc: Process, request: Perms)
    requires Minimal(acl)
    ensures Check(acl, file, proc, request) == TraditionalCheck(Stat(acl), file, proc, request)
  {
    assert forall e :: e in acl ==> e.tag in {UserObj, GroupObj, Other};
    CheckIsGranted(acl, file, proc, request);
    if proc.Privileged() {
      PermsOfIsMembership(acl, UserObj, {Execute});
      PermsOfIsMembership(acl, GroupObj, {Execute});
      PermsOfIsMembership(acl, Other, {Execute});
      assert forall s: Perms :: {Execute} <= s <==> Execute in s;
    } else {
      PermsOfIsMembership(acl, UserObj, request);
      PermsOfIsMembership(acl, GroupObj, request);
      PermsOfIsMembership(acl, Other, request);
    }
  }

  // ----- chmod() -----

  function ChmodEntry(e: Entry, mode: Mode, hasMask: bool): Entry {
    match e.tag
    case UserObj => Entry(UserObj, mode.user)
    case Other => Entry(Other, mode.other)
    case Mask => Entry(Mask, mode.group)
    case GroupObj => if hasMask then e else Entry(GroupObj, mode.group)
    case _ => e
  }

  function Chmod(acl: seq<Entry>, mode: Mode): seq<Entry> {
    seq(|acl|, k requires 0 <= k < |acl| => ChmodEntry(acl[k], mode, Has(acl, Mask)))
  }

  lemma ChmodKeepsTags(acl: seq<Entry>, mode: Mode)
    ensures |Chmod(acl, mode)| == |acl|
    ensures forall k :: 0 <= k < |acl| ==> Chmod(acl, mode)[k].tag == acl[k].tag
    ensures forall t :: Has(Chmod(acl, mode), t) == Has(acl, t)
    ensures Valid(acl) ==> Valid(Chmod(acl, mode))
  {}

  lemma FindAt(acl: seq<Entry>, k: nat)
    requires DistinctTags(acl) && k < |acl|
    ensures Find(acl, acl[k].tag) == Some(acl[k].perms)
  {
    FindIsMembership(acl, acl[k].tag);
    assert acl[k] in acl;
  }

  /** stat() after chmod() reads back the mode that was set. */
  lemma StatAfterChmod(acl: seq<Entry>, mode: Mode)
    requires Valid(acl)
    ensures Valid(Chmod(acl, mode))
    ensures Stat(Chmod(acl, mode)) == mode
  {
    var acl' := Chmod(acl, mode);
    ChmodKeepsTags(acl, mode);
    var u :| 0 <= u < |acl| && acl[u].tag == UserObj;
    FindAt(acl', u);
    var o :| 0 <= o < |acl| && acl[o].tag == Other;
    FindAt(acl', o);
    var shown := if Has(acl, Mask) then Mask else GroupObj;
    var g :| 0 <= g < |acl| && acl[g].tag == shown;
    FindAt(acl', g);
  }

  /** chmod() back to the mode stat() showed before restores every entry. */
  lemma ChmodBackRestores(acl: seq<Entry>, mode: Mode)
    requires Valid(acl)
    ensures Chmod(Chmod(acl, mode), Stat(acl)) == acl
  {
    var acl' := Chmod(acl, mode);
    ChmodKeepsTags(acl, mode);
    forall k | 0 <= k < |acl|
      ensures ChmodEntry(acl'[k], Stat(acl), Has(acl', Mask)) == acl[k]
    {
      FindAt(acl, k);
      if acl[k].tag == Mask { assert Has(acl, Mask); }
    }
  }

  /** The mode shown by stat() bounds what the ACL grants without privilege. */
  lemma StatBoundsGrants(acl: seq<Entry>, file: File, proc: Process, request: Perms)
    requires Valid(acl) && !proc.Privileged()
    requires Check(acl, file, proc, request)
    ensures proc.uid == file.owner ==> request <= Stat(acl).user
    ensures proc.uid != file.owner ==> request <= Stat(acl).group || request <= Stat(acl).other
  {
    if proc.uid != file.owner {
      CheckIsGranted(acl, file, proc, request);
      var e :| e in acl && SpeaksFor(acl, file, proc, e.tag) && Grants(acl, e, request);
      var k :| 0 <= k < |acl| && acl[k] == e;
      FindAt(acl, k);
      MaskIsMembership(acl, request);
      assert e.tag.Named() ==> Extended(acl);
    }
  }

  /** chmod(0700) and the like deny everyone but the owner, whatever the ACL. */
  lemma ChmodLocksOut(acl: seq<Entry>, mode: Mode, file: File, proc: Process, request: Perms)
    requires Valid(acl) && mode.group == {} && mode.other == {}
    requires !proc.Privileged() && proc.uid != file.owner && request != {}
    ensures !Check(Chmod(acl, mode), file, proc, request)
  {
    StatAfterChmod(acl, mode);
    if Check(Chmod(acl, mode), file, proc, request) {
      StatBoundsGrants(Chmod(acl, mode), file, proc, request);
    }
  }

  // ----- acl_calc_mask() -----

  function GroupClassUnion(acl: seq<Entry>): Perms {
    if acl == [] then {}
    else
      GroupClassUnion(acl[..|acl| - 1])
      + (if acl[|acl| - 1].tag.GroupClass() then acl[|acl| - 1].perms else {})
  }

  method UnionOfGroupClass(acl: seq<Entry>) returns (union: Perms)
    ensures union == GroupClassUnion(acl)
  {
    union := {};
    for n := 0 to |acl|
      invariant union == GroupClassUnion(acl[..n])
    {
      assert acl[..n + 1][..n] == acl[..n];
      if acl[n].tag.GroupClass() { union := union + acl[n].perms; }
    }
    assert acl[..|acl|] == acl;
  }

  function SetMask(acl: seq<Entry>, mask: Perms): seq<Entry> {
    if Has(acl, Mask) then
      seq(|acl|, k requires 0 <= k < |acl| => if acl[k].tag == Mask then Entry(Mask, mask) else acl[k])
    else acl + [Entry(Mask, mask)]
  }

  function CalcMask(acl: seq<Entry>): seq<Entry> { SetMask(acl, GroupClassUnion(acl)) }

  lemma {:induction false} UnionIsLeast(acl: seq<Entry>, bound: Perms)
    ensures GroupClassUnion(acl) <= bound <==>
              forall e :: e in acl && e.tag.GroupClass() ==> e.perms <= bound
  {
    if acl != [] {
      var last := |acl| - 1;
      assert acl == acl[..last] + [acl[last]];
      UnionIsLeast(acl[..last], bound);
    }
  }

  lemma SetMaskTags(acl: seq<Entry>, mask: Perms)
    ensures var acl' := SetMask(acl, mask);
            && Has(acl', Mask)
            && |acl'| == (if Has(acl, Mask) then |acl| else |acl| + 1)
            && (forall k :: 0 <= k < |acl| ==> acl'[k].tag == acl[k].tag)
            && (forall k :: 0 <= k < |acl'| && acl'[k].tag == Mask ==> acl'[k].perms == mask)
  {
    var acl' := SetMask(acl, mask);
    if Has(acl, Mask) {
      var k :| 0 <= k < |acl| && acl[k].tag == Mask;
      assert acl'[k].tag == Mask;
    } else {
      assert acl'[|acl|].tag == Mask;
    }
  }

  lemma SetMaskKeepsOthers(acl: seq<Entry>, mask: Perms, e: Entry)
    requires e.tag != Mask
    ensures e in SetMask(acl, mask) <==> e in acl
  {}

  /** acl_calc_mask() makes any ACL valid that lacks nothing but a mask, and
      leaves every entry other than the mask as it was. */
  lemma CalcMaskMakesValid(acl: seq<Entry>)
    requires DistinctTags(acl) && HasRequired(acl)
    ensures Valid(CalcMask(acl))
    ensures Find(CalcMask(acl), Mask) == Some(GroupClassUnion(acl))
    ensures forall e: Entry :: e.tag != Mask ==> (e in CalcMask(acl) <==> e in acl)
  {
    var acl' := CalcMask(acl);
    SetMaskTags(acl, GroupClassUnion(acl));
    assert DistinctTags(acl');
    forall t | Has(acl, t) ensures Has(acl', t) {
      var k :| 0 <= k < |acl| && acl[k].tag == t;
      assert acl'[k].tag == t;
    }
    var k :| 0 <= k < |acl'| && acl'[k].tag == Mask;
    FindAt(acl', k);
    forall e: Entry | e.tag != Mask ensures e in acl' <==> e in acl {
      SetMaskKeepsOthers(acl, GroupClassUnion(acl), e);
    }
  }

  /** The calculated mask takes nothing away from any group-class entry, and it
      is the smallest mask of which that is true. */
  lemma CalcMaskIsLeastNeutral(acl: seq<Entry>, mask: Perms)
    requires DistinctTags(acl) && HasRequired(acl)
    ensures MaskOf(CalcMask(acl)) <= mask <==>
              forall e :: e in acl && e.tag.GroupClass() ==> e.perms * mask == e.perms
  {
    CalcMaskMakesValid(acl);
    UnionIsLeast(acl, mask);
    assert forall e :: e in acl ==> (e.perms <= mask <==> e.perms * mask == e.perms);
  }

  // ----- Default ACLs -----

  function Restrict(e: Entry, mode: Mode, hasMask: bool): Entry {
    e.(perms := e.perms * (match e.tag
                           case UserObj => mode.user
                           case Other => mode.other
                           case Mask => mode.group
                           case GroupObj => if hasMask then e.perms else mode.group
                           case _ => e.perms))
  }

  /** The access ACL of a file created in a directory with this default ACL. */
  function Inherit(default: seq<Entry>, mode: Mode): seq<Entry> {
    seq(|default|, k requires 0 <= k < |default| => Restrict(default[k], mode, Has(default, Mask)))
  }

  /** Creation behaves as chmod() to the default's mode cut down by the caller's. */
  lemma InheritIsChmod(default: seq<Entry>, mode: Mode)
    requires Valid(default)
    ensures var shown := Stat(default);
            Inherit(default, mode) ==
              Chmod(default, Mode(shown.user * mode.user, shown.group * mode.group, shown.other * mode.other))
  {
    forall k | 0 <= k < |default|
      ensures var shown := Stat(default);
              Inherit(default, mode)[k] ==
                ChmodEntry(default[k],
                           Mode(shown.user * mode.user, shown.group * mode.group, shown.other * mode.other),
                           Has(default, Mask))
    {
      FindAt(default, k);
      if default[k].tag == Mask { assert Has(default, Mask); }
    }
  }

  /** The ACL of one file, changed in place. */
  class FileAcl {
    var entries: seq<Entry>

    constructor (acl: seq<Entry>)
      ensures entries == acl
    {
      entries := acl;
    }

    method ChangeMode(mode: Mode)
      modifies this
      ensures entries == Chmod(old(entries), mode)
    {
      var hasMask := Has(entries, Mask);
      for n := 0 to |entries|
        invariant |entries| == |old(entries)|
        invariant entries[..n] == Chmod(old(entries), mode)[..n]
        invariant entries[n..] == old(entries)[n..]
      {
        var e := entries[n];
        assert e == old(entries)[n];
        match e.tag {
          case UserObj => entries := entries[n := e.(perms := mode.user)];
          case Other => entries := entries[n := e.(perms := mode.other)];
          case Mask => entries := entries[n := e.(perms := mode.group)];
          case GroupObj => if !hasMask { entries := entries[n := e.(perms := mode.group)]; }
          case _ =>
        }
      }
    }

    method RecalculateMask()
      modifies this
      ensures entries == CalcMask(old(entries))
    {
      var union := UnionOfGroupClass(entries);
      if !Has(entries, Mask) {
        entries := entries + [Entry(Mask, union)];
        return;
      }
      ghost var result := SetMask(entries, union);
      for n := 0 to |entries|
        invariant |entries| == |result|
        invariant forall k :: 0 <= k < |entries| ==>
                                entries[k] == if k < n then result[k] else old(entries)[k]
      {
        if entries[n].tag == Mask { entries := entries[n := Entry(Mask, union)]; }
      }
    }
  }
}
