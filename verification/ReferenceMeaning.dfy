/** What renaming and deleting a user do to the references stored elsewhere, and
    that they change nobody else's groups, netgroups and sudo roles. */
module ReferenceMeaning {
  import opened NetgroupTriple
  import opened NetgroupGraph
  import opened UserReferences

  function Replaced(list: seq<string>, from: string, to: string): seq<string> {
    seq(|list|, i requires 0 <= i < |list| => if list[i] == from then to else list[i])
  }

  function RenamedTriples(triples: seq<Triple>, oldUid: string, newUid: string): seq<Triple> {
    seq(|triples|, i requires 0 <= i < |triples| =>
      if triples[i].NamesUser(oldUid) then triples[i].WithUser(newUid) else triples[i])
  }

  function WithoutUser(triples: seq<Triple>, uid: string): seq<Triple> {
    if triples == [] then []
    else (if triples[0].NamesUser(uid) then [] else [triples[0]]) + WithoutUser(triples[1..], uid)
  }

  /** Deleting one value of an attribute: values are unique, so at most one goes. */
  function Without(list: seq<string>, value: string): seq<string> {
    if list == [] then []
    else (if list[0] == value then [] else [list[0]]) + Without(list[1..], value)
  }

  ghost predicate TriplesName(triples: seq<Triple>, uid: string) {
    exists t :: t in triples && t.NamesUser(uid)
  }

  /** A netgroup naming the user, saved with these triples; any other is not written. */
  ghost function Rewritten(n: StoredNetgroup, uid: string, triples: seq<Triple>): StoredNetgroup {
    if TriplesName(ParsedTriples(n.values), uid)
    then n.(values := SavedValues(triples, MalformedValues(n.values)))
    else n
  }

  ghost function RenamedGroup(g: Group, oldUid: string, newUid: string): Group {
    if oldUid in g.memberUids then g.(memberUids := Clearing(Replaced(g.memberUids, oldUid, newUid))) else g
  }

  ghost function RenamedNetgroup(n: StoredNetgroup, oldUid: string, newUid: string): StoredNetgroup {
    Rewritten(n, oldUid, RenamedTriples(ParsedTriples(n.values), oldUid, newUid))
  }

  ghost function RenamedDirectory(d: Directory, oldUid: string, newUid: string): Directory {
    d.(groups := GroupsRenamed(d.groups, oldUid, newUid),
       roles := RolesRenamed(d.roles, oldUid, newUid),
       netgroups := NetgroupsRenamed(d.netgroups, oldUid, newUid))
  }

  ghost function GroupsRenamed(groups: map<Id, Group>, oldUid: string, newUid: string): map<Id, Group> {
    map id | id in groups :: RenamedGroup(groups[id], oldUid, newUid)
  }

  ghost function RolesRenamed(roles: map<Id, seq<string>>, oldUid: string, newUid: string): map<Id, seq<string>> {
    map id | id in roles :: Replaced(roles[id], oldUid, newUid)
  }

  ghost function NetgroupsRenamed(netgroups: map<string, StoredNetgroup>, oldUid: string, newUid: string): map<string, StoredNetgroup> {
    map cn | cn in netgroups :: RenamedNetgroup(netgroups[cn], oldUid, newUid)
  }

  ghost function StrippedGroup(g: Group, uid: string): Group {
    g.(memberUids := Without(g.memberUids, uid))
  }

  ghost function StrippedNetgroup(n: StoredNetgroup, uid: string): StoredNetgroup {
    Rewritten(n, uid, WithoutUser(ParsedTriples(n.values), uid))
  }

  ghost function StrippedDirectory(d: Directory, uid: string): Directory {
    d.(groups := GroupsStripped(d.groups, uid),
       roles := RolesStripped(d.roles, uid),
       netgroups := NetgroupsStripped(d.netgroups, uid))
  }

  ghost function GroupsStripped(groups: map<Id, Group>, uid: string): map<Id, Group> {
    map id | id in groups :: StrippedGroup(groups[id], uid)
  }

  ghost function RolesStripped(roles: map<Id, seq<string>>, uid: string): map<Id, seq<string>> {
    map id | id in roles :: Without(roles[id], uid)
  }

  ghost function NetgroupsStripped(netgroups: map<string, StoredNetgroup>, uid: string): map<string, StoredNetgroup> {
    map cn | cn in netgroups :: StrippedNetgroup(netgroups[cn], uid)
  }

  /** The directory with one group carrying another name. */
  ghost function GroupNamed(d: Directory, id: Id, cn: string): Directory
    requires id in d.groups
  {
    d.(groups := d.groups[id := d.groups[id].(cn := cn)])
  }

  // ---- lists ----

  lemma ReplacedIn(list: seq<string>, from: string, to: string, x: string)
    ensures x in Replaced(list, from, to) <==> (x != from && x in list) || (x == to && from in list)
  {
    var out := Replaced(list, from, to);
    if x != from && x in list {
      var i :| 0 <= i < |list| && list[i] == x;
      assert out[i] == x;
    }
    if x == to && from in list {
      var i :| 0 <= i < |list| && list[i] == from;
      assert out[i] == to;
    }
  }

  lemma {:induction false} ClearingIn(list: seq<string>, x: string)
    ensures x in Clearing(list) <==> x != "" && x in list
  {
    if list != [] {
      ClearingIn(list[1..], x);
    }
  }

  lemma {:induction false} WithoutIn(list: seq<string>, value: string, x: string)
    ensures x in Without(list, value) <==> x != value && x in list
  {
    if list != [] {
      WithoutIn(list[1..], value, x);
    }
  }

  lemma {:induction false} WithoutNothing(list: seq<string>, value: string)
    requires value !in list
    ensures Without(list, value) == list
  {
    if list != [] {
      WithoutNothing(list[1..], value);
      assert list == [list[0]] + list[1..];
    }
  }

  lemma {:induction false} WithoutUserIn(triples: seq<Triple>, uid: string, t: Triple)
    ensures t in WithoutUser(triples, uid) <==> t in triples && !t.NamesUser(uid)
  {
    if triples != [] {
      WithoutUserIn(triples[1..], uid, t);
    }
  }

  lemma {:induction false} WithoutUserCount(triples: seq<Triple>, uid: string, t: Triple)
    ensures multiset(WithoutUser(triples, uid))[t] == if t.NamesUser(uid) then 0 else multiset(triples)[t]
  {
    if triples != [] {
      WithoutUserCount(triples[1..], uid, t);
      assert triples == [triples[0]] + triples[1..];
    }
  }

  lemma {:induction false} WithoutCount(list: seq<string>, value: string, x: string)
    ensures multiset(Without(list, value))[x] == if x == value then 0 else multiset(list)[x]
  {
    if list != [] {
      WithoutCount(list[1..], value, x);
      assert list == [list[0]] + list[1..];
    }
  }

  lemma RenamedTriplesName(triples: seq<Triple>, oldUid: string, newUid: string, x: string)
    requires oldUid != "" && newUid != ""
    ensures TriplesName(RenamedTriples(triples, oldUid, newUid), x)
            <==> (x != oldUid && TriplesName(triples, x)) || (x == newUid && TriplesName(triples, oldUid))
  {
    var out := RenamedTriples(triples, oldUid, newUid);
    if t :| t in triples && t.NamesUser(x) && x != oldUid {
      var i :| 0 <= i < |triples| && triples[i] == t;
      assert out[i] == t;
    }
    if t :| x == newUid && t in triples && t.NamesUser(oldUid) {
      var i :| 0 <= i < |triples| && triples[i] == t;
      assert out[i].NamesUser(newUid);
    }
    if t :| t in out && t.NamesUser(x) {
      var i :| 0 <= i < |triples| && out[i] == t;
      assert triples[i] in triples;
    }
  }

  // ---- one netgroup ----

  /** Rewriting keeps the nesting and the unreadable values, and reads back as written. */
  lemma RewrittenReads(n: StoredNetgroup, uid: string, triples: seq<Triple>)
    requires "" !in n.values && forall t :: t in triples ==> StorableTriple(t)
    requires !TriplesName(ParsedTriples(n.values), uid) ==> triples == ParsedTriples(n.values)
    ensures ParsedTriples(Rewritten(n, uid, triples).values) == triples
    ensures MalformedValues(Rewritten(n, uid, triples).values) == MalformedValues(n.values)
    ensures Rewritten(n, uid, triples).members == n.members
  {
    SaveReadsBack(triples, n.values);
  }

  lemma AllParsedStorable(values: seq<string>)
    ensures forall t :: t in ParsedTriples(values) ==> StorableTriple(t)
  {
    forall t | t in ParsedTriples(values)
      ensures StorableTriple(t)
    {
      ParsedFrom(values, t);
    }
  }

  lemma RenamedNetgroupReads(n: StoredNetgroup, oldUid: string, newUid: string)
    requires "" !in n.values && Storable(newUid)
    ensures var after := RenamedNetgroup(n, oldUid, newUid);
            && ParsedTriples(after.values) == RenamedTriples(ParsedTriples(n.values), oldUid, newUid)
            && MalformedValues(after.values) == MalformedValues(n.values)
            && after.members == n.members
  {
    var before := ParsedTriples(n.values);
    var triples := RenamedTriples(before, oldUid, newUid);
    AllParsedStorable(n.values);
    forall t | t in triples
      ensures StorableTriple(t)
    {
      var i :| 0 <= i < |before| && triples[i] == t;
      assert before[i] in before;
    }
    if !TriplesName(before, oldUid) {
      assert forall i :: 0 <= i < |before| ==> before[i] in before;
      assert triples == before;
    }
    RewrittenReads(n, oldUid, triples);
  }

  lemma {:induction false} WithoutNobody(triples: seq<Triple>, uid: string)
    requires !TriplesName(triples, uid)
    ensures WithoutUser(triples, uid) == triples
  {
    if triples != [] {
      assert triples[0] in triples;
      assert forall t :: t in triples[1..] ==> t in triples;
      WithoutNobody(triples[1..], uid);
    }
  }

  lemma StrippedNetgroupReads(n: StoredNetgroup, uid: string)
    requires "" !in n.values
    ensures var after := StrippedNetgroup(n, uid);
            && ParsedTriples(after.values) == WithoutUser(ParsedTriples(n.values), uid)
            && MalformedValues(after.values) == MalformedValues(n.values)
            && after.members == n.members
  {
    var before := ParsedTriples(n.values);
    AllParsedStorable(n.values);
    forall t | t in WithoutUser(before, uid)
      ensures StorableTriple(t)
    {
      WithoutUserIn(before, uid, t);
    }
    if !TriplesName(before, uid) {
      WithoutNobody(before, uid);
    }
    RewrittenReads(n, uid, WithoutUser(before, uid));
  }

  // ---- rename ----

  /** The uid whose references y's references are after the rename. */
  function Origin(oldUid: string, newUid: string, y: string): string {
    if y == newUid then oldUid else y
  }

  /** Uids between which every kind of reference can be carried: sudo reads neither as more
      than a user, the old one is not the slot that matches nobody, and the new one can be
      named wherever the old one could. */
  predicate Carries(oldUid: string, newUid: string) {
    && SudoPlain(oldUid) && SudoPlain(newUid)
    && oldUid != NO_MATCH && newUid != ""
    && (Namable(oldUid) ==> Namable(newUid))
  }

  ghost predicate RenameApplies(d: Directory, oldUid: string, newUid: string) {
    Carries(oldUid, newUid) && oldUid != newUid && ReferencedNowhere(d, newUid) && NoEmptyValues(d)
  }

  lemma NeverNamed(n: StoredNetgroup, uid: string)
    requires !Namable(uid) && uid != NO_MATCH
    ensures !TriplesName(ParsedTriples(n.values), uid)
  {
    if t :| t in ParsedTriples(n.values) && t.NamesUser(uid) {
      ParsedFrom(n.values, t);
    }
  }

  lemma RenamedNames(d: Directory, oldUid: string, newUid: string, y: string, cn: string)
    requires RenameApplies(d, oldUid, newUid) && cn in d.netgroups
    ensures var n, m := ReadNetgroup(cn, d.netgroups[cn]), ReadNetgroup(cn, RenamedDirectory(d, oldUid, newUid).netgroups[cn]);
            && m.members == n.members && !NamesUser(m, oldUid)
            && (y != oldUid ==> (NamesUser(n, Origin(oldUid, newUid, y)) <==> NamesUser(m, y)))
  {
    var n := ReadNetgroup(cn, d.netgroups[cn]);
    assert !NamesUser(n, newUid);
    if Namable(oldUid) {
      RenamedNetgroupReads(d.netgroups[cn], oldUid, newUid);
      RenamedTriplesName(n.triples, oldUid, newUid, y);
      RenamedTriplesName(n.triples, oldUid, newUid, oldUid);
    } else {
      NeverNamed(d.netgroups[cn], oldUid);
    }
  }

  lemma RenamedGroups(d: Directory, oldUid: string, newUid: string, y: string)
    requires RenameApplies(d, oldUid, newUid) && y != oldUid && y != ""
    ensures GroupsOf(RenamedDirectory(d, oldUid, newUid), y) == GroupsOf(d, Origin(oldUid, newUid, y))
  {
    var d' := RenamedDirectory(d, oldUid, newUid);
    forall id | id in d.groups
      ensures y in d'.groups[id].memberUids <==> Origin(oldUid, newUid, y) in d.groups[id].memberUids
    {
      var members := d.groups[id].memberUids;
      ReplacedIn(members, oldUid, newUid, y);
      ClearingIn(Replaced(members, oldUid, newUid), y);
    }
  }

  lemma RenamedNetgroups(d: Directory, oldUid: string, newUid: string, y: string)
    requires RenameApplies(d, oldUid, newUid) && y != oldUid
    ensures NetgroupsOf(RenamedDirectory(d, oldUid, newUid), y) == NetgroupsOf(d, Origin(oldUid, newUid, y))
  {
    var d' := RenamedDirectory(d, oldUid, newUid);
    var g, h := GraphOf(d), GraphOf(d');
    forall cn | cn in g
      ensures h[cn].members == g[cn].members
      ensures NamesUser(g[cn], Origin(oldUid, newUid, y)) <==> NamesUser(h[cn], y)
    {
      RenamedNames(d, oldUid, newUid, y, cn);
    }
    MembershipsOfSameEdges(g, h, Origin(oldUid, newUid, y), y);
  }

  lemma RenamedCovers(d: Directory, oldUid: string, newUid: string, y: string, value: string)
    requires RenameApplies(d, oldUid, newUid) && y != oldUid && y != ""
    requires value != y && value != Origin(oldUid, newUid, y)
    ensures Covers(RenamedDirectory(d, oldUid, newUid), y, value) <==> Covers(d, Origin(oldUid, newUid, y), value)
  {
    RenamedGroups(d, oldUid, newUid, y);
    RenamedNetgroups(d, oldUid, newUid, y);
  }

  /** A value sudo reads as a user covers that user alone. */
  lemma PlainUidCovers(d: Directory, uid: string, value: string)
    requires SudoPlain(value)
    ensures Covers(d, uid, value) <==> value == uid
  {
  }

  lemma RenamedRoles(d: Directory, oldUid: string, newUid: string, y: string)
    requires RenameApplies(d, oldUid, newUid) && y != oldUid && y != ""
    ensures RolesOf(RenamedDirectory(d, oldUid, newUid), y) == RolesOf(d, Origin(oldUid, newUid, y))
  {
    var d', x := RenamedDirectory(d, oldUid, newUid), Origin(oldUid, newUid, y);
    forall id | id in d.roles
      ensures id in RolesOf(d', y) <==> id in RolesOf(d, x)
    {
      var values, values' := d.roles[id], d'.roles[id];
      if v :| v in values && Covers(d, x, v) {
        RenamedRoleForward(d, oldUid, newUid, y, values, v);
      }
      if v :| v in values' && Covers(d', y, v) {
        RenamedRoleBack(d, oldUid, newUid, y, values, v);
      }
    }
  }

  lemma RenamedRoleForward(d: Directory, oldUid: string, newUid: string, y: string, values: seq<string>, v: string)
    requires RenameApplies(d, oldUid, newUid) && y != oldUid && y != ""
    requires v in values && Covers(d, Origin(oldUid, newUid, y), v) && newUid !in values
    ensures exists w :: w in Replaced(values, oldUid, newUid) && Covers(RenamedDirectory(d, oldUid, newUid), y, w)
  {
    if v == Origin(oldUid, newUid, y) {
      ReplacedIn(values, oldUid, newUid, y);
      assert y in Replaced(values, oldUid, newUid);
      assert Covers(RenamedDirectory(d, oldUid, newUid), y, y);
    } else {
      if v == oldUid {
        PlainUidCovers(d, Origin(oldUid, newUid, y), v);
      }
      ReplacedIn(values, oldUid, newUid, v);
      RenamedCovers(d, oldUid, newUid, y, v);
      assert v in Replaced(values, oldUid, newUid);
    }
  }

  lemma RenamedRoleBack(d: Directory, oldUid: string, newUid: string, y: string, values: seq<string>, v: string)
    requires RenameApplies(d, oldUid, newUid) && y != oldUid && y != "" && newUid !in values
    requires v in Replaced(values, oldUid, newUid) && Covers(RenamedDirectory(d, oldUid, newUid), y, v)
    ensures exists w :: w in values && Covers(d, Origin(oldUid, newUid, y), w)
  {
    ReplacedIn(values, oldUid, newUid, v);
    var x := Origin(oldUid, newUid, y);
    if v == y {
      assert Covers(d, x, x);
      assert x in values;
    } else {
      if v == newUid {
        PlainUidCovers(RenamedDirectory(d, oldUid, newUid), y, v);
      }
      RenamedCovers(d, oldUid, newUid, y, v);
      assert v in values;
    }
  }

  /** The rename preserves meaning: what reached the old uid reaches the new one, what
      reached anyone else still does, and nothing names the old uid any more. */
  lemma RenamePreservesMeaning(d: Directory, oldUid: string, newUid: string)
    requires RenameApplies(d, oldUid, newUid)
    ensures var d' := RenamedDirectory(d, oldUid, newUid);
            && GroupsOf(d', newUid) == GroupsOf(d, oldUid)
            && NetgroupsOf(d', newUid) == NetgroupsOf(d, oldUid)
            && RolesOf(d', newUid) == RolesOf(d, oldUid)
            && ReferencedNowhere(d', oldUid)
            && (forall root :: SameOtherwise(GraphOf(d), GraphOf(d'), root))
            && forall y :: y != oldUid && y != newUid && y != "" ==>
                 && GroupsOf(d', y) == GroupsOf(d, y)
                 && NetgroupsOf(d', y) == NetgroupsOf(d, y)
                 && RolesOf(d', y) == RolesOf(d, y)
  {
    var d' := RenamedDirectory(d, oldUid, newUid);
    RenamedGroups(d, oldUid, newUid, newUid);
    RenamedNetgroups(d, oldUid, newUid, newUid);
    RenamedRoles(d, oldUid, newUid, newUid);
    OldUidGone(d, oldUid, newUid);
    forall root
      ensures SameOtherwise(GraphOf(d), GraphOf(d'), root)
    {
      RenameKeepsHosts(d, oldUid, newUid, root);
    }
    forall y | y != oldUid && y != newUid && y != ""
      ensures GroupsOf(d', y) == GroupsOf(d, y)
      ensures NetgroupsOf(d', y) == NetgroupsOf(d, y)
      ensures RolesOf(d', y) == RolesOf(d, y)
    {
      RenamedGroups(d, oldUid, newUid, y);
      RenamedNetgroups(d, oldUid, newUid, y);
      RenamedRoles(d, oldUid, newUid, y);
    }
  }

  lemma OldUidGone(d: Directory, oldUid: string, newUid: string)
    requires RenameApplies(d, oldUid, newUid)
    ensures ReferencedNowhere(RenamedDirectory(d, oldUid, newUid), oldUid)
  {
    var d' := RenamedDirectory(d, oldUid, newUid);
    forall id | id in d.groups
      ensures oldUid !in d'.groups[id].memberUids
    {
      ReplacedIn(d.groups[id].memberUids, oldUid, newUid, oldUid);
      ClearingIn(Replaced(d.groups[id].memberUids, oldUid, newUid), oldUid);
    }
    forall id | id in d.roles
      ensures oldUid !in d'.roles[id]
    {
      ReplacedIn(d.roles[id], oldUid, newUid, oldUid);
    }
    forall cn | cn in d.netgroups
      ensures !NamesUser(ReadNetgroup(cn, d'.netgroups[cn]), oldUid)
    {
      RenamedNames(d, oldUid, newUid, oldUid, cn);
    }
  }

  /** Triple by triple, a rename touches the user slots naming the old uid and nothing else. */
  lemma RenameKeepsSlots(d: Directory, oldUid: string, newUid: string, cn: string)
    requires RenameApplies(d, oldUid, newUid) && cn in d.netgroups
    ensures var before := ReadNetgroup(cn, d.netgroups[cn]);
            var after := ReadNetgroup(cn, RenamedDirectory(d, oldUid, newUid).netgroups[cn]);
            && |after.triples| == |before.triples| && after.members == before.members && after.malformed == before.malformed
            && forall i :: 0 <= i < |before.triples| ==>
                 && after.triples[i].host == before.triples[i].host
                 && after.triples[i].domain == before.triples[i].domain
                 && after.triples[i].user == if oldUid != "" && before.triples[i].user == oldUid then newUid else before.triples[i].user
  {
    if Namable(oldUid) {
      RenamedNetgroupReads(d.netgroups[cn], oldUid, newUid);
    } else {
      NeverNamed(d.netgroups[cn], oldUid);
      var triples := ParsedTriples(d.netgroups[cn].values);
      assert forall i :: 0 <= i < |triples| ==> triples[i] in triples && !triples[i].NamesUser(oldUid);
    }
  }

  lemma SameSlots(n: Netgroup, m: Netgroup)
    requires |m.triples| == |n.triples|
    requires forall i :: 0 <= i < |n.triples| ==>
               m.triples[i].host == n.triples[i].host && (m.triples[i].user == "" <==> n.triples[i].user == "")
    ensures forall x :: Names(m, HostSide, x) <==> Names(n, HostSide, x)
    ensures Opens(m, HostSide) <==> Opens(n, HostSide)
    ensures Opens(m, UserSide) <==> Opens(n, UserSide)
  {
    SlotsAmong(n, m);
    SlotsAmong(m, n);
  }

  lemma SlotsAmong(n: Netgroup, m: Netgroup)
    requires |m.triples| == |n.triples|
    requires forall i :: 0 <= i < |n.triples| ==>
               m.triples[i].host == n.triples[i].host && (m.triples[i].user == "" <==> n.triples[i].user == "")
    ensures forall x :: Names(n, HostSide, x) ==> Names(m, HostSide, x)
    ensures Opens(n, HostSide) ==> Opens(m, HostSide)
    ensures Opens(n, UserSide) ==> Opens(m, UserSide)
  {
    forall t | t in n.triples
      ensures exists u :: u in m.triples && u.host == t.host && (u.user == "" <==> t.user == "")
    {
      var i :| 0 <= i < |n.triples| && n.triples[i] == t;
      assert m.triples[i] in m.triples;
    }
    forall x | Names(n, HostSide, x)
      ensures Names(m, HostSide, x)
    {
      var t :| t in n.triples && Slot(t, HostSide) == x;
      var u :| u in m.triples && u.host == t.host;
      assert Slot(u, HostSide) == x;
    }
    if t :| t in n.triples && Slot(t, HostSide) == "" {
      var u :| u in m.triples && u.host == t.host;
      assert Slot(u, HostSide) == "";
    }
    if t :| t in n.triples && Slot(t, UserSide) == "" {
      var u :| u in m.triples && u.host == t.host && (u.user == "" <==> t.user == "");
      assert Slot(u, UserSide) == "";
    }
  }

  /** A netgroup expands to the same hosts, and is as open on either side. */
  ghost predicate SameOtherwise(g: Graph, h: Graph, root: string) {
    && (forall x :: Expands(h, root, HostSide, x) <==> Expands(g, root, HostSide, x))
    && (forall o :: ExpandsOpen(h, root, HostSide, o) <==> ExpandsOpen(g, root, HostSide, o))
    && (forall o :: ExpandsOpen(h, root, UserSide, o) <==> ExpandsOpen(g, root, UserSide, o))
  }

  /** A rename moves a user and nothing else: every netgroup keeps its hosts, and what it
      leaves open stays exactly as open. */
  lemma RenameKeepsHosts(d: Directory, oldUid: string, newUid: string, root: string)
    requires RenameApplies(d, oldUid, newUid)
    ensures SameOtherwise(GraphOf(d), GraphOf(RenamedDirectory(d, oldUid, newUid)), root)
  {
    var g, h := GraphOf(d), GraphOf(RenamedDirectory(d, oldUid, newUid));
    forall o | o in g
      ensures h[o].members == g[o].members && SameSides(g[o], h[o])
    {
      RenameKeepsSlots(d, oldUid, newUid, o);
      SameSlots(g[o], h[o]);
    }
    assert SameEdges(g, h);
    forall o | o in g
      ensures Reaches(g, root, o) <==> Reaches(h, root, o)
    {
      ReachOfSameEdges(g, h, root, o);
    }
    SameWhereReached(g, h, root);
  }

  /** Names the same hosts and opens the same sides. */
  ghost predicate SameSides(n: Netgroup, m: Netgroup) {
    && (forall x :: Names(m, HostSide, x) <==> Names(n, HostSide, x))
    && (Opens(m, HostSide) <==> Opens(n, HostSide))
    && (Opens(m, UserSide) <==> Opens(n, UserSide))
  }

  lemma SameWhereReached(g: Graph, h: Graph, root: string)
    requires g.Keys == h.Keys
    requires forall o :: o in g ==> SameSides(g[o], h[o]) && (Reaches(g, root, o) <==> Reaches(h, root, o))
    ensures SameOtherwise(g, h, root)
  {
  }

  /** Values nothing could parse are carried through a rename verbatim. */
  lemma RenameKeepsMalformed(d: Directory, oldUid: string, newUid: string, cn: string)
    requires Storable(newUid) && NoEmptyValues(d) && cn in d.netgroups
    ensures MalformedValues(RenamedDirectory(d, oldUid, newUid).netgroups[cn].values) == MalformedValues(d.netgroups[cn].values)
  {
    RenamedNetgroupReads(d.netgroups[cn], oldUid, newUid);
  }

  /** Whatever does not name the user is left exactly as it is, a netgroup's spelling included. */
  lemma OthersAsTheyWere(d: Directory, oldUid: string, newUid: string)
    ensures forall id :: id in d.groups && oldUid !in d.groups[id].memberUids ==>
              GroupsRenamed(d.groups, oldUid, newUid)[id] == d.groups[id] == GroupsStripped(d.groups, oldUid)[id]
    ensures forall id :: id in d.roles && oldUid !in d.roles[id] ==>
              RolesRenamed(d.roles, oldUid, newUid)[id] == d.roles[id] == RolesStripped(d.roles, oldUid)[id]
    ensures forall cn :: cn in d.netgroups && !StoredFor(d.netgroups[cn], oldUid) ==>
              NetgroupsRenamed(d.netgroups, oldUid, newUid)[cn] == d.netgroups[cn] == NetgroupsStripped(d.netgroups, oldUid)[cn]
  {
    forall id | id in d.groups && oldUid !in d.groups[id].memberUids
      ensures Without(d.groups[id].memberUids, oldUid) == d.groups[id].memberUids
    {
      WithoutNothing(d.groups[id].memberUids, oldUid);
    }
    forall id | id in d.roles && oldUid !in d.roles[id]
      ensures Replaced(d.roles[id], oldUid, newUid) == d.roles[id] == Without(d.roles[id], oldUid)
    {
      WithoutNothing(d.roles[id], oldUid);
    }
    forall cn | cn in d.netgroups && TriplesName(ParsedTriples(d.netgroups[cn].values), oldUid)
      ensures StoredFor(d.netgroups[cn], oldUid)
    {
      var t :| t in ParsedTriples(d.netgroups[cn].values) && t.NamesUser(oldUid);
      TriplesRead(d.netgroups[cn].values, t);
    }
  }

  /** Some stored value reads as a triple of this user. */
  ghost predicate StoredFor(n: StoredNetgroup, uid: string) {
    uid != "" && exists v :: v in n.values && Parse(v).Some? && Parse(v).value.user == uid
  }

  // ---- delete ----

  lemma StrippedGraph(d: Directory, uid: string)
    requires NoEmptyValues(d)
    ensures var g, h := GraphOf(d), GraphOf(StrippedDirectory(d, uid));
            SameEdges(g, h) && forall cn :: cn in g ==> h[cn].triples == WithoutUser(g[cn].triples, uid)
  {
    forall cn | cn in d.netgroups
      ensures ParsedTriples(StrippedNetgroup(d.netgroups[cn], uid).values) == WithoutUser(ParsedTriples(d.netgroups[cn].values), uid)
      ensures StrippedNetgroup(d.netgroups[cn], uid).members == d.netgroups[cn].members
    {
      StrippedNetgroupReads(d.netgroups[cn], uid);
    }
  }

  lemma WithoutUserNames(n: Netgroup, m: Netgroup, uid: string)
    requires m.triples == WithoutUser(n.triples, uid) && uid != ""
    ensures forall x :: Names(m, UserSide, x) <==> x != uid && Names(n, UserSide, x)
    ensures forall x :: Names(m, HostSide, x) ==> Names(n, HostSide, x)
    ensures forall x :: NamesUser(m, x) <==> x != uid && NamesUser(n, x)
    ensures Opens(m, UserSide) <==> Opens(n, UserSide)
    ensures Opens(m, HostSide) ==> Opens(n, HostSide)
  {
    forall t
      ensures t in m.triples <==> t in n.triples && !t.NamesUser(uid)
    {
      WithoutUserIn(n.triples, uid, t);
    }
  }

  /** A delete takes the triples naming the user, and each group and role the user's own value;
      everything else is there as often as before. */
  lemma DeleteTakesExactly(d: Directory, uid: string)
    requires NoEmptyValues(d) && uid != ""
    ensures var d' := StrippedDirectory(d, uid);
            && (forall cn, t: Triple :: cn in d.netgroups ==>
                  multiset(ParsedTriples(d'.netgroups[cn].values))[t] ==
                  if t.user == uid then 0 else multiset(ParsedTriples(d.netgroups[cn].values))[t])
            && (forall cn :: cn in d.netgroups ==>
                  && MalformedValues(d'.netgroups[cn].values) == MalformedValues(d.netgroups[cn].values)
                  && d'.netgroups[cn].members == d.netgroups[cn].members)
            && (forall id, x :: id in d.groups ==>
                  multiset(d'.groups[id].memberUids)[x] == if x == uid then 0 else multiset(d.groups[id].memberUids)[x])
            && (forall id, x :: id in d.roles ==>
                  multiset(d'.roles[id])[x] == if x == uid then 0 else multiset(d.roles[id])[x])
  {
    var d' := StrippedDirectory(d, uid);
    forall cn, t: Triple | cn in d.netgroups
      ensures multiset(ParsedTriples(d'.netgroups[cn].values))[t] ==
              if t.user == uid then 0 else multiset(ParsedTriples(d.netgroups[cn].values))[t]
    {
      StrippedNetgroupReads(d.netgroups[cn], uid);
      WithoutUserCount(ParsedTriples(d.netgroups[cn].values), uid, t);
    }
    forall cn | cn in d.netgroups
      ensures MalformedValues(d'.netgroups[cn].values) == MalformedValues(d.netgroups[cn].values)
      ensures d'.netgroups[cn].members == d.netgroups[cn].members
    {
      StrippedNetgroupReads(d.netgroups[cn], uid);
    }
    forall id, x | id in d.groups
      ensures multiset(d'.groups[id].memberUids)[x] == if x == uid then 0 else multiset(d.groups[id].memberUids)[x]
    {
      WithoutCount(d.groups[id].memberUids, uid, x);
    }
    forall id, x | id in d.roles
      ensures multiset(d'.roles[id])[x] == if x == uid then 0 else multiset(d.roles[id])[x]
    {
      WithoutCount(d.roles[id], uid, x);
    }
  }

  /** Deleting a user never widens a netgroup: every expansion loses exactly the uid
      from its users, opens to no one new, and gains no host. */
  lemma DeleteNeverWidens(d: Directory, uid: string, root: string)
    requires NoEmptyValues(d) && uid != "" && root in d.netgroups
    ensures var g, h := GraphOf(d), GraphOf(StrippedDirectory(d, uid));
            && (forall x :: Expands(h, root, UserSide, x) <==> x != uid && Expands(g, root, UserSide, x))
            && (forall o :: ExpandsOpen(h, root, UserSide, o) <==> ExpandsOpen(g, root, UserSide, o))
            && (forall x :: Expands(h, root, HostSide, x) ==> Expands(g, root, HostSide, x))
            && (forall o :: ExpandsOpen(h, root, HostSide, o) ==> ExpandsOpen(g, root, HostSide, o))
  {
    var g, h := GraphOf(d), GraphOf(StrippedDirectory(d, uid));
    StrippedGraph(d, uid);
    forall o | o in g
      ensures Reaches(g, root, o) <==> Reaches(h, root, o)
      ensures forall x :: Names(h[o], UserSide, x) <==> x != uid && Names(g[o], UserSide, x)
      ensures forall x :: Names(h[o], HostSide, x) ==> Names(g[o], HostSide, x)
      ensures Opens(h[o], UserSide) <==> Opens(g[o], UserSide)
      ensures Opens(h[o], HostSide) ==> Opens(g[o], HostSide)
    {
      ReachOfSameEdges(g, h, root, o);
      WithoutUserNames(g[o], h[o], uid);
    }
  }

  lemma StrippedNetgroups(d: Directory, uid: string, y: string)
    requires NoEmptyValues(d) && uid != "" && y != uid
    ensures NetgroupsOf(StrippedDirectory(d, uid), y) == NetgroupsOf(d, y)
  {
    var g, h := GraphOf(d), GraphOf(StrippedDirectory(d, uid));
    StrippedGraph(d, uid);
    forall cn | cn in g
      ensures NamesUser(g[cn], y) <==> NamesUser(h[cn], y)
    {
      WithoutUserNames(g[cn], h[cn], uid);
    }
    MembershipsOfSameEdges(g, h, y, y);
  }

  lemma StrippedGroups(d: Directory, uid: string, y: string)
    requires y != uid
    ensures GroupsOf(StrippedDirectory(d, uid), y) == GroupsOf(d, y)
  {
    forall id | id in d.groups
      ensures y in Without(d.groups[id].memberUids, uid) <==> y in d.groups[id].memberUids
    {
      WithoutIn(d.groups[id].memberUids, uid, y);
    }
  }

  lemma StrippedCovers(d: Directory, uid: string, y: string, v: string)
    requires NoEmptyValues(d) && uid != "" && y != uid
    ensures Covers(StrippedDirectory(d, uid), y, v) <==> Covers(d, y, v)
  {
    StrippedGroups(d, uid, y);
    StrippedNetgroups(d, uid, y);
  }

  /** What reaches y by another value than the deleted uid. */
  ghost predicate OtherwiseReached(d: Directory, uid: string, y: string, role: Id)
    requires role in d.roles
  {
    exists v :: v in d.roles[role] && v != uid && Covers(d, y, v)
  }

  /** Everyone else keeps their groups and netgroups and gains no sudo role. They lose exactly
      the roles that reached them by the deleted uid alone: none when sudo reads it as a user. */
  lemma DeleteLeavesOthers(d: Directory, uid: string, y: string)
    requires NoEmptyValues(d) && uid != "" && y != uid
    ensures var d' := StrippedDirectory(d, uid);
            && GroupsOf(d', y) == GroupsOf(d, y)
            && NetgroupsOf(d', y) == NetgroupsOf(d, y)
            && RolesOf(d', y) <= RolesOf(d, y)
            && RolesOf(d, y) - RolesOf(d', y) == (set role | role in d.roles && uid in d.roles[role] &&
                 Covers(d, y, uid) && !OtherwiseReached(d, uid, y, role))
            && (SudoPlain(uid) ==> RolesOf(d', y) == RolesOf(d, y))
  {
    var d' := StrippedDirectory(d, uid);
    StrippedGroups(d, uid, y);
    StrippedNetgroups(d, uid, y);
    forall role | role in d.roles
      ensures role in RolesOf(d', y) <==> OtherwiseReached(d, uid, y, role)
      ensures role in RolesOf(d, y) <==> OtherwiseReached(d, uid, y, role) || (uid in d.roles[role] && Covers(d, y, uid))
    {
      forall v
        ensures Covers(d', y, v) <==> Covers(d, y, v)
        ensures v in d'.roles[role] <==> v != uid && v in d.roles[role]
      {
        StrippedCovers(d, uid, y, v);
        WithoutIn(d.roles[role], uid, v);
      }
    }
    if SudoPlain(uid) {
      PlainUidCovers(d, y, uid);
    }
  }

  lemma NobodyNamed(g: Graph, uid: string)
    requires forall x :: x in g ==> !NamesUser(g[x], uid)
    ensures Memberships(g, uid) == map[]
  {
    assert Direct(g, uid) == {};
    forall x | x in g
      ensures !Above(g, {}, x)
    {
      AboveIsReach(g, {}, x);
    }
  }

  lemma StrippedNowhere(d: Directory, uid: string)
    requires NoEmptyValues(d) && uid != ""
    ensures ReferencedNowhere(StrippedDirectory(d, uid), uid)
  {
    var d' := StrippedDirectory(d, uid);
    StrippedGraph(d, uid);
    forall id | id in d.groups
      ensures uid !in d'.groups[id].memberUids
    {
      WithoutIn(d.groups[id].memberUids, uid, uid);
    }
    forall id | id in d.roles
      ensures uid !in d'.roles[id]
    {
      WithoutIn(d.roles[id], uid, uid);
    }
    forall cn | cn in d.netgroups
      ensures !NamesUser(ReadNetgroup(cn, d'.netgroups[cn]), uid)
    {
      WithoutUserNames(GraphOf(d)[cn], GraphOf(d')[cn], uid);
    }
  }

  /** The deleted uid itself is in no group and no netgroup, and only roles for everyone cover it. */
  lemma DeleteRemovesUser(d: Directory, uid: string)
    requires NoEmptyValues(d) && uid != ""
    ensures var d' := StrippedDirectory(d, uid);
            && ReferencedNowhere(d', uid)
            && GroupsOf(d', uid) == {} && NetgroupsOf(d', uid) == map[]
            && forall id :: id in RolesOf(d', uid) ==> EVERYONE in d'.roles[id]
  {
    StrippedNowhere(d, uid);
    NobodyNamed(GraphOf(StrippedDirectory(d, uid)), uid);
  }
}
