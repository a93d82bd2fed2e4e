/** The directory client's operations on references to users: which sudo roles reach
    one and why, and the best-effort migration behind a rename or a delete. */
module UserClient {
  import opened Wrappers
  import opened NetgroupTriple
  import opened NetgroupGraph
  import opened NetgroupResolver
  import opened UserReferences
  import opened ReferenceMeaning

  /** Something the migration reads or writes. */
  datatype Ref =
    | GroupSearch | RoleSearch | NetgroupSearch
    | SudoGroups | SudoNetgroups
    | GroupRef(id: Id) | RoleRef(role: Id) | NetgroupRef(cn: string)
    | PrimarySearch | PrimaryGroup(primary: Id)

  /** The look-ups of a sudo query that do not fail; nothing is reported of those that do. */
  function RoutesLeft(failing: set<Ref>): Routes {
    Routes(SudoGroups !in failing, SudoNetgroups !in failing)
  }

  /** A look-up is used exactly if it answers. */
  lemma RoutesLeftAre(failing: set<Ref>)
    ensures RoutesLeft(failing).groups <==> SudoGroups !in failing
    ensures RoutesLeft(failing).netgroups <==> SudoNetgroups !in failing
  {
  }

  datatype Warning =
    | Failed(ref: Ref)
    | Unreadable(netgroup: string, count: nat)
    | NoSudoUser(emptied: Id)
    | EmptyNetgroup(empty: string)

  /** replaceExact. */
  method ReplaceExact(list: seq<string>, from: string, to: string) returns (out: seq<string>)
    ensures out == Replaced(list, from, to)
    ensures |out| == |list| && forall k :: 0 <= k < |list| ==> out[k] == if list[k] == from then to else list[k]
  {
    out := [];
    for i := 0 to |list|
      invariant |out| == i && forall k :: 0 <= k < i ==> out[k] == if list[k] == from then to else list[k]
    {
      out := out + [if list[i] == from then to else list[i]];
    }
  }

  /** renameUserInTriples. */
  method RenameUserInTriples(triples: seq<Triple>, oldUid: string, newUid: string) returns (out: seq<Triple>, changed: bool)
    ensures out == RenamedTriples(triples, oldUid, newUid)
    ensures forall i :: 0 <= i < |triples| ==>
              && out[i].host == triples[i].host && out[i].domain == triples[i].domain
              && out[i].user == if oldUid != "" && triples[i].user == oldUid then newUid else triples[i].user
    ensures changed <==> TriplesName(triples, oldUid)
  {
    out, changed := [], false;
    for i := 0 to |triples|
      invariant |out| == i
      invariant forall k :: 0 <= k < i ==>
        out[k] == if triples[k].NamesUser(oldUid) then triples[k].WithUser(newUid) else triples[k]
      invariant changed <==> exists k :: 0 <= k < i && triples[k].NamesUser(oldUid)
    {
      var triple := triples[i];
      if triple.NamesUser(oldUid) {
        triple := triple.WithUser(newUid);
        changed := true;
      }
      out := out + [triple];
    }
  }

  lemma {:induction false} WithoutUserAppend(a: seq<Triple>, b: seq<Triple>, uid: string)
    ensures WithoutUser(a + b, uid) == WithoutUser(a, uid) + WithoutUser(b, uid)
  {
    if a == [] {
      assert a + b == b;
    } else {
      WithoutUserAppend(a[1..], b, uid);
      assert (a + b)[1..] == a[1..] + b && (a + b)[0] == a[0];
      Associative(if a[0].NamesUser(uid) then [] else [a[0]], WithoutUser(a[1..], uid), WithoutUser(b, uid));
    }
  }

  lemma {:induction false} WithoutUserLength(triples: seq<Triple>, uid: string)
    ensures |WithoutUser(triples, uid)| <= |triples|
    ensures |WithoutUser(triples, uid)| == |triples| <==> !TriplesName(triples, uid)
  {
    if triples != [] {
      WithoutUserLength(triples[1..], uid);
      assert triples == [triples[0]] + triples[1..];
    }
  }

  /** removeUserFromTriples: the whole triple goes, never just its user slot. */
  method RemoveUserFromTriples(triples: seq<Triple>, uid: string) returns (out: seq<Triple>, changed: bool)
    ensures out == WithoutUser(triples, uid)
    ensures forall t :: multiset(out)[t] == if t.NamesUser(uid) then 0 else multiset(triples)[t]
    ensures changed <==> TriplesName(triples, uid)
  {
    out := [];
    for i := 0 to |triples|
      invariant out == WithoutUser(triples[..i], uid)
    {
      assert triples[..i + 1] == triples[..i] + [triples[i]];
      WithoutUserAppend(triples[..i], [triples[i]], uid);
      if !triples[i].NamesUser(uid) {
        out := out + [triples[i]];
      }
    }
    assert triples[..|triples|] == triples;
    WithoutUserLength(triples, uid);
    changed := |out| != |triples|;
    TakenOut(triples, uid);
  }

  lemma TakenOut(triples: seq<Triple>, uid: string)
    ensures forall t :: multiset(WithoutUser(triples, uid))[t] == if t.NamesUser(uid) then 0 else multiset(triples)[t]
  {
    forall t
      ensures multiset(WithoutUser(triples, uid))[t] == if t.NamesUser(uid) then 0 else multiset(triples)[t]
    {
      WithoutUserCount(triples, uid, t);
    }
  }

  /** saveTriples: the unreadable values are carried over, and reported once written. */
  method SaveTriples(n: StoredNetgroup, netgroup: Netgroup, triples: seq<Triple>, fails: bool) returns (saved: StoredNetgroup, reported: seq<Warning>)
    ensures fails ==> saved == n && reported == [Failed(NetgroupRef(netgroup.cn))]
    ensures !fails ==> saved == n.(values := SavedValues(triples, netgroup.malformed))
    ensures !fails ==> reported == if netgroup.malformed == [] then [] else [Unreadable(netgroup.cn, |netgroup.malformed|)]
  {
    if fails {
      return n, [Failed(NetgroupRef(netgroup.cn))];
    }
    saved := n.(values := SavedValues(triples, netgroup.malformed));
    reported := if |netgroup.malformed| > 0 then [Unreadable(netgroup.cn, |netgroup.malformed|)] else [];
  }

  method RenameInNetgroup(cn: string, n: StoredNetgroup, oldUid: string, newUid: string, fails: bool)
    returns (saved: StoredNetgroup, reported: seq<Warning>)
    ensures Settled(cn, n, RenamedNetgroup(n, oldUid, newUid), saved, reported)
    ensures forall w :: w in reported <==> OneWarning(w, cn, n, oldUid, fails, false)
  {
    var netgroup := EntryToNetgroup(cn, n);
    var triples, changed := RenameUserInTriples(netgroup.triples, oldUid, newUid);
    if !changed {
      return n, [];
    }
    saved, reported := SaveTriples(n, netgroup, triples, fails);
    SaidOf(cn, n, oldUid, fails, false, reported);
  }

  /** As for a rename; a netgroup left with nothing in it is reported, not removed. */
  method DeleteFromNetgroup(cn: string, n: StoredNetgroup, uid: string, fails: bool)
    returns (saved: StoredNetgroup, reported: seq<Warning>)
    ensures Settled(cn, n, StrippedNetgroup(n, uid), saved, reported)
    ensures forall w :: w in reported <==> OneWarning(w, cn, n, uid, fails, true)
  {
    var netgroup := EntryToNetgroup(cn, n);
    var triples, changed := RemoveUserFromTriples(netgroup.triples, uid);
    NothingLeft(netgroup.triples, uid);
    if !changed {
      return n, [];
    }
    saved, reported := SaveTriples(n, netgroup, triples, fails);
    if !fails && |triples| == 0 && |netgroup.members| == 0 {
      reported := reported + [EmptyNetgroup(cn)];
    }
    SaidOf(cn, n, uid, fails, true, reported);
  }

  /** One role: only one naming the uid outright is written, and one left naming nobody is
      reported. */
  method DeleteFromRole(id: Id, values: seq<string>, uid: string, fails: bool) returns (saved: seq<string>, reported: seq<Warning>)
    ensures saved == if fails then values else Without(values, uid)
    ensures reported == if uid !in values then [] else if fails then [Failed(RoleRef(id))] else if |values| == 1 then [NoSudoUser(id)] else []
  {
    if uid !in values {
      WithoutNothing(values, uid);
      return values, [];
    }
    if fails {
      return values, [Failed(RoleRef(id))];
    }
    reported := if |values| == 1 then [NoSudoUser(id)] else [];
    saved := Without(values, uid);
  }

  class Client {
    var users: set<string>
    var groups: map<Id, Group>
    var roles: map<Id, seq<string>>
    var netgroups: map<string, StoredNetgroup>
    const netgroupSchema: bool

    constructor (users: set<string>, d: Directory)
      ensures this.users == users && View() == d
    {
      this.users, groups, roles, netgroups := users, d.groups, d.roles, d.netgroups;
      netgroupSchema := d.netgroupSchema;
    }

    function View(): Directory
      reads this
    {
      Directory(groups, roles, netgroups, netgroupSchema)
    }

    /** Every netgroup, in no particular order. */
    method ListNetgroups() returns (all: seq<Netgroup>)
      ensures UniqueNames(all) && ByName(all) == GraphOf(View())
    {
      all := [];
      var left := netgroups.Keys;
      while left != {}
        invariant left <= netgroups.Keys && UniqueNames(all)
        invariant ByName(all).Keys == netgroups.Keys - left
        invariant forall cn :: cn in ByName(all) ==> ByName(all)[cn] == GraphOf(View())[cn]
        decreases left
      {
        var cn :| cn in left;
        left := left - {cn};
        var netgroup := EntryToNetgroup(cn, netgroups[cn]);
        ByNameKeys(all, cn);
        assert (all + [netgroup])[..|all|] == all;
        all := all + [netgroup];
      }
    }

    method GetUserGroups(uid: string) returns (ids: set<Id>)
      ensures ids == GroupsOf(View(), uid)
    {
      ids := set id | id in groups && uid in groups[id].memberUids;
    }

    /** The sudoUser values that cover this user: their uid, everyone, their groups, and
        the netgroups that contain them however deep. A look-up that fails adds nothing. */
    method CoveringValues(uid: string, routes: Routes) returns (parts: set<string>)
      ensures forall v :: v in parts <==> CoversBy(View(), uid, v, routes)
    {
      var byGroup, byNetgroup: set<string> := {}, {};
      if routes.groups {
        var ids := GetUserGroups(uid);
        byGroup := set id | id in ids :: "%" + groups[id].cn;
      }
      if netgroupSchema && routes.netgroups {
        byNetgroup := NetgroupValues(uid);
      }
      parts := {uid, EVERYONE} + byGroup + byNetgroup;
    }

    method NetgroupValues(uid: string) returns (values: set<string>)
      ensures forall v :: v in values <==> exists n :: n in NetgroupsOf(View(), uid) && v == "+" + n
    {
      var all := ListNetgroups();
      var resolver := new Resolver();
      var memberships := resolver.MembershipsForUser(uid, Some(all));
      EmptyUidHasNone(GraphOf(View()));
      values := set n | n in memberships.value :: "+" + n;
    }

    method GetUserSudoRoles(uid: string, routes: Routes) returns (ids: set<Id>)
      ensures ids == RolesBy(View(), uid, routes)
    {
      var parts := CoveringValues(uid, routes);
      ids := set id | id in roles && exists v :: v in roles[id] && v in parts;
    }

    /** Each role reaching the user, with the values that make it, in order. The look-ups are
        made once for the roles and again for the reasons: a reason is missing only if the
        second time a look-up failed that had answered the first. */
    method GetUserSudoRoleGrants(uid: string, routes: Routes, again: Routes) returns (grants: map<Id, seq<string>>)
      ensures grants.Keys == RolesBy(View(), uid, routes)
      ensures forall id :: id in grants ==> grants[id] == CoveringOf(View(), uid, roles[id], again)
      ensures (routes.groups ==> again.groups) && (routes.netgroups ==> again.netgroups) ==>
                forall id :: id in grants ==> grants[id] != []
    {
      var ids := GetUserSudoRoles(uid, routes);
      var parts := CoveringValues(uid, again);
      ghost var d := View();
      grants := map[];
      var left := ids;
      while left != {}
        invariant left <= ids && grants.Keys == ids - left
        invariant forall id :: id in grants ==> grants[id] == CoveringOf(d, uid, roles[id], again)
        decreases left
      {
        var id :| id in left;
        left := left - {id};
        var via := KeepCovered(roles[id], parts, d, uid, again);
        grants := grants[id := via];
      }
      if (routes.groups ==> again.groups) && (routes.netgroups ==> again.netgroups) {
        forall id | id in grants
          ensures grants[id] != []
        {
          var v :| v in roles[id] && CoversBy(d, uid, v, routes);
          CoveringIs(d, uid, roles[id], again, v);
        }
      }
    }

    // ---- rename ----

    /** memberUid holds the plain uid, so every group naming the old one is rewritten. */
    method RenameInGroups(oldUid: string, newUid: string, failing: set<Ref>) returns (warnings: seq<Warning>)
      modifies `groups
      ensures MembersMigrated(old(groups), groups, GroupsRenamed(old(groups), oldUid, newUid), warnings)
      ensures forall id :: id in groups ==> groups[id].cn == old(groups)[id].cn
      ensures OnlyFailing(warnings, failing)
      ensures forall w :: w in warnings <==> GroupWarning(w, old(View()), oldUid, failing)
    {
      if GroupSearch in failing {
        return [Failed(GroupSearch)];
      }
      warnings := [];
      var left := GetUserGroups(oldUid);
      while left != {}
        invariant left <= GroupsOf(old(View()), oldUid) && groups.Keys == old(groups).Keys
        invariant forall id :: id in groups && id in left ==> groups[id] == old(groups)[id]
        invariant forall id :: id in groups && id !in left ==>
          || groups[id] == RenamedGroup(old(groups)[id], oldUid, newUid)
          || (groups[id] == old(groups)[id] && Failed(GroupRef(id)) in warnings)
        invariant OnlyFailing(warnings, failing)
        invariant forall w :: w in warnings <==> FailedGroup(w, GroupsOf(old(View()), oldUid) - left, failing)
        decreases left
      {
        var id :| id in left;
        left := left - {id};
        var members := ReplaceExact(groups[id].memberUids, oldUid, newUid);
        if GroupRef(id) in failing {
          warnings := warnings + [Failed(GroupRef(id))];
        } else {
          groups := groups[id := groups[id].(memberUids := Clearing(members))];
        }
      }
    }

    /** Every role reaching the user is written back with exact uid values swapped; a
        role reached through "ALL", a %group or a +netgroup keeps its values. */
    method RenameInRoles(oldUid: string, newUid: string, failing: set<Ref>) returns (warnings: seq<Warning>)
      modifies `roles
      ensures RolesMigrated(old(roles), roles, RolesRenamed(old(roles), oldUid, newUid), warnings)
      ensures OnlyFailing(warnings, failing)
      ensures forall w :: w in warnings <==>
                if RoleSearch in failing then w == Failed(RoleSearch)
                else FailedRole(w, RolesBy(old(View()), oldUid, RoutesLeft(failing)), failing)
    {
      if RoleSearch in failing {
        return [Failed(RoleSearch)];
      }
      warnings := [];
      var reaching := GetUserSudoRoles(oldUid, RoutesLeft(failing));
      forall id | id in roles && id !in reaching
        ensures Replaced(roles[id], oldUid, newUid) == roles[id]
      {
        assert CoversBy(View(), oldUid, oldUid, RoutesLeft(failing));
        ReplacedNothing(roles[id], oldUid, newUid);
      }
      var left := reaching;
      while left != {}
        invariant left <= reaching && roles.Keys == old(roles).Keys
        invariant forall id :: id in roles && id in left ==> roles[id] == old(roles)[id]
        invariant forall id :: id in roles && id !in left ==>
          || roles[id] == Replaced(old(roles)[id], oldUid, newUid)
          || (roles[id] == old(roles)[id] && Failed(RoleRef(id)) in warnings)
        invariant OnlyFailing(warnings, failing)
        invariant forall w :: w in warnings <==> FailedRole(w, reaching - left, failing)
        decreases left
      {
        var id :| id in left;
        left := left - {id};
        var values := ReplaceExact(roles[id], oldUid, newUid);
        if RoleRef(id) in failing {
          warnings := warnings + [Failed(RoleRef(id))];
        } else {
          roles := roles[id := values];
        }
      }
    }

    /** The uid sits inside a triple here, so its slot is rewritten, not the value; what
        could not be read is left alone and reported. */
    method RenameInNetgroups(oldUid: string, newUid: string, failing: set<Ref>) returns (warnings: seq<Warning>)
      modifies `netgroups
      ensures NetgroupsMigrated(old(netgroups), netgroups, NetgroupsRenamed(old(netgroups), oldUid, newUid), warnings)
      ensures OnlyFailing(warnings, failing)
      ensures UnreadableReported(old(netgroups), netgroups, warnings)
      ensures forall w :: w in warnings <==> NetgroupWarning(w, old(netgroups), oldUid, failing, false)
    {
      if NetgroupSearch in failing {
        return [Failed(NetgroupSearch)];
      }
      warnings := [];
      ghost var before, target := netgroups, NetgroupsRenamed(netgroups, oldUid, newUid);
      var left := netgroups.Keys;
      while left != {}
        invariant Progress(before, target, netgroups, left, warnings, oldUid, failing, false)
        decreases left
      {
        var cn :| cn in left;
        var saved, reported := RenameInNetgroup(cn, netgroups[cn], oldUid, newUid, NetgroupRef(cn) in failing);
        ProgressNext(before, target, netgroups, left, warnings, cn, saved, reported, oldUid, failing, false);
        left := left - {cn};
        netgroups := netgroups[cn := saved];
        warnings := warnings + reported;
      }
      ProgressDone(before, target, netgroups, warnings, oldUid, failing, false);
    }

    /** The group carrying the old uid as its own name follows, if it is found; a look-up
        that fails reads as there being none. */
    method RenamePrimaryGroup(oldUid: string, newUid: string, failing: set<Ref>) returns (warnings: seq<Warning>)
      modifies `groups
      ensures PrimaryMigrated(old(groups), groups, oldUid, newUid, PrimarySearch !in failing, warnings)
      ensures forall id :: id in groups ==> groups[id].memberUids == old(groups)[id].memberUids
      ensures OnlyFailing(warnings, failing)
    {
      warnings := [];
      if PrimarySearch in failing {
        return;
      }
      var named := set id | id in groups && groups[id].cn == oldUid;
      assert forall id :: Named(groups, id, oldUid) <==> id in named;
      if named != {} {
        var id :| id in named;
        if PrimaryGroup(id) in failing {
          warnings := [Failed(PrimaryGroup(id))];
        } else {
          groups := groups[id := groups[id].(cn := newUid)];
        }
        assert Followed(old(groups), groups, id, oldUid, newUid, warnings);
      }
    }

    /** The entry first, which is the authoritative change, then every reference: each
        one is migrated, or still as it was and named in the warnings. With no failed
        read or write the result is exactly the renamed directory, one group named after
        the old uid, if there is any, being named after the new one. */
    method RenameUser(oldUid: string, newUid: string, entryFails: bool, failing: set<Ref>) returns (r: Result<seq<Warning>>)
      modifies this
      ensures r.Err? <==> newUid in old(users) || entryFails
      ensures r.Err? ==> users == old(users) && View() == old(View())
      ensures r.Ok? ==> users == old(users) - {oldUid} + {newUid}
      ensures r.Ok? ==> groups.Keys == old(groups).Keys && roles.Keys == old(roles).Keys && netgroups.Keys == old(netgroups).Keys
      ensures r.Ok? ==> MembersMigrated(old(groups), groups, GroupsRenamed(old(groups), oldUid, newUid), r.value)
      ensures r.Ok? ==> RolesMigrated(old(roles), roles, RolesRenamed(old(roles), oldUid, newUid), r.value)
      ensures r.Ok? ==> NetgroupsMigrated(old(netgroups), netgroups, NetgroupsRenamed(old(netgroups), oldUid, newUid), r.value)
      ensures r.Ok? ==> OnlyFailing(r.value, failing)
      ensures r.Ok? ==> PrimaryMigrated(old(groups), groups, oldUid, newUid, PrimarySearch !in failing, r.value)
      ensures r.Ok? && failing == {} ==> FullyRenamed(old(View()), View(), oldUid, newUid)
    {
      if newUid in users {
        return Err("username taken");
      }
      if entryFails {
        return Err("rename entry");
      }
      users := users - {oldUid} + {newUid};
      var inGroups := RenameInGroups(oldUid, newUid, failing);
      var inRoles := RenameInRoles(oldUid, newUid, failing);
      var inNetgroups := RenameInNetgroups(oldUid, newUid, failing);
      ghost var renamed := groups;
      var primary := RenamePrimaryGroup(oldUid, newUid, failing);
      var warnings := inGroups + inRoles + inNetgroups + primary;
      ghost var target := RenamedDirectory(old(View()), oldUid, newUid);
      MoreWarnings(inGroups, inRoles, inNetgroups, primary, failing);
      Widen(old(View()), View(), target, inGroups, inRoles, inNetgroups, warnings);
      PrimaryWidens(old(groups), renamed, groups, oldUid, newUid, PrimarySearch !in failing, primary, warnings);
      if failing == {} {
        FullyMigrated(old(View()), View(), oldUid, newUid, warnings);
      }
      return Ok(warnings);
    }

    // ---- delete ----

    method DeleteFromGroups(uid: string, failing: set<Ref>) returns (warnings: seq<Warning>)
      modifies `groups
      ensures MembersMigrated(old(groups), groups, GroupsStripped(old(groups), uid), warnings)
      ensures forall id :: id in groups ==> groups[id].cn == old(groups)[id].cn
      ensures OnlyFailing(warnings, failing)
      ensures forall w :: w in warnings <==> GroupWarning(w, old(View()), uid, failing)
    {
      if GroupSearch in failing {
        return [Failed(GroupSearch)];
      }
      warnings := [];
      var left := GetUserGroups(uid);
      forall id | id in groups && id !in left
        ensures Without(groups[id].memberUids, uid) == groups[id].memberUids
      {
        WithoutNothing(groups[id].memberUids, uid);
      }
      while left != {}
        invariant left <= GroupsOf(old(View()), uid) && groups.Keys == old(groups).Keys
        invariant forall id :: id in groups && id in left ==> groups[id] == old(groups)[id]
        invariant forall id :: id in groups && id !in left ==>
          || groups[id] == StrippedGroup(old(groups)[id], uid)
          || (groups[id] == old(groups)[id] && Failed(GroupRef(id)) in warnings)
        invariant OnlyFailing(warnings, failing)
        invariant forall w :: w in warnings <==> FailedGroup(w, GroupsOf(old(View()), uid) - left, failing)
        decreases left
      {
        var id :| id in left;
        left := left - {id};
        if GroupRef(id) in failing {
          warnings := warnings + [Failed(GroupRef(id))];
        } else {
          groups := groups[id := groups[id].(memberUids := Without(groups[id].memberUids, uid))];
        }
      }
    }

    /** Only the roles naming the uid outright lose a value; a role left naming nobody is
        reported, not removed. */
    method DeleteFromRoles(uid: string, failing: set<Ref>) returns (warnings: seq<Warning>)
      modifies `roles
      ensures RolesMigrated(old(roles), roles, RolesStripped(old(roles), uid), warnings)
      ensures OnlyFailing(warnings, failing)
      ensures forall id :: id in roles && old(roles)[id] == [uid] && roles[id] == [] ==> NoSudoUser(id) in warnings
      ensures forall w :: w in warnings <==> RoleWarning(w, old(roles), uid, failing)
    {
      if RoleSearch in failing {
        return [Failed(RoleSearch)];
      }
      var reaching := GetUserSudoRoles(uid, RoutesLeft(failing));
      OthersUntouched(View(), uid, RoutesLeft(failing));
      warnings := DeleteFromEach(reaching, uid, failing);
      RolesDone(old(roles), roles, reaching, uid, failing, warnings);
    }

    method DeleteFromEach(reaching: set<Id>, uid: string, failing: set<Ref>) returns (warnings: seq<Warning>)
      requires reaching <= roles.Keys
      requires forall id :: id in roles && id !in reaching ==> Without(roles[id], uid) == roles[id]
      modifies `roles
      ensures roles.Keys == old(roles).Keys
      ensures forall id :: id in roles ==> roles[id] == RoleLeft(id, old(roles)[id], uid, failing)
      ensures forall w :: w in warnings <==> DeletionSays(w, old(roles), reaching, uid, failing)
    {
      warnings := [];
      var left := reaching;
      while left != {}
        invariant left <= reaching && roles.Keys == old(roles).Keys
        invariant forall id :: id in left ==> roles[id] == old(roles)[id]
        invariant forall id :: id in roles && id !in left ==> roles[id] == RoleLeft(id, old(roles)[id], uid, failing)
        invariant forall w :: w in warnings <==> DeletionSays(w, old(roles), reaching - left, uid, failing)
        decreases left
      {
        var id :| id in left;
        left := left - {id};
        var values, reported := DeleteFromRole(id, roles[id], uid, RoleRef(id) in failing);
        SaysMore(old(roles), reaching - left - {id}, id, uid, failing);
        assert reaching - left == reaching - left - {id} + {id};
        roles := roles[id := values];
        warnings := warnings + reported;
      }
    }

    /** The triples naming the uid go whole, so that no slot is left open in their place. */
    method DeleteFromNetgroups(uid: string, failing: set<Ref>) returns (warnings: seq<Warning>)
      modifies `netgroups
      ensures NetgroupsMigrated(old(netgroups), netgroups, NetgroupsStripped(old(netgroups), uid), warnings)
      ensures UnreadableReported(old(netgroups), netgroups, warnings)
      ensures OnlyFailing(warnings, failing)
      ensures forall w :: w in warnings <==> NetgroupWarning(w, old(netgroups), uid, failing, true)
    {
      if NetgroupSearch in failing {
        return [Failed(NetgroupSearch)];
      }
      warnings := [];
      ghost var before, target := netgroups, NetgroupsStripped(netgroups, uid);
      var left := netgroups.Keys;
      while left != {}
        invariant Progress(before, target, netgroups, left, warnings, uid, failing, true)
        decreases left
      {
        var cn :| cn in left;
        var saved, reported := DeleteFromNetgroup(cn, netgroups[cn], uid, NetgroupRef(cn) in failing);
        ProgressNext(before, target, netgroups, left, warnings, cn, saved, reported, uid, failing, true);
        left := left - {cn};
        netgroups := netgroups[cn := saved];
        warnings := warnings + reported;
      }
      ProgressDone(before, target, netgroups, warnings, uid, failing, true);
    }

    method DeleteUser(uid: string, entryFails: bool, failing: set<Ref>) returns (r: Result<seq<Warning>>)
      modifies this
      ensures r.Err? <==> uid !in old(users) || entryFails
      ensures r.Err? ==> users == old(users) && View() == old(View())
      ensures r.Ok? ==> users == old(users) - {uid}
      ensures r.Ok? && uid == "" ==> View() == old(View())
      ensures r.Ok? ==> groups.Keys == old(groups).Keys && roles.Keys == old(roles).Keys && netgroups.Keys == old(netgroups).Keys
      ensures r.Ok? && uid != "" ==> MembersMigrated(old(groups), groups, GroupsStripped(old(groups), uid), r.value)
      ensures r.Ok? && uid != "" ==> RolesMigrated(old(roles), roles, RolesStripped(old(roles), uid), r.value)
      ensures r.Ok? && uid != "" ==> NetgroupsMigrated(old(netgroups), netgroups, NetgroupsStripped(old(netgroups), uid), r.value)
      ensures r.Ok? ==> OnlyFailing(r.value, failing)
      ensures r.Ok? ==> forall id :: id in groups ==> groups[id].cn == old(groups)[id].cn
      ensures r.Ok? && uid != "" ==> forall w :: w in r.value <==>
                || GroupWarning(w, old(View()), uid, failing)
                || RoleWarning(w, old(roles), uid, failing)
                || NetgroupWarning(w, old(netgroups), uid, failing, true)
      ensures r.Ok? && uid != "" && failing == {} ==> View() == StrippedDirectory(old(View()), uid)
    {
      if uid !in users {
        return Err("no such user");
      }
      if entryFails {
        return Err("delete entry");
      }
      users := users - {uid};
      if uid == "" {
        return Ok([]);
      }
      var inGroups := DeleteFromGroups(uid, failing);
      var inRoles := DeleteFromRoles(uid, failing);
      var inNetgroups := DeleteFromNetgroups(uid, failing);
      var warnings := inGroups + inRoles + inNetgroups + [];
      ghost var target := StrippedDirectory(old(View()), uid);
      MoreWarnings(inGroups, inRoles, inNetgroups, [], failing);
      Widen(old(View()), View(), target, inGroups, inRoles, inNetgroups, warnings);
      if failing == {} {
        AllMigrated(old(View()), View(), target, warnings);
      }
      return Ok(warnings);
    }
  }

  /** The search behind this reference, or the write itself, is named as failed. */
  ghost predicate Reported(warnings: seq<Warning>, search: Ref, write: Ref) {
    Failed(search) in warnings || Failed(write) in warnings
  }

  /** Every group's members are the target's, or still as before and reported. */
  ghost predicate MembersMigrated(before: map<Id, Group>, after: map<Id, Group>, target: map<Id, Group>, warnings: seq<Warning>) {
    && before.Keys == after.Keys == target.Keys
    && forall id :: id in after ==>
         || after[id].memberUids == target[id].memberUids
         || (after[id].memberUids == before[id].memberUids && Reported(warnings, GroupSearch, GroupRef(id)))
  }

  ghost predicate RolesMigrated(before: map<Id, seq<string>>, after: map<Id, seq<string>>, target: map<Id, seq<string>>, warnings: seq<Warning>) {
    && before.Keys == after.Keys == target.Keys
    && forall id :: id in after ==>
         || after[id] == target[id]
         || (after[id] == before[id] && Reported(warnings, RoleSearch, RoleRef(id)))
  }

  ghost predicate NetgroupsMigrated(before: map<string, StoredNetgroup>, after: map<string, StoredNetgroup>,
                                    target: map<string, StoredNetgroup>, warnings: seq<Warning>) {
    && before.Keys == after.Keys == target.Keys
    && forall cn :: cn in after ==>
         || after[cn] == target[cn]
         || (after[cn] == before[cn] && Reported(warnings, NetgroupSearch, NetgroupRef(cn)))
  }

  lemma MoreWarnings(a: seq<Warning>, b: seq<Warning>, c: seq<Warning>, d: seq<Warning>, failing: set<Ref>)
    requires OnlyFailing(a, failing) && OnlyFailing(b, failing) && OnlyFailing(c, failing) && OnlyFailing(d, failing)
    ensures OnlyFailing(a + b + c + d, failing)
    ensures forall w :: w in a || w in b || w in c ==> w in a + b + c + d
  {
  }

  lemma Widen(before: Directory, after: Directory, target: Directory, a: seq<Warning>, b: seq<Warning>, c: seq<Warning>, all: seq<Warning>)
    requires MembersMigrated(before.groups, after.groups, target.groups, a)
    requires RolesMigrated(before.roles, after.roles, target.roles, b)
    requires NetgroupsMigrated(before.netgroups, after.netgroups, target.netgroups, c)
    requires forall w :: w in a || w in b || w in c ==> w in all
    ensures MembersMigrated(before.groups, after.groups, target.groups, all)
    ensures RolesMigrated(before.roles, after.roles, target.roles, all)
    ensures NetgroupsMigrated(before.netgroups, after.netgroups, target.netgroups, all)
  {
  }

  /** With nothing failing there is nothing to report, so everything is migrated. */
  lemma AllMigrated(before: Directory, after: Directory, target: Directory, warnings: seq<Warning>)
    requires MembersMigrated(before.groups, after.groups, target.groups, warnings)
    requires RolesMigrated(before.roles, after.roles, target.roles, warnings)
    requires NetgroupsMigrated(before.netgroups, after.netgroups, target.netgroups, warnings)
    requires OnlyFailing(warnings, {}) && after.netgroupSchema == target.netgroupSchema
    requires forall id :: id in after.groups ==> after.groups[id].cn == target.groups[id].cn
    ensures after == target
  {
    assert forall search, write :: !Reported(warnings, search, write);
  }

  /** One group of that name, if the search finds any, is named after the new uid or is
      reported; no other name changes. */
  ghost predicate PrimaryMigrated(before: map<Id, Group>, after: map<Id, Group>, oldUid: string, newUid: string,
                                  found: bool, warnings: seq<Warning>) {
    && before.Keys == after.Keys
    && if found && exists id :: Named(before, id, oldUid)
       then exists id :: Followed(before, after, id, oldUid, newUid, warnings)
       else forall id :: id in before ==> after[id].cn == before[id].cn
  }

  ghost predicate Named(groups: map<Id, Group>, id: Id, cn: string) {
    id in groups && groups[id].cn == cn
  }

  ghost predicate Followed(before: map<Id, Group>, after: map<Id, Group>, id: Id, oldUid: string, newUid: string, warnings: seq<Warning>)
    requires before.Keys == after.Keys
  {
    && Named(before, id, oldUid)
    && (forall other :: other in before && other != id ==> after[other].cn == before[other].cn)
    && (after[id].cn == newUid || (after[id].cn == oldUid && Failed(PrimaryGroup(id)) in warnings))
  }

  /** What the members are, and what else is reported, has no bearing on the names. */
  lemma PrimaryWidens(before: map<Id, Group>, mid: map<Id, Group>, after: map<Id, Group>, oldUid: string, newUid: string,
                      found: bool, warnings: seq<Warning>, all: seq<Warning>)
    requires before.Keys == mid.Keys && forall id :: id in mid ==> mid[id].cn == before[id].cn
    requires PrimaryMigrated(mid, after, oldUid, newUid, found, warnings)
    requires forall w :: w in warnings ==> w in all
    ensures PrimaryMigrated(before, after, oldUid, newUid, found, all)
  {
    assert forall id :: Named(before, id, oldUid) <==> Named(mid, id, oldUid);
    if found && exists id :: Named(mid, id, oldUid) {
      var id :| Followed(mid, after, id, oldUid, newUid, warnings);
      assert Followed(before, after, id, oldUid, newUid, all);
    }
  }

  /** Every reference rewritten, and one group of the old name, if there is any, renamed. */
  ghost predicate FullyRenamed(before: Directory, after: Directory, oldUid: string, newUid: string) {
    var target := RenamedDirectory(before, oldUid, newUid);
    if exists id :: Named(before.groups, id, oldUid)
    then exists id :: Named(before.groups, id, oldUid) && after == GroupNamed(target, id, newUid)
    else after == target
  }

  lemma FullyMigrated(before: Directory, after: Directory, oldUid: string, newUid: string, warnings: seq<Warning>)
    requires MembersMigrated(before.groups, after.groups, GroupsRenamed(before.groups, oldUid, newUid), warnings)
    requires RolesMigrated(before.roles, after.roles, RolesRenamed(before.roles, oldUid, newUid), warnings)
    requires NetgroupsMigrated(before.netgroups, after.netgroups, NetgroupsRenamed(before.netgroups, oldUid, newUid), warnings)
    requires PrimaryMigrated(before.groups, after.groups, oldUid, newUid, true, warnings)
    requires OnlyFailing(warnings, {}) && after.netgroupSchema == before.netgroupSchema
    ensures FullyRenamed(before, after, oldUid, newUid)
  {
    var target := RenamedDirectory(before, oldUid, newUid);
    if exists id :: Named(before.groups, id, oldUid) {
      var id :| Followed(before.groups, after.groups, id, oldUid, newUid, warnings);
      FollowedIs(before.groups, after.groups, target.groups, id, oldUid, newUid, warnings);
      AllMigrated(before, after.(groups := target.groups), target, warnings);
      assert after == GroupNamed(target, id, newUid);
    } else {
      AllMigrated(before, after, target, warnings);
    }
  }

  lemma FollowedIs(before: map<Id, Group>, after: map<Id, Group>, target: map<Id, Group>, id: Id, oldUid: string, newUid: string, warnings: seq<Warning>)
    requires MembersMigrated(before, after, target, warnings) && OnlyFailing(warnings, {})
    requires forall other :: other in before ==> target[other].cn == before[other].cn
    requires Followed(before, after, id, oldUid, newUid, warnings)
    ensures after == target[id := target[id].(cn := newUid)]
  {
    assert forall search, write :: !Reported(warnings, search, write);
    assert forall w :: w in warnings ==> !w.Failed?;
  }

  /** One netgroup is as it should be, its unreadable values reported if it was written,
      or it is as it was and its write is reported as failed. */
  ghost predicate Settled(cn: string, before: StoredNetgroup, target: StoredNetgroup, after: StoredNetgroup, warnings: seq<Warning>) {
    || (after == target && (after != before && MalformedValues(before.values) != [] ==> Unreadable(cn, |MalformedValues(before.values)|) in warnings))
    || (after == before && Failed(NetgroupRef(cn)) in warnings)
  }

  /** Every netgroup written with unreadable values in it is named, with their number. */
  ghost predicate UnreadableReported(before: map<string, StoredNetgroup>, after: map<string, StoredNetgroup>, warnings: seq<Warning>) {
    forall cn :: cn in before && cn in after && after[cn] != before[cn] && MalformedValues(before[cn].values) != [] ==>
      Unreadable(cn, |MalformedValues(before[cn].values)|) in warnings
  }

  /** Exactly the groups listing the uid whose write fails, or the search that found none. */
  ghost predicate GroupWarning(w: Warning, d: Directory, uid: string, failing: set<Ref>) {
    if GroupSearch in failing then w == Failed(GroupSearch) else FailedGroup(w, GroupsOf(d, uid), failing)
  }

  predicate FailedGroup(w: Warning, ids: set<Id>, failing: set<Ref>) {
    w.Failed? && w.ref in failing && w.ref.GroupRef? && w.ref.id in ids
  }

  predicate FailedRole(w: Warning, ids: set<Id>, failing: set<Ref>) {
    w.Failed? && w.ref in failing && w.ref.RoleRef? && w.ref.role in ids
  }

  /** What a delete says about these roles: the ones naming the uid whose write fails, and the
      ones written that named nobody else. */
  predicate DeletionSays(w: Warning, roles: map<Id, seq<string>>, ids: set<Id>, uid: string, failing: set<Ref>) {
    match w
    case Failed(RoleRef(id)) => id in ids && id in roles && uid in roles[id] && w.ref in failing
    case NoSudoUser(id) => id in ids && id in roles && roles[id] == [uid] && RoleRef(id) !in failing
    case _ => false
  }

  lemma SaysMore(roles: map<Id, seq<string>>, ids: set<Id>, id: Id, uid: string, failing: set<Ref>)
    requires id in roles
    ensures forall w :: DeletionSays(w, roles, ids + {id}, uid, failing) <==>
              || DeletionSays(w, roles, ids, uid, failing)
              || (uid in roles[id] && if RoleRef(id) in failing then w == Failed(RoleRef(id)) else |roles[id]| == 1 && w == NoSudoUser(id))
  {
    assert |roles[id]| == 1 ==> roles[id] == [roles[id][0]];
  }

  function RoleLeft(id: Id, values: seq<string>, uid: string, failing: set<Ref>): seq<string> {
    if RoleRef(id) in failing then values else Without(values, uid)
  }

  lemma RolesDone(before: map<Id, seq<string>>, after: map<Id, seq<string>>, reaching: set<Id>, uid: string, failing: set<Ref>, warnings: seq<Warning>)
    requires after.Keys == before.Keys && RoleSearch !in failing
    requires forall id :: id in before ==> after[id] == RoleLeft(id, before[id], uid, failing)
    requires forall id :: id in before && uid in before[id] ==> id in reaching
    requires forall w :: w in warnings <==> DeletionSays(w, before, reaching, uid, failing)
    ensures RolesMigrated(before, after, RolesStripped(before, uid), warnings)
    ensures OnlyFailing(warnings, failing)
    ensures forall w :: w in warnings <==> RoleWarning(w, before, uid, failing)
    ensures forall id :: id in after && before[id] == [uid] && after[id] == [] ==> NoSudoUser(id) in warnings
  {
    forall id | id in before && uid !in before[id]
      ensures Without(before[id], uid) == before[id]
    {
      WithoutNothing(before[id], uid);
    }
    forall id | id in before && uid in before[id] && RoleRef(id) in failing
      ensures Failed(RoleRef(id)) in warnings
    {
      assert DeletionSays(Failed(RoleRef(id)), before, reaching, uid, failing);
    }
  }

  predicate RoleWarning(w: Warning, roles: map<Id, seq<string>>, uid: string, failing: set<Ref>) {
    if RoleSearch in failing then w == Failed(RoleSearch) else DeletionSays(w, roles, roles.Keys, uid, failing)
  }

  /** Exactly what is said about one netgroup: nothing unless it names the uid; then that its
      write failed, or how many unreadable values were kept, and, of a delete, that nothing
      else is left in it. */
  ghost predicate OneWarning(w: Warning, cn: string, n: StoredNetgroup, uid: string, fails: bool, deleting: bool) {
    && TriplesName(ParsedTriples(n.values), uid)
    && match w
       case Failed(ref) => fails && ref == NetgroupRef(cn)
       case Unreadable(netgroup, count) => !fails && netgroup == cn && count == |MalformedValues(n.values)| && count > 0
       case EmptyNetgroup(empty) => deleting && !fails && empty == cn && n.members == [] && OnlyNames(n, uid)
       case NoSudoUser(_) => false
  }

  ghost predicate OnlyNames(n: StoredNetgroup, uid: string) {
    forall t :: t in ParsedTriples(n.values) ==> t.NamesUser(uid)
  }

  ghost predicate SomeWarning(w: Warning, netgroups: map<string, StoredNetgroup>, done: set<string>, uid: string, failing: set<Ref>, deleting: bool) {
    exists cn :: cn in done && cn in netgroups && OneWarning(w, cn, netgroups[cn], uid, NetgroupRef(cn) in failing, deleting)
  }

  ghost predicate NetgroupWarning(w: Warning, netgroups: map<string, StoredNetgroup>, uid: string, failing: set<Ref>, deleting: bool) {
    if NetgroupSearch in failing then w == Failed(NetgroupSearch)
    else SomeWarning(w, netgroups, netgroups.Keys, uid, failing, deleting)
  }

  lemma SaidOf(cn: string, n: StoredNetgroup, uid: string, fails: bool, deleting: bool, reported: seq<Warning>)
    requires TriplesName(ParsedTriples(n.values), uid)
    requires var unreadable := |MalformedValues(n.values)|;
             reported == if fails then [Failed(NetgroupRef(cn))]
                         else (if unreadable == 0 then [] else [Unreadable(cn, unreadable)])
                              + if deleting && n.members == [] && OnlyNames(n, uid) then [EmptyNetgroup(cn)] else []
    ensures forall w :: w in reported <==> OneWarning(w, cn, n, uid, fails, deleting)
  {
    var unreadable := |MalformedValues(n.values)|;
    var one, other := Unreadable(cn, unreadable), EmptyNetgroup(cn);
    forall w
      ensures w in reported <==>
                if fails then w == Failed(NetgroupRef(cn))
                else (w == one && unreadable != 0) || (w == other && deleting && n.members == [] && OnlyNames(n, uid))
    {
    }
  }

  lemma SomeMoreWarning(netgroups: map<string, StoredNetgroup>, done: set<string>, cn: string, uid: string, failing: set<Ref>, deleting: bool)
    requires cn in netgroups
    ensures forall w :: SomeWarning(w, netgroups, done + {cn}, uid, failing, deleting) <==>
              || SomeWarning(w, netgroups, done, uid, failing, deleting)
              || OneWarning(w, cn, netgroups[cn], uid, NetgroupRef(cn) in failing, deleting)
  {
    assert cn in done + {cn};
  }

  /** Part-way: the netgroups done are settled, and the warnings are exactly theirs. */
  ghost predicate Progress(before: map<string, StoredNetgroup>, target: map<string, StoredNetgroup>, after: map<string, StoredNetgroup>,
                           left: set<string>, warnings: seq<Warning>, uid: string, failing: set<Ref>, deleting: bool) {
    && left <= after.Keys == before.Keys == target.Keys
    && (forall cn :: cn in left ==> after[cn] == before[cn])
    && (forall cn :: cn in after && cn !in left ==> Settled(cn, before[cn], target[cn], after[cn], warnings))
    && (forall w :: w in warnings <==> SomeWarning(w, before, before.Keys - left, uid, failing, deleting))
  }

  lemma ProgressNext(before: map<string, StoredNetgroup>, target: map<string, StoredNetgroup>, after: map<string, StoredNetgroup>,
                     left: set<string>, warnings: seq<Warning>, cn: string, saved: StoredNetgroup, reported: seq<Warning>,
                     uid: string, failing: set<Ref>, deleting: bool)
    requires Progress(before, target, after, left, warnings, uid, failing, deleting) && cn in left
    requires Settled(cn, before[cn], target[cn], saved, reported)
    requires forall w :: w in reported <==> OneWarning(w, cn, before[cn], uid, NetgroupRef(cn) in failing, deleting)
    ensures Progress(before, target, after[cn := saved], left - {cn}, warnings + reported, uid, failing, deleting)
  {
    ProgressSays(before, left, warnings, cn, reported, uid, failing, deleting);
    forall x | x in after && x !in left
      ensures Settled(x, before[x], target[x], after[x], warnings + reported)
    {
      StillSettled(x, before[x], target[x], after[x], warnings, reported);
    }
    MoreSettled(cn, before[cn], target[cn], saved, warnings, reported);
  }

  lemma ProgressSays(before: map<string, StoredNetgroup>, left: set<string>, warnings: seq<Warning>, cn: string, reported: seq<Warning>,
                     uid: string, failing: set<Ref>, deleting: bool)
    requires left <= before.Keys && cn in left
    requires forall w :: w in warnings <==> SomeWarning(w, before, before.Keys - left, uid, failing, deleting)
    requires forall w :: w in reported <==> OneWarning(w, cn, before[cn], uid, NetgroupRef(cn) in failing, deleting)
    ensures forall w :: w in warnings + reported <==> SomeWarning(w, before, before.Keys - (left - {cn}), uid, failing, deleting)
  {
    SomeMoreWarning(before, before.Keys - left, cn, uid, failing, deleting);
    assert before.Keys - (left - {cn}) == before.Keys - left + {cn};
  }

  lemma StillSettled(cn: string, before: StoredNetgroup, target: StoredNetgroup, after: StoredNetgroup, warnings: seq<Warning>, more: seq<Warning>)
    requires Settled(cn, before, target, after, warnings)
    ensures Settled(cn, before, target, after, warnings + more)
  {
  }

  lemma MoreSettled(cn: string, before: StoredNetgroup, target: StoredNetgroup, after: StoredNetgroup, earlier: seq<Warning>, warnings: seq<Warning>)
    requires Settled(cn, before, target, after, warnings)
    ensures Settled(cn, before, target, after, earlier + warnings)
  {
  }

  lemma ProgressDone(before: map<string, StoredNetgroup>, target: map<string, StoredNetgroup>, after: map<string, StoredNetgroup>,
                     warnings: seq<Warning>, uid: string, failing: set<Ref>, deleting: bool)
    requires Progress(before, target, after, {}, warnings, uid, failing, deleting) && NetgroupSearch !in failing
    ensures NetgroupsMigrated(before, after, target, warnings)
    ensures OnlyFailing(warnings, failing)
    ensures UnreadableReported(before, after, warnings)
    ensures forall w :: w in warnings <==> NetgroupWarning(w, before, uid, failing, deleting)
  {
    assert before.Keys - {} == before.Keys;
  }

  lemma {:induction false} NothingLeft(triples: seq<Triple>, uid: string)
    ensures WithoutUser(triples, uid) == [] <==> forall t :: t in triples ==> t.NamesUser(uid)
  {
    if triples != [] {
      NothingLeft(triples[1..], uid);
      assert triples == [triples[0]] + triples[1..];
    }
  }

  ghost predicate OnlyFailing(warnings: seq<Warning>, failing: set<Ref>) {
    forall w :: w in warnings && w.Failed? ==> w.ref in failing
  }

  /** A role that reaches the user by no name of theirs has nothing to strip. */
  lemma OthersUntouched(d: Directory, uid: string, r: Routes)
    ensures forall id :: id in d.roles && uid !in d.roles[id] ==> Without(d.roles[id], uid) == d.roles[id]
    ensures forall id :: id in d.roles && uid in d.roles[id] ==> id in RolesBy(d, uid, r)
  {
    forall id | id in d.roles && uid !in d.roles[id]
      ensures Without(d.roles[id], uid) == d.roles[id]
    {
      WithoutNothing(d.roles[id], uid);
    }
    assert CoversBy(d, uid, uid, r);
  }

  lemma ReplacedNothing(list: seq<string>, from: string, to: string)
    requires from !in list
    ensures Replaced(list, from, to) == list
  {
    assert forall i :: 0 <= i < |list| ==> list[i] in list;
  }

  method KeepCovered(values: seq<string>, parts: set<string>, ghost d: Directory, ghost uid: string, ghost r: Routes)
    returns (via: seq<string>)
    requires forall v :: v in parts <==> CoversBy(d, uid, v, r)
    ensures via == CoveringOf(d, uid, values, r)
  {
    via := [];
    for i := 0 to |values|
      invariant via == CoveringOf(d, uid, values[..i], r)
    {
      assert values[..i + 1][..i] == values[..i];
      if values[i] in parts {
        via := via + [values[i]];
      }
    }
    assert values[..|values|] == values;
  }
}
