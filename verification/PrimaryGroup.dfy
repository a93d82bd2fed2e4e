/** The group named after a user follows a rename of that user, but the sudo roles granting
    to it by its old name do not: exactly whose roles that changes. */
module PrimaryGroup {
  import opened UserReferences
  import opened ReferenceMeaning

  ghost predicate InGroup(d: Directory, id: Id, uid: string) {
    id in d.groups && uid in d.groups[id].memberUids
  }

  /** The directory as if this group were not there. */
  ghost function Dropped(d: Directory, id: Id): Directory {
    d.(groups := d.groups - {id})
  }

  /** The roles naming the group, as a user of it sees them. */
  ghost function RolesNaming(d: Directory, id: Id, cn: string, uid: string): set<Id> {
    set role | role in d.roles && InGroup(d, id, uid) && "%" + cn in d.roles[role]
  }

  lemma CoversSplit(d: Directory, id: Id, uid: string, value: string)
    requires id in d.groups
    ensures Covers(d, uid, value) <==>
            Covers(Dropped(d, id), uid, value) || (InGroup(d, id, uid) && value == "%" + d.groups[id].cn)
  {
    var e := Dropped(d, id);
    assert forall other :: other in GroupsOf(e, uid) <==> other in GroupsOf(d, uid) && other != id;
    assert GraphOf(e) == GraphOf(d);
  }

  /** A user has the roles that reach them without the group, and those naming it. */
  lemma RolesSplit(d: Directory, id: Id, uid: string)
    requires id in d.groups
    ensures RolesOf(d, uid) == RolesOf(Dropped(d, id), uid) + RolesNaming(d, id, d.groups[id].cn, uid)
  {
    var name := "%" + d.groups[id].cn;
    forall role | role in d.roles
      ensures role in RolesOf(d, uid) <==> role in RolesOf(Dropped(d, id), uid) || (InGroup(d, id, uid) && name in d.roles[role])
    {
      forall v
        ensures Covers(d, uid, v) <==> Covers(Dropped(d, id), uid, v) || (InGroup(d, id, uid) && v == name)
      {
        CoversSplit(d, id, uid, v);
      }
      if InGroup(d, id, uid) && name in d.roles[role] {
        assert Covers(d, uid, name);
      }
    }
  }

  /** Naming a group anew takes from its members the roles that reach them by its old name
      and by nothing else, and gives them those listing the new one; others keep theirs. */
  lemma NamedRoles(d: Directory, id: Id, cn: string, uid: string)
    requires id in d.groups
    ensures RolesOf(GroupNamed(d, id, cn), uid) == RolesOf(Dropped(d, id), uid) + RolesNaming(d, id, cn, uid)
    ensures !InGroup(d, id, uid) ==> RolesOf(GroupNamed(d, id, cn), uid) == RolesOf(d, uid)
  {
    var e := GroupNamed(d, id, cn);
    RolesSplit(d, id, uid);
    RolesSplit(e, id, uid);
    assert Dropped(e, id) == Dropped(d, id);
  }

  /** The roles a user gains and loses when a primary group follows the rename. Everyone but
      the renamed user is their own origin. */
  lemma RolesAfterRename(d: Directory, oldUid: string, newUid: string, id: Id, y: string)
    requires RenameApplies(d, oldUid, newUid) && y != oldUid && y != ""
    requires id in d.groups && d.groups[id].cn == oldUid
    ensures var x, before := Origin(oldUid, newUid, y), RolesOf(d, Origin(oldUid, newUid, y));
            var after := RolesOf(GroupNamed(RenamedDirectory(d, oldUid, newUid), id, newUid), y);
            && after - before == RolesNaming(d, id, newUid, x) - before
            && before - after == RolesNaming(d, id, oldUid, x) - RolesNaming(d, id, newUid, x) - RolesOf(Dropped(d, id), x)
  {
    var e, x := RenamedDirectory(d, oldUid, newUid), Origin(oldUid, newUid, y);
    NamedRoles(e, id, newUid, y);
    RolesSplit(d, id, x);
    DroppedRenamed(d, oldUid, newUid, id, y);
    RenamedGroups(d, oldUid, newUid, y);
    assert InGroup(e, id, y) <==> id in GroupsOf(e, y);
    forall role | role in d.roles
      ensures "%" + newUid in e.roles[role] <==> "%" + newUid in d.roles[role]
    {
      ReplacedIn(d.roles[role], oldUid, newUid, "%" + newUid);
    }
    assert RolesNaming(e, id, newUid, y) == RolesNaming(d, id, newUid, x);
  }

  lemma DroppedRenamed(d: Directory, oldUid: string, newUid: string, id: Id, y: string)
    requires RenameApplies(d, oldUid, newUid) && y != oldUid && y != ""
    ensures RolesOf(Dropped(RenamedDirectory(d, oldUid, newUid), id), y) == RolesOf(Dropped(d, id), Origin(oldUid, newUid, y))
  {
    assert RenamedDirectory(Dropped(d, id), oldUid, newUid) == Dropped(RenamedDirectory(d, oldUid, newUid), id);
    RenamedRoles(Dropped(d, id), oldUid, newUid, y);
  }

  /** So a user keeps exactly the roles they had just when they had none by the group's old
      name alone and get none by its new one. */
  lemma FollowingKeepsRoles(d: Directory, oldUid: string, newUid: string, id: Id, y: string)
    requires RenameApplies(d, oldUid, newUid) && y != oldUid && y != ""
    requires id in d.groups && d.groups[id].cn == oldUid
    ensures var x := Origin(oldUid, newUid, y);
            RolesOf(GroupNamed(RenamedDirectory(d, oldUid, newUid), id, newUid), y) == RolesOf(d, x)
            <==> RolesNaming(d, id, oldUid, x) - RolesNaming(d, id, newUid, x) <= RolesOf(Dropped(d, id), x)
                 && RolesNaming(d, id, newUid, x) <= RolesOf(d, x)
  {
    RolesAfterRename(d, oldUid, newUid, id, y);
    var x := Origin(oldUid, newUid, y);
    SameWhenNoneDiffer(RolesOf(d, x), RolesOf(GroupNamed(RenamedDirectory(d, oldUid, newUid), id, newUid), y));
    NoneLeft(RolesNaming(d, id, newUid, x), RolesOf(d, x));
    NoneLeft(RolesNaming(d, id, oldUid, x) - RolesNaming(d, id, newUid, x), RolesOf(Dropped(d, id), x));
  }

  lemma SameWhenNoneDiffer(a: set<Id>, b: set<Id>)
    ensures a == b <==> a - b == {} && b - a == {}
  {
    if a - b == {} && b - a == {} {
      assert forall i :: (i in a && i !in b ==> i in a - b) && (i in b && i !in a ==> i in b - a);
    }
  }

  lemma NoneLeft(a: set<Id>, b: set<Id>)
    ensures a <= b <==> a - b == {}
  {
    assert forall i :: i in a && i !in b ==> i in a - b;
  }

  const ANNS := Directory(map["g" := Group("ann", ["ann"])], map["r" := ["%ann"]], map[], true)

  lemma AnnApplies()
    ensures RenameApplies(ANNS, "ann", "eve")
  {
  }

  lemma AnnWithoutHerGroup()
    ensures RolesOf(Dropped(ANNS, "g"), "ann") == {}
  {
    assert NetgroupsOf(Dropped(ANNS, "g"), "ann") == map[];
    assert !Covers(Dropped(ANNS, "g"), "ann", "%ann");
  }

  /** ann's own group holds a role as "%ann"; renamed to eve, her group is called eve, the
      role still says "%ann", and she no longer has it. */
  lemma RoleLeftBehind()
    ensures "r" in RolesOf(ANNS, "ann")
    ensures RolesOf(GroupNamed(RenamedDirectory(ANNS, "ann", "eve"), "g", "eve"), "eve") == {}
  {
    AnnApplies();
    AnnWithoutHerGroup();
    RolesSplit(ANNS, "g", "ann");
    assert "%" + "ann" == "%ann" && ("%" + "eve")[1] != "%ann"[1];
    assert RolesNaming(ANNS, "g", "eve", "ann") == {};
    assert RolesNaming(ANNS, "g", "ann", "ann") == {"r"};
    RolesAfterRename(ANNS, "ann", "eve", "g", "eve");
  }
}
