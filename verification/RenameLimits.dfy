/** Exactly which uids a rename carries over, and a delete removes, without changing what
    anyone else's references mean. */
module RenameLimits {
  import opened NetgroupTriple
  import opened NetgroupGraph
  import opened UserReferences
  import opened ReferenceMeaning

  /** A directory the promise is made for: nothing mentions the new uid yet. */
  ghost predicate Fresh(d: Directory, newUid: string) {
    ReferencedNowhere(d, newUid) && NoEmptyValues(d)
  }

  /** What reaches y afterwards is what reached its origin before, expansions included. */
  ghost predicate SameFor(d: Directory, oldUid: string, newUid: string, y: string) {
    var d', x := RenamedDirectory(d, oldUid, newUid), Origin(oldUid, newUid, y);
    && GroupsOf(d', y) == GroupsOf(d, x)
    && RolesOf(d', y) == RolesOf(d, x)
    && forall root :: root in d.netgroups ==> (Expands(GraphOf(d'), root, UserSide, y) <==> Expands(GraphOf(d), root, UserSide, x))
  }

  ghost predicate Preserves(d: Directory, oldUid: string, newUid: string) {
    && (forall y :: y != oldUid && (y != "" || y == newUid) ==> SameFor(d, oldUid, newUid, y))
    && (forall root :: SameOtherwise(GraphOf(d), GraphOf(RenamedDirectory(d, oldUid, newUid)), root))
  }

  /** Nobody is expanded as the slot that matches nobody, or as a uid no triple carries. */
  lemma NeverExpanded(d: Directory, root: string, uid: string)
    requires !Namable(uid)
    ensures !Expands(GraphOf(d), root, UserSide, uid)
  {
    if o :| o in GraphOf(d) && Reaches(GraphOf(d), root, o) && Names(GraphOf(d)[o], UserSide, uid) {
      var t :| t in ParsedTriples(d.netgroups[o].values) && Slot(t, UserSide) == uid;
      ParsedFrom(d.netgroups[o].values, t);
    }
  }

  lemma CarriedPreserves(d: Directory, oldUid: string, newUid: string, y: string)
    requires RenameApplies(d, oldUid, newUid) && y != oldUid && y != ""
    ensures SameFor(d, oldUid, newUid, y)
  {
    var d', x := RenamedDirectory(d, oldUid, newUid), Origin(oldUid, newUid, y);
    RenamedGroups(d, oldUid, newUid, y);
    RenamedRoles(d, oldUid, newUid, y);
    RenamedNetgroups(d, oldUid, newUid, y);
    forall root | root in d.netgroups
      ensures Expands(GraphOf(d'), root, UserSide, y) <==> Expands(GraphOf(d), root, UserSide, x)
    {
      if y == NO_MATCH {
        NeverExpanded(d', root, y);
        NeverExpanded(d, root, x);
      } else {
        Duality(GraphOf(d'), y, root);
        Duality(GraphOf(d), x, root);
      }
    }
  }

  // ---- one small directory per way a new uid can mean something else ----

  const ID := "e"

  function JustGroup(member: string): Directory {
    Directory(map[ID := Group("g", [member])], map[], map[], true)
  }

  function JustNetgroup(cn: string, user: string): Directory {
    Directory(map[], map[], map[cn := StoredNetgroup([Triple("", user, "").Format()], [])], true)
  }

  function RoleAnd(user: string, groups: map<Id, Group>, netgroups: map<string, StoredNetgroup>): Directory {
    Directory(groups, map[ID := [user]], netgroups, true)
  }

  lemma SlotReads(user: string)
    requires Storable(user)
    ensures ParsedTriples([Triple("", user, "").Format()]) == [Triple("", user, "")]
    ensures MalformedValues([Triple("", user, "").Format()]) == []
  {
    FormattedReadsBack([Triple("", user, "")]);
    assert FormatTriples([Triple("", user, "")]) == [Triple("", user, "").Format()];
  }

  lemma OneRoleRenamed(d: Directory, oldUid: string, newUid: string)
    requires d.roles == map[ID := [oldUid]]
    ensures RenamedDirectory(d, oldUid, newUid).roles == map[ID := [newUid]]
  {
    assert Replaced([oldUid], oldUid, newUid) == [newUid];
  }

  /** A role held by the old uid alone is gained, or lost, by y when one uid covers y
      and the other does not. */
  lemma RoleMoves(d: Directory, oldUid: string, newUid: string, y: string)
    requires y != oldUid && y != newUid && y != "" && d.roles == map[ID := [oldUid]]
    requires Covers(RenamedDirectory(d, oldUid, newUid), y, newUid) != Covers(d, y, oldUid)
    ensures !Preserves(d, oldUid, newUid)
  {
    OneRoleRenamed(d, oldUid, newUid);
    var d' := RenamedDirectory(d, oldUid, newUid);
    assert newUid in d'.roles[ID] && oldUid in d.roles[ID];
    assert ID in RolesOf(d', y) <==> ID !in RolesOf(d, y);
    assert !SameFor(d, oldUid, newUid, y);
  }

  lemma EmptyUidFails(oldUid: string)
    requires oldUid != ""
    ensures Fresh(JustGroup(oldUid), "") && !Preserves(JustGroup(oldUid), oldUid, "")
  {
    var d := JustGroup(oldUid);
    var d' := RenamedDirectory(d, oldUid, "");
    ClearingIn(Replaced([oldUid], oldUid, ""), "");
    assert ID in GroupsOf(d, oldUid);
    assert ID !in GroupsOf(d', "");
    assert !SameFor(d, oldUid, "", "");
  }

  /** A role of the old uid alone, renamed to "ALL", is everybody's. */
  lemma EveryoneFails(oldUid: string, y: string)
    requires SudoPlain(oldUid) && y != "" && y != oldUid && y != EVERYONE
    ensures Fresh(RoleAnd(oldUid, map[], map[]), EVERYONE) && !Preserves(RoleAnd(oldUid, map[], map[]), oldUid, EVERYONE)
  {
    PlainUidCovers(RoleAnd(oldUid, map[], map[]), y, oldUid);
    RoleMoves(RoleAnd(oldUid, map[], map[]), oldUid, EVERYONE, y);
  }

  /** A user called "ALL", renamed, takes from everybody the roles granted to everybody. */
  lemma EveryoneLoses(newUid: string, y: string)
    requires newUid != EVERYONE && y != "" && y != newUid && y != EVERYONE
    ensures Fresh(RoleAnd(EVERYONE, map[], map[]), newUid) && !Preserves(RoleAnd(EVERYONE, map[], map[]), EVERYONE, newUid)
  {
    RoleMoves(RoleAnd(EVERYONE, map[], map[]), EVERYONE, newUid, y);
  }

  function GroupOf(value: string, member: string): map<Id, Group>
    requires value != ""
  {
    map[ID := Group(value[1..], [member])]
  }

  lemma GroupNameFails(oldUid: string, newUid: string, y: string)
    requires SudoPlain(oldUid) && newUid != "" && newUid[0] == '%' && oldUid != newUid
    requires y != "" && y != oldUid && y != newUid
    ensures var d := RoleAnd(oldUid, GroupOf(newUid, y), map[]); Fresh(d, newUid) && !Preserves(d, oldUid, newUid)
  {
    var d := RoleAnd(oldUid, GroupOf(newUid, y), map[]);
    var d' := RenamedDirectory(d, oldUid, newUid);
    assert newUid == "%" + newUid[1..];
    assert d'.groups[ID] == d.groups[ID] && ID in GroupsOf(d', y);
    PlainUidCovers(d, y, oldUid);
    RoleMoves(d, oldUid, newUid, y);
  }

  /** Of a group's member y and an outsider z, one gains or loses a role renamed away from it. */
  lemma GroupNameLost(oldUid: string, newUid: string, y: string, z: string)
    requires oldUid != "" && oldUid[0] == '%' && oldUid != newUid && PlainUid(y) && PlainUid(z) && y != z
    requires y != oldUid && y != newUid && z != oldUid && z != newUid
    ensures var d := RoleAnd(oldUid, GroupOf(oldUid, y), map[]); Fresh(d, newUid) && !Preserves(d, oldUid, newUid)
  {
    var d := RoleAnd(oldUid, GroupOf(oldUid, y), map[]);
    var d' := RenamedDirectory(d, oldUid, newUid);
    assert oldUid == "%" + oldUid[1..];
    assert d'.groups == d.groups && ID in GroupsOf(d, y) && ID !in GroupsOf(d, z);
    if newUid == EVERYONE {
      RoleMoves(d, oldUid, newUid, z);
    } else {
      RoleMoves(d, oldUid, newUid, y);
    }
  }

  lemma OtherNetgroupUntouched(cn: string, y: string, oldUid: string, newUid: string)
    requires Storable(y) && y != oldUid
    ensures NetgroupsRenamed(JustNetgroup(cn, y).netgroups, oldUid, newUid) == JustNetgroup(cn, y).netgroups
    ensures GraphOf(JustNetgroup(cn, y)) == map[cn := Netgroup(cn, [Triple("", y, "")], [], [])]
  {
    SlotReads(y);
    assert !TriplesName([Triple("", y, "")], oldUid);
  }

  ghost predicate NetgroupCovers(d: Directory, y: string, cn: string) {
    d.netgroupSchema && cn in NetgroupsOf(d, y)
  }

  lemma NamedIsCovered(g: Graph, cn: string, y: string)
    requires cn in g && g[cn].triples == [Triple("", y, "")] && y != ""
    ensures cn in Memberships(g, y)
  {
    assert g[cn].triples[0].NamesUser(y);
    assert cn in Up(g, Direct(g, y), 0);
  }

  lemma UnnamedIsNot(g: Graph, cn: string, z: string)
    requires g.Keys == {cn} && !NamesUser(g[cn], z)
    ensures Memberships(g, z) == map[]
  {
    NobodyNamed(g, z);
  }

  lemma FreshBeside(role: string, cn: string, y: string, newUid: string)
    requires Storable(y) && y != newUid && role != newUid
    ensures Fresh(RoleAnd(role, map[], JustNetgroup(cn, y).netgroups), newUid)
  {
    SlotReads(y);
    FormattedOne(Triple("", y, ""));
    assert GraphOf(JustNetgroup(cn, y))[cn].triples == [Triple("", y, "")];
  }

  function NetgroupOf(value: string, user: string): map<string, StoredNetgroup>
    requires value != ""
  {
    JustNetgroup(value[1..], user).netgroups
  }

  /** In a directory with one netgroup and no groups, that netgroup covers y alone. */
  lemma NetgroupCoversIts(d: Directory, cn: string, y: string)
    requires d.netgroupSchema && GraphOf(d) == map[cn := Netgroup(cn, [Triple("", y, "")], [], [])] && y != ""
    ensures Covers(d, y, "+" + cn)
  {
    NamedIsCovered(GraphOf(d), cn, y);
    assert NetgroupCovers(d, y, cn);
  }

  lemma NetgroupCoversNoOther(d: Directory, cn: string, y: string, z: string)
    requires d.groups == map[] && GraphOf(d) == map[cn := Netgroup(cn, [Triple("", y, "")], [], [])]
    requires z != y && z != "+" + cn
    ensures !Covers(d, z, "+" + cn)
  {
    assert !NamesUser(GraphOf(d)[cn], z);
    UnnamedIsNot(GraphOf(d), cn, z);
    assert ("+" + cn)[0] == '+' && EVERYONE[0] == 'A';
  }

  /** Another value than that netgroup's does not cover y. */
  lemma OneNetgroupKept(d: Directory, d': Directory, cn: string, y: string, value: string)
    requires d.groups == map[] == d'.groups && d'.netgroups == d.netgroups && d.netgroups.Keys == {cn}
    requires value != y && value != EVERYONE && value != "+" + cn
    ensures !Covers(d', y, value)
  {
    assert forall n :: n in NetgroupsOf(d', y) ==> n == cn;
  }

  lemma NetgroupNameFails(oldUid: string, newUid: string, y: string)
    requires SudoPlain(oldUid) && newUid != "" && newUid[0] == '+' && oldUid != newUid
    requires PlainUid(y) && y != oldUid && y != newUid
    ensures var d := RoleAnd(oldUid, map[], NetgroupOf(newUid, y)); Fresh(d, newUid) && !Preserves(d, oldUid, newUid)
  {
    var cn := newUid[1..];
    var d := RoleAnd(oldUid, map[], NetgroupOf(newUid, y));
    OtherNetgroupUntouched(cn, y, oldUid, newUid);
    assert newUid == "+" + cn && GraphOf(RenamedDirectory(d, oldUid, newUid)) == GraphOf(JustNetgroup(cn, y));
    NetgroupCoversIts(RenamedDirectory(d, oldUid, newUid), cn, y);
    PlainUidCovers(d, y, oldUid);
    FreshBeside(oldUid, cn, y, newUid);
    RoleMoves(d, oldUid, newUid, y);
  }

  lemma NetgroupNameLost(oldUid: string, newUid: string, y: string, z: string)
    requires oldUid != "" && oldUid[0] == '+' && oldUid != newUid && PlainUid(y) && PlainUid(z) && y != z
    requires y != oldUid && y != newUid && z != oldUid && z != newUid
    ensures var d := RoleAnd(oldUid, map[], NetgroupOf(oldUid, y)); Fresh(d, newUid) && !Preserves(d, oldUid, newUid)
  {
    var cn := oldUid[1..];
    var d := RoleAnd(oldUid, map[], NetgroupOf(oldUid, y));
    OtherNetgroupUntouched(cn, y, oldUid, newUid);
    FreshBeside(oldUid, cn, y, newUid);
    assert oldUid == "+" + cn && GraphOf(d) == GraphOf(JustNetgroup(cn, y));
    if newUid == EVERYONE {
      NetgroupCoversNoOther(d, cn, y, z);
      RoleMoves(d, oldUid, newUid, z);
    } else {
      NetgroupCoversIts(d, cn, y);
      OneNetgroupKept(d, RenamedDirectory(d, oldUid, newUid), cn, y, newUid);
      RoleMoves(d, oldUid, newUid, y);
    }
  }

  /** "-" becomes the slot that matches nobody; a uid with a comma or an outer space
      makes the triple unreadable, or another uid. */
  lemma NotANameFails(oldUid: string, newUid: string)
    requires Namable(oldUid) && newUid != "" && !Namable(newUid)
    ensures Fresh(JustNetgroup("n", oldUid), newUid) && !Preserves(JustNetgroup("n", oldUid), oldUid, newUid)
  {
    var d := JustNetgroup("n", oldUid);
    assert Expands(GraphOf(d), "n", UserSide, oldUid) by {
      SlotReads(oldUid);
      LoneNames(GraphOf(d), oldUid);
    }
    NeverExpanded(RenamedDirectory(d, oldUid, newUid), "n", newUid);
    assert !SameFor(d, oldUid, newUid, newUid);
    FreshLone(oldUid, newUid);
  }

  lemma FreshLone(oldUid: string, newUid: string)
    requires Storable(oldUid) && oldUid != newUid
    ensures Fresh(JustNetgroup("n", oldUid), newUid)
  {
    SlotReads(oldUid);
    FormattedOne(Triple("", oldUid, ""));
    assert ReadNetgroup("n", JustNetgroup("n", oldUid).netgroups["n"]).triples == [Triple("", oldUid, "")];
  }

  lemma LoneNames(g: Graph, uid: string)
    requires "n" in g && g["n"].triples == [Triple("", uid, "")] && IsName(uid)
    ensures Expands(g, "n", UserSide, uid)
  {
    assert "n" in Ball(g, "n", 0);
    assert Slot(g["n"].triples[0], UserSide) == uid;
  }

  /** Renaming a user called "-" turns the slot that matches nobody into the new user, who is
      then in a netgroup that held no one. */
  lemma NoMatchBecomesName(newUid: string)
    requires Namable(newUid)
    ensures var d := JustNetgroup("n", NO_MATCH);
            && Fresh(d, newUid) && !Preserves(d, NO_MATCH, newUid)
            && (forall x :: !Expands(GraphOf(d), "n", UserSide, x))
            && Expands(GraphOf(RenamedDirectory(d, NO_MATCH, newUid)), "n", UserSide, newUid)
  {
    var d := JustNetgroup("n", NO_MATCH);
    var d' := RenamedDirectory(d, NO_MATCH, newUid);
    FreshLone(NO_MATCH, newUid);
    SlotReads(NO_MATCH);
    forall x
      ensures !Expands(GraphOf(d), "n", UserSide, x)
    {
      LoneExpansion(GraphOf(d), x);
    }
    RenamedNetgroupReads(d.netgroups["n"], NO_MATCH, newUid);
    assert RenamedTriples([Triple("", NO_MATCH, "")], NO_MATCH, newUid) == [Triple("", newUid, "")];
    LoneNames(GraphOf(d'), newUid);
    assert !SameFor(d, NO_MATCH, newUid, newUid);
  }

  function NoMatchRole(newUid: string): Directory {
    RoleAnd("+" + newUid, map[], JustNetgroup(newUid, NO_MATCH).netgroups)
  }

  lemma NoMatchUncovered(newUid: string)
    requires !Namable(newUid) && newUid != NO_MATCH
    ensures !Covers(RenamedDirectory(NoMatchRole(newUid), NO_MATCH, newUid), newUid, "+" + newUid)
  {
    var d', value := RenamedDirectory(NoMatchRole(newUid), NO_MATCH, newUid), "+" + newUid;
    NeverNamed(d'.netgroups[newUid], newUid);
    UnnamedIsNot(GraphOf(d'), newUid, newUid);
    assert |value| != |newUid| && value[0] == '+' && EVERYONE[0] == 'A';
    assert d'.groups == map[] && NetgroupsOf(d', newUid) == map[];
  }

  /** And if no triple can carry the new uid, it loses what sudo gave "-" as a netgroup member. */
  lemma NoMatchLoses(newUid: string)
    requires !Namable(newUid) && newUid != "" && newUid != NO_MATCH
    ensures Fresh(NoMatchRole(newUid), newUid) && !Preserves(NoMatchRole(newUid), NO_MATCH, newUid)
  {
    var value, d := "+" + newUid, NoMatchRole(newUid);
    var d' := RenamedDirectory(d, NO_MATCH, newUid);
    assert |value| != |newUid|;
    FreshBeside(value, newUid, NO_MATCH, newUid);
    SlotReads(NO_MATCH);
    NamedIsCovered(GraphOf(d), newUid, NO_MATCH);
    assert NetgroupCovers(d, NO_MATCH, newUid) && value in d.roles[ID];
    NoMatchUncovered(newUid);
    assert Replaced([value], NO_MATCH, newUid) == [value];
    assert d'.roles[ID] == [value];
    assert ID in RolesOf(d, NO_MATCH) && ID !in RolesOf(d', newUid);
    assert !SameFor(d, NO_MATCH, newUid, newUid);
  }

  lemma LoneExpansion(g: Graph, uid: string)
    requires "n" in g && g["n"].members == []
    ensures Expands(g, "n", UserSide, uid) ==> Names(g["n"], UserSide, uid)
  {
    if Expands(g, "n", UserSide, uid) {
      var o :| o in g && Reaches(g, "n", o) && Names(g[o], UserSide, uid);
      var n: nat :| o in Ball(g, "n", n);
      LoneNetgroup(g, n);
    }
  }

  lemma {:induction false} LoneNetgroup(g: Graph, n: nat)
    requires "n" in g && g["n"].members == []
    ensures Ball(g, "n", n) == {"n"}
  {
    if n > 0 {
      LoneNetgroup(g, n - 1);
    }
  }

  function Others(a: string, b: string): (two: (string, string))
    ensures PlainUid(two.0) && PlainUid(two.1) && two.0 != two.1
    ensures two.0 != a && two.0 != b && two.1 != a && two.1 != b
  {
    var y := seq(|a| + |b| + 1, i requires 0 <= i < |a| + |b| + 1 => 'x');
    var z := y + "x";
    assert forall c :: c in z ==> c == 'x';
    assert y[0] == 'x' && z[0] == 'x' && y[|y| - 1] == 'x' && z[|z| - 1] == 'x' && EVERYONE[0] == 'A';
    assert ',' !in y by { assert forall c :: c in y ==> c == 'x'; }
    (y, z)
  }

  lemma OldFails(oldUid: string, newUid: string) returns (d: Directory)
    requires oldUid != newUid && newUid != "" && (!SudoPlain(oldUid) || oldUid == NO_MATCH)
    ensures Fresh(d, newUid) && !Preserves(d, oldUid, newUid)
  {
    var (y, z) := Others(oldUid, newUid);
    if oldUid == NO_MATCH && Namable(newUid) {
      d := JustNetgroup("n", NO_MATCH);
      NoMatchBecomesName(newUid);
    } else if oldUid == NO_MATCH {
      d := NoMatchRole(newUid);
      NoMatchLoses(newUid);
    } else if oldUid == EVERYONE {
      d := RoleAnd(EVERYONE, map[], map[]);
      EveryoneLoses(newUid, y);
    } else if oldUid[0] == '%' {
      d := RoleAnd(oldUid, GroupOf(oldUid, y), map[]);
      GroupNameLost(oldUid, newUid, y, z);
    } else {
      d := RoleAnd(oldUid, map[], NetgroupOf(oldUid, y));
      NetgroupNameLost(oldUid, newUid, y, z);
    }
  }

  lemma NewFails(oldUid: string, newUid: string) returns (d: Directory)
    requires oldUid != newUid && SudoPlain(oldUid) && oldUid != NO_MATCH && !Carries(oldUid, newUid)
    ensures Fresh(d, newUid) && !Preserves(d, oldUid, newUid)
  {
    var (y, _) := Others(oldUid, newUid);
    if newUid == "" {
      d := JustGroup(oldUid);
      EmptyUidFails(oldUid);
    } else if newUid == EVERYONE {
      d := RoleAnd(oldUid, map[], map[]);
      EveryoneFails(oldUid, y);
    } else if newUid[0] == '%' {
      d := RoleAnd(oldUid, GroupOf(newUid, y), map[]);
      GroupNameFails(oldUid, newUid, y);
    } else if newUid[0] == '+' {
      d := RoleAnd(oldUid, map[], NetgroupOf(newUid, y));
      NetgroupNameFails(oldUid, newUid, y);
    } else {
      d := JustNetgroup("n", oldUid);
      NotANameFails(oldUid, newUid);
    }
  }

  /** A rename keeps everyone's meaning in every directory that does not mention the new uid
      exactly when it carries: sudo reads neither uid as more than a user, the old one is not
      "-", the new one is not empty, and it can be named if the old one can. */
  lemma RenamePreservesExactly(oldUid: string, newUid: string)
    requires oldUid != newUid
    ensures Carries(oldUid, newUid) <==> forall d :: Fresh(d, newUid) ==> Preserves(d, oldUid, newUid)
  {
    if Carries(oldUid, newUid) {
      forall d, y | Fresh(d, newUid) && y != oldUid && y != ""
        ensures SameFor(d, oldUid, newUid, y)
      {
        CarriedPreserves(d, oldUid, newUid, y);
      }
      forall d, root | Fresh(d, newUid)
        ensures SameOtherwise(GraphOf(d), GraphOf(RenamedDirectory(d, oldUid, newUid)), root)
      {
        RenameKeepsHosts(d, oldUid, newUid, root);
      }
    } else if newUid == "" {
      EmptyUidFails(oldUid);
    } else if !SudoPlain(oldUid) || oldUid == NO_MATCH {
      var d := OldFails(oldUid, newUid);
    } else {
      var d := NewFails(oldUid, newUid);
    }
  }

  /** What the application takes for a uid. */
  predicate Admitted(uid: string) {
    uid != "" && forall c :: c in uid ==> 'a' <= c <= 'z' || 'A' <= c <= 'Z' || '0' <= c <= '9' || c in "._-"
  }

  /** Between two such uids it does exactly when neither is "-" or "ALL". */
  lemma AdmittedRename(oldUid: string, newUid: string)
    requires Admitted(oldUid) && Admitted(newUid) && oldUid != newUid
    ensures (forall d :: Fresh(d, newUid) ==> Preserves(d, oldUid, newUid)) <==>
            oldUid != NO_MATCH && oldUid != EVERYONE && newUid != NO_MATCH && newUid != EVERYONE
  {
    RenamePreservesExactly(oldUid, newUid);
    AdmittedIsPlain(oldUid);
    AdmittedIsPlain(newUid);
  }

  lemma AdmittedIsPlain(uid: string)
    requires Admitted(uid)
    ensures Storable(uid) && (SudoPlain(uid) <==> uid != EVERYONE)
  {
    assert uid[0] in uid && uid[|uid| - 1] in uid;
  }

  // ---- deleting ----

  ghost predicate KeepsRoles(d: Directory, uid: string) {
    forall y :: y != uid ==> RolesOf(StrippedDirectory(d, uid), y) == RolesOf(d, y)
  }

  lemma RoleGoes(d: Directory, uid: string, y: string)
    requires NoEmptyValues(d) && uid != "" && y != uid && d.roles == map[ID := [uid]] && Covers(d, y, uid)
    ensures !KeepsRoles(d, uid)
  {
    DeleteLeavesOthers(d, uid, y);
    assert uid in d.roles[ID] && !OtherwiseReached(d, uid, y, ID);
    assert ID in RolesOf(d, y) - RolesOf(StrippedDirectory(d, uid), y);
  }

  /** Deleting a user called "ALL" takes from everybody the roles granted to everybody. */
  lemma EveryoneDeleted(y: string)
    requires y != EVERYONE
    ensures !KeepsRoles(RoleAnd(EVERYONE, map[], map[]), EVERYONE)
  {
    RoleGoes(RoleAnd(EVERYONE, map[], map[]), EVERYONE, y);
  }

  lemma GroupDeleted(uid: string, y: string)
    requires uid != "" && uid[0] == '%' && y != uid
    ensures !KeepsRoles(RoleAnd(uid, GroupOf(uid, y), map[]), uid)
  {
    var d := RoleAnd(uid, GroupOf(uid, y), map[]);
    assert uid == "%" + uid[1..] && ID in GroupsOf(d, y);
    RoleGoes(d, uid, y);
  }

  lemma NetgroupDeleted(uid: string, y: string)
    requires uid != "" && uid[0] == '+' && y != uid && PlainUid(y)
    ensures var d := RoleAnd(uid, map[], NetgroupOf(uid, y)); NoEmptyValues(d) && !KeepsRoles(d, uid)
  {
    var cn, d := uid[1..], RoleAnd(uid, map[], NetgroupOf(uid, y));
    FormattedOne(Triple("", y, ""));
    SlotReads(y);
    assert uid == "+" + cn && GraphOf(d) == GraphOf(JustNetgroup(cn, y));
    NetgroupCoversIts(d, cn, y);
    RoleGoes(d, uid, y);
  }

  /** Deleting a user costs nobody else a role, whatever the directory, exactly when sudo reads
      the uid as a user: not "ALL", which would empty each role for everyone, and no % or +. */
  lemma DeleteKeepsRolesExactly(uid: string)
    requires uid != ""
    ensures SudoPlain(uid) <==> forall d :: NoEmptyValues(d) ==> KeepsRoles(d, uid)
  {
    var (y, _) := Others(uid, uid);
    if SudoPlain(uid) {
      forall d, x | NoEmptyValues(d) && x != uid
        ensures RolesOf(StrippedDirectory(d, uid), x) == RolesOf(d, x)
      {
        DeleteLeavesOthers(d, uid, x);
      }
    } else if uid == EVERYONE {
      EveryoneDeleted(y);
      assert NoEmptyValues(RoleAnd(uid, map[], map[]));
    } else if uid[0] == '%' {
      GroupDeleted(uid, y);
      assert NoEmptyValues(RoleAnd(uid, GroupOf(uid, y), map[]));
    } else {
      NetgroupDeleted(uid, y);
    }
  }
}
