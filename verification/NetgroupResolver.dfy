/** The resolver a request uses: the whole collection read once, then walked in memory
    downwards (expand) and upwards (membershipsForUser). */
module NetgroupResolver {
  import opened Wrappers
  import opened NetgroupTriple
  import opened NetgroupGraph
  import opened NetgroupWalk

  /** The lookup `index` builds: of several entries with one name the last wins. */
  ghost function ByName(all: seq<Netgroup>): Graph {
    if all == [] then map[]
    else
      var last := all[|all| - 1];
      ByName(all[..|all| - 1])[last.cn := last]
  }

  ghost predicate UniqueNames(all: seq<Netgroup>) {
    forall i, j :: 0 <= i < j < |all| ==> all[i].cn != all[j].cn
  }

  function ParentsOf(parents: map<string, seq<string>>, child: string): seq<string> {
    if child in parents then parents[child] else []
  }

  /** The reverse edges: who nests whom, by name. */
  ghost predicate ReverseEdges(all: seq<Netgroup>, parents: map<string, seq<string>>) {
    forall c, p :: p in ParentsOf(parents, c) <==> exists n :: n in all && n.cn == p && c in n.members
  }

  /** The graph the reverse edges describe: of several entries with one name the last
      gives the triples, but every one of them gives its nesting edges. */
  ghost function Merged(all: seq<Netgroup>): Graph {
    if all == [] then map[]
    else
      var last, front := all[|all| - 1], Merged(all[..|all| - 1]);
      front[last.cn := last.(members := (if last.cn in front then front[last.cn].members else []) + last.members)]
  }

  lemma {:induction false} MergedMembers(all: seq<Netgroup>, p: string, c: string)
    ensures p in Merged(all) && c in Merged(all)[p].members <==> exists n :: n in all && n.cn == p && c in n.members
  {
    if all != [] {
      var last, front := all[|all| - 1], all[..|all| - 1];
      MergedMembers(front, p, c);
      assert forall n :: n in all <==> n in front || n == last;
    }
  }

  /** The two lookups share names and triples. */
  lemma {:induction false} MergedTriples(all: seq<Netgroup>)
    ensures Merged(all).Keys == ByName(all).Keys
    ensures forall x :: x in Merged(all) ==> Merged(all)[x].triples == ByName(all)[x].triples
  {
    if all != [] {
      MergedTriples(all[..|all| - 1]);
    }
  }

  lemma {:induction false} ByNameKeys(all: seq<Netgroup>, cn: string)
    ensures cn in ByName(all) <==> exists i :: 0 <= i < |all| && all[i].cn == cn
  {
    if all != [] {
      var front := all[..|all| - 1];
      ByNameKeys(front, cn);
      if cn in ByName(front) {
        var i :| 0 <= i < |front| && front[i].cn == cn;
        assert all[i].cn == cn;
      }
    }
  }

  /** With unique names both are simply the collection by name. */
  lemma {:induction false} MergedOfUnique(all: seq<Netgroup>)
    requires UniqueNames(all)
    ensures Merged(all) == ByName(all)
  {
    if all != [] {
      MergedOfUnique(all[..|all| - 1]);
      ByNameKeys(all[..|all| - 1], all[|all| - 1].cn);
      assert [] + all[|all| - 1].members == all[|all| - 1].members;
    }
  }

  lemma ReversesMerged(all: seq<Netgroup>, parents: map<string, seq<string>>)
    requires ReverseEdges(all, parents)
    ensures Reverses(Merged(all), parents)
  {
    forall c, p
      ensures p in ParentsOf(parents, c) <==> p in Merged(all) && c in Merged(all)[p].members
    {
      MergedMembers(all, p, c);
    }
  }

  /** The lookup holds the last entry of each name. */
  lemma {:induction false} ByNameIsLast(all: seq<Netgroup>, cn: string)
    ensures cn in ByName(all) <==> exists n :: n in all && n.cn == cn
    ensures cn in ByName(all) ==>
              exists i :: 0 <= i < |all| && ByName(all)[cn] == all[i] && all[i].cn == cn && forall j :: i < j < |all| ==> all[j].cn != cn
  {
    if all != [] {
      var n := |all| - 1;
      ByNameIsLast(all[..n], cn);
      assert all == all[..n] + [all[n]];
      if all[n].cn != cn && cn in ByName(all) {
        var i :| 0 <= i < n && ByName(all[..n])[cn] == all[i] && all[i].cn == cn && forall j :: i < j < n ==> all[..n][j].cn != cn;
      }
    }
  }

  // ---- when duplicate names are harmless ----

  /** The walks answer alike about every uid a triple can name. */
  ghost predicate WalksAgree(all: seq<Netgroup>) {
    forall x, uid :: x in ByName(all) && uid != NO_MATCH ==>
      (x in Memberships(Merged(all), uid) <==> Expands(ByName(all), x, UserSide, uid))
  }

  /** Names and nesting alike, triples whatever they are. */
  ghost predicate SameShape(a: seq<Netgroup>, b: seq<Netgroup>) {
    |a| == |b| && forall i :: 0 <= i < |a| ==> a[i].cn == b[i].cn && a[i].members == b[i].members
  }

  /** Every nesting edge listed, of an overwritten entry too, leads where the lookup leads. */
  ghost predicate ListedEdgesReach(all: seq<Netgroup>) {
    forall n, c :: n in all && c in n.members && c in ByName(all) ==> Reaches(ByName(all), n.cn, c)
  }

  lemma {:induction false} ShapeIsEdges(a: seq<Netgroup>, b: seq<Netgroup>)
    requires SameShape(a, b)
    ensures SameEdges(ByName(a), ByName(b)) && SameEdges(Merged(a), Merged(b))
  {
    if a != [] {
      ShapeIsEdges(a[..|a| - 1], b[..|b| - 1]);
    }
  }

  lemma ShapeKeepsReach(a: seq<Netgroup>, b: seq<Netgroup>)
    requires SameShape(a, b) && ListedEdgesReach(a)
    ensures ListedEdgesReach(b)
  {
    ShapeIsEdges(a, b);
    forall n, c | n in b && c in n.members && c in ByName(b)
      ensures Reaches(ByName(b), n.cn, c)
    {
      var i :| 0 <= i < |b| && b[i] == n;
      assert a[i] in a && a[i].cn == n.cn && a[i].members == n.members;
      ReachOfSameEdges(ByName(a), ByName(b), n.cn, c);
    }
  }

  lemma {:induction false} LookupIsMerged(all: seq<Netgroup>, p: string)
    requires p in ByName(all)
    ensures p in Merged(all) && forall c :: c in ByName(all)[p].members ==> c in Merged(all)[p].members
  {
    MergedTriples(all);
    if p != all[|all| - 1].cn {
      LookupIsMerged(all[..|all| - 1], p);
    }
  }

  lemma {:induction false} LookupReachesLess(all: seq<Netgroup>, x: string, n: nat, o: string)
    requires x in ByName(all) && o in Ball(ByName(all), x, n)
    ensures o in Ball(Merged(all), x, n)
  {
    if n > 0 {
      if o in Ball(ByName(all), x, n - 1) {
        LookupReachesLess(all, x, n - 1, o);
      } else {
        var a :| a in Ball(ByName(all), x, n - 1) && Edge(ByName(all), a, o);
        LookupReachesLess(all, x, n - 1, a);
        LookupIsMerged(all, a);
        MergedTriples(all);
        assert Edge(Merged(all), a, o);
      }
    }
  }

  lemma {:induction false} MergedReachesNoMore(all: seq<Netgroup>, x: string, n: nat, o: string)
    requires ListedEdgesReach(all) && x in ByName(all) && o in Ball(Merged(all), x, n)
    ensures Reaches(ByName(all), x, o)
  {
    if n == 0 {
      assert o in Ball(ByName(all), x, 0);
    } else if o in Ball(Merged(all), x, n - 1) {
      MergedReachesNoMore(all, x, n - 1, o);
    } else {
      var a :| a in Ball(Merged(all), x, n - 1) && Edge(Merged(all), a, o);
      MergedReachesNoMore(all, x, n - 1, a);
      MergedMembers(all, a, o);
      MergedTriples(all);
      var k: nat :| o in Ball(ByName(all), a, k);
      ReachTransitive(ByName(all), x, a, k, o);
    }
  }

  lemma HarmlessDuplicates(all: seq<Netgroup>)
    requires ListedEdgesReach(all)
    ensures WalksAgree(all)
  {
    var g, m := ByName(all), Merged(all);
    MergedTriples(all);
    forall x, uid | x in g && uid != NO_MATCH
      ensures x in Memberships(m, uid) <==> Expands(g, x, UserSide, uid)
    {
      Duality(m, uid, x);
      forall o | o in g
        ensures Reaches(g, x, o) <==> Reaches(m, x, o)
        ensures Names(g[o], UserSide, uid) <==> Names(m[o], UserSide, uid)
      {
        if Reaches(g, x, o) {
          var n: nat :| o in Ball(g, x, n);
          LookupReachesLess(all, x, n, o);
        }
        if Reaches(m, x, o) {
          var n: nat :| o in Ball(m, x, n);
          MergedReachesNoMore(all, x, n, o);
        }
      }
    }
  }

  /** The same names and nesting, with "u" named by c alone. */
  ghost function NamingOnly(all: seq<Netgroup>, c: string): seq<Netgroup> {
    seq(|all|, i requires 0 <= i < |all| => all[i].(triples := if all[i].cn == c then [Triple("", "u", "")] else []))
  }

  lemma {:induction false} NamedOnly(all: seq<Netgroup>, c: string)
    ensures forall x :: x in ByName(NamingOnly(all, c)) ==>
              ByName(NamingOnly(all, c))[x].triples == if x == c then [Triple("", "u", "")] else []
  {
    if all != [] {
      var n := |all| - 1;
      NamedOnly(all[..n], c);
      assert NamingOnly(all, c)[..n] == NamingOnly(all[..n], c);
    }
  }

  /** An overwritten edge the lookup cannot follow splits the walks over some triples. */
  lemma HarmfulDuplicate(all: seq<Netgroup>, n: Netgroup, c: string)
    requires n in all && c in n.members && c in ByName(all) && !Reaches(ByName(all), n.cn, c)
    ensures SameShape(all, NamingOnly(all, c)) && !WalksAgree(NamingOnly(all, c))
  {
    var other, p := NamingOnly(all, c), n.cn;
    var g, m := ByName(other), Merged(other);
    ShapeIsEdges(all, other);
    NamedOnly(all, c);
    MergedTriples(other);
    MergedMembers(all, p, c);
    ByNameKeys(all, p);
    var i :| 0 <= i < |all| && all[i] == n;
    assert Edge(m, p, c);
    assert m[c].triples[0].NamesUser("u");
    assert c in Up(m, Direct(m, "u"), 0);
    UpStep(m, Direct(m, "u"), 0, p, c);
    assert p in Memberships(m, "u");
    assert !Expands(g, p, UserSide, "u") by {
      ReachOfSameEdges(ByName(all), g, p, c);
      forall o | o in g && Names(g[o], UserSide, "u") ensures o == c {
      }
    }
  }

  /** Whatever triples a listing's netgroups hold, the upward and the downward walk agree,
      exactly if every nesting edge an overwritten entry lists leads to a netgroup the lookup
      reaches from that name. */
  lemma DualityOfListing(all: seq<Netgroup>)
    ensures (forall other :: SameShape(all, other) ==> WalksAgree(other)) <==> ListedEdgesReach(all)
  {
    if ListedEdgesReach(all) {
      forall other | SameShape(all, other) ensures WalksAgree(other) {
        ShapeKeepsReach(all, other);
        HarmlessDuplicates(other);
      }
    }
    if n, c :| n in all && c in n.members && c in ByName(all) && !Reaches(ByName(all), n.cn, c) {
      HarmfulDuplicate(all, n, c);
    }
  }

  /** A listing that breaks it, of two entries of one name, which the directory would have to
      hold in different places: the hidden first entry still nests "b". */
  lemma DuplicateNamesBreakDuality() returns (all: seq<Netgroup>, x: string, uid: string)
    ensures !UniqueNames(all) && uid != NO_MATCH
    ensures x in Memberships(Merged(all), uid) && x in ByName(all) && !Expands(ByName(all), x, UserSide, uid)
  {
    var hidden, shown := Netgroup("a", [], [], ["b"]), Netgroup("a", [], [], []);
    var leaf := Netgroup("b", [Triple("", "u", "")], [], []);
    all, x, uid := [hidden, leaf, shown], "a", "u";
    assert all[0].cn == all[2].cn;
    var two, m := all[..2], Merged(all);
    assert all[..2] == [hidden, leaf] && two[..1] == [hidden] && two[..1][..0] == [];
    assert Merged(two[..1])["a"].members == ["b"] by {
      assert [] + hidden.members == ["b"];
    }
    assert Merged(two)["a"].members == ["b"] && Merged(two)["b"].triples == leaf.triples;
    assert m["a"].members == ["b"] + [] && m["b"].triples == leaf.triples;
    assert leaf.triples[0].NamesUser("u");
    assert Edge(m, "a", "b") && "b" in Up(m, Direct(m, "u"), 0);
    UpStep(m, Direct(m, "u"), 0, "a", "b");
    forall n: nat
      ensures Ball(ByName(all), "a", n) == {"a"}
    {
      LoneBall(ByName(all), "a", n);
    }
  }

  lemma {:induction false} LoneBall(g: Graph, x: string, n: nat)
    requires x in g && g[x].members == []
    ensures Ball(g, x, n) == {x}
  {
    if n > 0 {
      LoneBall(g, x, n - 1);
    }
  }

  class Resolver {
    var byName: map<string, Netgroup>
    var parents: map<string, seq<string>>
    var loaded: bool
    /** The collection the maps were built from. */
    ghost var all: seq<Netgroup>

    ghost predicate Valid()
      reads this
    {
      loaded ==> byName == ByName(all) && ReverseEdges(all, parents)
    }

    constructor ()
      ensures Valid() && !loaded
    {
      loaded := false;
      byName, parents, all := map[], map[], [];
    }

    method Index(netgroups: seq<Netgroup>)
      modifies this
      ensures Valid() && loaded && all == netgroups
    {
      byName, parents := map[], map[];
      for i := 0 to |netgroups|
        invariant byName == ByName(netgroups[..i]) && parents == map[]
      {
        assert netgroups[..i + 1][..i] == netgroups[..i];
        byName := byName[netgroups[i].cn := netgroups[i]];
      }
      assert netgroups[..|netgroups|] == netgroups;
      for i := 0 to |netgroups|
        invariant byName == ByName(netgroups)
        invariant ReverseEdges(netgroups[..i], parents)
      {
        assert netgroups[..i + 1] == netgroups[..i] + [netgroups[i]];
        parents := AddParents(netgroups[..i], netgroups[i], parents);
      }
      all, loaded := netgroups, true;
    }

    /** Reads the collection unless this resolver already has; None is a failed search. */
    method Load(listing: Option<seq<Netgroup>>) returns (ok: bool)
      requires Valid()
      modifies this
      ensures Valid() && (ok <==> old(loaded) || listing.Some?) && (ok <==> loaded)
      ensures old(loaded) ==> all == old(all) && byName == old(byName)
      ensures !old(loaded) && ok ==> all == listing.value
    {
      if loaded {
        return true;
      }
      if listing.None? {
        return false;
      }
      Index(listing.value);
      return true;
    }

    method Expand(cn: string, listing: Option<seq<Netgroup>>) returns (r: Result<Expansion>)
      requires Valid()
      modifies this
      ensures Valid() && (r.Ok? <==> loaded && cn in ByName(all))
      ensures loaded <==> old(loaded) || listing.Some?
      ensures old(loaded) ==> all == old(all)
      ensures !old(loaded) && loaded ==> listing == Some(all)
      ensures r.Ok? ==>
                && r.value.root == cn
                && SideExpanded(ByName(all), cn, UserSide, r.value.users, r.value.openUser)
                && SideExpanded(ByName(all), cn, HostSide, r.value.hosts, r.value.openHost)
                && (exists reached, edges :: Reentries(ByName(all), cn, r.value.cycles, reached, edges))
                && (forall c :: c in r.value.dangling <==>
                      c !in ByName(all) && exists o :: o in ByName(all) && Reaches(ByName(all), cn, o) && c in ByName(all)[o].members)
                && (r.value.cycles == multiset{} ==> forall x :: Reaches(ByName(all), cn, x) ==> !OnCycle(ByName(all), x))
    {
      var ok := Load(listing);
      if !ok {
        return Err("search failed");
      }
      if cn !in byName {
        return Err("netgroup not found");
      }
      ghost var reached, edges;
      var e;
      e, reached, edges := Walk(byName, cn);
      return Ok(e);
    }

    method MembershipsForUser(uid: string, listing: Option<seq<Netgroup>>) returns (r: Result<map<string, bool>>)
      requires Valid()
      modifies this
      ensures Valid() && (r.Ok? <==> uid == "" || loaded)
      ensures old(loaded) ==> all == old(all)
      ensures !old(loaded) && loaded ==> listing == Some(all)
      ensures uid != "" ==> (loaded <==> old(loaded) || listing.Some?)
      ensures r.Ok? && loaded ==> r.value == Memberships(Merged(all), uid)
      ensures r.Ok? && loaded && UniqueNames(all) ==> r.value == Memberships(ByName(all), uid)
      ensures uid == "" ==> r == Ok(map[])
    {
      if uid == "" {
        EmptyUidHasNone(Merged(all));
        EmptyUidHasNone(ByName(all));
        return Ok(map[]);
      }
      var ok := Load(listing);
      if !ok {
        return Err("search failed");
      }
      ReversesMerged(all, parents);
      MergedTriples(all);
      var found := WalkUp(byName, Merged(all), parents, uid);
      if UniqueNames(all) {
        MergedOfUnique(all);
      }
      return Ok(found);
    }
  }

  lemma EmptyUidHasNone(g: Graph)
    ensures Memberships(g, "") == map[]
  {
    assert Direct(g, "") == {};
    forall x | x in g
      ensures !Above(g, {}, x)
    {
      AboveIsReach(g, {}, x);
    }
  }

  method AddParents(ghost before: seq<Netgroup>, n: Netgroup, parents: map<string, seq<string>>)
    returns (parents': map<string, seq<string>>)
    requires ReverseEdges(before, parents)
    ensures ReverseEdges(before + [n], parents')
  {
    parents' := parents;
    for k := 0 to |n.members|
      invariant forall c, p :: p in ParentsOf(parents', c) <==> p in ParentsOf(parents, c) || (p == n.cn && c in n.members[..k])
    {
      var child := n.members[k];
      parents' := parents'[child := ParentsOf(parents', child) + [n.cn]];
    }
    assert n.members[..|n.members|] == n.members;
    forall c, p
      ensures p in ParentsOf(parents', c) <==> exists m :: m in before + [n] && m.cn == p && c in m.members
    {
      if p in ParentsOf(parents, c) {
        var m :| m in before && m.cn == p && c in m.members;
        assert m in before + [n];
      }
      assert n in before + [n];
    }
  }

  /** The netgroups that do contain the user: above one that names them. */
  ghost function Containing(g: Graph, uid: string): set<string> {
    set x | x in g && Above(g, Direct(g, uid), x)
  }

  /** Everything nesting a netgroup of `inner` is in `outer`. */
  ghost predicate NestingFound(g: Graph, inner: set<string>, outer: set<string>) {
    forall c, p :: c in inner && Edge(g, p, c) ==> p in outer
  }

  /** What the upward walk has found so far: `ok` bounds it, direct netgroups are flagged. */
  ghost predicate FoundWithin(found: map<string, bool>, direct: set<string>, ok: set<string>) {
    direct <= found.Keys <= ok && forall x :: x in found ==> found[x] == (x in direct)
  }

  lemma ContainingIsClosed(g: Graph, uid: string)
    ensures Direct(g, uid) <= Containing(g, uid) <= g.Keys
    ensures NestingFound(g, Containing(g, uid), Containing(g, uid))
  {
    forall x | x in Direct(g, uid)
      ensures x in Containing(g, uid)
    {
      assert x in Up(g, Direct(g, uid), 0);
    }
    forall c, p | c in Containing(g, uid) && Edge(g, p, c)
      ensures p in Containing(g, uid)
    {
      var n: nat :| c in Up(g, Direct(g, uid), n);
      UpStep(g, Direct(g, uid), n, p, c);
    }
  }

  lemma {:induction false} UpFound(g: Graph, s: set<string>, found: set<string>, n: nat)
    requires s <= found && NestingFound(g, found, found)
    ensures Up(g, s, n) <= found
  {
    if n > 0 {
      UpFound(g, s, found, n - 1);
    }
  }

  lemma AllFound(g: Graph, uid: string, found: map<string, bool>)
    requires FoundWithin(found, Direct(g, uid), Containing(g, uid)) && NestingFound(g, found.Keys, found.Keys)
    ensures found == Memberships(g, uid)
  {
    forall x | x in Containing(g, uid)
      ensures x in found
    {
      var n: nat :| x in Up(g, Direct(g, uid), n);
      UpFound(g, Direct(g, uid), found.Keys, n);
    }
  }

  /** The reverse edges of this graph. */
  ghost predicate Reverses(g: Graph, parents: map<string, seq<string>>) {
    forall c, p :: p in ParentsOf(parents, c) <==> p in g && c in g[p].members
  }

  lemma NestingNext(g: Graph, parents: map<string, seq<string>>, done: set<string>, name: string, found: set<string>, found': set<string>)
    requires Reverses(g, parents) && NestingFound(g, done, found) && found <= found'
    requires Elements(ParentsOf(parents, name)) <= found'
    ensures NestingFound(g, done + {name}, found')
  {
    forall c, p | c in done + {name} && Edge(g, p, c)
      ensures p in found'
    {
      assert c == name ==> p in ParentsOf(parents, name);
    }
  }

  lemma ParentsContain(g: Graph, parents: map<string, seq<string>>, ok: set<string>, name: string)
    requires Reverses(g, parents) && NestingFound(g, ok, ok) && name in ok && ok <= g.Keys
    ensures Elements(ParentsOf(parents, name)) <= ok
  {
    forall p | p in ParentsOf(parents, name)
      ensures p in ok
    {
      assert Edge(g, p, name);
    }
  }

  lemma WalkUpNext(g: Graph, parents: map<string, seq<string>>, ok: set<string>, direct: set<string>, done: set<string>,
                   found: map<string, bool>, queue: seq<string>, found': map<string, bool>, queue': seq<string>)
    requires Reverses(g, parents) && NestingFound(g, ok, ok) && ok <= g.Keys
    requires FoundWithin(found, direct, ok) && NestingFound(g, done, found.Keys)
    requires queue != [] && found.Keys == done + Elements(queue)
    requires Nested(Elements(ParentsOf(parents, queue[0])), found, queue[1..], found', queue')
    ensures FoundWithin(found', direct, ok) && NestingFound(g, done + {queue[0]}, found'.Keys)
    ensures found'.Keys == done + {queue[0]} + Elements(queue')
    ensures found'.Keys == found.Keys ==> |queue'| < |queue|
  {
    assert queue == [queue[0]] + queue[1..];
    ElementsAppend([queue[0]], queue[1..]);
    ParentsContain(g, parents, ok, queue[0]);
    NestingNext(g, parents, done, queue[0], found.Keys, found'.Keys);
  }

  method WalkUp(byName: Graph, ghost g: Graph, parents: map<string, seq<string>>, uid: string) returns (found: map<string, bool>)
    requires g.Keys == byName.Keys && forall x :: x in g ==> g[x].triples == byName[x].triples
    requires Reverses(g, parents)
    ensures found == Memberships(g, uid)
  {
    var queue: seq<string>;
    found, queue := Seed(byName, uid);
    assert Direct(byName, uid) == Direct(g, uid);
    ghost var done, direct, ok := {}, Direct(g, uid), Containing(g, uid);
    ContainingIsClosed(g, uid);
    while |queue| > 0
      invariant FoundWithin(found, direct, ok)
      invariant found.Keys == done + Elements(queue)
      invariant NestingFound(g, done, found.Keys)
      decreases ok - found.Keys, |queue|
    {
      var name := queue[0];
      ghost var found0, queue0 := found, queue;
      found, queue := AddNesting(ParentsOf(parents, name), found, queue[1..]);
      WalkUpNext(g, parents, ok, direct, done, found0, queue0, found, queue);
      done := done + {name};
    }
    assert done == found.Keys;
    AllFound(g, uid, found);
  }

  /** The netgroups whose own triples name the user, in whatever order the map gives. */
  method Seed(g: Graph, uid: string) returns (found: map<string, bool>, queue: seq<string>)
    ensures found.Keys == Direct(g, uid) && forall x :: x in found ==> found[x]
    ensures Elements(queue) == found.Keys
  {
    found, queue := map[], [];
    var left := g.Keys;
    while left != {}
      invariant left <= g.Keys
      invariant found.Keys == Direct(g, uid) - left
      invariant forall x :: x in found ==> found[x]
      invariant forall x :: x in found <==> x in queue
      decreases left
    {
      var name :| name in left;
      left := left - {name};
      var named := AnyNamesUser(g[name].triples, uid);
      if named {
        assert NamesUser(g[name], uid);
        found := found[name := true];
        queue := queue + [name];
      }
    }
  }

  method AnyNamesUser(triples: seq<Triple>, uid: string) returns (named: bool)
    ensures named <==> exists t :: t in triples && t.NamesUser(uid)
  {
    for i := 0 to |triples|
      invariant forall k :: 0 <= k < i ==> !triples[k].NamesUser(uid)
    {
      if triples[i].NamesUser(uid) {
        return true;
      }
    }
    return false;
  }

  ghost function Elements(s: seq<string>): set<string> {
    set x | x in s
  }

  lemma ElementsAppend(a: seq<string>, b: seq<string>)
    ensures Elements(a + b) == Elements(a) + Elements(b)
  {
  }

  lemma ElementsPrefix(s: seq<string>, i: nat)
    requires i < |s|
    ensures Elements(s[..i + 1]) == Elements(s[..i]) + {s[i]}
  {
    assert s[..i + 1] == s[..i] + [s[i]];
    ElementsAppend(s[..i], [s[i]]);
  }

  /** The parents seen so far are found, the new ones among them queued. */
  ghost predicate Nested(parents: set<string>, found: map<string, bool>, queue: seq<string>, found': map<string, bool>, queue': seq<string>) {
    && found'.Keys == found.Keys + parents
    && (forall x :: x in found ==> found'[x] == found[x])
    && (forall x :: x in found' && x !in found ==> !found'[x])
    && Elements(queue') == Elements(queue) + (found'.Keys - found.Keys)
    && (found'.Keys == found.Keys ==> queue' == queue)
  }

  /** One netgroup's parents: each not yet found is reached indirectly. */
  method AddNesting(nesting: seq<string>, found: map<string, bool>, queue: seq<string>)
    returns (found': map<string, bool>, queue': seq<string>)
    ensures Nested(Elements(nesting), found, queue, found', queue')
  {
    found', queue' := found, queue;
    for i := 0 to |nesting|
      invariant Nested(Elements(nesting[..i]), found, queue, found', queue')
    {
      ElementsPrefix(nesting, i);
      var parent := nesting[i];
      if parent !in found' {
        ElementsAppend(queue', [parent]);
        assert found'[parent := false].Keys == found'.Keys + {parent};
        found' := found'[parent := false];
        queue' := queue' + [parent];
      }
    }
    assert nesting[..|nesting|] == nesting;
  }
}
