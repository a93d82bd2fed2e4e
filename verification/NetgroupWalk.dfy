/** The breadth-first expansion of one netgroup: each name is attributed to a
    nearest netgroup naming it, and every edge but the discovering ones is reported. */
module NetgroupWalk {
  import opened NetgroupGraph

  /** Name to the netgroup it comes through, "" for the root's own. The slices of the
      source are sorted by name; here they are maps, sets and a multiset. */
  datatype Expansion = Expansion(
    root: string,
    users: map<string, string>,
    hosts: map<string, string>,
    openUser: set<string>,
    openHost: set<string>,
    cycles: multiset<(string, string)>,
    dangling: set<string>)

  /** What one side has collected so far. */
  datatype Found = Found(names: map<string, string>, open: set<string>)

  function CollectSlot(value: string, owner: string, via: string, f: Found): Found {
    if value == "" then f.(open := f.open + {owner})
    else if value == NO_MATCH then f
    else if value in f.names then f
    else f.(names := f.names[value := via])
  }

  function ViaOf(root: string, owner: string): string {
    if owner == root then "" else owner
  }

  // ---- one netgroup's triples ----

  ghost predicate Collected(n: Netgroup, side: Side, owner: string, via: string, before: Found, after: Found) {
    && (forall x :: x in after.names <==> x in before.names || Names(n, side, x))
    && (forall x :: x in before.names ==> x in after.names && after.names[x] == before.names[x])
    && (forall x :: x in after.names && x !in before.names ==> after.names[x] == via)
    && after.open == before.open + if Opens(n, side) then {owner} else {}
  }

  lemma LongerPrefix(n: Netgroup, i: nat, side: Side)
    requires i < |n.triples|
    ensures var shorter, longer, value := Prefix(n, i), Prefix(n, i + 1), Slot(n.triples[i], side);
            && (Opens(longer, side) <==> Opens(shorter, side) || value == "")
            && forall x :: Names(longer, side, x) <==> Names(shorter, side, x) || (IsName(x) && value == x)
  {
    var shorter, longer := Prefix(n, i), Prefix(n, i + 1);
    assert longer.triples == shorter.triples + [n.triples[i]];
    assert n.triples[i] in longer.triples;
    assert forall t :: t in longer.triples <==> t in shorter.triples || t == n.triples[i];
  }

  ghost function Prefix(n: Netgroup, i: nat): Netgroup
    requires i <= |n.triples|
  {
    n.(triples := n.triples[..i])
  }

  lemma CollectOne(n: Netgroup, i: nat, side: Side, owner: string, via: string, before: Found, mid: Found)
    requires i < |n.triples|
    requires Collected(Prefix(n, i), side, owner, via, before, mid)
    ensures Collected(Prefix(n, i + 1), side, owner, via, before, CollectSlot(Slot(n.triples[i], side), owner, via, mid))
  {
    LongerPrefix(n, i, side);
  }

  method CollectTriples(n: Netgroup, owner: string, via: string, users: Found, hosts: Found)
    returns (users': Found, hosts': Found)
    ensures Collected(n, UserSide, owner, via, users, users')
    ensures Collected(n, HostSide, owner, via, hosts, hosts')
  {
    users', hosts' := users, hosts;
    for i := 0 to |n.triples|
      invariant Collected(Prefix(n, i), UserSide, owner, via, users, users')
      invariant Collected(Prefix(n, i), HostSide, owner, via, hosts, hosts')
    {
      CollectOne(n, i, UserSide, owner, via, users, users');
      CollectOne(n, i, HostSide, owner, via, hosts, hosts');
      users' := CollectSlot(n.triples[i].user, owner, via, users');
      hosts' := CollectSlot(n.triples[i].host, owner, via, hosts');
    }
    assert Prefix(n, |n.triples|) == n;
  }

  /** The j-th netgroup of the walk is the first one naming x. */
  ghost predicate FirstNaming(g: Graph, done: seq<string>, j: nat, side: Side, x: string) {
    && j < |done| && done[j] in g && Names(g[done[j]], side, x)
    && forall k :: 0 <= k < j ==> done[k] in g && !Names(g[done[k]], side, x)
  }

  ghost predicate Attributed(g: Graph, root: string, done: seq<string>, side: Side, f: Found) {
    && (forall x :: x in f.names ==> exists j: nat :: FirstNaming(g, done, j, side, x) && f.names[x] == ViaOf(root, done[j]))
    && (forall j, x :: 0 <= j < |done| && done[j] in g && Names(g[done[j]], side, x) ==> x in f.names)
    && (forall o :: o in f.open <==> o in done && o in g && Opens(g[o], side))
  }

  lemma AttributeNext(g: Graph, root: string, done: seq<string>, name: string, side: Side, f: Found, f': Found)
    requires forall o :: o in done ==> o in g
    requires name in g && name !in done
    requires Attributed(g, root, done, side, f)
    requires Collected(g[name], side, name, ViaOf(root, name), f, f')
    ensures Attributed(g, root, done + [name], side, f')
  {
    var longer := done + [name];
    forall x | x in f'.names
      ensures exists j: nat :: FirstNaming(g, longer, j, side, x) && f'.names[x] == ViaOf(root, longer[j])
    {
      if x in f.names {
        var j: nat :| FirstNaming(g, done, j, side, x) && f.names[x] == ViaOf(root, done[j]);
        assert FirstNaming(g, longer, j, side, x);
      } else {
        assert FirstNaming(g, longer, |done|, side, x);
      }
    }
  }

  // ---- one netgroup's members ----

  ghost function OutEdges(g: Graph, name: string, members: seq<string>): multiset<(string, string)> {
    if members == [] then multiset{}
    else
      var last := members[|members| - 1];
      OutEdges(g, name, members[..|members| - 1]) + if last in g then multiset{(name, last)} else multiset{}
  }

  lemma {:induction false} OutEdgesCount(g: Graph, name: string, members: seq<string>, a: string, b: string)
    ensures OutEdges(g, name, members)[(a, b)] == if a == name && b in g then multiset(members)[b] else 0
  {
    if members != [] {
      OutEdgesCount(g, name, members[..|members| - 1], a, b);
      assert members == members[..|members| - 1] + [members[|members| - 1]];
    }
  }

  /** The part of the walk's state that following one netgroup's members changes. */
  datatype Frontier = Frontier(
    visited: set<string>,
    queue: seq<string>,
    cycles: multiset<(string, string)>,
    dangling: set<string>)

  /** Which netgroups are queued and visited after following `members`: `added` are new. */
  ghost predicate Queued(g: Graph, members: seq<string>, f: Frontier, f': Frontier, added: seq<string>) {
    && f'.queue == f.queue + added
    && f'.visited == f.visited + (set c | c in added)
    && (forall i, j :: 0 <= i < j < |added| ==> added[i] != added[j])
    && (forall c :: c in added ==> c in members && c in g && c !in f.visited)
    && (forall c :: c in members && c in g ==> c in f'.visited)
    && (forall c :: c in f'.dangling <==> c in f.dangling || (c in members && c !in g))
  }

  /** Each existing member either discovered a netgroup or is recorded as a re-entry. */
  ghost predicate Recorded(g: Graph, name: string, members: seq<string>, f: Frontier, f': Frontier, added: seq<string>) {
    && f.cycles <= f'.cycles <= f.cycles + OutEdges(g, name, members)
    && |f'.cycles| + |added| == |f.cycles| + |OutEdges(g, name, members)|
    && (f'.cycles == f.cycles ==> forall c :: c in members && c in g ==> c in added)
  }

  /** Edge by edge: recorded as often as it is written, but once less if it discovered. */
  ghost predicate Tallied(g: Graph, name: string, members: seq<string>, f: Frontier, f': Frontier, added: seq<string>) {
    forall a, b :: f'.cycles[(a, b)] + Once(a == name && b in added) == f.cycles[(a, b)] + OutEdges(g, name, members)[(a, b)]
  }

  function Once(b: bool): nat {
    if b then 1 else 0
  }

  ghost predicate Visited(g: Graph, name: string, members: seq<string>, f: Frontier, f': Frontier, added: seq<string>) {
    Queued(g, members, f, f', added) && Recorded(g, name, members, f, f', added) && Tallied(g, name, members, f, f', added)
  }

  /** One member: dangling, a re-entry into the walk, or newly discovered. */
  function VisitMember(g: Graph, name: string, child: string, f: Frontier): Frontier {
    if child !in g then f.(dangling := f.dangling + {child})
    else if child in f.visited then f.(cycles := f.cycles + multiset{(name, child)})
    else f.(visited := f.visited + {child}, queue := f.queue + [child])
  }

  /** The member list as extended by the member itself, when it is a discovery. */
  ghost function Discovers(g: Graph, child: string, mid: Frontier, added: seq<string>): seq<string> {
    if child in g && child !in mid.visited then added + [child] else added
  }

  lemma QueueNext(g: Graph, name: string, members: seq<string>, child: string, f: Frontier, mid: Frontier, added: seq<string>)
    requires Queued(g, members, f, mid, added)
    ensures Queued(g, members + [child], f, VisitMember(g, name, child, mid), Discovers(g, child, mid, added))
  {
    var added' := Discovers(g, child, mid, added);
    assert forall c :: c in members + [child] <==> c in members || c == child;
    if added' != added {
      assert added' == added + [child];
      assert forall c :: c in added' <==> c in added || c == child;
      assert (set c | c in added') == (set c | c in added) + {child};
    }
  }

  lemma RecordNext(g: Graph, name: string, members: seq<string>, child: string, f: Frontier, mid: Frontier, added: seq<string>)
    requires Recorded(g, name, members, f, mid, added)
    ensures Recorded(g, name, members + [child], f, VisitMember(g, name, child, mid), Discovers(g, child, mid, added))
  {
    var longer := members + [child];
    assert longer[..|longer| - 1] == members;
    assert forall c :: c in longer <==> c in members || c == child;
    var one := multiset{(name, child)};
    if child in g && child in mid.visited {
      assert |mid.cycles + one| == |mid.cycles| + 1;
      assert (mid.cycles + one)[(name, child)] > f.cycles[(name, child)];
    }
  }

  lemma TallyNext(g: Graph, name: string, members: seq<string>, child: string, f: Frontier, mid: Frontier, added: seq<string>)
    requires Queued(g, members, f, mid, added) && Tallied(g, name, members, f, mid, added)
    ensures Tallied(g, name, members + [child], f, VisitMember(g, name, child, mid), Discovers(g, child, mid, added))
  {
    var longer, added' := members + [child], Discovers(g, child, mid, added);
    assert longer[..|longer| - 1] == members;
    forall a, b
      ensures VisitMember(g, name, child, mid).cycles[(a, b)] + Once(a == name && b in added')
           == f.cycles[(a, b)] + OutEdges(g, name, longer)[(a, b)]
    {
      assert b in added' <==> b in added || (child in g && child !in mid.visited && b == child);
    }
  }

  method VisitMembers(g: Graph, name: string, f: Frontier) returns (f': Frontier, ghost added: seq<string>)
    requires name in g
    ensures Visited(g, name, g[name].members, f, f', added)
  {
    f', added := f, [];
    var members := g[name].members;
    for k := 0 to |members|
      invariant Visited(g, name, members[..k], f, f', added)
    {
      assert members[..k + 1] == members[..k] + [members[k]];
      QueueNext(g, name, members[..k], members[k], f, f', added);
      RecordNext(g, name, members[..k], members[k], f, f', added);
      TallyNext(g, name, members[..k], members[k], f, f', added);
      added := Discovers(g, members[k], f', added);
      f' := VisitMember(g, name, members[k], f');
    }
    assert members[..|members|] == members;
  }

  // ---- the breadth-first order ----

  /** x is exactly n nesting steps below root. */
  ghost predicate AtLevel(g: Graph, root: string, x: string, n: nat) {
    forall m: nat :: x in Ball(g, root, m) <==> n <= m
  }

  lemma AtNextLevel(g: Graph, root: string, p: string, n: nat, x: string)
    requires AtLevel(g, root, p, n) && Edge(g, p, x) && x !in Ball(g, root, n)
    ensures AtLevel(g, root, x, n + 1)
  {
    assert p in Ball(g, root, n);
    assert x in Ball(g, root, n + 1);
    forall m: nat
      ensures x in Ball(g, root, m) <==> n + 1 <= m
    {
      if n + 1 <= m {
        BallGrows(g, root, n + 1, m);
      } else {
        BallGrows(g, root, m, n);
      }
    }
  }

  lemma RootAtLevel(g: Graph, root: string)
    ensures AtLevel(g, root, root, 0)
  {
    forall m: nat
      ensures root in Ball(g, root, m)
    {
      BallGrows(g, root, 0, m);
    }
  }

  /** The walk's discovery order: distinct netgroups at non-decreasing distance, the
      first i of which have had all their children discovered. */
  ghost predicate Discovered(g: Graph, root: string, seen: seq<string>, level: seq<nat>, i: nat) {
    && root in g && |seen| == |level| && i <= |seen| && |seen| > 0 && seen[0] == root
    && (forall a, b :: 0 <= a < b < |seen| ==> seen[a] != seen[b] && level[a] <= level[b])
    && (forall a :: 0 <= a < |seen| ==> seen[a] in g && AtLevel(g, root, seen[a], level[a]))
    && (forall a, c :: 0 <= a < i && Edge(g, seen[a], c) ==> c in seen)
    && (i < |seen| ==> level[|seen| - 1] <= level[i] + 1)
  }

  /** Everything up to the distance of the current netgroup has been discovered. */
  lemma {:induction false} BallDiscovered(g: Graph, root: string, seen: seq<string>, level: seq<nat>, i: nat, d: nat)
    requires Discovered(g, root, seen, level, i)
    requires i == |seen| || d <= level[i]
    ensures forall x :: x in Ball(g, root, d) ==> x in seen
    decreases d
  {
    if d > 0 {
      BallDiscovered(g, root, seen, level, i, d - 1);
      forall x | x in Ball(g, root, d) && x !in Ball(g, root, d - 1)
        ensures x in seen
      {
        var p :| p in Ball(g, root, d - 1) && Edge(g, p, x);
        var a :| 0 <= a < |seen| && seen[a] == p;
        assert a < i;
      }
    }
  }

  /** Following the members of the i-th netgroup extends the order by one level at most. */
  lemma DiscoverNext(g: Graph, root: string, seen: seq<string>, level: seq<nat>, i: nat, added: seq<string>, f: Frontier, f': Frontier)
    returns (level': seq<nat>)
    requires Discovered(g, root, seen, level, i) && i < |seen|
    requires f.visited == set x | x in seen
    requires Visited(g, seen[i], g[seen[i]].members, f, f', added)
    ensures Discovered(g, root, seen + added, level', i + 1)
  {
    BallDiscovered(g, root, seen, level, i, level[i]);
    var next := level[i] + 1;
    level' := level + seq(|added|, _ => next);
    forall k | 0 <= k < |added|
      ensures added[k] in g && added[k] !in seen && AtLevel(g, root, added[k], next)
    {
      assert added[k] in added && added[k] !in f.visited;
      AtNextLevel(g, root, seen[i], level[i], added[k]);
    }
    forall a, c | 0 <= a < i + 1 && Edge(g, seen[a], c)
      ensures c in seen + added
    {
      assert a == i ==> c in f'.visited;
    }
    OrderExtends(g, root, seen, level, i, added, level', next);
  }

  lemma OrderExtends(g: Graph, root: string, seen: seq<string>, level: seq<nat>, i: nat, added: seq<string>, level': seq<nat>, next: nat)
    requires Discovered(g, root, seen, level, i) && i < |seen| && next == level[i] + 1
    requires |level'| == |seen| + |added| && level <= level' && forall k :: |level| <= k < |level'| ==> level'[k] == next
    requires forall i, j :: 0 <= i < j < |added| ==> added[i] != added[j]
    requires forall k :: 0 <= k < |added| ==> added[k] in g && added[k] !in seen && AtLevel(g, root, added[k], next)
    requires forall a, c :: 0 <= a < i + 1 && Edge(g, seen[a], c) ==> c in seen + added
    ensures Discovered(g, root, seen + added, level', i + 1)
  {
    var seen' := seen + added;
    forall a, b | 0 <= a < b < |seen'|
      ensures seen'[a] != seen'[b] && level'[a] <= level'[b]
    {
      if a < |seen| <= b {
        assert seen[a] in seen;
        assert level[a] <= level[|seen| - 1];
      }
    }
  }

  // ---- the walk ----

  /** This netgroup is reached and names x, and no other that does is nearer. */
  ghost predicate Nearest(g: Graph, root: string, side: Side, x: string, o: string) {
    && o in g && Reaches(g, root, o) && Names(g[o], side, x)
    && forall p :: p in g && Reaches(g, root, p) && Names(g[p], side, x) ==> NoFarther(g, root, o, p)
  }

  /** Where a listed name comes from: "" exactly if the root names it itself, else the name of
      a nearest netgroup that does. */
  ghost predicate NearestVia(g: Graph, root: string, side: Side, x: string, via: string) {
    if root in g && Names(g[root], side, x) then via == "" else Nearest(g, root, side, x, via)
  }

  ghost predicate SideExpanded(g: Graph, root: string, side: Side, names: map<string, string>, open: set<string>) {
    && (forall x :: x in names <==> Expands(g, root, side, x))
    && (forall x :: x in names ==> NearestVia(g, root, side, x, names[x]))
    && (forall o :: o in open <==> ExpandsOpen(g, root, side, o))
  }

  /** `edges` holds every existing edge out of a reached netgroup, as often as it is
      written; all of them are re-entries but the one that discovered each netgroup. */
  ghost predicate Reentries(g: Graph, root: string, cycles: multiset<(string, string)>, reached: set<string>,
                            edges: multiset<(string, string)>) {
    && (forall x :: x in reached <==> Reaches(g, root, x))
    && (forall a, b :: edges[(a, b)] == if a in reached && a in g && b in g then multiset(g[a].members)[b] else 0)
    && cycles <= edges
    && |edges| == |cycles| + |reached| - 1
    && (forall a :: cycles[(a, root)] == edges[(a, root)])
    && (forall b :: b in reached && b != root ==> exists a :: DiscoveredFrom(g, root, cycles, edges, a, b))
  }

  /** One edge from a to b is the one that discovered b: every other edge to b is recorded, and
      comes from no nearer to the root. */
  ghost predicate DiscoveredFrom(g: Graph, root: string, cycles: multiset<(string, string)>, edges: multiset<(string, string)>, a: string, b: string) {
    && edges[(a, b)] == cycles[(a, b)] + 1
    && (forall c :: c != a ==> cycles[(c, b)] == edges[(c, b)])
    && (forall c :: edges[(c, b)] > 0 ==> NoFarther(g, root, a, c))
  }

  ghost function AllEdges(g: Graph, done: seq<string>): multiset<(string, string)>
    requires forall o :: o in done ==> o in g
  {
    if done == [] then multiset{}
    else
      var last := done[|done| - 1];
      AllEdges(g, done[..|done| - 1]) + OutEdges(g, last, g[last].members)
  }

  lemma {:induction false} AllEdgesCount(g: Graph, done: seq<string>, a: string, b: string)
    requires forall o :: o in done ==> o in g
    requires forall i, j :: 0 <= i < j < |done| ==> done[i] != done[j]
    ensures AllEdges(g, done)[(a, b)] == if a in done && b in g then multiset(g[a].members)[b] else 0
  {
    if done != [] {
      var last := done[|done| - 1];
      AllEdgesCount(g, done[..|done| - 1], a, b);
      OutEdgesCount(g, last, g[last].members, a, b);
      assert done == done[..|done| - 1] + [last];
    }
  }

  lemma {:induction false} DistinctCount(s: seq<string>)
    requires forall i, j :: 0 <= i < j < |s| ==> s[i] != s[j]
    ensures |set x | x in s| == |s|
  {
    if s != [] {
      var front := s[..|s| - 1];
      DistinctCount(front);
      assert s == front + [s[|s| - 1]];
      assert (set x | x in s) == (set x | x in front) + {s[|s| - 1]};
    }
  }

  /** When the walk ends, its order is exactly the reachable netgroups. */
  lemma OrderIsReach(g: Graph, root: string, seen: seq<string>, level: seq<nat>, x: string)
    requires Discovered(g, root, seen, level, |seen|)
    ensures x in seen <==> Reaches(g, root, x)
  {
    if Reaches(g, root, x) {
      var n: nat :| x in Ball(g, root, n);
      BallDiscovered(g, root, seen, level, |seen|, n);
    }
    if x in seen {
      var a :| 0 <= a < |seen| && seen[a] == x;
      assert x in Ball(g, root, level[a]);
    }
  }

  lemma FirstIsNearest(g: Graph, root: string, seen: seq<string>, level: seq<nat>, side: Side, x: string, j: nat)
    requires Discovered(g, root, seen, level, |seen|)
    requires FirstNaming(g, seen, j, side, x)
    ensures NearestVia(g, root, side, x, ViaOf(root, seen[j]))
  {
    var o := seen[j];
    OrderIsReach(g, root, seen, level, o);
    forall p | p in g && Reaches(g, root, p) && Names(g[p], side, x)
      ensures NoFarther(g, root, o, p)
    {
      OrderIsReach(g, root, seen, level, p);
      var k :| 0 <= k < |seen| && seen[k] == p;
      assert j <= k;
      assert level[j] <= level[k];
    }
    NearestIsRoot(g, root, side, x, o);
  }

  lemma NearestIsRoot(g: Graph, root: string, side: Side, x: string, o: string)
    requires Nearest(g, root, side, x, o)
    ensures root in g && Names(g[root], side, x) <==> o == root
  {
    assert root in Ball(g, root, 0);
    assert Reaches(g, root, root);
  }

  lemma SideFinished(g: Graph, root: string, seen: seq<string>, level: seq<nat>, side: Side, f: Found)
    requires Discovered(g, root, seen, level, |seen|)
    requires Attributed(g, root, seen, side, f)
    ensures SideExpanded(g, root, side, f.names, f.open)
  {
    forall x | x in f.names
      ensures Expands(g, root, side, x) && NearestVia(g, root, side, x, f.names[x])
    {
      var j: nat :| FirstNaming(g, seen, j, side, x) && f.names[x] == ViaOf(root, seen[j]);
      FirstIsNearest(g, root, seen, level, side, x, j);
      OrderIsReach(g, root, seen, level, seen[j]);
    }
    forall x | Expands(g, root, side, x)
      ensures x in f.names
    {
      var o :| o in g && Reaches(g, root, o) && Names(g[o], side, x);
      OrderIsReach(g, root, seen, level, o);
    }
    forall o
      ensures o in f.open <==> ExpandsOpen(g, root, side, o)
    {
      OrderIsReach(g, root, seen, level, o);
    }
  }

  lemma EdgesFinished(g: Graph, root: string, seen: seq<string>, level: seq<nat>, reached: set<string>, cycles: multiset<(string, string)>)
    requires Discovered(g, root, seen, level, |seen|)
    requires |reached| == |seen| && forall x :: x in reached <==> x in seen
    requires cycles <= AllEdges(g, seen) && |AllEdges(g, seen)| == |cycles| + |seen| - 1
    requires Traced(g, root, seen, reached, cycles)
    ensures Reentries(g, root, cycles, reached, AllEdges(g, seen))
  {
    EdgesAre(g, root, seen, level, reached);
    DiscoveriesFinished(g, root, seen, level, reached, cycles);
  }

  lemma EdgesAre(g: Graph, root: string, seen: seq<string>, level: seq<nat>, reached: set<string>)
    requires Discovered(g, root, seen, level, |seen|) && forall x :: x in reached <==> x in seen
    ensures forall x :: x in reached <==> Reaches(g, root, x)
    ensures forall a, b :: AllEdges(g, seen)[(a, b)] == if a in reached && a in g && b in g then multiset(g[a].members)[b] else 0
  {
    forall a, b
      ensures AllEdges(g, seen)[(a, b)] == if a in seen && b in g then multiset(g[a].members)[b] else 0
    {
      AllEdgesCount(g, seen, a, b);
    }
    forall x
      ensures x in seen <==> Reaches(g, root, x)
    {
      OrderIsReach(g, root, seen, level, x);
    }
  }

  /** The j-th netgroup done is the first to nest b. */
  ghost predicate FirstNesting(g: Graph, done: seq<string>, j: nat, b: string) {
    j < |done| && Edge(g, done[j], b) && forall k :: 0 <= k < j ==> !Edge(g, done[k], b)
  }

  /** Visited are the root and what some netgroup done nests; recorded are all edges out of
      those but the first to each of them. */
  ghost predicate Traced(g: Graph, root: string, done: seq<string>, visited: set<string>, cycles: multiset<(string, string)>) {
    && (forall o :: o in done ==> o in g)
    && (forall c :: c in visited <==> c == root || exists k :: 0 <= k < |done| && Edge(g, done[k], c))
    && (forall a, b :: a !in done ==> cycles[(a, b)] == 0)
    && (forall j, b :: 0 <= j < |done| ==>
          cycles[(done[j], b)] + Once(b != root && FirstNesting(g, done, j, b)) == OutEdges(g, done[j], g[done[j]].members)[(done[j], b)])
  }

  lemma TraceNext(g: Graph, root: string, done: seq<string>, name: string, f: Frontier, f': Frontier, added: seq<string>)
    requires name in g && name !in done && Traced(g, root, done, f.visited, f.cycles)
    requires Visited(g, name, g[name].members, f, f', added)
    ensures Traced(g, root, done + [name], f'.visited, f'.cycles)
  {
    var done' := done + [name];
    forall c
      ensures c in f'.visited <==> c == root || exists k :: 0 <= k < |done'| && Edge(g, done'[k], c)
    {
      assert Edge(g, done'[|done|], c) <==> c in g && c in g[name].members;
      if k :| 0 <= k < |done| && Edge(g, done[k], c) {
        assert Edge(g, done'[k], c);
      }
    }
    forall j, b | 0 <= j < |done'|
      ensures f'.cycles[(done'[j], b)] + Once(b != root && FirstNesting(g, done', j, b)) == OutEdges(g, done'[j], g[done'[j]].members)[(done'[j], b)]
    {
      if j < |done| {
        OutEdgesCount(g, name, g[name].members, done[j], b);
        SameFirst(g, done, name, j, b);
        assert done[j] in done;
      } else {
        FirstIsNew(g, root, done, name, f, b);
      }
    }
    forall a, b | a !in done'
      ensures f'.cycles[(a, b)] == 0
    {
      OutEdgesCount(g, name, g[name].members, a, b);
      assert a !in done && a != name;
    }
  }

  lemma SameFirst(g: Graph, done: seq<string>, name: string, j: nat, b: string)
    requires j < |done|
    ensures FirstNesting(g, done + [name], j, b) <==> FirstNesting(g, done, j, b)
  {
    assert forall k :: 0 <= k <= j ==> (done + [name])[k] == done[k];
  }

  lemma FirstIsNew(g: Graph, root: string, done: seq<string>, name: string, f: Frontier, b: string)
    requires name in g && Traced(g, root, done, f.visited, f.cycles)
    ensures b != root && FirstNesting(g, done + [name], |done|, b) <==> Edge(g, name, b) && b !in f.visited
  {
    assert forall k :: 0 <= k < |done| ==> (done + [name])[k] == done[k];
  }

  lemma DiscoveriesFinished(g: Graph, root: string, seen: seq<string>, level: seq<nat>, visited: set<string>, cycles: multiset<(string, string)>)
    requires Discovered(g, root, seen, level, |seen|) && Traced(g, root, seen, visited, cycles)
    requires forall x :: x in seen ==> x in visited
    ensures forall a :: cycles[(a, root)] == AllEdges(g, seen)[(a, root)]
    ensures forall b :: b in seen && b != root ==> exists a :: DiscoveredFrom(g, root, cycles, AllEdges(g, seen), a, b)
  {
    var edges := AllEdges(g, seen);
    forall a, b
      ensures a !in seen ==> edges[(a, b)] == cycles[(a, b)] == 0
      ensures forall j :: 0 <= j < |seen| && seen[j] == a ==> edges[(a, b)] == cycles[(a, b)] + Once(b != root && FirstNesting(g, seen, j, b))
    {
      AllEdgesCount(g, seen, a, b);
      if a in seen {
        OutEdgesCount(g, a, g[a].members, a, b);
      }
    }
    forall b | b in seen && b != root
      ensures exists a :: DiscoveredFrom(g, root, cycles, edges, a, b)
    {
      assert b in visited;
      var j := FirstNester(g, seen, b);
      DiscoveredFirst(g, root, seen, level, cycles, b, j);
    }
  }

  lemma FirstNester(g: Graph, done: seq<string>, b: string) returns (j: nat)
    requires exists k :: 0 <= k < |done| && Edge(g, done[k], b)
    ensures FirstNesting(g, done, j, b)
  {
    j := 0;
    while !Edge(g, done[j], b)
      invariant j < |done| && forall k :: 0 <= k < j ==> !Edge(g, done[k], b)
      decreases |done| - j
    {
      j := j + 1;
    }
  }

  lemma DiscoveredFirst(g: Graph, root: string, seen: seq<string>, level: seq<nat>, cycles: multiset<(string, string)>, b: string, j: nat)
    requires Discovered(g, root, seen, level, |seen|) && FirstNesting(g, seen, j, b) && b != root
    requires forall a, k :: 0 <= k < |seen| && seen[k] == a ==>
               AllEdges(g, seen)[(a, b)] == cycles[(a, b)] + Once(FirstNesting(g, seen, k, b))
    requires forall a :: a !in seen ==> AllEdges(g, seen)[(a, b)] == cycles[(a, b)] == 0
    ensures DiscoveredFrom(g, root, cycles, AllEdges(g, seen), seen[j], b)
  {
    var edges := AllEdges(g, seen);
    forall c | c != seen[j]
      ensures cycles[(c, b)] == edges[(c, b)]
    {
      if k :| 0 <= k < |seen| && seen[k] == c {
        assert !FirstNesting(g, seen, k, b);
      }
    }
    forall c | edges[(c, b)] > 0
      ensures NoFarther(g, root, seen[j], c)
    {
      AllEdgesCount(g, seen, c, b);
      var k :| 0 <= k < |seen| && seen[k] == c;
      assert Edge(g, seen[k], b) && j <= k;
      assert level[j] <= level[k];
    }
  }

  /** With no re-entry recorded, every edge leads to a later netgroup of the order. */
  ghost predicate Forward(g: Graph, seen: seq<string>, i: nat) {
    i <= |seen| && forall a, c :: 0 <= a < i && Edge(g, seen[a], c) ==> c in seen[a + 1..]
  }

  lemma ForwardHasNoCycle(g: Graph, root: string, seen: seq<string>, level: seq<nat>)
    requires Discovered(g, root, seen, level, |seen|) && Forward(g, seen, |seen|)
    ensures forall x :: Reaches(g, root, x) ==> !OnCycle(g, x)
  {
    var rank := map x | x in seen :: IndexOf(seen, x);
    forall x
      ensures x in seen <==> Reaches(g, root, x)
    {
      OrderIsReach(g, root, seen, level, x);
    }
    forall a, b | Reaches(g, root, a) && Edge(g, a, b)
      ensures a in rank && b in rank && rank[a] < rank[b]
    {
      ReachStep(g, root, a, b);
      var i := IndexOf(seen, a);
      assert b in seen[i + 1..];
      var j :| i + 1 <= j < |seen| && seen[j] == b;
    }
    forall x | Reaches(g, root, x)
      ensures !OnCycle(g, x)
    {
      RankedHasNoCycle(g, root, rank, x);
    }
  }

  ghost function IndexOf(s: seq<string>, x: string): (i: nat)
    requires x in s
    ensures i < |s| && s[i] == x
  {
    if s[0] == x then 0 else 1 + IndexOf(s[1..], x)
  }

  /** The discovery order is the netgroups done, in order, followed by the queue. */
  ghost predicate Ordered(g: Graph, cn: string, done: seq<string>, level: seq<nat>, f: Frontier) {
    Discovered(g, cn, done + f.queue, level, |done|) && f.visited == (set x | x in done + f.queue)
  }

  ghost predicate BothAttributed(g: Graph, cn: string, done: seq<string>, users: Found, hosts: Found) {
    Attributed(g, cn, done, UserSide, users) && Attributed(g, cn, done, HostSide, hosts)
  }

  /** Every existing edge out of a netgroup done discovered a netgroup or is recorded. */
  ghost predicate Accounted(g: Graph, done: seq<string>, f: Frontier) {
    && (forall o :: o in done ==> o in g)
    && f.cycles <= AllEdges(g, done)
    && |AllEdges(g, done)| == |f.cycles| + |done| + |f.queue| - 1
    && (f.cycles == multiset{} ==> Forward(g, done + f.queue, |done|))
  }

  ghost predicate DanglingOf(g: Graph, done: seq<string>, dangling: set<string>) {
    forall c :: c in dangling <==> c !in g && exists o :: o in done && o in g && c in g[o].members
  }

  lemma OrderNext(g: Graph, cn: string, done: seq<string>, level: seq<nat>, f: Frontier, f': Frontier, added: seq<string>)
    returns (level': seq<nat>)
    requires Ordered(g, cn, done, level, f) && f.queue != []
    requires Visited(g, f.queue[0], g[f.queue[0]].members, f.(queue := f.queue[1..]), f', added)
    ensures Ordered(g, cn, done + [f.queue[0]], level', f')
  {
    var seen := done + f.queue;
    level' := DiscoverNext(g, cn, seen, level, |done|, added, f.(queue := f.queue[1..]), f');
    assert done + [f.queue[0]] + f'.queue == seen + added;
  }

  lemma ForwardNext(g: Graph, seen: seq<string>, i: nat, added: seq<string>)
    requires i < |seen| && Forward(g, seen, i) && seen[i] in g
    requires forall c :: c in g[seen[i]].members && c in g ==> c in added
    ensures Forward(g, seen + added, i + 1)
  {
    var seen' := seen + added;
    forall a, c | 0 <= a < i + 1 && Edge(g, seen'[a], c)
      ensures c in seen'[a + 1..]
    {
      assert seen'[a + 1..] == seen[a + 1..] + added;
      assert seen'[a] == seen[a];
    }
  }

  lemma AccountNext(g: Graph, done: seq<string>, f: Frontier, f': Frontier, added: seq<string>)
    requires f.queue != [] && f.queue[0] in g && Accounted(g, done, f)
    requires f'.queue == f.queue[1..] + added
    requires Recorded(g, f.queue[0], g[f.queue[0]].members, f, f', added)
    ensures Accounted(g, done + [f.queue[0]], f')
  {
    var done' := done + [f.queue[0]];
    assert AllEdges(g, done') == AllEdges(g, done) + OutEdges(g, f.queue[0], g[f.queue[0]].members) by {
      assert done'[..|done'| - 1] == done;
    }
    assert f'.cycles == multiset{} ==> Forward(g, done' + f'.queue, |done'|) by {
      if f'.cycles == multiset{} {
        AccountForward(g, done, f, f', added);
      }
    }
  }

  lemma AccountForward(g: Graph, done: seq<string>, f: Frontier, f': Frontier, added: seq<string>)
    requires f.queue != [] && f.queue[0] in g && Forward(g, done + f.queue, |done|)
    requires f'.queue == f.queue[1..] + added
    requires forall c :: c in g[f.queue[0]].members && c in g ==> c in added
    ensures Forward(g, done + [f.queue[0]] + f'.queue, |done| + 1)
  {
    ForwardNext(g, done + f.queue, |done|, added);
    assert done + f.queue + added == done + [f.queue[0]] + f'.queue;
  }

  lemma DanglingNext(g: Graph, done: seq<string>, name: string, f: Frontier, f': Frontier, added: seq<string>)
    requires name in g && DanglingOf(g, done, f.dangling)
    requires Queued(g, g[name].members, f, f', added)
    ensures DanglingOf(g, done + [name], f'.dangling)
  {
    assert forall o :: o in done + [name] <==> o in done || o == name;
  }

  method Walk(g: Graph, cn: string) returns (e: Expansion, ghost reached: set<string>, ghost edges: multiset<(string, string)>)
    requires cn in g
    ensures e.root == cn
    ensures SideExpanded(g, cn, UserSide, e.users, e.openUser)
    ensures SideExpanded(g, cn, HostSide, e.hosts, e.openHost)
    ensures Reentries(g, cn, e.cycles, reached, edges)
    ensures forall c :: c in e.dangling <==> c !in g && exists o :: o in reached && o in g && c in g[o].members
    ensures e.cycles == multiset{} ==> forall x :: Reaches(g, cn, x) ==> !OnCycle(g, x)
  {
    var users, hosts := Found(map[], {}), Found(map[], {});
    var f := Frontier({cn}, [cn], multiset{}, {});
    ghost var done, level := [], [0];
    RootAtLevel(g, cn);
    while |f.queue| > 0
      invariant Ordered(g, cn, done, level, f)
      invariant BothAttributed(g, cn, done, users, hosts)
      invariant Accounted(g, done, f)
      invariant DanglingOf(g, done, f.dangling)
      invariant Traced(g, cn, done, f.visited, f.cycles)
      decreases |g.Keys - f.visited| + |f.queue|
    {
      ghost var users0, hosts0, f0 := users, hosts, f;
      ghost var added: seq<string>;
      var name := f.queue[0];
      assert (done + f.queue)[|done|] == name;
      var via := if name == cn then "" else name;
      users, hosts := CollectTriples(g[name], name, via, users, hosts);
      f, added := VisitMembers(g, name, f.(queue := f.queue[1..]));
      WalkNext(g, cn, done, level, users0, hosts0, f0, users, hosts, f, added);
      NotDoneYet(g, cn, done, level, f0);
      TraceNext(g, cn, done, name, f0.(queue := f0.queue[1..]), f, added);
      level := OrderNext(g, cn, done, level, f0, f, added);
      done := done + [name];
    }
    assert done + f.queue == done;
    WalkFinished(g, cn, done, level, users, hosts, f);
    reached, edges := (set x | x in done), AllEdges(g, done);
    e := Expansion(cn, users.names, hosts.names, users.open, hosts.open, f.cycles, f.dangling);
  }

  lemma WalkNext(g: Graph, cn: string, done: seq<string>, level: seq<nat>, users: Found, hosts: Found, f: Frontier,
                 users': Found, hosts': Found, f': Frontier, added: seq<string>)
    requires f.queue != [] && f.queue[0] in g
    requires Ordered(g, cn, done, level, f)
    requires BothAttributed(g, cn, done, users, hosts) && Accounted(g, done, f) && DanglingOf(g, done, f.dangling)
    requires Collected(g[f.queue[0]], UserSide, f.queue[0], ViaOf(cn, f.queue[0]), users, users')
    requires Collected(g[f.queue[0]], HostSide, f.queue[0], ViaOf(cn, f.queue[0]), hosts, hosts')
    requires Visited(g, f.queue[0], g[f.queue[0]].members, f.(queue := f.queue[1..]), f', added)
    ensures BothAttributed(g, cn, done + [f.queue[0]], users', hosts')
    ensures Accounted(g, done + [f.queue[0]], f')
    ensures DanglingOf(g, done + [f.queue[0]], f'.dangling)
    ensures |g.Keys - f'.visited| + |f'.queue| < |g.Keys - f.visited| + |f.queue|
  {
    var name := f.queue[0];
    NotDoneYet(g, cn, done, level, f);
    assert BothAttributed(g, cn, done + [name], users', hosts') by {
      AttributeNext(g, cn, done, name, UserSide, users, users');
      AttributeNext(g, cn, done, name, HostSide, hosts, hosts');
    }
    assert Recorded(g, name, g[name].members, f, f', added);
    AccountNext(g, done, f, f', added);
    DanglingNext(g, done, name, f.(queue := f.queue[1..]), f', added);
    WalkProgress(g, f, f', added);
  }

  lemma NotDoneYet(g: Graph, cn: string, done: seq<string>, level: seq<nat>, f: Frontier)
    requires f.queue != [] && Ordered(g, cn, done, level, f)
    ensures f.queue[0] !in done
  {
    var seen := done + f.queue;
    assert seen[|done|] == f.queue[0];
    assert forall k :: 0 <= k < |done| ==> seen[k] == done[k];
  }

  lemma WalkFinished(g: Graph, cn: string, done: seq<string>, level: seq<nat>, users: Found, hosts: Found, f: Frontier)
    requires f.queue == [] && done + f.queue == done
    requires Ordered(g, cn, done, level, f) && BothAttributed(g, cn, done, users, hosts) && Accounted(g, done, f)
    requires Traced(g, cn, done, f.visited, f.cycles)
    ensures SideExpanded(g, cn, UserSide, users.names, users.open)
    ensures SideExpanded(g, cn, HostSide, hosts.names, hosts.open)
    ensures Reentries(g, cn, f.cycles, (set x | x in done), AllEdges(g, done))
    ensures f.cycles == multiset{} ==> forall x :: Reaches(g, cn, x) ==> !OnCycle(g, x)
  {
    SideFinished(g, cn, done, level, UserSide, users);
    SideFinished(g, cn, done, level, HostSide, hosts);
    DistinctCount(done);
    EdgesFinished(g, cn, done, level, (set x | x in done), f.cycles);
    if f.cycles == multiset{} {
      ForwardHasNoCycle(g, cn, done, level);
    }
  }

  /** Every queued netgroup was unvisited, so the walk runs out of netgroups. */
  lemma WalkProgress(g: Graph, f: Frontier, f': Frontier, added: seq<string>)
    requires |f.queue| > 0 && f'.queue == f.queue[1..] + added
    requires f'.visited == f.visited + (set c | c in added)
    requires forall i, j :: 0 <= i < j < |added| ==> added[i] != added[j]
    requires forall c :: c in added ==> c in g && c !in f.visited
    ensures |g.Keys - f'.visited| + |f'.queue| < |g.Keys - f.visited| + |f.queue|
  {
    DistinctCount(added);
    var new_ := set c | c in added;
    assert g.Keys - f.visited == (g.Keys - f'.visited) + new_;
  }
}
