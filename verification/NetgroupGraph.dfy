/** What a netgroup contributes once nesting is followed, stated on the graph
    itself, and why the upward and the downward walk give the same answer. */
module NetgroupGraph {
  import opened NetgroupTriple

  /** A nisNetgroup entry: parsed triples, the raw values nothing could parse, and
      the names of the netgroups it absorbs. */
  datatype Netgroup = Netgroup(cn: string, triples: seq<Triple>, malformed: seq<string>, members: seq<string>)

  /** Netgroups by name. A member with no entry of its own is a dangling edge. */
  type Graph = map<string, Netgroup>

  /** The slot value that matches nothing, as opposed to "", which matches everything. */
  const NO_MATCH := "-"

  datatype Side = UserSide | HostSide

  function Slot(t: Triple, side: Side): string {
    match side
    case UserSide => t.user
    case HostSide => t.host
  }

  /** A slot value that is a name rather than "any" or "none". */
  predicate IsName(value: string) {
    value != "" && value != NO_MATCH
  }

  ghost predicate Names(n: Netgroup, side: Side, value: string) {
    IsName(value) && exists t :: t in n.triples && Slot(t, side) == value
  }

  ghost predicate Opens(n: Netgroup, side: Side) {
    exists t :: t in n.triples && Slot(t, side) == ""
  }

  ghost predicate NamesUser(n: Netgroup, uid: string) {
    exists t :: t in n.triples && t.NamesUser(uid)
  }

  predicate Edge(g: Graph, a: string, b: string) {
    a in g && b in g && b in g[a].members
  }

  /** The netgroups at most n nesting steps below root. */
  ghost function Ball(g: Graph, root: string, n: nat): set<string>
  {
    if n == 0 then {root}
    else
      var inner := Ball(g, root, n - 1);
      inner + set b | b in g && exists a :: a in inner && Edge(g, a, b)
  }

  ghost predicate Reaches(g: Graph, root: string, x: string) {
    exists n: nat :: x in Ball(g, root, n)
  }

  /** Nearest: whatever distance reaches p reaches o as well. */
  ghost predicate NoFarther(g: Graph, root: string, o: string, p: string) {
    forall n: nat :: p in Ball(g, root, n) ==> o in Ball(g, root, n)
  }

  /** The netgroups at most n nesting steps above some netgroup of s. */
  ghost function Up(g: Graph, s: set<string>, n: nat): set<string> {
    if n == 0 then s
    else
      var inner := Up(g, s, n - 1);
      inner + set a | a in g && exists b :: b in inner && Edge(g, a, b)
  }

  ghost predicate Above(g: Graph, s: set<string>, x: string) {
    exists n: nat :: x in Up(g, s, n)
  }

  /** The names the expansion of root lists on one side. */
  ghost predicate Expands(g: Graph, root: string, side: Side, value: string) {
    exists o :: o in g && Reaches(g, root, o) && Names(g[o], side, value)
  }

  /** Some netgroup reached from root leaves this slot open: it matches anyone. */
  ghost predicate ExpandsOpen(g: Graph, root: string, side: Side, o: string) {
    o in g && Reaches(g, root, o) && Opens(g[o], side)
  }

  ghost function Direct(g: Graph, uid: string): set<string> {
    set o | o in g && NamesUser(g[o], uid)
  }

  /** What the upward walk answers: netgroup to "its own triples name the user". */
  ghost function Memberships(g: Graph, uid: string): map<string, bool> {
    map x | x in g && Above(g, Direct(g, uid), x) :: x in Direct(g, uid)
  }

  // ---- distances ----

  lemma {:induction false} BallGrows(g: Graph, root: string, m: nat, n: nat)
    requires m <= n
    ensures Ball(g, root, m) <= Ball(g, root, n)
  {
    if m < n {
      BallGrows(g, root, m, n - 1);
    }
  }

  lemma {:induction false} BallInGraph(g: Graph, root: string, n: nat)
    requires root in g
    ensures Ball(g, root, n) <= g.Keys
  {
    if n > 0 {
      BallInGraph(g, root, n - 1);
    }
  }

  lemma ReachStep(g: Graph, root: string, a: string, b: string)
    requires Reaches(g, root, a) && Edge(g, a, b)
    ensures Reaches(g, root, b)
  {
    var n: nat :| a in Ball(g, root, n);
    assert b in Ball(g, root, n + 1);
  }

  /** A step in front of a path. */
  lemma {:induction false} BallPrepend(g: Graph, x: string, c: string, n: nat)
    requires Edge(g, x, c)
    ensures Ball(g, c, n) <= Ball(g, x, n + 1)
  {
    if n == 0 {
      assert c in Ball(g, x, 1) by {
        assert x in Ball(g, x, 0);
      }
    } else {
      BallPrepend(g, x, c, n - 1);
    }
  }

  lemma {:induction false} ReachTransitive(g: Graph, a: string, b: string, n: nat, x: string)
    requires Reaches(g, a, b) && x in Ball(g, b, n)
    ensures Reaches(g, a, x)
  {
    if n > 0 && x !in Ball(g, b, n - 1) {
      var p :| p in Ball(g, b, n - 1) && Edge(g, p, x);
      ReachTransitive(g, a, b, n - 1, p);
      ReachStep(g, a, p, x);
    } else if n > 0 {
      ReachTransitive(g, a, b, n - 1, x);
    }
  }

  ghost predicate NestingStaysIn(g: Graph, s: set<string>) {
    forall a, b :: a in s && a in g && b in g && b in g[a].members ==> b in s
  }

  /** The reached netgroups are the least set that holds the root and, with each netgroup, the
      existing ones it names as members. */
  lemma ReachIsLeast(g: Graph, root: string)
    ensures Reaches(g, root, root)
    ensures forall a, b :: Reaches(g, root, a) && a in g && b in g && b in g[a].members ==> Reaches(g, root, b)
    ensures forall s, x :: root in s && NestingStaysIn(g, s) && Reaches(g, root, x) ==> x in s
  {
    assert root in Ball(g, root, 0);
    forall a, b | Reaches(g, root, a) && a in g && b in g && b in g[a].members
      ensures Reaches(g, root, b)
    {
      ReachStep(g, root, a, b);
    }
    forall s, x | root in s && NestingStaysIn(g, s) && Reaches(g, root, x)
      ensures x in s
    {
      var n: nat :| x in Ball(g, root, n);
      BallStaysIn(g, root, s, n);
    }
  }

  lemma {:induction false} BallStaysIn(g: Graph, root: string, s: set<string>, n: nat)
    requires root in s && NestingStaysIn(g, s)
    ensures Ball(g, root, n) <= s
  {
    if n > 0 {
      BallStaysIn(g, root, s, n - 1);
    }
  }

  // ---- duality ----

  lemma {:induction false} UpImpliesReach(g: Graph, s: set<string>, n: nat, x: string)
    requires x in Up(g, s, n)
    ensures exists o :: o in s && Reaches(g, x, o)
  {
    if n == 0 {
      assert x in Ball(g, x, 0);
    } else if x in Up(g, s, n - 1) {
      UpImpliesReach(g, s, n - 1, x);
    } else {
      var c :| c in Up(g, s, n - 1) && Edge(g, x, c);
      UpImpliesReach(g, s, n - 1, c);
      var o :| o in s && Reaches(g, c, o);
      var m: nat :| o in Ball(g, c, m);
      BallPrepend(g, x, c, m);
    }
  }

  lemma UpStep(g: Graph, s: set<string>, m: nat, a: string, o: string)
    requires o in Up(g, s, m) && Edge(g, a, o)
    ensures a in Up(g, s, m + 1)
  {
  }

  lemma {:induction false} ReachImpliesAbove(g: Graph, s: set<string>, x: string, o: string, n: nat)
    requires o in Ball(g, x, n) && Above(g, s, o)
    ensures Above(g, s, x)
    decreases n
  {
    if n > 0 {
      if o in Ball(g, x, n - 1) {
        ReachImpliesAbove(g, s, x, o, n - 1);
      } else {
        var a :| a in Ball(g, x, n - 1) && Edge(g, a, o);
        var m: nat :| o in Up(g, s, m);
        UpStep(g, s, m, a, o);
        ReachImpliesAbove(g, s, x, a, n - 1);
      }
    }
  }

  /** Walking the nesting edges upwards from s finds exactly what walks down into s. */
  lemma AboveIsReach(g: Graph, s: set<string>, x: string)
    ensures Above(g, s, x) <==> exists o :: o in s && Reaches(g, x, o)
  {
    if Above(g, s, x) {
      var n: nat :| x in Up(g, s, n);
      UpImpliesReach(g, s, n, x);
    }
    if o :| o in s && Reaches(g, x, o) {
      var n: nat :| o in Ball(g, x, n);
      assert o in Up(g, s, 0);
      ReachImpliesAbove(g, s, x, o, n);
    }
  }

  lemma NamesUserIsNames(n: Netgroup, uid: string)
    requires uid != NO_MATCH
    ensures NamesUser(n, uid) <==> Names(n, UserSide, uid)
  {
    forall t | t in n.triples
      ensures t.NamesUser(uid) <==> (IsName(uid) && Slot(t, UserSide) == uid)
    {
    }
    if NamesUser(n, uid) {
      var t :| t in n.triples && t.NamesUser(uid);
      assert Slot(t, UserSide) == uid;
    }
    if Names(n, UserSide, uid) {
      var t :| t in n.triples && Slot(t, UserSide) == uid;
      assert t.NamesUser(uid);
    }
  }

  /** The duality: expanding every netgroup and looking for the user would find the
      same netgroups, cycles and dangling members included. */
  lemma Duality(g: Graph, uid: string, x: string)
    requires uid != NO_MATCH && x in g
    ensures x in Memberships(g, uid) <==> Expands(g, x, UserSide, uid)
  {
    AboveIsReach(g, Direct(g, uid), x);
    forall o | o in g
      ensures o in Direct(g, uid) <==> Names(g[o], UserSide, uid)
    {
      NamesUserIsNames(g[o], uid);
    }
  }

  /** What the upward walk answers, in the triples' own terms: the netgroups from which one is
      reached that has the uid as the user of a triple, marked where their own triples do. */
  lemma MembershipsAre(g: Graph, uid: string, x: string)
    ensures x in Memberships(g, uid) <==>
              x in g && uid != "" && exists o, t :: o in g && Reaches(g, x, o) && t in g[o].triples && t.user == uid
    ensures x in Memberships(g, uid) ==> (Memberships(g, uid)[x] <==> exists t :: t in g[x].triples && t.user == uid)
  {
    AboveIsReach(g, Direct(g, uid), x);
    forall o | o in g
      ensures o in Direct(g, uid) <==> uid != "" && exists t :: t in g[o].triples && t.user == uid
    {
      if t :| uid != "" && t in g[o].triples && t.user == uid {
        assert t.NamesUser(uid);
      }
    }
  }

  /** What a netgroup lists and leaves open: on the user side by its triples' users, on the host
      side by their hosts. */
  lemma SidesAre(n: Netgroup, v: string)
    ensures Names(n, UserSide, v) <==> v != "" && v != "-" && exists t :: t in n.triples && t.user == v
    ensures Names(n, HostSide, v) <==> v != "" && v != "-" && exists t :: t in n.triples && t.host == v
    ensures Opens(n, UserSide) <==> exists t :: t in n.triples && t.user == ""
    ensures Opens(n, HostSide) <==> exists t :: t in n.triples && t.host == ""
  {
    forall t | t in n.triples
      ensures Slot(t, UserSide) == t.user && Slot(t, HostSide) == t.host
    {
    }
  }

  /** Over a whole graph the two walks agree on a uid exactly when it is not the
      "matches nothing" marker, or when no triple carries that marker as its user. */
  lemma DualityExactly(g: Graph, uid: string)
    ensures (forall x :: x in g ==> (x in Memberships(g, uid) <==> Expands(g, x, UserSide, uid)))
            <==> (uid == NO_MATCH ==> Direct(g, NO_MATCH) == {})
  {
    if uid != NO_MATCH {
      forall x | x in g
        ensures x in Memberships(g, uid) <==> Expands(g, x, UserSide, uid)
      {
        Duality(g, uid, x);
      }
    } else if Direct(g, uid) == {} {
      forall x | x in g
        ensures x !in Memberships(g, uid)
      {
        AboveIsReach(g, {}, x);
      }
    } else {
      var x :| x in Direct(g, uid);
      assert x in Up(g, Direct(g, uid), 0);
      assert x in Memberships(g, uid);
    }
  }

  /** A netgroup that can reach itself. */
  ghost predicate OnCycle(g: Graph, a: string) {
    exists c :: Edge(g, a, c) && Reaches(g, c, a)
  }

  /** Positions that strictly increase along every edge below root. */
  ghost predicate Ranked(g: Graph, root: string, rank: map<string, nat>) {
    && (forall x :: Reaches(g, root, x) ==> x in rank)
    && (forall a, b :: Reaches(g, root, a) && Edge(g, a, b) ==> b in rank && a in rank && rank[a] < rank[b])
  }

  lemma {:induction false} RankGrows(g: Graph, root: string, rank: map<string, nat>, c: string, n: nat, x: string)
    requires Ranked(g, root, rank) && Reaches(g, root, c) && x in Ball(g, c, n)
    ensures Reaches(g, root, x) && rank[c] <= rank[x]
  {
    ReachTransitive(g, root, c, n, x);
    if n > 0 && x !in Ball(g, c, n - 1) {
      var p :| p in Ball(g, c, n - 1) && Edge(g, p, x);
      RankGrows(g, root, rank, c, n - 1, p);
    } else if n > 0 {
      RankGrows(g, root, rank, c, n - 1, x);
    }
  }

  lemma RankedHasNoCycle(g: Graph, root: string, rank: map<string, nat>, a: string)
    requires Ranked(g, root, rank) && Reaches(g, root, a)
    ensures !OnCycle(g, a)
  {
    if OnCycle(g, a) {
      var c :| Edge(g, a, c) && Reaches(g, c, a);
      var n: nat :| a in Ball(g, c, n);
      ReachStep(g, root, a, c);
      RankGrows(g, root, rank, c, n, a);
    }
  }

  // ---- same edges, same reach ----

  ghost predicate SameEdges(g: Graph, h: Graph) {
    g.Keys == h.Keys && forall x :: x in g ==> g[x].members == h[x].members
  }

  lemma SameEdge(g: Graph, h: Graph, a: string, b: string)
    requires SameEdges(g, h) && Edge(g, a, b)
    ensures Edge(h, a, b)
  {
  }

  lemma {:induction false} UpOfSameEdges(g: Graph, h: Graph, s: set<string>, n: nat, x: string)
    requires SameEdges(g, h) && x in Up(g, s, n)
    ensures x in Up(h, s, n)
  {
    if n > 0 {
      if x in Up(g, s, n - 1) {
        UpOfSameEdges(g, h, s, n - 1, x);
      } else {
        var b :| b in Up(g, s, n - 1) && Edge(g, x, b);
        UpOfSameEdges(g, h, s, n - 1, b);
        SameEdge(g, h, x, b);
      }
    }
  }

  lemma {:induction false} BallOfSameEdges(g: Graph, h: Graph, root: string, n: nat, x: string)
    requires SameEdges(g, h) && x in Ball(g, root, n)
    ensures x in Ball(h, root, n)
  {
    if n > 0 {
      if x in Ball(g, root, n - 1) {
        BallOfSameEdges(g, h, root, n - 1, x);
      } else {
        var a :| a in Ball(g, root, n - 1) && Edge(g, a, x);
        BallOfSameEdges(g, h, root, n - 1, a);
        SameEdge(g, h, a, x);
      }
    }
  }

  lemma ReachOfSameEdges(g: Graph, h: Graph, root: string, x: string)
    requires SameEdges(g, h)
    ensures Reaches(g, root, x) <==> Reaches(h, root, x)
  {
    if Reaches(g, root, x) {
      var n: nat :| x in Ball(g, root, n);
      BallOfSameEdges(g, h, root, n, x);
    }
    if Reaches(h, root, x) {
      var n: nat :| x in Ball(h, root, n);
      BallOfSameEdges(h, g, root, n, x);
    }
  }
}
