/** Where a uid is referenced outside its own entry - groups, sudo roles, netgroup
    triples - and what those references mean: the groups, netgroups and sudo roles
    that reach a user. */
module UserReferences {
  import opened Wrappers
  import opened NetgroupTriple
  import opened NetgroupGraph

  /** An entry's identity, which renaming the entry does not change. */
  type Id = string

  datatype Group = Group(cn: string, memberUids: seq<string>)

  /** A netgroup as stored: its raw triple values and the names it absorbs. */
  datatype StoredNetgroup = StoredNetgroup(values: seq<string>, members: seq<string>)

  datatype Directory = Directory(
    groups: map<Id, Group>,
    roles: map<Id, seq<string>>,
    netgroups: map<string, StoredNetgroup>,
    netgroupSchema: bool)

  // ---- reading and saving netgroups ----

  /** One raw value is either one triple or one unreadable value. */
  function Readable(value: string): seq<Triple> {
    match Parse(value) case Some(t) => [t] case None => []
  }

  function Unreadable(value: string): seq<string> {
    if Parse(value).None? then [value] else []
  }

  /** What each value gives, one after another. */
  function Gather<T>(f: string -> seq<T>, values: seq<string>): seq<T> {
    if values == [] then [] else f(values[0]) + Gather(f, values[1..])
  }

  function ParsedTriples(values: seq<string>): seq<Triple> {
    Gather(Readable, values)
  }

  function MalformedValues(values: seq<string>): seq<string> {
    Gather(Unreadable, values)
  }

  function FormatTriples(triples: seq<Triple>): seq<string> {
    seq(|triples|, i requires 0 <= i < |triples| => triples[i].Format())
  }

  function NonEmpty(value: string): seq<string> {
    if value != "" then [value] else []
  }

  /** The values a replace sends: empty ones are dropped. */
  function Clearing(values: seq<string>): seq<string> {
    Gather(NonEmpty, values)
  }

  /** What a save writes back: the triples in canonical form, then what could not be read. */
  function SavedValues(triples: seq<Triple>, malformed: seq<string>): seq<string> {
    Clearing(FormatTriples(triples) + malformed)
  }

  function ReadNetgroup(cn: string, n: StoredNetgroup): Netgroup {
    Netgroup(cn, ParsedTriples(n.values), MalformedValues(n.values), n.members)
  }

  function GraphOf(d: Directory): (g: Graph)
    ensures g.Keys == d.netgroups.Keys
  {
    map cn | cn in d.netgroups :: ReadNetgroup(cn, d.netgroups[cn])
  }

  /** entryToNetgroup: one pass over the values, sorting them into read and unreadable. */
  method EntryToNetgroup(cn: string, n: StoredNetgroup) returns (netgroup: Netgroup)
    ensures netgroup == ReadNetgroup(cn, n)
  {
    var triples: seq<Triple>, malformed: seq<string> := [], [];
    for i := 0 to |n.values|
      invariant triples == ParsedTriples(n.values[..i]) && malformed == MalformedValues(n.values[..i])
    {
      ParsedOne(n.values, i);
      match Parse(n.values[i])
      case None =>
        malformed := malformed + [n.values[i]];
      case Some(t) =>
        triples := triples + [t];
    }
    assert n.values[..|n.values|] == n.values;
    netgroup := Netgroup(cn, triples, malformed, n.members);
  }

  lemma ParsedOne(values: seq<string>, i: nat)
    requires i < |values|
    ensures ParsedTriples(values[..i + 1]) == ParsedTriples(values[..i]) + Readable(values[i])
    ensures MalformedValues(values[..i + 1]) == MalformedValues(values[..i]) + Unreadable(values[i])
  {
    assert values[..i + 1] == values[..i] + [values[i]];
    GatherOneMore(Readable, values[..i], values[i]);
    GatherOneMore(Unreadable, values[..i], values[i]);
  }

  lemma GatherOneMore<T>(f: string -> seq<T>, values: seq<string>, last: string)
    ensures Gather(f, values + [last]) == Gather(f, values) + f(last)
  {
    GatherAppend(f, values, [last]);
    assert [last][1..] == [] && f(last) + [] == f(last);
  }

  lemma {:induction false} GatherAppend<T>(f: string -> seq<T>, a: seq<string>, b: seq<string>)
    ensures Gather(f, a + b) == Gather(f, a) + Gather(f, b)
  {
    if a == [] {
      assert a + b == b;
    } else {
      GatherAppend(f, a[1..], b);
      assert (a + b)[1..] == a[1..] + b && (a + b)[0] == a[0];
      Associative(f(a[0]), Gather(f, a[1..]), Gather(f, b));
    }
  }

  lemma Associative<T>(a: seq<T>, b: seq<T>, c: seq<T>)
    ensures a + (b + c) == (a + b) + c
  {
  }

  /** Where every value gives one thing, those things are what is gathered. */
  lemma {:induction false} GatherEach<T>(f: string -> seq<T>, values: seq<string>, each: seq<T>)
    requires |values| == |each| && forall i :: 0 <= i < |values| ==> f(values[i]) == [each[i]]
    ensures Gather(f, values) == each
  {
    if values != [] {
      assert f(values[0]) == [each[0]];
      GatherEach(f, values[1..], each[1..]);
      assert each == [each[0]] + each[1..];
    }
  }

  lemma {:induction false} GatherNothing<T>(f: string -> seq<T>, values: seq<string>)
    requires forall i :: 0 <= i < |values| ==> f(values[i]) == []
    ensures Gather(f, values) == []
  {
    if values != [] {
      assert f(values[0]) == [];
      GatherNothing(f, values[1..]);
    }
  }

  lemma FormattedOne(t: Triple)
    requires StorableTriple(t)
    ensures Readable(t.Format()) == [t] && Unreadable(t.Format()) == [] && NonEmpty(t.Format()) == [t.Format()]
  {
    RoundTrip(t);
  }

  lemma FormattedReadsBack(triples: seq<Triple>)
    requires forall t :: t in triples ==> StorableTriple(t)
    ensures ParsedTriples(FormatTriples(triples)) == triples
    ensures MalformedValues(FormatTriples(triples)) == []
    ensures Clearing(FormatTriples(triples)) == FormatTriples(triples)
  {
    var values := FormatTriples(triples);
    forall i | 0 <= i < |values|
      ensures Readable(values[i]) == [triples[i]] && Unreadable(values[i]) == [] && NonEmpty(values[i]) == [values[i]]
    {
      assert triples[i] in triples;
      FormattedOne(triples[i]);
    }
    GatherEach(Readable, values, triples);
    GatherNothing(Unreadable, values);
    GatherEach(NonEmpty, values, values);
  }

  lemma {:induction false} MalformedStays(values: seq<string>)
    ensures forall v :: v in MalformedValues(values) ==> v in values && Parse(v).None?
  {
    if values != [] {
      MalformedStays(values[1..]);
    }
  }

  lemma AllMalformed(values: seq<string>)
    requires forall v :: v in values ==> Parse(v).None?
    ensures ParsedTriples(values) == [] && MalformedValues(values) == values
  {
    forall i | 0 <= i < |values|
      ensures Unreadable(values[i]) == [values[i]] && Readable(values[i]) == []
    {
      assert values[i] in values;
    }
    GatherEach(Unreadable, values, values);
    GatherNothing(Readable, values);
  }

  lemma {:induction false} ClearingKeeps(values: seq<string>)
    ensures |Clearing(values)| <= |values|
    ensures Clearing(values) == values <==> "" !in values
  {
    if values != [] {
      ClearingKeeps(values[1..]);
      if values[0] != "" {
        assert Clearing(values)[1..] == Clearing(values[1..]);
        assert values == [values[0]] + values[1..];
      }
    }
  }

  lemma {:induction false} ParsedFrom(values: seq<string>, t: Triple)
    requires t in ParsedTriples(values)
    ensures StorableTriple(t)
  {
    match Parse(values[0])
    case None =>
      ParsedFrom(values[1..], t);
    case Some(first) =>
      ParsedIsStorable(values[0]);
      if t != first {
        ParsedFrom(values[1..], t);
      }
  }

  /** A save loses nothing: the triples read back as written, and every value that
      could not be parsed is still there verbatim. An empty value is never written. */
  lemma SaveReadsBack(triples: seq<Triple>, values: seq<string>)
    requires (forall t :: t in triples ==> StorableTriple(t)) && "" !in values
    ensures ParsedTriples(SavedValues(triples, MalformedValues(values))) == triples
    ensures MalformedValues(SavedValues(triples, MalformedValues(values))) == MalformedValues(values)
  {
    var malformed := MalformedValues(values);
    FormattedReadsBack(triples);
    MalformedStays(values);
    AllMalformed(malformed);
    GatherAppend(NonEmpty, FormatTriples(triples), malformed);
    ClearingKeeps(malformed);
    GatherAppend(Readable, FormatTriples(triples), malformed);
    GatherAppend(Unreadable, FormatTriples(triples), malformed);
    assert triples + [] == triples;
  }

  /** The triples of a stored netgroup are those its values read as. */
  lemma {:induction false} TriplesRead(values: seq<string>, t: Triple)
    ensures t in ParsedTriples(values) <==> exists v :: v in values && Parse(v) == Some(t)
  {
    if values != [] {
      TriplesRead(values[1..], t);
      assert values == [values[0]] + values[1..];
      if v :| v in values && Parse(v) == Some(t) {
        assert v == values[0] || v in values[1..];
      }
    }
  }

  /** And the values that read as none are kept, each as often as it is stored. */
  lemma {:induction false} UnreadableKept(values: seq<string>, v: string)
    ensures multiset(MalformedValues(values))[v] == if Parse(v).None? then multiset(values)[v] else 0
    ensures |ParsedTriples(values)| + |MalformedValues(values)| == |values|
  {
    if values != [] {
      UnreadableKept(values[1..], v);
      assert values == [values[0]] + values[1..];
    }
  }

  /** What an expansion lists, in the stored values' own terms. */
  lemma StoredNames(d: Directory, root: string, x: string)
    ensures Expands(GraphOf(d), root, UserSide, x) <==>
              && x != "" && x != "-"
              && exists cn, v :: && cn in d.netgroups && Reaches(GraphOf(d), root, cn) && v in d.netgroups[cn].values
                                 && Parse(v).Some? && Parse(v).value.user == x
    ensures Expands(GraphOf(d), root, HostSide, x) <==>
              && x != "" && x != "-"
              && exists cn, v :: && cn in d.netgroups && Reaches(GraphOf(d), root, cn) && v in d.netgroups[cn].values
                                 && Parse(v).Some? && Parse(v).value.host == x
  {
    forall cn | cn in d.netgroups
      ensures Names(GraphOf(d)[cn], UserSide, x) <==>
                x != "" && x != "-" && exists v :: v in d.netgroups[cn].values && Parse(v).Some? && Parse(v).value.user == x
      ensures Names(GraphOf(d)[cn], HostSide, x) <==>
                x != "" && x != "-" && exists v :: v in d.netgroups[cn].values && Parse(v).Some? && Parse(v).value.host == x
    {
      StoredSides(cn, d.netgroups[cn], x);
    }
  }

  lemma StoredSides(cn: string, n: StoredNetgroup, x: string)
    ensures Names(ReadNetgroup(cn, n), UserSide, x) <==>
              x != "" && x != "-" && exists v :: v in n.values && Parse(v).Some? && Parse(v).value.user == x
    ensures Names(ReadNetgroup(cn, n), HostSide, x) <==>
              x != "" && x != "-" && exists v :: v in n.values && Parse(v).Some? && Parse(v).value.host == x
    ensures Opens(ReadNetgroup(cn, n), UserSide) <==> exists v :: v in n.values && Parse(v).Some? && Parse(v).value.user == ""
    ensures Opens(ReadNetgroup(cn, n), HostSide) <==> exists v :: v in n.values && Parse(v).Some? && Parse(v).value.host == ""
  {
    forall t ensures t in ParsedTriples(n.values) <==> exists v :: v in n.values && Parse(v) == Some(t) {
      TriplesRead(n.values, t);
    }
    SidesAre(ReadNetgroup(cn, n), x);
    forall v | v in n.values && Parse(v).Some?
      ensures Parse(v).value in ParsedTriples(n.values)
    {
    }
  }

  // ---- what reaches a user ----

  ghost function GroupsOf(d: Directory, uid: string): set<Id> {
    set id | id in d.groups && uid in d.groups[id].memberUids
  }

  ghost function NetgroupsOf(d: Directory, uid: string): map<string, bool> {
    Memberships(GraphOf(d), uid)
  }

  const EVERYONE := "ALL"

  /** Whether this sudoUser value covers the user, and so is why a role applies. */
  ghost predicate Covers(d: Directory, uid: string, value: string) {
    || value == uid
    || value == EVERYONE
    || (exists id :: id in GroupsOf(d, uid) && value == "%" + d.groups[id].cn)
    || (d.netgroupSchema && exists n :: n in NetgroupsOf(d, uid) && value == "+" + n)
  }

  /** Which look-ups a sudo query got an answer to; the others it does without. */
  datatype Routes = Routes(groups: bool, netgroups: bool)

  const EVERY_ROUTE := Routes(true, true)

  ghost predicate CoversBy(d: Directory, uid: string, value: string, r: Routes) {
    || value == uid
    || value == EVERYONE
    || (r.groups && exists id :: id in GroupsOf(d, uid) && value == "%" + d.groups[id].cn)
    || (r.netgroups && d.netgroupSchema && exists n :: n in NetgroupsOf(d, uid) && value == "+" + n)
  }

  ghost function RolesBy(d: Directory, uid: string, r: Routes): set<Id> {
    set id | id in d.roles && exists v :: v in d.roles[id] && CoversBy(d, uid, v, r)
  }

  /** A query that lost a look-up finds fewer roles, never others: those named outright always. */
  lemma RolesByRoutes(d: Directory, uid: string, r: Routes)
    ensures RolesBy(d, uid, EVERY_ROUTE) == RolesOf(d, uid)
    ensures RolesBy(d, uid, r) <= RolesOf(d, uid)
    ensures forall id :: id in d.roles && (uid in d.roles[id] || EVERYONE in d.roles[id]) ==> id in RolesBy(d, uid, r)
  {
    forall v ensures CoversBy(d, uid, v, EVERY_ROUTE) <==> Covers(d, uid, v)
             ensures CoversBy(d, uid, v, r) ==> Covers(d, uid, v)
    {
    }
    assert CoversBy(d, uid, uid, r) && CoversBy(d, uid, EVERYONE, r);
  }

  /** Without the answer of a look-up a query goes on as in a directory without such entries. */
  lemma LostLookUp(d: Directory, uid: string, value: string, r: Routes)
    ensures var seen := d.(groups := if r.groups then d.groups else map[], netgroupSchema := d.netgroupSchema && r.netgroups);
            CoversBy(d, uid, value, r) <==> Covers(seen, uid, value)
  {
    var seen := d.(groups := if r.groups then d.groups else map[], netgroupSchema := d.netgroupSchema && r.netgroups);
    assert GraphOf(seen) == GraphOf(d);
  }

  /** The values of a role that cover the user, in the order it lists them. */
  ghost function CoveringOf(d: Directory, uid: string, values: seq<string>, r: Routes): seq<string> {
    if values == [] then []
    else
      var n := |values| - 1;
      var before := CoveringOf(d, uid, values[..n], r);
      if CoversBy(d, uid, values[n], r) then before + [values[n]] else before
  }

  lemma {:induction false} CoveringIs(d: Directory, uid: string, values: seq<string>, r: Routes, v: string)
    ensures v in CoveringOf(d, uid, values, r) <==> v in values && CoversBy(d, uid, v, r)
  {
    if values != [] {
      var n := |values| - 1;
      CoveringIs(d, uid, values[..n], r, v);
      assert values == values[..n] + [values[n]];
    }
  }

  /** In the order the role lists them. */
  lemma {:induction false} CoveringAppend(d: Directory, uid: string, a: seq<string>, b: seq<string>, r: Routes)
    ensures CoveringOf(d, uid, a + b, r) == CoveringOf(d, uid, a, r) + CoveringOf(d, uid, b, r)
  {
    if b == [] {
      assert a + b == a;
    } else {
      var n := |b| - 1;
      CoveringAppend(d, uid, a, b[..n], r);
      assert (a + b)[..|a + b| - 1] == a + b[..n];
    }
  }

  /** What covers a user, spelled out: their uid, "ALL", "%" and the name of a group listing
      them and, where the directory has netgroups, "+" and the name of one that holds them. */
  lemma CoversExactly(d: Directory, uid: string, value: string)
    ensures Covers(d, uid, value) <==>
              || value == uid || value == "ALL"
              || (exists id :: id in d.groups && uid in d.groups[id].memberUids && value == "%" + d.groups[id].cn)
              || (d.netgroupSchema && exists cn :: cn in NetgroupsOf(d, uid) && value == "+" + cn)
  {
  }

  ghost function RolesOf(d: Directory, uid: string): set<Id> {
    set id | id in d.roles && exists v :: v in d.roles[id] && Covers(d, uid, v)
  }

  /** A value sudo reads as a user: not everyone, not a group, not a netgroup. */
  predicate SudoPlain(uid: string) {
    uid != EVERYONE && (uid == "" || (uid[0] != '%' && uid[0] != '+'))
  }

  /** A uid NIS reads as a name, and that a triple can carry. */
  predicate Namable(uid: string) {
    IsName(uid) && Storable(uid)
  }

  predicate PlainUid(uid: string) {
    SudoPlain(uid) && Namable(uid)
  }

  ghost predicate ReferencedNowhere(d: Directory, uid: string) {
    && (forall id :: id in d.groups ==> uid !in d.groups[id].memberUids)
    && (forall id :: id in d.roles ==> uid !in d.roles[id])
    && (forall cn :: cn in d.netgroups ==> !NamesUser(ReadNetgroup(cn, d.netgroups[cn]), uid))
  }

  ghost predicate NoEmptyValues(d: Directory) {
    forall cn :: cn in d.netgroups ==> "" !in d.netgroups[cn].values
  }

  /** When two users are named by the same netgroups of two graphs with the same
      nesting, the same netgroups contain them. */
  lemma MembershipsOfSameEdges(g: Graph, h: Graph, u: string, v: string)
    requires SameEdges(g, h)
    requires forall x :: x in g ==> (NamesUser(g[x], u) <==> NamesUser(h[x], v))
    ensures Memberships(g, u) == Memberships(h, v)
  {
    var s := Direct(g, u);
    assert s == Direct(h, v);
    forall x
      ensures Above(g, s, x) <==> Above(h, s, x)
    {
      if Above(g, s, x) {
        var n: nat :| x in Up(g, s, n);
        UpOfSameEdges(g, h, s, n, x);
      }
      if Above(h, s, x) {
        var n: nat :| x in Up(h, s, n);
        UpOfSameEdges(h, g, s, n, x);
      }
    }
  }
}
