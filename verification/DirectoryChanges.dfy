/** Where each write in the directory's log came from: matched by binary search against the
    audited requests fetched for one window. */
module DirectoryChanges {
  import opened Wrappers
  import AccessLog

  /** Nanoseconds since 1970; ZERO is the zero time, what an unreadable reqStart reads as. */
  type Instant = int

  const SECOND: int := 1_000_000_000
  const ZERO: Instant := -62_135_596_800 * SECOND
  const MATCH_BEFORE := 30 * SECOND
  const MATCH_AFTER := 5 * SECOND
  const WRITES_LIMIT := 50000

  datatype Change = Change(id: string, time: Instant, actor: string, kind: string, changes: seq<AccessLog.Change>)

  /** An audited request that wrote to the directory. */
  datatype Write = Write(id: string, actor: string, at: Instant)

  /** An audit row; `readOnly` where its action writes nothing. */
  datatype Row = Row(write: Write, readOnly: bool)

  datatype Origin = External | App(auditId: string) | Policy

  /** The bind DN, and what each DN text that parses folds to. */
  datatype Server = Server(bindDn: string, keys: map<string, string>) {
    predicate SameDn(a: string, b: string) {
      a in keys && b in keys && keys[a] == keys[b]
    }
  }

  /** Thirty seconds before the change to five after it. */
  lemma FitsExactly(s: Server, c: Change, w: Write)
    ensures Fits(s, c, w) <==>
            && -30_000_000_000 <= w.at - c.time <= 5_000_000_000
            && c.actor in s.keys
            && ((s.bindDn in s.keys && s.keys[c.actor] == s.keys[s.bindDn]) || (w.actor in s.keys && s.keys[c.actor] == s.keys[w.actor]))
  {
  }

  ghost predicate Sorted(writes: seq<Write>) {
    forall i, j :: 0 <= i <= j < |writes| ==> writes[i].at <= writes[j].at
  }

  // ---- one change ----

  /** The audited request is by the identity the change is logged under, and around it in time. */
  predicate Fits(s: Server, c: Change, w: Write) {
    && c.time - MATCH_BEFORE <= w.at <= c.time + MATCH_AFTER
    && (s.SameDn(c.actor, s.bindDn) || s.SameDn(c.actor, w.actor))
  }

  /** A write that could be the app's at all. */
  ghost predicate Matchable(c: Change) {
    !AccessLog.PolicyBookkeeping(c.kind, c.changes) && c.time != ZERO && c.actor != ""
  }

  /** The earliest fitting request. */
  ghost function FirstFit(s: Server, c: Change, writes: seq<Write>): Option<Write> {
    if writes == [] then None
    else if Fits(s, c, writes[0]) then Some(writes[0])
    else FirstFit(s, c, writes[1..])
  }

  ghost function Label(s: Server, c: Change, writes: seq<Write>): Origin {
    if AccessLog.PolicyBookkeeping(c.kind, c.changes) then Policy
    else if !Matchable(c) || FirstFit(s, c, writes).None? then External
    else App(FirstFit(s, c, writes).value.id)
  }

  lemma {:induction false} FirstFitIs(s: Server, c: Change, writes: seq<Write>, i: nat)
    requires i < |writes| && Fits(s, c, writes[i])
    requires forall j :: 0 <= j < i ==> !Fits(s, c, writes[j])
    ensures FirstFit(s, c, writes) == Some(writes[i])
  {
    if i > 0 {
      assert !Fits(s, c, writes[0]);
      FirstFitIs(s, c, writes[1..], i - 1);
    }
  }

  lemma {:induction false} NoFirstFit(s: Server, c: Change, writes: seq<Write>)
    ensures FirstFit(s, c, writes).None? <==> forall w :: w in writes ==> !Fits(s, c, w)
  {
    if writes != [] {
      NoFirstFit(s, c, writes[1..]);
      assert writes == [writes[0]] + writes[1..];
    }
  }

  /** Every label spelled out: ppolicy's own bookkeeping; else, given a time and an actor, the
      first request that fits; else from outside. */
  lemma LabelExactly(s: Server, c: Change, writes: seq<Write>, id: string)
    ensures Label(s, c, writes).Policy? <==> AccessLog.PolicyBookkeeping(c.kind, c.changes)
    ensures Label(s, c, writes) == App(id) <==>
              && !AccessLog.PolicyBookkeeping(c.kind, c.changes)
              && c.time != -62_135_596_800_000_000_000 && c.actor != ""
              && exists i :: 0 <= i < |writes| && writes[i].id == id && Fits(s, c, writes[i]) && NoneFits(s, c, writes[..i])
  {
    if FirstFit(s, c, writes).Some? {
      var i := FirstFitAt(s, c, writes);
    }
    if i :| 0 <= i < |writes| && writes[i].id == id && Fits(s, c, writes[i]) && NoneFits(s, c, writes[..i]) {
      assert forall j :: 0 <= j < i ==> writes[j] in writes[..i];
      FirstFitIs(s, c, writes, i);
    }
  }

  ghost predicate NoneFits(s: Server, c: Change, writes: seq<Write>) {
    forall w :: w in writes ==> !Fits(s, c, w)
  }

  lemma {:induction false} FirstFitAt(s: Server, c: Change, writes: seq<Write>) returns (i: nat)
    requires FirstFit(s, c, writes).Some?
    ensures i < |writes| && FirstFit(s, c, writes) == Some(writes[i])
    ensures Fits(s, c, writes[i]) && NoneFits(s, c, writes[..i])
  {
    if Fits(s, c, writes[0]) {
      i := 0;
    } else {
      var j := FirstFitAt(s, c, writes[1..]);
      i := j + 1;
      assert writes[..i] == [writes[0]] + writes[1..][..j];
    }
  }

  /** The index of the first write not before `from`. */
  method Search(writes: seq<Write>, from: Instant) returns (start: nat)
    requires Sorted(writes)
    ensures start <= |writes|
    ensures forall j :: 0 <= j < start ==> writes[j].at < from
    ensures forall j :: start <= j < |writes| ==> from <= writes[j].at
  {
    var lo, hi := 0, |writes|;
    while lo < hi
      invariant 0 <= lo <= hi <= |writes|
      invariant forall j :: 0 <= j < lo ==> writes[j].at < from
      invariant forall j :: hi <= j < |writes| ==> from <= writes[j].at
    {
      var mid := (lo + hi) / 2;
      if writes[mid].at < from {
        lo := mid + 1;
      } else {
        hi := mid;
      }
    }
    start := lo;
  }

  /** The app's exactly if some audited request fits, and then the earliest that does. */
  method ClassifyChange(s: Server, c: Change, writes: seq<Write>) returns (origin: Origin)
    requires Sorted(writes)
    ensures origin == Label(s, c, writes)
    ensures origin.App? <==> Matchable(c) && exists w :: w in writes && Fits(s, c, w)
  {
    NoFirstFit(s, c, writes);
    var policy := AccessLog.IsPolicyBookkeeping(c.kind, c.changes);
    if policy {
      return Policy;
    }
    if c.time == ZERO || c.actor == "" {
      return External;
    }
    var byApp := s.SameDn(c.actor, s.bindDn);
    var start := Search(writes, c.time - MATCH_BEFORE);
    var i := start;
    while i < |writes|
      invariant start <= i <= |writes|
      invariant forall j :: 0 <= j < i ==> !Fits(s, c, writes[j])
    {
      if writes[i].at > c.time + MATCH_AFTER {
        break;
      }
      if byApp || s.SameDn(c.actor, writes[i].actor) {
        FirstFitIs(s, c, writes, i);
        return App(writes[i].id);
      }
      i := i + 1;
    }
    assert forall j :: 0 <= j < |writes| ==> !Fits(s, c, writes[j]);
    origin := External;
  }

  // ---- the window ----

  /** The audited writes of a table, and those of one window. */
  ghost function Writes(table: seq<Row>): seq<Write> {
    if table == [] then []
    else if table[0].readOnly then Writes(table[1..])
    else [table[0].write] + Writes(table[1..])
  }

  function Between(table: seq<Row>, from: Instant, to: Instant): seq<Write> {
    if table == [] then []
    else if !table[0].readOnly && from <= table[0].write.at <= to
    then [table[0].write] + Between(table[1..], from, to)
    else Between(table[1..], from, to)
  }

  ghost predicate SortedTable(table: seq<Row>) {
    forall i, j :: 0 <= i <= j < |table| ==> table[i].write.at <= table[j].write.at
  }

  lemma {:induction false} BetweenSorted(table: seq<Row>, from: Instant, to: Instant)
    requires SortedTable(table)
    ensures Sorted(Between(table, from, to))
    ensures forall w :: w in Between(table, from, to) ==> exists r :: r in table && r.write == w
  {
    if table != [] {
      BetweenSorted(table[1..], from, to);
      var rest := Between(table[1..], from, to);
      forall w | w in rest
        ensures table[0].write.at <= w.at
        ensures exists r :: r in table && r.write == w
      {
        var r :| r in table[1..] && r.write == w;
        assert r in table;
      }
    }
  }

  /** The window keeps the first fit of every change whose own slack lies inside it. */
  lemma {:induction false} WindowKeepsFit(s: Server, c: Change, table: seq<Row>, from: Instant, to: Instant)
    requires from <= c.time - MATCH_BEFORE && c.time + MATCH_AFTER <= to
    ensures FirstFit(s, c, Between(table, from, to)) == FirstFit(s, c, Writes(table))
  {
    if table != [] {
      WindowKeepsFit(s, c, table[1..], from, to);
      var w := table[0].write;
      assert ([w] + Writes(table[1..]))[1..] == Writes(table[1..]);
      assert ([w] + Between(table[1..], from, to))[1..] == Between(table[1..], from, to);
    }
  }

  /** Each request that writes is there as often as it is logged, and none that only reads. */
  lemma {:induction false} WritesExactly(table: seq<Row>, w: Write)
    ensures multiset(Writes(table))[w] == multiset(table)[Row(w, false)]
  {
    if table != [] {
      WritesExactly(table[1..], w);
      assert table == [table[0]] + table[1..];
    }
  }

  /** And of a window's, those in it. */
  lemma {:induction false} BetweenExactly(table: seq<Row>, from: Instant, to: Instant, w: Write)
    ensures multiset(Between(table, from, to))[w] == if from <= w.at <= to then multiset(table)[Row(w, false)] else 0
  {
    if table != [] {
      BetweenExactly(table[1..], from, to, w);
      assert table == [table[0]] + table[1..];
    }
  }

  /** A change the fetched window covers: one between the last listed and the first. */
  ghost predicate Covered(c: Change, listed: seq<Change>)
    requires listed != []
  {
    listed[|listed| - 1].time <= c.time <= listed[0].time
  }

  ghost function Fetched(table: seq<Row>, listed: seq<Change>): seq<Write>
    requires listed != []
  {
    Between(table, listed[|listed| - 1].time - MATCH_BEFORE, listed[0].time + MATCH_AFTER)
  }

  /** Whatever the audit table holds, every listed change is labelled as by the whole table. */
  ghost predicate LabelledAsByWhole(s: Server, listed: seq<Change>)
    requires listed != []
  {
    forall table: seq<Row>, c: Change :: SortedTable(table) && c in listed ==>
      Label(s, c, Fetched(table, listed)) == Label(s, c, Writes(table))
  }

  /** Some request could ever match it: its identity is the app's own, or a DN that parses. */
  ghost predicate Identifiable(s: Server, c: Change) {
    Matchable(c) && c.actor in s.keys
  }

  /** That holds exactly when every change a request could match lies between the last listed
      and the first: a first entry whose time cannot be read, sorting last as text, breaks it. */
  lemma WindowSufficesExactly(s: Server, listed: seq<Change>)
    requires listed != []
    ensures LabelledAsByWhole(s, listed) <==> forall c :: c in listed && Identifiable(s, c) ==> Covered(c, listed)
  {
    if forall c :: c in listed && Identifiable(s, c) ==> Covered(c, listed) {
      forall table: seq<Row>, c: Change | SortedTable(table) && c in listed
        ensures Label(s, c, Fetched(table, listed)) == Label(s, c, Writes(table))
      {
        if Identifiable(s, c) {
          WindowKeepsFit(s, c, table, listed[|listed| - 1].time - MATCH_BEFORE, listed[0].time + MATCH_AFTER);
        } else {
          NoFirstFit(s, c, Fetched(table, listed));
          NoFirstFit(s, c, Writes(table));
        }
      }
    }
    if c :| c in listed && Identifiable(s, c) && !Covered(c, listed) {
      var w := Write("", c.actor, if c.time < listed[|listed| - 1].time then c.time - MATCH_BEFORE else c.time + MATCH_AFTER);
      var table := [Row(w, false)];
      OutsideWindow(s, listed, c, w);
      assert SortedTable(table);
      assert Label(s, c, Fetched(table, listed)) != Label(s, c, Writes(table));
    }
  }

  /** An oldest change whose time cannot be read only widens the window. */
  lemma OldestUnreadableSuffices(s: Server, listed: seq<Change>)
    requires listed != [] && listed[|listed| - 1].time == ZERO
    requires forall c :: c in listed ==> ZERO <= c.time <= listed[0].time
    ensures LabelledAsByWhole(s, listed)
  {
    WindowSufficesExactly(s, listed);
  }

  /** A newest one shuts it: every change a request could match is outside. */
  lemma NewestUnreadableFails(s: Server, listed: seq<Change>, c: Change)
    requires listed != [] && listed[0].time == ZERO && c in listed && Identifiable(s, c) && c.time > ZERO
    ensures !LabelledAsByWhole(s, listed)
  {
    WindowSufficesExactly(s, listed);
  }

  lemma UnreadableNewest() returns (s: Server, listed: seq<Change>)
    ensures |listed| == 2 && listed[0].time == ZERO && !LabelledAsByWhole(s, listed)
  {
    s := Server("cn=app", map["cn=app" := "cn=app"]);
    var c := Change("2", 0, "cn=app", "add", []);
    listed := [Change("1", ZERO, "cn=app", "add", []), c];
    assert listed[1] == c;
    NewestUnreadableFails(s, listed, c);
  }

  lemma OutsideWindow(s: Server, listed: seq<Change>, c: Change, w: Write)
    requires listed != [] && Fits(s, c, w) && Matchable(c)
    requires w.at < listed[|listed| - 1].time - MATCH_BEFORE || w.at > listed[0].time + MATCH_AFTER
    ensures Label(s, c, Fetched([Row(w, false)], listed)) == External
    ensures Label(s, c, Writes([Row(w, false)])) == App(w.id)
  {
    var table := [Row(w, false)];
    var from, to := listed[|listed| - 1].time - MATCH_BEFORE, listed[0].time + MATCH_AFTER;
    assert table[1..] == [] && Between(table[1..], from, to) == [] && Writes(table[1..]) == [];
    assert Writes(table) == [w];
    assert Fetched(table, listed) == Between(table, from, to) == [];
  }

  function Capped(writes: seq<Write>): seq<Write> {
    if |writes| <= WRITES_LIMIT then writes else writes[..WRITES_LIMIT]
  }

  lemma {:induction false} FirstFitOfPrefix(s: Server, c: Change, writes: seq<Write>, n: nat)
    requires n <= |writes| && exists w :: w in writes[..n] && Fits(s, c, w)
    ensures FirstFit(s, c, writes[..n]) == FirstFit(s, c, writes)
  {
    if !Fits(s, c, writes[0]) {
      assert writes[..n][1..] == writes[1..][..n - 1];
      var w :| w in writes[..n] && Fits(s, c, w);
      assert writes[..n] == [writes[0]] + writes[..n][1..];
      assert w in writes[1..][..n - 1];
      FirstFitOfPrefix(s, c, writes[1..], n - 1);
    }
  }

  /** How many of the writes come before the first that fits the change. */
  function Ahead(s: Server, c: Change, writes: seq<Write>): nat {
    if writes == [] || Fits(s, c, writes[0]) then 0 else 1 + Ahead(s, c, writes[1..])
  }

  lemma {:induction false} AheadOf(s: Server, c: Change, writes: seq<Write>, n: nat)
    requires n <= |writes| && exists w :: w in writes && Fits(s, c, w)
    ensures (exists w :: w in writes[..n] && Fits(s, c, w)) <==> Ahead(s, c, writes) < n
  {
    if Fits(s, c, writes[0]) {
      assert n > 0 ==> writes[..n][0] == writes[0];
    } else {
      assert forall w :: w in writes <==> w == writes[0] || w in writes[1..];
      if n > 0 {
        AheadOf(s, c, writes[1..], n - 1);
        assert writes[..n] == [writes[0]] + writes[1..][..n - 1];
      }
    }
  }

  /** The limit on fetched rows costs a change its label exactly when as many rows of the
      window as it allows come before the first request that fits. */
  lemma CapKeepsExactly(s: Server, c: Change, table: seq<Row>, listed: seq<Change>)
    requires SortedTable(table) && listed != [] && Covered(c, listed)
    ensures Label(s, c, Capped(Fetched(table, listed))) == Label(s, c, Writes(table)) <==>
            (Matchable(c) && (exists w :: w in Fetched(table, listed) && Fits(s, c, w)) ==>
               Ahead(s, c, Fetched(table, listed)) < WRITES_LIMIT)
  {
    var fetched := Fetched(table, listed);
    WindowKeepsFit(s, c, table, listed[|listed| - 1].time - MATCH_BEFORE, listed[0].time + MATCH_AFTER);
    NoFirstFit(s, c, fetched);
    NoFirstFit(s, c, Capped(fetched));
    if exists w :: w in fetched && Fits(s, c, w) {
      var n := if |fetched| <= WRITES_LIMIT then |fetched| else WRITES_LIMIT;
      assert fetched[..|fetched|] == fetched && Capped(fetched) == fetched[..n];
      AheadOf(s, c, fetched, n);
      AheadWithin(s, c, fetched);
      if Ahead(s, c, fetched) < n {
        FirstFitOfPrefix(s, c, fetched, n);
      }
    }
  }

  lemma {:induction false} AheadWithin(s: Server, c: Change, writes: seq<Write>)
    requires exists w :: w in writes && Fits(s, c, w)
    ensures Ahead(s, c, writes) < |writes|
  {
    if !Fits(s, c, writes[0]) {
      assert forall w :: w in writes <==> w == writes[0] || w in writes[1..];
      AheadWithin(s, c, writes[1..]);
    }
  }

  function Plain(table: seq<Row>): seq<Write> {
    seq(|table|, i requires 0 <= i < |table| => table[i].write)
  }

  lemma {:induction false} AllBetween(table: seq<Row>, from: Instant, to: Instant)
    requires forall r :: r in table ==> !r.readOnly && from <= r.write.at <= to
    ensures Between(table, from, to) == Writes(table) == Plain(table)
  {
    if table != [] {
      assert table[0] in table && forall r :: r in table[1..] ==> r in table;
      AllBetween(table[1..], from, to);
      assert Plain(table) == [table[0].write] + Plain(table[1..]);
    }
  }

  lemma {:induction false} AheadIs(s: Server, c: Change, writes: seq<Write>, n: nat)
    requires n < |writes| && Fits(s, c, writes[n]) && forall j :: 0 <= j < n ==> !Fits(s, c, writes[j])
    ensures Ahead(s, c, writes) == n
  {
    if n > 0 {
      assert !Fits(s, c, writes[0]);
      AheadIs(s, c, writes[1..], n - 1);
    }
  }

  /** So an oldest change whose time cannot be read costs the others their labels once the
      audit table is long: its window goes back to the beginning, and the rows it returns
      are the oldest ones. */
  lemma LimitHides(s: Server, c: Change, bad: Change, earlier: seq<Row>, own: Write)
    requires Matchable(c) && bad.time == ZERO < c.time && Fits(s, c, own)
    requires |earlier| == 50000 && SortedTable(earlier)
    requires forall r :: r in earlier ==> !r.readOnly && ZERO <= r.write.at < c.time - 30_000_000_000
    ensures var table := earlier + [Row(own, false)];
            && SortedTable(table)
            && Ahead(s, c, Fetched(table, [c, bad])) == 50000
            && Label(s, c, Capped(Fetched(table, [c, bad]))) == External
            && Label(s, c, Writes(table)) == App(own.id)
  {
    var table, listed := earlier + [Row(own, false)], [c, bad];
    forall i | 0 <= i < |earlier|
      ensures table[i].write.at < c.time - MATCH_BEFORE
    {
      assert earlier[i] in earlier && table[i] == earlier[i];
    }
    AllBetween(table, ZERO - MATCH_BEFORE, c.time + MATCH_AFTER);
    var all := Plain(table);
    assert Fetched(table, listed) == Writes(table) == all && all[WRITES_LIMIT] == own;
    FirstFitIs(s, c, all, WRITES_LIMIT);
    forall w | w in Capped(all)
      ensures !Fits(s, c, w)
    {
      var j :| 0 <= j < WRITES_LIMIT && all[j] == w;
    }
    NoFirstFit(s, c, Capped(all));
    AheadIs(s, c, all, WRITES_LIMIT);
  }

  /** One such table: at the start of 1970 as many requests as the limit allows, and the
      app's own a minute later. */
  lemma OldestUnreadableHides() returns (s: Server, listed: seq<Change>, table: seq<Row>)
    ensures |listed| == 2 && listed[1].time == ZERO && SortedTable(table)
    ensures LabelledAsByWhole(s, listed)
    ensures Label(s, listed[0], Capped(Fetched(table, listed))) == External
    ensures Label(s, listed[0], Writes(table)).App?
  {
    s := Server("cn=app", map["cn=app" := "cn=app"]);
    var c, bad := Change("2", 60 * SECOND, "cn=app", "add", []), Change("1", ZERO, "cn=app", "add", []);
    var own, other := Write("own", "cn=app", 60 * SECOND), Row(Write("old", "cn=app", 0), false);
    var earlier := seq(WRITES_LIMIT, i requires 0 <= i < WRITES_LIMIT => other);
    listed, table := [c, bad], earlier + [Row(own, false)];
    LimitHides(s, c, bad, earlier, own);
    OldestUnreadableSuffices(s, listed);
  }

  /** A stretch of the audited writes that starts with the first one in the window and,
      unless the limit cuts it short, ends with the last. */
  ghost predicate Stretch(out: seq<Write>, all: seq<Write>, lo: nat, from: Instant, to: Instant, limit: nat) {
    && |out| <= limit && lo + |out| <= |all|
    && out == all[lo..lo + |out|]
    && (forall j :: 0 <= j < lo ==> all[j].at < from)
    && (forall w :: w in out ==> from <= w.at <= to)
    && (|out| < limit && lo + |out| < |all| ==> to < all[lo + |out|].at)
  }

  lemma {:induction false} WritesAfter(table: seq<Row>, at: Instant)
    requires forall r :: r in table ==> at <= r.write.at
    ensures forall w :: w in Writes(table) ==> at <= w.at
  {
    if table != [] {
      WritesAfter(table[1..], at);
      assert table[0] in table;
    }
  }

  lemma {:induction false} NoneBetween(table: seq<Row>, from: Instant, to: Instant)
    requires forall r :: r in table ==> to < r.write.at
    ensures Between(table, from, to) == []
  {
    if table != [] {
      assert table[0] in table;
      NoneBetween(table[1..], from, to);
    }
  }

  lemma {:induction false} BetweenIsStretch(table: seq<Row>, from: Instant, to: Instant) returns (lo: nat)
    requires SortedTable(table)
    ensures Stretch(Between(table, from, to), Writes(table), lo, from, to, |Between(table, from, to)| + 1)
  {
    if table == [] {
      return 0;
    }
    var rest, more, w := Writes(table[1..]), Between(table[1..], from, to), table[0].write;
    lo := BetweenIsStretch(table[1..], from, to);
    if !table[0].readOnly {
      if w.at < from {
        OneBefore(w, more, rest, lo, from, to);
        lo := lo + 1;
      } else if w.at > to {
        NoneBetween(table[1..], from, to);
        lo := 0;
      } else {
        InsideStretch(table, from, to, lo);
        lo := 0;
      }
    }
  }

  lemma InsideStretch(table: seq<Row>, from: Instant, to: Instant, lo: nat)
    requires SortedTable(table) && table != [] && !table[0].readOnly && from <= table[0].write.at <= to
    requires Stretch(Between(table[1..], from, to), Writes(table[1..]), lo, from, to, |Between(table[1..], from, to)| + 1)
    ensures Stretch(Between(table, from, to), Writes(table), 0, from, to, |Between(table, from, to)| + 1)
  {
    WritesAfter(table[1..], table[0].write.at);
    OneInside(table[0].write, Between(table[1..], from, to), Writes(table[1..]), lo, from, to);
  }

  lemma OneBefore(w: Write, out: seq<Write>, all: seq<Write>, lo: nat, from: Instant, to: Instant)
    requires Stretch(out, all, lo, from, to, |out| + 1) && w.at < from
    ensures Stretch(out, [w] + all, lo + 1, from, to, |out| + 1)
  {
    assert ([w] + all)[lo + 1..lo + 1 + |out|] == all[lo..lo + |out|];
  }

  lemma OneInside(w: Write, out: seq<Write>, all: seq<Write>, lo: nat, from: Instant, to: Instant)
    requires Stretch(out, all, lo, from, to, |out| + 1) && from <= w.at <= to
    requires forall x :: x in all ==> w.at <= x.at
    ensures Stretch([w] + out, [w] + all, 0, from, to, |out| + 2)
  {
    assert lo == 0 by {
      assert all == [] || all[0] in all;
    }
    assert ([w] + all)[..1 + |out|] == [w] + all[..|out|];
  }

  /** The query: oldest first, at most a fixed number of rows. */
  method DirectoryWritesBetween(table: seq<Row>, from: Instant, to: Instant) returns (out: seq<Write>)
    requires SortedTable(table)
    ensures Sorted(out)
    ensures out == Capped(Between(table, from, to))
    ensures exists lo :: Stretch(out, Writes(table), lo, from, to, WRITES_LIMIT)
  {
    BetweenSorted(table, from, to);
    ghost var lo := BetweenIsStretch(table, from, to);
    out := Between(table, from, to);
    if |out| > WRITES_LIMIT {
      out := out[..WRITES_LIMIT];
    }
    assert Stretch(out, Writes(table), lo, from, to, WRITES_LIMIT);
  }

  // ---- the listing ----

  datatype Item = Item(change: Change, origin: Origin)

  datatype Counts = Counts(external: nat, app: nat, policy: nat)

  /** None keeps every origin. */
  datatype Wanted = AnyOrigin | OnlyExternal | OnlyApp | OnlyPolicy

  predicate OriginWanted(wanted: Wanted, o: Origin) {
    match wanted
    case AnyOrigin => true
    case OnlyExternal => o.External?
    case OnlyApp => o.App?
    case OnlyPolicy => o.Policy?
  }

  /** What a listing asks for: an origin, a type unless empty, and a text search. */
  datatype Query = Query(wanted: Wanted, kind: string, hit: Change -> bool) {
    predicate Keeps(c: Change, o: Origin) {
      OriginWanted(wanted, o) && (kind == "" || c.kind == kind) && hit(c)
    }
  }

  ghost function Items(s: Server, listed: seq<Change>, writes: seq<Write>): seq<Item> {
    seq(|listed|, i requires 0 <= i < |listed| => Item(listed[i], Label(s, listed[i], writes)))
  }

  ghost function Selected(items: seq<Item>, q: Query): seq<Item> {
    if items == [] then []
    else
      var before := Selected(items[..|items| - 1], q);
      var last := items[|items| - 1];
      if q.Keeps(last.change, last.origin) then before + [last] else before
  }

  ghost function HowMany(items: seq<Item>, wanted: Wanted): nat {
    if items == [] then 0
    else HowMany(items[..|items| - 1], wanted) + if OriginWanted(wanted, items[|items| - 1].origin) then 1 else 0
  }

  ghost function Tally(items: seq<Item>): Counts {
    Counts(HowMany(items, OnlyExternal), HowMany(items, OnlyApp), HowMany(items, OnlyPolicy))
  }

  function Counted(counts: Counts, o: Origin): Counts {
    match o
    case External => counts.(external := counts.external + 1)
    case App(_) => counts.(app := counts.app + 1)
    case Policy => counts.(policy := counts.policy + 1)
  }

  /** What is kept: everything of the wanted origin, or of any when none is named, of the
      wanted type, or of any, that the search hits; as often as it is listed. */
  lemma {:induction false} SelectedExactly(items: seq<Item>, q: Query, x: Item)
    ensures multiset(Selected(items, q))[x] ==
            if && (q.wanted.OnlyExternal? ==> x.origin.External?)
               && (q.wanted.OnlyApp? ==> x.origin.App?)
               && (q.wanted.OnlyPolicy? ==> x.origin.Policy?)
               && (q.kind != "" ==> x.change.kind == q.kind)
               && q.hit(x.change)
            then multiset(items)[x] else 0
  {
    if items != [] {
      SelectedExactly(items[..|items| - 1], q, x);
      assert items == items[..|items| - 1] + [items[|items| - 1]];
    }
  }

  /** The counts are those of the listings by origin alone. */
  lemma {:induction false} CountsExactly(items: seq<Item>)
    ensures Tally(items).external == |Selected(items, OfOrigin(OnlyExternal))|
    ensures Tally(items).app == |Selected(items, OfOrigin(OnlyApp))|
    ensures Tally(items).policy == |Selected(items, OfOrigin(OnlyPolicy))|
  {
    if items != [] {
      CountsExactly(items[..|items| - 1]);
    }
  }

  function OfOrigin(wanted: Wanted): Query {
    Query(wanted, "", _ => true)
  }

  /** Nothing is left out of a listing that asks for nothing in particular. */
  lemma {:induction false} EverythingSelected(items: seq<Item>, q: Query)
    requires q.wanted.AnyOrigin? && q.kind == "" && forall i :: i in items ==> q.hit(i.change)
    ensures Selected(items, q) == items
  {
    if items != [] {
      EverythingSelected(items[..|items| - 1], q);
      assert items == items[..|items| - 1] + [items[|items| - 1]];
    }
  }

  lemma NextItem(items: seq<Item>, i: nat, q: Query)
    requires i < |items|
    ensures var last := items[i];
            && Selected(items[..i + 1], q) == (if q.Keeps(last.change, last.origin) then Selected(items[..i], q) + [last] else Selected(items[..i], q))
            && Tally(items[..i + 1]) == Counted(Tally(items[..i]), last.origin)
  {
    assert items[..i + 1][..i] == items[..i];
  }

  /** Counts every listed change under its label, before any filter, and keeps the wanted. */
  method Sort(s: Server, listed: seq<Change>, writes: seq<Write>, q: Query) returns (matched: seq<Item>, counts: Counts)
    requires Sorted(writes)
    ensures matched == Selected(Items(s, listed, writes), q) && counts == Tally(Items(s, listed, writes))
    ensures counts.external + counts.app + counts.policy == |listed|
  {
    matched, counts := [], Counts(0, 0, 0);
    ghost var items := Items(s, listed, writes);
    for i := 0 to |listed|
      invariant matched == Selected(items[..i], q) && counts == Tally(items[..i])
      invariant counts.external + counts.app + counts.policy == i
    {
      NextItem(items, i, q);
      var origin := ClassifyChange(s, listed[i], writes);
      assert items[i] == Item(listed[i], origin);
      counts := Counted(counts, origin);
      if q.Keeps(listed[i], origin) {
        matched := matched + [Item(listed[i], origin)];
      }
    }
    assert items[..|listed|] == items;
  }

  /** The writes of the window around the page, and each change sorted against them. */
  method ListDirectoryChanges(s: Server, listed: seq<Change>, table: seq<Row>, q: Query)
    returns (matched: seq<Item>, counts: Counts)
    requires SortedTable(table)
    ensures listed == [] ==> matched == [] && counts == Counts(0, 0, 0)
    ensures listed != [] ==>
              var items := Items(s, listed, Capped(Fetched(table, listed)));
              matched == Selected(items, q) && counts == Tally(items)
    ensures counts.external + counts.app + counts.policy == |listed|
  {
    var writes: seq<Write> := [];
    if |listed| > 0 {
      var oldest, newest := listed[|listed| - 1].time, listed[0].time;
      writes := DirectoryWritesBetween(table, oldest - MATCH_BEFORE, newest + MATCH_AFTER);
    }
    matched, counts := Sort(s, listed, writes, q);
  }
}
