/** The dashboard figures, counted by filter, and the users list, decided entry by entry:
    two views of one snapshot that have to agree. */
module Overview {
  import opened Wrappers
  import opened Lockout
  import opened LockFilter

  // ---- the users list ----

  datatype Status = All | ActiveOnly | InactiveOnly

  predicate Expired(u: User, now: Instant) {
    u.end.EndsAt? && u.end.app.Some? && u.end.app.value <= now
  }

  predicate LockedIn(c: Client, u: User, now: Instant) {
    ResolvedLock(c, u.lock, u.subentry, now).Locked()
  }

  predicate Inactive(c: Client, u: User, now: Instant) {
    LockedIn(c, u, now) || Expired(u, now)
  }

  predicate Shown(status: Status, inactive: bool) {
    match status
    case All => true
    case ActiveOnly => !inactive
    case InactiveOnly => inactive
  }

  /** The entries a listing keeps, in order. */
  function Kept(c: Client, users: seq<User>, status: Status, now: Instant): seq<User> {
    if users == [] then []
    else
      var n := |users| - 1;
      var before := Kept(c, users[..n], status, now);
      if Shown(status, Inactive(c, users[n], now)) then before + [users[n]] else before
  }

  /** One listing, before sorting and slicing. */
  method SearchUsersPage(c: Client, users: seq<User>, status: Status, now: Instant)
    returns (items: seq<User>, total: nat, inactive: nat)
    ensures items == Kept(c, users, status, now) && total == |items|
    ensures inactive == |Kept(c, users, InactiveOnly, now)|
  {
    items, inactive := [], 0;
    var lockouts := new LockoutResolver(c, now);
    for i := 0 to |users|
      invariant fresh(lockouts) && lockouts.Valid() && lockouts.client == c && lockouts.now == now
      invariant items == Kept(c, users[..i], status, now)
      invariant inactive == |Kept(c, users[..i], InactiveOnly, now)|
    {
      assert users[..i + 1][..i] == users[..i];
      var lockout := lockouts.Resolve(users[i].lock, users[i].subentry);
      var isInactive := lockout.Locked() || Expired(users[i], now);
      if isInactive {
        inactive := inactive + 1;
      }
      if !(status.ActiveOnly? && isInactive) && !(status.InactiveOnly? && !isInactive) {
        items := items + [users[i]];
      }
    }
    assert users[..|users|] == users;
    total := |items|;
  }

  lemma {:induction false} FullListing(c: Client, users: seq<User>, now: Instant)
    ensures Kept(c, users, All, now) == users
  {
    if users != [] {
      FullListing(c, users[..|users| - 1], now);
    }
  }

  function Times(s: seq<User>, u: User): nat {
    if s == [] then 0 else Times(s[..|s| - 1], u) + if s[|s| - 1] == u then 1 else 0
  }

  lemma OneMore(s: seq<User>, last: User, u: User)
    ensures Times(s + [last], u) == Times(s, u) + if last == u then 1 else 0
  {
    assert (s + [last])[..|s|] == s;
  }

  /** A listing keeps the order of the entries. */
  lemma {:induction false} KeptAppend(c: Client, a: seq<User>, b: seq<User>, status: Status, now: Instant)
    ensures Kept(c, a + b, status, now) == Kept(c, a, status, now) + Kept(c, b, status, now)
  {
    if b == [] {
      assert a + b == a;
    } else {
      var n := |b| - 1;
      KeptAppend(c, a, b[..n], status, now);
      assert (a + b)[..|a + b| - 1] == a + b[..n];
    }
  }

  /** Active and inactive listings partition the full one: every entry is in one of them, as
      often as it is listed at all. */
  lemma {:induction false} ListingsPartition(c: Client, users: seq<User>, now: Instant, u: User)
    ensures Times(Kept(c, users, ActiveOnly, now), u) + Times(Kept(c, users, InactiveOnly, now), u)
         == Times(users, u)
  {
    if users != [] {
      var n := |users| - 1;
      ListingsPartition(c, users[..n], now, u);
      OneMore(Kept(c, users[..n], ActiveOnly, now), users[n], u);
      OneMore(Kept(c, users[..n], InactiveOnly, now), users[n], u);
    }
  }

  lemma {:induction false} ListingSizes(c: Client, users: seq<User>, now: Instant)
    ensures |Kept(c, users, ActiveOnly, now)| + |Kept(c, users, InactiveOnly, now)| == |users|
  {
    if users != [] {
      ListingSizes(c, users[..|users| - 1], now);
    }
  }

  /** A listing holds the entries of its status and no others. */
  lemma {:induction false} ListedStatus(c: Client, users: seq<User>, status: Status, now: Instant, u: User)
    ensures u in Kept(c, users, status, now) <==> u in users && Shown(status, Inactive(c, u, now))
  {
    if users != [] {
      var n := |users| - 1;
      ListedStatus(c, users[..n], status, now, u);
      assert users == users[..n] + [users[n]];
      assert u in users <==> u in users[..n] || u == users[n];
    }
  }

  // ---- the dashboard ----

  function CountTrue(c: Client, f: Filter, users: seq<User>): nat {
    if users == [] then 0
    else CountTrue(c, f, users[..|users| - 1]) + if Matches(c, f, users[|users| - 1]) then 1 else 0
  }

  /** How the server answers one count: in full, cut short by a limit, or not at all. */
  datatype Answer = Full | Cut(n: nat) | Failed

  /** What a count returns when `matching` entries match. */
  function Returned(a: Answer, matching: nat): nat {
    if a.Cut? && a.n < matching then a.n else matching
  }

  datatype Server = Server(
    client: Client,
    users: seq<User>,
    scheduledExpiry: bool,
    total: Answer, locked: Answer, expired: Answer, inactive: Answer)
  {
    ghost predicate Untruncated() {
      !total.Cut? && !locked.Cut? && !expired.Cut? && !inactive.Cut?
    }

    /** One size limit for every count, the kind a directory sets for a bind identity. */
    ghost predicate SizeLimited(limit: nat) {
      total == Cut(limit) && locked == total && expired == total && inactive == total
    }
  }

  datatype UserOverview = UserOverview(total: nat, active: int, locked: nat, expired: nat, truncated: bool)

  function ExpiredNow(now: Instant): Filter {
    EndAtMost(WholeSecond(now))
  }

  /** The filter whose matches are not active. */
  function InactiveFilter(s: Server, now: Instant): Filter {
    if s.scheduledExpiry then Any([LockedNow(s.client, now), ExpiredNow(now)]) else LockedNow(s.client, now)
  }

  ghost function LockedCount(s: Server, now: Instant): nat {
    CountTrue(s.client, LockedNow(s.client, now), s.users)
  }

  ghost function ExpiredCount(s: Server, now: Instant): nat {
    if s.scheduledExpiry then CountTrue(s.client, ExpiredNow(now), s.users) else 0
  }

  ghost function InactiveCount(s: Server, now: Instant): nat {
    CountTrue(s.client, InactiveFilter(s, now), s.users)
  }

  /** Whether the union has to be counted on its own. */
  ghost predicate CountsUnion(s: Server, now: Instant) {
    && s.scheduledExpiry
    && (Returned(s.locked, LockedCount(s, now)) > 0 || Returned(s.expired, ExpiredCount(s, now)) > 0)
  }

  /** A required count that is made and cannot be answered. */
  ghost predicate CountFails(s: Server, now: Instant) {
    s.total.Failed? || s.locked.Failed? || (s.scheduledExpiry && s.expired.Failed?)
    || (CountsUnion(s, now) && s.inactive.Failed?)
  }

  /** Counts without fetching; `limited` when the server stopped early. */
  method CountEntries(c: Client, users: seq<User>, f: Filter, a: Answer) returns (ok: bool, n: nat, limited: bool)
    ensures ok == !a.Failed?
    ensures ok ==> n == Returned(a, CountTrue(c, f, users)) && limited == (n < CountTrue(c, f, users))
  {
    n, limited := 0, false;
    if a.Failed? {
      return false, 0, false;
    }
    for i := 0 to |users|
      invariant n == CountTrue(c, f, users[..i])
    {
      assert users[..i + 1][..i] == users[..i];
      if Matches(c, f, users[i]) {
        n := n + 1;
      }
    }
    assert users[..|users|] == users;
    ok := true;
    if a.Cut? && a.n < n {
      n, limited := a.n, true;
    }
  }

  /** The user figures. Every short cut gives the complement of the union of what is locked
      and what has expired; a failed count fails the dashboard. Under one size limit `active`
      is a lower bound like the other figures. */
  method GetOverview(s: Server, now: Instant) returns (r: Result<UserOverview>)
    ensures r.Err? <==> CountFails(s, now)
    ensures r.Ok? ==>
              && r.value.total == Returned(s.total, |s.users|)
              && r.value.locked == Returned(s.locked, LockedCount(s, now))
              && r.value.expired == Returned(s.expired, ExpiredCount(s, now))
              && r.value.active == AtLeastZero(r.value.total - DeductedCount(s, now))
    ensures r.Ok? && !r.value.truncated ==> r.value.active == |s.users| - InactiveCount(s, now)
    ensures r.Ok? && s.Untruncated() ==> !r.value.truncated
    ensures r.Ok? && s.total.Cut? && s.SizeLimited(s.total.n) ==>
              && r.value.active <= |s.users| - InactiveCount(s, now)
              && (r.value.truncated <==> |s.users| > s.total.n)
  {
    var c := s.client;
    ghost var unionCount := InactiveCount(s, now);
    FiguresFit(s, now);
    var ok, total, cut0 := CountEntries(c, s.users, IsPerson, s.total);
    if !ok {
      return Err("count users");
    }
    var lockedNow := LockedNow(c, now);
    var locked, cut1;
    ok, locked, cut1 := CountEntries(c, s.users, lockedNow, s.locked);
    if !ok {
      return Err("count locked accounts");
    }
    var truncated := cut0 || cut1;
    var inactiveFilter := lockedNow;
    var expired := 0;
    var cut := false;
    if s.scheduledExpiry {
      ok, expired, cut := CountEntries(c, s.users, ExpiredNow(now), s.expired);
      if !ok {
        return Err("count expired accounts");
      }
      truncated := truncated || cut;
      inactiveFilter := Any([lockedNow, ExpiredNow(now)]);
    }
    var inactive: nat := 0;
    if locked == 0 && expired == 0 {
    } else if inactiveFilter == lockedNow {
      inactive := locked;
    } else {
      ok, inactive, cut := CountEntries(c, s.users, inactiveFilter, s.inactive);
      if !ok {
        return Err("count inactive accounts");
      }
      truncated := truncated || cut;
    }
    var active := total - inactive;
    if active < 0 {
      active := 0;
    }
    r := Ok(UserOverview(total, active, locked, expired, truncated));
  }

  function AtLeastZero(n: int): int {
    if n < 0 then 0 else n
  }

  /** What `active` falls short of `total` by. */
  ghost function DeductedCount(s: Server, now: Instant): nat {
    if CountsUnion(s, now) then Returned(s.inactive, InactiveCount(s, now)) else Returned(s.locked, LockedCount(s, now))
  }

  lemma {:induction false} UnionCountFits(c: Client, f: Filter, g: Filter, users: seq<User>)
    ensures CountTrue(c, IsPerson, users) == |users|
    ensures var union := CountTrue(c, Any([f, g]), users);
            && CountTrue(c, f, users) <= union && CountTrue(c, g, users) <= union <= |users|
            && union <= CountTrue(c, f, users) + CountTrue(c, g, users)
  {
    if users != [] {
      UnionCountFits(c, f, g, users[..|users| - 1]);
      UnionMatches(c, f, g, users[|users| - 1]);
    }
  }

  lemma UnionMatches(c: Client, f: Filter, g: Filter, u: User)
    ensures Matches(c, Any([f, g]), u) <==> Matches(c, f, u) || Matches(c, g, u)
  {
    assert [f, g][1..] == [g] && [g][1..] == [];
    assert EvalAny(c, [g], u) == Either(Eval(c, g, u), False);
    assert EvalAny(c, [f, g], u) == Either(Eval(c, f, u), EvalAny(c, [g], u));
  }

  lemma FiguresFit(s: Server, now: Instant)
    ensures CountTrue(s.client, IsPerson, s.users) == |s.users|
    ensures LockedCount(s, now) <= InactiveCount(s, now) <= |s.users|
    ensures ExpiredCount(s, now) <= InactiveCount(s, now) <= LockedCount(s, now) + ExpiredCount(s, now)
    ensures s.scheduledExpiry ==> Any([LockedNow(s.client, now), ExpiredNow(now)]) != LockedNow(s.client, now)
  {
    UnionCountFits(s.client, LockedNow(s.client, now), ExpiredNow(now), s.users);
  }

  // ---- the two views agree ----

  /** The entries, by position, that are locked. */
  ghost function LockedAt(c: Client, users: seq<User>, now: Instant): set<nat> {
    set i: nat | i < |users| && LockedIn(c, users[i], now)
  }

  /** The entries, by position, that have expired. */
  ghost function ExpiredAt(users: seq<User>, now: Instant): set<nat> {
    set i: nat | i < |users| && Expired(users[i], now)
  }

  /** Whole-second times that both sides read, under listed policies; no end times on a
      directory without them. */
  ghost predicate Comparable(s: Server) {
    && s.client.Consistent()
    && forall u :: u in s.users ==>
         && Told(s.client, u)
         && u.end.Readable()
         && (u.end.EndsAt? ==> s.scheduledExpiry && u.end.app.value % SECOND == 0)
  }

  lemma EntryAgrees(s: Server, u: User, now: Instant)
    requires Comparable(s) && u in s.users
    ensures Matches(s.client, InactiveFilter(s, now), u) <==> Inactive(s.client, u, now)
    ensures Matches(s.client, LockedNow(s.client, now), u) <==> LockedIn(s.client, u, now)
    ensures Matches(s.client, ExpiredNow(now), u) <==> Expired(u, now)
  {
    CountAgrees(s.client, u, now);
    WholeSecondBounds(now);
    UnionMatches(s.client, LockedNow(s.client, now), ExpiredNow(now), u);
  }

  lemma {:induction false} CountIsListing(s: Server, n: nat, now: Instant)
    requires Comparable(s) && n <= |s.users|
    ensures CountTrue(s.client, InactiveFilter(s, now), s.users[..n])
         == |Kept(s.client, s.users[..n], InactiveOnly, now)|
  {
    if n > 0 {
      assert s.users[..n][..n - 1] == s.users[..n - 1];
      CountIsListing(s, n - 1, now);
      EntryAgrees(s, s.users[n - 1], now);
    }
  }

  lemma {:induction false} ListingIsUnion(c: Client, users: seq<User>, now: Instant)
    ensures |Kept(c, users, InactiveOnly, now)| == |LockedAt(c, users, now) + ExpiredAt(users, now)|
  {
    if users == [] {
      assert LockedAt(c, users, now) + ExpiredAt(users, now) == {};
    } else {
      var n := |users| - 1;
      ListingIsUnion(c, users[..n], now);
      UnionGrows(c, users, now);
    }
  }

  lemma UnionGrows(c: Client, users: seq<User>, now: Instant)
    requires users != []
    ensures var n := |users| - 1;
            var before := LockedAt(c, users[..n], now) + ExpiredAt(users[..n], now);
            && n !in before
            && LockedAt(c, users, now) + ExpiredAt(users, now)
            == if Inactive(c, users[n], now) then before + {n} else before
  {
  }

  /** Active is what the active listing holds, is Total less what is locked or has expired,
      and the inactive listing holds the rest. */
  lemma DashboardAgrees(s: Server, now: Instant)
    requires Comparable(s)
    ensures |s.users| - InactiveCount(s, now) == |Kept(s.client, s.users, ActiveOnly, now)|
    ensures InactiveCount(s, now) == |Kept(s.client, s.users, InactiveOnly, now)|
    ensures InactiveCount(s, now) == |LockedAt(s.client, s.users, now) + ExpiredAt(s.users, now)|
  {
    assert s.users[..|s.users|] == s.users;
    CountIsListing(s, |s.users|, now);
    ListingIsUnion(s.client, s.users, now);
    ListingSizes(s.client, s.users, now);
  }

  /** Entry by entry the views differ exactly on a lapsed lock the filter cannot tell, and on
      an end time reached within the current second. */
  lemma EntryDiffers(c: Client, u: User, now: Instant)
    requires c.Consistent() && u.lock.Readable() && u.end.Readable()
    ensures var f := Any([LockedNow(c, now), ExpiredNow(now)]);
            var secondNow := u.end.EndsAt? && WholeSecond(now) < u.end.app.value <= now;
            && (Matches(c, f, u) && !Inactive(c, u, now) <==> Untold(c, u, now) && !Expired(u, now))
            && (!Matches(c, f, u) && Inactive(c, u, now)
                <==> secondNow && !LockedIn(c, u, now) && !Untold(c, u, now))
  {
    CountedIsLockedOrUntold(c, u, now);
    UnionMatches(c, LockedNow(c, now), ExpiredNow(now), u);
    WholeSecondBounds(now);
  }
}
