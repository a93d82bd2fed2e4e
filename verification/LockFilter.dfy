/** The LDAP filters that count locked and expired accounts without fetching them, against
    the state machine that decides one entry at a time. */
module LockFilter {
  import opened Wrappers
  import opened Lockout

  /** An end-of-life value: what this program reads and what the directory orders by. */
  datatype End = NoEnd | EndsAt(app: Option<Instant>, server: Option<Instant>) {
    predicate Readable() {
      EndsAt? ==> app.Some? && server == app
    }
  }

  /** The part of a user entry the filters and the listing look at; every one is a person. */
  datatype User = User(lock: Stamp, subentry: string, end: End)

  datatype Filter =
    | And(left: Filter, right: Filter)
    | Any(branches: seq<Filter>)
    | Not(inner: Filter)
    | IsPerson
    | LockPresent
    | LockAtMost(cutoff: Instant)
    | LockAtLeast(floor: Instant)
    | SubentryIs(dn: string)
    | SubentryPresent
    | EndAtMost(limit: Instant)

  /** Section 4.5.1.7 of RFC 4511: a filter is TRUE, FALSE or Undefined. */
  datatype Truth = True | False | Undefined

  function Of(b: bool): Truth {
    if b then True else False
  }

  /** The year-0000 value of a permanent lock, as the directory orders it. */
  const PERMANENT: Instant := -62_167_219_200 * SECOND

  function LockNoLater(lock: Stamp, cutoff: Instant): Truth {
    match lock
    case Absent => False
    case Permanent => Of(PERMANENT <= cutoff)
    case Timed(_, server, _) => if server.None? then Undefined else Of(server.value <= cutoff)
  }

  function LockNoEarlier(lock: Stamp, floor: Instant): Truth {
    match lock
    case Absent => False
    case Permanent => Of(PERMANENT >= floor)
    case Timed(_, server, _) => if server.None? then Undefined else Of(server.value >= floor)
  }

  function Both(p: Truth, q: Truth): Truth {
    if p == False || q == False then False else if p == Undefined || q == Undefined then Undefined else True
  }

  function Either(p: Truth, q: Truth): Truth {
    if p == True || q == True then True else if p == Undefined || q == Undefined then Undefined else False
  }

  function Eval(c: Client, f: Filter, u: User): Truth {
    match f
    case And(l, r) => Both(Eval(c, l, u), Eval(c, r, u))
    case Any(branches) => EvalAny(c, branches, u)
    case Not(g) =>
      var p := Eval(c, g, u);
      if p == True then False else if p == False then True else Undefined
    case IsPerson => True
    case LockPresent => Of(!u.lock.Absent?)
    case LockAtMost(cutoff) => LockNoLater(u.lock, cutoff)
    case LockAtLeast(floor) => LockNoEarlier(u.lock, floor)
    case SubentryIs(dn) =>
      if u.subentry == "" then False
      else if c.KeyOf(dn).None? then Undefined
      else Of(c.KeyOf(u.subentry) == c.KeyOf(dn))
    case SubentryPresent => Of(u.subentry != "")
    case EndAtMost(limit) =>
      match u.end
      case NoEnd => False
      case EndsAt(_, server) => if server.None? then Undefined else Of(server.value <= limit)
  }

  function EvalAny(c: Client, branches: seq<Filter>, u: User): Truth {
    if branches == [] then False else Either(Eval(c, branches[0], u), EvalAny(c, branches[1..], u))
  }

  predicate Matches(c: Client, f: Filter, u: User) {
    Eval(c, f, u) == True
  }

  /** GeneralizedTime keeps whole seconds. */
  function WholeSecond(t: Instant): Instant {
    t - t % SECOND
  }

  function Cutoff(p: Policy, now: Instant): Instant {
    WholeSecond(now - p.lockoutDuration * SECOND)
  }

  /** The start of 1970, below every lock a directory posts. */
  const LOCK_FLOOR: Instant := 0

  /** What one listed policy contributes. */
  function Branches(c: Client, p: Policy, now: Instant): seq<Filter> {
    if p.lockoutDuration <= 0 then []
    else
      [And(SubentryIs(p.dn), LockAtMost(Cutoff(p, now)))]
      + if c.SameDn(p.dn, c.defaultPolicyDn) then [And(Not(SubentryPresent), LockAtMost(Cutoff(p, now)))] else []
  }

  function AllBranches(c: Client, policies: seq<Policy>, now: Instant): seq<Filter> {
    if policies == [] then []
    else AllBranches(c, policies[..|policies| - 1], now) + Branches(c, policies[|policies| - 1], now)
  }

  /** The filter as the loop builds it; None when no policy states a duration. */
  method LapsedLockFilterFor(c: Client, policies: seq<Policy>, now: Instant) returns (f: Option<Filter>)
    ensures f == LapsedFilter(c, policies, now)
  {
    var branches: seq<Filter> := [];
    for i := 0 to |policies|
      invariant branches == AllBranches(c, policies[..i], now)
    {
      assert policies[..i + 1][..i] == policies[..i];
      var policy := policies[i];
      if policy.lockoutDuration > 0 {
        var cutoff := WholeSecond(now - policy.lockoutDuration * SECOND);
        branches := branches + [And(SubentryIs(policy.dn), LockAtMost(cutoff))];
        if c.SameDn(policy.dn, c.defaultPolicyDn) {
          branches := branches + [And(Not(SubentryPresent), LockAtMost(cutoff))];
        }
      }
    }
    assert policies[..|policies|] == policies;
    f := if |branches| == 0 then None else Some(And(LockAtLeast(LOCK_FLOOR), Any(branches)));
  }

  function LapsedFilter(c: Client, policies: seq<Policy>, now: Instant): Option<Filter> {
    var branches := AllBranches(c, policies, now);
    if branches == [] then None else Some(And(LockAtLeast(LOCK_FLOOR), Any(branches)))
  }

  /** lockedNowFilter: every lock, less those known to have lapsed. */
  function LockedNow(c: Client, now: Instant): Filter {
    var lapsed := if c.listed.None? then None else LapsedFilter(c, c.listed.value, now);
    if lapsed.None? then LockPresent else And(LockPresent, Not(lapsed.value))
  }

  // ---- what the lapsed filter matches ----

  ghost function StateOf(c: Client, u: User, now: Instant): LockState {
    ResolvedLock(c, u.lock, u.subentry, now).state
  }

  /** The policy that governs this entry. */
  ghost function Governing(c: Client, u: User): Option<Policy> {
    c.GetPolicy(PolicyDnOf(c, u.subentry))
  }

  /** The listing names the governing policy, and that policy lifts locks by itself. */
  ghost predicate Listed(c: Client, u: User) {
    && c.listed.Some? && Governing(c, u).Some?
    && Governing(c, u).value in c.listed.value
    && Governing(c, u).value.lockoutDuration > 0
  }

  /** What the server makes of "this timestamped lock is at or before its policy's cutoff". */
  ghost function ByCutoff(c: Client, u: User, now: Instant): Truth
    requires u.lock.Timed? && Governing(c, u).Some?
  {
    LockNoLater(u.lock, Cutoff(Governing(c, u).value, now))
  }

  /** What the server makes of "this lock has lapsed". */
  ghost function Lapsed(c: Client, u: User, now: Instant): Truth {
    if !u.lock.Timed? || !Listed(c, u) then False
    else Both(LockNoEarlier(u.lock, 0), ByCutoff(c, u, now))
  }

  lemma WholeSecondBounds(t: Instant)
    ensures WholeSecond(t) <= t < WholeSecond(t) + SECOND && WholeSecond(t) % 1_000_000_000 == 0
    ensures forall s: Instant :: s % SECOND == 0 && s <= t ==> s <= WholeSecond(t)
  {
    forall s: Instant | s % SECOND == 0 && s <= t
      ensures s <= WholeSecond(t)
    {
      assert (t - s) % SECOND == t % SECOND;
    }
  }

  /** Both ways in which a branch can name the policy of an entry name the one that governs it. */
  lemma GovernedBy(c: Client, u: User, p: Policy)
    requires c.Consistent() && c.listed.Some? && p in c.listed.value
    ensures c.KeyOf(p.dn).Some? && p.dn != ""
    ensures u.subentry != "" ==> (c.KeyOf(u.subentry) == c.KeyOf(p.dn) <==> Governing(c, u) == Some(p))
    ensures u.subentry == "" ==> (c.SameDn(p.dn, c.defaultPolicyDn) <==> Governing(c, u) == Some(p))
  {
    assert c.GetPolicy(p.dn) == Some(p);
    var dn := PolicyDnOf(c, u.subentry);
    if c.GetPolicy(dn) == Some(p) {
      assert c.KeyOf(p.dn) == Some(c.keys[dn]);
    }
  }

  /** The branches of one listed policy speak about the entries it governs, and no others. */
  lemma BranchValue(c: Client, u: User, p: Policy, now: Instant)
    requires c.Consistent() && c.listed.Some? && p in c.listed.value && u.lock.Timed?
    ensures EvalAny(c, Branches(c, p, now), u)
         == if Governing(c, u) == Some(p) && p.lockoutDuration > 0 then ByCutoff(c, u, now) else False
  {
    GovernedBy(c, u, p);
    var b := Branches(c, p, now);
    if p.lockoutDuration > 0 {
      var own, late := SubentryIs(p.dn), LockAtMost(Cutoff(p, now));
      assert b[0] == And(own, late);
      assert Eval(c, b[0], u) == Both(Eval(c, own, u), Eval(c, late, u));
      if |b| == 2 {
        var none := Not(SubentryPresent);
        assert b[1..] == [And(none, late)] && b[1..][1..] == [];
        assert Eval(c, SubentryPresent, u) == Of(u.subentry != "");
        assert Eval(c, b[1], u) == Both(Eval(c, none, u), Eval(c, late, u));
        assert EvalAny(c, b[1..], u) == Either(Eval(c, b[1], u), False);
      } else {
        assert b[1..] == [];
        assert EvalAny(c, b[1..], u) == False;
      }
    }
  }

  lemma {:induction false} EvalAnyAppend(c: Client, a: seq<Filter>, b: seq<Filter>, u: User)
    ensures EvalAny(c, a + b, u) == Either(EvalAny(c, a, u), EvalAny(c, b, u))
  {
    if a == [] {
      assert a + b == b;
    } else {
      EvalAnyAppend(c, a[1..], b, u);
      assert (a + b)[0] == a[0] && (a + b)[1..] == a[1..] + b;
    }
  }

  ghost predicate GovernedAmong(c: Client, u: User, ps: seq<Policy>) {
    Governing(c, u).Some? && Governing(c, u).value in ps && Governing(c, u).value.lockoutDuration > 0
  }

  lemma {:induction false} BranchesValue(c: Client, u: User, n: nat, now: Instant)
    requires c.Consistent() && c.listed.Some? && n <= |c.listed.value| && u.lock.Timed?
    ensures EvalAny(c, AllBranches(c, c.listed.value[..n], now), u)
         == if GovernedAmong(c, u, c.listed.value[..n])
            then ByCutoff(c, u, now) else False
  {
    var ps := c.listed.value[..n];
    if n > 0 {
      var p := c.listed.value[n - 1];
      assert ps[..|ps| - 1] == c.listed.value[..n - 1];
      assert ps == ps[..|ps| - 1] + [p];
      BranchesValue(c, u, n - 1, now);
      BranchValue(c, u, p, now);
      EvalAnyAppend(c, AllBranches(c, ps[..|ps| - 1], now), Branches(c, p, now), u);
    }
  }

  /** The value the server gives the lapsed filter, for every entry: the exact reading of
      "the governing policy is listed, lifts locks, and this one is past its cutoff". */
  lemma LapsedFilterMeans(c: Client, u: User, now: Instant)
    requires c.Consistent() && c.listed.Some?
    ensures match LapsedFilter(c, c.listed.value, now)
            case None => Lapsed(c, u, now) == False
            case Some(f) => Eval(c, f, u) == Lapsed(c, u, now)
  {
    assert c.listed.value[..|c.listed.value|] == c.listed.value;
    if u.lock.Timed? {
      BranchesValue(c, u, |c.listed.value|, now);
      if AllBranches(c, c.listed.value, now) == [] && Listed(c, u) {
        BranchesAreThere(c, c.listed.value, Governing(c, u).value, now);
      }
    }
  }

  lemma {:induction false} BranchesAreThere(c: Client, ps: seq<Policy>, p: Policy, now: Instant)
    requires p in ps && p.lockoutDuration > 0
    ensures AllBranches(c, ps, now) != []
  {
    if p != ps[|ps| - 1] {
      assert ps == ps[..|ps| - 1] + [ps[|ps| - 1]];
      BranchesAreThere(c, ps[..|ps| - 1], p, now);
    }
  }

  /** An entry is counted as locked exactly when it carries a lock the server does not take
      for lapsed; a value the server cannot order makes it neither. */
  lemma LockedNowMeans(c: Client, u: User, now: Instant)
    requires c.Consistent()
    ensures Matches(c, LockedNow(c, now), u) <==> !u.lock.Absent? && Lapsed(c, u, now) == False
  {
    if c.listed.Some? {
      LapsedFilterMeans(c, u, now);
      var lapsed := LapsedFilter(c, c.listed.value, now);
      if lapsed.Some? {
        var f := Not(lapsed.value);
        assert Eval(c, LockedNow(c, now), u) == Both(Eval(c, LockPresent, u), Eval(c, f, u));
      }
    }
  }

  // ---- the filter against the state machine ----

  /** Where both sides read the instant, an entry the lapsed filter matches is Lifted. */
  lemma LapsedIsLifted(c: Client, u: User, now: Instant)
    requires c.Consistent() && u.lock.Readable() && c.listed.Some?
    requires LapsedFilter(c, c.listed.value, now).Some?
    requires Matches(c, LapsedFilter(c, c.listed.value, now).value, u)
    ensures StateOf(c, u, now) == Lifted
  {
    LapsedFilterMeans(c, u, now);
    WholeSecondBounds(now - Governing(c, u).value.lockoutDuration * SECOND);
  }

  /** A lapsed lock the filter cannot tell: its policy is not listed, its instant precedes
      1970, or it lapsed in the very second the cutoff truncates. */
  ghost predicate Untold(c: Client, u: User, now: Instant) {
    && StateOf(c, u, now) == Lifted
    && (!Listed(c, u)
        || u.lock.app.value < 0
        || u.lock.app.value > Cutoff(Governing(c, u).value, now))
  }

  /** The counting filter never hides a locked entry, and overstates by exactly the untold ones. */
  lemma CountedIsLockedOrUntold(c: Client, u: User, now: Instant)
    requires c.Consistent() && u.lock.Readable()
    ensures Matches(c, LockedNow(c, now), u)
       <==> ResolvedLock(c, u.lock, u.subentry, now).Locked() || Untold(c, u, now)
  {
    LockedNowMeans(c, u, now);
    if Governing(c, u).Some? {
      WholeSecondBounds(now - Governing(c, u).value.lockoutDuration * SECOND);
    }
  }

  /** A whole-second lock of 1970 or later, under a policy that is listed if it can be read. */
  ghost predicate Told(c: Client, u: User) {
    && u.lock.Readable()
    && (u.lock.Timed? ==> u.lock.app.value >= 0 && u.lock.app.value % SECOND == 0)
    && (u.lock.Timed? && Governing(c, u).Some? ==>
          c.listed.Some? && Governing(c, u).value in c.listed.value)
  }

  /** There the count and the state machine agree entry by entry. */
  lemma CountAgrees(c: Client, u: User, now: Instant)
    requires c.Consistent() && Told(c, u)
    ensures Matches(c, LockedNow(c, now), u) <==> ResolvedLock(c, u.lock, u.subentry, now).Locked()
  {
    CountedIsLockedOrUntold(c, u, now);
    if Governing(c, u).Some? {
      WholeSecondBounds(now - Governing(c, u).value.lockoutDuration * SECOND);
    }
  }

  /** Over every stored value, readable or not: a locked entry goes uncounted exactly when the
      server takes the lock for lapsed, or cannot order it, while this program does not. */
  lemma HiddenExactly(c: Client, u: User, now: Instant)
    requires c.Consistent()
    ensures ResolvedLock(c, u.lock, u.subentry, now).Locked() && !Matches(c, LockedNow(c, now), u)
       <==> && Lapsed(c, u, now) != False
            && (u.lock.app.None? || now < u.lock.app.value + Governing(c, u).value.lockoutDuration * SECOND)
  {
    LockedNowMeans(c, u, now);
  }

  /** Such an entry exists: a lock the server cannot order, under a listed default policy. */
  lemma UnreadableLockIsHidden()
    ensures exists c: Client, u: User, now: Instant ::
              && c.Consistent()
              && ResolvedLock(c, u.lock, u.subentry, now).Locked()
              && !Matches(c, LockedNow(c, now), u)
  {
    var p := Policy("cn=default", 900, 5);
    var c := Client(map["cn=default" := "cn=default"], map["cn=default" := p], Some([p]), "cn=default");
    var u := User(Timed(None, None, false), "", NoEnd);
    assert c.Consistent();
    assert Listed(c, u);
    HiddenExactly(c, u, 0);
  }
}
