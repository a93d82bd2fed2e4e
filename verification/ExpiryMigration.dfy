/** The one-off migration of legacy expiry encodings onto pwdEndTime, and who it lets in or
    shuts out. */
module ExpiryMigration {
  import opened Wrappers
  import opened Lockout
  import LockFilter
  import Overview

  type End = LockFilter.End

  /** shadowExpire: days since 1970, or text no number starts. */
  datatype Shadow = NoShadow | Days(n: int) | NotNumeric

  datatype Account = Account(dn: string, lock: Stamp, subentry: string, end: End, shadow: Shadow)

  datatype Options = Options(apply: bool, includePastLocks: bool, includeShadowExpire: bool)

  datatype Source = FromLock | FromShadow

  datatype Action = Migrate | Skip | Error

  datatype Entry = Entry(dn: string, from: Source, to: End, action: Action)

  datatype Report = Report(applied: bool, migrated: nat, skipped: nat, failed: nat, entries: seq<Entry>)

  const SHADOW_EXPIRE_NEVER := 99999
  const SECONDS_PER_DAY := 86400

  function DayStart(days: int): Instant {
    days * SECONDS_PER_DAY * SECOND
  }

  /** A day is twenty-four hours, day 0 the start of 1970. */
  lemma DayStartIs(days: int)
    ensures DayStart(0) == 0 && DayStart(days + 1) - DayStart(days) == 24 * 60 * 60 * 1_000_000_000
  {
  }

  function At(t: Instant): End {
    LockFilter.EndsAt(Some(t), Some(t))
  }

  // ---- one account ----

  /** What a run intends for one account, and whether the options let it. */
  datatype Plan = Leave | Propose(from: Source, to: End, allowed: bool)

  ghost function PlanFor(a: Account, opts: Options, now: Instant): Plan {
    if a.end.EndsAt? then Leave
    else if a.lock.Timed? then
      if a.lock.plain && a.lock.app.Some?
      then Propose(FromLock, LockFilter.EndsAt(a.lock.app, a.lock.server), a.lock.app.value > now || opts.includePastLocks)
      else Leave
    else if a.shadow.Days? && 0 < a.shadow.n < SHADOW_EXPIRE_NEVER
    then Propose(FromShadow, At(DayStart(a.shadow.n)), opts.includeShadowExpire)
    else Leave
  }

  ghost function EntryFor(a: Account, opts: Options, now: Instant, refused: bool): Option<Entry> {
    match PlanFor(a, opts, now)
    case Leave => None
    case Propose(from, to, allowed) =>
      Some(Entry(a.dn, from, to, if !allowed then Skip else if opts.apply && refused then Error else Migrate))
  }

  /** The account after the run; only a write that goes through changes it. */
  ghost function Written(a: Account, opts: Options, now: Instant, refused: bool): Account {
    match PlanFor(a, opts, now)
    case Leave => a
    case Propose(from, to, allowed) =>
      if !allowed || !opts.apply || refused then a
      else a.(end := to, lock := if from.FromLock? then Absent else a.lock)
  }

  /** The lock is a date to move, or there is none in its way and the shadow day is one. */
  predicate HasLockDate(a: Account) {
    a.end.NoEnd? && a.lock.Timed? && a.lock.plain && a.lock.app.Some?
  }

  predicate HasShadowDate(a: Account) {
    a.end.NoEnd? && !a.lock.Timed? && a.shadow.Days? && 0 < a.shadow.n < 99999
  }

  /** Exactly which accounts a run writes, and all that it changes of them: the expiry becomes
      the lock's date, which goes, or the start of the shadow day, any lock staying as it is. */
  lemma WrittenExactly(a: Account, opts: Options, now: Instant, refused: bool)
    ensures Written(a, opts, now, refused) ==
            if !opts.apply || refused then a
            else if HasLockDate(a) && (now < a.lock.app.value || opts.includePastLocks)
            then Account(a.dn, Absent, a.subentry, LockFilter.EndsAt(a.lock.app, a.lock.server), a.shadow)
            else if HasShadowDate(a) && opts.includeShadowExpire
            then Account(a.dn, a.lock, a.subentry, At(a.shadow.n * 86_400_000_000_000), a.shadow)
            else a
  {
  }

  /** And what the report says of it: the date and where it comes from, and whether it was moved
      or could be, was left because the options ask the operator, or was refused. */
  lemma ReportedExactly(a: Account, opts: Options, now: Instant, refused: bool)
    ensures var e := EntryFor(a, opts, now, refused);
            && (e.Some? <==> HasLockDate(a) || HasShadowDate(a))
            && (e.Some? ==>
                  var may := if HasLockDate(a) then now < a.lock.app.value || opts.includePastLocks else opts.includeShadowExpire;
                  && e.value.dn == a.dn && (e.value.from.FromLock? <==> HasLockDate(a))
                  && e.value.to == (if HasLockDate(a) then LockFilter.EndsAt(a.lock.app, a.lock.server) else At(a.shadow.n * 86_400_000_000_000))
                  && (e.value.action.Skip? <==> !may)
                  && (e.value.action.Error? <==> may && opts.apply && refused))
  {
  }

  // ---- a run ----

  ghost function Entries(accounts: seq<Account>, opts: Options, now: Instant, refused: set<nat>): seq<Entry> {
    if accounts == [] then []
    else
      var n := |accounts| - 1;
      var before := Entries(accounts[..n], opts, now, refused);
      var e := EntryFor(accounts[n], opts, now, n in refused);
      if e.None? then before else before + [e.value]
  }

  ghost function Tally(entries: seq<Entry>, action: Action): nat {
    if entries == [] then 0
    else Tally(entries[..|entries| - 1], action) + if entries[|entries| - 1].action == action then 1 else 0
  }

  lemma TallyAppend(entries: seq<Entry>, e: Entry, action: Action)
    ensures Tally(entries + [e], action) == Tally(entries, action) + if e.action == action then 1 else 0
  {
    assert (entries + [e])[..|entries|] == entries;
  }

  /** A report lists the accounts in order. */
  lemma {:induction false} EntriesInOrder(accounts: seq<Account>, n: nat, opts: Options, now: Instant, refused: set<nat>)
    requires n <= |accounts|
    ensures Entries(accounts[..n], opts, now, refused) <= Entries(accounts, opts, now, refused)
  {
    if n < |accounts| {
      EntriesInOrder(accounts[..|accounts| - 1], n, opts, now, refused);
      assert accounts[..|accounts| - 1][..n] == accounts[..n];
    } else {
      assert accounts[..n] == accounts;
    }
  }

  /** The report with one more account in it, if there is anything to say of it. */
  function Reported(r: Report, item: Option<Entry>): Report {
    if item.None? then r
    else
      var more := r.(entries := r.entries + [item.value]);
      match item.value.action
      case Migrate => more.(migrated := r.migrated + 1)
      case Skip => more.(skipped := r.skipped + 1)
      case Error => more.(failed := r.failed + 1)
  }

  ghost function Also(entries: seq<Entry>, e: Option<Entry>): seq<Entry> {
    if e.None? then entries else entries + [e.value]
  }

  /** The three counts are those of the entries listed. */
  ghost predicate Tallied(r: Report) {
    && r.migrated == Tally(r.entries, Migrate)
    && r.skipped == Tally(r.entries, Skip)
    && r.failed == Tally(r.entries, Error)
  }

  lemma ReportedTallied(r: Report, item: Option<Entry>)
    requires Tallied(r)
    ensures Tallied(Reported(r, item)) && Reported(r, item).entries == Also(r.entries, item)
  {
    if item.Some? {
      TallyAppend(r.entries, item.value, Migrate);
      TallyAppend(r.entries, item.value, Skip);
      TallyAppend(r.entries, item.value, Error);
    }
  }

  lemma EntriesNext(accounts: seq<Account>, i: nat, opts: Options, now: Instant, refused: set<nat>)
    requires i < |accounts|
    ensures Entries(accounts[..i + 1], opts, now, refused)
         == Also(Entries(accounts[..i], opts, now, refused), EntryFor(accounts[i], opts, now, i in refused))
  {
    assert accounts[..i + 1][..i] == accounts[..i];
  }

  /** The value to move, if there is one, and whether the options let it. */
  method Intend(a: Account, opts: Options, now: Instant) returns (item: Option<Entry>)
    ensures item == match PlanFor(a, opts, now)
                    case Leave => None
                    case Propose(from, to, allowed) => Some(Entry(a.dn, from, to, if allowed then Migrate else Skip))
  {
    if a.end.EndsAt? {
      return None;
    }
    if a.lock.Timed? {
      if !a.lock.plain || a.lock.app.None? {
        return None;
      }
      var may := a.lock.app.value > now || opts.includePastLocks;
      return Some(Entry(a.dn, FromLock, LockFilter.EndsAt(a.lock.app, a.lock.server), if may then Migrate else Skip));
    }
    if a.shadow.NoShadow? {
      return None;
    }
    if a.shadow.NotNumeric? || a.shadow.n <= 0 || a.shadow.n >= SHADOW_EXPIRE_NEVER {
      return None;
    }
    item := Some(Entry(a.dn, FromShadow, At(DayStart(a.shadow.n)), if opts.includeShadowExpire then Migrate else Skip));
  }

  /** The accounts once the first i are done. */
  ghost predicate Reached(accounts: seq<Account>, listed: seq<Account>, i: nat, opts: Options, now: Instant, refused: set<nat>)
    requires i <= |listed|
  {
    && |accounts| == |listed| && accounts[i..] == listed[i..]
    && forall j :: 0 <= j < i ==> accounts[j] == Written(listed[j], opts, now, j in refused)
  }

  lemma ReachedNext(accounts: seq<Account>, listed: seq<Account>, i: nat, opts: Options, now: Instant, refused: set<nat>)
    requires i < |listed| && Reached(accounts, listed, i, opts, now, refused)
    ensures accounts[i] == listed[i]
    ensures Reached(accounts[i := Written(listed[i], opts, now, i in refused)], listed, i + 1, opts, now, refused)
  {
    assert accounts[i] == accounts[i..][0] == listed[i..][0];
    assert accounts[i + 1..] == accounts[i..][1..] == listed[i..][1..];
  }

  class Directory {
    const scheduledExpiry: bool
    var accounts: seq<Account>

    constructor (scheduledExpiry: bool, accounts: seq<Account>)
      ensures this.scheduledExpiry == scheduledExpiry && this.accounts == accounts
    {
      this.scheduledExpiry, this.accounts := scheduledExpiry, accounts;
    }

    /** Sets pwdEndTime and drops the lock it came from; one modify, all or nothing. */
    method WriteMigratedExpiry(i: nat, from: Source, to: End, refused: bool) returns (ok: bool)
      requires i < |accounts|
      modifies this
      ensures ok == !refused
      ensures accounts == if refused then old(accounts) else
                old(accounts)[i := old(accounts)[i].(
                  end := to, lock := if from.FromLock? then Absent else old(accounts)[i].lock)]
    {
      if refused {
        return false;
      }
      var a := accounts[i];
      a := a.(end := to);
      if from.FromLock? {
        a := a.(lock := Absent);
      }
      accounts := accounts[i := a];
      ok := true;
    }

    /** One account of the run: its entry, and its write when there is one to make. */
    method MigrateOne(i: nat, opts: Options, now: Instant, refused: bool) returns (item: Option<Entry>)
      requires i < |accounts|
      modifies this
      ensures item == EntryFor(old(accounts)[i], opts, now, refused)
      ensures accounts == old(accounts)[i := Written(old(accounts)[i], opts, now, refused)]
    {
      item := Intend(accounts[i], opts, now);
      if item.Some? && item.value.action == Migrate && opts.apply {
        var ok := WriteMigratedExpiry(i, item.value.from, item.value.to, refused);
        if !ok {
          item := Some(item.value.(action := Error));
        }
      }
    }

    /** `refused` are the positions whose write the directory refuses. */
    method MigrateAccountExpiry(opts: Options, now: Instant, listFails: bool, refused: set<nat>)
      returns (r: Result<Report>)
      modifies this
      ensures r.Err? <==> !scheduledExpiry || listFails
      ensures r.Err? ==> accounts == old(accounts)
      ensures r.Ok? ==>
                && |accounts| == |old(accounts)|
                && (forall i :: 0 <= i < |accounts| ==>
                      accounts[i] == Written(old(accounts)[i], opts, now, i in refused))
                && r.value.entries == Entries(old(accounts), opts, now, refused)
                && r.value.applied == opts.apply && Tallied(r.value)
    {
      if !scheduledExpiry {
        return Err("scheduled expiry is not supported");
      }
      if listFails {
        return Err("list users");
      }
      var listed := accounts;
      var report := Report(opts.apply, 0, 0, 0, []);
      for i := 0 to |listed|
        invariant Reached(accounts, listed, i, opts, now, refused)
        invariant report.applied == opts.apply && Tallied(report)
        invariant report.entries == Entries(listed[..i], opts, now, refused)
      {
        ghost var before := accounts;
        var item := MigrateOne(i, opts, now, i in refused);
        ReachedNext(before, listed, i, opts, now, refused);
        EntriesNext(listed, i, opts, now, refused);
        ReportedTallied(report, item);
        report := Reported(report, item);
      }
      assert listed[..|listed|] == listed;
      r := Ok(report);
    }
  }

  // ---- what a run reports ----

  lemma {:induction false} TalliesSum(entries: seq<Entry>)
    ensures Tally(entries, Migrate) + Tally(entries, Skip) + Tally(entries, Error) == |entries|
  {
    if entries != [] {
      TalliesSum(entries[..|entries| - 1]);
    }
  }

  /** A dry run reports what an applied run in which every write goes through reports. */
  lemma {:induction false} DryRunForetells(accounts: seq<Account>, opts: Options, now: Instant, refused: set<nat>)
    ensures Entries(accounts, opts.(apply := false), now, refused)
         == Entries(accounts, opts.(apply := true), now, {})
  {
    if accounts != [] {
      DryRunForetells(accounts[..|accounts| - 1], opts, now, refused);
    }
  }

  /** Position by position, these are the accounts a run leaves behind. */
  ghost predicate LeftBy(after: seq<Account>, before: seq<Account>, opts: Options, now: Instant, refused: set<nat>) {
    && |after| == |before|
    && forall i :: 0 <= i < |before| ==> after[i] == Written(before[i], opts, now, i in refused)
  }

  lemma DryRunChangesNothing(after: seq<Account>, before: seq<Account>, opts: Options, now: Instant, refused: set<nat>)
    requires LeftBy(after, before, opts, now, refused) && !opts.apply
    ensures after == before
  {
  }

  ghost function Skips(entries: seq<Entry>): seq<Entry> {
    if entries == [] then []
    else
      var before := Skips(entries[..|entries| - 1]);
      if entries[|entries| - 1].action.Skip? then before + [entries[|entries| - 1]] else before
  }

  /** What is left of one account's entry for a later run: nothing once migrated, a skip as
      it was, and a refused write taken up afresh. */
  ghost function Leftover(a: Account, opts: Options, now: Instant, later: Instant, refused: bool, refusedAgain: bool): Option<Entry> {
    match EntryFor(a, opts, now, refused)
    case None => None
    case Some(e) =>
      match e.action
      case Migrate => None
      case Skip => Some(e)
      case Error => EntryFor(a, opts, later, refusedAgain)
  }

  ghost function Leftovers(accounts: seq<Account>, opts: Options, now: Instant, later: Instant, refused: set<nat>, again: set<nat>): seq<Entry> {
    if accounts == [] then []
    else
      var n := |accounts| - 1;
      var before := Leftovers(accounts[..n], opts, now, later, refused, again);
      var e := Leftover(accounts[n], opts, now, later, n in refused, n in again);
      if e.None? then before else before + [e.value]
  }

  /** A skip never becomes a proposal later, and a migrated account proposes nothing. */
  lemma SecondLook(a: Account, opts: Options, now: Instant, later: Instant, refused: bool, refusedAgain: bool)
    requires opts.apply && now <= later
    ensures EntryFor(Written(a, opts, now, refused), opts, later, refusedAgain) == Leftover(a, opts, now, later, refused, refusedAgain)
  {
  }

  /** Run again, then or later, the migration takes up exactly what the first run left:
      its skips unchanged, and every account whose write was refused. */
  lemma {:induction false} SecondRun(
      after: seq<Account>, before: seq<Account>, opts: Options, now: Instant, later: Instant, refused: set<nat>, again: set<nat>)
    requires LeftBy(after, before, opts, now, refused) && opts.apply && now <= later
    ensures Entries(after, opts, later, again) == Leftovers(before, opts, now, later, refused, again)
  {
    if before != [] {
      var n := |before| - 1;
      SecondRun(after[..n], before[..n], opts, now, later, refused, again);
      SecondLook(before[n], opts, now, later, n in refused, n in again);
    }
  }

  /** What a second run reports against what the first one did. */
  ghost predicate Fewer(first: seq<Entry>, second: seq<Entry>) {
    && |second| == |first| - Tally(first, Migrate)
    && Tally(second, Migrate) + Tally(second, Error) <= Tally(first, Error)
    && Tally(second, Skip) >= Tally(first, Skip)
  }

  ghost predicate FewerOne(e: Option<Entry>, l: Option<Entry>) {
    match e
    case None => l.None?
    case Some(x) =>
      match x.action
      case Migrate => l.None?
      case Skip => l == e
      case Error => l.Some?
  }

  lemma FewerStill(first: seq<Entry>, second: seq<Entry>, e: Option<Entry>, l: Option<Entry>)
    requires Fewer(first, second) && FewerOne(e, l)
    ensures Fewer(Also(first, e), Also(second, l))
  {
    if e.Some? {
      TallyAppend(first, e.value, Migrate);
      TallyAppend(first, e.value, Skip);
      TallyAppend(first, e.value, Error);
    }
    if l.Some? {
      TallyAppend(second, l.value, Migrate);
      TallyAppend(second, l.value, Skip);
      TallyAppend(second, l.value, Error);
    }
  }

  /** It reports each account not migrated and no other, and writes only those refused. */
  lemma {:induction false} SecondRunCounts(before: seq<Account>, opts: Options, now: Instant, later: Instant, refused: set<nat>, again: set<nat>)
    requires opts.apply && now <= later
    ensures Fewer(Entries(before, opts, now, refused), Leftovers(before, opts, now, later, refused, again))
  {
    if before != [] {
      var n := |before| - 1;
      SecondRunCounts(before[..n], opts, now, later, refused, again);
      var e, l := EntryFor(before[n], opts, now, n in refused), Leftover(before[n], opts, now, later, n in refused, n in again);
      assert FewerOne(e, l);
      FewerStill(Entries(before[..n], opts, now, refused), Leftovers(before[..n], opts, now, later, refused, again), e, l);
    }
  }

  /** After a first run in which every write went through, it migrates nothing and fails
      nowhere: what it reports is what was skipped. */
  lemma {:induction false} SecondRunRepeatsSkips(before: seq<Account>, opts: Options, now: Instant, later: Instant, again: set<nat>)
    requires opts.apply && now <= later
    ensures Leftovers(before, opts, now, later, {}, again) == Skips(Entries(before, opts, now, {}))
  {
    if before != [] {
      var n := |before| - 1;
      SecondRunRepeatsSkips(before[..n], opts, now, later, again);
      var first, earlier := EntryFor(before[n], opts, now, false), Entries(before[..n], opts, now, {});
      if first.Some? {
        assert (earlier + [first.value])[..|earlier|] == earlier;
      }
    }
  }

  // ---- who may sign in ----

  /** Whether the directory turns the account away. */
  ghost predicate Refused(c: Client, a: Account, now: Instant) {
    Overview.Inactive(c, LockFilter.User(a.lock, a.subentry, a.end), now)
  }

  /** A lock date past its policy's duration that the run makes an expiry, or a shadow day
      already past on an account without a lock: the cases the options ask the operator for. */
  ghost predicate ShutOut(c: Client, a: Account, opts: Options, now: Instant) {
    && a.end.NoEnd?
    && if a.lock.Timed?
       then opts.includePastLocks && a.lock.plain && LockFilter.StateOf(c, LockFilter.User(a.lock, a.subentry, a.end), now) == Lifted
       else
         && opts.includeShadowExpire && a.lock.Absent?
         && a.shadow.Days? && 0 < a.shadow.n < 99999 && DayStart(a.shadow.n) <= now
  }

  /** An applied run newly refuses exactly those. */
  lemma NewlyRefusedExactly(c: Client, a: Account, opts: Options, now: Instant)
    requires opts.apply
    ensures !Refused(c, a, now) && Refused(c, Written(a, opts, now, false), now) <==> ShutOut(c, a, opts, now)
  {
    LiftedIsPast(c, a, now);
  }

  lemma LiftedIsPast(c: Client, a: Account, now: Instant)
    ensures LockFilter.StateOf(c, LockFilter.User(a.lock, a.subentry, a.end), now) == Lifted
            ==> a.lock.Timed? && a.lock.app.Some? && a.lock.app.value <= now
  {
  }

  /** Under the default options an account that works is left as it is, so it is refused
      when it would have been anyway. */
  lemma DefaultLeavesUsable(c: Client, a: Account, opts: Options, now: Instant, refused: bool)
    requires !opts.includePastLocks && !opts.includeShadowExpire && !Refused(c, a, now)
    ensures Written(a, opts, now, refused) == a
  {
    LiftedIsPast(c, a, now);
  }

  /** And what it migrates are accounts locked out before their date: they work again until
      that date, and no longer. */
  lemma DefaultRepairs(c: Client, a: Account, opts: Options, now: Instant, at: Instant)
    requires !opts.includePastLocks && !opts.includeShadowExpire
    requires Written(a, opts, now, false) != a
    ensures Refused(c, a, now) && now < a.lock.app.value
    ensures Refused(c, Written(a, opts, now, false), at) <==> a.lock.app.value <= at
  {
  }
}
