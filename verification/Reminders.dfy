/** The expiry reminders: two tasks, one rule for when a mail is due, and a table that keeps
    each reminder to one run. */
module Reminders {
  import opened Wrappers
  import opened Lockout

  const DAY: int := 86400 * SECOND
  const SHADOW_NEVER := 99999

  datatype Kind = AccountExpiration | PasswordExpiration

  datatype Interval = ThreeWeeks | OneWeek | OneDay | Expired

  /** A recorded reminder, with the exact expiry it was for. */
  datatype Row = Row(kind: Kind, dn: string, interval: Interval, exp: Instant)

  /** A mail that went out, in which run, and at what time that run looked. */
  datatype Mail = Mail(row: Row, to: string, run: nat, at: Instant)

  datatype State = State(rows: set<Row>, mails: seq<Mail>)

  /** What fails during one run: look-ups by entry, sends and records by entry and recipient. */
  datatype Env = Env(checkFails: set<string>, sendFails: set<(string, string)>, recordFails: set<(string, string)>)

  /** One user as a task sees it: when what it watches expires, and who is told. */
  datatype Job = Job(dn: string, exp: Option<Instant>, recipients: seq<string>)

  // ---- the rule ----

  /** The reminder due at `now` for something that expires at `exp`. */
  function Due(exp: Instant, now: Instant): Option<Interval> {
    if exp < now - DAY then None
    else if exp - now <= 0 then Some(Expired)
    else if exp - now <= DAY then Some(OneDay)
    else if exp - now <= 7 * DAY then Some(OneWeek)
    else if exp - now <= 21 * DAY then Some(ThreeWeeks)
    else None
  }

  /** The time left from which an interval applies, and the one that follows it. */
  function Lead(i: Interval): int {
    match i
    case ThreeWeeks => 21 * DAY
    case OneWeek => 7 * DAY
    case OneDay => DAY
    case Expired => 0
  }

  function Until(i: Interval): int {
    match i
    case ThreeWeeks => 7 * DAY
    case OneWeek => DAY
    case OneDay => 0
    case Expired => -DAY - 1
  }

  function Rank(i: Interval): nat {
    match i
    case ThreeWeeks => 0
    case OneWeek => 1
    case OneDay => 2
    case Expired => 3
  }

  /** Each interval owns one stretch of time before the expiry, the last a day after it. */
  lemma DueExactly(exp: Instant, now: Instant, i: Interval)
    ensures Due(exp, now) == Some(i) <==> Until(i) < exp - now <= Lead(i)
  {
  }

  /** In days: three weeks down to one, one week down to one day, one day down to the expiry, and
      the expiry and a day after it. Nothing is due earlier or later. */
  lemma StretchesAre(exp: Instant, now: Instant)
    ensures var day := 24 * 60 * 60 * 1_000_000_000;
            && (Due(exp, now) == Some(ThreeWeeks) <==> 7 * day < exp - now <= 21 * day)
            && (Due(exp, now) == Some(OneWeek) <==> day < exp - now <= 7 * day)
            && (Due(exp, now) == Some(OneDay) <==> 0 < exp - now <= day)
            && (Due(exp, now) == Some(Expired) <==> 0 <= now - exp <= day)
  {
  }

  /** For one expiry, later runs find the same interval or a later one. */
  lemma IntervalsAdvance(exp: Instant, now: Instant, later: Instant)
    requires now <= later && Due(exp, now).Some? && Due(exp, later).Some?
    ensures Rank(Due(exp, now).value) <= Rank(Due(exp, later).value)
  {
  }

  function DayOf(t: Instant): int {
    t / DAY
  }

  /** WasNotificationSent compares the day of the expiry, not its instant. */
  predicate SameReminder(a: Row, b: Row) {
    a.kind == b.kind && a.dn == b.dn && a.interval == b.interval && DayOf(a.exp) == DayOf(b.exp)
  }

  /** Two rows are one reminder exactly if they are about the same interval of the same thing
      for the same entry, and some day holds both expiries. */
  lemma SameReminderExactly(a: Row, b: Row)
    ensures SameReminder(a, b) <==>
            && a.kind == b.kind && a.dn == b.dn && a.interval == b.interval
            && exists d: int :: OnDay(d, a.exp) && OnDay(d, b.exp)
  {
    DayOfIs(a.exp, DayOf(a.exp));
    DayOfIs(b.exp, DayOf(b.exp));
    if d: int :| OnDay(d, a.exp) && OnDay(d, b.exp) {
      DayOfIs(a.exp, d);
      DayOfIs(b.exp, d);
    }
  }

  /** Day d, counted from the start of 1970, in nanoseconds. */
  predicate OnDay(d: int, t: Instant) {
    d * 86_400_000_000_000 <= t < (d + 1) * 86_400_000_000_000
  }

  lemma DayOfIs(t: Instant, d: int)
    ensures OnDay(d, t) <==> DayOf(t) == d
  {
  }

  ghost predicate WasSent(rows: set<Row>, row: Row) {
    exists r :: r in rows && SameReminder(r, row)
  }

  // ---- one run, declaratively ----

  /** The row a job asks for, if it asks for one. */
  function Wanted(kind: Kind, job: Job, now: Instant): Option<Row> {
    if job.exp.None? || Due(job.exp.value, now).None? then None
    else Some(Row(kind, job.dn, Due(job.exp.value, now).value, job.exp.value))
  }

  /** Mails for one row; each that goes out is recorded, if the record goes through. */
  ghost function Told(s: State, row: Row, recipients: seq<string>, env: Env, run: nat, now: Instant): State {
    if recipients == [] then s
    else
      var n := |recipients| - 1;
      var before := Told(s, row, recipients[..n], env, run, now);
      if (row.dn, recipients[n]) in env.sendFails then before
      else
        State(
          if (row.dn, recipients[n]) in env.recordFails then before.rows else before.rows + {row},
          before.mails + [Mail(row, recipients[n], run, now)])
  }

  ghost function Handled(s: State, kind: Kind, job: Job, env: Env, run: nat, now: Instant): State {
    var row := Wanted(kind, job, now);
    if row.None? || job.dn in env.checkFails || WasSent(s.rows, row.value) then s
    else Told(s, row.value, job.recipients, env, run, now)
  }

  ghost function Worked(s: State, kind: Kind, jobs: seq<Job>, env: Env, run: nat, now: Instant): State {
    if jobs == [] then s
    else
      var n := |jobs| - 1;
      Handled(Worked(s, kind, jobs[..n], env, run, now), kind, jobs[n], env, run, now)
  }

  // ---- who is told about what ----

  datatype AccountUser = AccountUser(dn: string, end: Option<Instant>)

  ghost function AccountJobs(users: seq<AccountUser>, admins: seq<string>): seq<Job> {
    seq(|users|, i requires 0 <= i < |users| => Job(users[i].dn, users[i].end, admins))
  }

  datatype PasswordUser = PasswordUser(
    dn: string, mail: string, changed: Option<Instant>, subentry: string, shadowLastChange: int, shadowMax: int)

  datatype AgePolicy = AgePolicy(dn: string, maxAge: int)

  /** When a password expires: under the policy named on the entry if it states an age and the
      change time reads, else by the shadow fields. */
  ghost function PasswordExpiry(u: PasswordUser, ages: map<string, int>): Option<Instant> {
    if u.changed.Some? && u.subentry != "" && u.subentry in ages && ages[u.subentry] > 0
    then Some(u.changed.value + ages[u.subentry] * SECOND)
    else if u.shadowLastChange > 0 && 0 < u.shadowMax < SHADOW_NEVER
    then Some(u.shadowLastChange * DAY + u.shadowMax * DAY)
    else None
  }

  /** Some rule limits the age of this password: its policy's, or only then the shadow fields'. */
  ghost predicate PolicyLimits(u: PasswordUser, ages: map<string, int>) {
    u.changed.Some? && u.subentry != "" && u.subentry in ages && ages[u.subentry] > 0
  }

  ghost predicate ShadowLimits(u: PasswordUser) {
    u.shadowLastChange > 0 && 0 < u.shadowMax < 99999
  }

  /** The password has reached the age its rule allows: in seconds since the change under a
      policy, in days since the day of the change under the shadow fields. */
  ghost predicate TooOld(u: PasswordUser, ages: map<string, int>, at: Instant) {
    if PolicyLimits(u, ages) then at - u.changed.value >= ages[u.subentry] * SECOND
    else ShadowLimits(u) && DayOf(at) - u.shadowLastChange >= u.shadowMax
  }

  /** The expiry is the first instant at which the password is too old, and there is none
      exactly if it never will be. */
  lemma ExpiryIsTooOld(u: PasswordUser, ages: map<string, int>, at: Instant)
    ensures TooOld(u, ages, at) <==> PasswordExpiry(u, ages).Some? && PasswordExpiry(u, ages).value <= at
    ensures PasswordExpiry(u, ages).None? <==> !PolicyLimits(u, ages) && !ShadowLimits(u)
  {
  }

  ghost function PasswordJobs(users: seq<PasswordUser>, ages: map<string, int>): seq<Job> {
    seq(|users|, i requires 0 <= i < |users| =>
      Job(users[i].dn, if users[i].mail == "" then None else PasswordExpiry(users[i], ages), [users[i].mail]))
  }

  ghost function AgesBy(policies: seq<AgePolicy>): map<string, int> {
    if policies == [] then map[]
    else
      var n := |policies| - 1;
      AgesBy(policies[..n])[policies[n].dn := policies[n].maxAge]
  }

  /** An account run has one job for each user, in order, addressed to every admin. */
  lemma AccountJobsAre(users: seq<AccountUser>, admins: seq<string>)
    ensures var jobs := AccountJobs(users, admins);
            && |jobs| == |users|
            && forall i :: 0 <= i < |users| ==> jobs[i].dn == users[i].dn && jobs[i].exp == users[i].end && jobs[i].recipients == admins
  {
  }

  /** A password run has one for each user, addressed to that user alone, and asks nothing for a
      user without an address or whose password never gets too old. */
  lemma PasswordJobsAre(users: seq<PasswordUser>, ages: map<string, int>, i: nat, at: Instant)
    requires i < |users|
    ensures var jobs := PasswordJobs(users, ages);
            && |jobs| == |users| && jobs[i].dn == users[i].dn && jobs[i].recipients == [users[i].mail]
            && (jobs[i].exp.Some? && jobs[i].exp.value <= at <==> users[i].mail != "" && TooOld(users[i], ages, at))
  {
    ExpiryIsTooOld(users[i], ages, at);
  }

  /** An age is known exactly for the policies listed; of several with one DN the last counts. */
  lemma {:induction false} AgesAre(policies: seq<AgePolicy>, dn: string)
    ensures dn in AgesBy(policies) <==> exists p :: p in policies && p.dn == dn
    ensures forall i :: 0 <= i < |policies| && policies[i].dn == dn && (forall j :: i < j < |policies| ==> policies[j].dn != dn) ==>
              dn in AgesBy(policies) && AgesBy(policies)[dn] == policies[i].maxAge
  {
    if policies != [] {
      var n := |policies| - 1;
      AgesAre(policies[..n], dn);
      assert policies == policies[..n] + [policies[n]];
    }
  }

  // ---- the tasks as they run ----

  /** Tries the policy first and the shadow fields only where it gave nothing. */
  method ExpiryOf(u: PasswordUser, ages: map<string, int>) returns (exp: Option<Instant>)
    ensures exp == PasswordExpiry(u, ages)
    ensures forall at: Instant :: TooOld(u, ages, at) <==> exp.Some? && exp.value <= at
  {
    forall at: Instant ensures TooOld(u, ages, at) <==> PasswordExpiry(u, ages).Some? && PasswordExpiry(u, ages).value <= at {
      ExpiryIsTooOld(u, ages, at);
    }
    exp := None;
    if u.changed.Some? && u.subentry != "" {
      if u.subentry in ages && ages[u.subentry] > 0 {
        exp := Some(u.changed.value + ages[u.subentry] * SECOND);
      }
    }
    if exp.None? && u.shadowLastChange > 0 && u.shadowMax > 0 && u.shadowMax < SHADOW_NEVER {
      exp := Some(u.shadowLastChange * DAY + u.shadowMax * DAY);
    }
  }

  class Scheduler {
    var running: set<Kind>
    var rows: set<Row>
    ghost var mails: seq<Mail>

    ghost function Snapshot(): State
      reads this
    {
      State(rows, mails)
    }

    constructor ()
      ensures running == {} && Snapshot() == State({}, [])
    {
      running, rows, mails := {}, {}, [];
    }

    /** Tells the recipients of one reminder, unless it was sent before. */
    method Remind(kind: Kind, job: Job, env: Env, run: nat, now: Instant)
      modifies this`rows, this`mails
      ensures Snapshot() == Handled(old(Snapshot()), kind, job, env, run, now)
    {
      if job.exp.None? {
        return;
      }
      var exp := job.exp.value;
      if exp < now - DAY {
        return;
      }
      var left := exp - now;
      var interval;
      if left <= 0 {
        interval := Expired;
      } else if left <= DAY {
        interval := OneDay;
      } else if left <= 7 * DAY {
        interval := OneWeek;
      } else if left <= 21 * DAY {
        interval := ThreeWeeks;
      } else {
        return;
      }
      var row := Row(kind, job.dn, interval, exp);
      if job.dn in env.checkFails || exists r :: r in rows && SameReminder(r, row) {
        return;
      }
      for i := 0 to |job.recipients|
        invariant Snapshot() == Told(old(Snapshot()), row, job.recipients[..i], env, run, now)
      {
        assert job.recipients[..i + 1][..i] == job.recipients[..i];
        var to := job.recipients[i];
        if (job.dn, to) in env.sendFails {
          continue;
        }
        mails := mails + [Mail(row, to, run, now)];
        if (job.dn, to) !in env.recordFails {
          rows := rows + {row};
        }
      }
      assert job.recipients[..|job.recipients|] == job.recipients;
    }

    method RunAccountExpirationTask(
        users: Option<seq<AccountUser>>, supported: bool, admins: seq<string>,
        createFails: bool, env: Env, run: nat, now: Instant)
      returns (ok: bool)
      modifies this
      ensures running == old(running)
      ensures ok == (AccountExpiration !in old(running) && !createFails && (supported ==> users.Some?))
      ensures Snapshot()
           == if ok && supported && admins != []
              then Worked(old(Snapshot()), AccountExpiration, AccountJobs(users.value, admins), env, run, now)
              else old(Snapshot())
    {
      if AccountExpiration in running {
        return false;
      }
      if createFails {
        return false;
      }
      if !supported {
        return true;
      }
      if users.None? {
        return false;
      }
      if |admins| == 0 {
        return true;
      }
      running := running + {AccountExpiration};
      var listed := users.value;
      ghost var jobs := AccountJobs(listed, admins);
      for i := 0 to |listed|
        invariant running == old(running) + {AccountExpiration}
        invariant Snapshot() == Worked(old(Snapshot()), AccountExpiration, jobs[..i], env, run, now)
      {
        assert jobs[..i + 1][..i] == jobs[..i];
        if listed[i].end.None? {
          continue;
        }
        Remind(AccountExpiration, Job(listed[i].dn, listed[i].end, admins), env, run, now);
      }
      assert jobs[..|listed|] == jobs;
      running := running - {AccountExpiration};
      ok := true;
    }

    method RunPasswordExpirationTask(
        users: Option<seq<PasswordUser>>, policies: Option<seq<AgePolicy>>,
        createFails: bool, env: Env, run: nat, now: Instant)
      returns (ok: bool)
      modifies this
      ensures running == old(running)
      ensures ok == (PasswordExpiration !in old(running) && !createFails && users.Some?)
      ensures var ages := if policies.None? then map[] else AgesBy(policies.value);
              Snapshot() == if ok then Worked(old(Snapshot()), PasswordExpiration, PasswordJobs(users.value, ages), env, run, now)
                            else old(Snapshot())
    {
      if PasswordExpiration in running || createFails || users.None? {
        return false;
      }
      running := running + {PasswordExpiration};
      var ages := map[];
      if policies.Some? {
        for i := 0 to |policies.value|
          invariant ages == AgesBy(policies.value[..i])
        {
          assert policies.value[..i + 1][..i] == policies.value[..i];
          ages := ages[policies.value[i].dn := policies.value[i].maxAge];
        }
        assert policies.value[..|policies.value|] == policies.value;
      }
      var listed := users.value;
      ghost var jobs := PasswordJobs(listed, ages);
      for i := 0 to |listed|
        invariant running == old(running) + {PasswordExpiration}
        invariant Snapshot() == Worked(old(Snapshot()), PasswordExpiration, jobs[..i], env, run, now)
      {
        assert jobs[..i + 1][..i] == jobs[..i];
        var u := listed[i];
        if u.mail == "" {
          continue;
        }
        var exp := ExpiryOf(u, ages);
        if exp.None? {
          continue;
        }
        Remind(PasswordExpiration, Job(u.dn, exp, [u.mail]), env, run, now);
      }
      assert jobs[..|listed|] == jobs;
      running := running - {PasswordExpiration};
      ok := true;
    }
  }

  // ---- whole runs ----

  datatype Run = Run(kind: Kind, jobs: seq<Job>, env: Env, now: Instant)

  /** Runs of either task, one after another, numbered as they come. */
  ghost function RunAll(s: State, runs: seq<Run>): State {
    if runs == [] then s
    else
      var n := |runs| - 1;
      Worked(RunAll(s, runs[..n]), runs[n].kind, runs[n].jobs, runs[n].env, n, runs[n].now)
  }

  ghost predicate NowAdvances(runs: seq<Run>) {
    forall i, j :: 0 <= i <= j < |runs| ==> runs[i].now <= runs[j].now
  }

  /** The mails of one reminder (kind, user, interval, day of the expiry) share a run. */
  ghost predicate OneRound(mails: seq<Mail>) {
    forall m, o :: m in mails && o in mails && SameReminder(m.row, o.row) ==> m.run == o.run
  }

  /** The mail belongs to the run it names and was due then. */
  ghost predicate MailOf(m: Mail, runs: seq<Run>) {
    m.run < |runs| && m.at == runs[m.run].now && Due(m.row.exp, m.at) == Some(m.row.interval)
  }

  ghost predicate MailedIn(mails: seq<Mail>, n: nat, k: Row) {
    exists m :: m in mails && m.run == n && SameReminder(m.row, k)
  }

  /** Some mail of this job goes through. */
  ghost predicate Tells(job: Job, env: Env) {
    exists to :: to in job.recipients && (job.dn, to) !in env.sendFails
  }

  /** Some mail of this job goes through and is recorded. */
  ghost predicate Records(job: Job, env: Env) {
    exists to :: to in job.recipients && (job.dn, to) !in env.sendFails && (job.dn, to) !in env.recordFails
  }

  /** This job has the reminder due, its look-up answers and a mail goes through. */
  ghost predicate JobAsks(kind: Kind, job: Job, env: Env, now: Instant, k: Row) {
    && Wanted(kind, job, now).Some? && SameReminder(Wanted(kind, job, now).value, k)
    && job.dn !in env.checkFails && Tells(job, env)
  }

  ghost predicate Asks(kind: Kind, jobs: seq<Job>, env: Env, now: Instant, k: Row) {
    exists job :: job in jobs && JobAsks(kind, job, env, now, k)
  }

  // ---- what one run does about one reminder ----

  lemma {:induction false} ToldAdds(
      s: State, row: Row, recipients: seq<string>, env: Env, run: nat, now: Instant)
    ensures var t := Told(s, row, recipients, env, run, now);
            && s.rows <= t.rows <= s.rows + {row}
            && s.mails <= t.mails
            && (forall m :: m in t.mails && m !in s.mails ==> m.row == row && m.run == run && m.at == now)
            && (t.mails == s.mails ==> t.rows == s.rows)
            && (t.mails != s.mails ==> exists to :: to in recipients && (row.dn, to) !in env.sendFails)
            && (t.mails != s.mails ==> exists m :: m in t.mails && m.row == row && m.run == run)
  {
    if recipients != [] {
      var n := |recipients| - 1;
      ToldAdds(s, row, recipients[..n], env, run, now);
      if Told(s, row, recipients[..n], env, run, now).mails != s.mails {
        var to :| to in recipients[..n] && (row.dn, to) !in env.sendFails;
        assert to in recipients;
      }
      if (row.dn, recipients[n]) !in env.sendFails {
        assert recipients[n] in recipients;
        assert Mail(row, recipients[n], run, now) in Told(s, row, recipients, env, run, now).mails;
      }
    }
  }

  /** From `s` to `t`, one job was handled or several were. */
  ghost predicate Grows(s: State, t: State, n: nat, now: Instant) {
    && s.rows <= t.rows
    && (forall m :: m in s.mails ==> m in t.mails)
    && (forall m :: m in t.mails && m !in s.mails ==>
          m.run == n && m.at == now && Due(m.row.exp, now) == Some(m.row.interval))
  }

  lemma SentLike(rows: set<Row>, a: Row, k: Row)
    requires SameReminder(a, k)
    ensures WasSent(rows, a) <==> WasSent(rows, k)
  {
    if WasSent(rows, a) {
      var r :| r in rows && SameReminder(r, a);
      assert SameReminder(r, k);
    }
    if WasSent(rows, k) {
      var r :| r in rows && SameReminder(r, k);
      assert SameReminder(r, a);
    }
  }

  lemma HandledFor(s: State, kind: Kind, job: Job, env: Env, n: nat, now: Instant, k: Row)
    ensures var t := Handled(s, kind, job, env, n, now);
            && Grows(s, t, n, now)
            && ((exists m :: m in t.mails && m !in s.mails && SameReminder(m.row, k)) ==>
                  !WasSent(s.rows, k) && JobAsks(kind, job, env, now, k))
            && (WasSent(t.rows, k) && !WasSent(s.rows, k) ==> MailedIn(t.mails, n, k))
            && (JobAsks(kind, job, env, now, k) && !WasSent(s.rows, k) ==> MailedIn(t.mails, n, k))
            && (JobAsks(kind, job, env, now, k) && Records(job, env) ==> WasSent(t.rows, k))
  {
    var wanted := Wanted(kind, job, now);
    if wanted.Some? {
      var row := wanted.value;
      if SameReminder(row, k) {
        SentLike(s.rows, row, k);
      }
      if job.dn !in env.checkFails && !WasSent(s.rows, row) {
        ToldAdds(s, row, job.recipients, env, n, now);
        if Tells(job, env) {
          var to :| to in job.recipients && (job.dn, to) !in env.sendFails;
          ToldReaches(s, row, job.recipients, env, n, now, to);
        }
        if Records(job, env) {
          var to :| to in job.recipients && (job.dn, to) !in env.sendFails && (job.dn, to) !in env.recordFails;
          ToldReaches(s, row, job.recipients, env, n, now, to);
        }
      }
    }
  }

  /** Of every reminder: a run mails it only if it was not recorded before and some job asks
      for it; it does if one does; and recording it is mailing it. */
  lemma {:induction false} WorkedFor(s: State, kind: Kind, jobs: seq<Job>, env: Env, n: nat, now: Instant, k: Row)
    requires forall m :: m in s.mails ==> m.run < n
    ensures var t := Worked(s, kind, jobs, env, n, now);
            && Grows(s, t, n, now)
            && (MailedIn(t.mails, n, k) <==> !WasSent(s.rows, k) && Asks(kind, jobs, env, now, k))
            && (WasSent(t.rows, k) && !WasSent(s.rows, k) ==> MailedIn(t.mails, n, k))
  {
    if jobs != [] {
      var last := |jobs| - 1;
      var mid := Worked(s, kind, jobs[..last], env, n, now);
      WorkedFor(s, kind, jobs[..last], env, n, now, k);
      HandledFor(mid, kind, jobs[last], env, n, now, k);
      AsksLast(kind, jobs, env, now, k);
      StaysMailed(mid, Handled(mid, kind, jobs[last], env, n, now), n, now, k);
      if WasSent(s.rows, k) {
        var r :| r in s.rows && SameReminder(r, k);
        assert r in mid.rows;
      }
    }
  }

  lemma AsksLast(kind: Kind, jobs: seq<Job>, env: Env, now: Instant, k: Row)
    requires jobs != []
    ensures var last := |jobs| - 1;
            Asks(kind, jobs, env, now, k)
            <==> Asks(kind, jobs[..last], env, now, k) || JobAsks(kind, jobs[last], env, now, k)
  {
    var last := |jobs| - 1;
    assert jobs == jobs[..last] + [jobs[last]];
    assert jobs[last] in jobs;
  }

  lemma StaysMailed(s: State, t: State, n: nat, now: Instant, k: Row)
    requires Grows(s, t, n, now)
    ensures MailedIn(s.mails, n, k) ==> MailedIn(t.mails, n, k)
  {
    if MailedIn(s.mails, n, k) {
      var m :| m in s.mails && m.run == n && SameReminder(m.row, k);
      assert m in t.mails;
    }
  }

  // ---- over all runs ----

  /** The state before the n-th run. */
  ghost function Before(s: State, runs: seq<Run>, n: nat): State
    requires n <= |runs|
  {
    RunAll(s, runs[..n])
  }

  ghost predicate Asked(run: Run, k: Row) {
    Asks(run.kind, run.jobs, run.env, run.now, k)
  }

  lemma BeforeNext(s: State, runs: seq<Run>, n: nat)
    requires n < |runs|
    ensures Before(s, runs, n + 1)
         == Worked(Before(s, runs, n), runs[n].kind, runs[n].jobs, runs[n].env, n, runs[n].now)
  {
    assert runs[..n + 1][..n] == runs[..n];
  }

  lemma {:induction false} MailsAreDue(s: State, runs: seq<Run>, n: nat)
    requires s.mails == [] && n <= |runs|
    ensures forall m :: m in Before(s, runs, n).mails ==> m.run < n && MailOf(m, runs)
  {
    if n > 0 {
      MailsAreDue(s, runs, n - 1);
      BeforeNext(s, runs, n - 1);
      var any := Row(AccountExpiration, "", Expired, 0);
      WorkedFor(Before(s, runs, n - 1), runs[n - 1].kind, runs[n - 1].jobs, runs[n - 1].env, n - 1, runs[n - 1].now, any);
    }
  }

  /** One run and one reminder, within a sequence of runs. */
  lemma RunFor(s: State, runs: seq<Run>, n: nat, k: Row)
    requires s.mails == [] && n < |runs|
    ensures var before, after := Before(s, runs, n), Before(s, runs, n + 1);
            && Grows(before, after, n, runs[n].now)
            && (MailedIn(after.mails, n, k) <==> !WasSent(before.rows, k) && Asked(runs[n], k))
            && (WasSent(after.rows, k) && !WasSent(before.rows, k) ==> MailedIn(after.mails, n, k))
  {
    MailsAreDue(s, runs, n);
    BeforeNext(s, runs, n);
    WorkedFor(Before(s, runs, n), runs[n].kind, runs[n].jobs, runs[n].env, n, runs[n].now, k);
  }

  lemma {:induction false} LaterRuns(s: State, runs: seq<Run>, n: nat, m: nat, k: Row)
    requires s.mails == [] && n <= m <= |runs|
    ensures Before(s, runs, n).rows <= Before(s, runs, m).rows
    ensures WasSent(Before(s, runs, n).rows, k) ==> WasSent(Before(s, runs, m).rows, k)
    ensures forall o: nat :: o < n ==>
              (MailedIn(Before(s, runs, n).mails, o, k) <==> MailedIn(Before(s, runs, m).mails, o, k))
  {
    if n < m {
      LaterRuns(s, runs, n, m - 1, k);
      RunFor(s, runs, m - 1, k);
      var mid, after := Before(s, runs, m - 1), Before(s, runs, m);
      if WasSent(mid.rows, k) {
        var r :| r in mid.rows && SameReminder(r, k);
        assert r in after.rows;
      }
      forall o: nat | o < n
        ensures MailedIn(mid.mails, o, k) <==> MailedIn(after.mails, o, k)
      {
        if MailedIn(mid.mails, o, k) {
          var x :| x in mid.mails && x.run == o && SameReminder(x.row, k);
          assert x in after.mails;
        }
      }
    }
  }

  /** The n-th run mails a reminder exactly if some job asks for it and none was recorded. */
  lemma MailedExactly(s: State, runs: seq<Run>, n: nat, k: Row)
    requires s.mails == [] && n < |runs|
    ensures MailedIn(RunAll(s, runs).mails, n, k) <==> !WasSent(Before(s, runs, n).rows, k) && Asked(runs[n], k)
  {
    RunFor(s, runs, n, k);
    LaterRuns(s, runs, n + 1, |runs|, k);
    assert runs[..|runs|] == runs;
  }

  /** Every run that mails a reminder records one of its mails, or no later run asks for it:
      has it due, its look-up answered and a mail gone through. */
  ghost predicate RecordedOrDone(s: State, runs: seq<Run>) {
    forall n: nat, m: nat, k: Row :: n < m < |runs| && MailedIn(RunAll(s, runs).mails, n, k) && Asked(runs[m], k) ==>
      WasSent(Before(s, runs, n + 1).rows, k)
  }

  /** Between being unrecorded and recorded, a reminder is mailed. */
  lemma {:induction false} RecordedByMail(s: State, runs: seq<Run>, n: nat, m: nat, k: Row) returns (o: nat)
    requires s.mails == [] && n <= m <= |runs|
    requires !WasSent(Before(s, runs, n).rows, k) && WasSent(Before(s, runs, m).rows, k)
    ensures n <= o < m && MailedIn(RunAll(s, runs).mails, o, k)
    decreases m
  {
    if WasSent(Before(s, runs, m - 1).rows, k) {
      o := RecordedByMail(s, runs, n, m - 1, k);
    } else {
      o := m - 1;
      RunFor(s, runs, o, k);
      MailedExactly(s, runs, o, k);
    }
  }

  lemma Repeats(s: State, runs: seq<Run>, n: nat, m: nat, k: Row)
    requires s.mails == [] && n < m < |runs|
    requires MailedIn(RunAll(s, runs).mails, n, k) && Asked(runs[m], k)
    requires !WasSent(Before(s, runs, n + 1).rows, k)
    ensures !OneRound(RunAll(s, runs).mails)
  {
    var o := m;
    if WasSent(Before(s, runs, m).rows, k) {
      o := RecordedByMail(s, runs, n + 1, m, k);
    } else {
      MailedExactly(s, runs, m, k);
    }
    var mails := RunAll(s, runs).mails;
    var x :| x in mails && x.run == n && SameReminder(x.row, k);
    var y :| y in mails && y.run == o && SameReminder(y.row, k);
    assert SameReminder(x.row, y.row) && x.run != y.run;
  }

  lemma MailedOnce(s: State, runs: seq<Run>, n: nat, m: nat, k: Row)
    requires s.mails == [] && n < m < |runs|
    requires Asked(runs[m], k) ==> WasSent(Before(s, runs, n + 1).rows, k)
    ensures !MailedIn(RunAll(s, runs).mails, m, k)
  {
    MailedExactly(s, runs, m, k);
    LaterRuns(s, runs, n + 1, m, k);
  }

  lemma MailHasRun(s: State, runs: seq<Run>, x: Mail)
    requires s.mails == [] && x in RunAll(s, runs).mails
    ensures x.run < |runs|
  {
    MailsAreDue(s, runs, |runs|);
    assert runs[..|runs|] == runs;
  }

  lemma NotAgain(s: State, runs: seq<Run>, n: nat, m: nat, k: Row)
    requires s.mails == [] && RecordedOrDone(s, runs) && n < m < |runs|
    requires MailedIn(RunAll(s, runs).mails, n, k)
    ensures !MailedIn(RunAll(s, runs).mails, m, k)
  {
    assert Asked(runs[m], k) ==> WasSent(Before(s, runs, n + 1).rows, k);
    MailedOnce(s, runs, n, m, k);
  }

  lemma NoRepeat(s: State, runs: seq<Run>, x: Mail, y: Mail)
    requires s.mails == [] && RecordedOrDone(s, runs)
    requires x in RunAll(s, runs).mails && y in RunAll(s, runs).mails && SameReminder(x.row, y.row)
    ensures !(x.run < y.run)
  {
    MailHasRun(s, runs, y);
    if x.run < y.run {
      assert MailedIn(RunAll(s, runs).mails, x.run, y.row);
      NotAgain(s, runs, x.run, y.run, y.row);
    }
  }

  /** Over any sequence of runs of both tasks, the mails of every reminder go out in one run
      exactly if each run that mails one records it, or is the last to ask for it. */
  lemma RemindedInOneRun(s: State, runs: seq<Run>)
    requires s.mails == []
    ensures OneRound(RunAll(s, runs).mails) <==> RecordedOrDone(s, runs)
  {
    if RecordedOrDone(s, runs) {
      forall x, y | x in RunAll(s, runs).mails && y in RunAll(s, runs).mails && SameReminder(x.row, y.row)
        ensures x.run == y.run
      {
        NoRepeat(s, runs, x, y);
        NoRepeat(s, runs, y, x);
      }
    }
    if n: nat, m: nat, k: Row :| && n < m < |runs| && MailedIn(RunAll(s, runs).mails, n, k) && Asked(runs[m], k)
                                 && !WasSent(Before(s, runs, n + 1).rows, k)
    {
      Repeats(s, runs, n, m, k);
    }
  }

  /** One record is enough: of the mails of a job that go through, one is recorded. */
  ghost predicate EachRecorded(jobs: seq<Job>, env: Env) {
    forall job :: job in jobs && Tells(job, env) ==> Records(job, env)
  }

  lemma {:induction false} RecordedFor(s: State, kind: Kind, jobs: seq<Job>, env: Env, n: nat, now: Instant, k: Row)
    requires EachRecorded(jobs, env) && Asks(kind, jobs, env, now, k)
    ensures WasSent(Worked(s, kind, jobs, env, n, now).rows, k)
  {
    var last := |jobs| - 1;
    var mid := Worked(s, kind, jobs[..last], env, n, now);
    assert forall job :: job in jobs[..last] ==> job in jobs;
    AsksLast(kind, jobs, env, now, k);
    HandledFor(mid, kind, jobs[last], env, n, now, k);
    if Asks(kind, jobs[..last], env, now, k) {
      RecordedFor(s, kind, jobs[..last], env, n, now, k);
      var r :| r in mid.rows && SameReminder(r, k);
      assert r in Handled(mid, kind, jobs[last], env, n, now).rows;
    } else {
      assert jobs[last] in jobs;
    }
  }

  lemma OneRecordIsEnough(s: State, runs: seq<Run>)
    requires s.mails == [] && forall r :: r in runs ==> EachRecorded(r.jobs, r.env)
    ensures RecordedOrDone(s, runs)
  {
    forall n: nat, m: nat, k: Row | n < m < |runs| && MailedIn(RunAll(s, runs).mails, n, k) && Asked(runs[m], k)
      ensures WasSent(Before(s, runs, n + 1).rows, k)
    {
      MailedExactly(s, runs, n, k);
      BeforeNext(s, runs, n);
      assert runs[n] in runs;
      RecordedFor(Before(s, runs, n), runs[n].kind, runs[n].jobs, runs[n].env, n, runs[n].now, k);
    }
  }

  /** The runs that mailed about one expiry of one user. */
  ghost function Rounds(mails: seq<Mail>, kind: Kind, dn: string, exp: Instant): set<nat> {
    set m | m in mails && m.row.kind == kind && m.row.dn == dn && m.row.exp == exp :: m.run
  }

  ghost function RoundsOf(mails: seq<Mail>, row: Row): set<nat> {
    set m | m in mails && m.row == row :: m.run
  }

  lemma OneRoundEach(mails: seq<Mail>, row: Row)
    requires OneRound(mails)
    ensures |RoundsOf(mails, row)| <= 1
  {
    var rounds := RoundsOf(mails, row);
    if rounds != {} {
      var n :| n in rounds;
      assert rounds == {n};
    }
  }

  /** With time not running backwards, the rounds about one expiry take its intervals in
      order, and there are at most four. */
  lemma AtMostFourRounds(s: State, runs: seq<Run>, kind: Kind, dn: string, exp: Instant)
    requires s.mails == [] && RecordedOrDone(s, runs) && NowAdvances(runs)
    ensures var mails := RunAll(s, runs).mails;
            && |Rounds(mails, kind, dn, exp)| <= 4
            && (forall m, o :: && m in mails && o in mails && m.run <= o.run
                               && (m.row.kind, m.row.dn, m.row.exp) == (o.row.kind, o.row.dn, o.row.exp)
                  ==> Rank(m.row.interval) <= Rank(o.row.interval))
  {
    RemindedInOneRun(s, runs);
    MailsAreDue(s, runs, |runs|);
    assert runs[..|runs|] == runs;
    var t := RunAll(s, runs);
    FourRows(t.mails, kind, dn, exp);
    forall m, o | && m in t.mails && o in t.mails && m.run <= o.run
                  && (m.row.kind, m.row.dn, m.row.exp) == (o.row.kind, o.row.dn, o.row.exp)
      ensures Rank(m.row.interval) <= Rank(o.row.interval)
    {
      IntervalsAdvance(m.row.exp, m.at, o.at);
    }
  }

  lemma RoundsSplit(mails: seq<Mail>, kind: Kind, dn: string, exp: Instant)
    ensures Rounds(mails, kind, dn, exp)
         <= RoundsOf(mails, Row(kind, dn, ThreeWeeks, exp)) + RoundsOf(mails, Row(kind, dn, OneWeek, exp))
            + RoundsOf(mails, Row(kind, dn, OneDay, exp)) + RoundsOf(mails, Row(kind, dn, Expired, exp))
  {
    forall m | m in mails && m.row.kind == kind && m.row.dn == dn && m.row.exp == exp
      ensures m.run in RoundsOf(mails, Row(kind, dn, ThreeWeeks, exp)) + RoundsOf(mails, Row(kind, dn, OneWeek, exp))
                       + RoundsOf(mails, Row(kind, dn, OneDay, exp)) + RoundsOf(mails, Row(kind, dn, Expired, exp))
    {
      assert m.run in RoundsOf(mails, m.row);
      match m.row.interval
      case ThreeWeeks => assert m.row == Row(kind, dn, ThreeWeeks, exp);
      case OneWeek => assert m.row == Row(kind, dn, OneWeek, exp);
      case OneDay => assert m.row == Row(kind, dn, OneDay, exp);
      case Expired => assert m.row == Row(kind, dn, Expired, exp);
    }
  }

  lemma FourRows(mails: seq<Mail>, kind: Kind, dn: string, exp: Instant)
    requires OneRound(mails)
    ensures |Rounds(mails, kind, dn, exp)| <= 4
  {
    var a := RoundsOf(mails, Row(kind, dn, ThreeWeeks, exp));
    var b := RoundsOf(mails, Row(kind, dn, OneWeek, exp));
    var c := RoundsOf(mails, Row(kind, dn, OneDay, exp));
    var d := RoundsOf(mails, Row(kind, dn, Expired, exp));
    OneRoundEach(mails, Row(kind, dn, ThreeWeeks, exp));
    OneRoundEach(mails, Row(kind, dn, OneWeek, exp));
    OneRoundEach(mails, Row(kind, dn, OneDay, exp));
    OneRoundEach(mails, Row(kind, dn, Expired, exp));
    RoundsSplit(mails, kind, dn, exp);
    FourAtMost(a, b, c, d);
    SubsetSize(Rounds(mails, kind, dn, exp), a + b + c + d);
  }

  lemma FourAtMost(a: set<nat>, b: set<nat>, c: set<nat>, d: set<nat>)
    requires |a| <= 1 && |b| <= 1 && |c| <= 1 && |d| <= 1
    ensures |a + b + c + d| <= 4
  {
    assert |a + b| <= 2;
    assert |a + b + c| <= 3;
  }

  lemma {:induction false} SubsetSize(a: set<nat>, b: set<nat>)
    requires a <= b
    ensures |a| <= |b|
  {
    if a != {} {
      var n :| n in a;
      SubsetSize(a - {n}, b - {n});
    }
  }

  lemma {:induction false} ToldReaches(s: State, row: Row, recipients: seq<string>, env: Env, run: nat, now: Instant, to: string)
    requires to in recipients && (row.dn, to) !in env.sendFails
    ensures Mail(row, to, run, now) in Told(s, row, recipients, env, run, now).mails
    ensures (row.dn, to) !in env.recordFails ==> row in Told(s, row, recipients, env, run, now).rows
  {
    var n := |recipients| - 1;
    if recipients[n] != to {
      assert to in recipients[..n];
      ToldReaches(s, row, recipients[..n], env, run, now, to);
    }
  }

  /** A reminder that is due and was not sent before reaches every recipient whose mail goes
      through, whatever happens to the others. */
  lemma EveryoneIsTold(s: State, kind: Kind, job: Job, env: Env, run: nat, now: Instant, to: string)
    requires job.exp.Some? && Due(job.exp.value, now).Some?
    requires job.dn !in env.checkFails && to in job.recipients && (job.dn, to) !in env.sendFails
    requires var row := Row(kind, job.dn, Due(job.exp.value, now).value, job.exp.value);
             !WasSent(s.rows, row)
    ensures var row := Row(kind, job.dn, Due(job.exp.value, now).value, job.exp.value);
            Mail(row, to, run, now) in Handled(s, kind, job, env, run, now).mails
  {
    ToldReaches(s, Wanted(kind, job, now).value, job.recipients, env, run, now, to);
  }

  lemma {:induction false} RowsStay(s: State, row: Row, recipients: seq<string>, env: Env, run: nat, now: Instant)
    ensures s.rows <= Told(s, row, recipients, env, run, now).rows
  {
    if recipients != [] {
      RowsStay(s, row, recipients[..|recipients| - 1], env, run, now);
    }
  }

  lemma SentStays(s: State, kind: Kind, job: Job, env: Env, run: nat, now: Instant, row: Row)
    requires WasSent(s.rows, row)
    ensures WasSent(Handled(s, kind, job, env, run, now).rows, row)
  {
    var r :| r in s.rows && SameReminder(r, row);
    if Wanted(kind, job, now).Some? {
      RowsStay(s, Wanted(kind, job, now).value, job.recipients, env, run, now);
    }
    assert r in Handled(s, kind, job, env, run, now).rows;
  }

  /** A run in which nothing fails leaves nobody out: whoever is due has been reminded by its
      end, in this run or before. */
  lemma {:induction false} NobodyLeftOut(s: State, kind: Kind, jobs: seq<Job>, env: Env, run: nat, now: Instant, job: Job)
    requires env == Env({}, {}, {}) && job in jobs && job.recipients != []
    requires job.exp.Some? && Due(job.exp.value, now).Some?
    ensures WasSent(Worked(s, kind, jobs, env, run, now).rows,
                    Row(kind, job.dn, Due(job.exp.value, now).value, job.exp.value))
  {
    var n := |jobs| - 1;
    var row := Row(kind, job.dn, Due(job.exp.value, now).value, job.exp.value);
    var before := Worked(s, kind, jobs[..n], env, run, now);
    assert jobs == jobs[..n] + [jobs[n]];
    if job in jobs[..n] {
      NobodyLeftOut(s, kind, jobs[..n], env, run, now, job);
    }
    if WasSent(before.rows, row) {
      SentStays(before, kind, jobs[n], env, run, now, row);
    } else {
      ToldReaches(before, row, job.recipients, env, run, now, job.recipients[0]);
      assert SameReminder(row, row);
    }
  }

  /** A record that is lost is a reminder repeated. */
  lemma LostRecordRepeats()
    ensures exists s: State, runs: seq<Run> :: s.mails == [] && NowAdvances(runs) && !OneRound(RunAll(s, runs).mails)
  {
    var s := State({}, []);
    var env := Env({}, {}, {("uid=a", "a@x")});
    var job := Job("uid=a", Some(0), ["a@x"]);
    var run := Run(PasswordExpiration, [job], env, 0);
    var runs := [run, run];
    var row := Row(PasswordExpiration, "uid=a", Expired, 0);
    assert JobAsks(run.kind, job, env, 0, row) by {
      assert "a@x" in job.recipients;
    }
    assert job in run.jobs && Asked(run, row);
    MailedExactly(s, runs, 0, row);
    BeforeNext(s, runs, 0);
    OneJob(s, run, job, row, 0);
    Repeats(s, runs, 0, 1, row);
  }

  lemma OneJob(s: State, run: Run, job: Job, row: Row, n: nat)
    requires run.jobs == [job] && Wanted(run.kind, job, run.now) == Some(row) && s.rows == {}
    requires |job.recipients| == 1 && run.env == Env({}, {}, {(row.dn, job.recipients[0])}) && row.dn == job.dn
    ensures Worked(s, run.kind, run.jobs, run.env, n, run.now)
         == State({}, s.mails + [Mail(row, job.recipients[0], n, run.now)])
  {
    assert run.jobs[..0] == [] && job.recipients[..0] == [];
    assert Told(s, row, job.recipients[..0], run.env, n, run.now) == s;
    assert Worked(s, run.kind, run.jobs[..0], run.env, n, run.now) == s;
    assert !WasSent(s.rows, row);
  }
}
