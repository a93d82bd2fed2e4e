/** The lockout scan: a poll of the directory that audits each lockout once and mails it
    until a mail goes out and is marked, whatever fails on the way. */
module LockoutScan {
  import opened Wrappers
  import opened Lockout

  /** What identifies a lockout: the entry and the instant of its lock. */
  datatype Event = Event(dn: string, at: Instant)

  /** A self-locked entry as listed; `at` is None when its timestamp cannot be read. */
  datatype Account = Account(dn: string, at: Option<Instant>)

  /** A digest handed to the mailer: whom it covers, whether it went out, who was marked. */
  datatype Attempt = Attempt(events: seq<Event>, sent: bool, marked: set<Event>)

  /** The event table (true once notified), the audit log, and the digests. */
  datatype State = State(table: map<Event, bool>, audit: seq<Event>, digests: seq<Attempt>)

  /** What the directory, the database and the mail server answer during one run. */
  datatype Env = Env(
    createFails: bool,
    listing: Option<seq<Account>>,
    pruneFails: bool,
    recordFails: set<Event>,
    auditFails: set<Event>,
    pendingFails: bool,
    recipients: seq<string>,
    sendFails: bool,
    markFails: set<Event>)

  /** Pending rows are matched by entry and second. */
  datatype Key = Key(dn: string, second: int)

  function KeyOf(e: Event): Key {
    Key(e.dn, e.at / SECOND)
  }

  /** Two lockouts share a pending row exactly if they are of one entry and within one second of
      the clock. */
  lemma KeysAlike(a: Event, b: Event)
    ensures KeyOf(a) == KeyOf(b) <==>
              a.dn == b.dn && exists s: int :: InSecond(s, a.at) && InSecond(s, b.at)
  {
    InSecondIs(a.at, KeyOf(a).second);
    InSecondIs(b.at, KeyOf(b).second);
    if s: int :| InSecond(s, a.at) && InSecond(s, b.at) {
      InSecondIs(a.at, s);
      InSecondIs(b.at, s);
    }
  }

  predicate InSecond(s: int, t: Instant) {
    s * 1_000_000_000 <= t < (s + 1) * 1_000_000_000
  }

  lemma InSecondIs(t: Instant, s: int)
    ensures InSecond(s, t) <==> t / SECOND == s
  {
  }

  // ---- one run, declaratively ----

  function Events(accounts: seq<Account>): seq<Event> {
    if accounts == [] then []
    else
      var n := |accounts| - 1;
      var before := Events(accounts[..n]);
      if accounts[n].at.Some? then before + [Event(accounts[n].dn, accounts[n].at.value)] else before
  }

  /** The lockouts listed are those whose time can be read, as often as they are listed. */
  lemma {:induction false} EventsAre(accounts: seq<Account>, e: Event)
    ensures multiset(Events(accounts))[e] == multiset(accounts)[Account(e.dn, Some(e.at))]
  {
    if accounts != [] {
      var n := |accounts| - 1;
      EventsAre(accounts[..n], e);
      assert accounts == accounts[..n] + [accounts[n]];
    }
  }

  /** And in the listing's order. */
  lemma {:induction false} EventsInOrder(accounts: seq<Account>, n: nat)
    requires n <= |accounts|
    ensures Events(accounts[..n]) <= Events(accounts)
  {
    if n < |accounts| {
      EventsInOrder(accounts[..|accounts| - 1], n);
      assert accounts[..|accounts| - 1][..n] == accounts[..n];
    } else {
      assert accounts[..n] == accounts;
    }
  }

  ghost predicate Blocked(accounts: seq<Account>, fails: set<Event>) {
    exists e :: e in Events(accounts) && e in fails
  }

  /** The events recorded before the database first fails to answer. */
  ghost function Reached(accounts: seq<Account>, fails: set<Event>): seq<Event> {
    if accounts == [] then []
    else
      var n := |accounts| - 1;
      var before := Reached(accounts[..n], fails);
      if Blocked(accounts, fails) || accounts[n].at.None? then before
      else before + [Event(accounts[n].dn, accounts[n].at.value)]
  }

  /** INSERT … ON CONFLICT DO NOTHING, for each event. */
  ghost function Inserted(table: map<Event, bool>, events: seq<Event>): map<Event, bool> {
    if events == [] then table
    else
      var t := Inserted(table, events[..|events| - 1]);
      var e := events[|events| - 1];
      if e in t then t else t[e := false]
  }

  /** The audit rows those inserts give rise to: one for each row created, where the write
      succeeds. */
  ghost function Audited(table: map<Event, bool>, events: seq<Event>, fails: set<Event>): seq<Event> {
    if events == [] then []
    else
      var before := Audited(table, events[..|events| - 1], fails);
      var e := events[|events| - 1];
      if e in Inserted(table, events[..|events| - 1]) || e in fails then before else before + [e]
  }

  ghost function Pruned(table: map<Event, bool>, held: set<Event>): map<Event, bool> {
    map e | e in table && e in held :: table[e]
  }

  ghost predicate IsPending(table: map<Event, bool>, key: Key) {
    exists e :: e in table && !table[e] && KeyOf(e) == key
  }

  /** The listed events some pending row stands for. */
  ghost function Due(table: map<Event, bool>, events: seq<Event>): seq<Event> {
    if events == [] then []
    else
      var before := Due(table, events[..|events| - 1]);
      var e := events[|events| - 1];
      if IsPending(table, KeyOf(e)) then before + [e] else before
  }

  ghost function Marked(table: map<Event, bool>, marked: set<Event>): map<Event, bool> {
    map e | e in table :: table[e] || e in marked
  }

  ghost function Elements(events: seq<Event>): set<Event> {
    set e | e in events
  }

  /** The run ends before anything could be mailed. */
  ghost predicate Aborts(env: Env) {
    env.createFails || env.listing.None? || Blocked(env.listing.value, env.recordFails) || env.pendingFails
  }

  ghost function AfterPrune(s: State, env: Env): map<Event, bool>
    requires env.listing.Some?
  {
    if env.pruneFails then s.table else Pruned(s.table, Elements(Events(env.listing.value)))
  }

  ghost function AfterRecording(s: State, env: Env): State
    requires env.listing.Some?
  {
    var reached := Reached(env.listing.value, env.recordFails);
    State(Inserted(AfterPrune(s, env), reached),
          s.audit + Audited(AfterPrune(s, env), reached, env.auditFails),
          s.digests)
  }

  ghost function MarksOf(due: seq<Event>, env: Env): set<Event> {
    if env.sendFails then {} else Elements(due) - env.markFails
  }

  ghost function AfterMailing(s: State, env: Env): State
    requires env.listing.Some?
  {
    var due := Due(s.table, Events(env.listing.value));
    if due == [] || env.recipients == [] then s
    else
      s.(table := Marked(s.table, MarksOf(due, env)),
         digests := s.digests + [Attempt(due, !env.sendFails, MarksOf(due, env))])
  }

  ghost function Scanned(s: State, env: Env): State {
    if env.createFails || env.listing.None? then s
    else if Aborts(env) then AfterRecording(s, env)
    else AfterMailing(AfterRecording(s, env), env)
  }

  // ---- the run as it happens ----

  class Scheduler {
    var running: bool
    var table: map<Event, bool>
    var audit: seq<Event>
    ghost var digests: seq<Attempt>

    ghost function Snapshot(): State
      reads this
    {
      State(table, audit, digests)
    }

    constructor ()
      ensures !running && Snapshot() == State(map[], [], [])
    {
      running, table, audit, digests := false, map[], [], [];
    }

    method PruneLockoutState(accounts: seq<Account>, fails: bool)
      modifies this`table
      ensures table == if fails then old(table) else Pruned(old(table), Elements(Events(accounts)))
    {
      var held: seq<Event> := [];
      for i := 0 to |accounts|
        invariant held == Events(accounts[..i])
      {
        assert accounts[..i + 1][..i] == accounts[..i];
        if accounts[i].at.Some? {
          held := held + [Event(accounts[i].dn, accounts[i].at.value)];
        }
      }
      assert accounts[..|accounts|] == accounts;
      if !fails {
        table := map e | e in table && e in held :: table[e];
      }
    }

    /** The insert is the test: only the call that creates the row is told so. */
    method RecordLockoutSeen(e: Event) returns (isNew: bool)
      modifies this`table
      ensures isNew == (e !in old(table))
      ensures table == if isNew then old(table)[e := false] else old(table)
    {
      isNew := e !in table;
      if isNew {
        table := table[e := false];
      }
    }

    /** The keys of the rows not yet notified. */
    method PendingLockoutNotifications() returns (pending: set<Key>)
      ensures forall k :: k in pending <==> IsPending(table, k)
    {
      pending := set e | e in table && !table[e] :: KeyOf(e);
    }

    method MarkLockoutNotified(e: Event)
      modifies this`table
      ensures table == if e in old(table) then old(table)[e := true] else old(table)
    {
      if e in table {
        table := table[e := true];
      }
    }

    /** Records one lockout, and audits it if that made it known. */
    method RecordOne(e: Event, env: Env, ghost before: map<Event, bool>, ghost log: seq<Event>, ghost reached: seq<Event>)
      requires table == Inserted(before, reached) && audit == log + Audited(before, reached, env.auditFails)
      modifies this`table, this`audit
      ensures table == Inserted(before, reached + [e])
      ensures audit == log + Audited(before, reached + [e], env.auditFails)
    {
      assert (reached + [e])[..|reached|] == reached;
      var isNew := RecordLockoutSeen(e);
      if isNew && e !in env.auditFails {
        audit := audit + [e];
      }
    }

    /** Records and audits what is new; stops where the database does not answer. */
    method RecordAll(accounts: seq<Account>, env: Env) returns (ok: bool)
      modifies this`table, this`audit
      ensures ok == !Blocked(accounts, env.recordFails)
      ensures var reached := Reached(accounts, env.recordFails);
              && table == Inserted(old(table), reached)
              && audit == old(audit) + Audited(old(table), reached, env.auditFails)
    {
      for i := 0 to |accounts|
        invariant !Blocked(accounts[..i], env.recordFails)
        invariant table == Inserted(old(table), Reached(accounts[..i], env.recordFails))
        invariant audit == old(audit) + Audited(old(table), Reached(accounts[..i], env.recordFails), env.auditFails)
      {
        assert accounts[..i + 1][..i] == accounts[..i];
        if accounts[i].at.None? {
          assert Events(accounts[..i + 1]) == Events(accounts[..i]);
          continue;
        }
        var e := Event(accounts[i].dn, accounts[i].at.value);
        assert Events(accounts[..i + 1]) == Events(accounts[..i]) + [e];
        if e in env.recordFails {
          assert e in Events(accounts[..i + 1]);
          BlockedStays(accounts, i, env.recordFails);
          return false;
        }
        RecordOne(e, env, old(table), old(audit), Reached(accounts[..i], env.recordFails));
      }
      assert accounts[..|accounts|] == accounts;
      ok := true;
    }

    /** Marks everyone the digest covers, the ones it does not describe included. */
    method MarkAll(due: seq<Event>, env: Env)
      modifies this`table
      ensures table == Marked(old(table), Elements(due) - env.markFails)
    {
      for i := 0 to |due|
        invariant table == Marked(old(table), Elements(due[..i]) - env.markFails)
      {
        assert Elements(due[..i + 1]) == Elements(due[..i]) + {due[i]};
        if due[i] !in env.markFails {
          MarkLockoutNotified(due[i]);
        }
      }
      assert due[..|due|] == due;
    }

    method SendLockoutDigest(due: seq<Event>, env: Env)
      modifies this`table, this`digests
      ensures table == Marked(old(table), MarksOf(due, env))
      ensures digests == old(digests) + [Attempt(due, !env.sendFails, MarksOf(due, env))]
    {
      digests := digests + [Attempt(due, !env.sendFails, MarksOf(due, env))];
      if env.sendFails {
        assert table == Marked(table, {});
        return;
      }
      MarkAll(due, env);
    }

    method RunLockoutScanTask(env: Env) returns (r: Result<nat>)
      modifies this
      ensures running == old(running)
      ensures Snapshot() == if old(running) then old(Snapshot()) else Scanned(old(Snapshot()), env)
      ensures r.Ok? <==> !old(running) && !Aborts(env)
      ensures r.Ok? ==> r.value == |env.listing.value|
    {
      if running {
        return Err("task already running");
      }
      running := true;
      if env.createFails {
        running := false;
        return Err("create task run");
      }
      if env.listing.None? {
        running := false;
        return Err("list locked accounts");
      }
      var locked := env.listing.value;
      PruneLockoutState(locked, env.pruneFails);
      var ok := RecordAll(locked, env);
      assert Snapshot() == AfterRecording(old(Snapshot()), env);
      if !ok || env.pendingFails {
        running := false;
        return Err("record lockout");
      }
      var pending := PendingLockoutNotifications();
      var unnotified: seq<Event> := [];
      for i := 0 to |locked|
        invariant unnotified == Due(table, Events(locked[..i]))
      {
        assert locked[..i + 1][..i] == locked[..i];
        if locked[i].at.Some? {
          var e := Event(locked[i].dn, locked[i].at.value);
          assert (Events(locked[..i]) + [e])[..|Events(locked[..i])|] == Events(locked[..i]);
          if KeyOf(e) in pending {
            unnotified := unnotified + [e];
          }
        }
      }
      assert locked[..|locked|] == locked;
      if |unnotified| > 0 && |env.recipients| > 0 {
        SendLockoutDigest(unnotified, env);
      }
      running := false;
      r := Ok(|locked|);
    }
  }

  lemma BlockedGrows(accounts: seq<Account>, fails: set<Event>)
    requires accounts != [] && Blocked(accounts[..|accounts| - 1], fails)
    ensures Blocked(accounts, fails)
    ensures Reached(accounts, fails) == Reached(accounts[..|accounts| - 1], fails)
  {
    var e :| e in Events(accounts[..|accounts| - 1]) && e in fails;
    assert e in Events(accounts);
  }

  lemma {:induction false} BlockedStays(accounts: seq<Account>, i: nat, fails: set<Event>)
    requires i < |accounts| && Blocked(accounts[..i + 1], fails)
    ensures Blocked(accounts, fails)
    ensures Reached(accounts, fails) == Reached(accounts[..i], fails)
    decreases |accounts|
  {
    var n := |accounts| - 1;
    if i == n {
      assert accounts[..i + 1] == accounts;
    } else {
      assert accounts[..n][..i + 1] == accounts[..i + 1] && accounts[..n][..i] == accounts[..i];
      BlockedStays(accounts[..n], i, fails);
      BlockedGrows(accounts, fails);
    }
  }

  // ---- what the pieces amount to ----

  lemma {:induction false} InsertedHolds(table: map<Event, bool>, events: seq<Event>, e: Event)
    ensures e in Inserted(table, events) <==> e in table || e in events
    ensures e in Inserted(table, events) ==> Inserted(table, events)[e] == (e in table && table[e])
  {
    if events != [] {
      var n := |events| - 1;
      InsertedHolds(table, events[..n], e);
      assert e in events <==> e in events[..n] || e == events[n];
    }
  }

  ghost function Copies(audit: seq<Event>, e: Event): nat {
    multiset(audit)[e]
  }

  lemma {:induction false} AuditedCopies(table: map<Event, bool>, events: seq<Event>, fails: set<Event>, e: Event)
    ensures Copies(Audited(table, events, fails), e)
         == if e in events && e !in table && e !in fails then 1 else 0
  {
    if events != [] {
      var n := |events| - 1;
      AuditedCopies(table, events[..n], fails, e);
      InsertedHolds(table, events[..n], events[n]);
      assert e in events <==> e in events[..n] || e == events[n];
    }
  }

  lemma {:induction false} DueHolds(table: map<Event, bool>, events: seq<Event>, e: Event)
    ensures e in Due(table, events) <==> e in events && IsPending(table, KeyOf(e))
  {
    if events != [] {
      var n := |events| - 1;
      DueHolds(table, events[..n], e);
      assert e in events <==> e in events[..n] || e == events[n];
    }
  }

  lemma {:induction false} ReachedIsListed(accounts: seq<Account>, fails: set<Event>)
    ensures Elements(Reached(accounts, fails)) <= Elements(Events(accounts))
    ensures !Blocked(accounts, fails) ==> Reached(accounts, fails) == Events(accounts)
  {
    if accounts != [] {
      var n := |accounts| - 1;
      ReachedIsListed(accounts[..n], fails);
      assert Elements(Events(accounts[..n])) <= Elements(Events(accounts));
      if !Blocked(accounts, fails) {
        forall e | e in Events(accounts[..n]) ensures e !in fails {
          assert e in Events(accounts);
        }
      }
    }
  }

  // ---- whole runs: audit ----

  ghost function RunAll(s: State, envs: seq<Env>): State {
    if envs == [] then s else Scanned(RunAll(s, envs[..|envs| - 1]), envs[|envs| - 1])
  }

  /** Every listing that could be read shows this lockout. */
  ghost predicate Held(e: Event, env: Env) {
    env.listing.Some? ==> e in Events(env.listing.value)
  }

  ghost predicate HeldThroughout(e: Event, envs: seq<Env>) {
    forall env :: env in envs ==> Held(e, env)
  }

  /** The run gets as far as recording this lockout. */
  ghost predicate Records(e: Event, env: Env) {
    !env.createFails && env.listing.Some? && e in Reached(env.listing.value, env.recordFails)
  }

  lemma MarkedHolds(table: map<Event, bool>, marked: set<Event>, e: Event)
    ensures e in Marked(table, marked) <==> e in table
    ensures e in table ==> Marked(table, marked)[e] == (table[e] || e in marked)
  {
  }

  /** Mailing neither forgets a lockout nor audits one. */
  lemma MailingKeeps(s: State, env: Env)
    requires !env.createFails && env.listing.Some?
    ensures Scanned(s, env).audit == AfterRecording(s, env).audit
    ensures Scanned(s, env).table.Keys == AfterRecording(s, env).table.Keys
  {
  }

  /** What one run does to one held lockout, whatever fails in it. */
  lemma AuditStep(s: State, env: Env, e: Event)
    requires Held(e, env)
    ensures e in Scanned(s, env).table <==> e in s.table || Records(e, env)
    ensures Copies(Scanned(s, env).audit, e)
         == Copies(s.audit, e) + if Records(e, env) && e !in s.table && e !in env.auditFails then 1 else 0
  {
    if !env.createFails && env.listing.Some? {
      var reached := Reached(env.listing.value, env.recordFails);
      MailingKeeps(s, env);
      InsertedHolds(AfterPrune(s, env), reached, e);
      AuditedCopies(AfterPrune(s, env), reached, env.auditFails, e);
      assert e in AfterPrune(s, env) <==> e in s.table;
    }
  }

  /** The first run that records the lockout writes its audit row. */
  ghost predicate FirstAudits(envs: seq<Env>, e: Event) {
    exists k :: 0 <= k < |envs| && Records(e, envs[k]) && e !in envs[k].auditFails && NoneRecords(envs[..k], e)
  }

  ghost predicate NoneRecords(envs: seq<Env>, e: Event) {
    forall env :: env in envs ==> !Records(e, env)
  }

  lemma FirstAuditsExtends(envs: seq<Env>, last: Env, e: Event)
    ensures FirstAudits(envs + [last], e)
       <==> FirstAudits(envs, e) || (NoneRecords(envs, e) && Records(e, last) && e !in last.auditFails)
  {
    var all := envs + [last];
    assert all[..|envs|] == envs;
    if FirstAudits(envs, e) {
      var k :| 0 <= k < |envs| && Records(e, envs[k]) && e !in envs[k].auditFails && NoneRecords(envs[..k], e);
      assert all[k] == envs[k] && all[..k] == envs[..k];
    }
    if FirstAudits(all, e) {
      var k :| 0 <= k < |all| && Records(e, all[k]) && e !in all[k].auditFails && NoneRecords(all[..k], e);
      if k < |envs| {
        assert all[k] == envs[k] && all[..k] == envs[..k];
      }
    }
    if NoneRecords(envs, e) && Records(e, last) && e !in last.auditFails {
      assert all[|envs|] == last;
    }
  }

  /** A lockout held across any sequence of runs gains one audit row if it was unknown and the
      first run to record it can write the row, and none otherwise: never two. */
  lemma {:induction false} AuditedOnce(s: State, envs: seq<Env>, e: Event)
    requires HeldThroughout(e, envs)
    ensures e in RunAll(s, envs).table <==> e in s.table || !NoneRecords(envs, e)
    ensures Copies(RunAll(s, envs).audit, e)
         == Copies(s.audit, e) + if e !in s.table && FirstAudits(envs, e) then 1 else 0
  {
    if envs != [] {
      var n := |envs| - 1;
      AuditedOnce(s, envs[..n], e);
      AuditStep(RunAll(s, envs[..n]), envs[n], e);
      FirstAuditsExtends(envs[..n], envs[n], e);
      assert envs == envs[..n] + [envs[n]];
      assert FirstAudits(envs[..n], e) ==> !NoneRecords(envs[..n], e);
    }
  }

  lemma {:induction false} SomeFirstAudits(envs: seq<Env>, e: Event)
    requires !NoneRecords(envs, e) && forall env :: env in envs ==> e !in env.auditFails
    ensures FirstAudits(envs, e)
  {
    var n := |envs| - 1;
    assert envs == envs[..n] + [envs[n]];
    if !NoneRecords(envs[..n], e) {
      SomeFirstAudits(envs[..n], e);
    }
    FirstAuditsExtends(envs[..n], envs[n], e);
  }

  /** As long as the audit log takes its rows, a new lockout that some run records is audited
      exactly once, however many runs see it. */
  lemma AuditedExactlyOnce(s: State, envs: seq<Env>, e: Event)
    requires HeldThroughout(e, envs) && e !in s.table && !NoneRecords(envs, e)
    requires forall env :: env in envs ==> e !in env.auditFails
    ensures Copies(RunAll(s, envs).audit, e) == Copies(s.audit, e) + 1
  {
    AuditedOnce(s, envs, e);
    SomeFirstAudits(envs, e);
  }

  /** Once the directory drops a lockout, a run that prunes forgets it: locking again at that
      instant would be news. */
  lemma DroppedIsForgotten(s: State, env: Env, e: Event)
    requires !env.createFails && env.listing.Some? && !env.pruneFails && e !in Events(env.listing.value)
    ensures e !in Scanned(s, env).table
  {
    var reached := Reached(env.listing.value, env.recordFails);
    ReachedIsListed(env.listing.value, env.recordFails);
    assert e !in Elements(Events(env.listing.value));
    assert e in reached ==> e in Elements(reached);
    InsertedHolds(AfterPrune(s, env), reached, e);
  }

  /** After a completed run that pruned, the table holds the readable locked set, no more and
      no less; without the prune, at most what it held before besides. */
  lemma TableIsLockedSet(s: State, env: Env)
    requires !Aborts(env)
    ensures var held := Elements(Events(env.listing.value));
            Scanned(s, env).table.Keys == if env.pruneFails then s.table.Keys + held else held
  {
    var events := Events(env.listing.value);
    var after := AfterRecording(s, env).table;
    ReachedIsListed(env.listing.value, env.recordFails);
    forall e ensures e in after <==> (env.pruneFails && e in s.table) || e in Elements(events) {
      InsertedHolds(AfterPrune(s, env), events, e);
    }
    assert Scanned(s, env).table.Keys == after.Keys;
  }

  // ---- whole runs: mail ----

  ghost predicate Notified(s: State, e: Event) {
    e in s.table && s.table[e]
  }

  /** This run has the event to mail: un-notified in the table after pruning, or newly listed. */
  ghost predicate AwaitsMail(s: State, env: Env, x: Event)
    requires env.listing.Some?
  {
    || (x in AfterPrune(s, env) && !AfterPrune(s, env)[x])
    || (x in Events(env.listing.value) && x !in AfterPrune(s, env))
  }

  /** Another event of the entry, in the same second, is to be mailed. */
  ghost predicate Rival(s: State, env: Env, e: Event) {
    env.listing.Some? && exists x :: x != e && KeyOf(x) == KeyOf(e) && AwaitsMail(s, env, x)
  }

  /** The digest a run hands to the mailer, if any. */
  ghost function AttemptOf(s: State, env: Env): Option<Attempt> {
    if Aborts(env) then None
    else
      var due := Due(AfterRecording(s, env).table, Events(env.listing.value));
      if due == [] || env.recipients == [] then None else Some(Attempt(due, !env.sendFails, MarksOf(due, env)))
  }

  lemma PendingIsAwaited(s: State, env: Env, x: Event)
    requires !Aborts(env)
    ensures var t := AfterRecording(s, env).table;
            x in t && !t[x] <==> AwaitsMail(s, env, x)
  {
    ReachedIsListed(env.listing.value, env.recordFails);
    InsertedHolds(AfterPrune(s, env), Events(env.listing.value), x);
  }

  /** Recording leaves a held lockout as notified as it was, and its key is pending for its own
      sake or for a rival's. */
  lemma RecordedTable(s: State, env: Env, e: Event)
    requires Held(e, env) && env.listing.Some?
    ensures Notified(AfterRecording(s, env), e) == Notified(s, e)
    ensures !Aborts(env) ==>
              && e in AfterRecording(s, env).table
              && (IsPending(AfterRecording(s, env).table, KeyOf(e)) <==> !Notified(s, e) || Rival(s, env, e))
  {
    InsertedHolds(AfterPrune(s, env), Reached(env.listing.value, env.recordFails), e);
    assert e in AfterPrune(s, env) <==> e in s.table;
    if !Aborts(env) {
      ReachedIsListed(env.listing.value, env.recordFails);
      forall x ensures x in AfterRecording(s, env).table && !AfterRecording(s, env).table[x] <==> AwaitsMail(s, env, x) {
        PendingIsAwaited(s, env, x);
      }
    }
  }

  /** What one run does about mailing one held lockout: a digest covers it exactly unless it was
      notified before and has no rival; it is notified after only by a digest that went out; and
      as long as it is not, every completed run with recipients makes a digest. */
  lemma MailStep(s: State, env: Env, e: Event)
    requires Held(e, env)
    ensures Scanned(s, env).digests
         == if AttemptOf(s, env).Some? then s.digests + [AttemptOf(s, env).value] else s.digests
    ensures AttemptOf(s, env).Some? ==>
              var a := AttemptOf(s, env).value;
              && (e in a.events <==> !Notified(s, e) || Rival(s, env, e))
              && a.marked <= Elements(a.events) && (a.marked != {} ==> a.sent)
    ensures Notified(Scanned(s, env), e)
       <==> Notified(s, e) || (AttemptOf(s, env).Some? && e in AttemptOf(s, env).value.marked)
    ensures !Aborts(env) && env.recipients != [] && (!Notified(s, e) || Rival(s, env, e)) ==> AttemptOf(s, env).Some?
  {
    if !env.createFails && env.listing.Some? {
      var t := AfterRecording(s, env).table;
      RecordedTable(s, env, e);
      if !Aborts(env) {
        DueHolds(t, Events(env.listing.value), e);
        MarkedHolds(t, MarksOf(Due(t, Events(env.listing.value)), env), e);
      }
    }
  }

  /** Marked by one of the digests handed over since the first `from`. */
  ghost predicate MarkedSince(digests: seq<Attempt>, from: nat, e: Event) {
    exists i :: from <= i < |digests| && e in digests[i].marked
  }

  lemma MarkedSinceExtends(digests: seq<Attempt>, a: Attempt, from: nat, e: Event)
    requires from <= |digests|
    ensures MarkedSince(digests + [a], from, e) <==> MarkedSince(digests, from, e) || e in a.marked
  {
    var all := digests + [a];
    assert all[|digests|] == a;
    if MarkedSince(digests, from, e) {
      var i :| from <= i < |digests| && e in digests[i].marked;
      assert all[i] == digests[i];
    }
  }

  /** The j-th digest covers e exactly if nothing had marked it. */
  ghost predicate CoveredAt(digests: seq<Attempt>, from: nat, e: Event, notified: bool, j: nat)
    requires j < |digests|
  {
    e in digests[j].events <==> !notified && !MarkedSince(digests[..j], from, e)
  }

  /** The digests from `from` on cover e exactly until one of them marks it. */
  ghost predicate CoveredUntilMarked(digests: seq<Attempt>, from: nat, e: Event, notified: bool) {
    forall j :: from <= j < |digests| ==> CoveredAt(digests, from, e, notified, j)
  }

  /** No digest leaves e out before one marks it. */
  ghost predicate NeverLeftOut(digests: seq<Attempt>, from: nat, e: Event, notified: bool) {
    forall j :: from <= j < |digests| && !notified && !MarkedSince(digests[..j], from, e) ==> e in digests[j].events
  }

  /** Once e is notified it has no rival in any run that could mail one. */
  ghost predicate NoRival(s: State, envs: seq<Env>, e: Event) {
    forall n :: 0 <= n < |envs| ==> NoRivalAt(s, envs, e, n)
  }

  ghost predicate NoRivalAt(s: State, envs: seq<Env>, e: Event, n: nat)
    requires n < |envs|
  {
    var before := RunAll(s, envs[..n]);
    Notified(before, e) && !Aborts(envs[n]) && envs[n].recipients != [] ==> !Rival(before, envs[n], e)
  }

  /** Over any sequence of runs a held lockout is in every digest until one that went out
      marked it, and notified exactly from then on. It is in no digest after, in any of them,
      exactly if it has no rival. */
  lemma {:induction false} MailedUntilMarked(s: State, envs: seq<Env>, e: Event)
    requires HeldThroughout(e, envs)
    ensures var after := RunAll(s, envs);
            && s.digests <= after.digests
            && (Notified(after, e) <==> Notified(s, e) || MarkedSince(after.digests, |s.digests|, e))
            && NeverLeftOut(after.digests, |s.digests|, e, Notified(s, e))
            && (CoveredUntilMarked(after.digests, |s.digests|, e, Notified(s, e)) <==> NoRival(s, envs, e))
  {
    if envs != [] {
      var n := |envs| - 1;
      MailedUntilMarked(s, envs[..n], e);
      var mid := RunAll(s, envs[..n]);
      MailStep(mid, envs[n], e);
      NoRivalLast(s, envs, e);
      if AttemptOf(mid, envs[n]).Some? {
        CoverageExtends(mid.digests, AttemptOf(mid, envs[n]).value, |s.digests|, e, Notified(s, e));
      }
    }
  }

  lemma NoRivalLast(s: State, envs: seq<Env>, e: Event)
    requires envs != []
    ensures var n := |envs| - 1;
            NoRival(s, envs, e) <==> NoRival(s, envs[..n], e) && NoRivalAt(s, envs, e, n)
  {
    var n := |envs| - 1;
    forall k | 0 <= k < n
      ensures NoRivalAt(s, envs, e, k) <==> NoRivalAt(s, envs[..n], e, k)
    {
      assert envs[..n][..k] == envs[..k];
    }
  }

  lemma CoverageExtends(digests: seq<Attempt>, a: Attempt, from: nat, e: Event, notified: bool)
    requires from <= |digests| && NeverLeftOut(digests, from, e, notified)
    requires !notified && !MarkedSince(digests, from, e) ==> e in a.events
    ensures NeverLeftOut(digests + [a], from, e, notified)
    ensures CoveredUntilMarked(digests + [a], from, e, notified)
       <==> && CoveredUntilMarked(digests, from, e, notified)
            && (e in a.events <==> !notified && !MarkedSince(digests, from, e))
    ensures MarkedSince(digests + [a], from, e) <==> MarkedSince(digests, from, e) || e in a.marked
  {
    var all, last := digests + [a], |digests|;
    MarkedSinceExtends(digests, a, from, e);
    assert all[..last] == digests && all[last] == a;
    forall j | from <= j < last
      ensures all[j] == digests[j] && all[..j] == digests[..j]
      ensures CoveredAt(all, from, e, notified, j) <==> CoveredAt(digests, from, e, notified, j)
    {
      assert all[..j] == digests[..j];
    }
    assert CoveredAt(all, from, e, notified, last)
      <==> (e in a.events <==> !notified && !MarkedSince(digests, from, e));
  }

  // ---- where there is no rival ----

  /** Nothing else on this entry falls in the same second. */
  ghost predicate Apart(e: Event, events: set<Event>) {
    forall x :: x in events && KeyOf(x) == KeyOf(e) ==> x == e
  }

  ghost predicate ApartIn(e: Event, env: Env) {
    env.listing.Some? ==> Apart(e, Elements(Events(env.listing.value)))
  }

  lemma StaysApart(s: State, env: Env, e: Event)
    requires Apart(e, s.table.Keys) && ApartIn(e, env)
    ensures Apart(e, Scanned(s, env).table.Keys) && !Rival(s, env, e)
  {
    if env.listing.Some? {
      var reached := Reached(env.listing.value, env.recordFails);
      ReachedIsListed(env.listing.value, env.recordFails);
      forall x | x in Scanned(s, env).table && KeyOf(x) == KeyOf(e)
        ensures x == e
      {
        InsertedHolds(AfterPrune(s, env), reached, x);
        assert x in reached ==> x in Elements(reached);
      }
      forall x | AwaitsMail(s, env, x) && KeyOf(x) == KeyOf(e)
        ensures x == e
      {
        assert x in Events(env.listing.value) ==> x in Elements(Events(env.listing.value));
      }
    }
  }

  /** Runs that prune see no rival as long as each listing shows the entry one lock a second. */
  lemma PruningLeavesNoRival(s: State, envs: seq<Env>, e: Event)
    requires forall env :: env in envs ==> !env.pruneFails && ApartIn(e, env)
    ensures NoRival(s, envs, e)
  {
    forall n | 0 <= n < |envs|
      ensures NoRivalAt(s, envs, e, n)
    {
      var before, env := RunAll(s, envs[..n]), envs[n];
      if env.listing.Some? {
        forall x | AwaitsMail(before, env, x) && KeyOf(x) == KeyOf(e)
          ensures x == e
        {
          assert x in Elements(Events(env.listing.value));
        }
      }
    }
  }

  /** And with the prune failing too, as long as nothing else ever shares the second. */
  lemma {:induction false} ApartHasNoRival(s: State, envs: seq<Env>, e: Event)
    requires Apart(e, s.table.Keys) && forall env :: env in envs ==> ApartIn(e, env)
    ensures NoRival(s, envs, e) && Apart(e, RunAll(s, envs).table.Keys)
  {
    if envs != [] {
      var n := |envs| - 1;
      ApartHasNoRival(s, envs[..n], e);
      StaysApart(RunAll(s, envs[..n]), envs[n], e);
      NoRivalLast(s, envs, e);
    }
  }

  // ---- where there is one ----

  /** A completed run that sees one lockout, with the prune failing. */
  function Sees(e: Event, sendFails: bool): Env {
    Env(false, Some([Account(e.dn, Some(e.at))]), true, {}, {}, false, ["admin"], sendFails, {})
  }

  lemma OneListed(a: Account, e: Event)
    requires a == Account(e.dn, Some(e.at))
    ensures Events([a]) == [e] && !Blocked([a], {})
  {
    assert [a][..0] == [];
  }

  lemma SeesIt(s: State, e: Event, sendFails: bool)
    ensures var env := Sees(e, sendFails);
            && !Aborts(env) && Held(e, env) && Events(env.listing.value) == [e]
            && AfterRecording(s, env).table == Inserted(s.table, [e])
  {
    OneListed(Account(e.dn, Some(e.at)), e);
    ReachedIsListed(Sees(e, sendFails).listing.value, {});
  }

  /** Such a run mails the lockout unless it was notified and has no rival, and notifies it if
      the mail goes out. */
  lemma SeesOne(s: State, e: Event, sendFails: bool)
    ensures var env := Sees(e, sendFails);
            && (Notified(Scanned(s, env), e) <==> Notified(s, e) || !sendFails)
            && e in Scanned(s, env).table
            && (!Notified(s, e) || Rival(s, env, e) ==>
                  AttemptOf(s, env).Some? && e in AttemptOf(s, env).value.events)
  {
    SeesIt(s, e, sendFails);
    MailStep(s, Sees(e, sendFails), e);
    InsertedHolds(s.table, [e], e);
  }

  /** It leaves every other row as it was. */
  lemma SeesNoOther(s: State, e: Event, sendFails: bool, x: Event)
    requires x != e && x in s.table
    ensures x in Scanned(s, Sees(e, sendFails)).table
    ensures Scanned(s, Sees(e, sendFails)).table[x] == s.table[x]
  {
    var env := Sees(e, sendFails);
    var due := Due(AfterRecording(s, env).table, [e]);
    SeesIt(s, e, sendFails);
    InsertedHolds(s.table, [e], x);
    DueHolds(AfterRecording(s, env).table, [e], x);
    MarkedHolds(AfterRecording(s, env).table, MarksOf(due, env), x);
  }

  ghost function Start(): State {
    State(map[], [], [])
  }

  lemma TwoRuns(a: Env, b: Env)
    ensures RunAll(Start(), [a, b]) == Scanned(Scanned(Start(), a), b)
  {
    assert [a, b][..1] == [a] && [a][..0] == [];
    assert RunAll(Start(), [a]) == Scanned(RunAll(Start(), []), a);
  }

  /** After a lock whose mail failed, the entry is locked again within the second and that one
      is mailed and marked: the first stays pending, for the prune failed. */
  lemma FirstStaysPending(first: Event, e: Event)
    requires first != e && KeyOf(first) == KeyOf(e)
    ensures var one := Scanned(Start(), Sees(first, true));
            var two := Scanned(one, Sees(e, false));
            Notified(two, e) && first in two.table && !two.table[first]
  {
    var one := Scanned(Start(), Sees(first, true));
    SeesOne(Start(), first, true);
    SeesOne(one, e, false);
    SeesNoOther(one, e, false, first);
  }

  /** So, from the empty table, for any two locks of one entry within one second: the second
      lock is mailed, marked, and mailed again by the next run that sees it. */
  lemma SharedSecondMailsAgain(first: Event, e: Event)
    requires first != e && KeyOf(first) == KeyOf(e)
    ensures var two := RunAll(Start(), [Sees(first, true), Sees(e, false)]);
            var again := AttemptOf(two, Sees(e, false));
            Notified(two, e) && again.Some? && e in again.value.events
  {
    var two := Scanned(Scanned(Start(), Sees(first, true)), Sees(e, false));
    TwoRuns(Sees(first, true), Sees(e, false));
    FirstStaysPending(first, e);
    assert AwaitsMail(two, Sees(e, false), first);
    SeesOne(two, e, false);
  }
}
