/** Password-reset tokens: atomic statements on one table, in any interleaving. */
module ResetTokens {
  import opened Wrappers

  /** Nanoseconds. */
  type Instant = int

  const MINUTE: int := 60 * 1_000_000_000
  const WINDOW: int := 5 * MINUTE
  const TOKEN_EXPIRY: int := 24 * 60 * MINUTE
  const MAX_PER_USER := 3
  const MAX_PER_ACTOR := 20

  datatype Row = Row(user: string, actor: string, expiresAt: Instant, createdAt: Instant, used: bool)

  /** Whose issuances a cap counts. */
  datatype Who = User(dn: string) | Actor(dn: string)

  predicate Concerns(row: Row, who: Who) {
    match who
    case User(dn) => row.user == dn
    case Actor(dn) => row.actor == dn
  }

  /** Tokens by their hash. */
  type Table = map<string, Row>

  /** One SQL statement, and the database's NOW() when it runs. */
  datatype Statement =
    | Revoke(user: string)
    | Insert(hash: string, user: string, actor: string, expiresAt: Instant)
    | Consume(hash: string)
    | Cleanup
    | Count(who: Who)

  datatype Event = Event(stmt: Statement, at: Instant)

  predicate Redeemable(table: Table, hash: string, now: Instant) {
    hash in table && !table[hash].used && table[hash].expiresAt > now
  }

  // ---- the statements ----

  function Retired(row: Row, user: string, now: Instant): Row {
    if row.user == user && !row.used && row.expiresAt > now then row.(used := true) else row
  }

  function After(table: Table, e: Event): Table {
    match e.stmt
    case Revoke(user) => map h | h in table :: Retired(table[h], user, e.at)
    case Insert(hash, user, actor, expiresAt) =>
      if hash in table then table else table[hash := Row(user, actor, expiresAt, e.at, false)]
    case Consume(hash) => if Redeemable(table, hash, e.at) then table[hash := table[hash].(used := true)] else table
    case Cleanup => map h | h in table && table[h].expiresAt >= e.at :: table[h]
    case Count(_) => table
  }

  function Recent(table: Table, who: Who, now: Instant): set<string> {
    set h | h in table && Concerns(table[h], who) && table[h].createdAt > now - WINDOW
  }

  ghost function Tokens(history: seq<Event>): Table {
    if history == [] then map[] else After(Tokens(history[..|history| - 1]), history[|history| - 1])
  }

  // ---- histories ----

  /** The database's clock does not run backwards. */
  ghost predicate Ordered(history: seq<Event>) {
    forall i, j :: 0 <= i <= j < |history| ==> history[i].at <= history[j].at
  }

  ghost predicate NotBefore(history: seq<Event>, now: Instant) {
    forall j :: 0 <= j < |history| ==> history[j].at <= now
  }

  /** No two tokens are alike. */
  ghost predicate Fresh(history: seq<Event>) {
    forall i, j :: 0 <= i < j < |history| && history[i].stmt.Insert? && history[j].stmt.Insert? ==>
      history[i].stmt.hash != history[j].stmt.hash
  }

  /** The statement at n leaves this token alone. */
  ghost predicate Spares(e: Event, issued: Statement)
    requires issued.Insert?
  {
    e.stmt != Revoke(issued.user) && e.stmt != Consume(issued.hash)
  }

  /** No statement between the insert at i and position n revoked or consumed its token. */
  ghost predicate Untouched(history: seq<Event>, i: nat, n: nat)
    requires i < n <= |history| && history[i].stmt.Insert?
  {
    forall j {:trigger Spares(history[j], history[i].stmt)} :: i < j < n ==> Spares(history[j], history[i].stmt)
  }

  lemma {:induction false} NotIssued(history: seq<Event>, hash: string)
    requires forall i :: 0 <= i < |history| && history[i].stmt.Insert? ==> history[i].stmt.hash != hash
    ensures hash !in Tokens(history)
  {
    if history != [] {
      NotIssued(history[..|history| - 1], hash);
    }
  }

  /** The row an insert makes, while it is there, stays as it was inserted but for `used`. */
  ghost predicate RowOf(table: Table, e: Event)
    requires e.stmt.Insert?
  {
    var s := e.stmt;
    s.hash in table ==>
      table[s.hash].(used := false) == Row(s.user, s.actor, s.expiresAt, e.at, false)
  }

  lemma StepKeepsRow(table: Table, issue: Event, e: Event, now: Instant)
    requires issue.stmt.Insert? && RowOf(table, issue) && e.at <= now
    requires e.stmt.Insert? ==> e.stmt.hash != issue.stmt.hash
    ensures RowOf(After(table, e), issue)
    ensures Redeemable(After(table, e), issue.stmt.hash, now)
       <==> Redeemable(table, issue.stmt.hash, now) && Spares(e, issue.stmt)
  {
  }

  lemma {:induction false} AliveFrom(history: seq<Event>, i: nat, now: Instant)
    requires i < |history| && history[i].stmt.Insert? && Fresh(history)
    requires forall j :: 0 <= j < |history| ==> history[j].at <= now
    ensures RowOf(Tokens(history), history[i])
    ensures Redeemable(Tokens(history), history[i].stmt.hash, now)
       <==> history[i].stmt.expiresAt > now && Untouched(history, i, |history|)
    decreases |history|
  {
    var n := |history| - 1;
    var before := history[..n];
    if i == n {
      NotIssued(before, history[i].stmt.hash);
    } else {
      AliveFrom(before, i, now);
      StepKeepsRow(Tokens(before), history[i], history[n], now);
      UntouchedNext(history, i);
    }
  }

  lemma UntouchedNext(history: seq<Event>, i: nat)
    requires i < |history| - 1 && history[i].stmt.Insert?
    ensures var n := |history| - 1;
            Untouched(history, i, n + 1) <==> Untouched(history[..n], i, n) && Spares(history[n], history[i].stmt)
  {
    var n := |history| - 1;
    assert forall j :: 0 <= j < n ==> history[..n][j] == history[j];
  }

  /** A token can be redeemed exactly if it was issued, has not expired, and no revocation of
      its user and no attempt to consume it came after the issue; cleanup makes no difference. */
  lemma RedeemableExactly(history: seq<Event>, hash: string, now: Instant)
    requires Fresh(history) && forall j :: 0 <= j < |history| ==> history[j].at <= now
    ensures Redeemable(Tokens(history), hash, now)
       <==> exists i: nat :: && i < |history| && history[i].stmt.Insert? && history[i].stmt.hash == hash
                        && history[i].stmt.expiresAt > now && Untouched(history, i, |history|)
  {
    if i: nat :| i < |history| && history[i].stmt.Insert? && history[i].stmt.hash == hash {
      AliveFrom(history, i, now);
      forall k: nat | k < |history| && history[k].stmt.Insert? && history[k].stmt.hash == hash
        ensures k == i
      {
      }
    } else {
      NotIssued(history, hash);
    }
  }

  /** The consume at k succeeds. */
  ghost predicate Redeems(history: seq<Event>, k: nat)
    requires k < |history|
  {
    history[k].stmt.Consume? && Redeemable(Tokens(history[..k]), history[k].stmt.hash, history[k].at)
  }

  lemma RedeemsIssued(history: seq<Event>, k: nat) returns (i: nat)
    requires Ordered(history) && Fresh(history) && k < |history| && Redeems(history, k)
    ensures i < k && history[i].stmt.Insert? && history[i].stmt.hash == history[k].stmt.hash
    ensures history[i].stmt.expiresAt > history[k].at && Untouched(history, i, k)
  {
    var before := history[..k];
    RedeemableExactly(before, history[k].stmt.hash, history[k].at);
    i :| 0 <= i < k && before[i].stmt.Insert? && before[i].stmt.hash == history[k].stmt.hash
         && before[i].stmt.expiresAt > history[k].at && Untouched(before, i, k);
    forall j | i < j < k ensures Spares(history[j], history[i].stmt) {
      assert Spares(before[j], before[i].stmt);
    }
  }

  /** Whatever the interleaving, no token is redeemed twice: once a consume succeeds, no later
      one of the same token does. */
  lemma RedeemedAtMostOnce(history: seq<Event>, j: nat, k: nat)
    requires Ordered(history) && Fresh(history) && j < k < |history|
    requires Redeems(history, j) && history[k].stmt == history[j].stmt
    ensures !Redeems(history, k)
  {
    var i := RedeemsIssued(history, j);
    var before := history[..k];
    AliveFrom(before, i, history[k].at);
    assert !Spares(before[j], before[i].stmt);
  }

  /** Nor after it expired, nor after its user's tokens were revoked. */
  lemma NeverAfterExpiryOrRevoke(history: seq<Event>, i: nat, k: nat)
    requires Ordered(history) && Fresh(history) && i < k < |history| && Redeems(history, k)
    requires history[i].stmt.Insert? && history[i].stmt.hash == history[k].stmt.hash
    ensures history[k].at < history[i].stmt.expiresAt
    ensures forall j :: i < j < k ==> history[j].stmt != Revoke(history[i].stmt.user)
  {
    var a := RedeemsIssued(history, k);
    assert a == i;
    forall j | i < j < k ensures history[j].stmt != Revoke(history[i].stmt.user) {
      assert Spares(history[j], history[i].stmt);
    }
  }

  // ---- one token a user ----

  /** The insert at k follows a revocation for its user with no other insert for them between. */
  ghost predicate Supersedes(history: seq<Event>, k: nat)
    requires k < |history| && history[k].stmt.Insert?
  {
    exists r :: 0 <= r < k && history[r].stmt == Revoke(history[k].stmt.user) && NoneFor(history, User(history[k].stmt.user), r, k)
  }

  ghost predicate InsertFor(e: Event, who: Who) {
    e.stmt.Insert? && match who case User(dn) => e.stmt.user == dn case Actor(dn) => e.stmt.actor == dn
  }

  ghost predicate NoneFor(history: seq<Event>, who: Who, from: nat, to: nat)
    requires from <= to <= |history|
  {
    forall j {:trigger InsertFor(history[j], who)} :: from < j < to ==> !InsertFor(history[j], who)
  }

  /** Issuances for one user do not overlap. */
  ghost predicate Apart(history: seq<Event>) {
    forall k {:trigger Supersedes(history, k)} ::
      0 <= k < |history| && history[k].stmt.Insert? ==> Supersedes(history, k)
  }

  /** A later issuance for the same user revokes an earlier token. */
  lemma Superseded(history: seq<Event>, i: nat, k: nat)
    requires i < k < |history| && history[i].stmt.Insert? && history[k].stmt.Insert?
    requires history[i].stmt.user == history[k].stmt.user && Supersedes(history, k)
    ensures !Untouched(history, i, k)
  {
    var user := history[k].stmt.user;
    var r :| 0 <= r < k && history[r].stmt == Revoke(user) && NoneFor(history, User(user), r, k);
    assert InsertFor(history[i], User(user));
    assert i < r && !Spares(history[r], history[i].stmt);
  }

  lemma IssueOf(history: seq<Event>, hash: string, now: Instant) returns (i: nat)
    requires Fresh(history) && NotBefore(history, now)
    requires Redeemable(Tokens(history), hash, now)
    ensures i < |history| && history[i].stmt.Insert? && history[i].stmt.hash == hash
    ensures Untouched(history, i, |history|) && history[i].stmt.user == Tokens(history)[hash].user
    ensures history[i].stmt.expiresAt > now
  {
    RedeemableExactly(history, hash, now);
    i :| 0 <= i < |history| && history[i].stmt.Insert? && history[i].stmt.hash == hash
         && history[i].stmt.expiresAt > now && Untouched(history, i, |history|);
    AliveFrom(history, i, now);
  }

  ghost predicate LiveFor(table: Table, hash: string, user: string, now: Instant) {
    Redeemable(table, hash, now) && table[hash].user == user
  }

  /** The user has at most one token that can be redeemed after the first n statements. */
  ghost predicate OneLiveAfter(history: seq<Event>, user: string, n: nat)
    requires n <= |history|
  {
    forall now: Instant, a, b ::
      NotBefore(history[..n], now) && LiveFor(Tokens(history[..n]), a, user, now) && LiveFor(Tokens(history[..n]), b, user, now)
      ==> a == b
  }

  /** At any time. */
  ghost predicate OneLive(history: seq<Event>, user: string) {
    forall n: nat :: n <= |history| ==> OneLiveAfter(history, user, n)
  }

  ghost predicate IssuedTo(history: seq<Event>, user: string, i: nat)
    requires i < |history|
  {
    history[i].stmt.Insert? && history[i].stmt.user == user
  }

  /** By the insert at k, the token inserted at i is revoked, consumed or expired, or the new
      one is born expired. */
  ghost predicate Over(history: seq<Event>, i: nat, k: nat)
    requires i < k < |history| && history[i].stmt.Insert? && history[k].stmt.Insert?
  {
    || !Untouched(history, i, k)
    || history[i].stmt.expiresAt <= history[k].at
    || history[k].stmt.expiresAt <= history[k].at
  }

  ghost predicate EachOverByNext(history: seq<Event>, user: string) {
    forall i: nat, k: nat :: i < k < |history| && IssuedTo(history, user, i) && IssuedTo(history, user, k) ==>
      Over(history, i, k)
  }

  lemma StillUntouched(history: seq<Event>, n: nat, i: nat, k: nat)
    requires i < k <= n <= |history| && history[i].stmt.Insert?
    ensures Untouched(history[..n], i, k) <==> Untouched(history, i, k)
  {
    forall j | i < j < k
      ensures Spares(history[..n][j], history[..n][i].stmt) <==> Spares(history[j], history[i].stmt)
    {
    }
  }

  lemma NoTwoLive(history: seq<Event>, user: string, n: nat, now: Instant, a: string, b: string)
    requires Ordered(history) && Fresh(history) && EachOverByNext(history, user) && n <= |history|
    requires NotBefore(history[..n], now)
    requires LiveFor(Tokens(history[..n]), a, user, now) && LiveFor(Tokens(history[..n]), b, user, now)
    ensures a == b
  {
    var before := history[..n];
    var i := IssueOf(before, a, now);
    var k := IssueOf(before, b, now);
    if i != k {
      var lo, hi := if i < k then i else k, if i < k then k else i;
      assert IssuedTo(history, user, lo) && IssuedTo(history, user, hi) && before[hi].at <= now;
      UntouchedBefore(history, n, lo, hi);
    }
  }

  lemma UntouchedBefore(history: seq<Event>, n: nat, i: nat, k: nat)
    requires i < k < n <= |history| && history[i].stmt.Insert? && Untouched(history[..n], i, n)
    ensures Untouched(history, i, k)
  {
    StillUntouched(history, n, i, k);
    assert Untouched(history[..n], i, k);
  }

  lemma TwoLive(history: seq<Event>, user: string, i: nat, k: nat)
    requires Ordered(history) && Fresh(history) && i < k < |history|
    requires IssuedTo(history, user, i) && IssuedTo(history, user, k) && !Over(history, i, k)
    ensures !OneLiveAfter(history, user, k + 1)
  {
    var before, now := history[..k + 1], history[k].at;
    StillUntouched(history, k + 1, i, k);
    assert Untouched(before, i, k + 1) by {
      assert Untouched(before, i, k) && Spares(before[k], before[i].stmt);
    }
    AliveFrom(before, i, now);
    AliveFrom(before, k, now);
    assert LiveFor(Tokens(before), history[i].stmt.hash, user, now);
    assert LiveFor(Tokens(before), history[k].stmt.hash, user, now);
  }

  /** Over any interleaving, a user has at most one redeemable token at every moment exactly
      if each of their tokens is revoked, consumed or expired when the next is inserted. */
  lemma OneTokenExactly(history: seq<Event>, user: string)
    requires Ordered(history) && Fresh(history)
    ensures OneLive(history, user) <==> EachOverByNext(history, user)
  {
    if EachOverByNext(history, user) {
      forall n: nat, now: Instant, a, b | && n <= |history| && NotBefore(history[..n], now)
                                          && LiveFor(Tokens(history[..n]), a, user, now)
                                          && LiveFor(Tokens(history[..n]), b, user, now)
        ensures a == b
      {
        NoTwoLive(history, user, n, now, a, b);
      }
    }
    if i: nat, k: nat :| && i < k < |history| && IssuedTo(history, user, i) && IssuedTo(history, user, k)
                         && !Over(history, i, k)
    {
      TwoLive(history, user, i, k);
    }
  }

  /** So it is for everybody when no two issuances for one user overlap. */
  lemma OneTokenPerUser(history: seq<Event>, user: string)
    requires Ordered(history) && Fresh(history) && Apart(history)
    ensures OneLive(history, user)
  {
    forall i: nat, k: nat | i < k < |history| && IssuedTo(history, user, i) && IssuedTo(history, user, k)
      ensures Over(history, i, k)
    {
      Superseded(history, i, k);
    }
    OneTokenExactly(history, user);
  }

  /** Two requests for one user, each a revocation and later an insert, with nothing else
      ending a token: the interleavings that leave one are those in which the second request
      revokes after the first inserts. */
  lemma TwoRequests(history: seq<Event>, user: string, revoke1: nat, insert1: nat, revoke2: nat, insert2: nat)
    requires Ordered(history) && Fresh(history)
    requires revoke1 < insert1 < insert2 < |history| && revoke2 < insert2
    requires history[revoke1].stmt == Revoke(user) == history[revoke2].stmt
    requires forall j :: 0 <= j < |history| ==>
               && (history[j].stmt == Revoke(user) ==> j == revoke1 || j == revoke2)
               && (IssuedTo(history, user, j) <==> j == insert1 || j == insert2)
               && !history[j].stmt.Consume?
    requires history[insert1].stmt.Insert? && history[insert1].stmt.expiresAt > history[insert2].at
    requires history[insert2].stmt.Insert? && history[insert2].stmt.expiresAt > history[insert2].at
    ensures OneLive(history, user) <==> insert1 < revoke2
  {
    OneTokenExactly(history, user);
    assert IssuedTo(history, user, insert1) && IssuedTo(history, user, insert2);
    if insert1 < revoke2 {
      assert !Spares(history[revoke2], history[insert1].stmt);
    } else {
      assert !Over(history, insert1, insert2);
    }
  }

  /** Overlapping, they leave a user two: each revokes before the other inserts. */
  lemma OverlapLeavesTwo()
    ensures exists history: seq<Event> ::
              && Ordered(history) && Fresh(history)
              && Redeemable(Tokens(history), "a", 0) && Redeemable(Tokens(history), "b", 0)
              && Tokens(history)["a"].user == Tokens(history)["b"].user
  {
    var first, second := Insert("a", "uid=x", "admin", TOKEN_EXPIRY), Insert("b", "uid=x", "admin", TOKEN_EXPIRY);
    var history := [Event(Revoke("uid=x"), 0), Event(Revoke("uid=x"), 0), Event(first, 0), Event(second, 0)];
    AliveFrom(history, 2, 0);
    AliveFrom(history, 3, 0);
  }

  // ---- the caps ----

  /** Tokens outlive the window in which they are counted, whatever the skew between the app's
      clock, which dates the expiry, and the database's. */
  ghost predicate Outlives(history: seq<Event>) {
    forall i :: 0 <= i < |history| && history[i].stmt.Insert? ==> history[i].stmt.expiresAt >= history[i].at + WINDOW
  }

  /** The insert at k follows a count that found room, with no other such insert between. */
  ghost predicate Admitted(history: seq<Event>, k: nat, who: Who, cap: nat)
    requires k < |history|
  {
    exists c :: && 0 <= c < k && history[c].stmt == Count(who) && NoneFor(history, who, c, k)
                && |Recent(Tokens(history[..c]), who, history[c].at)| < cap
  }

  /** The same inserts strictly between a count and the insert it admitted. */
  ghost function Meanwhile(history: seq<Event>, who: Who, c: nat, k: nat): set<nat>
    requires k <= |history|
  {
    set j: nat | c < j < k && InsertFor(history[j], who)
  }

  /** As above, but up to `others` such inserts of overlapping requests come between. */
  ghost predicate AdmittedAmong(history: seq<Event>, k: nat, who: Who, cap: nat, others: nat)
    requires k < |history|
  {
    exists c :: && 0 <= c < k && history[c].stmt == Count(who) && |Meanwhile(history, who, c, k)| <= others
                && |Recent(Tokens(history[..c]), who, history[c].at)| < cap
  }

  ghost predicate CappedAmong(history: seq<Event>, who: Who, cap: nat, others: nat) {
    forall k {:trigger AdmittedAmong(history, k, who, cap, others)} ::
      0 <= k < |history| && InsertFor(history[k], who) ==> AdmittedAmong(history, k, who, cap, others)
  }

  ghost predicate Capped(history: seq<Event>, who: Who, cap: nat) {
    forall k {:trigger Admitted(history, k, who, cap)} ::
      0 <= k < |history| && InsertFor(history[k], who) ==> Admitted(history, k, who, cap)
  }

  /** The issuances in one window. */
  ghost function Issued(history: seq<Event>, who: Who, from: Instant, to: Instant): set<nat> {
    set i: nat | i < |history| && InsertFor(history[i], who) && from < history[i].at <= to
  }

  lemma {:induction false} StillCounted(history: seq<Event>, i: nat, now: Instant)
    requires i < |history| && history[i].stmt.Insert? && Fresh(history) && Outlives(history)
    requires forall j :: 0 <= j < |history| ==> history[j].at <= now
    requires history[i].at > now - WINDOW
    ensures history[i].stmt.hash in Tokens(history)
    decreases |history|
  {
    var n := |history| - 1;
    var before := history[..n];
    if i == n {
      NotIssued(before, history[i].stmt.hash);
    } else {
      StillCounted(before, i, now);
      AliveFrom(before, i, now);
    }
  }

  ghost function Hashes(history: seq<Event>, s: set<nat>): set<string>
    requires forall i :: i in s ==> i < |history| && history[i].stmt.Insert?
  {
    set i | i in s :: history[i].stmt.hash
  }

  lemma {:induction false} HashesSize(history: seq<Event>, s: set<nat>)
    requires Fresh(history) && forall i :: i in s ==> i < |history| && history[i].stmt.Insert?
    ensures |Hashes(history, s)| == |s|
    decreases |s|
  {
    if s != {} {
      var i :| i in s;
      HashesSize(history, s - {i});
      assert Hashes(history, s) == Hashes(history, s - {i}) + {history[i].stmt.hash};
      assert history[i].stmt.hash !in Hashes(history, s - {i});
    }
  }

  lemma {:induction false} Latest(s: set<nat>) returns (k: nat)
    requires s != {}
    ensures k in s && forall i :: i in s ==> i <= k
    decreases |s|
  {
    var j :| j in s;
    assert forall i :: i in s ==> i == j || i in s - {j};
    if s == {j} {
      k := j;
    } else {
      var m := Latest(s - {j});
      k := if m > j then m else j;
    }
  }

  /** No window of five minutes holds more issuances than the cap and the inserts that can come
      between a count and the insert it admits, whatever cleanup deletes. */
  lemma CapHoldsAmong(history: seq<Event>, who: Who, cap: nat, others: nat, now: Instant)
    requires Ordered(history) && Fresh(history) && Outlives(history) && CappedAmong(history, who, cap, others)
    ensures |Issued(history, who, now - WINDOW, now)| <= cap + others
  {
    var issued := Issued(history, who, now - WINDOW, now);
    if issued != {} {
      var k := Latest(issued);
      assert AdmittedAmong(history, k, who, cap, others);
      EarlierFit(history, who, cap, others, now, issued - {k}, k);
    }
  }

  lemma EarlierFit(history: seq<Event>, who: Who, cap: nat, others: nat, now: Instant, earlier: set<nat>, k: nat)
    requires Ordered(history) && Fresh(history) && Outlives(history) && k < |history| && history[k].at <= now
    requires AdmittedAmong(history, k, who, cap, others)
    requires forall i :: i in earlier ==> i < k && InsertFor(history[i], who) && history[i].at > now - WINDOW
    ensures |earlier| < cap + others
  {
    var c :| 0 <= c < k && history[c].stmt == Count(who) && |Meanwhile(history, who, c, k)| <= others
             && |Recent(Tokens(history[..c]), who, history[c].at)| < cap;
    EarlierAreRecent(history, who, Early(earlier, c), c, now);
    EarlyOrMeanwhile(history, who, earlier, c, k);
    TwoParts(earlier, Early(earlier, c), Meanwhile(history, who, c, k));
  }

  ghost function Early(s: set<nat>, c: nat): set<nat> {
    set i | i in s && i < c
  }

  lemma EarlyOrMeanwhile(history: seq<Event>, who: Who, earlier: set<nat>, c: nat, k: nat)
    requires c < k <= |history| && !InsertFor(history[c], who)
    requires forall i :: i in earlier ==> i < k && InsertFor(history[i], who)
    ensures earlier <= Early(earlier, c) + Meanwhile(history, who, c, k)
  {
  }

  lemma TwoParts(whole: set<nat>, a: set<nat>, b: set<nat>)
    requires whole <= a + b
    ensures |whole| <= |a| + |b|
  {
    IndexSubset(whole, a + b);
    assert |a + b| <= |a| + |b|;
  }

  lemma {:induction false} IndexSubset(a: set<nat>, b: set<nat>)
    requires a <= b
    ensures |a| <= |b|
    decreases |a|
  {
    if a != {} {
      var x :| x in a;
      IndexSubset(a - {x}, b - {x});
    }
  }

  /** With issuances that do not overlap, no more than the cap. */
  lemma CapHolds(history: seq<Event>, who: Who, cap: nat, now: Instant)
    requires Ordered(history) && Fresh(history) && Outlives(history) && Capped(history, who, cap)
    ensures |Issued(history, who, now - 300_000_000_000, now)| <= cap
  {
    forall k | 0 <= k < |history| && InsertFor(history[k], who)
      ensures AdmittedAmong(history, k, who, cap, 0)
    {
      assert Admitted(history, k, who, cap);
      AdmittedAlone(history, k, who, cap);
    }
    CapHoldsAmong(history, who, cap, 0, now);
  }

  lemma AdmittedAlone(history: seq<Event>, k: nat, who: Who, cap: nat)
    requires k < |history| && Admitted(history, k, who, cap)
    ensures AdmittedAmong(history, k, who, cap, 0)
  {
    var c :| 0 <= c < k && history[c].stmt == Count(who) && NoneFor(history, who, c, k)
             && |Recent(Tokens(history[..c]), who, history[c].at)| < cap;
    forall j | c < j < k ensures !InsertFor(history[j], who) {
    }
    assert Meanwhile(history, who, c, k) == {};
  }

  lemma EarlierAreRecent(history: seq<Event>, who: Who, earlier: set<nat>, c: nat, now: Instant)
    requires Ordered(history) && Fresh(history) && Outlives(history) && c < |history| && history[c].at <= now
    requires forall i :: i in earlier ==> i < c && InsertFor(history[i], who) && history[i].at > now - WINDOW
    ensures |earlier| <= |Recent(Tokens(history[..c]), who, history[c].at)|
  {
    var before, at := history[..c], history[c].at;
    var recent := Recent(Tokens(before), who, at);
    forall i | i in earlier
      ensures before[i].stmt.hash in recent
    {
      StillCounted(before, i, at);
      AliveFrom(before, i, at);
    }
    HashesSize(before, earlier);
    assert Hashes(before, earlier) <= recent;
    SubsetSize(Hashes(before, earlier), recent);
  }

  lemma {:induction false} SubsetSize(a: set<string>, b: set<string>)
    requires a <= b
    ensures |a| <= |b|
    decreases |a|
  {
    if a != {} {
      var x :| x in a;
      SubsetSize(a - {x}, b - {x});
    }
  }

  function CapOf(who: Who): nat {
    match who
    case User(_) => MAX_PER_USER
    case Actor(_) => MAX_PER_ACTOR
  }

  /** Every row is some insert's. */
  lemma {:induction false} RowsAreIssued(history: seq<Event>, hash: string) returns (i: nat)
    requires hash in Tokens(history)
    ensures i < |history| && history[i].stmt.Insert? && history[i].stmt.hash == hash
    decreases |history|
  {
    var n := |history| - 1;
    if hash in Tokens(history[..n]) {
      i := RowsAreIssued(history[..n], hash);
    } else {
      i := n;
    }
  }

  /** Whatever is counted was issued to them in the last five minutes. */
  lemma CountedIsIssued(history: seq<Event>, who: Who, now: Instant, hash: string) returns (i: nat)
    requires Fresh(history) && NotBefore(history, now) && hash in Recent(Tokens(history), who, now)
    ensures i in Issued(history, who, now - WINDOW, now) && history[i].stmt.hash == hash
  {
    i := RowsAreIssued(history, hash);
    AliveFrom(history, i, now);
    assert RowOf(Tokens(history), history[i]);
  }

  /** So nobody is refused for issuances they did not have: at most those of the window are
      counted, and, while tokens outlive it, exactly those, whatever was revoked, consumed or
      cleaned up. */
  lemma CountIsIssued(history: seq<Event>, who: Who, now: Instant)
    requires Fresh(history) && NotBefore(history, now)
    ensures |Recent(Tokens(history), who, now)| <= |Issued(history, who, now - WINDOW, now)|
    ensures Outlives(history) ==> |Recent(Tokens(history), who, now)| == |Issued(history, who, now - WINDOW, now)|
  {
    var recent, issued := Recent(Tokens(history), who, now), Issued(history, who, now - WINDOW, now);
    forall h | h in recent
      ensures h in Hashes(history, issued)
    {
      var i := CountedIsIssued(history, who, now, h);
    }
    HashesSize(history, issued);
    SubsetSize(recent, Hashes(history, issued));
    if Outlives(history) {
      forall i | i in issued
        ensures history[i].stmt.hash in recent
      {
        StillCounted(history, i, now);
        AliveFrom(history, i, now);
      }
      SubsetSize(Hashes(history, issued), recent);
    }
  }

  /** A count of n is no more than was issued in the last five minutes, and just that while
      tokens outlive them. */
  ghost predicate CountsIssued(history: seq<Event>, who: Who, now: Instant, n: nat) {
    Fresh(history) && NotBefore(history, now) ==>
      && n <= |Issued(history, who, now - 300_000_000_000, now)|
      && (Outlives(history) ==> n == |Issued(history, who, now - 300_000_000_000, now)|)
  }

  /** They were issued as many tokens in the last five minutes as the cap allows. */
  ghost predicate AtCap(history: seq<Event>, who: Who, now: Instant) {
    |Issued(history, who, now - 300_000_000_000, now)| >= CapOf(who)
  }

  lemma RefusedAtCap(history: seq<Event>, who: Who, now: Instant)
    ensures Fresh(history) && NotBefore(history, now) && |Recent(Tokens(history), who, now)| >= CapOf(who) ==> AtCap(history, who, now)
  {
    if Fresh(history) && NotBefore(history, now) {
      CountIsIssued(history, who, now);
    }
  }

  // ---- the bound is reached ----

  /** How many tokens a history issues. */
  ghost function Inserted(history: seq<Event>): nat {
    if history == [] then 0
    else Inserted(history[..|history| - 1]) + if history[|history| - 1].stmt.Insert? then 1 else 0
  }

  function Hash(n: nat): string {
    seq(n, i requires 0 <= i < n => 'x')
  }

  /** Every statement runs at instant 0, and every token is for `who`, the n-th hash the n-th. */
  ghost predicate Numbered(history: seq<Event>, who: Who) {
    forall i :: 0 <= i < |history| ==>
      && history[i].at == 0
      && (history[i].stmt.Insert? ==>
            && InsertFor(history[i], who) && history[i].stmt.expiresAt == TOKEN_EXPIRY
            && history[i].stmt.hash == Hash(Inserted(history[..i])))
  }

  lemma {:induction false} InsertedGrows(history: seq<Event>, i: nat)
    requires i <= |history|
    ensures Inserted(history[..i]) <= Inserted(history)
    ensures i < |history| && history[i].stmt.Insert? ==> Inserted(history[..i]) < Inserted(history)
    decreases |history|
  {
    if i < |history| {
      var front := history[..|history| - 1];
      assert i < |front| ==> front[..i] == history[..i] && front[i] == history[i];
      assert front[..|front|] == front;
      if i < |front| {
        InsertedGrows(front, i);
      } else {
        assert history[..i] == front;
      }
    } else {
      assert history[..i] == history;
    }
  }

  lemma NumberedIsSound(history: seq<Event>, who: Who)
    requires Numbered(history, who)
    ensures Ordered(history) && Fresh(history) && Outlives(history)
  {
    forall i, j | 0 <= i < j < |history| && history[i].stmt.Insert? && history[j].stmt.Insert?
      ensures history[i].stmt.hash != history[j].stmt.hash
    {
      InsertedGrows(history[..j], i);
      assert history[..j][..i] == history[..i] && history[..j][i] == history[i];
      assert |Hash(Inserted(history[..i]))| < |Hash(Inserted(history[..j]))|;
    }
  }

  lemma {:induction false} RecentAtMost(history: seq<Event>, who: Who, now: Instant)
    ensures |Tokens(history).Keys| <= Inserted(history)
    ensures |Recent(Tokens(history), who, now)| <= Inserted(history)
  {
    if history != [] {
      var n := |history| - 1;
      RecentAtMost(history[..n], who, now);
      var before, after := Tokens(history[..n]).Keys, Tokens(history).Keys;
      if history[n].stmt.Insert? {
        assert after == before + {history[n].stmt.hash};
      } else {
        SubsetSize(after, before);
      }
    }
    SubsetSize(Recent(Tokens(history), who, now), Tokens(history).Keys);
  }

  lemma IssuedStep(history: seq<Event>, who: Who)
    requires history != [] && Numbered(history, who)
    ensures var n: nat := |history| - 1;
            var before := Issued(history[..n], who, -WINDOW, 0);
            && n !in before
            && Issued(history, who, -WINDOW, 0) == if history[n].stmt.Insert? then before + {n} else before
  {
    var front := history[..|history| - 1];
    assert forall i :: 0 <= i < |front| ==> front[i] == history[i];
  }

  lemma {:induction false} IssuedCount(history: seq<Event>, who: Who)
    requires Numbered(history, who)
    ensures |Issued(history, who, -WINDOW, 0)| == Inserted(history)
  {
    if history == [] {
      assert Issued(history, who, -WINDOW, 0) == {};
    } else {
      NumberedFront(history, who);
      IssuedStep(history, who);
      IssuedCount(history[..|history| - 1], who);
    }
  }

  lemma NumberedFront(history: seq<Event>, who: Who)
    requires history != [] && Numbered(history, who)
    ensures Numbered(history[..|history| - 1], who)
  {
    var front := history[..|history| - 1];
    assert forall i :: 0 <= i < |front| ==> front[..i] == history[..i];
  }

  lemma {:induction false} MeanwhileCount(history: seq<Event>, who: Who, c: nat, k: nat)
    requires c <= k <= |history|
    ensures |Meanwhile(history, who, c, k)| + Inserted(history[..c]) <= Inserted(history[..k])
    decreases k
  {
    if c == k {
      assert Meanwhile(history, who, c, k) == {};
    } else {
      MeanwhileCount(history, who, c, k - 1);
      assert history[..k][..k - 1] == history[..k - 1];
      var before := Meanwhile(history, who, c, k - 1);
      assert Meanwhile(history, who, c, k) <= before + {k - 1};
      if history[k - 1].stmt.Insert? {
        IndexSubset(Meanwhile(history, who, c, k), before + {k - 1});
      } else {
        assert Meanwhile(history, who, c, k) == before;
      }
    }
  }

  /** A history in the making: its inserts admitted so far, `n` of them. */
  ghost predicate Fills(history: seq<Event>, who: Who, cap: nat, others: nat, n: nat) {
    Numbered(history, who) && CappedAmong(history, who, cap, others) && Inserted(history) == n
  }

  lemma StillAdmitted(history: seq<Event>, e: Event, k: nat, who: Who, cap: nat, others: nat)
    requires k < |history| && AdmittedAmong(history, k, who, cap, others)
    ensures AdmittedAmong(history + [e], k, who, cap, others)
  {
    var longer := history + [e];
    var c :| 0 <= c < k && history[c].stmt == Count(who) && |Meanwhile(history, who, c, k)| <= others
             && |Recent(Tokens(history[..c]), who, history[c].at)| < cap;
    assert longer[..c] == history[..c] && Meanwhile(longer, who, c, k) == Meanwhile(history, who, c, k);
    assert longer[c] == history[c];
  }

  lemma NumberedNext(history: seq<Event>, e: Event, who: Who)
    requires Numbered(history, who) && e.at == 0
    requires e.stmt.Insert? ==> InsertFor(e, who) && e.stmt.expiresAt == TOKEN_EXPIRY && e.stmt.hash == Hash(Inserted(history))
    ensures Numbered(history + [e], who)
    ensures Inserted(history + [e]) == Inserted(history) + if e.stmt.Insert? then 1 else 0
  {
    var longer := history + [e];
    assert longer[..|history|] == history;
    assert forall i :: 0 <= i < |history| ==> longer[..i] == history[..i] && longer[i] == history[i];
  }

  lemma OneMoreStatement(history: seq<Event>, e: Event, who: Who, cap: nat, others: nat, n: nat)
    requires Fills(history, who, cap, others, n) && e.at == 0
    requires e.stmt.Insert? ==> InsertFor(e, who) && e.stmt.expiresAt == TOKEN_EXPIRY && e.stmt.hash == Hash(n)
    requires e.stmt.Insert? ==> AdmittedAmong(history + [e], |history|, who, cap, others)
    ensures Fills(history + [e], who, cap, others, if e.stmt.Insert? then n + 1 else n)
  {
    var longer := history + [e];
    NumberedNext(history, e, who);
    forall k | 0 <= k < |longer| && InsertFor(longer[k], who)
      ensures AdmittedAmong(longer, k, who, cap, others)
    {
      if k < |history| {
        assert history[k] == longer[k];
        assert AdmittedAmong(history, k, who, cap, others);
        StillAdmitted(history, e, k, who, cap, others);
      }
    }
  }

  function UserFor(who: Who, n: nat): string {
    if who.User? then who.dn else Hash(n)
  }

  function ActorFor(who: Who): string {
    if who.Actor? then who.dn else "admin"
  }

  /** The n-th request: what it counts, and what it issues. */
  function Counts(who: Who, n: nat): seq<Statement> {
    [Count(Actor(ActorFor(who))), Count(User(UserFor(who, n)))]
  }

  function Writes(who: Who, n: nat): seq<Statement> {
    [Revoke(UserFor(who, n)), Insert(Hash(n), UserFor(who, n), ActorFor(who), TOKEN_EXPIRY)]
  }

  lemma AfterCounts(history: seq<Event>, who: Who, cap: nat, others: nat, n: nat, m: nat) returns (longer: seq<Event>, c: nat)
    requires Fills(history, who, cap, others, n)
    ensures longer == history + [Event(Counts(who, m)[0], 0), Event(Counts(who, m)[1], 0)]
    ensures Fills(longer, who, cap, others, n)
    ensures |history| <= c < |longer| && longer[c].stmt == Count(who) && Inserted(longer[..c]) == n
  {
    var e, f := Event(Counts(who, m)[0], 0), Event(Counts(who, m)[1], 0);
    OneMoreStatement(history, e, who, cap, others, n);
    OneMoreStatement(history + [e], f, who, cap, others, n);
    longer := history + [e] + [f];
    c := if who.Actor? then |history| else |history| + 1;
    assert longer[..|history|] == history && longer[..|history| + 1] == history + [e];
  }

  /** A count that saw room is enough for as many inserts as may come between. */
  lemma AfterIssue(history: seq<Event>, who: Who, cap: nat, others: nat, n: nat, c: nat) returns (longer: seq<Event>)
    requires Fills(history, who, cap, others, n)
    requires c < |history| && history[c].stmt == Count(who) && Inserted(history[..c]) < cap
    requires n - Inserted(history[..c]) <= others
    ensures longer == history + [Event(Writes(who, n)[0], 0), Event(Writes(who, n)[1], 0)]
    ensures Fills(longer, who, cap, others, n + 1)
  {
    var e, f := Event(Writes(who, n)[0], 0), Event(Writes(who, n)[1], 0);
    OneMoreStatement(history, e, who, cap, others, n);
    var mid := history + [e];
    longer := mid + [f];
    AdmittedByCount(history, mid, f, who, cap, others, n, c);
    OneMoreStatement(mid, f, who, cap, others, n);
  }

  lemma AdmittedByCount(history: seq<Event>, mid: seq<Event>, f: Event, who: Who, cap: nat, others: nat, n: nat, c: nat)
    requires history <= mid && Fills(mid, who, cap, others, n)
    requires c < |history| && history[c].stmt == Count(who) && Inserted(history[..c]) < cap
    requires n - Inserted(history[..c]) <= others
    requires f.at == 0 && f.stmt.Insert? && InsertFor(f, who) && f.stmt.expiresAt == TOKEN_EXPIRY && f.stmt.hash == Hash(n)
    ensures AdmittedAmong(mid + [f], |mid|, who, cap, others)
  {
    var longer := mid + [f];
    assert longer[..c] == history[..c] && longer[..|mid|] == mid && longer[c] == history[c];
    MeanwhileCount(longer, who, c, |mid|);
    RecentAtMost(history[..c], who, longer[c].at);
  }

  /** Requests one at a time, up to the cap. */
  lemma {:induction false} OneByOne(who: Who, cap: nat, others: nat, n: nat) returns (history: seq<Event>)
    requires n <= cap
    ensures Fills(history, who, cap, others, n)
  {
    history := [];
    if n > 0 {
      var before := OneByOne(who, cap, others, n - 1);
      var counted, c := AfterCounts(before, who, cap, others, n - 1, n - 1);
      history := AfterIssue(counted, who, cap, others, n - 1, c);
    }
  }

  /** Requests that all count before any of them issues. */
  lemma {:induction false} AllCount(history: seq<Event>, who: Who, cap: nat, others: nat, n: nat, more: nat) returns (longer: seq<Event>, c: nat)
    requires Fills(history, who, cap, others, n)
    ensures Fills(longer, who, cap, others, n) && history <= longer
    ensures c < |longer| && longer[c].stmt == Count(who) && Inserted(longer[..c]) == n
    decreases more
  {
    longer, c := AfterCounts(history, who, cap, others, n, n + more);
    if more > 0 {
      var further, _ := AllCount(longer, who, cap, others, n, more - 1);
      assert further[..c] == longer[..c];
      longer := further;
    }
  }

  lemma {:induction false} AllIssue(history: seq<Event>, who: Who, cap: nat, others: nat, n: nat, c: nat, more: nat) returns (longer: seq<Event>)
    requires Fills(history, who, cap, others, n)
    requires c < |history| && history[c].stmt == Count(who) && Inserted(history[..c]) < cap
    requires n + more <= Inserted(history[..c]) + others + 1
    ensures Fills(longer, who, cap, others, n + more)
    decreases more
  {
    longer := history;
    if more > 0 {
      var next := AfterIssue(history, who, cap, others, n, c);
      assert next[..c] == history[..c];
      longer := AllIssue(next, who, cap, others, n + 1, c, more - 1);
    }
  }

  /** The bound is the best there is: for every cap, and as many overlapping requests as one
      likes, they can leave exactly the cap and the others besides in one window. */
  lemma CapReached(who: Who, cap: nat, others: nat) returns (history: seq<Event>)
    requires cap > 0
    ensures Ordered(history) && Fresh(history) && Outlives(history) && CappedAmong(history, who, cap, others)
    ensures |Issued(history, who, -WINDOW, 0)| == cap + others
  {
    var calm := OneByOne(who, cap, others, cap - 1);
    var counted, c := AllCount(calm, who, cap, others, cap - 1, others);
    history := AllIssue(counted, who, cap, others, cap - 1, c, others + 1);
    NumberedIsSound(history, who);
    IssuedCount(history, who);
  }

  /** So two overlapping requests can put a fourth token in a user's window, or a twenty-first
      in an actor's. */
  lemma CapExceeded(who: Who) returns (history: seq<Event>)
    ensures Ordered(history) && Fresh(history) && Outlives(history) && CappedAmong(history, who, CapOf(who), 1)
    ensures |Issued(history, who, -300_000_000_000, 0)| == if who.User? then 4 else 21
  {
    history := CapReached(who, CapOf(who), 1);
  }

  // ---- the service, one request at a time ----

  ghost predicate Disciplined(history: seq<Event>) {
    && Ordered(history) && Fresh(history) && Outlives(history) && Apart(history)
    && forall who :: Capped(history, who, CapOf(who))
  }

  /** A statement keeps the discipline if it keeps time; an insert, if it brings a new token
      that outlives the window, supersedes, and was admitted under both caps. */
  lemma DisciplineExtends(history: seq<Event>, e: Event)
    requires Disciplined(history) && NotBefore(history, e.at)
    requires e.stmt.Insert? ==>
               && (forall i :: 0 <= i < |history| && history[i].stmt.Insert? ==> history[i].stmt.hash != e.stmt.hash)
               && e.stmt.expiresAt >= e.at + WINDOW
               && Supersedes(history + [e], |history|)
               && Admitted(history + [e], |history|, User(e.stmt.user), MAX_PER_USER)
               && Admitted(history + [e], |history|, Actor(e.stmt.actor), MAX_PER_ACTOR)
    ensures Disciplined(history + [e]) && NotBefore(history + [e], e.at)
  {
    var all := history + [e];
    forall k | 0 <= k < |all| && all[k].stmt.Insert?
      ensures Supersedes(all, k)
    {
      if k < |history| {
        SupersedesExtends(history, e, k);
      }
    }
    forall who ensures Capped(all, who, CapOf(who)) {
      CappedExtends(history, e, who);
    }
  }

  lemma SupersedesExtends(history: seq<Event>, e: Event, k: nat)
    requires k < |history| && history[k].stmt.Insert? && Supersedes(history, k)
    ensures Supersedes(history + [e], k)
  {
    var all := history + [e];
    var user := history[k].stmt.user;
    var r :| 0 <= r < k && history[r].stmt == Revoke(user) && NoneFor(history, User(user), r, k);
    NoneForExtends(history, e, User(user), r, k);
    assert all[r].stmt == Revoke(user);
  }

  lemma NoneForExtends(history: seq<Event>, e: Event, who: Who, from: nat, to: nat)
    requires from <= to <= |history| && NoneFor(history, who, from, to)
    ensures NoneFor(history + [e], who, from, to)
  {
    forall j | from < j < to ensures !InsertFor((history + [e])[j], who) {
      assert !InsertFor(history[j], who);
    }
  }

  lemma CappedExtends(history: seq<Event>, e: Event, who: Who)
    requires Capped(history, who, CapOf(who))
    requires InsertFor(e, who) ==> Admitted(history + [e], |history|, who, CapOf(who))
    ensures Capped(history + [e], who, CapOf(who))
  {
    var all := history + [e];
    forall k | 0 <= k < |all| && InsertFor(all[k], who)
      ensures Admitted(all, k, who, CapOf(who))
    {
      if k < |history| {
        assert Admitted(history, k, who, CapOf(who));
        var c :| 0 <= c < k && history[c].stmt == Count(who) && NoneFor(history, who, c, k)
                 && |Recent(Tokens(history[..c]), who, history[c].at)| < CapOf(who);
        NoneForExtends(history, e, who, c, k);
        assert all[c] == history[c] && all[..c] == history[..c];
      }
    }
  }

  /** The four statements of one request, in order. */
  ghost predicate IsIssuance(events: seq<Event>, user: string, actor: string) {
    && |events| == 4
    && events[0].stmt == Count(Actor(actor)) && events[1].stmt == Count(User(user))
    && events[2].stmt == Revoke(user)
    && events[3].stmt.Insert? && events[3].stmt.user == user && events[3].stmt.actor == actor
    && events[0].at <= events[1].at <= events[2].at <= events[3].at
  }

  /** Both counts found room. */
  ghost predicate RoomFor(before: seq<Event>, events: seq<Event>, user: string, actor: string)
    requires IsIssuance(events, user, actor)
  {
    && |Recent(Tokens(before), Actor(actor), events[0].at)| < MAX_PER_ACTOR
    && |Recent(Tokens(before), User(user), events[1].at)| < MAX_PER_USER
  }

  /** Its last statement supersedes and was admitted. */
  lemma IssuanceIsProper(before: seq<Event>, events: seq<Event>, user: string, actor: string)
    requires IsIssuance(events, user, actor) && RoomFor(before, events, user, actor)
    ensures var all, n := before + events, |before|;
            && Supersedes(all, n + 3)
            && Admitted(all, n + 3, User(user), MAX_PER_USER)
            && Admitted(all, n + 3, Actor(actor), MAX_PER_ACTOR)
  {
    var all, n := before + events, |before|;
    assert all[n] == events[0] && all[n + 1] == events[1] && all[n + 2] == events[2] && all[n + 3] == events[3];
    assert Supersedes(all, n + 3) by {
      assert NoneFor(all, User(user), n + 2, n + 3);
    }
    assert Admitted(all, n + 3, User(user), MAX_PER_USER) by {
      assert all[..n + 1] == before + [events[0]] && (before + [events[0]])[..n] == before;
      assert Tokens(all[..n + 1]) == Tokens(before);
      assert NoneFor(all, User(user), n + 1, n + 3);
    }
    assert Admitted(all, n + 3, Actor(actor), MAX_PER_ACTOR) by {
      assert all[..n] == before;
      assert NoneFor(all, Actor(actor), n, n + 3);
    }
  }

  lemma {:induction false} IssuanceStarts(before: seq<Event>, events: seq<Event>, user: string, actor: string, m: nat)
    requires Disciplined(before) && IsIssuance(events, user, actor) && m <= 3 && NotBefore(before, events[0].at)
    ensures Disciplined(before + events[..m])
    ensures NotBefore(before + events[..m], events[if m == 0 then 0 else m - 1].at)
  {
    if m == 0 {
      assert before + events[..0] == before;
    } else {
      IssuanceStarts(before, events, user, actor, m - 1);
      assert before + events[..m] == before + events[..m - 1] + [events[m - 1]];
      DisciplineExtends(before + events[..m - 1], events[m - 1]);
    }
  }

  /** A request that runs to its m-th statement, with no other beside it, keeps the history
      disciplined, so what the lemmas above say holds of a service that takes requests one at
      a time: one live token a user, three issuances in a window, twenty an actor. */
  lemma IssuanceKeeps(before: seq<Event>, events: seq<Event>, user: string, actor: string, m: nat)
    requires Disciplined(before) && IsIssuance(events, user, actor) && m <= 4 && NotBefore(before, events[0].at)
    requires m == 4 ==> RoomFor(before, events, user, actor)
    requires events[3].stmt.expiresAt >= events[3].at + WINDOW
    requires forall i :: 0 <= i < |before| && before[i].stmt.Insert? ==> before[i].stmt.hash != events[3].stmt.hash
    ensures Disciplined(before + events[..m])
  {
    if m < 4 {
      IssuanceStarts(before, events, user, actor, m);
    } else {
      IssuanceStarts(before, events, user, actor, 3);
      IssuanceEnds(before, events, user, actor);
      assert events[..4] == events;
    }
  }

  lemma IssuanceEnds(before: seq<Event>, events: seq<Event>, user: string, actor: string)
    requires IsIssuance(events, user, actor) && RoomFor(before, events, user, actor)
    requires Disciplined(before + events[..3]) && NotBefore(before + events[..3], events[2].at)
    requires events[3].stmt.expiresAt >= events[3].at + WINDOW
    requires forall i :: 0 <= i < |before| && before[i].stmt.Insert? ==> before[i].stmt.hash != events[3].stmt.hash
    ensures Disciplined(before + events)
  {
    var three, last := before + events[..3], events[3];
    assert before + events == three + [last];
    var n := |before|;
    assert three[n] == events[0] && three[n + 1] == events[1] && three[n + 2] == events[2];
    forall i | 0 <= i < |three| && three[i].stmt.Insert?
      ensures three[i].stmt.hash != last.stmt.hash
    {
      assert i < n && three[i] == before[i];
    }
    IssuanceIsProper(before, events, user, actor);
    DisciplineExtends(three, last);
  }

  /** Which of the database calls of one request fail. */
  datatype Failures = Failures(countActor: bool, countUser: bool, audit: bool, revoke: bool, insert: bool)

  datatype Answer = Sent | TooMany | Failed

  class Service {
    var table: Table
    ghost var history: seq<Event>

    /** The table is what its statements made of it. */
    ghost predicate Synced()
      reads this
    {
      table == Tokens(history)
    }

    constructor ()
      ensures Synced() && history == [] && Disciplined(history)
    {
      table, history := map[], [];
    }

    ghost method Log(e: Event)
      modifies this`history
      ensures history == old(history) + [e]
      ensures Tokens(history) == After(Tokens(old(history)), e)
    {
      history := history + [e];
      assert history[..|history| - 1] == old(history);
    }

    /** Retires every token of the user that could still be redeemed. */
    method RevokeForUser(user: string, now: Instant)
      requires Synced()
      modifies this
      ensures Synced() && history == old(history) + [Event(Revoke(user), now)]
      ensures table.Keys == old(table.Keys)
      ensures forall h :: h in table && table[h].user == user ==> !Redeemable(table, h, now)
      ensures forall h :: h in table && table[h] != old(table)[h] ==>
                old(table)[h].user == user && Redeemable(old(table), h, now) && table[h] == old(table)[h].(used := true)
    {
      Log(Event(Revoke(user), now));
      table := map h | h in table :: Retired(table[h], user, now);
    }

    /** Verifies and marks in one statement; the row goes to the one that marked it. */
    method ConsumeToken(hash: string, now: Instant) returns (r: Option<Row>)
      requires Synced()
      modifies this
      ensures Synced() && history == old(history) + [Event(Consume(hash), now)]
      ensures r.Some? <==> Redeems(history, |history| - 1)
      ensures r.Some? ==> Redeemable(old(table), hash, now) && table == old(table)[hash := r.value] && r.value == old(table)[hash].(used := true)
      ensures r.None? ==> table == old(table)
    {
      Log(Event(Consume(hash), now));
      assert history[..|history| - 1] == old(history);
      if hash !in table || table[hash].used || table[hash].expiresAt <= now {
        return None;
      }
      table := table[hash := table[hash].(used := true)];
      r := Some(table[hash]);
    }

    method DeleteExpiredTokens(now: Instant)
      requires Synced()
      modifies this
      ensures Synced() && history == old(history) + [Event(Cleanup, now)]
      ensures forall h :: h in table <==> h in old(table) && old(table)[h].expiresAt >= now
      ensures forall h :: h in table ==> table[h] == old(table)[h]
      ensures forall h :: Redeemable(table, h, now) <==> Redeemable(old(table), h, now)
    {
      Log(Event(Cleanup, now));
      table := map h | h in table && table[h].expiresAt >= now :: table[h];
    }

    method CountRecent(who: Who, now: Instant) returns (n: nat)
      requires Synced()
      modifies this`history
      ensures Synced() && history == old(history) + [Event(Count(who), now)]
      ensures n == |Recent(table, who, now)|
      ensures CountsIssued(old(history), who, now, n)
    {
      if Fresh(history) && NotBefore(history, now) {
        CountIsIssued(history, who, now);
      }
      Log(Event(Count(who), now));
      n := |Recent(table, who, now)|;
    }

    /** Revokes, then inserts; `expiresAt` is dated by the app's clock, the rest by the
        database's. */
    method CreateToken(user: string, actor: string, hash: string, appNow: Instant,
                       revokeAt: Instant, insertAt: Instant, fails: Failures)
      returns (ok: bool)
      requires Synced()
      modifies this
      ensures Synced()
      ensures ok <==> !fails.revoke && !fails.insert && hash !in old(table)
      ensures var revoke, insert := Event(Revoke(user), revokeAt),
                                    Event(Insert(hash, user, actor, appNow + 86_400_000_000_000), insertAt);
              history == old(history) + if ok then [revoke, insert] else if fails.revoke then [] else [revoke]
    {
      if fails.revoke {
        assert history == old(history) + [];
        return false;
      }
      RevokeForUser(user, revokeAt);
      if fails.insert || hash in table {
        return false;
      }
      Log(Event(Insert(hash, user, actor, appNow + TOKEN_EXPIRY), insertAt));
      table := table[hash := Row(user, actor, appNow + TOKEN_EXPIRY, insertAt, false)];
      ok := true;
    }

    /** The request: both caps, the audit row, then the token. It runs the statements of an
        issuance in order and stops at the first that fails or finds no room; `m` says how far
        it got. */
    method SendPasswordReset(user: string, actor: string, hash: string, appNow: Instant, at: seq<Instant>, fails: Failures)
      returns (r: Answer, ghost m: nat)
      requires Synced() && |at| == 4 && at[0] <= at[1] <= at[2] <= at[3]
      modifies this
      ensures Synced() && m <= 4
      ensures var events := Issuance(user, actor, hash, appNow, at);
              && history == old(history) + events[..m]
              && (m == 4 ==> RoomFor(old(history), events, user, actor))
      ensures r.Sent? <==> m == 4
      ensures r.TooMany? <==>
                && !fails.countActor
                && (|Recent(old(table), Actor(actor), at[0])| >= MAX_PER_ACTOR
                    || (!fails.countUser && |Recent(old(table), User(user), at[1])| >= MAX_PER_USER))
      ensures r.TooMany? && Fresh(old(history)) && NotBefore(old(history), at[0]) ==>
                AtCap(old(history), Actor(actor), at[0]) || AtCap(old(history), User(user), at[1])
    {
      ghost var events := Issuance(user, actor, hash, appNow, at);
      RefusedAtCap(history, Actor(actor), at[0]);
      RefusedAtCap(history, User(user), at[1]);
      m := 0;
      if fails.countActor {
        assert history == old(history) + events[..0];
        return Failed, 0;
      }
      var actorCount := CountRecent(Actor(actor), at[0]);
      assert history == old(history) + events[..1];
      if actorCount >= MAX_PER_ACTOR {
        return TooMany, 1;
      }
      if fails.countUser {
        return Failed, 1;
      }
      var userCount := CountRecent(User(user), at[1]);
      assert history == old(history) + events[..2];
      if userCount >= MAX_PER_USER {
        return TooMany, 2;
      }
      if fails.audit {
        return Failed, 2;
      }
      var ok := CreateToken(user, actor, hash, appNow, at[2], at[3], fails);
      if ok {
        assert history == old(history) + events[..4];
        return Sent, 4;
      }
      assert history == old(history) + if fails.revoke then events[..2] else events[..3];
      r, m := Failed, if fails.revoke then 2 else 3;
    }
  }

  /** What a request asks of the database, at the readings `at` of its clock. */
  function Issuance(user: string, actor: string, hash: string, appNow: Instant, at: seq<Instant>): (events: seq<Event>)
    requires |at| == 4 && at[0] <= at[1] <= at[2] <= at[3]
    ensures IsIssuance(events, user, actor)
  {
    [Event(Count(Actor(actor)), at[0]), Event(Count(User(user)), at[1]), Event(Revoke(user), at[2]),
     Event(Insert(hash, user, actor, appNow + TOKEN_EXPIRY), at[3])]
  }
}
