/** What an entry's pwdAccountLockedTime means right now: the per-entry state machine,
    and the resolver that caches the policies it needs. */
module Lockout {
  import opened Wrappers

  /** Nanoseconds since 1970-01-01T00:00:00Z. */
  type Instant = int

  const SECOND: int := 1_000_000_000

  /** A stored lock value. A timestamp is what this program reads it as, and what the
      directory orders it by; either may be unable to read it. `plain` marks the
      second-granularity UTC form. */
  datatype Stamp =
    | Absent
    | Permanent
    | Timed(app: Option<Instant>, server: Option<Instant>, plain: bool)
  {
    /** Both sides read the same instant. */
    predicate Readable() {
      Timed? ==> app.Some? && server == app
    }
  }

  datatype Policy = Policy(dn: string, lockoutDuration: int, maxFailure: int)

  /** One snapshot of what the client can read. `keys` folds each DN text that parses to
      what distinguishedNameMatch compares; `listed` is None when the listing fails. */
  datatype Client = Client(
    keys: map<string, string>,
    policies: map<string, Policy>,
    listed: Option<seq<Policy>>,
    defaultPolicyDn: string)
  {
    function KeyOf(dn: string): Option<string> {
      if dn in keys then Some(keys[dn]) else None
    }

    /** Reading a policy by DN; no DN names none. */
    function GetPolicy(dn: string): Option<Policy> {
      if dn != "" && dn in keys && keys[dn] in policies then Some(policies[keys[dn]]) else None
    }

    /** sameDN. */
    predicate SameDn(a: string, b: string) {
      a != "" && b != "" && KeyOf(a).Some? && KeyOf(a) == KeyOf(b)
    }

    /** One snapshot of one directory: a policy is stored under its own DN, and what is listed
        is what a read by DN gives. */
    ghost predicate Consistent() {
      && (forall k :: k in policies ==> KeyOf(policies[k].dn) == Some(k))
      && (listed.Some? ==> forall p :: p in listed.value ==> GetPolicy(p.dn) == Some(p))
    }
  }

  datatype LockState = NoLock | Manual | Active | Lifted | UnknownLock

  datatype Lockout = Lockout(state: LockState, liftsAt: Option<Instant>, duration: int, policyDn: string) {
    predicate Locked() {
      !state.NoLock? && !state.Lifted?
    }
  }

  /** The state machine, with the applicable policy already read, or None. */
  function LockoutFor(lock: Stamp, policyDn: string, policy: Option<Policy>, now: Instant): Lockout {
    match lock
    case Absent => Lockout(NoLock, None, 0, policyDn)
    case Permanent => Lockout(Manual, None, 0, policyDn)
    case Timed(app, _, _) =>
      if app.None? || policy.None? then Lockout(UnknownLock, None, 0, policyDn)
      else
        var d := policy.value.lockoutDuration;
        if d <= 0 then Lockout(Active, None, d, policyDn)
        else
          var liftsAt := app.value + d * SECOND;
          Lockout(if now < liftsAt then Active else Lifted, Some(liftsAt), d, policyDn)
  }

  function PolicyDnOf(c: Client, subentry: string): string {
    if subentry == "" then c.defaultPolicyDn else subentry
  }

  /** The lock on an entry, with every policy read afresh. */
  function ResolvedLock(c: Client, lock: Stamp, subentry: string, now: Instant): Lockout {
    LockoutFor(lock, PolicyDnOf(c, subentry), c.GetPolicy(PolicyDnOf(c, subentry)), now)
  }

  /** State by state, what a lock resolves to. */
  lemma LockoutMeans(lock: Stamp, policyDn: string, policy: Option<Policy>, now: Instant)
    ensures var r := LockoutFor(lock, policyDn, policy, now);
            && r.policyDn == policyDn
            && (r.state.NoLock? <==> lock.Absent?)
            && (r.state.Manual? <==> lock.Permanent?)
            && (r.state.UnknownLock? <==> lock.Timed? && (lock.app.None? || policy.None?))
            && (lock.Timed? && lock.app.Some? && policy.Some? ==>
                  var duration := policy.value.lockoutDuration;
                  && r.duration == duration
                  && (r.liftsAt.Some? <==> duration > 0)
                  && (r.state.Lifted? <==> duration > 0 && now - lock.app.value >= duration * 1_000_000_000)
                  && (r.state.Active? <==> !r.state.Lifted?))
            && (r.state.NoLock? || r.state.Manual? || r.state.UnknownLock? ==> r.liftsAt.None? && r.duration == 0)
  {
  }

  /** What a resolved lock says of every other instant: with a lifting instant it refuses binds
      before it and never from it on; without one, time changes nothing. */
  lemma LiftsAtItsInstant(c: Client, lock: Stamp, subentry: string, now: Instant, at: Instant)
    ensures var r, later := ResolvedLock(c, lock, subentry, now), ResolvedLock(c, lock, subentry, at);
            && (r.liftsAt.Some? ==> later.liftsAt == r.liftsAt && (later.Locked() <==> at < r.liftsAt.value))
            && (r.liftsAt.None? ==> later == r && (r.Locked() <==> lock != Absent))
  {
  }

  class LockoutResolver {
    const client: Client
    const now: Instant
    var policies: map<string, Option<Policy>>
    /** The DNs read from the directory, in order. */
    ghost var asked: seq<string>

    ghost predicate Valid()
      reads this
    {
      && (forall dn :: dn in policies ==> policies[dn] == client.GetPolicy(dn))
      && (forall dn :: dn in asked <==> dn in policies)
      && (forall i, j :: 0 <= i < j < |asked| ==> asked[i] != asked[j])
    }

    constructor (client: Client, now: Instant)
      ensures Valid() && this.client == client && this.now == now && asked == []
    {
      this.client, this.now, policies, asked := client, now, map[], [];
    }

    /** A policy, from the cache once it has been asked for: unreadable ones included. */
    method Policy(dn: string) returns (policy: Option<Policy>)
      requires Valid()
      modifies this
      ensures Valid() && policy == client.GetPolicy(dn)
      ensures asked == old(asked) || (asked == old(asked) + [dn] && dn !in old(asked) && dn != "")
    {
      if dn == "" {
        return None;
      }
      if dn in policies {
        return policies[dn];
      }
      policy := client.GetPolicy(dn);
      policies := policies[dn := policy];
      asked := asked + [dn];
    }

    /** Answers as an uncached resolver would; only a timestamped lock costs a read. */
    method Resolve(lock: Stamp, subentry: string) returns (r: Lockout)
      requires Valid()
      modifies this
      ensures Valid() && r == ResolvedLock(client, lock, subentry, now)
      ensures !lock.Timed? ==> asked == old(asked)
      ensures old(asked) <= asked
    {
      var policyDn := if subentry == "" then client.defaultPolicyDn else subentry;
      var policy := None;
      if lock.Timed? {
        policy := Policy(policyDn);
      }
      r := LockoutFor(lock, policyDn, policy, now);
    }
  }
}
