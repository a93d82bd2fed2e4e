/** The capability probe as concurrent steps: any number of callers of Capabilities,
    RefreshCapabilities and RecordEnforcementVerdict around one mutex, one cache and
    one channel per probe. What a probe finds is up to the directory. */
module Capabilities {
  import opened Wrappers

  datatype Enforcement = Enforced | NotEnforced | Unknown

  datatype Caps = Caps(scheduledExpiry: bool, enforcement: Enforcement, netgroups: bool)

  type ThreadId = int

  type Channel = nat

  /** Where one call is. The first eight are Capabilities, in program order. */
  datatype Pc =
    | Locking
    | Looking
    | Waiting(ch: Channel)
    | Probing(ch: Channel)
    | Publishing(ch: Channel, found: Caps)
    | Storing(ch: Channel, found: Caps)
    | Closing(ch: Channel, answer: Caps)
    | Answered(answer: Caps, from: Channel)
    | RefreshLocking
    | RefreshHolding
    | RecordLocking(verdict: Enforcement)
    | RecordHolding(verdict: Enforcement)
    | Returned
  {
    predicate HoldsMutex() {
      Looking? || Storing? || RefreshHolding? || RecordHolding?
    }

    /** Between announcing a probe and publishing what it found. */
    predicate InFlight() {
      Probing? || Publishing? || Storing?
    }

    /** Will close this channel. */
    predicate Owns(c: Channel) {
      (InFlight() || Closing?) && ch == c
    }

    predicate Finished() {
      Answered? || Returned?
    }

    predicate Starting() {
      Locking? || RefreshLocking? || RecordLocking?
    }
  }

  /** closes[c] counts how often channel c has been closed; its length is the number made.
      Two fields only keep track: what the probe of each channel read, and whose probe the
      cached value comes from. */
  datatype State = State(
    mutex: Option<ThreadId>,
    probed: bool,
    probing: Option<Channel>,
    caps: Caps,
    verdict: Option<Enforcement>,
    threads: map<ThreadId, Pc>,
    closes: seq<nat>,
    readings: map<Channel, Caps>,
    source: Channel)

  function Init(caps: Caps): State {
    State(None, false, None, caps, None, map[], [], map[], 0)
  }

  predicate Enabled(s: State, t: ThreadId) {
    && t in s.threads
    && match s.threads[t]
       case Locking | Publishing(_, _) | RefreshLocking | RecordLocking(_) => s.mutex.None?
       case Waiting(ch) => ch < |s.closes| && s.closes[ch] > 0
       case Answered(_, _) | Returned => false
       case _ => true
  }

  function At(s: State, t: ThreadId, pc: Pc): State {
    s.(threads := s.threads[t := pc])
  }

  /** A passive probe that could not tell defers to what a self-test proved; a config
      read that could tell does not. */
  function Settle(found: Caps, verdict: Option<Enforcement>): Caps {
    if found.enforcement.Unknown? && verdict.Some? then found.(enforcement := verdict.value) else found
  }

  /** The next step of thread t; `found` is what the directory answers to a probe. */
  function Step(s: State, t: ThreadId, found: Caps): State
    requires Enabled(s, t)
  {
    match s.threads[t]
    case Locking => At(s.(mutex := Some(t)), t, Looking)
    case Looking =>
      if s.probed then At(s.(mutex := None), t, Answered(s.caps, s.source))
      else if s.probing.Some? then At(s.(mutex := None), t, Waiting(s.probing.value))
      else
        var ch := |s.closes|;
        At(s.(mutex := None, probing := Some(ch), closes := s.closes + [0]), t, Probing(ch))
    case Waiting(ch) => At(s, t, Locking)
    case Probing(ch) => At(s.(readings := s.readings[ch := found]), t, Publishing(ch, found))
    case Publishing(ch, f) => At(s.(mutex := Some(t)), t, Storing(ch, f))
    case Storing(ch, f) =>
      var caps := Settle(f, s.verdict);
      At(s.(mutex := None, probed := true, probing := None, caps := caps, source := ch), t, Closing(ch, caps))
    case Closing(ch, answer) =>
      if ch < |s.closes| then At(s.(closes := s.closes[ch := s.closes[ch] + 1]), t, Answered(answer, ch))
      else At(s, t, Answered(answer, ch))
    case RefreshLocking => At(s.(mutex := Some(t)), t, RefreshHolding)
    case RefreshHolding => At(s.(mutex := None, probed := false), t, Returned)
    case RecordLocking(v) => At(s.(mutex := Some(t)), t, RecordHolding(v))
    case RecordHolding(v) => At(s.(mutex := None, verdict := Some(v), probed := false), t, Returned)
  }

  ghost predicate Spawn(s: State, s': State) {
    exists t: ThreadId, pc: Pc :: t !in s.threads && pc.Starting() && s' == At(s, t, pc)
  }

  ghost predicate Next(s: State, s': State) {
    Spawn(s, s') || exists t: ThreadId, found: Caps :: Enabled(s, t) && s' == Step(s, t, found)
  }

  ghost predicate Run(run: seq<State>) {
    && run != [] && run[0] == Init(run[0].caps)
    && forall i :: 0 <= i < |run| - 1 ==> StepAt(run, i)
  }

  ghost predicate StepAt(run: seq<State>, i: nat)
    requires i + 1 < |run|
  {
    Next(run[i], run[i + 1])
  }

  // ---- the invariant ----

  ghost predicate MutexInv(s: State) {
    && (s.mutex.Some? ==> s.mutex.value in s.threads)
    && forall t :: t in s.threads ==> (s.threads[t].HoldsMutex() <==> s.mutex == Some(t))
  }

  /** A channel that thread t has made and not yet closed. */
  predicate Owns(s: State, t: ThreadId, c: Channel) {
    t in s.threads && s.threads[t].Owns(c)
  }

  ghost predicate OwnerInv(s: State) {
    && (forall t, c: Channel :: Owns(s, t, c) ==> c < |s.closes| && s.closes[c] == 0)
    && (forall t, u, c: Channel :: Owns(s, t, c) && Owns(s, u, c) ==> t == u)
  }

  ghost predicate ProbeInv(s: State) {
    && (forall t :: t in s.threads && s.threads[t].InFlight() ==> s.probing == Some(s.threads[t].ch))
    && (s.probing.Some? ==> exists t :: t in s.threads && s.threads[t].InFlight() && s.threads[t].ch == s.probing.value)
  }

  ghost predicate ChannelInv(s: State) {
    && (forall c: Channel :: c < |s.closes| ==> s.closes[c] == 1 || (s.closes[c] == 0 && Owned(s, c)))
    && (forall t :: t in s.threads && s.threads[t].Waiting? ==> s.threads[t].ch < |s.closes|)
  }

  ghost predicate Owned(s: State, c: Channel) {
    exists t :: Owns(s, t, c)
  }

  /** A verdict that says something. */
  predicate Definite(v: Option<Enforcement>) {
    v.Some? && !v.value.Unknown?
  }

  predicate VerdictInv(s: State) {
    s.probed && Definite(s.verdict) ==> !s.caps.enforcement.Unknown?
  }

  /** The answer a call has settled on, once it has one. */
  function AnswerOf(pc: Pc): Option<Caps> {
    match pc
    case Closing(_, a) => Some(a)
    case Answered(a, _) => Some(a)
    case _ => None
  }

  predicate HasAnswer(s: State, u: ThreadId) {
    u in s.threads && AnswerOf(s.threads[u]).Some?
  }

  /** The channel whose probe the answer comes from. */
  function AnswerFrom(pc: Pc): Channel
    requires AnswerOf(pc).Some?
  {
    if pc.Closing? then pc.ch else pc.from
  }

  /** What a probe's reading becomes: itself where it could tell about enforcement, and
      itself but for enforcement where it could not. */
  predicate Reflects(answer: Caps, reading: Caps) {
    && answer.scheduledExpiry == reading.scheduledExpiry && answer.netgroups == reading.netgroups
    && (!reading.enforcement.Unknown? ==> answer == reading)
  }

  predicate FromReading(s: State, answer: Caps, c: Channel) {
    c in s.readings && Reflects(answer, s.readings[c])
  }

  /** A call that has read holds its channel's reading, and one that has answered answers it. */
  predicate ThreadReads(readings: map<Channel, Caps>, pc: Pc) {
    && (pc.Probing? ==> pc.ch !in readings)
    && (pc.Publishing? || pc.Storing? ==> pc.ch in readings && readings[pc.ch] == pc.found)
    && (AnswerOf(pc).Some? ==> AnswerFrom(pc) in readings && Reflects(AnswerOf(pc).value, readings[AnswerFrom(pc)]))
  }

  ghost predicate ReadingInv(s: State) {
    && (forall c :: c in s.readings ==> c < |s.closes|)
    && (s.probed ==> FromReading(s, s.caps, s.source))
    && (forall t :: t in s.threads ==> ThreadReads(s.readings, s.threads[t]))
  }

  ghost predicate Inv(s: State) {
    MutexInv(s) && OwnerInv(s) && ProbeInv(s) && ChannelInv(s) && VerdictInv(s) && ReadingInv(s)
  }

  lemma SpawnKeepsInv(s: State, s': State)
    requires Inv(s) && Spawn(s, s')
    ensures Inv(s')
  {
    var t: ThreadId, pc: Pc :| t !in s.threads && pc.Starting() && s' == At(s, t, pc);
    forall c: Channel | c < |s'.closes| && s'.closes[c] == 0
      ensures Owned(s', c)
    {
      var u :| Owns(s, u, c);
      assert Owns(s', u, c);
    }
    if s.probing.Some? {
      var u :| u in s.threads && s.threads[u].InFlight() && s.threads[u].ch == s.probing.value;
      assert s'.threads[u].InFlight();
    }
    forall u, c: Channel | Owns(s', u, c)
      ensures Owns(s, u, c)
    {
    }
  }

  lemma StepKeepsMutex(s: State, t: ThreadId, found: Caps)
    requires MutexInv(s) && Enabled(s, t)
    ensures MutexInv(Step(s, t, found))
  {
  }

  lemma StepKeepsOwner(s: State, t: ThreadId, found: Caps)
    requires OwnerInv(s) && Enabled(s, t)
    ensures OwnerInv(Step(s, t, found))
  {
    var s' := Step(s, t, found);
    forall u, c: Channel | Owns(s', u, c)
      ensures c < |s.closes| ==> Owns(s, u, c)
      ensures c >= |s.closes| ==> u == t && c < |s'.closes|
      ensures c < |s.closes| && c < |s'.closes| ==> s'.closes[c] == s.closes[c]
    {
      if u != t || !s.threads[t].Looking? {
        assert Owns(s, u, c);
      }
      if s.threads[t].Closing? && c == s.threads[t].ch {
        assert Owns(s, t, c) && Owns(s, u, c);
      }
    }
  }

  lemma StepKeepsProbe(s: State, t: ThreadId, found: Caps)
    requires ProbeInv(s) && OwnerInv(s) && Enabled(s, t)
    ensures ProbeInv(Step(s, t, found))
  {
    var s' := Step(s, t, found);
    if s'.probing.Some? {
      if s.probing.Some? {
        var u :| u in s.threads && s.threads[u].InFlight() && s.threads[u].ch == s.probing.value;
        assert s'.threads[u].InFlight() && s'.threads[u].ch == s'.probing.value;
      } else {
        assert s'.threads[t].InFlight();
      }
    }
    if s.threads[t].Storing? {
      forall u | u in s.threads && s.threads[u].InFlight()
        ensures u == t
      {
        OneInFlight(s, t, u);
      }
    }
  }

  lemma OneInFlight(s: State, t: ThreadId, u: ThreadId)
    requires ProbeInv(s) && OwnerInv(s) && t in s.threads && u in s.threads
    requires s.threads[t].InFlight() && s.threads[u].InFlight()
    ensures t == u
  {
    assert Owns(s, t, s.probing.value) && Owns(s, u, s.probing.value);
  }

  /** What a step does to the channels, and to the ownership of its thread. */
  lemma ChannelsAfter(s: State, t: ThreadId, found: Caps)
    requires OwnerInv(s) && Enabled(s, t)
    ensures var s' := Step(s, t, found);
            && |s.closes| <= |s'.closes|
            && (forall c: Channel :: c < |s'.closes| && c >= |s.closes| ==> s'.closes[c] == 0 && Owns(s', t, c))
            && (forall c: Channel :: c < |s.closes| && !Owns(s, t, c) ==> s'.closes[c] == s.closes[c])
            && (forall c: Channel :: c < |s.closes| && Owns(s, t, c) ==>
                  if s.threads[t].Closing? then s'.closes[c] == 1 else s'.closes[c] == 0 && Owns(s', t, c))
  {
    assert s.threads[t].Closing? ==> Owns(s, t, s.threads[t].ch);
  }

  lemma ChannelKept(s: State, t: ThreadId, found: Caps, c: Channel)
    requires ChannelInv(s) && OwnerInv(s) && Enabled(s, t) && c < |Step(s, t, found).closes|
    ensures var s' := Step(s, t, found); s'.closes[c] == 1 || (s'.closes[c] == 0 && Owned(s', c))
  {
    ChannelsAfter(s, t, found);
    if c < |s.closes| && !Owns(s, t, c) && s.closes[c] == 0 {
      var u :| Owns(s, u, c);
      OtherStep(s, t, found, u);
      assert Owns(Step(s, t, found), u, c);
    }
  }

  lemma StepKeepsChannels(s: State, t: ThreadId, found: Caps)
    requires ChannelInv(s) && OwnerInv(s) && ProbeInv(s) && Enabled(s, t)
    ensures ChannelInv(Step(s, t, found))
  {
    var s' := Step(s, t, found);
    forall c: Channel | c < |s'.closes|
      ensures s'.closes[c] == 1 || (s'.closes[c] == 0 && Owned(s', c))
    {
      ChannelKept(s, t, found, c);
    }
    forall u | u in s'.threads && s'.threads[u].Waiting?
      ensures s'.threads[u].ch < |s'.closes|
    {
      if u == t {
        var v :| v in s.threads && s.threads[v].InFlight() && s.threads[v].ch == s.probing.value;
        assert Owns(s, v, s.probing.value);
      } else {
        assert s.threads[u].Waiting?;
      }
    }
  }

  lemma StepKeepsVerdict(s: State, t: ThreadId, found: Caps)
    requires VerdictInv(s) && Enabled(s, t)
    ensures VerdictInv(Step(s, t, found))
  {
  }

  /** At most the stepping probe's own reading is added. */
  lemma ReadingsStay(s: State, t: ThreadId, found: Caps)
    requires ReadingInv(s) && Enabled(s, t)
    ensures var s' := Step(s, t, found);
            && s'.readings == (if s.threads[t].Probing? then s.readings[s.threads[t].ch := found] else s.readings)
            && forall c :: c in s.readings ==> c in s'.readings && s'.readings[c] == s.readings[c]
  {
  }

  lemma OwnReading(s: State, t: ThreadId, found: Caps)
    requires Enabled(s, t) && ThreadReads(s.readings, s.threads[t])
    requires s.probed ==> FromReading(s, s.caps, s.source)
    requires forall c :: c in s.readings ==> c < |s.closes|
    requires s.threads[t].Probing? ==> s.threads[t].ch < |s.closes|
    ensures var s' := Step(s, t, found);
            && (s'.probed ==> FromReading(s', s'.caps, s'.source))
            && t in s'.threads && ThreadReads(s'.readings, s'.threads[t])
            && (forall c :: c in s'.readings ==> c < |s'.closes|)
  {
  }

  lemma StepKeepsReading(s: State, t: ThreadId, found: Caps)
    requires ReadingInv(s) && OwnerInv(s) && Enabled(s, t)
    ensures ReadingInv(Step(s, t, found))
  {
    if s.threads[t].Probing? {
      assert Owns(s, t, s.threads[t].ch);
    }
    OwnReading(s, t, found);
    ReadingsStay(s, t, found);
    forall u | u in s.threads && u != t
      ensures ThreadReads(Step(s, t, found).readings, Step(s, t, found).threads[u])
    {
      OtherStep(s, t, found, u);
      if s.threads[t].Probing? && s.threads[u].Probing? {
        assert Owns(s, u, s.threads[u].ch);
      }
    }
  }

  lemma NextKeepsInv(s: State, s': State)
    requires Inv(s) && Next(s, s')
    ensures Inv(s')
  {
    if Spawn(s, s') {
      SpawnKeepsInv(s, s');
    } else {
      var t: ThreadId, found: Caps :| Enabled(s, t) && s' == Step(s, t, found);
      StepKeepsMutex(s, t, found);
      StepKeepsOwner(s, t, found);
      StepKeepsProbe(s, t, found);
      StepKeepsChannels(s, t, found);
      StepKeepsVerdict(s, t, found);
      StepKeepsReading(s, t, found);
    }
  }

  lemma {:induction false} RunInv(run: seq<State>, i: nat)
    requires Run(run) && i < |run|
    ensures Inv(run[i])
  {
    if i > 0 {
      RunInv(run, i - 1);
      assert StepAt(run, i - 1);
      NextKeepsInv(run[i - 1], run[i]);
    }
  }

  // ---- what it means for callers ----

  /** In every interleaving: one probe at a time, never under the mutex; every channel
      is closed at most once and, once nobody owns it, exactly once; whoever waits waits
      on a channel already closed, or on one exactly one thread will close. */
  lemma SingleFlight(run: seq<State>, i: nat)
    requires Run(run) && i < |run|
    ensures var s := run[i];
            && (forall t, u :: t in s.threads && u in s.threads && s.threads[t].Probing? && s.threads[u].Probing? ==> t == u)
            && (forall t :: t in s.threads && s.threads[t].Probing? ==> s.mutex != Some(t))
            && (forall c: Channel :: c < |s.closes| ==> s.closes[c] <= 1)
            && (forall c: Channel :: c < |s.closes| && !Owned(s, c) ==> s.closes[c] == 1)
            && (forall t :: t in s.threads && s.threads[t].Waiting? ==>
                  var c := s.threads[t].ch;
                  && c < |s.closes|
                  && (s.closes[c] == 1 || Owned(s, c))
                  && forall u, v :: Owns(s, u, c) && Owns(s, v, c) ==> u == v)
  {
    RunInv(run, i);
    var s := run[i];
    forall t, u | t in s.threads && u in s.threads && s.threads[t].Probing? && s.threads[u].Probing?
      ensures t == u
    {
      assert s.threads[t].InFlight() && s.threads[u].InFlight();
      assert Owns(s, t, s.probing.value) && Owns(s, u, s.probing.value);
    }
    forall c: Channel | c < |s.closes| && !Owned(s, c)
      ensures s.closes[c] == 1
    {
    }
  }

  /** The mutex can never be wedged: whoever holds it can step, and that step frees it. */
  lemma MutexIsFreed(run: seq<State>, i: nat, found: Caps)
    requires Run(run) && i < |run| && run[i].mutex.Some?
    ensures Enabled(run[i], run[i].mutex.value) && Step(run[i], run[i].mutex.value, found).mutex.None?
  {
    RunInv(run, i);
  }

  /** No deadlock: while any call is unfinished, some call can take a step. */
  lemma NoDeadlock(run: seq<State>, i: nat, t: ThreadId)
    requires Run(run) && i < |run| && t in run[i].threads && !run[i].threads[t].Finished()
    ensures exists u :: Enabled(run[i], u)
  {
    RunInv(run, i);
    var s := run[i];
    if s.mutex.Some? {
      assert Enabled(s, s.mutex.value);
    } else if s.threads[t].Waiting? && s.closes[s.threads[t].ch] == 0 {
      var u :| Owns(s, u, s.threads[t].ch);
      assert Enabled(s, u);
    } else {
      assert Enabled(s, t);
    }
  }

  /** Thread t has not answered "unknown". */
  predicate Sure(s: State, t: ThreadId) {
    t in s.threads && AnswerOf(s.threads[t]).Some? ==> !AnswerOf(s.threads[t]).value.enforcement.Unknown?
  }

  lemma AnswerStep(s: State, u: ThreadId, found: Caps, t: ThreadId)
    requires VerdictInv(s) && Enabled(s, u) && Definite(s.verdict) && Sure(s, t)
    ensures Sure(Step(s, u, found), t)
  {
  }

  lemma AnswerNext(s: State, s': State, t: ThreadId)
    requires VerdictInv(s) && Next(s, s') && Definite(s.verdict) && Sure(s, t)
    ensures Sure(s', t)
  {
    if !Spawn(s, s') {
      var u: ThreadId, found: Caps :| Enabled(s, u) && s' == Step(s, u, found);
      AnswerStep(s, u, found, t);
    }
  }

  /** A call that starts once a verdict is recorded never answers "unknown", for as long
      as the stored verdict keeps saying something. */
  lemma {:induction false} VerdictRetained(run: seq<State>, i: nat, j: nat, t: ThreadId)
    requires Run(run) && i <= j < |run| && t !in run[i].threads
    requires forall k :: i <= k <= j ==> Definite(run[k].verdict)
    ensures Sure(run[j], t)
    decreases j
  {
    if i < j {
      VerdictRetained(run, i, j - 1, t);
      RunInv(run, j - 1);
      assert StepAt(run, j - 1);
      AnswerNext(run[j - 1], run[j], t);
    }
  }

  /** A probe is about to store this answer: its reading, settled by the verdict recorded now. */
  ghost predicate StoredAt(s: State, answer: Caps, c: Channel) {
    && (exists u :: u in s.threads && s.threads[u].Storing? && s.threads[u].ch == c)
    && c in s.readings && answer == Settle(s.readings[c], s.verdict)
  }

  /** Where the answer is new, it is being stored or taken from what is cached. */
  ghost predicate AnswerComes(s: State, s': State, u: ThreadId)
    requires HasAnswer(s', u)
  {
    var answer, from := AnswerOf(s'.threads[u]).value, AnswerFrom(s'.threads[u]);
    || (HasAnswer(s, u) && AnswerOf(s.threads[u]).value == answer && AnswerFrom(s.threads[u]) == from)
    || (s.probed && answer == s.caps && from == s.source)
    || StoredAt(s, answer, from)
  }

  lemma StepStores(s: State, t: ThreadId, found: Caps)
    requires Enabled(s, t) && ThreadReads(s.readings, s.threads[t])
    ensures var s' := Step(s, t, found);
            && (s'.probed ==> (s.probed && s'.caps == s.caps && s'.source == s.source) || StoredAt(s, s'.caps, s'.source))
            && (HasAnswer(s', t) ==> AnswerComes(s, s', t))
  {
  }

  lemma NextStores(s: State, s': State, u: ThreadId)
    requires ReadingInv(s) && Next(s, s')
    ensures s'.probed ==> (s.probed && s'.caps == s.caps && s'.source == s.source) || StoredAt(s, s'.caps, s'.source)
    ensures HasAnswer(s', u) ==> AnswerComes(s, s', u)
  {
    if !Spawn(s, s') {
      var t: ThreadId, found: Caps :| Enabled(s, t) && s' == Step(s, t, found);
      StepStores(s, t, found);
      if u != t && u in s.threads {
        OtherStep(s, t, found, u);
      }
    }
  }

  lemma ReadingsKept(s: State, s': State)
    requires ReadingInv(s) && Next(s, s')
    ensures forall c :: c in s.readings ==> c in s'.readings && s'.readings[c] == s.readings[c]
  {
    if !Spawn(s, s') {
      var t: ThreadId, found: Caps :| Enabled(s, t) && s' == Step(s, t, found);
      ReadingsStay(s, t, found);
    }
  }

  /** The answer was stored by one probe, at the end of its channel's reading. */
  ghost predicate StoredBefore(run: seq<State>, i: nat, answer: Caps, c: Channel)
    requires i < |run|
  {
    exists j :: 0 <= j < i && StoredAt(run[j], answer, c) && c in run[i].readings && run[i].readings[c] == run[j].readings[c]
  }

  lemma StoredStill(run: seq<State>, i: nat, answer: Caps, c: Channel)
    requires Run(run) && i + 1 < |run|
    requires StoredBefore(run, i, answer, c) || StoredAt(run[i], answer, c)
    ensures StoredBefore(run, i + 1, answer, c)
  {
    RunInv(run, i);
    assert StepAt(run, i);
    ReadingsKept(run[i], run[i + 1]);
  }

  /** Over every run, what is cached and what any call answers was stored by one probe: its own
      reading where that could tell about enforcement, so that a policy since removed shows,
      and where it could not, with the verdict recorded at the time of storing, if any. */
  lemma {:induction false} ConfigReadWins(run: seq<State>, i: nat)
    requires Run(run) && i < |run|
    ensures run[i].probed ==> StoredBefore(run, i, run[i].caps, run[i].source)
    ensures forall t :: HasAnswer(run[i], t) ==>
              StoredBefore(run, i, AnswerOf(run[i].threads[t]).value, AnswerFrom(run[i].threads[t]))
  {
    if i > 0 {
      var s, s' := run[i - 1], run[i];
      ConfigReadWins(run, i - 1);
      RunInv(run, i - 1);
      assert StepAt(run, i - 1);
      NextStores(s, s', 0);
      if s'.probed {
        StoredStill(run, i - 1, s'.caps, s'.source);
      }
      forall t | HasAnswer(s', t)
        ensures StoredBefore(run, i, AnswerOf(s'.threads[t]).value, AnswerFrom(s'.threads[t]))
      {
        NextStores(s, s', t);
        StoredStill(run, i - 1, AnswerOf(s'.threads[t]).value, AnswerFrom(s'.threads[t]));
      }
    }
  }

  /** Over every run: what is cached, and what any call answers, is the reading of one probe,
      and where that reading could tell, it is the reading itself, whatever was recorded. */
  lemma AnswersAreReadings(run: seq<State>, i: nat)
    requires Run(run) && i < |run|
    ensures run[i].probed ==> FromReading(run[i], run[i].caps, run[i].source)
    ensures forall t :: t in run[i].threads && AnswerOf(run[i].threads[t]).Some? ==>
              FromReading(run[i], AnswerOf(run[i].threads[t]).value, AnswerFrom(run[i].threads[t]))
  {
    RunInv(run, i);
  }

  // ---- the owner of a channel closes it ----

  /** The steps an owner has left until its channel is closed. */
  function Left(pc: Pc): nat {
    match pc
    case Probing(_) => 4
    case Publishing(_, _) => 3
    case Storing(_, _) => 2
    case Closing(_, _) => 1
    case _ => 0
  }

  /** The steps thread u took between states i and j of a run. */
  ghost function OwnSteps(run: seq<State>, i: nat, j: nat, u: ThreadId): nat
    requires i <= j < |run| && forall k :: i <= k <= j ==> u in run[k].threads
    decreases j
  {
    if i == j then 0
    else OwnSteps(run, i, j - 1, u) + if run[j].threads[u] != run[j - 1].threads[u] then 1 else 0
  }

  ghost predicate Closed(s: State, c: Channel) {
    c < |s.closes| && s.closes[c] == 1
  }

  ghost predicate CloserTo(s: State, s': State, u: ThreadId, c: Channel)
    requires u in s.threads
  {
    && u in s'.threads
    && (s'.threads[u] == s.threads[u]
        || Closed(s', c)
        || (Owns(s', u, c) && Left(s'.threads[u]) + 1 == Left(s.threads[u])))
  }

  lemma OwnStepCloses(s: State, u: ThreadId, found: Caps, c: Channel)
    requires OwnerInv(s) && Enabled(s, u) && Owns(s, u, c)
    ensures CloserTo(s, Step(s, u, found), u, c)
  {
  }

  lemma OtherStep(s: State, t: ThreadId, found: Caps, u: ThreadId)
    requires Enabled(s, t) && u in s.threads && u != t
    ensures u in Step(s, t, found).threads && Step(s, t, found).threads[u] == s.threads[u]
  {
  }

  lemma OwnerStep(s: State, s': State, u: ThreadId, c: Channel)
    requires OwnerInv(s) && Next(s, s') && Owns(s, u, c)
    ensures CloserTo(s, s', u, c)
  {
    if Spawn(s, s') {
      var t: ThreadId, pc: Pc :| t !in s.threads && pc.Starting() && s' == At(s, t, pc);
    } else {
      var t: ThreadId, found: Caps :| Enabled(s, t) && s' == Step(s, t, found);
      if t == u {
        OwnStepCloses(s, u, found, c);
      } else {
        OtherStep(s, t, found, u);
      }
    }
  }

  lemma ClosesOnlyGrow(s: State, t: ThreadId, found: Caps, c: Channel)
    requires Enabled(s, t) && c < |s.closes|
    ensures c < |Step(s, t, found).closes| && s.closes[c] <= Step(s, t, found).closes[c]
  {
  }

  lemma StaysClosed(s: State, s': State, c: Channel)
    requires Next(s, s') && ChannelInv(s') && Closed(s, c)
    ensures Closed(s', c)
  {
    if Spawn(s, s') {
      var t: ThreadId, pc: Pc :| t !in s.threads && pc.Starting() && s' == At(s, t, pc);
    } else {
      var t: ThreadId, found: Caps :| Enabled(s, t) && s' == Step(s, t, found);
      ClosesOnlyGrow(s, t, found, c);
    }
  }

  lemma ThreadStays(s: State, s': State, u: ThreadId)
    requires Next(s, s') && u in s.threads
    ensures u in s'.threads
  {
    if !Spawn(s, s') {
      var t: ThreadId, found: Caps :| Enabled(s, t) && s' == Step(s, t, found);
      if u != t {
        OtherStep(s, t, found, u);
      }
    }
  }

  lemma {:induction false} ThreadsStay(run: seq<State>, i: nat, j: nat, u: ThreadId)
    requires Run(run) && i <= j < |run| && u in run[i].threads
    ensures forall k :: i <= k <= j ==> u in run[k].threads
    decreases j
  {
    if i < j {
      ThreadsStay(run, i, j - 1, u);
      assert StepAt(run, j - 1);
      ThreadStays(run[j - 1], run[j], u);
    }
  }

  /** Closed, or `left` own steps of u away from it. */
  ghost predicate OnTheWay(s: State, u: ThreadId, c: Channel, left: int) {
    Closed(s, c) || (Owns(s, u, c) && Left(s.threads[u]) == left)
  }

  lemma OnTheWayNext(s: State, s': State, u: ThreadId, c: Channel, left: int)
    requires Inv(s) && Inv(s') && Next(s, s') && OnTheWay(s, u, c, left) && u in s.threads && u in s'.threads
    ensures OnTheWay(s', u, c, if s'.threads[u] == s.threads[u] then left else left - 1)
  {
    if Closed(s, c) {
      StaysClosed(s, s', c);
    } else {
      OwnerStep(s, s', u, c);
    }
  }

  lemma OnTheWayStep(run: seq<State>, j: nat, u: ThreadId, c: Channel, left: int)
    requires Run(run) && j + 1 < |run| && u in run[j].threads && OnTheWay(run[j], u, c, left)
    ensures u in run[j + 1].threads
    ensures OnTheWay(run[j + 1], u, c, if run[j + 1].threads[u] == run[j].threads[u] then left else left - 1)
  {
    RunInv(run, j);
    RunInv(run, j + 1);
    assert StepAt(run, j);
    ThreadStays(run[j], run[j + 1], u);
    OnTheWayNext(run[j], run[j + 1], u, c, left);
  }

  lemma {:induction false} OnTheWayAfter(run: seq<State>, i: nat, j: nat, u: ThreadId, c: Channel)
    requires Run(run) && i <= j < |run| && Owns(run[i], u, c)
    ensures forall k :: i <= k <= j ==> u in run[k].threads
    ensures OnTheWay(run[j], u, c, Left(run[i].threads[u]) - OwnSteps(run, i, j, u))
    decreases j
  {
    ThreadsStay(run, i, j, u);
    if i < j {
      OnTheWayAfter(run, i, j - 1, u, c);
      OnTheWayStep(run, j - 1, u, c, Left(run[i].threads[u]) - OwnSteps(run, i, j - 1, u));
    }
  }

  /** Whoever owns a channel closes it within four steps of its own, and until then it can
      step, or the holder of the mutex can and so frees it. */
  lemma OwnerCloses(run: seq<State>, i: nat, j: nat, u: ThreadId, c: Channel)
    requires Run(run) && i <= j < |run| && Owns(run[i], u, c)
    ensures forall k :: i <= k <= j ==> u in run[k].threads
    ensures OnTheWay(run[j], u, c, Left(run[i].threads[u]) - OwnSteps(run, i, j, u))
    ensures OwnSteps(run, i, j, u) >= 4 ==> Closed(run[j], c)
    ensures Closed(run[j], c) || Enabled(run[j], u) || run[j].mutex.Some?
  {
    OnTheWayAfter(run, i, j, u, c);
    RunInv(run, j);
  }

  // ---- what a recorded verdict is worth ----

  /** Thread t takes the step that records v. */
  ghost predicate Recorded(s: State, s': State, t: ThreadId, v: Enforcement) {
    && t in s.threads && s.threads[t] == RecordHolding(v)
    && Enabled(s, t) && exists found: Caps :: s' == Step(s, t, found)
  }

  /** No call is about to record anything else. */
  ghost predicate RecordsOnly(s: State, v: Enforcement) {
    forall u :: u in s.threads && s.threads[u].RecordHolding? ==> s.threads[u].verdict == v
  }

  /** Where the probe could not tell, the answer is v. */
  predicate FallsBack(readings: map<Channel, Caps>, answer: Caps, c: Channel, v: Enforcement) {
    c in readings && readings[c].enforcement.Unknown? ==> answer.enforcement == v
  }

  ghost predicate Retains(s: State, v: Enforcement, before: State) {
    && s.verdict == Some(v)
    && (s.probed ==> FallsBack(s.readings, s.caps, s.source, v))
    && (forall u :: HasAnswer(s, u) && !HasAnswer(before, u) ==>
          FallsBack(s.readings, AnswerOf(s.threads[u]).value, AnswerFrom(s.threads[u]), v))
    && (forall u :: HasAnswer(before, u) ==> HasAnswer(s, u))
  }

  lemma RecordedRetains(s: State, s': State, t: ThreadId, v: Enforcement)
    requires Recorded(s, s', t, v)
    ensures Retains(s', v, s')
  {
  }

  /** What one step does to the verdict, the cache and its own thread's answer. */
  lemma RetainsOwn(s: State, t: ThreadId, found: Caps, v: Enforcement)
    requires Enabled(s, t) && s.verdict == Some(v) && RecordsOnly(s, v) && ThreadReads(s.readings, s.threads[t])
    requires s.probed ==> s.source in s.readings && FallsBack(s.readings, s.caps, s.source, v)
    ensures var s' := Step(s, t, found);
            && s'.verdict == Some(v)
            && (s'.probed ==> FallsBack(s.readings, s'.caps, s'.source, v) && s'.source in s.readings)
            && (HasAnswer(s', t) && !HasAnswer(s, t) ==>
                  && FallsBack(s.readings, AnswerOf(s'.threads[t]).value, AnswerFrom(s'.threads[t]), v)
                  && AnswerFrom(s'.threads[t]) in s.readings)
            && (HasAnswer(s, t) ==>
                  && HasAnswer(s', t) && AnswerOf(s'.threads[t]) == AnswerOf(s.threads[t])
                  && AnswerFrom(s'.threads[t]) == AnswerFrom(s.threads[t]))
  {
  }

  lemma RetainsStep(s: State, t: ThreadId, found: Caps, v: Enforcement, before: State)
    requires ReadingInv(s) && Enabled(s, t) && RecordsOnly(s, v) && Retains(s, v, before)
    ensures Retains(Step(s, t, found), v, before)
  {
    var s' := Step(s, t, found);
    RetainsOwn(s, t, found, v);
    ReadingsStay(s, t, found);
    forall u | u != t
      ensures HasAnswer(s', u) <==> HasAnswer(s, u)
      ensures HasAnswer(s, u) ==> s'.threads[u] == s.threads[u] && AnswerFrom(s.threads[u]) in s.readings
    {
      OtherAnswer(s, t, found, u);
    }
    assert HasAnswer(s, t) ==> ThreadReads(s.readings, s.threads[t]);
  }

  lemma OtherAnswer(s: State, t: ThreadId, found: Caps, u: ThreadId)
    requires ReadingInv(s) && Enabled(s, t) && u != t
    ensures HasAnswer(Step(s, t, found), u) <==> HasAnswer(s, u)
    ensures HasAnswer(s, u) ==> Step(s, t, found).threads[u] == s.threads[u] && AnswerFrom(s.threads[u]) in s.readings
  {
    if u in s.threads {
      OtherStep(s, t, found, u);
      assert ThreadReads(s.readings, s.threads[u]);
    }
  }

  lemma RetainsNext(s: State, s': State, v: Enforcement, before: State)
    requires ReadingInv(s) && Next(s, s') && RecordsOnly(s, v) && Retains(s, v, before)
    ensures Retains(s', v, before)
  {
    if Spawn(s, s') {
      var t: ThreadId, pc: Pc :| t !in s.threads && pc.Starting() && s' == At(s, t, pc);
      forall u
        ensures HasAnswer(s', u) <==> HasAnswer(s, u)
      {
      }
    } else {
      var t: ThreadId, found: Caps :| Enabled(s, t) && s' == Step(s, t, found);
      RetainsStep(s, t, found, v, before);
    }
  }

  /** A verdict recorded stays recorded until another one is. From then on, whatever is cached,
      and whatever is answered by calls that had no answer yet, says it wherever the probe
      behind it could not tell. */
  lemma RecordedIsAnswered(run: seq<State>, i: nat, j: nat, t: ThreadId, v: Enforcement)
    requires Run(run) && i < j < |run| && Recorded(run[i], run[i + 1], t, v)
    requires forall k :: i < k < j ==> RecordsOnly(run[k], v)
    ensures run[j].verdict == Some(v)
    ensures run[j].probed ==>
              && run[j].source in run[j].readings
              && (run[j].readings[run[j].source].enforcement.Unknown? ==> run[j].caps.enforcement == v)
    ensures forall u :: HasAnswer(run[j], u) && !HasAnswer(run[i + 1], u) ==>
              && AnswerFrom(run[j].threads[u]) in run[j].readings
              && (run[j].readings[AnswerFrom(run[j].threads[u])].enforcement.Unknown? ==> AnswerOf(run[j].threads[u]).value.enforcement == v)
  {
    RetainedFrom(run, i, j, t, v);
    AnswersAreReadings(run, j);
  }

  lemma {:induction false} RetainedFrom(run: seq<State>, i: nat, j: nat, t: ThreadId, v: Enforcement)
    requires Run(run) && i < j < |run| && Recorded(run[i], run[i + 1], t, v)
    requires forall k :: i < k < j ==> RecordsOnly(run[k], v)
    ensures Retains(run[j], v, run[i + 1])
    decreases j
  {
    if j == i + 1 {
      RecordedRetains(run[i], run[j], t, v);
    } else {
      RetainedFrom(run, i, j - 1, t, v);
      RunInv(run, j - 1);
      assert StepAt(run, j - 1);
      RetainsNext(run[j - 1], run[j], v, run[i + 1]);
    }
  }

  // ---- what the cache is worth ----

  /** The cache answers: no probe is running, and no call has one to make. */
  ghost predicate Serves(s: State, caps: Caps, c: Channel, n: nat) {
    s.probed && s.caps == caps && s.source == c && s.probing.None? && |s.closes| == n
  }

  lemma ServesOwn(s: State, t: ThreadId, found: Caps)
    requires Enabled(s, t) && s.probed && s.probing.None? && !s.threads[t].InFlight() && !Invalidates(s, t)
    ensures var s' := Step(s, t, found);
            && Serves(s', s.caps, s.source, |s.closes|)
            && (HasAnswer(s', t) && !HasAnswer(s, t) ==> s'.threads[t] == Answered(s.caps, s.source))
            && (HasAnswer(s', t) && HasAnswer(s, t) ==> AnswersAs(s', s, t))
  {
  }

  lemma CachedMeansIdle(run: seq<State>, i: nat)
    requires Run(run) && i < |run| && run[i].probed
    ensures run[i].probing.None?
    decreases i
  {
    if i > 0 {
      assert StepAt(run, i - 1);
      RunInv(run, i - 1);
      if run[i - 1].probed {
        CachedMeansIdle(run, i - 1);
      }
      IdleNext(run[i - 1], run[i]);
    }
  }

  lemma IdleNext(s: State, s': State)
    requires Next(s, s') && (s.probed ==> s.probing.None?)
    ensures s'.probed ==> s'.probing.None?
  {
    if !Spawn(s, s') {
      var t: ThreadId, found: Caps :| Enabled(s, t) && s' == Step(s, t, found);
      IdleStep(s, t, found);
    }
  }

  lemma IdleStep(s: State, t: ThreadId, found: Caps)
    requires Enabled(s, t) && (s.probed ==> s.probing.None?)
    ensures Step(s, t, found).probed ==> Step(s, t, found).probing.None?
  {
  }

  /** Nobody takes the step that throws the cached answer away. */
  ghost predicate Undisturbed(s: State, s': State) {
    forall t :: Invalidates(s, t) ==> t in s'.threads && s'.threads[t] == s.threads[t]
  }

  lemma CacheServesNext(run: seq<State>, i: nat)
    requires Run(run) && i + 1 < |run| && run[i].probed && Undisturbed(run[i], run[i + 1])
    ensures Serves(run[i + 1], run[i].caps, run[i].source, |run[i].closes|)
    ensures forall t :: HasAnswer(run[i + 1], t) ==>
              if HasAnswer(run[i], t) then AnswersAs(run[i + 1], run[i], t) else run[i + 1].threads[t] == Answered(run[i].caps, run[i].source)
  {
    var s, s' := run[i], run[i + 1];
    CachedMeansIdle(run, i);
    RunInv(run, i);
    assert StepAt(run, i);
    if !Spawn(s, s') {
      var t: ThreadId, found: Caps :| Enabled(s, t) && s' == Step(s, t, found);
      if Invalidates(s, t) {
        InvalidatingMoves(s, t, found);
      }
      ServesOwn(s, t, found);
      forall u | u != t && HasAnswer(s', u)
        ensures HasAnswer(s, u) && s'.threads[u] == s.threads[u]
      {
        if u in s.threads {
          OtherStep(s, t, found, u);
        }
      }
    }
  }

  ghost predicate AnswersAs(s': State, s: State, t: ThreadId)
    requires HasAnswer(s', t) && HasAnswer(s, t)
  {
    AnswerOf(s'.threads[t]) == AnswerOf(s.threads[t]) && AnswerFrom(s'.threads[t]) == AnswerFrom(s.threads[t])
  }

  /** While something is cached and nobody throws it away, no call probes: each one that gets
      an answer gets what is cached. */
  lemma {:induction false} CacheServes(run: seq<State>, i: nat, j: nat)
    requires Run(run) && i <= j < |run| && run[i].probed
    requires forall k :: i <= k < j ==> Undisturbed(run[k], run[k + 1])
    ensures Serves(run[j], run[i].caps, run[i].source, |run[i].closes|)
    ensures forall t :: HasAnswer(run[j], t) && !HasAnswer(run[i], t) ==>
              AnswerOf(run[j].threads[t]) == Some(run[i].caps) && AnswerFrom(run[j].threads[t]) == run[i].source
    decreases j
  {
    if i < j {
      CacheServes(run, i, j - 1);
      CacheServesNext(run, j - 1);
      forall t | HasAnswer(run[j], t) && !HasAnswer(run[i], t)
        ensures AnswerOf(run[j].threads[t]) == Some(run[i].caps) && AnswerFrom(run[j].threads[t]) == run[i].source
      {
        if HasAnswer(run[j - 1], t) {
          assert AnswersAs(run[j], run[j - 1], t);
        }
      }
    } else {
      CachedMeansIdle(run, i);
    }
  }

  lemma InvalidatingMoves(s: State, t: ThreadId, found: Caps)
    requires Enabled(s, t) && Invalidates(s, t)
    ensures Step(s, t, found).threads[t] != s.threads[t]
  {
  }

  /** At most one probe so far, and if there was one it is under way or its answer is cached. */
  ghost predicate ProbedOnce(s: State) {
    |s.closes| <= 1 && (|s.closes| == 1 ==> s.probed || s.probing.Some?)
  }

  lemma ProbedOnceStep(s: State, t: ThreadId, found: Caps)
    requires ProbedOnce(s) && Enabled(s, t) && !Invalidates(s, t)
    ensures ProbedOnce(Step(s, t, found))
  {
  }

  /** However many calls come, the directory is probed once, unless a refresh or a recorded
      verdict takes effect: every answer there is comes from that probe. */
  lemma {:induction false} OneProbe(run: seq<State>, i: nat)
    requires Run(run) && i < |run| && forall k :: 0 <= k < i ==> Undisturbed(run[k], run[k + 1])
    ensures ProbedOnce(run[i])
    ensures forall t :: HasAnswer(run[i], t) ==> AnswerFrom(run[i].threads[t]) == 0
  {
    if i > 0 {
      OneProbe(run, i - 1);
      assert StepAt(run, i - 1);
      if !Spawn(run[i - 1], run[i]) {
        var t: ThreadId, found: Caps :| Enabled(run[i - 1], t) && run[i] == Step(run[i - 1], t, found);
        if Invalidates(run[i - 1], t) {
          InvalidatingMoves(run[i - 1], t, found);
        }
        ProbedOnceStep(run[i - 1], t, found);
      }
    }
    RunInv(run, i);
    forall t | HasAnswer(run[i], t)
      ensures AnswerFrom(run[i].threads[t]) == 0
    {
      assert ThreadReads(run[i].readings, run[i].threads[t]);
    }
  }

  /** Who waits for a probe goes on only once its channel is closed. */
  lemma WaitsForClose(run: seq<State>, i: nat, t: ThreadId)
    requires Run(run) && i + 1 < |run| && t in run[i].threads && run[i].threads[t].Waiting?
    requires t !in run[i + 1].threads || run[i + 1].threads[t] != run[i].threads[t]
    ensures Closed(run[i], run[i].threads[t].ch)
  {
    RunInv(run, i);
    assert StepAt(run, i);
    if !Spawn(run[i], run[i + 1]) {
      var u: ThreadId, found: Caps :| Enabled(run[i], u) && run[i + 1] == Step(run[i], u, found);
      if u != t {
        OtherStep(run[i], u, found, t);
      }
    }
  }

  // ---- when a refresh forces a new reading ----

  /** The next step of t throws the cached answer away: a refresh, or a recorded verdict. */
  predicate Invalidates(s: State, t: ThreadId) {
    t in s.threads && (s.threads[t].RefreshHolding? || s.threads[t].RecordHolding?)
  }

  /** A run that goes on after t, in its last state, throws the cached answer away. */
  ghost predicate GoesOn(run: seq<State>, t: ThreadId, more: seq<State>) {
    && Run(run) && Invalidates(run[|run| - 1], t)
    && more != [] && more[0] == Step(run[|run| - 1], t, run[|run| - 1].caps)
    && Run(run + more)
  }

  /** What is cached, and what was answered by calls that had no answer before, comes from a
      probe begun after the first n. */
  ghost predicate ReadAnew(s: State, n: nat, before: State) {
    && (s.probed ==> s.source >= n)
    && (forall u :: HasAnswer(s, u) && !HasAnswer(before, u) ==> AnswerFrom(s.threads[u]) >= n)
  }

  /** And no older probe is on its way. */
  ghost predicate NoneOlder(s: State, n: nat, before: State) {
    && ReadAnew(s, n, before) && n <= |s.closes|
    && (forall u :: u in s.threads && s.threads[u].InFlight() ==> s.threads[u].ch >= n)
    && (forall u :: u in before.threads ==> u in s.threads)
    && (forall u :: HasAnswer(before, u) ==> HasAnswer(s, u))
  }

  lemma NoneOlderSpawn(s: State, u: ThreadId, pc: Pc, n: nat, before: State)
    requires u !in s.threads && pc.Starting() && NoneOlder(s, n, before)
    ensures NoneOlder(At(s, u, pc), n, before)
  {
    var s' := At(s, u, pc);
    forall v | HasAnswer(s', v) ensures HasAnswer(s, v) && s'.threads[v] == s.threads[v] {
    }
    forall v | HasAnswer(before, v) ensures HasAnswer(s', v) {
      assert HasAnswer(s, v);
    }
  }

  /** What a step does to the thread that takes it. */
  ghost predicate OwnPart(s: State, s': State, t: ThreadId, n: nat)
    requires t in s.threads
  {
    && s'.threads.Keys == s.threads.Keys && |s.closes| <= |s'.closes|
    && (s'.probed ==> s'.source >= n)
    && (s'.threads[t].InFlight() ==> s'.threads[t].ch >= n)
    && (AnswerOf(s.threads[t]).None? && AnswerOf(s'.threads[t]).Some? ==> AnswerFrom(s'.threads[t]) >= n)
    && (AnswerOf(s.threads[t]).Some? ==>
          AnswerOf(s'.threads[t]).Some? && AnswerFrom(s'.threads[t]) == AnswerFrom(s.threads[t]))
  }

  lemma StepsOwnPart(s: State, t: ThreadId, found: Caps, n: nat)
    requires Enabled(s, t) && n <= |s.closes| && (s.probed ==> s.source >= n)
    requires s.threads[t].InFlight() ==> s.threads[t].ch >= n
    ensures OwnPart(s, Step(s, t, found), t, n)
  {
  }

  lemma NoneOlderAfter(s: State, s': State, t: ThreadId, n: nat, before: State)
    requires t in s.threads && NoneOlder(s, n, before) && OwnPart(s, s', t, n)
    requires forall v :: v in s.threads && v != t ==> s'.threads[v] == s.threads[v]
    ensures NoneOlder(s', n, before)
  {
    forall v | HasAnswer(before, v) ensures HasAnswer(s', v) {
      assert HasAnswer(s, v);
    }
    forall v | HasAnswer(s', v) && !HasAnswer(before, v)
      ensures AnswerFrom(s'.threads[v]) >= n
    {
      if AnswerOf(s.threads[v]).Some? {
        assert HasAnswer(s, v);
      }
    }
  }

  lemma NoneOlderStep(s: State, t: ThreadId, found: Caps, n: nat, before: State)
    requires Enabled(s, t) && NoneOlder(s, n, before)
    ensures NoneOlder(Step(s, t, found), n, before)
  {
    StepsOwnPart(s, t, found, n);
    forall v | v in s.threads && v != t ensures Step(s, t, found).threads[v] == s.threads[v] {
      OtherStep(s, t, found, v);
    }
    NoneOlderAfter(s, Step(s, t, found), t, n, before);
  }

  lemma NoneOlderNext(s: State, s': State, n: nat, before: State)
    requires Next(s, s') && NoneOlder(s, n, before)
    ensures NoneOlder(s', n, before)
  {
    if Spawn(s, s') {
      var t: ThreadId, pc: Pc :| t !in s.threads && pc.Starting() && s' == At(s, t, pc);
      NoneOlderSpawn(s, t, pc, n, before);
    } else {
      var t: ThreadId, found: Caps :| Enabled(s, t) && s' == Step(s, t, found);
      NoneOlderStep(s, t, found, n, before);
    }
  }

  lemma NoneOlderFirst(s: State, t: ThreadId)
    requires ProbeInv(s) && Invalidates(s, t) && s.probing.None?
    ensures NoneOlder(Step(s, t, s.caps), |s.closes|, s)
  {
    var s' := Step(s, t, s.caps);
    forall v | HasAnswer(s', v) ensures HasAnswer(s, v) {
    }
    forall v | HasAnswer(s, v) ensures HasAnswer(s', v) {
    }
  }

  /** With no probe in flight, everything cached or answered from then on was read after. */
  lemma {:induction false} ForcedWhenIdle(run: seq<State>, t: ThreadId, more: seq<State>, j: nat)
    requires GoesOn(run, t, more) && run[|run| - 1].probing.None? && j < |more|
    ensures NoneOlder(more[j], |run[|run| - 1].closes|, run[|run| - 1])
  {
    var n := |run|;
    var s := run[n - 1];
    if j == 0 {
      RunInv(run, n - 1);
      NoneOlderFirst(s, t);
    } else {
      ForcedWhenIdle(run, t, more, j - 1);
      Follows(run, more, j);
      NoneOlderNext(more[j - 1], more[j], |s.closes|, s);
    }
  }

  lemma Follows(run: seq<State>, more: seq<State>, j: nat)
    requires Run(run + more) && 0 < j < |more|
    ensures Next(more[j - 1], more[j])
  {
    var all, k := run + more, |run| + j - 1;
    assert StepAt(all, k) && all[k] == more[j - 1] && all[k + 1] == more[j];
  }

  lemma RunExtends(run: seq<State>, s: State)
    requires Run(run) && Next(run[|run| - 1], s)
    ensures Run(run + [s])
  {
    var all := run + [s];
    forall i | 0 <= i < |all| - 1
      ensures StepAt(all, i)
    {
      assert i < |run| - 1 ==> StepAt(run, i);
    }
  }

  lemma OwnStep(run: seq<State>, u: ThreadId, found: Caps) returns (longer: seq<State>)
    requires Run(run) && Enabled(run[|run| - 1], u)
    ensures Run(longer) && longer == run + [Step(run[|run| - 1], u, found)]
  {
    var s := run[|run| - 1];
    var s' := Step(s, u, found);
    assert Next(s, s');
    RunExtends(run, s');
    longer := run + [s'];
  }

  /** A probe left to itself stores what it reads, or has read. */
  lemma {:induction false} Finishes(run: seq<State>, u: ThreadId) returns (longer: seq<State>)
    requires Run(run)
    requires var s := run[|run| - 1]; u in s.threads && s.threads[u].InFlight() && (s.mutex.None? || s.mutex == Some(u))
    ensures Run(longer) && run < longer
    ensures var s, last := run[|run| - 1], longer[|longer| - 1];
            var c := s.threads[u].ch;
            && last.probed && last.source == c
            && (c in s.readings ==> Reflects(last.caps, s.readings[c]))
    decreases Left(run[|run| - 1].threads[u])
  {
    var s := run[|run| - 1];
    RunInv(run, |run| - 1);
    longer := OwnStep(run, u, s.caps);
    var s' := longer[|longer| - 1];
    if !s.threads[u].Storing? {
      ReadingsStay(s, u, s.caps);
      longer := Finishes(longer, u);
    }
  }

  /** With one in flight, some continuation caches the older probe's reading, and the very
      reading it had made before if it had made one. */
  lemma StaleWhenBusy(run: seq<State>, t: ThreadId) returns (more: seq<State>)
    requires Run(run) && Invalidates(run[|run| - 1], t) && run[|run| - 1].probing.Some?
    ensures GoesOn(run, t, more)
    ensures var s, last := run[|run| - 1], more[|more| - 1];
            && last.probed && last.source == s.probing.value < |s.closes|
            && (s.probing.value in s.readings ==> Reflects(last.caps, s.readings[s.probing.value]))
  {
    var s := run[|run| - 1];
    RunInv(run, |run| - 1);
    var u :| u in s.threads && s.threads[u].InFlight() && s.threads[u].ch == s.probing.value;
    assert Owns(s, u, s.probing.value);
    var first := OwnStep(run, t, s.caps);
    OtherStep(s, t, s.caps, u);
    var longer := Finishes(first, u);
    more := longer[|run|..];
    assert run <= first <= longer && run + more == longer;
    assert more[0] == longer[|run|] == first[|run|];
  }

  /** A refresh, or a recorded verdict, forces a new reading exactly when no probe is in
      flight as it takes effect: then every continuation reads anew, else some does not. */
  lemma RefreshForcesExactly(run: seq<State>, t: ThreadId)
    requires Run(run) && Invalidates(run[|run| - 1], t)
    ensures var s := run[|run| - 1];
            s.probing.None? <==>
              forall more :: GoesOn(run, t, more) ==> ReadAnew(more[|more| - 1], |s.closes|, s)
  {
    var s := run[|run| - 1];
    if s.probing.None? {
      forall more | GoesOn(run, t, more)
        ensures ReadAnew(more[|more| - 1], |s.closes|, s)
      {
        ForcedWhenIdle(run, t, more, |more| - 1);
      }
    } else {
      var more := StaleWhenBusy(run, t);
      assert GoesOn(run, t, more) && !ReadAnew(more[|more| - 1], |s.closes|, s);
    }
  }

  /** Call 0 has read `stale` and not yet stored it. */
  function HasRead(caps: Caps, stale: Caps): State {
    State(None, false, Some(0), caps, None, map[0 := Publishing(0, stale)], [0], map[0 := stale], 0)
  }

  /** Since then call 1 has refreshed and returned. */
  function HasRefreshed(caps: Caps, stale: Caps): State {
    HasRead(caps, stale).(threads := map[0 := Publishing(0, stale), 1 := Returned])
  }

  lemma ReachReading(caps: Caps, stale: Caps) returns (run: seq<State>)
    ensures Run(run) && run[|run| - 1] == HasRead(caps, stale)
  {
    var s0 := Init(caps);
    assert Spawn(s0, At(s0, 0, Locking));
    run := [s0];
    RunExtends(run, At(s0, 0, Locking));
    run := run + [At(s0, 0, Locking)];
    run := OwnStep(run, 0, stale);
    run := OwnStep(run, 0, stale);
    run := OwnStep(run, 0, stale);
  }

  lemma ThenRefresh(run: seq<State>, caps: Caps, stale: Caps) returns (longer: seq<State>)
    requires Run(run) && run[|run| - 1] == HasRead(caps, stale)
    ensures Run(longer) && run <= longer && |longer| == |run| + 3
    ensures longer[|longer| - 1] == HasRefreshed(caps, stale)
    ensures Invalidates(longer[|longer| - 2], 1) && longer[|longer| - 2].readings == map[0 := stale]
  {
    var s := HasRead(caps, stale);
    assert Spawn(s, At(s, 1, RefreshLocking));
    RunExtends(run, At(s, 1, RefreshLocking));
    longer := run + [At(s, 1, RefreshLocking)];
    longer := OwnStep(longer, 1, stale);
    longer := OwnStep(longer, 1, stale);
  }

  /** The harm in that: a probe reads, a refresh comes and returns, and what was read before
      it is cached and answered after it. */
  lemma RefreshDuringProbeIsLost(caps: Caps, stale: Caps) returns (run: seq<State>, i: nat)
    ensures Run(run) && i + 1 < |run|
    ensures Invalidates(run[i], 1) && run[i].readings == map[0 := stale]
    ensures run[i + 1] == HasRefreshed(caps, stale)
    ensures var last := run[|run| - 1];
            last.probed && last.caps == stale && last.source == 0 && 0 in last.threads && last.threads[0] == Answered(stale, 0)
  {
    run := ReachReading(caps, stale);
    run := ThenRefresh(run, caps, stale);
    i := |run| - 2;
    run := OwnStep(run, 0, stale);
    run := OwnStep(run, 0, stale);
    run := OwnStep(run, 0, stale);
  }
}
