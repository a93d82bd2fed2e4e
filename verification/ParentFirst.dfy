/** The streaming reorderer of an LDIF export: entries arrive in any order and leave
    with no entry before its parent, holding back only the ones that came early. */
module ParentFirst {
  import opened Ldif

  /** A DN as the directory library reads it: its relative names, each already folded to
      the text compared, or the whole folded text when it does not parse. */
  datatype Dn = Parsed(rdns: seq<string>) | Unparsed(text: string)

  datatype Entry = Entry(dn: Dn, record: Record)

  function Join(parts: seq<string>): string {
    if parts == [] then ""
    else if |parts| == 1 then parts[0]
    else parts[0] + "," + Join(parts[1..])
  }

  function DnKey(dn: Dn): string {
    match dn
    case Parsed(rdns) => Join(rdns)
    case Unparsed(text) => text
  }

  function ParentKey(dn: Dn): string {
    match dn
    case Parsed(rdns) => if rdns == [] then "" else Join(rdns[1..])
    case Unparsed(_) => ""
  }

  function Key(e: Entry): string {
    DnKey(e.dn)
  }

  function Parent(e: Entry): string {
    ParentKey(e.dn)
  }

  // ---- what the order has to be ----

  /** An entry named k, from which at most n steps to the parent lead to the base entry. */
  ghost predicate KeyAnchored(all: seq<Entry>, base: string, k: string, n: nat)
    decreases n
  {
    if n == 0 then k == base && exists e :: e in all && Key(e) == k
    else KeyAnchored(all, base, k, n - 1) || exists e :: e in all && Key(e) == k && KeyAnchored(all, base, Parent(e), n - 1)
  }

  /** Every ancestor of e up to the base is among the entries: its chain is not broken. */
  ghost predicate Anchored(all: seq<Entry>, base: string, e: Entry) {
    Key(e) == base || exists n: nat :: KeyAnchored(all, base, Parent(e), n)
  }

  ghost predicate FollowsParent(out: seq<Entry>, i: nat)
    requires i < |out|
  {
    exists j :: 0 <= j < i && Key(out[j]) == Parent(out[i])
  }

  /** Positions from `start` on are the base entry or follow their parent. */
  ghost predicate ParentsFirst(out: seq<Entry>, base: string, start: nat) {
    forall i :: start <= i < |out| ==> Key(out[i]) == base || FollowsParent(out, i)
  }

  ghost function Filter(all: seq<Entry>, base: string, s: seq<Entry>, anchored: bool): seq<Entry> {
    if s == [] then []
    else
      Filter(all, base, s[..|s| - 1], anchored)
      + if Anchored(all, base, s[|s| - 1]) == anchored then [s[|s| - 1]] else []
  }

  lemma {:induction false} FilterCount(all: seq<Entry>, base: string, s: seq<Entry>, anchored: bool, e: Entry)
    ensures multiset(Filter(all, base, s, anchored))[e] == if Anchored(all, base, e) == anchored then multiset(s)[e] else 0
  {
    if s != [] {
      FilterCount(all, base, s[..|s| - 1], anchored, e);
      assert s == s[..|s| - 1] + [s[|s| - 1]];
    }
  }

  lemma {:induction false} FilterSplits(all: seq<Entry>, base: string, s: seq<Entry>)
    ensures |Filter(all, base, s, true)| + |Filter(all, base, s, false)| == |s|
  {
    if s != [] {
      FilterSplits(all, base, s[..|s| - 1]);
    }
  }

  /** An entry whose DN does not parse is under nothing: out of place unless it is the base,
      or something is named by the empty key. */
  lemma {:induction false} UnparsedIsOrphan(all: seq<Entry>, base: string, e: Entry)
    requires e.dn.Unparsed? && base != "" && forall p :: p in all ==> Key(p) != ""
    ensures Anchored(all, base, e) <==> e.dn.text == base
  {
    if n: nat :| KeyAnchored(all, base, "", n) {
      NamedInside(all, base, "", n);
    }
  }

  lemma {:induction false} NamedInside(all: seq<Entry>, base: string, k: string, n: nat)
    requires KeyAnchored(all, base, k, n)
    ensures exists p :: p in all && Key(p) == k
  {
    if n > 0 && KeyAnchored(all, base, k, n - 1) {
      NamedInside(all, base, k, n - 1);
    }
  }

  // ---- the reorderer's bookkeeping ----

  ghost function Held(waiting: map<string, seq<Entry>>, e: Entry): nat {
    if Parent(e) in waiting then multiset(waiting[Parent(e)])[e] else 0
  }

  /** Everything received is either emitted or waiting, as often as it was received. */
  ghost predicate Conserved(emitted: seq<Entry>, waiting: map<string, seq<Entry>>, total: multiset<Entry>) {
    forall e :: multiset(emitted)[e] + Held(waiting, e) == total[e]
  }

  ghost predicate Parked(waiting: map<string, seq<Entry>>, base: string, subtree: bool) {
    forall k :: k in waiting ==>
      && waiting[k] != []
      && forall e :: e in waiting[k] ==> subtree && Parent(e) == k && Key(e) != base
  }

  ghost predicate NotYetWritten(waiting: map<string, seq<Entry>>, written: set<string>) {
    forall k :: k in waiting ==> k !in written
  }

  ghost function Keys(out: seq<Entry>): set<string> {
    if out == [] then {} else Keys(out[..|out| - 1]) + {Key(out[|out| - 1])}
  }

  lemma {:induction false} KeysOf(out: seq<Entry>, k: string)
    ensures k in Keys(out) <==> exists j :: 0 <= j < |out| && Key(out[j]) == k
  {
    if out != [] {
      var front := out[..|out| - 1];
      KeysOf(front, k);
      if k in Keys(front) {
        var j :| 0 <= j < |front| && Key(front[j]) == k;
        assert Key(out[j]) == k;
      }
    }
  }

  lemma Emit(emitted: seq<Entry>, waiting: map<string, seq<Entry>>, total: multiset<Entry>, e: Entry)
    requires Conserved(emitted, waiting, total)
    ensures Conserved(emitted + [e], waiting, total + multiset{e})
    ensures Keys(emitted + [e]) == Keys(emitted) + {Key(e)}
  {
    assert (emitted + [e])[..|emitted|] == emitted;
  }

  lemma Release(emitted: seq<Entry>, waiting: map<string, seq<Entry>>, total: multiset<Entry>, base: string, subtree: bool, k: string)
    requires Conserved(emitted, waiting, total) && Parked(waiting, base, subtree) && k in waiting
    ensures multiset(waiting[k]) <= total
    ensures Conserved(emitted, waiting - {k}, total - multiset(waiting[k]))
  {
    forall e
      ensures multiset(waiting[k])[e] <= total[e]
      ensures multiset(emitted)[e] + Held(waiting - {k}, e) == total[e] - multiset(waiting[k])[e]
    {
      assert e in waiting[k] ==> Parent(e) == k;
      assert e !in waiting[k] ==> multiset(waiting[k])[e] == 0;
    }
  }

  lemma Park(emitted: seq<Entry>, waiting: map<string, seq<Entry>>, total: multiset<Entry>, e: Entry)
    requires Conserved(emitted, waiting, total)
    ensures var k := Parent(e);
            var more := waiting[k := (if k in waiting then waiting[k] else []) + [e]];
            Conserved(emitted, more, total + multiset{e})
  {
  }

  lemma PutBack(total: multiset<Entry>, part: multiset<Entry>)
    requires part <= total
    ensures total - part + part == total
  {
  }

  class Reorderer {
    const subtree: bool
    const baseKey: string
    /** What the sink has been given, in order. */
    var emitted: seq<Entry>
    var written: set<string>
    var waiting: map<string, seq<Entry>>
    var count: nat
    var orphaned: nat

    constructor (subtree: bool, baseKey: string)
      ensures this.subtree == subtree && this.baseKey == baseKey
      ensures emitted == [] && waiting == map[] && orphaned == 0 && Valid(multiset{})
    {
      this.subtree, this.baseKey := subtree, baseKey;
      emitted, written, waiting, count, orphaned := [], {}, map[], 0, 0;
    }

    /** `received` is everything handed to the reorderer so far. */
    ghost predicate Valid(received: multiset<Entry>)
      reads this
    {
      && written == Keys(emitted) && count == |emitted|
      && Parked(waiting, baseKey, subtree) && NotYetWritten(waiting, written)
      && Conserved(emitted, waiting, received)
    }

    /** Hands one entry to the sink. */
    method EmitOne(entry: Entry, key: string, ghost received: multiset<Entry>)
      requires Valid(received) && key == Key(entry)
      modifies `emitted, `written, `count
      ensures emitted == old(emitted) + [entry] && count == |emitted|
      ensures written == old(written) + {key} == Keys(emitted)
      ensures Conserved(emitted, waiting, received + multiset{entry})
    {
      Emit(emitted, waiting, received, entry);
      emitted := emitted + [entry];
      count := count + 1;
      written := written + {key};
    }

    /** Emits the entry, then whatever was waiting for it, recursively. */
    method Write(entry: Entry, key: string, ghost received: multiset<Entry>)
      requires Valid(received) && key == Key(entry)
      modifies `emitted, `written, `waiting, `count
      ensures Valid(received + multiset{entry})
      ensures Extends(old(emitted) + [entry], emitted)
      ensures old(written) + {key} <= written && Shrinks(old(waiting), waiting)
      decreases |waiting|, 0
    {
      EmitOne(entry, key, received);
      if key in waiting {
        var children := waiting[key];
        ghost var total := received + multiset{entry};
        Release(emitted, waiting, total, baseKey, subtree, key);
        FewerKeys(waiting.Keys - {key}, waiting.Keys);
        waiting := waiting - {key};
        assert Valid(total - multiset(children));
        WriteChildren(children, key, total - multiset(children));
        PutBack(total, multiset(children));
      }
    }

    /** The loop of `write` over the entries that were waiting for the one just emitted. */
    method WriteChildren(children: seq<Entry>, key: string, ghost received: multiset<Entry>)
      requires Valid(received) && key in written
      requires forall e :: e in children ==> Parent(e) == key
      modifies `emitted, `written, `waiting, `count
      ensures Valid(received + multiset(children))
      ensures Extends(old(emitted), emitted)
      ensures old(written) <= written && Shrinks(old(waiting), waiting)
      decreases |waiting|, 1
    {
      for i := 0 to |children|
        invariant Valid(received + multiset(children[..i]))
        invariant Extends(old(emitted), emitted)
        invariant old(written) <= written && Shrinks(old(waiting), waiting)
      {
        ghost var before := emitted;
        FewerKeys(waiting.Keys, old(waiting.Keys));
        ParentWritten(key);
        Write(children[i], Key(children[i]), received + multiset(children[..i]));
        OneMore(old(emitted), before, children[i], emitted);
        NextChild(children, i, received);
      }
      assert children[..|children|] == children;
    }

    method Add(entry: Entry, ghost received: multiset<Entry>)
      requires Valid(received) && (subtree ==> ParentsFirst(emitted, baseKey, 0))
      modifies `emitted, `written, `waiting, `count
      ensures Valid(received + multiset{entry}) && (subtree ==> ParentsFirst(emitted, baseKey, 0))
      ensures old(emitted) <= emitted
      ensures !subtree && old(waiting) == map[] ==> emitted == old(emitted) + [entry] && waiting == map[]
    {
      var key := Key(entry);
      if subtree && key != baseKey {
        var parent := Parent(entry);
        if parent !in written {
          Park(emitted, waiting, received, entry);
          waiting := waiting[parent := (if parent in waiting then waiting[parent] else []) + [entry]];
          return;
        }
        ParentWritten(parent);
      }
      Write(entry, key, received);
      if subtree {
        OrderKept(old(emitted), entry, emitted, baseKey);
      } else if old(waiting) == map[] {
        NobodyWaiting(old(emitted), entry, emitted, waiting, received);
      }
    }

    /** Writes whatever is still waiting, in whatever order the map gives its parents. */
    method FlushOrphans(ghost received: multiset<Entry>) returns (orphans: nat)
      requires Valid(received)
      modifies `emitted, `written, `waiting, `count, `orphaned
      ensures Valid(received) && waiting == map[]
      ensures old(emitted) <= emitted && orphans == orphaned == |emitted| - |old(emitted)|
    {
      var before := count;
      while |waiting| > 0
        invariant Valid(received) && old(emitted) <= emitted
        decreases |waiting|
      {
        var parent :| parent in waiting;
        var children := waiting[parent];
        Release(emitted, waiting, received, baseKey, subtree, parent);
        FewerKeys(waiting.Keys - {parent}, waiting.Keys);
        ghost var keys := waiting.Keys;
        waiting := waiting - {parent};
        FlushChildren(children, received - multiset(children));
        FewerKeys(waiting.Keys, keys - {parent});
        assert received - multiset(children) + multiset(children) == received;
      }
      orphaned := count - before;
      orphans := orphaned;
    }

    /** The loop of the flush over the entries one absent parent kept waiting. */
    method FlushChildren(children: seq<Entry>, ghost received: multiset<Entry>)
      requires Valid(received)
      modifies `emitted, `written, `waiting, `count
      ensures Valid(received + multiset(children))
      ensures old(emitted) <= emitted && Shrinks(old(waiting), waiting)
    {
      for i := 0 to |children|
        invariant Valid(received + multiset(children[..i]))
        invariant old(emitted) <= emitted && Shrinks(old(waiting), waiting)
      {
        Write(children[i], Key(children[i]), received + multiset(children[..i]));
        NextChild(children, i, received);
      }
      assert children[..|children|] == children;
    }

    lemma ParentWritten(key: string)
      requires written == Keys(emitted) && key in written
      ensures exists j :: 0 <= j < |emitted| && Key(emitted[j]) == key
    {
      KeysOf(emitted, key);
    }
  }

  lemma FewerKeys(a: set<string>, b: set<string>)
    requires a <= b
    ensures |a| <= |b|
  {
    assert b == a + (b - a);
  }

  /** `out` became `after`, every entry added following its parent. */
  ghost predicate Extends(out: seq<Entry>, after: seq<Entry>) {
    out <= after && forall i :: |out| <= i < |after| ==> FollowsParent(after, i)
  }

  ghost predicate Shrinks(waiting: map<string, seq<Entry>>, after: map<string, seq<Entry>>) {
    after.Keys <= waiting.Keys && forall k :: k in after ==> after[k] == waiting[k]
  }

  lemma NextChild(children: seq<Entry>, i: nat, received: multiset<Entry>)
    requires i < |children|
    ensures received + multiset(children[..i]) + multiset{children[i]} == received + multiset(children[..i + 1])
  {
    assert children[..i + 1] == children[..i] + [children[i]];
  }

  /** An entry whose parent is already there, and followers of what precedes them. */
  lemma OneMore(before: seq<Entry>, middle: seq<Entry>, e: Entry, after: seq<Entry>)
    requires Extends(before, middle) && Extends(middle + [e], after)
    requires exists j :: 0 <= j < |middle| && Key(middle[j]) == Parent(e)
    ensures Extends(before, after)
  {
    forall i | |before| <= i < |after|
      ensures FollowsParent(after, i)
    {
      if i < |middle| {
        assert FollowsParent(middle, i);
        var j :| 0 <= j < i && Key(middle[j]) == Parent(middle[i]);
        assert Key(after[j]) == Parent(after[i]);
      } else if i == |middle| {
        var j :| 0 <= j < |middle| && Key(middle[j]) == Parent(e);
        assert Key(after[j]) == Parent(after[i]);
      }
    }
  }

  lemma OrderKept(before: seq<Entry>, e: Entry, after: seq<Entry>, base: string)
    requires ParentsFirst(before, base, 0) && Extends(before + [e], after)
    requires Key(e) == base || exists j :: 0 <= j < |before| && Key(before[j]) == Parent(e)
    ensures ParentsFirst(after, base, 0)
  {
    forall i | 0 <= i < |after|
      ensures Key(after[i]) == base || FollowsParent(after, i)
    {
      if i < |before| {
        assert after[i] == before[i];
        if Key(before[i]) != base {
          assert FollowsParent(before, i);
          var j :| 0 <= j < i && Key(before[j]) == Parent(before[i]);
          assert Key(after[j]) == Parent(after[i]);
        }
      } else if i == |before| && Key(e) != base {
        var j :| 0 <= j < |before| && Key(before[j]) == Parent(e);
        assert Key(after[j]) == Parent(after[i]);
      }
    }
  }

  /** With nobody waiting, an entry written is the only one written. */
  lemma NobodyWaiting(before: seq<Entry>, e: Entry, after: seq<Entry>, waiting: map<string, seq<Entry>>, received: multiset<Entry>)
    requires Conserved(before, map[], received) && Conserved(after, waiting, received + multiset{e})
    requires Shrinks(map[], waiting) && before + [e] <= after
    ensures after == before + [e] && waiting == map[]
  {
    assert waiting.Keys == {};
    assert multiset(before) == received;
    assert multiset(after) == received + multiset{e};
    assert |multiset(after)| == |before| + 1;
  }

  // ---- which entries are held to the end ----

  /** What the reorderer has when every entry of `all` has been added. */
  ghost predicate AllAdded(all: seq<Entry>, base: string, emitted: seq<Entry>, waiting: map<string, seq<Entry>>) {
    && Conserved(emitted, waiting, multiset(all)) && Parked(waiting, base, true)
    && NotYetWritten(waiting, Keys(emitted)) && ParentsFirst(emitted, base, 0)
  }

  lemma EmittedAdded(all: seq<Entry>, emitted: seq<Entry>, waiting: map<string, seq<Entry>>, e: Entry)
    requires Conserved(emitted, waiting, multiset(all)) && e in emitted
    ensures e in all
  {
    assert multiset(emitted)[e] > 0;
    assert multiset(all)[e] > 0;
  }

  lemma {:induction false} EmittedAnchored(all: seq<Entry>, base: string, emitted: seq<Entry>, waiting: map<string, seq<Entry>>, i: nat)
    requires AllAdded(all, base, emitted, waiting) && i < |emitted|
    ensures Anchored(all, base, emitted[i])
  {
    if Key(emitted[i]) != base {
      assert FollowsParent(emitted, i);
      var j :| 0 <= j < i && Key(emitted[j]) == Parent(emitted[i]);
      EmittedAnchored(all, base, emitted, waiting, j);
      EmittedAdded(all, emitted, waiting, emitted[j]);
      if Key(emitted[j]) == base {
        assert KeyAnchored(all, base, Parent(emitted[i]), 0);
      } else {
        var n: nat :| KeyAnchored(all, base, Parent(emitted[j]), n);
        assert KeyAnchored(all, base, Parent(emitted[i]), n + 1);
      }
    }
  }

  /** An entry not held is out. */
  lemma NotHeldIsWritten(all: seq<Entry>, base: string, emitted: seq<Entry>, waiting: map<string, seq<Entry>>, e: Entry)
    requires AllAdded(all, base, emitted, waiting) && e in all
    requires Key(e) == base || Parent(e) !in waiting
    ensures Key(e) in Keys(emitted) && e in emitted
  {
    if Parent(e) in waiting {
      assert e !in waiting[Parent(e)];
    }
    assert multiset(all)[e] > 0 && Held(waiting, e) == 0;
    assert multiset(emitted)[e] > 0;
    var j :| 0 <= j < |emitted| && emitted[j] == e;
    KeysOf(emitted, Key(e));
  }

  lemma {:induction false} AnchoredIsWritten(all: seq<Entry>, base: string, emitted: seq<Entry>, waiting: map<string, seq<Entry>>, k: string, n: nat)
    requires AllAdded(all, base, emitted, waiting) && KeyAnchored(all, base, k, n)
    ensures k in Keys(emitted)
    decreases n
  {
    if n > 0 && KeyAnchored(all, base, k, n - 1) {
      AnchoredIsWritten(all, base, emitted, waiting, k, n - 1);
    } else if n > 0 {
      var e :| e in all && Key(e) == k && KeyAnchored(all, base, Parent(e), n - 1);
      AnchoredIsWritten(all, base, emitted, waiting, Parent(e), n - 1);
      NotHeldIsWritten(all, base, emitted, waiting, e);
    } else {
      var e :| e in all && Key(e) == k;
      NotHeldIsWritten(all, base, emitted, waiting, e);
    }
  }

  lemma ExactlyAnchored(all: seq<Entry>, base: string, emitted: seq<Entry>, waiting: map<string, seq<Entry>>, e: Entry)
    requires AllAdded(all, base, emitted, waiting)
    ensures multiset(emitted)[e] == if Anchored(all, base, e) then multiset(all)[e] else 0
  {
    if e in emitted {
      var i :| 0 <= i < |emitted| && emitted[i] == e;
      EmittedAnchored(all, base, emitted, waiting, i);
    }
    if Anchored(all, base, e) && e in all && Key(e) != base {
      var n: nat :| KeyAnchored(all, base, Parent(e), n);
      AnchoredIsWritten(all, base, emitted, waiting, Parent(e), n);
      assert Parent(e) !in waiting;
    }
    if Anchored(all, base, e) && Parent(e) in waiting && Key(e) == base {
      assert e !in waiting[Parent(e)];
    }
  }

  /** What is out before the flush is the anchored entries; what the flush adds is
      exactly as many as have a broken chain. */
  lemma HeldAreBroken(all: seq<Entry>, base: string, emitted: seq<Entry>, waiting: map<string, seq<Entry>>)
    requires AllAdded(all, base, emitted, waiting)
    ensures |all| - |emitted| == |Filter(all, base, all, false)|
    ensures multiset(emitted) == multiset(Anchors(all, base))
  {
    forall e
      ensures multiset(emitted)[e] == multiset(Anchors(all, base))[e]
    {
      ExactlyAnchored(all, base, emitted, waiting, e);
      FilterCount(all, base, all, true, e);
    }
    assert multiset(emitted) == multiset(Anchors(all, base));
    assert |multiset(emitted)| == |emitted|;
    FilterSplits(all, base, all);
  }

  // ---- a whole export ----

  datatype Stats = Stats(entries: nat, orphans: nat)

  /** Every entry with an unbroken chain is the base entry, or comes after its parent. */
  ghost predicate AnchoredInOrder(all: seq<Entry>, base: string, out: seq<Entry>) {
    forall i :: 0 <= i < |out| && Anchored(all, base, out[i]) ==> Key(out[i]) == base || FollowsParent(out, i)
  }

  lemma FlushKeepsOrder(all: seq<Entry>, base: string, emitted: seq<Entry>, waiting: map<string, seq<Entry>>, out: seq<Entry>)
    requires AllAdded(all, base, emitted, waiting) && emitted <= out && multiset(out) == multiset(all)
    ensures AnchoredInOrder(all, base, out)
  {
    forall i | 0 <= i < |out| && Anchored(all, base, out[i])
      ensures Key(out[i]) == base || FollowsParent(out, i)
    {
      if i < |emitted| {
        if Key(emitted[i]) != base {
          assert FollowsParent(emitted, i);
          var j :| 0 <= j < i && Key(emitted[j]) == Parent(emitted[i]);
          assert Key(out[j]) == Parent(out[i]);
        }
      } else {
        ExactlyAnchored(all, base, emitted, waiting, out[i]);
        LaterCopy(emitted, out, i);
        assert false;
      }
    }
  }

  lemma LaterCopy(emitted: seq<Entry>, out: seq<Entry>, i: nat)
    requires emitted <= out && |emitted| <= i < |out|
    ensures multiset(out)[out[i]] > multiset(emitted)[out[i]]
  {
    var rest := out[|emitted|..];
    assert out == emitted + rest;
    assert out[i] == rest[i - |emitted|];
  }

  /** The entries whose chain is whole. */
  ghost function Anchors(all: seq<Entry>, base: string): seq<Entry> {
    Filter(all, base, all, true)
  }

  /** Nothing is held back longer than it must be: once n entries have arrived, the file holds
      exactly those of them whose chain is whole. */
  ghost predicate Streams(arrival: seq<Entry>, base: string, out: seq<Entry>) {
    forall n: nat :: n <= |arrival| ==> StreamsAt(arrival[..n], base, out)
  }

  ghost predicate StreamsAt(arrived: seq<Entry>, base: string, out: seq<Entry>) {
    exists k: nat :: k <= |out| && multiset(out[..k]) == multiset(Anchors(arrived, base))
  }

  lemma StreamsOn(arrived: seq<Entry>, base: string, out: seq<Entry>, longer: seq<Entry>)
    requires StreamsAt(arrived, base, out) && out <= longer
    ensures StreamsAt(arrived, base, longer)
  {
    var k: nat :| k <= |out| && multiset(out[..k]) == multiset(Anchors(arrived, base));
    assert longer[..k] == out[..k];
  }

  lemma StreamsNow(all: seq<Entry>, base: string, emitted: seq<Entry>, waiting: map<string, seq<Entry>>)
    requires AllAdded(all, base, emitted, waiting)
    ensures StreamsAt(all, base, emitted)
  {
    HeldAreBroken(all, base, emitted, waiting);
    assert emitted[..|emitted|] == emitted;
  }

  lemma StreamedNone(base: string)
    ensures Streams([], base, [])
  {
    var none: seq<Entry> := [];
    assert none[..0] == none == Anchors(none, base);
  }

  lemma StreamedNext(arrived: seq<Entry>, e: Entry, base: string, before: seq<Entry>, emitted: seq<Entry>,
                     waiting: map<string, seq<Entry>>)
    requires Streams(arrived, base, before) && before <= emitted
    requires AllAdded(arrived + [e], base, emitted, waiting)
    ensures Streams(arrived + [e], base, emitted)
  {
    StreamsNow(arrived + [e], base, emitted, waiting);
    forall n: nat | n <= |arrived| + 1
      ensures StreamsAt((arrived + [e])[..n], base, emitted)
    {
      if n <= |arrived| {
        assert (arrived + [e])[..n] == arrived[..n];
        StreamsOn(arrived[..n], base, before, emitted);
      } else {
        assert (arrived + [e])[..n] == arrived + [e];
      }
    }
  }

  /** The reorderer has taken these entries, and nothing has been flushed. */
  ghost predicate Receiving(order: Reorderer, arrived: seq<Entry>)
    reads order
  {
    && order.Valid(multiset(arrived)) && order.orphaned == 0
    && (order.subtree ==> ParentsFirst(order.emitted, order.baseKey, 0) && Streams(arrived, order.baseKey, order.emitted))
    && (!order.subtree ==> order.emitted == arrived && order.waiting == map[])
  }

  method AddNext(order: Reorderer, ghost arrived: seq<Entry>, e: Entry)
    requires Receiving(order, arrived)
    modifies order
    ensures Receiving(order, arrived + [e]) && old(order.emitted) <= order.emitted
  {
    assert multiset(arrived + [e]) == multiset(arrived) + multiset{e};
    ghost var before := order.emitted;
    order.Add(e, multiset(arrived));
    if order.subtree {
      assert AllAdded(arrived + [e], order.baseKey, order.emitted, order.waiting);
      StreamedNext(arrived, e, order.baseKey, before, order.emitted, order.waiting);
    }
  }

  /** One page of a search, in the order it came. */
  method AddPage(order: Reorderer, ghost arrived: seq<Entry>, page: seq<Entry>)
    requires Receiving(order, arrived)
    modifies order
    ensures Receiving(order, arrived + page) && old(order.emitted) <= order.emitted
  {
    NextOf(arrived, page, 0);
    for i := 0 to |page|
      invariant Receiving(order, arrived + page[..i]) && old(order.emitted) <= order.emitted
    {
      NextOf(arrived, page, i);
      AddNext(order, arrived + page[..i], page[i]);
    }
    assert page[..|page|] == page;
  }

  lemma NextOf<T>(a: seq<T>, b: seq<T>, i: nat)
    requires i <= |b|
    ensures i == 0 ==> a + b[..i] == a
    ensures i < |b| ==> a + b[..i] + [b[i]] == a + b[..i + 1]
  {
  }

  /** What an export can come to: each entry once, streamed, in order, orphans counted. */
  ghost predicate Outcome(base: string, arrival: seq<Entry>, out: seq<Entry>, orphans: nat) {
    && multiset(out) == multiset(arrival)
    && orphans == |Filter(arrival, base, arrival, false)|
    && AnchoredInOrder(arrival, base, out)
    && Streams(arrival, base, out)
  }

  ghost predicate Finished(subtree: bool, base: string, arrival: seq<Entry>, out: seq<Entry>, stats: Stats) {
    && stats.entries == |arrival|
    && if subtree then Outcome(base, arrival, out, stats.orphans) else out == arrival && stats.orphans == 0
  }

  /** Part-way: the entries out are those whose chain is whole, and they alone are counted. */
  ghost predicate Underway(subtree: bool, base: string, arrived: seq<Entry>, out: seq<Entry>, stats: Stats) {
    && stats == Stats(|out|, 0)
    && if subtree then multiset(out) == multiset(Anchors(arrived, base)) && ParentsFirst(out, base, 0) else out == arrived
  }

  lemma ReceivingIs(order: Reorderer, arrived: seq<Entry>)
    requires Receiving(order, arrived)
    ensures Underway(order.subtree, order.baseKey, arrived, order.emitted, Stats(order.count, order.orphaned))
  {
    if order.subtree {
      HeldAreBroken(arrived, order.baseKey, order.emitted, order.waiting);
    }
  }

  /** The end of the export: the entries still held are flushed. */
  method Finish(order: Reorderer, ghost arrival: seq<Entry>)
    requires Receiving(order, arrival)
    modifies order
    ensures Finished(order.subtree, order.baseKey, arrival, order.emitted, Stats(order.count, order.orphaned))
    ensures old(order.emitted) <= order.emitted && multiset(order.emitted) == multiset(arrival)
  {
    ghost var emitted, waiting := order.emitted, order.waiting;
    if order.subtree {
      HeldAreBroken(arrival, order.baseKey, emitted, waiting);
    }
    var orphans := order.FlushOrphans(multiset(arrival));
    AllEmitted(order.emitted, multiset(arrival));
    if order.subtree {
      FlushKeepsOrder(arrival, order.baseKey, emitted, waiting, order.emitted);
      forall n: nat | n <= |arrival|
        ensures StreamsAt(arrival[..n], order.baseKey, order.emitted)
      {
        StreamsOn(arrival[..n], order.baseKey, emitted, order.emitted);
      }
    } else {
      assert order.emitted == arrival + order.emitted[|arrival|..];
      assert |multiset(order.emitted)| == |order.emitted|;
    }
  }

  /** A whole export: entries added as they arrive, the held ones flushed at the end.
      Each is emitted exactly once, and the orphans counted are those whose ancestor
      chain to the base is not among the entries. */
  method Reorder(subtree: bool, baseDn: Dn, arrival: seq<Entry>) returns (out: seq<Entry>, stats: Stats)
    ensures multiset(out) == multiset(arrival)
    ensures Finished(subtree, DnKey(baseDn), arrival, out, stats)
  {
    var order := new Reorderer(subtree, DnKey(baseDn));
    StreamedNone(order.baseKey);
    AddPage(order, [], arrival);
    assert [] + arrival == arrival;
    Finish(order, arrival);
    out, stats := order.emitted, Stats(order.count, order.orphaned);
  }

  lemma AllEmitted(out: seq<Entry>, received: multiset<Entry>)
    requires Conserved(out, map[], received)
    ensures multiset(out) == received && |out| == |received|
  {
    forall e
      ensures multiset(out)[e] == received[e]
    {
      assert Held(map[], e) == 0;
    }
    assert |multiset(out)| == |out|;
  }

  // ---- what a key match means ----

  /** Relative names whose folded text holds no comma. */
  predicate CommaFree(rdns: seq<string>) {
    forall r :: r in rdns ==> r != "" && ',' !in r
  }

  lemma JoinHead(a: seq<string>)
    requires a != []
    ensures Join(a) == a[0] + if |a| == 1 then "" else "," + Join(a[1..])
  {
  }

  lemma {:induction false} JoinInjective(a: seq<string>, b: seq<string>)
    requires CommaFree(a) && CommaFree(b)
    ensures Join(a) == Join(b) <==> a == b
  {
    if Join(a) == Join(b) {
      JoinEmpty(a);
      JoinEmpty(b);
      if a != [] {
        JoinHead(a);
        JoinHead(b);
        SameHead(a[0], Join(a)[|a[0]|..], b[0], Join(b)[|b[0]|..]);
        var x, y := Join(a)[|a[0]|..], Join(b)[|b[0]|..];
        assert x == y;
        assert |a| > 1 ==> x[1..] == Join(a[1..]);
        assert |b| > 1 ==> y[1..] == Join(b[1..]);
        CommaFreeTail(a);
        CommaFreeTail(b);
        if |a| > 1 && |b| > 1 {
          JoinInjective(a[1..], b[1..]);
        }
        assert a == [a[0]] + a[1..] && b == [b[0]] + b[1..];
      }
    }
  }

  lemma NoShorter(a: string, x: string, b: string, y: string)
    requires a + x == b + y && ',' !in b
    requires x == "" || x[0] == ','
    ensures |a| >= |b|
  {
    assert x != "" ==> (a + x)[|a|] == x[0];
    assert forall i :: 0 <= i < |b| ==> (b + y)[i] in b;
  }

  lemma JoinEmpty(a: seq<string>)
    requires CommaFree(a)
    ensures Join(a) == "" <==> a == []
  {
    if a != [] {
      assert a[0] in a;
    }
  }

  lemma CommaFreeTail(rdns: seq<string>)
    requires CommaFree(rdns) && rdns != []
    ensures CommaFree(rdns[1..])
  {
    assert forall r :: r in rdns[1..] ==> r in rdns;
  }

  lemma SameHead(a: string, x: string, b: string, y: string)
    requires a + x == b + y && ',' !in a && ',' !in b
    requires (x == "" || x[0] == ',') && (y == "" || y[0] == ',')
    ensures a == b && x == y
  {
    var s := a + x;
    assert |a| == |b| by {
      NoShorter(a, x, b, y);
      NoShorter(b, y, a, x);
    }
    assert s[..|a|] == a && s[..|b|] == b && s[|a|..] == x && s[|b|..] == y;
  }

  /** For names without a comma in them, the keys match exactly when one DN is the
      other's parent. */
  lemma KeyMatchIsParent(parent: seq<string>, child: seq<string>)
    requires CommaFree(parent) && CommaFree(child) && child != []
    ensures DnKey(Parsed(parent)) == ParentKey(Parsed(child)) <==> parent == child[1..]
  {
    CommaFreeTail(child);
    JoinInjective(parent, child[1..]);
  }

  /** A comma inside a value is not escaped in the key, so two DNs can share one. */
  lemma KeysCanCollide() returns (a: seq<string>, b: seq<string>)
    ensures a != b && DnKey(Parsed(a)) == DnKey(Parsed(b))
  {
    a, b := ["cn=x,ou=y"], ["cn=x", "ou=y"];
    assert |a| != |b|;
    assert Join(b) == b[0] + "," + Join(b[1..]);
  }
}
