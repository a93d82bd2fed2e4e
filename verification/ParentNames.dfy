/** What the export's order means for the DNs themselves, which the reorderer only compares
    by key: when it is right for every order of arrival, and when a shared key makes it wrong. */
module ParentNames {
  import opened Ldif
  import opened ParentFirst

  type Name = seq<string>

  ghost predicate Under(base: Name, dn: Name) {
    |base| <= |dn| && dn[|dn| - |base|..] == base
  }

  /** What a subtree search answers: distinct DNs at or under the base, no empty names. */
  ghost predicate IsSubtree(all: seq<Entry>, base: Name) {
    && (forall r :: r in base ==> r != "")
    && (forall e :: e in all ==> e.dn.Parsed? && Under(base, e.dn.rdns) && forall r :: r in e.dn.rdns ==> r != "")
    && (forall i, j :: 0 <= i < j < |all| ==> all[i].dn != all[j].dn)
  }

  ghost predicate Present(all: seq<Entry>, dn: Name) {
    exists e :: e in all && e.dn == Parsed(dn)
  }

  /** Every ancestor up to the base is among the entries. */
  ghost predicate Rooted(all: seq<Entry>, base: Name, dn: Name)
    decreases |dn|
  {
    dn == base || (|dn| > |base| && Present(all, dn[1..]) && Rooted(all, base, dn[1..]))
  }

  ghost predicate FollowsItsParent(out: seq<Entry>, i: nat)
    requires i < |out| && out[i].dn.Parsed? && out[i].dn.rdns != []
  {
    exists j :: 0 <= j < i && out[j].dn == Parsed(out[i].dn.rdns[1..])
  }

  /** Every rooted entry but the base comes after its parent. */
  ghost predicate TrueOrder(out: seq<Entry>, base: Name)
    requires IsSubtree(out, base)
  {
    forall i :: 0 <= i < |out| && Rooted(out, base, out[i].dn.rdns) && out[i].dn.rdns != base ==>
      FollowsItsParent(out, i)
  }

  ghost function TrueOrphans(all: seq<Entry>, base: Name): set<Entry>
    requires IsSubtree(all, base)
  {
    set e | e in all && !Rooted(all, base, e.dn.rdns)
  }

  /** The file is in order and the orphans are counted right, by DN. */
  ghost predicate Right(out: seq<Entry>, orphans: nat, base: Name)
    requires IsSubtree(out, base)
  {
    TrueOrder(out, base) && orphans == |TrueOrphans(out, base)|
  }

  /** No entry whose chain is whole by key, other than its true parent, has an entry's parent key. */
  ghost predicate NoImpostor(all: seq<Entry>, base: Name)
    requires IsSubtree(all, base)
  {
    forall d, q :: d in all && q in all && d.dn.rdns != base && Anchored(all, Join(base), q) && Key(q) == Parent(d) ==>
      d.dn.rdns != [] && q.dn == Parsed(d.dn.rdns[1..])
  }

  // ---- keys ----

  lemma JoinLonger(dn: Name)
    requires dn != [] && forall r :: r in dn ==> r != ""
    ensures |Join(dn)| > |Join(dn[1..])|
  {
    assert dn[0] in dn;
  }

  lemma {:induction false} UnderIsLonger(base: Name, dn: Name)
    requires Under(base, dn) && dn != base && forall r :: r in dn ==> r != ""
    ensures |dn| > |base| && |Join(dn)| > |Join(base)| && Under(base, dn[1..])
    decreases |dn|
  {
    assert dn[0..] == dn;
    JoinLonger(dn);
    assert dn[1..][|dn| - 1 - |base|..] == dn[|dn| - |base|..];
    if dn[1..] != base {
      assert forall r :: r in dn[1..] ==> r in dn;
      UnderIsLonger(base, dn[1..]);
    }
  }

  lemma SameElements(a: seq<Entry>, b: seq<Entry>)
    requires multiset(a) == multiset(b)
    ensures |a| == |b| && forall e :: e in a <==> e in b
  {
    assert |multiset(a)| == |a| && |multiset(b)| == |b|;
    forall e ensures e in a <==> e in b {
      assert e in a <==> multiset(a)[e] > 0;
      assert e in b <==> multiset(b)[e] > 0;
    }
  }

  lemma {:induction false} KeyAnchoredAmong(a: seq<Entry>, b: seq<Entry>, base: string, k: string, n: nat)
    requires forall e :: e in a ==> e in b
    requires KeyAnchored(a, base, k, n)
    ensures KeyAnchored(b, base, k, n)
    decreases n
  {
    if n > 0 {
      if KeyAnchored(a, base, k, n - 1) {
        KeyAnchoredAmong(a, b, base, k, n - 1);
      } else {
        var e :| e in a && Key(e) == k && KeyAnchored(a, base, Parent(e), n - 1);
        KeyAnchoredAmong(a, b, base, Parent(e), n - 1);
      }
    }
  }

  lemma AnchoredAmong(a: seq<Entry>, b: seq<Entry>, base: string, e: Entry)
    requires (forall x :: x in a ==> x in b) && Anchored(a, base, e)
    ensures Anchored(b, base, e)
  {
    if Key(e) != base {
      var n: nat :| KeyAnchored(a, base, Parent(e), n);
      KeyAnchoredAmong(a, b, base, Parent(e), n);
    }
  }

  lemma PermutedSubtree(a: seq<Entry>, b: seq<Entry>, base: Name)
    requires IsSubtree(a, base) && multiset(a) == multiset(b)
    ensures IsSubtree(b, base)
  {
    SameElements(a, b);
    forall i, j | 0 <= i < j < |b|
      ensures b[i].dn != b[j].dn
    {
      if b[i].dn == b[j].dn {
        assert b[i] in b && b[j] in b;
        var k :| 0 <= k < |a| && a[k] == b[i];
        var l :| 0 <= l < |a| && a[l] == b[j];
        assert k == l;
        Twice(b, i, j);
        Once(a, k);
      }
    }
  }

  lemma Twice(s: seq<Entry>, i: nat, j: nat)
    requires i < j < |s| && s[i] == s[j]
    ensures multiset(s)[s[i]] >= 2
  {
    var front, back := s[..j], s[j..];
    assert s == front + back;
    assert s[i] == front[i] && s[j] == back[0];
  }

  lemma Once(s: seq<Entry>, i: nat)
    requires i < |s| && forall j, k :: 0 <= j < k < |s| ==> s[j].dn != s[k].dn
    ensures multiset(s)[s[i]] == 1
  {
    var front, back := s[..i], s[i + 1..];
    assert s == front + [s[i]] + back;
    assert s[i] !in front && s[i] !in back;
  }

  // ---- some file always comes out ----

  ghost predicate Written(emitted: seq<Entry>, k: string) {
    exists j :: 0 <= j < |emitted| && Key(emitted[j]) == k
  }

  /** An entry still to be written whose turn it is. */
  ghost predicate Ready(all: seq<Entry>, base: string, emitted: seq<Entry>, f: Entry) {
    && multiset(emitted)[f] < multiset(Anchors(all, base))[f]
    && (Key(f) == base || Written(emitted, Parent(f)))
  }

  lemma Missing(all: seq<Entry>, base: string, emitted: seq<Entry>, e: Entry)
    requires e in all && Anchored(all, base, e) && !Written(emitted, Key(e))
    ensures multiset(emitted)[e] < multiset(Anchors(all, base))[e]
  {
    FilterCount(all, base, all, true, e);
    assert e !in emitted;
  }

  /** An entry of that name whose chain is whole, one step shorter unless it is the base. */
  lemma {:induction false} KeyHolder(all: seq<Entry>, base: string, k: string, n: nat) returns (e: Entry, m: nat)
    requires KeyAnchored(all, base, k, n)
    ensures e in all && Key(e) == k && Anchored(all, base, e) && m <= n
    ensures Key(e) == base || (m < n && KeyAnchored(all, base, Parent(e), m))
    decreases n
  {
    if n == 0 {
      e :| e in all && Key(e) == k;
      m := 0;
    } else if KeyAnchored(all, base, k, n - 1) {
      e, m := KeyHolder(all, base, k, n - 1);
    } else {
      e :| e in all && Key(e) == k && KeyAnchored(all, base, Parent(e), n - 1);
      m := n - 1;
    }
  }

  lemma {:induction false} ReadyFor(all: seq<Entry>, base: string, emitted: seq<Entry>, k: string, n: nat) returns (f: Entry)
    requires KeyAnchored(all, base, k, n) && !Written(emitted, k)
    ensures Ready(all, base, emitted, f)
    decreases n
  {
    var m;
    f, m := KeyHolder(all, base, k, n);
    Missing(all, base, emitted, f);
    if Key(f) != base && !Written(emitted, Parent(f)) {
      f := ReadyFor(all, base, emitted, Parent(f), m);
    }
  }

  lemma SomeReady(all: seq<Entry>, base: string, emitted: seq<Entry>) returns (f: Entry)
    requires multiset(emitted) < multiset(Anchors(all, base))
    ensures Ready(all, base, emitted, f)
  {
    f :| multiset(emitted)[f] < multiset(Anchors(all, base))[f];
    FilterCount(all, base, all, true, f);
    if Key(f) != base && !Written(emitted, Parent(f)) {
      var n: nat :| KeyAnchored(all, base, Parent(f), n);
      f := ReadyFor(all, base, emitted, Parent(f), n);
    }
  }

  lemma ReadyNext(all: seq<Entry>, base: string, emitted: seq<Entry>, f: Entry)
    requires ParentsFirst(emitted, base, 0) && Ready(all, base, emitted, f)
    ensures ParentsFirst(emitted + [f], base, 0)
  {
    var longer := emitted + [f];
    forall i | 0 <= i < |longer|
      ensures Key(longer[i]) == base || FollowsParent(longer, i)
    {
      if i < |emitted| && Key(emitted[i]) != base {
        assert FollowsParent(emitted, i);
        var j :| 0 <= j < i && Key(emitted[j]) == Parent(emitted[i]);
        assert Key(longer[j]) == Parent(longer[i]);
      } else if i == |emitted| && Key(f) != base {
        var j :| 0 <= j < |emitted| && Key(emitted[j]) == Parent(f);
        assert Key(longer[j]) == Parent(longer[i]);
      }
    }
  }

  lemma SmallerMultiset<T>(a: multiset<T>, b: multiset<T>)
    requires a <= b
    ensures |a| <= |b| && (a != b ==> |a| < |b|)
  {
    assert b == a + (b - a);
  }

  /** What is written can be completed to all entries with a whole chain, parents first. */
  lemma {:induction false} Complete(all: seq<Entry>, base: string, emitted: seq<Entry>) returns (longer: seq<Entry>)
    requires ParentsFirst(emitted, base, 0) && multiset(emitted) <= multiset(Anchors(all, base))
    ensures emitted <= longer && ParentsFirst(longer, base, 0) && multiset(longer) == multiset(Anchors(all, base))
    decreases |multiset(Anchors(all, base))| - |emitted|
  {
    var anchors := multiset(Anchors(all, base));
    longer := emitted;
    if multiset(emitted) != anchors {
      var f := SomeReady(all, base, emitted);
      ReadyNext(all, base, emitted, f);
      SmallerMultiset(multiset(emitted), anchors);
      assert |multiset(emitted)| == |emitted|;
      assert multiset(emitted + [f]) == multiset(emitted) + multiset{f};
      longer := Complete(all, base, emitted + [f]);
    }
  }

  lemma MoreAnchors(arrival: seq<Entry>, base: string, i: nat)
    requires i < |arrival|
    ensures multiset(Anchors(arrival[..i], base)) <= multiset(Anchors(arrival[..i + 1], base))
  {
    var a, b := arrival[..i], arrival[..i + 1];
    assert b == a + [arrival[i]];
    forall e ensures multiset(Anchors(a, base))[e] <= multiset(Anchors(b, base))[e] {
      FilterCount(a, base, a, true, e);
      FilterCount(b, base, b, true, e);
      if Anchored(a, base, e) {
        AnchoredAmong(a, b, base, e);
      }
      assert multiset(b) == multiset(a) + multiset{arrival[i]};
    }
  }

  lemma {:induction false} Streaming(arrived: seq<Entry>, base: string) returns (emitted: seq<Entry>)
    ensures ParentsFirst(emitted, base, 0) && multiset(emitted) == multiset(Anchors(arrived, base))
    ensures Streams(arrived, base, emitted)
  {
    if arrived == [] {
      emitted := [];
      StreamedNone(base);
    } else {
      var n := |arrived| - 1;
      var before := Streaming(arrived[..n], base);
      assert arrived[..n + 1] == arrived;
      MoreAnchors(arrived, base, n);
      emitted := Complete(arrived, base, before);
      OneMoreStreamed(arrived, base, before, emitted);
    }
  }

  lemma OneMoreStreamed(arrived: seq<Entry>, base: string, before: seq<Entry>, emitted: seq<Entry>)
    requires arrived != [] && Streams(arrived[..|arrived| - 1], base, before) && before <= emitted
    requires multiset(emitted) == multiset(Anchors(arrived, base))
    ensures Streams(arrived, base, emitted)
  {
    var n := |arrived| - 1;
    forall m: nat | m <= |arrived|
      ensures StreamsAt(arrived[..m], base, emitted)
    {
      if m <= n {
        assert arrived[..n][..m] == arrived[..m];
        StreamsOn(arrived[..m], base, before, emitted);
      } else {
        assert arrived[..m] == arrived && emitted[..|emitted|] == emitted;
      }
    }
  }

  lemma HeldLast(arrival: seq<Entry>, base: string, emitted: seq<Entry>, held: seq<Entry>)
    requires multiset(emitted) == multiset(Anchors(arrival, base)) && held == Filter(arrival, base, arrival, false)
    ensures multiset(emitted + held) == multiset(arrival)
    ensures forall e :: e in held ==> !Anchored(arrival, base, e)
  {
    assert multiset(emitted + held) == multiset(emitted) + multiset(held);
    forall e
      ensures multiset(emitted + held)[e] == multiset(arrival)[e]
      ensures e in held ==> !Anchored(arrival, base, e)
    {
      FilterCount(arrival, base, arrival, true, e);
      FilterCount(arrival, base, arrival, false, e);
    }
  }

  lemma OutcomeExists(arrival: seq<Entry>, base: string) returns (out: seq<Entry>, orphans: nat)
    ensures Outcome(base, arrival, out, orphans)
  {
    var emitted := Streaming(arrival, base);
    var held := Filter(arrival, base, arrival, false);
    out, orphans := emitted + held, |held|;
    HeldLast(arrival, base, emitted, held);
    forall i | |emitted| <= i < |out|
      ensures !Anchored(arrival, base, out[i])
    {
      assert out[i] == held[i - |emitted|];
    }
    forall i | 0 <= i < |emitted|
      ensures Key(out[i]) == base || FollowsParent(out, i)
    {
      if Key(out[i]) != base {
        assert FollowsParent(emitted, i);
        var j :| 0 <= j < i && Key(emitted[j]) == Parent(emitted[i]);
        assert Key(out[j]) == Parent(out[i]);
      }
    }
    forall n: nat | n <= |arrival|
      ensures StreamsAt(arrival[..n], base, out)
    {
      StreamsOn(arrival[..n], base, emitted, out);
    }
  }

  // ---- where nobody is mistaken for a parent ----

  lemma {:induction false} AnchoredIsRooted(all: seq<Entry>, base: Name, e: Entry)
    requires IsSubtree(all, base) && NoImpostor(all, base) && e in all && Anchored(all, Join(base), e)
    ensures Rooted(all, base, e.dn.rdns)
    decreases |e.dn.rdns|
  {
    var dn := e.dn.rdns;
    if dn != base {
      UnderIsLonger(base, dn);
      var n: nat :| KeyAnchored(all, Join(base), Parent(e), n);
      var q, m := KeyHolder(all, Join(base), Parent(e), n);
      assert q.dn == Parsed(dn[1..]);
      AnchoredIsRooted(all, base, q);
    }
  }

  lemma {:induction false} RootedIsAnchored(all: seq<Entry>, base: Name, e: Entry)
    requires IsSubtree(all, base) && e in all && Rooted(all, base, e.dn.rdns)
    ensures Anchored(all, Join(base), e)
    decreases |e.dn.rdns|
  {
    var dn := e.dn.rdns;
    if dn != base {
      var q :| q in all && q.dn == Parsed(dn[1..]);
      RootedIsAnchored(all, base, q);
      if Key(q) == Join(base) {
        assert KeyAnchored(all, Join(base), Parent(e), 0);
      } else {
        var n: nat :| KeyAnchored(all, Join(base), Parent(q), n);
        assert KeyAnchored(all, Join(base), Parent(e), n + 1);
      }
    }
  }

  ghost function BrokenAmong(all: seq<Entry>, base: string, s: seq<Entry>): set<Entry> {
    set e | e in s && !Anchored(all, base, e)
  }

  lemma BrokenGrows(all: seq<Entry>, base: string, s: seq<Entry>, last: Entry)
    requires last !in s
    ensures var before := BrokenAmong(all, base, s);
            && last !in before
            && BrokenAmong(all, base, s + [last]) == if Anchored(all, base, last) then before else before + {last}
  {
  }

  lemma {:induction false} FilterIsSet(all: seq<Entry>, base: string, s: seq<Entry>)
    requires forall i, j :: 0 <= i < j < |s| ==> s[i] != s[j]
    ensures |Filter(all, base, s, false)| == |BrokenAmong(all, base, s)|
  {
    if s == [] {
      assert BrokenAmong(all, base, s) == {};
    } else {
      var n := |s| - 1;
      FilterIsSet(all, base, s[..n]);
      assert s == s[..n] + [s[n]];
      BrokenGrows(all, base, s[..n], s[n]);
    }
  }

  /** The keys' orphans are among the true ones, and are all of them where nobody is mistaken. */
  ghost function KeyOrphans(all: seq<Entry>, base: Name): set<Entry> {
    set e | e in all && !Anchored(all, Join(base), e)
  }

  lemma OrphansByKey(arrival: seq<Entry>, out: seq<Entry>, base: Name)
    requires IsSubtree(out, base) && multiset(arrival) == multiset(out)
    ensures |Filter(arrival, Join(base), arrival, false)| == |KeyOrphans(out, base)|
    ensures KeyOrphans(out, base) <= TrueOrphans(out, base)
  {
    PermutedSubtree(out, arrival, base);
    SameElements(arrival, out);
    FilterIsSet(arrival, Join(base), arrival);
    forall e | e in out
      ensures Anchored(arrival, Join(base), e) <==> Anchored(out, Join(base), e)
    {
      if Anchored(arrival, Join(base), e) {
        AnchoredAmong(arrival, out, Join(base), e);
      }
      if Anchored(out, Join(base), e) {
        AnchoredAmong(out, arrival, Join(base), e);
      }
    }
    assert KeyOrphans(out, base) == BrokenAmong(arrival, Join(base), arrival);
    forall e | e in out && Rooted(out, base, e.dn.rdns) ensures Anchored(out, Join(base), e) {
      RootedIsAnchored(out, base, e);
    }
  }

  /** An anchored entry, and whatever precedes it in the file, left before the flush. */
  lemma BeforeFlush(arrival: seq<Entry>, base: string, out: seq<Entry>, i: nat, j: nat)
    requires Outcome(base, arrival, out, |Filter(arrival, base, arrival, false)|)
    requires j <= i < |out| && Anchored(arrival, base, out[i])
    ensures Anchored(arrival, base, out[j])
  {
    assert arrival[..|arrival|] == arrival && StreamsAt(arrival[..|arrival|], base, out);
    var k: nat :| k <= |out| && multiset(out[..k]) == multiset(Anchors(arrival, base));
    FilterCount(arrival, base, arrival, true, out[i]);
    if k <= i {
      LaterCopy(out[..k], out, i);
    }
    FilterCount(arrival, base, arrival, true, out[j]);
    assert out[j] == out[..k][j] && out[j] in out[..k];
  }

  lemma NoImpostorPermuted(a: seq<Entry>, b: seq<Entry>, base: Name)
    requires IsSubtree(a, base) && IsSubtree(b, base) && multiset(a) == multiset(b) && NoImpostor(a, base)
    ensures NoImpostor(b, base)
  {
    SameElements(a, b);
    forall d, q | d in b && q in b && d.dn.rdns != base && Anchored(b, Join(base), q) && Key(q) == Parent(d)
      ensures d.dn.rdns != [] && q.dn == Parsed(d.dn.rdns[1..])
    {
      AnchoredAmong(b, a, Join(base), q);
    }
  }

  lemma OrderedByName(arrival: seq<Entry>, base: Name, out: seq<Entry>, i: nat)
    requires IsSubtree(out, base) && NoImpostor(out, base) && i < |out|
    requires Outcome(Join(base), arrival, out, |Filter(arrival, Join(base), arrival, false)|)
    requires Rooted(out, base, out[i].dn.rdns) && out[i].dn.rdns != base
    ensures FollowsItsParent(out, i)
  {
    SameElements(arrival, out);
    UnderIsLonger(base, out[i].dn.rdns);
    RootedIsAnchored(out, base, out[i]);
    AnchoredAmong(out, arrival, Join(base), out[i]);
    var j :| 0 <= j < i && Key(out[j]) == Parent(out[i]);
    BeforeFlush(arrival, Join(base), out, i, j);
    AnchoredAmong(arrival, out, Join(base), out[j]);
  }

  lemma RightByName(all: seq<Entry>, base: Name, arrival: seq<Entry>, out: seq<Entry>, orphans: nat)
    requires IsSubtree(all, base) && NoImpostor(all, base) && multiset(arrival) == multiset(all)
    requires Outcome(Join(base), arrival, out, orphans)
    ensures IsSubtree(out, base) && Right(out, orphans, base)
  {
    PermutedSubtree(all, out, base);
    NoImpostorPermuted(all, out, base);
    forall i | 0 <= i < |out| && Rooted(out, base, out[i].dn.rdns) && out[i].dn.rdns != base
      ensures FollowsItsParent(out, i)
    {
      OrderedByName(arrival, base, out, i);
    }
    OrphansByKey(arrival, out, base);
    forall e | e in out && Anchored(out, Join(base), e) ensures Rooted(out, base, e.dn.rdns) {
      AnchoredIsRooted(out, base, e);
    }
    assert KeyOrphans(out, base) == TrueOrphans(out, base);
  }

  // ---- where somebody is ----

  lemma ParentAnchors(all: seq<Entry>, base: string, d: Entry, q: Entry)
    requires q in all && Anchored(all, base, q) && Key(q) == Parent(d)
    ensures Anchored(all, base, d)
  {
    if Key(q) == base {
      assert KeyAnchored(all, base, Parent(d), 0);
    } else {
      var n: nat :| KeyAnchored(all, base, Parent(q), n);
      assert KeyAnchored(all, base, Parent(d), n + 1);
    }
  }

  lemma {:induction false} RootedAmong(a: seq<Entry>, b: seq<Entry>, base: Name, dn: Name)
    requires (forall e :: e in a ==> e in b) && Rooted(a, base, dn)
    ensures Rooted(b, base, dn)
    decreases |dn|
  {
    if dn != base {
      RootedAmong(a, b, base, dn[1..]);
    }
  }

  ghost predicate Impostor(all: seq<Entry>, base: Name, d: Entry, q: Entry)
    requires IsSubtree(all, base)
  {
    && d in all && q in all && d.dn.rdns != base && Anchored(all, Join(base), q) && Key(q) == Parent(d)
    && !(d.dn.rdns != [] && q.dn == Parsed(d.dn.rdns[1..]))
  }

  /** An orphan with an impostor for a parent is not counted, in whatever order it arrives. */
  lemma OrphanUncounted(all: seq<Entry>, base: Name, d: Entry, q: Entry, arrival: seq<Entry>, out: seq<Entry>, orphans: nat)
    requires IsSubtree(all, base) && Impostor(all, base, d, q) && !Rooted(all, base, d.dn.rdns)
    requires multiset(arrival) == multiset(all) && Outcome(Join(base), arrival, out, orphans)
    ensures IsSubtree(out, base) && orphans < |TrueOrphans(out, base)|
  {
    PermutedSubtree(all, out, base);
    SameElements(all, out);
    OrphansByKey(arrival, out, base);
    ParentAnchors(all, Join(base), d, q);
    AnchoredAmong(all, out, Join(base), d);
    if Rooted(out, base, d.dn.rdns) {
      RootedAmong(out, all, base, d.dn.rdns);
    }
    assert d in TrueOrphans(out, base) && d !in KeyOrphans(out, base);
    FewerOf(KeyOrphans(out, base), TrueOrphans(out, base), d);
  }

  lemma FewerOf(a: set<Entry>, b: set<Entry>, d: Entry)
    requires a <= b && d in b && d !in a
    ensures |a| < |b|
  {
    SubsetSize(a, b - {d});
  }

  lemma {:induction false} SubsetSize(a: set<Entry>, b: set<Entry>)
    requires a <= b
    ensures |a| <= |b|
    decreases |a|
  {
    if a != {} {
      var x :| x in a;
      SubsetSize(a - {x}, b - {x});
    }
  }

  /** A chain of keys runs through shorter and shorter ones. */
  lemma {:induction false} ShorterChain(all: seq<Entry>, rest: seq<Entry>, base: Name, k: string, n: nat, size: nat)
    requires IsSubtree(all, base) && |k| < size
    requires forall e :: e in all && |Key(e)| < size ==> e in rest
    requires KeyAnchored(all, Join(base), k, n)
    ensures KeyAnchored(rest, Join(base), k, n)
    decreases n
  {
    if n > 0 {
      if KeyAnchored(all, Join(base), k, n - 1) {
        ShorterChain(all, rest, base, k, n - 1, size);
      } else {
        var e :| e in all && Key(e) == k && KeyAnchored(all, Join(base), Parent(e), n - 1);
        if e.dn.rdns != [] {
          JoinLonger(e.dn.rdns);
        }
        ShorterChain(all, rest, base, Parent(e), n - 1, size);
      }
    }
  }

  ghost function WithoutAt(all: seq<Entry>, i: nat): seq<Entry>
    requires i < |all|
  {
    all[..i] + all[i + 1..]
  }

  lemma MovedLast(all: seq<Entry>, i: nat)
    requires i < |all|
    ensures multiset(WithoutAt(all, i) + [all[i]]) == multiset(all)
    ensures forall e :: e in all ==> e == all[i] || e in WithoutAt(all, i)
  {
    assert all == all[..i] + [all[i]] + all[i + 1..];
  }

  /** Without its true parent an entry still goes out, for its impostor. */
  lemma GoesOutEarly(all: seq<Entry>, base: Name, d: Entry, q: Entry, i: nat)
    requires IsSubtree(all, base) && Impostor(all, base, d, q)
    requires i < |all| && d.dn.rdns != [] && all[i].dn == Parsed(d.dn.rdns[1..])
    ensures d in WithoutAt(all, i) && Anchored(WithoutAt(all, i), Join(base), d)
  {
    var rest, p := WithoutAt(all, i), all[i];
    MovedLast(all, i);
    UnderIsLonger(base, d.dn.rdns);
    assert q in rest && d in rest;
    if Key(q) != Join(base) {
      var n: nat :| KeyAnchored(all, Join(base), Parent(q), n);
      assert q.dn.rdns == [] ==> base == [];
      JoinLonger(q.dn.rdns);
      ShorterChain(all, rest, base, Parent(q), n, |Key(q)|);
    }
    ParentAnchors(rest, Join(base), d, q);
  }

  lemma EntryByName(out: seq<Entry>, base: Name, a: Entry, b: Entry)
    requires IsSubtree(out, base) && a in out && b in out && a != b
    ensures a.dn != b.dn
  {
  }

  lemma AnchorsHave(all: seq<Entry>, base: string, e: Entry)
    ensures e in Anchors(all, base) <==> e in all && Anchored(all, base, e)
  {
    FilterCount(all, base, all, true, e);
  }

  /** The entry is among those out before the last one arrived, and its parent is not. */
  lemma OutEarly(all: seq<Entry>, base: Name, d: Entry, q: Entry, i: nat, out: seq<Entry>, orphans: nat) returns (at: nat)
    requires IsSubtree(all, base) && Impostor(all, base, d, q)
    requires i < |all| && d.dn.rdns != [] && all[i].dn == Parsed(d.dn.rdns[1..])
    requires Outcome(Join(base), WithoutAt(all, i) + [all[i]], out, orphans)
    ensures at < |out| && out[at] == d && all[i] !in out[..at]
  {
    var rest, p := WithoutAt(all, i), all[i];
    var arrival := rest + [p];
    GoesOutEarly(all, base, d, q, i);
    assert arrival[..|rest|] == rest && StreamsAt(arrival[..|rest|], Join(base), out);
    var k: nat :| k <= |out| && multiset(out[..k]) == multiset(Anchors(rest, Join(base)));
    var early := out[..k];
    SameElements(early, Anchors(rest, Join(base)));
    AnchorsHave(rest, Join(base), d);
    AnchorsHave(rest, Join(base), p);
    PAbsent(all, base, i);
    at :| 0 <= at < |early| && early[at] == d;
    assert out[..at] == early[..at];
  }

  /** So with the true parent arriving last, the entry comes before it. */
  lemma Misordered(all: seq<Entry>, base: Name, d: Entry, q: Entry, i: nat, out: seq<Entry>, orphans: nat)
    requires IsSubtree(all, base) && Impostor(all, base, d, q) && Rooted(all, base, d.dn.rdns)
    requires i < |all| && d.dn.rdns != [] && all[i].dn == Parsed(d.dn.rdns[1..])
    requires Outcome(Join(base), WithoutAt(all, i) + [all[i]], out, orphans)
    ensures IsSubtree(out, base) && !TrueOrder(out, base)
  {
    MovedLast(all, i);
    PermutedSubtree(all, out, base);
    SameElements(all, out);
    RootedAmong(all, out, base, d.dn.rdns);
    var at := OutEarly(all, base, d, q, i, out, orphans);
    forall j | 0 <= j < at
      ensures out[j].dn != all[i].dn
    {
      assert out[..at][j] in out[..at];
      EntryByName(out, base, out[j], all[i]);
    }
  }

  lemma PAbsent(all: seq<Entry>, base: Name, i: nat)
    requires IsSubtree(all, base) && i < |all|
    ensures all[i] !in WithoutAt(all, i)
  {
    Once(all, i);
    MovedLast(all, i);
    assert multiset(WithoutAt(all, i) + [all[i]])[all[i]] == multiset(WithoutAt(all, i))[all[i]] + 1;
  }

  lemma ImpostorSpoils(all: seq<Entry>, base: Name, d: Entry, q: Entry) returns (arrival: seq<Entry>, out: seq<Entry>, orphans: nat)
    requires IsSubtree(all, base) && Impostor(all, base, d, q)
    ensures multiset(arrival) == multiset(all) && Outcome(Join(base), arrival, out, orphans)
    ensures IsSubtree(out, base) && !Right(out, orphans, base)
  {
    if Rooted(all, base, d.dn.rdns) {
      UnderIsLonger(base, d.dn.rdns);
      var p :| p in all && p.dn == Parsed(d.dn.rdns[1..]);
      var i :| 0 <= i < |all| && all[i] == p;
      arrival := WithoutAt(all, i) + [p];
      MovedLast(all, i);
      out, orphans := OutcomeExists(arrival, Join(base));
      Misordered(all, base, d, q, i, out, orphans);
    } else {
      arrival := all;
      out, orphans := OutcomeExists(arrival, Join(base));
      OrphanUncounted(all, base, d, q, arrival, out, orphans);
    }
  }

  /** In whatever order the entries arrive, whatever file comes out is right. */
  ghost predicate AlwaysRight(all: seq<Entry>, base: Name) {
    forall arrival, out, orphans :: Comes(all, base, arrival, out, orphans) ==>
      IsSubtree(out, base) && Right(out, orphans, base)
  }

  ghost predicate Comes(all: seq<Entry>, base: Name, arrival: seq<Entry>, out: seq<Entry>, orphans: nat) {
    multiset(arrival) == multiset(all) && Outcome(Join(base), arrival, out, orphans)
  }

  lemma RightIfNone(all: seq<Entry>, base: Name)
    requires IsSubtree(all, base) && NoImpostor(all, base)
    ensures AlwaysRight(all, base)
  {
    forall arrival, out, orphans | Comes(all, base, arrival, out, orphans)
      ensures IsSubtree(out, base) && Right(out, orphans, base)
    {
      RightByName(all, base, arrival, out, orphans);
    }
  }

  lemma WrongIfSome(all: seq<Entry>, base: Name, d: Entry, q: Entry)
    requires IsSubtree(all, base) && Impostor(all, base, d, q)
    ensures !AlwaysRight(all, base)
  {
    var arrival, out, orphans := ImpostorSpoils(all, base, d, q);
    assert Comes(all, base, arrival, out, orphans);
  }

  lemma SomeImpostor(all: seq<Entry>, base: Name) returns (d: Entry, q: Entry)
    requires IsSubtree(all, base) && !NoImpostor(all, base)
    ensures Impostor(all, base, d, q)
  {
    d, q :| && d in all && q in all && d.dn.rdns != base && Anchored(all, Join(base), q) && Key(q) == Parent(d)
            && !(d.dn.rdns != [] && q.dn == Parsed(d.dn.rdns[1..]));
  }

  /** Of a subtree's DNs: in every order of arrival every rooted entry follows its true parent
      and exactly the others are counted as orphans, if and only if no entry that is itself
      reached by keys has the parent key of another without being its parent. */
  lemma OrderExactly(all: seq<Entry>, base: Name)
    requires IsSubtree(all, base)
    ensures AlwaysRight(all, base) <==> NoImpostor(all, base)
  {
    if NoImpostor(all, base) {
      RightIfNone(all, base);
    } else {
      var d, q := SomeImpostor(all, base);
      WrongIfSome(all, base, d, q);
    }
  }

  /** Where no chain is broken, the condition is on the keys alone. */
  lemma WholeTree(all: seq<Entry>, base: Name)
    requires IsSubtree(all, base) && forall e :: e in all ==> Rooted(all, base, e.dn.rdns)
    ensures NoImpostor(all, base)
       <==> forall d, q :: d in all && q in all && d.dn.rdns != base && Key(q) == Parent(d) ==>
              d.dn.rdns != [] && q.dn == Parsed(d.dn.rdns[1..])
  {
    forall e | e in all ensures Anchored(all, Join(base), e) {
      RootedIsAnchored(all, base, e);
    }
  }

  /** Names without a comma in them have no impostors. */
  lemma CommaFreeIsRight(all: seq<Entry>, base: Name)
    requires IsSubtree(all, base) && forall e :: e in all ==> CommaFree(e.dn.rdns)
    ensures NoImpostor(all, base)
  {
    forall d, q | d in all && q in all && d.dn.rdns != base && Key(q) == Parent(d)
      ensures d.dn.rdns != [] && q.dn == Parsed(d.dn.rdns[1..])
    {
      UnderIsLonger(base, d.dn.rdns);
      KeyMatchIsParent(q.dn.rdns, d.dn.rdns);
    }
  }

  lemma AnchoredEverywhere(all: seq<Entry>, base: string)
    requires forall e :: e in all ==> Anchored(all, base, e)
    ensures forall arrival, out, orphans :: multiset(arrival) == multiset(all) && Outcome(base, arrival, out, orphans) ==>
              orphans == 0
  {
    forall arrival, out, orphans | multiset(arrival) == multiset(all) && Outcome(base, arrival, out, orphans)
      ensures orphans == 0
    {
      SameElements(all, arrival);
      forall e | e in arrival
        ensures Anchored(arrival, base, e)
      {
        AnchoredAmong(all, arrival, base, e);
      }
      NoneBroken(arrival, base, arrival);
    }
  }

  lemma ThreeEntries(root: Entry, other: Entry, child: Entry)
    requires root.dn == Parsed(["dc=x"]) && other.dn == Parsed(["cn=x,ou=y", "dc=x"])
    requires child.dn == Parsed(["cn=k", "cn=x", "ou=y", "dc=x"])
    ensures IsSubtree([root, other, child], ["dc=x"])
    ensures !Rooted([root, other, child], ["dc=x"], child.dn.rdns)
  {
    assert child.dn.rdns[1..] == ["cn=x", "ou=y", "dc=x"];
    assert !Present([root, other, child], child.dn.rdns[1..]);
  }

  lemma ThreeAnchored(root: Entry, other: Entry, child: Entry)
    requires root.dn == Parsed(["dc=x"]) && other.dn == Parsed(["cn=x,ou=y", "dc=x"])
    requires child.dn == Parsed(["cn=k", "cn=x", "ou=y", "dc=x"])
    ensures forall e :: e in [root, other, child] ==> Anchored([root, other, child], "dc=x", e)
  {
    var all := [root, other, child];
    assert Join(["dc=x"]) == "dc=x";
    assert other.dn.rdns[1..] == ["dc=x"] && child.dn.rdns[1..] == ["cn=x", "ou=y", "dc=x"];
    SharedKey();
    ParentAnchors(all, "dc=x", other, root);
    ParentAnchors(all, "dc=x", child, other);
  }

  /** One that goes wrong: cn=k,cn=x,ou=y,dc=x counts on cn=x\,ou=y,dc=x, and though its parent
      is not in the export no orphan is reported, in whatever order the three arrive. */
  lemma CommaHidesOrphan(record: Record) returns (all: seq<Entry>, child: Entry)
    ensures IsSubtree(all, ["dc=x"]) && child in all && !Rooted(all, ["dc=x"], child.dn.rdns)
    ensures forall arrival, out, orphans :: multiset(arrival) == multiset(all) && Outcome("dc=x", arrival, out, orphans) ==>
              orphans == 0
  {
    var root, other := Entry(Parsed(["dc=x"]), record), Entry(Parsed(["cn=x,ou=y", "dc=x"]), record);
    child := Entry(Parsed(["cn=k", "cn=x", "ou=y", "dc=x"]), record);
    all := [root, other, child];
    ThreeEntries(root, other, child);
    ThreeAnchored(root, other, child);
    AnchoredEverywhere(all, "dc=x");
  }

  lemma SharedKey()
    ensures Join(["cn=x", "ou=y", "dc=x"]) == Join(["cn=x,ou=y", "dc=x"])
  {
    var a, b := ["cn=x", "ou=y", "dc=x"], ["cn=x,ou=y", "dc=x"];
    assert a[1..] == ["ou=y", "dc=x"] && a[1..][1..] == ["dc=x"] && b[1..] == ["dc=x"];
    assert Join(a) == "cn=x" + "," + ("ou=y" + "," + "dc=x");
  }

  lemma {:induction false} NoneBroken(all: seq<Entry>, base: string, s: seq<Entry>)
    requires forall e :: e in s ==> Anchored(all, base, e)
    ensures Filter(all, base, s, false) == []
  {
    if s != [] {
      NoneBroken(all, base, s[..|s| - 1]);
    }
  }
}
