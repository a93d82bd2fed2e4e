/** The text of a whole LDIF export: what it is made of, exactly when it reads back as the
    entries exported, and that only a complete file ends with the closing line. */
module ExportText {
  import opened Wrappers
  import opened Base64
  import opened Ldif
  import opened ParentFirst

  function CommentLine(text: Bytes): Bytes {
    [HASH, SPACE] + text
  }

  ghost function CommentLinesOf(texts: seq<Bytes>): seq<Bytes> {
    seq(|texts|, i requires 0 <= i < |texts| => CommentLine(texts[i]))
  }

  /** The two remarks an export can end with, each naming a count. */
  datatype Notes = Notes(orphans: nat -> Bytes, end: nat -> Bytes)

  ghost function ClosingTexts(stats: Stats, notes: Notes): seq<Bytes> {
    (if stats.orphans > 0 then [notes.orphans(stats.orphans)] else []) + [notes.end(stats.entries)]
  }

  function FlatAll(entries: seq<Entry>): seq<Flat> {
    seq(|entries|, i requires 0 <= i < |entries| => FlatRecord(entries[i].record))
  }

  /** Everything the export asks the writer for, given the order the entries leave in. */
  ghost function FullText(head: seq<Bytes>, order: seq<Entry>, tail: seq<Bytes>): Bytes {
    Physical(DocumentLines(CommentLinesOf(head), FlatAll(order), CommentLinesOf(tail)))
  }

  /** The lines up to the first entry, and the text asked for before the closing lines. */
  ghost function HeadText(head: seq<Bytes>): Bytes {
    Physical(CommentLinesOf(head) + [AttrValue(VERSION, ONE), []])
  }

  ghost function BodyText(head: seq<Bytes>, order: seq<Entry>): Bytes {
    HeadText(head) + Physical(AllRecordLines(FlatAll(order)))
  }

  ghost function TailText(tail: seq<Bytes>): Bytes {
    Physical(CommentLinesOf(tail))
  }

  /** The text of the first n entries. */
  ghost function EntriesText(order: seq<Entry>, n: nat): Bytes
    requires n <= |order|
  {
    Physical(AllRecordLines(FlatAll(order[..n])))
  }

  lemma OneLine(line: Bytes)
    ensures Physical([line]) == Fold(line)
  {
    assert [line][1..] == [];
  }

  lemma {:induction false} PhysicalAppend(a: seq<Bytes>, b: seq<Bytes>)
    ensures Physical(a + b) == Physical(a) + Physical(b)
  {
    if a == [] {
      assert a + b == b;
    } else {
      PhysicalAppend(a[1..], b);
      assert (a + b)[1..] == a[1..] + b && (a + b)[0] == a[0];
    }
  }

  lemma PhysicalOnto(before: Bytes, a: seq<Bytes>, b: seq<Bytes>)
    ensures before + Physical(a) + Physical(b) == before + Physical(a + b)
  {
    PhysicalAppend(a, b);
    Chain(before, Physical(a), Physical(b));
  }

  lemma Chain(a: Bytes, b: Bytes, c: Bytes)
    ensures a + b + c == a + (b + c)
  {
  }

  lemma TwoLines(lines: seq<Bytes>, a: Bytes, b: Bytes)
    ensures Physical(lines + [a, b]) == Physical(lines) + Fold(a) + Fold(b)
  {
    assert lines + [a, b] == lines + [a] + [b];
    PhysicalAppend(lines + [a], [b]);
    PhysicalAppend(lines, [a]);
    OneLine(a);
    OneLine(b);
  }

  lemma NextValue(before: Bytes, name: Bytes, values: seq<Bytes>, j: nat)
    requires j < |values|
    ensures before + Physical(ValueLines(Named(name, values[..j]))) + Fold(AttrValue(name, values[j]))
         == before + Physical(ValueLines(Named(name, values[..j + 1])))
  {
    var line := AttrValue(name, values[j]);
    assert ValueLines(Named(name, values[..j + 1])) == ValueLines(Named(name, values[..j])) + [line];
    PhysicalOnto(before, ValueLines(Named(name, values[..j])), [line]);
    OneLine(line);
  }

  lemma {:induction false} FlattenAppend(a: seq<Attribute>, b: seq<Attribute>)
    ensures Flatten(a + b) == Flatten(a) + Flatten(b)
  {
    if a == [] {
      assert a + b == b;
    } else {
      FlattenAppend(a[1..], b);
      assert (a + b)[1..] == a[1..] + b && (a + b)[0] == a[0];
    }
  }

  lemma FlattenNext(attributes: seq<Attribute>, i: nat)
    requires i < |attributes|
    ensures ValueLines(Flatten(attributes[..i + 1])) ==
            ValueLines(Flatten(attributes[..i])) + ValueLines(Named(attributes[i].name, attributes[i].values))
  {
    assert attributes[..i + 1] == attributes[..i] + [attributes[i]];
    FlattenAppend(attributes[..i], [attributes[i]]);
    assert [attributes[i]][1..] == [];
  }

  lemma NextAttribute(before: Bytes, attributes: seq<Attribute>, i: nat)
    requires i < |attributes|
    ensures before + Physical(ValueLines(Flatten(attributes[..i])))
            + Physical(ValueLines(Named(attributes[i].name, attributes[i].values)))
         == before + Physical(ValueLines(Flatten(attributes[..i + 1])))
  {
    var done, next := ValueLines(Flatten(attributes[..i])), ValueLines(Named(attributes[i].name, attributes[i].values));
    FlattenNext(attributes, i);
    PhysicalOnto(before, done, next);
  }

  lemma WholeRecord(before: Bytes, r: Flat)
    ensures before + Fold(AttrValue(DN, r.dn)) + Physical(ValueLines(r.values)) + Fold([])
         == before + Physical(RecordLines(r))
  {
    var first := AttrValue(DN, r.dn);
    PhysicalAppend([first] + ValueLines(r.values), [[]]);
    PhysicalAppend([first], ValueLines(r.values));
    OneLine(first);
    OneLine([]);
    Gathered(before, Fold(first), Physical(ValueLines(r.values)), Fold([]));
  }

  lemma Gathered<T>(a: seq<T>, b: seq<T>, c: seq<T>, d: seq<T>)
    ensures a + b + c + d == a + ((b + c) + d)
  {
  }

  lemma {:induction false} RecordsAppend(a: seq<Flat>, b: seq<Flat>)
    ensures AllRecordLines(a + b) == AllRecordLines(a) + AllRecordLines(b)
  {
    if a == [] {
      assert a + b == b;
    } else {
      RecordsAppend(a[1..], b);
      assert (a + b)[1..] == a[1..] + b && (a + b)[0] == a[0];
    }
  }

  lemma EntriesNext(before: Bytes, order: seq<Entry>, i: nat)
    requires i < |order|
    ensures before + EntriesText(order, i) + Physical(RecordLines(FlatRecord(order[i].record)))
         == before + EntriesText(order, i + 1)
  {
    var r := FlatRecord(order[i].record);
    assert FlatAll(order[..i + 1]) == FlatAll(order[..i]) + [r];
    RecordsAppend(FlatAll(order[..i]), [r]);
    assert [r][1..] == [] && AllRecordLines([r]) == RecordLines(r);
    PhysicalOnto(before, AllRecordLines(FlatAll(order[..i])), RecordLines(r));
  }

  lemma FullIs(head: seq<Bytes>, order: seq<Entry>, tail: seq<Bytes>)
    ensures FullText(head, order, tail) == BodyText(head, order) + TailText(tail)
  {
    var start, body := CommentLinesOf(head) + [AttrValue(VERSION, ONE), []], AllRecordLines(FlatAll(order));
    PhysicalAppend(start + body, CommentLinesOf(tail));
    PhysicalAppend(start, body);
  }

  /** The export ends with the number of orphans, if there are any, and of entries. */
  lemma ClosingRemarks(head: seq<Bytes>, order: seq<Entry>, stats: Stats, notes: Notes)
    ensures FullText(head, order, ClosingTexts(stats, notes)) ==
            BodyText(head, order)
            + (if stats.orphans > 0 then Fold([35, 32] + notes.orphans(stats.orphans)) else [])
            + Fold([35, 32] + notes.end(stats.entries))
  {
    var tail := ClosingTexts(stats, notes);
    FullIs(head, order, tail);
    OneLine(CommentLine(notes.end(stats.entries)));
    if stats.orphans > 0 {
      TwoLines([], CommentLine(tail[0]), CommentLine(tail[1]));
      assert CommentLinesOf(tail) == [] + [CommentLine(tail[0]), CommentLine(tail[1])];
      Associates(BodyText(head, order), Fold(CommentLine(tail[0])), Fold(CommentLine(tail[1])));
    } else {
      assert CommentLinesOf(tail) == [CommentLine(tail[0])];
    }
  }

  lemma NoEntries(head: seq<Bytes>)
    ensures BodyText(head, []) == HeadText(head)
  {
    assert FlatAll([]) == [];
  }

  lemma MoreEntries(head: seq<Bytes>, before: seq<Entry>, after: seq<Entry>)
    requires before <= after
    ensures BodyText(head, after) == BodyText(head, before) + Physical(AllRecordLines(FlatAll(after[|before|..])))
  {
    var more := after[|before|..];
    assert FlatAll(after) == FlatAll(before) + FlatAll(more);
    RecordsAppend(FlatAll(before), FlatAll(more));
    PhysicalOnto(HeadText(head), AllRecordLines(FlatAll(before)), AllRecordLines(FlatAll(more)));
  }

  /** The attribute names a directory can answer with. */
  predicate ValidNames(r: Record) {
    forall a :: a in r.attributes ==> ValidName(a.name)
  }

  lemma {:induction false} FlattenedNames(attributes: seq<Attribute>)
    requires forall a :: a in attributes ==> ValidName(a.name)
    ensures forall v :: v in Flatten(attributes) ==> ValidName(v.0)
  {
    if attributes != [] {
      assert attributes[0] in attributes && forall a :: a in attributes[1..] ==> a in attributes;
      FlattenedNames(attributes[1..]);
    }
  }

  lemma RecordsValid(order: seq<Entry>)
    requires forall e :: e in order ==> ValidNames(e.record)
    ensures forall r :: r in FlatAll(order) ==> ValidRecord(r)
  {
    forall r | r in FlatAll(order)
      ensures ValidRecord(r)
    {
      var i :| 0 <= i < |order| && FlatAll(order)[i] == r;
      assert order[i] in order;
      FlattenedNames(order[i].record.attributes);
    }
  }

  /** How many values the first n attributes hold. */
  function Offset(attributes: seq<Attribute>, n: nat): nat
    requires n <= |attributes|
  {
    if n == 0 then 0 else Offset(attributes, n - 1) + |attributes[n - 1].values|
  }

  /** What was read is what the record holds: its dn, and each value of each attribute under
      that attribute's name, in the record's order, as often as it is there and nothing more. */
  ghost predicate ReadAs(read: Flat, r: Record) {
    && read.dn == r.dn
    && |read.values| == Offset(r.attributes, |r.attributes|)
    && forall i, k :: 0 <= i < |r.attributes| && 0 <= k < |r.attributes[i].values| ==> ReadAt(read, r, i, k)
  }

  /** The k-th value of the i-th attribute comes after all those before it. */
  ghost predicate ReadAt(read: Flat, r: Record, i: nat, k: nat)
    requires i < |r.attributes| && k < |r.attributes[i].values|
  {
    && Offset(r.attributes, i) + k < |read.values|
    && read.values[Offset(r.attributes, i) + k] == (r.attributes[i].name, r.attributes[i].values[k])
  }

  lemma {:induction false} OffsetGrows(attributes: seq<Attribute>, i: nat, n: nat)
    requires i < n <= |attributes|
    ensures Offset(attributes, i) + |attributes[i].values| <= Offset(attributes, n)
  {
    if i < n - 1 {
      OffsetGrows(attributes, i, n - 1);
    }
  }

  lemma OneMoreAttribute(attributes: seq<Attribute>, n: nat)
    requires 0 < n <= |attributes|
    ensures Flatten(attributes[..n]) == Flatten(attributes[..n - 1]) + Named(attributes[n - 1].name, attributes[n - 1].values)
  {
    var last := attributes[n - 1];
    assert attributes[..n] == attributes[..n - 1] + [last];
    FlattenAppend(attributes[..n - 1], [last]);
    assert [last][1..] == [];
  }

  lemma {:induction false} FlattenedLength(attributes: seq<Attribute>, n: nat)
    requires n <= |attributes|
    ensures |Flatten(attributes[..n])| == Offset(attributes, n)
  {
    if n > 0 {
      FlattenedLength(attributes, n - 1);
      OneMoreAttribute(attributes, n);
    }
  }

  lemma {:induction false} FlattenedAt(attributes: seq<Attribute>, n: nat, i: nat, k: nat)
    requires i < n <= |attributes| && k < |attributes[i].values|
    ensures Offset(attributes, i) + k < |Flatten(attributes[..n])|
    ensures Flatten(attributes[..n])[Offset(attributes, i) + k] == (attributes[i].name, attributes[i].values[k])
    decreases n
  {
    FlattenedLength(attributes, n);
    FlattenedLength(attributes, n - 1);
    OffsetGrows(attributes, i, n);
    OneMoreAttribute(attributes, n);
    if i < n - 1 {
      FlattenedAt(attributes, n - 1, i, k);
    }
  }

  lemma FlatReadsAs(r: Record)
    ensures ReadAs(FlatRecord(r), r)
  {
    var n := |r.attributes|;
    assert r.attributes[..n] == r.attributes;
    FlattenedLength(r.attributes, n);
    forall i, k | 0 <= i < n && 0 <= k < |r.attributes[i].values|
      ensures ReadAt(FlatRecord(r), r, i, k)
    {
      FlattenedAt(r.attributes, n, i, k);
    }
  }

  /** So a name and value are read exactly if some attribute of that name holds the value. */
  lemma ReadValues(read: Flat, r: Record, name: Bytes, value: Bytes)
    requires ReadAs(read, r)
    ensures (name, value) in read.values <==> exists a :: a in r.attributes && a.name == name && value in a.values
  {
    if a :| a in r.attributes && a.name == name && value in a.values {
      var i :| 0 <= i < |r.attributes| && r.attributes[i] == a;
      var k :| 0 <= k < |a.values| && a.values[k] == value;
      assert ReadAt(read, r, i, k);
    }
    if (name, value) in read.values {
      var p :| 0 <= p < |read.values| && read.values[p] == (name, value);
      var i, k := Locate(r.attributes, |r.attributes|, p);
      assert ReadAt(read, r, i, k);
    }
  }

  lemma {:induction false} Locate(attributes: seq<Attribute>, n: nat, p: nat) returns (i: nat, k: nat)
    requires n <= |attributes| && p < Offset(attributes, n)
    ensures i < n && k < |attributes[i].values| && p == Offset(attributes, i) + k
  {
    if p < Offset(attributes, n - 1) {
      i, k := Locate(attributes, n - 1, p);
    } else {
      i, k := n - 1, p - Offset(attributes, n - 1);
    }
  }

  /** One record read for each entry, in order. */
  ghost predicate AllReadAs(read: seq<Flat>, order: seq<Entry>) {
    |read| == |order| && forall i :: 0 <= i < |order| ==> ReadAs(read[i], order[i].record)
  }

  lemma AllFlatReadAs(order: seq<Entry>)
    ensures AllReadAs(FlatAll(order), order)
  {
    forall i | 0 <= i < |order|
      ensures ReadAs(FlatAll(order)[i], order[i].record)
    {
      FlatReadsAs(order[i].record);
    }
  }

  /** The complete file reads back as exactly the entries exported, in the order they were
      written, whatever bytes their values hold, if no comment has a line break in it. */
  lemma ExportReadsBack(head: seq<Bytes>, order: seq<Entry>, tail: seq<Bytes>)
    requires forall e :: e in order ==> ValidNames(e.record)
    requires forall t :: t in head || t in tail ==> LF !in t
    ensures ParseDocument(FullText(head, order, tail)) == Some(FlatAll(order))
    ensures ParseDocument(FullText(head, order, tail)).Some? && AllReadAs(ParseDocument(FullText(head, order, tail)).value, order)
    ensures forall l :: l in Lines(FullText(head, order, tail)) ==> |l| <= 77
  {
    RecordsValid(order);
    CommentsAreComments(head);
    CommentsAreComments(tail);
    DocumentRoundTrip(CommentLinesOf(head), FlatAll(order), CommentLinesOf(tail));
    AllFlatReadAs(order);
  }

  lemma CommentsAreComments(texts: seq<Bytes>)
    requires forall t :: t in texts ==> LF !in t
    ensures CommentLines(CommentLinesOf(texts))
  {
    forall l | l in CommentLinesOf(texts)
      ensures IsComment(l) && LF !in l
    {
      var i :| 0 <= i < |texts| && CommentLinesOf(texts)[i] == l;
      assert texts[i] in texts;
    }
  }

  // ---- when comments hold line breaks ----

  predicate Terminating(doc: Bytes) {
    doc == [] || doc[|doc| - 1] == LF
  }

  lemma {:induction false} UnfoldAppend(a: Bytes, b: Bytes)
    requires b == [] || b[0] != SPACE
    ensures Unfold(a + b) == Unfold(a) + Unfold(b)
    decreases |a|
  {
    if a == [] {
      assert a + b == b;
    } else if a[0] == LF && |a| > 1 && a[1] == SPACE {
      UnfoldAppend(a[2..], b);
      assert (a + b)[2..] == a[2..] + b;
    } else {
      UnfoldAppend(a[1..], b);
      SplitOff(a, b);
      Associates([a[0]], Unfold(a[1..]), Unfold(b));
    }
  }

  lemma SplitOff<T>(a: seq<T>, b: seq<T>)
    requires a != []
    ensures (a + b)[1..] == a[1..] + b && (a + b)[0] == a[0] && a + b == [a[0]] + (a[1..] + b) && a == [a[0]] + a[1..]
  {
  }

  lemma {:induction false} UnfoldTerminates(doc: Bytes)
    requires Terminating(doc)
    ensures Terminating(Unfold(doc)) && (doc != [] ==> Unfold(doc) != [])
    decreases |doc|
  {
    if doc != [] {
      if doc[0] == LF && |doc| > 1 && doc[1] == SPACE {
        UnfoldTerminates(doc[2..]);
      } else {
        UnfoldTerminates(doc[1..]);
      }
    }
  }

  lemma LinesOnto(b: Byte, doc: Bytes)
    requires doc != [] && b != LF
    ensures Lines(doc) != [] && Lines([b] + doc) == [[b] + Lines(doc)[0]] + Lines(doc)[1..]
  {
    assert ([b] + doc)[1..] == doc;
  }

  lemma {:induction false} LinesAppend(a: Bytes, b: Bytes)
    requires Terminating(a)
    ensures Lines(a + b) == Lines(a) + Lines(b)
  {
    if a == [] {
      assert a + b == b;
    } else {
      LinesAppend(a[1..], b);
      SplitOff(a, b);
      if a[0] != LF {
        LinesOnto(a[0], a[1..]);
        LinesOnto(a[0], a[1..] + b);
        SplitOff(Lines(a[1..]), Lines(b));
        Associates([[a[0]] + Lines(a[1..])[0]], Lines(a[1..])[1..], Lines(b));
      } else {
        Associates([[]], Lines(a[1..]), Lines(b));
      }
    }
  }

  lemma {:induction false} FoldTerminates(s: Bytes)
    ensures Terminating(Fold(s))
    decreases |s|
  {
    if |s| > WIDTH {
      FoldTerminates(s[WIDTH..]);
      FoldStart(s[WIDTH..]);
    }
  }

  lemma {:induction false} PhysicalTerminates(lines: seq<Bytes>)
    requires forall l :: l in lines ==> l == [] || l[0] != SPACE
    ensures Terminating(Physical(lines)) && (Physical(lines) == [] || Physical(lines)[0] != SPACE)
  {
    if lines != [] {
      assert lines[0] in lines && forall l :: l in lines[1..] ==> l in lines;
      PhysicalTerminates(lines[1..]);
      FoldTerminates(lines[0]);
      FoldStart(lines[0]);
    }
  }

  /** The lines a reader finds in comments once they are unfolded. */
  ghost function TextLines(texts: seq<Bytes>): seq<Bytes> {
    Lines(Unfold(TailText(texts)))
  }

  lemma CommentStarts(texts: seq<Bytes>)
    ensures forall l :: l in CommentLinesOf(texts) ==> l[0] == HASH
    ensures Terminating(TailText(texts)) && (TailText(texts) == [] || TailText(texts)[0] != SPACE)
  {
    PhysicalTerminates(CommentLinesOf(texts));
  }

  ghost function Middle(order: seq<Entry>): seq<Bytes> {
    [AttrValue(VERSION, ONE), []] + AllRecordLines(FlatAll(order))
  }

  lemma MiddleIsContent(order: seq<Entry>)
    requires forall e :: e in order ==> ValidNames(e.record)
    ensures ContentLines(Middle(order)) && CleanLines(Middle(order))
  {
    RecordsValid(order);
    VersionIsContent();
    AllLinesAreContent(FlatAll(order));
  }

  lemma FullSplits(head: seq<Bytes>, order: seq<Entry>, tail: seq<Bytes>)
    ensures FullText(head, order, tail) == TailText(head) + (Physical(Middle(order)) + TailText(tail))
  {
    var h, t := CommentLinesOf(head), CommentLinesOf(tail);
    assert DocumentLines(h, FlatAll(order), t) == h + (Middle(order) + t);
    PhysicalAppend(h, Middle(order) + t);
    PhysicalAppend(Middle(order), t);
  }

  /** However the comments break, the reader finds their lines around those of the entries. */
  lemma LinesRead(head: seq<Bytes>, order: seq<Entry>, tail: seq<Bytes>)
    requires forall e :: e in order ==> ValidNames(e.record)
    ensures Lines(Unfold(FullText(head, order, tail))) == TextLines(head) + (Middle(order) + TextLines(tail))
  {
    var h, m, t := TailText(head), Physical(Middle(order)), TailText(tail);
    FullSplits(head, order, tail);
    CommentStarts(head);
    CommentStarts(tail);
    MiddleIsContent(order);
    PhysicalTerminates(Middle(order));
    UnfoldAppend(m, t);
    UnfoldAppend(h, m + t);
    UnfoldTerminates(h);
    UnfoldTerminates(m);
    LinesAppend(Unfold(h), Unfold(m) + Unfold(t));
    LinesAppend(Unfold(m), Unfold(t));
    UnfoldPhysical(Middle(order));
    LinesTerminated(Middle(order));
  }

  lemma {:induction false} DropsIn(lines: seq<Bytes>, l: Bytes)
    ensures l in DropComments(lines) <==> l in lines && !IsComment(l)
  {
    if lines != [] {
      DropsIn(lines[1..], l);
    }
  }

  lemma {:induction false} NoRecords(lines: seq<Bytes>)
    ensures ParseRecords(lines) == Some([]) <==> forall l :: l in lines ==> l == []
  {
    if lines != [] {
      assert forall l :: l in lines <==> l == lines[0] || l in lines[1..];
      if lines[0] == [] {
        NoRecords(lines[1..]);
      } else {
        assert lines[0] in lines;
      }
    }
  }

  /** Past `[stray, []]` in the lines of records, a reader has at least one record more. */
  lemma {:induction false} StrayLine(before: seq<Bytes>, stray: Bytes, rest: seq<Bytes>)
    requires stray != [] && ParseLine(stray).Some? && ParseLine(stray).value.0 != DN
    ensures ParseRecords(before + ([stray, []] + rest)).Some? ==>
              && ParseRecords(rest).Some?
              && |ParseRecords(before + ([stray, []] + rest)).value| > |ParseRecords(rest).value|
    decreases |before|
  {
    var lines := before + ([stray, []] + rest);
    if before == [] {
      assert lines[0] == stray;
    } else {
      assert lines[1..] == before[1..] + ([stray, []] + rest) && lines[0] == before[0];
      if before[0] == [] {
        StrayLine(before[1..], stray, rest);
      } else if ParseRecords(lines).Some? {
        var n := ValuesEnd(before[1..], stray, rest);
        if n < |before| {
          StrayLine(before[1..][n..], stray, rest);
        }
      }
    }
  }

  /** The record being read ends at a blank line before the stray one, or takes it in. */
  lemma {:induction false} ValuesEnd(before: seq<Bytes>, stray: Bytes, rest: seq<Bytes>) returns (n: nat)
    requires stray != [] && ParseValues(before + ([stray, []] + rest)).Some?
    ensures var left := ParseValues(before + ([stray, []] + rest)).value.1;
            if n <= |before| then left == before[n..] + ([stray, []] + rest) else left == rest
  {
    var lines := before + ([stray, []] + rest);
    if before == [] {
      assert lines[1..] == [[]] + rest && lines[1..][1..] == rest;
      n := 1;
    } else {
      assert lines[1..] == before[1..] + ([stray, []] + rest) && lines[0] == before[0];
      if before[0] == [] {
        n := 1;
      } else {
        n := ValuesEnd(before[1..], stray, rest);
        assert n <= |before[1..]| ==> before[1..][n..] == before[n + 1..];
        n := n + 1;
      }
    }
  }

  /** A reader of the whole file gets the entries exactly if it finds nothing but comments
      before the version, and nothing but comments and blank lines after the last entry. */
  lemma ReadsBackExactly(head: seq<Bytes>, order: seq<Entry>, tail: seq<Bytes>)
    requires forall e :: e in order ==> ValidNames(e.record)
    ensures ParseDocument(FullText(head, order, tail)) == Some(FlatAll(order)) <==>
            (forall l :: l in TextLines(head) ==> IsComment(l)) && (forall l :: l in TextLines(tail) ==> IsComment(l) || l == [])
  {
    var h, t, m := DropComments(TextLines(head)), DropComments(TextLines(tail)), Middle(order);
    LinesRead(head, order, tail);
    MiddleIsContent(order);
    DropNothing(m);
    DropAppend(TextLines(head), m + TextLines(tail));
    DropAppend(m, TextLines(tail));
    forall l
      ensures l in h <==> l in TextLines(head) && !IsComment(l)
      ensures l in t <==> l in TextLines(tail) && !IsComment(l)
    {
      DropsIn(TextLines(head), l);
      DropsIn(TextLines(tail), l);
    }
    NoRecords(t);
    ContentReads(h, order, t);
    assert h == [] || h[0] in h;
  }

  predicate Reads(lines: seq<Bytes>, records: seq<Flat>) {
    lines != [] && ParseLine(lines[0]) == Some((VERSION, ONE)) && ParseRecords(lines[1..]) == Some(records)
  }

  lemma ContentReads(h: seq<Bytes>, order: seq<Entry>, t: seq<Bytes>)
    requires forall e :: e in order ==> ValidNames(e.record)
    ensures Reads(h + (Middle(order) + t), FlatAll(order)) <==> h == [] && ParseRecords(t) == Some([])
  {
    RecordsValid(order);
    VersionIsContent();
    LineIsClean(VERSION, ONE);
    ParseRecordsOf(FlatAll(order), t);
    Associates([AttrValue(VERSION, ONE), []], AllRecordLines(FlatAll(order)), t);
    AfterHead(h, AttrValue(VERSION, ONE), AllRecordLines(FlatAll(order)) + t, FlatAll(order), ParseRecords(t));
  }

  lemma AfterHead(h: seq<Bytes>, version: Bytes, rest: seq<Bytes>, records: seq<Flat>, more: Option<seq<Flat>>)
    requires version != [] && ParseLine(version) == Some((VERSION, ONE)) && ParseRecords(rest) == Then(records, more)
    ensures Reads(h + ([version, []] + rest), records) <==> h == [] && more == Some([])
  {
    if h == [] {
      assert h + ([version, []] + rest) == [version, []] + rest;
      AfterVersion(version, rest);
      ThenNoMore(records, more);
    } else {
      StrayFirst(h, version, rest, records);
    }
  }

  lemma StrayFirst(h: seq<Bytes>, version: Bytes, rest: seq<Bytes>, records: seq<Flat>)
    requires h != [] && version != [] && ParseLine(version) == Some((VERSION, ONE))
    requires ParseRecords(rest).Some? ==> |ParseRecords(rest).value| >= |records|
    ensures !Reads(h + ([version, []] + rest), records)
  {
    assert (h + ([version, []] + rest))[1..] == h[1..] + ([version, []] + rest);
    StrayLine(h[1..], version, rest);
  }

  lemma ThenNoMore(records: seq<Flat>, rest: Option<seq<Flat>>)
    ensures Then(records, rest) == Some(records) <==> rest == Some([])
  {
    if rest.Some? {
      assert |records + rest.value| == |records| + |rest.value|;
      assert records + [] == records;
    }
  }

  /** No line feed starts a continued line. */
  predicate Unjoined(s: Bytes) {
    forall i :: 0 <= i < |s| - 1 && s[i] == LF ==> s[i + 1] != SPACE
  }

  /** Every line feed starts another comment. */
  predicate StaysComment(s: Bytes) {
    forall i :: 0 <= i < |s| && s[i] == LF ==> i + 1 < |s| && s[i + 1] == HASH
  }

  lemma {:induction false} UnfoldUnjoined(a: Bytes, rest: Bytes)
    requires Unjoined(a) && (a == [] || a[|a| - 1] != LF || rest == [] || rest[0] != SPACE)
    ensures Unfold(a + rest) == a + Unfold(rest)
  {
    if a == [] {
      assert a + rest == rest;
    } else {
      UnjoinedParts(a, 1);
      UnfoldUnjoined(a[1..], rest);
      SplitOff(a, rest);
      Associates([a[0]], a[1..], Unfold(rest));
    }
  }

  /** Folding is undone wherever it falls, beside line feeds too. */
  lemma {:induction false} UnfoldFoldUnjoined(s: Bytes)
    requires Unjoined(s)
    ensures Unfold(Fold(s)) == s + [LF]
    decreases |s|
  {
    if |s| <= WIDTH {
      UnfoldUnjoined(s, [LF]);
    } else {
      var head, tail := s[..WIDTH], s[WIDTH..];
      UnjoinedParts(s, WIDTH);
      UnfoldUnjoined(head, [LF, SPACE] + Fold(tail));
      assert ([LF, SPACE] + Fold(tail))[2..] == Fold(tail);
      UnfoldFoldUnjoined(tail);
      Associates(head, [LF, SPACE], Fold(tail));
      Associates(head, tail, [LF]);
      assert head + tail == s;
    }
  }

  lemma UnjoinedParts(s: Bytes, n: nat)
    requires n <= |s| && Unjoined(s)
    ensures Unjoined(s[..n]) && Unjoined(s[n..])
  {
    assert forall i :: 0 <= i < |s| - n ==> s[n..][i] == s[n + i];
  }

  ghost predicate AllComments(lines: seq<Bytes>) {
    forall l :: l in lines ==> IsComment(l)
  }

  lemma {:induction false} CommentsAfterFirst(s: Bytes)
    ensures var lines := Lines(s + [LF]);
            && lines != [] && (IsComment(lines[0]) <==> IsComment(s))
            && (AllComments(lines[1..]) <==> StaysComment(s))
  {
    if s == [] {
      assert s + [LF] == [LF] && [LF][1..] == [];
    } else {
      CommentsAfterFirst(s[1..]);
      SplitOff(s, [LF]);
      var more := Lines(s[1..] + [LF]);
      StaysCommentStep(s);
      if s[0] == LF {
        assert Lines(s + [LF]) == [[]] + more && ([[]] + more)[1..] == more;
        assert more == [more[0]] + more[1..];
        assert AllComments(more) <==> IsComment(more[0]) && AllComments(more[1..]);
      } else {
        LinesOnto(s[0], s[1..] + [LF]);
        assert Lines(s + [LF])[1..] == more[1..];
      }
    }
  }

  lemma StaysCommentStep(s: Bytes)
    requires s != []
    ensures StaysComment(s) <==> StaysComment(s[1..]) && (s[0] == LF ==> IsComment(s[1..]))
  {
    var t := s[1..];
    assert forall i :: 0 <= i < |t| ==> t[i] == s[i + 1];
    if StaysComment(t) && (s[0] == LF ==> IsComment(t)) {
      forall i | 0 <= i < |s| && s[i] == LF
        ensures i + 1 < |s| && s[i + 1] == HASH
      {
        assert i > 0 ==> t[i - 1] == LF;
      }
    }
    if StaysComment(s) {
      forall i | 0 <= i < |t| && t[i] == LF
        ensures i + 1 < |t| && t[i + 1] == HASH
      {
        assert s[i + 1] == LF;
      }
    }
  }

  /** One comment reads as comments alone exactly when each line feed in it is followed by "#". */
  lemma CommentReads(text: Bytes)
    requires Unjoined(text)
    ensures AllComments(Lines(Unfold(Fold(CommentLine(text))))) <==> StaysComment(text)
  {
    var line := CommentLine(text);
    assert forall i :: 2 <= i < |line| ==> line[i] == text[i - 2];
    assert Unjoined(line);
    UnfoldFoldUnjoined(line);
    CommentsAfterFirst(line);
    assert line[1..] == [SPACE] + text && line[1..][1..] == text;
    StaysCommentStep(line);
    StaysCommentStep(line[1..]);
    var lines := Lines(line + [LF]);
    assert lines == [lines[0]] + lines[1..];
  }

  lemma TextLinesStep(texts: seq<Bytes>)
    requires texts != []
    ensures TextLines(texts) == Lines(Unfold(Fold(CommentLine(texts[0])))) + TextLines(texts[1..])
  {
    var first, rest := Fold(CommentLine(texts[0])), TailText(texts[1..]);
    assert CommentLinesOf(texts)[1..] == CommentLinesOf(texts[1..]);
    CommentStarts(texts[1..]);
    FoldTerminates(CommentLine(texts[0]));
    UnfoldTerminates(first);
    UnfoldAppend(first, rest);
    LinesAppend(Unfold(first), Unfold(rest));
  }

  lemma {:induction false} TextsRead(texts: seq<Bytes>)
    ensures AllComments(TextLines(texts)) <==> forall t :: t in texts ==> AllComments(Lines(Unfold(Fold(CommentLine(t)))))
  {
    if texts == [] {
      assert TailText(texts) == [];
    } else {
      TextLinesStep(texts);
      TextsRead(texts[1..]);
      var first, more := Lines(Unfold(Fold(CommentLine(texts[0])))), TextLines(texts[1..]);
      assert forall l :: l in first + more <==> l in first || l in more;
      assert forall t :: t in texts <==> t == texts[0] || t in texts[1..];
    }
  }

  /** A comment in which some line feed is followed by neither a space nor "#", none being
      continued, makes the file unreadable, whatever the other comments are. */
  lemma LineFeedBreaks(head: seq<Bytes>, text: Bytes, order: seq<Entry>, tail: seq<Bytes>)
    requires forall e :: e in order ==> ValidNames(e.record)
    requires text in head && Unjoined(text) && !StaysComment(text)
    ensures ParseDocument(FullText(head, order, tail)) != Some(FlatAll(order))
  {
    ReadsBackExactly(head, order, tail);
    TextsRead(head);
    CommentReads(text);
  }

  /** The words "ldapwarden export of ". */
  const EXPORT_OF: Bytes := [108, 100, 97, 112, 119, 97, 114, 100, 101, 110, 32, 101, 120, 112, 111, 114, 116, 32, 111, 102, 32]

  /** The first comment of an export: the base asked for, then scope, attributes and time. */
  function HeadNote(base: Bytes, rest: Bytes): Bytes {
    EXPORT_OF + base + rest
  }

  /** With one comment that may hold line feeds, it alone decides. */
  lemma NoteReadsBackExactly(note: Bytes, second: Bytes, order: seq<Entry>, tail: seq<Bytes>)
    requires forall e :: e in order ==> ValidNames(e.record)
    requires Unjoined(note) && LF !in second && forall t :: t in tail ==> LF !in t
    ensures ParseDocument(FullText([note, second], order, tail)) == Some(FlatAll(order)) <==> StaysComment(note)
  {
    ReadsBackExactly([note, second], order, tail);
    TextsRead([note, second]);
    TextsRead(tail);
    forall t | t in tail
      ensures AllComments(Lines(Unfold(Fold(CommentLine(t)))))
    {
      CommentReads(t);
    }
    CommentReads(second);
    CommentReads(note);
  }

  lemma FeedsInside(before: Bytes, base: Bytes, rest: Bytes, i: nat)
    requires LF !in before && LF !in rest && i < |before + base + rest| && (before + base + rest)[i] == LF
    ensures |before| <= i < |before| + |base| && base[i - |before|] == LF
  {
    var s, n := before + base + rest, |before| + |base|;
    assert s == before + (base + rest);
    assert forall j :: 0 <= j < |before| ==> s[j] == before[j];
    assert forall j :: n <= j < |s| ==> s[j] == rest[j - n];
  }

  /** Between texts without line feeds, a base keeps what its own line feeds do. */
  lemma NoteBreaks(before: Bytes, base: Bytes, rest: Bytes)
    requires Unjoined(base) && (base != [] ==> base[|base| - 1] != LF) && LF !in before && LF !in rest
    ensures Unjoined(before + base + rest)
    ensures StaysComment(before + base + rest) <==> StaysComment(base)
  {
    var s, n := before + base + rest, |before|;
    assert forall j :: 0 <= j < |base| ==> s[n + j] == base[j];
    forall i | 0 <= i < |s| && s[i] == LF
      ensures n <= i < n + |base| - 1 && base[i - n] == LF && s[i + 1] == base[i + 1 - n]
    {
      FeedsInside(before, base, rest, i);
    }
    if StaysComment(s) {
      forall i | 0 <= i < |base| && base[i] == LF
        ensures i + 1 < |base| && base[i + 1] == HASH
      {
        assert s[n + i] == LF;
      }
    }
  }

  lemma WordsHaveNoFeed()
    ensures LF !in EXPORT_OF
  {
  }

  /** So, for a base with no line feed at its end or before a space, the file reads back
      exactly if each line feed in the base is followed by "#". */
  lemma BaseReadsBackExactly(base: Bytes, rest: Bytes, second: Bytes, order: seq<Entry>, tail: seq<Bytes>)
    requires forall e :: e in order ==> ValidNames(e.record)
    requires Unjoined(base) && (base != [] ==> base[|base| - 1] != LF) && LF !in rest && LF !in second
    requires forall t :: t in tail ==> LF !in t
    ensures ParseDocument(FullText([HeadNote(base, rest), second], order, tail)) == Some(FlatAll(order)) <==> StaysComment(base)
  {
    WordsHaveNoFeed();
    NoteBreaks(EXPORT_OF, base, rest);
    NoteReadsBackExactly(HeadNote(base, rest), second, order, tail);
  }

  /** A base that does it: ou=a, a line feed, b,dc=x. */
  lemma BrokenBase(rest: Bytes, second: Bytes, order: seq<Entry>, tail: seq<Bytes>) returns (base: Bytes)
    requires forall e :: e in order ==> ValidNames(e.record)
    requires LF !in rest && LF !in second && forall t :: t in tail ==> LF !in t
    ensures base == [111, 117, 61, 97, 10, 98, 44, 100, 99, 61, 120]
    ensures ParseDocument(FullText([HeadNote(base, rest), second], order, tail)) != Some(FlatAll(order))
  {
    base := [111, 117, 61, 97, 10, 98, 44, 100, 99, 61, 120];
    assert base[4] == LF && base[5] != HASH;
    BaseReadsBackExactly(base, rest, second, order, tail);
  }

  // ---- the closing line ----

  ghost predicate LastLine(file: Bytes, line: Bytes) {
    Terminating(file) && Lines(file) != [] && Lines(file)[|Lines(file)| - 1] == line
  }

  /** The file ends with a line that says the export ended, whatever count it names. */
  ghost predicate Closes(file: Bytes, notes: Notes) {
    exists n: nat :: LastLine(file, CommentLine(notes.end(n)))
  }

  ghost predicate Apart(lines: seq<Bytes>, notes: Notes) {
    forall n: nat :: CommentLine(notes.end(n)) !in lines
  }

  /** The closing line fits on one, and no other comment holds one that reads like it. */
  ghost predicate Distinctive(head: seq<Bytes>, notes: Notes) {
    && (forall n: nat :: LF !in notes.end(n) && |CommentLine(notes.end(n))| <= WIDTH)
    && Apart(Lines(TailText(head)), notes)
    && (forall n: nat :: Apart(Lines(TailText([notes.orphans(n)])), notes))
  }

  ghost function OrphanTexts(stats: Stats, notes: Notes): seq<Bytes> {
    if stats.orphans > 0 then [notes.orphans(stats.orphans)] else []
  }

  ghost function BeforeClosing(head: seq<Bytes>, order: seq<Entry>, stats: Stats, notes: Notes): Bytes {
    TailText(head) + (Physical(Middle(order)) + TailText(OrphanTexts(stats, notes)))
  }

  lemma ClosingSplits(head: seq<Bytes>, order: seq<Entry>, stats: Stats, notes: Notes)
    requires Distinctive(head, notes)
    ensures FullText(head, order, ClosingTexts(stats, notes)) ==
            BeforeClosing(head, order, stats, notes) + (CommentLine(notes.end(stats.entries)) + [LF])
  {
    var orphans, end := OrphanTexts(stats, notes), notes.end(stats.entries);
    FullSplits(head, order, ClosingTexts(stats, notes));
    assert CommentLinesOf(ClosingTexts(stats, notes)) == CommentLinesOf(orphans) + [CommentLine(end)];
    PhysicalAppend(CommentLinesOf(orphans), [CommentLine(end)]);
    OneLine(CommentLine(end));
    Regroup4(TailText(head), Physical(Middle(order)), TailText(orphans), CommentLine(end) + [LF]);
  }

  lemma Regroup4(a: Bytes, b: Bytes, c: Bytes, d: Bytes)
    ensures a + (b + (c + d)) == a + (b + c) + d
  {
  }

  lemma {:induction false} FoldedStarts(s: Bytes, l: Bytes)
    requires l in FoldedLines(s) && !IsComment(s)
    ensures !IsComment(l)
    decreases |s|
  {
    if |s| > WIDTH {
      var rest := FoldedLines(s[WIDTH..]);
      assert l == s[..WIDTH] || l == [SPACE] + rest[0] || l in rest[1..];
      if l != s[..WIDTH] && l != [SPACE] + rest[0] {
        ContinuationStarts(s[WIDTH..], l);
      }
    }
  }

  /** After the first, a folded line goes on with a space. */
  lemma {:induction false} ContinuationStarts(s: Bytes, l: Bytes)
    requires l in FoldedLines(s)[1..]
    ensures l != [] && l[0] == SPACE
    decreases |s|
  {
    if |s| > WIDTH {
      var rest := FoldedLines(s[WIDTH..]);
      assert FoldedLines(s)[1..] == [[SPACE] + rest[0]] + rest[1..];
      if l != [SPACE] + rest[0] {
        ContinuationStarts(s[WIDTH..], l);
      }
    }
  }

  /** No line of the entries reads as a comment, folded or not. */
  lemma {:induction false} ContentStarts(lines: seq<Bytes>, l: Bytes)
    requires ContentLines(lines) && l in Lines(Physical(lines))
    ensures !IsComment(l)
  {
    if lines != [] {
      assert lines[0] in lines && forall x :: x in lines[1..] ==> x in lines;
      LinesOfFold(lines[0], Physical(lines[1..]));
      if l in FoldedLines(lines[0]) {
        FoldedStarts(lines[0], l);
      } else {
        ContentStarts(lines[1..], l);
      }
    }
  }

  lemma MiddleIsApart(order: seq<Entry>, notes: Notes)
    requires forall e :: e in order ==> ValidNames(e.record)
    ensures Terminating(Physical(Middle(order))) && Apart(Lines(Physical(Middle(order))), notes)
  {
    MiddleIsContent(order);
    PhysicalTerminates(Middle(order));
    forall n: nat
      ensures CommentLine(notes.end(n)) !in Lines(Physical(Middle(order)))
    {
      if CommentLine(notes.end(n)) in Lines(Physical(Middle(order))) {
        ContentStarts(Middle(order), CommentLine(notes.end(n)));
      }
    }
  }

  lemma BothApart(a: Bytes, b: Bytes, notes: Notes)
    requires Terminating(a) && Terminating(b) && Apart(Lines(a), notes) && Apart(Lines(b), notes)
    ensures Terminating(a + b) && Apart(Lines(a + b), notes)
  {
    LinesAppend(a, b);
  }

  lemma BeforeIsApart(head: seq<Bytes>, order: seq<Entry>, stats: Stats, notes: Notes)
    requires Distinctive(head, notes) && forall e :: e in order ==> ValidNames(e.record)
    ensures Terminating(BeforeClosing(head, order, stats, notes))
    ensures Apart(Lines(BeforeClosing(head, order, stats, notes)), notes)
  {
    var orphans := TailText(OrphanTexts(stats, notes));
    CommentStarts(head);
    CommentStarts(OrphanTexts(stats, notes));
    MiddleIsApart(order, notes);
    assert Apart(Lines(orphans), notes) by {
      assert stats.orphans == 0 ==> orphans == [];
    }
    BothApart(Physical(Middle(order)), orphans, notes);
    BothApart(TailText(head), Physical(Middle(order)) + orphans, notes);
  }

  lemma ClosingLines(before: Bytes, end: Bytes)
    requires Terminating(before) && LF !in end
    ensures Lines(before + (end + [LF])) == Lines(before) + [end]
    ensures Terminating(before + (end + [LF]))
  {
    LinesAppend(before, end + [LF]);
    LinesOf(end, []);
    assert end + [LF] + [] == end + [LF];
  }

  lemma ShorterLines(a: seq<Bytes>, b: seq<Bytes>, c: seq<Bytes>, last: Bytes)
    requires a + b == c + [last] && b != []
    ensures forall l :: l in a ==> l in c
  {
    assert forall i :: 0 <= i < |a| ==> a[i] == (a + b)[i] == (c + [last])[i];
  }

  lemma CutShort(file: Bytes, before: Bytes, end: Bytes, notes: Notes)
    requires Terminating(before) && LF !in end && Apart(Lines(before), notes)
    requires file < before + (end + [LF])
    ensures !Closes(file, notes)
  {
    if n: nat :| LastLine(file, CommentLine(notes.end(n))) {
      var full := before + (end + [LF]);
      var rest := full[|file|..];
      assert full == file + rest;
      ClosingLines(before, end);
      LinesAppend(file, rest);
      assert Lines(rest) != [];
      ShorterLines(Lines(file), Lines(rest), Lines(before), end);
      assert false;
    }
  }

  /** A prefix of the export ends with a closing line exactly when it is all of it. */
  lemma ClosesExactly(file: Bytes, head: seq<Bytes>, order: seq<Entry>, stats: Stats, notes: Notes)
    requires Distinctive(head, notes) && forall e :: e in order ==> ValidNames(e.record)
    requires file <= FullText(head, order, ClosingTexts(stats, notes))
    ensures Closes(file, notes) <==> file == FullText(head, order, ClosingTexts(stats, notes))
  {
    var before, end := BeforeClosing(head, order, stats, notes), CommentLine(notes.end(stats.entries));
    ClosingSplits(head, order, stats, notes);
    BeforeIsApart(head, order, stats, notes);
    if file == before + (end + [LF]) {
      ClosingLines(before, end);
      assert LastLine(file, end);
    } else {
      CutShort(file, before, end, notes);
    }
  }

  lemma EndsWhenComplete(file: Bytes, head: seq<Bytes>, order: seq<Entry>, stats: Stats, notes: Notes)
    requires file <= BodyText(head, order) || file <= FullText(head, order, ClosingTexts(stats, notes))
    ensures file <= BodyText(head, order) ==> file < FullText(head, order, ClosingTexts(stats, notes))
    ensures Distinctive(head, notes) && (forall e :: e in order ==> ValidNames(e.record)) ==>
              (Closes(file, notes) <==> file == FullText(head, order, ClosingTexts(stats, notes)))
  {
    var tail := ClosingTexts(stats, notes);
    FullIs(head, order, tail);
    assert TailText(tail) != [] by {
      FoldStart(CommentLinesOf(tail)[0]);
    }
    assert file <= FullText(head, order, tail);
    if Distinctive(head, notes) && forall e :: e in order ==> ValidNames(e.record) {
      ClosesExactly(file, head, order, stats, notes);
    }
  }
}
