/** The RFC 2849 text an export writes, and the reader that shows nothing is lost in it. */
module Ldif {
  import opened Wrappers
  import opened Base64

  const LF: Byte := 10
  const CR: Byte := 13
  const SPACE: Byte := 32
  const HASH: Byte := 35
  const COLON: Byte := 58
  const LESS_THAN: Byte := 60

  datatype Attribute = Attribute(name: Bytes, values: seq<Bytes>)

  datatype Record = Record(dn: Bytes, attributes: seq<Attribute>)

  /** A record as the text carries it: one name and value per line. */
  datatype Flat = Flat(dn: Bytes, values: seq<(Bytes, Bytes)>)

  /** The words "dn", "version" and "1". */
  const DN: Bytes := [100, 110]
  const VERSION: Bytes := [118, 101, 114, 115, 105, 111, 110]
  const ONE: Bytes := [49]

  // ---- printing ----

  /** Where lines are folded: 76 bytes, then a line feed and a space. */
  const WIDTH := 76

  function Fold(s: Bytes): Bytes {
    if |s| <= WIDTH then s + [LF] else s[..WIDTH] + [LF, SPACE] + Fold(s[WIDTH..])
  }

  /** SAFE-STRING, with a trailing space excluded as the RFC recommends. */
  predicate IsSafeString(value: Bytes)
    requires value != []
  {
    && value[0] != SPACE && value[0] != COLON && value[0] != LESS_THAN
    && value[|value| - 1] != SPACE
    && forall b :: b in value ==> b != 0 && b != LF && b != CR && b <= 127
  }

  function AttrValue(name: Bytes, value: Bytes): Bytes {
    if value == [] then name + [COLON]
    else if IsSafeString(value) then name + [COLON, SPACE] + value
    else name + [COLON, COLON, SPACE] + Encode(value)
  }

  function Flatten(attributes: seq<Attribute>): seq<(Bytes, Bytes)> {
    if attributes == [] then []
    else Named(attributes[0].name, attributes[0].values) + Flatten(attributes[1..])
  }

  function Named(name: Bytes, values: seq<Bytes>): seq<(Bytes, Bytes)> {
    seq(|values|, i requires 0 <= i < |values| => (name, values[i]))
  }

  function FlatRecord(r: Record): Flat {
    Flat(r.dn, Flatten(r.attributes))
  }

  function ValueLines(values: seq<(Bytes, Bytes)>): seq<Bytes> {
    seq(|values|, i requires 0 <= i < |values| => AttrValue(values[i].0, values[i].1))
  }

  function RecordLines(r: Flat): seq<Bytes> {
    [AttrValue(DN, r.dn)] + ValueLines(r.values) + [[]]
  }

  function AllRecordLines(records: seq<Flat>): seq<Bytes> {
    if records == [] then [] else RecordLines(records[0]) + AllRecordLines(records[1..])
  }

  /** The lines of a whole document: comments, the version, a blank line, the records,
      and the comments that close it. */
  function DocumentLines(head: seq<Bytes>, records: seq<Flat>, tail: seq<Bytes>): seq<Bytes> {
    head + [AttrValue(VERSION, ONE), []] + AllRecordLines(records) + tail
  }

  function Physical(lines: seq<Bytes>): Bytes {
    if lines == [] then [] else Fold(lines[0]) + Physical(lines[1..])
  }

  // ---- reading, from RFC 2849 ----

  /** Note 2 of "Notes on LDIF Syntax": a line feed followed by a space continues a line. */
  function Unfold(doc: Bytes): Bytes {
    if doc == [] then []
    else if doc[0] == LF && |doc| > 1 && doc[1] == SPACE then Unfold(doc[2..])
    else [doc[0]] + Unfold(doc[1..])
  }

  function Lines(doc: Bytes): seq<Bytes> {
    if doc == [] then []
    else if doc[0] == LF then [[]] + Lines(doc[1..])
    else
      var rest := Lines(doc[1..]);
      if rest == [] then [[doc[0]]] else [[doc[0]] + rest[0]] + rest[1..]
  }

  function DropComments(lines: seq<Bytes>): seq<Bytes> {
    if lines == [] then []
    else (if IsComment(lines[0]) then [] else [lines[0]]) + DropComments(lines[1..])
  }

  predicate IsComment(line: Bytes) {
    line != [] && line[0] == HASH
  }

  function SkipFill(s: Bytes): Bytes {
    if s != [] && s[0] == SPACE then SkipFill(s[1..]) else s
  }

  function BeforeColon(line: Bytes): Bytes {
    if line == [] || line[0] == COLON then [] else [line[0]] + BeforeColon(line[1..])
  }

  /** SAFE-INIT-CHAR followed by SAFE-CHARs. */
  predicate IsRfcSafe(value: Bytes) {
    && (value != [] ==> value[0] != SPACE && value[0] != COLON && value[0] != LESS_THAN)
    && forall b :: b in value ==> b != 0 && b != LF && b != CR && b <= 127
  }

  /** attrval-spec: a name, then a value as text or in base64. A URL is not resolved. */
  function ParseLine(line: Bytes): Option<(Bytes, Bytes)> {
    var name := BeforeColon(line);
    if |name| >= |line| || name == [] then None
    else
      var spec := line[|name| + 1..];
      if spec != [] && spec[0] == COLON then
        match Decode(SkipFill(spec[1..]))
        case Some(value) => Some((name, value))
        case None => None
      else if spec != [] && spec[0] == LESS_THAN then None
      else if IsRfcSafe(SkipFill(spec)) then Some((name, SkipFill(spec)))
      else None
  }

  /** The attribute lines of one record, and the lines after the blank one that ends it. */
  function ParseValues(lines: seq<Bytes>): (r: Option<(seq<(Bytes, Bytes)>, seq<Bytes>)>)
    ensures r.Some? ==> |r.value.1| <= |lines|
  {
    if lines == [] then Some(([], []))
    else if lines[0] == [] then Some(([], lines[1..]))
    else
      match (ParseLine(lines[0]), ParseValues(lines[1..]))
      case (Some(pair), Some((pairs, rest))) => Some(([pair] + pairs, rest))
      case _ => None
  }

  function ParseRecords(lines: seq<Bytes>): Option<seq<Flat>>
    decreases |lines|
  {
    if lines == [] then Some([])
    else if lines[0] == [] then ParseRecords(lines[1..])
    else
      match (ParseLine(lines[0]), ParseValues(lines[1..]))
      case (Some((name, dn)), Some((pairs, rest))) =>
        if name != DN then None
        else (match ParseRecords(rest)
              case Some(records) => Some([Flat(dn, pairs)] + records)
              case None => None)
      case _ => None
  }

  function ParseDocument(doc: Bytes): Option<seq<Flat>> {
    var lines := DropComments(Lines(Unfold(doc)));
    if lines == [] || ParseLine(lines[0]) != Some((VERSION, ONE)) then None
    else ParseRecords(lines[1..])
  }

  // ---- one line ----

  predicate NameByte(b: Byte) {
    || 48 <= b <= 57 || 65 <= b <= 90 || 97 <= b <= 122 || b == 45 || b == 46 || b == 59
  }

  /** AttributeDescription: letters, digits, "-", "." and ";". */
  predicate ValidName(name: Bytes) {
    name != [] && forall b :: b in name ==> NameByte(b)
  }

  lemma {:induction false} BeforeColonOf(name: Bytes, rest: Bytes)
    requires COLON !in name
    ensures BeforeColon(name + [COLON] + rest) == name
  {
    var line := name + [COLON] + rest;
    if name != [] {
      BeforeColonOf(name[1..], rest);
      assert line[1..] == name[1..] + [COLON] + rest;
      assert name == [name[0]] + name[1..];
    }
  }

  /** The value can stand as it is: RFC 2849 lets it, and it does not end with a space. */
  predicate Textual(value: Bytes) {
    && value != [] && value[0] !in [32, 58, 60] && value[|value| - 1] != 32
    && forall b :: b in value ==> b !in [0, 10, 13] && b <= 127
  }

  /** How a line reads: the name, a colon and the value exactly if it can stand as it is, else
      two colons and the value in base64. */
  lemma TextExactly(name: Bytes, value: Bytes)
    ensures AttrValue(name, value) ==
            if value == [] then name + [58]
            else if Textual(value) then name + [58, 32] + value
            else name + [58, 58, 32] + Encode(value)
    ensures value != [] ==> (Textual(value) <==> IsRfcSafe(value) && value[|value| - 1] != 32)
  {
  }

  /** The words of the format. */
  lemma WordsAre()
    ensures AttrValue(VERSION, ONE) == Ascii("version: 1") && DN == Ascii("dn")
  {
  }

  /** A folded line ends with a line feed, and each one inside it is followed by a space. */
  lemma {:induction false} FoldBreaks(s: Bytes)
    requires 10 !in s
    ensures Fold(s) != [] && Fold(s)[|Fold(s)| - 1] == 10
    ensures forall i :: 0 <= i < |Fold(s)| - 1 && Fold(s)[i] == 10 ==> Fold(s)[i + 1] == 32
    decreases |s|
  {
    if |s| > WIDTH {
      FoldBreaks(s[WIDTH..]);
    }
  }

  /** Lines are folded only where they must be: all but the last piece are full. */
  lemma {:induction false} FoldsEvenly(s: Bytes)
    ensures |FoldedLines(s)| == if |s| == 0 then 1 else (|s| + 75) / 76
    ensures forall i :: 0 <= i < |FoldedLines(s)| - 1 ==> |FoldedLines(s)[i]| == if i == 0 then 76 else 77
    decreases |s|
  {
    if |s| > WIDTH {
      FoldsEvenly(s[WIDTH..]);
    }
  }

  lemma EmptyLineRoundTrip(name: Bytes)
    requires ValidName(name)
    ensures ParseLine(name + [COLON]) == Some((name, []))
  {
    var line := name + [COLON];
    assert line == name + [COLON] + [];
    BeforeColonOf(name, []);
    assert line[|name| + 1..] == [];
  }

  lemma TextLineRoundTrip(name: Bytes, value: Bytes)
    requires ValidName(name) && value != [] && IsSafeString(value)
    ensures ParseLine(name + [COLON, SPACE] + value) == Some((name, value))
  {
    var line, spec := name + [COLON, SPACE] + value, [SPACE] + value;
    assert line == name + [COLON] + spec;
    BeforeColonOf(name, spec);
    assert line[|name| + 1..] == spec;
    assert spec[1..] == value;
    assert SkipFill(spec) == value;
  }

  lemma Base64LineRoundTrip(name: Bytes, value: Bytes)
    requires ValidName(name) && value != []
    ensures ParseLine(name + [COLON, COLON, SPACE] + Encode(value)) == Some((name, value))
  {
    var text := Encode(value);
    var line, spec := name + [COLON, COLON, SPACE] + text, [COLON, SPACE] + text;
    assert line == name + [COLON] + spec;
    BeforeColonOf(name, spec);
    assert line[|name| + 1..] == spec;
    assert Decode(SkipFill(spec[1..])) == Some(value) by {
      assert spec[1..] == [SPACE] + text;
      SkipOneSpace(value);
      RoundTrip(value);
    }
  }

  lemma SkipOneSpace(value: Bytes)
    requires value != []
    ensures SkipFill([SPACE] + Encode(value)) == Encode(value)
  {
    var text := Encode(value);
    EncodedIsText(value);
    assert ([SPACE] + text)[1..] == text && text[0] in text;
  }

  lemma LineRoundTrip(name: Bytes, value: Bytes)
    requires ValidName(name)
    ensures ParseLine(AttrValue(name, value)) == Some((name, value))
  {
    if value == [] {
      EmptyLineRoundTrip(name);
    } else if IsSafeString(value) {
      TextLineRoundTrip(name, value);
    } else {
      Base64LineRoundTrip(name, value);
    }
  }

  /** No printed line holds a line feed, and none starts with a space: folding is the
      only place either appears. */
  lemma LineIsClean(name: Bytes, value: Bytes)
    requires ValidName(name)
    ensures LF !in AttrValue(name, value)
    ensures AttrValue(name, value) != [] && AttrValue(name, value)[0] != SPACE && !IsComment(AttrValue(name, value))
  {
    EncodedIsText(value);
    assert name[0] in name;
    assert AttrValue(name, value)[0] == name[0];
  }

  // ---- folding ----

  lemma {:induction false} UnfoldPlain(a: Bytes, rest: Bytes)
    requires LF !in a
    ensures Unfold(a + rest) == a + Unfold(rest)
  {
    if a == [] {
      assert a + rest == rest;
    } else {
      UnfoldPlain(a[1..], rest);
      assert (a + rest)[0] == a[0] && (a + rest)[1..] == a[1..] + rest;
      assert a == [a[0]] + a[1..];
    }
  }

  lemma {:induction false} UnfoldFold(s: Bytes, rest: Bytes)
    requires LF !in s && (rest == [] || rest[0] != SPACE)
    ensures Unfold(Fold(s) + rest) == s + [LF] + Unfold(rest)
    decreases |s|
  {
    if |s| <= WIDTH {
      assert Fold(s) + rest == s + ([LF] + rest);
      UnfoldPlain(s, [LF] + rest);
      assert ([LF] + rest)[1..] == rest;
    } else {
      var head, tail := s[..WIDTH], s[WIDTH..];
      var more := Fold(tail) + rest;
      assert Fold(s) + rest == head + ([LF, SPACE] + more);
      UnfoldPlain(head, [LF, SPACE] + more);
      assert ([LF, SPACE] + more)[2..] == more;
      UnfoldFold(tail, rest);
      assert head + (tail + [LF] + Unfold(rest)) == s + [LF] + Unfold(rest);
    }
  }

  function Terminated(lines: seq<Bytes>): Bytes {
    if lines == [] then [] else lines[0] + [LF] + Terminated(lines[1..])
  }

  predicate CleanLines(lines: seq<Bytes>) {
    forall l :: l in lines ==> LF !in l && (l == [] || l[0] != SPACE)
  }

  lemma FoldStart(s: Bytes)
    ensures Fold(s) != [] && Fold(s)[0] == if s == [] then LF else s[0]
  {
  }

  lemma {:induction false} UnfoldPhysical(lines: seq<Bytes>)
    requires CleanLines(lines)
    ensures Unfold(Physical(lines)) == Terminated(lines)
    ensures Physical(lines) == [] || Physical(lines)[0] != SPACE
  {
    if lines != [] {
      assert forall l :: l in lines[1..] ==> l in lines;
      UnfoldPhysical(lines[1..]);
      assert lines[0] in lines;
      UnfoldFold(lines[0], Physical(lines[1..]));
      FoldStart(lines[0]);
    }
  }

  lemma {:induction false} LinesOf(s: Bytes, rest: Bytes)
    requires LF !in s
    ensures Lines(s + [LF] + rest) == [s] + Lines(rest)
  {
    var doc := s + [LF] + rest;
    if s == [] {
      assert doc[1..] == rest;
    } else {
      LinesOf(s[1..], rest);
      assert doc[1..] == s[1..] + [LF] + rest;
      assert s == [s[0]] + s[1..];
    }
  }

  lemma {:induction false} LinesTerminated(lines: seq<Bytes>)
    requires CleanLines(lines)
    ensures Lines(Terminated(lines)) == lines
  {
    if lines != [] {
      assert forall l :: l in lines[1..] ==> l in lines;
      LinesTerminated(lines[1..]);
      assert lines[0] in lines;
      LinesOf(lines[0], Terminated(lines[1..]));
    }
  }

  /** The lines of the file that one folded line becomes. */
  function FoldedLines(s: Bytes): (folded: seq<Bytes>)
    ensures folded != [] && |folded[0]| <= WIDTH && forall l :: l in folded ==> |l| <= WIDTH + 1
  {
    if |s| <= WIDTH then [s]
    else
      var rest := FoldedLines(s[WIDTH..]);
      [s[..WIDTH], [SPACE] + rest[0]] + rest[1..]
  }

  lemma LinesAfterSpace(doc: Bytes)
    requires Lines(doc) != []
    ensures Lines([SPACE] + doc) == [[SPACE] + Lines(doc)[0]] + Lines(doc)[1..]
  {
    assert ([SPACE] + doc)[1..] == doc;
  }

  lemma {:induction false} LinesOfFold(s: Bytes, rest: Bytes)
    requires LF !in s
    ensures Lines(Fold(s) + rest) == FoldedLines(s) + Lines(rest)
    decreases |s|
  {
    FoldSplit(s, rest);
    if |s| <= WIDTH {
      LinesOf(s, rest);
    } else {
      var tail := s[WIDTH..];
      LinesOfFold(tail, rest);
      LinesOfContinued(s[..WIDTH], Fold(tail) + rest, FoldedLines(tail), Lines(rest));
    }
  }

  lemma FoldSplit(s: Bytes, rest: Bytes)
    ensures |s| <= WIDTH ==> Fold(s) + rest == s + [LF] + rest
    ensures |s| > WIDTH ==> Fold(s) + rest == s[..WIDTH] + [LF] + ([SPACE] + (Fold(s[WIDTH..]) + rest))
  {
    if |s| > WIDTH {
      Spread(s[..WIDTH], LF, SPACE, Fold(s[WIDTH..]), rest);
    }
  }

  lemma Spread<T>(a: seq<T>, x: T, y: T, b: seq<T>, c: seq<T>)
    ensures (a + [x, y] + b) + c == a + [x] + ([y] + (b + c))
  {
  }

  lemma Regroup<T>(head: T, first: T, folded: seq<T>, rest: seq<T>)
    requires folded != []
    ensures [head] + ([first] + (folded + rest)[1..]) == [head, first] + folded[1..] + rest
  {
  }

  lemma LinesOfContinued(head: Bytes, more: Bytes, folded: seq<Bytes>, rest: seq<Bytes>)
    requires LF !in head && folded != [] && Lines(more) == folded + rest
    ensures Lines(head + [LF] + ([SPACE] + more)) == [head, [SPACE] + folded[0]] + folded[1..] + rest
  {
    LinesAfterSpace(more);
    LinesOf(head, [SPACE] + more);
    Regroup(head, [SPACE] + folded[0], folded, rest);
  }

  /** Every line of the file itself is at most 77 bytes: 76, and the space that continues it. */
  lemma {:induction false} PhysicalWidth(lines: seq<Bytes>)
    requires CleanLines(lines)
    ensures forall l :: l in Lines(Physical(lines)) ==> |l| <= WIDTH + 1
  {
    if lines != [] {
      assert forall l :: l in lines[1..] ==> l in lines;
      PhysicalWidth(lines[1..]);
      assert lines[0] in lines;
      LinesOfFold(lines[0], Physical(lines[1..]));
    }
  }

  // ---- a whole document ----

  predicate ValidRecord(r: Flat) {
    forall v :: v in r.values ==> ValidName(v.0)
  }

  predicate CommentLines(lines: seq<Bytes>) {
    forall l :: l in lines ==> IsComment(l) && LF !in l
  }

  /** Lines that each read as one value, up to the blank line. */
  lemma {:induction false} ParseEach(lines: seq<Bytes>, values: seq<(Bytes, Bytes)>, rest: seq<Bytes>)
    requires |lines| == |values|
    requires forall i :: 0 <= i < |lines| ==> lines[i] != [] && ParseLine(lines[i]) == Some(values[i])
    ensures ParseValues(lines + [[]] + rest) == Some((values, rest))
  {
    var all := lines + [[]] + rest;
    if lines == [] {
      assert all[1..] == rest;
    } else {
      ParseEach(lines[1..], values[1..], rest);
      assert lines[0] != [] && ParseLine(lines[0]) == Some(values[0]);
      assert all[0] == lines[0] && all[1..] == lines[1..] + [[]] + rest;
      assert values == [values[0]] + values[1..];
    }
  }

  lemma ParseValuesOf(values: seq<(Bytes, Bytes)>, rest: seq<Bytes>)
    requires forall v :: v in values ==> ValidName(v.0)
    ensures ParseValues(ValueLines(values) + [[]] + rest) == Some((values, rest))
  {
    var lines := ValueLines(values);
    forall i | 0 <= i < |lines|
      ensures lines[i] != [] && ParseLine(lines[i]) == Some(values[i])
    {
      assert values[i] in values;
      LineRoundTrip(values[i].0, values[i].1);
      LineIsClean(values[i].0, values[i].1);
    }
    ParseEach(lines, values, rest);
  }

  /** What a reader has once it has read these records and then the rest. */
  function Then(records: seq<Flat>, rest: Option<seq<Flat>>): Option<seq<Flat>> {
    match rest case Some(more) => Some(records + more) case None => None
  }

  lemma ParseRecordStep(first: Bytes, more: seq<Bytes>, dn: Bytes)
    requires first != [] && ParseLine(first) == Some((DN, dn)) && ParseValues(more).Some?
    ensures ParseRecords([first] + more) == Then([Flat(dn, ParseValues(more).value.0)], ParseRecords(ParseValues(more).value.1))
  {
    assert ([first] + more)[1..] == more;
  }

  lemma ParseOneRecord(r: Flat, rest: seq<Bytes>)
    requires ValidRecord(r)
    ensures ParseRecords(RecordLines(r) + rest) == Then([r], ParseRecords(rest))
  {
    var first, more := AttrValue(DN, r.dn), ValueLines(r.values) + [[]] + rest;
    LineRoundTrip(DN, r.dn);
    LineIsClean(DN, r.dn);
    ParseValuesOf(r.values, rest);
    ParseRecordStep(first, more, r.dn);
    assert RecordLines(r) + rest == [first] + more;
  }

  lemma {:induction false} ParseRecordsOf(records: seq<Flat>, rest: seq<Bytes>)
    requires forall r :: r in records ==> ValidRecord(r)
    ensures ParseRecords(AllRecordLines(records) + rest) == Then(records, ParseRecords(rest))
  {
    if records == [] {
      assert AllRecordLines(records) + rest == rest;
      assert ParseRecords(rest).Some? ==> records + ParseRecords(rest).value == ParseRecords(rest).value;
    } else {
      assert records[0] in records && forall x :: x in records[1..] ==> x in records;
      ParseRecordsOf(records[1..], rest);
      ParseOneRecord(records[0], AllRecordLines(records[1..]) + rest);
      Associates(RecordLines(records[0]), AllRecordLines(records[1..]), rest);
      OnePlus(records, ParseRecords(rest));
    }
  }

  lemma Associates<T>(a: seq<T>, b: seq<T>, c: seq<T>)
    ensures (a + b) + c == a + (b + c)
  {
  }

  lemma OnePlus(records: seq<Flat>, rest: Option<seq<Flat>>)
    requires records != []
    ensures Then([records[0]], Then(records[1..], rest)) == Then(records, rest)
  {
    if rest.Some? {
      assert [records[0]] + (records[1..] + rest.value) == records + rest.value;
    }
  }

  /** Lines a reader keeps: none is a comment, none has to be escaped by folding. */
  predicate ContentLines(lines: seq<Bytes>) {
    forall l :: l in lines ==> !IsComment(l) && LF !in l && (l == [] || l[0] != SPACE)
  }

  lemma RecordLinesAreContent(r: Flat)
    requires ValidRecord(r)
    ensures ContentLines(RecordLines(r))
  {
    LineIsClean(DN, r.dn);
    forall l | l in ValueLines(r.values)
      ensures !IsComment(l) && LF !in l && (l == [] || l[0] != SPACE)
    {
      var i :| 0 <= i < |r.values| && ValueLines(r.values)[i] == l;
      assert r.values[i] in r.values;
      LineIsClean(r.values[i].0, r.values[i].1);
    }
  }

  lemma {:induction false} AllLinesAreContent(records: seq<Flat>)
    requires forall r :: r in records ==> ValidRecord(r)
    ensures ContentLines(AllRecordLines(records))
  {
    if records != [] {
      assert records[0] in records && forall x :: x in records[1..] ==> x in records;
      RecordLinesAreContent(records[0]);
      AllLinesAreContent(records[1..]);
    }
  }

  lemma {:induction false} DropAppend(a: seq<Bytes>, b: seq<Bytes>)
    ensures DropComments(a + b) == DropComments(a) + DropComments(b)
  {
    if a == [] {
      assert a + b == b;
    } else {
      DropAppend(a[1..], b);
      assert (a + b)[1..] == a[1..] + b && (a + b)[0] == a[0];
      Associates(if IsComment(a[0]) then [] else [a[0]], DropComments(a[1..]), DropComments(b));
    }
  }

  lemma {:induction false} DropNothing(lines: seq<Bytes>)
    requires ContentLines(lines)
    ensures DropComments(lines) == lines
  {
    if lines != [] {
      assert lines[0] in lines && forall l :: l in lines[1..] ==> l in lines;
      DropNothing(lines[1..]);
      assert lines == [lines[0]] + lines[1..];
    }
  }

  lemma {:induction false} DropEverything(lines: seq<Bytes>)
    requires CommentLines(lines)
    ensures DropComments(lines) == []
  {
    if lines != [] {
      assert lines[0] in lines && forall l :: l in lines[1..] ==> l in lines;
      DropEverything(lines[1..]);
    }
  }

  lemma VersionIsContent()
    ensures ContentLines([AttrValue(VERSION, ONE), []])
    ensures ParseLine(AttrValue(VERSION, ONE)) == Some((VERSION, ONE))
  {
    LineIsClean(VERSION, ONE);
    LineRoundTrip(VERSION, ONE);
  }

  lemma DropsAround(head: seq<Bytes>, content: seq<Bytes>, tail: seq<Bytes>)
    requires CommentLines(head) && CommentLines(tail) && ContentLines(content)
    ensures DropComments(head + content + tail) == content
    ensures CleanLines(head + content + tail)
  {
    DropEverything(head);
    DropEverything(tail);
    DropNothing(content);
    DropAppend(head + content, tail);
    DropAppend(head, content);
    assert [] + content + [] == content;
  }

  lemma DocumentDrops(head: seq<Bytes>, records: seq<Flat>, tail: seq<Bytes>)
    requires CommentLines(head) && CommentLines(tail) && forall r :: r in records ==> ValidRecord(r)
    ensures DropComments(DocumentLines(head, records, tail)) == [AttrValue(VERSION, ONE), []] + AllRecordLines(records)
    ensures CleanLines(DocumentLines(head, records, tail))
  {
    var version, body := [AttrValue(VERSION, ONE), []], AllRecordLines(records);
    VersionIsContent();
    AllLinesAreContent(records);
    DropsAround(head, version + body, tail);
    Associates(head, version, body);
  }

  /** Reading the file back recovers exactly the records written: their order, their
      names and every byte of every value, whatever the bytes. */
  lemma DocumentRoundTrip(head: seq<Bytes>, records: seq<Flat>, tail: seq<Bytes>)
    requires CommentLines(head) && CommentLines(tail) && forall r :: r in records ==> ValidRecord(r)
    ensures ParseDocument(Physical(DocumentLines(head, records, tail))) == Some(records)
    ensures forall l :: l in Lines(Physical(DocumentLines(head, records, tail))) ==> |l| <= WIDTH + 1
  {
    var lines := DocumentLines(head, records, tail);
    DocumentDrops(head, records, tail);
    UnfoldPhysical(lines);
    LinesTerminated(lines);
    PhysicalWidth(lines);
    VersionIsContent();
    ParseRecordsOf(records, []);
    assert AllRecordLines(records) + [] == AllRecordLines(records) && records + [] == records;
    AfterVersion(AttrValue(VERSION, ONE), AllRecordLines(records));
  }

  lemma AfterVersion(version: Bytes, body: seq<Bytes>)
    ensures ([version, []] + body)[0] == version
    ensures ParseRecords(([version, []] + body)[1..]) == ParseRecords(body)
  {
    assert ([version, []] + body)[1..] == [[]] + body && ([[]] + body)[1..] == body;
  }
}
