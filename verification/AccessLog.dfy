/** Reading the directory's own log: modify records as changes, old values by attribute, and
    which writes are ppolicy's bookkeeping. How a value is shown is a parameter. */
module AccessLog {
  import opened Wrappers

  type Show = string -> string

  /** A verdict on an attribute, by its name as logged. */
  type Test = string -> bool

  // ---- attribute names ----

  function LowerChar(c: char): char {
    if 'A' <= c <= 'Z' then (c as int + 32) as char else c
  }

  function Lower(s: string): string {
    seq(|s|, i requires 0 <= i < |s| => LowerChar(s[i]))
  }

  /** What precedes the first separator and what follows it; None without one. */
  function Cut(s: string, sep: char): (r: Option<(string, string)>)
    ensures r.Some? <==> sep in s
    ensures r.Some? ==> r.value.0 + [sep] + r.value.1 == s && sep !in r.value.0
  {
    if s == "" then None
    else if s[0] == sep then Some(("", s[1..]))
    else
      match Cut(s[1..], sep)
      case None => None
      case Some((before, after)) =>
        assert s == [s[0]] + s[1..];
        Some(([s[0]] + before, after))
  }

  /** The name without its options, case folded. */
  function AttributeName(attr: string): string {
    match Cut(attr, ';')
    case None => Lower(attr)
    case Some((name, _)) => Lower(name)
  }

  const BOOKKEEPING := {
    "entrycsn", "entryuuid", "creatorsname", "createtimestamp", "modifiersname",
    "modifytimestamp", "structuralobjectclass", "contextcsn", "pwdchangedtime"}

  const SECRET := {
    "userpassword", "authpassword", "pwdhistory",
    "sambantpassword", "sambalmpassword", "sambapasswordhistory"}

  predicate IsSecret(attr: string) {
    AttributeName(attr) in SECRET
  }

  predicate IsBookkeeping(attr: string) {
    AttributeName(attr) in BOOKKEEPING
  }

  lemma {:induction false} CutFirst(before: string, after: string, sep: char)
    requires sep !in before
    ensures Cut(before + [sep] + after, sep) == Some((before, after))
  {
    var s := before + [sep] + after;
    if before == "" {
      assert s[1..] == after;
    } else {
      assert forall c :: c in before[1..] ==> c in before;
      CutFirst(before[1..], after, sep);
      assert s[1..] == before[1..] + [sep] + after;
      assert [before[0]] + before[1..] == before;
    }
  }

  /** Options and letter case change neither list's verdict. */
  lemma OptionsDoNotHide(attr: string, spelled: string, options: string)
    requires ';' !in attr && ';' !in spelled && Lower(spelled) == Lower(attr)
    ensures IsSecret(spelled + ";" + options) == IsSecret(attr)
    ensures IsBookkeeping(spelled + ";" + options) == IsBookkeeping(attr)
  {
    CutFirst(spelled, options, ';');
    assert Cut(attr, ';') == None;
  }

  /** The same letter, in either case. */
  predicate SameLetter(a: char, b: char) {
    a == b || ('A' <= a <= 'Z' && b as int == a as int + 32) || ('A' <= b <= 'Z' && a as int == b as int + 32)
  }

  /** Two spellings fold alike exactly if they differ in the case of ASCII letters alone. */
  lemma FoldsAlike(a: string, b: string)
    ensures Lower(a) == Lower(b) <==> |a| == |b| && forall i :: 0 <= i < |a| ==> SameLetter(a[i], b[i])
  {
    forall i | 0 <= i < |a| && 0 <= i < |b|
      ensures LowerChar(a[i]) == LowerChar(b[i]) <==> SameLetter(a[i], b[i])
    {
    }
    if Lower(a) == Lower(b) {
      assert |a| == |Lower(a)| == |b|;
      assert forall i :: 0 <= i < |a| ==> Lower(a)[i] == LowerChar(a[i]) && Lower(b)[i] == LowerChar(b[i]);
    }
  }

  /** So however they are spelled, and whatever their options, these are secret. */
  lemma SecretsAreSecret(attr: string, plain: string, options: string)
    requires plain in SECRET && ';' !in attr && |attr| == |plain| && forall i :: 0 <= i < |attr| ==> SameLetter(attr[i], plain[i])
    ensures IsSecret(attr) && IsSecret(attr + ";" + options)
  {
    FoldsAlike(attr, plain);
    SecretsAreFolded(plain);
    assert Cut(attr, ';') == None;
    OptionsDoNotHide(attr, attr, options);
  }

  lemma SecretsAreFolded(plain: string)
    requires plain in SECRET
    ensures Lower(plain) == plain
  {
    assert forall i :: 0 <= i < |plain| ==> LowerChar(plain[i]) == plain[i];
  }

  lemma PasswordFolds()
    ensures Lower("userPassword") == "userpassword" && ';' !in "userPassword"
  {
  }

  lemma PasswordIsSecret()
    ensures IsSecret("userPassword")
  {
    PasswordFolds();
    assert Cut("userPassword", ';') == None;
  }

  // ---- modifications ----

  datatype Op = Add | Delete | Replace | Increment

  function OpOf(c: char): Option<Op> {
    if c == '+' then Some(Add)
    else if c == '-' then Some(Delete)
    else if c == '=' then Some(Replace)
    else if c == '#' then Some(Increment)
    else None
  }

  /** One logged line that counts; `value` is None where the whole attribute is meant. */
  datatype Directive = Directive(attr: string, op: Op, value: Option<string>)

  datatype Change = Change(attr: string, op: Op, redacted: bool, values: seq<string>)

  function TrimSpacePrefix(s: string): string {
    if s != "" && s[0] == ' ' then s[1..] else s
  }

  /** A reqMod line, unless it cannot be read or the server maintains the attribute. */
  function ReadMod(line: string): Option<Directive> {
    match Cut(line, ':')
    case None => None
    case Some((attr, rest)) =>
      if rest == "" || OpOf(rest[0]).None? || IsBookkeeping(attr) then None
      else
        Some(Directive(attr, OpOf(rest[0]).value,
                       if rest[1..] == "" then None else Some(TrimSpacePrefix(rest[1..]))))
  }

  function CharOf(op: Op): char {
    match op
    case Add => '+'
    case Delete => '-'
    case Replace => '='
    case Increment => '#'
  }

  /** How the overlay logs a directive. */
  function ModLine(d: Directive): string {
    d.attr + ":" + [CharOf(d.op)] + if d.value.None? then "" else " " + d.value.value
  }

  /** Every directive comes back as it was logged, empty values and leading spaces included,
      exactly unless the server maintains its attribute. */
  lemma ReadsBack(d: Directive)
    requires ':' !in d.attr
    ensures ReadMod(ModLine(d)) == if IsBookkeeping(d.attr) then None else Some(d)
  {
    assert Cut(ModLine(d), ':') == Some((d.attr, AfterColon(d))) by {
      assert ModLine(d) == d.attr + [':'] + AfterColon(d);
      CutFirst(d.attr, AfterColon(d), ':');
    }
    AfterColonReads(d);
  }

  /** The four signs a logged line can carry, and what each stands for. */
  lemma SignsAre(attr: string, sign: char, rest: string)
    requires ':' !in attr
    ensures var r := ReadMod(attr + ":" + [sign] + rest);
            && (r.Some? <==> sign in "+-=#" && !IsBookkeeping(attr))
            && (r.Some? ==>
                  && r.value.attr == attr
                  && r.value.op == (if sign == '+' then Add else if sign == '-' then Delete else if sign == '=' then Replace else Increment)
                  && (r.value.value.None? <==> rest == ""))
  {
    assert attr + ":" + [sign] + rest == attr + [':'] + ([sign] + rest);
    CutFirst(attr, [sign] + rest, ':');
    assert ([sign] + rest)[1..] == rest;
  }

  function AfterColon(d: Directive): string {
    [CharOf(d.op)] + if d.value.None? then "" else " " + d.value.value
  }

  lemma AfterColonReads(d: Directive)
    ensures OpOf(AfterColon(d)[0]) == Some(d.op)
    ensures AfterColon(d)[1..] == "" <==> d.value.None?
    ensures d.value.Some? ==> TrimSpacePrefix(AfterColon(d)[1..]) == d.value.value
  {
    if d.value.Some? {
      var text := " " + d.value.value;
      assert AfterColon(d)[1..] == text && text[1..] == d.value.value;
    }
  }

  ghost function Directives(lines: seq<string>): seq<Directive> {
    if lines == [] then []
    else
      var before := Directives(lines[..|lines| - 1]);
      var d := ReadMod(lines[|lines| - 1]);
      if d.None? then before else before + [d.value]
  }

  /** Line by line, in order. */
  lemma {:induction false} DirectivesAppend(a: seq<string>, b: seq<string>)
    ensures Directives(a + b) == Directives(a) + Directives(b)
  {
    if b == [] {
      assert a + b == a;
    } else {
      var n := |b| - 1;
      DirectivesAppend(a, b[..n]);
      assert a + b == (a + b[..n]) + [b[n]];
    }
  }

  /** The values a reader may see, in logged order. */
  ghost function Visible(directives: seq<Directive>, secret: Test, show: Show): seq<(string, Op, string)> {
    if directives == [] then []
    else
      var before := Visible(directives[..|directives| - 1], secret, show);
      var d := directives[|directives| - 1];
      if d.value.None? || secret(d.attr) then before else before + [(d.attr, d.op, show(d.value.value))]
  }

  /** What was touched and how, consecutive repetitions once. */
  ghost function Touched(directives: seq<Directive>): seq<(string, Op)> {
    if directives == [] then []
    else
      var before := Touched(directives[..|directives| - 1]);
      var d := directives[|directives| - 1];
      if before != [] && before[|before| - 1] == (d.attr, d.op) then before else before + [(d.attr, d.op)]
  }

  ghost function ValuesOf(c: Change, n: nat): seq<(string, Op, string)>
    requires n <= |c.values|
  {
    if n == 0 then [] else ValuesOf(c, n - 1) + [(c.attr, c.op, c.values[n - 1])]
  }

  ghost function Flatten(changes: seq<Change>): seq<(string, Op, string)> {
    if changes == [] then []
    else
      var last := changes[|changes| - 1];
      Flatten(changes[..|changes| - 1]) + ValuesOf(last, |last.values|)
  }

  ghost function Heads(changes: seq<Change>): seq<(string, Op)> {
    seq(|changes|, i requires 0 <= i < |changes| => (changes[i].attr, changes[i].op))
  }

  ghost predicate NoSecretShown(changes: seq<Change>, secret: Test) {
    forall c :: c in changes ==> c.redacted == secret(c.attr) && (c.redacted ==> c.values == [])
  }

  lemma {:induction false} MoreValues(c: Change, v: string, n: nat)
    requires n <= |c.values|
    ensures ValuesOf(c.(values := c.values + [v]), n) == ValuesOf(c, n)
  {
    if n > 0 {
      MoreValues(c, v, n - 1);
    }
  }

  lemma FlattenLast(changes: seq<Change>, v: string)
    requires changes != []
    ensures var n := |changes| - 1;
            Flatten(changes[n := changes[n].(values := changes[n].values + [v])])
            == Flatten(changes) + [(changes[n].attr, changes[n].op, v)]
  {
    var n := |changes| - 1;
    var c := changes[n];
    var longer := c.(values := c.values + [v]);
    MoreValues(c, v, |c.values|);
    assert changes[n := longer][..n] == changes[..n];
    assert Flatten(changes[n := longer]) == Flatten(changes[..n]) + (ValuesOf(c, |c.values|) + [(c.attr, c.op, v)]);
  }

  lemma FlattenOpened(changes: seq<Change>, c: Change)
    requires c.values == []
    ensures Flatten(changes + [c]) == Flatten(changes)
  {
    assert (changes + [c])[..|changes|] == changes;
  }

  /** Consecutive values of one directive become one change: no value lost, invented or moved,
      none of a secret attribute shown. */
  method ParseReqMod(lines: seq<string>, show: Show) returns (out: seq<Change>)
    ensures Flatten(out) == Visible(Directives(lines), IsSecret, show)
    ensures Heads(out) == Touched(Directives(lines))
    ensures NoSecretShown(out, IsSecret)
  {
    out := [];
    for i := 0 to |lines|
      invariant Flatten(out) == Visible(Directives(lines[..i]), IsSecret, show)
      invariant Heads(out) == Touched(Directives(lines[..i]))
      invariant NoSecretShown(out, IsSecret)
    {
      assert lines[..i + 1][..i] == lines[..i];
      var d := ReadMod(lines[i]);
      if d.None? {
        continue;
      }
      ghost var before := Directives(lines[..i]);
      assert (before + [d.value])[..|before|] == before;
      out := Merge(out, d.value, IsSecret, show);
    }
    assert lines[..|lines|] == lines;
  }

  /** One directive joins the last change or opens one of its own. */
  method Merge(changes: seq<Change>, d: Directive, secret: Test, show: Show) returns (out: seq<Change>)
    requires NoSecretShown(changes, secret)
    ensures NoSecretShown(out, secret)
    ensures Flatten(out)
         == Flatten(changes)
            + if d.value.None? || secret(d.attr) then [] else [(d.attr, d.op, show(d.value.value))]
    ensures var heads := Heads(changes);
            Heads(out) == if heads != [] && heads[|heads| - 1] == (d.attr, d.op) then heads else heads + [(d.attr, d.op)]
  {
    out := changes;
    var redacted := secret(d.attr);
    if |out| == 0 || out[|out| - 1].attr != d.attr || out[|out| - 1].op != d.op {
      FlattenOpened(out, Change(d.attr, d.op, redacted, []));
      out := out + [Change(d.attr, d.op, redacted, [])];
      assert Heads(out) == Heads(changes) + [(d.attr, d.op)];
    }
    assert Flatten(out) == Flatten(changes) && NoSecretShown(out, secret);
    if d.value.Some? && !redacted {
      out := AppendValue(out, show(d.value.value), secret);
    }
  }

  method AppendValue(changes: seq<Change>, v: string, secret: Test) returns (out: seq<Change>)
    requires changes != [] && NoSecretShown(changes, secret) && !secret(changes[|changes| - 1].attr)
    ensures NoSecretShown(out, secret) && Heads(out) == Heads(changes)
    ensures var last := changes[|changes| - 1];
            Flatten(out) == Flatten(changes) + [(last.attr, last.op, v)]
  {
    var last := |changes| - 1;
    FlattenLast(changes, v);
    out := changes[last := changes[last].(values := changes[last].values + [v])];
  }

  ghost predicate NeighboursDiffer(t: seq<(string, Op)>) {
    forall i :: 0 < i < |t| ==> t[i - 1] != t[i]
  }

  /** Adjacent entries of what was touched differ in attribute or operation. */
  lemma {:induction false} TouchedDiffers(directives: seq<Directive>)
    ensures NeighboursDiffer(Touched(directives))
  {
    if directives != [] {
      TouchedDiffers(directives[..|directives| - 1]);
      var before, t := Touched(directives[..|directives| - 1]), Touched(directives);
      assert t == before || t == before + [t[|t| - 1]];
    }
  }

  /** Nothing is shown that was not logged under an attribute that may be shown. */
  lemma {:induction false} VisibleIsLogged(directives: seq<Directive>, secret: Test, show: Show, v: (string, Op, string))
    ensures v in Visible(directives, secret, show)
       <==> exists d :: && d in directives && d.value.Some? && !secret(d.attr)
                        && v == (d.attr, d.op, show(d.value.value))
  {
    if directives != [] {
      var n := |directives| - 1;
      VisibleIsLogged(directives[..n], secret, show, v);
      assert directives == directives[..n] + [directives[n]];
      if v in Visible(directives, secret, show) && v !in Visible(directives[..n], secret, show) {
        assert directives[n] in directives;
      }
    }
  }

  /** In the order they were logged. */
  lemma {:induction false} VisibleAppend(a: seq<Directive>, b: seq<Directive>, secret: Test, show: Show)
    ensures Visible(a + b, secret, show) == Visible(a, secret, show) + Visible(b, secret, show)
  {
    if b == [] {
      assert a + b == a;
    } else {
      VisibleAppend(a, b[..|b| - 1], secret, show);
      assert (a + b)[..|a + b| - 1] == a + b[..|b| - 1];
    }
  }

  // ---- old values ----

  datatype OldValue = OldValue(attr: string, value: string)

  datatype Group = Group(attr: string, redacted: bool, values: seq<string>)

  function ReadOld(line: string): Option<OldValue> {
    match Cut(line, ':')
    case None => None
    case Some((attr, v)) => if IsBookkeeping(attr) then None else Some(OldValue(attr, TrimSpacePrefix(v)))
  }

  ghost function OldValues(lines: seq<string>): seq<OldValue> {
    if lines == [] then []
    else
      var before := OldValues(lines[..|lines| - 1]);
      var v := ReadOld(lines[|lines| - 1]);
      if v.None? then before else before + [v.value]
  }

  /** The attributes in order of first occurrence. */
  ghost function FirstSeen(olds: seq<OldValue>): seq<string> {
    if olds == [] then []
    else
      var before := FirstSeen(olds[..|olds| - 1]);
      var attr := olds[|olds| - 1].attr;
      if attr in before then before else before + [attr]
  }

  /** The values of one attribute, in logged order. */
  ghost function Under(olds: seq<OldValue>, attr: string, show: Show): seq<string> {
    if olds == [] then []
    else
      var before := Under(olds[..|olds| - 1], attr, show);
      var last := olds[|olds| - 1];
      if last.attr == attr then before + [show(last.value)] else before
  }

  ghost predicate Grouped(out: seq<Group>, olds: seq<OldValue>, secret: Test, show: Show) {
    && |out| == |FirstSeen(olds)|
    && forall i :: 0 <= i < |out| ==>
         out[i] == GroupOf(FirstSeen(olds)[i], olds, secret, show)
  }

  ghost function GroupOf(attr: string, olds: seq<OldValue>, secret: Test, show: Show): Group {
    Group(attr, secret(attr), if secret(attr) then [] else Under(olds, attr, show))
  }

  ghost predicate Indexed(index: map<string, nat>, olds: seq<OldValue>) {
    && (forall attr :: attr in index <==> attr in FirstSeen(olds))
    && (forall attr :: attr in index ==> index[attr] < |FirstSeen(olds)| && FirstSeen(olds)[index[attr]] == attr)
  }

  /** One group for each attribute, in order of first occurrence, each with its values in
      logged order and none of a secret attribute. */
  method ParseReqOld(lines: seq<string>, show: Show) returns (out: seq<Group>)
    ensures Grouped(out, OldValues(lines), IsSecret, show)
  {
    out := [];
    var index: map<string, nat> := map[];
    for i := 0 to |lines|
      invariant Grouped(out, OldValues(lines[..i]), IsSecret, show)
      invariant Indexed(index, OldValues(lines[..i]))
    {
      assert lines[..i + 1][..i] == lines[..i];
      var v := ReadOld(lines[i]);
      if v.None? {
        continue;
      }
      ghost var before := OldValues(lines[..i]);
      out, index := File(out, index, v.value, IsSecret, show, before);
    }
    assert lines[..|lines|] == lines;
  }

  lemma NextOld(before: seq<OldValue>, v: OldValue, show: Show)
    ensures FirstSeen(before + [v]) == if v.attr in FirstSeen(before) then FirstSeen(before) else FirstSeen(before) + [v.attr]
    ensures forall attr :: Under(before + [v], attr, show) == Under(before, attr, show) + if attr == v.attr then [show(v.value)] else []
  {
    assert (before + [v])[..|before|] == before;
  }

  method File(groups: seq<Group>, index: map<string, nat>, v: OldValue, secret: Test, show: Show, ghost before: seq<OldValue>)
    returns (out: seq<Group>, index': map<string, nat>)
    requires Grouped(groups, before, secret, show) && Indexed(index, before)
    ensures Grouped(out, before + [v], secret, show) && Indexed(index', before + [v])
  {
    out, index' := groups, index;
    NextOld(before, v, show);
    FirstSeenOnce(before);
    if v.attr !in index' {
      NotUnder(before, v.attr, show);
      index' := index'[v.attr := |out|];
      out := out + [Group(v.attr, secret(v.attr), [])];
    }
    var i := index'[v.attr];
    if !out[i].redacted {
      out := out[i := out[i].(values := out[i].values + [show(v.value)])];
    }
  }

  ghost predicate Distinct(s: seq<string>) {
    forall i, j :: 0 <= i < j < |s| ==> s[i] != s[j]
  }

  lemma {:induction false} FirstSeenOnce(olds: seq<OldValue>)
    ensures Distinct(FirstSeen(olds))
  {
    if olds != [] {
      FirstSeenOnce(olds[..|olds| - 1]);
      var before, s := FirstSeen(olds[..|olds| - 1]), FirstSeen(olds);
      assert s == before || s == before + [s[|s| - 1]];
    }
  }

  lemma {:induction false} NotUnder(olds: seq<OldValue>, attr: string, show: Show)
    requires attr !in FirstSeen(olds)
    ensures Under(olds, attr, show) == []
  {
    if olds != [] {
      NotUnder(olds[..|olds| - 1], attr, show);
    }
  }

  /** An old value comes back as it was logged, unless the server maintains its attribute. */
  lemma OldReadsBack(attr: string, v: string)
    requires ':' !in attr
    ensures ReadOld(attr + ": " + v) == if IsBookkeeping(attr) then None else Some(OldValue(attr, v))
  {
    assert attr + ": " + v == attr + [':'] + (" " + v);
    CutFirst(attr, " " + v, ':');
    assert (" " + v)[1..] == v;
  }

  lemma {:induction false} OldValuesAppend(a: seq<string>, b: seq<string>)
    ensures OldValues(a + b) == OldValues(a) + OldValues(b)
  {
    if b == [] {
      assert a + b == a;
    } else {
      var n := |b| - 1;
      OldValuesAppend(a, b[..n]);
      assert a + b == (a + b[..n]) + [b[n]];
    }
  }

  /** The groups come in the order their attributes are first met, each with the values of its
      attribute alone, in the order logged. */
  lemma {:induction false} GroupedInOrder(a: seq<OldValue>, b: seq<OldValue>, attr: string, show: Show)
    ensures FirstSeen(a) <= FirstSeen(a + b)
    ensures attr in FirstSeen(a) <==> exists o :: o in a && o.attr == attr
    ensures Under(a + b, attr, show) == Under(a, attr, show) + Under(b, attr, show)
    decreases |b|, |a|
  {
    if b != [] {
      var n := |b| - 1;
      GroupedInOrder(a, b[..n], attr, show);
      assert (a + b)[..|a + b| - 1] == a + b[..n];
    } else {
      assert a + b == a;
      FirstSeenIs(a, attr);
    }
  }

  lemma {:induction false} FirstSeenIs(olds: seq<OldValue>, attr: string)
    ensures attr in FirstSeen(olds) <==> exists o :: o in olds && o.attr == attr
  {
    if olds != [] {
      FirstSeenIs(olds[..|olds| - 1], attr);
      assert olds == olds[..|olds| - 1] + [olds[|olds| - 1]];
    }
  }

  // ---- ppolicy's own writes ----

  const LOCK_NAME := "pwdaccountlockedtime"
  const POLICY_NAMES := {"pwdfailuretime", LOCK_NAME, "pwdgraceusetime", "pwdlastsuccess"}

  predicate IsPolicyName(attr: string) {
    AttributeName(attr) in POLICY_NAMES
  }

  predicate IsLockName(attr: string) {
    AttributeName(attr) == LOCK_NAME
  }

  /** The lists, by folded name: what is never shown, what the server writes beside every
      change, and what ppolicy writes. */
  lemma ListsAre(attr: string)
    ensures IsSecret(attr) <==>
              AttributeName(attr) in ["userpassword", "authpassword", "pwdhistory",
                                      "sambantpassword", "sambalmpassword", "sambapasswordhistory"]
    ensures IsBookkeeping(attr) <==>
              AttributeName(attr) in ["entrycsn", "entryuuid", "contextcsn", "structuralobjectclass", "pwdchangedtime",
                                      "creatorsname", "createtimestamp", "modifiersname", "modifytimestamp"]
    ensures IsPolicyName(attr) <==>
              AttributeName(attr) in ["pwdfailuretime", "pwdaccountlockedtime", "pwdgraceusetime", "pwdlastsuccess"]
    ensures IsLockName(attr) <==> AttributeName(attr) == "pwdaccountlockedtime"
  {
  }

  /** Changes to attributes of its own only, and to more than the lock alone. */
  ghost predicate Driven(changes: seq<Change>, own: Test, lock: Test) {
    (forall c :: c in changes ==> own(c.attr)) && (exists c :: c in changes && !lock(c.attr))
  }

  ghost predicate PolicyBookkeeping(kind: string, changes: seq<Change>) {
    kind == "modify" && Driven(changes, IsPolicyName, IsLockName)
  }

  method IsPolicyBookkeeping(kind: string, changes: seq<Change>) returns (r: bool)
    ensures r <==> PolicyBookkeeping(kind, changes)
  {
    if kind != "modify" || |changes| == 0 {
      return false;
    }
    r := IsDriven(changes, IsPolicyName, IsLockName);
  }

  method IsDriven(changes: seq<Change>, own: Test, lock: Test) returns (driver: bool)
    ensures driver <==> Driven(changes, own, lock)
  {
    driver := false;
    for i := 0 to |changes|
      invariant forall j :: 0 <= j < i ==> own(changes[j].attr)
      invariant driver <==> exists j :: 0 <= j < i && !lock(changes[j].attr)
    {
      if !own(changes[i].attr) {
        assert changes[i] in changes;
        return false;
      }
      if !lock(changes[i].attr) {
        driver := true;
      }
    }
  }

  /** Whether a logged modify is ppolicy's own depends on its lines alone: every directive that
      counts is on one of its attributes, and one is not on the lock. */
  lemma DrivenByLines(changes: seq<Change>, directives: seq<Directive>, own: Test, lock: Test)
    requires Heads(changes) == Touched(directives)
    ensures Driven(changes, own, lock)
       <==> && (forall d :: d in directives ==> own(d.attr))
            && (exists d :: d in directives && !lock(d.attr))
  {
    var heads := Heads(changes);
    forall c | c in changes
      ensures exists d :: d in directives && d.attr == c.attr
    {
      var i :| 0 <= i < |changes| && changes[i] == c;
      assert heads[i].0 == c.attr;
      TouchedAttrs(directives, c.attr);
    }
    forall d | d in directives
      ensures exists c :: c in changes && c.attr == d.attr
    {
      TouchedAttrs(directives, d.attr);
      var i :| 0 <= i < |heads| && heads[i].0 == d.attr;
      assert changes[i] in changes;
    }
  }

  lemma {:induction false} TouchedAttrs(directives: seq<Directive>, attr: string)
    ensures (exists i :: 0 <= i < |Touched(directives)| && Touched(directives)[i].0 == attr)
       <==> (exists d :: d in directives && d.attr == attr)
  {
    if directives != [] {
      var n := |directives| - 1;
      TouchedAttrs(directives[..n], attr);
      assert directives == directives[..n] + [directives[n]];
      var before, after := Touched(directives[..n]), Touched(directives);
      assert before <= after;
      assert after[|after| - 1] == (directives[n].attr, directives[n].op);
      if exists i :: 0 <= i < |before| && before[i].0 == attr {
        var i :| 0 <= i < |before| && before[i].0 == attr;
        assert after[i].0 == attr;
      }
      if directives[n].attr == attr {
        assert after[|after| - 1].0 == attr;
      }
    }
  }
}
