/** One nisNetgroupTriple value: reading the stored "(host,user,domain)" text and
    writing it back in canonical form. */
module NetgroupTriple {

  import opened Wrappers

  datatype Triple = Triple(host: string, user: string, domain: string) {
    /** The canonical stored form, without spaces. */
    function Format(): string {
      "(" + host + "," + user + "," + domain + ")"
    }

    /** True when the user slot names exactly this uid: neither open nor someone else. */
    predicate NamesUser(uid: string) {
      uid != "" && user == uid
    }

    function WithUser(uid: string): Triple {
      this.(user := uid)
    }
  }

  /** Unicode White_Space, the class strings.TrimSpace strips. */
  predicate IsSpace(c: char) {
    || '\t' <= c <= '\r' || c == ' ' || c == '\U{0085}' || c == '\U{00A0}' || c == '\U{1680}'
    || '\U{2000}' <= c <= '\U{200A}' || c == '\U{2028}' || c == '\U{2029}' || c == '\U{202F}'
    || c == '\U{205F}' || c == '\U{3000}'
  }

  function TrimLeft(s: string): string {
    if s != "" && IsSpace(s[0]) then TrimLeft(s[1..]) else s
  }

  function TrimRight(s: string): string {
    if s != "" && IsSpace(s[|s| - 1]) then TrimRight(s[..|s| - 1]) else s
  }

  function TrimSpace(s: string): string {
    TrimRight(TrimLeft(s))
  }

  /** The fields between the commas; a text without a comma is one field. */
  function SplitCommas(s: string): (parts: seq<string>)
    ensures |parts| > 0
  {
    if s == "" then [""]
    else
      var rest := SplitCommas(s[1..]);
      if s[0] == ',' then [""] + rest else [[s[0]] + rest[0]] + rest[1..]
  }

  function Parse(raw: string): Option<Triple> {
    var value := TrimSpace(raw);
    if |value| < 2 || value[0] != '(' || value[|value| - 1] != ')' then None
    else
      var parts := SplitCommas(value[1..|value| - 1]);
      if |parts| != 3 then None
      else Some(Triple(TrimSpace(parts[0]), TrimSpace(parts[1]), TrimSpace(parts[2])))
  }

  /** Text that one slot can carry through a save: no comma, and no space at either end. */
  predicate Storable(s: string) {
    ',' !in s && (s == "" || (!IsSpace(s[0]) && !IsSpace(s[|s| - 1])))
  }

  predicate StorableTriple(t: Triple) {
    Storable(t.host) && Storable(t.user) && Storable(t.domain)
  }

  // ---- proofs ----

  lemma {:induction false} TrimLeftShape(s: string)
    ensures TrimLeft(s) == "" || !IsSpace(TrimLeft(s)[0])
    ensures TrimLeft(s) == s <==> s == "" || !IsSpace(s[0])
    ensures |TrimLeft(s)| <= |s|
    ensures forall c :: c in TrimLeft(s) ==> c in s
  {
    if s != "" && IsSpace(s[0]) {
      TrimLeftShape(s[1..]);
    }
  }

  lemma {:induction false} TrimRightShape(s: string)
    ensures TrimRight(s) == "" || !IsSpace(TrimRight(s)[|TrimRight(s)| - 1])
    ensures TrimRight(s) == s <==> s == "" || !IsSpace(s[|s| - 1])
    ensures TrimRight(s) <= s
  {
    if s != "" && IsSpace(s[|s| - 1]) {
      TrimRightShape(s[..|s| - 1]);
    }
  }

  /** Trimming is the identity on exactly the texts with no space at either end. */
  lemma TrimSpaceFixpoint(s: string)
    ensures TrimSpace(s) == s <==> s == "" || (!IsSpace(s[0]) && !IsSpace(s[|s| - 1]))
    ensures TrimSpace(TrimSpace(s)) == TrimSpace(s)
    ensures forall c :: c in TrimSpace(s) ==> c in s
  {
    TrimLeftShape(s);
    TrimRightShape(TrimLeft(s));
    TrimLeftShape(TrimSpace(s));
    TrimRightShape(TrimSpace(s));
  }

  lemma {:induction false} SplitHasNoCommas(s: string)
    ensures forall p :: p in SplitCommas(s) ==> ',' !in p
  {
    if s != "" {
      SplitHasNoCommas(s[1..]);
    }
  }

  lemma {:induction false} SplitPlain(a: string)
    requires ',' !in a
    ensures SplitCommas(a) == [a]
  {
    if a != "" {
      SplitPlain(a[1..]);
      assert a == [a[0]] + a[1..];
    }
  }

  lemma {:induction false} SplitField(a: string, rest: string)
    requires ',' !in a
    ensures SplitCommas(a + "," + rest) == [a] + SplitCommas(rest)
  {
    var s := a + "," + rest;
    if a == "" {
      assert s[1..] == rest;
    } else {
      SplitField(a[1..], rest);
      assert s[1..] == a[1..] + "," + rest;
      assert a == [a[0]] + a[1..];
    }
  }

  lemma {:induction false} TrimLeftParts(s: string) returns (before: string)
    ensures s == before + TrimLeft(s) && forall c :: c in before ==> IsSpace(c)
  {
    before := "";
    if s != "" && IsSpace(s[0]) {
      var more := TrimLeftParts(s[1..]);
      before := [s[0]] + more;
      assert s == [s[0]] + s[1..];
    }
  }

  lemma {:induction false} TrimRightParts(s: string) returns (after: string)
    ensures s == TrimRight(s) + after && forall c :: c in after ==> IsSpace(c)
  {
    after := "";
    if s != "" && IsSpace(s[|s| - 1]) {
      var more := TrimRightParts(s[..|s| - 1]);
      after := more + [s[|s| - 1]];
      assert s == s[..|s| - 1] + [s[|s| - 1]];
    }
  }

  /** Trimming takes spaces off the ends and nothing else. */
  lemma TrimParts(s: string) returns (before: string, after: string)
    ensures s == before + TrimSpace(s) + after
    ensures forall c :: c in before || c in after ==> IsSpace(c)
  {
    before := TrimLeftParts(s);
    after := TrimRightParts(TrimLeft(s));
    assert s == before + (TrimSpace(s) + after);
  }

  lemma {:induction false} SplitCount(s: string)
    ensures |SplitCommas(s)| == multiset(s)[','] + 1
  {
    if s != "" {
      SplitCount(s[1..]);
      assert s == [s[0]] + s[1..];
    }
  }

  function WithCommas(parts: seq<string>): string
    requires |parts| > 0
  {
    if |parts| == 1 then parts[0] else parts[0] + ("," + WithCommas(parts[1..]))
  }

  lemma {:induction false} SplitJoins(s: string)
    ensures WithCommas(SplitCommas(s)) == s
  {
    if s != "" {
      var rest, parts := SplitCommas(s[1..]), SplitCommas(s);
      SplitJoins(s[1..]);
      assert s == [s[0]] + s[1..];
      if s[0] == ',' {
        assert parts[1..] == rest;
      } else {
        assert parts[1..] == rest[1..];
        if |rest| > 1 {
          FirstChar(s[0], rest[0], "," + WithCommas(rest[1..]));
        }
      }
    }
  }

  lemma FirstChar(c: char, a: string, b: string)
    ensures [c] + (a + b) == ([c] + a) + b
  {
  }

  /** Exactly which texts are triples: parentheses around three fields, two commas between
      them, spaces anywhere around. */
  lemma ParsesExactly(raw: string)
    ensures var value := TrimSpace(raw);
            Parse(raw).Some? <==> |value| >= 2 && value[0] == '(' && value[|value| - 1] == ')'
                                  && multiset(value[1..|value| - 1])[','] == 2
  {
    var value := TrimSpace(raw);
    if |value| >= 2 {
      SplitCount(value[1..|value| - 1]);
    }
  }

  /** And what the triple then is: its slots are the fields, trimmed. */
  lemma ParsedFields(raw: string) returns (host: string, user: string, domain: string)
    requires Parse(raw).Some?
    ensures TrimSpace(raw) == "(" + (host + ("," + (user + ("," + domain)))) + ")"
    ensures ',' !in host && ',' !in user && ',' !in domain
    ensures Parse(raw).value == Triple(TrimSpace(host), TrimSpace(user), TrimSpace(domain))
  {
    var value := TrimSpace(raw);
    var inner := value[1..|value| - 1];
    var parts := SplitCommas(inner);
    SplitJoins(inner);
    SplitHasNoCommas(inner);
    host, user, domain := parts[0], parts[1], parts[2];
    assert parts[1..][1..] == [domain] && WithCommas([domain]) == domain;
    assert WithCommas(parts[1..]) == user + ("," + domain);
    assert inner == host + ("," + (user + ("," + domain)));
    assert value == "(" + inner + ")";
  }

  /** The stored form is the shortest text of its triple: nothing but the slots and the
      punctuation. */
  lemma FormatIsShortest(raw: string)
    requires Parse(raw).Some?
    ensures |Parse(raw).value.Format()| <= |raw|
    ensures forall c :: c in Parse(raw).value.Format() ==> c in raw
  {
    var host, user, domain := ParsedFields(raw);
    var a, b := TrimParts(raw);
    Shorter(host);
    Shorter(user);
    Shorter(domain);
    Shorter(raw);
    var trimmed := TrimSpace(raw);
    assert trimmed[0] == '(' && trimmed[|trimmed| - 1] == ')' && trimmed[1 + |host|] == ',';
  }

  lemma Shorter(s: string)
    ensures |TrimSpace(s)| <= |s| && forall c :: c in TrimSpace(s) ==> c in s
  {
    TrimSpaceFixpoint(s);
    TrimLeftShape(s);
    TrimRightShape(TrimLeft(s));
  }

  /** Everything the parser accepts has slots a save can carry. */
  lemma ParsedIsStorable(raw: string)
    ensures Parse(raw).Some? ==> StorableTriple(Parse(raw).value)
  {
    var value := TrimSpace(raw);
    if Parse(raw).Some? {
      var parts := SplitCommas(value[1..|value| - 1]);
      SplitHasNoCommas(value[1..|value| - 1]);
      TrimSpaceFixpoint(parts[0]);
      TrimSpaceFixpoint(parts[1]);
      TrimSpaceFixpoint(parts[2]);
      TrimSpaceFixpoint(TrimSpace(parts[0]));
      TrimSpaceFixpoint(TrimSpace(parts[1]));
      TrimSpaceFixpoint(TrimSpace(parts[2]));
    }
  }

  lemma FormatIsTrimmed(t: Triple)
    ensures TrimSpace(t.Format()) == t.Format()
    ensures t.Format()[1..|t.Format()| - 1] == t.host + "," + t.user + "," + t.domain
  {
    TrimSpaceFixpoint(t.Format());
  }

  /** Reading back what was written recovers the triple exactly when every slot is storable. */
  lemma RoundTrip(t: Triple)
    ensures Parse(t.Format()) == Some(t) <==> StorableTriple(t)
  {
    var inner := t.host + "," + t.user + "," + t.domain;
    FormatIsTrimmed(t);
    if StorableTriple(t) {
      assert inner == t.host + "," + (t.user + "," + t.domain);
      SplitField(t.host, t.user + "," + t.domain);
      SplitField(t.user, t.domain);
      SplitPlain(t.domain);
      TrimSpaceFixpoint(t.host);
      TrimSpaceFixpoint(t.user);
      TrimSpaceFixpoint(t.domain);
    } else if Parse(t.Format()) == Some(t) {
      ParsedIsStorable(t.Format());
      assert false;
    }
  }

  /** Renaming inside a triple the parser accepted survives the save exactly when
      the new uid is storable. */
  lemma WithUserRoundTrip(raw: string, uid: string)
    requires Parse(raw).Some?
    ensures var t := Parse(raw).value.WithUser(uid);
            Parse(t.Format()) == Some(t) <==> Storable(uid)
  {
    ParsedIsStorable(raw);
    RoundTrip(Parse(raw).value.WithUser(uid));
  }


  /** What counts as a space: the 25 characters with the White_Space property, no others. */
  lemma SpacesAre(c: char)
    ensures IsSpace(c) <==>
              c in "\t\n\U{000B}\U{000C}\r \U{0085}\U{00A0}\U{1680}\U{2000}\U{2001}\U{2002}\U{2003}\U{2004}\U{2005}"
                   + "\U{2006}\U{2007}\U{2008}\U{2009}\U{200A}\U{2028}\U{2029}\U{202F}\U{205F}\U{3000}"
  {
  }
}
