/**
  What the hashed bytes of an audit event determine (crates/governance/src/audit_trail.rs).  They are
  strung together without separators, so this rests on the way actions and times are printed: the
  derived debug form of AuditAction, and times as RFC 3339 writes them for the years 0 to 9999.
 */
module AuditFields {
  import opened AuditTrail
  import opened Bytes

  // ----- Texts that cannot be confused -----

  ghost predicate PrefixFree(texts: iset<Text>) {
    forall s, t :: s in texts && t in texts && s <= t ==> s == t
  }

  ghost predicate EndsWith(t: Text, s: Text) {
    |s| <= |t| && t[|t| - |s|..] == s
  }

  ghost predicate SuffixFree(texts: iset<Text>) {
    forall s, t :: s in texts && t in texts && EndsWith(t, s) ==> s == t
  }

  lemma PrefixesAgree(texts: iset<Text>, s: Text, x: Text, t: Text, y: Text)
    requires PrefixFree(texts) && s in texts && t in texts && s + x == t + y
    ensures s == t && x == y
  {
    assert s == (s + x)[..|s|] && t == (t + y)[..|t|];
    assert s <= t || t <= s;
    assert x == (s + x)[|s|..];
    assert y == (t + y)[|t|..];
  }

  lemma SuffixesOfOne(texts: iset<Text>, x: Text, s: Text, y: Text, t: Text)
    requires SuffixFree(texts) && s in texts && t in texts && x + s == y + t
    ensures s == t && x == y
  {
    var all := x + s;
    assert s == all[|all| - |s|..] && t == all[|all| - |t|..];
    assert |s| <= |t| ==> EndsWith(t, s);
    assert |t| <= |s| ==> EndsWith(s, t);
    assert x == all[..|all| - |s|] && y == all[..|all| - |t|];
  }

  // ----- The fields of an event -----

  ghost predicate SameFields(d: Event, e: Event) {
    d.action == e.action && d.actor == e.actor && d.timestamp == e.timestamp
  }

  lemma FieldsAgree(d: Event, e: Event, actions: iset<Text>, times: iset<Text>)
    requires PrefixFree(actions) && d.action in actions && e.action in actions
    requires SuffixFree(times) && d.timestamp in times && e.timestamp in times
    requires Hashed(d) == Hashed(e) && d.previousHash == e.previousHash
    ensures SameFields(d, e)
  {
    hide Encode, PrefixFree, SuffixFree;
    MiddleAgrees(d, e);
    PrefixesAgree(actions, d.action, d.actor + d.timestamp, e.action, e.actor + e.timestamp);
    SuffixesOfOne(times, d.actor, d.timestamp, e.actor, e.timestamp);
  }

  function Middle(e: Event): Text {
    e.action + (e.actor + e.timestamp)
  }

  lemma Regrouped(e: Event)
    ensures Hashed(e) == Encode(e.sequence, 8) + Middle(e) + e.previousHash
  {
    hide Encode;
    var a := Encode(e.sequence, 8);
    assert a + e.action + e.actor + e.timestamp == a + Middle(e);
  }

  // What lies between the sequence number and the previous hash.
  lemma MiddleAgrees(d: Event, e: Event)
    requires Hashed(d) == Hashed(e) && d.previousHash == e.previousHash
    ensures Middle(d) == Middle(e)
  {
    hide Encode, Hashed, Middle;
    Regrouped(d);
    Regrouped(e);
    Between(Encode(d.sequence, 8), Middle(d), Encode(e.sequence, 8), Middle(e), d.previousHash);
  }

  lemma Between(a: Text, x: Text, b: Text, y: Text, p: Text)
    requires a + x + p == b + y + p && |a| == |b|
    ensures x == y
  {
    assert x == (a + x + p)[|a|..|a| + |x|];
    assert y == (b + y + p)[|b|..|b| + |y|];
  }

  // ----- Debug form of actions -----

  const QUOTE: byte := 34
  const BACKSLASH: byte := 92
  const OPEN: byte := 40
  const CLOSE: byte := 41

  // A character string of ASCII characters, as bytes.
  function Ascii(s: string): (t: Text)
    requires forall i :: 0 <= i < |s| ==> s[i] < 128 as char
    ensures |t| == |s|
  {
    seq(|s|, i requires 0 <= i < |s| => s[i] as int)
  }

  const TEXT_ACTIONS := {
    "DidCreated", "DidUpdated", "DidDeactivated", "CredentialIssued", "CredentialRevoked", "GovernanceRuleChanged",
    "TrustFrameworkUpdated", "JurisdictionRuleChanged", "Custom"}
  const ID_ACTIONS := {"VoteCast", "ProposalCreated", "AuthorityNodeAdded", "AuthorityNodeRemoved", "ProtocolUpgrade"}
  const PARAMETER_CHANGE := "ParameterChange"

  // The payload is what stands between the quotes, an identifier's 36 characters, or the name of the
  // parameter and the debug form of its JSON value.
  datatype AuditAction =
    | OnText(name: string, body: Text)
    | OnId(name: string, id: Text)
    | ParameterChange(key: Text, value: Text)

  // What the debug form leaves between the quotes: quotes and backslashes come behind a backslash only.
  predicate Escaped(t: Text) {
    if t == [] then true
    else if t[0] == BACKSLASH then |t| >= 2 && Escaped(t[2..])
    else t[0] != QUOTE && Escaped(t[1..])
  }

  // One of the source's actions; the values are whatever debug forms of JSON values occur.
  ghost predicate IsAction(a: AuditAction, values: iset<Text>) {
    match a
    case OnText(name, body) => name in TEXT_ACTIONS && Escaped(body)
    case OnId(name, id) => name in ID_ACTIONS && |id| == 36
    case ParameterChange(key, value) => Escaped(key) && value in values
  }

  function Payload(a: AuditAction): Text {
    match a
    case OnText(_, body) => [QUOTE] + (body + ([QUOTE] + [CLOSE]))
    case OnId(_, id) => id + [CLOSE]
    case ParameterChange(key, value) => [QUOTE] + (key + ([QUOTE] + ([44, 32] + (value + [CLOSE]))))
  }

  function Name(a: AuditAction): string {
    match a
    case OnText(name, _) => name
    case OnId(name, _) => name
    case ParameterChange(_, _) => PARAMETER_CHANGE
  }

  ghost predicate Plain(name: string) {
    forall i :: 0 <= i < |name| ==> name[i] < 128 as char && name[i] != '('
  }

  lemma PlainTexts()
    ensures Plain("DidCreated") && Plain("DidUpdated") && Plain("DidDeactivated") && Plain("Custom")
  {
  }

  lemma PlainCredentials()
    ensures Plain("CredentialIssued") && Plain("CredentialRevoked") && Plain("GovernanceRuleChanged")
  {
  }

  lemma PlainRules()
    ensures Plain("TrustFrameworkUpdated") && Plain("JurisdictionRuleChanged")
  {
  }

  lemma PlainIds()
    ensures Plain("VoteCast") && Plain("ProposalCreated") && Plain("ProtocolUpgrade")
  {
  }

  lemma PlainNodes()
    ensures Plain("AuthorityNodeAdded") && Plain("AuthorityNodeRemoved") && Plain(PARAMETER_CHANGE)
  {
  }

  lemma NamesArePlain(a: AuditAction, values: iset<Text>)
    requires IsAction(a, values)
    ensures Plain(Name(a))
  {
    PlainTexts();
    PlainCredentials();
    PlainRules();
    PlainIds();
    PlainNodes();
    hide Plain;
  }

  ghost function Printed(a: AuditAction, values: iset<Text>): Text
    requires IsAction(a, values)
  {
    NamesArePlain(a, values);
    Ascii(Name(a)) + ([OPEN] + Payload(a))
  }

  /** In parentheses, a quoted text, an identifier, or a quoted key and a value. */
  lemma PayloadSpelledOut(name: string, body: Text, value: Text)
    ensures [OPEN] + Payload(OnText(name, body)) == [40, 34] + (body + [34, 41])
    ensures [OPEN] + Payload(OnId(name, body)) == [40] + (body + [41])
    ensures [OPEN] + Payload(ParameterChange(body, value)) == [40, 34] + (body + ([34, 44, 32] + (value + [41])))
  {
    Behind([34, 41]);
    assert [QUOTE] + [CLOSE] == [34, 41];
    Behind(body + [34, 41]);
    var end := value + [41];
    assert [34] + ([44, 32] + end) == [34, 44, 32] + end;
    Behind(body + ([34, 44, 32] + end));
  }

  lemma Behind(t: Text)
    ensures [40] + ([34] + t) == [40, 34] + t
  {
  }

  /** Before them, the name in ASCII. */
  lemma PrintedStartsWithName(a: AuditAction, values: iset<Text>, i: nat)
    requires IsAction(a, values) && i < |Name(a)|
    ensures Printed(a, values)[i] == Name(a)[i] as int
    ensures Printed(a, values)[|Name(a)|..] == [OPEN] + Payload(a)
  {
    NamesArePlain(a, values);
    hide Payload, IsAction, Name;
  }

  // Identifiers are printed with 36 characters.
  lemma ActionsSpelledOut(id: Text, values: iset<Text>)
    ensures IsAction(OnId("VoteCast", id), values) <==> |id| == 36
    ensures IsAction(OnText("Custom", id), values) <==> Escaped(id)
    ensures IsAction(ParameterChange(id, id), values) <==> Escaped(id) && id in values
  {
    hide Escaped;
  }

  // What is printed between quotes has no quote of its own without a backslash before it.
  lemma EscapedSpelledOut(b: byte, t: Text)
    ensures Escaped([92, b] + t) <==> Escaped(t)
    ensures b != 92 && b != 34 ==> (Escaped([b] + t) <==> Escaped(t))
    ensures Escaped([]) && !Escaped([92]) && !Escaped([34] + t)
  {
    assert ([92, b] + t)[2..] == t && ([b] + t)[1..] == t;
  }

  // ----- No printed action is the beginning of another -----

  lemma DelimiterInside(x: Text, s: Text, y: Text, t: Text, d: byte)
    requires x + ([d] + s) == y + ([d] + t) && |x| < |y|
    ensures d in y
  {
    assert (x + ([d] + s))[|x|] == d;
    assert (y + ([d] + t))[|x|] == y[|x|];
  }

  lemma FirstDelimiter(x: Text, s: Text, y: Text, t: Text, d: byte)
    requires x + ([d] + s) == y + ([d] + t) && d !in x && d !in y
    ensures x == y && s == t
  {
    if |x| < |y| {
      DelimiterInside(x, s, y, t, d);
    } else if |y| < |x| {
      DelimiterInside(y, t, x, s, d);
    } else {
      SameSplit(x, [d] + s, y, [d] + t);
      assert s == ([d] + s)[1..] && t == ([d] + t)[1..];
    }
  }

  lemma SameSplit(x: Text, s: Text, y: Text, t: Text)
    requires x + s == y + t && |x| == |y|
    ensures x == y && s == t
  {
    assert x == (x + s)[..|x|] && y == (y + t)[..|y|];
    assert s == (x + s)[|x|..] && t == (y + t)[|y|..];
  }

  lemma HeadOf(x: Text, s: Text)
    ensures (x + ([QUOTE] + s))[0] == if x == [] then QUOTE else x[0]
  {
  }

  lemma {:induction false} FirstQuote(x: Text, s: Text, y: Text, t: Text)
    requires x + ([QUOTE] + s) == y + ([QUOTE] + t) && Escaped(x) && Escaped(y)
    ensures x == y && s == t
  {
    HeadOf(x, s);
    HeadOf(y, t);
    if x == [] {
      SameSplit(x, [QUOTE] + s, y, [QUOTE] + t);
      assert s == ([QUOTE] + s)[1..] && t == ([QUOTE] + t)[1..];
    } else {
      var n := if x[0] == BACKSLASH then 2 else 1;
      assert (x + ([QUOTE] + s))[n..] == x[n..] + ([QUOTE] + s) && (y + ([QUOTE] + t))[n..] == y[n..] + ([QUOTE] + t);
      FirstQuote(x[n..], s, y[n..], t);
      SameSplit(x, [QUOTE] + s, y, [QUOTE] + t);
    }
  }

  lemma AsciiInjective(s: string, t: string)
    requires Plain(s) && Plain(t) && Ascii(s) == Ascii(t)
    ensures s == t
  {
    forall i | 0 <= i < |s|
      ensures s[i] == t[i]
    {
      assert Ascii(s)[i] == s[i] as int && Ascii(t)[i] == t[i] as int;
    }
  }

  // The name tells the kind of payload.
  lemma KindOfName(a: AuditAction, b: AuditAction, values: iset<Text>)
    requires IsAction(a, values) && IsAction(b, values) && Name(a) == Name(b)
    ensures (a.OnText? <==> b.OnText?) && (a.OnId? <==> b.OnId?)
  {
    TextNames(Name(a));
    IdNames(Name(a));
    assert |PARAMETER_CHANGE| == 15 && PARAMETER_CHANGE[1] == 'a';
  }

  lemma TextNames(name: string)
    ensures name in TEXT_ACTIONS ==> |name| in {6, 10, 14, 16, 17, 21, 23}
  {
  }

  lemma IdNames(name: string)
    ensures name in ID_ACTIONS ==> |name| in {8, 15, 18, 20} && name[1] != 'a'
  {
  }

  // A quoted text, and what follows the closing quote.
  lemma QuotedAgree(p: Text, s: Text, q: Text, t: Text)
    requires Escaped(p) && Escaped(q) && [QUOTE] + (p + ([QUOTE] + s)) == [QUOTE] + (q + ([QUOTE] + t))
    ensures p == q && s == t
  {
    hide Escaped;
    SameSplit([QUOTE], p + ([QUOTE] + s), [QUOTE], q + ([QUOTE] + t));
    FirstQuote(p, s, q, t);
  }

  lemma TextsAgree(p: Text, x: Text, q: Text, y: Text)
    requires Escaped(p) && Escaped(q)
    requires [QUOTE] + (p + ([QUOTE] + [CLOSE])) + x == [QUOTE] + (q + ([QUOTE] + [CLOSE])) + y
    ensures p == q && x == y
  {
    hide Escaped;
    assert [QUOTE] + (p + ([QUOTE] + [CLOSE])) + x == [QUOTE] + (p + ([QUOTE] + ([CLOSE] + x)));
    assert [QUOTE] + (q + ([QUOTE] + [CLOSE])) + y == [QUOTE] + (q + ([QUOTE] + ([CLOSE] + y)));
    QuotedAgree(p, [CLOSE] + x, q, [CLOSE] + y);
    SameSplit([CLOSE], x, [CLOSE], y);
  }

  lemma IdsAgree(p: Text, x: Text, q: Text, y: Text)
    requires |p| == |q| && p + [CLOSE] + x == q + [CLOSE] + y
    ensures p == q && x == y
  {
    SameSplit(p + [CLOSE], x, q + [CLOSE], y);
    SameSplit(p, [CLOSE], q, [CLOSE]);
  }

  lemma ChangesAgree(p: Text, v: Text, x: Text, q: Text, w: Text, y: Text, values: iset<Text>)
    requires PrefixFree(values) && v in values && w in values && Escaped(p) && Escaped(q)
    requires [QUOTE] + (p + ([QUOTE] + ([44, 32] + (v + [CLOSE])))) + x == [QUOTE] + (q + ([QUOTE] + ([44, 32] + (w + [CLOSE])))) + y
    ensures p == q && v == w && x == y
  {
    hide Escaped, PrefixFree;
    ChangeGrouped(p, v, x);
    ChangeGrouped(q, w, y);
    QuotedAgree(p, [44, 32] + (v + ([CLOSE] + x)), q, [44, 32] + (w + ([CLOSE] + y)));
    SameSplit([44, 32], v + ([CLOSE] + x), [44, 32], w + ([CLOSE] + y));
    PrefixesAgree(values, v, [CLOSE] + x, w, [CLOSE] + y);
    SameSplit([CLOSE], x, [CLOSE], y);
  }

  lemma ChangeGrouped(p: Text, v: Text, x: Text)
    ensures [QUOTE] + (p + ([QUOTE] + ([44, 32] + (v + [CLOSE])))) + x == [QUOTE] + (p + ([QUOTE] + ([44, 32] + (v + ([CLOSE] + x)))))
  {
    assert [44, 32] + (v + [CLOSE]) + x == [44, 32] + (v + ([CLOSE] + x));
  }

  lemma PayloadsAgree(a: AuditAction, b: AuditAction, values: iset<Text>, x: Text, y: Text)
    requires PrefixFree(values) && IsAction(a, values) && IsAction(b, values) && Name(a) == Name(b)
    requires Payload(a) + x == Payload(b) + y
    ensures a == b && x == y
  {
    KindOfName(a, b, values);
    hide PrefixFree, Escaped;
    match a {
      case OnText(name, body) => TextsAgree(body, x, b.body, y);
      case OnId(name, id) => IdsAgree(id, x, b.id, y);
      case ParameterChange(key, value) => ChangesAgree(key, value, x, b.key, b.value, y, values);
    }
  }

  ghost function PrintedActions(values: iset<Text>): iset<Text> {
    iset a: AuditAction | IsAction(a, values) :: Printed(a, values)
  }

  lemma PrintsApart(a: AuditAction, b: AuditAction, values: iset<Text>, x: Text)
    requires PrefixFree(values) && IsAction(a, values) && IsAction(b, values)
    requires Printed(a, values) + x == Printed(b, values)
    ensures a == b && x == []
  {
    hide PrefixFree, Payload, IsAction;
    NamesArePlain(a, values);
    NamesArePlain(b, values);
    var m, n := Ascii(Name(a)), Ascii(Name(b));
    assert OPEN !in m && OPEN !in n;
    assert Printed(a, values) + x == m + ([OPEN] + (Payload(a) + x));
    FirstDelimiter(m, Payload(a) + x, n, Payload(b), OPEN);
    AsciiInjective(Name(a), Name(b));
    assert Payload(b) + [] == Payload(b);
    PayloadsAgree(a, b, values, x, []);
  }

  /** The printed actions are prefix-free, provided the printed JSON values are. */
  lemma ActionsPrefixFree(values: iset<Text>)
    requires PrefixFree(values)
    ensures PrefixFree(PrintedActions(values))
  {
    hide IsAction, Printed;
    forall s: Text, t: Text | s in PrintedActions(values) && t in PrintedActions(values) && s <= t
      ensures s == t
    {
      var a :| IsAction(a, values) && s == Printed(a, values);
      var b :| IsAction(b, values) && t == Printed(b, values);
      assert t == s + t[|s|..];
      PrintsApart(a, b, values, t[|s|..]);
    }
  }

  // ----- Times -----

  predicate Digit(b: byte) {
    48 <= b <= 57
  }

  // Date, time with nothing or 3, 6 or 9 digits of a second, offset; as far as needed here.
  predicate Rfc3339(t: Text) {
    && |t| in {25, 29, 32, 35}
    && t[4] == t[7] == 45 && t[10] == 84
    && Digit(t[8]) && Digit(t[11]) && Digit(t[14])
  }

  ghost function Times(): iset<Text> {
    iset t: Text | Rfc3339(t)
  }

  // As in 2024-10-09T08:05:09+00:00.
  lemma TimesSpelledOut(b: byte)
    ensures Rfc3339([50, 48, 50, 52, 45, 49, 48, 45, 48, 57, 84, 48, 56, 58, 48, 53, 58, 48, 57, 43, 48, 48, 58, 48, 48])
    ensures Digit(b) <==> b in {48, 49, 50, 51, 52, 53, 54, 55, 56, 57}
  {
  }

  /** No such time ends in another. */
  lemma TimesSuffixFree()
    ensures SuffixFree(Times())
  {
    forall s: Text, t: Text | s in Times() && t in Times() && EndsWith(t, s)
      ensures s == t
    {
      var k := |t| - |s|;
      assert t[k..][4] == t[k + 4] && t[k..][7] == t[k + 7];
      assert k in {0, 3, 4, 6, 7, 10};
    }
  }

  // ----- What the last hash commits to -----

  ghost predicate FromSource(events: seq<Event>, values: iset<Text>) {
    forall i :: 0 <= i < |events| ==> events[i].action in PrintedActions(values) && Rfc3339(events[i].timestamp)
  }

  /** Two verified trails with the same last hash, of events as the source makes them, have the same
      action, actor and time event by event, unless their events exhibit a collision of the hash. */
  lemma LastHashCommitsToFields(h: HashFunction, a: seq<Event>, b: seq<Event>, last: Text, values: iset<Text>)
    requires HexHash(h) && PrefixFree(values) && FromSource(a, values) && FromSource(b, values)
    requires Verify(h, a, GENESIS, last) == Intact && Verify(h, b, GENESIS, last) == Intact
    requires !Collide(h, a, b)
    ensures |a| == |b| && forall i :: 0 <= i < |a| ==> SameFields(a[i], b[i])
  {
    hide PrefixFree, SuffixFree, PrintedActions, HexHash, Verify, Collide, SameFields, Rfc3339;
    LastHashCommits(h, a, b, last);
    ActionsPrefixFree(values);
    TimesSuffixFree();
    forall i | 0 <= i < |a|
      ensures SameFields(a[i], b[i])
    {
      assert SameRecord(a[i], b[i]);
      FieldsAgree(a[i], b[i], PrintedActions(values), Times());
    }
  }
}
