/**
  The policy engine (crates/wasm-runtime/src/policy.rs): prioritised rules, first match wins, and a
  cache of decisions with a time to live.  Matching text by pattern, number, list or substring is a
  parameter; the cache key is the request itself.
 */
module PolicyEngine {
  import opened Wrappers

  datatype Effect = Allow | Deny | Audit

  datatype Action =
    | Instantiate
    | Import(modul: string, name: string)
    | Export(name: string)
    | MemoryGrow
    | FuelConsume
    | CapabilityUse(capability: string)
    | NetworkAccess(target: string)
    | FileSystemAccess(path: string)
    | HostFunction(name: string)
    | Custom(name: string)

  datatype Operator = Equals | NotEquals | Contains | Matches | GreaterThan | LessThan | InList

  datatype Condition = Condition(attribute: string, operator: Operator, value: string)

  datatype Rule = Rule(id: string, moduleName: Option<string>, action: Action, effect: Effect, priority: int,
                       conditions: seq<Condition>)

  datatype Request = Request(moduleName: string, action: Action, context: map<string, string>)

  datatype Evaluation = Evaluation(ruleId: string, effect: Effect)

  // How an attribute compares to a value under the operators other than equality.
  type TextTest = (Operator, string, string) -> bool

  // ----- Matching -----

  predicate Wild(pattern: string, target: string) {
    pattern == "*" || pattern == target
  }

  predicate ActionMatches(rule: Action, target: Action) {
    match (rule, target)
    case (Custom(w), _) => w == "*" || rule == target
    case (Import(rm, rn), Import(tm, tn)) => rule == target || (Wild(rm, tm) && Wild(rn, tn))
    case (Export(r), Export(t)) => Wild(r, t)
    case (NetworkAccess(r), NetworkAccess(t)) => Wild(r, t)
    case (FileSystemAccess(r), FileSystemAccess(t)) => Wild(r, t)
    case (HostFunction(r), HostFunction(t)) => Wild(r, t)
    case _ => rule == target
  }

  predicate Passes(test: TextTest, c: Condition, actual: string) {
    match c.operator
    case Equals => actual == c.value
    case NotEquals => actual != c.value
    case _ => test(c.operator, actual, c.value)
  }

  predicate ConditionsHold(test: TextTest, conditions: seq<Condition>, context: map<string, string>) {
    forall i :: 0 <= i < |conditions| ==>
      conditions[i].attribute in context && Passes(test, conditions[i], context[conditions[i].attribute])
  }

  method EvaluateConditions(test: TextTest, conditions: seq<Condition>, context: map<string, string>) returns (ok: bool)
    ensures ok <==> ConditionsHold(test, conditions, context)
  {
    for i := 0 to |conditions|
      invariant forall k :: 0 <= k < i ==>
        conditions[k].attribute in context && Passes(test, conditions[k], context[conditions[k].attribute])
    {
      if conditions[i].attribute !in context {
        return false;
      }
      if !Passes(test, conditions[i], context[conditions[i].attribute]) {
        return false;
      }
    }
    return true;
  }

  predicate Applies(test: TextTest, rule: Rule, q: Request) {
    && (rule.moduleName.None? || Wild(rule.moduleName.value, q.moduleName))
    && ActionMatches(rule.action, q.action)
    && ConditionsHold(test, rule.conditions, q.context)
  }

  // ----- Decisions -----

  // The first rule of the list that applies.
  function FirstMatch(test: TextTest, rules: seq<Rule>, q: Request): Option<Rule> {
    if rules == [] then None
    else if Applies(test, rules[0], q) then Some(rules[0])
    else FirstMatch(test, rules[1..], q)
  }

  // The reference: among rules in order of arrival, the applicable one of highest priority, the
  // earliest of them on a tie.
  function Best(test: TextTest, arrivals: seq<Rule>, q: Request): Option<Rule> {
    if arrivals == [] then None
    else
      var best, r := Best(test, arrivals[..|arrivals| - 1], q), arrivals[|arrivals| - 1];
      if Applies(test, r, q) && (best.None? || r.priority > best.value.priority) then Some(r) else best
  }

  // Inserts behind all rules of at least the same priority.
  function Insert(rules: seq<Rule>, r: Rule): seq<Rule> {
    if rules == [] || rules[0].priority < r.priority then [r] + rules
    else [rules[0]] + Insert(rules[1..], r)
  }

  // The library's stable sort by descending priority.
  function Sorted(rules: seq<Rule>): seq<Rule> {
    if rules == [] then [] else Insert(Sorted(rules[..|rules| - 1]), rules[|rules| - 1])
  }

  function Retain(rules: seq<Rule>, id: string): (r: seq<Rule>)
    ensures |r| <= |rules|
    ensures |r| == |rules| <==> forall i :: 0 <= i < |rules| ==> rules[i].id != id
  {
    if rules == [] then []
    else if rules[0].id == id then Retain(rules[1..], id)
    else [rules[0]] + Retain(rules[1..], id)
  }

  ghost predicate Descending(rules: seq<Rule>) {
    forall i, j :: 0 <= i < j < |rules| ==> rules[i].priority >= rules[j].priority
  }

  lemma {:induction false} InsertDescending(rules: seq<Rule>, r: Rule)
    requires Descending(rules)
    ensures Descending(Insert(rules, r))
    ensures forall i :: 0 <= i < |Insert(rules, r)| ==> Insert(rules, r)[i] == r || Insert(rules, r)[i] in rules
  {
    if rules != [] && rules[0].priority >= r.priority {
      InsertDescending(rules[1..], r);
    }
  }

  lemma {:induction false} SortedDescending(rules: seq<Rule>)
    ensures Descending(Sorted(rules))
  {
    if rules != [] {
      SortedDescending(rules[..|rules| - 1]);
      InsertDescending(Sorted(rules[..|rules| - 1]), rules[|rules| - 1]);
    }
  }

  lemma {:induction false} InsertLast(rules: seq<Rule>, r: Rule)
    requires forall i :: 0 <= i < |rules| ==> rules[i].priority >= r.priority
    ensures Insert(rules, r) == rules + [r]
  {
    if rules != [] {
      InsertLast(rules[1..], r);
      assert [rules[0]] + (rules[1..] + [r]) == rules + [r];
    }
  }

  lemma {:induction false} SortedFixed(rules: seq<Rule>)
    requires Descending(rules)
    ensures Sorted(rules) == rules
  {
    if rules != [] {
      SortedFixed(rules[..|rules| - 1]);
      InsertLast(rules[..|rules| - 1], rules[|rules| - 1]);
    }
  }

  lemma SortedSnoc(rules: seq<Rule>, r: Rule)
    ensures Sorted(rules + [r]) == Insert(Sorted(rules), r)
  {
    assert (rules + [r])[..|rules + [r]| - 1] == rules;
  }

  lemma RetainCons(r: Rule, rules: seq<Rule>, id: string)
    ensures Retain([r] + rules, id) == (if r.id == id then [] else [r]) + Retain(rules, id)
  {
    assert ([r] + rules)[1..] == rules;
  }

  lemma {:induction false} RetainMembers(rules: seq<Rule>, id: string)
    ensures forall x :: x in Retain(rules, id) ==> x in rules
  {
    if rules != [] {
      RetainMembers(rules[1..], id);
    }
  }

  lemma InsertBehind(head: Rule, tail: seq<Rule>, r: Rule)
    requires head.priority >= r.priority
    ensures Insert([head] + tail, r) == [head] + Insert(tail, r)
  {
    assert ([head] + tail)[1..] == tail;
  }

  lemma {:induction false} RetainInsert(rules: seq<Rule>, r: Rule, id: string)
    requires Descending(rules)
    ensures Retain(Insert(rules, r), id) == if r.id == id then Retain(rules, id) else Insert(Retain(rules, id), r)
  {
    hide Insert, Retain;
    if rules == [] {
      InsertFirst([], r);
      RetainCons(r, [], id);
      RetainMembers([], id);
      InsertFirst(Retain([], id), r);
      assert r.id == id ==> [] + Retain([], id) == Retain([], id);
    } else {
      var head, tail := rules[0], rules[1..];
      assert rules == [head] + tail;
      RetainInsert(tail, r, id);
      RetainCons(head, tail, id);
      RetainMembers(rules, id);
      if head.priority < r.priority {
        assert forall x :: x in rules ==> x.priority < r.priority;
        InsertFirst(rules, r);
        RetainCons(r, rules, id);
        InsertFirst(Retain(rules, id), r);
        assert r.id == id ==> [] + Retain(rules, id) == Retain(rules, id);
      } else {
        InsertBehind(head, tail, r);
        RetainCons(head, Insert(tail, r), id);
        InsertBehind(head, Retain(tail, id), r);
        assert [] + Retain(tail, id) == Retain(tail, id) && [] + Insert(Retain(tail, id), r) == Insert(Retain(tail, id), r);
      }
    }
  }

  lemma InsertFirst(rules: seq<Rule>, r: Rule)
    requires forall x :: x in rules ==> x.priority < r.priority
    ensures Insert(rules, r) == [r] + rules
  {
  }

  lemma {:induction false} RetainSnoc(rules: seq<Rule>, r: Rule, id: string)
    ensures Retain(rules + [r], id) == Retain(rules, id) + (if r.id == id then [] else [r])
  {
    if rules == [] {
      RetainCons(r, [], id);
    } else {
      RetainSnoc(rules[1..], r, id);
      RetainCons(rules[0], rules[1..], id);
      RetainCons(rules[0], rules[1..] + [r], id);
      hide Retain;
      assert rules + [r] == [rules[0]] + (rules[1..] + [r]) && rules == [rules[0]] + rules[1..];
    }
  }

  /** Removing rules commutes with sorting by priority. */
  lemma {:induction false} RetainSorted(rules: seq<Rule>, id: string)
    ensures Retain(Sorted(rules), id) == Sorted(Retain(rules, id))
  {
    if rules != [] {
      var front, r := rules[..|rules| - 1], rules[|rules| - 1];
      assert rules == front + [r];
      RetainSorted(front, id);
      SortedDescending(front);
      RetainInsert(Sorted(front), r, id);
      RetainSnoc(front, r, id);
      if r.id != id {
        SortedSnoc(Retain(front, id), r);
      } else {
        assert Retain(front, id) + [] == Retain(front, id);
      }
    }
  }

  // ----- First match is best match -----

  lemma {:induction false} FirstMatchMember(test: TextTest, rules: seq<Rule>, q: Request)
    ensures var m := FirstMatch(test, rules, q);
      m.Some? ==> m.value in rules && Applies(test, m.value, q)
  {
    if rules != [] {
      FirstMatchMember(test, rules[1..], q);
    }
  }

  lemma {:induction false} FirstMatchInsert(test: TextTest, rules: seq<Rule>, r: Rule, q: Request)
    requires Descending(rules)
    ensures var m := FirstMatch(test, rules, q);
      FirstMatch(test, Insert(rules, r), q) ==
        if Applies(test, r, q) && (m.None? || r.priority > m.value.priority) then Some(r) else m
  {
    if rules == [] {
    } else if rules[0].priority < r.priority {
      FirstMatchMember(test, rules, q);
      assert ([r] + rules)[1..] == rules;
    } else {
      FirstMatchInsert(test, rules[1..], r, q);
      assert Insert(rules, r)[1..] == Insert(rules[1..], r);
    }
  }

  /** In the sorted list, the first applicable rule is the applicable rule of highest priority, the
      earliest arrival on a tie. */
  lemma {:induction false} FirstMatchIsBest(test: TextTest, arrivals: seq<Rule>, q: Request)
    ensures FirstMatch(test, Sorted(arrivals), q) == Best(test, arrivals, q)
  {
    if arrivals != [] {
      var front := arrivals[..|arrivals| - 1];
      FirstMatchIsBest(test, front, q);
      SortedDescending(front);
      FirstMatchInsert(test, Sorted(front), arrivals[|arrivals| - 1], q);
    }
  }

  lemma {:induction false} BestIsHighest(test: TextTest, arrivals: seq<Rule>, q: Request)
    ensures var b := Best(test, arrivals, q);
      && (b.Some? ==> b.value in arrivals && Applies(test, b.value, q))
      && forall r :: r in arrivals && Applies(test, r, q) ==> b.Some? && r.priority <= b.value.priority
  {
    if arrivals != [] {
      var front, last := arrivals[..|arrivals| - 1], arrivals[|arrivals| - 1];
      assert arrivals == front + [last];
      BestIsHighest(test, front, q);
    }
  }

  /** Rules with pairwise distinct priorities decide every request alike in whatever order they
      were added. */
  lemma OrderOfAddingIsIrrelevant(test: TextTest, a: seq<Rule>, b: seq<Rule>, q: Request)
    requires forall r :: r in a <==> r in b
    requires forall r, s :: r in a && s in a && r.priority == s.priority ==> r == s
    ensures FirstMatch(test, Sorted(a), q) == FirstMatch(test, Sorted(b), q)
  {
    FirstMatchIsBest(test, a, q);
    FirstMatchIsBest(test, b, q);
    BestIsHighest(test, a, q);
    BestIsHighest(test, b, q);
  }

  // ----- The engine -----

  datatype Stats = Stats(total: nat, allowed: nat, denied: nat, audited: nat)

  function Count(s: Stats, e: Effect): Stats {
    match e
    case Allow => s.(total := s.total + 1, allowed := s.allowed + 1)
    case Deny => s.(total := s.total + 1, denied := s.denied + 1)
    case Audit => s.(total := s.total + 1, audited := s.audited + 1)
  }

  const DEFAULT_RULES: seq<Rule> := [
    Rule("default-deny-all", None, Custom("*"), Deny, 0, []),
    Rule("allow-credential-verify", Some("credential-verify"), Instantiate, Allow, 100, []),
    Rule("allow-did-resolve", Some("did-resolve"), Instantiate, Allow, 100, []),
    Rule("allow-age-proof", Some("age-proof"), Instantiate, Allow, 100, []),
    Rule("audit-network-access", None, NetworkAccess("*"), Audit, 50, []),
    Rule("deny-filesystem-external", None, FileSystemAccess("/tmp/*"), Deny, 90,
         [Condition("path", Matches, "^(?!/tmp/).*")])]

  const CACHE_TTL := 60  // seconds

  type Cache = map<Request, (Effect, int)>

  // The request would be answered from the cache.
  predicate Live(cache: Cache, q: Request, now: int) {
    q in cache && now - cache[q].1 < CACHE_TTL
  }

  // A decision stays in the cache for less than a minute.
  lemma LiveForAMinute(q: Request, effect: Effect, stored: int, now: int)
    ensures Live(map[q := (effect, stored)], q, now) <==> now < stored + 60
    ensures !Live(map[], q, now)
  {
  }

  // The uncached decision on the request has this effect.
  predicate Decides(test: TextTest, rules: seq<Rule>, q: Request, effect: Effect) {
    FirstMatch(test, rules, q).Some? && FirstMatch(test, rules, q).value.effect == effect
  }

  // Every answer from the cache has the effect of an uncached evaluation.
  ghost predicate Fresh(test: TextTest, rules: seq<Rule>, cache: Cache, now: int) {
    forall q :: Live(cache, q, now) ==> Decides(test, rules, q, cache[q].0)
  }

  lemma FreshLater(test: TextTest, rules: seq<Rule>, cache: Cache, now: int, later: int)
    requires Fresh(test, rules, cache, now) && now <= later
    ensures Fresh(test, rules, cache, later)
  {
    forall q | Live(cache, q, later)
      ensures Decides(test, rules, q, cache[q].0)
    {
      assert Live(cache, q, now);
    }
  }

  class PolicyEngine {
    const test: TextTest
    var rules: seq<Rule>
    var stats: Stats
    var cache: Cache
    ghost var arrivals: seq<Rule>  // the rules present, in order of arrival
    ghost var sorted: bool         // add_rule has run

    constructor (test: TextTest, initial: seq<Rule>)
      ensures Valid() && rules == initial && arrivals == initial && !sorted && cache == map[]
      ensures this.test == test
    {
      this.test := test;
      rules := initial;
      arrivals := initial;
      sorted := false;
      stats := Stats(0, 0, 0, 0);
      cache := map[];
    }

    ghost predicate Valid()
      reads this
    {
      && rules == (if sorted then Sorted(arrivals) else arrivals)
      && stats.allowed + stats.denied + stats.audited == stats.total
    }

    method AddRule(rule: Rule)
      requires Valid()
      modifies this`rules, this`arrivals, this`sorted
      ensures Valid() && sorted && arrivals == old(arrivals) + [rule] && rules == Sorted(old(rules) + [rule])
      ensures forall q :: FirstMatch(test, rules, q) == Best(test, arrivals, q)
    {
      SortedSnoc(arrivals, rule);
      if sorted {
        SortedDescending(arrivals);
        SortedFixed(Sorted(arrivals));
      }
      SortedSnoc(rules, rule);
      rules := rules + [rule];
      rules := Sorted(rules);
      arrivals := arrivals + [rule];
      sorted := true;
      forall q ensures FirstMatch(test, rules, q) == Best(test, arrivals, q) { FirstMatchIsBest(test, arrivals, q); }
    }

    method RemoveRule(id: string) returns (removed: bool)
      requires Valid()
      modifies this`rules, this`arrivals
      ensures Valid() && arrivals == Retain(old(arrivals), id) && rules == Retain(old(rules), id)
      ensures removed <==> exists i :: 0 <= i < |old(rules)| && old(rules)[i].id == id
      ensures sorted ==> forall q :: FirstMatch(test, rules, q) == Best(test, arrivals, q)
    {
      RetainSorted(arrivals, id);
      var before := |rules|;
      rules := Retain(rules, id);
      arrivals := Retain(arrivals, id);
      removed := |rules| < before;
      if sorted {
        forall q ensures FirstMatch(test, rules, q) == Best(test, arrivals, q) { FirstMatchIsBest(test, arrivals, q); }
      }
    }

    /** An answer from the cache has the effect of an uncached evaluation as long as the cache is
        fresh, and evaluating keeps it fresh. */
    method Evaluate(q: Request, now: int) returns (r: Option<Evaluation>)
      requires Valid()
      modifies this`stats, this`cache
      ensures Valid()
      ensures var hit := q in old(cache) && now - old(cache)[q].1 < 60;
        var m := FirstMatch(test, rules, q);
        && (hit ==> r == Some(Evaluation("cache", old(cache)[q].0)) && cache == old(cache))
        && (!hit && m.Some? ==>
              r == Some(Evaluation(m.value.id, m.value.effect)) && cache == old(cache)[q := (m.value.effect, now)])
        && (!hit && m.None? ==> r == None && cache == old(cache))
      ensures stats == if r.Some? then Count(old(stats), r.value.effect) else old(stats)
      ensures stats.allowed + stats.denied + stats.audited == stats.total
      ensures old(Fresh(test, rules, cache, now)) ==>
        && Fresh(test, rules, cache, now)
        && (r.Some? <==> FirstMatch(test, rules, q).Some?)
        && (r.Some? ==> r.value.effect == FirstMatch(test, rules, q).value.effect)
    {
      if q in cache {
        var (effect, at) := cache[q];
        if now - at < CACHE_TTL {
          stats := Count(stats, effect);
          return Some(Evaluation("cache", effect));
        }
      }
      var matched := Match(q);
      if matched.None? {
        return None;
      }
      cache := cache[q := (matched.value.effect, now)];
      stats := Count(stats, matched.value.effect);
      return Some(Evaluation(matched.value.id, matched.value.effect));
    }

    // The loop over the rules.
    method Match(q: Request) returns (m: Option<Rule>)
      ensures m == FirstMatch(test, rules, q)
    {
      for i := 0 to |rules|
        invariant FirstMatch(test, rules, q) == FirstMatch(test, rules[i..], q)
      {
        var rule := rules[i];
        assert rules[i..][0] == rule && rules[i..][1..] == rules[i + 1..];
        if rule.moduleName.Some? && rule.moduleName.value != q.moduleName && rule.moduleName.value != "*" {
          continue;
        }
        if !ActionMatches(rule.action, q.action) {
          continue;
        }
        var ok := EvaluateConditions(test, rule.conditions, q.context);
        if !ok {
          continue;
        }
        return Some(rule);
      }
      return None;
    }

    method ClearCache()
      requires Valid()
      modifies this`cache
      ensures Valid() && cache == map[] && forall now :: Fresh(test, rules, cache, now)
    {
      cache := map[];
    }
  }

  // ----- Changing rules without clearing the cache -----

  // The rule applies and outranks the one that decides so far.
  predicate Overrides(test: TextTest, rule: Rule, rules: seq<Rule>, q: Request) {
    var m := FirstMatch(test, rules, q);
    Applies(test, rule, q) && (m.None? || rule.priority > m.value.priority)
  }

  /** Adding a rule sorts the list.  Afterwards the cache is fresh exactly when every decision still
      answered from it is, with the same effect, that of the rule, where the rule applies and
      outranks the others, and that of the list sorted without it elsewhere. */
  lemma AddingKeepsFresh(test: TextTest, rules: seq<Rule>, rule: Rule, cache: Cache, now: int)
    ensures Fresh(test, Sorted(rules + [rule]), cache, now) <==>
      forall q :: Live(cache, q, now) ==>
        if Overrides(test, rule, Sorted(rules), q) then rule.effect == cache[q].0
        else Decides(test, Sorted(rules), q, cache[q].0)
  {
    SortedSnoc(rules, rule);
    SortedDescending(rules);
    forall q | Live(cache, q, now)
      ensures FirstMatch(test, Sorted(rules + [rule]), q) ==
        if Overrides(test, rule, Sorted(rules), q) then Some(rule) else FirstMatch(test, Sorted(rules), q)
    {
      FirstMatchInsert(test, Sorted(rules), rule, q);
    }
  }

  /** So, in a list already sorted, a fresh cache stays so exactly when the rule overrides no decision
      that is still answered from it with a different effect. */
  lemma AddingToSortedKeepsFresh(test: TextTest, rules: seq<Rule>, rule: Rule, cache: Cache, now: int)
    requires Descending(rules) && Fresh(test, rules, cache, now)
    ensures Fresh(test, Sorted(rules + [rule]), cache, now) <==>
      forall q :: Live(cache, q, now) && Overrides(test, rule, rules, q) ==> rule.effect == cache[q].0
  {
    SortedFixed(rules);
    AddingKeepsFresh(test, rules, rule, cache, now);
  }

  /** And in the default list, which is not sorted, adding any rule that does not even apply makes a
      cached denial stale: the request to instantiate credential-verify was denied, by the first
      rule, and is allowed once the list is sorted. */
  lemma FirstAddStalesDefaults(test: TextTest, rule: Rule, context: map<string, string>, now: int)
    requires !Applies(test, rule, Request("credential-verify", Instantiate, context))
    ensures var q := Request("credential-verify", Instantiate, context);
      var cache: Cache := map[q := (Deny, now)];
      && Fresh(test, DEFAULT_RULES, cache, now) && Live(cache, q, now)
      && Decides(test, Sorted(DEFAULT_RULES + [rule]), q, Allow)
      && !Fresh(test, Sorted(DEFAULT_RULES + [rule]), cache, now)
  {
    var q := Request("credential-verify", Instantiate, context);
    var cache: Cache := map[q := (Deny, now)];
    assert Applies(test, DEFAULT_RULES[0], q);
    assert Live(cache, q, now);
    DefaultAllows(test, q);
    SortedSnoc(DEFAULT_RULES, rule);
    SortedDescending(DEFAULT_RULES);
    FirstMatchInsert(test, Sorted(DEFAULT_RULES), rule, q);
  }

  lemma DefaultAllows(test: TextTest, q: Request)
    requires q.moduleName == "credential-verify" && q.action == Instantiate
    ensures Decides(test, Sorted(DEFAULT_RULES), q, Allow)
  {
    DefaultsAllow(test, q);
  }

  /** That can fail for every request: a denial of higher priority does not reach a cached permission. */
  lemma AddingCanStale(test: TextTest, q: Request, now: int)
    ensures exists arrivals, rule, cache: Cache ::
      && Fresh(test, Sorted(arrivals), cache, now) && Live(cache, q, now) && cache[q].0 == Allow
      && Decides(test, Sorted(arrivals + [rule]), q, Deny)
  {
    var allow, deny := Rule("a", None, Custom("*"), Allow, 1, []), Rule("d", None, Custom("*"), Deny, 2, []);
    var cache: Cache := map[q := (Allow, now)];
    assert Applies(test, allow, q) && Applies(test, deny, q);
    assert [allow][..0] == [] && Sorted([]) == [];
    assert Sorted([allow]) == [allow];
    SortedSnoc([allow], deny);
    assert Sorted([allow] + [deny]) == [deny, allow];
    assert Live(cache, q, now) && Decides(test, [deny, allow], q, Deny);
  }

  // The first applicable rule with another id.
  function NextMatch(test: TextTest, rules: seq<Rule>, q: Request, id: string): Option<Rule> {
    if rules == [] then None
    else if rules[0].id != id && Applies(test, rules[0], q) then Some(rules[0])
    else NextMatch(test, rules[1..], q, id)
  }

  lemma {:induction false} FirstMatchRetain(test: TextTest, rules: seq<Rule>, q: Request, id: string)
    ensures FirstMatch(test, Retain(rules, id), q) == NextMatch(test, rules, q, id)
    ensures var m := FirstMatch(test, rules, q); m.None? || m.value.id != id ==> NextMatch(test, rules, q, id) == m
  {
    if rules != [] {
      FirstMatchRetain(test, rules[1..], q, id);
      if rules[0].id != id {
        assert ([rules[0]] + Retain(rules[1..], id))[1..] == Retain(rules[1..], id);
      }
    }
  }

  /** Removing rules keeps the cache fresh exactly when every decision of theirs that is still
      answered from it is also, with the same effect, that of the next rule that applies. */
  lemma RemovingKeepsFresh(test: TextTest, rules: seq<Rule>, id: string, cache: Cache, now: int)
    requires Fresh(test, rules, cache, now)
    ensures Fresh(test, Retain(rules, id), cache, now) <==>
      forall q :: Live(cache, q, now) && FirstMatch(test, rules, q).value.id == id ==>
        NextMatch(test, rules, q, id).Some? && NextMatch(test, rules, q, id).value.effect == cache[q].0
  {
    forall q
      ensures FirstMatch(test, Retain(rules, id), q) == NextMatch(test, rules, q, id)
      ensures var m := FirstMatch(test, rules, q); m.None? || m.value.id != id ==> NextMatch(test, rules, q, id) == m
    {
      FirstMatchRetain(test, rules, q, id);
    }
  }

  /** That can fail for every request: the cache goes on permitting what no rule permits any more. */
  lemma RemovingCanStale(test: TextTest, q: Request, now: int)
    ensures exists rules, id, cache: Cache ::
      && Fresh(test, rules, cache, now) && Live(cache, q, now) && cache[q].0 == Allow
      && FirstMatch(test, Retain(rules, id), q).None?
  {
    var allow := Rule("a", None, Custom("*"), Allow, 1, []);
    var cache: Cache := map[q := (Allow, now)];
    assert Applies(test, allow, q);
    assert FirstMatch(test, [allow], q) == Some(allow) && Retain([allow], "a") == [];
    assert Fresh(test, [allow], cache, now) && Live(cache, q, now);
  }

  // ----- Runs -----

  datatype Step = Evaluating(q: Request) | Adding(rule: Rule) | Removing(id: string) | Clearing

  function RulesAfter(rules: seq<Rule>, steps: seq<(Step, int)>, n: nat): seq<Rule>
    requires n <= |steps|
  {
    if n == 0 then rules else Changed(RulesAfter(rules, steps, n - 1), steps[n - 1].0)
  }

  function Changed(rules: seq<Rule>, step: Step): seq<Rule> {
    match step
    case Adding(rule) => Sorted(rules + [rule])
    case Removing(id) => Retain(rules, id)
    case _ => rules
  }

  // The rules changed in the first n steps after the cache was last cleared.
  predicate Dirty(steps: seq<(Step, int)>, n: nat)
    requires n <= |steps|
  {
    n > 0 && (steps[n - 1].0.Adding? || steps[n - 1].0.Removing? || (!steps[n - 1].0.Clearing? && Dirty(steps, n - 1)))
  }

  ghost predicate ChangesRules(step: Step) {
    step.Adding? || step.Removing?
  }

  /** That is: some change has no clear behind it. */
  lemma {:induction false} DirtyExactly(steps: seq<(Step, int)>, n: nat)
    requires n <= |steps|
    ensures Dirty(steps, n) <==>
      exists i :: 0 <= i < n && ChangesRules(steps[i].0) && forall j :: i < j < n ==> !steps[j].0.Clearing?
  {
    if n > 0 {
      DirtyExactly(steps, n - 1);
      if Dirty(steps, n) && !ChangesRules(steps[n - 1].0) {
        var i :| 0 <= i < n - 1 && ChangesRules(steps[i].0) && forall j :: i < j < n - 1 ==> !steps[j].0.Clearing?;
        assert forall j :: i < j < n ==> !steps[j].0.Clearing?;
      }
    }
  }

  // An outcome has the effect of an uncached evaluation.
  ghost predicate Uncached(test: TextTest, rules: seq<Rule>, q: Request, outcome: Option<Effect>) {
    var m := FirstMatch(test, rules, q);
    if m.None? then outcome.None? else outcome == Some(m.value.effect)
  }

  /** In every run at times that do not decrease, evaluations before which the cache was cleared since
      the last change of the rules have the effect of an uncached evaluation. */
  method Run(engine: PolicyEngine, steps: seq<(Step, int)>) returns (outcomes: seq<Option<Effect>>)
    requires engine.Valid() && engine.cache == map[]
    requires forall i, j :: 0 <= i < j < |steps| ==> steps[i].1 <= steps[j].1
    modifies engine
    ensures engine.Valid() && |outcomes| == |steps| && engine.rules == RulesAfter(old(engine.rules), steps, |steps|)
    ensures forall i :: 0 <= i < |steps| && steps[i].0.Evaluating? && !Dirty(steps, i) ==>
      Uncached(engine.test, RulesAfter(old(engine.rules), steps, i), steps[i].0.q, outcomes[i])
  {
    outcomes := [];
    for i := 0 to |steps|
      invariant engine.Valid() && |outcomes| == i && engine.rules == RulesAfter(old(engine.rules), steps, i)
      invariant i == 0 ==> engine.cache == map[]
      invariant i > 0 && !Dirty(steps, i) ==> Fresh(engine.test, engine.rules, engine.cache, steps[i - 1].1)
      invariant forall k :: 0 <= k < i && steps[k].0.Evaluating? && !Dirty(steps, k) ==>
        Uncached(engine.test, RulesAfter(old(engine.rules), steps, k), steps[k].0.q, outcomes[k])
    {
      var (step, now) := steps[i];
      if i > 0 && !Dirty(steps, i) {
        FreshLater(engine.test, engine.rules, engine.cache, steps[i - 1].1, now);
      }
      var outcome := Perform(engine, step, now);
      outcomes := outcomes + [outcome];
    }
  }

  method Perform(engine: PolicyEngine, step: Step, now: int) returns (outcome: Option<Effect>)
    requires engine.Valid()
    modifies engine
    ensures engine.Valid() && engine.rules == Changed(old(engine.rules), step)
    ensures step.Evaluating? && old(Fresh(engine.test, engine.rules, engine.cache, now)) ==>
      Fresh(engine.test, engine.rules, engine.cache, now) && Uncached(engine.test, engine.rules, step.q, outcome)
    ensures step.Clearing? ==> Fresh(engine.test, engine.rules, engine.cache, now)
  {
    outcome := None;
    match step {
      case Evaluating(q) =>
        var r := engine.Evaluate(q, now);
        outcome := if r.Some? then Some(r.value.effect) else None;
      case Adding(rule) => engine.AddRule(rule);
      case Removing(id) => var removed := engine.RemoveRule(id);
      case Clearing => engine.ClearCache();
    }
  }

  /** The default rules are not sorted: until add_rule runs, the default denial, listed first,
      decides every request; afterwards it only decides what nothing of higher priority does. */
  lemma DefaultsDenyUntilSorted(test: TextTest, q: Request)
    ensures FirstMatch(test, DEFAULT_RULES, q) == Some(DEFAULT_RULES[0])
    ensures FirstMatch(test, Sorted(DEFAULT_RULES), q) == Some(DEFAULT_RULES[0]) <==>
      forall i :: 1 <= i < |DEFAULT_RULES| ==> !Applies(test, DEFAULT_RULES[i], q)
  {
    assert Applies(test, DEFAULT_RULES[0], q);
    FirstMatchIsBest(test, DEFAULT_RULES, q);
    BestIsHighest(test, DEFAULT_RULES, q);
    var b := Best(test, DEFAULT_RULES, q);
    assert DEFAULT_RULES[0] in DEFAULT_RULES;
    if i :| 1 <= i < |DEFAULT_RULES| && Applies(test, DEFAULT_RULES[i], q) {
      assert DEFAULT_RULES[i] in DEFAULT_RULES;
      assert DEFAULT_RULES[i].priority > 0;
    } else {
      assert b.value == DEFAULT_RULES[0];
    }
  }

  // ----- Matching, kind by kind -----

  /** Only the custom action "*" matches actions of another kind, and it matches all. */
  lemma KindsMatch(rule: Action, target: Action)
    ensures ActionMatches(Custom("*"), target)
    ensures ActionMatches(rule, target) && rule != Custom("*") ==>
      && (rule.Instantiate? <==> target.Instantiate?) && (rule.Import? <==> target.Import?)
      && (rule.Export? <==> target.Export?) && (rule.MemoryGrow? <==> target.MemoryGrow?)
      && (rule.FuelConsume? <==> target.FuelConsume?) && (rule.CapabilityUse? <==> target.CapabilityUse?)
      && (rule.NetworkAccess? <==> target.NetworkAccess?) && (rule.FileSystemAccess? <==> target.FileSystemAccess?)
      && (rule.HostFunction? <==> target.HostFunction?) && (rule.Custom? <==> target.Custom?)
    ensures ActionMatches(rule, rule)
  {
  }

  /** "*" matches every target of its kind; any other text, and every kind without text, itself only. */
  lemma WildcardsMatch(r: string, t: string)
    ensures ActionMatches(NetworkAccess("*"), NetworkAccess(t)) && ActionMatches(FileSystemAccess("*"), FileSystemAccess(t))
    ensures ActionMatches(Export("*"), Export(t)) && ActionMatches(HostFunction("*"), HostFunction(t))
    ensures r != "*" ==> (ActionMatches(NetworkAccess(r), NetworkAccess(t)) <==> r == t)
    ensures r != "*" ==> (ActionMatches(FileSystemAccess(r), FileSystemAccess(t)) <==> r == t)
    ensures r != "*" ==> (ActionMatches(Export(r), Export(t)) <==> r == t)
    ensures r != "*" ==> (ActionMatches(HostFunction(r), HostFunction(t)) <==> r == t)
    ensures r != "*" ==> (ActionMatches(Custom(r), Custom(t)) <==> r == t)
    ensures ActionMatches(CapabilityUse(r), CapabilityUse(t)) <==> r == t
  {
  }

  /** In an import, each half matches by itself. */
  lemma ImportsMatch(rm: string, rn: string, tm: string, tn: string)
    ensures ActionMatches(Import(rm, rn), Import(tm, tn)) <==> (rm == "*" || rm == tm) && (rn == "*" || rn == tn)
  {
  }

  /** A rule without module name, or with "*" for it, is about every module; any other about its own. */
  lemma ModulesMatch(test: TextTest, rule: Rule, q: Request)
    requires ActionMatches(rule.action, q.action) && rule.conditions == []
    ensures Applies(test, rule, q) <==> rule.moduleName in {None, Some("*"), Some(q.moduleName)}
  {
  }

  /** Equality and inequality of attributes; an attribute that is missing fails every condition. */
  lemma ConditionsDecide(test: TextTest, attribute: string, value: string, operator: Operator, context: map<string, string>)
    ensures attribute in context ==>
      && (ConditionsHold(test, [Condition(attribute, Equals, value)], context) <==> context[attribute] == value)
      && (ConditionsHold(test, [Condition(attribute, NotEquals, value)], context) <==> context[attribute] != value)
      && (operator != Equals && operator != NotEquals ==>
            (ConditionsHold(test, [Condition(attribute, operator, value)], context)
             <==> test(operator, context[attribute], value)))
    ensures attribute !in context ==> !ConditionsHold(test, [Condition(attribute, operator, value)], context)
    ensures ConditionsHold(test, [], context)
  {
    OneCondition(test, Condition(attribute, Equals, value), context);
    OneCondition(test, Condition(attribute, NotEquals, value), context);
    OneCondition(test, Condition(attribute, operator, value), context);
  }

  lemma OneCondition(test: TextTest, c: Condition, context: map<string, string>)
    ensures ConditionsHold(test, [c], context) <==> c.attribute in context && Passes(test, c, context[c.attribute])
  {
    assert [c][0] == c;
  }

  lemma ConditionsConcat(test: TextTest, a: seq<Condition>, b: seq<Condition>, context: map<string, string>)
    ensures ConditionsHold(test, a + b, context) <==> ConditionsHold(test, a, context) && ConditionsHold(test, b, context)
  {
    var c := a + b;
    if ConditionsHold(test, c, context) {
      assert forall i :: 0 <= i < |a| ==> c[i] == a[i];
      assert forall i :: 0 <= i < |b| ==> c[|a| + i] == b[i];
    }
  }

  /** Each effect raises its own counter and the total. */
  lemma CountersRaised(s: Stats)
    ensures Count(s, Allow) == Stats(s.total + 1, s.allowed + 1, s.denied, s.audited)
    ensures Count(s, Deny) == Stats(s.total + 1, s.allowed, s.denied + 1, s.audited)
    ensures Count(s, Audit) == Stats(s.total + 1, s.allowed, s.denied, s.audited + 1)
  {
  }

  /** Sorting puts the higher priority first and leaves ties in order of arrival. */
  lemma PairsSorted(r: Rule, s: Rule)
    ensures Sorted([r, s]) == if s.priority > r.priority then [s, r] else [r, s]
  {
    assert [r, s][..1] == [r] && [r][..0] == [];
    assert Insert([], r) == [r];
    assert Sorted([r]) == [r];
    assert [r][1..] == [] && Insert([], s) == [s];
  }

  /** What is retained of a list is what is retained of each rule, in order. */
  lemma RetainSpelledOut(r: Rule, rules: seq<Rule>, id: string)
    ensures Retain([r] + rules, id) == (if r.id == id then [] else [r]) + Retain(rules, id)
    ensures Retain([], id) == []
  {
    RetainCons(r, rules, id);
  }

  // ----- The built-in rules, sorted -----

  // A rule that is above all others that apply decides.
  lemma TopDecides(test: TextTest, rules: seq<Rule>, q: Request, k: nat)
    requires k < |rules| && Applies(test, rules[k], q)
    requires forall i :: 0 <= i < |rules| && i != k && Applies(test, rules[i], q) ==> rules[i].priority < rules[k].priority
    ensures FirstMatch(test, Sorted(rules), q) == Some(rules[k])
  {
    hide Applies, Best, Sorted;
    FirstMatchIsBest(test, rules, q);
    BestIsHighest(test, rules, q);
    assert rules[k] in rules;
    var i :| 0 <= i < |rules| && rules[i] == Best(test, rules, q).value;
    assert i == k;
  }

  // The path of the request is outside /tmp.
  predicate Outside(test: TextTest, q: Request) {
    "path" in q.context && test(Matches, q.context["path"], "^(?!/tmp/).*")
  }

  lemma DefaultApplies(test: TextTest, k: nat, q: Request)
    requires k < |DEFAULT_RULES|
    ensures Applies(test, DEFAULT_RULES[k], q) <==>
      match k
      case 0 => true
      case 1 => q.moduleName == "credential-verify" && q.action == Instantiate
      case 2 => q.moduleName == "did-resolve" && q.action == Instantiate
      case 3 => q.moduleName == "age-proof" && q.action == Instantiate
      case 4 => q.action.NetworkAccess?
      case _ => q.action == FileSystemAccess("/tmp/*") && Outside(test, q)
  {
    NoConditions(test, q.context);
    OneCondition(test, Condition("path", Matches, "^(?!/tmp/).*"), q.context);
    hide ConditionsHold;
  }

  lemma NoConditions(test: TextTest, context: map<string, string>)
    ensures ConditionsHold(test, [], context)
  {
  }

  // The rule that decides a request, by its number in the list.
  lemma DefaultTop(test: TextTest, q: Request) returns (top: nat)
    ensures top < |DEFAULT_RULES| && FirstMatch(test, Sorted(DEFAULT_RULES), q) == Some(DEFAULT_RULES[top])
    ensures top ==
      match q.action
      case Instantiate =>
        if q.moduleName == "credential-verify" then 1 else if q.moduleName == "did-resolve" then 2
        else if q.moduleName == "age-proof" then 3 else 0
      case NetworkAccess(_) => 4
      case FileSystemAccess(path) => if path == "/tmp/*" && Outside(test, q) then 5 else 0
      case _ => 0
  {
    top :=
      match q.action
      case Instantiate =>
        if q.moduleName == "credential-verify" then 1 else if q.moduleName == "did-resolve" then 2
        else if q.moduleName == "age-proof" then 3 else 0
      case NetworkAccess(_) => 4
      case FileSystemAccess(path) => if path == "/tmp/*" && Outside(test, q) then 5 else 0
      case _ => 0;
    forall k | 0 <= k < |DEFAULT_RULES|
      ensures Applies(test, DEFAULT_RULES[k], q) <==> k in {0, top}
    {
      DefaultApplies(test, k, q);
    }
    hide Applies;
    TopDecides(test, DEFAULT_RULES, q, top);
  }

  /** Network access is audited, for every module and target. */
  lemma DefaultsAuditNetwork(test: TextTest, modul: string, target: string, context: map<string, string>)
    ensures Decides(test, Sorted(DEFAULT_RULES), Request(modul, NetworkAccess(target), context), Audit)
  {
    var k := DefaultTop(test, Request(modul, NetworkAccess(target), context));
  }

  /** The three known modules may be instantiated and no others; every other action is denied. */
  lemma DefaultsAllow(test: TextTest, q: Request)
    requires !q.action.NetworkAccess?
    ensures Decides(test, Sorted(DEFAULT_RULES), q,
      if q.action == Instantiate && q.moduleName in {"credential-verify", "did-resolve", "age-proof"} then Allow else Deny)
  {
    var k := DefaultTop(test, q);
  }

  // The names the decisions are reported under.
  lemma DefaultNames(k: nat)
    requires k < |DEFAULT_RULES|
    ensures DEFAULT_RULES[k].id ==
      match k
      case 0 => "default-deny-all"
      case 1 => "allow-credential-verify"
      case 2 => "allow-did-resolve"
      case 3 => "allow-age-proof"
      case 4 => "audit-network-access"
      case _ => "deny-filesystem-external"
  {
  }

  /** Another applicable rule takes over if and only if its priority is above 100 where a module is
      allowed, 50 for network access, 90 for the one path that is denied, and 0 elsewhere. */
  lemma AddedToDefaults(test: TextTest, rule: Rule, q: Request)
    requires Applies(test, rule, q) && rule !in DEFAULT_RULES
    ensures FirstMatch(test, Sorted(DEFAULT_RULES + [rule]), q) == Some(rule) <==>
      rule.priority >
        match q.action
        case Instantiate => if q.moduleName in {"credential-verify", "did-resolve", "age-proof"} then 100 else 0
        case NetworkAccess(_) => 50
        case FileSystemAccess(path) => if path == "/tmp/*" && Outside(test, q) then 90 else 0
        case _ => 0
  {
    hide Sorted, Applies, Insert;
    var k := DefaultTop(test, q);
    SortedSnoc(DEFAULT_RULES, rule);
    SortedDescending(DEFAULT_RULES);
    FirstMatchInsert(test, Sorted(DEFAULT_RULES), rule, q);
  }
}
