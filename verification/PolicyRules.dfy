/** The policy engine: which rule acts on an event, and how a cooldown spaces its firings. */
module PolicyRules {
  import opened Machine
  import opened Patterns

  datatype Severity = Info | Low | Medium | High | Critical
  datatype Category = Exit | Wx | Pmu | PolicyEvent | Snapshot | Sensor
  datatype Mode = Enforce | DryRun | Suppress

  datatype Event = Event(vm: string, vmId: Option<string>, category: Category, severity: Severity,
                         reason: Option<string>, trapType: Option<string>, page: Option<string>)

  datatype Rule = Rule(enabled: bool, name: string, id: string, priority: int, cooldown: nat, mode: Mode,
                       kinds: seq<string>, category: Option<Category>, severityAtLeast: Option<Severity>,
                       trapType: Option<string>, vmPattern: Option<Pattern>, reasonPattern: Option<Pattern>)

  function Rank(s: Severity): nat {
    match s case Info => 0 case Low => 1 case Medium => 2 case High => 3 case Critical => 4
  }

  /** The severities at or above a threshold. */
  predicate AtLeast(s: Severity, threshold: Severity) {
    match threshold
    case Info => true
    case Low => s != Info
    case Medium => s != Info && s != Low
    case High => s == High || s == Critical
    case Critical => s == Critical
  }

  /** `rule_matches`. */
  predicate RuleMatches(r: Rule, ev: Event) {
    && (r.category.Some? ==> ev.category == r.category.value)
    && (r.severityAtLeast.Some? ==> AtLeast(ev.severity, r.severityAtLeast.value))
    && (r.trapType.Some? ==> ev.trapType == r.trapType)
    && (r.vmPattern.Some? ==>
          Accepts(r.vmPattern.value, ev.vm) || (ev.vmId.Some? && Accepts(r.vmPattern.value, ev.vmId.value)))
    && (r.reasonPattern.Some? ==> Accepts(r.reasonPattern.value, if ev.reason.Some? then ev.reason.value else ""))
  }

  // --- The order of the rules ---

  /** Names compare letter by letter, a prefix first. */
  predicate NameAtMost(a: string, b: string) {
    a == [] || (b != [] && (a[0] < b[0] || (a[0] == b[0] && NameAtMost(a[1..], b[1..]))))
  }

  /** The texts agree up to `k` and there the first has the smaller letter. */
  predicate SmallerAt(a: string, b: string, k: nat) {
    k < |a| && k < |b| && a[k] < b[k] && forall j :: 0 <= j < k ==> a[j] == b[j]
  }

  lemma SmallerBelow(a: string, b: string, k: nat)
    requires a != [] && b != [] && a[0] == b[0]
    ensures SmallerAt(a[1..], b[1..], k) <==> SmallerAt(a, b, k + 1)
  {
    var x, y := a[1..], b[1..];
    assert forall j :: 0 < j < |a| ==> a[j] == x[j - 1];
    assert forall j :: 0 < j < |b| ==> b[j] == y[j - 1];
    if SmallerAt(a, b, k + 1) {
      assert forall j :: 0 <= j < k ==> x[j] == a[j + 1] == b[j + 1] == y[j];
    }
  }

  /** That is: a prefix, or smaller at the first letter that differs. */
  lemma {:induction false} NamesExactly(a: string, b: string)
    ensures NameAtMost(a, b) <==> a <= b || exists k: nat :: SmallerAt(a, b, k)
  {
    if a != [] && b != [] {
      var x, y := a[1..], b[1..];
      if a[0] == b[0] {
        NamesExactly(x, y);
        assert a <= b <==> x <= y by { assert a == [a[0]] + x && b == [b[0]] + y; }
        forall k: nat ensures SmallerAt(x, y, k) <==> SmallerAt(a, b, k + 1) {
          SmallerBelow(a, b, k);
        }
        if k: nat :| SmallerAt(a, b, k) {
          assert SmallerAt(x, y, k - 1);
        }
      } else {
        assert a[0] < b[0] ==> SmallerAt(a, b, 0);
      }
    }
  }

  /** Higher priority first, then by name. */
  predicate Precedes(a: Rule, b: Rule) {
    a.priority > b.priority || (a.priority == b.priority && NameAtMost(a.name, b.name))
  }

  lemma {:induction false} NamesTotal(a: string, b: string)
    ensures NameAtMost(a, b) || NameAtMost(b, a)
  {
    if a != [] && b != [] && a[0] == b[0] {
      NamesTotal(a[1..], b[1..]);
    }
  }

  lemma {:induction false} NamesTransitive(a: string, b: string, c: string)
    requires NameAtMost(a, b) && NameAtMost(b, c)
    ensures NameAtMost(a, c)
  {
    if a != [] && a[0] == b[0] && b[0] == c[0] {
      NamesTransitive(a[1..], b[1..], c[1..]);
    }
  }

  lemma PrecedesTransitive(a: Rule, b: Rule, c: Rule)
    requires Precedes(a, b) && Precedes(b, c)
    ensures Precedes(a, c)
  {
    if a.priority == b.priority == c.priority {
      NamesTransitive(a.name, b.name, c.name);
    }
  }

  function EnabledOnly(rules: seq<Rule>): seq<Rule> {
    if rules == [] then [] else EnabledOnly(rules[..|rules| - 1]) + if rules[|rules| - 1].enabled
          then [rules[|rules| - 1]] else []
  }

  lemma {:induction false} EnabledElements(rules: seq<Rule>)
    ensures forall r :: r in EnabledOnly(rules) <==> r in rules && r.enabled
  {
    if rules != [] {
      var n := |rules| - 1;
      EnabledElements(rules[..n]);
      assert forall r :: r in rules <==> r in rules[..n] || r == rules[n];
    }
  }

  ghost predicate Ordered(rules: seq<Rule>) {
    forall i, j :: 0 <= i < j < |rules| ==> Precedes(rules[i], rules[j])
  }

  /** Where a stable sort puts a rule behind those already placed. */
  function InsertRule(sorted: seq<Rule>, r: Rule): seq<Rule> {
    if sorted == [] || Precedes(sorted[|sorted| - 1], r) then sorted + [r]
    else InsertRule(sorted[..|sorted| - 1], r) + [sorted[|sorted| - 1]]
  }

  lemma {:induction false} InsertKeepsAll(sorted: seq<Rule>, r: Rule)
    ensures multiset(InsertRule(sorted, r)) == multiset(sorted) + multiset{r}
  {
    hide Precedes;
    if !(sorted == [] || Precedes(sorted[|sorted| - 1], r)) {
      var n := |sorted| - 1;
      InsertKeepsAll(sorted[..n], r);
      assert sorted == sorted[..n] + [sorted[n]];
    }
  }

  lemma {:induction false} InsertElements(sorted: seq<Rule>, r: Rule)
    ensures forall q :: q in InsertRule(sorted, r) <==> q == r || q in sorted
  {
    hide Precedes;
    if !(sorted == [] || Precedes(sorted[|sorted| - 1], r)) {
      var n := |sorted| - 1;
      InsertElements(sorted[..n], r);
      assert forall q :: q in sorted <==> q in sorted[..n] || q == sorted[n];
    }
  }

  lemma {:induction false} InsertOrdered(sorted: seq<Rule>, r: Rule)
    requires Ordered(sorted)
    ensures Ordered(InsertRule(sorted, r))
  {
    var n := |sorted| - 1;
    if sorted == [] {
      assert InsertRule(sorted, r) == [r];
    } else if Precedes(sorted[n], r) {
      forall i | 0 <= i < n ensures Precedes(sorted[i], r) {
        PrecedesTransitive(sorted[i], sorted[n], r);
      }
      hide Precedes;
    } else {
      NamesTotal(r.name, sorted[n].name);
      assert Precedes(r, sorted[n]);
      hide Precedes;
      InsertOrdered(sorted[..n], r);
      InsertElements(sorted[..n], r);
      var front := InsertRule(sorted[..n], r);
      forall i | 0 <= i < |front| ensures Precedes(front[i], sorted[n]) {
        assert front[i] in front;
      }
    }
  }

  function SortRules(rules: seq<Rule>): seq<Rule> {
    if rules == [] then [] else InsertRule(SortRules(rules[..|rules| - 1]), rules[|rules| - 1])
  }

  lemma {:induction false} SortedRules(rules: seq<Rule>)
    ensures Ordered(SortRules(rules))
    ensures multiset(SortRules(rules)) == multiset(rules)
    ensures forall r :: r in SortRules(rules) <==> r in rules
  {
    hide Ordered, InsertRule;
    if rules == [] {
      EmptyIsOrdered();
    } else {
      var n := |rules| - 1;
      SortedRules(rules[..n]);
      InsertOrdered(SortRules(rules[..n]), rules[n]);
      InsertElements(SortRules(rules[..n]), rules[n]);
      InsertKeepsAll(SortRules(rules[..n]), rules[n]);
      assert rules == rules[..n] + [rules[n]];
      assert forall r :: r in rules <==> r in rules[..n] || r == rules[n];
    }
  }

  lemma EmptyIsOrdered()
    ensures Ordered([])
  {
  }

  /** The rules of an engine, from its configuration. */
  function EngineRules(configured: seq<Rule>): seq<Rule> {
    SortRules(EnabledOnly(configured))
  }

  function FirstMatch(rules: seq<Rule>, ev: Event): Option<Rule> {
    if rules == [] then None
    else if RuleMatches(rules[0], ev) then Some(rules[0])
    else FirstMatch(rules[1..], ev)
  }

  lemma {:induction false} FirstMatchIs(rules: seq<Rule>, ev: Event, i: nat)
    requires i <= |rules| && forall j :: 0 <= j < i ==> !RuleMatches(rules[j], ev)
    ensures FirstMatch(rules, ev) == FirstMatch(rules[i..], ev)
    decreases i
  {
    hide RuleMatches;
    if i > 0 {
      FirstMatchIs(rules[1..], ev, i - 1);
      assert rules[1..][i - 1..] == rules[i..];
    }
  }

  lemma {:induction false} FirstMatchWhere(rules: seq<Rule>, ev: Event) returns (i: nat)
    ensures i <= |rules| && forall j :: 0 <= j < i ==> !RuleMatches(rules[j], ev)
    ensures i < |rules| ==> RuleMatches(rules[i], ev)
    ensures FirstMatch(rules, ev) == if i < |rules| then Some(rules[i]) else None
  {
    hide RuleMatches;
    if rules == [] || RuleMatches(rules[0], ev) {
      i := 0;
    } else {
      var k := FirstMatchWhere(rules[1..], ev);
      i := k + 1;
      assert forall j :: 0 < j < i ==> rules[j] == rules[1..][j - 1];
    }
  }

  /** The better of the best so far and one more rule; a later rule must be strictly ahead. */
  ghost function Better(best: Option<Rule>, r: Rule, ev: Event): Option<Rule> {
    if !r.enabled || !RuleMatches(r, ev) then best
    else if best.Some? && Precedes(best.value, r) then best
    else Some(r)
  }

  ghost function Best(rules: seq<Rule>, ev: Event): Option<Rule> {
    if rules == [] then None else Better(Best(rules[..|rules| - 1], ev), rules[|rules| - 1], ev)
  }

  lemma {:induction false} FirstMatchAppend(rules: seq<Rule>, r: Rule, ev: Event)
    ensures FirstMatch(rules + [r], ev)
         == if FirstMatch(rules, ev).Some? then FirstMatch(rules, ev) else if RuleMatches(r, ev) then Some(r) else None
  {
    hide RuleMatches;
    if rules != [] {
      FirstMatchAppend(rules[1..], r, ev);
      assert (rules + [r])[1..] == rules[1..] + [r];
    }
  }

  lemma FirstMatchPrecedesLast(sorted: seq<Rule>, ev: Event)
    requires sorted != [] && Ordered(sorted) && FirstMatch(sorted, ev).Some?
    ensures Precedes(FirstMatch(sorted, ev).value, sorted[|sorted| - 1])
  {
    hide RuleMatches, Precedes, FirstMatch;
    var i := FirstMatchWhere(sorted, ev);
    SelfPrecedes(sorted[|sorted| - 1]);
  }

  /** Placing a rule among sorted ones makes it the first match exactly if it is better than the one before. */
  lemma {:induction false} FirstMatchInsert(sorted: seq<Rule>, r: Rule, ev: Event)
    requires Ordered(sorted) && r.enabled
    ensures FirstMatch(InsertRule(sorted, r), ev) == Better(FirstMatch(sorted, ev), r, ev)
  {
    if sorted == [] {
      FirstMatchAppend([], r, ev);
    } else {
      var n := |sorted| - 1;
      var front, last := sorted[..n], sorted[n];
      assert sorted == front + [last];
      FirstMatchAppend(front, last, ev);
      if Precedes(last, r) {
        FirstMatchAppend(sorted, r, ev);
        if FirstMatch(sorted, ev).Some? {
          FirstMatchPrecedesLast(sorted, ev);
          PrecedesTransitive(FirstMatch(sorted, ev).value, last, r);
        }
        hide FirstMatch, RuleMatches, Precedes;
      } else {
        FirstMatchInsert(front, r, ev);
        FirstMatchAppend(InsertRule(front, r), last, ev);
        hide FirstMatch, RuleMatches, Precedes;
      }
    }
  }

  lemma {:induction false} FirstMatchIsBest(rules: seq<Rule>, ev: Event)
    requires forall r :: r in rules ==> r.enabled
    ensures FirstMatch(SortRules(rules), ev) == Best(rules, ev)
  {
    hide FirstMatch, Better, InsertRule, Ordered;
    if rules == [] {
      NoMatchLeft(SortRules(rules), ev);
    } else {
      var n := |rules| - 1;
      FirstMatchIsBest(rules[..n], ev);
      SortedRules(rules[..n]);
      FirstMatchInsert(SortRules(rules[..n]), rules[n], ev);
    }
  }

  lemma {:induction false} BestOfEnabled(rules: seq<Rule>, ev: Event)
    ensures Best(EnabledOnly(rules), ev) == Best(rules, ev)
  {
    hide RuleMatches, Precedes;
    if rules != [] {
      var n := |rules| - 1;
      BestOfEnabled(rules[..n], ev);
      var front := EnabledOnly(rules[..n]);
      assert (front + [rules[n]])[..|front|] == front;
      assert front + [] == front;
    }
  }

  /** An enabled match that no other precedes, and that every earlier one follows strictly. */
  ghost predicate Foremost(rules: seq<Rule>, k: nat, ev: Event)
    requires k < |rules|
  {
    && rules[k].enabled && RuleMatches(rules[k], ev)
    && (forall j :: 0 <= j < |rules| && rules[j].enabled && RuleMatches(rules[j], ev) ==>
          && rules[k].priority >= rules[j].priority
          && (rules[k].priority == rules[j].priority ==> NameAtMost(rules[k].name, rules[j].name))
          && (rules[k].priority == rules[j].priority && rules[k].name == rules[j].name ==> k <= j))
  }

  /** The same in terms of the order the rules are sorted by. */
  ghost predicate Leads(rules: seq<Rule>, k: nat, ev: Event)
    requires k < |rules|
  {
    && rules[k].enabled && RuleMatches(rules[k], ev)
    && (forall j :: 0 <= j < |rules| && rules[j].enabled && RuleMatches(rules[j], ev) ==> Precedes(rules[k], rules[j]))
    && (forall j :: 0 <= j < k && rules[j].enabled && RuleMatches(rules[j], ev) ==> !Precedes(rules[j], rules[k]))
  }

  lemma LeadsIsForemost(rules: seq<Rule>, k: nat, ev: Event)
    requires k < |rules| && Leads(rules, k, ev)
    ensures Foremost(rules, k, ev)
  {
    hide RuleMatches;
    NamesTotal(rules[k].name, rules[k].name);
    hide NameAtMost;
  }

  lemma {:induction false} BestLeads(rules: seq<Rule>, ev: Event) returns (k: nat)
    ensures Best(rules, ev).None? ==> forall j :: 0 <= j < |rules| ==> !(rules[j].enabled && RuleMatches(rules[j], ev))
    ensures Best(rules, ev).Some? ==> k < |rules| && rules[k] == Best(rules, ev).value && Leads(rules, k, ev)
  {
    k := 0;
    if rules != [] {
      var n := |rules| - 1;
      var front, r := rules[..n], rules[n];
      k := BestLeads(front, ev);
      SelfPrecedes(r);
      var best := Best(front, ev);
      if best.Some? && r.enabled && RuleMatches(r, ev) && !Precedes(best.value, r) {
        NamesTotal(best.value.name, r.name);
        forall j | 0 <= j < n && rules[j].enabled && RuleMatches(rules[j], ev)
          ensures Precedes(r, rules[j]) && !Precedes(rules[j], r)
        {
          PrecedesTransitive(r, best.value, rules[j]);
          if Precedes(rules[j], r) {
            PrecedesTransitive(best.value, rules[j], r);
          }
        }
      }
      hide RuleMatches, Precedes;
      if best != Best(rules, ev) {
        k := n;
      }
    }
  }

  /** The acting rule is the foremost of the configured ones: by priority, then by name, then as configured. */
  lemma ActingRule(configured: seq<Rule>, ev: Event)
    ensures var acting := FirstMatch(EngineRules(configured), ev);
            && (acting.None? <==>
                forall j :: 0 <= j < |configured| && configured[j].enabled ==> !RuleMatches(configured[j], ev))
            && (acting.Some? ==>
                exists k :: 0 <= k < |configured| && acting.value == configured[k] && Foremost(configured, k, ev))
  {
    EnabledElements(configured);
    FirstMatchIsBest(EnabledOnly(configured), ev);
    BestOfEnabled(configured, ev);
    hide RuleMatches, FirstMatch, SortRules, EnabledOnly, Best;
    var k := BestLeads(configured, ev);
    if Best(configured, ev).Some? { LeadsIsForemost(configured, k, ev); }
  }

  lemma SelfPrecedes(r: Rule)
    ensures Precedes(r, r)
  {
    NamesTotal(r.name, r.name);
  }

  // --- Cooldown ---

  datatype Key = Key(ruleId: string, vmScope: string, reason: string, trapType: string, page: string, kinds: string)

  function Or(text: Option<string>, other: string): string {
    if text.Some? then text.value else other
  }

  function JoinKinds(kinds: seq<string>): string {
    if kinds == [] then "" else if |kinds| == 1 then kinds[0] else kinds[0] + "+" + JoinKinds(kinds[1..])
  }

  /** `cooldown_key`. */
  function KeyOf(r: Rule, ev: Event): Key {
    Key(r.id, Or(ev.vmId, ev.vm), Or(ev.reason, ""), Or(ev.trapType, ""), Or(ev.page, ""), JoinKinds(r.kinds))
  }

  /** What a cooldown holds apart: the VM of an event is its id, or its name without one. */
  function VmOf(ev: Event): string {
    match ev.vmId case Some(id) => id case None => ev.vm
  }

  predicate SameText(a: Option<string>, b: Option<string>) {
    match (a, b)
    case (Some(x), Some(y)) => x == y
    case (Some(x), None) => x == ""
    case (None, Some(y)) => y == ""
    case (None, None) => true
  }

  /** Two matches share a cooldown exactly when they agree on the rule's id and action kinds, and on the VM, the reason,
      the trap type and the page of the event. */
  lemma KeysExactly(r: Rule, a: Event, q: Rule, b: Event)
    ensures KeyOf(r, a) == KeyOf(q, b) <==>
            && r.id == q.id && VmOf(a) == VmOf(b) && SameText(a.reason, b.reason) && SameText(a.trapType, b.trapType)
            && SameText(a.page, b.page) && JoinKinds(r.kinds) == JoinKinds(q.kinds)
  {
  }

  predicate Plain(kinds: seq<string>) {
    forall i :: 0 <= i < |kinds| ==> kinds[i] != "" && '+' !in kinds[i]
  }

  /** Kinds are joined without loss, if none is empty or has a plus sign. */
  lemma {:induction false} JoinedExactly(a: seq<string>, b: seq<string>)
    requires Plain(a) && Plain(b)
    ensures JoinKinds(a) == JoinKinds(b) <==> a == b
    decreases |a|
  {
    if a != [] && b != [] && JoinKinds(a) == JoinKinds(b) {
      FirstKind(a);
      FirstKind(b);
      SameHead(a, b);
      if |a| > 1 && |b| > 1 {
        assert JoinKinds(a)[|a[0]| + 1..] == JoinKinds(a[1..]);
        assert JoinKinds(b)[|b[0]| + 1..] == JoinKinds(b[1..]);
        JoinedExactly(a[1..], b[1..]);
        assert a == [a[0]] + a[1..] && b == [b[0]] + b[1..];
      } else {
        assert |a| == 1 ==> a == [a[0]];
        assert |b| == 1 ==> b == [b[0]];
      }
    }
  }

  /** The joined text starts with the first kind, and a plus sign if there are more. */
  lemma FirstKind(kinds: seq<string>)
    requires kinds != [] && Plain(kinds)
    ensures var text := JoinKinds(kinds);
            && kinds[0] <= text && kinds[0] != ""
            && (|kinds| == 1 <==> |text| == |kinds[0]|)
            && (|kinds| > 1 ==> text[|kinds[0]|] == '+')
            && forall i :: 0 <= i < |kinds[0]| ==> text[i] != '+'
  {
    assert forall i :: 0 <= i < |kinds[0]| ==> kinds[0][i] in kinds[0];
  }

  lemma SameHead(a: seq<string>, b: seq<string>)
    requires a != [] && b != [] && Plain(a) && Plain(b) && JoinKinds(a) == JoinKinds(b)
    ensures a[0] == b[0] && (|a| == 1 <==> |b| == 1)
  {
    FirstKind(a);
    FirstKind(b);
    hide JoinKinds, Plain;
    var text := JoinKinds(a);
    assert |a[0]| == |b[0]|;
    assert a[0] == text[..|a[0]|] && b[0] == text[..|b[0]|];
  }

  datatype Call = Call(now: nat, ev: Event)
  datatype Decision = Ignored | Unmatched | Cooling(rule: Rule) | Fired(rule: Rule)

  datatype Setup = Setup(rules: seq<Rule>, ignore: seq<Pattern>)

  predicate Ignores(ignore: seq<Pattern>, vm: string) {
    exists i :: 0 <= i < |ignore| && Accepts(ignore[i], vm)
  }

  function Elapsed(now: nat, then_: nat): nat {
    if now >= then_ then now - then_ else 0
  }

  predicate Cooled(last: map<Key, nat>, r: Rule, call: Call) {
    r.cooldown > 0 && KeyOf(r, call.ev) in last && Elapsed(call.now, last[KeyOf(r, call.ev)]) < r.cooldown
  }

  /** What one call to `apply` decides. */
  function Decide(s: Setup, last: map<Key, nat>, call: Call): Decision {
    if Ignores(s.ignore, call.ev.vm) then Ignored
    else
      var acting := FirstMatch(s.rules, call.ev);
      if acting.None? then Unmatched
      else if Cooled(last, acting.value, call) then Cooling(acting.value)
      else Fired(acting.value)
  }

  ghost predicate FirstAt(rules: seq<Rule>, i: nat, ev: Event, r: Rule)
    requires i < |rules|
  {
    r == rules[i] && RuleMatches(r, ev) && forall j :: 0 <= j < i ==> !RuleMatches(rules[j], ev)
  }

  /** A call is ignored exactly for a VM name some ignore pattern accepts; otherwise the first rule to match decides. */
  lemma {:induction false} DecideExactly(s: Setup, last: map<Key, nat>, call: Call)
    ensures var d := Decide(s, last, call);
            && (d == Ignored <==> exists i :: 0 <= i < |s.ignore| && Accepts(s.ignore[i], call.ev.vm))
            && (d == Unmatched ==> forall i :: 0 <= i < |s.rules| ==> !RuleMatches(s.rules[i], call.ev))
            && (d.Fired? || d.Cooling? ==> exists i :: 0 <= i < |s.rules| && FirstAt(s.rules, i, call.ev, d.rule))
  {
    hide RuleMatches, Accepts, Cooled;
    var k := MatchIndex(s.rules, call.ev);
    var acting := FirstMatch(s.rules, call.ev);
    assert acting.Some? ==> FirstAt(s.rules, k, call.ev, acting.value);
  }

  lemma {:induction false} MatchIndex(rules: seq<Rule>, ev: Event) returns (k: nat)
    ensures FirstMatch(rules, ev).None? ==> forall i :: 0 <= i < |rules| ==> !RuleMatches(rules[i], ev)
    ensures FirstMatch(rules, ev).Some? ==>
              k < |rules| && FirstMatch(rules, ev) == Some(rules[k]) && RuleMatches(rules[k], ev)
              && forall j :: 0 <= j < k ==> !RuleMatches(rules[j], ev)
  {
    hide RuleMatches;
    k := 0;
    if rules != [] && !RuleMatches(rules[0], ev) {
      k := MatchIndex(rules[1..], ev);
      assert forall j :: 1 <= j < |rules| ==> rules[j] == rules[1..][j - 1];
      k := k + 1;
    }
  }

  function Advance(last: map<Key, nat>, call: Call, d: Decision): map<Key, nat> {
    if d.Fired? && d.rule.cooldown > 0 then last[KeyOf(d.rule, call.ev) := call.now] else last
  }

  /** The table of last firings after a run of calls. */
  function After(s: Setup, calls: seq<Call>): map<Key, nat> {
    if calls == [] then map[]
    else
      var front, call := calls[..|calls| - 1], calls[|calls| - 1];
      Advance(After(s, front), call, Decide(s, After(s, front), call))
  }

  function DecisionAt(s: Setup, calls: seq<Call>, i: nat): Decision
    requires i < |calls|
  {
    Decide(s, After(s, calls[..i]), calls[i])
  }

  /** The call at `i` fired a rule with a cooldown under this key. */
  ghost predicate FiredAt(s: Setup, calls: seq<Call>, i: nat, key: Key)
    requires i < |calls|
  {
    var d := DecisionAt(s, calls, i);
    d.Fired? && d.rule.cooldown > 0 && KeyOf(d.rule, calls[i].ev) == key
  }

  lemma PrefixDecision(s: Setup, calls: seq<Call>, n: nat, i: nat, key: Key)
    requires i < n <= |calls|
    ensures DecisionAt(s, calls[..n], i) == DecisionAt(s, calls, i)
    ensures FiredAt(s, calls[..n], i, key) <==> FiredAt(s, calls, i, key)
  {
    assert calls[..n][..i] == calls[..i];
  }

  /** The table holds, for each key, the time of its last firing. */
  lemma {:induction false} TableIsLastFiring(s: Setup, calls: seq<Call>, key: Key) returns (m: nat)
    ensures key !in After(s, calls) ==> forall i :: 0 <= i < |calls| ==> !FiredAt(s, calls, i, key)
    ensures key in After(s, calls) ==>
              m < |calls| && FiredAt(s, calls, m, key) && After(s, calls)[key] == calls[m].now
              && forall i :: m < i < |calls| ==> !FiredAt(s, calls, i, key)
  {
    hide Decide, KeyOf;
    m := 0;
    if calls != [] {
      var n := |calls| - 1;
      var front, d := calls[..n], DecisionAt(s, calls, n);
      forall i | 0 <= i < n ensures FiredAt(s, front, i, key) <==> FiredAt(s, calls, i, key) {
        PrefixDecision(s, calls, n, i, key);
      }
      m := TableIsLastFiring(s, front, key);
      if FiredAt(s, calls, n, key) {
        m := n;
      }
    }
  }

  ghost predicate Monotone(calls: seq<Call>) {
    forall i, j :: 0 <= i < j < |calls| ==> calls[i].now <= calls[j].now
  }

  /**
   * Over every run with a clock that does not go back: a match is suppressed exactly when some earlier firing under its
   * key is less than the rule's cooldown ago. Suppressed matches themselves never count.
   */
  lemma CooledExactly(s: Setup, calls: seq<Call>, j: nat)
    requires j < |calls| && Monotone(calls)
    requires DecisionAt(s, calls, j).Fired? || DecisionAt(s, calls, j).Cooling?
    ensures var r := DecisionAt(s, calls, j).rule;
            DecisionAt(s, calls, j).Cooling? <==>
            exists i :: 0 <= i < j && FiredAt(s, calls, i, KeyOf(r, calls[j].ev))
                  && calls[j].now < calls[i].now + r.cooldown
  {
    hide KeyOf, After, FirstMatch, Ignores;
    var r := DecisionAt(s, calls, j).rule;
    var key := KeyOf(r, calls[j].ev);
    var m := TableIsLastFiring(s, calls[..j], key);
    forall i | 0 <= i < j ensures FiredAt(s, calls[..j], i, key) <==> FiredAt(s, calls, i, key) {
      PrefixDecision(s, calls, j, i, key);
    }
    hide FiredAt;
    if key in After(s, calls[..j]) {
      assert FiredAt(s, calls, m, key) && calls[m].now <= calls[j].now;
      assert forall i :: 0 <= i < j && FiredAt(s, calls, i, key) ==> calls[i].now <= calls[m].now;
    }
  }

  /** Two firings under one key lie at least the later rule's cooldown apart, if the earlier rule has a cooldown at
      all. */
  lemma FiringsAreSpaced(s: Setup, calls: seq<Call>, i: nat, j: nat)
    requires i < j < |calls| && Monotone(calls)
    requires DecisionAt(s, calls, i).Fired? && DecisionAt(s, calls, j).Fired?
    requires KeyOf(DecisionAt(s, calls, i).rule, calls[i].ev) == KeyOf(DecisionAt(s, calls, j).rule, calls[j].ev)
    requires DecisionAt(s, calls, i).rule.cooldown > 0
    ensures calls[i].now + DecisionAt(s, calls, j).rule.cooldown <= calls[j].now
  {
    hide KeyOf, Decide, After;
    CooledExactly(s, calls, j);
  }

  /** In every run, whenever `first` and later `second` fire their rules, the times are `cooldown` apart. */
  ghost predicate AlwaysSpaced(s: Setup, first: Event, second: Event, cooldown: nat) {
    forall calls: seq<Call>, i, j ::
      (0 <= i < j < |calls| && Monotone(calls) && calls[i].ev == first && calls[j].ev == second
       && DecisionAt(s, calls, i).Fired? && DecisionAt(s, calls, j).Fired?)
      ==> calls[i].now + cooldown <= calls[j].now
  }

  /** For two events under one key, that spacing holds exactly when the first rule has a cooldown, or the second has
      none. */
  lemma SpacedExactly(s: Setup, first: Event, second: Event, a: Rule, b: Rule)
    requires !Ignores(s.ignore, first.vm) && !Ignores(s.ignore, second.vm)
    requires FirstMatch(s.rules, first) == Some(a) && FirstMatch(s.rules, second) == Some(b)
    requires KeyOf(a, first) == KeyOf(b, second)
    ensures AlwaysSpaced(s, first, second, b.cooldown) <==> a.cooldown > 0 || b.cooldown == 0
  {
    hide KeyOf, FirstMatch, Ignores;
    if a.cooldown > 0 || b.cooldown == 0 {
      forall calls: seq<Call>, i, j | 0 <= i < j < |calls| && Monotone(calls) && calls[i].ev == first
            && calls[j].ev == second
                           && DecisionAt(s, calls, i).Fired? && DecisionAt(s, calls, j).Fired?
        ensures calls[i].now + b.cooldown <= calls[j].now
      {
        if a.cooldown > 0 {
          FiringsAreSpaced(s, calls, i, j);
        }
      }
    } else {
      var calls := [Call(0, first), Call(0, second)];
      assert calls[..0] == [] && calls[..1] == [calls[0]] && [calls[0]][..0] == [];
      assert Decide(s, map[], calls[0]) == Fired(a);
      assert After(s, [calls[0]]) == map[];
      assert DecisionAt(s, calls, 0).Fired? && DecisionAt(s, calls, 1).Fired?;
    }
  }

  /** The calls for one VM. */
  function ForVm(calls: seq<Call>, vm: string): seq<Call> {
    if calls == [] then []
    else
      var front, call := ForVm(calls[..|calls| - 1], vm), calls[|calls| - 1];
      if VmOf(call.ev) == vm then front + [call] else front
  }

  /** The tables agree on every key of the VM. */
  ghost predicate AgreeOn(a: map<Key, nat>, b: map<Key, nat>, vm: string) {
    forall key: Key :: key.vmScope == vm ==> (key in a <==> key in b) && (key in a ==> a[key] == b[key])
  }

  lemma ScopeIsVm(r: Rule, ev: Event)
    ensures KeyOf(r, ev).vmScope == VmOf(ev)
  {
  }

  lemma DecideForVm(s: Setup, a: map<Key, nat>, b: map<Key, nat>, call: Call)
    requires AgreeOn(a, b, VmOf(call.ev))
    ensures Decide(s, a, call) == Decide(s, b, call)
  {
    hide FirstMatch, Ignores, KeyOf;
    var acting := FirstMatch(s.rules, call.ev);
    if acting.Some? { ScopeIsVm(acting.value, call.ev); }
  }

  lemma AdvanceForVm(a: map<Key, nat>, b: map<Key, nat>, call: Call, d: Decision, vm: string)
    requires AgreeOn(a, b, vm)
    ensures AgreeOn(Advance(a, call, d), if VmOf(call.ev) == vm then Advance(b, call, d) else b, vm)
  {
    if d.Fired? { ScopeIsVm(d.rule, call.ev); }
    hide KeyOf, VmOf;
  }

  lemma {:induction false} TablesForVm(s: Setup, calls: seq<Call>, vm: string)
    ensures AgreeOn(After(s, calls), After(s, ForVm(calls, vm)), vm)
  {
    hide Decide, Advance, AgreeOn;
    if calls == [] {
      SameTables(map[], vm);
    } else {
      var n := |calls| - 1;
      var front, call := calls[..n], calls[n];
      TablesForVm(s, front, vm);
      var a, b := After(s, front), After(s, ForVm(front, vm));
      AdvanceForVm(a, b, call, Decide(s, a, call), vm);
      if VmOf(call.ev) == vm {
        DecideForVm(s, a, b, call);
        assert (ForVm(front, vm) + [call])[..|ForVm(front, vm)|] == ForVm(front, vm);
      }
    }
  }

  lemma SameTables(a: map<Key, nat>, vm: string)
    ensures AgreeOn(a, a, vm)
  {
  }

  /** VMs do not share cooldowns: what is decided for a call depends only on the earlier calls for its own VM. */
  lemma OtherVmsIrrelevant(s: Setup, calls: seq<Call>, j: nat)
    requires j < |calls|
    ensures DecisionAt(s, calls, j) == Decide(s, After(s, ForVm(calls[..j], VmOf(calls[j].ev))), calls[j])
  {
    var vm := VmOf(calls[j].ev);
    TablesForVm(s, calls[..j], vm);
    hide Decide, AgreeOn, After, ForVm, VmOf;
    DecideForVm(s, After(s, calls[..j]), After(s, ForVm(calls[..j], vm)), calls[j]);
  }

  // Rule ids need not be unique: a rule without a cooldown leaves no trace for a namesake with one.
  const EAGER := Rule(true, "a", "r", 1, 0, Enforce, [], None, Some(High), None, None, None)
  const PATIENT := Rule(true, "b", "r", 0, 10, Enforce, [], None, None, None, None, None)

  const EARLY := Call(5, Event("vm", None, Wx, High, None, None, None))
  const LATE := Call(6, Event("vm", None, Wx, Low, None, None, None))

  lemma NamesakeOrder()
    ensures EngineRules([EAGER, PATIENT]) == [EAGER, PATIENT]
  {
    var both := [EAGER, PATIENT];
    assert both[..1] == [EAGER] && [EAGER][..0] == [];
    assert EnabledOnly([EAGER]) == [EAGER] && EnabledOnly(both) == both;
    assert SortRules([EAGER]) == [EAGER];
    assert Precedes(EAGER, PATIENT);
    assert InsertRule([EAGER], PATIENT) == both;
  }

  lemma NamesakeMatches()
    ensures FirstMatch([EAGER, PATIENT], EARLY.ev) == Some(EAGER)
    ensures FirstMatch([EAGER, PATIENT], LATE.ev) == Some(PATIENT)
    ensures KeyOf(EAGER, EARLY.ev) == KeyOf(PATIENT, LATE.ev)
  {
    assert [EAGER, PATIENT][1..] == [PATIENT];
  }

  lemma NamesakeIsNotSpaced()
    ensures var s, calls := Setup(EngineRules([EAGER, PATIENT]), []), [EARLY, LATE];
            && Monotone(calls)
            && DecisionAt(s, calls, 0) == Fired(EAGER) && DecisionAt(s, calls, 1) == Fired(PATIENT)
            && KeyOf(EAGER, calls[0].ev) == KeyOf(PATIENT, calls[1].ev)
            && calls[1].now < calls[0].now + PATIENT.cooldown
  {
    hide KeyOf, FirstMatch, EngineRules;
    NamesakeOrder();
    NamesakeMatches();
    var s, calls := Setup([EAGER, PATIENT], []), [EARLY, LATE];
    assert calls[..0] == [] && calls[..1] == [EARLY] && [EARLY][..0] == [];
    assert Decide(s, map[], EARLY) == Fired(EAGER);
    assert After(s, [EARLY]) == map[];
  }

  // --- The engine ---

  datatype Response = NoResponse | CooldownSuppressed(id: string) | ModeSuppressed(id: string) | NoAction(id: string)
                    | Actions(id: string, kinds: seq<string>, execute: bool)

  function Respond(d: Decision): Response {
    match d
    case Ignored => NoResponse
    case Unmatched => NoResponse
    case Cooling(r) => CooldownSuppressed(r.id)
    case Fired(r) =>
      if r.mode == Suppress then ModeSuppressed(r.id)
      else if r.kinds == [] then NoAction(r.id)
      else Actions(r.id, r.kinds, r.mode == Enforce)
  }

  /** Actions are run exactly for a firing of a rule that has some and does not suppress, and executed exactly if the
      rule enforces. */
  lemma ExecutedExactly(d: Decision)
    ensures var r := Respond(d);
            && (r.Actions? <==> d.Fired? && d.rule.mode in {Enforce, DryRun} && d.rule.kinds != [])
            && (r.Actions? ==> r.id == d.rule.id && r.kinds == d.rule.kinds && (r.execute <==> d.rule.mode == Enforce))
            && (r.ModeSuppressed? <==> d.Fired? && d.rule.mode == Suppress)
            && (r.CooldownSuppressed? <==> d.Cooling?)
            && (r == NoResponse <==> d == Ignored || d == Unmatched)
  {
  }

  predicate WellFormedPattern(p: Pattern) {
    forall i :: 0 <= i < |p.alts| ==> p.alts[i].parts != []
  }

  predicate WellFormedRule(r: Rule) {
    (r.vmPattern.Some? ==> WellFormedPattern(r.vmPattern.value))
          && (r.reasonPattern.Some? ==> WellFormedPattern(r.reasonPattern.value))
  }

  method TestRule(r: Rule, ev: Event) returns (b: bool)
    requires WellFormedRule(r)
    ensures b <==> RuleMatches(r, ev)
  {
    hide Accepts;
    if r.category.Some? && ev.category != r.category.value { return false; }
    if r.severityAtLeast.Some? && Rank(ev.severity) < Rank(r.severityAtLeast.value) { return false; }
    if r.trapType.Some? && ev.trapType != r.trapType { return false; }
    if r.vmPattern.Some? {
      var byId := false;
      if ev.vmId.Some? { byId := IsMatch(r.vmPattern.value, ev.vmId.value); }
      var byName := IsMatch(r.vmPattern.value, ev.vm);
      if !byName && !byId { return false; }
    }
    if r.reasonPattern.Some? {
      var byReason := IsMatch(r.reasonPattern.value, if ev.reason.Some? then ev.reason.value else "");
      if !byReason { return false; }
    }
    b := true;
  }

  method ShouldIgnore(ignore: seq<Pattern>, vm: string) returns (r: bool)
    requires forall i :: 0 <= i < |ignore| ==> WellFormedPattern(ignore[i])
    ensures r <==> Ignores(ignore, vm)
  {
    hide Accepts;
    for i := 0 to |ignore|
      invariant forall j :: 0 <= j < i ==> !Accepts(ignore[j], vm)
    {
      r := IsMatch(ignore[i], vm);
      if r { return; }
    }
    r := false;
  }

  class Engine {
    const setup: Setup
    var lastFired: map<Key, nat>
    ghost var calls: seq<Call>

    ghost predicate Valid()
      reads this
    {
      && lastFired == After(setup, calls)
      && (forall i :: 0 <= i < |setup.rules| ==> WellFormedRule(setup.rules[i]))
      && (forall i :: 0 <= i < |setup.ignore| ==> WellFormedPattern(setup.ignore[i]))
    }

    constructor (configured: seq<Rule>, ignore: seq<Pattern>)
      requires forall r :: r in configured ==> WellFormedRule(r)
      requires forall i :: 0 <= i < |ignore| ==> WellFormedPattern(ignore[i])
      ensures Valid() && setup == Setup(EngineRules(configured), ignore) && calls == []
    {
      setup, lastFired, calls := Setup(EngineRules(configured), ignore), map[], [];
      new;
      hide WellFormedRule, SortRules, EnabledOnly;
      EnabledElements(configured);
      SortedRules(EnabledOnly(configured));
      assert forall i :: 0 <= i < |setup.rules| ==> setup.rules[i] in setup.rules;
    }

    /** The response, and the table of last firings, are those of the decision for this call after all earlier ones. */
    method Apply(call: Call) returns (r: Response)
      requires Valid()
      modifies this`lastFired, this`calls
      ensures Valid() && calls == old(calls) + [call]
      ensures r == Respond(DecisionAt(setup, calls, |calls| - 1))
      ensures lastFired == Advance(old(lastFired), call, DecisionAt(setup, calls, |calls| - 1))
      // Nothing is executed but what the first matching rule asks for, and only if it enforces.
      ensures r.Actions? ==> var acting := FirstMatch(setup.rules, call.ev);
                acting.Some? && r.kinds == acting.value.kinds && (r.execute <==> acting.value.mode == Enforce)
    {
      hide KeyOf, Ignores, RuleMatches, FirstMatch, WellFormedRule, WellFormedPattern;
      ghost var all := calls + [call];
      assert all[..|calls|] == calls;
      calls := all;
      var ignored := ShouldIgnore(setup.ignore, call.ev.vm);
      if ignored { return NoResponse; }
      var i := 0;
      while i < |setup.rules|
        invariant 0 <= i <= |setup.rules| && calls == all && lastFired == old(lastFired)
        invariant forall j :: 0 <= j < i ==> !RuleMatches(setup.rules[j], call.ev)
      {
        var rule := setup.rules[i];
        var matched := TestRule(rule, call.ev);
        if matched {
          FirstMatchIs(setup.rules, call.ev, i);
          MatchHere(setup.rules[i..], call.ev);
          if rule.cooldown > 0 {
            var key := KeyOf(rule, call.ev);
            if key in lastFired && Elapsed(call.now, lastFired[key]) < rule.cooldown {
              return CooldownSuppressed(rule.id);
            }
            lastFired := lastFired[key := call.now];
          }
          if rule.mode == Suppress { return ModeSuppressed(rule.id); }
          if rule.kinds == [] { return NoAction(rule.id); }
          return Actions(rule.id, rule.kinds, rule.mode == Enforce);
        }
        i := i + 1;
      }
      FirstMatchIs(setup.rules, call.ev, i);
      NoMatchLeft(setup.rules[i..], call.ev);
      r := NoResponse;
    }
  }

  lemma MatchHere(rules: seq<Rule>, ev: Event)
    requires rules != [] && RuleMatches(rules[0], ev)
    ensures FirstMatch(rules, ev) == Some(rules[0])
  {
  }

  lemma NoMatchLeft(rules: seq<Rule>, ev: Event)
    requires rules == []
    ensures FirstMatch(rules, ev) == None
  {
  }
}
