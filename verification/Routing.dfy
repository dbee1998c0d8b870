/** The routing engine: rules in order of priority, the first that matches decides. */
module Routing {
  import opened Text
  import opened Ip
  import opened Sorting

  datatype Action = Proxy | Direct | Block

  datatype RuleType = Domain | DomainSuffix | DomainKeyword | IpAddress | Cidr | GeoIp | GeoSite

  datatype Rule = Rule(name: string, ruleType: RuleType, pattern: string, action: Action, priority: int, enabled: bool)

  /** The comparison of `sortRules`: by priority, then by name as `localeCompare` collates it, which `collate` ranks. */
  predicate Before(a: Rule, b: Rule, collate: string -> real) {
    a.priority < b.priority || (a.priority == b.priority && collate(a.name) <= collate(b.name))
  }

  function ByPriority(collate: string -> real): (Rule, Rule) -> bool { (a, b) => Before(a, b, collate) }

  function Enabled(): Rule -> bool { (r: Rule) => r.enabled }

  /** `sortRules` */
  function SortRules(rules: seq<Rule>, collate: string -> real): seq<Rule> {
    Sorted(Filter(rules, Enabled()), ByPriority(collate))
  }

  /** `s.replace(/\.$/, '')` */
  function StripDot(s: string): string { if s != "" && s[|s| - 1] == '.' then s[..|s| - 1] else s }

  /** `s.replace(/^\./, '')` */
  function StripLeadingDot(s: string): string { if s != "" && s[0] == '.' then s[1..] else s }

  /** `normalizeDomain` */
  function NormalizeDomain(value: string): string { StripDot(ToLower(Trim(value))) }

  /** `domain === suffix || domain.endsWith('.' + suffix)` */
  predicate HasSuffix(domain: string, suffix: string) { domain == suffix || EndsWith(domain, "." + suffix) }

  /** `ruleMatches`; `None` is an error thrown by `ipInCidr`. */
  function RuleMatches(rule: Rule, target: string, number: string -> JsNumber): Option<bool> {
    var value := Trim(target);
    if value == "" then Some(false)
    else
      match rule.ruleType
      case Domain => Some(NormalizeDomain(value) == NormalizeDomain(rule.pattern))
      case DomainSuffix => Some(HasSuffix(NormalizeDomain(value), StripLeadingDot(NormalizeDomain(rule.pattern))))
      case DomainKeyword => Some(Includes(NormalizeDomain(value), NormalizeDomain(rule.pattern)))
      case IpAddress => Some(value == Trim(rule.pattern))
      case Cidr => IpInCidr(value, Trim(rule.pattern), number)
      case GeoIp => Some(false)
      case GeoSite => Some(false)
  }

  // ---------------------------------------------------------------- domain rules, without their normalising

  /** `name` is `text` in lower case and without a final dot. */
  predicate Names(text: string, name: string) {
    if text != "" && text[|text| - 1] == '.' then ToLower(text) == name + "." else ToLower(text) == name
  }

  /** What is typed for a name: in any case, with a final dot or without, with white space around. */
  ghost predicate Types(typed: string, name: string) { exists text :: Around(typed, text) && Names(text, name) }

  lemma {:induction false} TypesIff(typed: string, name: string)
    ensures Types(typed, name) <==> NormalizeDomain(typed) == name
  {
    var text := Trim(typed);
    TrimIff(typed, text);
    NamesIff(text, name);
    if Types(typed, name) {
      var t :| Around(typed, t) && Names(t, name);
      TrimIff(typed, t);
    }
  }

  lemma {:induction false} NamesIff(text: string, name: string)
    ensures Names(text, name) <==> StripDot(ToLower(text)) == name
  {
    var low := ToLower(text);
    if text != "" {
      assert low[|text| - 1] == '.' <==> text[|text| - 1] == '.';
      assert low == low[..|text| - 1] + [low[|text| - 1]];
      if low == name + "." { assert low[..|text| - 1] == name; }
    }
  }

  lemma {:induction false} BlankTrim(s: string)
    ensures Trim(s) == "" <==> Blank(s)
  {
    if Blank(s) {
      assert s + "" + "" == s;
      TrimAway(s, "", "");
    }
    if Trim(s) == "" {
      var front := TrimStartSplit(s);
      var back := TrimEndSplit(TrimStart(s));
      assert s == front + back;
    }
  }

  lemma {:induction false} ValueNormal(typed: string)
    ensures NormalizeDomain(Trim(typed)) == NormalizeDomain(typed)
  {
    TrimTrims(typed);
    TrimmedTrims(Trim(typed));
  }

  /** A `domain` rule is for one name, however it and the target are typed. */
  lemma {:induction false} DomainRule(rule: Rule, typed: string, number: string -> JsNumber, name: string,
      pattern: string)
    requires rule.ruleType.Domain? && !Blank(typed) && Types(typed, name) && Types(rule.pattern, pattern)
    ensures RuleMatches(rule, typed, number) == Some(name == pattern)
  {
    TypesIff(typed, name);
    TypesIff(rule.pattern, pattern);
    BlankTrim(typed);
    ValueNormal(typed);
  }

  /** A `domain-keyword` rule is for the names that hold its pattern. */
  lemma {:induction false} KeywordRule(rule: Rule, typed: string, number: string -> JsNumber, name: string,
      pattern: string)
    requires rule.ruleType.DomainKeyword? && !Blank(typed) && Types(typed, name) && Types(rule.pattern, pattern)
    ensures RuleMatches(rule, typed, number) == Some(exists front, back :: name == front + pattern + back)
  {
    TypesIff(typed, name);
    TypesIff(rule.pattern, pattern);
    BlankTrim(typed);
    ValueNormal(typed);
    IncludesIff(name, pattern);
  }

  /** A `domain-suffix` rule is for its name, which may be written with a dot in front, and the names below it. */
  lemma {:induction false} SuffixRule(rule: Rule, typed: string, number: string -> JsNumber, name: string,
      pattern: string, suffix: string)
    requires rule.ruleType.DomainSuffix? && !Blank(typed) && Types(typed, name) && Types(rule.pattern, pattern)
    requires if pattern != "" && pattern[0] == '.' then pattern == "." + suffix else pattern == suffix
    ensures RuleMatches(rule, typed, number) == Some(name == suffix || exists front :: name == front + ("." + suffix))
  {
    TypesIff(typed, name);
    TypesIff(rule.pattern, pattern);
    BlankTrim(typed);
    ValueNormal(typed);
    EndsWithIff(name, "." + suffix);
    assert StripLeadingDot(pattern) == suffix;
  }

  /** A blank target matches nothing, and the client's kinds match nothing here. */
  lemma {:induction false} NothingMatches(rule: Rule, typed: string, number: string -> JsNumber)
    requires Blank(typed) || rule.ruleType.GeoIp? || rule.ruleType.GeoSite?
    ensures RuleMatches(rule, typed, number) == Some(false)
  {
    BlankTrim(typed);
  }

  /** An `ip` rule compares texts but for white space around them. */
  lemma {:induction false} AddressRule(rule: Rule, typed: string, number: string -> JsNumber, text: string,
      pattern: string)
    requires rule.ruleType.IpAddress? && Around(typed, text) && Around(rule.pattern, pattern)
    ensures RuleMatches(rule, typed, number) == Some(text == pattern && text != "")
  {
    TrimIff(typed, text);
    TrimIff(rule.pattern, pattern);
  }

  /** A `cidr` rule asks `ipInCidr`, which knows no blank target and no other than addresses. */
  lemma {:induction false} BlockRule(rule: Rule, typed: string, number: string -> JsNumber, text: string,
      pattern: string)
    requires rule.ruleType.Cidr? && Around(typed, text) && Around(rule.pattern, pattern)
    ensures RuleMatches(rule, typed, number) == IpInCidr(text, pattern, number)
    ensures !IsIpv4(text) && !IsIpv6(text) ==> RuleMatches(rule, typed, number) == Some(false)
  {
    TrimIff(typed, text);
    TrimIff(rule.pattern, pattern);
    if text == "" { NoText(text); }
    if !IsIpv4(text) && !IsIpv6(text) { InNoBlock(text, pattern, number); }
  }

  lemma {:induction false} InNoBlock(text: string, cidr: string, number: string -> JsNumber)
    requires !IsIpv4(text) && !IsIpv6(text)
    ensures IpInCidr(text, cidr, number) == Some(false)
  {
  }

  lemma {:induction false} NoText(text: string)
    requires text == ""
    ensures !IsIpv4(text) && !IsIpv6(text)
  {
  }

  predicate IsDomainKind(t: RuleType) { t.Domain? || t.DomainSuffix? || t.DomainKeyword? }

  /** A domain rule cannot tell apart what is typed for one name. */
  lemma {:induction false} TypedAlike(rule: Rule, a: string, b: string, name: string, number: string -> JsNumber)
    requires IsDomainKind(rule.ruleType) && Types(a, name) && Types(b, name) && (Blank(a) <==> Blank(b))
    ensures RuleMatches(rule, a, number) == RuleMatches(rule, b, number)
  {
    TypesIff(a, name);
    TypesIff(b, name);
    BlankTrim(a);
    BlankTrim(b);
    ValueNormal(a);
    ValueNormal(b);
  }

  /** No rule sees white space around a target. */
  lemma {:induction false} SpacedAlike(rule: Rule, a: string, b: string, text: string, number: string -> JsNumber)
    requires Around(a, text) && Around(b, text)
    ensures RuleMatches(rule, a, number) == RuleMatches(rule, b, number)
  {
    TrimIff(a, text);
    TrimIff(b, text);
  }

  datatype Decision = Decision(action: Action, rule: Option<Rule>)

  /** The decision of the first rule of a list that matches. */
  function FirstMatch(rules: seq<Rule>, target: string, fallback: Action,
      number: string -> JsNumber): Option<Decision> {
    if rules == [] then Some(Decision(fallback, None))
    else
      var m := RuleMatches(rules[0], target, number);
      if m.None? then None
      else if m.value then Some(Decision(rules[0].action, Some(rules[0])))
      else FirstMatch(rules[1..], target, fallback, number)
  }

  /** What `resolveAction` returns, as a function. */
  function Resolved(rules: seq<Rule>, target: string, fallback: Action, collate: string -> real,
      number: string -> JsNumber): Option<Decision> {
    FirstMatch(SortRules(rules, collate), target, fallback, number)
  }

  lemma {:induction false} FirstMatchAlike(rules: seq<Rule>, a: string, b: string, fallback: Action,
      number: string -> JsNumber)
    requires forall r | r in rules :: RuleMatches(r, a, number) == RuleMatches(r, b, number)
    ensures FirstMatch(rules, a, fallback, number) == FirstMatch(rules, b, fallback, number)
  {
    if rules != [] {
      assert rules[0] in rules && forall r | r in rules[1..] :: r in rules;
      FirstMatchAlike(rules[1..], a, b, fallback, number);
    }
  }

  /** Where all enabled rules are domain rules, only the name that is typed counts; in any list white space around the
      target does not. */
  lemma {:induction false} ResolvedAlike(rules: seq<Rule>, a: string, b: string, name: string, fallback: Action,
      collate: string -> real, number: string -> JsNumber)
    requires || (Around(a, name) && Around(b, name))
             || (&& Types(a, name) && Types(b, name) && (Blank(a) <==> Blank(b))
                 && forall r | r in rules && r.enabled :: IsDomainKind(r.ruleType))
    ensures Resolved(rules, a, fallback, collate, number) == Resolved(rules, b, fallback, collate, number)
  {
    var sorted := SortRules(rules, collate);
    forall r | r in sorted ensures RuleMatches(r, a, number) == RuleMatches(r, b, number) {
      SortedRules(rules, collate, r);
      if Around(a, name) && Around(b, name) { SpacedAlike(r, a, b, name, number); }
      else { TypedAlike(r, a, b, name, number); }
    }
    FirstMatchAlike(sorted, a, b, fallback, number);
  }

  /** `resolveAction` */
  method ResolveAction(rules: seq<Rule>, target: string, fallback: Action, collate: string -> real,
      number: string -> JsNumber)
      returns (r: Option<Decision>)
    ensures r == Resolved(rules, target, fallback, collate, number)
  {
    var sorted := SortRules(rules, collate);
    assert sorted[0..] == sorted;
    for i := 0 to |sorted|
      invariant Resolved(rules, target, fallback, collate, number) == FirstMatch(sorted[i..], target, fallback, number)
    {
      assert sorted[i..][1..] == sorted[i + 1..];
      var m := RuleMatches(sorted[i], target, number);
      if m.None? { return None; }
      if m.value { return Some(Decision(sorted[i].action, Some(sorted[i]))); }
    }
    return Some(Decision(fallback, None));
  }

  /** A rule that comes strictly before another: of lower priority number, or of the same and an earlier name. */
  predicate Precedes(q: Rule, r: Rule, collate: string -> real) {
    q.priority < r.priority || (q.priority == r.priority && collate(q.name) < collate(r.name))
  }

  /** Which rule decides, without the sort: an enabled one that matches, such that no enabled rule that comes strictly
      before it matches; or none at all. */
  ghost predicate Decides(rules: seq<Rule>, target: string, d: Decision, fallback: Action, collate: string -> real,
      number: string -> JsNumber) {
    match d.rule
    case None => d.action == fallback && forall r | r in rules && r.enabled ::
        RuleMatches(r, target, number) == Some(false)
    case Some(r) =>
      && r in rules && r.enabled && d.action == r.action && RuleMatches(r, target, number) == Some(true)
      && forall q | q in rules && q.enabled && Precedes(q, r, collate) :: RuleMatches(q, target, number) == Some(false)
  }

  lemma {:induction false} FirstMatchDecides(rules: seq<Rule>, target: string, fallback: Action,
      number: string -> JsNumber) returns (i: nat)
    requires FirstMatch(rules, target, fallback, number).Some?
    ensures i <= |rules| && forall q | q in rules[..i] :: RuleMatches(q, target, number) == Some(false)
    ensures var d := FirstMatch(rules, target, fallback, number).value;
            if i == |rules| then d == Decision(fallback, None)
            else d == Decision(rules[i].action, Some(rules[i])) && RuleMatches(rules[i], target, number) == Some(true)
  {
    i := 0;
    if rules != [] && RuleMatches(rules[0], target, number) == Some(false) {
      var k := FirstMatchDecides(rules[1..], target, fallback, number);
      i := k + 1;
      assert rules[..i] == [rules[0]] + rules[1..][..k];
    }
  }

  lemma {:induction false} SortedRules(rules: seq<Rule>, collate: string -> real, q: Rule)
    ensures q in SortRules(rules, collate) <==> q in rules && q.enabled
  {
    SortedMembers(Filter(rules, Enabled()), ByPriority(collate), q);
    FilterMembers(rules, Enabled(), q);
  }

  /** `resolveAction` gives the decision of the first matching enabled rule by priority and name. */
  lemma {:induction false} ResolvedDecides(rules: seq<Rule>, target: string, fallback: Action,
      collate: string -> real, number: string -> JsNumber)
    requires Resolved(rules, target, fallback, collate, number).Some?
    ensures Decides(rules, target, Resolved(rules, target, fallback, collate, number).value, fallback, collate, number)
  {
    var sorted := SortRules(rules, collate);
    var i := FirstMatchDecides(sorted, target, fallback, number);
    SortedOrdered(Filter(rules, Enabled()), ByPriority(collate));
    if i == |sorted| {
      assert sorted[..i] == sorted;
      forall q | q in rules && q.enabled
        ensures RuleMatches(q, target, number) == Some(false)
      {
        SortedRules(rules, collate, q);
      }
    } else {
      SortedRules(rules, collate, sorted[i]);
      forall q | q in rules && q.enabled && Precedes(q, sorted[i], collate) ensures q in sorted[..i] {
        SortedRules(rules, collate, q);
      }
    }
  }

  /** No two enabled rules tie. */
  ghost predicate Untied(rules: seq<Rule>, collate: string -> real) {
    forall a, b | a in rules && b in rules && a.enabled && b.enabled && a.priority == b.priority
        && collate(a.name) == collate(b.name) :: a == b
  }

  /** Where no two enabled rules tie, the order in which they are stored makes no difference. */
  lemma {:induction false} StorageOrderFree(rules: seq<Rule>, stored: seq<Rule>, target: string, fallback: Action,
      collate: string -> real, number: string -> JsNumber)
    requires multiset(rules) == multiset(stored) && Untied(rules, collate)
    ensures Resolved(rules, target, fallback, collate, number) == Resolved(stored, target, fallback, collate, number)
  {
    FilterPermutation(rules, stored, Enabled());
    var le := ByPriority(collate);
    forall a, b | a in Filter(rules, Enabled()) && b in Filter(rules, Enabled()) && le(a, b) && le(b, a)
      ensures a == b
    {
    }
    SortedPermutation(Filter(rules, Enabled()), Filter(stored, Enabled()), le);
  }

  /** Rules that tie keep the order in which they are stored. */
  lemma {:induction false} TiesKeepOrder(rules: seq<Rule>, collate: string -> real, tied: Rule -> bool)
    ensures Filter(SortRules(rules, collate), tied) == SortRules(Filter(rules, tied), collate)
    ensures (forall a, b | tied(a) && tied(b) :: Before(a, b, collate)) ==>
              Filter(SortRules(rules, collate), tied) == Filter(Filter(rules, tied), Enabled())
  {
    FilterSorted(Filter(rules, Enabled()), ByPriority(collate), tied);
    FiltersCommute(rules, Enabled(), tied);
    if forall a, b | tied(a) && tied(b) :: Before(a, b, collate) {
      SortedAlready(Filter(Filter(rules, tied), Enabled()), ByPriority(collate));
    }
  }

  lemma {:induction false} SortedAlready(s: seq<Rule>, le: (Rule, Rule) -> bool)
    requires forall a, b | a in s && b in s :: le(a, b)
    ensures Sorted(s, le) == s
  {
    if s != [] {
      SortedAlready(s[1..], le);
    }
  }
}
