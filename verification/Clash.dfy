/** The routing rules compiled to Clash rule lines, a reference reader for those lines, and what compiling preserves. */
module Clash {
  import opened Text
  import opened Arith
  import opened Ip
  import opened Rfc4291
  import opened Routing

  // ---------------------------------------------------------------- the compiler

  /** `CLASH_TYPE` */
  function ClashType(t: RuleType): string {
    match t
    case Domain => "DOMAIN"
    case DomainSuffix => "DOMAIN-SUFFIX"
    case DomainKeyword => "DOMAIN-KEYWORD"
    case IpAddress => "IP-CIDR"
    case Cidr => "IP-CIDR"
    case GeoIp => "GEOIP"
    case GeoSite => "GEOSITE"
  }

  /** `targetOf` */
  function TargetOf(action: Action, group: string): string {
    match action
    case Direct => "DIRECT"
    case Block => "REJECT"
    case Proxy => group
  }

  function LinePattern(rule: Rule): string {
    var pattern := Trim(rule.pattern);
    if rule.ruleType == IpAddress && '/' !in pattern then pattern + (if IsIpv6(pattern) then "/128" else "/32")
        else pattern
  }

  predicate NoResolve(rule: Rule) { rule.ruleType == IpAddress || rule.ruleType == Cidr }

  function RuleLine(rule: Rule, group: string): string {
    ClashType(rule.ruleType) + "," + LinePattern(rule) + "," + TargetOf(rule.action, group)
    + if NoResolve(rule) then ",no-resolve" else ""
  }

  function RuleLines(rules: seq<Rule>, group: string): seq<string> {
    if rules == [] then [] else [RuleLine(rules[0], group)] + RuleLines(rules[1..], group)
  }

  /** `toClashRules` */
  function ToClashRules(rules: seq<Rule>, group: string, collate: string -> real): seq<string> {
    RuleLines(SortRules(rules, collate), group)
  }

  /** The rule list of a Clash document. */
  function DocumentRules(rules: seq<Rule>, group: string, collate: string -> real): seq<string> {
    ToClashRules(rules, group, collate) + ["MATCH," + group]
  }

  // ---------------------------------------------------------------- the reference reader

  /** A rule line, cut at its commas: kind and policy, or kind, payload and policy. */
  datatype ClashRule = ClashRule(kind: string, payload: string, policy: string)

  function ReadLine(line: string): Option<ClashRule> {
    var fields := Split(line, ',');
    if |fields| < 2 then None
    else if |fields| == 2 then Some(ClashRule(Trim(fields[0]), "", Trim(fields[1])))
    else Some(ClashRule(Trim(fields[0]), Trim(fields[1]), Trim(fields[2])))
  }

  function Policy(policy: string, group: string): Option<Action> {
    if policy == "DIRECT" then Some(Direct)
    else if policy == "REJECT" then Some(Block)
    else if policy == group then Some(Proxy)
    else None
  }

  /** Membership in the block `address/length`; a client knows the texts of RFC 4291, with octets as they print. */
  predicate InBlockText(host: string, payload: string) {
    var parts := Split(payload, '/');
    && |parts| == 2
    && AllDigits(parts[1])
    && var base := StrictAddress(parts[0]);
       var address := StrictAddress(host);
       base.Some? && address.Some? && InBlock(address.value, base.value, DecValue(parts[1]))
  }

  /** Whether a rule applies to a host; the reader compares the domain kinds with the host's text. */
  predicate Applies(rule: ClashRule, host: string) {
    var text := ToLower(rule.payload);
    match rule.kind
    case "MATCH" => true
    case "DOMAIN" => host == text
    case "DOMAIN-SUFFIX" => HasSuffix(host, text)
    case "DOMAIN-KEYWORD" => Includes(host, text)
    case "IP-CIDR" => InBlockText(host, rule.payload)
    case _ => false
  }

  /** What a client does with a host: the policy of the first line that applies. */
  function Run(lines: seq<string>, host: string, group: string): Option<Action> {
    if lines == [] then None
    else
      var rule := ReadLine(lines[0]);
      if rule.None? then None
      else if Applies(rule.value, host) then Policy(rule.value.policy, group)
      else Run(lines[1..], host, group)
  }

  // ---------------------------------------------------------------- conditions

  /** A host as a client writes it: trimmed, in lower case, without a final dot, and addresses as RFC 4291 has them,
      dotted octets without zeros in front and standing alone. */
  predicate CanonicalHost(host: string) {
    && host != "" && Trimmed(host) && ToLower(host) == host && host[|host| - 1] != '.'
    && (IsIpv4(host) ==> CanonicalIpv4(host)) && (IsIpv6(host) ==> ReadsStrictly(host)) && !IsMixed(host)
  }

  predicate NoFinalDot(s: string) { s == "" || s[|s| - 1] != '.' }

  predicate NoFirstDot(s: string) { s == "" || s[0] != '.' }

  /** Whether a compiled line, read without loss, applies to a host. */
  predicate LineApplies(rule: Rule, host: string) {
    Applies(ClashRule(ClashType(rule.ruleType), Trim(LinePattern(rule)), ""), host)
  }

  /** The rule and its line apply to the same hosts. */
  ghost predicate SameHosts(rule: Rule, number: string -> JsNumber) {
    forall host | CanonicalHost(host) :: RuleMatches(rule, host, number) == Some(LineApplies(rule, host))
  }

  /** The host name that a domain pattern stands for once it is normalised. */
  function NormalName(rule: Rule): string {
    var name := NormalizeDomain(rule.pattern);
    if rule.ruleType == DomainSuffix then StripLeadingDot(name) else name
  }

  /** No host ends like this. */
  predicate EndsNoHost(name: string) { name == "" || name[|name| - 1] == '.' || IsSpace(name[|name| - 1]) }

  /** The text of a block that has an address in it. */
  predicate NamesBlock(payload: string) {
    var parts := Split(payload, '/');
    |parts| == 2 && AllDigits(parts[1]) && Admits(StrictAddress(parts[0]), DecValue(parts[1]))
  }

  predicate Admits(base: Option<Address>, length: nat) { base.Some? && length <= Width(base.value) }

  /** With a prefix of digits, the panel and the RFC must read the address alike, or find the prefix too long.  With any
      other, or none, the line applies to nothing: the panel must read no address, or find the prefix out of range. */
  predicate FaithfulBlock(pattern: string, number: string -> JsNumber) {
    var parts := Split(pattern, '/');
    var base, strict := AddressOf(parts[0]), StrictAddress(parts[0]);
    if |parts| == 2 && AllDigits(parts[1]) then
      base == strict || (!Admits(base, DecValue(parts[1])) && !Admits(strict, DecValue(parts[1])))
    else base.None? || (|parts| > 1 && OutOfRange(number(parts[1]), Width(base.value)))
  }

  /** `SERVER_EVALUABLE_TYPES` */
  predicate ServerEvaluable(t: RuleType) { t != GeoIp && t != GeoSite }

  /** What can be seen of a rule that is compiled faithfully. */
  predicate Faithful(rule: Rule, number: string -> JsNumber) {
    var pattern := Trim(rule.pattern);
    match rule.ruleType
    case Domain => NoFinalDot(pattern) || !CanonicalHost(NormalName(rule))
    case DomainSuffix => if NoFinalDot(pattern) then NoFirstDot(pattern) else EndsNoHost(NormalName(rule))
    case DomainKeyword => NoFinalDot(pattern)
    case IpAddress =>
      if NamesBlock(LinePattern(rule)) then CanonicalIpv4(pattern) || OneSpelling(pattern) else !CanonicalHost(pattern)
    case Cidr => FaithfulBlock(pattern, number)
    case GeoIp => false
    case GeoSite => false
  }

  /** A rule whose line can be read and means the same. */
  predicate Compiles(rule: Rule, number: string -> JsNumber) {
    ',' !in Trim(rule.pattern) && Faithful(rule, number)
  }

  /** A group name that a rule line can hold. */
  predicate PlainGroup(group: string) { ',' !in group && Trimmed(group) }

  /** `Number` reads decimal digits. */
  ghost predicate Decimal(number: string -> JsNumber) {
    forall s | AllDigits(s) :: number(s) == Whole(DecValue(s))
  }

  // ---------------------------------------------------------------- one line

  /** What follows a line's pattern. */
  function LineTail(rule: Rule, group: string): seq<string> {
    [TargetOf(rule.action, group)] + if NoResolve(rule) then ["no-resolve"] else []
  }

  lemma {:induction false} ThreeFields(kind: string, pattern: string, policy: string, line: string)
    requires ',' !in kind && ',' !in policy && line == kind + "," + pattern + "," + policy
    ensures Split(line, ',') == [kind] + Split(pattern, ',') + [policy]
  {
    SplitFirst(kind, ',', pattern);
    SplitConcat(kind + "," + pattern, ',', policy);
    SplitFree(policy, ',');
  }

  lemma {:induction false} FourFields(line: string, fields: seq<string>)
    requires Split(line, ',') == fields
    ensures Split(line + "," + "no-resolve", ',') == fields + ["no-resolve"]
  {
    SplitConcat(line, ',', "no-resolve");
    SplitFree("no-resolve", ',');
  }

  lemma {:induction false} LineText(rule: Rule, group: string, line: string)
    requires line == ClashType(rule.ruleType) + "," + LinePattern(rule) + "," + TargetOf(rule.action, group)
    ensures RuleLine(rule, group) == if NoResolve(rule) then line + "," + "no-resolve" else line
  {
  }

  /** A line's fields are its kind, the parts of its pattern between commas, and its policy. */
  lemma {:induction false} LineFields(rule: Rule, group: string)
    requires PlainGroup(group)
    ensures Split(RuleLine(rule, group), ',') ==
            [ClashType(rule.ruleType)] + Split(LinePattern(rule), ',') + LineTail(rule, group)
  {
    var kind, pattern, policy := ClashType(rule.ruleType), LinePattern(rule), TargetOf(rule.action, group);
    var line, fields := kind + "," + pattern + "," + policy, [kind] + Split(pattern, ',') + [policy];
    ThreeFields(kind, pattern, policy, line);
    FourFields(line, fields);
    LineText(rule, group, line);
    assert fields + ["no-resolve"] == [kind] + Split(pattern, ',') + ([policy] + ["no-resolve"]);
  }

  lemma {:induction false} PatternTrimmed(rule: Rule)
    ensures Trim(LinePattern(rule)) == LinePattern(rule)
    ensures ',' in LinePattern(rule) <==> ',' in Trim(rule.pattern)
  {
    TrimTrims(rule.pattern);
    TrimmedTrims(LinePattern(rule));
  }

  lemma {:induction false} KindTrimmed(rule: Rule)
    ensures Trim(ClashType(rule.ruleType)) == ClashType(rule.ruleType) && ',' !in ClashType(rule.ruleType)
  {
    TrimmedTrims(ClashType(rule.ruleType));
  }

  lemma {:induction false} PolicyTrimmed(action: Action, group: string)
    requires PlainGroup(group)
    ensures Trim(TargetOf(action, group)) == TargetOf(action, group) && ',' !in TargetOf(action, group)
  {
  }

  /** What a line is read as: a comma ends the pattern, and what follows it, up to the next, is the policy. */
  lemma {:induction false} CommaMisreads(rule: Rule, group: string)
    requires PlainGroup(group)
    ensures var parts := Split(LinePattern(rule), ',');
            ReadLine(RuleLine(rule, group)) ==
            Some(ClashRule(ClashType(rule.ruleType), Trim(parts[0]),
                           if |parts| > 1 then Trim(parts[1]) else TargetOf(rule.action, group)))
  {
    var parts := Split(LinePattern(rule), ',');
    LineFields(rule, group);
    KindTrimmed(rule);
    PolicyTrimmed(rule.action, group);
    var fields := [ClashType(rule.ruleType)] + parts + LineTail(rule, group);
    assert fields[2] == if |parts| > 1 then parts[1] else TargetOf(rule.action, group);
  }

  /** A line reads back as its rule's kind, pattern and policy if and only if the pattern holds no comma. */
  lemma {:induction false} LineReads(rule: Rule, group: string)
    requires PlainGroup(group)
    ensures ReadLine(RuleLine(rule, group)) ==
            Some(ClashRule(ClashType(rule.ruleType), Trim(LinePattern(rule)), TargetOf(rule.action, group)))
       <==> ',' !in Trim(rule.pattern)
  {
    var parts := Split(LinePattern(rule), ',');
    CommaMisreads(rule, group);
    PatternTrimmed(rule);
    SplitCuts(LinePattern(rule), ',');
    SplitPartsFree(LinePattern(rule), ',');
    TrimTrims(parts[0]);
    if |parts| == 1 { SplitFree(LinePattern(rule), ','); }
  }

  /** The kinds of Clash's rules. */
  predicate IsKind(kind: string, t: RuleType) {
    && (kind == "DOMAIN" <==> t == Domain) && (kind == "DOMAIN-SUFFIX" <==> t == DomainSuffix)
    && (kind == "DOMAIN-KEYWORD" <==> t == DomainKeyword) && (kind == "IP-CIDR" <==> t == IpAddress || t == Cidr)
    && (kind == "GEOIP" <==> t == GeoIp) && (kind == "GEOSITE" <==> t == GeoSite)
  }

  /** The fields of a line whose pattern holds no comma: the kind, the pattern, the policy, and for `ip` and `cidr`
      rules, so that clients look at addresses only, `no-resolve`. */
  lemma {:induction false} LineSpells(rule: Rule, group: string)
    requires PlainGroup(group) && ',' !in Trim(rule.pattern)
    ensures var fields := Split(RuleLine(rule, group), ',');
            && |fields| == (if rule.ruleType == IpAddress || rule.ruleType == Cidr then 4 else 3)
            && IsKind(fields[0], rule.ruleType) && (|fields| == 4 ==> fields[3] == "no-resolve")
            && (rule.action == Direct ==> fields[2] == "DIRECT") && (rule.action == Block ==> fields[2] == "REJECT")
            && (rule.action == Proxy ==> fields[2] == group)
            && (rule.ruleType != IpAddress || '/' in Trim(rule.pattern) ==> fields[1] == Trim(rule.pattern))
            && (rule.ruleType == IpAddress && '/' !in Trim(rule.pattern) ==>
                  fields[1] == Trim(rule.pattern) + if IsIpv6(Trim(rule.pattern)) then "/128" else "/32")
  {
    PatternTrimmed(rule);
    SplitFree(LinePattern(rule), ',');
    LineFields(rule, group);
    KindSpelled(rule.ruleType);
  }

  lemma {:induction false} KindSpelled(t: RuleType)
    ensures IsKind(ClashType(t), t)
  {
  }

  lemma {:induction false} PolicyReads(action: Action, group: string)
    requires group != "DIRECT" && group != "REJECT"
    ensures Policy(TargetOf(action, group), group) == Some(action)
  {
  }

  lemma {:induction false} HostNormal(host: string)
    requires CanonicalHost(host)
    ensures Trim(host) == host && NormalizeDomain(host) == host
  {
  }

  lemma {:induction false} PatternNormal(pattern: string)
    ensures NormalizeDomain(pattern) == StripDot(ToLower(Trim(pattern)))
    ensures Trimmed(Trim(pattern)) && Trim(Trim(pattern)) == Trim(pattern)
  {
    TrimTwice(pattern);
    TrimTrims(pattern);
  }

  lemma {:induction false} TrimTwice(s: string)
    ensures Trim(Trim(s)) == Trim(s)
  {
    TrimTrims(s);
    TrimmedTrims(Trim(s));
  }

  // ---------------------------------------------------------------- hosts

  lemma {:induction false} HostAddress(host: string)
    requires CanonicalHost(host)
    ensures StrictAddress(host) == AddressOf(host)
  {
    if ReadsStrictly(host) { StrictExpands(host); }
  }

  lemma {:induction false} LowerStays(s: string)
    requires forall c | c in s :: ToLowerChar(c) == c
    ensures ToLower(s) == s
  {
    forall i: nat | i < |s| ensures ToLower(s)[i] == s[i] { assert s[i] in s; }
  }

  lemma {:induction false} Lowered(s: string)
    ensures ToLower(ToLower(s)) == ToLower(s)
  {
  }

  /** A text of hexadecimal digits and colons is trimmed, and of neither of the dotted forms. */
  lemma {:induction false} Ipv6Shape(text: string)
    requires IsIpv6(text)
    ensures Trimmed(text) && text[|text| - 1] != '.' && '/' !in text && !IsIpv4(text) && !IsMixed(text)
  {
    assert text[0] in text && text[|text| - 1] in text;
    if IsIpv4(text) { NotBoth(text); }
    if IsMixed(text) { MixedLast(text); }
  }

  lemma {:induction false} StrictHost(text: string)
    requires ReadsStrictly(text) && InLower(text)
    ensures CanonicalHost(text) && '/' !in text && !IsIpv4(text)
  {
    StrictExpands(text);
    LowerStays(text);
    Ipv6Shape(text);
  }

  lemma {:induction false} Ipv4End(ip: string)
    requires IsIpv4(ip)
    ensures ip != "" && IsDigit(ip[|ip| - 1])
  {
    var parts := Split(ip, '.');
    JoinConcat(parts[..3], parts[3..], '.');
    JoinSplit(ip, '.');
    assert parts == parts[..3] + parts[3..] && parts[3..] == [parts[3]];
    assert IsOctet(parts[3]) && ip[|ip| - 1] == parts[3][|parts[3]| - 1];
    assert parts[3][|parts[3]| - 1] in parts[3];
  }

  lemma {:induction false} Ipv4Host(ip: string)
    requires CanonicalIpv4(ip)
    ensures CanonicalHost(ip)
  {
    NotBoth(ip);
    if IsMixed(ip) { MixedLast(ip); }
    Ipv4Chars(ip);
    LowerStays(ip);
    Ipv4End(ip);
  }

  /** Every number of its width has a text that clients use. */
  lemma {:induction false} AddressHost(a: Address)
    requires a.n < Pow2(Width(a))
    ensures CanonicalHost(AddressText(a)) && '/' !in AddressText(a)
    ensures StrictAddress(AddressText(a)) == AddressOf(AddressText(a)) == Some(a)
  {
    var text := AddressText(a);
    AddressTextReads(a);
    if a.V4? {
      Ipv4Chars(text);
      Ipv4Host(text);
    } else {
      SpelledLower(GroupsFor(a.n, 8));
      StrictHost(text);
    }
  }

  lemma {:induction false} JoinCovers(parts: seq<string>, sep: char, part: string, c: char)
    requires part in parts && c in part
    ensures c in Join(parts, sep)
  {
    if |parts| > 1 && part != parts[0] { JoinCovers(parts[1..], sep, part, c); }
  }

  lemma {:induction false} NoIpv4(text: string)
    requires 'x' in text
    ensures !IsIpv4(text)
  {
    var part := SplitCovers(text, '.', 'x');
    assert !IsOctet(part);
  }

  /** An `x` is in no address. */
  lemma {:induction false} NoAddress(text: string)
    requires 'x' in text
    ensures !IsIpv4(text) && !IsIpv6(text) && !IsMixed(text)
  {
    NoIpv4(text);
    var parts := Split(text, ':');
    var part := SplitCovers(text, ':', 'x');
    if IsMixed(text) {
      if part == parts[|parts| - 1] {
        NoIpv4(part);
      } else {
        JoinCovers(parts[..|parts| - 1] + ["0", "0"], ':', part, 'x');
        StrictExpands(ZerosAtEnd(text));
      }
    }
  }

  // ---------------------------------------------------------------- exactly which domain rules compile faithfully

  lemma {:induction false} LongerThan(host: string, text: string)
    requires |host| <= |text| && host != text
    ensures !Includes(host, text)
  {
    if Includes(host, text) {
      IncludesLength(host, text);
      if host != "" && Includes(host[1..], text) { IncludesLength(host[1..], text); }
    }
  }

  lemma {:induction false} StrippedLast(text: string)
    requires !NoFinalDot(text)
    ensures text == StripDot(text) + "." && |StripDot(text)| == |text| - 1
  {
  }

  lemma {:induction false} NameLower(rule: Rule)
    ensures ToLower(NormalName(rule)) == NormalName(rule)
  {
    Lowered(Trim(rule.pattern));
  }

  lemma {:induction false} NameHost(name: string)
    requires ToLower(name) == name && (name == "" || !IsSpace(name[0]))
    ensures CanonicalHost(name + "x") && Includes(name + "x", name)
  {
    NoAddress(name + "x");
  }

  lemma {:induction false} KeywordRule(rule: Rule, host: string, number: string -> JsNumber)
    requires rule.ruleType.DomainKeyword? && CanonicalHost(host)
    ensures RuleMatches(rule, host, number) == Some(Includes(host, NormalName(rule)))
  {
    HostNormal(host);
  }

  lemma {:induction false} KeywordLine(rule: Rule, host: string)
    requires rule.ruleType.DomainKeyword?
    ensures LineApplies(rule, host) <==> Includes(host, ToLower(Trim(rule.pattern)))
  {
    TrimTwice(rule.pattern);
  }

  lemma {:induction false} KeywordSides(rule: Rule, host: string, number: string -> JsNumber)
    requires rule.ruleType.DomainKeyword? && CanonicalHost(host)
    ensures RuleMatches(rule, host, number) == Some(Includes(host, NormalName(rule)))
    ensures LineApplies(rule, host) <==> Includes(host, ToLower(Trim(rule.pattern)))
  {
    KeywordRule(rule, host, number);
    KeywordLine(rule, host);
  }

  /** The name and an `x` hold the name, but not the dot behind it. */
  lemma {:induction false} KeywordHost(rule: Rule, number: string -> JsNumber)
    requires rule.ruleType.DomainKeyword? && !NoFinalDot(Trim(rule.pattern))
    ensures !SameHosts(rule, number)
  {
    var text, name := ToLower(Trim(rule.pattern)), NormalName(rule);
    PatternNormal(rule.pattern);
    StrippedLast(text);
    NameLower(rule);
    NameHost(name);
    KeywordSides(rule, name + "x", number);
    LongerThan(name + "x", text);
    assert RuleMatches(rule, name + "x", number) != Some(LineApplies(rule, name + "x"));
  }

  lemma {:induction false} SuffixHost(name: string)
    requires !EndsNoHost(name) && ToLower(name) == name
    ensures var host := "x." + name; CanonicalHost(host) && HasSuffix(host, name)
  {
    var host := "x." + name;
    NoAddress(host);
    assert host[1..] == "." + name;
  }

  lemma {:induction false} SameEnd(host: string, text: string)
    requires text != ""
    ensures EndsWith(host, text) ==> host != "" && host[|host| - 1] == text[|text| - 1]
  {
    if EndsWith(host, text) { assert host[|host| - |text|..][|text| - 1] == text[|text| - 1]; }
  }

  lemma {:induction false} NoSuffix(host: string, name: string)
    requires CanonicalHost(host) && EndsNoHost(name)
    ensures !HasSuffix(host, name)
  {
    SameEnd(host, "." + name);
  }

  lemma {:induction false} SameSuffix(rule: Rule, number: string -> JsNumber)
    requires rule.ruleType.DomainSuffix? && Faithful(rule, number)
    ensures SameHosts(rule, number)
  {
    var text := ToLower(Trim(rule.pattern));
    PatternNormal(rule.pattern);
    forall host | CanonicalHost(host) ensures RuleMatches(rule, host, number) == Some(LineApplies(rule, host)) {
      HostNormal(host);
      if !NoFinalDot(text) {
        NoSuffix(host, text);
        NoSuffix(host, NormalName(rule));
      }
    }
  }

  lemma {:induction false} DottedHost(name: string, text: string)
    requires !EndsNoHost(name) && ToLower(name) == name && (text == "." + name || EndsNoHost(text))
    ensures !HasSuffix("x." + name, text)
  {
    SuffixHost(name);
    if EndsNoHost(text) { NoSuffix("x." + name, text); }
  }

  /** A pattern's text has a dot at one end that its name has not. */
  lemma {:induction false} DottedText(rule: Rule, number: string -> JsNumber, text: string, name: string)
    requires rule.ruleType.DomainSuffix? && !Faithful(rule, number)
    requires text == ToLower(Trim(rule.pattern)) && name == NormalName(rule)
    ensures !EndsNoHost(name) && (text == "." + name || EndsNoHost(text))
  {
    PatternNormal(rule.pattern);
  }

  /** A host below the name: the line, with its dot, does not apply to it. */
  lemma {:induction false} SuffixWitness(rule: Rule, number: string -> JsNumber)
    requires rule.ruleType.DomainSuffix? && !Faithful(rule, number)
    ensures !SameHosts(rule, number)
  {
    var text, name := ToLower(Trim(rule.pattern)), NormalName(rule);
    var host := "x." + name;
    PatternNormal(rule.pattern);
    NameLower(rule);
    DottedText(rule, number, text, name);
    SuffixHost(name);
    DottedHost(name, text);
    HostNormal(host);
    assert RuleMatches(rule, host, number) == Some(true) && !LineApplies(rule, host);
  }

  lemma {:induction false} KeptName(rule: Rule)
    requires !rule.ruleType.DomainSuffix? && NoFinalDot(Trim(rule.pattern))
    ensures NormalName(rule) == ToLower(Trim(rule.pattern))
  {
    PatternNormal(rule.pattern);
  }

  lemma {:induction false} StrippedName(rule: Rule)
    requires !rule.ruleType.DomainSuffix? && !NoFinalDot(Trim(rule.pattern))
    ensures ToLower(Trim(rule.pattern)) == NormalName(rule) + "." && !CanonicalHost(ToLower(Trim(rule.pattern)))
  {
    PatternNormal(rule.pattern);
    StrippedLast(ToLower(Trim(rule.pattern)));
  }

  lemma {:induction false} DomainSides(rule: Rule, host: string, number: string -> JsNumber)
    requires rule.ruleType.Domain? && CanonicalHost(host)
    ensures RuleMatches(rule, host, number) == Some(host == NormalName(rule))
    ensures LineApplies(rule, host) <==> host == ToLower(Trim(rule.pattern))
  {
    PatternNormal(rule.pattern);
    HostNormal(host);
  }

  lemma {:induction false} DomainKind(rule: Rule, number: string -> JsNumber)
    requires rule.ruleType.Domain?
    ensures SameHosts(rule, number) <==> Faithful(rule, number)
  {
    var name, text := NormalName(rule), ToLower(Trim(rule.pattern));
    forall host | CanonicalHost(host)
      ensures RuleMatches(rule, host, number) == Some(host == name)
      ensures LineApplies(rule, host) <==> host == text
    {
      DomainSides(rule, host, number);
    }
    if NoFinalDot(Trim(rule.pattern)) { KeptName(rule); } else { StrippedName(rule); }
  }

  lemma {:induction false} KeywordKind(rule: Rule, number: string -> JsNumber)
    requires rule.ruleType.DomainKeyword?
    ensures SameHosts(rule, number) <==> Faithful(rule, number)
  {
    if NoFinalDot(Trim(rule.pattern)) {
      KeptName(rule);
      forall host | CanonicalHost(host) ensures RuleMatches(rule, host, number) == Some(LineApplies(rule, host)) {
        KeywordSides(rule, host, number);
      }
    } else {
      KeywordHost(rule, number);
    }
  }

  /** Lines carry the pattern as it was typed, and the server strips a final dot, and a first one from a suffix: a
      rule with such a dot is compiled faithfully only if it is for no host at all. */
  lemma {:induction false} DomainsFaithful(rule: Rule, number: string -> JsNumber)
    requires rule.ruleType.Domain? || rule.ruleType.DomainSuffix? || rule.ruleType.DomainKeyword?
    ensures var p, name := Trim(rule.pattern), NormalName(rule);
            SameHosts(rule, number) <==>
            match rule.ruleType
            case Domain => NoFinalDot(p) || !CanonicalHost(name)
            case DomainSuffix => if NoFinalDot(p) then NoFirstDot(p) else EndsNoHost(name)
            case _ => NoFinalDot(p)
  {
    match rule.ruleType
    case Domain => DomainKind(rule, number);
    case DomainSuffix => if Faithful(rule, number) { SameSuffix(rule, number); } else { SuffixWitness(rule, number); }
    case _ => KeywordKind(rule, number);
  }

  // ---------------------------------------------------------------- exactly which addresses compile faithfully

  lemma {:induction false} SuffixParts(pattern: string, length: string)
    requires '/' !in pattern && '/' !in length
    ensures Split(pattern + "/" + length, '/') == [pattern, length]
  {
    SplitFirst(pattern, '/', length);
    SplitFree(length, '/');
  }

  /** What a line for an `ip` rule holds. */
  lemma {:induction false} AddressLine(rule: Rule)
    requires rule.ruleType == IpAddress
    ensures var p := Trim(rule.pattern);
            var length := if IsIpv6(p) then "128" else "32";
            && (if '/' in p then LinePattern(rule) == p else Split(LinePattern(rule), '/') == [p, length])
            && AllDigits(length) && DecValue(length) == if IsIpv6(p) then 128 else 32
  {
    var p := Trim(rule.pattern);
    OctetValue("32");
    OctetValue("128");
    if '/' !in p {
      SuffixParts(p, if IsIpv6(p) then "128" else "32");
      assert LinePattern(rule) == p + "/" + if IsIpv6(p) then "128" else "32";
    }
  }

  /** What an `ip` rule and its line test. */
  lemma {:induction false} AddressSides(rule: Rule, host: string, number: string -> JsNumber)
    requires rule.ruleType == IpAddress && CanonicalHost(host)
    ensures RuleMatches(rule, host, number) == Some(host == Trim(rule.pattern))
    ensures LineApplies(rule, host) == InBlockText(host, LinePattern(rule))
  {
    HostNormal(host);
    PatternTrimmed(rule);
  }

  /** Where the rule's own text and its line tell hosts apart alike. */
  ghost predicate SameAddresses(pattern: string, payload: string) {
    forall host | CanonicalHost(host) :: host == pattern <==> InBlockText(host, payload)
  }

  lemma {:induction false} SameByAddress(rule: Rule, number: string -> JsNumber)
    requires rule.ruleType == IpAddress
    ensures SameHosts(rule, number) <==> SameAddresses(Trim(rule.pattern), LinePattern(rule))
  {
    forall host | CanonicalHost(host)
      ensures RuleMatches(rule, host, number) == Some(host == Trim(rule.pattern))
      ensures LineApplies(rule, host) == InBlockText(host, LinePattern(rule))
    {
      AddressSides(rule, host, number);
    }
  }

  lemma {:induction false} SameWhole(a: Address, base: Address)
    ensures InBlock(a, base, Width(base)) <==> a == base
  {
    if a.V4? == base.V4? {
      DivUnique(a.n, Pow2(0), a.n, 0);
      DivUnique(base.n, Pow2(0), base.n, 0);
    }
  }

  /** A block as long as its address holds that address only. */
  lemma {:induction false} WholeBlock(host: string, payload: string, p: string, length: string)
    requires Split(payload, '/') == [p, length] && AllDigits(length) && StrictAddress(p).Some?
    requires DecValue(length) == Width(StrictAddress(p).value)
    ensures InBlockText(host, payload) <==> StrictAddress(host) == StrictAddress(p)
  {
    if StrictAddress(host).Some? { SameWhole(StrictAddress(host).value, StrictAddress(p).value); }
  }

  lemma {:induction false} OneSpellingHost(p: string)
    requires OneSpelling(p)
    ensures CanonicalHost(p) && '/' !in p && IsIpv6(p)
  {
    JoinSplit(p, ':');
    SpelledLower(Split(p, ':'));
    OneSpellingReads(p);
    StrictExpands(p);
    StrictHost(p);
  }

  /** An address with one spelling: that of a host. */
  lemma {:induction false} WrittenOnce(p: string)
    requires CanonicalIpv4(p) || OneSpelling(p)
    ensures CanonicalHost(p) && '/' !in p && StrictAddress(p).Some?
    ensures Width(StrictAddress(p).value) == if IsIpv6(p) then 128 else 32
  {
    if CanonicalIpv4(p) {
      NotBoth(p);
      Ipv4Chars(p);
      Ipv4Host(p);
    } else {
      OneSpellingHost(p);
      StrictOf(p);
    }
  }

  lemma {:induction false} SameWritten(p: string, host: string)
    requires (CanonicalIpv4(p) || OneSpelling(p)) && CanonicalHost(host)
    ensures StrictAddress(host) == StrictAddress(p) <==> host == p
  {
    if StrictAddress(host) == StrictAddress(p) {
      if CanonicalIpv4(p) {
        Ipv4Injective(host, p);
      } else {
        OneSpellingReads(p);
        StrictOf(p);
        StrictV6(host, Expanded(p).value);
        LowerIn(host);
        OneSpellingOnly(p, host);
      }
    }
  }

  lemma {:induction false} LowerIn(s: string)
    requires ToLower(s) == s
    ensures InLower(s)
  {
    forall c | c in s ensures ToLowerChar(c) == c {
      var i :| 0 <= i < |s| && s[i] == c;
      assert ToLower(s)[i] == c;
    }
  }

  lemma {:induction false} StrictV6(host: string, n: nat)
    requires StrictAddress(host) == Some(V6(n)) && !IsMixed(host)
    ensures ReadsStrictly(host) && Expanded(host) == Some(n)
  {
    if ReadsStrictly(host) { StrictOf(host); }
  }

  /** An `ip` rule whose address has one spelling, IPv4 or IPv6, is compared as text and its line as a block of one
      address: they agree on every host. */
  lemma {:induction false} IpKind(rule: Rule, host: string, number: string -> JsNumber)
    requires rule.ruleType.IpAddress? && CanonicalHost(host)
    requires CanonicalIpv4(Trim(rule.pattern)) || OneSpelling(Trim(rule.pattern))
    ensures NamesBlock(LinePattern(rule)) && RuleMatches(rule, host, number) == Some(LineApplies(rule, host))
  {
    var p := Trim(rule.pattern);
    AddressSides(rule, host, number);
    AddressLine(rule);
    WrittenOnce(p);
    SameWritten(p, host);
    WholeBlock(host, LinePattern(rule), p, if IsIpv6(p) then "128" else "32");
  }

  lemma {:induction false} OwnBlock(host: string, payload: string)
    requires NamesBlock(payload) && StrictAddress(host) == StrictAddress(Split(payload, '/')[0])
    ensures InBlockText(host, payload)
  {
  }

  lemma {:induction false} BlockMember(payload: string) returns (host: string)
    requires NamesBlock(payload)
    ensures CanonicalHost(host) && InBlockText(host, payload) && '/' !in host
  {
    var range := Split(payload, '/')[0];
    var base := StrictAddress(range).value;
    host := AddressText(base);
    StrictBound(range, Width(base));
    AddressHost(base);
    OwnBlock(host, payload);
  }

  /** Some host in the block is not written like the pattern. */
  lemma {:induction false} OtherMember(p: string, payload: string) returns (host: string)
    requires NamesBlock(payload) && !CanonicalIpv4(p) && !OneSpelling(p)
    requires if '/' in p then payload == p else p == Split(payload, '/')[0]
    ensures CanonicalHost(host) && InBlockText(host, payload) && host != p
  {
    if '/' !in p && ReadsStrictly(p) {
      host := OtherSpelling(p);
      StrictHost(host);
      OwnBlock(host, payload);
    } else {
      host := BlockMember(payload);
      if host == p { HostAddress(host); }
    }
  }

  /** An `ip` rule is compared as text, its line as a block.  They agree if and only if the pattern is an address that
      has one spelling only, or neither applies to any host. */
  lemma {:induction false} AddressesFaithful(rule: Rule, number: string -> JsNumber)
    requires rule.ruleType == IpAddress
    ensures var p := Trim(rule.pattern);
            SameHosts(rule, number) <==>
            if NamesBlock(LinePattern(rule)) then CanonicalIpv4(p) || OneSpelling(p) else !CanonicalHost(p)
  {
    var p := Trim(rule.pattern);
    if CanonicalIpv4(p) || OneSpelling(p) {
      WrittenOnce(p);
      IpKind(rule, p, number);
      forall host | CanonicalHost(host) ensures RuleMatches(rule, host, number) == Some(LineApplies(rule, host)) {
        IpKind(rule, host, number);
      }
    } else {
      SameByAddress(rule, number);
      AddressLine(rule);
      if NamesBlock(LinePattern(rule)) { var host := OtherMember(p, LinePattern(rule)); }
    }
  }

  lemma {:induction false} AcceptedIpv4(p: string, payload: string)
    requires IsIpv4(p) && Split(payload, '/') == [p, "32"]
    ensures if NamesBlock(payload) then CanonicalIpv4(p) else !CanonicalHost(p)
  {
    OctetValue("32");
    NotBoth(p);
  }

  lemma {:induction false} AcceptedIpv6(p: string, payload: string)
    requires IsIpv6(p) && Split(payload, '/') == [p, "128"]
    ensures NamesBlock(payload) <==> ReadsStrictly(p)
    ensures CanonicalHost(p) ==> ReadsStrictly(p)
    ensures !CanonicalIpv4(p)
  {
    OctetValue("128");
    if IsIpv4(p) { NotBoth(p); }
    if IsMixed(p) { MixedLast(p); }
  }

  /** Of the patterns that the panel lets through as addresses, an IPv4 one always compiles faithfully, and an IPv6
      one if and only if it has no second spelling, or the RFC has no such text. */
  lemma {:induction false} Ipv6Spelling(rule: Rule, number: string -> JsNumber)
    requires rule.ruleType == IpAddress && (IsIpv4(Trim(rule.pattern)) || IsIpv6(Trim(rule.pattern)))
    ensures var p := Trim(rule.pattern);
            SameHosts(rule, number) <==> IsIpv4(p) || OneSpelling(p) || !IsHexText(p)
  {
    var p := Trim(rule.pattern);
    AddressesFaithful(rule, number);
    AddressLine(rule);
    ReadsStrictlyIff(p);
    if IsIpv4(p) {
      Ipv4Chars(p);
      NotBoth(p);
      AcceptedIpv4(p, LinePattern(rule));
    } else {
      Slashless(p);
      AcceptedIpv6(p, LinePattern(rule));
    }
  }

  lemma {:induction false} Slashless(p: string)
    requires IsIpv6(p)
    ensures '/' !in p
  {
  }

  // ---------------------------------------------------------------- exactly which blocks compile faithfully

  /** A host in the block of an address, if there is one. */
  predicate Within(host: string, base: Option<Address>, length: nat) {
    AddressOf(host).Some? && base.Some? && InBlock(AddressOf(host).value, base.value, length)
  }

  lemma {:induction false} CidrSides(rule: Rule, host: string, number: string -> JsNumber, pattern: string)
    requires rule.ruleType == Cidr && CanonicalHost(host) && pattern == Trim(rule.pattern)
    ensures RuleMatches(rule, host, number) == IpInCidr(host, pattern, number)
    ensures LineApplies(rule, host) <==> InBlockText(host, pattern)
  {
    HostNormal(host);
    TrimTwice(rule.pattern);
  }

  lemma {:induction false} WithinText(host: string, payload: string, range: string, length: string)
    requires Split(payload, '/') == [range, length] && AllDigits(length) && CanonicalHost(host)
    ensures InBlockText(host, payload) <==> Within(host, StrictAddress(range), DecValue(length))
  {
    HostAddress(host);
  }

  /** With a prefix of digits, rule and line both test membership in a block: the rule in that of the address as the
      panel reads it, the line in that of the address as the RFC has it. */
  lemma {:induction false} BlockKind(rule: Rule, host: string, number: string -> JsNumber)
    requires rule.ruleType == Cidr && CanonicalHost(host) && Decimal(number)
    requires var parts := Split(Trim(rule.pattern), '/'); |parts| == 2 && AllDigits(parts[1])
    ensures var parts := Split(Trim(rule.pattern), '/');
            && RuleMatches(rule, host, number) == Some(Within(host, AddressOf(parts[0]), DecValue(parts[1])))
            && (LineApplies(rule, host) <==> Within(host, StrictAddress(parts[0]), DecValue(parts[1])))
  {
    var pattern := Trim(rule.pattern);
    var parts := Split(pattern, '/');
    CidrSides(rule, host, number, pattern);
    WithinText(host, pattern, parts[0], parts[1]);
    assert number(parts[1]) == Whole(DecValue(parts[1]));
    CidrMeaning(host, pattern, number, parts[0], DecValue(parts[1]));
  }

  lemma {:induction false} MemberOf(base: Address, length: nat) returns (host: string)
    requires base.n < Pow2(Width(base)) && length <= Width(base)
    ensures CanonicalHost(host) && Within(host, Some(base), length)
  {
    host := AddressText(base);
    AddressHost(base);
  }

  /** The panel and the RFC never read two addresses out of one text. */
  lemma {:induction false} OneReading(text: string)
    ensures AddressOf(text) == StrictAddress(text) || AddressOf(text).None? || StrictAddress(text).None?
  {
    if ReadsStrictly(text) { StrictExpands(text); }
    if IsMixed(text) { MixedLast(text); }
  }

  ghost predicate SameMembers(a: Option<Address>, b: Option<Address>, length: nat) {
    forall host | CanonicalHost(host) :: Within(host, a, length) == Within(host, b, length)
  }

  lemma {:induction false} SameBlocks(range: string, length: nat, panel: Option<Address>, strict: Option<Address>)
    requires panel == AddressOf(range) && strict == StrictAddress(range)
    ensures SameMembers(panel, strict, length) <==>
            panel == strict || (!Admits(panel, length) && !Admits(strict, length))
  {
    OneReading(range);
    if panel != strict && Admits(panel, length) {
      PanelBound(range, Width(panel.value));
      var host := MemberOf(panel.value, length);
      assert Within(host, panel, length) != Within(host, strict, length);
    }
    if panel != strict && Admits(strict, length) {
      StrictBound(range, Width(strict.value));
      var host := MemberOf(strict.value, length);
      assert Within(host, panel, length) != Within(host, strict, length);
    }
  }

  lemma {:induction false} DigitsKind(rule: Rule, number: string -> JsNumber, range: string, length: string)
    requires rule.ruleType == Cidr && Decimal(number) && Split(Trim(rule.pattern), '/') == [range, length]
    requires AllDigits(length)
    ensures SameHosts(rule, number) <==> SameMembers(AddressOf(range), StrictAddress(range), DecValue(length))
  {
    var n := DecValue(length);
    forall host | CanonicalHost(host)
      ensures RuleMatches(rule, host, number) == Some(Within(host, AddressOf(range), n))
      ensures LineApplies(rule, host) <==> Within(host, StrictAddress(range), n)
    {
      BlockKind(rule, host, number);
    }
  }

  /** A range that is out of bounds, or no address, has nothing in it. */
  lemma {:induction false} NothingWithin(host: string, cidr: string, number: string -> JsNumber, parts: seq<string>)
    requires parts == Split(cidr, '/')
    requires AddressOf(parts[0]).None?
             || (|parts| > 1 && OutOfRange(number(parts[1]), Width(AddressOf(parts[0]).value)))
    ensures IpInCidr(host, cidr, number) == Some(false)
  {
    if IsIpv4(parts[0]) { NotBoth(parts[0]); }
  }

  /** Otherwise its own address is in it, or the comparison throws. */
  lemma {:induction false} OwnWithin(host: string, cidr: string, number: string -> JsNumber, parts: seq<string>)
    requires parts == Split(cidr, '/') && AddressOf(host) == AddressOf(parts[0]) && AddressOf(host).Some?
    requires |parts| > 1 ==> !OutOfRange(number(parts[1]), Width(AddressOf(host).value))
    ensures IpInCidr(host, cidr, number) != Some(false)
  {
    if IsIpv4(parts[0]) { NotBoth(parts[0]); }
    if IsIpv4(host) { NotBoth(host); }
  }

  /** What a rule tests, and that a line whose prefix is missing, or no digits, applies to nothing. */
  lemma {:induction false} OddSides(rule: Rule, host: string, number: string -> JsNumber, parts: seq<string>)
    requires rule.ruleType == Cidr && parts == Split(Trim(rule.pattern), '/') && CanonicalHost(host)
    requires !(|parts| == 2 && AllDigits(parts[1]))
    ensures RuleMatches(rule, host, number) == IpInCidr(host, Trim(rule.pattern), number) && !LineApplies(rule, host)
  {
    CidrSides(rule, host, number, Trim(rule.pattern));
  }

  lemma {:induction false} OddPrefix(rule: Rule, number: string -> JsNumber, parts: seq<string>)
    requires rule.ruleType == Cidr && parts == Split(Trim(rule.pattern), '/')
    requires !(|parts| == 2 && AllDigits(parts[1]))
    ensures SameHosts(rule, number) <==>
            AddressOf(parts[0]).None? || (|parts| > 1 && OutOfRange(number(parts[1]), Width(AddressOf(parts[0]).value)))
  {
    var p, base := Trim(rule.pattern), AddressOf(parts[0]);
    if base.None? || (|parts| > 1 && OutOfRange(number(parts[1]), Width(base.value))) {
      forall host | CanonicalHost(host) ensures RuleMatches(rule, host, number) == Some(LineApplies(rule, host)) {
        OddSides(rule, host, number, parts);
        NothingWithin(host, p, number, parts);
      }
    } else {
      var host := AddressText(base.value);
      PanelBound(parts[0], Width(base.value));
      AddressHost(base.value);
      OddSides(rule, host, number, parts);
      OwnWithin(host, p, number, parts);
      assert RuleMatches(rule, host, number) != Some(LineApplies(rule, host));
    }
  }

  /** For every pattern of a `cidr` rule. */
  lemma {:induction false} BlocksFaithful(rule: Rule, number: string -> JsNumber)
    requires rule.ruleType == Cidr && Decimal(number)
    ensures SameHosts(rule, number) <==> FaithfulBlock(Trim(rule.pattern), number)
  {
    var parts := Split(Trim(rule.pattern), '/');
    if |parts| == 2 && AllDigits(parts[1]) {
      DigitsKind(rule, number, parts[0], parts[1]);
      SameBlocks(parts[0], DecValue(parts[1]), AddressOf(parts[0]), StrictAddress(parts[0]));
    } else {
      OddPrefix(rule, number, parts);
    }
  }

  /** Of the blocks that the panel lets through, with a prefix of digits in range: those whose address the RFC has. */
  lemma {:induction false} AcceptedBlocks(rule: Rule, number: string -> JsNumber, range: string, length: string)
    requires rule.ruleType == Cidr && Decimal(number) && Split(Trim(rule.pattern), '/') == [range, length]
    requires AllDigits(length) && if IsIpv4(range) then DecValue(length) <= 32 else DecValue(length) <= 128
    requires IsIpv4(range) || IsIpv6(range)
    ensures SameHosts(rule, number) <==> if IsIpv4(range) then CanonicalIpv4(range) else !Lenient(range)
  {
    BlocksFaithful(rule, number);
    StrictDiffers(range);
    if IsIpv4(range) { NotBoth(range); }
    if IsMixed(range) { MixedLast(range); }
  }

  // ---------------------------------------------------------------- all kinds

  /** A rule and its line apply to the same hosts exactly if the rule is faithful. */
  lemma {:induction false} FaithfulIff(rule: Rule, number: string -> JsNumber)
    requires ServerEvaluable(rule.ruleType) && Decimal(number)
    ensures SameHosts(rule, number) <==> Faithful(rule, number)
  {
    match rule.ruleType
    case IpAddress => AddressesFaithful(rule, number);
    case Cidr => BlocksFaithful(rule, number);
    case _ => DomainsFaithful(rule, number);
  }

  lemma {:induction false} LineRead(rule: Rule, host: string, group: string)
    requires ',' !in Trim(rule.pattern) && PlainGroup(group)
    ensures var line := ReadLine(RuleLine(rule, group));
            line.Some? && line.value.policy == TargetOf(rule.action, group)
            && Applies(line.value, host) == LineApplies(rule, host)
  {
    LineReads(rule, group);
  }

  lemma {:induction false} SameAt(rule: Rule, host: string, number: string -> JsNumber)
    requires SameHosts(rule, number) && CanonicalHost(host)
    ensures RuleMatches(rule, host, number) == Some(LineApplies(rule, host))
  {
  }

  /** A line that can be read applies to exactly the hosts that its rule matches. */
  lemma {:induction false} LineKeeps(rule: Rule, host: string, number: string -> JsNumber, group: string)
    requires Compiles(rule, number) && CanonicalHost(host) && Decimal(number) && PlainGroup(group)
    ensures var line := ReadLine(RuleLine(rule, group));
            line.Some? && line.value.policy == TargetOf(rule.action, group)
            && RuleMatches(rule, host, number) == Some(Applies(line.value, host))
  {
    FaithfulIff(rule, number);
    SameAt(rule, host, number);
    LineRead(rule, host, group);
  }

  // ---------------------------------------------------------------- the program

  lemma {:induction false} MatchLine(group: string)
    requires PlainGroup(group)
    ensures ReadLine("MATCH," + group) == Some(ClashRule("MATCH", "", group))
  {
    assert ["MATCH", group][1..] == [group];
    SplitJoin(["MATCH", group], ',');
    assert Join(["MATCH", group], ',') == "MATCH," + group;
    TrimmedTrims("MATCH");
    TrimmedTrims(group);
  }

  lemma {:induction false} RunCons(line: string, lines: seq<string>, host: string, group: string, rule: ClashRule)
    requires ReadLine(line) == Some(rule)
    ensures Run([line] + lines, host, group) == if Applies(rule, host) then Policy(rule.policy, group)
            else Run(lines, host, group)
  {
  }

  lemma {:induction false} LineStep(rule: Rule, lines: seq<string>, host: string, number: string -> JsNumber,
      group: string)
    requires Compiles(rule, number) && CanonicalHost(host) && Decimal(number)
    requires PlainGroup(group) && group != "DIRECT" && group != "REJECT"
    ensures var m := RuleMatches(rule, host, number);
            m.Some? && Run([RuleLine(rule, group)] + lines, host, group) == if m.value then Some(rule.action)
                else Run(lines, host, group)
  {
    LineKeeps(rule, host, number, group);
    PolicyReads(rule.action, group);
    RunCons(RuleLine(rule, group), lines, host, group, ReadLine(RuleLine(rule, group)).value);
  }

  predicate EachCompiles(rules: seq<Rule>, number: string -> JsNumber) { forall r | r in rules :: Compiles(r, number) }

  lemma {:induction false} LinesKeep(rules: seq<Rule>, host: string, number: string -> JsNumber, group: string)
    requires EachCompiles(rules, number) && CanonicalHost(host) && Decimal(number)
    requires PlainGroup(group) && group != "DIRECT" && group != "REJECT"
    ensures var d := FirstMatch(rules, host, Proxy, number);
            d.Some? && Run(RuleLines(rules, group) + ["MATCH," + group], host, group) == Some(d.value.action)
  {
    var tail := ["MATCH," + group];
    if rules == [] {
      MatchLine(group);
      RunCons(tail[0], [], host, group, ClashRule("MATCH", "", group));
      assert RuleLines(rules, group) + tail == tail + [];
    } else {
      var rule, rest := rules[0], rules[1..];
      assert Compiles(rule, number) && EachCompiles(rest, number);
      LinesKeep(rest, host, number, group);
      LineStep(rule, RuleLines(rest, group) + tail, host, number, group);
      assert RuleLines(rules, group) + tail == [RuleLine(rule, group)] + (RuleLines(rest, group) + tail);
    }
  }

  /** Compiling keeps the meaning: a client that runs the document's lines does with every host what `resolveAction`
      decides, with the group as the fallback. */
  lemma {:induction false} MeaningPreserved(rules: seq<Rule>, host: string, group: string, collate: string -> real,
      number: string -> JsNumber)
    requires (forall r | r in rules && r.enabled :: Compiles(r, number)) && CanonicalHost(host) && Decimal(number)
    requires PlainGroup(group) && group != "DIRECT" && group != "REJECT"
    ensures SameAction(rules, host, group, collate, number)
  {
    var sorted := SortRules(rules, collate);
    forall r | r in sorted ensures Compiles(r, number) { SortedRules(rules, collate, r); }
    LinesKeep(sorted, host, number, group);
  }

  /** The document's lines do with a host what `resolveAction` decides. */
  predicate SameAction(rules: seq<Rule>, host: string, group: string, collate: string -> real,
      number: string -> JsNumber) {
    var d := Resolved(rules, host, Proxy, collate, number);
    d.Some? && Run(DocumentRules(rules, group, collate), host, group) == Some(d.value.action)
  }

  /** Rules that a host typed in another case, or with a final dot, cannot mislead: those for domains, and, where the
      host is no address, those for blocks. */
  predicate SeesNames(t: RuleType, host: string) {
    IsDomainKind(t) || (t.Cidr? && !IsIpv4(host) && !IsIpv6(host))
  }

  lemma {:induction false} TypedAddress(text: string, host: string)
    requires Names(text, host) && (IsIpv4(text) || IsIpv6(text))
    ensures IsIpv4(host) || IsIpv6(host)
  {
    if IsIpv4(text) {
      Ipv4Chars(text);
      Ipv4End(text);
      LowerStays(text);
    } else {
      assert text[|text| - 1] in text;
      forall c | c in host ensures IsHex(c) || c == ':' {
        var i :| 0 <= i < |host| && host[i] == c;
        assert text[i] in text;
      }
      var i :| 0 <= i < |text| && text[i] == ':';
      assert host[i] == ':';
    }
  }

  lemma {:induction false} TypedNoAddress(text: string, host: string)
    requires Names(text, host) && !IsIpv4(host) && !IsIpv6(host)
    ensures !IsIpv4(text) && !IsIpv6(text)
  {
    if IsIpv4(text) || IsIpv6(text) { TypedAddress(text, host); }
  }

  /** What is typed for a host is treated like the host. */
  lemma {:induction false} TypedHost(rule: Rule, typed: string, host: string, number: string -> JsNumber)
    requires CanonicalHost(host) && Types(typed, host) && SeesNames(rule.ruleType, host)
    ensures RuleMatches(rule, typed, number) == RuleMatches(rule, host, number)
  {
    HostTypes(host);
    TypesIff(typed, host);
    BlankTrim(typed);
    BlankTrim(host);
    if IsDomainKind(rule.ruleType) {
      TypedAlike(rule, typed, host, host, number);
    } else {
      var text :| Around(typed, text) && Names(text, host);
      TypedNoAddress(text, host);
      TrimIff(rule.pattern, Trim(rule.pattern));
      BlockRule(rule, typed, number, text, Trim(rule.pattern));
      BlockRule(rule, host, number, host, Trim(rule.pattern));
    }
  }

  lemma {:induction false} HostTypes(host: string)
    requires CanonicalHost(host)
    ensures Types(host, host) && Around(host, host)
  {
    HostNormal(host);
    TypesIff(host, host);
    TrimIff(host, host);
  }

  /** The engine is given what users type, and clients look at the host they connect to.  White space around a host
      makes no difference; neither do case and a final dot, where no rule compares addresses. */
  lemma {:induction false} TypedMeaning(rules: seq<Rule>, typed: string, host: string, group: string,
      collate: string -> real, number: string -> JsNumber)
    requires (forall r | r in rules && r.enabled :: Compiles(r, number)) && CanonicalHost(host) && Decimal(number)
    requires PlainGroup(group) && group != "DIRECT" && group != "REJECT"
    requires Around(typed, host)
             || (Types(typed, host) && forall r | r in rules && r.enabled :: SeesNames(r.ruleType, host))
    ensures var d := Resolved(rules, typed, Proxy, collate, number);
            d.Some? && Run(DocumentRules(rules, group, collate), host, group) == Some(d.value.action)
  {
    MeaningPreserved(rules, host, group, collate, number);
    HostTypes(host);
    var sorted := SortRules(rules, collate);
    forall r | r in sorted ensures RuleMatches(r, typed, number) == RuleMatches(r, host, number) {
      SortedRules(rules, collate, r);
      if Around(typed, host) { SpacedAlike(r, typed, host, host, number); }
      else { TypedHost(r, typed, host, number); }
    }
    FirstMatchAlike(sorted, typed, host, Proxy, number);
  }

  lemma {:induction false} OneSorted(rule: Rule, collate: string -> real)
    requires rule.enabled
    ensures SortRules([rule], collate) == [rule]
  {
    assert [rule][1..] == [];
  }

  /** What a document with one rule does. */
  lemma {:induction false} OneRun(rule: Rule, host: string, group: string, collate: string -> real,
      number: string -> JsNumber)
    requires rule.enabled && ',' !in Trim(rule.pattern)
    requires PlainGroup(group) && group != "DIRECT" && group != "REJECT"
    ensures Run(DocumentRules([rule], group, collate), host, group) ==
            Some(if LineApplies(rule, host) then rule.action else Proxy)
  {
    var line, last := RuleLine(rule, group), "MATCH," + group;
    OneSorted(rule, collate);
    LineRead(rule, host, group);
    PolicyReads(rule.action, group);
    MatchLine(group);
    RunCons(line, [last], host, group, ReadLine(line).value);
    RunCons(last, [], host, group, ClashRule("MATCH", "", group));
    assert [rule][1..] == [] && RuleLines([rule], group) == [line];
    assert [last] + [] == [last] && DocumentRules([rule], group, collate) == [line] + [last];
  }

  lemma {:induction false} OneResolved(rule: Rule, host: string, collate: string -> real, number: string -> JsNumber)
    requires rule.enabled
    ensures var m, d := RuleMatches(rule, host, number), Resolved([rule], host, Proxy, collate, number);
            (d.Some? <==> m.Some?) && (d.Some? ==> d.value.action == if m.value then rule.action else Proxy)
  {
    OneSorted(rule, collate);
    assert [rule][1..] == [];
    assert FirstMatch([], host, Proxy, number) == Some(Decision(Proxy, None));
  }

  /** The condition is needed: on its own, a rule for an action of its own keeps its meaning only if it is faithful. */
  lemma {:induction false} FaithfulNeeded(rule: Rule, group: string, collate: string -> real,
      number: string -> JsNumber)
    requires rule.enabled && ServerEvaluable(rule.ruleType) && ',' !in Trim(rule.pattern) && rule.action != Proxy
    requires PlainGroup(group) && group != "DIRECT" && group != "REJECT" && Decimal(number)
    ensures (forall host | CanonicalHost(host) :: SameAction([rule], host, group, collate, number)) <==>
            Faithful(rule, number)
  {
    forall host | CanonicalHost(host)
      ensures SameAction([rule], host, group, collate, number) <==>
              RuleMatches(rule, host, number) == Some(LineApplies(rule, host))
    {
      OneRun(rule, host, group, collate, number);
      OneResolved(rule, host, collate, number);
    }
    FaithfulIff(rule, number);
  }

  /** The group's name must not be that of a built-in policy: for all other names every action reads back. */
  lemma {:induction false} GroupNames(group: string)
    ensures (forall a :: Policy(TargetOf(a, group), group) == Some(a)) <==> group != "DIRECT" && group != "REJECT"
  {
    assert Policy(TargetOf(Proxy, group), group) == Some(Proxy) ==> group != "DIRECT" && group != "REJECT";
  }
}
