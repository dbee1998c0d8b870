/** The balancer: candidates ranked by a strategy, a weighted pick, and failover. */
module Balancer {
  import opened Text
  import opened Sorting

  datatype Health = Healthy | Degraded | Unknown | Unreachable | Disabled

  datatype Strategy = ByPriority | ByWeight | ByLatency | ByHealth

  datatype Candidate = Candidate(id: string, priority: int, weight: real, health: Health, latencyMs: Option<real>,
      enabled: bool)

  /** `HEALTH_RANK` */
  function HealthRank(h: Health): int {
    match h
    case Healthy => 0
    case Degraded => 1
    case Unknown => 2
    case Unreachable => 3
    case Disabled => 4
  }

  const MAX_SAFE_INTEGER: real := 9007199254740991.0

  function Latency(c: Candidate): real { c.latencyMs.GetOr(MAX_SAFE_INTEGER) }

  /** `isUsable` */
  predicate IsUsable(c: Candidate) { c.enabled && c.health != Unreachable && c.health != Disabled }

  function Usable(): Candidate -> bool { (c: Candidate) => IsUsable(c) }

  /** The comparison function of `rankCandidates`; `collate` ranks ids as `localeCompare` does. */
  function Compare(a: Candidate, b: Candidate, strategy: Strategy, collate: string -> real): real {
    var healthDiff := (HealthRank(a.health) - HealthRank(b.health)) as real;
    if strategy == ByHealth && healthDiff != 0.0 then healthDiff
    else if strategy == ByLatency && Latency(a) != Latency(b) then Latency(a) - Latency(b)
    else if a.priority != b.priority then (a.priority - b.priority) as real
    else if (strategy == ByWeight || strategy == ByPriority) && a.weight != b.weight then b.weight - a.weight
    else if healthDiff != 0.0 then healthDiff
    else if Latency(a) != Latency(b) then Latency(a) - Latency(b)
    else collate(a.id) - collate(b.id)
  }

  function InOrder(strategy: Strategy, collate: string -> real): (Candidate, Candidate) -> bool {
    (a, b) => Compare(a, b, strategy, collate) <= 0.0
  }

  /** `rankCandidates` */
  function RankCandidates(candidates: seq<Candidate>, strategy: Strategy, collate: string -> real): seq<Candidate> {
    Sorted(Filter(candidates, Usable()), InOrder(strategy, collate))
  }

  // ---------------------------------------------------------------- the order

  /** What each strategy ranks by, most important first. */
  function RankKey(c: Candidate, strategy: Strategy, collate: string -> real): seq<real> {
    var priority, health := c.priority as real, HealthRank(c.health) as real;
    match strategy
    case ByHealth => [health, priority, Latency(c), collate(c.id)]
    case ByLatency => [Latency(c), priority, health, collate(c.id)]
    case ByWeight => [priority, -c.weight, health, Latency(c), collate(c.id)]
    case ByPriority => [priority, -c.weight, health, Latency(c), collate(c.id)]
  }

  /** Lexicographic order. */
  predicate LexLe(a: seq<real>, b: seq<real>) {
    a == [] || (b != [] && (a[0] < b[0] || (a[0] == b[0] && LexLe(a[1..], b[1..]))))
  }

  lemma {:induction false} LexCons(x: real, a: seq<real>, y: real, b: seq<real>)
    ensures LexLe([x] + a, [y] + b) <==> x < y || (x == y && LexLe(a, b))
  {
  }

  lemma {:induction false} LexFour(a: real, b: real, c: real, d: real, a': real, b': real, c': real, d': real)
    ensures LexLe([a, b, c, d], [a', b', c', d']) <==>
            a < a' || (a == a' && (b < b' || (b == b' && (c < c' || (c == c' && d <= d')))))
  {
    LexCons(c, [d], c', [d']);
    LexCons(b, [c, d], b', [c', d']);
    LexCons(a, [b, c, d], a', [b', c', d']);
    assert [a, b, c, d] == [a] + [b, c, d] && [a', b', c', d'] == [a'] + [b', c', d'];
    assert [b, c, d] == [b] + [c, d] && [b', c', d'] == [b'] + [c', d'];
    assert [c, d] == [c] + [d] && [c', d'] == [c'] + [d'];
  }

  /** The comparison, branch by branch, is the lexicographic order of the keys. */
  lemma {:induction false} CompareIsKeyOrder(a: Candidate, b: Candidate, strategy: Strategy, collate: string -> real)
    ensures Compare(a, b, strategy, collate) <= 0.0
            <==> LexLe(RankKey(a, strategy, collate), RankKey(b, strategy, collate))
  {
    var x, y := RankKey(a, strategy, collate), RankKey(b, strategy, collate);
    if strategy == ByHealth || strategy == ByLatency {
      LexFour(x[0], x[1], x[2], x[3], y[0], y[1], y[2], y[3]);
      assert x == [x[0], x[1], x[2], x[3]] && y == [y[0], y[1], y[2], y[3]];
    } else {
      LexFour(x[1], x[2], x[3], x[4], y[1], y[2], y[3], y[4]);
      LexCons(x[0], [x[1], x[2], x[3], x[4]], y[0], [y[1], y[2], y[3], y[4]]);
      assert x == [x[0]] + [x[1], x[2], x[3], x[4]] && y == [y[0]] + [y[1], y[2], y[3], y[4]];
    }
  }

  lemma {:induction false} LexTotal(a: seq<real>, b: seq<real>)
    ensures LexLe(a, b) || LexLe(b, a)
  {
    if a != [] && b != [] { LexTotal(a[1..], b[1..]); }
  }

  lemma {:induction false} LexTransitive(a: seq<real>, b: seq<real>, c: seq<real>)
    requires LexLe(a, b) && LexLe(b, c)
    ensures LexLe(a, c)
  {
    if a != [] && a[0] == b[0] == c[0] { LexTransitive(a[1..], b[1..], c[1..]); }
  }

  lemma {:induction false} LexAntisymmetric(a: seq<real>, b: seq<real>)
    requires LexLe(a, b) && LexLe(b, a)
    ensures a == b
  {
    if a != [] {
      LexAntisymmetric(a[1..], b[1..]);
      assert a == [a[0]] + a[1..] && b == [b[0]] + b[1..];
    }
  }

  lemma {:induction false} RankIsPreorder(strategy: Strategy, collate: string -> real)
    ensures TotalPreorder(InOrder(strategy, collate))
  {
    var le := InOrder(strategy, collate);
    forall a, b ensures le(a, b) || le(b, a) {
      CompareIsKeyOrder(a, b, strategy, collate);
      CompareIsKeyOrder(b, a, strategy, collate);
      LexTotal(RankKey(a, strategy, collate), RankKey(b, strategy, collate));
    }
    forall a, b, c | le(a, b) && le(b, c) ensures le(a, c) {
      CompareIsKeyOrder(a, b, strategy, collate);
      CompareIsKeyOrder(b, c, strategy, collate);
      CompareIsKeyOrder(a, c, strategy, collate);
      LexTransitive(RankKey(a, strategy, collate), RankKey(b, strategy, collate), RankKey(c, strategy, collate));
    }
  }

  /** No two candidates have the same id, as collation sees ids. */
  ghost predicate DistinctIds(candidates: seq<Candidate>, collate: string -> real) {
    forall a, b | a in candidates && b in candidates && collate(a.id) == collate(b.id) :: a == b
  }

  lemma {:induction false} KeysTell(a: Candidate, b: Candidate, strategy: Strategy, collate: string -> real)
    requires InOrder(strategy, collate)(a, b) && InOrder(strategy, collate)(b, a)
    ensures collate(a.id) == collate(b.id)
  {
  }

  lemma {:induction false} NoTies(candidates: seq<Candidate>, strategy: Strategy, collate: string -> real)
    requires DistinctIds(candidates, collate)
    ensures Strict(Filter(candidates, Usable()), InOrder(strategy, collate))
  {
    var le := InOrder(strategy, collate);
    forall x, y | x in Filter(candidates, Usable()) && y in Filter(candidates, Usable()) && le(x, y) && le(y, x)
      ensures x == y
    {
      KeysTell(x, y, strategy, collate);
    }
  }

  /** The ranking is the one ordered arrangement of the usable candidates. */
  lemma {:induction false} RankUnique(candidates: seq<Candidate>, strategy: Strategy, collate: string -> real,
      other: seq<Candidate>)
    requires DistinctIds(candidates, collate)
    ensures var ranked := RankCandidates(candidates, strategy, collate); var usable := Filter(candidates, Usable());
            && multiset(ranked) == multiset(usable) && Ordered(ranked, InOrder(strategy, collate))
            && (multiset(other) == multiset(usable) && Ordered(other, InOrder(strategy, collate)) ==> other == ranked)
  {
    var le, usable := InOrder(strategy, collate), Filter(candidates, Usable());
    RankIsPreorder(strategy, collate);
    SortedElements(usable, le);
    SortedOrdered(usable, le);
    if multiset(other) == multiset(usable) && Ordered(other, le) {
      NoTies(candidates, strategy, collate);
      forall x, y | x in other && y in other && le(x, y) && le(y, x)
        ensures x == y
      {
        assert x in multiset(other) && y in multiset(other);
      }
      OrderedUnique(other, Sorted(usable, le), le);
    }
  }

  /** It does not depend on the order of the input. */
  lemma {:induction false} RankPermutation(candidates: seq<Candidate>, permuted: seq<Candidate>, strategy: Strategy,
      collate: string -> real)
    requires DistinctIds(candidates, collate) && multiset(candidates) == multiset(permuted)
    ensures RankCandidates(candidates, strategy, collate) == RankCandidates(permuted, strategy, collate)
  {
    RankIsPreorder(strategy, collate);
    NoTies(candidates, strategy, collate);
    FilterPermutation(candidates, permuted, Usable());
    SortedPermutation(Filter(candidates, Usable()), Filter(permuted, Usable()), InOrder(strategy, collate));
  }

  // ---------------------------------------------------------------- the ranking by the candidates' fields

  /** The better of the three states in which a candidate is ranked. */
  predicate Healthier(a: Health, b: Health) {
    (a == Healthy && (b == Degraded || b == Unknown)) || (a == Degraded && b == Unknown)
  }

  /** A latency that was not measured counts as the largest safe integer. */
  predicate Faster(a: Option<real>, b: Option<real>) {
    match (a, b)
    case (Some(x), Some(y)) => x < y
    case (Some(x), None) => x < 9007199254740991.0
    case (None, Some(y)) => 9007199254740991.0 < y
    case (None, None) => false
  }

  /** One criterion, and where it does not tell the two apart the next. */
  predicate Then(less: bool, greater: bool, next: bool) { less || (!greater && next) }

  /** A candidate stands before another: by what its strategy looks at, in that order. */
  predicate StandsBefore(a: Candidate, b: Candidate, strategy: Strategy, collate: string -> real) {
    var byId := collate(a.id) < collate(b.id);
    var slower, sicker := Faster(b.latencyMs, a.latencyMs), Healthier(b.health, a.health);
    var byLatency := Then(Faster(a.latencyMs, b.latencyMs), slower, byId);
    var byHealth := Then(Healthier(a.health, b.health), sicker, byId);
    match strategy
    case ByHealth =>
      Then(Healthier(a.health, b.health), sicker, Then(a.priority < b.priority, a.priority > b.priority, byLatency))
    case ByLatency =>
      Then(Faster(a.latencyMs, b.latencyMs), slower, Then(a.priority < b.priority, a.priority > b.priority, byHealth))
    case _ =>
      Then(a.priority < b.priority, a.priority > b.priority, Then(a.weight > b.weight, a.weight < b.weight,
          Then(Healthier(a.health, b.health), sicker, byLatency)))
  }

  predicate Ranked(h: Health) { h == Healthy || h == Degraded || h == Unknown }

  lemma {:induction false} StandsIff(a: Candidate, b: Candidate, strategy: Strategy, collate: string -> real)
    requires Ranked(a.health) && Ranked(b.health)
    ensures StandsBefore(a, b, strategy, collate) <==> !InOrder(strategy, collate)(b, a)
  {
    assert Healthier(a.health, b.health) <==> HealthRank(a.health) < HealthRank(b.health);
    assert Healthier(b.health, a.health) <==> HealthRank(b.health) < HealthRank(a.health);
    assert Faster(a.latencyMs, b.latencyMs) <==> Latency(a) < Latency(b);
    assert Faster(b.latencyMs, a.latencyMs) <==> Latency(b) < Latency(a);
  }

  /** The enabled candidates that are healthy, degraded or unknown are ranked, and no others; and nobody stands behind
      another that should stand before them. */
  lemma {:induction false} RankedByFields(candidates: seq<Candidate>, strategy: Strategy, collate: string -> real)
    ensures var ranked := RankCandidates(candidates, strategy, collate);
            && (forall c :: c in ranked <==> c in candidates && c.enabled && Ranked(c.health))
            && (forall i, j | 0 <= i < j < |ranked| :: !StandsBefore(ranked[j], ranked[i], strategy, collate))
  {
    var ranked, usable := RankCandidates(candidates, strategy, collate), Filter(candidates, Usable());
    forall c ensures c in ranked <==> c in candidates && c.enabled && Ranked(c.health) {
      RankedMembers(candidates, strategy, collate, c);
    }
    RankIsPreorder(strategy, collate);
    SortedOrdered(usable, InOrder(strategy, collate));
    forall i, j | 0 <= i < j < |ranked| ensures !StandsBefore(ranked[j], ranked[i], strategy, collate) {
      assert ranked[i] in ranked && ranked[j] in ranked;
      StandsIff(ranked[j], ranked[i], strategy, collate);
    }
  }

  // ---------------------------------------------------------------- health and the other criteria

  /** A candidate stands before another whatever their health. */
  predicate Overtakes(b: Candidate, a: Candidate, strategy: Strategy) {
    match strategy
    case ByHealth => false
    case ByLatency => Latency(b) < Latency(a) || (Latency(b) == Latency(a) && b.priority < a.priority)
    case ByWeight => b.priority < a.priority || (b.priority == a.priority && b.weight > a.weight)
    case ByPriority => b.priority < a.priority || (b.priority == a.priority && b.weight > a.weight)
  }

  lemma {:induction false} WorseHealth(b: Candidate, a: Candidate, strategy: Strategy, collate: string -> real)
    requires HealthRank(a.health) < HealthRank(b.health)
    ensures InOrder(strategy, collate)(b, a) <==> Overtakes(b, a, strategy)
    ensures InOrder(strategy, collate)(a, b) <==> !Overtakes(b, a, strategy)
  {
  }

  /** Along the ranking health never gets better. */
  predicate HealthOrdered(ranked: seq<Candidate>) {
    forall i, j | 0 <= i < j < |ranked| :: HealthRank(ranked[i].health) <= HealthRank(ranked[j].health)
  }

  /** A usable candidate of worse health overtakes a usable one. */
  predicate SomeOvertakes(candidates: seq<Candidate>, strategy: Strategy) {
    exists a, b | a in candidates && b in candidates ::
      IsUsable(a) && IsUsable(b) && HealthRank(a.health) < HealthRank(b.health) && Overtakes(b, a, strategy)
  }

  lemma {:induction false} RankedMembers(candidates: seq<Candidate>, strategy: Strategy, collate: string -> real,
      c: Candidate)
    ensures c in RankCandidates(candidates, strategy, collate) <==> c in candidates && IsUsable(c)
  {
    SortedMembers(Filter(candidates, Usable()), InOrder(strategy, collate), c);
    FilterMembers(candidates, Usable(), c);
  }

  /** Healthier candidates come first if and only if no usable one of worse health overtakes by what the strategy looks
      at before health. */
  lemma {:induction false} HealthFirstIff(candidates: seq<Candidate>, strategy: Strategy, collate: string -> real)
    ensures HealthOrdered(RankCandidates(candidates, strategy, collate)) <==> !SomeOvertakes(candidates, strategy)
  {
    var ranked, le := RankCandidates(candidates, strategy, collate), InOrder(strategy, collate);
    RankIsPreorder(strategy, collate);
    SortedOrdered(Filter(candidates, Usable()), le);
    if SomeOvertakes(candidates, strategy) {
      var a, b :| a in candidates && b in candidates && IsUsable(a) && IsUsable(b)
        && HealthRank(a.health) < HealthRank(b.health) && Overtakes(b, a, strategy);
      RankedMembers(candidates, strategy, collate, a);
      RankedMembers(candidates, strategy, collate, b);
      WorseHealth(b, a, strategy, collate);
      var i :| 0 <= i < |ranked| && ranked[i] == b;
      var j :| 0 <= j < |ranked| && ranked[j] == a;
    } else {
      forall i, j | 0 <= i < j < |ranked| ensures HealthRank(ranked[i].health) <= HealthRank(ranked[j].health) {
        NotOvertaken(candidates, strategy, collate, i, j);
      }
    }
  }

  lemma {:induction false} NotOvertaken(candidates: seq<Candidate>, strategy: Strategy, collate: string -> real, i: nat,
      j: nat)
    requires var ranked := RankCandidates(candidates, strategy, collate);
             i < j < |ranked| && InOrder(strategy, collate)(ranked[i], ranked[j])
    requires !SomeOvertakes(candidates, strategy)
    ensures var ranked := RankCandidates(candidates, strategy, collate);
            HealthRank(ranked[i].health) <= HealthRank(ranked[j].health)
  {
    var ranked := RankCandidates(candidates, strategy, collate);
    var b, a := ranked[i], ranked[j];
    RankedMembers(candidates, strategy, collate, a);
    RankedMembers(candidates, strategy, collate, b);
    if HealthRank(a.health) < HealthRank(b.health) { WorseHealth(b, a, strategy, collate); }
  }

  /** So the `health` strategy always puts healthier candidates first. */
  lemma {:induction false} HealthierFirst(candidates: seq<Candidate>, collate: string -> real, i: nat, j: nat)
    requires var ranked := RankCandidates(candidates, ByHealth, collate); i < j < |ranked|
    ensures var ranked := RankCandidates(candidates, ByHealth, collate);
            HealthRank(ranked[i].health) <= HealthRank(ranked[j].health)
  {
    HealthFirstIff(candidates, ByHealth, collate);
  }

  /** And under every strategy, of two candidates the one of worse health comes first exactly when it overtakes. */
  lemma {:induction false} HealthierNotFirst(sick: Candidate, well: Candidate, strategy: Strategy,
      collate: string -> real)
    requires IsUsable(sick) && IsUsable(well) && HealthRank(well.health) < HealthRank(sick.health)
    ensures RankCandidates([well, sick], strategy, collate) ==
            if Overtakes(sick, well, strategy) then [sick, well] else [well, sick]
  {
    var le := InOrder(strategy, collate);
    WorseHealth(sick, well, strategy, collate);
    assert [well, sick][1..] == [sick] && [sick][1..] == [];
    assert Filter([sick], Usable()) == [sick] && Filter([well, sick], Usable()) == [well, sick];
    assert Sorted([sick], le) == [sick];
    assert Insert(well, [sick], le) == if le(well, sick) then [well] + [sick] else [sick] + Insert(well, [], le);
  }

  // ---------------------------------------------------------------- failover

  function NotIn(ids: seq<string>): Candidate -> bool { (c: Candidate) => c.id !in ids }

  /** `failover` */
  function Failover(candidates: seq<Candidate>, strategy: Strategy, failedIds: seq<string>,
      collate: string -> real): Option<Candidate> {
    var ranked := RankCandidates(Filter(candidates, NotIn(failedIds)), strategy, collate);
    if ranked == [] then None else Some(ranked[0])
  }

  /** Ranking commutes with taking candidates away. */
  lemma {:induction false} RankRemoved(candidates: seq<Candidate>, strategy: Strategy, collate: string -> real,
      keep: Candidate -> bool)
    ensures RankCandidates(Filter(candidates, keep), strategy, collate) ==
            Filter(RankCandidates(candidates, strategy, collate), keep)
  {
    RankIsPreorder(strategy, collate);
    FiltersCommute(candidates, keep, Usable());
    FilterSorted(Filter(candidates, Usable()), InOrder(strategy, collate), keep);
  }

  function Ids(s: seq<Candidate>): seq<string> { if s == [] then [] else Ids(s[..|s| - 1]) + [s[|s| - 1].id] }

  lemma {:induction false} IdsMembers(s: seq<Candidate>, id: string)
    ensures id in Ids(s) <==> exists i :: 0 <= i < |s| && s[i].id == id
  {
    if s != [] {
      IdsMembers(s[..|s| - 1], id);
      if exists i :: 0 <= i < |s| && s[i].id == id {
        var i :| 0 <= i < |s| && s[i].id == id;
        if i < |s| - 1 { assert s[..|s| - 1][i].id == id; }
      }
    }
  }

  lemma {:induction false} Associative(x: Candidate, a: seq<Candidate>, b: seq<Candidate>)
    ensures [x] + a + b == [x] + (a + b)
  {
  }

  lemma {:induction false} FilterConcat(a: seq<Candidate>, b: seq<Candidate>, p: Candidate -> bool)
    ensures Filter(a + b, p) == Filter(a, p) + Filter(b, p)
  {
    if a == [] {
      assert a + b == b;
    } else {
      var x, rest := a[0], a[1..];
      FilterConcat(rest, b, p);
      Associative(x, rest, b);
      Associative(x, Filter(rest, p), Filter(b, p));
      FilterCons(x, rest + b, p);
      FilterCons(x, rest, p);
      assert a == [x] + rest;
    }
  }

  lemma {:induction false} FilterAll(s: seq<Candidate>, p: Candidate -> bool)
    ensures (forall c | c in s :: p(c)) ==> Filter(s, p) == s
    ensures (forall c | c in s :: !p(c)) ==> Filter(s, p) == []
  {
    if s != [] {
      FilterAll(s[1..], p);
      FilterCons(s[0], s[1..], p);
      assert s == [s[0]] + s[1..];
    }
  }

  /** No two places of a list hold the same id. */
  ghost predicate IdsOnce(s: seq<Candidate>) { forall i, j | 0 <= i < j < |s| :: s[i].id != s[j].id }

  lemma {:induction false} FirstOut(ranked: seq<Candidate>, k: nat)
    requires k <= |ranked|
    ensures Filter(ranked[..k], NotIn(Ids(ranked[..k]))) == []
  {
    var first := ranked[..k];
    forall c | c in first ensures c.id in Ids(first) { IdsMembers(first, c.id); }
    FilterAll(first, NotIn(Ids(first)));
  }

  lemma {:induction false} RestStays(ranked: seq<Candidate>, k: nat)
    requires IdsOnce(ranked) && k <= |ranked|
    ensures Filter(ranked[k..], NotIn(Ids(ranked[..k]))) == ranked[k..]
  {
    var first, rest := ranked[..k], ranked[k..];
    forall c | c in rest ensures c.id !in Ids(first) {
      IdsMembers(first, c.id);
      var j :| 0 <= j < |rest| && rest[j] == c;
      assert ranked[k + j] == c;
    }
    FilterAll(rest, NotIn(Ids(first)));
  }

  lemma {:induction false} SplitAt(s: seq<Candidate>, k: nat)
    requires k <= |s|
    ensures s[..k] + s[k..] == s
  {
  }

  lemma {:induction false} OnlyRest(first: seq<Candidate>, rest: seq<Candidate>, p: Candidate -> bool)
    requires Filter(first, p) == [] && Filter(rest, p) == rest
    ensures Filter(first + rest, p) == rest
  {
    FilterConcat(first, rest, p);
  }

  lemma {:induction false} PartsFiltered(ranked: seq<Candidate>, first: seq<Candidate>, rest: seq<Candidate>,
      failed: seq<string>, k: nat)
    requires IdsOnce(ranked) && k <= |ranked| && first == ranked[..k] && rest == ranked[k..] && failed == Ids(first)
    ensures Filter(first, NotIn(failed)) == [] && Filter(rest, NotIn(failed)) == rest
  {
    FirstOut(ranked, k);
    RestStays(ranked, k);
  }

  /** Without the first `k` of a ranking the rest is left, in order. */
  lemma {:induction false} RestRemains(ranked: seq<Candidate>, first: seq<Candidate>, rest: seq<Candidate>,
      failed: seq<string>, k: nat)
    requires IdsOnce(ranked) && k <= |ranked| && first == ranked[..k] && rest == ranked[k..] && failed == Ids(first)
    ensures Filter(ranked, NotIn(failed)) == rest
  {
    PartsFiltered(ranked, first, rest, failed, k);
    OnlyRest(first, rest, NotIn(failed));
    SplitAt(ranked, k);
  }

  /** The candidates that failing over again and again, each time with the last one's id added, goes through. */
  method FailoverAll(candidates: seq<Candidate>, strategy: Strategy, collate: string -> real)
      returns (visited: seq<Candidate>)
    requires IdsOnce(RankCandidates(candidates, strategy, collate))
    ensures visited == RankCandidates(candidates, strategy, collate)
  {
    ghost var ranked := RankCandidates(candidates, strategy, collate);
    ghost var k := 0;
    var failedIds: seq<string> := [];
    visited := [];
    FailoverNext(candidates, strategy, collate, ranked, 0);
    var next := Failover(candidates, strategy, failedIds, collate);
    while next.Some?
      invariant k <= |ranked| && visited == ranked[..k] && failedIds == Ids(ranked[..k])
      invariant next == if k == |ranked| then None else Some(ranked[k])
      decreases |ranked| - k
    {
      visited := visited + [next.value];
      failedIds := failedIds + [next.value.id];
      k := k + 1;
      FailoverNext(candidates, strategy, collate, ranked, k);
      next := Failover(candidates, strategy, failedIds, collate);
    }
  }

  /** After the first `k` have failed, the next is the one ranked behind them; after all, none. */
  lemma {:induction false} FailoverNext(candidates: seq<Candidate>, strategy: Strategy, collate: string -> real,
      ranked: seq<Candidate>, k: nat)
    requires ranked == RankCandidates(candidates, strategy, collate) && IdsOnce(ranked) && k <= |ranked|
    ensures Failover(candidates, strategy, Ids(ranked[..k]), collate) == if k == |ranked| then None else Some(ranked[k])
  {
    RankRemoved(candidates, strategy, collate, NotIn(Ids(ranked[..k])));
    RestRemains(ranked, ranked[..k], ranked[k..], Ids(ranked[..k]), k);
  }

  lemma {:induction false} CountedTwice(s: seq<Candidate>, i: nat, j: nat)
    requires i < j < |s| && s[i] == s[j]
    ensures multiset(s)[s[i]] >= 2
  {
    assert s == s[..j] + s[j..];
    assert s[i] in s[..j] && s[j] in s[j..];
  }

  lemma {:induction false} RankedOnce(candidates: seq<Candidate>, strategy: Strategy, collate: string -> real,
      x: Candidate)
    requires IdsOnce(candidates) && x in RankCandidates(candidates, strategy, collate)
    ensures x in candidates && multiset(RankCandidates(candidates, strategy, collate))[x] <= 1
  {
    var usable := Filter(candidates, Usable());
    SortedElements(usable, InOrder(strategy, collate));
    assert x in multiset(usable);
    FilterCount(candidates, Usable(), x);
    OnlyOnce(candidates, x);
  }

  /** With distinct ids in the input, each once, a ranking has no id twice. */
  lemma {:induction false} RankIdsOnce(candidates: seq<Candidate>, strategy: Strategy, collate: string -> real)
    requires IdsOnce(candidates)
    ensures IdsOnce(RankCandidates(candidates, strategy, collate))
  {
    var ranked := RankCandidates(candidates, strategy, collate);
    forall i, j | 0 <= i < j < |ranked| ensures ranked[i].id != ranked[j].id {
      RankedOnce(candidates, strategy, collate, ranked[i]);
      RankedOnce(candidates, strategy, collate, ranked[j]);
      if ranked[i] == ranked[j] { CountedTwice(ranked, i, j); }
      IdsTell(candidates, ranked[i], ranked[j]);
    }
  }

  lemma {:induction false} IdsTell(s: seq<Candidate>, x: Candidate, y: Candidate)
    requires IdsOnce(s) && x in s && y in s && x != y
    ensures x.id != y.id
  {
    var a :| 0 <= a < |s| && s[a] == x;
    var b :| 0 <= b < |s| && s[b] == y;
  }

  lemma {:induction false} OnlyOnce(s: seq<Candidate>, x: Candidate)
    requires IdsOnce(s)
    ensures multiset(s)[x] <= 1
  {
    if s != [] {
      var last := |s| - 1;
      OnlyOnce(s[..last], x);
      assert s == s[..last] + [s[last]];
      if s[last] == x { assert x !in s[..last]; }
    }
  }

  // ---------------------------------------------------------------- picking

  function Max(a: real, b: real): real { if a < b then b else a }

  function Min(a: real, b: real): real { if a < b then a else b }

  /** `Math.max(c.weight, 0)` */
  function Weight(c: Candidate): real { Max(c.weight, 0.0) }

  function TotalWeight(tier: seq<Candidate>): (w: real)
    ensures w >= 0.0
  {
    if tier == [] then 0.0 else TotalWeight(tier[..|tier| - 1]) + Weight(tier[|tier| - 1])
  }

  function AtPriority(priority: int): Candidate -> bool { (c: Candidate) => c.priority == priority }

  /** The candidates of the ranking's first priority. */
  function TopTier(ranked: seq<Candidate>): (tier: seq<Candidate>)
    requires ranked != []
    ensures tier != []
  {
    Filter(ranked, AtPriority(ranked[0].priority))
  }

  const ALMOST_ONE: real := 0.999999

  /** `Math.min(Math.max(rand, 0), 0.999999)` */
  function Clamp(rand: real): (r: real)
    ensures 0.0 <= r <= ALMOST_ONE
  {
    Min(Max(rand, 0.0), ALMOST_ONE)
  }

  /** Which candidate's share of the total weight holds the threshold: the shares lie side by side from 0. */
  predicate InShare(tier: seq<Candidate>, i: nat, t: real)
    requires i < |tier|
  {
    TotalWeight(tier[..i]) <= t < TotalWeight(tier[..i + 1])
  }

  /** The candidate whose share holds the threshold. */
  predicate HoldsShare(tier: seq<Candidate>, t: real, c: Candidate) {
    exists i :: 0 <= i < |tier| && c == tier[i] && InShare(tier, i, t)
  }

  function Threshold(rand: real, total: real): real { Clamp(rand) * total }

  /** What a weighted pick from a tier has to return. */
  predicate IsPick(tier: seq<Candidate>, rand: real, c: Candidate)
    requires tier != []
  {
    if TotalWeight(tier) <= 0.0 then c == tier[0] else HoldsShare(tier, Threshold(rand, TotalWeight(tier)), c)
  }

  lemma {:induction false} NextShare(tier: seq<Candidate>, i: nat)
    requires i < |tier|
    ensures TotalWeight(tier[..i + 1]) == TotalWeight(tier[..i]) + Weight(tier[i])
  {
    assert tier[..i + 1][..i] == tier[..i];
  }

  /** The loop of `pickCandidate`; the `return` behind it is never reached. */
  method PickFrom(tier: seq<Candidate>, t: real) returns (r: Candidate)
    requires 0.0 <= t < TotalWeight(tier)
    ensures HoldsShare(tier, t, r)
  {
    var threshold := t;
    assert tier[..|tier|] == tier;
    for i := 0 to |tier|
      invariant threshold == t - TotalWeight(tier[..i]) && threshold >= 0.0
    {
      NextShare(tier, i);
      threshold := threshold - Weight(tier[i]);
      if threshold < 0.0 {
        assert InShare(tier, i, t);
        return tier[i];
      }
    }
    assert false;
  }

  /** The weighted part of `pickCandidate`. */
  method PickWeighted(tier: seq<Candidate>, rand: real) returns (c: Candidate)
    requires tier != []
    ensures IsPick(tier, rand, c)
  {
    var totalWeight := TotalWeight(tier);
    if totalWeight <= 0.0 { return tier[0]; }
    ClampedBelow(rand, totalWeight);
    c := PickFrom(tier, Threshold(rand, totalWeight));
  }

  /** `pickCandidate` */
  method PickCandidate(candidates: seq<Candidate>, strategy: Strategy, rand: real, collate: string -> real)
      returns (r: Option<Candidate>)
    ensures var ranked := RankCandidates(candidates, strategy, collate);
            if ranked == [] then r == None
            else if strategy != ByWeight then r == Some(ranked[0])
            else r.Some? && IsPick(TopTier(ranked), rand, r.value)
  {
    var ranked := RankCandidates(candidates, strategy, collate);
    if |ranked| == 0 { return None; }
    if strategy != ByWeight { return Some(ranked[0]); }
    var c := PickWeighted(TopTier(ranked), rand);
    return Some(c);
  }

  lemma {:induction false} ClampedBelow(rand: real, total: real)
    requires total > 0.0
    ensures 0.0 <= Threshold(rand, total) < total
  {
  }

  lemma {:induction false} FractionBelow(c: real, total: real)
    requires 0.0 <= c <= ALMOST_ONE && total > 0.0
    ensures 0.0 <= c * total <= ALMOST_ONE * total < total
  {
  }

  lemma {:induction false} SharesGrow(tier: seq<Candidate>, i: nat, j: nat)
    requires i <= j <= |tier|
    ensures TotalWeight(tier[..i]) <= TotalWeight(tier[..j])
  {
    if i < j {
      SharesGrow(tier, i, j - 1);
      NextShare(tier, j - 1);
    }
  }

  /** At most one share holds a threshold, so that the pick is the only one; and a candidate without weight has none. */
  lemma {:induction false} ShareUnique(tier: seq<Candidate>, i: nat, j: nat, t: real)
    requires i < |tier| && j < |tier| && InShare(tier, i, t)
    ensures InShare(tier, j, t) ==> i == j
    ensures tier[i].weight > 0.0
  {
    NextShare(tier, i);
    if i < j { SharesGrow(tier, i + 1, j); }
    if j < i { SharesGrow(tier, j + 1, i); }
  }

  /** A share is as wide as the candidate's weight, and a negative weight counts as none. */
  lemma {:induction false} ShareWidth(tier: seq<Candidate>, i: nat, t: real)
    requires i < |tier|
    ensures var lo, w := TotalWeight(tier[..i]), tier[i].weight;
            InShare(tier, i, t) <==> lo <= t < lo + if w > 0.0 then w else 0.0
  {
    NextShare(tier, i);
  }

  /** All that is weighed: nothing if no weight is positive. */
  lemma {:induction false} NothingWeighed(tier: seq<Candidate>)
    ensures TotalWeight(tier) <= 0.0 <==> forall c | c in tier :: c.weight <= 0.0
    ensures TotalWeight([]) == 0.0
  {
    if tier != [] {
      var n := |tier| - 1;
      NothingWeighed(tier[..n]);
      assert tier == tier[..n] + [tier[n]];
    }
  }

  /** A candidate of positive weight, and a threshold in its part of the total. */
  predicate OwnsPart(tier: seq<Candidate>, i: nat, t: real)
    requires i < |tier|
  {
    tier[i].weight > 0.0 && TotalWeight(tier[..i]) <= t < TotalWeight(tier[..i]) + tier[i].weight
  }

  lemma {:induction false} SharesAreParts(tier: seq<Candidate>, t: real, c: Candidate)
    ensures HoldsShare(tier, t, c) <==> exists i :: 0 <= i < |tier| && tier[i] == c && OwnsPart(tier, i, t)
  {
    forall i | 0 <= i < |tier| ensures InShare(tier, i, t) <==> OwnsPart(tier, i, t) { ShareWidth(tier, i, t); }
  }

  /** The random number is kept from 0 to 0.999999. */
  lemma {:induction false} ThresholdIs(rand: real, total: real, r: real, t: real)
    requires r == (if rand < 0.0 then 0.0 else if rand > 0.999999 then 0.999999 else rand) && t == r * total
    ensures Threshold(rand, total) == t
  {
    assert Clamp(rand) == r;
  }

  /** A weighted pick: the first candidate if no weight is positive, and else the one of positive weight whose part of
      the total holds the random number's, which is kept from 0 to 0.999999. */
  lemma {:induction false} PickMeaning(tier: seq<Candidate>, rand: real, c: Candidate, r: real, t: real)
    requires r == (if rand < 0.0 then 0.0 else if rand > 0.999999 then 0.999999 else rand)
    requires tier != [] && t == r * TotalWeight(tier)
    ensures IsPick(tier, rand, c) <==>
            if forall d | d in tier :: d.weight <= 0.0 then c == tier[0]
            else exists i :: 0 <= i < |tier| && tier[i] == c && OwnsPart(tier, i, t)
  {
    NothingWeighed(tier);
    ThresholdIs(rand, TotalWeight(tier), r, t);
    SharesAreParts(tier, t, c);
  }

  /** The thresholds that random numbers give: everything up to the clamp. */
  lemma {:induction false} Thresholds(t: real, total: real)
    requires total > 0.0
    ensures (exists rand :: Threshold(rand, total) == t) <==> 0.0 <= t <= ALMOST_ONE * total
  {
    if rand :| Threshold(rand, total) == t { FractionBelow(Clamp(rand), total); }
    if 0.0 <= t <= ALMOST_ONE * total {
      assert Clamp(t / total) == t / total;
      assert Threshold(t / total, total) == t;
    }
  }

  /** A threshold that random numbers give and that a candidate's share holds. */
  predicate Picks(tier: seq<Candidate>, i: nat, t: real)
    requires i < |tier|
  {
    0.0 <= t <= ALMOST_ONE * TotalWeight(tier) && InShare(tier, i, t)
  }

  /** A candidate can be picked if and only if it has weight and its share begins below the clamp: what lies in the last
      millionth of the total is out of reach. */
  lemma {:induction false} Reachable(tier: seq<Candidate>, i: nat)
    requires i < |tier|
    ensures (exists t :: Picks(tier, i, t)) <==>
            tier[i].weight > 0.0 && TotalWeight(tier[..i]) <= ALMOST_ONE * TotalWeight(tier)
  {
    NextShare(tier, i);
    if tier[i].weight > 0.0 && TotalWeight(tier[..i]) <= ALMOST_ONE * TotalWeight(tier) {
      assert Picks(tier, i, TotalWeight(tier[..i]));
    }
  }

  /** The first priority's candidates stand at the head of a ranking by weight. */
  lemma {:induction false} TierIsPrefix(candidates: seq<Candidate>, collate: string -> real)
    requires RankCandidates(candidates, ByWeight, collate) != []
    ensures var ranked := RankCandidates(candidates, ByWeight, collate); TopTier(ranked) <= ranked
  {
    var ranked, le := RankCandidates(candidates, ByWeight, collate), InOrder(ByWeight, collate);
    RankIsPreorder(ByWeight, collate);
    SortedOrdered(Filter(candidates, Usable()), le);
    forall i, j | 0 <= i < j < |ranked|
      ensures ranked[i].priority <= ranked[j].priority
    {
      assert le(ranked[i], ranked[j]);
    }
    LeastPrefix(ranked, ranked[0].priority);
  }

  /** It holds the usable candidates of the lowest priority number. */
  lemma {:induction false} TierMembers(candidates: seq<Candidate>, collate: string -> real, c: Candidate)
    requires RankCandidates(candidates, ByWeight, collate) != []
    ensures var ranked := RankCandidates(candidates, ByWeight, collate);
            c in TopTier(ranked) <==> c in ranked && forall d | d in ranked :: c.priority <= d.priority
  {
    var ranked := RankCandidates(candidates, ByWeight, collate);
    FilterMembers(ranked, AtPriority(ranked[0].priority), c);
    assert ranked[0] in ranked;
    RankedByFields(candidates, ByWeight, collate);
    forall d | d in ranked ensures ranked[0].priority <= d.priority {
      var j :| 0 <= j < |ranked| && ranked[j] == d;
      if j > 0 { assert !StandsBefore(ranked[j], ranked[0], ByWeight, collate); }
    }
  }

  lemma {:induction false} LeastPrefix(s: seq<Candidate>, priority: int)
    requires forall i, j | 0 <= i < j < |s| :: s[i].priority <= s[j].priority
    requires s != [] ==> priority <= s[0].priority
    ensures Filter(s, AtPriority(priority)) <= s
  {
    if s != [] {
      assert s == [s[0]] + s[1..];
      FilterCons(s[0], s[1..], AtPriority(priority));
      if s[0].priority == priority {
        LeastPrefix(s[1..], priority);
      } else {
        forall c | c in s ensures !AtPriority(priority)(c) {}
        FilterAll(s, AtPriority(priority));
      }
    }
  }
}
