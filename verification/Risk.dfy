/** The risk score, and what raising it can do to a decision. */
module Risk {
  import opened Wrappers
  import opened Text
  import opened Policy

  /** The configuration fields that matter here. */
  datatype GuardConfig = GuardConfig(
    sensitiveResources: seq<string>,
    businessHoursStart: nat,
    businessHoursEnd: nat,
    auditBatchSize: nat)

  predicate OutsideHours(config: GuardConfig, hour: nat) {
    hour < config.businessHoursStart || hour >= config.businessHoursEnd
  }

  function Score(config: GuardConfig, ctx: EvalContext, hour: nat): (score: real)
    ensures 0.0 <= score <= 1.0
  {
    var action := AsciiLower(ctx.action);
    var sum :=
      (if Contains(action, "write") || Contains(action, "update") then 0.3 else 0.0) +
      (if Contains(action, "delete") then 0.5 else 0.0) +
      (if ctx.resource in config.sensitiveResources then 0.3 else 0.0) +
      (if OutsideHours(config, hour) then 0.1 else 0.0);
    if sum > 1.0 then 1.0 else sum
  }

  method ComputeRisk(config: GuardConfig, ctx: EvalContext, hour: nat) returns (score: real)
    ensures score == Score(config, ctx, hour)
  {
    score := 0.0;
    var action := AsciiLower(ctx.action);
    if Contains(action, "write") || Contains(action, "update") {
      score := score + 0.3;
    }
    if Contains(action, "delete") {
      score := score + 0.5;
    }
    if ctx.resource in config.sensitiveResources {
      score := score + 0.3;
    }
    if hour < config.businessHoursStart || hour >= config.businessHoursEnd {
      score := score + 0.1;
    }
    if score < 0.0 {
      score := 0.0;
    } else if score > 1.0 {
      score := 1.0;
    }
  }

  ghost predicate Names(action: string, word: string) {
    exists i :: OccursAt(word, AsciiLower(action), i)
  }

  /** The score in tenths: 3 for an action that names a write or an update, in whatever case, 5 more
      for a delete, 3 for a sensitive resource and 1 outside business hours, 10 at most. */
  lemma ScoreInTenths(config: GuardConfig, ctx: EvalContext, hour: nat)
    ensures var inHours := config.businessHoursStart <= hour < config.businessHoursEnd;
            var tenths := (if Names(ctx.action, "write") || Names(ctx.action, "update") then 3 else 0) +
                          (if Names(ctx.action, "delete") then 5 else 0) +
                          (if ctx.resource in config.sensitiveResources then 3 else 0) +
                          (if inHours then 0 else 1);
            Score(config, ctx, hour) == if tenths < 10 then tenths as real / 10.0 else 1.0
  {
    hide Names, AsciiLower, Contains;
    NamesIs(ctx.action, "write");
    NamesIs(ctx.action, "update");
    NamesIs(ctx.action, "delete");
  }

  lemma NamesIs(action: string, word: string)
    ensures Contains(AsciiLower(action), word) <==> Names(action, word)
  {
    hide AsciiLower;
  }

  /** `RiskAbove` occurs only under an even (`up`) or only under an odd number of `Not`. */
  predicate Polar(c: Condition, up: bool) {
    match c
    case RiskAbove(_) => up
    case And(left, right) => Polar(left, up) && Polar(right, up)
    case Or(left, right) => Polar(left, up) && Polar(right, up)
    case Not(inner) => Polar(inner, !up)
    case _ => true
  }

  lemma {:induction false} PolarIsMonotone(c: Condition, up: bool, ctx: EvalContext, lo: real, hi: real)
    requires Polar(c, up) && lo <= hi
    ensures up && c.Matches(ctx.(riskScore := lo)) ==> c.Matches(ctx.(riskScore := hi))
    ensures !up && c.Matches(ctx.(riskScore := hi)) ==> c.Matches(ctx.(riskScore := lo))
  {
    match c
    case And(left, right) =>
      PolarIsMonotone(left, up, ctx, lo, hi);
      PolarIsMonotone(right, up, ctx, lo, hi);
    case Or(left, right) =>
      PolarIsMonotone(left, up, ctx, lo, hi);
      PolarIsMonotone(right, up, ctx, lo, hi);
    case Not(inner) => PolarIsMonotone(inner, !up, ctx, lo, hi);
    case _ =>
  }

  predicate RiskAverse(rule: PolicyRule) {
    match rule
    case AllowIf(condition) => Polar(condition, false)
    case DenyIf(condition, _) => Polar(condition, true)
    case MaskField(_, _) => true
  }

  predicate Averse(policy: Policy) {
    forall rule :: rule in policy.rules ==> RiskAverse(rule)
  }

  lemma {:induction false} RulesStayDenied(rules: seq<PolicyRule>, ctx: EvalContext, lo: real, hi: real)
    requires lo <= hi && forall rule :: rule in rules ==> RiskAverse(rule)
    ensures var before, after := FirstFiring(rules, ctx.(riskScore := lo)), FirstFiring(rules, ctx.(riskScore := hi));
            match before
            case None => after.None? || after.value.DenyIf?
            case Some(rule) => rule.DenyIf? ==> after.Some? && after.value.DenyIf?
  {
    if rules != [] {
      var rule := rules[0];
      assert RiskAverse(rule);
      if !rule.MaskField? {
        PolarIsMonotone(rule.condition, rule.DenyIf?, ctx, lo, hi);
      }
      RulesStayDenied(rules[1..], ctx, lo, hi);
    }
  }

  /** What is denied at the one score is denied at the other. */
  predicate KeepsDenial(ps: seq<Policy>, ctx: EvalContext, lo: real, hi: real) {
    Decide(ps, ctx.(riskScore := lo)).Deny? ==> Decide(ps, ctx.(riskScore := hi)).Deny?
  }

  /** With such rules a higher score never turns a denial into anything else. */
  lemma {:induction false} DenyStays(ps: seq<Policy>, ctx: EvalContext, lo: real, hi: real)
    requires lo <= hi
    requires forall p :: p in ps ==> Averse(p)
    ensures KeepsDenial(ps, ctx, lo, hi)
  {
    if ps != [] {
      assert Averse(ps[0]);
      RulesStayDenied(ps[0].rules, ctx, lo, hi);
      DenyStays(ps[1..], ctx, lo, hi);
    }
  }

  // ---------- the exact condition ----------

  function ConditionThresholds(c: Condition): seq<real> {
    match c
    case RiskAbove(threshold) => [threshold]
    case And(left, right) => ConditionThresholds(left) + ConditionThresholds(right)
    case Or(left, right) => ConditionThresholds(left) + ConditionThresholds(right)
    case Not(inner) => ConditionThresholds(inner)
    case _ => []
  }

  function ThresholdsOf(rule: PolicyRule): seq<real> {
    if rule.MaskField? then [] else ConditionThresholds(rule.condition)
  }

  function RuleThresholds(rules: seq<PolicyRule>): seq<real> {
    if rules == [] then [] else ThresholdsOf(rules[0]) + RuleThresholds(rules[1..])
  }

  function Thresholds(ps: seq<Policy>): seq<real> {
    if ps == [] then [] else RuleThresholds(ps[0].rules) + Thresholds(ps[1..])
  }

  ghost predicate SameSides(ts: seq<real>, x: real, y: real) {
    forall t :: t in ts ==> (x > t <==> y > t)
  }

  lemma SidesAppend(a: seq<real>, b: seq<real>, x: real, y: real)
    ensures SameSides(a + b, x, y) <==> SameSides(a, x, y) && SameSides(b, x, y)
  {
    assert forall t :: t in a + b <==> t in a || t in b;
  }

  lemma {:induction false} MatchesAlike(c: Condition, ctx: EvalContext, x: real, y: real)
    requires SameSides(ConditionThresholds(c), x, y)
    ensures c.Matches(ctx.(riskScore := x)) <==> c.Matches(ctx.(riskScore := y))
  {
    match c
    case RiskAbove(threshold) => assert threshold in ConditionThresholds(c);
    case And(left, right) =>
      SidesAppend(ConditionThresholds(left), ConditionThresholds(right), x, y);
      MatchesAlike(left, ctx, x, y);
      MatchesAlike(right, ctx, x, y);
    case Or(left, right) =>
      SidesAppend(ConditionThresholds(left), ConditionThresholds(right), x, y);
      MatchesAlike(left, ctx, x, y);
      MatchesAlike(right, ctx, x, y);
    case Not(inner) => MatchesAlike(inner, ctx, x, y);
    case _ =>
  }

  lemma {:induction false} RulesFireAlike(rules: seq<PolicyRule>, ctx: EvalContext, x: real, y: real)
    requires SameSides(RuleThresholds(rules), x, y)
    ensures FirstFiring(rules, ctx.(riskScore := x)) == FirstFiring(rules, ctx.(riskScore := y))
  {
    if rules != [] {
      SidesAppend(ThresholdsOf(rules[0]), RuleThresholds(rules[1..]), x, y);
      if !rules[0].MaskField? {
        MatchesAlike(rules[0].condition, ctx, x, y);
      }
      RulesFireAlike(rules[1..], ctx, x, y);
    }
  }

  /** Scores on the same side of every threshold decide alike. */
  lemma {:induction false} DecideAlike(ps: seq<Policy>, ctx: EvalContext, x: real, y: real)
    requires SameSides(Thresholds(ps), x, y)
    ensures Decide(ps, ctx.(riskScore := x)) == Decide(ps, ctx.(riskScore := y))
  {
    if ps != [] {
      SidesAppend(RuleThresholds(ps[0].rules), Thresholds(ps[1..]), x, y);
      RulesFireAlike(ps[0].rules, ctx, x, y);
      DecideAlike(ps[1..], ctx, x, y);
    }
  }

  /** The least threshold from `x` up to `top`, `top` if there is none. */
  function Level(ts: seq<real>, x: real, top: real): (level: real)
    ensures x <= top ==> x <= level <= top
    ensures level == top || level in ts
    ensures forall t :: t in ts && x <= t <= top ==> level <= t
  {
    if ts == [] then top
    else
      assert ts == [ts[0]] + ts[1..];
      var rest := Level(ts[1..], x, top);
      if x <= ts[0] <= rest then ts[0] else rest
  }

  /** It is on the same side of every threshold, and higher scores have higher levels. */
  lemma LevelStandsFor(ts: seq<real>, lo: real, hi: real, top: real)
    requires lo <= hi <= top
    ensures SameSides(ts, lo, Level(ts, lo, top)) && SameSides(ts, hi, Level(ts, hi, top))
    ensures Level(ts, lo, top) <= Level(ts, hi, top)
  {
  }

  /** The finite check: denials are kept between the thresholds in the range, and the top of it. */
  predicate KeptAtThresholds(ps: seq<Policy>, ctx: EvalContext, bottom: real, top: real) {
    var levels := Thresholds(ps) + [top];
    forall i, j :: 0 <= i < |levels| && 0 <= j < |levels| && bottom <= levels[i] <= levels[j] <= top ==>
      KeepsDenial(ps, ctx, levels[i], levels[j])
  }

  /** Over any range of scores, a higher score keeps every denial exactly if this check succeeds. */
  lemma DenialsKeptExactly(ps: seq<Policy>, ctx: EvalContext, bottom: real, top: real)
    ensures (forall lo, hi :: bottom <= lo <= hi <= top ==> KeepsDenial(ps, ctx, lo, hi)) <==>
            KeptAtThresholds(ps, ctx, bottom, top)
  {
    hide KeepsDenial, Level, SameSides;
    var ts := Thresholds(ps);
    if KeptAtThresholds(ps, ctx, bottom, top) {
      forall lo, hi | bottom <= lo <= hi <= top
        ensures KeepsDenial(ps, ctx, lo, hi)
      {
        var a, b := Level(ts, lo, top), Level(ts, hi, top);
        LevelStandsFor(ts, lo, hi, top);
        assert a in ts + [top] && b in ts + [top];
        assert KeepsDenial(ps, ctx, a, b);
        KeptAlike(ps, ctx, lo, hi, a, b);
      }
    }
  }

  lemma KeptAlike(ps: seq<Policy>, ctx: EvalContext, lo: real, hi: real, a: real, b: real)
    requires SameSides(Thresholds(ps), lo, a) && SameSides(Thresholds(ps), hi, b)
    ensures KeepsDenial(ps, ctx, lo, hi) <==> KeepsDenial(ps, ctx, a, b)
  {
    hide Decide, Thresholds;
    DecideAlike(ps, ctx, lo, a);
    DecideAlike(ps, ctx, hi, b);
  }

  lemma KeptLower(ps: seq<Policy>, ctx: EvalContext, bottom: real, lower: real, top: real)
    requires forall t :: t in Thresholds(ps) ==> bottom <= t
    requires lower <= bottom && KeptAtThresholds(ps, ctx, bottom, top)
    ensures KeptAtThresholds(ps, ctx, lower, top)
  {
    hide Decide, Thresholds;
    var levels := Thresholds(ps) + [top];
    forall i, j | 0 <= i < |levels| && 0 <= j < |levels| && lower <= levels[i] <= levels[j] <= top
      ensures KeepsDenial(ps, ctx, levels[i], levels[j])
    {
      if i < |Thresholds(ps)| {
        assert levels[i] in Thresholds(ps);
      } else {
        assert levels[i] == levels[j];
      }
    }
  }

  /** Over all scores: a range from the least to beyond the greatest threshold is enough. */
  lemma DenialsAlwaysKeptExactly(ps: seq<Policy>, ctx: EvalContext, bottom: real, top: real)
    requires forall t :: t in Thresholds(ps) ==> bottom <= t < top
    ensures (forall lo, hi :: lo <= hi ==> KeepsDenial(ps, ctx, lo, hi)) <==>
            KeptAtThresholds(ps, ctx, bottom, top)
  {
    hide KeepsDenial, Thresholds;
    if KeptAtThresholds(ps, ctx, bottom, top) {
      forall lo, hi | lo <= hi
        ensures KeepsDenial(ps, ctx, lo, hi)
      {
        var a := if lo > top then top else lo;
        var b := if hi > top then top else hi;
        KeptLower(ps, ctx, bottom, if a < bottom then a else bottom, top);
        DenialsKeptExactly(ps, ctx, if a < bottom then a else bottom, top);
        KeptAlike(ps, ctx, lo, hi, a, b);
      }
    } else {
      DenialsKeptExactly(ps, ctx, bottom, top);
    }
  }

  /** The score by whether the resource is sensitive and the hour outside business hours. */
  function ScoreBy(ctx: EvalContext, sensitive: bool, outside: bool): real {
    Score(GuardConfig(if sensitive then [ctx.resource] else [], 0, if outside then 0 else 24, 1), ctx, 12)
  }

  predicate Tighter(c1: GuardConfig, h1: nat, c2: GuardConfig, h2: nat) {
    (forall r :: r in c1.sensitiveResources ==> r in c2.sensitiveResources) &&
    (OutsideHours(c1, h1) ==> OutsideHours(c2, h2))
  }

  /** End to end: with risk-averse rules, a larger list of sensitive resources, or an hour outside
      business hours instead of one inside, never turns `Deny` into `Allow` or `Mask`. */
  lemma TighterConfigKeepsDenials(ps: seq<Policy>, ctx: EvalContext,
                                  c1: GuardConfig, h1: nat, c2: GuardConfig, h2: nat)
    requires forall p :: p in ps ==> Averse(p)
    requires Tighter(c1, h1, c2, h2)
    ensures KeepsDenial(ps, ctx, Score(c1, ctx, h1), Score(c2, ctx, h2))
  {
    hide Decide, Contains, AsciiLower;
    DenyStays(ps, ctx, Score(c1, ctx, h1), Score(c2, ctx, h2));
  }

  /** And with any rules, exactly if it does not between the four scores one context can have. */
  lemma TighterConfigExactly(ps: seq<Policy>, ctx: EvalContext)
    ensures (forall c1, h1, c2, h2 :: Tighter(c1, h1, c2, h2) ==>
               KeepsDenial(ps, ctx, Score(c1, ctx, h1), Score(c2, ctx, h2))) <==>
            (forall s1, o1, s2, o2 :: (s1 ==> s2) && (o1 ==> o2) ==>
               KeepsDenial(ps, ctx, ScoreBy(ctx, s1, o1), ScoreBy(ctx, s2, o2)))
  {
    hide KeepsDenial, Contains, AsciiLower;
    if forall s1, o1, s2, o2 :: (s1 ==> s2) && (o1 ==> o2) ==>
         KeepsDenial(ps, ctx, ScoreBy(ctx, s1, o1), ScoreBy(ctx, s2, o2)) {
      forall c1, h1, c2, h2 | Tighter(c1, h1, c2, h2)
        ensures KeepsDenial(ps, ctx, Score(c1, ctx, h1), Score(c2, ctx, h2))
      {
        ScoreIs(c1, ctx, h1);
        ScoreIs(c2, ctx, h2);
      }
    }
  }

  lemma ScoreIs(config: GuardConfig, ctx: EvalContext, hour: nat)
    ensures Score(config, ctx, hour) ==
            ScoreBy(ctx, ctx.resource in config.sensitiveResources, OutsideHours(config, hour))
  {
    hide Contains, AsciiLower;
  }

  /** A policy that fails the check: one `RiskAbove` in an `AllowIf` lets a higher score allow. */
  lemma WrongPolarityAllows(p: Policy, ctx: EvalContext)
    requires p.rules == [AllowIf(RiskAbove(0.2))]
    ensures !KeptAtThresholds([p], ctx, 0.0, 1.0)
    ensures Decide([p], ctx.(riskScore := 0.2)).Deny? && Decide([p], ctx.(riskScore := 0.3)).Allow?
  {
    assert Decide([p][1..], ctx.(riskScore := 0.2)) == NO_MATCH;
    assert FirstFiring(p.rules[1..], ctx.(riskScore := 0.2)) == None;
    DenialsKeptExactly([p], ctx, 0.0, 1.0);
    assert !KeepsDenial([p], ctx, 0.2, 0.3);
  }

  /** One on the wrong side that passes it: no score is above 1. */
  lemma UnreachableThresholdKeeps(p: Policy, ctx: EvalContext)
    requires p.rules == [AllowIf(RiskAbove(1.0))]
    ensures !Averse(p) && KeptAtThresholds([p], ctx, 0.0, 1.0)
  {
    assert p.rules[0] in p.rules && !RiskAverse(p.rules[0]);
    assert [p][1..] == [] && p.rules[1..] == [];
    forall x | x <= 1.0
      ensures Decide([p], ctx.(riskScore := x)) == NO_MATCH
    {
      assert Decide([p][1..], ctx.(riskScore := x)) == NO_MATCH;
      assert FirstFiring(p.rules[1..], ctx.(riskScore := x)) == None;
    }
    DenialsKeptExactly([p], ctx, 0.0, 1.0);
  }
}
