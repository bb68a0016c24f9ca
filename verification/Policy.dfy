/** Policies, their evaluation and the risk score: the decision part of `src/policy/mod.rs`. */
module Policy {
  import opened Wrappers
  import opened Masking

  type Uuid = nat

  datatype Condition =
    | TaskMatches(task: string)
    | RoleIs(role: string)
    | ScopeContains(scope: string)
    | RiskAbove(threshold: real)
    | ResourceIs(resource: string)
    | WorkspaceIs(workspace: Uuid)
    | And(left: Condition, right: Condition)
    | Or(left: Condition, right: Condition)
    | Not(inner: Condition)
  {
    predicate Matches(ctx: EvalContext) {
      match this
      case TaskMatches(value) => ctx.task == value
      case RoleIs(value) => ctx.role == value
      case ScopeContains(value) => value in ctx.scopes
      case RiskAbove(value) => ctx.riskScore > value
      case ResourceIs(value) => ctx.resource == value
      case WorkspaceIs(value) => ctx.workspaceId == value
      case And(left, right) => left.Matches(ctx) && right.Matches(ctx)
      case Or(left, right) => left.Matches(ctx) || right.Matches(ctx)
      case Not(inner) => !inner.Matches(ctx)
    }
  }

  datatype PolicyRule =
    | AllowIf(condition: Condition)
    | DenyIf(condition: Condition, reason: string)
    | MaskField(fieldPattern: string, maskType: MaskType)

  datatype EvalContext = EvalContext(
    agentId: Uuid,
    workspaceId: Uuid,
    role: string,
    scopes: seq<string>,
    task: string,
    resource: string,
    action: string,
    riskScore: real)

  /** A row of the policies table; times are milliseconds. */
  datatype Policy = Policy(
    id: Uuid,
    name: string,
    description: Option<string>,
    rules: seq<PolicyRule>,
    priority: int,
    enabled: bool,
    createdAt: int,
    updatedAt: int)

  datatype Decision =
    | Allow
    | Deny(reason: string)
    | Mask(fields: seq<string>)

  const NO_MATCH := Deny("no matching policy rule")

  // ---------- first match ----------

  predicate Fires(rule: PolicyRule, ctx: EvalContext) {
    match rule
    case AllowIf(condition) => condition.Matches(ctx)
    case DenyIf(condition, _) => condition.Matches(ctx)
    case MaskField(_, _) => true
  }

  function Verdict(rule: PolicyRule): Decision {
    match rule
    case AllowIf(_) => Allow
    case DenyIf(_, reason) => Deny(reason)
    case MaskField(fieldPattern, _) => Mask([fieldPattern])
  }

  predicate FiresIn(policy: Policy, ctx: EvalContext) {
    exists j :: 0 <= j < |policy.rules| && Fires(policy.rules[j], ctx)
  }

  function FirstFiring(rules: seq<PolicyRule>, ctx: EvalContext): Option<PolicyRule> {
    if rules == [] then None
    else if Fires(rules[0], ctx) then Some(rules[0])
    else FirstFiring(rules[1..], ctx)
  }

  /** The decision of an ordered list of policies. */
  function Decide(policies: seq<Policy>, ctx: EvalContext): Decision {
    if policies == [] then NO_MATCH
    else
      match FirstFiring(policies[0].rules, ctx)
      case Some(rule) => Verdict(rule)
      case None => Decide(policies[1..], ctx)
  }

  /** Rule `j` of policy `i` fires and no rule before it does. */
  ghost predicate IsFirst(policies: seq<Policy>, ctx: EvalContext, i: int, j: int) {
    0 <= i < |policies| && 0 <= j < |policies[i].rules| &&
    Fires(policies[i].rules[j], ctx) &&
    (forall k :: 0 <= k < i ==> !FiresIn(policies[k], ctx)) &&
    (forall k :: 0 <= k < j ==> !Fires(policies[i].rules[k], ctx))
  }

  /** The scan with its early returns. */
  method Evaluate(policies: seq<Policy>, ctx: EvalContext) returns (decision: Decision)
    ensures decision == Decide(policies, ctx)
  {
    for i := 0 to |policies|
      invariant Decide(policies, ctx) == Decide(policies[i..], ctx)
    {
      var policy := policies[i];
      assert policies[i..][1..] == policies[i + 1..];
      for j := 0 to |policy.rules|
        invariant FirstFiring(policy.rules, ctx) == FirstFiring(policy.rules[j..], ctx)
      {
        assert policy.rules[j..][1..] == policy.rules[j + 1..];
        match policy.rules[j]
        case AllowIf(condition) =>
          if condition.Matches(ctx) {
            return Allow;
          }
        case DenyIf(condition, reason) =>
          if condition.Matches(ctx) {
            return Deny(reason);
          }
        case MaskField(fieldPattern, _) =>
          return Mask([fieldPattern]);
      }
    }
    return Deny("no matching policy rule");
  }

  lemma {:induction false} FirstFiringAt(rules: seq<PolicyRule>, ctx: EvalContext) returns (j: nat)
    ensures match FirstFiring(rules, ctx)
            case None => forall k :: 0 <= k < |rules| ==> !Fires(rules[k], ctx)
            case Some(rule) => j < |rules| && rule == rules[j] && Fires(rule, ctx) &&
                               forall k :: 0 <= k < j ==> !Fires(rules[k], ctx)
  {
    j := 0;
    if rules != [] && !Fires(rules[0], ctx) {
      j := FirstFiringAt(rules[1..], ctx);
      assert forall k :: 0 < k < |rules| ==> rules[k] == rules[1..][k - 1];
      j := j + 1;
    }
  }

  lemma {:induction false} DecideIsFirstVerdict(policies: seq<Policy>, ctx: EvalContext)
    ensures (forall k :: 0 <= k < |policies| ==> !FiresIn(policies[k], ctx)) ==> Decide(policies, ctx) == NO_MATCH
    ensures forall i, j :: IsFirst(policies, ctx, i, j) ==> Decide(policies, ctx) == Verdict(policies[i].rules[j])
    ensures (exists k :: 0 <= k < |policies| && FiresIn(policies[k], ctx)) ==>
              exists i, j :: IsFirst(policies, ctx, i, j)
  {
    if policies != [] {
      var rest := policies[1..];
      var j0 := FirstFiringAt(policies[0].rules, ctx);
      DecideIsFirstVerdict(rest, ctx);
      assert forall k :: 0 < k < |policies| ==> policies[k] == rest[k - 1];
      if FirstFiring(policies[0].rules, ctx).Some? {
        assert IsFirst(policies, ctx, 0, j0);
        assert FiresIn(policies[0], ctx);
      } else {
        assert !FiresIn(policies[0], ctx);
        forall i, j | IsFirst(policies, ctx, i, j)
          ensures IsFirst(rest, ctx, i - 1, j)
        {
          assert forall k :: 0 <= k < i - 1 ==> rest[k] == policies[k + 1];
        }
        if exists k :: 0 <= k < |policies| && FiresIn(policies[k], ctx) {
          var k :| 0 <= k < |policies| && FiresIn(policies[k], ctx);
          assert FiresIn(rest[k - 1], ctx);
          var i, j :| IsFirst(rest, ctx, i, j);
          assert forall k :: 0 <= k < i + 1 ==> !FiresIn(policies[k], ctx);
          assert IsFirst(policies, ctx, i + 1, j);
        }
      }
    }
  }

  /** The scan gets to rule `j` of policy `i`: no rule before it is a mask, and no condition before
      it matches. */
  ghost predicate Reached(policies: seq<Policy>, ctx: EvalContext, i: int, j: int) {
    0 <= i < |policies| && 0 <= j < |policies[i].rules| &&
    (forall k, l :: 0 <= k < i && 0 <= l < |policies[k].rules| ==> PassesOver(policies[k].rules[l], ctx)) &&
    (forall l :: 0 <= l < j ==> PassesOver(policies[i].rules[l], ctx))
  }

  ghost predicate PassesOver(rule: PolicyRule, ctx: EvalContext) {
    !rule.MaskField? && !rule.condition.Matches(ctx)
  }

  /** The rule the scan has got to makes this decision. */
  ghost predicate Makes(rule: PolicyRule, ctx: EvalContext, decision: Decision) {
    match decision
    case Allow => rule.AllowIf? && rule.condition.Matches(ctx)
    case Deny(reason) => rule.DenyIf? && rule.condition.Matches(ctx) && rule.reason == reason
    case Mask(fields) => rule.MaskField? && fields == [rule.fieldPattern]
  }

  /** First match: an `AllowIf` or `DenyIf` the scan gets to and whose condition matches allows or
      denies with its reason, a `MaskField` it gets to masks its one field, whatever the context.
      And no decision comes from anything else, but the default denial when the scan passes over
      every rule. */
  lemma DecideIsFirstMatch(policies: seq<Policy>, ctx: EvalContext)
    ensures forall i, j :: Reached(policies, ctx, i, j) ==>
              match policies[i].rules[j]
              case AllowIf(condition) => condition.Matches(ctx) ==> Decide(policies, ctx) == Allow
              case DenyIf(condition, reason) => condition.Matches(ctx) ==> Decide(policies, ctx) == Deny(reason)
              case MaskField(fieldPattern, _) => Decide(policies, ctx) == Mask([fieldPattern])
    ensures (exists i, j :: Reached(policies, ctx, i, j) && Makes(policies[i].rules[j], ctx, Decide(policies, ctx))) ||
            (Decide(policies, ctx) == Deny("no matching policy rule") &&
             forall k, l :: 0 <= k < |policies| && 0 <= l < |policies[k].rules| ==>
               PassesOver(policies[k].rules[l], ctx))
  {
    hide Decide;
    DecideIsFirstVerdict(policies, ctx);
    assert forall rule :: Fires(rule, ctx) <==> !PassesOver(rule, ctx);
    forall i, j | Reached(policies, ctx, i, j) && Fires(policies[i].rules[j], ctx)
      ensures IsFirst(policies, ctx, i, j)
    {
    }
    if k :| 0 <= k < |policies| && FiresIn(policies[k], ctx) {
      var i, j :| IsFirst(policies, ctx, i, j);
      forall m, l | 0 <= m < i && 0 <= l < |policies[m].rules|
        ensures PassesOver(policies[m].rules[l], ctx)
      {
        assert !FiresIn(policies[m], ctx);
      }
      assert Reached(policies, ctx, i, j);
      assert Makes(policies[i].rules[j], ctx, Verdict(policies[i].rules[j]));
    } else {
      forall m, l | 0 <= m < |policies| && 0 <= l < |policies[m].rules|
        ensures PassesOver(policies[m].rules[l], ctx)
      {
        assert !FiresIn(policies[m], ctx);
      }
    }
  }
}
