/** The policy compiler of `src/policy/mod.rs`: from TOML values to conditions and rules. */
module PolicyParser {
  import opened Wrappers
  import opened Errors
  import opened Text
  import opened Masking
  import opened Policy
  import opened Words

  /** A TOML value after lexing; `Other` stands for booleans and dates, which no parser accepts. */
  datatype Toml =
    | Str(s: string)
    | Int(i: int)
    | Float(r: real)
    | Other
    | Arr(items: seq<Toml>)
    | Table(entries: map<string, Toml>)

  /** `Uuid::parse_str` and `Uuid::to_string`. */
  datatype UuidCodec = UuidCodec(parse: string -> Option<Uuid>, show: Uuid -> string)

  ghost predicate Inverse(u: UuidCodec) {
    forall id: Uuid :: u.parse(u.show(id)) == Some(id)
  }

  datatype Connective = Conj | Disj {
    function Join(left: Condition, right: Condition): Condition {
      if Conj? then And(left, right) else Or(left, right)
    }
  }

  function StrAt(entries: map<string, Toml>, key: string): Option<string> {
    if key in entries && entries[key].Str? then Some(entries[key].s) else None
  }

  function ParseCondition(u: UuidCodec, value: Toml): Result<Condition, GuardError>
    decreases value, 1, 0
  {
    if !value.Table? then Err(ConfigError("condition must be a table"))
    else
      var table := value.entries;
      if "and" in table then FoldConditions(u, table["and"], Conj)
      else if "or" in table then FoldConditions(u, table["or"], Disj)
      else if "not" in table then
        (match ParseCondition(u, table["not"])
         case Ok(inner) => Ok(Not(inner))
         case Err(e) => Err(e))
      else if StrAt(table, "task_matches").Some? then Ok(TaskMatches(StrAt(table, "task_matches").value))
      else if StrAt(table, "role_is").Some? then Ok(RoleIs(StrAt(table, "role_is").value))
      else if StrAt(table, "scope_contains").Some? then Ok(ScopeContains(StrAt(table, "scope_contains").value))
      else if "risk_above" in table && table["risk_above"].Float? then Ok(RiskAbove(table["risk_above"].r))
      else if StrAt(table, "resource_is").Some? then Ok(ResourceIs(StrAt(table, "resource_is").value))
      else if StrAt(table, "workspace_is").Some? then
        (match u.parse(StrAt(table, "workspace_is").value)
         case Some(id) => Ok(WorkspaceIs(id))
         case None => Err(UuidError(StrAt(table, "workspace_is").value)))
      else Err(ConfigError("unsupported condition shape"))
  }

  function FoldConditions(u: UuidCodec, value: Toml, combine: Connective): Result<Condition, GuardError>
    decreases value, 2, 0
  {
    if !value.Arr? then Err(ConfigError("logical conditions must be arrays"))
    else if value.items == [] then Err(ConfigError("logical conditions must not be empty"))
    else
      match ParseCondition(u, value.items[0])
      case Err(e) => Err(e)
      case Ok(first) => FoldFrom(u, value, 1, first, combine)
  }

  /** `try_fold` over the items from `k` on. */
  function FoldFrom(u: UuidCodec, value: Toml, k: nat, left: Condition, combine: Connective):
      Result<Condition, GuardError>
    requires value.Arr? && k <= |value.items|
    decreases value, 0, |value.items| - k
  {
    if k == |value.items| then Ok(left)
    else
      match ParseCondition(u, value.items[k])
      case Err(e) => Err(e)
      case Ok(right) => FoldFrom(u, value, k + 1, combine.Join(left, right), combine)
  }

  // ---------- what a condition value means ----------

  /** Well formed under the key precedence of the code. */
  ghost predicate WellFormed(u: UuidCodec, value: Toml)
    decreases value, 1
  {
    value.Table? &&
    var table := value.entries;
    if "and" in table then WellFormedGroup(u, table["and"])
    else if "or" in table then WellFormedGroup(u, table["or"])
    else if "not" in table then WellFormed(u, table["not"])
    else
      StrAt(table, "task_matches").Some? || StrAt(table, "role_is").Some? ||
      StrAt(table, "scope_contains").Some? || ("risk_above" in table && table["risk_above"].Float?) ||
      StrAt(table, "resource_is").Some? ||
      (StrAt(table, "workspace_is").Some? && u.parse(StrAt(table, "workspace_is").value).Some?)
  }

  ghost predicate WellFormedGroup(u: UuidCodec, value: Toml)
    decreases value, 2
  {
    value.Arr? && value.items != [] &&
    forall k :: 0 <= k < |value.items| ==> WellFormed(u, value.items[k])
  }

  /** The n-ary reading: all of a list, any of a list, not, or the first leaf key that applies. */
  ghost predicate Reading(u: UuidCodec, value: Toml, ctx: EvalContext)
    requires WellFormed(u, value)
    decreases value, 1
  {
    var table := value.entries;
    if "and" in table then GroupReading(u, table["and"], Conj, ctx)
    else if "or" in table then GroupReading(u, table["or"], Disj, ctx)
    else if "not" in table then !Reading(u, table["not"], ctx)
    else LeafReading(u, table, ctx)
  }

  ghost predicate GroupReading(u: UuidCodec, value: Toml, combine: Connective, ctx: EvalContext)
    requires WellFormedGroup(u, value)
    decreases value, 2
  {
    if combine.Conj? then forall k :: 0 <= k < |value.items| ==> Reading(u, value.items[k], ctx)
    else exists k :: 0 <= k < |value.items| && Reading(u, value.items[k], ctx)
  }

  ghost predicate LeafReading(u: UuidCodec, table: map<string, Toml>, ctx: EvalContext) {
    if StrAt(table, "task_matches").Some? then ctx.task == table["task_matches"].s
    else if StrAt(table, "role_is").Some? then ctx.role == table["role_is"].s
    else if StrAt(table, "scope_contains").Some? then table["scope_contains"].s in ctx.scopes
    else if "risk_above" in table && table["risk_above"].Float? then ctx.riskScore > table["risk_above"].r
    else if StrAt(table, "resource_is").Some? then ctx.resource == table["resource_is"].s
    else StrAt(table, "workspace_is").Some? &&
         u.parse(table["workspace_is"].s) == Some(ctx.workspaceId)
  }

  /** Parsing succeeds on exactly the well-formed values, and the condition means what the n-ary
      reading says, in every context. */
  lemma {:induction false} CompilesFaithfully(u: UuidCodec, value: Toml, ctx: EvalContext)
    ensures ParseCondition(u, value).Ok? <==> WellFormed(u, value)
    ensures WellFormed(u, value) ==> (ParseCondition(u, value).value.Matches(ctx) <==> Reading(u, value, ctx))
    decreases value
  {
    if value.Table? {
      var table := value.entries;
      if "and" in table {
        GroupCompiles(u, table["and"], Conj, ctx, value);
      } else if "or" in table {
        GroupCompiles(u, table["or"], Disj, ctx, value);
      } else if "not" in table {
        CompilesFaithfully(u, table["not"], ctx);
      }
    }
  }

  lemma {:induction false} GroupCompiles(u: UuidCodec, value: Toml, combine: Connective, ctx: EvalContext, whole: Toml)
    requires value < whole
    ensures FoldConditions(u, value, combine).Ok? <==> WellFormedGroup(u, value)
    ensures WellFormedGroup(u, value) ==>
              (FoldConditions(u, value, combine).value.Matches(ctx) <==> GroupReading(u, value, combine, ctx))
    decreases whole, 0
  {
    hide ParseCondition, WellFormed, Reading;
    if value.Arr? && value.items != [] {
      CompilesFaithfully(u, value.items[0], ctx);
      if ParseCondition(u, value.items[0]).Ok? {
        FoldCompiles(u, value, 1, ParseCondition(u, value.items[0]).value, combine, ctx, whole);
      }
    }
  }

  /** Item `k` parses and holds. */
  ghost predicate Holds(u: UuidCodec, item: Toml, ctx: EvalContext) {
    WellFormed(u, item) && Reading(u, item, ctx)
  }

  lemma {:induction false} FoldCompiles(u: UuidCodec, value: Toml, k: nat, left: Condition, combine: Connective,
                                        ctx: EvalContext, whole: Toml)
    requires value.Arr? && k <= |value.items| && value < whole
    ensures FoldFrom(u, value, k, left, combine).Ok? <==>
            forall j :: k <= j < |value.items| ==> WellFormed(u, value.items[j])
    ensures FoldFrom(u, value, k, left, combine).Ok? ==>
              (FoldFrom(u, value, k, left, combine).value.Matches(ctx) <==>
               if combine.Conj?
               then left.Matches(ctx) && forall j :: k <= j < |value.items| ==> Holds(u, value.items[j], ctx)
               else left.Matches(ctx) || exists j :: k <= j < |value.items| && Holds(u, value.items[j], ctx))
    decreases whole, 0, |value.items| - k
  {
    hide ParseCondition, WellFormed, Reading;
    if k < |value.items| {
      CompilesFaithfully(u, value.items[k], ctx);
      var parsed := ParseCondition(u, value.items[k]);
      if parsed.Ok? {
        FoldCompiles(u, value, k + 1, combine.Join(left, parsed.value), combine, ctx, whole);
      }
    }
  }

  /** The error of a group that does not parse is that of its first item that does not. */
  lemma {:induction false} FoldErrors(u: UuidCodec, value: Toml, k: nat, left: Condition, combine: Connective)
    requires value.Arr? && k <= |value.items| && FoldFrom(u, value, k, left, combine).Err?
    ensures exists j :: k <= j && FirstItemError(u, value.items, k, j, FoldFrom(u, value, k, left, combine).error)
    decreases |value.items| - k
  {
    hide ParseCondition;
    var parsed := ParseCondition(u, value.items[k]);
    if parsed.Ok? {
      FoldErrors(u, value, k + 1, combine.Join(left, parsed.value), combine);
      var e := FoldFrom(u, value, k, left, combine).error;
      var j :| k + 1 <= j && FirstItemError(u, value.items, k + 1, j, e);
      assert FirstItemError(u, value.items, k, j, e);
    } else {
      assert FirstItemError(u, value.items, k, k, parsed.error);
    }
  }

  /** From item `k` on, item `j` is the first that does not parse, and this is why. */
  ghost predicate FirstItemError(u: UuidCodec, items: seq<Toml>, k: int, j: int, e: GuardError) {
    0 <= k <= j < |items| && ParseCondition(u, items[j]) == Err(e) &&
    forall l :: k <= l < j ==> ParseCondition(u, items[l]).Ok?
  }

  /** The errors of conditions: no table; a group that is no array, is empty, or holds an item with an
      error; an id that is none; no key that applies. */
  lemma ConditionErrors(u: UuidCodec, value: Toml)
    ensures !value.Table? ==> ParseCondition(u, value) == Err(ConfigError("condition must be a table"))
    ensures value.Table? && ("and" in value.entries || "or" in value.entries) ==>
              var group := if "and" in value.entries then value.entries["and"] else value.entries["or"];
              var parsed := ParseCondition(u, value);
              (!group.Arr? ==> parsed == Err(ConfigError("logical conditions must be arrays"))) &&
              (group == Arr([]) ==> parsed == Err(ConfigError("logical conditions must not be empty"))) &&
              (group.Arr? && group != Arr([]) && parsed.Err? ==>
                 exists j :: FirstItemError(u, group.items, 0, j, parsed.error))
    ensures value.Table? && "and" !in value.entries && "or" !in value.entries ==>
              var parsed := ParseCondition(u, value);
              if "not" in value.entries then
                parsed.Err? ==> ParseCondition(u, value.entries["not"]) == Err(parsed.error)
              else
                parsed.Err? ==>
                  parsed.error == if StrAt(value.entries, "workspace_is").Some?
                                  then UuidError(value.entries["workspace_is"].s)
                                  else ConfigError("unsupported condition shape")
  {
    if value.Table? && ("and" in value.entries || "or" in value.entries) {
      var combine := if "and" in value.entries then Conj else Disj;
      var group := if "and" in value.entries then value.entries["and"] else value.entries["or"];
      assert ParseCondition(u, value) == FoldConditions(u, group, combine);
      GroupErrors(u, group, combine);
    }
  }

  lemma GroupErrors(u: UuidCodec, group: Toml, combine: Connective)
    ensures var parsed := FoldConditions(u, group, combine);
            (!group.Arr? ==> parsed == Err(ConfigError("logical conditions must be arrays"))) &&
            (group == Arr([]) ==> parsed == Err(ConfigError("logical conditions must not be empty"))) &&
            (group.Arr? && group != Arr([]) && parsed.Err? ==>
               exists j :: FirstItemError(u, group.items, 0, j, parsed.error))
  {
    hide ParseCondition;
    if group.Arr? && group.items != [] {
      var parsed, first := FoldConditions(u, group, combine), ParseCondition(u, group.items[0]);
      if first.Err? {
        assert FirstItemError(u, group.items, 0, 0, first.error);
      } else if parsed.Err? {
        FoldErrors(u, group, 1, first.value, combine);
        var j :| 1 <= j && FirstItemError(u, group.items, 1, j, parsed.error);
        assert FirstItemError(u, group.items, 0, j, parsed.error);
      }
    }
  }

  // ---------- printing and parsing back ----------

  function PrintCondition(u: UuidCodec, c: Condition): Toml {
    match c
    case TaskMatches(task) => Table(map["task_matches" := Str(task)])
    case RoleIs(role) => Table(map["role_is" := Str(role)])
    case ScopeContains(scope) => Table(map["scope_contains" := Str(scope)])
    case RiskAbove(threshold) => Table(map["risk_above" := Float(threshold)])
    case ResourceIs(resource) => Table(map["resource_is" := Str(resource)])
    case WorkspaceIs(workspace) => Table(map["workspace_is" := Str(u.show(workspace))])
    case And(left, right) => Table(map["and" := Arr([PrintCondition(u, left), PrintCondition(u, right)])])
    case Or(left, right) => Table(map["or" := Arr([PrintCondition(u, left), PrintCondition(u, right)])])
    case Not(inner) => Table(map["not" := PrintCondition(u, inner)])
  }

  lemma {:induction false} ConditionRoundTrip(u: UuidCodec, c: Condition)
    requires Inverse(u)
    ensures ParseCondition(u, PrintCondition(u, c)) == Ok(c)
  {
    match c
    case And(left, right) =>
      ConditionRoundTrip(u, left);
      ConditionRoundTrip(u, right);
      PairFolds(u, Arr([PrintCondition(u, left), PrintCondition(u, right)]), left, right, Conj);
    case Or(left, right) =>
      ConditionRoundTrip(u, left);
      ConditionRoundTrip(u, right);
      PairFolds(u, Arr([PrintCondition(u, left), PrintCondition(u, right)]), left, right, Disj);
    case Not(inner) => ConditionRoundTrip(u, inner);
    case _ =>
  }

  lemma PairFolds(u: UuidCodec, value: Toml, left: Condition, right: Condition, combine: Connective)
    requires value.Arr? && |value.items| == 2
    requires ParseCondition(u, value.items[0]) == Ok(left) && ParseCondition(u, value.items[1]) == Ok(right)
    ensures FoldConditions(u, value, combine) == Ok(combine.Join(left, right))
  {
    assert FoldFrom(u, value, 2, combine.Join(left, right), combine) == Ok(combine.Join(left, right));
    assert FoldFrom(u, value, 1, left, combine) == Ok(combine.Join(left, right));
  }

  function ParseMaskType(value: Toml): Result<MaskType, GuardError> {
    match value
    case Str(kind) =>
      if kind == "redact" then Ok(Redact)
      else if kind == "hash_blake3" || kind == "hash" then Ok(HashBlake3)
      else if kind == "email_mask" then Ok(EmailMask)
      else Err(ConfigError("unsupported mask type: " + kind))
    case Table(table) =>
      if "truncate" in table && IntIn(table["truncate"], "n").Some? then
        Ok(Truncate(AsUsize(IntIn(table["truncate"], "n").value)))
      else if "json_field_mask" in table && StrIn(table["json_field_mask"], "pattern").Some? then
        Ok(JsonFieldMask(StrIn(table["json_field_mask"], "pattern").value))
      else Err(ConfigError("unsupported mask type table"))
    case _ => Err(ConfigError("mask_type must be a string or table"))
  }

  function IntIn(value: Toml, key: string): Option<int> {
    if value.Table? && key in value.entries && value.entries[key].Int? then Some(value.entries[key].i) else None
  }

  function StrIn(value: Toml, key: string): Option<string> {
    if value.Table? then StrAt(value.entries, key) else None
  }

  /** A mask type whose length a 64-bit `usize` can hold. */
  predicate Representable(m: MaskType) {
    m.Truncate? ==> m.n < TWO_TO_THE_64
  }

  function PrintMaskType(m: MaskType): Toml {
    match m
    case Redact => Str("redact")
    case HashBlake3 => Str("hash_blake3")
    case EmailMask => Str("email_mask")
    case Truncate(n) => Table(map["truncate" := Table(map["n" := Int(AsI64(n))])])
    case JsonFieldMask(pattern) => Table(map["json_field_mask" := Table(map["pattern" := Str(pattern)])])
  }

  /** The printed integer is a signed 64-bit one, and the mask type comes back. */
  lemma MaskTypeRoundTrip(m: MaskType)
    requires Representable(m)
    ensures ParseMaskType(PrintMaskType(m)) == Ok(m)
    ensures m.Truncate? ==>
              var i := IntIn(PrintMaskType(m).entries["truncate"], "n").value;
              -TWO_TO_THE_63 <= i < TWO_TO_THE_63
  {
  }

  /** The value under `inner` of the table under `outer`. */
  ghost predicate Nested(value: Toml, outer: string, inner: string, leaf: Toml) {
    value.Table? && outer in value.entries && value.entries[outer].Table? &&
    inner in value.entries[outer].entries && value.entries[outer].entries[inner] == leaf
  }

  /** Which values read as which mask type. A length in the table comes before a pattern; a
      negative one wraps. */
  lemma MaskTypeReads(value: Toml, m: MaskType)
    ensures ParseMaskType(value) == Ok(m) <==>
            match m
            case Redact => value == Str("redact")
            case HashBlake3 => value == Str("hash_blake3") || value == Str("hash")
            case EmailMask => value == Str("email_mask")
            case Truncate(n) => exists i :: Nested(value, "truncate", "n", Int(i)) && n == AsUsize(i)
            case JsonFieldMask(pattern) =>
              Nested(value, "json_field_mask", "pattern", Str(pattern)) &&
              forall i :: !Nested(value, "truncate", "n", Int(i))
  {
    if value.Table? && "truncate" in value.entries {
      var i := IntIn(value.entries["truncate"], "n");
      if i.Some? {
        assert Nested(value, "truncate", "n", Int(i.value));
      }
    }
  }

  datatype RuleFile = RuleFile(
    kind: string,
    reason: Option<string>,
    condition: Option<Toml>,
    fieldPattern: Option<string>,
    maskType: Option<Toml>)

  function RequiredCondition(u: UuidCodec, rule: RuleFile): Result<Condition, GuardError> {
    match rule.condition
    case None => Err(ConfigError(rule.kind + " requires condition"))
    case Some(value) => ParseCondition(u, value)
  }

  function ParseRule(u: UuidCodec, rule: RuleFile): Result<PolicyRule, GuardError> {
    if rule.kind == "allow_if" then
      match RequiredCondition(u, rule)
      case Err(e) => Err(e)
      case Ok(condition) => Ok(AllowIf(condition))
    else if rule.kind == "deny_if" then
      match RequiredCondition(u, rule)
      case Err(e) => Err(e)
      case Ok(condition) =>
        if rule.reason.None? then Err(ConfigError("deny_if requires reason"))
        else Ok(DenyIf(condition, rule.reason.value))
    else if rule.kind == "mask_field" then
      if rule.fieldPattern.None? then Err(ConfigError("mask_field requires field_pattern"))
      else if rule.maskType.None? then Err(ConfigError("mask_field requires mask_type"))
      else
        match ParseMaskType(rule.maskType.value)
        case Err(e) => Err(e)
        case Ok(maskType) => Ok(MaskField(rule.fieldPattern.value, maskType))
    else Err(ConfigError("unsupported rule type: " + rule.kind))
  }

  function PrintRule(u: UuidCodec, rule: PolicyRule): RuleFile {
    match rule
    case AllowIf(c) => RuleFile("allow_if", None, Some(PrintCondition(u, c)), None, None)
    case DenyIf(c, reason) => RuleFile("deny_if", Some(reason), Some(PrintCondition(u, c)), None, None)
    case MaskField(pattern, m) => RuleFile("mask_field", None, None, Some(pattern), Some(PrintMaskType(m)))
  }

  lemma RuleRoundTrip(u: UuidCodec, rule: PolicyRule)
    requires Inverse(u) && (rule.MaskField? ==> Representable(rule.maskType))
    ensures ParseRule(u, PrintRule(u, rule)) == Ok(rule)
  {
    match rule
    case AllowIf(c) => ConditionRoundTrip(u, c);
    case DenyIf(c, _) => ConditionRoundTrip(u, c);
    case MaskField(_, m) => MaskTypeRoundTrip(m);
  }

  /** Which rules of a file parse, and to what. */
  lemma RuleReads(u: UuidCodec, file: RuleFile, rule: PolicyRule)
    ensures ParseRule(u, file) == Ok(rule) <==>
            match rule
            case AllowIf(c) =>
              file.kind == "allow_if" && file.condition.Some? && ParseCondition(u, file.condition.value) == Ok(c)
            case DenyIf(c, reason) =>
              file.kind == "deny_if" && file.condition.Some? && ParseCondition(u, file.condition.value) == Ok(c) &&
              file.reason == Some(reason)
            case MaskField(pattern, m) =>
              file.kind == "mask_field" && file.fieldPattern == Some(pattern) &&
              file.maskType.Some? && ParseMaskType(file.maskType.value) == Ok(m)
  {
    hide ParseCondition, ParseMaskType;
  }

  /** The error of a rule that does not: the condition comes before the reason, the pattern before
      the mask type. */
  lemma RuleErrors(u: UuidCodec, file: RuleFile)
    ensures file.kind !in {"allow_if", "deny_if", "mask_field"} ==>
              ParseRule(u, file) == Err(ConfigError("unsupported rule type: " + file.kind))
    ensures file.kind in {"allow_if", "deny_if"} && file.condition.None? ==>
              ParseRule(u, file) == Err(ConfigError(file.kind + " requires condition"))
    ensures file.kind in {"allow_if", "deny_if"} && file.condition.Some? &&
            ParseCondition(u, file.condition.value).Err? ==>
              ParseRule(u, file) == Err(ParseCondition(u, file.condition.value).error)
    ensures file.kind == "deny_if" && file.condition.Some? && ParseCondition(u, file.condition.value).Ok? &&
            file.reason.None? ==>
              ParseRule(u, file) == Err(ConfigError("deny_if requires reason"))
    ensures file.kind == "mask_field" && file.fieldPattern.None? ==>
              ParseRule(u, file) == Err(ConfigError("mask_field requires field_pattern"))
    ensures file.kind == "mask_field" && file.fieldPattern.Some? && file.maskType.None? ==>
              ParseRule(u, file) == Err(ConfigError("mask_field requires mask_type"))
    ensures file.kind == "mask_field" && file.fieldPattern.Some? && file.maskType.Some? &&
            ParseMaskType(file.maskType.value).Err? ==>
              ParseRule(u, file) == Err(ParseMaskType(file.maskType.value).error)
  {
    hide ParseCondition, ParseMaskType;
  }

  // ---------- policy files ----------

  datatype PolicyFile = PolicyFile(
    name: Option<string>,
    description: Option<string>,
    priority: int,
    enabled: bool,
    rules: seq<RuleFile>)

  /** A source with `[[policies]]` holds several policies, any other source one. */
  datatype PolicySource = Several(files: seq<PolicyFile>) | Single(file: PolicyFile)

  /** The fresh id and the clock reading a parsed policy is stamped with. */
  datatype Stamp = Stamp(id: Uuid, now: int)

  /** Rule `k` is the first that does not parse, and this is why. */
  predicate FirstError(u: UuidCodec, rules: seq<RuleFile>, k: int, e: GuardError) {
    0 <= k < |rules| && ParseRule(u, rules[k]) == Err(e) &&
    forall j :: 0 <= j < k ==> ParseRule(u, rules[j]).Ok?
  }

  function ParseRules(u: UuidCodec, rules: seq<RuleFile>): (r: Result<seq<PolicyRule>, GuardError>)
    ensures r.Ok? ==> |r.value| == |rules| && forall k :: 0 <= k < |rules| ==> ParseRule(u, rules[k]) == Ok(r.value[k])
    ensures r.Err? ==> exists k :: FirstError(u, rules, k, r.error)
  {
    if rules == [] then Ok([])
    else
      match ParseRule(u, rules[0])
      case Err(e) =>
        assert FirstError(u, rules, 0, e);
        Err(e)
      case Ok(rule) =>
        match ParseRules(u, rules[1..])
        case Err(e) =>
          assert forall k :: FirstError(u, rules[1..], k, e) ==> FirstError(u, rules, k + 1, e);
          Err(e)
        case Ok(rest) => Ok([rule] + rest)
  }

  function PolicyFromFile(u: UuidCodec, file: PolicyFile, fallback: string, stamp: Stamp): Result<Policy, GuardError> {
    match ParseRules(u, file.rules)
    case Err(e) => Err(e)
    case Ok(rules) =>
      Ok(Policy(stamp.id, if file.name.Some? then file.name.value else fallback, file.description, rules,
                file.priority, file.enabled, stamp.now, stamp.now))
  }

  function PoliciesFrom(u: UuidCodec, files: seq<PolicyFile>, k: nat, fallback: string, stamps: seq<Stamp>):
      Result<seq<Policy>, GuardError>
    requires k <= |files| <= |stamps|
    decreases |files| - k
  {
    if k == |files| then Ok([])
    else
      match PolicyFromFile(u, files[k], fallback + "-" + Dec(k), stamps[k])
      case Err(e) => Err(e)
      case Ok(policy) =>
        match PoliciesFrom(u, files, k + 1, fallback, stamps)
        case Err(e) => Err(e)
        case Ok(rest) => Ok([policy] + rest)
  }

  function Count(source: PolicySource): nat {
    if source.Several? then |source.files| else 1
  }

  function ParseSource(u: UuidCodec, source: PolicySource, fallback: string, stamps: seq<Stamp>):
      Result<seq<Policy>, GuardError>
    requires |stamps| >= Count(source)
  {
    match source
    case Several(files) => PoliciesFrom(u, files, 0, fallback, stamps)
    case Single(file) =>
      match PolicyFromFile(u, file, fallback, stamps[0])
      case Err(e) => Err(e)
      case Ok(policy) => Ok([policy])
  }

  lemma {:induction false} ParsedInOrder(u: UuidCodec, files: seq<PolicyFile>, k: nat, fallback: string,
                                         stamps: seq<Stamp>)
    requires k <= |files| <= |stamps| && PoliciesFrom(u, files, k, fallback, stamps).Ok?
    ensures var ps := PoliciesFrom(u, files, k, fallback, stamps).value;
            |ps| == |files| - k && forall j :: 0 <= j < |ps| ==>
              PolicyFromFile(u, files[k + j], fallback + "-" + Dec(k + j), stamps[k + j]) == Ok(ps[j])
    decreases |files| - k
  {
    hide PolicyFromFile, Dec;
    if k < |files| {
      ParsedInOrder(u, files, k + 1, fallback, stamps);
    }
  }

  /** The policy has this name, the fields and the parsed rules of the file, and the id and time of
      the stamp. */
  ghost predicate FieldsFrom(u: UuidCodec, file: PolicyFile, name: string, stamp: Stamp, p: Policy) {
    p.name == name && ParseRules(u, file.rules) == Ok(p.rules) &&
    p.description == file.description && p.priority == file.priority && p.enabled == file.enabled &&
    p.id == stamp.id && p.createdAt == stamp.now && p.updatedAt == stamp.now
  }

  /** What a file becomes; the fallback name counts only if it gives none. */
  lemma FileFields(u: UuidCodec, file: PolicyFile, fallback: string, stamp: Stamp, p: Policy)
    ensures PolicyFromFile(u, file, fallback, stamp) == Ok(p) <==>
            FieldsFrom(u, file, if file.name == None then fallback else file.name.value, stamp, p)
  {
    hide ParseRules;
  }

  /** File `k` is the first whose rules do not parse, and this is why. */
  ghost predicate FirstFileError(u: UuidCodec, files: seq<PolicyFile>, k: int, e: GuardError) {
    0 <= k < |files| && ParseRules(u, files[k].rules) == Err(e) &&
    forall j :: 0 <= j < k ==> ParseRules(u, files[j].rules).Ok?
  }

  lemma {:induction false} FilesParseExactly(u: UuidCodec, files: seq<PolicyFile>, k: nat, fallback: string,
                                             stamps: seq<Stamp>)
    requires k <= |files| <= |stamps| && forall j :: 0 <= j < k ==> ParseRules(u, files[j].rules).Ok?
    ensures var r := PoliciesFrom(u, files, k, fallback, stamps);
            if r.Ok? then forall j :: 0 <= j < |files| ==> ParseRules(u, files[j].rules).Ok?
            else exists j :: FirstFileError(u, files, j, r.error)
    decreases |files| - k
  {
    hide ParseRules, Dec;
    if k < |files| {
      var parsed := ParseRules(u, files[k].rules);
      if parsed.Ok? {
        FilesParseExactly(u, files, k + 1, fallback, stamps);
      } else {
        assert FirstFileError(u, files, k, parsed.error);
      }
    }
  }

  function Files(source: PolicySource): (files: seq<PolicyFile>)
    ensures |files| == Count(source)
  {
    match source
    case Several(files) => files
    case Single(file) => [file]
  }

  /** The name of the policy of file `k`: its own, or the fallback, with its index if the source
      holds several. */
  function NameOf(source: PolicySource, fallback: string, k: nat): string
    requires k < Count(source)
  {
    match Files(source)[k].name
    case Some(name) => name
    case None => if source.Several? then fallback + "-" + Dec(k) else fallback
  }

  /** A source parses exactly if all the rules of all its files do, and else fails with the error of
      the first that does not. */
  lemma SourceParsesExactly(u: UuidCodec, source: PolicySource, fallback: string, stamps: seq<Stamp>)
    requires |stamps| >= Count(source)
    ensures var r := ParseSource(u, source, fallback, stamps);
            if r.Ok? then forall j :: 0 <= j < Count(source) ==> ParseRules(u, Files(source)[j].rules).Ok?
            else exists j :: FirstFileError(u, Files(source), j, r.error)
  {
    hide ParseRules, Dec, PoliciesFrom;
    match source
    case Several(files) =>
      assert Files(source) == files;
      FilesParseExactly(u, files, 0, fallback, stamps);
    case Single(file) =>
      assert Files(source) == [file] && [file][0] == file;
      if ParseRules(u, file.rules).Err? {
        assert FirstFileError(u, Files(source), 0, ParseRules(u, file.rules).error);
      }
  }

  /** A parsed source has one policy per file, in order, with the fields and parsed rules of that
      file, under the id and at the time it was stamped with. */
  lemma ParsedFields(u: UuidCodec, source: PolicySource, fallback: string, stamps: seq<Stamp>)
    requires |stamps| >= Count(source) && ParseSource(u, source, fallback, stamps).Ok?
    ensures var ps, files := ParseSource(u, source, fallback, stamps).value, Files(source);
            |ps| == |files| && forall j :: 0 <= j < |ps| ==>
              FieldsFrom(u, files[j], NameOf(source, fallback, j), stamps[j], ps[j])
  {
    hide PolicyFromFile, Dec, PoliciesFrom, ParseRules;
    match source
    case Several(files) =>
      ParsedInOrder(u, files, 0, fallback, stamps);
      var ps := PoliciesFrom(u, files, 0, fallback, stamps).value;
      forall j | 0 <= j < |files|
        ensures FieldsFrom(u, files[j], NameOf(source, fallback, j), stamps[j], ps[j])
      {
        assert PolicyFromFile(u, files[0 + j], fallback + "-" + Dec(0 + j), stamps[0 + j]) == Ok(ps[j]);
        FileFields(u, files[j], fallback + "-" + Dec(j), stamps[j], ps[j]);
      }
    case Single(file) =>
      FileFields(u, file, fallback, stamps[0], PolicyFromFile(u, file, fallback, stamps[0]).value);
  }
}
