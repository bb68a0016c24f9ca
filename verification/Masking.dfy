/** The masking engine of `src/masking/mod.rs`: what it computes, and the in-place traversal
    that computes it. The digest and the JSON printer are parameters. */
module Masking {
  import opened Text
  import opened Glob
  import opened Json

  datatype MaskType =
    | Redact
    | HashBlake3
    | Truncate(n: nat)
    | EmailMask
    | JsonFieldMask(pattern: string)

  datatype MaskDirective = MaskDirective(fieldPattern: string, maskType: MaskType)

  /** BLAKE3 to hexadecimal, and `serde_json::to_string`. */
  datatype Codec = Codec(hash: string -> string, show: Value -> string)

  const MARKER := "[REDACTED]"
  const REDACTED := String(MARKER)

  function Take(s: string, n: nat): (r: string)
    ensures r <= s && (|r| == n || (|s| < n && r == s))
  {
    if n <= |s| then s[..n] else s
  }

  /** Keeps the first character of the local part and everything after the first `@`. */
  function MaskEmail(value: string): string {
    var n := Until(value, {'@'});
    if n == |value| then MARKER
    else [if n == 0 then '*' else value[0]] + "***@" + value[n + 1..]
  }

  /** The local part shrinks to its first character, `*` if there is none; the domain, further
      `@` included, stays. Text without an `@` is redacted. */
  lemma MaskEmailOf(local: string, domain: string)
    requires '@' !in local
    ensures MaskEmail(local) == "[REDACTED]"
    ensures MaskEmail(local + "@" + domain) == [(local + "*")[0]] + "***" + "@" + domain
  {
    assert local + "@" + domain == local + ("@" + domain);
    UntilAt(local, "@" + domain, {'@'});
    UntilAt(local, "", {'@'});
    assert local + "" == local;
  }

  /** Redacts every child under a matching key; other children are searched in turn. */
  function RedactNested(v: Value, pattern: string): Value
    decreases v
  {
    WithChildren(v, seq(Arity(v), i requires 0 <= i < Arity(v) =>
      if LabelAt(v, i).Key? && Accepts(pattern, LabelAt(v, i).name) then REDACTED
      else RedactNested(Child(v, i), pattern)))
  }

  /** What a digest of the node is taken of. */
  function TextOf(c: Codec, v: Value): string {
    if v.String? then v.s else c.show(v)
  }

  function ApplyMask(c: Codec, v: Value, m: MaskType): Value {
    match m
    case Redact => REDACTED
    case HashBlake3 => String(c.hash(TextOf(c, v)))
    case Truncate(n) => if v.String? then String(Take(v.s, n)) else v
    case EmailMask => if v.String? then String(MaskEmail(v.s)) else v
    case JsonFieldMask(pattern) => RedactNested(v, pattern)
  }

  /** What the masks put in place of a value: text masks change strings only, a digest is taken of
      the characters of a string and of the JSON text of anything else. */
  lemma MasksPut(c: Codec, v: Value, n: nat)
    ensures ApplyMask(c, v, Redact) == String("[REDACTED]")
    ensures match v
            case String(s) =>
              ApplyMask(c, v, HashBlake3) == String(c.hash(s)) &&
              ApplyMask(c, v, Truncate(n)) == String(if |s| <= n then s else s[..n]) &&
              ApplyMask(c, v, EmailMask) == String(MaskEmail(s))
            case _ =>
              ApplyMask(c, v, HashBlake3) == String(c.hash(c.show(v))) &&
              ApplyMask(c, v, Truncate(n)) == v && ApplyMask(c, v, EmailMask) == v
  {
  }

  /** All matching directives, in list order, on one node. */
  function MaskHere(c: Codec, v: Value, path: string, masks: seq<MaskDirective>): Value
    decreases |masks|
  {
    if masks == [] then v
    else
      var w := if Accepts(masks[0].fieldPattern, path) then ApplyMask(c, v, masks[0].maskType) else v;
      MaskHere(c, w, path, masks[1..])
  }

  lemma {:induction false} RedactNestedPrunes(v: Value, pattern: string)
    ensures Pruned(v, RedactNested(v, pattern))
    decreases v
  {
    forall i | 0 <= i < Arity(v)
      ensures Pruned(Child(v, i), Child(RedactNested(v, pattern), i))
    {
      RedactNestedPrunes(Child(v, i), pattern);
    }
  }

  lemma {:induction false} MaskHerePrunes(c: Codec, v: Value, path: string, masks: seq<MaskDirective>)
    ensures Pruned(v, MaskHere(c, v, path, masks))
    decreases |masks|
  {
    PrunedReflexive(v);
    if masks != [] {
      var m := masks[0].maskType;
      if m.JsonFieldMask? {
        RedactNestedPrunes(v, m.pattern);
      }
      var w := if Accepts(masks[0].fieldPattern, path) then ApplyMask(c, v, m) else v;
      MaskHerePrunes(c, w, path, masks[1..]);
      PrunedTransitive(v, w, MaskHere(c, w, path, masks[1..]));
    }
  }

  /** The whole traversal: mask the node, then the children of the node as it now is. */
  function Masked(c: Codec, v: Value, path: string, masks: seq<MaskDirective>): Value
    decreases Size(v)
  {
    var here := MaskHere(c, v, path, masks);
    assert Size(here) <= Size(v) by {
      MaskHerePrunes(c, v, path, masks);
      PrunedIsSmaller(v, here);
    }
    WithChildren(here, seq(Arity(here), i requires 0 <= i < Arity(here) =>
      ChildIsSmaller(here, i, 0);
      Masked(c, Child(here, i), path + Render(LabelAt(here, i)), masks)))
  }

  lemma MaskedNode(c: Codec, v: Value, path: string, masks: seq<MaskDirective>)
    ensures SameNode(MaskHere(c, v, path, masks), Masked(c, v, path, masks))
    ensures var here := MaskHere(c, v, path, masks);
            Arity(Masked(c, v, path, masks)) == Arity(here) &&
            forall i :: 0 <= i < Arity(here) ==>
              Child(Masked(c, v, path, masks), i) ==
              Masked(c, Child(here, i), path + Render(LabelAt(here, i)), masks)
  {
  }

  // ---------- the traversal in place ----------

  /** A `&mut Value`: the tree is owned, so one mutable slot holds it. */
  class Slot {
    var value: Value

    constructor (value: Value)
      ensures this.value == value
    {
      this.value := value;
    }
  }

  method RedactNestedFields(slot: Slot, pattern: string)
    modifies slot
    ensures slot.value == RedactNested(old(slot.value), pattern)
    decreases slot.value
  {
    ghost var v := slot.value;
    ghost var goal := RedactNested(v, pattern);
    match slot.value
    case Object(fields) =>
      for i := 0 to |fields|
        invariant slot.value.Object? && |slot.value.fields| == |fields|
        invariant forall j :: i <= j < |fields| ==> slot.value.fields[j] == fields[j]
        invariant forall j :: 0 <= j < i ==> slot.value.fields[j] == Field(fields[j].key, Child(goal, j))
      {
        var key := fields[i].key;
        var hit := MatchesPattern(pattern, key);
        assert LabelAt(v, i) == Key(key) && Child(v, i) == fields[i].value;
        if hit {
          slot.value := Object(slot.value.fields[i := Field(key, REDACTED)]);
        } else {
          var child := new Slot(fields[i].value);
          RedactNestedFields(child, pattern);
          slot.value := Object(slot.value.fields[i := Field(key, child.value)]);
        }
      }
      SameChildren(slot.value, goal);
    case Array(items) =>
      for i := 0 to |items|
        invariant slot.value.Array? && |slot.value.items| == |items|
        invariant forall j :: i <= j < |items| ==> slot.value.items[j] == items[j]
        invariant forall j :: 0 <= j < i ==> slot.value.items[j] == Child(goal, j)
      {
        assert Child(v, i) == items[i];
        var child := new Slot(items[i]);
        RedactNestedFields(child, pattern);
        slot.value := Array(slot.value.items[i := child.value]);
      }
      SameChildren(slot.value, goal);
    case _ =>
  }

  method ApplyMaskTo(c: Codec, slot: Slot, m: MaskType)
    modifies slot
    ensures slot.value == ApplyMask(c, old(slot.value), m)
  {
    match m
    case Redact => slot.value := REDACTED;
    case HashBlake3 =>
      var raw := if slot.value.String? then slot.value.s else c.show(slot.value);
      slot.value := String(c.hash(raw));
    case Truncate(n) =>
      if slot.value.String? {
        slot.value := String(Take(slot.value.s, n));
      }
    case EmailMask =>
      if slot.value.String? {
        slot.value := String(MaskEmail(slot.value.s));
      }
    case JsonFieldMask(pattern) => RedactNestedFields(slot, pattern);
  }

  lemma Rendered(path: string, step: Label)
    ensures match step
            case Key(name) => path + "." + name == path + Render(step)
            case Index(i) => path + "[" + Dec(i) + "]" == path + Render(step)
  {
  }

  method ApplyRecursive(c: Codec, slot: Slot, path: string, masks: seq<MaskDirective>)
    modifies slot
    ensures slot.value == Masked(c, old(slot.value), path, masks)
    decreases Size(slot.value)
  {
    ghost var v := slot.value;
    for k := 0 to |masks|
      invariant MaskHere(c, slot.value, path, masks[k..]) == MaskHere(c, v, path, masks)
    {
      assert masks[k..][1..] == masks[k + 1..];
      var hit := MatchesPattern(masks[k].fieldPattern, path);
      if hit {
        ApplyMaskTo(c, slot, masks[k].maskType);
      }
    }
    ghost var here := slot.value;
    ghost var goal := Masked(c, v, path, masks);
    assert here == MaskHere(c, v, path, masks);
    MaskHerePrunes(c, v, path, masks);
    PrunedIsSmaller(v, here);
    MaskedNode(c, v, path, masks);
    hide MaskHere, Masked, Render, Accepts, Size, Depth, Pruned;
    match slot.value
    case Object(fields) =>
      for i := 0 to |fields|
        invariant slot.value.Object? && |slot.value.fields| == |fields|
        invariant forall j :: i <= j < |fields| ==> slot.value.fields[j] == fields[j]
        invariant forall j :: 0 <= j < i ==> slot.value.fields[j] == Field(fields[j].key, Child(goal, j))
      {
        ChildIsSmaller(here, i, 0);
        assert LabelAt(here, i) == Key(fields[i].key) && Child(here, i) == fields[i].value;
        var child := new Slot(fields[i].value);
        ApplyRecursive(c, child, path + "." + fields[i].key, masks);
        Rendered(path, LabelAt(here, i));
        slot.value := Object(slot.value.fields[i := Field(fields[i].key, child.value)]);
      }
      SameChildren(slot.value, goal);
    case Array(items) =>
      for i := 0 to |items|
        invariant slot.value.Array? && |slot.value.items| == |items|
        invariant forall j :: i <= j < |items| ==> slot.value.items[j] == items[j]
        invariant forall j :: 0 <= j < i ==> slot.value.items[j] == Child(goal, j)
      {
        ChildIsSmaller(here, i, 0);
        assert LabelAt(here, i) == Index(i) && Child(here, i) == items[i];
        var child := new Slot(items[i]);
        ApplyRecursive(c, child, path + "[" + Dec(i) + "]", masks);
        Rendered(path, LabelAt(here, i));
        slot.value := Array(slot.value.items[i := child.value]);
      }
      SameChildren(slot.value, goal);
    case _ =>
  }

  /** `MaskingEngine::apply`. */
  method Apply(c: Codec, slot: Slot, masks: seq<MaskDirective>)
    modifies slot
    ensures slot.value == Masked(c, old(slot.value), "$", masks)
  {
    ApplyRecursive(c, slot, "$", masks);
  }
}
