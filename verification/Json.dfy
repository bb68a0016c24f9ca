/** JSON trees as the masking engine sees them, and positions inside them.
    An object holds its entries in map order; the keys of one object are distinct in every
    tree that comes from a map. A number keeps its text. */
module Json {
  import opened Wrappers
  import opened Text

  datatype Value =
    | Null
    | Bool(b: bool)
    | Number(text: string)
    | String(s: string)
    | Array(items: seq<Value>)
    | Object(fields: seq<Field>)

  datatype Field = Field(key: string, value: Value)

  /** How a child is reached from its parent. */
  datatype Label = Key(name: string) | Index(i: nat)

  predicate IsScalar(v: Value) {
    !v.Array? && !v.Object?
  }

  function Arity(v: Value): nat {
    match v
    case Array(items) => |items|
    case Object(fields) => |fields|
    case _ => 0
  }

  function Child(v: Value, i: nat): (c: Value)
    requires i < Arity(v)
    ensures c < v
  {
    if v.Array? then v.items[i] else
      assert v.fields[i] < v;
      v.fields[i].value
  }

  function LabelAt(v: Value, i: nat): Label
    requires i < Arity(v)
  {
    if v.Array? then Index(i) else Key(v.fields[i].key)
  }

  /** The same node with other children, in the same places. */
  function WithChildren(v: Value, cs: seq<Value>): (w: Value)
    requires |cs| == Arity(v)
    ensures SameNode(v, w)
    ensures forall i :: 0 <= i < |cs| ==> Child(w, i) == cs[i]
  {
    match v
    case Array(items) => Array(cs)
    case Object(fields) => Object(seq(|cs|, i requires 0 <= i < |cs| => Field(fields[i].key, cs[i])))
    case _ => v
  }

  /** The same scalar, or containers of the same kind with the same keys or length. */
  predicate SameNode(v: Value, w: Value) {
    match (v, w)
    case (Array(a), Array(b)) => |a| == |b|
    case (Object(f), Object(g)) => |f| == |g| && forall i :: 0 <= i < |f| ==> f[i].key == g[i].key
    case _ => v == w && IsScalar(v)
  }

  lemma SameNodeLabels(v: Value, w: Value)
    requires SameNode(v, w)
    ensures Arity(v) == Arity(w)
    ensures forall i :: 0 <= i < Arity(v) ==> LabelAt(v, i) == LabelAt(w, i)
  {
  }

  /** A tree is its node and its children. */
  lemma SameChildren(v: Value, w: Value)
    requires SameNode(v, w)
    requires forall i :: 0 <= i < Arity(v) ==> Child(v, i) == Child(w, i)
    ensures v == w
  {
    match v
    case Array(a) =>
      assert forall i :: 0 <= i < |a| ==> a[i] == Child(v, i) == Child(w, i) == w.items[i];
      assert a == w.items;
    case Object(f) =>
      assert forall i :: 0 <= i < |f| ==> f[i].value == Child(v, i) == Child(w, i) == w.fields[i].value;
      assert f == w.fields;
    case _ =>
  }

  // ---------- size and depth ----------

  function Size(v: Value): nat
    decreases v, Arity(v) + 1
  {
    1 + SizeFrom(v, 0)
  }

  function SizeFrom(v: Value, i: nat): nat
    requires i <= Arity(v)
    decreases v, Arity(v) - i
  {
    if i == Arity(v) then 0 else Size(Child(v, i)) + SizeFrom(v, i + 1)
  }

  function Depth(v: Value): nat
    decreases v, Arity(v) + 1
  {
    1 + DepthFrom(v, 0)
  }

  function DepthFrom(v: Value, i: nat): nat
    requires i <= Arity(v)
    decreases v, Arity(v) - i
  {
    if i == Arity(v) then 0
    else
      var d, rest := Depth(Child(v, i)), DepthFrom(v, i + 1);
      if d > rest then d else rest
  }

  lemma {:induction false} ChildIsSmaller(v: Value, i: nat, from: nat)
    requires from <= i < Arity(v)
    ensures Size(Child(v, i)) <= SizeFrom(v, from) < Size(v)
    decreases i - from
  {
    if from < i {
      ChildIsSmaller(v, i, from + 1);
    }
    SizeFromShrinks(v, from);
  }

  lemma {:induction false} SizeFromShrinks(v: Value, from: nat)
    requires from <= Arity(v)
    ensures SizeFrom(v, from) < Size(v)
    decreases from
  {
    if from > 0 {
      SizeFromShrinks(v, from - 1);
    }
  }

  /** `w` is `v` with some subtrees replaced by scalars. */
  ghost predicate Pruned(v: Value, w: Value)
    decreases v
  {
    IsScalar(w) ||
    (SameNode(v, w) && forall i :: 0 <= i < Arity(v) ==> Pruned(Child(v, i), Child(w, i)))
  }

  lemma {:induction false} PrunedReflexive(v: Value)
    ensures Pruned(v, v)
  {
    forall i | 0 <= i < Arity(v)
      ensures Pruned(Child(v, i), Child(v, i))
    {
      PrunedReflexive(Child(v, i));
    }
  }

  lemma {:induction false} PrunedTransitive(u: Value, v: Value, w: Value)
    requires Pruned(u, v) && Pruned(v, w)
    ensures Pruned(u, w)
    decreases u
  {
    if !IsScalar(w) {
      forall i | 0 <= i < Arity(u)
        ensures Pruned(Child(u, i), Child(w, i))
      {
        PrunedTransitive(Child(u, i), Child(v, i), Child(w, i));
      }
    }
  }

  /** Pruning never adds nodes or levels. */
  lemma {:induction false} PrunedIsSmaller(v: Value, w: Value)
    requires Pruned(v, w)
    ensures Size(w) <= Size(v) && Depth(w) <= Depth(v)
    decreases v, Arity(v) + 1
  {
    if IsScalar(w) {
      assert SizeFrom(w, 0) == 0 && DepthFrom(w, 0) == 0;
    } else {
      PrunedFromIsSmaller(v, w, 0);
    }
  }

  lemma {:induction false} PrunedFromIsSmaller(v: Value, w: Value, i: nat)
    requires i <= Arity(v) == Arity(w)
    requires forall j :: 0 <= j < Arity(v) ==> Pruned(Child(v, j), Child(w, j))
    ensures SizeFrom(w, i) <= SizeFrom(v, i) && DepthFrom(w, i) <= DepthFrom(v, i)
    decreases v, Arity(v) - i
  {
    hide Pruned;
    if i < Arity(v) {
      PrunedIsSmaller(Child(v, i), Child(w, i));
      PrunedFromIsSmaller(v, w, i + 1);
    }
  }

  // ---------- positions ----------

  /** The subtree at a position, given as child indices from the root. */
  function At(v: Value, pos: seq<nat>): Option<Value> {
    if pos == [] then Some(v)
    else if pos[0] < Arity(v) then At(Child(v, pos[0]), pos[1..])
    else None
  }

  function Labels(v: Value, pos: seq<nat>): (labels: seq<Label>)
    requires At(v, pos).Some?
    ensures |labels| == |pos|
    decreases |pos|
  {
    if pos == [] then [] else [LabelAt(v, pos[0])] + Labels(Child(v, pos[0]), pos[1..])
  }

  function Render(step: Label): string {
    match step
    case Key(name) => "." + name
    case Index(i) => "[" + Dec(i) + "]"
  }

  /** The path text the traversal builds on its way down. */
  function PathOf(at: seq<Label>): string {
    if at == [] then "$" else PathOf(at[..|at| - 1]) + Render(at[|at| - 1])
  }

  lemma PathSnoc(at: seq<Label>, step: Label)
    ensures PathOf(at + [step]) == PathOf(at) + Render(step)
  {
    assert (at + [step])[..|at|] == at;
  }
}
