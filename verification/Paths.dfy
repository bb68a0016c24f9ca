/** Rendered paths: `$`, `.key` and `[index]`. Exactly which keys leave them readable, and that
    positions of a tree with such keys have distinct paths. */
module Paths {
  import opened Wrappers
  import opened Text
  import opened Glob
  import opened Json

  /** Where the last of these characters stands, -1 if there is none. */
  function LastOf(s: string, stop: char): (k: int)
    ensures -1 <= k < |s| && (k >= 0 ==> s[k] == stop)
    ensures forall i :: k < i < |s| ==> s[i] != stop
  {
    if s == "" then -1
    else if s[|s| - 1] == stop then |s| - 1
    else LastOf(s[..|s| - 1], stop)
  }

  /** The text ends in an index as the traversal writes one: `[`, a number without leading zeros, `]`. */
  predicate EndsInIndex(t: string) {
    t != "" && t[|t| - 1] == ']' &&
    var k := LastOf(t, '[');
    0 <= k && IsNumber(t[k + 1..|t| - 1])
  }

  predicate IsNumber(digits: string) {
    Undec(digits) >= 0 && Dec(Undec(digits)) == digits
  }

  lemma IndexAtEnd(front: string, n: nat)
    ensures var t := front + "[" + Dec(n) + "]";
            EndsInIndex(t) && LastOf(t, '[') == |front| && t[..|front|] == front &&
            Undec(t[|front| + 1..|t| - 1]) == n
  {
    hide LastOf, Dec, Undec;
    var digits := Dec(n);
    var t := front + "[" + digits + "]";
    assert t[|front|] == '[' && t[|front| + 1..|t| - 1] == digits;
    assert forall i :: |front| < i < |t| ==> t[i] == ']' || t[i] in digits;
    DecRoundTrip(n);
  }

  /** What ends in an index is some text followed by a rendered index. */
  lemma EndsInIndexExactly(t: string)
    ensures EndsInIndex(t) <==> exists front: string, n: nat :: t == front + "[" + Dec(n) + "]"
  {
    hide LastOf, Dec, Undec;
    if EndsInIndex(t) {
      var k := LastOf(t, '[');
      var digits := t[k + 1..|t| - 1];
      assert t == t[..k] + "[" + digits + "]";
      assert t == t[..k] + "[" + Dec(Undec(digits)) + "]";
    }
    if front: string, n: nat :| t == front + "[" + Dec(n) + "]" {
      IndexAtEnd(front, n);
    }
  }

  /** A key that cannot be taken for several steps: it holds no `.` and does not end in an index. */
  predicate Harmless(key: string) {
    '.' !in key && !EndsInIndex(key)
  }

  predicate AllHarmless(at: seq<Label>) {
    forall k :: 0 <= k < |at| && at[k].Key? ==> Harmless(at[k].name)
  }

  /** Reads a path back, its last step first. */
  function ReadPath(t: string): Option<seq<Label>>
    decreases |t|, 0
  {
    if t == "$" then Some([])
    else if EndsInIndex(t) then
      var k := LastOf(t, '[');
      ReadStep(t[..k], Index(Undec(t[k + 1..|t| - 1])))
    else
      var k := LastOf(t, '.');
      if k < 0 then None else ReadStep(t[..k], Key(t[k + 1..]))
  }

  function ReadStep(up: string, step: Label): Option<seq<Label>>
    decreases |up|, 1
  {
    match ReadPath(up)
    case None => None
    case Some(at) => Some(at + [step])
  }

  lemma PathIsLonger(at: seq<Label>)
    ensures |PathOf(at)| >= 1 && PathOf(at)[0] == '$'
    ensures |PathOf(at)| == 1 ==> at == []
  {
    hide Dec;
    if at != [] {
      PathIsLonger(at[..|at| - 1]);
    }
  }

  lemma IndexAfterDot(up: string, key: string, front: string, n: nat)
    requires up + "." + key == front + "[" + Dec(n) + "]"
    ensures EndsInIndex(key)
  {
    hide EndsInIndex, Dec;
    var t, step := up + "." + key, "[" + Dec(n) + "]";
    assert t == front + step && t[|up|] == '.';
    assert '.' !in step;
    assert |up| < |front| by {
      assert forall i :: |front| <= i < |t| ==> t[i] == step[i - |front|] && t[i] in step;
    }
    var k := front[|up| + 1..];
    assert key == t[|up| + 1..] == k + step;
    assert key == k + "[" + Dec(n) + "]";
    EndsInIndexExactly(key);
  }

  /** After a `.`, only the key itself can end in an index. */
  lemma KeyEndsInIndex(up: string, key: string)
    ensures EndsInIndex(up + "." + key) <==> EndsInIndex(key)
  {
    hide EndsInIndex, Dec;
    var t := up + "." + key;
    if EndsInIndex(t) {
      EndsInIndexExactly(t);
      var front: string, n: nat :| t == front + "[" + Dec(n) + "]";
      IndexAfterDot(up, key, front, n);
    }
    if EndsInIndex(key) {
      EndsInIndexExactly(key);
      var front: string, n: nat :| key == front + "[" + Dec(n) + "]";
      assert t == (up + "." + front) + "[" + Dec(n) + "]";
      EndsInIndexExactly(t);
    }
  }

  lemma ReadKey(up: string, key: string)
    requires Harmless(key)
    ensures ReadPath(up + "." + key) == ReadStep(up, Key(key))
  {
    hide EndsInIndex, LastOf;
    var t := up + "." + key;
    KeyEndsInIndex(up, key);
    assert t[|up|] == '.' && t[..|up|] == up && t[|up| + 1..] == key;
    assert forall i :: |up| < i < |t| ==> t[i] in key;
  }

  lemma ReadIndex(up: string, n: nat)
    ensures ReadPath(up + "[" + Dec(n) + "]") == ReadStep(up, Index(n))
  {
    hide EndsInIndex, LastOf, Dec, Undec;
    IndexAtEnd(up, n);
  }

  /** Paths over harmless keys read back. */
  lemma {:induction false} ReadBack(at: seq<Label>)
    requires AllHarmless(at)
    ensures ReadPath(PathOf(at)) == Some(at)
    decreases |at|
  {
    hide ReadPath, PathOf, Harmless, Dec;
    if at == [] {
      ReadNothing();
    } else {
      var front, step := at[..|at| - 1], at[|at| - 1];
      var up := PathOf(front);
      assert at == front + [step];
      PathSnoc(front, step);
      ReadBack(front);
      match step
      case Key(name) =>
        ReadKey(up, name);
        assert up + "." + name == up + ("." + name);
      case Index(n) =>
        ReadIndex(up, n);
        assert up + "[" + Dec(n) + "]" == up + ("[" + Dec(n) + "]");
    }
  }

  lemma ReadNothing()
    ensures PathOf([]) == "$" && ReadPath("$") == Some([])
  {
  }

  /** So two label sequences over harmless keys with the same path are the same. */
  lemma PathsAreUnique(a: seq<Label>, b: seq<Label>)
    requires AllHarmless(a) && AllHarmless(b) && PathOf(a) == PathOf(b)
    ensures a == b
  {
    ReadBack(a);
    ReadBack(b);
  }

  // ---------- the condition on keys is exact ----------

  /** Another reading of the path of a key that is not harmless. */
  function OtherReading(key: string): (labels: seq<Label>)
    requires !Harmless(key)
    ensures |labels| == 2 && labels[0].Key? && |labels[0].name| < |key|
  {
    if '.' in key then
      var n := Until(key, {'.'});
      assert n < |key|;
      [Key(key[..n]), Key(key[n + 1..])]
    else
      var k := LastOf(key, '[');
      [Key(key[..k]), Index(Undec(key[k + 1..|key| - 1]))]
  }

  lemma TwoSteps(x: Label, y: Label)
    ensures PathOf([x]) == "$" + Render(x)
    ensures PathOf([x, y]) == "$" + Render(x) + Render(y)
  {
    hide Render;
    assert [x][..0] == [] && [x, y][..1] == [x];
    assert PathOf([]) == "$";
  }

  lemma ReadsOtherwise(key: string)
    requires !Harmless(key)
    ensures PathOf(OtherReading(key)) == PathOf([Key(key)])
  {
    hide PathOf, Harmless, OtherReading;
    var labels := OtherReading(key);
    TwoSteps(Key(key), Key(key));
    TwoSteps(labels[0], labels[1]);
    RendersAlike(key);
    assert [labels[0], labels[1]] == labels;
    assert "$" + (Render(labels[0]) + Render(labels[1])) == "$" + Render(labels[0]) + Render(labels[1]);
  }

  lemma RendersAlike(key: string)
    requires !Harmless(key)
    ensures Render(Key(key)) == Render(OtherReading(key)[0]) + Render(OtherReading(key)[1])
  {
    hide Dec, Undec, LastOf, Until;
    if '.' in key {
      DotSplits(key, Until(key, {'.'}));
    } else {
      BracketSplits(key, LastOf(key, '['));
    }
  }

  lemma DotSplits(s: string, n: nat)
    requires n < |s| && s[n] == '.'
    ensures "." + s == ("." + s[..n]) + ("." + s[n + 1..])
  {
  }

  lemma BracketSplits(s: string, k: nat)
    requires k + 1 < |s| && s[k] == '[' && s[|s| - 1] == ']'
    ensures "." + s == ("." + s[..k]) + ("[" + s[k + 1..|s| - 1] + "]")
  {
    assert s == s[..k] + "[" + s[k + 1..|s| - 1] + "]";
  }

  lemma OnlyReading(key: string, b: seq<Label>)
    requires Harmless(key) && PathOf(b) == PathOf([Key(key)])
    ensures b == [Key(key)]
  {
    hide PathOf, EndsInIndex, Dec;
    var t := "$." + key;
    TwoSteps(Key(key), Key(key));
    assert t == "$" + ("." + key) && t == "$" + "." + key;
    PathIsLonger(b);
    ReadNothing();
    var front, last := b[..|b| - 1], b[|b| - 1];
    assert b == front + [last];
    PathSnoc(front, last);
    PathIsLonger(front);
    var up := PathOf(front);
    match last {
      case Index(n) =>
        assert t == up + "[" + Dec(n) + "]";
        EndsInIndexExactly(t);
        KeyEndsInIndex("$", key);
        assert false;
      case Key(name) =>
        assert t == up + "." + name && t[|up|] == '.';
        assert forall i :: 2 <= i < |t| ==> t[i] == key[i - 2] && t[i] in key;
        assert |up| == 1;
        assert name == t[2..] == key;
    }
  }

  /** The keys whose path belongs to them alone are exactly the harmless ones. */
  lemma HarmlessExactly(key: string)
    ensures Harmless(key) <==> forall b :: PathOf(b) == PathOf([Key(key)]) ==> b == [Key(key)]
  {
    hide Harmless, PathOf;
    if Harmless(key) {
      forall b | PathOf(b) == PathOf([Key(key)])
        ensures b == [Key(key)]
      {
        OnlyReading(key, b);
      }
    } else {
      ReadsOtherwise(key);
    }
  }

  // ---------- positions of a tree ----------

  /** What a tree built from maps looks like. */
  ghost predicate DistinctKeys(v: Value)
    decreases v
  {
    (v.Object? ==>
      forall i, j :: 0 <= i < j < |v.fields| ==> v.fields[i].key != v.fields[j].key) &&
    forall i :: 0 <= i < Arity(v) ==> DistinctKeys(Child(v, i))
  }

  ghost predicate HarmlessKeys(v: Value)
    decreases v
  {
    (v.Object? ==> forall i :: 0 <= i < |v.fields| ==> Harmless(v.fields[i].key)) &&
    forall i :: 0 <= i < Arity(v) ==> HarmlessKeys(Child(v, i))
  }

  lemma {:induction false} LabelsTellPositions(v: Value, p: seq<nat>, q: seq<nat>)
    requires DistinctKeys(v) && At(v, p).Some? && At(v, q).Some?
    requires Labels(v, p) == Labels(v, q)
    ensures p == q
    decreases |p|
  {
    if p != [] {
      assert q != [] && LabelAt(v, p[0]) == Labels(v, p)[0] == Labels(v, q)[0] == LabelAt(v, q[0]);
      assert p[0] == q[0];
      assert Labels(v, p)[1..] == Labels(Child(v, p[0]), p[1..]);
      assert Labels(v, q)[1..] == Labels(Child(v, p[0]), q[1..]);
      LabelsTellPositions(Child(v, p[0]), p[1..], q[1..]);
      assert p == [p[0]] + p[1..] && q == [q[0]] + q[1..];
    }
  }

  lemma {:induction false} LabelsAreHarmless(v: Value, p: seq<nat>)
    requires HarmlessKeys(v) && At(v, p).Some?
    ensures AllHarmless(Labels(v, p))
    decreases |p|
  {
    hide Harmless;
    if p != [] {
      LabelsAreHarmless(Child(v, p[0]), p[1..]);
    }
  }

  /** Distinct positions of a tree with harmless keys have distinct paths, so a directive without
      a star selects at most one of them. */
  lemma OnePositionPerPath(v: Value, p: seq<nat>, q: seq<nat>, pattern: string)
    requires DistinctKeys(v) && HarmlessKeys(v) && At(v, p).Some? && At(v, q).Some?
    ensures PathOf(Labels(v, p)) == PathOf(Labels(v, q)) ==> p == q
    ensures (StarFree(pattern) &&
             Accepts(pattern, PathOf(Labels(v, p))) && Accepts(pattern, PathOf(Labels(v, q)))) ==> p == q
  {
    LabelsAreHarmless(v, p);
    LabelsAreHarmless(v, q);
    if PathOf(Labels(v, p)) == PathOf(Labels(v, q)) {
      PathsAreUnique(Labels(v, p), Labels(v, q));
      LabelsTellPositions(v, p, q);
    }
    if StarFree(pattern) {
      StarFreeGlob(pattern, PathOf(Labels(v, p)));
      StarFreeGlob(pattern, PathOf(Labels(v, q)));
    }
  }

  /** The smallest tree in which a key that is not harmless meets its other reading. */
  function Collision(key: string): Value
    requires !Harmless(key)
  {
    var labels := OtherReading(key);
    var inner :=
      match labels[1]
      case Key(name) => Object([Field(name, Null)])
      case Index(n) => Array(seq(n + 1, _ => Null));
    Object([Field(key, Null), Field(labels[0].name, inner)])
  }

  /** In it two positions have one path, so the directive `$.key` selects both. */
  lemma HarmfulKeysCollide(key: string) returns (p: seq<nat>, q: seq<nat>)
    requires !Harmless(key)
    ensures var v := Collision(key);
            DistinctKeys(v) && At(v, p).Some? && At(v, q).Some? && p != q &&
            Labels(v, p) == [Key(key)] && PathOf(Labels(v, q)) == PathOf([Key(key)])
  {
    hide Harmless, PathOf, OtherReading;
    var v, labels := Collision(key), OtherReading(key);
    var inner := v.fields[1].value;
    assert Child(v, 0) == Null && Child(v, 1) == inner;
    var i := if labels[1].Key? then 0 else labels[1].i;
    p, q := [0], [1, i];
    assert p[1..] == [] && q[1..] == [i] && [i][1..] == [];
    assert LabelAt(inner, i) == labels[1] && Child(inner, i) == Null;
    assert Labels(v, p) == [Key(key)] + [];
    assert Labels(inner, [i]) == [labels[1]] + [];
    assert Labels(v, q) == [labels[0]] + [labels[1]] == labels;
    assert forall j :: 0 <= j < Arity(inner) ==> DistinctKeys(Child(inner, j));
    ReadsOtherwise(key);
  }

  /** On trees: a key has its own path wherever it stands at the root, whatever else the tree
      holds, exactly if it is harmless. */
  lemma OwnPathExactly(key: string)
    ensures Harmless(key) <==>
            forall v, p, q :: HasOwnPath(key, v, p, q)
  {
    hide Harmless, PathOf;
    if Harmless(key) {
      forall v, p, q
        ensures HasOwnPath(key, v, p, q)
      {
        if DistinctKeys(v) && At(v, p).Some? && At(v, q).Some? && Labels(v, p) == [Key(key)] &&
           PathOf(Labels(v, q)) == PathOf([Key(key)]) {
          OnlyReading(key, Labels(v, q));
          LabelsTellPositions(v, p, q);
        }
      }
    } else {
      var p, q := HarmfulKeysCollide(key);
      assert !HasOwnPath(key, Collision(key), p, q);
    }
  }

  ghost predicate HasOwnPath(key: string, v: Value, p: seq<nat>, q: seq<nat>) {
    (DistinctKeys(v) && At(v, p).Some? && At(v, q).Some? && Labels(v, p) == [Key(key)] &&
     PathOf(Labels(v, q)) == PathOf([Key(key)])) ==> p == q
  }
}
