/** What a list of `Redact` and `JsonFieldMask` directives means, position by position. */
module Redaction {
  import opened Wrappers
  import opened Glob
  import opened Json
  import opened Masking

  predicate OnlyRedacts(masks: seq<MaskDirective>) {
    forall d :: d in masks ==> d.maskType.Redact? || d.maskType.JsonFieldMask?
  }

  predicate RedactMatches(masks: seq<MaskDirective>, path: string) {
    exists d :: d in masks && d.maskType.Redact? && Accepts(d.fieldPattern, path)
  }

  /** Some field mask, selected at `at` or above, matches the key. */
  ghost predicate KeyIsHidden(masks: seq<MaskDirective>, at: seq<Label>, key: string) {
    exists d, k :: d in masks && d.maskType.JsonFieldMask? && 0 <= k <= |at| &&
                   Accepts(d.fieldPattern, PathOf(at[..k])) && Accepts(d.maskType.pattern, key)
  }

  /** A field mask selected strictly above the position matches its key. */
  ghost predicate HiddenAt(masks: seq<MaskDirective>, at: seq<Label>) {
    at != [] && at[|at| - 1].Key? && KeyIsHidden(masks, at[..|at| - 1], at[|at| - 1].name)
  }

  /** This very position is redacted: a `Redact` matches its path, or it is hidden. */
  ghost predicate RedactedAt(masks: seq<MaskDirective>, at: seq<Label>) {
    RedactMatches(masks, PathOf(at)) || HiddenAt(masks, at)
  }

  /** The declarative redaction: cut the tree at the topmost redacted positions. */
  ghost function Redaction(masks: seq<MaskDirective>, v: Value, at: seq<Label>): Value
    decreases v
  {
    if RedactedAt(masks, at) then REDACTED
    else WithChildren(v, seq(Arity(v), i requires 0 <= i < Arity(v) =>
      Redaction(masks, Child(v, i), at + [LabelAt(v, i)])))
  }

  predicate Digestless(masks: seq<MaskDirective>) {
    forall d :: d in masks ==> !d.maskType.HashBlake3?
  }

  /** What any list without digests does: the same positions are cut as above, each topmost one
      holding what the directives at its path make of the marker; every other scalar goes through
      the directives at its path, every other container stays. */
  ghost function Scrubbed(c: Codec, masks: seq<MaskDirective>, v: Value, at: seq<Label>): Value
    decreases v
  {
    if RedactedAt(masks, at) then MaskHere(c, REDACTED, PathOf(at), masks)
    else if IsScalar(v) then MaskHere(c, v, PathOf(at), masks)
    else WithChildren(v, seq(Arity(v), i requires 0 <= i < Arity(v) =>
      Scrubbed(c, masks, Child(v, i), at + [LabelAt(v, i)])))
  }

  // ---------- what field masks selected so far have hidden ----------

  function SelectedAt(masks: seq<MaskDirective>, path: string): set<string> {
    set d | d in masks && d.maskType.JsonFieldMask? && Accepts(d.fieldPattern, path) :: d.maskType.pattern
  }

  function Selected(masks: seq<MaskDirective>, at: seq<Label>): set<string> {
    Above(masks, at) + SelectedAt(masks, PathOf(at))
  }

  function Above(masks: seq<MaskDirective>, at: seq<Label>): set<string>
    decreases |at|, 0
  {
    if at == [] then {} else
      Above(masks, at[..|at| - 1]) + SelectedAt(masks, PathOf(at[..|at| - 1]))
  }

  ghost predicate Hits(patterns: set<string>, key: string) {
    exists q :: q in patterns && Accepts(q, key)
  }

  lemma {:induction false} AboveIsAncestors(masks: seq<MaskDirective>, at: seq<Label>, q: string)
    ensures q in Above(masks, at) <==>
            exists k :: 0 <= k < |at| && q in SelectedAt(masks, PathOf(at[..k]))
    decreases |at|
  {
    hide SelectedAt, PathOf;
    if at != [] {
      var up := at[..|at| - 1];
      AboveIsAncestors(masks, up, q);
      assert forall k :: 0 <= k <= |up| ==> up[..k] == at[..k];
    }
  }

  lemma SelectedIsAncestors(masks: seq<MaskDirective>, at: seq<Label>, key: string)
    ensures Hits(Selected(masks, at), key) <==> KeyIsHidden(masks, at, key)
  {
    assert at[..|at|] == at;
    if Hits(Selected(masks, at), key) {
      var q :| q in Selected(masks, at) && Accepts(q, key);
      AboveIsAncestors(masks, at, q);
      var k :| 0 <= k <= |at| && q in SelectedAt(masks, PathOf(at[..k]));
    }
    if KeyIsHidden(masks, at, key) {
      var d, k :| d in masks && d.maskType.JsonFieldMask? && 0 <= k <= |at| &&
                  Accepts(d.fieldPattern, PathOf(at[..k])) && Accepts(d.maskType.pattern, key);
      var q := d.maskType.pattern;
      assert q in SelectedAt(masks, PathOf(at[..k]));
      AboveIsAncestors(masks, at, q);
    }
  }

  /** The tree after every field mask in `patterns` has been over it. */
  ghost function Hide(v: Value, patterns: set<string>): Value
    decreases v
  {
    WithChildren(v, seq(Arity(v), i requires 0 <= i < Arity(v) =>
      if LabelAt(v, i).Key? && Hits(patterns, LabelAt(v, i).name) then REDACTED
      else Hide(Child(v, i), patterns)))
  }

  lemma {:induction false} HideNothing(v: Value)
    ensures Hide(v, {}) == v
    decreases v
  {
    forall i | 0 <= i < Arity(v)
      ensures Child(Hide(v, {}), i) == Child(v, i)
    {
      HideNothing(Child(v, i));
    }
    SameChildren(v, Hide(v, {}));
  }

  lemma ScalarsHideNothing(v: Value, patterns: set<string>, pattern: string)
    requires IsScalar(v)
    ensures Hide(v, patterns) == v && RedactNested(v, pattern) == v
  {
  }

  lemma {:induction false} HideOneMore(v: Value, patterns: set<string>, q: string)
    ensures RedactNested(Hide(v, patterns), q) == Hide(v, patterns + {q})
    decreases v
  {
    var hidden, more := Hide(v, patterns), Hide(v, patterns + {q});
    SameNodeLabels(v, hidden);
    SameNodeLabels(v, more);
    SameNodeLabels(hidden, RedactNested(hidden, q));
    forall i | 0 <= i < Arity(v)
      ensures Child(RedactNested(hidden, q), i) == Child(more, i)
    {
      HideOneMore(Child(v, i), patterns, q);
      ScalarsHideNothing(REDACTED, patterns, q);
      if LabelAt(v, i).Key? {
        var key := LabelAt(v, i).name;
        assert Hits(patterns + {q}, key) <==> Hits(patterns, key) || Accepts(q, key);
      }
    }
    SameNodeTransitive(v, hidden, RedactNested(hidden, q));
    SameNodeTwins(v, more, RedactNested(hidden, q));
    SameChildren(RedactNested(hidden, q), more);
  }

  lemma SameNodeTransitive(u: Value, v: Value, w: Value)
    requires SameNode(u, v) && SameNode(v, w)
    ensures SameNode(u, w)
  {
  }

  lemma SameNodeTwins(u: Value, v: Value, w: Value)
    requires SameNode(u, v) && SameNode(u, w)
    ensures SameNode(w, v)
  {
  }

  // ---------- the traversal computes the declarative meaning ----------

  lemma MatchesHere(d: MaskDirective, rest: seq<MaskDirective>, path: string)
    ensures RedactMatches([d] + rest, path) <==>
            (d.maskType.Redact? && Accepts(d.fieldPattern, path)) || RedactMatches(rest, path)
  {
  }

  /** Where a `Redact` matches, what was there does not matter. */
  lemma {:induction false} RedactForgets(c: Codec, v: Value, w: Value, path: string, masks: seq<MaskDirective>)
    requires Digestless(masks) && RedactMatches(masks, path)
    ensures MaskHere(c, v, path, masks) == MaskHere(c, w, path, masks)
    decreases |masks|
  {
    var d, rest := masks[0], masks[1..];
    assert masks == [d] + rest;
    MatchesHere(d, rest, path);
    if !(d.maskType.Redact? && Accepts(d.fieldPattern, path)) {
      var v', w' := v, w;
      if Accepts(d.fieldPattern, path) {
        v', w' := ApplyMask(c, v, d.maskType), ApplyMask(c, w, d.maskType);
      }
      RedactForgets(c, v', w', path, rest);
    }
  }

  /** The node of a container under field masks. */
  lemma {:induction false} MaskedContainer(c: Codec, v: Value, patterns: set<string>, path: string,
                                           masks: seq<MaskDirective>)
    requires Digestless(masks) && !RedactMatches(masks, path) && !IsScalar(v)
    ensures MaskHere(c, Hide(v, patterns), path, masks) == Hide(v, patterns + SelectedAt(masks, path))
    decreases |masks|
  {
    hide Accepts, RedactNested;
    if masks == [] {
      assert patterns + SelectedAt(masks, path) == patterns;
    } else {
      var d, rest := masks[0], masks[1..];
      assert masks == [d] + rest;
      MatchesHere(d, rest, path);
      if Accepts(d.fieldPattern, path) && d.maskType.JsonFieldMask? {
        var q := d.maskType.pattern;
        assert SelectedAt(masks, path) == {q} + SelectedAt(rest, path);
        assert patterns + SelectedAt(masks, path) == (patterns + {q}) + SelectedAt(rest, path);
        HideOneMore(v, patterns, q);
        MaskedContainer(c, v, patterns + {q}, path, rest);
      } else {
        assert SelectedAt(masks, path) == SelectedAt(rest, path);
        MaskedContainer(c, v, patterns, path, rest);
      }
    }
  }

  lemma MaskedScalar(c: Codec, v: Value, path: string, masks: seq<MaskDirective>)
    requires IsScalar(MaskHere(c, v, path, masks))
    ensures Masked(c, v, path, masks) == MaskHere(c, v, path, masks)
  {
    MaskedNode(c, v, path, masks);
    SameChildren(MaskHere(c, v, path, masks), Masked(c, v, path, masks));
  }

  lemma ScalarsStayScalar(c: Codec, v: Value, path: string, masks: seq<MaskDirective>)
    requires IsScalar(v)
    ensures IsScalar(MaskHere(c, v, path, masks)) && Masked(c, v, path, masks) == MaskHere(c, v, path, masks)
  {
    hide MaskHere, Masked;
    MaskHerePrunes(c, v, path, masks);
    MaskedScalar(c, v, path, masks);
  }

  lemma ChildBelow(masks: seq<MaskDirective>, v: Value, at: seq<Label>, i: nat)
    requires i < Arity(v)
    ensures var down := at + [LabelAt(v, i)];
            PathOf(down) == PathOf(at) + Render(LabelAt(v, i)) &&
            (!HiddenAt(masks, down) ==>
               Child(Hide(v, Selected(masks, at)), i) == Hide(Child(v, i), Above(masks, down))) &&
            (HiddenAt(masks, down) ==>
               Child(Hide(v, Selected(masks, at)), i) == REDACTED && RedactedAt(masks, down))
  {
    hide SelectedAt, Accepts, KeyIsHidden;
    var down := at + [LabelAt(v, i)];
    assert down[..|down| - 1] == at;
    PathSnoc(at, LabelAt(v, i));
    if LabelAt(v, i).Key? {
      SelectedIsAncestors(masks, at, LabelAt(v, i).name);
    }
  }

  /** The node itself, and the leaf cases. */
  lemma ScrubbedEnds(c: Codec, masks: seq<MaskDirective>, v: Value, at: seq<Label>)
    requires Digestless(masks) && !HiddenAt(masks, at)
    requires RedactMatches(masks, PathOf(at)) || IsScalar(v)
    ensures Masked(c, Hide(v, Above(masks, at)), PathOf(at), masks) == Scrubbed(c, masks, v, at)
  {
    hide Masked, MaskHere, PathOf, Above, RedactMatches, Hide, HiddenAt, KeyIsHidden;
    RedactedHere(masks, at);
    var cur := Hide(v, Above(masks, at));
    if RedactMatches(masks, PathOf(at)) {
      RedactForgets(c, cur, REDACTED, PathOf(at), masks);
      ScalarsStayScalar(c, REDACTED, PathOf(at), masks);
      MaskedScalar(c, cur, PathOf(at), masks);
    } else {
      ScalarsHideNothing(v, Above(masks, at), "");
      ScalarsStayScalar(c, v, PathOf(at), masks);
    }
  }

  lemma {:induction false} MaskedScrubsBelow(c: Codec, masks: seq<MaskDirective>, v: Value, at: seq<Label>)
    requires Digestless(masks) && !HiddenAt(masks, at)
    ensures Masked(c, Hide(v, Above(masks, at)), PathOf(at), masks) == Scrubbed(c, masks, v, at)
    decreases v
  {
    hide Masked, MaskHere, PathOf, Above, SelectedAt, RedactMatches, Hide, HiddenAt, KeyIsHidden, Render;
    if RedactMatches(masks, PathOf(at)) || IsScalar(v) {
      ScrubbedEnds(c, masks, v, at);
    } else {
      var cur := Hide(v, Above(masks, at));
      var got, want := Masked(c, cur, PathOf(at), masks), Scrubbed(c, masks, v, at);
      MaskedContainer(c, v, Above(masks, at), PathOf(at), masks);
      MaskedNode(c, cur, PathOf(at), masks);
      RedactedHere(masks, at);
      var here := Hide(v, Selected(masks, at));
      HideNode(v, Selected(masks, at));
      forall i | 0 <= i < Arity(v)
        ensures Child(got, i) == Child(want, i)
      {
        var down := at + [LabelAt(v, i)];
        ChildBelow(masks, v, at, i);
        if !HiddenAt(masks, down) {
          MaskedScrubsBelow(c, masks, Child(v, i), down);
        } else {
          ScalarsStayScalar(c, REDACTED, PathOf(down), masks);
          assert Scrubbed(c, masks, Child(v, i), down) == MaskHere(c, REDACTED, PathOf(down), masks);
        }
        assert Child(got, i) == Masked(c, Child(here, i), PathOf(down), masks);
        assert Child(want, i) == Scrubbed(c, masks, Child(v, i), down);
      }
      SameNodeTransitive(v, here, got);
      SameNodeTwins(v, want, got);
      SameChildren(got, want);
    }
  }

  /** Any tree, any list without digests: the traversal, which keeps running over what it has
      already changed, yields exactly the declarative meaning. */
  lemma MaskedScrubs(c: Codec, masks: seq<MaskDirective>, v: Value)
    requires Digestless(masks)
    ensures Masked(c, v, "$", masks) == Scrubbed(c, masks, v, [])
  {
    HideNothing(v);
    MaskedScrubsBelow(c, masks, v, []);
  }

  lemma RedactedHere(masks: seq<MaskDirective>, at: seq<Label>)
    requires !HiddenAt(masks, at)
    ensures RedactedAt(masks, at) <==> RedactMatches(masks, PathOf(at))
  {
  }

  lemma HideNode(v: Value, patterns: set<string>)
    ensures SameNode(v, Hide(v, patterns)) && Arity(v) == Arity(Hide(v, patterns))
    ensures forall i :: 0 <= i < Arity(v) ==> LabelAt(v, i) == LabelAt(Hide(v, patterns), i)
  {
    SameNodeLabels(v, Hide(v, patterns));
  }

  lemma {:induction false} RedactsKeepScalars(c: Codec, v: Value, path: string, masks: seq<MaskDirective>)
    requires OnlyRedacts(masks) && IsScalar(v) && (RedactMatches(masks, path) ==> v == REDACTED)
    ensures MaskHere(c, v, path, masks) == v
    decreases |masks|
  {
    if masks != [] {
      var d, rest := masks[0], masks[1..];
      assert masks == [d] + rest;
      MatchesHere(d, rest, path);
      if d.maskType.JsonFieldMask? {
        ScalarsHideNothing(v, {}, d.maskType.pattern);
      }
      RedactsKeepScalars(c, v, path, rest);
    }
  }

  lemma {:induction false} ScrubbedIsRedaction(c: Codec, masks: seq<MaskDirective>, v: Value, at: seq<Label>)
    requires OnlyRedacts(masks)
    ensures Scrubbed(c, masks, v, at) == Redaction(masks, v, at)
    decreases v
  {
    hide MaskHere, PathOf, KeyIsHidden;
    if RedactedAt(masks, at) {
      RedactsKeepScalars(c, REDACTED, PathOf(at), masks);
    } else if IsScalar(v) {
      RedactsKeepScalars(c, v, PathOf(at), masks);
      SameChildren(v, Redaction(masks, v, at));
    } else {
      var got, want := Scrubbed(c, masks, v, at), Redaction(masks, v, at);
      forall i | 0 <= i < Arity(v)
        ensures Child(got, i) == Child(want, i)
      {
        ScrubbedIsRedaction(c, masks, Child(v, i), at + [LabelAt(v, i)]);
      }
      SameNodeTwins(v, want, got);
      SameChildren(got, want);
    }
  }

  /** With `Redact` and `JsonFieldMask` only, that meaning is the redaction. */
  lemma MaskedIsRedaction(c: Codec, masks: seq<MaskDirective>, v: Value)
    requires OnlyRedacts(masks)
    ensures Masked(c, v, "$", masks) == Redaction(masks, v, [])
  {
    MaskedScrubs(c, masks, v);
    ScrubbedIsRedaction(c, masks, v, []);
  }

  /** Position by position: below a redacted position nothing is left, a topmost redacted
      position holds the marker, every other position keeps its scalar or its kind and keys. */
  lemma {:induction false} RedactionAt(masks: seq<MaskDirective>, v: Value, at: seq<Label>, pos: seq<nat>)
    requires At(v, pos).Some?
    ensures var labels := at + Labels(v, pos);
            var r := At(Redaction(masks, v, at), pos);
            if exists k :: |at| <= k < |labels| && RedactedAt(masks, labels[..k]) then r == None
            else if RedactedAt(masks, labels) then r == Some(REDACTED)
            else r.Some? && SameNode(At(v, pos).value, r.value)
    decreases |pos|
  {
    hide RedactedAt;
    var labels := at + Labels(v, pos);
    var w := Redaction(masks, v, at);
    assert labels[..|at|] == at;
    if pos == [] {
      assert labels == at;
    } else if RedactedAt(masks, at) {
      assert |at| < |labels|;
    } else {
      var down := at + [LabelAt(v, pos[0])];
      assert labels == down + Labels(Child(v, pos[0]), pos[1..]);
      RedactionAt(masks, Child(v, pos[0]), down, pos[1..]);
      SameNodeLabels(v, w);
    }
  }

  /** The order of the directives, and their repetition, does not matter. */
  lemma {:induction false} RedactionOrder(m1: seq<MaskDirective>, m2: seq<MaskDirective>, v: Value, at: seq<Label>)
    requires forall d :: d in m1 <==> d in m2
    ensures Redaction(m1, v, at) == Redaction(m2, v, at)
    decreases v
  {
    assert RedactedAt(m1, at) <==> RedactedAt(m2, at);
    forall i | 0 <= i < Arity(v)
      ensures Redaction(m1, Child(v, i), at + [LabelAt(v, i)]) == Redaction(m2, Child(v, i), at + [LabelAt(v, i)])
    {
      RedactionOrder(m1, m2, Child(v, i), at + [LabelAt(v, i)]);
    }
    if !RedactedAt(m1, at) {
      SameNodeTwins(v, Redaction(m2, v, at), Redaction(m1, v, at));
      SameChildren(Redaction(m1, v, at), Redaction(m2, v, at));
    }
  }

  lemma {:induction false} RedactionTwice(masks: seq<MaskDirective>, v: Value, at: seq<Label>)
    ensures Redaction(masks, Redaction(masks, v, at), at) == Redaction(masks, v, at)
    decreases v
  {
    var once := Redaction(masks, v, at);
    var twice := Redaction(masks, once, at);
    if !RedactedAt(masks, at) {
      SameNodeLabels(v, once);
      SameNodeLabels(once, twice);
      forall i | 0 <= i < Arity(v)
        ensures Child(twice, i) == Child(once, i)
      {
        RedactionTwice(masks, Child(v, i), at + [LabelAt(v, i)]);
      }
      SameChildren(twice, once);
    }
  }

  /** So masking with such a list is idempotent, and depends only on the set of directives. */
  lemma RedactingIsIdempotent(c: Codec, masks: seq<MaskDirective>, v: Value)
    requires OnlyRedacts(masks)
    ensures Masked(c, Masked(c, v, "$", masks), "$", masks) == Masked(c, v, "$", masks)
  {
    MaskedIsRedaction(c, masks, v);
    MaskedIsRedaction(c, masks, Masked(c, v, "$", masks));
    RedactionTwice(masks, v, []);
  }

  lemma RedactingIgnoresOrder(c: Codec, m1: seq<MaskDirective>, m2: seq<MaskDirective>, v: Value)
    requires OnlyRedacts(m1) && forall d :: d in m1 <==> d in m2
    ensures Masked(c, v, "$", m1) == Masked(c, v, "$", m2)
  {
    MaskedIsRedaction(c, m1, v);
    MaskedIsRedaction(c, m2, v);
    RedactionOrder(m1, m2, v, []);
  }
}
