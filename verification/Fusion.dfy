/** When one pass with two lists is a pass with the first followed by a pass with the second. */
module Fusion {
  import opened Wrappers
  import opened Glob
  import opened Json
  import opened Masking
  import opened Redaction
  import opened TextEdits

  ghost predicate Fuses(c: Codec, v: Value, path: string, m1: seq<MaskDirective>, m2: seq<MaskDirective>) {
    Masked(c, v, path, m1 + m2) == Masked(c, Masked(c, v, path, m1), path, m2)
  }

  lemma {:induction false} MaskHereAppend(c: Codec, v: Value, path: string,
                                          m1: seq<MaskDirective>, m2: seq<MaskDirective>)
    ensures MaskHere(c, v, path, m1 + m2) == MaskHere(c, MaskHere(c, v, path, m1), path, m2)
    decreases |m1|
  {
    if m1 == [] {
      assert m1 + m2 == m2;
    } else {
      assert (m1 + m2)[1..] == m1[1..] + m2;
      var w := if Accepts(m1[0].fieldPattern, path) then ApplyMask(c, v, m1[0].maskType) else v;
      MaskHereAppend(c, w, path, m1[1..], m2);
    }
  }

  // ---------- any first list, a second one without field masks ----------

  predicate NoFieldMasks(masks: seq<MaskDirective>) {
    forall d :: d in masks ==> !d.maskType.JsonFieldMask?
  }

  /** The first directive to replace whatever is at the path, digest or `Redact`. */
  function Eraser(masks: seq<MaskDirective>, path: string): Option<MaskType> {
    if masks == [] then None
    else if Accepts(masks[0].fieldPattern, path) && (masks[0].maskType.Redact? || masks[0].maskType.HashBlake3?)
    then Some(masks[0].maskType)
    else Eraser(masks[1..], path)
  }

  /** A container becomes a scalar exactly where something replaces it. */
  lemma {:induction false} ContainerReplaced(c: Codec, v: Value, path: string, masks: seq<MaskDirective>)
    requires !IsScalar(v)
    ensures IsScalar(MaskHere(c, v, path, masks)) <==> Eraser(masks, path).Some?
    decreases |masks|
  {
    if masks != [] {
      var m := masks[0].maskType;
      if Accepts(masks[0].fieldPattern, path) && (m.Redact? || m.HashBlake3?) {
        MaskHerePrunes(c, ApplyMask(c, v, m), path, masks[1..]);
      } else {
        var w := if Accepts(masks[0].fieldPattern, path) then ApplyMask(c, v, m) else v;
        ContainerReplaced(c, w, path, masks[1..]);
      }
    }
  }

  /** A container under a list without field masks stays, is forgotten, or is digested. */
  lemma {:induction false} ContainerUnder(c: Codec, v: Value, w: Value, path: string, masks: seq<MaskDirective>)
    requires NoFieldMasks(masks) && !IsScalar(v) && !IsScalar(w)
    ensures Eraser(masks, path) == None ==> MaskHere(c, v, path, masks) == v
    ensures Eraser(masks, path) == Some(Redact) ==> MaskHere(c, v, path, masks) == MaskHere(c, w, path, masks)
    decreases |masks|
  {
    if masks != [] {
      var m := masks[0].maskType;
      assert masks[0] in masks;
      if !(Accepts(masks[0].fieldPattern, path) && (m.Redact? || m.HashBlake3?)) {
        ContainerUnder(c, v, w, path, masks[1..]);
      }
    }
  }

  /** At every container the traversal with `m1` still finds, and the second list digests, the
      digest tells the container before its children are masked from the one after just as little
      as the rest of the second list lets through. */
  ghost predicate DigestsAgree(c: Codec, v: Value, path: string, m1: seq<MaskDirective>, m2: seq<MaskDirective>)
    decreases Size(v)
  {
    var here := MaskHere(c, v, path, m1);
    if IsScalar(here) || Eraser(m2, path) == Some(Redact) then true
    else if Eraser(m2, path) == Some(HashBlake3) then
      MaskHere(c, here, path, m2) == MaskHere(c, Masked(c, v, path, m1), path, m2)
    else
      assert Size(here) <= Size(v) by {
        MaskHerePrunes(c, v, path, m1);
        PrunedIsSmaller(v, here);
      }
      forall i :: 0 <= i < Arity(here) ==>
        (ChildIsSmaller(here, i, 0); DigestsAgree(c, Child(here, i), path + Render(LabelAt(here, i)), m1, m2))
  }

  lemma EraserIs(masks: seq<MaskDirective>, path: string)
    ensures Eraser(masks, path) in {None, Some(Redact), Some(HashBlake3)}
  {
  }

  lemma FusesAtLeaf(c: Codec, v: Value, path: string, m1: seq<MaskDirective>, m2: seq<MaskDirective>)
    requires NoFieldMasks(m2)
    requires IsScalar(MaskHere(c, v, path, m1)) || Eraser(m2, path).Some?
    ensures Fuses(c, v, path, m1, m2) <==> DigestsAgree(c, v, path, m1, m2)
  {
    hide Masked, MaskHere, Eraser;
    var here, w := MaskHere(c, v, path, m1), Masked(c, v, path, m1);
    MaskHereAppend(c, v, path, m1, m2);
    EraserIs(m2, path);
    if IsScalar(here) {
      MaskedScalar(c, v, path, m1);
      ScalarsStayScalar(c, here, path, m2);
      MaskedScalar(c, v, path, m1 + m2);
    } else {
      MaskedNode(c, v, path, m1);
      ContainerUnder(c, here, w, path, m2);
      ContainerReplaced(c, here, path, m2);
      ContainerReplaced(c, w, path, m2);
      MaskedScalar(c, v, path, m1 + m2);
      MaskedScalar(c, w, path, m2);
    }
  }

  /** For any first list and a second one without field masks, the passes fuse exactly if the
      digests of the second list agree. */
  lemma {:induction false} FusionExactly(c: Codec, v: Value, path: string,
                                         m1: seq<MaskDirective>, m2: seq<MaskDirective>)
    requires NoFieldMasks(m2)
    ensures Fuses(c, v, path, m1, m2) <==> DigestsAgree(c, v, path, m1, m2)
    decreases Size(v)
  {
    hide Masked, MaskHere, Render, Eraser;
    var here, w := MaskHere(c, v, path, m1), Masked(c, v, path, m1);
    EraserIs(m2, path);
    if IsScalar(here) || Eraser(m2, path).Some? {
      FusesAtLeaf(c, v, path, m1, m2);
    } else {
      MaskHereAppend(c, v, path, m1, m2);
      MaskHerePrunes(c, v, path, m1);
      PrunedIsSmaller(v, here);
      MaskedNode(c, v, path, m1);
      ContainerUnder(c, here, w, path, m2);
      ContainerUnder(c, w, here, path, m2);
      var one, two := Masked(c, v, path, m1 + m2), Masked(c, w, path, m2);
      MaskedNode(c, v, path, m1 + m2);
      MaskedNode(c, w, path, m2);
      SameNodeLabels(here, w);
      forall i | 0 <= i < Arity(here)
        ensures Child(one, i) == Child(two, i) <==>
                DigestsAgree(c, Child(here, i), path + Render(LabelAt(here, i)), m1, m2)
      {
        ChildIsSmaller(here, i, 0);
        FusionExactly(c, Child(here, i), path + Render(LabelAt(here, i)), m1, m2);
      }
      if forall i :: 0 <= i < Arity(here) ==> Child(one, i) == Child(two, i) {
        SameNodeTransitive(here, w, two);
        SameNodeTwins(here, two, one);
        SameChildren(one, two);
      }
    }
  }

  lemma NothingToErase(masks: seq<MaskDirective>, path: string)
    requires Digestless(masks)
    ensures Eraser(masks, path) != Some(HashBlake3)
  {
    if masks != [] {
      assert masks[0] in masks;
      NothingToErase(masks[1..], path);
    }
  }

  lemma {:induction false} NoDigestsAgree(c: Codec, v: Value, path: string,
                                          m1: seq<MaskDirective>, m2: seq<MaskDirective>)
    requires Digestless(m2)
    ensures DigestsAgree(c, v, path, m1, m2)
    decreases Size(v)
  {
    hide Masked, MaskHere, Render, Eraser;
    var here := MaskHere(c, v, path, m1);
    NothingToErase(m2, path);
    EraserIs(m2, path);
    if !IsScalar(here) && Eraser(m2, path).None? {
      MaskHerePrunes(c, v, path, m1);
      PrunedIsSmaller(v, here);
      forall i | 0 <= i < Arity(here)
        ensures DigestsAgree(c, Child(here, i), path + Render(LabelAt(here, i)), m1, m2)
      {
        ChildIsSmaller(here, i, 0);
        NoDigestsAgree(c, Child(here, i), path + Render(LabelAt(here, i)), m1, m2);
      }
    }
  }

  /** So a second list without digests and field masks fuses with any first list, on every tree. */
  lemma TextMasksFuse(c: Codec, v: Value, path: string, m1: seq<MaskDirective>, m2: seq<MaskDirective>)
    requires NoFieldMasks(m2) && Digestless(m2)
    ensures Masked(c, v, path, m1 + m2) == Masked(c, Masked(c, v, path, m1), path, m2)
  {
    NoDigestsAgree(c, v, path, m1, m2);
    FusionExactly(c, v, path, m1, m2);
  }

  /** One pass per directive. */
  function Passes(c: Codec, v: Value, path: string, masks: seq<MaskDirective>): Value {
    if masks == [] then v
    else Masked(c, Passes(c, v, path, masks[..|masks| - 1]), path, [masks[|masks| - 1]])
  }

  lemma {:induction false} MaskedByNothing(c: Codec, v: Value, path: string)
    ensures Masked(c, v, path, []) == v
    decreases v
  {
    MaskedNode(c, v, path, []);
    forall i | 0 <= i < Arity(v)
      ensures Child(Masked(c, v, path, []), i) == Child(v, i)
    {
      MaskedByNothing(c, Child(v, i), path + Render(LabelAt(v, i)));
    }
    SameChildren(v, Masked(c, v, path, []));
  }

  /** With neither digests nor field masks after the first directive, the single traversal is the chain of passes. */
  lemma {:induction false} OnePassIsManyPasses(c: Codec, v: Value, path: string, masks: seq<MaskDirective>)
    requires masks != [] ==> NoFieldMasks(masks[1..]) && Digestless(masks[1..])
    ensures Masked(c, v, path, masks) == Passes(c, v, path, masks)
    decreases |masks|
  {
    if masks == [] {
      MaskedByNothing(c, v, path);
    } else {
      var front, last := masks[..|masks| - 1], masks[|masks| - 1];
      assert masks == front + [last];
      assert |masks| > 1 ==> front[1..] <= masks[1..] && last in masks[1..];
      if front == [] {
        MaskedByNothing(c, v, path);
        assert masks == [last];
        assert Passes(c, v, path, front) == v;
      } else {
        OnePassIsManyPasses(c, v, path, front);
        TextMasksFuse(c, v, path, front, [last]);
      }
    }
  }

  /** The first list changes nothing strictly below any container the pattern selects. */
  ghost predicate UnchangedBelow(c: Codec, v: Value, path: string, masks: seq<MaskDirective>, pattern: string)
    decreases Size(v)
  {
    var here := MaskHere(c, v, path, masks);
    if IsScalar(here) then true
    else if Accepts(pattern, path) then Masked(c, v, path, masks) == here
    else
      assert Size(here) <= Size(v) by {
        MaskHerePrunes(c, v, path, masks);
        PrunedIsSmaller(v, here);
      }
      forall i :: 0 <= i < Arity(here) ==>
        (ChildIsSmaller(here, i, 0); UnchangedBelow(c, Child(here, i), path + Render(LabelAt(here, i)), masks, pattern))
  }

  /** Where it changes something below a selected container, the digest tells: this one container
      from that one result. */
  ghost predicate DigestTells(c: Codec, v: Value, path: string, masks: seq<MaskDirective>, pattern: string)
    decreases Size(v)
  {
    var here := MaskHere(c, v, path, masks);
    if IsScalar(here) then true
    else if Accepts(pattern, path) then
      c.hash(c.show(here)) == c.hash(c.show(Masked(c, v, path, masks))) ==> Masked(c, v, path, masks) == here
    else
      assert Size(here) <= Size(v) by {
        MaskHerePrunes(c, v, path, masks);
        PrunedIsSmaller(v, here);
      }
      forall i :: 0 <= i < Arity(here) ==>
        (ChildIsSmaller(here, i, 0); DigestTells(c, Child(here, i), path + Render(LabelAt(here, i)), masks, pattern))
  }

  lemma DigestHere(c: Codec, v: Value, path: string, pattern: string)
    ensures var d := MaskDirective(pattern, HashBlake3);
            MaskHere(c, v, path, [d]) == (if Accepts(pattern, path) then String(c.hash(TextOf(c, v))) else v) &&
            Eraser([d], path) == if Accepts(pattern, path) then Some(HashBlake3) else None
  {
    hide Accepts;
    assert [MaskDirective(pattern, HashBlake3)][1..] == [];
  }

  lemma {:induction false} DigestsAgreeExactly(c: Codec, v: Value, path: string, m1: seq<MaskDirective>,
                                               pattern: string)
    ensures UnchangedBelow(c, v, path, m1, pattern) <==>
            DigestsAgree(c, v, path, m1, [MaskDirective(pattern, HashBlake3)]) && DigestTells(c, v, path, m1, pattern)
    decreases Size(v)
  {
    hide Masked, MaskHere, Render, Eraser, Accepts;
    var here, w := MaskHere(c, v, path, m1), Masked(c, v, path, m1);
    var d := MaskDirective(pattern, HashBlake3);
    if !IsScalar(here) {
      MaskedNode(c, v, path, m1);
      DigestHere(c, here, path, pattern);
      DigestHere(c, w, path, pattern);
      if !Accepts(pattern, path) {
        MaskHerePrunes(c, v, path, m1);
        PrunedIsSmaller(v, here);
        forall i | 0 <= i < Arity(here)
          ensures var down := path + Render(LabelAt(here, i));
                  UnchangedBelow(c, Child(here, i), down, m1, pattern) <==>
                  DigestsAgree(c, Child(here, i), down, m1, [d]) && DigestTells(c, Child(here, i), down, m1, pattern)
        {
          ChildIsSmaller(here, i, 0);
          DigestsAgreeExactly(c, Child(here, i), path + Render(LabelAt(here, i)), m1, pattern);
        }
      }
    }
  }

  /** A digest fuses with any first list that changes nothing below the containers it selects;
      and with no other one, as far as it tells those containers from what the list makes of them. */
  lemma DigestsFuseExactly(c: Codec, v: Value, m1: seq<MaskDirective>, pattern: string)
    ensures UnchangedBelow(c, v, "$", m1, pattern) <==>
            Fuses(c, v, "$", m1, [MaskDirective(pattern, HashBlake3)]) && DigestTells(c, v, "$", m1, pattern)
  {
    hide Fuses;
    FusionExactly(c, v, "$", m1, [MaskDirective(pattern, HashBlake3)]);
    DigestsAgreeExactly(c, v, "$", m1, pattern);
  }

  // ---------- two lists without digests, field masks included ----------

  /** Once over the marker, the first list makes no difference to what the second leaves of it. */
  ghost predicate MarkFuses(c: Codec, m1: seq<MaskDirective>, m2: seq<MaskDirective>, path: string) {
    MaskHere(c, MaskHere(c, REDACTED, path, m1), path, m2) == MaskHere(c, REDACTED, path, m2)
  }

  /** If a field mask of the second list hides the position, and nothing above it is redacted or
      hidden by either list, then the marker fuses there. */
  ghost predicate HiddenFuses(c: Codec, m1: seq<MaskDirective>, m2: seq<MaskDirective>,
                              v: Value, at: seq<Label>, pos: seq<nat>) {
    At(v, pos).Some? && HiddenAt(m2, at + Labels(v, pos)) && OpenAbove(m1 + m2, at + Labels(v, pos), |at|) ==>
      MarkFuses(c, m1, m2, PathOf(at + Labels(v, pos)))
  }

  /** Nothing strictly above `at` is redacted, from level `from` on. */
  ghost predicate OpenAbove(masks: seq<MaskDirective>, at: seq<Label>, from: nat) {
    forall k :: from <= k < |at| ==> !RedactedAt(masks, at[..k])
  }

  ghost predicate ScrubsFuse(c: Codec, m1: seq<MaskDirective>, m2: seq<MaskDirective>, v: Value, at: seq<Label>) {
    Scrubbed(c, m1 + m2, v, at) == Scrubbed(c, m2, Scrubbed(c, m1, v, at), at)
  }

  lemma RedactedByEither(m1: seq<MaskDirective>, m2: seq<MaskDirective>, at: seq<Label>)
    ensures RedactedAt(m1 + m2, at) <==> RedactedAt(m1, at) || RedactedAt(m2, at)
    ensures RedactedAt(m2, at) <==> RedactMatches(m2, PathOf(at)) || HiddenAt(m2, at)
  {
    hide PathOf, Accepts;
    var both := m1 + m2;
    assert forall d :: d in both <==> d in m1 || d in m2;
  }

  lemma ScrubsFuseAtLeaf(c: Codec, m1: seq<MaskDirective>, m2: seq<MaskDirective>, v: Value, at: seq<Label>)
    requires Digestless(m1) && Digestless(m2) && (RedactedAt(m1 + m2, at) || IsScalar(v))
    ensures ScrubsFuse(c, m1, m2, v, at) <==> HiddenFuses(c, m1, m2, v, at, [])
    ensures forall pos :: pos != [] ==> HiddenFuses(c, m1, m2, v, at, pos)
  {
    RedactedByEither(m1, m2, at);
    hide MaskHere, PathOf, HiddenAt, RedactedAt, RedactMatches;
    var path := PathOf(at);
    assert at + [] == at && at[..|at|] == at;
    MaskHereAppend(c, REDACTED, path, m1, m2);
    MaskHereAppend(c, v, path, m1, m2);
    ScalarsStayScalar(c, REDACTED, path, m1);
    if RedactMatches(m2, path) {
      RedactForgets(c, MaskHere(c, REDACTED, path, m1), REDACTED, path, m2);
    }
    if IsScalar(v) {
      ScalarsStayScalar(c, v, path, m1);
    }
    forall pos | pos != [] && At(v, pos).Some?
      ensures HiddenFuses(c, m1, m2, v, at, pos)
    {
      assert (at + Labels(v, pos))[..|at|] == at;
    }
  }

  lemma HiddenBelow(c: Codec, m1: seq<MaskDirective>, m2: seq<MaskDirective>, v: Value, at: seq<Label>, pos: seq<nat>)
    requires pos != [] && pos[0] < Arity(v) && !RedactedAt(m1 + m2, at)
    ensures HiddenFuses(c, m1, m2, v, at, pos) <==>
            HiddenFuses(c, m1, m2, Child(v, pos[0]), at + [LabelAt(v, pos[0])], pos[1..])
  {
    hide RedactedAt, MarkFuses, HiddenAt, PathOf;
    if At(v, pos).Some? {
      var down := at + [LabelAt(v, pos[0])];
      var labels := at + Labels(v, pos);
      assert labels == down + Labels(Child(v, pos[0]), pos[1..]);
      assert labels[..|at|] == at;
      assert OpenAbove(m1 + m2, labels, |at|) <==> OpenAbove(m1 + m2, labels, |down|);
    }
  }

  lemma AllHiddenBelow(c: Codec, m1: seq<MaskDirective>, m2: seq<MaskDirective>, v: Value, at: seq<Label>)
    requires !RedactedAt(m1 + m2, at) && !IsScalar(v)
    ensures (forall pos :: HiddenFuses(c, m1, m2, v, at, pos)) <==>
            forall i :: 0 <= i < Arity(v) ==>
              forall pos :: HiddenFuses(c, m1, m2, Child(v, i), at + [LabelAt(v, i)], pos)
  {
    RedactedByEither(m1, m2, at);
    hide RedactedAt, HiddenAt, MarkFuses, PathOf;
    if forall pos :: HiddenFuses(c, m1, m2, v, at, pos) {
      forall i, pos | 0 <= i < Arity(v)
        ensures HiddenFuses(c, m1, m2, Child(v, i), at + [LabelAt(v, i)], pos)
      {
        HiddenBelow(c, m1, m2, v, at, [i] + pos);
        assert ([i] + pos)[1..] == pos;
        assert HiddenFuses(c, m1, m2, v, at, [i] + pos);
      }
    }
    if forall i :: 0 <= i < Arity(v) ==>
         forall pos :: HiddenFuses(c, m1, m2, Child(v, i), at + [LabelAt(v, i)], pos) {
      forall pos
        ensures HiddenFuses(c, m1, m2, v, at, pos)
      {
        if pos == [] {
          assert at + Labels(v, pos) == at;
        } else if pos[0] < Arity(v) {
          HiddenBelow(c, m1, m2, v, at, pos);
        }
      }
    }
  }

  lemma {:induction false} ScrubsFuseBelow(c: Codec, m1: seq<MaskDirective>, m2: seq<MaskDirective>,
                                           v: Value, at: seq<Label>)
    requires Digestless(m1) && Digestless(m2)
    ensures ScrubsFuse(c, m1, m2, v, at) <==> forall pos :: HiddenFuses(c, m1, m2, v, at, pos)
    decreases v
  {
    hide MaskHere, PathOf, RedactedAt, HiddenFuses;
    if RedactedAt(m1 + m2, at) || IsScalar(v) {
      ScrubsFuseAtLeaf(c, m1, m2, v, at);
    } else {
      RedactedByEither(m1, m2, at);
      var first := Scrubbed(c, m1, v, at);
      var one, two := Scrubbed(c, m1 + m2, v, at), Scrubbed(c, m2, first, at);
      SameNodeLabels(v, first);
      SameNodeLabels(v, one);
      forall i | 0 <= i < Arity(v)
        ensures Child(one, i) == Child(two, i) <==>
                forall pos :: HiddenFuses(c, m1, m2, Child(v, i), at + [LabelAt(v, i)], pos)
      {
        ScrubsFuseBelow(c, m1, m2, Child(v, i), at + [LabelAt(v, i)]);
      }
      if forall i :: 0 <= i < Arity(v) ==> Child(one, i) == Child(two, i) {
        SameNodeTransitive(v, first, two);
        SameNodeTwins(v, two, one);
        SameChildren(one, two);
      }
      AllHiddenBelow(c, m1, m2, v, at);
    }
  }

  /** For any two lists without digests and every tree: the passes fuse exactly if, wherever a
      field mask of the second list hides a position with nothing redacted above it, the first
      list makes no difference to what the second leaves of the marker. */
  lemma FieldMasksFuseExactly(c: Codec, v: Value, m1: seq<MaskDirective>, m2: seq<MaskDirective>)
    requires Digestless(m1) && Digestless(m2)
    ensures Fuses(c, v, "$", m1, m2) <==> forall pos :: HiddenFuses(c, m1, m2, v, [], pos)
  {
    assert Digestless(m1 + m2);
    MaskedScrubs(c, m1 + m2, v);
    MaskedScrubs(c, m1, v);
    MaskedScrubs(c, m2, Masked(c, v, "$", m1));
    ScrubsFuseBelow(c, m1, m2, v, []);
  }

  /** No truncation of the list cuts the marker short. */
  predicate SparesMarker(masks: seq<MaskDirective>) {
    forall d :: d in masks ==> !d.maskType.HashBlake3? && (d.maskType.Truncate? ==> d.maskType.n >= 10)
  }

  lemma MarkerUnder(c: Codec, m: MaskType)
    requires !m.HashBlake3? && (m.Truncate? ==> m.n >= 10)
    ensures ApplyMask(c, REDACTED, m) == REDACTED
  {
    hide MaskEmail;
    if m.JsonFieldMask? {
      ScalarsHideNothing(REDACTED, {}, m.pattern);
    }
    MarkerStays(MARKER);
    assert |MARKER| == 10 && Take(MARKER, if m.Truncate? then m.n else 10) == MARKER;
  }

  lemma {:induction false} MarkerSpared(c: Codec, path: string, masks: seq<MaskDirective>)
    requires SparesMarker(masks)
    ensures MaskHere(c, REDACTED, path, masks) == REDACTED
    decreases |masks|
  {
    hide ApplyMask;
    if masks != [] {
      assert masks[0] in masks;
      MarkerUnder(c, masks[0].maskType);
      MarkerSpared(c, path, masks[1..]);
    }
  }

  /** In particular a first list whose truncations are all at least 10 fuses with every list
      without digests, on every tree. */
  lemma SparingListsFuse(c: Codec, v: Value, m1: seq<MaskDirective>, m2: seq<MaskDirective>)
    requires SparesMarker(m1) && Digestless(m2)
    ensures Fuses(c, v, "$", m1, m2)
  {
    forall path
      ensures MarkFuses(c, m1, m2, path)
    {
      MarkerSpared(c, path, m1);
    }
    FieldMasksFuseExactly(c, v, m1, m2);
  }

  // ---------- any two lists ----------

  lemma {:induction false} HideTwice(v: Value, p: set<string>, q: set<string>)
    ensures Hide(Hide(v, p), q) == Hide(v, p + q)
    decreases v
  {
    hide Accepts;
    var once, both := Hide(v, p), Hide(v, p + q);
    var twice := Hide(once, q);
    HideNode(v, p);
    HideNode(v, p + q);
    HideNode(once, q);
    forall i | 0 <= i < Arity(v)
      ensures Child(twice, i) == Child(both, i)
    {
      HideTwice(Child(v, i), p, q);
      ScalarsHideNothing(REDACTED, q, "");
      if LabelAt(v, i).Key? {
        assert Hits(p + q, LabelAt(v, i).name) <==> Hits(p, LabelAt(v, i).name) || Hits(q, LabelAt(v, i).name);
      }
    }
    SameNodeTransitive(v, once, twice);
    SameNodeTwins(v, both, twice);
    SameChildren(twice, both);
  }

  /** A node that is still a container after its directives has only had keys hidden. */
  lemma {:induction false} ContainersAreHidden(c: Codec, v: Value, patterns: set<string>, path: string,
                                               masks: seq<MaskDirective>)
    requires !IsScalar(MaskHere(c, Hide(v, patterns), path, masks))
    ensures !IsScalar(v) && MaskHere(c, Hide(v, patterns), path, masks) == Hide(v, patterns + SelectedAt(masks, path))
    decreases |masks|
  {
    hide Accepts, RedactNested, Hide;
    HideNode(v, patterns);
    if masks == [] {
      assert patterns + SelectedAt(masks, path) == patterns;
    } else {
      var d, rest := masks[0], masks[1..];
      assert masks == [d] + rest;
      if Accepts(d.fieldPattern, path) {
        var w := ApplyMask(c, Hide(v, patterns), d.maskType);
        MaskHerePrunes(c, w, path, rest);
        if d.maskType.JsonFieldMask? {
          var q := d.maskType.pattern;
          HideOneMore(v, patterns, q);
          ContainersAreHidden(c, v, patterns + {q}, path, rest);
          assert patterns + SelectedAt(masks, path) == (patterns + {q}) + SelectedAt(rest, path);
        } else {
          assert w == Hide(v, patterns);
          assert SelectedAt(masks, path) == SelectedAt(rest, path);
          ContainersAreHidden(c, v, patterns, path, rest);
        }
      } else {
        assert SelectedAt(masks, path) == SelectedAt(rest, path);
        ContainersAreHidden(c, v, patterns, path, rest);
      }
    }
  }

  /** The node as the single pass leaves it, and as the second of two passes does; `hidden` are the
      patterns of field masks of `m2` selected above. */
  ghost function InOnePass(c: Codec, v: Value, hidden: set<string>, path: string,
                           m1: seq<MaskDirective>, m2: seq<MaskDirective>): Value {
    MaskHere(c, Hide(v, hidden), path, m1 + m2)
  }

  ghost function InTwoPasses(c: Codec, v: Value, hidden: set<string>, path: string,
                             m1: seq<MaskDirective>, m2: seq<MaskDirective>): Value {
    MaskHere(c, Hide(Masked(c, v, path, m1), hidden), path, m2)
  }

  ghost predicate HidesChild(v: Value, i: nat, hidden: set<string>)
    requires i < Arity(v)
  {
    LabelAt(v, i).Key? && Hits(hidden, LabelAt(v, i).name)
  }

  /** One pass and two passes agree wherever one of them replaces a node, and on the marker
      wherever a field mask of the second list hides one. */
  ghost predicate Agree(c: Codec, v: Value, hidden: set<string>, path: string,
                        m1: seq<MaskDirective>, m2: seq<MaskDirective>)
    decreases Size(v)
  {
    var one, two := InOnePass(c, v, hidden, path, m1, m2), InTwoPasses(c, v, hidden, path, m1, m2);
    if IsScalar(one) || IsScalar(two) then one == two
    else
      var here, below := MaskHere(c, v, path, m1), hidden + SelectedAt(m2, path);
      assert Size(here) <= Size(v) by {
        MaskHerePrunes(c, v, path, m1);
        PrunedIsSmaller(v, here);
      }
      forall i :: 0 <= i < Arity(here) ==>
        var down := path + Render(LabelAt(here, i));
        if HidesChild(here, i, below) then MarkFuses(c, m1, m2, down)
        else (ChildIsSmaller(here, i, 0); Agree(c, Child(here, i), below, down, m1, m2))
  }

  ghost predicate PassesMeet(c: Codec, v: Value, hidden: set<string>, path: string,
                             m1: seq<MaskDirective>, m2: seq<MaskDirective>) {
    Masked(c, Hide(v, hidden), path, m1 + m2) == Masked(c, Hide(Masked(c, v, path, m1), hidden), path, m2)
  }

  lemma MeetWhereReplaced(c: Codec, v: Value, hidden: set<string>, path: string,
                          m1: seq<MaskDirective>, m2: seq<MaskDirective>)
    requires IsScalar(InOnePass(c, v, hidden, path, m1, m2)) || IsScalar(InTwoPasses(c, v, hidden, path, m1, m2))
    ensures PassesMeet(c, v, hidden, path, m1, m2) <==>
            InOnePass(c, v, hidden, path, m1, m2) == InTwoPasses(c, v, hidden, path, m1, m2)
  {
    hide Masked, MaskHere, Hide;
    var x, z := Hide(v, hidden), Hide(Masked(c, v, path, m1), hidden);
    MaskedNode(c, x, path, m1 + m2);
    MaskedNode(c, z, path, m2);
    if IsScalar(MaskHere(c, x, path, m1 + m2)) {
      MaskedScalar(c, x, path, m1 + m2);
    }
    if IsScalar(MaskHere(c, z, path, m2)) {
      MaskedScalar(c, z, path, m2);
    }
  }

  lemma SelectedByEither(m1: seq<MaskDirective>, m2: seq<MaskDirective>, path: string)
    ensures SelectedAt(m1 + m2, path) == SelectedAt(m1, path) + SelectedAt(m2, path)
  {
    hide Accepts;
  }

  /** Where both passes keep the container: what each child then goes through. */
  lemma KeptByBoth(c: Codec, v: Value, hidden: set<string>, path: string,
                   m1: seq<MaskDirective>, m2: seq<MaskDirective>)
    requires !IsScalar(InOnePass(c, v, hidden, path, m1, m2)) && !IsScalar(InTwoPasses(c, v, hidden, path, m1, m2))
    ensures var here, below := MaskHere(c, v, path, m1), hidden + SelectedAt(m2, path);
            !IsScalar(here) &&
            InOnePass(c, v, hidden, path, m1, m2) == Hide(here, below) &&
            InTwoPasses(c, v, hidden, path, m1, m2) == Hide(Masked(c, v, path, m1), below)
  {
    hide Masked, MaskHere, Hide, SelectedAt;
    var w := Masked(c, v, path, m1);
    MaskHereAppend(c, Hide(v, hidden), path, m1, m2);
    ContainersAreHidden(c, w, hidden, path, m2);
    MaskedNode(c, v, path, m1);
    HideNothing(v);
    ContainersAreHidden(c, v, {}, path, m1);
    ContainersAreHidden(c, v, hidden, path, m1 + m2);
    var s1, s2 := SelectedAt(m1, path), SelectedAt(m2, path);
    SelectedByEither(m1, m2, path);
    assert {} + s1 == s1 && s1 + (hidden + s2) == hidden + (s1 + s2);
    HideTwice(v, s1, hidden + s2);
  }

  lemma NodesMeet(c: Codec, v: Value, hidden: set<string>, path: string,
                  m1: seq<MaskDirective>, m2: seq<MaskDirective>)
    requires !IsScalar(InOnePass(c, v, hidden, path, m1, m2)) && !IsScalar(InTwoPasses(c, v, hidden, path, m1, m2))
    ensures var here := MaskHere(c, v, path, m1);
            SameNode(here, Masked(c, Hide(v, hidden), path, m1 + m2)) &&
            SameNode(here, Masked(c, Hide(Masked(c, v, path, m1), hidden), path, m2))
  {
    KeptByBoth(c, v, hidden, path, m1, m2);
    var here, below := MaskHere(c, v, path, m1), hidden + SelectedAt(m2, path);
    var w := Masked(c, v, path, m1);
    var x, z := Hide(v, hidden), Hide(w, hidden);
    MaskedNode(c, v, path, m1);
    MaskedNode(c, x, path, m1 + m2);
    MaskedNode(c, z, path, m2);
    HideNode(here, below);
    HideNode(w, below);
    hide Masked, MaskHere, Hide, Render, SelectedAt;
    SameNodeTransitive(here, Hide(here, below), Masked(c, x, path, m1 + m2));
    SameNodeTransitive(here, w, Hide(w, below));
    SameNodeTransitive(here, Hide(w, below), Masked(c, z, path, m2));
  }

  lemma ChildMeets(c: Codec, v: Value, hidden: set<string>, path: string,
                   m1: seq<MaskDirective>, m2: seq<MaskDirective>, i: nat)
    requires !IsScalar(InOnePass(c, v, hidden, path, m1, m2)) && !IsScalar(InTwoPasses(c, v, hidden, path, m1, m2))
    requires i < Arity(MaskHere(c, v, path, m1))
    ensures var here := MaskHere(c, v, path, m1);
            var one, two := Masked(c, Hide(v, hidden), path, m1 + m2),
                            Masked(c, Hide(Masked(c, v, path, m1), hidden), path, m2);
            Arity(one) == Arity(two) == Arity(here) &&
            (Child(one, i) == Child(two, i) <==> ChildPassesMeet(c, v, hidden, path, m1, m2, i))
  {
    KeptByBoth(c, v, hidden, path, m1, m2);
    var here, below := MaskHere(c, v, path, m1), hidden + SelectedAt(m2, path);
    var w := Masked(c, v, path, m1);
    var down := path + Render(LabelAt(here, i));
    MaskedNode(c, v, path, m1);
    MaskedNode(c, Hide(v, hidden), path, m1 + m2);
    MaskedNode(c, Hide(w, hidden), path, m2);
    HideNode(here, below);
    SameNodeLabels(here, w);
    HideNode(w, below);
    HiddenChild(here, below, i);
    HiddenChild(w, below, i);
    hide Masked, MaskHere, Hide, Render, SelectedAt;
    ScalarsStayScalar(c, REDACTED, down, m1 + m2);
    ScalarsStayScalar(c, REDACTED, down, m2);
    MaskHereAppend(c, REDACTED, down, m1, m2);
  }

  lemma HiddenChild(v: Value, patterns: set<string>, i: nat)
    requires i < Arity(v)
    ensures Arity(Hide(v, patterns)) == Arity(v)
    ensures Child(Hide(v, patterns), i) ==
            if HidesChild(v, i, patterns) then REDACTED else Hide(Child(v, i), patterns)
  {
  }

  lemma {:induction false} MeetExactly(c: Codec, v: Value, hidden: set<string>, path: string,
                                       m1: seq<MaskDirective>, m2: seq<MaskDirective>)
    ensures PassesMeet(c, v, hidden, path, m1, m2) <==> Agree(c, v, hidden, path, m1, m2)
    decreases Size(v)
  {
    hide InOnePass, InTwoPasses, PassesMeet, MarkFuses, MaskHere, Masked, Hide, HidesChild, SelectedAt, Render;
    if IsScalar(InOnePass(c, v, hidden, path, m1, m2)) || IsScalar(InTwoPasses(c, v, hidden, path, m1, m2)) {
      MeetWhereReplaced(c, v, hidden, path, m1, m2);
    } else {
      var here, below := MaskHere(c, v, path, m1), hidden + SelectedAt(m2, path);
      MaskHerePrunes(c, v, path, m1);
      PrunedIsSmaller(v, here);
      ChildrenMeet(c, v, hidden, path, m1, m2);
      forall i | 0 <= i < Arity(here)
        ensures ChildPassesMeet(c, v, hidden, path, m1, m2, i) <==>
                var down := path + Render(LabelAt(here, i));
                if HidesChild(here, i, below) then MarkFuses(c, m1, m2, down)
                else Agree(c, Child(here, i), below, down, m1, m2)
      {
        ChildIsSmaller(here, i, 0);
        MeetExactly(c, Child(here, i), below, path + Render(LabelAt(here, i)), m1, m2);
      }
    }
  }

  ghost predicate ChildPassesMeet(c: Codec, v: Value, hidden: set<string>, path: string,
                                  m1: seq<MaskDirective>, m2: seq<MaskDirective>, i: nat)
    requires i < Arity(MaskHere(c, v, path, m1))
  {
    var here, below := MaskHere(c, v, path, m1), hidden + SelectedAt(m2, path);
    var down := path + Render(LabelAt(here, i));
    if HidesChild(here, i, below) then MarkFuses(c, m1, m2, down)
    else PassesMeet(c, Child(here, i), below, down, m1, m2)
  }

  lemma ChildrenMeet(c: Codec, v: Value, hidden: set<string>, path: string,
                     m1: seq<MaskDirective>, m2: seq<MaskDirective>)
    requires !IsScalar(InOnePass(c, v, hidden, path, m1, m2)) && !IsScalar(InTwoPasses(c, v, hidden, path, m1, m2))
    ensures PassesMeet(c, v, hidden, path, m1, m2) <==>
            forall i :: 0 <= i < Arity(MaskHere(c, v, path, m1)) ==> ChildPassesMeet(c, v, hidden, path, m1, m2, i)
  {
    hide InOnePass, InTwoPasses, MarkFuses, MaskHere, Masked, Hide, Hits, SelectedAt, Render;
    var here := MaskHere(c, v, path, m1);
    var one := Masked(c, Hide(v, hidden), path, m1 + m2);
    var two := Masked(c, Hide(Masked(c, v, path, m1), hidden), path, m2);
    NodesMeet(c, v, hidden, path, m1, m2);
    SameNodeTwins(here, two, one);
    SameNodeLabels(here, one);
    SameNodeLabels(here, two);
    forall i | 0 <= i < Arity(here)
      ensures Child(one, i) == Child(two, i) <==> ChildPassesMeet(c, v, hidden, path, m1, m2, i)
    {
      ChildMeets(c, v, hidden, path, m1, m2, i);
    }
    if forall i :: 0 <= i < Arity(here) ==> Child(one, i) == Child(two, i) {
      SameChildren(one, two);
    }
  }

  /** For any two lists, digests and field masks included, and every tree: the passes fuse exactly
      if they agree in this sense. */
  lemma AnyListsFuseExactly(c: Codec, v: Value, m1: seq<MaskDirective>, m2: seq<MaskDirective>)
    ensures Fuses(c, v, "$", m1, m2) <==> Agree(c, v, {}, "$", m1, m2)
  {
    HideNothing(v);
    HideNothing(Masked(c, v, "$", m1));
    MeetExactly(c, v, {}, "$", m1, m2);
  }

  // ---------- two lists that do not fuse ----------

  /** A case where the marker does not fuse: the single pass truncates the marker the field mask
      has left, two passes redact what was truncated. */
  lemma FieldMasksDoNotFuse(c: Codec)
    ensures var v := Object([Field("k", String("abcd"))]);
            var m1, m2 := [MaskDirective("$.k", Truncate(1))], [MaskDirective("$", JsonFieldMask("k"))];
            Masked(c, v, "$", m1 + m2) == Object([Field("k", String("["))]) &&
            Masked(c, Masked(c, v, "$", m1), "$", m2) == Object([Field("k", REDACTED)])
  {
    hide Masked, MaskHere, Accepts, RedactNested;
    var d, f := MaskDirective("$.k", Truncate(1)), MaskDirective("$", JsonFieldMask("k"));
    var v, redacted := Object([Field("k", String("abcd"))]), Object([Field("k", REDACTED)]);
    StarFreeGlob("$.k", "$");
    StarFreeGlob("$.k", "$.k");
    StarFreeGlob("$", "$");
    StarFreeGlob("$", "$.k");
    assert "$." + "k" == "$.k" && MARKER[..1] == "[" && "abcd"[..1] == "a";
    assert [d] + [f] == [d, f];
    TwoHere(c, v, "$", d, f);
    TwoHere(c, REDACTED, "$.k", d, f);
    RedactsKey(String("abcd"));
    OneChild(c, v, [d, f], "k", REDACTED, String("["));
    var w := Object([Field("k", String("a"))]);
    OneHere(c, v, "$", d);
    OneHere(c, String("abcd"), "$.k", d);
    OneChild(c, v, [d], "k", String("abcd"), String("a"));
    OneHere(c, w, "$", f);
    OneHere(c, REDACTED, "$.k", f);
    RedactsKey(String("a"));
    OneChild(c, w, [f], "k", REDACTED, REDACTED);
  }

  lemma RedactsKey(x: Value)
    requires IsScalar(x)
    ensures RedactNested(Object([Field("k", x)]), "k") == Object([Field("k", REDACTED)])
  {
    hide Accepts;
    StarFreeGlob("k", "k");
    SameChildren(RedactNested(Object([Field("k", x)]), "k"), Object([Field("k", REDACTED)]));
  }

  /** A case where a digest selects such a container: the single pass digests it before its
      children are masked, two passes digest what the first has left. They differ as far as the
      digest can tell. */
  lemma DigestsDoNotFuse(c: Codec)
    ensures var v := Object([Field("k", Null)]);
            var m1, m2 := [MaskDirective("$.k", Redact)], [MaskDirective("$", HashBlake3)];
            Masked(c, v, "$", m1 + m2) == String(c.hash(c.show(v))) &&
            Masked(c, Masked(c, v, "$", m1), "$", m2) ==
            String(c.hash(c.show(Object([Field("k", REDACTED)]))))
  {
    hide Masked, Accepts;
    var d, h := MaskDirective("$.k", Redact), MaskDirective("$", HashBlake3);
    var v, w := Object([Field("k", Null)]), Object([Field("k", REDACTED)]);
    StarFreeGlob("$.k", "$");
    StarFreeGlob("$.k", "$.k");
    StarFreeGlob("$", "$");
    assert "$." + "k" == "$.k" && [d] + [h] == [d, h];
    TwoHere(c, v, "$", d, h);
    MaskedScalar(c, v, "$", [d, h]);
    OneHere(c, v, "$", d);
    OneHere(c, Null, "$.k", d);
    OneChild(c, v, [d], "k", Null, REDACTED);
    OneHere(c, w, "$", h);
    MaskedScalar(c, w, "$", [h]);
  }

  lemma OneHere(c: Codec, v: Value, path: string, d: MaskDirective)
    ensures MaskHere(c, v, path, [d]) == if Accepts(d.fieldPattern, path) then ApplyMask(c, v, d.maskType) else v
  {
    assert [d][1..] == [];
  }

  lemma TwoHere(c: Codec, v: Value, path: string, d: MaskDirective, f: MaskDirective)
    ensures var w := if Accepts(d.fieldPattern, path) then ApplyMask(c, v, d.maskType) else v;
            MaskHere(c, v, path, [d, f]) == if Accepts(f.fieldPattern, path) then ApplyMask(c, w, f.maskType) else w
  {
    assert [d, f][1..] == [f];
    OneHere(c, if Accepts(d.fieldPattern, path) then ApplyMask(c, v, d.maskType) else v, path, f);
  }

  lemma OneChild(c: Codec, v: Value, masks: seq<MaskDirective>, key: string, x: Value, y: Value)
    requires MaskHere(c, v, "$", masks) == Object([Field(key, x)])
    requires IsScalar(x) && MaskHere(c, x, "$." + key, masks) == y && IsScalar(y)
    ensures Masked(c, v, "$", masks) == Object([Field(key, y)])
  {
    hide Masked, MaskHere;
    var here, w := Object([Field(key, x)]), Masked(c, v, "$", masks);
    MaskedNode(c, v, "$", masks);
    MaskedScalar(c, x, "$." + key, masks);
    assert "$" + Render(LabelAt(here, 0)) == "$." + key;
    SameNodeLabels(here, w);
    SameChildren(w, Object([Field(key, y)]));
  }
}
