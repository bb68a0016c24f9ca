/** Laws of every masking pass: what it leaves alone, and that it never makes a tree larger. */
module MaskingLaws {
  import opened Wrappers
  import opened Glob
  import opened Json
  import opened Masking
  import opened Redaction

  /** A pass only ever replaces subtrees by scalars and changes scalars. */
  lemma {:induction false} MaskedPrunes(c: Codec, v: Value, path: string, masks: seq<MaskDirective>)
    ensures Pruned(v, Masked(c, v, path, masks))
    decreases Size(v)
  {
    hide Masked, MaskHere, Accepts;
    var here, w := MaskHere(c, v, path, masks), Masked(c, v, path, masks);
    MaskHerePrunes(c, v, path, masks);
    PrunedIsSmaller(v, here);
    MaskedNode(c, v, path, masks);
    forall i | 0 <= i < Arity(here)
      ensures Pruned(Child(here, i), Child(w, i))
    {
      ChildIsSmaller(here, i, 0);
      MaskedPrunes(c, Child(here, i), path + Render(LabelAt(here, i)), masks);
    }
    PrunedTransitive(v, here, w);
  }

  /** Masking adds neither nodes nor levels, which is why the traversal of the value as already
      changed comes to an end. */
  lemma MaskedIsNoLarger(c: Codec, v: Value, path: string, masks: seq<MaskDirective>)
    ensures Size(Masked(c, v, path, masks)) <= Size(v)
    ensures Depth(Masked(c, v, path, masks)) <= Depth(v)
  {
    MaskedPrunes(c, v, path, masks);
    PrunedIsSmaller(v, Masked(c, v, path, masks));
  }

  predicate NoneMatches(masks: seq<MaskDirective>, path: string) {
    forall d :: d in masks ==> !Accepts(d.fieldPattern, path)
  }

  lemma {:induction false} NothingHere(c: Codec, v: Value, path: string, masks: seq<MaskDirective>)
    requires NoneMatches(masks, path)
    ensures MaskHere(c, v, path, masks) == v
    decreases |masks|
  {
    if masks != [] {
      assert masks[0] in masks;
      NothingHere(c, v, path, masks[1..]);
    }
  }

  /** The frame: a position that no directive matches, at it or above, keeps its scalar, or its
      kind and its keys or length, and holds the masked form of what it held. */
  lemma {:induction false} Untouched(c: Codec, v: Value, at: seq<Label>, masks: seq<MaskDirective>, pos: seq<nat>)
    requires At(v, pos).Some?
    requires forall k :: |at| <= k <= |at| + |pos| ==> NoneMatches(masks, PathOf((at + Labels(v, pos))[..k]))
    ensures var was, got := At(v, pos).value, At(Masked(c, v, PathOf(at), masks), pos);
            got == Some(Masked(c, was, PathOf(at + Labels(v, pos)), masks)) && SameNode(was, got.value)
    decreases |pos|
  {
    hide Masked, MaskHere, Accepts, PathOf, Render, NoneMatches;
    var labels := at + Labels(v, pos);
    var w := Masked(c, v, PathOf(at), masks);
    assert labels[..|at|] == at;
    NothingHere(c, v, PathOf(at), masks);
    MaskedNode(c, v, PathOf(at), masks);
    if pos == [] {
      assert labels == at;
    } else {
      var child, down := Child(v, pos[0]), at + [LabelAt(v, pos[0])];
      assert labels == down + Labels(child, pos[1..]);
      PathSnoc(at, LabelAt(v, pos[0]));
      Untouched(c, child, down, masks, pos[1..]);
    }
  }
}
