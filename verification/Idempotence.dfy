/** When masking twice is masking once, exactly. */
module Idempotence {
  import opened Wrappers
  import opened Glob
  import opened Json
  import opened Masking
  import opened Redaction
  import opened TextEdits
  import opened Fusion

  /** The edits of the directives that match a path, in list order. */
  function Edits(masks: seq<MaskDirective>, path: string): seq<Edit> {
    if masks == [] then []
    else
      var rest := Edits(masks[1..], path);
      if !Accepts(masks[0].fieldPattern, path) then rest
      else
        match masks[0].maskType
        case Redact => [Erase] + rest
        case Truncate(n) => [Cut(n)] + rest
        case EmailMask => [Mail] + rest
        case _ => rest
  }

  lemma {:induction false} EditsOfString(c: Codec, s: string, path: string, masks: seq<MaskDirective>)
    requires Digestless(masks)
    ensures MaskHere(c, String(s), path, masks) == String(Run(Edits(masks, path), s))
    decreases |masks|
  {
    hide Accepts, MaskEmail;
    if masks != [] {
      var rest := masks[1..];
      var edits := Edits(rest, path);
      assert forall e :: ([e] + edits)[1..] == edits;
      if Accepts(masks[0].fieldPattern, path) {
        match masks[0].maskType {
          case Redact => EditsOfString(c, MARKER, path, rest);
          case Truncate(n) => EditsOfString(c, Take(s, n), path, rest);
          case EmailMask => EditsOfString(c, MaskEmail(s), path, rest);
          case JsonFieldMask(_) => EditsOfString(c, s, path, rest);
          case HashBlake3 => assert false;
        }
      } else {
        EditsOfString(c, s, path, rest);
      }
    }
  }

  /** Scalars that are no strings are only ever redacted. */
  lemma {:induction false} OtherScalarsStay(c: Codec, v: Value, path: string, masks: seq<MaskDirective>)
    requires Digestless(masks) && IsScalar(v) && !v.String? && !RedactMatches(masks, path)
    ensures MaskHere(c, v, path, masks) == v
    decreases |masks|
  {
    if masks != [] {
      var d, rest := masks[0], masks[1..];
      assert masks == [d] + rest;
      MatchesHere(d, rest, path);
      if d.maskType.JsonFieldMask? {
        ScalarsHideNothing(v, {}, d.maskType.pattern);
      }
      OtherScalarsStay(c, v, path, rest);
    }
  }

  // ---------- one tree, any list ----------

  /** Nothing replaces a node strictly above `at`, and no field mask hides one on the way there or
      at it, from level `from` on. */
  ghost predicate Reached(masks: seq<MaskDirective>, at: seq<Label>, from: nat) {
    (forall k :: from <= k < |at| ==> Eraser(masks, PathOf(at[..k])).None?) &&
    (forall k :: from < k <= |at| ==> !HiddenAt(masks, at[..k]))
  }

  /** What the directives at `at` leave of a node, over what field masks selected above have hidden. */
  ghost function HereAt(c: Codec, masks: seq<MaskDirective>, v: Value, at: seq<Label>): Value {
    MaskHere(c, Hide(v, Above(masks, at)), PathOf(at), masks)
  }

  /** If the directives at the path leave a scalar, a second run of them leaves it alone. */
  ghost predicate NodeSettles(c: Codec, masks: seq<MaskDirective>, v: Value, at: seq<Label>) {
    var here := HereAt(c, masks, v, at);
    IsScalar(here) ==> MaskHere(c, here, PathOf(at), masks) == here
  }

  ghost predicate SettlesAt(c: Codec, masks: seq<MaskDirective>, v: Value, at: seq<Label>, pos: seq<nat>) {
    At(v, pos).Some? && Reached(masks, at + Labels(v, pos), |at|) ==>
      NodeSettles(c, masks, At(v, pos).value, at + Labels(v, pos))
  }

  /** What the traversal leaves there. */
  ghost function Left(c: Codec, masks: seq<MaskDirective>, v: Value, at: seq<Label>): Value {
    Masked(c, Hide(v, Above(masks, at)), PathOf(at), masks)
  }

  ghost predicate LeftAlone(c: Codec, masks: seq<MaskDirective>, v: Value, at: seq<Label>) {
    Left(c, masks, Left(c, masks, v, at), at) == Left(c, masks, v, at)
  }

  lemma LeftAloneAtLeaf(c: Codec, masks: seq<MaskDirective>, v: Value, at: seq<Label>)
    requires IsScalar(HereAt(c, masks, v, at))
    ensures LeftAlone(c, masks, v, at) <==> NodeSettles(c, masks, v, at)
  {
    hide Masked, MaskHere, Hide, Above, PathOf;
    var here := HereAt(c, masks, v, at);
    MaskedScalar(c, Hide(v, Above(masks, at)), PathOf(at), masks);
    ScalarsHideNothing(here, Above(masks, at), "");
    ScalarsStayScalar(c, here, PathOf(at), masks);
  }

  /** A container that the directives keep, and its children. */
  lemma LeftContainer(c: Codec, masks: seq<MaskDirective>, v: Value, at: seq<Label>)
    requires !IsScalar(HereAt(c, masks, v, at))
    ensures !IsScalar(v) && Eraser(masks, PathOf(at)).None?
    ensures SameNode(v, Left(c, masks, v, at)) && Arity(Left(c, masks, v, at)) == Arity(v)
    ensures forall i :: 0 <= i < Arity(v) ==>
              Child(Left(c, masks, v, at), i) == LeftOfChild(c, masks, v, at, i)
  {
    hide Masked, MaskHere, Hide, Above, PathOf, Eraser, SelectedAt, HiddenAt, Render;
    var x, sel := Hide(v, Above(masks, at)), Selected(masks, at);
    ContainersAreHidden(c, v, Above(masks, at), PathOf(at), masks);
    HideNode(v, Above(masks, at));
    ContainerReplaced(c, x, PathOf(at), masks);
    MaskedNode(c, x, PathOf(at), masks);
    HideNode(v, sel);
    SameNodeTransitive(v, Hide(v, sel), Left(c, masks, v, at));
    forall i | 0 <= i < Arity(v)
      ensures Child(Left(c, masks, v, at), i) == LeftOfChild(c, masks, v, at, i)
    {
      ChildBelow(masks, v, at, i);
    }
  }

  ghost function LeftOfChild(c: Codec, masks: seq<MaskDirective>, v: Value, at: seq<Label>, i: nat): Value
    requires i < Arity(v)
  {
    var down := at + [LabelAt(v, i)];
    if HiddenAt(masks, down) then Masked(c, REDACTED, PathOf(down), masks)
    else Left(c, masks, Child(v, i), down)
  }

  /** It is left alone the second time exactly if every child that is not hidden is. */
  lemma LeftAloneBelow(c: Codec, masks: seq<MaskDirective>, v: Value, at: seq<Label>)
    requires !IsScalar(HereAt(c, masks, v, at))
    ensures LeftAlone(c, masks, v, at) <==>
            forall i :: 0 <= i < Arity(v) && !HiddenAt(masks, at + [LabelAt(v, i)]) ==>
              LeftAlone(c, masks, Child(v, i), at + [LabelAt(v, i)])
  {
    hide Masked, MaskHere, Hide, Above, PathOf, Eraser, HiddenAt, Left;
    var once := Left(c, masks, v, at);
    var again := Left(c, masks, once, at);
    LeftContainer(c, masks, v, at);
    HideNode(once, Above(masks, at));
    ContainerReplaced(c, Hide(once, Above(masks, at)), PathOf(at), masks);
    LeftContainer(c, masks, once, at);
    SameNodeLabels(v, once);
    forall i | 0 <= i < Arity(v)
      ensures Child(again, i) == Child(once, i) <==>
              HiddenAt(masks, at + [LabelAt(v, i)]) || LeftAlone(c, masks, Child(v, i), at + [LabelAt(v, i)])
    {
      assert LabelAt(once, i) == LabelAt(v, i);
    }
    if forall i :: 0 <= i < Arity(v) ==> Child(again, i) == Child(once, i) {
      SameNodeTwins(once, again, once);
      SameChildren(again, once);
    }
  }

  lemma ReachedFrom(masks: seq<MaskDirective>, at: seq<Label>, from: nat)
    requires from < |at|
    ensures Reached(masks, at, from) <==>
            Eraser(masks, PathOf(at[..from])).None? && !HiddenAt(masks, at[..from + 1]) && Reached(masks, at, from + 1)
  {
    hide HiddenAt, Eraser, PathOf;
  }

  lemma SettlesBelow(c: Codec, masks: seq<MaskDirective>, v: Value, at: seq<Label>, pos: seq<nat>)
    requires pos != [] && pos[0] < Arity(v) && Eraser(masks, PathOf(at)).None?
    ensures SettlesAt(c, masks, v, at, pos) <==>
            !HiddenAt(masks, at + [LabelAt(v, pos[0])]) ==>
              SettlesAt(c, masks, Child(v, pos[0]), at + [LabelAt(v, pos[0])], pos[1..])
  {
    hide HiddenAt, Eraser, NodeSettles, PathOf, Reached, At, Labels;
    var child, step := Child(v, pos[0]), LabelAt(v, pos[0]);
    LabelsBelow(v, pos);
    if At(v, pos).Some? {
      var down, labels := at + [step], at + Labels(v, pos);
      assert labels == down + Labels(child, pos[1..]);
      assert labels[..|at|] == at && labels[..|at| + 1] == down;
      ReachedFrom(masks, labels, |at|);
    }
  }

  lemma LabelsBelow(v: Value, pos: seq<nat>)
    requires pos != [] && pos[0] < Arity(v)
    ensures At(v, pos) == At(Child(v, pos[0]), pos[1..])
    ensures At(v, pos).Some? ==> Labels(v, pos) == [LabelAt(v, pos[0])] + Labels(Child(v, pos[0]), pos[1..])
  {
  }

  lemma AllSettleBelow(c: Codec, masks: seq<MaskDirective>, v: Value, at: seq<Label>)
    requires !IsScalar(HereAt(c, masks, v, at)) && Eraser(masks, PathOf(at)).None?
    ensures (forall pos :: SettlesAt(c, masks, v, at, pos)) <==>
            forall i :: 0 <= i < Arity(v) && !HiddenAt(masks, at + [LabelAt(v, i)]) ==>
              forall pos :: SettlesAt(c, masks, Child(v, i), at + [LabelAt(v, i)], pos)
  {
    hide HiddenAt, Eraser, MaskHere, Hide, PathOf, Above;
    if forall pos :: SettlesAt(c, masks, v, at, pos) {
      forall i, pos | 0 <= i < Arity(v) && !HiddenAt(masks, at + [LabelAt(v, i)])
        ensures SettlesAt(c, masks, Child(v, i), at + [LabelAt(v, i)], pos)
      {
        SettlesBelow(c, masks, v, at, [i] + pos);
        assert ([i] + pos)[1..] == pos;
        assert SettlesAt(c, masks, v, at, [i] + pos);
      }
    }
    if forall i :: 0 <= i < Arity(v) && !HiddenAt(masks, at + [LabelAt(v, i)]) ==>
         forall pos :: SettlesAt(c, masks, Child(v, i), at + [LabelAt(v, i)], pos) {
      forall pos
        ensures SettlesAt(c, masks, v, at, pos)
      {
        if pos == [] {
          assert at + [] == at;
        } else if pos[0] < Arity(v) {
          SettlesBelow(c, masks, v, at, pos);
        }
      }
    }
  }

  lemma AllSettleAtLeaf(c: Codec, masks: seq<MaskDirective>, v: Value, at: seq<Label>)
    requires IsScalar(HereAt(c, masks, v, at))
    ensures (forall pos :: SettlesAt(c, masks, v, at, pos)) <==> NodeSettles(c, masks, v, at)
  {
    hide HiddenAt, Eraser, MaskHere, Hide, PathOf, Above;
    assert at + [] == at;
    assert SettlesAt(c, masks, v, at, []) <==> NodeSettles(c, masks, v, at);
    if NodeSettles(c, masks, v, at) {
      forall pos
        ensures SettlesAt(c, masks, v, at, pos)
      {
        if pos != [] && At(v, pos).Some? {
          HideNode(v, Above(masks, at));
          ContainerReplaced(c, Hide(v, Above(masks, at)), PathOf(at), masks);
          assert (at + Labels(v, pos))[..|at|] == at;
        }
      }
    }
  }

  lemma {:induction false} LeftAloneExactly(c: Codec, masks: seq<MaskDirective>, v: Value, at: seq<Label>)
    ensures LeftAlone(c, masks, v, at) <==> forall pos :: SettlesAt(c, masks, v, at, pos)
    decreases v
  {
    hide LeftAlone, SettlesAt, HereAt, HiddenAt, Eraser, PathOf;
    if IsScalar(HereAt(c, masks, v, at)) {
      LeftAloneAtLeaf(c, masks, v, at);
      AllSettleAtLeaf(c, masks, v, at);
    } else {
      LeftContainer(c, masks, v, at);
      LeftAloneBelow(c, masks, v, at);
      AllSettleBelow(c, masks, v, at);
      forall i | 0 <= i < Arity(v)
        ensures LeftAlone(c, masks, Child(v, i), at + [LabelAt(v, i)]) <==>
                forall pos :: SettlesAt(c, masks, Child(v, i), at + [LabelAt(v, i)], pos)
      {
        LeftAloneExactly(c, masks, Child(v, i), at + [LabelAt(v, i)]);
      }
    }
  }

  /** For every list and every tree: masking twice is masking once exactly if, at every position
      that nothing above replaces or hides, the scalar that the directives at its path leave there
      stays when they run over it again. */
  lemma MaskedTwiceExactly(c: Codec, masks: seq<MaskDirective>, v: Value)
    ensures Masked(c, Masked(c, v, "$", masks), "$", masks) == Masked(c, v, "$", masks)
            <==> forall pos :: SettlesAt(c, masks, v, [], pos)
  {
    hide Masked, SettlesAt;
    HideNothing(v);
    HideNothing(Masked(c, v, "$", masks));
    LeftAloneExactly(c, masks, v, []);
  }

  // ---------- one tree, no digests ----------

  /** If there is a string at the position, and neither it nor anything above it is redacted or
      hidden, then the edits at its path leave it alone the second time. */
  ghost predicate StringSettles(masks: seq<MaskDirective>, v: Value, pos: seq<nat>) {
    At(v, pos).Some? && At(v, pos).value.String? && Open(masks, Labels(v, pos)) ==>
      var edits, s := Edits(masks, PathOf(Labels(v, pos))), At(v, pos).value.s;
      Run(edits, Run(edits, s)) == Run(edits, s)
  }

  /** Nothing is redacted at `at` or above it. */
  ghost predicate Open(masks: seq<MaskDirective>, at: seq<Label>) {
    forall k :: 0 <= k <= |at| ==> !RedactedAt(masks, at[..k])
  }

  lemma {:induction false} RedactErases(masks: seq<MaskDirective>, path: string)
    requires Digestless(masks)
    ensures Eraser(masks, path).Some? <==> RedactMatches(masks, path)
  {
    if masks != [] {
      assert masks == [masks[0]] + masks[1..];
      MatchesHere(masks[0], masks[1..], path);
      RedactErases(masks[1..], path);
    }
  }

  lemma OpenIsReached(masks: seq<MaskDirective>, at: seq<Label>)
    requires Digestless(masks)
    ensures Open(masks, at) <==> Reached(masks, at, 0) && !RedactMatches(masks, PathOf(at))
  {
    hide PathOf, RedactMatches, KeyIsHidden, Eraser;
    assert at[..|at|] == at;
    forall k | 0 <= k <= |at|
      ensures Eraser(masks, PathOf(at[..k])).Some? <==> RedactMatches(masks, PathOf(at[..k]))
    {
      RedactErases(masks, PathOf(at[..k]));
    }
    if Open(masks, at) {
      forall k | 0 <= k <= |at|
        ensures !RedactMatches(masks, PathOf(at[..k])) && !HiddenAt(masks, at[..k])
      {
        assert !RedactedAt(masks, at[..k]);
      }
    }
    if Reached(masks, at, 0) && !RedactMatches(masks, PathOf(at)) {
      forall k | 0 <= k <= |at|
        ensures !RedactedAt(masks, at[..k])
      {
        assert k == 0 || !HiddenAt(masks, at[..k]);
      }
    }
  }

  /** Without digests a node always settles, unless it is a string that no `Redact` matches. */
  lemma DigestFreeNode(c: Codec, masks: seq<MaskDirective>, v: Value, at: seq<Label>)
    requires Digestless(masks)
    ensures NodeSettles(c, masks, v, at) <==>
            v.String? && !RedactMatches(masks, PathOf(at)) ==>
              var edits := Edits(masks, PathOf(at));
              Run(edits, Run(edits, v.s)) == Run(edits, v.s)
  {
    hide PathOf, RedactMatches, MaskHere, Above, Hide, Edits, Run;
    var path, x := PathOf(at), Hide(v, Above(masks, at));
    if RedactMatches(masks, path) {
      RedactForgets(c, x, MaskHere(c, x, path, masks), path, masks);
    } else if IsScalar(v) {
      ScalarsHideNothing(v, Above(masks, at), "");
      if v.String? {
        EditsOfString(c, v.s, path, masks);
        EditsOfString(c, Run(Edits(masks, path), v.s), path, masks);
      } else {
        OtherScalarsStay(c, v, path, masks);
      }
    } else {
      HideNode(v, Above(masks, at));
      RedactErases(masks, path);
      ContainerReplaced(c, x, path, masks);
    }
  }

  /** So without digests, twice is once exactly if every string that is neither redacted nor
      hidden, nor below such a position, is left alone by a second run of the edits at its path. */
  lemma DigestFreeTwiceExactly(c: Codec, masks: seq<MaskDirective>, v: Value)
    requires Digestless(masks)
    ensures Masked(c, Masked(c, v, "$", masks), "$", masks) == Masked(c, v, "$", masks)
            <==> forall pos :: StringSettles(masks, v, pos)
  {
    hide Masked, NodeSettles, RedactMatches, Open, Reached, PathOf, Edits, Run;
    MaskedTwiceExactly(c, masks, v);
    forall pos
      ensures SettlesAt(c, masks, v, [], pos) <==> StringSettles(masks, v, pos)
    {
      if At(v, pos).Some? {
        assert [] + Labels(v, pos) == Labels(v, pos);
        OpenIsReached(masks, Labels(v, pos));
        DigestFreeNode(c, masks, At(v, pos).value, Labels(v, pos));
      }
    }
  }

  // ---------- one tree, one digest ----------

  /** If the pattern selects the position and nothing above it, the digest of its digest is its digest. */
  ghost predicate DigestSettles(c: Codec, pattern: string, v: Value, pos: seq<nat>) {
    At(v, pos).Some? && Topmost(pattern, Labels(v, pos)) ==>
      var digest := c.hash(TextOf(c, At(v, pos).value));
      c.hash(digest) == digest
  }

  ghost predicate Topmost(pattern: string, at: seq<Label>) {
    Accepts(pattern, PathOf(at)) && forall k :: 0 <= k < |at| ==> !Accepts(pattern, PathOf(at[..k]))
  }

  lemma {:induction false} DigestHidesNothing(masks: seq<MaskDirective>, at: seq<Label>)
    requires NoFieldMasks(masks)
    ensures Above(masks, at) == {} && !HiddenAt(masks, at)
    decreases |at|
  {
    hide Accepts, PathOf;
    if at != [] {
      DigestHidesNothing(masks, at[..|at| - 1]);
    }
  }

  lemma DigestNode(c: Codec, pattern: string, v: Value, at: seq<Label>)
    ensures var d, path := MaskDirective(pattern, HashBlake3), PathOf(at);
            NodeSettles(c, [d], v, at) <==>
            (Accepts(pattern, path) ==> c.hash(c.hash(TextOf(c, v))) == c.hash(TextOf(c, v)))
  {
    hide Accepts, PathOf, Above, Hide, HiddenAt;
    var d := MaskDirective(pattern, HashBlake3);
    DigestHidesNothing([d], at);
    HideNothing(v);
    DigestHere(c, v, PathOf(at), pattern);
    DigestHere(c, MaskHere(c, v, PathOf(at), [d]), PathOf(at), pattern);
  }

  lemma DigestReaches(pattern: string, at: seq<Label>)
    ensures Reached([MaskDirective(pattern, HashBlake3)], at, 0) <==>
            forall k :: 0 <= k < |at| ==> !Accepts(pattern, PathOf(at[..k]))
  {
    hide Accepts, PathOf, HiddenAt;
    var masks := [MaskDirective(pattern, HashBlake3)];
    assert masks[1..] == [];
    assert forall path :: Eraser(masks, path).Some? <==> Accepts(pattern, path);
    forall k | 0 < k <= |at|
      ensures !HiddenAt(masks, at[..k])
    {
      DigestHidesNothing(masks, at[..k]);
    }
  }

  /** A single digest is idempotent on a tree exactly if it is at every topmost node it selects. */
  lemma DigestTwiceExactly(c: Codec, pattern: string, v: Value)
    ensures var masks := [MaskDirective(pattern, HashBlake3)];
            Masked(c, Masked(c, v, "$", masks), "$", masks) == Masked(c, v, "$", masks)
            <==> forall pos :: DigestSettles(c, pattern, v, pos)
  {
    hide Masked, NodeSettles, Reached, PathOf, Accepts, TextOf;
    var masks := [MaskDirective(pattern, HashBlake3)];
    MaskedTwiceExactly(c, masks, v);
    forall pos
      ensures SettlesAt(c, masks, v, [], pos) <==> DigestSettles(c, pattern, v, pos)
    {
      if At(v, pos).Some? {
        assert [] + Labels(v, pos) == Labels(v, pos);
        DigestReaches(pattern, Labels(v, pos));
        DigestNode(c, pattern, At(v, pos).value, Labels(v, pos));
      }
    }
  }

  // ---------- all trees ----------

  /** The smallest tree with this leaf under these labels. */
  function Chain(at: seq<Label>, leaf: Value): Value {
    if at == [] then leaf
    else
      var below := Chain(at[1..], leaf);
      match at[0]
      case Key(name) => Object([Field(name, below)])
      case Index(i) => Array(seq(i + 1, _ => below))
  }

  function ChainPos(at: seq<Label>): seq<nat> {
    if at == [] then [] else [if at[0].Key? then 0 else at[0].i] + ChainPos(at[1..])
  }

  lemma {:induction false} ChainHolds(at: seq<Label>, leaf: Value)
    ensures At(Chain(at, leaf), ChainPos(at)) == Some(leaf)
    ensures Labels(Chain(at, leaf), ChainPos(at)) == at
  {
    if at != [] {
      var v, pos := Chain(at, leaf), ChainPos(at);
      ChainHolds(at[1..], leaf);
      assert pos[1..] == ChainPos(at[1..]) && Child(v, pos[0]) == Chain(at[1..], leaf);
      assert At(v, pos) == At(Chain(at[1..], leaf), pos[1..]);
      assert LabelAt(v, pos[0]) == at[0];
      assert at == [at[0]] + at[1..];
    }
  }

  /** The lists that are idempotent on every tree: those whose directives, at every path that
      nothing above replaces or hides, settle on every node. */
  lemma ListsExactly(c: Codec, masks: seq<MaskDirective>)
    ensures (forall v :: Masked(c, Masked(c, v, "$", masks), "$", masks) == Masked(c, v, "$", masks))
            <==> forall at, w :: Reached(masks, at, 0) ==> NodeSettles(c, masks, w, at)
  {
    hide Masked, PathOf, Reached, NodeSettles;
    if forall at, w :: Reached(masks, at, 0) ==> NodeSettles(c, masks, w, at) {
      forall v
        ensures Masked(c, Masked(c, v, "$", masks), "$", masks) == Masked(c, v, "$", masks)
      {
        MaskedTwiceExactly(c, masks, v);
      }
    } else {
      var at, w :| Reached(masks, at, 0) && !NodeSettles(c, masks, w, at);
      var v := Chain(at, w);
      ChainHolds(at, w);
      assert [] + at == at;
      assert !SettlesAt(c, masks, v, [], ChainPos(at));
      MaskedTwiceExactly(c, masks, v);
    }
  }

  /** Without digests: those whose edits, at every path that nothing redacts on the way, settle. */
  lemma DigestFreeListsExactly(c: Codec, masks: seq<MaskDirective>)
    requires Digestless(masks)
    ensures (forall v :: Masked(c, Masked(c, v, "$", masks), "$", masks) == Masked(c, v, "$", masks))
            <==> forall at :: Open(masks, at) ==> Settled(Edits(masks, PathOf(at)))
  {
    hide Masked, PathOf, Open, Settled, Edits, Run;
    if forall at :: Open(masks, at) ==> Settled(Edits(masks, PathOf(at))) {
      forall v
        ensures Masked(c, Masked(c, v, "$", masks), "$", masks) == Masked(c, v, "$", masks)
      {
        forall pos
          ensures StringSettles(masks, v, pos)
        {
          if At(v, pos).Some? && At(v, pos).value.String? && Open(masks, Labels(v, pos)) {
            SettledIsEnough(Edits(masks, PathOf(Labels(v, pos))), At(v, pos).value.s);
          }
        }
        DigestFreeTwiceExactly(c, masks, v);
      }
    } else {
      var at :| Open(masks, at) && !Settled(Edits(masks, PathOf(at)));
      var s := UnsettledMoves(Edits(masks, PathOf(at)));
      var v := Chain(at, String(s));
      ChainHolds(at, String(s));
      assert !StringSettles(masks, v, ChainPos(at));
      DigestFreeTwiceExactly(c, masks, v);
    }
  }

  lemma SingleEdit(d: MaskDirective, path: string)
    ensures Settled(Edits([d], path))
  {
    hide Accepts;
    var edits := Edits([d], path);
    assert [d][1..] == [] && Edits([], path) == [];
    assert |edits| <= 1;
    if edits == [Mail] {
      assert FirstMail(edits) == 0 && edits[1..] == [] && edits[..0] == [];
    }
  }

  /** In particular every single directive but the digest is idempotent, on every tree. */
  lemma SingleIsIdempotent(c: Codec, d: MaskDirective, v: Value)
    requires !d.maskType.HashBlake3?
    ensures Masked(c, Masked(c, v, "$", [d]), "$", [d]) == Masked(c, v, "$", [d])
  {
    hide Masked, Edits, Settled;
    forall at
      ensures Settled(Edits([d], PathOf(at)))
    {
      SingleEdit(d, PathOf(at));
    }
    DigestFreeListsExactly(c, [d]);
  }

  /** And a list that is not: the e-mail mask, then a truncation that removes the `@`. */
  lemma ListsAreNotIdempotent(c: Codec)
    ensures !Settled([Mail, Cut(3)])
    ensures var masks := [MaskDirective("$", EmailMask), MaskDirective("$", Truncate(3))];
            var once := Masked(c, String("ab@c"), "$", masks);
            once == String("a**") && Masked(c, once, "$", masks) == String("[RE")
  {
    hide MaskEmail, Masked, MaskHere;
    var edits := [Mail, Cut(3)];
    var d, e := MaskDirective("$", EmailMask), MaskDirective("$", Truncate(3));
    assert edits[1..] == [Cut(3)] && edits[..0] == [] && [Cut(3)][1..] == [];
    assert FirstMail(edits) == 0 && Least([Cut(3)]) == Some(3);
    assert [d, e][1..] == [e] && [e][1..] == [];
    assert Edits([e], "$") == [Cut(3)] && Edits([d, e], "$") == edits;
    ScalarsStayScalar(c, String("ab@c"), "$", [d, e]);
    ScalarsStayScalar(c, String("a**"), "$", [d, e]);
    EditsOfString(c, "ab@c", "$", [d, e]);
    EditsOfString(c, "a**", "$", [d, e]);
    TwoEdits("ab@c");
    TwoEdits("a**");
    assert "ab@c" == "ab" + "@" + "c";
    MaskEmailOf("ab", "c");
    MaskEmailOf("a**", "");
  }

  lemma TwoEdits(s: string)
    ensures Run([Mail, Cut(3)], s) == Take(MaskEmail(s), 3)
  {
    hide MaskEmail;
    assert [Mail, Cut(3)][1..] == [Cut(3)] && [Cut(3)][1..] == [];
    assert Run([Cut(3)], MaskEmail(s)) == Take(MaskEmail(s), 3);
  }
}
