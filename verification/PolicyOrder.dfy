/** How far the decision depends on the order of the listing. */
module PolicyOrder {
  import opened Policy

  /** `p` may stand before `q` under ORDER BY priority DESC, updated_at DESC. */
  predicate AtLeast(p: Policy, q: Policy) {
    p.priority > q.priority || (p.priority == q.priority && p.updatedAt >= q.updatedAt)
  }

  predicate Sorted(ps: seq<Policy>) {
    forall i, j :: 0 <= i < j < |ps| ==> AtLeast(ps[i], ps[j])
  }

  function EnabledRows(rows: seq<Policy>): seq<Policy> {
    if rows == [] then []
    else if rows[0].enabled then [rows[0]] + EnabledRows(rows[1..])
    else EnabledRows(rows[1..])
  }

  lemma {:induction false} EnabledRowsExactly(rows: seq<Policy>, p: Policy)
    ensures multiset(EnabledRows(rows))[p] == if p.enabled then multiset(rows)[p] else 0
  {
    if rows != [] {
      assert rows == [rows[0]] + rows[1..];
      EnabledRowsExactly(rows[1..], p);
    }
  }

  /** What the SELECT of the enabled rows may answer: SQL leaves the order of ties open. */
  ghost predicate ValidListing(ps: seq<Policy>, rows: seq<Policy>) {
    Sorted(ps) && multiset(ps) == multiset(EnabledRows(rows))
  }

  function Insert(p: Policy, ps: seq<Policy>): (r: seq<Policy>)
    ensures forall q :: q in r ==> q == p || q in ps
  {
    if ps == [] || AtLeast(p, ps[0]) then [p] + ps
    else [ps[0]] + Insert(p, ps[1..])
  }

  lemma SortedCons(p: Policy, ps: seq<Policy>)
    requires Sorted(ps) && forall q :: q in ps ==> AtLeast(p, q)
    ensures Sorted([p] + ps)
  {
  }

  lemma {:induction false} InsertIsSorted(p: Policy, ps: seq<Policy>)
    requires Sorted(ps)
    ensures Sorted(Insert(p, ps))
  {
    if ps == [] || AtLeast(p, ps[0]) {
      SortedCons(p, ps);
    } else {
      InsertIsSorted(p, ps[1..]);
      SortedCons(ps[0], Insert(p, ps[1..]));
    }
  }

  lemma {:induction false} InsertAdds(p: Policy, ps: seq<Policy>)
    ensures multiset(Insert(p, ps)) == multiset(ps) + multiset{p}
  {
    if ps != [] && !AtLeast(p, ps[0]) {
      assert ps == [ps[0]] + ps[1..];
      InsertAdds(p, ps[1..]);
    }
  }

  /** Some listing always exists. */
  lemma {:induction false} ListingExists(rows: seq<Policy>) returns (ps: seq<Policy>)
    ensures ValidListing(ps, rows)
  {
    if rows == [] {
      ps := [];
    } else {
      ps := ListingExists(rows[1..]);
      if rows[0].enabled {
        InsertIsSorted(rows[0], ps);
        InsertAdds(rows[0], ps);
        ps := Insert(rows[0], ps);
      }
    }
  }

  function Own(p: Policy, ctx: EvalContext): Decision {
    Decide([p], ctx)
  }

  lemma {:induction false} DecideAtFirst(ps: seq<Policy>, ctx: EvalContext) returns (i: nat)
    ensures i <= |ps| && forall k :: 0 <= k < i ==> !FiresIn(ps[k], ctx)
    ensures i == |ps| ==> Decide(ps, ctx) == NO_MATCH
    ensures i < |ps| ==> FiresIn(ps[i], ctx) && Decide(ps, ctx) == Own(ps[i], ctx)
  {
    i := 0;
    if ps != [] {
      var j := FirstFiringAt(ps[0].rules, ctx);
      if FirstFiring(ps[0].rules, ctx).None? {
        i := DecideAtFirst(ps[1..], ctx);
        assert forall k :: 0 < k < |ps| ==> ps[k] == ps[1..][k - 1];
        i := i + 1;
      }
    }
  }

  lemma {:induction false} DecideAt(ps: seq<Policy>, ctx: EvalContext, i: nat)
    requires i < |ps| && FiresIn(ps[i], ctx) && forall k :: 0 <= k < i ==> !FiresIn(ps[k], ctx)
    ensures Decide(ps, ctx) == Own(ps[i], ctx)
  {
    var j := DecideAtFirst(ps, ctx);
  }

  /** A policy that holds a firing rule and is as high as any other that does. */
  ghost predicate Top(ps: multiset<Policy>, ctx: EvalContext, p: Policy) {
    p in ps && FiresIn(p, ctx) && forall q :: q in ps && FiresIn(q, ctx) ==> AtLeast(p, q)
  }

  ghost predicate TopAgree(ps: multiset<Policy>, ctx: EvalContext) {
    forall p, q :: Top(ps, ctx, p) && Top(ps, ctx, q) ==> Own(p, ctx) == Own(q, ctx)
  }

  /** In a sorted listing, some top policy decides. */
  lemma TopDecides(ps: seq<Policy>, ctx: EvalContext) returns (p: Policy)
    requires Sorted(ps) && exists q :: q in ps && FiresIn(q, ctx)
    ensures Top(multiset(ps), ctx, p) && Decide(ps, ctx) == Own(p, ctx)
  {
    var i := DecideAtFirst(ps, ctx);
    p := ps[i];
    forall q | q in multiset(ps) && FiresIn(q, ctx)
      ensures AtLeast(p, q)
    {
      var k :| 0 <= k < |ps| && ps[k] == q;
      assert i <= k;
    }
  }

  lemma SwapKeepsMultiset<T>(s: seq<T>, i: nat, k: nat)
    requires i < k < |s|
    ensures multiset(s[i := s[k]][k := s[i]]) == multiset(s)
  {
    var t := s[i := s[k]];
    assert multiset(t) == multiset(s) - multiset{s[i]} + multiset{s[k]};
    assert multiset(t[k := s[i]]) == multiset(t) - multiset{t[k]} + multiset{s[i]};
  }

  lemma SwapKeepsSorted(ps: seq<Policy>, i: nat, k: nat)
    requires Sorted(ps) && i < k < |ps| && AtLeast(ps[k], ps[i])
    ensures Sorted(ps[i := ps[k]][k := ps[i]])
  {
    assert forall j :: i <= j <= k ==> ps[j].priority == ps[i].priority && ps[j].updatedAt == ps[i].updatedAt;
  }

  /** Another top policy can be listed first as well. */
  lemma AnyTopCanDecide(ps: seq<Policy>, ctx: EvalContext, p: Policy) returns (qs: seq<Policy>)
    requires Sorted(ps) && Top(multiset(ps), ctx, p)
    ensures Sorted(qs) && multiset(qs) == multiset(ps) && Decide(qs, ctx) == Own(p, ctx)
  {
    var i := DecideAtFirst(ps, ctx);
    assert p in ps;
    var k :| 0 <= k < |ps| && ps[k] == p;
    if k == i {
      qs := ps;
    } else {
      assert i < k;
      assert ps[i] in multiset(ps);
      assert AtLeast(p, ps[i]) && AtLeast(ps[i], p);
      qs := ps[i := ps[k]][k := ps[i]];
      SwapKeepsMultiset(ps, i, k);
      SwapKeepsSorted(ps, i, k);
      hide Decide, Sorted, FiresIn;
      DecideAt(qs, ctx, i);
    }
  }

  /** The decision is the same under every order of ties exactly when the top firing policies
      agree. */
  lemma TieOrderExactly(ps: seq<Policy>, ctx: EvalContext)
    requires Sorted(ps)
    ensures (forall qs :: Sorted(qs) && multiset(qs) == multiset(ps) ==> Decide(qs, ctx) == Decide(ps, ctx))
            <==> TopAgree(multiset(ps), ctx)
  {
    if TopAgree(multiset(ps), ctx) {
      forall qs | Sorted(qs) && multiset(qs) == multiset(ps)
        ensures Decide(qs, ctx) == Decide(ps, ctx)
      {
        SameDecision(ps, qs, ctx);
      }
    } else {
      var p, q :| Top(multiset(ps), ctx, p) && Top(multiset(ps), ctx, q) && Own(p, ctx) != Own(q, ctx);
      var a := AnyTopCanDecide(ps, ctx, p);
      var b := AnyTopCanDecide(ps, ctx, q);
    }
  }

  lemma SameDecision(ps: seq<Policy>, qs: seq<Policy>, ctx: EvalContext)
    requires Sorted(ps) && Sorted(qs) && multiset(ps) == multiset(qs) && TopAgree(multiset(ps), ctx)
    ensures Decide(ps, ctx) == Decide(qs, ctx)
  {
    assert forall q :: q in ps <==> q in multiset(ps);
    assert forall q :: q in qs <==> q in multiset(qs);
    if exists q :: q in ps && FiresIn(q, ctx) {
      var p := TopDecides(ps, ctx);
      var q := TopDecides(qs, ctx);
    } else {
      var i := DecideAtFirst(ps, ctx);
      var j := DecideAtFirst(qs, ctx);
    }
  }

  /** In particular when no two policies with equal priority and update time both hold a firing
      rule; the decision is then that of the highest firing policy. */
  lemma UntiedOrderDoesNotMatter(ps: seq<Policy>, qs: seq<Policy>, ctx: EvalContext)
    requires Sorted(ps) && Sorted(qs) && multiset(ps) == multiset(qs)
    requires forall i, j :: 0 <= i < j < |ps| && FiresIn(ps[i], ctx) && FiresIn(ps[j], ctx) ==>
               ps[i].priority != ps[j].priority || ps[i].updatedAt != ps[j].updatedAt
    ensures Decide(ps, ctx) == Decide(qs, ctx)
    ensures forall p :: Top(multiset(ps), ctx, p) ==> Decide(ps, ctx) == Own(p, ctx)
  {
    forall p, q | Top(multiset(ps), ctx, p) && Top(multiset(ps), ctx, q)
      ensures p == q
    {
      var i :| 0 <= i < |ps| && ps[i] == p;
      var j :| 0 <= j < |ps| && ps[j] == q;
      assert AtLeast(p, q) && AtLeast(q, p);
      assert !(i < j) && !(j < i);
    }
    SameDecision(ps, qs, ctx);
    forall p | Top(multiset(ps), ctx, p)
      ensures Decide(ps, ctx) == Own(p, ctx)
    {
      assert p in ps;
      var t := TopDecides(ps, ctx);
    }
  }

  /** End to end, from the rows: an enabled policy that holds a firing rule, and whose priority is
      higher than that of every other such policy, or equal and its update later, decides whatever
      listing the query answers. */
  lemma HighestDecides(rows: seq<Policy>, listing: seq<Policy>, ctx: EvalContext, p: Policy)
    requires ValidListing(listing, rows) && p in rows && p.enabled && FiresIn(p, ctx)
    requires forall q :: q in rows && q.enabled && FiresIn(q, ctx) && q != p ==>
               q.priority < p.priority || (q.priority == p.priority && q.updatedAt < p.updatedAt)
    ensures Decide(listing, ctx) == Decide([p], ctx)
  {
    ListedIsEnabled(rows, listing, p);
    var top := TopDecides(listing, ctx);
    ListedIsEnabled(rows, listing, top);
    assert AtLeast(top, p) by {
      assert p in multiset(listing);
    }
  }

  lemma ListedIsEnabled(rows: seq<Policy>, listing: seq<Policy>, p: Policy)
    requires ValidListing(listing, rows)
    ensures p in listing <==> p in rows && p.enabled
  {
    EnabledRowsExactly(rows, p);
    assert p in listing <==> multiset(listing)[p] > 0;
    assert p in rows <==> multiset(rows)[p] > 0;
  }

  /** Where no enabled policy holds a firing rule, access is denied by default. */
  lemma NobodyFires(rows: seq<Policy>, listing: seq<Policy>, ctx: EvalContext)
    requires ValidListing(listing, rows)
    requires forall q :: q in rows && q.enabled ==> !FiresIn(q, ctx)
    ensures Decide(listing, ctx) == Deny("no matching policy rule")
  {
    forall k | 0 <= k < |listing|
      ensures !FiresIn(listing[k], ctx)
    {
      ListedIsEnabled(rows, listing, listing[k]);
    }
    var i := DecideAtFirst(listing, ctx);
  }
}
