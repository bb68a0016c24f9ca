/** The policy engine of `src/policy/mod.rs` as an object: the table and the read-through cache,
    each operation run to its end. What the database answers is an input: the listing a SELECT
    returns, in any order of ties, or the failure of a statement. */
module PolicyEngine {
  import opened Wrappers
  import opened Errors
  import opened Policy
  import opened PolicyOrder
  import opened PolicyParser
  import opened PolicyTable

  const DB_ERROR := DatabaseError("statement failed")

  function UpsertAll(rows: seq<Policy>, ps: seq<Policy>): seq<Policy> {
    if ps == [] then rows else UpsertRow(UpsertAll(rows, ps[..|ps| - 1]), ps[|ps| - 1])
  }

  ghost predicate FreshStamps(rows: seq<Policy>, stamps: seq<Stamp>) {
    (forall k :: 0 <= k < |stamps| ==> FreshId(rows, stamps[k].id)) &&
    (forall i, j :: 0 <= i < j < |stamps| ==> stamps[i].id != stamps[j].id)
  }

  /** The policies from `k` on have ids of their own that no row holds. */
  ghost predicate FreshPolicies(rows: seq<Policy>, policies: seq<Policy>, k: nat) {
    (forall j :: k <= j < |policies| ==> FreshId(rows, policies[j].id)) &&
    (forall i, j :: 0 <= i < j < |policies| ==> policies[i].id != policies[j].id)
  }

  lemma StillFresh(rows: seq<Policy>, policies: seq<Policy>, k: nat)
    requires k < |policies| && FreshPolicies(rows, policies, k)
    ensures FreshPolicies(UpsertRow(rows, policies[k]), policies, k + 1)
  {
    forall j, row | k < j < |policies| && row in UpsertRow(rows, policies[k])
      ensures row.id != policies[j].id
    {
      UpsertIds(rows, policies[k], row);
    }
  }

  /** What the query of the enabled rows may answer: a listing of them, or an error of the
      statement or of a row that does not decode. */
  ghost predicate CanAnswer(rows: seq<Policy>, answer: Result<seq<Policy>, GuardError>) {
    match answer
    case Ok(listing) => ValidListing(listing, rows)
    case Err(e) => e.FromQuery()
  }

  /** A whole read through the cache: a filled cache answers, an empty one is filled from the
      query if that succeeds. */
  ghost predicate ReadsThrough(before: seq<Policy>, answer: Result<seq<Policy>, GuardError>,
                               r: Result<seq<Policy>, GuardError>, after: seq<Policy>) {
    if before != [] then r == Ok(before) && after == before
    else r == answer && after == if answer.Ok? then answer.value else []
  }

  class Engine {
    var rows: seq<Policy>
    var cache: seq<Policy>

    ghost predicate Valid()
      reads this
    {
      Keyed(rows) && (cache == [] || ValidListing(cache, rows))
    }

    constructor (rows: seq<Policy>)
      requires Keyed(rows)
      ensures Valid() && this.rows == rows && cache == []
    {
      this.rows := rows;
      cache := [];
    }

    method InvalidateCache()
      modifies this`cache
      ensures cache == []
    {
      cache := [];
    }

    method UpsertPolicy(policy: Policy, dbOk: bool) returns (r: Result<(), GuardError>)
      requires Valid() && FreshId(rows, policy.id)
      modifies this
      ensures Valid()
      ensures dbOk ==> r.Ok? && rows == UpsertRow(old(rows), policy) && cache == []
      ensures !dbOk ==> r == Err(DB_ERROR) && rows == old(rows) && cache == old(cache)
    {
      if !dbOk {
        return Err(DB_ERROR);
      }
      UpsertKeepsKeys(rows, policy);
      rows := UpsertRow(rows, policy);
      InvalidateCache();
      return Ok(());
    }

    method RemovePolicy(id: Uuid, dbOk: bool) returns (r: Result<(), GuardError>)
      requires Valid()
      modifies this
      ensures Valid()
      ensures dbOk ==> r.Ok? && rows == DeleteRow(old(rows), id) && cache == []
      ensures !dbOk ==> r == Err(DB_ERROR) && rows == old(rows) && cache == old(cache)
    {
      if !dbOk {
        return Err(DB_ERROR);
      }
      DeleteKeepsKeys(rows, id);
      rows := DeleteRow(rows, id);
      InvalidateCache();
      return Ok(());
    }

    /** The loop of `add_policy_from_toml`. `failAt` is the statement the database refuses, if
        any; the earlier ones stay. */
    method UpsertEach(policies: seq<Policy>, failAt: Option<nat>) returns (last: Result<Option<Policy>, GuardError>)
      requires Valid() && FreshPolicies(rows, policies, 0)
      modifies this
      ensures Valid()
      ensures failAt.Some? && failAt.value < |policies| ==>
                last == Err(DB_ERROR) && rows == UpsertAll(old(rows), policies[..failAt.value])
      ensures !(failAt.Some? && failAt.value < |policies|) ==>
                rows == UpsertAll(old(rows), policies) &&
                last == Ok(if policies == [] then None else Some(policies[|policies| - 1]))
      ensures cache == if policies == [] || failAt == Some(0) then old(cache) else []
    {
      hide UpsertRow, ValidListing, Keyed, FreshId;
      last := Ok(None);
      for k := 0 to |policies|
        invariant Valid() && rows == UpsertAll(old(rows), policies[..k])
        invariant failAt.Some? ==> k <= failAt.value || |policies| <= failAt.value
        invariant FreshPolicies(rows, policies, k)
        invariant last == Ok(if k == 0 then None else Some(policies[k - 1]))
        invariant cache == if k == 0 then old(cache) else []
      {
        ghost var before := rows;
        var done := UpsertPolicy(policies[k], failAt != Some(k));
        if done.Err? {
          return Err(done.error);
        }
        assert policies[..k + 1][..k] == policies[..k];
        StillFresh(before, policies, k);
        last := Ok(Some(policies[k]));
      }
      assert policies[..|policies|] == policies;
    }

    /** Parses the whole source before it touches the table. The policy returned carries the id
        it was parsed with. */
    method AddPolicyFromToml(u: UuidCodec, source: PolicySource, fallback: string,
                             stamps: seq<Stamp>, failAt: Option<nat>)
      returns (r: Result<Policy, GuardError>)
      requires Valid() && |stamps| == Count(source) && FreshStamps(rows, stamps)
      modifies this
      ensures Valid()
      ensures var parsed := ParseSource(u, source, fallback, stamps);
              if parsed.Err? then r == Err(parsed.error) && rows == old(rows) && cache == old(cache)
              else
                var ps := parsed.value;
                if failAt.Some? && failAt.value < |ps| then
                  r == Err(DB_ERROR) && rows == UpsertAll(old(rows), ps[..failAt.value])
                else rows == UpsertAll(old(rows), ps) &&
                     r == if ps == [] then Err(ConfigError("policy file contained no policies")) else Ok(ps[|ps| - 1])
      ensures var parsed := ParseSource(u, source, fallback, stamps);
              cache == if parsed.Err? || parsed.value == [] || failAt == Some(0) then old(cache) else []
    {
      hide ParseSource, ValidListing, Keyed, UpsertAll;
      var parsed := ParseSource(u, source, fallback, stamps);
      if parsed.Err? {
        return Err(parsed.error);
      }
      ParsedFields(u, source, fallback, stamps);
      var last := UpsertEach(parsed.value, failAt);
      if last.Err? {
        return Err(last.error);
      }
      match last.value
      case None => return Err(ConfigError("policy file contained no policies"));
      case Some(policy) => return Ok(policy);
    }

    /** Read-through; the lock is not held over the query. */
    method CachedPolicies(answer: Result<seq<Policy>, GuardError>) returns (r: Result<seq<Policy>, GuardError>)
      requires Valid() && CanAnswer(rows, answer)
      modifies this`cache
      ensures Valid()
      ensures r.Ok? ==> ValidListing(r.value, rows)
      ensures ReadsThrough(old(cache), answer, r, cache)
    {
      if cache != [] {
        return Ok(cache);
      }
      if answer.Err? {
        return Err(answer.error);
      }
      cache := answer.value;
      return Ok(answer.value);
    }

    /** Through the cache or not, the decision is that of a valid listing of the current rows; it
        fails only on the query. */
    method EvaluateAccess(ctx: EvalContext, answer: Result<seq<Policy>, GuardError>)
      returns (r: Result<Decision, GuardError>)
      requires Valid() && CanAnswer(rows, answer)
      modifies this`cache
      ensures Valid()
      ensures r.Err? <==> old(cache) == [] && answer.Err?
      ensures r.Err? ==> r.error == answer.error && cache == []
      ensures r.Ok? ==> exists listing :: ValidListing(listing, rows) && r.value == Decide(listing, ctx)
    {
      var policies := CachedPolicies(answer);
      if policies.Err? {
        return Err(policies.error);
      }
      var decision := Evaluate(policies.value, ctx);
      return Ok(decision);
    }
  }

  /** Adding policies extends the history of the table by their upserts. */
  lemma {:induction false} AddingExtendsHistory(ops: seq<Op>, ps: seq<Policy>)
    ensures UpsertAll(Run(ops), ps) == Run(ops + seq(|ps|, k requires 0 <= k < |ps| => Upsert(ps[k])))
    decreases |ps|
  {
    var all := ops + seq(|ps|, k requires 0 <= k < |ps| => Upsert(ps[k]));
    if ps == [] {
      assert all == ops;
    } else {
      var front := ps[..|ps| - 1];
      AddingExtendsHistory(ops, front);
      assert all[..|all| - 1] == ops + seq(|front|, k requires 0 <= k < |front| => Upsert(front[k]));
    }
  }

  /** The id returned for a definition is the stored one exactly if the name was not live. */
  lemma ReturnedIdIsStored(rows: seq<Policy>, p: Policy)
    requires FreshId(rows, p.id)
    ensures Row(UpsertRow(rows, p), p.name).Some?
    ensures Row(UpsertRow(rows, p), p.name).value.id == p.id <==> Row(rows, p.name).None?
  {
    UpsertUpdates(rows, p, p.name);
  }

  // ---------- from the source of a policy to its row ----------

  lemma {:induction false} UpsertAllSkips(rows: seq<Policy>, ps: seq<Policy>, name: string)
    requires forall k :: 0 <= k < |ps| ==> ps[k].name != name
    ensures Row(UpsertAll(rows, ps), name) == Row(rows, name)
    decreases |ps|
  {
    if ps != [] {
      var front := ps[..|ps| - 1];
      UpsertAllSkips(rows, front, name);
      UpsertUpdates(UpsertAll(rows, front), ps[|ps| - 1], name);
    }
  }

  lemma {:induction false} LastNamed(ps: seq<Policy>, i: nat) returns (j: nat)
    requires i < |ps|
    ensures i <= j < |ps| && ps[j].name == ps[i].name
    ensures forall k :: j < k < |ps| ==> ps[k].name != ps[i].name
    decreases |ps|
  {
    j := |ps| - 1;
    if ps[j].name != ps[i].name {
      j := LastNamed(ps[..j], i);
    }
  }

  /** Of several policies with one name, the first gives the row its id and creation time, unless the
      name was stored before, and the last everything else. */
  lemma {:induction false} UpsertAllStores(rows: seq<Policy>, ps: seq<Policy>, i: nat, j: nat)
    requires i <= j < |ps| && ps[i].name == ps[j].name
    requires forall k :: 0 <= k < i || j < k < |ps| ==> ps[k].name != ps[i].name
    ensures var name := ps[i].name;
            var (id, createdAt) := match Row(rows, name)
                                   case Some(stored) => (stored.id, stored.createdAt)
                                   case None => (ps[i].id, ps[i].createdAt);
            Row(UpsertAll(rows, ps), name) ==
            Some(Policy(id, name, ps[j].description, ps[j].rules, ps[j].priority, ps[j].enabled,
                        createdAt, ps[j].updatedAt))
    decreases |ps|
  {
    hide Row, UpsertRow;
    var name, last := ps[i].name, |ps| - 1;
    var front := ps[..last];
    assert UpsertAll(rows, ps) == UpsertRow(UpsertAll(rows, front), ps[last]);
    UpsertUpdates(UpsertAll(rows, front), ps[last], name);
    if j < last {
      UpsertAllStores(rows, front, i, j);
    } else if i < j {
      var before := LastNamed(front, i);
      UpsertAllStores(rows, front, i, before);
    } else {
      UpsertAllSkips(rows, front, name);
    }
  }

  /** End to end: after a source has been added, the row of a name it holds has the description,
      priority, enabled flag and parsed rules of the last file of that name, under the id and creation
      time it had, or else those stamped on the first. Every other name keeps its row. */
  lemma AddedSourceIsStored(u: UuidCodec, source: PolicySource, fallback: string, stamps: seq<Stamp>,
                            rows: seq<Policy>, i: nat, j: nat)
    requires |stamps| >= Count(source) && ParseSource(u, source, fallback, stamps).Ok?
    requires i <= j < Count(source) && NameOf(source, fallback, i) == NameOf(source, fallback, j)
    requires forall k :: 0 <= k < i || j < k < Count(source) ==>
               NameOf(source, fallback, k) != NameOf(source, fallback, i)
    ensures var name, file := NameOf(source, fallback, j), Files(source)[j];
            var stored := Row(UpsertAll(rows, ParseSource(u, source, fallback, stamps).value), name);
            stored.Some? && ParseRules(u, file.rules) == Ok(stored.value.rules) &&
            stored.value.description == file.description && stored.value.priority == file.priority &&
            stored.value.enabled == file.enabled && stored.value.updatedAt == stamps[j].now &&
            match Row(rows, name)
            case Some(was) => stored.value.id == was.id && stored.value.createdAt == was.createdAt
            case None => stored.value.id == stamps[i].id && stored.value.createdAt == stamps[i].now
  {
    hide ParseSource, ParseRules, NameOf, UpsertAll;
    ParsedFields(u, source, fallback, stamps);
    var ps := ParseSource(u, source, fallback, stamps).value;
    assert forall k :: 0 <= k < |ps| ==> ps[k].name == NameOf(source, fallback, k);
    UpsertAllStores(rows, ps, i, j);
  }

  lemma OtherNamesKeepTheirRows(u: UuidCodec, source: PolicySource, fallback: string, stamps: seq<Stamp>,
                                rows: seq<Policy>, name: string)
    requires |stamps| >= Count(source) && ParseSource(u, source, fallback, stamps).Ok?
    requires forall k :: 0 <= k < Count(source) ==> NameOf(source, fallback, k) != name
    ensures Row(UpsertAll(rows, ParseSource(u, source, fallback, stamps).value), name) == Row(rows, name)
  {
    hide ParseSource, ParseRules, NameOf, UpsertAll;
    ParsedFields(u, source, fallback, stamps);
    UpsertAllSkips(rows, ParseSource(u, source, fallback, stamps).value, name);
  }
}
