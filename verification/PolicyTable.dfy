/** The policies table: the upsert and delete statements, and what any history of them leaves. */
module PolicyTable {
  import opened Wrappers
  import opened Policy

  /** What ON CONFLICT(name) keeps: the old id and creation time under the new definition. */
  function Merge(stored: Policy, p: Policy): Policy {
    p.(id := stored.id, createdAt := stored.createdAt)
  }

  /** INSERT ... ON CONFLICT(name) DO UPDATE. */
  function UpsertRow(rows: seq<Policy>, p: Policy): seq<Policy> {
    if rows == [] then [p]
    else if rows[0].name == p.name then [Merge(rows[0], p)] + rows[1..]
    else [rows[0]] + UpsertRow(rows[1..], p)
  }

  /** DELETE ... WHERE id. */
  function DeleteRow(rows: seq<Policy>, id: Uuid): seq<Policy> {
    if rows == [] then []
    else if rows[0].id == id then DeleteRow(rows[1..], id)
    else [rows[0]] + DeleteRow(rows[1..], id)
  }

  /** UNIQUE(name) and the primary key. */
  ghost predicate Keyed(rows: seq<Policy>) {
    forall i, j :: 0 <= i < j < |rows| ==> rows[i].name != rows[j].name && rows[i].id != rows[j].id
  }

  ghost predicate FreshId(rows: seq<Policy>, id: Uuid) {
    forall row :: row in rows ==> row.id != id
  }

  /** The row stored under a name. */
  function Row(rows: seq<Policy>, name: string): (r: Option<Policy>)
    ensures r.Some? ==> r.value in rows && r.value.name == name
    ensures r.None? ==> forall row :: row in rows ==> row.name != name
  {
    if rows == [] then None
    else if rows[0].name == name then Some(rows[0])
    else Row(rows[1..], name)
  }

  /** A row after the upsert has the id and the name of an old row, or those of the new one. */
  lemma {:induction false} UpsertIds(rows: seq<Policy>, p: Policy, row: Policy)
    requires row in UpsertRow(rows, p)
    ensures row.id == p.id || exists r :: r in rows && r.id == row.id
    ensures row.name == p.name || exists r :: r in rows && r.name == row.name
  {
    if rows != [] {
      assert rows == [rows[0]] + rows[1..];
      assert rows[0] in rows;
      if rows[0].name != p.name && row != rows[0] {
        UpsertIds(rows[1..], p, row);
      }
    }
  }

  lemma KeyedCons(row: Policy, rows: seq<Policy>)
    requires Keyed(rows) && forall r :: r in rows ==> r.name != row.name && r.id != row.id
    ensures Keyed([row] + rows)
  {
  }

  lemma {:induction false} UpsertKeepsKeys(rows: seq<Policy>, p: Policy)
    requires Keyed(rows) && FreshId(rows, p.id)
    ensures Keyed(UpsertRow(rows, p))
  {
    if rows != [] {
      assert rows == [rows[0]] + rows[1..];
      assert forall r :: r in rows[1..] ==> r.name != rows[0].name && r.id != rows[0].id;
      if rows[0].name == p.name {
        KeyedCons(Merge(rows[0], p), rows[1..]);
      } else {
        UpsertKeepsKeys(rows[1..], p);
        forall row | row in UpsertRow(rows[1..], p)
          ensures row.name != rows[0].name && row.id != rows[0].id
        {
          UpsertIds(rows[1..], p, row);
          assert rows[0] in rows;
        }
        KeyedCons(rows[0], UpsertRow(rows[1..], p));
      }
    }
  }

  /** The row of a new name is the new definition. The row of a stored name takes over its
      description, rules, priority, enabled flag and update time, and keeps id and creation time.
      No other name is affected. */
  lemma {:induction false} UpsertUpdates(rows: seq<Policy>, p: Policy, name: string)
    ensures Row(UpsertRow(rows, p), name) ==
            if name != p.name then Row(rows, name)
            else
              match Row(rows, name)
              case None => Some(p)
              case Some(stored) =>
                Some(Policy(stored.id, name, p.description, p.rules, p.priority, p.enabled,
                            stored.createdAt, p.updatedAt))
  {
    if rows != [] && rows[0].name != p.name {
      UpsertUpdates(rows[1..], p, name);
      assert ([rows[0]] + UpsertRow(rows[1..], p))[1..] == UpsertRow(rows[1..], p);
    } else if rows != [] {
      assert ([Merge(rows[0], p)] + rows[1..])[1..] == rows[1..];
    }
  }

  lemma {:induction false} DeleteDropsOnly(rows: seq<Policy>, id: Uuid)
    ensures forall row :: row in DeleteRow(rows, id) <==> row in rows && row.id != id
  {
    if rows != [] {
      assert rows == [rows[0]] + rows[1..];
      DeleteDropsOnly(rows[1..], id);
    }
  }

  lemma {:induction false} DeleteKeepsKeys(rows: seq<Policy>, id: Uuid)
    requires Keyed(rows)
    ensures Keyed(DeleteRow(rows, id))
  {
    if rows != [] {
      DeleteKeepsKeys(rows[1..], id);
      DeleteDropsOnly(rows[1..], id);
      var left := DeleteRow(rows[1..], id);
      forall k | 0 <= k < |left|
        ensures left[k].name != rows[0].name && left[k].id != rows[0].id
      {
        assert left[k] in left;
        var j :| 0 <= j < |rows[1..]| && rows[1..][j] == left[k];
        assert rows[j + 1] == left[k];
      }
    }
  }

  lemma DeleteRemoves(rows: seq<Policy>, id: Uuid, name: string)
    requires Keyed(rows)
    ensures Row(DeleteRow(rows, id), name) ==
            if Row(rows, name).Some? && Row(rows, name).value.id == id then None else Row(rows, name)
  {
    DeleteDropsOnly(rows, id);
    var left := DeleteRow(rows, id);
    if Row(left, name).Some? && Row(rows, name).Some? {
      OneRowPerName(rows, Row(left, name).value, Row(rows, name).value);
    }
  }

  lemma OneRowPerName(rows: seq<Policy>, a: Policy, b: Policy)
    requires Keyed(rows) && a in rows && b in rows && a.name == b.name
    ensures a == b
  {
    var i :| 0 <= i < |rows| && rows[i] == a;
    var j :| 0 <= j < |rows| && rows[j] == b;
    assert !(i < j) && !(j < i);
  }

  // ---------- histories ----------

  datatype Op = Upsert(p: Policy) | Remove(id: Uuid)

  function Run(ops: seq<Op>): seq<Policy> {
    if ops == [] then []
    else
      var rows := Run(ops[..|ops| - 1]);
      match ops[|ops| - 1]
      case Upsert(p) => UpsertRow(rows, p)
      case Remove(id) => DeleteRow(rows, id)
  }

  /** Every upsert brings an id of its own. */
  ghost predicate FreshIds(ops: seq<Op>) {
    forall i, j :: 0 <= i < j < |ops| && ops[i].Upsert? && ops[j].Upsert? ==> ops[i].p.id != ops[j].p.id
  }

  /** The upsert that brought `name` into the table, unless a later delete of that id took it out. */
  function Birth(ops: seq<Op>, name: string): (r: Option<Policy>)
    ensures r.Some? ==> r.value.name == name
  {
    if ops == [] then None
    else
      var before := Birth(ops[..|ops| - 1], name);
      match ops[|ops| - 1]
      case Upsert(p) => if p.name == name && before.None? then Some(p) else before
      case Remove(id) => if before.Some? && before.value.id == id then None else before
  }

  /** The latest upsert of `name`. */
  function Latest(ops: seq<Op>, name: string): (r: Option<Policy>)
    ensures r.Some? ==> r.value.name == name
  {
    if ops == [] then None
    else
      match ops[|ops| - 1]
      case Upsert(p) => if p.name == name then Some(p) else Latest(ops[..|ops| - 1], name)
      case Remove(_) => Latest(ops[..|ops| - 1], name)
  }

  lemma {:induction false} IdsComeFromOps(ops: seq<Op>)
    ensures forall row :: row in Run(ops) ==> exists k :: 0 <= k < |ops| && ops[k].Upsert? && ops[k].p.id == row.id
  {
    if ops != [] {
      var front := ops[..|ops| - 1];
      IdsComeFromOps(front);
      assert forall k :: 0 <= k < |front| ==> front[k] == ops[k];
      forall row | row in Run(ops)
        ensures exists k :: 0 <= k < |ops| && ops[k].Upsert? && ops[k].p.id == row.id
      {
        match ops[|ops| - 1]
        case Upsert(p) =>
          UpsertIds(Run(front), p, row);
          if row.id != p.id {
            var r :| r in Run(front) && r.id == row.id;
            var k :| 0 <= k < |front| && front[k].Upsert? && front[k].p.id == r.id;
            assert ops[k].p.id == row.id;
          }
        case Remove(id) =>
          DeleteDropsOnly(Run(front), id);
          var k :| 0 <= k < |front| && front[k].Upsert? && front[k].p.id == row.id;
          assert ops[k].p.id == row.id;
      }
    }
  }

  /** After any run with fresh ids the names and the ids are unique, and a name is in the table
      exactly while it has a birth: with the description, rules, priority, enabled flag and update
      time of its latest upsert, under the id and creation time of its birth. */
  lemma {:induction false} TableRefinesHistory(ops: seq<Op>, name: string)
    requires FreshIds(ops)
    ensures Keyed(Run(ops))
    ensures Birth(ops, name).Some? ==> Latest(ops, name).Some?
    ensures Row(Run(ops), name) ==
            match Birth(ops, name)
            case None => None
            case Some(birth) =>
              var latest := Latest(ops, name).value;
              Some(Policy(birth.id, name, latest.description, latest.rules, latest.priority, latest.enabled,
                          birth.createdAt, latest.updatedAt))
  {
    if ops != [] {
      var front := ops[..|ops| - 1];
      TableRefinesHistory(front, name);
      var rows := Run(front);
      match ops[|ops| - 1]
      case Upsert(p) =>
        IdsComeFromOps(front);
        forall row | row in rows
          ensures row.id != p.id
        {
          var k :| 0 <= k < |front| && front[k].Upsert? && front[k].p.id == row.id;
          assert ops[k] == front[k];
        }
        UpsertKeepsKeys(rows, p);
        UpsertUpdates(rows, p, name);
      case Remove(id) =>
        DeleteKeepsKeys(rows, id);
        DeleteRemoves(rows, id, name);
    }
  }
}
