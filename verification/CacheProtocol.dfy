/** The policy cache under every interleaving. A reader checks the cache, loads from the table and
    stores what it loaded, in three separate steps; a writer commits a statement and clears the
    cache, in two. */
module CacheProtocol {
  import opened Wrappers
  import opened Errors
  import opened Policy
  import opened PolicyOrder
  import opened PolicyEngine

  type Task = nat

  /** Where a call of `cached_policies` stands: `since` is the table version it began at, `floor`
      the newest version whose writer had cleared the cache by then, `from` the version its list
      was read at, `hit` whether the list came from the cache. */
  datatype Reader =
    | Missed(since: int, floor: int)
    | Loaded(list: seq<Policy>, from: nat, since: int, floor: int)
    | Returned(list: seq<Policy>, from: nat, since: int, floor: int, hit: bool)

  /** `history` holds every table state so far, the current one last. `cacheFrom` is the version
      the cached list was loaded at, `cacheSince` the version it was stored at. `pending` are the
      writers between commit and clear, with the version each committed; `cleared` is the newest
      version whose writer has cleared. */
  datatype State = State(
    history: seq<seq<Policy>>,
    cache: seq<Policy>,
    cacheFrom: nat,
    cacheSince: nat,
    readers: map<Task, Reader>,
    pending: map<Task, int>,
    cleared: int)

  datatype Action =
    | Check(reader: Task)
    | Load(reader: Task, list: seq<Policy>)
    | LoadFails(reader: Task)
    | Store(reader: Task)
    | Commit(writer: Task, rows: seq<Policy>)
    | Clear(writer: Task)

  function Init(rows: seq<Policy>): State {
    State([rows], [], 0, 0, map[], map[], 0)
  }

  function Now(s: State): int {
    |s.history| - 1
  }

  function TableOf(s: State): seq<Policy>
    requires s.history != []
  {
    s.history[Now(s)]
  }

  ghost predicate Enabled(s: State, a: Action) {
    s.history != [] &&
    match a
    case Check(r) => r !in s.readers || s.readers[r].Returned?
    case Load(r, list) => r in s.readers && s.readers[r].Missed? && ValidListing(list, TableOf(s))
    case LoadFails(r) => r in s.readers && s.readers[r].Missed?
    case Store(r) => r in s.readers && s.readers[r].Loaded?
    case Commit(w, _) => w !in s.pending
    case Clear(w) => w in s.pending
  }

  ghost function Next(s: State, a: Action): State
    requires Enabled(s, a)
  {
    match a
    case Check(r) =>
      s.(readers := s.readers[r := if s.cache != [] then Returned(s.cache, s.cacheFrom, Now(s), s.cleared, true)
                                   else Missed(Now(s), s.cleared)])
    case Load(r, list) => s.(readers := s.readers[r := Loaded(list, Now(s), s.readers[r].since, s.readers[r].floor)])
    case LoadFails(r) => s.(readers := s.readers - {r})
    case Store(r) =>
      var Loaded(list, from, since, floor) := s.readers[r];
      s.(cache := list, cacheFrom := from, cacheSince := Now(s),
         readers := s.readers[r := Returned(list, from, since, floor, false)])
    case Commit(w, rows) => s.(history := s.history + [rows], pending := s.pending[w := |s.history|])
    case Clear(w) => s.(cache := [], pending := s.pending - {w},
                       cleared := if s.pending[w] > s.cleared then s.pending[w] else s.cleared)
  }

  /** `s` is reached from the table `rows` by exactly these actions. */
  ghost predicate Reaches(rows: seq<Policy>, actions: seq<Action>, s: State)
    decreases |actions|, 1
  {
    if actions == [] then s == Init(rows)
    else exists before :: StepTo(rows, actions, before, s)
  }

  ghost predicate StepTo(rows: seq<Policy>, actions: seq<Action>, before: State, s: State)
    requires actions != []
    decreases |actions|, 0
  {
    Reaches(rows, actions[..|actions| - 1], before) &&
    Enabled(before, actions[|actions| - 1]) && s == Next(before, actions[|actions| - 1])
  }

  /** The list was a listing of the table at that version. */
  ghost predicate Occurred(s: State, list: seq<Policy>, from: nat) {
    from < |s.history| && ValidListing(list, s.history[from])
  }

  ghost predicate Inv(s: State) {
    s.history != [] &&
    (s.cache != [] ==> Occurred(s, s.cache, s.cacheFrom) && s.cacheFrom <= s.cacheSince) &&
    (forall r :: r in s.readers ==> s.readers[r].since <= Now(s)) &&
    (forall r :: r in s.readers && !s.readers[r].Missed? ==> Occurred(s, s.readers[r].list, s.readers[r].from)) &&
    (forall r :: r in s.readers && (s.readers[r].Loaded? || (s.readers[r].Returned? && !s.readers[r].hit)) ==>
       s.readers[r].since <= s.readers[r].from) &&
    (forall w :: w in s.pending ==> 0 <= s.pending[w] <= Now(s)) && 0 <= s.cleared <= Now(s) &&
    (s.cache != [] && s.pending == map[] ==> s.cacheSince == Now(s))
  }

  lemma StepKeepsInv(s: State, a: Action)
    requires Inv(s) && Enabled(s, a)
    ensures Inv(Next(s, a))
  {
    hide ValidListing;
    var t := Next(s, a);
    assert forall v: nat :: v < |s.history| ==> t.history[v] == s.history[v];
    match a
    case Store(r) =>
      assert Occurred(s, s.readers[r].list, s.readers[r].from);
    case Commit(w, _) =>
      assert w in t.pending;
    case _ =>
  }

  /** In every reachable state the cache and every list a reader holds or has returned are
      listings of a table state that has occurred, the list of a call that missed even of one that
      was current during the call; and while no writer is between commit and
      clear, no commit has happened since the cache was stored. */
  lemma {:induction false} AlwaysOccurred(rows: seq<Policy>, actions: seq<Action>, s: State)
    requires Reaches(rows, actions, s)
    ensures Inv(s)
    decreases |actions|
  {
    if actions != [] {
      var before :| StepTo(rows, actions, before, s);
      AlwaysOccurred(rows, actions[..|actions| - 1], before);
      StepKeepsInv(before, actions[|actions| - 1]);
    }
  }

  /** When the cache is fresh, exactly: with no writer between commit and clear, a filled cache
      lists the current table if and only if the enabled rows are the ones it was loaded from. */
  lemma FreshExactly(rows: seq<Policy>, actions: seq<Action>, s: State)
    requires Reaches(rows, actions, s) && s.pending == map[] && s.cache != []
    ensures s.history != [] && s.cacheFrom < |s.history| && s.cacheSince == Now(s)
    ensures ValidListing(s.cache, TableOf(s)) <==>
            multiset(EnabledRows(s.history[s.cacheFrom])) == multiset(EnabledRows(TableOf(s)))
  {
    AlwaysOccurred(rows, actions, s);
  }

  // ---------- runs in which no commit falls between a load and its store ----------

  ghost predicate NobodyLoaded(s: State) {
    forall r :: r in s.readers ==> !s.readers[r].Loaded?
  }

  ghost predicate ReachesQuietly(rows: seq<Policy>, actions: seq<Action>, s: State)
    decreases |actions|, 1
  {
    if actions == [] then s == Init(rows)
    else exists before :: QuietStepTo(rows, actions, before, s)
  }

  ghost predicate QuietStepTo(rows: seq<Policy>, actions: seq<Action>, before: State, s: State)
    requires actions != []
    decreases |actions|, 0
  {
    ReachesQuietly(rows, actions[..|actions| - 1], before) &&
    Enabled(before, actions[|actions| - 1]) && s == Next(before, actions[|actions| - 1]) &&
    (actions[|actions| - 1].Commit? ==> NobodyLoaded(before))
  }

  ghost predicate QuietInv(s: State) {
    Inv(s) &&
    (forall r :: r in s.readers && s.readers[r].Loaded? ==> s.readers[r].from == Now(s)) &&
    (s.cache != [] ==> s.cacheFrom == s.cacheSince >= s.cleared) &&
    (forall r :: r in s.readers && !s.readers[r].Missed? ==> s.readers[r].from >= s.readers[r].floor) &&
    (forall r :: r in s.readers ==> s.readers[r].floor <= s.cleared)
  }

  lemma StepKeepsQuiet(s: State, a: Action)
    requires QuietInv(s) && Enabled(s, a) && (a.Commit? ==> NobodyLoaded(s))
    ensures QuietInv(Next(s, a))
  {
    StepKeepsInv(s, a);
    hide Inv;
    match a
    case Store(r) =>
    case _ =>
  }

  lemma {:induction false} QuietRuns(rows: seq<Policy>, actions: seq<Action>, s: State)
    requires ReachesQuietly(rows, actions, s)
    ensures QuietInv(s) && Reaches(rows, actions, s)
    decreases |actions|
  {
    hide ValidListing;
    if actions != [] {
      var before :| QuietStepTo(rows, actions, before, s);
      hide Next, Enabled;
      QuietRuns(rows, actions[..|actions| - 1], before);
      StepKeepsQuiet(before, actions[|actions| - 1]);
      assert StepTo(rows, actions, before, s);
    }
  }

  /** In such runs, whenever no writer is between commit and clear, the cache is empty or lists
      the current table. */
  lemma QuietRunsStayFresh(rows: seq<Policy>, actions: seq<Action>, s: State)
    requires ReachesQuietly(rows, actions, s) && s.pending == map[]
    ensures s.history != [] && (s.cache == [] || ValidListing(s.cache, TableOf(s)))
  {
    QuietRuns(rows, actions, s);
  }

  /** And at any time, other writers pending or not: a call that began after a writer had cleared
      the cache returns a listing of a version no older than the one that writer committed. */
  lemma QuietReadsSeeClears(rows: seq<Policy>, actions: seq<Action>, s: State, r: Task)
    requires ReachesQuietly(rows, actions, s) && r in s.readers && s.readers[r].Returned?
    ensures Occurred(s, s.readers[r].list, s.readers[r].from) && s.readers[r].from >= s.readers[r].floor
  {
    QuietRuns(rows, actions, s);
  }

  // ---------- what one call sees, over the steps around it ----------

  /** `s` goes to `t` by exactly these actions; in a quiet run no commit falls between a load and its
      store. */
  ghost predicate Run(quiet: bool, s: State, actions: seq<Action>, t: State)
    decreases |actions|
  {
    if actions == [] then t == s
    else
      Enabled(s, actions[0]) && (quiet && actions[0].Commit? ==> NobodyLoaded(s)) &&
      Run(quiet, Next(s, actions[0]), actions[1..], t)
  }

  lemma {:induction false} SplitRun(quiet: bool, s: State, a: seq<Action>, b: seq<Action>, t: State) returns (m: State)
    requires Run(quiet, s, a + b, t)
    ensures Run(quiet, s, a, m) && Run(quiet, m, b, t)
    decreases |a|
  {
    hide Next, Enabled;
    if a == [] {
      assert a + b == b;
      m := s;
    } else {
      assert (a + b)[0] == a[0] && (a + b)[1..] == a[1..] + b;
      m := SplitRun(quiet, Next(s, a[0]), a[1..], b, t);
    }
  }

  lemma OneStep(quiet: bool, s: State, a: Action, rest: seq<Action>, t: State)
    requires Run(quiet, s, [a] + rest, t)
    ensures Enabled(s, a) && Run(quiet, Next(s, a), rest, t)
  {
    hide Next, Enabled;
    assert ([a] + rest)[1..] == rest;
  }

  lemma {:induction false} RunKeepsInv(quiet: bool, s: State, actions: seq<Action>, t: State)
    requires Run(quiet, s, actions, t) && Inv(s) && (quiet ==> QuietInv(s))
    ensures Inv(t) && (quiet ==> QuietInv(t))
    decreases |actions|
  {
    hide Next, Enabled, Inv, QuietInv;
    if actions != [] {
      StepKeepsInv(s, actions[0]);
      if quiet {
        StepKeepsQuiet(s, actions[0]);
      }
      RunKeepsInv(quiet, Next(s, actions[0]), actions[1..], t);
    }
  }

  /** Tables that have been stay in the history, and what is cleared stays cleared. */
  lemma {:induction false} RunRemembers(quiet: bool, s: State, actions: seq<Action>, t: State)
    requires Run(quiet, s, actions, t)
    ensures s.history <= t.history && s.cleared <= t.cleared
    decreases |actions|
  {
    if actions != [] {
      RunRemembers(quiet, Next(s, actions[0]), actions[1..], t);
    }
  }

  lemma {:induction false} StaysPending(quiet: bool, s: State, actions: seq<Action>, t: State, w: Task)
    requires Run(quiet, s, actions, t) && w in s.pending && Clear(w) !in actions
    ensures w in t.pending && t.pending[w] == s.pending[w]
    decreases |actions|
  {
    if actions != [] {
      assert actions[0] in actions;
      StaysPending(quiet, Next(s, actions[0]), actions[1..], t, w);
    }
  }

  predicate FromCache(reader: Reader) {
    reader.Returned? && reader.hit
  }

  /** What a call is noted with stays with it until it begins anew. */
  lemma {:induction false} CallKeeps(quiet: bool, s: State, actions: seq<Action>, t: State, r: Task)
    requires Run(quiet, s, actions, t) && Check(r) !in actions
    ensures r in t.readers ==>
              r in s.readers && t.readers[r].floor == s.readers[r].floor && t.readers[r].since == s.readers[r].since &&
              (FromCache(t.readers[r]) ==> FromCache(s.readers[r]))
    decreases |actions|
  {
    if actions != [] {
      assert actions[0] in actions;
      CallKeeps(quiet, Next(s, actions[0]), actions[1..], t, r);
    }
  }

  /** A call that finds the cache empty returns the listing of a table that was current at some time
      between its beginning and its end, whatever other calls and writers do meanwhile. */
  lemma MissedReadsAreCurrent(rows: seq<Policy>, before: seq<Action>, s: State, r: Task,
                              during: seq<Action>, t: State) returns (v: nat)
    requires Reaches(rows, before, s) && s.cache == [] && Check(r) !in during
    requires Run(false, s, [Check(r)] + during, t) && r in t.readers && t.readers[r].Returned?
    ensures s.history != [] && |s.history| - 1 <= v < |t.history| && s.history <= t.history
    ensures ValidListing(t.readers[r].list, t.history[v])
  {
    hide ValidListing, Reaches;
    AlwaysOccurred(rows, before, s);
    RunKeepsInv(false, s, [Check(r)] + during, t);
    RunRemembers(false, s, [Check(r)] + during, t);
    OneStep(false, s, Check(r), during, t);
    CallKeeps(false, Next(s, Check(r)), during, t, r);
    v := t.readers[r].from;
    assert Occurred(t, t.readers[r].list, v);
  }

  /** In quiet runs every writer is seen: a call that begins after a writer has cleared the cache
      returns the listing of the table that writer committed, or of a later one. */
  lemma ReadsSeeWrites(rows: seq<Policy>, before: seq<Action>, s: State, w: Task, newRows: seq<Policy>,
                       a: seq<Action>, b: seq<Action>, r: Task, c: seq<Action>, t: State) returns (v: nat)
    requires ReachesQuietly(rows, before, s)
    requires Run(true, s, [Commit(w, newRows)] + (a + ([Clear(w)] + (b + ([Check(r)] + c)))), t)
    requires Clear(w) !in a && Check(r) !in c && r in t.readers && t.readers[r].Returned?
    ensures |s.history| <= v < |t.history| && t.history[|s.history|] == newRows
    ensures ValidListing(t.readers[r].list, t.history[v])
  {
    hide ValidListing, ReachesQuietly, Reaches, Run;
    QuietRuns(rows, before, s);
    var rest4 := [Check(r)] + c;
    var rest3 := b + rest4;
    var rest2 := [Clear(w)] + rest3;
    RunKeepsInv(true, s, [Commit(w, newRows)] + (a + rest2), t);
    OneStep(true, s, Commit(w, newRows), a + rest2, t);
    var s1 := Next(s, Commit(w, newRows));
    var s2 := SplitRun(true, s1, a, rest2, t);
    StaysPending(true, s1, a, s2, w);
    OneStep(true, s2, Clear(w), rest3, t);
    var s3 := Next(s2, Clear(w));
    var s4 := SplitRun(true, s3, b, rest4, t);
    RunRemembers(true, s3, b, s4);
    OneStep(true, s4, Check(r), c, t);
    CallKeeps(true, Next(s4, Check(r)), c, t, r);
    RunRemembers(true, s1, a + rest2, t);
    assert s1.history[|s.history|] == newRows;
    v := t.readers[r].from;
    assert Occurred(t, t.readers[r].list, v);
  }

  /** Without that condition freshness fails: a reader loads, a writer deletes the row, commits
      and clears, and the reader stores the old list. */
  lemma StaleRun(p: Policy) returns (actions: seq<Action>, s: State)
    requires p.enabled
    ensures Reaches([p], actions, s) && s.pending == map[] && s.history != []
    ensures s.cache == [p] && TableOf(s) == [] && !ValidListing(s.cache, TableOf(s))
  {
    var a0, a1, a2, a3, a4 := Check(0), Load(0, [p]), Commit(1, []), Clear(1), Store(0);
    var s0 := Init([p]);
    assert EnabledRows([p]) == [p] + EnabledRows([]);
    var s1 := Take([p], [], s0, a0);
    var s2 := Take([p], [a0], s1, a1);
    var s3 := Take([p], [a0] + [a1], s2, a2);
    var s4 := Take([p], [a0] + [a1] + [a2], s3, a3);
    assert s4.readers[0] == Loaded([p], 0, 0, 0);
    s := Take([p], [a0] + [a1] + [a2] + [a3], s4, a4);
    actions := [a0] + [a1] + [a2] + [a3] + [a4];
    assert p in multiset(s.cache);
  }

  lemma Take(rows: seq<Policy>, actions: seq<Action>, s: State, a: Action) returns (t: State)
    requires Reaches(rows, actions, s) && Enabled(s, a)
    ensures t == Next(s, a) && Reaches(rows, actions + [a], t)
  {
    t := Next(s, a);
    assert (actions + [a])[..|actions|] == actions;
    assert StepTo(rows, actions + [a], s, t);
  }

  // ---------- whole operations ----------

  lemma QuietTake(rows: seq<Policy>, actions: seq<Action>, s: State, a: Action) returns (t: State)
    requires ReachesQuietly(rows, actions, s) && Enabled(s, a) && (a.Commit? ==> NobodyLoaded(s))
    ensures t == Next(s, a) && ReachesQuietly(rows, actions + [a], t)
  {
    t := Next(s, a);
    assert (actions + [a])[..|actions|] == actions;
    assert QuietStepTo(rows, actions + [a], s, t);
  }

  /** A whole read through the cache is a check, then, if it misses, a load and a store or a failed
      load: the steps leave the cache and the result that the engine's operation leaves. */
  lemma WholeReadIsSteps(rows: seq<Policy>, actions: seq<Action>, s: State, r: Task,
                         answer: Result<seq<Policy>, GuardError>, result: Result<seq<Policy>, GuardError>,
                         after: seq<Policy>)
    returns (steps: seq<Action>, t: State)
    requires ReachesQuietly(rows, actions, s) && s.history != [] && NobodyLoaded(s)
    requires r !in s.readers || s.readers[r].Returned?
    requires CanAnswer(TableOf(s), answer) && ReadsThrough(s.cache, answer, result, after)
    ensures ReachesQuietly(rows, actions + steps, t) && NobodyLoaded(t)
    ensures t.history == s.history && t.pending == s.pending && t.cache == after
    ensures if result.Ok? then r in t.readers && t.readers[r].Returned? && t.readers[r].list == result.value
            else r !in t.readers
  {
    hide ReachesQuietly, ValidListing;
    var checked := QuietTake(rows, actions, s, Check(r));
    if s.cache != [] {
      steps, t := [Check(r)], checked;
    } else if answer.Err? {
      t := QuietTake(rows, actions + [Check(r)], checked, LoadFails(r));
      steps := [Check(r), LoadFails(r)];
      assert actions + [Check(r)] + [LoadFails(r)] == actions + steps;
    } else {
      var loaded := QuietTake(rows, actions + [Check(r)], checked, Load(r, answer.value));
      t := QuietTake(rows, actions + [Check(r)] + [Load(r, answer.value)], loaded, Store(r));
      steps := [Check(r), Load(r, answer.value), Store(r)];
      assert actions + [Check(r)] + [Load(r, answer.value)] + [Store(r)] == actions + steps;
    }
  }

  /** A whole upsert or delete is a commit and a clear. */
  lemma WholeWriteIsSteps(rows: seq<Policy>, actions: seq<Action>, s: State, w: Task, newRows: seq<Policy>)
    returns (t: State)
    requires ReachesQuietly(rows, actions, s) && s.history != [] && NobodyLoaded(s) && w !in s.pending
    ensures ReachesQuietly(rows, actions + [Commit(w, newRows), Clear(w)], t) && NobodyLoaded(t)
    ensures t.history == s.history + [newRows] && t.pending == s.pending && t.cache == []
  {
    var committed := QuietTake(rows, actions, s, Commit(w, newRows));
    t := QuietTake(rows, actions + [Commit(w, newRows)], committed, Clear(w));
    assert actions + [Commit(w, newRows)] + [Clear(w)] == actions + [Commit(w, newRows), Clear(w)];
    assert t.pending == s.pending;
  }
}
