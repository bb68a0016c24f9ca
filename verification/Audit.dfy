/** The audit pipeline of `src/audit/mod.rs`: a bounded queue, a batching worker and a flush that
    empties the batch before it knows whether the commit succeeds. */
module Audit {
  import opened Wrappers
  import opened Errors
  import opened AuditEntry

  datatype Worker = Running | Stopped | Crashed

  /** One non-empty batch handed to the database: persisted whole or lost whole. */
  datatype Chunk = Chunk(entries: seq<Entry>, persisted: bool)

  /** `accepted` are the entries `write` has taken, in order; `chunks` the batches flushed so far;
      `dropped` what was in flight when the worker was torn down. */
  datatype Pipeline = Pipeline(
    batchSize: nat,
    queue: seq<Entry>,
    batch: seq<Entry>,
    sendersGone: bool,
    worker: Worker,
    log: seq<Entry>,
    accepted: seq<Entry>,
    chunks: seq<Chunk>,
    dropped: seq<Entry>)

  /** `failAt` is the step of the transaction the database refuses, if any, should the event
      trigger a flush: step 0 begins it, steps 1 to n insert, step n + 1 commits. */
  datatype Event =
    | Send(entry: Entry)
    | Receive(failAt: Option<nat>)
    | Tick(failAt: Option<nat>)
    | DropSenders
    | Crash

  function Fresh(batchSize: nat): Pipeline {
    Pipeline(if batchSize < 1 then 1 else batchSize, [], [], false, Running, [], [], [], [])
  }

  function Capacity(p: Pipeline): nat {
    p.batchSize * 2
  }

  predicate Enabled(p: Pipeline, e: Event) {
    match e
    case Send(_) => p.worker.Running? && !p.sendersGone && |p.queue| < Capacity(p)
    case Receive(_) => p.worker.Running? && (p.queue != [] || p.sendersGone)
    case Tick(_) => p.worker.Running?
    case DropSenders => true
    case Crash => p.worker.Running?
  }

  predicate Commits(n: nat, failAt: Option<nat>) {
    failAt.Some? ==> failAt.value > n + 1
  }

  function Flush(p: Pipeline, failAt: Option<nat>): Pipeline {
    if p.batch == [] then p
    else
      var ok := Commits(|p.batch|, failAt);
      p.(batch := [], chunks := p.chunks + [Chunk(p.batch, ok)], log := if ok then p.log + p.batch else p.log)
  }

  function Next(p: Pipeline, e: Event): Pipeline
    requires Enabled(p, e)
  {
    match e
    case Send(entry) => p.(queue := p.queue + [entry], accepted := p.accepted + [entry])
    case Receive(failAt) =>
      if p.queue != [] then
        var q := p.(queue := p.queue[1..], batch := p.batch + [p.queue[0]]);
        if |q.batch| >= p.batchSize then Flush(q, failAt) else q
      else Flush(p, failAt).(worker := Stopped)
    case Tick(failAt) => Flush(p, failAt)
    case DropSenders => p.(sendersGone := true)
    case Crash => p.(worker := Crashed, dropped := p.batch + p.queue, batch := [], queue := [])
  }

  function Flat(chunks: seq<Chunk>): seq<Entry> {
    if chunks == [] then [] else Flat(chunks[..|chunks| - 1]) + chunks[|chunks| - 1].entries
  }

  function Persisted(chunks: seq<Chunk>): seq<Entry> {
    if chunks == [] then []
    else
      var last := chunks[|chunks| - 1];
      Persisted(chunks[..|chunks| - 1]) + if last.persisted then last.entries else []
  }

  /** Conservation, in FIFO order, and the bounds of the two buffers. */
  ghost predicate Conserves(p: Pipeline) {
    Flat(p.chunks) + p.dropped + p.batch + p.queue == p.accepted &&
    p.log == Persisted(p.chunks) &&
    (forall c :: c in p.chunks ==> 1 <= |c.entries| <= p.batchSize) &&
    |p.batch| < p.batchSize && |p.queue| <= Capacity(p) &&
    (!p.worker.Running? ==> p.batch == [] && p.queue == []) &&
    (!p.worker.Crashed? ==> p.dropped == []) &&
    (p.worker.Stopped? ==> p.sendersGone)
  }

  lemma FlushConserves(p: Pipeline, failAt: Option<nat>)
    requires p.dropped == [] && |p.batch| <= p.batchSize
    requires forall c :: c in p.chunks ==> 1 <= |c.entries| <= p.batchSize
    requires p.log == Persisted(p.chunks)
    ensures var q := Flush(p, failAt);
            Flat(q.chunks) + q.batch == Flat(p.chunks) + p.batch && q.log == Persisted(q.chunks) &&
            forall c :: c in q.chunks ==> 1 <= |c.entries| <= q.batchSize
  {
    if p.batch != [] {
      assert (p.chunks + [Chunk(p.batch, Commits(|p.batch|, failAt))])[..|p.chunks|] == p.chunks;
    }
  }

  /** `p` conserves, except that its batch may be full. */
  ghost predicate ReadyToFlush(p: Pipeline) {
    Flat(p.chunks) + p.batch + p.queue == p.accepted && p.dropped == [] && p.worker.Running? &&
    p.log == Persisted(p.chunks) &&
    (forall c :: c in p.chunks ==> 1 <= |c.entries| <= p.batchSize) &&
    1 <= p.batchSize && |p.batch| <= p.batchSize && |p.queue| <= Capacity(p)
  }

  lemma ReadyUnlessFull(p: Pipeline)
    ensures ReadyToFlush(p) && |p.batch| < p.batchSize <==> Conserves(p) && p.worker.Running?
  {
    hide Flat, Persisted;
    if p.dropped == [] {
      assert Flat(p.chunks) + p.dropped == Flat(p.chunks);
    }
  }

  lemma FlushedConserves(p: Pipeline, failAt: Option<nat>)
    requires ReadyToFlush(p)
    ensures Conserves(Flush(p, failAt)) && Flush(p, failAt).batch == []
  {
    hide Flat, Persisted;
    FlushConserves(p, failAt);
    ReadyUnlessFull(Flush(p, failAt));
  }

  lemma TakenIsReady(p: Pipeline)
    requires Conserves(p) && p.worker.Running? && p.queue != []
    ensures ReadyToFlush(p.(queue := p.queue[1..], batch := p.batch + [p.queue[0]]))
  {
    hide Flat, Persisted;
    ReadyUnlessFull(p);
    assert p.queue == [p.queue[0]] + p.queue[1..];
    assert Flat(p.chunks) + (p.batch + [p.queue[0]]) + p.queue[1..] == Flat(p.chunks) + p.batch + p.queue;
  }

  lemma StepConserves(p: Pipeline, e: Event)
    requires Conserves(p) && Enabled(p, e)
    ensures Conserves(Next(p, e))
  {
    hide Flat, Persisted;
    ReadyUnlessFull(p);
    match e
    case Send(entry) =>
      assert Flat(p.chunks) + p.dropped + p.batch + (p.queue + [entry]) == p.accepted + [entry];
    case Receive(failAt) =>
      if p.queue != [] {
        var q := p.(queue := p.queue[1..], batch := p.batch + [p.queue[0]]);
        TakenIsReady(p);
        ReadyUnlessFull(q);
        FlushedConserves(q, failAt);
      } else {
        FlushedConserves(p, failAt);
      }
    case Tick(failAt) => FlushedConserves(p, failAt);
    case DropSenders =>
    case Crash =>
      assert Flat(p.chunks) + (p.batch + p.queue) + [] + [] == Flat(p.chunks) + p.dropped + p.batch + p.queue;
  }

  /** These entries have been handed to the database: in the log if the transaction commits, in the
      last chunk in any case. */
  ghost predicate Flushed(p: Pipeline, entries: seq<Entry>, failAt: Option<nat>, q: Pipeline) {
    if entries == [] then q.log == p.log && q.chunks == p.chunks
    else if failAt.Some? && failAt.value <= |entries| + 1 then
      q.log == p.log && q.chunks == p.chunks + [Chunk(entries, false)]
    else q.log == p.log + entries && q.chunks == p.chunks + [Chunk(entries, true)]
  }

  /** What each event does. A tick flushes whatever is in the batch. A receive takes one entry over
      and flushes exactly when that fills the batch; with nothing to take and no senders it flushes
      the rest and the worker stops. A send finds room for twice the batch size. A crash loses what
      is in flight, and nothing of the log. */
  lemma StepTells(p: Pipeline, e: Event)
    requires Conserves(p) && Enabled(p, e)
    ensures var q := Next(p, e);
            match e
            case Send(entry) =>
              |p.queue| < 2 * p.batchSize && q == p.(queue := p.queue + [entry], accepted := p.accepted + [entry])
            case Receive(failAt) =>
              q.accepted == p.accepted && q.dropped == [] && q.sendersGone == p.sendersGone &&
              if p.queue == [] then q.worker.Stopped? && q.queue == q.batch == [] && Flushed(p, p.batch, failAt, q)
              else
                var taken := p.batch + [p.queue[0]];
                q.worker.Running? && q.queue == p.queue[1..] &&
                if |taken| < p.batchSize then q.batch == taken && q.log == p.log && q.chunks == p.chunks
                else q.batch == [] && |taken| == p.batchSize && Flushed(p, taken, failAt, q)
            case Tick(failAt) =>
              q.worker.Running? && q.queue == p.queue && q.accepted == p.accepted && q.dropped == [] &&
              q.sendersGone == p.sendersGone && q.batch == [] && Flushed(p, p.batch, failAt, q)
            case DropSenders => q == p.(sendersGone := true)
            case Crash => q == p.(worker := Crashed, batch := [], queue := [], dropped := p.batch + p.queue)
  {
    hide Flat, Persisted;
  }

  /** While the worker runs a tick can come at any time, a send whenever there is room, a receive
      whenever there is an entry or nobody to send one. */
  lemma AlwaysOpen(p: Pipeline, entry: Entry, failAt: Option<nat>)
    requires p.worker.Running?
    ensures Enabled(p, Tick(failAt))
    ensures Enabled(p, Send(entry)) <==> !p.sendersGone && |p.queue| < 2 * p.batchSize
    ensures Enabled(p, Receive(failAt)) <==> p.sendersGone || p.queue != []
  {
  }

  // ---------- runs ----------

  /** The events are enabled one after the other, starting in `p`. */
  predicate Runs(p: Pipeline, events: seq<Event>)
    decreases |events|
  {
    events == [] || (Enabled(p, events[0]) && Runs(Next(p, events[0]), events[1..]))
  }

  function After(p: Pipeline, events: seq<Event>): Pipeline
    requires Runs(p, events)
    decreases |events|
  {
    if events == [] then p else After(Next(p, events[0]), events[1..])
  }

  lemma {:induction false} RunConserves(p: Pipeline, events: seq<Event>)
    requires Conserves(p) && Runs(p, events)
    ensures Conserves(After(p, events))
    decreases |events|
  {
    if events != [] {
      StepConserves(p, events[0]);
      RunConserves(Next(p, events[0]), events[1..]);
    }
  }

  lemma {:induction false} KeepsBatchSize(p: Pipeline, events: seq<Event>)
    requires Runs(p, events)
    ensures After(p, events).batchSize == p.batchSize
    decreases |events|
  {
    if events != [] {
      KeepsBatchSize(Next(p, events[0]), events[1..]);
    }
  }

  lemma {:induction false} RunsSnoc(p: Pipeline, events: seq<Event>, e: Event)
    requires Runs(p, events + [e])
    ensures Runs(p, events) && Enabled(After(p, events), e)
    ensures After(p, events + [e]) == Next(After(p, events), e)
    decreases |events|
  {
    var all := events + [e];
    if events == [] {
      assert all == [e] && all[1..] == [];
    } else {
      assert all[0] == events[0] && all[1..] == events[1..] + [e];
      RunsSnoc(Next(p, events[0]), events[1..], e);
    }
  }

  lemma {:induction false} AllPersisted(chunks: seq<Chunk>)
    requires forall c :: c in chunks ==> c.persisted
    ensures Persisted(chunks) == Flat(chunks)
  {
    if chunks != [] {
      AllPersisted(chunks[..|chunks| - 1]);
      assert chunks[|chunks| - 1] in chunks;
    }
  }

  /** Any run from a new writer conserves; once the worker has stopped, every accepted entry has
      been flushed, and the log holds exactly them if no flush failed. */
  lemma AuditConservation(batchSize: nat, events: seq<Event>)
    requires Runs(Fresh(batchSize), events)
    ensures var p := After(Fresh(batchSize), events);
            Conserves(p) && p.batchSize == (if batchSize < 1 then 1 else batchSize) &&
            |p.batch| < p.batchSize && |p.queue| <= 2 * p.batchSize &&
            (p.worker.Stopped? ==> Flat(p.chunks) == p.accepted) &&
            (p.worker.Stopped? && (forall c :: c in p.chunks ==> c.persisted) ==> p.log == p.accepted)
  {
    RunConserves(Fresh(batchSize), events);
    KeepsBatchSize(Fresh(batchSize), events);
    var p := After(Fresh(batchSize), events);
    if p.worker.Stopped? {
      assert Flat(p.chunks) + [] + [] + [] == Flat(p.chunks);
      if forall c :: c in p.chunks ==> c.persisted {
        AllPersisted(p.chunks);
      }
    }
  }

  /** After any run that ends in a tick, whatever was taken off the queue has been flushed; and if no
      flush failed, what is not in the log is still in the queue. */
  lemma TickLeavesNothingBehind(batchSize: nat, events: seq<Event>, failAt: Option<nat>)
    requires Runs(Fresh(batchSize), events + [Tick(failAt)])
    ensures var p := After(Fresh(batchSize), events + [Tick(failAt)]);
            p.batch == [] && Flat(p.chunks) + p.queue == p.accepted &&
            (AllCommitted(p) ==> p.log + p.queue == p.accepted)
  {
    hide Flat, Persisted, Runs, Next;
    RunsSnoc(Fresh(batchSize), events, Tick(failAt));
    AuditConservation(batchSize, events);
    var before := After(Fresh(batchSize), events);
    StepTells(before, Tick(failAt));
    StepConserves(before, Tick(failAt));
    var p := Next(before, Tick(failAt));
    assert Flat(p.chunks) + [] + [] + p.queue == Flat(p.chunks) + p.queue;
    if AllCommitted(p) {
      AllPersisted(p.chunks);
    }
  }

  ghost predicate AllFull(p: Pipeline) {
    forall c :: c in p.chunks ==> |c.entries| == p.batchSize
  }

  lemma {:induction false} StoppedStays(p: Pipeline, events: seq<Event>)
    requires Runs(p, events) && p.worker.Stopped?
    ensures After(p, events).worker.Stopped?
    decreases |events|
  {
    if events != [] {
      StoppedStays(Next(p, events[0]), events[1..]);
    }
  }

  lemma {:induction false} StaysFull(p: Pipeline, events: seq<Event>)
    requires Conserves(p) && AllFull(p) && Runs(p, events) && !After(p, events).worker.Stopped?
    requires forall e :: e in events ==> !e.Tick?
    ensures AllFull(After(p, events))
    decreases |events|
  {
    hide Conserves;
    if events != [] {
      var e, q := events[0], Next(p, events[0]);
      assert e in events && forall f :: f in events[1..] ==> f in events;
      StepConserves(p, e);
      StepTells(p, e);
      if q.worker.Stopped? {
        StoppedStays(q, events[1..]);
      }
      StaysFull(q, events[1..]);
    }
  }

  /** Without ticks, only full batches are flushed before the final one. */
  lemma OnlyFullBatches(batchSize: nat, events: seq<Event>)
    requires Runs(Fresh(batchSize), events) && forall e :: e in events ==> !e.Tick?
    requires !After(Fresh(batchSize), events).worker.Stopped?
    ensures AllFull(After(Fresh(batchSize), events))
  {
    StaysFull(Fresh(batchSize), events);
  }

  /** What is left to do before the worker stops. */
  function Remaining(p: Pipeline): nat {
    |p.queue| + if p.worker.Running? then 1 else 0
  }

  function ReceiveCount(events: seq<Event>): nat {
    if events == [] then 0 else (if events[0].Receive? then 1 else 0) + ReceiveCount(events[1..])
  }

  /** The flush an event may trigger would commit. */
  predicate Commit(e: Event) {
    (e.Receive? || e.Tick?) ==> e.failAt == None
  }

  predicate AllCommitted(p: Pipeline) {
    forall c :: c in p.chunks ==> c.persisted
  }

  /** Once the senders are gone, each receive takes exactly one off what remains and nothing else
      changes it. */
  lemma StepDrains(p: Pipeline, e: Event)
    requires Conserves(p) && p.sendersGone && Enabled(p, e) && !e.Crash?
    ensures var q := Next(p, e);
            q.sendersGone && q.accepted == p.accepted && (q.worker.Crashed? <==> p.worker.Crashed?) &&
            Remaining(q) == Remaining(p) - (if e.Receive? then 1 else 0) &&
            (AllCommitted(p) && Commit(e) ==> AllCommitted(q))
  {
  }

  /** So in any run from there without a crash, ticks wherever they come, the worker stops at
      exactly the `Remaining(p)`-th receive; and if its flushes commit, none of its chunks is lost. */
  lemma {:induction false} Drains(p: Pipeline, events: seq<Event>)
    requires Conserves(p) && p.sendersGone && Runs(p, events) && Crash !in events
    ensures var q := After(p, events);
            Conserves(q) && q.accepted == p.accepted && (q.worker.Crashed? <==> p.worker.Crashed?) &&
            Remaining(q) + ReceiveCount(events) == Remaining(p) &&
            (p.worker.Running? ==> (q.worker.Stopped? <==> ReceiveCount(events) == Remaining(p))) &&
            (AllCommitted(p) && (forall e :: e in events ==> Commit(e)) ==> AllCommitted(q))
    decreases |events|
  {
    if events != [] {
      assert events == [events[0]] + events[1..];
      StepConserves(p, events[0]);
      StepDrains(p, events[0]);
      Drains(Next(p, events[0]), events[1..]);
    }
  }

  function Receives(fails: seq<Option<nat>>): seq<Event> {
    seq(|fails|, k requires 0 <= k < |fails| => Receive(fails[k]))
  }

  /** And the worker can always get there. */
  lemma {:induction false} CanDrain(p: Pipeline, fails: seq<Option<nat>>)
    requires Conserves(p) && p.sendersGone && |fails| == Remaining(p)
    ensures Runs(p, Receives(fails)) && ReceiveCount(Receives(fails)) == Remaining(p)
    decreases |fails|
  {
    var events := Receives(fails);
    if p.worker.Running? {
      StepConserves(p, events[0]);
      StepDrains(p, events[0]);
      assert Receives(fails[1..]) == events[1..];
      CanDrain(Next(p, events[0]), fails[1..]);
    }
  }

  // ---------- the writer and its worker as objects ----------

  class AuditWriter {
    const batchSize: nat
    var queue: seq<Entry>
    var batch: seq<Entry>
    var sendersGone: bool
    var worker: Worker
    var log: seq<Entry>
    ghost var accepted: seq<Entry>
    ghost var chunks: seq<Chunk>
    ghost var dropped: seq<Entry>

    ghost function Snapshot(): Pipeline
      reads this
    {
      Pipeline(batchSize, queue, batch, sendersGone, worker, log, accepted, chunks, dropped)
    }

    constructor (batchSize: nat)
      ensures Snapshot() == Fresh(batchSize)
    {
      this.batchSize := if batchSize < 1 then 1 else batchSize;
      queue, batch, sendersGone, worker, log := [], [], false, Running, [];
      accepted, chunks, dropped := [], [], [];
    }

    /** `send` waits for room, so it is called when there is some or when the worker is gone. */
    method Write(entry: Entry) returns (r: Result<(), GuardError>)
      requires !sendersGone && (worker.Running? ==> Enabled(Snapshot(), Send(entry)))
      modifies this
      ensures old(worker).Running? ==> r.Ok? && Snapshot() == Next(old(Snapshot()), Send(entry))
      ensures !old(worker).Running? ==> r == Err(AuditChannelClosed) && Snapshot() == old(Snapshot())
    {
      if !worker.Running? {
        return Err(AuditChannelClosed);
      }
      queue := queue + [entry];
      accepted := accepted + [entry];
      return Ok(());
    }

    /** Takes the batch, then inserts it in one transaction. */
    method FlushBatch(failAt: Option<nat>) returns (r: Result<(), GuardError>)
      modifies this
      ensures Snapshot() == Flush(old(Snapshot()), failAt)
      ensures r.Ok? <==> old(batch) == [] || Commits(|old(batch)|, failAt)
    {
      if batch == [] {
        return Ok(());
      }
      var pending := batch;
      batch := [];
      chunks := chunks + [Chunk(pending, Commits(|pending|, failAt))];
      if failAt == Some(0) {
        return Err(DatabaseError("begin"));
      }
      var tx := [];
      for k := 0 to |pending|
        invariant tx == pending[..k]
        invariant failAt.Some? ==> failAt.value > k
      {
        if failAt == Some(k + 1) {
          return Err(DatabaseError("insert"));
        }
        tx := tx + [pending[k]];
      }
      if failAt == Some(|pending| + 1) {
        return Err(DatabaseError("commit"));
      }
      assert tx == pending;
      log := log + tx;
      return Ok(());
    }

    /** The worker's arm for the channel. */
    method OnReceive(failAt: Option<nat>)
      requires worker.Running? && (queue != [] || sendersGone)
      modifies this
      ensures Snapshot() == Next(old(Snapshot()), Receive(failAt))
    {
      if queue != [] {
        var entry := queue[0];
        queue := queue[1..];
        batch := batch + [entry];
        if |batch| >= batchSize {
          var _ := FlushBatch(failAt);
        }
      } else {
        var _ := FlushBatch(failAt);
        worker := Stopped;
      }
    }

    /** The worker's arm for the ticker. */
    method OnTick(failAt: Option<nat>)
      requires worker.Running?
      modifies this
      ensures Snapshot() == Next(old(Snapshot()), Tick(failAt))
    {
      var _ := FlushBatch(failAt);
    }

    /** The worker loop: one arm per turn, here in the order in which the runtime happens to pick
        them, with what the senders and the runtime do in between. Over any run the object goes
        through exactly the states of the state machine. */
    method Work(events: seq<Event>)
      requires Runs(Snapshot(), events)
      modifies this
      ensures Snapshot() == After(old(Snapshot()), events)
    {
      for k := 0 to |events|
        invariant Runs(Snapshot(), events[k..])
        invariant After(Snapshot(), events[k..]) == After(old(Snapshot()), events)
      {
        assert events[k..][1..] == events[k + 1..];
        match events[k] {
          case Send(entry) => var _ := Write(entry);
          case Receive(failAt) => OnReceive(failAt);
          case Tick(failAt) => OnTick(failAt);
          case DropSenders => sendersGone := true;
          case Crash =>
            dropped := batch + queue;
            worker, batch, queue := Crashed, [], [];
        }
      }
    }
  }
}
