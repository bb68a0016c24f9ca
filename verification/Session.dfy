/** Sessions, `src/session.rs`: the table, tokens, expiry and revocation over whole runs, paging.
    Times are nanoseconds since the Unix epoch; the table stores milliseconds. Signing and
    verifying a token are trusted inverses, and `leeway` is the tolerance, in seconds, of the
    JWT library on `exp` (section 4.1.4 of RFC 7519). */
module Session {
  import opened Wrappers
  import opened Errors
  import opened Policy
  import opened Words

  const NS_PER_MS: int := 1_000_000
  const NS_PER_S: int := 1_000_000_000

  datatype Row = Row(
    agentId: Uuid,
    workspaceId: Uuid,
    role: string,
    scopes: seq<string>,
    createdAtMs: int,
    expiresAtMs: int,
    revoked: bool)

  datatype Claims = Claims(
    sub: Uuid,
    agentId: Uuid,
    workspaceId: Uuid,
    role: string,
    scopes: seq<string>,
    exp: int)

  /** A token signed with the secret of this guard, or any other text. */
  datatype Token = Signed(claims: Claims) | Foreign(text: string)

  datatype GuardSession = GuardSession(
    id: Uuid,
    agentId: Uuid,
    workspaceId: Uuid,
    role: string,
    scopes: seq<string>,
    expiresAt: int,
    token: Token)

  datatype Request = Request(agentId: Uuid, workspaceId: Uuid, role: string, scopes: seq<string>, ttlSecs: nat)

  type Rows = map<Uuid, Row>

  function ExpiresAt(r: Request, now: int): int {
    now + AsI64(r.ttlSecs) * NS_PER_S
  }

  function RowOf(r: Request, now: int): Row {
    Row(r.agentId, r.workspaceId, r.role, r.scopes, now / NS_PER_MS, ExpiresAt(r, now) / NS_PER_MS, false)
  }

  function SessionOf(id: Uuid, r: Request, now: int): GuardSession {
    var exp := AsUsize(ExpiresAt(r, now) / NS_PER_S);
    GuardSession(id, r.agentId, r.workspaceId, r.role, r.scopes, ExpiresAt(r, now),
                 Signed(Claims(id, r.agentId, r.workspaceId, r.role, r.scopes, exp)))
  }

  /** The stored expiry, in nanoseconds again. */
  function StoredExpiry(row: Row): int {
    row.expiresAtMs * NS_PER_MS
  }

  predicate JwtAccepts(claims: Claims, now: int, leeway: nat) {
    claims.exp >= now / NS_PER_S - leeway
  }

  function Active(rows: Rows, id: Uuid, now: int): Result<(), GuardError> {
    if id !in rows then Err(InvalidToken)
    else if rows[id].revoked then Err(SessionRevoked)
    else if StoredExpiry(rows[id]) <= now then Err(SessionExpired)
    else Ok(())
  }

  function Validated(rows: Rows, token: Token, now: int, leeway: nat): Result<GuardSession, GuardError> {
    if token.Foreign? || !JwtAccepts(token.claims, now, leeway) then Err(InvalidToken)
    else
      var id := token.claims.sub;
      match Active(rows, id, now)
      case Err(e) => Err(e)
      case Ok(_) =>
        var row := rows[id];
        Ok(GuardSession(id, row.agentId, row.workspaceId, row.role, row.scopes, StoredExpiry(row), token))
  }

  // ---------- runs ----------

  datatype State = State(rows: Rows, clock: int)

  /** Inserting an id that is taken violates the primary key and changes nothing. */
  datatype Event =
    | Create(id: Uuid, request: Request)
    | Revoke(id: Uuid)
    | Elapse(ns: nat)

  function Next(s: State, e: Event): State {
    match e
    case Create(id, r) => if id in s.rows then s else s.(rows := s.rows[id := RowOf(r, s.clock)])
    case Revoke(id) => if id in s.rows then s.(rows := s.rows[id := s.rows[id].(revoked := true)]) else s
    case Elapse(ns) => s.(clock := s.clock + ns)
  }

  function After(s: State, events: seq<Event>): State
    decreases |events|
  {
    if events == [] then s else After(Next(s, events[0]), events[1..])
  }

  /** A row once stored is never lost, and nothing in it changes but the revocation mark, which
      is set exactly by revoking that id. */
  lemma {:induction false} RowsPersist(s: State, events: seq<Event>, id: Uuid)
    requires id in s.rows
    ensures var t := After(s, events);
            s.clock <= t.clock && id in t.rows &&
            t.rows[id] == s.rows[id].(revoked := s.rows[id].revoked || Revoke(id) in events)
    decreases |events|
  {
    if events != [] {
      assert events == [events[0]] + events[1..];
      RowsPersist(Next(s, events[0]), events[1..], id);
    }
  }

  function Elapsed(events: seq<Event>): nat {
    if events == [] then 0 else (if events[0].Elapse? then events[0].ns else 0) + Elapsed(events[1..])
  }

  /** The clock moves by what elapses, and by nothing else. */
  lemma {:induction false} ClockMoves(s: State, events: seq<Event>)
    ensures After(s, events).clock == s.clock + Elapsed(events)
    decreases |events|
  {
    if events != [] {
      ClockMoves(Next(s, events[0]), events[1..]);
    }
  }

  /** And a row comes from nowhere but a creation of its id. */
  lemma {:induction false} RowsAreCreated(s: State, events: seq<Event>, id: Uuid)
    ensures id in After(s, events).rows <==>
            id in s.rows || exists k :: 0 <= k < |events| && events[k].Create? && events[k].id == id
    decreases |events|
  {
    if events != [] {
      assert events == [events[0]] + events[1..];
      RowsAreCreated(Next(s, events[0]), events[1..], id);
      assert forall k :: 0 < k < |events| ==> events[k] == events[1..][k - 1];
      assert forall k :: 0 <= k < |events| - 1 ==> events[1..][k] == events[k + 1];
    }
  }

  /** Once a session is revoked, or the clock has reached its stored expiry, no later check of that
      id succeeds, whatever token is shown. */
  lemma DeadStaysDead(s: State, events: seq<Event>, id: Uuid, token: Token, leeway: nat)
    requires id in s.rows && (s.rows[id].revoked || StoredExpiry(s.rows[id]) <= s.clock)
    ensures var t := After(s, events);
            Active(t.rows, id, t.clock).Err? &&
            (token.Signed? && token.claims.sub == id ==> Validated(t.rows, token, t.clock, leeway).Err?)
  {
    RowsPersist(s, events, id);
  }

  /** The expiry of a session created at `now`: `ttlSecs` seconds later. The cast to a signed
      word turns 2^63 seconds and more into a time before `now`. */
  function Expiry(r: Request, now: int): int
    requires r.ttlSecs < 0x1_0000_0000_0000_0000
  {
    if r.ttlSecs < 0x8000_0000_0000_0000 then now + r.ttlSecs * 1_000_000_000
    else now - (0x1_0000_0000_0000_0000 - r.ttlSecs) * 1_000_000_000
  }

  /** What creating a session stores and returns, field by field. The row keeps whole
      milliseconds, the claim whole seconds. */
  lemma CreatedFields(s: State, id: Uuid, r: Request)
    requires id !in s.rows && r.ttlSecs < TWO_TO_THE_64
    ensures var row, session := Next(s, Create(id, r)).rows[id], SessionOf(id, r, s.clock);
            var expiry := Expiry(r, s.clock);
            row == Row(r.agentId, r.workspaceId, r.role, r.scopes, s.clock / 1_000_000, expiry / 1_000_000, false) &&
            session.(token := Foreign("")) ==
              GuardSession(id, r.agentId, r.workspaceId, r.role, r.scopes, expiry, Foreign("")) &&
            session.token.Signed? && session.token.claims.(exp := 0) ==
              Claims(id, r.agentId, r.workspaceId, r.role, r.scopes, 0) &&
            (0 <= expiry / 1_000_000_000 < TWO_TO_THE_64 ==> session.token.claims.exp == expiry / 1_000_000_000)
    ensures forall other :: other != id ==>
              (other in Next(s, Create(id, r)).rows <==> other in s.rows) &&
              (other in s.rows ==> Next(s, Create(id, r)).rows[other] == s.rows[other])
  {
  }

  /** The active sessions are exactly the stored, unrevoked ones whose expiry, in milliseconds, is
      ahead; each other check has its error, in this order. */
  lemma ActiveExactly(rows: Rows, id: Uuid, now: int)
    ensures Active(rows, id, now).Ok? <==>
            id in rows && !rows[id].revoked && now < rows[id].expiresAtMs * 1_000_000
    ensures Active(rows, id, now) == Err(InvalidToken) <==> id !in rows
    ensures Active(rows, id, now) == Err(SessionRevoked) <==> id in rows && rows[id].revoked
  {
  }

  /** Only a token signed here, not past its claimed second by more than the tolerance, for an
      active session, validates; a token of other making is invalid whatever the table holds. The
      session has the fields of the row and the token shown. */
  lemma ValidatedExactly(rows: Rows, token: Token, now: int, leeway: nat)
    ensures Validated(rows, token, now, leeway).Ok? <==>
            token.Signed? && now / 1_000_000_000 <= token.claims.exp + leeway && Active(rows, token.claims.sub, now).Ok?
    ensures token.Foreign? || token.claims.exp + leeway < now / 1_000_000_000 ==>
              Validated(rows, token, now, leeway) == Err(InvalidToken)
    ensures var r := Validated(rows, token, now, leeway);
            r.Ok? ==>
              var id := token.claims.sub;
              id in rows && r.value == GuardSession(id, rows[id].agentId, rows[id].workspaceId, rows[id].role,
                                                    rows[id].scopes, rows[id].expiresAtMs * 1_000_000, token)
  {
  }

  /** The token of a new session, after any further run: the library accepts it until the clock
      is more than the tolerance past its expiry, in seconds; then it validates exactly while the
      id has not been revoked and the stored expiry is ahead, to the same session with its expiry
      truncated to milliseconds. Each failure has its error, in this order. */
  lemma TokenLife(s: State, id: Uuid, r: Request, events: seq<Event>, leeway: nat)
    requires id !in s.rows && 0 <= s.clock && r.ttlSecs < TWO_TO_THE_64
    requires Expiry(r, s.clock) / 1_000_000_000 < TWO_TO_THE_63
    ensures var session := SessionOf(id, r, s.clock);
            var t := After(Next(s, Create(id, r)), events);
            var expiry := Expiry(r, s.clock) / 1_000_000 * 1_000_000;
            var active :=
              if Revoke(id) in events then Err(SessionRevoked)
              else if t.clock >= expiry then Err(SessionExpired)
              else Ok(());
            Active(t.rows, id, t.clock) == active &&
            Validated(t.rows, session.token, t.clock, leeway) ==
              (if !JwtAccepts(session.token.claims, t.clock, leeway) then Err(InvalidToken)
               else if active.Err? then Err(active.error)
               else Ok(session.(expiresAt := expiry))) &&
            (t.clock < expiry ==> JwtAccepts(session.token.claims, t.clock, leeway)) &&
            (0 <= Expiry(r, s.clock) ==>
               (JwtAccepts(session.token.claims, t.clock, leeway) <==>
                t.clock / 1_000_000_000 <= Expiry(r, s.clock) / 1_000_000_000 + leeway))
  {
    RowsPersist(Next(s, Create(id, r)), events, id);
    var t := After(Next(s, Create(id, r)), events);
    var expires := ExpiresAt(r, s.clock);
    assert expires == Expiry(r, s.clock);
    if 0 <= expires {
      assert AsUsize(expires / NS_PER_S) == expires / NS_PER_S;
    } else {
      assert expires / NS_PER_MS * NS_PER_MS <= expires < 0 <= t.clock;
    }
  }

  /** So a session of 2^63 seconds or more is born expired, and one of fewer, unless it is revoked,
      validates until its seconds have elapsed, up to the millisecond in which they have. */
  lemma SessionLifetime(s: State, id: Uuid, r: Request, events: seq<Event>, leeway: nat)
    requires id !in s.rows && 0 <= s.clock && r.ttlSecs < TWO_TO_THE_64
    requires Expiry(r, s.clock) / 1_000_000_000 < TWO_TO_THE_63 && Revoke(id) !in events
    ensures var t := After(Next(s, Create(id, r)), events);
            var now := s.clock + Elapsed(events);
            t.clock == now &&
            (Validated(t.rows, SessionOf(id, r, s.clock).token, now, leeway).Ok? <==>
             r.ttlSecs < 0x8000_0000_0000_0000 && now / 1_000_000 < s.clock / 1_000_000 + r.ttlSecs * 1_000)
  {
    hide After, Validated, Active, JwtAccepts, SessionOf;
    TokenLife(s, id, r, events, leeway);
    ClockMoves(Next(s, Create(id, r)), events);
    if r.ttlSecs < 0x8000_0000_0000_0000 {
      InMillis(s.clock, s.clock + Elapsed(events), r.ttlSecs);
    } else {
      assert Expiry(r, s.clock) < s.clock;
    }
  }

  lemma InMillis(from: nat, now: nat, seconds: nat)
    ensures now < (from + seconds * 1_000_000_000) / 1_000_000 * 1_000_000 <==>
            now / 1_000_000 < from / 1_000_000 + seconds * 1_000
  {
    assert (from + seconds * 1_000_000_000) / 1_000_000 == from / 1_000_000 + seconds * 1_000;
  }

  // ---------- listing ----------

  datatype Record = Record(id: Uuid, row: Row)

  datatype ListPage = ListPage(items: seq<Record>, nextOffset: Option<nat>)

  /** What the SELECT lists before LIMIT and OFFSET: the active rows of the agent, each once,
      newest first; SQL leaves the order of ties open. */
  ghost predicate ActiveListing(rows: Rows, agent: Uuid, now: int, listing: seq<Record>) {
    (forall i, j :: 0 <= i < j < |listing| ==>
       listing[i].id != listing[j].id && listing[i].row.createdAtMs >= listing[j].row.createdAtMs) &&
    forall r :: r in listing <==>
      r.id in rows && rows[r.id] == r.row && r.row.agentId == agent && !r.row.revoked &&
      r.row.expiresAtMs > now / NS_PER_MS
  }

  /** The rows listed are those of the agent that an activity check accepts, all of them. */
  lemma ListedIsActive(rows: Rows, agent: Uuid, now: int, listing: seq<Record>, id: Uuid)
    requires ActiveListing(rows, agent, now, listing)
    ensures (exists k :: 0 <= k < |listing| && listing[k].id == id) <==>
            Active(rows, id, now).Ok? && rows[id].agentId == agent
    ensures forall k :: 0 <= k < |listing| ==> listing[k].id in rows && listing[k].row == rows[listing[k].id]
  {
    if Active(rows, id, now).Ok? && rows[id].agentId == agent {
      assert Record(id, rows[id]) in listing;
    }
    assert forall k :: 0 <= k < |listing| ==> listing[k] in listing;
  }

  /** LIMIT and OFFSET on signed values: a negative limit is none, a negative offset is zero. */
  function Window(listing: seq<Record>, limit: int, offset: int): seq<Record> {
    var from := if offset < 0 then 0 else if offset < |listing| then offset else |listing|;
    var rest := listing[from..];
    if 0 <= limit < |rest| then rest[..limit] else rest
  }

  lemma WindowIsActive(rows: Rows, agent: Uuid, now: int, listing: seq<Record>, limit: int, offset: int)
    requires ActiveListing(rows, agent, now, listing)
    ensures var items := Window(listing, limit, offset);
            (forall r :: r in items ==>
               r.id in rows && rows[r.id] == r.row && r.row.agentId == agent && Active(rows, r.id, now).Ok?) &&
            forall i, j :: 0 <= i < j < |items| ==> items[i].row.createdAtMs >= items[j].row.createdAtMs
  {
    var items := Window(listing, limit, offset);
    var from := if offset < 0 then 0 else if offset < |listing| then offset else |listing|;
    assert items <= listing[from..];
    assert forall k :: 0 <= k < |items| ==> items[k] == listing[from + k];
    forall r | r in items
      ensures r.id in rows && rows[r.id] == r.row && r.row.agentId == agent && Active(rows, r.id, now).Ok?
    {
      assert r in listing;
      assert r.row.expiresAtMs > now / NS_PER_MS;
    }
  }

  function PageAt(listing: seq<Record>, limit: nat, offset: nat): ListPage {
    var items := Window(listing, AsI64(limit), AsI64(offset));
    ListPage(items, if |items| == limit then Some(offset + limit) else None)
  }

  /** The pages a client gets that follows `next_offset` from `offset`. */
  function Pages(listing: seq<Record>, limit: nat, offset: nat): seq<ListPage>
    requires 1 <= limit < TWO_TO_THE_64 && offset <= |listing| < TWO_TO_THE_63
    decreases |listing| - offset
  {
    var page := PageAt(listing, limit, offset);
    if page.nextOffset.None? then [page] else [page] + Pages(listing, limit, page.nextOffset.value)
  }

  function Items(pages: seq<ListPage>): seq<Record> {
    if pages == [] then [] else pages[0].items + Items(pages[1..])
  }

  lemma PageIsPrefix(listing: seq<Record>, limit: nat, offset: nat)
    requires 1 <= limit < TWO_TO_THE_64 && offset <= |listing| < TWO_TO_THE_63
    ensures var page := PageAt(listing, limit, offset);
            if |listing| - offset < limit then page == ListPage(listing[offset..], None)
            else page == ListPage(listing[offset..offset + limit], Some(offset + limit))
  {
    assert listing[offset..][..|listing| - offset] == listing[offset..];
    if limit <= |listing| - offset {
      assert AsI64(limit) == limit;
      assert listing[offset..][..limit] == listing[offset..offset + limit];
    }
  }

  lemma {:induction false} PagesCover(listing: seq<Record>, limit: nat, offset: nat)
    requires 1 <= limit < TWO_TO_THE_64 && offset <= |listing| < TWO_TO_THE_63
    ensures Items(Pages(listing, limit, offset)) == listing[offset..]
    ensures (|Pages(listing, limit, offset)| - 1) * limit <= |listing| - offset
                                                          < |Pages(listing, limit, offset)| * limit
    decreases |listing| - offset
  {
    hide PageAt;
    PageIsPrefix(listing, limit, offset);
    var page, pages := PageAt(listing, limit, offset), Pages(listing, limit, offset);
    if page.nextOffset.None? {
      assert pages == [page] && Items(pages) == page.items + Items([]);
    } else {
      var rest := Pages(listing, limit, offset + limit);
      PagesCover(listing, limit, offset + limit);
      assert pages == [page] + rest && pages[1..] == rest;
      assert listing[offset..] == page.items + listing[offset + limit..];
      assert |rest| * limit == (|rest| - 1) * limit + limit && |pages| * limit == |rest| * limit + limit;
    }
  }

  lemma MultiplesGrow(x: nat, y: nat, d: nat)
    ensures x <= y ==> x * d <= y * d
  {
    if x <= y {
      assert y * d == x * d + (y - x) * d;
    }
  }

  lemma QuotientOf(a: nat, d: nat, k: nat)
    requires 1 <= d && k * d <= a < (k + 1) * d
    ensures a / d == k
  {
    var q := a / d;
    assert q * d <= a < (q + 1) * d;
    MultiplesGrow(q + 1, k, d);
    MultiplesGrow(k + 1, q, d);
  }

  /** Following `next_offset` from 0 visits the whole listing, each row once and in order, in
      exactly floor(n / limit) + 1 pages. */
  lemma PagesAreComplete(listing: seq<Record>, limit: nat)
    requires 1 <= limit < TWO_TO_THE_64 && |listing| < TWO_TO_THE_63
    ensures Items(Pages(listing, limit, 0)) == listing
    ensures |Pages(listing, limit, 0)| == |listing| / limit + 1
  {
    PagesCover(listing, limit, 0);
    assert listing[0..] == listing;
    var k := |Pages(listing, limit, 0)| - 1;
    QuotientOf(|listing|, limit, k);
  }

  /** An offset of 2^63 or more is negative to the database, which starts over with the first row. */
  lemma HugeOffsetStartsOver(listing: seq<Record>, limit: nat, offset: nat)
    requires 1 <= limit < TWO_TO_THE_63 <= offset < TWO_TO_THE_64
    ensures PageAt(listing, limit, offset).items ==
            if |listing| <= limit then listing else listing[..limit]
  {
    assert listing[0..] == listing;
  }

  /** Paging ends only with a positive limit: with limit 0 every page is empty and names itself as
      the next one. */
  lemma ZeroLimitNeverEnds(listing: seq<Record>, offset: nat)
    ensures PageAt(listing, 0, offset) == ListPage([], Some(offset))
  {
  }

  // ---------- the manager as an object ----------

  class SessionManager {
    var rows: Rows

    constructor ()
      ensures rows == map[]
    {
      rows := map[];
    }

    /** `id` is a fresh v4 id and `now` the clock; `dbOk` is false if the statement fails. */
    method CreateSession(id: Uuid, r: Request, now: int, dbOk: bool) returns (s: Result<GuardSession, GuardError>)
      modifies this
      ensures dbOk && id !in old(rows) ==> s == Ok(SessionOf(id, r, now))
      ensures s.Ok? && r.ttlSecs < TWO_TO_THE_64 ==>
                s.value == GuardSession(id, r.agentId, r.workspaceId, r.role, r.scopes, Expiry(r, now), s.value.token)
      ensures dbOk ==> rows == Next(State(old(rows), now), Create(id, r)).rows
      ensures !dbOk ==> rows == old(rows)
      ensures !dbOk || id in old(rows) ==> s.Err? && s.error.DatabaseError?
    {
      var expiresAt := now + AsI64(r.ttlSecs) * NS_PER_S;
      var claims := Claims(id, r.agentId, r.workspaceId, r.role, r.scopes, AsUsize(expiresAt / NS_PER_S));
      var token := Signed(claims);
      if !dbOk || id in rows {
        return Err(DatabaseError("insert into sessions"));
      }
      var row := Row(r.agentId, r.workspaceId, r.role, r.scopes, now / NS_PER_MS, expiresAt / NS_PER_MS, false);
      rows := rows[id := row];
      return Ok(GuardSession(id, r.agentId, r.workspaceId, r.role, r.scopes, expiresAt, token));
    }

    method ValidateSession(token: Token, now: int, leeway: nat, dbOk: bool)
      returns (s: Result<GuardSession, GuardError>)
      ensures dbOk ==> s == Validated(rows, token, now, leeway)
      ensures !dbOk ==> s == Err(if token.Signed? && JwtAccepts(token.claims, now, leeway)
                                 then DatabaseError("select from sessions") else InvalidToken)
    {
      if token.Foreign? || !JwtAccepts(token.claims, now, leeway) {
        return Err(InvalidToken);
      }
      if !dbOk {
        return Err(DatabaseError("select from sessions"));
      }
      var id := token.claims.sub;
      if id !in rows {
        return Err(InvalidToken);
      }
      var row := rows[id];
      if row.revoked {
        return Err(SessionRevoked);
      }
      if row.expiresAtMs * NS_PER_MS <= now {
        return Err(SessionExpired);
      }
      var expiresAt := row.expiresAtMs * NS_PER_MS;
      return Ok(GuardSession(id, row.agentId, row.workspaceId, row.role, row.scopes, expiresAt, token));
    }

    method RevokeSession(id: Uuid, dbOk: bool) returns (r: Result<(), GuardError>)
      modifies this
      ensures r.Ok? == dbOk
      ensures forall clock :: dbOk ==> rows == Next(State(old(rows), clock), Revoke(id)).rows
      ensures !dbOk ==> rows == old(rows)
    {
      if !dbOk {
        return Err(DatabaseError("update sessions"));
      }
      if id in rows {
        rows := rows[id := rows[id].(revoked := true)];
      }
      return Ok(());
    }

    method AssertSessionActive(session: GuardSession, now: int, dbOk: bool) returns (r: Result<(), GuardError>)
      ensures dbOk ==> r == Active(rows, session.id, now)
      ensures !dbOk ==> r == Err(DatabaseError("select from sessions"))
    {
      if !dbOk {
        return Err(DatabaseError("select from sessions"));
      }
      if session.id !in rows {
        return Err(InvalidToken);
      }
      var row := rows[session.id];
      if row.revoked {
        return Err(SessionRevoked);
      }
      if row.expiresAtMs * NS_PER_MS <= now {
        return Err(SessionExpired);
      }
      return Ok(());
    }

    /** `answer` is the order the database gives the active rows, or the error of the statement or
        of a row that does not decode; every item returned is an active session of the agent. */
    method ListActiveSessions(agent: Uuid, limit: nat, offset: nat, now: int, answer: Result<seq<Record>, GuardError>)
      returns (page: Result<ListPage, GuardError>)
      requires limit < TWO_TO_THE_64 && offset < TWO_TO_THE_64
      requires if answer.Ok? then ActiveListing(rows, agent, now, answer.value) else answer.error.FromQuery()
      ensures answer.Err? ==> page == Err(answer.error)
      ensures answer.Ok? ==> page == Ok(PageAt(answer.value, limit, offset))
      ensures page.Ok? ==> forall r :: r in page.value.items ==>
                r.id in rows && rows[r.id] == r.row && r.row.agentId == agent && Active(rows, r.id, now).Ok?
      ensures page.Ok? ==> forall i, j :: 0 <= i < j < |page.value.items| ==>
                page.value.items[i].row.createdAtMs >= page.value.items[j].row.createdAtMs
    {
      if answer.Err? {
        return Err(answer.error);
      }
      hide AsI64, Window, ActiveListing, Active;
      var items := Window(answer.value, AsI64(limit), AsI64(offset));
      var nextOffset := if |items| == limit then Some(offset + limit) else None;
      WindowIsActive(rows, agent, now, answer.value, AsI64(limit), AsI64(offset));
      return Ok(ListPage(items, nextOffset));
    }
  }
}
