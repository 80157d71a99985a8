/** A session: opening with failover, reconnecting, retrying once, and the requests that go through it. */
module Sessions {
  import opened Wrappers
  import opened Bytes
  import opened Endpoints
  import opened Values
  import opened Status
  import opened Inserts
  import opened SessionTrace
  import H = RedirectHistory
  import R = RedirectCaches
  import B = Batch
  import T = Tablets

  /** What the cluster and the network answer at every step of the trace. */
  datatype Script = Script(
    connect: nat -> Option<Error>,
    openSession: nat -> Answer<OpenReply>,
    statementId: nat -> Answer<i64>,
    update: nat -> Answer<(TSStatus, Option<string>)>,
    query: nat -> Answer<(TSStatus, QueryHeader)>,
    insert: nat -> Answer<TSStatus>,
    fetch: nat -> Answer<(TSStatus, bool, Option<seq<bytes>>, Option<bool>)>,
    close: nat -> Answer<()>)
  {
    function Reply(op: Op, n: nat): (r: Answer<SessionTrace.Reply>)
      ensures r.Got? ==> Answers(op, r.value)
    {
      match op
      case Update(_) => (match update(n) case Lost(d) => Lost(d) case Got(u) => Got(Updated(u.0, u.1)))
      case Query(_) => (match query(n) case Lost(d) => Lost(d) case Got(q) => Got(Queried(q.0, q.1)))
      case Insert(_) => (match insert(n) case Lost(d) => Lost(d) case Got(s) => Got(Inserted(s)))
      case Fetch(_, _) => (match fetch(n) case Lost(d) => Lost(d) case Got(f) => Got(Fetched(f.0, f.1, f.2, f.3)))
      case CloseOperation(_) => (match close(n) case Lost(d) => Lost(d) case Got(_) => Got(Acknowledged))
      case CloseSession => (match close(n) case Lost(d) => Lost(d) case Got(_) => Got(Acknowledged))
    }
  }

  datatype Config = Config(
    endpoints: seq<Endpoint>,
    database: Option<string>,
    autoReconnect: bool,
    maxReconnectAttempts: nat,
    redirection: bool)

  datatype Connection = Connection(id: nat, endpoint: Endpoint)

  /** The metadata and the first page of a query. */
  datatype QueryHandle = QueryHandle(
    queryId: i64,
    statement: string,
    columns: seq<string>,
    types: seq<string>,
    ignoreTimestamp: bool,
    blocks: seq<bytes>,
    moreData: bool,
    indexMap: Option<seq<i32>>)

  function UnwrapOr<X>(o: Option<X>, d: X): X
  {
    if o.Some? then o.value else d
  }

  /** An answer with a status stands or falls with it. */
  function Checked(reply: Result<Reply>): (r: Result<()>)
    ensures r.Success? ==> reply.Success?
  {
    match reply
    case Failure(e) => Failure(e)
    case Success(Acknowledged) => Success(())
    case Success(answer) => CheckStatus(answer.status)
  }

  function HandleOf(sql: string, reply: Result<Reply>): Result<QueryHandle>
  {
    match Checked(reply)
    case Failure(e) => Failure(e)
    case Success(_) =>
      if !reply.value.Queried? || reply.value.header.queryId.None? then Failure(Client(MissingQueryId))
      else
        var h := reply.value.header;
        Success(QueryHandle(h.queryId.value, sql, UnwrapOr(h.columns, []), UnwrapOr(h.types, []),
            UnwrapOr(h.ignoreTimestamp, false), UnwrapOr(h.blocks, []), UnwrapOr(h.moreData, false), h.indexMap))
  }

  /** An exchange succeeds when it was answered and every verdict of the answer's status is good. */
  lemma CheckedIff(reply: Result<Reply>)
    ensures Checked(reply).Success? <==>
            reply.Success? && (reply.value.Acknowledged? || AllOk(Verdicts(reply.value.status)))
    ensures reply.Failure? ==> Checked(reply) == Failure(reply.error)
  {
    if reply.Success? && !reply.value.Acknowledged? {
      CheckStatusIff(reply.value.status);
    }
  }

  /** Every field of a query's answer reaches the field of the handle it belongs to, or is the default there. */
  lemma HandleByFields(sql: string, status: TSStatus, h: QueryHeader)
    ensures var r := HandleOf(sql, Success(Queried(status, h)));
            && (r.Success? <==> AllOk(Verdicts(status)) && h.queryId.Some?)
            && (AllOk(Verdicts(status)) && h.queryId.None? ==> r == Failure(Client(MissingQueryId)))
            && (!AllOk(Verdicts(status)) ==> CheckStatus(status) == Failure(r.error))
            && (r.Success? ==>
                  && h.queryId == Some(r.value.queryId) && r.value.statement == sql
                  && r.value.columns == (if h.columns.Some? then h.columns.value else [])
                  && r.value.types == (if h.types.Some? then h.types.value else [])
                  && r.value.blocks == (if h.blocks.Some? then h.blocks.value else [])
                  && r.value.ignoreTimestamp == (h.ignoreTimestamp == Some(true))
                  && r.value.moreData == (h.moreData == Some(true))
                  && r.value.indexMap == h.indexMap)
  {
    hide CheckStatus, AllOk, Verdicts;
    CheckStatusIff(status);
  }

  /** A page of blocks and whether more follow; a response without a result set ends the query. */
  function PageOf(reply: Answer<Reply>): Result<(seq<bytes>, bool)>
    requires reply.Got? ==> reply.value.Fetched?
  {
    match Checked(Outcome(reply))
    case Failure(e) => Failure(e)
    case Success(_) =>
      if !reply.value.hasResultSet then Success(([], false))
      else Success((UnwrapOr(reply.value.blocks, []), UnwrapOr(reply.value.moreData, false)))
  }

  /** What a fetch comes to, by the fields of its answer. */
  ghost predicate FetchedAs(answer: Answer<(TSStatus, bool, Option<seq<bytes>>, Option<bool>)>,
        r: Result<(seq<bytes>, bool)>)
  {
    match answer
    case Lost(detail) => r == Failure(Thrift(detail))
    case Got(f) =>
      if CheckStatus(f.0).Failure? then r == Failure(CheckStatus(f.0).error)
      else if !f.1 then r == Success(([], false))
      else r == Success((if f.2.Some? then f.2.value else [], f.3 == Some(true)))
  }

  lemma PageOfFetch(script: Script, queryId: i64, sql: string, n: nat)
    ensures FetchedAs(script.fetch(n), PageOf(script.Reply(Fetch(queryId, sql), n)))
  {
    hide CheckStatus;
    match script.fetch(n)
    case Lost(d) =>
      assert script.Reply(Fetch(queryId, sql), n) == Lost(d);
      assert Checked(Outcome(Lost(d))) == Failure(Thrift(d));
    case Got(f) =>
      assert script.Reply(Fetch(queryId, sql), n) == Got(Fetched(f.0, f.1, f.2, f.3));
      assert Checked(Outcome(Got(Fetched(f.0, f.1, f.2, f.3)))) == CheckStatus(f.0);
      var more: Option<bool> := f.3;
      assert UnwrapOr(more, false) == (more == Some(true)) by {
        if more.Some? && more.value {
          assert more == Some(true);
        }
      }
  }

  const DEFAULT_REDIRECT_TTL: nat := 300
  const DEFAULT_REDIRECT_MAX_ENTRIES: nat := 1024

  class Session {
    const script: Script
    const config: Config
    const cache: R.RedirectCache
    var connection: Option<Connection>
    var sessionId: i64
    var statementId: i64
    var database: Option<string>
    var lastEndpoint: Option<Endpoint>
    /** Everything exchanged with the network so far. */
    ghost var trace: seq<Event>
    /** How much has been exchanged: the next step of the script. */
    var tick: nat

    ghost predicate Valid()
      reads this, cache
    {
      && tick == |trace|
      && Pinned(trace)
      && cache.Valid()
      && (connection.Some? ==> Held(connection.value))
    }

    /** The ids are those of the held connection's own handshake, the latest one. */
    ghost predicate Held(c: Connection)
      reads this
    {
      && LastLogin(trace) == Some(Login(c.id, sessionId, statementId))
      && c.id < |trace| && trace[c.id] == Connected(c.endpoint)
      && lastEndpoint == Some(c.endpoint)
    }

    constructor (config: Config, script: Script)
      ensures Valid() && fresh(cache)
      ensures this.config == config && this.script == script
      ensures cache.ttl == 300 && cache.maxEntries == 1024 && cache.history == []
      ensures connection == None && trace == [] && database == config.database && lastEndpoint == None
      ensures sessionId == -1 && statementId == -1
    {
      this.config := config;
      this.script := script;
      cache := new R.RedirectCache(DEFAULT_REDIRECT_TTL, DEFAULT_REDIRECT_MAX_ENTRIES);
      connection := None;
      sessionId, statementId := -1, -1;
      database := config.database;
      lastEndpoint := None;
      trace := [];
      tick := 0;
    }

    /** The event a request becomes on a connection. */
    ghost function Request(c: Connection, op: Op): Event
      reads this
    {
      Sent(c.id, sessionId, if NamesStatement(op) then Some(statementId) else None, op, script.Reply(op, tick))
    }

    // ---------- Handshake ----------

    method Connect(endpoint: Endpoint) returns (r: Result<Connection>)
      requires Valid() && connection.None?
      modifies this`trace, this`tick
      ensures Valid()
      ensures var e := script.connect(old(tick));
              trace == old(trace) + [if e.Some? then Refused(endpoint, e.value) else Connected(endpoint)]
      ensures r == if script.connect(old(tick)).Some? then Failure(script.connect(old(tick)).value)
                   else Success(Connection(old(tick), endpoint))
    {
      hide Pinned;
      var e := script.connect(tick);
      var n := tick;
      tick := tick + 1;
      if e.Some? {
        PinnedAfter(trace, Refused(endpoint, e.value));
        trace := trace + [Refused(endpoint, e.value)];
        r := Failure(e.value);
      } else {
        PinnedAfter(trace, Connected(endpoint));
        trace := trace + [Connected(endpoint)];
        r := Success(Connection(n, endpoint));
      }
    }

    /** openSession with the current database, then the statement id, on a connection just made. */
    method Authenticate(c: Connection) returns (r: Result<(i64, i64)>, ghost leg: seq<Event>)
      requires Valid() && connection.None?
      requires trace != [] && c.id == |trace| - 1 && trace[c.id] == Connected(c.endpoint)
      modifies this`trace, this`tick
      ensures Valid() && trace == old(trace) + leg
      ensures 1 <= |leg| <= 2 && leg[0] == OpenSession(c.id, database, script.openSession(old(tick)))
      ensures |leg| == 2 <==> Granted(leg[0].answer).Success?
      ensures |leg| == 2 ==>
                leg[1]
                == RequestStatementId(c.id, Granted(leg[0].answer).value, script.statementId(old(tick) + 1))
      ensures r == if |leg| == 1 then Failure(Granted(leg[0].answer).error)
                   else if leg[1].id.Lost? then Failure(Thrift(leg[1].id.detail))
                   else Success((leg[1].sessionId, leg[1].id.value))
    {
      hide Pinned, CheckStatus;
      var answer := script.openSession(tick);
      PinnedAfter(trace, OpenSession(c.id, database, answer));
      leg := [OpenSession(c.id, database, answer)];
      trace := trace + leg;
      tick := tick + 1;
      if answer.Lost? {
        return Failure(Thrift(answer.detail)), leg;
      }
      var checked := CheckStatus(answer.value.status);
      if checked.Failure? {
        return Failure(checked.error), leg;
      }
      if answer.value.sessionId.None? {
        return Failure(Client(MissingSessionId)), leg;
      }
      var granted := answer.value.sessionId.value;
      var id := script.statementId(tick);
      PinnedAfter(trace, RequestStatementId(c.id, granted, id));
      trace := trace + [RequestStatementId(c.id, granted, id)];
      leg := leg + [RequestStatementId(c.id, granted, id)];
      tick := tick + 1;
      r := if id.Lost? then Failure(Thrift(id.detail)) else Success((granted, id.value));
    }

    /** A full handshake with one endpoint: connect, open the session, request the statement id. */
    method Attempt(endpoint: Endpoint) returns (r: Result<(Connection, (i64, i64))>, ghost leg: seq<Event>)
      requires Valid() && connection.None?
      modifies this`trace, this`tick
      ensures Valid() && trace == old(trace) + leg
      ensures leg != [] && AttemptLeg(leg, endpoint, database, r.Success?)
      ensures r.Success? ==> var (c, ids) := r.value;
                c.endpoint == endpoint && c.id < |trace| && trace[c.id] == Connected(endpoint)
                && LastLogin(trace) == Some(Login(c.id, ids.0, ids.1))
      ensures r.Failure? ==> AttemptError(leg[|leg| - 1]) == Some(r.error)
    {
      hide Pinned, AttemptLeg, R.RedirectCache.Valid;
      var c := Connect(endpoint);
      if c.Failure? {
        RefusedLeg(endpoint, database, c.error);
        return Failure(c.error), [Refused(endpoint, c.error)];
      }
      ghost var dialled := trace;
      ghost var rest;
      var ids;
      ids, rest := Authenticate(c.value);
      leg := [Connected(endpoint)] + rest;
      HandshakeLeg(endpoint, database, rest);
      assert trace == old(trace) + leg;
      if ids.Failure? {
        return Failure(ids.error), leg;
      }
      LoginLast(dialled, rest);
      r := Success((c.value, ids.value));
    }

    /** Installs a connection together with the ids of its handshake. */
    method Install(c: Connection, ids: (i64, i64))
      requires Valid()
      requires LastLogin(trace) == Some(Login(c.id, ids.0, ids.1)) && c.id < |trace|
          && trace[c.id] == Connected(c.endpoint)
      modifies this`connection, this`sessionId, this`statementId, this`lastEndpoint
      ensures Valid() && connection == Some(c) && sessionId == ids.0 && statementId == ids.1
          && lastEndpoint == Some(c.endpoint)
    {
      sessionId, statementId := ids.0, ids.1;
      lastEndpoint := Some(c.endpoint);
      connection := Some(c);
    }

    /**
     Connects to the first endpoint that answers, in rotation from a start index taken from a process-wide
     counter. A refused handshake is not retried elsewhere and leaves the session closed.
     */
    method Open(counter: nat) returns (r: Result<()>, ghost run: seq<Event>)
      requires Valid()
      modifies this`connection, this`sessionId, this`statementId, this`lastEndpoint, this`trace, this`tick
      ensures Valid() && trace == old(trace) + run
      ensures old(connection).Some? ==> r == Failure(Client(AlreadyOpen)) && run == [] && connection == old(connection)
      ensures old(connection).None? && config.endpoints == [] ==> r == Failure(Client(NoEndpoints)) && run == []
      ensures old(connection).None? && config.endpoints != [] ==>
                OpenRun(config.endpoints, counter % |config.endpoints|, database, run, r)
      ensures r.Failure? ==> connection == old(connection) && sessionId == old(sessionId)
                             && statementId == old(statementId) && lastEndpoint == old(lastEndpoint)
      ensures r.Success? ==> connection.Some? && lastEndpoint == Some(connection.value.endpoint)
    {
      hide Pinned, R.RedirectCache.Valid, OpenRun, Granted, Turn;
      run := [];
      if connection.Some? {
        return Failure(Client(AlreadyOpen)), run;
      }
      var n := |config.endpoints|;
      if n == 0 {
        return Failure(Client(NoEndpoints)), run;
      }
      var start := counter % n;
      var last := Client(NoEndpoints);
      var i := 0;
      while i < n
        invariant 0 <= i <= n && Valid() && connection.None? && trace == old(trace) + run
        invariant AllRefused(config.endpoints, start, run, i)
        invariant i > 0 ==> last == run[i - 1].error
        invariant sessionId == old(sessionId) && statementId == old(statementId) && lastEndpoint == old(lastEndpoint)
      {
        var endpoint := config.endpoints[Turn(start, i, n)];
        var c := Connect(endpoint);
        if c.Success? {
          ghost var refused := run;
          ghost var rest;
          var ids;
          ids, rest := Authenticate(c.value);
          run := refused + [Connected(endpoint)] + rest;
          assert trace == old(trace) + run;
          OpenDecided(config.endpoints, start, database, refused, rest, i);
          if ids.Failure? {
            return Failure(ids.error), run;
          }
          LoginLast(old(trace) + refused + [Connected(endpoint)], rest);
          Install(c.value, ids.value);
          return Success(()), run;
        }
        last := c.error;
        run := run + [Refused(endpoint, c.error)];
        i := i + 1;
      }
      r := Failure(last);
      AllRefusedFails(config.endpoints, start, database, run);
    }

    /**
     Drops the connection, then tries a full handshake with every endpoint in rotation from the last one used,
     pass after pass; the first success is taken.
     */
    method Reconnect() returns (r: Result<()>, ghost run: seq<Event>)
      requires Valid()
      modifies this`connection, this`sessionId, this`statementId, this`lastEndpoint, this`trace, this`tick
      ensures Valid() && trace == old(trace) + run
      ensures config.endpoints == [] ==> r == Failure(Client(NoEndpoints)) && run == []
      ensures config.endpoints != [] ==>
                ReconnectRun(config.endpoints, StartIndex(config.endpoints, old(lastEndpoint)), Attempts(config),
                             database, run, r.Success?)
      ensures config.endpoints != [] && r.Failure? ==> run != [] && AttemptError(run[|run| - 1]) == Some(r.error)
      ensures r.Success? ==> connection.Some?
      ensures r.Failure? ==> connection.None? && sessionId == old(sessionId) && statementId == old(statementId)
                             && lastEndpoint == old(lastEndpoint)
    {
      hide Pinned, Dialling, AttemptLeg, ReconnectRun, StartIndex, Turn, R.RedirectCache.Valid;
      connection := None;
      run := [];
      var n := |config.endpoints|;
      if n == 0 {
        return Failure(Client(NoEndpoints)), run;
      }
      var start := StartIndex(config.endpoints, lastEndpoint);
      var attempts := Attempts(config);
      var last := Client(NoEndpoints);
      NothingDialled(config.endpoints, start, database);
      for attempt := 0 to attempts
        invariant Valid() && connection.None? && trace == old(trace) + run
        invariant Dialling(config.endpoints, start, attempt * n, database, run)
        invariant attempt > 0 ==> run != [] && AttemptError(run[|run| - 1]) == Some(last)
        invariant sessionId == old(sessionId) && statementId == old(statementId) && lastEndpoint == old(lastEndpoint)
      {
        for i := 0 to n
          invariant Valid() && connection.None? && trace == old(trace) + run
          invariant Dialling(config.endpoints, start, attempt * n + i, database, run)
          invariant i > 0 || attempt > 0 ==> run != [] && AttemptError(run[|run| - 1]) == Some(last)
          invariant sessionId == old(sessionId) && statementId == old(statementId) && lastEndpoint == old(lastEndpoint)
        {
          var endpoint := config.endpoints[Turn(start, i, n)];
          var c;
          ghost var leg;
          c, leg := Attempt(endpoint);
          OneMoreDial(config.endpoints, start, attempts, attempt, i, database, run, leg, c.Success?);
          assert old(trace) + (run + leg) == old(trace) + run + leg;
          run := run + leg;
          if c.Success? {
            Install(c.value.0, c.value.1);
            return Success(()), run;
          }
          last := c.error;
        }
        assert attempt * n + n == (attempt + 1) * n;
      }
      AllDialled(config.endpoints, start, attempts, database, run);
      r := Failure(last);
    }

    // ---------- Requests ----------

    /** One RPC on the held connection. */
    method Send(op: Op) returns (r: Result<Reply>)
      requires Valid()
      modifies this`trace, this`tick
      ensures Valid()
      ensures connection.None? ==> r == Failure(Client(NotOpen)) && trace == old(trace)
      ensures connection.Some? ==>
                var e := old(Request(connection.value, op));
                trace == old(trace) + [e] && r == Outcome(e.reply)
    {
      hide Pinned, R.RedirectCache.Valid;
      if connection.None? {
        return Failure(Client(NotOpen));
      }
      var reply := script.Reply(op, tick);
      ghost var e := Request(connection.value, op);
      PinnedAfter(trace, e);
      LastLoginAfter(trace, e);
      trace := trace + [e];
      tick := tick + 1;
      r := Outcome(reply);
    }

    /** The second half of a retried operation: reconnect, then once more, or the original error. */
    method ReconnectAndResend(op: Op, original: Error, ghost first: Event)
      returns (r: Result<Reply>, ghost rest: seq<Event>)
      requires Valid() && first.Sent? && first.op == op && Outcome(first.reply) == Failure(original)
      modifies this`connection, this`sessionId, this`statementId, this`lastEndpoint, this`trace, this`tick
      ensures Valid() && trace == old(trace) + rest
      ensures RetriedRun(config.endpoints, StartIndex(config.endpoints, old(lastEndpoint)), Attempts(config), database,
                         first, [first] + rest, connection.Some?)
      ensures Requests([first] + rest) <= 2 && CarriesOnly([first] + rest, op) && r == Conclusion([first] + rest)
      ensures connection.None? ==> r == Failure(original)
      ensures connection.Some? ==> rest != [] && Current(rest[|rest| - 1], op) && r == Outcome(rest[|rest| - 1].reply)
      ensures r.Success? ==> connection.Some? && Answers(op, r.value)
    {
      hide Pinned, R.RedirectCache.Valid, ReconnectRun, RetriedRun, Requests, StartIndex, CarriesOnly, Conclusion,
          LastLogin;
      ghost var start := StartIndex(config.endpoints, lastEndpoint);
      var again;
      again, rest := Reconnect();
      if again.Failure? {
        GivenUp(config.endpoints, start, Attempts(config), database, first, rest);
        return Failure(original), rest;
      }
      ghost var middle := rest;
      ghost var second := Request(connection.value, op);
      r := Send(op);
      OneRequest(second);
      TriedAgain(config.endpoints, start, Attempts(config), database, first, middle, second);
      rest := middle + [second];
      assert [first] + rest == [first] + middle + [second];
    }

    /** A request under the ids now held. */
    ghost predicate Current(e: Event, op: Op)
      reads this
    {
      && connection.Some? && e.Sent?
      && e.conn == connection.value.id && e.sessionId == sessionId && e.op == op
      && e.statementId == (if NamesStatement(op) then Some(statementId) else None)
    }

    /**
     Runs an operation; when the transport fails under it, reconnects and runs it once more under the new ids.
     A reconnect that fails leaves no connection and returns the original error.
     */
    method WithRetry(op: Op) returns (r: Result<Reply>, ghost run: seq<Event>)
      requires Valid()
      modifies this`connection, this`sessionId, this`statementId, this`lastEndpoint, this`trace, this`tick
      ensures Valid() && trace == old(trace) + run
      ensures old(connection).None? ==> r == Failure(Client(NotOpen)) && run == [] && connection == None
      ensures old(connection).Some? ==>
                RetrySpec(old(connection.value), old(Request(connection.value, op)), old(lastEndpoint), run)
      ensures Requests(run) <= 2 && CarriesOnly(run, op)
      ensures r == Conclusion(run)
      ensures old(connection).Some? && connection.None? ==> r == Outcome(old(Request(connection.value, op)).reply)
      ensures r.Success? ==> run != [] && Current(run[|run| - 1], op) && Answers(op, r.value)
    {
      hide Pinned, R.RedirectCache.Valid, RetriedRun, Requests, StartIndex, CarriesOnly, Conclusion, LastLogin;
      NothingConcluded();
      NoRequestYet();
      var c := connection;
      r := Send(op);
      if c.None? {
        run := [];
        return;
      }
      ghost var first := old(Request(connection.value, op));
      run := [first];
      OneRequest(first);
      if r.Success? || !r.error.Thrift? || !config.autoReconnect {
        return;
      }
      ghost var rest;
      r, rest := ReconnectAndResend(op, r.error, first);
      run := [first] + rest;
      assert trace == old(trace) + run;
    }

    /** A statement without results; a `USE` is remembered from the database its response names. */
    method ExecuteNonQuery(sql: string) returns (r: Result<()>, ghost run: seq<Event>)
      requires Valid()
      modifies this`connection, this`sessionId, this`statementId, this`lastEndpoint, this`trace, this`tick,
          this`database
      ensures Valid() && trace == old(trace) + run && Requests(run) <= 2 && CarriesOnly(run, Update(sql))
      ensures r == Checked(Conclusion(run))
      ensures database == if r.Success? && Conclusion(run).value.Updated? && Conclusion(run).value.database.Some?
                          then Conclusion(run).value.database else old(database)
    {
      hide Pinned, R.RedirectCache.Valid, RetrySpec, Requests, CheckStatus;
      var reply;
      reply, run := WithRetry(Update(sql));
      r := Checked(reply);
      if r.Success? && reply.value.database.Some? {
        database := reply.value.database;
      }
    }

    /** A query: the first page and what is needed to fetch more on the connection that ran it. */
    method ExecuteQueryRaw(sql: string) returns (r: Result<QueryHandle>, ghost run: seq<Event>)
      requires Valid()
      modifies this`connection, this`sessionId, this`statementId, this`lastEndpoint, this`trace, this`tick
      ensures Valid() && trace == old(trace) + run && Requests(run) <= 2 && CarriesOnly(run, Query(sql))
      ensures r == HandleOf(sql, Conclusion(run))
      ensures r.Success? ==> connection.Some? && run != [] && run[|run| - 1].Sent?
                             && run[|run| - 1].conn == connection.value.id
    {
      hide Pinned, R.RedirectCache.Valid, RetrySpec, Requests, CheckStatus;
      var reply;
      reply, run := WithRetry(Query(sql));
      var checked := Checked(reply);
      if checked.Failure? {
        return Failure(checked.error), run;
      }
      var header := reply.value.header;
      if header.queryId.None? {
        return Failure(Client(MissingQueryId)), run;
      }
      r := Success(QueryHandle(header.queryId.value, sql, UnwrapOr(header.columns, []), UnwrapOr(header.types, []),
                               UnwrapOr(header.ignoreTimestamp, false), UnwrapOr(header.blocks, []),
                               UnwrapOr(header.moreData, false), header.indexMap));
    }

    /** The next page of an open query, asked for once, on the connection held. */
    method FetchResults(queryId: i64, sql: string) returns (r: Result<(seq<bytes>, bool)>)
      requires Valid()
      modifies this`trace, this`tick
      ensures Valid()
      ensures connection.None? ==> r == Failure(Client(NotOpen)) && trace == old(trace)
      ensures connection.Some? ==> trace == old(trace) + [old(Request(connection.value, Fetch(queryId, sql)))]
      ensures tick == old(tick) + if connection.Some? then 1 else 0
      ensures connection.Some? ==> r == PageOf(script.Reply(Fetch(queryId, sql), old(tick)))
      ensures connection.Some? ==> FetchedAs(script.fetch(old(tick)), r)
    {
      hide Pinned, R.RedirectCache.Valid, CheckStatus, FetchedAs;
      PageOfFetch(script, queryId, sql, tick);
      var reply := Send(Fetch(queryId, sql));
      var checked := Checked(reply);
      if checked.Failure? {
        return Failure(checked.error);
      }
      var page := reply.value;
      if !page.hasResultSet {
        return Success(([], false));
      }
      r := Success((UnwrapOr(page.blocks, []), UnwrapOr(page.moreData, false)));
    }

    /** Best effort: a lost answer changes nothing. */
    method CloseQuery(queryId: i64)
      requires Valid()
      modifies this`trace, this`tick
      ensures Valid()
      ensures trace == old(trace) + if connection.Some? then [old(Request(connection.value, CloseOperation(queryId)))]
          else []
    {
      hide Pinned, R.RedirectCache.Valid;
      if connection.Some? {
        var ignored := Send(CloseOperation(queryId));
      }
    }

    /** Best-effort close of the session, then of its connection; closing twice is harmless. */
    method Close() returns (r: Result<()>)
      requires Valid()
      modifies this`connection, this`sessionId, this`statementId, this`trace, this`tick
      ensures Valid() && r == Success(())
      ensures connection == None && sessionId == -1 && statementId == -1
      ensures trace == old(trace) + if old(connection).Some? then [old(Request(connection.value, CloseSession))] else []
    {
      hide Pinned, R.RedirectCache.Valid;
      if connection.Some? {
        var ignored := Send(CloseSession);
      }
      connection := None;
      sessionId, statementId := -1, -1;
      r := Success(());
    }

    // ---------- Writes ----------

    /** Harvests redirect hints from a write's answer before judging it; `times` are the clock readings of the puts. */
    method CheckInsertStatus(devices: seq<string>, status: TSStatus, times: seq<nat>) returns (r: Result<()>)
      requires Valid() && |times| == |devices|
      modifies cache
      ensures Valid() && r == CheckStatus(status)
      ensures cache.history == if config.redirection
                               then R.WithHarvest(old(cache.history), devices, status, times, |devices|)
                               else old(cache.history)
    {
      hide Pinned, R.RedirectCache.Valid, CheckStatus, R.WithHarvest;
      if config.redirection {
        R.RecordRedirects(cache, devices, status, times);
      }
      r := CheckStatus(status);
    }

    /** One write, retried like any operation; only an answered one leaves hints. */
    method SendWrite(devices: seq<string>, w: Write, times: seq<nat>) returns (r: Result<()>, ghost run: seq<Event>)
      requires Valid() && |times| == |devices|
      modifies this`connection, this`sessionId, this`statementId, this`lastEndpoint, this`trace, this`tick, cache
      ensures Valid() && trace == old(trace) + run && Requests(run) <= 2 && CarriesOnly(run, Insert(w))
      ensures r == Checked(Conclusion(run))
      ensures WriteRun(run) && cache.history == Hinted(config, old(cache.history), run, devices, times)
    {
      hide Pinned, R.RedirectCache.Valid, RetrySpec, Requests, CheckStatus, R.WithHarvest;
      var reply;
      reply, run := WithRetry(Insert(w));
      if reply.Failure? {
        return Failure(reply.error), run;
      }
      r := CheckInsertStatus(devices, reply.value.status, times);
    }

    /** The rows of one device, cleaned and sorted, in at most two requests that carry the same batch. */
    method InsertRecordsOfOneDevice(device: string, times: seq<i64>, mss: seq<seq<string>>, vss: seq<seq<Value>>,
          aligned: bool, clock: nat)
      returns (r: Result<()>, ghost run: seq<Event>)
      requires Valid()
      modifies this`connection, this`sessionId, this`statementId, this`lastEndpoint, this`trace, this`tick, cache
      ensures Valid() && trace == old(trace) + run && Requests(run) <= 2
      ensures run == [] ==> cache.history == old(cache.history)
      ensures !(|times| == |mss| == |vss|) ==> r == Failure(Client(LengthMismatch)) && run == []
      ensures |times| == |mss| == |vss| && !B.Paired(mss, vss) ==> r == Failure(Client(ArityMismatch)) && run == []
      ensures |times| == |mss| == |vss| && B.Paired(mss, vss) ==>
                var rows := B.RowsOf(Repeat(device, |times|), times, mss, vss);
                if B.Clean(rows) == [] then r == Failure(Client(AllNull)) && run == []
                else
                  && r == Checked(Conclusion(run)) && WriteRun(run)
                  && cache.history == Hinted(config, old(cache.history), run, [device], [clock])
                  && forall i :: 0 <= i < |run| && run[i].Sent? ==>
                       run[i].op.Insert? && OneDeviceSent(run[i].op.write, device, aligned, rows)
    {
      hide Pinned, R.RedirectCache.Valid, Requests, CheckStatus, R.WithHarvest, OneDeviceSent, B.Clean, B.RowsOf,
          B.Paired;
      NoRequestYet();
      run := [];
      var w := OneDeviceRequest(device, times, mss, vss, aligned);
      if w.Failure? {
        return Failure(w.error), run;
      }
      r, run := SendWrite([device], w.value, [clock]);
    }

    /** A batch of tablets: every request carries every tablet's sorted rows. */
    method InsertTablets(tablets: seq<T.Tablet>, aligned: bool, times: seq<nat>)
      returns (r: Result<()>, ghost run: seq<Event>)
      requires Valid() && |times| == |tablets|
      requires forall i :: 0 <= i < |tablets| ==> tablets[i].Serializable()
      modifies this`connection, this`sessionId, this`statementId, this`lastEndpoint, this`trace, this`tick, cache
      ensures forall i :: 0 <= i < |tablets| ==> tablets[i].Valid()
      ensures Valid() && trace == old(trace) + run && Requests(run) <= 2
      ensures run == [] ==> cache.history == old(cache.history)
      ensures tablets == [] ==> r == Failure(Client(NoTablets)) && run == []
      ensures (exists i :: 0 <= i < |tablets| && tablets[i].categories.Some?) ==>
          r == Failure(Client(TableModelTablet)) && run == []
      ensures tablets != [] && (forall i :: 0 <= i < |tablets| ==> tablets[i].categories.None?) ==>
                && r == Checked(Conclusion(run)) && WriteRun(run)
                && cache.history == Hinted(config, old(cache.history), run, Targets(tablets), times)
                && forall i :: 0 <= i < |run| && run[i].Sent? ==>
                     run[i].op.Insert? && TabletsSent(run[i].op.write, tablets, |tablets|)
                         && run[i].op.write.aligned == aligned
    {
      hide Pinned, R.RedirectCache.Valid, Requests, CheckStatus, R.WithHarvest, TabletSent;
      NoRequestYet();
      run := [];
      var w := TabletsRequest(tablets, aligned);
      if w.Failure? {
        return Failure(w.error), run;
      }
      assert w.value.targets == Targets(tablets) by { SentTargets(w.value, tablets); }
      r, run := SendWrite(w.value.targets, w.value, times);
    }

    /** The events of one operation and the state it leaves, given its first request. */
    ghost predicate RetrySpec(c: Connection, first: Event, last: Option<Endpoint>, run: seq<Event>)
      requires first.Sent?
      reads this
    {
      if first.reply.Got? || !config.autoReconnect then run == [first] && connection == Some(c)
      else
        && RetriedRun(config.endpoints, StartIndex(config.endpoints, last), Attempts(config), database, first, run,
            connection.Some?)
        && (connection.Some? ==> Current(run[|run| - 1], first.op))
    }
  }

  /** An answered write is answered with a status. */
  predicate WriteRun(run: seq<Event>)
  {
    Conclusion(run).Success? ==> Conclusion(run).value.Inserted?
  }

  /** What a write adds to the redirect history: an answered one, with redirection enabled, the hints of its status. */
  function Hinted(config: Config, before: seq<H.Op>, run: seq<Event>, devices: seq<string>, times: seq<nat>): seq<H.Op>
    requires WriteRun(run) && |times| == |devices|
  {
    if config.redirection && Conclusion(run).Success?
    then R.WithHarvest(before, devices, Conclusion(run).value.status, times, |devices|)
    else before
  }

  function Targets(tablets: seq<T.Tablet>): (r: seq<string>)
    ensures |r| == |tablets|
    ensures forall i :: 0 <= i < |tablets| ==> r[i] == tablets[i].target
  {
    seq(|tablets|, i requires 0 <= i < |tablets| => tablets[i].target)
  }

  lemma SentTargets(w: Write, tablets: seq<T.Tablet>)
    requires forall i :: 0 <= i < |tablets| ==> tablets[i].Valid()
    requires TabletsSent(w, tablets, |tablets|)
    ensures w.targets == Targets(tablets)
  {
    forall i | 0 <= i < |tablets| ensures w.targets[i] == tablets[i].target {
      assert TabletSent(w, tablets[i], i);
    }
  }

  lemma NoRequestYet()
    ensures Requests([]) == 0 && forall op :: CarriesOnly([], op)
  {
  }

  lemma NothingConcluded()
    ensures Conclusion([]) == Failure(Client(NotOpen))
  {
  }

  lemma OneRequest(e: Event)
    requires e.Sent?
    ensures Requests([e]) == 1 && CarriesOnly([e], e.op) && Conclusion([e]) == Outcome(e.reply)
  {
    assert Requests([e]) == 1 + Requests([]);
  }

  /** A reconnect makes at least one pass. */
  function Attempts(config: Config): nat
  {
    if config.maxReconnectAttempts > 1 then config.maxReconnectAttempts else 1
  }

  /** As many passes as configured, but never none. */
  lemma AttemptsAreBounded(config: Config)
    ensures 1 <= Attempts(config) && config.maxReconnectAttempts <= Attempts(config)
    ensures Attempts(config) == 1 || Attempts(config) == config.maxReconnectAttempts
  {
  }

  /** The first `i` endpoints in rotation, each refused. */
  ghost predicate AllRefused(endpoints: seq<Endpoint>, start: nat, run: seq<Event>, i: nat)
    requires endpoints != []
  {
    |run| == i && forall j :: 0 <= j < i ==>
              run[j].Refused?
              && run[j].endpoint == endpoints[Turn(start, j, |endpoints|)]
  }

  /**
   The events of an open: endpoints are refused in rotation until one connects, whose handshake alone decides;
   when all refuse, the last refusal is the error.
   */
  ghost predicate OpenRun(endpoints: seq<Endpoint>, start: nat, db: Option<string>, run: seq<Event>, r: Result<()>)
    requires endpoints != []
  {
    if AllRefused(endpoints, start, run, |endpoints|) then r == Failure(run[|run| - 1].error)
    else exists i :: 0 <= i < |endpoints| && OpenedAt(endpoints, start, db, run, r, i)
  }

  ghost predicate OpenedAt(endpoints: seq<Endpoint>, start: nat, db: Option<string>, run: seq<Event>, r: Result<()>,
        i: nat)
    requires endpoints != []
  {
    && i + 2 <= |run| <= i + 3
    && AllRefused(endpoints, start, run[..i], i)
    && run[i] == Connected(endpoints[Turn(start, i, |endpoints|)])
    && run[i + 1].OpenSession? && run[i + 1].database == db
    && (|run| == i + 3 <==> Granted(run[i + 1].answer).Success?)
    && (|run| == i + 3 ==> run[i + 2].RequestStatementId?)
    && r == if |run| == i + 2 then Failure(Granted(run[i + 1].answer).error)
            else if run[i + 2].id.Lost? then Failure(Thrift(run[i + 2].id.detail)) else Success(())
  }

  /** How the handshake ends that follows a connect. */
  function HandshakeResult(rest: seq<Event>): Result<()>
    requires 1 <= |rest| <= 2 && rest[0].OpenSession? && (|rest| == 2 ==> rest[1].RequestStatementId?)
    requires |rest| == 2 <==> Granted(rest[0].answer).Success?
  {
    if |rest| == 1 then Failure(Granted(rest[0].answer).error)
    else if rest[1].id.Lost? then Failure(Thrift(rest[1].id.detail))
    else Success(())
  }

  lemma LoginLast(before: seq<Event>, rest: seq<Event>)
    requires |rest| == 2 && IsLogin(rest[1])
    ensures LastLogin(before + rest) == Some(Login(rest[1].conn, rest[1].sessionId, rest[1].id.value))
  {
    assert before + rest == before + [rest[0]] + [rest[1]];
    LastLoginAfter(before + [rest[0]], rest[1]);
  }

  lemma OpenDecided(endpoints: seq<Endpoint>, start: nat, db: Option<string>, refused: seq<Event>, rest: seq<Event>,
        i: nat)
    requires i < |endpoints| && AllRefused(endpoints, start, refused, i)
    requires 1 <= |rest| <= 2 && rest[0].OpenSession? && (|rest| == 2 ==> rest[1].RequestStatementId?)
    requires |rest| == 2 <==> Granted(rest[0].answer).Success?
    requires rest[0].database == db
    ensures OpenRun(endpoints, start, db, refused + [Connected(endpoints[Turn(start, i, |endpoints|)])] + rest,
                    HandshakeResult(rest))
  {
    hide Turn, Granted;
    var e := Connected(endpoints[Turn(start, i, |endpoints|)]);
    var run := refused + [e] + rest;
    assert run[..i] == refused;
    assert run[i] == e && run[i + 1] == rest[0];
    assert |rest| == 2 ==> run[i + 2] == rest[1];
    assert OpenedAt(endpoints, start, db, run, HandshakeResult(rest), i);
    assert !AllRefused(endpoints, start, run, |endpoints|);
  }

  lemma AllRefusedFails(endpoints: seq<Endpoint>, start: nat, db: Option<string>, run: seq<Event>)
    requires endpoints != [] && AllRefused(endpoints, start, run, |endpoints|)
    ensures OpenRun(endpoints, start, db, run, Failure(run[|run| - 1].error))
  {
  }
}
