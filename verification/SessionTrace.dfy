/**
 What a session exchanges with the cluster, event by event, and what every such trace obeys:
 requests only ever use the ids of the latest completed handshake, on that handshake's own connection.
 */
module SessionTrace {
  import opened Wrappers
  import opened Bytes
  import opened Endpoints
  import opened Status
  import opened Inserts

  /** What comes back for an exchange: an answer, or a transport failure with its own detail. */
  datatype Answer<+T> = Lost(detail: nat) | Got(value: T)

  datatype OpenReply = OpenReply(status: TSStatus, sessionId: Option<i64>)

  datatype Op =
    | Update(sql: string)
    | Query(sql: string)
    | Insert(write: Write)
    | Fetch(queryId: i64, sql: string)
    | CloseOperation(queryId: i64)
    | CloseSession

  datatype Reply =
    | Updated(status: TSStatus, database: Option<string>)
    | Queried(status: TSStatus, header: QueryHeader)
    | Inserted(status: TSStatus)
    | Fetched(status: TSStatus, hasResultSet: bool, blocks: Option<seq<bytes>>, moreData: Option<bool>)
    | Acknowledged

  /** The optional fields of a query response. */
  datatype QueryHeader = QueryHeader(
    queryId: Option<i64>,
    columns: Option<seq<string>>,
    types: Option<seq<string>>,
    ignoreTimestamp: Option<bool>,
    blocks: Option<seq<bytes>>,
    moreData: Option<bool>,
    indexMap: Option<seq<i32>>)

  /** A connection is known by the position of the event that opened it. */
  datatype Event =
    | Refused(endpoint: Endpoint, error: Error)
    | Connected(endpoint: Endpoint)
    | OpenSession(conn: nat, database: Option<string>, answer: Answer<OpenReply>)
    | RequestStatementId(conn: nat, sessionId: i64, id: Answer<i64>)
    | Sent(conn: nat, sessionId: i64, statementId: Option<i64>, op: Op, reply: Answer<Reply>)

  /** Writes and the session close name no statement. */
  predicate NamesStatement(op: Op)
  {
    !op.Insert? && !op.CloseSession?
  }

  predicate Answers(op: Op, reply: Reply)
  {
    match op
    case Update(_) => reply.Updated?
    case Query(_) => reply.Queried?
    case Insert(_) => reply.Inserted?
    case Fetch(_, _) => reply.Fetched?
    case CloseOperation(_) => reply.Acknowledged?
    case CloseSession => reply.Acknowledged?
  }

  // ---------- Logins ----------

  datatype Login = Login(conn: nat, sessionId: i64, statementId: i64)

  predicate IsLogin(e: Event)
  {
    e.RequestStatementId? && e.id.Got?
  }

  /** The ids a trace ends up with: those of its latest completed handshake. */
  function LastLogin(trace: seq<Event>): Option<Login>
  {
    if trace == [] then None
    else
      var e := trace[|trace| - 1];
      if IsLogin(e) then Some(Login(e.conn, e.sessionId, e.id.value)) else LastLogin(trace[..|trace| - 1])
  }

  predicate NoLogin(trace: seq<Event>)
  {
    forall i :: 0 <= i < |trace| ==> !IsLogin(trace[i])
  }

  lemma LastLoginAfter(trace: seq<Event>, e: Event)
    ensures LastLogin(trace + [e]) == if IsLogin(e) then Some(Login(e.conn, e.sessionId, e.id.value))
        else LastLogin(trace)
  {
    assert (trace + [e])[..|trace|] == trace;
  }

  /** The session id an openSession reply grants, if it grants one. */
  function Granted(answer: Answer<OpenReply>): Result<i64>
  {
    if answer.Lost? then Failure(Thrift(answer.detail))
    else if CheckStatus(answer.value.status).Failure? then Failure(CheckStatus(answer.value.status).error)
    else if answer.value.sessionId.None? then Failure(Client(MissingSessionId))
    else Success(answer.value.sessionId.value)
  }

  /** A login is granted by an answer whose verdicts are good and that names a session; which error comes else. */
  lemma GrantedIff(answer: Answer<OpenReply>)
    ensures Granted(answer).Success? <==>
            answer.Got? && AllOk(Verdicts(answer.value.status)) && answer.value.sessionId.Some?
    ensures Granted(answer).Success? ==> answer.value.sessionId == Some(Granted(answer).value)
    ensures answer.Lost? ==> Granted(answer) == Failure(Thrift(answer.detail))
    ensures answer.Got? && AllOk(Verdicts(answer.value.status)) && answer.value.sessionId.None? ==>
              Granted(answer) == Failure(Client(MissingSessionId))
    ensures answer.Got? && CheckStatus(answer.value.status).Failure? ==>
              CheckStatus(answer.value.status) == Failure(Granted(answer).error)
  {
    hide CheckStatus, Verdicts, AllOk;
    if answer.Got? {
      CheckStatusIff(answer.value.status);
    }
  }

  // ---------- What may happen next ----------

  /**
   The steps of a handshake follow each other on a fresh connection, and any other request goes to the
   connection of the latest login under that login's ids.
   */
  predicate Allowed(before: seq<Event>, e: Event)
  {
    match e
    case Refused(_, _) => true
    case Connected(_) => true
    case OpenSession(conn, _, _) => before != [] && conn == |before| - 1 && before[conn].Connected?
    case RequestStatementId(conn, sessionId, _) =>
      && |before| >= 2 && conn == |before| - 2 && before[conn].Connected?
      && before[conn + 1].OpenSession? && before[conn + 1].conn == conn
      && Granted(before[conn + 1].answer) == Success(sessionId)
    case Sent(conn, sessionId, statementId, op, reply) =>
      && LastLogin(before).Some?
      && LastLogin(before).value.conn == conn && LastLogin(before).value.sessionId == sessionId
      && statementId == (if NamesStatement(op) then Some(LastLogin(before).value.statementId) else None)
      && (reply.Got? ==> Answers(op, reply.value))
  }

  predicate AllowedAt(trace: seq<Event>, k: nat)
    requires k < |trace|
  {
    Allowed(trace[..k], trace[k])
  }

  ghost predicate Pinned(trace: seq<Event>)
  {
    forall k :: 0 <= k < |trace| ==> AllowedAt(trace, k)
  }

  lemma PinnedAfter(trace: seq<Event>, e: Event)
    requires Pinned(trace) && Allowed(trace, e)
    ensures Pinned(trace + [e])
  {
    hide Allowed;
    forall k | 0 <= k <= |trace| ensures AllowedAt(trace + [e], k) {
      assert (trace + [e])[..k] == trace[..k];
      if k < |trace| {
        assert AllowedAt(trace, k);
      }
    }
  }

  /** A login names the connection opened two events before it. */
  lemma {:induction false} LoginConnection(trace: seq<Event>)
    requires Pinned(trace) && LastLogin(trace).Some?
    ensures LastLogin(trace).value.conn < |trace| && trace[LastLogin(trace).value.conn].Connected?
  {
    var n := |trace| - 1;
    assert AllowedAt(trace, n);
    if !IsLogin(trace[n]) {
      forall k | 0 <= k < n ensures AllowedAt(trace[..n], k) {
        assert AllowedAt(trace, k) && trace[..n][..k] == trace[..k];
      }
      LoginConnection(trace[..n]);
    }
  }

  /**
   In every trace, a request on a connection is preceded by that connection's own handshake, whose
   session id it carries, and no later handshake has completed in between.
   */
  lemma {:induction false} RequestsFollowTheirHandshake(trace: seq<Event>, k: nat)
    requires Pinned(trace) && k < |trace| && trace[k].Sent?
    ensures var c := trace[k].conn;
            && c + 2 < k && trace[c].Connected?
            && trace[c + 2].RequestStatementId? && trace[c + 2].conn == c && trace[c + 2].id.Got?
            && trace[c + 2].sessionId == trace[k].sessionId
            && (trace[k].statementId.Some? ==> trace[k].statementId == Some(trace[c + 2].id.value))
            && NoLogin(trace[c + 3..k])
  {
    assert AllowedAt(trace, k);
    var j := LoginPosition(trace, k);
    assert AllowedAt(trace, j);
  }

  lemma {:induction false} LoginPosition(trace: seq<Event>, k: nat) returns (j: nat)
    requires k <= |trace| && LastLogin(trace[..k]).Some?
    ensures j < k && IsLogin(trace[j]) && NoLogin(trace[j + 1..k])
    ensures LastLogin(trace[..k]) == Some(Login(trace[j].conn, trace[j].sessionId, trace[j].id.value))
  {
    if IsLogin(trace[k - 1]) {
      j := k - 1;
    } else {
      assert trace[..k][..k - 1] == trace[..k - 1];
      j := LoginPosition(trace, k - 1);
      assert trace[j + 1..k] == trace[j + 1..k - 1] + [trace[k - 1]];
    }
  }

  // ---------- Dialling ----------

  /** The endpoints dialled, in order. */
  function Dials(trace: seq<Event>): seq<Endpoint>
  {
    if trace == [] then []
    else
      var e := trace[|trace| - 1];
      Dials(trace[..|trace| - 1]) + if e.Connected? || e.Refused? then [e.endpoint] else []
  }

  lemma DialsAfter(trace: seq<Event>, e: Event)
    ensures Dials(trace + [e]) == Dials(trace) + if e.Connected? || e.Refused? then [e.endpoint] else []
  {
    assert (trace + [e])[..|trace|] == trace;
  }

  lemma {:induction false} DialsDistribute(a: seq<Event>, b: seq<Event>)
    ensures Dials(a + b) == Dials(a) + Dials(b)
  {
    if b == [] {
      assert a + b == a;
    } else {
      var n := |b| - 1;
      assert (a + b)[..|a| + n] == a + b[..n];
      DialsDistribute(a, b[..n]);
    }
  }

  /** The index visited at step `j` of a round-robin over `n` endpoints. */
  function Turn(start: nat, j: nat, n: nat): (index: nat)
    requires n > 0
    ensures index < n
  {
    (start + j) % n
  }

  /** `k` endpoints in rotation from a start index. */
  function Rotation(endpoints: seq<Endpoint>, start: nat, k: nat): (r: seq<Endpoint>)
    requires endpoints != []
    ensures |r| == k
    ensures forall j :: 0 <= j < k ==> r[j] == endpoints[Turn(start, j, |endpoints|)]
  {
    seq(k, j requires 0 <= j < k => endpoints[Turn(start, j, |endpoints|)])
  }

  lemma Multiples(q: int, n: nat)
    requires q >= 1
    ensures q * n >= n
  {
  }

  /** Quotient and remainder determine each other. */
  lemma RemainderIs(x: nat, q: nat, r: nat, n: nat)
    requires r < n && x == q * n + r
    ensures x % n == r
  {
    var q', r' := x / n, x % n;
    assert x == q' * n + r';
    assert (q' - q) * n == r - r' && (q - q') * n == r' - r;
    if q' > q {
      Multiples(q' - q, n);
    } else if q' < q {
      Multiples(q - q', n);
    }
  }

  /** Where step `j < n` of a pass lands, however many passes went before. */
  lemma TurnInPass(start: nat, passes: nat, j: nat, n: nat)
    requires j < n
    ensures var s := start % n; Turn(start, passes * n + j, n) == if s + j < n then s + j else s + j - n
  {
    var s, q := start % n, start / n;
    var q' := q + passes + if s + j < n then 0 else 1;
    var r := if s + j < n then s + j else s + j - n;
    assert start == q * n + s;
    assert (q + passes) * n == q * n + passes * n;
    assert (q + passes + 1) * n == (q + passes) * n + n;
    assert start + (passes * n + j) == q' * n + r;
    RemainderIs(start + (passes * n + j), q', r, n);
  }

  /** A rotation goes on to the next index and from the last one back to the first. */
  lemma TurnAdvances(start: nat, j: nat, n: nat)
    requires start < n
    ensures Turn(start, 0, n) == start
    ensures Turn(start, j + 1, n) == if Turn(start, j, n) == n - 1 then 0 else Turn(start, j, n) + 1
  {
    RemainderIs(start, 0, start, n);
    NextRemainder(start + j, n);
  }

  lemma NextRemainder(x: nat, n: nat)
    requires n > 0
    ensures (x + 1) % n == if x % n == n - 1 then 0 else x % n + 1
  {
    var q, r := x / n, x % n;
    assert x == q * n + r;
    assert (q + 1) * n == q * n + n;
    if r == n - 1 {
      RemainderIs(x + 1, q + 1, 0, n);
    } else {
      RemainderIs(x + 1, q, r + 1, n);
    }
  }

  lemma SameTurnEveryPass(start: nat, passes: nat, j: nat, n: nat)
    requires j < n
    ensures Turn(start, passes * n + j, n) == Turn(start, j, n)
  {
    TurnInPass(start, passes, j, n);
    TurnInPass(start, 0, j, n);
    assert 0 * n + j == j;
  }

  lemma RotationGrows(endpoints: seq<Endpoint>, start: nat, passes: nat, j: nat)
    requires j < |endpoints|
    ensures var k := passes * |endpoints| + j;
            Rotation(endpoints, start, k + 1) == Rotation(endpoints, start, k)
                + [endpoints[Turn(start, j, |endpoints|)]]
  {
    SameTurnEveryPass(start, passes, j, |endpoints|);
  }

  /** One pass visits every endpoint index, each of them once. */
  lemma PassVisitsEachOnce(start: nat, n: nat, index: nat)
    requires index < n
    ensures exists j :: 0 <= j < n && Turn(start, j, n) == index
    ensures forall i, j :: 0 <= i < j < n ==> Turn(start, i, n) != Turn(start, j, n)
  {
    hide Turn;
    var s := start % n;
    forall j | 0 <= j < n ensures Turn(start, j, n) == if s + j < n then s + j else s + j - n {
      TurnInPass(start, 0, j, n);
      assert 0 * n + j == j;
    }
    var j := if s <= index then index - s else index - s + n;
    assert Turn(start, j, n) == index;
  }

  /** Why an attempt failed, read off its last event. */
  function AttemptError(e: Event): Option<Error>
  {
    match e
    case Refused(_, error) => Some(error)
    case OpenSession(_, _, answer) => if Granted(answer).Failure? then Some(Granted(answer).error) else None
    case RequestStatementId(_, _, id) => if id.Lost? then Some(Thrift(id.detail)) else None
    case _ => None
  }

  /** No request yet, and every session opened selects the database `db`. */
  predicate HandshakeOnly(run: seq<Event>, db: Option<string>)
  {
    forall i :: 0 <= i < |run| ==> !run[i].Sent? && (run[i].OpenSession? ==> run[i].database == db)
  }

  /** One attempt at an endpoint: it is dialled once, and a login can only come last. */
  ghost predicate AttemptLeg(leg: seq<Event>, endpoint: Endpoint, db: Option<string>, loggedIn: bool)
  {
    && leg != []
    && Dials(leg) == [endpoint]
    && HandshakeOnly(leg, db)
    && if loggedIn then IsLogin(leg[|leg| - 1]) && NoLogin(leg[..|leg| - 1]) else NoLogin(leg)
  }

  lemma RefusedLeg(endpoint: Endpoint, db: Option<string>, error: Error)
    ensures AttemptLeg([Refused(endpoint, error)], endpoint, db, false)
  {
    DialsAfter([], Refused(endpoint, error));
    assert [] + [Refused(endpoint, error)] == [Refused(endpoint, error)];
  }

  lemma HandshakeLeg(endpoint: Endpoint, db: Option<string>, rest: seq<Event>)
    requires 1 <= |rest| <= 2 && rest[0].OpenSession? && (|rest| == 2 ==> rest[1].RequestStatementId?)
    requires rest[0].database == db
    ensures AttemptLeg([Connected(endpoint)] + rest, endpoint, db, |rest| == 2 && rest[1].id.Got?)
  {
    var e := Connected(endpoint);
    DialsAfter([], e);
    DialsAfter([e], rest[0]);
    assert [] + [e] == [e];
    if |rest| == 2 {
      DialsAfter([e, rest[0]], rest[1]);
      assert [e] + rest == [e, rest[0]] + [rest[1]];
    } else {
      assert [e] + rest == [e] + [rest[0]];
    }
  }

  // ---------- Reconnecting ----------

  /** The first position of the endpoint, 0 when it is unknown. */
  function StartIndex(endpoints: seq<Endpoint>, last: Option<Endpoint>): (start: nat)
    ensures endpoints != [] ==> start < |endpoints|
    ensures last.Some? && last.value in endpoints ==>
              start < |endpoints| && endpoints[start] == last.value && last.value !in endpoints[..start]
    ensures last.None? || last.value !in endpoints ==> start == 0
  {
    if last.None? || last.value !in endpoints then 0 else Position(endpoints, last.value)
  }

  function Position(endpoints: seq<Endpoint>, e: Endpoint): (p: nat)
    requires e in endpoints
    ensures p < |endpoints| && endpoints[p] == e && e !in endpoints[..p]
  {
    if endpoints[0] == e then 0
    else
      assert endpoints == [endpoints[0]] + endpoints[1..];
      var p := Position(endpoints[1..], e);
      assert endpoints[..p + 1] == [endpoints[0]] + endpoints[1..][..p];
      p + 1
  }

  /**
   The events of a reconnect: endpoints dialled in rotation, at most `attempts` full passes; a login can
   only be the last event, and without one every pass was made.
   */
  ghost predicate ReconnectRun(endpoints: seq<Endpoint>, start: nat, attempts: nat, db: Option<string>, run: seq<Event>,
                               loggedIn: bool)
    requires endpoints != []
  {
    var dials := |Dials(run)|;
    && dials <= attempts * |endpoints|
    && Dials(run) == Rotation(endpoints, start, dials)
    && HandshakeOnly(run, db)
    && if loggedIn then run != [] && IsLogin(run[|run| - 1]) && NoLogin(run[..|run| - 1])
       else NoLogin(run) && dials == attempts * |endpoints|
  }

  /** A reconnect under way: so many dials in rotation and no login yet. */
  ghost predicate Dialling(endpoints: seq<Endpoint>, start: nat, dials: nat, db: Option<string>, run: seq<Event>)
    requires endpoints != []
  {
    && Dials(run) == Rotation(endpoints, start, dials)
    && HandshakeOnly(run, db)
    && NoLogin(run)
  }

  lemma OneMoreDial(endpoints: seq<Endpoint>, start: nat, attempts: nat, passes: nat, j: nat, db: Option<string>,
                    run: seq<Event>, leg: seq<Event>, loggedIn: bool)
    requires j < |endpoints| && passes < attempts && Dialling(endpoints, start, passes * |endpoints| + j, db, run)
    requires AttemptLeg(leg, endpoints[Turn(start, j, |endpoints|)], db, loggedIn)
    ensures if loggedIn then ReconnectRun(endpoints, start, attempts, db, run + leg, true)
            else Dialling(endpoints, start, passes * |endpoints| + (j + 1), db, run + leg)
  {
    hide Dials, Turn;
    DialsDistribute(run, leg);
    RotationGrows(endpoints, start, passes, j);
    PassesLeft(passes, j, attempts, |endpoints|);
  }

  lemma PassesLeft(passes: nat, j: nat, attempts: nat, n: nat)
    requires passes < attempts && j < n
    ensures passes * n + j + 1 <= attempts * n
  {
    assert (attempts - passes - 1) * n >= 0;
    assert attempts * n == passes * n + n + (attempts - passes - 1) * n;
  }

  lemma NothingDialled(endpoints: seq<Endpoint>, start: nat, db: Option<string>)
    requires endpoints != []
    ensures Dialling(endpoints, start, 0 * |endpoints|, db, [])
  {
  }

  lemma AllDialled(endpoints: seq<Endpoint>, start: nat, attempts: nat, db: Option<string>, run: seq<Event>)
    requires endpoints != [] && Dialling(endpoints, start, attempts * |endpoints|, db, run)
    ensures ReconnectRun(endpoints, start, attempts, db, run, false)
  {
  }

  // ---------- Retrying ----------

  /** How many requests a stretch of the trace holds. */
  function Requests(run: seq<Event>): (n: nat)
    ensures n <= |run|
  {
    if run == [] then 0 else (if run[0].Sent? then 1 else 0) + Requests(run[1..])
  }

  lemma {:induction false} NoRequests(run: seq<Event>, rest: seq<Event>)
    requires forall i :: 0 <= i < |run| ==> !run[i].Sent?
    ensures Requests(run + rest) == Requests(rest)
  {
    if run == [] {
      assert run + rest == rest;
    } else {
      assert (run + rest)[1..] == run[1..] + rest;
      NoRequests(run[1..], rest);
    }
  }

  /**
   A retried operation: the first request was lost, a reconnect followed, and only after its login the same
   operation went out once more.
   */
  ghost predicate RetriedRun(endpoints: seq<Endpoint>, start: nat, attempts: nat, db: Option<string>, first: Event,
                             run: seq<Event>, again: bool)
    requires first.Sent?
  {
    && run != [] && run[0] == first
    && if endpoints == [] then run == [first] && !again
       else if again then
         && |run| >= 2 && run[|run| - 1].Sent? && run[|run| - 1].op == first.op
         && ReconnectRun(endpoints, start, attempts, db, run[1..|run| - 1], true)
       else ReconnectRun(endpoints, start, attempts, db, run[1..], false)
  }

  lemma AtMostTwo(endpoints: seq<Endpoint>, start: nat, attempts: nat, db: Option<string>, first: Event,
        run: seq<Event>, again: bool)
    requires first.Sent? && RetriedRun(endpoints, start, attempts, db, first, run, again)
    ensures Requests(run) == if again then 2 else 1
  {
    hide Dials, Rotation;
    var rest := run[1..];
    if endpoints == [] {
      assert rest == [];
    } else if again {
      var n := |run| - 1;
      NoRequests(run[1..n], [run[n]]);
      assert rest == run[1..n] + [run[n]];
      assert Requests([run[n]]) == 1 + Requests([]);
    } else {
      NoRequests(rest, []);
      assert rest + [] == rest;
    }
  }

  /** Every request of the run is this operation. */
  predicate CarriesOnly(run: seq<Event>, op: Op)
  {
    forall i :: 0 <= i < |run| && run[i].Sent? ==> run[i].op == op
  }

  /** How an RPC's outcome reaches its caller. */
  function Outcome(reply: Answer<Reply>): Result<Reply>
  {
    if reply.Got? then Success(reply.value) else Failure(Thrift(reply.detail))
  }

  /**
   How an operation ends, read off its events: by its last request, which is the first one unless a login allowed
   another.
   */
  function Conclusion(run: seq<Event>): (r: Result<Reply>)
    ensures r.Failure? ==> r.error == Client(NotOpen) || r.error.Thrift?
  {
    if run == [] then Failure(Client(NotOpen))
    else if run[|run| - 1].Sent? then Outcome(run[|run| - 1].reply)
    else Conclusion(run[..|run| - 1])
  }

  lemma {:induction false} ConclusionSkips(run: seq<Event>, rest: seq<Event>)
    requires forall i :: 0 <= i < |rest| ==> !rest[i].Sent?
    ensures Conclusion(run + rest) == Conclusion(run)
  {
    if rest == [] {
      assert run + rest == run;
    } else {
      var n := |rest| - 1;
      assert (run + rest)[..|run| + n] == run + rest[..n];
      ConclusionSkips(run, rest[..n]);
    }
  }

  /** A run ends as its last request does: by what was answered, or by the transport's own failure. */
  lemma LastRequestDecides(before: seq<Event>, last: Event, rest: seq<Event>)
    requires last.Sent? && forall i :: 0 <= i < |rest| ==> !rest[i].Sent?
    ensures match last.reply
            case Got(value) => Conclusion(before + [last] + rest) == Success(value)
            case Lost(detail) => Conclusion(before + [last] + rest) == Failure(Thrift(detail))
  {
    ConclusionSkips(before + [last], rest);
  }

  lemma RetryCarriesOnly(endpoints: seq<Endpoint>, start: nat, attempts: nat, db: Option<string>, first: Event,
        run: seq<Event>, again: bool)
    requires first.Sent? && RetriedRun(endpoints, start, attempts, db, first, run, again)
    ensures CarriesOnly(run, first.op)
    ensures !again ==> Conclusion(run) == Outcome(first.reply)
  {
    hide Dials, Rotation;
    if endpoints != [] {
      var n := if again then |run| - 1 else |run|;
      forall i | 1 <= i < n ensures !run[i].Sent? {
        assert run[i] == run[1..n][i - 1];
      }
      if !again {
        assert run[1..n] == run[1..];
      }
    }
    if !again {
      ConclusionSkips([first], run[1..]);
      assert [first] + run[1..] == run;
    }
  }

  /** The first request was lost and no endpoint took the session back. */
  lemma GivenUp(endpoints: seq<Endpoint>, start: nat, attempts: nat, db: Option<string>, first: Event,
        middle: seq<Event>)
    requires first.Sent?
    requires if endpoints == [] then middle == [] else ReconnectRun(endpoints, start, attempts, db, middle, false)
    ensures var run := [first] + middle;
            && RetriedRun(endpoints, start, attempts, db, first, run, false)
            && Requests(run) <= 2 && CarriesOnly(run, first.op) && Conclusion(run) == Outcome(first.reply)
  {
    hide ReconnectRun, Requests;
    var run := [first] + middle;
    assert run[1..] == middle;
    AtMostTwo(endpoints, start, attempts, db, first, run, false);
    RetryCarriesOnly(endpoints, start, attempts, db, first, run, false);
  }

  /** The first request was lost, a reconnect logged in, and the operation went out again. */
  lemma TriedAgain(endpoints: seq<Endpoint>, start: nat, attempts: nat, db: Option<string>, first: Event,
        middle: seq<Event>, second: Event)
    requires first.Sent? && second.Sent? && second.op == first.op && endpoints != []
    requires ReconnectRun(endpoints, start, attempts, db, middle, true)
    ensures var run := [first] + middle + [second];
            && RetriedRun(endpoints, start, attempts, db, first, run, true)
            && Requests(run) <= 2 && CarriesOnly(run, first.op) && Conclusion(run) == Conclusion([second])
            && run[|run| - 1] == second
  {
    hide ReconnectRun, Requests;
    var run := [first] + middle + [second];
    assert run[1..|run| - 1] == middle;
    AtMostTwo(endpoints, start, attempts, db, first, run, true);
    RetryCarriesOnly(endpoints, start, attempts, db, first, run, true);
  }
}
