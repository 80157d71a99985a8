/** A query's result set: rows are drawn from the current block, then cached blocks, then further pages. */
module DataSets {
  import opened Wrappers
  import opened Bytes
  import opened Values
  import opened BlockFormat
  import opened BlockReader
  import opened Status
  import E = BlockRoundTrip
  import opened SessionTrace
  import opened Sessions

  datatype Row = Row(timestamp: Option<i64>, values: seq<Value>)

  // ---------- One row ----------

  /** Re-tags a value from the physical type of the block to the logical type of the column. */
  function ApplyLogicalType(v: Value, logical: Option<string>): Value
  {
    if logical == Some("DATE") && v.Int32? then Date(v.i)
    else if logical == Some("TIMESTAMP") && v.Int64? then Timestamp(v.l)
    else if logical == Some("STRING") && v.Text? then String(v.t)
    else if logical == Some("BLOB") && v.Text? then Blob(v.t)
    else v
  }

  /** A binary column the server calls BLOB yields exactly the bytes on the wire, be they UTF-8 or not. */
  lemma BlobsAreWireBytes(ty: TSDataType, b: bytes)
    requires ty == TEXT || ty == BLOB
    ensures FromBinary(ty, b).Success? && ApplyLogicalType(FromBinary(ty, b).value, Some("BLOB")) == Blob(b)
  {
  }

  /** Re-tagging never turns a value into a null or a null into a value, and leaves the payload alone. */
  lemma RetaggingKeepsPayload(v: Value, logical: Option<string>)
    requires v != Null
    ensures ApplyLogicalType(v, logical) != Null && Payload(ApplyLogicalType(v, logical)) == Payload(v)
    ensures ApplyLogicalType(Null, logical) == Null
  {
  }

  /** The four pairs of physical and logical type that re-tag, and no other. */
  lemma RetaggingIff(v: Value, logical: string)
    ensures v.Int32? ==> ApplyLogicalType(v, Some("DATE")) == Date(v.i)
    ensures v.Int64? ==> ApplyLogicalType(v, Some("TIMESTAMP")) == Timestamp(v.l)
    ensures v.Text? ==> ApplyLogicalType(v, Some("STRING")) == String(v.t)
    ensures v.Text? ==> ApplyLogicalType(v, Some("BLOB")) == Blob(v.t)
    ensures ApplyLogicalType(v, None) == v
    ensures ApplyLogicalType(v, Some(logical)) != v <==>
            || (v.Int32? && logical == "DATE") || (v.Int64? && logical == "TIMESTAMP")
            || (v.Text? && (logical == "STRING" || logical == "BLOB"))
  {
  }

  const TIME_COLUMN: i32 := -1

  /** Where an output column lives in the block; the identity when the response gives no index map. */
  function PhysicalColumn(indexMap: Option<seq<i32>>, ordinal: nat): Result<i32>
  {
    match indexMap
    case None => Success(AsI32(ordinal))
    case Some(m) => if ordinal < |m| then Success(m[ordinal]) else Failure(Decode(IndexMapTooShort))
  }

  function CellAt(q: QueryHandle, block: TsBlock, i: nat, ordinal: nat): Result<Value>
    requires WellShaped(block) && i < block.positionCount
  {
    var physical :- PhysicalColumn(q.indexMap, ordinal);
    if physical == TIME_COLUMN then Success(Timestamp(block.timestamps[i]))
    else if 0 <= physical < |block.columns| then
      Success(ApplyLogicalType(block.columns[physical][i],
                               if ordinal < |q.types| then Some(q.types[ordinal]) else None))
    else Failure(Decode(IndexMapOutOfRange))
  }

  /** The first `k` cells of a row, or the first failure among them. */
  function CellsUpTo(q: QueryHandle, block: TsBlock, i: nat, k: nat): (r: Result<seq<Value>>)
    requires WellShaped(block) && i < block.positionCount
    ensures r.Success? ==> |r.value| == k
  {
    if k == 0 then Success([])
    else
      var before :- CellsUpTo(q, block, i, k - 1);
      var v :- CellAt(q, block, i, k - 1);
      Success(before + [v])
  }

  function RowAt(q: QueryHandle, block: TsBlock, i: nat): Result<Row>
    requires WellShaped(block) && i < block.positionCount
  {
    var values :- CellsUpTo(q, block, i, |q.columns|);
    Success(Row(if q.ignoreTimestamp then None else Some(block.timestamps[i]), values))
  }

  /** Every output column has a place in the block: the index map is long enough and points at the time or a column. */
  ghost predicate Mapped(q: QueryHandle, block: TsBlock)
  {
    forall ordinal :: 0 <= ordinal < |q.columns| ==>
      var p := PhysicalColumn(q.indexMap, ordinal);
      p.Success? && (p.value == TIME_COLUMN || 0 <= p.value < |block.columns|)
  }

  lemma {:induction false} CellsIff(q: QueryHandle, block: TsBlock, i: nat, k: nat)
    requires WellShaped(block) && i < block.positionCount
    ensures CellsUpTo(q, block, i, k).Success? <==> forall o :: 0 <= o < k ==> CellAt(q, block, i, o).Success?
    ensures CellsUpTo(q, block, i, k).Success? ==>
              forall o :: 0 <= o < k ==> CellAt(q, block, i, o) == Success(CellsUpTo(q, block, i, k).value[o])
  {
    hide CellAt;
    if k > 0 {
      CellsIff(q, block, i, k - 1);
    }
  }

  /** Rows of a decoded block assemble exactly when every output column is mapped: the row itself never matters. */
  lemma RowAssemblesIff(q: QueryHandle, block: TsBlock, i: nat)
    requires WellShaped(block) && i < block.positionCount
    ensures RowAt(q, block, i).Success? <==> Mapped(q, block)
    ensures RowAt(q, block, i).Success? ==>
              forall o :: 0 <= o < |q.columns| ==> CellAt(q, block, i, o) == Success(RowAt(q, block, i).value.values[o])
  {
    CellsIff(q, block, i, |q.columns|);
    if forall o :: 0 <= o < |q.columns| ==> CellAt(q, block, i, o).Success? {
      forall o | 0 <= o < |q.columns|
        ensures var p := PhysicalColumn(q.indexMap, o);
                p.Success? && (p.value == TIME_COLUMN || 0 <= p.value < |block.columns|)
      {
        assert CellAt(q, block, i, o).Success?;
      }
    }
  }

  /** An index map reaches every output column exactly when it is long enough and stays between -1 and the columns. */
  lemma MappedIff(q: QueryHandle, block: TsBlock, m: seq<i32>)
    requires q.indexMap == Some(m)
    ensures Mapped(q, block) <==>
            |q.columns| <= |m| && forall o :: 0 <= o < |q.columns| ==> -1 <= m[o] < |block.columns|
  {
    if Mapped(q, block) {
      forall o | 0 <= o < |q.columns| ensures o < |m| && -1 <= m[o] < |block.columns| {
        assert PhysicalColumn(q.indexMap, o).Success?;
      }
      if q.columns != [] {
        assert PhysicalColumn(q.indexMap, |q.columns| - 1).Success?;
      }
    }
  }

  /** A mapped output column is the row's time at index -1 and otherwise the cell of that column, re-tagged. */
  lemma CellByMap(q: QueryHandle, block: TsBlock, i: nat, m: seq<i32>, o: nat)
    requires WellShaped(block) && i < block.positionCount
    requires q.indexMap == Some(m) && o < |m| && |q.types| > o && -1 <= m[o] < |block.columns|
    ensures CellAt(q, block, i, o) == Success(
            if m[o] == -1 then Timestamp(block.timestamps[i])
            else ApplyLogicalType(block.columns[m[o]][i], Some(q.types[o])))
  {
  }

  /** Counting the columns in order is the same as giving no index map. */
  lemma IdentityMapIsNoMap(q: QueryHandle, block: TsBlock, i: nat, m: seq<i32>)
    requires WellShaped(block) && i < block.positionCount
    requires |m| >= |q.columns| && forall o :: 0 <= o < |q.columns| ==> m[o] == o
    ensures RowAt(q.(indexMap := Some(m)), block, i) == RowAt(q.(indexMap := None), block, i)
  {
    SameCells(q.(indexMap := Some(m)), q.(indexMap := None), block, i, |q.columns|);
  }

  lemma {:induction false} SameCells(a: QueryHandle, b: QueryHandle, block: TsBlock, i: nat, k: nat)
    requires WellShaped(block) && i < block.positionCount && a.types == b.types
    requires forall o :: 0 <= o < k ==> PhysicalColumn(a.indexMap, o) == PhysicalColumn(b.indexMap, o)
    ensures CellsUpTo(a, block, i, k) == CellsUpTo(b, block, i, k)
  {
    hide PhysicalColumn;
    if k > 0 {
      SameCells(a, b, block, i, k - 1);
    }
  }

  // ---------- The stream ----------

  /** A row, or the error met in its place. */
  type Item = Result<Row>

  function RowsFrom(q: QueryHandle, block: TsBlock, i: nat): (items: seq<Item>)
    requires WellShaped(block) && i <= block.positionCount
    ensures |items| == block.positionCount - i
    ensures forall k :: 0 <= k < |items| ==> items[k] == RowAt(q, block, i + k)
  {
    seq(block.positionCount - i, k requires 0 <= k < block.positionCount - i => RowAt(q, block, i + k))
  }

  function Decoded(buf: bytes): (r: Result<TsBlock>)
    ensures r.Success? ==> WellShaped(r.value)
  {
    match ParseBlock(buf)
    case Done(b, _) => Success(b)
    case Fail(why) => Failure(Decode(why))
  }

  function BlockItems(q: QueryHandle, buf: bytes): seq<Item>
  {
    match Decoded(buf)
    case Failure(e) => [Failure(e)]
    case Success(b) => RowsFrom(q, b, 0)
  }

  function BlocksItems(q: QueryHandle, bufs: seq<bytes>): seq<Item>
  {
    if bufs == [] then [] else BlockItems(q, bufs[0]) + BlocksItems(q, bufs[1..])
  }

  function PageAt(script: Script, q: QueryHandle, n: nat): Result<(seq<bytes>, bool)>
  {
    PageOf(script.Reply(Fetch(q.queryId, q.statement), n))
  }

  /** The server says at step `n` that no page follows, or fails to answer. */
  predicate LastPage(script: Script, q: QueryHandle, n: nat)
  {
    var page := PageAt(script, q, n);
    page.Failure? || !page.value.1
  }

  /** The rows of the pages fetched from step `n` on, up to a last page. */
  function PagesItems(script: Script, q: QueryHandle, n: nat, horizon: nat): seq<Item>
    requires n <= horizon && LastPage(script, q, horizon)
    decreases horizon - n
  {
    match PageAt(script, q, n)
    case Failure(e) => [Failure(e)]
    case Success((blocks, more)) => BlocksItems(q, blocks) + if more then PagesItems(script, q, n + 1, horizon) else []
  }

  predicate AllRows(items: seq<Item>)
  {
    forall k :: 0 <= k < |items| ==> items[k].Success?
  }

  function RowsOf(items: seq<Item>): (rows: seq<Row>)
    requires AllRows(items)
    ensures |rows| == |items|
    ensures forall k :: 0 <= k < |items| ==> items[k] == Success(rows[k])
  {
    seq(|items|, k requires 0 <= k < |items| => items[k].value)
  }

  // ---------- What a result set may send ----------

  predicate IsFetch(e: Event, c: Connection, q: QueryHandle)
  {
    e.Sent? && e.conn == c.id && e.op == Fetch(q.queryId, q.statement)
  }

  predicate IsClose(e: Event, c: Connection, q: QueryHandle)
  {
    e.Sent? && e.conn == c.id && e.op == CloseOperation(q.queryId)
  }

  /** Since the query: fetches on its own connection, and once closed exactly one close, the last event. */
  ghost predicate OnlyThisQuery(tail: seq<Event>, c: Option<Connection>, q: QueryHandle, closed: bool)
  {
    match c
    case None => tail == []
    case Some(conn) =>
      if closed then
        && tail != [] && IsClose(tail[|tail| - 1], conn, q)
        && forall i :: 0 <= i < |tail| - 1 ==> IsFetch(tail[i], conn, q)
      else forall i :: 0 <= i < |tail| ==> IsFetch(tail[i], conn, q)
  }

  class SessionDataSet {
    const session: Session
    const query: QueryHandle
    var pending: seq<bytes>
    var current: Option<TsBlock>
    var rowIndex: nat
    var moreData: bool
    var closed: bool
    /** The connection the query ran on, and how long the trace was then. */
    ghost const origin: Option<Connection>
    ghost const started: nat

    ghost predicate Valid()
      reads this, session, session.cache
    {
      && session.Valid()
      && session.connection == origin
      && started <= |session.trace| && OnlyThisQuery(session.trace[started..], origin, query, closed)
      && (current.Some? ==> WellShaped(current.value) && rowIndex <= current.value.positionCount)
      && (closed ==> pending == [] && current == None)
    }

    /** The server ends the query by step `horizon`. */
    ghost predicate EndsBy(horizon: nat)
      reads this`closed, this`moreData, session`tick
    {
      !closed && moreData && origin.Some? ==> session.tick <= horizon && LastPage(session.script, query, horizon)
    }

    /** Everything still to come, in order. */
    ghost function Items(horizon: nat): seq<Item>
      requires Valid() && EndsBy(horizon)
      reads this, session, session.cache
    {
      CurrentItems() + (BlocksItems(query, pending) + FurtherItems(horizon))
    }

    ghost function CurrentItems(): seq<Item>
      requires current.Some? ==> WellShaped(current.value) && rowIndex <= current.value.positionCount
      reads this
    {
      if current.None? then [] else RowsFrom(query, current.value, rowIndex)
    }

    ghost function FurtherItems(horizon: nat): seq<Item>
      requires EndsBy(horizon)
      reads this`closed, this`moreData, session`tick
    {
      if closed || !moreData then []
      else if origin.None? then [Failure(Client(NotOpen))]
      else PagesItems(session.script, query, session.tick, horizon)
    }

    constructor (session: Session, handle: QueryHandle)
      requires session.Valid()
      ensures Valid() && !closed
      ensures this.session == session && query == handle && origin == session.connection && started == |session.trace|
      ensures pending == handle.blocks && moreData == handle.moreData && current == None
    {
      this.session := session;
      query := handle;
      pending := handle.blocks;
      current := None;
      rowIndex := 0;
      moreData := handle.moreData;
      closed := false;
      origin := session.connection;
      started := |session.trace|;
    }

    method AssembleRow() returns (r: Result<Row>)
      requires current.Some? && WellShaped(current.value) && rowIndex < current.value.positionCount
      ensures r == RowAt(query, current.value, rowIndex)
    {
      hide CellAt;
      var block, values := current.value, [];
      for ordinal := 0 to |query.columns|
        invariant CellsUpTo(query, block, rowIndex, ordinal) == Success(values)
      {
        var physical := PhysicalColumn(query.indexMap, ordinal);
        CellUnfolds(query, block, rowIndex, ordinal);
        FailsFromHere(query, block, rowIndex, ordinal, |query.columns|);
        if physical.Failure? {
          return Failure(physical.error);
        }
        if physical.value == TIME_COLUMN {
          values := values + [Timestamp(block.timestamps[rowIndex])];
        } else if 0 <= physical.value < |block.columns| {
          values := values + [ApplyLogicalType(block.columns[physical.value][rowIndex],
                                               if ordinal < |query.types| then Some(query.types[ordinal]) else None)];
        } else {
          return Failure(Decode(IndexMapOutOfRange));
        }
      }
      r := Success(Row(if query.ignoreTimestamp then None else Some(block.timestamps[rowIndex]), values));
    }

    /** Yields the row at the index of the current block; one that cannot be assembled stays where it is. */
    method TakeRow(ghost horizon: nat) returns (r: Result<Row>)
      requires Valid() && EndsBy(horizon) && !closed && current.Some? && rowIndex < current.value.positionCount
      modifies this`rowIndex
      ensures Valid() && EndsBy(horizon)
      ensures old(Items(horizon)) != [] && old(Items(horizon))[0] == r
      ensures r.Success? ==> Items(horizon) == old(Items(horizon))[1..]
    {
      hide Session.Valid, BlocksItems, RowsFrom, OnlyThisQuery, RowAt, FurtherItems, LastPage;
      r := AssembleRow();
      RowsLeft(query, current.value, rowIndex, BlocksItems(query, pending) + FurtherItems(horizon));
      if r.Success? {
        rowIndex := rowIndex + 1;
      }
    }

    method DropBlock(ghost horizon: nat)
      requires Valid() && EndsBy(horizon) && !closed && current.Some? && rowIndex >= current.value.positionCount
      modifies this`current
      ensures Valid() && EndsBy(horizon) && current == None && Items(horizon) == old(Items(horizon))
    {
      hide Session.Valid, BlocksItems, RowsFrom, OnlyThisQuery, FurtherItems, LastPage;
      NoRowsLeft(query, current.value, BlocksItems(query, pending) + FurtherItems(horizon));
      current := None;
    }

    lemma NothingLeft(horizon: nat)
      requires Valid() && EndsBy(horizon) && current == None && pending == [] && !moreData
      ensures Items(horizon) == []
    {
    }

    /** Decodes the next cached block; one that does not decode is gone. */
    method TakeBlock(ghost horizon: nat) returns (r: Result<()>)
      requires Valid() && EndsBy(horizon) && !closed && current == None && pending != []
      modifies this`pending, this`current, this`rowIndex
      ensures Valid() && EndsBy(horizon) && pending == old(pending)[1..]
      ensures r.Success? ==> Items(horizon) == old(Items(horizon))
      ensures r.Failure? ==> old(Items(horizon)) != [] && old(Items(horizon))[0] == Failure(r.error)
    {
      hide Session.Valid, BlocksItems, PagesItems, RowsFrom, OnlyThisQuery, PageOf, ParseBlock, FurtherItems, LastPage;
      var bytes := pending[0];
      NextBlock(query, pending, FurtherItems(horizon));
      pending := pending[1..];
      var block := DecodeBlock(bytes);
      if block.Failure? {
        return Failure(block.error);
      }
      current := Some(block.value);
      rowIndex := 0;
      r := Success(());
    }

    /** Fetches the next page; the measure of what the server may still send goes down. */
    method TakePage(ghost horizon: nat) returns (r: Result<()>)
      requires Valid() && EndsBy(horizon) && !closed && current == None && pending == [] && moreData
      modifies this`pending, this`moreData, session`trace, session`tick
      ensures Valid()
      ensures r.Success? ==>
                EndsBy(horizon) && Items(horizon) == old(Items(horizon))
                && PagesLeft(horizon) < old(PagesLeft(horizon))
      ensures r.Failure? ==> old(Items(horizon)) != [] && old(Items(horizon))[0] == Failure(r.error)
    {
      hide Session.Valid, BlocksItems, PagesItems, OnlyThisQuery, PageOf;
      if origin.Some? {
        NextPage(session.script, query, session.tick, horizon);
      }
      assert BlocksItems(query, []) == [] by { NoBlocks(query); }
      ghost var before := session.trace;
      var page := session.FetchResults(query.queryId, query.statement);
      FetchKept(before, session.trace, started, origin, query);
      if page.Failure? {
        assert old(FurtherItems(horizon)) == [Failure(page.error)];
        return Failure(page.error);
      }
      pending, moreData := page.value.0, page.value.1;
      assert EndsBy(horizon);
      assert old(FurtherItems(horizon)) == BlocksItems(query, pending) + FurtherItems(horizon);
      r := Success(());
    }

    /** How many more pages a call may have to fetch. */
    ghost function PagesLeft(horizon: nat): nat
      requires EndsBy(horizon) && !closed
      reads this`closed, this`moreData, session`tick
    {
      if !moreData then 0 else if origin.None? then 1 else horizon - session.tick + 1
    }

    /**
     Draws the next row: from the current block, else from the next cached block, else from the next page.
     At the end the query is closed. Whatever is still to come loses exactly the row returned.
     */
    method NextRow(ghost horizon: nat) returns (r: Result<Option<Row>>)
      requires Valid() && EndsBy(horizon)
      modifies this`closed, this`pending, this`current, this`rowIndex, this`moreData, session`trace, session`tick
      ensures Valid()
      ensures old(closed) ==> r == Success(None) && closed && session.trace == old(session.trace)
      ensures !old(closed) ==> NextOf(old(Items(horizon)), r) && (closed <==> r == Success(None))
      ensures !old(closed) && r.Success? && r.value.Some? ==>
                EndsBy(horizon)
                && Items(horizon) == old(Items(horizon))[1..]
    {
      hide Valid, EndsBy, Items, PagesLeft;
      if closed {
        return Success(None);
      }
      ghost var items := Items(horizon);
      while true
        invariant Valid() && !closed && EndsBy(horizon) && Items(horizon) == items
        decreases PagesLeft(horizon), |pending|, if current.Some? then 1 else 0
      {
        if current.Some? {
          if rowIndex < current.value.positionCount {
            var row := TakeRow(horizon);
            if row.Failure? {
              return Failure(row.error);
            }
            return Success(Some(row.value));
          }
          DropBlock(horizon);
        }
        if pending != [] {
          var taken := TakeBlock(horizon);
          if taken.Failure? {
            return Failure(taken.error);
          }
          continue;
        }
        if moreData {
          var taken := TakePage(horizon);
          if taken.Failure? {
            return Failure(taken.error);
          }
          // An empty page that is not the last one is no end: ask again.
          if pending != [] || moreData {
            continue;
          }
        }
        NothingLeft(horizon);
        Close();
        return Success(None);
      }
    }

    /** Idempotent: the first call closes the query on its own connection, a later one does nothing. */
    method Close()
      requires Valid()
      modifies this`closed, this`pending, this`current, session`trace, session`tick
      ensures Valid() && closed && pending == [] && current == None
      ensures old(closed) ==> session.trace == old(session.trace)
      ensures !old(closed) && origin.Some? ==> |session.trace| == |old(session.trace)| + 1
    {
      hide Session.Valid;
      if closed {
        return;
      }
      closed := true;
      pending := [];
      current := None;
      ghost var before := session.trace;
      session.CloseQuery(query.queryId);
      assert session.trace[started..] == before[started..] + session.trace[|before|..];
    }
  }

  lemma CellUnfolds(q: QueryHandle, block: TsBlock, i: nat, ordinal: nat)
    requires WellShaped(block) && i < block.positionCount
    ensures var p := PhysicalColumn(q.indexMap, ordinal);
            CellAt(q, block, i, ordinal)
            == if p.Failure? then Failure(p.error)
               else if p.value == TIME_COLUMN then Success(Timestamp(block.timestamps[i]))
               else if 0 <= p.value < |block.columns| then
                 Success(ApplyLogicalType(block.columns[p.value][i],
                                          if ordinal < |q.types| then Some(q.types[ordinal]) else None))
               else Failure(Decode(IndexMapOutOfRange))
  {
  }

  lemma {:induction false} FailsFromHere(q: QueryHandle, block: TsBlock, i: nat, ordinal: nat, k: nat)
    requires WellShaped(block) && i < block.positionCount && ordinal < k
    requires CellsUpTo(q, block, i, ordinal).Success?
    ensures CellAt(q, block, i, ordinal).Failure? ==>
              CellsUpTo(q, block, i, k) == Failure(CellAt(q, block, i, ordinal).error)
  {
    hide CellAt;
    if ordinal < k - 1 {
      FailsFromHere(q, block, i, ordinal, k - 1);
    }
  }

  // ---------- Steps of the stream ----------

  /** What a call returns, given what was still to come. */
  predicate NextOf(items: seq<Item>, r: Result<Option<Row>>)
  {
    if items == [] then r == Success(None)
    else match items[0]
         case Failure(e) => r == Failure(e)
         case Success(row) => r == Success(Some(row))
  }

  lemma RowsLeft(q: QueryHandle, block: TsBlock, i: nat, rest: seq<Item>)
    requires WellShaped(block) && i < block.positionCount
    ensures RowsFrom(q, block, i) + rest == [RowAt(q, block, i)] + (RowsFrom(q, block, i + 1) + rest)
    ensures (RowsFrom(q, block, i) + rest)[1..] == RowsFrom(q, block, i + 1) + rest
  {
    hide RowAt;
    assert RowsFrom(q, block, i) == [RowAt(q, block, i)] + RowsFrom(q, block, i + 1);
  }

  lemma NoRowsLeft(q: QueryHandle, block: TsBlock, rest: seq<Item>)
    requires WellShaped(block)
    ensures RowsFrom(q, block, block.positionCount) + rest == rest == [] + rest
  {
  }

  lemma NoBlocks(q: QueryHandle)
    ensures BlocksItems(q, []) == []
  {
  }

  lemma NextBlock(q: QueryHandle, pending: seq<bytes>, rest: seq<Item>)
    requires pending != []
    ensures [] + (BlocksItems(q, pending) + rest) == BlockItems(q, pending[0]) + (BlocksItems(q, pending[1..]) + rest)
  {
    hide BlockItems;
  }

  lemma NextPage(script: Script, q: QueryHandle, n: nat, horizon: nat)
    requires n <= horizon && LastPage(script, q, horizon)
    ensures var page := PageAt(script, q, n);
            && PagesItems(script, q, n, horizon)
               == (match page
                   case Failure(e) => [Failure(e)]
                   case Success((blocks, more)) =>
                     BlocksItems(q, blocks) + if more then PagesItems(script, q, n + 1, horizon) else [])
            && (page.Success? && page.value.1 ==> n < horizon)
  {
    hide BlocksItems, PageOf;
  }

  lemma FetchKept(before: seq<Event>, after: seq<Event>, started: nat, c: Option<Connection>, q: QueryHandle)
    requires started <= |before| && OnlyThisQuery(before[started..], c, q, false)
    requires c.None? ==> after == before
    requires c.Some? ==> |after| == |before| + 1 && after[..|before|] == before && IsFetch(after[|before|], c.value, q)
    ensures OnlyThisQuery(after[started..], c, q, false)
  {
    if c.Some? {
      var tail := after[started..];
      forall i | 0 <= i < |tail| ensures IsFetch(tail[i], c.value, q) {
        if i < |tail| - 1 {
          assert tail[i] == before[started..][i];
        }
      }
    }
  }

  // ---------- Whole result sets ----------

  /** Runs a query and hands out its result set, pinned to the connection that answered. */
  method ExecuteQuery(session: Session, sql: string) returns (r: Result<SessionDataSet>, ghost run: seq<Event>)
    requires session.Valid()
    modifies session`connection, session`sessionId, session`statementId, session`lastEndpoint, session`trace,
        session`tick
    ensures session.Valid() && session.trace == old(session.trace) + run
    ensures r.Failure? <==> HandleOf(sql, Conclusion(run)).Failure?
    ensures r.Failure? ==> r.error == HandleOf(sql, Conclusion(run)).error
    ensures r.Success? ==> fresh(r.value) && r.value.Valid() && !r.value.closed && r.value.session == session
    ensures r.Success? ==> r.value.query == HandleOf(sql, Conclusion(run)).value && r.value.started == |session.trace|
    ensures r.Success? ==> r.value.origin.Some? && run != [] && run[|run| - 1].Sent?
                           && run[|run| - 1].conn == r.value.origin.value.id
    ensures r.Success? ==>
              r.value.pending == r.value.query.blocks && r.value.moreData == r.value.query.moreData
              && r.value.current == None
  {
    hide Session.Valid, HandleOf, Conclusion;
    var handle;
    handle, run := session.ExecuteQueryRaw(sql);
    if handle.Failure? {
      return Failure(handle.error), run;
    }
    var ds := new SessionDataSet(session, handle.value);
    r := Success(ds);
  }

  /**
   Iterating to the end: without an error, the rows yielded are all rows of all blocks of all pages in order, and the
   query has been closed on its own connection; else the rows before the first error, and that error.
   */
  method ReadAll(ds: SessionDataSet, ghost horizon: nat) returns (rows: seq<Row>, error: Option<Error>)
    requires ds.Valid() && !ds.closed && ds.EndsBy(horizon)
    modifies ds`closed, ds`pending, ds`current, ds`rowIndex, ds`moreData, ds.session`trace, ds.session`tick
    ensures ds.Valid()
    ensures var items := old(ds.Items(horizon));
            if AllRows(items) then error == None && rows == RowsOf(items) && ds.closed
            else |rows| < |items| && Drawn(items, rows) && items[|rows|].Failure? && error == Some(items[|rows|].error)
  {
    hide ds.Valid, ds.EndsBy, ds.Items, Drawn, AllRows;
    ghost var items := ds.Items(horizon);
    rows, error := [], None;
    NothingDrawn(items);
    while true
      invariant ds.Valid() && !ds.closed && ds.EndsBy(horizon)
      invariant |rows| <= |items| && ds.Items(horizon) == items[|rows|..]
      invariant Drawn(items, rows)
      decreases |items| - |rows|
    {
      var r := ds.NextRow(horizon);
      if r.Failure? {
        FailureAhead(items, |rows|);
        return rows, Some(r.error);
      }
      if r.value.None? {
        AllDrawn(items, rows);
        return;
      }
      OneMoreDrawn(items, rows, r.value.value);
      rows := rows + [r.value.value];
    }
  }

  /** The rows at the head of the stream. */
  ghost predicate Drawn(items: seq<Item>, rows: seq<Row>)
  {
    |rows| <= |items| && AllRows(items[..|rows|]) && rows == RowsOf(items[..|rows|])
  }

  lemma NothingDrawn(items: seq<Item>)
    ensures Drawn(items, []) && items[0..] == items
  {
  }

  lemma OneMoreDrawn(items: seq<Item>, rows: seq<Row>, row: Row)
    requires Drawn(items, rows) && |rows| < |items| && items[|rows|] == Success(row)
    ensures Drawn(items, rows + [row]) && items[|rows|..][1..] == items[|rows| + 1..]
  {
    assert items[..|rows| + 1] == items[..|rows|] + [items[|rows|]];
  }

  lemma AllDrawn(items: seq<Item>, rows: seq<Row>)
    requires Drawn(items, rows) && |rows| == |items|
    ensures AllRows(items) && rows == RowsOf(items)
  {
    assert items[..|rows|] == items;
  }

  lemma FailureAhead(items: seq<Item>, k: nat)
    requires k < |items| && items[k].Failure?
    ensures !AllRows(items)
  {
  }

  /** The rows of every block that decodes, block after block. */
  function BlockRows(q: QueryHandle, bufs: seq<bytes>): seq<Row>
    requires forall b :: b in bufs ==> AllRows(BlockItems(q, b))
  {
    if bufs == [] then [] else RowsOf(BlockItems(q, bufs[0])) + BlockRows(q, bufs[1..])
  }

  /** The blocks of the pages fetched from step `n` on. */
  function PagesBlocks(script: Script, q: QueryHandle, n: nat, horizon: nat): seq<bytes>
    requires n <= horizon && LastPage(script, q, horizon)
    decreases horizon - n
  {
    match PageAt(script, q, n)
    case Failure(_) => []
    case Success((blocks, more)) => blocks + if more then PagesBlocks(script, q, n + 1, horizon) else []
  }

  predicate PagesArrive(script: Script, q: QueryHandle, n: nat, horizon: nat)
  {
    forall k :: n <= k <= horizon ==> PageAt(script, q, k).Success?
  }

  lemma {:induction false} BlocksItemsDistribute(q: QueryHandle, a: seq<bytes>, b: seq<bytes>)
    ensures BlocksItems(q, a + b) == BlocksItems(q, a) + BlocksItems(q, b)
  {
    hide BlockItems;
    if a == [] {
      assert a + b == b;
    } else {
      assert (a + b)[0] == a[0] && (a + b)[1..] == a[1..] + b;
      BlocksItemsDistribute(q, a[1..], b);
    }
  }

  /** Page boundaries do not matter, nor do empty pages and empty blocks. */
  lemma {:induction false} PagesAreTheirBlocks(script: Script, q: QueryHandle, n: nat, horizon: nat)
    requires n <= horizon && LastPage(script, q, horizon) && PagesArrive(script, q, n, horizon)
    ensures PagesItems(script, q, n, horizon) == BlocksItems(q, PagesBlocks(script, q, n, horizon))
    decreases horizon - n
  {
    hide BlocksItems, PageAt;
    NextPage(script, q, n, horizon);
    var (blocks, more) := PageAt(script, q, n).value;
    if more {
      PagesAreTheirBlocks(script, q, n + 1, horizon);
      BlocksItemsDistribute(q, blocks, PagesBlocks(script, q, n + 1, horizon));
    } else {
      assert blocks + [] == blocks;
      assert BlocksItems(q, blocks) + [] == BlocksItems(q, blocks);
    }
  }

  /** Error-free blocks stream exactly their rows. */
  lemma {:induction false} BlocksStreamTheirRows(q: QueryHandle, bufs: seq<bytes>)
    requires forall b :: b in bufs ==> AllRows(BlockItems(q, b))
    ensures AllRows(BlocksItems(q, bufs)) && RowsOf(BlocksItems(q, bufs)) == BlockRows(q, bufs)
  {
    hide BlockItems;
    if bufs != [] {
      assert bufs[0] in bufs;
      BlocksStreamTheirRows(q, bufs[1..]);
    }
  }

  /** From the wire to the rows: however a block was encoded, its cells come out row by row through the index map. */
  lemma EncodedBlockStreams(q: QueryHandle, b: TsBlock, time: E.Plan, plans: seq<E.Plan>, i: nat, o: nat)
    requires E.Encodable(b, time, plans) && i < b.positionCount && o < |q.columns|
    requires WellShaped(b) && Mapped(q, b)
    ensures var items := BlockItems(q, E.BlockBytes(b, time, plans));
            && |items| == b.positionCount && items[i].Success?
            && items[i].value.timestamp == (if q.ignoreTimestamp then None else Some(b.timestamps[i]))
            && |items[i].value.values| == |q.columns|
            && var p := PhysicalColumn(q.indexMap, o).value;
               items[i].value.values[o]
               == if p == TIME_COLUMN then Timestamp(b.timestamps[i])
                  else ApplyLogicalType(b.columns[p][i], if o < |q.types| then Some(q.types[o]) else None)
  {
    hide E.Compatible, E.BlockBytes, ParseBlock, ApplyLogicalType;
    var bytes := E.BlockBytes(b, time, plans);
    E.BlockRoundTrip(b, time, plans, []);
    assert bytes + [] == bytes;
    RowAssemblesIff(q, b, i);
    assert CellAt(q, b, i, o) == Success(RowAt(q, b, i).value.values[o]);
  }

  /** A block streams without errors exactly when it decodes and is empty or has every output column. */
  lemma BlockStreamsIff(q: QueryHandle, buf: bytes)
    ensures AllRows(BlockItems(q, buf))
            <==> Decoded(buf).Success? && (Decoded(buf).value.positionCount == 0 || Mapped(q, Decoded(buf).value))
  {
    hide RowAt, Mapped, Decoded;
    if Decoded(buf).Success? {
      var b := Decoded(buf).value;
      forall i | 0 <= i < b.positionCount ensures RowAt(q, b, i).Success? <==> Mapped(q, b) {
        RowAssemblesIff(q, b, i);
      }
      if b.positionCount > 0 {
        assert BlockItems(q, buf)[0] == RowAt(q, b, 0);
      }
    } else {
      assert BlockItems(q, buf)[0].Failure?;
    }
  }

  // ---------- A whole result, in terms of the server's answers ----------

  /** The fetch at step `n` is answered, and with a status that succeeds. */
  predicate Answered(script: Script, n: nat)
  {
    script.fetch(n).Got? && CheckStatus(script.fetch(n).value.0).Success?
  }

  predicate AllAnswered(script: Script, n: nat, horizon: nat)
  {
    Answered(script, n) && Answered(script, horizon) && forall k :: n <= k <= horizon ==> Answered(script, k)
  }

  /** The answer at step `n` announces further pages. */
  predicate Announces(script: Script, n: nat)
    requires script.fetch(n).Got?
  {
    script.fetch(n).value.1 && script.fetch(n).value.3 == Some(true)
  }

  /** The blocks an answer carries: none without a result set or without a block list. */
  function CarriedBlocks(script: Script, n: nat): seq<bytes>
    requires script.fetch(n).Got?
  {
    if script.fetch(n).value.1 && script.fetch(n).value.2.Some? then script.fetch(n).value.2.value else []
  }

  /** The blocks of the answers from step `n` on, up to the first that announces no more. */
  function AnsweredBlocks(script: Script, n: nat, horizon: nat): seq<bytes>
    requires n <= horizon && AllAnswered(script, n, horizon)
    decreases horizon - n
  {
    CarriedBlocks(script, n)
    + if Announces(script, n) && n < horizon then AnsweredBlocks(script, n + 1, horizon) else []
  }

  lemma PageOfAnswer(script: Script, q: QueryHandle, n: nat)
    requires Answered(script, n)
    ensures PageAt(script, q, n) == Success((CarriedBlocks(script, n), Announces(script, n)))
  {
    hide CheckStatus;
    PageOfFetch(script, q.queryId, q.statement, n);
  }

  lemma {:induction false} PagesOfAnswers(script: Script, q: QueryHandle, n: nat, horizon: nat)
    requires n <= horizon && AllAnswered(script, n, horizon)
    requires !Announces(script, horizon)
    ensures LastPage(script, q, horizon) && PagesArrive(script, q, n, horizon)
    ensures PagesBlocks(script, q, n, horizon) == AnsweredBlocks(script, n, horizon)
    decreases horizon - n
  {
    hide PageAt, Announces, CarriedBlocks;
    forall k | n <= k <= horizon ensures PageAt(script, q, k).Success? {
      PageOfAnswer(script, q, k);
    }
    PageOfAnswer(script, q, n);
    PageOfAnswer(script, q, horizon);
    if n < horizon {
      PagesOfAnswers(script, q, n + 1, horizon);
    }
  }

  /** The blocks of the whole result: the cached ones, then those of every answer. */
  ghost function AllBlocks(ds: SessionDataSet, horizon: nat): seq<bytes>
    requires ds.moreData ==> ds.session.tick <= horizon && AllAnswered(ds.session.script, ds.session.tick, horizon)
    reads ds, ds.session
  {
    ds.pending + if ds.moreData then AnsweredBlocks(ds.session.script, ds.session.tick, horizon) else []
  }

  /**
   An error-free result set, however it was cut into pages, streams the rows of all its blocks in order: of those
   cached, then of those in the server's answers up to the first that announces no more.
   */
  lemma ResultIsAllBlocks(ds: SessionDataSet, horizon: nat)
    requires ds.Valid() && !ds.closed && ds.origin.Some? && ds.current == None
    requires ds.moreData ==>
               && ds.session.tick <= horizon && AllAnswered(ds.session.script, ds.session.tick, horizon)
               && !Announces(ds.session.script, horizon)
    requires forall b :: b in AllBlocks(ds, horizon) ==> AllRows(BlockItems(ds.query, b))
    ensures ds.EndsBy(horizon) && AllRows(ds.Items(horizon))
    ensures RowsOf(ds.Items(horizon)) == BlockRows(ds.query, AllBlocks(ds, horizon))
  {
    hide BlocksItems, PagesItems, PagesBlocks, BlockItems, BlockRows, PagesArrive, LastPage, Session.Valid, Answered,
         AnsweredBlocks, Announces;
    var q := ds.query;
    if ds.moreData {
      PagesOfAnswers(ds.session.script, q, ds.session.tick, horizon);
      PagesAreTheirBlocks(ds.session.script, q, ds.session.tick, horizon);
      BlocksItemsDistribute(q, ds.pending, PagesBlocks(ds.session.script, q, ds.session.tick, horizon));
    } else {
      assert ds.pending + [] == ds.pending;
      assert BlocksItems(q, ds.pending) + [] == BlocksItems(q, ds.pending);
    }
    assert ds.Items(horizon) == BlocksItems(q, AllBlocks(ds, horizon));
    BlocksStreamTheirRows(q, AllBlocks(ds, horizon));
  }
}
