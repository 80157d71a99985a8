/**
 The two tablet buffers: values column by column with placeholders for nulls, then one
 null bitmap per column; and timestamps. The readers here are the inverse the client lacks.
 */
module TabletFormat {
  import opened Wrappers
  import opened Bytes
  import opened Values
  import opened Bitmap

  type Cell = Option<Value>
  type Column = seq<Cell>

  /** What fills the slot of a null: any value of the column's type would do. */
  function Placeholder(ty: TSDataType): (v: Value)
    requires Insertable(ty)
    ensures DataType(v) == Some(ty) && Fits(v)
  {
    match ty
    case BOOLEAN => Boolean(false)
    case INT32 => Int32(-0x8000_0000)
    case INT64 => Int64(-0x8000_0000_0000_0000)
    case TIMESTAMP => Timestamp(-0x8000_0000_0000_0000)
    case FLOAT => Float(0xFF7F_FFFF)
    case DOUBLE => Double(0xFFEF_FFFF_FFFF_FFFF)
    case TEXT => Text([])
    case STRING => String([])
    case BLOB => Blob([])
    case DATE => Date(10000101)
  }

  predicate CellMatches(ty: TSDataType, cell: Cell)
  {
    cell.Some? ==> DataType(cell.value) == Some(ty)
  }

  /** A column of the given type; only insertable types can have rows. */
  ghost predicate WellTyped(ty: TSDataType, col: Column)
  {
    && (Insertable(ty) || col == [])
    && forall r :: 0 <= r < |col| ==> CellMatches(ty, col[r])
  }

  function SlotValue(ty: TSDataType, cell: Cell): (v: Value)
    requires Insertable(ty) && CellMatches(ty, cell)
    ensures DataType(v) == Some(ty)
  {
    match cell
    case Some(v) => v
    case None => Placeholder(ty)
  }

  function SlotBytes(ty: TSDataType, cell: Cell): bytes
    requires Insertable(ty) && CellMatches(ty, cell)
  {
    Payload(SlotValue(ty, cell))
  }

  function RunBytes(ty: TSDataType, col: Column): bytes
    requires WellTyped(ty, col)
  {
    if col == [] then [] else SlotBytes(ty, col[0]) + RunBytes(ty, col[1..])
  }

  function NullsOf(col: Column): (r: seq<bool>)
    ensures |r| == |col|
    ensures forall i :: 0 <= i < |r| ==> r[i] == col[i].None?
  {
    seq(|col|, i requires 0 <= i < |col| => col[i].None?)
  }

  predicate AnySet(nulls: seq<bool>)
  {
    exists i :: 0 <= i < |nulls| && nulls[i]
  }

  /** The server's bitmap length: one byte more than needed when the row count is a multiple of eight. */
  function BitmapLength(rows: nat): nat
  {
    rows / 8 + 1
  }

  function Zeros(n: nat): (r: bytes)
    ensures |r| == n
  {
    seq(n, _ => 0)
  }

  function BitmapBytes(nulls: seq<bool>): bytes
  {
    if AnySet(nulls) then [1] + (Pack(LsbFirst, nulls) + Zeros(BitmapLength(|nulls|) - BytesFor(|nulls|)))
    else [0]
  }

  ghost predicate WellTypedColumns(types: seq<TSDataType>, values: seq<Column>, rows: nat)
  {
    && |types| == |values|
    && forall c :: 0 <= c < |values| ==> |values[c]| == rows && WellTyped(types[c], values[c])
  }

  function RunsBytes(types: seq<TSDataType>, values: seq<Column>, rows: nat): bytes
    requires WellTypedColumns(types, values, rows)
    decreases |values|
  {
    if values == [] then [] else RunBytes(types[0], values[0]) + RunsBytes(types[1..], values[1..], rows)
  }

  function BitmapsBytes(values: seq<Column>): bytes
  {
    if values == [] then [] else BitmapBytes(NullsOf(values[0])) + BitmapsBytes(values[1..])
  }

  function ValuesBytes(types: seq<TSDataType>, values: seq<Column>, rows: nat): bytes
    requires WellTypedColumns(types, values, rows)
  {
    RunsBytes(types, values, rows) + BitmapsBytes(values)
  }

  function TimesBytes(times: seq<i64>): bytes
  {
    if times == [] then [] else Be64(times[0]) + TimesBytes(times[1..])
  }

  // ---------- Readers ----------

  function ParseRun(ty: TSDataType, rows: nat, s: bytes): (p: Parse<seq<Value>>)
    ensures p.Done? ==> |p.value| == rows
  {
    if rows == 0 then Done([], s)
    else
      var (v, s1) :- ParsePayload(ty, s);
      var (vs, s2) :- ParseRun(ty, rows - 1, s1);
      Done([v] + vs, s2)
  }

  function ParseRuns(types: seq<TSDataType>, rows: nat, s: bytes): (p: Parse<seq<seq<Value>>>)
    ensures p.Done? ==> |p.value| == |types|
    ensures p.Done? ==> forall c :: 0 <= c < |types| ==> |p.value[c]| == rows
    decreases |types|
  {
    if types == [] then Done([], s)
    else
      var (run, s1) :- ParseRun(types[0], rows, s);
      var (runs, s2) :- ParseRuns(types[1..], rows, s1);
      Done([run] + runs, s2)
  }

  /** A flag byte; when set, `rows / 8 + 1` bytes of null bits. */
  function ParseBitmap(rows: nat, s: bytes): (p: Parse<seq<bool>>)
    ensures p.Done? ==> |p.value| == rows
  {
    var (flag, s1) :- ParseU8(s);
    if flag == 0 then Done(seq(rows, _ => false), s1)
    else
      var (b, s2) :- Take(BitmapLength(rows), s1);
      Done(Unpack(LsbFirst, b, rows).value, s2)
  }

  function ParseBitmaps(columns: nat, rows: nat, s: bytes): (p: Parse<seq<seq<bool>>>)
    ensures p.Done? ==> |p.value| == columns
    ensures p.Done? ==> forall c :: 0 <= c < columns ==> |p.value[c]| == rows
  {
    if columns == 0 then Done([], s)
    else
      var (nulls, s1) :- ParseBitmap(rows, s);
      var (others, s2) :- ParseBitmaps(columns - 1, rows, s1);
      Done([nulls] + others, s2)
  }

  /** The server's view of a column: slots whose null bit is set count as null. */
  function Masked(run: seq<Value>, nulls: seq<bool>): (col: Column)
    requires |run| == |nulls|
    ensures |col| == |run|
    ensures forall r :: 0 <= r < |col| ==> col[r] == if nulls[r] then None else Some(run[r])
  {
    seq(|run|, r requires 0 <= r < |run| => if nulls[r] then None else Some(run[r]))
  }

  function MaskedColumns(runs: seq<seq<Value>>, nulls: seq<seq<bool>>): (r: seq<Column>)
    requires |runs| == |nulls|
    requires forall c :: 0 <= c < |runs| ==> |runs[c]| == |nulls[c]|
    ensures |r| == |runs|
    ensures forall c :: 0 <= c < |r| ==> r[c] == Masked(runs[c], nulls[c])
  {
    seq(|runs|, c requires 0 <= c < |runs| => Masked(runs[c], nulls[c]))
  }

  function ParseValues(types: seq<TSDataType>, rows: nat, s: bytes): (p: Parse<seq<Column>>)
    ensures p.Done? ==> |p.value| == |types|
    ensures p.Done? ==> forall c :: 0 <= c < |types| ==> |p.value[c]| == rows
  {
    var (runs, s1) :- ParseRuns(types, rows, s);
    var (nulls, s2) :- ParseBitmaps(|types|, rows, s1);
    Done(MaskedColumns(runs, nulls), s2)
  }

  function ParseTimes(rows: nat, s: bytes): (p: Parse<seq<i64>>)
    ensures p.Done? ==> |p.value| == rows
  {
    if rows == 0 then Done([], s)
    else
      var (t, s1) :- ParseI64(s);
      var (ts, s2) :- ParseTimes(rows - 1, s1);
      Done([t] + ts, s2)
  }

  // ---------- Round trip ----------

  predicate CellFits(cell: Cell)
  {
    cell.Some? ==> Fits(cell.value)
  }

  predicate ColumnFits(col: Column)
  {
    forall r :: 0 <= r < |col| ==> CellFits(col[r])
  }

  predicate ColumnsFit(values: seq<Column>)
  {
    forall c :: 0 <= c < |values| ==> ColumnFits(values[c])
  }

  /** The slots of a column, placeholders included. */
  function Slots(ty: TSDataType, col: Column): (r: seq<Value>)
    requires WellTyped(ty, col)
    ensures |r| == |col|
    ensures forall i :: 0 <= i < |r| ==> r[i] == SlotValue(ty, col[i])
  {
    seq(|col|, i requires 0 <= i < |col| => SlotValue(ty, col[i]))
  }

  lemma {:induction false} RunAppend(ty: TSDataType, col: Column, t: bytes)
    requires WellTyped(ty, col) && ColumnFits(col)
    ensures ParseRun(ty, |col|, RunBytes(ty, col) + t) == Done(Slots(ty, col), t)
    decreases |col|
  {
    hide ParsePayload, SlotBytes, CellFits, SlotValue, ParseRun, RunBytes;
    if col == [] {
      RunOfNone(ty, t);
      assert Slots(ty, col) == [];
    } else {
      var rest := RunBytes(ty, col[1..]) + t;
      RunBytesUnfold(ty, col, t);
      RunUnfolds(ty, |col|, SlotBytes(ty, col[0]) + rest);
      SlotAppend(ty, col[0], rest);
      RunAppend(ty, col[1..], t);
      assert Slots(ty, col) == [SlotValue(ty, col[0])] + Slots(ty, col[1..]);
    }
  }

  /**
   A column with an oversized payload is misread: the reader stops, or returns a different value for some non-null cell.
   */
  ghost predicate MisreadsRun(col: Column, p: Parse<seq<Value>>)
  {
    p.Done? ==> |p.value| == |col| && exists r :: 0 <= r < |col| && col[r].Some? && p.value[r] != col[r].value
  }

  lemma {:induction false} OversizedRun(ty: TSDataType, col: Column, t: bytes)
    requires WellTyped(ty, col) && !ColumnFits(col)
    ensures MisreadsRun(col, ParseRun(ty, |col|, RunBytes(ty, col) + t))
    decreases |col|
  {
    hide ParsePayload, Payload, Fits, Placeholder, ParseRun, SlotBytes, RunBytes, CellFits;
    var rest := RunBytes(ty, col[1..]) + t;
    var s := RunBytes(ty, col) + t;
    RunBytesUnfold(ty, col, t);
    RunUnfolds(ty, |col|, s);
    var p := ParseRun(ty, |col|, s);
    if CellFits(col[0]) {
      SlotAppend(ty, col[0], rest);
      OversizedRun(ty, col[1..], t);
      if p.Done? {
        var q := ParseRun(ty, |col| - 1, rest).value;
        var r :| 0 <= r < |col[1..]| && col[1..][r].Some? && q[r] != col[1..][r].value;
        assert p.value[r + 1] == q[r] && col[r + 1] == col[1..][r];
      }
    } else {
      OversizedSlot(ty, col[0], rest);
    }
  }

  lemma RunOfNone(ty: TSDataType, t: bytes)
    ensures ParseRun(ty, 0, RunBytes(ty, []) + t) == Done([], t)
  {
    assert RunBytes(ty, []) + t == t;
  }

  lemma RunBytesUnfold(ty: TSDataType, col: Column, t: bytes)
    requires WellTyped(ty, col) && col != []
    ensures RunBytes(ty, col) + t == SlotBytes(ty, col[0]) + (RunBytes(ty, col[1..]) + t)
  {
    hide SlotBytes;
  }

  lemma RunUnfolds(ty: TSDataType, rows: nat, s: bytes)
    requires rows > 0
    ensures ParseRun(ty, rows, s) ==
            match ParsePayload(ty, s)
            case Fail(why) => Fail(why)
            case Done(v, s1) =>
              match ParseRun(ty, rows - 1, s1)
              case Fail(why) => Fail(why)
              case Done(vs, s2) => Done([v] + vs, s2)
  {
    hide ParsePayload;
  }

  lemma SlotAppend(ty: TSDataType, cell: Cell, t: bytes)
    requires Insertable(ty) && CellMatches(ty, cell) && CellFits(cell)
    ensures ParsePayload(ty, SlotBytes(ty, cell) + t) == Done(SlotValue(ty, cell), t)
  {
    hide ParsePayload, Payload;
    ParsePayloadAppend(SlotValue(ty, cell), t);
  }

  lemma OversizedSlot(ty: TSDataType, cell: Cell, t: bytes)
    requires Insertable(ty) && CellMatches(ty, cell) && !CellFits(cell)
    ensures cell.Some?
    ensures var p := ParsePayload(ty, SlotBytes(ty, cell) + t); p.Done? ==> p.value != cell.value
  {
    hide ParsePayload, Payload;
    assert cell.value != Null;
    PayloadRoundTripIff(cell.value, t);
  }

  lemma NoBitmapRead(rows: nat, t: bytes)
    ensures ParseBitmap(rows, [0] + t) == Done(seq(rows, _ => false), t)
  {
    hide Unpack;
    ParseU8Append(0, t);
  }

  lemma BitmapRead(nulls: seq<bool>, body: bytes, t: bytes)
    requires |body| == BitmapLength(|nulls|) && Unpack(LsbFirst, body, |nulls|) == Some(nulls)
    ensures ParseBitmap(|nulls|, [1] + (body + t)) == Done(nulls, t)
  {
    hide Unpack;
    ParseU8Append(1, body + t);
    TakeAppend(body, t);
  }

  lemma BitmapAppend(nulls: seq<bool>, t: bytes)
    ensures ParseBitmap(|nulls|, BitmapBytes(nulls) + t) == Done(nulls, t)
  {
    hide Unpack, Pack, ParseBitmap, Zeros;
    if AnySet(nulls) {
      var pad := Zeros(BitmapLength(|nulls|) - BytesFor(|nulls|));
      var body := Pack(LsbFirst, nulls) + pad;
      PackUnpack(LsbFirst, nulls, pad);
      BitmapRead(nulls, body, t);
      assert BitmapBytes(nulls) + t == [1] + (body + t);
    } else {
      NoBitmapRead(|nulls|, t);
      assert seq(|nulls|, _ => false) == nulls;
    }
  }

  function AllNulls(values: seq<Column>): (r: seq<seq<bool>>)
    ensures |r| == |values|
    ensures forall c :: 0 <= c < |r| ==> r[c] == NullsOf(values[c])
  {
    seq(|values|, c requires 0 <= c < |values| => NullsOf(values[c]))
  }

  lemma {:induction false} BitmapsAppend(values: seq<Column>, rows: nat, t: bytes)
    requires forall c :: 0 <= c < |values| ==> |values[c]| == rows
    ensures ParseBitmaps(|values|, rows, BitmapsBytes(values) + t) == Done(AllNulls(values), t)
    decreases |values|
  {
    hide ParseBitmap, BitmapBytes;
    if values == [] {
      assert BitmapsBytes(values) + t == t;
    } else {
      var rest := BitmapsBytes(values[1..]) + t;
      assert BitmapsBytes(values) + t == BitmapBytes(NullsOf(values[0])) + rest;
      BitmapAppend(NullsOf(values[0]), rest);
      BitmapsAppend(values[1..], rows, t);
      assert AllNulls(values) == [NullsOf(values[0])] + AllNulls(values[1..]);
    }
  }

  function AllSlots(types: seq<TSDataType>, values: seq<Column>, rows: nat): (r: seq<seq<Value>>)
    requires WellTypedColumns(types, values, rows)
    ensures |r| == |values|
    ensures forall c :: 0 <= c < |r| ==> r[c] == Slots(types[c], values[c])
  {
    seq(|values|, c requires 0 <= c < |values| => Slots(types[c], values[c]))
  }

  lemma {:induction false} RunsAppend(types: seq<TSDataType>, values: seq<Column>, rows: nat, t: bytes)
    requires WellTypedColumns(types, values, rows) && ColumnsFit(values)
    ensures ParseRuns(types, rows, RunsBytes(types, values, rows) + t) == Done(AllSlots(types, values, rows), t)
    decreases |values|
  {
    hide ParseRun, RunBytes, WellTyped, ColumnFits, Slots;
    if values == [] {
      assert RunsBytes(types, values, rows) + t == t;
    } else {
      var rest := RunsBytes(types[1..], values[1..], rows) + t;
      assert RunsBytes(types, values, rows) + t == RunBytes(types[0], values[0]) + rest;
      RunAppend(types[0], values[0], rest);
      RunsAppend(types[1..], values[1..], rows, t);
      assert AllSlots(types, values, rows) == [Slots(types[0], values[0])] + AllSlots(types[1..], values[1..], rows);
    }
  }

  ghost predicate MisreadsRuns(values: seq<Column>, p: Parse<seq<seq<Value>>>)
  {
    p.Done? ==> |p.value| == |values| && exists c :: 0 <= c < |values| && MisreadsRun(values[c], Done(p.value[c], []))
  }

  lemma {:induction false} OversizedRuns(types: seq<TSDataType>, values: seq<Column>, rows: nat, t: bytes)
    requires WellTypedColumns(types, values, rows) && !ColumnsFit(values)
    ensures MisreadsRuns(values, ParseRuns(types, rows, RunsBytes(types, values, rows) + t))
    decreases |values|
  {
    hide ParseRun, RunBytes, WellTyped, ColumnFits, Slots;
    var rest := RunsBytes(types[1..], values[1..], rows) + t;
    var s := RunsBytes(types, values, rows) + t;
    assert s == RunBytes(types[0], values[0]) + rest;
    var p := ParseRuns(types, rows, s);
    if ColumnFits(values[0]) {
      RunAppend(types[0], values[0], rest);
      OversizedRuns(types[1..], values[1..], rows, t);
      if p.Done? {
        var q := ParseRuns(types[1..], rows, rest).value;
        var c :| 0 <= c < |values[1..]| && MisreadsRun(values[1..][c], Done(q[c], []));
        assert p.value[c + 1] == q[c] && values[c + 1] == values[1..][c];
      }
    } else {
      OversizedRun(types[0], values[0], rest);
      if p.Done? {
        var run := ParseRun(types[0], rows, s).value;
        assert p.value[0] == run;
        assert MisreadsRun(values[0], Done(run, []));
      }
    }
  }

  lemma MaskedSlots(ty: TSDataType, col: Column)
    requires WellTyped(ty, col)
    ensures Masked(Slots(ty, col), NullsOf(col)) == col
  {
  }

  lemma ValuesAppend(types: seq<TSDataType>, values: seq<Column>, rows: nat, t: bytes)
    requires WellTypedColumns(types, values, rows) && ColumnsFit(values)
    ensures ParseValues(types, rows, ValuesBytes(types, values, rows) + t) == Done(values, t)
  {
    hide ParseRuns, ParseBitmaps, RunsBytes, BitmapsBytes, ColumnsFit;
    var rest := BitmapsBytes(values) + t;
    assert ValuesBytes(types, values, rows) + t == RunsBytes(types, values, rows) + rest;
    RunsAppend(types, values, rows, rest);
    BitmapsAppend(values, rows, t);
    var slots, nulls := AllSlots(types, values, rows), AllNulls(values);
    forall c | 0 <= c < |values| ensures Masked(slots[c], nulls[c]) == values[c] {
      MaskedSlots(types[c], values[c]);
    }
    assert MaskedColumns(slots, nulls) == values;
  }

  lemma MisreadColumnDiffers(col: Column, run: seq<Value>, nulls: seq<bool>)
    requires MisreadsRun(col, Done(run, [])) && |nulls| == |run|
    ensures Masked(run, nulls) != col
  {
    var r :| 0 <= r < |col| && col[r].Some? && run[r] != col[r].value;
    assert Masked(run, nulls)[r] != col[r];
  }

  lemma OversizedValues(types: seq<TSDataType>, values: seq<Column>, rows: nat, t: bytes)
    requires WellTypedColumns(types, values, rows) && !ColumnsFit(values)
    ensures ParseValues(types, rows, ValuesBytes(types, values, rows) + t) != Done(values, t)
  {
    hide ParseRuns, ParseBitmaps, RunsBytes, BitmapsBytes, ColumnsFit, MisreadsRun;
    var s := ValuesBytes(types, values, rows) + t;
    assert s == RunsBytes(types, values, rows) + (BitmapsBytes(values) + t);
    OversizedRuns(types, values, rows, BitmapsBytes(values) + t);
    if ParseValues(types, rows, s).Done? {
      var runs := ParseRuns(types, rows, s);
      var nulls := ParseBitmaps(|types|, rows, runs.rest).value;
      var c :| 0 <= c < |values| && MisreadsRun(values[c], Done(runs.value[c], []));
      MisreadColumnDiffers(values[c], runs.value[c], nulls[c]);
    }
  }

  /**
   The value buffer gives back exactly the columns it was made from, nulls included,
   if and only if every payload length survives the cast to i32 in its prefix.
   */
  lemma ValuesRoundTripIff(types: seq<TSDataType>, values: seq<Column>, rows: nat, t: bytes)
    requires WellTypedColumns(types, values, rows)
    ensures ParseValues(types, rows, ValuesBytes(types, values, rows) + t) == Done(values, t) <==> ColumnsFit(values)
  {
    hide ParseValues, ValuesBytes, ColumnsFit;
    if ColumnsFit(values) {
      ValuesAppend(types, values, rows, t);
    } else {
      OversizedValues(types, values, rows, t);
    }
  }

  lemma {:induction false} TimesAppend(times: seq<i64>, t: bytes)
    ensures ParseTimes(|times|, TimesBytes(times) + t) == Done(times, t)
    decreases |times|
  {
    hide ParseI64, Be64;
    if times == [] {
      assert TimesBytes(times) + t == t;
    } else {
      var rest := TimesBytes(times[1..]) + t;
      assert TimesBytes(times) + t == Be64(times[0]) + rest;
      Signed64Append(times[0], rest);
      TimesAppend(times[1..], t);
      assert [times[0]] + times[1..] == times;
    }
  }
}
