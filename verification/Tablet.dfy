/** A column-major batch of rows: edits in place, a stable in-place sort, and the two serializers. */
module Tablets {
  import opened Wrappers
  import opened Bytes
  import opened Values
  import opened Bitmap
  import opened StableSort
  import opened SortByKey
  import opened TabletFormat
  import opened Record

  datatype ColumnCategory = Tag | Field | Attribute

  datatype Row = Row(time: i64, cells: seq<Cell>)

  ghost predicate Rectangular(times: seq<i64>, values: seq<Column>)
  {
    forall c :: 0 <= c < |values| ==> |values[c]| == |times|
  }

  function RowAt(times: seq<i64>, values: seq<Column>, r: nat): (row: Row)
    requires Rectangular(times, values) && r < |times|
    ensures row.time == times[r] && |row.cells| == |values|
    ensures forall c :: 0 <= c < |values| ==> row.cells[c] == values[c][r]
  {
    Row(times[r], seq(|values|, c requires 0 <= c < |values| => values[c][r]))
  }

  /** The rows of a column-major batch. */
  function RowsOf(times: seq<i64>, values: seq<Column>): (rows: seq<Row>)
    requires Rectangular(times, values)
    ensures |rows| == |times|
    ensures forall r :: 0 <= r < |rows| ==> rows[r] == RowAt(times, values, r)
  {
    seq(|times|, r requires 0 <= r < |times| => RowAt(times, values, r))
  }

  function RowTime(row: Row): int
  {
    row.time
  }

  function PermutedColumns(values: seq<Column>, order: seq<nat>): (r: seq<Column>)
    requires forall c :: 0 <= c < |values| ==> InRange(order, |values[c]|)
    ensures |r| == |values|
    ensures forall c :: 0 <= c < |values| ==> r[c] == Permute(values[c], order)
  {
    seq(|values|, c requires 0 <= c < |values| => Permute(values[c], order))
  }

  /** Reordering every column by one index order reorders the rows by it. */
  lemma PermutingColumnsPermutesRows(times: seq<i64>, values: seq<Column>, order: seq<nat>)
    requires Rectangular(times, values) && InRange(order, |times|)
    ensures Rectangular(Permute(times, order), PermutedColumns(values, order))
    ensures RowsOf(Permute(times, order), PermutedColumns(values, order)) == Permute(RowsOf(times, values), order)
  {
    var times', values' := Permute(times, order), PermutedColumns(values, order);
    forall p | 0 <= p < |order|
      ensures RowAt(times', values', p) == RowAt(times, values, order[p])
    {
      assert RowAt(times', values', p).cells == RowAt(times, values, order[p]).cells;
    }
  }

  lemma IdentityChangesNothing(times: seq<i64>, values: seq<Column>, order: seq<nat>)
    requires Rectangular(times, values) && InRange(order, |times|) && |order| == |times| && IsIdentity(order)
    ensures Permute(times, order) == times && PermutedColumns(values, order) == values
  {
    PermuteIdentity(times, order);
    forall c | 0 <= c < |values| ensures Permute(values[c], order) == values[c] {
      PermuteIdentity(values[c], order);
    }
    assert PermutedColumns(values, order) == values;
  }

  lemma TimesOfRows(times: seq<i64>, values: seq<Column>)
    requires Rectangular(times, values)
    ensures KeysOf(RowsOf(times, values), RowTime) == times
  {
  }

  predicate AcceptsCell(ty: TSDataType, cell: Cell)
  {
    cell == None || cell == Some(Null) || DataType(cell.value) == Some(ty)
  }

  predicate AcceptsRow(types: seq<TSDataType>, row: seq<Cell>)
  {
    |row| == |types| && forall c :: 0 <= c < |row| ==> AcceptsCell(types[c], row[c])
  }

  /** An explicit null value counts as a missing cell. */
  function Normalized(cell: Cell): Cell
  {
    if cell == Some(Null) then None else cell
  }

  function NormalizedRow(row: seq<Cell>): (r: seq<Cell>)
    ensures |r| == |row|
    ensures forall c :: 0 <= c < |row| ==> r[c] == Normalized(row[c])
  {
    seq(|row|, c requires 0 <= c < |row| => Normalized(row[c]))
  }

  class Tablet {
    const target: string
    const measurements: seq<string>
    const types: seq<TSDataType>
    const categories: Option<seq<ColumnCategory>>
    const aligned: bool
    var timestamps: seq<i64>
    var values: seq<Column>

    ghost predicate Valid()
      reads this
    {
      && |measurements| == |types| == |values|
      && (categories.Some? ==> |categories.value| == |types|)
      && Rectangular(timestamps, values)
      && forall c :: 0 <= c < |values| ==> forall r :: 0 <= r < |values[c]| ==> CellMatches(types[c], values[c][r])
    }

    /** VECTOR and UNKNOWN columns cannot be written: only an empty tablet may have them. */
    ghost predicate Serializable()
      reads this
    {
      Valid() && (timestamps == [] || forall c :: 0 <= c < |types| ==> Insertable(types[c]))
    }

    ghost function Rows(): seq<Row>
      requires Valid()
      reads this
    {
      RowsOf(timestamps, values)
    }

    constructor (target: string, measurements: seq<string>, types: seq<TSDataType>,
                 categories: Option<seq<ColumnCategory>>, aligned: bool)
      requires |measurements| == |types|
      requires categories.Some? ==> |categories.value| == |types|
      ensures Valid() && Rows() == []
      ensures this.target == target && this.measurements == measurements && this.types == types
      ensures this.categories == categories && this.aligned == aligned
    {
      this.target := target;
      this.measurements := measurements;
      this.types := types;
      this.categories := categories;
      this.aligned := aligned;
      timestamps := [];
      values := seq(|measurements|, _ => []);
    }

    /** A deep copy, so that sorting it leaves the original alone. */
    constructor Clone(t: Tablet)
      requires t.Valid()
      ensures Valid() && Rows() == t.Rows()
      ensures target == t.target && measurements == t.measurements && types == t.types
      ensures categories == t.categories && aligned == t.aligned
      ensures timestamps == t.timestamps && values == t.values
    {
      target := t.target;
      measurements := t.measurements;
      types := t.types;
      categories := t.categories;
      aligned := t.aligned;
      timestamps := t.timestamps;
      values := t.values;
    }

    /** Appends the row when its arity and cell types match, and changes nothing otherwise. */
    method AddRow(timestamp: i64, row: seq<Cell>) returns (r: Result<()>)
      requires Valid()
      modifies this
      ensures Valid()
      ensures r == if |row| != |types| then Failure(Client(ArityMismatch))
                   else if !AcceptsRow(types, row) then Failure(Client(TypeMismatch))
                   else Success(())
      ensures r.Success? <==> |row| == |types| && forall c ::
                0 <= c < |row| && row[c].Some? && row[c].value != Null ==> DataType(row[c].value) == Some(types[c])
      ensures r.Success? ==>
                && |Rows()| == |old(Rows())| + 1 && Rows()[..|old(Rows())|] == old(Rows())
                && var added := Rows()[|old(Rows())|];
                   && added.time == timestamp && |added.cells| == |row|
                   && forall c :: 0 <= c < |row| ==>
                        added.cells[c] == if row[c].Some? && row[c].value != Null then row[c] else None
      ensures r.Success? ==> Rows() == old(Rows()) + [Row(timestamp, NormalizedRow(row))]
      ensures r.Failure? ==> timestamps == old(timestamps) && values == old(values)
    {
      if |row| != |types| {
        return Failure(Client(ArityMismatch));
      }
      for c := 0 to |row|
        invariant forall k :: 0 <= k < c ==> AcceptsCell(types[k], row[k])
      {
        if !AcceptsCell(types[c], row[c]) {
          return Failure(Client(TypeMismatch));
        }
      }
      ghost var was, times := values, timestamps;
      timestamps := timestamps + [timestamp];
      for c := 0 to |values|
        invariant |values| == |was| && timestamps == times + [timestamp]
        invariant forall k :: 0 <= k < |was| ==> values[k] == if k < c then was[k] + [Normalized(row[k])] else was[k]
      {
        values := values[c := values[c] + [Normalized(row[c])]];
      }
      AppendedRow(times, was, timestamp, NormalizedRow(row), values);
      r := Success(());
    }

    /** The mutable timestamp slice: every entry may change, their number may not. */
    method SetTimestamps(times: seq<i64>)
      requires Valid() && |times| == |timestamps|
      modifies this`timestamps
      ensures Valid() && timestamps == times
      ensures forall r :: 0 <= r < |times| ==> Rows()[r] == old(Rows()[r]).(time := times[r])
    {
      ghost var was := Rows();
      timestamps := times;
      forall r | 0 <= r < |times| ensures Rows()[r] == was[r].(time := times[r]) {
        assert Rows()[r].cells == was[r].cells;
      }
    }

    /** Sorts the rows by timestamp in place, stably; a sorted tablet is left as it is. */
    method SortByTimestamp()
      requires Valid()
      modifies this
      ensures Valid()
      ensures Rows() == SortedBy(old(Rows()), RowTime)
      ensures timestamps == Permute(old(timestamps), StableOrder(old(timestamps)))
      ensures values == PermutedColumns(old(values), StableOrder(old(timestamps)))
    {
      hide StableOrder, RowAt;
      var order := StableOrder(timestamps);
      ghost var times, was := timestamps, values;
      TimesOfRows(times, was);
      PermutingColumnsPermutesRows(times, was, order);
      if IsIdentity(order) {
        IdentityChangesNothing(times, was, order);
        return;
      }
      timestamps := Permute(timestamps, order);
      for c := 0 to |values|
        invariant |values| == |was| && timestamps == Permute(times, order)
        invariant forall k :: 0 <= k < |was| ==> values[k] == if k < c then Permute(was[k], order) else was[k]
      {
        values := values[c := Permute(values[c], order)];
      }
      assert values == PermutedColumns(was, order);
    }

    /** Sorts, then writes every column and every null bitmap. */
    method SerializeValues() returns (buf: bytes)
      requires Serializable()
      modifies this
      ensures Serializable() && |timestamps| == old(|timestamps|)
      ensures Rows() == SortedBy(old(Rows()), RowTime)
      ensures timestamps == Permute(old(timestamps), StableOrder(old(timestamps)))
      ensures values == PermutedColumns(old(values), StableOrder(old(timestamps)))
      ensures WellTypedColumns(types, values, |timestamps|)
      ensures buf == ValuesBytes(types, values, |timestamps|)
    {
      SortByTimestamp();
      assert WellTypedColumns(types, values, |timestamps|);
      buf := WriteValues(types, values, |timestamps|);
    }

    /** Sorts, then writes the timestamps without a count. */
    method SerializeTimestamps() returns (buf: bytes)
      requires Valid()
      modifies this
      ensures Valid() && |timestamps| == old(|timestamps|)
      ensures Rows() == SortedBy(old(Rows()), RowTime)
      ensures timestamps == Permute(old(timestamps), StableOrder(old(timestamps)))
      ensures values == PermutedColumns(old(values), StableOrder(old(timestamps)))
      ensures buf == TimesBytes(timestamps)
    {
      SortByTimestamp();
      buf := [];
      for i := 0 to |timestamps|
        invariant buf + TimesBytes(timestamps[i..]) == TimesBytes(timestamps)
      {
        buf := buf + Be64(timestamps[i]);
        assert timestamps[i..][0] == timestamps[i] && timestamps[i..][1..] == timestamps[i + 1..];
      }
      assert buf + [] == buf;
    }
  }

  lemma AppendedRow(times: seq<i64>, values: seq<Column>, time: i64, cells: seq<Cell>, values': seq<Column>)
    requires Rectangular(times, values) && |cells| == |values| == |values'|
    requires forall c :: 0 <= c < |values| ==> values'[c] == values[c] + [cells[c]]
    ensures Rectangular(times + [time], values')
    ensures RowsOf(times + [time], values') == RowsOf(times, values) + [Row(time, cells)]
  {
    var rows, rows' := RowsOf(times, values) + [Row(time, cells)], RowsOf(times + [time], values');
    forall r | 0 <= r <= |times| ensures rows'[r] == rows[r] {
      assert rows'[r].cells == rows[r].cells;
    }
  }

  /** An empty tablet; names and types must agree in number. */
  method New(target: string, measurements: seq<string>, types: seq<TSDataType>) returns (r: Result<Tablet>)
    ensures r.Success? <==> |measurements| == |types|
    ensures r.Failure? ==> r.error == Client(LengthMismatch)
    ensures r.Success? ==> fresh(r.value) && r.value.Valid() && r.value.Rows() == [] && r.value.categories == None
    ensures r.Success? ==> r.value.target == target && r.value.measurements == measurements && r.value.types == types
  {
    if |measurements| != |types| {
      return Failure(Client(LengthMismatch));
    }
    var t := new Tablet(target, measurements, types, None, false);
    r := Success(t);
  }

  method NewTable(target: string, measurements: seq<string>, types: seq<TSDataType>, categories: seq<ColumnCategory>)
    returns (r: Result<Tablet>)
    ensures r.Success? <==> |measurements| == |types| == |categories|
    ensures r.Failure? ==> r.error == Client(LengthMismatch)
    ensures r.Success? ==>
              fresh(r.value) && r.value.Valid() && r.value.Rows() == []
              && r.value.categories == Some(categories)
    ensures r.Success? ==> r.value.target == target && r.value.measurements == measurements && r.value.types == types
  {
    if |categories| != |types| || |measurements| != |types| {
      return Failure(Client(LengthMismatch));
    }
    var t := new Tablet(target, measurements, types, Some(categories), false);
    r := Success(t);
  }

  /** Writes one cell, or the placeholder of its column's type. */
  method WriteCell(buf: ByteBuffer, ty: TSDataType, cell: Cell)
    requires Insertable(ty) && CellMatches(ty, cell)
    modifies buf
    ensures buf.data == old(buf.data) + SlotBytes(ty, cell)
  {
    hide Payload;
    match cell {
      case Some(v) => WritePayload(buf, v);
      case None => WritePayload(buf, Placeholder(ty));
    }
  }

  method WriteRun(buf: ByteBuffer, ty: TSDataType, col: Column)
    requires WellTyped(ty, col)
    modifies buf
    ensures buf.data == old(buf.data) + RunBytes(ty, col)
  {
    hide SlotBytes, Placeholder;
    ghost var was := buf.data;
    for i := 0 to |col|
      invariant WellTyped(ty, col[i..])
      invariant buf.data + RunBytes(ty, col[i..]) == was + RunBytes(ty, col)
    {
      ghost var before := buf.data;
      WriteCell(buf, ty, col[i]);
      assert col[i..][0] == col[i] && col[i..][1..] == col[i + 1..];
      assert buf.data + RunBytes(ty, col[i + 1..]) == before + (SlotBytes(ty, col[i]) + RunBytes(ty, col[i + 1..]));
    }
    assert buf.data + [] == buf.data;
  }

  method WriteBitmap(buf: ByteBuffer, col: Column)
    modifies buf
    ensures buf.data == old(buf.data) + BitmapBytes(NullsOf(col))
  {
    hide Pack, Zeros, AnySet;
    ghost var was := buf.data;
    var nulls := NullsOf(col);
    if AnySet(nulls) {
      buf.Push(1);
      var bitmap := PackBitsLsbFirst(nulls);
      // Pad to the server's fixed length.
      var padded := bitmap + Zeros(BitmapLength(|col|) - |bitmap|);
      buf.Extend(padded);
      assert was + [1] + padded == was + ([1] + padded);
    } else {
      buf.Push(0);
    }
  }

  method WriteRuns(buf: ByteBuffer, types: seq<TSDataType>, values: seq<Column>, rows: nat)
    requires WellTypedColumns(types, values, rows)
    modifies buf
    ensures buf.data == old(buf.data) + RunsBytes(types, values, rows)
  {
    hide RunBytes, WellTyped;
    ghost var was := buf.data;
    for c := 0 to |values|
      invariant WellTypedColumns(types[c..], values[c..], rows)
      invariant buf.data + RunsBytes(types[c..], values[c..], rows) == was + RunsBytes(types, values, rows)
    {
      ghost var before := buf.data;
      WriteRun(buf, types[c], values[c]);
      assert types[c..][1..] == types[c + 1..] && values[c..][1..] == values[c + 1..];
      assert buf.data + RunsBytes(types[c + 1..], values[c + 1..], rows)
          == before + (RunBytes(types[c], values[c]) + RunsBytes(types[c + 1..], values[c + 1..], rows));
    }
    assert buf.data + [] == buf.data;
  }

  method WriteBitmaps(buf: ByteBuffer, values: seq<Column>)
    modifies buf
    ensures buf.data == old(buf.data) + BitmapsBytes(values)
  {
    hide BitmapBytes;
    ghost var was := buf.data;
    for c := 0 to |values|
      invariant buf.data + BitmapsBytes(values[c..]) == was + BitmapsBytes(values)
    {
      ghost var before := buf.data;
      WriteBitmap(buf, values[c]);
      assert values[c..][1..] == values[c + 1..];
      assert buf.data + BitmapsBytes(values[c + 1..])
          == before + (BitmapBytes(NullsOf(values[c])) + BitmapsBytes(values[c + 1..]));
    }
    assert buf.data + [] == buf.data;
  }

  method WriteValues(types: seq<TSDataType>, values: seq<Column>, rows: nat) returns (r: bytes)
    requires WellTypedColumns(types, values, rows)
    ensures r == ValuesBytes(types, values, rows)
  {
    hide RunsBytes, BitmapsBytes;
    var buf := new ByteBuffer();
    WriteRuns(buf, types, values, rows);
    WriteBitmaps(buf, values);
    r := buf.data;
  }

  // ---------- What the server reads ----------

  /** The rows in a pair of buffers, given the column types and the row count. */
  function ReadRows(types: seq<TSDataType>, rows: nat, values: bytes, times: bytes): Option<seq<Row>>
  {
    var v, t := ParseValues(types, rows, values), ParseTimes(rows, times);
    if v.Done? && v.rest == [] && t.Done? && t.rest == [] then Some(RowsOf(t.value, v.value)) else None
  }

  lemma RowsDetermineColumns(times: seq<i64>, a: seq<Column>, b: seq<Column>)
    requires Rectangular(times, a) && Rectangular(times, b) && |a| == |b|
    requires RowsOf(times, a) == RowsOf(times, b)
    ensures a == b
  {
    forall c | 0 <= c < |a| ensures a[c] == b[c] {
      forall r | 0 <= r < |times| ensures a[c][r] == b[c][r] {
        assert RowAt(times, a, r) == RowsOf(times, a)[r] == RowAt(times, b, r);
      }
    }
  }

  /**
   Both buffers together give back the rows they were made from, exactly when every payload length fits its prefix.
   */
  lemma BuffersRoundTripIff(types: seq<TSDataType>, times: seq<i64>, values: seq<Column>)
    requires WellTypedColumns(types, values, |times|)
    ensures var values', times' := ValuesBytes(types, values, |times|), TimesBytes(times);
            ReadRows(types, |times|, values', times') == Some(RowsOf(times, values)) <==> ColumnsFit(values)
  {
    hide ParseValues, ParseTimes, ValuesBytes, TimesBytes, ColumnsFit;
    var n := |times|;
    var vs, ts := ValuesBytes(types, values, n), TimesBytes(times);
    ValuesRoundTripIff(types, values, n, []);
    TimesAppend(times, []);
    assert vs + [] == vs && ts + [] == ts;
    if ReadRows(types, n, vs, ts) == Some(RowsOf(times, values)) {
      RowsDetermineColumns(times, ParseValues(types, n, vs).value, values);
    }
  }

  predicate RowsFit(rows: seq<Row>)
  {
    forall row :: row in rows ==> ColumnFits(row.cells)
  }

  lemma RowsFitIff(times: seq<i64>, values: seq<Column>)
    requires Rectangular(times, values)
    ensures RowsFit(RowsOf(times, values)) <==> ColumnsFit(values)
  {
    hide CellFits;
    var rows := RowsOf(times, values);
    if RowsFit(rows) {
      forall c, r | 0 <= c < |values| && 0 <= r < |values[c]| ensures CellFits(values[c][r]) {
        assert rows[r] in rows && rows[r].cells[c] == values[c][r];
      }
    }
    if ColumnsFit(values) {
      forall r, c | 0 <= r < |rows| && 0 <= c < |rows[r].cells| ensures CellFits(rows[r].cells[c]) {
        assert rows[r].cells[c] == values[c][r] && ColumnFits(values[c]);
      }
    }
  }

  /** The second serializer finds the rows already sorted. */
  lemma SortedTwice(times: seq<i64>, values: seq<Column>)
    requires Rectangular(times, values)
    ensures var order := StableOrder(times);
            var times', values' := Permute(times, order), PermutedColumns(values, order);
            var again := StableOrder(times');
            Permute(times', again) == times' && PermutedColumns(values', again) == values'
  {
    var keys: seq<int> := times;
    var order := StableOrder(times);
    var times', values' := Permute(times, order), PermutedColumns(values, order);
    assert Permute(keys, order) == times';
    var again := StableOrder(times');
    SortIsIdempotent(keys, times);
    IdentityChangesNothing(times', values', again);
  }

  /** Sorting the columns by the timestamps sorts the rows by time. */
  lemma SortedRowsAre(times: seq<i64>, values: seq<Column>)
    requires Rectangular(times, values)
    ensures var order := StableOrder(times);
            && Rectangular(Permute(times, order), PermutedColumns(values, order))
            && RowsOf(Permute(times, order), PermutedColumns(values, order)) == SortedBy(RowsOf(times, values), RowTime)
  {
    hide StableOrder, RowAt;
    TimesOfRows(times, values);
    PermutingColumnsPermutesRows(times, values, StableOrder(times));
  }

  /**
   What inserting a tablet sends: a copy is sorted and serialized, in either order of the two
   buffers, and the server reads back the stable time sort of the caller's rows.
   */
  method TabletBuffers(t: Tablet, valuesFirst: bool) returns (values: bytes, times: bytes)
    requires t.Serializable()
    ensures ReadRows(t.types, |t.timestamps|, values, times) == Some(SortedBy(t.Rows(), RowTime)) <==> RowsFit(t.Rows())
  {
    hide SortedBy, ColumnFits, RowsOf, ReadRows, ValuesBytes, TimesBytes;
    var copy := new Tablet.Clone(t);
    SortedTwice(t.timestamps, t.values);
    SortedHasSame(t.Rows(), RowTime);
    if valuesFirst {
      values := copy.SerializeValues();
      times := copy.SerializeTimestamps();
    } else {
      times := copy.SerializeTimestamps();
      values := copy.SerializeValues();
    }
    assert RowsOf(copy.timestamps, copy.values) == SortedBy(t.Rows(), RowTime) by {
      SortedRowsAre(t.timestamps, t.values);
    }
    BuffersRoundTripIff(copy.types, copy.timestamps, copy.values);
    RowsFitIff(copy.timestamps, copy.values);
  }
}
