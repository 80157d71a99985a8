/** The write requests a session sends, assembled from records and tablets. */
module Inserts {
  import opened Wrappers
  import opened Bytes
  import opened Values
  import opened StableSort
  import opened SortByKey
  import opened Record
  import opened Batch
  import F = TabletFormat
  import T = Tablets

  /** A write, as it goes over the wire next to the session id. */
  datatype Write =
    | InsertRecord(device: string, measurements: seq<string>, buffer: bytes, time: i64, aligned: bool)
    | InsertRecords(devices: seq<string>, measurementLists: seq<seq<string>>, buffers: seq<bytes>, times: seq<i64>,
        aligned: bool)
    | InsertRecordsOfOneDevice(device: string, measurementLists: seq<seq<string>>, buffers: seq<bytes>, times: seq<i64>,
                               aligned: bool)
    | InsertTablet(target: string, measurements: seq<string>, values: bytes, timestamps: bytes,
        types: seq<byte>, size: i32, aligned: bool, toTable: bool, categories: Option<seq<T.ColumnCategory>>)
    | InsertTablets(targets: seq<string>, measurementLists: seq<seq<string>>, valueBuffers: seq<bytes>,
                    timeBuffers: seq<bytes>, typeLists: seq<seq<byte>>, sizes: seq<i32>, aligned: bool)

  // ---------- Keeping rows ----------

  lemma CleanOfOne(row: Row)
    ensures Clean([row]) == if DropNulls(row.points) == [] then [] else [row.(points := DropNulls(row.points))]
  {
    hide DropNulls;
    assert [row][1..] == [];
  }

  /** What the next input row adds to the kept ones. */
  lemma CleanGrows(rows: seq<Row>, i: nat)
    requires i < |rows|
    ensures Clean(rows[..i + 1])
            == Clean(rows[..i]) + if DropNulls(rows[i].points) == [] then []
                else [rows[i].(points := DropNulls(rows[i].points))]
  {
    hide Clean, DropNulls;
    assert rows[..i + 1] == rows[..i] + [rows[i]];
    CleanDistributes(rows[..i], [rows[i]]);
    CleanOfOne(rows[i]);
  }

  lemma RowsOfGrow(devices: seq<string>, times: seq<i64>, mss: seq<seq<string>>, vss: seq<seq<Value>>,
                   d: string, t: i64, ms: seq<string>, vs: seq<Value>)
    requires |devices| == |times| == |mss| == |vss|
    ensures RowsOf(devices + [d], times + [t], mss + [ms], vss + [vs])
            == RowsOf(devices, times, mss, vss) + [Row(d, t, Zip(ms, vs))]
  {
    hide Zip;
  }

  /** Reads the parallel input lists row by row, keeping what is not null. */
  method KeepRows(devices: seq<string>, times: seq<i64>, mss: seq<seq<string>>, vss: seq<seq<Value>>)
    returns (r: Result<()>, kd: seq<string>, kt: seq<i64>, km: seq<seq<string>>, kv: seq<seq<Value>>)
    requires |devices| == |times| == |mss| == |vss|
    ensures r == if Paired(mss, vss) then Success(()) else Failure(Client(ArityMismatch))
    ensures |kd| == |kt| == |km| && Paired(km, kv)
    ensures r.Success? ==> RowsOf(kd, kt, km, kv) == Clean(RowsOf(devices, times, mss, vss))
    ensures forall x :: x in kd ==> x in devices
  {
    hide Zip, DropNulls, Clean, FilterNullCells;
    ghost var rows := RowsOf(devices, times, mss, vss);
    kd, kt, km, kv := [], [], [], [];
    NothingKept(rows);
    for i := 0 to |times|
      invariant |kd| == |kt| == |km| && Paired(km, kv)
      invariant RowsOf(kd, kt, km, kv) == Clean(rows[..i])
      invariant Paired(mss[..i], vss[..i])
      invariant forall x :: x in kd ==> x in devices
    {
      var arity := CheckRecordArity(mss[i], vss[i]);
      if arity.Failure? {
        return Failure(arity.error), kd, kt, km, kv;
      }
      var (ms, vs) := FilterNullCells(mss[i], vss[i]);
      CleanGrows(rows, i);
      KeptOrDropped(mss[i], vss[i]);
      if vs != [] {
        RowsOfGrow(kd, kt, km, kv, devices[i], times[i], ms, vs);
        kd, kt, km, kv := kd + [devices[i]], kt + [times[i]], km + [ms], kv + [vs];
      }
    }
    assert rows[..|times|] == rows && mss[..|times|] == mss && vss[..|times|] == vss;
    r := Success(());
  }

  lemma NothingKept(rows: seq<Row>)
    ensures RowsOf([], [], [], []) == [] == Clean(rows[..0])
  {
  }

  lemma KeptOrDropped(ms: seq<string>, vs: seq<Value>)
    requires |ms| == |vs|
    ensures var (ms', vs') := FilterNullCells(ms, vs);
            && |ms'| == |vs'| && Zip(ms', vs') == DropNulls(Zip(ms, vs))
            && (vs' == [] <==> DropNulls(Zip(ms, vs)) == [])
  {
    FilterKeepsPairs(ms, vs);
  }

  lemma {:induction false} CleanFits(rows: seq<Row>)
    ensures RowsFit(Clean(rows)) <==> RowsFit(rows)
  {
    hide RowFits, DropNulls, RowsFit;
    NoRowsFit();
    if rows != [] {
      var row := rows[0];
      CleanFits(rows[1..]);
      assert rows == [row] + rows[1..];
      FitsInParts(row, rows[1..]);
      DroppingKeepsFit(row);
      FitsInParts(row.(points := DropNulls(row.points)), Clean(rows[1..]));
    }
  }

  /** A null always fits, so dropping it changes nothing. */
  lemma DroppingKeepsFit(row: Row)
    ensures RowFits(row.(points := DropNulls(row.points))) <==> RowFits(row)
    ensures DropNulls(row.points) == [] ==> RowFits(row)
  {
    FitsByPoint(row);
    FitsByPoint(row.(points := DropNulls(row.points)));
    NullFits();
  }

  lemma FitsByPoint(row: Row)
    ensures RowFits(row) <==> forall p :: p in row.points ==> Fits(p.value)
  {
    hide Fits;
    if RowFits(row) {
      forall p | p in row.points ensures Fits(p.value) {
        var i :| 0 <= i < |row.points| && row.points[i] == p;
        assert Fits(ValuesOf(row.points)[i]);
      }
    }
    if forall p :: p in row.points ==> Fits(p.value) {
      forall i | 0 <= i < |row.points| ensures Fits(ValuesOf(row.points)[i]) {
        assert row.points[i] in row.points;
      }
    }
  }

  lemma SameRowsFit(a: seq<Row>, b: seq<Row>)
    requires forall x :: x in a <==> x in b
    ensures RowsFit(a) <==> RowsFit(b)
  {
    hide RowFits;
  }

  // ---------- One device ----------

  function Repeat(device: string, n: nat): (r: seq<string>)
    ensures |r| == n && forall i :: 0 <= i < n ==> r[i] == device
  {
    seq(n, _ => device)
  }

  method SerializeAll(vss: seq<seq<Value>>) returns (buffers: seq<bytes>)
    ensures buffers == Buffers(vss)
  {
    hide RecordBytes;
    buffers := [];
    for i := 0 to |vss|
      invariant |buffers| == i && forall k :: 0 <= k < i ==> buffers[k] == RecordBytes(vss[k])
    {
      var buffer := SerializeRecordValues(vss[i]);
      buffers := buffers + [buffer];
    }
  }

  /** Sorts an index list stably by time and takes all three lists through it; ascending input takes the short way. */
  method SortOneDeviceRows(times: seq<i64>, mss: seq<seq<string>>, vss: seq<seq<Value>>)
    returns (times': seq<i64>, mss': seq<seq<string>>, buffers: seq<bytes>)
    requires |times| == |mss| == |vss|
    ensures var order := StableOrder(times);
            && times' == Permute(times, order) && mss' == Permute(mss, order) && buffers == Buffers(Permute(vss, order))
  {
    hide RecordBytes, StableOrder;
    var order := StableOrder(times);
    if IsIdentity(order) {
      PermuteIdentity(times, order);
      PermuteIdentity(mss, order);
      PermuteIdentity(vss, order);
      buffers := SerializeAll(vss);
      return times, mss, buffers;
    }
    times', mss' := Permute(times, order), Permute(mss, order);
    buffers := SerializeAll(Permute(vss, order));
  }

  /** Sorting the lists of one device sorts its rows. */
  lemma SortingListsSortsRows(device: string, times: seq<i64>, mss: seq<seq<string>>, vss: seq<seq<Value>>)
    requires |times| == |mss| == |vss|
    ensures var order, devices := StableOrder(times), Repeat(device, |times|);
            RowsOf(devices, Permute(times, order), Permute(mss, order), Permute(vss, order))
            == SortedBy(RowsOf(devices, times, mss, vss), RowTime)
  {
    hide Zip, StableOrder;
    var devices := Repeat(device, |times|);
    var rows := RowsOf(devices, times, mss, vss);
    assert KeysOf(rows, RowTime) == times;
    var order := StableOrder(times);
    forall p | 0 <= p < |order|
      ensures RowAt(devices, Permute(times, order), Permute(mss, order), Permute(vss, order), p) == rows[order[p]]
    {
    }
  }

  lemma SortingKeepsPairs(mss: seq<seq<string>>, vss: seq<seq<Value>>, order: seq<nat>)
    requires Paired(mss, vss) && InRange(order, |mss|)
    ensures Paired(Permute(mss, order), Permute(vss, order))
  {
  }

  /**
   A batch of one device carries the stable time sort of the rows given, without null cells and
   all-null rows: that is what a reader of the lists recovers, exactly when every payload length fits its prefix.
   */
  method OneDeviceRequest(device: string, times: seq<i64>, mss: seq<seq<string>>, vss: seq<seq<Value>>, aligned: bool)
    returns (r: Result<Write>)
    ensures !(|times| == |mss| == |vss|) <==> r == Failure(Client(LengthMismatch))
    ensures |times| == |mss| == |vss| ==>
              var rows := RowsOf(Repeat(device, |times|), times, mss, vss);
              && (!Paired(mss, vss) <==> r == Failure(Client(ArityMismatch)))
              && (Paired(mss, vss) && Clean(rows) == [] <==> r == Failure(Client(AllNull)))
              && (Paired(mss, vss) && Clean(rows) != [] <==> r.Success?)
              && (r.Success? ==> OneDeviceSent(r.value, device, aligned, rows))
  {
    hide Clean, ReadRows, RowsFit, RowsOf, Buffers, StableOrder, SortedBy, RowFits;
    var n := |times|;
    if |mss| != n || |vss| != n {
      return Failure(Client(LengthMismatch));
    }
    ghost var rows := RowsOf(Repeat(device, n), times, mss, vss);
    var kept, kd, kt, km, kv := KeepRows(Repeat(device, n), times, mss, vss);
    if kept.Failure? {
      return Failure(kept.error);
    }
    assert |Clean(rows)| == |kt|;
    if kt == [] {
      return Failure(Client(AllNull));
    }
    forall i | 0 <= i < |kd| ensures kd[i] == device {
      assert kd[i] in kd;
    }
    assert kd == Repeat(device, |kt|);
    var times', mss', buffers := SortOneDeviceRows(kt, km, kv);
    ghost var order := StableOrder(kt);
    SortingListsSortsRows(device, kt, km, kv);
    SortingKeepsPairs(km, kv, order);
    RowsRoundTripIff(Repeat(device, |kt|), times', mss', Permute(kv, order));
    SortedHasSame(Clean(rows), RowTime);
    SameRowsFit(SortedBy(Clean(rows), RowTime), Clean(rows));
    CleanFits(rows);
    r := Success(InsertRecordsOfOneDevice(device, mss', buffers, times', aligned));
  }

  ghost predicate OneDeviceSent(w: Write, device: string, aligned: bool, rows: seq<Row>)
  {
    && w.InsertRecordsOfOneDevice? && w.device == device && w.aligned == aligned
    && |w.times| == |w.measurementLists| == |w.buffers|
    && (ReadRows(Repeat(device, |w.times|), w.times, w.measurementLists, w.buffers)
        == Some(SortedBy(Clean(rows), RowTime))
        <==> RowsFit(rows))
  }

  // ---------- Many devices, one record ----------

  ghost predicate RecordsSent(w: Write, aligned: bool, rows: seq<Row>)
  {
    && w.InsertRecords? && w.aligned == aligned
    && |w.devices| == |w.times| == |w.measurementLists| == |w.buffers|
    && (ReadRows(w.devices, w.times, w.measurementLists, w.buffers) == Some(Clean(rows)) <==> RowsFit(rows))
  }

  /** A batch over many devices keeps the order given. */
  method RecordsRequest(devices: seq<string>, times: seq<i64>, mss: seq<seq<string>>, vss: seq<seq<Value>>,
        aligned: bool)
    returns (r: Result<Write>)
    ensures !(|devices| == |times| == |mss| == |vss|) <==> r == Failure(Client(LengthMismatch))
    ensures |devices| == |times| == |mss| == |vss| ==>
              var rows := RowsOf(devices, times, mss, vss);
              && (!Paired(mss, vss) <==> r == Failure(Client(ArityMismatch)))
              && (Paired(mss, vss) && Clean(rows) == [] <==> r == Failure(Client(AllNull)))
              && (Paired(mss, vss) && Clean(rows) != [] <==> r.Success?)
              && (r.Success? ==> RecordsSent(r.value, aligned, rows))
  {
    hide Clean, ReadRows, RowsFit, RowsOf, Buffers;
    var n := |devices|;
    if |times| != n || |mss| != n || |vss| != n {
      return Failure(Client(LengthMismatch));
    }
    ghost var rows := RowsOf(devices, times, mss, vss);
    var kept, kd, kt, km, kv := KeepRows(devices, times, mss, vss);
    if kept.Failure? {
      return Failure(kept.error);
    }
    assert |Clean(rows)| == |kt|;
    if kd == [] {
      return Failure(Client(AllNull));
    }
    var buffers := SerializeAll(kv);
    RowsRoundTripIff(kd, kt, km, kv);
    CleanFits(rows);
    r := Success(InsertRecords(kd, km, buffers, kt, aligned));
  }

  ghost predicate RecordSent(w: Write, device: string, time: i64, aligned: bool, ms: seq<string>, vs: seq<Value>)
  {
    && w.InsertRecord? && w.device == device && w.time == time && w.aligned == aligned
    && (ReadRows([device], [time], [w.measurements], [w.buffer]) == Some([Row(device, time, DropNulls(Zip(ms, vs)))])
        <==> AllFit(vs))
  }

  /** One record: its non-null cells, or an error when there are none. */
  method RecordRequest(device: string, time: i64, ms: seq<string>, vs: seq<Value>, aligned: bool)
    returns (r: Result<Write>)
    ensures |ms| != |vs| <==> r == Failure(Client(ArityMismatch))
    ensures |ms| == |vs| && (forall v :: v in vs ==> v == Null) <==> r == Failure(Client(AllNull))
    ensures r.Failure? ==> r.error == Client(ArityMismatch) || r.error == Client(AllNull)
    ensures r.Success? ==> RecordSent(r.value, device, time, aligned, ms, vs)
  {
    var arity := CheckRecordArity(ms, vs);
    if arity.Failure? {
      return Failure(arity.error);
    }
    var (ms', vs') := FilterNullCells(ms, vs);
    KeptOrDropped(ms, vs);
    AllNullIff(ms, vs);
    if vs' == [] {
      return Failure(Client(AllNull));
    }
    var buffer := SerializeRecordValues(vs');
    r := Success(InsertRecord(device, ms', buffer, time, aligned));
    OneRecordReadBack(device, time, ms, vs, ms', vs');
  }

  lemma AllNullIff(ms: seq<string>, vs: seq<Value>)
    requires |ms| == |vs|
    ensures DropNulls(Zip(ms, vs)) == [] <==> forall v :: v in vs ==> v == Null
  {
    var points := Zip(ms, vs);
    if DropNulls(points) == [] {
      forall v | v in vs ensures v == Null {
        var i :| 0 <= i < |vs| && vs[i] == v;
        assert points[i] in points && points[i] !in DropNulls(points);
      }
    } else {
      var p := DropNulls(points)[0];
      assert p in DropNulls(points);
      var i :| 0 <= i < |points| && points[i] == p;
      assert vs[i] in vs && vs[i] != Null;
    }
  }

  lemma OneRecordReadBack(device: string, time: i64, ms: seq<string>, vs: seq<Value>, ms': seq<string>, vs': seq<Value>)
    requires |ms| == |vs| && |ms'| == |vs'| && Zip(ms', vs') == DropNulls(Zip(ms, vs))
    ensures ReadRows([device], [time], [ms'], [RecordBytes(vs')]) == Some([Row(device, time, DropNulls(Zip(ms, vs)))])
            <==> AllFit(vs)
  {
    hide ReadRows, RecordBytes, RowFits, DropNulls, Zip;
    var row := Row(device, time, Zip(ms, vs));
    RowsRoundTripIff([device], [time], [ms'], [vs']);
    assert Buffers([vs']) == [RecordBytes(vs')];
    assert RowsOf([device], [time], [ms'], [vs']) == [row.(points := DropNulls(row.points))];
    DroppingKeepsFit(row);
    FitsInParts(row.(points := DropNulls(row.points)), []);
    NoRowsFit();
    assert [row.(points := DropNulls(row.points))] + [] == [row.(points := DropNulls(row.points))];
    OneRowFits(row, ms, vs);
  }

  lemma OneRowFits(row: Row, ms: seq<string>, vs: seq<Value>)
    requires |ms| == |vs| && row.points == Zip(ms, vs)
    ensures RowFits(row) <==> AllFit(vs)
  {
    ValuesOfZip(ms, vs);
  }

  // ---------- Tablets ----------

  function TypeCodes(types: seq<TSDataType>): (codes: seq<byte>)
    ensures |codes| == |types|
    ensures forall i :: 0 <= i < |types| ==> FromCode(codes[i]) == Some(types[i])
  {
    if types == [] then [] else [Code(types[0])] + TypeCodes(types[1..])
  }

  /** The column types a list of codes stands for. */
  function TypesOf(codes: seq<byte>): Option<seq<TSDataType>>
  {
    if codes == [] then Some([])
    else
      var ty, rest := FromCode(codes[0]), TypesOf(codes[1..]);
      if ty.None? || rest.None? then None else Some([ty.value] + rest.value)
  }

  lemma {:induction false} CodesRoundTrip(types: seq<TSDataType>)
    ensures TypesOf(TypeCodes(types)) == Some(types)
  {
    if types != [] {
      CodesRoundTrip(types[1..]);
      assert TypeCodes(types)[1..] == TypeCodes(types[1..]);
      assert [types[0]] + types[1..] == types;
    }
  }

  /** What the server reads from the fields of a request: type codes, a row count and the two buffers. */
  function ReadTablet(codes: seq<byte>, size: i32, values: bytes, times: bytes): Option<seq<T.Row>>
  {
    var types := TypesOf(codes);
    if size < 0 || types.None? then None else T.ReadRows(types.value, size, values, times)
  }

  /** A row count beyond 31 bits is cut when it is sent, and then the rows cannot be read back. */
  const ROW_LIMIT := 0x8000_0000

  ghost predicate TabletRead(t: T.Tablet, codes: seq<byte>, size: i32, values: bytes, times: bytes)
    requires t.Valid()
    reads t
  {
    ReadTablet(codes, size, values, times) == Some(SortedBy(t.Rows(), T.RowTime))
    <==> T.RowsFit(t.Rows()) && |t.timestamps| < ROW_LIMIT
  }

  lemma RowCountRead(types: seq<TSDataType>, size: nat, values: bytes, times: bytes)
    ensures var rows := T.ReadRows(types, size, values, times); rows.Some? ==> |rows.value| == size
  {
    hide F.ParseValues, F.ParseTimes;
  }

  lemma SizeSent(n: nat)
    ensures n < ROW_LIMIT ==> AsI32(n) == n
    ensures n >= ROW_LIMIT ==> AsI32(n) != n
  {
  }

  /**
   Buffers that read back under the true row count read back from the request exactly when that count survives the cast.
   */
  lemma SentIsRead(t: T.Tablet, values: bytes, times: bytes)
    requires t.Valid()
    requires T.ReadRows(t.types, |t.timestamps|, values, times) == Some(SortedBy(t.Rows(), T.RowTime))
        <==> T.RowsFit(t.Rows())
    ensures TabletRead(t, TypeCodes(t.types), AsI32(|t.timestamps|), values, times)
  {
    hide T.ReadRows, T.RowsFit, AsI32, TypesOf, TypeCodes;
    CodesRoundTrip(t.types);
    SizeSent(|t.timestamps|);
    var size := AsI32(|t.timestamps|);
    if size >= 0 {
      RowCountRead(t.types, size, values, times);
    }
  }

  /** A single tablet of either model; only a table-model one carries categories. */
  method TabletRequest(t: T.Tablet) returns (w: Write)
    requires t.Serializable()
    ensures w.InsertTablet? && w.target == t.target && w.measurements == t.measurements && w.types == TypeCodes(t.types)
    ensures TabletRead(t, w.types, w.size, w.values, w.timestamps)
    ensures w.size == AsI32(|t.timestamps|) && w.aligned == t.aligned
    ensures w.toTable == t.categories.Some? && w.categories == t.categories
  {
    hide T.ReadRows, SortedBy, T.RowsFit, TabletRead;
    var values, times := T.TabletBuffers(t, true);
    SentIsRead(t, values, times);
    w := InsertTablet(t.target, t.measurements, values, times, TypeCodes(t.types), AsI32(|t.timestamps|), t.aligned,
                      t.categories.Some?, t.categories);
  }

  /** Position `i` of every list describes tablet `i`. */
  ghost predicate TabletsSent(w: Write, tablets: seq<T.Tablet>, n: nat)
    requires n <= |tablets| && forall i :: 0 <= i < |tablets| ==> tablets[i].Valid()
    reads tablets
  {
    && w.InsertTablets?
    && |w.targets| == |w.measurementLists| == |w.valueBuffers| == |w.timeBuffers| == |w.typeLists| == |w.sizes| == n
    && forall i :: 0 <= i < n ==> TabletSent(w, tablets[i], i)
  }

  ghost predicate TabletSent(w: Write, t: T.Tablet, i: nat)
    requires t.Valid() && w.InsertTablets?
    requires |w.targets| == |w.measurementLists| == |w.valueBuffers| == |w.timeBuffers| == |w.typeLists| == |w.sizes|
        && i < |w.sizes|
    reads t
  {
    && w.targets[i] == t.target && w.measurementLists[i] == t.measurements && w.typeLists[i] == TypeCodes(t.types)
    && w.sizes[i] == AsI32(|t.timestamps|)
    && TabletRead(t, w.typeLists[i], w.sizes[i], w.valueBuffers[i], w.timeBuffers[i])
  }

  /** A batch of tree-model tablets; the callers' tablets keep their own row order. */
  method TabletsRequest(tablets: seq<T.Tablet>, aligned: bool) returns (r: Result<Write>)
    requires forall i :: 0 <= i < |tablets| ==> tablets[i].Serializable()
    ensures forall i :: 0 <= i < |tablets| ==> tablets[i].Valid()
    ensures tablets == [] <==> r == Failure(Client(NoTablets))
    ensures (exists i :: 0 <= i < |tablets| && tablets[i].categories.Some?) <==> r == Failure(Client(TableModelTablet))
    ensures r.Failure? ==> r.error == Client(NoTablets) || r.error == Client(TableModelTablet)
    ensures r.Success? ==> TabletsSent(r.value, tablets, |tablets|) && r.value.aligned == aligned
  {
    hide TabletRead, TypeCodes, AsI32, T.ReadRows, SortedBy, T.RowsFit;
    if tablets == [] {
      return Failure(Client(NoTablets));
    }
    var w := InsertTablets([], [], [], [], [], [], aligned);
    for i := 0 to |tablets|
      invariant TabletsSent(w, tablets, i) && w.aligned == aligned
      invariant forall k :: 0 <= k < i ==> tablets[k].categories == None
    {
      var t := tablets[i];
      if t.categories.Some? {
        return Failure(Client(TableModelTablet));
      }
      var values, times := T.TabletBuffers(t, true);
      ghost var was := w;
      w := InsertTablets(w.targets + [t.target], w.measurementLists + [t.measurements], w.valueBuffers + [values],
                         w.timeBuffers + [times], w.typeLists + [TypeCodes(t.types)],
                         w.sizes + [AsI32(|t.timestamps|)], aligned);
      assert TabletSent(w, t, i) by { SentIsRead(t, values, times); }
      forall k | 0 <= k < i ensures TabletSent(w, tablets[k], k) {
        assert TabletSent(was, tablets[k], k);
      }
    }
    r := Success(w);
  }
}
