/**
 Record batches: null cells and rows without cells are dropped, the rows of one device are
 stably sorted by time, and every kept row is serialized in step with its measurements.
 */
module Batch {
  import opened Wrappers
  import opened Bytes
  import opened Values
  import opened SortByKey
  import opened Record

  datatype Point = Point(measurement: string, value: Value)

  datatype Row = Row(device: string, time: i64, points: seq<Point>)

  /** Measurements and values paired up to the shorter list. */
  function Zip(ms: seq<string>, vs: seq<Value>): (points: seq<Point>)
    ensures |points| == if |ms| <= |vs| then |ms| else |vs|
    ensures forall i :: 0 <= i < |points| ==> points[i] == Point(ms[i], vs[i])
  {
    seq(if |ms| <= |vs| then |ms| else |vs|, i requires 0 <= i < |ms| && i < |vs| => Point(ms[i], vs[i]))
  }

  function MeasurementsOf(points: seq<Point>): (ms: seq<string>)
    ensures |ms| == |points|
    ensures forall i :: 0 <= i < |points| ==> ms[i] == points[i].measurement
  {
    seq(|points|, i requires 0 <= i < |points| => points[i].measurement)
  }

  function ValuesOf(points: seq<Point>): (vs: seq<Value>)
    ensures |vs| == |points|
    ensures forall i :: 0 <= i < |points| ==> vs[i] == points[i].value
  {
    seq(|points|, i requires 0 <= i < |points| => points[i].value)
  }

  function DropNulls(points: seq<Point>): (r: seq<Point>)
    ensures forall p :: p in r <==> p in points && p.value != Null
  {
    if points == [] then []
    else if points[0].value == Null then DropNulls(points[1..])
    else [points[0]] + DropNulls(points[1..])
  }

  /** Each point stays or goes by its own value alone, and none changes place. */
  lemma {:induction false} DropNullsPointwise(a: seq<Point>, b: seq<Point>, p: Point)
    ensures DropNulls(a + b) == DropNulls(a) + DropNulls(b)
    ensures DropNulls([p]) == if p.value == Null then [] else [p]
  {
    if a == [] {
      assert a + b == b;
    } else {
      assert (a + b)[1..] == a[1..] + b;
      DropNullsPointwise(a[1..], b, p);
    }
  }

  /** Null cells leave together with their measurement; a row without nulls is passed on as it is. */
  function FilterNullCells(ms: seq<string>, vs: seq<Value>): (seq<string>, seq<Value>)
  {
    if Null !in vs then (ms, vs)
    else
      var kept := DropNulls(Zip(ms, vs));
      (MeasurementsOf(kept), ValuesOf(kept))
  }

  lemma {:induction false} NothingToDrop(points: seq<Point>)
    requires forall p :: p in points ==> p.value != Null
    ensures DropNulls(points) == points
  {
    if points != [] {
      assert points[0] in points;
      NothingToDrop(points[1..]);
    }
  }

  /** The shortcut and the filter agree: what is left of a row is its non-null points, still paired. */
  lemma FilterKeepsPairs(ms: seq<string>, vs: seq<Value>)
    requires |ms| == |vs|
    ensures var (ms', vs') := FilterNullCells(ms, vs);
            && |ms'| == |vs'|
            && Zip(ms', vs') == DropNulls(Zip(ms, vs))
            && Null !in vs'
  {
    var kept := DropNulls(Zip(ms, vs));
    if Null !in vs {
      forall p | p in Zip(ms, vs) ensures p.value != Null {
        assert p.value in vs;
      }
      NothingToDrop(Zip(ms, vs));
    } else {
      assert Zip(MeasurementsOf(kept), ValuesOf(kept)) == kept;
      forall i | 0 <= i < |kept| ensures ValuesOf(kept)[i] != Null {
        assert kept[i] in kept;
      }
    }
  }

  function CheckRecordArity(ms: seq<string>, vs: seq<Value>): Result<()>
  {
    if |ms| != |vs| then Failure(Client(ArityMismatch)) else Success(())
  }

  // ---------- Rows ----------

  /** The i-th row of parallel lists. */
  function RowAt(devices: seq<string>, times: seq<i64>, mss: seq<seq<string>>, vss: seq<seq<Value>>, i: nat): Row
    requires i < |devices| == |times| == |mss| == |vss|
  {
    Row(devices[i], times[i], Zip(mss[i], vss[i]))
  }

  function RowsOf(devices: seq<string>, times: seq<i64>, mss: seq<seq<string>>, vss: seq<seq<Value>>): (rows: seq<Row>)
    requires |devices| == |times| == |mss| == |vss|
    ensures |rows| == |times|
    ensures forall i :: 0 <= i < |rows| ==> rows[i] == RowAt(devices, times, mss, vss, i)
  {
    seq(|times|, i requires 0 <= i < |times| => RowAt(devices, times, mss, vss, i))
  }

  /** Null cells removed, then rows with nothing left removed. */
  function Clean(rows: seq<Row>): (r: seq<Row>)
    ensures forall x :: x in r ==> x.points != []
  {
    if rows == [] then []
    else
      var points := DropNulls(rows[0].points);
      if points == [] then Clean(rows[1..]) else [rows[0].(points := points)] + Clean(rows[1..])
  }

  lemma {:induction false} CleanDistributes(a: seq<Row>, b: seq<Row>)
    ensures Clean(a + b) == Clean(a) + Clean(b)
  {
    hide DropNulls;
    if a == [] {
      assert a + b == b;
    } else {
      assert (a + b)[0] == a[0] && (a + b)[1..] == a[1..] + b;
      CleanDistributes(a[1..], b);
    }
  }

  function RowTime(row: Row): int
  {
    row.time
  }

  lemma {:induction false} CleanAtTime(rows: seq<Row>, t: int)
    ensures AtKey(Clean(rows), RowTime, t) == Clean(AtKey(rows, RowTime, t))
  {
    hide DropNulls;
    if rows != [] {
      CleanAtTime(rows[1..], t);
      var x, rest := rows[0], Clean(rows[1..]);
      var points := DropNulls(x.points);
      if points != [] {
        var y := x.(points := points);
        AtKeyDistributes([y], rest, RowTime, t);
        AtKeyOfOne(y, RowTime, t);
      }
      if x.time == t {
        assert AtKey(rows, RowTime, t)[1..] == AtKey(rows[1..], RowTime, t);
      }
    }
  }

  lemma {:induction false} CleanKeepsTimes(rows: seq<Row>, lo: i64)
    requires forall x :: x in rows ==> lo <= x.time
    ensures forall x :: x in Clean(rows) ==> lo <= x.time
  {
    if rows != [] {
      assert rows[0] in rows;
      CleanKeepsTimes(rows[1..], lo);
    }
  }

  lemma {:induction false} CleanKeepsByTime(rows: seq<Row>)
    requires ByKey(rows, RowTime)
    ensures ByKey(Clean(rows), RowTime)
  {
    hide DropNulls;
    if rows != [] {
      var rest := Clean(rows[1..]);
      CleanKeepsByTime(rows[1..]);
      assert forall x :: x in rows[1..] ==> RowTime(rows[0]) <= RowTime(x);
      CleanKeepsTimes(rows[1..], rows[0].time);
      forall i | 0 <= i < |rest| ensures RowTime(rows[0]) <= RowTime(rest[i]) {
        assert rest[i] in rest;
      }
    }
  }

  /** Dropping nulls before sorting, as the client does, sends what dropping them afterwards would. */
  lemma CleaningCommutesWithSorting(rows: seq<Row>)
    ensures SortedBy(Clean(rows), RowTime) == Clean(SortedBy(rows, RowTime))
  {
    hide SortedBy, ByKey, AtKey, Clean;
    var sorted := SortedBy(rows, RowTime);
    SortedIsStablySorted(rows, RowTime);
    SortedIsStablySorted(Clean(rows), RowTime);
    CleanKeepsByTime(sorted);
    forall t ensures AtKey(Clean(sorted), RowTime, t) == AtKey(Clean(rows), RowTime, t) {
      CleanAtTime(sorted, t);
      CleanAtTime(rows, t);
    }
    StablySortedUnique(Clean(rows), RowTime, SortedBy(Clean(rows), RowTime), Clean(sorted));
  }

  // ---------- The server's view of parallel lists ----------

  /** The rows a server reads from parallel lists of devices, times, measurements and value buffers. */
  function ReadRows(devices: seq<string>, times: seq<i64>, mss: seq<seq<string>>, buffers: seq<bytes>)
    : (r: Option<seq<Row>>)
    requires |devices| == |times| == |mss| == |buffers|
    decreases |times|
  {
    if times == [] then Some([])
    else
      var vs, rest := ParseRecord(buffers[0]), ReadRows(devices[1..], times[1..], mss[1..], buffers[1..]);
      if vs.None? || rest.None? || |vs.value| != |mss[0]| then None
      else Some([Row(devices[0], times[0], Zip(mss[0], vs.value))] + rest.value)
  }

  function Buffers(vss: seq<seq<Value>>): (r: seq<bytes>)
    ensures |r| == |vss|
    ensures forall i :: 0 <= i < |vss| ==> r[i] == RecordBytes(vss[i])
  {
    seq(|vss|, i requires 0 <= i < |vss| => RecordBytes(vss[i]))
  }

  predicate Paired(mss: seq<seq<string>>, vss: seq<seq<Value>>)
  {
    |mss| == |vss| && forall i :: 0 <= i < |mss| ==> |mss[i]| == |vss[i]|
  }

  predicate RowFits(row: Row)
  {
    AllFit(ValuesOf(row.points))
  }

  predicate RowsFit(rows: seq<Row>)
  {
    forall x :: x in rows ==> RowFits(x)
  }

  lemma FitsInParts(row: Row, rest: seq<Row>)
    ensures RowsFit([row] + rest) <==> RowFits(row) && RowsFit(rest)
  {
    hide RowFits;
    assert forall x :: x in [row] + rest <==> x == row || x in rest;
  }

  lemma NoRowsFit()
    ensures RowsFit([])
  {
  }

  lemma ZipDeterminesValues(ms: seq<string>, a: seq<Value>, b: seq<Value>)
    requires |ms| == |a| == |b| && Zip(ms, a) == Zip(ms, b)
    ensures a == b
  {
    forall i | 0 <= i < |a| ensures a[i] == b[i] {
      assert Zip(ms, a)[i] == Zip(ms, b)[i];
    }
  }

  lemma ValuesOfZip(ms: seq<string>, vs: seq<Value>)
    requires |ms| == |vs|
    ensures ValuesOf(Zip(ms, vs)) == vs
  {
  }

  /** Serialized rows are read back as they were, exactly when every payload length fits its prefix. */
  lemma {:induction false} RowsRoundTripIff(devices: seq<string>, times: seq<i64>, mss: seq<seq<string>>,
        vss: seq<seq<Value>>)
    requires |devices| == |times| == |mss| && Paired(mss, vss)
    ensures ReadRows(devices, times, mss, Buffers(vss)) == Some(RowsOf(devices, times, mss, vss))
            <==> RowsFit(RowsOf(devices, times, mss, vss))
    decreases |times|
  {
    hide AllFit, ParseRecord, RecordBytes, Zip, ValuesOf, RowsFit;
    var rows := RowsOf(devices, times, mss, vss);
    if times == [] {
      NoRowsFit();
    } else {
      var rest := RowsOf(devices[1..], times[1..], mss[1..], vss[1..]);
      assert rest == rows[1..];
      assert Buffers(vss)[1..] == Buffers(vss[1..]);
      RowsRoundTripIff(devices[1..], times[1..], mss[1..], vss[1..]);
      RecordRoundTripIff(vss[0]);
      ValuesOfZip(mss[0], vss[0]);
      assert rows == [rows[0]] + rest;
      FitsInParts(rows[0], rest);
      assert ValuesOf(rows[0].points) == vss[0];
      assert RowsFit(rows) <==> AllFit(vss[0]) && RowsFit(rest);
      var parsed := ParseRecord(Buffers(vss)[0]);
      if parsed.Some? && |parsed.value| == |mss[0]| && Zip(mss[0], parsed.value) == Zip(mss[0], vss[0]) {
        ZipDeterminesValues(mss[0], parsed.value, vss[0]);
      }
      var r := ReadRows(devices[1..], times[1..], mss[1..], Buffers(vss)[1..]);
      if ReadRows(devices, times, mss, Buffers(vss)) == Some(rows) {
        assert [Row(devices[0], times[0], Zip(mss[0], parsed.value))] + r.value == rows;
        assert r.value == rows[1..];
      }
    }
  }
}
