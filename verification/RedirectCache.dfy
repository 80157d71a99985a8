/** The redirect cache as it is stored: a map with sequence numbers, kept equal to the hint list. */
module RedirectCaches {
  import opened Wrappers
  import opened Endpoints
  import opened Status
  import opened RedirectHistory

  datatype Entry = Entry(endpoint: Endpoint, inserted: nat, seqNo: nat)

  /** The map stores the hint, under a sequence number already handed out. */
  predicate Stores(entries: map<string, Entry>, h: Hint, seqNo: nat)
  {
    && h.device in entries
    && entries[h.device].endpoint == h.endpoint
    && entries[h.device].inserted == h.inserted
    && entries[h.device].seqNo <= seqNo
  }

  /** Sequence numbers rise along the list. */
  predicate Rising(entries: map<string, Entry>, list: seq<Hint>)
  {
    forall p, q :: 0 <= p < q < |list| ==> SeqNoOf(entries, list[p].device) < SeqNoOf(entries, list[q].device)
  }

  /** The map holds exactly the hints of the list, and sequence numbers rise along it. */
  ghost predicate Represents(entries: map<string, Entry>, list: seq<Hint>, seqNo: nat)
  {
    && Distinct(list)
    && entries.Keys == Devices(list)
    && (forall h :: h in list ==> Stores(entries, h, seqNo))
    && Rising(entries, list)
  }

  function SeqNoOf(entries: map<string, Entry>, d: string): nat
  {
    if d in entries then entries[d].seqNo else 0
  }

  lemma SizeIsLength(entries: map<string, Entry>, list: seq<Hint>, seqNo: nat)
    requires Represents(entries, list, seqNo)
    ensures |entries| == |list|
  {
    DistinctCount(list);
    assert |entries| == |entries.Keys|;
  }

  lemma FoundEntry(entries: map<string, Entry>, list: seq<Hint>, seqNo: nat, d: string)
    requires Represents(entries, list, seqNo)
    ensures d in entries <==> Find(list, d).Some?
    ensures d in entries ==> Find(list, d).value == Hint(d, entries[d].endpoint, entries[d].inserted)
  {
    if Find(list, d).Some? {
      assert Find(list, d).value in list;
    }
  }

  /** Removing a key removes its hint and keeps the order of the others. */
  lemma RemoveRepresents(entries: map<string, Entry>, list: seq<Hint>, seqNo: nat, d: string)
    requires Represents(entries, list, seqNo)
    ensures Represents(entries - {d}, Without(list, d), seqNo)
  {
    hide Distinct, Devices, Rising;
    WithoutKeepsDistinct(list, d);
    DevicesWithout(list, d);
    WithoutKeepsRising(entries, list, d);
    SameRising(entries, entries - {d}, Without(list, d));
  }

  lemma {:induction false} WithoutKeepsRising(entries: map<string, Entry>, list: seq<Hint>, d: string)
    requires Rising(entries, list)
    ensures Rising(entries, Without(list, d))
  {
    if list != [] {
      var rest := Without(list[1..], d);
      WithoutKeepsRising(entries, list[1..], d);
      forall p | 0 <= p < |rest| ensures SeqNoOf(entries, list[0].device) < SeqNoOf(entries, rest[p].device) {
        var q := TailMember(list, d, p);
      }
      RisingFromHead(entries, list[0], rest);
    }
  }

  lemma RisingFromHead(entries: map<string, Entry>, h: Hint, list: seq<Hint>)
    requires Rising(entries, list)
    requires forall p :: 0 <= p < |list| ==> SeqNoOf(entries, h.device) < SeqNoOf(entries, list[p].device)
    ensures Rising(entries, [h] + list)
  {
  }

  lemma RisingToEnd(entries: map<string, Entry>, list: seq<Hint>, h: Hint)
    requires Rising(entries, list)
    requires forall x :: x in list ==> SeqNoOf(entries, x.device) < SeqNoOf(entries, h.device)
    ensures Rising(entries, list + [h])
  {
    forall p | 0 <= p < |list| ensures SeqNoOf(entries, list[p].device) < SeqNoOf(entries, h.device) {
      assert list[p] in list;
    }
  }

  lemma SameRising(a: map<string, Entry>, b: map<string, Entry>, list: seq<Hint>)
    requires Rising(a, list)
    requires forall h :: h in list ==> SeqNoOf(a, h.device) == SeqNoOf(b, h.device)
    ensures Rising(b, list)
  {
    forall p, q | 0 <= p < q < |list| ensures SeqNoOf(b, list[p].device) < SeqNoOf(b, list[q].device) {
      assert list[p] in list && list[q] in list;
      assert SeqNoOf(a, list[p].device) < SeqNoOf(a, list[q].device);
    }
  }

  /** Storing a device under the next sequence number moves it to the new end of the list. */
  lemma InsertRepresents(entries: map<string, Entry>, list: seq<Hint>, seqNo: nat, h: Hint)
    requires Represents(entries, list, seqNo)
    ensures Represents(entries[h.device := Entry(h.endpoint, h.inserted, seqNo + 1)],
                       Without(list, h.device) + [h], seqNo + 1)
  {
    hide Distinct, Devices, Rising, Without;
    var w := Without(list, h.device);
    var rest := entries - {h.device};
    var all := entries[h.device := Entry(h.endpoint, h.inserted, seqNo + 1)];
    RemoveRepresents(entries, list, seqNo, h.device);
    RoomForOneMore(list, h);
    DevicesOfParts(w, [h]);
    DevicesOfOne(h);
    assert all.Keys == rest.Keys + {h.device};
    forall x | x in w ensures SeqNoOf(all, x.device) == SeqNoOf(rest, x.device) <= seqNo && Stores(all, x, seqNo + 1) {
      assert Stores(rest, x, seqNo);
    }
    SameRising(rest, all, w);
    RisingToEnd(all, w, h);
    assert forall x :: x in w + [h] ==> x in w || x == h;
  }

  lemma DevicesOfOne(h: Hint)
    ensures Devices([h]) == {h.device}
  {
    assert h in [h];
  }

  /** The entry with the least sequence number is the head of the list. */
  lemma LeastIsHead(entries: map<string, Entry>, list: seq<Hint>, seqNo: nat, d: string)
    requires Represents(entries, list, seqNo) && d in entries
    requires forall x :: x in entries ==> SeqNoOf(entries, d) <= SeqNoOf(entries, x)
    ensures list != [] && d == list[0].device
  {
    FoundEntry(entries, list, seqNo, d);
    var h := Find(list, d).value;
    var q :| 0 <= q < |list| && list[q] == h;
    assert list[0] in list;
    assert Stores(entries, list[0], seqNo);
  }

  class RedirectCache {
    var entries: map<string, Entry>
    const ttl: nat
    const maxEntries: nat
    var seqNo: nat
    /** Everything done to the cache so far. */
    ghost var history: seq<Op>

    /** The hints held, oldest put first: a function of the history alone. */
    ghost function Hints(): seq<Hint>
      reads this
    {
      Run(history, maxEntries, ttl)
    }

    ghost predicate Valid()
      reads this
    {
      Represents(entries, Hints(), seqNo)
    }

    constructor (ttl: nat, maxEntries: nat)
      ensures Valid() && history == []
      ensures this.ttl == ttl && this.maxEntries == maxEntries
    {
      entries := map[];
      this.ttl := ttl;
      this.maxEntries := maxEntries;
      seqNo := 0;
      history := [];
    }

    lemma Extended(op: Op)
      ensures Run(history + [op], maxEntries, ttl) == Apply(Hints(), maxEntries, ttl, op)
    {
      assert (history + [op])[..|history|] == history;
    }

    /** An expired entry is removed on the way out. */
    method GetAt(d: string, now: nat) returns (r: Option<Endpoint>)
      requires Valid()
      modifies this`entries, this`history
      ensures Valid() && history == old(history) + [Get(d, now)]
      ensures r == Lookup(old(Hints()), ttl, d, now)
      ensures Monotone(history) ==> (r.Some? <==> StillHinted(old(history), maxEntries, ttl, d, now))
    {
      hide Represents, Run, Monotone, NotAfter, StillHinted, Without, Find;
      Extended(Get(d, now));
      ghost var before := history;
      ghost var list := Hints();
      history := history + [Get(d, now)];
      FoundEntry(entries, list, seqNo, d);
      if Monotone(history) {
        assert Monotone(before) && NotAfter(before, now) by { PrefixMonotone(before, Get(d, now)); }
        HitIff(before, maxEntries, ttl, d, now);
      }
      if d !in entries {
        return None;
      }
      var entry := entries[d];
      if IsExpired(Elapsed(entry.inserted, now), ttl) {
        RemoveRepresents(entries, list, seqNo, d);
        entries := entries - {d};
        return None;
      }
      r := Some(entry.endpoint);
    }

    /** The key with the least sequence number, in whatever order the map is walked. */
    method OldestDevice() returns (d: string)
      requires Valid() && entries != map[]
      ensures Hints() != [] && d == Hints()[0].device
    {
      hide Represents, Run;
      d :| d in entries;
      var rest := entries.Keys - {d};
      while rest != {}
        invariant d in entries && rest <= entries.Keys
        invariant forall x :: x in entries && x !in rest ==> SeqNoOf(entries, d) <= SeqNoOf(entries, x)
        decreases |rest|
      {
        var x :| x in rest;
        if entries[x].seqNo < entries[d].seqNo {
          d := x;
        }
        rest := rest - {x};
      }
      LeastIsHead(entries, Hints(), seqNo, d);
    }

    /** A full cache makes room for a new device by dropping the oldest put. */
    method Put(d: string, endpoint: Endpoint, now: nat)
      requires Valid()
      modifies this
      ensures Valid() && history == old(history) + [Op.Put(d, endpoint, now)]
      ensures Hints() == PutHint(old(Hints()), maxEntries, Hint(d, endpoint, now))
    {
      hide Represents, Run, Distinct, Without;
      ghost var list, h := Hints(), Hint(d, endpoint, now);
      Extended(Op.Put(d, endpoint, now));
      if maxEntries == 0 {
        history := history + [Op.Put(d, endpoint, now)];
        return;
      }
      ghost var kept := MakesRoom(entries, list, seqNo, maxEntries, h);
      if |entries| >= maxEntries && d !in entries {
        var oldest := OldestDevice();
        RemoveRepresents(entries, list, seqNo, oldest);
        entries := entries - {oldest};
      }
      InsertRepresents(entries, kept, seqNo, h);
      seqNo := seqNo + 1;
      entries := entries[d := Entry(endpoint, now, seqNo)];
      history := history + [Op.Put(d, endpoint, now)];
    }

    method Clear()
      requires Valid()
      modifies this`entries, this`history
      ensures Valid() && Hints() == [] && history == old(history) + [Op.Clear]
    {
      Extended(Op.Clear);
      entries := map[];
      history := history + [Op.Clear];
    }

    /** Never more hints than the capacity. */
    method Size() returns (n: nat)
      requires Valid()
      ensures n == |Hints()| <= maxEntries
    {
      SizeIsLength(entries, Hints(), seqNo);
      n := |entries|;
    }
  }

  /** Which list a put appends to: the head goes first when a new device meets a full cache. */
  lemma MakesRoom(entries: map<string, Entry>, list: seq<Hint>, seqNo: nat, cap: nat, h: Hint) returns (kept: seq<Hint>)
    requires cap > 0 && |list| <= cap && Represents(entries, list, seqNo)
    ensures PutHint(list, cap, h) == Without(kept, h.device) + [h]
    ensures if |entries| >= cap && h.device !in entries then list != [] && kept == Without(list, list[0].device)
        else kept == list
  {
    hide Stores, Rising;
    SizeIsLength(entries, list, seqNo);
    PutOnList(list, cap, h);
    kept := list;
    if h.device in entries {
      RefreshFreesItsSlot(list, h.device);
    } else {
      WithoutAbsent(list, h.device);
      if |entries| >= cap {
        EvictHead(list, h.device, h);
        kept := list[1..];
      }
    }
  }

  lemma PrefixMonotone(ops: seq<Op>, op: Op)
    requires Monotone(ops + [op]) && !op.Clear?
    ensures Monotone(ops) && NotAfter(ops, op.at)
  {
    var all := ops + [op];
    forall i | 0 <= i < |ops| ensures all[i] == ops[i] {}
    assert all[|ops|] == op;
    forall i, j | 0 <= i < j < |ops| && !ops[i].Clear? && !ops[j].Clear? ensures ops[i].at <= ops[j].at {
      assert all[i].at <= all[j].at;
    }
    forall i | 0 <= i < |ops| && !ops[i].Clear? ensures ops[i].at <= op.at {
      assert all[i].at <= all[|ops|].at;
    }
  }

  /** Dropping the oldest of a full list first leaves what truncating afterwards would. */
  lemma EvictHead(list: seq<Hint>, d: string, h: Hint)
    requires list != [] && Distinct(list) && d !in Devices(list)
    ensures Without(list, list[0].device) == list[1..]
    ensures Without(list[1..], d) == list[1..] && Without(list, d) == list
    ensures (Without(list, d) + [h])[1..] == Without(list[1..], d) + [h]
  {
    NotInRest(list);
    WithoutAbsent(list[1..], list[0].device);
    DevicesOfHeadAndTail(list);
    WithoutAbsent(list, d);
    WithoutAbsent(list[1..], d);
  }

  // ---------- Harvesting an insert response ----------

  function NodeEndpoint(s: TSStatus): Option<Endpoint>
  {
    if s.redirectNode.Some? then EndpointFromRedirect(s.redirectNode.value) else None
  }

  /**
   Which endpoint the response recommends for the i-th device of the request: a sub-status list of matching length
   decides alone.
   */
  function Recommended(devices: seq<string>, status: TSStatus, i: nat): Option<Endpoint>
    requires i < |devices|
  {
    if status.subStatus.Present? && |status.subStatus.list| == |devices| then NodeEndpoint(status.subStatus.list[i])
    else NodeEndpoint(status)
  }

  /**
   The node recommended for a device is the one its own sub-status names when there is one sub-status per device, and
   else the one the response names; it counts only with a host and a port from 1 to 65535.
   */
  lemma RecommendedIff(devices: seq<string>, status: TSStatus, i: nat, e: Endpoint)
    requires i < |devices|
    ensures var each := status.subStatus.Present? && |status.subStatus.list| == |devices|;
            var node := if each then status.subStatus.list[i].redirectNode else status.redirectNode;
            Recommended(devices, status, i) == Some(e)
            <==> e.port > 0 && e.host != "" && node == Some(TEndPoint(e.host, e.port))
  {
  }

  /** The puts a response amounts to, in request order. */
  function Harvest(devices: seq<string>, status: TSStatus, times: seq<nat>, n: nat): seq<Op>
    requires n <= |devices| == |times|
  {
    if n == 0 then []
    else
      var e := Recommended(devices, status, n - 1);
      Harvest(devices, status, times, n - 1) + if e.Some? then [Op.Put(devices[n - 1], e.value, times[n - 1])] else []
  }

  lemma HarvestStep(devices: seq<string>, status: TSStatus, times: seq<nat>, i: nat)
    requires i < |devices| == |times|
    ensures var e := Recommended(devices, status, i);
            Harvest(devices, status, times, i + 1)
            == if e.Some? then Harvest(devices, status, times, i) + [Op.Put(devices[i], e.value, times[i])]
                else Harvest(devices, status, times, i)
  {
  }

  /** A history with the first `n` puts of a response added. */
  function WithHarvest(before: seq<Op>, devices: seq<string>, status: TSStatus, times: seq<nat>, n: nat): seq<Op>
    requires n <= |devices| == |times|
  {
    before + Harvest(devices, status, times, n)
  }

  lemma HarvestStarts(before: seq<Op>, devices: seq<string>, status: TSStatus, times: seq<nat>)
    requires |devices| == |times|
    ensures WithHarvest(before, devices, status, times, 0) == before
  {
  }

  lemma HarvestGrows(before: seq<Op>, devices: seq<string>, status: TSStatus, times: seq<nat>, i: nat)
    requires i < |devices| == |times|
    ensures var e := Recommended(devices, status, i);
            WithHarvest(before, devices, status, times, i + 1)
            == WithHarvest(before, devices, status, times, i) + if e.Some? then [Op.Put(devices[i], e.value, times[i])]
                else []
  {
    HarvestStep(devices, status, times, i);
  }

  /** `times[i]` is the clock reading at the i-th put. */
  method RecordRedirects(cache: RedirectCache, devices: seq<string>, status: TSStatus, times: seq<nat>)
    requires cache.Valid() && |times| == |devices|
    modifies cache
    ensures cache.Valid()
    ensures cache.history == WithHarvest(old(cache.history), devices, status, times, |devices|)
  {
    hide WithHarvest, NodeEndpoint, PutHint, RedirectCache.Valid, RedirectCache.Hints;
    ghost var before := cache.history;
    HarvestStarts(before, devices, status, times);
    if status.subStatus.Present? && |status.subStatus.list| == |devices| {
      for i := 0 to |devices|
        invariant cache.Valid()
        invariant cache.history == WithHarvest(before, devices, status, times, i)
      {
        var e := NodeEndpoint(status.subStatus.list[i]);
        HarvestGrows(before, devices, status, times, i);
        if e.Some? {
          cache.Put(devices[i], e.value, times[i]);
        }
      }
      return;
    }
    var e := NodeEndpoint(status);
    if e.Some? {
      for i := 0 to |devices|
        invariant cache.Valid()
        invariant cache.history == WithHarvest(before, devices, status, times, i)
      {
        HarvestGrows(before, devices, status, times, i);
        cache.Put(devices[i], e.value, times[i]);
      }
    } else {
      NothingToHarvest(before, devices, status, times, |devices|);
    }
  }

  lemma {:induction false} NothingToHarvest(before: seq<Op>, devices: seq<string>, status: TSStatus, times: seq<nat>,
        n: nat)
    requires n <= |devices| == |times|
    requires !(status.subStatus.Present? && |status.subStatus.list| == |devices|) && NodeEndpoint(status) == None
    ensures WithHarvest(before, devices, status, times, n) == before
  {
    if n > 0 {
      NothingToHarvest(before, devices, status, times, n - 1);
    }
  }

  /** After a response over distinct devices, each recommended device's latest put is its own recommendation. */
  lemma {:induction false} HarvestReachesEachDevice(before: seq<Op>, devices: seq<string>, status: TSStatus,
        times: seq<nat>, n: nat, i: nat)
    requires n <= |devices| == |times| && i < n
    requires forall p, q :: 0 <= p < q < |devices| ==> devices[p] != devices[q]
    requires Recommended(devices, status, i).Some?
    ensures var ops := before + Harvest(devices, status, times, n);
            var k := LastPut(ops, devices[i]);
            k.Some? && ops[k.value] == Op.Put(devices[i], Recommended(devices, status, i).value, times[i])
  {
    hide Harvest, Recommended;
    var earlier := Harvest(devices, status, times, n - 1);
    var e := Recommended(devices, status, n - 1);
    HarvestStep(devices, status, times, n - 1);
    if i < n - 1 {
      HarvestReachesEachDevice(before, devices, status, times, n - 1, i);
    }
    if e.Some? {
      LastPutAfterPut(before + earlier, Op.Put(devices[n - 1], e.value, times[n - 1]), devices[i]);
      assert before + Harvest(devices, status, times, n)
          == (before + earlier) + [Op.Put(devices[n - 1], e.value, times[n - 1])];
    }
  }

  lemma LastPutAfterPut(ops: seq<Op>, op: Op, d: string)
    requires op.Put?
    ensures LastPut(ops + [op], d) == if op.device == d then Some(|ops|) else LastPut(ops, d)
  {
    assert (ops + [op])[..|ops|] == ops;
  }
}
