/**
 Redirect hints as a list, oldest put first, and as a history of operations. The list is what
 the map-based cache stores; the history says, without any list, which lookups hit.
 */
module RedirectHistory {
  import opened Wrappers
  import opened Endpoints

  datatype Hint = Hint(device: string, endpoint: Endpoint, inserted: nat)

  /** Exactly `ttl` is still fresh; a zero `ttl` never expires. */
  predicate IsExpired(elapsed: nat, ttl: nat)
  {
    ttl != 0 && elapsed > ttl
  }

  /** A clock reading before the insertion counts as no time at all. */
  function Elapsed(inserted: nat, now: nat): nat
  {
    if inserted <= now then now - inserted else 0
  }

  /** A hint expires strictly after its time to live, counted from its insertion, and never without one. */
  lemma ExpiryIff(inserted: nat, now: nat, ttl: nat)
    ensures IsExpired(Elapsed(inserted, now), ttl) <==> ttl > 0 && now > inserted + ttl
  {
  }

  function Devices(list: seq<Hint>): set<string>
  {
    set h | h in list :: h.device
  }

  function Find(list: seq<Hint>, d: string): (r: Option<Hint>)
    ensures r.Some? ==> r.value in list && r.value.device == d
    ensures r.None? <==> d !in Devices(list)
  {
    if list == [] then None
    else if list[0].device == d then Some(list[0])
    else
      var r := Find(list[1..], d);
      assert r.None? ==> forall h :: h in list ==> h == list[0] || h in list[1..];
      r
  }

  function Without(list: seq<Hint>, d: string): (r: seq<Hint>)
    ensures |r| <= |list|
    ensures forall h :: h in r <==> h in list && h.device != d
  {
    if list == [] then []
    else if list[0].device == d then Without(list[1..], d)
    else [list[0]] + Without(list[1..], d)
  }

  function Newest(list: seq<Hint>, cap: nat): (r: seq<Hint>)
    ensures |r| <= cap
  {
    if |list| > cap then list[|list| - cap..] else list
  }

  // ---------- The three operations on the list ----------

  function PutHint(list: seq<Hint>, cap: nat, h: Hint): (r: seq<Hint>)
    ensures |list| <= cap ==> |r| <= cap
  {
    if cap == 0 then list else Newest(Without(list, h.device) + [h], cap)
  }

  function Lookup(list: seq<Hint>, ttl: nat, d: string, now: nat): Option<Endpoint>
  {
    match Find(list, d)
    case None => None
    case Some(h) => if IsExpired(Elapsed(h.inserted, now), ttl) then None else Some(h.endpoint)
  }

  /** A lookup that finds an expired hint removes it. */
  function AfterLookup(list: seq<Hint>, ttl: nat, d: string, now: nat): (r: seq<Hint>)
    ensures |r| <= |list|
  {
    match Find(list, d)
    case None => list
    case Some(h) => if IsExpired(Elapsed(h.inserted, now), ttl) then Without(list, d) else list
  }

  // ---------- Histories ----------

  datatype Op = Put(device: string, endpoint: Endpoint, at: nat) | Get(device: string, at: nat) | Clear

  function Apply(list: seq<Hint>, cap: nat, ttl: nat, op: Op): seq<Hint>
  {
    match op
    case Put(d, e, t) => PutHint(list, cap, Hint(d, e, t))
    case Get(d, t) => AfterLookup(list, ttl, d, t)
    case Clear => []
  }

  /** The list after a history. */
  function Run(ops: seq<Op>, cap: nat, ttl: nat): (list: seq<Hint>)
    ensures |list| <= cap
  {
    if ops == [] then [] else Apply(Run(ops[..|ops| - 1], cap, ttl), cap, ttl, ops[|ops| - 1])
  }

  /** No operation happened after `now`. */
  predicate NotAfter(ops: seq<Op>, now: nat)
  {
    forall i :: 0 <= i < |ops| && !ops[i].Clear? ==> ops[i].at <= now
  }

  /** The clock never runs backwards. */
  predicate Monotone(ops: seq<Op>)
  {
    forall i, j :: 0 <= i < j < |ops| && !ops[i].Clear? && !ops[j].Clear? ==> ops[i].at <= ops[j].at
  }

  /** The latest put of a device that no clear has undone. */
  function LastPut(ops: seq<Op>, d: string): (r: Option<nat>)
    ensures r.Some? ==> r.value < |ops| && ops[r.value].Put? && ops[r.value].device == d
  {
    if ops == [] then None
    else
      var op := ops[|ops| - 1];
      if op.Clear? then None
      else if op.Put? && op.device == d then Some(|ops| - 1)
      else LastPut(ops[..|ops| - 1], d)
  }

  /** The devices put after position `i`. */
  function PutAfter(ops: seq<Op>, i: nat): set<string>
  {
    set k | i < k < |ops| && ops[k].Put? :: ops[k].device
  }

  /** A hint that is still remembered: put, not expired, and pushed out by fewer than `cap` other devices since. */
  predicate StillHinted(ops: seq<Op>, cap: nat, ttl: nat, d: string, now: nat)
  {
    var i := LastPut(ops, d);
    i.Some? && !IsExpired(Elapsed(ops[i.value].at, now), ttl) && |PutAfter(ops, i.value)| < cap
  }

  // ---------- Lists without repetition ----------

  predicate Distinct(list: seq<Hint>)
  {
    forall p, q :: 0 <= p < q < |list| ==> list[p].device != list[q].device
  }

  predicate ByTime(list: seq<Hint>)
  {
    forall p, q :: 0 <= p < q < |list| ==> list[p].inserted <= list[q].inserted
  }

  lemma TailMember(list: seq<Hint>, d: string, p: nat) returns (q: nat)
    requires list != [] && p < |Without(list[1..], d)|
    ensures 0 < q < |list| && list[q] == Without(list[1..], d)[p]
  {
    var h := Without(list[1..], d)[p];
    assert h in Without(list[1..], d);
    var i :| 0 <= i < |list[1..]| && list[1..][i] == h;
    q := i + 1;
  }

  lemma {:induction false} WithoutKeepsDistinct(list: seq<Hint>, d: string)
    requires Distinct(list)
    ensures Distinct(Without(list, d))
  {
    if list != [] {
      WithoutKeepsDistinct(list[1..], d);
      forall p | 0 <= p < |Without(list[1..], d)| ensures list[0].device != Without(list[1..], d)[p].device {
        var q := TailMember(list, d, p);
      }
    }
  }

  lemma {:induction false} WithoutKeepsTime(list: seq<Hint>, d: string)
    requires ByTime(list)
    ensures ByTime(Without(list, d))
  {
    if list != [] {
      WithoutKeepsTime(list[1..], d);
      forall p | 0 <= p < |Without(list[1..], d)| ensures list[0].inserted <= Without(list[1..], d)[p].inserted {
        var q := TailMember(list, d, p);
      }
    }
  }

  lemma WithoutKeepsOrder(list: seq<Hint>, d: string)
    requires Distinct(list) && ByTime(list)
    ensures Distinct(Without(list, d)) && ByTime(Without(list, d))
  {
    WithoutKeepsDistinct(list, d);
    WithoutKeepsTime(list, d);
  }

  lemma {:induction false} WithoutAbsent(list: seq<Hint>, d: string)
    requires d !in Devices(list)
    ensures Without(list, d) == list
  {
    if list != [] {
      assert list[0] in list;
      assert forall h :: h in list[1..] ==> h in list;
      WithoutAbsent(list[1..], d);
    }
  }

  /** The devices behind the one asked for. */
  function Behind(list: seq<Hint>, d: string): set<string>
  {
    if list == [] then {}
    else if list[0].device == d then Devices(list[1..])
    else Behind(list[1..], d)
  }

  lemma DevicesOfParts(a: seq<Hint>, b: seq<Hint>)
    ensures Devices(a + b) == Devices(a) + Devices(b)
  {
    assert forall h :: h in a + b <==> h in a || h in b;
  }

  lemma DevicesOfHeadAndTail(list: seq<Hint>)
    requires list != []
    ensures Devices(list) == {list[0].device} + Devices(list[1..])
  {
    assert list == [list[0]] + list[1..];
    DevicesOfParts([list[0]], list[1..]);
    assert Devices([list[0]]) == {list[0].device};
  }

  lemma DevicesWithout(list: seq<Hint>, d: string)
    ensures Devices(Without(list, d)) == Devices(list) - {d}
  {
  }

  lemma NotInRest(list: seq<Hint>)
    requires list != [] && Distinct(list)
    ensures list[0].device !in Devices(list[1..])
  {
    forall h | h in list[1..] ensures h.device != list[0].device {
      var q :| 0 <= q < |list[1..]| && list[1..][q] == h;
      assert list[q + 1] == h;
    }
  }

  lemma {:induction false} DistinctCount(list: seq<Hint>)
    requires Distinct(list)
    ensures |Devices(list)| == |list|
  {
    if list != [] {
      DistinctCount(list[1..]);
      DevicesOfHeadAndTail(list);
      NotInRest(list);
    }
  }

  lemma {:induction false} BehindAppend(list: seq<Hint>, h: Hint, d: string)
    requires d in Devices(list)
    ensures Behind(list + [h], d) == Behind(list, d) + {h.device}
  {
    DevicesOfHeadAndTail(list);
    assert (list + [h])[1..] == list[1..] + [h];
    if list[0].device == d {
      DevicesOfParts(list[1..], [h]);
      assert Devices([h]) == {h.device};
    } else {
      BehindAppend(list[1..], h, d);
    }
  }

  lemma {:induction false} BehindNewcomer(list: seq<Hint>, h: Hint)
    requires h.device !in Devices(list)
    ensures Behind(list + [h], h.device) == {}
  {
    if list == [] {
      assert list + [h] == [h];
    } else {
      DevicesOfHeadAndTail(list);
      assert (list + [h])[1..] == list[1..] + [h];
      BehindNewcomer(list[1..], h);
    }
  }

  lemma {:induction false} BehindWithout(list: seq<Hint>, d: string, x: string)
    requires d != x && Distinct(list)
    ensures Behind(Without(list, x), d) == Behind(list, d) - {x}
  {
    if list != [] {
      DevicesOfHeadAndTail(list);
      if list[0].device == d {
        DevicesWithout(list[1..], x);
        assert Without(list, x)[1..] == Without(list[1..], x);
      } else {
        BehindWithout(list[1..], d, x);
        if list[0].device != x {
          assert Without(list, x)[1..] == Without(list[1..], x);
        }
      }
    }
  }

  lemma BehindHeadRemoved(list: seq<Hint>, d: string)
    requires list != [] && list[0].device != d
    ensures Behind(list[1..], d) == Behind(list, d)
  {
  }

  lemma {:induction false} BehindIsLater(list: seq<Hint>, d: string, x: string)
    requires Distinct(list) && ByTime(list) && x in Behind(list, d)
    ensures Find(list, d).Some? && Find(list, x).Some?
    ensures Find(list, d).value.inserted <= Find(list, x).value.inserted
  {
    DevicesOfHeadAndTail(list);
    if list[0].device == d {
      var h := Find(list[1..], x).value;
      var q :| 0 <= q < |list[1..]| && list[1..][q] == h;
      assert list[q + 1] == h;
      assert list[0].device != x;
    } else {
      BehindIsLater(list[1..], d, x);
      NotInRest(list);
    }
  }

  // ---------- The list after a history ----------

  lemma RoomForOneMore(list: seq<Hint>, h: Hint)
    requires Distinct(list)
    ensures Distinct(Without(list, h.device) + [h])
  {
    var w := Without(list, h.device);
    WithoutKeepsDistinct(list, h.device);
    forall p | 0 <= p < |w| ensures w[p].device != h.device {
      assert w[p] in w;
    }
  }

  lemma RefreshFreesItsSlot(list: seq<Hint>, d: string)
    requires Distinct(list) && d in Devices(list)
    ensures |Without(list, d)| < |list|
  {
    WithoutKeepsDistinct(list, d);
    DevicesWithout(list, d);
    DistinctCount(list);
    DistinctCount(Without(list, d));
  }

  lemma PutOnList(list: seq<Hint>, cap: nat, h: Hint)
    requires cap > 0 && |list| <= cap && Distinct(list)
    ensures var w := Without(list, h.device) + [h];
            && Distinct(w) && |w| <= cap + 1
            && PutHint(list, cap, h) == if |w| > cap then w[1..] else w
  {
    RoomForOneMore(list, h);
  }

  /** Every remembered hint is the latest put of its device; the list has no repetition and is ordered by time. */
  ghost predicate Faithful(ops: seq<Op>, list: seq<Hint>)
  {
    && Distinct(list)
    && ByTime(list)
    && forall h :: h in list ==> Recalls(ops, h)
  }

  lemma {:induction false} RunIsFaithful(ops: seq<Op>, cap: nat, ttl: nat)
    requires Monotone(ops)
    ensures Faithful(ops, Run(ops, cap, ttl))
  {
    hide Recalls, Distinct, ByTime, Faithful, PutHint, AfterLookup;
    if ops == [] {
      NothingIsFaithful(ops);
    } else {
      var before, op := ops[..|ops| - 1], ops[|ops| - 1];
      assert before + [op] == ops;
      RunIsFaithful(before, cap, ttl);
      var list := Run(before, cap, ttl);
      match op
      case Clear =>
        NothingIsFaithful(ops);
      case Get(d, t) =>
        GetKeepsFaithful(before, list, ttl, op);
      case Put(d, e, t) =>
        if cap > 0 {
          PutKeepsFaithful(before, list, cap, op);
        } else {
          NothingIsFaithful(ops);
          NothingPut(list, Hint(d, e, t));
        }
    }
  }

  /** The hint is the latest put of its device. */
  ghost predicate Recalls(ops: seq<Op>, h: Hint)
  {
    var i := LastPut(ops, h.device); i.Some? && h == Hint(h.device, ops[i.value].endpoint, ops[i.value].at)
  }

  lemma OtherPutsKeepRecall(ops: seq<Op>, h: Hint, op: Op)
    requires Recalls(ops, h) && op.Put? && op.device != h.device
    ensures Recalls(ops + [op], h)
  {
    assert (ops + [op])[..|ops|] == ops;
  }

  lemma PutIsRecalled(ops: seq<Op>, op: Op)
    requires op.Put?
    ensures Recalls(ops + [op], Hint(op.device, op.endpoint, op.at))
  {
    assert (ops + [op])[|ops|] == op;
  }

  lemma RecalledInPast(ops: seq<Op>, h: Hint, op: Op)
    requires Recalls(ops, h) && op.Put? && Monotone(ops + [op])
    ensures h.inserted <= op.at
  {
    var i := LastPut(ops, h.device).value;
    assert (ops + [op])[i] == ops[i] && (ops + [op])[|ops|] == op;
  }

  lemma AppendKeepsTime(list: seq<Hint>, h: Hint)
    requires ByTime(list) && forall x :: x in list ==> x.inserted <= h.inserted
    ensures ByTime(list + [h])
  {
    forall p | 0 <= p < |list| ensures list[p].inserted <= h.inserted {
      assert list[p] in list;
    }
  }

  lemma LongListStaysFaithful(ops: seq<Op>, list: seq<Hint>, op: Op)
    requires op.Put? && Faithful(ops, list) && Monotone(ops + [op])
    ensures Faithful(ops + [op], Without(list, op.device) + [Hint(op.device, op.endpoint, op.at)])
  {
    hide Recalls, Monotone, ByTime, Distinct;
    var h := Hint(op.device, op.endpoint, op.at);
    var w := Without(list, op.device);
    RoomForOneMore(list, h);
    WithoutKeepsTime(list, op.device);
    PutIsRecalled(ops, op);
    forall x | x in w ensures x.inserted <= op.at && Recalls(ops + [op], x) {
      OtherPutsKeepRecall(ops, x, op);
      RecalledInPast(ops, x, op);
    }
    AppendKeepsTime(w, h);
    assert forall x :: x in w + [h] ==> x in w || x == h;
  }

  lemma TailStaysFaithful(ops: seq<Op>, list: seq<Hint>)
    requires list != [] && Faithful(ops, list)
    ensures Faithful(ops, list[1..])
  {
    hide Recalls;
    assert forall x :: x in list[1..] ==> x in list;
  }

  lemma NothingIsFaithful(ops: seq<Op>)
    ensures Faithful(ops, [])
  {
  }

  lemma NothingPut(list: seq<Hint>, h: Hint)
    requires |list| <= 0
    ensures PutHint(list, 0, h) == []
  {
  }

  lemma GetKeepsFaithful(ops: seq<Op>, list: seq<Hint>, ttl: nat, op: Op)
    requires op.Get? && Faithful(ops, list)
    ensures Faithful(ops + [op], AfterLookup(list, ttl, op.device, op.at))
  {
    hide Distinct, ByTime;
    WithoutKeepsOrder(list, op.device);
    forall h | h in list ensures Recalls(ops + [op], h) {
      assert Recalls(ops, h);
      assert (ops + [op])[..|ops|] == ops;
    }
  }

  lemma PutKeepsFaithful(ops: seq<Op>, list: seq<Hint>, cap: nat, op: Op)
    requires op.Put? && cap > 0 && |list| <= cap && Faithful(ops, list) && Monotone(ops + [op])
    ensures Faithful(ops + [op], PutHint(list, cap, Hint(op.device, op.endpoint, op.at)))
  {
    var h := Hint(op.device, op.endpoint, op.at);
    PutOnList(list, cap, h);
    LongListStaysFaithful(ops, list, op);
    hide Faithful, Without;
    TailStaysFaithful(ops + [op], Without(list, op.device) + [h]);
  }

  /**
   A fresh remembered hint has behind it exactly the devices put since, and a fresh one is only forgotten by `cap` later
   devices.
   */
  ghost predicate Window(ops: seq<Op>, list: seq<Hint>, cap: nat, d: string)
    requires LastPut(ops, d).Some?
  {
    var after := PutAfter(ops, LastPut(ops, d).value);
    && (d in Devices(list) ==> Behind(list, d) == after)
    && (d !in Devices(list) ==> |after| >= cap)
  }

  predicate FreshAt(ops: seq<Op>, ttl: nat, d: string, now: nat)
  {
    LastPut(ops, d).Some? && !IsExpired(Elapsed(ops[LastPut(ops, d).value].at, now), ttl)
  }

  lemma PutAfterGrows(ops: seq<Op>, op: Op, i: nat)
    requires i < |ops|
    ensures PutAfter(ops + [op], i) == PutAfter(ops, i) + if op.Put? then {op.device} else {}
  {
    var all := ops + [op];
    forall d | d in PutAfter(ops, i) ensures d in PutAfter(all, i) {
      var k :| i < k < |ops| && ops[k].Put? && ops[k].device == d;
      assert all[k].Put? && all[k].device == d;
    }
    if op.Put? {
      assert all[|ops|].Put? && all[|ops|].device == op.device;
    }
    forall d | d in PutAfter(all, i) && (!op.Put? || d != op.device) ensures d in PutAfter(ops, i) {
      var k :| i < k < |all| && all[k].Put? && all[k].device == d;
      assert ops[k].Put? && ops[k].device == d;
    }
  }

  lemma {:induction false} FreshWindow(ops: seq<Op>, cap: nat, ttl: nat, d: string, now: nat)
    requires Monotone(ops) && NotAfter(ops, now)
    requires FreshAt(ops, ttl, d, now)
    ensures Window(ops, Run(ops, cap, ttl), cap, d)
  {
    var before, op := ops[..|ops| - 1], ops[|ops| - 1];
    var list := Run(before, cap, ttl);
    assert before + [op] == ops;
    RunIsFaithful(before, cap, ttl);
    match op
    case Clear =>
    case Put(x, e, t) =>
      if x != d {
        FreshWindow(before, cap, ttl, d, now);
        PutAfterGrows(before, op, LastPut(before, d).value);
        WindowAfterPut(before, list, cap, d, op);
      } else {
        WindowOfNewcomer(list, cap, Hint(x, e, t));
        assert PutAfter(ops, |ops| - 1) == {};
      }
    case Get(x, t) =>
      FreshWindow(before, cap, ttl, d, now);
      PutAfterGrows(before, op, LastPut(before, d).value);
      WindowAfterGet(before, list, cap, ttl, d, op, now);
  }

  lemma WindowOfNewcomer(list: seq<Hint>, cap: nat, h: Hint)
    requires |list| <= cap && Distinct(list)
    ensures cap > 0 ==> h.device in Devices(PutHint(list, cap, h)) && Behind(PutHint(list, cap, h), h.device) == {}
    ensures cap == 0 ==> PutHint(list, cap, h) == []
  {
    if cap > 0 {
      PutOnList(list, cap, h);
      var w := Without(list, h.device);
      DevicesWithout(list, h.device);
      DevicesOfParts(w, [h]);
      assert h in w + [h];
      BehindNewcomer(w, h);
      if |w + [h]| > cap {
        var r := (w + [h])[1..];
        assert r[|r| - 1] == h && h in r;
        BehindHeadRemoved(w + [h], h.device);
      }
    }
  }

  lemma BehindInLongList(list: seq<Hint>, d: string, h: Hint)
    requires Distinct(list) && d in Devices(list) && h.device != d
    ensures var full := Without(list, h.device) + [h];
            d in Devices(full) && Behind(full, d) == Behind(list, d) + {h.device}
  {
    var w := Without(list, h.device);
    DevicesWithout(list, h.device);
    DevicesOfParts(w, [h]);
    BehindWithout(list, d, h.device);
    BehindAppend(w, h, d);
  }

  lemma BehindWhenHeadLeaves(full: seq<Hint>, d: string)
    requires Distinct(full) && d in Devices(full)
    ensures if d in Devices(full[1..]) then Behind(full[1..], d) == Behind(full, d) else |Behind(full, d)| == |full| - 1
  {
    DevicesOfHeadAndTail(full);
    if full[0].device == d {
      NotInRest(full);
      DistinctCount(full[1..]);
    }
  }

  /** The devices behind a kept hint gain the new one; a hint pushed out has a full cache behind it. */
  lemma BehindAfterPut(list: seq<Hint>, cap: nat, d: string, h: Hint)
    requires cap > 0 && |list| <= cap && Distinct(list) && d in Devices(list) && h.device != d
    ensures var r, after := PutHint(list, cap, h), Behind(list, d) + {h.device};
            if d in Devices(r) then Behind(r, d) == after else |after| >= cap
  {
    PutOnList(list, cap, h);
    hide Devices, Behind, Distinct, Without, PutHint;
    BehindInLongList(list, d, h);
    BehindWhenHeadLeaves(Without(list, h.device) + [h], d);
  }

  lemma StaysForgotten(list: seq<Hint>, cap: nat, d: string, h: Hint)
    requires d !in Devices(list) && h.device != d
    ensures d !in Devices(PutHint(list, cap, h))
  {
    var w := Without(list, h.device) + [h];
    assert forall x :: x in PutHint(list, cap, h) ==> x in list || x in w;
    assert forall x :: x in w ==> x in list || x == h;
  }

  lemma WindowAfterPut(ops: seq<Op>, list: seq<Hint>, cap: nat, d: string, op: Op)
    requires op.Put? && op.device != d && |list| <= cap && Distinct(list)
    requires LastPut(ops, d).Some? && Window(ops, list, cap, d)
    requires LastPut(ops + [op], d) == LastPut(ops, d)
    requires PutAfter(ops + [op], LastPut(ops, d).value) == PutAfter(ops, LastPut(ops, d).value) + {op.device}
    ensures Window(ops + [op], PutHint(list, cap, Hint(op.device, op.endpoint, op.at)), cap, d)
  {
    hide Devices, PutHint, LastPut, PutAfter, Distinct;
    var h := Hint(op.device, op.endpoint, op.at);
    if d in Devices(list) {
      if cap > 0 {
        BehindAfterPut(list, cap, d, h);
      } else {
        NothingRemembered(list, d);
      }
    } else {
      StaysForgotten(list, cap, d, h);
      GrowsInSize(PutAfter(ops, LastPut(ops, d).value), PutAfter(ops + [op], LastPut(ops, d).value), cap);
    }
  }

  lemma NothingRemembered(list: seq<Hint>, d: string)
    requires d in Devices(list)
    ensures |list| > 0
  {
  }

  lemma GrowsInSize(a: set<string>, b: set<string>, cap: nat)
    requires a <= b && |a| >= cap
    ensures |b| >= cap
  {
    assert b == a + (b - a);
  }

  lemma WindowAfterGet(ops: seq<Op>, list: seq<Hint>, cap: nat, ttl: nat, d: string, op: Op, now: nat)
    requires op.Get? && op.at <= now && Faithful(ops, list)
    requires LastPut(ops, d).Some? && FreshAt(ops, ttl, d, now) && Window(ops, list, cap, d)
    requires NotAfter(ops, op.at)
    requires LastPut(ops + [op], d) == LastPut(ops, d)
    requires PutAfter(ops + [op], LastPut(ops, d).value) == PutAfter(ops, LastPut(ops, d).value)
    ensures Window(ops + [op], AfterLookup(list, ttl, op.device, op.at), cap, d)
  {
    var x := op.device;
    var found := Find(list, x);
    if found.Some? && IsExpired(Elapsed(found.value.inserted, op.at), ttl) {
      assert found.value in list;
      assert x != d;
      DevicesWithout(list, x);
      BehindWithout(list, d, x);
      if Find(list, d).Some? {
        assert Find(list, d).value in list;
      }
      if x in Behind(list, d) {
        BehindIsLater(list, d, x);
      }
      assert Behind(Without(list, x), d) == Behind(list, d);
    }
  }

  /**
   Which lookups hit, from the history alone: after any sequence of puts, lookups and clears on a clock
   that never runs backwards, a device is found exactly when its latest put has not expired
   and fewer than `cap` other devices have been put since; and then it is that put's endpoint.
   */
  lemma HitIff(ops: seq<Op>, cap: nat, ttl: nat, d: string, now: nat)
    requires Monotone(ops) && NotAfter(ops, now)
    ensures var r := Lookup(Run(ops, cap, ttl), ttl, d, now);
            && (r.Some? <==> StillHinted(ops, cap, ttl, d, now))
            && (r.Some? ==> r.value == ops[LastPut(ops, d).value].endpoint)
  {
    var list := Run(ops, cap, ttl);
    RunIsFaithful(ops, cap, ttl);
    var found := Find(list, d);
    if found.Some? {
      assert found.value in list;
    }
    if FreshAt(ops, ttl, d, now) {
      FreshWindow(ops, cap, ttl, d, now);
      if found.Some? {
        BehindIsSmaller(list, d);
      }
    }
  }

  lemma {:induction false} BehindIsSmaller(list: seq<Hint>, d: string)
    requires Distinct(list) && d in Devices(list)
    ensures |Behind(list, d)| < |list|
  {
    DevicesOfHeadAndTail(list);
    if list[0].device == d {
      DistinctCount(list[1..]);
    } else {
      BehindIsSmaller(list[1..], d);
    }
  }

  /** Only the oldest put can be pushed out by a put, and only from a full list by a new device. */
  lemma EvictedIsOldest(list: seq<Hint>, cap: nat, h: Hint, gone: Hint)
    requires |list| <= cap && Distinct(list)
    requires gone in list && gone !in PutHint(list, cap, h) && gone.device != h.device
    ensures gone == list[0] && |list| == cap && h.device !in Devices(list)
  {
    var full := Without(list, h.device) + [h];
    assert cap > 0;
    PutOnList(list, cap, h);
    hide PutHint, Without, Devices, Distinct;
    assert gone in full;
    OnlyHeadLost(full, gone);
    if h.device in Devices(list) {
      RefreshFreesItsSlot(list, h.device);
    } else {
      WithoutAbsent(list, h.device);
    }
  }

  lemma OnlyHeadLost(full: seq<Hint>, gone: Hint)
    requires gone in full && gone !in full[1..]
    ensures gone == full[0]
  {
    assert full == [full[0]] + full[1..];
  }

  /**
   A put spares every unexpired hint while an expired one is held: on a clock that never runs backwards, a hint of
   another device that is missing after the put had expired if any hint held before it had.
   */
  lemma EvictionSparesFresh(ops: seq<Op>, cap: nat, ttl: nat, h: Hint, gone: Hint, expired: Hint)
    requires Monotone(ops) && NotAfter(ops, h.inserted)
    requires gone in Run(ops, cap, ttl) && gone.device != h.device
    requires gone !in PutHint(Run(ops, cap, ttl), cap, h)
    requires expired in Run(ops, cap, ttl) && IsExpired(Elapsed(expired.inserted, h.inserted), ttl)
    ensures IsExpired(Elapsed(gone.inserted, h.inserted), ttl)
  {
    hide PutHint;
    RunIsFaithful(ops, cap, ttl);
    var list := Run(ops, cap, ttl);
    EvictedIsOldest(list, cap, h, gone);
    var q :| 0 <= q < |list| && list[q] == expired;
    assert q > 0 ==> list[0].inserted <= list[q].inserted;
  }
}
