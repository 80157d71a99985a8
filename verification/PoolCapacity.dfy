/**
 Freed capacity. The counter also goes down outside the lock, so a notification can fall between a thread's look at the
 counter and its wait; this is the only way a sleeping thread can miss capacity.
 */
module PoolCapacity {
  import opened Wrappers
  import opened PoolMachine
  import opened PoolInvariants
  import opened PoolSafety

  /** The counter changes outside the lock exactly when a discarded or drained session is taken off it. */
  lemma UnlockedChangesAreDiscards(c: Config, s: State, i: nat, a: Action)
    requires Reachable(c, s) && Next(c, s, i, a).Some?
    ensures var t := Next(c, s, i, a).value;
            t.shared.live != s.shared.live && s.shared.lock != Some(i)
            <==> i < |s.agents| && a.Go? && s.agents[i].Discarding? && s.agents[i].count > 0
    ensures Next(c, s, i, a).value.shared.live > s.shared.live ==> s.shared.lock == Some(i)
  {
    ReachableHasInv(c, s);
    hide Reachable, Counted, Exclusive, NobodySleepsThroughARelease, NobodySleepsThroughAClose, RemoveAt;
    if i < |s.agents| {
      assert PcOk(c, s.shared, s.agents[i]);
      assert HoldsLock(s.agents[i]) ==> s.shared.lock == Some(i);
      if s.agents[i].Discarding? {
        assert !HoldsLock(s.agents[i]);
      }
    }
  }

  /** A unit of capacity in use, or a thread on its way to use one or to wake somebody who will. */
  function Claim(pc: Pc): nat
  {
    match pc
    case WantLock(_, woken) => if woken then 1 else 0
    case Sweeping(who, _, _, _) => Bound(who)
    case Subtracting(who, _) => Bound(who)
    case ClosingExpired(who, _) => Bound(who)
    case Popping(_, woken) => if woken then 1 else 0
    case PoppedDead(_, woken) => if woken then 1 else 0
    case CheckingCapacity(_, woken) => if woken then 1 else 0
    case Growing => 1
    case Opening => 1
    case HandingOut(_) => 1
    case Holding(_) => 1
    case WantRelease(_) => 1
    case Discarding(count, _) => count
    case Notifying(_) => 1
    case _ => 0
  }

  predicate SomeoneAboutToWait(agents: seq<Pc>)
  {
    exists j :: 0 <= j < |agents| && agents[j].AtCapacity?
  }

  /** Every unit of capacity is claimed while a thread sleeps or is about to. */
  ghost predicate Claimed(c: Config, s: State)
  {
    !s.shared.closed && (SomeoneWaits(s.agents) || SomeoneAboutToWait(s.agents)) ==> Sum(s.agents, Claim) >= c.maxSize
  }

  /**
   A notification with nobody waiting yet, while capacity is free and a thread that saw a full pool is about to wait.
   */
  predicate Missed(c: Config, s: State, step: Step)
  {
    && step.action.NotifyOne? && step.agent < |s.agents| && s.agents[step.agent].Notifying?
    && !SomeoneWaits(s.agents) && SomeoneAboutToWait(s.agents)
    && s.shared.live < c.maxSize
  }

  /** A run in which no notification is missed that way. */
  predicate NothingMissed(c: Config, s0: State, steps: seq<Step>)
  {
    steps == [] ||
    (NothingMissed(c, s0, steps[..|steps| - 1])
     && var s := Run(c, s0, steps[..|steps| - 1]); s.Some? ==> !Missed(c, s.value, steps[|steps| - 1]))
  }

  lemma {:induction false} SumsCompare(agents: seq<Pc>, a: Pc -> nat, b: Pc -> nat)
    requires forall i :: 0 <= i < |agents| ==> a(agents[i]) <= b(agents[i])
    ensures Sum(agents, a) <= Sum(agents, b)
  {
    if agents != [] {
      SumsCompare(agents[..|agents| - 1], a, b);
    }
  }

  lemma {:induction false} SumsDiffer(agents: seq<Pc>, a: Pc -> nat, b: Pc -> nat) returns (i: nat)
    requires Sum(agents, a) < Sum(agents, b)
    ensures i < |agents| && a(agents[i]) < b(agents[i])
  {
    var n := |agents| - 1;
    if a(agents[n]) < b(agents[n]) {
      i := n;
    } else {
      i := SumsDiffer(agents[..n], a, b);
    }
  }

  lemma LocalClaim(c: Config, i: nat, sh: Shared, pc: Pc, a: Action, sh': Shared, pc': Pc)
    requires LocalStep(c, i, sh, pc, a, sh', pc') && !sh'.closed
    ensures pc'.AtCapacity? ==> pc.CheckingCapacity? && sh.live == c.maxSize && sh.idle == [] && sh' == sh
    ensures pc'.Waiting? ==> pc.AtCapacity?
    ensures !pc'.AtCapacity? ==> Claim(pc') >= Claim(pc)
    ensures !sh.closed
  {
    hide QueueOk, RemoveAt;
  }

  /**
   While a thread looks at a full pool under the lock, every unit is claimed, whatever a thread without a slot turns to.
   */
  lemma FullIsClaimed(c: Config, s: State, holder: nat, i: nat, pc': Pc)
    requires Inv(c, s) && holder < |s.agents| && (s.agents[holder].CheckingCapacity? || s.agents[holder].AtCapacity?)
    requires s.shared.live == c.maxSize && s.shared.idle == []
    requires i < |s.agents| && Slots(s.agents[i]) == 0 == Slots(pc')
    ensures Sum(s.agents[i := pc'], Claim) >= c.maxSize
  {
    hide QueueOk, PcOk, Exclusive, NobodySleepsThroughARelease, NobodySleepsThroughAClose;
    SumUpdate(s.agents, i, pc', Slots);
    var after := s.agents[i := pc'];
    forall j | 0 <= j < |after| ensures Slots(after[j]) <= Claim(after[j]) {
      assert HoldsLock(s.agents[j]) ==> s.shared.lock == Some(j);
      assert HoldsLock(s.agents[holder]) ==> s.shared.lock == Some(holder);
    }
    SumsCompare(after, Slots, Claim);
  }

  /** Who sleeps, or is about to, after a step of thread `i`. */
  lemma SleepersBefore(agents: seq<Pc>, i: nat, pc': Pc)
    requires i < |agents| && !pc'.AtCapacity? && (pc'.Waiting? ==> agents[i].AtCapacity? || agents[i].Waiting?)
    requires SomeoneWaits(agents[i := pc']) || SomeoneAboutToWait(agents[i := pc'])
    ensures SomeoneWaits(agents) || SomeoneAboutToWait(agents)
  {
    var after := agents[i := pc'];
    var j :| 0 <= j < |agents| && (after[j].Waiting? || after[j].AtCapacity?);
    assert agents[j].Waiting? || agents[j].AtCapacity?;
  }

  lemma MoveKeepsClaims(c: Config, s: State, i: nat, a: Action, sh': Shared, pc': Pc)
    requires Inv(c, s) && Claimed(c, s) && i < |s.agents|
    requires Local(c, i, s.shared, s.agents[i], a) == Some((sh', pc'))
    ensures Claimed(c, State(sh', s.agents[i := pc']))
  {
    hide Inv, Local, Claim, SomeoneWaits, SomeoneAboutToWait;
    IsLocalStep(c, s, i, a, sh', pc');
    if !sh'.closed {
      LocalClaim(c, i, s.shared, s.agents[i], a, sh', pc');
      SumUpdate(s.agents, i, pc', Claim);
      if pc'.AtCapacity? {
        FullIsClaimed(c, s, i, i, pc');
      } else if SomeoneWaits(s.agents[i := pc']) || SomeoneAboutToWait(s.agents[i := pc']) {
        SleepersBefore(s.agents, i, pc');
      }
    }
  }

  lemma NotifyKeepsClaims(c: Config, s: State, i: nat, w: nat)
    requires Inv(c, s) && Claimed(c, s) && i < |s.agents| && Notify(s, i, w).Some?
        && !Missed(c, s, Step(i, NotifyOne(w)))
    ensures Claimed(c, Notify(s, i, w).value)
  {
    hide Inv;
    var done := s.agents[i := Done];
    SumUpdate(s.agents, i, Done, Claim);
    if SomeoneWaits(s.agents) {
      SumUpdate(done, w, WantLock(s.agents[w].deadline, true), Claim);
    } else if SomeoneWaits(done) || SomeoneAboutToWait(done) {
      SleepersBefore(s.agents, i, Done);
      var holder :| 0 <= holder < |s.agents| && s.agents[holder].AtCapacity?;
      AboutToWaitSawEmpty(c, s, holder);
      FullIsClaimed(c, s, holder, i, Done);
    }
  }

  lemma AboutToWaitSawEmpty(c: Config, s: State, holder: nat)
    requires Inv(c, s) && holder < |s.agents| && s.agents[holder].AtCapacity?
    ensures s.shared.idle == [] && s.shared.live <= c.maxSize
  {
    assert PcOk(c, s.shared, s.agents[holder]);
  }

  lemma {:induction false} WakingKeepsClaims(agents: seq<Pc>)
    ensures Sum(WakeAll(agents), Claim) >= Sum(agents, Claim)
  {
    if agents != [] {
      var n := |agents| - 1;
      WakingKeepsClaims(agents[..n]);
      assert WakeAll(agents)[..n] == WakeAll(agents[..n]);
    }
  }

  lemma NotifyAllKeepsClaims(c: Config, s: State, i: nat)
    requires Claimed(c, s) && i < |s.agents| && s.agents[i].NotifyingAll?
    ensures Claimed(c, s.(agents := WakeAll(s.agents)[i := Done]))
  {
    var woken := WakeAll(s.agents);
    WakingKeepsClaims(s.agents);
    SumUpdate(woken, i, Done, Claim);
    var after := woken[i := Done];
    if SomeoneWaits(after) || SomeoneAboutToWait(after) {
      var j :| 0 <= j < |after| && (after[j].Waiting? || after[j].AtCapacity?);
      assert s.agents[j].AtCapacity?;
    }
  }

  lemma StartKeepsClaims(c: Config, s: State, pc: Pc)
    requires Claimed(c, s) && !pc.Waiting? && !pc.AtCapacity?
    ensures Claimed(c, s.(agents := s.agents + [pc]))
  {
    SumAppend(s.agents, pc, Claim);
    var all := s.agents + [pc];
    if SomeoneWaits(all) || SomeoneAboutToWait(all) {
      var j :| 0 <= j < |all| && (all[j].Waiting? || all[j].AtCapacity?);
      assert s.agents[j] == all[j];
    }
  }

  lemma NextKeepsClaims(c: Config, s: State, i: nat, a: Action)
    requires Inv(c, s) && Claimed(c, s) && Next(c, s, i, a).Some? && !Missed(c, s, Step(i, a))
    ensures Claimed(c, Next(c, s, i, a).value)
  {
    hide Inv, Claimed, Local, Missed;
    if a.Tick? {
      TickKeepsClaims(c, s, a.elapsed);
    } else if a.StartAcquire? {
      StartKeepsClaims(c, s, WantLock(s.shared.now + c.acquireTimeout, false));
    } else if a.StartAcquireForDevice? {
      StartKeepsClaims(c, s, WantDevice);
    } else if a.StartClose? {
      StartKeepsClaims(c, s, WantClose);
    } else if a.NotifyOne? {
      NotifyKeepsClaims(c, s, i, a.waiter);
    } else if a.Go? && s.agents[i].NotifyingAll? {
      NotifyAllKeepsClaims(c, s, i);
    } else {
      var moved := Local(c, i, s.shared, s.agents[i], a).value;
      MoveKeepsClaims(c, s, i, a, moved.0, moved.1);
    }
  }

  lemma TickKeepsClaims(c: Config, s: State, elapsed: nat)
    requires Claimed(c, s)
    ensures Claimed(c, s.(shared := s.shared.(now := s.shared.now + elapsed)))
  {
  }

  lemma {:induction false} RunsKeepClaims(c: Config, s0: State, steps: seq<Step>)
    requires Init(c, s0) && Run(c, s0, steps).Some? && NothingMissed(c, s0, steps)
    ensures Claimed(c, Run(c, s0, steps).value)
  {
    hide Next, Missed;
    if steps != [] {
      var front, last := steps[..|steps| - 1], steps[|steps| - 1];
      RunsKeepClaims(c, s0, front);
      EveryRunKeepsInv(c, s0, front);
      hide Inv, Claimed;
      NextKeepsClaims(c, Run(c, s0, front).value, last.agent, last.action);
    }
  }

  /**
   Unless a notification was missed, capacity is never free behind a sleeping thread's back: some thread is awake that
   holds none of it yet and will take it or pass the word on.
   */
  lemma FreedCapacityIsClaimed(c: Config, s0: State, steps: seq<Step>) returns (i: nat)
    requires Init(c, s0) && Run(c, s0, steps).Some? && NothingMissed(c, s0, steps)
    requires var s := Run(c, s0, steps).value; !s.shared.closed && SomeoneWaits(s.agents) && s.shared.live < c.maxSize
    ensures var s := Run(c, s0, steps).value;
            i < |s.agents| && Claim(s.agents[i]) > Slots(s.agents[i]) && !s.agents[i].Waiting?
  {
    hide Next, Init, NothingMissed;
    var s := Run(c, s0, steps).value;
    RunsKeepClaims(c, s0, steps);
    EveryRunKeepsInv(c, s0, steps);
    assert Counted(c, s);
    i := SumsDiffer(s.agents, Slots, Claim);
  }

  // ---------- When a thread can be stranded ----------

  /** A thread sleeps beside free capacity, and no thread is awake that would take it or pass the word on. */
  ghost predicate Stranded(c: Config, s: State)
  {
    && !s.shared.closed && SomeoneWaits(s.agents) && s.shared.live < c.maxSize
    && forall i :: 0 <= i < |s.agents| ==> Claim(s.agents[i]) <= Slots(s.agents[i])
  }

  /** Without a timeout no thread ever waits: its deadline has passed when it looks. */
  predicate Due(now: nat, pc: Pc)
  {
    match pc
    case WantLock(deadline, _) => deadline <= now
    case Sweeping(who, _, _, _) => who.Acquirer? ==> who.deadline <= now
    case Subtracting(who, _) => who.Acquirer? ==> who.deadline <= now
    case ClosingExpired(who, _) => who.Acquirer? ==> who.deadline <= now
    case Popping(deadline, _) => deadline <= now
    case PoppedDead(deadline, _) => deadline <= now
    case CheckingCapacity(deadline, _) => deadline <= now
    case AtCapacity(deadline, _) => deadline <= now
    case Waiting(_) => false
    case _ => true
  }

  ghost predicate AllDue(s: State)
  {
    forall i :: 0 <= i < |s.agents| ==> Due(s.shared.now, s.agents[i])
  }

  lemma LocalDue(c: Config, i: nat, sh: Shared, pc: Pc, a: Action, sh': Shared, pc': Pc)
    requires c.acquireTimeout == 0 && Local(c, i, sh, pc, a) == Some((sh', pc')) && Due(sh.now, pc)
    ensures sh'.now == sh.now && Due(sh'.now, pc')
  {
    hide RemoveAt;
  }

  lemma NextKeepsDue(c: Config, s: State, i: nat, a: Action)
    requires c.acquireTimeout == 0 && AllDue(s) && Next(c, s, i, a).Some?
    ensures AllDue(Next(c, s, i, a).value)
  {
    hide Local;
    if !a.Tick? && !a.StartAcquire? && !a.StartAcquireForDevice? && !a.StartClose? && !a.NotifyOne?
      && !(a.Go? && s.agents[i].NotifyingAll?)
    {
      var moved := Local(c, i, s.shared, s.agents[i], a).value;
      LocalDue(c, i, s.shared, s.agents[i], a, moved.0, moved.1);
    }
  }

  lemma {:induction false} RunsKeepDue(c: Config, s0: State, steps: seq<Step>)
    requires c.acquireTimeout == 0 && Init(c, s0) && Run(c, s0, steps).Some?
    ensures AllDue(Run(c, s0, steps).value)
  {
    hide Next, AllDue;
    if steps == [] {
      NobodyIsDue(s0);
    } else {
      var last := steps[|steps| - 1];
      RunsKeepDue(c, s0, steps[..|steps| - 1]);
      NextKeepsDue(c, Run(c, s0, steps[..|steps| - 1]).value, last.agent, last.action);
    }
  }

  lemma NobodyIsDue(s: State)
    requires s.agents == []
    ensures AllDue(s)
  {
  }

  lemma StrandedNeeds(c: Config, s: State)
    requires Reachable(c, s) && Stranded(c, s)
    ensures c.minSize <= c.maxSize && 0 < c.maxSize && 0 < c.acquireTimeout
  {
    hide Next, Inv;
    var s0: State, steps: seq<Step> :| Init(c, s0) && Run(c, s0, steps) == Some(s);
    LiveIsConserved(c, s);
    if c.acquireTimeout == 0 {
      RunsKeepDue(c, s0, steps);
    }
  }

  // ---------- Filling the pool ----------

  /** Idle sessions with consecutive numbers, none of them old. */
  function Ready(first: nat, n: nat): (r: seq<Entry>)
    ensures |r| == n
    ensures forall k :: 0 <= k < n ==> r[k] == Entry(first + k, 0, true)
  {
    seq(n, k requires 0 <= k < n => Entry(first + k, 0, true))
  }

  function Holders(n: nat): (r: seq<Pc>)
    ensures |r| == n
    ensures forall k :: 0 <= k < n ==> r[k] == Holding(k)
  {
    seq(n, k requires 0 <= k < n => Holding(k))
  }

  function Opened(c: Config, n: nat): nat
  {
    if n < c.minSize then c.minSize else n
  }

  /** `n` threads hold a session each, and time has not moved. */
  function Filled(c: Config, n: nat): State
  {
    State(Shared(if n < c.minSize then Ready(n, c.minSize - n) else [], false, 0, Opened(c, n), 0, None, Opened(c, n)),
        Holders(n))
  }

  /** The threads that hold sessions, and one more. */
  function Stage(n: nat, sh: Shared, pc: Pc): State
  {
    State(sh, Holders(n) + [pc])
  }

  /** Nothing in the queue is old enough to be swept. */
  predicate Fresh(sh: Shared)
  {
    sh.now == 0 && sh.lastSweep == 0 && !sh.closed && forall k :: 0 <= k < |sh.idle| ==> sh.idle[k].since == 0
  }

  lemma StageStep(c: Config, n: nat, sh: Shared, pc: Pc, a: Action, sh': Shared, pc': Pc)
    requires Reachable(c, Stage(n, sh, pc))
    requires a.Go? || a.Succeed?
    requires !pc.NotifyingAll? && Local(c, n, sh, pc, a) == Some((sh', pc'))
    ensures Reachable(c, Stage(n, sh', pc'))
  {
    hide Reachable, Local;
    var s := Stage(n, sh, pc);
    assert s.agents[n := pc'] == Stage(n, sh', pc').agents;
    ReachableOnwards(c, s, n, a);
  }

  lemma {:induction false} SweepFindsNothing(c: Config, n: nat, sh: Shared, deadline: nat, at: nat)
    requires Fresh(sh) && sh.lock == Some(n) && at <= |sh.idle|
    requires Reachable(c, Stage(n, sh, Sweeping(Acquirer(deadline, false), at, [], 0)))
    ensures Reachable(c, Stage(n, sh, Popping(deadline, false)))
    decreases |sh.idle| - at
  {
    hide Reachable;
    var pc := Sweeping(Acquirer(deadline, false), at, [], 0);
    if at < |sh.idle| && sh.live > c.minSize {
      StageStep(c, n, sh, pc, Go, sh, Sweeping(Acquirer(deadline, false), at + 1, [], 0));
      SweepFindsNothing(c, n, sh, deadline, at + 1);
    } else {
      StageStep(c, n, sh, pc, Go, sh, Popping(deadline, false));
    }
  }

  /** A thread that gets the lock of a fresh pool comes to the queue, sweep or no sweep. */
  lemma ComesToQueue(c: Config, n: nat, sh: Shared, deadline: nat)
    requires Fresh(sh) && sh.lock == None
    requires Reachable(c, Stage(n, sh, WantLock(deadline, false)))
    ensures Reachable(c, Stage(n, sh.(lock := Some(n)), Popping(deadline, false)))
  {
    hide Reachable;
    var locked := sh.(lock := Some(n));
    if c.sweepInterval == 0 {
      StageStep(c, n, sh, WantLock(deadline, false), Go, locked, Sweeping(Acquirer(deadline, false), 0, [], 0));
      SweepFindsNothing(c, n, locked, deadline, 0);
    } else {
      StageStep(c, n, sh, WantLock(deadline, false), Go, locked, Popping(deadline, false));
    }
  }

  lemma NextThreadComesToQueue(c: Config, n: nat)
    requires Reachable(c, Filled(c, n))
    ensures Reachable(c, Stage(n, Filled(c, n).shared.(lock := Some(n)), Popping(c.acquireTimeout, false)))
  {
    hide Reachable;
    ReachableOnwards(c, Filled(c, n), 0, StartAcquire);
    ComesToQueue(c, n, Filled(c, n).shared, c.acquireTimeout);
  }

  lemma OneMoreHolder(c: Config, n: nat)
    requires n < c.maxSize && Reachable(c, Filled(c, n))
    ensures Reachable(c, Filled(c, n + 1))
  {
    hide Reachable;
    NextThreadComesToQueue(c, n);
    var sh := Filled(c, n).shared;
    var locked := sh.(lock := Some(n));
    var timeout := c.acquireTimeout;
    var after := Filled(c, n + 1).shared;
    if n < c.minSize {
      assert sh.idle[1..] == after.idle;
      StageStep(c, n, locked, Popping(timeout, false), Go, after, HandingOut(n));
    } else {
      StageStep(c, n, locked, Popping(timeout, false), Go, locked, CheckingCapacity(timeout, false));
      StageStep(c, n, locked, CheckingCapacity(timeout, false), Go, locked, Growing);
      StageStep(c, n, locked, Growing, Go, sh.(live := n + 1), Opening);
      StageStep(c, n, sh.(live := n + 1), Opening, Succeed, after, HandingOut(n));
    }
    StageStep(c, n, after, HandingOut(n), Succeed, after, Holding(n));
    assert Holders(n) + [Holding(n)] == Holders(n + 1);
  }

  lemma {:induction false} PoolFills(c: Config, n: nat)
    requires c.minSize <= c.maxSize && n <= c.maxSize
    ensures Reachable(c, Filled(c, n))
  {
    if n == 0 {
      assert Run(c, Filled(c, 0), []) == Some(Filled(c, 0));
    } else {
      hide Reachable;
      PoolFills(c, n - 1);
      OneMoreHolder(c, n - 1);
    }
  }

  // ---------- The missed notification ----------

  /** A full pool whose first holder and whose newcomer are the only threads to move. */
  function Full(c: Config, live: int, lock: Option<nat>, first: Pc, newcomer: Pc): State
    requires 0 < c.maxSize
  {
    State(Shared([], false, 0, live, 0, lock, c.maxSize), Holders(c.maxSize)[0 := first] + [newcomer])
  }

  lemma FirstMoves(c: Config, live: int, lock: Option<nat>, first: Pc, newcomer: Pc, a: Action, live': int, first': Pc)
    requires 0 < c.maxSize && Reachable(c, Full(c, live, lock, first, newcomer))
    requires (a.Go? || a.DropGuard?) && !first.NotifyingAll?
    requires Local(c, 0, Full(c, live, lock, first, newcomer).shared, first, a)
             == Some((Full(c, live', lock, first', newcomer).shared, first'))
    ensures Reachable(c, Full(c, live', lock, first', newcomer))
  {
    hide Reachable, Local;
    var s := Full(c, live, lock, first, newcomer);
    assert s.agents[0 := first'] == Full(c, live', lock, first', newcomer).agents;
    ReachableOnwards(c, s, 0, a);
  }

  /** A newcomer sees the pool full, and has not begun to wait. */
  lemma NewcomerSeesFullPool(c: Config)
    requires c.minSize <= c.maxSize && 0 < c.maxSize
    ensures Reachable(c, Full(c, c.maxSize, Some(c.maxSize), Holding(0), AtCapacity(c.acquireTimeout, c.maxSize)))
  {
    hide Reachable;
    var n, timeout := c.maxSize, c.acquireTimeout;
    PoolFills(c, n);
    NextThreadComesToQueue(c, n);
    var locked := Filled(c, n).shared.(lock := Some(n));
    StageStep(c, n, locked, Popping(timeout, false), Go, locked, CheckingCapacity(timeout, false));
    StageStep(c, n, locked, CheckingCapacity(timeout, false), Go, locked, AtCapacity(timeout, n));
    assert Holders(n)[0 := Holding(0)] == Holders(n);
  }

  lemma NotificationGoesUnheard(c: Config, live: int, lock: Option<nat>, newcomer: Pc)
    requires 0 < c.maxSize && !newcomer.Waiting?
    requires Reachable(c, Full(c, live, lock, Notifying(false), newcomer))
    ensures Reachable(c, Full(c, live, lock, Done, newcomer))
  {
    hide Reachable;
    var s := Full(c, live, lock, Notifying(false), newcomer);
    assert s.agents[0].Notifying?;
    assert !SomeoneWaits(s.agents);
    assert s.agents[0 := Done] == Full(c, live, lock, Done, newcomer).agents;
    ReachableOnwards(c, s, 0, NotifyOne(0));
  }

  lemma NewcomerSleeps(c: Config, live: int)
    requires 0 < c.maxSize && 0 < c.acquireTimeout
    requires Reachable(c, Full(c, live, Some(c.maxSize), Done, AtCapacity(c.acquireTimeout, c.maxSize)))
    ensures Reachable(c, Full(c, live, None, Done, Waiting(c.acquireTimeout)))
  {
    hide Reachable;
    var s := Full(c, live, Some(c.maxSize), Done, AtCapacity(c.acquireTimeout, c.maxSize));
    assert s.agents[c.maxSize := Waiting(c.acquireTimeout)]
        == Full(c, live, None, Done, Waiting(c.acquireTimeout)).agents;
    ReachableOnwards(c, s, c.maxSize, Go);
  }

  /**
   The counter does change while another thread holds the lock, and the notification that goes with it can be lost: a
   session dies, the counter drops and the notification finds nobody, then the thread that saw the pool full goes to
   sleep beside free capacity with no thread awake to tell it.
   */
  lemma FreedCapacityCanBeMissed(c: Config)
    requires c.minSize <= c.maxSize && 0 < c.maxSize && 0 < c.acquireTimeout
    ensures var full := c.maxSize;
            var freed := Full(c, full - 1, Some(full), Notifying(false), AtCapacity(c.acquireTimeout, full));
            Reachable(c, freed) && Missed(c, freed, Step(0, NotifyOne(0)))
    ensures var s := Full(c, c.maxSize - 1, None, Done, Waiting(c.acquireTimeout));
            Reachable(c, s) && Stranded(c, s)
  {
    hide Reachable;
    var n := c.maxSize;
    var newcomer := AtCapacity(c.acquireTimeout, n);
    NewcomerSeesFullPool(c);
    FirstMoves(c, n, Some(n), Holding(0), newcomer, DropGuard(false), n, Discarding(1, false));
    FirstMoves(c, n, Some(n), Discarding(1, false), newcomer, Go, n - 1, Notifying(false));
    var freed := Full(c, n - 1, Some(n), Notifying(false), newcomer);
    assert freed.agents[n].AtCapacity? && freed.agents[0].Notifying?;
    assert !SomeoneWaits(freed.agents);
    NotificationGoesUnheard(c, n - 1, Some(n), newcomer);
    NewcomerSleeps(c, n - 1);
    var s := Full(c, n - 1, None, Done, Waiting(c.acquireTimeout));
    assert s.agents[n].Waiting?;
  }

  /**
   Exactly which pools can leave a thread asleep beside free capacity with nobody coming: those that can hold a session
   at all and let a thread wait.
   */
  lemma StrandingIff(c: Config)
    ensures (exists s :: Reachable(c, s) && Stranded(c, s))
            <==> c.minSize <= c.maxSize && 0 < c.maxSize && 0 < c.acquireTimeout
  {
    hide Reachable, Stranded;
    if exists s :: Reachable(c, s) && Stranded(c, s) {
      var s :| Reachable(c, s) && Stranded(c, s);
      StrandedNeeds(c, s);
    }
    if c.minSize <= c.maxSize && 0 < c.maxSize && 0 < c.acquireTimeout {
      FreedCapacityCanBeMissed(c);
    }
  }
}
