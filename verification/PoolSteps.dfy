/**
 The step machine against the pool's own methods: a thread left alone between two waits for the lock leaves the queue,
 the counter and the sweep time exactly as the lock-held stretch of acquire, release or close does.
 */
module PoolSteps {
  import opened Wrappers
  import opened PoolMachine
  import opened PoolInvariants
  import opened PoolSafety
  import opened Pools

  /** Thread `i` gets there by steps of its own. */
  ghost predicate Reaches(c: Config, i: nat, sh: Shared, pc: Pc, sh': Shared, pc': Pc)
  {
    exists n: nat :: Alone(c, i, sh, pc, n) == Some((sh', pc'))
  }

  lemma {:induction false} AloneInTurn(c: Config, i: nat, sh: Shared, pc: Pc, n: nat, m: nat)
    requires Alone(c, i, sh, pc, n).Some?
    ensures var (sh1, pc1) := Alone(c, i, sh, pc, n).value;
            Alone(c, i, sh, pc, n + m) == Alone(c, i, sh1, pc1, m)
    decreases n
  {
    hide Proceed;
    if n > 0 {
      var (sh1, pc1) := Proceed(c, i, sh, pc).value;
      AloneInTurn(c, i, sh1, pc1, n - 1, m);
    }
  }

  lemma Here(c: Config, i: nat, sh: Shared, pc: Pc)
    ensures Reaches(c, i, sh, pc, sh, pc)
  {
    assert Alone(c, i, sh, pc, 0) == Some((sh, pc));
  }

  lemma OneStep(c: Config, i: nat, sh: Shared, pc: Pc, sh': Shared, pc': Pc)
    requires Proceed(c, i, sh, pc) == Some((sh', pc'))
    ensures Reaches(c, i, sh, pc, sh', pc')
  {
    hide Proceed, Alone;
    OneStepAlone(c, i, sh, pc, sh', pc', 0);
    assert Alone(c, i, sh, pc, 1) == Some((sh', pc'));
  }

  lemma Onwards(c: Config, i: nat, sh: Shared, pc: Pc, sh1: Shared, pc1: Pc, sh2: Shared, pc2: Pc)
    requires Reaches(c, i, sh, pc, sh1, pc1) && Reaches(c, i, sh1, pc1, sh2, pc2)
    ensures Reaches(c, i, sh, pc, sh2, pc2)
  {
    hide Alone;
    var n: nat :| Alone(c, i, sh, pc, n) == Some((sh1, pc1));
    var m: nat :| Alone(c, i, sh1, pc1, m) == Some((sh2, pc2));
    AloneInTurn(c, i, sh, pc, n, m);
    assert Alone(c, i, sh, pc, n + m) == Some((sh2, pc2));
  }

  lemma StepOnwards(c: Config, i: nat, sh: Shared, pc: Pc, sh1: Shared, pc1: Pc, sh2: Shared, pc2: Pc)
    requires Proceed(c, i, sh, pc) == Some((sh1, pc1)) && Reaches(c, i, sh1, pc1, sh2, pc2)
    ensures Reaches(c, i, sh, pc, sh2, pc2)
  {
    hide Proceed, Reaches;
    OneStep(c, i, sh, pc, sh1, pc1);
    Onwards(c, i, sh, pc, sh1, pc1, sh2, pc2);
  }

  // ---------- Sweeping ----------

  /** Where a sweeper goes on once it has swept. */
  function Swept(who: Sweeper, expired: seq<nat>): Pc
  {
    if expired != [] then ClosingExpired(who, expired)
    else match who case Acquirer(deadline, woken) => Popping(deadline, woken) case Releaser => Notifying(true)
  }

  /** The lock is kept only by an acquire that goes on to the queue. */
  function LockAfter(i: nat, who: Sweeper, expired: seq<nat>): Option<nat>
  {
    if expired == [] && who.Acquirer? then Some(i) else None
  }

  lemma SweepThenSubtract(c: Config, i: nat, sh: Shared, who: Sweeper)
    requires ByAge(sh.idle) && |sh.idle| <= sh.live && sh.lock == Some(i)
    ensures var k := Expirable(c, sh.idle, sh.live, sh.now);
            var expired := Numbers(sh.idle[..k]);
            Reaches(c, i, sh, Sweeping(who, 0, [], sh.now),
                    sh.(idle := sh.idle[k..], live := sh.live - k, lock := LockAfter(i, who, expired)),
                        Swept(who, expired))
  {
    hide Reaches, Alone, Expirable, ByAge, Proceed;
    var k := Expirable(c, sh.idle, sh.live, sh.now);
    var expired := Numbers(sh.idle[..k]);
    var n := SweepAlone(c, i, sh, who);
    var (sh1, pc1) := SweepResult(c, i, sh, who, sh.now);
    assert Reaches(c, i, sh, Sweeping(who, 0, [], sh.now), sh1,
        pc1) by { AloneReaches(c, i, sh, Sweeping(who, 0, [], sh.now), n); }
    if k == 0 {
      NothingExpired(sh.idle);
    } else {
      var done := sh1.(live := sh.live - k, lock := None);
      Subtracts(c, i, sh1, who, expired);
      OneStep(c, i, sh1, pc1, done, ClosingExpired(who, expired));
      Onwards(c, i, sh, Sweeping(who, 0, [], sh.now), sh1, pc1, done, ClosingExpired(who, expired));
    }
  }

  lemma AloneReaches(c: Config, i: nat, sh: Shared, pc: Pc, n: nat)
    requires Alone(c, i, sh, pc, n).Some?
    ensures Reaches(c, i, sh, pc, Alone(c, i, sh, pc, n).value.0, Alone(c, i, sh, pc, n).value.1)
  {
    hide Alone;
    assert Alone(c, i, sh, pc, n) == Some((Alone(c, i, sh, pc, n).value.0, Alone(c, i, sh, pc, n).value.1));
  }

  lemma Subtracts(c: Config, i: nat, sh: Shared, who: Sweeper, expired: seq<nat>)
    ensures Proceed(c, i, sh, Subtracting(who, expired))
            == Some((sh.(live := sh.live - |expired|, lock := None), ClosingExpired(who, expired)))
  {
  }

  /** From the gate of the sweep to whatever follows it. */
  lemma SweepsThrough(c: Config, i: nat, sh: Shared, who: Sweeper)
    requires ByAge(sh.idle) && |sh.idle| <= sh.live
    ensures var (sh1, pc1) := EnterSweep(c, i, sh, who);
            var (swept, expired) := AfterSweeping(c, sh);
            Reaches(c, i, sh1, pc1, swept.(lock := LockAfter(i, who, expired)), Swept(who, expired))
  {
    hide Reaches, Alone, Expirable, ByAge;
    var (sh1, pc1) := EnterSweep(c, i, sh, who);
    if sh.now - sh.lastSweep < c.sweepInterval {
      NothingExpired(sh.idle);
      Here(c, i, sh1, pc1);
    } else {
      SweepThenSubtract(c, i, sh1, who);
    }
  }

  // ---------- Release ----------

  /**
   A live session that comes back to an open pool goes behind all others, and nothing else changes before the sweep.
   */
  lemma ReturnedSessionIsQueued(c: Config, s: State, i: nat)
    requires Reachable(c, s) && i < |s.agents| && s.agents[i].WantRelease? && s.shared.lock == None && !s.shared.closed
    ensures Next(c, s, i, Go).Some?
    ensures var t := Next(c, s, i, Go).value.shared;
            && t.idle == s.shared.idle + [Entry(s.agents[i].session, s.shared.now, true)]
            && t.live == s.shared.live && !t.closed
  {
  }

  /** What release does with a live session: alone, a thread ends where `SessionPool.Return` does. */
  lemma ReleaseAlone(c: Config, i: nat, sh: Shared, session: nat)
    requires sh.lock == None && !sh.closed && ByAge(sh.idle) && |sh.idle| < sh.live
    requires forall k :: 0 <= k < |sh.idle| ==> sh.idle[k].since <= sh.now
    ensures var (after, expired) := Returned(c, sh, session);
            Reaches(c, i, sh, WantRelease(session), after, Swept(Releaser, expired))
  {
    hide Reaches, Alone, Expirable, ByAge, EnterSweep;
    var pushed := sh.(idle := sh.idle + [Entry(session, sh.now, true)]);
    PushedByAge(sh.idle, Entry(session, sh.now, true));
    SweepsThrough(c, i, pushed, Releaser);
    var (sh1, pc1) := EnterSweep(c, i, pushed, Releaser);
    var (after, expired) := Returned(c, sh, session);
    StepOnwards(c, i, sh, WantRelease(session), sh1, pc1, after, Swept(Releaser, expired));
  }

  lemma PushedByAge(idle: seq<Entry>, e: Entry)
    requires ByAge(idle) && forall k :: 0 <= k < |idle| ==> idle[k].since <= e.since
    ensures ByAge(idle + [e])
  {
  }

  /** In a closed pool the session is only counted off, the queue untouched. */
  lemma ReleaseAloneWhenClosed(c: Config, i: nat, sh: Shared, session: nat)
    requires sh.lock == None && sh.closed
    ensures Reaches(c, i, sh, WantRelease(session), sh.(live := sh.live - 1), Notifying(false))
  {
    hide Reaches, Alone;
    OneStep(c, i, sh, Discarding(1, false), sh.(live := sh.live - 1), Notifying(false));
    StepOnwards(c, i, sh, WantRelease(session), sh, Discarding(1, false), sh.(live := sh.live - 1), Notifying(false));
  }

  // ---------- Acquire ----------

  /** Where a turn leaves a thread that acquires. */
  function TurnPc(turn: Turn, deadline: nat, woken: bool, live: int): Pc
  {
    match turn
    case Closed => Done
    case Again(expired) => ClosingExpired(Acquirer(deadline, woken), expired)
    case Take(session) => HandingOut(session)
    case Grow => Opening
    case Full => AtCapacity(deadline, live)
  }

  lemma LooksAtCounter(c: Config, i: nat, sh: Shared, deadline: nat, woken: bool)
    requires sh.idle == [] && sh.lock == Some(i)
    ensures if sh.live < c.maxSize
            then Reaches(c, i, sh, Popping(deadline, woken), sh.(live := sh.live + 1, lock := None), Opening)
            else Reaches(c, i, sh, Popping(deadline, woken), sh, AtCapacity(deadline, sh.live))
  {
    hide Reaches, Alone;
    var looking := CheckingCapacity(deadline, woken);
    if sh.live < c.maxSize {
      var grown := sh.(live := sh.live + 1, lock := None);
      OneStep(c, i, sh, Growing, grown, Opening);
      StepOnwards(c, i, sh, looking, sh, Growing, grown, Opening);
      StepOnwards(c, i, sh, Popping(deadline, woken), sh, looking, grown, Opening);
    } else {
      OneStep(c, i, sh, looking, sh, AtCapacity(deadline, sh.live));
      StepOnwards(c, i, sh, Popping(deadline, woken), sh, looking, sh, AtCapacity(deadline, sh.live));
    }
  }

  /** What the queue and the counter come to when acquire looks at them. */
  function Looking(c: Config, i: nat, sh: Shared): Shared
  {
    var turn := FirstLive(c, sh.idle, sh.live);
    sh.(idle := sh.idle[Looked(sh.idle)..], live := sh.live - DeadHead(sh.idle) + if turn.Grow? then 1 else 0,
        lock := if turn.Full? then Some(i) else None)
  }

  lemma {:induction false} PopsAlone(c: Config, i: nat, sh: Shared, deadline: nat, woken: bool)
    requires sh.lock == Some(i)
    ensures var turn := FirstLive(c, sh.idle, sh.live);
            var after := Looking(c, i, sh);
            Reaches(c, i, sh, Popping(deadline, woken), after, TurnPc(turn, deadline, woken, after.live))
    decreases |sh.idle|
  {
    hide Reaches, Alone;
    var pc := Popping(deadline, woken);
    if sh.idle == [] {
      LooksAtCounter(c, i, sh, deadline, woken);
      assert sh.idle[0..] == sh.idle;
    } else if sh.idle[0].open {
      OneStep(c, i, sh, pc, sh.(idle := sh.idle[1..], lock := None), HandingOut(sh.idle[0].session));
    } else {
      var popped := sh.(idle := sh.idle[1..]);
      var fewer := popped.(live := sh.live - 1);
      PopsAlone(c, i, fewer, deadline, woken);
      DeadHeadGoes(c, i, sh);
      var turn, after := FirstLive(c, sh.idle, sh.live), Looking(c, i, sh);
      StepOnwards(c, i, popped, PoppedDead(deadline, woken), fewer, pc, after,
          TurnPc(turn, deadline, woken, after.live));
      StepOnwards(c, i, sh, pc, popped, PoppedDead(deadline, woken), after, TurnPc(turn, deadline, woken, after.live));
    }
  }

  lemma DeadHeadGoes(c: Config, i: nat, sh: Shared)
    requires sh.idle != [] && !sh.idle[0].open
    ensures var fewer := sh.(idle := sh.idle[1..], live := sh.live - 1);
            && FirstLive(c, fewer.idle, fewer.live) == FirstLive(c, sh.idle, sh.live)
            && Looking(c, i, fewer) == Looking(c, i, sh)
  {
    assert DeadHead(sh.idle) == 1 + DeadHead(sh.idle[1..]);
    assert sh.idle[1..][Looked(sh.idle[1..])..] == sh.idle[Looked(sh.idle)..];
  }

  /** One stretch of acquire: alone, a thread ends where `SessionPool.Pass` does. */
  lemma AcquireAlone(c: Config, i: nat, sh: Shared, deadline: nat, woken: bool)
    requires sh.lock == None && ByAge(sh.idle) && |sh.idle| <= sh.live
    ensures var (after, turn) := Passed(c, sh);
            Reaches(c, i, sh, WantLock(deadline, woken), after.(lock := if turn.Full? then Some(i) else None),
                    TurnPc(turn, deadline, woken, after.live))
  {
    hide Reaches, Alone, Expirable, ByAge, EnterSweep, FirstLive, Looked, DeadHead;
    var pc, who := WantLock(deadline, woken), Acquirer(deadline, woken);
    if sh.closed {
      OneStep(c, i, sh, pc, sh, Done);
    } else {
      var (sh1, pc1) := EnterSweep(c, i, sh, who);
      var (swept, expired) := AfterSweeping(c, sh);
      var after, turn := Passed(c, sh).0, Passed(c, sh).1;
      var between := swept.(lock := LockAfter(i, who, expired));
      SweepsThrough(c, i, sh, who);
      StepOnwards(c, i, sh, pc, sh1, pc1, between, Swept(who, expired));
      if expired == [] {
        NothingExpired(sh.idle);
        NoneDueLeaves(c, sh);
        PopsAlone(c, i, between, deadline, woken);
        FirstLiveIsNoAgain(c, sh);
        Onwards(c, i, sh, pc, between, Popping(deadline, woken), Looking(c, i, between),
                TurnPc(turn, deadline, woken, after.live));
      }
    }
  }

  lemma NoneDueLeaves(c: Config, sh: Shared)
    requires AfterSweeping(c, sh).1 == []
    ensures AfterSweeping(c, sh).0.idle == sh.idle && AfterSweeping(c, sh).0.live == sh.live
  {
    hide Expirable;
    var k := if sh.now - sh.lastSweep < c.sweepInterval then 0 else Expirable(c, sh.idle, sh.live, sh.now);
    assert |Numbers(sh.idle[..k])| == k;
  }

  lemma FirstLiveIsNoAgain(c: Config, sh: Shared)
    ensures !FirstLive(c, sh.idle, sh.live).Again? && !FirstLive(c, sh.idle, sh.live).Closed?
  {
  }

  // ---------- Close ----------

  /** A close and its subtraction: alone, a thread ends where `SessionPool.Close` does. */
  lemma CloseAlone(c: Config, i: nat, sh: Shared)
    requires sh.lock == None
    ensures Reaches(c, i, sh, WantClose, Drained(sh).0, NotifyingAll)
  {
    hide Reaches, Alone;
    var emptied := sh.(closed := true, idle := []);
    OneStep(c, i, emptied, Discarding(|sh.idle|, true), Drained(sh).0, NotifyingAll);
    StepOnwards(c, i, sh, WantClose, emptied, Discarding(|sh.idle|, true), Drained(sh).0, NotifyingAll);
  }

  // ---------- Single steps ----------

  /** A session that dies in a guard, a failed open and a failed hand-out all take exactly one off the counter. */
  lemma LostSessionIsCountedOff(c: Config, i: nat, sh: Shared, pc: Pc, a: Action)
    requires (pc.Holding? && a == DropGuard(false)) || ((pc.Opening? || pc.HandingOut?) && a == Fail)
    ensures Local(c, i, sh, pc, a).Some?
    ensures var (sh1, pc1) := Local(c, i, sh, pc, a).value;
            sh1 == sh && Reaches(c, i, sh1, pc1, sh.(live := sh.live - 1), Notifying(false))
  {
    hide Reaches, Alone;
    OneStep(c, i, sh, Discarding(1, false), sh.(live := sh.live - 1), Notifying(false));
  }

  /** A live session in a dropped guard is released, one handed out is held, and an opened one is new. */
  lemma SessionsChangeHands(c: Config, i: nat, sh: Shared, session: nat)
    ensures Local(c, i, sh, Holding(session), DropGuard(true)) == Some((sh, WantRelease(session)))
    ensures Local(c, i, sh, HandingOut(session), Succeed) == Some((sh, Holding(session)))
    ensures Local(c, i, sh, Opening, Succeed)
            == Some((sh.(nextSession := sh.nextSession + 1), HandingOut(sh.nextSession)))
  {
  }

  /** A device hint takes its own entry out of the queue and leaves the others in order. */
  lemma HintedSessionLeavesTheRest(c: Config, s: State, i: nat, pos: nat)
    requires i < |s.agents| && s.agents[i].WantDevice? && s.shared.lock == None && !s.shared.closed
    requires pos < |s.shared.idle| && s.shared.idle[pos].open
    ensures Next(c, s, i, TakeAt(pos)).Some?
    ensures var t := Next(c, s, i, TakeAt(pos)).value;
            && t.agents == s.agents[i := HandingOut(s.shared.idle[pos].session)]
            && t.shared.idle == s.shared.idle[..pos] + s.shared.idle[pos + 1..] && t.shared.live == s.shared.live
  {
  }

  /** A notification wakes exactly one sleeper when there is one, and changes nothing else. */
  lemma NotificationWakesOne(c: Config, s: State, i: nat, w: nat)
    requires i < |s.agents| && s.agents[i].Notifying? && Next(c, s, i, NotifyOne(w)).Some?
    ensures var t := Next(c, s, i, NotifyOne(w)).value;
            && t.shared == s.shared && |t.agents| == |s.agents| && t.agents[i] == Done
            && (SomeoneWaits(s.agents) ==>
                  && w < |s.agents| && s.agents[w].Waiting? && t.agents[w] == WantLock(s.agents[w].deadline, true)
                  && forall j :: 0 <= j < |s.agents| && j != i && j != w ==> t.agents[j] == s.agents[j])
            && (!SomeoneWaits(s.agents) ==> forall j :: 0 <= j < |s.agents| && j != i ==> t.agents[j] == s.agents[j])
  {
  }

  /** The notification of a close wakes every sleeper, and changes nothing else. */
  lemma CloseWakesAll(c: Config, s: State, i: nat)
    requires i < |s.agents| && s.agents[i].NotifyingAll? && Next(c, s, i, Go).Some?
    ensures var t := Next(c, s, i, Go).value;
            && t.shared == s.shared && |t.agents| == |s.agents| && t.agents[i] == Done
            && forall j :: 0 <= j < |s.agents| && j != i ==>
                 t.agents[j] == if s.agents[j].Waiting? then WantLock(s.agents[j].deadline, true) else s.agents[j]
  {
  }

  /** A call's deadline is fixed when it begins: sweeping, waiting and looking for a hinted session do not move it. */
  lemma DeadlineIsSetOnce(c: Config, s: State, i: nat, deadline: nat, woken: bool, expired: seq<nat>)
    ensures var t := Next(c, s, i, StartAcquire);
            t.Some? && t.value.shared == s.shared
            && t.value.agents == s.agents + [WantLock(s.shared.now + c.acquireTimeout, false)]
    ensures Proceed(c, i, s.shared, WantDevice)
            == Some((s.shared, WantLock(s.shared.now + c.acquireTimeout, false)))
    ensures Proceed(c, i, s.shared, ClosingExpired(Acquirer(deadline, woken), expired))
            == Some((s.shared, WantLock(deadline, woken)))
    ensures Local(c, i, s.shared, Waiting(deadline), Wake) == Some((s.shared, WantLock(deadline, true)))
  {
  }

  /**
   A thread that saw a full pool gives up at its deadline, not before, and otherwise sleeps; either way it unlocks.
   */
  lemma FullPoolMeansWaiting(c: Config, i: nat, sh: Shared, deadline: nat, seen: int)
    ensures var p := Proceed(c, i, sh, AtCapacity(deadline, seen));
            && p.Some? && p.value.0 == sh.(lock := None)
            && (p.value.1 == Exhausted(seen) <==> deadline <= sh.now)
            && (p.value.1 == Waiting(deadline) <==> sh.now < deadline)
  {
  }
}
