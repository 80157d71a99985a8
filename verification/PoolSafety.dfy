/** The promises of the session pool, over every run of every number of threads. */
module PoolSafety {
  import opened Wrappers
  import opened PoolMachine
  import opened PoolInvariants

  /** A state some run reaches from a pool just built. */
  ghost predicate Reachable(c: Config, s: State)
  {
    exists s0: State, steps: seq<Step> :: Init(c, s0) && Run(c, s0, steps) == Some(s)
  }

  lemma ReachableHasInv(c: Config, s: State)
    requires Reachable(c, s)
    ensures Inv(c, s)
  {
    var s0: State, steps: seq<Step> :| Init(c, s0) && Run(c, s0, steps) == Some(s);
    EveryRunKeepsInv(c, s0, steps);
  }

  lemma ReachableOnwards(c: Config, s: State, i: nat, a: Action)
    requires Reachable(c, s) && Next(c, s, i, a).Some?
    ensures Reachable(c, Next(c, s, i, a).value)
  {
    hide Init, Next;
    var s0: State, steps: seq<Step> :| Init(c, s0) && Run(c, s0, steps) == Some(s);
    var longer := steps + [Step(i, a)];
    assert longer[..|longer| - 1] == steps;
    assert Run(c, s0, longer) == Next(c, s, i, a);
  }

  /**
   Sessions alive never exceed the cap, and each is idle or in the hands of exactly the threads that account for it.
   */
  lemma LiveIsConserved(c: Config, s: State)
    requires Reachable(c, s)
    ensures 0 <= s.shared.live <= c.maxSize
    ensures s.shared.live == |s.shared.idle| + Sum(s.agents, Slots)
  {
    ReachableHasInv(c, s);
  }

  /** Whatever a thread is about to take off the counter is on it, so no subtraction wraps around. */
  lemma SubtractionsNeverUnderflow(c: Config, s: State, i: nat)
    requires Reachable(c, s) && i < |s.agents|
    ensures s.shared.live - Slots(s.agents[i]) >= |s.shared.idle|
  {
    ReachableHasInv(c, s);
    SumCovers(s.agents, i, Slots);
  }

  /** An acquire gives up only after seeing, under the lock, a full pool with nothing idle. */
  lemma ExhaustedOnlyWhenFull(c: Config, s: State, i: nat)
    requires Reachable(c, s) && i < |s.agents|
    ensures s.agents[i].Exhausted? ==> s.agents[i].seen == c.maxSize
    ensures s.agents[i].AtCapacity? ==> s.shared.lock == Some(i) && s.shared.idle == [] && s.agents[i].seen == c.maxSize
    ensures s.agents[i].CheckingCapacity? && s.shared.live >= c.maxSize ==>
              s.shared.idle == []
              && s.shared.live == c.maxSize
  {
    ReachableHasInv(c, s);
  }

  /** Idle sessions are alive, so the loop that discards dead ones on acquire never does. */
  lemma NoDeadSessionIsIdle(c: Config, s: State, i: nat)
    requires Reachable(c, s) && i < |s.agents|
    ensures !s.agents[i].PoppedDead?
    ensures forall k :: 0 <= k < |s.shared.idle| ==> s.shared.idle[k].open
  {
    ReachableHasInv(c, s);
  }

  lemma TwoOwners(agents: seq<Pc>, i: nat, j: nat, id: nat)
    requires i < |agents| && j < |agents| && i != j
    ensures OwnedBy(agents)[id] >= Owns(agents[i])[id] + Owns(agents[j])[id]
  {
    hide Owns;
    OwnedUpdate(agents, i, Done);
    OwnedUpdate(agents[i := Done], j, Done);
    var rest, less := OwnedBy(agents[i := Done]), OwnedBy(agents[i := Done][j := Done]);
    assert Owns(Done) == multiset{} by { DoneOwnsNothing(); }
    assert (rest + Owns(agents[i]))[id] == (OwnedBy(agents) + Owns(Done))[id];
    assert (less + Owns(agents[j]))[id] == (rest + Owns(Done))[id];
  }

  lemma DoneOwnsNothing()
    ensures Owns(Done) == multiset{}
  {
  }

  /** Whoever has a session in hand has it alone: no other thread does, and it is not idle. */
  lemma SessionsAreExclusive(c: Config, s: State, i: nat, j: nat, id: nat)
    requires Reachable(c, s) && i < |s.agents| && j < |s.agents|
    requires id in Hands(s.agents[i])
    ensures id in Hands(s.agents[j]) ==> i == j
    ensures forall k :: 0 <= k < |s.shared.idle| ==> s.shared.idle[k].session != id
  {
    ReachableHasInv(c, s);
    hide Inv, Hands;
    assert Exclusive(s) by { ExclusiveHolds(c, s); }
    var queue := multiset(Numbers(s.shared.idle));
    assert Owners(s)[id] == queue[id] + OwnedBy(s.agents)[id] <= 1;
    assert id in Owns(s.agents[i]);
    OwnedUpdate(s.agents, i, Done);
    assert (OwnedBy(s.agents[i := Done]) + Owns(s.agents[i]))[id] == (OwnedBy(s.agents) + Owns(Done))[id];
    assert Owns(Done) == multiset{} by { DoneOwnsNothing(); }
    if id in Hands(s.agents[j]) && i != j {
      assert id in Owns(s.agents[j]);
      TwoOwners(s.agents, i, j, id);
    }
    forall k | 0 <= k < |s.shared.idle| ensures s.shared.idle[k].session != id {
      assert Numbers(s.shared.idle)[k] in queue;
    }
  }

  lemma ExclusiveHolds(c: Config, s: State)
    requires Inv(c, s)
    ensures Exclusive(s)
  {
  }

  // ---------- Wake-ups ----------

  lemma {:induction false} SumFindsOne(agents: seq<Pc>, weight: Pc -> nat) returns (i: nat)
    requires Sum(agents, weight) > 0
    ensures i < |agents| && weight(agents[i]) > 0
  {
    var n := |agents| - 1;
    if weight(agents[n]) > 0 {
      i := n;
    } else {
      i := SumFindsOne(agents[..n], weight);
    }
  }

  /**
   No lost wake-up for returned sessions: while a thread sleeps, at least as many threads are woken and heading for the
   queue, or still about to notify their push, as sessions are idle.
   */
  lemma ReturnedSessionsAreClaimed(c: Config, s: State) returns (i: nat)
    requires Reachable(c, s) && SomeoneWaits(s.agents) && s.shared.idle != []
    ensures |s.shared.idle| <= Sum(s.agents, Heading)
    ensures i < |s.agents| && Heading(s.agents[i]) > 0
  {
    ReachableHasInv(c, s);
    i := SumFindsOne(s.agents, Heading);
  }

  // ---------- Closing ----------

  /** Closing is final, and a closed pool only shrinks. */
  lemma ClosedPoolOnlyShrinks(c: Config, s: State, i: nat, a: Action)
    requires Reachable(c, s) && s.shared.closed && Next(c, s, i, a).Some?
    ensures var t := Next(c, s, i, a).value;
            t.shared.closed && t.shared.idle == [] && t.shared.live <= s.shared.live
  {
    ReachableHasInv(c, s);
    ReachableOnwards(c, s, i, a);
    ReachableHasInv(c, Next(c, s, i, a).value);
    hide Reachable, Counted, Exclusive, NobodySleepsThroughARelease, NobodySleepsThroughAClose, Locked, RemoveAt;
    if i < |s.agents| {
      assert PcOk(c, s.shared, s.agents[i]);
    }
  }

  lemma {:induction false} ClosedForGood(c: Config, s0: State, steps: seq<Step>, n: nat)
    requires Init(c, s0) && n <= |steps| && Run(c, s0, steps).Some?
    ensures Run(c, s0, steps[..n]).Some?
    ensures var s, t := Run(c, s0, steps[..n]).value, Run(c, s0, steps).value;
            s.shared.closed ==> t.shared.closed && t.shared.idle == [] && t.shared.live <= s.shared.live
  {
    hide Next, Init, Inv;
    if n == |steps| {
      assert steps[..n] == steps;
      EveryRunKeepsInv(c, s0, steps);
      assert QueueOk(Run(c, s0, steps).value.shared) by { QueueHolds(c, Run(c, s0, steps).value); }
    } else {
      var front := steps[..|steps| - 1];
      assert front[..n] == steps[..n];
      ClosedForGood(c, s0, front, n);
      var t := Run(c, s0, front).value;
      assert Reachable(c, t);
      if t.shared.closed {
        ClosedPoolOnlyShrinks(c, t, steps[|steps| - 1].agent, steps[|steps| - 1].action);
      }
    }
  }

  lemma QueueHolds(c: Config, s: State)
    requires Inv(c, s)
    ensures QueueOk(s.shared)
  {
  }

  /** Closing again changes nothing: the queue is empty already and nothing is taken off the counter. */
  lemma SecondCloseChangesNothing(c: Config, s: State, i: nat)
    requires Reachable(c, s) && s.shared.closed && i < |s.agents| && s.agents[i].WantClose? && s.shared.lock == None
    ensures Next(c, s, i, Go) == Some(s.(agents := s.agents[i := Discarding(0, true)]))
    ensures Proceed(c, i, s.shared, Discarding(0, true)) == Some((s.shared, NotifyingAll))
  {
    ReachableHasInv(c, s);
  }

  /** Once every thread has let go, a closed pool is empty, even of sessions that were being opened when it closed. */
  lemma ClosedPoolDrains(c: Config, s: State)
    requires Reachable(c, s) && s.shared.closed
    requires forall i :: 0 <= i < |s.agents| ==> Slots(s.agents[i]) == 0
    ensures s.shared.live == 0
  {
    ReachableHasInv(c, s);
    SumZero(s.agents, Slots);
  }

  /** No thread sleeps on in a closed pool: the close that will wake it is still on its way. */
  lemma CloseWakesEveryWaiter(c: Config, s: State) returns (i: nat)
    requires Reachable(c, s) && s.shared.closed && SomeoneWaits(s.agents)
    ensures i < |s.agents| && WakesAll(s.agents[i]) > 0
  {
    ReachableHasInv(c, s);
    i := SumFindsOne(s.agents, WakesAll);
  }
}
