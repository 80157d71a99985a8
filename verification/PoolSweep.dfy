/** The sweep among other threads: what it removes, whatever they do meanwhile, short of discarding a session. */
module PoolSweep {
  import opened Wrappers
  import opened PoolMachine
  import opened PoolInvariants
  import opened Pools

  /** A step that takes a discarded or drained session off the counter. */
  predicate Discards(s: State, step: Step)
  {
    step.action.Go? && step.agent < |s.agents| && s.agents[step.agent].Discarding?
  }

  /**
   A run through which thread `i` sweeps, up to its last step at the latest, and nobody discards. Other steps are free.
   */
  predicate Undisturbed(c: Config, s0: State, i: nat, steps: seq<Step>)
  {
    steps == [] ||
    (Undisturbed(c, s0, i, steps[..|steps| - 1])
     && var s := Run(c, s0, steps[..|steps| - 1]);
        s.Some? ==> i < |s.value.agents| && s.value.agents[i].Sweeping? && !Discards(s.value, steps[|steps| - 1]))
  }

  /** Where a sweeper turns to when its loop has ended with these sessions. */
  function AfterLoop(who: Sweeper, expired: seq<nat>): Pc
  {
    if expired != [] then Subtracting(who, expired)
    else match who case Acquirer(deadline, woken) => Popping(deadline, woken) case Releaser => Notifying(true)
  }

  /**
   A sweep of the queue `was`, begun at `now`: under way, or just ended with exactly the sessions it should remove.
   */
  ghost predicate SweepGoes(c: Config, i: nat, was: seq<Entry>, live: int, who: Sweeper, now: nat, s: State)
  {
    && i < |s.agents| && s.shared.live == live
    && if s.agents[i].Sweeping? then
         s.agents[i].who == who && s.agents[i].started == now
         && Swept(c, was, live, now, s.shared.idle, s.agents[i].expired, s.agents[i].at)
       else SweepEnded(c, was, live, who, now, s.shared.idle, s.agents[i])
  }

  /** The oldest are gone, as many as are over age but never below the minimum size; the others stay in order. */
  ghost predicate SweepEnded(c: Config, was: seq<Entry>, live: int, who: Sweeper, now: nat, idle: seq<Entry>, pc: Pc)
  {
    var k := Expirable(c, was, live, now);
    idle == was[k..] && pc == AfterLoop(who, Numbers(was[..k]))
  }

  lemma {:induction false} RunsKeepInv(c: Config, s0: State, steps: seq<Step>)
    requires Inv(c, s0) && Run(c, s0, steps).Some?
    ensures Inv(c, Run(c, s0, steps).value)
  {
    hide Inv, Next;
    if steps != [] {
      var last := steps[|steps| - 1];
      RunsKeepInv(c, s0, steps[..|steps| - 1]);
      NextKeepsInv(c, Run(c, s0, steps[..|steps| - 1]).value, last.agent, last.action);
    }
  }

  /** Without the lock, a thread leaves the queue alone, and the counter too unless it discards. */
  lemma OthersStep(c: Config, j: nat, sh: Shared, pc: Pc, a: Action, sh': Shared, pc': Pc)
    requires LocalStep(c, j, sh, pc, a, sh', pc') && sh.lock.Some? && sh.lock != Some(j)
    requires !(pc.Discarding? && a.Go?)
    ensures sh'.idle == sh.idle && sh'.live == sh.live
  {
    hide QueueOk, RemoveAt;
  }

  /** The sweeper's own step: one more iteration, or the end of the loop. */
  lemma SweeperSteps(c: Config, i: nat, was: seq<Entry>, who: Sweeper, now: nat, sh: Shared, at: nat, expired: seq<nat>)
    requires ByAge(was) && Swept(c, was, sh.live, now, sh.idle, expired, at)
    ensures var (sh', pc') := SweepOnce(c, i, sh, who, at, expired, now);
            && sh'.live == sh.live
            && if pc'.Sweeping? then
                 pc'.who == who && pc'.started == now && Swept(c, was, sh'.live, now, sh'.idle, pc'.expired, pc'.at)
               else SweepEnded(c, was, sh.live, who, now, sh'.idle, pc')
  {
    hide Swept, Expirable, ByAge, RemoveAt;
    SweepEnds(c, was, sh.live, now, sh.idle, expired, at);
    if at < |sh.idle| && sh.live - |expired| > c.minSize {
      SweepStep(c, was, sh.live, now, sh.idle, expired, at);
    }
  }

  lemma SweepSurvives(c: Config, i: nat, was: seq<Entry>, live: int, who: Sweeper, now: nat, s: State, step: Step)
    requires Inv(c, s) && ByAge(was) && SweepGoes(c, i, was, live, who, now, s) && s.agents[i].Sweeping?
    requires Next(c, s, step.agent, step.action).Some? && !Discards(s, step)
    ensures SweepGoes(c, i, was, live, who, now, Next(c, s, step.agent, step.action).value)
  {
    hide Swept, SweepEnded, ByAge, Local, Inv;
    var j, a := step.agent, step.action;
    if !a.Tick? && !a.StartAcquire? && !a.StartAcquireForDevice? && !a.StartClose? && !a.NotifyOne?
      && !(a.Go? && s.agents[j].NotifyingAll?)
    {
      var (sh', pc') := Local(c, j, s.shared, s.agents[j], a).value;
      if j == i {
        OnlyGoes(c, i, s, a);
        SweeperSteps(c, i, was, who, now, s.shared, s.agents[i].at, s.agents[i].expired);
      } else {
        IsLocalStep(c, s, j, a, sh', pc');
        SweeperHasLock(c, s, i);
        OthersStep(c, j, s.shared, s.agents[j], a, sh', pc');
      }
    }
  }

  lemma SweeperHasLock(c: Config, s: State, i: nat)
    requires Inv(c, s) && i < |s.agents| && s.agents[i].Sweeping?
    ensures s.shared.lock == Some(i)
  {
    assert HoldsLock(s.agents[i]);
  }

  lemma OnlyGoes(c: Config, i: nat, s: State, a: Action)
    requires i < |s.agents| && s.agents[i].Sweeping? && Local(c, i, s.shared, s.agents[i], a).Some?
    ensures var pc := s.agents[i];
            Local(c, i, s.shared, pc, a) == Some(SweepOnce(c, i, s.shared, pc.who, pc.at, pc.expired, pc.started))
  {
    hide SweepOnce;
  }

  /**
   Sweep exactness among other threads. However their steps interleave with it, as long as none takes a discarded
   session off the counter, an ungated sweep removes exactly the oldest sessions, as many as are over age but never
   going below the minimum size, and the others keep their order; the counter stands still until it subtracts them.
   */
  lemma {:induction false} SweepAmongOthers(c: Config, s0: State, i: nat, who: Sweeper, now: nat, steps: seq<Step>)
    requires Inv(c, s0) && i < |s0.agents| && s0.agents[i] == Sweeping(who, 0, [], now)
    requires Run(c, s0, steps).Some? && Undisturbed(c, s0, i, steps)
    ensures SweepGoes(c, i, s0.shared.idle, s0.shared.live, who, now, Run(c, s0, steps).value)
  {
    hide Next, Inv, SweepGoes, Discards;
    assert ByAge(s0.shared.idle) && |s0.shared.idle| <= s0.shared.live by { QueueOfInv(c, s0); }
    if steps == [] {
      SweepGoesFirst(c, i, who, now, s0);
    } else {
      var front := steps[..|steps| - 1];
      SweepAmongOthers(c, s0, i, who, now, front);
      RunsKeepInv(c, s0, front);
      SweepSurvives(c, i, s0.shared.idle, s0.shared.live, who, now, Run(c, s0, front).value, steps[|steps| - 1]);
    }
  }

  lemma QueueOfInv(c: Config, s: State)
    requires Inv(c, s)
    ensures ByAge(s.shared.idle) && |s.shared.idle| <= s.shared.live
  {
  }

  lemma SweepGoesFirst(c: Config, i: nat, who: Sweeper, now: nat, s: State)
    requires i < |s.agents| && s.agents[i] == Sweeping(who, 0, [], now) && |s.shared.idle| <= s.shared.live
    ensures SweepGoes(c, i, s.shared.idle, s.shared.live, who, now, s)
  {
    hide Swept;
    SweepStarts(c, s.shared.idle, s.shared.live, now);
  }
}
