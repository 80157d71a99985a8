/** What holds in every state the pool machine can reach. */
module PoolInvariants {
  import opened Wrappers
  import opened PoolMachine

  // ---------- Sums over threads ----------

  function Sum(agents: seq<Pc>, weight: Pc -> nat): nat
  {
    if agents == [] then 0 else Sum(agents[..|agents| - 1], weight) + weight(agents[|agents| - 1])
  }

  lemma SumAppend(agents: seq<Pc>, pc: Pc, weight: Pc -> nat)
    ensures Sum(agents + [pc], weight) == Sum(agents, weight) + weight(pc)
  {
    assert (agents + [pc])[..|agents|] == agents;
  }

  lemma {:induction false} SumUpdate(agents: seq<Pc>, i: nat, pc: Pc, weight: Pc -> nat)
    requires i < |agents|
    ensures Sum(agents[i := pc], weight) == Sum(agents, weight) - weight(agents[i]) + weight(pc)
    ensures Sum(agents, weight) >= weight(agents[i])
  {
    var n := |agents| - 1;
    if i == n {
      assert agents[i := pc][..n] == agents[..n];
    } else {
      assert agents[i := pc][..n] == agents[..n][i := pc];
      SumUpdate(agents[..n], i, pc, weight);
    }
  }

  lemma {:induction false} SumCovers(agents: seq<Pc>, i: nat, weight: Pc -> nat)
    requires i < |agents|
    ensures Sum(agents, weight) >= weight(agents[i])
  {
    SumUpdate(agents, i, agents[i], weight);
  }

  lemma {:induction false} SumZero(agents: seq<Pc>, weight: Pc -> nat)
    requires forall i :: 0 <= i < |agents| ==> weight(agents[i]) == 0
    ensures Sum(agents, weight) == 0
  {
    if agents != [] {
      SumZero(agents[..|agents| - 1], weight);
    }
  }

  // ---------- What a thread accounts for ----------

  /** Sessions counted in `live` that a thread is answerable for: held, opening, or removed but not yet subtracted. */
  function Slots(pc: Pc): nat
  {
    match pc
    case Sweeping(_, _, expired, _) => |expired|
    case Subtracting(_, expired) => |expired|
    case PoppedDead(_, _) => 1
    case Opening => 1
    case HandingOut(_) => 1
    case Holding(_) => 1
    case WantRelease(_) => 1
    case Discarding(count, _) => count
    case _ => 0
  }

  predicate HoldsLock(pc: Pc)
  {
    pc.Sweeping? || pc.Subtracting? || pc.Popping? || pc.PoppedDead? || pc.CheckingCapacity? || pc.Growing?
        || pc.AtCapacity?
  }

  /** A woken acquire on its way to the queue, or a release between its push and its notification. */
  function Heading(pc: Pc): nat
  {
    match pc
    case WantLock(_, woken) => if woken then 1 else 0
    case Sweeping(who, _, _, _) => Bound(who)
    case Subtracting(who, _) => Bound(who)
    case ClosingExpired(who, _) => Bound(who)
    case Popping(_, woken) => if woken then 1 else 0
    case PoppedDead(_, woken) => if woken then 1 else 0
    case Notifying(pushed) => if pushed then 1 else 0
    case _ => 0
  }

  function Bound(who: Sweeper): nat
  {
    match who
    case Acquirer(_, woken) => if woken then 1 else 0
    case Releaser => 1
  }

  /** A thread that will wake every waiter. */
  function WakesAll(pc: Pc): nat
  {
    match pc
    case Discarding(_, all) => if all then 1 else 0
    case NotifyingAll => 1
    case _ => 0
  }

  // ---------- Ownership ----------

  function Numbers(idle: seq<Entry>): (r: seq<nat>)
    ensures |r| == |idle|
    ensures forall k :: 0 <= k < |idle| ==> r[k] == idle[k].session
  {
    seq(|idle|, k requires 0 <= k < |idle| => idle[k].session)
  }

  /** The sessions a thread has its hands on. */
  function Hands(pc: Pc): seq<nat>
  {
    match pc
    case Sweeping(_, _, expired, _) => expired
    case Subtracting(_, expired) => expired
    case ClosingExpired(_, expired) => expired
    case HandingOut(session) => [session]
    case Holding(session) => [session]
    case WantRelease(session) => [session]
    case _ => []
  }

  function Owns(pc: Pc): multiset<nat>
  {
    multiset(Hands(pc))
  }

  function OwnedBy(agents: seq<Pc>): multiset<nat>
  {
    if agents == [] then multiset{} else OwnedBy(agents[..|agents| - 1]) + Owns(agents[|agents| - 1])
  }

  /** Every session in the pool or in the hands of a thread, with its number of owners. */
  function Owners(s: State): multiset<nat>
  {
    multiset(Numbers(s.shared.idle)) + OwnedBy(s.agents)
  }

  lemma OwnedAppend(agents: seq<Pc>, pc: Pc)
    ensures OwnedBy(agents + [pc]) == OwnedBy(agents) + Owns(pc)
  {
    assert (agents + [pc])[..|agents|] == agents;
  }

  lemma {:induction false} OwnedUpdate(agents: seq<Pc>, i: nat, pc: Pc)
    requires i < |agents|
    ensures OwnedBy(agents[i := pc]) + Owns(agents[i]) == OwnedBy(agents) + Owns(pc)
  {
    hide Owns;
    var n := |agents| - 1;
    if i == n {
      assert agents[i := pc][..n] == agents[..n];
    } else {
      assert agents[i := pc][..n] == agents[..n][i := pc];
      OwnedUpdate(agents[..n], i, pc);
      var last, a, b := Owns(agents[n]), OwnedBy(agents[..n][i := pc]), OwnedBy(agents[..n]);
      assert a + last + Owns(agents[i]) == (a + Owns(agents[i])) + last;
      assert b + last + Owns(pc) == (b + Owns(pc)) + last;
    }
  }

  // ---------- The invariant ----------

  predicate ByAge(idle: seq<Entry>)
  {
    forall k, l :: 0 <= k < l < |idle| ==> idle[k].since <= idle[l].since
  }

  /** The queue: in order of idle time, all alive, empty once the pool is closed. */
  predicate QueueOk(sh: Shared)
  {
    && ByAge(sh.idle)
    && (forall k :: 0 <= k < |sh.idle| ==> sh.idle[k].open && sh.idle[k].since <= sh.now)
    && sh.lastSweep <= sh.now
    && (sh.closed ==> sh.idle == [])
  }

  /** What a thread's program counter says about the shared state, which only the lock protects. */
  predicate PcOk(c: Config, sh: Shared, pc: Pc)
  {
    && (HoldsLock(pc) ==> !sh.closed)
    && match pc
       case Sweeping(_, at, expired, started) => at <= |sh.idle| && started <= sh.now
       case PoppedDead(_, _) => false
       case CheckingCapacity(_, _) => sh.idle == []
       case Growing => sh.idle == [] && sh.live < c.maxSize
       case AtCapacity(_, seen) => sh.idle == [] && seen == c.maxSize
       case Exhausted(seen) => seen == c.maxSize
       case Discarding(count, all) => if all then sh.closed else count == 1
       case _ => true
  }

  /** Conservation: every live session is idle or accounted for by exactly one thread, and there is room for all. */
  ghost predicate Counted(c: Config, s: State)
  {
    s.shared.live == |s.shared.idle| + Sum(s.agents, Slots) && s.shared.live <= c.maxSize
  }

  /** The mutex excludes: whoever is in a locked stretch is the one thread that holds it. */
  ghost predicate Locked(s: State)
  {
    && (s.shared.lock.Some? ==> s.shared.lock.value < |s.agents| && HoldsLock(s.agents[s.shared.lock.value]))
    && forall i :: 0 <= i < |s.agents| && HoldsLock(s.agents[i]) ==> s.shared.lock == Some(i)
  }

  ghost predicate AllPcsOk(c: Config, s: State)
  {
    forall i :: 0 <= i < |s.agents| ==> PcOk(c, s.shared, s.agents[i])
  }

  /** No session has two owners, and numbers still to come are unused. */
  ghost predicate Exclusive(s: State)
  {
    forall id: nat :: Owners(s)[id] <= (if id < s.shared.nextSession then 1 else 0)
  }

  /** With somebody asleep, every idle session has a thread coming for it or about to send one. */
  ghost predicate NobodySleepsThroughARelease(s: State)
  {
    SomeoneWaits(s.agents) ==> |s.shared.idle| <= Sum(s.agents, Heading)
  }

  /** With somebody asleep in a closed pool, the wake-up call of the close is still to come. */
  ghost predicate NobodySleepsThroughAClose(s: State)
  {
    SomeoneWaits(s.agents) && s.shared.closed ==> Sum(s.agents, WakesAll) > 0
  }

  ghost predicate Inv(c: Config, s: State)
  {
    && Counted(c, s)
    && Locked(s)
    && QueueOk(s.shared)
    && AllPcsOk(c, s)
    && Exclusive(s)
    && NobodySleepsThroughARelease(s)
    && NobodySleepsThroughAClose(s)
  }

  // ---------- One thread's step ----------

  /** A local step of thread `i` and what it may rely on. */
  ghost predicate LocalStep(c: Config, i: nat, sh: Shared, pc: Pc, a: Action, sh': Shared, pc': Pc)
  {
    && Local(c, i, sh, pc, a) == Some((sh', pc'))
    && (HoldsLock(pc) <==> sh.lock == Some(i))
    && QueueOk(sh) && PcOk(c, sh, pc)
    && sh.live >= |sh.idle| + Slots(pc) && sh.live <= c.maxSize
  }

  lemma LocalCount(c: Config, i: nat, sh: Shared, pc: Pc, a: Action, sh': Shared, pc': Pc)
    requires LocalStep(c, i, sh, pc, a, sh', pc')
    ensures sh'.live - |sh'.idle| - Slots(pc') == sh.live - |sh.idle| - Slots(pc)
    ensures sh'.live <= c.maxSize
  {
  }

  lemma LocalLock(c: Config, i: nat, sh: Shared, pc: Pc, a: Action, sh': Shared, pc': Pc)
    requires LocalStep(c, i, sh, pc, a, sh', pc')
    ensures HoldsLock(pc') <==> sh'.lock == Some(i)
    ensures sh'.lock == sh.lock || sh.lock == Some(i) || (sh.lock == None && sh'.lock == Some(i))
    ensures sh'.lock.Some? ==> sh'.lock == sh.lock || sh'.lock == Some(i)
  {
  }

  lemma QueueWithout(sh: Shared, at: nat)
    requires QueueOk(sh) && at < |sh.idle|
    ensures QueueOk(sh.(idle := RemoveAt(sh.idle, at)))
  {
  }

  lemma QueueWith(sh: Shared, session: nat)
    requires QueueOk(sh) && !sh.closed
    ensures QueueOk(sh.(idle := sh.idle + [Entry(session, sh.now, true)]))
  {
  }

  /** Only these parts of the shared state matter to the queue. */
  lemma SameQueue(sh: Shared, sh': Shared)
    requires QueueOk(sh) && sh'.idle == sh.idle && sh'.closed == sh.closed && sh'.now >= sh.now
    requires sh'.lastSweep == sh.lastSweep || sh'.lastSweep == sh'.now
    ensures QueueOk(sh')
  {
  }

  lemma EmptyQueue(sh: Shared)
    requires QueueOk(sh)
    ensures QueueOk(sh.(idle := [], closed := true))
  {
  }

  lemma LocalQueue(c: Config, i: nat, sh: Shared, pc: Pc, a: Action, sh': Shared, pc': Pc)
    requires LocalStep(c, i, sh, pc, a, sh', pc')
    ensures QueueOk(sh')
  {
    hide QueueOk, PcOk, HoldsLock, Slots;
    if sh'.idle == sh.idle {
      assert sh'.closed == sh.closed || pc.WantClose?;
      if pc.WantClose? {
        EmptyQueue(sh);
        SameQueue(sh.(idle := [], closed := true), sh');
      } else {
        SameQueue(sh, sh');
      }
    } else if pc.WantClose? {
      EmptyQueue(sh);
      SameQueue(sh.(idle := [], closed := true), sh');
    } else if pc.WantRelease? {
      QueueWith(sh, pc.session);
      SameQueue(sh.(idle := sh.idle + [Entry(pc.session, sh.now, true)]), sh');
    } else {
      var at := if pc.Popping? then 0 else if pc.Sweeping? then pc.at else a.pos;
      QueueWithout(sh, at);
      SameQueue(sh.(idle := RemoveAt(sh.idle, at)), sh');
    }
  }

  lemma LocalPc(c: Config, i: nat, sh: Shared, pc: Pc, a: Action, sh': Shared, pc': Pc)
    requires LocalStep(c, i, sh, pc, a, sh', pc')
    ensures PcOk(c, sh', pc')
  {
    hide ByAge;
  }

  /** Without the lock, a step can at most take sessions off `live`. */
  lemma LocalFrame(c: Config, i: nat, sh: Shared, pc: Pc, a: Action, sh': Shared, pc': Pc, other: Pc)
    requires LocalStep(c, i, sh, pc, a, sh', pc')
    requires PcOk(c, sh, other) && (HoldsLock(other) ==> sh.lock.Some? && sh.lock != Some(i))
    ensures PcOk(c, sh', other)
  {
  }

  lemma LocalHeading(c: Config, i: nat, sh: Shared, pc: Pc, a: Action, sh': Shared, pc': Pc)
    requires LocalStep(c, i, sh, pc, a, sh', pc')
    ensures sh'.idle == [] || |sh'.idle| + Heading(pc) <= |sh.idle| + Heading(pc')
    ensures pc'.Waiting? ==> sh'.idle == []
  {
  }

  lemma LocalWakesAll(c: Config, i: nat, sh: Shared, pc: Pc, a: Action, sh': Shared, pc': Pc)
    requires LocalStep(c, i, sh, pc, a, sh', pc')
    ensures WakesAll(pc') >= WakesAll(pc)
    ensures sh'.closed && !sh.closed ==> WakesAll(pc') == 1
    ensures pc'.Waiting? ==> !sh'.closed
    ensures sh.closed ==> sh'.closed
  {
  }

  lemma NumbersWithout(idle: seq<Entry>, at: nat)
    requires at < |idle|
    ensures multiset(Numbers(idle)) == multiset(Numbers(RemoveAt(idle, at))) + multiset{idle[at].session}
  {
    var n := Numbers(idle);
    assert Numbers(RemoveAt(idle, at)) == n[..at] + n[at + 1..];
    assert n == n[..at] + [n[at]] + n[at + 1..];
  }

  lemma NumbersWith(idle: seq<Entry>, e: Entry)
    ensures multiset(Numbers(idle + [e])) == multiset(Numbers(idle)) + multiset{e.session}
  {
    assert Numbers(idle + [e]) == Numbers(idle) + [e.session];
  }

  /** The sessions in the queue and in the hands of one thread. */
  function Here(sh: Shared, pc: Pc): multiset<nat>
  {
    multiset(Numbers(sh.idle)) + Owns(pc)
  }

  /** A step that leaves the queue alone. */
  lemma HandsChange(c: Config, i: nat, sh: Shared, pc: Pc, a: Action, sh': Shared, pc': Pc)
    requires LocalStep(c, i, sh, pc, a, sh', pc') && sh'.idle == sh.idle && !pc.WantClose? && !pc.WantRelease?
    ensures if sh'.nextSession == sh.nextSession then Hands(pc') == Hands(pc) || Hands(pc') == []
            else sh'.nextSession == sh.nextSession + 1 && Hands(pc') == [sh.nextSession]
  {
    hide QueueOk, PcOk;
  }

  /** A step that takes one entry out of the queue. */
  lemma HandsTake(c: Config, i: nat, sh: Shared, pc: Pc, a: Action, sh': Shared, pc': Pc) returns (at: nat)
    requires LocalStep(c, i, sh, pc, a, sh', pc') && sh'.idle != sh.idle && !pc.WantClose? && !pc.WantRelease?
    ensures at < |sh.idle| && sh'.idle == RemoveAt(sh.idle, at) && sh'.nextSession == sh.nextSession
    ensures Hands(pc') == Hands(pc) + [sh.idle[at].session] || Hands(pc') == []
  {
    hide QueueOk, PcOk;
    if pc.Popping? {
      at := 0;
      assert RemoveAt(sh.idle, 0) == sh.idle[1..];
    } else if pc.Sweeping? {
      hide Hands;
      at := pc.at;
      SweepTakes(c, i, sh, pc, sh', pc');
    } else {
      at := a.pos;
      assert [] + [sh.idle[at].session] == [sh.idle[at].session];
    }
  }

  lemma SweepTakes(c: Config, i: nat, sh: Shared, pc: Pc, sh': Shared, pc': Pc)
    requires pc.Sweeping? && Proceed(c, i, sh, pc) == Some((sh', pc')) && sh'.idle != sh.idle
    ensures pc.at < |sh.idle| && sh'.idle == RemoveAt(sh.idle, pc.at) && sh'.nextSession == sh.nextSession
    ensures Hands(pc') == Hands(pc) + [sh.idle[pc.at].session]
  {
    hide RemoveAt;
  }

  lemma HandsGive(c: Config, i: nat, sh: Shared, pc: Pc, a: Action, sh': Shared, pc': Pc)
    requires LocalStep(c, i, sh, pc, a, sh', pc') && (pc.WantRelease? || pc.WantClose?)
    ensures sh'.nextSession == sh.nextSession
    ensures if pc.WantRelease? && Hands(pc') == [] && sh'.idle != sh.idle
            then sh'.idle == sh.idle + [Entry(pc.session, sh.now, true)]
            else (Hands(pc') == [] || Hands(pc') == Hands(pc)) && (sh'.idle == [] || sh'.idle == sh.idle)
  {
    hide QueueOk;
  }

  /** A step moves sessions between the queue and the thread, drops some, or opens the next number. */
  lemma LocalOwners(c: Config, i: nat, sh: Shared, pc: Pc, a: Action, sh': Shared, pc': Pc)
    requires LocalStep(c, i, sh, pc, a, sh', pc')
    ensures if sh'.nextSession == sh.nextSession then Here(sh', pc') <= Here(sh, pc)
            else sh'.nextSession == sh.nextSession + 1 && Here(sh', pc') <= Here(sh, pc) + multiset{sh.nextSession}
  {
    hide LocalStep, Numbers;
    NoNumbers();
    if pc.WantRelease? || pc.WantClose? {
      HandsGive(c, i, sh, pc, a, sh', pc');
      if pc.WantRelease? {
        NumbersWith(sh.idle, Entry(pc.session, sh.now, true));
      }
    } else if sh'.idle == sh.idle {
      hide Owns;
      HandsChange(c, i, sh, pc, a, sh', pc');
    } else {
      hide Owns;
      var at := HandsTake(c, i, sh, pc, a, sh', pc');
      NumbersWithout(sh.idle, at);
    }
  }

  lemma NoNumbers()
    ensures Numbers([]) == []
  {
  }

  // ---------- From one thread to the state ----------

  lemma IsLocalStep(c: Config, s: State, i: nat, a: Action, sh': Shared, pc': Pc)
    requires Inv(c, s) && i < |s.agents| && Local(c, i, s.shared, s.agents[i], a) == Some((sh', pc'))
    ensures LocalStep(c, i, s.shared, s.agents[i], a, sh', pc')
  {
    hide Local, QueueOk, PcOk, Exclusive, NobodySleepsThroughARelease, NobodySleepsThroughAClose;
    SumCovers(s.agents, i, Slots);
  }

  lemma MoveKeepsCount(c: Config, s: State, i: nat, a: Action, sh': Shared, pc': Pc)
    requires Counted(c, s) && i < |s.agents| && LocalStep(c, i, s.shared, s.agents[i], a, sh', pc')
    ensures Counted(c, State(sh', s.agents[i := pc']))
  {
    hide LocalStep;
    LocalCount(c, i, s.shared, s.agents[i], a, sh', pc');
    SumUpdate(s.agents, i, pc', Slots);
  }

  lemma MoveKeepsLock(c: Config, s: State, i: nat, a: Action, sh': Shared, pc': Pc)
    requires Locked(s) && i < |s.agents| && LocalStep(c, i, s.shared, s.agents[i], a, sh', pc')
    ensures Locked(State(sh', s.agents[i := pc']))
  {
    LocalLock(c, i, s.shared, s.agents[i], a, sh', pc');
    hide LocalStep, HoldsLock;
  }

  lemma MoveKeepsPcs(c: Config, s: State, i: nat, a: Action, sh': Shared, pc': Pc)
    requires Locked(s) && AllPcsOk(c, s) && i < |s.agents| && LocalStep(c, i, s.shared, s.agents[i], a, sh', pc')
    ensures AllPcsOk(c, State(sh', s.agents[i := pc']))
  {
    hide LocalStep, HoldsLock, PcOk;
    LocalPc(c, i, s.shared, s.agents[i], a, sh', pc');
    forall j | 0 <= j < |s.agents| && j != i ensures PcOk(c, sh', s.agents[j]) {
      LocalFrame(c, i, s.shared, s.agents[i], a, sh', pc', s.agents[j]);
    }
  }

  lemma MoveKeepsOwners(c: Config, s: State, i: nat, a: Action, sh': Shared, pc': Pc)
    requires Exclusive(s) && i < |s.agents| && LocalStep(c, i, s.shared, s.agents[i], a, sh', pc')
    ensures Exclusive(State(sh', s.agents[i := pc']))
  {
    hide LocalStep, Owns, OwnedBy, Numbers;
    LocalOwners(c, i, s.shared, s.agents[i], a, sh', pc');
    OwnedUpdate(s.agents, i, pc');
    var added: multiset<nat> := if sh'.nextSession == s.shared.nextSession then multiset{}
        else multiset{s.shared.nextSession};
    NoMoreOwners(multiset(Numbers(s.shared.idle)), OwnedBy(s.agents), Owns(s.agents[i]),
                 multiset(Numbers(sh'.idle)), OwnedBy(s.agents[i := pc']), Owns(pc'), added);
    forall id: nat ensures Owners(State(sh', s.agents[i := pc']))[id] <= Owners(s)[id] + added[id] {
    }
  }

  /** What one thread and the queue exchange cannot add owners elsewhere. */
  lemma NoMoreOwners(queue: multiset<nat>, hands: multiset<nat>, own: multiset<nat>,
                     queue': multiset<nat>, hands': multiset<nat>, own': multiset<nat>, added: multiset<nat>)
    requires hands' + own == hands + own'
    requires queue' + own' <= queue + own + added
    ensures queue' + hands' <= queue + hands + added
  {
    forall id: nat ensures queue'[id] + hands'[id] <= queue[id] + hands[id] + added[id] {
      assert (hands' + own)[id] == (hands + own')[id];
      assert (queue' + own')[id] <= (queue + own + added)[id];
    }
  }

  lemma MoveKeepsWaiters(agents: seq<Pc>, i: nat, pc': Pc)
    requires i < |agents| && !pc'.Waiting? && SomeoneWaits(agents[i := pc'])
    ensures SomeoneWaits(agents)
  {
    var j :| 0 <= j < |agents| && agents[i := pc'][j].Waiting?;
    assert agents[j].Waiting?;
  }

  lemma MoveKeepsWakeups(c: Config, s: State, i: nat, a: Action, sh': Shared, pc': Pc)
    requires NobodySleepsThroughARelease(s) && NobodySleepsThroughAClose(s)
    requires i < |s.agents| && LocalStep(c, i, s.shared, s.agents[i], a, sh', pc')
    ensures NobodySleepsThroughARelease(State(sh', s.agents[i := pc']))
    ensures NobodySleepsThroughAClose(State(sh', s.agents[i := pc']))
  {
    hide LocalStep, Heading, WakesAll, SomeoneWaits;
    LocalHeading(c, i, s.shared, s.agents[i], a, sh', pc');
    LocalWakesAll(c, i, s.shared, s.agents[i], a, sh', pc');
    SumUpdate(s.agents, i, pc', Heading);
    SumUpdate(s.agents, i, pc', WakesAll);
    if SomeoneWaits(s.agents[i := pc']) && !pc'.Waiting? {
      MoveKeepsWaiters(s.agents, i, pc');
    }
  }

  lemma MoveKeepsInv(c: Config, s: State, i: nat, a: Action, sh': Shared, pc': Pc)
    requires Inv(c, s) && i < |s.agents| && Local(c, i, s.shared, s.agents[i], a) == Some((sh', pc'))
    ensures Inv(c, State(sh', s.agents[i := pc']))
  {
    IsLocalStep(c, s, i, a, sh', pc');
    hide LocalStep, Local, Counted, Locked, QueueOk, AllPcsOk, Exclusive, NobodySleepsThroughARelease,
        NobodySleepsThroughAClose;
    MoveKeepsCount(c, s, i, a, sh', pc');
    MoveKeepsLock(c, s, i, a, sh', pc');
    LocalQueue(c, i, s.shared, s.agents[i], a, sh', pc');
    MoveKeepsPcs(c, s, i, a, sh', pc');
    MoveKeepsOwners(c, s, i, a, sh', pc');
    MoveKeepsWakeups(c, s, i, a, sh', pc');
  }

  // ---------- Steps that touch other threads ----------

  /** Threads that neither count, lock, nor own anything may change freely among themselves. */
  predicate Light(pc: Pc)
  {
    pc.WantLock? || pc.WantDevice? || pc.WantClose? || pc.Waiting? || pc.Notifying? || pc.NotifyingAll? || pc.Done?
  }

  lemma LightWeighsNothing(pc: Pc)
    requires Light(pc)
    ensures Slots(pc) == 0 && Owns(pc) == multiset{} && !HoldsLock(pc)
  {
    hide Owns;
    assert Hands(pc) == [];
    NoHandsNoOwner(pc);
  }

  lemma NoHandsNoOwner(pc: Pc)
    requires Hands(pc) == []
    ensures Owns(pc) == multiset{}
  {
    hide Hands;
  }

  lemma LightIsOk(c: Config, sh: Shared, pc: Pc)
    requires Light(pc)
    ensures PcOk(c, sh, pc)
  {
  }

  /** The part of the invariant that does not concern wake-ups. */
  ghost predicate Sound(c: Config, s: State)
  {
    Counted(c, s) && Locked(s) && QueueOk(s.shared) && AllPcsOk(c, s) && Exclusive(s)
  }

  lemma LightChangeKeepsSound(c: Config, s: State, i: nat, pc: Pc)
    requires Sound(c, s) && i < |s.agents| && Light(s.agents[i]) && Light(pc)
    ensures Sound(c, s.(agents := s.agents[i := pc]))
  {
    hide Light, Slots, Owns, HoldsLock, PcOk, QueueOk;
    LightWeighsNothing(pc);
    LightIsOk(c, s.shared, pc);
    LightWeighsNothing(s.agents[i]);
    SumUpdate(s.agents, i, pc, Slots);
    OwnedUpdate(s.agents, i, pc);
    assert OwnedBy(s.agents[i := pc]) == OwnedBy(s.agents) by {
      assert OwnedBy(s.agents[i := pc]) + Owns(s.agents[i]) == OwnedBy(s.agents[i := pc]);
      assert OwnedBy(s.agents) + Owns(pc) == OwnedBy(s.agents);
    }
    var s' := s.(agents := s.agents[i := pc]);
    assert Counted(c, s') && Locked(s') && AllPcsOk(c, s');
    assert Owners(s') == Owners(s);
  }

  lemma {:induction false} WakeSome(c: Config, s: State, n: nat)
    requires Sound(c, s) && n <= |s.agents|
    ensures Sound(c, s.(agents := WakeAll(s.agents)[..n] + s.agents[n..]))
  {
    hide Sound, Light;
    var woken := WakeAll(s.agents);
    if n == 0 {
      assert woken[..0] + s.agents[0..] == s.agents;
    } else {
      WakeSome(c, s, n - 1);
      var before := woken[..n - 1] + s.agents[n - 1..];
      assert woken[..n] + s.agents[n..] == before[n - 1 := woken[n - 1]];
      if s.agents[n - 1].Waiting? {
        assert Light(s.agents[n - 1]) && Light(woken[n - 1]) by { WaitersAreLight(s.agents[n - 1]); }
        LightChangeKeepsSound(c, s.(agents := before), n - 1, woken[n - 1]);
      } else {
        assert before[n - 1 := woken[n - 1]] == before;
      }
    }
  }

  lemma WaitersAreLight(pc: Pc)
    requires pc.Waiting?
    ensures Light(pc) && Light(WantLock(pc.deadline, true))
  {
  }

  lemma NotifyAllKeepsInv(c: Config, s: State, i: nat)
    requires Inv(c, s) && i < |s.agents| && s.agents[i].NotifyingAll?
    ensures Inv(c, s.(agents := WakeAll(s.agents)[i := Done]))
  {
    var woken := WakeAll(s.agents);
    assert Sound(c, s);
    WakeSome(c, s, |s.agents|);
    assert woken[..|s.agents|] + s.agents[|s.agents|..] == woken;
    LightChangeKeepsSound(c, s.(agents := woken), i, Done);
    assert !SomeoneWaits(woken[i := Done]);
  }

  lemma NotifyKeepsInv(c: Config, s: State, i: nat, w: nat)
    requires Inv(c, s) && i < |s.agents| && Notify(s, i, w).Some?
    ensures Inv(c, Notify(s, i, w).value)
  {
    hide Counted, Locked, QueueOk, AllPcsOk, Exclusive;
    var done := s.agents[i := Done];
    assert Sound(c, s);
    LightChangeKeepsSound(c, s, i, Done);
    SumUpdate(s.agents, i, Done, Heading);
    SumUpdate(s.agents, i, Done, WakesAll);
    if SomeoneWaits(s.agents) {
      var woken := WantLock(s.agents[w].deadline, true);
      assert done[w] == s.agents[w];
      LightChangeKeepsSound(c, s.(agents := done), w, woken);
      SumUpdate(done, w, woken, Heading);
      SumUpdate(done, w, woken, WakesAll);
    } else {
      if SomeoneWaits(done) {
        MoveKeepsWaiters(s.agents, i, Done);
      }
    }
  }

  lemma StartKeepsInv(c: Config, s: State, pc: Pc)
    requires Inv(c, s) && Light(pc) && !pc.Waiting?
    ensures Inv(c, s.(agents := s.agents + [pc]))
  {
    hide Light, Slots, Owns, HoldsLock, PcOk, QueueOk, Heading, WakesAll, Numbers;
    LightWeighsNothing(pc);
    LightIsOk(c, s.shared, pc);
    SumAppend(s.agents, pc, Slots);
    SumAppend(s.agents, pc, Heading);
    SumAppend(s.agents, pc, WakesAll);
    OwnedAppend(s.agents, pc);
    var all := s.agents + [pc];
    assert Owners(s.(agents := all)) == Owners(s);
    if SomeoneWaits(all) {
      var j :| 0 <= j < |all| && all[j].Waiting?;
      assert s.agents[j].Waiting?;
    }
  }

  lemma TickKeepsInv(c: Config, s: State, elapsed: nat)
    requires Inv(c, s)
    ensures Inv(c, s.(shared := s.shared.(now := s.shared.now + elapsed)))
  {
    var s' := s.(shared := s.shared.(now := s.shared.now + elapsed));
    assert Owners(s') == Owners(s);
    forall i | 0 <= i < |s.agents| ensures PcOk(c, s'.shared, s.agents[i]) {
      assert PcOk(c, s.shared, s.agents[i]);
    }
  }

  lemma NextKeepsInv(c: Config, s: State, i: nat, a: Action)
    requires Inv(c, s) && Next(c, s, i, a).Some?
    ensures Inv(c, Next(c, s, i, a).value)
  {
    hide Inv, Local;
    if a.Tick? {
      TickKeepsInv(c, s, a.elapsed);
    } else if a.StartAcquire? {
      StartKeepsInv(c, s, WantLock(s.shared.now + c.acquireTimeout, false));
    } else if a.StartAcquireForDevice? {
      StartKeepsInv(c, s, WantDevice);
    } else if a.StartClose? {
      StartKeepsInv(c, s, WantClose);
    } else if a.NotifyOne? {
      NotifyKeepsInv(c, s, i, a.waiter);
    } else if a.Go? && s.agents[i].NotifyingAll? {
      NotifyAllKeepsInv(c, s, i);
    } else {
      var moved := Local(c, i, s.shared, s.agents[i], a).value;
      MoveKeepsInv(c, s, i, a, moved.0, moved.1);
    }
  }

  lemma InitHasInv(c: Config, s: State)
    requires Init(c, s)
    ensures Inv(c, s)
  {
    var n := Numbers(s.shared.idle);
    var all: multiset<nat> := multiset(n);
    assert Owners(s) == all;
    forall id: nat ensures all[id] <= if id < c.minSize then 1 else 0 {
      CountingUp(n, id);
    }
  }

  lemma {:induction false} CountingUp(n: seq<nat>, id: nat)
    requires forall k :: 0 <= k < |n| ==> n[k] == k
    ensures var all: multiset<nat> := multiset(n); all[id] == if id < |n| then 1 else 0
  {
    if n != [] {
      var front := n[..|n| - 1];
      assert n == front + [n[|n| - 1]];
      CountingUp(front, id);
    }
  }

  /** Every run keeps the invariant: conservation, the cap, mutual exclusion, exclusive ownership and the wake-ups. */
  lemma {:induction false} EveryRunKeepsInv(c: Config, s0: State, steps: seq<Step>)
    requires Init(c, s0) && Run(c, s0, steps).Some?
    ensures Inv(c, Run(c, s0, steps).value)
  {
    hide Inv, Next;
    if steps == [] {
      InitHasInv(c, s0);
    } else {
      var last := steps[|steps| - 1];
      EveryRunKeepsInv(c, s0, steps[..|steps| - 1]);
      NextKeepsInv(c, Run(c, s0, steps[..|steps| - 1]).value, last.agent, last.action);
    }
  }
}
