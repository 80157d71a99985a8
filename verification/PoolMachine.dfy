/**
 The session pool as a step machine. Every thread has a program counter; each atomic access to the counter
 `live`, and each stretch of lock-held code without one, is a step of its own, so threads interleave as finely
 as they can in the program. A run is any sequence of steps by any threads.
 */
module PoolMachine {
  import opened Wrappers

  datatype Config = Config(maxSize: nat, minSize: nat, acquireTimeout: nat, maxIdleTime: nat, sweepInterval: nat)

  /** A session is known by the number it got when it was opened. */
  datatype Entry = Entry(session: nat, since: nat, open: bool)

  /** What all threads share: the state behind the mutex, the atomic counter, the clock and the mutex itself. */
  datatype Shared = Shared(
    idle: seq<Entry>,
    closed: bool,
    lastSweep: nat,
    live: int,
    now: nat,
    lock: Option<nat>,
    nextSession: nat)

  /** Who sweeps: an acquire, woken from a wait or not, or a release that has pushed its session. */
  datatype Sweeper = Acquirer(deadline: nat, woken: bool) | Releaser

  datatype Pc =
    // acquire
    | WantDevice
    | WantLock(deadline: nat, woken: bool)
    | Sweeping(who: Sweeper, at: nat, expired: seq<nat>, started: nat)
    | Subtracting(who: Sweeper, expired: seq<nat>)
    | ClosingExpired(who: Sweeper, expired: seq<nat>)
    | Popping(deadline: nat, woken: bool)
    | PoppedDead(deadline: nat, woken: bool)
    | CheckingCapacity(deadline: nat, woken: bool)
    | Growing
    | AtCapacity(deadline: nat, seen: int)
    | Waiting(deadline: nat)
    | Opening
    | HandingOut(session: nat)
    | Holding(session: nat)
    | Exhausted(seen: int)
    // release
    | WantRelease(session: nat)
    | Discarding(count: nat, all: bool)
    | Notifying(pushed: bool)
    | NotifyingAll
    // close
    | WantClose
    | Done

  datatype State = State(shared: Shared, agents: seq<Pc>)

  /** What the environment decides about a step. */
  datatype Action =
    | Tick(elapsed: nat)       // time passes
    | StartAcquire             // a thread calls acquire
    | StartAcquireForDevice
    | StartClose
    | Go                       // the only thing the thread can do next
    | Succeed                  // the RPC in progress succeeds
    | Fail
    | DropGuard(open: bool)    // the guard goes out of scope, its session alive or dead
    | TakeAt(pos: nat)         // the idle session at the hinted endpoint
    | Wake                     // a wait times out, or ends spuriously
    | NotifyOne(waiter: nat)

  /** `remove(at)` on the queue. */
  function RemoveAt<T>(s: seq<T>, at: nat): (r: seq<T>)
    requires at < |s|
    ensures |r| == |s| - 1
  {
    s[..at] + s[at + 1..]
  }

  /** The sweep's gate: a sweep starts once the interval has passed, else the caller goes on. */
  function EnterSweep(c: Config, i: nat, sh: Shared, who: Sweeper): (Shared, Pc)
  {
    if sh.now - sh.lastSweep < c.sweepInterval then AfterSweep(i, sh, who)
    else (sh.(lock := Some(i), lastSweep := sh.now), Sweeping(who, 0, [], sh.now))
  }

  /** Nothing expired: an acquire keeps the lock and looks at the queue, a release unlocks and notifies. */
  function AfterSweep(i: nat, sh: Shared, who: Sweeper): (Shared, Pc)
  {
    match who
    case Acquirer(deadline, woken) => (sh.(lock := Some(i)), Popping(deadline, woken))
    case Releaser => (sh.(lock := None), Notifying(true))
  }

  /** One iteration of the sweep loop. */
  function SweepOnce(c: Config, i: nat, sh: Shared, who: Sweeper, at: nat, expired: seq<nat>, started: nat)
    : (Shared, Pc)
  {
    if at < |sh.idle| && sh.live - |expired| > c.minSize then
      var entry := sh.idle[at];
      if started - entry.since > c.maxIdleTime then
        (sh.(idle := RemoveAt(sh.idle, at)), Sweeping(who, at, expired + [entry.session], started))
      else (sh, Sweeping(who, at + 1, expired, started))
    else if expired == [] then AfterSweep(i, sh, who)
    else (sh, Subtracting(who, expired))
  }

  /** The steps with only one outcome. */
  function Proceed(c: Config, i: nat, sh: Shared, pc: Pc): Option<(Shared, Pc)>
  {
    match pc
    case WantDevice => Some((sh, WantLock(sh.now + c.acquireTimeout, false)))
    case WantLock(deadline, woken) =>
      if sh.lock.Some? then None
      else if sh.closed then Some((sh, Done))
      else Some(EnterSweep(c, i, sh, Acquirer(deadline, woken)))
    case Sweeping(who, at, expired, started) => Some(SweepOnce(c, i, sh, who, at, expired, started))
    case Subtracting(who, expired) =>
      Some((sh.(live := sh.live - |expired|, lock := None), ClosingExpired(who, expired)))
    case ClosingExpired(who, expired) =>
      Some((sh, match who case Acquirer(deadline, woken) => WantLock(deadline, woken) case Releaser => Notifying(true)))
    case Popping(deadline, woken) =>
      if sh.idle == [] then Some((sh, CheckingCapacity(deadline, woken)))
      else if sh.idle[0].open then Some((sh.(idle := sh.idle[1..], lock := None), HandingOut(sh.idle[0].session)))
      else Some((sh.(idle := sh.idle[1..]), PoppedDead(deadline, woken)))
    case PoppedDead(deadline, woken) => Some((sh.(live := sh.live - 1), Popping(deadline, woken)))
    case CheckingCapacity(deadline, woken) =>
      if sh.live < c.maxSize then Some((sh, Growing)) else Some((sh, AtCapacity(deadline, sh.live)))
    case Growing => Some((sh.(live := sh.live + 1, lock := None), Opening))
    case AtCapacity(deadline, seen) =>
      Some((sh.(lock := None), if sh.now >= deadline then Exhausted(seen) else Waiting(deadline)))
    case WantRelease(session) =>
      if sh.lock.Some? then None
      else if sh.closed then Some((sh, Discarding(1, false)))
      else Some(EnterSweep(c, i, sh.(idle := sh.idle + [Entry(session, sh.now, true)]), Releaser))
    case Discarding(count, all) =>
      Some((sh.(live := sh.live - count), if all then NotifyingAll else Notifying(false)))
    case WantClose =>
      if sh.lock.Some? then None else Some((sh.(closed := true, idle := []), Discarding(|sh.idle|, true)))
    case _ => None
  }

  /** A step that touches only the shared state and the thread's own program counter. */
  function Local(c: Config, i: nat, sh: Shared, pc: Pc, a: Action): Option<(Shared, Pc)>
  {
    match a
    case Go => Proceed(c, i, sh, pc)
    case Succeed =>
      (match pc
       case Opening => Some((sh.(nextSession := sh.nextSession + 1), HandingOut(sh.nextSession)))
       case HandingOut(session) => Some((sh, Holding(session)))
       case _ => None)
    case Fail => if pc.Opening? || pc.HandingOut? then Some((sh, Discarding(1, false))) else None
    case DropGuard(open) =>
      if pc.Holding? then Some((sh, if open then WantRelease(pc.session) else Discarding(1, false))) else None
    case TakeAt(pos) =>
      if pc.WantDevice? && sh.lock.None? && !sh.closed && pos < |sh.idle| && sh.idle[pos].open then
        Some((sh.(idle := RemoveAt(sh.idle, pos)), HandingOut(sh.idle[pos].session)))
      else None
    case Wake => if pc.Waiting? then Some((sh, WantLock(pc.deadline, true))) else None
    case _ => None
  }

  predicate SomeoneWaits(agents: seq<Pc>)
  {
    exists j :: 0 <= j < |agents| && agents[j].Waiting?
  }

  function WakeAll(agents: seq<Pc>): (r: seq<Pc>)
    ensures |r| == |agents|
    ensures forall j :: 0 <= j < |agents| ==>
              r[j] == if agents[j].Waiting? then WantLock(agents[j].deadline, true) else agents[j]
  {
    seq(|agents|, j requires 0 <= j < |agents| => if agents[j].Waiting? then WantLock(agents[j].deadline, true)
        else agents[j])
  }

  function Move(s: State, i: nat, moved: Option<(Shared, Pc)>): Option<State>
    requires i < |s.agents|
  {
    match moved
    case None => None
    case Some((sh, pc)) => Some(State(sh, s.agents[i := pc]))
  }

  /** The condition variable wakes one waiter of its choice; with nobody waiting the notification is lost. */
  function Notify(s: State, i: nat, w: nat): Option<State>
    requires i < |s.agents|
  {
    if !s.agents[i].Notifying? then None
    else if !SomeoneWaits(s.agents) then Some(s.(agents := s.agents[i := Done]))
    else if w < |s.agents| && s.agents[w].Waiting? then
      Some(s.(agents := s.agents[i := Done][w := WantLock(s.agents[w].deadline, true)]))
    else None
  }

  /** The state after thread `i` takes a step, `None` when it cannot. */
  function Next(c: Config, s: State, i: nat, a: Action): Option<State>
  {
    if a.Tick? then Some(s.(shared := s.shared.(now := s.shared.now + a.elapsed)))
    else if a.StartAcquire? then Some(s.(agents := s.agents + [WantLock(s.shared.now + c.acquireTimeout, false)]))
    else if a.StartAcquireForDevice? then Some(s.(agents := s.agents + [WantDevice]))
    else if a.StartClose? then Some(s.(agents := s.agents + [WantClose]))
    else if i >= |s.agents| then None
    else if a.NotifyOne? then Notify(s, i, a.waiter)
    else if a.Go? && s.agents[i].NotifyingAll? then Some(s.(agents := WakeAll(s.agents)[i := Done]))
    else Move(s, i, Local(c, i, s.shared, s.agents[i], a))
  }

  /** A pool just built: `min_size` open sessions, nobody at work. */
  predicate Init(c: Config, s: State)
  {
    var sh := s.shared;
    && c.minSize <= c.maxSize
    && s.agents == []
    && |sh.idle| == c.minSize == sh.live
    && (forall k :: 0 <= k < |sh.idle| ==> sh.idle[k].session == k && sh.idle[k].open && sh.idle[k].since <= sh.now)
    && (forall k, l :: 0 <= k < l < |sh.idle| ==> sh.idle[k].since <= sh.idle[l].since)
    && sh.nextSession == c.minSize
    && !sh.closed && sh.lock == None && sh.lastSweep <= sh.now
  }

  datatype Step = Step(agent: nat, action: Action)

  /** The state after a whole run. */
  function Run(c: Config, s0: State, steps: seq<Step>): Option<State>
  {
    if steps == [] then Some(s0)
    else
      match Run(c, s0, steps[..|steps| - 1])
      case None => None
      case Some(s) => Next(c, s, steps[|steps| - 1].agent, steps[|steps| - 1].action)
  }
}
