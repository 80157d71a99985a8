/** The pool as one thread sees it while nobody else is at work: construction, the sweep, and each lock-held stretch. */
module Pools {
  import opened Wrappers
  import opened PoolMachine
  import opened PoolInvariants

  /** How many entries at the head of the queue have been idle too long. */
  function OverAge(c: Config, idle: seq<Entry>, now: nat): (n: nat)
    ensures n <= |idle|
  {
    if idle == [] || now - idle[0].since <= c.maxIdleTime then 0 else 1 + OverAge(c, idle[1..], now)
  }

  /** How many sessions a sweep may remove: those idle too long, but never below the minimum size. */
  function Expirable(c: Config, idle: seq<Entry>, live: int, now: nat): (k: nat)
    ensures k <= |idle|
    ensures k == 0 || live - k >= c.minSize
  {
    var room := if live > c.minSize then live - c.minSize else 0;
    var aged := OverAge(c, idle, now);
    if aged < room then aged else room
  }

  /** A sweep stops only where a session is young enough or the pool is down to its minimum size. */
  lemma ExpirableIsMost(c: Config, idle: seq<Entry>, live: int, now: nat)
    requires ByAge(idle)
    ensures var k := Expirable(c, idle, live, now);
            && (forall j :: 0 <= j < k ==> now - idle[j].since > c.maxIdleTime)
            && (k == |idle| || now - idle[k].since <= c.maxIdleTime || live - k <= c.minSize)
  {
    hide OverAge, ByAge;
    var k := Expirable(c, idle, live, now);
    forall j | 0 <= j < k ensures now - idle[j].since > c.maxIdleTime {
      OverAgeIsTheHead(c, idle, now, j);
    }
    if k < |idle| {
      OverAgeIsTheHead(c, idle, now, k);
    }
  }

  /** In a queue ordered by age, the sessions idle too long are exactly those at its head. */
  lemma {:induction false} OverAgeIsTheHead(c: Config, idle: seq<Entry>, now: nat, k: nat)
    requires ByAge(idle) && k < |idle|
    ensures now - idle[k].since > c.maxIdleTime <==> k < OverAge(c, idle, now)
  {
    if now - idle[0].since > c.maxIdleTime && k > 0 {
      OverAgeIsTheHead(c, idle[1..], now, k - 1);
    }
  }

  /** Dead entries at the head of the queue. */
  function DeadHead(idle: seq<Entry>): (n: nat)
    ensures n <= |idle|
    ensures forall k :: 0 <= k < n ==> !idle[k].open
    ensures n < |idle| ==> idle[n].open
  {
    if idle == [] || idle[0].open then 0 else 1 + DeadHead(idle[1..])
  }

  /** How one lock-held stretch of acquire ends: after a sweep that removed something it starts over. */
  datatype Turn = Closed | Again(expired: seq<nat>) | Take(session: nat) | Grow | Full

  // ---------- What the lock-held stretches amount to ----------

  /** The shared state once a sweep has run, and the sessions it removed. */
  function AfterSweeping(c: Config, sh: Shared): (Shared, seq<nat>)
  {
    var k := if sh.now - sh.lastSweep < c.sweepInterval then 0 else Expirable(c, sh.idle, sh.live, sh.now);
    var swept := sh.(lastSweep := if sh.now - sh.lastSweep < c.sweepInterval then sh.lastSweep else sh.now);
    (swept.(idle := sh.idle[k..], live := sh.live - k), Numbers(sh.idle[..k]))
  }

  /** One stretch of acquire. */
  function Passed(c: Config, sh: Shared): (Shared, Turn)
  {
    if sh.closed then (sh, Closed)
    else
      var (swept, expired) := AfterSweeping(c, sh);
      if expired != [] then (swept, Again(expired))
      else
        var turn := FirstLive(c, sh.idle, sh.live);
        (swept.(idle := sh.idle[Looked(sh.idle)..],
                live := sh.live - DeadHead(sh.idle) + if turn.Grow? then 1 else 0), turn)
  }

  /** The stretch of a release whose session is alive, the pool open. */
  function Returned(c: Config, sh: Shared, session: nat): (Shared, seq<nat>)
  {
    AfterSweeping(c, sh.(idle := sh.idle + [Entry(session, sh.now, true)]))
  }

  /** A close, its subtraction included. */
  function Drained(sh: Shared): (Shared, seq<nat>)
  {
    (sh.(closed := true, idle := [], live := sh.live - |sh.idle|), Numbers(sh.idle))
  }

  /** What `Pass` promises about the queue, the counter and the turn says the whole new state. */
  lemma PassIsPassed(c: Config, sh: Shared, after: Shared, turn: Turn)
    requires after == sh.(idle := after.idle, live := after.live, lastSweep := after.lastSweep)
    requires var gated := sh.closed || sh.now - sh.lastSweep < c.sweepInterval;
             var k := if gated then 0 else Expirable(c, sh.idle, sh.live, sh.now);
             && after.lastSweep == (if gated then sh.lastSweep else sh.now)
             && (sh.closed ==> turn == Closed && after.idle == sh.idle && after.live == sh.live)
             && (!sh.closed && k > 0 ==>
                   turn == Again(Numbers(sh.idle[..k])) && after.idle == sh.idle[k..] && after.live == sh.live - k)
             && (!sh.closed && k == 0 ==>
                   && turn == FirstLive(c, sh.idle, sh.live) && after.idle == sh.idle[Looked(sh.idle)..]
                   && after.live == sh.live - DeadHead(sh.idle) + (if turn.Grow? then 1 else 0))
    ensures (after, turn) == Passed(c, sh)
  {
    hide Expirable, DeadHead, FirstLive, Looked;
    NothingExpired(sh.idle);
  }

  class SessionPool {
    const config: Config
    var idle: seq<Entry>
    var closed: bool
    var lastSweep: nat
    var live: nat
    /** Sessions opened so far. */
    var nextSession: nat

    /** What holds with nobody inside the pool, at time `now`. */
    ghost predicate Valid(now: nat)
      reads this
    {
      && ByAge(idle)
      && (forall k :: 0 <= k < |idle| ==> idle[k].since <= now)
      && lastSweep <= now
      && |idle| <= live
    }

    /** The shared state of the step machine. */
    ghost function Snapshot(now: nat): Shared
      reads this
    {
      Shared(idle, closed, lastSweep, live, now, None, nextSession)
    }

    constructor (config: Config, now: nat)
      ensures this.config == config && idle == [] && !closed && lastSweep == now && live == 0 && nextSession == 0
    {
      this.config := config;
      idle := [];
      closed := false;
      lastSweep := now;
      live := 0;
      nextSession := 0;
    }

    /**
     Removes the sessions idle too long, oldest first, down to the minimum size, unless the last sweep was too recent.
     */
    method SweepIdle(now: nat) returns (expired: seq<nat>)
      requires Valid(now)
      modifies this`idle, this`live, this`lastSweep
      ensures Valid(now)
      ensures now - old(lastSweep) < config.sweepInterval ==>
                expired == [] && idle == old(idle) && live == old(live) && lastSweep == old(lastSweep)
      ensures now - old(lastSweep) >= config.sweepInterval ==>
                var k := Expirable(config, old(idle), old(live), now);
                && expired == Numbers(old(idle)[..k]) && idle == old(idle)[k..]
                && live == old(live) - k && lastSweep == now
      ensures old(live) >= config.minSize ==> live >= config.minSize
    {
      if now - lastSweep < config.sweepInterval {
        return [];
      }
      lastSweep := now;
      expired := [];
      hide Swept, Expirable, ByAge;
      ghost var was := idle;
      SweepStarts(config, was, live, now);
      var i := 0;
      while i < |idle|
        invariant Swept(config, was, live, now, idle, expired, i) && i <= |idle| <= |was|
        invariant live == old(live) && lastSweep == now
        decreases |idle| - i
      {
        assert |expired| <= live by { SweepEnds(config, was, live, now, idle, expired, i); }
        if live - |expired| <= config.minSize {
          break;
        }
        SweepStep(config, was, live, now, idle, expired, i);
        if now - idle[i].since > config.maxIdleTime {
          expired := expired + [idle[i].session];
          idle := RemoveAt(idle, i);
        } else {
          i := i + 1;
        }
      }
      SweepEnds(config, was, live, now, idle, expired, i);
      TailIsValid(was, |expired|);
      if expired != [] {
        live := live - |expired|;
      }
    }

    /** Takes entries off the queue until one is alive; dead ones come off the counter. */
    method PopLive() returns (session: Option<nat>)
      requires |idle| <= live
      modifies this`idle, this`live
      ensures var dead := DeadHead(old(idle));
              && live == old(live) - dead
              && if dead < |old(idle)| then session == Some(old(idle)[dead].session) && idle == old(idle)[dead + 1..]
                 else session == None && idle == []
    {
      hide DeadHead;
      ghost var queue := idle;
      ghost var j := 0;
      DeadHeadBounds(queue);
      while idle != []
        invariant j <= DeadHead(queue) <= |queue| && idle == queue[j..] && live == old(live) - j
        decreases |idle|
      {
        var entry := idle[0];
        idle := idle[1..];
        assert entry == queue[j] && idle == queue[j + 1..];
        if entry.open {
          return Some(entry.session);
        }
        live := live - 1;
        j := j + 1;
      }
      session := None;
    }

    lemma ValidLater(now: nat, later: nat)
      requires Valid(now) && now <= later
      ensures Valid(later) && ByAge(idle)
    {
    }

    /** One lock-held stretch of acquire: sweep, and if that removed nothing, look at the queue and the counter. */
    method Pass(now: nat) returns (turn: Turn)
      requires Valid(now)
      modifies this`idle, this`live, this`lastSweep
      ensures Valid(now)
      ensures lastSweep == (if old(closed) || now - old(lastSweep) < config.sweepInterval then old(lastSweep) else now)
      ensures var k := if old(closed) || now - old(lastSweep) < config.sweepInterval then 0
                       else Expirable(config, old(idle), old(live), now);
              if old(closed) then turn == Closed && idle == old(idle) && live == old(live)
              else if k > 0 then turn == Again(Numbers(old(idle)[..k])) && idle == old(idle)[k..]
                  && live == old(live) - k
              else turn == FirstLive(config, old(idle), old(live)) && !turn.Again?
                   && idle == old(idle)[Looked(old(idle))..]
                   && live == old(live) - DeadHead(old(idle)) + (if turn.Grow? then 1 else 0)
      ensures (Snapshot(now), turn) == Passed(config, old(Snapshot(now)))
    {
      hide DeadHead, Expirable, Passed, AfterSweeping;
      ghost var before := Snapshot(now);
      if closed {
        turn := Closed;
      } else {
        var expired := SweepIdle(now);
        NothingExpired(before.idle);
        if expired != [] {
          turn := Again(expired);
        } else {
          DeadHeadBounds(before.idle);
          var session := PopLive();
          TailIsValid(before.idle, |before.idle| - |idle|);
          if session.Some? {
            turn := Take(session.value);
          } else if live < config.maxSize {
            live := live + 1;
            turn := Grow;
          } else {
            turn := Full;
          }
        }
      }
      PassIsPassed(config, before, Snapshot(now), turn);
    }

    /**
     Acquire up to its wait or its open: a stretch that swept closes what it removed with the lock released and starts
     over; `times[n]` is when the n-th stretch has the lock.
     */
    method Acquire(times: nat -> nat) returns (turn: Turn, expired: seq<nat>, passes: nat)
      requires Valid(times(0)) && forall n: nat :: times(n) <= times(n + 1)
      modifies this`idle, this`live, this`lastSweep
      ensures passes > 0 && Valid(times(passes - 1)) && !turn.Again?
      ensures old(closed) ==> turn == Closed && expired == [] && idle == old(idle) && live == old(live)
      ensures |expired| <= |old(idle)| && expired == Numbers(old(idle)[..|expired|])
      ensures !old(closed) ==>
                var queue := old(idle)[|expired|..];
                && turn == FirstLive(config, queue, old(live) - |expired|)
                && idle == queue[Looked(queue)..]
                && live == old(live) - |expired| - DeadHead(queue) + (if turn.Grow? then 1 else 0)
      ensures expired != [] ==> old(live) - |expired| >= config.minSize
      ensures AgedOut(config, old(idle), |expired|, times(passes - 1))
      ensures !old(closed) && times(0) - old(lastSweep) >= config.sweepInterval ==>
                |expired| >= Expirable(config, old(idle), old(live), times(0))
    {
      hide Valid, DeadHead, Expirable, FirstLive, Looked, ByAge, AgedOut, Numbers, Gone, Snapshot, Passed,
          AfterSweeping;
      ghost var was, before := idle, live;
      ghost var due := if times(0) - lastSweep >= config.sweepInterval then Expirable(config, idle, live, times(0))
            else 0;
      expired, passes := [], 0;
      NoneGone(config, was, before, times(0));
      while true
        invariant Valid(times(passes)) && Gone(config, was, before, expired, idle, live, times(passes))
        invariant if passes == 0 then expired == [] && lastSweep == old(lastSweep) && idle == was && live == before
            else |expired| >= due
        invariant closed == old(closed) && (closed ==> expired == [])
        decreases |idle|
      {
        ghost var queue, counter := idle, live;
        ValidLater(times(passes), times(passes));
        turn := Pass(times(passes));
        passes := passes + 1;
        if !turn.Again? {
          GoneMeans(config, was, before, expired, queue, counter, times(passes - 1));
          return;
        }
        ValidLater(times(passes - 1), times(passes));
        MoreGone(config, was, before, expired, queue, counter, times(passes - 1), times(passes));
        expired := expired + turn.expired;
      }
    }

    /** A live session comes back: behind all others, unless the pool is closed, and then it is to be discarded. */
    method Return(session: nat, now: nat) returns (kept: bool, expired: seq<nat>)
      requires Valid(now) && |idle| < live
      modifies this`idle, this`live, this`lastSweep
      ensures Valid(now) && kept == !old(closed)
      ensures !kept ==> expired == [] && idle == old(idle) && live == old(live) && lastSweep == old(lastSweep)
      ensures kept ==>
                var queue := old(idle) + [Entry(session, now, true)];
                var gated := now - old(lastSweep) < config.sweepInterval;
                var k := if gated then 0 else Expirable(config, queue, old(live), now);
                && expired == Numbers(queue[..k]) && idle == queue[k..] && live == old(live) - k
                && lastSweep == if gated then old(lastSweep) else now
      ensures kept ==> (Snapshot(now), expired) == Returned(config, old(Snapshot(now)), session)
    {
      if closed {
        return false, [];
      }
      idle := idle + [Entry(session, now, true)];
      ghost var queue := idle;
      expired := SweepIdle(now);
      NothingExpired(queue);
      kept := true;
    }

    /** Closing empties the queue; what was in it is handed back to be closed. */
    method Close(now: nat) returns (drained: seq<nat>)
      requires Valid(now)
      modifies this`idle, this`live, this`closed
      ensures Valid(now) && closed && idle == []
      ensures drained == Numbers(old(idle)) && live == old(live) - |drained|
      ensures (Snapshot(now), drained) == Drained(old(Snapshot(now)))
    {
      closed := true;
      drained := Numbers(idle);
      idle := [];
      live := live - |drained|;
    }
  }

  /**
   A sweep under way: a prefix of the queue is gone, and entries are only passed over when no more of them are over age.
   */
  ghost predicate Swept(c: Config, was: seq<Entry>, live: int, now: nat, idle: seq<Entry>, expired: seq<nat>, i: nat)
  {
    && |expired| <= |was| <= live && idle == was[|expired|..] && expired == Numbers(was[..|expired|])
    && |expired| <= Expirable(c, was, live, now)
    && i <= |idle|
    && (i > 0 ==> |expired| == OverAge(c, was, now))
  }

  lemma SweepStarts(c: Config, was: seq<Entry>, live: int, now: nat)
    requires |was| <= live
    ensures Swept(c, was, live, now, was, [], 0)
  {
    NothingExpired(was);
  }

  lemma SweepStep(c: Config, was: seq<Entry>, live: int, now: nat, idle: seq<Entry>, expired: seq<nat>, i: nat)
    requires ByAge(was) && Swept(c, was, live, now, idle, expired, i)
    requires i < |idle| && live - |expired| > c.minSize
    ensures if now - idle[i].since > c.maxIdleTime then
              Swept(c, was, live, now, RemoveAt(idle, i), expired + [idle[i].session], i)
            else Swept(c, was, live, now, idle, expired, i + 1)
  {
    hide OverAge, ByAge;
    var n := |expired|;
    assert idle[i] == was[n + i];
    OverAgeIsTheHead(c, was, now, n + i);
    OverAgeIsTheHead(c, was, now, n);
    if now - idle[i].since > c.maxIdleTime {
      assert was[..n + 1] == was[..n] + [was[n]];
      assert RemoveAt(idle, 0) == was[n + 1..];
      assert Numbers(was[..n + 1]) == Numbers(was[..n]) + [was[n].session];
    }
  }

  lemma SweepEnds(c: Config, was: seq<Entry>, live: int, now: nat, idle: seq<Entry>, expired: seq<nat>, i: nat)
    requires Swept(c, was, live, now, idle, expired, i)
    ensures |expired| <= |was| <= live && idle == was[|expired|..] && expired == Numbers(was[..|expired|])
    ensures i >= |idle| || live - |expired| <= c.minSize ==> |expired| == Expirable(c, was, live, now)
    ensures Expirable(c, was, live, now) > 0 ==> live - Expirable(c, was, live, now) >= c.minSize
  {
  }

  lemma TailIsValid(idle: seq<Entry>, n: nat)
    requires ByAge(idle) && n <= |idle|
    ensures ByAge(idle[n..])
  {
  }

  /** What acquire does with a swept queue and counter. */
  function FirstLive(c: Config, queue: seq<Entry>, live: int): Turn
  {
    var dead := DeadHead(queue);
    if dead < |queue| then Take(queue[dead].session) else if live - dead < c.maxSize then Grow else Full
  }

  /**
   Acquire takes the oldest session that is alive; when none is, the dead ones have come off the counter, and it may
   grow exactly while the others stay below the maximum.
   */
  lemma FirstLiveIff(c: Config, queue: seq<Entry>, live: int)
    ensures (forall k :: 0 <= k < |queue| ==> !queue[k].open) ==>
              FirstLive(c, queue, live) == if live - |queue| < c.maxSize then Grow else Full
    ensures forall k :: 0 <= k < |queue| && queue[k].open && (forall j :: 0 <= j < k ==> !queue[j].open) ==>
              FirstLive(c, queue, live) == Take(queue[k].session) && Looked(queue) == k + 1
  {
    DeadHeadBounds(queue);
  }

  /** How many entries acquire takes off the queue: the dead ones at its head and the first live one. */
  function Looked(queue: seq<Entry>): (n: nat)
    ensures n <= |queue|
  {
    if DeadHead(queue) < |queue| then DeadHead(queue) + 1 else |queue|
  }

  /** The first `n` of these entries have been idle too long. */
  predicate AgedOut(c: Config, was: seq<Entry>, n: nat, now: nat)
  {
    n <= |was| && forall k :: 0 <= k < n ==> now - was[k].since > c.maxIdleTime
  }

  /** What sweeps so far have taken off the queue `was` and the counter `before`. */
  ghost predicate Gone(c: Config, was: seq<Entry>, before: int, expired: seq<nat>, idle: seq<Entry>, live: int,
        now: nat)
  {
    && |expired| <= |was| && expired == Numbers(was[..|expired|]) && idle == was[|expired|..]
    && live == before - |expired|
    && AgedOut(c, was, |expired|, now)
    && (expired != [] ==> live >= c.minSize)
  }

  lemma NoneGone(c: Config, was: seq<Entry>, before: int, now: nat)
    ensures Gone(c, was, before, [], was, before, now)
  {
    NothingExpired(was);
  }

  lemma GoneMeans(c: Config, was: seq<Entry>, before: int, expired: seq<nat>, idle: seq<Entry>, live: int, now: nat)
    requires Gone(c, was, before, expired, idle, live, now)
    ensures |expired| <= |was| && expired == Numbers(was[..|expired|]) && idle == was[|expired|..]
    ensures live == before - |expired| && AgedOut(c, was, |expired|, now) && (expired != [] ==> live >= c.minSize)
  {
  }

  /** One more sweep of what earlier ones left. */
  lemma MoreGone(c: Config, was: seq<Entry>, before: int, expired: seq<nat>, idle: seq<Entry>, live: int, now: nat,
        later: nat)
    requires Gone(c, was, before, expired, idle, live, now) && ByAge(idle) && now <= later
    requires Expirable(c, idle, live, now) > 0
    ensures var k := Expirable(c, idle, live, now);
            Gone(c, was, before, expired + Numbers(idle[..k]), idle[k..], live - k, later)
  {
    hide ByAge;
    var n, k := |expired|, Expirable(c, idle, live, now);
    forall j | n <= j < n + k ensures now - was[j].since > c.maxIdleTime {
      OverAgeIsTheHead(c, idle, now, j - n);
      assert idle[j - n] == was[j];
    }
    assert was[..n] + idle[..k] == was[..n + k];
    assert idle[k..] == was[n + k..];
  }

  lemma DeadHeadBounds(idle: seq<Entry>)
    ensures DeadHead(idle) <= |idle|
    ensures forall k :: 0 <= k < DeadHead(idle) ==> !idle[k].open
    ensures DeadHead(idle) < |idle| ==> idle[DeadHead(idle)].open
  {
  }

  lemma NothingExpired(idle: seq<Entry>)
    ensures Numbers(idle[..0]) == [] && idle[0..] == idle
  {
  }

  /**
   A new pool with its minimum of sessions, opened one after the other; `opens[n]` is what the n-th open returns and
   `times[n]` when. A pool whose minimum exceeds its maximum, or whose sessions cannot be opened, is not built.
   */
  method New(c: Config, opens: nat -> Result<()>, times: nat -> nat, now: nat) returns (r: Result<SessionPool>)
    requires forall n: nat :: now <= times(n) <= times(n + 1)
    ensures r.Failure? <==> c.minSize > c.maxSize || exists n: nat :: n < c.minSize && opens(n).Failure?
    ensures c.minSize > c.maxSize ==> r == Failure(Client(MinAboveMax))
    ensures r.Success? ==>
              fresh(r.value) && r.value.config == c
              && Init(c, State(r.value.Snapshot(times(c.minSize)), []))
  {
    if c.minSize > c.maxSize {
      return Failure(Client(MinAboveMax));
    }
    var pool := new SessionPool(c, now);
    for n := 0 to c.minSize
      invariant fresh(pool) && pool.config == c && |pool.idle| == pool.live == pool.nextSession == n
      invariant forall k :: 0 <= k < n ==>
                pool.idle[k].session == k && pool.idle[k].open
                && pool.idle[k].since <= times(n)
      invariant ByAge(pool.idle) && !pool.closed && pool.lastSweep == now <= times(n)
      invariant forall k: nat :: k < n ==> opens(k).Success?
    {
      var session := opens(n);
      if session.Failure? {
        return Failure(session.error);
      }
      pool.idle := pool.idle + [Entry(pool.nextSession, times(n), true)];
      pool.nextSession := pool.nextSession + 1;
      pool.live := pool.live + 1;
      assert times(n) <= times(n + 1);
    }
    r := Success(pool);
  }

  // ---------- The sweep of the step machine ----------

  /** What a thread gets to by `n` steps of its own. */
  function Alone(c: Config, i: nat, sh: Shared, pc: Pc, n: nat): Option<(Shared, Pc)>
    decreases n
  {
    if n == 0 then Some((sh, pc))
    else
      match Proceed(c, i, sh, pc)
      case None => None
      case Some((sh1, pc1)) => Alone(c, i, sh1, pc1, n - 1)
  }

  lemma OneStepAlone(c: Config, i: nat, sh: Shared, pc: Pc, sh1: Shared, pc1: Pc, n: nat)
    requires Proceed(c, i, sh, pc) == Some((sh1, pc1))
    ensures Alone(c, i, sh, pc, n + 1) == Alone(c, i, sh1, pc1, n)
    ensures Alone(c, i, sh1, pc1, 0) == Some((sh1, pc1))
  {
  }

  /** Where a sweep with nobody interfering ends. */
  function SweepResult(c: Config, i: nat, sh: Shared, who: Sweeper, now: nat): (Shared, Pc)
  {
    var k := Expirable(c, sh.idle, sh.live, now);
    if k == 0 then AfterSweep(i, sh, who) else (sh.(idle := sh.idle[k..]), Subtracting(who, Numbers(sh.idle[..k])))
  }

  lemma {:induction false} SweepAloneFrom(c: Config, i: nat, sh0: Shared, who: Sweeper, at: nat, expired: seq<nat>,
        now: nat)
      returns (n: nat)
    requires ByAge(sh0.idle) && |expired| <= |sh0.idle|
    requires Swept(c, sh0.idle, sh0.live, now, sh0.idle[|expired|..], expired, at)
    ensures Alone(c, i, sh0.(idle := sh0.idle[|expired|..]), Sweeping(who, at, expired, now), n)
            == Some(SweepResult(c, i, sh0, who, now))
    decreases |sh0.idle| - |expired| - at
  {
    hide Swept, Expirable, ByAge, RemoveAt, AfterSweep, Alone;
    var was := sh0.idle;
    var sh := sh0.(idle := was[|expired|..]);
    SweepEnds(c, was, sh0.live, now, sh.idle, expired, at);
    if at < |sh.idle| && sh0.live - |expired| > c.minSize {
      SweepStep(c, was, sh0.live, now, sh.idle, expired, at);
      if now - sh.idle[at].since > c.maxIdleTime {
        SweepEnds(c, was, sh0.live, now, RemoveAt(sh.idle, at), expired + [sh.idle[at].session], at);
        var m := SweepAloneFrom(c, i, sh0, who, at, expired + [sh.idle[at].session], now);
        assert RemoveAt(sh.idle, at) == was[|expired| + 1..];
        OneStepAlone(c, i, sh, Sweeping(who, at, expired, now), sh0.(idle := was[|expired| + 1..]),
                     Sweeping(who, at, expired + [sh.idle[at].session], now), m);
        n := m + 1;
      } else {
        var m := SweepAloneFrom(c, i, sh0, who, at + 1, expired, now);
        OneStepAlone(c, i, sh, Sweeping(who, at, expired, now), sh, Sweeping(who, at + 1, expired, now), m);
        n := m + 1;
      }
    } else {
      n := 1;
      if expired == [] {
        NothingExpired(was);
        assert sh == sh0;
      }
      var (sh1, pc1) := SweepResult(c, i, sh0, who, now);
      OneStepAlone(c, i, sh, Sweeping(who, at, expired, now), sh1, pc1, 0);
    }
  }

  /**
   An ungated sweep that no other thread interferes with removes exactly the oldest sessions, as many as are over age
   but never going below the minimum size, and leaves the others in order.
   */
  lemma SweepAlone(c: Config, i: nat, sh: Shared, who: Sweeper) returns (n: nat)
    requires ByAge(sh.idle) && |sh.idle| <= sh.live
    ensures Alone(c, i, sh, Sweeping(who, 0, [], sh.now), n) == Some(SweepResult(c, i, sh, who, sh.now))
  {
    SweepStarts(c, sh.idle, sh.live, sh.now);
    NothingExpired(sh.idle);
    n := SweepAloneFrom(c, i, sh, who, 0, [], sh.now);
    assert sh.(idle := sh.idle[0..]) == sh;
  }
}
