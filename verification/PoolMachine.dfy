/**
 The connection pool as a monitor on values: one event for each stretch of code that runs under the
 pool's mutex, by any number of threads, the reaper and the clock.
 */
module PoolMachine {
  import opened Text

  type Conn = nat
  type Thread = nat

  const IDLE_LIMIT := 60

  /** `DBPool`. `lastUsed` holds `m_last_used` of every connection object. */
  datatype Pool = Pool(
    all: seq<Conn>, available: seq<Conn>, maxConnections: nat,
    numConnections: int, numAvailable: int, lastUsed: map<Conn, int>)

  function EmptyPool(maxConnections: nat): Pool {
    Pool([], [], maxConnections, 0, 0, map[])
  }

  predicate CanGrow(p: Pool) {
    p.numAvailable == 0 && p.numConnections < p.maxConnections
  }

  function Grow(p: Pool, c: Conn): Pool {
    p.(all := p.all + [c], numConnections := p.numConnections + 1)
  }

  function Touch(p: Pool, c: Conn, now: int): Pool {
    p.(lastUsed := p.lastUsed[c := now])
  }

  function PopFront(p: Pool): Pool
    requires p.available != []
  {
    p.(available := p.available[1..], numAvailable := p.numAvailable - 1)
  }

  function PushBack(p: Pool, c: Conn): Pool {
    p.(available := p.available + [c], numAvailable := p.numAvailable + 1)
  }

  predicate Idle(p: Pool, c: Conn, now: int) {
    c in p.lastUsed && now - p.lastUsed[c] >= IDLE_LIMIT
  }

  /** The position at which the reaper's scan stops. */
  function FirstIdle(p: Pool, available: seq<Conn>, now: int): (i: nat)
    ensures i <= |available|
    ensures forall j :: 0 <= j < i ==> !Idle(p, available[j], now)
    ensures i < |available| ==> Idle(p, available[i], now)
  {
    if available == [] || Idle(p, available[0], now) then 0 else 1 + FirstIdle(p, available[1..], now)
  }

  function Remove(p: Pool, i: nat): Pool
    requires i < |p.available|
  {
    p.(available := p.available[..i] + p.available[i + 1..],
       numConnections := p.numConnections - 1, numAvailable := p.numAvailable - 1)
  }

  /** The reaper's visit: at most one connection leaves, and `m_all_connections` is not told. */
  function Swept(p: Pool, now: int): Pool {
    var i := FirstIdle(p, p.available, now);
    if i == |p.available| then p else Remove(p, i)
  }

  /**
   The pool among its threads: who holds what, who waits, who has been woken but not yet run, and one
   entry in `deleted` for every `delete` of a connection object.
   */
  datatype System = System(
    pool: Pool, held: set<(Thread, Conn)>, waiting: set<Thread>, woken: set<Thread>,
    deleted: multiset<Conn>, clock: int)

  function Start(maxConnections: nat): System {
    System(EmptyPool(maxConnections), {}, {}, {}, multiset{}, 0)
  }

  datatype Event =
    | Get(t: Thread, made: Conn)
    | Resume(t: Thread)
    | Put(t: Thread, c: Conn, wakes: Option<Thread>)
    | Spurious(t: Thread)
    | Sweep(now: int)
    | Tick(elapsed: nat)

  /**
   `recheck`: whether a woken thread tests the list again (`while`) or not (`if`, as written).
   `spurious`: whether a wait may return without a signal.
   `threads`: with `Some(n)`, threads 0..n take at most one connection each, like server workers.
   */
  datatype Rules = Rules(recheck: bool, spurious: bool, threads: Option<nat>)

  ghost predicate Blocked(s: System, t: Thread) {
    t in s.waiting || t in s.woken
  }

  ghost predicate Holds(s: System, t: Thread) {
    exists c :: (t, c) in s.held
  }

  ghost predicate Enabled(s: System, rules: Rules, e: Event) {
    match e
    case Get(t, made) =>
      && !Blocked(s, t) && made !in s.pool.all
      && (rules.threads.Some? ==> t < rules.threads.value && !Holds(s, t))
    case Resume(t) => t in s.woken
    case Put(t, c, wakes) =>
      && (t, c) in s.held && !Blocked(s, t)
      && (wakes.None? <==> s.waiting == {}) && (wakes.Some? ==> wakes.value in s.waiting)
    case Spurious(t) => rules.spurious && t in s.waiting
    case Sweep(now) => now <= s.clock
    case Tick(_) => true
  }

  datatype Outcome = Going(s: System) | PoppedEmpty | NotARun

  function Take(s: System, t: Thread): System
    requires s.pool.available != []
  {
    var c := s.pool.available[0];
    s.(pool := Touch(PopFront(s.pool), c, s.clock), held := s.held + {(t, c)})
  }

  function Next(s: System, recheck: bool, e: Event): Outcome {
    match e
    case Get(t, made) =>
      if CanGrow(s.pool) then
        Going(s.(pool := Touch(Grow(s.pool, made), made, s.clock), held := s.held + {(t, made)}))
      else if s.pool.available == [] then Going(s.(waiting := s.waiting + {t}))
      else Going(Take(s, t))
    case Resume(t) =>
      if s.pool.available != [] then Going(Take(s.(woken := s.woken - {t}), t))
      else if recheck then Going(s.(woken := s.woken - {t}, waiting := s.waiting + {t}))
      else PoppedEmpty
    case Put(t, c, wakes) =>
      var awake := if wakes.Some? then {wakes.value} else {};
      Going(s.(pool := Touch(PushBack(s.pool, c), c, s.clock), held := s.held - {(t, c)},
               waiting := s.waiting - awake, woken := s.woken + awake))
    case Spurious(t) => Going(s.(waiting := s.waiting - {t}, woken := s.woken + {t}))
    case Sweep(now) =>
      var i := FirstIdle(s.pool, s.pool.available, now);
      Going(s.(pool := Swept(s.pool, now),
               deleted := if i < |s.pool.available| then s.deleted + multiset{s.pool.available[i]} else s.deleted))
    case Tick(elapsed) => Going(s.(clock := s.clock + elapsed))
  }

  /** A run: `PoppedEmpty` when it ends in a pop from the empty list, which C++ leaves undefined. */
  ghost function Execute(s: System, rules: Rules, es: seq<Event>): Outcome
    decreases |es|
  {
    if es == [] then Going(s)
    else if !Enabled(s, rules, es[0]) then NotARun
    else
      match Next(s, rules.recheck, es[0])
      case Going(s') => Execute(s', rules, es[1..])
      case PoppedEmpty => if |es| == 1 then PoppedEmpty else NotARun
      case NotARun => NotARun
  }

  lemma ExecuteStep(s: System, rules: Rules, es: seq<Event>, s': System)
    requires es != [] && Enabled(s, rules, es[0]) && Next(s, rules.recheck, es[0]) == Going(s')
    ensures Execute(s, rules, es) == Execute(s', rules, es[1..])
  {
  }

  lemma {:induction false} ExecuteAppend(s: System, rules: Rules, a: seq<Event>, b: seq<Event>)
    requires Execute(s, rules, a).Going?
    ensures Execute(s, rules, a + b) == Execute(Execute(s, rules, a).s, rules, b)
    decreases |a|
  {
    if a == [] {
      assert a + b == b;
    } else {
      assert (a + b)[1..] == a[1..] + b;
      ExecuteAppend(Next(s, rules.recheck, a[0]).s, rules, a[1..], b);
    }
  }

  // ----- what every step keeps

  predicate Distinct(cs: seq<Conn>) {
    forall i, j :: 0 <= i < j < |cs| ==> cs[i] != cs[j]
  }

  ghost predicate OneHolder(held: set<(Thread, Conn)>) {
    forall h, h' :: h in held && h' in held && h.1 == h'.1 ==> h == h'
  }

  ghost predicate IsHeld(s: System, c: Conn) {
    exists h :: h in s.held && h.1 == c
  }

  ghost predicate Counted(s: System) {
    && s.pool.numAvailable == |s.pool.available|
    && s.pool.numConnections == |s.pool.available| + |s.held|
    && s.pool.numConnections <= s.pool.maxConnections
  }

  /** Every connection ever made is in exactly one place: available, with its one holder, or deleted once. */
  ghost predicate Placed(s: System) {
    && Distinct(s.pool.all) && Distinct(s.pool.available) && OneHolder(s.held)
    && (forall c :: c in s.pool.all <==> c in s.pool.available || IsHeld(s, c) || c in s.deleted)
    && (forall c :: c in s.pool.available ==> !IsHeld(s, c) && c !in s.deleted)
    && (forall c :: c in s.deleted ==> s.deleted[c] == 1 && !IsHeld(s, c))
  }

  /** The available list is sorted by last use, and nothing was used in the future. */
  ghost predicate OldestFirst(s: System) {
    && (forall i :: 0 <= i < |s.pool.available| ==>
          s.pool.available[i] in s.pool.lastUsed && s.pool.lastUsed[s.pool.available[i]] <= s.clock)
    && (forall i, j :: 0 <= i < j < |s.pool.available| ==>
          s.pool.lastUsed[s.pool.available[i]] <= s.pool.lastUsed[s.pool.available[j]])
  }

  ghost predicate Inv(s: System) {
    Counted(s) && Placed(s) && OldestFirst(s) && s.waiting !! s.woken
  }

  lemma StepKeepsCounts(s: System, rules: Rules, e: Event)
    requires Inv(s) && Enabled(s, rules, e) && Next(s, rules.recheck, e).Going?
    ensures Counted(Next(s, rules.recheck, e).s)
  {
    match e {
      case Get(t, made) =>
        if CanGrow(s.pool) {
          assert !IsHeld(s, made);
          assert (t, made) !in s.held;
        } else if s.pool.available != [] {
          assert !IsHeld(s, s.pool.available[0]);
          assert (t, s.pool.available[0]) !in s.held;
        }
      case Resume(t) =>
        if s.pool.available != [] {
          assert !IsHeld(s, s.pool.available[0]);
          assert (t, s.pool.available[0]) !in s.held;
        }
      case _ =>
    }
  }

  lemma TakeKeepsPlaces(s: System, t: Thread)
    requires Placed(s) && OldestFirst(s) && s.pool.available != []
    ensures Placed(Take(s, t)) && OldestFirst(Take(s, t))
  {
    var s', c := Take(s, t), s.pool.available[0];
    assert s.pool.available == [c] + s'.pool.available;
    assert c in s.pool.available && !IsHeld(s, c);
    forall d ensures IsHeld(s', d) <==> IsHeld(s, d) || d == c {
      assert (t, c) in s'.held;
      if IsHeld(s, d) {
        var h :| h in s.held && h.1 == d;
        assert h in s'.held;
      }
    }
    assert c !in s'.pool.available;
  }

  lemma GrowKeepsPlaces(s: System, t: Thread, made: Conn)
    requires Placed(s) && OldestFirst(s) && made !in s.pool.all
    ensures var s' := s.(pool := Touch(Grow(s.pool, made), made, s.clock), held := s.held + {(t, made)});
            Placed(s') && OldestFirst(s')
  {
    var s' := s.(pool := Touch(Grow(s.pool, made), made, s.clock), held := s.held + {(t, made)});
    forall d ensures IsHeld(s', d) <==> IsHeld(s, d) || d == made {
      assert (t, made) in s'.held;
      if IsHeld(s, d) {
        var h :| h in s.held && h.1 == d;
        assert h in s'.held;
      }
    }
  }

  lemma PutKeepsPlaces(s: System, t: Thread, c: Conn)
    requires Placed(s) && OldestFirst(s) && (t, c) in s.held
    ensures var s' := s.(pool := Touch(PushBack(s.pool, c), c, s.clock), held := s.held - {(t, c)});
            Placed(s') && OldestFirst(s')
  {
    var s' := s.(pool := Touch(PushBack(s.pool, c), c, s.clock), held := s.held - {(t, c)});
    assert IsHeld(s, c);
    forall d ensures IsHeld(s', d) <==> IsHeld(s, d) && d != c {
      if IsHeld(s, d) && d != c {
        var h :| h in s.held && h.1 == d;
        assert h in s'.held;
      }
    }
    assert c !in s.pool.available;
  }

  lemma RemoveOne(a: seq<Conn>, i: nat)
    requires Distinct(a) && i < |a|
    ensures var r := a[..i] + a[i + 1..];
            && Distinct(r) && a[i] !in r && (forall c :: c in a <==> c in r || c == a[i])
            && forall k :: 0 <= k < |r| ==> r[k] == a[if k < i then k else k + 1]
  {
    var r := a[..i] + a[i + 1..];
    assert forall k :: 0 <= k < |r| ==> r[k] == a[if k < i then k else k + 1];
    assert a == a[..i] + [a[i]] + a[i + 1..];
  }

  lemma SweepKeepsPlaces(s: System, now: int)
    requires Inv(s)
    ensures var s' := Next(s, true, Sweep(now)).s;
            Placed(s') && OldestFirst(s')
  {
    var s' := Next(s, true, Sweep(now)).s;
    var i := FirstIdle(s.pool, s.pool.available, now);
    assert forall c :: IsHeld(s', c) <==> IsHeld(s, c);
    if i < |s.pool.available| {
      RemoveOne(s.pool.available, i);
    }
  }

  lemma SamePlaces(s: System, s': System)
    requires s'.pool == s.pool && s'.held == s.held && s'.deleted == s.deleted && s'.clock >= s.clock
    requires Placed(s) && OldestFirst(s)
    ensures Placed(s') && OldestFirst(s')
  {
    assert forall c :: IsHeld(s', c) <==> IsHeld(s, c);
  }

  /** Every step keeps the invariant, under any rules. */
  lemma StepKeepsInv(s: System, rules: Rules, e: Event)
    requires Inv(s) && Enabled(s, rules, e) && Next(s, rules.recheck, e).Going?
    ensures Inv(Next(s, rules.recheck, e).s)
  {
    StepKeepsCounts(s, rules, e);
    var s' := Next(s, rules.recheck, e).s;
    match e {
      case Get(t, made) =>
        if CanGrow(s.pool) {
          GrowKeepsPlaces(s, t, made);
        } else if s.pool.available != [] {
          TakeKeepsPlaces(s, t);
        } else {
          SamePlaces(s, s');
        }
      case Resume(t) =>
        if s.pool.available != [] {
          SamePlaces(s, s.(woken := s.woken - {t}));
          TakeKeepsPlaces(s.(woken := s.woken - {t}), t);
        } else {
          SamePlaces(s, s');
        }
      case Put(t, c, wakes) =>
        PutKeepsPlaces(s, t, c);
        SamePlaces(s.(pool := s'.pool, held := s'.held), s');
      case Spurious(t) => SamePlaces(s, s');
      case Sweep(now) => SweepKeepsPlaces(s, now);
      case Tick(_) => SamePlaces(s, s');
    }
  }

  lemma {:induction false} RunKeepsInv(s: System, rules: Rules, es: seq<Event>)
    requires Inv(s) && Execute(s, rules, es).Going?
    ensures Inv(Execute(s, rules, es).s)
    decreases |es|
  {
    if es != [] {
      StepKeepsInv(s, rules, es[0]);
      RunKeepsInv(Next(s, rules.recheck, es[0]).s, rules, es[1..]);
    }
  }

  /** All runs of the pool, as written or with the re-check, keep the invariant. */
  lemma EveryRunKeepsInv(maxConnections: nat, rules: Rules, es: seq<Event>)
    requires Execute(Start(maxConnections), rules, es).Going?
    ensures Inv(Execute(Start(maxConnections), rules, es).s)
  {
    assert Inv(Start(maxConnections));
    RunKeepsInv(Start(maxConnections), rules, es);
  }

  // ----- what `get` does

  /** A connection that is available is taken before one is made: the oldest, and the pool makes none. */
  lemma GetTakesOldest(s: System, t: Thread, made: Conn, recheck: bool)
    requires Inv(s) && s.pool.available != []
    ensures var p, c := s.pool, s.pool.available[0];
            Next(s, recheck, Get(t, made)) == Going(s.(
              pool := p.(available := p.available[1..], numAvailable := |p.available| - 1,
                         lastUsed := p.lastUsed[c := s.clock]),
              held := s.held + {(t, c)}))
  {
  }

  /** One is made for the thread exactly when none is available and fewer are held than there may be. */
  lemma GetMakesOrWaits(s: System, t: Thread, made: Conn, recheck: bool)
    requires Inv(s) && s.pool.available == []
    ensures Next(s, recheck, Get(t, made)) == Going(
              if |s.held| < s.pool.maxConnections then
                s.(pool := s.pool.(all := s.pool.all + [made], numConnections := |s.held| + 1,
                                   lastUsed := s.pool.lastUsed[made := s.clock]),
                   held := s.held + {(t, made)})
              else s.(waiting := s.waiting + {t}))
  {
  }

  /** The most connections held at once in a run. */
  ghost function Peak(s: System, rules: Rules, es: seq<Event>): nat
    decreases |es|
  {
    if es == [] || !Next(s, rules.recheck, es[0]).Going? then |s.held|
    else
      var later := Peak(Next(s, rules.recheck, es[0]).s, rules, es[1..]);
      if later > |s.held| then later else |s.held|
  }

  lemma StepTowardsPeak(s: System, rules: Rules, e: Event)
    requires Inv(s) && s.deleted == multiset{} && |s.pool.all| == s.pool.numConnections
    requires Enabled(s, rules, e) && Next(s, rules.recheck, e).Going? && !e.Sweep?
    ensures var s' := Next(s, rules.recheck, e).s;
            && s'.deleted == multiset{} && |s'.pool.all| == s'.pool.numConnections
            && (|s'.pool.all| == |s.pool.all| || |s'.held| == |s'.pool.all| > |s.pool.all|)
  {
    StepKeepsInv(s, rules, e);
    match e {
      case Get(t, made) =>
        if s.pool.available != [] {
          GetTakesOldest(s, t, made, rules.recheck);
        } else {
          GetMakesOrWaits(s, t, made, rules.recheck);
        }
      case _ =>
    }
  }

  lemma {:induction false} RunReachesPeak(s: System, rules: Rules, es: seq<Event>)
    requires Inv(s) && s.deleted == multiset{} && |s.pool.all| == s.pool.numConnections
    requires Execute(s, rules, es).Going? && forall e :: e in es ==> !e.Sweep?
    ensures var r, peak := Execute(s, rules, es).s, Peak(s, rules, es);
            |r.pool.all| == if peak > |s.pool.all| then peak else |s.pool.all|
    decreases |es|
  {
    if es != [] {
      var s' := Next(s, rules.recheck, es[0]).s;
      StepKeepsInv(s, rules, es[0]);
      StepTowardsPeak(s, rules, es[0]);
      RunReachesPeak(s', rules, es[1..]);
    }
  }

  /** Without the reaper, a pool makes exactly as many connections as are held at once at some moment. */
  lemma MadeIsPeak(maxConnections: nat, rules: Rules, es: seq<Event>)
    requires Execute(Start(maxConnections), rules, es).Going? && forall e :: e in es ==> !e.Sweep?
    ensures |Execute(Start(maxConnections), rules, es).s.pool.all| == Peak(Start(maxConnections), rules, es)
  {
    assert Inv(Start(maxConnections));
    RunReachesPeak(Start(maxConnections), rules, es);
  }
}
