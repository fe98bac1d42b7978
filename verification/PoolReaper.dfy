/** The reaper among quiet threads, and what the destructor deletes after it. */
module PoolReaper {
  import opened Text
  import opened PoolMachine

  /** Though the scan runs to the first idle connection, in every reachable state that is the oldest or none. */
  lemma SweepTakesOldest(s: System, now: int)
    requires Inv(s) && now <= s.clock
    ensures var i := FirstIdle(s.pool, s.pool.available, now);
            i == |s.pool.available| || (i == 0 && s.clock - s.pool.lastUsed[s.pool.available[0]] >= 60)
    ensures FirstIdle(s.pool, s.pool.available, now) == |s.pool.available| ==>
              forall c :: c in s.pool.available ==> now - s.pool.lastUsed[c] < 60
  {
    var a := s.pool.available;
    var i := FirstIdle(s.pool, a, now);
    if i < |a| {
      assert s.pool.lastUsed[a[0]] <= s.pool.lastUsed[a[i]];
      assert Idle(s.pool, a[0], now);
    }
  }

  // ----- the reaper without traffic

  /** No thread calls or is woken: the clock moves and the reaper visits, at whatever times. */
  predicate Quiet(es: seq<Event>) {
    forall e :: e in es ==> e.Tick? || e.Sweep?
  }

  /** The pool without its `k` oldest available connections. */
  function Without(p: Pool, k: nat): Pool
    requires k <= |p.available|
  {
    p.(available := p.available[k..], numConnections := p.numConnections - k, numAvailable := p.numAvailable - k)
  }

  predicate FindsIdle(p: Pool, e: Event) {
    e.Sweep? && p.available != [] && Idle(p, p.available[0], e.now)
  }

  /** How many of the visits find the oldest connection idle. */
  function Taken(p: Pool, es: seq<Event>): (k: nat)
    ensures k <= |p.available|
    decreases |es|
  {
    if es == [] then 0
    else if FindsIdle(p, es[0]) then 1 + Taken(Without(p, 1), es[1..])
    else Taken(p, es[1..])
  }

  /** `s` after the reaper has removed and deleted its `k` oldest connections, and time has passed. */
  function Reaped(s: System, k: nat, clock: int): System
    requires k <= |s.pool.available|
  {
    s.(pool := Without(s.pool, k), deleted := s.deleted + multiset(s.pool.available[..k]), clock := clock)
  }

  lemma NoneReaped(s: System)
    ensures Reaped(s, 0, s.clock) == s
  {
    assert s.pool.available[0..] == s.pool.available;
  }

  lemma SweepReaps(s: System, rules: Rules, now: int)
    requires Inv(s) && now <= s.clock
    ensures FindsIdle(s.pool, Sweep(now)) ==>
              Next(s, rules.recheck, Sweep(now)) == Going(Reaped(s, 1, s.clock))
    ensures !FindsIdle(s.pool, Sweep(now)) ==> Next(s, rules.recheck, Sweep(now)) == Going(s)
  {
    var a := s.pool.available;
    SweepTakesOldest(s, now);
    if FindsIdle(s.pool, Sweep(now)) {
      assert a[..1] == [a[0]];
      assert a[..0] + a[1..] == a[1..];
    }
  }

  lemma ReapedReaped(s: System, k: nat, c: int, c': int)
    requires 1 + k <= |s.pool.available|
    ensures Reaped(Reaped(s, 1, c), k, c') == Reaped(s, 1 + k, c')
  {
    var a := s.pool.available;
    assert a[1..][k..] == a[1 + k..];
    assert a[..1 + k] == a[..1] + a[1..][..k];
  }

  lemma {:induction false} ReapsOne(s: System, e: Event, es: seq<Event>, clock: int)
    requires FindsIdle(s.pool, e)
    ensures var s' := Reaped(s, 1, s.clock);
            Reaped(s', Taken(s'.pool, es), clock) == Reaped(s, Taken(s.pool, [e] + es), clock)
  {
    assert ([e] + es)[1..] == es;
    ReapedReaped(s, Taken(Without(s.pool, 1), es), s.clock, clock);
  }

  lemma ReapsNone(s: System, e: Event, es: seq<Event>, clock: int, c: int)
    requires !FindsIdle(s.pool, e)
    ensures var s' := s.(clock := c);
            Reaped(s', Taken(s'.pool, es), clock) == Reaped(s, Taken(s.pool, [e] + es), clock)
  {
    assert ([e] + es)[1..] == es;
  }

  lemma ReapsFirst(s: System, rules: Rules, e: Event, es: seq<Event>, clock: int)
    requires Inv(s) && (e.Tick? || e.Sweep?) && Enabled(s, rules, e)
    ensures var s' := Next(s, rules.recheck, e).s;
            Reaped(s', Taken(s'.pool, es), clock) == Reaped(s, Taken(s.pool, [e] + es), clock)
  {
    if e.Sweep? {
      SweepReaps(s, rules, e.now);
    }
    if FindsIdle(s.pool, e) {
      ReapsOne(s, e, es, clock);
    } else {
      ReapsNone(s, e, es, clock, Next(s, rules.recheck, e).s.clock);
    }
  }

  /**
   In every run without traffic the reaper takes connections oldest first and each only when idle; nothing
   else of the pool changes.
   */
  lemma {:induction false} QuietRun(s: System, rules: Rules, es: seq<Event>)
    requires Inv(s) && Quiet(es) && Execute(s, rules, es).Going?
    ensures var r := Execute(s, rules, es).s;
            r == Reaped(s, Taken(s.pool, es), r.clock)
    decreases |es|
  {
    if es == [] {
      NoneReaped(s);
    } else {
      var s' := Next(s, rules.recheck, es[0]).s;
      StepKeepsInv(s, rules, es[0]);
      QuietRun(s', rules, es[1..]);
      ReapsFirst(s, rules, es[0], es[1..], Execute(s', rules, es[1..]).s.clock);
      assert [es[0]] + es[1..] == es;
    }
  }

  ghost predicate AllIdle(p: Pool, now: int) {
    forall c :: c in p.available ==> Idle(p, c, now)
  }

  function VisitsFrom(t: int, es: seq<Event>): nat {
    if es == [] then 0 else (if es[0].Sweep? && es[0].now >= t then 1 else 0) + VisitsFrom(t, es[1..])
  }

  function Visits(es: seq<Event>): nat {
    if es == [] then 0 else (if es[0].Sweep? then 1 else 0) + Visits(es[1..])
  }

  /** A visit takes at most one connection, and one for sure once all are idle. */
  lemma {:induction false} TakenBounds(p: Pool, es: seq<Event>, t: int)
    requires AllIdle(p, t)
    ensures Taken(p, es) <= Visits(es)
    ensures Taken(p, es) >= if VisitsFrom(t, es) < |p.available| then VisitsFrom(t, es) else |p.available|
    decreases |es|
  {
    if es != [] {
      if p.available != [] {
        assert Idle(p, p.available[0], t);
        forall c | c in Without(p, 1).available ensures Idle(Without(p, 1), c, t) {
          assert c in p.available;
        }
        TakenBounds(Without(p, 1), es[1..], t);
      }
      TakenBounds(p, es[1..], t);
    }
  }

  lemma AllReaped(s: System, clock: int)
    ensures var r := Reaped(s, |s.pool.available|, clock);
            r.pool.available == [] && r.deleted == s.deleted + multiset(s.pool.available)
  {
    assert s.pool.available[..|s.pool.available|] == s.pool.available;
  }

  /**
   Left alone, the reaper deletes the whole list if it visits once for each connection after all have
   become idle, and never with fewer visits; no held connection is forgotten.
   */
  lemma ReaperDrains(s: System, rules: Rules, es: seq<Event>, t: int)
    requires Inv(s) && Quiet(es) && Execute(s, rules, es).Going? && AllIdle(s.pool, t)
    ensures var r := Execute(s, rules, es).s;
            && (VisitsFrom(t, es) >= |s.pool.available| ==>
                  r.pool.available == [] && r.deleted == s.deleted + multiset(s.pool.available))
            && (r.pool.available == [] ==> Visits(es) >= |s.pool.available|)
            && r.held == s.held && r.pool.numConnections == |r.pool.available| + |s.held|
  {
    QuietRun(s, rules, es);
    TakenBounds(s.pool, es, t);
    RunKeepsInv(s, rules, es);
    if Taken(s.pool, es) == |s.pool.available| {
      AllReaped(s, Execute(s, rules, es).s.clock);
    }
  }

  function Sweeps(now: int, k: nat): seq<Event> {
    if k == 0 then [] else [Sweep(now)] + Sweeps(now, k - 1)
  }

  lemma {:induction false} SweepsGo(s: System, rules: Rules, now: int, k: nat)
    requires now <= s.clock
    ensures Execute(s, rules, Sweeps(now, k)).Going?
    decreases k
  {
    if k > 0 {
      var es := Sweeps(now, k);
      assert es[0] == Sweep(now) && es[1..] == Sweeps(now, k - 1);
      var s' := Next(s, rules.recheck, Sweep(now)).s;
      ExecuteStep(s, rules, es, s');
      SweepsGo(s', rules, now, k - 1);
    }
  }

  lemma {:induction false} SweepsCount(now: int, k: nat)
    ensures Quiet(Sweeps(now, k)) && VisitsFrom(now, Sweeps(now, k)) == k
    decreases k
  {
    if k > 0 {
      assert Sweeps(now, k)[1..] == Sweeps(now, k - 1);
      SweepsCount(now, k - 1);
    }
  }

  /** A minute and one visit a connection: from any reachable state the reaper can empty the list. */
  lemma DrainInAMinute(s: System, rules: Rules) returns (es: seq<Event>)
    requires Inv(s)
    ensures var r := Execute(s, rules, es);
            && r.Going? && Inv(r.s) && r.s.pool.available == [] && r.s.pool.numConnections == |s.held|
            && r.s.deleted == s.deleted + multiset(s.pool.available)
            && r.s == s.(pool := r.s.pool, deleted := r.s.deleted, clock := r.s.clock)
            && r.s.pool.all == s.pool.all && r.s.pool.maxConnections == s.pool.maxConnections
    ensures Quiet(es)
  {
    var now, n := s.clock + IDLE_LIMIT, |s.pool.available|;
    var s' := s.(clock := now);
    es := [Tick(IDLE_LIMIT)] + Sweeps(now, n);
    assert es[1..] == Sweeps(now, n);
    ExecuteStep(s, rules, es, s');
    SweepsGo(s', rules, now, n);
    SweepsCount(now, n);
    StepKeepsInv(s, rules, Tick(IDLE_LIMIT));
    assert AllIdle(s'.pool, now);
    QuietRun(s', rules, Sweeps(now, n));
    ReaperDrains(s', rules, Sweeps(now, n), now);
    RunKeepsInv(s', rules, Sweeps(now, n));
  }

  // ----- the destructor

  /** Every delete there has been once `~DBPool` has gone through `m_all_connections`. */
  function Destroyed(s: System): multiset<Conn> {
    s.deleted + multiset(s.pool.all)
  }

  lemma {:induction false} DistinctOnce(cs: seq<Conn>)
    requires Distinct(cs)
    ensures forall c :: multiset(cs)[c] == if c in cs then 1 else 0
  {
    if cs != [] {
      var tail := cs[1..];
      assert forall i :: 0 <= i < |tail| ==> tail[i] == cs[i + 1];
      DistinctOnce(tail);
      assert cs == [cs[0]] + tail;
    }
  }

  lemma {:induction false} HeldCount(held: set<(Thread, Conn)>)
    requires OneHolder(held)
    ensures |set h | h in held :: h.1| == |held|
    decreases |held|
  {
    if held != {} {
      var h :| h in held;
      HeldCount(held - {h});
      assert (set g | g in held :: g.1) == (set g | g in held - {h} :: g.1) + {h.1};
    }
  }

  /** The connections made are those available, those held and those deleted, each once. */
  lemma AllIsCounted(s: System)
    requires Inv(s)
    ensures s.pool.numConnections == |s.pool.all| - |s.deleted|
  {
    var h := set h | h in s.held :: h.1;
    DistinctOnce(s.pool.all);
    DistinctOnce(s.pool.available);
    HeldCount(s.held);
    assert forall c :: c in h <==> IsHeld(s, c);
    assert multiset(s.pool.all) == multiset(s.pool.available) + multiset(h) + s.deleted;
  }

  /**
   In every run: the destructor deletes a second time exactly what the reaper has deleted, so it is safe
   if and only if the pool counts as many connections as it lists in `m_all_connections`.
   */
  lemma DestructorDeletesOnceIff(maxConnections: nat, rules: Rules, es: seq<Event>)
    requires Execute(Start(maxConnections), rules, es).Going?
    ensures var s := Execute(Start(maxConnections), rules, es).s;
            && (forall c :: Destroyed(s)[c] == if c in s.deleted then 2 else if c in s.pool.all then 1 else 0)
            && ((forall c :: Destroyed(s)[c] <= 1) <==> s.pool.numConnections == |s.pool.all|)
  {
    EveryRunKeepsInv(maxConnections, rules, es);
    var s := Execute(Start(maxConnections), rules, es).s;
    DistinctOnce(s.pool.all);
    AllIsCounted(s);
    if s.pool.numConnections != |s.pool.all| {
      var c :| c in s.deleted;
      assert Destroyed(s)[c] == 2;
    }
  }

  /** One thread takes a connection and puts it back; a minute later the reaper deletes it. */
  lemma UsedAndReaped(maxConnections: nat, rules: Rules) returns (es: seq<Event>)
    requires maxConnections >= 1 && rules.threads != Some(0)
    ensures var r := Execute(Start(maxConnections), rules, es);
            r.Going? && Destroyed(r.s)[0] == 2
  {
    var s, use := Start(maxConnections), [Get(0, 0), Put(0, 0, None)];
    var s1 := Next(s, rules.recheck, use[0]).s;
    assert s1.held == {(0, 0)};
    var s2 := Next(s1, rules.recheck, use[1]).s;
    assert use[1..] == [use[1]] && use[1..][1..] == [];
    assert Execute(s1, rules, use[1..]) == Going(s2);
    EveryRunKeepsInv(maxConnections, rules, use);
    var rest := DrainInAMinute(s2, rules);
    es := use + rest;
    ExecuteAppend(s, rules, use, rest);
    assert s2.pool.available == [0] && s2.pool.all == [0];
  }

  /** A pool that may hold nothing, or that nobody may ask, stays as it was made. */
  ghost predicate NothingMade(s: System, rules: Rules) {
    && s.pool == EmptyPool(s.pool.maxConnections) && s.held == {} && s.deleted == multiset{}
    && (s.pool.maxConnections == 0 || rules.threads == Some(0))
  }

  lemma {:induction false} RunMakesNothing(s: System, rules: Rules, es: seq<Event>)
    requires NothingMade(s, rules)
    ensures var r := Execute(s, rules, es);
            && (r.Going? ==> NothingMade(r.s, rules))
            && (!rules.spurious && s.woken == {} ==> !r.PoppedEmpty?)
    decreases |es|
  {
    if es != [] && Enabled(s, rules, es[0]) && Next(s, rules.recheck, es[0]).Going? {
      RunMakesNothing(Next(s, rules.recheck, es[0]).s, rules, es[1..]);
    }
  }

  /** Such a run exists for every pool that may hold a connection and has a thread to ask for it. */
  lemma DoubleDeleteIff(maxConnections: nat, rules: Rules)
    ensures (exists es: seq<Event> ::
               var r := Execute(Start(maxConnections), rules, es);
               r.Going? && exists c :: Destroyed(r.s)[c] == 2)
            <==> maxConnections >= 1 && rules.threads != Some(0)
  {
    var s := Start(maxConnections);
    if maxConnections >= 1 && rules.threads != Some(0) {
      var es := UsedAndReaped(maxConnections, rules);
    } else {
      forall es: seq<Event>, c | Execute(s, rules, es).Going?
        ensures Destroyed(Execute(s, rules, es).s)[c] != 2
      {
        RunMakesNothing(s, rules, es);
      }
    }
  }
}
