/** Threads that wait for a connection: when the wait is safe, and when it never ends. */
module PoolProofs {
  import opened Text
  import opened PoolMachine
  import PoolReaper

  // ----- wake-up safety

  ghost function Holders(held: set<(Thread, Conn)>): set<Thread> {
    set h | h in held :: h.0
  }

  ghost predicate OneEach(held: set<(Thread, Conn)>) {
    forall h, h' :: h in held && h' in held && h.0 == h'.0 ==> h == h'
  }

  lemma {:induction false} HoldersCount(held: set<(Thread, Conn)>)
    requires OneEach(held)
    ensures |Holders(held)| == |held|
    decreases |held|
  {
    if held != {} {
      var h :| h in held;
      HoldersCount(held - {h});
      assert Holders(held) == Holders(held - {h}) + {h.0};
    }
  }

  lemma {:induction false} ThreadsBelow(ts: set<Thread>, n: nat)
    requires forall t :: t in ts ==> t < n
    ensures |ts| <= n
  {
    if n == 0 {
      assert ts == {};
    } else {
      ThreadsBelow(ts - {n - 1}, n - 1);
    }
  }

  /** No thread waits, because a thread that asks always leaves a connection for itself. */
  ghost predicate NobodyWaits(s: System, n: nat) {
    && Inv(s) && s.waiting == {} && s.woken == {}
    && OneEach(s.held) && (forall h :: h in s.held ==> h.0 < n)
  }

  lemma TakingStaysSingle(held: set<(Thread, Conn)>, t: Thread, held': set<(Thread, Conn)>)
    requires OneEach(held) && (forall c :: (t, c) !in held)
    requires exists c :: held' == held + {(t, c)}
    ensures OneEach(held')
    ensures forall h :: h in held' ==> h in held || h.0 == t
  {
    assert forall h :: h in held ==> h == (h.0, h.1);
  }

  /** A thread that holds nothing leaves fewer than `n` connections held. */
  lemma AskingFindsRoom(s: System, n: nat, t: Thread)
    requires n <= s.pool.maxConnections && NobodyWaits(s, n) && t < n && !Holds(s, t)
    ensures CanGrow(s.pool) || s.pool.available != []
  {
    HoldersCount(s.held);
    assert forall h :: h in s.held ==> h == (t, h.1) || h.0 != t;
    assert t !in Holders(s.held);
    ThreadsBelow(Holders(s.held) + {t}, n);
    assert |Holders(s.held) + {t}| == |s.held| + 1;
  }

  lemma StepWithoutWaiting(s: System, rules: Rules, e: Event)
    requires rules.threads.Some? && rules.threads.value <= s.pool.maxConnections
    requires NobodyWaits(s, rules.threads.value) && Enabled(s, rules, e)
    ensures Next(s, rules.recheck, e).Going?
    ensures var s' := Next(s, rules.recheck, e).s;
            NobodyWaits(s', rules.threads.value) && s'.pool.maxConnections == s.pool.maxConnections
  {
    var n := rules.threads.value;
    match e {
      case Get(t, made) =>
        AskingFindsRoom(s, n, t);
        StepKeepsInv(s, rules, e);
        TakingStaysSingle(s.held, t, Next(s, rules.recheck, e).s.held);
      case Put(t, c, wakes) =>
        StepKeepsInv(s, rules, e);
      case _ =>
        StepKeepsInv(s, rules, e);
    }
  }

  lemma {:induction false} RunWithoutWaiting(s: System, rules: Rules, es: seq<Event>)
    requires rules.threads.Some? && rules.threads.value <= s.pool.maxConnections
    requires NobodyWaits(s, rules.threads.value)
    ensures var r := Execute(s, rules, es);
            !r.PoppedEmpty? && (r.Going? ==> NobodyWaits(r.s, rules.threads.value))
    decreases |es|
  {
    if es != [] && Enabled(s, rules, es[0]) {
      StepWithoutWaiting(s, rules, es[0]);
      RunWithoutWaiting(Next(s, rules.recheck, es[0]).s, rules, es[1..]);
    }
  }

  /** Threads 0..k each hold one of the only connections there are. */
  ghost predicate AllTaken(s: System, maxConnections: nat, k: nat) {
    && s.pool.available == [] && s.pool.maxConnections == maxConnections
    && s.pool.numConnections == k && s.pool.numAvailable == 0
    && s.waiting == {} && s.woken == {}
    && (forall t: Thread, c: Conn :: (t, c) in s.held <==> t == c && t < k)
    && (forall c: Conn :: c in s.pool.all <==> c < k)
  }

  lemma {:induction false} EachTakesOne(rules: Rules, maxConnections: nat, k: nat) returns (es: seq<Event>)
    requires k <= maxConnections && (rules.threads.Some? ==> k <= rules.threads.value)
    ensures var r := Execute(Start(maxConnections), rules, es);
            r.Going? && AllTaken(r.s, maxConnections, k)
  {
    es := [];
    if k > 0 {
      var before := EachTakesOne(rules, maxConnections, k - 1);
      var s, e := Execute(Start(maxConnections), rules, before).s, Get(k - 1, k - 1);
      es := before + [e];
      ExecuteAppend(Start(maxConnections), rules, before, [e]);
      assert [e][1..] == [];
      assert Enabled(s, rules, e) && CanGrow(s.pool);
      var s' := Next(s, rules.recheck, e).s;
      assert Execute(s, rules, [e]) == Going(s');
      assert forall t: Thread, c: Conn :: (t, c) in s'.held <==> (t, c) in s.held || (t == k - 1 && c == k - 1);
      assert forall c: Conn :: c in s'.pool.all <==> c in s.pool.all || c == k - 1;
    }
  }

  /** Another thread waits, and is signalled when thread 0 puts its connection back. */
  function PutToWaiter(m: nat): seq<Event> {
    [Get(m, m), Put(0, 0, Some(m))]
  }

  lemma PutWakesWaiter(s: System, rules: Rules, m: nat) returns (s2: System)
    requires 1 <= m && (rules.threads.Some? ==> m < rules.threads.value) && AllTaken(s, m, m)
    ensures Execute(s, rules, PutToWaiter(m)) == Going(s2)
    ensures s2.pool.available == [0] && s2.woken == {m} && s2.waiting == {}
    ensures s2.pool.numAvailable == 1 && s2.pool.numConnections == m == s2.pool.maxConnections
    ensures s2.clock == s.clock && s2.pool.lastUsed == s.pool.lastUsed[0 := s.clock] && s2.pool.all == s.pool.all
    ensures s2.held == s.held - {(0, 0)}
  {
    var es := PutToWaiter(m);
    var s1 := Next(s, rules.recheck, es[0]).s;
    assert s1 == s.(waiting := {m});
    assert (0, 0) in s1.held;
    s2 := Next(s1, rules.recheck, es[1]).s;
    assert es[1..][1..] == [];
    assert Execute(s1, rules, es[1..]) == Going(s2);
  }

  /** The signalled thread finds that the thread that signalled has taken the connection again. */
  lemma OvertakenPopsEmpty(s: System, rules: Rules, m: nat)
    requires !rules.recheck && 1 <= m && (rules.threads.Some? ==> m < rules.threads.value)
    requires AllTaken(s, m, m)
    ensures Execute(s, rules, PutToWaiter(m) + [Get(0, m), Resume(m)]) == PoppedEmpty
  {
    var s2 := PutWakesWaiter(s, rules, m);
    var es := [Get(0, m), Resume(m)];
    assert forall c :: (0, c) !in s2.held;
    var s3 := Next(s2, false, es[0]).s;
    assert s3.pool.available == [] && s3.woken == {m};
    assert Execute(s3, rules, es[1..]) == PoppedEmpty;
    assert Execute(s2, rules, es) == PoppedEmpty;
    ExecuteAppend(s, rules, PutToWaiter(m), es);
  }

  /** A pool that may hold nothing: who asks waits, and a wake-up out of nowhere finds the list empty. */
  lemma SpuriousPopsEmpty(n: nat)
    requires n > 0
    ensures Execute(Start(0), Rules(false, true, Some(n)), [Get(0, 0), Spurious(0), Resume(0)]) == PoppedEmpty
  {
    var rules, es := Rules(false, true, Some(n)), [Get(0, 0), Spurious(0), Resume(0)];
    var s1 := Next(Start(0), false, es[0]).s;
    var s2 := Next(s1, false, es[1]).s;
    assert es[1..][1..] == es[2..];
    assert Execute(s2, rules, es[2..]) == PoppedEmpty;
    assert Execute(s1, rules, es[1..]) == PoppedEmpty;
  }

  /**
   The single `if` around the wait is safe exactly when the pool may grow to one connection for every
   thread, or may not grow at all and no wait returns without a signal. Otherwise some run pops from an
   empty list, and needs a spurious wake-up only for the pool that may not grow.
   */
  lemma SingleIfIsSafeIff(maxConnections: nat, n: nat, spurious: bool)
    ensures n <= maxConnections || (maxConnections == 0 && !spurious) <==>
            forall es :: !Execute(Start(maxConnections), Rules(false, spurious, Some(n)), es).PoppedEmpty?
  {
    var s, rules := Start(maxConnections), Rules(false, spurious, Some(n));
    if n <= maxConnections {
      forall es ensures !Execute(s, rules, es).PoppedEmpty? {
        RunWithoutWaiting(s, rules, es);
      }
    } else if maxConnections > 0 {
      var es := EachTakesOne(rules, maxConnections, maxConnections);
      ExecuteAppend(s, rules, es, PutToWaiter(maxConnections) + [Get(0, maxConnections), Resume(maxConnections)]);
      OvertakenPopsEmpty(Execute(s, rules, es).s, rules, maxConnections);
    } else if spurious {
      SpuriousPopsEmpty(n);
    } else {
      forall es ensures !Execute(s, rules, es).PoppedEmpty? {
        PoolReaper.RunMakesNothing(s, rules, es);
      }
    }
  }

  /** With no more threads than connections, not even spurious wake-ups can do harm: nobody ever waits. */
  lemma EnoughConnectionsNeverWait(maxConnections: nat, n: nat, recheck: bool, es: seq<Event>)
    requires n <= maxConnections
    ensures var r := Execute(Start(maxConnections), Rules(recheck, true, Some(n)), es);
            !r.PoppedEmpty? && (r.Going? ==> r.s.waiting == {} && r.s.woken == {})
  {
    RunWithoutWaiting(Start(maxConnections), Rules(recheck, true, Some(n)), es);
  }

  /** A remark: with the wait repeated until the list is non-empty, no run of any threads pops from an empty list. */
  lemma {:induction false} RecheckedWaitIsSafe(s: System, spurious: bool, threads: Option<nat>, es: seq<Event>)
    ensures !Execute(s, Rules(true, spurious, threads), es).PoppedEmpty?
    decreases |es|
  {
    if es != [] && Enabled(s, Rules(true, spurious, threads), es[0]) {
      RecheckedWaitIsSafe(Next(s, true, es[0]).s, spurious, threads, es[1..]);
    }
  }

  /** While a thread waits, every available connection has a thread of its own on the way to it. */
  ghost predicate NoLostWakeup(s: System) {
    s.waiting != {} ==> |s.pool.available| <= |s.woken|
  }

  lemma OneMoreWoken(woken: set<Thread>, t: Thread)
    requires t !in woken
    ensures |woken + {t}| == |woken| + 1
  {
  }

  lemma StepLosesNoWakeup(s: System, rules: Rules, e: Event)
    requires Inv(s) && NoLostWakeup(s) && Enabled(s, rules, e) && Next(s, rules.recheck, e).Going?
    ensures NoLostWakeup(Next(s, rules.recheck, e).s)
  {
    match e {
      case Resume(t) =>
        assert |s.woken - {t}| == |s.woken| - 1;
      case Put(t, c, wakes) =>
        if wakes.Some? {
          OneMoreWoken(s.woken, wakes.value);
        }
      case Spurious(t) =>
        OneMoreWoken(s.woken, t);
      case _ =>
    }
  }

  /** In every run no signal is lost: threads wait only while those already woken can use up the list. */
  lemma {:induction false} RunLosesNoWakeup(s: System, rules: Rules, es: seq<Event>)
    requires Inv(s) && NoLostWakeup(s) && Execute(s, rules, es).Going?
    ensures NoLostWakeup(Execute(s, rules, es).s)
    decreases |es|
  {
    if es != [] {
      StepLosesNoWakeup(s, rules, es[0]);
      StepKeepsInv(s, rules, es[0]);
      RunLosesNoWakeup(Next(s, rules.recheck, es[0]).s, rules, es[1..]);
    }
  }

  // ----- the reaper against a waiting thread

  /** Threads `i` to `m` still hold their connections; `m`, which waited, is on its way to the first one put. */
  ghost predicate PutBackTo(s: System, i: nat, m: nat) {
    && Inv(s) && s.waiting == {} && s.woken == {m} && s.pool.maxConnections == m
    && (forall t: Thread, c: Conn :: (t, c) in s.held <==> t == c && i <= t < m)
  }

  lemma {:induction false} AllPutBack(s: System, rules: Rules, i: nat, m: nat) returns (es: seq<Event>)
    requires i <= m && PutBackTo(s, i, m)
    ensures var r := Execute(s, rules, es);
            r.Going? && PutBackTo(r.s, m, m)
    decreases m - i
  {
    es := [];
    if i < m {
      var e := Put(i, i, None);
      assert (i, i) in s.held && Enabled(s, rules, e);
      var s' := Next(s, rules.recheck, e).s;
      StepKeepsInv(s, rules, e);
      assert forall t: Thread, c: Conn :: (t, c) in s'.held <==> (t, c) in s.held && !(t == i && c == i);
      var rest := AllPutBack(s', rules, i + 1, m);
      es := [e] + rest;
      ExecuteStep(s, rules, es, s');
    }
  }

  /** A thread waits in a pool that could make it a connection, and nobody has one to put. */
  ghost predicate Stranded(s: System) {
    s.waiting != {} && s.woken == {} && s.held == {} && s.pool.available == [] && CanGrow(s.pool)
  }

  lemma ReapedBeforeResume(s: System, rules: Rules, m: nat) returns (es: seq<Event>)
    requires rules.recheck && 1 <= m && PutBackTo(s, m, m)
    ensures var r := Execute(s, rules, es);
            r.Going? && Stranded(r.s)
  {
    assert s.held == {} by {
      assert forall h :: h in s.held ==> (h.0, h.1) in s.held;
    }
    var drain := PoolReaper.DrainInAMinute(s, rules);
    var s' := Execute(s, rules, drain).s;
    es := drain + [Resume(m)];
    ExecuteAppend(s, rules, drain, [Resume(m)]);
    var s2 := Next(s', true, Resume(m)).s;
    assert [Resume(m)][1..] == [];
    assert Execute(s', rules, [Resume(m)]) == Going(s2);
    assert m in s2.waiting;
  }

  lemma StrandingRun(m: nat, rules: Rules) returns (es: seq<Event>)
    requires rules.recheck && 1 <= m && (rules.threads.Some? ==> m < rules.threads.value)
    ensures var r := Execute(Start(m), rules, es);
            r.Going? && Stranded(r.s)
  {
    var taking := EachTakesOne(rules, m, m);
    var s := Execute(Start(m), rules, taking).s;
    var s2 := PutWakesWaiter(s, rules, m);
    EveryRunKeepsInv(m, rules, taking);
    RunKeepsInv(s, rules, PutToWaiter(m));
    var putting := AllPutBack(s2, rules, 1, m);
    var s3 := Execute(s2, rules, putting).s;
    var rest := ReapedBeforeResume(s3, rules, m);
    ExecuteAppend(s2, rules, putting, rest);
    ExecuteAppend(s, rules, PutToWaiter(m), putting + rest);
    ExecuteAppend(Start(m), rules, taking, PutToWaiter(m) + (putting + rest));
    es := taking + (PutToWaiter(m) + (putting + rest));
  }

  /**
   Re-checking the list is still not enough against the reaper: a thread woken for a connection that is
   reaped before it runs waits again, though the pool could grow. It happens exactly when there are more
   threads than connections may be made.
   */
  lemma ReaperStrandsWaiterIff(maxConnections: nat, n: nat)
    ensures (exists es: seq<Event> ::
               var r := Execute(Start(maxConnections), Rules(true, false, Some(n)), es);
               r.Going? && Stranded(r.s))
            <==> n > maxConnections >= 1
  {
    var s, rules := Start(maxConnections), Rules(true, false, Some(n));
    if n > maxConnections >= 1 {
      var es := StrandingRun(maxConnections, rules);
    } else {
      forall es: seq<Event> | Execute(s, rules, es).Going? ensures !Stranded(Execute(s, rules, es).s) {
        if n <= maxConnections {
          RunWithoutWaiting(s, rules, es);
        } else {
          PoolReaper.RunMakesNothing(s, rules, es);
        }
      }
    }
  }

  /** While a thread waits in a pool that may hold connections, some thread is on its way to the list. */
  ghost predicate SomeoneReturns(s: System) {
    s.waiting != {} && s.pool.maxConnections > 0 ==> s.held != {} || s.woken != {}
  }

  lemma StepKeepsReturning(s: System, rules: Rules, e: Event)
    requires !rules.recheck && Inv(s) && SomeoneReturns(s) && Enabled(s, rules, e)
    requires Next(s, rules.recheck, e).Going?
    ensures SomeoneReturns(Next(s, rules.recheck, e).s)
  {
    var s' := Next(s, rules.recheck, e).s;
    match e {
      case Get(t, made) =>
        if CanGrow(s.pool) {
          assert (t, made) in s'.held;
        } else if s.pool.available != [] {
          assert (t, s.pool.available[0]) in s'.held;
        }
      case Resume(t) =>
        assert (t, s.pool.available[0]) in s'.held;
      case Put(t, c, wakes) =>
        assert wakes.Some? ==> wakes.value in s'.woken;
      case Spurious(t) =>
        assert t in s'.woken;
      case _ =>
    }
  }

  lemma {:induction false} RunKeepsReturning(s: System, rules: Rules, es: seq<Event>)
    requires !rules.recheck && Inv(s) && SomeoneReturns(s) && Execute(s, rules, es).Going?
    ensures Inv(Execute(s, rules, es).s) && SomeoneReturns(Execute(s, rules, es).s)
    decreases |es|
  {
    if es != [] {
      StepKeepsInv(s, rules, es[0]);
      StepKeepsReturning(s, rules, es[0]);
      RunKeepsReturning(Next(s, rules.recheck, es[0]).s, rules, es[1..]);
    }
  }

  /** The single `if`, as the source has it, strands nobody in any run, with any threads and wake-ups. */
  lemma SingleIfNeverStrands(maxConnections: nat, rules: Rules, es: seq<Event>)
    requires !rules.recheck && Execute(Start(maxConnections), rules, es).Going?
    ensures !Stranded(Execute(Start(maxConnections), rules, es).s)
  {
    RunKeepsReturning(Start(maxConnections), rules, es);
  }

  /** Instead, from any state of any run, the reaper can make a woken thread pop from the empty list. */
  lemma ReapedWakeupPopsEmpty(s: System, rules: Rules, t: Thread) returns (es: seq<Event>)
    requires !rules.recheck && Inv(s) && t in s.woken
    ensures es != [] && PoolReaper.Quiet(es[..|es| - 1]) && es[|es| - 1] == Resume(t)
    ensures Execute(s, rules, es) == PoppedEmpty
  {
    var drain := PoolReaper.DrainInAMinute(s, rules);
    var s' := Execute(s, rules, drain).s;
    es := drain + [Resume(t)];
    ExecuteAppend(s, rules, drain, [Resume(t)]);
    assert Next(s', rules.recheck, Resume(t)) == PoppedEmpty;
    assert es[..|es| - 1] == drain;
  }
}
