/** `MainProcess`: the process that keeps the workers running. */
module Supervisor {
  import opened Text
  import opened SupervisorMachine

  lemma ConsOrdered(e: Entry, fs: seq<Entry>)
    requires Ordered(fs) && forall x :: x in fs ==> e.fn < x.fn
    ensures Ordered([e] + fs)
  {
  }

  /** A function is added with no workers, once; the rest of the table is as it was. */
  lemma {:induction false} AddedFunctionsOrdered(fs: seq<Entry>, fn: Function, minimum: nat)
    requires Ordered(fs)
    ensures var r := SupervisorMachine.AddFunction(fs, fn, minimum);
            && Ordered(r) && Known(r, fn)
            && forall e :: e in r <==> e in fs || (e == Entry(fn, 0, minimum) && !Known(fs, fn))
  {
    if fs == [] || fn < fs[0].fn {
      assert forall e :: e in fs ==> e.fn > fn;
    } else if fn == fs[0].fn {
      assert fs[0] in fs;
    } else {
      var tail := fs[1..];
      assert fs == [fs[0]] + tail;
      AddedFunctionsOrdered(tail, fn, minimum);
      assert Known(fs, fn) <==> Known(tail, fn);
      ConsOrdered(fs[0], SupervisorMachine.AddFunction(tail, fn, minimum));
    }
  }

  /** The tables as configured, before the first spawn. */
  ghost predicate Configured(fs: seq<Entry>) {
    Ordered(fs) && forall e :: e in fs ==> e.count == 0
  }

  function FirstSpawn(fs: seq<Entry>, forks: seq<Option<Pid>>): State {
    var t := Tables(fs, map[]);
    State(SupervisorMachine.Spawn(t, 0, forks).0, false, false, {}, Children(t, 0, forks))
  }

  class MainProcess {
    var workers: map<Pid, Function>
    var functions: seq<Entry>
    ghost var killed: set<Pid>
    ghost var live: map<Pid, Function>

    ghost function Abs(): Tables
      reads this
    {
      Tables(functions, workers)
    }

    constructor ()
      ensures Abs() == Tables([], map[]) && live == map[] && killed == {}
    {
      workers, functions, killed, live := map[], [], {}, map[];
    }

    /** The table is a `std::map`: in key order, and with one entry for a key. */
    method AddFunction(fn: Function, minimum: nat)
      requires Ordered(functions)
      modifies this`functions
      ensures Ordered(functions) && Known(functions, fn)
      ensures forall e :: e in functions <==>
                e in old(functions) || (e == Entry(fn, 0, minimum) && !Known(old(functions), fn))
      ensures old(Configured(functions)) ==> Configured(functions)
    {
      AddedFunctionsOrdered(functions, fn, minimum);
      functions := SupervisorMachine.AddFunction(functions, fn, minimum);
    }

    /** `live` takes up each child where the fork returns its pid. */
    method Spawn(forks: seq<Option<Pid>>)
      modifies this
      ensures Abs() == SupervisorMachine.Spawn(old(Abs()), 0, forks).0
      ensures live == old(live) + Children(old(Abs()), 0, forks) && killed == old(killed)
    {
      ghost var all := Spawned(Abs(), live, 0, forks, 0);
      SpawnedInParts(Abs(), live, 0, forks, 0);
      assert forks[0..] == forks;
      var i: nat, next: nat := 0, 0;
      while i != |functions|
        invariant 0 <= i <= |functions| && next <= |forks| && |functions| == old(|functions|)
        invariant killed == old(killed) && Spawned(Abs(), live, i, forks, next) == all
        decreases |functions| - i
      {
        while functions[i].count < functions[i].minimum
          invariant 0 <= i < |functions| && next <= |forks| && |functions| == old(|functions|)
          invariant killed == old(killed) && Spawned(Abs(), live, i, forks, next) == all
          decreases functions[i].minimum - functions[i].count
        {
          if next == |forks| || forks[next].None? {
            return;
          }
          var pid := forks[next].value;
          live := live[pid := functions[i].fn];
          next := next + 1;
          workers := InsertFirst(workers, pid, functions[i].fn);
          functions := functions[i := functions[i].(count := functions[i].count + 1)];
        }
        i := i + 1;
      }
    }

    /** What the loop does with one result of `waitpid`; `read` is what it finds through the erased iterator. */
    method Reap(reported: Option<Pid>, read: Function)
      modifies this`workers, this`functions, this`live
      ensures reported.None? ==> Abs() == old(Abs()) && live == old(live)
      ensures reported.Some? ==> Abs() == Reaped(old(Abs()), reported.value, read)
                                 && live == old(live) - {reported.value}
    {
      if reported.Some? {
        var pid := reported.value;
        live := live - {pid};
        if pid in workers {
          workers := workers - {pid};
          functions := Uncount(functions, read);
        }
      }
    }

    /** `run`, for as long as `waitpid` has something to return; `exited` says whether the loop was left. */
    method Run(forks: seq<Option<Pid>>, events: seq<Event>) returns (exited: bool)
      requires workers == map[] && live == map[] && killed == {}
      modifies this
      ensures var s := Loop(FirstSpawn(old(functions), forks), events);
              Abs() == s.tables && live == s.live && killed == s.killed && exited == s.exited
    {
      exited := false;
      var signalled := false;
      Spawn(forks);
      ghost var start := State(Abs(), false, false, {}, live);
      assert start == FirstSpawn(old(functions), forks);
      var i := 0;
      assert events[0..] == events;
      while i != |events| && !exited
        invariant 0 <= i <= |events|
        invariant Loop(State(Abs(), signalled, exited, killed, live), events[i..]) == Loop(start, events)
        decreases |events| - i
      {
        assert events[i..][1..] == events[i + 1..];
        var e := events[i];
        Reap(e.reported, e.read);
        if e.exiting {
          if !signalled {
            killed := killed + workers.Keys;
            signalled := true;
          }
          if workers == map[] {
            exited := true;
          }
        } else {
          Spawn(e.forks);
        }
        i := i + 1;
      }
    }
  }

  lemma NoWorkersCounted(fs: seq<Entry>)
    requires Configured(fs)
    ensures Counts(Tables(fs, map[]))
  {
    var none: map<Pid, Function> := map[];
    assert forall fn :: WorkersOf(none, fn) == {};
    forall i | 0 <= i < |fs| ensures Accounted(fs[i], none) {
      assert fs[i] in fs;
    }
  }

  lemma FirstSpawnIsAccounted(fs: seq<Entry>, forks: seq<Option<Pid>>)
    requires Configured(fs) && FreshForks({}, forks)
    ensures Inv(FirstSpawn(fs, forks))
  {
    hide SupervisorMachine.Spawn, Children;
    var t := Tables(fs, map[]);
    assert t.workers.Keys == {};
    NoWorkersCounted(fs);
    SpawnKeepsCounts(t, 0, forks);
    SpawnRecordsChildren(t, 0, forks);
    assert t.workers + Children(t, 0, forks) == Children(t, 0, forks);
  }

  /**
   Every run of the process, whatever forks fail and whatever is reported: the table is the live children,
   each with what it runs; and if erased entries read as they did, the counters are right.
   */
  lemma EveryRunIsAccounted(fs: seq<Entry>, forks: seq<Option<Pid>>, events: seq<Event>)
    requires Configured(fs) && FreshForks({}, forks)
    requires Possible(FirstSpawn(fs, forks), events)
    ensures Recorded(Loop(FirstSpawn(fs, forks), events))
    ensures AllReadRight(FirstSpawn(fs, forks), events) ==> Inv(Loop(FirstSpawn(fs, forks), events))
  {
    FirstSpawnIsAccounted(fs, forks);
    LoopKeepsRecord(FirstSpawn(fs, forks), events);
    if AllReadRight(FirstSpawn(fs, forks), events) {
      LoopKeepsInv(FirstSpawn(fs, forks), events);
    }
  }

  /** After the first spawn every function has its workers exactly when forks succeed for all of them. */
  lemma FirstSpawnStaffsIff(fs: seq<Entry>, forks: seq<Option<Pid>>)
    requires Configured(fs) && FreshForks({}, forks)
    ensures SameMinimums(fs, FirstSpawn(fs, forks).tables.functions)
    ensures Staffed(fs, FirstSpawn(fs, forks).live) <==> Shortage(fs, map[], 0) <= Successes(forks)
  {
    hide SupervisorMachine.Spawn, Children;
    var t := Tables(fs, map[]);
    assert t.workers.Keys == {};
    NoWorkersCounted(fs);
    SpawnStaffsIff(t, forks, fs);
    FirstSpawnIsAccounted(fs, forks);
  }

  /**
   And at the end of every run in which `m_exiting` is not set, exactly when its last turn could fork as many
   as were then missing.
   */
  lemma EveryRunIsStaffedIff(fs: seq<Entry>, forks: seq<Option<Pid>>, events: seq<Event>)
    requires Configured(fs) && FreshForks({}, forks)
    requires Possible(FirstSpawn(fs, forks), events) && AllReadRight(FirstSpawn(fs, forks), events)
    requires events != [] && forall e :: e in events ==> !e.exiting
    ensures var s, n := FirstSpawn(fs, forks), |events| - 1;
            Staffed(fs, Loop(s, events).live) <==>
            Shortage(fs, AfterReport(Loop(s, events[..n]), events[n]).live, 0) <= Successes(events[n].forks)
  {
    var s, n := FirstSpawn(fs, forks), |events| - 1;
    FirstSpawnStaffsIff(fs, forks);
    FirstSpawnIsAccounted(fs, forks);
    RunStaffsIff(s, events);
    SameShortage(fs, s.tables.functions, AfterReport(Loop(s, events[..n]), events[n]).live, 0);
  }
}
