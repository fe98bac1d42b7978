/**
 The supervising process on values. What the kernel decides is an input: the result of each `fork` and
 `waitpid`, and what `m_exiting` reads as; so is what a read through an erased iterator gives.
 */
module SupervisorMachine {
  import opened Text

  type Pid = nat

  /** A worker function, named by its address. */
  type Function = nat

  const SIZE_MAX: int := 0xffff_ffff_ffff_ffff

  /** An entry of `m_functions`: how many workers run the function, and how many should. */
  datatype Entry = Entry(fn: Function, count: int, minimum: nat)

  datatype Tables = Tables(functions: seq<Entry>, workers: map<Pid, Function>)

  /** `std::map::insert` in key order. */
  function AddFunction(fs: seq<Entry>, fn: Function, minimum: nat): seq<Entry> {
    if fs == [] || fn < fs[0].fn then [Entry(fn, 0, minimum)] + fs
    else if fn == fs[0].fn then fs
    else [fs[0]] + AddFunction(fs[1..], fn, minimum)
  }

  /** `forks` are the results of the forks to come; with none left, or on `None`, fork fails. */
  predicate ForkFails(forks: seq<Option<Pid>>) {
    forks == [] || forks[0].None?
  }

  function Started(t: Tables, i: nat, pid: Pid): Tables
    requires i < |t.functions|
  {
    Tables(t.functions[i := t.functions[i].(count := t.functions[i].count + 1)],
           InsertFirst(t.workers, pid, t.functions[i].fn))
  }

  /** `spawn` from the `i`th function on: the tables, and whether every function was seen to. */
  function Spawn(t: Tables, i: nat, forks: seq<Option<Pid>>): (r: (Tables, bool))
    requires i <= |t.functions|
    decreases |forks|, |t.functions| - i
  {
    if i == |t.functions| then (t, true)
    else if t.functions[i].count >= t.functions[i].minimum then Spawn(t, i + 1, forks)
    else if ForkFails(forks) then (t, false)
    else Spawn(Started(t, i, forks[0].value), i, forks[1..])
  }

  /** The children that the forks of `spawn` leave running, and what each runs, whatever the tables say. */
  function Children(t: Tables, i: nat, forks: seq<Option<Pid>>): map<Pid, Function>
    requires i <= |t.functions|
    decreases |forks|, |t.functions| - i
  {
    if i == |t.functions| then map[]
    else if t.functions[i].count >= t.functions[i].minimum then Children(t, i + 1, forks)
    else if ForkFails(forks) then map[]
    else
      var pid := forks[0].value;
      map[pid := t.functions[i].fn] + Children(Started(t, i, pid), i, forks[1..])
  }

  /** What `spawn` leaves from the `i`th function and the `next`th fork on: the tables, and the children alive. */
  function Spawned(t: Tables, live: map<Pid, Function>, i: nat, forks: seq<Option<Pid>>, next: nat)
    : (Tables, map<Pid, Function>)
    requires i <= |t.functions| && next <= |forks|
    decreases |forks| - next, |t.functions| - i
  {
    if i == |t.functions| then (t, live)
    else if t.functions[i].count >= t.functions[i].minimum then Spawned(t, live, i + 1, forks, next)
    else if next == |forks| || forks[next].None? then (t, live)
    else
      var pid := forks[next].value;
      Spawned(Started(t, i, pid), live[pid := t.functions[i].fn], i, forks, next + 1)
  }

  lemma OneChildMore(live: map<Pid, Function>, pid: Pid, fn: Function, rest: map<Pid, Function>)
    ensures live + (map[pid := fn] + rest) == live[pid := fn] + rest
  {
  }

  lemma {:induction false} SpawnedInParts(
      t: Tables, live: map<Pid, Function>, i: nat, forks: seq<Option<Pid>>, next: nat)
    requires i <= |t.functions| && next <= |forks|
    ensures Spawned(t, live, i, forks, next) == (Spawn(t, i, forks[next..]).0, live + Children(t, i, forks[next..]))
    decreases |forks| - next, |t.functions| - i
  {
    assert live + map[] == live;
    if i == |t.functions| {
    } else if t.functions[i].count >= t.functions[i].minimum {
      SpawnedInParts(t, live, i + 1, forks, next);
    } else if next < |forks| && forks[next].Some? {
      var pid, fn := forks[next].value, t.functions[i].fn;
      SpawnedInParts(Started(t, i, pid), live[pid := fn], i, forks, next + 1);
      assert forks[next..][1..] == forks[next + 1..];
      OneChildMore(live, pid, fn, Children(Started(t, i, pid), i, forks[next + 1..]));
    }
  }

  /** `--` on a `size_t`. */
  function Decremented(n: int): int {
    if n == 0 then SIZE_MAX else n - 1
  }

  /** `m_functions[fn].first--`: a function that is not there is entered with two zeros first. */
  function Uncount(fs: seq<Entry>, fn: Function): seq<Entry> {
    if fs == [] || fn < fs[0].fn then [Entry(fn, Decremented(0), 0)] + fs
    else if fs[0].fn == fn then [fs[0].(count := Decremented(fs[0].count))] + fs[1..]
    else [fs[0]] + Uncount(fs[1..], fn)
  }

  /** A reported pid that is in the table leaves it, and `read` is what its erased entry then reads as. */
  function Reaped(t: Tables, pid: Pid, read: Function): Tables {
    if pid in t.workers then Tables(Uncount(t.functions, read), t.workers - {pid}) else t
  }

  /**
   One turn of the loop: what `waitpid` reports (`None` for an error), what the erased entry reads as,
   then `m_exiting`, then the forks.
   */
  datatype Event = Event(reported: Option<Pid>, read: Function, exiting: bool, forks: seq<Option<Pid>>)

  /**
   `killed`: the workers that have been sent SIGQUIT. `live`: the children forked and not yet reported,
   and what they run.
   */
  datatype State = State(
    tables: Tables, signalled: bool, exited: bool, killed: set<Pid>, live: map<Pid, Function>)

  function AfterReport(s: State, e: Event): State {
    match e.reported
    case None => s
    case Some(pid) => s.(tables := Reaped(s.tables, pid, e.read), live := s.live - {pid})
  }

  function Turn(s: State, e: Event): State {
    var r := AfterReport(s, e);
    if e.exiting then
      var k := if r.signalled then r else r.(killed := r.killed + r.tables.workers.Keys, signalled := true);
      if k.tables.workers == map[] then k.(exited := true) else k
    else
      r.(tables := Spawn(r.tables, 0, e.forks).0, live := r.live + Children(r.tables, 0, e.forks))
  }

  /** The loop, for as long as there is something for `waitpid` to return. */
  function Loop(s: State, es: seq<Event>): State
    decreases |es|
  {
    if s.exited || es == [] then s else Loop(Turn(s, es[0]), es[1..])
  }

  // ----- what every turn keeps

  function WorkersOf(workers: map<Pid, Function>, fn: Function): set<Pid> {
    set p | p in workers && workers[p] == fn
  }

  ghost predicate Ordered(fs: seq<Entry>) {
    forall i, j :: 0 <= i < j < |fs| ==> fs[i].fn < fs[j].fn
  }

  ghost predicate Accounted(e: Entry, workers: map<Pid, Function>) {
    e.count == |WorkersOf(workers, e.fn)| <= e.minimum
  }

  ghost predicate Known(fs: seq<Entry>, fn: Function) {
    exists e :: e in fs && e.fn == fn
  }

  /** Each counter is the number of live workers of its function, and at most the configured minimum. */
  ghost predicate Counts(t: Tables) {
    && Ordered(t.functions)
    && (forall i :: 0 <= i < |t.functions| ==> Accounted(t.functions[i], t.workers))
    && (forall p :: p in t.workers ==> Known(t.functions, t.workers[p]))
  }

  /** The table is the live children; all of them are signalled before the loop is left, and gone after it. */
  ghost predicate Recorded(s: State) {
    && s.tables.workers == s.live
    && (s.signalled ==> s.live.Keys <= s.killed)
    && (s.exited ==> s.live == map[])
  }

  ghost predicate Inv(s: State) {
    Recorded(s) && Counts(s.tables)
  }

  /** The kernel gives a new child no pid of a child that has not been waited for. */
  ghost predicate FreshForks(taken: set<Pid>, forks: seq<Option<Pid>>)
    decreases |forks|
  {
    forks != [] && forks[0].Some? ==>
      forks[0].value !in taken && FreshForks(taken + {forks[0].value}, forks[1..])
  }

  /** What the kernel and the signal handler guarantee of a run: `m_exiting` is never reset. */
  ghost predicate Possible(s: State, es: seq<Event>)
    decreases |es|
  {
    es != [] && !s.exited ==>
      && FreshForks(AfterReport(s, es[0]).live.Keys, es[0].forks)
      && (s.signalled ==> es[0].exiting)
      && Possible(Turn(s, es[0]), es[1..])
  }

  /** The erased entry of a reported worker still reads as the function that it held. */
  ghost predicate ReadsRight(s: State, e: Event) {
    e.reported.Some? && e.reported.value in s.tables.workers ==> e.read == s.tables.workers[e.reported.value]
  }

  ghost predicate AllReadRight(s: State, es: seq<Event>)
    decreases |es|
  {
    es != [] && !s.exited ==> ReadsRight(s, es[0]) && AllReadRight(Turn(s, es[0]), es[1..])
  }

  /** What is forked is recorded: the table grows by exactly the children that the forks leave. */
  lemma {:induction false} SpawnRecordsChildren(t: Tables, i: nat, forks: seq<Option<Pid>>)
    requires i <= |t.functions| && FreshForks(t.workers.Keys, forks)
    ensures Spawn(t, i, forks).0.workers == t.workers + Children(t, i, forks)
    decreases |forks|, |t.functions| - i
  {
    if i == |t.functions| {
    } else if t.functions[i].count >= t.functions[i].minimum {
      SpawnRecordsChildren(t, i + 1, forks);
    } else if !ForkFails(forks) {
      var pid, fn := forks[0].value, t.functions[i].fn;
      var t' := Started(t, i, pid);
      assert t'.workers.Keys == t.workers.Keys + {pid};
      SpawnRecordsChildren(t', i, forks[1..]);
      assert t'.workers + Children(t', i, forks[1..]) == t.workers + (map[pid := fn] + Children(t', i, forks[1..]));
    }
  }

  lemma OneMoreWorker(workers: map<Pid, Function>, pid: Pid, fn: Function, other: Function)
    requires pid !in workers
    ensures |WorkersOf(workers[pid := fn], other)| == |WorkersOf(workers, other)| + if fn == other then 1 else 0
  {
    var w := WorkersOf(workers, other);
    assert WorkersOf(workers[pid := fn], other) == if fn == other then w + {pid} else w;
  }

  lemma SameFunctions(fs: seq<Entry>, fs': seq<Entry>)
    requires |fs| == |fs'| && forall i :: 0 <= i < |fs| ==> fs'[i].fn == fs[i].fn
    ensures Ordered(fs) ==> Ordered(fs')
    ensures forall fn :: Known(fs, fn) ==> Known(fs', fn)
  {
    forall fn | Known(fs, fn) ensures Known(fs', fn) {
      var e :| e in fs && e.fn == fn;
      var i :| 0 <= i < |fs| && fs[i] == e;
      assert fs'[i] in fs';
    }
  }

  lemma StartedKeepsCounts(t: Tables, i: nat, pid: Pid)
    requires Counts(t) && i < |t.functions| && t.functions[i].count < t.functions[i].minimum
    requires pid !in t.workers
    ensures Counts(Started(t, i, pid))
    ensures Started(t, i, pid).workers.Keys == t.workers.Keys + {pid}
  {
    var t' := Started(t, i, pid);
    SameFunctions(t.functions, t'.functions);
    forall j | 0 <= j < |t.functions| ensures Accounted(t'.functions[j], t'.workers) {
      assert Accounted(t.functions[j], t.workers);
      OneMoreWorker(t.workers, pid, t.functions[i].fn, t.functions[j].fn);
    }
    forall p | p in t'.workers ensures Known(t'.functions, t'.workers[p]) {
      if p == pid {
        assert t'.functions[i] in t'.functions;
      }
    }
  }

  lemma OneWorkerLess(workers: map<Pid, Function>, pid: Pid, other: Function)
    requires pid in workers
    ensures |WorkersOf(workers - {pid}, other)|
         == |WorkersOf(workers, other)| - if workers[pid] == other then 1 else 0
  {
    var w := WorkersOf(workers, other);
    assert WorkersOf(workers - {pid}, other) == w - {pid};
  }

  /**
   `spawn` keeps the accounts whether or not a fork fails, and if none does, every function has exactly
   its minimum of workers.
   */
  lemma {:induction false} SpawnKeepsCounts(t: Tables, i: nat, forks: seq<Option<Pid>>)
    requires Counts(t) && i <= |t.functions| && FreshForks(t.workers.Keys, forks)
    requires forall j :: 0 <= j < i ==> t.functions[j].count == t.functions[j].minimum
    ensures var (t', all) := Spawn(t, i, forks);
            && Counts(t') && t.workers.Keys <= t'.workers.Keys
            && (all ==> forall j :: 0 <= j < |t'.functions| ==> t'.functions[j].count == t'.functions[j].minimum)
    decreases |forks|, |t.functions| - i
  {
    if i == |t.functions| {
    } else if t.functions[i].count >= t.functions[i].minimum {
      SpawnKeepsCounts(t, i + 1, forks);
    } else if !ForkFails(forks) {
      StartedKeepsCounts(t, i, forks[0].value);
      SpawnKeepsCounts(Started(t, i, forks[0].value), i, forks[1..]);
    }
  }

  lemma {:induction false} UncountEntry(fs: seq<Entry>, fn: Function, i: nat)
    requires Ordered(fs) && i < |fs| && fs[i].fn == fn
    ensures Uncount(fs, fn) == fs[i := fs[i].(count := Decremented(fs[i].count))]
  {
    if i > 0 {
      assert fs[0].fn < fs[i].fn;
      UncountEntry(fs[1..], fn, i - 1);
    }
  }

  /** A function that is not in the table comes into it, with a count that no number of workers reaches. */
  lemma {:induction false} UncountUnknown(fs: seq<Entry>, fn: Function) returns (i: nat)
    requires !Known(fs, fn)
    ensures i < |Uncount(fs, fn)| && Uncount(fs, fn)[i] == Entry(fn, SIZE_MAX, 0)
  {
    i := 0;
    if fs != [] && fs[0].fn <= fn {
      assert fs[0] in fs;
      var j := UncountUnknown(fs[1..], fn);
      i := j + 1;
    }
  }

  lemma KnownAt(fs: seq<Entry>, fn: Function) returns (i: nat)
    requires Known(fs, fn)
    ensures i < |fs| && fs[i].fn == fn
  {
    var e :| e in fs && e.fn == fn;
    i :| 0 <= i < |fs| && fs[i] == e;
  }

  lemma ReapedKeepsCounts(t: Tables, pid: Pid)
    requires Counts(t) && pid in t.workers
    ensures Counts(Reaped(t, pid, t.workers[pid]))
  {
    var fn := t.workers[pid];
    var t' := Reaped(t, pid, fn);
    var i := KnownAt(t.functions, fn);
    UncountEntry(t.functions, fn, i);
    SameFunctions(t.functions, t'.functions);
    forall j | 0 <= j < |t.functions| ensures Accounted(t'.functions[j], t'.workers) {
      assert Accounted(t.functions[j], t.workers);
      OneWorkerLess(t.workers, pid, t.functions[j].fn);
    }
    forall p | p in t'.workers ensures Known(t'.functions, t'.workers[p]) {
      assert p in t.workers;
    }
  }

  lemma MisreadBreaksCounts(t: Tables, pid: Pid, read: Function)
    requires Counts(t) && pid in t.workers && read != t.workers[pid]
    ensures !Counts(Reaped(t, pid, read))
  {
    var t' := Reaped(t, pid, read);
    if Known(t.functions, read) {
      var i := KnownAt(t.functions, read);
      UncountEntry(t.functions, read, i);
      OneWorkerLess(t.workers, pid, read);
      assert Accounted(t.functions[i], t.workers);
      assert !Accounted(t'.functions[i], t'.workers);
    } else {
      var i := UncountUnknown(t.functions, read);
      assert !Accounted(t'.functions[i], t'.workers);
    }
  }

  /**
   The loop erases a worker's entry before it reads the worker's function from it. The accounts stay right
   exactly when the erased entry still reads as it did.
   */
  lemma ReapedKeepsCountsIff(t: Tables, pid: Pid, read: Function)
    requires Counts(t) && pid in t.workers
    ensures Counts(Reaped(t, pid, read)) <==> read == t.workers[pid]
  {
    if read == t.workers[pid] {
      ReapedKeepsCounts(t, pid);
    } else {
      MisreadBreaksCounts(t, pid, read);
    }
  }

  /**
   Every turn keeps the table equal to the live children, whatever erased entries read as; while shutting
   down, the workers only become fewer.
   */
  lemma TurnKeepsRecord(s: State, e: Event)
    requires Recorded(s) && !s.exited
    requires FreshForks(AfterReport(s, e).live.Keys, e.forks) && (s.signalled ==> e.exiting)
    ensures Recorded(Turn(s, e))
    ensures e.exiting ==> Turn(s, e).signalled && Turn(s, e).live == AfterReport(s, e).live
    ensures e.exiting ==> (Turn(s, e).exited <==> Turn(s, e).live == map[])
  {
    var r := AfterReport(s, e);
    assert r.tables.workers == r.live;
    if !e.exiting {
      SpawnRecordsChildren(r.tables, 0, e.forks);
    }
  }

  lemma TurnKeepsInv(s: State, e: Event)
    requires Inv(s) && !s.exited && ReadsRight(s, e)
    requires FreshForks(AfterReport(s, e).live.Keys, e.forks) && (s.signalled ==> e.exiting)
    ensures Inv(Turn(s, e))
  {
    TurnKeepsRecord(s, e);
    var r := AfterReport(s, e);
    if e.reported.Some? && e.reported.value in s.tables.workers {
      ReapedKeepsCounts(s.tables, e.reported.value);
    }
    assert Counts(r.tables) && r.tables.workers == r.live;
    if !e.exiting {
      SpawnKeepsCounts(r.tables, 0, e.forks);
    }
  }

  lemma {:induction false} LoopKeepsRecord(s: State, es: seq<Event>)
    requires Recorded(s) && Possible(s, es)
    ensures Recorded(Loop(s, es))
    decreases |es|
  {
    if es != [] && !s.exited {
      TurnKeepsRecord(s, es[0]);
      LoopKeepsRecord(Turn(s, es[0]), es[1..]);
    }
  }

  lemma {:induction false} LoopKeepsInv(s: State, es: seq<Event>)
    requires Inv(s) && Possible(s, es) && AllReadRight(s, es)
    ensures Inv(Loop(s, es))
    decreases |es|
  {
    if es != [] && !s.exited {
      TurnKeepsInv(s, es[0]);
      LoopKeepsInv(Turn(s, es[0]), es[1..]);
    }
  }

  ghost function Reported(es: seq<Event>): set<Pid> {
    set e | e in es && e.reported.Some? :: e.reported.value
  }

  lemma ReportedFirst(es: seq<Event>)
    requires es != []
    ensures Reported(es) == Reported(es[1..]) + if es[0].reported.Some? then {es[0].reported.value} else {}
  {
    assert es == [es[0]] + es[1..];
  }

  /**
   Shutting down: once `m_exiting` is seen, every live child has been sent SIGQUIT, none is started, and
   the loop ends exactly when every child then live has been reported, whatever erased entries read as.
   */
  lemma {:induction false} ShutdownEndsIff(s: State, es: seq<Event>)
    requires Recorded(s) && !s.exited && Possible(s, es)
    requires es != [] && forall i :: 0 <= i < |es| ==> es[i].exiting
    ensures var r := Loop(s, es);
            && Recorded(r) && r.signalled && r.live.Keys <= r.killed && r.live.Keys <= s.live.Keys
            && (r.exited <==> s.live.Keys <= Reported(es))
            && (r.exited ==> r.live == map[])
    decreases |es|
  {
    var t := Turn(s, es[0]);
    TurnKeepsRecord(s, es[0]);
    ReportedFirst(es);
    assert t.live == map[] <==> t.live.Keys == {};
    assert t.live.Keys == s.live.Keys - if es[0].reported.Some? then {es[0].reported.value} else {};
    if |es| == 1 {
      assert es[1..] == [];
      assert Reported([]) == {};
    } else if !t.exited {
      ShutdownEndsIff(t, es[1..]);
    }
  }

  // ----- workers that have ended are replaced

  /** How many forks succeed before one fails. */
  function Successes(forks: seq<Option<Pid>>): nat {
    if forks == [] || forks[0].None? then 0 else 1 + Successes(forks[1..])
  }

  function Lacking(minimum: nat, count: int): nat {
    if count < minimum then minimum - count else 0
  }

  /** How many workers the functions from the `i`th on lack, going by the counters. */
  function Missing(fs: seq<Entry>, i: nat): nat
    requires i <= |fs|
    decreases |fs| - i
  {
    if i == |fs| then 0 else Lacking(fs[i].minimum, fs[i].count) + Missing(fs, i + 1)
  }

  /** And how many they lack going by the children that are alive. */
  ghost function Shortage(fs: seq<Entry>, live: map<Pid, Function>, i: nat): nat
    requires i <= |fs|
    decreases |fs| - i
  {
    if i == |fs| then 0 else Lacking(fs[i].minimum, |WorkersOf(live, fs[i].fn)|) + Shortage(fs, live, i + 1)
  }

  /** Every function has as many live workers as it should. */
  ghost predicate Staffed(fs: seq<Entry>, live: map<Pid, Function>) {
    forall i :: 0 <= i < |fs| ==> |WorkersOf(live, fs[i].fn)| == fs[i].minimum
  }

  predicate SameMinimums(fs: seq<Entry>, fs': seq<Entry>) {
    |fs| == |fs'| && forall i :: 0 <= i < |fs| ==> fs'[i].fn == fs[i].fn && fs'[i].minimum == fs[i].minimum
  }

  lemma {:induction false} MissingFrom(fs: seq<Entry>, fs': seq<Entry>, i: nat)
    requires |fs| == |fs'| && i <= |fs| && forall j :: i <= j < |fs| ==> fs[j] == fs'[j]
    ensures Missing(fs, i) == Missing(fs', i)
    decreases |fs| - i
  {
    if i < |fs| {
      MissingFrom(fs, fs', i + 1);
    }
  }

  lemma {:induction false} MissingIsShortage(t: Tables, fs: seq<Entry>, i: nat)
    requires Counts(t) && SameMinimums(fs, t.functions) && i <= |fs|
    ensures Missing(t.functions, i) == Shortage(fs, t.workers, i)
    decreases |fs| - i
  {
    if i < |fs| {
      assert Accounted(t.functions[i], t.workers);
      MissingIsShortage(t, fs, i + 1);
    }
  }

  /** `spawn` sees to every function exactly when as many forks succeed as workers are missing. */
  lemma {:induction false} SpawnSeesToAllIff(t: Tables, i: nat, forks: seq<Option<Pid>>)
    requires i <= |t.functions|
    ensures var (t', all) := Spawn(t, i, forks);
            && (all <==> Missing(t.functions, i) <= Successes(forks))
            && (!all ==> exists j :: 0 <= j < |t'.functions| && t'.functions[j].count < t'.functions[j].minimum)
            && SameMinimums(t.functions, t'.functions)
    decreases |forks|, |t.functions| - i
  {
    if i == |t.functions| {
    } else if t.functions[i].count >= t.functions[i].minimum {
      SpawnSeesToAllIff(t, i + 1, forks);
    } else if !ForkFails(forks) {
      var t' := Started(t, i, forks[0].value);
      MissingFrom(t.functions, t'.functions, i + 1);
      SpawnSeesToAllIff(t', i, forks[1..]);
    }
  }

  /** So afterwards every function is staffed, going by the children alive, exactly then. */
  lemma SpawnStaffsIff(t: Tables, forks: seq<Option<Pid>>, fs: seq<Entry>)
    requires Counts(t) && FreshForks(t.workers.Keys, forks) && SameMinimums(fs, t.functions)
    ensures var t' := Spawn(t, 0, forks).0;
            && SameMinimums(fs, t'.functions)
            && (Staffed(fs, t'.workers) <==> Shortage(fs, t.workers, 0) <= Successes(forks))
  {
    SpawnKeepsCounts(t, 0, forks);
    SpawnSeesToAllIff(t, 0, forks);
    MissingIsShortage(t, fs, 0);
    var (t', all) := Spawn(t, 0, forks);
    assert forall j :: 0 <= j < |t'.functions| ==> Accounted(t'.functions[j], t'.workers);
  }

  lemma ReportKeepsMinimums(s: State, e: Event)
    requires Inv(s) && ReadsRight(s, e)
    ensures SameMinimums(s.tables.functions, AfterReport(s, e).tables.functions)
    ensures Counts(AfterReport(s, e).tables) && AfterReport(s, e).tables.workers == AfterReport(s, e).live
  {
    if e.reported.Some? && e.reported.value in s.tables.workers {
      ReapedKeepsCounts(s.tables, e.reported.value);
      var fn := s.tables.workers[e.reported.value];
      var i := KnownAt(s.tables.functions, fn);
      UncountEntry(s.tables.functions, fn, i);
    }
  }

  /**
   A turn of the loop before `m_exiting` is set leaves every function with its minimum of live workers exactly
   when as many forks succeed as are needed after the report: who has ended is replaced.
   */
  lemma TurnStaffsIff(s: State, e: Event)
    requires Inv(s) && !s.exited && ReadsRight(s, e) && !e.exiting
    requires FreshForks(AfterReport(s, e).live.Keys, e.forks)
    ensures SameMinimums(s.tables.functions, Turn(s, e).tables.functions)
    ensures Staffed(s.tables.functions, Turn(s, e).live) <==>
            Shortage(s.tables.functions, AfterReport(s, e).live, 0) <= Successes(e.forks)
  {
    ReportKeepsMinimums(s, e);
    var r := AfterReport(s, e);
    SpawnStaffsIff(r.tables, e.forks, s.tables.functions);
    SpawnRecordsChildren(r.tables, 0, e.forks);
  }

  lemma {:induction false} SameShortage(fs: seq<Entry>, fs': seq<Entry>, live: map<Pid, Function>, i: nat)
    requires SameMinimums(fs, fs') && i <= |fs|
    ensures Shortage(fs, live, i) == Shortage(fs', live, i)
    decreases |fs| - i
  {
    if i < |fs| {
      SameShortage(fs, fs', live, i + 1);
    }
  }

  lemma SameStaff(fs: seq<Entry>, fs': seq<Entry>, live: map<Pid, Function>)
    requires SameMinimums(fs, fs')
    ensures Staffed(fs, live) <==> Staffed(fs', live)
  {
  }

  lemma TurnExitsNot(s: State, e: Event)
    requires !s.exited && !e.exiting
    ensures !Turn(s, e).exited
  {
  }

  lemma LoopAfterFirst(s: State, es: seq<Event>, n: nat)
    requires !s.exited && 1 <= n < |es|
    ensures Loop(s, es[..n]) == Loop(Turn(s, es[0]), es[1..][..n - 1])
    ensures es[1..][n - 1] == es[n]
  {
    assert es[..n][0] == es[0] && es[..n][1..] == es[1..][..n - 1];
  }

  /** The same at the end of every run in which `m_exiting` is not set: its last turn decides. */
  lemma {:induction false} RunStaffsIff(s: State, es: seq<Event>)
    requires Inv(s) && !s.exited && Possible(s, es) && AllReadRight(s, es)
    requires es != [] && forall e :: e in es ==> !e.exiting
    ensures var n := |es| - 1;
            var before := AfterReport(Loop(s, es[..n]), es[n]).live;
            Staffed(s.tables.functions, Loop(s, es).live) <==>
            Shortage(s.tables.functions, before, 0) <= Successes(es[n].forks)
    decreases |es|
  {
    hide Turn, AfterReport, Shortage, Successes, Staffed;
    var n, s' := |es| - 1, Turn(s, es[0]);
    TurnStaffsIff(s, es[0]);
    if n == 0 {
      assert es[..0] == [] && es[1..] == [];
    } else {
      TurnKeepsInv(s, es[0]);
      TurnExitsNot(s, es[0]);
      RunStaffsIff(s', es[1..]);
      LoopAfterFirst(s, es, n);
      SameShortage(s.tables.functions, s'.tables.functions, AfterReport(Loop(s, es[..n]), es[n]).live, 0);
      SameStaff(s.tables.functions, s'.tables.functions, Loop(s, es).live);
    }
  }
}
