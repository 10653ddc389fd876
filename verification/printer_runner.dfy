/** The runner that keeps one reporting loop alive while at least one watcher
    is registered. Its state is two integers guarded by one lock:
    `watcherCount`, the number of `watchAndPrintCounts` calls not yet
    cancelled, and `runningCounter`, the number of reporting loops started
    and not yet stopped. Each `lock.withLock` body is one atomic transition.

    `System` puts the runner together with the loops it started, the counter
    store and the log: a loop sleeps, runs `printCounts`, runs `resetCounters`
    (two separate critical sections), then decides under the runner's lock
    whether to stop. */
module PrinterRunner {
  import opened OrderedMap
  import opened CounterStore
  import Report

  datatype Counters = Counters(watcherCount: int, runningCounter: int)

  const Initial: Counters := Counters(0, 0)

  /** `watcherIsRunning`. */
  predicate WatcherIsRunning(c: Counters) {
    c.watcherCount != 0
  }

  /** The critical section on entry to `watchAndPrintCounts`: a loop is
      started only when none is counted as running, and the deferred
      increment of `watcherCount` happens on both paths. */
  function WatchStart(c: Counters): (r: (Counters, bool))
    ensures r.0.watcherCount == c.watcherCount + 1
    ensures r.1 <==> c.runningCounter < 1
    ensures r.0.runningCounter == c.runningCounter + (if r.1 then 1 else 0)
  {
    if c.runningCounter < 1 then (Counters(c.watcherCount + 1, c.runningCounter + 1), true)
    else (Counters(c.watcherCount + 1, c.runningCounter), false)
  }

  /** The critical section at the end of a loop iteration: stop, and count
      one loop less, when no watcher is left or more than one loop runs;
      otherwise change nothing. */
  function TickDecision(c: Counters): (r: (Counters, bool))
    ensures r.1 <==> (c.watcherCount == 0 || c.runningCounter > 1)
    ensures r.1 ==> r.0 == Counters(c.watcherCount, c.runningCounter - 1)
    ensures !r.1 ==> r.0 == c
  {
    if c.watcherCount == 0 || c.runningCounter > 1 then (Counters(c.watcherCount, c.runningCounter - 1), true)
    else (c, false)
  }

  /** The critical section after a watcher's sleep is cancelled. */
  function WatchCancel(c: Counters): (r: Counters)
    ensures r.watcherCount == c.watcherCount - 1
    ensures r.runningCounter == c.runningCounter
  {
    Counters(c.watcherCount - 1, c.runningCounter)
  }

  // The whole system.

  /** Where a reporting loop is in its iteration: sleeping, after
      `printCounts`, or after `resetCounters` and before the stop check. */
  datatype Phase = Sleeping | Printed | Flushed

  datatype System = System(
    counters: Counters,
    pendingWatches: nat,         // `watchAndPrintCounts` calls still sleeping
    loops: multiset<Phase>,      // the reporting loops alive, by phase
    store: Store,
    log: seq<Report.Line>)

  datatype Step =
    | Record(e: Event)           // `add` from a render
    | Watch                      // a `watchAndPrintCounts` call enters
    | Cancel                     // a sleeping `watchAndPrintCounts` call is cancelled
    | Print                      // a loop wakes and runs `printCounts`
    | Reset                      // that loop runs `resetCounters`
    | Check                      // that loop decides whether to stop

  const Start: System := System(Initial, 0, multiset{}, [], [])

  predicate Enabled(s: System, st: Step) {
    match st
    case Cancel => s.pendingWatches > 0
    case Print => Sleeping in s.loops
    case Reset => Printed in s.loops
    case Check => Flushed in s.loops
    case _ => true
  }

  function Next(s: System, st: Step): (r: System)
    requires Enabled(s, st)
    ensures s.log <= r.log
    ensures st.Print? ==> r.log == s.log + Report.ReportLines(s.store)
    ensures !st.Print? ==> r.log == s.log
    ensures !(st.Record? || st.Reset?) ==> r.store == s.store
    ensures !(st.Watch? || st.Cancel? || st.Check?) ==> r.counters == s.counters
    ensures r.pendingWatches == s.pendingWatches + (if st.Watch? then 1 else 0) - (if st.Cancel? then 1 else 0)
  {
    match st
    case Record(e) => s.(store := Add(s.store, e))
    case Watch =>
      var r := WatchStart(s.counters);
      s.(counters := r.0, pendingWatches := s.pendingWatches + 1,
         loops := if r.1 then s.loops + multiset{Sleeping} else s.loops)
    case Cancel => s.(counters := WatchCancel(s.counters), pendingWatches := s.pendingWatches - 1)
    case Print =>
      s.(loops := s.loops - multiset{Sleeping} + multiset{Printed}, log := s.log + Report.ReportLines(s.store))
    case Reset =>
      s.(loops := s.loops - multiset{Printed} + multiset{Flushed}, store := ResetCounters(s.store))
    case Check =>
      var r := TickDecision(s.counters);
      s.(counters := r.0, loops := s.loops - multiset{Flushed} + (if r.1 then multiset{} else multiset{Sleeping}))
  }

  /** One step attempted in `s`: a step that cannot happen there leaves the
      state unchanged. */
  function Apply(s: System, st: Step): System
  {
    if Enabled(s, st) then Next(s, st) else s
  }

  /** The system after `steps`, from the start. */
  function Run(steps: seq<Step>): System
  {
    if |steps| == 0 then Start else Apply(Run(steps[..|steps| - 1]), steps[|steps| - 1])
  }

  /** The counters mirror the system: `watcherCount` is the number of
      pending watch calls, `runningCounter` the number of live loops, at
      most one loop lives, a loop lives while a watcher is pending, and the
      store is well formed. */
  ghost predicate Inv(s: System) {
    && s.counters.watcherCount == s.pendingWatches
    && s.counters.runningCounter == |s.loops|
    && |s.loops| <= 1
    && (s.pendingWatches > 0 ==> |s.loops| == 1)
    && StoreValid(s.store)
  }

  lemma MultisetSwap(m: multiset<Phase>, a: Phase, b: Phase)
    requires a in m
    ensures |m - multiset{a} + multiset{b}| == |m|
  {
    assert m == (m - multiset{a}) + multiset{a};
  }

  lemma InvAfterWatch(s: System)
    requires Inv(s)
    ensures Inv(Next(s, Watch))
  {
    if |s.loops| == 0 {
      assert s.loops == multiset{};
    }
  }

  lemma InvAfterSwap(s: System, st: Step)
    requires Inv(s) && Enabled(s, st) && (st.Print? || st.Reset?)
    ensures Inv(Next(s, st))
  {
    if st.Print? {
      MultisetSwap(s.loops, Sleeping, Printed);
    } else {
      MultisetSwap(s.loops, Printed, Flushed);
    }
  }

  lemma InvAfterCheck(s: System)
    requires Inv(s) && Enabled(s, Check)
    ensures Inv(Next(s, Check))
  {
    assert s.loops == multiset{Flushed} by {
      assert s.loops == (s.loops - multiset{Flushed}) + multiset{Flushed};
    }
    assert s.loops - multiset{Flushed} == multiset{};
    var r := TickDecision(s.counters);
    if r.1 {
      assert s.counters.watcherCount == 0 && r.0.runningCounter == 0;
      assert Next(s, Check).loops == multiset{};
    } else {
      assert r.0 == s.counters;
      assert Next(s, Check).loops == multiset{Sleeping};
    }
  }

  lemma NextKeepsInv(s: System, st: Step)
    requires Inv(s) && Enabled(s, st)
    ensures Inv(Next(s, st))
  {
    match st
    case Watch => InvAfterWatch(s);
    case Print => InvAfterSwap(s, st);
    case Reset => InvAfterSwap(s, st);
    case Check => InvAfterCheck(s);
    case _ =>
  }

  /** Every reachable state satisfies `Inv`. */
  lemma {:induction false} RunKeepsInv(steps: seq<Step>)
    ensures Inv(Run(steps))
  {
    if |steps| > 0 {
      RunKeepsInv(steps[..|steps| - 1]);
      var s := Run(steps[..|steps| - 1]);
      assert Run(steps) == Apply(s, steps[|steps| - 1]);
      if Enabled(s, steps[|steps| - 1]) {
        NextKeepsInv(s, steps[|steps| - 1]);
      }
    }
  }

  /** Whatever the interleaving, at most one reporting loop is alive, and
      `runningCounter` stays within 0..1 and counts it. */
  lemma {:induction false} AtMostOneLoop(steps: seq<Step>)
    ensures |Run(steps).loops| <= 1
    ensures 0 <= Run(steps).counters.runningCounter <= 1
    ensures Run(steps).counters.runningCounter == |Run(steps).loops|
  {
    RunKeepsInv(steps);
  }

  /** `watcherIsRunning` holds exactly while some `watchAndPrintCounts` call
      is registered and not yet cancelled, and then a loop is alive. */
  lemma {:induction false} WatcherIsRunningIffPending(steps: seq<Step>)
    ensures WatcherIsRunning(Run(steps).counters) <==> Run(steps).pendingWatches > 0
    ensures WatcherIsRunning(Run(steps).counters) ==> |Run(steps).loops| == 1
  {
    RunKeepsInv(steps);
  }

  /** The `runningCounter > 1` half of the stop condition never decides:
      in a reachable state a loop stops exactly when no watcher is left. */
  lemma {:induction false} StopOnlyWithoutWatchers(steps: seq<Step>)
    ensures TickDecision(Run(steps).counters).1 <==> Run(steps).counters.watcherCount == 0
  {
    RunKeepsInv(steps);
  }

  /** In a reachable state a watch call starts a loop exactly when none is
      alive, and afterwards exactly one is. */
  lemma {:induction false} WatchStartsLoopIffNone(steps: seq<Step>)
    ensures WatchStart(Run(steps).counters).1 <==> |Run(steps).loops| == 0
    ensures Next(Run(steps), Watch).loops == if |Run(steps).loops| == 0 then multiset{Sleeping} else Run(steps).loops
    ensures |Next(Run(steps), Watch).loops| == 1
  {
    var s := Run(steps);
    RunKeepsInv(steps);
    if |s.loops| == 0 {
      assert s.loops == multiset{};
    }
  }

  /** With no watcher left, a sleeping loop stops after one more iteration
      (print, reset, check) when no watch call comes in between, and leaves
      the counters at zero. */
  lemma {:induction false} StopWithinOneIteration(steps: seq<Step>)
    requires Run(steps).pendingWatches == 0 && Sleeping in Run(steps).loops
    ensures Run(steps + [Print, Reset, Check]).loops == multiset{}
    ensures Run(steps + [Print, Reset, Check]).counters == Initial
  {
    RunKeepsInv(steps);
    LastIteration(Run(steps));
    RunThree(steps, Print, Reset, Check);
  }

  lemma LastIteration(s: System)
    requires Inv(s) && s.pendingWatches == 0 && Sleeping in s.loops
    ensures Apply(Apply(Apply(s, Print), Reset), Check).loops == multiset{}
    ensures Apply(Apply(Apply(s, Print), Reset), Check).counters == Initial
  {
    assert s.loops == multiset{Sleeping} by {
      assert s.loops == (s.loops - multiset{Sleeping}) + multiset{Sleeping};
    }
    assert s.counters == Counters(0, 1);
    PrintFromSleeping(s);
    ResetFromPrinted(Apply(s, Print));
    CheckFromFlushed(Apply(Apply(s, Print), Reset));
  }

  lemma PrintFromSleeping(s: System)
    requires s.loops == multiset{Sleeping}
    ensures Apply(s, Print).loops == multiset{Printed} && Apply(s, Print).counters == s.counters
  {
    assert Enabled(s, Print);
    assert s.loops - multiset{Sleeping} == multiset{};
  }

  lemma ResetFromPrinted(s: System)
    requires s.loops == multiset{Printed}
    ensures Apply(s, Reset).loops == multiset{Flushed} && Apply(s, Reset).counters == s.counters
  {
    assert Enabled(s, Reset);
    assert s.loops - multiset{Printed} == multiset{};
  }

  lemma CheckFromFlushed(s: System)
    requires s.loops == multiset{Flushed} && s.counters == Counters(0, 1)
    ensures Apply(s, Check).loops == multiset{} && Apply(s, Check).counters == Initial
  {
    assert Enabled(s, Check);
    assert s.loops - multiset{Flushed} == multiset{};
  }

  /** The flush is two critical sections: an `add` that lands
      between `printCounts` and `resetCounters` is cleared without ever
      being reported. */
  lemma {:induction false} AddBetweenPrintAndResetIsDropped(steps: seq<Step>, e: Event)
    requires Printed in Run(steps).loops
    ensures Count(Run(steps + [Record(e)]).store, e.key, e.diff) >= 1
    ensures Count(Run(steps + [Record(e), Reset]).store, e.key, e.diff) == 0
    ensures Run(steps + [Record(e), Reset]).log == Run(steps).log
  {
    RunSnoc(steps, Record(e));
    RunTwo(steps, Record(e), Reset);
    RecordThenReset(Run(steps), e);
  }

  lemma RecordThenReset(s: System, e: Event)
    requires Printed in s.loops
    ensures Count(Apply(s, Record(e)).store, e.key, e.diff) >= 1
    ensures Count(Apply(Apply(s, Record(e)), Reset).store, e.key, e.diff) == 0
    ensures Apply(Apply(s, Record(e)), Reset).log == s.log
  {
    var s1 := Next(s, Record(e));
    assert Apply(s, Record(e)) == s1;
    assert Printed in s1.loops;
    assert Apply(s1, Reset) == Next(s1, Reset);
  }

  lemma RunSnoc(steps: seq<Step>, a: Step)
    ensures Run(steps + [a]) == Apply(Run(steps), a)
  {
    assert (steps + [a])[..|steps|] == steps;
  }

  lemma RunTwo(steps: seq<Step>, a: Step, b: Step)
    ensures Run(steps + [a, b]) == Apply(Apply(Run(steps), a), b)
  {
    var t1 := steps + [a];
    assert t1 + [b] == steps + [a, b];
    RunSnoc(steps, a);
    RunSnoc(t1, b);
  }

  lemma RunThree(steps: seq<Step>, a: Step, b: Step, c: Step)
    ensures Run(steps + [a, b, c]) == Apply(Apply(Apply(Run(steps), a), b), c)
  {
    var t2 := steps + [a, b];
    assert t2 + [c] == steps + [a, b, c];
    RunTwo(steps, a, b);
    RunSnoc(t2, c);
  }
}
