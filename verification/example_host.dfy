/** The example browser shared by the example suites: `App`, an application
    that hosts one example at a time and moves between examples with the
    1 and 2 keys, and `ExampleBase`, the lifecycle every example follows
    (start between two allocator resets, exit at most once). What the
    examples do inside their callbacks is recorded, not interpreted: the
    host's calls into them are logged in order. */
module ExampleHost {
  import opened Native
  import Input
  import Arenas
  import Applications

  /** A live example: which entry of the example list it was created from,
      and whether it has exited. */
  datatype Example = Example(typeIndex: nat, hasExited: bool)

  /** The host's calls into examples and their windows. */
  datatype HostCall =
    | ExampleCreated(typeIndex: nat)
    | ExampleOnStart(typeIndex: nat)
    | ExampleOnExit(typeIndex: nat)
    | WindowDisposed(typeIndex: nat)
    | AllocatorReset
    | TitleSetToName(typeIndex: nat)
    | TitleSet(typeIndex: nat, framesPerSecond: int)
    | ExampleOnUpdate(typeIndex: nat, deltaTicks: int)
    | ExampleOnDraw(typeIndex: nat, deltaTicks: int)
    | Forwarded(typeIndex: nat, input: Applications.Callback)

  // ---------------------------------------------------------------- ExampleBase

  /** `ExampleBase.Exit`: only the first call runs `OnExit` and disposes
      the window. */
  function ExitExample(e: Example, log: seq<HostCall>): (r: (Example, seq<HostCall>))
    ensures r.0 == e.(hasExited := true)
    ensures e.hasExited ==> r.1 == log
    ensures !e.hasExited ==> r.1 == log + [ExampleOnExit(e.typeIndex), WindowDisposed(e.typeIndex)]
  {
    if e.hasExited then (e, log)
    else (e.(hasExited := true), log + [ExampleOnExit(e.typeIndex), WindowDisposed(e.typeIndex)])
  }

  /** Exiting is idempotent: a second exit changes nothing and adds no
      call, so `OnExit` runs at most once per example. */
  lemma ExitExampleOnce(e: Example, log: seq<HostCall>)
    ensures var (e1, log1) := ExitExample(e, log);
            ExitExample(e1, log1) == (e1, log1)
    ensures ExitExample(e, log).1[|log|..] == (if e.hasExited then [] else [ExampleOnExit(e.typeIndex), WindowDisposed(e.typeIndex)])
  {
  }

  /** `ExampleBase.Start`: set the window title to the example's name, reset the shared allocator, run
      `OnStart` (which may allocate), reset again, and report `OnStart`'s
      result. */
  function StartExample(e: Example, allocator: Arenas.Arena, allocatedByOnStart: seq<string>, onStartOk: bool,
                        log: seq<HostCall>): (r: (bool, Arenas.Arena, seq<HostCall>))
    ensures r.0 == onStartOk
    ensures r.1.live == [] && r.1.(live := allocator.live) == allocator
    ensures |r.2| == |log| + 4 && r.2[..|log|] == log
    ensures r.2[|log| + 1] == AllocatorReset && r.2[|log| + 2] == ExampleOnStart(e.typeIndex)
            && r.2[|log| + 3] == AllocatorReset
  {
    var a1 := Arenas.Reset(allocator);
    var a2 := a1.(live := a1.live + allocatedByOnStart);
    var a3 := Arenas.Reset(a2);
    (onStartOk, a3, log + [TitleSetToName(e.typeIndex), AllocatorReset, ExampleOnStart(e.typeIndex), AllocatorReset])
  }

  /** Whatever `OnStart` allocates, the allocator is empty again when
      `Start` returns, and `OnStart` ran with an empty allocator: the only
      calls are `OnStart` between two resets, and its result is passed on. */
  lemma StartResetsAllocatorAroundOnStart(e: Example, allocator: Arenas.Arena, allocations: seq<string>, ok: bool,
                                          log: seq<HostCall>)
    ensures var (started, a, log1) := StartExample(e, allocator, allocations, ok, log);
            && started == ok
            && a.live == [] && a.id == allocator.id && a.isDisposed == allocator.isDisposed
            && log1 == log + [TitleSetToName(e.typeIndex), AllocatorReset, ExampleOnStart(e.typeIndex), AllocatorReset]
  {
  }

  // ---------------------------------------------------------------- App

  datatype App = App(
    exampleIndex: int,
    goToExampleIndex: int,
    examplesCount: nat,
    current: Option<Example>,
    allocator: Arenas.Arena,
    isExiting: bool,
    log: seq<HostCall>)

  /** The arena capacity `App` creates for its examples. */
  const AllocatorCapacity: nat := 1024

  /** A fresh `App` after `OnStart` found `examplesCount` example types:
      no example yet, and example 0 pending. */
  function NewApp(examplesCount: nat, allocatorId: nat): (a: App)
    ensures a.exampleIndex == -1 && a.goToExampleIndex == 0 && a.current.None? && !a.isExiting
  {
    App(-1, 0, examplesCount, None, Arenas.New(allocatorId, AllocatorCapacity), false, [])
  }

  function Forward(a: App, input: Applications.Callback): App
  {
    if a.current.None? then a else a.(log := a.log + [Forwarded(a.current.value.typeIndex, input)])
  }

  /** `App.OnKeyDown`: 2 moves the pending example one forward, 1 one back,
      each wrapping around the list; the key is forwarded either way. */
  function OnKeyDown(a: App, key: Input.KeyboardButton, input: Applications.Callback): (r: App)
    ensures key != Input.Number1 && key != Input.Number2 ==> r.goToExampleIndex == a.goToExampleIndex
    ensures r.(log := a.log, goToExampleIndex := a.goToExampleIndex) == a
    ensures a.current.None? ==> r.log == a.log
    ensures a.current.Some? ==> r.log == a.log + [Forwarded(a.current.value.typeIndex, input)]
  {
    Forward(a.(goToExampleIndex := NavigationTarget(a, key)), input)
  }

  /** The pending index the number keys select: 2 the next example and 1
      the previous one, each wrapping at the ends of the list. */
  function NavigationTarget(a: App, key: Input.KeyboardButton): int
  {
    if key == Input.Number2 then (if a.exampleIndex + 1 >= a.examplesCount then 0 else a.exampleIndex + 1)
    else if key == Input.Number1 then (if a.exampleIndex - 1 < 0 then a.examplesCount - 1 else a.exampleIndex - 1)
    else a.goToExampleIndex
  }

  /** Navigation is modular over the example list: from a shown example,
      2 selects the next one and 1 the previous one, cyclically. Before the
      first example is shown, 2 selects the first and 1 the last. */
  lemma NavigationWrapsAround(a: App, input: Applications.Callback)
    requires a.examplesCount > 0 && -1 <= a.exampleIndex < a.examplesCount
    ensures var n := a.examplesCount;
            var next := OnKeyDown(a, Input.Number2, input).goToExampleIndex;
            var previous := OnKeyDown(a, Input.Number1, input).goToExampleIndex;
            && 0 <= next < n && 0 <= previous < n
            && (a.exampleIndex >= 0 ==> next == (a.exampleIndex + 1) % n && previous == (a.exampleIndex - 1 + n) % n)
            && (a.exampleIndex == -1 ==> next == 0 && previous == n - 1)
  {
    var e := a.exampleIndex;
    var n := a.examplesCount;
    assert OnKeyDown(a, Input.Number2, input).goToExampleIndex == NavigationTarget(a, Input.Number2);
    assert OnKeyDown(a, Input.Number1, input).goToExampleIndex == NavigationTarget(a, Input.Number1);
    if e >= 0 {
      WrapsModulo(e, n);
    }
  }

  /** Stepping with wrap-around at either end is arithmetic modulo `n`. */
  lemma WrapsModulo(e: int, n: int)
    requires 0 <= e < n
    ensures (if e + 1 >= n then 0 else e + 1) == (e + 1) % n
    ensures (if e - 1 < 0 then n - 1 else e - 1) == (e - 1 + n) % n
  {
    if e + 1 < n {
      ModuloUnique(e + 1, n, 0, e + 1);
    } else {
      ModuloUnique(e + 1, n, 1, 0);
    }
    if e >= 1 {
      ModuloUnique(e - 1 + n, n, 1, e - 1);
    } else {
      ModuloUnique(e - 1 + n, n, 0, n - 1);
    }
  }

  /** With no examples at all, 1 turns the pending switch off (the pending
      index becomes the "none" marker -1), and 2 asks for example 0. */
  lemma NavigationWithNoExamples(a: App, input: Applications.Callback)
    requires a.examplesCount == 0 && a.exampleIndex == -1
    ensures OnKeyDown(a, Input.Number1, input).goToExampleIndex == -1
    ensures OnKeyDown(a, Input.Number2, input).goToExampleIndex == 0
  {
  }

  /** What the next example's `OnStart` does, supplied by the caller. */
  datatype StartOutcome = StartOutcome(allocations: seq<string>, ok: bool)

  /** `App.OnUpdate`. When a switch is pending: exit and drop the current
      example, create the pending one (an index outside the list throws),
      start it; on a failed start drop it and exit the application, leaving
      the switch pending. Then, with an example shown, set its title and
      forward the update. */
  function OnUpdate(a: App, deltaTicks: int, framesPerSecond: int, start: StartOutcome): (r: Result<App>)
    ensures r.Throw? <==> a.goToExampleIndex != -1 && !(0 <= a.goToExampleIndex < a.examplesCount)
    ensures r.Throw? ==> r.error == IndexOutOfRange
    ensures r.Return? ==> r.value.examplesCount == a.examplesCount
    ensures r.Return? && a.goToExampleIndex == -1 ==> r.value.current == a.current
    ensures r.Return? && r.value.current.Some? ==>
              |r.value.log| > 0 && r.value.log[|r.value.log| - 1] == ExampleOnUpdate(r.value.current.value.typeIndex, deltaTicks)
  {
    var switched :=
      if a.goToExampleIndex == -1 then Return(a)
      else
        var (afterExit, log1) :=
          if a.current.None? then (a.current, a.log)
          else var (e, l) := ExitExample(a.current.value, a.log); (None, l);
        if !(0 <= a.goToExampleIndex < a.examplesCount) then Throw(IndexOutOfRange)
        else
          var next := Example(a.goToExampleIndex, false);
          var log2 := log1 + [ExampleCreated(next.typeIndex)];
          var (ok, allocator, log3) := StartExample(next, a.allocator, start.allocations, start.ok, log2);
          if !ok then Return(a.(exampleIndex := a.goToExampleIndex, current := None, allocator := allocator,
                                isExiting := true, log := log3))
          else Return(a.(exampleIndex := a.goToExampleIndex, goToExampleIndex := -1, current := Some(next),
                         allocator := allocator, log := log3));
    if switched.Throw? then switched
    else
      var b := switched.value;
      if b.current.None? then Return(b)
      else
        var i := b.current.value.typeIndex;
        Return(b.(log := b.log + [TitleSet(i, framesPerSecond), ExampleOnUpdate(i, deltaTicks)]))
  }

  /** `App.OnDraw` forwards to the shown example, if any. */
  function OnDraw(a: App, deltaTicks: int): (r: App)
    ensures r.(log := a.log) == a
    ensures a.current.None? ==> r.log == a.log
    ensures a.current.Some? ==> r.log == a.log + [ExampleOnDraw(a.current.value.typeIndex, deltaTicks)]
  {
    if a.current.None? then a else a.(log := a.log + [ExampleOnDraw(a.current.value.typeIndex, deltaTicks)])
  }

  /** `App.OnExit`: exit the shown example, if any, and drop it. */
  function OnExit(a: App): (r: App)
    ensures r.current.None?
    ensures r.(current := a.current, log := a.log) == a
    ensures a.current.None? ==> r == a
    ensures a.current.Some? ==> r.log == ExitExample(a.current.value, a.log).1
  {
    if a.current.None? then a
    else a.(current := None, log := ExitExample(a.current.value, a.log).1)
  }

  /** The host invariant: with a non-empty list, the shown index is -1 or
      a list index, the pending index is -1 (none) or a list index, and the
      shown example is the one at the shown index. */
  ghost predicate Valid(a: App)
  {
    && a.examplesCount > 0
    && -1 <= a.exampleIndex < a.examplesCount
    && -1 <= a.goToExampleIndex < a.examplesCount
    && (a.current.Some? ==> a.current.value.typeIndex == a.exampleIndex && !a.current.value.hasExited)
  }

  /** Key presses and updates keep the host invariant; with a valid host an
      update never throws. */
  lemma HostInvariantKept(a: App, key: Input.KeyboardButton, input: Applications.Callback,
                          deltaTicks: int, framesPerSecond: int, start: StartOutcome)
    requires Valid(a)
    ensures Valid(OnKeyDown(a, key, input))
    ensures OnUpdate(a, deltaTicks, framesPerSecond, start).Return?
    ensures Valid(OnUpdate(a, deltaTicks, framesPerSecond, start).value)
  {
  }

  /** The first update shows example 0: it is created and started, and with
      a successful start it receives the update; with no examples at all the
      first update throws. */
  lemma FirstUpdateStartsFirstExample(examplesCount: nat, allocatorId: nat, deltaTicks: int,
                                      framesPerSecond: int, start: StartOutcome)
    ensures examplesCount == 0 ==> OnUpdate(NewApp(examplesCount, allocatorId), deltaTicks, framesPerSecond, start)
                                   == Throw(IndexOutOfRange)
    ensures examplesCount > 0 && start.ok ==>
              var r := OnUpdate(NewApp(examplesCount, allocatorId), deltaTicks, framesPerSecond, start);
              && r.Return? && r.value.exampleIndex == 0 && r.value.goToExampleIndex == -1
              && r.value.current == Some(Example(0, false))
              && r.value.allocator.live == []
              && r.value.log == [ExampleCreated(0), TitleSetToName(0), AllocatorReset, ExampleOnStart(0),
                                 AllocatorReset, TitleSet(0, framesPerSecond), ExampleOnUpdate(0, deltaTicks)]
  {
  }

  /** A switch exits the previous example before the next one is created,
      and the next one is started before it receives its first update. */
  lemma SwitchExitsPreviousFirst(a: App, deltaTicks: int, framesPerSecond: int, start: StartOutcome)
    requires Valid(a) && a.goToExampleIndex != -1 && a.current.Some? && start.ok
    ensures var r := OnUpdate(a, deltaTicks, framesPerSecond, start).value;
            var previous := a.current.value.typeIndex;
            var next := a.goToExampleIndex;
            && r.log == a.log + [ExampleOnExit(previous), WindowDisposed(previous), ExampleCreated(next), TitleSetToName(next),
                                 AllocatorReset, ExampleOnStart(next), AllocatorReset,
                                 TitleSet(next, framesPerSecond), ExampleOnUpdate(next, deltaTicks)]
            && r.exampleIndex == next && r.goToExampleIndex == -1 && r.current == Some(Example(next, false))
  {
  }

  /** A failed start exits the application with no example shown; the
      failed example gets neither its update nor its `OnExit`, and the
      switch stays pending. */
  lemma FailedStartExitsApplication(a: App, deltaTicks: int, framesPerSecond: int, start: StartOutcome)
    requires Valid(a) && a.goToExampleIndex != -1 && !start.ok
    ensures var r := OnUpdate(a, deltaTicks, framesPerSecond, start).value;
            && r.isExiting && r.current.None? && r.goToExampleIndex == a.goToExampleIndex
            && r.log[|r.log| - 1] == AllocatorReset
            && ((ExampleOnExit(a.goToExampleIndex) !in r.log[|a.log|..])
                  == (a.current.None? || a.current.value.typeIndex != a.goToExampleIndex))
  {
    var r := OnUpdate(a, deltaTicks, framesPerSecond, start).value;
    var added := r.log[|a.log|..];
    var next := a.goToExampleIndex;
    if a.current.None? {
      assert added == [ExampleCreated(next), TitleSetToName(next), AllocatorReset, ExampleOnStart(next), AllocatorReset];
    } else {
      var p := a.current.value.typeIndex;
      assert added == [ExampleOnExit(p), WindowDisposed(p), ExampleCreated(next), TitleSetToName(next),
                       AllocatorReset, ExampleOnStart(next), AllocatorReset];
    }
  }

  /** Exiting the host exits the shown example exactly once: a second
      `OnExit` adds nothing. */
  lemma OnExitOnce(a: App)
    requires Valid(a)
    ensures OnExit(OnExit(a)) == OnExit(a)
    ensures a.current.Some? ==>
              OnExit(a).log == a.log + [ExampleOnExit(a.current.value.typeIndex), WindowDisposed(a.current.value.typeIndex)]
  {
  }
}
