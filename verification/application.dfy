/** Application: event decoding into the overridable callbacks, the
    exiting/background flags, the frame loop with its frames-per-second
    accumulator, the once-only application singleton and the platform-name
    mapping. Callbacks the application makes are recorded in order;
    positions, the clock and the native event queue are inputs. */
module Applications {
  import opened Native
  import Text
  import Input

  /** One second of `TimeSpan` ticks. */
  const TicksPerSecond: int := 10_000_000

  /** The native events the application distinguishes. For the button and
      key events `upType` says which of the two event types arrived; the
      handler looks only at the `down` field of the payload. */
  datatype SdlEvent =
    | QuitEvent
    | WindowOccluded
    | WindowExposed
    | MouseMotion(windowId: int, x: int, y: int)
    | MouseButtonEvent(upType: bool, windowId: int, button: int, down: bool, clicks: nat, x: int, y: int)
    | KeyboardEvent(upType: bool, windowId: int, scancode: int, down: bool, repeat: bool)
    | DidEnterBackground
    | WillEnterForeground
    | OtherEvent(code: nat)

  /** The callbacks the application makes; `window` is `None` for a window
      id the application does not know (a null window). */
  datatype Callback =
    | OnMouseMove(window: Option<int>, x: int, y: int)
    | OnMouseDown(window: Option<int>, button: Input.MouseButton, clicks: nat, x: int, y: int)
    | OnMouseUp(window: Option<int>, button: Input.MouseButton, clicks: nat, x: int, y: int)
    | OnKeyDown(window: Option<int>, key: Input.KeyboardButton, isRepeat: bool)
    | OnKeyUp(window: Option<int>, key: Input.KeyboardButton, isRepeat: bool)
    | OnUpdate(deltaTicks: int)
    | OnDraw(deltaTicks: int)
    | OnStart
    | OnExit

  datatype App = App(isExiting: bool, isInBackground: bool, framesPerSecond: int, calls: seq<Callback>)

  function Call(app: App, c: Callback): App
  {
    app.(calls := app.calls + [c])
  }

  /** `Exit`: the loop stops before its next frame. */
  function Exit(app: App): (r: App)
    ensures r.isExiting && r.(isExiting := app.isExiting) == app
  {
    app.(isExiting := true)
  }

  /** `Dispose(bool)` only asks the loop to exit. */
  function Dispose(app: App): (r: App)
    ensures r == Exit(app)
    ensures r.isExiting && r.calls == app.calls && r.isInBackground == app.isInBackground
  {
    Exit(app)
  }

  /** The window-id lookup: a null window for an unknown id. */
  function WindowOf(windows: set<int>, id: int): (w: Option<int>)
    ensures w.Some? <==> id in windows
    ensures w.Some? ==> w.value == id
  {
    if id in windows then Some(id) else None
  }

  /** `HandleEvent` and the three handlers it dispatches to. */
  function HandleEvent(app: App, windows: set<int>, e: SdlEvent): (r: App)
    ensures r.framesPerSecond == app.framesPerSecond
    ensures |app.calls| <= |r.calls| <= |app.calls| + 1 && r.calls[..|app.calls|] == app.calls
    ensures |r.calls| == |app.calls| + 1 <==> e.MouseMotion? || e.MouseButtonEvent? || e.KeyboardEvent?
    ensures e.DidEnterBackground? || e.WillEnterForeground? || e.OtherEvent? ==> r == app
  {
    match e
    case QuitEvent => app.(isExiting := true)
    case WindowOccluded => app.(isInBackground := true)
    case WindowExposed => app.(isInBackground := false)
    case MouseMotion(id, x, y) => Call(app, OnMouseMove(WindowOf(windows, id), x, y))
    case MouseButtonEvent(_, id, code, down, clicks, x, y) =>
      var button := Input.MouseButtonOfCode(code);
      var w := WindowOf(windows, id);
      Call(app, if down then OnMouseDown(w, button, clicks, x, y) else OnMouseUp(w, button, clicks, x, y))
    case KeyboardEvent(_, id, scancode, down, repeat) =>
      var key := Input.ButtonOfScancode(scancode);
      var w := WindowOf(windows, id);
      Call(app, if down then OnKeyDown(w, key, repeat) else OnKeyUp(w, key, repeat))
    case _ => app
  }

  /** `OnEventWatch`, the callback SDL runs as events arrive: only the
      background flag can change. Its return value is always false. */
  function OnEventWatch(app: App, e: SdlEvent): (r: (App, bool))
    ensures !r.1
    ensures r.0.(isInBackground := app.isInBackground) == app
  {
    match e
    case DidEnterBackground => (app.(isInBackground := true), false)
    case WillEnterForeground => (app.(isInBackground := false), false)
    case _ => (app, false)
  }

  /** The flag transitions of the two event paths, each in both directions:
      quit sets the exiting flag and nothing else clears it; occluded and
      enter-background set the background flag, exposed and
      enter-foreground clear it, and every other event leaves both flags
      alone. */
  lemma FlagTransitions(app: App, windows: set<int>, e: SdlEvent)
    ensures HandleEvent(app, windows, e).isExiting <==> app.isExiting || e.QuitEvent?
    ensures HandleEvent(app, windows, e).isInBackground ==
              (if e.WindowOccluded? then true else if e.WindowExposed? then false else app.isInBackground)
    ensures OnEventWatch(app, e).0.isInBackground ==
              (if e.DidEnterBackground? then true else if e.WillEnterForeground? then false else app.isInBackground)
    ensures OnEventWatch(app, e).0.isExiting == app.isExiting
  {
  }

  /** Button and key events go to the Down callback exactly when the payload
      says `down`, whichever of the two event types carried them, with the
      decoded button, and with a null window for an unknown id; the event is
      dispatched either way and exactly one callback is made. */
  lemma InputEventsDispatchOnDownFlag(app: App, windows: set<int>, e: SdlEvent)
    requires e.MouseButtonEvent? || e.KeyboardEvent?
    ensures var r := HandleEvent(app, windows, e);
            && |r.calls| == |app.calls| + 1
            && r.calls[..|app.calls|] == app.calls
            && var c := r.calls[|app.calls|];
            && (e.MouseButtonEvent? ==>
                  && (c.OnMouseDown? <==> e.down) && (c.OnMouseUp? <==> !e.down)
                  && c.button == Input.MouseButtonOfCode(e.button)
                  && (c.window.None? <==> e.windowId !in windows))
            && (e.KeyboardEvent? ==>
                  && (c.OnKeyDown? <==> e.down) && (c.OnKeyUp? <==> !e.down)
                  && c.key == Input.ButtonOfScancode(e.scancode)
                  && c.isRepeat == e.repeat
                  && (c.window.None? <==> e.windowId !in windows))
            && r.isExiting == app.isExiting && r.isInBackground == app.isInBackground
  {
  }

  // ---------------------------------------------------------------- frames per second

  /** The loop's counters: time accumulated towards the next second, frames
      drawn since the last publication, and the published rate. */
  datatype FpsCounter = FpsCounter(accumulatedTicks: int, renderedFrames: nat, framesPerSecond: int)

  /** `CalculateFramesPerSecond`: add the frame's time; once a full second
      has accumulated, take exactly one second off, publish the frame count
      and restart it. */
  function CalculateFramesPerSecond(c: FpsCounter, deltaTicks: int): FpsCounter
  {
    var accumulated := c.accumulatedTicks + deltaTicks;
    if accumulated >= TicksPerSecond
    then FpsCounter(accumulated - TicksPerSecond, 0, c.renderedFrames)
    else c.(accumulatedTicks := accumulated)
  }

  /** With frames shorter than a second and a counter below one second, the
      counter stays below one second: at most one publication per frame
      suffices, so no time is lost or delayed. */
  lemma FpsAccumulatorStaysBelowOneSecond(c: FpsCounter, deltaTicks: int)
    requires 0 <= c.accumulatedTicks < TicksPerSecond
    requires 0 <= deltaTicks < TicksPerSecond
    ensures 0 <= CalculateFramesPerSecond(c, deltaTicks).accumulatedTicks < TicksPerSecond
  {
  }

  /** What the counter sees of one loop iteration: the frame's time and
      whether the frame was drawn. */
  datatype Tick = Tick(deltaTicks: int, drawn: bool)

  /** The counter's share of one loop iteration: count the frame if it was
      drawn, then run the calculation. */
  function CountFrame(c: FpsCounter, t: Tick): FpsCounter
  {
    CalculateFramesPerSecond(c.(renderedFrames := c.renderedFrames + (if t.drawn then 1 else 0)), t.deltaTicks)
  }

  function CountFrames(c: FpsCounter, ts: seq<Tick>): FpsCounter
    decreases |ts|
  {
    if ts == [] then c else CountFrames(CountFrame(c, ts[0]), ts[1..])
  }

  /** The time of a run of frames, and the number of them drawn. */
  function TotalTicks(ts: seq<Tick>): int
  {
    if ts == [] then 0 else ts[0].deltaTicks + TotalTicks(ts[1..])
  }

  function DrawnFrames(ts: seq<Tick>): nat
  {
    if ts == [] then 0 else (if ts[0].drawn then 1 else 0) + DrawnFrames(ts[1..])
  }

  predicate NonNegativeTicks(ts: seq<Tick>)
  {
    forall i :: 0 <= i < |ts| ==> ts[i].deltaTicks >= 0
  }

  /** While less than a second has accumulated, the counter only adds up
      time and drawn frames; the published rate is left alone. */
  lemma {:induction false} CountFramesBelowSecond(c: FpsCounter, ts: seq<Tick>)
    requires NonNegativeTicks(ts)
    requires c.accumulatedTicks + TotalTicks(ts) < TicksPerSecond
    ensures CountFrames(c, ts) == FpsCounter(c.accumulatedTicks + TotalTicks(ts),
                                             c.renderedFrames + DrawnFrames(ts), c.framesPerSecond)
    decreases |ts|
  {
    if ts != [] {
      assert NonNegativeTicks(ts[1..]) by {
        forall i | 0 <= i < |ts[1..]| ensures ts[1..][i].deltaTicks >= 0 {
          assert ts[1..][i] == ts[i + 1];
        }
      }
      TotalTicksNonNegative(ts[1..]);
      CountFramesBelowSecond(CountFrame(c, ts[0]), ts[1..]);
    }
  }

  lemma {:induction false} TotalTicksNonNegative(ts: seq<Tick>)
    requires NonNegativeTicks(ts)
    ensures TotalTicks(ts) >= 0
    decreases |ts|
  {
    if ts != [] {
      assert NonNegativeTicks(ts[1..]) by {
        forall i | 0 <= i < |ts[1..]| ensures ts[1..][i].deltaTicks >= 0 {
          assert ts[1..][i] == ts[i + 1];
        }
      }
      TotalTicksNonNegative(ts[1..]);
    }
  }

  lemma {:induction false} CountFramesAppend(c: FpsCounter, ts: seq<Tick>, t: Tick)
    ensures CountFrames(c, ts + [t]) == CountFrame(CountFrames(c, ts), t)
    ensures TotalTicks(ts + [t]) == TotalTicks(ts) + t.deltaTicks
    ensures DrawnFrames(ts + [t]) == DrawnFrames(ts) + (if t.drawn then 1 else 0)
    decreases |ts|
  {
    if ts == [] {
      assert [] + [t] == [t];
      assert [t][1..] == [];
    } else {
      assert (ts + [t])[1..] == ts[1..] + [t];
      CountFramesAppend(CountFrame(c, ts[0]), ts[1..], t);
    }
  }

  /** The frame that completes a second publishes every frame drawn since
      the previous publication — this frame included — restarts the count
      and keeps only the time beyond the second. */
  lemma CountFramesPublishesCompletedSecond(c: FpsCounter, ts: seq<Tick>, t: Tick)
    requires NonNegativeTicks(ts)
    requires c.accumulatedTicks + TotalTicks(ts) < TicksPerSecond <= c.accumulatedTicks + TotalTicks(ts) + t.deltaTicks
    ensures CountFrames(c, ts + [t]) == FpsCounter(c.accumulatedTicks + TotalTicks(ts + [t]) - TicksPerSecond,
                                                   0, c.renderedFrames + DrawnFrames(ts + [t]))
  {
    CountFramesBelowSecond(c, ts);
    CountFramesAppend(c, ts, t);
  }

  /** The number of frames of a run at which a second completed and a rate
      was published. */
  function Publications(c: FpsCounter, ts: seq<Tick>): nat
    decreases |ts|
  {
    if ts == [] then 0
    else (if c.accumulatedTicks + ts[0].deltaTicks >= TicksPerSecond then 1 else 0)
         + Publications(CountFrame(c, ts[0]), ts[1..])
  }

  /** Every tick is accounted for, whatever the frame times: the time
      accumulated at the start plus the time of the run equals the time
      still accumulated plus one second per publication. */
  lemma {:induction false} CountFramesConservesTime(c: FpsCounter, ts: seq<Tick>)
    ensures c.accumulatedTicks + TotalTicks(ts)
            == CountFrames(c, ts).accumulatedTicks + TicksPerSecond * Publications(c, ts)
    decreases |ts|
  {
    if ts != [] {
      CountFramesConservesTime(CountFrame(c, ts[0]), ts[1..]);
    }
  }

  /** No time is lost or double-counted: for frames shorter than a second,
      the accumulator is always the total time modulo one second. */
  lemma {:induction false} CountFramesKeepsTime(c: FpsCounter, ts: seq<Tick>)
    requires 0 <= c.accumulatedTicks < TicksPerSecond
    requires forall i :: 0 <= i < |ts| ==> 0 <= ts[i].deltaTicks < TicksPerSecond
    ensures CountFrames(c, ts).accumulatedTicks == (c.accumulatedTicks + TotalTicks(ts)) % TicksPerSecond
    decreases |ts|
  {
    if ts == [] {
    } else {
      var next := CountFrame(c, ts[0]);
      FpsAccumulatorStaysBelowOneSecond(c.(renderedFrames := c.renderedFrames + (if ts[0].drawn then 1 else 0)), ts[0].deltaTicks);
      assert forall i :: 0 <= i < |ts[1..]| ==> 0 <= ts[1..][i].deltaTicks < TicksPerSecond by {
        forall i | 0 <= i < |ts[1..]| ensures 0 <= ts[1..][i].deltaTicks < TicksPerSecond {
          assert ts[1..][i] == ts[i + 1];
        }
      }
      CountFramesKeepsTime(next, ts[1..]);
      var rest := TotalTicks(ts[1..]);
      var x := c.accumulatedTicks + ts[0].deltaTicks;
      if x >= TicksPerSecond {
        ModuloShift(x + rest);
      }
    }
  }

  lemma ModuloShift(x: int)
    ensures (x - TicksPerSecond) % TicksPerSecond == x % TicksPerSecond
  {
  }

  // ---------------------------------------------------------------- frame loop

  /** What reaches the application while one frame runs: events queued for
      polling and events seen by the watch callback, in arrival order, the
      frame's time, and whether the application's own callbacks call
      `Exit` during the update. */
  datatype Incoming = Polled(event: SdlEvent) | Watched(event: SdlEvent)

  datatype Frame = Frame(incoming: seq<Incoming>, deltaTicks: int, exitsInUpdate: bool)

  function Deliver(app: App, windows: set<int>, incoming: seq<Incoming>): App
    decreases |incoming|
  {
    if incoming == [] then app
    else Deliver(Receive(app, windows, incoming[0]), windows, incoming[1..])
  }

  /** One event, through the poll loop's handler or the watch callback. */
  function Receive(app: App, windows: set<int>, incoming: Incoming): App
  {
    match incoming
    case Polled(e) => HandleEvent(app, windows, e)
    case Watched(e) => OnEventWatch(app, e).0
  }

  datatype LoopState = LoopState(app: App, fps: FpsCounter)

  /** One iteration of the loop body: poll events, update, draw unless in
      the background, count the drawn frame, and run the FPS calculation. */
  function Iterate(s: LoopState, windows: set<int>, f: Frame): (r: LoopState)
    ensures r.app.framesPerSecond == r.fps.framesPerSecond
    ensures f.exitsInUpdate ==> r.app.isExiting
  {
    var polled := Deliver(s.app, windows, f.incoming);
    var updated := Call(polled, OnUpdate(f.deltaTicks));
    var afterUpdate := if f.exitsInUpdate then Exit(updated) else updated;
    var drawn := if afterUpdate.isInBackground then afterUpdate else Call(afterUpdate, OnDraw(f.deltaTicks));
    var fps := CountFrame(s.fps, Tick(f.deltaTicks, !afterUpdate.isInBackground));
    LoopState(drawn.(framesPerSecond := fps.framesPerSecond), fps)
  }

  /** `Loop` over a finite supply of frames: run while the exiting flag is
      clear, then call `OnExit`. If the frames run out first, the loop is
      still running (`None`). */
  function Loop(s: LoopState, windows: set<int>, frames: seq<Frame>): (r: Option<LoopState>)
    ensures r.None? ==> !s.app.isExiting
    ensures r.Some? ==> r.value.app.isExiting && |r.value.app.calls| > 0
                        && r.value.app.calls[|r.value.app.calls| - 1] == OnExit
    decreases |frames|
  {
    if s.app.isExiting then Some(s.(app := Call(s.app, OnExit)))
    else if frames == [] then None
    else Loop(Iterate(s, windows, frames[0]), windows, frames[1..])
  }

  /** Counts of callbacks of each kind in a trace. */
  function Count(calls: seq<Callback>, p: Callback -> bool): nat
  {
    if calls == [] then 0 else (if p(calls[0]) then 1 else 0) + Count(calls[1..], p)
  }

  lemma {:induction false} CountAppend(a: seq<Callback>, b: seq<Callback>, p: Callback -> bool)
    ensures Count(a + b, p) == Count(a, p) + Count(b, p)
  {
    if a == [] {
      assert a + b == b;
    } else {
      assert (a + b)[1..] == a[1..] + b;
      CountAppend(a[1..], b, p);
    }
  }

  predicate IsUpdate(c: Callback) { c.OnUpdate? }
  predicate IsDraw(c: Callback) { c.OnDraw? }
  predicate IsExit(c: Callback) { c.OnExit? }

  /** A callback the event handlers make: neither update, draw nor exit. */
  predicate IsInput(c: Callback) { !IsUpdate(c) && !IsDraw(c) && !IsExit(c) }

  /** One event appends at most one callback, and that one is input. */
  lemma ReceiveAddsAtMostOneInput(app: App, windows: set<int>, incoming: Incoming)
    ensures var r := Receive(app, windows, incoming);
            && |app.calls| <= |r.calls| <= |app.calls| + 1
            && r.calls == app.calls + r.calls[|app.calls|..]
            && forall i :: |app.calls| <= i < |r.calls| ==> IsInput(r.calls[i])
  {
  }

  /** Appending callbacks a predicate rejects leaves its count unchanged. */
  lemma {:induction false} CountIgnoresRejected(a: seq<Callback>, added: seq<Callback>, p: Callback -> bool)
    requires forall i :: 0 <= i < |added| ==> !p(added[i])
    ensures Count(a + added, p) == Count(a, p)
    decreases |added|
  {
    CountAppend(a, added, p);
    if added != [] {
      CountIgnoresRejected([], added[1..], p);
      assert [] + added[1..] == added[1..];
    }
  }

  /** Delivering events only appends input callbacks, never update, draw or
      exit ones. */
  lemma {:induction false} DeliverAddsOnlyInput(app: App, windows: set<int>, incoming: seq<Incoming>)
    ensures var r := Deliver(app, windows, incoming);
            && |app.calls| <= |r.calls| && r.calls[..|app.calls|] == app.calls
            && Count(r.calls, IsUpdate) == Count(app.calls, IsUpdate)
            && Count(r.calls, IsDraw) == Count(app.calls, IsDraw)
            && Count(r.calls, IsExit) == Count(app.calls, IsExit)
    decreases |incoming|
  {
    if incoming != [] {
      var next := Receive(app, windows, incoming[0]);
      ReceiveAddsAtMostOneInput(app, windows, incoming[0]);
      var added := next.calls[|app.calls|..];
      assert forall i :: 0 <= i < |added| ==> IsInput(added[i]) by {
        forall i | 0 <= i < |added| ensures IsInput(added[i]) {
          assert added[i] == next.calls[|app.calls| + i];
        }
      }
      CountIgnoresRejected(app.calls, added, IsUpdate);
      CountIgnoresRejected(app.calls, added, IsDraw);
      CountIgnoresRejected(app.calls, added, IsExit);
      DeliverAddsOnlyInput(next, windows, incoming[1..]);
      var r := Deliver(next, windows, incoming[1..]);
      assert r.calls[..|app.calls|] == r.calls[..|next.calls|][..|app.calls|];
    }
  }

  /** One iteration: exactly one update, one draw or none depending on the
      background flag after the update, the drawn-frame counter grows with
      the draw, and no `OnExit`. */
  lemma IterateCountsOneUpdate(s: LoopState, windows: set<int>, f: Frame)
    ensures var r := Iterate(s, windows, f);
            var polled := Deliver(s.app, windows, f.incoming);
            && Count(r.app.calls, IsUpdate) == Count(s.app.calls, IsUpdate) + 1
            && Count(r.app.calls, IsDraw) == Count(s.app.calls, IsDraw) + (if polled.isInBackground then 0 else 1)
            && Count(r.app.calls, IsExit) == Count(s.app.calls, IsExit)
            && |s.app.calls| <= |r.app.calls| && r.app.calls[..|s.app.calls|] == s.app.calls
  {
    var polled := Deliver(s.app, windows, f.incoming);
    IterateCalls(s, windows, f);
    DeliverAddsOnlyInput(s.app, windows, f.incoming);
    var u := [OnUpdate(f.deltaTicks)];
    assert Count(u, IsUpdate) == 1 && Count(u, IsDraw) == 0 && Count(u, IsExit) == 0 by {
      assert u[1..] == [];
    }
    CountAppend(polled.calls, u, IsUpdate);
    CountAppend(polled.calls, u, IsDraw);
    CountAppend(polled.calls, u, IsExit);
    if !polled.isInBackground {
      var d := [OnDraw(f.deltaTicks)];
      assert Count(d, IsUpdate) == 0 && Count(d, IsDraw) == 1 && Count(d, IsExit) == 0 by {
        assert d[1..] == [];
      }
      CountAppend(polled.calls + u, d, IsUpdate);
      CountAppend(polled.calls + u, d, IsDraw);
      CountAppend(polled.calls + u, d, IsExit);
    }
  }

  /** The callbacks of one iteration: the polled input, one update, and a
      draw unless the application is in the background. */
  lemma IterateCalls(s: LoopState, windows: set<int>, f: Frame)
    ensures var polled := Deliver(s.app, windows, f.incoming);
            Iterate(s, windows, f).app.calls
            == polled.calls + [OnUpdate(f.deltaTicks)] + (if polled.isInBackground then [] else [OnDraw(f.deltaTicks)])
  {
    var polled := Deliver(s.app, windows, f.incoming);
    var updated := Call(polled, OnUpdate(f.deltaTicks));
    assert (if f.exitsInUpdate then Exit(updated) else updated).isInBackground == polled.isInBackground;
    if polled.isInBackground {
      assert polled.calls + [OnUpdate(f.deltaTicks)] + [] == polled.calls + [OnUpdate(f.deltaTicks)];
    }
  }

  /** The whole loop: once it stops, `OnExit` has been called exactly once
      and as the very last callback, after exactly one update per iteration
      and never more draws than updates. */
  lemma {:induction false} LoopExitsOnce(s: LoopState, windows: set<int>, frames: seq<Frame>)
    requires Count(s.app.calls, IsExit) == 0
    requires Count(s.app.calls, IsDraw) <= Count(s.app.calls, IsUpdate)
    ensures var r := Loop(s, windows, frames);
            r.Some? ==>
              && Count(r.value.app.calls, IsExit) == 1
              && r.value.app.calls[|r.value.app.calls| - 1] == OnExit
              && r.value.app.isExiting
              && Count(r.value.app.calls, IsDraw) <= Count(r.value.app.calls, IsUpdate)
              && Count(r.value.app.calls, IsUpdate) - Count(s.app.calls, IsUpdate) <= |frames|
    decreases |frames|
  {
    if s.app.isExiting {
      CountAppend(s.app.calls, [OnExit], IsExit);
      CountAppend(s.app.calls, [OnExit], IsDraw);
      CountAppend(s.app.calls, [OnExit], IsUpdate);
      assert [OnExit][1..] == [];
    } else if frames != [] {
      IterateCountsOneUpdate(s, windows, frames[0]);
      LoopExitsOnce(Iterate(s, windows, frames[0]), windows, frames[1..]);
    }
  }

  /** A quit event, or an update that calls `Exit`, ends the loop after the
      current frame: the loop makes no further update. */
  lemma QuitEndsAfterFrame(s: LoopState, windows: set<int>, f: Frame, rest: seq<Frame>)
    requires !s.app.isExiting
    requires f.exitsInUpdate
    ensures Loop(s, windows, [f] + rest) == Some(Iterate(s, windows, f).(app := Call(Iterate(s, windows, f).app, OnExit)))
  {
    assert ([f] + rest)[1..] == rest;
  }

  // ---------------------------------------------------------------- singleton and platform

  datatype Platform = UnknownPlatform | Windows | MacOS | Linux | IOS | Android

  /** `GetNativePlatform`: `None` is a null C string. */
  function GetNativePlatform(name: Option<string>): (r: Result<Platform>)
    ensures name.None? <==> r == Throw(NativeFunctionFailed)
    ensures r.Return? ==>
              Text.EqualsIgnoreCase(name.value, PlatformName(r.value))
              || (r.value == UnknownPlatform && Text.StartsWithIgnoreCase(name.value, "unknown"))
  {
    if name.None? then Throw(NativeFunctionFailed)
    else if Text.StartsWithIgnoreCase(name.value, "unknown") then Return(UnknownPlatform)
    else if Text.EqualsIgnoreCase(name.value, "windows") then Return(Windows)
    else if Text.EqualsIgnoreCase(name.value, "macos") then Return(MacOS)
    else if Text.EqualsIgnoreCase(name.value, "linux") then Return(Linux)
    else if Text.EqualsIgnoreCase(name.value, "ios") then Return(IOS)
    else if Text.EqualsIgnoreCase(name.value, "android") then Return(Android)
    else Throw(NotImplemented)
  }

  /** The platform names, the independent table the mapping is checked
      against. */
  function PlatformName(p: Platform): string
  {
    match p
    case UnknownPlatform => "unknown"
    case Windows => "windows"
    case MacOS => "macos"
    case Linux => "linux"
    case IOS => "ios"
    case Android => "android"
  }

  /** Each platform's own name, in any letter case, maps back to it. */
  lemma PlatformNamesRoundTrip(p: Platform)
    ensures GetNativePlatform(Some(PlatformName(p))) == Return(p)
  {
    var n := PlatformName(p);
    assert Text.EqualsIgnoreCase(n, n);
    if p != UnknownPlatform {
      // Every other name is too short for, or differs in its first letter from, "unknown".
      assert |n| < 7 || Lower0(n) != 'u';
    }
    assert p != Windows ==> Lower0(n) != 'w' || |n| != 7;
    assert p != MacOS ==> Lower0(n) != 'm' || |n| != 5;
    assert p != Linux ==> Lower0(n) != 'l' || |n| != 5;
    assert p != IOS ==> Lower0(n) != 'i' || |n| != 3;
  }

  function Lower0(n: string): char
    requires |n| > 0
  {
    Text.Lower(n[0])
  }

  /** The mapping ignores letter case, and a name that starts with
      "unknown" is `Unknown` whatever follows, checked before the exact
      names. */
  lemma PlatformMappingIgnoresCase(name: string, suffix: string)
    ensures GetNativePlatform(Some(Text.LowerString(name))) == GetNativePlatform(Some(name))
    ensures GetNativePlatform(Some("unknown" + suffix)) == Return(UnknownPlatform)
  {
    var l := Text.LowerString(name);
    Text.EqualsIgnoresLower(name, "windows");
    Text.EqualsIgnoresLower(name, "macos");
    Text.EqualsIgnoresLower(name, "linux");
    Text.EqualsIgnoresLower(name, "ios");
    Text.EqualsIgnoresLower(name, "android");
    if |name| >= 7 {
      Text.LowerSlice(name, 0, 7);
      Text.EqualsIgnoresLower(name[0..7], "unknown");
    }
    assert ("unknown" + suffix)[0..7] == "unknown";
  }

  /** The null C string and every unlisted name are errors. */
  lemma PlatformErrors(name: string)
    requires !Text.StartsWithIgnoreCase(name, "unknown")
    requires forall p :: p != UnknownPlatform ==> !Text.EqualsIgnoreCase(name, PlatformName(p))
    ensures GetNativePlatform(None) == Throw(NativeFunctionFailed)
    ensures GetNativePlatform(Some(name)) == Throw(NotImplemented)
  {
    assert !Text.EqualsIgnoreCase(name, PlatformName(Windows));
    assert !Text.EqualsIgnoreCase(name, PlatformName(MacOS));
    assert !Text.EqualsIgnoreCase(name, PlatformName(Linux));
    assert !Text.EqualsIgnoreCase(name, PlatformName(IOS));
    assert !Text.EqualsIgnoreCase(name, PlatformName(Android));
  }

  /** The process-wide static state: the current application, if any. */
  datatype Statics = Statics(current: Option<nat>)

  /** `Initialize`: a compare-and-set claims the singleton slot; a second
      application is refused. The platform is then read; if that throws, the
      slot stays claimed. */
  function Initialize(st: Statics, application: nat, platformName: Option<string>): (r: (Statics, Result<Platform>))
    ensures st.current.Some? ==> r == (st, Throw(InvalidOperation))
    ensures st.current.None? ==> r.0.current == Some(application) && r.1 == GetNativePlatform(platformName)
  {
    if st.current.Some? then (st, Throw(InvalidOperation))
    else (Statics(Some(application)), GetNativePlatform(platformName))
  }

  /** Only the first application ever initialises: after any first call,
      successful or not, every later call throws and leaves the first
      application current. */
  lemma InitializeOnce(application: nat, other: nat, name1: Option<string>, name2: Option<string>)
    ensures var first := Initialize(Statics(None), application, name1);
            var second := Initialize(first.0, other, name2);
            && first.0.current == Some(application)
            && second.1 == Throw(InvalidOperation)
            && second.0.current == Some(application)
  {
  }

  /** The results of the native start-up calls `Run` makes after
      `Initialize`: SDL itself, the event watch and the font library. */
  datatype NativeStartup = NativeStartup(sdlInit: bool, addEventWatch: bool, ttfInit: bool)

  /** `Run`: initialise the singleton, start the native libraries (each
      failure throws), call `OnStart` and run the loop. A platform lookup
      that throws aborts the run after the singleton slot was claimed. */
  function Run(st: Statics, application: nat, platformName: Option<string>, startup: NativeStartup,
               s: LoopState, windows: set<int>, frames: seq<Frame>): (r: (Statics, Result<Option<LoopState>>))
    ensures st.current.Some? ==> r == (st, Throw(InvalidOperation))
    ensures st.current.None? ==> r.0.current == Some(application)
    ensures r.1.Return? ==> GetNativePlatform(platformName).Return? && startup.sdlInit && startup.addEventWatch && startup.ttfInit
  {
    var (st1, platform) := Initialize(st, application, platformName);
    if platform.Throw? then (st1, Throw(platform.error))
    else if !startup.sdlInit || !startup.addEventWatch || !startup.ttfInit then (st1, Throw(NativeFunctionFailed))
    else (st1, Return(Loop(s.(app := Call(s.app, OnStart)), windows, frames)))
  }

  /** A run reaches `OnStart` exactly when no application was current, the
      platform is known and every native start-up call succeeds; `OnStart`
      is then the first callback, ahead of every event, update and draw. */
  lemma RunStartsOnlyWhenEverythingInitialises(st: Statics, application: nat, platformName: Option<string>,
                                               startup: NativeStartup, s: LoopState, windows: set<int>, frames: seq<Frame>)
    requires s.app.calls == []
    ensures var (st1, r) := Run(st, application, platformName, startup, s, windows, frames);
            && (r.Return? <==> st.current.None? && GetNativePlatform(platformName).Return?
                                && startup.sdlInit && startup.addEventWatch && startup.ttfInit)
            && (st.current.Some? ==> r == Throw(InvalidOperation) && st1 == st)
            && (st.current.None? ==> st1.current == Some(application))
            && (r.Return? && r.value.Some? ==> |r.value.value.app.calls| > 0 && r.value.value.app.calls[0] == OnStart)
  {
    if st.current.None? && GetNativePlatform(platformName).Return?
       && startup.sdlInit && startup.addEventWatch && startup.ttfInit {
      RunReachesLoop(st, application, platformName, startup, s, windows, frames);
      StartedLoopBeginsWithOnStart(s, windows, frames);
    } else {
      RunFailsUnlessEverythingInitialises(st, application, platformName, startup, s, windows, frames);
    }
  }

  /** Without a free singleton, a known platform and every native start-up
      call, the run throws. */
  lemma RunFailsUnlessEverythingInitialises(st: Statics, application: nat, platformName: Option<string>,
                                            startup: NativeStartup, s: LoopState, windows: set<int>, frames: seq<Frame>)
    requires !(st.current.None? && GetNativePlatform(platformName).Return?
               && startup.sdlInit && startup.addEventWatch && startup.ttfInit)
    ensures Run(st, application, platformName, startup, s, windows, frames).1.Throw?
  {
  }

  /** Once every start-up step succeeds, the run is the loop started
      after `OnStart`. */
  lemma RunReachesLoop(st: Statics, application: nat, platformName: Option<string>,
                       startup: NativeStartup, s: LoopState, windows: set<int>, frames: seq<Frame>)
    requires st.current.None? && GetNativePlatform(platformName).Return?
    requires startup.sdlInit && startup.addEventWatch && startup.ttfInit
    ensures Run(st, application, platformName, startup, s, windows, frames).1
            == Return(Loop(s.(app := Call(s.app, OnStart)), windows, frames))
  {
  }

  /** A loop started right after `OnStart` keeps it as the first callback. */
  lemma StartedLoopBeginsWithOnStart(s: LoopState, windows: set<int>, frames: seq<Frame>)
    requires s.app.calls == []
    ensures var r := Loop(s.(app := Call(s.app, OnStart)), windows, frames);
            r.Some? ==> |r.value.app.calls| > 0 && r.value.app.calls[0] == OnStart
  {
    var started := s.(app := Call(s.app, OnStart));
    assert started.app.calls == [OnStart];
    LoopKeepsPrefix(started, windows, frames);
  }

  /** The loop only ever appends callbacks. */
  lemma {:induction false} LoopKeepsPrefix(s: LoopState, windows: set<int>, frames: seq<Frame>)
    ensures var r := Loop(s, windows, frames);
            r.Some? ==> |s.app.calls| <= |r.value.app.calls| && r.value.app.calls[..|s.app.calls|] == s.app.calls
    decreases |frames|
  {
    if !s.app.isExiting && frames != [] {
      IterateCountsOneUpdate(s, windows, frames[0]);
      var next := Iterate(s, windows, frames[0]);
      LoopKeepsPrefix(next, windows, frames[1..]);
      var r := Loop(next, windows, frames[1..]);
      if r.Some? {
        assert r.value.app.calls[..|s.app.calls|] == r.value.app.calls[..|next.app.calls|][..|s.app.calls|];
      }
    }
  }
}
