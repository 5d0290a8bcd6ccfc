/** The three LazyFoo examples whose state is more than a toggle: E012's
    wrapping colour channels, E013's saturating alpha and E014's sprite
    animation timer. Rendering is reduced to the values handed to the
    renderer. */
module LazyFoo {
  import opened Native
  import Input

  // ---------------------------------------------------------------------
  // E012: colour modulation with wrapping byte channels
  // ---------------------------------------------------------------------

  /** The three `byte` fields `_r`, `_g`, `_b`. */
  datatype Modulation = Modulation(r: byte, g: byte, b: byte)

  /** Every channel starts fully on. */
  const InitialModulation: Modulation := Modulation(255, 255, 255)

  /** The step each key press adds to or removes from one channel. */
  const ColorStep: int := 32

  /** C#'s compound assignment on a `byte` (`_r += 32`) is unchecked: the
      sum is truncated to its low eight bits. */
  function WrapByte(x: int): (r: byte)
    ensures r as int % 256 == x % 256
  {
    (x % 256) as byte
  }

  /** Wrapping an intermediate result changes nothing about the final one. */
  lemma WrapTwice(x: int, c: int)
    ensures WrapByte(WrapByte(x) as int + c) == WrapByte(x + c)
  {
    var q := x / 256;
    assert x == q * 256 + x % 256;
    var y := x % 256 + c;
    assert y == (y / 256) * 256 + y % 256;
    assert x + c == (q + y / 256) * 256 + y % 256;
  }

  /** The raw SDL scancodes of the six keys the handler switches on. */
  function ScancodeOf(b: Input.KeyboardButton): int
    requires b.Letter?
  {
    Input.ScancodeA + b.letter
  }

  /** The keyboard handler: Q, W, E raise r, g, b by 32 and A, S, D lower
      them by 32, modulo 256; any other scancode changes nothing. */
  function ColorKeyDown(m: Modulation, scancode: int): (n: Modulation)
    ensures (n.r as int - m.r as int) % 256 == ChannelStep(scancode, Input.Q, Input.A)
    ensures (n.g as int - m.g as int) % 256 == ChannelStep(scancode, Input.W, Input.S)
    ensures (n.b as int - m.b as int) % 256 == ChannelStep(scancode, Input.E, Input.D)
  {
    if scancode == ScancodeOf(Input.Q) then m.(r := WrapByte(m.r as int + ColorStep))
    else if scancode == ScancodeOf(Input.W) then m.(g := WrapByte(m.g as int + ColorStep))
    else if scancode == ScancodeOf(Input.E) then m.(b := WrapByte(m.b as int + ColorStep))
    else if scancode == ScancodeOf(Input.A) then m.(r := WrapByte(m.r as int - ColorStep))
    else if scancode == ScancodeOf(Input.S) then m.(g := WrapByte(m.g as int - ColorStep))
    else if scancode == ScancodeOf(Input.D) then m.(b := WrapByte(m.b as int - ColorStep))
    else m
  }

  /** The change, modulo 256, a scancode makes to the channel that `up`
      raises and `down` lowers. */
  function ChannelStep(scancode: int, up: Input.KeyboardButton, down: Input.KeyboardButton): int
    requires up.Letter? && down.Letter?
  {
    if scancode == ScancodeOf(up) then ColorStep
    else if scancode == ScancodeOf(down) then 256 - ColorStep
    else 0
  }

  /** How many of the three channels differ between two modulations. */
  function ChangedChannels(m: Modulation, n: Modulation): nat
  {
    (if m.r != n.r then 1 else 0) + (if m.g != n.g then 1 else 0) + (if m.b != n.b then 1 else 0)
  }

  /** The scancodes the handler reacts to. */
  const ColorKeys: set<int> := {ScancodeOf(Input.Q), ScancodeOf(Input.W), ScancodeOf(Input.E),
                                ScancodeOf(Input.A), ScancodeOf(Input.S), ScancodeOf(Input.D)}

  /** The six keys change exactly one channel each; every other scancode
      changes none. */
  lemma ColorKeyChangesOneChannel(m: Modulation, scancode: int)
    ensures scancode in ColorKeys ==> ChangedChannels(m, ColorKeyDown(m, scancode)) == 1
    ensures scancode !in ColorKeys ==> ColorKeyDown(m, scancode) == m
  {
  }

  /** Q and A undo each other, in either order: the wrap-around loses
      nothing. */
  lemma RedKeysAreInverse(m: Modulation)
    ensures ColorKeyDown(ColorKeyDown(m, ScancodeOf(Input.Q)), ScancodeOf(Input.A)) == m
    ensures ColorKeyDown(ColorKeyDown(m, ScancodeOf(Input.A)), ScancodeOf(Input.Q)) == m
  {
    WrapUndoes(m.r, ColorStep);
    WrapUndoes(m.r, -ColorStep);
  }

  /** W and S undo each other, in either order. */
  lemma GreenKeysAreInverse(m: Modulation)
    ensures ColorKeyDown(ColorKeyDown(m, ScancodeOf(Input.W)), ScancodeOf(Input.S)) == m
    ensures ColorKeyDown(ColorKeyDown(m, ScancodeOf(Input.S)), ScancodeOf(Input.W)) == m
  {
    WrapUndoes(m.g, ColorStep);
    WrapUndoes(m.g, -ColorStep);
  }

  /** E and D undo each other, in either order. */
  lemma BlueKeysAreInverse(m: Modulation)
    ensures ColorKeyDown(ColorKeyDown(m, ScancodeOf(Input.E)), ScancodeOf(Input.D)) == m
    ensures ColorKeyDown(ColorKeyDown(m, ScancodeOf(Input.D)), ScancodeOf(Input.E)) == m
  {
    WrapUndoes(m.b, ColorStep);
    WrapUndoes(m.b, -ColorStep);
  }

  /** Adding and then removing the same amount, each wrapped, is the identity. */
  lemma WrapUndoes(x: byte, c: int)
    ensures WrapByte(WrapByte(x as int + c) as int - c) == x
  {
    WrapTwice(x as int + c, -c);
  }

  /** The same scancode pressed `times` times. */
  function PressColorKey(m: Modulation, scancode: int, times: nat): Modulation
    decreases times
  {
    if times == 0 then m else ColorKeyDown(PressColorKey(m, scancode, times - 1), scancode)
  }

  /** Pressing Q `times` times raises r by `32 * times` modulo 256 and keeps
      g and b. */
  lemma {:induction false} PressingQWraps(m: Modulation, times: nat)
    ensures PressColorKey(m, ScancodeOf(Input.Q), times)
              == m.(r := WrapByte(m.r as int + ColorStep * times))
  {
    if times > 0 {
      PressingQWraps(m, times - 1);
      WrapTwice(m.r as int + ColorStep * (times - 1), ColorStep);
    }
  }

  /** Every multiple of eight presses of Q brings the red channel back
      where it started. */
  lemma EightPressesOfQReturn(m: Modulation, laps: nat)
    ensures PressColorKey(m, ScancodeOf(Input.Q), 8 * laps) == m
  {
    PressingQWraps(m, 8 * laps);
    assert ColorStep * (8 * laps) == 256 * laps;
    WrapByteLaps(m.r, laps);
  }

  /** Whole turns of the byte range wrap back to the start. */
  lemma {:induction false} WrapByteLaps(b: byte, laps: nat)
    ensures WrapByte(b as int + 256 * laps) == b
  {
    if laps > 0 {
      WrapByteLaps(b, laps - 1);
      WrapTwice(b as int + 256 * (laps - 1), 256);
    }
  }

  // ---------------------------------------------------------------------
  // E013: alpha blending with a saturating alpha
  // ---------------------------------------------------------------------

  const InitialAlpha: byte := 255
  const AlphaStep: int := 32

  /** The key handler: W raises alpha by 32 and S lowers it by 32, both
      clamped to the byte range; other buttons leave it. */
  function AlphaKeyDown(a: byte, key: Input.KeyboardButton): (r: byte)
    ensures key == Input.W ==> r as int == Min(a as int + AlphaStep, 255)
    ensures key == Input.S ==> r as int == Max(a as int - AlphaStep, 0)
    ensures key != Input.W && key != Input.S ==> r == a
  {
    if key == Input.W then
      (if a as int + AlphaStep > 255 then 255 else a + AlphaStep as byte)
    else if key == Input.S then
      (if a as int - AlphaStep < 0 then 0 else a - AlphaStep as byte)
    else a
  }

  /** W never lowers alpha and S never raises it. */
  lemma AlphaKeysAreMonotone(a: byte, key: Input.KeyboardButton)
    ensures key != Input.W && key != Input.S ==> AlphaKeyDown(a, key) == a
    ensures AlphaKeyDown(a, Input.W) >= a
    ensures AlphaKeyDown(a, Input.S) <= a
    ensures a < 255 ==> AlphaKeyDown(a, Input.W) > a
    ensures a > 0 ==> AlphaKeyDown(a, Input.S) < a
  {
  }

  function PressAlphaKey(a: byte, key: Input.KeyboardButton, times: nat): byte
    decreases times
  {
    if times == 0 then a else AlphaKeyDown(PressAlphaKey(a, key, times - 1), key)
  }

  function Min(x: int, y: int): int { if x <= y then x else y }
  function Max(x: int, y: int): int { if x >= y then x else y }

  /** The closed form of repeated presses: W saturates upward, S downward. */
  lemma {:induction false} RepeatedAlphaSaturates(a: byte, times: nat)
    ensures PressAlphaKey(a, Input.W, times) as int == Min(a as int + AlphaStep * times, 255)
    ensures PressAlphaKey(a, Input.S, times) as int == Max(a as int - AlphaStep * times, 0)
  {
    if times > 0 {
      RepeatedAlphaSaturates(a, times - 1);
    }
  }

  /** Eight or more presses of either key reach the end of the range from
      any alpha. */
  lemma EightPressesReachTheBound(a: byte, times: nat)
    requires times >= 8
    ensures PressAlphaKey(a, Input.W, times) == 255
    ensures PressAlphaKey(a, Input.S, times) == 0
  {
    RepeatedAlphaSaturates(a, times);
  }

  /** What one draw hands to the renderer, in order. */
  datatype AlphaDrawCall =
    | ClearWhite
    | RenderFadeIn
    | SetFadeOutAlpha(alpha: byte)
    | RenderFadeOut
    | Present

  /** The draw: the fade-in texture underneath, then the fade-out texture on
      top with its alpha set to the current value. */
  function AlphaDraw(a: byte): (r: seq<AlphaDrawCall>)
    ensures |r| == 5 && r[0] == ClearWhite && r[|r| - 1] == Present
    ensures forall i :: 0 <= i < |r| && r[i].SetFadeOutAlpha? ==> r[i].alpha == a
    ensures RenderFadeIn in r && RenderFadeOut in r
    ensures exists i :: 0 <= i < |r| - 1 && r[i] == SetFadeOutAlpha(a) && r[i + 1] == RenderFadeOut
    ensures forall i, j :: 0 <= i < |r| && 0 <= j < |r| && r[i] == RenderFadeIn && r[j] == RenderFadeOut ==> i < j
  {
    var calls := [ClearWhite, RenderFadeIn, SetFadeOutAlpha(a), RenderFadeOut, Present];
    assert calls[1] == RenderFadeIn;
    assert calls[2] == SetFadeOutAlpha(a) && calls[3] == RenderFadeOut;
    calls
  }

  // ---------------------------------------------------------------------
  // E014: animated sprite
  // ---------------------------------------------------------------------

  /** 100 ms in `TimeSpan` ticks of 100 ns. */
  const FrameThresholdTicks: int := 1_000_000

  const SpriteFrameCount: nat := 4

  type SpriteFrame = x: nat | x < SpriteFrameCount

  /** The frame index and the animation timer (a `TimeSpan`, as ticks). */
  datatype Sprite = Sprite(frame: SpriteFrame, timerTicks: int)

  const InitialSprite: Sprite := Sprite(0, 0)

  /** An update adds the delta to the timer; a timer strictly above 100 ms
      is reset to zero (the excess is dropped) and the frame advances,
      wrapping after the fourth. */
  function SpriteUpdate(s: Sprite, deltaTicks: int): (r: Sprite)
    ensures r.frame == s.frame || r.frame == (s.frame + 1) % SpriteFrameCount
    ensures r.timerTicks <= FrameThresholdTicks
    ensures r.timerTicks == 0 || r.timerTicks == s.timerTicks + deltaTicks
  {
    var timer := s.timerTicks + deltaTicks;
    if timer > FrameThresholdTicks then Sprite((s.frame + 1) % SpriteFrameCount, 0)
    else Sprite(s.frame, timer)
  }

  /** One update moves the frame exactly when the accumulated timer passes
      100 ms, and then always to the next frame with the timer cleared;
      otherwise the timer keeps the whole sum. */
  lemma SpriteFrameAdvancesOnlyPastThreshold(s: Sprite, deltaTicks: int)
    ensures SpriteUpdate(s, deltaTicks).frame != s.frame <==> s.timerTicks + deltaTicks > FrameThresholdTicks
    ensures SpriteUpdate(s, deltaTicks).frame != s.frame ==>
              SpriteUpdate(s, deltaTicks) == Sprite((s.frame + 1) % SpriteFrameCount, 0)
    ensures SpriteUpdate(s, deltaTicks).frame == s.frame ==>
              SpriteUpdate(s, deltaTicks).timerTicks == s.timerTicks + deltaTicks
  {
  }

  /** `times` updates with the same delta. */
  function SpriteUpdates(s: Sprite, deltaTicks: int, times: nat): Sprite
    decreases times
  {
    if times == 0 then s else SpriteUpdate(SpriteUpdates(s, deltaTicks, times - 1), deltaTicks)
  }

  /** The number of updates a constant positive delta needs to advance a
      frame from a reset timer: the least `k` with `k * delta > 100 ms`. */
  function FramePeriod(deltaTicks: int): (k: nat)
    requires deltaTicks > 0
  {
    FrameThresholdTicks / deltaTicks + 1
  }

  lemma PeriodIsLeast(deltaTicks: int)
    requires deltaTicks > 0
    ensures FramePeriod(deltaTicks) * deltaTicks > FrameThresholdTicks
    ensures (FramePeriod(deltaTicks) - 1) * deltaTicks <= FrameThresholdTicks
  {
    var q := FrameThresholdTicks / deltaTicks;
    var rem := FrameThresholdTicks % deltaTicks;
    assert FrameThresholdTicks == q * deltaTicks + rem;
    assert (q + 1) * deltaTicks == q * deltaTicks + deltaTicks;
  }

  /** Before the period is up, updates from a reset timer only accumulate. */
  lemma {:induction false} SpriteAccumulates(frame: SpriteFrame, deltaTicks: int, times: nat)
    requires deltaTicks > 0 && times < FramePeriod(deltaTicks)
    ensures SpriteUpdates(Sprite(frame, 0), deltaTicks, times) == Sprite(frame, deltaTicks * times)
  {
    if times > 0 {
      SpriteAccumulates(frame, deltaTicks, times - 1);
      PeriodIsLeast(deltaTicks);
      MultiplyMonotone(times, FramePeriod(deltaTicks) - 1, deltaTicks);
      assert deltaTicks * (times - 1) + deltaTicks == deltaTicks * times;
    }
  }

  lemma MultiplyMonotone(x: nat, y: nat, d: int)
    requires x <= y && d > 0
    ensures x * d <= y * d
  {
  }

  /** With a constant positive delta, the frame advances exactly on the
      `FramePeriod`-th update and the timer is back at zero: the animation
      runs at one frame per period, whatever part of the last delta went
      past 100 ms. */
  lemma SpriteAdvancesOncePerPeriod(frame: SpriteFrame, deltaTicks: int)
    requires deltaTicks > 0
    ensures SpriteUpdates(Sprite(frame, 0), deltaTicks, FramePeriod(deltaTicks))
              == Sprite((frame + 1) % SpriteFrameCount, 0)
  {
    var k := FramePeriod(deltaTicks);
    SpriteAccumulates(frame, deltaTicks, k - 1);
    PeriodIsLeast(deltaTicks);
    assert deltaTicks * (k - 1) + deltaTicks == k * deltaTicks;
  }

  /** A float rectangle with integral coordinates. */
  datatype Rectangle = Rectangle(x: int, y: int, width: int, height: int)

  /** The four source rectangles on the sprite sheet. */
  const SpriteSourceRectangles: seq<Rectangle> := [
    Rectangle(0, 0, 64, 205),
    Rectangle(64, 0, 64, 205),
    Rectangle(128, 0, 64, 205),
    Rectangle(192, 0, 64, 205)
  ]

  /** The draw's lookup of the current frame's rectangle. */
  function SpriteSource(s: Sprite): (r: Rectangle)
    ensures r in SpriteSourceRectangles
  {
    SpriteSourceRectangles[s.frame]
  }

  /** The table has exactly one rectangle per frame, and they lie side by
      side: frame `i` is the 64-pixel column starting at `64 * i`. */
  lemma SpriteSheetIsContiguous(i: SpriteFrame)
    ensures |SpriteSourceRectangles| == SpriteFrameCount
    ensures SpriteSource(Sprite(i, 0)) == Rectangle(64 * i, 0, 64, 205)
  {
  }
}
