/** Three GPU examples, reduced to the rules they encode: the cull-mode
    example's pipeline table, mode cycling and upload layout; the textured
    quad's sampler table, sampler cycling and transfer layouts; and the 3D
    slice example's frame, which clears four layers in four render passes
    and blits each layer into one quadrant of the swapchain image, using the
    command-buffer model. */
module GpuExamples {
  import opened Native
  import Input
  import GpuCommandBuffers

  // ---------------------------------------------------------------- cyclic selection

  /** The Left/Right selection both examples use: Left steps back and wraps
      from 0 to the last entry, Right steps forward modulo the count; any
      other key leaves the selection alone. */
  function StepIndex(index: int, count: nat, key: Input.KeyboardButton): (r: int)
    requires count > 0
    ensures 0 <= index < count ==> 0 <= r < count
    ensures 0 <= index < count && key == Input.Right ==> r == (if index == count - 1 then 0 else index + 1)
    ensures 0 <= index < count && key == Input.Left ==> r == (if index == 0 then count - 1 else index - 1)
    ensures key != Input.Left && key != Input.Right ==> r == index
  {
    if key == Input.Left then (if index - 1 < 0 then count - 1 else index - 1)
    else if key == Input.Right then (index + 1) % count
    else index
  }

  /** Left and Right keep the index in range, undo each other, and every
      other key changes nothing. */
  lemma StepIndexCycles(index: int, count: nat, key: Input.KeyboardButton)
    requires count > 0 && 0 <= index < count
    ensures 0 <= StepIndex(index, count, key) < count
    ensures StepIndex(StepIndex(index, count, Input.Left), count, Input.Right) == index
    ensures StepIndex(StepIndex(index, count, Input.Right), count, Input.Left) == index
    ensures key != Input.Left && key != Input.Right ==> StepIndex(index, count, key) == index
  {
    var left := if index - 1 < 0 then count - 1 else index - 1;
    assert StepIndex(index, count, Input.Left) == left;
    if index + 1 < count {
      ModuloUnique(index + 1, count, 0, index + 1);
    } else {
      ModuloUnique(index + 1, count, 1, 0);
    }
    if left + 1 < count {
      ModuloUnique(left + 1, count, 0, left + 1);
    } else {
      ModuloUnique(left + 1, count, 1, 0);
    }
  }

  function PressRight(index: int, count: nat, times: nat): int
    requires count > 0
  {
    if times == 0 then index else StepIndex(PressRight(index, count, times - 1), count, Input.Right)
  }

  /** Right pressed `k` times adds `k` modulo the count. */
  lemma {:induction false} PressRightIsModular(index: int, count: nat, times: nat)
    requires count > 0 && 0 <= index < count
    ensures PressRight(index, count, times) == (index + times) % count
  {
    if times > 0 {
      PressRightIsModular(index, count, times - 1);
      var x := index + times - 1;
      var previous := PressRight(index, count, times - 1);
      assert previous == x % count;
      assert PressRight(index, count, times) == StepIndex(previous, count, Input.Right) == (previous + 1) % count;
      ModuloStep(x, count);
    } else {
      ModuloUnique(index, count, 0, index);
    }
  }

  /** A full lap of `count` presses of Right returns to the starting entry. */
  lemma LapReturns(index: int, count: nat)
    requires count > 0 && 0 <= index < count
    ensures PressRight(index, count, count) == index
  {
    PressRightIsModular(index, count, count);
    ModuloUnique(index + count, count, 1, index);
  }

  lemma ModuloStep(x: int, n: nat)
    requires n > 0
    ensures (x % n + 1) % n == (x + 1) % n
  {
    var q := x / n;
    var r := x % n;
    if r + 1 < n {
      ModuloUnique(r + 1, n, 0, r + 1);
      ModuloUnique(x + 1, n, q, r + 1);
    } else {
      ModuloUnique(r + 1, n, 1, 0);
      assert x + 1 == (q + 1) * n;
      ModuloUnique(x + 1, n, q + 1, 0);
    }
  }

  // ---------------------------------------------------------------- cull mode (E005)

  datatype CullMode = CullNone | CullFront | CullBack
  datatype FrontFace = CounterClockwise | Clockwise

  const ModeNames: seq<string> :=
    ["CW_CullNone", "CW_CullFront", "CW_CullBack", "CCW_CullNone", "CCW_CullFront", "CCW_CullBack"]

  /** The cull-mode enum's values in order: None, Front, Back. */
  function CullModeOfValue(v: nat): CullMode
    requires v < 3
  {
    if v == 0 then CullNone else if v == 1 then CullFront else CullBack
  }

  /** Pipeline `i`'s rasterizer state: the cull mode with value `i % 3`,
      and counter-clockwise front faces for the first three. */
  function PipelineState(i: nat): (CullMode, FrontFace)
  {
    (CullModeOfValue(i % 3), if i > 2 then Clockwise else CounterClockwise)
  }

  function CullName(c: CullMode): string
  {
    match c
    case CullNone => "CullNone"
    case CullFront => "CullFront"
    case CullBack => "CullBack"
  }

  /** The pipeline table against the mode names: entry `i`'s name ends in
      its pipeline's cull mode, and a `CW_` name goes with a pipeline whose
      front face is counter-clockwise (and `CCW_` with clockwise), the
      reverse of what the prefix says. */
  lemma PipelineTableMatchesNames(i: nat)
    requires i < |ModeNames|
    ensures var (cull, face) := PipelineState(i);
            && ModeNames[i] == (if i < 3 then "CW_" else "CCW_") + CullName(cull)
            && (face == CounterClockwise <==> ModeNames[i][..3] == "CW_")
  {
    if i >= 3 {
      assert ModeNames[i][..3][1] != "CW_"[1];
    }
  }

  /** A buffer upload: a range of the transfer buffer copied to offset 0 of
      a data buffer. */
  datatype Upload = Upload(transferOffset: nat, size: nat)

  predicate Covers(u: Upload, b: int)
  {
    u.transferOffset <= b < u.transferOffset + u.size
  }

  /** The cull-mode example's transfer buffer, six vertices long, and the
      two three-vertex uploads from it. */
  function CullTransferSize(vertexSize: nat): nat { vertexSize * 6 }

  function CullUploads(vertexSize: nat): seq<Upload>
  {
    [Upload(0, vertexSize * 3), Upload(vertexSize * 3, vertexSize * 3)]
  }

  /** The two uploads cover the transfer buffer exactly: every byte of it
      is read by exactly one upload, and no upload reads beyond it. */
  lemma CullUploadsPartitionTransfer(vertexSize: nat, b: int)
    ensures var us := CullUploads(vertexSize);
            && (0 <= b < CullTransferSize(vertexSize) <==> Covers(us[0], b) || Covers(us[1], b))
            && !(Covers(us[0], b) && Covers(us[1], b))
  {
  }

  // ---------------------------------------------------------------- textured quad (E008)

  const SamplerNames: seq<string> :=
    ["PointClamp", "PointWrap", "LinearClamp", "LinearWrap", "AnisotropicClamp", "AnisotropicWrap"]

  datatype FilterMode = Nearest | Linear
  datatype AddressMode = ClampToEdge | Repeat

  datatype SamplerOptions = SamplerOptions(
    minification: FilterMode, magnification: FilterMode, mipMap: FilterMode,
    addressU: AddressMode, addressV: AddressMode, addressW: AddressMode,
    isEnabledAnisotropy: bool, maximumAnisotropy: nat)

  /** The six samplers in creation order. */
  const Samplers: seq<SamplerOptions> := [
    SamplerOptions(Nearest, Nearest, Nearest, ClampToEdge, ClampToEdge, ClampToEdge, false, 0),
    SamplerOptions(Nearest, Nearest, Nearest, Repeat, Repeat, Repeat, false, 0),
    SamplerOptions(Linear, Linear, Linear, ClampToEdge, ClampToEdge, ClampToEdge, false, 0),
    SamplerOptions(Linear, Linear, Linear, Repeat, Repeat, Repeat, false, 0),
    SamplerOptions(Linear, Linear, Linear, ClampToEdge, ClampToEdge, ClampToEdge, true, 4),
    SamplerOptions(Linear, Linear, Linear, Repeat, Repeat, Repeat, true, 4)]

  function FamilyName(s: SamplerOptions): string
  {
    if s.isEnabledAnisotropy then "Anisotropic" else if s.minification == Nearest then "Point" else "Linear"
  }

  function AddressName(s: SamplerOptions): string
  {
    if s.addressU == Repeat then "Wrap" else "Clamp"
  }

  /** Each sampler matches its name: the name is its filter family followed
      by its address mode, the three axes share one address mode, and
      sampler `i` wraps exactly when `i` is odd. */
  lemma SamplersMatchNames(i: nat)
    requires i < |Samplers|
    ensures |SamplerNames| == |Samplers|
    ensures SamplerNames[i] == FamilyName(Samplers[i]) + AddressName(Samplers[i])
    ensures Samplers[i].addressU == Samplers[i].addressV == Samplers[i].addressW
    ensures (Samplers[i].addressU == Repeat) <==> i % 2 == 1
  {
  }

  datatype TexturedQuad = TexturedQuad(samplerIndex: int)

  function TexturedQuadKeyDown(q: TexturedQuad, key: Input.KeyboardButton): TexturedQuad
  {
    TexturedQuad(StepIndex(q.samplerIndex, |SamplerNames|, key))
  }

  /** `OnExit` puts the selection back on the first sampler. */
  function TexturedQuadExit(q: TexturedQuad): (r: TexturedQuad)
    ensures r.samplerIndex == 0
  {
    TexturedQuad(0)
  }

  /** From the start, after any keys and exits, the selection indexes both
      the sampler table and the name table. */
  lemma SamplerIndexStaysInRange(q: TexturedQuad, key: Input.KeyboardButton)
    requires 0 <= q.samplerIndex < |Samplers|
    ensures 0 <= TexturedQuadKeyDown(q, key).samplerIndex < |Samplers|
    ensures 0 <= TexturedQuadExit(q).samplerIndex < |Samplers|
    ensures |SamplerNames| == |Samplers|
  {
    StepIndexCycles(q.samplerIndex, |SamplerNames|, key);
  }

  /** Four vertices followed by six 16-bit indices. */
  function QuadTransferSize(vertexSize: nat): nat { vertexSize * 4 + 2 * 6 }

  function QuadUploads(vertexSize: nat): seq<Upload>
  {
    [Upload(0, vertexSize * 4), Upload(vertexSize * 4, 2 * 6)]
  }

  /** The vertex and index uploads split the transfer buffer exactly. */
  lemma QuadUploadsPartitionTransfer(vertexSize: nat, b: int)
    ensures var us := QuadUploads(vertexSize);
            && (0 <= b < QuadTransferSize(vertexSize) <==> Covers(us[0], b) || Covers(us[1], b))
            && !(Covers(us[0], b) && Covers(us[1], b))
  {
  }

  /** The texture's transfer size: four bytes per pixel, in 32-bit
      arithmetic. */
  function TextureByteCount(width: nat, height: nat): int32
  {
    TruncateToInt32(width * height * 4)
  }

  /** For any image whose byte count fits in 32 bits the transfer buffer
      holds exactly four bytes per pixel; beyond that the count wraps. */
  lemma TextureByteCountExact(width: nat, height: nat)
    ensures width * height * 4 < TwoTo31 ==> TextureByteCount(width, height) as int == width * height * 4
    ensures (TextureByteCount(width, height) as int - width * height * 4) % TwoTo32 == 0
  {
  }

  // ---------------------------------------------------------------- 3D slice (E010)

  /** The 3D texture's side and depth. */
  const SliceSize: int := 64
  const LayerCount: nat := 4

  /** Opaque tokens for the native enums and colours the frame uses. */
  const LoadOpLoad: nat := 0
  const LoadOpClear: nat := 1
  const StoreOpStore: nat := 0
  const FilterNearest: nat := 0
  const LayerColors: seq<nat> := [0, 1, 2, 3]  // red, lime, blue, magenta

  /** The colour target that clears layer `i`; only the first pass cycles
      the texture. */
  function ClearTarget(texture: Ptr, i: nat): GpuCommandBuffers.ColorTarget
    requires i < LayerCount
  {
    GpuCommandBuffers.ColorTarget(texture, 0, i as int32, LayerColors[i], LoadOpClear, StoreOpStore,
                                  Null, 0, 0, i == 0, false)
  }

  /** C#'s `/` on non-negative widths and heights. */
  function Half(x: int32): int32
  {
    if x >= 0 then (x as int / 2) as int32 else -((-(x as int)) / 2) as int32
  }

  /** Blit `i`: the whole of layer `i` into quadrant `i` of the swapchain
      image (left/right by `i % 2`, top/bottom by `i > 1`). */
  function QuadrantBlit(texture: Ptr, swapchain: Ptr, width: int32, height: int32, i: nat): GpuCommandBuffers.BlitInfo
    requires i < LayerCount
  {
    var x := (i % 2) as int * Half(width) as int;
    var y := if i > 1 then Half(height) as int else 0;
    GpuCommandBuffers.BlitInfo(
      GpuCommandBuffers.BlitRegion(texture, 0, i as int32, 0, 0, SliceSize as int32, SliceSize as int32),
      GpuCommandBuffers.BlitRegion(swapchain, 0, 0, x as int32, y as int32, Half(width), Half(height)),
      LoadOpLoad, 0, 0, FilterNearest, false)
  }

  predicate InDestination(b: GpuCommandBuffers.BlitInfo, px: int, py: int)
  {
    && b.destination.x as int <= px < b.destination.x as int + b.destination.width as int
    && b.destination.y as int <= py < b.destination.y as int + b.destination.height as int
  }

  /** The quadrant a swapchain pixel falls in. */
  function QuadrantOf(width: int32, height: int32, px: int, py: int): nat
  {
    (if px >= Half(width) as int then 1 else 0) + (if py >= Half(height) as int then 2 else 0)
  }

  /** The four destinations tile the image: each lies inside it, no pixel
      is in two of them, and every pixel of the even-sized part of the image
      is in the quadrant `QuadrantOf` names (an odd last row or column is
      not drawn). */
  lemma QuadrantsTileSwapchain(texture: Ptr, swapchain: Ptr, width: int32, height: int32, i: nat, j: nat, px: int, py: int)
    requires width >= 0 && height >= 0 && i < LayerCount && j < LayerCount
    ensures InDestination(QuadrantBlit(texture, swapchain, width, height, i), px, py) ==>
              0 <= px < width as int && 0 <= py < height as int && QuadrantOf(width, height, px, py) == i
    ensures i != j ==> !(InDestination(QuadrantBlit(texture, swapchain, width, height, i), px, py) &&
                         InDestination(QuadrantBlit(texture, swapchain, width, height, j), px, py))
    ensures 0 <= px < 2 * Half(width) as int && 0 <= py < 2 * Half(height) as int ==>
              QuadrantOf(width, height, px, py) < LayerCount &&
              InDestination(QuadrantBlit(texture, swapchain, width, height, QuadrantOf(width, height, px, py)), px, py)
  {
    var hw := Half(width) as int;
    var hh := Half(height) as int;
    assert 0 <= hw && 2 * hw <= width as int && 0 <= hh && 2 * hh <= height as int;
    forall k: nat | k < LayerCount
      ensures QuadrantBlit(texture, swapchain, width, height, k).destination
                == GpuCommandBuffers.BlitRegion(swapchain, 0, 0, (if k % 2 == 1 then hw else 0) as int32,
                                                (if k > 1 then hh else 0) as int32, hw as int32, hh as int32)
    {
      assert (k % 2) as int * hw == if k % 2 == 1 then hw else 0;
    }
  }

  /** Each blit reads the whole 64×64 face of its own layer, loads the
      destination and filters with nearest sampling. */
  lemma QuadrantBlitSources(texture: Ptr, swapchain: Ptr, width: int32, height: int32, i: nat)
    requires i < LayerCount
    ensures var b := QuadrantBlit(texture, swapchain, width, height, i);
            && b.source == GpuCommandBuffers.BlitRegion(texture, 0, i as int32, 0, 0, 64, 64)
            && b.loadOperation == LoadOpLoad && b.filterMode == FilterNearest
            && b.destination.texture == swapchain
  {
  }

  /** The calls one frame records after acquiring the swapchain image: a
      begin and an end per layer, then one blit per layer. `passes` are the
      native pass handles the four begins return. */
  function SliceFrame(texture: Ptr, swapchain: Ptr, width: int32, height: int32, passes: seq<Ptr>, bufferId: nat)
    : (ops: seq<GpuCommandBuffers.Op>)
    requires |passes| == LayerCount
    ensures |ops| == 3 * LayerCount
    ensures forall k :: 0 <= k < LayerCount ==>
              && ops[2 * k] == GpuCommandBuffers.BeginRender(None, [ClearTarget(texture, k)], passes[k])
              && ops[2 * k + 1] == GpuCommandBuffers.EndRender(GpuCommandBuffers.RenderPass(passes[k], bufferId))
    ensures forall k :: 0 <= k < LayerCount ==>
              ops[2 * LayerCount + k] == GpuCommandBuffers.Blit(QuadrantBlit(texture, swapchain, width, height, k))
  {
    var clears := ClearPasses(texture, passes, bufferId, 0);
    var blits := Blits(texture, swapchain, width, height, 0);
    ClearPassesLayout(texture, passes, bufferId);
    assert forall k :: 0 <= k < |clears| ==> (clears + blits)[k] == clears[k];
    assert forall k :: 0 <= k < |blits| ==> (clears + blits)[|clears| + k] == blits[k];
    clears + blits
  }

  /** All of `ClearPassesAt` at once, for the passes from layer 0. */
  lemma ClearPassesLayout(texture: Ptr, passes: seq<Ptr>, bufferId: nat)
    requires |passes| == LayerCount
    ensures var clears := ClearPasses(texture, passes, bufferId, 0);
            forall k :: 0 <= k < LayerCount ==>
              && clears[2 * k] == GpuCommandBuffers.BeginRender(None, [ClearTarget(texture, k)], passes[k])
              && clears[2 * k + 1] == GpuCommandBuffers.EndRender(GpuCommandBuffers.RenderPass(passes[k], bufferId))
  {
    forall k | 0 <= k < LayerCount {
      ClearPassesAt(texture, passes, bufferId, 0, k);
    }
  }

  function ClearPasses(texture: Ptr, passes: seq<Ptr>, bufferId: nat, i: nat): (ops: seq<GpuCommandBuffers.Op>)
    requires |passes| == LayerCount && i <= LayerCount
    ensures |ops| == 2 * (LayerCount - i)
    decreases LayerCount - i
  {
    if i == LayerCount then []
    else
      [GpuCommandBuffers.BeginRender(None, [ClearTarget(texture, i)], passes[i]),
       GpuCommandBuffers.EndRender(GpuCommandBuffers.RenderPass(passes[i], bufferId))]
      + ClearPasses(texture, passes, bufferId, i + 1)
  }

  /** Layer `i + k` is cleared by the `k`-th begin/end pair: a render pass
      on that layer's target, begun on its native pass and ended on it. */
  lemma {:induction false} ClearPassesAt(texture: Ptr, passes: seq<Ptr>, bufferId: nat, i: nat, k: nat)
    requires |passes| == LayerCount && i <= LayerCount && k < LayerCount - i
    ensures ClearPasses(texture, passes, bufferId, i)[2 * k]
              == GpuCommandBuffers.BeginRender(None, [ClearTarget(texture, i + k)], passes[i + k])
    ensures ClearPasses(texture, passes, bufferId, i)[2 * k + 1]
              == GpuCommandBuffers.EndRender(GpuCommandBuffers.RenderPass(passes[i + k], bufferId))
    decreases k
  {
    if k > 0 {
      ClearPassesAt(texture, passes, bufferId, i + 1, k - 1);
      var rest := ClearPasses(texture, passes, bufferId, i + 1);
      var ops := ClearPasses(texture, passes, bufferId, i);
      assert ops[2 * k] == rest[2 * (k - 1)];
      assert ops[2 * k + 1] == rest[2 * (k - 1) + 1];
    }
  }

  function Blits(texture: Ptr, swapchain: Ptr, width: int32, height: int32, i: nat): (ops: seq<GpuCommandBuffers.Op>)
    requires i <= LayerCount
    ensures |ops| == LayerCount - i
    ensures forall k :: 0 <= k < LayerCount - i ==>
              ops[k] == GpuCommandBuffers.Blit(QuadrantBlit(texture, swapchain, width, height, i + k))
    decreases LayerCount - i
  {
    if i == LayerCount then []
    else [GpuCommandBuffers.Blit(QuadrantBlit(texture, swapchain, width, height, i))]
         + Blits(texture, swapchain, width, height, i + 1)
  }

  /** One call with its outcome; the frame stops at the first exception,
      as the example's draw method does. */
  function Perform(m: GpuCommandBuffers.Machine, op: GpuCommandBuffers.Op): GpuCommandBuffers.Step<()>
  {
    match op
    case BeginRender(d, c, p) =>
      var s := GpuCommandBuffers.BeginRenderPass(m, d, c, p);
      GpuCommandBuffers.Step(if s.result.Throw? then Throw(s.result.error) else Return(()), s.after)
    case EndRender(p) => GpuCommandBuffers.EndRenderPass(m, p)
    case Blit(info) => GpuCommandBuffers.BlitTexture(m, info)
    case _ => GpuCommandBuffers.Step(Return(()), GpuCommandBuffers.Apply(m, op))
  }

  function PerformAll(m: GpuCommandBuffers.Machine, ops: seq<GpuCommandBuffers.Op>): GpuCommandBuffers.Step<()>
    decreases |ops|
  {
    if ops == [] then GpuCommandBuffers.Step(Return(()), m)
    else
      var s := Perform(m, ops[0]);
      if s.result.Throw? then s else PerformAll(s.after, ops[1..])
  }

  /** A call that can be recorded on an unsubmitted buffer without an
      exception: a render pass with a target whose native begin succeeds,
      its end, or a blit. */
  predicate Recordable(op: GpuCommandBuffers.Op)
  {
    || (op.BeginRender? && |op.colorTargets| > 0 && op.nativePass != Null)
    || op.EndRender?
    || op.Blit?
  }

  /** Recording such calls on a buffer that was not submitted succeeds,
      keeps the buffer as it is and makes no native submit; the first
      non-recordable call that fails stops the frame. */
  lemma {:induction false} RecordingSucceeds(m: GpuCommandBuffers.Machine, ops: seq<GpuCommandBuffers.Op>)
    requires !m.buffer.submitted
    requires forall k :: 0 <= k < |ops| ==> Recordable(ops[k])
    ensures var s := PerformAll(m, ops);
            && s.result.Return?
            && s.after.buffer == m.buffer
            && GpuCommandBuffers.Submits(s.after.log) == GpuCommandBuffers.Submits(m.log)
    decreases |ops|
  {
    if ops != [] {
      var op := ops[0];
      assert Recordable(op);
      GpuCommandBuffers.RecordingKeepsBuffer(m, op);
      assert Perform(m, op).after == GpuCommandBuffers.Apply(m, op);
      RecordingSucceeds(Perform(m, op).after, ops[1..]);
    }
  }

  /** With every native pass begun, each call of the frame is recordable. */
  lemma SliceFrameIsRecordable(texture: Ptr, swapchain: Ptr, width: int32, height: int32, passes: seq<Ptr>, bufferId: nat)
    requires |passes| == LayerCount && forall k :: 0 <= k < LayerCount ==> passes[k] != Null
    ensures var ops := SliceFrame(texture, swapchain, width, height, passes, bufferId);
            forall k :: 0 <= k < |ops| ==> Recordable(ops[k])
  {
    var ops := SliceFrame(texture, swapchain, width, height, passes, bufferId);
    var clears := ClearPasses(texture, passes, bufferId, 0);
    var blits := Blits(texture, swapchain, width, height, 0);
    assert ops == clears + blits;
    forall k | 0 <= k < |ops| ensures Recordable(ops[k]) {
      if k < |clears| {
        var half := k / 2;
        ClearPassesAt(texture, passes, bufferId, 0, half);
        assert k == 2 * half || k == 2 * half + 1;
      } else {
        assert ops[k] == blits[k - |clears|];
      }
    }
  }

  /** The slice frame, given the acquired swapchain texture. */
  function SliceDraw(m: GpuCommandBuffers.Machine, texture: Ptr, swapchain: Ptr, width: int32, height: int32,
                     passes: seq<Ptr>, submitOk: bool): GpuCommandBuffers.Step<()>
    requires |passes| == LayerCount
  {
    var recorded := PerformAll(m, SliceFrame(texture, swapchain, width, height, passes, m.buffer.id));
    if recorded.result.Throw? then recorded
    else GpuCommandBuffers.Submit(recorded.after, submitOk)
  }

  /** With every native pass begun, a frame on a bound buffer records its
      passes and blits and then submits exactly once: one native submit in
      all, and the buffer ends unbound and back in its pool. */
  lemma SliceFrameSubmitsOnce(m: GpuCommandBuffers.Machine, texture: Ptr, swapchain: Ptr, width: int32, height: int32,
                              passes: seq<Ptr>, submitOk: bool)
    requires GpuCommandBuffers.Valid(m) && m.buffer.handle != Null
    requires |passes| == LayerCount && forall k :: 0 <= k < LayerCount ==> passes[k] != Null
    ensures var s := SliceDraw(m, texture, swapchain, width, height, passes, submitOk);
            && s.result.Return?
            && GpuCommandBuffers.Submits(s.after.log) == GpuCommandBuffers.Submits(m.log) + 1
            && s.after.buffer.handle == Null && !s.after.buffer.submitted
  {
    var ops := SliceFrame(texture, swapchain, width, height, passes, m.buffer.id);
    SliceFrameIsRecordable(texture, swapchain, width, height, passes, m.buffer.id);
    RecordingSucceeds(m, ops);
    var recorded := PerformAll(m, ops);
    GpuCommandBuffers.SubmitIssuesAtMostOneNativeSubmit(recorded.after, submitOk);
  }

  /** Without the swapchain image the frame cancels the buffer instead:
      nothing is recorded and nothing is submitted. */
  function SliceOnDraw(m: GpuCommandBuffers.Machine, window: GpuCommandBuffers.Window,
                       acquired: GpuCommandBuffers.SwapchainAcquisition, texture: Ptr,
                       passes: seq<Ptr>, cancelOk: bool, submitOk: bool): GpuCommandBuffers.Step<()>
    requires |passes| == LayerCount
  {
    var got := GpuCommandBuffers.TryGetSwapchainTexture(m, window, acquired);
    if got.result.Throw? then GpuCommandBuffers.Step(Throw(got.result.error), got.after)
    else if got.result.value.None? then GpuCommandBuffers.Cancel(got.after, cancelOk)
    else
      var t := got.result.value.value;
      SliceDraw(got.after, texture, t.handle, t.width, t.height, passes, submitOk)
  }

  /** A frame that could not acquire the swapchain image makes no native
      submit and records no pass. */
  lemma SliceFrameCancelsWithoutSwapchain(m: GpuCommandBuffers.Machine, window: GpuCommandBuffers.Window,
                                          acquired: GpuCommandBuffers.SwapchainAcquisition, texture: Ptr,
                                          passes: seq<Ptr>, submitOk: bool)
    requires GpuCommandBuffers.Valid(m) && !m.buffer.submitted && m.buffer.handle != Null
    requires |passes| == LayerCount
    requires !acquired.ok || acquired.texture == Null
    ensures var s := SliceOnDraw(m, window, acquired, texture, passes, true, submitOk);
            && s.result.Return?
            && GpuCommandBuffers.Submits(s.after.log) == GpuCommandBuffers.Submits(m.log)
            && s.after.buffer.handle == Null
  {
    var got := GpuCommandBuffers.TryGetSwapchainTexture(m, window, acquired);
    GpuCommandBuffers.SwapchainKeepsBuffer(m, window, acquired);
    GpuCommandBuffers.CancelSuccessNeverSubmits(got.after);
  }
}
