/** GpuCommandBuffer: a pooled recorder of GPU work around one native
    command-buffer handle, with a "submitted" flag that guards against a
    second native submit of the same handle.

    Every operation is a function from a `Machine` (the buffer, the build
    configuration and the log of what has happened so far) to a `Step`: what
    the call returned or threw, and the machine afterwards. Native calls and
    pool traffic are appended to the log; native results are parameters. */
module GpuCommandBuffers {
  import opened Native
  import GpuTextures
  import GpuComputePasses

  datatype CommandBuffer = CommandBuffer(device: nat, id: nat, handle: Ptr, submitted: bool)

  /** A color render-target as the caller describes it. A missing texture is
      represented by `Null`; the clear color (four floats) by an opaque token. */
  datatype ColorTarget = ColorTarget(
    texture: Ptr,
    mipMapLevel: int32,
    layerOrDepthPlane: int32,
    clearColor: nat,
    loadOperation: nat,
    storeOperation: nat,
    resolveTexture: Ptr,
    resolveMipMapLevel: int32,
    resolveLayer: int32,
    isTextureCycled: bool,
    isResolveTextureCycled: bool)

  /** The native color-target struct the wrapper fills in. */
  datatype NativeColorTarget = NativeColorTarget(
    texture: Ptr,
    mipLevel: uint32,
    layerOrDepthPlane: uint32,
    clearColor: nat,
    loadOp: nat,
    storeOp: nat,
    resolveTexture: Ptr,
    resolveMipLevel: uint32,
    resolveLayer: uint32,
    cycle: bool,
    cycleResolveTexture: bool)

  /** The depth-stencil target; every field is copied unchanged into the
      native struct, so one type serves both sides. */
  datatype DepthStencilTarget = DepthStencilTarget(
    texture: Ptr, isTextureCycled: bool, clearDepth: nat, clearStencil: nat,
    loadOperation: nat, storeOperation: nat, stencilLoadOperation: nat, stencilStoreOperation: nat)

  datatype TextureWriteBinding = TextureWriteBinding(
    texture: Ptr, mipMapLevelIndex: int32, layerOrDepthIndex: int32, isCycled: bool)

  datatype NativeTextureWriteBinding = NativeTextureWriteBinding(
    texture: Ptr, mipLevel: uint32, layer: uint32, cycle: bool)

  /** A storage-buffer write binding; copied unchanged. */
  datatype BufferWriteBinding = BufferWriteBinding(buffer: Ptr, isCycled: bool)

  datatype ComputePassParameters = ComputePassParameters(
    textureWriteBindings: seq<TextureWriteBinding>,
    dataBufferWriteBindings: seq<BufferWriteBinding>)

  /** One side of a blit. */
  datatype BlitRegion = BlitRegion(
    texture: Ptr, mipMapLevel: int32, layerOrDepthPlane: int32,
    x: int32, y: int32, width: int32, height: int32)

  datatype NativeBlitRegion = NativeBlitRegion(
    texture: Ptr, mipLevel: uint32, layerOrDepthPlane: uint32,
    x: uint32, y: uint32, w: uint32, h: uint32)

  /** The caller's blit description; `clearColor` is an opaque token for the
      four floats. */
  datatype BlitInfo = BlitInfo(
    source: BlitRegion, destination: BlitRegion, loadOperation: nat,
    clearColor: nat, flipMode: nat, filterMode: nat, isDestinationTextureCycled: bool)

  datatype NativeBlitInfo = NativeBlitInfo(
    source: NativeBlitRegion, destination: NativeBlitRegion, loadOp: nat,
    clearColor: nat, flipMode: nat, filter: nat, cycle: bool)

  datatype UniformStage = VertexStage | FragmentStage | ComputeStage

  /** A pooled render pass as handed out by `BeginRenderPass`. */
  datatype RenderPass = RenderPass(handle: Ptr, commandBuffer: nat)

  /** An unpooled copy pass as built by `BeginCopyPass`. */
  datatype CopyPass = CopyPass(device: nat, handle: Ptr, commandBuffer: nat)

  /** What the platform reports when asked for a swapchain image. */
  datatype SwapchainAcquisition = SwapchainAcquisition(ok: bool, texture: Ptr, width: uint32, height: uint32)

  /** A window with the swapchain texture object it owns, if any. */
  datatype Window = Window(id: nat, swapchainTexture: Option<GpuTextures.Texture>)

  datatype Effect =
    | SubmitCommandBuffer(commandBuffer: Ptr)
    | CancelCommandBuffer(commandBuffer: Ptr)
    | WaitAndAcquireSwapchainTexture(commandBuffer: Ptr, window: nat)
    | BeginRenderPassCall(commandBuffer: Ptr, colorTargets: seq<NativeColorTarget>, depthStencil: Option<DepthStencilTarget>)
    | BeginCopyPassCall(commandBuffer: Ptr)
    | BeginComputePassCall(commandBuffer: Ptr, textureBindings: seq<NativeTextureWriteBinding>, bufferBindings: seq<BufferWriteBinding>)
    | PushUniform(stage: UniformStage, commandBuffer: Ptr, slot: uint32, data: seq<byte>)
    | BlitTextureCall(commandBuffer: Ptr, info: NativeBlitInfo)
    | NativeFailureLogged
    | RenderPassCheckedOut
    | ComputePassCheckedOut
    | RenderPassReturned(pass: RenderPass)
    | ReturnedToPool(buffer: nat)

  /** `debug` is the build configuration: the submitted guard is compiled
      only into DEBUG builds. */
  datatype Machine = Machine(debug: bool, buffer: CommandBuffer, log: seq<Effect>)

  datatype Step<T> = Step(result: Result<T>, after: Machine)

  /** The state every public operation keeps: a buffer flagged as submitted
      no longer holds a native handle. */
  predicate Valid(m: Machine) {
    m.buffer.submitted ==> m.buffer.handle == Null
  }

  /** Number of native submits in a log. */
  function Submits(log: seq<Effect>): nat
  {
    if log == [] then 0
    else (if log[0].SubmitCommandBuffer? then 1 else 0) + Submits(log[1..])
  }

  lemma {:induction false} SubmitsAppend(a: seq<Effect>, b: seq<Effect>)
    ensures Submits(a + b) == Submits(a) + Submits(b)
  {
    if a == [] {
      assert a + b == b;
    } else {
      assert (a + b)[1..] == a[1..] + b;
      SubmitsAppend(a[1..], b);
    }
  }

  /** A log with no native submit in it counts none. */
  lemma {:induction false} SubmitsNone(log: seq<Effect>)
    requires forall i :: 0 <= i < |log| ==> !log[i].SubmitCommandBuffer?
    ensures Submits(log) == 0
  {
    if log != [] {
      SubmitsNone(log[1..]);
    }
  }

  function Emit(m: Machine, effects: seq<Effect>): Machine
  {
    m.(log := m.log + effects)
  }

  /** Appending effects that hold no native submit leaves the count as it was. */
  lemma EmitQuiet(m: Machine, effects: seq<Effect>)
    requires forall i :: 0 <= i < |effects| ==> !effects[i].SubmitCommandBuffer?
    ensures Submits(Emit(m, effects).log) == Submits(m.log)
  {
    SubmitsAppend(m.log, effects);
    SubmitsNone(effects);
  }

  // ---------------------------------------------------------------- marshalling

  function MarshalColorTarget(t: ColorTarget): NativeColorTarget
  {
    NativeColorTarget(
      t.texture, ToUInt32(t.mipMapLevel), ToUInt32(t.layerOrDepthPlane), t.clearColor,
      t.loadOperation, t.storeOperation, t.resolveTexture,
      ToUInt32(t.resolveMipMapLevel), ToUInt32(t.resolveLayer),
      t.isTextureCycled, t.isResolveTextureCycled)
  }

  /** The color targets copied one-for-one, in order, into native structs. */
  function MarshalColorTargets(ts: seq<ColorTarget>): (r: seq<NativeColorTarget>)
    ensures |r| == |ts|
    ensures forall i :: 0 <= i < |ts| ==> r[i] == MarshalColorTarget(ts[i])
  {
    if ts == [] then [] else [MarshalColorTarget(ts[0])] + MarshalColorTargets(ts[1..])
  }

  /** Nothing of a color target is lost on the way to SDL: every field
      reaches its native counterpart, and the `uint` casts read back as the
      caller's `int` values. */
  lemma MarshalColorTargetKeepsEveryField(t: ColorTarget)
    ensures var n := MarshalColorTarget(t);
            && n.texture == t.texture && n.resolveTexture == t.resolveTexture
            && ToInt32(n.mipLevel) == t.mipMapLevel
            && ToInt32(n.layerOrDepthPlane) == t.layerOrDepthPlane
            && ToInt32(n.resolveMipLevel) == t.resolveMipMapLevel
            && ToInt32(n.resolveLayer) == t.resolveLayer
            && n.clearColor == t.clearColor
            && n.loadOp == t.loadOperation && n.storeOp == t.storeOperation
            && n.cycle == t.isTextureCycled && n.cycleResolveTexture == t.isResolveTextureCycled
  {
    CastRoundTrip(t.mipMapLevel);
    CastRoundTrip(t.layerOrDepthPlane);
    CastRoundTrip(t.resolveMipMapLevel);
    CastRoundTrip(t.resolveLayer);
  }

  function MarshalTextureBinding(b: TextureWriteBinding): NativeTextureWriteBinding
  {
    NativeTextureWriteBinding(b.texture, ToUInt32(b.mipMapLevelIndex), ToUInt32(b.layerOrDepthIndex), b.isCycled)
  }

  /** The texture write bindings copied one-for-one, in order. */
  function MarshalTextureBindings(bs: seq<TextureWriteBinding>): (r: seq<NativeTextureWriteBinding>)
    ensures |r| == |bs|
    ensures forall i :: 0 <= i < |bs| ==> r[i] == MarshalTextureBinding(bs[i])
  {
    if bs == [] then [] else [MarshalTextureBinding(bs[0])] + MarshalTextureBindings(bs[1..])
  }

  function MarshalBlitRegion(r: BlitRegion): NativeBlitRegion
  {
    NativeBlitRegion(r.texture, ToUInt32(r.mipMapLevel), ToUInt32(r.layerOrDepthPlane),
                     ToUInt32(r.x), ToUInt32(r.y), ToUInt32(r.width), ToUInt32(r.height))
  }

  /** The native blit struct starts zeroed and only the regions, load
      operation, filter and cycle flag are filled in. */
  function MarshalBlit(info: BlitInfo): NativeBlitInfo
  {
    NativeBlitInfo(MarshalBlitRegion(info.source), MarshalBlitRegion(info.destination),
                   info.loadOperation, 0, 0, info.filterMode, info.isDestinationTextureCycled)
  }

  /** The caller's clear color and flip mode never reach the native blit. */
  lemma BlitDropsClearColorAndFlipMode(info: BlitInfo, clearColor: nat, flipMode: nat)
    ensures MarshalBlit(info) == MarshalBlit(info.(clearColor := clearColor, flipMode := flipMode))
    ensures MarshalBlit(info).flipMode == 0 && MarshalBlit(info).clearColor == 0
  {
  }

  // ---------------------------------------------------------------- operations

  /** A new pooled buffer, before the device binds a handle to it. */
  function New(debug: bool, device: nat, id: nat): (m: Machine)
    ensures m.buffer.handle == Null && !m.buffer.submitted && m.log == []
    ensures Valid(m)
  {
    Machine(debug, CommandBuffer(device, id, Null, false), [])
  }

  /** `Set`: the device binds a freshly acquired native handle. */
  function Set(m: Machine, handle: Ptr): (r: Machine)
    ensures r.buffer.handle == handle && !r.buffer.submitted
    ensures Valid(r) && r.log == m.log
  {
    m.(buffer := m.buffer.(handle := handle, submitted := false))
  }

  /** `ThrowIfSubmitted`, compiled only into DEBUG builds. */
  function ThrowIfSubmitted(m: Machine): Result<()>
  {
    if m.debug && m.buffer.submitted then Throw(InvalidOperation) else Return(())
  }

  /** `SubmitCore`: nothing to do without a handle; otherwise the test-and-set
      of the flag decides whether this call submits. The handle is cleared
      whether or not the native submit succeeded; a failure is only logged. */
  function SubmitCore(m: Machine, nativeOk: bool): (s: Step<()>)
    ensures m.buffer.handle == Null ==> s == Step(Return(()), m)
    ensures Valid(m) ==> s.result.Return? && Valid(s.after)
    ensures s.after.buffer.handle == Null || s.after == m
  {
    if m.buffer.handle == Null then Step(Return(()), m)
    else if m.buffer.submitted then Step(ThrowIfSubmitted(m), m)
    else
      var handle := m.buffer.handle;
      var flagged := m.(buffer := m.buffer.(submitted := true));
      var logged := Emit(flagged, [SubmitCommandBuffer(handle)] + (if nativeOk then [] else [NativeFailureLogged]));
      Step(Return(()), logged.(buffer := logged.buffer.(handle := Null)))
  }

  /** `Reset`, the pool's reset hook: submit whatever is still bound, then
      clear the flag for the next user. */
  function Reset(m: Machine, nativeOk: bool): (s: Step<()>)
    ensures Valid(m) ==> s.result.Return? && s.after.buffer.handle == Null && !s.after.buffer.submitted
    ensures s.after.buffer.(handle := m.buffer.handle, submitted := m.buffer.submitted) == m.buffer
    ensures |m.log| <= |s.after.log| && s.after.log[..|m.log|] == m.log
    ensures m.buffer.handle == Null ==> s.after.log == m.log
    ensures m.buffer.handle != Null && !m.buffer.submitted ==>
              && |s.after.log| > |m.log| && s.after.log[|m.log|] == SubmitCommandBuffer(m.buffer.handle)
              && Submits(s.after.log) == Submits(m.log) + 1
  {
    SubmitsAppend(m.log, [SubmitCommandBuffer(m.buffer.handle)] + (if nativeOk then [] else [NativeFailureLogged]));
    SubmitsAppend([SubmitCommandBuffer(m.buffer.handle)], if nativeOk then [] else [NativeFailureLogged]);
    var s := SubmitCore(m, nativeOk);
    if s.result.Throw? then s
    else Step(Return(()), s.after.(buffer := s.after.buffer.(submitted := false)))
  }

  /** The pool's return, which runs the reset hook before taking the buffer
      back. */
  function ReturnToPool(m: Machine, nativeOk: bool): (s: Step<()>)
    ensures Valid(m) ==> && s.result.Return? && s.after.buffer.handle == Null && !s.after.buffer.submitted
                         && |s.after.log| > |m.log| && s.after.log[|s.after.log| - 1] == ReturnedToPool(m.buffer.id)
    ensures |m.log| <= |s.after.log| && s.after.log[..|m.log|] == m.log
    ensures m.buffer.handle == Null ==> s.after.log == m.log + [ReturnedToPool(m.buffer.id)]
    ensures m.buffer.handle != Null && !m.buffer.submitted ==>
              && |s.after.log| > |m.log| + 1 && s.after.log[|m.log|] == SubmitCommandBuffer(m.buffer.handle)
              && Submits(s.after.log) == Submits(m.log) + 1
  {
    var s := Reset(m, nativeOk);
    SubmitsAppend(s.after.log, [ReturnedToPool(m.buffer.id)]);
    if s.result.Throw? then s
    else Step(Return(()), Emit(s.after, [ReturnedToPool(m.buffer.id)]))
  }

  /** `Submit`: submit, then return the buffer to its pool. */
  function Submit(m: Machine, nativeOk: bool): (s: Step<()>)
    ensures Valid(m) ==> && s.result.Return? && s.after.buffer.handle == Null && !s.after.buffer.submitted
                         && |s.after.log| > |m.log| && s.after.log[|s.after.log| - 1] == ReturnedToPool(m.buffer.id)
    ensures m.buffer.handle != Null && !m.buffer.submitted ==>
              |s.after.log| > |m.log| && s.after.log[|m.log|] == SubmitCommandBuffer(m.buffer.handle)
    ensures |m.log| <= |s.after.log| && s.after.log[..|m.log|] == m.log
  {
    var s := SubmitCore(m, nativeOk);
    if s.result.Throw? then s else ReturnToPool(s.after, nativeOk)
  }

  /** `Cancel`: no submitted guard. A native failure throws with the handle
      still bound and the buffer kept; success clears the handle first, so the
      pool's reset has nothing left to submit. */
  function Cancel(m: Machine, nativeOk: bool): (s: Step<()>)
    ensures |s.after.log| > |m.log| && s.after.log[..|m.log|] == m.log
    ensures s.after.log[|m.log|] == CancelCommandBuffer(m.buffer.handle)
    ensures s.result.Throw? <==> !nativeOk
    ensures !nativeOk ==> s.result == Throw(InvalidOperation) && s.after.buffer == m.buffer
    ensures nativeOk ==> s.after.buffer.handle == Null && !s.after.buffer.submitted
  {
    var cancelled := Emit(m, [CancelCommandBuffer(m.buffer.handle)]);
    if !nativeOk then Step(Throw(InvalidOperation), cancelled)
    else ReturnToPool(cancelled.(buffer := cancelled.buffer.(handle := Null)), true)
  }

  /** `TryGetSwapchainTexture`: `Some` is the C# `true` with its out value. */
  function TryGetSwapchainTexture(m: Machine, window: Window, acquired: SwapchainAcquisition)
    : (s: Step<Option<GpuTextures.Texture>>)
    ensures s.after.buffer == m.buffer
    ensures ThrowIfSubmitted(m).Throw? ==> s == Step(Throw(InvalidOperation), m)
    ensures s.result.Throw? ==> s.result == Throw(InvalidOperation) || s.result == Throw(NullReference)
    ensures s.result.Return? && s.result.value.Some? ==>
              acquired.ok && acquired.texture != Null && s.result.value.value.handle == acquired.texture
  {
    if ThrowIfSubmitted(m).Throw? then Step(Throw(InvalidOperation), m)
    else
      var asked := Emit(m, [WaitAndAcquireSwapchainTexture(m.buffer.handle, window.id)]);
      if !acquired.ok then Step(Return(None), Emit(asked, [NativeFailureLogged]))
      else if acquired.texture == Null then Step(Return(None), asked)
      else if window.swapchainTexture.None? then Step(Throw(NullReference), asked)
      else
        var t := GpuTextures.UpdateTextureSwapchain(
          window.swapchainTexture.value, acquired.texture,
          ToInt32(acquired.width), ToInt32(acquired.height));
        Step(Return(Some(t)), asked)
  }

  /** `BeginRenderPass`; `nativePass` is what the native begin returns. */
  function BeginRenderPass(
    m: Machine, depthStencil: Option<DepthStencilTarget>, colorTargets: seq<ColorTarget>, nativePass: Ptr)
    : (s: Step<RenderPass>)
    ensures s.after.buffer == m.buffer
    ensures s.result.Return? <==> ThrowIfSubmitted(m).Return? && |colorTargets| > 0 && nativePass != Null
    ensures s.result.Return? ==> s.result.value == RenderPass(nativePass, m.buffer.id)
  {
    if ThrowIfSubmitted(m).Throw? then Step(Throw(InvalidOperation), m)
    else if |colorTargets| == 0 then Step(Throw(Argument), m)
    else
      var begun := Emit(m, [BeginRenderPassCall(m.buffer.handle, MarshalColorTargets(colorTargets), depthStencil)]);
      if nativePass == Null then Step(Throw(NativeFunctionFailed), Emit(begun, [NativeFailureLogged]))
      else Step(Return(RenderPass(nativePass, m.buffer.id)), Emit(begun, [RenderPassCheckedOut]))
  }

  /** `BeginCopyPass`: a fresh, unpooled pass, whatever the native call returned. */
  function BeginCopyPass(m: Machine, nativePass: Ptr): (s: Step<CopyPass>)
    ensures s.after.buffer == m.buffer
    ensures s.result.Return? <==> ThrowIfSubmitted(m).Return?
    ensures s.result.Return? ==> s.result.value.handle == nativePass && s.result.value.commandBuffer == m.buffer.id
  {
    if ThrowIfSubmitted(m).Throw? then Step(Throw(InvalidOperation), m)
    else Step(Return(CopyPass(m.buffer.device, nativePass, m.buffer.id)),
              Emit(m, [BeginCopyPassCall(m.buffer.handle)]))
  }

  /** `BeginComputePass`: the pooled pass gets the native handle and this
      buffer as its owner. */
  function BeginComputePass(m: Machine, parameters: ComputePassParameters, nativePass: Ptr)
    : (s: Step<GpuComputePasses.ComputePass>)
    ensures s.after.buffer == m.buffer
    ensures s.result.Return? <==> ThrowIfSubmitted(m).Return? && nativePass != Null
  {
    if ThrowIfSubmitted(m).Throw? then Step(Throw(InvalidOperation), m)
    else
      var begun := Emit(m, [BeginComputePassCall(
        m.buffer.handle,
        MarshalTextureBindings(parameters.textureWriteBindings),
        parameters.dataBufferWriteBindings)]);
      if nativePass == Null then Step(Throw(NativeFunctionFailed), Emit(begun, [NativeFailureLogged]))
      else Step(Return(GpuComputePasses.ComputePass(m.buffer.device, nativePass, Some(m.buffer.id))),
                Emit(begun, [ComputePassCheckedOut]))
  }

  /** The three `Push*ShaderUniformData` methods: no guard, the handle is
      passed as is. */
  function PushUniformData(m: Machine, stage: UniformStage, data: seq<byte>, slot: int32): (s: Step<()>)
    ensures s.result.Return? && s.after.buffer == m.buffer
    ensures |s.after.log| == |m.log| + 1 && s.after.log[..|m.log|] == m.log
    ensures var e := s.after.log[|m.log|];
            && e.PushUniform? && e.stage == stage && e.commandBuffer == m.buffer.handle && e.data == data
            && ToInt32(e.slot) == slot
  {
    CastRoundTrip(slot);
    Step(Return(()), Emit(m, [PushUniform(stage, m.buffer.handle, ToUInt32(slot), data)]))
  }

  /** `BlitTexture`: no guard. */
  function BlitTexture(m: Machine, info: BlitInfo): (s: Step<()>)
    ensures s.result.Return? && s.after.buffer == m.buffer
    ensures |s.after.log| == |m.log| + 1 && s.after.log[..|m.log|] == m.log
    ensures s.after.log[|m.log|].BlitTextureCall? && s.after.log[|m.log|].commandBuffer == m.buffer.handle
  {
    Step(Return(()), Emit(m, [BlitTextureCall(m.buffer.handle, MarshalBlit(info))]))
  }

  /** `EndRenderPass`, called by a render pass when it ends. */
  function EndRenderPass(m: Machine, pass: RenderPass): (s: Step<()>)
    ensures s.after.buffer == m.buffer
    ensures s.result.Return? <==> ThrowIfSubmitted(m).Return?
    ensures s.result.Return? ==> s.after.log == m.log + [RenderPassReturned(pass)]
    ensures s.result.Throw? ==> s.after == m
  {
    if ThrowIfSubmitted(m).Throw? then Step(Throw(InvalidOperation), m)
    else Step(Return(()), Emit(m, [RenderPassReturned(pass)]))
  }

  // ---------------------------------------------------------------- submit / cancel

  /** On a bound, unsubmitted buffer `SubmitCore` sets the flag, issues exactly
      one native submit of that handle and clears the handle, whether or not
      the native call succeeded. */
  lemma SubmitCoreSubmitsBoundHandleOnce(m: Machine, nativeOk: bool)
    requires m.buffer.handle != Null && !m.buffer.submitted
    ensures var s := SubmitCore(m, nativeOk);
            && s.result.Return?
            && s.after.buffer.submitted
            && s.after.buffer.handle == Null
            && |s.after.log| > |m.log|
            && s.after.log[|m.log|] == SubmitCommandBuffer(m.buffer.handle)
            && Submits(s.after.log) == Submits(m.log) + 1
  {
    var extra := [SubmitCommandBuffer(m.buffer.handle)] + (if nativeOk then [] else [NativeFailureLogged]);
    SubmitsAppend(m.log, extra);
    SubmitsAppend([SubmitCommandBuffer(m.buffer.handle)], if nativeOk then [] else [NativeFailureLogged]);
  }

  /** `Submit` followed by the pool return issues one native submit if a
      handle was bound and none otherwise, leaves the buffer unbound with the
      flag clear, and ends by returning the buffer to its pool. */
  lemma SubmitIssuesAtMostOneNativeSubmit(m: Machine, nativeOk: bool)
    requires Valid(m)
    ensures var s := Submit(m, nativeOk);
            && s.result.Return?
            && Submits(s.after.log) == Submits(m.log) + (if m.buffer.handle != Null then 1 else 0)
            && s.after.buffer.handle == Null
            && !s.after.buffer.submitted
            && s.after.log[|s.after.log| - 1] == ReturnedToPool(m.buffer.id)
  {
    var s1 := SubmitCore(m, nativeOk);
    if m.buffer.handle != Null {
      SubmitCoreSubmitsBoundHandleOnce(m, nativeOk);
    }
    var s2 := SubmitCore(s1.after, nativeOk);
    assert s2 == Step(Return(()), s1.after);
    SubmitsAppend(s1.after.log, [ReturnedToPool(m.buffer.id)]);
  }

  /** A second `Submit` of the same buffer makes no native call. */
  lemma SubmitTwiceSubmitsOnce(m: Machine, ok1: bool, ok2: bool)
    requires Valid(m)
    ensures var first := Submit(m, ok1);
            var second := Submit(first.after, ok2);
            && second.result.Return?
            && Submits(second.after.log) == Submits(first.after.log)
  {
    SubmitIssuesAtMostOneNativeSubmit(m, ok1);
    SubmitIssuesAtMostOneNativeSubmit(Submit(m, ok1).after, ok2);
  }

  /** A failed native cancel throws `InvalidOperationException` with the handle
      still bound and the buffer not returned. */
  lemma CancelFailureKeepsBuffer(m: Machine)
    ensures var s := Cancel(m, false);
            && s.result == Throw(InvalidOperation)
            && s.after.buffer == m.buffer
            && s.after.log == m.log + [CancelCommandBuffer(m.buffer.handle)]
  {
  }

  /** A successful cancel clears the handle before the pool return, so no
      native submit ever follows, and the buffer goes back with its flag
      clear. */
  lemma CancelSuccessNeverSubmits(m: Machine)
    requires Valid(m)
    ensures var s := Cancel(m, true);
            && s.result.Return?
            && Submits(s.after.log) == Submits(m.log)
            && s.after.buffer.handle == Null && !s.after.buffer.submitted
            && s.after.log == m.log + [CancelCommandBuffer(m.buffer.handle), ReturnedToPool(m.buffer.id)]
  {
    var cancelled := Emit(m, [CancelCommandBuffer(m.buffer.handle)]);
    EmitQuiet(m, [CancelCommandBuffer(m.buffer.handle)]);
    EmitQuiet(cancelled, [ReturnedToPool(m.buffer.id)]);
  }

  // ---------------------------------------------------------------- guard coverage

  /** In a DEBUG build the guard throws exactly when the flag is set; in a
      release build it never throws. */
  lemma GuardThrowsIffSubmittedInDebug(m: Machine)
    ensures ThrowIfSubmitted(m).Throw? <==> m.debug && m.buffer.submitted
    ensures !m.debug ==> ThrowIfSubmitted(m) == Return(())
  {
  }

  /** The guarded operations — `TryGetSwapchainTexture`, the three
      `Begin*Pass` methods and `EndRenderPass` — refuse a submitted buffer in
      a DEBUG build before making any native call. */
  lemma GuardedOperationsRefuseSubmitted(
    m: Machine, window: Window, acquired: SwapchainAcquisition,
    depthStencil: Option<DepthStencilTarget>, colorTargets: seq<ColorTarget>,
    parameters: ComputePassParameters, nativePass: Ptr, pass: RenderPass)
    requires m.debug && m.buffer.submitted
    ensures TryGetSwapchainTexture(m, window, acquired) == Step(Throw(InvalidOperation), m)
    ensures BeginRenderPass(m, depthStencil, colorTargets, nativePass) == Step(Throw(InvalidOperation), m)
    ensures BeginCopyPass(m, nativePass) == Step(Throw(InvalidOperation), m)
    ensures BeginComputePass(m, parameters, nativePass) == Step(Throw(InvalidOperation), m)
    ensures EndRenderPass(m, pass) == Step(Throw(InvalidOperation), m)
  {
  }

  /** The flag is never observable as set by the buffer's own caller: `Submit`
      and a successful `Cancel` end by returning the buffer to its pool,
      whose reset clears the flag, and no other call sets it. */
  lemma {:induction false} ApplyNeverLeavesFlag(m: Machine, op: Op)
    requires !m.buffer.submitted
    ensures !Apply(m, op).buffer.submitted
  {
    match op
    case Bind(h) =>
    case SubmitOp(ok) =>
      var s1 := SubmitCore(m, ok);
      assert s1.result.Return?;
      assert !Reset(s1.after, ok).after.buffer.submitted;
    case CancelOp(ok) =>
    case AcquireSwapchain(_, _) => RecordingKeepsBuffer(m, op);
    case BeginRender(_, _, _) => RecordingKeepsBuffer(m, op);
    case BeginCopy(_) => RecordingKeepsBuffer(m, op);
    case BeginCompute(_, _) => RecordingKeepsBuffer(m, op);
    case Push(_, _, _) => RecordingKeepsBuffer(m, op);
    case Blit(_) => RecordingKeepsBuffer(m, op);
    case EndRender(_) => RecordingKeepsBuffer(m, op);
  }

  lemma {:induction false} RunNeverLeavesFlag(m: Machine, ops: seq<Op>)
    requires !m.buffer.submitted
    ensures !Run(m, ops).buffer.submitted
    decreases |ops|
  {
    if ops != [] {
      ApplyNeverLeavesFlag(m, ops[0]);
      RunNeverLeavesFlag(Apply(m, ops[0]), ops[1..]);
    }
  }

  /** Hence, for a buffer driven by a single caller from construction, the
      DEBUG guard never fires, whatever was called before — a `Submit`
      included. `GuardedOperationsRefuseSubmitted` applies only to a flag
      seen between `SubmitCore` and the pool reset, that is, by another
      thread. */
  lemma GuardNeverFiresAfterAnyScript(debug: bool, device: nat, id: nat, ops: seq<Op>)
    ensures ThrowIfSubmitted(Run(New(debug, device, id), ops)) == Return(())
  {
    RunNeverLeavesFlag(New(debug, device, id), ops);
  }

  /** As written, a DEBUG build does not refuse a buffer used after `Submit`:
      binding a handle, submitting it and then beginning a copy pass reaches
      SDL with the cleared (null) command-buffer handle. */
  lemma StaleCopyPassAfterSubmitAsWritten(h: Ptr, ok: bool, nativePass: Ptr)
    requires h != Null
    ensures var m := Run(New(true, 0, 0), [Bind(h), SubmitOp(ok)]);
            var s := BeginCopyPass(m, nativePass);
            && s.result.Return?
            && |s.after.log| > 0
            && s.after.log[|s.after.log| - 1] == BeginCopyPassCall(Null)
  {
    var bound := Set(New(true, 0, 0), h);
    assert Run(New(true, 0, 0), [Bind(h), SubmitOp(ok)]) == Run(bound, [SubmitOp(ok)]);
    assert Run(bound, [SubmitOp(ok)]) == Submit(bound, ok).after;
    SubmitIssuesAtMostOneNativeSubmit(bound, ok);
  }

  /** The pool reset as evidently intended: submit whatever is still bound,
      but keep the flag, which only `Set` clears when the buffer is handed
      out again. */
  function ResetIntended(m: Machine, nativeOk: bool): Step<()>
  {
    SubmitCore(m, nativeOk)
  }

  /** `Submit` with the intended pool reset. */
  function SubmitIntended(m: Machine, nativeOk: bool): Step<()>
  {
    var s := SubmitCore(m, nativeOk);
    if s.result.Throw? then s
    else
      var r := ResetIntended(s.after, nativeOk);
      if r.result.Throw? then r
      else Step(Return(()), Emit(r.after, [ReturnedToPool(m.buffer.id)]))
  }

  /** With the intended reset, a submitted buffer stays flagged until it is
      bound again: every guarded operation on it is refused in a DEBUG build
      before any native call, the submit still happens exactly once, and
      `Set` makes the buffer usable again. */
  lemma IntendedSubmitRefusesStaleUse(
    device: nat, id: nat, h: Ptr, ok: bool, h2: Ptr, window: Window, acquired: SwapchainAcquisition,
    depthStencil: Option<DepthStencilTarget>, colorTargets: seq<ColorTarget>,
    parameters: ComputePassParameters, nativePass: Ptr, pass: RenderPass)
    requires h != Null
    ensures var m := SubmitIntended(Set(New(true, device, id), h), ok).after;
            && Valid(m)
            && Submits(m.log) == 1
            && TryGetSwapchainTexture(m, window, acquired) == Step(Throw(InvalidOperation), m)
            && BeginRenderPass(m, depthStencil, colorTargets, nativePass) == Step(Throw(InvalidOperation), m)
            && BeginCopyPass(m, nativePass) == Step(Throw(InvalidOperation), m)
            && BeginComputePass(m, parameters, nativePass) == Step(Throw(InvalidOperation), m)
            && EndRenderPass(m, pass) == Step(Throw(InvalidOperation), m)
            && ThrowIfSubmitted(Set(m, h2)) == Return(())
  {
    var bound := Set(New(true, device, id), h);
    SubmitCoreSubmitsBoundHandleOnce(bound, ok);
    var s1 := SubmitCore(bound, ok);
    assert SubmitCore(s1.after, ok) == Step(Return(()), s1.after);
    var m := SubmitIntended(bound, ok).after;
    assert m == Emit(s1.after, [ReturnedToPool(id)]);
    SubmitsAppend(s1.after.log, [ReturnedToPool(id)]);
    GuardedOperationsRefuseSubmitted(m, window, acquired, depthStencil, colorTargets, parameters, nativePass, pass);
  }

  /** Clear the submitted flag and nothing else. */
  function Unflagged(m: Machine): Machine
  {
    m.(buffer := m.buffer.(submitted := false))
  }

  /** The unguarded operations — the uniform pushes, `BlitTexture` and
      `Cancel` — do exactly the same thing whether or not the buffer was
      submitted, in every build. */
  lemma UnguardedOperationsIgnoreFlag(
    m: Machine, stage: UniformStage, data: seq<byte>, slot: int32, info: BlitInfo, nativeOk: bool)
    requires m.buffer.handle == Null || !m.buffer.submitted
    ensures PushUniformData(m, stage, data, slot).result == PushUniformData(Unflagged(m), stage, data, slot).result
    ensures PushUniformData(m, stage, data, slot).after.log == PushUniformData(Unflagged(m), stage, data, slot).after.log
    ensures BlitTexture(m, info).after.log == BlitTexture(Unflagged(m), info).after.log
    ensures Cancel(m, nativeOk).result == Cancel(Unflagged(m), nativeOk).result
    ensures Cancel(m, nativeOk).after.log == Cancel(Unflagged(m), nativeOk).after.log
  {
  }

  /** `BeginCopyPass` does not check the native handle: a null native pass
      still yields a copy pass, owned by this buffer, and nothing is taken
      from a pool. */
  lemma BeginCopyPassSkipsNullCheck(m: Machine)
    requires !m.debug || !m.buffer.submitted
    ensures var s := BeginCopyPass(m, Null);
            && s.result == Return(CopyPass(m.buffer.device, Null, m.buffer.id))
            && s.after.log == m.log + [BeginCopyPassCall(m.buffer.handle)]
  {
  }

  // ---------------------------------------------------------------- begin render pass

  /** An empty color-target list is refused before any native call. */
  lemma BeginRenderPassRejectsNoTargets(
    m: Machine, depthStencil: Option<DepthStencilTarget>, nativePass: Ptr)
    requires !m.debug || !m.buffer.submitted
    ensures BeginRenderPass(m, depthStencil, [], nativePass) == Step(Throw(Argument), m)
  {
  }

  /** Otherwise the native begin receives every target, in order; a null
      native pass throws, and a real one is handed out in a pooled render
      pass that belongs to this buffer. */
  lemma BeginRenderPassCopiesTargets(
    m: Machine, depthStencil: Option<DepthStencilTarget>, colorTargets: seq<ColorTarget>, nativePass: Ptr)
    requires !m.debug || !m.buffer.submitted
    requires |colorTargets| > 0
    ensures var s := BeginRenderPass(m, depthStencil, colorTargets, nativePass);
            && |s.after.log| > |m.log|
            && s.after.log[..|m.log|] == m.log
            && s.after.log[|m.log|] == BeginRenderPassCall(m.buffer.handle, MarshalColorTargets(colorTargets), depthStencil)
            && var sent := s.after.log[|m.log|].colorTargets;
            && |sent| == |colorTargets|
            && (forall i :: 0 <= i < |sent| ==> sent[i] == MarshalColorTarget(colorTargets[i]))
            && s.after.log[|m.log|].depthStencil == depthStencil
            && s.after.buffer == m.buffer
            && (nativePass == Null ==> s.result == Throw(NativeFunctionFailed))
            && (nativePass != Null ==> s.result == Return(RenderPass(nativePass, m.buffer.id)))
  {
  }

  /** A compute pass begun on this buffer carries the native handle and
      names this buffer as its owner. */
  lemma BeginComputePassBindsPass(m: Machine, parameters: ComputePassParameters, nativePass: Ptr)
    requires !m.debug || !m.buffer.submitted
    requires nativePass != Null
    ensures var s := BeginComputePass(m, parameters, nativePass);
            && s.result.Return?
            && s.result.value.handle == nativePass
            && s.result.value.commandBuffer == Some(m.buffer.id)
            && s.result.value.device == m.buffer.device
  {
  }

  // ---------------------------------------------------------------- swapchain

  /** The swapchain texture is returned exactly when the platform succeeded
      with a non-null image; it is the window's texture object with only
      its handle, width and height replaced. */
  lemma SwapchainTextureUpdated(m: Machine, window: Window, acquired: SwapchainAcquisition)
    requires !m.debug || !m.buffer.submitted
    requires window.swapchainTexture.Some?
    ensures var s := TryGetSwapchainTexture(m, window, acquired);
            && s.result.Return?
            && (s.result.value.Some? <==> acquired.ok && acquired.texture != Null)
            && (s.result.value.Some? ==>
                  var t := s.result.value.value;
                  && t.handle == acquired.texture
                  && t.handle != Null
                  && ToUInt32(t.width) == acquired.width
                  && ToUInt32(t.height) == acquired.height
                  && t.(handle := window.swapchainTexture.value.handle,
                        width := window.swapchainTexture.value.width,
                        height := window.swapchainTexture.value.height) == window.swapchainTexture.value)
            && Submits(s.after.log) == Submits(m.log)
  {
    var s := TryGetSwapchainTexture(m, window, acquired);
    var asked := [WaitAndAcquireSwapchainTexture(m.buffer.handle, window.id)];
    SubmitsAppend(m.log, asked);
    SubmitsAppend(m.log + asked, [NativeFailureLogged]);
  }

  // ---------------------------------------------------------------- whole-lifetime

  /** Any call a user (or the device) can make on the buffer, with the native
      results it receives. */
  datatype Op =
    | Bind(handle: Ptr)
    | SubmitOp(nativeOk: bool)
    | CancelOp(nativeOk: bool)
    | AcquireSwapchain(window: Window, acquired: SwapchainAcquisition)
    | BeginRender(depthStencil: Option<DepthStencilTarget>, colorTargets: seq<ColorTarget>, nativePass: Ptr)
    | BeginCopy(nativePass: Ptr)
    | BeginCompute(parameters: ComputePassParameters, nativePass: Ptr)
    | Push(stage: UniformStage, data: seq<byte>, slot: int32)
    | Blit(info: BlitInfo)
    | EndRender(pass: RenderPass)

  function Apply(m: Machine, op: Op): Machine
  {
    match op
    case Bind(h) => Set(m, h)
    case SubmitOp(ok) => Submit(m, ok).after
    case CancelOp(ok) => Cancel(m, ok).after
    case AcquireSwapchain(w, a) => TryGetSwapchainTexture(m, w, a).after
    case BeginRender(d, c, p) => BeginRenderPass(m, d, c, p).after
    case BeginCopy(p) => BeginCopyPass(m, p).after
    case BeginCompute(ps, p) => BeginComputePass(m, ps, p).after
    case Push(st, d, sl) => PushUniformData(m, st, d, sl).after
    case Blit(i) => BlitTexture(m, i).after
    case EndRender(p) => EndRenderPass(m, p).after
  }

  function Run(m: Machine, ops: seq<Op>): Machine
    decreases |ops|
  {
    if ops == [] then m else Run(Apply(m, ops[0]), ops[1..])
  }

  /** Number of bindings of a non-null handle in a script. */
  function Binds(ops: seq<Op>): nat
  {
    if ops == [] then 0
    else (if ops[0].Bind? && ops[0].handle != Null then 1 else 0) + Binds(ops[1..])
  }

  /** 1 while a handle is bound and not yet submitted or cancelled. */
  function Pending(m: Machine): nat
  {
    if m.buffer.handle != Null then 1 else 0
  }

  /** Acquiring a swapchain image neither touches the buffer nor submits. */
  lemma SwapchainKeepsBuffer(m: Machine, w: Window, a: SwapchainAcquisition)
    ensures var s := TryGetSwapchainTexture(m, w, a);
            s.after.buffer == m.buffer && Submits(s.after.log) == Submits(m.log)
  {
    if ThrowIfSubmitted(m).Return? {
      var asked := Emit(m, [WaitAndAcquireSwapchainTexture(m.buffer.handle, w.id)]);
      EmitQuiet(m, [WaitAndAcquireSwapchainTexture(m.buffer.handle, w.id)]);
      EmitQuiet(asked, [NativeFailureLogged]);
    }
  }

  /** Beginning a render pass neither touches the buffer nor submits. */
  lemma BeginRenderKeepsBuffer(m: Machine, d: Option<DepthStencilTarget>, c: seq<ColorTarget>, p: Ptr)
    ensures var s := BeginRenderPass(m, d, c, p);
            s.after.buffer == m.buffer && Submits(s.after.log) == Submits(m.log)
  {
    if ThrowIfSubmitted(m).Return? && |c| > 0 {
      var call := [BeginRenderPassCall(m.buffer.handle, MarshalColorTargets(c), d)];
      EmitQuiet(m, call);
      EmitQuiet(Emit(m, call), [NativeFailureLogged]);
      EmitQuiet(Emit(m, call), [RenderPassCheckedOut]);
    }
  }

  /** Beginning a compute pass neither touches the buffer nor submits. */
  lemma BeginComputeKeepsBuffer(m: Machine, ps: ComputePassParameters, p: Ptr)
    ensures var s := BeginComputePass(m, ps, p);
            s.after.buffer == m.buffer && Submits(s.after.log) == Submits(m.log)
  {
    if ThrowIfSubmitted(m).Return? {
      var call := [BeginComputePassCall(m.buffer.handle, MarshalTextureBindings(ps.textureWriteBindings),
                                        ps.dataBufferWriteBindings)];
      EmitQuiet(m, call);
      EmitQuiet(Emit(m, call), [NativeFailureLogged]);
      EmitQuiet(Emit(m, call), [ComputePassCheckedOut]);
    }
  }

  /** Every call other than binding, submitting and cancelling leaves the
      buffer's handle and flag alone and makes no native submit. */
  lemma {:induction false} RecordingKeepsBuffer(m: Machine, op: Op)
    requires !op.Bind? && !op.SubmitOp? && !op.CancelOp?
    ensures Apply(m, op).buffer == m.buffer
    ensures Submits(Apply(m, op).log) == Submits(m.log)
  {
    match op
    case AcquireSwapchain(w, a) => SwapchainKeepsBuffer(m, w, a);
    case BeginRender(d, c, p) => BeginRenderKeepsBuffer(m, d, c, p);
    case BeginCopy(p) =>
      if ThrowIfSubmitted(m).Return? { EmitQuiet(m, [BeginCopyPassCall(m.buffer.handle)]); }
    case BeginCompute(ps, p) => BeginComputeKeepsBuffer(m, ps, p);
    case Push(st, d, sl) => EmitQuiet(m, [PushUniform(st, m.buffer.handle, ToUInt32(sl), d)]);
    case Blit(i) => EmitQuiet(m, [BlitTextureCall(m.buffer.handle, MarshalBlit(i))]);
    case EndRender(p) =>
      if ThrowIfSubmitted(m).Return? { EmitQuiet(m, [RenderPassReturned(p)]); }
  }

  /** One step keeps `Valid`, and every native submit it makes is paid for
      by a bound handle. */
  lemma {:induction false} ApplyKeepsSubmitBudget(m: Machine, op: Op)
    requires Valid(m)
    ensures var r := Apply(m, op);
            && Valid(r)
            && Submits(r.log) + Pending(r)
               <= Submits(m.log) + Pending(m) + (if op.Bind? && op.handle != Null then 1 else 0)
  {
    match op
    case Bind(h) =>
    case SubmitOp(ok) =>
      SubmitIssuesAtMostOneNativeSubmit(m, ok);
    case CancelOp(ok) =>
      if ok { CancelSuccessNeverSubmits(m); }
      else {
        CancelFailureKeepsBuffer(m);
        EmitQuiet(m, [CancelCommandBuffer(m.buffer.handle)]);
      }
    case AcquireSwapchain(_, _) => RecordingKeepsBuffer(m, op);
    case BeginRender(_, _, _) => RecordingKeepsBuffer(m, op);
    case BeginCopy(_) => RecordingKeepsBuffer(m, op);
    case BeginCompute(_, _) => RecordingKeepsBuffer(m, op);
    case Push(_, _, _) => RecordingKeepsBuffer(m, op);
    case Blit(_) => RecordingKeepsBuffer(m, op);
    case EndRender(_) => RecordingKeepsBuffer(m, op);
  }

  /** Submit at most once per bound handle: over any sequence of calls, the
      native submits made never exceed the handles bound (plus one for a
      handle bound at the start), and `SubmitCore`'s "already submitted"
      branch is never reached, so it never throws. */
  lemma {:induction false} RunSubmitsAtMostOncePerBinding(m: Machine, ops: seq<Op>)
    requires Valid(m)
    ensures Valid(Run(m, ops))
    ensures Submits(Run(m, ops).log) <= Submits(m.log) + Pending(m) + Binds(ops)
    ensures forall ok :: SubmitCore(Run(m, ops), ok).result.Return?
    decreases |ops|
  {
    if ops != [] {
      ApplyKeepsSubmitBudget(m, ops[0]);
      RunSubmitsAtMostOncePerBinding(Apply(m, ops[0]), ops[1..]);
    }
  }
}
