/** GpuComputePass: a pooled wrapper around a native compute-pass handle,
    opened by a command buffer and closed through the device. */
module GpuComputePasses {
  import opened Native

  /** `commandBuffer` names the owning command buffer by its identity;
      `None` is the constructor's `null!`. */
  datatype ComputePass = ComputePass(device: nat, handle: Ptr, commandBuffer: Option<nat>)

  /** Native calls and pool traffic caused by a compute pass. */
  datatype Effect =
    | BindComputePipeline(pass: Ptr, shader: Ptr)
    | DispatchCompute(pass: Ptr, groupsX: uint32, groupsY: uint32, groupsZ: uint32)
    | DeviceEndComputePass(device: nat, pass: Ptr)
    | ReturnedToPool

  datatype Step = Step(pass: ComputePass, effects: seq<Effect>)

  /** A pass straight from the pool's factory: bound to its device only. */
  function New(device: nat): (p: ComputePass)
    ensures p.device == device && p.handle == Null && p.commandBuffer == None
  {
    ComputePass(device, Null, None)
  }

  /** `BindShader` forwards to the native pass; the wrapper records nothing. */
  function BindShader(p: ComputePass, shader: Ptr): (s: Step)
    ensures s.pass == p
    ensures s.effects == [BindComputePipeline(p.handle, shader)]
  {
    Step(p, [BindComputePipeline(p.handle, shader)])
  }

  /** `Dispatch` forwards the group counts, cast to `uint`, with no check that
      a shader was bound. */
  function Dispatch(p: ComputePass, x: int32, y: int32, z: int32): (s: Step)
    ensures s.pass == p
    ensures |s.effects| == 1 && s.effects[0].DispatchCompute? && s.effects[0].pass == p.handle
    ensures s.effects[0].groupsX as int == (if 0 <= x then x as int else x as int + TwoTo32)
    ensures s.effects[0].groupsY as int == (if 0 <= y then y as int else y as int + TwoTo32)
    ensures s.effects[0].groupsZ as int == (if 0 <= z then z as int else z as int + TwoTo32)
  {
    Step(p, [DispatchCompute(p.handle, ToUInt32(x), ToUInt32(y), ToUInt32(z))])
  }

  /** The `uint` cast loses nothing: reading the dispatched group counts
      back as `int` gives the caller's counts, negative ones included. */
  lemma DispatchCountsRoundTrip(p: ComputePass, x: int32, y: int32, z: int32)
    ensures var e := Dispatch(p, x, y, z).effects[0];
            ToInt32(e.groupsX) == x && ToInt32(e.groupsY) == y && ToInt32(e.groupsZ) == z
  {
    CastRoundTrip(x);
    CastRoundTrip(y);
    CastRoundTrip(z);
  }

  /** The pool's reset hook: asks the device to end the pass once more. */
  function Reset(p: ComputePass): (s: Step)
    ensures s.pass == p && EndCalls(s.effects) == 1
  {
    Step(p, [DeviceEndComputePass(p.device, p.handle)])
  }

  /** `End`: the device ends the pass, then the pass goes back to the pool,
      whose return runs `Reset`. */
  function End(p: ComputePass): (s: Step)
    ensures s.pass == p
    ensures |s.effects| == 3 && s.effects[2] == ReturnedToPool
    ensures forall i :: 0 <= i < |s.effects| - 1 ==> s.effects[i] == DeviceEndComputePass(p.device, p.handle)
  {
    var r := Reset(p);
    Step(r.pass, [DeviceEndComputePass(p.device, p.handle)] + r.effects + [ReturnedToPool])
  }

  /** Number of device end-compute-pass calls in an effect log. */
  function EndCalls(effects: seq<Effect>): nat
  {
    if effects == [] then 0
    else (if effects[0].DeviceEndComputePass? then 1 else 0) + EndCalls(effects[1..])
  }

  lemma {:induction false} EndCallsAppend(a: seq<Effect>, b: seq<Effect>)
    ensures EndCalls(a + b) == EndCalls(a) + EndCalls(b)
  {
    if a == [] {
      assert a + b == b;
    } else {
      assert (a + b)[1..] == a[1..] + b;
      EndCallsAppend(a[1..], b);
    }
  }

  /** `End` followed by the pool return makes two device end calls, both for
      this pass on its own device, and the pass is returned last. */
  lemma EndEndsTwiceThenReturns(p: ComputePass)
    ensures EndCalls(End(p).effects) == 2
    ensures End(p).effects[0] == DeviceEndComputePass(p.device, p.handle)
    ensures End(p).effects[1] == DeviceEndComputePass(p.device, p.handle)
    ensures End(p).effects[|End(p).effects| - 1] == ReturnedToPool
  {
    var e := End(p).effects;
    assert e == [DeviceEndComputePass(p.device, p.handle)] + [DeviceEndComputePass(p.device, p.handle)] + [ReturnedToPool];
    EndCallsAppend([DeviceEndComputePass(p.device, p.handle)] + [DeviceEndComputePass(p.device, p.handle)], [ReturnedToPool]);
    EndCallsAppend([DeviceEndComputePass(p.device, p.handle)], [DeviceEndComputePass(p.device, p.handle)]);
  }

  /** The operations a caller can issue on a pass. */
  datatype Op = Bind(shader: Ptr) | DispatchOp(x: int32, y: int32, z: int32) | EndOp

  function Apply(p: ComputePass, op: Op): Step
  {
    match op
    case Bind(shader) => BindShader(p, shader)
    case DispatchOp(x, y, z) => Dispatch(p, x, y, z)
    case EndOp => End(p)
  }

  /** Run a script of operations, concatenating their effects. */
  function Run(p: ComputePass, ops: seq<Op>): (s: Step)
    decreases |ops|
  {
    if ops == [] then Step(p, [])
    else
      var first := Apply(p, ops[0]);
      var rest := Run(first.pass, ops[1..]);
      Step(rest.pass, first.effects + rest.effects)
  }

  /** Number of `EndOp`s in a script. */
  function Ends(ops: seq<Op>): nat
  {
    if ops == [] then 0 else (if ops[0].EndOp? then 1 else 0) + Ends(ops[1..])
  }

  /** The wrapper never changes its own fields: whatever is bound and
      dispatched, the device, handle and owning command buffer stay as they
      were, and every `End` costs exactly two device end calls. No dispatch is
      ever refused, bound shader or not. */
  lemma {:induction false} RunKeepsPassAndCountsEnds(p: ComputePass, ops: seq<Op>)
    ensures Run(p, ops).pass == p
    ensures EndCalls(Run(p, ops).effects) == 2 * Ends(ops)
    decreases |ops|
  {
    if ops != [] {
      var first := Apply(p, ops[0]);
      RunKeepsPassAndCountsEnds(first.pass, ops[1..]);
      EndCallsAppend(first.effects, Run(first.pass, ops[1..]).effects);
      match ops[0]
      case Bind(shader) =>
        assert EndCalls(first.effects) == 0;
      case DispatchOp(x, y, z) =>
        assert EndCalls(first.effects) == 0;
      case EndOp =>
        EndEndsTwiceThenReturns(p);
    }
  }

  /** A fresh pass that was never given a shader still forwards a dispatch to
      the native layer: there is no pipeline-bound guard. */
  lemma DispatchWithoutBindIsForwarded(device: nat, x: int32, y: int32, z: int32)
    ensures Dispatch(New(device), x, y, z).effects
            == [DispatchCompute(Null, ToUInt32(x), ToUInt32(y), ToUInt32(z))]
  {
  }
}
