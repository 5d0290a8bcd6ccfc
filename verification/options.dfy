/** BaseOptions and the two shader option classes built on it, plus the
    graphics pipeline blend state. Options objects borrow or own an arena
    allocator for temporary native strings; `Reset` restores the per-class
    defaults and clears that arena, and disposing releases the allocator
    only when the options object created it. */
module Options {
  import opened Native
  import Text
  import Arenas

  /** Capacity of the arena an options object creates for itself. */
  const DefaultArenaCapacity: nat := 1024

  datatype GraphicsShaderStage = Vertex | Fragment

  /** The properties each concrete options class adds. */
  datatype Fields =
    | GraphicsShader(
        stage: GraphicsShaderStage,
        samplerCount: int32,
        uniformBufferCount: int32,
        storageBufferCount: int32,
        storageTextureCount: int32)
    | ComputeShader(
        samplerCount: int32,
        readOnlyStorageTextureCount: int32,
        readOnlyStorageBuffersCount: int32,
        readWriteStorageTextureCount: int32,
        readWriteStorageBufferCount: int32,
        uniformBufferCount: int32,
        threadXCount: int32,
        threadYCount: int32,
        threadZCount: int32)

  datatype Options = Options(
    allocator: Arenas.Arena,
    ownsAllocator: bool,
    isDisposed: bool,
    fields: Fields)

  /** The class's `OnReset`: every count zero; a graphics shader defaults to
      the fragment stage. */
  function OnReset(f: Fields): (r: Fields)
    ensures r.GraphicsShader? == f.GraphicsShader?
    ensures r.GraphicsShader? ==> r.stage == Fragment && r.storageBufferCount == 0 && r.storageTextureCount == 0
    ensures r.samplerCount == 0 && r.uniformBufferCount == 0
    ensures r.ComputeShader? ==>
              && r.readOnlyStorageTextureCount == 0 && r.readOnlyStorageBuffersCount == 0
              && r.readWriteStorageTextureCount == 0 && r.readWriteStorageBufferCount == 0
              && r.threadXCount == 0 && r.threadYCount == 0 && r.threadZCount == 0
  {
    match f
    case GraphicsShader(_, _, _, _, _) => GraphicsShader(Fragment, 0, 0, 0, 0)
    case ComputeShader(_, _, _, _, _, _, _, _, _) => ComputeShader(0, 0, 0, 0, 0, 0, 0, 0, 0)
  }

  /** The defaults do not depend on what was set before, only on the class. */
  lemma OnResetForgetsEverything(f: Fields, g: Fields)
    requires f.GraphicsShader? == g.GraphicsShader?
    ensures OnReset(f) == OnReset(g)
    ensures OnReset(OnReset(f)) == OnReset(f)
    ensures OnReset(f).ComputeShader? ==> OnReset(f) == ComputeShader(0, 0, 0, 0, 0, 0, 0, 0, 0)
  {
  }

  /** `Reset`: refused once disposed; otherwise run `OnReset` and clear the
      arena. */
  function Reset(o: Options): (r: Result<Options>)
    ensures o.isDisposed <==> r == Throw(ObjectDisposed)
    ensures r.Return? ==> r.value.allocator.live == []
    ensures r.Return? ==> r.value.allocator.(live := o.allocator.live) == o.allocator
    ensures r.Return? ==> r.value.fields == OnReset(o.fields)
    ensures r.Return? ==> r.value.(fields := o.fields, allocator := o.allocator) == o
  {
    if o.isDisposed then Throw(ObjectDisposed)
    else Return(o.(fields := OnReset(o.fields), allocator := Arenas.Reset(o.allocator)))
  }

  /** The constructor: with no allocator supplied, create and own a 1 KB
      arena (`freshId` names it); otherwise borrow the supplied one. Then
      `Reset`, which cannot throw on a new object. */
  function New(supplied: Option<Arenas.Arena>, freshId: nat, initial: Fields): (o: Options)
    ensures !o.isDisposed && o.fields == OnReset(initial)
  {
    var allocator := if supplied.None? then Arenas.New(freshId, DefaultArenaCapacity) else supplied.value;
    var r := Reset(Options(allocator, supplied.None?, false, initial));
    r.value
  }

  /** A new options object is reset and usable, owns its allocator exactly
      when none was supplied, and an owned allocator is a fresh 1 KB arena. */
  lemma NewOwnsOnlyCreatedAllocator(supplied: Option<Arenas.Arena>, freshId: nat, initial: Fields)
    ensures var o := New(supplied, freshId, initial);
            && !o.isDisposed
            && o.fields == OnReset(initial)
            && o.allocator.live == []
            && (o.ownsAllocator <==> supplied.None?)
            && (supplied.None? ==> o.allocator == Arenas.Arena(freshId, DefaultArenaCapacity, [], false))
            && (supplied.Some? ==> o.allocator == Arenas.Reset(supplied.value))
  {
  }

  /** `Reset` on a live object is idempotent and keeps allocator ownership. */
  lemma ResetIdempotent(o: Options)
    requires !o.isDisposed
    ensures Reset(o).Return?
    ensures Reset(Reset(o).value) == Reset(o)
    ensures Reset(o).value.ownsAllocator == o.ownsAllocator
    ensures Reset(o).value.allocator.id == o.allocator.id
  {
  }

  /** `Dispose(bool)`: clear the arena, dispose it only when owned, forget
      ownership. The object is marked disposed by its base class. */
  function Dispose(o: Options): (r: Options)
    ensures !r.ownsAllocator && r.isDisposed && r.fields == o.fields
    ensures r.allocator.live == [] && r.allocator.id == o.allocator.id
  {
    var cleared := Arenas.Reset(o.allocator);
    var allocator := if o.ownsAllocator then Arenas.Dispose(cleared) else cleared;
    o.(allocator := allocator, ownsAllocator := false, isDisposed := true)
  }

  /** Disposing releases the arena exactly when the object owns it: a
      borrowed allocator survives, however many times the options are
      disposed, and any later `Reset` throws. */
  lemma DisposeReleasesOnlyOwnedAllocator(o: Options)
    ensures Dispose(o).allocator.isDisposed <==> o.ownsAllocator || o.allocator.isDisposed
    ensures Dispose(Dispose(o)).allocator.isDisposed == Dispose(o).allocator.isDisposed
    ensures Reset(Dispose(o)) == Throw(ObjectDisposed)
  {
  }

  /** A borrowed allocator comes back from the options' whole lifetime
      undisposed; an owned one is disposed. */
  lemma LifetimeKeepsBorrowedAllocator(supplied: Option<Arenas.Arena>, freshId: nat, initial: Fields)
    requires supplied.Some? ==> !supplied.value.isDisposed
    ensures Dispose(New(supplied, freshId, initial)).allocator.isDisposed <==> supplied.None?
  {
  }

  // ---------------------------------------------------------------- shader options

  /** Stage auto-detection from a shader file name: `.vert.` anywhere
      (ignoring case) means vertex, else `.frag.` means fragment, else no
      stage. */
  function StageFromFileName(fileName: string): (r: Option<GraphicsShaderStage>)
    ensures r == Some(Vertex) <==> Text.ContainsIgnoreCase(fileName, ".vert.")
    ensures r == Some(Fragment) <==>
              !Text.ContainsIgnoreCase(fileName, ".vert.") && Text.ContainsIgnoreCase(fileName, ".frag.")
  {
    if Text.ContainsIgnoreCase(fileName, ".vert.") then Some(Vertex)
    else if Text.ContainsIgnoreCase(fileName, ".frag.") then Some(Fragment)
    else None
  }

  /** Detection does not depend on letter case. */
  lemma StageDetectionIgnoresCase(fileName: string)
    ensures StageFromFileName(Text.LowerString(fileName)) == StageFromFileName(fileName)
  {
    Text.ContainsIgnoresCase(fileName, ".vert.");
    Text.ContainsIgnoresCase(fileName, ".frag.");
  }

  /** The graphics `TrySetFromFile`: the base class's result is a parameter
      (its own state is not modelled). On success the stage comes from the
      file name, never from the directory, and the counts are kept. */
  function TrySetGraphicsFromFile(o: Options, baseOk: bool, filePath: string): (r: (bool, Options))
    requires o.fields.GraphicsShader?
    ensures r.0 <==> baseOk && StageFromFileName(Text.FileName(filePath)).Some?
    ensures r.1.fields.GraphicsShader?
    ensures r.1 == o.(fields := r.1.fields)
    ensures r.1.fields.(stage := o.fields.stage) == o.fields
    ensures r.0 ==> Some(r.1.fields.stage) == StageFromFileName(Text.FileName(filePath))
  {
    if !baseOk then (false, o)
    else
      var stage := StageFromFileName(Text.FileName(filePath));
      if stage.None? then (false, o)
      else (true, o.(fields := o.fields.(stage := stage.value)))
  }

  /** Directory names play no part: a shader in a directory called
      `x.vert.y` is detected from its own name. */
  lemma StageComesFromFileNameOnly(o: Options, directory: string, name: string)
    requires o.fields.GraphicsShader?
    requires forall k :: 0 <= k < |name| ==> name[k] != Text.Separator
    ensures TrySetGraphicsFromFile(o, true, directory + [Text.Separator] + name)
            == TrySetGraphicsFromFile(o, true, name)
  {
    Text.FileNameOfJoin(directory, name);
    Text.FileNameOfName(name);
  }

  /** The compute `TrySetFromFile` adds nothing to the base class: it
      succeeds exactly when the base does and leaves the counts alone. */
  function TrySetComputeFromFile(o: Options, baseOk: bool): (r: (bool, Options))
    requires o.fields.ComputeShader?
    ensures r.0 == baseOk && r.1 == o
  {
    (baseOk, o)
  }

  // ---------------------------------------------------------------- blend state

  /** A blend factor: `Invalid` is the enum's zero, any other is named by
      its native code. */
  datatype BlendFactor = InvalidFactor | Factor(code: nat)

  /** A blend operation: `Invalid` is the enum's zero. */
  datatype BlendOp = InvalidOp | Op(code: nat)

  datatype BlendState = BlendState(
    sourceColorBlendFactor: BlendFactor,
    destinationColorBlendFactor: BlendFactor,
    colorBlendOp: BlendOp,
    sourceAlphaBlendFactor: BlendFactor,
    destinationAlphaBlendFactor: BlendFactor,
    alphaBlendOp: BlendOp,
    colorWriteMask: nat,
    isEnabledBlend: bool,
    isEnabledColorWriteMask: bool)

  /** `GraphicsPipelineBlendState.Reset`. */
  function ResetBlendState(b: BlendState): (r: BlendState)
    ensures !r.isEnabledBlend && !r.isEnabledColorWriteMask && r.colorWriteMask == 0
    ensures r.sourceColorBlendFactor == InvalidFactor && r.destinationColorBlendFactor == InvalidFactor
    ensures r.sourceAlphaBlendFactor == InvalidFactor && r.destinationAlphaBlendFactor == InvalidFactor
    ensures r.colorBlendOp == InvalidOp && r.alphaBlendOp == InvalidOp
  {
    BlendState(InvalidFactor, InvalidFactor, InvalidOp, InvalidFactor, InvalidFactor, InvalidOp, 0, false, false)
  }

  /** Every field is reset: two states, however different, reset to the
      same state, and resetting again changes nothing. */
  lemma ResetBlendStateForgetsEverything(a: BlendState, b: BlendState)
    ensures ResetBlendState(a) == ResetBlendState(b)
    ensures ResetBlendState(ResetBlendState(a)) == ResetBlendState(a)
  {
  }
}
