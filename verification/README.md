# SDL3-cs core, modelled in Dafny

This project models the sequential core of the SDL3-cs C# bindings and of the sample programs built on them:

- **GPU wrappers.** The command-buffer lifecycle (`GpuCommandBuffer`) covers bind, submit, cancel, the pool-return reset, the DEBUG-only submitted guard (which that reset leaves unreachable, see Findings), the three begin-pass operations and the swapchain acquisition. Compute passes (`GpuComputePass`) and texture bookkeeping (`GpuTexture`) are also modelled.
- **Options objects.** The model covers the allocator ownership of `BaseOptions`, the resets of the graphics/compute shader options and the blend state, and shader-stage detection from a file name.
- **The disk loaders of `FileSystem`.** Each loader resets the path arena around every native call, validates its arguments before any load, and frees or disposes what it loaded on every exit path.
- **The `Application` base class.** This part covers:
  - the total scancode, mouse-code and platform-name mappings;
  - the exiting/background flag machine;
  - the main loop and the FPS accumulator;
  - the once-only `Initialize` singleton.
- **The MinecraftClone ECS `World` and `System`.** This part covers bounded entity creation, idempotent component registration, system registration (deduplicated, sorted ids, dispatch by kind), the per-entity update/draw sweep and the stop order on dispose.
- **The example state machines.** These are the example host (`App`, `ExampleBase`), three GPU examples (cull mode, textured quad, 3D-slice clear) and three LazyFoo examples (colour modulation, alpha blending, animated sprite).

Every wrapper object is an immutable datatype. Every operation is a pure function that returns the new state together with the effects it caused, in order: native calls, pool traffic and callbacks. This way, claims such as "exactly one native submit" or "the file is disposed on every path" are ordinary postconditions about a log.

Native SDL, SDL_image and SDL_ttf calls are not modelled as code. Their results (a success flag or a returned handle) are parameters of the operation that makes the call. The C# `DEBUG` build symbol is a `debug: bool` field. `TimeSpan` values are integer ticks of 100 ns. The C# `int`/`uint`/`byte` fields are `int32`/`uint32`/`byte` newtypes. The unchecked casts between them are written out as explicit wrap-arounds (`Native.ToUInt32`, `Native.ToInt32`, `Native.TruncateToInt32`, `LazyFoo.WrapByte`).

Module layout:

- `native.dfy`: handles and the integer types.
- `input.dfy`: button mappings.
- `text.dfy`: case-insensitive search and `Path.GetFileName`.
- `arena.dfy`: the arena allocator interface.
- `options.dfy`: the options objects.
- `file_system.dfy`: the disk loaders.
- `gpu_texture.dfy`, `gpu_compute_pass.dfy`, `gpu_command_buffer.dfy`: the GPU wrappers.
- `gpu_examples.dfy`: the GPU examples.
- `application.dfy`: the `Application` base class.
- `ecs.dfy`: the ECS.
- `example_host.dfy`: the example host.
- `lazyfoo.dfy`: the LazyFoo examples.

## Model

| member | source | states |
|---|---|---|
| Native.ToUInt32 | src/cs/production/SDL/GPU/GpuCommandBuffer.cs:164-171 | An `(uint)` cast of an `int` keeps a non-negative value and adds 2^32 to a negative one. |
| Native.ToInt32 | src/cs/production/SDL/GPU/GpuCommandBuffer.cs:109-110 | An `(int)` cast of a `uint` is undone by the `(uint)` cast, and values below 2^31 keep their value. |
| Native.TruncateToInt32 | src/cs/production/SDL/Disk/FileSystem.cs:65 | The `(int)` cast of a native size is exact below 2^31 and otherwise agrees with it modulo 2^32. |
| Native.CastRoundTrip | src/cs/production/SDL/GPU/GpuCommandBuffer.cs:164-171 | Casting an `int` to `uint` and back gives the original value, for negative values too. |
| Input.ScancodeMapRoundTrips | src/cs/production/SDL/Application.cs:368-411 | The scancode-to-button mapping is a bijection between the arrow, letter and digit scancodes and their buttons; every other scancode maps to `Unknown`. |
| Input.MouseMapRoundTrips | src/cs/production/SDL/Application.cs:317-337 | Left, middle, right, X1 and X2 codes map to their buttons and back; every other code maps to `Unknown`. |
| Text.ContainsIgnoreCase | src/cs/production/SDL/GPU/GpuGraphicsShaderOptions.cs:93-101 | The result is true exactly when the pattern occurs at some position of the text, comparing letters case-insensitively. |
| Text.ContainsIgnoresCase | src/cs/production/SDL/GPU/GpuGraphicsShaderOptions.cs:93-101 | Lower-casing the searched text never changes whether a pattern is found. |
| Text.FileName | src/cs/production/SDL/GPU/GpuGraphicsShaderOptions.cs:66 | The file name is the longest separator-free suffix of the path, preceded in the path by a separator unless it is the whole path. |
| Text.FileNameOfJoin | src/cs/production/SDL/GPU/GpuGraphicsShaderOptions.cs:66 | Taking the file name of `directory + separator + name` gives back `name`. |
| Options.OnReset | src/cs/production/SDL/GPU/GpuGraphicsShaderOptions.cs:79-88 | Reset options keep their variant; graphics options get stage `Fragment` and all four counts at 0, compute options all nine counts at 0. |
| Options.OnResetForgetsEverything | src/cs/production/SDL/GPU/GpuComputeShaderOptions.cs:90-103 | The reset result does not depend on the previous field values and is idempotent; compute options have all nine counts at 0. |
| Options.Reset | src/cs/production/SDL/BaseOptions.cs:48-53 | Reset throws `ObjectDisposedException` exactly when disposed. Otherwise it resets the fields to their defaults, empties the same allocator and changes nothing else: ownership and the disposed flag are kept. |
| Options.ResetIdempotent | src/cs/production/SDL/BaseOptions.cs:48-53 | Resetting twice equals resetting once, and ownership and allocator identity are kept. |
| Options.NewOwnsOnlyCreatedAllocator | src/cs/production/SDL/BaseOptions.cs:29-43 | Without a supplied allocator the options create and own a fresh 1024-byte arena; with one they use it (reset) and own nothing; construction ends reset. |
| Options.Dispose | src/cs/production/SDL/BaseOptions.cs:61-67 | Dispose marks the object disposed, empties the allocator and drops ownership while keeping the fields. |
| Options.DisposeReleasesOnlyOwnedAllocator | src/cs/production/SDL/BaseOptions.cs:61-67 | Dispose disposes the allocator exactly when it was owned (or already disposed); a later reset throws. |
| Options.LifetimeKeepsBorrowedAllocator | src/cs/production/SDL/BaseOptions.cs:29-67 | Over a construct/dispose lifetime the allocator ends disposed exactly when the options created it. |
| Options.StageFromFileName | src/cs/production/SDL/GPU/GpuGraphicsShaderOptions.cs:90-104 | ".vert." anywhere (any case) yields `Vertex`; otherwise ".frag." yields `Fragment`; otherwise no stage. |
| Options.StageDetectionIgnoresCase | src/cs/production/SDL/GPU/GpuGraphicsShaderOptions.cs:90-104 | Lower-casing the file name never changes the detected stage. |
| Options.TrySetGraphicsFromFile | src/cs/production/SDL/GPU/GpuGraphicsShaderOptions.cs:59-76 | The result is true iff the base load succeeded and a stage was detected from the file name; only the stage changes, and only on success. |
| Options.StageComesFromFileNameOnly | src/cs/production/SDL/GPU/GpuGraphicsShaderOptions.cs:59-76 | The directory part of the path never influences stage detection. |
| Options.TrySetComputeFromFile | src/cs/production/SDL/GPU/GpuComputeShaderOptions.cs:79-87 | Compute options return exactly the base result and change no field. |
| Options.ResetBlendState | src/cs/production/SDL/GPU/GraphicsPipelineBlendState.cs:63-74 | After a reset all four blend factors and both blend ops are invalid, the write mask is 0 and both enable flags are false. |
| Options.ResetBlendStateForgetsEverything | src/cs/production/SDL/GPU/GraphicsPipelineBlendState.cs:63-74 | The blend-state reset is independent of the prior state and idempotent. |
| DiskFileSystem.FullFilePath | src/cs/production/SDL/Disk/FileSystem.cs:270-279 | Rooted paths come back unchanged; relative ones are joined to the base directory, end with the given path and are rooted when the base directory is. |
| DiskFileSystem.FullFilePathIdempotent | src/cs/production/SDL/Disk/FileSystem.cs:270-279 | With a rooted base directory, resolving an already resolved path changes nothing. |
| DiskFileSystem.RelativePathJoinsWithOneSeparator | src/cs/production/SDL/Disk/FileSystem.cs:270-279 | A plain file name is joined to a base directory without a trailing separator with exactly one separator, and its file name is recovered. |
| DiskFileSystem.RelativePathAfterTrailingSeparator | src/cs/production/SDL/Disk/FileSystem.cs:270-279 | A plain file name after a base directory that ends in a separator (the usual application base directory) is appended with no extra separator, and its file name is recovered. |
| DiskFileSystem.New | src/cs/production/SDL/Disk/FileSystem.cs:20-24 | A new loader has an empty 1024-byte path arena and has made no calls. |
| DiskFileSystem.WithPathInArena | src/cs/production/SDL/Disk/FileSystem.cs:44-48 | At the native call the arena holds exactly the full path, so it was reset before the allocation; it is reset again afterwards and ends empty, with the same capacity. |
| DiskFileSystem.ArenaAtCall | src/cs/production/SDL/Disk/FileSystem.cs:44-48 | The arena seen by the native call holds only the full path and is otherwise the loader's arena. |
| DiskFileSystem.TryLoadFile | src/cs/production/SDL/Disk/FileSystem.cs:40-67 | A file is returned iff native loading gave data and the pool gave a file; it carries the full path and the truncated size; the arena ends empty. |
| DiskFileSystem.TryLoadFileOwnsBuffer | src/cs/production/SDL/Disk/FileSystem.cs:49-66 | Loaded native data is either handed to the returned file or freed; sizes below 2^31 are kept exactly. |
| DiskFileSystem.TryLoadFileFailureTail | src/cs/production/SDL/Disk/FileSystem.cs:49-62 | A failed load only appends to the call log, and no file is taken from the pool. |
| DiskFileSystem.TryLoadImage | src/cs/production/SDL/Disk/FileSystem.cs:90-131 | The loader throws `ArgumentException` exactly for an unknown or undefined desired format, before any load; a returned surface is non-null and the arena ends empty. |
| DiskFileSystem.TryLoadImageLeaksOnFailedConversion | src/cs/production/SDL/Disk/FileSystem.cs:115-123 | As written, a failed conversion returns without destroying the loaded surface (see Findings). |
| DiskFileSystem.TryLoadImageIntendedCases | src/cs/production/SDL/Disk/FileSystem.cs:107-130 | The corrected loader's result and call log are exactly those of an independent case analysis of the native outcomes. |
| DiskFileSystem.TryLoadImageIntendedOwnsSurfaces | src/cs/production/SDL/Disk/FileSystem.cs:107-130 | In the corrected loader every loaded surface is returned or destroyed, and a surface is returned iff loading and, when needed, conversion succeed. |
| DiskFileSystem.TryLoadFont | src/cs/production/SDL/Disk/FileSystem.cs:153-173 | The font is returned iff the native open gave one; the open is called with the full path and point size; the arena ends empty. |
| DiskFileSystem.GraphicsOptions | src/cs/production/SDL/Disk/FileSystem.cs:201-203 | The loader's graphics options own their allocator and have the given sampler and uniform-buffer counts over reset defaults. |
| DiskFileSystem.TryLoadGraphicsShader | src/cs/production/SDL/Disk/FileSystem.cs:188-220 | A returned shader is the one the device created, and the path arena ends empty. |
| DiskFileSystem.GraphicsShaderLoadSucceedsWhen | src/cs/production/SDL/Disk/FileSystem.cs:188-220 | A shader is returned iff the file loads, the base options accept it, a stage is detected and the device creates the shader. |
| DiskFileSystem.GraphicsShaderLoaderCleansUp | src/cs/production/SDL/Disk/FileSystem.cs:195-219 | After a file load the loader always ends by disposing the file and then the options; creation is requested with the detected stage. |
| DiskFileSystem.GraphicsShaderLoaderStopsAtFile | src/cs/production/SDL/Disk/FileSystem.cs:195-199 | If the file load fails, nothing beyond the file load happens and nothing is disposed. |
| DiskFileSystem.ComputeOptions | src/cs/production/SDL/Disk/FileSystem.cs:244 | The loader's compute options own their allocator and hold reset defaults. |
| DiskFileSystem.TryLoadComputeShader | src/cs/production/SDL/Disk/FileSystem.cs:233-261 | A returned shader is the one the device created, and the path arena ends empty. |
| DiskFileSystem.ComputeShaderLoaderCleansUp | src/cs/production/SDL/Disk/FileSystem.cs:233-261 | The result is a shader iff file, base options and creation all succeed; after a file load the file and then the options are disposed. |
| GpuTextures.New | src/cs/production/SDL/GPU/GpuTexture.cs:64-83 | The constructor records handle, device, type, format, size, layers and usages; as written, the mip-level and sample counts stay 0 and the texture is never a swapchain texture. |
| GpuTextures.CreatedCountsAreDroppedAsWritten | src/cs/production/SDL/GPU/GpuTexture.cs:64-83 | A texture created with one mip level and one sample reports 0 for both (see Findings). |
| GpuTextures.NewIntended | src/cs/production/SDL/GPU/GpuTexture.cs:64-83 | The corrected constructor records every argument, including the counts and the swapchain flag. |
| GpuTextures.UpdateTextureSwapchain | src/cs/production/SDL/GPU/GpuTexture.cs:98-107 | Only handle, width and height change; every other property is kept. |
| GpuTextures.Dispose | src/cs/production/SDL/GPU/GpuTexture.cs:86-96 | A swapchain texture is left alone; any other texture gets one release call on its device per `Dispose` and is marked disposed. |
| GpuTextures.SwapchainTextureIsReleasedAsWritten | src/cs/production/SDL/GPU/GpuTexture.cs:86-96 | As written, disposing the swapchain texture releases the driver's current image handle (see Findings). |
| GpuTextures.IntendedSwapchainDisposeSkipsRelease | src/cs/production/SDL/GPU/GpuTexture.cs:86-96 | With the flag recorded, a swapchain texture is never released and the counts survive the update. |
| GpuComputePasses.New | src/cs/production/SDL/GPU/GpuComputePass.cs:26-31 | A new compute pass has a null handle, no command buffer and the given device. |
| GpuComputePasses.BindShader | src/cs/production/SDL/GPU/GpuComputePass.cs:37-40 | Binding forwards exactly one native bind call and changes no wrapper state. |
| GpuComputePasses.Dispatch | src/cs/production/SDL/GPU/GpuComputePass.cs:48-55 | Dispatching forwards exactly one native dispatch on the pass handle; each group count reaches SDL as its `uint` reinterpretation (a negative count plus 2^32), and no wrapper state changes. |
| GpuComputePasses.DispatchCountsRoundTrip | src/cs/production/SDL/GPU/GpuComputePass.cs:48-55 | Reading each dispatched group count back as an `int` gives the caller's count, so the cast loses nothing. |
| GpuComputePasses.DispatchWithoutBindIsForwarded | src/cs/production/SDL/GPU/GpuComputePass.cs:48-55 | Nothing guards against dispatching on a fresh, unbound pass: the call goes out with a null handle. |
| GpuComputePasses.Reset | src/cs/production/SDL/GPU/GpuComputePass.cs:68-71 | The pool-return reset makes one device end-compute-pass call. |
| GpuComputePasses.End | src/cs/production/SDL/GPU/GpuComputePass.cs:61-71 | `End` makes exactly three effects: two device end calls on this pass, then the return to the pool. |
| GpuComputePasses.EndEndsTwiceThenReturns | src/cs/production/SDL/GPU/GpuComputePass.cs:61-71 | `End` makes two device end calls (its own and the reset's) before the pass is back in the pool. |
| GpuComputePasses.RunKeepsPassAndCountsEnds | src/cs/production/SDL/GPU/GpuComputePass.cs:37-71 | Over any sequence of operations the wrapper state is unchanged and there are exactly two device end calls per `End`. |
| GpuCommandBuffers.MarshalColorTargets | src/cs/production/SDL/GPU/GpuCommandBuffer.cs:158-174 | Color targets are copied one-for-one and in order into the native array. |
| GpuCommandBuffers.MarshalColorTargetKeepsEveryField | src/cs/production/SDL/GPU/GpuCommandBuffer.cs:158-174 | Every field of a color target reaches the native struct, and the `uint` mip level and layer read back as the caller's values. |
| GpuCommandBuffers.MarshalTextureBindings | src/cs/production/SDL/GPU/GpuCommandBuffer.cs:226-237 | Storage-texture bindings are copied one-for-one and in order. |
| GpuCommandBuffers.BlitDropsClearColorAndFlipMode | src/cs/production/SDL/GPU/GpuCommandBuffer.cs:379-400 | The blit marshalling ignores the clear colour and the flip mode, which always reach SDL as zero. |
| GpuCommandBuffers.New | src/cs/production/SDL/GPU/GpuCommandBuffer.cs:59-63 | A new buffer has a null handle, is not submitted and has made no calls. |
| GpuCommandBuffers.Set | src/cs/production/SDL/GPU/GpuCommandBuffer.cs:408-412 | Binding installs the handle and clears the submitted flag. |
| GpuCommandBuffers.SubmitCore | src/cs/production/SDL/GPU/GpuCommandBuffer.cs:430-451 | On a null handle nothing happens; otherwise the buffer ends with a null handle, and the submitted/null invariant is kept. |
| GpuCommandBuffers.Reset | src/cs/production/SDL/GPU/GpuCommandBuffer.cs:424-428 | The pool reset submits a handle that is still bound and unsubmitted — the first new log entry is its native submit and the submit count rises by exactly one — while an unbound buffer logs nothing; either way it ends unbound with the flag cleared, keeping every other field and the earlier log. |
| GpuCommandBuffers.ReturnToPool | src/cs/production/SDL/GPU/GpuCommandBuffer.cs:424-428 | Returning to the pool runs the reset and then logs the return of this buffer id, leaving it unbound and unflagged; a still-bound, unsubmitted handle is submitted first, exactly once, and an unbound buffer logs only the return. |
| GpuCommandBuffers.Submit | src/cs/production/SDL/GPU/GpuCommandBuffer.cs:363-367 | A bound, unsubmitted buffer first sends its handle to SDL, and the buffer always ends unbound, unflagged and returned to the pool. |
| GpuCommandBuffers.Cancel | src/cs/production/SDL/GPU/GpuCommandBuffer.cs:347-358 | Cancel always calls SDL on the bound handle; it throws `InvalidOperationException` iff SDL fails, keeping the buffer, and otherwise leaves it unbound and unflagged. |
| GpuCommandBuffers.SubmitCoreSubmitsBoundHandleOnce | src/cs/production/SDL/GPU/GpuCommandBuffer.cs:430-451 | A bound, unsubmitted buffer is submitted exactly once with its handle, flagged and nulled whether or not the native submit succeeds. |
| GpuCommandBuffers.SubmitIssuesAtMostOneNativeSubmit | src/cs/production/SDL/GPU/GpuCommandBuffer.cs:363-367 | `Submit` plus the pool reset makes one native submit iff a handle was bound, and returns the buffer with a clear flag. |
| GpuCommandBuffers.SubmitTwiceSubmitsOnce | src/cs/production/SDL/GPU/GpuCommandBuffer.cs:430-442 | A second submit of the same buffer adds no native submit. |
| GpuCommandBuffers.CancelFailureKeepsBuffer | src/cs/production/SDL/GPU/GpuCommandBuffer.cs:347-358 | A failed cancel throws `InvalidOperationException`, keeps the handle bound and does not return the buffer. |
| GpuCommandBuffers.CancelSuccessNeverSubmits | src/cs/production/SDL/GPU/GpuCommandBuffer.cs:347-358 | A successful cancel nulls the handle before pool return, so no native submit follows. |
| GpuCommandBuffers.GuardThrowsIffSubmittedInDebug | src/cs/production/SDL/GPU/GpuCommandBuffer.cs:414-421 | The submitted guard throws iff the flag is set in a DEBUG build, and never in a release build. |
| GpuCommandBuffers.GuardedOperationsRefuseSubmitted | src/cs/production/SDL/GPU/GpuCommandBuffer.cs:81-406 | On a buffer whose flag is set (a state only seen between `SubmitCore` and the pool reset, for example by another thread), the swapchain query, the three begin-pass operations and `EndRenderPass` throw in DEBUG, with no effect. |
| GpuCommandBuffers.ApplyNeverLeavesFlag | src/cs/production/SDL/GPU/GpuCommandBuffer.cs:347-451 | No single operation, submits and cancels included, leaves an unflagged buffer flagged, because the pool reset clears the flag. |
| GpuCommandBuffers.RunNeverLeavesFlag | src/cs/production/SDL/GPU/GpuCommandBuffer.cs:347-451 | No sequence of operations leaves an unflagged buffer flagged. |
| GpuCommandBuffers.GuardNeverFiresAfterAnyScript | src/cs/production/SDL/GPU/GpuCommandBuffer.cs:414-428 | In every build, the submitted guard passes after any sequence of operations on a new buffer (see Findings). |
| GpuCommandBuffers.StaleCopyPassAfterSubmitAsWritten | src/cs/production/SDL/GPU/GpuCommandBuffer.cs:202-209 | As written, a copy pass begun after `Submit` in a DEBUG build is not refused; it reaches SDL with a null handle (see Findings). |
| GpuCommandBuffers.IntendedSubmitRefusesStaleUse | src/cs/production/SDL/GPU/GpuCommandBuffer.cs:414-428 | With the corrected pool reset, a submitted buffer is submitted once and every guarded operation on it throws `InvalidOperationException` with no effect until it is bound again. |
| GpuCommandBuffers.UnguardedOperationsIgnoreFlag | src/cs/production/SDL/GPU/GpuCommandBuffer.cs:274-400 | Uniform pushes, `Cancel` and `BlitTexture` behave the same whether or not the buffer is flagged submitted. |
| GpuCommandBuffers.BeginCopyPassSkipsNullCheck | src/cs/production/SDL/GPU/GpuCommandBuffer.cs:202-209 | A null native copy pass is still wrapped and returned. |
| GpuCommandBuffers.BeginRenderPassRejectsNoTargets | src/cs/production/SDL/GPU/GpuCommandBuffer.cs:126-135 | An empty colour-target list throws `ArgumentException` before any native call. |
| GpuCommandBuffers.BeginRenderPassCopiesTargets | src/cs/production/SDL/GPU/GpuCommandBuffer.cs:126-187 | One native begin call goes out on this buffer's handle with every color target marshalled in order and the given depth-stencil target; a null pass throws, and otherwise the pass carries the native handle and this buffer. |
| GpuCommandBuffers.TryGetSwapchainTexture | src/cs/production/SDL/GPU/GpuCommandBuffer.cs:81-112 | The query never changes the buffer; the guard throws with no effect; the only other exception is a null-window one; a texture comes back only for a successful, non-null acquisition and carries that handle. |
| GpuCommandBuffers.BeginRenderPass | src/cs/production/SDL/GPU/GpuCommandBuffer.cs:126-187 | A render pass is returned iff the guard passes, there is a color target and SDL gives a non-null pass, and it wraps that pass and this buffer id. |
| GpuCommandBuffers.BeginCopyPass | src/cs/production/SDL/GPU/GpuCommandBuffer.cs:202-209 | A copy pass is returned iff the guard passes, whatever SDL gives, and it wraps that handle and this buffer. |
| GpuCommandBuffers.BeginComputePass | src/cs/production/SDL/GPU/GpuCommandBuffer.cs:222-265 | A compute pass is returned iff the guard passes and SDL gives a non-null pass; the buffer is never changed. |
| GpuCommandBuffers.PushUniformData | src/cs/production/SDL/GPU/GpuCommandBuffer.cs:274-335 | A push always succeeds with one native push of the stage, handle and data, at a slot whose `uint` cast reads back unchanged. |
| GpuCommandBuffers.BlitTexture | src/cs/production/SDL/GPU/GpuCommandBuffer.cs:379-400 | A blit always succeeds with one native blit on this buffer's handle, and the buffer is kept. |
| GpuCommandBuffers.EndRenderPass | src/cs/production/SDL/GPU/GpuCommandBuffer.cs:402-406 | Ending succeeds iff the guard passes, and then only returns the pass to its pool; a refusal changes nothing. |
| GpuCommandBuffers.BeginComputePassBindsPass | src/cs/production/SDL/GPU/GpuCommandBuffer.cs:222-265 | A non-null native compute pass is wrapped with its handle, this buffer and the buffer's device. |
| GpuCommandBuffers.SwapchainTextureUpdated | src/cs/production/SDL/GPU/GpuCommandBuffer.cs:81-112 | A texture is returned iff acquisition succeeded with a non-null image; it is the window's texture with only handle and size updated (size round-trips through the casts). |
| GpuCommandBuffers.SwapchainKeepsBuffer | src/cs/production/SDL/GPU/GpuCommandBuffer.cs:81-112 | The swapchain query never changes the buffer state or submits. |
| GpuCommandBuffers.BeginRenderKeepsBuffer | src/cs/production/SDL/GPU/GpuCommandBuffer.cs:126-187 | Beginning a render pass never changes the buffer state or submits. |
| GpuCommandBuffers.BeginComputeKeepsBuffer | src/cs/production/SDL/GPU/GpuCommandBuffer.cs:222-265 | Beginning a compute pass never changes the buffer state or submits. |
| GpuCommandBuffers.RecordingKeepsBuffer | src/cs/production/SDL/GPU/GpuCommandBuffer.cs:81-406 | Every recording operation leaves the buffer state and the submit count alone. |
| GpuCommandBuffers.ApplyKeepsSubmitBudget | src/cs/production/SDL/GPU/GpuCommandBuffer.cs:347-451 | Submits made plus submits still possible grow only when a non-null handle is bound, and the submitted/null invariant is kept. |
| GpuCommandBuffers.RunSubmitsAtMostOncePerBinding | src/cs/production/SDL/GPU/GpuCommandBuffer.cs:430-451 | Over any operation sequence the native submits are at most one per non-null binding (plus the pending one). |
| GpuExamples.StepIndexCycles | src/cs/examples/Examples.Gpu/Examples/E005_CullMode.cs:161-184 | Left and Right keep the mode index in range and undo each other; other keys leave it. |
| GpuExamples.StepIndex | src/cs/examples/Examples.Gpu/Examples/E005_CullMode.cs:161-184 | Right moves an in-range index to the next mode, wrapping from the last to the first; Left moves it to the previous one, wrapping from the first to the last; other keys leave it. |
| GpuExamples.PressRightIsModular | src/cs/examples/Examples.Gpu/Examples/E005_CullMode.cs:161-184 | Pressing Right `n` times adds `n` to the index modulo the mode count. |
| GpuExamples.LapReturns | src/cs/examples/Examples.Gpu/Examples/E005_CullMode.cs:161-184 | Pressing Right once per mode returns to the starting mode. |
| GpuExamples.PipelineTableMatchesNames | src/cs/examples/Examples.Gpu/Examples/E005_CullMode.cs:12-69 | Pipeline `i` culls with mode `i % 3`; its front face is counter-clockwise exactly for the "CW_" names, the reverse of the names. |
| GpuExamples.CullUploadsPartitionTransfer | src/cs/examples/Examples.Gpu/Examples/E005_CullMode.cs:87-135 | The two 3-vertex uploads cover the 6-vertex transfer buffer exactly and disjointly. |
| GpuExamples.SamplersMatchNames | src/cs/examples/Examples.Gpu/Examples/E008_TexturedQuad.cs:12-170 | Each sampler name spells out its filter family and address mode, which is the same on all three axes and alternates clamp/repeat. |
| GpuExamples.TexturedQuadExit | src/cs/examples/Examples.Gpu/Examples/E008_TexturedQuad.cs:273-288 | Exit resets the sampler index to 0. |
| GpuExamples.SamplerIndexStaysInRange | src/cs/examples/Examples.Gpu/Examples/E008_TexturedQuad.cs:285-313 | Key presses and exit keep the sampler index inside both lookup tables. |
| GpuExamples.QuadUploadsPartitionTransfer | src/cs/examples/Examples.Gpu/Examples/E008_TexturedQuad.cs:183-251 | The vertex and index uploads cover the transfer buffer exactly and disjointly. |
| GpuExamples.TextureByteCountExact | src/cs/examples/Examples.Gpu/Examples/E008_TexturedQuad.cs:219-220 | The `int` transfer size is width·height·4 when that fits in 31 bits, and agrees with it modulo 2^32 otherwise. |
| GpuExamples.QuadrantsTileSwapchain | src/cs/examples/Examples.Gpu/Examples/E010_Clear3DSlice.cs:94-121 | The four blit destinations lie inside the swapchain image, are pairwise disjoint and together cover its even-sized part. |
| GpuExamples.QuadrantBlitSources | src/cs/examples/Examples.Gpu/Examples/E010_Clear3DSlice.cs:94-121 | Blit `i` reads the full 64×64 layer `i` with load op `Load` and nearest filtering into the swapchain. |
| GpuExamples.ClearPassesAt | src/cs/examples/Examples.Gpu/Examples/E010_Clear3DSlice.cs:54-92 | Layer `k` is cleared by its own pass, and each pass ends before the next begins. |
| GpuExamples.Blits | src/cs/examples/Examples.Gpu/Examples/E010_Clear3DSlice.cs:94-121 | The blits follow the passes in layer order, one per layer. |
| GpuExamples.SliceFrame | src/cs/examples/Examples.Gpu/Examples/E010_Clear3DSlice.cs:54-121 | A frame has three operations per layer: layer `k`'s clear pass begins and ends at positions 2k and 2k+1, and the four blits follow in layer order. |
| GpuExamples.ClearPassesLayout | src/cs/examples/Examples.Gpu/Examples/E010_Clear3DSlice.cs:54-92 | In the passes from layer 0, layer `k` begins at position 2k and ends at 2k+1. |
| GpuExamples.RecordingSucceeds | src/cs/examples/Examples.Gpu/Examples/E010_Clear3DSlice.cs:54-121 | Recording passes and blits on an unsubmitted buffer always succeeds and never submits. |
| GpuExamples.SliceFrameIsRecordable | src/cs/examples/Examples.Gpu/Examples/E010_Clear3DSlice.cs:54-121 | Every operation of a frame is recordable when the native passes are non-null. |
| GpuExamples.SliceFrameSubmitsOnce | src/cs/examples/Examples.Gpu/Examples/E010_Clear3DSlice.cs:54-123 | A frame submits its buffer exactly once and returns it to the pool. |
| GpuExamples.SliceFrameCancelsWithoutSwapchain | src/cs/examples/Examples.Gpu/Examples/E010_Clear3DSlice.cs:47-52 | Without a swapchain image the frame cancels its buffer and submits nothing. |
| Applications.Exit | src/cs/production/SDL/Application.cs:92-95 | Exit only raises the exiting flag. |
| Applications.Dispose | src/cs/production/SDL/Application.cs:129-132 | Disposing raises the exiting flag and changes neither the callbacks nor the background flag. |
| Applications.HandleEvent | src/cs/production/SDL/Application.cs:248-291 | Handling an event adds one input callback iff it is a mouse-motion, mouse-button or key event, and no other callback; background and foreground notices and unknown events change nothing. |
| Applications.WindowOf | src/cs/production/SDL/Application.cs:295-299 | The window lookup finds a window iff its id is known, and otherwise gives none. |
| Applications.OnEventWatch | src/cs/production/SDL/Application.cs:425-450 | The event watch never consumes an event and changes nothing but the background flag. |
| Applications.FlagTransitions | src/cs/production/SDL/Application.cs:248-291 | A quit event sets the exiting flag (never cleared); occluded/exposed and background/foreground set and clear the background flag. |
| Applications.InputEventsDispatchOnDownFlag | src/cs/production/SDL/Application.cs:307-423 | Mouse-button and key events produce exactly one callback, Down iff `down` is set, with the mapped button and a window only when its id is known. |
| Applications.CalculateFramesPerSecond | src/cs/production/SDL/Application.cs:232-246 | One frame of the counter; what it promises over any run of frames is stated by `Applications.CountFramesConservesTime`, `Applications.CountFramesPublishesCompletedSecond` and `Applications.CountFramesBelowSecond`. |
| Applications.CountFramesConservesTime | src/cs/production/SDL/Application.cs:232-246 | Over any run of frames, whatever their times, the starting accumulator plus the run's time equals the final accumulator plus one second per published rate. |
| Applications.CountFramesBelowSecond | src/cs/production/SDL/Application.cs:232-246 | While less than a second has accumulated, the counter only adds up the time and the drawn frames, and the published rate is unchanged. |
| Applications.CountFramesPublishesCompletedSecond | src/cs/production/SDL/Application.cs:232-246 | The frame that completes a second publishes the number of frames drawn since the last publication, this one included; it restarts the count and keeps only the time beyond the second. |
| Applications.CountFramesKeepsTime | src/cs/production/SDL/Application.cs:232-246 | For frames shorter than a second, the accumulator is always the total time modulo one second. |
| Applications.FpsAccumulatorStaysBelowOneSecond | src/cs/production/SDL/Application.cs:232-246 | For deltas under a second the accumulator stays in [0, 1 s). |
| Applications.ReceiveAddsAtMostOneInput | src/cs/production/SDL/Application.cs:212-219 | Handling one polled event appends at most one input callback and keeps earlier callbacks. |
| Applications.DeliverAddsOnlyInput | src/cs/production/SDL/Application.cs:212-219 | Event polling never triggers update, draw or exit callbacks. |
| Applications.IterateCountsOneUpdate | src/cs/production/SDL/Application.cs:194-207 | Each iteration makes exactly one update, and one draw iff the app is not in the background. |
| Applications.Iterate | src/cs/production/SDL/Application.cs:194-207 | After an iteration the application publishes the counter's rate, and an exit requested in the update leaves the exiting flag set. |
| Applications.Loop | src/cs/production/SDL/Application.cs:188-210 | The loop either runs out of steps with the exiting flag clear, or finishes with the flag set and `OnExit` as the last callback. |
| Applications.LoopExitsOnce | src/cs/production/SDL/Application.cs:188-210 | A finished loop has called `OnExit` exactly once, last, with the exiting flag set and no more draws than updates. |
| Applications.QuitEndsAfterFrame | src/cs/production/SDL/Application.cs:188-210 | An exit requested during an update ends the loop after that frame, followed by `OnExit`. |
| Applications.LoopKeepsPrefix | src/cs/production/SDL/Application.cs:188-210 | The loop only appends callbacks. |
| Applications.PlatformNamesRoundTrip | src/cs/production/SDL/Application.Static.cs:37-81 | Every platform's name maps back to that platform. |
| Applications.PlatformMappingIgnoresCase | src/cs/production/SDL/Application.Static.cs:37-81 | Platform mapping is case-insensitive, and any "unknown" prefix maps to `Unknown`. |
| Applications.PlatformErrors | src/cs/production/SDL/Application.Static.cs:37-81 | A null platform string throws `NativeFunctionFailedException`; any other unrecognised string throws `NotImplementedException`. |
| Applications.GetNativePlatform | src/cs/production/SDL/Application.Static.cs:37-81 | A null name throws `NativeFunctionFailedException`; a returned platform is the one whose name matches case-insensitively, or `Unknown` for an "unknown" prefix. |
| Applications.Initialize | src/cs/production/SDL/Application.Static.cs:18-35 | The first call records the application and the mapped platform; a second call throws `InvalidOperationException` and changes nothing. |
| Applications.InitializeOnce | src/cs/production/SDL/Application.Static.cs:18-35 | After one initialisation, a second one fails and the first application stays current. |
| Applications.RunStartsOnlyWhenEverythingInitialises | src/cs/production/SDL/Application.cs:62-87 | The run succeeds iff the singleton was free, the platform is known and SDL, the event watch and TTF initialise; `OnStart` is the first callback. |
| Applications.Run | src/cs/production/SDL/Application.cs:62-87 | A taken singleton throws `InvalidOperationException` and changes nothing; otherwise the application becomes current, and a successful run has a known platform and SDL, the event watch and TTF initialised. |
| Ecs.NewSystem | src/cs/games/Games.MinecraftClone/Engine/ECS/System.cs:19-27 | Kind `Unknown` throws `ArgumentOutOfRangeException`; otherwise the system keeps its kind and starts with no components and no world. |
| Ecs.DefaultKindIsAccepted | src/cs/games/Games.MinecraftClone/Engine/ECS/System.cs:19-27 | A system constructed without a kind gets the default `Update` kind and is accepted, starting empty with no world. |
| Ecs.NewWorld | src/cs/games/Games.MinecraftClone/Engine/ECS/World.cs:11-24 | A new world is valid and has no entities, systems or calls. |
| Ecs.CreateEntity | src/cs/games/Games.MinecraftClone/Engine/ECS/World.cs:63-73 | Entities are numbered from 1 upward, and creation throws once 100 exist. |
| Ecs.CreateEntitiesCountsUp | src/cs/games/Games.MinecraftClone/Engine/ECS/World.cs:63-73 | `n` creations issue the next consecutive ids up to the limit, and every later one throws. |
| Ecs.EntityIndexOverrunsColumnAsWritten | src/cs/games/Games.MinecraftClone/Engine/ECS/World.cs:63-73 | As written, the hundredth entity gets index 100, past the end of every 100-element column (see Findings). |
| Ecs.IntendedEntitiesFitColumns | src/cs/games/Games.MinecraftClone/Engine/ECS/World.cs:63-73 | With the corrected bound every issued index fits every column. |
| Ecs.RegisterComponentType | src/cs/games/Games.MinecraftClone/Engine/ECS/World.cs:97-113 | A known type returns its id and changes nothing; a new one gets the next column index and exactly one new column. |
| Ecs.RegisterComponentTypeKeepsValid | src/cs/games/Games.MinecraftClone/Engine/ECS/World.cs:97-113 | Registration keeps the registry consistent, keeps existing ids and is idempotent. |
| Ecs.RegisterComponentTypesReturnsIds | src/cs/games/Games.MinecraftClone/Engine/ECS/World.cs:123-129 | Registering a list returns, for each type, its id in the final registry. |
| Ecs.RegisterComponentTypesKeepsValid | src/cs/games/Games.MinecraftClone/Engine/ECS/World.cs:123-129 | Registering a list keeps the registry consistent and existing ids, only appending columns. |
| Ecs.Sort | src/cs/games/Games.MinecraftClone/Engine/ECS/World.cs:131 | The component ids are sorted ascending and form a permutation of the input. |
| Ecs.Enlist | src/cs/games/Games.MinecraftClone/Engine/ECS/World.cs:136-144 | Update-kind systems join the update list, render-kind systems the draw list, and nothing else changes. |
| Ecs.RegisterSystem | src/cs/games/Games.MinecraftClone/Engine/ECS/World.cs:115-147 | A known system type changes nothing; a new one adds its type, and the system gets sorted component ids and this world, with no entity created. |
| Ecs.RegisterSystemIgnoresKnownType | src/cs/games/Games.MinecraftClone/Engine/ECS/World.cs:118-121 | A system of an already registered type is ignored entirely. |
| Ecs.RegisterSystemSortsComponentIds | src/cs/games/Games.MinecraftClone/Engine/ECS/World.cs:123-133 | A registered system's component ids are the sorted ids of its component types, and it belongs to this world. |
| Ecs.RegisterSystemDispatchesByKind | src/cs/games/Games.MinecraftClone/Engine/ECS/World.cs:135-146 | Registration records the type, calls `OnStart` once and appends the system to the list for its kind. |
| Ecs.SweepOrder | src/cs/games/Games.MinecraftClone/Engine/ECS/World.cs:39-61 | Update and draw call each system in list order on entity indices 0 through the count inclusive. |
| Ecs.Update | src/cs/games/Games.MinecraftClone/Engine/ECS/World.cs:39-49 | An update only appends system calls. |
| Ecs.Draw | src/cs/games/Games.MinecraftClone/Engine/ECS/World.cs:51-61 | A draw only appends system calls. |
| Ecs.DisposeStopsDrawThenUpdate | src/cs/games/Games.MinecraftClone/Engine/ECS/World.cs:26-37 | Dispose stops every draw system and then every update system, in list order. |
| Ecs.DisposeTwiceStopsAgain | src/cs/games/Games.MinecraftClone/Engine/ECS/World.cs:26-37 | Nothing prevents a second dispose from stopping every system again. |
| Ecs.Dispose | src/cs/games/Games.MinecraftClone/Engine/ECS/World.cs:26-37 | Dispose only appends calls, exactly one per draw system and per update system. |
| ExampleHost.ExitExample | src/cs/examples/Examples.Common/ExampleBase.cs:75-86 | The first exit runs `OnExit` and disposes the window; later exits do nothing. |
| ExampleHost.ExitExampleOnce | src/cs/examples/Examples.Common/ExampleBase.cs:75-86 | Exiting twice is the same as exiting once. |
| ExampleHost.StartResetsAllocatorAroundOnStart | src/cs/examples/Examples.Common/ExampleBase.cs:88-95 | Start sets the title, resets the allocator before and after `OnStart`, leaves it empty and returns `OnStart`'s result. |
| ExampleHost.StartExample | src/cs/examples/Examples.Common/ExampleBase.cs:88-95 | Start returns `OnStart`'s result, empties the allocator and otherwise keeps it, and logs the reset, `OnStart` and the reset in that order. |
| ExampleHost.NewApp | src/cs/examples/Examples.Common/App.cs:14-19 | The host starts with no example, current index -1 and pending index 0. |
| ExampleHost.OnKeyDown | src/cs/examples/Examples.Common/App.cs:56-76 | Only Number1 and Number2 change the pending index. The key event is forwarded to the current example, as the only new log entry, and is dropped when no example is running. |
| ExampleHost.NavigationWrapsAround | src/cs/examples/Examples.Common/App.cs:56-76 | Number2 moves to the next example and Number1 to the previous, modulo the example count. |
| ExampleHost.NavigationWithNoExamples | src/cs/examples/Examples.Common/App.cs:56-76 | With no examples, Number1 makes the pending index -1. |
| ExampleHost.HostInvariantKept | src/cs/examples/Examples.Common/App.cs:83-141 | With at least one example, key presses and updates keep both indices in range and never fail. |
| ExampleHost.FirstUpdateStartsFirstExample | src/cs/examples/Examples.Common/App.cs:83-141 | The first update creates and starts example 0, then updates it; with no examples it throws `IndexOutOfRangeException`. |
| ExampleHost.SwitchExitsPreviousFirst | src/cs/examples/Examples.Common/App.cs:83-141 | A pending switch exits the previous example before creating, starting and updating the next one, then clears the pending index. |
| ExampleHost.FailedStartExitsApplication | src/cs/examples/Examples.Common/App.cs:83-141 | A failed start clears the current example and exits the application without clearing the pending index or exiting the failed example. |
| ExampleHost.OnUpdate | src/cs/examples/Examples.Common/App.cs:83-141 | An update throws `IndexOutOfRangeException` iff a switch to an index outside the list is pending; without a pending switch the current example is kept, and a running example is updated last. |
| ExampleHost.OnDraw | src/cs/examples/Examples.Common/App.cs:143-146 | Draw changes nothing but the log, which gains one draw entry for the current example, or nothing when no example is shown. |
| ExampleHost.OnExitOnce | src/cs/examples/Examples.Common/App.cs:35-39 | Application exit exits the current example once and leaves no current example. |
| ExampleHost.OnExit | src/cs/examples/Examples.Common/App.cs:35-39 | With no example, exit changes nothing; otherwise it exits that example and changes nothing else in the host. |
| LazyFoo.ColorKeyChangesOneChannel | src/cs/examples/Examples.LazyFoo/Examples/E012_ColorModulation/E012_ColorModulation.cs:39-63 | Each of Q, W, E, A, S, D changes exactly one channel; other scancodes change nothing. |
| LazyFoo.ColorKeyDown | src/cs/examples/Examples.LazyFoo/Examples/E012_ColorModulation/E012_ColorModulation.cs:39-63 | Each channel moves by +32 for its up key, by -32 for its down key, modulo 256, and not at all for any other key. |
| LazyFoo.RedKeysAreInverse | src/cs/examples/Examples.LazyFoo/Examples/E012_ColorModulation/E012_ColorModulation.cs:39-63 | Q and A undo each other in either order, despite the byte wrap-around. |
| LazyFoo.GreenKeysAreInverse | src/cs/examples/Examples.LazyFoo/Examples/E012_ColorModulation/E012_ColorModulation.cs:39-63 | W and S undo each other in either order. |
| LazyFoo.BlueKeysAreInverse | src/cs/examples/Examples.LazyFoo/Examples/E012_ColorModulation/E012_ColorModulation.cs:39-63 | E and D undo each other in either order. |
| LazyFoo.PressingQWraps | src/cs/examples/Examples.LazyFoo/Examples/E012_ColorModulation/E012_ColorModulation.cs:39-63 | `n` presses of Q add 32·n to red modulo 256 and keep the other channels. |
| LazyFoo.EightPressesOfQReturn | src/cs/examples/Examples.LazyFoo/Examples/E012_ColorModulation/E012_ColorModulation.cs:39-63 | Every multiple of eight Q presses restores the modulation. |
| LazyFoo.AlphaKeysAreMonotone | src/cs/examples/Examples.LazyFoo/Examples/E013_AlphaBlending/E013_AlphaBlending.cs:37-69 | W never lowers alpha and raises it below 255; S never raises it and lowers it above 0; other keys leave it. |
| LazyFoo.AlphaKeyDown | src/cs/examples/Examples.LazyFoo/Examples/E013_AlphaBlending/E013_AlphaBlending.cs:37-69 | W raises alpha by 32 capped at 255, S lowers it by 32 floored at 0, and other keys keep it. |
| LazyFoo.RepeatedAlphaSaturates | src/cs/examples/Examples.LazyFoo/Examples/E013_AlphaBlending/E013_AlphaBlending.cs:37-69 | `n` presses of W give min(a + 32·n, 255), and of S give max(a − 32·n, 0). |
| LazyFoo.EightPressesReachTheBound | src/cs/examples/Examples.LazyFoo/Examples/E013_AlphaBlending/E013_AlphaBlending.cs:37-69 | Eight or more presses reach 255 (W) or 0 (S) from any alpha. |
| LazyFoo.AlphaDraw | src/cs/examples/Examples.LazyFoo/Examples/E013_AlphaBlending/E013_AlphaBlending.cs:75-90 | The fade-out texture is drawn over the fade-in texture with the current alpha set just before it. |
| LazyFoo.SpriteFrameAdvancesOnlyPastThreshold | src/cs/examples/Examples.LazyFoo/Examples/E014_AnimatedSpritesAndVSync/E014_AnimatedSpritesAndVSync.cs:44-52 | The frame moves iff the timer goes strictly past 100 ms; then it moves to the next frame with the timer at zero; otherwise the timer keeps the whole sum. |
| LazyFoo.SpriteUpdate | src/cs/examples/Examples.LazyFoo/Examples/E014_AnimatedSpritesAndVSync/E014_AnimatedSpritesAndVSync.cs:44-52 | An update keeps the frame or moves to the next one modulo four, and the timer stays within 100 ms: either reset to 0 or the accumulated sum. |
| LazyFoo.PeriodIsLeast | src/cs/examples/Examples.LazyFoo/Examples/E014_AnimatedSpritesAndVSync/E014_AnimatedSpritesAndVSync.cs:44-52 | The frame period is the least number of equal deltas whose sum exceeds 100 ms. |
| LazyFoo.SpriteAccumulates | src/cs/examples/Examples.LazyFoo/Examples/E014_AnimatedSpritesAndVSync/E014_AnimatedSpritesAndVSync.cs:44-52 | Before the period is up, updates only accumulate time. |
| LazyFoo.SpriteAdvancesOncePerPeriod | src/cs/examples/Examples.LazyFoo/Examples/E014_AnimatedSpritesAndVSync/E014_AnimatedSpritesAndVSync.cs:44-52 | With a constant delta the frame advances once per period, with the excess time dropped. |
| LazyFoo.SpriteSource | src/cs/examples/Examples.LazyFoo/Examples/E014_AnimatedSpritesAndVSync/E014_AnimatedSpritesAndVSync.cs:14-19 | The draw's rectangle lookup always hits one of the four sprite rectangles. |
| LazyFoo.SpriteSheetIsContiguous | src/cs/examples/Examples.LazyFoo/Examples/E014_AnimatedSpritesAndVSync/E014_AnimatedSpritesAndVSync.cs:14-19 | There is one rectangle per frame, and frame `i` is the 64-pixel column starting at 64·i. |

## Left out

- Native SDL, SDL_image and SDL_ttf functions: foreign code. Their results are parameters (a success flag or a handle), and the calls are entries in the effect log.
- Marshalling into `SDL_GPU*` structs (`stackalloc`, `fixed`): not modelled beyond the field-by-field copies shown by the marshal functions.
- Thread interleavings: `Interlocked`/`volatile` operations are modelled as sequential test-and-set, and the event-watch thread runs between loop steps only.
- `Pool`, `Poolable`, `GpuDevice`, the render/copy pass classes and `File` are not part of this model. Returning to a pool is an effect that runs the object's `Reset`.
- `Arenas`: the allocator source is not part of this model. The arena keeps its allocations as a list and does not enforce its capacity.
- `FileSystem.Dispose` and the loader's pools (FileSystem.cs:264-268): pool internals are not part of this model.
- `GpuBaseShaderOptions.TrySetFromFile`: not part of this model. Its result is the `baseOk` parameter of the shader-options operations.
- Options reset order: the allocator reset after `OnReset` is visible only through the result (fields reset, allocator empty), not as an ordered log.
- `Application.AdvanceTime` and all floating-point code (camera, rectangle hit tests, E014's centring, colour ramps): floating point.
- `TimeSpan` overflow: ticks are unbounded integers.
- Window creation, GPU device creation, logging and console output (including the console writes in `App.OnStart` and `App.OnUpdate`): I/O.
- Mouse-move, mouse-button and key-up forwarding in `App`: these only forward to the current example, as `OnKeyDown` does. The model keeps the `OnKeyDown` forwarding.
- `AddSystem` overloads in `World` (World.cs:75-95): they only construct the system and forward to `RegisterSystem`.
- `Entity` (the ECS entity handle) is not part of this model.
- Asset loading in the LazyFoo examples' `OnStart`, and the renderer/texture wrappers: thin native wrappers.
- Input.ScancodeMapRoundTrips: SDL's numeric scancode and mouse-button values come from the SDL headers, which are not part of this model. The lemma relies on the values as declared in `input.dfy`.
- GpuExamples.ClearPasses: its own contract states only the length. The pass contents are stated by `GpuExamples.ClearPassesAt`.
- Ecs.RegisterComponentTypes: its own contract states only the length. The contents are stated by `Ecs.RegisterComponentTypesReturnsIds` and `Ecs.RegisterComponentTypesKeepsValid`.
- Ecs.RegisterSystem: its own contract states the known-type no-op, the recorded type, the sorted ids and the owning world. The list it joins and the `OnStart` call are stated by the three `RegisterSystem…` lemmas.
- Text.ContainsIgnoreCase, Text.EqualsIgnoreCase: case folding covers ASCII letters only. The source compares with `CurrentCultureIgnoreCase` (shader file names) and `OrdinalIgnoreCase` (platform names), whose culture and Unicode tables are not modelled.
- DiskFileSystem.FullFilePath, Text.FileName: paths follow Unix rules only. The separator is '/', and a path is rooted iff it starts with '/'; Windows drive letters, '\\' separators and UNC paths of `Path.Combine`, `Path.IsPathRooted` and `Path.GetFileName` are not modelled.
- DiskFileSystem.TryLoadFont: the point size is a `nat` instead of the source's `float`, because floating point is not modelled.
- GpuCommandBuffers.TryGetSwapchainTexture: the result is an updated copy of the window's swapchain texture. The source mutates the window's own texture object, so the aliasing between the returned texture and the window is not modelled.
- GpuTextures.Dispose: the `Disposable` base class that would stop a second disposal is not part of this model, so each `Dispose` of a non-swapchain texture issues its own release call.
- `Swapchain.cs` is not part of this model; the swapchain flag of a texture is modelled only as far as `GpuTexture` reads it.

## Observations

These behaviours are modelled as written. They may be surprising, but they are not claimed as defects:

- `ThrowIfSubmitted` is compiled only in DEBUG builds. Even there it never rejects a single-threaded use after `Submit` or `Cancel`, because the pool-return `Reset` clears the flag before the caller regains control (see Findings).
- `Cancel`, the uniform pushes and `BlitTexture` are not guarded at all.
- `BeginCopyPass` does not null-check the native pass.
- A compute pass has no bound-shader guard.
- `GpuComputePass.End` ends the native pass twice, once directly and once in the pool-return `Reset`.
- `BlitTexture` never passes the clear colour or flip mode to SDL.
- `Application.Initialize` records the current application before the platform lookup. A lookup that throws therefore leaves the singleton taken.
- In E005 the pipelines named "CW_…" use a counter-clockwise front face and vice versa.
- In `App.OnUpdate`, a failed start never exits the failed example and leaves the switch pending.
- With no examples, Number1 sets the pending index to -1, and the first update throws.
- `World.Update`/`Draw` visit entity indices 0 through the entity count inclusive.
- E014 resets its timer to zero instead of subtracting 100 ms.

## Findings

| source | as written | input that shows it | evidently intended | confidence | as-written member | corrected member |
|---|---|---|---|---|---|---|
| src/cs/production/SDL/GPU/GpuTexture.cs:64-83 | The constructor takes the mip-level and sample counts but never stores them, so both properties stay 0. | A texture created with 1 mip level and 1 sample reports 0 and 0. | Store both counts. | not executed; high | GpuTextures.CreatedCountsAreDroppedAsWritten | GpuTextures.NewIntended |
| src/cs/production/SDL/GPU/GpuTexture.cs:86-96 | `_isSwapchain` is read-only and never assigned, so disposing the swapchain texture releases the driver-owned image handle. | Create a texture, update it with a swapchain image handle, then dispose it: `ReleaseTexture` is issued for that handle. | Record the swapchain flag at construction so that dispose skips the release. | not executed; high | GpuTextures.SwapchainTextureIsReleasedAsWritten | GpuTextures.IntendedSwapchainDisposeSkipsRelease |
| src/cs/production/SDL/Disk/FileSystem.cs:115-123 | When `SDL_ConvertSurface` fails, the loader returns false without destroying the surface it loaded. | Loaded surface `1` in format 1, desired format 2, conversion returns null: surface `1` is neither returned nor destroyed. | Destroy the loaded surface before returning false. | not executed; high | DiskFileSystem.TryLoadImageLeaksOnFailedConversion | DiskFileSystem.TryLoadImageIntendedOwnsSurfaces |
| src/cs/games/Games.MinecraftClone/Engine/ECS/World.cs:63-73 | The limit check allows the count to reach 100 and returns the new count as the index, while each column holds 100 elements (indices 0-99). | With 99 entities, `CreateEntity` returns index 100. | Issue only indices inside the columns. | not executed; medium (latent: no code indexes a column by entity yet, since `GetComponent` throws `NotImplementedException`) | Ecs.EntityIndexOverrunsColumnAsWritten | Ecs.IntendedEntitiesFitColumns |
| src/cs/production/SDL/GPU/GpuCommandBuffer.cs:414-428 | `Reset`, which the pool runs when `Submit` or `Cancel` returns the buffer, clears `_isSubmitted` before the caller regains control, so the DEBUG-only `ThrowIfSubmitted` guard can never fire for single-threaded use. | In a DEBUG build: bind handle 1, `Submit`, then `BeginCopyPass`: the copy pass is begun on a null handle instead of throwing. | Keep the flag across the pool return and clear it only when the buffer is bound again (`Set`), so stale use throws `InvalidOperationException`. | not executed; medium | GpuCommandBuffers.StaleCopyPassAfterSubmitAsWritten | GpuCommandBuffers.IntendedSubmitRefusesStaleUse |
