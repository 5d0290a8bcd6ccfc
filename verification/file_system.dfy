/** The disk `FileSystem`: loaders that resolve a path against the
    application's base directory, hand it to a native loader as a C string
    held in a 1 KB arena, and wrap what comes back. Every native result is
    a parameter; every native call, free, destroy and disposal is logged. */
module DiskFileSystem {
  import opened Native
  import Text
  import Arenas
  import Options

  // ---------------------------------------------------------------- paths

  /** `Path.IsPathRooted` on Unix. */
  predicate IsPathRooted(path: string)
  {
    |path| > 0 && path[0] == Text.Separator
  }

  /** `Path.Combine` of two paths. */
  function Combine(first: string, second: string): string
  {
    if |first| == 0 then second
    else if |second| == 0 then first
    else if IsPathRooted(second) then second
    else if first[|first| - 1] == Text.Separator then first + second
    else first + [Text.Separator] + second
  }

  /** `GetFullFilePath`: a rooted path as given, anything else relative to
      the base directory. */
  function FullFilePath(baseDirectory: string, filePath: string): (r: string)
    ensures IsPathRooted(filePath) ==> r == filePath
    ensures |r| >= |filePath| && r[|r| - |filePath|..] == filePath
    ensures IsPathRooted(baseDirectory) ==> IsPathRooted(r) || r == []
    ensures !IsPathRooted(filePath) ==> r == Combine(baseDirectory, filePath)
  {
    if IsPathRooted(filePath) then filePath else Combine(baseDirectory, filePath)
  }

  /** With a rooted base directory, resolving is idempotent, and the
      resolved path keeps the file name of a path that has one. */
  lemma FullFilePathIdempotent(baseDirectory: string, filePath: string)
    requires IsPathRooted(baseDirectory)
    ensures var full := FullFilePath(baseDirectory, filePath);
            FullFilePath(baseDirectory, full) == full
  {
    var full := FullFilePath(baseDirectory, filePath);
    if !IsPathRooted(filePath) && |filePath| > 0 {
      assert full[0] == baseDirectory[0];
    }
  }

  /** A relative name resolved against a base directory that does not end
      in a separator gets exactly one separator in between. */
  lemma RelativePathJoinsWithOneSeparator(baseDirectory: string, name: string)
    requires |baseDirectory| > 0 && baseDirectory[|baseDirectory| - 1] != Text.Separator
    requires forall k :: 0 <= k < |name| ==> name[k] != Text.Separator
    requires |name| > 0
    ensures FullFilePath(baseDirectory, name) == baseDirectory + [Text.Separator] + name
    ensures Text.FileName(FullFilePath(baseDirectory, name)) == name
  {
    Text.FileNameOfJoin(baseDirectory, name);
  }

  /** A base directory that already ends in a separator gets no second
      one: the name is appended directly, and keeps its file name. */
  lemma RelativePathAfterTrailingSeparator(baseDirectory: string, name: string)
    requires |baseDirectory| > 0 && baseDirectory[|baseDirectory| - 1] == Text.Separator
    requires forall k :: 0 <= k < |name| ==> name[k] != Text.Separator
    requires |name| > 0
    ensures FullFilePath(baseDirectory, name) == baseDirectory + name
    ensures Text.FileName(FullFilePath(baseDirectory, name)) == name
  {
    var directory := baseDirectory[..|baseDirectory| - 1];
    assert baseDirectory + name == directory + [Text.Separator] + name;
    Text.FileNameOfJoin(directory, name);
  }

  // ---------------------------------------------------------------- state

  /** A loaded file: its resolved path, the native buffer and its size. */
  datatype File = File(filePath: string, data: Ptr, size: int32)

  datatype Effect =
    | LoadFileCall(path: string)
    | ImageLoadCall(path: string)
    | OpenFontCall(path: string, pointSize: nat)
    | NativeFailureLogged(nativeFunction: string)
    | FreeCall(data: Ptr)
    | FileTakenFromPool
    | FileDisposed(file: File)
    | ConvertSurfaceCall(surface: Ptr, format: nat)
    | DestroySurfaceCall(surface: Ptr)
    | CreateGraphicsShaderCall(fields: Options.Fields)
    | CreateComputeShaderCall(fields: Options.Fields)
    | OptionsDisposed(allocatorReleased: bool)

  /** `baseDirectory` is `AppContext.BaseDirectory`. */
  datatype FileSystem = FileSystem(baseDirectory: string, arena: Arenas.Arena, log: seq<Effect>)

  /** What a loader returns and the file system afterwards. */
  datatype Loaded<T> = Loaded(value: Option<T>, after: FileSystem)

  /** The constructor's arena. */
  const PathArenaCapacity: nat := 1024

  function New(baseDirectory: string, arenaId: nat): (fs: FileSystem)
    ensures fs.arena.capacity == PathArenaCapacity && fs.arena.live == [] && fs.log == []
  {
    FileSystem(baseDirectory, Arenas.New(arenaId, PathArenaCapacity), [])
  }

  /** The arena while the native call runs: cleared, then holding the
      full path as a C string. */
  function ArenaAtCall(fs: FileSystem, fullPath: string): (a: Arenas.Arena)
    ensures a.live == [fullPath]
    ensures a.(live := fs.arena.live) == fs.arena
  {
    Arenas.AllocateCString(Arenas.Reset(fs.arena), fullPath)
  }

  /** The pattern every loader shares: clear the arena, copy the full path
      into it, make the native call on that copy (`call` builds the log
      entry), clear the arena again. */
  function WithPathInArena(fs: FileSystem, fullPath: string, call: Effect): (r: FileSystem)
    ensures r.arena.live == [] && r.arena.id == fs.arena.id
    ensures r.arena == Arenas.Reset(ArenaAtCall(fs, fullPath))
    ensures r.log == fs.log + [call] && r.baseDirectory == fs.baseDirectory
  {
    fs.(arena := Arenas.Reset(ArenaAtCall(fs, fullPath)), log := fs.log + [call])
  }

  function Emit(fs: FileSystem, effects: seq<Effect>): FileSystem
  {
    fs.(log := fs.log + effects)
  }

  // ---------------------------------------------------------------- TryLoadFile

  /** The native results `TryLoadFile` depends on: the buffer and size
      `SDL_LoadFile` returns, and whether the file pool hands out a file. */
  datatype FileLoad = FileLoad(data: Ptr, dataSize: nat, poolHasFile: bool)

  function TryLoadFile(fs: FileSystem, filePath: string, native: FileLoad): (r: Loaded<File>)
    ensures r.after.arena.live == [] && r.after.baseDirectory == fs.baseDirectory
    ensures r.value.Some? <==> native.data != Null && native.poolHasFile
    ensures r.value.Some? ==>
              r.value.value == File(FullFilePath(fs.baseDirectory, filePath), native.data,
                                    TruncateToInt32(native.dataSize))
  {
    var full := FullFilePath(fs.baseDirectory, filePath);
    var called := WithPathInArena(fs, full, LoadFileCall(full));
    if native.data == Null then Loaded(None, Emit(called, [NativeFailureLogged("SDL_LoadFile")]))
    else if !native.poolHasFile then Loaded(None, Emit(called, [FreeCall(native.data)]))
    else Loaded(Some(File(full, native.data, TruncateToInt32(native.dataSize))), Emit(called, [FileTakenFromPool]))
  }

  /** The buffer `SDL_LoadFile` returns is never lost: it is either handed
      to the caller inside the file or freed right away. A file smaller than
      2 GiB reports its true size. */
  lemma TryLoadFileOwnsBuffer(fs: FileSystem, filePath: string, native: FileLoad)
    requires native.data != Null
    ensures var r := TryLoadFile(fs, filePath, native);
            && (r.value.Some? ==> r.value.value.data == native.data)
            && (r.value.None? ==> FreeCall(native.data) in r.after.log[|fs.log|..])
            && (r.value.Some? && native.dataSize < TwoTo31 ==> r.value.value.size as int == native.dataSize)
  {
    var r := TryLoadFile(fs, filePath, native);
    if r.value.None? {
      var full := FullFilePath(fs.baseDirectory, filePath);
      assert r.after.log[|fs.log|..] == [LoadFileCall(full), FreeCall(native.data)];
    }
  }

  /** What a failed `TryLoadFile` appends: the native call and either the
      failure log or the free. */
  function TryLoadFileFailureTail(fs: FileSystem, filePath: string, native: FileLoad): (tail: seq<Effect>)
    requires !(native.data != Null && native.poolHasFile)
    ensures TryLoadFile(fs, filePath, native).after.log == fs.log + tail
    ensures FileTakenFromPool !in tail
  {
    var full := FullFilePath(fs.baseDirectory, filePath);
    var called := WithPathInArena(fs, full, LoadFileCall(full));
    var last := if native.data == Null then NativeFailureLogged("SDL_LoadFile") else FreeCall(native.data);
    assert TryLoadFile(fs, filePath, native).after == Emit(called, [last]);
    assert called.log + [last] == fs.log + [LoadFileCall(full), last];
    [LoadFileCall(full), last]
  }

  // ---------------------------------------------------------------- TryLoadImage

  /** The pixel format enum's zero. */
  const UnknownPixelFormat: nat := 0

  /** The native results `TryLoadImage` depends on: the surface `IMG_Load`
      returns and its format, and what `SDL_ConvertSurface` returns. */
  datatype ImageLoad = ImageLoad(surface: Ptr, format: nat, converted: Ptr)

  /** A desired format must be a defined, known pixel format. */
  predicate ValidDesiredFormat(desired: Option<nat>, definedFormats: set<nat>)
  {
    desired.None? || (desired.value != UnknownPixelFormat && desired.value in definedFormats)
  }

  /** `TryLoadImage` as written: when conversion fails, the loaded surface
      is neither returned nor destroyed. */
  function TryLoadImage(
    fs: FileSystem, filePath: string, desired: Option<nat>, definedFormats: set<nat>, native: ImageLoad)
    : (r: Result<Loaded<Ptr>>)
    ensures r.Throw? <==> !ValidDesiredFormat(desired, definedFormats)
    ensures r.Throw? ==> r.error == Argument
    ensures r.Return? ==> r.value.after.arena.live == []
    ensures r.Return? ==> (r.value.value.Some? ==> r.value.value.value != Null)
  {
    if !ValidDesiredFormat(desired, definedFormats) then Throw(Argument)
    else
      var full := FullFilePath(fs.baseDirectory, filePath);
      var called := WithPathInArena(fs, full, ImageLoadCall(full));
      if native.surface == Null then Return(Loaded(None, Emit(called, [NativeFailureLogged("IMG_Load")])))
      else if desired.Some? && native.format != desired.value then
        var converting := Emit(called, [ConvertSurfaceCall(native.surface, desired.value)]);
        if native.converted == Null then
          Return(Loaded(None, Emit(converting, [NativeFailureLogged("SDL_ConvertSurface")])))
        else Return(Loaded(Some(native.converted), Emit(converting, [DestroySurfaceCall(native.surface)])))
      else Return(Loaded(Some(native.surface), called))
  }

  /** `TryLoadImage` as its error handling elsewhere intends: a failed
      conversion destroys the surface that was loaded. */
  function TryLoadImageIntended(
    fs: FileSystem, filePath: string, desired: Option<nat>, definedFormats: set<nat>, native: ImageLoad)
    : (r: Result<Loaded<Ptr>>)
    ensures r.Throw? <==> !ValidDesiredFormat(desired, definedFormats)
    ensures r.Return? ==> r.value.after.arena.live == []
  {
    var r := TryLoadImage(fs, filePath, desired, definedFormats, native);
    if r.Return? && r.value.value.None? && native.surface != Null
    then Return(Loaded(None, Emit(r.value.after, [DestroySurfaceCall(native.surface)])))
    else r
  }

  /** A surface the loader obtained is either returned to the caller or
      destroyed by it. */
  predicate SurfaceAccountedFor(r: Loaded<Ptr>, surface: Ptr, logBefore: nat)
    requires logBefore <= |r.after.log|
  {
    r.value == Some(surface) || DestroySurfaceCall(surface) in r.after.log[logBefore..]
  }

  /** As written, a failed conversion leaks the loaded surface. */
  lemma TryLoadImageLeaksOnFailedConversion(fs: FileSystem)
    ensures var native := ImageLoad(Addr(1), 1, Null);
            var r := TryLoadImage(fs, "a.png", Some(2), {2}, native);
            && r.Return?
            && |fs.log| <= |r.value.after.log|
            && !SurfaceAccountedFor(r.value, Addr(1), |fs.log|)
  {
    var r := TryLoadImage(fs, "a.png", Some(2), {2}, ImageLoad(Addr(1), 1, Null));
    var full := FullFilePath(fs.baseDirectory, "a.png");
    assert r.value.after.log[|fs.log|..]
        == [ImageLoadCall(full), ConvertSurfaceCall(Addr(1), 2), NativeFailureLogged("SDL_ConvertSurface")];
  }

  /** The intended loader's outcome, case by case: what it returns and the
      effects it appends. */
  function IntendedOutcome(fullPath: string, desired: Option<nat>, native: ImageLoad): (Option<Ptr>, seq<Effect>)
  {
    if native.surface == Null then (None, [ImageLoadCall(fullPath), NativeFailureLogged("IMG_Load")])
    else if desired.Some? && native.format != desired.value then
      if native.converted == Null then
        (None, [ImageLoadCall(fullPath), ConvertSurfaceCall(native.surface, desired.value),
                NativeFailureLogged("SDL_ConvertSurface"), DestroySurfaceCall(native.surface)])
      else
        (Some(native.converted), [ImageLoadCall(fullPath), ConvertSurfaceCall(native.surface, desired.value),
                                  DestroySurfaceCall(native.surface)])
    else (Some(native.surface), [ImageLoadCall(fullPath)])
  }

  lemma TryLoadImageIntendedCases(
    fs: FileSystem, filePath: string, desired: Option<nat>, definedFormats: set<nat>, native: ImageLoad)
    requires ValidDesiredFormat(desired, definedFormats)
    ensures var r := TryLoadImageIntended(fs, filePath, desired, definedFormats, native);
            var expected := IntendedOutcome(FullFilePath(fs.baseDirectory, filePath), desired, native);
            && r.Return?
            && r.value.value == expected.0
            && r.value.after.log == fs.log + expected.1
  {
    if native.surface == Null {
      IntendedLoadFails(fs, filePath, desired, definedFormats, native);
    } else if desired.Some? && native.format != desired.value && native.converted == Null {
      IntendedConversionFails(fs, filePath, desired, definedFormats, native);
    } else if desired.Some? && native.format != desired.value {
      IntendedConversionSucceeds(fs, filePath, desired, definedFormats, native);
    } else {
      IntendedKeepsSurface(fs, filePath, desired, definedFormats, native);
    }
  }

  lemma IntendedLoadFails(
    fs: FileSystem, filePath: string, desired: Option<nat>, definedFormats: set<nat>, native: ImageLoad)
    requires ValidDesiredFormat(desired, definedFormats) && native.surface == Null
    ensures var r := TryLoadImageIntended(fs, filePath, desired, definedFormats, native);
            && r.Return? && r.value.value == None
            && r.value.after.log == fs.log + [ImageLoadCall(FullFilePath(fs.baseDirectory, filePath)), NativeFailureLogged("IMG_Load")]
  {
    LogAppends(fs.log, [ImageLoadCall(FullFilePath(fs.baseDirectory, filePath))], [NativeFailureLogged("IMG_Load")]);
  }

  /** The corrected loader when conversion fails: the loaded surface is destroyed. */
  lemma IntendedConversionFails(
    fs: FileSystem, filePath: string, desired: Option<nat>, definedFormats: set<nat>, native: ImageLoad)
    requires ValidDesiredFormat(desired, definedFormats) && native.surface != Null
    requires desired.Some? && native.format != desired.value && native.converted == Null
    ensures var r := TryLoadImageIntended(fs, filePath, desired, definedFormats, native);
            var expected := IntendedOutcome(FullFilePath(fs.baseDirectory, filePath), desired, native);
            && r.Return? && r.value.value == expected.0 && r.value.after.log == fs.log + expected.1
  {
    var load := ImageLoadCall(FullFilePath(fs.baseDirectory, filePath));
    var convert := ConvertSurfaceCall(native.surface, desired.value);
    var destroy := DestroySurfaceCall(native.surface);
    LogAppends(fs.log, [load], [convert]);
    LogAppends(fs.log, [load, convert], [NativeFailureLogged("SDL_ConvertSurface")]);
    LogAppends(fs.log, [load, convert, NativeFailureLogged("SDL_ConvertSurface")], [destroy]);
  }

  /** The corrected loader when conversion succeeds, which is as written. */
  lemma IntendedConversionSucceeds(
    fs: FileSystem, filePath: string, desired: Option<nat>, definedFormats: set<nat>, native: ImageLoad)
    requires ValidDesiredFormat(desired, definedFormats) && native.surface != Null
    requires desired.Some? && native.format != desired.value && native.converted != Null
    ensures var r := TryLoadImageIntended(fs, filePath, desired, definedFormats, native);
            var expected := IntendedOutcome(FullFilePath(fs.baseDirectory, filePath), desired, native);
            && r.Return? && r.value.value == expected.0 && r.value.after.log == fs.log + expected.1
  {
    var load := ImageLoadCall(FullFilePath(fs.baseDirectory, filePath));
    var convert := ConvertSurfaceCall(native.surface, desired.value);
    var destroy := DestroySurfaceCall(native.surface);
    LogAppends(fs.log, [load], [convert]);
    LogAppends(fs.log, [load, convert], [destroy]);
  }

  lemma IntendedKeepsSurface(
    fs: FileSystem, filePath: string, desired: Option<nat>, definedFormats: set<nat>, native: ImageLoad)
    requires ValidDesiredFormat(desired, definedFormats) && native.surface != Null
    requires !(desired.Some? && native.format != desired.value)
    ensures var r := TryLoadImageIntended(fs, filePath, desired, definedFormats, native);
            && r.Return? && r.value.value == Some(native.surface)
            && r.value.after.log == fs.log + [ImageLoadCall(FullFilePath(fs.baseDirectory, filePath))]
  {
  }

  /** Appending to the log in two steps is appending once. */
  lemma LogAppends(log: seq<Effect>, first: seq<Effect>, second: seq<Effect>)
    ensures log + first + second == log + (first + second)
  {
  }

  /** With the intended error path, every surface `IMG_Load` returned is
      returned or destroyed, and so is every converted one; the call succeeds
      exactly when loading and any needed conversion succeed. */
  lemma TryLoadImageIntendedOwnsSurfaces(
    fs: FileSystem, filePath: string, desired: Option<nat>, definedFormats: set<nat>, native: ImageLoad)
    requires ValidDesiredFormat(desired, definedFormats)
    ensures var r := TryLoadImageIntended(fs, filePath, desired, definedFormats, native);
            && r.Return?
            && |fs.log| <= |r.value.after.log|
            && (native.surface != Null ==> SurfaceAccountedFor(r.value, native.surface, |fs.log|))
            && (r.value.value.Some? <==>
                  native.surface != Null
                  && (desired.None? || native.format == desired.value || native.converted != Null))
            && (r.value.value.Some? && desired.Some? && native.format != desired.value ==>
                  r.value.value.value == native.converted)
  {
    TryLoadImageIntendedCases(fs, filePath, desired, definedFormats, native);
    var r := TryLoadImageIntended(fs, filePath, desired, definedFormats, native);
    var expected := IntendedOutcome(FullFilePath(fs.baseDirectory, filePath), desired, native);
    assert r.value.after.log[|fs.log|..] == expected.1;
  }

  // ---------------------------------------------------------------- TryLoadFont

  /** `TryLoadFont`: the font handle `TTF_OpenFont` returns, if any. */
  function TryLoadFont(fs: FileSystem, filePath: string, pointSize: nat, native: Ptr): (r: Loaded<Ptr>)
    ensures r.after.arena.live == []
    ensures r.value.Some? <==> native != Null
    ensures r.value.Some? ==> r.value.value == native
    ensures |r.after.log| > |fs.log|
    ensures r.after.log[|fs.log|] == OpenFontCall(FullFilePath(fs.baseDirectory, filePath), pointSize)
  {
    var full := FullFilePath(fs.baseDirectory, filePath);
    var called := WithPathInArena(fs, full, OpenFontCall(full, pointSize));
    if native == Null then Loaded(None, Emit(called, [NativeFailureLogged("TTF_OpenFont")]))
    else Loaded(Some(native), called)
  }

  // ---------------------------------------------------------------- shaders

  /** The native results the shader loaders depend on: the file load, the
      base options class's `TrySetFromFile`, the arena id the temporary
      options create, and the shader the device creates (if any). */
  datatype ShaderLoad = ShaderLoad(file: FileLoad, baseOk: bool, optionsArenaId: nat, shader: Option<nat>)

  /** Tear-down on every path after the file was loaded: dispose the file,
      then leave the options' `using` scope. */
  function CloseUp(fs: FileSystem, file: File, options: Options.Options): FileSystem
  {
    Emit(fs, [FileDisposed(file), OptionsDisposed(Options.Dispose(options).allocator.isDisposed)])
  }

  /** The options `TryLoadGraphicsShader` builds: fresh graphics options
      owning their arena, with the requested counts. */
  function GraphicsOptions(arenaId: nat, samplerCount: int32, uniformBufferCount: int32): (o: Options.Options)
    ensures o.fields == Options.GraphicsShader(Options.Fragment, samplerCount, uniformBufferCount, 0, 0)
    ensures o.ownsAllocator && !o.isDisposed
  {
    var created := Options.New(None, arenaId, Options.GraphicsShader(Options.Fragment, 0, 0, 0, 0));
    Options.NewOwnsOnlyCreatedAllocator(None, arenaId, Options.GraphicsShader(Options.Fragment, 0, 0, 0, 0));
    created.(fields := Options.GraphicsShader(Options.Fragment, samplerCount, uniformBufferCount, 0, 0))
  }

  /** `TryLoadGraphicsShader`. */
  function TryLoadGraphicsShader(
    fs: FileSystem, filePath: string, samplerCount: int32, uniformBufferCount: int32, native: ShaderLoad)
    : (r: Loaded<nat>)
    ensures r.after.arena.live == []
    ensures r.value.Some? ==> native.shader.Some? && r.value.value == native.shader.value
  {
    var loaded := TryLoadFile(fs, filePath, native.file);
    if loaded.value.None? then Loaded(None, loaded.after)
    else
      var file := loaded.value.value;
      var options := GraphicsOptions(native.optionsArenaId, samplerCount, uniformBufferCount);
      var outcome := Options.TrySetGraphicsFromFile(options, native.baseOk, file.filePath);
      if !outcome.0 then Loaded(None, CloseUp(loaded.after, file, outcome.1))
      else
        var asked := Emit(loaded.after, [CreateGraphicsShaderCall(outcome.1.fields)]);
        Loaded(native.shader, CloseUp(asked, file, outcome.1))
  }

  /** A graphics shader is created exactly when the file loads, the base
      options accept it, its name names a stage and the device succeeds. */
  lemma GraphicsShaderLoadSucceedsWhen(
    fs: FileSystem, filePath: string, samplerCount: int32, uniformBufferCount: int32, native: ShaderLoad)
    ensures var r := TryLoadGraphicsShader(fs, filePath, samplerCount, uniformBufferCount, native);
            var stage := Options.StageFromFileName(Text.FileName(FullFilePath(fs.baseDirectory, filePath)));
            r.value.Some? <==>
              native.file.data != Null && native.file.poolHasFile && native.baseOk && stage.Some? && native.shader.Some?
  {
  }

  /** Once the file was loaded, it is disposed and the temporary options
      release their own arena on every path; when the options were set, the
      device was given the requested counts and the detected stage. */
  lemma GraphicsShaderLoaderCleansUp(
    fs: FileSystem, filePath: string, samplerCount: int32, uniformBufferCount: int32, native: ShaderLoad)
    requires native.file.data != Null && native.file.poolHasFile
    ensures var r := TryLoadGraphicsShader(fs, filePath, samplerCount, uniformBufferCount, native);
            var full := FullFilePath(fs.baseDirectory, filePath);
            var stage := Options.StageFromFileName(Text.FileName(full));
            var file := File(full, native.file.data, TruncateToInt32(native.file.dataSize));
            && |r.after.log| >= 3
            && r.after.log[|r.after.log| - 2..] == [FileDisposed(file), OptionsDisposed(true)]
            && (native.baseOk && stage.Some? ==>
                  r.after.log[|r.after.log| - 3]
                  == CreateGraphicsShaderCall(Options.GraphicsShader(stage.value, samplerCount, uniformBufferCount, 0, 0)))
  {
    var loaded := TryLoadFile(fs, filePath, native.file);
    assert |loaded.after.log| >= 1;
  }

  /** A failed file load takes nothing from the pool and never reaches the
      device. */
  lemma GraphicsShaderLoaderStopsAtFile(
    fs: FileSystem, filePath: string, samplerCount: int32, uniformBufferCount: int32, native: ShaderLoad)
    requires !(native.file.data != Null && native.file.poolHasFile)
    ensures var r := TryLoadGraphicsShader(fs, filePath, samplerCount, uniformBufferCount, native);
            && r.value.None?
            && r == Loaded(None, TryLoadFile(fs, filePath, native.file).after)
            && |fs.log| <= |r.after.log|
            && FileTakenFromPool !in r.after.log[|fs.log|..]
  {
    var r := TryLoadGraphicsShader(fs, filePath, samplerCount, uniformBufferCount, native);
    var tail := TryLoadFileFailureTail(fs, filePath, native.file);
    assert r.after.log[|fs.log|..] == tail;
  }

  /** The options `TryLoadComputeShader` builds: fresh defaults owning their
      arena. */
  function ComputeOptions(arenaId: nat): (o: Options.Options)
    ensures o.fields == Options.ComputeShader(0, 0, 0, 0, 0, 0, 0, 0, 0)
    ensures o.ownsAllocator && !o.isDisposed
  {
    Options.NewOwnsOnlyCreatedAllocator(None, arenaId, Options.ComputeShader(0, 0, 0, 0, 0, 0, 0, 0, 0));
    Options.New(None, arenaId, Options.ComputeShader(0, 0, 0, 0, 0, 0, 0, 0, 0))
  }

  /** `TryLoadComputeShader`: the same, with compute options left at their
      defaults. */
  function TryLoadComputeShader(fs: FileSystem, filePath: string, native: ShaderLoad): (r: Loaded<nat>)
    ensures r.after.arena.live == []
    ensures r.value.Some? ==> native.shader.Some? && r.value.value == native.shader.value
  {
    var loaded := TryLoadFile(fs, filePath, native.file);
    if loaded.value.None? then Loaded(None, loaded.after)
    else
      var file := loaded.value.value;
      var options := ComputeOptions(native.optionsArenaId);
      var outcome := Options.TrySetComputeFromFile(options, native.baseOk);
      if !outcome.0 then Loaded(None, CloseUp(loaded.after, file, outcome.1))
      else
        var asked := Emit(loaded.after, [CreateComputeShaderCall(outcome.1.fields)]);
        Loaded(native.shader, CloseUp(asked, file, outcome.1))
  }

  /** A compute shader is created exactly when the file loads, the base
      options accept it and the device succeeds; the device sees all-zero
      counts; a loaded file and the options' arena are always released. */
  lemma ComputeShaderLoaderCleansUp(fs: FileSystem, filePath: string, native: ShaderLoad)
    ensures var r := TryLoadComputeShader(fs, filePath, native);
            var fileLoaded := native.file.data != Null && native.file.poolHasFile;
            && (r.value.Some? <==> fileLoaded && native.baseOk && native.shader.Some?)
            && (fileLoaded ==>
                  var file := File(FullFilePath(fs.baseDirectory, filePath), native.file.data,
                                   TruncateToInt32(native.file.dataSize));
                  && |r.after.log| >= 3
                  && r.after.log[|r.after.log| - 2..] == [FileDisposed(file), OptionsDisposed(true)]
                  && (native.baseOk ==>
                        r.after.log[|r.after.log| - 3]
                        == CreateComputeShaderCall(Options.ComputeShader(0, 0, 0, 0, 0, 0, 0, 0, 0))))
  {
    var loaded := TryLoadFile(fs, filePath, native.file);
    assert |loaded.after.log| >= 1;
  }
}
