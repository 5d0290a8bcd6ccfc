/** GpuTexture: a native texture handle plus the description it was created
    with. A swapchain texture is one object per window whose handle and size
    the command buffer overwrites every frame. */
module GpuTextures {
  import opened Native

  datatype Texture = Texture(
    device: nat,
    handle: Ptr,
    textureType: nat,
    format: nat,
    width: int32,
    height: int32,
    layersCountOrDepth: int32,
    mipMapLevelsCount: int32,
    samplesCount: int32,
    usages: nat,
    isSwapchain: bool,
    isDisposed: bool)

  /** The one native call a texture makes itself. */
  datatype Effect = ReleaseTexture(device: nat, texture: Ptr)

  /** The constructor as written: the mip-map level count and sample count
      arguments are accepted but never stored, and the swapchain flag is a
      readonly field that nothing assigns, so it keeps its default `false`. */
  function New(
    device: nat, handle: Ptr, textureType: nat, format: nat,
    width: int32, height: int32, layersCountOrDepth: int32,
    mipMapLevelCount: int32, sampleCount: int32, usages: nat): (t: Texture)
    ensures t.handle == handle && t.device == device
    ensures t.textureType == textureType && t.format == format && t.usages == usages
    ensures t.width == width && t.height == height && t.layersCountOrDepth == layersCountOrDepth
    ensures t.mipMapLevelsCount == 0 && t.samplesCount == 0
    ensures !t.isSwapchain && !t.isDisposed
  {
    Texture(device, handle, textureType, format, width, height, layersCountOrDepth,
            0, 0, usages, false, false)
  }

  /** The constructor as its parameters and the `Dispose` guard evidently
      intend: every argument is recorded, and the swapchain flag is set for
      the per-window swapchain texture. */
  function NewIntended(
    device: nat, handle: Ptr, textureType: nat, format: nat,
    width: int32, height: int32, layersCountOrDepth: int32,
    mipMapLevelCount: int32, sampleCount: int32, usages: nat,
    isSwapchain: bool): (t: Texture)
    ensures t.handle == handle && t.device == device
    ensures t.textureType == textureType && t.format == format && t.usages == usages
    ensures t.width == width && t.height == height && t.layersCountOrDepth == layersCountOrDepth
    ensures t.mipMapLevelsCount == mipMapLevelCount && t.samplesCount == sampleCount
    ensures t.isSwapchain == isSwapchain && !t.isDisposed
  {
    Texture(device, handle, textureType, format, width, height, layersCountOrDepth,
            mipMapLevelCount, sampleCount, usages, isSwapchain, false)
  }

  /** Point the swapchain texture at this frame's native image. */
  function UpdateTextureSwapchain(t: Texture, handle: Ptr, width: int32, height: int32): (r: Texture)
    ensures r.handle == handle && r.width == width && r.height == height
    ensures r.(handle := t.handle, width := t.width, height := t.height) == t
  {
    t.(handle := handle, width := width, height := height)
  }

  datatype Disposal = Disposal(texture: Texture, effects: seq<Effect>)

  /** `Dispose`: a swapchain texture is owned by the driver and is left alone;
      any other texture releases its native handle through the base class. */
  function Dispose(t: Texture): (d: Disposal)
    ensures t.isSwapchain ==> d.effects == [] && d.texture == t
    ensures !t.isSwapchain ==> d.effects == [ReleaseTexture(t.device, t.handle)] && d.texture.isDisposed
  {
    if t.isSwapchain then Disposal(t, [])
    else Disposal(t.(isDisposed := true), [ReleaseTexture(t.device, t.handle)])
  }

  /** As written, a texture made for a window's swapchain is created through
      the same constructor and so carries no swapchain mark: disposing it
      releases a handle the driver owns, and it keeps doing so after every
      per-frame update of the handle. */
  lemma SwapchainTextureIsReleasedAsWritten(
    device: nat, handle: Ptr, textureType: nat, format: nat,
    width: int32, height: int32, layers: int32, mips: int32, samples: int32, usages: nat,
    frameHandle: Ptr, frameWidth: int32, frameHeight: int32)
    ensures var t := UpdateTextureSwapchain(
                New(device, handle, textureType, format, width, height, layers, mips, samples, usages),
                frameHandle, frameWidth, frameHeight);
            Dispose(t).effects == [ReleaseTexture(device, frameHandle)]
  {
  }

  /** As written, a texture created with one mip level and one sample reports
      zero of each. */
  lemma CreatedCountsAreDroppedAsWritten(device: nat, handle: Ptr)
    ensures var t := New(device, handle, 0, 0, 64, 64, 1, 1, 1, 0);
            t.mipMapLevelsCount == 0 && t.samplesCount == 0
  {
  }

  /** With the intended constructor, disposing the swapchain texture makes no
      native call whatever frame handle it was last given, and any other
      texture is released exactly once. */
  lemma IntendedSwapchainDisposeSkipsRelease(
    device: nat, handle: Ptr, textureType: nat, format: nat,
    width: int32, height: int32, layers: int32, mips: int32, samples: int32, usages: nat,
    isSwapchain: bool, frameHandle: Ptr, frameWidth: int32, frameHeight: int32)
    ensures var t := UpdateTextureSwapchain(
                NewIntended(device, handle, textureType, format, width, height, layers, mips, samples, usages, isSwapchain),
                frameHandle, frameWidth, frameHeight);
            && (isSwapchain ==> Dispose(t).effects == [])
            && (!isSwapchain ==> Dispose(t).effects == [ReleaseTexture(device, frameHandle)])
            && t.mipMapLevelsCount == mips && t.samplesCount == samples
  {
  }
}
