/**
 * The etccompress command: it picks the codec from the flags and the
 * container from the output file's suffix, rejects images it cannot
 * compress, and writes a header followed by every level of the mip chain,
 * each level half the size of the one before it.
 *
 * The image decoder, the resampler and the output file's opening are
 * parameters: the decoded image (or its absence), a function giving each
 * byte of a resampled buffer, and whether the file could be opened.
 */
module EtcCompress {
  import opened Wrappers
  import opened Bytes
  import opened Pixels
  import opened BlockGrid
  import opened Container

  datatype Failure =
    | ConflictingCodecFlags
    | UnknownOutputFormat
    | DecodeFailed
    | UnsupportedChannelCount
    | CannotOpenOutput

  /** The command line: the output file name and the two codec flags. */
  datatype Invocation = Invocation(outputFile: string, useEtc1Flag: bool, useEtc2Flag: bool)

  datatype Settings = Settings(useEtc2: bool, alpha: bool, writeKtx: bool)

  /** What the output file holds once the command succeeds. */
  datatype FileContents = FileContents(header: Header, body: seq<Byte>)

  /** What the image decoder promises of an image it returns. */
  predicate Decoded(img: Image) {
    img.Valid() && img.width >= 1 && img.height >= 1 && 1 <= img.components <= 4
  }

  predicate EndsWith(s: string, suffix: string) {
    |suffix| <= |s| && s[|s| - |suffix|..] == suffix
  }

  lemma EndsWithAppend(s: string, suffix: string)
    ensures EndsWith(s, suffix) <==> exists front :: s == front + suffix
  {
    if EndsWith(s, suffix) {
      assert s == s[..|s| - |suffix|] + suffix;
    }
    if exists front :: s == front + suffix {
      var front :| s == front + suffix;
      assert s[|s| - |suffix|..] == suffix;
    }
  }

  // ---------------------------------------------------------------------
  // Option logic
  // ---------------------------------------------------------------------

  /** The codec flags: ETC2 unless --use-etc1 is given, and not both. */
  function ChooseCodec(useEtc1Flag: bool, useEtc2Flag: bool): (r: Result<bool, Failure>)
    ensures r.Err? <==> useEtc1Flag && useEtc2Flag
    ensures r.Err? ==> r.error == ConflictingCodecFlags
    ensures r.Ok? ==> (r.value <==> !useEtc1Flag)
  {
    if useEtc1Flag && useEtc2Flag then Err(ConflictingCodecFlags)
    else Ok(!useEtc1Flag)
  }

  /** The container: KTX for a ".ktx" name, DDS for a ".dds" name. */
  function ChooseContainer(outputFile: string): (r: Result<bool, Failure>)
    ensures r == Ok(true) <==> EndsWith(outputFile, ".ktx")
    ensures r == Ok(false) <==> EndsWith(outputFile, ".dds")
    ensures r.Err? <==> !EndsWith(outputFile, ".ktx") && !EndsWith(outputFile, ".dds")
    ensures r.Err? ==> r.error == UnknownOutputFormat
  {
    if EndsWith(outputFile, ".ktx") then Ok(true)
    else if !EndsWith(outputFile, ".dds") then Err(UnknownOutputFormat)
    else Ok(false)
  }

  /**
   * The decisions main takes before writing anything, in its order: the
   * flags, the suffix, the decoding, the channel count, the opening of the
   * output file. Alpha stays false on every path.
   */
  function Configure(inv: Invocation, decoded: Option<Image>, canOpen: bool): (r: Result<(Settings, Image), Failure>)
    ensures r.Ok? ==> !r.value.0.alpha
    ensures r.Ok? ==> decoded == Some(r.value.1) && r.value.1.components in {3, 4} && canOpen
    ensures r.Ok? ==> (r.value.0.useEtc2 <==> !inv.useEtc1Flag) && !(inv.useEtc1Flag && inv.useEtc2Flag)
    ensures r.Ok? ==> (r.value.0.writeKtx <==> EndsWith(inv.outputFile, ".ktx"))
    ensures r.Ok? ==> EndsWith(inv.outputFile, ".ktx") || EndsWith(inv.outputFile, ".dds")
    ensures r == Err(ConflictingCodecFlags) <==> inv.useEtc1Flag && inv.useEtc2Flag
    ensures r == Err(UnknownOutputFormat) <==>
      (!(inv.useEtc1Flag && inv.useEtc2Flag)
       && !EndsWith(inv.outputFile, ".ktx") && !EndsWith(inv.outputFile, ".dds"))
    ensures r == Err(DecodeFailed) <==>
      (ChooseCodec(inv.useEtc1Flag, inv.useEtc2Flag).Ok? && ChooseContainer(inv.outputFile).Ok?
       && decoded.None?)
    ensures r == Err(UnsupportedChannelCount) <==>
      (ChooseCodec(inv.useEtc1Flag, inv.useEtc2Flag).Ok? && ChooseContainer(inv.outputFile).Ok?
       && decoded.Some? && decoded.value.components !in {3, 4})
    ensures r == Err(CannotOpenOutput) <==>
      (ChooseCodec(inv.useEtc1Flag, inv.useEtc2Flag).Ok? && ChooseContainer(inv.outputFile).Ok?
       && decoded.Some? && decoded.value.components in {3, 4} && !canOpen)
  {
    match ChooseCodec(inv.useEtc1Flag, inv.useEtc2Flag)
    case Err(e) => Err(e)
    case Ok(useEtc2) =>
      match ChooseContainer(inv.outputFile)
      case Err(e) => Err(e)
      case Ok(writeKtx) =>
        if decoded.None? then Err(DecodeFailed)
        else if decoded.value.components != 3 && decoded.value.components != 4 then Err(UnsupportedChannelCount)
        else if !canOpen then Err(CannotOpenOutput)
        else Ok((Settings(useEtc2, false, writeKtx), decoded.value))
  }

  // ---------------------------------------------------------------------
  // The mip chain
  // ---------------------------------------------------------------------

  function Pow2(n: nat): (p: nat)
    ensures p >= 1
  {
    if n == 0 then 1 else 2 * Pow2(n - 1)
  }

  lemma {:induction false} Pow2Mono(a: nat, b: nat)
    requires a <= b
    ensures Pow2(a) <= Pow2(b)
    decreases b
  {
    if a < b {
      Pow2Mono(a, b - 1);
    }
  }

  /** The floor of the base-2 logarithm, for the float logarithm of an integer. */
  function Log2(n: nat): (r: nat)
    requires n >= 1
    ensures Pow2(r) <= n < Pow2(r + 1)
  {
    if n == 1 then 0 else 1 + Log2(n / 2)
  }

  function Min(a: nat, b: nat): nat {
    if a <= b then a else b
  }

  /** The number of levels main writes: floor(log2(min(width, height))) + 1. */
  function MipCount(width: nat, height: nat): (count: nat)
    requires width >= 1 && height >= 1
    ensures count >= 1
    ensures Pow2(count - 1) <= Min(width, height) < Pow2(count)
  {
    Log2(Min(width, height)) + 1
  }

  /** A dimension after i iterations of the mip loop, each halving it by integer division. */
  function Halved(n: nat, i: nat): nat {
    if i == 0 then n else Halved(n, i - 1) / 2
  }

  /** The halved dimension reaches k exactly while k * 2^i still fits in the original. */
  lemma {:induction false} HalvedAtLeast(n: nat, i: nat, k: nat)
    ensures Halved(n, i) >= k <==> k * Pow2(i) <= n
    decreases i
  {
    if i > 0 {
      HalvedAtLeast(n, i - 1, 2 * k);
      assert 2 * k * Pow2(i - 1) == k * Pow2(i);
    }
  }

  lemma {:induction false} HalvedMono(a: nat, b: nat, i: nat)
    requires a <= b
    ensures Halved(a, i) <= Halved(b, i)
    decreases i
  {
    if i > 0 {
      HalvedMono(a, b, i - 1);
    }
  }

  lemma {:induction false} HalvedShrinks(n: nat, i: nat)
    ensures Halved(n, i) <= n
    decreases i
  {
    if i > 0 {
      HalvedShrinks(n, i - 1);
    }
  }

  /**
   * Every level main writes has both dimensions at least 1, and the last
   * one has a side of exactly 1: one more halving would reach 0.
   */
  lemma MipDimensions(width: nat, height: nat)
    requires width >= 1 && height >= 1
    ensures forall i :: 0 <= i < MipCount(width, height) ==> Halved(width, i) >= 1 && Halved(height, i) >= 1
    ensures Min(Halved(width, MipCount(width, height) - 1), Halved(height, MipCount(width, height) - 1)) == 1
  {
    var count, m := MipCount(width, height), Min(width, height);
    forall i | 0 <= i < count
      ensures Halved(width, i) >= 1 && Halved(height, i) >= 1
    {
      Pow2Mono(i, count - 1);
      HalvedAtLeast(width, i, 1);
      HalvedAtLeast(height, i, 1);
    }
    var last := count - 1;
    HalvedAtLeast(m, last, 1);
    HalvedAtLeast(m, last, 2);
    if width <= height {
      HalvedMono(width, height, last);
    } else {
      HalvedMono(height, width, last);
    }
  }

  /** Where the resampler keeps alpha: none for three channels, channel 3 otherwise. */
  datatype AlphaChannel = NoAlphaChannel | AlphaAt(channel: nat)

  function AlphaChannelFor(components: nat): (r: AlphaChannel)
    ensures r == NoAlphaChannel <==> components == 3
    ensures components == 4 ==> r == AlphaAt(3)
  {
    if components == 3 then NoAlphaChannel else AlphaAt(3)
  }

  /**
   * The resampler, as the byte k of the buffer it fills when scaling an
   * image to the given dimensions.
   */
  type Resampler = (Image, nat, nat, AlphaChannel, nat) -> Byte

  /** One iteration's resampling: a buffer of newWidth * newHeight * components bytes. */
  function Downsample(img: Image, resample: Resampler): (r: Image)
    ensures r.Valid()
    ensures r.width == img.width / 2 && r.height == img.height / 2 && r.components == img.components
  {
    var newWidth, newHeight := img.width / 2, img.height / 2;
    var size := newWidth * newHeight * img.components;
    var alphaChannel := AlphaChannelFor(img.components);
    Image(Resampled(img, newWidth, newHeight, alphaChannel, resample, size), newWidth, newHeight, img.components)
  }

  /** The first n bytes of the buffer the resampler fills. */
  function Resampled(img: Image, newWidth: nat, newHeight: nat, alphaChannel: AlphaChannel, resample: Resampler, n: nat)
    : (r: seq<Byte>)
    ensures |r| == n
  {
    if n == 0 then [] else Resampled(img, newWidth, newHeight, alphaChannel, resample, n - 1)
                           + [resample(img, newWidth, newHeight, alphaChannel, n - 1)]
  }

  /** The image of level i of the chain. */
  function ChainImage(base: Image, resample: Resampler, i: nat): (r: Image)
    requires base.Valid()
    ensures r.Valid() && r.components == base.components
    ensures r.width == Halved(base.width, i) && r.height == Halved(base.height, i)
  {
    if i == 0 then base else Downsample(ChainImage(base, resample, i - 1), resample)
  }

  /** The compressed bytes of level i of the chain. */
  function MipLevel(base: Image, settings: Settings, encode: Encoder, resample: Resampler, i: nat): seq<Byte>
    requires Compressible(base)
  {
    Level(ChainImage(base, resample, i), settings.useEtc2, settings.alpha, encode)
  }

  /** The compressed bytes of the first n levels, in the order the mip loop writes them. */
  function Levels(base: Image, settings: Settings, encode: Encoder, resample: Resampler, n: nat): (r: seq<seq<Byte>>)
    requires Compressible(base)
    ensures |r| == n
  {
    if n == 0 then []
    else Levels(base, settings, encode, resample, n - 1)
         + [MipLevel(base, settings, encode, resample, n - 1)]
  }

  lemma {:induction false} LevelsAt(base: Image, settings: Settings, encode: Encoder, resample: Resampler, n: nat, i: nat)
    requires Compressible(base) && i < n
    ensures Levels(base, settings, encode, resample, n)[i] == MipLevel(base, settings, encode, resample, i)
  {
    var earlier := Levels(base, settings, encode, resample, n - 1);
    var last := MipLevel(base, settings, encode, resample, n - 1);
    assert Levels(base, settings, encode, resample, n) == earlier + [last];
    if i < n - 1 {
      LevelsAt(base, settings, encode, resample, n - 1, i);
      assert (earlier + [last])[i] == earlier[i];
    }
  }

  /** The whole command, on values: the file it leaves, or why it stopped. */
  function RunSpec(inv: Invocation, decoded: Option<Image>, canOpen: bool, encode: Encoder, resample: Resampler)
    : Result<FileContents, Failure>
    requires decoded.Some? ==> Decoded(decoded.value)
  {
    match Configure(inv, decoded, canOpen)
    case Err(e) => Err(e)
    case Ok((settings, img)) =>
      var count := MipCount(img.width, img.height);
      Ok(FileContents(
        HeaderFor(settings.writeKtx, img.width, img.height, settings.alpha, count),
        FrameAll(Levels(img, settings, encode, resample, count), settings.writeKtx)))
  }

  /** The image a level is compressed from, with the resampled chain reaching level i. */
  lemma ChainStep(base: Image, resample: Resampler, i: nat, data: seq<Byte>, width: nat, height: nat)
    requires base.Valid() && Image(data, width, height, base.components) == ChainImage(base, resample, i)
    ensures Image(Downsample(Image(data, width, height, base.components), resample).data,
                  width / 2, height / 2, base.components) == ChainImage(base, resample, i + 1)
  {
  }

  /**
   * One iteration of the mip loop: resample level i's image to half its
   * size, compress it and append it to the file.
   */
  method AppendLevel(file: OutputFile, image: Image, settings: Settings, encode: Encoder, resample: Resampler,
                     i: nat, oldImage: seq<Byte>, width: nat, height: nat)
    returns (newImage: seq<Byte>)
    requires Compressible(image)
    requires Image(oldImage, width, height, image.components) == ChainImage(image, resample, i)
    requires file.body == FrameAll(Levels(image, settings, encode, resample, i + 1), settings.writeKtx)
    modifies file
    ensures Image(newImage, width / 2, height / 2, image.components) == ChainImage(image, resample, i + 1)
    ensures file.header == old(file.header)
    ensures file.body == FrameAll(Levels(image, settings, encode, resample, i + 2), settings.writeKtx)
  {
    var newWidth := width / 2;
    var newHeight := height / 2;
    newImage := Downsample(Image(oldImage, width, height, image.components), resample).data;
    ChainStep(image, resample, i, oldImage, width, height);
    var compressed := CompressImage(Image(newImage, newWidth, newHeight, image.components),
                                    settings.useEtc2, settings.alpha, encode);
    file.WriteData(compressed, settings.writeKtx);
    FrameAllAppend(Levels(image, settings, encode, resample, i + 1), compressed, settings.writeKtx);
  }

  /**
   * The mip loop of main: every iteration halves the dimensions, resamples
   * the previous level's image and appends the new level's code.
   */
  method WriteMipChain(file: OutputFile, image: Image, settings: Settings, mipMapCount: nat,
                       encode: Encoder, resample: Resampler)
    requires Compressible(image) && mipMapCount >= 1
    requires file.body == FrameAll(Levels(image, settings, encode, resample, 1), settings.writeKtx)
    modifies file
    ensures file.header == old(file.header)
    ensures file.body == FrameAll(Levels(image, settings, encode, resample, mipMapCount), settings.writeKtx)
  {
    var width, height := image.width, image.height;
    var oldImage := image.data;
    var i := 0;
    while i < mipMapCount - 1
      invariant 0 <= i <= mipMapCount - 1
      invariant Image(oldImage, width, height, image.components) == ChainImage(image, resample, i)
      invariant file.header == old(file.header)
      invariant file.body == FrameAll(Levels(image, settings, encode, resample, i + 1), settings.writeKtx)
    {
      var newImage := AppendLevel(file, image, settings, encode, resample, i, oldImage, width, height);
      width := width / 2;
      height := height / 2;
      oldImage := newImage;
      i := i + 1;
    }
    assert i + 1 == mipMapCount;
    assert Levels(image, settings, encode, resample, i + 1) == Levels(image, settings, encode, resample, mipMapCount);
  }

  /** main: the decisions, the header, then the mip loop writing one level per iteration. */
  method Run(inv: Invocation, decoded: Option<Image>, canOpen: bool, encode: Encoder, resample: Resampler)
    returns (outcome: Result<FileContents, Failure>)
    requires decoded.Some? ==> Decoded(decoded.value)
    ensures outcome == RunSpec(inv, decoded, canOpen, encode, resample)
  {
    if inv.useEtc1Flag && inv.useEtc2Flag {
      return Err(ConflictingCodecFlags);
    }
    var useEtc2 := true;
    if inv.useEtc1Flag {
      useEtc2 := false;
    }
    var alpha := false;
    var writeKtx := false;
    if EndsWith(inv.outputFile, ".ktx") {
      writeKtx := true;
    } else if !EndsWith(inv.outputFile, ".dds") {
      return Err(UnknownOutputFormat);
    }
    if decoded.None? {
      return Err(DecodeFailed);
    }
    var image := decoded.value;
    var width, height, components := image.width, image.height, image.components;
    if components == 3 {
      alpha := false;
    } else if components != 4 {
      return Err(UnsupportedChannelCount);
    }
    if !canOpen {
      return Err(CannotOpenOutput);
    }
    var file := new OutputFile();
    var settings := Settings(useEtc2, alpha, writeKtx);
    var mipMapCount := MipCount(width, height);
    if writeKtx {
      file.WriteKtxHeader(width, height, alpha, mipMapCount);
    } else {
      file.WriteDdsHeader(width, height, alpha, mipMapCount);
    }
    var compressed := CompressImage(image, useEtc2, alpha, encode);
    file.WriteData(compressed, writeKtx);
    FrameAllAppend([], compressed, writeKtx);

    WriteMipChain(file, image, settings, mipMapCount, encode, resample);
    outcome := Ok(FileContents(file.header.value, file.body));
  }

  // ---------------------------------------------------------------------
  // What the written file holds
  // ---------------------------------------------------------------------

  /** The level sizes a DDS reader derives from the header alone. */
  function DdsLevelSizes(h: Header): (sizes: seq<nat>)
    ensures |sizes| == HeaderMipCount(h)
  {
    seq(HeaderMipCount(h), i requires 0 <= i < HeaderMipCount(h) =>
      LevelSize(Halved(HeaderWidth(h), i), Halved(HeaderHeight(h), i), if HeaderAlpha(h) then 16 else 8))
  }

  /** Level i of the chain, compressed without alpha, is LevelSize(w / 2^i, h / 2^i, 8) bytes long. */
  lemma LevelLength(base: Image, settings: Settings, encode: Encoder, resample: Resampler, n: nat, i: nat)
    requires Compressible(base) && !settings.alpha && i < n
    ensures |Levels(base, settings, encode, resample, n)[i]|
         == LevelSize(Halved(base.width, i), Halved(base.height, i), 8)
  {
    LevelsAt(base, settings, encode, resample, n, i);
    LevelSizeIs(ChainImage(base, resample, i), settings.useEtc2, settings.alpha, encode);
  }

  /** No level is larger than the first. */
  lemma LevelSizeShrinks(width: nat, height: nat, i: nat)
    ensures LevelSize(Halved(width, i), Halved(height, i), 8) <= LevelSize(width, height, 8)
  {
    HalvedShrinks(width, i);
    HalvedShrinks(height, i);
    LevelSizeMono(Halved(width, i), width, Halved(height, i), height, 8);
  }

  /**
   * A DDS file holds, after its header, exactly the levels of the chain:
   * cutting the body at the sizes the header implies gives back every
   * compressed level, as many as the header's mip count.
   */
  lemma DdsHoldsChain(inv: Invocation, img: Image, canOpen: bool, encode: Encoder, resample: Resampler)
    requires Decoded(img) && RunSpec(inv, Some(img), canOpen, encode, resample).Ok?
    requires !EndsWith(inv.outputFile, ".ktx")
    ensures RunSpec(inv, Some(img), canOpen, encode, resample).value.header.Dds?
    ensures Split(RunSpec(inv, Some(img), canOpen, encode, resample).value.body,
                  DdsLevelSizes(RunSpec(inv, Some(img), canOpen, encode, resample).value.header))
         == Some(Levels(img, Settings(!inv.useEtc1Flag, false, false), encode, resample,
                        HeaderMipCount(RunSpec(inv, Some(img), canOpen, encode, resample).value.header)))
  {
    var settings := Settings(!inv.useEtc1Flag, false, false);
    var count := MipCount(img.width, img.height);
    var f := RunSpec(inv, Some(img), canOpen, encode, resample).value;
    assert Configure(inv, Some(img), canOpen) == Ok((settings, img));
    assert f.header == HeaderFor(false, img.width, img.height, false, count);
    HeaderReadBack(false, img.width, img.height, false, count);
    var levels := Levels(img, settings, encode, resample, count);
    assert Sizes(levels) == DdsLevelSizes(f.header) by {
      forall i | 0 <= i < count
        ensures Sizes(levels)[i] == DdsLevelSizes(f.header)[i]
      {
        LevelLength(img, settings, encode, resample, count, i);
      }
    }
    SplitFrameAll(levels);
  }

  /**
   * A KTX file holds, after its header, exactly the levels of the chain:
   * reading the size-prefixed levels gives back every compressed level, as
   * many as the header's mip count, when the first level is under 4 GiB.
   */
  lemma KtxHoldsChain(inv: Invocation, img: Image, canOpen: bool, encode: Encoder, resample: Resampler)
    requires Decoded(img) && RunSpec(inv, Some(img), canOpen, encode, resample).Ok?
    requires EndsWith(inv.outputFile, ".ktx")
    requires LevelSize(img.width, img.height, 8) < SizeRange
    ensures RunSpec(inv, Some(img), canOpen, encode, resample).value.header.Ktx?
    ensures Unframe(RunSpec(inv, Some(img), canOpen, encode, resample).value.body)
         == Some(Levels(img, Settings(!inv.useEtc1Flag, false, true), encode, resample,
                        HeaderMipCount(RunSpec(inv, Some(img), canOpen, encode, resample).value.header)))
  {
    var settings := Settings(!inv.useEtc1Flag, false, true);
    var count := MipCount(img.width, img.height);
    var f := RunSpec(inv, Some(img), canOpen, encode, resample).value;
    assert Configure(inv, Some(img), canOpen) == Ok((settings, img));
    assert f.header == HeaderFor(true, img.width, img.height, false, count);
    HeaderReadBack(true, img.width, img.height, false, count);
    var levels := Levels(img, settings, encode, resample, count);
    assert AllFit(levels) by {
      forall i | 0 <= i < count
        ensures |levels[i]| < SizeRange
      {
        LevelLength(img, settings, encode, resample, count, i);
        LevelSizeShrinks(img.width, img.height, i);
      }
    }
    UnframeFrameAll(levels);
  }

  /**
   * alpha is never set: whatever the image's channel count, the header
   * names the format without alpha.
   */
  lemma NeverAlpha(inv: Invocation, decoded: Option<Image>, canOpen: bool, encode: Encoder, resample: Resampler)
    requires decoded.Some? ==> Decoded(decoded.value)
    requires RunSpec(inv, decoded, canOpen, encode, resample).Ok?
    ensures !HeaderAlpha(RunSpec(inv, decoded, canOpen, encode, resample).value.header)
  {
    var img := decoded.value;
    var (settings, _) := Configure(inv, decoded, canOpen).value;
    HeaderReadBack(settings.writeKtx, img.width, img.height, false, MipCount(img.width, img.height));
  }

  /** The header does not depend on the codec the flags choose. */
  lemma HeaderIgnoresCodec(inv1: Invocation, inv2: Invocation, decoded: Option<Image>, canOpen: bool,
                           encode: Encoder, resample: Resampler)
    requires decoded.Some? ==> Decoded(decoded.value)
    requires inv1.outputFile == inv2.outputFile
    requires RunSpec(inv1, decoded, canOpen, encode, resample).Ok?
    requires RunSpec(inv2, decoded, canOpen, encode, resample).Ok?
    ensures RunSpec(inv1, decoded, canOpen, encode, resample).value.header
         == RunSpec(inv2, decoded, canOpen, encode, resample).value.header
  {
  }
}
