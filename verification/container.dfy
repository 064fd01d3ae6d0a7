/**
 * The two output containers of the compressor, DDS and KTX, as header
 * records, and the byte stream of compressed levels that follows the
 * header. A KTX stream prefixes every level with its size as a 32-bit
 * little-endian value; a DDS stream concatenates the levels, and a reader
 * recovers them from the sizes the header implies.
 */
module Container {
  import opened Wrappers
  import opened Bytes

  // ---------------------------------------------------------------------
  // Header records
  // ---------------------------------------------------------------------

  /** The four-character codes the DDS pixel format can carry. */
  datatype FourCc = Etc2FourCc | Etc2AlphaFourCc

  /** The bits of DdsFile::Header::flags the compressor sets. */
  datatype DdsFlag = CapsFlag | PixelFormatFlag | WidthFlag | HeightFlag

  /** The bit of DdsFile::PixelFormatHeader::flags the compressor sets. */
  datatype PixelFormatFlag = FourCcFlag

  /** The bit of DdsFile::Header::caps the compressor sets. */
  datatype DdsCap = TextureCap

  datatype DdsPixelFormat = DdsPixelFormat(
    size: nat, flags: set<PixelFormatFlag>, fourCc: FourCc,
    rgbBitCount: nat, rBitMask: nat, gBitMask: nat, bBitMask: nat, aBitMask: nat)

  /** A DDS header, preceded in the file by the magic word, kept here as a field. */
  datatype DdsHeader = DdsHeader(
    magic: nat, size: nat, flags: set<DdsFlag>, height: nat, width: nat,
    pitchOrLinearSize: nat, depth: nat, mipMapCount: nat, reserved1: seq<nat>,
    pixelFormat: DdsPixelFormat, caps: set<DdsCap>, caps2: nat, caps3: nat, caps4: nat, reserved2: nat)

  /** The OpenGL internal formats a KTX header can name. */
  datatype GlInternalFormat = CompressedRgb8Etc2 | CompressedRgba8Etc2Eac

  datatype KtxHeader = KtxHeader(
    identifier: seq<Byte>, endianness: nat, glType: nat, glTypeSize: nat, glFormat: nat,
    glInternalFormat: GlInternalFormat, glBaseInternalFormat: nat,
    pixelWidth: nat, pixelHeight: nat, pixelDepth: nat,
    numberOfArrayElements: nat, numberOfFaces: nat, numberOfMipmapLevels: nat,
    bytesOfKeyValueData: nat)

  datatype Header = Dds(dds: DdsHeader) | Ktx(ktx: KtxHeader)

  const DdsMagic: nat := 0x20534444
  const DdsHeaderSize: nat := 124
  const KtxEndianness: nat := 0x04030201

  /**
   * The file identifier of KTX 1.0: the characters «KTX 11» framed by guard bytes. The program
   * copies it from the header library, which is not part of this model.
   */
  const KtxIdentifier: seq<Byte> := [0xAB, 0x4B, 0x54, 0x58, 0x20, 0x31, 0x31, 0xBB, 0x0D, 0x0A, 0x1A, 0x0A]

  /** The DDS header WriteDdsHeader writes. */
  function DdsHeaderFor(width: nat, height: nat, alpha: bool, mipmapCount: nat): (h: DdsHeader)
    ensures h.magic == DdsMagic && h.size == DdsHeaderSize
    ensures h.flags == {CapsFlag, PixelFormatFlag, WidthFlag, HeightFlag} && h.caps == {TextureCap}
    ensures h.width == width && h.height == height && h.depth == 1 && h.mipMapCount == mipmapCount
    ensures h.pixelFormat.size == 32 && h.pixelFormat.flags == {FourCcFlag}
    ensures h.pixelFormat.fourCc == Etc2AlphaFourCc <==> alpha
    ensures |h.reserved1| == 11 && forall i :: 0 <= i < 11 ==> h.reserved1[i] == 0
  {
    DdsHeader(
      DdsMagic, DdsHeaderSize, {CapsFlag, PixelFormatFlag, WidthFlag, HeightFlag}, height, width,
      0, 1, mipmapCount, seq(11, _ => 0),
      DdsPixelFormat(32, {FourCcFlag}, if alpha then Etc2AlphaFourCc else Etc2FourCc, 0, 0, 0, 0, 0),
      {TextureCap}, 0, 0, 0, 0)
  }

  /** The KTX header WriteKtxHeader writes. */
  function KtxHeaderFor(width: nat, height: nat, alpha: bool, mipmapCount: nat): (h: KtxHeader)
    ensures h.identifier == KtxIdentifier && h.endianness == KtxEndianness
    ensures h.glType == 0 && h.glTypeSize == 1 && h.glFormat == 0 && h.glBaseInternalFormat == 0
    ensures h.glInternalFormat == CompressedRgba8Etc2Eac <==> alpha
    ensures h.pixelWidth == width && h.pixelHeight == height && h.pixelDepth == 1
    ensures h.numberOfArrayElements == 1 && h.numberOfFaces == 1
    ensures h.numberOfMipmapLevels == mipmapCount && h.bytesOfKeyValueData == 0
  {
    KtxHeader(
      KtxIdentifier, KtxEndianness, 0, 1, 0,
      if alpha then CompressedRgba8Etc2Eac else CompressedRgb8Etc2, 0,
      width, height, 1, 1, 1, mipmapCount, 0)
  }

  /** The header of the chosen container; the codec plays no part in it. */
  function HeaderFor(writeKtx: bool, width: nat, height: nat, alpha: bool, mipmapCount: nat): (h: Header)
    ensures h.Ktx? <==> writeKtx
  {
    if writeKtx then Ktx(KtxHeaderFor(width, height, alpha, mipmapCount))
    else Dds(DdsHeaderFor(width, height, alpha, mipmapCount))
  }

  // What a reader learns from a header.

  function HeaderWidth(h: Header): nat {
    if h.Ktx? then h.ktx.pixelWidth else h.dds.width
  }

  function HeaderHeight(h: Header): nat {
    if h.Ktx? then h.ktx.pixelHeight else h.dds.height
  }

  function HeaderMipCount(h: Header): nat {
    if h.Ktx? then h.ktx.numberOfMipmapLevels else h.dds.mipMapCount
  }

  predicate HeaderAlpha(h: Header) {
    if h.Ktx? then h.ktx.glInternalFormat == CompressedRgba8Etc2Eac else h.dds.pixelFormat.fourCc == Etc2AlphaFourCc
  }

  /** A reader recovers the dimensions, the level count and the alpha format from either header. */
  lemma HeaderReadBack(writeKtx: bool, width: nat, height: nat, alpha: bool, mipmapCount: nat)
    ensures HeaderWidth(HeaderFor(writeKtx, width, height, alpha, mipmapCount)) == width
    ensures HeaderHeight(HeaderFor(writeKtx, width, height, alpha, mipmapCount)) == height
    ensures HeaderMipCount(HeaderFor(writeKtx, width, height, alpha, mipmapCount)) == mipmapCount
    ensures HeaderAlpha(HeaderFor(writeKtx, width, height, alpha, mipmapCount)) <==> alpha
  {
  }

  // ---------------------------------------------------------------------
  // Level framing
  // ---------------------------------------------------------------------

  const SizeRange: nat := 0x1_0000_0000

  /** The four bytes of a 32-bit value, least significant first. */
  function Le32(v: nat): (b: seq<Byte>)
    requires v < SizeRange
    ensures |b| == 4
  {
    [v % 0x100, (v / 0x100) % 0x100, (v / 0x1_0000) % 0x100, v / 0x100_0000]
  }

  function ReadLe32(b: seq<Byte>): (v: nat)
    requires |b| == 4
    ensures v < SizeRange
  {
    b[0] as int + 0x100 * (b[1] as int) + 0x1_0000 * (b[2] as int) + 0x100_0000 * (b[3] as int)
  }

  lemma Le32RoundTrip(v: nat)
    requires v < SizeRange
    ensures ReadLe32(Le32(v)) == v
  {
    var b := Le32(v);
    assert v == v % 0x100 + 0x100 * (v / 0x100);
    assert v / 0x100 == (v / 0x100) % 0x100 + 0x100 * (v / 0x1_0000);
    assert v / 0x1_0000 == (v / 0x1_0000) % 0x100 + 0x100 * (v / 0x100_0000);
  }

  /**
   * The bytes WriteData appends for one level: with writeSize, the size
   * (the vector's size stored in a uint32_t, so truncated to 32 bits) in
   * little-endian order, then the data.
   */
  function Frame(data: seq<Byte>, writeSize: bool): (r: seq<Byte>)
  {
    if writeSize then Le32(|data| % SizeRange) + data else data
  }

  /** The bytes of several levels written one after another. */
  function FrameAll(levels: seq<seq<Byte>>, writeSize: bool): seq<Byte>
  {
    if levels == [] then [] else Frame(levels[0], writeSize) + FrameAll(levels[1..], writeSize)
  }

  lemma {:induction false} FrameAllAppend(levels: seq<seq<Byte>>, level: seq<Byte>, writeSize: bool)
    ensures FrameAll(levels + [level], writeSize) == FrameAll(levels, writeSize) + Frame(level, writeSize)
    decreases |levels|
  {
    if levels == [] {
      assert [level][1..] == [];
    } else {
      assert (levels + [level])[1..] == levels[1..] + [level];
      FrameAllAppend(levels[1..], level, writeSize);
    }
  }

  /** A KTX reader: split a stream into size-prefixed levels. */
  function Unframe(stream: seq<Byte>): (r: Option<seq<seq<Byte>>>)
    decreases |stream|
  {
    if stream == [] then Some([])
    else if |stream| < 4 then None
    else
      var size := ReadLe32(stream[..4]);
      if |stream| - 4 < size then None
      else match Unframe(stream[4 + size..])
        case None => None
        case Some(rest) => Some([stream[4..4 + size]] + rest)
  }

  predicate AllFit(levels: seq<seq<Byte>>) {
    forall i :: 0 <= i < |levels| ==> |levels[i]| < SizeRange
  }

  /** Reading one size-prefixed level off the front of a stream. */
  lemma UnframeCons(first: seq<Byte>, rest: seq<Byte>)
    requires |first| < SizeRange
    ensures Unframe(Le32(|first|) + first + rest)
         == match Unframe(rest) case None => None case Some(levels) => Some([first] + levels)
  {
    var stream := Le32(|first|) + first + rest;
    Le32RoundTrip(|first|);
    assert stream[..4] == Le32(|first|);
    assert stream[4..4 + |first|] == first;
    assert stream[4 + |first|..] == rest;
  }

  /** Size-prefixed levels split back into the levels, as long as each is under 4 GiB. */
  lemma {:induction false} UnframeFrameAll(levels: seq<seq<Byte>>)
    requires AllFit(levels)
    ensures Unframe(FrameAll(levels, true)) == Some(levels)
    decreases |levels|
  {
    if levels != [] {
      var first, rest := levels[0], levels[1..];
      assert |first| < SizeRange;
      assert |first| % SizeRange == |first|;
      assert Frame(first, true) == Le32(|first|) + first;
      assert FrameAll(levels, true) == Frame(first, true) + FrameAll(rest, true);
      assert AllFit(rest) by {
        forall i | 0 <= i < |rest| ensures |rest[i]| < SizeRange {
          assert rest[i] == levels[i + 1];
        }
      }
      UnframeFrameAll(rest);
      UnframeCons(first, FrameAll(rest, true));
      assert [first] + rest == levels;
    }
  }

  /** A DDS reader: cut a stream into pieces of the given sizes, with nothing left over. */
  function Split(stream: seq<Byte>, sizes: seq<nat>): (r: Option<seq<seq<Byte>>>)
    ensures r.Some? ==> |r.value| == |sizes|
    decreases |sizes|
  {
    if sizes == [] then (if stream == [] then Some([]) else None)
    else if |stream| < sizes[0] then None
    else match Split(stream[sizes[0]..], sizes[1..])
      case None => None
      case Some(rest) => Some([stream[..sizes[0]]] + rest)
  }

  function Sizes(levels: seq<seq<Byte>>): (sizes: seq<nat>)
    ensures |sizes| == |levels| && forall i :: 0 <= i < |levels| ==> sizes[i] == |levels[i]|
  {
    seq(|levels|, i requires 0 <= i < |levels| => |levels[i]|)
  }

  /** Unprefixed levels split back into the levels given their sizes. */
  lemma {:induction false} SplitFrameAll(levels: seq<seq<Byte>>)
    ensures Split(FrameAll(levels, false), Sizes(levels)) == Some(levels)
    decreases |levels|
  {
    if levels != [] {
      var first, rest := levels[0], FrameAll(levels[1..], false);
      assert FrameAll(levels, false) == first + rest;
      assert (first + rest)[..|first|] == first;
      assert (first + rest)[|first|..] == rest;
      assert Sizes(levels)[1..] == Sizes(levels[1..]);
      SplitFrameAll(levels[1..]);
      assert [first] + levels[1..] == levels;
    }
  }

  // ---------------------------------------------------------------------
  // The output file
  // ---------------------------------------------------------------------

  /**
   * The output file: the header written at its start, and the bytes
   * written after it. Every write succeeds.
   */
  class OutputFile {
    var header: Option<Header>
    var body: seq<Byte>

    constructor()
      ensures header == None && body == []
    {
      header := None;
      body := [];
    }

    method WriteDdsHeader(width: nat, height: nat, alpha: bool, mipmapCount: nat)
      modifies this
      ensures header == Some(Dds(DdsHeaderFor(width, height, alpha, mipmapCount)))
      ensures body == old(body)
    {
      header := Some(Dds(DdsHeaderFor(width, height, alpha, mipmapCount)));
    }

    method WriteKtxHeader(width: nat, height: nat, alpha: bool, mipmapCount: nat)
      modifies this
      ensures header == Some(Ktx(KtxHeaderFor(width, height, alpha, mipmapCount)))
      ensures body == old(body)
    {
      header := Some(Ktx(KtxHeaderFor(width, height, alpha, mipmapCount)));
    }

    /** Appends one level, with its 32-bit size in front when writeSize is set. */
    method WriteData(data: seq<Byte>, writeSize: bool)
      modifies this
      ensures header == old(header)
      ensures body == old(body) + Frame(data, writeSize)
    {
      if writeSize {
        var size := |data| % SizeRange;
        body := body + Le32(size);
      }
      body := body + data;
    }
  }
}
