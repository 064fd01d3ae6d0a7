/**
 * CompressImage: one mip level is cut into 4x4 blocks, each block's pixels
 * are gathered with edge clamping, and the codec's output for the block is
 * written into a fixed slot of the level buffer. Block rows are laid out top
 * to bottom, blocks left to right within a row.
 */
module BlockGrid {
  import opened Bytes
  import opened Pixels

  /** The three block encoders: ETC1, ETC2 RGB8 and ETC2 RGBA8 (EAC alpha). */
  datatype Codec = Etc1 | Etc2Rgb | Etc2Rgba

  /**
   * The block encoder libraries, left opaque: byte k of the code the given
   * codec produces for a block of 16 pixels. The packing parameters are fixed
   * for the whole run and folded into this function.
   */
  type Encoder = (Codec, seq<Pixel>, nat) -> Byte

  /** The encoder CompressImage calls for its flags. */
  function SelectCodec(useEtc2: bool, alpha: bool): (c: Codec)
    ensures c == Etc1 <==> !useEtc2
    ensures c == Etc2Rgba <==> useEtc2 && alpha
    ensures c == Etc2Rgb <==> useEtc2 && !alpha
  {
    if !useEtc2 then Etc1 else if alpha then Etc2Rgba else Etc2Rgb
  }

  /** Bytes one block code occupies: 128 bits for RGBA8, 64 bits otherwise. */
  function CodeSize(codec: Codec): nat {
    if codec == Etc2Rgba then 16 else 8
  }

  /**
   * The slot size CompressImage allocates per block; it is exactly what the
   * selected encoder writes, and 16 only for ETC2 with alpha.
   */
  function BlockSize(useEtc2: bool, alpha: bool): (n: nat)
    ensures n == CodeSize(SelectCodec(useEtc2, alpha))
    ensures n == 16 <==> useEtc2 && alpha
    ensures n == 8 || n == 16
  {
    if useEtc2 && alpha then 16 else 8
  }

  /** Number of 4-pixel blocks needed to cover n pixels: the ceiling of n / 4. */
  function BlocksAcross(n: nat): (b: nat)
    ensures n <= 4 * b < n + 4
    ensures b > 0 <==> n > 0
  {
    (n + 3) / 4
  }

  /** Size of a compressed level of a width x height image. */
  function LevelSize(width: nat, height: nat, blockSize: nat): nat {
    BlocksAcross(width) * BlocksAcross(height) * blockSize
  }

  /** Offset of the block anchored at pixel (x, y), both multiples of 4. */
  function BlockOffset(width: nat, x: nat, y: nat, blockSize: nat): nat {
    ((y / 4) * BlocksAcross(width) + x / 4) * blockSize
  }

  /** Images a level can be compressed from. */
  predicate Compressible(img: Image) {
    img.Supported()
  }

  /**
   * The 16 pixels of the block anchored at (x, y): sample blockY * 4 + blockX
   * is the clamped pixel at (x + blockX, y + blockY).
   */
  function BlockPixels(img: Image, x: nat, y: nat): (block: seq<Pixel>)
    requires Compressible(img) && img.width >= 1 && img.height >= 1
    ensures |block| == 16
  {
    seq(16, k requires 0 <= k < 16 => BlockSample(img, x, y, k))
  }

  /** Sample k of the block anchored at (x, y): column k % 4, row k / 4 of the window. */
  function BlockSample(img: Image, x: nat, y: nat, k: nat): Pixel
    requires Compressible(img) && img.width >= 1 && img.height >= 1
  {
    GetPixelClamped(img, x + k % 4, y + k / 4)
  }

  /** The code the encoder produces for the block anchored at (x, y). */
  function BlockCode(img: Image, codec: Codec, encode: Encoder, x: nat, y: nat): (code: seq<Byte>)
    requires Compressible(img) && img.width >= 1 && img.height >= 1
    ensures |code| == CodeSize(codec)
  {
    var block := BlockPixels(img, x, y);
    seq(CodeSize(codec), k requires 0 <= k => encode(codec, block, k))
  }

  /** The codes of the first n blocks of block row cy, left to right. */
  function Row(img: Image, codec: Codec, encode: Encoder, cy: nat, n: nat): seq<Byte>
    requires Compressible(img) && cy < BlocksAcross(img.height) && n <= BlocksAcross(img.width)
  {
    if n == 0 then []
    else Row(img, codec, encode, cy, n - 1) + BlockCode(img, codec, encode, 4 * (n - 1), 4 * cy)
  }

  /** The codes of the first m block rows, top to bottom. */
  function Rows(img: Image, codec: Codec, encode: Encoder, m: nat): seq<Byte>
    requires Compressible(img) && m <= BlocksAcross(img.height)
  {
    if m == 0 then []
    else Rows(img, codec, encode, m - 1) + Row(img, codec, encode, m - 1, BlocksAcross(img.width))
  }

  lemma {:induction false} RowLength(img: Image, codec: Codec, encode: Encoder, cy: nat, n: nat)
    requires Compressible(img) && cy < BlocksAcross(img.height) && n <= BlocksAcross(img.width)
    ensures |Row(img, codec, encode, cy, n)| == n * CodeSize(codec)
  {
    if n > 0 {
      RowLength(img, codec, encode, cy, n - 1);
      Distrib(n - 1, 1, CodeSize(codec));
    }
  }

  lemma {:induction false} RowsLength(img: Image, codec: Codec, encode: Encoder, m: nat)
    requires Compressible(img) && m <= BlocksAcross(img.height)
    ensures |Rows(img, codec, encode, m)| == m * (BlocksAcross(img.width) * CodeSize(codec))
  {
    if m > 0 {
      RowsLength(img, codec, encode, m - 1);
      RowLength(img, codec, encode, m - 1, BlocksAcross(img.width));
      Distrib(m - 1, 1, BlocksAcross(img.width) * CodeSize(codec));
    }
  }

  /** The compressed level: every block's code, in block-grid order. */
  function Level(img: Image, useEtc2: bool, alpha: bool, encode: Encoder): seq<Byte>
    requires Compressible(img)
  {
    Rows(img, SelectCodec(useEtc2, alpha), encode, BlocksAcross(img.height))
  }

  // ---------------------------------------------------------------------
  // Arithmetic of the block grid

  lemma Distrib(a: int, b: int, c: int)
    ensures (a + b) * c == a * c + b * c
  {}

  lemma Assoc(a: int, b: int, c: int)
    ensures a * (b * c) == a * b * c
  {}

  /** A block in row cy, column cx ends inside a grid of rows x cols blocks. */
  lemma SlotFits(cy: nat, cx: nat, rows: nat, cols: nat, size: nat)
    requires cy < rows && cx < cols
    ensures (cy * cols + cx) * size + size <= cols * rows * size
  {
    assert cy * cols + cx + 1 <= (cy + 1) * cols;
    MulMono(cy + 1, rows, cols);
    MulMono(cy * cols + cx + 1, rows * cols, size);
  }

  lemma FullGrid(rows: nat, cols: nat, size: nat)
    ensures rows * cols * size == cols * rows * size
  {}

  /** A level of a smaller image takes no more bytes. */
  lemma LevelSizeMono(w1: nat, w2: nat, h1: nat, h2: nat, blockSize: nat)
    requires w1 <= w2 && h1 <= h2
    ensures LevelSize(w1, h1, blockSize) <= LevelSize(w2, h2, blockSize)
  {
    var a1, a2, b1, b2 := BlocksAcross(w1), BlocksAcross(w2), BlocksAcross(h1), BlocksAcross(h2);
    assert a1 <= a2 && b1 <= b2;
    MulMono(a1, a2, b1);
    MulMono(b1, b2, a2);
    assert a1 * b1 <= a2 * b2;
    MulMono(a1 * b1, a2 * b2, blockSize);
  }

  /** The a / b and a % b of a == q * b + r with 0 <= r < b. */
  lemma DivModUnique(a: int, b: int, q: int, r: int)
    requires b > 0 && 0 <= r < b && a == q * b + r
    ensures a / b == q && a % b == r
  {
    var q', r' := a / b, a % b;
    assert a == q' * b + r';
    if q' < q {
      MulMono(q' + 1, q, b);
      assert false;
    } else if q < q' {
      MulMono(q + 1, q', b);
      assert false;
    }
  }

  /** Size of a compressed level. */
  lemma LevelSizeIs(img: Image, useEtc2: bool, alpha: bool, encode: Encoder)
    requires Compressible(img)
    ensures |Level(img, useEtc2, alpha, encode)| == LevelSize(img.width, img.height, BlockSize(useEtc2, alpha))
  {
    var cols, rows, bs := BlocksAcross(img.width), BlocksAcross(img.height), BlockSize(useEtc2, alpha);
    RowsLength(img, SelectCodec(useEtc2, alpha), encode, rows);
    Assoc(rows, cols, bs);
  }

  /** Byte k of block cx's code sits at cx * size + k in a row holding n > cx blocks. */
  lemma {:induction false} RowAt(img: Image, codec: Codec, encode: Encoder, cy: nat, n: nat, cx: nat, k: nat)
    requires Compressible(img) && cy < BlocksAcross(img.height) && cx < n <= BlocksAcross(img.width)
    requires k < CodeSize(codec)
    ensures cx * CodeSize(codec) + k < |Row(img, codec, encode, cy, n)|
    ensures Row(img, codec, encode, cy, n)[cx * CodeSize(codec) + k] == BlockCode(img, codec, encode, 4 * cx, 4 * cy)[k]
    decreases n
  {
    var bs := CodeSize(codec);
    var prev := Row(img, codec, encode, cy, n - 1);
    RowLength(img, codec, encode, cy, n - 1);
    RowLength(img, codec, encode, cy, n);
    MulMono(cx + 1, n, bs);
    if cx < n - 1 {
      RowAt(img, codec, encode, cy, n - 1, cx, k);
      MulMono(cx + 1, n - 1, bs);
    } else {
      assert |prev| == cx * bs;
    }
  }

  /** Byte j of block row cy sits at cy * rowSize + j in the first m > cy rows. */
  lemma {:induction false} RowsAt(img: Image, codec: Codec, encode: Encoder, m: nat, cy: nat, j: nat)
    requires Compressible(img) && cy < m <= BlocksAcross(img.height)
    requires j < BlocksAcross(img.width) * CodeSize(codec)
    ensures |Row(img, codec, encode, cy, BlocksAcross(img.width))| == BlocksAcross(img.width) * CodeSize(codec)
    ensures cy * (BlocksAcross(img.width) * CodeSize(codec)) + j < |Rows(img, codec, encode, m)|
    ensures Rows(img, codec, encode, m)[cy * (BlocksAcross(img.width) * CodeSize(codec)) + j]
         == Row(img, codec, encode, cy, BlocksAcross(img.width))[j]
    decreases m
  {
    var rowSize := BlocksAcross(img.width) * CodeSize(codec);
    RowsLength(img, codec, encode, m - 1);
    RowsLength(img, codec, encode, m);
    RowLength(img, codec, encode, m - 1, BlocksAcross(img.width));
    MulMono(cy + 1, m, rowSize);
    if cy < m - 1 {
      RowsAt(img, codec, encode, m - 1, cy, j);
      MulMono(cy + 1, m - 1, rowSize);
    } else {
      assert |Rows(img, codec, encode, m - 1)| == cy * rowSize;
    }
  }

  /**
   * The block anchored at (x, y) sits at BlockOffset(width, x, y, blockSize)
   * in the level: byte k of that slot is byte k of the block's code.
   */
  lemma LevelBlockAt(img: Image, useEtc2: bool, alpha: bool, encode: Encoder, x: nat, y: nat, k: nat)
    requires Compressible(img) && x < img.width && y < img.height && x % 4 == 0 && y % 4 == 0
    requires k < BlockSize(useEtc2, alpha)
    ensures BlockOffset(img.width, x, y, BlockSize(useEtc2, alpha)) + k < |Level(img, useEtc2, alpha, encode)|
    ensures Level(img, useEtc2, alpha, encode)[BlockOffset(img.width, x, y, BlockSize(useEtc2, alpha)) + k]
         == BlockCode(img, SelectCodec(useEtc2, alpha), encode, x, y)[k]
  {
    var codec := SelectCodec(useEtc2, alpha);
    var cols, bs := BlocksAcross(img.width), CodeSize(codec);
    var cx, cy := x / 4, y / 4;
    assert 4 * cx == x && 4 * cy == y;
    RowAt(img, codec, encode, cy, cols, cx, k);
    RowsAt(img, codec, encode, BlocksAcross(img.height), cy, cx * bs + k);
    assert BlockOffset(img.width, x, y, bs) == (cy * cols + cx) * bs;
    Distrib(cy * cols, cx, bs);
    Assoc(cy, cols, bs);
  }

  /** Slots of two distinct grid cells do not overlap. */
  lemma SlotsDisjoint(cols: nat, size: nat, cx1: nat, cy1: nat, cx2: nat, cy2: nat)
    requires size > 0 && cx1 < cols && cx2 < cols && (cx1, cy1) != (cx2, cy2)
    ensures (cy1 * cols + cx1) * size + size <= (cy2 * cols + cx2) * size
         || (cy2 * cols + cx2) * size + size <= (cy1 * cols + cx1) * size
  {
    var i1, i2 := cy1 * cols + cx1, cy2 * cols + cx2;
    if i1 == i2 {
      DivModUnique(i1, cols, cy1, cx1);
      DivModUnique(i2, cols, cy2, cx2);
    } else if i1 < i2 {
      MulMono(i1 + 1, i2, size);
    } else {
      MulMono(i2 + 1, i1, size);
    }
  }

  /** Two distinct block anchors own disjoint byte ranges. */
  lemma BlockRangesDisjoint(width: nat, height: nat, blockSize: nat, x1: nat, y1: nat, x2: nat, y2: nat)
    requires blockSize > 0
    requires x1 < width && y1 < height && x1 % 4 == 0 && y1 % 4 == 0
    requires x2 < width && y2 < height && x2 % 4 == 0 && y2 % 4 == 0
    requires (x1, y1) != (x2, y2)
    ensures BlockOffset(width, x1, y1, blockSize) + blockSize <= BlockOffset(width, x2, y2, blockSize)
         || BlockOffset(width, x2, y2, blockSize) + blockSize <= BlockOffset(width, x1, y1, blockSize)
  {
    assert (x1 / 4, y1 / 4) != (x2 / 4, y2 / 4);
    SlotsDisjoint(BlocksAcross(width), blockSize, x1 / 4, y1 / 4, x2 / 4, y2 / 4);
  }

  /** Byte j of a cols x rows grid of slots lies in the slot of cell ((j / size) % cols, (j / size) / cols). */
  lemma SlotOfByte(cols: nat, rows: nat, size: nat, j: nat)
    requires size > 0 && j < cols * rows * size
    ensures cols > 0
    ensures (j / size) % cols < cols && (j / size) / cols < rows
    ensures ((j / size) / cols * cols + (j / size) % cols) * size <= j
    ensures j < ((j / size) / cols * cols + (j / size) % cols) * size + size
  {
    var i := j / size;
    assert cols > 0;
    DivModUnique(j, size, i, j % size);
    var cx, cy := i % cols, i / cols;
    DivModUnique(i, cols, cy, cx);
    if cy >= rows {
      MulMono(rows, cy, cols);
      MulMono(rows * cols, i, size);
      FullGrid(rows, cols, size);
      assert false;
    }
  }

  /**
   * Every byte j of the level buffer lies in the slot of one block, the one
   * anchored at the position OwnerX / OwnerY compute from j.
   */
  function OwnerX(width: nat, blockSize: nat, j: nat): nat
    requires blockSize > 0 && width > 0
  {
    4 * ((j / blockSize) % BlocksAcross(width))
  }

  function OwnerY(width: nat, blockSize: nat, j: nat): nat
    requires blockSize > 0 && width > 0
  {
    4 * ((j / blockSize) / BlocksAcross(width))
  }

  lemma BlockRangesCover(width: nat, height: nat, blockSize: nat, j: nat)
    requires blockSize > 0 && j < LevelSize(width, height, blockSize)
    ensures width > 0 && height > 0
    ensures OwnerX(width, blockSize, j) < width && OwnerY(width, blockSize, j) < height
    ensures OwnerX(width, blockSize, j) % 4 == 0 && OwnerY(width, blockSize, j) % 4 == 0
    ensures BlockOffset(width, OwnerX(width, blockSize, j), OwnerY(width, blockSize, j), blockSize) <= j
    ensures j < BlockOffset(width, OwnerX(width, blockSize, j), OwnerY(width, blockSize, j), blockSize) + blockSize
  {
    var cols, rows := BlocksAcross(width), BlocksAcross(height);
    SlotOfByte(cols, rows, blockSize, j);
    assert rows > 0;
  }

  // ---------------------------------------------------------------------
  // The compressor

  /** Sample blockY * 4 + blockX of a window is at column blockX, row blockY. */
  lemma WindowIndex(blockX: nat, blockY: nat)
    requires blockX < 4
    ensures (blockY * 4 + blockX) % 4 == blockX && (blockY * 4 + blockX) / 4 == blockY
  {}

  /**
   * The pixel-block copy of one compression task: sample blockY * 4 + blockX
   * is the clamped pixel at (x + blockX, y + blockY).
   */
  method GatherBlock(img: Image, x: nat, y: nat) returns (block: seq<Pixel>)
    requires Compressible(img) && img.width >= 1 && img.height >= 1
    ensures |block| == 16
    ensures forall k :: 0 <= k < 16 ==> block[k] == GetPixelClamped(img, x + k % 4, y + k / 4)
    ensures block == BlockPixels(img, x, y)
  {
    var pixelBlock := new Pixel[16];
    for blockY := 0 to 4
      invariant forall k :: 0 <= k < 4 * blockY ==> pixelBlock[k] == BlockSample(img, x, y, k)
    {
      for blockX := 0 to 4
        invariant forall k :: 0 <= k < 4 * blockY + blockX ==> pixelBlock[k] == BlockSample(img, x, y, k)
      {
        WindowIndex(blockX, blockY);
        pixelBlock[blockY * 4 + blockX] := GetPixelClamped(img, x + blockX, y + blockY);
      }
    }
    block := pixelBlock[..];
  }

  /**
   * One compression task: gather the block anchored at (x, y) and let the
   * encoder write its code at buffer[destination..]; nothing else changes.
   */
  method CompressBlock(img: Image, codec: Codec, encode: Encoder, x: nat, y: nat, buffer: array<Byte>, destination: nat)
    requires Compressible(img) && img.width >= 1 && img.height >= 1
    requires destination + CodeSize(codec) <= buffer.Length
    modifies buffer
    ensures buffer[destination..destination + CodeSize(codec)] == BlockCode(img, codec, encode, x, y)
    ensures buffer[..destination] == old(buffer[..destination])
    ensures buffer[destination + CodeSize(codec)..] == old(buffer[destination + CodeSize(codec)..])
  {
    var pixelBlock := GatherBlock(img, x, y);
    forall k | 0 <= k < CodeSize(codec) {
      buffer[destination + k] := encode(codec, pixelBlock, k);
    }
  }

  /** The slot of block (cx, cy) follows rows 0..cy-1 and blocks 0..cx-1 of row cy, inside the buffer. */
  lemma SlotInBuffer(img: Image, codec: Codec, encode: Encoder, cy: nat, cx: nat)
    requires Compressible(img) && cy < BlocksAcross(img.height) && cx < BlocksAcross(img.width)
    ensures |Rows(img, codec, encode, cy)| + |Row(img, codec, encode, cy, cx)| + CodeSize(codec)
            <= LevelSize(img.width, img.height, CodeSize(codec))
  {
    var cols, rows, bs := BlocksAcross(img.width), BlocksAcross(img.height), CodeSize(codec);
    RowsLength(img, codec, encode, cy);
    RowLength(img, codec, encode, cy, cx);
    Assoc(cy, cols, bs);
    Distrib(cy * cols, cx, bs);
    SlotFits(cy, cx, rows, cols, bs);
  }

  /**
   * The inner loop of CompressImage over block row cy (pixel row y): a task
   * per block, left to right, each writing the next slot.
   */
  method CompressBlockRow(img: Image, codec: Codec, encode: Encoder, y: nat, ghost cy: nat, buffer: array<Byte>, start: nat)
    returns (destination: nat)
    requires Compressible(img) && y < img.height && y == 4 * cy
    requires buffer.Length == LevelSize(img.width, img.height, CodeSize(codec))
    requires start <= buffer.Length && buffer[..start] == Rows(img, codec, encode, cy)
    modifies buffer
    ensures destination <= buffer.Length && buffer[..destination] == Rows(img, codec, encode, cy + 1)
    ensures buffer[destination..] == old(buffer[destination..])
  {
    var blockSize := CodeSize(codec);
    destination := start;
    var x: nat := 0;
    ghost var cx: nat := 0;
    while x < img.width
      invariant x == 4 * cx && cx <= BlocksAcross(img.width)
      invariant destination <= buffer.Length
      invariant buffer[..destination] == Rows(img, codec, encode, cy) + Row(img, codec, encode, cy, cx)
      invariant buffer[destination..] == old(buffer[destination..])
    {
      SlotInBuffer(img, codec, encode, cy, cx);
      ghost var before := buffer[..destination];
      CompressBlock(img, codec, encode, x, y, buffer, destination);
      assert buffer[..destination + blockSize] == before + BlockCode(img, codec, encode, x, y);
      destination := destination + blockSize;
      x := x + 4;
      cx := cx + 1;
    }
  }

  /**
   * CompressImage: the level buffer holds ceil(w/4) * ceil(h/4) slots of
   * BlockSize bytes, and the slot of every block holds the code of that
   * block's clamped pixels (see LevelBlockAt). The tasks the program enqueues are
   * run here as they are enqueued; BlockJobs shows any order gives this too.
   */
  method CompressImage(img: Image, useEtc2: bool, alpha: bool, encode: Encoder) returns (output: seq<Byte>)
    requires Compressible(img)
    ensures |output| == LevelSize(img.width, img.height, BlockSize(useEtc2, alpha))
    ensures output == Level(img, useEtc2, alpha, encode)
  {
    var blockSize := BlockSize(useEtc2, alpha);
    var codec := SelectCodec(useEtc2, alpha);
    var buffer := new Byte[BlocksAcross(img.width) * BlocksAcross(img.height) * blockSize];
    var destination: nat := 0;
    var y: nat := 0;
    ghost var cy: nat := 0;
    while y < img.height
      invariant y == 4 * cy && cy <= BlocksAcross(img.height)
      invariant destination <= buffer.Length
      invariant buffer[..destination] == Rows(img, codec, encode, cy)
    {
      destination := CompressBlockRow(img, codec, encode, y, cy, buffer, destination);
      y := y + 4;
      cy := cy + 1;
    }
    LevelSizeIs(img, useEtc2, alpha, encode);
    output := buffer[..];
    assert output == buffer[..destination];
  }
}
