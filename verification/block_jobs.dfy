/**
 * The block tasks of CompressImage as the task dispatcher sees them: each
 * task writes one block's code at its own precomputed slot, and the tasks of
 * a level may run in any order. Because the slots are disjoint and tile the
 * buffer, every order of the tasks leaves the same buffer, the level that
 * CompressImage returns.
 */
module BlockJobs {
  import opened Bytes
  import opened Pixels
  import opened BlockGrid

  /** One compression task: the column and row of its block in the block grid. */
  datatype Job = Job(cx: nat, cy: nat)

  predicate InGrid(img: Image, job: Job) {
    job.cx < BlocksAcross(img.width) && job.cy < BlocksAcross(img.height)
  }

  /** The block of a task in the grid is anchored at a pixel of the image. */
  lemma AnchorInImage(img: Image, job: Job)
    requires InGrid(img, job)
    ensures 4 * job.cx < img.width && 4 * job.cy < img.height
    ensures (4 * job.cx) % 4 == 0 && (4 * job.cy) % 4 == 0
  {
    var _ := BlocksAcross(img.width);
    var _ := BlocksAcross(img.height);
  }

  /** The slot the task's destination pointer points at. */
  function Destination(img: Image, blockSize: nat, job: Job): nat {
    BlockOffset(img.width, 4 * job.cx, 4 * job.cy, blockSize)
  }

  /** The tasks in the order CompressImage enqueues them: the first n of block row cy. */
  function RowJobs(cy: nat, n: nat): (r: seq<Job>)
    ensures |r| == n
  {
    seq(n, cx requires 0 <= cx < n => Job(cx, cy))
  }

  /** The tasks of the first m block rows, in enqueue order. */
  function EnqueuedRows(cols: nat, m: nat): seq<Job> {
    if m == 0 then [] else EnqueuedRows(cols, m - 1) + RowJobs(m - 1, cols)
  }

  function Enqueued(img: Image): seq<Job> {
    EnqueuedRows(BlocksAcross(img.width), BlocksAcross(img.height))
  }

  /** Appending the tasks of row k to those of the rows above it. */
  lemma RowsStep(earlier: seq<Job>, last: seq<Job>, cols: nat, k: nat, job: Job)
    requires job in earlier <==> job.cx < cols && job.cy < k
    requires job in last <==> job.cx < cols && job.cy == k
    ensures job in earlier + last <==> job.cx < cols && job.cy < k + 1
  {
  }

  lemma RowJobsHas(cy: nat, n: nat, job: Job)
    ensures job in RowJobs(cy, n) <==> job.cx < n && job.cy == cy
  {
    if job.cx < n && job.cy == cy {
      assert RowJobs(cy, n)[job.cx] == job;
    }
  }

  lemma {:induction false} EnqueuedRowsLength(cols: nat, m: nat)
    ensures |EnqueuedRows(cols, m)| == m * cols
  {
    if m > 0 {
      EnqueuedRowsLength(cols, m - 1);
      Distrib(m - 1, 1, cols);
    }
  }

  lemma {:induction false} EnqueuedRowsHas(cols: nat, m: nat, job: Job)
    ensures job in EnqueuedRows(cols, m) <==> job.cx < cols && job.cy < m
  {
    if m > 0 {
      var k: nat := m - 1;
      EnqueuedRowsHas(cols, k, job);
      RowJobsHas(k, cols, job);
      RowsStep(EnqueuedRows(cols, k), RowJobs(k, cols), cols, k, job);
    }
  }

  /**
   * CompressImage enqueues one task per block of the grid, ceil(w/4) *
   * ceil(h/4) in all, and every task lies in the grid.
   */
  lemma EnqueuedIsGrid(img: Image)
    ensures |Enqueued(img)| == BlocksAcross(img.width) * BlocksAcross(img.height)
    ensures forall job :: job in Enqueued(img) <==> InGrid(img, job)
  {
    EnqueuedRowsLength(BlocksAcross(img.width), BlocksAcross(img.height));
    forall job
      ensures job in Enqueued(img) <==> InGrid(img, job)
    {
      EnqueuedRowsHas(BlocksAcross(img.width), BlocksAcross(img.height), job);
    }
  }

  /**
   * Every pixel of the image lies in the window of an enqueued task, and that
   * task's block holds the pixel itself, unclamped.
   */
  lemma PixelCovered(img: Image, px: nat, py: nat)
    requires Compressible(img) && px < img.width && py < img.height
    ensures InGrid(img, Job(px / 4, py / 4)) && Job(px / 4, py / 4) in Enqueued(img)
    ensures BlockPixels(img, 4 * (px / 4), 4 * (py / 4))[(py % 4) * 4 + px % 4] == GetPixel(img, px, py)
  {
    EnqueuedIsGrid(img);
    WindowIndex(px % 4, py % 4);
  }

  /** The slot of a task lies inside the level buffer. */
  lemma DestinationFits(img: Image, blockSize: nat, job: Job)
    requires InGrid(img, job)
    ensures Destination(img, blockSize, job) + blockSize <= LevelSize(img.width, img.height, blockSize)
  {
    assert Destination(img, blockSize, job) == (job.cy * BlocksAcross(img.width) + job.cx) * blockSize;
    SlotFits(job.cy, job.cx, BlocksAcross(img.height), BlocksAcross(img.width), blockSize);
  }

  /** Running one task: the codec writes the block's code into its slot. */
  function Execute(img: Image, useEtc2: bool, alpha: bool, encode: Encoder, buf: seq<Byte>, job: Job): (r: seq<Byte>)
    requires Compressible(img) && InGrid(img, job)
    requires |buf| == LevelSize(img.width, img.height, BlockSize(useEtc2, alpha))
    ensures |r| == |buf|
  {
    var bs := BlockSize(useEtc2, alpha);
    var d := Destination(img, bs, job);
    DestinationFits(img, bs, job);
    buf[..d] + BlockCode(img, SelectCodec(useEtc2, alpha), encode, 4 * job.cx, 4 * job.cy) + buf[d + bs..]
  }

  /** Running the tasks one after another in the given order. */
  function ExecuteAll(img: Image, useEtc2: bool, alpha: bool, encode: Encoder, buf: seq<Byte>, order: seq<Job>): (r: seq<Byte>)
    requires Compressible(img) && forall job :: job in order ==> InGrid(img, job)
    requires |buf| == LevelSize(img.width, img.height, BlockSize(useEtc2, alpha))
    ensures |r| == |buf|
    decreases |order|
  {
    if order == [] then buf
    else ExecuteAll(img, useEtc2, alpha, encode, Execute(img, useEtc2, alpha, encode, buf, order[0]), order[1..])
  }

  /** The task whose slot holds byte j of the level buffer. */
  function Owner(img: Image, blockSize: nat, j: nat): Job
    requires blockSize > 0 && img.width > 0
  {
    Job(OwnerX(img.width, blockSize, j) / 4, OwnerY(img.width, blockSize, j) / 4)
  }

  /** Replacing the slice at d by code leaves the other positions as they were. */
  lemma SpliceAt(buf: seq<Byte>, d: nat, code: seq<Byte>, j: nat)
    requires d + |code| <= |buf| && j < |buf|
    ensures (buf[..d] + code + buf[d + |code|..])[j] == if d <= j < d + |code| then code[j - d] else buf[j]
  {
  }

  lemma DestinationIs(img: Image, blockSize: nat, job: Job)
    ensures Destination(img, blockSize, job) == (job.cy * BlocksAcross(img.width) + job.cx) * blockSize
  {
    assert (4 * job.cx) / 4 == job.cx && (4 * job.cy) / 4 == job.cy;
  }

  lemma OwnerIs(img: Image, blockSize: nat, j: nat)
    requires blockSize > 0 && img.width > 0
    ensures Owner(img, blockSize, j) == Job((j / blockSize) % BlocksAcross(img.width), (j / blockSize) / BlocksAcross(img.width))
  {
  }

  /** A task's slot holds byte j exactly when the task is the owner of j. */
  lemma OwnsByte(img: Image, blockSize: nat, job: Job, j: nat)
    requires blockSize > 0 && InGrid(img, job) && j < LevelSize(img.width, img.height, blockSize)
    ensures img.width > 0
    ensures Destination(img, blockSize, job) <= j < Destination(img, blockSize, job) + blockSize
        <==> job == Owner(img, blockSize, j)
  {
    var cols, rows := BlocksAcross(img.width), BlocksAcross(img.height);
    SlotOfByte(cols, rows, blockSize, j);
    var cx, cy := (j / blockSize) % cols, (j / blockSize) / cols;
    OwnerIs(img, blockSize, j);
    DestinationIs(img, blockSize, job);
    if job != Job(cx, cy) {
      SlotsDisjoint(cols, blockSize, job.cx, job.cy, cx, cy);
    }
  }

  /** Inside its slot, a task writes its block's code. */
  lemma ExecuteInSlot(img: Image, useEtc2: bool, alpha: bool, encode: Encoder, buf: seq<Byte>, job: Job, k: nat)
    requires Compressible(img) && InGrid(img, job)
    requires |buf| == LevelSize(img.width, img.height, BlockSize(useEtc2, alpha))
    requires k < BlockSize(useEtc2, alpha)
    ensures img.width > 0 && img.height > 0
    ensures Destination(img, BlockSize(useEtc2, alpha), job) + k < |buf|
    ensures Execute(img, useEtc2, alpha, encode, buf, job)[Destination(img, BlockSize(useEtc2, alpha), job) + k]
         == BlockCode(img, SelectCodec(useEtc2, alpha), encode, 4 * job.cx, 4 * job.cy)[k]
  {
    var bs := BlockSize(useEtc2, alpha);
    var d := Destination(img, bs, job);
    DestinationFits(img, bs, job);
    AnchorInImage(img, job);
    SpliceAt(buf, d, BlockCode(img, SelectCodec(useEtc2, alpha), encode, 4 * job.cx, 4 * job.cy), d + k);
  }

  /** Outside its slot, a task leaves the buffer as it was. */
  lemma ExecuteOutsideSlot(img: Image, useEtc2: bool, alpha: bool, encode: Encoder, buf: seq<Byte>, job: Job, j: nat)
    requires Compressible(img) && InGrid(img, job)
    requires |buf| == LevelSize(img.width, img.height, BlockSize(useEtc2, alpha)) && j < |buf|
    requires !(Destination(img, BlockSize(useEtc2, alpha), job) <= j < Destination(img, BlockSize(useEtc2, alpha), job) + BlockSize(useEtc2, alpha))
    ensures Execute(img, useEtc2, alpha, encode, buf, job)[j] == buf[j]
  {
    var bs := BlockSize(useEtc2, alpha);
    DestinationFits(img, bs, job);
    SpliceAt(buf, Destination(img, bs, job), BlockCode(img, SelectCodec(useEtc2, alpha), encode, 4 * job.cx, 4 * job.cy), j);
  }

  /** A task changes exactly the bytes it owns, and sets each to the level's byte. */
  lemma ExecuteAt(img: Image, useEtc2: bool, alpha: bool, encode: Encoder, buf: seq<Byte>, job: Job, j: nat)
    requires Compressible(img) && InGrid(img, job)
    requires |buf| == LevelSize(img.width, img.height, BlockSize(useEtc2, alpha)) && j < |buf|
    ensures img.width > 0 && |Level(img, useEtc2, alpha, encode)| == |buf|
    ensures Execute(img, useEtc2, alpha, encode, buf, job)[j]
         == if job == Owner(img, BlockSize(useEtc2, alpha), j) then Level(img, useEtc2, alpha, encode)[j] else buf[j]
  {
    var bs := BlockSize(useEtc2, alpha);
    LevelSizeIs(img, useEtc2, alpha, encode);
    OwnsByte(img, bs, job, j);
    var d := Destination(img, bs, job);
    if d <= j < d + bs {
      var k := j - d;
      var x, y := 4 * job.cx, 4 * job.cy;
      AnchorInImage(img, job);
      assert BlockOffset(img.width, x, y, bs) == d;
      ExecuteInSlot(img, useEtc2, alpha, encode, buf, job, k);
      LevelBlockAt(img, useEtc2, alpha, encode, x, y, k);
    } else {
      ExecuteOutsideSlot(img, useEtc2, alpha, encode, buf, job, j);
    }
  }

  /**
   * Whatever order the tasks ran in, byte j holds the level's byte once its
   * owner has run, and its initial value otherwise.
   */
  lemma {:induction false} ExecuteAllAt(img: Image, useEtc2: bool, alpha: bool, encode: Encoder, buf: seq<Byte>, order: seq<Job>, j: nat)
    requires Compressible(img) && forall job :: job in order ==> InGrid(img, job)
    requires |buf| == LevelSize(img.width, img.height, BlockSize(useEtc2, alpha)) && j < |buf|
    ensures img.width > 0 && |Level(img, useEtc2, alpha, encode)| == |buf|
    ensures ExecuteAll(img, useEtc2, alpha, encode, buf, order)[j]
         == if Owner(img, BlockSize(useEtc2, alpha), j) in order then Level(img, useEtc2, alpha, encode)[j] else buf[j]
    decreases |order|
  {
    BlockRangesCover(img.width, img.height, BlockSize(useEtc2, alpha), j);
    LevelSizeIs(img, useEtc2, alpha, encode);
    if order != [] {
      var next := Execute(img, useEtc2, alpha, encode, buf, order[0]);
      ExecuteAt(img, useEtc2, alpha, encode, buf, order[0], j);
      ExecuteAllAt(img, useEtc2, alpha, encode, next, order[1..], j);
      assert order == [order[0]] + order[1..];
    }
  }

  /**
   * The dispatcher may run the enqueued tasks in any order: every
   * permutation of them turns any starting buffer into the level that
   * CompressImage returns.
   */
  lemma AnyOrderGivesLevel(img: Image, useEtc2: bool, alpha: bool, encode: Encoder, initial: seq<Byte>, order: seq<Job>)
    requires Compressible(img) && multiset(order) == multiset(Enqueued(img))
    requires |initial| == LevelSize(img.width, img.height, BlockSize(useEtc2, alpha))
    ensures forall job :: job in order ==> InGrid(img, job)
    ensures ExecuteAll(img, useEtc2, alpha, encode, initial, order) == Level(img, useEtc2, alpha, encode)
  {
    EnqueuedIsGrid(img);
    assert forall job :: job in order <==> job in multiset(order);
    assert forall job :: job in order <==> InGrid(img, job);
    var result := ExecuteAll(img, useEtc2, alpha, encode, initial, order);
    LevelSizeIs(img, useEtc2, alpha, encode);
    forall j | 0 <= j < |initial|
      ensures result[j] == Level(img, useEtc2, alpha, encode)[j]
    {
      var bs := BlockSize(useEtc2, alpha);
      BlockRangesCover(img.width, img.height, bs, j);
      ExecuteAllAt(img, useEtc2, alpha, encode, initial, order, j);
      assert InGrid(img, Owner(img, bs, j));
    }
  }
}
