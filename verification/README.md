# ETC texture compressor and mesh-file checker, modelled in Dafny

This project models two command-line tools from the Molecular Engine tool set.

**etccompress** (`EtcCompressMain.cpp`) does the following:

- It reads an RGB or RGBA image.
- It builds the full mipmap chain by halving the width and height once per level.
- It cuts every level into 4x4 pixel blocks and compresses each block with ETC1 or ETC2. Edge blocks are filled by clamped sampling.
- It writes the levels after a DDS or KTX header. In KTX, each level carries a 4-byte size prefix.

**meshinfo** (`MeshInfoMain.cpp`) checks a loaded mesh file:

- the magic number;
- that no buffer overlaps the buffer before it;
- for each index spec, a chain of checks: the buffer number is in range, that buffer is an index buffer, and it is large enough;
- that the indices stay below the vertex count.

The model has one module per concern.

- `Bytes` (`bytes.dfy`): the 8-bit value shared by images, codes and files.
- `Pixels` (`pixels.dfy`): the image record, the 32-bit pixel packing of `GetPixel`, and the edge clamping of `GetPixelClamped`.
- `BlockGrid` (`block_grid.dfy`):
  - the block grid of `CompressImage`: the buffer size, block offsets, and how each block's 16 pixels are gathered;
  - the specification function `Level`, giving the whole compressed level;
  - the imperative `CompressImage`, which fills an `array` block by block, row by row, and is proved equal to `Level`.
- `BlockJobs` (`block_jobs.dfy`):
  - the blocks as independent jobs writing into one shared buffer, in the enqueue order `CompressImage` uses;
  - proofs that the slots are disjoint and cover the buffer;
  - so running the jobs in any order gives the same level.
- `Container` (`container.dfy`):
  - the DDS and KTX header records;
  - the optional little-endian 32-bit size prefix of `WriteData`;
  - readers that split a written stream back into its levels;
  - the output file as a class whose header and body the writers update.
- `EtcCompress` (`etc_compress.dfy`):
  - the decisions of `main`: codec flags, container suffix, decode failure, channel count, and opening the output;
  - the mip count and the halving chain;
  - the imperative driver `Run` with its mip loop;
  - lemmas that tie what a reader finds in the written file back to the header.
- `MeshInfo` (`mesh_info.dfy`):
  - `CheckIndices` and the checks of `main`, as a specification function `Validate` and as the imperative `MeshInfoMain`, proved equal to it.

External code is passed in as parameters.

- The block codecs are an `Encoder`: byte `k` of the code for 16 pixels under a codec.
- The resizer is a `Resampler`: byte `k` of the buffer it fills.
- The image decoder's result is an `Option<Image>`.
- Whether the output file can be opened is a boolean.

## Model

| member | source | states |
|---|---|---|
| Pixels.PackChannels | EtcCompressMain.cpp:37 | Unpacking a packed word gives back R from bits 0-7, G from 8-15, B from 16-23 and A from 24-31. |
| Pixels.SampleInRange | EtcCompressMain.cpp:33-36 | Every channel index `(y*width+x)*components+k` of an in-range pixel lies inside the buffer. |
| Pixels.PackSamples | EtcCompressMain.cpp:33-37 | The packed word's four channels are the samples at `i..i+3`; alpha is 255 when there are only 3 components. |
| Pixels.GetPixel | EtcCompressMain.cpp:30-38 | Each channel of the result is the sample at `(y*width+x)*components` plus the channel number; alpha is 255 for RGB. |
| Pixels.ClampCoord | EtcCompressMain.cpp:42-45 | The clamped coordinate is inside the image and is the in-range coordinate nearest the requested one. |
| Pixels.ClampCoordUnique | EtcCompressMain.cpp:42-45 | Only one coordinate has that property, so clamping is fully determined by it. |
| Pixels.GetPixelClamped | EtcCompressMain.cpp:40-47 | In-range coordinates read the pixel unchanged; otherwise the pixel at the nearest in-range coordinate is read. |
| BlockGrid.SelectCodec | EtcCompressMain.cpp:73-84 | ETC1 is called exactly when ETC2 is off; ETC2 RGBA8 exactly when ETC2 is on with alpha; ETC2 RGB8 exactly when ETC2 is on without alpha. |
| BlockGrid.BlockSize | EtcCompressMain.cpp:51 | The block size is 16 bytes exactly when ETC2 with alpha is chosen, and 8 otherwise; it is the code size of the codec chosen. |
| BlockGrid.BlocksAcross | EtcCompressMain.cpp:55 | `(n+3)/4` is the number of 4-pixel blocks that covers `n` pixels: `n <= 4b < n+4`, and it is positive iff `n` is. |
| BlockGrid.BlockPixels | EtcCompressMain.cpp:62-70 | A gathered block holds 16 samples. |
| BlockGrid.BlockCode | EtcCompressMain.cpp:72-84 | One block's code has the chosen codec's code size. |
| BlockGrid.LevelSizeIs | EtcCompressMain.cpp:55 | A compressed level is `((w+3)/4)*((h+3)/4)*blockSize` bytes. |
| BlockGrid.LevelSizeMono | EtcCompressMain.cpp:55 | A smaller image never needs a larger level buffer. |
| BlockGrid.RowLength | EtcCompressMain.cpp:59-88 | The first `n` blocks of a block row take `n` code sizes. |
| BlockGrid.RowsLength | EtcCompressMain.cpp:57-89 | The first `m` block rows take `m` full rows of codes. |
| BlockGrid.RowAt | EtcCompressMain.cpp:59-88 | Byte `k` of block `cx`'s code sits at `cx*size+k` in its row. |
| BlockGrid.RowsAt | EtcCompressMain.cpp:57-89 | Byte `j` of block row `cy` sits at `cy*rowSize+j` in the level. |
| BlockGrid.LevelBlockAt | EtcCompressMain.cpp:55-90 | The block anchored at `(x,y)` is written at `((y/4)*((w+3)/4)+x/4)*blockSize`: byte `k` there is byte `k` of that block's code. |
| BlockGrid.SlotsDisjoint | EtcCompressMain.cpp:86-87 | The slots of two distinct grid cells do not overlap. |
| BlockGrid.BlockRangesDisjoint | EtcCompressMain.cpp:55-90 | Two distinct block anchors own disjoint byte ranges. |
| BlockGrid.SlotOfByte | EtcCompressMain.cpp:55-90 | Every byte of a grid of slots lies in the slot of one grid cell. |
| BlockGrid.BlockRangesCover | EtcCompressMain.cpp:55-90 | Every byte of the level buffer lies in the range of some block anchor inside the image, with both coordinates multiples of 4. |
| BlockGrid.WindowIndex | EtcCompressMain.cpp:68 | Window sample `blockY*4+blockX` is column `blockX`, row `blockY`. |
| BlockGrid.GatherBlock | EtcCompressMain.cpp:62-70 | The two copy loops give, for every `k < 16`, `GetPixelClamped(x + k%4, y + k/4)`. |
| BlockGrid.CompressBlock | EtcCompressMain.cpp:72-84 | The block's code is written at the destination and the rest of the buffer is unchanged. |
| BlockGrid.SlotInBuffer | EtcCompressMain.cpp:86-87 | The destination of each block lies after all earlier blocks and inside the buffer. |
| BlockGrid.CompressBlockRow | EtcCompressMain.cpp:59-88 | After one pass of the inner loop, the buffer up to the advanced destination holds the first `cy+1` block rows, and every byte after the destination is unchanged. |
| BlockGrid.CompressImage | EtcCompressMain.cpp:49-92 | The output has exactly the level size and equals `Level`: every block's code in grid order. |
| BlockJobs.AnchorInImage | EtcCompressMain.cpp:57-59 | A job's anchor `(4cx, 4cy)` lies inside the image and on the 4-pixel grid. |
| BlockJobs.RowJobs | EtcCompressMain.cpp:59-88 | One block row enqueues one job per block column. |
| BlockJobs.RowJobsHas | EtcCompressMain.cpp:59-88 | A row's jobs are exactly the jobs of that row with column below the count. |
| BlockJobs.EnqueuedRowsLength | EtcCompressMain.cpp:57-89 | `m` rows enqueue `m*cols` jobs. |
| BlockJobs.EnqueuedRowsHas | EtcCompressMain.cpp:57-89 | The first `m` rows enqueue exactly the jobs with `cx < cols` and `cy < m`. |
| BlockJobs.EnqueuedIsGrid | EtcCompressMain.cpp:57-89 | The enqueued jobs are exactly the grid's cells, one per block. |
| BlockJobs.PixelCovered | EtcCompressMain.cpp:57-70 | Every pixel of the image lies in an enqueued block, and that block's sample at the pixel's position within the window is the pixel itself. |
| BlockJobs.DestinationFits | EtcCompressMain.cpp:86-87 | Each job's destination slot lies inside the level buffer. |
| BlockJobs.Execute | EtcCompressMain.cpp:61-85 | Running a job keeps the buffer's length. |
| BlockJobs.ExecuteAll | EtcCompressMain.cpp:86-90 | Running a sequence of jobs keeps the buffer's length. |
| BlockJobs.OwnsByte | EtcCompressMain.cpp:86-87 | A byte lies in a job's slot exactly when that job is the byte's owner. |
| BlockJobs.ExecuteInSlot | EtcCompressMain.cpp:61-85 | Inside its slot a job writes its block's code. |
| BlockJobs.ExecuteOutsideSlot | EtcCompressMain.cpp:61-85 | Outside its slot a job leaves every byte unchanged. |
| BlockJobs.ExecuteAt | EtcCompressMain.cpp:61-87 | After a job, each byte is either the level's byte (in the job's slot) or the old byte. |
| BlockJobs.ExecuteAllAt | EtcCompressMain.cpp:86-90 | After any sequence of jobs, a byte is the level's byte if its owner ran, and the initial byte otherwise. |
| BlockJobs.AnyOrderGivesLevel | EtcCompressMain.cpp:86-90 | Running the enqueued jobs in any order (any permutation) leaves exactly the compressed level, whatever the buffer held before. |
| Container.DdsHeaderFor | EtcCompressMain.cpp:94-119 | The DDS header has magic 0x20534444, size 124, the caps/pixel-format/width/height flags, depth 1, the given size and mip count, eleven zero reserved words, and the alpha fourCC iff alpha. |
| Container.KtxHeaderFor | EtcCompressMain.cpp:128-147 | The KTX header has the KTX identifier, endianness 0x04030201, zero type and format fields, type size 1, the RGBA8 EAC internal format iff alpha, depth, array and face counts 1, the mip count, and no key-value data. |
| Container.HeaderFor | EtcCompressMain.cpp:241-244 | A KTX header is written iff KTX output was chosen. |
| Container.HeaderReadBack | EtcCompressMain.cpp:94-154 | Width, height, mip count and the alpha choice read back from either header are the values it was written with. |
| Container.Le32 | EtcCompressMain.cpp:160-161 | The size prefix is 4 bytes. |
| Container.ReadLe32 | EtcCompressMain.cpp:160-161 | A 4-byte prefix reads back as a value below 2^32. |
| Container.Le32RoundTrip | EtcCompressMain.cpp:160-161 | Reading back a written 32-bit size gives the size. |
| Container.FrameAllAppend | EtcCompressMain.cpp:156-174 | Writing one more level appends exactly that level's framing. |
| Container.UnframeCons | EtcCompressMain.cpp:158-168 | A size-prefixed level followed by more bytes is read back as that level, followed by whatever the rest reads as. |
| Container.UnframeFrameAll | EtcCompressMain.cpp:156-174 | A stream of size-prefixed levels, each under 4 GiB, splits back into exactly those levels. |
| Container.Split | EtcCompressMain.cpp:168 | Splitting by a list of sizes yields one level per size. |
| Container.Sizes | EtcCompressMain.cpp:168 | The size list has one entry per level, equal to that level's length. |
| Container.SplitFrameAll | EtcCompressMain.cpp:156-174 | A stream without prefixes splits back into its levels given their sizes. |
| Container.OutputFile.constructor | EtcCompressMain.cpp:233 | A freshly opened output file has no header and an empty body. |
| Container.OutputFile.WriteDdsHeader | EtcCompressMain.cpp:94-126 | Sets the DDS header and leaves the body unchanged. |
| Container.OutputFile.WriteKtxHeader | EtcCompressMain.cpp:128-154 | Sets the KTX header and leaves the body unchanged. |
| Container.OutputFile.WriteData | EtcCompressMain.cpp:156-174 | Appends the 32-bit size (when `writeSize`) and then the data to the body; the header is unchanged. |
| EtcCompress.EndsWithAppend | EtcCompressMain.cpp:208-210 | A string ends with a suffix iff it is something followed by that suffix. |
| EtcCompress.ChooseCodec | EtcCompressMain.cpp:195-203 | Both flags fail; otherwise ETC2 is used iff `--use-etc1` is absent, so ETC2 is the default. |
| EtcCompress.ChooseContainer | EtcCompressMain.cpp:208-214 | `.ktx` selects KTX, `.dds` selects DDS, any other suffix fails with "unknown output format". |
| EtcCompress.Configure | EtcCompressMain.cpp:195-238 | Each failure happens exactly when its check is the first to fail, in the source's order: flags, suffix, decode, channel count, open. On success, alpha is off, the image has 3 or 4 channels, and the codec and container follow the flags and the suffix. |
| EtcCompress.Pow2 | EtcCompressMain.cpp:240 | Powers of two are positive. |
| EtcCompress.Pow2Mono | EtcCompressMain.cpp:240 | Powers of two grow with the exponent. |
| EtcCompress.Log2 | EtcCompressMain.cpp:240 | The integer log satisfies `2^r <= n < 2^(r+1)`, so it equals `floor(log2 n)`. |
| EtcCompress.MipCount | EtcCompressMain.cpp:240 | The mip count is at least 1, and `2^(count-1) <= min(w,h) < 2^count`. |
| EtcCompress.HalvedAtLeast | EtcCompressMain.cpp:256-257 | Halving `i` times leaves at least `k` iff `k*2^i <= n`. |
| EtcCompress.HalvedMono | EtcCompressMain.cpp:256-257 | Repeated halving preserves order. |
| EtcCompress.HalvedShrinks | EtcCompressMain.cpp:256-257 | Repeated halving never grows a dimension. |
| EtcCompress.MipDimensions | EtcCompressMain.cpp:240-267 | Every level the loop writes has width and height at least 1, and the smaller side of the last level is exactly 1. |
| EtcCompress.AlphaChannelFor | EtcCompressMain.cpp:251 | The resizer is told there is no alpha channel exactly for 3-channel images, and alpha channel 3 for 4-channel images. |
| EtcCompress.Downsample | EtcCompressMain.cpp:256-259 | One resize gives an image of `w/2` by `h/2` with the same channel count and a buffer of exactly that many samples. |
| EtcCompress.Resampled | EtcCompressMain.cpp:258-259 | The resized buffer has the length that was allocated. |
| EtcCompress.ChainImage | EtcCompressMain.cpp:254-267 | Level `i`'s image is valid, keeps the channel count, and is `w` and `h` halved `i` times. |
| EtcCompress.Levels | EtcCompressMain.cpp:248-262 | The chain of compressed levels has one entry per level. |
| EtcCompress.LevelsAt | EtcCompressMain.cpp:248-262 | Entry `i` of the chain is level `i`'s image, compressed. |
| EtcCompress.ChainStep | EtcCompressMain.cpp:256-266 | Resizing the image held at iteration `i` gives level `i+1` of the chain. |
| EtcCompress.AppendLevel | EtcCompressMain.cpp:255-266 | One loop iteration appends the next compressed level, framed, and leaves level `i+1`'s image for the next iteration. |
| EtcCompress.WriteMipChain | EtcCompressMain.cpp:254-267 | The loop leaves exactly `mipMapCount` framed levels in the file, the header untouched. |
| EtcCompress.Run | EtcCompressMain.cpp:195-270 | The command fails exactly as `Configure` says. Otherwise it leaves the header for the mip count, followed by every level of the chain, each framed for the chosen container. |
| EtcCompress.DdsLevelSizes | EtcCompressMain.cpp:94-126 | A reader derives one level size per mip level from the DDS header. |
| EtcCompress.LevelLength | EtcCompressMain.cpp:248-262 | Level `i` compresses to `LevelSize(w/2^i, h/2^i, 8)` bytes. |
| EtcCompress.LevelSizeShrinks | EtcCompressMain.cpp:254-267 | No level is larger than the first. |
| EtcCompress.DdsHoldsChain | EtcCompressMain.cpp:240-267 | A `.dds` file splits, by the level sizes its header implies, into exactly the mip chain, and the header's mip count is the number of levels written. |
| EtcCompress.KtxHoldsChain | EtcCompressMain.cpp:240-267 | A `.ktx` file's body reads back through its size prefixes into exactly the mip chain, as many levels as the header says. |
| EtcCompress.NeverAlpha | EtcCompressMain.cpp:205-231 | No successful run writes an alpha format into the header. |
| EtcCompress.HeaderIgnoresCodec | EtcCompressMain.cpp:94-154 | Two runs that differ only in codec flags write the same header. |
| MeshInfo.ElementWidth | MeshInfoMain.cpp:184-189 | uint8, uint16 and uint32 indices are read 1, 2 and 4 bytes at a time; any other index type gets width 0 and no check. |
| MeshInfo.Elements | MeshInfoMain.cpp:38 | The typed view of a buffer has as many elements as fit whole in its bytes. |
| MeshInfo.ElementStartIs | MeshInfoMain.cpp:38 | Element `j` starts `j` widths into the buffer. |
| MeshInfo.ElementsFrom | MeshInfoMain.cpp:38 | Element `j` is read from the bytes starting at its start position. |
| MeshInfo.ElementsAt | MeshInfoMain.cpp:38-41 | Element `j` is the little-endian value of bytes `j*width` to `(j+1)*width`. |
| MeshInfo.ScanFromMeaning | MeshInfoMain.cpp:39-46 | The scan from `j` on finds all indices valid, the first too-large one, or the end of the data, in each case exactly when that is so. |
| MeshInfo.FirstInvalidMeaning | MeshInfoMain.cpp:36-47 | An index is reported iff some index below `indexCount` is `>= vertexCount`, and the reported one is the first such. All are valid iff every one is below the count. |
| MeshInfo.CheckIndices | MeshInfoMain.cpp:36-47 | The loop with its `break` returns exactly what the scan specifies: the first index not below the vertex count, if any. |
| MeshInfo.BufferReportsMeaning | MeshInfoMain.cpp:113-127 | Buffer `i` is reported iff `i > 0` and the previous buffer's `offset + size` exceeds its offset. Buffer 0 never is, and a report does not stop the loop. |
| MeshInfo.VertexDataSetFor | MeshInfoMain.cpp:182 | As written, spec `i` is bounded by vertex data set `i`; as intended, by the data set the spec names. |
| MeshInfo.SpecReport | MeshInfoMain.cpp:166-189 | One index spec yields at most one report, and that report is about the spec itself. |
| MeshInfo.SpecReportMeaning | MeshInfoMain.cpp:166-189 | The checks short-circuit in source order: "invalid buffer" iff the buffer number is out of range; "not an index buffer" and "buffer too small" only when the earlier checks pass. An index is reported iff all earlier checks pass and it is the first too-large index. Other index types get no index check. |
| MeshInfo.SpecReportsMeaning | MeshInfoMain.cpp:154-190 | The spec loop reports at most one line per spec, none about buffers, and an index report for spec `i` exactly when that spec's own check gives one. |
| MeshInfo.ValidateWith | MeshInfoMain.cpp:101-105 | A file is rejected, before anything else is examined, iff its magic is wrong. |
| MeshInfo.ValidateMeaning | MeshInfoMain.cpp:113-190 | For a file with the right magic: the overlap reports are exactly the overlapping buffers, and the index reports are exactly the specs' first too-large indices. |
| MeshInfo.IntendedVertexBound | MeshInfoMain.cpp:182 | With each spec bounded by the data set it names, an index is reported exactly when it exceeds that data set's vertex count. |
| MeshInfo.VertexBoundFromPosition | MeshInfoMain.cpp:182 | On a concrete file the check as written reports a valid index, and the intended check does not. |
| MeshInfo.CheckBufferOverlaps | MeshInfoMain.cpp:113-127 | The buffer loop yields exactly the overlap reports. |
| MeshInfo.CheckIndexSpec | MeshInfoMain.cpp:157-189 | One pass of the index-spec loop, with its `continue`s, yields exactly that spec's report as written. |
| MeshInfo.MeshInfoMain | MeshInfoMain.cpp:101-190 | The program's checks yield exactly `Validate`: rejection on a wrong magic, else the buffer reports followed by the index-spec reports. |

## Left out

- The thread pool (`TaskDispatcher`, `EnqueueTask`, `WaitUntilFinished`) runs the block jobs concurrently; concurrency is not modelled. `BlockGrid.CompressImage` fills the buffer sequentially. `BlockJobs` proves that the jobs write disjoint slots that cover the buffer, so every execution order leaves the same level.
- The ETC1/ETC2 block codecs and the codec parameters are opaque libraries. They are the `Encoder` parameter, and only the code size per codec is fixed.
- Image decoding and the sRGB resizer are foreign code doing floating-point work. The decoder's result is a parameter (`None` when decoding fails). The resizer is the `Resampler` parameter, filling a buffer of the size the caller allocates.
- `std::log2` on a float is replaced by an integer floor logarithm, which is what the conversion to `int` yields for dimensions of at least 1.
- File I/O is modelled as follows:
  - opening the output file is a boolean parameter;
  - writing appends to `OutputFile.body`;
  - a short write, with its error message and `exit`, is not modelled;
  - closing the file is not modelled.
- Command-line parsing, help text, error and progress messages, and `StringUtils` are not modelled. Only the decisions are modelled: the flags become `Invocation` fields, and the suffix test is `EndsWith`.
- The byte layouts of the DDS and KTX header structs, and the numeric values of their flag and format constants, are in headers that are not part of this model. The headers are field records with symbolic constants. The DDS magic 0x20534444, the header size 124 and the KTX endianness marker 0x04030201 are kept from the program. The KTX identifier the program copies from the header library is assumed to be the standard 12-byte KTX 1.0 identifier.
- The size prefix is written in host byte order; it is modelled as little-endian.
- MeshInfo.LeValue: index elements are read through a typed pointer in host byte order; they are modelled as little-endian.
- EtcCompress.Run: requires, through `Decoded`, that the decoder returns a width and height of at least 1 and 1 to 4 channels with a buffer of exactly that size; what the program does with any other decoder output is not modelled.
- Integer overflow of `width*height*components`, of the block-grid products and of the `int` loop variables is not modelled; sizes are unbounded. The only truncation modelled is the `uint32_t` size prefix, modulo 2^32.
- EtcCompress.KtxHoldsChain: requires the first level to be under 4 GiB, because a larger level's size prefix is truncated and the stream no longer reads back.
- meshinfo's file reading, its `HashToString` (its hash function is not part of this model), the informational printing, and the vertex-data-set printing loop are not modelled.
- The `MeshFile` accessors are in a header that is not part of this model. Buffers, vertex data sets and index specs are sequences. `GetBufferData(b)` is taken to be the bytes from buffer `b`'s data to the end of the loaded file.
- Three reads fall outside the loaded data:
  - a vertex data set past the end;
  - an index read past the end of the buffer's bytes;
  - in the program, a read past the loaded file.

  These are undefined behaviour in the program. The model reports them as `Undetermined(spec)`.
- The unsigned additions `prevBuffer.offset + prevBuffer.size` and `spec.count + spec.offset` can wrap around in the program. They are modelled without wrap-around, because the field widths are not part of this model.
- `CheckIndices` reads from the start of the buffer. It ignores `spec.offset`, and the size check compares an element count with a byte size. Both are modelled as written, because the units of these fields are not documented.
- Behaviour of the code worth noting:
  - the code never turns alpha on, even for 4-channel images with ETC2;
  - the DDS fourCC and the KTX format are chosen by alpha alone, not by the codec;
  - halving is plain integer division, with no floor at 1, and the mip count alone keeps every level at least 1x1.

## Findings

| source | as written | input that shows it | evidently intended | confidence | as-written member | corrected member |
|---|---|---|---|---|---|---|
| MeshInfoMain.cpp:182 | The vertex count for index spec `i` is read from `GetVertexDataSet(i)`, the data set at the spec's position in the list. | One uint8 index buffer holding `[5]`; data sets with 1 and 10 vertices; spec 0 names data set 1 with count 1. Index 5 is reported invalid although data set 1 has 10 vertices. | The vertex count of the data set the spec names, `GetVertexDataSet(spec.vertexDataSet)`. | medium; not executed | MeshInfo.VertexBoundFromPosition | MeshInfo.IntendedVertexBound |
