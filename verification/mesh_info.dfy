/**
 * The meshinfo command: it checks a loaded mesh file. The buffers must not
 * overlap the buffer before them, and every index spec must name an index
 * buffer that is large enough and whose indices stay below the vertex count.
 * The checks yield a list of error reports; the informational printing is
 * not modelled.
 */
module MeshInfo {
  import opened Wrappers
  import opened Bytes

  datatype BufferType = IndexBufferType | OtherBufferType(code: nat)

  /**
   * A buffer record, with the bytes GetBufferData returns for it: from the
   * start of the buffer's data to the end of the loaded file.
   */
  datatype MeshBuffer = MeshBuffer(size: nat, kind: BufferType, offset: nat, reserved: nat, contents: seq<Byte>)

  datatype VertexDataSet = VertexDataSet(numVertices: nat, numVertexSpecs: nat)

  /** The element type of an index buffer. */
  datatype IndexType = UInt8 | UInt16 | UInt32 | OtherIndexType(code: nat)

  datatype IndexSpec = IndexSpec(
    mode: nat, kind: IndexType, buffer: nat, offset: nat, count: nat, vertexDataSet: nat, material: nat)

  datatype MeshFile = MeshFile(
    magic: nat, buffers: seq<MeshBuffer>, vertexDataSets: seq<VertexDataSet>, indexSpecs: seq<IndexSpec>)

  /** The error lines meshinfo prints, and the cases the program leaves undefined. */
  datatype Report =
    | OverlapsPrevious(bufferIndex: nat)
    | InvalidBuffer(specIndex: nat)
    | NotIndexBuffer(specIndex: nat, bufferIndex: nat)
    | BufferTooSmall(specIndex: nat)
    | InvalidVertex(specIndex: nat, value: nat)
      /** The program reads outside the loaded data (a vertex data set or an index past its end). */
    | Undetermined(specIndex: nat)

  datatype MeshError = NotAMeshFile

  // ---------------------------------------------------------------------
  // Index elements
  // ---------------------------------------------------------------------

  /** Bytes per index element; 0 for the types meshinfo does not check. */
  function ElementWidth(kind: IndexType): (w: nat)
    ensures w in {0, 1, 2, 4}
    ensures w == 0 <==> kind.OtherIndexType?
    ensures kind == UInt8 ==> w == 1
    ensures kind == UInt16 ==> w == 2
    ensures kind == UInt32 ==> w == 4
  {
    match kind
    case UInt8 => 1
    case UInt16 => 2
    case UInt32 => 4
    case OtherIndexType(_) => 0
  }

  /** The value of bytes read as a little-endian unsigned integer. */
  function LeValue(bytes: seq<Byte>): nat {
    if bytes == [] then 0 else bytes[0] + 0x100 * LeValue(bytes[1..])
  }

  /** The whole elements of the given width in the bytes, as the program's typed pointer sees them. */
  function Elements(bytes: seq<Byte>, width: nat): (elements: seq<nat>)
    requires width >= 1
    ensures |elements| * width <= |bytes| < (|elements| + 1) * width
    decreases |bytes|
  {
    if |bytes| < width then [] else [LeValue(bytes[..width])] + Elements(bytes[width..], width)
  }

  /** Where element j starts: j widths into the bytes. */
  function ElementStart(width: nat, j: nat): nat {
    if j == 0 then 0 else ElementStart(width, j - 1) + width
  }

  lemma {:induction false} ElementStartIs(width: nat, j: nat)
    ensures ElementStart(width, j) == j * width
  {
    if j > 0 {
      ElementStartIs(width, j - 1);
    }
  }

  lemma {:induction false} ElementsFrom(bytes: seq<Byte>, width: nat, j: nat)
    requires width >= 1 && j < |Elements(bytes, width)|
    ensures ElementStart(width, j) + width <= |bytes|
    ensures Elements(bytes, width)[j] == LeValue(bytes[ElementStart(width, j)..][..width])
    decreases j
  {
    if j > 0 {
      ElementsFrom(bytes[width..], width, j - 1);
      assert bytes[width..][ElementStart(width, j - 1)..] == bytes[ElementStart(width, j)..];
    }
  }

  /** Element j is the little-endian value of bytes j*width up to (j+1)*width. */
  lemma ElementsAt(bytes: seq<Byte>, width: nat, j: nat)
    requires width >= 1 && j < |Elements(bytes, width)|
    ensures (j + 1) * width <= |bytes|
    ensures Elements(bytes, width)[j] == LeValue(bytes[j * width..(j + 1) * width])
  {
    ElementsFrom(bytes, width, j);
    ElementStartIs(width, j);
    assert (j + 1) * width == j * width + width;
    assert bytes[j * width..][..width] == bytes[j * width..(j + 1) * width];
  }

  // ---------------------------------------------------------------------
  // CheckIndices
  // ---------------------------------------------------------------------

  /** What the scan of one index buffer finds. */
  datatype IndexCheck = IndicesValid | IndexTooLarge(value: nat) | ReadPastData

  /** The scan from element j on. */
  function ScanFrom(data: seq<nat>, indexCount: nat, vertexCount: nat, j: nat): IndexCheck
    decreases indexCount - j
  {
    if j >= indexCount then IndicesValid
    else if j >= |data| then ReadPastData
    else if data[j] >= vertexCount then IndexTooLarge(data[j])
    else ScanFrom(data, indexCount, vertexCount, j + 1)
  }

  function FirstInvalid(data: seq<nat>, indexCount: nat, vertexCount: nat): IndexCheck {
    ScanFrom(data, indexCount, vertexCount, 0)
  }

  /** The first k indices are present and below the vertex count. */
  predicate AllBelow(data: seq<nat>, k: nat, vertexCount: nat) {
    k <= |data| && forall i :: 0 <= i < k ==> data[i] < vertexCount
  }

  lemma {:induction false} ScanFromMeaning(data: seq<nat>, indexCount: nat, vertexCount: nat, j: nat)
    requires j <= indexCount && AllBelow(data, j, vertexCount)
    ensures ScanFrom(data, indexCount, vertexCount, j) == IndicesValid
        <==> AllBelow(data, indexCount, vertexCount)
    ensures forall v :: (ScanFrom(data, indexCount, vertexCount, j) == IndexTooLarge(v)
        <==> exists k :: j <= k < indexCount && AllBelow(data, k, vertexCount) && k < |data|
                         && data[k] >= vertexCount && data[k] == v)
    ensures ScanFrom(data, indexCount, vertexCount, j) == ReadPastData
        <==> indexCount > |data| && AllBelow(data, |data|, vertexCount)
    decreases indexCount - j
  {
    if j < indexCount && j < |data| && data[j] < vertexCount {
      ScanFromMeaning(data, indexCount, vertexCount, j + 1);
    }
  }

  /**
   * The scan reports a too-large index exactly when some index j below
   * indexCount is at least vertexCount, and then reports the first one;
   * it finds all indices valid exactly when every one is below the count.
   */
  lemma FirstInvalidMeaning(data: seq<nat>, indexCount: nat, vertexCount: nat)
    ensures FirstInvalid(data, indexCount, vertexCount) == IndicesValid
        <==> AllBelow(data, indexCount, vertexCount)
    ensures forall v :: (FirstInvalid(data, indexCount, vertexCount) == IndexTooLarge(v)
        <==> exists k :: 0 <= k < indexCount && AllBelow(data, k, vertexCount) && k < |data|
                         && data[k] >= vertexCount && data[k] == v)
    ensures FirstInvalid(data, indexCount, vertexCount) == ReadPastData
        <==> indexCount > |data| && AllBelow(data, |data|, vertexCount)
  {
    ScanFromMeaning(data, indexCount, vertexCount, 0);
  }

  /**
   * CheckIndices: scan the first indexCount indices and stop at the first
   * one that is not below vertexCount. Running past the buffer's data is
   * undefined in the program; here it is reported as ReadPastData.
   */
  method CheckIndices(data: seq<nat>, indexCount: nat, vertexCount: nat) returns (r: IndexCheck)
    ensures r == FirstInvalid(data, indexCount, vertexCount)
  {
    r := IndicesValid;
    var j := 0;
    while j < indexCount
      invariant j <= indexCount
      invariant ScanFrom(data, indexCount, vertexCount, j) == FirstInvalid(data, indexCount, vertexCount)
    {
      if j >= |data| {
        r := ReadPastData;
        break;
      }
      if data[j] >= vertexCount {
        r := IndexTooLarge(data[j]);
        break;
      }
      j := j + 1;
    }
  }

  // ---------------------------------------------------------------------
  // The checks of main
  // ---------------------------------------------------------------------

  /** Buffer i starts before the buffer ahead of it ends. */
  predicate OverlapsBefore(buffers: seq<MeshBuffer>, i: nat)
    requires i < |buffers|
  {
    i > 0 && buffers[i - 1].offset + buffers[i - 1].size > buffers[i].offset
  }

  /** The overlap reports of the first n buffers, in order. */
  function BufferReports(buffers: seq<MeshBuffer>, n: nat): seq<Report>
    requires n <= |buffers|
  {
    if n == 0 then []
    else BufferReports(buffers, n - 1) + (if OverlapsBefore(buffers, n - 1) then [OverlapsPrevious(n - 1)] else [])
  }

  /** Buffer i is reported exactly when it overlaps the one before it; buffer 0 never is. */
  lemma {:induction false} BufferReportsMeaning(buffers: seq<MeshBuffer>, n: nat)
    requires n <= |buffers|
    ensures forall r :: r in BufferReports(buffers, n) ==> r.OverlapsPrevious?
    ensures forall i: nat :: OverlapsPrevious(i) in BufferReports(buffers, n) <==> 0 < i < n && OverlapsBefore(buffers, i)
    ensures OverlapsPrevious(0) !in BufferReports(buffers, n)
  {
    if n > 0 {
      BufferReportsMeaning(buffers, n - 1);
    }
  }

  /**
   * Which vertex data set bounds the indices of index spec i: the one at
   * position i, as the program reads it, or the one the spec names.
   */
  datatype VertexSource = SpecPosition | SpecField

  function VertexDataSetFor(file: MeshFile, i: nat, source: VertexSource): (d: nat)
    requires i < |file.indexSpecs|
    ensures source == SpecPosition ==> d == i
    ensures source == SpecField ==> d == file.indexSpecs[i].vertexDataSet
  {
    match source
    case SpecPosition => i
    case SpecField => file.indexSpecs[i].vertexDataSet
  }

  /** The first three checks on index spec i pass: buffer number, buffer type and size. */
  predicate ChecksPass(file: MeshFile, i: nat)
    requires i < |file.indexSpecs|
  {
    var spec := file.indexSpecs[i];
    spec.buffer < |file.buffers|
    && file.buffers[spec.buffer].kind == IndexBufferType
    && spec.count + spec.offset <= file.buffers[spec.buffer].size
  }

  /** The elements of the buffer index spec i names, read with the spec's element type. */
  function SpecElements(file: MeshFile, i: nat): seq<nat>
    requires i < |file.indexSpecs| && ChecksPass(file, i)
    requires ElementWidth(file.indexSpecs[i].kind) > 0
  {
    var spec := file.indexSpecs[i];
    Elements(file.buffers[spec.buffer].contents, ElementWidth(spec.kind))
  }

  /**
   * Index spec i passes its checks, has an element type meshinfo checks,
   * and v is its first index (among the first count) that is not below the
   * vertex count of data set dataSet.
   */
  predicate FirstExceeding(file: MeshFile, i: nat, dataSet: nat, v: nat)
    requires i < |file.indexSpecs|
  {
    ChecksPass(file, i) && dataSet < |file.vertexDataSets| && ElementWidth(file.indexSpecs[i].kind) > 0
    && var data := SpecElements(file, i);
       var bound := file.vertexDataSets[dataSet].numVertices;
       exists k :: 0 <= k < file.indexSpecs[i].count && AllBelow(data, k, bound) && k < |data|
                   && data[k] >= bound && data[k] == v
  }

  /**
   * The chain of checks on index spec i, with the vertex count taken from
   * vertex data set number dataSet: buffer number, buffer type, size, then
   * the indices; the first check that fails is the only one reported.
   */
  function SpecReport(file: MeshFile, i: nat, dataSet: nat): (r: seq<Report>)
    requires i < |file.indexSpecs|
    ensures |r| <= 1
    ensures forall x :: x in r ==> !x.OverlapsPrevious? && x.specIndex == i
  {
    var spec := file.indexSpecs[i];
    if spec.buffer >= |file.buffers| then [InvalidBuffer(i)]
    else
      var buffer := file.buffers[spec.buffer];
      if buffer.kind != IndexBufferType then [NotIndexBuffer(i, spec.buffer)]
      else if spec.count + spec.offset > buffer.size then [BufferTooSmall(i)]
      else if dataSet >= |file.vertexDataSets| then [Undetermined(i)]
      else
        var width := ElementWidth(spec.kind);
        if width == 0 then []
        else match FirstInvalid(Elements(buffer.contents, width), spec.count, file.vertexDataSets[dataSet].numVertices)
          case IndicesValid => []
          case IndexTooLarge(v) => [InvalidVertex(i, v)]
          case ReadPastData => [Undetermined(i)]
  }

  /**
   * Each check is reached only when the ones before it pass; an index
   * value is reported exactly when it is the first one over the bound.
   */
  lemma SpecReportMeaning(file: MeshFile, i: nat, dataSet: nat)
    requires i < |file.indexSpecs|
    ensures var r := SpecReport(file, i, dataSet);
      && (r == [InvalidBuffer(i)] <==> file.indexSpecs[i].buffer >= |file.buffers|)
      && (r == [NotIndexBuffer(i, file.indexSpecs[i].buffer)] <==> (var spec := file.indexSpecs[i];
             spec.buffer < |file.buffers| && file.buffers[spec.buffer].kind != IndexBufferType))
      && (r == [BufferTooSmall(i)] <==> (var spec := file.indexSpecs[i];
             spec.buffer < |file.buffers| && file.buffers[spec.buffer].kind == IndexBufferType
             && spec.count + spec.offset > file.buffers[spec.buffer].size))
      && (forall v :: InvalidVertex(i, v) in r <==> FirstExceeding(file, i, dataSet, v))
      && (ChecksPass(file, i) && dataSet < |file.vertexDataSets| && file.indexSpecs[i].kind.OtherIndexType? ==> r == [])
  {
    var spec := file.indexSpecs[i];
    if ChecksPass(file, i) && dataSet < |file.vertexDataSets| && ElementWidth(spec.kind) > 0 {
      FirstInvalidMeaning(SpecElements(file, i), spec.count, file.vertexDataSets[dataSet].numVertices);
    }
  }

  /** The reports of the first n index specs, in order. */
  function SpecReports(file: MeshFile, n: nat, source: VertexSource): seq<Report>
    requires n <= |file.indexSpecs|
  {
    if n == 0 then []
    else SpecReports(file, n - 1, source) + SpecReport(file, n - 1, VertexDataSetFor(file, n - 1, source))
  }

  lemma {:induction false} SpecReportsMeaning(file: MeshFile, n: nat, source: VertexSource)
    requires n <= |file.indexSpecs|
    ensures |SpecReports(file, n, source)| <= n
    ensures forall x :: x in SpecReports(file, n, source) ==> !x.OverlapsPrevious? && x.specIndex < n
    ensures forall i: nat, v :: (InvalidVertex(i, v) in SpecReports(file, n, source)
        <==> i < n && InvalidVertex(i, v) in SpecReport(file, i, VertexDataSetFor(file, i, source)))
  {
    if n > 0 {
      SpecReportsMeaning(file, n - 1, source);
    }
  }

  /** main's checks: the magic first, then the buffers, then the index specs. */
  function ValidateWith(file: MeshFile, kMagic: nat, source: VertexSource): (r: Result<seq<Report>, MeshError>)
    ensures r.Err? <==> file.magic != kMagic
  {
    if file.magic != kMagic then Err(NotAMeshFile)
    else Ok(BufferReports(file.buffers, |file.buffers|) + SpecReports(file, |file.indexSpecs|, source))
  }

  /** The checks as the program makes them. */
  function Validate(file: MeshFile, kMagic: nat): Result<seq<Report>, MeshError> {
    ValidateWith(file, kMagic, SpecPosition)
  }

  /** The checks with each index spec bounded by the vertex data set it names. */
  function ValidateIntended(file: MeshFile, kMagic: nat): Result<seq<Report>, MeshError> {
    ValidateWith(file, kMagic, SpecField)
  }

  /**
   * A file with the right magic yields an overlap report for exactly the
   * buffers that overlap their predecessor, and an index report for exactly
   * the specs whose first too-large index it names.
   */
  lemma ValidateMeaning(file: MeshFile, kMagic: nat, source: VertexSource)
    requires file.magic == kMagic
    ensures forall i: nat :: (OverlapsPrevious(i) in ValidateWith(file, kMagic, source).value
        <==> 0 < i < |file.buffers| && OverlapsBefore(file.buffers, i))
    ensures forall i: nat, v :: (InvalidVertex(i, v) in ValidateWith(file, kMagic, source).value
        <==> i < |file.indexSpecs| && FirstExceeding(file, i, VertexDataSetFor(file, i, source), v))
  {
    BufferReportsMeaning(file.buffers, |file.buffers|);
    SpecReportsMeaning(file, |file.indexSpecs|, source);
    forall i: nat | i < |file.indexSpecs| {
      SpecReportMeaning(file, i, VertexDataSetFor(file, i, source));
    }
  }

  /**
   * With the data set each spec names, an index is reported exactly when it
   * is the spec's first index not below that data set's vertex count.
   */
  lemma IntendedVertexBound(file: MeshFile, kMagic: nat, i: nat, v: nat)
    requires file.magic == kMagic && i < |file.indexSpecs|
    ensures InvalidVertex(i, v) in ValidateIntended(file, kMagic).value
        <==> FirstExceeding(file, i, file.indexSpecs[i].vertexDataSet, v)
  {
    ValidateMeaning(file, kMagic, SpecField);
  }

  /**
   * The program bounds index spec 0 by data set 0 instead of the data set 1
   * it names: index 5 is reported although data set 1 has 10 vertices, and
   * the intended check reports nothing.
   */
  lemma VertexBoundFromPosition()
    ensures var file := MeshFile(0, [MeshBuffer(1, IndexBufferType, 0, 0, [5])],
                                 [VertexDataSet(1, 1), VertexDataSet(10, 1)],
                                 [IndexSpec(0, UInt8, 0, 0, 1, 1, 0)]);
      && file.indexSpecs[0].vertexDataSet == 1
      && 5 < file.vertexDataSets[1].numVertices
      && Validate(file, 0) == Ok([InvalidVertex(0, 5)])
      && ValidateIntended(file, 0) == Ok([])
  {
    var file := MeshFile(0, [MeshBuffer(1, IndexBufferType, 0, 0, [5])],
                         [VertexDataSet(1, 1), VertexDataSet(10, 1)],
                         [IndexSpec(0, UInt8, 0, 0, 1, 1, 0)]);
    assert [5 as Byte][..1] == [5];
    assert Elements([5], 1) == [5];
    assert FirstInvalid([5], 1, 1) == IndexTooLarge(5);
    assert FirstInvalid([5], 1, 10) == IndicesValid;
    assert BufferReports(file.buffers, 1) == [];
    assert SpecReports(file, 1, SpecPosition) == [InvalidVertex(0, 5)];
    assert SpecReports(file, 1, SpecField) == [];
  }

  /** main's buffer loop: every buffer after the first is compared with the one before it. */
  method CheckBufferOverlaps(buffers: seq<MeshBuffer>) returns (reports: seq<Report>)
    ensures reports == BufferReports(buffers, |buffers|)
  {
    reports := [];
    for i := 0 to |buffers|
      invariant reports == BufferReports(buffers, i)
    {
      if i > 0 {
        var prevBuffer := buffers[i - 1];
        if prevBuffer.offset + prevBuffer.size > buffers[i].offset {
          reports := reports + [OverlapsPrevious(i)];
        }
      }
    }
  }

  /**
   * One pass of main's index-spec loop: the checks in order, leaving the
   * pass at the first that fails. The vertex count comes from the data set
   * at the spec's own position.
   */
  method CheckIndexSpec(file: MeshFile, i: nat) returns (reports: seq<Report>)
    requires i < |file.indexSpecs|
    ensures reports == SpecReport(file, i, i)
  {
    var spec := file.indexSpecs[i];
    if spec.buffer >= |file.buffers| {
      return [InvalidBuffer(i)];
    }
    var buffer := file.buffers[spec.buffer];
    if buffer.kind != IndexBufferType {
      return [NotIndexBuffer(i, spec.buffer)];
    }
    if spec.count + spec.offset > buffer.size {
      return [BufferTooSmall(i)];
    }
    if i >= |file.vertexDataSets| {
      return [Undetermined(i)];
    }
    var numVertices := file.vertexDataSets[i].numVertices;
    var check := IndicesValid;
    if spec.kind == UInt8 {
      check := CheckIndices(Elements(buffer.contents, 1), spec.count, numVertices);
    } else if spec.kind == UInt16 {
      check := CheckIndices(Elements(buffer.contents, 2), spec.count, numVertices);
    } else if spec.kind == UInt32 {
      check := CheckIndices(Elements(buffer.contents, 4), spec.count, numVertices);
    }
    reports := [];
    if check.IndexTooLarge? {
      reports := [InvalidVertex(i, check.value)];
    } else if check.ReadPastData? {
      reports := [Undetermined(i)];
    }
  }

  /** main, from the magic check on: the buffer loop, then the index-spec loop with its early continues. */
  method MeshInfoMain(file: MeshFile, kMagic: nat) returns (outcome: Result<seq<Report>, MeshError>)
    ensures outcome == Validate(file, kMagic)
  {
    if file.magic != kMagic {
      return Err(NotAMeshFile);
    }
    var reports := CheckBufferOverlaps(file.buffers);
    for i := 0 to |file.indexSpecs|
      invariant reports == BufferReports(file.buffers, |file.buffers|) + SpecReports(file, i, SpecPosition)
    {
      var specReports := CheckIndexSpec(file, i);
      assert VertexDataSetFor(file, i, SpecPosition) == i;
      reports := reports + specReports;
    }
    return Ok(reports);
  }
}
