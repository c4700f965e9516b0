/** The VDI container: its header, its block map, and the header that xmount builds in front of an image. */
module VdiFormat {
  import opened Bytes

  const VDI_IMAGE_SIGNATURE := 0xBEDA107F
  const VDI_IMAGE_VERSION := 0x0001_0001
  const VDI_IMAGE_TYPE_FIXED := 2
  const VDI_IMAGE_FLAGS := 0
  const VDI_IMAGE_BLOCK_SIZE := 1024 * 1024
  const FILE_HEADER_SIZE := 512      // sizeof(ts_VdiFileHeader)
  const READ_HEADER_SIZE := 456      // sizeof(t_VdiHeader)

  /** The fields of t_VdiHeader that the reader uses. */
  datatype Header = Header(
    signature: nat, version: nat, offsetBmap: nat, offsetData: nat, diskSize: nat, blockSize: nat, blocksInImage: nat)

  function ParseFields(s: seq<byte>): Header
    requires |s| >= READ_HEADER_SIZE
  {
    Header(Word32(s, 64), Word32(s, 68), Word32(s, 340), Word32(s, 344), Word64(s, 368), Word32(s, 376), Word32(s, 384))
  }

  // ----- the emitted header -----

  /** The values in the emitted header that do not depend on the image. */
  datatype Labels = Labels(fileInfo: seq<byte>, comment: seq<byte>, createLow: nat, createHigh: nat, modifyLow: nat, modifyHigh: nat)

  predicate LabelsOk(c: Labels) {
    && |c.fileInfo| < 64 && |c.comment| < 256
    && c.createLow < U64 && c.createHigh < U64 && c.modifyLow < U64 && c.modifyHigh < U64
  }

  function BlockCount(size: nat): nat {
    size / VDI_IMAGE_BLOCK_SIZE + if size % VDI_IMAGE_BLOCK_SIZE != 0 then 1 else 0
  }

  /** The blocks of 1 MiB are just enough for the image. */
  lemma BlocksJustEnough(size: nat)
    ensures var n := BlockCount(size); size <= n * 1048576 && (n > 0 ==> (n - 1) * 1048576 < size)
  {
  }

  function HeaderSize(size: nat): nat {
    FILE_HEADER_SIZE + 4 * BlockCount(size)
  }

  /** The header size of the output file fits its 32-bit fields. */
  predicate SizeFits(size: nat) {
    size < U64 && HeaderSize(size) < U32
  }

  function Padded(s: seq<byte>, n: nat): (r: seq<byte>)
    requires |s| <= n
    ensures |r| == n
  {
    s + Zeros(n - |s|)
  }

  /** Offset 0: text, signature, version, header size, type, flags. */
  function Preheader(c: Labels): (s: seq<byte>)
    requires LabelsOk(c)
    ensures |s| == 84
  {
    Padded(c.fileInfo, 64) + Le(VDI_IMAGE_SIGNATURE, 4) + Le(VDI_IMAGE_VERSION, 4) + Le(0x180, 4) + Le(VDI_IMAGE_TYPE_FIXED, 4) + Le(VDI_IMAGE_FLAGS, 4)
  }

  /** Offset 348: cylinders, heads and sectors, the sector size, and an unused field. */
  function Legacy(): (s: seq<byte>)
    ensures |s| == 20
  {
    Le(0, 4) + Le(0, 4) + Le(0, 4) + Le(512, 4) + Le(0, 4)
  }

  /** Offset 340: where block map and data start, and the legacy geometry. */
  function Offsets(size: nat): (s: seq<byte>)
    ensures |s| == 28
  {
    Le(FILE_HEADER_SIZE, 4) + Le(HeaderSize(size), 4) + Legacy()
  }

  /** Offset 368: disk size, block size, block counts. */
  function Geometry(size: nat): (s: seq<byte>)
    ensures |s| == 24
  {
    Le(size, 8) + Le(VDI_IMAGE_BLOCK_SIZE, 4) + Le(0, 4) + Le(BlockCount(size), 4) + Le(BlockCount(size), 4)
  }

  /** Offset 392: the UUIDs of the image and of its last modification; the others and the padding are zero. */
  function Uuids(c: Labels): (s: seq<byte>)
    ensures |s| == 120
  {
    Le(c.createLow, 8) + Le(c.createHigh, 8) + Le(c.modifyLow, 8) + Le(c.modifyHigh, 8) + Zeros(88)
  }

  /** The block map: block i of the disk is block i of the data. */
  function BlockMap(n: nat): (s: seq<byte>)
    ensures |s| == 4 * n
  {
    if n == 0 then [] else BlockMap(n - 1) + Le(n - 1, 4)
  }

  function FileHeader(c: Labels, size: nat): (s: seq<byte>)
    requires LabelsOk(c)
    ensures |s| == FILE_HEADER_SIZE
  {
    Preheader(c) + Padded(c.comment, 256) + Offsets(size) + Geometry(size) + Uuids(c)
  }

  /** The bytes xmount puts in front of an image of this size. */
  function EmittedHeader(c: Labels, size: nat): (s: seq<byte>)
    requires LabelsOk(c)
    ensures |s| == HeaderSize(size)
  {
    FileHeader(c, size) + BlockMap(BlockCount(size))
  }

  // ----- reading it back -----

  lemma {:induction false} BlockMapEntry(n: nat, i: nat)
    requires i < n <= U32
    ensures Word32(BlockMap(n), 4 * i) == i
  {
    if i == n - 1 {
      Le4(i);
      assert BlockMap(n)[4 * i..4 * i + 4] == Le(i, 4);
    } else {
      BlockMapEntry(n - 1, i);
      assert BlockMap(n)[4 * i..4 * i + 4] == BlockMap(n - 1)[4 * i..4 * i + 4];
    }
  }

  lemma PreheaderFields(c: Labels)
    requires LabelsOk(c)
    ensures Word32(Preheader(c), 64) == VDI_IMAGE_SIGNATURE && Word32(Preheader(c), 68) == VDI_IMAGE_VERSION
  {
    hide Le, FromLe, Padded;
    Le4(VDI_IMAGE_SIGNATURE);
    Le4(VDI_IMAGE_VERSION);
    var s := Preheader(c);
    assert s[64..68] == Le(VDI_IMAGE_SIGNATURE, 4);
    assert s[68..72] == Le(VDI_IMAGE_VERSION, 4);
  }

  lemma OffsetsFields(size: nat)
    requires SizeFits(size)
    ensures Word32(Offsets(size), 0) == FILE_HEADER_SIZE && Word32(Offsets(size), 4) == HeaderSize(size)
  {
    hide Le, FromLe, HeaderSize;
    Le4(FILE_HEADER_SIZE);
    Le4(HeaderSize(size));
    var s := Offsets(size);
    assert s[0..4] == Le(FILE_HEADER_SIZE, 4);
    assert s[4..8] == Le(HeaderSize(size), 4);
  }

  lemma GeometryFields(size: nat)
    requires SizeFits(size)
    ensures Word64(Geometry(size), 0) == size
    ensures Word32(Geometry(size), 8) == VDI_IMAGE_BLOCK_SIZE && Word32(Geometry(size), 16) == BlockCount(size)
  {
    var n := BlockCount(size);
    assert n < U32;
    hide Le, FromLe, BlockCount;
    Le8(size);
    Le4(VDI_IMAGE_BLOCK_SIZE);
    Le4(n);
    var s := Geometry(size);
    assert s[0..8] == Le(size, 8);
    assert s[8..12] == Le(VDI_IMAGE_BLOCK_SIZE, 4);
    assert s[16..20] == Le(n, 4);
  }

  lemma Parts(a: seq<byte>, b: seq<byte>, c: seq<byte>, d: seq<byte>, e: seq<byte>, file: seq<byte>)
    requires a + b + c + d + e <= file
    ensures var x, y, z := |a|, |a| + |b|, |a| + |b| + |c|;
      && file[0..x] == a && file[x..y] == b && file[y..z] == c
      && file[z..z + |d|] == d && file[z + |d|..z + |d| + |e|] == e
  {
    var s := a + b + c + d + e;
    assert forall k :: 0 <= k < |s| ==> file[k] == s[k];
  }

  lemma HeaderParts(c: Labels, size: nat, file: seq<byte>)
    requires LabelsOk(c) && EmittedHeader(c, size) <= file
    ensures |file| >= FILE_HEADER_SIZE
    ensures file[0..84] == Preheader(c) && file[340..368] == Offsets(size) && file[368..392] == Geometry(size)
  {
    hide Le, FromLe, Word64, HeaderSize, BlockCount, Preheader, Offsets, Geometry, Uuids, Padded, BlockMap;
    assert FileHeader(c, size) <= EmittedHeader(c, size);
    Parts(Preheader(c), Padded(c.comment, 256), Offsets(size), Geometry(size), Uuids(c), file);
  }

  lemma WordIn(file: seq<byte>, at: nat, part: seq<byte>, i: nat)
    requires at + |part| <= |file| && file[at..at + |part|] == part && i + 4 <= |part|
    ensures Word32(file, at + i) == Word32(part, i)
  {
    SubSlice(file, at, at + |part|, i, i + 4);
  }

  lemma LongIn(file: seq<byte>, at: nat, part: seq<byte>, i: nat)
    requires at + |part| <= |file| && file[at..at + |part|] == part && i + 8 <= |part|
    ensures Word64(file, at + i) == Word64(part, i)
  {
    SubSlice(file, at, at + |part|, i, i + 8);
  }

  lemma Shorter(file: seq<byte>, n: nat)
    requires READ_HEADER_SIZE <= n <= |file|
    ensures ParseFields(file[..n]) == ParseFields(file)
  {
    hide FromLe;
    SubSlice(file, 0, n, 64, 68);
    SubSlice(file, 0, n, 68, 72);
    SubSlice(file, 0, n, 340, 344);
    SubSlice(file, 0, n, 344, 348);
    SubSlice(file, 0, n, 368, 376);
    SubSlice(file, 0, n, 376, 380);
    SubSlice(file, 0, n, 384, 388);
  }

  lemma EmittedWords(c: Labels, size: nat, file: seq<byte>)
    requires LabelsOk(c) && SizeFits(size) && EmittedHeader(c, size) <= file
    ensures |file| >= FILE_HEADER_SIZE
    ensures Word32(file, 64) == VDI_IMAGE_SIGNATURE && Word32(file, 68) == VDI_IMAGE_VERSION
    ensures Word32(file, 340) == FILE_HEADER_SIZE && Word32(file, 344) == HeaderSize(size)
    ensures Word64(file, 368) == size && Word32(file, 376) == VDI_IMAGE_BLOCK_SIZE && Word32(file, 384) == BlockCount(size)
  {
    hide EmittedHeader, FileHeader, Preheader, Offsets, Geometry, HeaderSize, BlockCount, Word32, Word64, SizeFits, LabelsOk;
    PreheaderFields(c);
    OffsetsFields(size);
    GeometryFields(size);
    HeaderParts(c, size, file);
    WordIn(file, 0, Preheader(c), 64);
    WordIn(file, 0, Preheader(c), 68);
    WordIn(file, 340, Offsets(size), 0);
    WordIn(file, 340, Offsets(size), 4);
    LongIn(file, 368, Geometry(size), 0);
    WordIn(file, 368, Geometry(size), 8);
    WordIn(file, 368, Geometry(size), 16);
  }

  /** What the reader's header structure holds after reading an emitted header. */
  lemma EmittedFields(c: Labels, size: nat, file: seq<byte>)
    requires LabelsOk(c) && SizeFits(size) && EmittedHeader(c, size) <= file
    ensures |file| >= FILE_HEADER_SIZE
    ensures ParseFields(file[..READ_HEADER_SIZE]) ==
      Header(VDI_IMAGE_SIGNATURE, VDI_IMAGE_VERSION, FILE_HEADER_SIZE, HeaderSize(size), size, VDI_IMAGE_BLOCK_SIZE, BlockCount(size))
  {
    hide EmittedHeader, HeaderSize, BlockCount, Word32, Word64, SizeFits;
    EmittedWords(c, size, file);
    Shorter(file, READ_HEADER_SIZE);
  }

  /** Entry i of the block map behind an emitted header. */
  lemma EmittedMapEntry(c: Labels, size: nat, file: seq<byte>, i: nat)
    requires LabelsOk(c) && SizeFits(size) && EmittedHeader(c, size) <= file && i < BlockCount(size)
    ensures Word32(file, FILE_HEADER_SIZE + 4 * i) == i
  {
    hide FileHeader, BlockMap, Le, FromLe;
    BlockMapEntry(BlockCount(size), i);
    var blockMap := BlockMap(BlockCount(size));
    var at := FILE_HEADER_SIZE + 4 * i;
    assert file[at..at + 4] == EmittedHeader(c, size)[at..at + 4];
    SliceRight(FileHeader(c, size), blockMap, 4 * i, 4 * i + 4);
  }
}
