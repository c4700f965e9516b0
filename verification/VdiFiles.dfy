/** VDI files as any program may have written them: all header fields free, blocks in any order, and some of them not stored. */
module VdiFiles {
  import opened Bytes
  import opened Lookup
  import F = VdiFormat
  import opened VdiInput

  // ----- the header, field by field -----

  /** t_VdiHeader */
  datatype Fields = Fields(
    text: seq<byte>, signature: nat, version: nat, headerSize: nat, imageType: nat, imageFlags: nat, description: seq<byte>,
    offsetBmap: nat, offsetData: nat, cylinders: nat, heads: nat, sectors: nat, sectorSize: nat, unused1: nat,
    diskSize: nat, blockSize: nat, blockExtra: nat, blocksInImage: nat, blocksAllocated: nat, uuids: seq<byte>)
  {
    predicate Fit() {
      && |text| == 64 && |description| == 256 && |uuids| == 64
      && signature < U32 && version < U32 && offsetBmap < U32 && offsetData < U32
      && diskSize < U64 && blockSize < U32 && blocksInImage < U32
    }
  }

  function Front(f: Fields): (s: seq<byte>)
    requires f.Fit()
    ensures |s| == 84
  {
    f.text + Le(f.signature, 4) + Le(f.version, 4) + Le(f.headerSize, 4) + Le(f.imageType, 4) + Le(f.imageFlags, 4)
  }

  function Middle(f: Fields): (s: seq<byte>)
    ensures |s| == 28
  {
    Le(f.offsetBmap, 4) + Le(f.offsetData, 4)
    + Le(f.cylinders, 4) + Le(f.heads, 4) + Le(f.sectors, 4) + Le(f.sectorSize, 4) + Le(f.unused1, 4)
  }

  function Sizes(f: Fields): (s: seq<byte>)
    ensures |s| == 24
  {
    Le(f.diskSize, 8) + Le(f.blockSize, 4) + Le(f.blockExtra, 4) + Le(f.blocksInImage, 4) + Le(f.blocksAllocated, 4)
  }

  function Printed(f: Fields): (s: seq<byte>)
    requires f.Fit()
    ensures |s| == 456
  {
    Front(f) + f.description + Middle(f) + Sizes(f) + f.uuids
  }

  lemma FrontFields(f: Fields)
    requires f.Fit()
    ensures Word32(Front(f), 64) == f.signature && Word32(Front(f), 68) == f.version
  {
    hide Le, FromLe;
    Le4(f.signature);
    Le4(f.version);
    assert Front(f)[64..68] == Le(f.signature, 4) && Front(f)[68..72] == Le(f.version, 4);
  }

  lemma MiddleFields(f: Fields)
    requires f.Fit()
    ensures Word32(Middle(f), 0) == f.offsetBmap && Word32(Middle(f), 4) == f.offsetData
  {
    hide Le, FromLe;
    Le4(f.offsetBmap);
    Le4(f.offsetData);
    assert Middle(f)[0..4] == Le(f.offsetBmap, 4) && Middle(f)[4..8] == Le(f.offsetData, 4);
  }

  lemma SizesFields(f: Fields)
    requires f.Fit()
    ensures Word64(Sizes(f), 0) == f.diskSize && Word32(Sizes(f), 8) == f.blockSize && Word32(Sizes(f), 16) == f.blocksInImage
  {
    hide Le, FromLe;
    Le8(f.diskSize);
    Le4(f.blockSize);
    Le4(f.blocksInImage);
    assert Sizes(f)[0..8] == Le(f.diskSize, 8) && Sizes(f)[8..12] == Le(f.blockSize, 4) && Sizes(f)[16..20] == Le(f.blocksInImage, 4);
  }

  /** The reader takes each of its seven values from the right field, whatever the others are. */
  lemma FieldsRead(f: Fields, file: seq<byte>)
    requires f.Fit() && Printed(f) <= file
    ensures F.ParseFields(file) == F.Header(f.signature, f.version, f.offsetBmap, f.offsetData, f.diskSize, f.blockSize, f.blocksInImage)
  {
    hide Front, Middle, Sizes, Word32, Word64;
    FrontFields(f);
    MiddleFields(f);
    SizesFields(f);
    F.Parts(Front(f), f.description, Middle(f), Sizes(f), f.uuids, file);
    F.WordIn(file, 0, Front(f), 64);
    F.WordIn(file, 0, Front(f), 68);
    F.WordIn(file, 340, Middle(f), 0);
    F.WordIn(file, 340, Middle(f), 4);
    F.LongIn(file, 368, Sizes(f), 0);
    F.WordIn(file, 368, Sizes(f), 8);
    F.WordIn(file, 368, Sizes(f), 16);
  }

  /** The header that xmount emits is one of these. */
  lemma EmittedIsPrinted(c: F.Labels, size: nat)
    requires F.LabelsOk(c) && F.SizeFits(size)
    ensures var n := F.BlockCount(size);
      Fields(F.Padded(c.fileInfo, 64), 0xBEDA107F, 0x10001, 0x180, 2, 0, F.Padded(c.comment, 256),
             512, 512 + 4 * n, 0, 0, 0, 512, 0, size, 0x100000, 0, n, n, F.Uuids(c)[..64]).Fit()
    ensures var n := F.BlockCount(size);
      Printed(Fields(F.Padded(c.fileInfo, 64), 0xBEDA107F, 0x10001, 0x180, 2, 0, F.Padded(c.comment, 256),
                     512, 512 + 4 * n, 0, 0, 0, 512, 0, size, 0x100000, 0, n, n, F.Uuids(c)[..64])) <= F.EmittedHeader(c, size)
  {
    hide Le, F.Padded, F.BlockMap;
    var n, h := F.BlockCount(size), F.EmittedHeader(c, size);
    var f := Fields(F.Padded(c.fileInfo, 64), 0xBEDA107F, 0x10001, 0x180, 2, 0, F.Padded(c.comment, 256),
                    512, 512 + 4 * n, 0, 0, 0, 512, 0, size, 0x100000, 0, n, n, F.Uuids(c)[..64]);
    SameParts(f, c, size);
    hide Front, Middle, Sizes, F.Preheader, F.Offsets, F.Geometry, F.Uuids;
    assert F.FileHeader(c, size) == Printed(f) + F.Uuids(c)[64..];
  }

  lemma SameParts(f: Fields, c: F.Labels, size: nat)
    requires F.LabelsOk(c) && F.SizeFits(size)
    requires var n := F.BlockCount(size);
      f == Fields(F.Padded(c.fileInfo, 64), 0xBEDA107F, 0x10001, 0x180, 2, 0, F.Padded(c.comment, 256),
                  512, 512 + 4 * n, 0, 0, 0, 512, 0, size, 0x100000, 0, n, n, F.Uuids(c)[..64])
    ensures f.Fit() && Front(f) == F.Preheader(c) && Middle(f) == F.Offsets(size) && Sizes(f) == F.Geometry(size)
  {
    hide Le, F.Padded, F.BlockMap;
  }

  // ----- block map and blocks -----

  /** What the block map says of a block: it reads as zeros, or where among the stored blocks it is. */
  datatype Slot = Unallocated | Discarded | Stored(index: nat)

  function SlotBytes(s: Slot): (b: seq<byte>)
    ensures |b| == 4
  {
    match s
    case Unallocated => [0xff, 0xff, 0xff, 0xff]
    case Discarded => [0xfe, 0xff, 0xff, 0xff]
    case Stored(index) => Le(index, 4)
  }

  function MapBytes(slots: seq<Slot>): (s: seq<byte>)
    ensures |s| == 4 * |slots|
  {
    if slots == [] then [] else MapBytes(slots[..|slots| - 1]) + SlotBytes(slots[|slots| - 1])
  }

  /** A file with this header, this block map and these stored blocks, each in its place. */
  ghost predicate IsFile(file: seq<byte>, f: Fields, slots: seq<Slot>, blocks: seq<seq<byte>>) {
    && f.Fit() && Printed(f) <= file && |file| < MAX_SEEK
    && f.signature == 0xBEDA107F && f.version == 0x10001 && f.blockSize > 0 && f.blocksInImage == |slots| > 0
    && f.offsetBmap + 4 * |slots| <= |file| && file[f.offsetBmap..f.offsetBmap + 4 * |slots|] == MapBytes(slots)
    && (forall k :: 0 <= k < |blocks| ==> BlockHere(file, f, k, blocks[k]))
    && forall i :: 0 <= i < |slots| && slots[i].Stored? ==> slots[i].index < |blocks| && slots[i].index < 0xffff_fffe
  }

  ghost predicate BlockHere(file: seq<byte>, f: Fields, k: nat, block: seq<byte>) {
    var at := f.offsetData + k * f.blockSize;
    |block| == f.blockSize && at + f.blockSize <= |file| && file[at..at + f.blockSize] == block
  }

  lemma {:induction false} SlotHere(slots: seq<Slot>, i: nat)
    requires i < |slots|
    ensures MapBytes(slots)[4 * i..4 * i + 4] == SlotBytes(slots[i])
  {
    var last := |slots| - 1;
    if i < last {
      SlotHere(slots[..last], i);
      SliceLeft(MapBytes(slots[..last]), SlotBytes(slots[last]), 4 * i, 4 * i + 4);
    } else {
      SliceRight(MapBytes(slots[..last]), SlotBytes(slots[last]), 0, 4);
      assert SlotBytes(slots[last])[0..4] == SlotBytes(slots[last]);
    }
  }

  lemma SlotWord(s: Slot)
    requires s.Stored? ==> s.index < 0xffff_fffe
    ensures var entry := FromLe(SlotBytes(s)); if s.Stored? then entry == s.index && !IsNull(entry) else IsNull(entry)
  {
    match s {
      case Stored(index) => Le4(index);
      case Unallocated =>
        LeBytes4(0xffff_ffff, 0xff, 0xff, 0xff, 0xff);
        Le4(0xffff_ffff);
      case Discarded =>
        LeBytes4(0xffff_fffe, 0xfe, 0xff, 0xff, 0xff);
        Le4(0xffff_fffe);
    }
  }

  lemma FileOpens(file: seq<byte>, f: Fields, slots: seq<Slot>, blocks: seq<seq<byte>>)
    requires IsFile(file, f, slots, blocks)
    ensures OpenError(file) == VDI_OK
  {
    hide F.ParseFields, MapBytes, BlockHere;
    FieldsRead(f, file);
  }

  /** Byte ofs of a block: that of the stored block, or zero. */
  function BlockByte(slots: seq<Slot>, blocks: seq<seq<byte>>, block: nat, ofs: nat): byte {
    if block < |slots| && slots[block].Stored? && slots[block].index < |blocks| && ofs < |blocks[slots[block].index]|
    then blocks[slots[block].index][ofs] else 0
  }

  /** The disk has the bytes of the stored blocks where the map has these, and zeros elsewhere. */
  lemma FileByte(file: seq<byte>, f: Fields, slots: seq<Slot>, blocks: seq<seq<byte>>, d: Disk, block: nat, ofs: nat, pos: nat)
    requires IsFile(file, f, slots, blocks) && d.file == file && OpenedDisk(d)
    requires block < |slots| && ofs < f.blockSize && pos == block * f.blockSize + ofs
    ensures d.header.blockSize == f.blockSize && d.header.diskSize == f.diskSize
    ensures Cells(d)(pos) == Byte(BlockByte(slots, blocks, block, ofs))
  {
    hide F.ParseFields, MapBytes, Printed, Cells, FromLe, SlotBytes, IsNull, CellIn, FilePosition;
    FieldsRead(f, file);
    SlotHere(slots, block);
    SlotWord(slots[block]);
    SubSlice(file, f.offsetBmap, f.offsetBmap + 4 * |slots|, 4 * block, 4 * block + 4);
    InBlock(d, block, ofs, pos, 0);
    if slots[block].Stored? {
      StoredByte(file, f, slots[block].index, blocks[slots[block].index], d, block, ofs);
    } else {
      NullByte(d, block, ofs);
    }
  }

  lemma NullByte(d: Disk, block: nat, ofs: nat)
    requires block < |d.bmap| && IsNull(d.bmap[block])
    ensures CellIn(d, block, ofs) == Byte(0)
  {
  }

  lemma StoredByte(file: seq<byte>, f: Fields, k: nat, stored: seq<byte>, d: Disk, block: nat, ofs: nat)
    requires BlockHere(file, f, k, stored) && |file| < MAX_SEEK && ofs < f.blockSize
    requires d.file == file && d.header.offsetData == f.offsetData && d.header.blockSize == f.blockSize
    requires block < |d.bmap| && d.bmap[block] == k && !IsNull(k)
    ensures CellIn(d, block, ofs) == Byte(stored[ofs])
  {
    var at := f.offsetData + k * f.blockSize;
    assert file[at + ofs] == file[at..at + f.blockSize][ofs];
  }

  /** Opening any such file and reading from it gets the bytes of the stored blocks, and zeros elsewhere. */
  method OpenRead(file: seq<byte>, ghost f: Fields, ghost slots: seq<Slot>, ghost blocks: seq<seq<byte>>, p_buf: array<byte>, seek: nat, count: nat)
    returns (openRc: VdiError, rc: VdiError, read: nat)
    requires IsFile(file, f, slots, blocks) && 0 < count < U32 && count <= p_buf.Length
    requires seek + count <= f.diskSize && seek + count <= |slots| * f.blockSize
    modifies p_buf
    ensures openRc == VDI_OK && rc == VDI_OK && read == count
    ensures forall j: nat :: j < count ==> p_buf[j] == BlockByte(slots, blocks, Quotient(seek + j, f.blockSize), (seek + j) % f.blockSize)
    ensures p_buf[count..] == old(p_buf[count..])
  {
    hide F.ParseFields, IsFile, Available, Stretch, Cells, OpenedDisk, BlockByte, Outcome;
    FileOpens(file, f, slots, blocks);
    Bounds(file, f, slots, blocks);
    var vdi := new Vdi(file);
    openRc := vdi.Open();
    rc, read := VDI_OK, 0;
    if openRc != VDI_OK {
      return;
    }
    AllBytes(file, f, slots, blocks, vdi.D(), seek, count);
    DivMod(count, U32, 0);
    ghost var k, before := 0, p_buf[..];
    rc, read, k := vdi.Read(p_buf, seek, count);
    WholeRead(vdi.D(), seek, count, k, rc, before, p_buf[..]);
    forall j: nat | j < count
      ensures p_buf[j] == BlockByte(slots, blocks, Quotient(seek + j, f.blockSize), (seek + j) % f.blockSize)
    {
      assert Cells(vdi.D())(seek + j) == Byte(p_buf[..][j]);
    }
  }

  lemma Bounds(file: seq<byte>, f: Fields, slots: seq<Slot>, blocks: seq<seq<byte>>)
    requires IsFile(file, f, slots, blocks)
    ensures |file| < MAX_SEEK && f.blockSize > 0 && f.diskSize < U64
  {
  }

  lemma AllBytes(file: seq<byte>, f: Fields, slots: seq<Slot>, blocks: seq<seq<byte>>, d: Disk, seek: nat, count: nat)
    requires IsFile(file, f, slots, blocks) && d.file == file && OpenedDisk(d) && seek + count <= |slots| * f.blockSize && f.blockSize > 0
    ensures d.header.diskSize == f.diskSize
    ensures forall p: nat :: seek <= p < seek + count ==> Cells(d)(p) == Byte(BlockByte(slots, blocks, Quotient(p, f.blockSize), p % f.blockSize))
  {
    Header(file, f, slots, blocks, d);
    hide IsFile, OpenedDisk, Cells, BlockByte;
    forall p: nat | seek <= p < seek + count
      ensures Cells(d)(p) == Byte(BlockByte(slots, blocks, Quotient(p, f.blockSize), p % f.blockSize))
    {
      var block: nat := Quotient(p, f.blockSize);
      DivMod(p, f.blockSize, block);
      MulCancel(block, |slots|, f.blockSize);
      FileByte(file, f, slots, blocks, d, block, p % f.blockSize, p);
    }
  }

  lemma Header(file: seq<byte>, f: Fields, slots: seq<Slot>, blocks: seq<seq<byte>>, d: Disk)
    requires IsFile(file, f, slots, blocks) && d.file == file && OpenedDisk(d)
    ensures d.header.diskSize == f.diskSize
  {
    hide F.ParseFields, MapBytes, BlockHere;
    FieldsRead(f, file);
  }

  lemma WholeRead(d: Disk, seek: nat, n: nat, k: nat, rc: VdiError, before: seq<byte>, after: seq<byte>)
    requires Outcome(Cells(d), VDI_OK, seek, n, k, rc) && Copied(Cells(d), seek, k, before, after) && n <= |before|
    requires forall p: nat :: seek <= p < seek + n ==> Cells(d)(p).Byte?
    ensures rc == VDI_OK && k == n && |after| == |before| && after[n..] == before[n..]
    ensures forall j: nat :: j < n ==> Cells(d)(seek + j) == Byte(after[j])
  {
    hide Cells;
    AllRead(Cells(d), VDI_OK, seek, n);
    OutcomeUnique(Cells(d), VDI_OK, seek, n, k, rc, n, VDI_OK);
    forall j: nat | j < n
      ensures Cells(d)(seek + j) == Byte(after[j])
    {
      assert Stretch(Cells(d), seek, n)[j] == after[j];
      assert Cells(d)(seek + j).Byte?;
    }
  }

  // ----- such files exist, with any space in front of the map and in front of the data -----

  function FileOf(f: Fields, gap: seq<byte>, slots: seq<Slot>, gap2: seq<byte>, blocks: seq<seq<byte>>): seq<byte>
    requires f.Fit()
  {
    Printed(f) + gap + MapBytes(slots) + gap2 + Concat(blocks)
  }

  lemma FileOfIsFile(f: Fields, gap: seq<byte>, slots: seq<Slot>, gap2: seq<byte>, blocks: seq<seq<byte>>)
    requires f.Fit() && f.signature == 0xBEDA107F && f.version == 0x10001 && f.blockSize > 0 && f.blocksInImage == |slots| > 0
    requires f.offsetBmap == 456 + |gap| && f.offsetData == f.offsetBmap + 4 * |slots| + |gap2|
    requires forall k :: 0 <= k < |blocks| ==> |blocks[k]| == f.blockSize
    requires forall i :: 0 <= i < |slots| && slots[i].Stored? ==> slots[i].index < |blocks| && slots[i].index < 0xffff_fffe
    requires |FileOf(f, gap, slots, gap2, blocks)| < MAX_SEEK
    ensures IsFile(FileOf(f, gap, slots, gap2, blocks), f, slots, blocks)
  {
    hide Printed, MapBytes, Concat;
    var file := FileOf(f, gap, slots, gap2, blocks);
    F.Parts(Printed(f), gap, MapBytes(slots), gap2, Concat(blocks), file);
    forall k | 0 <= k < |blocks|
      ensures BlockHere(file, f, k, blocks[k])
    {
      EqualBlocks(blocks, f.blockSize, k);
      SubSlice(file, f.offsetData, |file|, k * f.blockSize, k * f.blockSize + f.blockSize);
    }
  }

  lemma {:induction false} EqualBlocks(blocks: seq<seq<byte>>, size: nat, k: nat)
    requires k < |blocks| && forall i :: 0 <= i < |blocks| ==> |blocks[i]| == size
    ensures |Concat(blocks)| == |blocks| * size && k * size + size <= |blocks| * size
    ensures Concat(blocks)[k * size..k * size + size] == blocks[k]
  {
    var last := |blocks| - 1;
    var most := blocks[..last];
    NextBlock(last, size);
    MulMono(k, last, size);
    if k < last {
      EqualBlocks(most, size, k);
      SliceLeft(Concat(most), blocks[last], k * size, k * size + size);
    } else {
      if last > 0 {
        EqualBlocks(most, size, 0);
      }
      SliceRight(Concat(most), blocks[last], 0, size);
    }
  }
}
