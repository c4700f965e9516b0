/** The emulated output image: reading and writing it, block by block, through the cache file. */
module VirtImage {
  import opened Bytes
  import opened Stdio
  import opened CacheLayout

  datatype ImageType = DD | DMG | VDI | VMDK | VMDKS | VHD

  const TRUE := 1
  const EIO := 5     // errno.h

  function NeededBlocks(size: nat, blockSize: nat): nat
    requires blockSize > 0
  {
    size / blockSize + if size % blockSize != 0 then 1 else 0
  }

  /** Every position of the image lies in one of the needed blocks. */
  lemma BlockInIndex(size: nat, blockSize: nat, c: nat)
    requires blockSize > 0 && c * blockSize < size
    ensures c < NeededBlocks(size, blockSize)
  {
    var q := size / blockSize;
    DivMod(size, blockSize, q);
    assert (q + 1) * blockSize == q * blockSize + blockSize;
    MulCancel(c, NeededBlocks(size, blockSize), blockSize);
  }

  /** The blocks are just enough to hold the image, and no other number of blocks is. */
  lemma JustEnough(size: nat, blockSize: nat, n: nat)
    requires blockSize > 0
    ensures n == NeededBlocks(size, blockSize) <==> size <= n * blockSize && (n > 0 ==> (n - 1) * blockSize < size)
  {
    var q, needed := size / blockSize, NeededBlocks(size, blockSize);
    DivMod(size, blockSize, q);
    NextBlock(q, blockSize);
    assert size <= needed * blockSize && (needed > 0 ==> (needed - 1) * blockSize < size);
    if size <= n * blockSize && (n > 0 ==> (n - 1) * blockSize < size) {
      if n < needed {
        MulMono(n, needed - 1, blockSize);
      } else if n > needed {
        MulMono(needed, n - 1, blockSize);
      }
    }
  }

  /** A write of n bytes at image position p that reaches the end of the image inside a short, uncached last block. */
  predicate ReachesShortTail(l: Layout, size: nat, p: nat, n: nat)
    requires l.blockSize > 0
  {
    n > 0 && p + n == size && size % l.blockSize != 0 && !Live(l, Block(size / l.blockSize))
  }

  /** Bytes done..blockSize of the block that starts at `base`: image data, then zeros where the image has ended. */
  function Tail(image: seq<byte>, blockSize: nat, base: nat, done: nat): (s: seq<byte>)
    requires done <= blockSize && base + done <= |image|
    ensures |s| == blockSize - done
  {
    if base + blockSize > |image| then image[base + done..] + Zeros(base + blockSize - |image|)
    else image[base + done..base + blockSize]
  }

  /** The bytes of the block that starts at `base`, with `changed` written over position at. */
  function NewBlock(image: seq<byte>, blockSize: nat, base: nat, at: nat, changed: seq<byte>): (s: seq<byte>)
    requires at + |changed| <= blockSize && base + at + |changed| <= |image|
    ensures |s| == blockSize
  {
    image[base..base + at] + changed + Tail(image, blockSize, base, at + |changed|)
  }

  lemma NewBlockBytes(image: seq<byte>, blockSize: nat, base: nat, at: nat, changed: seq<byte>, j: nat)
    requires at + |changed| <= blockSize && base + at + |changed| <= |image|
    requires j < blockSize && base + j < |image|
    ensures NewBlock(image, blockSize, base, at, changed)[j] ==
      if at <= j < at + |changed| then changed[j - at] else image[base + j]
  {
  }

  /**
   * Where n blocks are just enough for the image: an existing file is accepted if and only if it has a header and 12 bytes
   * for each block, with signature, version and block size in their places. The file xmount starts with is that long.
   */
  lemma AcceptedFile(data: seq<byte>, size: nat, blockSize: nat, n: nat)
    requires blockSize > 0 && size <= n * blockSize && (n > 0 ==> (n - 1) * blockSize < size)
    ensures Accepted(data, blockSize, NeededBlocks(size, blockSize)) <==>
      && |data| >= 512 + 12 * n
      && FromLe(data[0..8]) == 0xFFFF746E756F6D78 && FromLe(data[8..12]) == 2 && FromLe(data[12..20]) == blockSize
    ensures n < U32 && blockSize < U64 ==>
      var fresh0 := EncodeHeader(NewHeader(blockSize, n)) + Zeros(ENTRY_SIZE * n);
      |fresh0| == 512 + 12 * n && Accepted(fresh0, blockSize, NeededBlocks(size, blockSize))
  {
    JustEnough(size, blockSize, n);
    if n < U32 && blockSize < U64 {
      hide EncodeHeader, DecodeHeader, NeededBlocks;
      var h := NewHeader(blockSize, n);
      HeaderRoundTrip(h);
      SameHeaderBytes(EncodeHeader(h), EncodeHeader(h) + Zeros(ENTRY_SIZE * n));
    }
  }

  /** The output image from its parts. */
  function Whole(kind: ImageType, vdi: seq<byte>, data: seq<byte>, vhd: seq<byte>): seq<byte> {
    match kind
    case VDI => vdi + data
    case VHD => data + vhd
    case _ => data
  }

  function DataStart(kind: ImageType, vdiSize: nat): nat {
    if kind == VDI then vdiSize else 0
  }

  lemma WholeSize(kind: ImageType, vdi: seq<byte>, data: seq<byte>, vhd: seq<byte>)
    ensures |Whole(kind, vdi, data, vhd)| ==
      |data| + (if kind == VDI then |vdi| else 0) + if kind == VHD then |vhd| else 0
  {
  }

  lemma WholeData(kind: ImageType, vdi: seq<byte>, data: seq<byte>, vhd: seq<byte>, i: nat, n: nat)
    requires i + n <= |data|
    ensures DataStart(kind, |vdi|) + i + n <= |Whole(kind, vdi, data, vhd)|
    ensures Whole(kind, vdi, data, vhd)[DataStart(kind, |vdi|) + i..DataStart(kind, |vdi|) + i + n] == data[i..i + n]
  {
    match kind {
      case VDI => SliceRight(vdi, data, i, i + n);
      case VHD => SliceLeft(data, vhd, i, i + n);
      case _ =>
    }
  }

  lemma WholeVdi(vdi: seq<byte>, data: seq<byte>, vhd: seq<byte>, i: nat, n: nat)
    requires i + n <= |vdi|
    ensures i + n <= |Whole(VDI, vdi, data, vhd)|
    ensures Whole(VDI, vdi, data, vhd)[i..i + n] == vdi[i..i + n]
  {
    SliceLeft(vdi, data, i, i + n);
  }

  lemma WholeVhd(vdi: seq<byte>, data: seq<byte>, vhd: seq<byte>, i: nat, n: nat)
    requires i + n <= |vhd|
    ensures |data| + i + n <= |Whole(VHD, vdi, data, vhd)|
    ensures Whole(VHD, vdi, data, vhd)[|data| + i..|data| + i + n] == vhd[i..i + n]
  {
    SliceRight(data, vhd, i, i + n);
  }

  lemma WholeSpliceData(kind: ImageType, vdi: seq<byte>, data: seq<byte>, vhd: seq<byte>, i: nat, t: seq<byte>)
    requires i + |t| <= |data|
    ensures DataStart(kind, |vdi|) + i + |t| <= |Whole(kind, vdi, data, vhd)|
    ensures Whole(kind, vdi, Splice(data, i, t), vhd) == Splice(Whole(kind, vdi, data, vhd), DataStart(kind, |vdi|) + i, t)
  {
    match kind {
      case VDI => SpliceIntoRight(vdi, data, i, t);
      case VHD => SpliceIntoLeft(data, vhd, i, t);
      case _ =>
    }
  }

  lemma WholeSpliceVdi(vdi: seq<byte>, data: seq<byte>, vhd: seq<byte>, i: nat, t: seq<byte>)
    requires i + |t| <= |vdi|
    ensures i + |t| <= |Whole(VDI, vdi, data, vhd)|
    ensures Whole(VDI, Splice(vdi, i, t), data, vhd) == Splice(Whole(VDI, vdi, data, vhd), i, t)
  {
    SpliceIntoLeft(vdi, data, i, t);
  }

  lemma WholeSpliceVhd(vdi: seq<byte>, data: seq<byte>, vhd: seq<byte>, i: nat, t: seq<byte>)
    requires i + |t| <= |vhd|
    ensures |data| + i + |t| <= |Whole(VHD, vdi, data, vhd)|
    ensures Whole(VHD, vdi, data, Splice(vhd, i, t)) == Splice(Whole(VHD, vdi, data, vhd), |data| + i, t)
  {
    SpliceIntoRight(data, vhd, i, t);
  }

  /** The checks InitCacheFile makes on a cache file that is not empty. */
  predicate Accepted(data: seq<byte>, blockSize: nat, blocks: nat) {
    && EntryOffset(blocks) <= |data|
    && DecodeHeader(data).signature == CACHE_FILE_SIGNATURE
    && DecodeHeader(data).version == CUR_CACHE_FILE_VERSION
    && DecodeHeader(data).blockSize == blockSize
  }

  /** The parts of the global xmount structure that describe the output image and its cache. */
  class Xmount {
    const image: seq<byte>       // the morphed input image
    const kind: ImageType
    const blockSize: nat         // CACHE_BLOCK_SIZE
    const vdiHeader: seq<byte>   // emulated VDI header with block map
    const vhdFooter: seq<byte>   // emulated VHD footer
    var imageSize: nat           // size of the output image once it is known, else 0
    var cache: File?
    var header: CacheHeader
    var blkidx: array<Entry>

    ghost function L(): Layout
      reads this, blkidx
    {
      Layout(blockSize, |vdiHeader|, header, blkidx[..])
    }

    ghost function Data(): (s: seq<byte>)
      reads this, cache, blkidx
      requires blockSize > 0
      ensures |s| == |image|
    {
      if cache == null then image else DataView(L(), image, cache.data)
    }

    ghost function Part(o: Owner): seq<byte>
      reads this, cache, blkidx
    {
      var original := if o.VdiHeader? then vdiHeader else vhdFooter;
      if cache == null then original else PartView(L(), o, original, cache.data)
    }

    /** The output image as one flat array of bytes. */
    ghost function View(): seq<byte>
      reads this, cache, blkidx
      requires blockSize > 0
    {
      Whole(kind, Part(VdiHeader), Data(), Part(VhdFooter))
    }

    function ViewSize(): nat {
      |image| + (if kind == VDI then |vdiHeader| else 0) + if kind == VHD then |vhdFooter| else 0
    }

    ghost predicate CacheOk()
      requires blockSize > 0
      reads this, cache, blkidx
    {
      cache != null ==>
        && cache.Valid()
        && blkidx.Length == NeededBlocks(|image|, blockSize)
        && Ready(L(), cache.data)
    }

    ghost predicate SizesOk()
      reads this
    {
      && blockSize > 0
      && |vdiHeader| > 0
      && |vhdFooter| == VHD_FOOTER_SIZE
      && (imageSize == 0 || imageSize == ViewSize())
    }

    ghost predicate Valid()
      reads this, cache, blkidx
      ensures Valid() ==> blockSize > 0
    {
      SizesOk() && CacheOk()
    }

    /** What Ready says, where only that is needed. */
    lemma CacheFacts()
      requires Valid() && cache != null
      ensures LayoutOk(L(), |cache.data|) && HeaderOk(L()) && OnDisk(L(), cache.data)
    {
    }

    lemma ViewLength()
      requires Valid()
      ensures |Part(VdiHeader)| == |vdiHeader| && |Part(VhdFooter)| == |vhdFooter|
      ensures |View()| == ViewSize()
    {
    }

    /** The views depend on the cache file's bytes, not on where it is positioned. */
    twostate lemma SameView()
      requires blockSize > 0
      requires cache == old(cache) && header == old(header) && blkidx == old(blkidx)
      requires blkidx[..] == old(blkidx[..])
      requires cache != null ==> cache.data == old(cache.data)
      ensures Data() == old(Data()) && View() == old(View())
      ensures Part(VdiHeader) == old(Part(VdiHeader)) && Part(VhdFooter) == old(Part(VhdFooter))
    {
      hide DataView, PartView, Live;
    }

    /** Attaching a cache file with these contents would give this header, image and footer. */
    ghost predicate Recovers(h: seq<byte>, vdi: seq<byte>, data: seq<byte>, vhd: seq<byte>) {
      && blockSize > 0
      && WellFormed(h, blockSize, |vdiHeader|, NeededBlocks(|image|, blockSize))
      && var d := DiskLayout(h, blockSize, |vdiHeader|, NeededBlocks(|image|, blockSize));
         vdi == PartView(d, VdiHeader, vdiHeader, h) && data == DataView(d, image, h) && vhd == PartView(d, VhdFooter, vhdFooter, h)
    }

    lemma RecoverFrom(l: Layout, h: seq<byte>)
      requires Ready(l, h) && l.blockSize == blockSize > 0 && l.vdiSize == |vdiHeader|
      requires |l.idx| == NeededBlocks(|image|, blockSize)
      ensures Recovers(h, PartView(l, VdiHeader, vdiHeader, h), DataView(l, image, h), PartView(l, VhdFooter, vhdFooter, h))
    {
      hide Ready, DataView, Content, NeededBlocks;
      Indexed(l, h);
      Reload(l, DiskLayout(h, l.blockSize, l.vdiSize, |l.idx|), image, h);
    }

    /** The same for contents in which every region still has the bytes it had in `data`. */
    lemma RecoverSame(l: Layout, data: seq<byte>, m: Layout, h: seq<byte>)
      requires Ready(m, h) && l.blockSize == m.blockSize == blockSize > 0 && m.vdiSize == |vdiHeader|
      requires |m.idx| == NeededBlocks(|image|, blockSize)
      requires forall o :: Live(m, o) == Live(l, o)
      requires forall o :: Live(l, o) ==> Content(m, o, h) == Content(l, o, data)
      ensures Recovers(h, PartView(l, VdiHeader, vdiHeader, data), DataView(l, image, data), PartView(l, VhdFooter, vhdFooter, data))
    {
      hide Ready, DataView, Content, Live, NeededBlocks, Recovers;
      DataFrame(l, m, image, data, h);
      RecoverFrom(m, h);
    }

    /** While a block is being stored behind `data`, the file still shows what it showed before. */
    lemma RecoverUnstored(l: Layout, m: Layout, data: seq<byte>, h: seq<byte>, c: nat, offData: nat)
      requires Ready(l, data) && data <= h && l.blockSize == blockSize > 0 && l.vdiSize == |vdiHeader|
      requires |l.idx| == NeededBlocks(|image|, blockSize)
      requires c < |l.idx| && !Live(l, Block(c))
      requires m == l.(idx := l.idx[c := l.idx[c].(offData := offData)])
      ensures Recovers(h, PartView(l, VdiHeader, vdiHeader, data), DataView(l, image, data), PartView(l, VhdFooter, vhdFooter, data))
    {
      hide Ready, DataView, PartView, Content, Live, NeededBlocks, Recovers;
      NotStored(l, m, image, data, h, c, offData);
      RecoverSame(l, data, m, h);
    }

    /** While a header or footer is being stored behind `data`, the file still shows what it showed before. */
    lemma RecoverUnstoredPart(l: Layout, m: Layout, data: seq<byte>, h: seq<byte>, o: Owner, pos: nat)
      requires Ready(l, data) && data <= h && l.blockSize == blockSize > 0 && l.vdiSize == |vdiHeader| && pos < U64
      requires |l.idx| == NeededBlocks(|image|, blockSize)
      requires (o.VdiHeader? || o.VhdFooter?) && !Live(l, o)
      requires m == l.(header := if o.VdiHeader? then l.header.(pVdi := pos) else l.header.(pVhd := pos))
      ensures Recovers(h, PartView(l, VdiHeader, vdiHeader, data), DataView(l, image, data), PartView(l, VhdFooter, vhdFooter, data))
    {
      hide Ready, DataView, PartView, Content, Live, NeededBlocks, Recovers;
      ForgetPartPosition(l, m, data, o, pos);
      PartNotStored(l, m, image, data, h);
      RecoverSame(l, data, m, h);
    }

    static lemma Indexed(l: Layout, h: seq<byte>)
      requires Ready(l, h)
      ensures IndexEnd(l) <= |h|
    {
    }

    /** The file shows the image with some first part of buf written at `offset`, cut at a block boundary. */
    ghost predicate ShowsPiece(h: seq<byte>, vdi: seq<byte>, data: seq<byte>, vhd: seq<byte>, offset: nat, buf: seq<byte>)
      requires blockSize > 0 && offset + |buf| <= |data|
    {
      exists k: nat :: k <= |buf| && BlockCut(offset, k, |buf|) && Recovers(h, vdi, Splice(data, offset, buf[..k]), vhd)
    }

    predicate BlockCut(offset: nat, k: nat, n: nat)
      requires blockSize > 0
    {
      k == 0 || k == n || (offset + k) % blockSize == 0
    }

    /** Each write to the cache file since then left it recoverable, with the state before or the state after the change. */
    twostate predicate CrashSafe()
      requires cache == old(cache) && cache != null && blockSize > 0
      reads this, cache, blkidx
    {
      && old(cache.log) <= cache.log
      && forall k :: |old(cache.log)| <= k < |cache.log| ==>
        || Recovers(cache.log[k], old(Part(VdiHeader)), old(Data()), old(Part(VhdFooter)))
        || Recovers(cache.log[k], Part(VdiHeader), Data(), Part(VhdFooter))
    }

    /** Before a cache file is attached. */
    constructor (image: seq<byte>, kind: ImageType, blockSize: nat, vdiHeader: seq<byte>, vhdFooter: seq<byte>)
      requires blockSize > 0 && |vdiHeader| > 0 && |vhdFooter| == VHD_FOOTER_SIZE
      ensures Valid() && cache == null
      ensures this.image == image && this.kind == kind && this.blockSize == blockSize
      ensures this.vdiHeader == vdiHeader && this.vhdFooter == vhdFooter
    {
      this.image, this.kind, this.blockSize := image, kind, blockSize;
      this.vdiHeader, this.vhdFooter := vdiHeader, vhdFooter;
      this.imageSize := 0;
      this.cache := null;
      this.header := CacheHeader(0, 0, 0, 0, 0, 0, 0, 0, 0, 0, 0, 0, []);
      this.blkidx := new Entry[0];
    }

    /**
     * Attaches a cache file: reads back the header and index of one that has content, or starts a new one.
     * A file that does not exist yet is an empty one.
     */
    method InitCacheFile(file: File, overwrite: bool) returns (ok: bool)
      requires Valid() && cache == null && file.Valid() && blockSize < U64 && NeededBlocks(|image|, blockSize) < U32
      requires !overwrite && |file.data| >= HEADER_SIZE ==> DecodeHeader(file.data).pBlockIndex == HEADER_SIZE
      modifies this, file
      ensures file.Valid() && imageSize == old(imageSize)
      ensures !overwrite && old(file.data) != [] ==>
        && file.data == old(file.data)
        && (ok <==> Accepted(file.data, blockSize, NeededBlocks(|image|, blockSize)))
        && (ok ==> cache == file && L() == DiskLayout(file.data, blockSize, |vdiHeader|, NeededBlocks(|image|, blockSize)))
        && (ok && WellFormed(file.data, blockSize, |vdiHeader|, NeededBlocks(|image|, blockSize)) ==> Valid())
      ensures overwrite || old(file.data) == [] ==>
        && (ok <==> EntryOffset(NeededBlocks(|image|, blockSize)) <= file.capacity)
        && (ok ==> cache == file && Valid() && Data() == image)
        && (ok ==> forall o :: !Live(L(), o))
        && (ok ==> header == NewHeader(blockSize, NeededBlocks(|image|, blockSize)))
        && (ok ==> file.data == EncodeHeader(header) + Zeros(ENTRY_SIZE * NeededBlocks(|image|, blockSize)))
        && (!ok ==> CutShort(file.data, NeededBlocks(|image|, blockSize)))
      ensures ok ==> fresh(blkidx)
    {
      hide Ready, DataView, Live, NeededBlocks, Accepted, DiskLayout;
      if overwrite {
        file.data, file.pos := [], 0;
      }
      var neededBlocks := NeededBlocks(|image|, blockSize);
      var fileSize := file.SeekEnd();
      if fileSize > 0 {
        ok := LoadCacheFile(file, neededBlocks);
      } else {
        ok := CreateCacheFile(file, neededBlocks);
      }
      if ok {
        cache := file;
      }
    }

    /** The part of InitCacheFile that writes the header and a free index into an empty file. */
    method CreateCacheFile(file: File, neededBlocks: nat) returns (ok: bool)
      requires file.Valid() && file.data == [] && file.pos == 0
      requires 0 < blockSize < U64 && neededBlocks < U32
      modifies `header, `blkidx, file
      ensures file.Valid() && fresh(blkidx) && blkidx.Length == neededBlocks
      ensures ok <==> EntryOffset(neededBlocks) <= file.capacity
      ensures ok ==> Ready(L(), file.data) && DataView(L(), image, file.data) == image && forall o :: !Live(L(), o)
      ensures ok ==> header == NewHeader(blockSize, neededBlocks) && file.data == EncodeHeader(header) + Zeros(ENTRY_SIZE * neededBlocks)
      ensures !ok ==> CutShort(file.data, neededBlocks)
    {
      hide Ready, DataView, Live, EncodeHeader;
      header := NewHeader(blockSize, neededBlocks);
      blkidx := new Entry[neededBlocks](_ => Entry(0, 0));
      ok := file.Write(EncodeHeader(header) + Zeros(ENTRY_SIZE * neededBlocks));
      if ok {
        NewFile(L(), image, file.data);
      }
    }

    /** What a creation that fails leaves in the file: a first part of header and index. */
    ghost predicate CutShort(data: seq<byte>, neededBlocks: nat) {
      |data| < EntryOffset(neededBlocks) && data <= EncodeHeader(NewHeader(blockSize, neededBlocks)) + Zeros(ENTRY_SIZE * neededBlocks)
    }

    /** Nothing can be mounted from that, unless it is nothing at all: then a later mount starts a new cache file. */
    lemma CutShortRefused(data: seq<byte>)
      requires blockSize > 0 && CutShort(data, NeededBlocks(|image|, blockSize))
      ensures !Accepted(data, blockSize, NeededBlocks(|image|, blockSize))
      ensures forall vdi: seq<byte>, img: seq<byte>, vhd: seq<byte> :: !Recovers(data, vdi, img, vhd)
    {
    }

    /** The part of InitCacheFile that checks and reads an existing file. */
    method LoadCacheFile(file: File, neededBlocks: nat) returns (ok: bool)
      requires file.Valid()
      modifies `header, `blkidx, file`pos
      ensures ok <==> Accepted(file.data, blockSize, neededBlocks)
      ensures ok ==> fresh(blkidx) && blkidx.Length == neededBlocks
      ensures ok ==> L() == DiskLayout(file.data, blockSize, |vdiHeader|, neededBlocks)
    {
      hide DecodeEntry;
      var buf;
      file.Seek(0);
      ok, buf := file.Read(8);
      if !ok || FromLe(buf) != CACHE_FILE_SIGNATURE {
        return false;
      }
      ok, buf := file.Read(4);
      if !ok || FromLe(buf) != CUR_CACHE_FILE_VERSION {
        return false;
      }
      file.Seek(0);
      ok, buf := file.Read(EntryOffset(neededBlocks));
      if !ok {
        return;
      }
      SameHeaderBytes(buf, file.data);
      header := DecodeHeader(buf);
      if header.blockSize != blockSize {
        return false;
      }
      forall i | 0 <= i < neededBlocks
        ensures EntryAt(buf, i) == EntryAt(file.data, i)
      {
        PrefixSlice(buf, file.data, |buf|, EntryOffset(i), EntryOffset(i) + ENTRY_SIZE);
      }
      blkidx := new Entry[neededBlocks](i requires 0 <= i < neededBlocks => EntryAt(buf, i));
    }

    method GetVirtImageSize() returns (size: nat)
      requires Valid()
      modifies `imageSize
      ensures Valid() && size == ViewSize()
      ensures View() == old(View()) && Data() == old(Data()) && L() == old(L())
      ensures Part(VdiHeader) == old(Part(VdiHeader)) && Part(VhdFooter) == old(Part(VhdFooter))
    {
      hide Ready;
      if imageSize != 0 {
        return imageSize;
      }
      match kind {
        case VDI => size := |image| + |vdiHeader|;
        case VHD => size := |image| + VHD_FOOTER_SIZE;
        case _ => size := |image|;
      }
      imageSize := size;
      SameView();
    }

    /** TRUE with the bytes that are available, or 0 when the offset is at or behind the end of the image. */
    method GetMorphedImageData(offset: nat, size: nat) returns (ret: int, buf: seq<byte>)
      ensures ret == (if offset < |image| then 1 else 0)
      ensures ret == TRUE ==> buf == image[offset..Min(offset + size, |image|)]
      ensures ret != TRUE ==> buf == []
    {
      if offset >= |image| {
        return 0, [];
      }
      var toRead := if offset + size > |image| then |image| - offset else size;
      return TRUE, image[offset..offset + toRead];
    }

    // ----- which part of a request is image data -----

    /** The first image position a request at `offset` of the output image touches. */
    function DataFrom(offset: nat): nat {
      if kind != VDI then offset else if offset < |vdiHeader| then 0 else offset - |vdiHeader|
    }

    /** How many image bytes a request touches. */
    function DataCount(offset: nat, count: nat): nat {
      match kind
      case VDI => if offset >= |vdiHeader| then count else if offset + count > |vdiHeader| then offset + count - |vdiHeader| else 0
      case VHD => if offset >= |image| then 0 else Min(count, |image| - offset)
      case _ => count
    }

    // ----- reading -----

    /** Where bytes of block c of the image are. */
    lemma BlockSource(c: nat, at: nat, n: nat, fileOff: nat, base: nat)
      requires Valid() && base == c * blockSize && fileOff == base + at
      requires 0 < n && at + n <= blockSize && fileOff + n <= |image|
      ensures |Data()| == |image|
      ensures cache != null ==> c < blkidx.Length
      ensures cache != null && blkidx[c].flag == 1 ==>
        blkidx[c].offData + at + n <= |cache.data| && Data()[fileOff..fileOff + n] == cache.data[blkidx[c].offData + at..blkidx[c].offData + at + n]
      ensures cache == null || blkidx[c].flag != 1 ==> Data()[fileOff..fileOff + n] == image[fileOff..fileOff + n]
    {
      hide Ready, DataView, NeededBlocks, OnDisk, HeaderOk, Disjoint;
      BlockInIndex(|image|, blockSize, c);
      if cache != null {
        CacheFacts();
        BlockSlice(L(), image, cache.data, c, base, at, n);
        if blkidx[c].flag == 1 {
          assert Live(L(), Block(c)) && Start(L(), Block(c)) == blkidx[c].offData;
        } else {
          assert !Live(L(), Block(c));
        }
      }
    }

    /** Reads n bytes at position at of block c, which is position fileOff of the image. */
    method ReadFromBlock(c: nat, at: nat, n: nat, fileOff: nat, ghost base: nat) returns (ok: bool, piece: seq<byte>)
      requires Valid()
      requires base == c * blockSize && fileOff == base + at
      requires 0 < n && at + n <= blockSize && fileOff + n <= |image|
      modifies cache
      ensures Valid() && (cache != null ==> cache.data == old(cache.data))
      ensures ok && piece == Data()[fileOff..fileOff + n]
    {
      hide Ready, DataView, NeededBlocks, Live;
      BlockSource(c, at, n, fileOff, base);
      if cache != null && blkidx[c].flag == 1 {
        cache.Seek(blkidx[c].offData + at);
        ok, piece := cache.Read(n);
      } else {
        var ret;
        ret, piece := GetMorphedImageData(fileOff, n);
        ok := ret == TRUE && |piece| == n;
      }
    }

    /** The block loop of GetVirtImageData. */
    method ReadBlocks(p_buf: array<byte>, at: nat, offset: nat, size: nat) returns (ok: bool)
      requires Valid()
      requires offset + size <= |image| && at + size <= p_buf.Length
      modifies p_buf, cache
      ensures Valid() && (cache != null ==> cache.data == old(cache.data))
      ensures Data() == old(Data()) && Part(VdiHeader) == old(Part(VdiHeader)) && Part(VhdFooter) == old(Part(VhdFooter))
      ensures ok && p_buf[..] == Splice(old(p_buf[..]), at, Data()[offset..offset + size])
    {
      hide Ready, DataView, Splice, NeededBlocks;
      DivMod(offset, blockSize, offset / blockSize);
      var fileOff: nat, toRead: nat, bufPos: nat := offset, size, at;
      var curBlock: nat, blockOff: nat := offset / blockSize, offset % blockSize;
      ghost var data := Data();
      ghost var before := p_buf[..];
      assert data[offset..offset] == [];
      SpliceNothing(before, at);
      while toRead != 0
        invariant Valid() && (cache != null ==> cache.data == old(cache.data))
        invariant fileOff + toRead == offset + size <= |data| && offset <= fileOff && bufPos - at == fileOff - offset
        invariant toRead != 0 ==> curBlock * blockSize + blockOff == fileOff && blockOff < blockSize
        invariant p_buf[..] == Splice(before, at, data[offset..fileOff])
        invariant Data() == data
        decreases toRead
      {
        var curToRead := if blockOff + toRead > blockSize then blockSize - blockOff else toRead;
        var piece;
        ok, piece := ReadFromBlock(curBlock, blockOff, curToRead, fileOff, curBlock * blockSize);
        if !ok {
          return;
        }
        Memcpy(p_buf, bufPos, piece);
        SpliceContinue(before, at, data, offset, fileOff - offset, piece);
        NextBlock(curBlock, blockSize);
        curBlock, blockOff := curBlock + 1, 0;
        bufPos, toRead, fileOff := bufPos + curToRead, toRead - curToRead, fileOff + curToRead;
      }
      ok := true;
      SameView();
    }

    /** Where bytes of the header or footer are. */
    lemma PartSource(o: Owner, from: nat, size: nat)
      requires Valid() && (o.VdiHeader? || o.VhdFooter?) && from + size <= |Part(o)|
      ensures var flag, start, original := if o.VdiHeader? then header.vdiCached else header.vhdCached,
                if o.VdiHeader? then header.pVdi else header.pVhd, if o.VdiHeader? then vdiHeader else vhdFooter;
        && (cache != null ==> (Live(L(), o) <==> flag == 1))
        && (if cache != null && flag == 1
            then start + from + size <= |cache.data| && Part(o)[from..from + size] == cache.data[start + from..start + from + size]
            else from + size <= |original| && Part(o)[from..from + size] == original[from..from + size])
    {
      hide OnDisk, HeaderOk, Disjoint, DataView, NeededBlocks;
      if cache != null && Live(L(), o) {
        CacheFacts();
        var start := Start(L(), o);
        assert Part(o) == cache.data[start..start + Size(L(), o)];
        SubSlice(cache.data, start, start + Size(L(), o), from, from + size);
      }
    }

    /** Reads from the VDI header or VHD footer, cached or emulated; a cached one refuses to read 0 bytes. */
    method ReadPart(o: Owner, p_buf: array<byte>, at: nat, from: nat, size: nat) returns (ok: bool)
      requires Valid() && (o.VdiHeader? || o.VhdFooter?)
      requires from + size <= |Part(o)| && at + size <= p_buf.Length
      modifies p_buf, cache
      ensures Valid() && (cache != null ==> cache.data == old(cache.data))
      ensures Data() == old(Data()) && Part(VdiHeader) == old(Part(VdiHeader)) && Part(VhdFooter) == old(Part(VhdFooter))
      ensures ok <==> !(size == 0 && cache != null && Live(L(), o))
      ensures ok ==> p_buf[..] == Splice(old(p_buf[..]), at, Part(o)[from..from + size])
      ensures !ok ==> p_buf[..] == old(p_buf[..])
    {
      hide Ready, DataView, Splice, NeededBlocks, Live;
      PartSource(o, from, size);
      var isCached := if o.VdiHeader? then header.vdiCached else header.vhdCached;
      if cache != null && isCached == 1 {
        var start := if o.VdiHeader? then header.pVdi else header.pVhd;
        cache.Seek(start + from);
        var piece;
        ok, piece := cache.Read(size);
        if ok {
          Memcpy(p_buf, at, piece);
        }
      } else {
        var original := if o.VdiHeader? then vdiHeader else vhdFooter;
        Memcpy(p_buf, at, original[from..from + size]);
        ok := true;
      }
      SameView();
    }

    /** Reading 0 bytes from a VDI header that has been cached. */
    ghost predicate EmptyReadOfCachedHeader(offset: nat, size: nat)
      reads this, blkidx
    {
      size == 0 && kind == VDI && offset < |vdiHeader| && cache != null && Live(L(), VdiHeader)
    }

    /** The part of GetVirtImageData that serves the VDI header; `done` bytes of the request are then served. */
    method ReadLeading(p_buf: array<byte>, offset: nat, count: nat) returns (ok: bool, done: nat)
      requires Valid() && offset + count <= ViewSize() && count <= p_buf.Length
      modifies p_buf, cache
      ensures Valid() && (cache != null ==> cache.data == old(cache.data))
      ensures View() == old(View()) && |View()| == ViewSize()
      ensures ok <==> !EmptyReadOfCachedHeader(offset, count)
      ensures ok ==> done == (if kind == VDI && offset < |vdiHeader| then Min(count, |vdiHeader| - offset) else 0)
      ensures ok ==> offset + done <= |View()| && p_buf[..] == Splice(old(p_buf[..]), 0, View()[offset..offset + done])
      ensures !ok ==> p_buf[..] == old(p_buf[..])
    {
      hide Ready, Splice, Valid, Whole, Data, Part, Live;
      ViewLength();
      if kind == VDI && offset < |vdiHeader| {
        done := if offset + count > |vdiHeader| then |vdiHeader| - offset else count;
        WholeVdi(Part(VdiHeader), Data(), Part(VhdFooter), offset, done);
        ok := ReadPart(VdiHeader, p_buf, 0, offset, done);
      } else {
        ok, done := true, 0;
        assert View()[offset..offset] == [];
        SpliceNothing(p_buf[..], 0);
      }
    }

    /** The part of GetVirtImageData that serves n bytes of the image, which are those at `offset` of the output image. */
    method ReadMiddle(p_buf: array<byte>, at: nat, fileOff: nat, n: nat, ghost offset: nat) returns (ok: bool)
      requires Valid() && fileOff + n <= |image| && at + n <= p_buf.Length
      requires offset == DataStart(kind, |vdiHeader|) + fileOff
      modifies p_buf, cache
      ensures Valid() && (cache != null ==> cache.data == old(cache.data))
      ensures View() == old(View()) && |View()| == ViewSize()
      ensures ok && p_buf[..] == Splice(old(p_buf[..]), at, View()[offset..offset + n])
    {
      hide Ready, Splice, Valid, Whole, Data, Part, Live;
      ViewLength();
      WholeData(kind, Part(VdiHeader), Data(), Part(VhdFooter), fileOff, n);
      ok := ReadBlocks(p_buf, at, fileOff, n);
    }

    /** The part of GetVirtImageData that serves n bytes of the VHD footer. */
    method ReadTrailing(p_buf: array<byte>, at: nat, offset: nat, n: nat) returns (ok: bool)
      requires Valid() && kind == VHD && |image| <= offset && 0 < n && offset + n <= ViewSize() && at + n <= p_buf.Length
      modifies p_buf, cache
      ensures Valid() && (cache != null ==> cache.data == old(cache.data))
      ensures View() == old(View()) && |View()| == ViewSize()
      ensures ok && p_buf[..] == Splice(old(p_buf[..]), at, View()[offset..offset + n])
    {
      hide Ready, Splice, Valid, Whole, Data, Part, Live;
      ViewLength();
      WholeVhd(Part(VdiHeader), Data(), Part(VhdFooter), offset - |image|, n);
      ok := ReadPart(VhdFooter, p_buf, at, offset - |image|, n);
    }

    /** GetVirtImageData for a request that lies inside the output image. */
    method ReadParts(p_buf: array<byte>, offset: nat, count: nat) returns (ok: bool)
      requires Valid() && offset + count <= ViewSize() && count <= p_buf.Length
      modifies p_buf, cache
      ensures Valid() && View() == old(View()) && |View()| == ViewSize() && (cache != null ==> cache.data == old(cache.data))
      ensures ok <==> !old(EmptyReadOfCachedHeader(offset, count))
      ensures p_buf[..] == if ok then Splice(old(p_buf[..]), 0, View()[offset..offset + count]) else old(p_buf[..])
    {
      hide Ready, Splice, Valid, View, Data, Part, Live, EmptyReadOfCachedHeader, NeededBlocks;
      ViewLength();
      ghost var view, before := View(), p_buf[..];
      var done: nat;
      ok, done := ReadLeading(p_buf, offset, count);
      if !ok {
        return;
      }
      var toRead := DataCount(offset, count);
      assert done + toRead <= count;
      if toRead != 0 {
        ok := ReadMiddle(p_buf, done, DataFrom(offset), toRead, offset + done);
        if !ok {
          return;
        }
        SpliceContinue(before, 0, view, offset, done, view[offset + done..offset + done + toRead]);
        done := done + toRead;
      }
      if done != count {
        ok := ReadTrailing(p_buf, done, offset + done, count - done);
        if !ok {
          return;
        }
        SpliceContinue(before, 0, view, offset, done, view[offset + done..offset + count]);
      }
    }

    /** Reads at most size bytes; the result is the number of bytes read or a negated error code. */
    method GetVirtImageData(p_buf: array<byte>, offset: nat, size: nat) returns (ret: int)
      requires Valid() && size <= p_buf.Length
      modifies p_buf, `imageSize, cache
      ensures Valid() && View() == old(View()) && (cache != null ==> cache.data == old(cache.data))
      ensures Data() == old(Data()) && Part(VdiHeader) == old(Part(VdiHeader)) && Part(VhdFooter) == old(Part(VhdFooter))
      ensures ret == -5 <==> old(EmptyReadOfCachedHeader(offset, size))
      ensures ret != -5 ==> ret == if offset < |View()| then Min(size, |View()| - offset) else 0
      ensures ret >= 0 && offset < |View()| ==> p_buf[..] == Splice(old(p_buf[..]), 0, View()[offset..offset + ret])
      ensures ret < 0 || offset >= |View()| ==> p_buf[..] == old(p_buf[..])
    {
      hide Ready, Splice, Valid, View, Data, Part, Live, NeededBlocks;
      ViewLength();
      var virtSize := GetVirtImageSize();
      if offset >= virtSize {
        return 0;
      }
      var count := if offset + size > virtSize then virtSize - offset else size;
      var ok := ReadParts(p_buf, offset, count);
      ret := if ok then count else -EIO;
      SameView();
    }

    // ----- writing -----

    /** Appends at the end of the cache file. */
    method Append(buf: seq<byte>) returns (ok: bool)
      requires cache != null && cache.Valid() && cache.pos == |cache.data| && buf != []
      modifies cache
      ensures cache.Valid() && old(cache.data) <= cache.data
      ensures ok ==> cache.data == old(cache.data) + buf && cache.pos == |cache.data|
      ensures !ok ==> old(|cache.data|) + |buf| > cache.capacity
      ensures cache.log == old(cache.log) + [cache.data]
    {
      ok := cache.Write(buf);
    }

    /** What follows the changed data in a new cache block: image data, and zeros where the image has ended. */
    method BlockSuffix(base: nat, done: nat) returns (ok: bool, buf: seq<byte>)
      requires 0 < done < blockSize && base + done <= |image|
      ensures ok <==> base + done < |image|
      ensures ok ==> buf == Tail(image, blockSize, base, done) && |buf| == blockSize - done
    {
      var ret: int;
      if base + blockSize > |image| {
        var p_buf2;
        ret, p_buf2 := GetMorphedImageData(base + done, |image| - (base + done));
        if ret != TRUE || |p_buf2| != |image| - (base + done) {
          return false, [];
        }
        buf := p_buf2 + Zeros(blockSize - done - |p_buf2|);
      } else {
        ret, buf := GetMorphedImageData(base + done, blockSize - done);
        if ret != TRUE || |buf| != blockSize - done {
          return false, [];
        }
        assert buf == buf + Zeros(0);
      }
      ok := true;
    }

    /**
     * Appends prefix, changed data and suffix of an uncached block to the cache file. Fails when the medium is full,
     * or when the data ends exactly at the end of the image without filling the block.
     */
    method StoreBlock(c: nat, at: nat, changed: seq<byte>, ghost base: nat) returns (ok: bool)
      requires cache != null && cache.Valid()
      requires 0 < |changed| && at + |changed| <= blockSize && base + at + |changed| <= |image| && base == c * blockSize
      modifies cache
      ensures old(cache.log) <= cache.log
      ensures forall k :: |old(cache.log)| <= k < |cache.log| ==> old(cache.data) <= cache.log[k]
      ensures cache.Valid() && old(cache.data) <= cache.data
      ensures ok ==> cache.data == old(cache.data) + NewBlock(image, blockSize, base, at, changed)
      ensures EndsInShortBlock(base, at + |changed|) ==> !ok
      ensures !ok ==> EndsInShortBlock(base, at + |changed|) || old(|cache.data|) + blockSize > cache.capacity
    {
      hide Tail, Grew;
      var fileOff := c * blockSize + at;
      ghost var start, log0 := cache.data, cache.log;
      var size := cache.SeekEnd();
      StillSame(log0, start);
      ok := AppendPrefix(fileOff, at, start, log0);
      if !ok {
        Grown(log0, start);
        return;
      }
      ok := AppendRest(fileOff - at, at, changed, start, log0);
      Grown(log0, start);
    }

    /** The bytes of the block in front of the changed data. */
    method AppendPrefix(fileOff: nat, at: nat, ghost start: seq<byte>, ghost log0: seq<seq<byte>>) returns (ok: bool)
      requires cache != null && Grew(log0, start) && cache.data == start && cache.pos == |cache.data|
      requires at <= fileOff < |image|
      modifies cache
      ensures Grew(log0, start)
      ensures ok ==> cache.data == start + image[fileOff - at..fileOff] && cache.pos == |cache.data|
      ensures !ok ==> |start| + at > cache.capacity
    {
      if at != 0 {
        var ret, p_buf2 := GetMorphedImageData(fileOff - at, at);
        if ret != TRUE || |p_buf2| != at {
          return false;
        }
        ok := Append(p_buf2);
      } else {
        assert start + image[fileOff..fileOff] == start;
        ok := true;
      }
    }

    /** The changed data and the bytes of the block behind it. */
    method AppendRest(base: nat, at: nat, changed: seq<byte>, ghost start: seq<byte>, ghost log0: seq<seq<byte>>) returns (ok: bool)
      requires cache != null && Grew(log0, start) && cache.pos == |cache.data|
      requires 0 < |changed| && at + |changed| <= blockSize && base + at + |changed| <= |image|
      requires cache.data == start + image[base..base + at]
      modifies cache
      ensures Grew(log0, start)
      ensures ok ==> cache.data == start + NewBlock(image, blockSize, base, at, changed)
      ensures EndsInShortBlock(base, at + |changed|) ==> !ok
      ensures !ok ==> EndsInShortBlock(base, at + |changed|) || |start| + blockSize > cache.capacity
    {
      hide Tail, Grew;
      ghost var prefix := image[base..base + at];
      ok := AppendMore(changed, start, log0);
      if !ok {
        return;
      }
      if at + |changed| == blockSize {
        assert start + prefix + changed == start + (prefix + changed + Tail(image, blockSize, base, blockSize));
        return;
      }
      var suffix;
      ok, suffix := BlockSuffix(base, at + |changed|);
      if !ok {
        return;
      }
      assert start + prefix + changed + suffix == start + (prefix + changed + suffix);
      ok := AppendMore(suffix, start, log0);
    }

    method AppendMore(buf: seq<byte>, ghost start: seq<byte>, ghost log0: seq<seq<byte>>) returns (ok: bool)
      requires cache != null && Grew(log0, start) && cache.pos == |cache.data| && buf != []
      modifies cache
      ensures Grew(log0, start)
      ensures ok ==> cache.data == old(cache.data) + buf && cache.pos == |cache.data|
      ensures !ok ==> old(|cache.data|) + |buf| > cache.capacity
    {
      ok := Append(buf);
    }

    /** The file begins with `start`, and did so after each write since log0. */
    ghost predicate Grew(log0: seq<seq<byte>>, start: seq<byte>)
      reads this, cache
    {
      && cache != null && cache.Valid() && start <= cache.data
      && log0 <= cache.log && forall k :: |log0| <= k < |cache.log| ==> start <= cache.log[k]
    }

    lemma StillSame(log0: seq<seq<byte>>, start: seq<byte>)
      requires cache != null && cache.Valid() && cache.data == start && cache.log == log0
      ensures Grew(log0, start)
    {
    }

    lemma Grown(log0: seq<seq<byte>>, start: seq<byte>)
      requires cache != null && Grew(log0, start)
      ensures cache.Valid() && start <= cache.data
      ensures log0 <= cache.log && forall k :: |log0| <= k < |cache.log| ==> start <= cache.log[k]
    {
    }

    predicate EndsInShortBlock(base: nat, done: nat) {
      done < blockSize && base + done == |image|
    }

    /** Sets the block's entry and writes it to the index on disk. */
    method WriteEntry(c: nat)
      requires cache != null && cache.Valid() && c < blkidx.Length && EntryOffset(c) + ENTRY_SIZE <= |cache.data|
      modifies blkidx, cache
      ensures cache.log == old(cache.log) + [cache.data]
      ensures cache.Valid()
      ensures blkidx[..] == old(blkidx[..])[c := old(blkidx[c]).(flag := 1)]
      ensures cache.data == Written(old(cache.data), EntryOffset(c), EncodeEntry(old(blkidx[c]).(flag := 1)))
    {
      blkidx[c] := blkidx[c].(flag := 1);
      cache.Seek(EntryOffset(c));
      var written := cache.Write(EncodeEntry(blkidx[c]));
    }

    /** Stores a new block's bytes; whatever happens, the file keeps showing what it showed. */
    method StoreNewBlock(c: nat, at: nat, changed: seq<byte>, ghost base: nat) returns (ok: bool)
      requires Valid() && cache != null && base == c * blockSize && c < blkidx.Length
      requires 0 < |changed| && at + |changed| <= blockSize && base + at + |changed| <= |image|
      requires !Live(L(), Block(c))
      modifies cache, blkidx
      ensures cache.Valid() && old(cache.data) <= cache.data
      ensures blkidx[..] == old(blkidx[..])[c := old(blkidx[c]).(offData := |old(cache.data)|)]
      ensures ok ==> cache.data == old(cache.data) + NewBlock(image, blockSize, base, at, changed)
      ensures EndsInShortBlock(base, at + |changed|) ==> !ok
      ensures !ok ==> EndsInShortBlock(base, at + |changed|) || old(|cache.data|) + blockSize > cache.capacity
      ensures old(cache.log) <= cache.log
      ensures forall k :: |old(cache.log)| <= k < |cache.log| ==>
        Recovers(cache.log[k], old(Part(VdiHeader)), old(Data()), old(Part(VhdFooter)))
    {
      hide Ready, DataView, Splice, NewBlock, NeededBlocks, EndsInShortBlock, Recovers, Live, PartView;
      ghost var l, data := L(), cache.data;
      blkidx[c] := blkidx[c].(offData := |cache.data|);
      ghost var m := L();
      assert m == l.(idx := l.idx[c := l.idx[c].(offData := |data|)]);
      ok := StoreBlock(c, at, changed, base);
      forall k | |old(cache.log)| <= k < |cache.log|
        ensures Recovers(cache.log[k], old(Part(VdiHeader)), old(Data()), old(Part(VhdFooter)))
      {
        RecoverUnstored(l, m, data, cache.log[k], c, |data|);
      }
    }

    /** The step of the block loop of SetVirtImageData for a block that is not cached yet. */
    method WriteNewBlock(c: nat, at: nat, changed: seq<byte>, ghost base: nat) returns (ok: bool)
      requires Valid() && cache != null && base == c * blockSize
      requires 0 < |changed| && at + |changed| <= blockSize && base + at + |changed| <= |image|
      requires !Live(L(), Block(c))
      modifies cache, blkidx
      ensures Valid() && Extends(old(L()), L())
      ensures CrashSafe()
      ensures Part(VdiHeader) == old(Part(VdiHeader)) && Part(VhdFooter) == old(Part(VhdFooter))
      ensures Data() == if ok then Splice(old(Data()), base + at, changed) else old(Data())
      ensures forall p: nat :: p != c ==> Live(L(), Block(p)) == old(Live(L(), Block(p)))
      ensures EndsInShortBlock(base, at + |changed|) ==> !ok
      ensures !ok ==> EndsInShortBlock(base, at + |changed|) || old(|cache.data|) + blockSize > cache.capacity
      ensures ok ==> |cache.data| == old(|cache.data|) + blockSize
    {
      hide Ready, DataView, Splice, NewBlock, NeededBlocks, EndsInShortBlock, Recovers;
      ghost var l, data := L(), cache.data;
      BlockInIndex(|image|, blockSize, c);
      CacheFacts();
      ok := StoreNewBlock(c, at, changed, base);
      ghost var m := L();
      if ok {
        WriteEntry(c);
        m := L();
        ghost var block := NewBlock(image, blockSize, base, at, changed);
        Stored(l, m, data, cache.data, c, block);
        StoredView(l, m, image, data, cache.data, c, base, at, changed);
        RecoverFrom(m, cache.data);
      } else {
        NotStored(l, m, image, data, cache.data, c, |data|);
      }
    }

    /** The step of the block loop of SetVirtImageData for a block that is already cached. */
    method WriteCachedBlock(c: nat, at: nat, changed: seq<byte>, ghost base: nat) returns (ok: bool)
      requires Valid() && cache != null && base == c * blockSize
      requires 0 < |changed| && at + |changed| <= blockSize && base + at + |changed| <= |image|
      requires Live(L(), Block(c))
      modifies cache
      ensures Extends(old(L()), L())
      ensures CrashSafe()
      ensures Valid() && ok
      ensures Part(VdiHeader) == old(Part(VdiHeader)) && Part(VhdFooter) == old(Part(VhdFooter))
      ensures Data() == Splice(old(Data()), base + at, changed)
      ensures |cache.data| == old(|cache.data|)
    {
      hide Ready, DataView, Splice, NeededBlocks, OnDisk, HeaderOk, Disjoint, Extends, Recovers, Written;
      CacheFacts();
      ExtendsSelf(L());
      ghost var data := cache.data;
      assert Start(L(), Block(c)) == blkidx[c].offData;
      cache.Seek(blkidx[c].offData + at);
      ok := cache.Write(changed);
      Overwritten(L(), Block(c), data, at, changed);
      OverwrittenView(L(), image, data, cache.data, c, base, at, changed);
      RecoverFrom(L(), cache.data);
    }

    /** One step of the block loop of SetVirtImageData. */
    method WriteToBlock(c: nat, at: nat, changed: seq<byte>, ghost base: nat) returns (ok: bool)
      requires Valid() && cache != null && base == c * blockSize
      requires 0 < |changed| && at + |changed| <= blockSize && base + at + |changed| <= |image|
      modifies cache, blkidx
      ensures Extends(old(L()), L())
      ensures CrashSafe()
      ensures Valid()
      ensures Part(VdiHeader) == old(Part(VdiHeader)) && Part(VhdFooter) == old(Part(VhdFooter))
      ensures Data() == if ok then Splice(old(Data()), base + at, changed) else old(Data())
      ensures forall p: nat :: p != c ==> Live(L(), Block(p)) == old(Live(L(), Block(p)))
      ensures old(!Live(L(), Block(c))) && EndsInShortBlock(base, at + |changed|) ==> !ok
      ensures !ok ==>
        || (old(!Live(L(), Block(c))) && EndsInShortBlock(base, at + |changed|))
        || old(|cache.data|) + blockSize > cache.capacity
      ensures ok ==> |cache.data| <= old(|cache.data|) + blockSize
    {
      hide Ready, DataView, Splice, NeededBlocks, EndsInShortBlock;
      BlockInIndex(|image|, blockSize, c);
      if blkidx[c].flag == 1 {
        ok := WriteCachedBlock(c, at, changed, base);
      } else {
        ok := WriteNewBlock(c, at, changed, base);
      }
    }

    lemma CutHere(offset: nat, done: nat, n: nat, c: nat, base: nat, at: nat, now: nat)
      requires blockSize > 0 && base == c * blockSize && base + at == offset + done && done + now <= n
      requires done != 0 ==> at == 0
      requires at + now <= blockSize && (done + now < n ==> at + now == blockSize)
      ensures done == 0 || (offset + done) % blockSize == 0
      ensures BlockCut(offset, done, n) && BlockCut(offset, done + now, n)
    {
      DivMod(base, blockSize, c);
      NextBlock(c, blockSize);
      DivMod(base + blockSize, blockSize, c + 1);
    }

    /** Carries the crash guarantee of one step over to the whole request. */
    lemma StillShows(was: seq<seq<byte>>, log: seq<seq<byte>>, vdi: seq<byte>, data: seq<byte>, vhd: seq<byte>,
                     offset: nat, buf: seq<byte>, k: nat, m: nat)
      requires blockSize > 0 && offset + |buf| <= |data| && k <= m <= |buf|
      requires BlockCut(offset, k, |buf|) && BlockCut(offset, m, |buf|)
      requires was <= log
      requires forall i :: |was| <= i < |log| ==>
        || Recovers(log[i], vdi, Splice(data, offset, buf[..k]), vhd)
        || Recovers(log[i], vdi, Splice(data, offset, buf[..m]), vhd)
      ensures forall i :: |was| <= i < |log| ==> ShowsPiece(log[i], vdi, data, vhd, offset, buf)
    {
      hide Recovers, Splice, BlockCut;
    }

    /** One step of the block loop, as a step of a request that wants buf at `offset` and has come as far as done. */
    method WriteStep(c: nat, at: nat, now: nat, ghost base: nat, buf: seq<byte>, done: nat, ghost offset: nat,
                     ghost vdi: seq<byte>, ghost data: seq<byte>, ghost vhd: seq<byte>) returns (ok: bool)
      requires Valid() && cache != null && base == c * blockSize && base + at == offset + done
      requires 0 < now && done + now <= |buf| && at + now <= blockSize && offset + |buf| <= |image| == |data|
      requires (done != 0 ==> at == 0) && (done + now < |buf| ==> at + now == blockSize)
      requires Data() == Splice(data, offset, buf[..done])
      requires vdi == Part(VdiHeader) && vhd == Part(VhdFooter)
      modifies cache, blkidx
      ensures Valid() && Extends(old(L()), L())
      ensures old(cache.log) <= cache.log
      ensures forall i :: |old(cache.log)| <= i < |cache.log| ==> ShowsPiece(cache.log[i], vdi, data, vhd, offset, buf)
      ensures vdi == Part(VdiHeader) && vhd == Part(VhdFooter)
      ensures Data() == Splice(data, offset, buf[..if ok then done + now else done])
      ensures forall p: nat :: p != c ==> Live(L(), Block(p)) == old(Live(L(), Block(p)))
      ensures old(!Live(L(), Block(c))) && EndsInShortBlock(base, at + now) ==> !ok
      ensures !ok ==>
        || (old(!Live(L(), Block(c))) && EndsInShortBlock(base, at + now))
        || old(|cache.data|) + blockSize > cache.capacity
      ensures ok ==> |cache.data| <= old(|cache.data|) + blockSize
      ensures done == 0 || (offset + done) % blockSize == 0
    {
      hide Ready, DataView, Splice, NeededBlocks, Valid, Data, Part, Live, Extends, Recovers, ShowsPiece, BlockCut;
      CutHere(offset, done, |buf|, c, base, at, now);
      SpliceMore(data, offset, buf, done, done + now);
      ok := WriteToBlock(c, at, buf[done..done + now], base);
      StillShows(old(cache.log), cache.log, vdi, data, vhd, offset, buf, done, if ok then done + now else done);
    }

    /** The block loop of SetVirtImageData; `committed` bytes were written. */
    method WriteBlocks(p_buf: seq<byte>, offset: nat) returns (ok: bool, ghost committed: nat)
      requires Valid() && cache != null && offset + |p_buf| <= |image|
      modifies cache, blkidx
      ensures Extends(old(L()), L())
      ensures old(cache.log) <= cache.log
      ensures forall k :: |old(cache.log)| <= k < |cache.log| ==>
        ShowsPiece(cache.log[k], old(Part(VdiHeader)), old(Data()), old(Part(VhdFooter)), offset, p_buf)
      ensures Valid()
      ensures Part(VdiHeader) == old(Part(VdiHeader)) && Part(VhdFooter) == old(Part(VhdFooter))
      ensures committed <= |p_buf| && (ok ==> committed == |p_buf|)
      ensures Data() == Splice(old(Data()), offset, p_buf[..committed])
      ensures !ok ==> committed == 0 || (offset + committed) % blockSize == 0
      ensures old(ReachesShortTail(L(), |image|, offset, |p_buf|)) ==> !ok
      ensures !ok ==>
        || old(ReachesShortTail(L(), |image|, offset, |p_buf|))
        || old(|cache.data|) + |p_buf| + 2 * blockSize > cache.capacity
      ensures ok ==> |cache.data| <= old(|cache.data|) + |p_buf| + 2 * blockSize
    {
      hide Ready, DataView, Splice, NeededBlocks, Valid, ReachesShortTail, Data, Part, Live, Extends, Recovers, ShowsPiece, BlockCut;
      assert blockSize > 0;
      DivMod(offset, blockSize, offset / blockSize);
      var curBlock: nat, blockOff: nat := offset / blockSize, offset % blockSize;
      var rest := p_buf;
      ghost var base: nat := curBlock * blockSize;
      ghost var data, before, size, log := Data(), L(), |cache.data|, cache.log;
      ghost var vdi, vhd := Part(VdiHeader), Part(VhdFooter);
      var done: nat := 0;
      SpliceNothing(data, offset);
      ExtendsSelf(before);
      assert p_buf[..0] == [];
      ShortTailNonEmpty(before, |image|, offset, |p_buf|);
      while rest != []
        invariant Valid() && done <= |p_buf| && rest == p_buf[done..]
        invariant rest != [] ==> base + blockOff == offset + done && blockOff < blockSize && base == curBlock * blockSize
        invariant done != 0 && rest != [] ==> blockOff == 0
        invariant Part(VdiHeader) == old(Part(VdiHeader)) && Part(VhdFooter) == old(Part(VhdFooter))
        invariant Extends(before, L())
        invariant log <= cache.log
        invariant forall k :: |log| <= k < |cache.log| ==> ShowsPiece(cache.log[k], vdi, data, vhd, offset, p_buf)
        invariant Data() == Splice(data, offset, p_buf[..done])
        invariant forall c: nat :: c >= curBlock ==> Live(L(), Block(c)) == Live(before, Block(c))
        invariant ReachesShortTail(before, |image|, offset, |p_buf|) ==> rest != []
        invariant rest != [] ==> |cache.data| + |rest| <= size + |p_buf| + if done == 0 then 0 else blockSize
        invariant |cache.data| <= size + |p_buf| + 2 * blockSize
        decreases |rest|
      {
        var now: nat := if blockOff + |rest| > blockSize then blockSize - blockOff else |rest|;
        NextBlock(curBlock, blockSize);
        TailBlock(before, |image|, offset, |p_buf|, curBlock, base, blockOff, now, done);
        ghost var l := L();
        ok := WriteStep(curBlock, blockOff, now, base, p_buf, done, offset, vdi, data, vhd);
        ExtendsTransitive(before, l, L());
        if !ok {
          committed := done;
          return;
        }
        blockOff, curBlock, base := 0, curBlock + 1, base + blockSize;
        rest, done := rest[now..], done + now;
      }
      assert p_buf[..done] == p_buf;
      ok, committed := true, done;
    }

    // ----- the parts in front of and behind the image -----

    /** Appends a whole header or footer: what precedes the changed data, the changed data, what follows it. */
    method StorePart(original: seq<byte>, p_buf: seq<byte>, from: nat) returns (ok: bool)
      requires cache != null && cache.Valid() && from + |p_buf| <= |original|
      modifies cache
      ensures old(cache.log) <= cache.log
      ensures forall k :: |old(cache.log)| <= k < |cache.log| ==> old(cache.data) <= cache.log[k]
      ensures cache.Valid() && old(cache.data) <= cache.data
      ensures ok ==> p_buf != [] && cache.data == old(cache.data) + Splice(original, from, p_buf)
      ensures !ok ==> p_buf == [] || old(|cache.data|) + |original| > cache.capacity
    {
      var size := cache.SeekEnd();
      ghost var start := cache.data;
      if from > 0 {
        ok := Append(original[..from]);
        if !ok {
          return;
        }
      }
      assert cache.data == start + original[..from];
      if p_buf == [] {
        ok := cache.Write(p_buf);
        return;
      }
      ok := Append(p_buf);
      if !ok {
        return;
      }
      ghost var rest := original[from + |p_buf|..];
      if from + |p_buf| != |original| {
        ok := Append(original[from + |p_buf|..]);
        if !ok {
          return;
        }
      }
      assert cache.data == start + original[..from] + p_buf + rest;
      assert start + original[..from] + p_buf + rest == start + (original[..from] + p_buf + rest);
    }

    /** SetVdiFileHeaderData and SetVhdFileHeaderData when the part is already in the cache file. */
    method WriteCachedPart(o: Owner, p_buf: seq<byte>, from: nat) returns (ok: bool)
      requires Valid() && cache != null && (o.VdiHeader? || o.VhdFooter?) && Live(L(), o)
      requires from + |p_buf| <= Size(L(), o)
      modifies cache
      ensures Extends(old(L()), L())
      ensures CrashSafe()
      ensures Valid() && Data() == old(Data())
      ensures ok <==> p_buf != []
      ensures Part(o) == if ok then Splice(old(Part(o)), from, p_buf) else old(Part(o))
      ensures forall q: Owner :: (q.VdiHeader? || q.VhdFooter?) && q != o ==> Part(q) == old(Part(q))
      ensures |cache.data| == old(|cache.data|)
    {
      hide Ready, DataView, Splice, NeededBlocks, OnDisk, HeaderOk, Disjoint, Extends, Recovers, Written;
      CacheFacts();
      ExtendsSelf(L());
      ghost var data := cache.data;
      var start := if o.VdiHeader? then header.pVdi else header.pVhd;
      assert start == Start(L(), o);
      cache.Seek(start + from);
      ok := cache.Write(p_buf);
      if ok {
        Overwritten(L(), o, data, from, p_buf);
        DataFrame(L(), L(), image, data, cache.data);
        RecoverFrom(L(), cache.data);
      }
    }

    /** Stores a whole header or footer; whatever happens, the file keeps showing what it showed. */
    method StoreNewPart(o: Owner, p_buf: seq<byte>, from: nat, original: seq<byte>) returns (ok: bool)
      requires Valid() && cache != null && (o.VdiHeader? || o.VhdFooter?) && !Live(L(), o)
      requires from + |p_buf| <= |original| == Size(L(), o)
      modifies `header, cache
      ensures cache.Valid() && old(cache.data) <= cache.data
      ensures header == if o.VdiHeader? then old(header).(pVdi := |old(cache.data)|) else old(header).(pVhd := |old(cache.data)|)
      ensures ok ==> p_buf != [] && cache.data == old(cache.data) + Splice(original, from, p_buf)
      ensures !ok ==> p_buf == [] || old(|cache.data|) + |original| > cache.capacity
      ensures old(cache.log) <= cache.log
      ensures forall k :: |old(cache.log)| <= k < |cache.log| ==>
        Recovers(cache.log[k], old(Part(VdiHeader)), old(Data()), old(Part(VhdFooter)))
    {
      hide Ready, DataView, Splice, NeededBlocks, Recovers, Live, PartView;
      ghost var l, data := L(), cache.data;
      var size := cache.SeekEnd();
      header := if o.VdiHeader? then header.(pVdi := size) else header.(pVhd := size);
      ghost var m := L();
      ok := StorePart(original, p_buf, from);
      forall k | |old(cache.log)| <= k < |cache.log|
        ensures Recovers(cache.log[k], old(Part(VdiHeader)), old(Data()), old(Part(VhdFooter)))
      {
        RecoverUnstoredPart(l, m, data, cache.log[k], o, size);
      }
    }

    /** SetVdiFileHeaderData and SetVhdFileHeaderData when the part is not in the cache file yet. */
    method WriteNewPart(o: Owner, p_buf: seq<byte>, from: nat) returns (ok: bool)
      requires Valid() && cache != null && (o.VdiHeader? || o.VhdFooter?) && !Live(L(), o)
      requires from + |p_buf| <= Size(L(), o)
      modifies `header, cache
      ensures Valid() && Extends(old(L()), L())
      ensures CrashSafe()
      ensures Data() == old(Data())
      ensures ok ==> p_buf != []
      ensures !ok ==> p_buf == [] || old(|cache.data|) + Size(L(), o) > cache.capacity
      ensures Part(o) == if ok then Splice(old(Part(o)), from, p_buf) else old(Part(o))
      ensures forall q: Owner :: (q.VdiHeader? || q.VhdFooter?) && q != o ==> Part(q) == old(Part(q))
      ensures ok ==> |cache.data| == old(|cache.data|) + Size(L(), o)
    {
      hide Ready, DataView, Splice, NeededBlocks, Recovers, EncodeHeader, Content, OnDisk, LayoutOk;
      CacheFacts();
      ghost var l, data := L(), cache.data;
      Indexed(l, data);
      var original := if o.VdiHeader? then vdiHeader else vhdFooter;
      ok := StoreNewPart(o, p_buf, from, original);
      ghost var m := L();
      if !ok {
        ForgetPartPosition(l, m, data, o, |data|);
        PartNotStored(l, m, image, data, cache.data);
        return;
      }
      header := if o.VdiHeader? then header.(vdiCached := 1) else header.(vhdCached := 1);
      cache.Seek(0);
      var written := cache.Write(EncodeHeader(header));
      PartStored(l, L(), image, data, cache.data, o, Splice(original, from, p_buf));
      RecoverFrom(L(), cache.data);
    }

    /** Writes to the VDI header; a request that reaches behind it is cut there. */
    method SetVdiFileHeaderData(p_buf: seq<byte>, offset: nat) returns (ret: int)
      requires Valid() && cache != null && offset < |vdiHeader|
      modifies `header, cache
      ensures Extends(old(L()), L())
      ensures CrashSafe()
      ensures Valid() && Data() == old(Data()) && Part(VhdFooter) == old(Part(VhdFooter))
      ensures ret == -1 || (ret == Min(|p_buf|, |vdiHeader| - offset) && ret > 0)
      ensures Part(VdiHeader) == if ret == -1 then old(Part(VdiHeader)) else Splice(old(Part(VdiHeader)), offset, p_buf[..ret])
      ensures p_buf == [] ==> ret == -1
      ensures ret == -1 ==> p_buf == [] || old(|cache.data|) + |vdiHeader| > cache.capacity
      ensures ret != -1 ==> |cache.data| <= old(|cache.data|) + |vdiHeader|
    {
      hide Ready, DataView, Splice, Data, Part, NeededBlocks;
      var size := if offset + |p_buf| > |vdiHeader| then |vdiHeader| - offset else |p_buf|;
      var ok;
      if header.vdiCached == 1 {
        ok := WriteCachedPart(VdiHeader, p_buf[..size], offset);
      } else {
        ok := WriteNewPart(VdiHeader, p_buf[..size], offset);
      }
      return if ok then size else -1;
    }

    /** Writes to the VHD footer. */
    method SetVhdFileHeaderData(p_buf: seq<byte>, offset: nat) returns (ret: int)
      requires Valid() && cache != null && offset + |p_buf| <= |vhdFooter|
      modifies `header, cache
      ensures Extends(old(L()), L())
      ensures CrashSafe()
      ensures Valid() && Data() == old(Data()) && Part(VdiHeader) == old(Part(VdiHeader))
      ensures ret == -1 || (ret == |p_buf| && ret > 0)
      ensures Part(VhdFooter) == if ret == -1 then old(Part(VhdFooter)) else Splice(old(Part(VhdFooter)), offset, p_buf)
      ensures ret == -1 ==> p_buf == [] || old(|cache.data|) + |vhdFooter| > cache.capacity
    {
      hide Ready, DataView, Splice, Data, Part, NeededBlocks;
      var ok;
      if header.vhdCached == 1 {
        ok := WriteCachedPart(VhdFooter, p_buf, offset);
      } else {
        ok := WriteNewPart(VhdFooter, p_buf, offset);
      }
      return if ok then |p_buf| else -1;
    }

    // ----- writing a request that may span several parts -----

    /** Requests that SetVirtImageData turns down even when there is room in the cache file. */
    ghost predicate Refuses(offset: nat, size: nat)
      requires blockSize > 0
      reads this, blkidx
    {
      offset >= ViewSize() || Stops(offset, Min(size, ViewSize() - offset))
    }

    /** The same for a request of `count` bytes that lies inside the output image. */
    ghost predicate Stops(offset: nat, count: nat)
      requires blockSize > 0
      reads this, blkidx
    {
      || (count == 0 && kind == VDI && offset < |vdiHeader|)
      || ReachesShortTail(L(), |image|, DataFrom(offset), DataCount(offset, count))
    }

    /** Positions of the output image where a request may be cut: a block boundary, or where a part ends. */
    predicate CutAt(pos: nat)
      requires blockSize > 0
    {
      || (kind == VDI && pos == |vdiHeader|)
      || (kind == VDI && pos > |vdiHeader| && (pos - |vdiHeader|) % blockSize == 0)
      || (kind != VDI && pos % blockSize == 0)
      || (kind == VHD && pos == |image|)
    }

    /** Attaching a cache file with these contents would show this output image. */
    ghost predicate Shows(h: seq<byte>, view: seq<byte>) {
      exists vdi, data, vhd :: Recovers(h, vdi, data, vhd) && view == Whole(kind, vdi, data, vhd)
    }

    /** Attaching it would show `view` with some first part of buf written at `offset`, cut where a request may be cut. */
    ghost predicate ShowsPart(h: seq<byte>, view: seq<byte>, offset: nat, buf: seq<byte>)
      requires blockSize > 0 && offset + |buf| <= |view|
    {
      exists k: nat :: k <= |buf| && (k == 0 || k == |buf| || CutAt(offset + k)) && Shows(h, Splice(view, offset, buf[..k]))
    }

    /** What holds for a later piece of a request holds for the request. */
    lemma ShowsMore(h: seq<byte>, view: seq<byte>, offset: nat, buf: seq<byte>, done: nat, more: nat)
      requires blockSize > 0 && offset + |buf| <= |view| && done <= more <= |buf|
      requires done == 0 || done == |buf| || CutAt(offset + done)
      requires more == 0 || more == |buf| || CutAt(offset + more)
      requires ShowsPart(h, Splice(view, offset, buf[..done]), offset + done, buf[done..more])
      ensures ShowsPart(h, view, offset, buf)
    {
      hide Shows, Splice, CutAt;
      var before, piece := Splice(view, offset, buf[..done]), buf[done..more];
      var k: nat :| k <= |piece| && (k == 0 || k == |piece| || CutAt(offset + done + k)) &&
        Shows(h, Splice(before, offset + done, piece[..k]));
      assert piece[..k] == buf[done..done + k];
      SpliceMore(view, offset, buf, done, done + k);
    }

    lemma LogShowsMore(first: seq<seq<byte>>, was: seq<seq<byte>>, log: seq<seq<byte>>,
                       view: seq<byte>, offset: nat, buf: seq<byte>, done: nat, more: nat)
      requires blockSize > 0 && offset + |buf| <= |view| && done <= more <= |buf|
      requires done == 0 || done == |buf| || CutAt(offset + done)
      requires more == 0 || more == |buf| || CutAt(offset + more)
      requires first <= was <= log
      requires forall i :: |first| <= i < |was| ==> ShowsPart(was[i], view, offset, buf)
      requires forall i :: |was| <= i < |log| ==>
        ShowsPart(log[i], Splice(view, offset, buf[..done]), offset + done, buf[done..more])
      ensures forall i :: |first| <= i < |log| ==> ShowsPart(log[i], view, offset, buf)
    {
      hide ShowsPart, Splice, CutAt;
      forall i | |first| <= i < |log|
        ensures ShowsPart(log[i], view, offset, buf)
      {
        if i < |was| {
          assert log[i] == was[i];
        } else {
          ShowsMore(log[i], view, offset, buf, done, more);
        }
      }
    }

    /** Either all or nothing of buf is there. */
    lemma ShowsEnds(was: seq<seq<byte>>, log: seq<seq<byte>>, view: seq<byte>, view': seq<byte>, offset: nat, buf: seq<byte>, k: nat)
      requires blockSize > 0 && offset + |buf| <= |view| && k <= |buf| && was <= log
      requires k == 0 || k == |buf| || CutAt(offset + k)
      requires view' == view || view' == Splice(view, offset, buf[..k])
      requires forall i :: |was| <= i < |log| ==> Shows(log[i], view) || Shows(log[i], view')
      ensures forall i :: |was| <= i < |log| ==> ShowsPart(log[i], view, offset, buf)
    {
      hide Shows, Splice, CutAt;
      assert buf[..0] == [];
      SpliceNothing(view, offset);
    }

    /** A cut inside the image data is a cut inside the output image. */
    lemma ShowsBlocks(h: seq<byte>, vdi: seq<byte>, data: seq<byte>, vhd: seq<byte>, fileOff: nat, offset: nat, buf: seq<byte>)
      requires blockSize > 0 && fileOff + |buf| <= |data| && |vdi| == |vdiHeader|
      requires offset == DataStart(kind, |vdiHeader|) + fileOff
      requires ShowsPiece(h, vdi, data, vhd, fileOff, buf)
      ensures offset + |buf| <= |Whole(kind, vdi, data, vhd)|
      ensures ShowsPart(h, Whole(kind, vdi, data, vhd), offset, buf)
    {
      hide Recovers, Splice;
      var k: nat :| k <= |buf| && BlockCut(fileOff, k, |buf|) && Recovers(h, vdi, Splice(data, fileOff, buf[..k]), vhd);
      WholeSpliceData(kind, vdi, data, vhd, fileOff, buf[..k]);
      WholeSize(kind, vdi, data, vhd);
      assert Shows(h, Whole(kind, vdi, Splice(data, fileOff, buf[..k]), vhd));
      assert fileOff + k != 0 && (fileOff + k) % blockSize == 0 ==> CutAt(offset + k);
    }

    /** The part of SetVirtImageData in front of the image. */
    method WriteLeading(p_buf: seq<byte>, offset: nat) returns (ok: bool, done: nat)
      requires Valid() && cache != null && offset + |p_buf| <= ViewSize()
      modifies `header, cache
      ensures (kind != VDI ==> Part(VdiHeader) == old(Part(VdiHeader))) && (kind != VHD ==> Part(VhdFooter) == old(Part(VhdFooter)))
      ensures Extends(old(L()), L())
      ensures old(cache.log) <= cache.log && offset + |p_buf| <= |old(View())|
      ensures forall i :: |old(cache.log)| <= i < |cache.log| ==> ShowsPart(cache.log[i], old(View()), offset, p_buf)
      ensures Valid() && |View()| == old(|View()|) == ViewSize()
      ensures ok ==> done == if kind == VDI && offset < |vdiHeader| then Min(|p_buf|, |vdiHeader| - offset) else 0
      ensures View() == if ok then Splice(old(View()), offset, p_buf[..done]) else old(View())
      ensures p_buf == [] && kind == VDI && offset < |vdiHeader| ==> !ok
      ensures !ok ==>
        || (p_buf == [] && kind == VDI && offset < |vdiHeader|)
        || old(|cache.data|) + |vdiHeader| > cache.capacity
      ensures forall p: nat, n: nat :: ReachesShortTail(L(), |image|, p, n) == old(ReachesShortTail(L(), |image|, p, n))
      ensures ok ==> |cache.data| <= old(|cache.data|) + |vdiHeader|
    {
      hide Ready, Splice, Valid, Whole, Data, Part, NeededBlocks, Recovers, ShowsPart;
      ViewLength();
      ghost var log, view := cache.log, View();
      if kind == VDI && offset < |vdiHeader| {
        ghost var vdi, data, vhd := Part(VdiHeader), Data(), Part(VhdFooter);
        var ret := SetVdiFileHeaderData(p_buf, offset);
        ViewLength();
        ok := ret != -1;
        done := if ok then ret else 0;
        if ok {
          WholeSpliceVdi(vdi, data, vhd, offset, p_buf[..done]);
        }
        ShowsEnds(log, cache.log, view, View(), offset, p_buf, done);
      } else {
        ok, done := true, 0;
        assert p_buf[..0] == [];
        SpliceNothing(View(), offset);
      }
    }

    /** The part of SetVirtImageData that writes to the image; `offset` is where p_buf belongs in the output image. */
    method WriteMiddle(p_buf: seq<byte>, fileOff: nat, ghost offset: nat) returns (ok: bool, ghost done: nat)
      requires Valid() && cache != null && fileOff + |p_buf| <= |image|
      requires offset == DataStart(kind, |vdiHeader|) + fileOff
      modifies cache, blkidx
      ensures (kind != VDI ==> Part(VdiHeader) == old(Part(VdiHeader))) && (kind != VHD ==> Part(VhdFooter) == old(Part(VhdFooter)))
      ensures Extends(old(L()), L())
      ensures old(cache.log) <= cache.log && offset + |p_buf| <= |old(View())|
      ensures forall i :: |old(cache.log)| <= i < |cache.log| ==> ShowsPart(cache.log[i], old(View()), offset, p_buf)
      ensures Valid() && |View()| == old(|View()|) == ViewSize()
      ensures done <= |p_buf| && (ok ==> done == |p_buf|)
      ensures View() == Splice(old(View()), offset, p_buf[..done])
      ensures !ok ==> done == 0 || (fileOff + done) % blockSize == 0
      ensures old(ReachesShortTail(L(), |image|, fileOff, |p_buf|)) ==> !ok
      ensures !ok ==>
        || old(ReachesShortTail(L(), |image|, fileOff, |p_buf|))
        || old(|cache.data|) + |p_buf| + 2 * blockSize > cache.capacity
      ensures ok ==> |cache.data| <= old(|cache.data|) + |p_buf| + 2 * blockSize
    {
      hide Ready, Splice, Valid, Whole, Data, Part, NeededBlocks, ReachesShortTail, Live, ShowsPiece, ShowsPart, Extends;
      ViewLength();
      ghost var vdi, data, vhd := Part(VdiHeader), Data(), Part(VhdFooter);
      ok, done := WriteBlocks(p_buf, fileOff);
      ViewLength();
      WholeSpliceData(kind, vdi, data, vhd, fileOff, p_buf[..done]);
      WholeSize(kind, vdi, data, vhd);
      forall i | |old(cache.log)| <= i < |cache.log|
        ensures ShowsPart(cache.log[i], old(View()), offset, p_buf)
      {
        ShowsBlocks(cache.log[i], vdi, data, vhd, fileOff, offset, p_buf);
      }
    }

    /** The part of SetVirtImageData behind the image. */
    method WriteTrailing(p_buf: seq<byte>, offset: nat) returns (ok: bool)
      requires Valid() && cache != null && kind == VHD && |image| <= offset && offset + |p_buf| <= ViewSize() && p_buf != []
      modifies `header, cache
      ensures Part(VdiHeader) == old(Part(VdiHeader))
      ensures Extends(old(L()), L())
      ensures old(cache.log) <= cache.log && offset + |p_buf| <= |old(View())|
      ensures forall i :: |old(cache.log)| <= i < |cache.log| ==> ShowsPart(cache.log[i], old(View()), offset, p_buf)
      ensures Valid() && |View()| == old(|View()|) == ViewSize()
      ensures View() == if ok then Splice(old(View()), offset, p_buf) else old(View())
      ensures !ok ==> old(|cache.data|) + |vhdFooter| > cache.capacity
    {
      hide Ready, Splice, Valid, Whole, Data, Part, NeededBlocks, Live, Recovers, ShowsPart, Extends;
      ViewLength();
      ghost var log, view := cache.log, View();
      ghost var vdi, data, vhd := Part(VdiHeader), Data(), Part(VhdFooter);
      var ret := SetVhdFileHeaderData(p_buf, offset - |image|);
      ViewLength();
      ok := ret != -1;
      if ok {
        WholeSpliceVhd(vdi, data, vhd, offset - |image|, p_buf);
      }
      assert p_buf[..|p_buf|] == p_buf;
      ShowsEnds(log, cache.log, view, View(), offset, p_buf, |p_buf|);
    }

    /** The image data of a request after its first `done` bytes. */
    method WriteImagePart(buf: seq<byte>, offset: nat, done: nat, rest: nat, ghost view: seq<byte>, ghost log: seq<seq<byte>>)
      returns (ok: bool, ghost committed: nat)
      requires Valid() && cache != null && offset + |buf| <= ViewSize() == |view| && done + rest <= |buf|
      requires DataFrom(offset) + rest <= |image| && DataStart(kind, |vdiHeader|) + DataFrom(offset) == offset + done
      requires done == 0 || done == |buf| || CutAt(offset + done)
      requires done + rest == 0 || done + rest == |buf| || CutAt(offset + done + rest)
      requires View() == Splice(view, offset, buf[..done])
      requires log <= cache.log && forall i :: |log| <= i < |cache.log| ==> ShowsPart(cache.log[i], view, offset, buf)
      modifies cache, blkidx
      ensures (kind != VDI ==> Part(VdiHeader) == old(Part(VdiHeader))) && (kind != VHD ==> Part(VhdFooter) == old(Part(VhdFooter)))
      ensures Valid() && Extends(old(L()), L()) && |View()| == ViewSize()
      ensures log <= cache.log && forall i :: |log| <= i < |cache.log| ==> ShowsPart(cache.log[i], view, offset, buf)
      ensures done <= committed <= done + rest && (ok ==> committed == done + rest)
      ensures View() == Splice(view, offset, buf[..committed])
      ensures !ok ==> committed == done || CutAt(offset + committed)
      ensures old(ReachesShortTail(L(), |image|, DataFrom(offset), rest)) ==> !ok
      ensures !ok ==>
        || old(ReachesShortTail(L(), |image|, DataFrom(offset), rest))
        || old(|cache.data|) + rest + 2 * blockSize > cache.capacity
      ensures ok ==> |cache.data| <= old(|cache.data|) + rest + 2 * blockSize
    {
      hide Ready, Splice, Valid, View, Part, NeededBlocks, Live, ReachesShortTail, ShowsPart, Extends;
      ghost var was, piece := cache.log, buf[done..done + rest];
      ghost var more;
      ok, more := WriteMiddle(buf[done..done + rest], DataFrom(offset), offset + done);
      committed := done + more;
      LogShowsMore(log, was, cache.log, view, offset, buf, done, done + rest);
      assert piece[..more] == buf[done..done + more];
      SpliceMore(view, offset, buf, done, done + more);
    }

    /** What is left of a request after its first `done` bytes, which reach the end of the image. */
    method WriteRest(buf: seq<byte>, offset: nat, done: nat, ghost view: seq<byte>, ghost log: seq<seq<byte>>) returns (ok: bool)
      requires Valid() && cache != null && kind == VHD && offset + |buf| <= ViewSize() == |view|
      requires done < |buf| && |image| <= offset + done
      requires done == 0 || CutAt(offset + done)
      requires View() == Splice(view, offset, buf[..done])
      requires log <= cache.log && forall i :: |log| <= i < |cache.log| ==> ShowsPart(cache.log[i], view, offset, buf)
      modifies `header, cache
      ensures Part(VdiHeader) == old(Part(VdiHeader))
      ensures Valid() && Extends(old(L()), L()) && |View()| == ViewSize()
      ensures log <= cache.log && forall i :: |log| <= i < |cache.log| ==> ShowsPart(cache.log[i], view, offset, buf)
      ensures View() == Splice(view, offset, buf[..if ok then |buf| else done])
      ensures !ok ==> old(|cache.data|) + |vhdFooter| > cache.capacity
    {
      hide Ready, Splice, Valid, View, Part, NeededBlocks, Live, ReachesShortTail, ShowsPart, Extends, CutAt;
      ghost var was := cache.log;
      assert buf[done..|buf|] == buf[done..];
      ok := WriteTrailing(buf[done..], offset + done);
      LogShowsMore(log, was, cache.log, view, offset, buf, done, |buf|);
      SpliceMore(view, offset, buf, done, |buf|);
    }

    /** SetVirtImageData for a request that lies inside the output image. */
    method WriteParts(buf: seq<byte>, offset: nat) returns (ok: bool, ghost committed: nat)
      requires Valid() && cache != null && offset + |buf| <= ViewSize()
      modifies `header, cache, blkidx
      ensures (kind != VDI ==> Part(VdiHeader) == old(Part(VdiHeader))) && (kind != VHD ==> Part(VhdFooter) == old(Part(VhdFooter)))
      ensures Extends(old(L()), L())
      ensures old(cache.log) <= cache.log && offset + |buf| <= |old(View())|
      ensures forall i :: |old(cache.log)| <= i < |cache.log| ==> ShowsPart(cache.log[i], old(View()), offset, buf)
      ensures Valid() && |View()| == old(|View()|) == ViewSize()
      ensures committed <= |buf| && (ok ==> committed == |buf|)
      ensures View() == Splice(old(View()), offset, buf[..committed])
      ensures !ok ==> (committed == 0 || CutAt(offset + committed))
      ensures old(Stops(offset, |buf|)) ==> !ok
      ensures !ok ==>
        || old(Stops(offset, |buf|))
        || old(|cache.data|) + |buf| + 2 * blockSize + |vdiHeader| + |vhdFooter| > cache.capacity
    {
      hide Ready, Splice, Valid, View, Part, NeededBlocks, Live, ReachesShortTail, ShowsPart, Extends;
      ViewLength();
      ghost var view, l, log := View(), L(), cache.log;
      SpliceNothing(view, offset);
      assert buf[..0] == [];
      ShortTailNonEmpty(l, |image|, DataFrom(offset), DataCount(offset, |buf|));
      var done: nat;
      ok, done := WriteLeading(buf, offset);
      if !ok {
        return false, 0;
      }
      committed := done;
      var rest := DataCount(offset, |buf|);
      assert done + rest == |buf| || kind == VHD;
      if rest != 0 {
        ghost var m := L();
        ok, committed := WriteImagePart(buf, offset, done, rest, view, log);
        ExtendsTransitive(l, m, L());
        if !ok {
          return;
        }
        done := done + rest;
      }
      if done != |buf| {
        ghost var m := L();
        ok := WriteRest(buf, offset, done, view, log);
        ExtendsTransitive(l, m, L());
        if ok {
          committed := |buf|;
        }
      }
    }

    /**
     * Writes p_buf at `offset`, cut at the end of the output image. The result is the number of bytes written or -1;
     * `committed` is how many bytes of the request the output image shows afterwards.
     */
    method SetVirtImageData(p_buf: seq<byte>, offset: nat) returns (ret: int, ghost committed: nat)
      requires Valid() && cache != null
      modifies this, cache, blkidx
      ensures (kind != VDI ==> Part(VdiHeader) == old(Part(VdiHeader))) && (kind != VHD ==> Part(VhdFooter) == old(Part(VhdFooter)))
      ensures Extends(old(L()), L())
      ensures Valid() && cache == old(cache) && blkidx == old(blkidx) && |View()| == old(|View()|) == ViewSize()
      ensures old(cache.log) <= cache.log && forall i :: |old(cache.log)| <= i < |cache.log| ==>
        offset < |old(View())| && ShowsPart(cache.log[i], old(View()), offset, p_buf[..Min(|p_buf|, ViewSize() - offset)])
      ensures offset >= ViewSize() ==> ret == -1 && View() == old(View())
      ensures offset < ViewSize() ==> committed <= Min(|p_buf|, ViewSize() - offset)
      ensures offset < ViewSize() ==> View() == Splice(old(View()), offset, p_buf[..committed])
      ensures offset < ViewSize() && ret != -1 ==> ret == committed == Min(|p_buf|, ViewSize() - offset)
      ensures ret == -1 ==> (committed == 0 || CutAt(offset + committed))
      ensures old(Refuses(offset, |p_buf|)) ==> ret == -1
      ensures ret == -1 ==>
        || old(Refuses(offset, |p_buf|))
        || old(|cache.data|) + |p_buf| + 2 * blockSize + |vdiHeader| + |vhdFooter| > cache.capacity
    {
      hide Ready, Splice, Valid, View, Part, NeededBlocks, Live, ReachesShortTail, ShowsPart, Extends;
      ExtendsSelf(L());
      ViewLength();
      var virtSize := GetVirtImageSize();
      if offset >= virtSize {
        return -1, 0;
      }
      var size := if offset + |p_buf| > virtSize then virtSize - offset else |p_buf|;
      var ok;
      ok, committed := WriteParts(p_buf[..size], offset);
      assert p_buf[..size][..committed] == p_buf[..committed];
      ret := if ok then size else -1;
    }
  }

  /** After a header or footer could not be stored, nothing has changed but the noted position and the end of the file. */
  lemma PartNotStored(l: Layout, m: Layout, image: seq<byte>, data: seq<byte>, data': seq<byte>)
    requires Ready(m, data) && data <= data' && l.blockSize == m.blockSize
    requires forall p :: Live(m, p) == Live(l, p)
    requires forall p :: Live(l, p) ==> Content(m, p, data) == Content(l, p, data)
    ensures Ready(m, data')
    ensures forall p :: Live(l, p) ==> Content(m, p, data') == Content(l, p, data)
    ensures DataView(m, image, data') == DataView(l, image, data)
  {
    AppendFrame(m, data, data');
    DataFrame(l, m, image, data, data');
  }

  lemma PartStored(l: Layout, m: Layout, image: seq<byte>, data: seq<byte>, data': seq<byte>, o: Owner, part: seq<byte>)
    requires Ready(l, data) && |data| < U64
    requires (o.VdiHeader? || o.VhdFooter?) && !Live(l, o) && |part| == Size(l, o)
    requires m == l.(header := WithPart(l.header, o, |data|))
    requires data' == Written(data + part, 0, EncodeHeader(m.header))
    ensures Ready(m, data') && |data'| == |data| + |part|
    ensures Live(m, o) && Content(m, o, data') == part
    ensures forall p :: p != o ==> Live(m, p) == Live(l, p)
    ensures forall p :: p != o && Live(l, p) ==> Content(m, p, data') == Content(l, p, data)
    ensures DataView(m, image, data') == DataView(l, image, data)
  {
    hide OnDisk, DataView;
    CachePart(l, o, data, part);
    RewriteHeaderOnDisk(l, m.header, data, part);
    DataFrame(l, m, image, data, data');
  }

  lemma ShortTailNonEmpty(l: Layout, size: nat, p: nat, n: nat)
    requires l.blockSize > 0
    ensures ReachesShortTail(l, size, p, n) ==> n > 0
  {
  }

  /** A write reaches a short, uncached last block exactly when its last piece ends there without filling the block. */
  lemma TailBlock(l: Layout, size: nat, p: nat, n: nat, c: nat, base: nat, at: nat, now: nat, done: nat)
    requires l.blockSize > 0 && base == c * l.blockSize
    requires base + at == p + done && 0 < now && at + now <= l.blockSize && done + now <= n && p + n <= size
    requires done + now < n ==> at + now == l.blockSize
    ensures (ReachesShortTail(l, size, p, n) && done + now == n) <==>
      (!Live(l, Block(c)) && at + now < l.blockSize && base + at + now == size)
  {
    DivMod(size, l.blockSize, c);
    DivMod(size, l.blockSize, c + 1);
    assert (c + 1) * l.blockSize == base + l.blockSize;
  }

  /** After a block could not be stored, nothing has changed but the noted position and the end of the file. */
  lemma NotStored(l: Layout, m: Layout, image: seq<byte>, data: seq<byte>, data': seq<byte>, c: nat, offData: nat)
    requires Ready(l, data) && data <= data'
    requires c < |l.idx| && !Live(l, Block(c))
    requires m == l.(idx := l.idx[c := l.idx[c].(offData := offData)])
    ensures Ready(m, data') && Extends(l, m)
    ensures forall o :: Live(m, o) == Live(l, o)
    ensures forall o :: Live(l, o) ==> Content(m, o, data') == Content(l, o, data)
    ensures DataView(m, image, data') == DataView(l, image, data)
  {
    ForgetPosition(l, m, data, c, offData);
    AppendFrame(m, data, data');
    DataFrame(l, m, image, data, data');
  }

  /** After a block was stored and its entry written, memory and file agree again. */
  lemma Stored(l: Layout, m: Layout, data: seq<byte>, data': seq<byte>, c: nat, block: seq<byte>)
    requires Ready(l, data) && |data| < U64
    requires c < |l.idx| && !Live(l, Block(c)) && |block| == l.blockSize
    requires m == Assigned(l, c, |data|) && data' == WithBlock(l, c, data, block)
    ensures Ready(m, data') && Extends(l, m) && |data'| == |data| + |block|
    ensures Live(m, Block(c)) && Content(m, Block(c), data') == block
    ensures forall p :: p != Block(c) ==> Live(m, p) == Live(l, p)
    ensures forall p :: p != Block(c) && Live(l, p) ==> Content(m, p, data') == Content(l, p, data)
  {
    hide OnDisk, SameHeader;
    AssignBlock(l, c, data, block);
    AssignBlockOnDisk(l, c, data, block);
  }

  /** Then the image has changed exactly where data was written. */
  lemma StoredView(l: Layout, m: Layout, image: seq<byte>, data: seq<byte>, data': seq<byte>,
                   c: nat, base: nat, at: nat, changed: seq<byte>)
    requires l.blockSize == m.blockSize > 0 && base == c * l.blockSize
    requires at + |changed| <= l.blockSize && base + at + |changed| <= |image|
    requires !Live(l, Block(c)) && Live(m, Block(c))
    requires Content(m, Block(c), data') == NewBlock(image, l.blockSize, base, at, changed)
    requires forall p :: p != Block(c) ==> Live(m, p) == Live(l, p)
    requires forall p :: p != Block(c) && Live(l, p) ==> Content(m, p, data') == Content(l, p, data)
    ensures DataView(m, image, data') == Splice(DataView(l, image, data), base + at, changed)
  {
    hide NewBlock, DataView, Splice, Content;
    forall j: nat | j < l.blockSize && base + j < |image|
      ensures Content(m, Block(c), data')[j] ==
        if at <= j < at + |changed| then changed[j - at] else BlockByte(l, image, data, c, j, base + j)
    {
      NewBlockBytes(image, l.blockSize, base, at, changed, j);
    }
    BlockChange(l, m, image, data, data', c, at, changed);
  }

  lemma Overwritten(l: Layout, o: Owner, data: seq<byte>, at: nat, t: seq<byte>)
    requires Ready(l, data)
    requires Live(l, o) && at + |t| <= Size(l, o)
    ensures var data' := Written(data, Start(l, o) + at, t);
      && |data'| == |data| && Ready(l, data')
      && Content(l, o, data') == Splice(Content(l, o, data), at, t)
      && forall p :: Live(l, p) && p != o ==> Content(l, p, data') == Content(l, p, data)
  {
    hide OnDisk;
    InPlace(l, o, data, at, t);
    InPlaceOnDisk(l, o, data, at, t);
  }

  lemma OverwrittenView(l: Layout, image: seq<byte>, data: seq<byte>, data': seq<byte>, c: nat, base: nat, at: nat, t: seq<byte>)
    requires l.blockSize > 0 && base == c * l.blockSize
    requires at + |t| <= l.blockSize && base + at + |t| <= |image|
    requires Live(l, Block(c)) && |Content(l, Block(c), data)| == l.blockSize
    requires Content(l, Block(c), data') == Splice(Content(l, Block(c), data), at, t)
    requires forall p :: Live(l, p) && p != Block(c) ==> Content(l, p, data') == Content(l, p, data)
    ensures DataView(l, image, data') == Splice(DataView(l, image, data), base + at, t)
  {
    hide DataView, Content;
    forall j: nat | j < l.blockSize && base + j < |image|
      ensures Content(l, Block(c), data')[j] ==
        if at <= j < at + |t| then t[j - at] else BlockByte(l, image, data, c, j, base + j)
    {
    }
    BlockChange(l, l, image, data, data', c, at, t);
  }
}
