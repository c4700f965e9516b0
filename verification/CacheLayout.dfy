/**
 * The cache file: its header and block index as bytes, the regions of the file that
 * hold cached data, and the image bytes that such a file stands for.
 */
module CacheLayout {
  import opened Bytes
  import opened Stdio

  const HEADER_SIZE := 512
  const ENTRY_SIZE := 12
  const CACHE_FILE_SIGNATURE := 0xFFFF746E756F6D78
  const CUR_CACHE_FILE_VERSION := 2
  const VHD_FOOTER_SIZE := 512

  /** ts_CacheFileHeader */
  datatype CacheHeader = CacheHeader(
    signature: nat, version: nat, blockSize: nat, blockCount: nat, pBlockIndex: nat,
    vdiCached: nat, pVdi: nat,
    vmdkCached: nat, vmdkSize: nat, pVmdk: nat,
    vhdCached: nat, pVhd: nat,
    padding: seq<byte>)
  {
    predicate Fits() {
      && signature < U64 && version < U32 && blockSize < U64 && blockCount < U64 && pBlockIndex < U64
      && vdiCached < U32 && pVdi < U64
      && vmdkCached < U32 && vmdkSize < U64 && pVmdk < U64
      && vhdCached < U32 && pVhd < U64
      && |padding| == 432
    }
  }

  /** ts_CacheFileBlockIndex */
  datatype Entry = Entry(flag: nat, offData: nat)

  // ----- encoding -----

  function EncodeHeader(h: CacheHeader): (s: seq<byte>)
    requires |h.padding| == 432
    ensures |s| == HEADER_SIZE
  {
    (Le(h.signature, 8) + Le(h.version, 4) + Le(h.blockSize, 8) + Le(h.blockCount, 8) + Le(h.pBlockIndex, 8))
    + (Le(h.vdiCached, 4) + Le(h.pVdi, 8))
    + (Le(h.vmdkCached, 4) + Le(h.vmdkSize, 8) + Le(h.pVmdk, 8))
    + (Le(h.vhdCached, 4) + Le(h.pVhd, 8))
    + h.padding
  }

  function Field(s: seq<byte>, at: nat, n: nat): nat
    requires at + n <= |s|
  {
    FromLe(s[at..at + n])
  }

  function DecodeHeader(s: seq<byte>): CacheHeader
    requires |s| >= HEADER_SIZE
  {
    CacheHeader(
      Field(s, 0, 8), Field(s, 8, 4), Field(s, 12, 8), Field(s, 20, 8), Field(s, 28, 8),
      Field(s, 36, 4), Field(s, 40, 8),
      Field(s, 48, 4), Field(s, 52, 8), Field(s, 60, 8),
      Field(s, 68, 4), Field(s, 72, 8),
      s[80..512])
  }

  function EncodeEntry(e: Entry): (s: seq<byte>)
    ensures |s| == ENTRY_SIZE
  {
    Le(e.flag, 4) + Le(e.offData, 8)
  }

  function DecodeEntry(s: seq<byte>): Entry
    requires |s| == ENTRY_SIZE
  {
    Entry(FromLe(s[..4]), FromLe(s[4..]))
  }

  function EntryOffset(i: nat): nat {
    HEADER_SIZE + ENTRY_SIZE * i
  }

  function EntryAt(data: seq<byte>, i: nat): Entry
    requires EntryOffset(i) + ENTRY_SIZE <= |data|
  {
    DecodeEntry(data[EntryOffset(i)..EntryOffset(i) + ENTRY_SIZE])
  }

  lemma HeaderParts(h: CacheHeader)
    requires h.Fits()
    ensures var s := EncodeHeader(h);
      && s[0..36] == Le(h.signature, 8) + Le(h.version, 4) + Le(h.blockSize, 8) + Le(h.blockCount, 8) + Le(h.pBlockIndex, 8)
      && s[36..48] == Le(h.vdiCached, 4) + Le(h.pVdi, 8)
      && s[48..68] == Le(h.vmdkCached, 4) + Le(h.vmdkSize, 8) + Le(h.pVmdk, 8)
      && s[68..80] == Le(h.vhdCached, 4) + Le(h.pVhd, 8)
      && s[80..512] == h.padding
  {
    hide Le;
    var a := Le(h.signature, 8) + Le(h.version, 4) + Le(h.blockSize, 8) + Le(h.blockCount, 8) + Le(h.pBlockIndex, 8);
    var b := Le(h.vdiCached, 4) + Le(h.pVdi, 8);
    var c := Le(h.vmdkCached, 4) + Le(h.vmdkSize, 8) + Le(h.pVmdk, 8);
    var d := Le(h.vhdCached, 4) + Le(h.pVhd, 8);
    assert EncodeHeader(h) == a + b + c + d + h.padding;
  }

  lemma PartFields(s: seq<byte>, a: seq<byte>, b: seq<byte>, c: seq<byte>, d: seq<byte>, e: seq<byte>, at: nat, to: nat)
    requires at <= to <= |s| && s[at..to] == a + b + c + d + e
    ensures var (x, y, z, w) := (at + |a|, at + |a| + |b|, at + |a| + |b| + |c|, at + |a| + |b| + |c| + |d|);
      s[at..x] == a && s[x..y] == b && s[y..z] == c && s[z..w] == d && s[w..to] == e
  {
    var p := s[at..to];
    var i, j, k, l := |a|, |a| + |b|, |a| + |b| + |c|, |a| + |b| + |c| + |d|;
    assert p[0..i] == a && p[i..j] == b && p[j..k] == c && p[k..l] == d && p[l..|p|] == e;
    SubSlice(s, at, to, 0, i);
    SubSlice(s, at, to, i, j);
    SubSlice(s, at, to, j, k);
    SubSlice(s, at, to, k, l);
    SubSlice(s, at, to, l, |p|);
  }

  lemma HeaderFields(h: CacheHeader)
    requires h.Fits()
    ensures var s := EncodeHeader(h);
      && s[0..8] == Le(h.signature, 8) && s[8..12] == Le(h.version, 4) && s[12..20] == Le(h.blockSize, 8)
      && s[20..28] == Le(h.blockCount, 8) && s[28..36] == Le(h.pBlockIndex, 8)
      && s[36..40] == Le(h.vdiCached, 4) && s[40..48] == Le(h.pVdi, 8)
      && s[48..52] == Le(h.vmdkCached, 4) && s[52..60] == Le(h.vmdkSize, 8) && s[60..68] == Le(h.pVmdk, 8)
      && s[68..72] == Le(h.vhdCached, 4) && s[72..80] == Le(h.pVhd, 8)
      && s[80..512] == h.padding
  {
    hide Le, EncodeHeader;
    HeaderParts(h);
    var s := EncodeHeader(h);
    PartFields(s, Le(h.signature, 8), Le(h.version, 4), Le(h.blockSize, 8), Le(h.blockCount, 8), Le(h.pBlockIndex, 8), 0, 36);
    TwoFields(s, Le(h.vdiCached, 4), Le(h.pVdi, 8), 36);
    ThreeFields(s, Le(h.vmdkCached, 4), Le(h.vmdkSize, 8), Le(h.pVmdk, 8), 48);
    TwoFields(s, Le(h.vhdCached, 4), Le(h.pVhd, 8), 68);
  }

  lemma TwoFields(s: seq<byte>, a: seq<byte>, b: seq<byte>, at: nat)
    requires at + |a| + |b| <= |s| && s[at..at + |a| + |b|] == a + b
    ensures s[at..at + |a|] == a && s[at + |a|..at + |a| + |b|] == b
  {
    SubSlice(s, at, at + |a| + |b|, 0, |a|);
    SubSlice(s, at, at + |a| + |b|, |a|, |a| + |b|);
  }

  lemma ThreeFields(s: seq<byte>, a: seq<byte>, b: seq<byte>, c: seq<byte>, at: nat)
    requires at + |a| + |b| + |c| <= |s| && s[at..at + |a| + |b| + |c|] == a + b + c
    ensures s[at..at + |a|] == a && s[at + |a|..at + |a| + |b|] == b && s[at + |a| + |b|..at + |a| + |b| + |c|] == c
  {
    TwoFields(s, a + b, c, at);
    TwoFields(s, a, b, at);
  }

  lemma HeaderRoundTrip(h: CacheHeader)
    requires h.Fits()
    ensures DecodeHeader(EncodeHeader(h)) == h
  {
    HeaderFields(h);
    Le8(h.signature); Le4(h.version); Le8(h.blockSize); Le8(h.blockCount); Le8(h.pBlockIndex);
    Le4(h.vdiCached); Le8(h.pVdi);
    Le4(h.vmdkCached); Le8(h.vmdkSize); Le8(h.pVmdk);
    Le4(h.vhdCached); Le8(h.pVhd);
  }

  lemma EntryRoundTrip(e: Entry)
    requires e.flag < U32 && e.offData < U64
    ensures DecodeEntry(EncodeEntry(e)) == e
  {
    Le4(e.flag);
    Le8(e.offData);
    var s := EncodeEntry(e);
    assert s[..4] == Le(e.flag, 4);
    assert s[4..] == Le(e.offData, 8);
  }

  // ----- regions -----

  /** What a region of the cache file belongs to. */
  datatype Owner = Block(i: nat) | VdiHeader | VhdFooter

  /** Header and block index, together with the sizes needed to interpret them. */
  datatype Layout = Layout(blockSize: nat, vdiSize: nat, header: CacheHeader, idx: seq<Entry>)

  predicate Live(l: Layout, o: Owner) {
    match o
    case Block(i) => i < |l.idx| && l.idx[i].flag == 1
    case VdiHeader => l.header.vdiCached == 1
    case VhdFooter => l.header.vhdCached == 1
  }

  function Start(l: Layout, o: Owner): nat {
    match o
    case Block(i) => if i < |l.idx| then l.idx[i].offData else 0
    case VdiHeader => l.header.pVdi
    case VhdFooter => l.header.pVhd
  }

  function Size(l: Layout, o: Owner): nat {
    match o
    case Block(_) => l.blockSize
    case VdiHeader => l.vdiSize
    case VhdFooter => VHD_FOOTER_SIZE
  }

  /** Where the header and the block index end. */
  function IndexEnd(l: Layout): nat {
    EntryOffset(|l.idx|)
  }

  ghost predicate Inside(l: Layout, len: nat) {
    forall o :: Live(l, o) ==> IndexEnd(l) <= Start(l, o) && Start(l, o) + Size(l, o) <= len
  }

  ghost predicate Disjoint(l: Layout) {
    forall o, p :: Live(l, o) && Live(l, p) && o != p ==>
      Start(l, o) + Size(l, o) <= Start(l, p) || Start(l, p) + Size(l, p) <= Start(l, o)
  }

  /**
   * Every cached block, the cached VDI header and the cached VHD footer own a region of their full size
   * behind the block index and inside the file, and no two regions overlap.
   */
  ghost predicate LayoutOk(l: Layout, len: nat) {
    && l.blockSize > 0
    && IndexEnd(l) <= len
    && Inside(l, len)
    && Disjoint(l)
  }

  /** Every region of l is still there, and where it was. */
  ghost predicate Extends(l: Layout, m: Layout) {
    forall o :: Live(l, o) ==> Live(m, o) && Start(m, o) == Start(l, o)
  }

  lemma ExtendsSelf(l: Layout)
    ensures Extends(l, l)
  {
  }

  lemma ExtendsTransitive(l: Layout, m: Layout, n: Layout)
    requires Extends(l, m) && Extends(m, n)
    ensures Extends(l, n)
  {
  }

  /** The cached bytes of an owner. */
  function Content(l: Layout, o: Owner, data: seq<byte>): (s: seq<byte>)
  {
    if Start(l, o) + Size(l, o) <= |data| then data[Start(l, o)..Start(l, o) + Size(l, o)] else []
  }

  // ----- the file as a description of itself -----

  /** The layout that can be read back from the bytes of a cache file alone. */
  function DiskLayout(data: seq<byte>, blockSize: nat, vdiSize: nat, blocks: nat): Layout
    requires EntryOffset(blocks) <= |data|
  {
    Layout(blockSize, vdiSize, DecodeHeader(data), DiskIndex(data, blocks))
  }

  function DiskIndex(data: seq<byte>, blocks: nat): (idx: seq<Entry>)
    requires EntryOffset(blocks) <= |data|
    ensures |idx| == blocks
    ensures forall i :: 0 <= i < blocks ==> idx[i] == EntryAt(data, i)
  {
    seq(blocks, i requires 0 <= i < blocks => EntryAt(data, i))
  }

  /** Two headers that differ at most in the position of a part that is not cached. */
  predicate SameHeader(h: CacheHeader, g: CacheHeader) {
    h == g.(pVdi := h.pVdi, pVhd := h.pVhd)
    && (h.vdiCached == 1 ==> h.pVdi == g.pVdi)
    && (h.vhdCached == 1 ==> h.pVhd == g.pVhd)
  }

  predicate SameEntry(e: Entry, d: Entry) {
    e.flag == d.flag && (e.flag == 1 ==> e.offData == d.offData)
  }

  /** The file's own header and index agree with the ones in memory about everything that is cached. */
  ghost predicate OnDisk(l: Layout, data: seq<byte>) {
    && IndexEnd(l) <= |data|
    && SameHeader(DecodeHeader(data), l.header)
    && forall i :: 0 <= i < |l.idx| ==> SameEntry(EntryAt(data, i), l.idx[i])
  }

  /** The header describes this index and this version of the format. */
  predicate HeaderOk(l: Layout) {
    && l.header.Fits()
    && l.header.signature == CACHE_FILE_SIGNATURE
    && l.header.version == CUR_CACHE_FILE_VERSION
    && l.header.blockSize == l.blockSize
    && l.header.pBlockIndex == HEADER_SIZE
  }

  /** Memory and file describe the same regions, and the regions are sound. */
  ghost predicate Ready(l: Layout, data: seq<byte>) {
    LayoutOk(l, |data|) && HeaderOk(l) && OnDisk(l, data)
  }

  // ----- the bytes a cache file stands for -----

  /** Byte j of block c, which is byte i of the image: the cached copy when there is one, else the morphed image. */
  function BlockByte(l: Layout, image: seq<byte>, data: seq<byte>, c: nat, j: nat, i: nat): byte
    requires i < |image|
  {
    var s := Content(l, Block(c), data);
    if Live(l, Block(c)) && j < |s| then s[j] else image[i]
  }

  function DataByte(l: Layout, image: seq<byte>, data: seq<byte>, i: nat): byte
    requires l.blockSize > 0 && i < |image|
  {
    BlockByte(l, image, data, i / l.blockSize, i % l.blockSize, i)
  }

  /** The image with all cached changes. */
  function DataView(l: Layout, image: seq<byte>, data: seq<byte>): (s: seq<byte>)
    requires l.blockSize > 0
    ensures |s| == |image|
    ensures forall i :: 0 <= i < |image| ==> s[i] == DataByte(l, image, data, i)
  {
    seq(|image|, i requires 0 <= i < |image| => DataByte(l, image, data, i))
  }

  /** A header or footer: its cached copy when there is one, else the emulated original. */
  function PartView(l: Layout, o: Owner, original: seq<byte>, data: seq<byte>): (s: seq<byte>)
  {
    if Live(l, o) then Content(l, o, data) else original
  }

  // ----- frame lemmas -----

  /** Same regions, same bytes in them: same image. */
  lemma DataFrame(l: Layout, m: Layout, image: seq<byte>, data: seq<byte>, data': seq<byte>)
    requires l.blockSize == m.blockSize > 0
    requires forall c: nat :: Live(l, Block(c)) == Live(m, Block(c))
    requires forall c: nat :: Live(l, Block(c)) ==> Content(l, Block(c), data) == Content(m, Block(c), data')
    ensures DataView(l, image, data) == DataView(m, image, data')
  {
    forall i | 0 <= i < |image|
      ensures DataByte(l, image, data, i) == DataByte(m, image, data', i)
    {
      DivMod(i, l.blockSize, 0);
      var c, j := i / l.blockSize, i % l.blockSize;
      assert Live(l, Block(c)) == Live(m, Block(c));
      BlockByteFrame(l, m, image, data, data', c, j, i);
    }
  }

  lemma BlockByteFrame(l: Layout, m: Layout, image: seq<byte>, data: seq<byte>, data': seq<byte>, c: nat, j: nat, i: nat)
    requires i < |image|
    requires Live(l, Block(c)) == Live(m, Block(c))
    requires Live(l, Block(c)) ==> Content(l, Block(c), data) == Content(m, Block(c), data')
    ensures BlockByte(l, image, data, c, j, i) == BlockByte(m, image, data', c, j, i)
  {
  }

  /** Appending to the file leaves every region and everything on disk as it was. */
  lemma AppendFrame(l: Layout, data: seq<byte>, data': seq<byte>)
    requires LayoutOk(l, |data|) && OnDisk(l, data)
    requires data <= data'
    ensures LayoutOk(l, |data'|) && OnDisk(l, data')
    ensures forall o :: Live(l, o) ==> Content(l, o, data') == Content(l, o, data)
  {
    forall o | Live(l, o)
      ensures Content(l, o, data') == Content(l, o, data)
    {
      assert data'[Start(l, o)..Start(l, o) + Size(l, o)] == data[Start(l, o)..Start(l, o) + Size(l, o)];
    }
    DiskFrame(l, data, data');
  }

  /** The on-disk description depends only on the bytes in front of the regions. */
  lemma DiskFrame(l: Layout, data: seq<byte>, data': seq<byte>)
    requires OnDisk(l, data) && IndexEnd(l) <= |data'|
    requires data[..IndexEnd(l)] == data'[..IndexEnd(l)]
    ensures OnDisk(l, data')
  {
    SameHeaderBytes(data, data');
    forall i | 0 <= i < |l.idx|
      ensures EntryAt(data', i) == EntryAt(data, i)
    {
      assert EntryOffset(i) + ENTRY_SIZE <= IndexEnd(l);
      PrefixSlice(data, data', IndexEnd(l), EntryOffset(i), EntryOffset(i) + ENTRY_SIZE);
    }
  }

  lemma PrefixSlice(s: seq<byte>, t: seq<byte>, n: nat, lo: nat, hi: nat)
    requires lo <= hi <= n <= |s| && n <= |t|
    requires s[..n] == t[..n]
    ensures s[lo..hi] == t[lo..hi]
  {
    assert s[lo..hi] == s[..n][lo..hi];
    assert t[lo..hi] == t[..n][lo..hi];
  }

  lemma SameHeaderBytes(s: seq<byte>, t: seq<byte>)
    requires |s| >= HEADER_SIZE && |t| >= HEADER_SIZE
    requires s[..HEADER_SIZE] == t[..HEADER_SIZE]
    ensures DecodeHeader(s) == DecodeHeader(t)
  {
    DecodePrefix(s);
    DecodePrefix(t);
  }

  lemma DecodePrefix(s: seq<byte>)
    requires |s| >= HEADER_SIZE
    ensures DecodeHeader(s) == DecodeHeader(s[..HEADER_SIZE])
  {
    hide Field;
    FieldPrefix(s, 0, 8);
    FieldPrefix(s, 8, 4);
    FieldPrefix(s, 12, 8);
    FieldPrefix(s, 20, 8);
    FieldPrefix(s, 28, 8);
    FieldPrefix(s, 36, 4);
    FieldPrefix(s, 40, 8);
    FieldPrefix(s, 48, 4);
    FieldPrefix(s, 52, 8);
    FieldPrefix(s, 60, 8);
    FieldPrefix(s, 68, 4);
    FieldPrefix(s, 72, 8);
    SubSlice(s, 0, HEADER_SIZE, 80, 512);
    assert s[0..HEADER_SIZE] == s[..HEADER_SIZE];
  }

  lemma FieldPrefix(s: seq<byte>, at: nat, n: nat)
    requires |s| >= HEADER_SIZE && at + n <= HEADER_SIZE
    ensures Field(s, at, n) == Field(s[..HEADER_SIZE], at, n)
  {
    hide FromLe;
    SubSlice(s, 0, HEADER_SIZE, at, at + n);
    assert s[0..HEADER_SIZE] == s[..HEADER_SIZE];
  }

  /** A stretch of bytes outside the written one is unchanged. */
  lemma RegionInFile(l: Layout, o: Owner, len: nat)
    requires LayoutOk(l, len) && Live(l, o)
    ensures IndexEnd(l) <= Start(l, o) && Start(l, o) + Size(l, o) <= len
  {
  }

  lemma WrittenElsewhere(s: seq<byte>, at: nat, t: seq<byte>, lo: nat, hi: nat)
    requires at <= |s| && lo <= hi <= |s|
    requires at + |t| <= lo || hi <= at
    ensures Written(s, at, t)[lo..hi] == s[lo..hi]
  {
  }

  lemma WrittenWithin(s: seq<byte>, at: nat, t: seq<byte>, lo: nat, hi: nat)
    requires lo <= at <= at + |t| <= hi <= |s|
    ensures Written(s, at, t)[lo..hi] == Splice(s[lo..hi], at - lo, t)
  {
  }

  /** Overwriting part of a region changes that region's bytes and no other region's. */
  lemma InPlace(l: Layout, o: Owner, data: seq<byte>, at: nat, t: seq<byte>)
    requires LayoutOk(l, |data|)
    requires Live(l, o) && at + |t| <= Size(l, o)
    ensures var data' := Written(data, Start(l, o) + at, t);
      && |data'| == |data|
      && Content(l, o, data') == Splice(Content(l, o, data), at, t)
      && forall p :: Live(l, p) && p != o ==> Content(l, p, data') == Content(l, p, data)
  {
    hide Written, Start, Size, Live;
    RegionInFile(l, o, |data|);
    WrittenWithin(data, Start(l, o) + at, t, Start(l, o), Start(l, o) + Size(l, o));
    forall p | Live(l, p) && p != o
      ensures Content(l, p, Written(data, Start(l, o) + at, t)) == Content(l, p, data)
    {
      RegionInFile(l, p, |data|);
      WrittenElsewhere(data, Start(l, o) + at, t, Start(l, p), Start(l, p) + Size(l, p));
    }
  }

  lemma InPlaceOnDisk(l: Layout, o: Owner, data: seq<byte>, at: nat, t: seq<byte>)
    requires LayoutOk(l, |data|) && OnDisk(l, data)
    requires Live(l, o) && at + |t| <= Size(l, o)
    ensures OnDisk(l, Written(data, Start(l, o) + at, t))
  {
    WrittenElsewhere(data, Start(l, o) + at, t, 0, IndexEnd(l));
    DiskFrame(l, data, Written(data, Start(l, o) + at, t));
  }

  /** Adding a region that lies behind all others. */
  lemma AddRegion(l: Layout, m: Layout, o: Owner, len: nat, len': nat)
    requires LayoutOk(l, len) && len <= len'
    requires m.blockSize == l.blockSize && m.vdiSize == l.vdiSize && |m.idx| == |l.idx|
    requires !Live(l, o) && Live(m, o) && len <= Start(m, o) && Start(m, o) + Size(m, o) <= len'
    requires forall p :: p != o ==> Live(m, p) == Live(l, p) && Start(m, p) == Start(l, p)
    ensures LayoutOk(m, len')
  {
    forall p ensures Size(m, p) == Size(l, p) { }
  }

  /** A write in front of the regions, after `extra` was appended to the file. */
  lemma WriteInFront(l: Layout, m: Layout, data: seq<byte>, extra: seq<byte>, at: nat, t: seq<byte>)
    requires LayoutOk(l, |data|)
    requires at + |t| <= IndexEnd(l)
    ensures var data' := Written(data + extra, at, t);
      && |data'| == |data| + |extra|
      && data'[|data|..] == extra
      && forall p :: Live(l, p) && Start(m, p) == Start(l, p) && Size(m, p) == Size(l, p) ==>
           Content(m, p, data') == Content(l, p, data)
  {
    var data1 := data + extra;
    var data' := Written(data1, at, t);
    WrittenElsewhere(data1, at, t, |data|, |data1|);
    assert data1[|data|..] == extra;
    forall p | Live(l, p) && Start(m, p) == Start(l, p) && Size(m, p) == Size(l, p)
      ensures Content(m, p, data') == Content(l, p, data)
    {
      WrittenElsewhere(data1, at, t, Start(l, p), Start(l, p) + Size(l, p));
      assert data1[Start(l, p)..Start(l, p) + Size(l, p)] == data[Start(l, p)..Start(l, p) + Size(l, p)];
    }
  }

  /** The header and index in memory after block c was appended at the end of a file of length len. */
  function Assigned(l: Layout, c: nat, len: nat): (m: Layout)
    requires c < |l.idx|
  {
    l.(idx := l.idx[c := Entry(1, len)])
  }

  /** The file after the block was appended and its index entry was written. */
  function WithBlock(l: Layout, c: nat, data: seq<byte>, block: seq<byte>): (r: seq<byte>)
    requires c < |l.idx| && IndexEnd(l) <= |data|
  {
    Written(data + block, EntryOffset(c), EncodeEntry(Entry(1, |data|)))
  }

  /** Appending a full block and then its index entry makes it the block's cached copy. */
  lemma AssignBlock(l: Layout, c: nat, data: seq<byte>, block: seq<byte>)
    requires LayoutOk(l, |data|)
    requires c < |l.idx| && !Live(l, Block(c)) && |block| == l.blockSize
    ensures var m := Assigned(l, c, |data|);
      var data' := WithBlock(l, c, data, block);
      && |data'| == |data| + |block|
      && LayoutOk(m, |data'|)
      && Live(m, Block(c)) && Content(m, Block(c), data') == block
      && forall p :: p != Block(c) ==> Live(m, p) == Live(l, p) && (Live(l, p) ==> Content(m, p, data') == Content(l, p, data))
  {
    var m := Assigned(l, c, |data|);
    var data' := WithBlock(l, c, data, block);
    WriteInFront(l, m, data, block, EntryOffset(c), EncodeEntry(Entry(1, |data|)));
    AddRegion(l, m, Block(c), |data|, |data'|);
    forall p | p != Block(c) && Live(l, p)
      ensures Content(m, p, data') == Content(l, p, data)
    {
      assert Start(m, p) == Start(l, p) && Size(m, p) == Size(l, p);
    }
  }

  lemma AssignBlockOnDisk(l: Layout, c: nat, data: seq<byte>, block: seq<byte>)
    requires OnDisk(l, data) && c < |l.idx| && |data| < U64
    ensures OnDisk(Assigned(l, c, |data|), WithBlock(l, c, data, block))
  {
    var e := Entry(1, |data|);
    var m := Assigned(l, c, |data|);
    var data1 := data + block;
    var at := EntryOffset(c);
    var data' := WithBlock(l, c, data, block);
    WrittenElsewhere(data1, at, EncodeEntry(e), 0, HEADER_SIZE);
    assert data1[..HEADER_SIZE] == data[..HEADER_SIZE];
    SameHeaderBytes(data, data');
    forall i | 0 <= i < |m.idx|
      ensures SameEntry(EntryAt(data', i), m.idx[i])
    {
      EntryAfterWrite(data, block, c, e, i);
    }
  }

  lemma EntryAfterWrite(data: seq<byte>, block: seq<byte>, c: nat, e: Entry, i: nat)
    requires EntryOffset(c) + ENTRY_SIZE <= |data| && EntryOffset(i) + ENTRY_SIZE <= |data|
    requires e.flag < U32 && e.offData < U64
    ensures EntryAt(Written(data + block, EntryOffset(c), EncodeEntry(e)), i) == if i == c then e else EntryAt(data, i)
  {
    var lo := EntryOffset(i);
    var data1 := data + block;
    if i == c {
      WrittenWithin(data1, lo, EncodeEntry(e), lo, lo + ENTRY_SIZE);
      assert Splice(data1[lo..lo + ENTRY_SIZE], 0, EncodeEntry(e)) == EncodeEntry(e);
      EntryRoundTrip(e);
    } else {
      WrittenElsewhere(data1, EntryOffset(c), EncodeEntry(e), lo, lo + ENTRY_SIZE);
      assert data1[lo..lo + ENTRY_SIZE] == data[lo..lo + ENTRY_SIZE];
    }
  }

  /** The header in memory after the VDI header or VHD footer was appended at the end of a file of length len. */
  function WithPart(h: CacheHeader, o: Owner, len: nat): CacheHeader
    requires o.VdiHeader? || o.VhdFooter?
  {
    if o.VdiHeader? then h.(vdiCached := 1, pVdi := len) else h.(vhdCached := 1, pVhd := len)
  }

  /** Appending a header or footer copy and then rewriting the cache header makes it the cached one. */
  lemma CachePart(l: Layout, o: Owner, data: seq<byte>, part: seq<byte>)
    requires LayoutOk(l, |data|) && HeaderOk(l)
    requires o.VdiHeader? || o.VhdFooter?
    requires !Live(l, o) && |part| == Size(l, o)
    ensures var m := l.(header := WithPart(l.header, o, |data|));
      var data' := Written(data + part, 0, EncodeHeader(m.header));
      && |data'| == |data| + |part|
      && LayoutOk(m, |data'|)
      && Live(m, o) && Content(m, o, data') == part
      && forall p :: p != o ==> Live(m, p) == Live(l, p) && (Live(l, p) ==> Content(m, p, data') == Content(l, p, data))
  {
    var m := l.(header := WithPart(l.header, o, |data|));
    var data' := Written(data + part, 0, EncodeHeader(m.header));
    WriteInFront(l, m, data, part, 0, EncodeHeader(m.header));
    AddRegion(l, m, o, |data|, |data'|);
    forall p | p != o && Live(l, p)
      ensures Content(m, p, data') == Content(l, p, data)
    {
      assert Start(m, p) == Start(l, p) && Size(m, p) == Size(l, p);
    }
  }

  /** The position noted for a header or footer that is not cached does not matter. */
  lemma ForgetPartPosition(l: Layout, m: Layout, data: seq<byte>, o: Owner, pos: nat)
    requires Ready(l, data) && pos < U64
    requires (o.VdiHeader? || o.VhdFooter?) && !Live(l, o)
    requires m == l.(header := if o.VdiHeader? then l.header.(pVdi := pos) else l.header.(pVhd := pos))
    ensures Ready(m, data)
    ensures forall p :: Live(m, p) == Live(l, p)
    ensures forall p :: Live(l, p) ==> Content(m, p, data) == Content(l, p, data)
  {
    hide DecodeHeader, DecodeEntry;
    forall p | Live(m, p)
      ensures Start(m, p) == Start(l, p) && Size(m, p) == Size(l, p)
    {
    }
  }

  /** Rewriting the cache header, after something was appended, brings the file in line with memory. */
  lemma RewriteHeaderOnDisk(l: Layout, h: CacheHeader, data: seq<byte>, extra: seq<byte>)
    requires OnDisk(l, data) && h.Fits()
    ensures OnDisk(l.(header := h), Written(data + extra, 0, EncodeHeader(h)))
  {
    hide EncodeHeader, DecodeHeader, DecodeEntry;
    var data1 := data + extra;
    var data' := Written(data1, 0, EncodeHeader(h));
    DecodePrefix(data');
    assert data'[..HEADER_SIZE] == EncodeHeader(h);
    HeaderRoundTrip(h);
    forall i | 0 <= i < |l.idx|
      ensures EntryAt(data', i) == EntryAt(data, i)
    {
      var lo := EntryOffset(i);
      WrittenElsewhere(data1, 0, EncodeHeader(h), lo, lo + ENTRY_SIZE);
      assert data1[lo..lo + ENTRY_SIZE] == data[lo..lo + ENTRY_SIZE];
    }
  }

  /** What the image becomes when only block c changed, and there only t was written over position at. */
  lemma BlockChange(l: Layout, m: Layout, image: seq<byte>, data: seq<byte>, data': seq<byte>, c: nat, at: nat, t: seq<byte>)
    requires l.blockSize == m.blockSize > 0
    requires at + |t| <= l.blockSize && c * l.blockSize + at + |t| <= |image|
    requires forall p: nat :: p != c ==> Live(l, Block(p)) == Live(m, Block(p))
    requires forall p: nat :: p != c && Live(l, Block(p)) ==> Content(l, Block(p), data) == Content(m, Block(p), data')
    requires Live(m, Block(c)) && |Content(m, Block(c), data')| == m.blockSize
    requires forall j: nat :: j < l.blockSize && c * l.blockSize + j < |image| ==>
      Content(m, Block(c), data')[j] ==
        if at <= j < at + |t| then t[j - at] else BlockByte(l, image, data, c, j, c * l.blockSize + j)
    ensures DataView(m, image, data') == Splice(DataView(l, image, data), c * l.blockSize + at, t)
  {
    hide Content, Live;
    var base := c * l.blockSize;
    var after := Splice(DataView(l, image, data), base + at, t);
    forall i | 0 <= i < |image|
      ensures DataByte(m, image, data', i) == after[i]
    {
      DivMod(i, l.blockSize, c);
      var p: nat, j: nat := i / l.blockSize, i % l.blockSize;
      if p != c {
        BlockByteFrame(l, m, image, data, data', p, j, i);
      } else {
        assert i == base + j;
      }
    }
  }

  /** Reading part of a block: from its region when it is cached, else from the morphed image. */
  lemma BlockSlice(l: Layout, image: seq<byte>, data: seq<byte>, c: nat, base: nat, at: nat, n: nat)
    requires l.blockSize > 0 && Inside(l, |data|) && base == c * l.blockSize
    requires at + n <= l.blockSize && base + at + n <= |image|
    ensures DataView(l, image, data)[base + at..base + at + n] ==
      if Live(l, Block(c)) then data[Start(l, Block(c)) + at..Start(l, Block(c)) + at + n] else image[base + at..base + at + n]
  {
    hide Content, DataByte;
    var part := DataView(l, image, data)[base + at..base + at + n];
    forall k | 0 <= k < n
      ensures part[k] == if Live(l, Block(c)) then data[Start(l, Block(c)) + at + k] else image[base + at + k]
    {
      BlockPosition(l, image, data, c, at + k, base + at + k);
    }
  }

  lemma BlockPosition(l: Layout, image: seq<byte>, data: seq<byte>, c: nat, j: nat, i: nat)
    requires l.blockSize > 0 && Inside(l, |data|)
    requires j < l.blockSize && i < |image| && i == c * l.blockSize + j
    ensures DataByte(l, image, data, i) == if Live(l, Block(c)) then data[Start(l, Block(c)) + j] else image[i]
  {
    DivMod(i, l.blockSize, c);
  }

  /** The position noted for something that is not cached does not matter. */
  lemma ForgetPosition(l: Layout, m: Layout, data: seq<byte>, c: nat, offData: nat)
    requires LayoutOk(l, |data|) && OnDisk(l, data)
    requires c < |l.idx| && !Live(l, Block(c))
    requires m == l.(idx := l.idx[c := l.idx[c].(offData := offData)])
    ensures LayoutOk(m, |data|) && OnDisk(m, data)
    ensures forall o :: Live(m, o) == Live(l, o)
    ensures forall o :: Live(l, o) ==> Content(m, o, data) == Content(l, o, data)
  {
    SameStarts(l, m, c, offData);
    hide DecodeHeader, DecodeEntry, Live, Start, Size, EntryAt;
    SameLayout(l, m, |data|);
    ForgottenOnDisk(l, m, data, c, offData);
  }

  lemma SameStarts(l: Layout, m: Layout, c: nat, offData: nat)
    requires c < |l.idx| && !Live(l, Block(c))
    requires m == l.(idx := l.idx[c := l.idx[c].(offData := offData)])
    ensures forall o :: Live(m, o) == Live(l, o) && Size(m, o) == Size(l, o)
    ensures forall o :: Live(l, o) ==> Start(m, o) == Start(l, o)
  {
  }

  /** Regions in the same places make the same layout. */
  lemma SameLayout(l: Layout, m: Layout, len: nat)
    requires LayoutOk(l, len) && m.blockSize == l.blockSize && |m.idx| == |l.idx|
    requires forall o :: Live(m, o) == Live(l, o) && Size(m, o) == Size(l, o)
    requires forall o :: Live(l, o) ==> Start(m, o) == Start(l, o)
    ensures LayoutOk(m, len)
  {
    hide Live, Start, Size;
  }

  lemma ForgottenOnDisk(l: Layout, m: Layout, data: seq<byte>, c: nat, offData: nat)
    requires OnDisk(l, data) && c < |l.idx| && !Live(l, Block(c))
    requires m == l.(idx := l.idx[c := l.idx[c].(offData := offData)])
    ensures OnDisk(m, data)
  {
    hide DecodeHeader, EntryAt;
  }

  // ----- reading a cache file back -----

  /** A cache file whose own header and index describe sound regions. */
  ghost predicate WellFormed(data: seq<byte>, blockSize: nat, vdiSize: nat, blocks: nat) {
    EntryOffset(blocks) <= |data| && Ready(DiskLayout(data, blockSize, vdiSize, blocks), data)
  }

  lemma DecodedHeaderFits(data: seq<byte>)
    requires |data| >= HEADER_SIZE
    ensures DecodeHeader(data).Fits()
  {
    hide Field;
    FieldBound(data, 0, 8);
    FieldBound(data, 8, 4);
    FieldBound(data, 12, 8);
    FieldBound(data, 20, 8);
    FieldBound(data, 28, 8);
    FieldBound(data, 36, 4);
    FieldBound(data, 40, 8);
    FieldBound(data, 48, 4);
    FieldBound(data, 52, 8);
    FieldBound(data, 60, 8);
    FieldBound(data, 68, 4);
    FieldBound(data, 72, 8);
  }

  lemma FieldBound(data: seq<byte>, at: nat, n: nat)
    requires at + n <= |data|
    ensures n == 4 ==> Field(data, at, n) < U32
    ensures n == 8 ==> Field(data, at, n) < U64
  {
    Widths();
    FromLeBound(data[at..at + n]);
  }

  /** The file alone gives back every region, and so every byte, that memory knows of. */
  lemma Reload(l: Layout, d: Layout, image: seq<byte>, data: seq<byte>)
    requires Ready(l, data)
    requires d == DiskLayout(data, l.blockSize, l.vdiSize, |l.idx|)
    ensures Ready(d, data)
    ensures forall o :: Live(d, o) == Live(l, o)
    ensures forall o :: Live(l, o) ==> Start(d, o) == Start(l, o) && Content(d, o, data) == Content(l, o, data)
    ensures DataView(d, image, data) == DataView(l, image, data)
  {
    hide DecodeHeader, DecodeEntry;
    DecodedHeaderFits(data);
    assert forall i :: 0 <= i < |l.idx| ==> SameEntry(d.idx[i], l.idx[i]);
    forall o
      ensures Live(d, o) == Live(l, o) && Size(d, o) == Size(l, o)
      ensures Live(l, o) ==> Start(d, o) == Start(l, o)
    {
      match o {
        case Block(i) => assert i < |l.idx| ==> SameEntry(d.idx[i], l.idx[i]);
        case _ =>
      }
    }
    DataFrame(l, d, image, data, data);
  }

  // ----- a new cache file -----

  function NewHeader(blockSize: nat, blocks: nat): CacheHeader {
    CacheHeader(CACHE_FILE_SIGNATURE, CUR_CACHE_FILE_VERSION, blockSize, blocks, HEADER_SIZE, 0, 0, 0, 0, 0, 0, 0, Zeros(432))
  }

  /** Its bytes: "xmount", version 2, both block numbers, the position of the index, and nothing cached. */
  lemma NewHeaderBytes(blockSize: nat, blocks: nat)
    requires blockSize < U64 && blocks < U64
    ensures var s := EncodeHeader(NewHeader(blockSize, blocks));
      && s[0..8] == [0x78, 0x6D, 0x6F, 0x75, 0x6E, 0x74, 0xFF, 0xFF] && s[8..12] == [2, 0, 0, 0]
      && s[12..20] == Le(blockSize, 8) && s[20..28] == Le(blocks, 8) && s[28..36] == [0, 2, 0, 0, 0, 0, 0, 0]
      && forall i :: 36 <= i < 512 ==> s[i] == 0
  {
    LiteralBytes();
    LeZero(4);
    LeZero(8);
    hide Le, EncodeHeader;
    var s := EncodeHeader(NewHeader(blockSize, blocks));
    HeaderFields(NewHeader(blockSize, blocks));
    forall i | 36 <= i < 512
      ensures s[i] == 0
    {
      assert 36 <= i < 40 ==> s[i] == s[36..40][i - 36];
      assert 40 <= i < 48 ==> s[i] == s[40..48][i - 40];
      assert 48 <= i < 52 ==> s[i] == s[48..52][i - 48];
      assert 52 <= i < 60 ==> s[i] == s[52..60][i - 52];
      assert 60 <= i < 68 ==> s[i] == s[60..68][i - 60];
      assert 68 <= i < 72 ==> s[i] == s[68..72][i - 68];
      assert 72 <= i < 80 ==> s[i] == s[72..80][i - 72];
      assert 80 <= i ==> s[i] == s[80..512][i - 80];
    }
  }

  lemma LiteralBytes()
    ensures Le(CACHE_FILE_SIGNATURE, 8) == [0x78, 0x6D, 0x6F, 0x75, 0x6E, 0x74, 0xFF, 0xFF]
    ensures Le(CUR_CACHE_FILE_VERSION, 4) == [2, 0, 0, 0] && Le(HEADER_SIZE, 8) == [0, 2, 0, 0, 0, 0, 0, 0]
  {
    hide Le;
    LeBytes8(CACHE_FILE_SIGNATURE, 0x756F6D78, 0xFFFF746E);
    LeBytes4(0x756F6D78, 0x78, 0x6D, 0x6F, 0x75);
    LeBytes4(0xFFFF746E, 0x6E, 0x74, 0xFF, 0xFF);
    LeBytes4(CUR_CACHE_FILE_VERSION, 2, 0, 0, 0);
    LeBytes8(HEADER_SIZE, 512, 0);
    LeBytes4(512, 0, 2, 0, 0);
    LeBytes4(0, 0, 0, 0, 0);
  }

  /** A file that holds just a new header and an index of free entries describes an image without changes. */
  lemma NewFile(l: Layout, image: seq<byte>, data: seq<byte>)
    requires l.blockSize > 0 && l.blockSize < U64 && |l.idx| < U64
    requires l.header == NewHeader(l.blockSize, |l.idx|)
    requires forall i :: 0 <= i < |l.idx| ==> l.idx[i] == Entry(0, 0)
    requires data == EncodeHeader(l.header) + Zeros(ENTRY_SIZE * |l.idx|)
    ensures Ready(l, data)
    ensures forall o :: !Live(l, o)
    ensures DataView(l, image, data) == image
  {
    hide DecodeEntry, EncodeHeader, DecodeHeader;
    NewEntries(data, EncodeHeader(l.header), |l.idx|);
    NewHeaderOnDisk(l.header, data, |l.idx|);
    assert forall o :: !Live(l, o);
    NothingCached(l, image, data);
  }

  lemma NewHeaderOnDisk(h: CacheHeader, data: seq<byte>, n: nat)
    requires h.Fits() && data == EncodeHeader(h) + Zeros(ENTRY_SIZE * n)
    ensures |data| >= HEADER_SIZE && DecodeHeader(data) == h
  {
    HeaderRoundTrip(h);
    hide DecodeHeader, EncodeHeader;
    DecodePrefix(data);
    assert data[..HEADER_SIZE] == EncodeHeader(h);
  }

  lemma NewEntries(data: seq<byte>, header: seq<byte>, n: nat)
    requires |header| == HEADER_SIZE && data == header + Zeros(ENTRY_SIZE * n)
    ensures forall i :: 0 <= i < n ==> EntryOffset(i) + ENTRY_SIZE <= |data| && EntryAt(data, i) == Entry(0, 0)
  {
    EntryRoundTrip(Entry(0, 0));
    ZeroEntry();
    forall i | 0 <= i < n
      ensures EntryOffset(i) + ENTRY_SIZE <= |data| && EntryAt(data, i) == Entry(0, 0)
    {
      hide DecodeEntry, EncodeEntry;
      var lo := EntryOffset(i);
      assert data[lo..lo + ENTRY_SIZE] == Zeros(ENTRY_SIZE);
    }
  }

  /** Where nothing is cached, the original image shows. */
  lemma NothingCached(l: Layout, image: seq<byte>, data: seq<byte>)
    requires l.blockSize > 0 && Inside(l, |data|) && forall o :: !Live(l, o)
    ensures DataView(l, image, data) == image
  {
    hide Live, Inside, Content;
    forall i | 0 <= i < |image|
      ensures DataByte(l, image, data, i) == image[i]
    {
      DivMod(i, l.blockSize, 0);
    }
  }

  lemma ZeroEntry()
    ensures EncodeEntry(Entry(0, 0)) == Zeros(ENTRY_SIZE)
  {
    LeZero(4);
    LeZero(8);
  }

  lemma {:induction false} LeZero(n: nat)
    ensures Le(0, n) == Zeros(n)
  {
    if n > 0 {
      LeZero(n - 1);
      assert Zeros(n) == [0] + Zeros(n - 1);
    }
  }
}
