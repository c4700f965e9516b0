/** Writing AEWF images: chunks laid end to end, the tables that find them again, and whole segment files. */
module AewfWriter {
  import opened Bytes
  import opened AewfFormat
  import opened AewfSegments
  import Aewf
  import Lookup
  import T = AewfThreads
  import O = AewfOpen

  // ----- stored chunks, one after the other -----

  /** The bytes a chunk is stored as. */
  datatype Piece = Piece(compressed: bool, raw: seq<byte>)

  function Laid(pieces: seq<Piece>): seq<byte> {
    if pieces == [] then [] else Laid(pieces[..|pieces| - 1]) + pieces[|pieces| - 1].raw
  }

  /** Where chunk i begins in them. */
  function Place(pieces: seq<Piece>, i: nat): nat
    requires i <= |pieces|
  {
    |Laid(pieces[..i])|
  }

  lemma {:induction false} PieceHere(pieces: seq<Piece>, i: nat)
    requires i < |pieces|
    ensures Place(pieces, i + 1) == Place(pieces, i) + |pieces[i].raw| <= |Laid(pieces)|
    ensures Laid(pieces)[Place(pieces, i)..Place(pieces, i + 1)] == pieces[i].raw
    ensures i == |pieces| - 1 ==> Place(pieces, i + 1) == |Laid(pieces)|
  {
    var last := |pieces| - 1;
    assert pieces[..i + 1][..i] == pieces[..i];
    if i < last {
      PieceHere(pieces[..last], i);
      assert pieces[..last][..i] == pieces[..i] && pieces[..last][..i + 1] == pieces[..i + 1];
      SliceLeft(Laid(pieces[..last]), pieces[last].raw, Place(pieces, i), Place(pieces, i + 1));
    } else {
      assert pieces[..i + 1] == pieces;
      SliceRight(Laid(pieces[..last]), pieces[last].raw, 0, |pieces[last].raw|);
    }
  }

  /** The table entry for chunk i of those that start at `start`: its distance from the base, and the top bit if it is compressed. */
  function EntryOf(pieces: seq<Piece>, start: nat, base: nat, i: nat): int
    requires i < |pieces|
  {
    start + Place(pieces, i) - base + if pieces[i].compressed then 0x8000_0000 else 0
  }

  /**
   * The chunks are in the data of the table's sectors section, and the table finds them: the base in bytes 8 to 15 of it is
   * at or below the first of them, and 31 bits are enough for their distances from it.
   */
  ghost predicate Holds(info: TableInfo, table: seq<byte>, file: seq<byte>, base: nat, pieces: seq<Piece>) {
    var start := info.sectorsPos + 76;
    && info.chunkCount == |pieces| && 24 + 4 * |pieces| <= |table|
    && info.sectorsSize == 76 + |Laid(pieces)| < U32 && start + |Laid(pieces)| <= |file| && start + |Laid(pieces)| < MAX_SEEK
    && file[start..start + |Laid(pieces)|] == Laid(pieces)
    && FromLe(table[8..16]) == base <= start
    && forall i :: 0 <= i < |pieces| ==>
         start + Place(pieces, i) - base < 0x8000_0000 && FromLe(table[24 + 4 * i..28 + 4 * i]) == EntryOf(pieces, start, base, i)
  }

  /** The table leads to exactly the bytes of each chunk, whatever base it has. */
  lemma ChunkFound(info: TableInfo, table: seq<byte>, file: seq<byte>, base: nat, pieces: seq<Piece>, i: nat)
    requires Holds(info, table, file, base, pieces) && i < |pieces|
    ensures var st := StoredChunk(info, table, i);
      && st == Stored(pieces[i].compressed, info.sectorsPos + 76 + Place(pieces, i), |pieces[i].raw|)
      && st.pos + st.len <= |file| && file[st.pos..st.pos + st.len] == pieces[i].raw && st.pos < MAX_SEEK
  {
    hide FromLe, Laid, EntryOf, StoredChunk;
    var start := info.sectorsPos + 76;
    PieceHere(pieces, i);
    SubSlice(file, start, start + |Laid(pieces)|, Place(pieces, i), Place(pieces, i + 1));
    EntryParts(pieces, start, base, i);
    if i < |pieces| - 1 {
      EntryParts(pieces, start, base, i + 1);
      PieceHere(pieces, i + 1);
    }
    ChunkComputed(info, table, base, i, Place(pieces, i), |pieces[i].raw|, pieces[i].compressed);
  }

  lemma ChunkComputed(info: TableInfo, table: seq<byte>, base: nat, i: nat, place: nat, len: nat, compressed: bool)
    requires i < info.chunkCount && TABLE_HEADER + 4 * info.chunkCount <= |table| && Word64(table, 8) == base
    requires info.sectorsPos + 76 + place < MAX_SEEK && len < U32 && base <= info.sectorsPos + 76
    requires OffsetEntry(table, i) % COMPRESSED == info.sectorsPos + 76 + place - base && (OffsetEntry(table, i) >= COMPRESSED <==> compressed)
    requires i < info.chunkCount - 1 ==> OffsetEntry(table, i + 1) % COMPRESSED == info.sectorsPos + 76 + place + len - base
    requires i == info.chunkCount - 1 ==> info.sectorsSize == 76 + place + len
    ensures StoredChunk(info, table, i) == Stored(compressed, info.sectorsPos + 76 + place, len)
  {
    hide OffsetEntry, Word64;
    DivMod(info.sectorsPos + 76 + place, U64, 0);
    DivMod(len, U32, 0);
  }

  lemma EntryParts(pieces: seq<Piece>, start: nat, base: nat, i: nat)
    requires i < |pieces| && base <= start && start + Place(pieces, i) - base < 0x8000_0000
    ensures var entry := EntryOf(pieces, start, base, i);
      entry % COMPRESSED == start + Place(pieces, i) - base && (entry >= COMPRESSED <==> pieces[i].compressed)
  {
    hide Laid;
  }

  /** What a chunk holds is up to its own bytes: it is the same as if they were all of the file. */
  lemma ChunkHeld(info: TableInfo, table: seq<byte>, file: seq<byte>, base: nat, pieces: seq<Piece>, i: nat, codec: Codec, len: nat, bufferSize: nat)
    requires Holds(info, table, file, base, pieces) && i < |pieces|
    ensures |table| >= TABLE_HEADER + 4 * info.chunkCount
    ensures Interpret(codec, file, StoredChunk(info, table, i), len, bufferSize) == Meaning(codec, pieces[i], len, bufferSize)
  {
    hide FromLe, Laid, StoredChunk;
    ChunkFound(info, table, file, base, pieces, i);
    assert pieces[i].raw[0..|pieces[i].raw|] == pieces[i].raw;
  }

  function Meaning(codec: Codec, piece: Piece, len: nat, bufferSize: nat): ChunkData {
    Interpret(codec, piece.raw, Stored(piece.compressed, 0, |piece.raw|), len, bufferSize)
  }

  /** The bytes of a chunk with this data: they inflate to it, or they are the data, its checksum, and perhaps more. */
  ghost predicate Stores(codec: Codec, piece: Piece, data: seq<byte>) {
    if piece.compressed then codec.uncompress(piece.raw) == Some(data)
    else |piece.raw| >= |data| + 4 && piece.raw[..|data|] == data && FromLe(piece.raw[|data|..|data| + 4]) == codec.adler32(data)
  }

  /** A chunk can be read, and has this data, if and only if its bytes store it and fit the buffer. */
  lemma MeaningIsData(codec: Codec, piece: Piece, data: seq<byte>, len: nat, bufferSize: nat)
    requires len < bufferSize
    ensures Meaning(codec, piece, len, bufferSize) == Good(data) <==> |data| == len && |piece.raw| <= bufferSize && Stores(codec, piece, data)
  {
    hide FromLe;
    var raw := piece.raw;
    assert Got(raw, 0, |raw|) == raw;
  }

  /** The usual way to store data without compressing it. */
  lemma WithChecksum(codec: Codec, data: seq<byte>)
    requires codec.adler32(data) < U32
    ensures Stores(codec, Piece(false, data + Le(codec.adler32(data), 4)), data)
  {
    Le4(codec.adler32(data));
    hide Le, FromLe;
    var raw := data + Le(codec.adler32(data), 4);
    assert raw[..|data|] == data && raw[|data|..|data| + 4] == Le(codec.adler32(data), 4);
  }

  // ----- images -----

  /** Every table of the opened image finds chunks that store those of `data`. */
  ghost predicate WrittenAs(h: Aewf.Handle, data: seq<byte>)
    requires h.Opened()
  {
    forall t :: 0 <= t < |h.infos| ==> TableWritten(h, t, data)
  }

  ghost predicate TableWritten(h: Aewf.Handle, t: nat, data: seq<byte>)
    requires h.Opened() && t < |h.infos|
  {
    exists base: nat, pieces: seq<Piece> :: HoldsData(h, t, data, base, pieces)
  }

  ghost predicate HoldsData(h: Aewf.Handle, t: nat, data: seq<byte>, base: nat, pieces: seq<Piece>)
    requires h.Opened() && t < |h.infos|
  {
    var info := h.infos[t];
    && Holds(info, h.TableBytes(t), h.files[info.segment], base, pieces)
    && forall i :: 0 <= i < |pieces| ==>
         |pieces[i].raw| <= h.chunkSize + 4096 && Stores(h.codec, pieces[i], T.Chunk(data, h.chunkSize, info.chunkFrom + i))
  }

  /** Whatever was stored in the chunks of a table is what the image has there. */
  lemma WrittenContent(h: Aewf.Handle, t: nat, c: nat, base: nat, pieces: seq<Piece>)
    requires h.Opened() && t < |h.infos| && c < h.chunks && Covers(h.infos[t], c)
    requires Holds(h.infos[t], h.TableBytes(t), h.files[h.infos[t].segment], base, pieces)
    ensures h.Content(c) == Meaning(h.codec, pieces[c - h.infos[t].chunkFrom], ChunkLen(h.imageSize, h.chunkSize, h.chunks, c), h.chunkSize + 4096)
  {
    hide Holds, Aewf.Handle.Content, StoredChunk, ChunkLen, Interpret, Meaning;
    h.ContentAt(t, c);
    SameCount(h, t, base, pieces);
    ChunkHeld(h.infos[t], h.TableBytes(t), h.files[h.infos[t].segment], base, pieces, c - h.infos[t].chunkFrom,
              h.codec, ChunkLen(h.imageSize, h.chunkSize, h.chunks, c), h.chunkSize + EXTRA);
  }

  lemma SameCount(h: Aewf.Handle, t: nat, base: nat, pieces: seq<Piece>)
    requires h.Opened() && t < |h.infos|
    requires Holds(h.infos[t], h.TableBytes(t), h.files[h.infos[t].segment], base, pieces)
    ensures h.infos[t].chunkCount == |pieces| && h.infos[t].chunkTo == h.infos[t].chunkFrom + |pieces| - 1
  {
    hide Laid;
  }

  lemma WrittenChunk(h: Aewf.Handle, data: seq<byte>, c: nat)
    requires h.Opened() && WrittenAs(h, data) && |data| == h.imageSize && c < h.chunks
    ensures h.Content(c) == Good(T.Chunk(data, h.chunkSize, c))
  {
    hide Holds, Aewf.Handle.Content, Meaning, ChunkLen, Stores, T.Chunk;
    TableUnique(h.infos, h.chunks, c);
    var t: nat :| t < |h.infos| && Covers(h.infos[t], c);
    assert TableWritten(h, t, data);
    var base: nat, pieces: seq<Piece> :| HoldsData(h, t, data, base, pieces);
    SameCount(h, t, base, pieces);
    WrittenContent(h, t, c, base, pieces);
    h.ChunkSizes(c);
    ChunkLength(h, data, c);
    var i := c - h.infos[t].chunkFrom;
    assert 0 <= i < |pieces| && h.infos[t].chunkFrom + i == c;
    MeaningIsData(h.codec, pieces[i], T.Chunk(data, h.chunkSize, c), ChunkLen(h.imageSize, h.chunkSize, h.chunks, c), h.chunkSize + EXTRA);
  }

  lemma ChunkLength(h: Aewf.Handle, data: seq<byte>, c: nat)
    requires h.Opened() && |data| == h.imageSize && c < h.chunks
    ensures |T.Chunk(data, h.chunkSize, c)| == ChunkLen(h.imageSize, h.chunkSize, h.chunks, c) <= h.chunkSize
  {
    hide ChunkLen;
    h.ChunkSizes(c);
  }

  /** The image is the data, and all of it can be read. */
  lemma WrittenImage(h: Aewf.Handle, data: seq<byte>)
    requires h.Opened() && WrittenAs(h, data) && |data| == h.imageSize
    ensures h.WellFormed() && h.Image() == data
  {
    hide Aewf.Handle.Content, WrittenAs, Aewf.Handle.Cells, T.Chunk, ChunkLen, Aewf.Handle.Opened;
    forall c: nat | c < h.chunks
      ensures h.Content(c).Good?
    {
      WrittenChunk(h, data, c);
    }
    forall p: nat | p < |data|
      ensures h.Image()[p] == data[p]
    {
      WrittenByte(h, data, p);
      ByteOfImage(h, p, data[p]);
    }
  }

  lemma ByteOfImage(h: Aewf.Handle, p: nat, b: byte)
    requires h.Opened() && p < h.imageSize && h.Cells()(p) == Lookup.Byte(b)
    ensures h.Image()[p] == b
  {
  }

  lemma WrittenByte(h: Aewf.Handle, data: seq<byte>, p: nat)
    requires h.Opened() && WrittenAs(h, data) && |data| == h.imageSize && p < |data|
    ensures h.Cells()(p) == Lookup.Byte(data[p])
  {
    hide Aewf.Handle.Content, WrittenAs, Aewf.Handle.Cells, ChunkLen;
    var c: nat := Quotient(p, h.chunkSize);
    DivMod(p, h.chunkSize, c);
    h.CellIn(c, p - c * h.chunkSize, p);
    WrittenChunk(h, data, c);
    h.ChunkSizes(c);
  }

  // ----- segment files of three sections -----

  /** "EVF", five more bytes, a byte that is not used, the segment number, and two zeros. */
  function HeaderOf(number: nat): (s: seq<byte>)
    ensures |s| == FILE_HEADER
  {
    [0x45, 0x56, 0x46, 0x09, 0x0D, 0x0A, 0xFF, 0x00] + [1] + Le(number, 2) + [0, 0]
  }

  lemma HeaderRead(number: nat, file: seq<byte>)
    requires number < 65536 && |file| >= FILE_HEADER && file[..FILE_HEADER] == HeaderOf(number)
    ensures HeaderError(file) == OK && Number(file) == number
  {
    hide Le, FromLe;
    LeRoundTrip(number, 2);
    assert Pow256(2) == 65536 by { assert Pow256(1) == 256; }
    var h := HeaderOf(number);
    assert h[..8] == AEWF_SIGNATURE && h[9..11] == Le(number, 2);
    SubSlice(file, 0, FILE_HEADER, 0, 8);
    SubSlice(file, 0, FILE_HEADER, 9, 11);
  }
  const SECTORS_TYPE: seq<byte> := [115, 101, 99, 116, 111, 114, 115] + Zeros(9)
  const TABLE_TYPE: seq<byte> := [116, 97, 98, 108, 101] + Zeros(11)

  const VOLUME_AT := 13
  const SECTORS_AT := 1141
  const CHUNKS_AT := 1217

  /**
   * What such a file is made of: type and fields of its volume section, the stored chunks, base offset and entries of its
   * table, and the size the table section claims to have.
   */
  datatype Sample = Sample(kind: seq<byte>, v: O.VolumeInfo, stored: seq<byte>, base: nat, entries: seq<byte>, tableSize: nat)

  /** The volume section may go by three names, in any case. */
  predicate IsVolume(kind: seq<byte>) {
    |kind| == 16 && (O.Spells(kind, "volume") || O.Spells(kind, "disk") || O.Spells(kind, "data"))
  }

  function SectionHeader(kind: seq<byte>, next: nat, size: nat): (s: seq<byte>)
    requires |kind| == 16
    ensures |s| == O.SECTION
  {
    kind + Le(next, 8) + Le(size, 8) + Zeros(44)
  }

  function TableAt(s: Sample): nat {
    CHUNKS_AT + |s.stored|
  }

  function VolumeData(v: O.VolumeInfo): (data: seq<byte>)
    ensures |data| == O.VOLUME_LEN
  {
    [1, 0, 0, 0] + Le(v.chunkCount, 4) + Le(v.sectorsPerChunk, 4) + Le(v.bytesPerSector, 4) + Le(v.sectorCount, 8) + Zeros(1028)
  }

  function TableData(s: Sample): seq<byte> {
    Le(s.v.chunkCount, 4) + Zeros(4) + Le(s.base, 8) + Zeros(8) + s.entries
  }

  function VolumeSection(s: Sample): seq<byte>
    requires |s.kind| == 16
  {
    SectionHeader(s.kind, SECTORS_AT, 1128) + VolumeData(s.v)
  }

  function SectorsSection(s: Sample): seq<byte> {
    SectionHeader(SECTORS_TYPE, TableAt(s), O.SECTION + |s.stored|) + s.stored
  }

  function TableSection(s: Sample): seq<byte> {
    SectionHeader(TABLE_TYPE, TableAt(s), s.tableSize) + TableData(s)
  }

  /** The table is the last section and describes all chunks of the volume. */
  function File(s: Sample): seq<byte>
    requires |s.kind| == 16
  {
    HeaderOf(1) + VolumeSection(s) + SectorsSection(s) + TableSection(s)
  }

  predicate FieldsFit(s: Sample) {
    && s.v.chunkCount < U32 && s.v.sectorsPerChunk < U32 && s.v.bytesPerSector < U32 && s.v.sectorCount < U64
    && O.SECTION + |s.stored| < U32 && |s.entries| == 4 * s.v.chunkCount
    && s.base < U64 && s.tableSize < U64
    && IsVolume(s.kind)
  }

  function Sections(s: Sample): seq<O.Section> {
    [O.Section(0, VOLUME_AT, O.Volume, SECTORS_AT, 1128),
     O.Section(0, SECTORS_AT, O.Sectors, TableAt(s), O.SECTION + |s.stored|),
     O.Section(0, TableAt(s), O.Table, TableAt(s), s.tableSize)]
  }

  function Info(s: Sample): TableInfo
    requires s.v.chunkCount > 0 && s.tableSize >= O.SECTION
  {
    TableInfo(0, s.v.chunkCount - 1, 0, TableAt(s) + O.SECTION, s.tableSize - O.SECTION, s.v.chunkCount, SECTORS_AT, O.SECTION + |s.stored|)
  }

  lemma Kinds()
    ensures |SECTORS_TYPE| == |TABLE_TYPE| == 16
    ensures O.KindOf(SECTORS_TYPE) == O.Sectors && O.KindOf(TABLE_TYPE) == O.Table
  {
    O.NamesOfKinds(SECTORS_TYPE);
    O.NamesOfKinds(TABLE_TYPE);
    KindNames();
    hide O.KindOf, O.Spells;
  }

  lemma KindNames()
    ensures |SECTORS_TYPE| == |TABLE_TYPE| == 16 && O.Spells(SECTORS_TYPE, "sectors") && O.Spells(TABLE_TYPE, "table")
  {
  }

  lemma FourParts(a: seq<byte>, b: seq<byte>, c: seq<byte>, d: seq<byte>)
    ensures var f := a + b + c + d;
      && |f| == |a| + |b| + |c| + |d|
      && f[..|a|] == a && f[|a|..|a| + |b|] == b
      && f[|a| + |b|..|a| + |b| + |c|] == c && f[|a| + |b| + |c|..|f|] == d
  {
  }

  lemma Parts(s: Sample)
    requires |s.kind| == 16
    ensures |VolumeSection(s)| == 1128 && |SectorsSection(s)| == O.SECTION + |s.stored|
    ensures |TableSection(s)| == 100 + |s.entries| && |File(s)| == TableAt(s) + 100 + |s.entries|
    ensures var f := File(s);
      && f[..VOLUME_AT] == HeaderOf(1) && f[VOLUME_AT..SECTORS_AT] == VolumeSection(s)
      && f[SECTORS_AT..TableAt(s)] == SectorsSection(s) && f[TableAt(s)..|f|] == TableSection(s)
  {
    hide SectionHeader, Le, Zeros, SECTORS_TYPE, TABLE_TYPE, VolumeData;
    FourParts(HeaderOf(1), VolumeSection(s), SectorsSection(s), TableSection(s));
  }

  /** A section whose header and data are at this place of the file. */
  lemma SectionHere(file: seq<byte>, pos: nat, kind: seq<byte>, next: nat, size: nat, data: seq<byte>)
    requires |kind| == 16 && next < U64 && size < U64
    requires pos + O.SECTION + |data| <= |file| && file[pos..pos + O.SECTION + |data|] == SectionHeader(kind, next, size) + data
    ensures O.SectionAt([file], 0, pos) == O.Section(0, pos, O.KindOf(kind), next, size)
    ensures file[pos + O.SECTION..pos + O.SECTION + |data|] == data
  {
    hide Le, FromLe, O.KindOf, SectionHeader;
    var h, end := SectionHeader(kind, next, size), pos + O.SECTION + |data|;
    HeaderFields(kind, next, size);
    SubSlice(file, pos, end, 0, 16);
    SubSlice(file, pos, end, 16, 24);
    SubSlice(file, pos, end, 24, 32);
    SubSlice(file, pos, end, O.SECTION, O.SECTION + |data|);
    SliceLeft(h, data, 0, 16);
    SliceLeft(h, data, 16, 24);
    SliceLeft(h, data, 24, 32);
    SliceRight(h, data, 0, |data|);
    Le8(next);
    Le8(size);
  }

  lemma HeaderFields(kind: seq<byte>, next: nat, size: nat)
    requires |kind| == 16
    ensures var h := SectionHeader(kind, next, size); h[0..16] == kind && h[16..24] == Le(next, 8) && h[24..32] == Le(size, 8)
  {
    hide Le, Zeros;
  }

  lemma VolumeFields(file: seq<byte>, at: nat, v: O.VolumeInfo)
    requires v.chunkCount < U32 && v.sectorsPerChunk < U32 && v.bytesPerSector < U32 && v.sectorCount < U64
    requires at + O.VOLUME_LEN <= |file| && file[at..at + O.VOLUME_LEN] == VolumeData(v)
    ensures Word32(file, at + 4) == v.chunkCount && Word32(file, at + 8) == v.sectorsPerChunk
    ensures Word32(file, at + 12) == v.bytesPerSector && Word64(file, at + 16) == v.sectorCount
  {
    hide Le, FromLe, Zeros;
    var d, end := VolumeData(v), at + O.VOLUME_LEN;
    assert d[4..8] == Le(v.chunkCount, 4) && d[8..12] == Le(v.sectorsPerChunk, 4);
    assert d[12..16] == Le(v.bytesPerSector, 4) && d[16..24] == Le(v.sectorCount, 8);
    SubSlice(file, at, end, 4, 8);
    SubSlice(file, at, end, 8, 12);
    SubSlice(file, at, end, 12, 16);
    SubSlice(file, at, end, 16, 24);
    Le4(v.chunkCount);
    Le4(v.sectorsPerChunk);
    Le4(v.bytesPerSector);
    Le8(v.sectorCount);
  }

  /** The three sections are in the file, with their data. */
  lemma SectionsRead(s: Sample)
    requires FieldsFit(s)
    ensures |File(s)| == TableAt(s) + 100 + |s.entries|
    ensures forall i :: 0 <= i < 3 ==> O.Readable([File(s)], Sections(s)[i])
    ensures O.VolumeAt([File(s)], Sections(s)[0]) == s.v && O.TableChunks([File(s)], Sections(s)[2]) == s.v.chunkCount
    ensures File(s)[CHUNKS_AT..TableAt(s)] == s.stored
    ensures File(s)[TableAt(s) + O.SECTION..|File(s)|] == TableData(s)
  {
    hide SectionHeader, File, O.KindOf, FromLe, Le, VolumeData, SECTORS_TYPE, TABLE_TYPE, Zeros, O.Spells;
    Parts(s);
    Kinds();
    O.NamesOfKinds(s.kind);
    SectionHere(File(s), VOLUME_AT, s.kind, SECTORS_AT, 1128, VolumeData(s.v));
    SectionHere(File(s), SECTORS_AT, SECTORS_TYPE, TableAt(s), O.SECTION + |s.stored|, s.stored);
    SectionHere(File(s), TableAt(s), TABLE_TYPE, TableAt(s), s.tableSize, TableData(s));
    VolumeFields(File(s), VOLUME_AT + O.SECTION, s.v);
    SubSlice(File(s), TableAt(s) + O.SECTION, |File(s)|, 0, 4);
    TableStart(s);
    Le4(s.v.chunkCount);
  }

  lemma TableStart(s: Sample)
    ensures TableData(s)[0..4] == Le(s.v.chunkCount, 4) && TableData(s)[8..16] == Le(s.base, 8)
    ensures TableData(s)[24..] == s.entries
  {
    hide Le;
  }

  lemma Collected(files: seq<seq<byte>>, secs: seq<O.Section>)
    requires |secs| == 3
    ensures O.Collect(files, secs[..0]) == O.NOTHING
    ensures O.Collect(files, secs[..1]) == O.Add(files, O.NOTHING, secs[0])
    ensures O.Collect(files, secs[..2]) == O.Add(files, O.Collect(files, secs[..1]), secs[1])
    ensures O.Collect(files, secs) == O.Add(files, O.Collect(files, secs[..2]), secs[2])
  {
    hide O.Add;
    assert secs[..3] == secs;
    assert secs[..1][..0] == secs[..0] && secs[..2][..1] == secs[..1] && secs[..3][..2] == secs[..2];
  }

  /** The size that the table section claims is enough for its entries, and its end, in 64 bits, is in the file. */
  predicate TableOk(s: Sample) {
    s.v.chunkCount > 0 && s.tableSize >= O.SECTION + TABLE_HEADER + 4 * s.v.chunkCount
    && |s.kind| == 16 && (TableAt(s) + s.tableSize) % U64 <= |File(s)|
  }

  /** What the walk finds in such a file. */
  lemma Walked(s: Sample)
    requires FieldsFit(s) && TableOk(s)
    ensures O.WholeChain([File(s)], 0, Sections(s)) && O.AllChecked([File(s)], Sections(s))
    ensures O.Collect([File(s)], Sections(s)) == O.Found([Info(s)], s.v.chunkCount, 0, 0, Some(s.v), false, false)
  {
    SectionsRead(s);
    WalkedChain(s);
    WalkedChecks(s);
  }

  lemma WalkedChain(s: Sample)
    requires |s.kind| == 16 && forall i :: 0 <= i < 3 ==> O.Readable([File(s)], Sections(s)[i])
    requires |s.stored| < U32
    ensures O.WholeChain([File(s)], 0, Sections(s))
  {
    hide File, O.Readable;
  }

  lemma WalkedChecks(s: Sample)
    requires |s.kind| == 16 && FieldsFit(s) && TableOk(s) && |File(s)| == TableAt(s) + 100 + |s.entries|
    requires forall i :: 0 <= i < 3 ==> O.Readable([File(s)], Sections(s)[i])
    requires O.VolumeAt([File(s)], Sections(s)[0]) == s.v && O.TableChunks([File(s)], Sections(s)[2]) == s.v.chunkCount
    ensures O.AllChecked([File(s)], Sections(s))
    ensures O.Collect([File(s)], Sections(s)) == O.Found([Info(s)], s.v.chunkCount, 0, 0, Some(s.v), false, false)
  {
    hide File, O.Readable, O.Collect, O.TableChunks, O.VolumeAt, O.AllChecked, O.Check, FieldsFit, TableOk, Info;
    FoundSoFar(s);
    VolumeChecked(s);
    SectorsChecked(s);
    TableChecked(s, O.Collect([File(s)], Sections(s)[..2]));
    ThreeChecked([File(s)], Sections(s));
  }

  lemma ThreeChecked(files: seq<seq<byte>>, secs: seq<O.Section>)
    requires |secs| == 3 && forall i :: 0 <= i < 3 ==> O.Readable(files, secs[i])
    requires O.Check(files, O.Collect(files, secs[..0]), secs[0]) == OK
    requires O.Check(files, O.Collect(files, secs[..1]), secs[1]) == OK
    requires O.Check(files, O.Collect(files, secs[..2]), secs[2]) == OK
    ensures O.AllChecked(files, secs)
  {
    hide O.Collect, O.Check, O.Readable;
  }

  lemma VolumeChecked(s: Sample)
    requires FieldsFit(s) && |File(s)| == TableAt(s) + 100 + |s.entries| && O.Readable([File(s)], Sections(s)[0])
    ensures O.Check([File(s)], O.NOTHING, Sections(s)[0]) == OK
  {
    hide File, O.Readable;
  }

  lemma SectorsChecked(s: Sample)
    requires FieldsFit(s) && |File(s)| == TableAt(s) + 100 + |s.entries| && O.Readable([File(s)], Sections(s)[1])
    ensures O.Check([File(s)], O.NOTHING.(volume := Some(s.v)), Sections(s)[1]) == OK
  {
    hide File, O.Readable;
  }

  lemma TableChecked(s: Sample, f: O.Found)
    requires FieldsFit(s) && TableOk(s) && |File(s)| == TableAt(s) + 100 + |s.entries|
    requires O.Readable([File(s)], Sections(s)[2]) && O.TableChunks([File(s)], Sections(s)[2]) == s.v.chunkCount
    requires f.volume.Some? && f.sectorsSize > 0
    ensures O.Check([File(s)], f, Sections(s)[2]) == OK
  {
    hide File, O.Readable, O.TableChunks;
  }

  lemma FoundSoFar(s: Sample)
    requires FieldsFit(s) && TableOk(s) && |File(s)| == TableAt(s) + 100 + |s.entries|
    requires forall i :: 0 <= i < 3 ==> O.Readable([File(s)], Sections(s)[i])
    requires O.VolumeAt([File(s)], Sections(s)[0]) == s.v && O.TableChunks([File(s)], Sections(s)[2]) == s.v.chunkCount
    ensures O.Collect([File(s)], Sections(s)[..0]) == O.NOTHING
    ensures O.Collect([File(s)], Sections(s)[..1]) == O.NOTHING.(volume := Some(s.v))
    ensures O.Collect([File(s)], Sections(s)[..2]) == O.Found([], 0, SECTORS_AT, O.SECTION + |s.stored|, Some(s.v), false, false)
    ensures O.Collect([File(s)], Sections(s)) == O.Found([Info(s)], s.v.chunkCount, 0, 0, Some(s.v), false, false)
  {
    hide File, O.Readable, O.Collect, O.TableChunks, O.VolumeAt;
    Collected([File(s)], Sections(s));
  }

  /** The header is right. */
  lemma Ordered(s: Sample)
    requires |s.kind| == 16
    ensures InSequence([File(s)])
    ensures forall ordered :: IsOrdering([File(s)], ordered) ==> ordered == [File(s)]
  {
    hide VolumeSection, SectorsSection, TableSection, File;
    Parts(s);
    var f := File(s);
    HeaderRead(1, f);
    var order := [Segment(1, f)];
    assert SegmentsOf([f]) == order;
    assert multiset(order) == multiset(SegmentsOf([f])) && Numbered(order);
    assert forall ordered :: IsOrdering([f], ordered) ==> ordered[0] in [f];
  }

  /** Nothing is wrong with the volume either. */
  predicate VolumeOk(v: O.VolumeInfo) {
    && v.sectorCount > 0 && 0 < v.bytesPerSector <= 10485760
    && 0 < O.ChunkSize(v) <= 104857600 && O.ImageSize(v) > 0
  }

  lemma IsAccepted(s: Sample)
    requires FieldsFit(s) && TableOk(s) && VolumeOk(s.v)
    ensures O.Accepted([File(s)], [Sections(s)])
  {
    hide File, O.WholeChain, O.AllChecked, O.Collect, O.ImageSize, O.ChunkSize;
    Walked(s);
    assert Concat([Sections(s)]) == Sections(s);
  }

  /** AewfOpen opens such a file. */
  method OpenSample(s: Sample, codec: Codec, threadCount: nat) returns (h: Aewf.Handle)
    requires FieldsFit(s) && TableOk(s) && VolumeOk(s.v)
    ensures fresh(h) && h.files == [File(s)] && h.infos == [Info(s)] && h.codec == codec && h.threadCount == threadCount
    ensures h.chunks == s.v.chunkCount && h.chunkSize == O.ChunkSize(s.v) && h.imageSize == O.ImageSize(s.v)
    ensures h.Valid() <==> O.TablesFit(h.infos)
    ensures h.Opened() <==> O.TablesFit(h.infos) && O.SizeFits(h.chunks, h.chunkSize, h.imageSize)
  {
    hide File, O.ImageSize, O.ChunkSize, O.Accepted, O.WholeChain, O.OpenChain, O.Collect, O.FinalCheck, O.TablesFit, O.SizeFits, TableOk, VolumeOk, Sections, O.Obstacle;
    FileSize(s);
    Ordered(s);
    IsAccepted(s);
    Walked(s);
    var rc, found;
    ghost var ordered, chains, rest;
    rc, found, ordered, chains, rest := O.Open([File(s)], codec, 1, 1, threadCount);
    assert O.Accepted(ordered, [Sections(s)]);
    OneChain(ordered, chains, Sections(s));
    h := found.value;
  }

  lemma FileSize(s: Sample)
    requires FieldsFit(s)
    ensures O.SizesFit([File(s)])
  {
    hide File;
    Parts(s);
  }

  lemma OneChain(files: seq<seq<byte>>, chains: seq<seq<O.Section>>, secs: seq<O.Section>)
    requires |files| == 1 && O.Accepted(files, chains) && O.Accepted(files, [secs])
    ensures Concat(chains) == secs
  {
    hide O.WholeChain, O.AllChecked, O.Collect, O.FinalCheck;
    O.WholeUnique(files, 0, chains[0], secs);
    assert chains == [secs];
    assert Concat([secs]) == secs;
  }

  // ----- writing, opening, reading -----

  /** The first n entries of the table. */
  function EntriesTo(pieces: seq<Piece>, base: nat, n: nat): (s: seq<byte>)
    requires n <= |pieces| && base <= CHUNKS_AT
    ensures |s| == 4 * n
  {
    if n == 0 then [] else EntriesTo(pieces, base, n - 1) + Le(EntryOf(pieces, CHUNKS_AT, base, n - 1), 4)
  }

  lemma {:induction false} EntryHere(pieces: seq<Piece>, base: nat, n: nat, i: nat)
    requires i < n <= |pieces| && base <= CHUNKS_AT && CHUNKS_AT + Place(pieces, i) - base < 0x8000_0000
    ensures FromLe(EntriesTo(pieces, base, n)[4 * i..4 * i + 4]) == EntryOf(pieces, CHUNKS_AT, base, i)
  {
    var most, last := EntriesTo(pieces, base, n - 1), Le(EntryOf(pieces, CHUNKS_AT, base, n - 1), 4);
    if i < n - 1 {
      EntryHere(pieces, base, n - 1, i);
      SliceLeft(most, last, 4 * i, 4 * i + 4);
    } else {
      Le4(EntryOf(pieces, CHUNKS_AT, base, i));
      SliceRight(most, last, 0, 4);
      assert last[0..4] == last;
    }
  }

  /** The file for a volume and its stored chunks, with any base for its table. */
  function Written(kind: seq<byte>, v: O.VolumeInfo, base: nat, pieces: seq<Piece>): Sample
    requires base <= CHUNKS_AT
  {
    Sample(kind, v, Laid(pieces), base, EntriesTo(pieces, base, |pieces|), O.SECTION + TABLE_HEADER + 4 * |pieces|)
  }

  /** The fields fit, the volume is right, and its chunks are as many as its size needs. */
  predicate Writable(kind: seq<byte>, v: O.VolumeInfo, base: nat, pieces: seq<Piece>) {
    && IsVolume(kind) && VolumeOk(v) && v.sectorsPerChunk < U32 && v.sectorCount < U64
    && v.chunkCount == |pieces| < U32 && O.SizeFits(v.chunkCount, O.ChunkSize(v), O.ImageSize(v))
    && O.SECTION + |Laid(pieces)| < U32 && base <= CHUNKS_AT
    && forall i :: 0 <= i < |pieces| ==> CHUNKS_AT + Place(pieces, i) - base < 0x8000_0000
  }

  lemma WrittenOk(kind: seq<byte>, v: O.VolumeInfo, base: nat, pieces: seq<Piece>)
    requires Writable(kind, v, base, pieces)
    ensures var s := Written(kind, v, base, pieces); FieldsFit(s) && TableOk(s) && VolumeOk(s.v) && O.TablesFit([Info(s)])
  {
    HasChunks(kind, v, base, pieces);
    VolumeFits(v);
    hide File, Laid, IsVolume, VolumeOk, O.SizeFits, O.ChunkSize, O.ImageSize;
    var s := Written(kind, v, base, pieces);
    KindLength(kind);
    Parts(s);
    DivMod(TableAt(s) + s.tableSize, U64, 0);
  }

  lemma KindLength(kind: seq<byte>)
    requires IsVolume(kind)
    ensures |kind| == 16
  {
  }

  lemma VolumeFits(v: O.VolumeInfo)
    requires VolumeOk(v)
    ensures v.bytesPerSector < U32
  {
  }

  lemma WrittenHolds(kind: seq<byte>, v: O.VolumeInfo, base: nat, pieces: seq<Piece>, table: seq<byte>)
    requires Writable(kind, v, base, pieces) && |pieces| > 0
    requires var s := Written(kind, v, base, pieces); table == TableData(s)
    ensures var s := Written(kind, v, base, pieces); Holds(Info(s), table, File(s), base, pieces)
  {
    hide File, IsVolume, Laid, FromLe, Le, TableData, TableOk, VolumeOk;
    var s := Written(kind, v, base, pieces);
    WrittenOk(kind, v, base, pieces);
    SectionsRead(s);
    TableStart(s);
    Le8(base);
    forall i | 0 <= i < |pieces|
      ensures FromLe(table[24 + 4 * i..28 + 4 * i]) == EntryOf(pieces, CHUNKS_AT, base, i)
    {
      EntryHere(pieces, base, |pieces|, i);
      SubSlice(table, 24, |table|, 4 * i, 4 * i + 4);
      assert table[24..|table|] == table[24..];
    }
  }

  /** The chunks store the data of the image, each in its own way. */
  ghost predicate StoreImage(codec: Codec, pieces: seq<Piece>, chunkSize: nat, data: seq<byte>)
    requires chunkSize > 0
  {
    forall i :: 0 <= i < |pieces| ==> |pieces[i].raw| <= chunkSize + 4096 && Stores(codec, pieces[i], T.Chunk(data, chunkSize, i))
  }

  lemma OpenedImage(h: Aewf.Handle, kind: seq<byte>, v: O.VolumeInfo, base: nat, pieces: seq<Piece>, data: seq<byte>)
    requires Writable(kind, v, base, pieces) && v.chunkCount > 0
    requires var s := Written(kind, v, base, pieces); h.files == [File(s)] && h.infos == [Info(s)]
    requires h.Opened() && h.chunkSize == O.ChunkSize(v) && h.imageSize == O.ImageSize(v) == |data|
    requires StoreImage(h.codec, pieces, h.chunkSize, data)
    ensures h.WellFormed() && h.Image() == data
  {
    hide File, StoreImage, T.Chunk, Holds, TableData, IsVolume, Laid, Writable, Aewf.Handle.WellFormed, WrittenAs, O.ImageSize, O.ChunkSize;
    HasChunks(kind, v, base, pieces);
    var s := Written(kind, v, base, pieces);
    TableHere(h, s, kind, v, base, pieces);
    WrittenHolds(kind, v, base, pieces, h.TableBytes(0));
    OneTable(h, data, base, pieces);
    WrittenImage(h, data);
  }

  lemma OneTable(h: Aewf.Handle, data: seq<byte>, base: nat, pieces: seq<Piece>)
    requires h.Opened() && |h.infos| == 1 && h.infos[0].chunkFrom == 0
    requires Holds(h.infos[0], h.TableBytes(0), h.files[h.infos[0].segment], base, pieces) && StoreImage(h.codec, pieces, h.chunkSize, data)
    ensures WrittenAs(h, data)
  {
    hide Stores, T.Chunk, Holds;
    assert HoldsData(h, 0, data, base, pieces);
  }

  lemma TableHere(h: Aewf.Handle, s: Sample, kind: seq<byte>, v: O.VolumeInfo, base: nat, pieces: seq<Piece>)
    requires Writable(kind, v, base, pieces) && s == Written(kind, v, base, pieces) && v.chunkCount > 0
    requires h.files == [File(s)] && h.infos == [Info(s)] && h.Opened()
    ensures h.TableBytes(0) == TableData(s)
  {
    hide File, TableData, IsVolume, Laid;
    WrittenOk(kind, v, base, pieces);
    SectionsRead(s);
  }

  /**
   * For every image, every way to store its chunks, every base of the table and every name of the volume section: the file
   * is opened, and a read, by either reader, gets the bytes of the image.
   */
  method WriteOpenRead(kind: seq<byte>, v: O.VolumeInfo, base: nat, pieces: seq<Piece>, ghost data: seq<byte>, codec: Codec, threadCount: nat,
                       p_buf: array<byte>, seek: nat, count: nat) returns (rc: ErrorCode, read: nat)
    requires Writable(kind, v, base, pieces) && |data| == O.ImageSize(v) && StoreImage(codec, pieces, O.ChunkSize(v), data)
    requires threadCount > 0 && count <= p_buf.Length
    modifies p_buf
    ensures rc == AEWF_OK && read == if seek < |data| then Min(count, |data| - seek) else 0
    ensures p_buf[read..] == old(p_buf[read..]) && (read > 0 ==> p_buf[..read] == data[seek..seek + read])
  {
    hide File, Laid, Writable, StoreImage, TableOk, FieldsFit, IsVolume, Aewf.Handle.WellFormed, Aewf.Handle.ReadResult, Aewf.Handle.NoShort, Aewf.Handle.Valid, Aewf.Handle.Opened;
    WrittenOk(kind, v, base, pieces);
    HasChunks(kind, v, base, pieces);
    var h := OpenSample(Written(kind, v, base, pieces), codec, threadCount);
    OpenedImage(h, kind, v, base, pieces, data);
    h.WellFormedImage();
    rc, read := h.Read(p_buf, seek, count);
    if seek < |data| {
      WholeRead(h, data, seek, Min(count, |data| - seek), read, p_buf[..]);
    }
  }

  lemma HasChunks(kind: seq<byte>, v: O.VolumeInfo, base: nat, pieces: seq<Piece>)
    requires Writable(kind, v, base, pieces)
    ensures v.chunkCount == |pieces| > 0 && O.SizeFits(v.chunkCount, O.ChunkSize(v), O.ImageSize(v)) && base <= CHUNKS_AT
  {
    hide Laid, IsVolume, O.ChunkSize, O.ImageSize;
  }

  lemma WholeRead(h: Aewf.Handle, data: seq<byte>, seek: nat, n: nat, read: nat, p: seq<byte>)
    requires h.WellFormed() && h.Image() == data && seek + n <= |data|
    requires h.ReadResult(seek, n, read, p)
    ensures read == n <= |p| && p[..read] == data[seek..seek + read]
  {
    hide Aewf.Handle.Cells, Aewf.Handle.Content;
    h.WellFormedImage();
    h.ImageCells(seek, read);
  }
}
