/** Opening an AEWF image: the walk over the sections of the segment files that collects the chunk tables. */
module AewfOpen {
  import opened Bytes
  import opened AewfFormat
  import opened AewfSegments
  import Aewf

  const SECTION := 76                // sizeof(t_AewfSection)
  const VOLUME_LEN := 1052           // sizeof(t_AewfSectionVolume)
  const HASH_LEN := 36               // sizeof(t_AewfSectionHash)
  const MAX_SECTION_COUNT := 10485760
  const MAX_HEADER_LEN := 1048576
  const MAX_SECTOR_SIZE := 10485760
  const MAX_CHUNK_SIZE := 104857600
  const MAX_TABLES := 10000000

  datatype Kind = Header | Header2 | Sectors | Table | Volume | Hash | Other

  datatype Section = Section(segment: nat, pos: nat, kind: Kind, next: nat, size: nat)

  /** The fields of t_AewfSectionVolume that the reader uses. */
  datatype VolumeInfo = VolumeInfo(chunkCount: nat, sectorsPerChunk: nat, bytesPerSector: nat, sectorCount: nat)

  /** What the walk has gathered so far. */
  datatype Found = Found(
    infos: seq<TableInfo>, chunks: nat, sectorsPos: nat, sectorsSize: nat,
    volume: Option<VolumeInfo>, header: bool, header2: bool)

  const NOTHING := Found([], 0, 0, 0, None, false, false)

  function Lower(b: byte): byte {
    if 65 <= b <= 90 then b + 32 else b
  }

  /** strcasecmp: the zero-terminated type is this name, in any case. */
  predicate IsType(t: seq<byte>, name: string)
    requires |name| < |t|
  {
    (forall i :: 0 <= i < |name| ==> Lower(t[i]) == name[i] as int) && t[|name|] == 0
  }

  function KindOf(t: seq<byte>): Kind
    requires |t| == 16
  {
    if IsType(t, "header") then Header
    else if IsType(t, "header2") then Header2
    else if IsType(t, "sectors") then Sectors
    else if IsType(t, "table") then Table
    else if IsType(t, "volume") || IsType(t, "disk") || IsType(t, "data") then Volume
    else if IsType(t, "hash") then Hash
    else Other
  }

  /** The bytes are this name with a zero behind it; each letter may be a capital. */
  predicate Spells(t: seq<byte>, name: string) {
    && |name| < |t| && t[|name|] == 0
    && forall i :: 0 <= i < |name| ==> t[i] == name[i] as int || ('a' <= name[i] <= 'z' && t[i] == name[i] as int - 32)
  }

  /** The names of the sections, in any case, and nothing else, tell their kinds; a volume has three of them. */
  lemma NamesOfKinds(t: seq<byte>)
    requires |t| == 16
    ensures KindOf(t) == Header <==> Spells(t, "header")
    ensures KindOf(t) == Header2 <==> Spells(t, "header2")
    ensures KindOf(t) == Sectors <==> Spells(t, "sectors")
    ensures KindOf(t) == Table <==> Spells(t, "table")
    ensures KindOf(t) == Volume <==> Spells(t, "volume") || Spells(t, "disk") || Spells(t, "data")
    ensures KindOf(t) == Hash <==> Spells(t, "hash")
  {
    AreNames();
    DifferentNames();
    hide Spells, IsType, LowerName, Codes, IsName;
    Spelled(t, "header");
    Spelled(t, "header2");
    Spelled(t, "sectors");
    Spelled(t, "table");
    Spelled(t, "volume");
    Spelled(t, "disk");
    Spelled(t, "data");
    Spelled(t, "hash");
  }

  predicate IsName(name: string) {
    |name| < 16 && forall i :: 0 <= i < |name| ==> 'a' <= name[i] <= 'z' || '0' <= name[i] <= '9'
  }

  lemma AreNames()
    ensures IsName("header") && IsName("header2") && IsName("sectors") && IsName("table")
    ensures IsName("volume") && IsName("disk") && IsName("data") && IsName("hash")
  {
  }

  /** The bytes in front of the first zero, in lower case. */
  function LowerName(t: seq<byte>): (name: seq<int>)
    ensures |name| <= |t| && forall i :: 0 <= i < |name| ==> t[i] != 0 && name[i] == Lower(t[i])
    ensures |name| < |t| ==> t[|name|] == 0
  {
    if t == [] || t[0] == 0 then [] else [Lower(t[0])] + LowerName(t[1..])
  }

  function Codes(name: string): (s: seq<int>)
    ensures |s| == |name| && forall i :: 0 <= i < |s| ==> s[i] == name[i] as int
  {
    seq(|name|, i requires 0 <= i < |name| => name[i] as int)
  }

  lemma Spelled(t: seq<byte>, name: string)
    requires |t| == 16 && IsName(name)
    ensures IsType(t, name) <==> LowerName(t) == Codes(name)
    ensures Spells(t, name) <==> LowerName(t) == Codes(name)
  {
    var lower, codes := LowerName(t), Codes(name);
    assert IsType(t, name) ==> forall i :: 0 <= i < |name| ==> t[i] != 0;
    assert Spells(t, name) ==> forall i :: 0 <= i < |name| ==> t[i] != 0;
    assert IsType(t, name) || Spells(t, name) ==> |lower| == |codes|;
  }

  lemma DifferentNames()
    ensures |Codes("header")| == |Codes("volume")| == 6 && |Codes("header2")| == |Codes("sectors")| == 7 && |Codes("table")| == 5
    ensures |Codes("disk")| == |Codes("data")| == |Codes("hash")| == 4
    ensures Codes("header") != Codes("volume") && Codes("header2") != Codes("sectors")
    ensures Codes("disk") != Codes("hash") && Codes("data") != Codes("hash")
  {
    assert Codes("header")[0] != Codes("volume")[0] && Codes("header2")[0] != Codes("sectors")[0];
    assert Codes("disk")[0] != Codes("hash")[0] && Codes("data")[0] != Codes("hash")[0];
  }

  function SectionAt(files: seq<seq<byte>>, segment: nat, pos: nat): Section
    requires segment < |files| && pos + SECTION <= |files[segment]|
  {
    var file := files[segment];
    Section(segment, pos, KindOf(file[pos..pos + 16]), Word64(file, pos + 16), Word64(file, pos + 24))
  }

  /** The section's header is in its file. */
  predicate Readable(files: seq<seq<byte>>, s: Section) {
    s.segment < |files| && s.pos + SECTION <= |files[s.segment]| && s == SectionAt(files, s.segment, s.pos)
  }

  /** n bytes of data behind the section's header can be read. */
  predicate HasData(files: seq<seq<byte>>, s: Section, n: nat)
    requires Readable(files, s)
  {
    s.pos + SECTION + n <= |files[s.segment]|
  }

  function TableChunks(files: seq<seq<byte>>, s: Section): nat
    requires Readable(files, s) && HasData(files, s, TABLE_HEADER)
  {
    Word32(files[s.segment], s.pos + SECTION)
  }

  function VolumeAt(files: seq<seq<byte>>, s: Section): VolumeInfo
    requires Readable(files, s) && HasData(files, s, VOLUME_LEN)
  {
    var file, at := files[s.segment], s.pos + SECTION;
    VolumeInfo(Word32(file, at + 4), Word32(file, at + 8), Word32(file, at + 12), Word64(file, at + 16))
  }

  /** A table section that describes at least one chunk. */
  predicate IsCounted(files: seq<seq<byte>>, s: Section) {
    s.kind == Table && Readable(files, s) && HasData(files, s, TABLE_HEADER) && SECTION <= s.size && TableChunks(files, s) > 0
  }

  /** What one more section adds. */
  function Add(files: seq<seq<byte>>, f: Found, s: Section): Found {
    match s.kind
    case Header => f.(header := true)
    case Header2 => f.(header2 := true)
    case Sectors => f.(sectorsPos := s.pos, sectorsSize := s.size)
    case Table =>
      if !IsCounted(files, s) then f else
      var n := TableChunks(files, s);
      var info := TableInfo(f.chunks, f.chunks + n - 1, s.segment, s.pos + SECTION, s.size - SECTION, n, f.sectorsPos, f.sectorsSize % U32);
      f.(infos := f.infos + [info], chunks := f.chunks + n, sectorsPos := 0, sectorsSize := 0)
    case Volume =>
      if f.volume == None && Readable(files, s) && HasData(files, s, VOLUME_LEN) then f.(volume := Some(VolumeAt(files, s))) else f
    case Hash => f
    case Other => f
  }

  /** What a list of sections holds. */
  function Collect(files: seq<seq<byte>>, secs: seq<Section>): Found {
    if secs == [] then NOTHING else Add(files, Collect(files, secs[..|secs| - 1]), secs[|secs| - 1])
  }

  /** What is wrong with the contents of a section, when `f` has been found before it. Positions are computed in 64 bits. */
  function Check(files: seq<seq<byte>>, f: Found, s: Section): OpenError
    requires Readable(files, s)
  {
    var fileSize := |files[s.segment]|;
    if (s.pos + s.size) % U64 > fileSize then SECTION_BEYOND_EOF
    else match s.kind
      case Header =>
        if s.size <= SECTION || (!f.header && s.size - SECTION > MAX_HEADER_LEN) then SECTION_HEADER_WRONG_SIZE else OK
      case Header2 =>
        if s.size <= SECTION || (!f.header2 && s.size - SECTION > MAX_HEADER_LEN) then SECTION_HEADER_WRONG_SIZE else OK
      case Sectors =>
        if s.size < SECTION then SECTION_SECTORS_WRONG_SIZE else OK
      case Table =>
        if f.volume == None then VOLUME_MUST_PRECEDE_TABLES
        else if f.sectorsSize == 0 then SECTORS_MUST_PRECEDE_TABLES
        else if s.size < SECTION + TABLE_HEADER then SECTION_TABLE_WRONG_SIZE
        else if !HasData(files, s, TABLE_HEADER) then FILE_READ_FAILED
        else if TableChunks(files, s) == 0 then OK
        else if (s.size - SECTION - TABLE_HEADER) / 4 < TableChunks(files, s) then SECTION_TABLE_WRONG_SIZE
        else if (s.pos + SECTION + (s.size - SECTION)) % U64 > fileSize then SECTION_TABLE_BEYOND_EOF
        else OK
      case Volume =>
        if f.volume.Some? then OK
        else if s.size < SECTION + VOLUME_LEN then SECTION_VOLUME_WRONG_SIZE
        else if !HasData(files, s, VOLUME_LEN) then FILE_READ_FAILED
        else OK
      case Hash =>
        if s.size < SECTION + HASH_LEN then SECTION_HASH_WRONG_SIZE
        else if !HasData(files, s, HASH_LEN) then FILE_READ_FAILED
        else OK
      case Other => OK
  }

  /** The sizes that are accepted, by the kind of section, where the section is inside its file. */
  lemma SectionSizes(files: seq<seq<byte>>, f: Found, s: Section)
    requires Readable(files, s) && s.pos + s.size <= |files[s.segment]| < U64
    ensures (s.kind == Header && !f.header) || (s.kind == Header2 && !f.header2) ==> (Check(files, f, s) == OK <==> 76 < s.size <= 76 + 1048576)
    ensures (s.kind == Header && f.header) || (s.kind == Header2 && f.header2) ==> (Check(files, f, s) == OK <==> 76 < s.size)
    ensures s.kind == Sectors ==> (Check(files, f, s) == OK <==> 76 <= s.size)
    ensures s.kind == Volume && f.volume == None ==> (Check(files, f, s) == OK <==> 76 + 1052 <= s.size)
    ensures s.kind == Hash ==> (Check(files, f, s) == OK <==> 76 + 36 <= s.size)
    ensures s.kind == Table && f.volume.Some? && f.sectorsSize != 0 ==>
      (Check(files, f, s) == OK <==> 76 + 24 <= s.size && 76 + 24 + 4 * FromLe(files[s.segment][s.pos + 76..s.pos + 80]) <= s.size)
  {
    hide KindOf, FromLe, Word64;
    DivMod(s.pos + s.size, U64, 0);
  }

  predicate IsLast(s: Section) {
    s.next == s.pos
  }

  /** The next section lies behind this one. */
  predicate LinkOk(s: Section) {
    s.pos < s.next && s.next - s.pos >= s.size
  }

  // ----- what the list of sections says -----

  function ChunksIn(files: seq<seq<byte>>, secs: seq<Section>): nat {
    if secs == [] then 0 else
    ChunksIn(files, secs[..|secs| - 1]) + (if IsCounted(files, secs[|secs| - 1]) then TableChunks(files, secs[|secs| - 1]) else 0)
  }

  function TablesIn(files: seq<seq<byte>>, secs: seq<Section>): nat {
    if secs == [] then 0 else
    TablesIn(files, secs[..|secs| - 1]) + (if IsCounted(files, secs[|secs| - 1]) then 1 else 0)
  }

  /** The collected tables partition the chunks. */
  lemma {:induction false} CollectPartition(files: seq<seq<byte>>, secs: seq<Section>)
    ensures var f := Collect(files, secs); Partition(f.infos, f.chunks)
    ensures Collect(files, secs).chunks == ChunksIn(files, secs) && |Collect(files, secs).infos| == TablesIn(files, secs)
  {
    hide Partition, IsCounted, TableChunks;
    if secs == [] {
      EmptyPartition();
    } else {
      CollectPartition(files, secs[..|secs| - 1]);
      AddPartition(files, Collect(files, secs[..|secs| - 1]), secs[|secs| - 1]);
    }
  }

  lemma EmptyPartition()
    ensures Partition([], 0)
  {
  }

  lemma AddPartition(files: seq<seq<byte>>, f: Found, s: Section)
    requires Partition(f.infos, f.chunks)
    ensures var g := Add(files, f, s);
      && Partition(g.infos, g.chunks)
      && g.chunks == f.chunks + (if IsCounted(files, s) then TableChunks(files, s) else 0)
      && |g.infos| == |f.infos| + (if IsCounted(files, s) then 1 else 0)
  {
    hide IsCounted, TableChunks, Partition;
    if IsCounted(files, s) {
      CountedPositive(files, s);
      var g := Add(files, f, s);
      MorePartition(f.infos, f.chunks, g.infos[|f.infos|]);
    }
  }

  lemma CountedPositive(files: seq<seq<byte>>, s: Section)
    requires IsCounted(files, s)
    ensures s.kind == Table && s.size >= SECTION && Readable(files, s) && HasData(files, s, TABLE_HEADER) && TableChunks(files, s) > 0
  {
  }

  lemma MorePartition(infos: seq<TableInfo>, chunks: nat, info: TableInfo)
    requires Partition(infos, chunks) && info.chunkCount > 0
    requires info.chunkFrom == chunks && info.chunkTo == chunks + info.chunkCount - 1
    ensures Partition(infos + [info], chunks + info.chunkCount)
  {
  }

  /** Sections added later leave the tables found so far alone. */
  lemma {:induction false} CollectPrefix(files: seq<seq<byte>>, secs: seq<Section>, i: nat)
    requires i <= |secs|
    ensures Collect(files, secs[..i]).infos <= Collect(files, secs).infos
  {
    if i < |secs| {
      CollectPrefix(files, secs[..|secs| - 1], i);
      assert secs[..|secs| - 1][..i] == secs[..i];
    } else {
      assert secs[..i] == secs;
    }
  }

  /** Every table section that describes chunks has its entry; the entry starts after all chunks of earlier tables. */
  lemma CollectedTable(files: seq<seq<byte>>, secs: seq<Section>, i: nat)
    requires i < |secs| && IsCounted(files, secs[i])
    ensures var k := TablesIn(files, secs[..i]);
      && k < |Collect(files, secs).infos|
      && var info := Collect(files, secs).infos[k];
         && info.segment == secs[i].segment && info.offset == secs[i].pos + SECTION && info.size == secs[i].size - SECTION
         && info.chunkCount == TableChunks(files, secs[i]) && info.chunkFrom == ChunksIn(files, secs[..i])
  {
    hide *;
    NewEntry(files, secs, i);
  }

  /** Section j is the one that holds the chunks of table section i: the last of its kind before it, and used by no other table. */
  ghost predicate HoldsChunks(files: seq<seq<byte>>, secs: seq<Section>, j: nat, i: nat) {
    && j < i <= |secs|
    && secs[j].kind == Sectors
    && forall k :: j < k < i ==> secs[k].kind != Sectors && !IsCounted(files, secs[k])
  }

  /** The sectors section that the walk remembers. */
  lemma {:induction false} RememberedSectors(files: seq<seq<byte>>, secs: seq<Section>) returns (j: nat)
    requires Collect(files, secs).sectorsSize != 0
    ensures HoldsChunks(files, secs, j, |secs|)
    ensures var f := Collect(files, secs); f.sectorsPos == secs[j].pos && f.sectorsSize == secs[j].size
  {
    var last := |secs| - 1;
    if secs[last].kind == Sectors {
      j := last;
    } else {
      j := RememberedSectors(files, secs[..last]);
      assert HoldsChunks(files, secs[..last], j, last);
    }
  }

  /** A table's entry names the sectors section in front of it. */
  lemma SectorsOfTable(files: seq<seq<byte>>, secs: seq<Section>, i: nat) returns (j: nat)
    requires i < |secs| && IsCounted(files, secs[i]) && Check(files, Collect(files, secs[..i]), secs[i]) == OK
    ensures HoldsChunks(files, secs, j, i)
    ensures var k := TablesIn(files, secs[..i]);
      && k < |Collect(files, secs).infos|
      && Collect(files, secs).infos[k].sectorsPos == secs[j].pos
      && Collect(files, secs).infos[k].sectorsSize == secs[j].size % U32
  {
    hide KindOf, Word32, Word64, Partition, TableChunks;
    CountedAfterSectors(files, Collect(files, secs[..i]), secs[i]);
    j := RememberedSectors(files, secs[..i]);
    HoldsChunksIn(files, secs, j, i);
    NewEntry(files, secs, i);
  }

  lemma CountedAfterSectors(files: seq<seq<byte>>, f: Found, s: Section)
    requires IsCounted(files, s) && Check(files, f, s) == OK
    ensures f.sectorsSize != 0
  {
  }

  lemma HoldsChunksIn(files: seq<seq<byte>>, secs: seq<Section>, j: nat, i: nat)
    requires i < |secs| && HoldsChunks(files, secs[..i], j, i)
    ensures HoldsChunks(files, secs, j, i)
  {
    hide IsCounted;
    forall k | j < k < i
      ensures secs[k].kind != Sectors && !IsCounted(files, secs[k])
    {
      assert secs[..i][k] == secs[k];
    }
  }

  /** The entry that table section i gets. */
  lemma NewEntry(files: seq<seq<byte>>, secs: seq<Section>, i: nat)
    requires i < |secs| && IsCounted(files, secs[i])
    ensures var k, f := TablesIn(files, secs[..i]), Collect(files, secs[..i]);
      && k < |Collect(files, secs).infos|
      && var info := Collect(files, secs).infos[k];
         && info.segment == secs[i].segment && info.offset == secs[i].pos + SECTION && info.size == secs[i].size - SECTION
         && info.chunkCount == TableChunks(files, secs[i]) && info.chunkFrom == ChunksIn(files, secs[..i])
         && info.sectorsPos == f.sectorsPos && info.sectorsSize == f.sectorsSize % U32
  {
    hide KindOf, Word32, Word64, Partition, TableChunks;
    CollectPrefix(files, secs, i + 1);
    assert secs[..i + 1][..i] == secs[..i];
    CollectPartition(files, secs[..i]);
  }

  /** Every section passed its check. */
  ghost predicate AllChecked(files: seq<seq<byte>>, secs: seq<Section>) {
    forall i :: 0 <= i < |secs| ==> Readable(files, secs[i]) && Check(files, Collect(files, secs[..i]), secs[i]) == OK
  }

  lemma CheckedMore(files: seq<seq<byte>>, secs: seq<Section>, s: Section)
    requires AllChecked(files, secs) && Readable(files, s) && Check(files, Collect(files, secs), s) == OK
    ensures AllChecked(files, secs + [s]) && Collect(files, secs + [s]) == Add(files, Collect(files, secs), s)
  {
    var more := secs + [s];
    assert more[..|secs|] == secs;
    forall i | 0 <= i < |more|
      ensures Readable(files, more[i]) && Check(files, Collect(files, more[..i]), more[i]) == OK
    {
      if i < |secs| {
        assert more[..i] == secs[..i];
      }
    }
  }

  ghost predicate TableInFile(files: seq<seq<byte>>, info: TableInfo) {
    && info.segment < |files|
    && info.offset + info.size <= |files[info.segment]|
    && TABLE_HEADER + 4 * info.chunkCount <= info.size
  }

  /** A file's size is known in 64 bits. */
  ghost predicate SizesFit(files: seq<seq<byte>>) {
    forall i :: 0 <= i < |files| ==> |files[i]| < U64
  }

  /** A table lies in its file with all its entries if and only if the sum of its position and its size fits 64 bits. */
  lemma {:induction false} TablesLieInFiles(files: seq<seq<byte>>, secs: seq<Section>, t: nat)
    requires SizesFit(files) && AllChecked(files, secs) && t < |Collect(files, secs).infos|
    ensures var info := Collect(files, secs).infos[t]; TableInFile(files, info) <==> info.offset + info.size < U64
  {
    hide Check, IsCounted, TableInFile, Add;
    var most := secs[..|secs| - 1];
    var f, s := Collect(files, most), secs[|secs| - 1];
    if t < |f.infos| {
      assert forall i :: 0 <= i < |most| ==> most[..i] == secs[..i];
      TablesLieInFiles(files, most, t);
    }
    TableFits(files, f, s);
  }

  lemma TableFits(files: seq<seq<byte>>, f: Found, s: Section)
    requires SizesFit(files) && Readable(files, s) && Check(files, f, s) == OK
    ensures Add(files, f, s).infos == f.infos
      || (exists info: TableInfo :: Add(files, f, s).infos == f.infos + [info] &&
            (TableInFile(files, info) <==> info.offset + info.size < U64))
  {
    if IsCounted(files, s) {
      hide KindOf, Word64, Word32;
      var g := Add(files, f, s);
      var info := g.infos[|f.infos|];
      assert s.size - SECTION - TABLE_HEADER >= 4 * TableChunks(files, s);
      assert g.infos == f.infos + [info];
      assert info.offset + info.size == s.pos + s.size;
      if s.pos + s.size < U64 {
        DivMod(s.pos + s.size, U64, 0);
      }
    }
  }

  predicate Linked(s: Section, next: Section) {
    LinkOk(s) && next.pos == s.next
  }

  /** The sections of one segment file, from its header to the section that names itself as the next. */
  ghost predicate Chain(files: seq<seq<byte>>, segment: nat, chain: seq<Section>) {
    && (forall i :: 0 <= i < |chain| ==> Readable(files, chain[i]) && chain[i].segment == segment && chain[i].pos < MAX_SEEK)
    && (chain != [] ==> chain[0].pos == FILE_HEADER)
    && (forall i :: 0 < i < |chain| ==> Linked(chain[i - 1], chain[i]))
    && |chain| <= MAX_SECTION_COUNT
  }

  /** No section of a file overlaps another. */
  lemma {:induction false} SectionsApart(files: seq<seq<byte>>, segment: nat, chain: seq<Section>, i: nat, j: nat)
    requires Chain(files, segment, chain) && i < j < |chain|
    ensures chain[i].pos < chain[j].pos && chain[i].pos + chain[i].size <= chain[j].pos
  {
    if i + 1 < j {
      SectionsApart(files, segment, chain, i, j - 1);
    }
  }

  /** Where the section after these starts. */
  function NextPos(chain: seq<Section>): nat {
    if chain == [] then FILE_HEADER else chain[|chain| - 1].next
  }

  /** Why the walk cannot go on behind `chain`, if it cannot: OK stands for no reason. */
  function Obstacle(files: seq<seq<byte>>, segment: nat, f: Found, chain: seq<Section>): OpenError
    requires segment < |files|
  {
    var pos := NextPos(chain);
    if |files[segment]| < FILE_HEADER then FILE_READ_FAILED
    else if |chain| == MAX_SECTION_COUNT then TOO_MANY_SECTIONS
    else if pos >= MAX_SEEK then FILE_SEEK_FAILED
    else if pos + SECTION > |files[segment]| then FILE_READ_FAILED
    else
      var s := SectionAt(files, segment, pos);
      if Check(files, f, s) != OK then Check(files, f, s)
      else if !IsLast(s) && !LinkOk(s) then SECTION_STARTPOS_ERROR
      else OK
  }

  /** A file may have so many sections. */
  lemma SectionCount(files: seq<seq<byte>>, segment: nat, f: Found, chain: seq<Section>)
    requires segment < |files| && |files[segment]| >= 13
    ensures Obstacle(files, segment, f, chain) == TOO_MANY_SECTIONS <==> |chain| == 10485760
  {
    hide KindOf, FromLe;
  }

  /** All sections of a segment file. */
  ghost predicate WholeChain(files: seq<seq<byte>>, segment: nat, chain: seq<Section>) {
    Chain(files, segment, chain) && chain != [] && IsLast(chain[|chain| - 1])
  }

  /** The sections of a segment file as far as the walk has come: more are to follow. */
  ghost predicate OpenChain(files: seq<seq<byte>>, segment: nat, chain: seq<Section>) {
    Chain(files, segment, chain) && (chain != [] ==> LinkOk(chain[|chain| - 1]))
  }

  // ----- which files are accepted -----

  /** The sections of all files: each file's end with one that names itself, and nothing is wrong with any of them, nor with what they hold. */
  ghost predicate Accepted(files: seq<seq<byte>>, chains: seq<seq<Section>>) {
    && |chains| == |files|
    && (forall i :: 0 <= i < |chains| ==> WholeChain(files, i, chains[i]))
    && AllChecked(files, Concat(chains))
    && FinalCheck(Collect(files, Concat(chains))) == OK
  }

  /** There is only one way to follow the links in a file. */
  lemma {:induction false} SameSection(files: seq<seq<byte>>, segment: nat, a: seq<Section>, b: seq<Section>, i: nat)
    requires Chain(files, segment, a) && Chain(files, segment, b) && i < |a| && i < |b|
    ensures a[i] == b[i]
  {
    hide SectionAt;
    if i > 0 {
      SameSection(files, segment, a, b, i - 1);
      assert Linked(a[i - 1], a[i]) && Linked(b[i - 1], b[i]);
    }
  }

  lemma WholeUnique(files: seq<seq<byte>>, segment: nat, a: seq<Section>, b: seq<Section>)
    requires WholeChain(files, segment, a) && WholeChain(files, segment, b)
    ensures a == b
  {
    hide Readable;
    forall i | 0 <= i < |a| && i < |b|
      ensures a[i] == b[i]
    {
      SameSection(files, segment, a, b, i);
    }
    assert |a| < |b| ==> Linked(b[|a| - 1], b[|a|]);
    assert |b| < |a| ==> Linked(a[|b| - 1], a[|b|]);
  }

  /** A walk that stopped stopped before the last section. */
  lemma StoppedInside(files: seq<seq<byte>>, segment: nat, whole: seq<Section>, rest: seq<Section>)
    requires WholeChain(files, segment, whole) && OpenChain(files, segment, rest)
    ensures |rest| < |whole| && rest == whole[..|rest|]
  {
    hide Readable;
    forall i | 0 <= i < |rest| && i < |whole|
      ensures rest[i] == whole[i]
    {
      SameSection(files, segment, rest, whole, i);
    }
    assert |whole| < |rest| ==> Linked(rest[|whole| - 1], rest[|whole|]);
  }

  /** Where the next section passes its check, there is no reason to stop. */
  lemma NoObstacle(files: seq<seq<byte>>, segment: nat, f: Found, whole: seq<Section>, k: nat)
    requires segment < |files| && WholeChain(files, segment, whole) && k < |whole|
    requires Check(files, f, whole[k]) == OK
    ensures Obstacle(files, segment, f, whole[..k]) == OK
  {
    hide SectionAt, Check;
    assert k > 0 ==> Linked(whole[k - 1], whole[k]);
    assert k < |whole| - 1 ==> Linked(whole[k], whole[k + 1]);
  }

  /** Where there is a list of sections with nothing wrong, the walk finds it. */
  lemma WalkFinds(files: seq<seq<byte>>, good: seq<seq<Section>>, chains: seq<seq<Section>>, rest: seq<Section>)
    requires Accepted(files, good) && |chains| <= |files|
    requires forall i :: 0 <= i < |chains| ==> WholeChain(files, i, chains[i])
    requires |chains| < |files| ==> OpenChain(files, |chains|, rest)
    ensures |chains| < |files| ==> Obstacle(files, |chains|, Collect(files, Concat(chains) + rest), rest) == OK
    ensures |chains| == |files| ==> chains == good
  {
    hide WholeChain, OpenChain, Check, Collect, FinalCheck, Obstacle, Readable, Concat;
    var n := |chains|;
    forall i | 0 <= i < n
      ensures chains[i] == good[i]
    {
      WholeUnique(files, i, chains[i], good[i]);
    }
    if n < |files| {
      StoppedInside(files, n, good[n], rest);
      var secs, k := Concat(good), |rest|;
      assert chains == good[..n];
      ConcatPart(good, n, k);
      var at := |Concat(chains)| + k;
      assert secs[..at + 1][at] == (Concat(chains) + good[n][..k + 1])[at];
      assert secs[..at + 1][..at] == secs[..at];
      NoObstacle(files, n, Collect(files, secs[..at]), good[n], k);
    }
  }

  /** The sections of the first i files and some of the next are the first sections of all. */
  lemma {:induction false} ConcatPart(chains: seq<seq<Section>>, i: nat, k: nat)
    requires i < |chains| && k < |chains[i]|
    ensures var secs, at := Concat(chains), |Concat(chains[..i])| + k;
      && at < |secs|
      && secs[..at] == Concat(chains[..i]) + chains[i][..k]
      && secs[..at + 1] == Concat(chains[..i]) + chains[i][..k + 1]
  {
    var last := |chains| - 1;
    var most := Concat(chains[..last]);
    assert Concat(chains) == most + chains[last];
    if i < last {
      ConcatPart(chains[..last], i, k);
      assert chains[..last][..i] == chains[..i];
      var at := |Concat(chains[..i])| + k;
      assert (most + chains[last])[..at] == most[..at];
      assert (most + chains[last])[..at + 1] == most[..at + 1];
    }
  }

  /** The variables of AewfOpen and the fields of t_Aewf that the walk updates. */
  class Walk {
    const files: seq<seq<byte>>
    var infos: seq<TableInfo>
    var chunks: nat
    var sectorsPos: nat
    var sectorsSize: nat
    var volume: Option<VolumeInfo>
    var header: bool
    var header2: bool

    constructor (files: seq<seq<byte>>)
      ensures this.files == files && Holds(NOTHING)
    {
      this.files := files;
      infos, chunks, sectorsPos, sectorsSize, volume, header, header2 := [], 0, 0, 0, None, false, false;
    }

    predicate Holds(f: Found)
      reads this
    {
      f == Found(infos, chunks, sectorsPos, sectorsSize, volume, header, header2)
    }

    /** The part of the loop that handles a table section. */
    method VisitTable(s: Section, ghost f: Found) returns (rc: OpenError)
      requires Readable(files, s) && s.kind == Table && (s.pos + s.size) % U64 <= |files[s.segment]| && Holds(f)
      modifies this
      ensures rc == Check(files, f, s)
      ensures rc == OK ==> Holds(Add(files, f, s))
    {
      hide KindOf, Word64, Word32;
      if volume == None {
        return VOLUME_MUST_PRECEDE_TABLES;
      }
      if sectorsSize == 0 {
        return SECTORS_MUST_PRECEDE_TABLES;
      }
      if s.size < SECTION + TABLE_HEADER {
        return SECTION_TABLE_WRONG_SIZE;
      }
      if !HasData(files, s, TABLE_HEADER) {
        return FILE_READ_FAILED;
      }
      var chunkCount := TableChunks(files, s);
      if chunkCount != 0 {
        var info := TableInfo(chunks, chunks + chunkCount - 1, s.segment, s.pos + SECTION, s.size - SECTION, chunkCount, sectorsPos, sectorsSize % U32);
        infos := infos + [info];
        chunks := chunks + chunkCount;
        sectorsPos, sectorsSize := 0, 0;
        if (info.size - TABLE_HEADER) / 4 < chunkCount {
          return SECTION_TABLE_WRONG_SIZE;
        }
        if (info.offset + info.size) % U64 > |files[s.segment]| {
          return SECTION_TABLE_BEYOND_EOF;
        }
      }
      rc := OK;
    }

    /** The body of the loop over the sections, but for the step to the next one. */
    method VisitSection(s: Section, ghost f: Found) returns (rc: OpenError)
      requires Readable(files, s) && Holds(f)
      modifies this
      ensures rc == Check(files, f, s)
      ensures rc == OK ==> Holds(Add(files, f, s))
    {
      hide KindOf, Word64, Word32, TableChunks;
      if (s.pos + s.size) % U64 > |files[s.segment]| {
        return SECTION_BEYOND_EOF;
      }
      rc := OK;
      match s.kind {
        case Header =>
          if s.size <= SECTION || (!header && s.size - SECTION > MAX_HEADER_LEN) {
            return SECTION_HEADER_WRONG_SIZE;
          }
          header := true;
        case Header2 =>
          if s.size <= SECTION || (!header2 && s.size - SECTION > MAX_HEADER_LEN) {
            return SECTION_HEADER_WRONG_SIZE;
          }
          header2 := true;
        case Sectors =>
          if s.size < SECTION {
            return SECTION_SECTORS_WRONG_SIZE;
          }
          sectorsPos, sectorsSize := s.pos, s.size;
        case Table =>
          rc := VisitTable(s, f);
        case Volume =>
          if volume == None {
            if s.size < SECTION + VOLUME_LEN {
              return SECTION_VOLUME_WRONG_SIZE;
            }
            if !HasData(files, s, VOLUME_LEN) {
              return FILE_READ_FAILED;
            }
            volume := Some(VolumeAt(files, s));
          }
        case Hash =>
          if s.size < SECTION + HASH_LEN {
            return SECTION_HASH_WRONG_SIZE;
          }
          if !HasData(files, s, HASH_LEN) {
            return FILE_READ_FAILED;
          }
        case Other =>
      }
    }

    /** One turn of the loop over the sections of a segment file. */
    method WalkSection(segment: nat, sectionsCount: nat, pos: nat, ghost before: seq<Section>, ghost chain: seq<Section>)
      returns (rc: OpenError, last: bool, next: nat, ghost chain': seq<Section>)
      requires segment < |files| && |files[segment]| >= FILE_HEADER
      requires AllChecked(files, before + chain) && Holds(Collect(files, before + chain))
      requires OpenChain(files, segment, chain) && pos == NextPos(chain) && sectionsCount == |chain|
      modifies this
      ensures rc == Obstacle(files, segment, Collect(files, before + chain), chain)
      ensures rc != OK ==> chain' == chain
      ensures rc == OK ==> |chain'| == |chain| + 1 && next == NextPos(chain')
      ensures rc == OK ==> AllChecked(files, before + chain') && Holds(Collect(files, before + chain'))
      ensures rc == OK && !last ==> OpenChain(files, segment, chain') && pos < next && pos < |files[segment]|
      ensures rc == OK && last ==> WholeChain(files, segment, chain')
    {
      hide Check, Add, Collect, KindOf, Word64, AllChecked;
      last, next, chain' := false, pos, chain;
      if sectionsCount + 1 > MAX_SECTION_COUNT {
        return TOO_MANY_SECTIONS, last, next, chain';
      }
      if pos >= MAX_SEEK {
        return FILE_SEEK_FAILED, last, next, chain';
      }
      if pos + SECTION > |files[segment]| {
        return FILE_READ_FAILED, last, next, chain';
      }
      var s := SectionAt(files, segment, pos);
      rc := VisitSection(s, Collect(files, before + chain));
      if rc != OK {
        return;
      }
      last := pos == s.next || pos == 0;
      if !last {
        if s.next <= pos || s.next - pos < s.size {
          rc := SECTION_STARTPOS_ERROR;
          return;
        }
        next := s.next;
      }
      chain' := chain + [s];
      CheckedMore(files, before + chain, s);
      assert before + chain' == before + chain + [s];
    }

    /** The loop over the sections of one segment file. */
    method WalkSegment(segment: nat, ghost before: seq<Section>) returns (rc: OpenError, ghost chain: seq<Section>)
      requires segment < |files|
      requires AllChecked(files, before) && Holds(Collect(files, before))
      modifies this
      ensures rc == OK ==> WholeChain(files, segment, chain)
      ensures rc == OK ==> AllChecked(files, before + chain) && Holds(Collect(files, before + chain))
      ensures rc != OK ==> OpenChain(files, segment, chain) && rc == Obstacle(files, segment, Collect(files, before + chain), chain)
    {
      hide Check, Add, Collect, AllChecked, WholeChain, Holds;
      chain := [];
      assert before + chain == before;
      if |files[segment]| < FILE_HEADER {
        return FILE_READ_FAILED, chain;
      }
      var pos, sectionsCount, last := FILE_HEADER, 0, false;
      rc := OK;
      while !last
        invariant AllChecked(files, before + chain) && Holds(Collect(files, before + chain))
        invariant !last ==> OpenChain(files, segment, chain) && pos == NextPos(chain) && sectionsCount == |chain|
        invariant last ==> WholeChain(files, segment, chain)
        invariant rc == OK
        decreases !last, |files[segment]| - pos
      {
        rc, last, pos, chain := WalkSection(segment, sectionsCount, pos, before, chain);
        if rc != OK {
          return;
        }
        sectionsCount := sectionsCount + 1;
      }
    }

    /** The loop over the segment files. */
    method WalkSegments() returns (rc: OpenError, ghost chains: seq<seq<Section>>, ghost rest: seq<Section>)
      requires Holds(NOTHING)
      modifies this
      ensures |chains| <= |files| && forall i :: 0 <= i < |chains| ==> WholeChain(files, i, chains[i])
      ensures rc == OK ==> |chains| == |files| && AllChecked(files, Concat(chains)) && Holds(Collect(files, Concat(chains)))
      ensures rc != OK ==> |chains| < |files| && OpenChain(files, |chains|, rest)
      ensures rc != OK ==> rc == Obstacle(files, |chains|, Collect(files, Concat(chains) + rest), rest)
    {
      hide Check, Add, AllChecked, WholeChain, OpenChain, Obstacle;
      chains, rest, rc := [], [], OK;
      NothingChecked(files);
      for i := 0 to |files|
        invariant |chains| == i && forall j :: 0 <= j < i ==> WholeChain(files, j, chains[j])
        invariant AllChecked(files, Concat(chains)) && Holds(Collect(files, Concat(chains)))
        invariant rc == OK
      {
        rc, rest := WalkSegment(i, Concat(chains));
        if rc != OK {
          return;
        }
        assert (chains + [rest])[..i] == chains;
        chains := chains + [rest];
      }
    }
  }

  // ----- the checks behind the walk -----

  /** ChunkSize, a product of two 32-bit numbers, and ImageSize, computed in 64 bits. */
  function ChunkSize(v: VolumeInfo): nat {
    v.sectorsPerChunk * v.bytesPerSector
  }

  function ImageSize(v: VolumeInfo): nat {
    (v.sectorCount * v.bytesPerSector) % U64
  }

  /** What is wrong with everything that was found. */
  function FinalCheck(f: Found): OpenError {
    if f.volume == None then VOLUME_MISSING
    else
      var v := f.volume.value;
      if f.chunks != v.chunkCount then WRONG_CHUNK_COUNT
      else if v.sectorCount == 0 then ZERO_SECTORS
      else if v.bytesPerSector == 0 || v.bytesPerSector > MAX_SECTOR_SIZE then INVALID_SECTOR_SIZE
      else if ChunkSize(v) == 0 || ChunkSize(v) > MAX_CHUNK_SIZE then INVALID_CHUNK_SIZE
      else if ImageSize(v) == 0 then ZERO_IMAGE_SIZE
      else if f.infos == [] || |f.infos| > MAX_TABLES then NUMBER_OF_TABLES
      else OK
  }

  /** The limits for what is opened. */
  lemma Limits(f: Found)
    ensures FinalCheck(f) == OK <==>
      && f.volume.Some? && f.chunks == f.volume.value.chunkCount && 0 < |f.infos| <= 10000000
      && var v := f.volume.value;
         && v.sectorCount > 0 && 0 < v.bytesPerSector <= 10485760 && 0 < v.sectorsPerChunk * v.bytesPerSector <= 104857600
         && v.sectorCount * v.bytesPerSector % 0x1_0000_0000_0000_0000 != 0
  {
  }

  /** Every table ends within 64 bits. */
  ghost predicate TablesFit(infos: seq<TableInfo>) {
    forall t :: 0 <= t < |infos| ==> infos[t].offset + infos[t].size < U64
  }

  /** The chunks are as many as the size of the image needs. */
  predicate SizeFits(chunks: nat, chunkSize: nat, imageSize: nat) {
    (chunks - 1) * chunkSize < imageSize <= chunks * chunkSize
  }

  /** The part of AewfOpen behind the walk: the final checks, and the handle's structures. */
  method Conclude(walk: Walk, ghost secs: seq<Section>, codec: Codec, maxTableCache: nat, maxOpenSegments: nat, threadCount: nat)
    returns (rc: OpenError, h: Option<Aewf.Handle>)
    requires SizesFit(walk.files) && AllChecked(walk.files, secs) && walk.Holds(Collect(walk.files, secs))
    ensures rc == FinalCheck(Collect(walk.files, secs))
    ensures h.Some? <==> rc == OK
    ensures rc == OK ==> Result(h.value, walk.files, Collect(walk.files, secs)) && h.value.codec == codec
    ensures rc == OK ==> fresh(h.value) && h.value.threadCount == threadCount
    ensures rc == OK ==> (h.value.Valid() <==> TablesFit(h.value.infos))
    ensures rc == OK ==> (h.value.Opened() <==> TablesFit(h.value.infos) && SizeFits(h.value.chunks, h.value.chunkSize, h.value.imageSize))
  {
    hide Check, Collect, AllChecked, TablesFit;
    rc, h := OK, None;
    match walk.volume {
      case None =>
        rc := VOLUME_MISSING;
      case Some(v) =>
        var chunkSize, imageSize := ChunkSize(v), ImageSize(v);
        if walk.chunks != v.chunkCount {
          rc := WRONG_CHUNK_COUNT;
        } else if v.sectorCount == 0 {
          rc := ZERO_SECTORS;
        } else if v.bytesPerSector == 0 || v.bytesPerSector > MAX_SECTOR_SIZE {
          rc := INVALID_SECTOR_SIZE;
        } else if chunkSize == 0 || chunkSize > MAX_CHUNK_SIZE {
          rc := INVALID_CHUNK_SIZE;
        } else if imageSize == 0 {
          rc := ZERO_IMAGE_SIZE;
        } else if walk.infos == [] || |walk.infos| > MAX_TABLES {
          rc := NUMBER_OF_TABLES;
        } else {
          CollectPartition(walk.files, secs);
          var handle := new Aewf.Handle(walk.files, walk.infos, codec, chunkSize, imageSize, walk.chunks, maxTableCache, maxOpenSegments, threadCount);
          TablesUsable(handle, secs);
          h := Some(handle);
        }
    }
  }

  /** The part of AewfOpen behind the ordering of the files: the walk, the final checks, and the handle's structures. */
  method OpenOrdered(files: seq<seq<byte>>, codec: Codec, maxTableCache: nat, maxOpenSegments: nat, threadCount: nat)
    returns (rc: OpenError, h: Option<Aewf.Handle>, ghost chains: seq<seq<Section>>, ghost rest: seq<Section>)
    requires SizesFit(files)
    ensures |chains| <= |files| && forall i :: 0 <= i < |chains| ==> WholeChain(files, i, chains[i])
    ensures |chains| < |files| ==> rc != OK && OpenChain(files, |chains|, rest)
    ensures |chains| < |files| ==> rc == Obstacle(files, |chains|, Collect(files, Concat(chains) + rest), rest)
    ensures |chains| == |files| ==> rc == FinalCheck(Collect(files, Concat(chains)))
    ensures rc == OK <==> exists good :: Accepted(files, good)
    ensures rc == OK ==> Accepted(files, chains)
    ensures h.Some? <==> rc == OK
    ensures rc == OK ==> Result(h.value, files, Collect(files, Concat(chains))) && h.value.codec == codec
    ensures rc == OK ==> fresh(h.value) && h.value.threadCount == threadCount
    ensures rc == OK ==> (h.value.Valid() <==> TablesFit(h.value.infos))
    ensures rc == OK ==> (h.value.Opened() <==> TablesFit(h.value.infos) && SizeFits(h.value.chunks, h.value.chunkSize, h.value.imageSize))
  {
    hide Check, Collect, AllChecked, WholeChain, OpenChain, Obstacle, TablesFit, SizeFits, FinalCheck, Result;
    var walk := new Walk(files);
    h := None;
    rc, chains, rest := walk.WalkSegments();
    OnlyOneWalk(files, chains, rest);
    if rc != OK {
      return;
    }
    rc, h := Conclude(walk, Concat(chains), codec, maxTableCache, maxOpenSegments, threadCount);
  }

  /** AewfOpen; the options come from AewfCreateHandle and AewfOptionsParse. */
  method Open(files: seq<seq<byte>>, codec: Codec, maxTableCache: nat, maxOpenSegments: nat, threadCount: nat)
    returns (rc: OpenError, h: Option<Aewf.Handle>, ghost ordered: seq<seq<byte>>, ghost chains: seq<seq<Section>>, ghost rest: seq<Section>)
    requires SizesFit(files)
    ensures h.Some? <==> rc == OK
    ensures !InSequence(files) ==> rc in {FILE_READ_FAILED, BAD_FILE_SIGNATURE, DUPLICATE_SEGMENT_NUMBER, MISSING_SEGMENT_NUMBER}
    ensures InSequence(files) ==> IsOrdering(files, ordered) && |chains| <= |ordered|
    ensures InSequence(files) ==> forall i :: 0 <= i < |chains| ==> WholeChain(ordered, i, chains[i])
    ensures InSequence(files) && |chains| < |ordered| ==> rc != OK && OpenChain(ordered, |chains|, rest)
    ensures InSequence(files) && |chains| < |ordered| ==> rc == Obstacle(ordered, |chains|, Collect(ordered, Concat(chains) + rest), rest)
    ensures InSequence(files) && |chains| == |ordered| ==> rc == FinalCheck(Collect(ordered, Concat(chains)))
    ensures rc == OK <==> InSequence(files) && exists good :: Accepted(ordered, good)
    ensures rc == OK ==> Accepted(ordered, chains) && Result(h.value, ordered, Collect(ordered, Concat(chains))) && h.value.codec == codec
    ensures rc == OK ==> fresh(h.value) && h.value.threadCount == threadCount
    ensures rc == OK ==> (h.value.Valid() <==> TablesFit(h.value.infos))
    ensures rc == OK ==> (h.value.Opened() <==> TablesFit(h.value.infos) && SizeFits(h.value.chunks, h.value.chunkSize, h.value.imageSize))
  {
    hide Check, Collect, AllChecked, WholeChain, OpenChain, Obstacle, FinalCheck, Complete, HeaderError, Number, Result;
    h, chains, rest := None, [], [];
    var sorted;
    rc, sorted := OrderSegments(files);
    ordered := sorted;
    if rc != OK {
      return;
    }
    rc, h, chains, rest := OpenOrdered(sorted, codec, maxTableCache, maxOpenSegments, threadCount);
  }

  /** The handle describes what was found. */
  ghost predicate Result(h: Aewf.Handle, files: seq<seq<byte>>, f: Found) {
    && h.files == files && h.infos == f.infos && Partition(h.infos, h.chunks)
    && f.volume.Some? && h.chunks == f.chunks == f.volume.value.chunkCount > 0
    && h.chunkSize == ChunkSize(f.volume.value) > 0 && h.imageSize == ImageSize(f.volume.value) > 0
  }

  lemma OnlyOneWalk(files: seq<seq<byte>>, chains: seq<seq<Section>>, rest: seq<Section>)
    requires |chains| <= |files| && forall i :: 0 <= i < |chains| ==> WholeChain(files, i, chains[i])
    requires |chains| < |files| ==> OpenChain(files, |chains|, rest)
    ensures (exists good :: Accepted(files, good)) && |chains| < |files| ==>
      Obstacle(files, |chains|, Collect(files, Concat(chains) + rest), rest) == OK
    ensures (exists good :: Accepted(files, good)) && |chains| == |files| ==> Accepted(files, chains)
  {
    if good :| Accepted(files, good) {
      hide *;
      WalkFinds(files, good, chains, rest);
    }
  }

  lemma TablesUsable(h: Aewf.Handle, secs: seq<Section>)
    requires SizesFit(h.files) && AllChecked(h.files, secs) && h.infos == Collect(h.files, secs).infos
    ensures h.TablesInFiles() <==> TablesFit(h.infos)
  {
    hide Check, Collect, AllChecked;
    forall t | 0 <= t < |h.infos|
      ensures TableInFile(h.files, h.infos[t]) <==> h.infos[t].offset + h.infos[t].size < U64
    {
      TablesLieInFiles(h.files, secs, t);
    }
    assert h.TablesInFiles() <==> forall t :: 0 <= t < |h.infos| ==> TableInFile(h.files, h.infos[t]);
  }

  lemma NothingChecked(files: seq<seq<byte>>)
    ensures AllChecked(files, [])
  {
  }
}
