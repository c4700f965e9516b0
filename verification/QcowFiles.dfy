/** QCOW2 files as any program may have written them: all header fields free, and clusters of every kind. */
module QcowFiles {
  import opened Bytes
  import opened Lookup
  import opened QcowFormat
  import Q = Qcow

  // ----- the header, field by field -----

  /** t_QcowHeader */
  datatype Fields = Fields(
    magic: seq<byte>, version: nat, backingFileOffset: nat, backingFileSize: nat, clusterBits: nat, size: nat,
    cryptMethod: nat, l1Size: nat, l1TableOffset: nat, refCountTableOffset: nat, refCountTableClusters: nat,
    nbSnapshots: nat, snapshotsOffset: nat)
  {
    predicate Fit() {
      && |magic| == 4 && version < U32 && clusterBits < U32 && size < U64
      && cryptMethod < U32 && l1Size < U32 && l1TableOffset < U64
    }
  }

  function First(f: Fields): (s: seq<byte>)
    requires f.Fit()
    ensures |s| == 24
  {
    f.magic + Be(f.version, 4) + Be(f.backingFileOffset, 8) + Be(f.backingFileSize, 4) + Be(f.clusterBits, 4)
  }

  function Second(f: Fields): (s: seq<byte>)
    ensures |s| == 24
  {
    Be(f.size, 8) + Be(f.cryptMethod, 4) + Be(f.l1Size, 4) + Be(f.l1TableOffset, 8)
  }

  function Third(f: Fields): (s: seq<byte>)
    ensures |s| == 24
  {
    Be(f.refCountTableOffset, 8) + Be(f.refCountTableClusters, 4) + Be(f.nbSnapshots, 4) + Be(f.snapshotsOffset, 8)
  }

  function Printed(f: Fields): (s: seq<byte>)
    requires f.Fit()
    ensures |s| == 72
  {
    First(f) + Second(f) + Third(f)
  }

  lemma FirstFields(f: Fields)
    requires f.Fit()
    ensures First(f)[0..4] == f.magic && Be32(First(f), 4) == f.version && Be32(First(f), 20) == f.clusterBits
  {
    hide Be, FromBe;
    Be4(f.version);
    Be4(f.clusterBits);
    assert First(f)[4..8] == Be(f.version, 4) && First(f)[20..24] == Be(f.clusterBits, 4);
  }

  lemma SecondFields(f: Fields)
    requires f.Fit()
    ensures Be64(Second(f), 0) == f.size && Be32(Second(f), 8) == f.cryptMethod
    ensures Be32(Second(f), 12) == f.l1Size && Be64(Second(f), 16) == f.l1TableOffset
  {
    hide Be, FromBe;
    Be8(f.size);
    Be4(f.cryptMethod);
    Be4(f.l1Size);
    Be8(f.l1TableOffset);
    var s := Second(f);
    assert s[0..8] == Be(f.size, 8) && s[8..12] == Be(f.cryptMethod, 4) && s[12..16] == Be(f.l1Size, 4) && s[16..24] == Be(f.l1TableOffset, 8);
  }

  /** The reader takes each of its seven values from the right field, whatever the others are. */
  lemma FieldsRead(f: Fields, file: seq<byte>)
    requires f.Fit() && Printed(f) <= file
    ensures Q.ParseFields(Filled(file, 0, Q.HEADER_SIZE)) ==
      Q.Header(f.magic, f.version, f.clusterBits, f.size, f.cryptMethod, f.l1Size, f.l1TableOffset)
  {
    hide FromBe, First, Second, Third;
    FirstFields(f);
    SecondFields(f);
    var s := Filled(file, 0, Q.HEADER_SIZE);
    assert s == Printed(f);
    assert s[0..24] == First(f) && s[24..48] == Second(f);
    SubSlice(s, 0, 24, 0, 4);
    SubSlice(s, 0, 24, 4, 8);
    SubSlice(s, 0, 24, 20, 24);
    SubSlice(s, 24, 48, 0, 8);
    SubSlice(s, 24, 48, 8, 12);
    SubSlice(s, 24, 48, 12, 16);
    SubSlice(s, 24, 48, 16, 24);
  }

  // ----- tables and clusters -----

  /** What an entry of an L2 table may stand for. */
  datatype Slot =
    | Unallocated
    | ReadsAsZero(at: nat)                     // a place in the file that is kept, but not read
    | Stored(at: nat)
    | Deflated(at: nat, moreSectors: nat)

  /** A place in the file that an entry can point to. */
  predicate IsPlace(at: nat) {
    at % 512 == 0 && at < 0x100_0000_0000_0000
  }

  predicate SlotOk(clusterBits: nat, s: Slot)
    requires 9 <= clusterBits < 32
  {
    match s
    case Unallocated => true
    case ReadsAsZero(at) => IsPlace(at)
    case Stored(at) => IsPlace(at) && at > 0
    case Deflated(at, more) => at < Pow2(70 - clusterBits) && more < Pow2(clusterBits - 8)
  }

  /** The entry; the top bit says that the cluster is used once, and does not matter for reading. */
  function EntryOf(clusterBits: nat, s: Slot, used: bool): nat
    requires 9 <= clusterBits < 32
  {
    (if used then 0x8000_0000_0000_0000 else 0) +
    match s
    case Unallocated => 0
    case ReadsAsZero(at) => at + 1
    case Stored(at) => at
    case Deflated(at, more) => 0x4000_0000_0000_0000 + more * Pow2(70 - clusterBits) + at
  }

  /** What is read of it. */
  function SlotCluster(s: Slot): Cluster {
    match s
    case Unallocated => Zero
    case ReadsAsZero(_) => Zero
    case Stored(at) => Plain(at)
    case Deflated(at, more) => Compressed(at, 512 * (1 + more))
  }

  lemma EntryRead(clusterBits: nat, s: Slot, used: bool)
    requires 9 <= clusterBits < 32 && SlotOk(clusterBits, s)
    ensures EntryOf(clusterBits, s, used) < U64 && ClusterOfEntry(clusterBits, EntryOf(clusterBits, s, used)) == SlotCluster(s)
  {
    match s {
      case Unallocated =>
        NotDeflated(0, 0, used);
        PlaceRead(0, used);
      case ReadsAsZero(at) =>
        NotDeflated(at, 1, used);
      case Stored(at) =>
        NotDeflated(at, 0, used);
        PlaceRead(at, used);
      case Deflated(at, more) =>
        DeflatedRead(clusterBits, at, more, used);
    }
    hide OffsetBits, Pow2;
  }

  lemma NotDeflated(at: nat, low: nat, used: bool)
    requires IsPlace(at) && low < 2
    ensures var x := at + low + if used then 0x8000_0000_0000_0000 else 0;
      x < U64 && x / 0x4000_0000_0000_0000 % 2 == 0 && x % 2 == low
  {
    var q, x := Quotient(at, 512), at + low + if used then 0x8000_0000_0000_0000 else 0;
    Division(at, 512);
    DivMod(x, 2, 256 * q + if used then 0x4000_0000_0000_0000 else 0);
    DivMod(x, 0x4000_0000_0000_0000, if used then 2 else 0);
  }

  /** An address with flags around it. */
  lemma PlaceRead(at: nat, used: bool)
    requires IsPlace(at)
    ensures var x := at + if used then 0x8000_0000_0000_0000 else 0; OffsetBits(x) == at
  {
    var q := at / 512;
    assert at == 512 * q;
  }

  lemma DeflatedRead(clusterBits: nat, at: nat, more: nat, used: bool)
    requires 9 <= clusterBits < 32 && at < Pow2(70 - clusterBits) && more < Pow2(clusterBits - 8)
    ensures var entry := EntryOf(clusterBits, Deflated(at, more), used);
      && entry < U64 && entry / 0x4000_0000_0000_0000 % 2 == 1
      && entry % Pow2(70 - clusterBits) == at && entry / Pow2(70 - clusterBits) % Pow2(clusterBits - 8) == more
  {
    hide Pow2;
    var a, b := Pow2(70 - clusterBits), Pow2(clusterBits - 8);
    Powers();
    Pow2Sum(70 - clusterBits, clusterBits - 8);
    ThreeParts(a, b, 0x4000_0000_0000_0000, if used then 3 else 1, more, at, EntryOf(clusterBits, Deflated(at, more), used));
  }

  lemma ThreeParts(a: nat, b: nat, w: nat, flags: nat, more: nat, at: nat, entry: nat)
    requires at < a && more < b && w == a * b && entry == flags * w + more * a + at
    ensures w > 0 && entry / w == flags && entry < flags * w + w && entry % a == at && entry / a >= 0 && entry / a % b == more
  {
    MulAssoc(flags, b, a);
    assert b * a == w && entry == (flags * b + more) * a + at;
    Digits(entry, a, b, flags, more, at);
    MulMono(more + 1, b, a);
    NextBlock(more, a);
    DivMod(entry, w, flags);
  }

  /** The cluster with this number is what the slot says: found through an L2 table, or not there for lack of one. */
  ghost predicate Leads(file: seq<byte>, f: Fields, c: nat, s: Slot)
    requires 9 <= f.clusterBits < 32
  {
    var l1, l2 := Quotient(c, Pow2(f.clusterBits - 3)), c % Pow2(f.clusterBits - 3);
    && SlotOk(f.clusterBits, s) && l1 < f.l1Size && f.l1TableOffset + 8 * l1 + 8 <= |file|
    && (TableMissing(file, f.l1TableOffset + 8 * l1, s) || exists table: nat :: InTable(file, f, l1, l2, s, table))
  }

  ghost predicate TableMissing(file: seq<byte>, at: nat, s: Slot)
    requires at + 8 <= |file|
  {
    s == Unallocated && file[at..at + 8] == Be(0, 8)
  }

  ghost predicate InTable(file: seq<byte>, f: Fields, l1: nat, l2: nat, s: Slot, table: nat)
    requires 9 <= f.clusterBits < 32 && f.l1TableOffset + 8 * l1 + 8 <= |file|
  {
    var at := f.l1TableOffset + 8 * l1;
    && IsPlace(table) && table > 0 && table + 8 * l2 + 8 <= |file|
    && (file[at..at + 8] == Be(table, 8) || file[at..at + 8] == Be(table + 0x8000_0000_0000_0000, 8))
    && exists used :: file[table + 8 * l2..table + 8 * l2 + 8] == Be(EntryOf(f.clusterBits, s, used), 8)
  }

  /** A QCOW2 file with these clusters, in whatever order its tables and clusters are. */
  ghost predicate IsFile(file: seq<byte>, f: Fields, slots: seq<Slot>) {
    && f.Fit() && Printed(f) <= file
    && f.magic == [81, 70, 73, 0xfb] && f.version in {2, 3} && f.cryptMethod == 0 && f.l1TableOffset < MAX_SEEK
    && 9 <= f.clusterBits < 32
    && forall c :: 0 <= c < |slots| ==> Leads(file, f, c, slots[c])
  }

  /** What opening a file gives. */
  ghost predicate OpenedDisk(d: Disk) {
    var h := Q.ParseFields(Filled(d.file, 0, Q.HEADER_SIZE));
    d.size == h.size && d.clusterBits == h.clusterBits && d.l1Size == h.l1Size && d.l1Table == Filled(d.file, h.l1TableOffset, 8 * h.l1Size)
  }

  lemma FileOpens(file: seq<byte>, f: Fields, slots: seq<Slot>, d: Disk)
    requires IsFile(file, f, slots) && d.file == file && OpenedDisk(d)
    ensures Q.HeaderError(Q.ParseFields(Filled(file, 0, Q.HEADER_SIZE))) == QCOW_OK
    ensures DiskOk(d) && d.size == f.size && d.clusterBits == f.clusterBits && d.l1Size == f.l1Size
    ensures d.l1Table == Filled(file, f.l1TableOffset, 8 * f.l1Size)
  {
    hide Printed, Leads, Q.ParseFields;
    FieldsRead(f, file);
  }

  lemma StoredNumber(file: seq<byte>, at: nat, v: nat)
    requires at + 8 <= |file| && file[at..at + 8] == Be(v, 8) && v < U64
    ensures Be64(Filled(file, at, 8), 0) == v
  {
    hide Be, FromBe;
    Be8(v);
    assert Filled(file, at, 8)[0..8] == file[at..at + 8];
  }

  lemma TableEntry(d: Disk, at: nat, l1: nat)
    requires d.l1Table == Filled(d.file, at, 8 * d.l1Size) && l1 < d.l1Size
    ensures Be64(d.l1Table, 8 * l1) == Be64(Filled(d.file, at + 8 * l1, 8), 0)
  {
    hide FromBe;
    assert d.l1Table[8 * l1..8 * l1 + 8] == Filled(d.file, at + 8 * l1, 8)[0..8];
  }

  /** Both tables lead to the cluster that was meant. */
  lemma ClusterFound(file: seq<byte>, f: Fields, slots: seq<Slot>, d: Disk, c: nat)
    requires IsFile(file, f, slots) && d.file == file && OpenedDisk(d) && c < |slots|
    ensures DiskOk(d) && d.clusterBits == f.clusterBits
    ensures var l1, l2 := Quotient(c, Pow2(f.clusterBits - 3)), c % Pow2(f.clusterBits - 3);
      l1 < d.l1Size && ClusterAt(d, l1, l2) == SlotCluster(slots[c])
  {
    hide Pow2, Be, Be64, Printed, Filled, EntryOf, ClusterOfEntry, SlotOk, OpenedDisk, OffsetBits, IsPlace;
    FileOpens(file, f, slots, d);
    assert Leads(file, f, c, slots[c]);
    var l1, l2 := Quotient(c, Pow2(f.clusterBits - 3)), c % Pow2(f.clusterBits - 3);
    var at, s := f.l1TableOffset + 8 * l1, slots[c];
    TableEntry(d, f.l1TableOffset, l1);
    if TableMissing(file, at, s) {
      StoredNumber(file, at, 0);
      PlaceZero();
    } else {
      var table: nat :| InTable(file, f, l1, l2, s, table);
      var used :| file[table + 8 * l2..table + 8 * l2 + 8] == Be(EntryOf(f.clusterBits, s, used), 8);
      TableFound(file, at, table);
      EntryRead(f.clusterBits, s, used);
      StoredNumber(file, table + 8 * l2, EntryOf(f.clusterBits, s, used));
    }
  }

  lemma PlaceZero()
    ensures OffsetBits(0) == 0
  {
  }

  lemma TableFound(file: seq<byte>, at: nat, table: nat)
    requires at + 8 <= |file| && IsPlace(table)
    requires file[at..at + 8] == Be(table, 8) || file[at..at + 8] == Be(table + 0x8000_0000_0000_0000, 8)
    ensures OffsetBits(Be64(Filled(file, at, 8), 0)) == table
  {
    hide Be, Be64, Filled;
    var used := file[at..at + 8] != Be(table, 8);
    StoredNumber(file, at, table + if used then 0x8000_0000_0000_0000 else 0);
    PlaceRead(table, used);
  }

  /** Byte ofs of such a cluster. */
  function SlotCell(file: seq<byte>, inflate: seq<byte> -> Option<nat -> byte>, s: Slot, ofs: nat): Cell<QcowError> {
    match s
    case Unallocated => Byte(0)
    case ReadsAsZero(_) => Byte(0)
    case Stored(at) => Byte(if at + ofs < |file| then file[at + ofs] else 0)
    case Deflated(at, more) =>
      match inflate(Filled(file, at, 512 * (1 + more)))
      case None => Fails(QCOW_UNABLE_TO_DECOMPRESS_CLUSTER)
      case Some(buffer) => Byte(buffer(ofs))
  }

  /** Every byte of the disk is that of its cluster. */
  lemma FileCell(file: seq<byte>, f: Fields, slots: seq<Slot>, d: Disk, c: nat, ofs: nat)
    requires IsFile(file, f, slots) && d.file == file && OpenedDisk(d) && c < |slots| && ofs < Pow2(f.clusterBits)
    ensures DiskOk(d) && c * Pow2(f.clusterBits) + ofs >= 0
    ensures Cells(d)(c * Pow2(f.clusterBits) + ofs) == SlotCell(file, d.inflate, slots[c], ofs)
  {
    hide Pow2, IsFile, OpenedDisk, ClusterAt, L1OffsetFromAddress, L2OffsetFromAddress, ClusterOffsetFromAddress;
    ClusterFound(file, f, slots, d, c);
    var l1, l2 := Quotient(c, Pow2(f.clusterBits - 3)), c % Pow2(f.clusterBits - 3);
    Division(c, Pow2(f.clusterBits - 3));
    JoinAddress(f.clusterBits, f.clusterBits - 3, l1, l2, ofs);
    assert Address(f.clusterBits, f.clusterBits - 3, l1, l2, ofs) == c * Pow2(f.clusterBits) + ofs;
  }

  /** Opening any such file and reading clusters that inflate, or need not, gets their bytes. */
  method OpenRead(file: seq<byte>, inflate: seq<byte> -> Option<nat -> byte>, ghost f: Fields, ghost slots: seq<Slot>,
                  p_buf: array<byte>, seek: nat, count: nat) returns (openRc: QcowError, rc: QcowError, read: nat)
    requires IsFile(file, f, slots) && 0 < count < U32 && count <= p_buf.Length
    requires seek + count <= f.size && seek + count <= |slots| * Pow2(f.clusterBits)
    requires forall c: nat, ofs: nat :: c < |slots| ==> SlotCell(file, inflate, slots[c], ofs).Byte?
    modifies p_buf
    ensures openRc == QCOW_OK && rc == QCOW_OK && read == count
    ensures forall j: nat :: j < count ==> DiskByte(file, inflate, f, slots, seek + j, p_buf[j])
    ensures p_buf[count..] == old(p_buf[count..])
  {
    hide IsFile, Available, Stretch, Cells, OpenedDisk, Outcome, Pow2, SlotCell, DiskByte;
    rc, read := QCOW_OK, 0;
    var qcow := new Q.Qcow(file, inflate);
    openRc := qcow.Open();
    IsOpened(qcow, f, slots);
    FileOpens(file, f, slots, qcow.D());
    if openRc != QCOW_OK {
      return;
    }
    AllCells(file, f, slots, qcow.D(), seek, count);
    DivMod(count, U32, 0);
    ghost var k, before := 0, p_buf[..];
    rc, read, k := qcow.Read(p_buf, seek, count);
    WholeRead(qcow.D(), seek, count, k, rc, before, p_buf[..]);
    forall j: nat | j < count
      ensures DiskByte(file, inflate, f, slots, seek + j, p_buf[j])
    {
      assert Cells(qcow.D())(seek + j) == Byte(p_buf[..][j]);
      SameByte(qcow.D(), file, inflate, f, slots, seek + j, p_buf[j]);
    }
  }

  /** Position p of the disk has byte b. */
  ghost predicate DiskByte(file: seq<byte>, inflate: seq<byte> -> Option<nat -> byte>, f: Fields, slots: seq<Slot>, p: nat, b: byte) {
    var c: nat := Quotient(p, Pow2(f.clusterBits));
    c < |slots| && SlotCell(file, inflate, slots[c], p % Pow2(f.clusterBits)) == Byte(b)
  }

  lemma SameByte(d: Disk, file: seq<byte>, inflate: seq<byte> -> Option<nat -> byte>, f: Fields, slots: seq<Slot>, p: nat, b: byte)
    requires DiskOk(d) && Cells(d)(p) == Byte(b) && exists x: byte :: Cells(d)(p) == Byte(x) && DiskByte(file, inflate, f, slots, p, x)
    ensures DiskByte(file, inflate, f, slots, p, b)
  {
    hide Cells, DiskByte;
  }

  lemma IsOpened(q: Q.Qcow, f: Fields, slots: seq<Slot>)
    requires IsFile(q.file, f, slots) && q.header == Q.ParseFields(Filled(q.file, 0, Q.HEADER_SIZE))
    requires Q.HeaderError(q.header) == QCOW_OK ==> q.l1Table == Filled(q.file, q.header.l1TableOffset, 8 * q.header.l1Size)
    ensures OpenedDisk(q.D()) && q.header.size == f.size && q.header.clusterBits == f.clusterBits && f.size < U64 && 9 <= f.clusterBits < 32
  {
    hide Leads, Printed, Q.ParseFields;
    FieldsRead(f, q.file);
  }

  lemma AllCells(file: seq<byte>, f: Fields, slots: seq<Slot>, d: Disk, seek: nat, count: nat)
    requires IsFile(file, f, slots) && d.file == file && OpenedDisk(d) && seek + count <= |slots| * Pow2(f.clusterBits)
    requires forall c: nat, ofs: nat :: c < |slots| ==> SlotCell(file, d.inflate, slots[c], ofs).Byte?
    ensures DiskOk(d)
    ensures forall p: nat :: seek <= p < seek + count ==> Cells(d)(p).Byte? && DiskByte(file, d.inflate, f, slots, p, Cells(d)(p).value)
  {
    FileOpens(file, f, slots, d);
    hide IsFile, OpenedDisk, Cells, Pow2, SlotCell, DiskOk;
    forall p: nat | seek <= p < seek + count
      ensures Cells(d)(p).Byte? && DiskByte(file, d.inflate, f, slots, p, Cells(d)(p).value)
    {
      OneCell(file, f, slots, d, p);
    }
  }

  lemma OneCell(file: seq<byte>, f: Fields, slots: seq<Slot>, d: Disk, p: nat)
    requires IsFile(file, f, slots) && d.file == file && OpenedDisk(d) && p < |slots| * Pow2(f.clusterBits)
    requires forall c: nat, ofs: nat :: c < |slots| ==> SlotCell(file, d.inflate, slots[c], ofs).Byte?
    ensures DiskOk(d) && Cells(d)(p).Byte? && DiskByte(file, d.inflate, f, slots, p, Cells(d)(p).value)
  {
    hide IsFile, OpenedDisk, Cells, Pow2, SlotCell, DiskOk;
    var c: nat := Quotient(p, Pow2(f.clusterBits));
    DivMod(p, Pow2(f.clusterBits), c);
    MulCancel(c, |slots|, Pow2(f.clusterBits));
    FileCell(file, f, slots, d, c, p % Pow2(f.clusterBits));
  }

  lemma WholeRead(d: Disk, seek: nat, n: nat, k: nat, rc: QcowError, before: seq<byte>, after: seq<byte>)
    requires DiskOk(d) && Outcome(Cells(d), QCOW_OK, seek, n, k, rc) && Copied(Cells(d), seek, k, before, after) && n <= |before|
    requires forall p: nat :: seek <= p < seek + n ==> Cells(d)(p).Byte?
    ensures rc == QCOW_OK && k == n && |after| == |before| && after[n..] == before[n..]
    ensures forall j: nat :: j < n ==> Cells(d)(seek + j) == Byte(after[j])
  {
    hide Cells, DiskOk;
    AllRead(Cells(d), QCOW_OK, seek, n);
    OutcomeUnique(Cells(d), QCOW_OK, seek, n, k, rc, n, QCOW_OK);
    forall j: nat | j < n
      ensures Cells(d)(seek + j) == Byte(after[j])
    {
      assert Stretch(Cells(d), seek, n)[j] == after[j];
      assert Cells(d)(seek + j).Byte?;
    }
  }
}
