/** QCOW2 files: splitting an address into table indexes, and looking up a byte through the tables. */
module QcowFormat {
  import opened Bytes
  import opened Lookup

  datatype QcowError =
    | QCOW_OK
    | QCOW_BAD_MAGIC_HEADER
    | QCOW_BAD_VERSION
    | QCOW_UNSUPPORTED_ENCRYPTION
    | QCOW_CANNOT_SEEK
    | QCOW_UNABLE_TO_DECOMPRESS_CLUSTER
    | QCOW_READ_BEYOND_END_OF_IMAGE
    | QCOW_BAD_L1_OFFSET

  function Pow2(n: nat): (p: nat)
    ensures p > 0
  {
    if n == 0 then 1 else 2 * Pow2(n - 1)
  }

  lemma {:induction false} Pow2Sum(a: nat, b: nat)
    ensures Pow2(a + b) == Pow2(a) * Pow2(b)
  {
    if b > 0 {
      Pow2Sum(a, b - 1);
    }
  }

  lemma Product(a: nat, b: nat, x: nat, y: nat, z: nat)
    requires Pow2(a) == x && Pow2(b) == y && z == x * y
    ensures Pow2(a + b) == z
  {
    hide Pow2;
    Pow2Sum(a, b);
  }

  lemma SmallPowers()
    ensures Pow2(1) == 2 && Pow2(4) == 16 && Pow2(5) == 32
  {
    assert Pow2(2) == 4 && Pow2(3) == 8;
  }

  /** The powers of two that occur. */
  lemma Powers()
    ensures Pow2(1) == 2 && Pow2(9) == 512 && Pow2(31) == 0x8000_0000
    ensures Pow2(47) == 0x8000_0000_0000 && Pow2(62) == 0x4000_0000_0000_0000
  {
    hide Pow2;
    SmallPowers();
    Product(5, 4, 32, 16, 512);
    Product(5, 5, 32, 32, 1024);
    Product(10, 5, 1024, 32, 0x8000);
    Product(15, 15, 0x8000, 0x8000, 0x4000_0000);
    Product(30, 1, 0x4000_0000, 2, 0x8000_0000);
    Product(31, 15, 0x8000_0000, 0x8000, 0x4000_0000_0000);
    Product(46, 1, 0x4000_0000_0000, 2, 0x8000_0000_0000);
    Product(47, 15, 0x8000_0000_0000, 0x8000, 0x4000_0000_0000_0000);
  }

  /** x >> n */
  function Shr(x: nat, n: nat): nat {
    Quotient(x, Pow2(n))
  }

  // ----- addresses -----

  /** Address & (ClusterSize - 1), for the power of two that ClusterSize is. */
  function ClusterOffsetFromAddress(clusterBits: nat, address: nat): nat {
    address % Pow2(clusterBits)
  }

  /** (Address >> ClusterBits) & (L2Size - 1) */
  function L2OffsetFromAddress(clusterBits: nat, l2Bits: nat, address: nat): nat {
    Shr(address, clusterBits) % Pow2(l2Bits)
  }

  /** Address >> (ClusterBits + L2Bits) */
  function L1OffsetFromAddress(clusterBits: nat, l2Bits: nat, address: nat): nat {
    Shr(address, clusterBits + l2Bits)
  }

  /** The address that the three parts make up. */
  function Address(clusterBits: nat, l2Bits: nat, l1: nat, l2: nat, ofs: nat): nat {
    (l1 * Pow2(l2Bits) + l2) * Pow2(clusterBits) + ofs
  }

  /** A quotient of a quotient. */
  lemma DivDiv(x: nat, a: nat, b: nat)
    requires a > 0 && b > 0
    ensures a * b > 0 && x / (a * b) == x / a / b
  {
    var q, c := x / a, x / a / b;
    DivMod(x, a, q);
    DivMod(q, b, c);
    assert c * (a * b) == (c * b) * a;
    MulMono(c * b, q, a);
    MulMono(q + 1, c * b + b, a);
    assert (c * b + b) * a == c * (a * b) + a * b;
    assert (q + 1) * a == q * a + a;
    DivMod(x, a * b, c);
  }

  /** The parts of an address recombine to it, and are in bounds. */
  lemma SplitAddress(clusterBits: nat, l2Bits: nat, address: nat)
    ensures var l1, l2, ofs := L1OffsetFromAddress(clusterBits, l2Bits, address), L2OffsetFromAddress(clusterBits, l2Bits, address),
                               ClusterOffsetFromAddress(clusterBits, address);
      Address(clusterBits, l2Bits, l1, l2, ofs) == address && l2 < Pow2(l2Bits) && ofs < Pow2(clusterBits)
    ensures L1OffsetFromAddress(clusterBits, l2Bits, address) == address / Pow2(clusterBits) / Pow2(l2Bits)
  {
    Pow2Sum(clusterBits, l2Bits);
    DivDiv(address, Pow2(clusterBits), Pow2(l2Bits));
    Division(address, Pow2(clusterBits));
    Division(address / Pow2(clusterBits), Pow2(l2Bits));
  }

  /** Parts in bounds are the parts of the address that they make up. */
  lemma JoinAddress(clusterBits: nat, l2Bits: nat, l1: nat, l2: nat, ofs: nat)
    requires l2 < Pow2(l2Bits) && ofs < Pow2(clusterBits)
    ensures var address := Address(clusterBits, l2Bits, l1, l2, ofs);
      && L1OffsetFromAddress(clusterBits, l2Bits, address) == l1
      && L2OffsetFromAddress(clusterBits, l2Bits, address) == l2
      && ClusterOffsetFromAddress(clusterBits, address) == ofs
  {
    hide Pow2;
    var address := Address(clusterBits, l2Bits, l1, l2, ofs);
    Digits(address, Pow2(clusterBits), Pow2(l2Bits), l1, l2, ofs);
    SplitAddress(clusterBits, l2Bits, address);
  }

  /** An address further on in the same cluster has the same table indexes. */
  lemma SameCluster(clusterBits: nat, l2Bits: nat, address: nat, i: nat)
    requires ClusterOffsetFromAddress(clusterBits, address) + i < Pow2(clusterBits)
    ensures L1OffsetFromAddress(clusterBits, l2Bits, address + i) == L1OffsetFromAddress(clusterBits, l2Bits, address)
    ensures L2OffsetFromAddress(clusterBits, l2Bits, address + i) == L2OffsetFromAddress(clusterBits, l2Bits, address)
    ensures ClusterOffsetFromAddress(clusterBits, address + i) == ClusterOffsetFromAddress(clusterBits, address) + i
  {
    SplitAddress(clusterBits, l2Bits, address);
    SplitAddress(clusterBits, l2Bits, address + i);
    Division(address, Pow2(clusterBits));
    DivMod(address + i, Pow2(clusterBits), address / Pow2(clusterBits));
  }

  // ----- clusters -----

  function FileByte(file: seq<byte>, at: nat): byte {
    if at < |file| then file[at] else 0
  }

  /** n bytes of the file, zeros where it has ended. */
  function Filled(file: seq<byte>, at: nat, n: nat): (s: seq<byte>)
    ensures |s| == n && forall i :: 0 <= i < n ==> s[i] == FileByte(file, at + i)
  {
    seq<byte>(n, i requires 0 <= i => FileByte(file, at + i))
  }

  function Be32(s: seq<byte>, at: nat): nat
    requires at + 4 <= |s|
  {
    FromBe(s[at..at + 4])
  }

  function Be64(s: seq<byte>, at: nat): nat
    requires at + 8 <= |s|
  {
    FromBe(s[at..at + 8])
  }

  /** x & 0x00fffffffffffe00 */
  function OffsetBits(x: nat): nat {
    x % 0x100_0000_0000_0000 / 512 * 512
  }

  /** What an opened file is made of. The inflate function gives the contents of its output buffer, or None if it fails. */
  datatype Disk = Disk(file: seq<byte>, size: nat, clusterBits: nat, l1Size: nat, l1Table: seq<byte>, inflate: seq<byte> -> Option<nat -> byte>)

  /** Cluster sizes from 512 bytes, the smallest the format has, up to what 32-bit counts can express. */
  ghost predicate DiskOk(d: Disk) {
    9 <= d.clusterBits < 32 && |d.l1Table| == 8 * d.l1Size
  }

  datatype Cluster = Zero | Plain(at: nat) | Compressed(at: nat, len: nat)

  /** What an entry of an L2 table says: bit 62 marks a compressed cluster, bit 0 one that reads as zeros. */
  function ClusterOfEntry(clusterBits: nat, entry: nat): Cluster
    requires 9 <= clusterBits < 32
  {
    if entry / 0x4000_0000_0000_0000 % 2 == 1 then
      var addressBits := 70 - clusterBits;
      Compressed(entry % Pow2(addressBits), 512 * (1 + entry / Pow2(addressBits) % Pow2(clusterBits - 8)))
    else if entry % 2 == 1 || OffsetBits(entry) == 0 then Zero
    else Plain(OffsetBits(entry))
  }

  /** The cluster at a place of the L1 and L2 tables. */
  function ClusterAt(d: Disk, l1: nat, l2: nat): Cluster
    requires DiskOk(d) && l1 < d.l1Size
  {
    var table := OffsetBits(Be64(d.l1Table, 8 * l1));
    if table == 0 then Zero else ClusterOfEntry(d.clusterBits, Be64(Filled(d.file, table + 8 * l2, 8), 0))
  }

  function ByteOf(d: Disk, cluster: Cluster, ofs: nat): Cell<QcowError> {
    match cluster
    case Zero => Byte(0)
    case Plain(at) => Byte(FileByte(d.file, at + ofs))
    case Compressed(at, len) =>
      match d.inflate(Filled(d.file, at, len))
      case None => Fails(QCOW_UNABLE_TO_DECOMPRESS_CLUSTER)
      case Some(buffer) => Byte(buffer(ofs))
  }

  /** The byte at an address of the disk, looked up through both tables. */
  function CellAt(d: Disk, address: nat): Cell<QcowError>
    requires DiskOk(d)
  {
    var l1, l2 := L1OffsetFromAddress(d.clusterBits, d.clusterBits - 3, address), L2OffsetFromAddress(d.clusterBits, d.clusterBits - 3, address);
    if l1 >= d.l1Size then Fails(QCOW_BAD_L1_OFFSET)
    else ByteOf(d, ClusterAt(d, l1, l2), ClusterOffsetFromAddress(d.clusterBits, address))
  }

  function Cells(d: Disk): nat -> Cell<QcowError>
    requires DiskOk(d)
  {
    (address: nat) => CellAt(d, address)
  }

  /** The bytes of a piece of one cluster. */
  lemma PieceCells(d: Disk, address: nat, i: nat)
    requires DiskOk(d) && ClusterOffsetFromAddress(d.clusterBits, address) + i < Pow2(d.clusterBits)
    ensures var l1, l2, ofs := L1OffsetFromAddress(d.clusterBits, d.clusterBits - 3, address), L2OffsetFromAddress(d.clusterBits, d.clusterBits - 3, address),
                               ClusterOffsetFromAddress(d.clusterBits, address);
      Cells(d)(address + i) == if l1 >= d.l1Size then Fails(QCOW_BAD_L1_OFFSET) else ByteOf(d, ClusterAt(d, l1, l2), ofs + i)
  {
    hide ByteOf, ClusterAt, L1OffsetFromAddress, L2OffsetFromAddress, ClusterOffsetFromAddress;
    SameCluster(d.clusterBits, d.clusterBits - 3, address, i);
  }
}
