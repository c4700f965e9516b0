/** What xmount emits as a VDI file, its own VDI reader reads back. */
module VdiRoundTrip {
  import opened Bytes
  import opened CacheLayout
  import opened VirtImage
  import F = VdiFormat
  import O = VdiOutput
  import I = VdiInput
  import opened Lookup

  /** The file: an emitted header and the bytes of the disk. */
  ghost predicate Emitted(c: F.Labels, file: seq<byte>, data: seq<byte>) {
    F.LabelsOk(c) && F.SizeFits(|data|) && file == F.EmittedHeader(c, |data|) + data && |file| < MAX_SEEK
  }

  /** The reader opens every emitted file, except that of an empty disk, whose block map it cannot read. */
  lemma EmittedOpens(c: F.Labels, file: seq<byte>, data: seq<byte>)
    requires Emitted(c, file, data)
    ensures I.OpenError(file) == if data == [] then I.VDI_CANNOT_READ_DATA else I.VDI_OK
  {
    hide F.EmittedHeader, F.ParseFields;
    F.EmittedFields(c, |data|, file);
    F.Shorter(file, F.READ_HEADER_SIZE);
    DivMod(|data|, F.VDI_IMAGE_BLOCK_SIZE, |data| / F.VDI_IMAGE_BLOCK_SIZE);
  }

  /** The block map is the identity. */
  lemma IdentityMap(c: F.Labels, d: I.Disk, data: seq<byte>)
    requires Emitted(c, d.file, data) && I.OpenedDisk(d)
    ensures d.header.blockSize == F.VDI_IMAGE_BLOCK_SIZE && d.header.offsetData == F.HeaderSize(|data|) && d.header.diskSize == |data|
    ensures |d.bmap| == F.BlockCount(|data|) && forall i :: 0 <= i < |d.bmap| ==> d.bmap[i] == i
  {
    hide F.EmittedHeader, F.ParseFields;
    F.EmittedFields(c, |data|, d.file);
    F.Shorter(d.file, F.READ_HEADER_SIZE);
    forall i | 0 <= i < |d.bmap|
      ensures d.bmap[i] == i
    {
      F.EmittedMapEntry(c, |data|, d.file, i);
    }
  }

  lemma EmittedByte(c: F.Labels, d: I.Disk, data: seq<byte>, p: nat)
    requires Emitted(c, d.file, data) && I.OpenedDisk(d) && p < |data|
    ensures d.header.blockSize > 0 && I.Cells(d)(p) == Byte(data[p])
  {
    hide F.EmittedHeader, F.ParseFields, F.HeaderSize, F.BlockCount, Emitted, I.OpenedDisk, I.CellIn, I.FilePosition;
    IdentityMap(c, d, data);
    var block, ofs := p / F.VDI_IMAGE_BLOCK_SIZE, p % F.VDI_IMAGE_BLOCK_SIZE;
    EmittedSizes(c, d.file, data, block);
    SliceRight(F.EmittedHeader(c, |data|), data, p, p + 1);
    assert d.file[F.HeaderSize(|data|) + p] == data[p];
    InIdentityBlock(d, block, ofs, F.HeaderSize(|data|) + p);
  }

  lemma InIdentityBlock(d: I.Disk, block: nat, ofs: nat, at: nat)
    requires block < |d.bmap| && d.bmap[block] == block < 0xffff_fffe
    requires at == d.header.offsetData + block * d.header.blockSize + ofs && at < |d.file| < MAX_SEEK
    ensures I.CellIn(d, block, ofs) == Byte(d.file[at])
  {
  }

  lemma EmittedSizes(c: F.Labels, file: seq<byte>, data: seq<byte>, block: nat)
    requires Emitted(c, file, data) && block * F.VDI_IMAGE_BLOCK_SIZE < |data|
    ensures block < F.BlockCount(|data|) && block < 0xffff_fffe
    ensures F.LabelsOk(c) && file == F.EmittedHeader(c, |data|) + data && |F.EmittedHeader(c, |data|)| == F.HeaderSize(|data|) && |file| < MAX_SEEK
  {
    var q := |data| / F.VDI_IMAGE_BLOCK_SIZE;
    DivMod(|data|, F.VDI_IMAGE_BLOCK_SIZE, q);
  }

  /** Looking up any stretch of the disk through the emitted header and block map gives the bytes of the disk. */
  lemma EmittedStretch(c: F.Labels, d: I.Disk, data: seq<byte>, seek: nat, n: nat)
    requires Emitted(c, d.file, data) && I.OpenedDisk(d) && seek + n <= |data|
    ensures d.header.blockSize > 0 && Available(I.Cells(d), seek, n) && Stretch(I.Cells(d), seek, n) == data[seek..seek + n]
  {
    hide I.Cells, F.ParseFields, Emitted, I.OpenedDisk;
    IdentityMap(c, d, data);
    forall p: nat | seek <= p < seek + n
      ensures I.Cells(d)(p) == Byte(data[p])
    {
      EmittedByte(c, d, data, p);
    }
  }

  /** Building the header for an image, opening the resulting file and reading from it: every request in range gets image bytes. */
  method EmitOpenRead(c: F.Labels, image: seq<byte>, p_buf: array<byte>, seek: nat, count: nat)
    returns (openRc: I.VdiError, rc: I.VdiError, read: nat)
    requires F.LabelsOk(c) && F.SizeFits(|image|) && F.HeaderSize(|image|) + |image| < MAX_SEEK
    requires seek + count <= |image| && 0 < count < U32 && count <= p_buf.Length
    modifies p_buf
    ensures openRc == I.VDI_OK && rc == I.VDI_OK && read == count
    ensures p_buf[..] == Splice(old(p_buf[..]), 0, image[seek..seek + count])
  {
    hide F.SizeFits, F.LabelsOk, F.EmittedHeader, F.ParseFields, F.HeaderSize, Available, Stretch, I.Cells, Splice;
    rc, read := I.VDI_OK, 0;
    var hdr := O.InitVirtVdiHeader(|image|, c);
    var file := hdr[..] + image;
    EmittedOpens(c, file, image);
    var vdi := new I.Vdi(file);
    openRc := vdi.Open();
    if openRc != I.VDI_OK {
      return;
    }
    IdentityMap(c, vdi.D(), image);
    EmittedStretch(c, vdi.D(), image, seek, count);
    DivMod(count, U32, 0);
    ghost var k;
    rc, read, k := vdi.Read(p_buf, seek, count);
    FullOutcome(vdi.D(), seek, count, k, rc);
  }

  lemma FullOutcome(d: I.Disk, seek: nat, n: nat, k: nat, rc: I.VdiError)
    requires Available(I.Cells(d), seek, n) && Outcome(I.Cells(d), I.VDI_OK, seek, n, k, rc)
    ensures k == n && rc == I.VDI_OK
  {
    AllRead(I.Cells(d), I.VDI_OK, seek, n);
    OutcomeUnique(I.Cells(d), I.VDI_OK, seek, n, k, rc, n, I.VDI_OK);
  }

  /** A mounted VDI image whose header was not written to is an emitted file of the data as it is now, writes included. */
  lemma MountedFile(x: Xmount, c: F.Labels)
    requires x.blockSize > 0 && x.kind == VDI && F.LabelsOk(c) && F.SizeFits(|x.image|)
    requires x.vdiHeader == F.EmittedHeader(c, |x.image|) && x.Part(VdiHeader) == x.vdiHeader
    requires |x.View()| < MAX_SEEK
    ensures Emitted(c, x.View(), x.Data())
    ensures forall d: I.Disk, seek: nat, n: nat :: d.file == x.View() && I.OpenedDisk(d) && seek + n <= |x.image| ==>
      Available(I.Cells(d), seek, n) && Stretch(I.Cells(d), seek, n) == x.Data()[seek..seek + n]
  {
    hide Available, Stretch, I.Cells, I.OpenedDisk, F.EmittedHeader;
    forall d: I.Disk, seek: nat, n: nat | d.file == x.View() && I.OpenedDisk(d) && seek + n <= |x.image|
      ensures Available(I.Cells(d), seek, n) && Stretch(I.Cells(d), seek, n) == x.Data()[seek..seek + n]
    {
      EmittedStretch(c, d, x.Data(), seek, n);
    }
  }
}
