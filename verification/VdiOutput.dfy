/** Building the VDI header that xmount puts in front of the image. */
module VdiOutput {
  import opened Bytes
  import opened HeaderBuilder
  import opened VdiFormat

  /** strncpy with the text's terminating zero, into a field of n bytes. */
  method PutText(hdr: array<byte>, at: nat, text: seq<byte>, ghost n: nat, ghost done: seq<byte>)
    requires BuiltTo(hdr[..], done) && at == |done| && |text| < n && at + n <= hdr.Length
    modifies hdr
    ensures BuiltTo(hdr[..], done + Padded(text, n))
  {
    Put(hdr, at, text, done);
    BuiltZeros(hdr[..], done + text, n - |text|);
    assert done + text + Zeros(n - |text|) == done + Padded(text, n);
  }

  method PutPreheader(hdr: array<byte>, c: Labels)
    requires LabelsOk(c) && BuiltTo(hdr[..], []) && hdr.Length >= FILE_HEADER_SIZE
    modifies hdr
    ensures BuiltTo(hdr[..], Preheader(c))
  {
    hide BuiltTo, Le, Padded;
    PutText(hdr, 0, c.fileInfo, 64, []);
    ghost var p := [] + Padded(c.fileInfo, 64);
    Put(hdr, 64, Le(VDI_IMAGE_SIGNATURE, 4), p);
    p := p + Le(VDI_IMAGE_SIGNATURE, 4);
    Put(hdr, 68, Le(VDI_IMAGE_VERSION, 4), p);
    p := p + Le(VDI_IMAGE_VERSION, 4);
    Put(hdr, 72, Le(0x180, 4), p);
    p := p + Le(0x180, 4);
    Put(hdr, 76, Le(VDI_IMAGE_TYPE_FIXED, 4), p);
    p := p + Le(VDI_IMAGE_TYPE_FIXED, 4);
    Put(hdr, 80, Le(VDI_IMAGE_FLAGS, 4), p);
    assert [] + Padded(c.fileInfo, 64) == Padded(c.fileInfo, 64);
  }

  /** offData is stored before offBlocks, which lies in front of it. */
  method PutOffsets(hdr: array<byte>, size: nat, ghost done: seq<byte>)
    requires BuiltTo(hdr[..], done) && |done| == 340 && hdr.Length >= FILE_HEADER_SIZE
    modifies hdr
    ensures BuiltTo(hdr[..], done + Offsets(size))
  {
    hide BuiltTo, Le, Legacy, HeaderSize;
    PutDataAndMap(hdr, size, done);
    PutLegacy(hdr, done + Le(FILE_HEADER_SIZE, 4) + Le(HeaderSize(size), 4));
    assert done + Le(FILE_HEADER_SIZE, 4) + Le(HeaderSize(size), 4) + Legacy() == done + Offsets(size);
  }

  method PutLegacy(hdr: array<byte>, ghost done: seq<byte>)
    requires BuiltTo(hdr[..], done) && |done| == 348 && hdr.Length >= FILE_HEADER_SIZE
    modifies hdr
    ensures BuiltTo(hdr[..], done + Legacy())
  {
    hide BuiltTo, Le;
    ghost var p := done;
    Put(hdr, 348, Le(0, 4), p);
    p := p + Le(0, 4);
    Put(hdr, 352, Le(0, 4), p);
    p := p + Le(0, 4);
    Put(hdr, 356, Le(0, 4), p);
    p := p + Le(0, 4);
    Put(hdr, 360, Le(512, 4), p);
    p := p + Le(512, 4);
    Put(hdr, 364, Le(0, 4), p);
    assert p + Le(0, 4) == done + Legacy();
  }

  method PutDataAndMap(hdr: array<byte>, size: nat, ghost done: seq<byte>)
    requires BuiltTo(hdr[..], done) && |done| == 340 && hdr.Length >= FILE_HEADER_SIZE
    modifies hdr
    ensures BuiltTo(hdr[..], done + Le(FILE_HEADER_SIZE, 4) + Le(HeaderSize(size), 4))
  {
    hide Le, HeaderSize;
    ghost var h := hdr[..];
    Memcpy(hdr, 344, Le(HeaderSize(size), 4));
    Memcpy(hdr, 340, Le(FILE_HEADER_SIZE, 4));
    TwoFields(h, done, Le(FILE_HEADER_SIZE, 4), Le(HeaderSize(size), 4));
  }

  lemma TwoFields(h: seq<byte>, done: seq<byte>, a: seq<byte>, b: seq<byte>)
    requires BuiltTo(h, done) && |done| + |a| + |b| <= |h|
    ensures BuiltTo(Splice(Splice(h, |done| + |a|, b), |done|, a), done + a + b)
  {
  }

  method PutGeometry(hdr: array<byte>, size: nat, ghost done: seq<byte>)
    requires BuiltTo(hdr[..], done) && |done| == 368 && hdr.Length >= FILE_HEADER_SIZE
    modifies hdr
    ensures BuiltTo(hdr[..], done + Geometry(size))
  {
    hide BuiltTo, Le, BlockCount;
    var n := BlockCount(size);
    ghost var p := done;
    Put(hdr, 368, Le(size, 8), p);
    p := p + Le(size, 8);
    Put(hdr, 376, Le(VDI_IMAGE_BLOCK_SIZE, 4), p);
    p := p + Le(VDI_IMAGE_BLOCK_SIZE, 4);
    Put(hdr, 380, Le(0, 4), p);
    p := p + Le(0, 4);
    Put(hdr, 384, Le(n, 4), p);
    p := p + Le(n, 4);
    Put(hdr, 388, Le(n, 4), p);
    assert p + Le(n, 4) == done + Geometry(size);
  }

  method PutUuids(hdr: array<byte>, c: Labels, ghost done: seq<byte>)
    requires BuiltTo(hdr[..], done) && |done| == 392 && hdr.Length >= FILE_HEADER_SIZE
    modifies hdr
    ensures BuiltTo(hdr[..], done + Uuids(c))
  {
    hide BuiltTo, Le;
    ghost var p := done;
    Put(hdr, 392, Le(c.createLow, 8), p);
    p := p + Le(c.createLow, 8);
    Put(hdr, 400, Le(c.createHigh, 8), p);
    p := p + Le(c.createHigh, 8);
    Put(hdr, 408, Le(c.modifyLow, 8), p);
    p := p + Le(c.modifyLow, 8);
    Put(hdr, 416, Le(c.modifyHigh, 8), p);
    p := p + Le(c.modifyHigh, 8);
    BuiltZeros(hdr[..], p, 88);
    assert p + Zeros(88) == done + Uuids(c);
  }

  /** The loop over the block map. */
  method PutBlockMap(hdr: array<byte>, n: nat, ghost done: seq<byte>)
    requires BuiltTo(hdr[..], done) && |done| == FILE_HEADER_SIZE && hdr.Length == FILE_HEADER_SIZE + 4 * n
    modifies hdr
    ensures BuiltTo(hdr[..], done + BlockMap(n))
  {
    hide BuiltTo, Le;
    var i, offset := 0, 0;
    assert done + BlockMap(0) == done;
    while offset < 4 * n
      invariant offset == 4 * i && i <= n
      invariant BuiltTo(hdr[..], done + BlockMap(i))
    {
      Put(hdr, FILE_HEADER_SIZE + offset, Le(i, 4), done + BlockMap(i));
      assert done + BlockMap(i) + Le(i, 4) == done + BlockMap(i + 1);
      i, offset := i + 1, offset + 4;
    }
  }

  /** InitVirtVdiHeader, for a morphed image of this size. */
  method InitVirtVdiHeader(imageSize: nat, c: Labels) returns (hdr: array<byte>)
    requires LabelsOk(c) && SizeFits(imageSize)
    ensures fresh(hdr) && hdr[..] == EmittedHeader(c, imageSize)
  {
    hide Preheader, Offsets, Geometry, Uuids, BlockMap;
    var blockEntries := imageSize / VDI_IMAGE_BLOCK_SIZE;
    if imageSize % VDI_IMAGE_BLOCK_SIZE != 0 {
      blockEntries := blockEntries + 1;
    }
    hdr := new byte[FILE_HEADER_SIZE + 4 * blockEntries](i => 0);
    hide BuiltTo, Padded;
    StillZero(hdr[..]);
    PutPreheader(hdr, c);
    ghost var p := Preheader(c);
    PutText(hdr, 84, c.comment, 256, p);
    p := p + Padded(c.comment, 256);
    PutOffsets(hdr, imageSize, p);
    p := p + Offsets(imageSize);
    PutGeometry(hdr, imageSize, p);
    p := p + Geometry(imageSize);
    PutUuids(hdr, c, p);
    p := p + Uuids(c);
    PutBlockMap(hdr, blockEntries, p);
    AllBuilt(hdr[..], p + BlockMap(blockEntries));
  }
}
