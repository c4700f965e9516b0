/** Building the VHD footer that xmount puts behind the image. */
module VhdOutput {
  import opened Bytes
  import opened HeaderBuilder
  import opened VhdFormat

  /** The sectors of the image; above this size, which CHS values cannot address, the most they can. */
  method CountSectors(imageSize: nat) returns (total: nat)
    ensures total == TotalSectors(imageSize)
  {
    if imageSize > 136899993600 {
      total := 267382800;
    } else {
      total := imageSize / 512;
      if imageSize % 512 != 0 {
        total := total + 1;
      }
    }
  }

  /** The geometry, with the number of heads kept in 8 bits and that of cylinders in 16. The cut never shows in the result. */
  method Geometry(total: nat) returns (g: Chs)
    requires total <= MAX_SECTORS
    ensures g == Calculation(total)
  {
    hide Quotient;
    GeometryFits(total);
    var sectors, heads, tracks;
    if total >= 66059280 {
      sectors, heads, tracks := 255, 16, total / 255;
    } else {
      HeadsCut(total);
      sectors, tracks := 17, total / 17;
      heads := (tracks + 1023) / 1024 % 256;
      if heads < 4 {
        heads := 4;
      }
      if tracks >= heads * 1024 || heads > 16 {
        sectors, heads, tracks := 31, 16, total / 31;
      }
      if tracks >= heads * 1024 {
        sectors, heads, tracks := 63, 16, total / 63;
      }
    }
    var cylinders := Quotient(tracks, heads) % 65536;
    g := Chs(cylinders, heads, sectors);
  }

  /** Where cutting the number of heads to 8 bits changes it, there are more tracks than any 8-bit number of heads allows. */
  lemma HeadsCut(total: nat)
    requires total < BIG_SECTORS
    ensures var tracks := total / 17;
      var heads := (tracks + 1023) / 1024;
      heads % 256 == heads || (heads > 16 && tracks >= 255 * 1024 && total / 31 >= 16 * 1024)
  {
  }

  method PutOrigin(hdr: array<byte>, c: Labels)
    requires BuiltTo(hdr[..], []) && hdr.Length == FOOTER_SIZE
    modifies hdr
    ensures BuiltTo(hdr[..], Origin(c))
  {
    hide BuiltTo, Le, Be;
    Put(hdr, 0, Le(COOKIE, 8), []);
    ghost var p := [] + Le(COOKIE, 8);
    Put(hdr, 8, Le(FEATURES, 4), p);
    p := p + Le(FEATURES, 4);
    Put(hdr, 12, Le(FILE_FORMAT_VERSION, 4), p);
    p := p + Le(FILE_FORMAT_VERSION, 4);
    Put(hdr, 16, Le(DATA_OFFSET, 8), p);
    p := p + Le(DATA_OFFSET, 8);
    Put(hdr, 24, Be(c.time, 4), p);
    p := p + Be(c.time, 4);
    Put(hdr, 28, Le(CREATOR_APPLICATION, 4), p);
    p := p + Le(CREATOR_APPLICATION, 4);
    Put(hdr, 32, Le(CREATOR_VERSION, 4), p);
    p := p + Le(CREATOR_VERSION, 4);
    Put(hdr, 36, Le(CREATOR_HOST_OS, 4), p);
    assert [] + Le(COOKIE, 8) == Le(COOKIE, 8);
  }

  method PutShape(hdr: array<byte>, size: nat, g: Chs, ghost done: seq<byte>)
    requires BuiltTo(hdr[..], done) && |done| == 40 && hdr.Length == FOOTER_SIZE
    modifies hdr
    ensures BuiltTo(hdr[..], done + Shape(size, g))
  {
    hide BuiltTo, Le, Be;
    ghost var p := done;
    Put(hdr, 40, Be(size, 8), p);
    p := p + Be(size, 8);
    Put(hdr, 48, Be(size, 8), p);
    p := p + Be(size, 8);
    Put(hdr, 56, Be(g.cylinders, 2), p);
    p := p + Be(g.cylinders, 2);
    Put(hdr, 58, [g.heads % 256], p);
    p := p + [g.heads % 256];
    Put(hdr, 59, [g.sectorsPerTrack % 256], p);
    p := p + [g.sectorsPerTrack % 256];
    Put(hdr, 60, Le(DISK_TYPE, 4), p);
    assert p + Le(DISK_TYPE, 4) == done + Shape(size, g);
  }

  method PutRest(hdr: array<byte>, c: Labels, ghost done: seq<byte>)
    requires BuiltTo(hdr[..], done) && |done| == 68 && hdr.Length == FOOTER_SIZE
    modifies hdr
    ensures BuiltTo(hdr[..], done + Rest(c))
  {
    hide BuiltTo, Le;
    ghost var p := done;
    Put(hdr, 68, Le(c.uuidLow, 8), p);
    p := p + Le(c.uuidLow, 8);
    Put(hdr, 76, Le(c.uuidHigh, 8), p);
    p := p + Le(c.uuidHigh, 8);
    BuiltZeros(hdr[..], p, 428);
    assert p + Zeros(428) == done + Rest(c);
  }

  /** The loop that adds up the bytes, in 32 bits. */
  method AddBytes(hdr: array<byte>) returns (checksum: nat)
    ensures checksum == Sum(hdr[..]) % U32
  {
    checksum := 0;
    for i := 0 to hdr.Length
      invariant checksum == Sum(hdr[..i]) % U32
    {
      assert hdr[..i + 1][..i] == hdr[..i];
      checksum := (checksum + hdr[i]) % U32;
    }
    assert hdr[..hdr.Length] == hdr[..];
  }

  /** InitVirtVhdHeader, for a morphed image of this size. */
  method InitVirtVhdHeader(imageSize: nat, c: Labels) returns (hdr: array<byte>)
    requires imageSize < U64
    ensures fresh(hdr) && hdr[..] == EmittedFooter(c, imageSize)
  {
    hide Origin, Shape, Rest, BuiltTo, Calculation, Sum, Be;
    var total := CountSectors(imageSize);
    var g := Geometry(total);
    hdr := new byte[FOOTER_SIZE](i => 0);
    StillZero(hdr[..]);
    PutOrigin(hdr, c);
    ghost var p := Origin(c);
    PutShape(hdr, imageSize, g, p);
    p := p + Shape(imageSize, g);
    BuiltZeros(hdr[..], p, 4);
    p := p + Zeros(4);
    PutRest(hdr, c, p);
    AllBuilt(hdr[..], p + Rest(c));
    var checksum := AddBytes(hdr);
    ghost var before := hdr[..];
    Memcpy(hdr, 64, Be(U32 - 1 - checksum, 4));
    Replace(Origin(c) + Shape(imageSize, g), Zeros(4), Be(U32 - 1 - checksum, 4), Rest(c));
  }

  lemma Replace(a: seq<byte>, b: seq<byte>, b': seq<byte>, c: seq<byte>)
    requires |b'| == |b|
    ensures Splice(a + b + c, |a|, b') == a + b' + c
  {
  }
}
