/** The VHD footer: its geometry, its fields and its checksum. */
module VhdFormat {
  import opened Bytes

  // ----- cylinders, heads and sectors -----

  datatype Chs = Chs(cylinders: nat, heads: nat, sectorsPerTrack: nat)

  const MAX_SECTORS := 65535 * 16 * 255
  const BIG_SECTORS := 65535 * 16 * 63

  /** The image's sectors, as many as the geometry can express. */
  function TotalSectors(size: nat): (total: nat)
    ensures total <= MAX_SECTORS
  {
    var sectors := size / 512 + if size % 512 != 0 then 1 else 0;
    Min(sectors, MAX_SECTORS)
  }

  /** They are just enough for the image, unless they are the limit of 65535 * 16 * 255. */
  lemma SectorsJustEnough(size: nat)
    ensures var total := TotalSectors(size);
      && total <= 267382800
      && (total < 267382800 ==> size <= 512 * total)
      && (total > 0 ==> 512 * (total - 1) < size)
  {
  }

  /** "Appendix: CHS Calculation" of the Virtual Hard Disk Image Format Specification, on unbounded numbers. */
  function Calculation(total: nat): Chs {
    if total >= BIG_SECTORS then Chs(Quotient(total / 255, 16), 16, 255)
    else
      var cylinderTimesHeads := total / 17;
      var fewHeads := (cylinderTimesHeads + 1023) / 1024;
      var heads := if fewHeads < 4 then 4 else fewHeads;
      if cylinderTimesHeads >= heads * 1024 || heads > 16 then
        if total / 31 >= 16 * 1024 then Chs(Quotient(total / 63, 16), 16, 63) else Chs(Quotient(total / 31, 16), 16, 31)
      else Chs(Quotient(cylinderTimesHeads, heads), heads, 17)
  }

  function Capacity(g: Chs): nat {
    g.cylinders * g.heads * g.sectorsPerTrack
  }

  /** Dividing by tracks, then by heads, loses less than one cylinder. */
  lemma Rounding(total: nat, sectors: nat, heads: nat)
    requires sectors > 0 && heads > 0
    ensures total / sectors / heads >= 0
    ensures var c := total / sectors / heads; c * heads * sectors <= total < c * heads * sectors + heads * sectors
  {
    var tracks := Quotient(total, sectors);
    var c := Quotient(tracks, heads);
    Division(total, sectors);
    Division(tracks, heads);
    MulMono(c * heads, tracks, sectors);
    MulMono(tracks + 1, c * heads + heads, sectors);
    assert (c * heads + heads) * sectors == c * heads * sectors + heads * sectors;
  }

  /** The geometry fits its fields, and its capacity is the number of sectors but for less than one cylinder. */
  lemma GeometryFits(total: nat)
    requires total <= MAX_SECTORS
    ensures var g := Calculation(total);
      && g.cylinders <= 65535 && 4 <= g.heads <= 16 && g.sectorsPerTrack in {17, 31, 63, 255}
      && Capacity(g) <= total < Capacity(g) + g.heads * g.sectorsPerTrack
  {
    var g := Calculation(total);
    Rounding(total, g.sectorsPerTrack, g.heads);
  }

  /**
   * Which numbers of sectors a track has, by the size of the image. Below the limit for 31 sectors there are 17, but for
   * twelve short ranges in which the tracks of 17 sectors are an exact number of full cylinders.
   */
  lemma TrackSizes(total: nat)
    ensures var sectors := Calculation(total).sectorsPerTrack;
      && (sectors == 255 <==> total >= 66059280)
      && (sectors == 63 <==> 507904 <= total < 66059280)
      && (sectors == 31 <==> total < 507904 && (total >= 278528 || (total >= 69632 && total % 17408 < 17)))
      && (sectors == 17 <==> total < 278528 && (total < 69632 || total % 17408 >= 17))
  {
  }

  // ----- the footer -----

  const COOKIE := 0x7869_7463_656E_6F63
  const FEATURES := 0x0200_0000
  const FILE_FORMAT_VERSION := 0x0000_0100
  const DATA_OFFSET := 0xFFFF_FFFF_FFFF_FFFF
  const CREATOR_APPLICATION := 0x746E_6D78
  const CREATOR_VERSION := 0x0000_0500
  const CREATOR_HOST_OS := 0x6B32_6957
  const DISK_TYPE := 0x0200_0000
  const FOOTER_SIZE := 512

  /** The values in the footer that do not depend on the image size. */
  datatype Labels = Labels(time: nat, uuidLow: nat, uuidHigh: nat)

  /** Offset 0: cookie, features, version, data offset, and who created the file. */
  function Origin(c: Labels): (s: seq<byte>)
    ensures |s| == 40
  {
    Le(COOKIE, 8) + Le(FEATURES, 4) + Le(FILE_FORMAT_VERSION, 4) + Le(DATA_OFFSET, 8)
    + Be(c.time, 4) + Le(CREATOR_APPLICATION, 4) + Le(CREATOR_VERSION, 4) + Le(CREATOR_HOST_OS, 4)
  }

  /** Offset 40: original and current size, geometry, disk type. */
  function Shape(size: nat, g: Chs): (s: seq<byte>)
    ensures |s| == 24
  {
    Be(size, 8) + Be(size, 8) + Be(g.cylinders, 2) + [g.heads % 256] + [g.sectorsPerTrack % 256] + Le(DISK_TYPE, 4)
  }

  /** Offset 68: the UUID; saved state and reserved bytes are zero. */
  function Rest(c: Labels): (s: seq<byte>)
    ensures |s| == 444
  {
    Le(c.uuidLow, 8) + Le(c.uuidHigh, 8) + Zeros(428)
  }

  /** A footer with these four bytes in its checksum field. */
  function FooterWith(c: Labels, size: nat, checksum: seq<byte>): (s: seq<byte>)
    requires |checksum| == 4
    ensures |s| == FOOTER_SIZE
  {
    Origin(c) + Shape(size, Calculation(TotalSectors(size))) + checksum + Rest(c)
  }

  function Sum(s: seq<byte>): nat {
    if s == [] then 0 else Sum(s[..|s| - 1]) + s[|s| - 1]
  }

  /** The one's complement of the sum of all bytes, computed in 32 bits. */
  function Complement(sum: nat): nat {
    U32 - 1 - sum % U32
  }

  /** The footer that xmount puts behind an image of this size. */
  function EmittedFooter(c: Labels, size: nat): (s: seq<byte>)
    ensures |s| == FOOTER_SIZE
  {
    FooterWith(c, size, Be(Complement(Sum(FooterWith(c, size, Zeros(4)))), 4))
  }

  lemma {:induction false} SumParts(a: seq<byte>, b: seq<byte>)
    ensures Sum(a + b) == Sum(a) + Sum(b)
  {
    if b == [] {
      assert a + b == a;
    } else {
      SumParts(a, b[..|b| - 1]);
      assert (a + b)[..|a + b| - 1] == a + b[..|b| - 1];
    }
  }

  /** The checksum field, and the sum of the bytes outside it. */
  lemma ChecksumField(c: Labels, size: nat, checksum: seq<byte>)
    requires |checksum| == 4
    ensures var f := FooterWith(c, size, checksum);
      f[64..68] == checksum && Sum(f[..64]) + Sum(f[68..]) == Sum(FooterWith(c, size, Zeros(4)))
  {
    hide Origin, Shape, Rest, Calculation, TotalSectors, Sum;
    var head, tail := Origin(c) + Shape(size, Calculation(TotalSectors(size))), Rest(c);
    var f := FooterWith(c, size, checksum);
    assert f[64..68] == checksum && f[..64] == head && f[68..] == tail;
    SumParts(head + Zeros(4), tail);
    SumParts(head, Zeros(4));
    ZeroSum(4);
  }

  lemma {:induction false} ZeroSum(n: nat)
    ensures Sum(Zeros(n)) == 0
  {
    if n > 0 {
      ZeroSum(n - 1);
      assert Zeros(n)[..n - 1] == Zeros(n - 1);
    }
  }

  /** The checksum a reader computes, over the bytes outside the checksum field, is the one in that field. */
  lemma ChecksumValid(c: Labels, size: nat)
    ensures var f := EmittedFooter(c, size); FromBe(f[64..68]) == Complement(Sum(f[..64]) + Sum(f[68..]))
  {
    hide FooterWith, Sum, FromBe, Be;
    var sum := Sum(FooterWith(c, size, Zeros(4)));
    ChecksumField(c, size, Be(Complement(sum), 4));
    ChecksumField(c, size, Zeros(4));
    Widths();
    BeRoundTrip(Complement(sum), 4);
  }

  /** Size and geometry, as a reader of the footer finds them. */
  lemma EmittedShape(c: Labels, size: nat)
    requires size < U64
    ensures var f, g := EmittedFooter(c, size), Calculation(TotalSectors(size));
      && FromBe(f[40..48]) == size && FromBe(f[48..56]) == size
      && FromBe(f[56..58]) == g.cylinders && f[58] == g.heads && f[59] == g.sectorsPerTrack
  {
    hide Calculation, TotalSectors, Capacity, EmittedFooter, Be, FromBe;
    var f, g := EmittedFooter(c, size), Calculation(TotalSectors(size));
    GeometryFits(TotalSectors(size));
    ShapeInFooter(c, size);
    SubSlice(f, 40, 64, 0, 8);
    SubSlice(f, 40, 64, 8, 16);
    SubSlice(f, 40, 64, 16, 18);
    ShapeFields(size, g);
    assert f[58] == f[40..64][18] && f[59] == f[40..64][19];
    Widths();
    BeRoundTrip(size, 8);
    TwoBytes();
    BeRoundTrip(g.cylinders, 2);
  }

  lemma ShapeInFooter(c: Labels, size: nat)
    ensures EmittedFooter(c, size)[40..64] == Shape(size, Calculation(TotalSectors(size)))
  {
    hide Origin, Shape, Rest, Calculation, TotalSectors, Sum, Be;
  }

  lemma ShapeFields(size: nat, g: Chs)
    ensures var s := Shape(size, g);
      && s[0..8] == Be(size, 8) && s[8..16] == Be(size, 8) && s[16..18] == Be(g.cylinders, 2)
      && s[18] == g.heads % 256 && s[19] == g.sectorsPerTrack % 256
  {
    hide Be, Le;
  }

  /** The bytes that are the same in every footer: "conectix", features, version, "xmnt", version, "Wi2k", a fixed disk. */
  lemma FixedBytes(c: Labels, size: nat)
    ensures var f := EmittedFooter(c, size);
      && f[0..8] == [0x63, 0x6F, 0x6E, 0x65, 0x63, 0x74, 0x69, 0x78] && f[8..12] == [0, 0, 0, 2] && f[12..16] == [0, 1, 0, 0]
      && f[16..24] == [0xFF, 0xFF, 0xFF, 0xFF, 0xFF, 0xFF, 0xFF, 0xFF]
      && f[28..32] == [0x78, 0x6D, 0x6E, 0x74] && f[32..36] == [0, 5, 0, 0] && f[36..40] == [0x57, 0x69, 0x32, 0x6B]
      && f[60..64] == [0, 0, 0, 2]
  {
    OriginBytes();
    hide Le, Be, EmittedFooter;
    var f, s := EmittedFooter(c, size), Shape(size, Calculation(TotalSectors(size)));
    OriginInFooter(c, size);
    ShapeInFooter(c, size);
    OriginParts(c);
    SubSlice(f, 0, 40, 0, 8);
    SubSlice(f, 0, 40, 8, 12);
    SubSlice(f, 0, 40, 12, 16);
    SubSlice(f, 0, 40, 16, 24);
    SubSlice(f, 0, 40, 28, 32);
    SubSlice(f, 0, 40, 32, 36);
    SubSlice(f, 0, 40, 36, 40);
    SubSlice(f, 40, 64, 20, 24);
    assert s[20..24] == Le(DISK_TYPE, 4);
  }

  lemma OriginParts(c: Labels)
    ensures var s := Origin(c);
      && s[0..8] == Le(COOKIE, 8) && s[8..12] == Le(FEATURES, 4) && s[12..16] == Le(FILE_FORMAT_VERSION, 4)
      && s[16..24] == Le(DATA_OFFSET, 8) && s[28..32] == Le(CREATOR_APPLICATION, 4)
      && s[32..36] == Le(CREATOR_VERSION, 4) && s[36..40] == Le(CREATOR_HOST_OS, 4)
  {
    hide Le, Be;
  }

  lemma OriginInFooter(c: Labels, size: nat)
    ensures EmittedFooter(c, size)[0..40] == Origin(c)
  {
    hide Origin, Shape, Rest, Calculation, TotalSectors, Sum, Be;
  }

  lemma OriginBytes()
    ensures Le(COOKIE, 8) == [0x63, 0x6F, 0x6E, 0x65, 0x63, 0x74, 0x69, 0x78]
    ensures Le(DATA_OFFSET, 8) == [0xFF, 0xFF, 0xFF, 0xFF, 0xFF, 0xFF, 0xFF, 0xFF]
    ensures Le(FEATURES, 4) == [0, 0, 0, 2] && Le(FILE_FORMAT_VERSION, 4) == [0, 1, 0, 0] && Le(DISK_TYPE, 4) == [0, 0, 0, 2]
    ensures Le(CREATOR_APPLICATION, 4) == [0x78, 0x6D, 0x6E, 0x74] && Le(CREATOR_VERSION, 4) == [0, 5, 0, 0]
    ensures Le(CREATOR_HOST_OS, 4) == [0x57, 0x69, 0x32, 0x6B]
  {
    hide Le;
    LeBytes8(COOKIE, 0x656E_6F63, 0x7869_7463);
    LeBytes4(0x656E_6F63, 0x63, 0x6F, 0x6E, 0x65);
    LeBytes4(0x7869_7463, 0x63, 0x74, 0x69, 0x78);
    LeBytes8(DATA_OFFSET, 0xFFFF_FFFF, 0xFFFF_FFFF);
    LeBytes4(0xFFFF_FFFF, 0xFF, 0xFF, 0xFF, 0xFF);
    LeBytes4(FEATURES, 0, 0, 0, 2);
    LeBytes4(FILE_FORMAT_VERSION, 0, 1, 0, 0);
    LeBytes4(CREATOR_APPLICATION, 0x78, 0x6D, 0x6E, 0x74);
    LeBytes4(CREATOR_VERSION, 0, 5, 0, 0);
    LeBytes4(CREATOR_HOST_OS, 0x57, 0x69, 0x32, 0x6B);
  }

  lemma TwoBytes()
    ensures Pow256(2) == 65536
  {
    assert Pow256(1) == 256;
  }
}
