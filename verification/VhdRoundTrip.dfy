/** A mounted VHD image: the data, and the footer that belongs to it. */
module VhdRoundTrip {
  import opened Bytes
  import opened CacheLayout
  import opened VirtImage
  import F = VhdFormat
  import O = VhdOutput

  /** Start-up for a VHD image: the output file is the image with its footer, of 512 bytes, behind it. */
  method MountVhd(image: seq<byte>, blockSize: nat, vdiHeader: seq<byte>, c: F.Labels) returns (x: Xmount)
    requires blockSize > 0 && |vdiHeader| > 0 && |image| < U64
    ensures fresh(x) && x.Valid() && x.kind == VHD && x.image == image && x.blockSize == blockSize
    ensures x.vhdFooter == F.EmittedFooter(c, |image|) && x.View() == image + F.EmittedFooter(c, |image|)
  {
    hide F.EmittedFooter;
    var footer := O.InitVirtVhdHeader(|image|, c);
    x := new Xmount(image, VHD, blockSize, vdiHeader, footer[..]);
  }

  /**
   * Whatever was written to its data: the last 512 bytes of a mounted image whose footer was not written to name the size of
   * the data in front of them, and their checksum is valid.
   */
  lemma MountedFile(x: Xmount, c: F.Labels)
    requires x.blockSize > 0 && x.kind == VHD && |x.image| < U64
    requires x.vhdFooter == F.EmittedFooter(c, |x.image|) && x.Part(VhdFooter) == x.vhdFooter
    ensures |x.View()| == |x.image| + 512
    ensures x.View()[..|x.image|] == x.Data()
    ensures var f := x.View()[|x.image|..];
      && f[0..8] == [0x63, 0x6F, 0x6E, 0x65, 0x63, 0x74, 0x69, 0x78]
      && FromBe(f[40..48]) == |x.Data()| && FromBe(f[48..56]) == |x.Data()|
      && FromBe(f[64..68]) == F.Complement(F.Sum(f[..64]) + F.Sum(f[68..]))
  {
    hide F.EmittedFooter, FromBe, F.Sum, F.Complement;
    F.FixedBytes(c, |x.image|);
    F.EmittedShape(c, |x.image|);
    F.ChecksumValid(c, |x.image|);
    assert x.View() == x.Data() + F.EmittedFooter(c, |x.image|);
  }
}
