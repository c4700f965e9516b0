/** The input images as the morphing functions see them: narrowed by --offset and --sizelimit. */
module InputImages {
  import opened Bytes

  /** What is left of an input image; a size limit of 0 stands for no limit. */
  function Narrowed(raw: seq<byte>, offset: nat, sizeLimit: nat): seq<byte>
    requires CanNarrow(raw, offset, sizeLimit)
  {
    if sizeLimit == 0 then raw[offset..] else raw[offset..offset + sizeLimit]
  }

  /** A size limit is the size of the narrowed image, whose bytes are those of the image from the offset on. */
  lemma NarrowedBytes(raw: seq<byte>, offset: nat, sizeLimit: nat, i: nat)
    requires CanNarrow(raw, offset, sizeLimit)
    ensures |Narrowed(raw, offset, sizeLimit)| == if sizeLimit > 0 then sizeLimit else |raw| - offset
    ensures i < |Narrowed(raw, offset, sizeLimit)| ==> Narrowed(raw, offset, sizeLimit)[i] == raw[offset + i]
  {
  }

  lemma NarrowedSlice(raw: seq<byte>, offset: nat, sizeLimit: nat, from: nat, n: nat)
    requires CanNarrow(raw, offset, sizeLimit) && from + n <= |Narrowed(raw, offset, sizeLimit)|
    ensures Narrowed(raw, offset, sizeLimit)[from..from + n] == raw[offset + from..offset + from + n]
  {
    SubSlice(raw, offset, offset + |Narrowed(raw, offset, sizeLimit)|, from, from + n);
  }

  predicate CanNarrow(raw: seq<byte>, offset: nat, sizeLimit: nat) {
    offset + sizeLimit <= |raw|
  }

  /** The first n images take up the first bytes of all. */
  lemma {:induction false} ConcatPrefix(images: seq<seq<byte>>, n: nat)
    requires n <= |images|
    ensures Concat(images[..n]) <= Concat(images)
  {
    if n < |images| {
      var most := images[..|images| - 1];
      ConcatPrefix(most, n);
      assert most[..n] == images[..n];
    } else {
      assert images[..n] == images;
    }
  }

  /** Bytes of image i lie in the concatenation behind all images before it. */
  lemma ConcatAt(images: seq<seq<byte>>, i: nat, from: nat, to: nat)
    requires i < |images| && from <= to <= |images[i]|
    ensures |Concat(images[..i + 1])| == |Concat(images[..i])| + |images[i]| <= |Concat(images)|
    ensures var start := |Concat(images[..i])|; Concat(images)[start + from..start + to] == images[i][from..to]
  {
    var upTo := images[..i + 1];
    assert upTo[..i] == images[..i];
    assert Concat(upTo) == Concat(images[..i]) + images[i];
    ConcatPrefix(images, i + 1);
    var start := |Concat(images[..i])|;
    assert Concat(images)[start + from..start + to] == Concat(upTo)[start + from..start + to];
    SliceRight(Concat(images[..i]), images[i], from, to);
  }

  const EIO := 5     // errno.h

  /** The input part of the global xmount structure. */
  class Inputs {
    const raws: seq<seq<byte>>     // what the input libraries deliver
    const imageOffset: nat
    const imageSizeLimit: nat
    var sizes: seq<nat>

    constructor (raws: seq<seq<byte>>, imageOffset: nat, imageSizeLimit: nat)
      ensures this.raws == raws && this.imageOffset == imageOffset && this.imageSizeLimit == imageSizeLimit
    {
      this.raws, this.imageOffset, this.imageSizeLimit, sizes := raws, imageOffset, imageSizeLimit, [];
    }

    ghost predicate Loaded()
      reads this
    {
      && |sizes| == |raws|
      && forall i :: 0 <= i < |raws| ==> CanNarrow(raws[i], imageOffset, imageSizeLimit) && sizes[i] == |Image(i)|
    }

    function Image(i: nat): seq<byte>
      requires i < |raws| && CanNarrow(raws[i], imageOffset, imageSizeLimit)
    {
      Narrowed(raws[i], imageOffset, imageSizeLimit)
    }

    ghost function Images(): (s: seq<seq<byte>>)
      reads this
      requires Loaded()
      ensures |s| == |raws| && forall i :: 0 <= i < |s| ==> s[i] == Image(i) && |s[i]| == sizes[i]
    {
      seq(|raws|, i requires 0 <= i < |raws| && CanNarrow(raws[i], imageOffset, imageSizeLimit) => Image(i))
    }

    /** The loop over the input images at start-up. It fails if and only if an image is too small for offset and size limit. */
    method LoadInputs() returns (ok: bool)
      modifies this
      ensures ok <==> forall i :: 0 <= i < |raws| ==> CanNarrow(raws[i], imageOffset, imageSizeLimit)
      ensures ok ==> Loaded()
    {
      sizes := [];
      for i := 0 to |raws|
        invariant |sizes| == i
        invariant forall j :: 0 <= j < i ==> CanNarrow(raws[j], imageOffset, imageSizeLimit) && sizes[j] == |Image(j)|
      {
        var size := |raws[i]|;
        if imageOffset != 0 {
          if imageOffset > size {
            return false;
          }
          size := size - imageOffset;
        }
        if imageSizeLimit != 0 {
          if size < imageSizeLimit {
            return false;
          }
          size := imageSizeLimit;
        }
        sizes := sizes + [size];
      }
      ok := true;
    }

    /** GetInputImageData: stores what the image has of the request. */
    method GetInputImageData(i: nat, p_buf: array<byte>, at: nat, offset: nat, size: nat) returns (ret: int, read: nat)
      requires Loaded() && i < |raws| && at + size <= p_buf.Length
      modifies p_buf
      ensures ret == 0 && read == if offset >= |Image(i)| then 0 else Min(size, |Image(i)| - offset)
      ensures offset + read <= |Image(i)| || read == 0
      ensures p_buf[..] == if read == 0 then old(p_buf[..]) else Splice(old(p_buf[..]), at, Image(i)[offset..offset + read])
    {
      hide Splice;
      if offset >= sizes[i] {
        return 0, 0;
      }
      var toRead := if offset + size > sizes[i] then sizes[i] - offset else size;
      NarrowedSlice(raws[i], imageOffset, imageSizeLimit, offset, toRead);
      ret, read := LibraryRead(i, p_buf, at, offset + imageOffset, toRead);
    }

    /** What a working input library does. */
    method LibraryRead(i: nat, p_buf: array<byte>, at: nat, offset: nat, count: nat) returns (ret: int, read: nat)
      requires i < |raws| && at + count <= p_buf.Length && offset + count <= |raws[i]|
      modifies p_buf
      ensures ret == 0 && read == count
      ensures p_buf[..] == if read == 0 then old(p_buf[..]) else Splice(old(p_buf[..]), at, raws[i][offset..offset + count])
    {
      if count > 0 {
        Memcpy(p_buf, at, raws[i][offset..offset + count]);
      }
      ret, read := 0, count;
    }

    /** LibXmount_Morphing_Size */
    method Size(image: nat) returns (ret: int, size: nat)
      requires Loaded()
      ensures ret == if image >= |raws| then -1 else 0
      ensures ret == 0 ==> size == |Image(image)|
    {
      if image >= |raws| {
        return -1, 0;
      }
      ret, size := 0, sizes[image];
    }

    /** LibXmount_Morphing_Read */
    method Read(image: nat, p_buf: array<byte>, at: nat, offset: nat, count: nat) returns (ret: int, read: nat)
      requires Loaded() && at + count <= p_buf.Length
      modifies p_buf
      ensures ret == if image >= |raws| then -5 else 0
      ensures image >= |raws| ==> p_buf[..] == old(p_buf[..])
      ensures image < |raws| ==> read == (if offset >= |Image(image)| then 0 else Min(count, |Image(image)| - offset))
      ensures image < |raws| ==> (offset + read <= |Image(image)| || read == 0)
      ensures image < |raws| ==> p_buf[..] == if read == 0 then old(p_buf[..]) else Splice(old(p_buf[..]), at, Image(image)[offset..offset + read])
    {
      if image >= |raws| {
        return -EIO, 0;
      }
      ret, read := GetInputImageData(image, p_buf, at, offset, count);
    }
  }
}
