/** The combine morphing library: all input images one after the other. */
module Combine {
  import opened Bytes
  import opened InputImages

  datatype CombineError = COMBINE_OK | COMBINE_CANNOT_GET_IMAGESIZE | COMBINE_READ_BEYOND_END_OF_IMAGE | COMBINE_CANNOT_READ_DATA

  /** ts_CombineHandle */
  class Handle {
    const inputs: Inputs
    var inputImagesCount: nat
    var morphedImageSize: nat

    constructor (inputs: Inputs)
      ensures this.inputs == inputs && morphedImageSize == 0
    {
      this.inputs, inputImagesCount, morphedImageSize := inputs, 0, 0;
    }

    /** The morphed image. */
    ghost function Image(): seq<byte>
      reads inputs
      requires inputs.Loaded()
    {
      Concat(inputs.Images())
    }

    ghost predicate Morphed()
      reads this, inputs
    {
      inputs.Loaded() && inputImagesCount == |inputs.raws| && morphedImageSize == |Image()| % U64
    }

    /** CombineMorph. The sum of the sizes is kept in 64 bits. */
    method Morph() returns (rc: CombineError)
      requires inputs.Loaded() && morphedImageSize == 0
      modifies this
      ensures rc == COMBINE_OK && Morphed()
    {
      hide Concat, Narrowed;
      inputImagesCount := |inputs.raws|;
      NoImages(inputs.Images());
      ghost var images := inputs.Images();
      for i := 0 to inputImagesCount
        invariant inputImagesCount == |inputs.raws| && morphedImageSize == |Concat(images[..i])| % U64
      {
        var ret, size := inputs.Size(i);
        if ret != 0 {
          return COMBINE_CANNOT_GET_IMAGESIZE;
        }
        ConcatAt(images, i, 0, 0);
        ModSum(|Concat(images[..i])|, size);
        morphedImageSize := (morphedImageSize + size) % U64;
      }
      assert images[..|images|] == images;
      rc := COMBINE_OK;
    }

    lemma ModSum(a: nat, b: nat)
      ensures (a % U64 + b) % U64 == (a + b) % U64
    {
    }

    /** The search for the image that a position lies in. */
    method FindImage(offset: nat) returns (rc: CombineError, image: nat, curOffset: nat)
      requires Morphed() && offset < morphedImageSize
      ensures rc == COMBINE_OK && image < |inputs.raws| && curOffset < |inputs.Image(image)|
      ensures offset == |Concat(inputs.Images()[..image])| + curOffset
    {
      hide Concat, Narrowed;
      ghost var images := inputs.Images();
      NoImages(images);
      image, curOffset := 0, offset;
      var ret, size := inputs.Size(image);
      while ret == 0 && curOffset >= size
        invariant image <= |inputs.raws| && (ret == 0 <==> image < |inputs.raws|)
        invariant ret == 0 ==> size == |inputs.Image(image)|
        invariant offset == |Concat(images[..image])| + curOffset
        decreases |inputs.raws| - image
      {
        ConcatAt(images, image, 0, 0);
        curOffset := curOffset - size;
        image := image + 1;
        ret, size := inputs.Size(image);
      }
      assert images[..|images|] == images;
      rc := if ret != 0 then COMBINE_CANNOT_GET_IMAGESIZE else COMBINE_OK;
    }

    /** What one more image contributes. */
    lemma NextPiece(image: nat, curOffset: nat, n: nat, pos: nat)
      requires inputs.Loaded() && image < |inputs.raws| && curOffset + n <= |inputs.Image(image)|
      requires pos == |Concat(inputs.Images()[..image])| + curOffset
      ensures pos + n <= |Image()| && Image()[pos..pos + n] == inputs.Image(image)[curOffset..curOffset + n]
      ensures curOffset + n == |inputs.Image(image)| ==> pos + n == |Concat(inputs.Images()[..image + 1])|
    {
      ConcatAt(inputs.Images(), image, curOffset, curOffset + n);
    }

    lemma NoImages(images: seq<seq<byte>>)
      ensures |Concat(images[..0])| == 0
    {
    }

    lemma AtEnd(image: nat)
      requires inputs.Loaded() && image == |inputs.raws|
      ensures |Concat(inputs.Images()[..image])| == |Image()|
    {
      assert inputs.Images()[..image] == inputs.Images();
    }

    /** CombineRead: a slice of the concatenation. Requests that start at the end or reach behind it are refused. */
    method Read(p_buf: array<byte>, offset: nat, count: nat) returns (rc: CombineError, read: nat)
      requires Morphed() && count <= p_buf.Length
      modifies p_buf
      ensures rc == if offset >= |Image()| % U64 || offset + count > |Image()| % U64 then COMBINE_READ_BEYOND_END_OF_IMAGE else COMBINE_OK
      ensures rc == COMBINE_OK ==> read == count && p_buf[..] == Splice(old(p_buf[..]), 0, Image()[offset..offset + count])
      ensures rc != COMBINE_OK ==> p_buf[..] == old(p_buf[..])
    {
      hide Splice, Concat;
      read := 0;
      if offset >= morphedImageSize || offset + count > morphedImageSize {
        return COMBINE_READ_BEYOND_END_OF_IMAGE, read;
      }
      var image: nat, curOffset: nat;
      rc, image, curOffset := FindImage(offset);
      if rc != COMBINE_OK {
        return;
      }
      var remaining := count;
      ghost var before := p_buf[..];
      SpliceNothing(before, 0);
      assert Image()[offset..offset] == [];
      while image < inputImagesCount && remaining != 0
        invariant read + remaining == count && image <= |inputs.raws|
        invariant remaining > 0 ==> offset + read == |Concat(inputs.Images()[..image])| + curOffset
        invariant remaining > 0 && image < |inputs.raws| ==> curOffset <= |inputs.Image(image)|
        invariant remaining > 0 && image == |inputs.raws| ==> curOffset == 0
        invariant p_buf[..] == Splice(before, 0, Image()[offset..offset + read])
        decreases inputImagesCount - image
      {
        var n;
        rc, n := ReadFromImage(p_buf, read, image, curOffset, remaining, offset + read);
        if rc != COMBINE_OK {
          return;
        }
        SpliceContinue(before, 0, Image(), offset, read, Image()[offset + read..offset + read + n]);
        remaining, read := remaining - n, read + n;
        curOffset, image := 0, image + 1;
      }
      if remaining != 0 {
        AtEnd(image);
      }
      rc := if remaining != 0 then COMBINE_CANNOT_READ_DATA else COMBINE_OK;
    }

    /** One turn of the loop of CombineRead. */
    method ReadFromImage(p_buf: array<byte>, at: nat, image: nat, curOffset: nat, count: nat, ghost pos: nat) returns (rc: CombineError, n: nat)
      requires Morphed() && image < |inputs.raws| && curOffset <= |inputs.Image(image)| && count > 0
      requires pos == |Concat(inputs.Images()[..image])| + curOffset && at + count <= p_buf.Length
      modifies p_buf
      ensures rc == COMBINE_OK && n == Min(count, |inputs.Image(image)| - curOffset) && pos + n <= |Image()|
      ensures n < count ==> pos + n == |Concat(inputs.Images()[..image + 1])|
      ensures p_buf[..] == Splice(old(p_buf[..]), at, Image()[pos..pos + n])
    {
      hide Splice, Concat;
      n := 0;
      var ret, size := inputs.Size(image);
      if ret != 0 {
        rc := COMBINE_CANNOT_GET_IMAGESIZE;
        return;
      }
      n := if curOffset + count > size then size - curOffset else count;
      NextPiece(image, curOffset, n, pos);
      SpliceNothing(p_buf[..], at);
      var read;
      ret, read := inputs.Read(image, p_buf, at, curOffset, n);
      assert n == 0 ==> Image()[pos..pos + n] == [];
      rc := if ret != 0 || read != n then COMBINE_CANNOT_READ_DATA else COMBINE_OK;
    }
  }
}
