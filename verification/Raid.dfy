/** The RAID0 morphing library: the chunks of all input images in turn. */
module Raid {
  import opened Bytes
  import opened Lookup
  import opened InputImages

  datatype RaidError = RAID_OK | RAID_CANNOT_GET_IMAGESIZE | RAID_READ_BEYOND_END_OF_IMAGE | RAID_CANNOT_READ_DATA

  // ----- the mapping -----

  /** Where byte pos of the array lies: an image, and a position in it. */
  function Locate(chunkSize: nat, n: nat, pos: nat): (place: (nat, nat))
    requires chunkSize > 0 && n > 0
  {
    var chunk := Quotient(pos, chunkSize);
    (chunk % n, Quotient(chunk, n) * chunkSize + pos % chunkSize)
  }

  /** Which byte of the array lies at a position of an image. */
  function Position(chunkSize: nat, n: nat, image: nat, ofs: nat): nat
    requires chunkSize > 0
  {
    (Quotient(ofs, chunkSize) * n + image) * chunkSize + ofs % chunkSize
  }

  /** The chunks go to the images in turn: chunk k of the array is chunk k / n of image k % n. */
  lemma ChunksInTurn(chunkSize: nat, n: nat, k: nat, ofs: nat)
    requires chunkSize > 0 && n > 0 && ofs < chunkSize
    ensures k / n >= 0 && Locate(chunkSize, n, k * chunkSize + ofs) == (k % n, k / n * chunkSize + ofs)
  {
    DivMod(k * chunkSize + ofs, chunkSize, k);
  }

  /** Every byte of the array has a place in the first chunksPerImage chunks of an image, and is the byte that lies there. */
  lemma LocateInRange(chunkSize: nat, n: nat, chunksPerImage: nat, pos: nat)
    requires chunkSize > 0 && pos < chunksPerImage * chunkSize * n
    ensures n > 0
    ensures var (image, ofs) := Locate(chunkSize, n, pos);
      image < n && ofs < chunksPerImage * chunkSize && Position(chunkSize, n, image, ofs) == pos
  {
    var chunk, ofs := Quotient(pos, chunkSize), pos % chunkSize;
    Division(pos, chunkSize);
    ThreeFactors(chunksPerImage, chunkSize, n);
    MulCancel(chunk, chunksPerImage * n, chunkSize);
    Division(chunk, n);
    var row: nat := Quotient(chunk, n);
    MulCancel(row, chunksPerImage, n);
    LastRow(row, chunksPerImage, chunkSize, ofs);
    DivMod(row * chunkSize + ofs, chunkSize, row);
  }

  lemma ThreeFactors(a: nat, b: nat, c: nat)
    ensures a * b * c == a * c * b && (a * b * c > 0 ==> c > 0)
  {
  }

  /** Every place in those chunks belongs to exactly one byte of the array. */
  lemma PositionInRange(chunkSize: nat, n: nat, chunksPerImage: nat, image: nat, ofs: nat)
    requires chunkSize > 0 && image < n && ofs < chunksPerImage * chunkSize
    ensures var pos := Position(chunkSize, n, image, ofs);
      pos < chunksPerImage * chunkSize * n && Locate(chunkSize, n, pos) == (image, ofs)
  {
    var row := ofs / chunkSize;
    Division(ofs, chunkSize);
    MulCancel(row, chunksPerImage, chunkSize);
    Digits(Position(chunkSize, n, image, ofs), chunkSize, n, row, image, ofs % chunkSize);
    LastRow(row, chunksPerImage, n, image);
    LastRow(row * n + image, chunksPerImage * n, chunkSize, ofs % chunkSize);
    ThreeFactors(chunksPerImage, chunkSize, n);
  }

  lemma LastRow(row: nat, rows: nat, width: nat, column: nat)
    requires row < rows && column < width
    ensures row * width + column < rows * width
  {
    MulMono(row + 1, rows, width);
  }

  // ----- the array as a disk -----

  datatype Array = Array(images: seq<seq<byte>>, chunkSize: nat)

  /** The byte at a position of the array; there is none where an image has ended. */
  function CellAt(a: Array, pos: nat): Cell<RaidError> {
    if a.chunkSize == 0 || a.images == [] then Fails(RAID_CANNOT_READ_DATA) else
    var (image, ofs) := Locate(a.chunkSize, |a.images|, pos);
    if ofs < |a.images[image]| then Byte(a.images[image][ofs]) else Fails(RAID_CANNOT_READ_DATA)
  }

  function Cells(a: Array): nat -> Cell<RaidError> {
    (pos: nat) => CellAt(a, pos)
  }

  /** Where all images have the chunks counted on, every byte of the array can be read. */
  lemma AllAvailable(a: Array, chunksPerImage: nat, seek: nat, n: nat)
    requires a.chunkSize > 0 && forall i :: 0 <= i < |a.images| ==> chunksPerImage * a.chunkSize <= |a.images[i]|
    requires seek + n <= chunksPerImage * a.chunkSize * |a.images|
    ensures Available(Cells(a), seek, n)
  {
    hide Cells;
    forall p: nat | seek <= p < seek + n
      ensures Cells(a)(p).Byte?
    {
      CellInRange(a, chunksPerImage, p);
    }
  }

  lemma CellInRange(a: Array, chunksPerImage: nat, p: nat)
    requires a.chunkSize > 0 && forall i :: 0 <= i < |a.images| ==> chunksPerImage * a.chunkSize <= |a.images[i]|
    requires p < chunksPerImage * a.chunkSize * |a.images|
    ensures Cells(a)(p).Byte?
  {
    hide Locate;
    LocateInRange(a.chunkSize, |a.images|, chunksPerImage, p);
    var (image, ofs) := Locate(a.chunkSize, |a.images|, p);
    assert chunksPerImage * a.chunkSize <= |a.images[image]|;
  }

  /** Byte ofs of a chunk of the array is byte at of an image. */
  ghost predicate LiesAt(a: Array, chunk: nat, ofs: nat, image: nat, at: nat) {
    a.images != [] && image == chunk % |a.images| && at == chunk / |a.images| * a.chunkSize + ofs
  }

  lemma InChunk(a: Array, chunk: nat, ofs: nat, pos: nat, image: nat, at: nat, i: nat)
    requires a.chunkSize > 0 && LiesAt(a, chunk, ofs, image, at)
    requires chunk * a.chunkSize + ofs == pos && ofs + i < a.chunkSize
    ensures image < |a.images|
    ensures Cells(a)(pos + i) == if at + i < |a.images[image]| then Byte(a.images[image][at + i]) else Fails(RAID_CANNOT_READ_DATA)
  {
    DivMod(pos + i, a.chunkSize, chunk);
  }

  /** A piece of one chunk is a piece of one image. */
  lemma PieceOutcome(a: Array, chunk: nat, ofs: nat, pos: nat, n: nat, image: nat, at: nat) returns (k: nat)
    requires a.chunkSize > 0 && LiesAt(a, chunk, ofs, image, at) && image < |a.images|
    requires chunk * a.chunkSize + ofs == pos && ofs + n <= a.chunkSize && n > 0
    ensures k == if at >= |a.images[image]| then 0 else Min(n, |a.images[image]| - at)
    ensures Outcome(Cells(a), RAID_OK, pos, n, k, if k < n then RAID_CANNOT_READ_DATA else RAID_OK)
    ensures Available(Cells(a), pos, k) && (k > 0 ==> Stretch(Cells(a), pos, k) == a.images[image][at..at + k])
  {
    hide Cells, LiesAt;
    k := if at >= |a.images[image]| then 0 else Min(n, |a.images[image]| - at);
    forall p: nat | pos <= p < pos + n
      ensures Cells(a)(p) == if p - pos < k then Byte(a.images[image][at + (p - pos)]) else Fails(RAID_CANNOT_READ_DATA)
    {
      InChunk(a, chunk, ofs, pos, image, at, p - pos);
    }
  }

  // ----- counting chunks -----

  predicate EachHolds(counts: seq<nat>) {
    forall i :: 0 <= i < |counts| ==> counts[i] > 0
  }

  /** The fewest chunks any image has. */
  function Fewest(counts: seq<nat>): nat
    requires counts != []
  {
    if |counts| == 1 then counts[0] else Min(Fewest(counts[..|counts| - 1]), counts[|counts| - 1])
  }

  /** What RaidMorph's loop arrives at: a running minimum in which 0 stands for "none yet". */
  function Running(counts: seq<nat>): nat {
    if counts == [] then 0 else
    var sofar, last := Running(counts[..|counts| - 1]), counts[|counts| - 1];
    if sofar == 0 then last else Min(sofar, last)
  }

  lemma RunningNext(counts: seq<nat>, i: nat)
    requires i < |counts|
    ensures var sofar := Running(counts[..i]); Running(counts[..i + 1]) == if sofar == 0 then counts[i] else Min(sofar, counts[i])
  {
    assert counts[..i + 1][..i] == counts[..i];
  }

  lemma RunningNothing(counts: seq<nat>)
    ensures Running(counts[..0]) == 0
  {
  }

  /** The loop finds the minimum if and only if every image holds a chunk, or the last one does not. */
  lemma {:induction false} RunningIsFewest(counts: seq<nat>)
    requires counts != []
    ensures Running(counts) == Fewest(counts) <==> EachHolds(counts) || counts[|counts| - 1] == 0
    ensures EachHolds(counts) <==> Fewest(counts) > 0
    ensures Running(counts) == 0 <==> counts[|counts| - 1] == 0
    ensures Running(counts) >= Fewest(counts)
  {
    var most, last := counts[..|counts| - 1], counts[|counts| - 1];
    assert EachHolds(counts) <==> EachHolds(most) && last > 0;
    if most != [] {
      RunningIsFewest(most);
    }
  }

  lemma {:induction false} FewestIsLeast(counts: seq<nat>)
    requires counts != []
    ensures Fewest(counts) in counts && forall c :: c in counts ==> Fewest(counts) <= c
  {
    var most, last := counts[..|counts| - 1], counts[|counts| - 1];
    assert counts == most + [last];
    if most != [] {
      FewestIsLeast(most);
    }
  }

  /** The counts for which RaidMorph's loop arrives at the smallest one. */
  predicate CountsRight(counts: seq<nat>) {
    counts == [] || EachHolds(counts) || counts[|counts| - 1] == 0
  }

  lemma RightCounts(counts: seq<nat>)
    ensures CountsRight(counts) <==> forall i :: 0 <= i < |counts| ==> Running(counts) <= counts[i]
  {
    hide Running, Fewest;
    if counts != [] {
      RunningIsFewest(counts);
      FewestIsLeast(counts);
      var least: nat :| least < |counts| && counts[least] == Fewest(counts);
      assert forall i :: 0 <= i < |counts| ==> counts[i] in counts;
    }
  }

  lemma HoldsChunks(size: nat, chunkSize: nat, chunks: nat)
    requires chunkSize > 0
    ensures chunks * chunkSize <= size <==> chunks <= size / chunkSize
  {
    Division(size, chunkSize);
    DivMod(size, chunkSize, size / chunkSize);
    if chunks <= size / chunkSize {
      MulMono(chunks, size / chunkSize, chunkSize);
    } else {
      MulMono(size / chunkSize + 1, chunks, chunkSize);
    }
  }

  /** Where an image lacks chunks that are counted on, a byte of the array is missing. */
  lemma MissingByte(a: Array, chunksPerImage: nat, image: nat) returns (pos: nat)
    requires a.chunkSize > 0 && image < |a.images| && |a.images[image]| < chunksPerImage * a.chunkSize
    ensures pos < chunksPerImage * a.chunkSize * |a.images| && Cells(a)(pos) == Fails(RAID_CANNOT_READ_DATA)
  {
    hide Locate, Position;
    var ofs := |a.images[image]|;
    PositionInRange(a.chunkSize, |a.images|, chunksPerImage, image, ofs);
    pos := Position(a.chunkSize, |a.images|, image, ofs);
  }

  /** ts_RaidHandle */
  class Handle {
    const inputs: Inputs
    const chunkSize: nat
    var inputImagesCount: nat
    var chunksPerImage: nat
    var morphedImageSize: nat

    constructor (inputs: Inputs, chunkSize: nat)
      ensures this.inputs == inputs && this.chunkSize == chunkSize && chunksPerImage == 0
    {
      this.inputs, this.chunkSize := inputs, chunkSize;
      inputImagesCount, chunksPerImage, morphedImageSize := 0, 0, 0;
    }

    ghost function Disks(): Array
      reads inputs
      requires inputs.Loaded()
    {
      Array(inputs.Images(), chunkSize)
    }

    /** How many whole chunks each image has. */
    ghost function ChunkCounts(): (s: seq<nat>)
      reads inputs
      requires inputs.Loaded() && chunkSize > 0
      ensures |s| == |inputs.raws| && forall i :: 0 <= i < |s| ==> s[i] == Quotient(|inputs.Images()[i]|, chunkSize)
    {
      seq<nat>(|inputs.raws|, i requires 0 <= i < |inputs.raws| && inputs.Loaded() reads inputs => Quotient(|inputs.Images()[i]|, chunkSize))
    }

    ghost predicate Morphed()
      reads this, inputs
    {
      && inputs.Loaded() && chunkSize > 0 && inputImagesCount == |inputs.raws|
      && morphedImageSize == chunksPerImage * chunkSize * inputImagesCount % U64
    }

    /** RaidMorph. The size of the array is kept in 64 bits. */
    method Morph() returns (rc: RaidError)
      requires inputs.Loaded() && chunkSize > 0 && chunksPerImage == 0
      modifies this
      ensures rc == RAID_OK && Morphed() && chunksPerImage == Running(ChunkCounts())
      ensures AllReadable() <==> CountsRight(ChunkCounts())
    {
      hide EachHolds, AllReadable, CountsRight;
      rc := CountChunks();
      if rc != RAID_OK {
        return;
      }
      morphedImageSize := chunksPerImage * chunkSize * inputImagesCount % U64;
      EveryImageHolds();
    }

    method CountChunks() returns (rc: RaidError)
      requires inputs.Loaded() && chunkSize > 0 && chunksPerImage == 0
      modifies `inputImagesCount, `chunksPerImage
      ensures rc == RAID_OK && inputImagesCount == |inputs.raws| && chunksPerImage == Running(ChunkCounts())
    {
      hide Running;
      inputImagesCount := |inputs.raws|;
      ghost var counts := ChunkCounts();
      RunningNothing(counts);
      for i := 0 to inputImagesCount
        invariant inputImagesCount == |inputs.raws| && chunksPerImage == Running(counts[..i])
      {
        var ret, size := inputs.Size(i);
        if ret != 0 {
          return RAID_CANNOT_GET_IMAGESIZE;
        }
        RunningNext(counts, i);
        CountImage(Quotient(size, chunkSize));
      }
      assert counts[..|counts|] == counts;
      rc := RAID_OK;
    }

    /** The smallest image determines how many chunks are available on all images. */
    method CountImage(chunks: nat)
      modifies `chunksPerImage
      ensures chunksPerImage == if old(chunksPerImage) == 0 then chunks else Min(old(chunksPerImage), chunks)
    {
      if chunksPerImage == 0 {
        chunksPerImage := chunks;
      } else if chunks < chunksPerImage {
        chunksPerImage := chunks;
      }
    }

    /** Every image has the chunks that are counted on. */
    ghost predicate AllReadable()
      reads `chunksPerImage, inputs
      requires inputs.Loaded()
    {
      forall i :: 0 <= i < |inputs.raws| ==> chunksPerImage * chunkSize <= |inputs.Images()[i]|
    }

    /** That is so exactly where the loop has found the smallest chunk count. */
    lemma EveryImageHolds()
      requires inputs.Loaded() && chunkSize > 0 && chunksPerImage == Running(ChunkCounts())
      ensures AllReadable() <==> CountsRight(ChunkCounts())
    {
      hide EachHolds, Running, CountsRight, Fewest;
      var counts := ChunkCounts();
      RightCounts(counts);
      forall i | 0 <= i < |inputs.raws|
        ensures chunksPerImage * chunkSize <= |inputs.Images()[i]| <==> chunksPerImage <= counts[i]
      {
        HoldsChunks(|inputs.Images()[i]|, chunkSize, chunksPerImage);
      }
    }

    /** RaidRead. Where every image has the chunks counted on, no request in range fails. */
    method Read(p_buf: array<byte>, offset: nat, count: nat) returns (rc: RaidError, read: nat, ghost k: nat)
      requires Morphed() && count <= p_buf.Length
      modifies p_buf
      ensures rc == RAID_OK ==> read == count
      ensures offset >= morphedImageSize || offset + count > morphedImageSize ==>
        rc == RAID_READ_BEYOND_END_OF_IMAGE && p_buf[..] == old(p_buf[..])
      ensures offset < morphedImageSize && offset + count <= morphedImageSize ==>
        Outcome(Cells(Disks()), RAID_OK, offset, count, k, rc) && Copied(Cells(Disks()), offset, k, old(p_buf[..]), p_buf[..])
      ensures AllReadable() && offset < morphedImageSize && offset + count <= morphedImageSize ==> rc == RAID_OK && k == count
    {
      hide Outcome, Copied, Cells, AllReadable;
      read, k := 0, 0;
      if offset >= morphedImageSize || offset + count > morphedImageSize {
        return RAID_READ_BEYOND_END_OF_IMAGE, read, k;
      }
      ImagesExist();
      rc, read, k := ReadChunks(p_buf, offset, count);
      if AllReadable() {
        NoFailure(offset, count, k, rc);
      }
    }

    /** Where an image lacks chunks, some request in range fails, unless the size does not fit 64 bits. */
    lemma SomeRequestFails() returns (offset: nat)
      requires Morphed() && !AllReadable() && chunksPerImage * chunkSize * inputImagesCount < U64
      ensures offset < morphedImageSize
      ensures forall k: nat, rc: RaidError :: Outcome(Cells(Disks()), RAID_OK, offset, 1, k, rc) ==> rc == RAID_CANNOT_READ_DATA
    {
      hide Cells, Morphed, Outcome;
      InSize();
      var i: nat :| i < |inputs.raws| && |inputs.Images()[i]| < chunksPerImage * chunkSize;
      offset := MissingByte(Disks(), chunksPerImage, i);
      forall k: nat, rc: RaidError | Outcome(Cells(Disks()), RAID_OK, offset, 1, k, rc)
        ensures rc == RAID_CANNOT_READ_DATA
      {
        FailsAtOnce(Cells(Disks()), RAID_OK, offset, 1, k, rc);
      }
    }

    lemma InSize()
      requires Morphed() && chunksPerImage * chunkSize * inputImagesCount < U64
      ensures inputs.Loaded() && chunkSize > 0 && inputImagesCount == |inputs.raws|
      ensures morphedImageSize == chunksPerImage * chunkSize * inputImagesCount
    {
      DivMod(chunksPerImage * chunkSize * inputImagesCount, U64, 0);
    }

    lemma ImagesExist()
      requires Morphed() && morphedImageSize > 0
      ensures Usable()
    {
    }

    /** RaidRead's loop. */
    method ReadChunks(p_buf: array<byte>, offset: nat, count: nat) returns (rc: RaidError, read: nat, ghost k: nat)
      requires Usable() && count <= p_buf.Length
      modifies p_buf
      ensures rc == RAID_OK ==> read == count
      ensures Outcome(Cells(Disks()), RAID_OK, offset, count, k, rc) && Copied(Cells(Disks()), offset, k, old(p_buf[..]), p_buf[..])
    {
      hide Outcome, Copied, CopiedAt, Cells, Available, Stretch;
      Division(offset, chunkSize);
      var chunk: nat := Quotient(offset, chunkSize);
      var chunkOffset: nat := offset - chunk * chunkSize;
      var remaining := count;
      read, k := 0, 0;
      ghost var before := p_buf[..];
      NoBytes(Cells(Disks()), offset, before);
      while remaining != 0
        invariant 0 <= remaining && read + remaining == count
        invariant remaining > 0 ==> LiesIn(chunk, chunkOffset, offset + read)
        invariant Copied(Cells(Disks()), offset, read, before, p_buf[..])
        decreases remaining
      {
        var n;
        ghost var part, was := 0, p_buf[..];
        rc, n, part := ReadFromChunk(p_buf, read, chunk, chunkOffset, remaining, offset + read);
        AnotherPiece(Cells(Disks()), RAID_OK, offset, read, n, part, rc, remaining - n, before, was, p_buf[..]);
        k := read + part;
        if rc != RAID_OK {
          return;
        }
        remaining, read := remaining - n, read + n;
        chunkOffset, chunk := 0, chunk + 1;
      }
      k := read;
      AllCopied(Cells(Disks()), RAID_OK, offset, k, before, p_buf[..]);
      rc := RAID_OK;
    }

    /** Position pos is byte ofs of a chunk. */
    ghost predicate LiesIn(chunk: nat, ofs: nat, pos: nat) {
      chunk * chunkSize + ofs == pos && ofs < chunkSize
    }

    ghost predicate Usable()
      reads `inputImagesCount, inputs
    {
      inputs.Loaded() && chunkSize > 0 && inputImagesCount == |inputs.raws| > 0
    }

    lemma NoFailure(offset: nat, count: nat, k: nat, rc: RaidError)
      requires Morphed() && AllReadable() && offset + count <= morphedImageSize
      requires Outcome(Cells(Disks()), RAID_OK, offset, count, k, rc)
      ensures rc == RAID_OK && k == count
    {
      hide Cells, Outcome;
      AllAvailable(Disks(), chunksPerImage, offset, count);
      AllRead(Cells(Disks()), RAID_OK, offset, count);
      OutcomeUnique(Cells(Disks()), RAID_OK, offset, count, k, rc, count, RAID_OK);
    }

    /** One turn of RaidRead's loop. */
    method ReadFromChunk(p_buf: array<byte>, at: nat, chunk: nat, chunkOffset: nat, count: nat, ghost pos: nat)
      returns (rc: RaidError, n: nat, ghost k: nat)
      requires Usable() && count > 0 && at + count <= p_buf.Length && LiesIn(chunk, chunkOffset, pos)
      modifies p_buf
      ensures 0 < n <= count && (n < count ==> LiesIn(chunk + 1, 0, pos + n))
      ensures Outcome(Cells(Disks()), RAID_OK, pos, n, k, rc) && CopiedAt(Cells(Disks()), pos, k, old(p_buf[..]), at, p_buf[..])
    {
      hide Outcome, CopiedAt, Cells, Available, Stretch, Splice;
      Division(chunk, inputImagesCount);
      var image: nat := chunk % inputImagesCount;
      var imageOffset: nat := Quotient(chunk, inputImagesCount) * chunkSize;
      NextBlock(chunk, chunkSize);
      n := if chunkOffset + count > chunkSize then chunkSize - chunkOffset else count;
      k := PieceOutcome(Disks(), chunk, chunkOffset, pos, n, image, imageOffset + chunkOffset);
      ghost var before := p_buf[..];
      NoBytesAt(Cells(Disks()), pos, before, at);
      var ret, read := inputs.Read(image, p_buf, at, imageOffset + chunkOffset, n);
      if k > 0 {
        CopiedStretch(Cells(Disks()), pos, before, at, inputs.Image(image)[imageOffset + chunkOffset..imageOffset + chunkOffset + k]);
      }
      rc := if ret != 0 || read != n then RAID_CANNOT_READ_DATA else RAID_OK;
    }
  }
}
