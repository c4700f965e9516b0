/** Reading VDI files. */
module VdiInput {
  import opened Bytes
  import opened VdiFormat
  import opened Lookup

  const VDI_BLOCK_DISCARDED := 0xffff_fffe
  const VDI_BLOCK_UNALLOCATED := 0xffff_ffff

  datatype VdiError =
    | VDI_OK
    | VDI_CANNOT_READ_DATA
    | VDI_BAD_MAGIC_HEADER
    | VDI_BAD_VERSION
    | VDI_CANNOT_SEEK
    | VDI_READ_BEYOND_END_OF_IMAGE
    | VDI_INVALID_BLOCK_SIZE
    | VDI_BAD_BLOCK_MAP_OFFSET

  /** An opened VDI file. */
  datatype Disk = Disk(file: seq<byte>, header: Header, bmap: seq<nat>)

  ghost predicate DiskOk(d: Disk) {
    && |d.file| < MAX_SEEK && 0 < d.header.blockSize < U32 && |d.bmap| == d.header.blocksInImage
    && d.header.offsetData < U32 && forall i :: 0 <= i < |d.bmap| ==> d.bmap[i] < U32
  }

  // ----- what the format says about one byte of the disk -----

  predicate IsNull(entry: nat) {
    entry == VDI_BLOCK_DISCARDED || entry == VDI_BLOCK_UNALLOCATED
  }

  function FilePosition(d: Disk, block: nat, ofs: nat): nat
    requires block < |d.bmap|
  {
    d.header.offsetData + d.bmap[block] * d.header.blockSize + ofs
  }

  /** Byte `ofs` of block `block`, or why it cannot be read. */
  function CellIn(d: Disk, block: nat, ofs: nat): Cell<VdiError> {
    if block >= |d.bmap| then Fails(VDI_BAD_BLOCK_MAP_OFFSET)
    else if IsNull(d.bmap[block]) then Byte(0)
    else if FilePosition(d, block, ofs) >= MAX_SEEK then Fails(VDI_CANNOT_SEEK)
    else if FilePosition(d, block, ofs) >= |d.file| then Fails(VDI_CANNOT_READ_DATA)
    else Byte(d.file[FilePosition(d, block, ofs)])
  }

  /** The byte at a position of the disk, looked up through the block map. */
  function CellAt(d: Disk, pos: nat): Cell<VdiError> {
    if d.header.blockSize == 0 then Fails(VDI_INVALID_BLOCK_SIZE)
    else CellIn(d, pos / d.header.blockSize, pos % d.header.blockSize)
  }

  function Cells(d: Disk): nat -> Cell<VdiError> {
    (pos: nat) => CellAt(d, pos)
  }

  /** Positions in one block are neighbours in the file. */
  lemma InBlock(d: Disk, block: nat, ofs: nat, pos: nat, i: nat)
    requires d.header.blockSize > 0
    requires block * d.header.blockSize + ofs == pos && ofs + i < d.header.blockSize
    ensures Cells(d)(pos + i) == CellIn(d, block, ofs + i)
  {
    hide CellIn;
    DivMod(pos + i, d.header.blockSize, block);
  }

  /** The outcome of reading a piece of one block, as far as the file has it. */
  lemma PieceOutcome(d: Disk, block: nat, ofs: nat, pos: nat, n: nat) returns (k: nat)
    requires DiskOk(d) && block * d.header.blockSize + ofs == pos && n > 0 && ofs + n <= d.header.blockSize
    requires block < |d.bmap| && !IsNull(d.bmap[block])
    ensures var at := FilePosition(d, block, ofs);
      && k == (if at >= |d.file| then 0 else Min(n, |d.file| - at))
      && Outcome(Cells(d), VDI_OK, pos, n, k, if at >= MAX_SEEK then VDI_CANNOT_SEEK else if k < n then VDI_CANNOT_READ_DATA else VDI_OK)
      && Available(Cells(d), pos, k) && (k > 0 ==> Stretch(Cells(d), pos, k) == d.file[at..at + k])
  {
    hide Cells;
    var at := FilePosition(d, block, ofs);
    k := if at >= |d.file| then 0 else Min(n, |d.file| - at);
    forall p: nat | pos <= p < pos + n
      ensures Cells(d)(p) == CellIn(d, block, ofs + (p - pos))
      ensures p < pos + k ==> Cells(d)(p) == Byte(d.file[at + (p - pos)])
    {
      InBlock(d, block, ofs, pos, p - pos);
      assert FilePosition(d, block, ofs + (p - pos)) == at + (p - pos);
    }
    if k < n {
      assert Cells(d)(pos + k) == CellIn(d, block, ofs + k);
    }
  }

  lemma NullOutcome(d: Disk, block: nat, ofs: nat, pos: nat, n: nat)
    requires DiskOk(d) && block * d.header.blockSize + ofs == pos && n > 0 && ofs + n <= d.header.blockSize
    requires block < |d.bmap| && IsNull(d.bmap[block])
    ensures Outcome(Cells(d), VDI_OK, pos, n, n, VDI_OK) && Available(Cells(d), pos, n) && Stretch(Cells(d), pos, n) == Zeros(n)
  {
    hide Cells;
    forall p: nat | pos <= p < pos + n
      ensures Cells(d)(p) == Byte(0)
    {
      InBlock(d, block, ofs, pos, p - pos);
    }
  }

  lemma OutsideOutcome(d: Disk, block: nat, ofs: nat, pos: nat, n: nat)
    requires DiskOk(d) && block * d.header.blockSize + ofs == pos && ofs < d.header.blockSize && n > 0
    requires block >= |d.bmap|
    ensures Outcome(Cells(d), VDI_OK, pos, n, 0, VDI_BAD_BLOCK_MAP_OFFSET)
  {
    InBlock(d, block, ofs, pos, 0);
  }

  /** What a request for 0 bytes returns: reading nothing from the file counts as a failure. */
  function EmptyRead(d: Disk, pos: nat): VdiError
    requires d.header.blockSize > 0
  {
    var block, ofs := pos / d.header.blockSize, pos % d.header.blockSize;
    if block >= |d.bmap| then VDI_BAD_BLOCK_MAP_OFFSET
    else if IsNull(d.bmap[block]) then VDI_OK
    else if FilePosition(d, block, ofs) >= MAX_SEEK then VDI_CANNOT_SEEK
    else VDI_CANNOT_READ_DATA
  }

  /**
   * The result of a read in which k bytes were got. Requests that reach behind the end of the disk are refused. Of others,
   * as many bytes are read as the count says in 32 bits.
   */
  ghost predicate ReadResult(d: Disk, seek: nat, count: nat, before: seq<byte>, after: seq<byte>, k: nat, rc: VdiError)
    requires DiskOk(d) && count <= |before|
  {
    if seek + count > d.header.diskSize then rc == VDI_READ_BEYOND_END_OF_IMAGE && after == before
    else if count % U32 == 0 then rc == EmptyRead(d, seek) && after == before
    else Outcome(Cells(d), VDI_OK, seek, count % U32, k, rc) && Copied(Cells(d), seek, k, before, after)
  }

  // ----- the reader -----

  /** What VdiOpen makes of a file. */
  function OpenError(file: seq<byte>): VdiError {
    if |file| < READ_HEADER_SIZE then VDI_CANNOT_READ_DATA
    else
      var h := ParseFields(file);
      if h.signature != VDI_IMAGE_SIGNATURE then VDI_BAD_MAGIC_HEADER
      else if h.version != VDI_IMAGE_VERSION then VDI_BAD_VERSION
      else if h.blockSize == 0 then VDI_INVALID_BLOCK_SIZE
      else if h.blocksInImage == 0 || h.offsetBmap + 4 * h.blocksInImage > |file| then VDI_CANNOT_READ_DATA
      else VDI_OK
  }

  /** What opening a file gives: the fields of its header, and its block map. */
  ghost predicate OpenedDisk(d: Disk) {
    && |d.file| >= READ_HEADER_SIZE && d.header == ParseFields(d.file)
    && |d.bmap| == d.header.blocksInImage
    && forall i :: 0 <= i < |d.bmap| ==>
         d.header.offsetBmap + 4 * i + 4 <= |d.file| && d.bmap[i] == Word32(d.file, d.header.offsetBmap + 4 * i)
  }

  /** t_Vdi */
  class Vdi {
    const file: seq<byte>
    var filePos: nat
    var header: Header
    var bmap: seq<nat>

    constructor (file: seq<byte>)
      ensures this.file == file && filePos == 0
    {
      this.file, filePos, header, bmap := file, 0, Header(0, 0, 0, 0, 0, 0, 0), [];
    }

    function D(): Disk
      reads this
    {
      Disk(file, header, bmap)
    }

    /** VdiUtilFileSeek; a position that is negative as a long is refused. */
    method FileSeek(offset: nat) returns (rc: VdiError)
      modifies `filePos
      ensures rc == if offset >= MAX_SEEK then VDI_CANNOT_SEEK else VDI_OK
      ensures rc == VDI_OK ==> filePos == offset
    {
      if offset >= MAX_SEEK {
        return VDI_CANNOT_SEEK;
      }
      filePos := offset;
      rc := VDI_OK;
    }

    /** VdiUtilFileRead: all of it or failure; what the file still has is stored in any case. */
    method FileRead(p_buf: array<byte>, at: nat, size: nat) returns (rc: VdiError)
      requires at + size <= p_buf.Length
      modifies `filePos, p_buf
      ensures rc == if size > 0 && old(filePos) + size <= |file| then VDI_OK else VDI_CANNOT_READ_DATA
      ensures var k := if old(filePos) >= |file| then 0 else Min(size, |file| - old(filePos));
        p_buf[..] == if k == 0 then old(p_buf[..]) else Splice(old(p_buf[..]), at, file[old(filePos)..old(filePos) + k])
    {
      var k := if filePos >= |file| then 0 else Min(size, |file| - filePos);
      if k > 0 {
        Memcpy(p_buf, at, file[filePos..filePos + k]);
      }
      filePos := filePos + k;
      rc := if size > 0 && k == size then VDI_OK else VDI_CANNOT_READ_DATA;
    }

    /** VdiParseHeader */
    method ParseHeader() returns (rc: VdiError)
      requires filePos == 0
      modifies `filePos, `header
      ensures rc == if OpenError(file) in {VDI_BAD_MAGIC_HEADER, VDI_BAD_VERSION, VDI_INVALID_BLOCK_SIZE} || |file| < READ_HEADER_SIZE
                    then OpenError(file) else VDI_OK
      ensures rc == VDI_OK ==> |file| >= READ_HEADER_SIZE && header == ParseFields(file) && header.blockSize > 0
    {
      hide Word32, Word64;
      var p_buf := new byte[READ_HEADER_SIZE](i => 0);
      rc := FileRead(p_buf, 0, READ_HEADER_SIZE);
      if rc != VDI_OK {
        return;
      }
      HeaderRead(p_buf[..], file);
      header := ParseFields(p_buf[..]);
      if header.signature != VDI_IMAGE_SIGNATURE {
        return VDI_BAD_MAGIC_HEADER;
      }
      if header.version != VDI_IMAGE_VERSION {
        return VDI_BAD_VERSION;
      }
      if header.blockSize == 0 {
        return VDI_INVALID_BLOCK_SIZE;
      }
    }

    /** VdiOpen */
    method Open() returns (rc: VdiError)
      requires filePos == 0 && |file| < MAX_SEEK
      modifies this
      ensures rc == OpenError(file)
      ensures rc == VDI_OK ==> DiskOk(D()) && OpenedDisk(D())
    {
      hide ParseFields;
      rc := ParseHeader();
      if rc != VDI_OK {
        return;
      }
      FieldBounds(file);
      rc := LoadBlockMap();
    }

    /** The block map, read into memory. */
    method LoadBlockMap() returns (rc: VdiError)
      requires header.offsetBmap < U32
      modifies `filePos, `bmap
      ensures rc == if header.blocksInImage == 0 || header.offsetBmap + 4 * header.blocksInImage > |file| then VDI_CANNOT_READ_DATA else VDI_OK
      ensures rc == VDI_OK ==> |bmap| == header.blocksInImage
      ensures rc == VDI_OK ==> forall i :: 0 <= i < |bmap| ==> bmap[i] < U32 && bmap[i] == Word32(file, header.offsetBmap + 4 * i)
    {
      hide Word32;
      var n := header.blocksInImage;
      rc := FileSeek(header.offsetBmap);
      if rc != VDI_OK {
        return;
      }
      var map0 := new byte[4 * n](i => 0);
      rc := FileRead(map0, 0, 4 * n);
      if rc != VDI_OK {
        return;
      }
      MapRead(map0[..], file, header.offsetBmap);
      bmap := WordsOf(map0[..], n);
    }

    /** VdiRead0: one piece of at most the rest of a block. */
    method Read0(p_buf: array<byte>, at: nat, seek: nat, count: nat) returns (rc: VdiError, n: nat, ghost k: nat)
      requires DiskOk(D()) && at + count <= p_buf.Length
      modifies `filePos, p_buf
      ensures n <= count && (rc == VDI_OK && count > 0 ==> n > 0)
      ensures count > 0 ==> Outcome(Cells(D()), VDI_OK, seek, n, k, rc)
      ensures count == 0 ==> rc == EmptyRead(D(), seek) && k == 0
      ensures CopiedAt(Cells(D()), seek, k, old(p_buf[..]), at, p_buf[..])
    {
      hide Outcome, Available, Stretch, Cells, CopiedAt, Splice;
      DivMod(seek, header.blockSize, seek / header.blockSize);
      var seekBlock, seekOffset := seek / header.blockSize, seek % header.blockSize;
      n, k := count, 0;
      ghost var before := p_buf[..];
      NoBytesAt(Cells(D()), seek, before, at);
      if seekBlock >= header.blocksInImage {
        if count > 0 {
          OutsideOutcome(D(), seekBlock, seekOffset, seek, n);
        }
        return VDI_BAD_BLOCK_MAP_OFFSET, n, k;
      }
      var fileBlock := bmap[seekBlock];
      n := Min(count, header.blockSize - seekOffset);
      if fileBlock == VDI_BLOCK_DISCARDED || fileBlock == VDI_BLOCK_UNALLOCATED {
        Memcpy(p_buf, at, Zeros(n));
        if count > 0 {
          NullOutcome(D(), seekBlock, seekOffset, seek, n);
          k := n;
          CopiedStretch(Cells(D()), seek, before, at, Zeros(n));
        } else {
          SpliceNothing(before, at);
          assert Zeros(0) == [];
        }
        return VDI_OK, n, k;
      }
      var filePosition := header.offsetData + fileBlock * header.blockSize + seekOffset;
      assert filePosition == FilePosition(D(), seekBlock, seekOffset);
      if count > 0 {
        k := PieceOutcome(D(), seekBlock, seekOffset, seek, n);
      }
      rc := FileSeek(filePosition);
      if rc != VDI_OK {
        return;
      }
      rc := FileRead(p_buf, at, n);
      if k > 0 {
        CopiedStretch(Cells(D()), seek, before, at, file[filePosition..filePosition + k]);
      }
    }

    /** VdiRead. The number of bytes still to read is kept in 32 bits; `n` is what is read of it. */
    method Read(p_buf: array<byte>, seek: nat, count: nat) returns (rc: VdiError, read: nat, ghost k: nat)
      requires DiskOk(D()) && count <= p_buf.Length && seek + count < U64
      modifies `filePos, p_buf
      ensures rc == VDI_OK ==> read == count
      ensures ReadResult(D(), seek, count, old(p_buf[..]), p_buf[..], k, rc)
    {
      hide Outcome, Available, Stretch, Cells, Splice, CopiedAt, Copied, EmptyRead, DiskOk;
      read, k := 0, 0;
      if seek + count > header.diskSize {
        return VDI_READ_BEYOND_END_OF_IMAGE, read, k;
      }
      var remaining, bufPos, pos := count % U32, 0, seek;
      ghost var n, before := remaining, p_buf[..];
      NoBytes(Cells(D()), seek, before);
      if remaining == 0 {
        // the loop's condition is tested at its end
        var toRead;
        rc, toRead, k := Read0(p_buf, 0, seek, 0);
        CopiedNothing(Cells(D()), seek, before, 0, p_buf[..]);
        read := if rc == VDI_OK then count else 0;
        return;
      }
      while remaining != 0
        invariant 0 <= remaining && bufPos + remaining == n <= |before| && pos == seek + bufPos
        invariant D() == old(D())
        invariant Copied(Cells(D()), seek, bufPos, before, p_buf[..])
        decreases remaining
      {
        var toRead;
        ghost var part, was := 0, p_buf[..];
        rc, toRead, part := Read0(p_buf, bufPos, pos, remaining);
        AnotherPiece(Cells(D()), VDI_OK, seek, bufPos, toRead, part, rc, remaining - toRead, before, was, p_buf[..]);
        k := bufPos + part;
        if rc != VDI_OK {
          return;
        }
        remaining, bufPos, pos := remaining - toRead, bufPos + toRead, pos + toRead;
      }
      k := bufPos;
      AllCopied(Cells(D()), VDI_OK, seek, k, before, p_buf[..]);
      rc, read := VDI_OK, count;
    }
  }

  lemma HeaderRead(h: seq<byte>, file: seq<byte>)
    requires |h| == READ_HEADER_SIZE <= |file| && h == Splice(h, 0, file[0..READ_HEADER_SIZE])
    ensures ParseFields(h) == ParseFields(file)
  {
    assert h == file[..READ_HEADER_SIZE];
    Shorter(file, READ_HEADER_SIZE);
  }

  function WordsOf(s: seq<byte>, n: nat): (words: seq<nat>)
    requires 4 * n <= |s|
    ensures |words| == n && forall i :: 0 <= i < n ==> words[i] == Word32(s, 4 * i)
  {
    seq(n, i requires 0 <= i < n => Word32(s, 4 * i))
  }

  lemma MapRead(words: seq<byte>, file: seq<byte>, at: nat)
    requires at + |words| <= |file| && words == Splice(words, 0, file[at..at + |words|])
    ensures forall i :: 0 <= i && 4 * i + 4 <= |words| ==> Word32(words, 4 * i) == Word32(file, at + 4 * i) < U32
  {
    assert words == file[at..at + |words|];
    forall i | 0 <= i && 4 * i + 4 <= |words|
      ensures Word32(words, 4 * i) == Word32(file, at + 4 * i) < U32
    {
      hide FromLe;
      WordBound(words, 4 * i);
      SubSlice(file, at, at + |words|, 4 * i, 4 * i + 4);
    }
  }

  lemma WordBound(s: seq<byte>, at: nat)
    requires at + 4 <= |s|
    ensures Word32(s, at) < U32
  {
    Widths();
    FromLeBound(s[at..at + 4]);
  }

  lemma FieldBounds(file: seq<byte>)
    requires |file| >= READ_HEADER_SIZE
    ensures var h := ParseFields(file); h.offsetBmap < U32 && h.offsetData < U32 && h.blockSize < U32 && h.blocksInImage < U32
  {
    hide Word32;
    WordBound(file, 340);
    WordBound(file, 344);
    WordBound(file, 376);
    WordBound(file, 384);
  }
}
