/** Concrete AEWF files for statements that something can happen. */
module AewfExamples {
  import opened Bytes
  import opened AewfFormat
  import opened AewfSegments
  import opened AewfWriter
  import opened Lookup
  import Aewf
  import O = AewfOpen

  const VOLUME: seq<byte> := [118, 111, 108, 117, 109, 101] + Zeros(10)

  lemma VolumeName()
    ensures IsVolume(VOLUME)
  {
    assert O.Spells(VOLUME, "volume");
  }

  // ----- a table that wraps around -----

  const ONE_ENTRY: seq<byte> := [193, 4, 0, 0]

  /** One chunk of one sector; the table section is as long as is left up to position 2^64. */
  const WRAPPING := Sample(VOLUME, O.VolumeInfo(1, 1, 512, 1), [], 0, ONE_ENTRY, U64 - CHUNKS_AT)

  /** AewfOpen accepts this file, but its table ends outside of it. */
  method WrappedTable(codec: Codec) returns (h: Aewf.Handle)
    ensures h.files == [File(WRAPPING)] && |h.infos| == 1 && !O.TableInFile(h.files, h.infos[0]) && !h.Valid()
  {
    WrappingOk();
    hide File, FieldsFit, TableOk, VolumeOk;
    h := OpenSample(WRAPPING, codec, 1);
  }

  lemma WrappingOk()
    ensures FieldsFit(WRAPPING) && TableOk(WRAPPING) && VolumeOk(WRAPPING.v)
    ensures !O.TableInFile([File(WRAPPING)], Info(WRAPPING))
  {
    hide File, IsVolume, O.Spells;
    VolumeName();
    Parts(WRAPPING);
    OneSmallVolume(WRAPPING.v);
  }

  lemma OneSmallVolume(v: O.VolumeInfo)
    requires v.bytesPerSector == 512 && 0 < v.sectorsPerChunk <= 2 && 0 < v.sectorCount <= 3
    ensures VolumeOk(v) && O.ChunkSize(v) == 512 * v.sectorsPerChunk && O.ImageSize(v) == 512 * v.sectorCount
  {
    DivMod(512 * v.sectorCount, U64, 0);
  }

  // ----- a size that does not fit -----

  /** Three sectors of 512 bytes in one chunk of two sectors. */
  const MISFIT := Sample(VOLUME, O.VolumeInfo(1, 2, 512, 3), [], 0, ONE_ENTRY, 104)

  /**
   * AewfOpen does not compare the size of an image with the number of its chunks. Here the last chunk's length is that of
   * the rest of the image, although the chunk is not where that rest would be: the image has bytes behind the chunk's end.
   */
  method MisfitVolume(codec: Codec) returns (h: Aewf.Handle)
    ensures h.Valid() && !h.Opened()
    ensures h.chunks == 1 && h.chunkSize == 1024 && h.imageSize == 1536 && ChunkLen(h.imageSize, h.chunkSize, h.chunks, 0) == 512
  {
    MisfitOk();
    hide File, FieldsFit, TableOk, VolumeOk;
    h := OpenSample(MISFIT, codec, 1);
  }

  lemma MisfitOk()
    ensures FieldsFit(MISFIT) && TableOk(MISFIT) && VolumeOk(MISFIT.v)
    ensures O.ChunkSize(MISFIT.v) == 1024 && O.ImageSize(MISFIT.v) == 1536
  {
    hide File, IsVolume, O.Spells, VolumeOk, O.ChunkSize, O.ImageSize;
    VolumeName();
    Parts(MISFIT);
    OneSmallVolume(MISFIT.v);
    DivMod(TableAt(MISFIT) + 104, U64, 0);
  }

  // ----- an image with a chunk that cannot be read -----

  const DISK: seq<byte> := [68, 73, 83, 75] + Zeros(12)

  /** An image of two chunks of one byte: the second has a wrong checksum. */
  const TWO_CHUNKS := O.VolumeInfo(2, 1, 1, 2)

  function TwoPieces(codec: Codec): seq<Piece> {
    [Piece(false, [65] + Le(codec.adler32([65]), 4)), Piece(false, [66] + Le((codec.adler32([66]) + 1) % U32, 4))]
  }

  lemma TwoPlaces(codec: Codec)
    ensures |Laid(TwoPieces(codec))| == 10 && Place(TwoPieces(codec), 0) == 0 && Place(TwoPieces(codec), 1) == 5
  {
    hide Le;
    var pieces := TwoPieces(codec);
    PieceHere(pieces, 0);
    PieceHere(pieces, 1);
    assert pieces[..0] == [];
  }

  lemma TwoWritable(codec: Codec)
    ensures Writable(DISK, TWO_CHUNKS, CHUNKS_AT, TwoPieces(codec))
    ensures O.ChunkSize(TWO_CHUNKS) == 1 && O.ImageSize(TWO_CHUNKS) == 2
  {
    hide Laid, Place;
    TwoPlaces(codec);
    assert O.Spells(DISK, "disk");
  }

  ghost predicate IsTwoChunks(h: Aewf.Handle) {
    var s := Written(DISK, TWO_CHUNKS, CHUNKS_AT, TwoPieces(h.codec));
    && h.files == [File(s)] && h.infos == [Info(s)]
    && (forall s :: h.codec.adler32(s) < U32)
    && h.chunkSize == 1 && h.imageSize == 2 && h.chunks == 2
  }

  lemma TwoContents(h: Aewf.Handle)
    requires IsTwoChunks(h) && h.Opened()
    ensures h.Content(0) == Good([65]) && h.Content(1) == Bad(AEWF_CHUNK_CRC_ERROR)
    ensures h.NoShort() && h.Harmless()
  {
    hide File, TableData, Laid, Place, Holds, Meaning, Writable, Aewf.Handle.Content;
    var pieces := TwoPieces(h.codec);
    TwoWritable(h.codec);
    TableHere(h, Written(DISK, TWO_CHUNKS, CHUNKS_AT, pieces), DISK, TWO_CHUNKS, CHUNKS_AT, pieces);
    WrittenHolds(DISK, TWO_CHUNKS, CHUNKS_AT, pieces, h.TableBytes(0));
    WrittenContent(h, 0, 0, CHUNKS_AT, pieces);
    WrittenContent(h, 0, 1, CHUNKS_AT, pieces);
    TwoMeanings(h.codec);
    Steady(h);
  }

  lemma TwoMeanings(codec: Codec)
    requires forall s :: codec.adler32(s) < U32
    ensures var pieces := TwoPieces(codec);
      Meaning(codec, pieces[0], 1, 1 + EXTRA) == Good([65]) && Meaning(codec, pieces[1], 1, 1 + EXTRA) == Bad(AEWF_CHUNK_CRC_ERROR)
  {
    hide Le, Meaning, Stores;
    WithChecksum(codec, [65]);
    MeaningIsData(codec, TwoPieces(codec)[0], [65], 1, 1 + EXTRA);
    WrongChecksum(codec, 66);
  }

  lemma WrongChecksum(codec: Codec, x: byte)
    requires codec.adler32([x]) < U32
    ensures Meaning(codec, Piece(false, [x] + Le((codec.adler32([x]) + 1) % U32, 4)), 1, 1 + EXTRA) == Bad(AEWF_CHUNK_CRC_ERROR)
  {
    var wrong := (codec.adler32([x]) + 1) % U32;
    Le4(wrong);
    hide Le, FromLe;
    var raw := [x] + Le(wrong, 4);
    assert raw[..1] == [x] && raw[1..5] == Le(wrong, 4) && Got(raw, 0, 5) == raw;
  }

  lemma Steady(h: Aewf.Handle)
    requires h.Opened() && h.chunks == 2 && h.Content(0).Good? && h.Content(1).Bad?
    ensures h.NoShort() && h.Harmless()
  {
    hide Aewf.Handle.Content, Aewf.Handle.Opened;
    forall c: nat | c < h.chunks
      ensures !h.Content(c).Short? && !h.Content(c).Torn?
    {
      assert c == 0 || c == 1;
    }
  }

  method OpenTwoChunks(codec: Codec, threadCount: nat) returns (h: Aewf.Handle)
    requires forall s :: codec.adler32(s) < U32
    ensures fresh(h) && IsTwoChunks(h) && h.codec == codec && h.threadCount == threadCount
    ensures h.Valid() && h.Opened() && h.NoShort() && h.Harmless()
    ensures h.Content(0) == Good([65]) && h.Content(1) == Bad(AEWF_CHUNK_CRC_ERROR)
  {
    hide File, FieldsFit, TableOk, VolumeOk, Laid, Writable, Aewf.Handle.Content, Aewf.Handle.Valid, Aewf.Handle.Opened, Aewf.Handle.NoShort, Aewf.Handle.Harmless;
    TwoWritable(codec);
    WrittenOk(DISK, TWO_CHUNKS, CHUNKS_AT, TwoPieces(codec));
    h := OpenSample(Written(DISK, TWO_CHUNKS, CHUNKS_AT, TwoPieces(codec)), codec, threadCount);
    TwoContents(h);
  }

  /** A read of both bytes reports success and stores less than both: with one thread, the first one. */
  method ShortCount(codec: Codec, threadCount: nat) returns (rc: ErrorCode, read: nat, p_buf: array<byte>)
    requires (forall s :: codec.adler32(s) < U32) && threadCount > 0
    ensures rc == AEWF_OK && read < 2 <= p_buf.Length && (read == 1 ==> p_buf[0] == 65)
    ensures threadCount == 1 ==> read == 1
  {
    hide Aewf.Handle.Content, Aewf.Handle.Valid, Aewf.Handle.Opened, Aewf.Handle.NoShort, Aewf.Handle.Harmless, Aewf.Handle.ReadResult, IsTwoChunks;
    var h := OpenTwoChunks(codec, threadCount);
    TwoCells(h);
    p_buf := new byte[2];
    rc, read := h.Read(p_buf, 0, 2);
    NotBoth(h, read, p_buf[..]);
  }

  lemma TwoCells(h: Aewf.Handle)
    requires IsTwoChunks(h) && h.Opened() && h.Content(0) == Good([65]) && h.Content(1).Bad?
    ensures h.imageSize == 2 && h.Cells()(0) == Byte(65) && h.Cells()(1).Fails?
  {
    hide Aewf.Handle.Content, Aewf.Handle.Cells;
    h.CellIn(0, 0, 0);
    h.CellIn(1, 0, 1);
  }

  lemma NotBoth(h: Aewf.Handle, read: nat, p: seq<byte>)
    requires h.Opened() && h.Cells()(0) == Byte(65) && h.Cells()(1).Fails?
    requires h.ReadResult(0, 2, read, p)
    ensures read < 2 && (read == 1 ==> p[0] == 65) && (h.threadCount == 1 ==> read == 1)
  {
    hide Aewf.Handle.Cells, Aewf.Handle.Opened;
    if read == 1 {
      assert Stretch(h.Cells(), 0, read)[0] == p[..read][0] == p[0];
    }
  }

  /** With several threads, the first read of the second byte fails, and the same read again succeeds. */
  method ReadTwice(codec: Codec, threadCount: nat) returns (rc1: ErrorCode, rc2: ErrorCode, read2: nat)
    requires (forall s :: codec.adler32(s) < U32) && threadCount > 0
    ensures rc1 != AEWF_OK && rc2 == AEWF_OK && read2 == 1
  {
    hide Aewf.Handle.Content, Aewf.Handle.Opened, Aewf.Handle.NoShort;
    var h := OpenTwoChunks(codec, threadCount);
    var p_buf := new byte[1];
    var read1;
    rc1, read1, rc2, read2 := h.RereadAfterFailedRead(p_buf, 1, 0, 1, 1);
  }
}
