/** The parts of an EWF image file that the reader works with: chunk offset tables and stored chunks. */
module AewfFormat {
  import opened Bytes

  const COMPRESSED := 0x8000_0000
  const TABLE_HEADER := 24    // sizeof(t_AewfSectionTable)

  /**
   * The library functions that check and decode stored data. Where uncompress fails, `failedLen` is the output length that
   * it hands back.
   */
  datatype Codec = Codec(
    uncompress: seq<byte> -> Option<seq<byte>>,
    failedLen: seq<byte> -> nat,
    adler32: seq<byte> -> nat)

  /** The fields of t_Table that never change after the image was opened. */
  datatype TableInfo = TableInfo(
    chunkFrom: nat, chunkTo: nat, segment: nat, offset: nat, size: nat, chunkCount: nat,
    sectorsPos: nat, sectorsSize: nat)

  /** The tables cover the chunks 0 .. chunks in order, each a non-empty range of them. */
  ghost predicate Partition(infos: seq<TableInfo>, chunks: nat) {
    && (forall i :: 0 <= i < |infos| ==> infos[i].chunkFrom <= infos[i].chunkTo)
    && (forall i :: 0 <= i < |infos| ==> infos[i].chunkTo == infos[i].chunkFrom + infos[i].chunkCount - 1)
    && (forall i :: 0 < i < |infos| ==> infos[i].chunkFrom == infos[i - 1].chunkTo + 1)
    && (infos == [] ==> chunks == 0)
    && (infos != [] ==> infos[0].chunkFrom == 0 && infos[|infos| - 1].chunkTo == chunks - 1)
  }

  predicate Covers(info: TableInfo, chunk: nat) {
    info.chunkFrom <= chunk <= info.chunkTo
  }

  lemma {:induction false} LaterTable(infos: seq<TableInfo>, chunks: nat, i: nat, j: nat)
    requires Partition(infos, chunks) && i < j < |infos|
    ensures infos[i].chunkTo < infos[j].chunkFrom
  {
    if i + 1 < j {
      LaterTable(infos, chunks, i, j - 1);
    }
  }

  /** Every chunk lies in exactly one table. */
  lemma {:induction false} TableExists(infos: seq<TableInfo>, chunks: nat, chunk: nat, n: nat) returns (t: nat)
    requires Partition(infos, chunks) && 0 < n <= |infos| && chunk <= infos[n - 1].chunkTo
    ensures t < n && Covers(infos[t], chunk)
  {
    if chunk >= infos[n - 1].chunkFrom {
      t := n - 1;
    } else {
      t := TableExists(infos, chunks, chunk, n - 1);
    }
  }

  lemma TableUnique(infos: seq<TableInfo>, chunks: nat, chunk: nat)
    requires Partition(infos, chunks) && chunk < chunks
    ensures exists t :: 0 <= t < |infos| && Covers(infos[t], chunk)
    ensures forall t, u :: 0 <= t < |infos| && 0 <= u < |infos| && Covers(infos[t], chunk) && Covers(infos[u], chunk) ==> t == u
  {
    var t := TableExists(infos, chunks, chunk, |infos|);
    forall t, u | 0 <= t < |infos| && 0 <= u < |infos| && Covers(infos[t], chunk) && Covers(infos[u], chunk)
      ensures t == u
    {
      if t < u {
        LaterTable(infos, chunks, t, u);
      } else if u < t {
        LaterTable(infos, chunks, u, t);
      }
    }
  }

  // ----- stored chunks -----

  /** Entry i of a table's offset array. */
  function OffsetEntry(table: seq<byte>, i: nat): nat
    requires TABLE_HEADER + 4 * i + 4 <= |table|
  {
    Word32(table, TABLE_HEADER + 4 * i)
  }

  /** Where a chunk is stored in its segment file. */
  datatype Stored = Stored(compressed: bool, pos: nat, len: nat)

  /**
   * What entry i of a table says; the position is computed in 64 bits, the length in 32. The table's own chunk count is the one
   * noted when the image was opened.
   */
  function StoredChunk(info: TableInfo, table: seq<byte>, i: nat): Stored
    requires i < info.chunkCount && TABLE_HEADER + 4 * info.chunkCount <= |table|
  {
    var entry := OffsetEntry(table, i);
    var offset := entry % COMPRESSED;
    var pos := (Word64(table, 8) + offset) % U64;
    var len := if i < info.chunkCount - 1
               then (OffsetEntry(table, i + 1) % COMPRESSED - offset) % U32
               else (info.sectorsSize - (pos - info.sectorsPos)) % U32;
    Stored(entry >= COMPRESSED, pos, len)
  }

  // ----- what stored chunks hold -----

  datatype ErrorCode =
    | AEWF_OK
    | AEWF_CHUNK_NOT_FOUND
    | AEWF_ERROR_EWF_TABLE_NOT_READY
    | AEWF_ERROR_EWF_SEGMENT_NOT_READY
    | AEWF_FILE_SEEK_FAILED
    | AEWF_FILE_READ_FAILED
    | AEWF_CHUNK_TOO_BIG
    | AEWF_UNCOMPRESS_FAILED
    | AEWF_BAD_UNCOMPRESSED_LENGTH
    | AEWF_CHUNK_CRC_ERROR
    | AEWF_CHUNK_LENGTH_ZERO
    | AEWF_NEGATIVE_SEEK

  const EXTRA := 4096    // a chunk buffer has so many bytes more than a chunk

  /** What fread gets of n bytes of a file. */
  function Got(file: seq<byte>, pos: nat, n: nat): (s: seq<byte>)
    ensures |s| <= n
    ensures pos + n <= |file| ==> s == file[pos..pos + n]
  {
    if pos >= |file| then [] else file[pos..Min(pos + n, |file|)]
  }

  /** The first len bytes of a buffer are followed by their checksum. */
  predicate CrcOk(codec: Codec, buffer: seq<byte>, len: nat) {
    len + 4 <= |buffer| && codec.adler32(buffer[..len]) == Word32(buffer, len)
  }

  /** uncompress succeeds, with a buffer of this size as destination. */
  predicate Inflates(codec: Codec, raw: seq<byte>, bufferSize: nat) {
    codec.uncompress(raw).Some? && |codec.uncompress(raw).value| <= bufferSize
  }

  /** The output length that uncompress hands back; data that does not fit has filled the buffer. */
  function OutputLen(codec: Codec, raw: seq<byte>, bufferSize: nat): nat {
    match codec.uncompress(raw)
    case None => codec.failedLen(raw)
    case Some(data) => Min(|data|, bufferSize)
  }

  /** What the single-threaded reader makes of it: the check of the length comes last. */
  function InflateError(codec: Codec, raw: seq<byte>, len: nat, bufferSize: nat): ErrorCode {
    if OutputLen(codec, raw, bufferSize) != len then AEWF_BAD_UNCOMPRESSED_LENGTH
    else if !Inflates(codec, raw, bufferSize) then AEWF_UNCOMPRESS_FAILED
    else AEWF_OK
  }

  /** What a worker thread makes of it: the check of the length is for a success only. */
  function WorkerInflateError(codec: Codec, raw: seq<byte>, len: nat, bufferSize: nat): ErrorCode {
    if !Inflates(codec, raw, bufferSize) then AEWF_UNCOMPRESS_FAILED
    else if OutputLen(codec, raw, bufferSize) != len then AEWF_BAD_UNCOMPRESSED_LENGTH
    else AEWF_OK
  }

  /** The two name different errors, but for the same bytes. */
  lemma SameInflateFailures(codec: Codec, raw: seq<byte>, len: nat, bufferSize: nat)
    ensures InflateError(codec, raw, len, bufferSize) == AEWF_OK <==> WorkerInflateError(codec, raw, len, bufferSize) == AEWF_OK
    ensures InflateError(codec, raw, len, bufferSize) == AEWF_OK ==> codec.uncompress(raw).Some? && |codec.uncompress(raw).value| == len <= bufferSize
  {
  }

  /**
   * What a stored chunk is: its data, or why it cannot be read. Two kinds of uncompressed chunks are set apart: where the
   * file ends in the middle of one, and where so few bytes are stored that the check also looks at what was in the buffer
   * before.
   */
  datatype ChunkData = Good(data: seq<byte>) | Bad(error: ErrorCode) | Torn(part: seq<byte>) | Short

  function Interpret(codec: Codec, file: seq<byte>, st: Stored, len: nat, bufferSize: nat): (d: ChunkData)
    ensures d.Good? ==> |d.data| == len
    ensures d.Bad? ==> d.error != AEWF_OK
    ensures d == Bad(AEWF_CHUNK_TOO_BIG) <==> st.len > bufferSize
  {
    var got := Got(file, st.pos, st.len);
    if st.len > bufferSize then Bad(AEWF_CHUNK_TOO_BIG)
    else if st.len > 0 && st.pos >= MAX_SEEK then Bad(AEWF_FILE_SEEK_FAILED)
    else if st.compressed then
      if |got| < st.len then Bad(AEWF_FILE_READ_FAILED)
      else if InflateError(codec, got, len, bufferSize) != AEWF_OK then Bad(InflateError(codec, got, len, bufferSize))
      else Good(codec.uncompress(got).value)
    else
      if |got| < st.len then Torn(got)
      else if |got| < len + 4 then Short
      else if CrcOk(codec, got, len) then Good(got[..len])
      else Bad(AEWF_CHUNK_CRC_ERROR)
  }

  function ChunkLen(imageSize: nat, chunkSize: nat, chunks: nat, c: nat): nat
    requires chunkSize > 0
  {
    if c == chunks - 1 && imageSize % chunkSize != 0 then imageSize % chunkSize else chunkSize
  }

  /**
   * Whether a chunk of which too few bytes are stored passes its check is up to what was in the buffer before: for the
   * chunk of one byte that is stored without a checksum, one buffer passes and the other does not.
   */
  lemma ShortChunkDependsOnBuffer(codec: Codec, x: byte, b: seq<byte>, c: seq<byte>)
    requires codec.adler32([x]) < U32
    requires b == [x] + Le(codec.adler32([x]), 4) && c == [x] + Le((codec.adler32([x]) + 1) % U32, 4)
    ensures Interpret(codec, [x], Stored(false, 0, 1), 1, 5) == Short
    ensures [x] <= b && CrcOk(codec, b, 1)
    ensures [x] <= c && !CrcOk(codec, c, 1)
  {
    var sum := codec.adler32([x]);
    Le4(sum);
    Le4((sum + 1) % U32);
    hide Le, FromLe;
    assert b[..1] == [x] && c[..1] == [x];
    assert b[1..5] == Le(sum, 4) && c[1..5] == Le((sum + 1) % U32, 4);
  }
}
