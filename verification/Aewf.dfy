/** The AEWF reader: its caches of tables and open files, and its single- and multi-threaded read functions. */
module Aewf {
  import opened Bytes
  import opened AewfFormat
  import opened AewfThreads
  import opened Lookup

  /** The fields of t_Segment that change. */
  datatype Segment = Segment(isOpen: bool, lastUsed: nat)

  /** The fields of t_Table that change; the table's bytes while it is in memory. */
  datatype Table = Table(ewfTable: Option<seq<byte>>, lastUsed: nat)

  /** The chunk buffer of the single-threaded reader, with the chunk it is marked with. */
  datatype Buffer = Buffer(bytes: seq<byte>, dataLen: nat, mark: Option<nat>)

  function OpenCount(segments: seq<Segment>, n: nat): nat
    requires n <= |segments|
  {
    if n == 0 then 0 else OpenCount(segments, n - 1) + if segments[n - 1].isOpen then 1 else 0
  }

  function LoadedCount(tables: seq<Table>, n: nat): nat
    requires n <= |tables|
  {
    if n == 0 then 0 else LoadedCount(tables, n - 1) + if tables[n - 1].ewfTable.Some? then 1 else 0
  }

  /** The summed size of the first n tables that are in memory. */
  function LoadedSize(infos: seq<TableInfo>, tables: seq<Table>, n: nat): nat
    requires n <= |infos| == |tables|
  {
    if n == 0 then 0 else LoadedSize(infos, tables, n - 1) + if tables[n - 1].ewfTable.Some? then infos[n - 1].size else 0
  }

  lemma {:induction false} OpenCountUpdate(segments: seq<Segment>, i: nat, s: Segment, n: nat)
    requires i < |segments| && n <= |segments|
    ensures OpenCount(segments[i := s], n) ==
      OpenCount(segments, n) + if i < n && s.isOpen != segments[i].isOpen then (if s.isOpen then 1 else -1) else 0
  {
    if n > 0 {
      OpenCountUpdate(segments, i, s, n - 1);
    }
  }

  lemma {:induction false} LoadedUpdate(infos: seq<TableInfo>, tables: seq<Table>, i: nat, t: Table, n: nat)
    requires i < |tables| == |infos| && n <= |tables|
    ensures var change := if i < n && t.ewfTable.Some? != tables[i].ewfTable.Some? then (if t.ewfTable.Some? then 1 else -1) else 0;
      && LoadedCount(tables[i := t], n) == LoadedCount(tables, n) + change
      && LoadedSize(infos, tables[i := t], n) == LoadedSize(infos, tables, n) + change * infos[i].size
  {
    if n > 0 {
      LoadedUpdate(infos, tables, i, t, n - 1);
    }
  }

  lemma {:induction false} NoneOpen(segments: seq<Segment>, n: nat)
    requires n <= |segments| && forall i :: 0 <= i < n ==> !segments[i].isOpen
    ensures OpenCount(segments, n) == 0
  {
    if n > 0 {
      NoneOpen(segments, n - 1);
    }
  }

  lemma {:induction false} NoneLoaded(infos: seq<TableInfo>, tables: seq<Table>, n: nat)
    requires n <= |tables| == |infos| && forall i :: 0 <= i < n ==> tables[i].ewfTable == None
    ensures LoadedCount(tables, n) == 0 && LoadedSize(infos, tables, n) == 0
  {
    if n > 0 {
      NoneLoaded(infos, tables, n - 1);
    }
  }

  /** Files were closed, never one that had been used more recently than one that stayed open. */
  ghost predicate SegmentsEvicted(before: seq<Segment>, after: seq<Segment>) {
    && |after| == |before|
    && (forall i :: 0 <= i < |before| ==> after[i] == before[i] || after[i] == before[i].(isOpen := false))
    && (forall i, j :: 0 <= i < |before| && 0 <= j < |before| && before[i].isOpen && !after[i].isOpen && after[j].isOpen ==>
         before[i].lastUsed <= before[j].lastUsed)
  }

  /** Tables were released, never one that had been used more recently than one that stayed in memory. */
  ghost predicate TablesEvicted(before: seq<Table>, after: seq<Table>) {
    && |after| == |before|
    && (forall i :: 0 <= i < |before| ==> after[i] == before[i] || after[i] == before[i].(ewfTable := None))
    && (forall i, j :: 0 <= i < |before| && 0 <= j < |before| && before[i].ewfTable.Some? && after[i].ewfTable == None && after[j].ewfTable.Some? ==>
         before[i].lastUsed <= before[j].lastUsed)
  }

  /** t_Aewf */
  class Handle {
    const files: seq<seq<byte>>        // the segment files
    const infos: seq<TableInfo>
    const codec: Codec
    const chunkSize: nat
    const imageSize: nat
    const chunks: nat
    const maxTableCache: nat
    const maxOpenSegments: nat

    var segments: seq<Segment>
    var tables: seq<Table>
    var tableCache: nat
    var openSegments: nat

    const threadCount: nat
    var threads: seq<Thread>

    // the single-threaded reader's buffer
    var chunkBuff: seq<byte>
    var chunkBuffDataLen: nat
    var chunkInBuff: Option<nat>

    /** The handle as AewfOpen leaves it: nothing is in memory, no file is open, no thread has a job. */
    constructor (files: seq<seq<byte>>, infos: seq<TableInfo>, codec: Codec, chunkSize: nat, imageSize: nat, chunks: nat,
                 maxTableCache: nat, maxOpenSegments: nat, threadCount: nat)
      ensures this.files == files && this.infos == infos && this.codec == codec && this.chunkSize == chunkSize
      ensures this.imageSize == imageSize && this.chunks == chunks && this.threadCount == threadCount
      ensures this.maxTableCache == maxTableCache && this.maxOpenSegments == maxOpenSegments
      ensures TablesInFiles() ==> Valid()
    {
      this.files, this.infos, this.codec, this.chunkSize := files, infos, codec, chunkSize;
      this.imageSize, this.chunks, this.threadCount := imageSize, chunks, threadCount;
      this.maxTableCache, this.maxOpenSegments := maxTableCache, maxOpenSegments;
      segments := seq(|files|, i => Segment(false, 0));
      tables := seq(|infos|, i => Table(None, 0));
      tableCache, openSegments := 0, 0;
      threads := seq(threadCount, i => Thread(false, Copy, Finished, [], Zeros(chunkSize + EXTRA), 0, None, 0, 0, 0, AEWF_OK));
      chunkBuff, chunkBuffDataLen, chunkInBuff := Zeros(chunkSize + EXTRA), 0, None;
      new;
      NoneOpen(segments, |segments|);
      NoneLoaded(infos, tables, |tables|);
    }

    function TableBytes(t: nat): seq<byte>
      requires t < |infos| && infos[t].segment < |files|
      requires infos[t].offset + infos[t].size <= |files[infos[t].segment]|
    {
      files[infos[t].segment][infos[t].offset..infos[t].offset + infos[t].size]
    }

    /** What opening the image has checked. */
    ghost predicate TablesInFiles() {
      forall t :: 0 <= t < |infos| ==>
        && infos[t].segment < |files|
        && infos[t].offset + infos[t].size <= |files[infos[t].segment]|
        && TABLE_HEADER + 4 * infos[t].chunkCount <= infos[t].size
    }

    /** The counter says how many files are open; the limit is exceeded only by a single one. */
    ghost predicate SegmentsOk()
      reads `segments, `openSegments
    {
      && |segments| == |files|
      && openSegments == OpenCount(segments, |segments|)
      && (openSegments > maxOpenSegments ==> openSegments == 1)
    }

    /** The counter says how many bytes of tables are in memory; the limit is exceeded only by a single table. */
    ghost predicate TablesOk()
      reads `tables, `tableCache
    {
      && TablesInFiles()
      && |tables| == |infos|
      && tableCache == LoadedSize(infos, tables, |tables|)
      && (tableCache > maxTableCache ==> LoadedCount(tables, |tables|) == 1)
      && (forall t :: 0 <= t < |tables| && tables[t].ewfTable.Some? ==> tables[t].ewfTable.value == TableBytes(t))
    }

    ghost predicate CachesOk()
      reads `segments, `openSegments, `tables, `tableCache
    {
      SegmentsOk() && TablesOk()
    }

    /** The open segment file that has not been used for the longest time, the first of several. */
    method OldestSegment() returns (oldest: Option<nat>)
      ensures oldest == None ==> forall i :: 0 <= i < |segments| ==> !segments[i].isOpen
      ensures oldest.Some? ==> oldest.value < |segments| && segments[oldest.value].isOpen
      ensures oldest.Some? ==> forall i :: 0 <= i < |segments| && segments[i].isOpen ==> segments[oldest.value].lastUsed <= segments[i].lastUsed
      ensures oldest.Some? ==> forall i :: 0 <= i < oldest.value && segments[i].isOpen ==> segments[oldest.value].lastUsed < segments[i].lastUsed
    {
      oldest := None;
      for i := 0 to |segments|
        invariant oldest == None ==> forall j :: 0 <= j < i ==> !segments[j].isOpen
        invariant oldest.Some? ==> oldest.value < i && segments[oldest.value].isOpen
        invariant oldest.Some? ==> forall j :: 0 <= j < i && segments[j].isOpen ==> segments[oldest.value].lastUsed <= segments[j].lastUsed
        invariant oldest.Some? ==> forall j :: 0 <= j < oldest.value && segments[j].isOpen ==> segments[oldest.value].lastUsed < segments[j].lastUsed
      {
        if !segments[i].isOpen {
          continue;
        }
        if oldest == None || segments[i].lastUsed < segments[oldest.value].lastUsed {
          oldest := Some(i);
        }
      }
    }

    /** AewfOpenSegment */
    method OpenSegment(s: nat)
      requires SegmentsOk() && s < |segments|
      modifies `segments, `openSegments
      ensures SegmentsOk() && segments[s].isOpen
      ensures old(segments[s].isOpen) ==> segments == old(segments)
      ensures !old(segments[s].isOpen) ==> SegmentsEvicted(old(segments), segments[s := old(segments)[s]])
      ensures !old(segments[s].isOpen) ==> openSegments == Min(old(openSegments), if maxOpenSegments > 0 then maxOpenSegments - 1 else 0) + 1
    {
      if segments[s].isOpen {
        return;
      }
      while openSegments >= maxOpenSegments
        invariant |segments| == |files| && openSegments == OpenCount(segments, |segments|)
        invariant segments[s] == old(segments)[s] && SegmentsEvicted(old(segments), segments)
        invariant openSegments == old(openSegments) || maxOpenSegments <= openSegments + 1 <= old(openSegments)
        decreases openSegments
      {
        var oldest := OldestSegment();
        if oldest == None {
          NoneOpen(segments, |segments|);
          break;
        }
        OpenCountUpdate(segments, oldest.value, segments[oldest.value].(isOpen := false), |segments|);
        segments := segments[oldest.value := segments[oldest.value].(isOpen := false)];
        openSegments := openSegments - 1;
      }
      OpenCountUpdate(segments, s, segments[s].(isOpen := true), |segments|);
      ghost var before := segments;
      segments := segments[s := segments[s].(isOpen := true)];
      assert segments[s := old(segments)[s]] == before;
      openSegments := openSegments + 1;
    }

    /** The table in memory that has not been used for the longest time, the first of several. */
    method OldestTable() returns (oldest: Option<nat>)
      ensures oldest == None ==> forall i :: 0 <= i < |tables| ==> tables[i].ewfTable == None
      ensures oldest.Some? ==> oldest.value < |tables| && tables[oldest.value].ewfTable.Some?
      ensures oldest.Some? ==> forall i :: 0 <= i < |tables| && tables[i].ewfTable.Some? ==> tables[oldest.value].lastUsed <= tables[i].lastUsed
      ensures oldest.Some? ==> forall i :: 0 <= i < oldest.value && tables[i].ewfTable.Some? ==> tables[oldest.value].lastUsed < tables[i].lastUsed
    {
      oldest := None;
      for i := 0 to |tables|
        invariant oldest == None ==> forall j :: 0 <= j < i ==> tables[j].ewfTable == None
        invariant oldest.Some? ==> oldest.value < i && tables[oldest.value].ewfTable.Some?
        invariant oldest.Some? ==> forall j :: 0 <= j < i && tables[j].ewfTable.Some? ==> tables[oldest.value].lastUsed <= tables[j].lastUsed
        invariant oldest.Some? ==> forall j :: 0 <= j < oldest.value && tables[j].ewfTable.Some? ==> tables[oldest.value].lastUsed < tables[j].lastUsed
      {
        if tables[i].ewfTable == None {
          continue;
        }
        if oldest == None || tables[i].lastUsed < tables[oldest.value].lastUsed {
          oldest := Some(i);
        }
      }
    }

    /** If tables were released, then the last of them in order of use would not have fitted any more. */
    ghost predicate OnlyNeeded(before: seq<Table>, after: seq<Table>, cacheSize: nat)
      requires |before| == |after| == |infos|
    {
      after != before ==>
        exists e :: 0 <= e < |before| && Released(before, after, e) && cacheSize + infos[e].size > maxTableCache
          && forall i :: 0 <= i < |before| && Released(before, after, i) ==> before[i].lastUsed <= before[e].lastUsed
    }

    predicate Released(before: seq<Table>, after: seq<Table>, i: nat)
      requires i < |before| == |after|
    {
      before[i].ewfTable.Some? && after[i].ewfTable == None
    }

    /** What holds of the tables in memory while some are being released. */
    ghost predicate Counted()
      reads `tables, `tableCache
    {
      && TablesInFiles()
      && |tables| == |infos|
      && tableCache == LoadedSize(infos, tables, |tables|)
      && (forall u :: 0 <= u < |tables| && tables[u].ewfTable.Some? ==> tables[u].ewfTable.value == TableBytes(u))
    }

    /** The table that is released next was used no earlier than those released before it. */
    lemma ReleaseNext(before: seq<Table>, after: seq<Table>, e: nat, cacheSize: nat)
      requires |before| == |after| == |infos| && e < |infos| && after[e].ewfTable.Some?
      requires forall i :: 0 <= i < |after| && after[i].ewfTable.Some? ==> after[e].lastUsed <= after[i].lastUsed
      requires TablesEvicted(before, after) && infos[e].size <= cacheSize && cacheSize > maxTableCache
      ensures var next := after[e := after[e].(ewfTable := None)];
        TablesEvicted(before, next) && OnlyNeeded(before, next, cacheSize - infos[e].size)
    {
      var next := after[e := after[e].(ewfTable := None)];
      assert Released(before, next, e);
      forall i | 0 <= i < |before| && Released(before, next, i)
        ensures before[i].lastUsed <= before[e].lastUsed
      {
        assert i == e || Released(before, after, i);
      }
    }

    lemma AtMostAll(e: nat)
      requires Counted() && e < |tables| && tables[e].ewfTable.Some?
      ensures LoadedCount(tables, |tables|) > 0 && infos[e].size <= tableCache
      ensures var next := tables[e := tables[e].(ewfTable := None)];
        LoadedCount(next, |next|) == LoadedCount(tables, |tables|) - 1 && LoadedSize(infos, next, |next|) == tableCache - infos[e].size
    {
      LoadedUpdate(infos, tables, e, tables[e].(ewfTable := None), |tables|);
    }

    /** The loop of AewfLoadEwfTable that gives up tables in order to make room for table t. */
    method ReleaseTables(t: nat)
      requires Counted() && t < |tables| && tables[t].ewfTable == None
      modifies `tables, `tableCache
      ensures Counted() && tables[t] == old(tables)[t]
      ensures TablesEvicted(old(tables), tables) && OnlyNeeded(old(tables), tables, tableCache + infos[t].size)
      ensures tableCache + infos[t].size > maxTableCache ==> LoadedCount(tables, |tables|) == 0
    {
      hide TablesEvicted, LoadedCount, LoadedSize, OnlyNeeded;
      ghost var before := tables;
      NoneReleased(before, tableCache + infos[t].size);
      while tableCache + infos[t].size > maxTableCache
        invariant Counted() && tables[t] == before[t]
        invariant TablesEvicted(before, tables) && OnlyNeeded(before, tables, tableCache + infos[t].size)
        decreases LoadedCount(tables, |tables|)
      {
        var oldest := OldestTable();
        if oldest == None {
          NoneLoaded(infos, tables, |tables|);
          break;
        }
        AtMostAll(oldest.value);
        ReleaseNext(before, tables, oldest.value, tableCache + infos[t].size);
        tableCache := tableCache - infos[oldest.value].size;
        tables := tables[oldest.value := tables[oldest.value].(ewfTable := None)];
      }
    }

    lemma NoneReleased(before: seq<Table>, cacheSize: nat)
      requires |before| == |infos|
      ensures TablesEvicted(before, before) && OnlyNeeded(before, before, cacheSize)
    {
    }

    /** AewfLoadEwfTable */
    method LoadEwfTable(t: nat)
      requires CachesOk() && t < |tables|
      modifies `segments, `openSegments, `tables, `tableCache
      ensures CachesOk() && tables[t].ewfTable.Some?
      ensures old(tables[t].ewfTable.Some?) ==> tables == old(tables) && segments == old(segments)
      ensures old(tables[t].ewfTable == None) ==> TablesEvicted(old(tables), tables[t := old(tables)[t]])
      ensures old(tables[t].ewfTable == None) ==> OnlyNeeded(old(tables), tables[t := old(tables)[t]], tableCache)
    {
      hide TablesEvicted, OnlyNeeded, OpenCount;
      if tables[t].ewfTable.Some? {
        return;
      }
      ReleaseTables(t);
      OpenSegment(infos[t].segment);
      LoadedUpdate(infos, tables, t, tables[t].(ewfTable := Some(TableBytes(t))), |tables|);
      ghost var released := tables;
      tables := tables[t := tables[t].(ewfTable := Some(TableBytes(t)))];
      assert tables[t := old(tables)[t]] == released;
      tableCache := tableCache + infos[t].size;
    }

    // ----- what the image holds -----

    ghost predicate Geometry() {
      && chunkSize > 0 && chunks > 0
      && (chunks - 1) * chunkSize < imageSize <= chunks * chunkSize
    }

    /** What opening the image establishes, for an image whose chunks are as many as its size needs. */
    ghost predicate Opened() {
      && Geometry()
      && TablesInFiles()
      && Partition(infos, chunks)
    }

    /** The chunk as the segment files have it, found through table t. */
    ghost function ContentIn(t: nat, c: nat): (d: ChunkData)
      requires Opened() && t < |infos| && Covers(infos[t], c)
    {
      Interpret(codec, files[infos[t].segment], StoredChunk(infos[t], TableBytes(t), c - infos[t].chunkFrom),
                ChunkLen(imageSize, chunkSize, chunks, c), chunkSize + EXTRA)
    }

    ghost function Content(c: nat): (d: ChunkData)
      requires Opened() && c < chunks
      ensures d.Good? ==> |d.data| == ChunkLen(imageSize, chunkSize, chunks, c)
      ensures d.Bad? ==> d.error != AEWF_OK
    {
      TableUnique(infos, chunks, c);
      var t: nat :| t < |infos| && Covers(infos[t], c);
      ContentIn(t, c)
    }

    lemma ContentAt(t: nat, c: nat)
      requires Opened() && c < chunks && t < |infos| && Covers(infos[t], c)
      ensures Content(c) == ContentIn(t, c)
    {
      TableUnique(infos, chunks, c);
    }

    /** Why a chunk cannot be read, if it cannot. */
    function ContentError(d: ChunkData): ErrorCode {
      match d
      case Good(_) => AEWF_OK
      case Bad(error) => error
      case Torn(_) => AEWF_FILE_READ_FAILED
      case Short => AEWF_CHUNK_CRC_ERROR
    }

    /** The byte at a position of the image, looked up in its chunk. */
    ghost function CellAt(pos: nat): Cell<ErrorCode>
      requires Opened()
    {
      var c, ofs := Quotient(pos, chunkSize), pos % chunkSize;
      if c >= chunks then Fails(AEWF_CHUNK_NOT_FOUND)
      else match Content(c)
        case Good(data) => if ofs < |data| then Byte(data[ofs]) else Fails(AEWF_CHUNK_NOT_FOUND)
        case _ => Fails(ContentError(Content(c)))
    }

    ghost function Cells(): nat -> Cell<ErrorCode>
      requires Opened()
    {
      (pos: nat) requires Opened() => CellAt(pos)
    }

    /** The image as far as it can be read; zeros stand for the rest. */
    ghost function Image(): (s: seq<byte>)
      requires Opened()
      ensures |s| == imageSize
    {
      seq<byte>(imageSize, pos requires 0 <= pos < imageSize && Opened() => match CellAt(pos) case Byte(b) => b case Fails(_) => 0)
    }

    /** Every chunk can be read. */
    ghost predicate WellFormed() {
      Opened() && forall c: nat :: c < chunks ==> Content(c).Good?
    }

    /** Every uncompressed chunk is stored with as many bytes as its check looks at. */
    ghost predicate NoShort()
      requires Opened()
    {
      forall c: nat :: c < chunks ==> !Content(c).Short?
    }

    /** The pieces of chunks at which files end agree with the chunks that can be read, so that they do no harm in a buffer. */
    ghost predicate Harmless()
      requires Opened()
    {
      forall c: nat, d: nat :: c < chunks && d < chunks && Content(c).Torn? && Content(d).Good? ==> Agree(Content(c).part, Content(d).data)
    }

    predicate Agree(part: seq<byte>, data: seq<byte>) {
      forall k :: 0 <= k < |part| && k < |data| ==> part[k] == data[k]
    }

    /** Position pos is byte ofs of chunk c. */
    ghost predicate At(c: nat, ofs: nat, pos: nat) {
      c * chunkSize + ofs == pos && ofs < chunkSize
    }

    lemma ChunkSizes(c: nat)
      requires Geometry() && c < chunks
      ensures c * chunkSize < imageSize
      ensures ChunkLen(imageSize, chunkSize, chunks, c) == Min(chunkSize, imageSize - c * chunkSize) > 0
      ensures ChunkStart(imageSize, chunkSize, c) == c * chunkSize
      ensures ChunkStart(imageSize, chunkSize, c + 1) == c * chunkSize + ChunkLen(imageSize, chunkSize, chunks, c)
    {
      NextBlock(c, chunkSize);
      MulMono(c, chunks - 1, chunkSize);
      if c < chunks - 1 {
        MulMono(c + 1, chunks - 1, chunkSize);
      } else if imageSize == (c + 1) * chunkSize {
        DivMod(imageSize, chunkSize, c + 1);
      } else {
        DivMod(imageSize, chunkSize, c);
      }
    }

    /** A position of the image lies in one of its chunks. */
    lemma ChunkOf(c: nat, ofs: nat, pos: nat)
      requires Geometry() && At(c, ofs, pos) && pos < imageSize
      ensures c < chunks && ofs < ChunkLen(imageSize, chunkSize, chunks, c)
    {
      MulCancel(c, chunks, chunkSize);
      ChunkSizes(c);
    }

    /** Looking up a position of the image. */
    lemma CellIn(c: nat, ofs: nat, pos: nat)
      requires Opened() && At(c, ofs, pos) && pos < imageSize
      ensures c < chunks && ofs < ChunkLen(imageSize, chunkSize, chunks, c)
      ensures Cells()(pos) == if Content(c).Good? then Byte(Content(c).data[ofs]) else Fails(ContentError(Content(c)))
    {
      hide Content, ChunkLen;
      ChunkOf(c, ofs, pos);
      DivMod(pos, chunkSize, c);
    }

    /** Bytes of a chunk that can be read, from image position pos on. */
    lemma PieceCells(c: nat, ofs: nat, pos: nat, n: nat)
      requires Opened() && At(c, ofs, pos) && pos < imageSize && c < chunks && Content(c).Good? && ofs + n <= |Content(c).data|
      ensures pos + n <= imageSize
      ensures Available(Cells(), pos, n) && Stretch(Cells(), pos, n) == Content(c).data[ofs..ofs + n]
    {
      hide Content, ChunkLen, Cells;
      ChunkSizes(c);
      forall p: nat | pos <= p < pos + n
        ensures Cells()(p) == Byte(Content(c).data[ofs + (p - pos)])
      {
        CellIn(c, ofs + (p - pos), p);
      }
    }

    lemma ImageCells(pos: nat, n: nat)
      requires Opened() && pos + n <= imageSize && Available(Cells(), pos, n)
      ensures Stretch(Cells(), pos, n) == Image()[pos..pos + n]
    {
    }

    /** A chunk that can be read is its part of the image. */
    lemma GoodChunk(c: nat)
      requires Opened() && c < chunks
      ensures |Chunk(Image(), chunkSize, c)| == ChunkLen(imageSize, chunkSize, chunks, c) <= chunkSize
      ensures Content(c).Good? ==> Chunk(Image(), chunkSize, c) == Content(c).data
    {
      hide Content, ChunkLen;
      ChunkSizes(c);
      if Content(c).Good? {
        var n, base := |Content(c).data|, c * chunkSize;
        PieceCells(c, 0, base, n);
        ImageCells(base, n);
        assert Content(c).data[0..n] == Content(c).data;
      }
    }

    /** In a well-formed image everything can be read, and nothing can go wrong with the buffers. */
    lemma WellFormedImage()
      requires WellFormed()
      ensures NoShort() && Harmless() && Available(Cells(), 0, imageSize)
    {
      hide Content, ChunkLen, Cells, CellAt, Quotient;
      forall p: nat | p < imageSize
        ensures Cells()(p).Byte?
      {
        WellFormedByte(p);
      }
    }

    lemma WellFormedByte(p: nat)
      requires WellFormed() && p < imageSize
      ensures Cells()(p).Byte?
    {
      hide Content, ChunkLen, Cells;
      var c: nat := Quotient(p, chunkSize);
      DivMod(p, chunkSize, c);
      CellIn(c, p - c * chunkSize, p);
    }

    // ----- finding and fetching a chunk -----

    /** The search for the table that contains a chunk. */
    method FindTable(c: nat) returns (found: bool, t: nat)
      ensures found ==> t < |infos| && Covers(infos[t], c)
      ensures !found ==> forall u :: 0 <= u < |infos| ==> !Covers(infos[u], c)
    {
      found, t := false, 0;
      while t < |infos|
        invariant t <= |infos| && forall u :: 0 <= u < t ==> !Covers(infos[u], c)
      {
        if infos[t].chunkFrom <= c <= infos[t].chunkTo {
          return true, t;
        }
        t := t + 1;
      }
    }

    /** Marks table and segment as used now, and has them loaded and opened; `now` is the time. */
    method PrepareChunk(c: nat, now: nat) returns (rc: ErrorCode, t: nat)
      requires CachesOk() && Opened() && c < chunks
      modifies `segments, `openSegments, `tables, `tableCache
      ensures CachesOk() && rc == AEWF_OK
      ensures t < |infos| && Covers(infos[t], c) && tables[t].ewfTable.Some? && segments[infos[t].segment].isOpen
    {
      var found;
      found, t := FindTable(c);
      if !found {
        TableUnique(infos, chunks, c);
        rc := AEWF_CHUNK_NOT_FOUND;
        return;
      }
      Touch(t, now);
      LoadEwfTable(t);
      OpenSegment(infos[t].segment);
      rc := AEWF_OK;
    }

    /** Updates LastUsed, in order not to remove the required data from the caches. */
    method Touch(t: nat, now: nat)
      requires CachesOk() && t < |infos|
      modifies `segments, `tables
      ensures CachesOk()
      ensures tables == old(tables)[t := old(tables[t]).(lastUsed := now)]
      ensures segments == old(segments)[infos[t].segment := old(segments[infos[t].segment]).(lastUsed := now)]
    {
      var seg := infos[t].segment;
      LoadedUpdate(infos, tables, t, tables[t].(lastUsed := now), |tables|);
      OpenCountUpdate(segments, seg, segments[seg].(lastUsed := now), |segments|);
      tables := tables[t := tables[t].(lastUsed := now)];
      segments := segments[seg := segments[seg].(lastUsed := now)];
    }

    ghost predicate Prepared(t: nat)
      requires t < |infos| == |tables| && infos[t].segment < |segments|
      reads `tables, `segments
    {
      tables[t].ewfTable.Some? && segments[infos[t].segment].isOpen
    }

    /** The common start of both functions that read one chunk: where it is stored, and the length it must have. */
    method FindStored(t: nat, c: nat) returns (rc: ErrorCode, st: Stored, len: nat)
      requires CachesOk() && Opened() && c < chunks && t < |infos| && Covers(infos[t], c)
      ensures rc == if tables[t].ewfTable == None then AEWF_ERROR_EWF_TABLE_NOT_READY
                    else if !segments[infos[t].segment].isOpen then AEWF_ERROR_EWF_SEGMENT_NOT_READY
                    else if st.len > chunkSize + EXTRA then AEWF_CHUNK_TOO_BIG
                    else AEWF_OK
      ensures Prepared(t) ==> len == ChunkLen(imageSize, chunkSize, chunks, c) <= chunkSize
      ensures Prepared(t) ==>
        Content(c) == Interpret(codec, files[infos[t].segment], st, ChunkLen(imageSize, chunkSize, chunks, c), chunkSize + EXTRA)
    {
      hide Interpret, StoredChunk, LoadedSize, OpenCount, LoadedCount;
      st, len := Stored(false, 0, 0), 0;
      if tables[t].ewfTable == None {
        return AEWF_ERROR_EWF_TABLE_NOT_READY, st, len;
      }
      if !segments[infos[t].segment].isOpen {
        return AEWF_ERROR_EWF_SEGMENT_NOT_READY, st, len;
      }
      ContentAt(t, c);
      ChunkSizes(c);
      st := StoredChunk(infos[t], tables[t].ewfTable.value, c - infos[t].chunkFrom);
      len := ChunkLen(imageSize, chunkSize, chunks, c);
      rc := if st.len > chunkSize + EXTRA then AEWF_CHUNK_TOO_BIG else AEWF_OK;
    }

    /** ReadFilePos: what the file has of the bytes is read in any case, unless the position is negative as a long. */
    method ReadFilePos(t: nat, st: Stored) returns (rc: ErrorCode, got: seq<byte>)
      requires TablesInFiles() && t < |infos|
      ensures rc == PosError(st, files[infos[t].segment])
      ensures got == if rc == AEWF_FILE_SEEK_FAILED then [] else Got(files[infos[t].segment], st.pos, st.len)
      ensures |got| <= st.len && (rc == AEWF_OK ==> |got| == st.len)
    {
      got := [];
      if st.len == 0 {
        return AEWF_OK, got;
      }
      if st.pos >= MAX_SEEK {
        return AEWF_FILE_SEEK_FAILED, got;
      }
      var file := files[infos[t].segment];
      got := if st.pos >= |file| then [] else file[st.pos..Min(st.pos + st.len, |file|)];
      rc := if |got| < st.len then AEWF_FILE_READ_FAILED else AEWF_OK;
    }

    function PosError(st: Stored, file: seq<byte>): ErrorCode {
      if st.len > 0 && st.pos >= MAX_SEEK then AEWF_FILE_SEEK_FAILED
      else if |Got(file, st.pos, st.len)| < st.len then AEWF_FILE_READ_FAILED
      else AEWF_OK
    }

    // ----- the single-threaded reader -----

    function ChunkBuffer(): Buffer
      reads `chunkBuff, `chunkBuffDataLen, `chunkInBuff
    {
      Buffer(chunkBuff, chunkBuffDataLen, chunkInBuff)
    }

    /** The buffer holds the chunk it is marked with. */
    ghost predicate BufferOk(b: Buffer) {
      && |b.bytes| == chunkSize + EXTRA
      && (b.mark.Some? ==> Holds(b, b.mark.value))
    }

    ghost predicate Holds(b: Buffer, c: nat) {
      && Opened() && c < chunks && Content(c).Good?
      && b.dataLen == |Content(c).data| <= |b.bytes|
      && b.bytes[..b.dataLen] == Content(c).data
    }

    ghost predicate LegacyOk()
      reads `chunkBuff, `chunkBuffDataLen, `chunkInBuff
    {
      BufferOk(ChunkBuffer())
    }

    /** What an attempt to read chunk c into the buffer makes of it, and what it returns. */
    ghost predicate Attempted(c: nat, rc: ErrorCode, before: Buffer, after: Buffer)
      requires Opened() && c < chunks
    {
      match Content(c)
      case Good(data) => rc == AEWF_OK && after.mark == Some(c) && Holds(after, c)
      case Bad(error) => rc == error && (after.mark == None || after == before)
      case Torn(part) =>
        && rc == AEWF_FILE_READ_FAILED
        && |part| <= |before.bytes| && after == before.(bytes := part + before.bytes[|part|..])
      case Short => true
    }

    /** An attempt reports what is wrong with the chunk, and the buffer holds what it is marked with if the chunk can be read. */
    lemma AttemptResult(c: nat, rc: ErrorCode, before: Buffer, after: Buffer)
      requires Opened() && c < chunks && NoShort()
      requires Attempted(c, rc, before, after) && |after.bytes| == chunkSize + EXTRA
      ensures rc == ContentError(Content(c)) && (rc == AEWF_OK ==> BufferOk(after) && after.mark == Some(c))
    {
      hide Content;
    }

    /** Where no piece of a chunk can do harm, the buffer holds what it is marked with after every attempt. */
    lemma AttemptKeeps(c: nat, rc: ErrorCode, before: Buffer, after: Buffer)
      requires Opened() && c < chunks && NoShort() && Harmless()
      requires BufferOk(before) && Attempted(c, rc, before, after) && |after.bytes| == chunkSize + EXTRA
      ensures BufferOk(after)
    {
      hide Content;
      if Content(c).Torn? && before.mark.Some? {
        var part, data := Content(c).part, Content(before.mark.value).data;
        assert Agree(part, data);
        assert after.bytes[..|data|] == data;
      }
    }

    /** AewfReadChunkLegacy0 */
    method ReadChunkLegacy0(t: nat, c: nat) returns (rc: ErrorCode)
      requires CachesOk() && Opened() && c < chunks && t < |infos| && Covers(infos[t], c)
      requires |chunkBuff| == chunkSize + EXTRA
      modifies `chunkBuff, `chunkBuffDataLen, `chunkInBuff
      ensures |chunkBuff| == chunkSize + EXTRA
      ensures Prepared(t) ==> Attempted(c, rc, old(ChunkBuffer()), ChunkBuffer())
      ensures tables[t].ewfTable == None ==> rc == AEWF_ERROR_EWF_TABLE_NOT_READY
      ensures tables[t].ewfTable.Some? && !Prepared(t) ==> rc == AEWF_ERROR_EWF_SEGMENT_NOT_READY
    {
      hide CachesOk, Content, ChunkLen, CrcOk, InflateError;
      var st, len;
      rc, st, len := FindStored(t, c);
      if rc != AEWF_OK {
        return;
      }
      var got;
      if st.compressed {
        rc, got := ReadFilePos(t, st);
        if rc != AEWF_OK {
          return;
        }
        rc := InflateIntoBuffer(got, len);
      } else {
        rc, got := ReadFilePos(t, st);
        StoreInBuffer(got);
        if rc != AEWF_OK {
          return;
        }
        rc := CheckBuffer(got, len);
      }
      if rc == AEWF_OK {
        chunkInBuff, chunkBuffDataLen := Some(c), len;
      } else {
        chunkInBuff, chunkBuffDataLen := None, 0;
      }
    }

    /** uncompress, with the chunk buffer as destination, and the two checks behind it. */
    method InflateIntoBuffer(raw: seq<byte>, len: nat) returns (rc: ErrorCode)
      requires |chunkBuff| == chunkSize + EXTRA
      modifies `chunkBuff
      ensures |chunkBuff| == chunkSize + EXTRA
      ensures rc == InflateError(codec, raw, len, chunkSize + EXTRA)
      ensures rc == AEWF_OK ==> chunkBuff[..len] == codec.uncompress(raw).value
    {
      var inflated, outputLen := false, codec.failedLen(raw);
      match codec.uncompress(raw) {
        case None =>
        case Some(data) =>
          outputLen := Min(|data|, |chunkBuff|);
          chunkBuff := data[..outputLen] + chunkBuff[outputLen..];
          inflated := |data| == outputLen;
      }
      rc := AEWF_OK;
      if !inflated {
        rc := AEWF_UNCOMPRESS_FAILED;
      }
      if outputLen != len {
        rc := AEWF_BAD_UNCOMPRESSED_LENGTH;
      }
    }

    method StoreInBuffer(got: seq<byte>)
      requires |got| <= |chunkBuff|
      modifies `chunkBuff
      ensures chunkBuff == got + old(chunkBuff)[|got|..]
    {
      chunkBuff := got + chunkBuff[|got|..];
    }

    /** Compares the checksum behind the first len bytes of the buffer. */
    method CheckBuffer(ghost got: seq<byte>, len: nat) returns (rc: ErrorCode)
      requires len + 4 <= |chunkBuff| && got <= chunkBuff
      ensures rc == if CrcOk(codec, chunkBuff, len) then AEWF_OK else AEWF_CHUNK_CRC_ERROR
      ensures |got| >= len + 4 ==> (CrcOk(codec, chunkBuff, len) <==> CrcOk(codec, got, len)) && chunkBuff[..len] == got[..len]
    {
      if |got| >= len + 4 {
        SameCheck(got, chunkBuff, len);
      }
      rc := if codec.adler32(chunkBuff[..len]) != Word32(chunkBuff, len) then AEWF_CHUNK_CRC_ERROR else AEWF_OK;
    }

    /** The check looks at len + 4 bytes only. */
    lemma SameCheck(got: seq<byte>, buffer: seq<byte>, len: nat)
      requires len + 4 <= |got| && got <= buffer
      ensures (CrcOk(codec, buffer, len) <==> CrcOk(codec, got, len)) && buffer[..len] == got[..len]
    {
      assert buffer[..len] == got[..len];
      assert buffer[len..len + 4] == got[len..len + 4];
    }

    /** AewfReadChunkLegacy: a chunk that is in the buffer already is taken from there. */
    method ReadChunkLegacy(c: nat) returns (rc: ErrorCode, len: nat)
      requires CachesOk() && Opened() && c < chunks && |chunkBuff| == chunkSize + EXTRA
      modifies `chunkBuff, `chunkBuffDataLen, `chunkInBuff, `segments, `openSegments, `tables, `tableCache
      ensures CachesOk() && |chunkBuff| == chunkSize + EXTRA
      ensures len == if rc == AEWF_OK then chunkBuffDataLen else 0
      ensures old(chunkInBuff) == Some(c) ==>
        rc == AEWF_OK && ChunkBuffer() == old(ChunkBuffer())
      ensures old(chunkInBuff) != Some(c) ==> Attempted(c, rc, old(ChunkBuffer()), ChunkBuffer())
      ensures old(LegacyOk()) && NoShort() ==> rc == ContentError(Content(c)) && (rc == AEWF_OK ==> LegacyOk() && chunkInBuff == Some(c))
      ensures old(LegacyOk()) && NoShort() && Harmless() ==> LegacyOk()
    {
      hide CachesOk, Opened, Content, NoShort, Harmless;
      ghost var before := ChunkBuffer();
      if chunkInBuff == Some(c) {
        return AEWF_OK, chunkBuffDataLen;
      }
      var now: nat := *;
      var t;
      len := 0;
      rc, t := PrepareChunk(c, now);
      if rc != AEWF_OK {
        return;
      }
      rc := ReadChunkLegacy0(t, c);
      if BufferOk(before) && NoShort() {
        AttemptResult(c, rc, before, ChunkBuffer());
        if Harmless() {
          AttemptKeeps(c, rc, before, ChunkBuffer());
        }
      }
      if rc != AEWF_OK {
        return;
      }
      len := chunkBuffDataLen;
    }

    /**
     * Where a piece can do harm, the buffer does not stay in order: after a failed read of the chunk at which the file
     * ends, a chunk that was read before is handed out with wrong bytes, and with success.
     */
    method RereadAfterTornRead(c: nat, d: nat) returns (rc: ErrorCode, data: seq<byte>)
      requires CachesOk() && Opened() && LegacyOk() && c < chunks && d < chunks
      requires Content(c).Torn? && Content(d).Good? && !Agree(Content(c).part, Content(d).data)
      modifies `chunkBuff, `chunkBuffDataLen, `chunkInBuff, `segments, `openSegments, `tables, `tableCache
      ensures rc == AEWF_OK && |data| == |Content(d).data| && data != Content(d).data
    {
      hide CachesOk, Opened, Content, NoShort, Harmless;
      var len;
      rc, len := ReadChunkLegacy(d);
      rc, len := ReadChunkLegacy(c);
      rc, len := ReadChunkLegacy(d);
      data := chunkBuff[..len];
      ghost var k :| 0 <= k < |Content(c).part| && k < |Content(d).data| && Content(c).part[k] != Content(d).data[k];
      assert data[k] == Content(c).part[k];
    }

    /** The chunk a position lies in, and the offset inside it. */
    method Locate(seek: nat) returns (c: nat, ofs: nat)
      requires chunkSize > 0
      ensures At(c, ofs, seek)
    {
      DivMod(seek, chunkSize, seek / chunkSize);
      c, ofs := seek / chunkSize, seek % chunkSize;
    }

    /** What comes of a read is decided by the segment files. */
    ghost predicate Steady() {
      Opened() && NoShort()
    }

    lemma OpenedImage()
      requires Opened()
      ensures chunkSize > 0 && Geometry()
    {
    }

    /** One turn of AewfReadLegacy's loop: copies what chunk c has from ofs on, at most `remaining` bytes. */
    method CopyFromChunk(p_buf: array<byte>, read: nat, c: nat, ofs: nat, remaining: nat, ghost pos: nat)
      returns (rc: ErrorCode, toCopy: nat)
      requires CachesOk() && Steady() && LegacyOk()
      requires At(c, ofs, pos)
      requires 0 < remaining && pos + remaining <= imageSize && read + remaining <= p_buf.Length
      modifies `chunkBuff, `chunkBuffDataLen, `chunkInBuff, `segments, `openSegments, `tables, `tableCache, p_buf
      ensures CachesOk() && |chunkBuff| == chunkSize + EXTRA && (rc == AEWF_OK || Harmless() ==> LegacyOk())
      ensures toCopy <= remaining && (rc == AEWF_OK ==> toCopy > 0) && (rc != AEWF_OK ==> toCopy == 0)
      ensures rc == AEWF_OK && toCopy < remaining ==> At(c + 1, 0, pos + toCopy)
      ensures rc != AEWF_OK ==> Cells()(pos) == Fails(rc)
      ensures CopiedAt(Cells(), pos, toCopy, old(p_buf[..]), read, p_buf[..])
    {
      hide CachesOk, Content, LegacyOk, Splice, CopiedAt, Cells, NoShort, Harmless, ChunkLen;
      OpenedImage();
      toCopy := 0;
      CellIn(c, ofs, pos);
      ChunkSizes(c);
      NextBlock(c, chunkSize);
      NoBytesAt(Cells(), pos, p_buf[..], read);
      HasFullBuffer();
      var len;
      rc, len := ReadChunkLegacy(c);
      if rc != AEWF_OK {
        return;
      }
      HeldChunk(c);
      if len == 0 {
        rc := AEWF_CHUNK_LENGTH_ZERO;
        return;
      }
      toCopy := Min(len - ofs, remaining);
      var piece := chunkBuff[ofs..ofs + toCopy];
      SubSlice(chunkBuff, 0, len, ofs, ofs + toCopy);
      PieceCells(c, ofs, pos, toCopy);
      CopiedStretch(Cells(), pos, p_buf[..], read, piece);
      Memcpy(p_buf, read, piece);
    }

    lemma HasFullBuffer()
      requires LegacyOk()
      ensures |chunkBuff| == chunkSize + EXTRA
    {
    }

    lemma HeldChunk(c: nat)
      requires LegacyOk() && chunkInBuff == Some(c)
      ensures Opened() && c < chunks && Content(c).Good? && chunkBuffDataLen == |Content(c).data| <= |chunkBuff|
      ensures chunkBuffDataLen == ChunkLen(imageSize, chunkSize, chunks, c)
      ensures chunkBuff[0..chunkBuffDataLen] == Content(c).data
    {
    }

    /** AewfReadLegacy: reads up to the first chunk that cannot be read, and returns what is wrong with it. */
    method ReadLegacy(p_buf: array<byte>, seek: nat, count: nat) returns (rc: ErrorCode, read: nat)
      requires CachesOk() && Steady() && LegacyOk()
      requires seek + count <= imageSize && count <= p_buf.Length
      modifies `chunkBuff, `chunkBuffDataLen, `chunkInBuff, `segments, `openSegments, `tables, `tableCache, p_buf
      ensures CachesOk() && |chunkBuff| == chunkSize + EXTRA && (rc == AEWF_OK || Harmless() ==> LegacyOk())
      ensures Outcome(Cells(), AEWF_OK, seek, count, read, rc)
      ensures Copied(Cells(), seek, read, old(p_buf[..]), p_buf[..])
    {
      hide Steady, CachesOk, LegacyOk, Splice, At, Available, Stretch, CopiedAt, Copied, Cells, Outcome, Harmless, Opened;
      SteadyImage();
      var c: nat, ofs: nat := Locate(seek);
      var remaining := count;
      read := 0;
      ghost var before := p_buf[..];
      NoBytes(Cells(), seek, before);
      HasFullBuffer();
      while remaining != 0
        invariant CachesOk() && LegacyOk() && |chunkBuff| == chunkSize + EXTRA
        invariant 0 <= remaining && read + remaining == count
        invariant remaining != 0 ==> At(c, ofs, seek + read)
        invariant Copied(Cells(), seek, read, before, p_buf[..])
        decreases remaining
      {
        var toCopy;
        rc, toCopy := CopyMore(p_buf, read, c, ofs, remaining, seek, count, before);
        if rc != AEWF_OK {
          return;
        }
        remaining, read, ofs, c := remaining - toCopy, read + toCopy, 0, c + 1;
      }
      rc := AEWF_OK;
      AllCopied(Cells(), AEWF_OK, seek, read, before, p_buf[..]);
    }

    method CopyMore(p_buf: array<byte>, read: nat, c: nat, ofs: nat, remaining: nat, ghost seek: nat, ghost count: nat, ghost before: seq<byte>)
      returns (rc: ErrorCode, toCopy: nat)
      requires CachesOk() && Steady() && LegacyOk() && At(c, ofs, seek + read)
      requires 0 < remaining && read + remaining == count && seek + count <= imageSize && count <= p_buf.Length == |before|
      requires Copied(Cells(), seek, read, before, p_buf[..])
      modifies `chunkBuff, `chunkBuffDataLen, `chunkInBuff, `segments, `openSegments, `tables, `tableCache, p_buf
      ensures CachesOk() && |chunkBuff| == chunkSize + EXTRA && (rc == AEWF_OK || Harmless() ==> LegacyOk())
      ensures toCopy <= remaining && Copied(Cells(), seek, read + toCopy, before, p_buf[..])
      ensures rc == AEWF_OK ==> toCopy > 0 && (toCopy < remaining ==> At(c + 1, 0, seek + read + toCopy))
      ensures rc != AEWF_OK ==> toCopy == 0 && Outcome(Cells(), AEWF_OK, seek, count, read, rc)
    {
      hide Steady, CachesOk, LegacyOk, Splice, At, Available, Stretch, CopiedAt, Copied, Cells, Outcome, Harmless, Opened;
      SteadyImage();
      ghost var was := p_buf[..];
      rc, toCopy := CopyFromChunk(p_buf, read, c, ofs, remaining, seek + read);
      ghost var n := if rc == AEWF_OK then toCopy else remaining;
      PieceOutcome(seek + read, n, toCopy, rc, was, read, p_buf[..]);
      AnotherPiece(Cells(), AEWF_OK, seek, read, n, toCopy, rc, 0, before, was, p_buf[..]);
    }

    lemma SteadyImage()
      requires Steady()
      ensures Opened() && chunkSize > 0
    {
    }

    lemma PieceOutcome(pos: nat, n: nat, k: nat, rc: ErrorCode, was: seq<byte>, at: nat, now: seq<byte>)
      requires Opened() && CopiedAt(Cells(), pos, k, was, at, now)
      requires if rc == AEWF_OK then k == n else k == 0 < n && Cells()(pos) == Fails(rc)
      ensures Outcome(Cells(), AEWF_OK, pos, n, k, rc)
    {
      hide Cells;
    }

    // ----- the multi-threaded reader -----

    /**
     * Between reads, failed ones included: no thread has a job, and no two buffers are marked with the same chunk. A buffer
     * that is marked with a chunk that can be read holds it.
     */
    ghost predicate Settled()
      reads `threads
    {
      AreSettled(threads)
    }

    ghost predicate AreSettled(ts: seq<Thread>) {
      && |ts| == threadCount
      && (forall i :: 0 <= i < |ts| ==> !ts[i].launched && Full(chunkSize, ts[i]))
      && Distinct(ts)
      && forall i :: 0 <= i < |ts| && ts[i].chunkInBuff.Some? ==> MarkOk(ts[i], ts[i].chunkInBuff.value)
    }

    ghost predicate MarkOk(th: Thread, c: nat) {
      && Opened() && c < chunks
      && th.uncompressedLen == ChunkLen(imageSize, chunkSize, chunks, c) <= |th.uncompressed|
      && (Content(c).Good? ==> HasChunk(Image(), chunkSize, th, c))
    }

    /** The caches are coherent: every buffer that is marked with a chunk holds it. */
    ghost predicate ThreadsIdle()
      reads `threads
    {
      Settled() && forall i :: 0 <= i < |threads| && threads[i].chunkInBuff.Some? ==> Readable(threads[i].chunkInBuff.value)
    }

    ghost predicate Readable(c: nat) {
      Opened() && c < chunks && Content(c).Good?
    }

    ghost predicate MarkedIn(c: nat)
      reads `threads
    {
      exists i :: 0 <= i < |threads| && threads[i].chunkInBuff == Some(c)
    }

    /** Chunks that cannot be read are marked in the threads only if they have bytes among the image positions from..to. */
    ghost predicate BadMarksIn(from: nat, to: nat)
      reads `threads
    {
      forall i :: 0 <= i < |threads| && threads[i].chunkInBuff.Some? && !Readable(threads[i].chunkInBuff.value) ==>
        threads[i].chunkInBuff.value * chunkSize < to && from < (threads[i].chunkInBuff.value + 1) * chunkSize
    }

    ghost function BadChunks(): iset<nat>
      requires Opened()
    {
      iset c: nat | c >= chunks || !Content(c).Good?
    }

    ghost predicate TooBig(c: nat)
      requires Opened()
    {
      c < chunks && Content(c) == Bad(AEWF_CHUNK_TOO_BIG)
    }

    /** A round of jobs on this image, or on what the marks of the threads claim it to be. */
    ghost predicate IsRound(r: Round) {
      && Opened() && NoShort()
      && |r.image| == imageSize && r.chunkSize == chunkSize && RoundOk(r)
    }

    /** A round of jobs on this image. */
    ghost predicate TrueRound(r: Round) {
      IsRound(r) && r.image == Image() && r.bad == BadChunks()
    }

    /** What the round says of chunk c is what the segment files say. */
    ghost predicate TrueTo(r: Round, c: nat)
      requires Opened()
    {
      && c < chunks && (c in r.bad <==> !Content(c).Good?)
      && (Content(c).Good? ==> Chunk(r.image, chunkSize, c) == Content(c).data)
    }

    lemma AllTrue(r: Round, c: nat)
      requires TrueRound(r) && c < chunks
      ensures TrueTo(r, c)
    {
      hide Content, ChunkLen, Chunk;
      GoodChunk(c);
    }

    /** During a round of jobs: the chunks first..next have been handed out. */
    ghost predicate InOrder(r: Round, before: seq<byte>, p: seq<byte>, first: nat, next: nat, failed: bool)
      reads `threads
    {
      && IsRound(r)
      && |threads| == threadCount
      && Running(r, codec, threads, before, p, first, next, failed)
      && first <= next
      && (forall c: nat :: first <= c < next ==> InRound(r, c))
      && (TrueRound(r) ==> forall c: nat :: first <= c < next ==> !TooBig(c))
    }

    lemma RoundFacts(r: Round)
      requires IsRound(r)
      ensures Opened() && Geometry() && chunkSize > 0 && r.chunkSize == chunkSize && |r.image| == imageSize && RoundOk(r)
    {
    }

    /** Some chunk of the round cannot be read, and no chunk up to it is too big for a buffer. */
    ghost predicate FailsUpTo(r: Round, first: nat, last: nat)
      requires Opened()
    {
      exists c: nat :: first <= c <= last && InRound(r, c) && c in r.bad && forall d: nat :: first <= d <= c ==> !TooBig(d)
    }

    /** One step of thread i: the next part of AewfThreadUncompress, AewfThreadCRC or AewfThreadCopy. */
    method WorkerStep(i: nat, p_buf: array<byte>)
      requires i < |threads| && CanStep(threads[i]) && StepDefinedNow(threads[i], p_buf[..])
      modifies `threads, p_buf
      ensures threads == old(threads)[i := Step(codec, old(threads[i]), old(p_buf[..])).0]
      ensures p_buf[..] == Step(codec, old(threads[i]), old(p_buf[..])).1
    {
      var th := threads[i];
      match th.pc {
        case CopyOut =>
          Memcpy(p_buf, th.buf, th.uncompressed[th.ofs..th.ofs + th.len]);
          th := th.(pc := Finished);
        case Finished =>
        case Start =>
          match th.work {
            case Uncompress =>
              match codec.uncompress(th.compressed) {
                case None =>
                  th := th.(pc := Finished, returnCode := AEWF_UNCOMPRESS_FAILED);
                case Some(data) =>
                  if |data| > |th.uncompressed| {
                    th := th.(pc := Finished, returnCode := AEWF_UNCOMPRESS_FAILED);
                  } else {
                    th := th.(uncompressed := data + th.uncompressed[|data|..]);
                    if |data| != th.uncompressedLen {
                      th := th.(pc := Finished, returnCode := AEWF_BAD_UNCOMPRESSED_LENGTH);
                    } else {
                      th := th.(pc := CopyOut, returnCode := AEWF_OK);
                    }
                  }
              }
            case Crc =>
              th := th.(pc := CopyOut, returnCode := AEWF_OK);
              if codec.adler32(th.uncompressed[..th.uncompressedLen]) != Word32(th.uncompressed, th.uncompressedLen) {
                th := th.(returnCode := AEWF_CHUNK_CRC_ERROR);
              }
            case Copy =>
              th := th.(pc := CopyOut, returnCode := AEWF_OK);
          }
      }
      threads := threads[i := th];
    }

    /** A moment in which any threads may run, in any order and for any number of steps. */
    method RunWorkers(p_buf: array<byte>, ghost r: Round, ghost before: seq<byte>, ghost first: nat, ghost next: nat, ghost failed: bool)
      requires InOrder(r, before, p_buf[..], first, next, failed)
      modifies `threads, p_buf
      ensures InOrder(r, before, p_buf[..], first, next, failed)
      ensures SameJobs(old(threads), threads)
    {
      hide Running, InRound, StepDefinedNow, Step, IsRound, TrueRound, TooBig;
      var steps: nat := *;
      while steps > 0
        invariant InOrder(r, before, p_buf[..], first, next, failed)
        invariant SameJobs(old(threads), threads)
      {
        var i: int := *;
        if 0 <= i < |threads| && CanStep(threads[i]) {
          OneWorkerStep(i, p_buf, r, before, first, next, failed);
        }
        steps := steps - 1;
      }
    }

    method OneWorkerStep(i: nat, p_buf: array<byte>, ghost r: Round, ghost before: seq<byte>, ghost first: nat, ghost next: nat, ghost failed: bool)
      requires InOrder(r, before, p_buf[..], first, next, failed)
      requires i < |threads| && CanStep(threads[i])
      modifies `threads, p_buf
      ensures InOrder(r, before, p_buf[..], first, next, failed)
      ensures SameJobs(old(threads), threads) && StepsLeft(threads[i]) < StepsLeft(old(threads[i]))
    {
      hide Running, InRound, IsRound, CrcOk, Splice, TrueRound, TooBig;
      StepRunning(r, codec, threads, before, p_buf[..], first, next, failed, i);
      WorkerStep(i, p_buf);
    }

    /** Whether the jobs are those of before, and perhaps one more of len bytes. */
    twostate predicate LaunchedOne(one: bool, len: nat)
      reads this
    {
      && |threads| == |old(threads)|
      && LaunchedCount(threads, |threads|) == old(LaunchedCount(threads, |threads|)) + (if one then 1 else 0)
      && LaunchedLen(threads, |threads|) == old(LaunchedLen(threads, |threads|)) + (if one then len else 0)
    }

    /** Gives a job to idle thread i. */
    method GiveJob(i: nat, th: Thread, p_buf: array<byte>, ghost r: Round, ghost before: seq<byte>, ghost first: nat, ghost c: nat)
      requires InOrder(r, before, p_buf[..], first, c, false) && InRound(r, c) && (TrueRound(r) ==> !TooBig(c))
      requires i < |threads| && !threads[i].launched
      requires th.launched && th.chunkInBuff == Some(c) && JobOk(r, codec, th, p_buf[..])
      requires forall j :: 0 <= j < |threads| && j != i ==> threads[j].chunkInBuff != Some(c)
      modifies `threads
      ensures InOrder(r, before, p_buf[..], first, c + 1, false)
      ensures LaunchedOne(true, th.len)
    {
      hide Running, InRound, JobOk, IsRound, TrueRound, TooBig;
      Launch(r, codec, threads, before, p_buf[..], first, c, i, th);
      LaunchedUpdate(threads, i, th, |threads|);
      threads := threads[i := th];
    }

    /** Leaves idle thread i with the mark of a chunk that could not be read from its file. */
    method GiveUp(i: nat, th: Thread, p_buf: array<byte>, ghost r: Round, ghost before: seq<byte>, ghost first: nat, ghost c: nat)
      requires InOrder(r, before, p_buf[..], first, c, false)
      requires i < |threads| && !threads[i].launched && !th.launched
      requires th.chunkInBuff == Some(c) && c in r.bad && CacheOk(r, th)
      requires forall j :: 0 <= j < |threads| && j != i ==> threads[j].chunkInBuff != Some(c)
      modifies `threads
      ensures InOrder(r, before, p_buf[..], first, c, true) && BadMark(r, threads)
    {
      hide Running, InRound, CacheOk, IsRound, TrueRound, TooBig;
      LaunchFails(r, codec, threads, before, p_buf[..], first, c, i, th);
      threads := threads[i := th];
      assert threads[i].chunkInBuff.Some? && threads[i].chunkInBuff.value in r.bad;
    }

    /** The search of AewfReadChunkMT for a thread whose buffer has the chunk. */
    method FindCached(c: nat) returns (i: nat)
      ensures i <= |threads|
      ensures i < |threads| ==> threads[i].chunkInBuff == Some(c)
      ensures i == |threads| ==> forall j :: 0 <= j < |threads| ==> threads[j].chunkInBuff != Some(c)
    {
      i := 0;
      while i < |threads|
        invariant i <= |threads| && forall j :: 0 <= j < i ==> threads[j].chunkInBuff != Some(c)
      {
        if threads[i].chunkInBuff == Some(c) {
          return;
        }
        i := i + 1;
      }
    }

    /** The search of AewfReadChunkMT0 for the first idle thread. */
    method FindIdle() returns (i: nat)
      ensures i <= |threads|
      ensures i < |threads| ==> !threads[i].launched
      ensures forall j :: 0 <= j < i ==> threads[j].launched
    {
      i := 0;
      while i < |threads|
        invariant i <= |threads| && forall j :: 0 <= j < i ==> threads[j].launched
      {
        if !threads[i].launched {
          return;
        }
        i := i + 1;
      }
    }

    /** The job for a chunk of whose stored bytes all were read: it succeeds if the chunk can be read, and fails if not. */
    lemma FreshJob(r: Round, p: seq<byte>, c: nat, t: nat, st: Stored, got: seq<byte>, idle: Thread, th: Thread)
      requires IsRound(r) && InRound(r, c) && TrueTo(r, c) && t < |infos| && infos[t].segment < |files|
      requires Content(c) == Interpret(codec, files[infos[t].segment], st, ChunkLen(imageSize, chunkSize, chunks, c), chunkSize + EXTRA)
      requires got == Got(files[infos[t].segment], st.pos, st.len) && |got| == st.len <= chunkSize + EXTRA
      requires st.len > 0 ==> st.pos < MAX_SEEK
      requires Full(chunkSize, idle)
      requires th == idle.(
        uncompressedLen := ChunkLen(imageSize, chunkSize, chunks, c), chunkInBuff := Some(c), launched := true, pc := Start,
        buf := r.base + From(r, c) - r.seek, ofs := From(r, c) - c * chunkSize, len := To(r, c) - From(r, c),
        work := if st.compressed then Uncompress else Crc,
        compressed := if st.compressed then got else idle.compressed,
        uncompressed := if st.compressed then idle.uncompressed else got + idle.uncompressed[|got|..])
      ensures JobOk(r, codec, th, p)
    {
      hide Content, ChunkLen, Chunk, InRound, From, To, CrcOk, InflateError, WorkerInflateError, Got;
      ChunkSpan(r, c);
      var len := ChunkLen(imageSize, chunkSize, chunks, c);
      if !st.compressed {
        assert |got| >= len + 4;
        SameCheck(got, th.uncompressed, len);
      } else {
        SameInflateFailures(codec, got, len, chunkSize + EXTRA);
      }
    }

    lemma ChunkSpan(r: Round, c: nat)
      requires IsRound(r) && c < chunks
      ensures |Chunk(r.image, chunkSize, c)| == ChunkLen(imageSize, chunkSize, chunks, c) <= chunkSize
      ensures c * chunkSize < |r.image|
    {
      hide ChunkLen;
      ChunkSizes(c);
    }

    /** A failed read of the stored bytes is not that of a chunk that is too big. */
    lemma ReadFailure(c: nat, t: nat, st: Stored)
      requires Opened() && c < chunks && t < |infos| && infos[t].segment < |files|
      requires Content(c) == Interpret(codec, files[infos[t].segment], st, ChunkLen(imageSize, chunkSize, chunks, c), chunkSize + EXTRA)
      ensures st.len <= chunkSize + EXTRA ==> !TooBig(c)
      ensures st.len > chunkSize + EXTRA ==> TooBig(c)
      ensures st.len > chunkSize + EXTRA || PosError(st, files[infos[t].segment]) != AEWF_OK ==> !Content(c).Good?
    {
      hide ChunkLen, InflateError, CrcOk, Content;
    }

    /** AewfReadChunkMT0: reads the stored chunk into the first idle thread's buffer; without one, the chunk is skipped. */
    method ReadChunkMT0(t: nat, c: nat, p_buf: array<byte>, buf: nat, ofs: nat, len: nat,
                        ghost r: Round, ghost before: seq<byte>, ghost first: nat) returns (rc: ErrorCode, ghost one: bool)
      requires CachesOk() && Opened() && c < chunks && t < |infos| && Covers(infos[t], c) && Prepared(t) && TrueTo(r, c)
      requires InOrder(r, before, p_buf[..], first, c, false) && InRound(r, c)
      requires ofs == From(r, c) - c * chunkSize && len == To(r, c) - From(r, c) && buf == r.base + From(r, c) - r.seek
      requires forall j :: 0 <= j < |threads| ==> threads[j].chunkInBuff != Some(c)
      modifies `threads
      ensures rc == AEWF_OK ==> InOrder(r, before, p_buf[..], first, if one then c + 1 else c, false) && LaunchedOne(one, len)
      ensures rc == AEWF_OK && !one ==> forall j :: 0 <= j < |threads| ==> threads[j].launched
      ensures rc != AEWF_OK ==> c in r.bad && !one
      ensures rc == AEWF_CHUNK_TOO_BIG ==> TooBig(c) && threads == old(threads)
      ensures rc != AEWF_OK && rc != AEWF_CHUNK_TOO_BIG ==> !TooBig(c) && InOrder(r, before, p_buf[..], first, c, true) && BadMark(r, threads)
    {
      hide CachesOk, Content, ChunkLen, Chunk, Running, InRound, From, To, LaunchedCount, LaunchedLen, Interpret, Got, TrueRound, TooBig, PosError;
      RoundFacts(r);
      one := false;
      var st, chunkLen;
      rc, st, chunkLen := FindStored(t, c);
      ReadFailure(c, t, st);
      if rc != AEWF_OK {
        return;
      }
      var i := FindIdle();
      if i < |threads| {
        FullBuffer(r, before, p_buf[..], first, c, i);
        var th := threads[i].(uncompressedLen := chunkLen, chunkInBuff := Some(c), buf := buf, ofs := ofs, len := len);
        var got;
        rc, got := ReadFilePos(t, st);
        if st.compressed {
          th := th.(work := Uncompress, compressed := got);
        } else {
          th := th.(work := Crc, uncompressed := got + th.uncompressed[|got|..]);
        }
        if rc != AEWF_OK {
          LeftIdle(r, c, th);
          NotTooBigError(st, files[infos[t].segment]);
          GiveUp(i, th, p_buf, r, before, first, c);
          return;
        }
        th := th.(launched := true, pc := Start);
        one := true;
        ReadWhole(st, files[infos[t].segment]);
        FreshJob(r, p_buf[..], c, t, st, got, threads[i], th);
        GiveJob(i, th, p_buf, r, before, first, c);
      }
    }

    lemma LeftIdle(r: Round, c: nat, th: Thread)
      requires IsRound(r) && InRound(r, c) && c < chunks && c in r.bad && Full(chunkSize, th)
      requires th.chunkInBuff == Some(c) && th.uncompressedLen == ChunkLen(imageSize, chunkSize, chunks, c)
      ensures CacheOk(r, th)
    {
      hide InRound, Chunk, ChunkLen, HasChunk;
      ChunkSpan(r, c);
    }

    lemma NotTooBigError(st: Stored, file: seq<byte>)
      ensures PosError(st, file) != AEWF_CHUNK_TOO_BIG
    {
    }

    lemma ReadWhole(st: Stored, file: seq<byte>)
      requires PosError(st, file) == AEWF_OK
      ensures st.len > 0 ==> st.pos < MAX_SEEK
    {
    }

    lemma FullBuffer(r: Round, before: seq<byte>, p: seq<byte>, first: nat, next: nat, i: nat)
      requires InOrder(r, before, p, first, next, false) && i < |threads|
      ensures Full(chunkSize, threads[i])
    {
      hide InRound, Chunk, From, To, Delivered, Untouched, CrcOk, HasChunk;
      assert ThreadOk(r, codec, threads[i], p);
    }

    /** AewfReadChunkMT: has chunk c delivered by a thread that has it already, or by an idle one that gets it. */
    method ReadChunkMT(c: nat, p_buf: array<byte>, buf: nat, ofs: nat, len: nat,
                       ghost r: Round, ghost before: seq<byte>, ghost first: nat) returns (rc: ErrorCode, ghost one: bool)
      requires CachesOk() && Opened() && c < chunks && (MarkedIn(c) || TrueTo(r, c))
      requires InOrder(r, before, p_buf[..], first, c, false) && InRound(r, c)
      requires ofs == From(r, c) - c * chunkSize && len == To(r, c) - From(r, c) && buf == r.base + From(r, c) - r.seek
      modifies `threads, `segments, `openSegments, `tables, `tableCache
      ensures CachesOk()
      ensures rc == AEWF_OK ==> InOrder(r, before, p_buf[..], first, if one then c + 1 else c, false) && LaunchedOne(one, len)
      ensures rc == AEWF_OK && !one ==> forall j :: 0 <= j < |threads| ==> threads[j].launched
      ensures rc != AEWF_OK ==> c in r.bad && !one
      ensures rc == AEWF_CHUNK_TOO_BIG ==> TooBig(c) && threads == old(threads)
      ensures rc != AEWF_OK && rc != AEWF_CHUNK_TOO_BIG ==> !TooBig(c) && InOrder(r, before, p_buf[..], first, c, true) && BadMark(r, threads)
      ensures old(MarkedIn(c)) ==> rc == AEWF_OK && one
    {
      hide CachesOk, Opened, Chunk, InRound, From, To, LaunchedCount, LaunchedLen, Running, IsRound, TrueRound, TooBig, TrueTo, BadMark;
      RoundFacts(r);
      one := false;
      var i := FindCached(c);
      if i < |threads| {
        var th := threads[i].(buf := buf, ofs := ofs, len := len, launched := true, work := Copy, pc := Start);
        CachedJob(r, before, p_buf[..], first, c, i, th);
        one, rc := true, AEWF_OK;
        GiveJob(i, th, p_buf, r, before, first, c);
        return;
      }
      var now: nat := *;
      var t;
      rc, t := PrepareChunk(c, now);
      if rc != AEWF_OK {
        return;
      }
      rc, one := ReadChunkMT0(t, c, p_buf, buf, ofs, len, r, before, first);
    }

    /** A buffer that has the chunk belongs to an idle thread, and its bytes are right. */
    lemma CachedJob(r: Round, before: seq<byte>, p: seq<byte>, first: nat, c: nat, i: nat, th: Thread)
      requires InOrder(r, before, p, first, c, false) && InRound(r, c)
      requires i < |threads| && threads[i].chunkInBuff == Some(c)
      requires th == threads[i].(buf := r.base + From(r, c) - r.seek, ofs := From(r, c) - c * chunkSize, len := To(r, c) - From(r, c),
                                 launched := true, work := Copy, pc := Start)
      ensures !threads[i].launched && JobOk(r, codec, th, p) && (TrueRound(r) ==> !TooBig(c))
      ensures forall j :: 0 <= j < |threads| && j != i ==> threads[j].chunkInBuff != Some(c)
    {
      hide Chunk, InRound, From, To, Delivered, Untouched, RoundOk, CrcOk, Content;
      assert ThreadOk(r, codec, threads[i], p);
      assert MarksGood(r, threads);
    }

    /** What the launch loop of AewfReadMT0 keeps: the jobs given so far cover the request up to pos. */
    ghost predicate Launching(r: Round, before: seq<byte>, p: seq<byte>, first: nat, next: nat, pos: nat)
      reads `threads
    {
      && InOrder(r, before, p, first, next, false)
      && first * chunkSize <= r.seek
      && LaunchedCount(threads, |threads|) == next - first
      && LaunchedLen(threads, |threads|) == Covered(r, first, next)
      && pos == r.seek + Covered(r, first, next)
    }

    /** MaxPerLoop: one chunk's worth of bytes for each thread. */
    function RoundSize(): nat {
      threadCount * chunkSize
    }

    /** A byte of the image positions from..to cannot be read. */
    ghost predicate BadWithin(from: nat, to: nat)
      requires Opened()
    {
      exists p: nat :: from <= p < to && Cells()(p).Fails?
    }

    /** The error of the first byte of a request that cannot be read; AEWF_OK if all can. */
    ghost function ErrorIn(seek: nat, count: nat): ErrorCode
      requires Opened()
    {
      FirstError(Cells(), AEWF_OK, seek, count)
    }

    /** Whether an error leaves all caches as they should be. */
    predicate LeavesNoMark(e: ErrorCode) {
      e == AEWF_OK || e == AEWF_CHUNK_TOO_BIG
    }

    /** One turn of the launch loop. */
    method LaunchNext(c: nat, ofs: nat, p_buf: array<byte>, buf: nat, remaining: nat,
                      ghost r: Round, ghost before: seq<byte>, ghost first: nat, ghost pos: nat)
      returns (rc: ErrorCode, len: nat, ghost one: bool)
      requires CachesOk() && Opened() && At(c, ofs, pos) && c < chunks && (MarkedIn(c) || TrueTo(r, c))
      requires Launching(r, before, p_buf[..], first, c, pos)
      requires remaining > 0 && pos + remaining == r.limit && buf == r.base + pos - r.seek
      requires pos == r.seek || ofs == 0
      modifies `threads, `segments, `openSegments, `tables, `tableCache, p_buf
      ensures CachesOk()
      ensures len == Min(chunkSize - ofs, remaining) && (len < remaining ==> At(c + 1, 0, pos + len))
      ensures rc == AEWF_OK ==> Launching(r, before, p_buf[..], first, if one then c + 1 else c, if one then pos + len else pos)
      ensures rc == AEWF_OK && !one ==> LaunchedCount(threads, |threads|) == threadCount
      ensures rc == AEWF_CHUNK_TOO_BIG ==> Launching(r, before, p_buf[..], first, c, pos) && TooBig(c)
      ensures !LeavesNoMark(rc) ==> InOrder(r, before, p_buf[..], first, c, true) && BadMark(r, threads) && (TrueRound(r) ==> FailsUpTo(r, first, c))
      ensures old(MarkedIn(c)) ==> rc == AEWF_OK && one
    {
      hide CachesOk, Chunk, Running, Covered, From, To, InRound, IsRound, Opened, BadMark, TrueRound, TooBig, TrueTo;
      RoundFacts(r);
      len := Min(chunkSize - ofs, remaining);
      NextBlock(c, chunkSize);
      JobArguments(r, c, ofs, pos);
      CoveredMore(r, first, c);
      ghost var was := threads;
      RunWorkers(p_buf, r, before, first, c, false);
      SameCounts(was, threads, |threads|);
      StillMarked(was, c);
      rc, one := ReadChunkMT(c, p_buf, buf, ofs, len, r, before, first);
      if rc == AEWF_OK && !one {
        AllLaunched(threads, |threads|);
      }
      if !LeavesNoMark(rc) && TrueRound(r) {
        FailsHere(r, before, p_buf[..], first, c);
      }
    }

    lemma FailsHere(r: Round, before: seq<byte>, p: seq<byte>, first: nat, c: nat)
      requires InOrder(r, before, p, first, c, true) && TrueRound(r) && InRound(r, c) && c in r.bad && !TooBig(c)
      ensures FailsUpTo(r, first, c)
    {
      hide InRound, Running, IsRound, TrueRound, TooBig;
    }

    lemma StillMarked(was: seq<Thread>, c: nat)
      requires SameJobs(was, threads)
      ensures (exists i :: 0 <= i < |was| && was[i].chunkInBuff == Some(c)) <==> MarkedIn(c)
    {
      if i :| 0 <= i < |was| && was[i].chunkInBuff == Some(c) {
        assert threads[i].chunkInBuff == Some(c);
      }
      if MarkedIn(c) {
        var i :| 0 <= i < |threads| && threads[i].chunkInBuff == Some(c);
        assert was[i].chunkInBuff == Some(c);
      }
    }

    /**
     * The launch loop of AewfReadMT0, on the image itself, or on one chunk that some thread is marked with. Everything is
     * handed out, or every thread has a job and less than one chunk is left, or the next chunk is too big, or a chunk could
     * not be read from its file.
     */
    method LaunchAll(p_buf: array<byte>, ghost r: Round, base: nat, seek: nat, count: nat, ghost first: nat, ghost before: seq<byte>)
      returns (rc: ErrorCode, ghost next: nat, ghost pos: nat)
      requires CachesOk() && IsRound(r) && r.base == base && r.seek == seek && r.limit == seek + count && base + count <= p_buf.Length
      requires 0 < count <= RoundSize() && p_buf[..] == before
      requires exists ofs :: At(first, ofs, seek)
      requires Launching(r, before, p_buf[..], first, first, seek)
      requires TrueRound(r) || (MarkedIn(first) && seek + count <= (first + 1) * chunkSize)
      modifies `threads, `segments, `openSegments, `tables, `tableCache, p_buf
      ensures CachesOk()
      ensures LeavesNoMark(rc) ==> Launching(r, before, p_buf[..], first, next, pos) && seek <= pos <= seek + count
      ensures rc == AEWF_OK ==> seek < pos && (pos == seek + count || (LaunchedCount(threads, |threads|) == threadCount && seek + count - pos < chunkSize))
      ensures rc == AEWF_OK ==> first * chunkSize + (seek + count - pos) <= seek
      ensures rc == AEWF_CHUNK_TOO_BIG ==> TooBig(next) && seek <= pos < seek + count && exists ofs :: At(next, ofs, pos)
      ensures !LeavesNoMark(rc) ==> InOrder(r, before, p_buf[..], first, next, true) && BadMark(r, threads) && (TrueRound(r) ==> FailsUpTo(r, first, next))
      ensures !TrueRound(r) ==> rc == AEWF_OK && pos == seek + count && next == first + 1
    {
      hide CachesOk, Chunk, Running, Covered, From, To, InRound, Launching, InOrder, IsRound, Opened, BadMark, TrueRound, TooBig, TrueTo, FailsUpTo, MarkedIn;
      RoundFacts(r);
      var c: nat, ofs: nat := Locate(seek);
      SameChunk(c, ofs, first, seek);
      NextBlock(first, chunkSize);
      var remaining, bufPos := count, base;
      ghost var ofs0 := ofs;
      next, pos := first, seek;
      rc := AEWF_OK;
      ghost var skipped := false;
      while remaining != 0
        invariant CachesOk() && rc == AEWF_OK
        invariant Launching(r, before, p_buf[..], first, next, pos)
        invariant remaining != 0 ==> !skipped && c == next && At(c, ofs, pos) && (pos == seek || ofs == 0)
        invariant remaining != 0 ==> pos + remaining == seek + count && bufPos == base + pos - seek
        invariant seek <= pos <= seek + count && (remaining != count ==> seek < pos)
        invariant skipped ==> LaunchedCount(threads, |threads|) == threadCount && seek + count - pos < chunkSize && seek + count - pos <= ofs0
        invariant remaining == 0 ==> skipped || pos == seek + count
        invariant 0 <= remaining <= count
        invariant !TrueRound(r) ==> !skipped && if remaining == 0 then next == first + 1 else remaining == count && next == first && MarkedIn(first)
        decreases remaining
      {
        var len;
        ghost var one;
        ChunkOf(c, ofs, pos);
        if TrueRound(r) {
          AllTrue(r, c);
        }
        rc, len, one := LaunchNext(c, ofs, p_buf, bufPos, remaining, r, before, first, pos);
        if rc != AEWF_OK {
          return;
        }
        if !one {
          LastSkipped(r, before, p_buf[..], first, c, ofs, pos, ofs0);
        }
        skipped := !one;
        next, pos := if one then c + 1 else c, if one then pos + len else pos;
        remaining, bufPos := remaining - len, bufPos + len;
        ofs, c := 0, c + 1;
      }
    }

    lemma SameChunk(c: nat, ofs: nat, d: nat, pos: nat)
      requires chunkSize > 0 && At(c, ofs, pos) && exists o :: At(d, o, pos)
      ensures c == d
    {
      var o :| At(d, o, pos);
      DivMod(pos, chunkSize, c);
      DivMod(pos, chunkSize, d);
    }

    /** A round can begin when the threads hold what they are marked with, as far as the round is concerned. */
    lemma StartRound(r: Round, before: seq<byte>, first: nat, ofs: nat)
      requires IsRound(r) && AreSettled(threads) && r.base + r.limit - r.seek <= |before| && At(first, ofs, r.seek)
      requires forall i :: 0 <= i < |threads| ==> CacheOk(r, threads[i])
      requires MarksGood(r, threads)
      ensures Launching(r, before, before, first, first, r.seek)
    {
      hide Content, CacheOk, MarksGood, TooBig, TrueRound, IsRound;
      RoundFacts(r);
      NoneLaunched(threads, |threads|);
      CoveredNothing(r, first);
    }

    /** So it is between reads, for a round on this image. */
    lemma IdleStart(r: Round)
      requires TrueRound(r) && ThreadsIdle()
      ensures MarksGood(r, threads)
      ensures forall i :: 0 <= i < |threads| ==> CacheOk(r, threads[i])
    {
      forall i | 0 <= i < |threads|
        ensures CacheOk(r, threads[i])
      {
        if threads[i].chunkInBuff.Some? {
          hide Content, HasChunk, ChunkLen, Chunk, Image;
          assert MarkOk(threads[i], threads[i].chunkInBuff.value) && Readable(threads[i].chunkInBuff.value);
          ChunkSpan(r, threads[i].chunkInBuff.value);
        }
      }
    }

    // ----- chunks as the marks of the threads claim them to be -----

    /** The image with the contents of the threads' buffers in place of the chunks they are marked with. */
    ghost function Claimed(ts: seq<Thread>): (s: seq<byte>)
      requires Opened()
      ensures |s| == imageSize
    {
      seq<byte>(imageSize, pos requires 0 <= pos < imageSize && Opened() => ClaimedByte(ts, pos))
    }

    ghost function ClaimedByte(ts: seq<Thread>, pos: nat): byte
      requires Opened() && pos < imageSize
    {
      var c, ofs := Quotient(pos, chunkSize), pos % chunkSize;
      if exists i :: 0 <= i < |ts| && ts[i].chunkInBuff == Some(c) then
        var i :| 0 <= i < |ts| && ts[i].chunkInBuff == Some(c);
        if ofs < |ts[i].uncompressed| then ts[i].uncompressed[ofs] else 0
      else Image()[pos]
    }

    /** A round on that image: no chunk that a thread is marked with counts as unreadable. */
    ghost function ClaimedRound(ts: seq<Thread>, base: nat, seek: nat, limit: nat): Round
      requires Opened()
    {
      Round(Claimed(ts), chunkSize, base, seek, limit, iset c: nat | c in BadChunks() && forall i :: 0 <= i < |ts| ==> ts[i].chunkInBuff != Some(c))
    }
    lemma LastSkipped(r: Round, before: seq<byte>, p: seq<byte>, first: nat, c: nat, ofs: nat, pos: nat, ofs0: nat)
      requires Launching(r, before, p, first, c, pos) && LaunchedCount(threads, |threads|) == threadCount
      requires At(c, ofs, pos) && At(first, ofs0, r.seek) && r.limit <= r.seek + threadCount * chunkSize
      ensures r.limit - pos < chunkSize - ofs && r.limit - pos <= ofs0
      ensures threadCount > 0 ==> pos > r.seek
    {
      hide Running, InRound, LaunchedCount, LaunchedLen, Covered, TrueRound, TooBig, IsRound;
      RoundFacts(r);
      OnlyLastIsSkipped(r, first, c, ofs, pos, ofs0, threadCount);
      if threadCount > 0 {
        MulMono(first + 1, c, chunkSize);
        NextBlock(first, chunkSize);
      }
    }

    /** pthread_join on thread i. Until its function has returned, any threads may run. */
    method WaitFor(i: nat, p_buf: array<byte>, ghost r: Round, ghost before: seq<byte>, ghost first: nat, ghost next: nat, ghost failed: bool)
      requires InOrder(r, before, p_buf[..], first, next, failed)
      requires i < |threads| && threads[i].launched
      modifies `threads, p_buf
      ensures InOrder(r, before, p_buf[..], first, next, failed)
      ensures SameJobs(old(threads), threads) && threads[i].pc == Finished
    {
      hide Running, InRound, IsRound, TrueRound, TooBig;
      while threads[i].pc != Finished
        invariant InOrder(r, before, p_buf[..], first, next, failed)
        invariant SameJobs(old(threads), threads)
        decreases StepsLeft(threads[i])
      {
        OneWorkerStep(i, p_buf, r, before, first, next, failed);
        RunWorkers(p_buf, r, before, first, next, failed);
      }
    }

    /** One turn of the loop that waits for the threads. */
    method JoinThread(i: nat, p_buf: array<byte>, ghost r: Round, ghost before: seq<byte>, ghost first: nat, ghost next: nat, ghost failed: bool)
      returns (rc: ErrorCode, len: nat)
      requires InOrder(r, before, p_buf[..], first, next, failed)
      requires i < |threads| && forall j :: 0 <= j < i ==> !threads[j].launched
      modifies `threads, p_buf
      ensures InOrder(r, before, p_buf[..], first, next, failed || rc != AEWF_OK)
      ensures rc != AEWF_OK ==> BadMark(r, threads) && BadIn(r, first, next)
      ensures old(BadMark(r, threads)) ==> BadMark(r, threads)
      ensures forall j :: 0 <= j <= i ==> !threads[j].launched
      ensures LaunchedLen(threads, |threads|) + len == old(LaunchedLen(threads, |threads|))
    {
      hide Running, InRound, LaunchedLen, LaunchedCount, IsRound, Opened, TrueRound, TooBig, BadMark;
      rc, len := AEWF_OK, 0;
      if threads[i].launched {
        ghost var was := threads;
        WaitFor(i, p_buf, r, before, first, next, failed);
        SameCounts(was, threads, |threads|);
        Join(r, codec, threads, before, p_buf[..], first, next, failed, i);
        LaunchedUpdate(threads, i, threads[i].(launched := false), |threads|);
        rc, len := threads[i].returnCode, threads[i].len;
        ghost var c := threads[i].chunkInBuff.value;
        threads := threads[i := threads[i].(launched := false)];
        SameMarks(r, was, threads);
        if rc != AEWF_OK {
          HasBadMark(r, threads, i);
          assert first <= c < next && c in r.bad;
        }
      }
    }

    lemma HasBadMark(r: Round, threads: seq<Thread>, i: nat)
      requires i < |threads| && threads[i].chunkInBuff.Some? && threads[i].chunkInBuff.value in r.bad
      ensures BadMark(r, threads)
    {
    }

    ghost predicate BadIn(r: Round, first: nat, next: nat) {
      exists c: nat :: first <= c < next && c in r.bad
    }

    /** The loop of AewfReadMT0 that waits for the threads. */
    method JoinAll(p_buf: array<byte>, ghost r: Round, ghost before: seq<byte>, ghost first: nat, ghost next: nat, ghost pos: nat, ghost failed: bool)
      returns (rc: ErrorCode, read: nat)
      requires InOrder(r, before, p_buf[..], first, next, failed)
      requires if failed then BadMark(r, threads) else Launching(r, before, p_buf[..], first, next, pos)
      modifies `threads, p_buf
      ensures InOrder(r, before, p_buf[..], first, next, failed || rc != AEWF_OK)
      ensures forall i :: 0 <= i < |threads| ==> !threads[i].launched
      ensures failed || rc != AEWF_OK ==> BadMark(r, threads)
      ensures rc != AEWF_OK ==> BadIn(r, first, next)
      ensures !failed && rc == AEWF_OK ==> r.seek + read == pos && HasFirst(r, p_buf[..], read) && !BadIn(r, first, next)
    {
      hide Running, InRound, LaunchedLen, LaunchedCount, Covered, IsRound, Opened, TrueRound, TooBig, BadMark, BadIn, HasFirst;
      rc, read := AEWF_OK, 0;
      for i := 0 to |threads|
        invariant |threads| == threadCount && InOrder(r, before, p_buf[..], first, next, failed || rc != AEWF_OK)
        invariant failed || rc != AEWF_OK ==> BadMark(r, threads)
        invariant rc != AEWF_OK ==> BadIn(r, first, next)
        invariant forall j :: 0 <= j < i ==> !threads[j].launched
        invariant LaunchedLen(threads, |threads|) + read == old(LaunchedLen(threads, |threads|))
      {
        var threadRc, len;
        threadRc, len := JoinThread(i, p_buf, r, before, first, next, failed || rc != AEWF_OK);
        if threadRc != AEWF_OK {
          rc := threadRc;
        }
        read := read + len;
      }
      NoneLaunched(threads, |threads|);
      if !failed && rc == AEWF_OK {
        RoundOver(r, before, p_buf[..], first, next);
      }
    }

    /** When no thread has a job any more, and none has failed, all bytes of the round are delivered. */
    lemma RoundOver(r: Round, before: seq<byte>, p: seq<byte>, first: nat, next: nat)
      requires InOrder(r, before, p, first, next, false) && first * chunkSize <= r.seek
      requires forall i :: 0 <= i < |threads| ==> !threads[i].launched
      ensures HasFirst(r, p, Covered(r, first, next)) && !BadIn(r, first, next)
    {
      hide Covered, Delivered, InRound, Distinct, TooBig, TrueRound, HasFirst, ThreadOk, IsRound;
      RoundFacts(r);
      forall c: nat | first <= c < next
        ensures c !in r.bad && Delivered(r, p, c)
      {
        assert !HandedOut(threads, c);
        assert Served(r, p, c);
      }
      AllDelivered(r, p, first, next);
    }

    /** What a round on this image leaves: settled threads, and a chunk that cannot be read in a buffer if and only if one is marked. */
    lemma RoundSettled(r: Round, before: seq<byte>, p: seq<byte>, first: nat, next: nat, failed: bool)
      requires TrueRound(r) && InOrder(r, before, p, first, next, failed)
      requires forall i :: 0 <= i < |threads| ==> !threads[i].launched
      ensures Settled() && Untouched(r, before, p) && BadMarksIn(r.seek, r.limit)
      ensures ThreadsIdle() <==> !BadMark(r, threads)
      ensures !failed ==> ThreadsIdle()
    {
      hide Delivered, Distinct, TooBig, HandedOut, Untouched, Content, ChunkLen, Chunk, HasChunk, Image, From, To;
      forall i | 0 <= i < |threads|
        ensures Full(chunkSize, threads[i])
        ensures threads[i].chunkInBuff.Some? ==> MarkOk(threads[i], threads[i].chunkInBuff.value)
        ensures threads[i].chunkInBuff.Some? ==> (Readable(threads[i].chunkInBuff.value) <==> threads[i].chunkInBuff.value !in r.bad)
        ensures threads[i].chunkInBuff.Some? && threads[i].chunkInBuff.value in r.bad ==> InRound(r, threads[i].chunkInBuff.value)
      {
        assert ThreadOk(r, codec, threads[i], p);
        if threads[i].chunkInBuff.Some? {
          MarkSettled(r, threads[i]);
        }
      }
    }

    lemma MarkSettled(r: Round, th: Thread)
      requires TrueRound(r) && CacheOk(r, th) && th.chunkInBuff.Some?
      ensures MarkOk(th, th.chunkInBuff.value) && (Readable(th.chunkInBuff.value) <==> th.chunkInBuff.value !in r.bad)
    {
      hide Content, ChunkLen, Chunk, Image, InRound;
      var c := th.chunkInBuff.value;
      MulCancel(c, chunks, chunkSize);
      ChunkSpan(r, c);
    }

    // ----- what a failed round says about the image -----

    /** A chunk that cannot be read, with none that is too big before it, means an error of another kind. */
    lemma OtherError(r: Round, first: nat, last: nat)
      requires TrueRound(r) && FailsUpTo(r, first, last) && first * chunkSize <= r.seek
      ensures !LeavesNoMark(ErrorIn(r.seek, r.limit - r.seek))
    {
      hide Content, Cells, ChunkLen, Image, NoShort, FirstError;
      var c: nat :| first <= c <= last && InRound(r, c) && c in r.bad && forall d: nat :: first <= d <= c ==> !TooBig(d);
      var q := From(r, c);
      JobRange(r, c);
      NextStart(imageSize, chunkSize, c);
      CellIn(c, q - c * chunkSize, q);
      var p := FirstErrorBefore(Cells(), AEWF_OK, r.seek, r.limit - r.seek, q);
      var d: nat := Quotient(p, chunkSize);
      DivMod(p, chunkSize, d);
      NextBlock(d, chunkSize);
      NextBlock(c, chunkSize);
      MulCancel(first, d + 1, chunkSize);
      MulCancel(d, c + 1, chunkSize);
      CellIn(d, p - d * chunkSize, p);
      ErrorKind(d);
    }

    lemma ErrorKind(c: nat)
      requires Opened() && c < chunks
      ensures ContentError(Content(c)) == AEWF_CHUNK_TOO_BIG <==> TooBig(c)
      ensures ContentError(Content(c)) == AEWF_OK <==> Content(c).Good?
    {
    }

    /** Where the first chunk that cannot be read is too big, that is the error. */
    lemma TooBigError(r: Round, first: nat, next: nat, pos: nat)
      requires TrueRound(r) && !BadIn(r, first, next) && first * chunkSize <= r.seek
      requires TooBig(next) && pos == r.seek + Covered(r, first, next) < r.limit && exists ofs :: At(next, ofs, pos)
      ensures ErrorIn(r.seek, r.limit - r.seek) == AEWF_CHUNK_TOO_BIG
    {
      hide Content, Cells, ChunkLen, Image, NoShort, FirstError, Covered;
      AllGood(r, first, next);
      var ofs :| At(next, ofs, pos);
      CellIn(next, ofs, pos);
      FirstErrorBehind(Cells(), AEWF_OK, r.seek, pos - r.seek, r.limit - pos);
      FirstIsError(pos, r.limit - pos);
    }

    lemma FirstIsError(pos: nat, n: nat)
      requires Opened() && n > 0 && Cells()(pos).Fails?
      ensures Cells()(pos) == Fails(ErrorIn(pos, n))
    {
      hide Cells;
    }

    /** The bytes that the chunks of a successful round contribute can be read. */
    lemma AllGood(r: Round, first: nat, next: nat)
      requires TrueRound(r) && first * chunkSize <= r.seek && !BadIn(r, first, next)
      ensures Available(Cells(), r.seek, Covered(r, first, next))
    {
      hide Content, Cells;
      RoundFacts(r);
      forall p: nat | r.seek <= p < r.seek + Covered(r, first, next)
        ensures Cells()(p).Byte?
      {
        GoodCell(r, first, next, p);
      }
    }

    lemma GoodCell(r: Round, first: nat, next: nat, p: nat)
      requires TrueRound(r) && first * chunkSize <= r.seek <= p < r.seek + Covered(r, first, next)
      requires !BadIn(r, first, next)
      ensures Cells()(p).Byte?
    {
      hide Content, Cells, ChunkLen, NoShort, BadChunks, Opened, Geometry;
      RoundFacts(r);
      var c: nat := Quotient(p, chunkSize);
      DivMod(p, chunkSize, c);
      NextBlock(c, chunkSize);
      MulCancel(first, c + 1, chunkSize);
      MulCancel(c, next, chunkSize);
      GoodByte(r, c, p - c * chunkSize, p);
    }

    lemma GoodByte(r: Round, c: nat, ofs: nat, p: nat)
      requires TrueRound(r) && At(c, ofs, p) && p < imageSize && c !in r.bad
      ensures Cells()(p).Byte?
    {
      hide Content, Cells, ChunkLen, Geometry, NoShort;
      CellIn(c, ofs, p);
    }

    /** A request for bytes of one chunk that some thread is marked with. */
    ghost predicate CachedRequest(seek: nat, count: nat)
      reads `threads
    {
      exists c: nat, ofs: nat :: At(c, ofs, seek) && ofs + count <= chunkSize && MarkedIn(c)
    }

    /** The bytes of the request are those in the buffer of a thread that is marked with its chunk. */
    ghost predicate FromMarked(ts: seq<Thread>, seek: nat, bytes: seq<byte>) {
      exists i, c: nat, ofs: nat :: 0 <= i < |ts| && ts[i].chunkInBuff == Some(c) && At(c, ofs, seek)
        && ofs + |bytes| <= |ts[i].uncompressed| && bytes == ts[i].uncompressed[ofs..ofs + |bytes|]
    }

    /**
     * AewfReadMT0: one round of at most one chunk's worth of bytes per thread. From coherent caches it reads the next bytes
     * of the image, or fails because something in the request cannot be read. From any settled state it reads bytes of one
     * chunk from a buffer that is marked with it.
     */
    method ReadMT0(p_buf: array<byte>, buf: nat, seek: nat, count: nat) returns (rc: ErrorCode, read: nat)
      requires CachesOk() && Opened() && NoShort() && Settled() && (ThreadsIdle() || CachedRequest(seek, count))
      requires seek + count <= imageSize && buf + count <= p_buf.Length
      requires 0 < count <= RoundSize()
      modifies `threads, `segments, `openSegments, `tables, `tableCache, p_buf
      ensures CachesOk() && Settled()
      ensures forall k :: 0 <= k < p_buf.Length && !(buf <= k < buf + count) ==> p_buf[k] == old(p_buf[k])
      ensures old(ThreadsIdle()) && rc == AEWF_OK ==> ThreadsIdle() && 0 < read <= count && Available(Cells(), seek, read)
      ensures old(ThreadsIdle()) && rc == AEWF_OK ==> NearlyAll(seek, count, read)
      ensures old(ThreadsIdle()) && rc == AEWF_OK ==> p_buf[buf..buf + read] == Stretch(Cells(), seek, read)
      ensures old(ThreadsIdle()) && rc != AEWF_OK ==> ErrorIn(seek, count) != AEWF_OK && BadMarksIn(seek, seek + count)
      ensures old(ThreadsIdle()) && rc != AEWF_OK ==> (ThreadsIdle() <==> LeavesNoMark(ErrorIn(seek, count)))
      ensures !old(ThreadsIdle()) ==> rc == AEWF_OK && read == count && FromMarked(old(threads), seek, p_buf[buf..buf + count])
    {
      hide CachesOk, Launching, Chunk, InOrder, Running, NoShort, Cells, IsRound, Opened, Available, Stretch, ThreadsIdle, Settled, CachedRequest;
      hide Image, At, RoundOk, BadMark, BadIn, FailsUpTo, TrueRound, TooBig, HasFirst, BadMarksIn, FromMarked, ClaimedRound, FirstError, Untouched;
      ghost var idle, was := ThreadsIdle(), threads;
      ghost var r, first, before, next, pos := AnyRound(buf, seek, seek + count), 0, p_buf[..], 0, 0;
      first := BeginRound(r, before, buf, seek, count);
      var readRc;
      readRc, next, pos := LaunchAll(p_buf, r, buf, seek, count, first, before);
      RoundGoesOn(r, before, p_buf[..], first, next, pos, !LeavesNoMark(readRc));
      rc, read := JoinAll(p_buf, r, before, first, next, pos, !LeavesNoMark(readRc));
      if idle {
        TrueEnd(r, before, p_buf[..], first, next, pos, readRc, rc, read);
      } else {
        ClaimedEnd(r, was, before, p_buf[..], first, next, pos, readRc, rc, read);
      }
      SameOutside(r, before, p_buf[..]);
      if readRc != AEWF_OK {
        rc := readRc;
      }
    }

    lemma SameOutside(r: Round, before: seq<byte>, p: seq<byte>)
      requires Untouched(r, before, p)
      ensures |p| == |before| && forall k :: 0 <= k < |p| && !(r.base <= k < r.base + r.limit - r.seek) ==> p[k] == before[k]
    {
    }

    /** The round to reason about: one on the image if the caches are coherent, and otherwise one on what they claim. */
    ghost function AnyRound(base: nat, seek: nat, limit: nat): Round
      requires Opened()
      reads `threads
    {
      if ThreadsIdle() then Round(Image(), chunkSize, base, seek, limit, BadChunks()) else ClaimedRound(threads, base, seek, limit)
    }

    lemma BeginRound(r: Round, before: seq<byte>, base: nat, seek: nat, count: nat) returns (first: nat)
      requires Opened() && NoShort() && Settled() && (ThreadsIdle() || CachedRequest(seek, count))
      requires base + count <= |before| && r == AnyRound(base, seek, seek + count) && seek + count <= imageSize
      ensures IsRound(r) && r.base == base && r.seek == seek && r.limit == seek + count && Launching(r, before, before, first, first, seek)
      ensures first * chunkSize <= seek && seek - first * chunkSize == seek % chunkSize && exists ofs :: At(first, ofs, seek)
      ensures TrueRound(r) <==> ThreadsIdle()
      ensures AreSettled(threads) && (!TrueRound(r) ==> r == ClaimedRound(threads, base, seek, seek + count))
      ensures TrueRound(r) || (MarkedIn(first) && seek + count <= (first + 1) * chunkSize)
    {
      hide Content, ChunkLen, Image, Launching, Claimed, CacheOk, MarkOk, NoShort;
      first := Quotient(seek, chunkSize);
      DivMod(seek, chunkSize, first);
      assert At(first, seek - first * chunkSize, seek);
      if ThreadsIdle() {
        IdleStart(r);
      } else {
        ClaimedStart(r);
        var c: nat, ofs: nat :| At(c, ofs, seek) && ofs + count <= chunkSize && MarkedIn(c);
        SameChunk(c, ofs, first, seek);
        NextBlock(c, chunkSize);
      }
      StartRound(r, before, first, seek - first * chunkSize);
    }

    lemma ClaimedChunk(ts: seq<Thread>, i: nat, c: nat)
      requires Opened() && AreSettled(ts) && i < |ts| && ts[i].chunkInBuff == Some(c)
      ensures HasChunk(Claimed(ts), chunkSize, ts[i], c)
    {
      hide Content, ChunkLen, Image;
      assert MarkOk(ts[i], c);
      ChunkSizes(c);
      var base, n := c * chunkSize, ts[i].uncompressedLen;
      forall k | 0 <= k < n
        ensures Claimed(ts)[base + k] == ts[i].uncompressed[k]
      {
        DivMod(base + k, chunkSize, c);
      }
      assert Chunk(Claimed(ts), chunkSize, c) == ts[i].uncompressed[..n];
    }

    /** Where a chunk can be read, its marks claim the truth. */
    lemma ClaimedTruth(ts: seq<Thread>, c: nat)
      requires Opened() && AreSettled(ts) && c < chunks && Content(c).Good?
      ensures Chunk(Claimed(ts), chunkSize, c) == Chunk(Image(), chunkSize, c)
    {
      hide Content, ChunkLen, Image;
      if i :| 0 <= i < |ts| && ts[i].chunkInBuff == Some(c) {
        ClaimedChunk(ts, i, c);
        assert MarkOk(ts[i], c);
      } else {
        UnmarkedTruth(ts, c);
      }
    }

    /** A chunk that no thread is marked with is claimed to be what it is. */
    lemma UnmarkedTruth(ts: seq<Thread>, c: nat)
      requires Opened() && c < chunks && forall i :: 0 <= i < |ts| ==> ts[i].chunkInBuff != Some(c)
      ensures Chunk(Claimed(ts), chunkSize, c) == Chunk(Image(), chunkSize, c)
    {
      hide Content, ChunkLen, Image;
      ChunkSizes(c);
      NextBlock(c, chunkSize);
      var base, n := c * chunkSize, ChunkLen(imageSize, chunkSize, chunks, c);
      forall p | base <= p < base + n
        ensures Claimed(ts)[p] == Image()[p]
      {
        DivMod(p, chunkSize, c);
      }
      assert Claimed(ts)[base..base + n] == Image()[base..base + n];
    }

    lemma ClaimedStart(r: Round)
      requires Opened() && NoShort() && Settled() && !ThreadsIdle() && r.seek <= r.limit <= imageSize
      requires r == ClaimedRound(threads, r.base, r.seek, r.limit)
      ensures IsRound(r) && !TrueRound(r) && MarksGood(r, threads)
      ensures forall i :: 0 <= i < |threads| ==> CacheOk(r, threads[i])
    {
      hide Content, ChunkLen, Image, Claimed, HasChunk, Chunk;
      forall i | 0 <= i < |threads|
        ensures CacheOk(r, threads[i])
      {
        if threads[i].chunkInBuff.Some? {
          var c := threads[i].chunkInBuff.value;
          assert MarkOk(threads[i], c);
          ClaimedChunk(threads, i, c);
          ChunkSpan(r, c);
        }
      }
      var j: nat :| j < |threads| && threads[j].chunkInBuff.Some? && !Readable(threads[j].chunkInBuff.value);
      assert threads[j].chunkInBuff.value in BadChunks() && threads[j].chunkInBuff.value !in r.bad;
    }

    lemma ClaimedEnd(r: Round, was: seq<Thread>, before: seq<byte>, p: seq<byte>, first: nat, next: nat, pos: nat, readRc: ErrorCode, rc: ErrorCode, read: nat)
      requires Opened() && AreSettled(was) && !TrueRound(r) && r == ClaimedRound(was, r.base, r.seek, r.limit)
      requires InOrder(r, before, p, first, next, !LeavesNoMark(readRc) || rc != AEWF_OK)
      requires forall i :: 0 <= i < |threads| ==> !threads[i].launched
      requires readRc == AEWF_OK && pos == r.limit && next == first + 1 && r.seek < r.limit <= (first + 1) * chunkSize
      requires (exists i :: 0 <= i < |was| && was[i].chunkInBuff == Some(first)) && exists ofs :: At(first, ofs, r.seek)
      requires rc != AEWF_OK ==> BadIn(r, first, next)
      requires rc == AEWF_OK ==> r.seek + read == pos && HasFirst(r, p, read)
      ensures rc == AEWF_OK && read == r.limit - r.seek && Settled() && Untouched(r, before, p)
      ensures r.base + read <= |p| && FromMarked(was, r.seek, p[r.base..r.base + read])
    {
      hide Content, ChunkLen, Image, Claimed, Chunk, HasChunk, Running, IsRound, TrueRound, TooBig, InRound, Untouched;
      var i: nat :| i < |was| && was[i].chunkInBuff == Some(first);
      assert first !in r.bad;
      assert rc == AEWF_OK;
      ClaimedSettled(r, was, before, p, first, next);
      RoundFacts(r);
      var ofs: nat :| At(first, ofs, r.seek);
      NextBlock(first, chunkSize);
      BytesOfMark(r, was, i, first, ofs);
    }

    lemma BytesOfMark(r: Round, was: seq<Thread>, i: nat, c: nat, ofs: nat)
      requires Opened() && AreSettled(was) && i < |was| && was[i].chunkInBuff == Some(c) && At(c, ofs, r.seek)
      requires r.image == Claimed(was) && r.seek <= r.limit <= imageSize && r.limit <= c * chunkSize + chunkSize
      ensures var n := r.limit - r.seek;
        ofs + n <= |was[i].uncompressed| && r.image[r.seek..r.limit] == was[i].uncompressed[ofs..ofs + n]
    {
      hide Content, Image, Claimed;
      ClaimedChunk(was, i, c);
      assert MarkOk(was[i], c);
      ChunkSizes(c);
      var n, len := r.limit - r.seek, was[i].uncompressedLen;
      SubSlice(r.image, c * chunkSize, c * chunkSize + len, ofs, ofs + n);
      SubSlice(was[i].uncompressed, 0, len, ofs, ofs + n);
    }

    lemma ClaimedSettled(r: Round, was: seq<Thread>, before: seq<byte>, p: seq<byte>, first: nat, next: nat)
      requires Opened() && AreSettled(was) && r == ClaimedRound(was, r.base, r.seek, r.limit)
      requires InOrder(r, before, p, first, next, false)
      requires forall i :: 0 <= i < |threads| ==> !threads[i].launched
      ensures Settled() && Untouched(r, before, p)
    {
      hide Content, ChunkLen, Image, Claimed, Chunk, HasChunk, InRound, Delivered, Untouched, HandedOut, TooBig, TrueRound;
      forall i | 0 <= i < |threads|
        ensures Full(chunkSize, threads[i])
        ensures threads[i].chunkInBuff.Some? ==> MarkOk(threads[i], threads[i].chunkInBuff.value)
      {
        assert ThreadOk(r, codec, threads[i], p);
        if threads[i].chunkInBuff.Some? {
          ClaimedMark(r, was, threads[i]);
        }
      }
    }

    lemma ClaimedMark(r: Round, was: seq<Thread>, th: Thread)
      requires Opened() && AreSettled(was) && IsRound(r) && r == ClaimedRound(was, r.base, r.seek, r.limit)
      requires CacheOk(r, th) && th.chunkInBuff.Some? && th.chunkInBuff.value !in r.bad
      ensures MarkOk(th, th.chunkInBuff.value)
    {
      hide Content, ChunkLen, Image, Claimed, Chunk, InRound;
      var c := th.chunkInBuff.value;
      MulCancel(c, chunks, chunkSize);
      ChunkSpan(r, c);
      if Content(c).Good? {
        ClaimedTruth(was, c);
      }
    }

    /** The end of a round on the image. */
    lemma TrueEnd(r: Round, before: seq<byte>, p: seq<byte>, first: nat, next: nat, pos: nat, readRc: ErrorCode, rc: ErrorCode, read: nat)
      requires TrueRound(r) && r.seek < r.limit && first * chunkSize <= r.seek
      requires InOrder(r, before, p, first, next, !LeavesNoMark(readRc) || rc != AEWF_OK)
      requires forall i :: 0 <= i < |threads| ==> !threads[i].launched
      requires !LeavesNoMark(readRc) || rc != AEWF_OK ==> BadMark(r, threads)
      requires !LeavesNoMark(readRc) ==> FailsUpTo(r, first, next)
      requires rc != AEWF_OK ==> BadIn(r, first, next)
      requires LeavesNoMark(readRc) ==> pos == r.seek + Covered(r, first, next)
      requires readRc == AEWF_OK ==> r.seek < pos <= r.limit
      requires readRc == AEWF_CHUNK_TOO_BIG ==> TooBig(next) && pos < r.limit && exists ofs :: At(next, ofs, pos)
      requires LeavesNoMark(readRc) && rc == AEWF_OK ==> r.seek + read == pos && HasFirst(r, p, read) && !BadIn(r, first, next)
      ensures Settled() && Untouched(r, before, p) && BadMarksIn(r.seek, r.limit)
      ensures readRc == AEWF_OK && rc == AEWF_OK ==> ThreadsIdle() && 0 < read <= r.limit - r.seek && Available(Cells(), r.seek, read)
      ensures readRc == AEWF_OK && rc == AEWF_OK ==> r.base + read <= |p| && p[r.base..r.base + read] == Stretch(Cells(), r.seek, read)
      ensures readRc != AEWF_OK || rc != AEWF_OK ==>
        var e := ErrorIn(r.seek, r.limit - r.seek); e != AEWF_OK && (ThreadsIdle() <==> LeavesNoMark(e))
    {
      hide Content, Cells, Image, Running, IsRound, TrueRound, InRound, TooBig, BadIn, BadMark, FailsUpTo, Untouched, BadMarksIn, Settled, ThreadsIdle, FirstError, Covered, Available, Stretch;
      RoundSettled(r, before, p, first, next, !LeavesNoMark(readRc) || rc != AEWF_OK);
      if !LeavesNoMark(readRc) {
        OtherError(r, first, next);
      } else if rc != AEWF_OK {
        BadInFails(r, before, p, first, next);
        OtherError(r, first, next);
      } else if readRc == AEWF_CHUNK_TOO_BIG {
        TooBigError(r, first, next, pos);
      } else {
        AllGood(r, first, next);
        RoundFacts(r);
        TrueImage(r);
        ImageCells(r.seek, read);
      }
    }

    lemma TrueImage(r: Round)
      requires TrueRound(r)
      ensures r.image == Image()
    {
    }

    lemma BadInFails(r: Round, before: seq<byte>, p: seq<byte>, first: nat, next: nat)
      requires TrueRound(r) && InOrder(r, before, p, first, next, true) && BadIn(r, first, next)
      ensures FailsUpTo(r, first, next)
    {
      hide InRound, Running, IsRound, TrueRound, TooBig;
    }

    lemma RoundGoesOn(r: Round, before: seq<byte>, p: seq<byte>, first: nat, next: nat, pos: nat, failed: bool)
      requires if failed then InOrder(r, before, p, first, next, true) else Launching(r, before, p, first, next, pos)
      ensures InOrder(r, before, p, first, next, failed)
      ensures first * chunkSize <= r.seek || failed
      ensures !failed ==> pos == r.seek + Covered(r, first, next)
    {
      hide InOrder, Covered;
    }

    /**
     * AewfReadMT. From coherent caches: reads everything, or ends at most one round before the first byte that cannot be read.
     * The caches are coherent afterwards if and only if everything can be read, or the first chunk of the request that cannot
     * is too big for a buffer: that is the only failure that leaves no mark. Otherwise a request inside a chunk that a thread
     * is marked with gets the bytes in that thread's buffer, whatever they are, with success.
     */
    method ReadMT(p_buf: array<byte>, seek: nat, count: nat) returns (rc: ErrorCode, read: nat)
      requires CachesOk() && Opened() && NoShort() && Settled() && threadCount > 0
      requires ThreadsIdle() || (count > 0 && CachedRequest(seek, count))
      requires seek + count <= imageSize && count <= p_buf.Length
      modifies `threads, `segments, `openSegments, `tables, `tableCache, p_buf
      ensures CachesOk() && Settled() && read <= count
      ensures forall k :: count <= k < p_buf.Length ==> p_buf[k] == old(p_buf[k])
      ensures old(ThreadsIdle()) ==> Available(Cells(), seek, read) && p_buf[..read] == Stretch(Cells(), seek, read)
      ensures old(ThreadsIdle()) ==> (rc == AEWF_OK <==> Available(Cells(), seek, count)) && (rc == AEWF_OK ==> read == count)
      ensures old(ThreadsIdle()) && rc != AEWF_OK ==> BadWithin(seek + read, Min(seek + read + threadCount * chunkSize, seek + count))
      ensures old(ThreadsIdle()) && rc != AEWF_OK && IsOneRound(seek, count) ==> read == 0
      ensures old(ThreadsIdle()) ==> (ThreadsIdle() <==> LeavesNoMark(ErrorIn(seek, count))) && BadMarksIn(seek, seek + count)
      ensures !old(ThreadsIdle()) ==> rc == AEWF_OK && read == count && FromMarked(old(threads), seek, p_buf[..count])
    {
      hide CachesOk, ThreadsIdle, Settled, Chunk, NoShort, Opened, Cells, Available, Stretch, FirstError, BadMarksIn, BadWithin, CachedRequest, FromMarked;
      hide IsOneRound, NearlyAll;
      OpenedImage();
      ghost var idle := ThreadsIdle();
      if !idle {
        OneRound(seek, count);
      } else {
        NoBadMarks(seek, seek + count);
      }
      var maxPerLoop := RoundSize();
      MulMono(1, threadCount, chunkSize);
      var remaining := count;
      read := 0;
      ReadNothing(p_buf[..], seek);
      while remaining != 0
        invariant CachesOk() && Settled() && read + remaining == count
        invariant idle ==> ThreadsIdle() && ReadSoFar(p_buf[..], seek, read) && BadMarksIn(seek, seek + count)
        invariant idle && IsOneRound(seek, count) ==> read == 0 || remaining == 0
        invariant !idle && remaining != 0 ==> read == 0 && threads == old(threads)
        invariant !idle && remaining == 0 ==> FromMarked(old(threads), seek, p_buf[..count])
        invariant forall k :: count <= k < p_buf.Length ==> p_buf[k] == old(p_buf[k])
        decreases remaining
      {
        var toRead := Min(maxPerLoop, remaining);
        var n;
        ghost var was := p_buf[..];
        rc, n := ReadMT0(p_buf, read, seek + read, toRead);
        assert p_buf[..read] == was[..read];
        if rc != AEWF_OK {
          FailedRound(seek, read, toRead, count);
          return;
        }
        if idle {
          ReadMore(p_buf[..], was, seek, read, n);
          NoBadMarks(seek, seek + count);
          if IsOneRound(seek, count) {
            ReadAtOnce(seek, count, n);
          }
        }
        assert !idle ==> p_buf[0..count] == p_buf[..count];
        read, remaining := read + n, remaining - n;
      }
      rc := AEWF_OK;
      if idle {
        AllIsRead(seek, count);
      }
    }

    /** A request for no more bytes than one round has, from the start of a chunk on. */
    predicate IsOneRound(seek: nat, count: nat) {
      chunkSize > 0 && seek % chunkSize == 0 && count <= threadCount * chunkSize
    }

    /** No more bytes are left than the request starts behind the start of its first chunk. */
    predicate NearlyAll(seek: nat, count: nat, read: nat) {
      chunkSize > 0 && count - read <= seek % chunkSize
    }

    lemma ReadAtOnce(seek: nat, count: nat, n: nat)
      requires IsOneRound(seek, count) && NearlyAll(seek, Min(RoundSize(), count), n) && n <= Min(RoundSize(), count)
      ensures n == count
    {
    }

    /** A request inside one chunk takes one round. */
    lemma OneRound(seek: nat, count: nat)
      requires CachedRequest(seek, count) && threadCount > 0
      ensures count <= RoundSize()
    {
      MulMono(1, threadCount, chunkSize);
    }

    lemma NoBadMarks(from: nat, to: nat)
      requires ThreadsIdle()
      ensures BadMarksIn(from, to)
    {
    }

    lemma AllIsRead(seek: nat, count: nat)
      requires Opened() && Available(Cells(), seek, count)
      ensures ErrorIn(seek, count) == AEWF_OK
    {
      hide Cells;
      NoError(Cells(), AEWF_OK, seek, count);
    }

    /** What a failed round says of the whole request. */
    lemma FailedRound(seek: nat, read: nat, n: nat, count: nat)
      requires Opened() && read + n <= count && Available(Cells(), seek, read) && BadMarksIn(seek + read, seek + read + n)
      requires ErrorIn(seek + read, n) != AEWF_OK
      ensures BadWithin(seek + read, seek + read + n) && !Available(Cells(), seek, count)
      ensures ErrorIn(seek, count) == ErrorIn(seek + read, n) && BadMarksIn(seek, seek + count)
    {
      hide Cells, Opened;
      var p := SomeFailure(seek + read, n);
      FirstErrorOfMore(Cells(), AEWF_OK, seek + read, n, count - read - n);
      FirstErrorBehind(Cells(), AEWF_OK, seek, read, count - read);
    }

    lemma SomeFailure(seek: nat, n: nat) returns (p: nat)
      requires Opened() && ErrorIn(seek, n) != AEWF_OK
      ensures seek <= p < seek + n && Cells()(p).Fails?
    {
      hide Cells, Opened;
      if forall q: nat :: seek <= q < seek + n ==> Cells()(q).Byte? {
        NoError(Cells(), AEWF_OK, seek, n);
      }
      p :| seek <= p < seek + n && Cells()(p).Fails?;
    }

    ghost predicate ReadSoFar(p: seq<byte>, seek: nat, read: nat) {
      Opened() && read <= |p| && Available(Cells(), seek, read) && p[..read] == Stretch(Cells(), seek, read)
    }

    lemma ReadNothing(p: seq<byte>, seek: nat)
      requires Opened()
      ensures ReadSoFar(p, seek, 0)
    {
    }

    lemma ReadMore(p: seq<byte>, was: seq<byte>, seek: nat, read: nat, n: nat)
      requires ReadSoFar(was, seek, read) && read + n <= |p| && p[..read] == was[..read]
      requires Available(Cells(), seek + read, n) && p[read..read + n] == Stretch(Cells(), seek + read, n)
      ensures ReadSoFar(p, seek, read + n)
    {
      hide Cells, Opened;
      AllRead(Cells(), AEWF_OK, seek + read, n);
      OutcomeMore(Cells(), AEWF_OK, seek, read, n, n, AEWF_OK);
      assert p[..read + n] == p[..read] + p[read..read + n];
    }

    /**
     * A chunk that cannot be read, and is not too big for a buffer: the first request for bytes of it fails, and the second
     * gets all its bytes from the buffer in which the chunk has left its mark, with success.
     */
    method RereadAfterFailedRead(p_buf: array<byte>, c: nat, ofs: nat, pos: nat, n: nat)
      returns (rc1: ErrorCode, read1: nat, rc2: ErrorCode, read2: nat)
      requires CachesOk() && Opened() && NoShort() && ThreadsIdle() && threadCount > 0
      requires At(c, ofs, pos) && n > 0 && ofs + n <= chunkSize && pos + n <= imageSize && n <= p_buf.Length
      requires c < chunks && !Content(c).Good? && !TooBig(c)
      modifies `threads, `segments, `openSegments, `tables, `tableCache, p_buf
      ensures rc1 != AEWF_OK && read1 == 0 && rc2 == AEWF_OK && read2 == n
    {
      hide CachesOk, ThreadsIdle, Settled, Chunk, NoShort, Opened, Cells, Available, Stretch, Content, FirstError, BadMarksIn, BadWithin;
      IdleSettled();
      BadFromStart(c, ofs, pos, n);
      rc1, read1 := ReadMT(p_buf, pos, n);
      NothingAvailable(pos, read1);
      MarkedNow(c, ofs, pos, n);
      rc2, read2 := ReadMT(p_buf, pos, n);
    }

    lemma IdleSettled()
      requires ThreadsIdle()
      ensures Settled()
    {
    }

    lemma BadFromStart(c: nat, ofs: nat, pos: nat, n: nat)
      requires Opened() && At(c, ofs, pos) && n > 0 && pos + n <= imageSize && c < chunks && !Content(c).Good? && !TooBig(c)
      ensures Cells()(pos).Fails? && !Available(Cells(), pos, n) && !LeavesNoMark(ErrorIn(pos, n))
    {
      hide Content, Cells, ChunkLen;
      CellIn(c, ofs, pos);
      FirstIsError(pos, n);
      ErrorKind(c);
    }

    lemma NothingAvailable(pos: nat, read: nat)
      requires Opened() && Cells()(pos).Fails? && Available(Cells(), pos, read)
      ensures read == 0
    {
      hide Cells;
    }

    lemma MarkedNow(c: nat, ofs: nat, pos: nat, n: nat)
      requires Opened() && Settled() && !ThreadsIdle() && BadMarksIn(pos, pos + n)
      requires At(c, ofs, pos) && n > 0 && ofs + n <= chunkSize
      ensures CachedRequest(pos, n)
    {
      hide Content, MarkOk;
      var i: nat :| i < |threads| && threads[i].chunkInBuff.Some? && !Readable(threads[i].chunkInBuff.value);
      var d := threads[i].chunkInBuff.value;
      NextBlock(c, chunkSize);
      NextBlock(d, chunkSize);
      MulCancel(d, c + 1, chunkSize);
      MulCancel(c, d + 1, chunkSize);
      assert d == c && MarkedIn(c);
    }

    /** Between calls of AewfRead. */
    ghost predicate Valid()
      reads this
    {
      CachesOk() && LegacyOk() && ThreadsIdle()
    }

    /**
     * AewfRead, with the number of bytes stored in the caller's buffer. The result of the reader is not handed on: a short
     * count is all that tells of bytes that cannot be read.
     */
    method Read(p_buf: array<byte>, seek: int, count: nat) returns (rc: ErrorCode, read: nat)
      requires Valid() && Opened() && NoShort() && threadCount > 0 && count <= p_buf.Length
      modifies this, p_buf
      ensures rc == if seek < 0 then AEWF_NEGATIVE_SEEK else AEWF_OK
      ensures seek < 0 || seek >= imageSize ==> read == 0 && p_buf[..] == old(p_buf[..]) && Valid()
      ensures 0 <= seek < imageSize ==> ReadResult(seek, Min(count, imageSize - seek), read, p_buf[..])
      ensures 0 <= seek < imageSize ==> forall k :: Min(count, imageSize - seek) <= k < p_buf.Length ==> p_buf[k] == old(p_buf[k])
      ensures 0 <= seek < imageSize && threadCount == 1 && (Harmless() || Available(Cells(), seek, Min(count, imageSize - seek))) ==> Valid()
      ensures 0 <= seek < imageSize && threadCount != 1 ==> (Valid() <==> LeavesNoMark(ErrorIn(seek, Min(count, imageSize - seek))))
    {
      hide CachesOk, ThreadsIdle, LegacyOk, Chunk, Opened, NoShort, Harmless, Available, Stretch, Cells, Outcome, Copied, Settled, FirstError, BadMarksIn;
      OpenedImage();
      rc, read := AEWF_OK, 0;
      if seek < 0 {
        rc := AEWF_NEGATIVE_SEEK;
        return;
      }
      if seek >= imageSize {
        return;
      }
      var n := if seek + count > imageSize then imageSize - seek else count;
      IdleSettled();
      if threadCount == 1 {
        ghost var before := p_buf[..];
        rc, read := ReadLegacy(p_buf, seek, n);
        LegacyResult(seek, n, read, rc, before, p_buf[..]);
      } else {
        rc, read := ReadMT(p_buf, seek, n);
        ThreadedResult(seek, n, read, rc, p_buf[..]);
      }
      rc := AEWF_OK;
    }

    /**
     * The first bytes of the request are in the buffer: all of them if and only if all can be read, and otherwise all
     * before the first that cannot be read, but for at most one round of the threads.
     */
    ghost predicate ReadResult(seek: nat, n: nat, read: nat, p: seq<byte>)
      requires Opened()
    {
      && read <= n <= |p| && Available(Cells(), seek, read) && p[..read] == Stretch(Cells(), seek, read)
      && (read == n <==> Available(Cells(), seek, n))
      && (read < n ==>
           if threadCount == 1 then Cells()(seek + read).Fails?
           else BadWithin(seek + read, Min(seek + read + RoundSize(), seek + n)))
    }

    lemma LegacyResult(seek: nat, n: nat, read: nat, rc: ErrorCode, before: seq<byte>, p: seq<byte>)
      requires Opened() && threadCount == 1 && n <= |before|
      requires Outcome(Cells(), AEWF_OK, seek, n, read, rc) && Copied(Cells(), seek, read, before, p)
      ensures ReadResult(seek, n, read, p) && forall k :: n <= k < |p| ==> p[k] == before[k]
      ensures Available(Cells(), seek, n) ==> rc == AEWF_OK
    {
      hide Cells, Opened;
    }

    lemma ThreadedResult(seek: nat, n: nat, read: nat, rc: ErrorCode, p: seq<byte>)
      requires Opened() && threadCount != 1 && read <= n <= |p|
      requires Available(Cells(), seek, read) && p[..read] == Stretch(Cells(), seek, read)
      requires rc == AEWF_OK <==> Available(Cells(), seek, n)
      requires rc == AEWF_OK ==> read == n
      requires rc != AEWF_OK ==> BadWithin(seek + read, Min(seek + read + RoundSize(), seek + n))
      ensures ReadResult(seek, n, read, p)
    {
      hide Cells, Opened;
    }
  }
}
