/** The QCOW2 reader. */
module Qcow {
  import opened Bytes
  import opened Lookup
  import opened QcowFormat

  const HEADER_SIZE := 72      // sizeof(t_QcowHeader)

  /** The fields of t_QcowHeader that are used. */
  datatype Header = Header(magic: seq<byte>, version: nat, clusterBits: nat, size: nat, cryptMethod: nat, l1Size: nat, l1TableOffset: nat)

  function ParseFields(s: seq<byte>): Header
    requires |s| == HEADER_SIZE
  {
    Header(s[0..4], Be32(s, 4), Be32(s, 20), Be64(s, 24), Be32(s, 32), Be32(s, 36), Be64(s, 40))
  }

  /** What QcowOpen makes of a header. */
  function HeaderError(h: Header): QcowError {
    if h.magic != [81, 70, 73, 0xfb] then QCOW_BAD_MAGIC_HEADER
    else if h.version != 2 && h.version != 3 then QCOW_BAD_VERSION
    else if h.cryptMethod != 0 then QCOW_UNSUPPORTED_ENCRYPTION
    else if h.l1TableOffset >= MAX_SEEK then QCOW_CANNOT_SEEK
    else QCOW_OK
  }

  /** (size_t)1 << n; a shift by 64 or more has no meaning. */
  function One(n: nat): nat {
    if n < 64 then Pow2(n) else 0
  }

  lemma {:induction false} Pow2Mono(a: nat, b: nat)
    requires a <= b
    ensures Pow2(a) <= Pow2(b)
  {
    if a < b {
      Pow2Mono(a, b - 1);
    }
  }

  /** No position the reader computes is too large to seek to. */
  lemma InSeekRange(d: Disk, l1: nat, l2: nat, ofs: nat)
    requires DiskOk(d) && l1 < d.l1Size && l2 < Pow2(d.clusterBits - 3) && ofs < Pow2(d.clusterBits)
    ensures OffsetBits(Be64(d.l1Table, 8 * l1)) + 8 * l2 < MAX_SEEK
    ensures match ClusterAt(d, l1, l2)
      case Zero => true
      case Plain(at) => at + ofs < MAX_SEEK
      case Compressed(at, len) => at < MAX_SEEK
  {
    hide Pow2, Be64, Filled;
    Powers();
    Pow2Mono(d.clusterBits - 3, 31);
    Pow2Mono(d.clusterBits, 31);
    Pow2Mono(70 - d.clusterBits, 62);
  }

  lemma FilledParts(file: seq<byte>, at: nat, n: nat, got: seq<byte>)
    requires got == if at >= |file| then [] else file[at..at + Min(n, |file| - at)]
    ensures |got| <= n && Filled(file, at, n) == got + Zeros(n - |got|)
  {
  }

  function CellError(c: Cell<QcowError>): QcowError {
    match c
    case Byte(_) => QCOW_OK
    case Fails(e) => e
  }

  function ErrorAt(d: Disk, seek: nat): QcowError
    requires DiskOk(d)
  {
    CellError(CellAt(d, seek))
  }

  /**
   * The result of a read in which k bytes were got. Requests that reach behind the end of the disk are refused. Of others,
   * as many bytes are read as the count says in 32 bits; for none, only the first position is looked up.
   */
  ghost predicate ReadResult(d: Disk, seek: nat, count: nat, before: seq<byte>, after: seq<byte>, k: nat, rc: QcowError)
    requires DiskOk(d) && count <= |before|
  {
    if seek + count > d.size then rc == QCOW_READ_BEYOND_END_OF_IMAGE && after == before
    else if count % U32 == 0 then rc == ErrorAt(d, seek) && after == before
    else Outcome(Cells(d), QCOW_OK, seek, count % U32, k, rc) && Copied(Cells(d), seek, k, before, after)
  }

  /** t_Qcow */
  class Qcow {
    const file: seq<byte>
    const inflate: seq<byte> -> Option<nat -> byte>
    var filePos: nat
    var header: Header
    var l1Table: seq<byte>
    var l2Bits: nat
    var l2Size: nat
    var l1Bits: nat
    var clusterSize: nat

    constructor (file: seq<byte>, inflate: seq<byte> -> Option<nat -> byte>)
      ensures this.file == file && this.inflate == inflate && filePos == 0
    {
      this.file, this.inflate := file, inflate;
      filePos, header, l1Table, l2Bits, l2Size, l1Bits, clusterSize := 0, Header([], 0, 0, 0, 0, 0, 0), [], 0, 0, 0, 0;
    }

    function D(): Disk
      reads this
    {
      Disk(file, header.size, header.clusterBits, header.l1Size, l1Table, inflate)
    }

    /** An opened file with a cluster size that the format allows. */
    ghost predicate Valid()
      reads this
    {
      && DiskOk(D())
      && l2Bits == header.clusterBits - 3 && l2Size == Pow2(l2Bits) && clusterSize == Pow2(header.clusterBits)
    }

    /** QcowUtilFileSeek */
    method FileSeek(offset: nat) returns (rc: QcowError)
      modifies `filePos
      ensures rc == if offset >= MAX_SEEK then QCOW_CANNOT_SEEK else QCOW_OK
      ensures rc == QCOW_OK ==> filePos == offset
    {
      if offset >= MAX_SEEK {
        return QCOW_CANNOT_SEEK;
      }
      filePos := offset;
      rc := QCOW_OK;
    }

    /** QcowUtilFileRead: what the file does not have is set to zero. */
    method FileRead(p_buf: array<byte>, at: nat, size: nat) returns (rc: QcowError)
      requires at + size <= p_buf.Length
      modifies `filePos, p_buf
      ensures rc == QCOW_OK
      ensures p_buf[..] == Splice(old(p_buf[..]), at, Filled(file, old(filePos), size))
    {
      hide Splice;
      var bytesRead := if filePos >= |file| then 0 else Min(size, |file| - filePos);
      var got := if bytesRead > 0 then file[filePos..filePos + bytesRead] else [];
      FilledParts(file, filePos, size, got);
      SpliceJoin(p_buf[..], at, got, Zeros(size - bytesRead));
      Memcpy(p_buf, at, got);
      filePos := filePos + bytesRead;
      Memcpy(p_buf, at + bytesRead, Zeros(size - bytesRead));
      rc := QCOW_OK;
    }

    /** n bytes from a position of the file, in a buffer of their own. */
    method FileReadNew(size: nat) returns (rc: QcowError, bytes: seq<byte>)
      modifies `filePos
      ensures rc == QCOW_OK && bytes == Filled(file, old(filePos), size)
    {
      var p_buf := new byte[size](i => 0);
      rc := FileRead(p_buf, 0, size);
      bytes := p_buf[..];
    }

    /** QcowParseHeader */
    method ParseHeader() returns (rc: QcowError)
      requires filePos == 0
      modifies `filePos, `header
      ensures header == ParseFields(Filled(file, 0, HEADER_SIZE))
      ensures rc == if HeaderError(header) == QCOW_CANNOT_SEEK then QCOW_OK else HeaderError(header)
    {
      var bytes;
      rc, bytes := FileReadNew(HEADER_SIZE);
      header := ParseFields(bytes);
      if header.magic != [81, 70, 73, 0xfb] {
        return QCOW_BAD_MAGIC_HEADER;
      }
      if header.version != 2 && header.version != 3 {
        return QCOW_BAD_VERSION;
      }
      if header.cryptMethod != 0 {
        return QCOW_UNSUPPORTED_ENCRYPTION;
      }
    }

    /** QcowOpen; the cluster size is not checked. */
    method Open() returns (rc: QcowError)
      requires filePos == 0
      modifies this
      ensures header == ParseFields(Filled(file, 0, HEADER_SIZE))
      ensures rc == HeaderError(header)
      ensures rc == QCOW_OK ==> l1Table == Filled(file, header.l1TableOffset, 8 * header.l1Size)
      ensures rc == QCOW_OK && 9 <= header.clusterBits < 32 ==> Valid() && l1Bits == 64 - l2Bits - header.clusterBits
    {
      hide ParseFields, Pow2;
      rc := ParseHeader();
      if rc != QCOW_OK {
        return;
      }
      l2Bits := (header.clusterBits - 3) % U32;
      l2Size := One(l2Bits);
      l1Bits := (64 - l2Bits - header.clusterBits) % U32;
      clusterSize := One(header.clusterBits);
      rc := FileSeek(header.l1TableOffset);
      if rc != QCOW_OK {
        return;
      }
      rc, l1Table := FileReadNew(8 * header.l1Size);
    }

    /** The tables' part of QcowRead0: where the cluster is that the two table indexes lead to. */
    method FindCluster(l1: nat, l2: nat) returns (rc: QcowError, cluster: Cluster)
      requires Valid() && l1 < header.l1Size && l2 < l2Size
      modifies `filePos
      ensures rc == QCOW_OK && cluster == ClusterAt(D(), l1, l2)
    {
      hide Pow2, Be64, OffsetBits;
      InSeekRange(D(), l1, l2, 0);
      cluster := Zero;
      var table := OffsetBits(Be64(l1Table, 8 * l1));
      if table == 0 {
        return QCOW_OK, cluster;
      }
      rc := FileSeek(table + 8 * l2);
      if rc != QCOW_OK {
        return;
      }
      var bytes;
      rc, bytes := FileReadNew(8);
      var entry := Be64(bytes, 0);
      if entry / 0x4000_0000_0000_0000 % 2 == 1 {
        var addressBits := 64 - 2 - (header.clusterBits - 8);
        cluster := Compressed(entry % Pow2(addressBits), 512 * (1 + entry / Pow2(addressBits) % Pow2(header.clusterBits - 8)));
      } else if entry % 2 != 1 && OffsetBits(entry) != 0 {
        cluster := Plain(OffsetBits(entry));
      }
    }

    /** QcowRead0: one piece, of at most the rest of a cluster. */
    method Read0(p_buf: array<byte>, at: nat, seek: nat, count: nat) returns (rc: QcowError, n: nat)
      requires Valid() && at + count <= p_buf.Length
      modifies `filePos, p_buf
      ensures n <= count && (count > 0 ==> n > 0)
      ensures rc == ErrorAt(D(), seek)
      ensures rc == QCOW_OK ==> Available(Cells(D()), seek, n)
      ensures CopiedAt(Cells(D()), seek, if rc == QCOW_OK then n else 0, old(p_buf[..]), at, p_buf[..])
    {
      hide Cells, Pow2, L1OffsetFromAddress, L2OffsetFromAddress, ClusterOffsetFromAddress, ClusterAt, Splice, CopiedAt, Available, Stretch;
      SplitAddress(header.clusterBits, l2Bits, seek);
      var l1 := L1OffsetFromAddress(header.clusterBits, l2Bits, seek);
      var l2 := L2OffsetFromAddress(header.clusterBits, l2Bits, seek);
      var ofs := ClusterOffsetFromAddress(header.clusterBits, seek);
      n := Min(count, clusterSize - ofs);
      NoBytesAt(Cells(D()), seek, p_buf[..], at);
      if l1 >= header.l1Size {
        return QCOW_BAD_L1_OFFSET, n;
      }
      InSeekRange(D(), l1, l2, ofs);
      var cluster;
      rc, cluster := FindCluster(l1, l2);
      var piece;
      rc, piece := ReadCluster(cluster, ofs, n);
      if rc != QCOW_OK {
        return;
      }
      PieceStretch(D(), seek, n, piece);
      CopiedStretch(Cells(D()), seek, p_buf[..], at, piece);
      Memcpy(p_buf, at, piece);
    }

    /** The rest of QcowRead0: bytes of the cluster. */
    method ReadCluster(cluster: Cluster, ofs: nat, n: nat) returns (rc: QcowError, piece: seq<byte>)
      requires cluster.Plain? ==> cluster.at + ofs < MAX_SEEK
      requires cluster.Compressed? ==> cluster.at < MAX_SEEK
      modifies `filePos
      ensures rc == CellError(ByteOf(D(), cluster, ofs))
      ensures rc == QCOW_OK ==> |piece| == n && forall i :: 0 <= i < n ==> ByteOf(D(), cluster, ofs + i) == Byte(piece[i])
    {
      piece := [];
      match cluster {
        case Zero =>
          rc, piece := QCOW_OK, Zeros(n);
        case Compressed(at, len) =>
          rc := FileSeek(at);
          if rc != QCOW_OK {
            return;
          }
          var raw;
          rc, raw := FileReadNew(len);
          match inflate(raw) {
            case None =>
              rc := QCOW_UNABLE_TO_DECOMPRESS_CLUSTER;
            case Some(buffer) =>
              piece := seq<byte>(n, i requires 0 <= i => buffer(ofs + i));
          }
        case Plain(at) =>
          rc := FileSeek(at + ofs);
          if rc != QCOW_OK {
            return;
          }
          rc, piece := FileReadNew(n);
      }
    }

    /** QcowRead. The number of bytes still to read is kept in 32 bits. */
    method Read(p_buf: array<byte>, seek: nat, count: nat) returns (rc: QcowError, read: nat, ghost k: nat)
      requires Valid() && count <= p_buf.Length && seek + count < U64
      modifies `filePos, p_buf
      ensures rc == QCOW_OK ==> read == count
      ensures ReadResult(D(), seek, count, old(p_buf[..]), p_buf[..], k, rc)
    {
      hide Outcome, Available, Stretch, Cells, Splice, CopiedAt, Copied, DiskOk, Pow2, ErrorAt;
      read, k := 0, 0;
      if seek + count > header.size {
        return QCOW_READ_BEYOND_END_OF_IMAGE, read, k;
      }
      var remaining, bufPos, pos := count % U32, 0, seek;
      ghost var n, before := remaining, p_buf[..];
      NoBytes(Cells(D()), seek, before);
      if remaining == 0 {
        // the loop's condition is tested at its end
        var toRead;
        rc, toRead := Read0(p_buf, 0, seek, 0);
        CopiedNothing(Cells(D()), seek, before, 0, p_buf[..]);
        read := if rc == QCOW_OK then count else 0;
        return;
      }
      while remaining != 0
        invariant 0 <= remaining && bufPos + remaining == n <= |before| && pos == seek + bufPos
        invariant Valid() && D() == old(D())
        invariant Copied(Cells(D()), seek, bufPos, before, p_buf[..])
        decreases remaining
      {
        var toRead;
        ghost var was := p_buf[..];
        rc, toRead := Read0(p_buf, bufPos, pos, remaining);
        PieceOutcome(D(), pos, toRead, rc);
        AnotherPiece(Cells(D()), QCOW_OK, seek, bufPos, toRead, if rc == QCOW_OK then toRead else 0, rc, remaining - toRead, before, was, p_buf[..]);
        k := bufPos;
        if rc != QCOW_OK {
          return;
        }
        remaining, bufPos, pos := remaining - toRead, bufPos + toRead, pos + toRead;
      }
      k := bufPos;
      AllCopied(Cells(D()), QCOW_OK, seek, k, before, p_buf[..]);
      rc, read := QCOW_OK, count;
    }
  }

  lemma PieceStretch(d: Disk, seek: nat, n: nat, piece: seq<byte>)
    requires DiskOk(d) && ClusterOffsetFromAddress(d.clusterBits, seek) + n <= Pow2(d.clusterBits) && |piece| == n
    requires var l1, l2, ofs := L1OffsetFromAddress(d.clusterBits, d.clusterBits - 3, seek), L2OffsetFromAddress(d.clusterBits, d.clusterBits - 3, seek),
                                ClusterOffsetFromAddress(d.clusterBits, seek);
      l1 < d.l1Size && forall i :: 0 <= i < n ==> ByteOf(d, ClusterAt(d, l1, l2), ofs + i) == Byte(piece[i])
    ensures Available(Cells(d), seek, n) && Stretch(Cells(d), seek, n) == piece
  {
    hide Cells, ByteOf, ClusterAt, Pow2;
    forall p: nat | seek <= p < seek + n
      ensures Cells(d)(p) == Byte(piece[p - seek])
    {
      PieceCells(d, seek, p - seek);
    }
  }

  lemma PieceOutcome(d: Disk, seek: nat, n: nat, rc: QcowError)
    requires DiskOk(d) && n > 0
    requires rc == ErrorAt(d, seek)
    requires rc == QCOW_OK ==> Available(Cells(d), seek, n)
    ensures Outcome(Cells(d), QCOW_OK, seek, n, if rc == QCOW_OK then n else 0, rc)
  {
  }
}
