/** Putting the segment files of an AEWF image into the order of their numbers. */
module AewfSegments {
  import opened Bytes

  const FILE_HEADER := 13    // sizeof(t_AewfFileHeader)
  const AEWF_SIGNATURE: seq<byte> := [0x45, 0x56, 0x46, 0x09, 0x0D, 0x0A, 0xFF, 0x00]

  /** The results of AewfOpen. */
  datatype OpenError =
    | OK
    | FILE_READ_FAILED
    | FILE_SEEK_FAILED
    | BAD_FILE_SIGNATURE
    | DUPLICATE_SEGMENT_NUMBER
    | MISSING_SEGMENT_NUMBER
    | TOO_MANY_SECTIONS
    | SECTION_BEYOND_EOF
    | SECTION_HEADER_WRONG_SIZE
    | SECTION_SECTORS_WRONG_SIZE
    | VOLUME_MUST_PRECEDE_TABLES
    | SECTORS_MUST_PRECEDE_TABLES
    | SECTION_TABLE_WRONG_SIZE
    | SECTION_TABLE_BEYOND_EOF
    | SECTION_VOLUME_WRONG_SIZE
    | SECTION_HASH_WRONG_SIZE
    | SECTION_STARTPOS_ERROR
    | VOLUME_MISSING
    | WRONG_CHUNK_COUNT
    | ZERO_SECTORS
    | INVALID_SECTOR_SIZE
    | INVALID_CHUNK_SIZE
    | ZERO_IMAGE_SIZE
    | NUMBER_OF_TABLES

  /** t_Segment, with the contents of its file. */
  datatype Segment = Segment(number: nat, file: seq<byte>)

  /** What is wrong with the header of a file. */
  function HeaderError(file: seq<byte>): OpenError {
    if |file| < FILE_HEADER then FILE_READ_FAILED
    else if file[..8] != AEWF_SIGNATURE then BAD_FILE_SIGNATURE
    else OK
  }

  function Number(file: seq<byte>): nat {
    if |file| < FILE_HEADER then 0 else FromLe(file[9..11])
  }

  function SegmentsOf(files: seq<seq<byte>>): (s: seq<Segment>)
    ensures |s| == |files| && forall i :: 0 <= i < |files| ==> s[i] == Segment(Number(files[i]), files[i])
  {
    seq(|files|, i requires 0 <= i < |files| => Segment(Number(files[i]), files[i]))
  }

  predicate InOrder(s: seq<Segment>) {
    forall i, j :: 0 <= i < j < |s| ==> s[i].number <= s[j].number
  }

  /** The segments are numbered from 1 on, in their order. */
  predicate Numbered(s: seq<Segment>) {
    forall i :: 0 <= i < |s| ==> s[i].number == i + 1
  }

  /** qsort with QsortCompareSegments: the same segments, in the order of their numbers. */
  method Qsort(segments: seq<Segment>) returns (sorted: seq<Segment>)
    ensures InOrder(sorted) && multiset(sorted) == multiset(segments)
  {
    sorted := [];
    for n := 0 to |segments|
      invariant InOrder(sorted) && multiset(sorted) == multiset(segments[..n])
    {
      hide InOrder;
      assert segments[..n + 1] == segments[..n] + [segments[n]];
      sorted := Insert(sorted, segments[n]);
    }
    assert segments[..|segments|] == segments;
  }

  method Insert(s: seq<Segment>, x: Segment) returns (r: seq<Segment>)
    requires InOrder(s)
    ensures InOrder(r) && multiset(r) == multiset(s) + multiset{x}
  {
    var at := 0;
    while at < |s| && s[at].number <= x.number
      invariant at <= |s| && forall i :: 0 <= i < at ==> s[i].number <= x.number
    {
      at := at + 1;
    }
    InsertedMultiset(s, at, x);
    InsertedInOrder(s, at, x);
    r := s[..at] + [x] + s[at..];
  }

  lemma InsertedMultiset(s: seq<Segment>, at: nat, x: Segment)
    requires at <= |s|
    ensures multiset(s[..at] + [x] + s[at..]) == multiset(s) + multiset{x}
  {
    assert s == s[..at] + s[at..];
  }

  lemma InsertedInOrder(s: seq<Segment>, at: nat, x: Segment)
    requires InOrder(s) && at <= |s|
    requires (forall i :: 0 <= i < at ==> s[i].number <= x.number) && (at < |s| ==> x.number <= s[at].number)
    ensures InOrder(s[..at] + [x] + s[at..])
  {
    var r := s[..at] + [x] + s[at..];
    forall i, k | 0 <= i < k < |r|
      ensures r[i].number <= r[k].number
    {
      assert i < at ==> r[i] == s[i];
      assert k > at ==> r[k] == s[k - 1] && s[at].number <= s[k - 1].number;
      assert i > at ==> r[i] == s[i - 1];
      assert k < at ==> r[k] == s[k];
    }
  }

  /** Segments in order are determined by their numbers, as far as these are concerned. */
  lemma {:induction false} OrderUnique(a: seq<Segment>, b: seq<Segment>)
    requires InOrder(a) && InOrder(b) && multiset(a) == multiset(b)
    ensures |a| == |b| && forall i :: 0 <= i < |a| ==> a[i].number == b[i].number
    decreases |a|
  {
    hide InOrder;
    SameLength(a, b);
    if a != [] {
      var j := FirstIn(a, b);
      SameRest(a, b, j);
      RestInOrder(a);
      StillInOrder(b, j);
      OrderUnique(a[1..], b[..j] + b[j + 1..]);
      SameNumbers(a, b, j);
    }
  }

  lemma SameLength(a: seq<Segment>, b: seq<Segment>)
    requires multiset(a) == multiset(b)
    ensures |a| == |b|
  {
    assert |multiset(a)| == |a| && |multiset(b)| == |b|;
  }

  /** Where the first segment of one order is in the other; nothing before it has another number. */
  lemma FirstIn(a: seq<Segment>, b: seq<Segment>) returns (j: nat)
    requires InOrder(a) && InOrder(b) && multiset(a) == multiset(b) && a != []
    ensures j < |b| && b[j] == a[0] && b[0].number == a[0].number
  {
    assert a[0] in multiset(b);
    j :| j < |b| && b[j] == a[0];
    assert b[0] in multiset(a);
  }

  lemma SameRest(a: seq<Segment>, b: seq<Segment>, j: nat)
    requires multiset(a) == multiset(b) && a != [] && j < |b| && b[j] == a[0]
    ensures multiset(a[1..]) == multiset(b[..j] + b[j + 1..])
  {
    WithoutFirst(a);
    WithoutOne(b, j);
  }

  lemma WithoutFirst(a: seq<Segment>)
    requires a != []
    ensures multiset(a[1..]) == multiset(a) - multiset{a[0]}
  {
    assert a == [a[0]] + a[1..];
  }

  lemma RestInOrder(a: seq<Segment>)
    requires InOrder(a) && a != []
    ensures InOrder(a[1..])
  {
  }

  lemma WithoutOne(b: seq<Segment>, j: nat)
    requires j < |b|
    ensures multiset(b[..j] + b[j + 1..]) == multiset(b) - multiset{b[j]}
  {
    assert b == b[..j] + [b[j]] + b[j + 1..];
  }

  lemma StillInOrder(b: seq<Segment>, j: nat)
    requires InOrder(b) && j < |b|
    ensures InOrder(b[..j] + b[j + 1..])
  {
    var rest := b[..j] + b[j + 1..];
    forall i, k | 0 <= i < k < |rest|
      ensures rest[i].number <= rest[k].number
    {
      assert rest[i] == b[if i < j then i else i + 1] && rest[k] == b[if k < j then k else k + 1];
    }
  }

  lemma SameNumbers(a: seq<Segment>, b: seq<Segment>, j: nat)
    requires |a| == |b| && j < |b| && InOrder(b) && b[j].number == b[0].number == a[0].number
    requires forall i :: 0 <= i < |a| - 1 ==> a[1..][i].number == (b[..j] + b[j + 1..])[i].number
    ensures forall i :: 0 <= i < |a| ==> a[i].number == b[i].number
  {
    forall i | 0 < i < |a|
      ensures a[i].number == b[i].number
    {
      assert a[1..][i - 1] == a[i];
      assert (b[..j] + b[j + 1..])[i - 1] == if i - 1 < j then b[i - 1] else b[i];
      assert i <= j ==> b[0].number <= b[i - 1].number <= b[i].number <= b[j].number;
    }
  }

  /** The files can be numbered: some order of them has the numbers from 1 on. */
  ghost predicate Complete(files: seq<seq<byte>>) {
    exists s: seq<Segment> :: multiset(s) == multiset(SegmentsOf(files)) && Numbered(s)
  }

  /** All headers are right, and the files are numbered from 1 on without gaps. */
  ghost predicate InSequence(files: seq<seq<byte>>) {
    (forall i :: 0 <= i < |files| ==> HeaderError(files[i]) == OK) && Complete(files)
  }

  /** The same files, in the order of their numbers. */
  ghost predicate IsOrdering(files: seq<seq<byte>>, ordered: seq<seq<byte>>) {
    && |ordered| == |files|
    && (forall i :: 0 <= i < |files| ==> ordered[i] in files && Number(ordered[i]) == i + 1)
    && (forall f :: f in files ==> f in ordered)
  }

  /**
   * The part of AewfOpen that reads the headers, sorts the segments and checks their numbers. It succeeds exactly if all
   * headers are right and the files are numbered from 1 on without gaps.
   */
  method OrderSegments(files: seq<seq<byte>>) returns (rc: OpenError, ordered: seq<seq<byte>>)
    ensures rc == OK <==> InSequence(files)
    ensures rc in {OK, FILE_READ_FAILED, BAD_FILE_SIGNATURE, DUPLICATE_SEGMENT_NUMBER, MISSING_SEGMENT_NUMBER}
    ensures rc in {FILE_READ_FAILED, BAD_FILE_SIGNATURE} ==>
      exists i :: 0 <= i < |files| && rc == HeaderError(files[i]) && forall j :: 0 <= j < i ==> HeaderError(files[j]) == OK
    ensures rc == OK ==> IsOrdering(files, ordered)
  {
    ordered := [];
    for i := 0 to |files|
      invariant forall j :: 0 <= j < i ==> HeaderError(files[j]) == OK
    {
      if |files[i]| < FILE_HEADER {
        return FILE_READ_FAILED, ordered;
      }
      if files[i][..8] != AEWF_SIGNATURE {
        return BAD_FILE_SIGNATURE, ordered;
      }
    }
    var segments := SegmentsOf(files);
    var sorted := Qsort(segments);
    SameSegments(segments, sorted);
    rc := CheckNumbers(sorted);
    Completeness(files, sorted);
    if rc == OK {
      ordered := seq(|sorted|, i requires 0 <= i < |sorted| => sorted[i].file);
      Ordered(files, sorted, ordered);
    }
  }

  /** The loop over the sorted segments. */
  method CheckNumbers(sorted: seq<Segment>) returns (rc: OpenError)
    requires InOrder(sorted)
    ensures rc in {OK, DUPLICATE_SEGMENT_NUMBER, MISSING_SEGMENT_NUMBER}
    ensures rc == OK <==> Numbered(sorted)
    ensures rc == DUPLICATE_SEGMENT_NUMBER ==> exists i, j :: 0 <= i < j < |sorted| && sorted[i].number == sorted[j].number
  {
    for i := 0 to |sorted|
      invariant forall j :: 0 <= j < i ==> sorted[j].number == j + 1
    {
      if i > 0 && sorted[i].number == sorted[i - 1].number {
        return DUPLICATE_SEGMENT_NUMBER;
      }
      if sorted[i].number != i + 1 {
        return MISSING_SEGMENT_NUMBER;
      }
    }
    rc := OK;
  }

  lemma SameSegments(a: seq<Segment>, b: seq<Segment>)
    requires multiset(a) == multiset(b)
    ensures |a| == |b|
    ensures forall i :: 0 <= i < |a| ==> a[i] in b
    ensures forall i :: 0 <= i < |b| ==> b[i] in a
  {
    assert |multiset(a)| == |a| && |multiset(b)| == |b|;
    forall i | 0 <= i < |a| ensures a[i] in b {
      assert a[i] in multiset(b);
    }
    forall i | 0 <= i < |b| ensures b[i] in a {
      assert b[i] in multiset(a);
    }
  }

  lemma Completeness(files: seq<seq<byte>>, sorted: seq<Segment>)
    requires InOrder(sorted) && multiset(sorted) == multiset(SegmentsOf(files))
    ensures Numbered(sorted) <==> Complete(files)
  {
    if Complete(files) {
      var s: seq<Segment> :| multiset(s) == multiset(SegmentsOf(files)) && Numbered(s);
      OrderUnique(s, sorted);
    }
  }

  lemma Ordered(files: seq<seq<byte>>, sorted: seq<Segment>, ordered: seq<seq<byte>>)
    requires Numbered(sorted) && |sorted| == |files| == |ordered|
    requires forall i :: 0 <= i < |sorted| ==> ordered[i] == sorted[i].file && sorted[i] in SegmentsOf(files)
    requires forall i :: 0 <= i < |files| ==> SegmentsOf(files)[i] in sorted
    ensures IsOrdering(files, ordered)
  {
    forall f | f in files
      ensures f in ordered
    {
      var i: nat :| i < |files| && files[i] == f;
      assert SegmentsOf(files)[i] in sorted;
      var j: nat :| j < |sorted| && sorted[j] == SegmentsOf(files)[i];
      assert ordered[j] == f;
    }
  }
}
