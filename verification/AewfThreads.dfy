/** The worker threads of the AEWF reader, one round of jobs, and what holds however the workers are scheduled. */
module AewfThreads {
  import opened Bytes
  import opened AewfFormat

  /** The function a thread was created with. */
  datatype Work = Uncompress | Crc | Copy

  /** How far that function has come: before its check, before its memcpy, or done. */
  datatype Pc = Start | CopyOut | Finished

  /** t_AewfThread */
  datatype Thread = Thread(
    launched: bool, work: Work, pc: Pc,
    compressed: seq<byte>, uncompressed: seq<byte>, uncompressedLen: nat, chunkInBuff: Option<nat>,
    buf: nat, ofs: nat, len: nat,
    returnCode: ErrorCode)

  // ----- chunks of an image -----

  function ChunkStart(size: nat, chunkSize: nat, c: nat): nat {
    Min(c * chunkSize, size)
  }

  /** The bytes of chunk c; the last chunk may be short. */
  function Chunk(image: seq<byte>, chunkSize: nat, c: nat): (s: seq<byte>)
    ensures |s| <= chunkSize
  {
    NextStart(|image|, chunkSize, c);
    image[ChunkStart(|image|, chunkSize, c)..ChunkStart(|image|, chunkSize, c + 1)]
  }

  lemma NextStart(size: nat, chunkSize: nat, c: nat)
    ensures (c + 1) * chunkSize == c * chunkSize + chunkSize
    ensures ChunkStart(size, chunkSize, c) <= ChunkStart(size, chunkSize, c + 1) <= ChunkStart(size, chunkSize, c) + chunkSize
  {
  }

  // ----- one round of jobs -----

  /**
   * A request for the image bytes seek..limit, to be stored in a buffer from position base on. The chunks in `bad`
   * cannot be read.
   */
  datatype Round = Round(image: seq<byte>, chunkSize: nat, base: nat, seek: nat, limit: nat, bad: iset<nat>)

  /** The image positions that belong to the job for chunk c. */
  function From(r: Round, c: nat): nat {
    if r.seek < c * r.chunkSize then c * r.chunkSize else r.seek
  }

  function To(r: Round, c: nat): nat {
    Min((c + 1) * r.chunkSize, r.limit)
  }

  ghost predicate RoundOk(r: Round) {
    r.chunkSize > 0 && r.seek <= r.limit <= |r.image|
  }

  /** A job that belongs to this round: chunk c has bytes in the requested range. */
  ghost predicate InRound(r: Round, c: nat) {
    c * r.chunkSize < r.limit && r.seek < (c + 1) * r.chunkSize && From(r, c) < To(r, c)
  }

  /** The thread's uncompressed buffer holds chunk c. */
  ghost predicate HasChunk(image: seq<byte>, chunkSize: nat, th: Thread, c: nat) {
    var chunk := Chunk(image, chunkSize, c);
    th.uncompressedLen == |chunk| && |chunk| <= |th.uncompressed| && th.uncompressed[..|chunk|] == chunk
  }

  /** The thread's uncompressed buffer has its full size. */
  predicate Full(chunkSize: nat, th: Thread) {
    |th.uncompressed| == chunkSize + EXTRA
  }

  /** The buffer has received the bytes of chunk c that were asked for. */
  ghost predicate Delivered(r: Round, p: seq<byte>, c: nat)
  {
    && From(r, c) <= To(r, c) <= |r.image| && r.seek <= From(r, c)
    && r.base + To(r, c) - r.seek <= |p|
    && p[r.base + From(r, c) - r.seek..r.base + To(r, c) - r.seek] == r.image[From(r, c)..To(r, c)]
  }

  /** The arguments of the job given to the thread. */
  ghost predicate JobArgs(r: Round, th: Thread) {
    && th.chunkInBuff.Some?
    && var c := th.chunkInBuff.value;
       && InRound(r, c)
       && Full(r.chunkSize, th)
       && th.uncompressedLen == |Chunk(r.image, r.chunkSize, c)|
       && th.ofs == From(r, c) - c * r.chunkSize && th.len == To(r, c) - From(r, c) && th.buf == r.base + From(r, c) - r.seek
  }

  /** A job for a chunk that can be read: its data as far as it has come. */
  ghost predicate GoodJob(r: Round, codec: Codec, th: Thread, p: seq<byte>)
    requires th.chunkInBuff.Some?
  {
    var c := th.chunkInBuff.value;
    var chunk := Chunk(r.image, r.chunkSize, c);
    && (th.pc == Start && th.work == Uncompress ==> codec.uncompress(th.compressed) == Some(chunk))
    && (th.pc == Start && th.work == Crc ==> CrcOk(codec, th.uncompressed, |chunk|) && th.uncompressed[..|chunk|] == chunk)
    && (th.pc != Start || th.work == Copy ==> HasChunk(r.image, r.chunkSize, th, c))
    && (th.pc != Start ==> th.returnCode == AEWF_OK)
    && (th.pc == Finished ==> Delivered(r, p, c))
  }

  /** A job for a chunk that cannot be read: it is going to fail, or has failed. */
  ghost predicate FailingJob(codec: Codec, th: Thread) {
    && th.work != Copy
    && (th.pc == Start && th.work == Uncompress ==>
         WorkerInflateError(codec, th.compressed, th.uncompressedLen, |th.uncompressed|) != AEWF_OK)
    && (th.pc == Start && th.work == Crc ==> !CrcOk(codec, th.uncompressed, th.uncompressedLen))
    && (th.pc != Start ==> th.returnCode != AEWF_OK)
  }

  ghost predicate JobOk(r: Round, codec: Codec, th: Thread, p: seq<byte>) {
    && JobArgs(r, th)
    && if th.chunkInBuff.value in r.bad then FailingJob(codec, th) else GoodJob(r, codec, th, p)
  }

  /**
   * An idle thread's buffer holds the chunk it is marked with, if that chunk can be read; if not, the thread got the mark in
   * this round.
   */
  ghost predicate CacheOk(r: Round, th: Thread) {
    && Full(r.chunkSize, th)
    && (th.chunkInBuff.Some? ==>
         var c := th.chunkInBuff.value;
         && c * r.chunkSize < |r.image| && th.uncompressedLen == |Chunk(r.image, r.chunkSize, c)|
         && if c in r.bad then InRound(r, c) else HasChunk(r.image, r.chunkSize, th, c))
  }

  ghost predicate ThreadOk(r: Round, codec: Codec, th: Thread, p: seq<byte>) {
    if th.launched then JobOk(r, codec, th, p) else CacheOk(r, th)
  }

  /** No two buffers are marked with the same chunk. */
  ghost predicate Distinct(threads: seq<Thread>) {
    forall i, j :: 0 <= i < |threads| && 0 <= j < |threads| && i != j && threads[i].chunkInBuff.Some? ==>
      threads[i].chunkInBuff != threads[j].chunkInBuff
  }

  /** Bytes of the buffer outside the requested stretch are as they were. */
  ghost predicate Untouched(r: Round, before: seq<byte>, p: seq<byte>) {
    && |p| == |before| && r.base + r.limit - r.seek <= |p|
    && forall k :: 0 <= k < |p| && !(r.base <= k < r.base + r.limit - r.seek) ==> p[k] == before[k]
  }

  /**
   * What holds at every moment of a round in which the chunks first..next have been handed out. Once a job of the round
   * has failed, nothing is promised of the bytes that are not yet delivered.
   */
  ghost predicate Running(r: Round, codec: Codec, threads: seq<Thread>, before: seq<byte>, p: seq<byte>, first: nat, next: nat, failed: bool) {
    && RoundOk(r)
    && (forall i :: 0 <= i < |threads| ==> ThreadOk(r, codec, threads[i], p))
    && (forall i :: 0 <= i < |threads| && threads[i].launched ==>
         threads[i].chunkInBuff.Some? && first <= threads[i].chunkInBuff.value < next)
    && Distinct(threads)
    && Untouched(r, before, p)
    && (failed || (forall c: nat :: first <= c < next ==> Served(r, p, c) || HandedOut(threads, c)))
    && (failed || MarksGood(r, threads))
  }

  ghost predicate Served(r: Round, p: seq<byte>, c: nat) {
    c !in r.bad && Delivered(r, p, c)
  }

  /** Idle threads hold chunks that can be read. */
  ghost predicate MarksGood(r: Round, threads: seq<Thread>) {
    forall i :: 0 <= i < |threads| && !threads[i].launched && threads[i].chunkInBuff.Some? ==> threads[i].chunkInBuff.value !in r.bad
  }

  ghost predicate HandedOut(threads: seq<Thread>, c: nat) {
    exists i :: 0 <= i < |threads| && threads[i].launched && threads[i].chunkInBuff == Some(c)
  }

  // ----- the steps of a worker -----

  /** What a thread has become after its next step, and the caller's buffer with it. */
  function Step(codec: Codec, th: Thread, p: seq<byte>): (s: (Thread, seq<byte>))
    requires StepDefinedNow(th, p)
  {
    match th.pc
    case Start =>
      (match th.work
       case Uncompress =>
         (match codec.uncompress(th.compressed)
          case None => (th.(pc := Finished, returnCode := AEWF_UNCOMPRESS_FAILED), p)
          case Some(data) =>
            if |data| > |th.uncompressed| then (th.(pc := Finished, returnCode := AEWF_UNCOMPRESS_FAILED), p)
            else
              var filled := th.(uncompressed := data + th.uncompressed[|data|..]);
              if |data| != th.uncompressedLen
              then (filled.(pc := Finished, returnCode := AEWF_BAD_UNCOMPRESSED_LENGTH), p)
              else (filled.(pc := CopyOut, returnCode := AEWF_OK), p))
       case Crc =>
         (th.(pc := CopyOut, returnCode := if CrcOk(codec, th.uncompressed, th.uncompressedLen) then AEWF_OK else AEWF_CHUNK_CRC_ERROR), p)
       case Copy => (th.(pc := CopyOut, returnCode := AEWF_OK), p))
    case CopyOut => (th.(pc := Finished), Splice(p, th.buf, th.uncompressed[th.ofs..th.ofs + th.len]))
    case Finished => (th, p)
  }

  /** Jobs for different chunks have different places in the buffer. */
  lemma Apart(r: Round, c: nat, d: nat)
    requires c < d && InRound(r, c) && InRound(r, d)
    ensures To(r, c) <= From(r, d)
  {
    MulMono(c + 1, d, r.chunkSize);
  }

  /** A job in the round stays inside its chunk and inside the requested stretch. */
  lemma JobRange(r: Round, c: nat)
    requires RoundOk(r) && InRound(r, c)
    ensures r.seek <= From(r, c) < To(r, c) <= r.limit
    ensures ChunkStart(|r.image|, r.chunkSize, c) == c * r.chunkSize <= From(r, c)
    ensures From(r, c) - c * r.chunkSize + (To(r, c) - From(r, c)) <= |Chunk(r.image, r.chunkSize, c)|
    ensures Chunk(r.image, r.chunkSize, c)[From(r, c) - c * r.chunkSize..To(r, c) - c * r.chunkSize] == r.image[From(r, c)..To(r, c)]
  {
    NextStart(|r.image|, r.chunkSize, c);
    var base := c * r.chunkSize;
    SubSlice(r.image, base, ChunkStart(|r.image|, r.chunkSize, c + 1), From(r, c) - base, To(r, c) - base);
  }

  /** A thread with an unfinished job can take a step. */
  predicate CanStep(th: Thread) {
    th.launched && th.pc != Finished
  }

  /** A step that copies stays inside the thread's buffer and the caller's. */
  predicate StepDefinedNow(th: Thread, p: seq<byte>) {
    && (th.pc == Start || (th.ofs + th.len <= |th.uncompressed| && th.buf + th.len <= |p|))
    && (th.pc == Start && th.work == Crc ==> th.uncompressedLen + 4 <= |th.uncompressed|)
  }

  lemma StepDefined(r: Round, codec: Codec, th: Thread, p: seq<byte>)
    requires RoundOk(r) && JobOk(r, codec, th, p) && r.base + r.limit - r.seek <= |p|
    ensures StepDefinedNow(th, p)
  {
    JobRange(r, th.chunkInBuff.value);
  }

  /** What a thread copies for a chunk that can be read. */
  lemma StepCopies(r: Round, codec: Codec, th: Thread, p: seq<byte>)
    requires RoundOk(r) && JobOk(r, codec, th, p) && th.pc == CopyOut && th.chunkInBuff.value !in r.bad
    ensures th.ofs + th.len <= |th.uncompressed|
    ensures th.uncompressed[th.ofs..th.ofs + th.len] == r.image[From(r, th.chunkInBuff.value)..To(r, th.chunkInBuff.value)]
  {
    JobRange(r, th.chunkInBuff.value);
    SubSlice(th.uncompressed, 0, |Chunk(r.image, r.chunkSize, th.chunkInBuff.value)|, th.ofs, th.ofs + th.len);
  }

  /** A copy of chunk c's bytes delivers them. */
  lemma CopyDelivers(r: Round, p: seq<byte>, c: nat)
    requires RoundOk(r) && InRound(r, c) && r.base + r.limit - r.seek <= |p|
    ensures From(r, c) <= To(r, c) <= r.limit && r.seek <= From(r, c)
    ensures Delivered(r, Splice(p, r.base + From(r, c) - r.seek, r.image[From(r, c)..To(r, c)]), c)
  {
    hide Splice, From, To, InRound, Chunk, ChunkStart;
    JobRange(r, c);
    SpliceHere(p, r.base + From(r, c) - r.seek, r.image[From(r, c)..To(r, c)]);
  }

  /** Whatever is copied to the place of chunk c, the bytes of chunk d stay delivered. */
  lemma CopyElsewhere(r: Round, p: seq<byte>, c: nat, d: nat, t: seq<byte>)
    requires RoundOk(r) && InRound(r, c) && r.base + r.limit - r.seek <= |p|
    requires d != c && InRound(r, d) && Delivered(r, p, d)
    requires |t| == To(r, c) - From(r, c)
    ensures From(r, c) <= To(r, c) <= r.limit && r.seek <= From(r, c)
    ensures Delivered(r, Splice(p, r.base + From(r, c) - r.seek, t), d)
  {
    hide Splice, From, To, InRound, Chunk, ChunkStart;
    JobRange(r, c);
    JobRange(r, d);
    if d < c {
      Apart(r, d, c);
    } else {
      Apart(r, c, d);
    }
    SpliceElsewhere(p, r.base + From(r, c) - r.seek, t, r.base + From(r, d) - r.seek, r.base + To(r, d) - r.seek);
  }

  /** A step brings its own job forward, be it to success or to failure. */
  lemma StepOwn(r: Round, codec: Codec, th: Thread, p: seq<byte>)
    requires RoundOk(r) && JobOk(r, codec, th, p) && CanStep(th) && r.base + r.limit - r.seek <= |p|
    ensures StepDefinedNow(th, p)
    ensures var (th', p') := Step(codec, th, p);
      JobOk(r, codec, th', p') && th'.launched && th'.chunkInBuff == th.chunkInBuff && th'.len == th.len
  {
    StepDefined(r, codec, th, p);
    if th.chunkInBuff.value in r.bad {
      StepFails(r, codec, th, p);
    } else {
      StepSucceeds(r, codec, th, p);
    }
  }

  lemma StepFails(r: Round, codec: Codec, th: Thread, p: seq<byte>)
    requires JobArgs(r, th) && FailingJob(codec, th) && CanStep(th) && StepDefinedNow(th, p)
    ensures var th' := Step(codec, th, p).0;
      JobArgs(r, th') && FailingJob(codec, th') && th'.launched && th'.chunkInBuff == th.chunkInBuff && th'.len == th.len
  {
    hide InRound, From, To, Chunk, CrcOk, Splice;
  }

  lemma StepSucceeds(r: Round, codec: Codec, th: Thread, p: seq<byte>)
    requires RoundOk(r) && JobArgs(r, th) && GoodJob(r, codec, th, p) && th.chunkInBuff.value !in r.bad
    requires CanStep(th) && StepDefinedNow(th, p) && r.base + r.limit - r.seek <= |p|
    ensures var (th', p') := Step(codec, th, p);
      JobArgs(r, th') && GoodJob(r, codec, th', p') && th'.launched && th'.chunkInBuff == th.chunkInBuff && th'.len == th.len
  {
    hide InRound, From, To, CrcOk, Splice, Delivered;
    var c := th.chunkInBuff.value;
    var chunk := Chunk(r.image, r.chunkSize, c);
    if th.pc == CopyOut {
      StepCopies(r, codec, th, p);
      CopyDelivers(r, p, c);
    } else if th.pc == Start && th.work == Uncompress {
      assert (chunk + th.uncompressed[|chunk|..])[..|chunk|] == chunk;
    }
  }

  /** It leaves bytes delivered by other jobs alone. */
  lemma StepOthers(r: Round, codec: Codec, th: Thread, p: seq<byte>, d: nat)
    requires RoundOk(r) && JobOk(r, codec, th, p) && CanStep(th) && r.base + r.limit - r.seek <= |p|
    requires StepDefinedNow(th, p)
    requires InRound(r, d) && Delivered(r, p, d) && d !in r.bad
    ensures Delivered(r, Step(codec, th, p).1, d)
  {
    hide HasChunk, Chunk, Delivered, InRound, From, To, Splice, CrcOk;
    if th.pc == CopyOut {
      var c := th.chunkInBuff.value;
      if c == d {
        StepCopies(r, codec, th, p);
        CopyDelivers(r, p, c);
      } else {
        CopyElsewhere(r, p, c, d, th.uncompressed[th.ofs..th.ofs + th.len]);
      }
    }
  }

  lemma StepUntouched(r: Round, codec: Codec, th: Thread, before: seq<byte>, p: seq<byte>)
    requires RoundOk(r) && JobOk(r, codec, th, p) && CanStep(th) && Untouched(r, before, p)
    requires StepDefinedNow(th, p)
    ensures Untouched(r, before, Step(codec, th, p).1)
  {
    hide CrcOk, Chunk, HasChunk;
    JobRange(r, th.chunkInBuff.value);
  }

  /** Whichever thread runs next, and however far the others are, the round stays in order. */
  lemma StepRunning(r: Round, codec: Codec, threads: seq<Thread>, before: seq<byte>, p: seq<byte>, first: nat, next: nat, failed: bool, i: nat)
    requires Running(r, codec, threads, before, p, first, next, failed)
    requires forall c: nat :: first <= c < next ==> InRound(r, c)
    requires i < |threads| && CanStep(threads[i])
    ensures StepDefinedNow(threads[i], p)
    ensures var (th, p') := Step(codec, threads[i], p);
      Running(r, codec, threads[i := th], before, p', first, next, failed)
  {
    hide Delivered, InRound, HasChunk, CacheOk, JobArgs, GoodJob, FailingJob, Step;
    StepOwn(r, codec, threads[i], p);
    StepUntouched(r, codec, threads[i], before, p);
    var (th, p') := Step(codec, threads[i], p);
    var threads' := threads[i := th];
    forall j | 0 <= j < |threads'|
      ensures ThreadOk(r, codec, threads'[j], p')
    {
      if j != i {
        OtherThread(r, codec, threads[i], p, threads[j]);
      }
    }
    forall c: nat | first <= c < next && !failed
      ensures Served(r, p', c) || HandedOut(threads', c)
    {
      if Served(r, p, c) {
        StepOthers(r, codec, threads[i], p, c);
      } else {
        StillHandedOut(threads, i, th, c);
      }
    }
  }

  lemma OtherThread(r: Round, codec: Codec, th: Thread, p: seq<byte>, other: Thread)
    requires RoundOk(r) && JobOk(r, codec, th, p) && CanStep(th) && r.base + r.limit - r.seek <= |p|
    requires StepDefinedNow(th, p) && ThreadOk(r, codec, other, p)
    ensures ThreadOk(r, codec, other, Step(codec, th, p).1)
  {
    hide Delivered, InRound, HasChunk, CacheOk, CrcOk, Step, Chunk, From, To;
    if other.launched && other.pc == Finished && other.chunkInBuff.value !in r.bad {
      StepOthers(r, codec, th, p, other.chunkInBuff.value);
    }
  }

  lemma StillHandedOut(threads: seq<Thread>, i: nat, th: Thread, c: nat)
    requires i < |threads| && HandedOut(threads, c)
    requires th.launched == threads[i].launched && th.chunkInBuff == threads[i].chunkInBuff
    ensures HandedOut(threads[i := th], c)
  {
    var j :| 0 <= j < |threads| && threads[j].launched && threads[j].chunkInBuff == Some(c);
    assert threads[i := th][j].launched && threads[i := th][j].chunkInBuff == Some(c);
  }

  // ----- launching and joining -----

  /** Handing out the next chunk to an idle thread, be it the one that has the chunk or one that gives up another. */
  lemma Launch(r: Round, codec: Codec, threads: seq<Thread>, before: seq<byte>, p: seq<byte>, first: nat, next: nat, i: nat, th: Thread)
    requires Running(r, codec, threads, before, p, first, next, false)
    requires i < |threads| && !threads[i].launched && first <= next
    requires th.launched && th.chunkInBuff == Some(next) && JobOk(r, codec, th, p)
    requires forall j :: 0 <= j < |threads| && j != i ==> threads[j].chunkInBuff != Some(next)
    ensures Running(r, codec, threads[i := th], before, p, first, next + 1, false)
  {
    hide JobOk, CacheOk, Delivered, Untouched, RoundOk;
    var threads' := threads[i := th];
    forall c: nat | first <= c < next + 1
      ensures Served(r, p, c) || HandedOut(threads', c)
    {
      if c == next {
        assert threads'[i].launched && threads'[i].chunkInBuff == Some(c);
      } else if !Served(r, p, c) {
        var j :| 0 <= j < |threads| && threads[j].launched && threads[j].chunkInBuff == Some(c);
        assert threads'[j].launched && threads'[j].chunkInBuff == Some(c);
      }
    }
  }

  /** An idle thread was given a chunk's mark, but could not read the chunk from its file. */
  lemma LaunchFails(r: Round, codec: Codec, threads: seq<Thread>, before: seq<byte>, p: seq<byte>, first: nat, next: nat, i: nat, th: Thread)
    requires Running(r, codec, threads, before, p, first, next, false)
    requires i < |threads| && !threads[i].launched && !th.launched
    requires th.chunkInBuff == Some(next) && next in r.bad && CacheOk(r, th)
    requires forall j :: 0 <= j < |threads| && j != i ==> threads[j].chunkInBuff != Some(next)
    ensures Running(r, codec, threads[i := th], before, p, first, next, true)
  {
    hide JobOk, Delivered, Untouched, RoundOk, CacheOk;
  }

  lemma JoinedThread(r: Round, codec: Codec, th: Thread, p: seq<byte>)
    requires RoundOk(r) && JobOk(r, codec, th, p) && th.pc == Finished
    ensures CacheOk(r, th.(launched := false))
  {
    hide From, To, Delivered, CrcOk, Chunk;
  }

  /** A thread whose function has returned goes back to being idle. It has returned AEWF_OK exactly if its chunk can be read. */
  lemma Join(r: Round, codec: Codec, threads: seq<Thread>, before: seq<byte>, p: seq<byte>, first: nat, next: nat, failed: bool, i: nat)
    requires Running(r, codec, threads, before, p, first, next, failed)
    requires i < |threads| && threads[i].launched && threads[i].pc == Finished
    ensures threads[i].chunkInBuff.Some? && first <= threads[i].chunkInBuff.value < next
    ensures threads[i].returnCode == AEWF_OK <==> threads[i].chunkInBuff.value !in r.bad
    ensures Running(r, codec, threads[i := threads[i].(launched := false)], before, p, first, next, failed || threads[i].returnCode != AEWF_OK)
  {
    hide Delivered, Untouched, RoundOk, Chunk, InRound, From, To, CrcOk, CacheOk;
    assert JobOk(r, codec, threads[i], p);
    JoinedThread(r, codec, threads[i], p);
    var threads' := threads[i := threads[i].(launched := false)];
    forall c: nat | first <= c < next && !failed && threads[i].returnCode == AEWF_OK
      ensures Served(r, p, c) || HandedOut(threads', c)
    {
      if !Served(r, p, c) {
        var j :| 0 <= j < |threads| && threads[j].launched && threads[j].chunkInBuff == Some(c);
        assert j != i;
        assert threads'[j].launched && threads'[j].chunkInBuff == Some(c);
      }
    }
  }

  /** What a thread has become when its function has returned. */
  function Completed(codec: Codec, th: Thread, p: seq<byte>): (s: (Thread, seq<byte>))
    requires StepDefinedNow(th, p) && th.ofs + th.len <= |th.uncompressed| && th.buf + th.len <= |p|
  {
    var (half, p1) := Step(codec, th, p);
    if half.pc == CopyOut then Step(codec, half, p1) else (half, p1)
  }

  /** A job that fails, for whatever reason, returns an error and leaves the thread marked with its chunk. */
  lemma FailedJobStaysMarked(codec: Codec, th: Thread, p: seq<byte>)
    requires FailingJob(codec, th) && StepDefinedNow(th, p) && th.ofs + th.len <= |th.uncompressed| && th.buf + th.len <= |p|
    ensures var done := Completed(codec, th, p).0;
      done.pc == Finished && done.returnCode != AEWF_OK && done.chunkInBuff == th.chunkInBuff
  {
    hide CrcOk, Splice;
  }

  /** Some thread is marked with a chunk that cannot be read. */
  ghost predicate BadMark(r: Round, threads: seq<Thread>) {
    exists i :: 0 <= i < |threads| && threads[i].chunkInBuff.Some? && threads[i].chunkInBuff.value in r.bad
  }

  lemma SameMarks(r: Round, threads: seq<Thread>, threads': seq<Thread>)
    requires |threads'| == |threads| && forall i :: 0 <= i < |threads| ==> threads'[i].chunkInBuff == threads[i].chunkInBuff
    ensures BadMark(r, threads') == BadMark(r, threads)
  {
    if BadMark(r, threads) {
      var i :| 0 <= i < |threads| && threads[i].chunkInBuff.Some? && threads[i].chunkInBuff.value in r.bad;
      assert threads'[i].chunkInBuff.Some? && threads'[i].chunkInBuff.value in r.bad;
    }
    if BadMark(r, threads') {
      var i :| 0 <= i < |threads'| && threads'[i].chunkInBuff.Some? && threads'[i].chunkInBuff.value in r.bad;
      assert threads[i].chunkInBuff.Some? && threads[i].chunkInBuff.value in r.bad;
    }
  }

  function LaunchedCount(threads: seq<Thread>, n: nat): nat
    requires n <= |threads|
  {
    if n == 0 then 0 else LaunchedCount(threads, n - 1) + if threads[n - 1].launched then 1 else 0
  }

  /** The bytes that the jobs of the first n threads deliver. */
  function LaunchedLen(threads: seq<Thread>, n: nat): nat
    requires n <= |threads|
  {
    if n == 0 then 0 else LaunchedLen(threads, n - 1) + if threads[n - 1].launched then threads[n - 1].len else 0
  }

  lemma {:induction false} LaunchedUpdate(threads: seq<Thread>, i: nat, th: Thread, n: nat)
    requires i < |threads| && n <= |threads| && (th.launched ==> threads[i].launched ==> th.len == threads[i].len)
    ensures var was := if i < n && threads[i].launched then 1 else 0;
      var now := if i < n && th.launched then 1 else 0;
      && LaunchedCount(threads[i := th], n) == LaunchedCount(threads, n) - was + now
      && LaunchedLen(threads[i := th], n) == LaunchedLen(threads, n) - was * threads[i].len + now * th.len
  {
    if n > 0 {
      LaunchedUpdate(threads, i, th, n - 1);
    }
  }

  lemma {:induction false} AllLaunched(threads: seq<Thread>, n: nat)
    requires n <= |threads| && forall i :: 0 <= i < n ==> threads[i].launched
    ensures LaunchedCount(threads, n) == n
  {
    if n > 0 {
      AllLaunched(threads, n - 1);
    }
  }

  lemma {:induction false} NoneLaunched(threads: seq<Thread>, n: nat)
    requires n <= |threads| && forall i :: 0 <= i < n ==> !threads[i].launched
    ensures LaunchedCount(threads, n) == 0 && LaunchedLen(threads, n) == 0
  {
    if n > 0 {
      NoneLaunched(threads, n - 1);
    }
  }

  /** The first n bytes of the request are in the buffer. */
  ghost predicate HasFirst(r: Round, p: seq<byte>, n: nat) {
    && r.seek + n <= |r.image| && r.base + n <= |p|
    && p[r.base..r.base + n] == r.image[r.seek..r.seek + n]
  }

  /** When all jobs handed out are delivered, the buffer holds one stretch of the image, from the start of the request. */
  lemma {:induction false} AllDelivered(r: Round, p: seq<byte>, first: nat, next: nat)
    requires RoundOk(r) && r.base + r.limit - r.seek <= |p|
    requires first * r.chunkSize <= r.seek && first <= next
    requires forall c: nat :: first <= c < next ==> InRound(r, c) && Delivered(r, p, c)
    ensures HasFirst(r, p, Covered(r, first, next))
    decreases next
  {
    hide From, To, Covered, InRound, Delivered, HasFirst;
    if first < next {
      AllDelivered(r, p, first, next - 1);
      CoveredMore(r, first, next - 1);
      NextDelivered(r, p, next - 1, Covered(r, first, next - 1));
    } else {
      CoveredNothing(r, first);
      NoneDelivered(r, p);
    }
  }

  lemma NextDelivered(r: Round, p: seq<byte>, c: nat, n: nat)
    requires HasFirst(r, p, n) && Delivered(r, p, c) && From(r, c) == r.seek + n
    ensures HasFirst(r, p, n + (To(r, c) - From(r, c)))
  {
    hide From, To;
    MoreDelivered(p, r.base, r.image, r.seek, n, To(r, c) - From(r, c));
  }

  lemma NoneDelivered(r: Round, p: seq<byte>)
    requires RoundOk(r) && r.base + r.limit - r.seek <= |p|
    ensures HasFirst(r, p, 0)
  {
  }

  lemma MoreDelivered(p: seq<byte>, base: nat, image: seq<byte>, seek: nat, n: nat, more: nat)
    requires base + n + more <= |p| && seek + n + more <= |image|
    requires p[base..base + n] == image[seek..seek + n]
    requires p[base + n..base + n + more] == image[seek + n..seek + n + more]
    ensures p[base..base + n + more] == image[seek..seek + n + more]
  {
    assert p[base..base + n + more] == p[base..base + n] + p[base + n..base + n + more];
    assert image[seek..seek + n + more] == image[seek..seek + n] + image[seek + n..seek + n + more];
  }

  lemma CoveredNothing(r: Round, first: nat)
    requires r.seek <= r.limit
    ensures Covered(r, first, first) == 0
  {
  }

  /** How many bytes the chunks first..next contribute. */
  function Covered(r: Round, first: nat, next: nat): (n: nat)
    requires r.seek <= r.limit
    ensures r.seek + n <= r.limit
  {
    if next <= first then 0 else if next * r.chunkSize <= r.seek then 0 else Min(next * r.chunkSize, r.limit) - r.seek
  }

  lemma CoveredMore(r: Round, first: nat, c: nat)
    requires RoundOk(r) && first <= c && InRound(r, c) && first * r.chunkSize <= r.seek
    ensures From(r, c) == r.seek + Covered(r, first, c)
    ensures Covered(r, first, c + 1) == Covered(r, first, c) + (To(r, c) - From(r, c))
  {
    NextStart(|r.image|, r.chunkSize, c);
    MulMono(first, c, r.chunkSize);
    if first < c {
      MulMono(first + 1, c, r.chunkSize);
    }
  }

  /** No job is given, taken away or restarted. */
  ghost predicate SameJobs(threads: seq<Thread>, threads': seq<Thread>) {
    && |threads'| == |threads|
    && forall i :: 0 <= i < |threads| ==>
      && threads'[i].launched == threads[i].launched
      && threads'[i].chunkInBuff == threads[i].chunkInBuff
      && threads'[i].len == threads[i].len
      && StepsLeft(threads'[i]) <= StepsLeft(threads[i])
  }

  function StepsLeft(th: Thread): nat {
    match th.pc
    case Start => 2
    case CopyOut => 1
    case Finished => 0
  }

  lemma {:induction false} SameCounts(threads: seq<Thread>, threads': seq<Thread>, n: nat)
    requires SameJobs(threads, threads') && n <= |threads|
    ensures LaunchedCount(threads', n) == LaunchedCount(threads, n) && LaunchedLen(threads', n) == LaunchedLen(threads, n)
  {
    if n > 0 {
      SameCounts(threads, threads', n - 1);
    }
  }

  /** The arguments of the job for the chunk that image position pos, byte ofs of chunk c, lies in. */
  lemma JobArguments(r: Round, c: nat, ofs: nat, pos: nat)
    requires RoundOk(r) && c * r.chunkSize + ofs == pos && ofs < r.chunkSize
    requires r.seek <= pos < r.limit && (pos == r.seek || ofs == 0)
    ensures InRound(r, c) && From(r, c) == pos && From(r, c) - c * r.chunkSize == ofs
    ensures To(r, c) == pos + Min(r.chunkSize - ofs, r.limit - pos)
  {
    NextBlock(c, r.chunkSize);
  }

  /** When every one of n threads has a job, the next chunk is the last one of a request for at most n chunks' worth of bytes. */
  lemma OnlyLastIsSkipped(r: Round, first: nat, c: nat, ofs: nat, pos: nat, ofs0: nat, n: nat)
    requires RoundOk(r) && r.limit <= r.seek + n * r.chunkSize
    requires first * r.chunkSize + ofs0 == r.seek && ofs0 < r.chunkSize
    requires c * r.chunkSize + ofs == pos && c == first + n
    ensures r.limit - pos < r.chunkSize - ofs && r.limit - pos <= ofs0 - ofs
  {
    assert c * r.chunkSize == first * r.chunkSize + n * r.chunkSize;
  }
}
