/** A disk that is looked up byte by byte, and what a read of many bytes makes of it. */
module Lookup {
  import opened Bytes

  /** What looking up one byte gives. */
  datatype Cell<E> = Byte(value: byte) | Fails(error: E)

  /** n bytes from a position on can be looked up. */
  ghost predicate Available<E>(disk: nat -> Cell<E>, seek: nat, n: nat) {
    forall p: nat :: seek <= p < seek + n ==> disk(p).Byte?
  }

  ghost function Stretch<E>(disk: nat -> Cell<E>, seek: nat, n: nat): (s: seq<byte>)
    requires Available(disk, seek, n)
    ensures |s| == n && forall i :: 0 <= i < n ==> s[i] == disk(seek + i).value
  {
    seq<byte>(n, i requires 0 <= i < n => disk(seek + i).value)
  }

  /** A read of n bytes that gets k of them and returns rc: it stops at the first byte that fails, with that byte's error. */
  ghost predicate Outcome<E>(disk: nat -> Cell<E>, ok: E, seek: nat, n: nat, k: nat, rc: E) {
    && k <= n && Available(disk, seek, k)
    && (k == n ==> rc == ok)
    && (k < n ==> disk(seek + k) == Fails(rc) && rc != ok)
  }

  lemma OutcomeUnique<E>(disk: nat -> Cell<E>, ok: E, seek: nat, n: nat, k: nat, rc: E, k': nat, rc': E)
    requires Outcome(disk, ok, seek, n, k, rc) && Outcome(disk, ok, seek, n, k', rc')
    ensures k == k' && rc == rc'
  {
  }

  /** The error of the first byte of a stretch that fails. */
  ghost function FirstError<E>(disk: nat -> Cell<E>, ok: E, seek: nat, n: nat): E
    decreases n
  {
    if n == 0 then ok else
    match disk(seek)
    case Fails(error) => error
    case Byte(_) => FirstError(disk, ok, seek + 1, n - 1)
  }

  /** Bytes that can be read do not matter for it. */
  lemma {:induction false} FirstErrorBehind<E>(disk: nat -> Cell<E>, ok: E, seek: nat, k: nat, n: nat)
    requires Available(disk, seek, k)
    ensures FirstError(disk, ok, seek, k + n) == FirstError(disk, ok, seek + k, n)
    decreases k
  {
    if k > 0 {
      FirstErrorBehind(disk, ok, seek + 1, k - 1, n);
    }
  }

  /** An error stays the first one when more bytes follow. */
  lemma {:induction false} FirstErrorOfMore<E>(disk: nat -> Cell<E>, ok: E, seek: nat, n: nat, more: nat)
    requires FirstError(disk, ok, seek, n) != ok
    ensures FirstError(disk, ok, seek, n + more) == FirstError(disk, ok, seek, n)
    decreases n
  {
    if n > 0 && disk(seek).Byte? {
      FirstErrorOfMore(disk, ok, seek + 1, n - 1, more);
    }
  }

  lemma NoError<E>(disk: nat -> Cell<E>, ok: E, seek: nat, n: nat)
    requires Available(disk, seek, n)
    ensures FirstError(disk, ok, seek, n) == ok
  {
    FirstErrorBehind(disk, ok, seek, n, 0);
  }

  /** Where a byte fails, the error is that of a byte no later. */
  lemma {:induction false} FirstErrorBefore<E>(disk: nat -> Cell<E>, ok: E, seek: nat, n: nat, q: nat) returns (p: nat)
    requires seek <= q < seek + n && disk(q).Fails?
    ensures seek <= p <= q && Available(disk, seek, p - seek) && disk(p) == Fails(FirstError(disk, ok, seek, n))
    decreases n
  {
    if disk(seek).Fails? {
      p := seek;
    } else {
      p := FirstErrorBefore(disk, ok, seek + 1, n - 1, q);
    }
  }

  /** A read that starts at a byte that fails gets nothing, and returns that byte's error. */
  lemma FailsAtOnce<E>(disk: nat -> Cell<E>, ok: E, seek: nat, n: nat, k: nat, rc: E)
    requires Outcome(disk, ok, seek, n, k, rc) && n > 0 && disk(seek).Fails?
    ensures k == 0 && disk(seek) == Fails(rc)
  {
  }

  /** Exactly k bytes from seek on have been stored in the buffer, at a position of it. */
  ghost predicate CopiedAt<E>(disk: nat -> Cell<E>, seek: nat, k: nat, before: seq<byte>, at: nat, after: seq<byte>) {
    && Available(disk, seek, k)
    && at + k <= |before|
    && after == Splice(before, at, Stretch(disk, seek, k))
  }

  ghost predicate Copied<E>(disk: nat -> Cell<E>, seek: nat, k: nat, before: seq<byte>, after: seq<byte>) {
    CopiedAt(disk, seek, k, before, 0, after)
  }

  lemma NoBytesAt<E>(disk: nat -> Cell<E>, seek: nat, before: seq<byte>, at: nat)
    requires at <= |before|
    ensures CopiedAt(disk, seek, 0, before, at, before)
  {
  }

  lemma NoBytes<E>(disk: nat -> Cell<E>, seek: nat, before: seq<byte>)
    ensures Copied(disk, seek, 0, before, before)
  {
  }

  lemma CopiedNothing<E>(disk: nat -> Cell<E>, seek: nat, before: seq<byte>, at: nat, after: seq<byte>)
    requires CopiedAt(disk, seek, 0, before, at, after)
    ensures after == before
  {
  }

  lemma CopiedStretch<E>(disk: nat -> Cell<E>, seek: nat, before: seq<byte>, at: nat, t: seq<byte>)
    requires Available(disk, seek, |t|) && Stretch(disk, seek, |t|) == t && at + |t| <= |before|
    ensures CopiedAt(disk, seek, |t|, before, at, Splice(before, at, t))
  {
  }

  lemma AllCopied<E>(disk: nat -> Cell<E>, ok: E, seek: nat, n: nat, before: seq<byte>, after: seq<byte>)
    requires Copied(disk, seek, n, before, after)
    ensures Outcome(disk, ok, seek, n, n, ok)
  {
  }

  lemma AllRead<E>(disk: nat -> Cell<E>, ok: E, seek: nat, n: nat)
    requires Available(disk, seek, n)
    ensures Outcome(disk, ok, seek, n, n, ok)
  {
  }

  lemma OutcomeMore<E>(disk: nat -> Cell<E>, ok: E, seek: nat, n: nat, m: nat, k: nat, rc: E)
    requires Available(disk, seek, n) && Outcome(disk, ok, seek + n, m, k, rc)
    ensures Outcome(disk, ok, seek, n + m, n + k, rc)
    ensures Stretch(disk, seek, n + k) == Stretch(disk, seek, n) + Stretch(disk, seek + n, k)
  {
    forall p: nat | seek <= p < seek + n + k
      ensures disk(p).Byte?
    {
    }
  }

  /** A piece more: the read is complete so far, or ends here with the piece's error. */
  lemma AnotherPiece<E>(disk: nat -> Cell<E>, ok: E, seek: nat, done: nat, n: nat, k: nat, rc: E, rest: nat,
                        before: seq<byte>, was: seq<byte>, after: seq<byte>)
    requires Copied(disk, seek, done, before, was) && Outcome(disk, ok, seek + done, n, k, rc) && done + n <= |before|
    requires CopiedAt(disk, seek + done, k, was, done, after)
    ensures k <= n && (rc == ok ==> k == n) && Copied(disk, seek, done + k, before, after)
    ensures rc != ok ==> Outcome(disk, ok, seek, done + n + rest, done + k, rc)
  {
    hide Splice;
    OutcomeMore(disk, ok, seek, done, n, k, rc);
    SpliceJoin(before, 0, Stretch(disk, seek, done), Stretch(disk, seek + done, k));
  }
}
