/** Filling in a zeroed header structure field by field. */
module HeaderBuilder {
  import opened Bytes

  /** The header is built up to position |done|; behind it everything is still zero. */
  ghost predicate BuiltTo(h: seq<byte>, done: seq<byte>) {
    done <= h && forall k :: |done| <= k < |h| ==> h[k] == 0
  }

  lemma Built(h: seq<byte>, done: seq<byte>, field: seq<byte>)
    requires BuiltTo(h, done) && |done| + |field| <= |h|
    ensures BuiltTo(Splice(h, |done|, field), done + field)
  {
  }

  lemma BuiltZeros(h: seq<byte>, done: seq<byte>, n: nat)
    requires BuiltTo(h, done) && |done| + n <= |h|
    ensures BuiltTo(h, done + Zeros(n))
  {
  }

  /** Stores the next field. */
  method Put(hdr: array<byte>, at: nat, field: seq<byte>, ghost done: seq<byte>)
    requires BuiltTo(hdr[..], done) && at == |done| && at + |field| <= hdr.Length
    modifies hdr
    ensures BuiltTo(hdr[..], done + field)
  {
    Built(hdr[..], done, field);
    Memcpy(hdr, at, field);
  }

  lemma StillZero(h: seq<byte>)
    requires forall k :: 0 <= k < |h| ==> h[k] == 0
    ensures BuiltTo(h, [])
  {
  }

  lemma AllBuilt(h: seq<byte>, done: seq<byte>)
    requires BuiltTo(h, done) && |done| == |h|
    ensures h == done
  {
  }
}
