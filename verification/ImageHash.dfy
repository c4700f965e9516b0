/** The partial hash xmount identifies an image by. */
module ImageHash {
  import opened Bytes
  import opened Md5
  import opened VirtImage

  const HASH_AMOUNT := 1024 * 1024 * 10

  /** MD5 of the first 10 MiB of the morphed image as two 64-bit numbers; there is none for an empty image. */
  method CalculateInputImageHash(x: Xmount) returns (ok: bool, hashLow: nat, hashHigh: nat)
    ensures ok <==> x.image != []
    ensures ok ==> hashLow < U64 && hashHigh < U64
    ensures ok ==> Le(hashLow, 8) + Le(hashHigh, 8) == MessageDigest(x.image[..Min(10485760, |x.image|)])
  {
    hide MessageDigest, State.Holds, Le, FromLe;
    hashLow, hashHigh := 0, 0;
    var ret, p_buf := x.GetMorphedImageData(0, HASH_AMOUNT);
    if ret != TRUE || |p_buf| == 0 {
      return false, 0, 0;
    }
    var state := new State();
    state.Append(p_buf, |p_buf|, []);
    assert [] + p_buf[..|p_buf|] == p_buf;
    var hash := state.Finish(p_buf);
    ok, hashLow, hashHigh := true, FromLe(hash[..8]), FromLe(hash[8..]);
    Le8OfFromLe(hash[..8]);
    Le8OfFromLe(hash[8..]);
    assert hash == hash[..8] + hash[8..];
  }

  lemma Le8OfFromLe(s: seq<byte>)
    requires |s| == 8
    ensures FromLe(s) < U64 && Le(FromLe(s), 8) == s
  {
    FromLeBound(s);
    Widths();
    LeOfFromLe(s);
  }

  lemma {:induction false} LeOfFromLe(s: seq<byte>)
    ensures Le(FromLe(s), |s|) == s
  {
    if s != [] {
      LeOfFromLe(s[1..]);
      Split256(FromLe(s), FromLe(s[1..]), s[0]);
    }
  }
}
