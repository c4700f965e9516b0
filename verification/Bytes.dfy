/** Bytes, little- and big-endian integers, and replacing a stretch of a sequence. */
module Bytes {

  type byte = x: int | 0 <= x < 256

  const U32 := 0x1_0000_0000
  const U64 := 0x1_0000_0000_0000_0000
  const MAX_SEEK := 0x8000_0000_0000_0000    // a larger file offset is negative as a long

  datatype Option<+T> = None | Some(value: T)

  function Min(a: nat, b: nat): nat {
    if a < b then a else b
  }

  /** 256 to the power of n. */
  function Pow256(n: nat): (p: nat)
    ensures p > 0
  {
    if n == 0 then 1 else 256 * Pow256(n - 1)
  }

  /** The pieces one after the other. */
  function Concat<T>(pieces: seq<seq<T>>): seq<T> {
    if pieces == [] then [] else Concat(pieces[..|pieces| - 1]) + pieces[|pieces| - 1]
  }

  /** Quotient and remainder are unique. */
  lemma Split32(x: nat, q: nat, r: nat)
    requires x == U32 * q + r && r < U32
    ensures x / U32 == q && x % U32 == r
  {
  }

  lemma Split64(x: nat, q: nat, r: nat)
    requires x == 64 * q + r && r < 64
    ensures x / 64 == q && x % 64 == r
  {
  }

  lemma Split256(x: nat, q: nat, r: nat)
    requires x == 256 * q + r && r < 256
    ensures x / 256 == q && x % 256 == r
  {
  }

  /** The n low-order bytes of v, least significant first. */
  function Le(v: nat, n: nat): (s: seq<byte>)
    ensures |s| == n
  {
    if n == 0 then [] else [v % 256] + Le(v / 256, n - 1)
  }

  function FromLe(s: seq<byte>): nat {
    if s == [] then 0 else s[0] + 256 * FromLe(s[1..])
  }

  /** The little-endian number stored at a position. */
  function Word32(s: seq<byte>, at: nat): nat
    requires at + 4 <= |s|
  {
    FromLe(s[at..at + 4])
  }

  function Word64(s: seq<byte>, at: nat): nat
    requires at + 8 <= |s|
  {
    FromLe(s[at..at + 8])
  }

  /** The number stored with its most significant byte first. */
  function FromBe(s: seq<byte>): nat {
    if s == [] then 0 else 256 * FromBe(s[..|s| - 1]) + s[|s| - 1]
  }

  /** The n low-order bytes of v, most significant first. */
  function Be(v: nat, n: nat): (s: seq<byte>)
    ensures |s| == n
  {
    if n == 0 then [] else Be(v / 256, n - 1) + [v % 256]
  }

  lemma {:induction false} BeRoundTrip(v: nat, n: nat)
    requires v < Pow256(n)
    ensures FromBe(Be(v, n)) == v
  {
    if n > 0 {
      BeRoundTrip(v / 256, n - 1);
      assert Be(v, n)[..n - 1] == Be(v / 256, n - 1);
    }
  }

  lemma {:induction false} LeRoundTrip(v: nat, n: nat)
    requires v < Pow256(n)
    ensures FromLe(Le(v, n)) == v
  {
    if n > 0 {
      LeRoundTrip(v / 256, n - 1);
      assert Le(v, n)[1..] == Le(v / 256, n - 1);
    }
  }

  lemma {:induction false} FromLeBound(s: seq<byte>)
    ensures FromLe(s) < Pow256(|s|)
  {
    if s != [] {
      FromLeBound(s[1..]);
    }
  }

  lemma Widths()
    ensures Pow256(4) == U32
    ensures Pow256(8) == U64
  {
    assert Pow256(1) == 256;
    assert Pow256(2) == 65536;
    assert Pow256(3) == 16777216;
    assert Pow256(5) == 256 * Pow256(4);
    assert Pow256(6) == 256 * Pow256(5);
    assert Pow256(7) == 256 * Pow256(6);
  }

  lemma Le4(v: nat)
    requires v < U32
    ensures FromLe(Le(v, 4)) == v
  {
    Widths();
    LeRoundTrip(v, 4);
  }

  lemma Le8(v: nat)
    requires v < U64
    ensures FromLe(Le(v, 8)) == v
  {
    Widths();
    LeRoundTrip(v, 8);
  }

  lemma LeHead(v: nat, n: nat)
    requires n > 0
    ensures Le(v, n) == [v % 256] + Le(v / 256, n - 1)
  {
  }

  lemma {:induction false} LeSplit(lo: nat, hi: nat, n: nat, k: nat)
    requires lo < Pow256(n)
    ensures Le(lo + Pow256(n) * hi, n + k) == Le(lo, n) + Le(hi, k)
  {
    if n > 0 {
      var x := Pow256(n - 1) * hi;
      MulAssoc(256, Pow256(n - 1), hi);
      Split256(lo + 256 * x, lo / 256 + x, lo % 256);
      LeSplit(lo / 256, hi, n - 1, k);
      LeHead(lo + 256 * x, n + k);
      LeHead(lo, n);
    }
  }

  lemma MulAssoc(a: nat, b: nat, c: nat)
    ensures (a * b) * c == a * (b * c)
  {
  }

  /** A number of four bytes, and one of eight. */
  lemma LeBytes4(v: nat, b0: byte, b1: byte, b2: byte, b3: byte)
    requires v == b0 + b1 * 0x100 + b2 * 0x10000 + b3 * 0x1000000
    ensures Le(v, 4) == [b0, b1, b2, b3]
  {
    var v3, v2, v1 := b3, b2 + 256 * b3, b1 + 256 * (b2 + 256 * b3);
    Split256(v, v1, b0);
    Split256(v1, v2, b1);
    Split256(v2, v3, b2);
    LeHead(v, 4);
    LeHead(v1, 3);
    LeHead(v2, 2);
    LeHead(v3, 1);
    hide Le;
  }

  lemma LeBytes8(v: nat, lo: nat, hi: nat)
    requires lo < U32 && v == lo + U32 * hi
    ensures Le(v, 8) == Le(lo, 4) + Le(hi, 4)
  {
    Widths();
    hide Le, Pow256;
    LeSplit(lo, hi, 4, 4);
  }

  lemma Be4(v: nat)
    requires v < U32
    ensures FromBe(Be(v, 4)) == v
  {
    Widths();
    BeRoundTrip(v, 4);
  }

  lemma Be8(v: nat)
    requires v < U64
    ensures FromBe(Be(v, 8)) == v
  {
    Widths();
    BeRoundTrip(v, 8);
  }

  /** s with t written over it, starting at position at. */
  function Splice<T>(s: seq<T>, at: nat, t: seq<T>): (r: seq<T>)
    requires at + |t| <= |s|
    ensures |r| == |s|
  {
    s[..at] + t + s[at + |t|..]
  }

  /** Copies src into dst, from position at on. */
  method Memcpy(dst: array<byte>, at: nat, src: seq<byte>)
    requires at + |src| <= dst.Length
    modifies dst
    ensures dst[..] == Splice(old(dst[..]), at, src)
  {
    forall i | 0 <= i < |src| {
      dst[at + i] := src[i];
    }
  }

  lemma SpliceNothing<T>(s: seq<T>, at: nat)
    requires at <= |s|
    ensures Splice(s, at, []) == s
  {
  }

  /** Writing two neighbouring pieces one after the other is writing their concatenation. */
  lemma SpliceJoin<T>(s: seq<T>, at: nat, t: seq<T>, u: seq<T>)
    requires at + |t| + |u| <= |s|
    ensures Splice(Splice(s, at, t), at + |t|, u) == Splice(s, at, t + u)
  {
  }

  /** Copying the next stretch of a source continues a copy that has come as far as `done`. */
  lemma SpliceContinue<T>(s: seq<T>, at: nat, source: seq<T>, from: nat, done: nat, piece: seq<T>)
    requires from + done + |piece| <= |source| && at + done + |piece| <= |s|
    requires piece == source[from + done..from + done + |piece|]
    ensures Splice(Splice(s, at, source[from..from + done]), at + done, piece) == Splice(s, at, source[from..from + done + |piece|])
  {
    assert source[from..from + done + |piece|] == source[from..from + done] + piece;
    SpliceJoin(s, at, source[from..from + done], piece);
  }

  /** Writing the next stretch of a buffer continues a write that has come as far as `done`. */
  lemma SpliceMore<T>(s: seq<T>, at: nat, buf: seq<T>, done: nat, more: nat)
    requires done <= more <= |buf| && at + more <= |s|
    ensures Splice(Splice(s, at, buf[..done]), at + done, buf[done..more]) == Splice(s, at, buf[..more])
  {
    assert buf[..done] + buf[done..more] == buf[..more];
    SpliceJoin(s, at, buf[..done], buf[done..more]);
  }

  lemma SpliceIntoLeft<T>(a: seq<T>, b: seq<T>, at: nat, t: seq<T>)
    requires at + |t| <= |a|
    ensures Splice(a + b, at, t) == Splice(a, at, t) + b
  {
  }

  lemma SpliceIntoRight<T>(a: seq<T>, b: seq<T>, at: nat, t: seq<T>)
    requires at + |t| <= |b|
    ensures Splice(a + b, |a| + at, t) == a + Splice(b, at, t)
  {
  }

  /** A slice of a slice. */
  lemma SubSlice<T>(s: seq<T>, lo: nat, hi: nat, i: nat, j: nat)
    requires lo <= hi <= |s| && i <= j <= hi - lo
    ensures s[lo..hi][i..j] == s[lo + i..lo + j]
  {
    var a, b := s[lo..hi][i..j], s[lo + i..lo + j];
    assert |a| == |b|;
    forall k | 0 <= k < |a|
      ensures a[k] == b[k]
    {
    }
  }

  lemma SpliceHere<T>(s: seq<T>, at: nat, t: seq<T>)
    requires at + |t| <= |s|
    ensures Splice(s, at, t)[at..at + |t|] == t
  {
  }

  lemma SpliceElsewhere<T>(s: seq<T>, at: nat, t: seq<T>, lo: nat, hi: nat)
    requires at + |t| <= |s| && lo <= hi <= |s|
    requires hi <= at || at + |t| <= lo
    ensures Splice(s, at, t)[lo..hi] == s[lo..hi]
  {
  }

  lemma SliceLeft<T>(a: seq<T>, b: seq<T>, i: nat, j: nat)
    requires i <= j <= |a|
    ensures (a + b)[i..j] == a[i..j]
  {
  }

  lemma SliceRight<T>(a: seq<T>, b: seq<T>, i: nat, j: nat)
    requires i <= j <= |b|
    ensures (a + b)[|a| + i..|a| + j] == b[i..j]
  {
  }

  /** n zero bytes, as memset leaves them. */
  function Zeros(n: nat): (s: seq<byte>)
    ensures |s| == n
    ensures forall i :: 0 <= i < n ==> s[i] == 0
  {
    seq(n, i => 0)
  }

  // ----- positions and blocks -----

  /** Position i lies in block c exactly when it is between the ends of that block. */
  lemma DivMod(i: nat, b: nat, c: nat)
    requires b > 0
    ensures i / b >= 0 && 0 <= i % b < b
    ensures i / b == c <==> c * b <= i < c * b + b
    ensures i / b == c ==> i % b == i - c * b
  {
    assert i == b * (i / b) + i % b;
    if i / b < c {
      MulMono(i / b + 1, c, b);
    } else if i / b > c {
      MulMono(c + 1, i / b, b);
    }
  }

  lemma MulMono(x: nat, y: nat, b: nat)
    requires x <= y
    ensures x * b <= y * b
  {
  }

  lemma MulCancel(x: nat, y: nat, b: nat)
    requires x * b < y * b
    ensures x < y
  {
    if y <= x {
      MulMono(y, x, b);
    }
  }

  /** The next block starts where this one ends. */
  lemma NextBlock(c: nat, b: nat)
    ensures (c + 1) * b == c * b + b
  {
  }

  function Quotient(x: nat, b: nat): nat
    requires b > 0
  {
    x / b
  }

  lemma Division(x: nat, b: nat)
    requires b > 0
    ensures x / b * b + x % b == x && x % b < b
  {
  }

  /** The digits of a number in mixed radix. */
  lemma Digits(x: nat, a: nat, b: nat, l1: nat, l2: nat, ofs: nat)
    requires ofs < a && l2 < b && x == (l1 * b + l2) * a + ofs
    ensures x % a == ofs && x / a / b == l1 && x / a % b == l2
  {
    var block := l1 * b + l2;
    assert block >= 0;
    DivMod(x, a, block);
    DivMod(block, b, l1);
  }
}
