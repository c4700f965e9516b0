/** Two digests of the test suite in appendix A.5 of RFC 1321, from its definition, and laws of its four auxiliary functions. */
module Md5Suite {
  import opened Bytes
  import opened Md5

  // ----- the auxiliary functions, bit by bit -----

  /** If X then Y else Z. */
  lemma LawOfF(x: Word, y: Word, z: Word)
    ensures F(x, y, z) & x == y & x && F(x, y, z) & !x == z & !x
  {
  }

  /** If Z then X else Y. */
  lemma LawOfG(x: Word, y: Word, z: Word)
    ensures G(x, y, z) & z == x & z && G(x, y, z) & !z == y & !z
  {
  }

  /** The parity of the three. */
  lemma LawOfH(x: Word, y: Word, z: Word)
    ensures H(x, y, z) & z == !(x ^ y) & z && H(x, y, z) & !z == (x ^ y) & !z
  {
  }

  /** If Z then X xor Y else not Y. */
  lemma LawOfI(x: Word, y: Word, z: Word)
    ensures I(x, y, z) & z == (x ^ y) & z && I(x, y, z) & !z == !y & !z
  {
  }

  // ----- the constants -----

  lemma Constants1()
    ensures T(1) == 0xd76aa478 && T(2) == 0xe8c7b756 && T(3) == 0x242070db && T(4) == 0xc1bdceee
    ensures T(5) == 0xf57c0faf && T(6) == 0x4787c62a && T(7) == 0xa8304613 && T(8) == 0xfd469501
    ensures T(9) == 0x698098d8 && T(10) == 0x8b44f7af && T(11) == 0xffff5bb1 && T(12) == 0x895cd7be
    ensures T(13) == 0x6b901122 && T(14) == 0xfd987193 && T(15) == 0xa679438e && T(16) == 0x49b40821
  {
  }

  lemma Constants2()
    ensures T(17) == 0xf61e2562 && T(18) == 0xc040b340 && T(19) == 0x265e5a51 && T(20) == 0xe9b6c7aa
    ensures T(21) == 0xd62f105d && T(22) == 0x02441453 && T(23) == 0xd8a1e681 && T(24) == 0xe7d3fbc8
    ensures T(25) == 0x21e1cde6 && T(26) == 0xc33707d6 && T(27) == 0xf4d50d87 && T(28) == 0x455a14ed
    ensures T(29) == 0xa9e3e905 && T(30) == 0xfcefa3f8 && T(31) == 0x676f02d9 && T(32) == 0x8d2a4c8a
  {
  }

  lemma Constants3()
    ensures T(33) == 0xfffa3942 && T(34) == 0x8771f681 && T(35) == 0x6d9d6122 && T(36) == 0xfde5380c
    ensures T(37) == 0xa4beea44 && T(38) == 0x4bdecfa9 && T(39) == 0xf6bb4b60 && T(40) == 0xbebfbc70
    ensures T(41) == 0x289b7ec6 && T(42) == 0xeaa127fa && T(43) == 0xd4ef3085 && T(44) == 0x04881d05
    ensures T(45) == 0xd9d4d039 && T(46) == 0xe6db99e5 && T(47) == 0x1fa27cf8 && T(48) == 0xc4ac5665
  {
  }

  lemma Constants4()
    ensures T(49) == 0xf4292244 && T(50) == 0x432aff97 && T(51) == 0xab9423a7 && T(52) == 0xfc93a039
    ensures T(53) == 0x655b59c3 && T(54) == 0x8f0ccc92 && T(55) == 0xffeff47d && T(56) == 0x85845dd1
    ensures T(57) == 0x6fa87e4f && T(58) == 0xfe2ce6e0 && T(59) == 0xa3014314 && T(60) == 0x4e0811a1
    ensures T(61) == 0xf7537e82 && T(62) == 0xbd3af235 && T(63) == 0x2ad7d2bb && T(64) == 0xeb86d391
  {
  }

  // ----- messages of less than four bytes -----

  /** The words of the only block of such a message: its bytes and the one bit are in the first, the number of bits is in the last but one. */
  predicate AreShort(X: seq<Word>, first: Word, bits: Word) {
    && |X| == 16 && X[0] == first && X[1] == 0 && X[2] == 0 && X[3] == 0 && X[4] == 0 && X[5] == 0 && X[6] == 0 && X[7] == 0
    && X[8] == 0 && X[9] == 0 && X[10] == 0 && X[11] == 0 && X[12] == 0 && X[13] == 0 && X[14] == bits && X[15] == 0
  }

  lemma WordHere(block: seq<byte>, i: nat, w: Word, b0: byte, b1: byte, b2: byte, b3: byte)
    requires |block| == 64 && i < 16 && block[4 * i..4 * i + 4] == [b0, b1, b2, b3]
    requires w as nat == b0 + b1 * 0x100 + b2 * 0x10000 + b3 * 0x1000000
    ensures Words(block)[i] == w
  {
    FromLe4(block[4 * i..4 * i + 4], b0, b1, b2, b3);
  }

  lemma ShortBlock(m: seq<byte>)
    requires |m| < 4
    ensures var s := Pad(m);
      && |s| == 64 && s[0..4] == m + [0x80] + Zeros(3 - |m|) && s[56..60] == [8 * |m|, 0, 0, 0]
      && forall i :: 1 <= i < 16 && i != 14 ==> s[4 * i..4 * i + 4] == [0, 0, 0, 0]
  {
    hide Le, Pad;
    ShortBytes(m);
    var s := Pad(m);
    assert s[56..60] == s[56..64][0..4];
    assert forall i :: 1 <= i < 16 && i != 14 ==> s[4 * i..4 * i + 4] == [s[4 * i], s[4 * i + 1], s[4 * i + 2], s[4 * i + 3]];
  }

  lemma ShortBytes(m: seq<byte>)
    requires |m| < 4
    ensures var s := Pad(m);
      && |s| == 64 && s[..|m|] == m && s[|m|] == 0x80 && s[56..64] == [8 * |m|, 0, 0, 0, 0, 0, 0, 0]
      && forall j :: |m| < j < 64 && j != 56 ==> s[j] == 0
  {
    hide Le, Pad, Zeros;
    SmallLe(8 * |m|);
    DivMod(55 - |m|, 64, 0);
    DivMod(8 * |m|, U64, 0);
    PadParts(m, 56 - |m|);
    assert Pad(m) == m + [0x80] + Zeros(55 - |m|) + [8 * |m|, 0, 0, 0, 0, 0, 0, 0];
  }

  lemma SmallLe(v: nat)
    requires v < 256
    ensures Le(v, 8) == [v, 0, 0, 0, 0, 0, 0, 0]
  {
    assert Le(v, 8) == [v] + Le(0, 7);
  }

  lemma ShortWords(m: seq<byte>, first: Word, bits: Word, b0: byte, b1: byte, b2: byte, b3: byte)
    requires |m| < 4 && m + [0x80] + Zeros(3 - |m|) == [b0, b1, b2, b3]
    requires first as nat == b0 + b1 * 0x100 + b2 * 0x10000 + b3 * 0x1000000 && bits as nat == 8 * |m|
    ensures |Pad(m)| == 64 && AreShort(Words(Pad(m)), first, bits)
  {
    hide Words, Pad;
    ShortBlock(m);
    WordHere(Pad(m), 0, first, b0, b1, b2, b3);
    WordHere(Pad(m), 14, bits, 8 * |m|, 0, 0, 0);
    forall i | 1 <= i < 16 && i != 14
      ensures Words(Pad(m))[i] == 0
    {
      WordHere(Pad(m), i, 0, 0, 0, 0, 0);
    }
  }

  lemma BytesOf(w: Word, b0: byte, b1: byte, b2: byte, b3: byte)
    requires w as nat == b0 + b1 * 0x100 + b2 * 0x10000 + b3 * 0x1000000
    ensures WordBytes(w) == [b0, b1, b2, b3]
  {
    hide Le;
    LeBytes4(w as nat, b0, b1, b2, b3);
  }

  /** A message of one block. */
  lemma OneBlock(m: seq<byte>, end: Regs, q: Regs)
    requires |Pad(m)| == 64 && Rounds(64, INITIAL, Words(Pad(m))) == end && AddRegs(INITIAL, end) == q
    ensures MessageDigest(m) == WordBytes(q.a) + WordBytes(q.b) + WordBytes(q.c) + WordBytes(q.d)
  {
    hide Rounds, Words, Pad, WordBytes;
    var s := Pad(m);
    assert s[..0] == [] && s[0..] == s;
    assert Blocks(INITIAL, s) == Compress(Blocks(INITIAL, s[..0]), s[0..]);
  }

  // ----- the message "" -----

  lemma EmptyRound1(q: Regs, X: seq<Word>)
    requires AreShort(X, 0x00000080, 0) && q == INITIAL
    ensures Rounds(16, q, X) == Regs(0xf56c7cf1, 0xd6819c6a, 0x5aa53f75, 0x374943a7)
  {
    Constants1();
    hide Rounds, T, WordIndex, Shift, Mix, Operation;
    Schedule1();
    NoRounds(q, X);
    NextRound1(0, q, X);
    assert Rounds(1, q, X) == Regs(0x10325476, 0xa5202774, 0xefcdab89, 0x98badcfe);
    NextRound1(1, q, X); NextRound1(2, q, X); NextRound1(3, q, X);
    NextRound1(4, q, X); NextRound1(5, q, X); NextRound1(6, q, X); NextRound1(7, q, X);
    NextRound1(8, q, X); NextRound1(9, q, X); NextRound1(10, q, X); NextRound1(11, q, X);
    NextRound1(12, q, X); NextRound1(13, q, X); NextRound1(14, q, X); NextRound1(15, q, X);
  }

  lemma EmptyRound2(q: Regs, X: seq<Word>)
    requires AreShort(X, 0x00000080, 0) && Rounds(16, q, X) == Regs(0xf56c7cf1, 0xd6819c6a, 0x5aa53f75, 0x374943a7)
    ensures Rounds(32, q, X) == Regs(0x13707036, 0xa2205f1f, 0x1c31c384, 0xae7813db)
  {
    Constants2();
    hide Rounds, T, WordIndex, Shift, Mix, Operation;
    Schedule2();
    NextRound2(16, q, X); NextRound2(17, q, X); NextRound2(18, q, X); NextRound2(19, q, X);
    NextRound2(20, q, X); NextRound2(21, q, X); NextRound2(22, q, X); NextRound2(23, q, X);
    NextRound2(24, q, X); NextRound2(25, q, X); NextRound2(26, q, X); NextRound2(27, q, X);
    NextRound2(28, q, X); NextRound2(29, q, X); NextRound2(30, q, X); NextRound2(31, q, X);
  }

  lemma EmptyRound3(q: Regs, X: seq<Word>)
    requires AreShort(X, 0x00000080, 0) && Rounds(32, q, X) == Regs(0x13707036, 0xa2205f1f, 0x1c31c384, 0xae7813db)
    ensures Rounds(48, q, X) == Regs(0x3f55edfd, 0xca7d2dbd, 0x68d84ea2, 0x22a31f54)
  {
    Constants3();
    hide Rounds, T, WordIndex, Shift, Mix, Operation;
    Schedule3();
    NextRound3(32, q, X); NextRound3(33, q, X); NextRound3(34, q, X); NextRound3(35, q, X);
    NextRound3(36, q, X); NextRound3(37, q, X); NextRound3(38, q, X); NextRound3(39, q, X);
    NextRound3(40, q, X); NextRound3(41, q, X); NextRound3(42, q, X); NextRound3(43, q, X);
    NextRound3(44, q, X); NextRound3(45, q, X); NextRound3(46, q, X); NextRound3(47, q, X);
  }

  lemma EmptyRound4(q: Regs, X: seq<Word>)
    requires AreShort(X, 0x00000080, 0) && Rounds(48, q, X) == Regs(0x3f55edfd, 0xca7d2dbd, 0x68d84ea2, 0x22a31f54)
    ensures Rounds(64, q, X) == Regs(0x7246fad3, 0x14e45506, 0xff4ea3eb, 0x6e10a476)
  {
    Constants4();
    hide Rounds, T, WordIndex, Shift, Mix, Operation;
    Schedule4();
    NextRound4(48, q, X); NextRound4(49, q, X); NextRound4(50, q, X); NextRound4(51, q, X);
    NextRound4(52, q, X); NextRound4(53, q, X); NextRound4(54, q, X); NextRound4(55, q, X);
    NextRound4(56, q, X); NextRound4(57, q, X); NextRound4(58, q, X); NextRound4(59, q, X);
    NextRound4(60, q, X); NextRound4(61, q, X); NextRound4(62, q, X); NextRound4(63, q, X);
  }

  lemma EmptyRounds(X: seq<Word>)
    requires AreShort(X, 0x00000080, 0)
    ensures Rounds(64, INITIAL, X) == Regs(0x7246fad3, 0x14e45506, 0xff4ea3eb, 0x6e10a476)
  {
    hide Rounds;
    EmptyRound1(INITIAL, X);
    EmptyRound2(INITIAL, X);
    EmptyRound3(INITIAL, X);
    EmptyRound4(INITIAL, X);
  }

  /** MD5 ("") = d41d8cd98f00b204e9800998ecf8427e */
  lemma DigestOfEmpty()
    ensures MessageDigest([]) == [
      0xd4, 0x1d, 0x8c, 0xd9, 0x8f, 0x00, 0xb2, 0x04, 0xe9, 0x80, 0x09, 0x98, 0xec, 0xf8, 0x42, 0x7e]
  {
    hide Rounds, Words, Pad, MessageDigest, WordBytes;
    var m: seq<byte> := [];
    ShortWords(m, 0x00000080, 0, 0x80, 0x00, 0x00, 0x00);
    EmptyRounds(Words(Pad(m)));
    OneBlock(m, Regs(0x7246fad3, 0x14e45506, 0xff4ea3eb, 0x6e10a476),
      Regs(0xd98c1dd4, 0x04b2008f, 0x980980e9, 0x7e42f8ec));
    BytesOf(0xd98c1dd4, 0xd4, 0x1d, 0x8c, 0xd9);
    BytesOf(0x04b2008f, 0x8f, 0x00, 0xb2, 0x04);
    BytesOf(0x980980e9, 0xe9, 0x80, 0x09, 0x98);
    BytesOf(0x7e42f8ec, 0xec, 0xf8, 0x42, 0x7e);
  }

  // ----- the message "abc" -----

  lemma AbcRound1(q: Regs, X: seq<Word>)
    requires AreShort(X, 0x80636261, 24) && q == INITIAL
    ensures Rounds(16, q, X) == Regs(0xdda9b9a6, 0x72aff2e0, 0xe396856b, 0xa1051895)
  {
    Constants1();
    hide Rounds, T, WordIndex, Shift, Mix, Operation;
    Schedule1();
    NoRounds(q, X);
    NextRound1(0, q, X);
    assert Rounds(1, q, X) == Regs(0x10325476, 0xd6d117b4, 0xefcdab89, 0x98badcfe);
    NextRound1(1, q, X); NextRound1(2, q, X); NextRound1(3, q, X);
    NextRound1(4, q, X); NextRound1(5, q, X); NextRound1(6, q, X); NextRound1(7, q, X);
    NextRound1(8, q, X); NextRound1(9, q, X); NextRound1(10, q, X); NextRound1(11, q, X);
    NextRound1(12, q, X); NextRound1(13, q, X); NextRound1(14, q, X); NextRound1(15, q, X);
  }

  lemma AbcRound2(q: Regs, X: seq<Word>)
    requires AreShort(X, 0x80636261, 24) && Rounds(16, q, X) == Regs(0xdda9b9a6, 0x72aff2e0, 0xe396856b, 0xa1051895)
    ensures Rounds(32, q, X) == Regs(0x790a77fb, 0x726342d3, 0xa62884aa, 0x9f47e4f8)
  {
    Constants2();
    hide Rounds, T, WordIndex, Shift, Mix, Operation;
    Schedule2();
    NextRound2(16, q, X); NextRound2(17, q, X); NextRound2(18, q, X); NextRound2(19, q, X);
    NextRound2(20, q, X); NextRound2(21, q, X); NextRound2(22, q, X); NextRound2(23, q, X);
    NextRound2(24, q, X); NextRound2(25, q, X); NextRound2(26, q, X); NextRound2(27, q, X);
    NextRound2(28, q, X); NextRound2(29, q, X); NextRound2(30, q, X); NextRound2(31, q, X);
  }

  lemma AbcRound3(q: Regs, X: seq<Word>)
    requires AreShort(X, 0x80636261, 24) && Rounds(32, q, X) == Regs(0x790a77fb, 0x726342d3, 0xa62884aa, 0x9f47e4f8)
    ensures Rounds(48, q, X) == Regs(0x7f2e507b, 0x7beb9700, 0x8fae6399, 0x99d9679d)
  {
    Constants3();
    hide Rounds, T, WordIndex, Shift, Mix, Operation;
    Schedule3();
    NextRound3(32, q, X); NextRound3(33, q, X); NextRound3(34, q, X); NextRound3(35, q, X);
    NextRound3(36, q, X); NextRound3(37, q, X); NextRound3(38, q, X); NextRound3(39, q, X);
    NextRound3(40, q, X); NextRound3(41, q, X); NextRound3(42, q, X); NextRound3(43, q, X);
    NextRound3(44, q, X); NextRound3(45, q, X); NextRound3(46, q, X); NextRound3(47, q, X);
  }

  lemma AbcRound4(q: Regs, X: seq<Word>)
    requires AreShort(X, 0x80636261, 24) && Rounds(48, q, X) == Regs(0x7f2e507b, 0x7beb9700, 0x8fae6399, 0x99d9679d)
    ensures Rounds(64, q, X) == Regs(0x310ade8f, 0xc08226b3, 0xe484b9d8, 0x624d8cb2)
  {
    Constants4();
    hide Rounds, T, WordIndex, Shift, Mix, Operation;
    Schedule4();
    NextRound4(48, q, X); NextRound4(49, q, X); NextRound4(50, q, X); NextRound4(51, q, X);
    NextRound4(52, q, X); NextRound4(53, q, X); NextRound4(54, q, X); NextRound4(55, q, X);
    NextRound4(56, q, X); NextRound4(57, q, X); NextRound4(58, q, X); NextRound4(59, q, X);
    NextRound4(60, q, X); NextRound4(61, q, X); NextRound4(62, q, X); NextRound4(63, q, X);
  }

  lemma AbcRounds(X: seq<Word>)
    requires AreShort(X, 0x80636261, 24)
    ensures Rounds(64, INITIAL, X) == Regs(0x310ade8f, 0xc08226b3, 0xe484b9d8, 0x624d8cb2)
  {
    hide Rounds;
    AbcRound1(INITIAL, X);
    AbcRound2(INITIAL, X);
    AbcRound3(INITIAL, X);
    AbcRound4(INITIAL, X);
  }

  /** MD5 ("abc") = 900150983cd24fb0d6963f7d28e17f72 */
  lemma DigestOfAbc()
    ensures MessageDigest([0x61, 0x62, 0x63]) == [
      0x90, 0x01, 0x50, 0x98, 0x3c, 0xd2, 0x4f, 0xb0, 0xd6, 0x96, 0x3f, 0x7d, 0x28, 0xe1, 0x7f, 0x72]
  {
    hide Rounds, Words, Pad, MessageDigest, WordBytes;
    var m: seq<byte> := [0x61, 0x62, 0x63];
    ShortWords(m, 0x80636261, 24, 0x61, 0x62, 0x63, 0x80);
    AbcRounds(Words(Pad(m)));
    OneBlock(m, Regs(0x310ade8f, 0xc08226b3, 0xe484b9d8, 0x624d8cb2),
      Regs(0x98500190, 0xb04fd23c, 0x7d3f96d6, 0x727fe128));
    BytesOf(0x98500190, 0x90, 0x01, 0x50, 0x98);
    BytesOf(0xb04fd23c, 0x3c, 0xd2, 0x4f, 0xb0);
    BytesOf(0x7d3f96d6, 0xd6, 0x96, 0x3f, 0x7d);
    BytesOf(0x727fe128, 0x28, 0xe1, 0x7f, 0x72);
  }
}
