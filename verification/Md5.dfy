/** The MD5 message digest: RFC 1321 as a definition on whole messages, and the streaming implementation of md5.c. */
module Md5 {
  import opened Bytes

  type Word = bv32

  /** The four registers of section 3.3 of RFC 1321. */
  datatype Regs = Regs(a: Word, b: Word, c: Word, d: Word)

  const INITIAL := Regs(0x67452301, 0xefcdab89, 0x98badcfe, 0x10325476)

  /** T[i] of section 3.4 of RFC 1321. */
  function T(i: nat): Word
    requires 1 <= i <= 64
  {
    if i <= 16 then T1(i) else if i <= 32 then T2(i) else if i <= 48 then T3(i) else T4(i)
  }

  function T1(i: nat): Word
    requires 1 <= i <= 16
  {
    match i
    case 1 => 0xd76aa478 case 2 => 0xe8c7b756 case 3 => 0x242070db case 4 => 0xc1bdceee
    case 5 => 0xf57c0faf case 6 => 0x4787c62a case 7 => 0xa8304613 case 8 => 0xfd469501
    case 9 => 0x698098d8 case 10 => 0x8b44f7af case 11 => 0xffff5bb1 case 12 => 0x895cd7be
    case 13 => 0x6b901122 case 14 => 0xfd987193 case 15 => 0xa679438e case 16 => 0x49b40821
  }

  function T2(i: nat): Word
    requires 17 <= i <= 32
  {
    match i
    case 17 => 0xf61e2562 case 18 => 0xc040b340 case 19 => 0x265e5a51 case 20 => 0xe9b6c7aa
    case 21 => 0xd62f105d case 22 => 0x02441453 case 23 => 0xd8a1e681 case 24 => 0xe7d3fbc8
    case 25 => 0x21e1cde6 case 26 => 0xc33707d6 case 27 => 0xf4d50d87 case 28 => 0x455a14ed
    case 29 => 0xa9e3e905 case 30 => 0xfcefa3f8 case 31 => 0x676f02d9 case 32 => 0x8d2a4c8a
  }

  function T3(i: nat): Word
    requires 33 <= i <= 48
  {
    match i
    case 33 => 0xfffa3942 case 34 => 0x8771f681 case 35 => 0x6d9d6122 case 36 => 0xfde5380c
    case 37 => 0xa4beea44 case 38 => 0x4bdecfa9 case 39 => 0xf6bb4b60 case 40 => 0xbebfbc70
    case 41 => 0x289b7ec6 case 42 => 0xeaa127fa case 43 => 0xd4ef3085 case 44 => 0x04881d05
    case 45 => 0xd9d4d039 case 46 => 0xe6db99e5 case 47 => 0x1fa27cf8 case 48 => 0xc4ac5665
  }

  function T4(i: nat): Word
    requires 49 <= i <= 64
  {
    match i
    case 49 => 0xf4292244 case 50 => 0x432aff97 case 51 => 0xab9423a7 case 52 => 0xfc93a039
    case 53 => 0x655b59c3 case 54 => 0x8f0ccc92 case 55 => 0xffeff47d case 56 => 0x85845dd1
    case 57 => 0x6fa87e4f case 58 => 0xfe2ce6e0 case 59 => 0xa3014314 case 60 => 0x4e0811a1
    case 61 => 0xf7537e82 case 62 => 0xbd3af235 case 63 => 0x2ad7d2bb case 64 => 0xeb86d391
  }

  // ----- the definition, section 3.4 of RFC 1321 -----

  function F(x: Word, y: Word, z: Word): Word { (x & y) | (!x & z) }

  function G(x: Word, y: Word, z: Word): Word { (x & z) | (y & !z) }

  function H(x: Word, y: Word, z: Word): Word { x ^ y ^ z }

  function I(x: Word, y: Word, z: Word): Word { y ^ (x | !z) }

  function RotateLeft(x: Word, n: nat): Word
    requires n < 32
  {
    (x << n) | (x >> (32 - n))
  }

  /** The mixing function of operation i. */
  function Mix(i: nat, x: Word, y: Word, z: Word): Word {
    if i < 16 then F(x, y, z) else if i < 32 then G(x, y, z) else if i < 48 then H(x, y, z) else I(x, y, z)
  }

  /** The message word operation i uses. */
  function WordIndex(i: nat): (k: nat)
    ensures k < 16
  {
    if i < 16 then i else if i < 32 then (5 * i + 1) % 16 else if i < 48 then (3 * i + 5) % 16 else (7 * i) % 16
  }

  /** How far operation i rotates. */
  function Shift(i: nat): (s: nat)
    ensures s < 32
  {
    var row := if i < 16 then [7, 12, 17, 22] else if i < 32 then [5, 9, 14, 20]
               else if i < 48 then [4, 11, 16, 23] else [6, 10, 15, 21];
    row[i % 4]
  }

  /** a = b + ((a + mixed + x + t) <<< s) */
  function Set(a: Word, mixed: Word, b: Word, x: Word, s: nat, t: Word): Word
    requires s < 32
  {
    b + RotateLeft(a + mixed + x + t, s)
  }

  /** One operation; the registers change places so that the next operation works on its a. */
  function Operation(i: nat, q: Regs, X: seq<Word>): Regs
    requires i < 64 && |X| == 16
  {
    Regs(q.d, Set(q.a, Mix(i, q.b, q.c, q.d), q.b, X[WordIndex(i)], Shift(i), T(i + 1)), q.b, q.c)
  }

  /** The first n of the 64 operations. */
  function Rounds(n: nat, q: Regs, X: seq<Word>): Regs
    requires n <= 64 && |X| == 16
  {
    if n == 0 then q else Operation(n - 1, Rounds(n - 1, q, X), X)
  }

  /** Word i of a block, low-order byte first. */
  function WordAt(block: seq<byte>, i: nat): Word
    requires 4 * i + 4 <= |block|
  {
    FromLeBound(block[4 * i..4 * i + 4]);
    Widths();
    FromLe(block[4 * i..4 * i + 4]) as Word
  }

  function Words(block: seq<byte>): (X: seq<Word>)
    requires |block| == 64
    ensures |X| == 16
  {
    seq(16, i requires 0 <= i < 16 => WordAt(block, i))
  }

  function AddRegs(q: Regs, r: Regs): Regs {
    Regs(q.a + r.a, q.b + r.b, q.c + r.c, q.d + r.d)
  }

  function Compress(q: Regs, block: seq<byte>): Regs
    requires |block| == 64
  {
    AddRegs(q, Rounds(64, q, Words(block)))
  }

  /** The registers after all 64-byte blocks of s. */
  function Blocks(q: Regs, s: seq<byte>): Regs
    requires |s| % 64 == 0
  {
    if s == [] then q else Compress(Blocks(q, s[..|s| - 64]), s[|s| - 64..])
  }

  /** Sections 3.1 and 3.2 of RFC 1321: a one bit, zeros up to 56 modulo 64 bytes, and the length in bits. */
  function Pad(m: seq<byte>): (s: seq<byte>)
    ensures |s| % 64 == 0
  {
    PadLength(|m|);
    m + [0x80] + Zeros((55 - |m|) % 64) + Le(8 * |m| % U64, 8)
  }

  function WordBytes(w: Word): seq<byte> {
    Le(w as nat, 4)
  }

  /** Section 3.5 of RFC 1321. */
  function Digest(q: Regs): (s: seq<byte>)
    ensures |s| == 16
  {
    WordBytes(q.a) + WordBytes(q.b) + WordBytes(q.c) + WordBytes(q.d)
  }

  function MessageDigest(m: seq<byte>): (s: seq<byte>)
    ensures |s| == 16
  {
    Digest(Blocks(INITIAL, Pad(m)))
  }

  // ----- the 64 operations as md5_process writes them out -----

  /** Which message word and which rotation the operations of each round use. */
  lemma Schedule1()
    ensures WordIndex(0) == 0 && WordIndex(1) == 1 && WordIndex(2) == 2 && WordIndex(3) == 3
    ensures WordIndex(4) == 4 && WordIndex(5) == 5 && WordIndex(6) == 6 && WordIndex(7) == 7
    ensures WordIndex(8) == 8 && WordIndex(9) == 9 && WordIndex(10) == 10 && WordIndex(11) == 11
    ensures WordIndex(12) == 12 && WordIndex(13) == 13 && WordIndex(14) == 14 && WordIndex(15) == 15
    ensures Shift(0) == 7 && Shift(1) == 12 && Shift(2) == 17 && Shift(3) == 22
    ensures Shift(4) == 7 && Shift(5) == 12 && Shift(6) == 17 && Shift(7) == 22
    ensures Shift(8) == 7 && Shift(9) == 12 && Shift(10) == 17 && Shift(11) == 22
    ensures Shift(12) == 7 && Shift(13) == 12 && Shift(14) == 17 && Shift(15) == 22
  {
  }

  lemma Schedule2()
    ensures WordIndex(16) == 1 && WordIndex(17) == 6 && WordIndex(18) == 11 && WordIndex(19) == 0
    ensures WordIndex(20) == 5 && WordIndex(21) == 10 && WordIndex(22) == 15 && WordIndex(23) == 4
    ensures WordIndex(24) == 9 && WordIndex(25) == 14 && WordIndex(26) == 3 && WordIndex(27) == 8
    ensures WordIndex(28) == 13 && WordIndex(29) == 2 && WordIndex(30) == 7 && WordIndex(31) == 12
    ensures Shift(16) == 5 && Shift(17) == 9 && Shift(18) == 14 && Shift(19) == 20
    ensures Shift(20) == 5 && Shift(21) == 9 && Shift(22) == 14 && Shift(23) == 20
    ensures Shift(24) == 5 && Shift(25) == 9 && Shift(26) == 14 && Shift(27) == 20
    ensures Shift(28) == 5 && Shift(29) == 9 && Shift(30) == 14 && Shift(31) == 20
  {
  }

  lemma Schedule3()
    ensures WordIndex(32) == 5 && WordIndex(33) == 8 && WordIndex(34) == 11 && WordIndex(35) == 14
    ensures WordIndex(36) == 1 && WordIndex(37) == 4 && WordIndex(38) == 7 && WordIndex(39) == 10
    ensures WordIndex(40) == 13 && WordIndex(41) == 0 && WordIndex(42) == 3 && WordIndex(43) == 6
    ensures WordIndex(44) == 9 && WordIndex(45) == 12 && WordIndex(46) == 15 && WordIndex(47) == 2
    ensures Shift(32) == 4 && Shift(33) == 11 && Shift(34) == 16 && Shift(35) == 23
    ensures Shift(36) == 4 && Shift(37) == 11 && Shift(38) == 16 && Shift(39) == 23
    ensures Shift(40) == 4 && Shift(41) == 11 && Shift(42) == 16 && Shift(43) == 23
    ensures Shift(44) == 4 && Shift(45) == 11 && Shift(46) == 16 && Shift(47) == 23
  {
  }

  lemma Schedule4()
    ensures WordIndex(48) == 0 && WordIndex(49) == 7 && WordIndex(50) == 14 && WordIndex(51) == 5
    ensures WordIndex(52) == 12 && WordIndex(53) == 3 && WordIndex(54) == 10 && WordIndex(55) == 1
    ensures WordIndex(56) == 8 && WordIndex(57) == 15 && WordIndex(58) == 6 && WordIndex(59) == 13
    ensures WordIndex(60) == 4 && WordIndex(61) == 11 && WordIndex(62) == 2 && WordIndex(63) == 9
    ensures Shift(48) == 6 && Shift(49) == 10 && Shift(50) == 15 && Shift(51) == 21
    ensures Shift(52) == 6 && Shift(53) == 10 && Shift(54) == 15 && Shift(55) == 21
    ensures Shift(56) == 6 && Shift(57) == 10 && Shift(58) == 15 && Shift(59) == 21
    ensures Shift(60) == 6 && Shift(61) == 10 && Shift(62) == 15 && Shift(63) == 21
  {
  }

  lemma NextRound1(i: nat, q: Regs, X: seq<Word>)
    requires 0 <= i < 16 && |X| == 16
    ensures var p := Rounds(i, q, X);
      Rounds(i + 1, q, X) == Regs(p.d, Set(p.a, F(p.b, p.c, p.d), p.b, X[WordIndex(i)], Shift(i), T(i + 1)), p.b, p.c)
  {
    hide Set, F, G, H, I, T;
  }

  lemma NextRound2(i: nat, q: Regs, X: seq<Word>)
    requires 16 <= i < 32 && |X| == 16
    ensures var p := Rounds(i, q, X);
      Rounds(i + 1, q, X) == Regs(p.d, Set(p.a, G(p.b, p.c, p.d), p.b, X[WordIndex(i)], Shift(i), T(i + 1)), p.b, p.c)
  {
    hide Set, F, G, H, I, T;
  }

  lemma NextRound3(i: nat, q: Regs, X: seq<Word>)
    requires 32 <= i < 48 && |X| == 16
    ensures var p := Rounds(i, q, X);
      Rounds(i + 1, q, X) == Regs(p.d, Set(p.a, H(p.b, p.c, p.d), p.b, X[WordIndex(i)], Shift(i), T(i + 1)), p.b, p.c)
  {
    hide Set, F, G, H, I, T;
  }

  lemma NextRound4(i: nat, q: Regs, X: seq<Word>)
    requires 48 <= i < 64 && |X| == 16
    ensures var p := Rounds(i, q, X);
      Rounds(i + 1, q, X) == Regs(p.d, Set(p.a, I(p.b, p.c, p.d), p.b, X[WordIndex(i)], Shift(i), T(i + 1)), p.b, p.c)
  {
    hide Set, F, G, H, I, T;
  }

  method Round1(q: Regs, X: seq<Word>, p: Regs) returns (r: Regs)
    requires |X| == 16 && p == Rounds(0, q, X)
    ensures r == Rounds(16, q, X)
  {
    hide Rounds, Set, F, G, H, I, WordIndex, Shift, Mix, T;
    Schedule1();
    var a, b, c, d := p.a, p.b, p.c, p.d;
    a := Set(a, F(b, c, d), b, X[0], 7, T(1));
    NextRound1(0, q, X);
    d := Set(d, F(a, b, c), a, X[1], 12, T(2));
    NextRound1(1, q, X);
    c := Set(c, F(d, a, b), d, X[2], 17, T(3));
    NextRound1(2, q, X);
    b := Set(b, F(c, d, a), c, X[3], 22, T(4));
    NextRound1(3, q, X);
    assert Regs(a, b, c, d) == Rounds(4, q, X);
    a := Set(a, F(b, c, d), b, X[4], 7, T(5));
    NextRound1(4, q, X);
    d := Set(d, F(a, b, c), a, X[5], 12, T(6));
    NextRound1(5, q, X);
    c := Set(c, F(d, a, b), d, X[6], 17, T(7));
    NextRound1(6, q, X);
    b := Set(b, F(c, d, a), c, X[7], 22, T(8));
    NextRound1(7, q, X);
    assert Regs(a, b, c, d) == Rounds(8, q, X);
    a := Set(a, F(b, c, d), b, X[8], 7, T(9));
    NextRound1(8, q, X);
    d := Set(d, F(a, b, c), a, X[9], 12, T(10));
    NextRound1(9, q, X);
    c := Set(c, F(d, a, b), d, X[10], 17, T(11));
    NextRound1(10, q, X);
    b := Set(b, F(c, d, a), c, X[11], 22, T(12));
    NextRound1(11, q, X);
    assert Regs(a, b, c, d) == Rounds(12, q, X);
    a := Set(a, F(b, c, d), b, X[12], 7, T(13));
    NextRound1(12, q, X);
    d := Set(d, F(a, b, c), a, X[13], 12, T(14));
    NextRound1(13, q, X);
    c := Set(c, F(d, a, b), d, X[14], 17, T(15));
    NextRound1(14, q, X);
    b := Set(b, F(c, d, a), c, X[15], 22, T(16));
    NextRound1(15, q, X);
    assert Regs(a, b, c, d) == Rounds(16, q, X);
    r := Regs(a, b, c, d);
  }

  method Round2(q: Regs, X: seq<Word>, p: Regs) returns (r: Regs)
    requires |X| == 16 && p == Rounds(16, q, X)
    ensures r == Rounds(32, q, X)
  {
    hide Rounds, Set, F, G, H, I, WordIndex, Shift, Mix, T;
    Schedule2();
    var a, b, c, d := p.a, p.b, p.c, p.d;
    a := Set(a, G(b, c, d), b, X[1], 5, T(17));
    NextRound2(16, q, X);
    d := Set(d, G(a, b, c), a, X[6], 9, T(18));
    NextRound2(17, q, X);
    c := Set(c, G(d, a, b), d, X[11], 14, T(19));
    NextRound2(18, q, X);
    b := Set(b, G(c, d, a), c, X[0], 20, T(20));
    NextRound2(19, q, X);
    assert Regs(a, b, c, d) == Rounds(20, q, X);
    a := Set(a, G(b, c, d), b, X[5], 5, T(21));
    NextRound2(20, q, X);
    d := Set(d, G(a, b, c), a, X[10], 9, T(22));
    NextRound2(21, q, X);
    c := Set(c, G(d, a, b), d, X[15], 14, T(23));
    NextRound2(22, q, X);
    b := Set(b, G(c, d, a), c, X[4], 20, T(24));
    NextRound2(23, q, X);
    assert Regs(a, b, c, d) == Rounds(24, q, X);
    a := Set(a, G(b, c, d), b, X[9], 5, T(25));
    NextRound2(24, q, X);
    d := Set(d, G(a, b, c), a, X[14], 9, T(26));
    NextRound2(25, q, X);
    c := Set(c, G(d, a, b), d, X[3], 14, T(27));
    NextRound2(26, q, X);
    b := Set(b, G(c, d, a), c, X[8], 20, T(28));
    NextRound2(27, q, X);
    assert Regs(a, b, c, d) == Rounds(28, q, X);
    a := Set(a, G(b, c, d), b, X[13], 5, T(29));
    NextRound2(28, q, X);
    d := Set(d, G(a, b, c), a, X[2], 9, T(30));
    NextRound2(29, q, X);
    c := Set(c, G(d, a, b), d, X[7], 14, T(31));
    NextRound2(30, q, X);
    b := Set(b, G(c, d, a), c, X[12], 20, T(32));
    NextRound2(31, q, X);
    assert Regs(a, b, c, d) == Rounds(32, q, X);
    r := Regs(a, b, c, d);
  }

  method Round3(q: Regs, X: seq<Word>, p: Regs) returns (r: Regs)
    requires |X| == 16 && p == Rounds(32, q, X)
    ensures r == Rounds(48, q, X)
  {
    hide Rounds, Set, F, G, H, I, WordIndex, Shift, Mix, T;
    Schedule3();
    var a, b, c, d := p.a, p.b, p.c, p.d;
    a := Set(a, H(b, c, d), b, X[5], 4, T(33));
    NextRound3(32, q, X);
    d := Set(d, H(a, b, c), a, X[8], 11, T(34));
    NextRound3(33, q, X);
    c := Set(c, H(d, a, b), d, X[11], 16, T(35));
    NextRound3(34, q, X);
    b := Set(b, H(c, d, a), c, X[14], 23, T(36));
    NextRound3(35, q, X);
    assert Regs(a, b, c, d) == Rounds(36, q, X);
    a := Set(a, H(b, c, d), b, X[1], 4, T(37));
    NextRound3(36, q, X);
    d := Set(d, H(a, b, c), a, X[4], 11, T(38));
    NextRound3(37, q, X);
    c := Set(c, H(d, a, b), d, X[7], 16, T(39));
    NextRound3(38, q, X);
    b := Set(b, H(c, d, a), c, X[10], 23, T(40));
    NextRound3(39, q, X);
    assert Regs(a, b, c, d) == Rounds(40, q, X);
    a := Set(a, H(b, c, d), b, X[13], 4, T(41));
    NextRound3(40, q, X);
    d := Set(d, H(a, b, c), a, X[0], 11, T(42));
    NextRound3(41, q, X);
    c := Set(c, H(d, a, b), d, X[3], 16, T(43));
    NextRound3(42, q, X);
    b := Set(b, H(c, d, a), c, X[6], 23, T(44));
    NextRound3(43, q, X);
    assert Regs(a, b, c, d) == Rounds(44, q, X);
    a := Set(a, H(b, c, d), b, X[9], 4, T(45));
    NextRound3(44, q, X);
    d := Set(d, H(a, b, c), a, X[12], 11, T(46));
    NextRound3(45, q, X);
    c := Set(c, H(d, a, b), d, X[15], 16, T(47));
    NextRound3(46, q, X);
    b := Set(b, H(c, d, a), c, X[2], 23, T(48));
    NextRound3(47, q, X);
    assert Regs(a, b, c, d) == Rounds(48, q, X);
    r := Regs(a, b, c, d);
  }

  method Round4(q: Regs, X: seq<Word>, p: Regs) returns (r: Regs)
    requires |X| == 16 && p == Rounds(48, q, X)
    ensures r == Rounds(64, q, X)
  {
    hide Rounds, Set, F, G, H, I, WordIndex, Shift, Mix, T;
    Schedule4();
    var a, b, c, d := p.a, p.b, p.c, p.d;
    a := Set(a, I(b, c, d), b, X[0], 6, T(49));
    NextRound4(48, q, X);
    d := Set(d, I(a, b, c), a, X[7], 10, T(50));
    NextRound4(49, q, X);
    c := Set(c, I(d, a, b), d, X[14], 15, T(51));
    NextRound4(50, q, X);
    b := Set(b, I(c, d, a), c, X[5], 21, T(52));
    NextRound4(51, q, X);
    assert Regs(a, b, c, d) == Rounds(52, q, X);
    a := Set(a, I(b, c, d), b, X[12], 6, T(53));
    NextRound4(52, q, X);
    d := Set(d, I(a, b, c), a, X[3], 10, T(54));
    NextRound4(53, q, X);
    c := Set(c, I(d, a, b), d, X[10], 15, T(55));
    NextRound4(54, q, X);
    b := Set(b, I(c, d, a), c, X[1], 21, T(56));
    NextRound4(55, q, X);
    assert Regs(a, b, c, d) == Rounds(56, q, X);
    a := Set(a, I(b, c, d), b, X[8], 6, T(57));
    NextRound4(56, q, X);
    d := Set(d, I(a, b, c), a, X[15], 10, T(58));
    NextRound4(57, q, X);
    c := Set(c, I(d, a, b), d, X[6], 15, T(59));
    NextRound4(58, q, X);
    b := Set(b, I(c, d, a), c, X[13], 21, T(60));
    NextRound4(59, q, X);
    assert Regs(a, b, c, d) == Rounds(60, q, X);
    a := Set(a, I(b, c, d), b, X[4], 6, T(61));
    NextRound4(60, q, X);
    d := Set(d, I(a, b, c), a, X[11], 10, T(62));
    NextRound4(61, q, X);
    c := Set(c, I(d, a, b), d, X[2], 15, T(63));
    NextRound4(62, q, X);
    b := Set(b, I(c, d, a), c, X[9], 21, T(64));
    NextRound4(63, q, X);
    assert Regs(a, b, c, d) == Rounds(64, q, X);
    r := Regs(a, b, c, d);
  }

  // ----- the streaming implementation -----

  /** How many of n bytes lie in complete blocks. */
  function InBlocks(n: nat): (k: nat)
    ensures k <= n && k % 64 == 0 && n - k == n % 64
  {
    n - n % 64
  }

  lemma NoRounds(q: Regs, X: seq<Word>)
    requires |X| == 16
    ensures Rounds(0, q, X) == q
  {
  }

  /** The start of md5_process: the bytes of a block, low-order byte first, as 16 words. */
  method LoadWord(data: seq<byte>, i: nat) returns (w: Word)
    requires 4 * i + 4 <= |data|
    ensures w == WordAt(data, i)
  {
    var b0: int, b1: int, b2: int, b3: int := data[4 * i], data[4 * i + 1], data[4 * i + 2], data[4 * i + 3];
    FromLe4(data[4 * i..4 * i + 4], b0, b1, b2, b3);
    w := (b0 + b1 * 0x100 + b2 * 0x10000 + b3 * 0x1000000) as Word;
  }

  method LoadWords(data: seq<byte>) returns (X: seq<Word>)
    requires |data| == 64
    ensures X == Words(data)
  {
    hide WordAt;
    var x := new Word[16];
    for i := 0 to 16
      invariant forall j :: 0 <= j < i ==> x[j] == WordAt(data, j)
    {
      x[i] := LoadWord(data, i);
    }
    X := x[..];
  }

  method AllRounds(q: Regs, X: seq<Word>) returns (r: Regs)
    requires |X| == 16
    ensures r == Rounds(64, q, X)
  {
    NoRounds(q, X);
    hide Rounds;
    r := Round1(q, X, q);
    r := Round2(q, X, r);
    r := Round3(q, X, r);
    r := Round4(q, X, r);
  }

  /** md5_state_t */
  class State {
    var count0: nat          // message length in bits, low 32 bits
    var count1: nat          // and the next 32 bits
    var abcd: Regs
    const buf: array<byte>   // the part of the message that does not fill a block yet

    /** The count words stand for n bytes. */
    ghost predicate Counts(n: nat)
      reads `count0, `count1
    {
      count0 == 8 * n % U32 && count1 == 8 * n / U32 % U32
    }

    /** The registers have taken in all full blocks of m, and the buffer holds the rest. */
    ghost predicate Buffers(m: seq<byte>)
      reads `abcd, buf
      ensures Buffers(m) ==> buf.Length == 64
    {
      && buf.Length == 64
      && abcd == Blocks(INITIAL, m[..InBlocks(|m|)])
      && buf[..|m| % 64] == m[InBlocks(|m|)..]
    }

    /** The state after the message m. */
    ghost predicate Holds(m: seq<byte>)
      reads this, buf
    {
      Counts(|m|) && Buffers(m)
    }

    /** md5_init */
    constructor ()
      ensures Holds([]) && fresh(buf)
    {
      count0, count1 := 0, 0;
      abcd := INITIAL;
      buf := new byte[64];
    }

    /** md5_process */
    method Process(data: seq<byte>)
      requires |data| == 64
      modifies `abcd
      ensures abcd == Compress(old(abcd), data)
    {
      hide Rounds, Words, AddRegs;
      var x := LoadWords(data);
      var r := AllRounds(abcd, x);
      abcd := AddRegs(abcd, r);
    }

    /** The two count words after nbytes more, each kept to 32 bits. */
    method AddLength(nbytes: nat, ghost n: nat)
      requires nbytes < 0x8000_0000
      requires Counts(n)
      modifies `count0, `count1
      ensures Counts(n + nbytes)
    {
      var nbits := nbytes * 8 % U32;
      count1 := (count1 + nbytes / 0x2000_0000) % U32;
      count0 := (count0 + nbits) % U32;
      LengthCarry(8 * n, 8 * nbytes, count0, count1);
      if count0 < nbits {
        count1 := (count1 + 1) % U32;
      }
    }

    /** The part of md5_append that completes a partly filled buffer, whose bytes begin at `start` of the whole message. */
    method AppendPartial(data: seq<byte>, offset: nat, ghost total: seq<byte>, ghost start: nat) returns (p: nat)
      requires buf.Length == 64 && 0 < offset < 64 && data != []
      requires start % 64 == 0 && start + offset + |data| == |total|
      requires abcd == Blocks(INITIAL, total[..start])
      requires buf[..offset] == total[start..start + offset] && data == total[start + offset..]
      modifies `abcd, buf
      ensures p == Min(|data|, 64 - offset) && (start + 64) % 64 == 0
      ensures p == 64 - offset ==> abcd == Blocks(INITIAL, total[..start + 64])
      ensures p < 64 - offset ==> abcd == old(abcd) && buf[..offset + p] == total[start..]
    {
      hide Compress, Blocks, Splice;
      p := if offset + |data| > 64 then 64 - offset else |data|;
      SplicePrefix(buf[..], offset, data[..p]);
      Memcpy(buf, offset, data[..p]);
      assert data[..p] == total[start + offset..start + offset + p];
      assert total[start..start + offset] + data[..p] == total[start..start + offset + p];
      if offset + p == 64 {
        assert buf[..] == buf[..64];
        Process(buf[..]);
        OneMore(INITIAL, total, start);
      }
    }

    /** The loop of md5_append over full blocks; data begins at `start` of the whole message. */
    method AppendBlocks(data: seq<byte>, ghost total: seq<byte>, ghost start: nat) returns (p: nat)
      requires start % 64 == 0 && start + |data| == |total| && data == total[start..]
      requires abcd == Blocks(INITIAL, total[..start])
      modifies `abcd
      ensures p <= |data| && |data| - p < 64 && (start + p) % 64 == 0
      ensures abcd == Blocks(INITIAL, total[..start + p])
    {
      hide Compress, Blocks;
      var left: nat := |data|;
      p := 0;
      while left >= 64
        invariant 0 <= left <= |data| && p == |data| - left
        invariant p % 64 == 0
        invariant abcd == Blocks(INITIAL, total[..start + p])
      {
        OneMore(INITIAL, total, start + p);
        assert data[p..p + 64] == total[start + p..start + p + 64];
        Process(data[p..p + 64]);
        p, left := p + 64, left - 64;
      }
    }

    /** The bytes of md5_append, after the length was updated. */
    method AppendBytes(data: seq<byte>, offset: nat, ghost m: seq<byte>)
      requires buf.Length == 64 && data != []
      requires offset == |m| % 64 && Buffers(m)
      modifies `abcd, buf
      ensures Buffers(m + data) && count0 == old(count0) && count1 == old(count1)
    {
      hide Compress, Blocks, Splice, InBlocks;
      ghost var total, start := m + data, InBlocks(|m|);
      BlocksThen(|m|);
      assert total[..start] == m[..start] && total[start..start + offset] == m[start..] && total[start + offset..] == data;
      var p: nat := 0;
      ghost var at := start;
      if offset != 0 {
        p := AppendPartial(data, offset, total, start);
        if offset + p < 64 {
          Remainder(|total|, start);
          return;
        }
        at := start + 64;
      }
      var q := AppendBlocks(data[p..], total, at);
      p, at := p + q, at + q;
      Remainder(|total|, at);
      if |data| - p != 0 {
        SplicePrefix(buf[..], 0, data[p..]);
        Memcpy(buf, 0, data[p..]);
      }
    }

    /** md5_append */
    method Append(data: seq<byte>, nbytes: int, ghost m: seq<byte>)
      requires Holds(m) && nbytes < 0x8000_0000 && nbytes <= |data|
      modifies this, buf
      ensures Holds(if nbytes <= 0 then m else m + data[..nbytes])
    {
      hide Buffers, Counts, InBlocks;
      if nbytes <= 0 {
        return;
      }
      var offset := count0 / 8 % 64;
      BufferOffset(|m|);
      AddLength(nbytes, |m|);
      AppendBytes(data[..nbytes], offset, m);
    }

    /** md5_finish */
    method Finish(ghost m: seq<byte>) returns (digest: seq<byte>)
      requires Holds(m)
      modifies this, buf
      ensures digest == MessageDigest(m)
    {
      hide Counts, Buffers, Compress, Blocks, Pad, Zeros;
      var data := SavedLength(|m|);
      BufferOffset(|m|);
      PadLength(|m|);
      var padLength := (55 - count0 / 8) % 64 + 1;
      PadLength(count0 / 8);
      PaddedMessage(m, padLength);
      Append(PADDING, padLength, m);
      Append(data, 8, m + PADDING[..padLength]);
      AllBlocks(Pad(m));
      digest := DigestOf();
    }

    /** The length before padding, as the 8 bytes to append. */
    method SavedLength(ghost n: nat) returns (data: seq<byte>)
      requires Counts(n)
      ensures data == Le(8 * n % U64, 8)
    {
      hide Le;
      var bytes := new byte[8];
      for i := 0 to 8
        invariant forall j :: 0 <= j < i ==> bytes[j] == Le(if j < 4 then count0 else count1, 4)[j % 4]
      {
        var word := if i / 4 == 0 then count0 else count1;
        LeByte(word, i % 4);
        bytes[i] := word / ShiftDivisor(i % 4) % 256;
      }
      LengthBytes(n, count0, count1);
      EightBytes(bytes[..], Le(count0, 4), Le(count1, 4));
      data := bytes[..];
    }

    /** The registers as 16 bytes. */
    method DigestOf() returns (digest: seq<byte>)
      ensures digest == Digest(abcd)
    {
      hide Le;
      var words: seq<nat> := [abcd.a as nat, abcd.b as nat, abcd.c as nat, abcd.d as nat];
      var bytes := new byte[16];
      for i := 0 to 16
        invariant forall j :: 0 <= j < i ==> bytes[j] == Le(words[j / 4], 4)[j % 4]
      {
        LeByte(words[i / 4], i % 4);
        bytes[i] := words[i / 4] / ShiftDivisor(i % 4) % 256;
      }
      FourWords(bytes[..], words);
      digest := bytes[..];
    }

    lemma AllBlocks(s: seq<byte>)
      requires Buffers(s) && |s| % 64 == 0
      ensures abcd == Blocks(INITIAL, s)
    {
      AllInBlocks(s);
    }

    lemma BufferOffset(n: nat)
      requires Counts(n)
      ensures count0 / 8 % 64 == n % 64
    {
      BitOffset(n, count0);
    }
  }

  /** The position inside the buffer can be read off the low word of the bit count. */
  lemma BitOffset(n: nat, count0: nat)
    requires count0 == 8 * n % U32
    ensures count0 / 8 % 64 == n % 64
  {
    var q := 8 * n / U32;
    assert 8 * n == U32 * q + count0;
    var k := n - 0x2000_0000 * q;
    assert count0 == 8 * k;
    Split64(n, 0x80_0000 * q + k / 64, k % 64);
  }

  lemma BlocksThen(n: nat)
    ensures InBlocks(n) + n % 64 == n && InBlocks(n) % 64 == 0
  {
  }

  lemma Remainder(n: nat, at: nat)
    requires at <= n && n - at < 64 && at % 64 == 0
    ensures InBlocks(n) == at && n % 64 == n - at
  {
  }

  lemma OneMore(q: Regs, s: seq<byte>, at: nat)
    requires at % 64 == 0 && at + 64 <= |s|
    ensures Blocks(q, s[..at + 64]) == Compress(Blocks(q, s[..at]), s[at..at + 64])
  {
    assert s[..at + 64][..at] == s[..at];
    assert s[..at + 64][at..] == s[at..at + 64];
  }

  lemma SplicePrefix(s: seq<byte>, at: nat, t: seq<byte>)
    requires at + |t| <= |s|
    ensures Splice(s, at, t)[..at + |t|] == s[..at] + t
  {
  }

  lemma FromLe4(s: seq<byte>, b0: int, b1: int, b2: int, b3: int)
    requires |s| == 4 && s[0] == b0 && s[1] == b1 && s[2] == b2 && s[3] == b3
    ensures FromLe(s) == b0 + b1 * 0x100 + b2 * 0x10000 + b3 * 0x1000000
  {
    assert s[1..][1..] == s[2..] && s[2..][1..] == s[3..] && s[3..][1..] == [];
    assert FromLe(s[3..]) == b3;
    assert FromLe(s[2..]) == b2 + 256 * FromLe(s[3..]);
    assert FromLe(s[1..]) == b1 + 256 * FromLe(s[2..]);
  }

  /** Adding a length of b bits to one of a bits, held in two 32-bit words, with a carry. */
  lemma LengthCarry(a: nat, b: nat, lo: nat, hi: nat)
    requires lo == (a % U32 + b % U32) % U32
    requires hi == (a / U32 % U32 + b / U32) % U32
    ensures lo == (a + b) % U32
    ensures (a + b) / U32 % U32 == if lo < b % U32 then (hi + 1) % U32 else hi
  {
    var qa, ra, qb, rb := a / U32, a % U32, b / U32, b % U32;
    assert a == U32 * qa + ra && b == U32 * qb + rb;
    ModAdd(qa, qb);
    ModAdd(qa + qb, 1);
    if ra + rb < U32 {
      Split32(a + b, qa + qb, ra + rb);
      Split32(ra + rb, 0, ra + rb);
    } else {
      Split32(a + b, qa + qb + 1, ra + rb - U32);
      Split32(ra + rb, 1, ra + rb - U32);
    }
  }

  lemma ModAdd(x: nat, y: nat)
    ensures (x % U32 + y) % U32 == (x + y) % U32
  {
    var p, s := x / U32, x % U32;
    var t, u := (s + y) / U32, (s + y) % U32;
    assert x == U32 * p + s && s + y == U32 * t + u;
    Split32(x + y, p + t, u);
  }

  /** The bytes md5_finish pads with. */
  const PADDING: seq<byte> := [0x80] + Zeros(63)

  /** What a right shift by 8 * j bits divides by. */
  function ShiftDivisor(j: nat): (d: nat)
    requires j < 4
    ensures d > 0
  {
    if j == 0 then 1 else if j == 1 then 0x100 else if j == 2 then 0x10000 else 0x1000000
  }

  /** Byte j of a word is what shifting by 8 * j bits leaves in the low 8 bits. */
  lemma LeByte(v: nat, j: nat)
    requires j < 4
    ensures Le(v, 4)[j] == v / ShiftDivisor(j) % 256
  {
    LeHead(v, 4);
    LeHead(v / 256, 3);
    LeHead(v / 256 / 256, 2);
    LeHead(v / 256 / 256 / 256, 1);
    ShiftTwice(v);
    hide Le;
  }

  lemma ShiftTwice(v: nat)
    ensures v / 256 / 256 == v / 0x10000
    ensures v / 256 / 256 / 256 == v / 0x1000000
  {
    var a, b, c := v / 256, v / 256 / 256, v / 256 / 256 / 256;
    assert v == 256 * a + v % 256 && a == 256 * b + a % 256 && b == 256 * c + b % 256;
    assert v == 0x10000 * b + (256 * (a % 256) + v % 256);
    assert v == 0x1000000 * c + (0x10000 * (b % 256) + 256 * (a % 256) + v % 256);
  }

  /** The two count words hold the low 64 bits of the length in bits. */
  lemma LengthBytes(n: nat, count0: nat, count1: nat)
    requires count0 == 8 * n % U32 && count1 == 8 * n / U32 % U32
    ensures Le(8 * n % U64, 8) == Le(count0, 4) + Le(count1, 4)
  {
    TwoWords(8 * n, count0, count1);
    hide Le;
    LeBytes8(8 * n % U64, count0, count1);
  }

  lemma TwoWords(x: nat, lo: nat, hi: nat)
    requires lo == x % U32 && hi == x / U32 % U32
    ensures x % U64 == lo + U32 * hi
  {
    var q := x / U32;
    var p := q / U32;
    assert x == U32 * q + lo && q == U32 * p + hi;
    assert x == U64 * p + (U32 * hi + lo);
  }

  lemma PadLength(n: nat)
    ensures var k := (55 - n % 64) % 64;
      k == (55 - n) % 64 && (n + k + 1) % 64 == 56 && (n + k + 9) % 64 == 0
  {
    var q, r := n / 64, n % 64;
    assert n == 64 * q + r;
    if r <= 55 {
      Split64(n + (55 - r) + 1, q, 56);
      Split64(n + (55 - r) + 9, q + 1, 0);
      assert 55 - n == -64 * q + (55 - r);
    } else {
      Split64(n + (119 - r) + 1, q + 1, 56);
      Split64(n + (119 - r) + 9, q + 2, 0);
      assert 55 - n == -64 * (q + 1) + (119 - r);
    }
  }

  lemma PaddedMessage(m: seq<byte>, padLength: nat)
    requires padLength == (55 - |m|) % 64 + 1
    ensures m + PADDING[..padLength] + Le(8 * |m| % U64, 8)[..8] == Pad(m)
  {
    hide Le, Zeros, Pad;
    PaddingPrefix(padLength);
    PadParts(m, padLength);
    var length := Le(8 * |m| % U64, 8);
    assert length[..8] == length;
    Regroup(m, [0x80], Zeros(padLength - 1), length);
  }

  lemma PadParts(m: seq<byte>, padLength: nat)
    requires padLength == (55 - |m|) % 64 + 1
    ensures Pad(m) == m + [0x80] + Zeros(padLength - 1) + Le(8 * |m| % U64, 8)
  {
    hide Le, Zeros;
  }

  lemma PaddingPrefix(k: nat)
    requires 1 <= k <= 64
    ensures PADDING[..k] == [0x80] + Zeros(k - 1)
  {
  }

  lemma Regroup(a: seq<byte>, b: seq<byte>, c: seq<byte>, d: seq<byte>)
    ensures a + (b + c) + d == a + b + c + d
  {
    assert a + (b + c) == a + b + c;
  }

  lemma EightBytes(s: seq<byte>, a: seq<byte>, b: seq<byte>)
    requires |s| == 8 && |a| == |b| == 4
    requires forall j :: 0 <= j < 8 ==> s[j] == (if j < 4 then a else b)[j % 4]
    ensures s == a + b
  {
  }

  lemma FourWords(s: seq<byte>, words: seq<nat>)
    requires |s| == 16 && |words| == 4
    requires forall j :: 0 <= j < 16 ==> s[j] == Le(words[j / 4], 4)[j % 4]
    ensures s == Le(words[0], 4) + Le(words[1], 4) + Le(words[2], 4) + Le(words[3], 4)
  {
    hide Le;
  }

  lemma AllInBlocks(s: seq<byte>)
    requires |s| % 64 == 0
    ensures InBlocks(|s|) == |s| && s[..InBlocks(|s|)] == s
  {
  }

  // ----- whole messages -----

  /** However a message is cut into pieces, appending them one by one gives the digest of the whole message. */
  method HashPieces(pieces: seq<seq<byte>>) returns (digest: seq<byte>)
    requires forall p :: p in pieces ==> |p| < 0x8000_0000
    ensures digest == MessageDigest(Concat(pieces))
  {
    hide MessageDigest, State.Holds;
    var state := new State();
    for i := 0 to |pieces|
      invariant fresh(state) && fresh(state.buf) && state.Holds(Concat(pieces[..i]))
    {
      var piece := pieces[i];
      assert pieces[..i + 1][..i] == pieces[..i] && piece[..|piece|] == piece;
      state.Append(piece, |piece|, Concat(pieces[..i]));
      assert Concat(pieces[..i + 1]) == Concat(pieces[..i]) + piece;
      assert piece == [] ==> Concat(pieces[..i]) + piece == Concat(pieces[..i]);
    }
    assert pieces[..|pieces|] == pieces;
    digest := state.Finish(Concat(pieces));
  }
}
