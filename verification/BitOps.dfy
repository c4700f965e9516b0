/** The bit operations of C on unsigned numbers, and the arithmetic they amount to. */
module BitOps {
  import opened Bytes
  import opened QcowFormat

  /** x & y, bit by bit. */
  function And(x: nat, y: nat): nat {
    if x == 0 || y == 0 then 0 else 2 * And(x / 2, y / 2) + if x % 2 == 1 && y % 2 == 1 then 1 else 0
  }

  /** x >> n, one bit at a time. */
  function ShiftRight(x: nat, n: nat): nat {
    if n == 0 then x else ShiftRight(x / 2, n - 1)
  }

  lemma {:induction false} AndZero(x: nat)
    ensures And(x, 0) == 0 && And(0, x) == 0
  {
  }

  /** One more low bit. */
  lemma Half(x: nat, m: nat)
    requires m > 0
    ensures x % (2 * m) == 2 * (x / 2 % m) + x % 2
  {
    var h := x / 2;
    var q := h / m;
    Division(h, m);
    assert x == q * (2 * m) + (2 * (h % m) + x % 2) by {
      assert 2 * (q * m) == q * (2 * m);
    }
    DivMod(x, 2 * m, q);
  }

  lemma OddMask(x: nat, m: nat)
    requires m > 0
    ensures And(x, 2 * m - 1) == 2 * And(x / 2, m - 1) + x % 2
  {
    assert (2 * m - 1) / 2 == m - 1 && (2 * m - 1) % 2 == 1;
    AndZero(x / 2);
  }

  /** The mask of a power of two is the remainder. */
  lemma {:induction false} MaskIsRemainder(x: nat, k: nat)
    ensures And(x, Pow2(k) - 1) == x % Pow2(k)
  {
    hide And;
    if k > 0 {
      var m := Pow2(k - 1);
      MaskIsRemainder(x / 2, k - 1);
      Half(x, m);
      OddMask(x, m);
    } else {
      AndZero(x);
    }
  }

  /** Shifting right is dividing by a power of two. */
  lemma {:induction false} ShiftIsQuotient(x: nat, n: nat)
    ensures ShiftRight(x, n) == Shr(x, n)
  {
    if n > 0 {
      ShiftIsQuotient(x / 2, n - 1);
      DivDiv(x, 2, Pow2(n - 1));
    }
  }

  /** x << n */
  function ShiftLeft(x: nat, n: nat): nat {
    if n == 0 then x else 2 * ShiftLeft(x, n - 1)
  }

  /** A mask that begins n bits further up. */
  lemma {:induction false} AndShifted(x: nat, m: nat, n: nat)
    ensures And(x, ShiftLeft(m, n)) == ShiftLeft(And(ShiftRight(x, n), m), n)
  {
    if n > 0 {
      AndShifted(x / 2, m, n - 1);
      var half := ShiftLeft(m, n - 1);
      assert 2 * half / 2 == half && 2 * half % 2 == 0;
      AndZero(x / 2);
    }
  }

  lemma ShiftLeft9(x: nat)
    ensures ShiftLeft(x, 9) == 512 * x
  {
    assert ShiftLeft(x, 1) == 2 * x;
    assert ShiftLeft(x, 2) == 4 * x;
    assert ShiftLeft(x, 3) == 8 * x;
    assert ShiftLeft(x, 4) == 16 * x;
    assert ShiftLeft(x, 5) == 32 * x;
    assert ShiftLeft(x, 6) == 64 * x;
    assert ShiftLeft(x, 7) == 128 * x;
    assert ShiftLeft(x, 8) == 256 * x;
  }

  lemma OffsetArithmetic(x: nat)
    ensures 512 * (x / 512 % 0x8000_0000_0000) == OffsetBits(x)
  {
    var h := x / 512;
    var q, r := h / 0x8000_0000_0000, h % 0x8000_0000_0000;
    assert x == q * 0x100_0000_0000_0000 + (512 * r + x % 512);
    assert x % 0x100_0000_0000_0000 == 512 * r + x % 512;
  }

  /** The mask for offsets in the tables. */
  lemma OffsetMask(x: nat)
    ensures And(x, 0x00ff_ffff_ffff_fe00) == OffsetBits(x)
  {
    hide Pow2, And, ShiftRight, ShiftLeft, OffsetBits;
    Powers();
    OffsetArithmetic(x);
    var m := 0x7fff_ffff_ffff;
    AndShifted(x, m, 9);
    ShiftLeft9(m);
    ShiftLeft9(And(ShiftRight(x, 9), m));
    ShiftIsQuotient(x, 9);
    MaskIsRemainder(ShiftRight(x, 9), 47);
  }

  /** The expressions by which the program splits an address. */
  lemma AddressExpressions(clusterBits: nat, l2Bits: nat, address: nat)
    ensures And(address, Pow2(clusterBits) - 1) == ClusterOffsetFromAddress(clusterBits, address)
    ensures And(ShiftRight(address, clusterBits), Pow2(l2Bits) - 1) == L2OffsetFromAddress(clusterBits, l2Bits, address)
    ensures ShiftRight(address, clusterBits + l2Bits) == L1OffsetFromAddress(clusterBits, l2Bits, address)
  {
    hide Pow2, And, ShiftRight, Shr;
    MaskIsRemainder(address, clusterBits);
    ShiftIsQuotient(address, clusterBits);
    MaskIsRemainder(Shr(address, clusterBits), l2Bits);
    ShiftIsQuotient(address, clusterBits + l2Bits);
  }

  /** The expressions by which it takes a table entry apart. */
  lemma EntryExpressions(clusterBits: nat, entry: nat)
    requires 9 <= clusterBits < 32 && entry < U64
    ensures And(ShiftRight(entry, 62), 1) == entry / 0x4000_0000_0000_0000 % 2
    ensures And(entry, 1) == entry % 2
    ensures And(entry, Pow2(70 - clusterBits) - 1) == entry % Pow2(70 - clusterBits)
    ensures And(ShiftRight(entry, 70 - clusterBits), Pow2(clusterBits - 8) - 1) == entry / Pow2(70 - clusterBits) % Pow2(clusterBits - 8)
  {
    hide And, ShiftRight, Pow2;
    Powers();
    ShiftIsQuotient(entry, 62);
    ShiftIsQuotient(entry, 70 - clusterBits);
    MaskIsRemainder(Shr(entry, 62), 1);
    MaskIsRemainder(entry, 1);
    MaskIsRemainder(entry, 70 - clusterBits);
    MaskIsRemainder(Shr(entry, 70 - clusterBits), clusterBits - 8);
  }
}
