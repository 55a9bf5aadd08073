// Tree keys as natural numbers and the path of bits a key takes through the tree.

module Keys {

  function Pow2(n: nat): (r: nat)
    ensures r > 0
  {
    if n == 0 then 1 else 2 * Pow2(n - 1)
  }

  // Bit i of k, bit 0 being the lowest.
  predicate Bit(k: nat, i: nat) {
    (k / Pow2(i)) % 2 == 1
  }

  // a and b take the same turns at levels i..j-1.
  predicate SameBits(a: nat, b: nat, i: nat, j: nat) {
    forall l | i <= l < j :: Bit(a, l) == Bit(b, l)
  }

  predicate SameLow(a: nat, b: nat, n: nat) {
    SameBits(a, b, 0, n)
  }

  lemma SameBitsJoin(a: nat, b: nat, n: nat, d: nat)
    requires n < d
    ensures SameBits(a, b, 0, n) && SameBits(a, b, n, d) ==> SameBits(a, b, 0, d - 1)
  {
  }

  lemma SameBitsShorter(a: nat, b: nat, n: nat, d: nat)
    requires n <= d
    ensures SameBits(a, b, 0, d) ==> SameBits(a, b, 0, n)
  {
  }

  // No two keys take the same turns at all of levels i..j-1.
  predicate Spread(keys: set<nat>, i: nat, j: nat) {
    forall a, b {:trigger SameBits(a, b, i, j)} | a in keys && b in keys && a != b :: !SameBits(a, b, i, j)
  }

  lemma DivDiv(k: nat, p: nat)
    requires p > 0
    ensures k / (2 * p) == (k / 2) / p
  {
    var q, r := (k / 2) / p, (k / 2) % p;
    assert k / 2 == p * q + r;
    var s := k - 2 * (k / 2);
    assert k == (2 * p) * q + (2 * r + s) by {
      assert 2 * (p * q) == (2 * p) * q;
    }
    QuotientUnique(k, 2 * p, q, 2 * r + s);
  }

  lemma QuotientUnique(k: nat, d: nat, q: nat, r: nat)
    requires r < d && k == d * q + r
    ensures k / d == q
  {
    var e := k / d - q;
    assert d * e == r - k % d by {
      assert k == d * (k / d) + k % d;
      assert d * (k / d) == d * q + d * e;
    }
    NoMultipleBetween(d, e);
  }

  lemma NoMultipleBetween(d: int, e: int)
    requires -d < d * e < d
    ensures e == 0
  {
  }

  lemma HalfOfQuotient(k: nat, p: nat)
    requires p > 0
    ensures k / (2 * p) == (k / p) / 2
  {
    var h, odd, rest := k / p / 2, k / p % 2, k % p;
    assert k == p * (2 * h + odd) + rest;
    Twice(p, h, odd);
    assert p * odd == if odd == 1 then p else 0;
    QuotientUnique(k, 2 * p, h, p * odd + rest);
  }

  lemma Twice(p: nat, h: nat, odd: nat)
    ensures p * (2 * h + odd) == (2 * p) * h + p * odd
  {
  }

  // Dropping the lowest bit shifts the others down.
  lemma BitHalf(k: nat, i: nat)
    ensures Bit(k, i + 1) == Bit(k / 2, i)
  {
    DivDiv(k, Pow2(i));
  }

  // Bits are the binary digits: the lowest says whether k is odd, the others are those of k / 2.
  lemma BinaryDigits(k: nat, i: nat)
    ensures Bit(k, 0) <==> k % 2 == 1
    ensures Bit(k, i + 1) <==> Bit(k / 2, i)
  {
    BitHalf(k, i);
  }

  // Keys of at most n bits are told apart by their n low bits.
  lemma {:induction false} LowBitsDetermine(a: nat, b: nat, n: nat)
    requires a < Pow2(n) && b < Pow2(n)
    requires SameLow(a, b, n)
    ensures a == b
  {
    if n > 0 {
      assert Bit(a, 0) == Bit(b, 0);
      forall l | 0 <= l < n - 1 ensures Bit(a / 2, l) == Bit(b / 2, l) {
        assert Bit(a, l + 1) == Bit(b, l + 1);
        BitHalf(a, l);
        BitHalf(b, l);
      }
      LowBitsDetermine(a / 2, b / 2, n - 1);
    }
  }

  lemma SmallKeysSpread(keys: set<nat>, n: nat)
    requires forall k | k in keys :: k < Pow2(n)
    ensures Spread(keys, 0, n)
  {
    forall a, b | a in keys && b in keys && a != b ensures !SameBits(a, b, 0, n) {
      if SameLow(a, b, n) {
        LowBitsDetermine(a, b, n);
      }
    }
  }

  // The low n bits of k as a number.
  function Low(k: nat, n: nat): (r: nat)
    ensures r < Pow2(n) && r <= k
  {
    DivisionBounds(k, Pow2(n));
    k % Pow2(n)
  }

  function High(k: nat, n: nat): (r: nat)
    ensures r <= k
  {
    DivisionBounds(k, Pow2(n));
    k / Pow2(n)
  }

  lemma DivisionBounds(k: nat, p: nat)
    requires p > 0
    ensures 0 <= k / p <= k && k % p <= k
  {
    var q := k / p;
    assert k == p * q + k % p;
    Product(p, q);
    Product(p - 1, q);
    assert p * q == q + (p - 1) * q;
  }

  lemma Product(a: nat, b: nat)
    ensures a * b >= 0
  {
  }

  lemma LowHigh(k: nat, n: nat)
    ensures k == Low(k, n) + High(k, n) * Pow2(n)
  {
    var p := Pow2(n);
    assert k == p * (k / p) + k % p;
  }

  // A 32-byte big-endian key, as the store and the tree hold it.
  type Byte = b: nat | b < 256
  type Bytes32 = bs: seq<Byte> | |bs| == 32 witness seq(32, _ => 0)

  function FromBigEndian(bs: seq<Byte>): nat {
    if bs == [] then 0 else FromBigEndian(bs[..|bs| - 1]) * 256 + bs[|bs| - 1]
  }

  // The turns of a key: bit i % 8 of byte 31 - i / 8.
  function GetPath(key: Bytes32, depth: nat): (path: seq<bool>)
    requires depth <= 256
    ensures |path| == depth
  {
    seq(depth, i requires 0 <= i < depth => (key[31 - i / 8] / Pow2(i % 8)) % 2 == 1)
  }

  // Appending m low bits: below m the bits are those of the low part, from m on those of the rest.
  lemma {:induction false} BitShift(h: nat, b: nat, m: nat, i: nat)
    requires b < Pow2(m)
    ensures Bit(h * Pow2(m) + b, i) == if i < m then Bit(b, i) else Bit(h, i - m)
  {
    var k := h * Pow2(m) + b;
    if m > 0 {
      var p := Pow2(m - 1);
      assert k == 2 * (h * p) + b by { assert h * (2 * p) == 2 * (h * p); }
      assert k / 2 == h * p + b / 2 && k % 2 == b % 2;
      if i > 0 {
        BitShift(h, b / 2, m - 1, i - 1);
        BitHalf(k, i - 1);
        BitHalf(b, i - 1);
      }
    } else {
      assert k == h;
    }
  }

  lemma ByteSize()
    ensures Pow2(8) == 256
  {
    assert Pow2(4) == 16;
  }

  lemma {:induction false} BigEndianBit(bs: seq<Byte>, i: nat)
    requires i < 8 * |bs|
    ensures Bit(FromBigEndian(bs), i) == Bit(bs[|bs| - 1 - i / 8], i % 8)
  {
    ByteSize();
    hide Pow2, Bit;
    var h := bs[..|bs| - 1];
    BitShift(FromBigEndian(h), bs[|bs| - 1], 8, i);
    if i >= 8 {
      BigEndianBit(h, i - 8);
      assert bs[|bs| - 1 - i / 8] == h[|h| - 1 - (i - 8) / 8];
    }
  }

  // The path read off the key's bytes is the low bits of the key's number, lowest first,
  // which is the decomposition the circuits walk.
  lemma PathIsLowBits(key: Bytes32, depth: nat, i: nat)
    requires i < depth <= 256
    ensures GetPath(key, depth)[i] == Bit(FromBigEndian(key), i)
  {
    BigEndianBit(key, i);
  }

  // The number of a key: its last byte is the lowest.
  lemma LastByteLowest(bs: seq<Byte>, last: Byte)
    ensures FromBigEndian([]) == 0 && FromBigEndian(bs + [last]) == 256 * FromBigEndian(bs) + last
  {
    assert (bs + [last])[..|bs|] == bs;
  }
}
