// Signals of a circuit: numbers below the field's modulus, the 16-bit comparison, and the split of
// a signal into a low half of 64 bits and a high half that no constraint bounds.

module Signals {
  import opened Keys
  import opened Wrappers

  const MODULUS: nat := 21888242871839275222246405745257275088548364400416034343698204186575808495617
  const CURVE: nat := 4965661367192848881
  const SHIFT: nat := 0x1_0000_0000_0000_0000
  const BITS: nat := 64
  const INVERSE: nat := 16662651760482593750343275155358532940078388361286693648211298903031153094221
  const COFACTOR: nat := 14042775128853446655

  type Signal = n: nat | n < MODULUS
  type U64 = n: nat | n < SHIFT
  type U8 = n: nat | n < 0x100

  // The modulus is the order of BN254, by its parameter.
  lemma ModulusIs()
    ensures var x := CURVE; MODULUS == 36 * x * x * x * x + 36 * x * x * x + 18 * x * x + 6 * x + 1
  {
  }

  lemma ShiftIs()
    ensures Pow2(BITS) == SHIFT
  {
    Sixteen();
    hide Pow2;
    PowerSum(4, 4);
    PowerSum(8, 8);
    PowerSum(16, 16);
    PowerSum(32, 32);
  }

  lemma Sixteen()
    ensures Pow2(4) == 0x10
  {
  }

  lemma {:induction false} PowerSum(a: nat, b: nat)
    ensures Pow2(a + b) == Pow2(a) * Pow2(b)
  {
    if b > 0 {
      PowerSum(a, b - 1);
      assert Pow2(a + b) == 2 * (Pow2(a) * Pow2(b - 1));
    }
  }

  // LessThan(16): the difference must fit 17 bits, and its top bit is the answer.
  function LessThan16(a: Signal, b: Signal): Option<bool> {
    var v := (a + 0x1_0000 - b) % MODULUS;
    if v < 0x2_0000 then Some(v < 0x1_0000) else None
  }

  // Below the modulus by more than 16 bits an accepted comparison is the comparison of numbers.
  lemma LessThanExact(a: Signal, b: Signal)
    requires a < MODULUS - 0x1_0000
    ensures LessThan16(a, b) == Some(true) <==> b - 0x1_0000 <= a < b
  {
  }

  // A 16-bit number is compared with any number at most 2^16 above it, or that far below the modulus.
  lemma LessThanDefined(a: Signal, b: Signal)
    requires a < 0x1_0000
    ensures LessThan16(a, b).Some? <==> b <= a + 0x1_0000 || MODULUS + a - 0x1_0000 < b
    ensures LessThan16(a, b) == Some(true) <==> a < b <= a + 0x1_0000
  {
  }

  // LessEqThan(16) against a small bound accepts the numbers up to it, and also those just below
  // the modulus.
  lemma AtMostExact(a: Signal, b: U8)
    ensures LessThan16(a, b + 1) == Some(true) <==> a <= b || MODULUS - 0xFFFF + b <= a
  {
  }

  predicate IsBit(x: Signal)
    ensures IsBit(x) <==> x == 0 || x == 1
  {
    x <= 1
  }

  function Flag(b: bool): (x: Signal)
    ensures IsBit(x) && (x == 1 <==> b)
  {
    if b then 1 else 0
  }

  // lo and hi split nu: what the circuits constrain of the two hints.
  predicate Splits(nu: Signal, lo: Signal, hi: Signal) {
    (lo + hi * SHIFT) % MODULUS == nu
  }

  // What they leave unconstrained: a range for each half that keeps the sum below the modulus.
  predicate InRange(lo: Signal, hi: Signal) {
    lo < SHIFT && lo + hi * SHIFT < MODULUS
  }

  // A split is the one into low and high bits exactly when it is in range.
  lemma SplitExact(nu: Signal, lo: Signal, hi: Signal)
    requires Splits(nu, lo, hi)
    ensures InRange(lo, hi) <==> lo == Low(nu, BITS)
    ensures InRange(lo, hi) ==> hi == High(nu, BITS)
  {
    ShiftIs();
    LowHigh(nu, BITS);
    if InRange(lo, hi) {
      assert nu == lo + hi * SHIFT;
      QuotientUnique(nu, SHIFT, hi, lo);
    } else if lo == Low(nu, BITS) {
      var high := High(nu, BITS);
      var t := (lo + hi * SHIFT) / MODULUS;
      assert (hi - high) * SHIFT == t * MODULUS;
      Cancel(hi - high, t);
    }
  }

  // Only zero is a multiple of the modulus after a shift, within the field.
  lemma Cancel(d: int, t: int)
    requires d * SHIFT == t * MODULUS && 0 < d + MODULUS && d < MODULUS
    ensures d == 0
  {
    assert d == MODULUS * (t * INVERSE - d * COFACTOR) by {
      assert INVERSE * SHIFT == 1 + COFACTOR * MODULUS;
    }
    NoMultipleBetween(MODULUS, t * INVERSE - d * COFACTOR);
  }

  // Every low half has a high half: the constraint alone leaves the index free.
  lemma AnySplit(nu: Signal, lo: Signal) returns (hi: Signal)
    ensures Splits(nu, lo, hi)
  {
    var d := nu + MODULUS - lo;
    hi := (d * INVERSE) % MODULUS;
    var q := (d * INVERSE) / MODULUS;
    var k := 1 + d * COFACTOR - q * SHIFT;
    assert lo + hi * SHIFT == nu + MODULUS * k by {
      assert d * INVERSE == MODULUS * q + hi;
      assert INVERSE * SHIFT == 1 + COFACTOR * MODULUS;
    }
    Remainder(lo + hi * SHIFT, nu, k);
  }

  lemma Remainder(x: nat, r: Signal, k: int)
    requires x == r + MODULUS * k
    ensures x % MODULUS == r
  {
    NoMultipleBetween(MODULUS, x / MODULUS - k);
  }

  // The split the witness generators compute.
  lemma OwnSplit(nu: Signal)
    ensures Low(nu, BITS) < SHIFT && High(nu, BITS) < MODULUS
    ensures Splits(nu, Low(nu, BITS), High(nu, BITS)) && InRange(Low(nu, BITS), High(nu, BITS))
  {
    ShiftIs();
    LowHigh(nu, BITS);
  }
}
