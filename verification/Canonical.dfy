// The value a sparse Merkle tree stands for: a finite map from keys to leaf values has one
// canonical root, and a path of siblings opens it.

module Canonical {
  import opened Field
  import opened Wrappers
  import opened Keys

  type Leaves = map<nat, Fr>

  // The leaves that turn `bit` at level lvl.
  function Half(m: Leaves, lvl: nat, bit: bool): (h: Leaves)
    ensures h.Keys <= m.Keys
  {
    map k | k in m && Bit(k, lvl) == bit :: m[k]
  }

  // The leaves met by following key from level i to level j.
  function Along(m: Leaves, key: nat, i: nat, j: nat): (h: Leaves)
    ensures h.Keys <= m.Keys
  {
    map k | k in m && SameBits(k, key, i, j) :: m[k]
  }

  ghost predicate Single(m: Leaves, k: nat) {
    m.Keys == {k}
  }

  ghost predicate Many(m: Leaves) {
    exists a, b :: a in m && b in m && a != b
  }

  // The root hash at level lvl: zero for no leaf, the leaf's hash for one leaf, and otherwise
  // the hash of the two halves. Leaves not told apart before level d have no root.
  ghost function Canon(m: Leaves, lvl: nat, d: nat): Fr
    decreases d - lvl
  {
    if m == map[] then ZERO
    else
      var k :| k in m;
      if Single(m, k) then LeafKey(k, m[k])
      else if lvl >= d then ZERO
      else MidKey(Canon(Half(m, lvl, false), lvl + 1, d), Canon(Half(m, lvl, true), lvl + 1, d))
  }

  lemma CanonSingle(m: Leaves, k: nat, lvl: nat, d: nat)
    requires Single(m, k)
    ensures Canon(m, lvl, d) == LeafKey(k, m[k])
  {
  }

  lemma CanonEmpty(lvl: nat, d: nat)
    ensures Canon(map[], lvl, d) == ZERO
  {
  }

  lemma CanonMany(m: Leaves, lvl: nat, d: nat)
    requires Many(m) && Spread(m.Keys, lvl, d)
    ensures lvl < d
    ensures Canon(m, lvl, d) == MidKey(Canon(Half(m, lvl, false), lvl + 1, d), Canon(Half(m, lvl, true), lvl + 1, d))
  {
    var a, b :| a in m && b in m && a != b;
    assert !SameBits(a, b, lvl, d);
  }

  lemma Trichotomy(m: Leaves)
    ensures m == map[] || Many(m) || exists k :: Single(m, k)
  {
    if m != map[] && !Many(m) {
      var k :| k in m;
      assert Single(m, k);
    }
  }

  lemma HalfSpread(m: Leaves, lvl: nat, d: nat, bit: bool)
    requires Spread(m.Keys, lvl, d) && lvl < d
    ensures Spread(Half(m, lvl, bit).Keys, lvl + 1, d)
  {
    var h := Half(m, lvl, bit);
    forall a, b | a in h && b in h && a != b ensures !SameBits(a, b, lvl + 1, d) {
      assert !SameBits(a, b, lvl, d);
    }
  }

  lemma CanonZero(m: Leaves, lvl: nat, d: nat)
    requires Spread(m.Keys, lvl, d)
    ensures Canon(m, lvl, d) == ZERO <==> m == map[]
  {
    Trichotomy(m);
    if Many(m) {
      CanonMany(m, lvl, d);
    }
  }

  lemma CanonIsMiddle(m: Leaves, lvl: nat, d: nat)
    requires Spread(m.Keys, lvl, d) && Canon(m, lvl, d).Hash2?
    ensures Many(m) && lvl < d
    ensures Canon(m, lvl, d) == MidKey(Canon(Half(m, lvl, false), lvl + 1, d), Canon(Half(m, lvl, true), lvl + 1, d))
    ensures forall bit: bool :: Spread(Half(m, lvl, bit).Keys, lvl + 1, d)
  {
    Trichotomy(m);
    CanonMany(m, lvl, d);
    forall bit: bool ensures Spread(Half(m, lvl, bit).Keys, lvl + 1, d) {
      HalfSpread(m, lvl, d, bit);
    }
  }

  // A key written under a middle node: one half is rewritten, the other stays.
  lemma CanonUpdate(m: Leaves, key: nat, v: Fr, lvl: nat, d: nat)
    requires Many(m) && Spread(m.Keys, lvl, d) && Spread(m.Keys + {key}, lvl, d)
    ensures lvl < d
    ensures var bit := Bit(key, lvl);
      var h := Half(m, lvl, bit);
      && Spread(h.Keys + {key}, lvl + 1, d)
      && Canon(m[key := v], lvl, d) ==
         var fresher, kept := Canon(h[key := v], lvl + 1, d), Canon(Half(m, lvl, !bit), lvl + 1, d);
         if bit then MidKey(kept, fresher) else MidKey(fresher, kept)
  {
    var m' := m[key := v];
    assert m'.Keys == m.Keys + {key};
    assert Many(m');
    CanonMany(m', lvl, d);
    HalfUpdate(m, key, v, lvl);
    HalfSpread(m', lvl, d, Bit(key, lvl));
    var h := Half(m, lvl, Bit(key, lvl));
    assert h[key := v].Keys == h.Keys + {key};
  }

  // Binding: maps with the same root are the same map.
  lemma {:induction false} Binding(m: Leaves, m': Leaves, lvl: nat, d: nat)
    requires Spread(m.Keys, lvl, d) && Spread(m'.Keys, lvl, d)
    requires Canon(m, lvl, d) == Canon(m', lvl, d)
    ensures m == m'
    decreases d - lvl
  {
    Trichotomy(m);
    Trichotomy(m');
    if Many(m) {
      CanonMany(m, lvl, d);
      if Many(m') {
        CanonMany(m', lvl, d);
        forall bit: bool ensures Half(m, lvl, bit) == Half(m', lvl, bit) {
          HalfSpread(m, lvl, d, bit);
          HalfSpread(m', lvl, d, bit);
          Binding(Half(m, lvl, bit), Half(m', lvl, bit), lvl + 1, d);
        }
        HalvesDetermine(m, m', lvl);
      }
    } else if Many(m') {
      CanonMany(m', lvl, d);
    } else {
      assert m.Keys == m'.Keys;
    }
  }

  lemma HalvesDetermine(m: Leaves, m': Leaves, lvl: nat)
    requires Half(m, lvl, false) == Half(m', lvl, false) && Half(m, lvl, true) == Half(m', lvl, true)
    ensures m == m'
  {
    forall k ensures (k in m <==> k in m') && (k in m ==> m[k] == m'[k]) {
      assert k in m ==> k in Half(m, lvl, Bit(k, lvl));
      assert k in m' ==> k in Half(m', lvl, Bit(k, lvl));
    }
  }

  lemma HalfKeeps(m: Leaves, key: nat, lvl: nat)
    ensures key in Half(m, lvl, Bit(key, lvl)) <==> key in m
  {
  }

  // Updating a key changes only the half it turns into.
  lemma HalfUpdate(m: Leaves, key: nat, v: Fr, lvl: nat)
    ensures Half(m[key := v], lvl, Bit(key, lvl)) == Half(m, lvl, Bit(key, lvl))[key := v]
    ensures Half(m[key := v], lvl, !Bit(key, lvl)) == Half(m, lvl, !Bit(key, lvl))
  {
  }

  lemma AlongNone(m: Leaves, key: nat, i: nat)
    ensures Along(m, key, i, i) == m
  {
  }

  // One more turn along the key, at the far end and at the near end.
  lemma AlongLast(m: Leaves, key: nat, i: nat, j: nat)
    requires i <= j
    ensures Half(Along(m, key, i, j), j, Bit(key, j)) == Along(m, key, i, j + 1)
  {
    forall k ensures SameBits(k, key, i, j + 1) <==> SameBits(k, key, i, j) && Bit(k, j) == Bit(key, j) {
    }
  }

  lemma AlongFirst(m: Leaves, key: nat, i: nat, j: nat)
    requires i < j
    ensures Along(Half(m, i, Bit(key, i)), key, i + 1, j) == Along(m, key, i, j)
  {
    forall k ensures SameBits(k, key, i, j) <==> SameBits(k, key, i + 1, j) && Bit(k, i) == Bit(key, i) {
    }
  }

  // ---- Sibling paths ----

  // The hash obtained from x at the bottom of the siblings, going up along key to level lvl.
  function Fold(x: Fr, key: nat, siblings: seq<Fr>, lvl: nat): Fr
    decreases |siblings|
  {
    if siblings == [] then x
    else
      var below := Fold(x, key, siblings[1..], lvl + 1);
      if Bit(key, lvl) then MidKey(siblings[0], below) else MidKey(below, siblings[0])
  }

  lemma {:induction false} FoldSnoc(x: Fr, key: nat, siblings: seq<Fr>, s: Fr, lvl: nat)
    ensures Fold(x, key, siblings + [s], lvl)
         == Fold(Fold(x, key, [s], lvl + |siblings|), key, siblings, lvl)
    decreases |siblings|
  {
    if siblings == [] {
      assert siblings + [s] == [s];
    } else {
      assert (siblings + [s])[1..] == siblings[1..] + [s];
      FoldSnoc(x, key, siblings[1..], s, lvl + 1);
    }
  }

  // Equal folds along one path start from equal hashes.
  lemma {:induction false} FoldInjective(x: Fr, y: Fr, key: nat, siblings: seq<Fr>, lvl: nat)
    requires Fold(x, key, siblings, lvl) == Fold(y, key, siblings, lvl)
    ensures x == y
    decreases |siblings|
  {
    if siblings != [] {
      FoldInjective(x, y, key, siblings[1..], lvl + 1);
    }
  }

  // Soundness of any opening: a fold that reaches the root of m starts at the hash of exactly
  // those leaves of m that share the key's turns.
  lemma {:induction false} FoldOpens(m: Leaves, key: nat, x: Fr, siblings: seq<Fr>, lvl: nat, d: nat)
    requires Spread(m.Keys, lvl, d)
    requires Canon(m, lvl, d) == Fold(x, key, siblings, lvl)
    ensures siblings != [] ==> Many(m)
    ensures siblings != [] ==> lvl + |siblings| <= d
    ensures Spread(Along(m, key, lvl, lvl + |siblings|).Keys, lvl + |siblings|, d)
    ensures Canon(Along(m, key, lvl, lvl + |siblings|), lvl + |siblings|, d) == x
    decreases |siblings|
  {
    hide Spread, Canon, Along, Half;
    if siblings == [] {
      AlongNone(m, key, lvl);
    } else {
      CanonIsMiddle(m, lvl, d);
      AlongFirst(m, key, lvl, lvl + |siblings|);
      var h, n := Half(m, lvl, Bit(key, lvl)), lvl + |siblings|;
      FoldOpens(h, key, x, siblings[1..], lvl + 1, d);
      assert lvl + 1 + |siblings[1..]| == n;
      assert Along(h, key, lvl + 1, n) == Along(m, key, lvl, n);
    }
  }

  // Writing one key along an opened path: the siblings stay, only the bottom hash changes.
  lemma {:induction false} FoldReplaces(m: Leaves, key: nat, v: Fr, x: Fr, siblings: seq<Fr>, lvl: nat, d: nat)
    requires Spread(m.Keys, lvl, d) && Spread(m.Keys + {key}, lvl, d)
    requires Canon(m, lvl, d) == Fold(x, key, siblings, lvl)
    ensures var n := lvl + |siblings|;
      Canon(m[key := v], lvl, d) == Fold(Canon(Along(m, key, lvl, n)[key := v], n, d), key, siblings, lvl)
    decreases |siblings|
  {
    hide Spread, Canon, Along, Half;
    if siblings == [] {
      AlongNone(m, key, lvl);
    } else {
      CanonIsMiddle(m, lvl, d);
      AlongFirst(m, key, lvl, lvl + |siblings|);
      CanonUpdate(m, key, v, lvl, d);
      FoldReplaces(Half(m, lvl, Bit(key, lvl)), key, v, x, siblings[1..], lvl + 1, d);
    }
  }

  // Inclusion: a leaf hash folding to the root of m names a leaf of m.
  lemma InclusionSound(m: Leaves, key: nat, v: Fr, siblings: seq<Fr>, d: nat)
    requires Spread(m.Keys, 0, d)
    requires Canon(m, 0, d) == Fold(LeafKey(key, v), key, siblings, 0)
    ensures key in m && m[key] == v
    ensures Along(m, key, 0, |siblings|) == map[key := v]
  {
    FoldOpens(m, key, LeafKey(key, v), siblings, 0, d);
    LeafOpens(Along(m, key, 0, |siblings|), key, v, |siblings|, d);
  }

  lemma LeafOpens(m: Leaves, key: nat, v: Fr, lvl: nat, d: nat)
    requires Spread(m.Keys, lvl, d)
    requires Canon(m, lvl, d) == LeafKey(key, v)
    ensures m == map[key := v]
  {
    Trichotomy(m);
    if Many(m) {
      CanonMany(m, lvl, d);
    }
  }

  // Exclusion: an empty slot, or another key's leaf, on the key's path shows the key is absent.
  lemma ExclusionSound(m: Leaves, key: nat, other: Option<(nat, Fr)>, siblings: seq<Fr>, d: nat)
    requires Spread(m.Keys, 0, d)
    requires other.Some? ==> other.value.0 != key
    requires Canon(m, 0, d) ==
      Fold(if other.Some? then LeafKey(other.value.0, other.value.1) else ZERO, key, siblings, 0)
    ensures key !in m
    ensures Along(m, key, 0, |siblings|) == if other.Some? then map[other.value.0 := other.value.1] else map[]
  {
    var x := if other.Some? then LeafKey(other.value.0, other.value.1) else ZERO;
    FoldOpens(m, key, x, siblings, 0, d);
    var a := Along(m, key, 0, |siblings|);
    if other.Some? {
      LeafOpens(a, other.value.0, other.value.1, |siblings|, d);
    } else {
      CanonZero(a, |siblings|, d);
    }
    assert key in m ==> key in a;
  }
}
