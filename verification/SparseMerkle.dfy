// The sparse Merkle tree: insertion, update and proofs, each proved against the canonical
// root of the map the tree stands for.

module SparseMerkle {
  import opened Field
  import opened Keys
  import opened Canonical
  import opened NodeStores

  // OutOfRange is the panic of an index past the end of the path.
  datatype Result<+T> = Ok(value: T) | AlreadyPresent | KeyNotFound | OutOfRange

  datatype CircomProof = CircomProof(
    siblings: seq<Fr>, isOld0: bool, oldKey: nat, oldValue: Fr, membership: bool)

  function PathOf(key: nat, depth: nat): (path: seq<bool>)
    ensures |path| == depth
    ensures forall i | 0 <= i < depth :: path[i] == Bit(key, i)
  {
    seq(depth, i requires 0 <= i => Bit(key, i))
  }

  // Some other key of the tree takes the same turns at levels i..j-1.
  ghost predicate Shadowed(keys: set<nat>, key: nat, i: nat, j: nat) {
    exists k :: k in keys && k != key && SameBits(k, key, i, j)
  }

  // The store holds the whole tree of m, under its canonical root.
  ghost predicate Stands(nodes: Nodes, root: Fr, m: Leaves, d: nat) {
    WellFormed(nodes) && Held(nodes, root) && Spread(m.Keys, 0, d) && root == Canon(m, 0, d)
  }

  function Zeros(n: nat): (z: seq<Fr>)
    ensures |z| == n
  {
    seq(n, _ => ZERO)
  }

  // What a proof for key says: where its path stops, the hashes beside it, and the leaf met.
  ghost predicate ProofOf(p: CircomProof, m: Leaves, key: nat, n: nat, d: nat) {
    var met := Along(m, key, 0, n);
    && n <= d && |p.siblings| == d
    && p.siblings[n..] == Zeros(d - n)
    && (n > 0 ==> p.siblings[n - 1] != ZERO && Many(Along(m, key, 0, n - 1)))
    && !Many(met)
    && Canon(m, 0, d) == Fold(Canon(met, n, d), key, p.siblings[..n], 0)
    && (if n < d && met != map[] then
          && met == map[p.oldKey := p.oldValue]
          && p.isOld0 == (p.oldKey == 0)
          && p.membership == (p.oldKey == key)
        else
          p.isOld0 && p.oldKey == 0 && p.oldValue == ZERO && !p.membership)
  }

  lemma PairSpread(a: nat, x: Fr, b: nat, y: Fr, lvl: nat, d: nat)
    requires a != b && !SameBits(a, b, lvl, d)
    ensures var m := map[a := x][b := y]; Many(m) && Spread(m.Keys, lvl, d)
  {
    var m := map[a := x][b := y];
    assert a in m && b in m && m.Keys == {a, b};
    assert SameBits(a, b, lvl, d) == SameBits(b, a, lvl, d);
  }

  lemma PairHalves(a: nat, x: Fr, b: nat, y: Fr, lvl: nat)
    requires a != b
    ensures var m := map[a := x][b := y];
      if Bit(a, lvl) == Bit(b, lvl) then Half(m, lvl, Bit(b, lvl)) == m && Half(m, lvl, !Bit(b, lvl)) == map[]
      else Half(m, lvl, Bit(b, lvl)) == map[b := y] && Half(m, lvl, !Bit(b, lvl)) == map[a := x]
  {
    hide Bit;
  }

  lemma PairCanon(a: nat, x: Fr, b: nat, y: Fr, lvl: nat, d: nat)
    requires a != b && !SameBits(a, b, lvl, d)
    ensures lvl < d
    ensures var m := map[a := x][b := y];
      && Spread(m.Keys, lvl, d)
      && Canon(m, lvl, d) ==
         if Bit(a, lvl) == Bit(b, lvl) then
           var below := Canon(m, lvl + 1, d);
           if Bit(b, lvl) then MidKey(ZERO, below) else MidKey(below, ZERO)
         else if Bit(b, lvl) then MidKey(LeafKey(a, x), LeafKey(b, y))
         else MidKey(LeafKey(b, y), LeafKey(a, x))
  {
    hide Canon, Spread, SameBits, Bit, Half, Many;
    PairSpread(a, x, b, y, lvl, d);
    CanonMany(map[a := x][b := y], lvl, d);
    PairHalves(a, x, b, y, lvl);
    CanonEmpty(lvl + 1, d);
    CanonSingle(map[a := x], a, lvl + 1, d);
    CanonSingle(map[b := y], b, lvl + 1, d);
  }

  // Spelled out for an even and an odd key: leaf hashes of key, value and one, the even key's first.
  lemma TwoLeaves(a: nat, x: Fr, b: nat, y: Fr, d: nat)
    requires a % 2 == 0 && b % 2 == 1 && d > 0
    ensures Canon(map[a := x][b := y], 0, d) == Hash2(Hash3(Num(a), x, Num(1)), Hash3(Num(b), y, Num(1)))
    ensures Canon(map[], 0, d) == Num(0) && Canon(map[a := x], 0, d) == Hash3(Num(a), x, Num(1))
  {
    BinaryDigits(a, 0);
    BinaryDigits(b, 0);
    assert !SameBits(a, b, 0, d);
    PairCanon(a, x, b, y, 0, d);
    CanonEmpty(0, d);
    CanonSingle(map[a := x], a, 0, d);
  }

  // The nodes on the way from level lvl down to key's leaf.
  ghost function PathNodes(m: Leaves, key: nat, lvl: nat, d: nat): Nodes
    requires key in m
    decreases d - lvl
  {
    if !Many(m) || lvl >= d then map[LeafKey(key, m[key]) := Leaf(key, m[key])]
    else
      PathNodes(Half(m, lvl, Bit(key, lvl)), key, lvl + 1, d)
      [Canon(m, lvl, d) := Middle(Canon(Half(m, lvl, false), lvl + 1, d), Canon(Half(m, lvl, true), lvl + 1, d))]
  }

  lemma PathSingle(m: Leaves, key: nat, lvl: nat, d: nat)
    requires Single(m, key)
    ensures PathNodes(m, key, lvl, d) == map[LeafKey(key, m[key]) := Leaf(key, m[key])]
  {
  }

  lemma PathUpdate(m: Leaves, key: nat, v: Fr, lvl: nat, d: nat)
    requires Many(m) && Spread(m.Keys, lvl, d) && Spread(m.Keys + {key}, lvl, d)
    ensures lvl < d
    ensures var bit := Bit(key, lvl);
      var h := Half(m, lvl, bit)[key := v];
      var fresher, kept := Canon(h, lvl + 1, d), Canon(Half(m, lvl, !bit), lvl + 1, d);
      var n := if bit then Middle(kept, fresher) else Middle(fresher, kept);
      PathNodes(m[key := v], key, lvl, d) == PathNodes(h, key, lvl + 1, d)[n.Key() := n]
  {
    CanonMany(m, lvl, d);
    var m' := m[key := v];
    assert m'.Keys == m.Keys + {key} && Many(m');
    CanonMany(m', lvl, d);
    HalfUpdate(m, key, v, lvl);
  }

  lemma PairPath(a: nat, x: Fr, b: nat, y: Fr, lvl: nat, d: nat)
    requires a != b && !SameBits(a, b, lvl, d)
    ensures lvl < d
    ensures var m := map[a := x][b := y];
      PathNodes(m, b, lvl, d) ==
        if Bit(a, lvl) == Bit(b, lvl) then
          var below := Canon(m, lvl + 1, d);
          var n := if Bit(b, lvl) then Middle(ZERO, below) else Middle(below, ZERO);
          PathNodes(m, b, lvl + 1, d)[n.Key() := n]
        else
          var n := if Bit(b, lvl) then Middle(LeafKey(a, x), LeafKey(b, y)) else Middle(LeafKey(b, y), LeafKey(a, x));
          map[LeafKey(b, y) := Leaf(b, y)][n.Key() := n]
  {
    hide Canon, Spread, SameBits, Bit, Half, Many;
    PairCanon(a, x, b, y, lvl, d);
    PairSpread(a, x, b, y, lvl, d);
    CanonMany(map[a := x][b := y], lvl, d);
    PairHalves(a, x, b, y, lvl);
    PathSingle(map[b := y], b, lvl + 1, d);
  }

  // The nodes named by a fold from key's own leaf, that leaf included.
  ghost function FoldNodes(v: Fr, key: nat, siblings: seq<Fr>, lvl: nat): Nodes
    decreases |siblings|
  {
    if siblings == [] then map[LeafKey(key, v) := Leaf(key, v)]
    else
      var below := Fold(LeafKey(key, v), key, siblings[1..], lvl + 1);
      var n := if Bit(key, lvl) then Middle(siblings[0], below) else Middle(below, siblings[0]);
      FoldNodes(v, key, siblings[1..], lvl + 1)[n.Key() := n]
  }

  // When a fold reaches the root of m from key's own leaf, its nodes are key's path.
  lemma {:induction false} FoldNodesArePath(m: Leaves, key: nat, siblings: seq<Fr>, lvl: nat, d: nat)
    requires key in m && Spread(m.Keys, lvl, d)
    requires Canon(m, lvl, d) == Fold(LeafKey(key, m[key]), key, siblings, lvl)
    ensures PathNodes(m, key, lvl, d) == FoldNodes(m[key], key, siblings, lvl)
    decreases |siblings|
  {
    hide Canon, Spread, Bit, SameBits;
    if siblings == [] {
      LeafOpens(m, key, m[key], lvl, d);
      PathSingle(m, key, lvl, d);
    } else {
      CanonIsMiddle(m, lvl, d);
      HalfKeeps(m, key, lvl);
      FoldNodesArePath(Half(m, lvl, Bit(key, lvl)), key, siblings[1..], lvl + 1, d);
    }
  }

  // The store after exactly these nodes were written to it.
  ghost predicate Wrote(before: Nodes, written: Nodes, after: Nodes) {
    after == before + written
  }

  lemma WroteOne(before: Nodes, n: Node)
    ensures Wrote(before, map[n.Key() := n], before[n.Key() := n])
  {
  }

  lemma WroteMore(before: Nodes, written: Nodes, mid: Nodes, n: Node)
    requires Wrote(before, written, mid)
    ensures Wrote(before, written[n.Key() := n], mid[n.Key() := n])
  {
  }

  lemma ShadowedBelow(m: Leaves, key: nat, lvl: nat, d: nat)
    requires lvl < d
    ensures Shadowed(m.Keys, key, lvl, d) <==> Shadowed(Half(m, lvl, Bit(key, lvl)).Keys, key, lvl + 1, d)
  {
    var h := Half(m, lvl, Bit(key, lvl));
    if Shadowed(m.Keys, key, lvl, d) {
      var k :| k in m && k != key && SameBits(k, key, lvl, d);
      assert k in h && SameBits(k, key, lvl + 1, d);
    }
    if Shadowed(h.Keys, key, lvl + 1, d) {
      var k :| k in h && k != key && SameBits(k, key, lvl + 1, d);
      assert SameBits(k, key, lvl, d);
    }
  }

  lemma SpreadAdds(keys: set<nat>, key: nat, i: nat, j: nat)
    requires Spread(keys, i, j)
    ensures Spread(keys + {key}, i, j) <==> key in keys || !Shadowed(keys, key, i, j)
  {
    if key in keys {
      assert keys + {key} == keys;
    } else if Spread(keys + {key}, i, j) {
      forall k | k in keys ensures !SameBits(k, key, i, j) {
      }
    } else {
      var a, b :| a in keys + {key} && b in keys + {key} && a != b && SameBits(a, b, i, j);
      assert SameBits(b, a, i, j);
      if a in keys && b in keys {
        assert false;
      }
    }
  }

  // A walk down from the root of m along key, i levels deep and now at the node `cur`.
  ghost predicate Walk(m: Leaves, key: nat, i: nat, cur: Fr, siblings: seq<Fr>, d: nat) {
    var met := Along(m, key, 0, i);
    && i <= d && |siblings| == i
    && Spread(met.Keys, i, d) && cur == Canon(met, i, d)
    && Canon(m, 0, d) == Fold(cur, key, siblings, 0)
    && (i > 0 ==> Many(Along(m, key, 0, i - 1)))
    && (i > 0 && siblings[i - 1] == ZERO ==> Many(met))
  }

  lemma WalkStarts(m: Leaves, key: nat, d: nat)
    requires Spread(m.Keys, 0, d)
    ensures Walk(m, key, 0, Canon(m, 0, d), [], d)
  {
    AlongNone(m, key, 0);
  }

  lemma WalkDown(m: Leaves, key: nat, i: nat, l: Fr, r: Fr, siblings: seq<Fr>, d: nat)
    requires Walk(m, key, i, MidKey(l, r), siblings, d)
    ensures Walk(m, key, i + 1, if Bit(key, i) then r else l, siblings + [if Bit(key, i) then l else r], d)
  {
    var met, bit := Along(m, key, 0, i), Bit(key, i);
    var beside, next := if bit then l else r, if bit then r else l;
    CanonIsMiddle(met, i, d);
    AlongLast(m, key, 0, i);
    FoldSnoc(next, key, siblings, beside, 0);
    hide Canon, Spread, Bit, SameBits, Along, Walk, Half, Many;
    assert Fold(next, key, [beside], i) == MidKey(l, r) by {
      assert [beside][1..] == [];
    }
    if beside == ZERO {
      CanonZero(Half(met, i, !bit), i + 1, d);
      OneHalf(met, i, bit);
    }
    WalkDownIntro(m, key, i, next, siblings + [beside], d);
  }

  lemma OneHalf(m: Leaves, lvl: nat, bit: bool)
    requires Half(m, lvl, !bit) == map[]
    ensures Half(m, lvl, bit) == m
  {
    forall k | k in m ensures Bit(k, lvl) == bit {
      assert k in Half(m, lvl, !bit) || Bit(k, lvl) == bit;
    }
  }

  lemma WalkDownIntro(m: Leaves, key: nat, i: nat, next: Fr, siblings: seq<Fr>, d: nat)
    requires i < d && |siblings| == i + 1
    requires Spread(Along(m, key, 0, i + 1).Keys, i + 1, d) && next == Canon(Along(m, key, 0, i + 1), i + 1, d)
    requires Canon(m, 0, d) == Fold(next, key, siblings, 0)
    requires Many(Along(m, key, 0, i)) && (siblings[i] == ZERO ==> Many(Along(m, key, 0, i + 1)))
    ensures Walk(m, key, i + 1, next, siblings, d)
  {
    hide Canon, Along, Spread;
  }

  // Whether another key shadows this one shows in how many leaves share its turns.
  lemma ShadowedAlong(m: Leaves, key: nat, i: nat)
    requires key in m
    ensures Shadowed(m.Keys, key, 0, i) <==> Many(Along(m, key, 0, i))
  {
    var met := Along(m, key, 0, i);
    assert key in met;
    if Many(met) {
      var a, b :| a in met && b in met && a != b;
      assert Shadowed(m.Keys, key, 0, i) by {
        assert a != key || b != key;
      }
    }
    if Shadowed(m.Keys, key, 0, i) {
      var k :| k in m && k != key && SameBits(k, key, 0, i);
      assert k in met;
    }
  }

  lemma AlongKeeps(m: Leaves, key: nat, i: nat)
    ensures key in Along(m, key, 0, i) <==> key in m
    ensures key in m ==> Along(m, key, 0, i)[key] == m[key]
  {
  }

  lemma ShadowedLonger(keys: set<nat>, key: nat, i: nat, j: nat)
    requires i <= j && Shadowed(keys, key, 0, j)
    ensures Shadowed(keys, key, 0, i)
  {
    var k :| k in keys && k != key && SameBits(k, key, 0, j);
    assert SameBits(k, key, 0, i);
  }

  lemma SpreadEmpty(m: Leaves, i: nat, j: nat)
    requires m == map[]
    ensures Spread(m.Keys, i, j)
  {
  }

  lemma SpreadStops(m: Leaves, d: nat)
    requires Spread(m.Keys, d, d)
    ensures !Many(m)
  {
    forall a, b | a in m && b in m && a != b ensures false {
      assert SameBits(a, b, d, d);
    }
  }

  class SparseMerkleTree {
    const store: NodeStore
    const depth: nat
    ghost var leaves: Leaves

    // The tree stands for `leaves`.
    ghost predicate Valid()
      reads this, store
    {
      depth > 0 && store.Valid() && Stands(store.All(), store.root, leaves, depth)
    }

    // What reads see: the tree, unless its root still waits in the batch, and then nothing.
    ghost function Seen(): Leaves
      reads this, store
    {
      if Held(store.nodes, store.root) then leaves else map[]
    }

    constructor (store: NodeStore, depth: nat, ghost leaves: Leaves)
      requires depth > 0 && store.Valid() && Stands(store.All(), store.root, leaves, depth)
      ensures this.store == store && this.depth == depth && this.leaves == leaves
      ensures Valid()
    {
      this.store, this.depth, this.leaves := store, depth, leaves;
    }

    method PushLeaf(k: nat, v: Fr, oldK: nat, oldV: Fr, lvl: nat, path: seq<bool>, pathOld: seq<bool>)
      returns (r: Result<Fr>)
      requires store.Valid() && LeafKey(oldK, oldV) in store.All()
      requires k != oldK && lvl <= depth && path == PathOf(k, depth) && pathOld == PathOf(oldK, depth)
      modifies store`nodes, store`batch
      ensures store.Valid() && Grows(old(store.All()), store.All())
      ensures store.staged ==> store.nodes == old(store.nodes)
      ensures r == if SameBits(oldK, k, lvl, depth) then OutOfRange
                   else Ok(Canon(map[oldK := oldV][k := v], lvl, depth))
      ensures r.Ok? ==> r.value in store.All()
      ensures r.Ok? ==> Wrote(old(store.All()), PathNodes(map[oldK := oldV][k := v], k, lvl, depth), store.All())
      ensures !r.Ok? ==> store.nodes == old(store.nodes) && store.batch == old(store.batch)
      decreases depth - lvl
    {
      hide Canon, Spread, WellFormed, Bit, PathNodes, Wrote;
      ghost var before := store.All();
      if lvl >= depth {
        return OutOfRange;
      }
      if !SameBits(oldK, k, lvl, depth) {
        PairCanon(oldK, oldV, k, v, lvl, depth);
        PairPath(oldK, oldV, k, v, lvl, depth);
      }
      if path[lvl] == pathOld[lvl] {
        assert SameBits(oldK, k, lvl, depth) == SameBits(oldK, k, lvl + 1, depth);
        r := PushLeaf(k, v, oldK, oldV, lvl + 1, path, pathOld);
        if r.Ok? {
          var mid := if path[lvl] then Middle(ZERO, r.value) else Middle(r.value, ZERO);
          WroteMore(before, PathNodes(map[oldK := oldV][k := v], k, lvl + 1, depth), store.All(), mid);
          var h := store.Put(mid);
          r := Ok(h);
        }
      } else {
        var newKey := store.Put(Leaf(k, v));
        var oldKey := LeafKey(oldK, oldV);
        var mid := if path[lvl] then Middle(oldKey, newKey) else Middle(newKey, oldKey);
        WroteOne(before, Leaf(k, v));
        WroteMore(before, map[newKey := Leaf(k, v)], store.All(), mid);
        var h := store.Put(mid);
        r := Ok(h);
      }
    }

    method AddLeaf(k: nat, v: Fr, cur: Fr, lvl: nat, path: seq<bool>, ghost m: Leaves)
      returns (r: Result<Fr>)
      requires store.Valid() && lvl <= depth && path == PathOf(k, depth)
      requires Spread(m.Keys, lvl, depth)
      requires if Held(store.nodes, cur) then cur == Canon(m, lvl, depth) else m == map[]
      modifies store`nodes, store`batch
      ensures store.Valid() && Grows(old(store.All()), store.All())
      ensures store.staged ==> store.nodes == old(store.nodes)
      ensures r == if k in m then AlreadyPresent
                   else if Shadowed(m.Keys, k, lvl, depth) then OutOfRange
                   else Ok(Canon(m[k := v], lvl, depth))
      ensures r.Ok? ==> r.value in store.All()
      ensures r.Ok? ==> Wrote(old(store.All()), PathNodes(m[k := v], k, lvl, depth), store.All())
      ensures !r.Ok? ==> store.nodes == old(store.nodes) && store.batch == old(store.batch)
      decreases depth - lvl
    {
      hide Canon, Spread, Bit, SameBits, Half, PathNodes, Wrote;
      ghost var before := store.All();
      var n := store.Get(cur);
      Trichotomy(m);
      SpreadAdds(m.Keys, k, lvl, depth);
      match n {
        case None =>
          if cur == ZERO {
            CanonZero(m, lvl, depth);
          }
          PathSingle(m[k := v], k, lvl, depth);
          assert map[][k := v] == m[k := v];
          CanonSingle(m[k := v], k, lvl, depth);
          WroteOne(before, Leaf(k, v));
          var h := store.Put(Leaf(k, v));
          r := Ok(h);
        case Some(Leaf(oldK, oldV)) =>
          LeafOpens(m, oldK, oldV, lvl, depth);
          if k == oldK {
            return AlreadyPresent;
          }
          r := PushLeaf(k, v, oldK, oldV, lvl, path, PathOf(oldK, depth));
        case Some(Middle(left, right)) =>
          CanonIsMiddle(m, lvl, depth);
          ShadowedBelow(m, k, lvl, depth);
          HalfKeeps(m, k, lvl);
          ghost var h := Half(m, lvl, path[lvl]);
          if Spread(m.Keys + {k}, lvl, depth) {
            CanonUpdate(m, k, v, lvl, depth);
            PathUpdate(m, k, v, lvl, depth);
          }
          r := AddLeaf(k, v, if path[lvl] then right else left, lvl + 1, path, h);
          if r.Ok? {
            var mid := if path[lvl] then Middle(left, r.value) else Middle(r.value, right);
            WroteMore(before, PathNodes(h[k := v], k, lvl + 1, depth), store.All(), mid);
            var hash := store.Put(mid);
            r := Ok(hash);
          }
      }
    }

    // Insert a new leaf.
    method Add(key: nat, val: Fr) returns (r: Result<()>)
      requires Valid()
      modifies this, store
      ensures Valid() && Grows(old(store.All()), store.All())
      ensures store.staged ==> store.nodes == old(store.nodes)
      ensures r == if key in old(Seen()) then AlreadyPresent
                   else if Shadowed(old(Seen()).Keys, key, 0, depth) then OutOfRange
                   else Ok(())
      ensures leaves == if r.Ok? then old(Seen())[key := val] else old(leaves)
      ensures r.Ok? ==> Wrote(old(store.All()), PathNodes(leaves, key, 0, depth), store.All())
      ensures !r.Ok? ==> store.nodes == old(store.nodes) && store.batch == old(store.batch) && store.root == old(store.root)
      ensures !store.staged ==> Seen() == leaves
    {
      hide Canon, Spread, Bit, SameBits, WellFormed, PathNodes, Wrote, Shadowed;
      ghost var seen := Seen();
      if seen == map[] {
        SpreadEmpty(seen, 0, depth);
      }
      CanonEmpty(0, depth);
      var added := AddLeaf(key, val, store.root, 0, PathOf(key, depth), seen);
      match added {
        case Ok(newRoot) =>
          SpreadAdds(seen.Keys, key, 0, depth);
          assert seen[key := val].Keys == seen.Keys + {key};
          leaves := seen[key := val];
          store.root := newRoot;
          r := Ok(());
        case AlreadyPresent => r := AlreadyPresent;
        case KeyNotFound => r := KeyNotFound;
        case OutOfRange => r := OutOfRange;
      }
    }

    lemma WalkSeen(key: nat)
      requires Valid()
      ensures Walk(Seen(), key, 0, if store.root in store.nodes then store.root else ZERO, [], depth)
    {
      CanonEmpty(0, depth);
      WalkStarts(Seen(), key, depth);
    }

    // Write the leaf and every middle node above it, and move the root there.
    method WriteUp(key: nat, val: Fr, siblings: seq<Fr>, path: seq<bool>)
      requires store.Valid() && path == PathOf(key, depth) && |siblings| <= depth
      requires forall j | 0 <= j < |siblings| :: Held(store.nodes, siblings[j])
      modifies store
      ensures store.Valid() && Grows(old(store.All()), store.All())
      ensures store.staged ==> store.nodes == old(store.nodes)
      ensures store.root == Fold(LeafKey(key, val), key, siblings, 0) && store.root in store.All()
      ensures Wrote(old(store.All()), FoldNodes(val, key, siblings, 0), store.All())
    {
      hide Bit, WellFormed, Wrote;
      ghost var before := store.All();
      WroteOne(before, Leaf(key, val));
      var nodeHash := store.Put(Leaf(key, val));
      var lvl := |siblings|;
      while lvl > 0
        invariant 0 <= lvl <= |siblings|
        invariant store.Valid() && Grows(old(store.All()), store.All())
        invariant store.staged ==> store.nodes == old(store.nodes)
        invariant nodeHash == Fold(LeafKey(key, val), key, siblings[lvl..], lvl) && nodeHash in store.All()
        invariant Wrote(old(store.All()), FoldNodes(val, key, siblings[lvl..], lvl), store.All())
      {
        lvl := lvl - 1;
        assert siblings[lvl..][1..] == siblings[lvl + 1..];
        var sib := siblings[lvl];
        var mid := if path[lvl] then Middle(sib, nodeHash) else Middle(nodeHash, sib);
        WroteMore(before, FoldNodes(val, key, siblings[lvl + 1..], lvl + 1), store.All(), mid);
        nodeHash := store.Put(mid);
      }
      assert siblings[0..] == siblings;
      store.root := nodeHash;
    }

    // The leaf was met: write it with the new value and everything above it.
    method Rewrite(key: nat, val: Fr, v: Fr, siblings: seq<Fr>, path: seq<bool>, ghost seen: Leaves)
      requires Valid() && seen == Seen() && path == PathOf(key, depth)
      requires |siblings| < depth && Walk(seen, key, |siblings|, LeafKey(key, v), siblings, depth)
      requires forall j | 0 <= j < |siblings| :: Held(store.nodes, siblings[j])
      modifies this, store
      ensures Valid() && Grows(old(store.All()), store.All())
      ensures store.staged ==> store.nodes == old(store.nodes)
      ensures key in seen && seen[key] == v && !Shadowed(seen.Keys, key, 0, depth - 1)
      ensures leaves == seen[key := val]
      ensures Wrote(old(store.All()), PathNodes(leaves, key, 0, depth), store.All())
      ensures !store.staged ==> Seen() == leaves
    {
      hide Canon, Spread, Bit, SameBits, Along, WellFormed, PathNodes, FoldNodes, Wrote;
      ghost var i, met := |siblings|, Along(seen, key, 0, |siblings|);
      LeafOpens(met, key, v, i, depth);
      AlongKeeps(seen, key, i);
      ShadowedAlong(seen, key, i);
      if Shadowed(seen.Keys, key, 0, depth - 1) {
        ShadowedLonger(seen.Keys, key, i, depth - 1);
      }
      assert seen.Keys + {key} == seen.Keys;
      FoldReplaces(seen, key, val, LeafKey(key, v), siblings, 0, depth);
      CanonSingle(map[key := val], key, i, depth);
      assert met[key := val] == map[key := val];
      WriteUp(key, val, siblings, path);
      assert seen[key := val].Keys == seen.Keys;
      FoldNodesArePath(seen[key := val], key, siblings, 0, depth);
      leaves := seen[key := val];
    }

    // Update an existing leaf's value, returning the previous value.
    method Update(key: nat, val: Fr) returns (r: Result<Fr>)
      requires Valid()
      modifies this, store
      ensures Valid() && Grows(old(store.All()), store.All())
      ensures store.staged ==> store.nodes == old(store.nodes)
      ensures r == if key in old(Seen()) && !Shadowed(old(Seen()).Keys, key, 0, depth - 1)
                   then Ok(old(Seen())[key]) else KeyNotFound
      ensures leaves == if r.Ok? then old(Seen())[key := val] else old(leaves)
      ensures r.Ok? ==> Wrote(old(store.All()), PathNodes(leaves, key, 0, depth), store.All())
      ensures !r.Ok? ==> store.nodes == old(store.nodes) && store.batch == old(store.batch) && store.root == old(store.root)
      ensures !store.staged ==> Seen() == leaves
    {
      hide Canon, Spread, Bit, SameBits, Along, WellFormed, PathNodes, FoldNodes, Wrote;
      var cur, siblings, path, i := store.root, [], PathOf(key, depth), 0;
      ghost var seen := Seen();
      WalkSeen(key);
      while i < depth
        invariant i <= depth && Walk(seen, key, i, if cur in store.nodes then cur else ZERO, siblings, depth)
        invariant unchanged(this) && unchanged(store)
        invariant forall j | 0 <= j < i :: Held(store.nodes, siblings[j])
      {
        ghost var met := Along(seen, key, 0, i);
        var n := store.Get(cur);
        match n {
          case None =>
            CanonZero(met, i, depth);
            AlongKeeps(seen, key, i);
            return KeyNotFound;
          case Some(Leaf(k, v)) =>
            if k != key {
              LeafOpens(met, k, v, i, depth);
              AlongKeeps(seen, key, i);
              return KeyNotFound;
            }
            Rewrite(key, val, v, siblings, path, seen);
            r := Ok(v);
            return;
          case Some(Middle(l, r)) =>
            WalkDown(seen, key, i, l, r, siblings, depth);
            if path[i] {
              siblings, cur := siblings + [l], r;
            } else {
              siblings, cur := siblings + [r], l;
            }
        }
        i := i + 1;
      }
      if key in seen {
        ShadowedAlong(seen, key, depth - 1);
      }
      r := KeyNotFound;
    }

    // Insert or update.
    method AddOrUpdate(key: nat, val: Fr) returns (r: Result<()>)
      requires Valid()
      modifies this, store
      ensures Valid() && Grows(old(store.All()), store.All())
      ensures store.staged ==> store.nodes == old(store.nodes)
      ensures r == if key in old(Seen())
                   then if Shadowed(old(Seen()).Keys, key, 0, depth - 1) then KeyNotFound else Ok(())
                   else if Shadowed(old(Seen()).Keys, key, 0, depth) then OutOfRange else Ok(())
      ensures leaves == if r.Ok? then old(Seen())[key := val] else old(leaves)
      ensures r.Ok? ==> Wrote(old(store.All()), PathNodes(leaves, key, 0, depth), store.All())
      ensures !r.Ok? ==> store.nodes == old(store.nodes) && store.batch == old(store.batch) && store.root == old(store.root)
      ensures !store.staged ==> Seen() == leaves
    {
      r := Add(key, val);
      if r.AlreadyPresent? {
        var u := Update(key, val);
        r := if u.Ok? then Ok(()) else KeyNotFound;
      }
    }

    // Build a proof of inclusion or non-inclusion, n being how many levels its path descends.
    method GetProof(key: nat) returns (p: CircomProof)
      requires Valid()
      ensures exists n: nat :: ProofOf(p, Seen(), key, n, depth)
    {
      hide Canon, Spread, Bit, SameBits, Along, WellFormed;
      var siblings, siblingI, cur, path, i := Zeros(depth), 0, store.root, PathOf(key, depth), 0;
      ghost var seen := Seen();
      WalkSeen(key);
      while i < depth
        invariant i == siblingI < depth == |siblings|
        invariant siblings[i..] == Zeros(depth - i)
        invariant Walk(seen, key, i, if cur in store.nodes then cur else ZERO, siblings[..i], depth)
      {
        ghost var met := Along(seen, key, 0, i);
        var node := store.Get(cur);
        match node {
          case None =>
            CanonZero(met, i, depth);
            p := CircomProof(siblings, true, 0, ZERO, false);
            assert ProofOf(p, Seen(), key, i, depth);
            return;
          case Some(Leaf(k, v)) =>
            LeafOpens(met, k, v, i, depth);
            assert k in met && met.Keys == {k};
            p := CircomProof(siblings, k == 0, k, v, k == key);
            assert ProofOf(p, Seen(), key, i, depth);
            return;
          case Some(Middle(l, r)) =>
            WalkDown(seen, key, i, l, r, siblings[..i], depth);
            ghost var before := siblings;
            if path[i] {
              siblings := siblings[siblingI := l];
              cur := r;
            } else {
              siblings := siblings[siblingI := r];
              cur := l;
            }
            siblingI := siblingI + 1;
            assert siblings[..i + 1] == before[..i] + [siblings[i]];
            assert siblings[i + 1..] == before[i..][1..] == Zeros(depth - i - 1);
            if i == depth - 1 {
              SpreadStops(Along(seen, key, 0, depth), depth);
              p := CircomProof(siblings, true, 0, ZERO, false);
              assert siblings[..depth] == siblings;
              assert ProofOf(p, Seen(), key, depth, depth);
              return;
            }
        }
        i := i + 1;
      }
    }
  }
}
