// Whole histories of one in-memory tree: every root ever reached is the canonical root of its
// map, and the store goes on holding that map whatever is done later.

module TreeHistory {
  import opened Field
  import opened Keys
  import opened Canonical
  import opened NodeStores
  import opened SparseMerkle
  import opened Rocks

  // ---- What a root means to a reader of the store ----

  // All leaves met by following the nodes down from h.
  function ReadTree(nodes: Nodes, h: Fr, levels: nat): Leaves
    decreases levels
  {
    if h !in nodes then map[]
    else match nodes[h]
      case Leaf(k, v) => map[k := v]
      case Middle(l, r) => if levels == 0 then map[] else ReadTree(nodes, l, levels - 1) + ReadTree(nodes, r, levels - 1)
  }

  lemma HalvesJoin(m: Leaves, lvl: nat)
    ensures Half(m, lvl, false) + Half(m, lvl, true) == m
  {
  }

  // A store holding a canonical root holds exactly its map.
  lemma {:induction false} StoreDenotes(nodes: Nodes, m: Leaves, lvl: nat, d: nat)
    requires WellFormed(nodes) && lvl <= d && Spread(m.Keys, lvl, d) && Held(nodes, Canon(m, lvl, d))
    ensures ReadTree(nodes, Canon(m, lvl, d), d - lvl) == m
    decreases d - lvl
  {
    hide Canon, Spread, Half;
    Trichotomy(m);
    if m == map[] {
      CanonEmpty(lvl, d);
    } else if Many(m) {
      CanonMany(m, lvl, d);
      HalfSpread(m, lvl, d, false);
      HalfSpread(m, lvl, d, true);
      StoreDenotes(nodes, Half(m, lvl, false), lvl + 1, d);
      StoreDenotes(nodes, Half(m, lvl, true), lvl + 1, d);
      HalvesJoin(m, lvl);
    } else {
      var k: nat :| Single(m, k);
      CanonSingle(m, k, lvl, d);
      assert m == map[k := m[k]];
    }
  }

  // A root keeps its meaning in any store that grew from one where it stood.
  lemma RootPersists(before: Nodes, after: Nodes, root: Fr, m: Leaves, d: nat)
    requires Stands(before, root, m, d) && Grows(before, after) && WellFormed(after)
    ensures Stands(after, root, m, d)
    ensures ReadTree(after, root, d) == ReadTree(before, root, d) == m
  {
    StoreDenotes(before, m, 0, d);
    StoreDenotes(after, m, 0, d);
  }

  // ---- Histories ----

  datatype Op = Op(how: Mutation, key: nat, val: Fr)

  ghost function MapAfter(ops: seq<Op>, d: nat): Leaves {
    if ops == [] then map[]
    else
      var m, op := MapAfter(ops[..|ops| - 1], d), ops[|ops| - 1];
      if Succeeds(m, op.how, op.key, d) then m[op.key := op.val] else m
  }

  lemma MapAfterSnoc(ops: seq<Op>, op: Op, d: nat)
    ensures var m := MapAfter(ops, d);
      MapAfter(ops + [op], d) == if Succeeds(m, op.how, op.key, d) then m[op.key := op.val] else m
  {
    assert (ops + [op])[..|ops|] == ops;
  }

  // The root reached after some of the operations still stands for the map it was reached with.
  ghost predicate RootOf(nodes: Nodes, root: Fr, ops: seq<Op>, d: nat) {
    Stands(nodes, root, MapAfter(ops, d), d) && ReadTree(nodes, root, d) == MapAfter(ops, d)
  }

  // One operation, from the state some operations led to.
  method Operate(tree: SparseMerkleTree, op: Op, ghost ops: seq<Op>) returns (ok: bool)
    requires tree.Valid() && !tree.store.staged && tree.leaves == MapAfter(ops, tree.depth)
    modifies tree, tree.store
    ensures tree.Valid() && tree.leaves == MapAfter(ops + [op], tree.depth)
    ensures ok == Succeeds(MapAfter(ops, tree.depth), op.how, op.key, tree.depth)
    ensures Grows(old(tree.store.nodes), tree.store.nodes) && WellFormed(tree.store.nodes)
    ensures RootOf(tree.store.nodes, tree.store.root, ops + [op], tree.depth)
  {
    hide Canon, Spread, WellFormed, PathNodes, Wrote, Shadowed, Succeeds, Stands, MapAfter, RootOf, Grows;
    MemAll(tree);
    ok := Mutate(tree, op.how, op.key, op.val);
    MemAll(tree);
    MapAfterSnoc(ops, op, tree.depth);
    StandsNow(tree, ops + [op]);
  }

  method Replay(depth: nat, ops: seq<Op>) returns (tree: SparseMerkleTree, oks: seq<bool>, roots: seq<Fr>)
    requires depth > 0
    ensures tree.Valid() && tree.leaves == MapAfter(ops, depth)
    ensures |oks| == |ops| && forall i | 0 <= i < |ops| ::
      oks[i] == Succeeds(MapAfter(ops[..i], depth), ops[i].how, ops[i].key, depth)
    ensures |roots| == |ops| + 1 && roots[|ops|] == tree.store.root
    ensures forall i | 0 <= i <= |ops| :: RootOf(tree.store.nodes, roots[i], ops[..i], depth)
  {
    hide Canon, Spread, WellFormed, PathNodes, Wrote, Shadowed, Succeeds, Stands, ReadTree;
    var store := new NodeStore.Mem();
    NewStands(store, depth);
    tree := new SparseMerkleTree(store, depth, map[]);
    oks, roots := [], [store.root];
    StandsNow(tree, []);
    for n := 0 to |ops|
      invariant fresh(tree) && fresh(tree.store) && tree.Valid() && !tree.store.staged && tree.depth == depth
      invariant tree.leaves == MapAfter(ops[..n], depth)
      invariant |oks| == n && forall i | 0 <= i < n ::
        oks[i] == Succeeds(MapAfter(ops[..i], depth), ops[i].how, ops[i].key, depth)
      invariant |roots| == n + 1 && roots[n] == tree.store.root
      invariant forall i | 0 <= i <= n :: RootOf(tree.store.nodes, roots[i], ops[..i], depth)
    {
      hide RootOf, MapAfter, Grows;
      ghost var before := tree.store.nodes;
      assert ops[..n + 1] == ops[..n] + [ops[n]];
      var ok := Operate(tree, ops[n], ops[..n]);
      forall i | 0 <= i <= n ensures RootOf(tree.store.nodes, roots[i], ops[..i], depth) {
        RootStays(before, tree.store.nodes, roots[i], ops[..i], depth);
      }
      oks, roots := oks + [ok], roots + [tree.store.root];
    }
    assert ops[..|ops|] == ops;
  }

  lemma NewStands(store: NodeStore, d: nat)
    requires store.Valid() && store.nodes == map[] && store.batch == map[] && store.root == ZERO
    ensures Stands(store.All(), store.root, map[], d)
  {
    CanonEmpty(0, d);
  }

  // An in-memory tree reads everything it holds.
  lemma MemAll(tree: SparseMerkleTree)
    requires tree.Valid() && !tree.store.staged
    ensures tree.store.All() == tree.store.nodes && tree.Seen() == tree.leaves && WellFormed(tree.store.nodes)
  {
  }

  lemma StandsNow(tree: SparseMerkleTree, ops: seq<Op>)
    requires tree.Valid() && !tree.store.staged && tree.leaves == MapAfter(ops, tree.depth)
    ensures RootOf(tree.store.nodes, tree.store.root, ops, tree.depth)
  {
    MemAll(tree);
    RootPersists(tree.store.nodes, tree.store.nodes, tree.store.root, tree.leaves, tree.depth);
  }

  lemma RootStays(before: Nodes, after: Nodes, root: Fr, ops: seq<Op>, d: nat)
    requires RootOf(before, root, ops, d) && Grows(before, after) && WellFormed(after)
    ensures RootOf(after, root, ops, d)
  {
    RootPersists(before, after, root, MapAfter(ops, d), d);
  }

  // ---- Histories over well spread keys ----

  function KeysOf(ops: seq<Op>): set<nat> {
    set i | 0 <= i < |ops| :: ops[i].key
  }

  lemma KeysSnoc(ops: seq<Op>, op: Op)
    ensures KeysOf(ops + [op]) == KeysOf(ops) + {op.key}
  {
    var all := ops + [op];
    forall i | 0 <= i < |ops| ensures ops[i].key in KeysOf(all) {
      assert all[i] == ops[i];
    }
    assert all[|ops|].key in KeysOf(all);
  }

  lemma {:induction false} KeysWithin(ops: seq<Op>, d: nat)
    ensures MapAfter(ops, d).Keys <= KeysOf(ops)
  {
    if ops != [] {
      KeysWithin(ops[..|ops| - 1], d);
      assert ops == ops[..|ops| - 1] + [ops[|ops| - 1]];
      KeysSnoc(ops[..|ops| - 1], ops[|ops| - 1]);
    }
  }

  // With keys that differ in their low d-1 bits only presence decides: an add fails exactly on a
  // present key, an update exactly on an absent one, and an upsert never.
  lemma OnlyPresenceFails(ops: seq<Op>, n: nat, d: nat)
    requires d > 0 && n < |ops| && Spread(KeysOf(ops), 0, d - 1)
    ensures var m, op := MapAfter(ops[..n], d), ops[n];
      Succeeds(m, op.how, op.key, d) <==> op.how == Upserting || (op.how == Adding <==> op.key !in m)
  {
    var m, key := MapAfter(ops[..n], d), ops[n].key;
    KeysWithin(ops[..n], d);
    forall k | k in m && k != key ensures !SameBits(k, key, 0, d - 1) && !SameBits(k, key, 0, d) {
      var i :| 0 <= i < n && ops[..n][i].key == k;
      assert ops[i].key in KeysOf(ops) && key in KeysOf(ops);
      SameBitsShorter(k, key, d - 1, d);
    }
  }

  ghost predicate DistinctUpserts(ops: seq<Op>) {
    && (forall i | 0 <= i < |ops| :: ops[i].how == Upserting)
    && (forall i, j | 0 <= i < j < |ops| :: ops[i].key != ops[j].key)
  }

  // Each upsert is in the final map, and nothing else is.
  lemma {:induction false} UpsertsAre(ops: seq<Op>, d: nat)
    requires d > 0 && DistinctUpserts(ops) && Spread(KeysOf(ops), 0, d - 1)
    ensures var m := MapAfter(ops, d);
      m.Keys == KeysOf(ops) && forall op | op in ops :: m[op.key] == op.val
  {
    if ops != [] {
      var init, last := ops[..|ops| - 1], ops[|ops| - 1];
      assert ops == init + [last];
      KeysSnoc(init, last);
      OnlyPresenceFails(ops, |ops| - 1, d);
      UpsertsAre(init, d);
      forall op | op in ops ensures MapAfter(ops, d)[op.key] == op.val {
        if op != last {
          assert op in init;
        }
      }
    }
  }

  // Leaves may be written in any order: the root is the same.
  lemma OrderIndependent(a: seq<Op>, b: seq<Op>, d: nat)
    requires d > 0 && multiset(a) == multiset(b)
    requires DistinctUpserts(a) && DistinctUpserts(b) && Spread(KeysOf(a), 0, d - 1)
    ensures MapAfter(a, d) == MapAfter(b, d)
    ensures Canon(MapAfter(a, d), 0, d) == Canon(MapAfter(b, d), 0, d)
  {
    hide Canon, Spread, MapAfter, DistinctUpserts;
    forall op: Op ensures op in a <==> op in b {
      assert op in multiset(a) <==> op in multiset(b);
    }
    SameKeys(a, b);
    SameKeys(b, a);
    assert KeysOf(a) == KeysOf(b);
    UpsertsAre(a, d);
    UpsertsAre(b, d);
    SameMaps(a, MapAfter(a, d), MapAfter(b, d));
  }

  lemma SameMaps(ops: seq<Op>, x: Leaves, y: Leaves)
    requires x.Keys == y.Keys == KeysOf(ops)
    requires forall op | op in ops :: x[op.key] == op.val == y[op.key]
    ensures x == y
  {
    forall k | k in x ensures x[k] == y[k] {
      var i :| 0 <= i < |ops| && ops[i].key == k;
      assert ops[i] in ops;
    }
  }

  lemma SameKeys(a: seq<Op>, b: seq<Op>)
    requires forall op | op in a :: op in b
    ensures KeysOf(a) <= KeysOf(b)
  {
    forall i | 0 <= i < |a| ensures a[i].key in KeysOf(b) {
      assert a[i] in b;
    }
  }
}
