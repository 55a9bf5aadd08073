// The RocksDB keyspace of the node store: records under prefixed keys, loading, flushing, and
// the refinement of the in-memory store.

module Rocks {
  import opened Field
  import opened Wrappers
  import opened Canonical
  import opened NodeStores
  import opened SparseMerkle

  // A 65-byte node record (a tag byte and two words) or the 32-byte root record.
  datatype Record = NodeBytes(tag: nat, a: Fr, b: Fr) | RootBytes(root: Fr)

  function Encode(n: Node): Record {
    match n
    case Middle(l, r) => NodeBytes(0, l, r)
    case Leaf(k, v) => NodeBytes(1, Num(k), v)
  }

  function Decode(rec: Record): Option<Node> {
    match rec
    case RootBytes(_) => None
    case NodeBytes(tag, a, b) =>
      if tag == 0 then Some(Middle(a, b))
      else if tag == 1 && a.Num? && a.n >= 0 then Some(Leaf(a.n, b))
      else None
  }

  lemma RecordsRoundTrip(rec: Record, n: Node)
    ensures Decode(rec) == Some(n) <==> rec == Encode(n)
    ensures Encode(n) == if n.Middle? then NodeBytes(0, n.l, n.r) else NodeBytes(1, Num(n.k), n.v)
  {
  }

  // A 40-byte prefix keeps the states apart; the root record sits at key zero of each.
  type Prefix = seq<nat>
  type Db = map<(Prefix, Fr), Record>

  function View(db: Db, prefix: Prefix): Nodes {
    map key | key in db && key.0 == prefix && Decode(db[key]).Some? :: key.1 := Decode(db[key]).value
  }

  function LoadRoot(db: Db, prefix: Prefix): Fr {
    if (prefix, ZERO) in db && db[(prefix, ZERO)].RootBytes? then db[(prefix, ZERO)].root else ZERO
  }

  function Staged(prefix: Prefix, batch: Nodes): (records: Db)
    ensures forall p: Prefix, h: Fr {:trigger (p, h) in records} :: (p, h) in records <==> p == prefix && h in batch
    ensures forall h {:trigger batch[h]} :: h in batch ==> records[(prefix, h)] == Encode(batch[h])
  {
    map h | h in batch :: (prefix, h) := Encode(batch[h])
  }

  // Writing out the staged nodes and the staged root record.
  function Flush(db: Db, prefix: Prefix, batch: Nodes, root: Fr): Db {
    (db + Staged(prefix, batch))[(prefix, ZERO) := RootBytes(root)]
  }

  ghost predicate Loads(db: Db, prefix: Prefix, m: Leaves, d: nat) {
    Stands(View(db, prefix), LoadRoot(db, prefix), m, d)
  }

  function ReadAt(db: Db, prefix: Prefix, h: Fr): Option<Node> {
    if (prefix, h) in db then Decode(db[(prefix, h)]) else None
  }

  lemma ViewAt(db: Db, prefix: Prefix, h: Fr)
    ensures h in View(db, prefix) <==> ReadAt(db, prefix, h).Some?
    ensures h in View(db, prefix) ==> View(db, prefix)[h] == ReadAt(db, prefix, h).value
  {
  }

  lemma FlushAt(db: Db, prefix: Prefix, batch: Nodes, root: Fr, p: Prefix, h: Fr)
    requires ZERO !in batch && ReadAt(db, prefix, ZERO).None?
    ensures ReadAt(Flush(db, prefix, batch, root), p, h) ==
      if p == prefix && h in batch then Some(batch[h]) else ReadAt(db, p, h)
  {
    hide Staged;
  }

  lemma FlushHere(db: Db, prefix: Prefix, batch: Nodes, root: Fr)
    requires ZERO !in batch && ReadAt(db, prefix, ZERO).None?
    ensures View(Flush(db, prefix, batch, root), prefix) == View(db, prefix) + batch
    ensures LoadRoot(Flush(db, prefix, batch, root), prefix) == root
  {
    var after, expected := View(Flush(db, prefix, batch, root), prefix), View(db, prefix) + batch;
    forall h ensures (h in after <==> h in expected) && (h in after ==> after[h] == expected[h]) {
      hide View, Flush, ReadAt;
      ViewAt(Flush(db, prefix, batch, root), prefix, h);
      ViewAt(db, prefix, h);
      FlushAt(db, prefix, batch, root, prefix, h);
    }
  }

  lemma FlushElsewhere(db: Db, prefix: Prefix, batch: Nodes, root: Fr, p: Prefix)
    requires ZERO !in batch && ReadAt(db, prefix, ZERO).None? && p != prefix
    ensures View(Flush(db, prefix, batch, root), p) == View(db, p)
    ensures LoadRoot(Flush(db, prefix, batch, root), p) == LoadRoot(db, p)
  {
    hide Flush, LoadRoot;
    RootElsewhere(db, prefix, batch, root, p);
    var after, expected := View(Flush(db, prefix, batch, root), p), View(db, p);
    forall h ensures (h in after <==> h in expected) && (h in after ==> after[h] == expected[h]) {
      hide View, ReadAt;
      ViewAt(Flush(db, prefix, batch, root), p, h);
      ViewAt(db, p, h);
      FlushAt(db, prefix, batch, root, p, h);
    }
  }

  lemma RootElsewhere(db: Db, prefix: Prefix, batch: Nodes, root: Fr, p: Prefix)
    requires p != prefix
    ensures LoadRoot(Flush(db, prefix, batch, root), p) == LoadRoot(db, p)
  {
    hide Staged;
    assert (p, ZERO) !in Staged(prefix, batch);
  }

  lemma RootRecord(db: Db, prefix: Prefix, batch: Nodes, root: Fr)
    ensures var db' := Flush(db, prefix, batch, root); (prefix, Num(0)) in db' && db'[(prefix, Num(0))] == RootBytes(root)
  {
    hide Staged;
  }

  // A flush adds exactly the staged nodes and the root: node hashes are never zero, so the root
  // record neither hides a node nor reads as one, and no other state changes.
  lemma FlushView(db: Db, prefix: Prefix, batch: Nodes, root: Fr)
    requires ZERO !in batch && ZERO !in View(db, prefix)
    ensures var db' := Flush(db, prefix, batch, root);
      && View(db', prefix) == View(db, prefix) + batch
      && LoadRoot(db', prefix) == root
      && (prefix, Num(0)) in db' && db'[(prefix, Num(0))] == RootBytes(root)
      && forall p: Prefix :: p != prefix ==> View(db', p) == View(db, p) && LoadRoot(db', p) == LoadRoot(db, p)
  {
    RootRecord(db, prefix, batch, root);
    hide View, Flush, ReadAt, LoadRoot;
    ViewAt(db, prefix, ZERO);
    FlushHere(db, prefix, batch, root);
    forall p: Prefix | p != prefix {
      FlushElsewhere(db, prefix, batch, root, p);
    }
  }

  datatype Mutation = Adding | Updating | Upserting

  method Mutate(tree: SparseMerkleTree, how: Mutation, key: nat, val: Fr) returns (ok: bool)
    requires tree.Valid()
    modifies tree, tree.store
    ensures tree.Valid() && Grows(old(tree.store.All()), tree.store.All())
    ensures tree.store.staged ==> tree.store.nodes == old(tree.store.nodes)
    ensures ok == Succeeds(old(tree.Seen()), how, key, tree.depth)
    ensures if ok then
              && tree.leaves == old(tree.Seen())[key := val]
              && Wrote(old(tree.store.All()), PathNodes(tree.leaves, key, 0, tree.depth), tree.store.All())
            else
              && tree.leaves == old(tree.leaves) && tree.store.root == old(tree.store.root)
              && tree.store.nodes == old(tree.store.nodes) && tree.store.batch == old(tree.store.batch)
  {
    match how {
      case Adding =>
        var r := tree.Add(key, val);
        ok := r.Ok?;
      case Updating =>
        var r := tree.Update(key, val);
        ok := r.Ok?;
      case Upserting =>
        var r := tree.AddOrUpdate(key, val);
        ok := r.Ok?;
    }
  }

  ghost predicate Succeeds(m: Leaves, how: Mutation, key: nat, d: nat) {
    if key in m then how != Adding && (d > 0 ==> !Shadowed(m.Keys, key, 0, d - 1))
    else how != Updating && !Shadowed(m.Keys, key, 0, d)
  }

  lemma ViewHasNoZero(nodes: Nodes)
    requires WellFormed(nodes)
    ensures ZERO !in nodes
  {
  }

  // One mutation of a freshly loaded store and a flush is that mutation of the in-memory store:
  // same outcome, same nodes, same root.
  method MutateBoth(db: Db, prefix: Prefix, mem: SparseMerkleTree, how: Mutation, key: nat, val: Fr)
    returns (db': Db, ok: bool)
    requires mem.Valid() && !mem.store.staged
    requires mem.store.nodes == View(db, prefix) && mem.store.root == LoadRoot(db, prefix)
    modifies mem, mem.store
    ensures ok == Succeeds(old(mem.leaves), how, key, mem.depth)
    ensures mem.leaves == if ok then old(mem.leaves)[key := val] else old(mem.leaves)
    ensures mem.store.nodes == View(db', prefix) && mem.store.root == LoadRoot(db', prefix)
    ensures Loads(db', prefix, mem.leaves, mem.depth)
    ensures forall p: Prefix :: p != prefix ==> View(db', p) == View(db, p) && LoadRoot(db', p) == LoadRoot(db, p)
  {
    hide PathNodes, Canon, WellFormed, Shadowed, View;
    assert mem.store.All() == mem.store.nodes;
    ViewHasNoZero(mem.store.nodes);
    var store := new NodeStore.Rocks(View(db, prefix), LoadRoot(db, prefix));
    var tree := new SparseMerkleTree(store, mem.depth, mem.leaves);
    var okRocks := Mutate(tree, how, key, val);
    ok := Mutate(mem, how, key, val);
    db' := db;
    if okRocks {
      assert mem.store.nodes == store.All() by {
        assert mem.store.All() == mem.store.nodes;
      }
      ViewHasNoZero(store.All());
      FlushView(db, prefix, store.batch, store.root);
      db' := Flush(db, prefix, store.batch, store.root);
    }
  }

  // Two mutations without a flush between them: the second sees the first exactly when the
  // first one's root was already flushed, and otherwise starts again from an empty tree.
  method AddTwiceUnflushed(db: Db, prefix: Prefix, ghost m: Leaves, d: nat, k1: nat, v1: Fr, k2: nat, v2: Fr)
    returns (root1: Fr, root2: Fr)
    requires d > 0 && Loads(db, prefix, m, d)
    requires !Shadowed(m.Keys, k1, 0, d) && k1 !in m
    requires k2 !in m[k1 := v1] && !Shadowed(m[k1 := v1].Keys, k2, 0, d)
    ensures root1 == Canon(m[k1 := v1], 0, d)
    ensures root2 == if Held(View(db, prefix), root1) then Canon(m[k1 := v1][k2 := v2], 0, d)
                     else LeafKey(k2, v2)
  {
    hide Canon, WellFormed, View, PathNodes, Wrote, Grows;
    var store := new NodeStore.Rocks(View(db, prefix), LoadRoot(db, prefix));
    var tree := new SparseMerkleTree(store, d, m);
    var r1 := tree.Add(k1, v1);
    root1 := store.root;
    var r2 := tree.Add(k2, v2);
    root2 := store.root;
    assert root1 == Canon(m[k1 := v1], 0, d);
    if !Held(View(db, prefix), root1) {
      assert tree.leaves == map[][k2 := v2];
      CanonSingle(map[][k2 := v2], k2, 0, d);
    }
  }
}
