// The content-addressed node store of the tree, in its two forms: the in-memory store whose
// writes are seen by the next read, and the RocksDB store whose writes wait in a batch.

module NodeStores {
  import opened Field
  import opened Wrappers

  datatype Node = Middle(l: Fr, r: Fr) | Leaf(k: nat, v: Fr) {
    function Key(): Fr {
      match this
      case Leaf(k, v) => LeafKey(k, v)
      case Middle(l, r) => MidKey(l, r)
    }
  }

  type Nodes = map<Fr, Node>

  ghost predicate Held(nodes: Nodes, h: Fr) {
    h == ZERO || h in nodes
  }

  // Every node sits under its own hash, and the children of a middle node are held too.
  ghost predicate WellFormed(nodes: Nodes) {
    && (forall h | h in nodes :: nodes[h].Key() == h)
    && (forall h | h in nodes && nodes[h].Middle? :: Held(nodes, nodes[h].l) && Held(nodes, nodes[h].r))
  }

  ghost predicate Grows(before: Nodes, after: Nodes) {
    forall h | h in before :: h in after && after[h] == before[h]
  }

  // A put under the node's own hash never changes a node already there.
  lemma PutKeeps(nodes: Nodes, n: Node)
    requires WellFormed(nodes)
    requires n.Middle? ==> Held(nodes, n.l) && Held(nodes, n.r)
    ensures WellFormed(nodes[n.Key() := n])
    ensures Grows(nodes, nodes[n.Key() := n])
  {
  }

  class NodeStore {
    const staged: bool
    var nodes: Nodes   // what `Get` reads
    var batch: Nodes   // writes not yet flushed
    var root: Fr

    ghost function All(): Nodes
      reads this
    {
      nodes + batch
    }

    ghost predicate Valid()
      reads this
    {
      WellFormed(nodes) && WellFormed(All()) && (!staged ==> batch == map[])
    }

    constructor Mem()
      ensures !staged && nodes == map[] && batch == map[] && root == ZERO
      ensures Valid()
    {
      staged, nodes, batch, root := false, map[], map[], ZERO;
    }

    constructor Rocks(nodes: Nodes, root: Fr)
      requires WellFormed(nodes)
      ensures staged && this.nodes == nodes && batch == map[] && this.root == root
      ensures Valid() && All() == nodes
    {
      this.staged, this.nodes, this.batch, this.root := true, nodes, map[], root;
      new;
      assert All() == nodes;
    }

    method Get(k: Fr) returns (n: Option<Node>)
      requires Valid()
      ensures n.Some? ==> n.value.Key() == k && (n.value.Middle? ==> Held(nodes, n.value.l) && Held(nodes, n.value.r))
      ensures n == if k in nodes then Some(nodes[k]) else None
    {
      n := if k in nodes then Some(nodes[k]) else None;
    }

    method Put(n: Node) returns (k: Fr)
      requires Valid()
      requires n.Middle? ==> Held(All(), n.l) && Held(All(), n.r)
      modifies this`nodes, this`batch
      ensures Valid()
      ensures k == n.Key()
      ensures All() == old(All())[k := n] && Grows(old(All()), All())
      ensures staged ==> nodes == old(nodes)
    {
      hide WellFormed, Grows, Held;
      k := n.Key();
      PutKeeps(All(), n);
      if staged {
        batch := batch[k := n];
      } else {
        assert All() == nodes;
        nodes := nodes[k := n];
      }
      assert All() == old(All())[k := n];
    }
  }
}
