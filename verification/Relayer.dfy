// The relayer service: its two database trees mirror the program's state across every request.

module Relayer {
  import opened Field
  import opened Keys
  import opened Canonical
  import opened NodeStores
  import opened SparseMerkle
  import opened Signals
  import opened SmtCircuit
  import opened Rocks
  import R = Relay

  const MSG_LIMIT: U64 := 3

  // The 32-byte numbers of a request, which may lie above the modulus.
  type Word = n: nat | n < 0x1_0000_0000_0000_0000_0000_0000_0000_0000_0000_0000_0000_0000_0000_0000_0000_0000

  // The prover reads its inputs modulo the field.
  function Reduce(x: Word): Signal {
    x % MODULUS
  }

  lemma Reduced(x: Word)
    ensures x < MODULUS ==> Reduce(x) == x
  {
  }

  datatype RelayResult = Relayed | MessageDuplicated | MessageLimitExceeded | ProverError | TransactionError | TreeError

  // How the transaction fares outside the program: the target's call and the relayer's balances.
  datatype Send = Send(callOk: bool, balanceBefore: nat, balanceAfter: nat)

  // The keys keep clear of zero and differ in their low 63 bits.
  ghost predicate Clear(keys: set<nat>) {
    0 !in keys && Spread(keys, 0, R.DEPTH - 1)
  }

  lemma ClearAround(keys: set<nat>, key: nat)
    requires Clear(keys + {key})
    ensures 0 !in keys && !Shadowed(keys, key, 0, R.DEPTH - 1)
  {
    forall k | k in keys && k != key ensures !SameBits(k, key, 0, R.DEPTH - 1) {
      assert k in keys + {key} && key in keys + {key};
    }
  }

  // The witness made of the two proofs is accepted when the keys are clear and the request is new
  // and within its quota.
  lemma WitnessAccepted(quota: map<nat, nat>, uniq: set<nat>, nu: Signal, msgHash: Signal, count: U64,
                        pq: CircomProof, nq: nat, pu: CircomProof, nu': nat)
    requires Spread(quota.Keys, 0, R.DEPTH) && Spread(uniq, 0, R.DEPTH)
    requires forall k | k in quota :: quota[k] > 0
    requires Clear(quota.Keys + {Low(nu, R.DEPTH)}) && Clear(uniq + {msgHash})
    requires ProofOf(pq, R.Counts(quota), Low(nu, R.DEPTH), nq, R.DEPTH)
    requires ProofOf(pu, R.Ones(uniq), msgHash, nu', R.DEPTH)
    requires msgHash !in uniq && count == R.Get(quota, Low(nu, R.DEPTH)) < MSG_LIMIT
    ensures R.Circuit(msgHash, MSG_LIMIT, WitnessOf(quota, uniq, nu, count, pq, pu)).Some?
  {
    hide Canon, SmtVerifier, SmtProcessor, Low, ProofOf, Spread, Along, LessThan16, Splits, R.Circuit;
    var idx, q, u := Low(nu, R.DEPTH), R.Counts(quota), R.Ones(uniq);
    assert q.Keys == quota.Keys && u.Keys == uniq;
    ClearAround(quota.Keys, idx);
    ClearAround(uniq, msgHash);
    OwnSplit(nu);
    LessThanExact(count, MSG_LIMIT);
    ProofSize(pq, q, idx, nq);
    ProofSize(pu, u, msgHash, nu');
    ProofVerifies(pq, q, idx, Num(count), nq, R.DEPTH);
    ProofVerifies(pu, u, msgHash, ZERO, nu', R.DEPTH);
    AlongWithin(q, idx, nq);
    AlongWithin(u, msgHash, nu');
    ProofProcesses(pq, q, idx, Num(count + 1), nq, R.DEPTH);
    ProofProcesses(pu, u, msgHash, Num(1), nu', R.DEPTH);
    R.CircuitAccepts(msgHash, MSG_LIMIT, WitnessOf(quota, uniq, nu, count, pq, pu));
  }

  lemma ProofSize(p: CircomProof, m: Leaves, key: nat, n: nat)
    requires ProofOf(p, m, key, n, R.DEPTH)
    ensures |p.siblings| == R.DEPTH
  {
  }

  lemma AlongWithin(m: Leaves, key: nat, n: nat)
    ensures Along(m, key, 0, n).Keys <= m.Keys
  {
  }

  ghost function WitnessOf(quota: map<nat, nat>, uniq: set<nat>, nu: Signal, count: U64, pq: CircomProof, pu: CircomProof): R.Witness {
    Inputs(nu, count, Canon(R.Counts(quota), 0, R.DEPTH), Canon(R.Ones(uniq), 0, R.DEPTH), pq, pu)
  }

  function Inputs(nu: Signal, count: U64, rootQuota: Fr, rootUniq: Fr, pq: CircomProof, pu: CircomProof): R.Witness {
    R.Witness(nu, Low(nu, R.DEPTH), High(nu, R.DEPTH), rootQuota, rootUniq, count,
              pq.siblings, Flag(pq.isOld0), pq.oldKey, pq.oldValue, ZERO,
              pu.siblings, Flag(pu.isOld0), pu.oldKey, pu.oldValue, ZERO)
  }

  // What a proof of the tree reports of its key.
  lemma Reported(p: CircomProof, m: Leaves, key: nat)
    requires exists n: nat :: ProofOf(p, m, key, n, R.DEPTH)
    ensures p.membership <==> key in m && !Shadowed(m.Keys, key, 0, R.DEPTH - 1)
    ensures p.membership ==> p.oldValue == m[key]
  {
    hide ProofOf, Shadowed;
    var n: nat :| ProofOf(p, m, key, n, R.DEPTH);
    MembershipExact(p, m, key, n, R.DEPTH);
  }

  // The count the service reads off a quota proof: the low eight bytes of the stored value.
  function CountOf(p: CircomProof): U64 {
    if p.membership && p.oldValue.Num? then p.oldValue.n % SHIFT else 0
  }

  // The proofs of the two trees are found in them.
  ghost predicate FoundIn(h: seq<R.Relayed>, idx: nat, msgHash: nat, pq: CircomProof, pu: CircomProof) {
    && Spread(R.QuotaOf(h).Keys, 0, R.DEPTH) && Spread(R.UniqOf(h), 0, R.DEPTH) && R.Fair(h, MSG_LIMIT)
    && (exists n: nat :: ProofOf(pq, R.Counts(R.QuotaOf(h)), idx, n, R.DEPTH))
    && (exists n: nat :: ProofOf(pu, R.Ones(R.UniqOf(h)), msgHash, n, R.DEPTH))
  }

  ghost predicate ClearRequest(h: seq<R.Relayed>, idx: nat, msgHash: nat) {
    Clear(R.QuotaOf(h).Keys + {idx}) && Clear(R.UniqOf(h) + {msgHash})
  }

  // What the two proofs report; for clear keys it is the truth about the request.
  lemma RequestReported(h: seq<R.Relayed>, idx: nat, msgHash: nat, pq: CircomProof, pu: CircomProof)
    requires FoundIn(h, idx, msgHash, pq, pu)
    ensures CountOf(pq) > 0 ==> !Shadowed(R.QuotaOf(h).Keys, idx, 0, R.DEPTH - 1)
    ensures ClearRequest(h, idx, msgHash) ==>
      (pu.membership <==> msgHash in R.UniqOf(h)) && CountOf(pq) == R.Uses(h, idx)
  {
    hide ProofOf, Spread, Clear, R.QuotaOf, R.UniqOf, Shadowed, R.Uses;
    LoadsKeys(R.QuotaOf(h), R.UniqOf(h));
    Reported(pq, R.Counts(R.QuotaOf(h)), idx);
    Reported(pu, R.Ones(R.UniqOf(h)), msgHash);
    R.QuotaIsUses(h, idx);
    assert R.Uses(h, idx) <= MSG_LIMIT;
    if ClearRequest(h, idx, msgHash) {
      ClearAround(R.QuotaOf(h).Keys, idx);
      ClearAround(R.UniqOf(h), msgHash);
    }
  }

  // A clear, new request within its quota is accepted.
  lemma RequestAccepted(h: seq<R.Relayed>, nu: Signal, msgHash: Signal, pq: CircomProof, pu: CircomProof)
    requires FoundIn(h, Low(nu, R.DEPTH), msgHash, pq, pu) && ClearRequest(h, Low(nu, R.DEPTH), msgHash)
    requires msgHash !in R.UniqOf(h) && CountOf(pq) < MSG_LIMIT
    ensures R.Circuit(msgHash, MSG_LIMIT, WitnessOf(R.QuotaOf(h), R.UniqOf(h), nu, CountOf(pq), pq, pu)).Some?
  {
    hide ProofOf, Spread, Clear, Low, R.Circuit, R.QuotaOf, R.UniqOf;
    var quota, uniq := R.QuotaOf(h), R.UniqOf(h);
    RequestReported(h, Low(nu, R.DEPTH), msgHash, pq, pu);
    R.QuotaIsUses(h, Low(nu, R.DEPTH));
    forall k | k in quota ensures quota[k] > 0 {
      R.QuotaPositive(h, k);
    }
    var nq: nat :| ProofOf(pq, R.Counts(quota), Low(nu, R.DEPTH), nq, R.DEPTH);
    var nu': nat :| ProofOf(pu, R.Ones(uniq), msgHash, nu', R.DEPTH);
    WitnessAccepted(quota, uniq, nu, msgHash, CountOf(pq), pq, nq, pu, nu');
  }

  lemma LoadsKeys(quota: map<nat, nat>, uniq: set<nat>)
    ensures R.Counts(quota).Keys == quota.Keys && R.Ones(uniq).Keys == uniq
  {
  }

  // What an accepted witness says of the writes that follow it at its own index.
  lemma WritesSucceed(history: seq<R.Relayed>, msgHash: Signal, w: R.Witness)
    requires R.Circuit(msgHash, MSG_LIMIT, w).Some? && R.BitFlags(w)
    requires R.Rooted(history, R.Circuit(msgHash, MSG_LIMIT, w).value.rootStateOld) && R.Fair(history, MSG_LIMIT)
    ensures var idx, quota, uniq := w.nuLo, R.QuotaOf(history), R.UniqOf(history);
      var history' := history + [R.RelayOf(w, msgHash)];
      && (w.countOld == 0 ==> idx !in quota && !Shadowed(quota.Keys, idx, 0, R.DEPTH))
      && (w.countOld > 0 ==> idx in quota)
      && w.countOld == R.Get(quota, idx) < MSG_LIMIT
      && msgHash !in uniq && !Shadowed(uniq, msgHash, 0, R.DEPTH)
      && R.Counts(R.QuotaOf(history')) == R.Counts(quota)[idx := Num(w.countOld + 1)]
      && R.Ones(R.UniqOf(history')) == R.Ones(uniq)[msgHash := Num(1)]
  {
    hide Canon, Spread, R.QuotaOf, R.UniqOf, R.Circuit, Shadowed;
    var idx, r := w.nuLo, R.RelayOf(w, msgHash);
    R.CircuitSound(history, msgHash, MSG_LIMIT, w);
    R.QuotaIsUses(history, idx);
    R.Snoc(history, r);
    var quota, uniq := R.QuotaOf(history), R.UniqOf(history);
    assert R.QuotaOf(history + [r]).Keys == quota.Keys + {idx};
    SpreadAdds(quota.Keys, idx, 0, R.DEPTH);
    SpreadAdds(uniq, msgHash, 0, R.DEPTH);
  }

  // A 32-byte number and its reduction have the same low half exactly when it is below the modulus.
  lemma ReducedLow(nu: Word)
    ensures Low(nu, R.DEPTH) == Low(Reduce(nu), R.DEPTH) <==> nu < MODULUS
  {
    ShiftIs();
    var k := nu / MODULUS;
    assert nu == MODULUS * k + nu % MODULUS;
    if nu >= MODULUS && Low(nu, R.DEPTH) == Low(Reduce(nu), R.DEPTH) {
      LowHigh(nu, R.DEPTH);
      LowHigh(Reduce(nu), R.DEPTH);
      var t := High(nu, R.DEPTH) - High(Reduce(nu), R.DEPTH);
      assert k * MODULUS == t * SHIFT;
      NotShifted(k, t);
    }
  }

  // The modulus is odd: no small multiple of it is a multiple of 2^64.
  lemma NotShifted(k: nat, t: int)
    requires 0 < k < 6
    ensures k * MODULUS != t * SHIFT
  {
  }

  // A quota database written at another index than the relay's does not mirror the program.
  lemma NotMirrored(db: Db, skey: Prefix, q: Leaves, h: seq<R.Relayed>, msgHash: Signal, w: R.Witness)
    requires R.Circuit(msgHash, MSG_LIMIT, w).Some? && R.BitFlags(w)
    requires R.Rooted(h, R.Circuit(msgHash, MSG_LIMIT, w).value.rootStateOld) && R.Fair(h, MSG_LIMIT)
    requires Loads(db, skey, q, R.DEPTH)
    requires w.nuLo in q ==> w.nuLo in R.QuotaOf(h) && q[w.nuLo] == Num(R.QuotaOf(h)[w.nuLo])
    ensures !Loads(db, skey, R.Counts(R.QuotaOf(h + [R.RelayOf(w, msgHash)])), R.DEPTH)
  {
    hide Canon, Spread, R.QuotaOf, R.UniqOf, R.Circuit, View, LoadRoot, WellFormed;
    WritesSucceed(h, msgHash, w);
    var q' := R.Counts(R.QuotaOf(h + [R.RelayOf(w, msgHash)]));
    if Loads(db, skey, q', R.DEPTH) {
      Binding(q, q', 0, R.DEPTH);
    }
  }

  // The trees of every other state are as they were.
  ghost predicate KeptBut(skey: Prefix, before: Db, after: Db) {
    forall p: Prefix :: p != skey ==> View(after, p) == View(before, p) && LoadRoot(after, p) == LoadRoot(before, p)
  }

  lemma NothingElse(skey: Prefix, db: Db)
    ensures KeptBut(skey, db, db)
  {
  }

  class Backend {
    var quotaDb: Db
    var uniqDb: Db

    // The flushed trees stand for the program's own history.
    ghost predicate Mirrors(skey: Prefix, chain: R.RelayerState)
      reads this, chain
    {
      && chain.Valid() && chain.bits
      && Loads(quotaDb, skey, R.Counts(R.QuotaOf(chain.history)), R.DEPTH)
      && Loads(uniqDb, skey, R.Ones(R.UniqOf(chain.history)), R.DEPTH)
    }

    lemma RootsAgree(skey: Prefix, chain: R.RelayerState)
      requires Mirrors(skey, chain)
      ensures Hash2(LoadRoot(quotaDb, skey), LoadRoot(uniqDb, skey)) == chain.rootState
    {
    }

    constructor ()
      ensures quotaDb == map[] && uniqDb == map[]
    {
      quotaDb, uniqDb := map[], map[];
    }

    // Empty databases mirror a new relayer state.
    lemma StartsMirrored(skey: Prefix, chain: R.RelayerState)
      requires quotaDb == map[] && uniqDb == map[] && chain.Valid() && chain.bits && chain.history == []
      ensures Mirrors(skey, chain)
    {
      assert R.Counts(R.QuotaOf([])) == map[] && R.Ones(R.UniqOf([])) == map[];
      assert View(map[], skey) == map[];
      CanonEmpty(0, R.DEPTH);
    }

    // A tree loaded from its database, its writes staged.
    method LoadTree(db: Db, skey: Prefix, ghost m: Leaves) returns (tree: SparseMerkleTree)
      requires Loads(db, skey, m, R.DEPTH)
      ensures fresh(tree) && fresh(tree.store) && tree.Valid() && tree.depth == R.DEPTH
      ensures tree.store.staged && tree.store.nodes == View(db, skey) && tree.store.batch == map[]
      ensures tree.store.root == LoadRoot(db, skey) && tree.Seen() == tree.leaves == m
    {
      hide Canon, WellFormed, View;
      var store := new NodeStore.Rocks(View(db, skey), LoadRoot(db, skey));
      tree := new SparseMerkleTree(store, R.DEPTH, m);
    }

    // Flushing a tree after its one write: the database holds the written map, other states keep theirs.
    method FlushTree(db: Db, skey: Prefix, tree: SparseMerkleTree) returns (db': Db)
      requires tree.Valid() && tree.depth == R.DEPTH && tree.store.staged && tree.store.nodes == View(db, skey)
      ensures Loads(db', skey, tree.leaves, R.DEPTH) && KeptBut(skey, db, db')
    {
      hide Canon, WellFormed, View, Flush, LoadRoot;
      ViewHasNoZero(tree.store.nodes);
      ViewHasNoZero(tree.store.All());
      FlushView(db, skey, tree.store.batch, tree.store.root);
      db' := Flush(db, skey, tree.store.batch, tree.store.root);
    }

    ghost predicate LoadedFrom(tree: SparseMerkleTree, db: Db, skey: Prefix, m: Leaves)
      reads tree, tree.store
    {
      && tree.Valid() && tree.depth == R.DEPTH && tree.Seen() == tree.leaves == m
      && tree.store.staged && tree.store.nodes == View(db, skey)
    }

    // The proofs of both trees.
    method Probe(quotaTree: SparseMerkleTree, uniqTree: SparseMerkleTree, idx: nat, msgHash: nat, ghost skey: Prefix, ghost h: seq<R.Relayed>)
      returns (pq: CircomProof, pu: CircomProof)
      requires LoadedFrom(quotaTree, quotaDb, skey, R.Counts(R.QuotaOf(h))) && LoadedFrom(uniqTree, uniqDb, skey, R.Ones(R.UniqOf(h)))
      requires R.Fair(h, MSG_LIMIT)
      ensures FoundIn(h, idx, msgHash, pq, pu)
    {
      hide ProofOf, Canon, Spread, R.QuotaOf, R.UniqOf, R.Fair, WellFormed, View;
      LoadsKeys(R.QuotaOf(h), R.UniqOf(h));
      pq := quotaTree.GetProof(idx);
      pu := uniqTree.GetProof(msgHash);
    }

    // Load, prove membership both ways, and build the witness, its numbers reduced by the prover.
    // `Relayed` means: go on and send.
    method Prepare(skey: Prefix, msgHash: Word, nu: Word, proverUp: bool, ghost h: seq<R.Relayed>)
      returns (r: RelayResult, w: R.Witness, quotaTree: SparseMerkleTree, uniqTree: SparseMerkleTree)
      requires Loads(quotaDb, skey, R.Counts(R.QuotaOf(h)), R.DEPTH) && Loads(uniqDb, skey, R.Ones(R.UniqOf(h)), R.DEPTH)
      requires R.Fair(h, MSG_LIMIT)
      ensures fresh(quotaTree) && fresh(quotaTree.store) && fresh(uniqTree) && fresh(uniqTree.store)
      ensures quotaTree != uniqTree && quotaTree.store != uniqTree.store
      ensures LoadedFrom(quotaTree, quotaDb, skey, R.Counts(R.QuotaOf(h)))
      ensures LoadedFrom(uniqTree, uniqDb, skey, R.Ones(R.UniqOf(h)))
      ensures r in {Relayed, MessageDuplicated, MessageLimitExceeded, ProverError}
      ensures r == Relayed ==>
        && R.Circuit(Reduce(msgHash), MSG_LIMIT, w).Some? && R.BitFlags(w)
        && w.nu == Reduce(nu) && w.nuLo == Low(Reduce(nu), R.DEPTH) && InRange(w.nuLo, w.nuHi)
        && w.rootQuotaOld == LoadRoot(quotaDb, skey) && w.rootUniqOld == LoadRoot(uniqDb, skey)
        && (w.countOld > 0 ==> !Shadowed(R.QuotaOf(h).Keys, Low(nu, R.DEPTH), 0, R.DEPTH - 1))
      ensures nu < MODULUS && msgHash < MODULUS && ClearRequest(h, Low(nu, R.DEPTH), msgHash) ==>
        r == if msgHash in R.UniqOf(h) then MessageDuplicated
             else if R.Uses(h, Low(nu, R.DEPTH)) >= MSG_LIMIT then MessageLimitExceeded
             else if !proverUp then ProverError
             else Relayed
    {
      hide Canon, WellFormed, View, LoadRoot, Low, R.QuotaOf, R.UniqOf, R.Circuit, Spread,
        Shadowed, R.Uses, InRange, Splits, R.Fair, ClearRequest, CountOf, FoundIn, Reduce;
      Reduced(nu);
      Reduced(msgHash);
      LoadsKeys(R.QuotaOf(h), R.UniqOf(h));
      OwnSplit(Reduce(nu));
      quotaTree := LoadTree(quotaDb, skey, R.Counts(R.QuotaOf(h)));
      uniqTree := LoadTree(uniqDb, skey, R.Ones(R.UniqOf(h)));
      var idx := Low(nu, R.DEPTH);
      var pq, pu := Probe(quotaTree, uniqTree, idx, msgHash, skey, h);
      RequestReported(h, idx, msgHash, pq, pu);
      var prevCount := CountOf(pq);
      w := Inputs(Reduce(nu), prevCount, quotaTree.store.root, uniqTree.store.root, pq, pu);
      if pu.membership {
        return MessageDuplicated, w, quotaTree, uniqTree;
      }
      if prevCount >= MSG_LIMIT {
        return MessageLimitExceeded, w, quotaTree, uniqTree;
      }
      if nu < MODULUS && msgHash < MODULUS && ClearRequest(h, idx, msgHash) {
        RequestAccepted(h, nu, msgHash, pq, pu);
      }
      r := if proverUp && R.Circuit(Reduce(msgHash), MSG_LIMIT, w).Some? then Relayed else ProverError;
    }

    // One write to each tree, and one flush of both. At the witness's own index it cannot fail.
    method Persist(skey: Prefix, msgHash: Signal, idx: nat, w: R.Witness, quotaTree: SparseMerkleTree, uniqTree: SparseMerkleTree,
                   ghost h: seq<R.Relayed>)
      returns (ok: bool)
      requires LoadedFrom(quotaTree, quotaDb, skey, R.Counts(R.QuotaOf(h))) && LoadedFrom(uniqTree, uniqDb, skey, R.Ones(R.UniqOf(h)))
      requires quotaTree != uniqTree && quotaTree.store != uniqTree.store
      requires R.Circuit(msgHash, MSG_LIMIT, w).Some? && R.BitFlags(w) && R.Rooted(h, R.Circuit(msgHash, MSG_LIMIT, w).value.rootStateOld)
      requires R.Fair(h, MSG_LIMIT)
      requires w.countOld > 0 ==> !Shadowed(R.QuotaOf(h).Keys, idx, 0, R.DEPTH - 1)
      modifies this, quotaTree, quotaTree.store, uniqTree, uniqTree.store
      ensures idx == w.nuLo ==> ok
      ensures ok ==>
        && Loads(quotaDb, skey, R.Counts(R.QuotaOf(h))[idx := Num(w.countOld + 1)], R.DEPTH)
        && Loads(uniqDb, skey, R.Ones(R.UniqOf(h + [R.RelayOf(w, msgHash)])), R.DEPTH)
      ensures !ok ==> quotaDb == old(quotaDb) && uniqDb == old(uniqDb)
      ensures KeptBut(skey, old(quotaDb), quotaDb) && KeptBut(skey, old(uniqDb), uniqDb)
    {
      hide Canon, Spread, WellFormed, View, LoadRoot, R.QuotaOf, R.UniqOf, R.Circuit, Shadowed, Bit, SameBits,
        PathNodes, Wrote, Grows, Loads, R.Rooted, KeptBut, R.Fair;
      NothingElse(skey, quotaDb);
      NothingElse(skey, uniqDb);
      WritesSucceed(h, msgHash, w);
      LoadsKeys(R.QuotaOf(h), R.UniqOf(h));
      if w.countOld == 0 {
        var added := quotaTree.Add(idx, Num(w.countOld + 1));
        if !added.Ok? {
          return false;
        }
      } else {
        var updated := quotaTree.Update(idx, Num(w.countOld + 1));
        if !updated.Ok? {
          return false;
        }
      }
      var added := uniqTree.Add(msgHash, Num(1));
      if !added.Ok? {
        return false;
      }
      quotaDb := FlushTree(quotaDb, skey, quotaTree);
      uniqDb := FlushTree(uniqDb, skey, uniqTree);
      ok := true;
    }

    // One request. A failed send is taken not to have landed. The mirror is kept exactly unless the
    // program accepted a nullifier that the request gave unreduced, and that the trees then misplace.
    method RelayInner(chain: R.RelayerState, skey: Prefix, msgHash: Word, nu: Word, proverUp: bool, send: Send)
      returns (r: RelayResult)
      requires Mirrors(skey, chain) && chain.msgLimit == MSG_LIMIT
      modifies this, chain
      ensures Mirrors(skey, chain) <==> nu < MODULUS || chain.history == old(chain.history)
      ensures Mirrors(skey, chain) ==> Hash2(LoadRoot(quotaDb, skey), LoadRoot(uniqDb, skey)) == chain.rootState
      ensures r == Relayed ==> msgHash < MODULUS
      ensures r == Relayed && nu < MODULUS ==> chain.history == old(chain.history) + [R.Relayed(Low(nu, R.DEPTH), nu, msgHash)]
      ensures r != Relayed ==> quotaDb == old(quotaDb) && uniqDb == old(uniqDb)
      ensures r !in {Relayed, TreeError} ==> chain.history == old(chain.history) && chain.rootState == old(chain.rootState)
      ensures nu < MODULUS ==> r != TreeError
      ensures KeptBut(skey, old(quotaDb), quotaDb) && KeptBut(skey, old(uniqDb), uniqDb)
      ensures var h, idx := old(chain.history), Low(nu, R.DEPTH);
        nu < MODULUS && msgHash < MODULUS && ClearRequest(h, idx, msgHash) ==>
          r == if msgHash in R.UniqOf(h) then MessageDuplicated
               else if R.Uses(h, idx) >= MSG_LIMIT then MessageLimitExceeded
               else if !proverUp then ProverError
               else if !(send.callOk && send.balanceAfter > send.balanceBefore
                         && send.balanceAfter - send.balanceBefore >= chain.fee) then TransactionError
               else Relayed
    {
      hide Canon, Spread, WellFormed, View, LoadRoot, Low, R.QuotaOf, R.UniqOf, R.Circuit, Shadowed, R.Uses, ClearRequest, R.Rooted,
        Loads, KeptBut, InRange, Reduce;
      RootsAgree(skey, chain);
      NothingElse(skey, quotaDb);
      NothingElse(skey, uniqDb);
      Reduced(nu);
      Reduced(msgHash);
      ghost var h := chain.history;
      var w, quotaTree, uniqTree;
      r, w, quotaTree, uniqTree := Prepare(skey, msgHash, nu, proverUp, h);
      if r != Relayed {
        return;
      }
      if msgHash >= MODULUS {
        return TransactionError;
      }
      PublicInputs(msgHash, w);
      var out := R.Circuit(msgHash, MSG_LIMIT, w).value;
      var status := chain.Relay(true, out.rootStateNew, msgHash, out.nuHash, send.callOk, send.balanceBefore, send.balanceAfter, w);
      if !status {
        return TransactionError;
      }
      var stored := Persist(skey, msgHash, Low(nu, R.DEPTH), w, quotaTree, uniqTree, h);
      r := if stored then Relayed else TreeError;
      ReducedLow(nu);
      WritesSucceed(h, msgHash, w);
      if nu < MODULUS {
        RootsAgree(skey, chain);
      } else if stored {
        assert w.nuLo != Low(nu, R.DEPTH);
        NotMirrored(quotaDb, skey, R.Counts(R.QuotaOf(h))[Low(nu, R.DEPTH) := Num(w.countOld + 1)], h, msgHash, w);
      } else {
        NotMirrored(quotaDb, skey, R.Counts(R.QuotaOf(h)), h, msgHash, w);
      }
    }
  }

  lemma PublicInputs(msgHash: Signal, w: R.Witness)
    requires R.Circuit(msgHash, MSG_LIMIT, w).Some?
    ensures var out := R.Circuit(msgHash, MSG_LIMIT, w).value;
      out.rootStateOld == Hash2(w.rootQuotaOld, w.rootUniqOld) && out.nuHash == Hash2(Num(w.nu), Num(msgHash))
  {
  }
}
