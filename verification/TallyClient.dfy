// The tallier's page: rebuilding the tree from the stored leaves, building the witness of the next
// batch, padding it, and carrying the result over.

module TallyClient {
  import opened Field
  import opened Wrappers
  import opened Keys
  import opened Canonical
  import opened NodeStores
  import opened SparseMerkle
  import opened Signals
  import opened SmtCircuit
  import opened TallyCircuit
  import M = MootVote

  datatype StoredLeaf = StoredLeaf(data: LeafData, hash: Fr)

  datatype TallyStore = TallyStore(
    processedCount: nat, root: Fr, runningMsgHash: Fr, tallySalt: U64,
    tallyCounts: seq<int>, leaves: map<nat, StoredLeaf>)

  datatype Batch = Batch(rootOld: Fr, chainOld: Fr, inputs: Witness, outputs: Outputs)

  function Data(leaves: map<nat, StoredLeaf>): map<nat, LeafData> {
    map k | k in leaves :: leaves[k].data
  }

  // Counts are kept for the poll's choices and padded to the circuit's width.
  function Padded(counts: seq<int>): (r: seq<int>)
    ensures |counts| <= MAX_CHOICES ==> |r| == MAX_CHOICES
  {
    if |counts| <= MAX_CHOICES then counts + NoVotes(MAX_CHOICES - |counts|) else counts
  }

  // The page's variables hold the tally state s.
  ghost predicate Holds(leaves: map<nat, StoredLeaf>, counts: seq<int>, chain: Fr, s: TallyState, nChoices: nat) {
    && Data(leaves) == s.leaves && chain == s.chain
    && |counts| == nChoices <= MAX_CHOICES && Padded(counts) == s.counts
    && forall k | k in leaves ::
         k < Pow2(DEPTH) && leaves[k].hash == LeafHash(leaves[k].data) && leaves[k].data.choice <= nChoices
  }

  ghost predicate Carries(store: Option<TallyStore>, s: TallyState, nChoices: nat) {
    match store
    case None => s == START
    case Some(st) => Holds(st.leaves, st.tallyCounts, st.runningMsgHash, s, nChoices)
  }

  // No index is zero and no two agree in their low 63 bits.
  ghost predicate GoodIndices(keys: set<nat>) {
    0 !in keys && Spread(keys, 0, DEPTH - 1)
  }

  function Indices(batch: seq<Msg>, dec: Decrypt): set<nat> {
    set i | 0 <= i < |batch| :: Index(dec(batch[i]))
  }

  lemma GoodSubset(all: set<nat>, keys: set<nat>, idx: nat)
    requires GoodIndices(all) && keys <= all && idx in all
    ensures GoodIndices(keys) && !Shadowed(keys, idx, 0, DEPTH - 1) && !Shadowed(keys, idx, 0, DEPTH)
  {
    forall k | k in keys && k != idx ensures !SameBits(k, idx, 0, DEPTH - 1) && !SameBits(k, idx, 0, DEPTH) {
      SameBitsShorter(k, idx, DEPTH - 1, DEPTH);
    }
  }

  // The tree's own proof for an index makes a slot the circuit accepts there, whatever the
  // nullifier: all it asks of the index is a high half that splits it.
  lemma SlotAccepted(s: TallyState, msg: Msg, idx: Signal, hi: Signal, p: CircomProof, n: nat, noAux: bool, dec: Decrypt, all: set<nat>)
    requires Spread(s.leaves.Keys, 0, DEPTH) && Splits(dec(msg).nu, idx, hi)
    requires GoodIndices(all) && s.leaves.Keys <= all && idx in all
    requires ProofOf(p, Hashes(s.leaves), idx, n, DEPTH)
    requires noAux != p.isOld0 ==>
      idx in s.leaves && dec(msg).revotingKeyOld != Current(s.leaves, idx).revotingKey
    ensures var acc := Acc(Canon(Hashes(s.leaves), 0, DEPTH), s.chain, s.counts);
      TallySingle(true, acc, SlotOf(s, msg, idx, hi, p, noAux, dec), dec).Some?
  {
    hide Canon, Bit, SameBits, Along, ProofOf, Fold, Level, Low, Spread, Splits;
    var m, plain := Hashes(s.leaves), dec(msg);
    var cur := Current(s.leaves, idx);
    assert m.Keys == s.leaves.Keys;
    GoodSubset(all, m.Keys, idx);
    ProofVerifies(p, m, idx, LeafHash(cur), n, DEPTH);
    assert idx !in s.leaves ==> 0 !in Along(m, idx, 0, n) by {
      AlongWithin(m, idx, n);
    }
    ProofProcesses(p, m, idx, LeafHash(LeafData(plain.choice, plain.revotingKeyNew)), n, DEPTH);
    ProofLength(p, m, idx, n);
  }

  // So a message is accepted at every good index, not only at its own.
  lemma AnyIndexAccepted(s: TallyState, msg: Msg, idx: Signal, p: CircomProof, n: nat, dec: Decrypt, all: set<nat>)
    returns (hi: Signal)
    requires Spread(s.leaves.Keys, 0, DEPTH)
    requires GoodIndices(all) && s.leaves.Keys <= all && idx in all
    requires ProofOf(p, Hashes(s.leaves), idx, n, DEPTH)
    ensures var acc, slot := AccOf(s), SlotOf(s, msg, idx, hi, p, p.isOld0, dec);
      && TallySingle(true, acc, slot, dec).Some?
      && TallySingle(true, acc, slot, dec).value == AccOf(VoteAt(s, msg, idx, dec))
      && (InRange(idx, hi) <==> idx == Index(dec(msg)))
  {
    hide Canon, ProofOf, Splits, InRange, GoodIndices, TallySingle, VoteAt, Hashes, Spread, Low;
    hi := AnySplit(dec(msg).nu, idx);
    SlotAccepted(s, msg, idx, hi, p, n, p.isOld0, dec, all);
    SingleSound(true, AccOf(s), s, SlotOf(s, msg, idx, hi, p, p.isOld0, dec), dec);
    SlotIndexExact(true, AccOf(s), SlotOf(s, msg, idx, hi, p, p.isOld0, dec), dec);
  }

  lemma AlongWithin(m: Leaves, idx: nat, n: nat)
    ensures Along(m, idx, 0, n).Keys <= m.Keys
  {
  }

  lemma ProofLength(p: CircomProof, m: Leaves, idx: nat, n: nat)
    requires ProofOf(p, m, idx, n, DEPTH)
    ensures |p.siblings| == DEPTH
  {
  }

  function SlotOf(s: TallyState, msg: Msg, idx: Signal, hi: Signal, p: CircomProof, noAux: bool, dec: Decrypt): Slot {
    var cur := Current(s.leaves, idx);
    Slot(msg, p.siblings, cur.choice, cur.revotingKey, Flag(noAux), p.oldKey, p.oldValue, Flag(idx !in s.leaves), idx, hi, ZERO)
  }

  lemma IndexSmall(p: Plain)
    ensures Index(p) < Pow2(DEPTH)
  {
  }

  // The halves the page's witness generator takes of a nullifier, and its flags.
  predicate Own(slot: Slot, dec: Decrypt) {
    slot.nuLo == Index(dec(slot.msg)) && InRange(slot.nuLo, slot.nuHi) && FlagsAreBits(slot)
  }

  // The empty-slot flag the page gives, by either of its two ways.
  function NoAux(p: CircomProof, valid: bool): bool {
    if valid then p.isOld0 else !p.membership && p.oldValue == ZERO
  }

  // The slot the page builds of a vote whose index is good: nothing shadows the index, and the
  // circuit accepts the slot.
  lemma SlotBuilt(s: TallyState, msg: Msg, dec: Decrypt, all: set<nat>)
    ensures var idx := Index(dec(msg));
      Spread(s.leaves.Keys, 0, DEPTH) && GoodIndices(all) && s.leaves.Keys <= all && idx in all ==>
        && !Shadowed(s.leaves.Keys, idx, 0, DEPTH - 1) && !Shadowed(s.leaves.Keys, idx, 0, DEPTH)
        && (forall p, n: nat | ProofOf(p, Hashes(s.leaves), idx, n, DEPTH) ::
              var noAux := NoAux(p, dec(msg).revotingKeyOld == Current(s.leaves, idx).revotingKey);
              TallySingle(true, AccOf(s), SlotOf(s, msg, idx, High(dec(msg).nu, DEPTH), p, noAux, dec), dec).Some?)
  {
    hide ProofOf, Hashes, TallySingle, Shadowed, SlotOf, NoAux, Spread, GoodIndices, Low;
    var idx := Index(dec(msg));
    if Spread(s.leaves.Keys, 0, DEPTH) && GoodIndices(all) && s.leaves.Keys <= all && idx in all {
      GoodSubset(all, s.leaves.Keys, idx);
      forall p, n: nat | ProofOf(p, Hashes(s.leaves), idx, n, DEPTH)
        ensures var noAux := NoAux(p, dec(msg).revotingKeyOld == Current(s.leaves, idx).revotingKey);
          TallySingle(true, AccOf(s), SlotOf(s, msg, idx, High(dec(msg).nu, DEPTH), p, noAux, dec), dec).Some?
      {
        BuiltAccepted(s, msg, p, n, dec, all);
      }
    }
  }

  lemma BuiltAccepted(s: TallyState, msg: Msg, p: CircomProof, n: nat, dec: Decrypt, all: set<nat>)
    requires Spread(s.leaves.Keys, 0, DEPTH) && GoodIndices(all) && s.leaves.Keys <= all && Index(dec(msg)) in all
    requires ProofOf(p, Hashes(s.leaves), Index(dec(msg)), n, DEPTH)
    ensures var idx := Index(dec(msg));
      var noAux := NoAux(p, dec(msg).revotingKeyOld == Current(s.leaves, idx).revotingKey);
      TallySingle(true, AccOf(s), SlotOf(s, msg, idx, High(dec(msg).nu, DEPTH), p, noAux, dec), dec).Some?
  {
    hide ProofOf, TallySingle, Shadowed, SlotOf, Spread, Low, Canon, Along;
    var idx, valid := Index(dec(msg)), dec(msg).revotingKeyOld == Current(s.leaves, Index(dec(msg))).revotingKey;
    OwnSplit(dec(msg).nu);
    GoodSubset(all, s.leaves.Keys, idx);
    HashesKeys(s.leaves);
    if idx !in s.leaves {
      NoShadowStops(p, Hashes(s.leaves), idx, n, DEPTH);
      NoAuxMatches(p, s, idx, n);
    }
    SlotAccepted(s, msg, idx, High(dec(msg).nu, DEPTH), p, n, NoAux(p, valid), dec, all);
  }

  // A slot that was accepted once changes nothing when it is repeated past the batch length.
  lemma RepeatedSlotKeeps(acc: Acc, slot: Slot, acc': Acc, dec: Decrypt)
    requires TallySingle(true, acc, slot, dec).Some?
    ensures TallySingle(false, acc', slot, dec) == Some(acc')
  {
    assert Recount(false, slot.choiceOld, dec(slot.msg).choice, acc'.counts) == acc'.counts;
  }

  lemma {:induction false} SlotsPrefix(acc: Acc, slots: seq<Slot>, more: seq<Slot>, batchLen: Signal, n: nat, dec: Decrypt)
    requires n <= |slots| && n <= MAX_BATCH
    ensures TallySlots(acc, slots + more, batchLen, n, dec) == TallySlots(acc, slots, batchLen, n, dec)
  {
    hide TallySlots, TallySingle;
    if n == 0 {
      SlotsNone(acc, slots, batchLen, dec);
      SlotsNone(acc, slots + more, batchLen, dec);
    } else {
      SlotsStep(acc, slots, batchLen, n, dec);
      SlotsStep(acc, slots + more, batchLen, n, dec);
      SlotsPrefix(acc, slots, more, batchLen, n - 1, dec);
    }
  }

  // One vote moved between the page's counts.
  function MoveVote(counts: seq<int>, choiceOld: nat, choice: nat): (r: seq<int>)
    requires choiceOld <= |counts| && choice <= |counts|
    ensures |r| == |counts|
  {
    var less := if choiceOld != 0 then counts[choiceOld - 1 := counts[choiceOld - 1] - 1] else counts;
    if choice != 0 then less[choice - 1 := less[choice - 1] + 1] else less
  }

  lemma CountsMove(counts: seq<int>, choiceOld: nat, choice: nat)
    requires |counts| <= MAX_CHOICES && choiceOld <= |counts| && choice <= |counts|
    ensures Padded(MoveVote(counts, choiceOld, choice)) == Recount(true, choiceOld, choice, Padded(counts))
  {
  }

  // The page keeps a count for each of the poll's choices only: a counting vote beyond them fails.
  predicate Fits(s: TallyState, msg: Msg, nChoices: nat, dec: Decrypt) {
    dec(msg).revotingKeyOld == Current(s.leaves, Index(dec(msg))).revotingKey ==> dec(msg).choice <= nChoices
  }

  predicate AllFit(s: TallyState, batch: seq<Msg>, nChoices: nat, dec: Decrypt) {
    forall i | 0 <= i < |batch| :: Fits(VoteAll(s, batch[..i], dec), batch[i], nChoices, dec)
  }

  lemma AllFitSplit(s: TallyState, a: seq<Msg>, b: seq<Msg>, nChoices: nat, dec: Decrypt)
    ensures AllFit(s, a + b, nChoices, dec) <==> AllFit(s, a, nChoices, dec) && AllFit(VoteAll(s, a, dec), b, nChoices, dec)
  {
    hide Fits, VoteAll;
    var all, mid := a + b, VoteAll(s, a, dec);
    forall i | 0 <= i < |a|
      ensures Fits(VoteAll(s, all[..i], dec), all[i], nChoices, dec) == Fits(VoteAll(s, a[..i], dec), a[i], nChoices, dec)
    {
      assert all[..i] == a[..i];
    }
    forall i | 0 <= i < |b|
      ensures Fits(VoteAll(s, all[..|a| + i], dec), all[|a| + i], nChoices, dec) == Fits(VoteAll(mid, b[..i], dec), b[i], nChoices, dec)
    {
      assert all[..|a| + i] == a + b[..i];
      VoteAllConcat(s, a, b[..i], dec);
    }
    if AllFit(s, all, nChoices, dec) {
      forall i | 0 <= i < |b| ensures Fits(VoteAll(mid, b[..i], dec), b[i], nChoices, dec) {
        assert Fits(VoteAll(s, all[..|a| + i], dec), all[|a| + i], nChoices, dec);
      }
    }
    if AllFit(s, a, nChoices, dec) && AllFit(mid, b, nChoices, dec) {
      forall k | 0 <= k < |all| ensures Fits(VoteAll(s, all[..k], dec), all[k], nChoices, dec) {
        if k >= |a| {
          var i: nat := k - |a|;
          assert Fits(VoteAll(mid, b[..i], dec), b[i], nChoices, dec) && all[|a| + i] == all[k];
        }
      }
    }
  }

  // Votes all in range fit.
  lemma InRangeFits(s: TallyState, batch: seq<Msg>, nChoices: nat, dec: Decrypt)
    requires forall msg | msg in batch :: dec(msg).choice <= nChoices
    ensures AllFit(s, batch, nChoices, dec)
  {
    hide VoteAll;
    forall i | 0 <= i < |batch| ensures Fits(VoteAll(s, batch[..i], dec), batch[i], nChoices, dec) {
      assert batch[i] in batch;
    }
  }

  // The page's variables after a counting vote hold the state after it.
  lemma HoldsNext(leaves: map<nat, StoredLeaf>, counts: seq<int>, s: TallyState, msg: Msg, dec: Decrypt, choiceOld: Signal, nChoices: nat)
    requires Holds(leaves, counts, s.chain, s, nChoices) && dec(msg).choice <= nChoices
    requires Current(s.leaves, Index(dec(msg))) == LeafData(choiceOld, dec(msg).revotingKeyOld)
    ensures choiceOld <= |counts|
    ensures var p, s' := dec(msg), VoteStep(s, msg, dec);
      var leaf := LeafData(p.choice, p.revotingKeyNew);
      && Holds(leaves[Index(p) := StoredLeaf(leaf, LeafHash(leaf))], MoveVote(counts, choiceOld, p.choice), s'.chain, s', nChoices)
      && Hashes(s'.leaves) == Hashes(s.leaves)[Index(p) := LeafHash(leaf)]
  {
    hide VoteStep, Padded, MoveVote, Recount, Low, Pow2, MsgHash, Hashes;
    StepShape(s, msg, dec);
    var p := dec(msg);
    var idx, leaf := Index(p), LeafData(p.choice, p.revotingKeyNew);
    IndexSmall(p);
    assert idx in s.leaves ==> idx in Data(leaves);
    CountsMove(counts, choiceOld, p.choice);
    LeafWritten(leaves, s.leaves, idx, leaf);
  }

  // What the proof says of aux slots fits both branches of the page.
  lemma NoAuxMatches(p: CircomProof, s: TallyState, idx: nat, n: nat)
    requires ProofOf(p, Hashes(s.leaves), idx, n, DEPTH) && n < DEPTH
    requires idx !in s.leaves && 0 !in s.leaves
    ensures p.isOld0 == (!p.membership && p.oldValue == ZERO)
  {
    var met := Along(Hashes(s.leaves), idx, 0, n);
    AlongWithin(Hashes(s.leaves), idx, n);
    if met != map[] {
      assert p.oldKey in met;
      assert p.oldKey in Hashes(s.leaves) && met[p.oldKey] == Hashes(s.leaves)[p.oldKey];
    }
  }

  lemma LeafWritten(leaves: map<nat, StoredLeaf>, plain: map<nat, LeafData>, idx: nat, leaf: LeafData)
    requires Data(leaves) == plain
    ensures Data(leaves[idx := StoredLeaf(leaf, LeafHash(leaf))]) == plain[idx := leaf]
    ensures Hashes(plain[idx := leaf]) == Hashes(plain)[idx := LeafHash(leaf)]
  {
  }

  ghost function AccOf(s: TallyState): Acc {
    Acc(Canon(Hashes(s.leaves), 0, DEPTH), s.chain, s.counts)
  }

  predicate Accepts(acc: Acc, slot: Slot, dec: Decrypt) {
    TallySingle(true, acc, slot, dec).Some?
  }

  ghost predicate AcceptedOnce(slot: Slot, dec: Decrypt) {
    exists acc :: Accepts(acc, slot, dec)
  }

  // The circuit accepts the first n slots, and they take it from s to the state after n votes.
  ghost predicate AllAccepted(s: TallyState, batch: seq<Msg>, slots: seq<Slot>, n: nat, dec: Decrypt) {
    && n <= |slots| && n <= |batch| <= MAX_BATCH
    && TallySlots(AccOf(s), slots, |batch|, n, dec) == Some(AccOf(VoteAll(s, batch[..n], dec)))
    && (n > 0 ==> AcceptedOnce(slots[n - 1], dec))
  }

  lemma NoneAccepted(s: TallyState, batch: seq<Msg>, dec: Decrypt)
    requires |batch| <= MAX_BATCH
    ensures AllAccepted(s, batch, [], 0, dec)
  {
    assert batch[..0] == [];
  }

  lemma AcceptedMore(s: TallyState, batch: seq<Msg>, slots: seq<Slot>, slot: Slot, i: nat, dec: Decrypt)
    requires |slots| == i < |batch| && AllAccepted(s, batch, slots, i, dec)
    requires Spread(VoteAll(s, batch[..i], dec).leaves.Keys, 0, DEPTH)
    requires slot.msg == batch[i] && slot.nuLo == Index(dec(slot.msg)) && FlagsAreBits(slot)
    requires TallySingle(true, AccOf(VoteAll(s, batch[..i], dec)), slot, dec).Some?
    ensures AllAccepted(s, batch, slots + [slot], i + 1, dec)
  {
    hide Canon, TallySingle, VoteAt, VoteAll, Spread, LessThan16;
    var si := VoteAll(s, batch[..i], dec);
    SmallLess(i, |batch|);
    SlotsPrefix(AccOf(s), slots, [slot], |batch|, i, dec);
    assert Accepts(AccOf(si), slot, dec);
    SingleSound(true, AccOf(si), si, slot, dec);
    assert batch[..i + 1] == batch[..i] + [slot.msg];
    VoteAllSnoc(s, batch[..i], slot.msg, dec);
  }

  // Short lengths are compared as numbers.
  lemma SmallLess(i: nat, batchLen: nat)
    requires i < MAX_BATCH && batchLen <= MAX_BATCH
    ensures LessThan16(i, batchLen) == Some(i < batchLen)
  {
  }

  lemma {:induction false} RepeatsKeep(acc: Acc, slots: seq<Slot>, batchLen: Signal, n: nat, end: Acc, dec: Decrypt)
    requires 0 < batchLen <= n <= |slots| && n <= MAX_BATCH
    requires TallySlots(acc, slots, batchLen, batchLen, dec) == Some(end)
    requires AcceptedOnce(slots[batchLen - 1], dec)
    requires forall i | batchLen <= i < |slots| :: slots[i] == slots[batchLen - 1]
    ensures TallySlots(acc, slots, batchLen, n, dec) == Some(end)
  {
    hide TallySingle, LessThan16;
    if n > batchLen {
      SmallLess(n - 1, batchLen);
      RepeatsKeep(acc, slots, batchLen, n - 1, end, dec);
      var a :| Accepts(a, slots[batchLen - 1], dec);
      RepeatedSlotKeeps(a, slots[batchLen - 1], end, dec);
    }
  }

  // The padded witness is accepted, and its root and tally are the page's own.
  lemma WitnessAccepted(msgs: seq<Msg>, batch: seq<Msg>, built: seq<Slot>, w: Witness, dec: Decrypt)
    requires 0 < |batch| == |built| <= MAX_BATCH == |w.slots| && w.batchLen == |batch|
    requires AllAccepted(TallyOf(msgs, dec), batch, built, |batch|, dec)
    requires built <= w.slots && forall i | |built| <= i < MAX_BATCH :: w.slots[i] == built[|built| - 1]
    requires w.tallyOld == TallyOf(msgs, dec).counts
    ensures var s, s' := TallyOf(msgs, dec), VoteAll(TallyOf(msgs, dec), batch, dec);
      Tally(Canon(Hashes(s.leaves), 0, DEPTH), s.chain, w, dec) ==
        Some(Outputs(TallyHash(w.saltOld, s.counts), Canon(Hashes(s'.leaves), 0, DEPTH), s'.chain, TallyHash(w.saltNew, s'.counts)))
  {
    hide Canon, TallySingle, VoteStep;
    var s := TallyOf(msgs, dec);
    assert batch[..|batch|] == batch;
    assert w.slots == built + w.slots[|built|..];
    SlotsPrefix(AccOf(s), built, w.slots[|built|..], |batch|, |batch|, dec);
    RepeatsKeep(AccOf(s), w.slots, |batch|, MAX_BATCH, AccOf(VoteAll(s, batch, dec)), dec);
    TallyCounted(msgs, dec);
    ChainLengths(msgs, dec);
  }

  lemma OldHash(rootOld: Fr, chainOld: Fr, w: Witness, dec: Decrypt)
    requires Tally(rootOld, chainOld, w, dec).Some?
    ensures Tally(rootOld, chainOld, w, dec).value.tallyHashOld == TallyHash(w.saltOld, w.tallyOld)
  {
  }

  // The page's splits are in range and its flags bits, padding included.
  lemma PageInRange(built: seq<Slot>, w: Witness, dec: Decrypt)
    requires |built| <= MAX_BATCH == |w.slots| && w.batchLen == |built| && built <= w.slots
    requires forall i | 0 <= i < |built| :: Own(built[i], dec)
    ensures M.Meets(w, M.ALL_CHECKS) && Enabled(w.batchLen, MAX_BATCH) == |built|
  {
  }

  // Whatever the page proves ends at the state after the batch's votes.
  lemma BatchProved(s: TallyState, batch: seq<Msg>, built: seq<Slot>, w: Witness, dec: Decrypt)
    requires Spread(s.leaves.Keys, 0, DEPTH) && w.tallyOld == s.counts
    requires Tally(Canon(Hashes(s.leaves), 0, DEPTH), s.chain, w, dec).Some?
    requires |batch| == |built| <= MAX_BATCH == |w.slots| && w.batchLen == |built| && built <= w.slots
    requires Messages(built) == batch && forall i | 0 <= i < |built| :: Own(built[i], dec)
    ensures M.Meets(w, M.ALL_CHECKS) && Messages(w.slots)[..|batch|] == batch
    ensures var s' := VoteAll(s, batch, dec);
      Tally(Canon(Hashes(s.leaves), 0, DEPTH), s.chain, w, dec).value ==
        Outputs(TallyHash(w.saltOld, s.counts), Canon(Hashes(s'.leaves), 0, DEPTH), s'.chain, TallyHash(w.saltNew, s'.counts))
  {
    hide Canon, Tally, TallyHash, CastAll, VoteAll, Own, InRange, Hashes, Spread;
    var root := Canon(Hashes(s.leaves), 0, DEPTH);
    PageInRange(built, w, dec);
    OldHash(root, s.chain, w, dec);
    TallySound(s, w.saltOld, w, dec);
    BatchExact(root, s.chain, w, dec);
    assert Messages(w.slots)[..|batch|] == batch;
  }

  // The two outcomes of a vote.
  lemma StepShape(s: TallyState, msg: Msg, dec: Decrypt)
    ensures var p, chain := dec(msg), Hash2(s.chain, MsgHash(msg));
      var cur := Current(s.leaves, Index(p));
      VoteStep(s, msg, dec) ==
        if p.revotingKeyOld == cur.revotingKey then
          TallyState(s.leaves[Index(p) := LeafData(p.choice, p.revotingKeyNew)], Recount(true, cur.choice, p.choice, s.counts), chain)
        else s.(chain := chain)
  {
  }

  lemma StepKeys(s: TallyState, msg: Msg, dec: Decrypt, all: set<nat>)
    requires s.leaves.Keys <= all && Index(dec(msg)) in all
    ensures VoteStep(s, msg, dec).leaves.Keys <= all
  {
  }

  lemma StepChain(s: TallyState, msg: Msg, dec: Decrypt)
    ensures VoteStep(s, msg, dec).chain == Hash2(s.chain, MsgHash(msg))
  {
  }

  lemma HoldsChain(leaves: map<nat, StoredLeaf>, counts: seq<int>, chain: Fr, s: TallyState, nChoices: nat)
    requires Holds(leaves, counts, chain, s, nChoices)
    ensures chain == s.chain && Padded(counts) == s.counts
    ensures Spread(s.leaves.Keys, 0, DEPTH)
  {
    assert forall k | k in s.leaves :: k in Data(leaves);
    SmallKeysSpread(s.leaves.Keys, DEPTH);
  }

  // The page reads of its leaf map what the tally holds at an index.
  lemma HoldsLookup(leaves: map<nat, StoredLeaf>, counts: seq<int>, chain: Fr, s: TallyState, nChoices: nat, idx: nat)
    requires Holds(leaves, counts, chain, s, nChoices)
    ensures idx in leaves <==> idx in s.leaves
    ensures Current(s.leaves, idx) == if idx in leaves then leaves[idx].data else LeafData(0, HASH0)
    ensures Spread(s.leaves.Keys, 0, DEPTH) && Hashes(s.leaves).Keys == s.leaves.Keys
    ensures Current(s.leaves, idx).choice <= nChoices == |counts|
  {
    assert idx in leaves <==> idx in Data(leaves);
    HoldsChain(leaves, counts, chain, s, nChoices);
  }

  // A vote that does not count leaves the page's variables as they are.
  lemma Skipped(leaves: map<nat, StoredLeaf>, counts: seq<int>, s: TallyState, msg: Msg, dec: Decrypt, nChoices: nat)
    requires Holds(leaves, counts, s.chain, s, nChoices)
    ensures dec(msg).revotingKeyOld != Current(s.leaves, Index(dec(msg))).revotingKey ==>
      VoteStep(s, msg, dec).leaves == s.leaves && Holds(leaves, counts, VoteStep(s, msg, dec).chain, VoteStep(s, msg, dec), nChoices)
  {
    hide Padded, Pow2, Low;
  }

  lemma StartHolds(nChoices: nat)
    requires nChoices <= MAX_CHOICES
    ensures Holds(map[], NoVotes(nChoices), ZERO, START, nChoices)
  {
    assert Data(map[]) == map[];
  }

  lemma GoodSmaller(all: set<nat>, keys: set<nat>)
    requires GoodIndices(all) && keys <= all
    ensures GoodIndices(keys)
  {
  }

  class Page {
    const nChoices: nat
    var store: Option<TallyStore>

    constructor (nChoices: nat)
      requires 0 < nChoices <= MAX_CHOICES
      ensures this.nChoices == nChoices && store == None
      ensures Carries(store, START, nChoices)
    {
      this.nChoices, store := nChoices, None;
    }

    // The stored leaves in any order give the one tree of the leaf map.
    method Rebuild(leaves: map<nat, StoredLeaf>, ghost s: TallyState, ghost counts: seq<int>)
      returns (mt: SparseMerkleTree, ok: bool)
      requires Holds(leaves, counts, s.chain, s, nChoices)
      ensures fresh(mt) && fresh(mt.store) && mt.Valid() && !mt.store.staged && mt.depth == DEPTH
      ensures ok ==> mt.leaves == Hashes(s.leaves)
      ensures GoodIndices(s.leaves.Keys) ==> ok
    {
      hide Canon, Bit, SameBits, WellFormed, PathNodes, Wrote, Fold, Spread, Grows, Padded, LeafHash;
      var db := new NodeStore.Mem();
      SpreadEmpty(map[], 0, DEPTH);
      CanonEmpty(0, DEPTH);
      assert db.All() == map[];
      mt := new SparseMerkleTree(db, DEPTH, map[]);
      var rest := leaves.Keys;
      ok := true;
      while rest != {}
        invariant rest <= leaves.Keys
        invariant mt.Valid() && !mt.store.staged && mt.depth == DEPTH && fresh(mt) && fresh(mt.store)
        invariant mt.leaves.Keys == leaves.Keys - rest
        invariant forall k | k in mt.leaves :: mt.leaves[k] == leaves[k].hash
        decreases rest
      {
        var k :| k in rest;
        if GoodIndices(s.leaves.Keys) {
          GoodSubset(s.leaves.Keys, mt.leaves.Keys, k);
        }
        var added := mt.AddOrUpdate(k, leaves[k].hash);
        if !added.Ok? {
          return mt, false;
        }
        rest := rest - {k};
      }
    }

    // Add the leaf, or update it when the index is taken.
    method WriteLeaf(mt: SparseMerkleTree, idx: nat, h: Fr) returns (ok: bool, wasLeafEmpty: bool)
      requires mt.Valid() && !mt.store.staged && mt.depth == DEPTH
      modifies mt, mt.store
      ensures mt.Valid()
      ensures ok ==> mt.leaves == old(mt.leaves)[idx := h] && wasLeafEmpty == (idx !in old(mt.leaves))
      ensures !Shadowed(old(mt.leaves).Keys, idx, 0, DEPTH - 1) && !Shadowed(old(mt.leaves).Keys, idx, 0, DEPTH) ==> ok
    {
      hide Canon, Bit, SameBits, WellFormed, PathNodes, Wrote, Spread, Grows, Shadowed;
      var added := mt.Add(idx, h);
      ok, wasLeafEmpty := added.Ok?, added.Ok?;
      if added.AlreadyPresent? {
        var u := mt.Update(idx, h);
        ok := u.Ok?;
      }
    }

    // A vote that counts: its leaf replaces the one at its index, and the counts move with it. A
    // choice the page has no count for makes it fail.
    method ReplaceLeaf(mt: SparseMerkleTree, msg: Msg, dec: Decrypt, choiceOld: Signal, leaves: map<nat, StoredLeaf>, counts: seq<int>,
                       ghost s: TallyState)
      returns (ok: bool, wasLeafEmpty: bool, leaves': map<nat, StoredLeaf>, counts': seq<int>)
      requires mt.Valid() && !mt.store.staged && mt.depth == DEPTH && mt.leaves == Hashes(s.leaves)
      requires Holds(leaves, counts, s.chain, s, nChoices)
      requires Current(s.leaves, Index(dec(msg))) == LeafData(choiceOld, dec(msg).revotingKeyOld)
      modifies mt, mt.store
      ensures mt.Valid()
      ensures ok ==> dec(msg).choice <= nChoices
      ensures ok ==> mt.leaves == Hashes(VoteStep(s, msg, dec).leaves) && wasLeafEmpty == (Index(dec(msg)) !in s.leaves)
      ensures ok ==> Holds(leaves', counts', VoteStep(s, msg, dec).chain, VoteStep(s, msg, dec), nChoices)
      ensures var idx := Index(dec(msg));
        !Shadowed(s.leaves.Keys, idx, 0, DEPTH - 1) && !Shadowed(s.leaves.Keys, idx, 0, DEPTH) && dec(msg).choice <= nChoices ==> ok
    {
      hide Canon, WellFormed, PathNodes, Grows, Low, Shadowed, VoteStep, Hashes, Spread, Holds, Wrote;
      HoldsLookup(leaves, counts, s.chain, s, nChoices, Index(dec(msg)));
      HashesKeys(s.leaves);
      var plain := dec(msg);
      var idx, leaf := Index(plain), LeafData(plain.choice, plain.revotingKeyNew);
      ok, wasLeafEmpty := WriteLeaf(mt, idx, LeafHash(leaf));
      leaves', counts' := leaves[idx := StoredLeaf(leaf, LeafHash(leaf))], counts;
      if choiceOld != 0 {
        counts' := counts'[choiceOld - 1 := counts'[choiceOld - 1] - 1];
      }
      if plain.choice > |counts'| {
        return false, wasLeafEmpty, leaves', counts';
      }
      if plain.choice != 0 {
        counts' := counts'[plain.choice - 1 := counts'[plain.choice - 1] + 1];
      }
      HoldsNext(leaves, counts, s, msg, dec, choiceOld, nChoices);
      assert counts' == MoveVote(counts, choiceOld, plain.choice);
    }

    // One vote of the batch: its slot, and the tree, leaves and counts moved past it.
    method TallyOne(mt: SparseMerkleTree, msg: Msg, dec: Decrypt, leaves: map<nat, StoredLeaf>, counts: seq<int>,
                    ghost s: TallyState, ghost all: set<nat>)
      returns (ok: bool, slot: Slot, leaves': map<nat, StoredLeaf>, counts': seq<int>)
      requires mt.Valid() && !mt.store.staged && mt.depth == DEPTH && mt.leaves == Hashes(s.leaves)
      requires Holds(leaves, counts, s.chain, s, nChoices)
      modifies mt, mt.store
      ensures mt.Valid()
      ensures slot.msg == msg && Own(slot, dec)
      ensures ok ==> Fits(s, msg, nChoices, dec)
      ensures ok ==> mt.leaves == Hashes(VoteStep(s, msg, dec).leaves)
      ensures ok ==> Holds(leaves', counts', VoteStep(s, msg, dec).chain, VoteStep(s, msg, dec), nChoices)
      ensures GoodIndices(all) && s.leaves.Keys <= all && Index(dec(msg)) in all && Fits(s, msg, nChoices, dec) ==>
        ok && TallySingle(true, Acc(Canon(Hashes(s.leaves), 0, DEPTH), s.chain, s.counts), slot, dec).Some?
    {
      hide ProofOf, GoodIndices, VoteStep, Hashes, TallySingle, Shadowed, Holds, InRange;
      SlotBuilt(s, msg, dec, all);
      Skipped(leaves, counts, s, msg, dec, nChoices);
      HoldsLookup(leaves, counts, s.chain, s, nChoices, Index(dec(msg)));
      OwnSplit(dec(msg).nu);
      var plain := dec(msg);
      var idx := Index(plain);
      var choiceOld: Signal, revotingOld, known := 0, HASH0, idx in leaves;
      if known {
        choiceOld, revotingOld := leaves[idx].data.choice, leaves[idx].data.revotingKey;
      }
      var p := mt.GetProof(idx);
      var noAux, wasLeafEmpty := p.isOld0, !known;
      leaves', counts', ok := leaves, counts, true;
      if revotingOld == plain.revotingKeyOld {
        ok, wasLeafEmpty, leaves', counts' := ReplaceLeaf(mt, msg, dec, choiceOld, leaves, counts, s);
      } else {
        noAux := !p.membership && p.oldValue == ZERO;
      }
      slot := Slot(msg, p.siblings, choiceOld, revotingOld, Flag(noAux), p.oldKey, p.oldValue, Flag(wasLeafEmpty), idx,
                   High(plain.nu, DEPTH), ZERO);
    }

    // The slots of the whole batch, in order.
    method BuildSlots(mt: SparseMerkleTree, batch: seq<Msg>, dec: Decrypt, leaves0: map<nat, StoredLeaf>, counts0: seq<int>,
                      chain0: Fr, ghost s: TallyState, ghost all: set<nat>)
      returns (ok: bool, slots: seq<Slot>, leaves: map<nat, StoredLeaf>, counts: seq<int>, chain: Fr)
      requires mt.Valid() && !mt.store.staged && mt.depth == DEPTH && mt.leaves == Hashes(s.leaves)
      requires Holds(leaves0, counts0, chain0, s, nChoices) && |batch| <= MAX_BATCH
      requires s.leaves.Keys <= all && forall msg | msg in batch :: Index(dec(msg)) in all
      modifies mt, mt.store
      ensures mt.Valid()
      ensures ok ==> |slots| == |batch| && Messages(slots) == batch && forall i | 0 <= i < |slots| :: Own(slots[i], dec)
      ensures ok ==> mt.leaves == Hashes(VoteAll(s, batch, dec).leaves)
      ensures ok ==> Holds(leaves, counts, chain, VoteAll(s, batch, dec), nChoices)
      ensures ok ==> AllFit(s, batch, nChoices, dec)
      ensures GoodIndices(all) && AllFit(s, batch, nChoices, dec) ==> ok
      ensures GoodIndices(all) && ok ==> AllAccepted(s, batch, slots, |batch|, dec)
    {
      hide Canon, Bit, WellFormed, Fold, Spread, TallySingle, Padded, VoteStep, AllAccepted, Holds, MsgHash, GoodIndices, Hashes, Pow2, TallySlots, Grows, VoteAll;
      leaves, counts, chain, slots, ok := leaves0, counts0, chain0, [], true;
      NoneAccepted(s, batch, dec);
      VoteNone(s, dec);
      assert batch[..0] == [];
      for i := 0 to |batch|
        invariant mt.Valid()
        invariant |slots| == i && Messages(slots) == batch[..i] && forall j | 0 <= j < i :: Own(slots[j], dec)
        invariant mt.leaves == Hashes(VoteAll(s, batch[..i], dec).leaves)
        invariant VoteAll(s, batch[..i], dec).leaves.Keys <= all
        invariant Holds(leaves, counts, chain, VoteAll(s, batch[..i], dec), nChoices)
        invariant forall j | 0 <= j < i :: Fits(VoteAll(s, batch[..j], dec), batch[j], nChoices, dec)
        invariant GoodIndices(all) ==> AllAccepted(s, batch, slots, i, dec)
      {
        var msg := batch[i];
        ghost var before, prior := VoteAll(s, batch[..i], dec), slots;
        assert batch[..i + 1] == batch[..i] + [msg];
        VoteAllSnoc(s, batch[..i], msg, dec);
        StepKeys(before, msg, dec, all);
        var slot;
        HoldsChain(leaves, counts, chain, before, nChoices);
        ok, slot, leaves, counts := TallyOne(mt, msg, dec, leaves, counts, before, all);
        if !ok {
          return;
        }
        slots := slots + [slot];
        chain := Hash2(chain, MsgHash(msg));
        StepChain(before, msg, dec);
        if GoodIndices(all) {
          AcceptedMore(s, batch, prior, slot, i, dec);
        }
      }
      assert batch[..|batch|] == batch;
    }

    // Repeat the last slot up to the circuit's width.
    method Pad(built: seq<Slot>) returns (slots: seq<Slot>)
      requires 0 < |built| <= MAX_BATCH
      ensures |slots| == MAX_BATCH && built <= slots
      ensures forall i | |built| <= i < MAX_BATCH :: slots[i] == built[|built| - 1]
    {
      slots := built;
      while |slots| < MAX_BATCH
        invariant |built| <= |slots| <= MAX_BATCH && built <= slots
        invariant forall i | |built| <= i < |slots| :: slots[i] == built[|built| - 1]
        decreases MAX_BATCH - |slots|
      {
        slots := slots + [slots[|slots| - 1]];
      }
    }

    // The witness of the next batch after msgs, and what the page will store once it is sent. The
    // witness is accepted whenever the indices are good; and whatever is accepted stands for
    // exactly these votes.
    method NextBatch(batch: seq<Msg>, dec: Decrypt, saltNew: U64, ghost msgs: seq<Msg>) returns (r: Option<Prepared>)
      requires 0 < |batch| <= MAX_BATCH && 0 < nChoices <= MAX_CHOICES
      requires Carries(store, TallyOf(msgs, dec), nChoices)
      ensures r.Some? ==> AllFit(TallyOf(msgs, dec), batch, nChoices, dec)
      ensures GoodIndices(TallyOf(msgs, dec).leaves.Keys + Indices(batch, dec)) ==>
        (r.Some? <==> AllFit(TallyOf(msgs, dec), batch, nChoices, dec))
      ensures r.Some? ==>
        var s, s' := TallyOf(msgs, dec), TallyOf(msgs + batch, dec);
        var b, next := r.value.batch, r.value.next;
        && Tally(b.rootOld, b.chainOld, b.inputs, dec) == Some(b.outputs)
        && b.rootOld == Canon(Hashes(s.leaves), 0, DEPTH) && b.chainOld == s.chain
        && b.inputs.batchLen == |batch| && |b.inputs.slots| == MAX_BATCH
        && Messages(b.inputs.slots)[..|batch|] == batch && M.Meets(b.inputs, M.ALL_CHECKS)
        && b.outputs == Outputs(
             TallyHash(Num(SaltOf(store)), s.counts),
             Canon(Hashes(s'.leaves), 0, DEPTH), s'.chain, TallyHash(Num(saltNew), s'.counts))
        && Carries(Some(next), s', nChoices)
        && next.root == b.outputs.rootNew && next.tallySalt == saltNew && next.processedCount == CountOf(store) + |batch|
    {
      hide Canon, WellFormed, Spread, Padded, AllAccepted, Holds, Tally, TallyHash, VoteAll, CastAll, Enabled, Own, M.Meets, AllFit, GoodIndices, Hashes;
      ghost var s := TallyOf(msgs, dec);
      var leaves := if store.Some? then store.value.leaves else map[];
      var counts := if store.Some? then store.value.tallyCounts else NoVotes(nChoices);
      var chain := if store.Some? then store.value.runningMsgHash else ZERO;
      var saltOld, salt := Num(SaltOf(store)), Num(saltNew);
      StartHolds(nChoices);
      ghost var all := s.leaves.Keys + Indices(batch, dec);
      if GoodIndices(all) {
        GoodSmaller(all, s.leaves.Keys);
      }
      HoldsChain(leaves, counts, chain, s, nChoices);
      var mt, rebuilt := Rebuild(leaves, s, counts);
      if !rebuilt {
        return None;
      }
      var rootOld := mt.store.root;
      var ok, built, leaves', counts', chain' := BuildSlots(mt, batch, dec, leaves, counts, chain, s, all);
      if !ok {
        return None;
      }
      VoteAllConcat(START, msgs, batch, dec);
      assert TallyOf(msgs + batch, dec) == VoteAll(s, batch, dec);
      HoldsChain(leaves', counts', chain', VoteAll(s, batch, dec), nChoices);
      var slots := Pad(built);
      var inputs := Witness(|batch|, Padded(counts), saltOld, salt, slots);
      if GoodIndices(all) {
        WitnessAccepted(msgs, batch, built, inputs, dec);
      }
      var proved := Tally(rootOld, chain, inputs, dec);
      if proved.None? || proved.value.rootNew != mt.store.root || proved.value.tallyHashNew != TallyHash(salt, Padded(counts')) {
        return None;
      }
      BatchProved(s, batch, built, inputs, dec);
      var next := TallyStore(CountOf(store) + |batch|, mt.store.root, proved.value.chainNew, saltNew, counts', leaves');
      r := Some(Prepared(Batch(rootOld, chain, inputs, proved.value), next));
    }

    // The page and its tally account both stand where the votes msgs lead.
    ghost predicate InStep(acc: M.TallyAccount, msgs: seq<Msg>, dec: Decrypt)
      reads this, acc
    {
      && 0 < nChoices <= MAX_CHOICES
      && Carries(store, TallyOf(msgs, dec), nChoices)
      && CountOf(store) == |msgs|
      && (store.Some? ==> msgs != [] && M.StandsFor(acc.View(), msgs, Num(store.value.tallySalt), dec))
    }

    // A new page is in step with any account before the first vote.
    lemma StartsInStep(acc: M.TallyAccount, votes: seq<Msg>, dec: Decrypt)
      requires 0 < nChoices <= MAX_CHOICES && store == None
      ensures CountOf(store) == 0 && InStep(acc, votes[..0], dec)
    {
      VoteNone(START, dec);
      assert votes[..0] == [];
    }

    // Tally the next votes: the account is opened with the first batch, and the proof is checked
    // against it. The page stores the batch when the wallet's send returns, whether or not the
    // transaction lands; after the first batch the two stay in step exactly when it does both or neither.
    method OnTallyNext(acc: M.TallyAccount, batch: seq<Msg>, dec: Decrypt, saltNew: U64, returned: bool, landed: bool, ghost msgs: seq<Msg>)
      returns (prepared: bool)
      requires 0 < |batch| <= MAX_BATCH && InStep(acc, msgs, dec)
      modifies this, acc
      ensures prepared ==> AllFit(TallyOf(msgs, dec), batch, nChoices, dec)
      ensures GoodIndices(TallyOf(msgs, dec).leaves.Keys + Indices(batch, dec)) ==>
        (prepared <==> AllFit(TallyOf(msgs, dec), batch, nChoices, dec))
      ensures !(prepared && returned) ==> store == old(store)
      ensures !(prepared && landed) ==> acc.View() == old(acc.View())
      ensures !prepared || returned == landed ==> InStep(acc, if prepared && landed then msgs + batch else msgs, dec)
      ensures prepared && old(store).Some? ==>
        store.Some? && (acc.cumulativeMsgHash == store.value.runningMsgHash <==> returned == landed)
    {
      hide Canon, Tally, VoteAll, Holds, TallyHash, Hashes, Padded;
      ghost var s := TallyOf(msgs, dec);
      NothingCounted(msgs, dec);
      EmptyRoot();
      var next := NextBatch(batch, dec, saltNew, msgs);
      prepared := next.Some?;
      if !prepared {
        return;
      }
      CarriesChain(store, s, nChoices);
      CarriesChain(Some(next.value.next), TallyOf(msgs + batch, dec), nChoices);
      ChainMoves(msgs, batch, dec);
      if landed {
        var b := next.value.batch;
        if store.None? {
          acc.Create(TallyHash(ZERO, NoVotes(MAX_CHOICES)));
        }
        var verifies := acc.tallyHash == b.outputs.tallyHashOld && acc.root == b.rootOld && acc.cumulativeMsgHash == b.chainOld;
        var ok := acc.Batch(verifies, b.outputs.rootNew, b.outputs.chainNew, b.outputs.tallyHashNew);
        assert ok;
      }
      if returned {
        store := Some(next.value.next);
      }
    }

    // Finish with the stored counts and salt. It succeeds exactly when voting is over and every
    // vote of the poll was processed, and then stores the tally of all of them.
    method OnFinishTally(poll: M.PollAccount, acc: M.TallyAccount, now: nat, ghost msgs: seq<Msg>, ghost dec: Decrypt)
      returns (ok: bool)
      requires InStep(acc, msgs, dec) && poll.nChoices == nChoices
      requires M.PollOk(poll.View(), now, dec)
      modifies poll, acc
      ensures ok == (poll.votingEndTime < now && msgs == poll.msgs)
      ensures ok ==> M.ResultOf(poll.tally, poll.msgs, nChoices, dec)
      ensures poll.View() == if ok then old(poll.View()).(tally := poll.tally) else old(poll.View())
      ensures !ok ==> acc.View() == old(acc.View()) && InStep(acc, msgs, dec)
    {
      hide Canon, VoteAll, Hashes;
      ghost var s := TallyOf(msgs, dec);
      var counts := if store.Some? then store.value.tallyCounts else NoVotes(nChoices);
      var salt := SaltOf(store);
      NothingCounted(msgs, dec);
      StartHolds(nChoices);
      CountsAreNats(msgs, dec, counts, nChoices);
      var tally: seq<nat> := seq(|counts|, i requires 0 <= i < |counts| && counts[i] >= 0 => counts[i]);
      var hash, chain, root := acc.tallyHash, acc.cumulativeMsgHash, acc.root;
      if store.None? {
        acc.Create(TallyHash(ZERO, NoVotes(MAX_CHOICES)));
      }
      assert M.Preimage(tally) == s.counts;
      if acc.cumulativeMsgHash == poll.cumulativeMsgHash {
        ChainBinds(msgs, poll.msgs, dec);
      }
      ok := poll.Finish(acc, now, tally, salt);
      if ok {
        ResultIs(tally, counts, msgs, nChoices, dec);
      } else {
        acc.tallyHash, acc.cumulativeMsgHash, acc.root := hash, chain, root;
      }
    }

    // From any point of the tally, processing what remains in batches and finishing stores the
    // tally of all the poll's votes. It needs voting to be over and every send to land; with good
    // indices it then fails exactly when a counting vote that remains is beyond the page's counts.
    method TallyPoll(poll: M.PollAccount, acc: M.TallyAccount, votes: seq<Msg>, dec: Decrypt, salts: nat -> U64, sends: nat -> bool, now: nat)
      returns (ok: bool)
      requires votes == poll.msgs && CountOf(store) <= |votes| && InStep(acc, votes[..CountOf(store)], dec)
      requires poll.nChoices == nChoices && M.PollOk(poll.View(), now, dec)
      modifies this, poll, acc
      ensures ok ==> M.ResultOf(poll.tally, votes, nChoices, dec) && poll.votingEndTime < now
      ensures ok ==> AllFit(TallyOf(votes[..old(CountOf(store))], dec), votes[old(CountOf(store))..], nChoices, dec)
      ensures GoodIndices(Indices(votes, dec)) && poll.votingEndTime < now && (forall n :: sends(n)) ==>
        (ok <==> AllFit(TallyOf(votes[..old(CountOf(store))], dec), votes[old(CountOf(store))..], nChoices, dec))
      ensures !ok ==> CountOf(store) <= |votes| && InStep(acc, votes[..CountOf(store)], dec)
    {
      hide InStep, AllFit, VoteAll;
      ghost var from := CountOf(store);
      NoneFit(votes, from, nChoices, dec);
      while CountOf(store) < |votes|
        invariant from <= CountOf(store) <= |votes| && InStep(acc, votes[..CountOf(store)], dec)
        invariant AllFit(TallyOf(votes[..from], dec), votes[from..CountOf(store)], nChoices, dec)
        invariant poll.View() == old(poll.View())
        decreases |votes| - CountOf(store)
      {
        var done := CountOf(store);
        var next := if done + MAX_BATCH <= |votes| then done + MAX_BATCH else |votes|;
        assert votes[..next] == votes[..done] + votes[done..next];
        IndicesWithin(votes, done, next, dec);
        FitFurther(votes, from, done, next, nChoices, dec);
        var sent := sends(done);
        ok := OnTallyNext(acc, votes[done..next], dec, salts(done), sent, sent, votes[..done]);
        ok := ok && sent;
        InStepCount(acc, votes[..if ok then next else done], dec);
        if !ok {
          return;
        }
      }
      assert votes[..|votes|] == votes && votes[from..|votes|] == votes[from..];
      ok := OnFinishTally(poll, acc, now, votes, dec);
    }

    lemma InStepCount(acc: M.TallyAccount, msgs: seq<Msg>, dec: Decrypt)
      requires InStep(acc, msgs, dec)
      ensures CountOf(store) == |msgs|
    {
    }
  }

  datatype Prepared = Prepared(batch: Batch, next: TallyStore)

  function SaltOf(store: Option<TallyStore>): U64 {
    if store.Some? then store.value.tallySalt else 0
  }

  function CountOf(store: Option<TallyStore>): nat {
    if store.Some? then store.value.processedCount else 0
  }

  lemma NoneFit(votes: seq<Msg>, from: nat, nChoices: nat, dec: Decrypt)
    requires from <= |votes|
    ensures AllFit(TallyOf(votes[..from], dec), votes[from..from], nChoices, dec)
  {
  }

  // What fits so far and in the next batch; and a batch that does not fit, in votes that so cannot.
  lemma FitFurther(votes: seq<Msg>, from: nat, done: nat, next: nat, nChoices: nat, dec: Decrypt)
    requires from <= done <= next <= |votes|
    requires AllFit(TallyOf(votes[..from], dec), votes[from..done], nChoices, dec)
    ensures AllFit(TallyOf(votes[..done], dec), votes[done..next], nChoices, dec) <==>
      AllFit(TallyOf(votes[..from], dec), votes[from..next], nChoices, dec)
    ensures AllFit(TallyOf(votes[..from], dec), votes[from..], nChoices, dec) ==>
      AllFit(TallyOf(votes[..from], dec), votes[from..next], nChoices, dec)
  {
    hide AllFit, VoteAll;
    var s := TallyOf(votes[..from], dec);
    VoteAllConcat(START, votes[..from], votes[from..done], dec);
    assert votes[..done] == votes[..from] + votes[from..done];
    AllFitSplit(s, votes[from..done], votes[done..next], nChoices, dec);
    assert votes[from..next] == votes[from..done] + votes[done..next];
    AllFitSplit(s, votes[from..next], votes[next..], nChoices, dec);
    assert votes[from..] == votes[from..next] + votes[next..];
  }

  // Only before the first vote is the state the start.
  lemma NothingCounted(msgs: seq<Msg>, dec: Decrypt)
    ensures msgs == [] <==> TallyOf(msgs, dec) == START
    ensures msgs == [] <==> TallyOf(msgs, dec).chain == ZERO
  {
    ChainLengths(msgs, dec);
  }

  lemma EmptyRoot()
    ensures Canon(Hashes(START.leaves), 0, DEPTH) == ZERO && NoVotes(MAX_CHOICES) == START.counts
  {
    assert Hashes(START.leaves) == map[];
    CanonEmpty(0, DEPTH);
  }

  lemma CarriesChain(store: Option<TallyStore>, s: TallyState, nChoices: nat)
    requires Carries(store, s, nChoices)
    ensures store.Some? ==> store.value.runningMsgHash == s.chain && Spread(s.leaves.Keys, 0, DEPTH)
  {
    if store.Some? {
      HoldsChain(store.value.leaves, store.value.tallyCounts, store.value.runningMsgHash, s, nChoices);
    }
  }

  // A batch always moves the chain.
  lemma ChainMoves(msgs: seq<Msg>, batch: seq<Msg>, dec: Decrypt)
    requires batch != []
    ensures TallyOf(msgs, dec).chain != TallyOf(msgs + batch, dec).chain
  {
    if TallyOf(msgs, dec).chain == TallyOf(msgs + batch, dec).chain {
      ChainBinds(msgs, msgs + batch, dec);
    }
  }

  lemma CountsAreNats(msgs: seq<Msg>, dec: Decrypt, counts: seq<int>, nChoices: nat)
    requires |counts| == nChoices <= MAX_CHOICES && Padded(counts) == TallyOf(msgs, dec).counts
    ensures forall i | 0 <= i < |counts| :: counts[i] >= 0
  {
    TallyCounted(msgs, dec);
    CountsBounded(TallyOf(msgs, dec), MAX_CHOICES);
    forall i | 0 <= i < |counts| ensures counts[i] >= 0 {
      assert counts[i] == TallyOf(msgs, dec).counts[i];
    }
  }

  lemma ResultIs(tally: seq<nat>, counts: seq<int>, msgs: seq<Msg>, nChoices: nat, dec: Decrypt)
    requires |counts| == |tally| == nChoices <= MAX_CHOICES && Padded(counts) == TallyOf(msgs, dec).counts
    requires forall i | 0 <= i < nChoices :: tally[i] == counts[i]
    ensures M.ResultOf(tally, msgs, nChoices, dec)
  {
    hide VoteAll;
  }

  lemma {:induction false} KeysWithin(msgs: seq<Msg>, dec: Decrypt)
    ensures TallyOf(msgs, dec).leaves.Keys <= Indices(msgs, dec)
  {
    if msgs != [] {
      var init, last := msgs[..|msgs| - 1], msgs[|msgs| - 1];
      KeysWithin(init, dec);
      forall idx | idx in Indices(init, dec) + {Index(dec(last))} ensures idx in Indices(msgs, dec) {
        if idx in Indices(init, dec) {
          var i :| 0 <= i < |init| && Index(dec(init[i])) == idx;
          assert Index(dec(msgs[i])) == idx;
        } else {
          assert Index(dec(msgs[|msgs| - 1])) == idx;
        }
      }
      StepKeys(TallyOf(init, dec), last, dec, Indices(msgs, dec));
    }
  }

  // The indices a batch meets are among those of all the votes.
  lemma IndicesWithin(votes: seq<Msg>, done: nat, next: nat, dec: Decrypt)
    requires done <= next <= |votes|
    ensures TallyOf(votes[..done], dec).leaves.Keys + Indices(votes[done..next], dec) <= Indices(votes, dec)
    ensures GoodIndices(Indices(votes, dec)) ==>
      GoodIndices(TallyOf(votes[..done], dec).leaves.Keys + Indices(votes[done..next], dec))
  {
    KeysWithin(votes[..done], dec);
    forall i | 0 <= i < done ensures Index(dec(votes[..done][i])) in Indices(votes, dec) {
      assert Index(dec(votes[i])) in Indices(votes, dec);
    }
    forall i | 0 <= i < next - done ensures Index(dec(votes[done..next][i])) in Indices(votes, dec) {
      assert Index(dec(votes[done + i])) in Indices(votes, dec);
    }
    if GoodIndices(Indices(votes, dec)) {
      GoodSmaller(Indices(votes, dec), TallyOf(votes[..done], dec).leaves.Keys + Indices(votes[done..next], dec));
    }
  }
}
