// The tally of a message sequence, and the batch circuit that advances it under hashes.

module TallyCircuit {
  import opened Field
  import opened Wrappers
  import opened Keys
  import opened Canonical
  import opened Signals
  import opened SmtCircuit

  const DEPTH: nat := 64
  const MAX_CHOICES: nat := 11
  const MAX_BATCH: nat := 6

  // ---- What a message sequence means ----

  datatype Msg = Msg(ephX: Fr, ephY: Fr, nonce: Fr, ciphertext: seq<Fr>)
  datatype Plain = Plain(nu: Signal, choice: Signal, revotingKeyOld: Fr, revotingKeyNew: Fr)

  // The tallier's decryption, a fixed function of the message.
  type Decrypt = Msg -> Plain

  datatype LeafData = LeafData(choice: Signal, revotingKey: Fr)
  datatype TallyState = TallyState(leaves: map<nat, LeafData>, counts: seq<int>, chain: Fr)

  function NoVotes(n: nat): (counts: seq<int>)
    ensures |counts| == n && forall i | 0 <= i < n :: counts[i] == 0
  {
    seq(n, _ => 0)
  }

  const START := TallyState(map[], NoVotes(MAX_CHOICES), ZERO)

  function MsgHash(msg: Msg): Fr {
    HashN([msg.ephX, msg.ephY, msg.nonce] + msg.ciphertext)
  }

  function Index(p: Plain): Signal {
    Low(p.nu, DEPTH)
  }

  // An index nobody voted at has choice 0 under the hash of zero.
  function Current(leaves: map<nat, LeafData>, idx: nat): LeafData {
    if idx in leaves then leaves[idx] else LeafData(0, HASH0)
  }

  function TallyChoice(enabled: bool, choiceOld: nat, choiceNew: nat, choiceNumber: nat, tallyOld: int): int {
    tallyOld + if enabled then (if choiceNew == choiceNumber then 1 else 0) - (if choiceOld == choiceNumber then 1 else 0)
               else 0
  }

  function Recount(enabled: bool, choiceOld: nat, choiceNew: nat, counts: seq<int>): (r: seq<int>)
    ensures |r| == |counts|
    ensures forall t | 0 <= t < |counts| :: r[t] == TallyChoice(enabled, choiceOld, choiceNew, t + 1, counts[t])
  {
    seq(|counts|, t requires 0 <= t < |counts| => TallyChoice(enabled, choiceOld, choiceNew, t + 1, counts[t]))
  }

  // A vote counts when it names the revoting key its index holds; it then replaces that leaf.
  function VoteAt(s: TallyState, msg: Msg, idx: nat, dec: Decrypt): (s': TallyState)
    ensures |s'.counts| == |s.counts|
  {
    var p := dec(msg);
    var cur := Current(s.leaves, idx);
    var chain := Hash2(s.chain, MsgHash(msg));
    if p.revotingKeyOld != cur.revotingKey then s.(chain := chain)
    else TallyState(
      s.leaves[idx := LeafData(p.choice, p.revotingKeyNew)],
      Recount(true, cur.choice, p.choice, s.counts),
      chain)
  }

  // A vote belongs at the index its nullifier names.
  function VoteStep(s: TallyState, msg: Msg, dec: Decrypt): (s': TallyState)
    ensures |s'.counts| == |s.counts|
  {
    VoteAt(s, msg, Index(dec(msg)), dec)
  }

  function VoteAll(s: TallyState, msgs: seq<Msg>, dec: Decrypt): (s': TallyState)
    ensures |s'.counts| == |s.counts|
  {
    if msgs == [] then s else VoteStep(VoteAll(s, msgs[..|msgs| - 1], dec), msgs[|msgs| - 1], dec)
  }

  function TallyOf(msgs: seq<Msg>, dec: Decrypt): TallyState {
    VoteAll(START, msgs, dec)
  }

  lemma VoteNone(s: TallyState, dec: Decrypt)
    ensures VoteAll(s, [], dec) == s
  {
  }

  lemma VoteAllSnoc(s: TallyState, msgs: seq<Msg>, msg: Msg, dec: Decrypt)
    ensures VoteAll(s, msgs + [msg], dec) == VoteStep(VoteAll(s, msgs, dec), msg, dec)
  {
    assert (msgs + [msg])[..|msgs|] == msgs;
  }

  // Batching is invisible: one pass over a + b is a pass over b from where a ended.
  lemma {:induction false} VoteAllConcat(s: TallyState, a: seq<Msg>, b: seq<Msg>, dec: Decrypt)
    ensures VoteAll(s, a + b, dec) == VoteAll(VoteAll(s, a, dec), b, dec)
  {
    if b == [] {
      assert a + b == a;
    } else {
      assert (a + b)[..|a + b| - 1] == a + b[..|b| - 1];
      VoteAllConcat(s, a, b[..|b| - 1], dec);
    }
  }

  // ---- Messages counted at indices of someone's choosing ----

  datatype Cast = Cast(msg: Msg, idx: nat)

  function CastAll(s: TallyState, casts: seq<Cast>, dec: Decrypt): (s': TallyState)
    ensures |s'.counts| == |s.counts|
  {
    if casts == [] then s
    else VoteAt(CastAll(s, casts[..|casts| - 1], dec), casts[|casts| - 1].msg, casts[|casts| - 1].idx, dec)
  }

  function Msgs(casts: seq<Cast>): (msgs: seq<Msg>)
    ensures |msgs| == |casts| && forall i | 0 <= i < |casts| :: msgs[i] == casts[i].msg
  {
    seq(|casts|, i requires 0 <= i < |casts| => casts[i].msg)
  }

  function AtIndices(msgs: seq<Msg>, dec: Decrypt): (casts: seq<Cast>)
    ensures |casts| == |msgs| && forall i | 0 <= i < |msgs| :: casts[i] == Cast(msgs[i], Index(dec(msgs[i])))
  {
    seq(|msgs|, i requires 0 <= i < |msgs| => Cast(msgs[i], Index(dec(msgs[i]))))
  }

  predicate TrueIndices(casts: seq<Cast>, dec: Decrypt) {
    forall i | 0 <= i < |casts| :: casts[i].idx == Index(dec(casts[i].msg))
  }

  lemma AtIndicesTrue(msgs: seq<Msg>, dec: Decrypt)
    ensures TrueIndices(AtIndices(msgs, dec), dec) && Msgs(AtIndices(msgs, dec)) == msgs
  {
  }

  lemma CastNone(s: TallyState, dec: Decrypt)
    ensures CastAll(s, [], dec) == s
  {
  }

  lemma CastAllSnoc(s: TallyState, casts: seq<Cast>, cast: Cast, dec: Decrypt)
    ensures CastAll(s, casts + [cast], dec) == VoteAt(CastAll(s, casts, dec), cast.msg, cast.idx, dec)
  {
    assert (casts + [cast])[..|casts|] == casts;
  }

  lemma {:induction false} CastAllConcat(s: TallyState, a: seq<Cast>, b: seq<Cast>, dec: Decrypt)
    ensures CastAll(s, a + b, dec) == CastAll(CastAll(s, a, dec), b, dec)
  {
    if b == [] {
      assert a + b == a;
    } else {
      assert (a + b)[..|a + b| - 1] == a + b[..|b| - 1];
      CastAllConcat(s, a, b[..|b| - 1], dec);
    }
  }

  // Counted at their own indices, messages give their own tally.
  lemma {:induction false} TrueCasts(s: TallyState, casts: seq<Cast>, dec: Decrypt)
    requires TrueIndices(casts, dec)
    ensures CastAll(s, casts, dec) == VoteAll(s, Msgs(casts), dec)
  {
    if casts != [] {
      TrueCasts(s, casts[..|casts| - 1], dec);
      assert Msgs(casts)[..|casts| - 1] == Msgs(casts[..|casts| - 1]);
    }
  }

  // The chain is of the messages alone, wherever they were counted.
  lemma {:induction false} CastChain(casts: seq<Cast>, dec: Decrypt)
    ensures CastAll(START, casts, dec).chain == TallyOf(Msgs(casts), dec).chain
  {
    if casts != [] {
      CastChain(casts[..|casts| - 1], dec);
      assert Msgs(casts)[..|casts| - 1] == Msgs(casts[..|casts| - 1]);
    }
  }

  // The chain binds the messages: same chain from the start, same sequence.
  lemma {:induction false} ChainBinds(a: seq<Msg>, b: seq<Msg>, dec: Decrypt)
    requires TallyOf(a, dec).chain == TallyOf(b, dec).chain
    ensures a == b
  {
    if a == [] || b == [] {
      assert b == [] && a == [];
    } else {
      var m, n := a[|a| - 1], b[|b| - 1];
      ChainBinds(a[..|a| - 1], b[..|b| - 1], dec);
      MsgHashBinds(m, n);
      assert a == a[..|a| - 1] + [m] && b == b[..|b| - 1] + [n];
    }
  }

  lemma MsgHashBinds(m: Msg, n: Msg)
    requires MsgHash(m) == MsgHash(n)
    ensures m == n
  {
    var xs, ys := [m.ephX, m.ephY, m.nonce] + m.ciphertext, [n.ephX, n.ephY, n.nonce] + n.ciphertext;
    assert xs == ys;
    assert xs[0] == ys[0] && xs[1] == ys[1] && xs[2] == ys[2];
    assert m.ciphertext == xs[3..] && n.ciphertext == ys[3..];
  }

  lemma ChainLengths(msgs: seq<Msg>, dec: Decrypt)
    ensures TallyOf(msgs, dec).chain == ZERO <==> msgs == []
  {
  }

  // ---- Conservation ----

  function Holders(leaves: map<nat, LeafData>, choice: nat): set<nat> {
    set k | k in leaves && leaves[k].choice == choice
  }

  // The incremental counts are the counts of the current leaves.
  ghost predicate Counted(s: TallyState) {
    forall t | 0 <= t < |s.counts| :: s.counts[t] == |Holders(s.leaves, t + 1)|
  }

  lemma HoldersUpdate(leaves: map<nat, LeafData>, idx: nat, leaf: LeafData, c: nat)
    requires c > 0
    ensures |Holders(leaves[idx := leaf], c)| == TallyChoice(true, Current(leaves, idx).choice, leaf.choice, c, |Holders(leaves, c)|)
  {
    var before, after := Holders(leaves, c), Holders(leaves[idx := leaf], c);
    var others := before - {idx};
    assert idx in before <==> Current(leaves, idx).choice == c;
    assert before == if idx in before then others + {idx} else others;
    assert after == if leaf.choice == c then others + {idx} else others;
  }

  lemma StepCounted(s: TallyState, msg: Msg, idx: nat, dec: Decrypt)
    requires Counted(s)
    ensures Counted(VoteAt(s, msg, idx, dec))
  {
    var p := dec(msg);
    var s' := VoteAt(s, msg, idx, dec);
    forall t | 0 <= t < |s'.counts| ensures s'.counts[t] == |Holders(s'.leaves, t + 1)| {
      HoldersUpdate(s.leaves, idx, LeafData(p.choice, p.revotingKeyNew), t + 1);
    }
  }

  // Wherever messages were counted, tally[t] is the number of indices whose leaf now holds choice t+1.
  lemma {:induction false} CastsCounted(casts: seq<Cast>, dec: Decrypt)
    ensures Counted(CastAll(START, casts, dec)) && |CastAll(START, casts, dec).counts| == MAX_CHOICES
  {
    if casts == [] {
      forall c: nat ensures Holders(START.leaves, c) == {} {
      }
    } else {
      var init, last := casts[..|casts| - 1], casts[|casts| - 1];
      CastsCounted(init, dec);
      StepCounted(CastAll(START, init, dec), last.msg, last.idx, dec);
    }
  }

  lemma TallyCounted(msgs: seq<Msg>, dec: Decrypt)
    ensures Counted(TallyOf(msgs, dec)) && |TallyOf(msgs, dec).counts| == MAX_CHOICES
  {
    AtIndicesTrue(msgs, dec);
    TrueCasts(START, AtIndices(msgs, dec), dec);
    CastsCounted(AtIndices(msgs, dec), dec);
  }

  function HoldersUpTo(leaves: map<nat, LeafData>, n: nat): set<nat> {
    set k | k in leaves && 1 <= leaves[k].choice <= n
  }

  function Sum(counts: seq<int>): int {
    if counts == [] then 0 else Sum(counts[..|counts| - 1]) + counts[|counts| - 1]
  }

  // Counts are never negative and sum to at most the number of indices used.
  lemma {:induction false} CountsBounded(s: TallyState, n: nat)
    requires Counted(s) && n <= |s.counts|
    ensures forall t | 0 <= t < n :: s.counts[t] >= 0
    ensures Sum(s.counts[..n]) == |HoldersUpTo(s.leaves, n)|
    ensures Sum(s.counts[..n]) <= |s.leaves|
  {
    var upTo := HoldersUpTo(s.leaves, n);
    if n == 0 {
      assert upTo == {};
    } else {
      CountsBounded(s, n - 1);
      var below := HoldersUpTo(s.leaves, n - 1);
      assert upTo == below + Holders(s.leaves, n) && below !! Holders(s.leaves, n);
      assert s.counts[..n][..n - 1] == s.counts[..n - 1];
    }
    SubsetSize(upTo, s.leaves.Keys);
    assert |s.leaves.Keys| == |s.leaves|;
  }

  lemma SubsetSize(a: set<nat>, b: set<nat>)
    requires a <= b
    ensures |a| <= |b|
  {
    assert b == a + (b - a);
  }

  // Choices within the poll's range, or beyond every count, leave each later count at zero.
  lemma {:induction false} UnusedChoices(msgs: seq<Msg>, dec: Decrypt, nChoices: nat)
    requires forall msg | msg in msgs :: dec(msg).choice <= nChoices || dec(msg).choice > MAX_CHOICES
    ensures var s := TallyOf(msgs, dec);
      && (forall k | k in s.leaves :: s.leaves[k].choice <= nChoices || s.leaves[k].choice > MAX_CHOICES)
      && |s.counts| == MAX_CHOICES && (forall t | nChoices <= t < MAX_CHOICES :: s.counts[t] == 0)
  {
    if msgs != [] {
      var msg, s := msgs[|msgs| - 1], TallyOf(msgs[..|msgs| - 1], dec);
      UnusedChoices(msgs[..|msgs| - 1], dec, nChoices);
      var p := dec(msg);
      assert msg in msgs;
      assert TallyOf(msgs, dec) == VoteStep(s, msg, dec);
    }
  }

  // ---- The circuit ----

  // Private inputs of one slot; nuLo and nuHi are the hinted halves of the nullifier, bound only
  // by the one constraint that they add up to it in the field; noAux and wasLeafEmpty are flags that
  // nothing makes bits, and anyRoot is the root the processor gives for such.
  datatype Slot = Slot(
    msg: Msg, siblings: seq<Fr>, choiceOld: Signal, revotingKeyOld: Fr,
    noAux: Signal, auxKey: nat, auxValue: Fr, wasLeafEmpty: Signal, nuLo: Signal, nuHi: Signal, anyRoot: Fr)

  datatype Acc = Acc(root: Fr, chain: Fr, counts: seq<int>)

  function LeafHash(leaf: LeafData): Fr {
    Hash2(Num(leaf.choice), leaf.revotingKey)
  }

  // The outputs of one slot, or None when one of its constraints fails.
  function TallySingle(enabled: bool, acc: Acc, slot: Slot, dec: Decrypt): Option<Acc> {
    var p := dec(slot.msg);
    var isVoteValid := enabled && p.revotingKeyOld == slot.revotingKeyOld;
    if !Splits(p.nu, slot.nuLo, slot.nuHi) || |slot.siblings| != DEPTH then None
    else if slot.wasLeafEmpty != 0 && !(slot.choiceOld == 0 && slot.revotingKeyOld == HASH0) then None
    else if enabled && !Verifier(acc.root, slot.siblings, slot.auxKey, slot.auxValue, slot.noAux, slot.nuLo,
                                 LeafHash(LeafData(slot.choiceOld, slot.revotingKeyOld)), slot.wasLeafEmpty) then None
    else match Processor(acc.root, slot.siblings, slot.auxKey, slot.auxValue, slot.noAux, slot.nuLo,
                         LeafHash(LeafData(p.choice, p.revotingKeyNew)), WriteOp(isVoteValid, slot.wasLeafEmpty), slot.anyRoot)
      case None => None
      case Some(rootNew) => Some(Acc(
        rootNew,
        if enabled then Hash2(acc.chain, MsgHash(slot.msg)) else acc.chain,
        Recount(isVoteValid, slot.choiceOld, p.choice, acc.counts)))
  }

  // The first n slots, those below batchLen enabled.
  function TallySlots(acc: Acc, slots: seq<Slot>, batchLen: Signal, n: nat, dec: Decrypt): Option<Acc>
    requires n <= |slots| && n <= MAX_BATCH
  {
    if n == 0 then Some(acc)
    else
      var mid, enabled := TallySlots(acc, slots, batchLen, n - 1, dec), LessThan16(n - 1, batchLen);
      if mid.None? || enabled.None? then None else TallySingle(enabled.value, mid.value, slots[n - 1], dec)
  }

  datatype Witness = Witness(batchLen: Signal, tallyOld: seq<int>, saltOld: Fr, saltNew: Fr, slots: seq<Slot>)
  datatype Outputs = Outputs(tallyHashOld: Fr, rootNew: Fr, chainNew: Fr, tallyHashNew: Fr)

  function Nums(xs: seq<int>): (r: seq<Fr>)
    ensures |r| == |xs| && forall i | 0 <= i < |xs| :: r[i] == Num(xs[i])
  {
    seq(|xs|, i requires 0 <= i < |xs| => Num(xs[i]))
  }

  function TallyHash(salt: Fr, counts: seq<int>): Fr {
    HashN([salt] + Nums(counts))
  }

  function Tally(rootOld: Fr, chainOld: Fr, w: Witness, dec: Decrypt): Option<Outputs> {
    if |w.slots| != MAX_BATCH || |w.tallyOld| != MAX_CHOICES then None
    else if chainOld == ZERO && w.tallyOld != START.counts then None
    else match TallySlots(Acc(rootOld, chainOld, w.tallyOld), w.slots, w.batchLen, MAX_BATCH, dec)
      case None => None
      case Some(acc) => Some(Outputs(TallyHash(w.saltOld, w.tallyOld), acc.root, acc.chain, TallyHash(w.saltNew, acc.counts)))
  }

  lemma TallyHashBinds(salt: Fr, counts: seq<int>, salt': Fr, counts': seq<int>)
    requires TallyHash(salt, counts) == TallyHash(salt', counts')
    ensures salt == salt' && counts == counts'
  {
    var xs, ys := [salt] + Nums(counts), [salt'] + Nums(counts');
    assert xs == ys && |xs| == 1 + |counts| && |ys| == 1 + |counts'|;
    assert xs[0] == ys[0];
    forall i | 0 <= i < |counts| ensures counts[i] == counts'[i] {
      assert xs[i + 1] == ys[i + 1];
    }
  }

  // The three hashes, spelled out.
  lemma HashLayouts(msg: Msg, leaf: LeafData, salt: Fr, counts: seq<int>)
    ensures MsgHash(msg) == HashN([msg.ephX, msg.ephY, msg.nonce] + msg.ciphertext)
    ensures LeafHash(leaf) == Hash2(Num(leaf.choice), leaf.revotingKey)
    ensures TallyHash(salt, counts) == HashN([salt] + Nums(counts))
    ensures |counts| == 11 ==> Nums(counts) == [Num(counts[0]), Num(counts[1]), Num(counts[2]), Num(counts[3]), Num(counts[4]),
      Num(counts[5]), Num(counts[6]), Num(counts[7]), Num(counts[8]), Num(counts[9]), Num(counts[10])]
  {
  }

  // The widths of the circuit: eleven counts, six slots and sixty-four siblings.
  lemma Widths(rootOld: Fr, chainOld: Fr, w: Witness, dec: Decrypt)
    requires Tally(rootOld, chainOld, w, dec).Some?
    ensures |w.tallyOld| == 11 && |w.slots| == 6 && forall i | 0 <= i < 6 :: |w.slots[i].siblings| == 64
  {
    hide TallySingle;
    var acc := Acc(rootOld, chainOld, w.tallyOld);
    forall i | 0 <= i < 6 ensures |w.slots[i].siblings| == 64 {
      SlotWidth(acc, w.slots, w.batchLen, 6, i, dec);
    }
  }

  lemma {:induction false} SlotWidth(acc: Acc, slots: seq<Slot>, batchLen: Signal, n: nat, i: nat, dec: Decrypt)
    requires i < n <= |slots| && n <= MAX_BATCH && TallySlots(acc, slots, batchLen, n, dec).Some?
    ensures |slots[i].siblings| == 64
  {
    hide SmtVerifier, SmtProcessor;
    if i < n - 1 {
      SlotWidth(acc, slots, batchLen, n - 1, i, dec);
    }
  }

  // ---- The circuit computes the tally ----

  function Hashes(leaves: map<nat, LeafData>): Leaves {
    map k | k in leaves :: LeafHash(leaves[k])
  }

  ghost predicate Abstracts(acc: Acc, s: TallyState) {
    && Spread(s.leaves.Keys, 0, DEPTH)
    && acc.root == Canon(Hashes(s.leaves), 0, DEPTH)
    && acc.chain == s.chain && acc.counts == s.counts
  }

  lemma HashesKeys(leaves: map<nat, LeafData>)
    ensures Hashes(leaves).Keys == leaves.Keys
  {
  }

  predicate FlagsAreBits(slot: Slot) {
    IsBit(slot.noAux) && IsBit(slot.wasLeafEmpty)
  }

  // With flags that are bits, the old choice and key a slot claims are those of the index it uses.
  lemma SlotOpens(acc: Acc, s: TallyState, slot: Slot, dec: Decrypt)
    requires Abstracts(acc, s) && FlagsAreBits(slot)
    requires TallySingle(true, acc, slot, dec).Some?
    ensures Current(s.leaves, slot.nuLo) == LeafData(slot.choiceOld, slot.revotingKeyOld)
    ensures slot.wasLeafEmpty == 1 <==> slot.nuLo !in s.leaves
  {
    hide Canon, SmtVerifier, SmtProcessor, Spread;
    HashesKeys(s.leaves);
    VerifierSound(Hashes(s.leaves), slot.siblings, slot.auxKey, slot.auxValue, slot.noAux == 1, slot.nuLo,
                  LeafHash(LeafData(slot.choiceOld, slot.revotingKeyOld)), slot.wasLeafEmpty == 1);
  }

  // The index an accepted slot uses is its message's own exactly when its split is in range,
  // which the circuit does not check.
  lemma SlotIndexExact(enabled: bool, acc: Acc, slot: Slot, dec: Decrypt)
    requires TallySingle(enabled, acc, slot, dec).Some?
    ensures slot.nuLo == Index(dec(slot.msg)) <==> InRange(slot.nuLo, slot.nuHi)
  {
    SplitExact(dec(slot.msg).nu, slot.nuLo, slot.nuHi);
  }

  // A counting vote: the tree takes its leaf, and the counts move.
  lemma CountedSound(acc: Acc, s: TallyState, slot: Slot, dec: Decrypt)
    requires Abstracts(acc, s) && FlagsAreBits(slot)
    requires TallySingle(true, acc, slot, dec).Some? && dec(slot.msg).revotingKeyOld == slot.revotingKeyOld
    ensures Abstracts(TallySingle(true, acc, slot, dec).value, VoteAt(s, slot.msg, slot.nuLo, dec))
  {
    SlotOpens(acc, s, slot, dec);
    CountedShape(acc, slot, dec);
    hide Canon, TallySingle, SmtProcessor, Hashes, MsgHash, Recount, Spread;
    CountedRoot(acc, s, slot, LeafData(dec(slot.msg).choice, dec(slot.msg).revotingKeyNew));
  }

  lemma CountedRoot(acc: Acc, s: TallyState, slot: Slot, leaf: LeafData)
    requires Abstracts(acc, s) && |slot.siblings| == DEPTH
    requires SmtProcessor(acc.root, slot.siblings, slot.auxKey, slot.auxValue, slot.noAux == 1, slot.nuLo,
                          LeafHash(leaf), if slot.wasLeafEmpty == 1 then Insert else Change).Some?
    ensures Spread(s.leaves[slot.nuLo := leaf].Keys, 0, DEPTH)
    ensures SmtProcessor(acc.root, slot.siblings, slot.auxKey, slot.auxValue, slot.noAux == 1, slot.nuLo,
                         LeafHash(leaf), if slot.wasLeafEmpty == 1 then Insert else Change).value
            == Canon(Hashes(s.leaves[slot.nuLo := leaf]), 0, DEPTH)
  {
    hide Canon, SmtProcessor, Spread, LeafHash;
    HashesKeys(s.leaves);
    HashesKeys(s.leaves[slot.nuLo := leaf]);
    assert Hashes(s.leaves[slot.nuLo := leaf]) == Hashes(s.leaves)[slot.nuLo := LeafHash(leaf)];
    ProcessorSound(Hashes(s.leaves), slot.siblings, slot.auxKey, slot.auxValue, slot.noAux == 1, slot.nuLo,
                   LeafHash(leaf), if slot.wasLeafEmpty == 1 then Insert else Change);
  }

  lemma CountedShape(acc: Acc, slot: Slot, dec: Decrypt)
    requires FlagsAreBits(slot)
    requires TallySingle(true, acc, slot, dec).Some? && dec(slot.msg).revotingKeyOld == slot.revotingKeyOld
    ensures var p := dec(slot.msg);
      var rootNew := SmtProcessor(acc.root, slot.siblings, slot.auxKey, slot.auxValue, slot.noAux == 1, slot.nuLo,
                                  LeafHash(LeafData(p.choice, p.revotingKeyNew)), if slot.wasLeafEmpty == 1 then Insert else Change);
      && rootNew.Some? && |slot.siblings| == DEPTH
      && TallySingle(true, acc, slot, dec) ==
           Some(Acc(rootNew.value, Hash2(acc.chain, MsgHash(slot.msg)), Recount(true, slot.choiceOld, p.choice, acc.counts)))
  {
    hide SmtVerifier, SmtProcessor;
  }

  // An accepted enabled slot is its message counted at the index the slot uses.
  lemma SingleSound(enabled: bool, acc: Acc, s: TallyState, slot: Slot, dec: Decrypt)
    requires Abstracts(acc, s) && (enabled ==> FlagsAreBits(slot))
    requires TallySingle(enabled, acc, slot, dec).Some?
    ensures Abstracts(TallySingle(enabled, acc, slot, dec).value, if enabled then VoteAt(s, slot.msg, slot.nuLo, dec) else s)
  {
    hide Canon, SmtVerifier, Spread, Hashes, MsgHash;
    if enabled && dec(slot.msg).revotingKeyOld == slot.revotingKeyOld {
      hide TallySingle, VoteAt, Abstracts;
      CountedSound(acc, s, slot, dec);
    } else {
      assert TallySingle(enabled, acc, slot, dec).value.counts == acc.counts;
      if enabled {
        SlotOpens(acc, s, slot, dec);
      }
    }
  }

  function Messages(slots: seq<Slot>): (msgs: seq<Msg>)
    ensures |msgs| == |slots| && forall i | 0 <= i < |slots| :: msgs[i] == slots[i].msg
  {
    seq(|slots|, i requires 0 <= i < |slots| => slots[i].msg)
  }

  // The messages of the slots, each at the index its slot uses.
  function Casts(slots: seq<Slot>): (casts: seq<Cast>)
    ensures |casts| == |slots| && forall i | 0 <= i < |slots| :: casts[i] == Cast(slots[i].msg, slots[i].nuLo)
  {
    seq(|slots|, i requires 0 <= i < |slots| => Cast(slots[i].msg, slots[i].nuLo))
  }

  // How many of the first n slots are enabled; a length that wraps around enables none.
  function Enabled(batchLen: Signal, n: nat): (k: nat)
    ensures k <= n
  {
    if batchLen > 0x1_0000 + MAX_BATCH then 0 else if batchLen < n then batchLen else n
  }

  lemma EnabledIs(batchLen: Signal, i: nat)
    requires i < MAX_BATCH && LessThan16(i, batchLen).Some?
    ensures LessThan16(i, batchLen).value <==> i < Enabled(batchLen, i + 1)
    ensures Enabled(batchLen, i + 1) == Enabled(batchLen, i) + if LessThan16(i, batchLen).value then 1 else 0
    ensures LessThan16(i, batchLen).value ==> Enabled(batchLen, i) == i
  {
  }

  lemma SlotsNone(acc: Acc, slots: seq<Slot>, batchLen: Signal, dec: Decrypt)
    ensures TallySlots(acc, slots, batchLen, 0, dec) == Some(acc)
  {
  }

  lemma SlotsStep(acc: Acc, slots: seq<Slot>, batchLen: Signal, n: nat, dec: Decrypt)
    requires 0 < n <= |slots| && n <= MAX_BATCH
    ensures TallySlots(acc, slots, batchLen, n, dec) ==
      var mid, enabled := TallySlots(acc, slots, batchLen, n - 1, dec), LessThan16(n - 1, batchLen);
      if mid.None? || enabled.None? then None else TallySingle(enabled.value, mid.value, slots[n - 1], dec)
  {
  }

  lemma {:induction false} SlotsSound(acc: Acc, s: TallyState, slots: seq<Slot>, batchLen: Signal, n: nat, dec: Decrypt)
    requires n <= |slots| && n <= MAX_BATCH && Abstracts(acc, s)
    requires TallySlots(acc, slots, batchLen, n, dec).Some?
    requires forall i | 0 <= i < Enabled(batchLen, n) :: FlagsAreBits(slots[i])
    ensures Abstracts(TallySlots(acc, slots, batchLen, n, dec).value,
                      CastAll(s, Casts(slots)[..Enabled(batchLen, n)], dec))
  {
    hide TallySlots, TallySingle, Abstracts, VoteAt, CastAll, LessThan16, Enabled;
    if n == 0 {
      assert Casts(slots)[..Enabled(batchLen, 0)] == [];
      CastNone(s, dec);
      SlotsNone(acc, slots, batchLen, dec);
    } else {
      SlotsStep(acc, slots, batchLen, n, dec);
      EnabledIs(batchLen, n - 1);
      SlotsSound(acc, s, slots, batchLen, n - 1, dec);
      var mid := TallySlots(acc, slots, batchLen, n - 1, dec).value;
      var before, after := Casts(slots)[..Enabled(batchLen, n - 1)], Casts(slots)[..Enabled(batchLen, n)];
      SingleSound(LessThan16(n - 1, batchLen).value, mid, CastAll(s, before, dec), slots[n - 1], dec);
      if LessThan16(n - 1, batchLen).value {
        assert after == before + [Cast(slots[n - 1].msg, slots[n - 1].nuLo)];
        CastAllSnoc(s, before, Cast(slots[n - 1].msg, slots[n - 1].nuLo), dec);
      } else {
        assert after == before;
      }
    }
  }

  // What a batch counts, and where.
  function CastsOf(w: Witness): seq<Cast> {
    Casts(w.slots)[..Enabled(w.batchLen, |w.slots|)]
  }

  // The range of the halves, on every slot it counts; the circuit leaves its check out.
  ghost predicate AllInRange(w: Witness) {
    forall i | 0 <= i < Enabled(w.batchLen, |w.slots|) :: InRange(w.slots[i].nuLo, w.slots[i].nuHi)
  }

  // Flags that are bits, on every slot it counts; the circuit leaves this out too.
  ghost predicate BitFlags(w: Witness) {
    forall i | 0 <= i < Enabled(w.batchLen, |w.slots|) :: FlagsAreBits(w.slots[i])
  }

  // Soundness of a batch: an accepted batch whose flags are bits, and that starts at the root, chain
  // and tally of s, ends at those of s after its messages, counted at the indices it uses.
  lemma TallySound(s: TallyState, salt: Fr, w: Witness, dec: Decrypt)
    requires Spread(s.leaves.Keys, 0, DEPTH) && BitFlags(w)
    requires var out := Tally(Canon(Hashes(s.leaves), 0, DEPTH), s.chain, w, dec);
      out.Some? && out.value.tallyHashOld == TallyHash(salt, s.counts)
    ensures var out := Tally(Canon(Hashes(s.leaves), 0, DEPTH), s.chain, w, dec).value;
      var s' := CastAll(s, CastsOf(w), dec);
      && Spread(s'.leaves.Keys, 0, DEPTH)
      && out.rootNew == Canon(Hashes(s'.leaves), 0, DEPTH)
      && out.chainNew == s'.chain
      && out.tallyHashNew == TallyHash(w.saltNew, s'.counts)
  {
    hide TallySlots, Canon, Spread;
    TallyHashBinds(salt, s.counts, w.saltOld, w.tallyOld);
    SlotsSound(Acc(Canon(Hashes(s.leaves), 0, DEPTH), s.chain, w.tallyOld), s, w.slots, w.batchLen, MAX_BATCH, dec);
  }

  lemma {:induction false} SlotsSplit(acc: Acc, slots: seq<Slot>, batchLen: Signal, n: nat, i: nat, dec: Decrypt)
    requires i < n <= |slots| && n <= MAX_BATCH && TallySlots(acc, slots, batchLen, n, dec).Some?
    ensures slots[i].nuLo == Index(dec(slots[i].msg)) <==> InRange(slots[i].nuLo, slots[i].nuHi)
  {
    hide TallySlots, TallySingle, InRange, Low;
    SlotsStep(acc, slots, batchLen, n, dec);
    if i == n - 1 {
      var mid := TallySlots(acc, slots, batchLen, n - 1, dec).value;
      SlotIndexExact(LessThan16(n - 1, batchLen).value, mid, slots[i], dec);
    } else {
      SlotsSplit(acc, slots, batchLen, n - 1, i, dec);
    }
  }

  // An accepted batch counts its messages at their own indices exactly when its splits are in
  // range; then it ends at the tally of those messages.
  lemma BatchExact(rootOld: Fr, chainOld: Fr, w: Witness, dec: Decrypt)
    requires Tally(rootOld, chainOld, w, dec).Some?
    ensures TrueIndices(CastsOf(w), dec) <==> AllInRange(w)
    ensures AllInRange(w) ==>
      forall s :: CastAll(s, CastsOf(w), dec) == VoteAll(s, Messages(w.slots)[..Enabled(w.batchLen, MAX_BATCH)], dec)
  {
    var acc, n := Acc(rootOld, chainOld, w.tallyOld), Enabled(w.batchLen, MAX_BATCH);
    forall i | 0 <= i < n
      ensures CastsOf(w)[i].idx == Index(dec(CastsOf(w)[i].msg)) <==> InRange(w.slots[i].nuLo, w.slots[i].nuHi)
    {
      SlotsSplit(acc, w.slots, w.batchLen, MAX_BATCH, i, dec);
    }
    if AllInRange(w) {
      assert Msgs(CastsOf(w)) == Messages(w.slots)[..n];
      forall s ensures CastAll(s, CastsOf(w), dec) == VoteAll(s, Messages(w.slots)[..n], dec) {
        TrueCasts(s, CastsOf(w), dec);
      }
    }
  }

  // A voter's first vote, naming the hash of zero, counts for its choice and is the tree's one leaf.
  lemma FirstVote(msg: Msg, dec: Decrypt)
    requires dec(msg).revotingKeyOld == Hash1(Num(0))
    ensures var s, p := TallyOf([msg], dec), dec(msg);
      && (forall t | 0 <= t < 11 :: s.counts[t] == if p.choice == t + 1 then 1 else 0)
      && s.chain == Hash2(Num(0), HashN([msg.ephX, msg.ephY, msg.nonce] + msg.ciphertext))
      && Canon(Hashes(s.leaves), 0, 64) == Hash3(Num(Index(p)), Hash2(Num(p.choice), p.revotingKeyNew), Num(1))
  {
    var p := dec(msg);
    VoteNone(START, dec);
    VoteAllSnoc(START, [], msg, dec);
    assert [] + [msg] == [msg];
    hide VoteAll, Low, Canon;
    var leaves := TallyOf([msg], dec).leaves;
    assert leaves == map[Index(p) := LeafData(p.choice, p.revotingKeyNew)];
    assert Hashes(leaves) == map[Index(p) := LeafHash(LeafData(p.choice, p.revotingKeyNew))];
    CanonSingle(Hashes(leaves), Index(p), 0, 64);
  }

  // A later vote of the same voter moves the count if it names the key last left, and otherwise
  // changes nothing but the chain.
  lemma SecondVote(first: Msg, second: Msg, dec: Decrypt)
    requires dec(first).revotingKeyOld == Hash1(Num(0)) && dec(second).nu == dec(first).nu
    ensures var counts, p := TallyOf([first, second], dec).counts, dec(second);
      forall t | 0 <= t < 11 ::
        counts[t] == if (if p.revotingKeyOld == dec(first).revotingKeyNew then p.choice else dec(first).choice) == t + 1 then 1 else 0
  {
    FirstVote(first, dec);
    VoteNone(START, dec);
    VoteAllSnoc(START, [], first, dec);
    VoteAllSnoc(START, [first], second, dec);
    assert [] + [first] == [first] && [first] + [second] == [first, second];
    hide VoteAll, Low, Canon, MsgHash;
  }
}
