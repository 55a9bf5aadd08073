// Inputs that use what is left unchecked: a split out of range counts one voter twice, in a whole run
// of the voting program, and exceeds a relay quota; a flag that is not a bit drops a revote; a choice
// just below the modulus stops the page; a nullifier above it misplaces the relayer's mirror.

module Unchecked {
  import opened Field
  import opened Keys
  import opened Canonical
  import opened Signals
  import opened SparseMerkle
  import opened SmtCircuit
  import opened TallyCircuit
  import opened MootVote
  import opened Wrappers
  import C = TallyClient
  import R = Relay
  import S = Relayer

  const OWN: Signal := 7      // the nullifier, which is its own index
  const OTHER: Signal := 6    // another index

  lemma OtherSplits()
    ensures Splits(OWN, OWN, 0) && Splits(OWN, OTHER, INVERSE)
    ensures InRange(OWN, 0) && !InRange(OTHER, INVERSE)
  {
    assert OTHER + INVERSE * SHIFT == OWN + MODULUS * COFACTOR;
    Remainder(OTHER + INVERSE * SHIFT, OWN, COFACTOR);
  }

  lemma FirstTurns()
    ensures Bit(OWN, 0) && !Bit(OTHER, 0)
  {
    assert Pow2(0) == 1;
  }

  lemma NoSiblings()
    ensures Level(Zeros(64)) == 0 && Zeros(64)[..0] == []
  {
    LevelIs(Zeros(64), 0);
  }

  // An insert into the empty tree.
  lemma IntoEmpty(key: nat, v: Fr)
    ensures SmtVerifier(ZERO, Zeros(64), 0, ZERO, true, key, v, true)
    ensures SmtProcessor(ZERO, Zeros(64), 0, ZERO, true, key, v, Insert) == Some(LeafKey(key, v))
  {
    NoSiblings();
  }

  // An insert beside the one leaf at OWN.
  lemma Beside(x: Fr, v: Fr, w: Fr)
    ensures SmtVerifier(LeafKey(OWN, x), Zeros(64), OWN, x, false, OTHER, v, true)
    ensures SmtProcessor(LeafKey(OWN, x), Zeros(64), OWN, x, false, OTHER, w, Insert).Some?
  {
    NoSiblings();
    FirstTurns();
  }

  // ---- Two first votes of one voter ----

  const NEWKEY := Hash1(Num(1))

  // Messages of seven ciphertext words, told apart by their nonces.
  function Sent(nonce: U64): (msg: Msg)
    ensures |msg.ciphertext| == 7 && msg.nonce == Num(nonce)
  {
    Msg(Num(1), Num(2), Num(nonce), [ZERO, ZERO, ZERO, ZERO, ZERO, ZERO, ZERO])
  }

  // Every message is a first vote for choice 1 under the one nullifier.
  function SameVoter(msg: Msg): Plain {
    Plain(OWN, 1, HASH0, NEWKEY)
  }

  const LEAF := LeafHash(LeafData(1, NEWKEY))
  const FIRST := Slot(Sent(0), Zeros(64), 0, HASH0, 1, 0, ZERO, 1, OWN, 0, ZERO)
  const SECOND := Slot(Sent(1), Zeros(64), 0, HASH0, 0, OWN, LEAF, 1, OTHER, INVERSE, ZERO)
  const BATCH := Witness(2, START.counts, Num(0), Num(1), [FIRST, SECOND, SECOND, SECOND, SECOND, SECOND])

  lemma FirstAccepted()
    ensures TallySingle(true, Acc(ZERO, ZERO, START.counts), FIRST, SameVoter).Some?
    ensures TallySingle(true, Acc(ZERO, ZERO, START.counts), FIRST, SameVoter).value.root == LeafKey(OWN, LEAF)
  {
    hide SmtVerifier, SmtProcessor, Splits, MsgHash, Sent;
    OtherSplits();
    IntoEmpty(OWN, LeafHash(LeafData(0, HASH0)));
    IntoEmpty(OWN, LEAF);
  }

  lemma SecondAccepted(acc: Acc)
    requires acc.root == LeafKey(OWN, LEAF)
    ensures TallySingle(true, acc, SECOND, SameVoter).Some?
  {
    hide SmtVerifier, SmtProcessor, Splits, MsgHash, Sent;
    OtherSplits();
    Beside(LEAF, LeafHash(LeafData(0, HASH0)), LEAF);
  }

  lemma BatchAccepted()
    ensures Tally(ZERO, ZERO, BATCH, SameVoter).Some? && BitFlags(BATCH) && !AllInRange(BATCH)
    ensures CastsOf(BATCH) == [Cast(Sent(0), OWN), Cast(Sent(1), OTHER)]
  {
    hide TallySingle, LessThan16, InRange, Sent;
    var acc, slots := Acc(ZERO, ZERO, START.counts), BATCH.slots;
    C.SmallLess(0, 2);
    C.SmallLess(1, 2);
    FirstAccepted();
    SlotsNone(acc, slots, 2, SameVoter);
    SlotsStep(acc, slots, 2, 1, SameVoter);
    var mid := TallySlots(acc, slots, 2, 1, SameVoter).value;
    SecondAccepted(mid);
    SlotsStep(acc, slots, 2, 2, SameVoter);
    assert C.Accepts(mid, SECOND, SameVoter);
    C.RepeatsKeep(acc, slots, 2, MAX_BATCH, TallySlots(acc, slots, 2, 2, SameVoter).value, SameVoter);
    OtherSplits();
    assert BATCH.slots[1] == SECOND;
  }

  // The batch ends at two votes for choice 1 ...
  lemma BatchCounts()
    ensures var s := CastAll(START, [Cast(Sent(0), OWN), Cast(Sent(1), OTHER)], SameVoter);
      && s.counts[0] == 2 && (forall t | 1 <= t < MAX_CHOICES :: s.counts[t] == 0)
      && s.chain == Hash2(Hash2(ZERO, MsgHash(Sent(0))), MsgHash(Sent(1)))
  {
    hide MsgHash, CastAll, Sent;
    CastNone(START, SameVoter);
    CastAllSnoc(START, [], Cast(Sent(0), OWN), SameVoter);
    CastAllSnoc(START, [Cast(Sent(0), OWN)], Cast(Sent(1), OTHER), SameVoter);
    assert [] + [Cast(Sent(0), OWN)] == [Cast(Sent(0), OWN)] && [Cast(Sent(0), OWN)] + [Cast(Sent(1), OTHER)] == [Cast(Sent(0), OWN), Cast(Sent(1), OTHER)];
  }

  // ... while the tally of its messages is one.
  lemma VotesCount()
    ensures TallyOf([Sent(0), Sent(1)], SameVoter).counts[0] == 1
  {
    hide MsgHash, VoteAll, Sent;
    VoteNone(START, SameVoter);
    VoteAllSnoc(START, [], Sent(0), SameVoter);
    VoteAllSnoc(START, [Sent(0)], Sent(1), SameVoter);
    assert [] + [Sent(0)] == [Sent(0)] && [Sent(0)] + [Sent(1)] == [Sent(0), Sent(1)];
    assert Index(SameVoter(Sent(0))) == OWN by {
      ShiftIs();
    }
  }

  const ONLY_BITS := Checks(true, false)

  // The poll after its first n votes, and the world then.
  function PollAfter(n: nat): Poll
    requires n <= 2
  {
    if n == 0 then Poll(1, 0, 1, ZERO, [], [])
    else if n == 1 then Poll(1, 0, 1, Hash2(ZERO, MsgHash(Sent(0))), [], [Sent(0)])
    else Poll(1, 0, 1, Hash2(Hash2(ZERO, MsgHash(Sent(0))), MsgHash(Sent(1))), [], [Sent(0), Sent(1)])
  }

  function Voted(n: nat): World
    requires n <= 2
  {
    World(map[0 := PollAfter(n)], map[], 0)
  }

  lemma VotesStep(checks: Checks)
    ensures Step(World(map[], map[], 0), NewPoll(0, 1, 0, 1), Voted(0), checks, SameVoter)
    ensures Step(Voted(0), CastVote(0, Sent(0)), Voted(1), checks, SameVoter)
    ensures Step(Voted(1), CastVote(0, Sent(1)), Voted(2), checks, SameVoter)
  {
    hide MsgHash, Sent, ChoiceAccepted;
    ChoicesAccepted(1, 1);
    assert [] + [Sent(0)] == [Sent(0)] && [Sent(0)] + [Sent(1)] == [Sent(0), Sent(1)];
  }

  function Opened(): TallyAcc {
    CreateTally(TallyHash(Num(0), START.counts))
  }

  function Advanced(out: Outputs): TallyAcc {
    TallyAcc(out.tallyHashNew, out.chainNew, out.rootNew)
  }

  lemma TallySteps(out: Outputs)
    requires Tally(ZERO, ZERO, BATCH, SameVoter) == Some(out) && out.tallyHashOld == TallyHash(Num(0), START.counts)
    requires out.chainNew == PollAfter(2).chain && out.tallyHashNew == TallyHash(Num(1), Preimage([2]))
    ensures var before, after := Voted(2).(tallies := map[0 := Opened()]), Voted(2).(tallies := map[0 := Advanced(out)]);
      && Step(Voted(2), NewTally(0, Opened().tallyHash), before, ONLY_BITS, SameVoter)
      && Step(before, Advance(0, out.rootNew, out.chainNew, out.tallyHashNew), after, ONLY_BITS, SameVoter)
      && Step(after, Wait(2), after.(now := 2), ONLY_BITS, SameVoter)
      && Step(after.(now := 2), Finish(0, 0, [2], 1), World(map[0 := PollAfter(2).(tally := [2])], map[], 2), ONLY_BITS, SameVoter)
  {
    hide Tally, BitFlags, TallyHash, MsgHash, Sent;
    BatchAccepted();
    assert Meets(BATCH, ONLY_BITS);
    assert Provable(Opened(), out.rootNew, out.chainNew, out.tallyHashNew, ONLY_BITS, SameVoter);
    assert FinishTally(PollAfter(2), Advanced(out), 2, [2], 1) == Some(PollAfter(2).(tally := [2]));
    assert map[0 := Advanced(out)] - {0} == map[];
  }

  // A run whose finish stores that tally: two votes are cast, an account is opened and advanced by
  // the batch, and the poll is finished with [2].
  lemma RunMiscounts() returns (ws: seq<World>, actions: seq<Action>)
    ensures Run(ws, actions, ONLY_BITS, SameVoter) && |actions| == 7
    ensures 0 in ws[7].polls && ws[7].polls[0].msgs == [Sent(0), Sent(1)] && ws[7].polls[0].tally == [2]
    ensures !ResultOf(ws[7].polls[0].tally, ws[7].polls[0].msgs, 1, SameVoter)
  {
    hide Step, VoteAll, MsgHash, Sent;
    var out := BatchOutputs();
    VotesStep(ONLY_BITS);
    TallySteps(out);
    var after := Voted(2).(tallies := map[0 := Advanced(out)]);
    ws := [World(map[], map[], 0), Voted(0), Voted(1), Voted(2), Voted(2).(tallies := map[0 := Opened()]), after,
           after.(now := 2), World(map[0 := PollAfter(2).(tally := [2])], map[], 2)];
    actions := [NewPoll(0, 1, 0, 1), CastVote(0, Sent(0)), CastVote(0, Sent(1)), NewTally(0, Opened().tallyHash),
                Advance(0, out.rootNew, out.chainNew, out.tallyHashNew), Wait(2), Finish(0, 0, [2], 1)];
    VotesCount();
  }

  // What the batch makes of a new account.
  lemma BatchOutputs() returns (out: Outputs)
    ensures Tally(ZERO, ZERO, BATCH, SameVoter) == Some(out) && out.tallyHashOld == TallyHash(Num(0), START.counts)
    ensures out.chainNew == Hash2(Hash2(ZERO, MsgHash(Sent(0))), MsgHash(Sent(1)))
    ensures out.tallyHashNew == TallyHash(Num(1), Preimage([2]))
  {
    hide Canon, Tally, MsgHash, CastAll, Sent;
    BatchAccepted();
    out := Tally(ZERO, ZERO, BATCH, SameVoter).value;
    C.OldHash(ZERO, ZERO, BATCH, SameVoter);
    C.EmptyRoot();
    TallySound(START, Num(0), BATCH, SameVoter);
    BatchCounts();
    assert CastAll(START, CastsOf(BATCH), SameVoter).counts == Preimage([2]);
  }

  // ---- A revote dropped by a flag that is not a bit ----

  // The first message votes for choice 1; the others revote for choice 2.
  function Revoter(msg: Msg): Plain {
    if msg.nonce == Num(0) then Plain(OWN, 1, HASH0, NEWKEY) else Plain(OWN, 2, NEWKEY, HASH0)
  }

  // The revote's slot claims an empty leaf, at its own index; its other flag is two.
  const DROPPED := Slot(Sent(1), Zeros(64), 0, HASH0, 2, 0, ZERO, 1, OWN, 0, ZERO)
  const DROPPING := Witness(2, START.counts, Num(0), Num(1), [FIRST, DROPPED, DROPPED, DROPPED, DROPPED, DROPPED])

  lemma FirstCounts()
    ensures TallySingle(true, Acc(ZERO, ZERO, START.counts), FIRST, Revoter) ==
      Some(Acc(LeafKey(OWN, LEAF), Hash2(ZERO, MsgHash(Sent(0))), Recount(true, 0, 1, START.counts)))
  {
    hide SmtVerifier, SmtProcessor, Splits, MsgHash, Sent;
    OtherSplits();
    IntoEmpty(OWN, LeafHash(LeafData(0, HASH0)));
    IntoEmpty(OWN, LEAF);
  }

  lemma DroppedKeeps(acc: Acc)
    ensures TallySingle(true, acc, DROPPED, Revoter) == Some(Acc(acc.root, Hash2(acc.chain, MsgHash(Sent(1))), acc.counts))
  {
    hide SmtVerifier, SmtProcessor, Splits, MsgHash, Sent;
    OtherSplits();
    assert Recount(false, 0, 2, acc.counts) == acc.counts;
  }

  // The circuit accepts the batch, its splits all in range, and the tally hash says choice 1 where the
  // voter's last word was choice 2.
  lemma RevoteDropped()
    ensures AllInRange(DROPPING) && !BitFlags(DROPPING)
    ensures Tally(ZERO, ZERO, DROPPING, Revoter).Some?
    ensures Tally(ZERO, ZERO, DROPPING, Revoter).value.tallyHashNew == TallyHash(Num(1), Recount(true, 0, 1, START.counts))
    ensures Recount(true, 0, 1, START.counts)[0] == 1
    ensures var counts := TallyOf([Sent(0), Sent(1)], Revoter).counts; counts[0] == 0 && counts[1] == 1
  {
    hide TallySingle, LessThan16, Sent, MsgHash, VoteAll, Recount;
    var acc, slots := Acc(ZERO, ZERO, START.counts), DROPPING.slots;
    C.SmallLess(0, 2);
    C.SmallLess(1, 2);
    FirstCounts();
    SlotsNone(acc, slots, 2, Revoter);
    SlotsStep(acc, slots, 2, 1, Revoter);
    var mid := TallySlots(acc, slots, 2, 1, Revoter).value;
    DroppedKeeps(mid);
    SlotsStep(acc, slots, 2, 2, Revoter);
    assert C.Accepts(mid, DROPPED, Revoter);
    C.RepeatsKeep(acc, slots, 2, MAX_BATCH, TallySlots(acc, slots, 2, 2, Revoter).value, Revoter);
    assert DROPPING.slots[1] == DROPPED;
    OtherSplits();
    RevoteCounts();
  }

  lemma RevoteCounts()
    ensures var counts := TallyOf([Sent(0), Sent(1)], Revoter).counts; counts[0] == 0 && counts[1] == 1
  {
    hide MsgHash, VoteAll;
    VoteNone(START, Revoter);
    VoteAllSnoc(START, [], Sent(0), Revoter);
    VoteAllSnoc(START, [Sent(0)], Sent(1), Revoter);
    assert [] + [Sent(0)] == [Sent(0)] && [Sent(0)] + [Sent(1)] == [Sent(0), Sent(1)];
  }

  // ---- A choice just below the modulus ----

  function TopVoter(msg: Msg): Plain {
    Plain(OWN, MODULUS - 1, HASH0, NEWKEY)
  }

  // The program accepts such a first vote in any open poll; the page can then prepare no batch of it.
  lemma TopChoiceStops(p: Poll, now: nat, nonce: U64)
    requires p.start <= now <= p.end
    ensures Vote(p, now, Sent(nonce), ChoiceAccepted(TopVoter(Sent(nonce)).choice, p.nChoices)).Some?
    ensures !C.AllFit(START, [Sent(nonce)], p.nChoices, TopVoter)
  {
    ChoicesAccepted(MODULUS - 1, p.nChoices);
    hide Sent, ChoiceAccepted;
    var batch := [Sent(nonce)];
    assert batch[..0] == [];
    VoteNone(START, TopVoter);
    assert !C.Fits(VoteAll(START, batch[..0], TopVoter), batch[0], p.nChoices, TopVoter);
  }

  // ---- Two relays of one nullifier, with a limit of one ----

  const RELAY1 := R.Witness(OWN, OWN, 0, ZERO, ZERO, 0, Zeros(64), 1, 0, ZERO, ZERO, Zeros(64), 1, 0, ZERO, ZERO)
  const RELAY2 := R.Witness(OWN, OTHER, INVERSE, LeafKey(OWN, Num(1)), LeafKey(OWN, Num(1)), 0,
                            Zeros(64), 0, OWN, Num(1), ZERO, Zeros(64), 0, OWN, Num(1), ZERO)

  // From the empty trees both are accepted one after the other, so the history holds two relays of
  // one nullifier; each index was used once.
  lemma RelayedTwice()
    ensures var first, second := R.Circuit(OWN, 1, RELAY1), R.Circuit(OTHER, 1, RELAY2);
      && first.Some? && first.value.rootStateOld == Hash2(ZERO, ZERO)
      && second.Some? && second.value.rootStateOld == first.value.rootStateNew
    ensures R.BitFlags(RELAY1) && R.BitFlags(RELAY2)
    ensures R.RelaysOf([R.RelayOf(RELAY1, OWN), R.RelayOf(RELAY2, OTHER)], OWN) == 2
  {
    hide SmtVerifier, SmtProcessor, Splits;
    OtherSplits();
    assert LessThan16(0, 1) == Some(true);
    IntoEmpty(OWN, Num(0));
    IntoEmpty(OWN, Num(1));
    IntoEmpty(OWN, ZERO);
    Beside(Num(1), Num(0), Num(1));
    Beside(Num(1), ZERO, Num(1));
    var h := [R.RelayOf(RELAY1, OWN), R.RelayOf(RELAY2, OTHER)];
    assert h[..1] == [R.RelayOf(RELAY1, OWN)] && h[..1][..0] == [];
    assert R.RelaysOf(h[..1], OWN) == 1;
  }

  // ---- A nullifier above the modulus ----

  const HIGH_NU: S.Word := MODULUS + 5
  const NO_LEAF := CircomProof(Zeros(64), true, 0, ZERO, false)

  // From the proofs of empty trees the relayer's witness for it is accepted, at another index than the
  // one its own trees were asked for.
  lemma HighNullifierAccepted()
    ensures ProofOf(NO_LEAF, map[], Low(HIGH_NU, BITS), 0, BITS) && ProofOf(NO_LEAF, map[], 9, 0, BITS)
    ensures R.Circuit(9, S.MSG_LIMIT, S.Inputs(S.Reduce(HIGH_NU), 0, ZERO, ZERO, NO_LEAF, NO_LEAF)).Some?
    ensures Low(HIGH_NU, BITS) != Low(S.Reduce(HIGH_NU), BITS)
  {
    NoLeafProves(Low(HIGH_NU, BITS));
    NoLeafProves(9);
    S.ReducedLow(HIGH_NU);
    OwnSplit(S.Reduce(HIGH_NU));
    hide Low, SmtVerifier, SmtProcessor, Splits, R.Circuit, ProofOf, InRange;
    var w := S.Inputs(S.Reduce(HIGH_NU), 0, ZERO, ZERO, NO_LEAF, NO_LEAF);
    LessThanExact(0, S.MSG_LIMIT);
    IntoEmpty(w.nuLo, Num(0));
    IntoEmpty(w.nuLo, Num(1));
    IntoEmpty(9, ZERO);
    IntoEmpty(9, Num(1));
    R.CircuitAccepts(9, S.MSG_LIMIT, w);
  }

  lemma NoLeafProves(key: nat)
    ensures ProofOf(NO_LEAF, map[], key, 0, BITS)
  {
    NoSiblings();
    CanonEmpty(0, BITS);
    assert Along(map[], key, 0, 0) == map[];
  }
}
