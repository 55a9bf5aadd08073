// The voting program's accounts and instructions, and what holds over every run of them.

module MootVote {
  import opened Field
  import opened Wrappers
  import opened Keys
  import opened Canonical
  import opened Signals
  import opened TallyCircuit

  const MAX_POLL_DURATION: nat := 365 * 24 * 60 * 60

  // `msgs` is the history of accepted votes; the program itself keeps only its chain.
  datatype Poll = Poll(nChoices: U8, start: nat, end: nat, chain: Fr, tally: seq<nat>, msgs: seq<Msg>)
  datatype TallyAcc = TallyAcc(tallyHash: Fr, chain: Fr, root: Fr)

  // What is checked of a tally witness beyond the circuit's own constraints, which check neither.
  datatype Checks = Checks(bits: bool, ranges: bool)

  const ALL_CHECKS := Checks(true, true)

  ghost predicate Meets(w: Witness, checks: Checks) {
    (checks.bits ==> BitFlags(w)) && (checks.ranges ==> AllInRange(w))
  }

  // The tally verifier accepts these public inputs: some witness satisfies the circuit, and the checks.
  ghost predicate Provable(t: TallyAcc, rootNew: Fr, chainNew: Fr, hashNew: Fr, checks: Checks, dec: Decrypt) {
    exists w :: Meets(w, checks) && Tally(t.root, t.chain, w, dec) == Some(Outputs(t.tallyHash, rootNew, chainNew, hashNew))
  }

  // A poll needs choices, and a window of at most a year, which it keeps as given.
  lemma Created(nChoices: U8, start: nat, end: nat)
    ensures CreatePoll(nChoices, start, end).Some? <==> nChoices > 0 && start < end && end - start <= 31_536_000
    ensures CreatePoll(nChoices, start, end).Some? ==> CreatePoll(nChoices, start, end).value == Poll(nChoices, start, end, Num(0), [], [])
  {
  }

  function CreatePoll(nChoices: U8, start: nat, end: nat): Option<Poll> {
    if nChoices > 0 && start < end && end - start <= MAX_POLL_DURATION then Some(Poll(nChoices, start, end, ZERO, [], []))
    else None
  }

  // A vote proof compares the choice with the number of choices in 16 bits, and nothing else bounds it.
  predicate ChoiceAccepted(choice: Signal, nChoices: U8) {
    LessThan16(choice, nChoices + 1) == Some(true)
  }

  // So the choices accepted are those in range and those just below the modulus, which count for nothing.
  lemma ChoicesAccepted(choice: Signal, nChoices: U8)
    ensures ChoiceAccepted(choice, nChoices) <==> choice <= nChoices || MODULUS - 0xFFFF + nChoices <= choice
    ensures ChoiceAccepted(choice, nChoices) ==> choice <= nChoices || choice > MAX_CHOICES
  {
    AtMostExact(choice, nChoices);
  }

  function Vote(p: Poll, now: nat, msg: Msg, proofValid: bool): Option<Poll> {
    if p.start <= now <= p.end && proofValid then
      Some(p.(chain := Hash2(p.chain, MsgHash(msg)), msgs := p.msgs + [msg]))
    else None
  }

  function CreateTally(initialTallyHash: Fr): TallyAcc {
    TallyAcc(initialTallyHash, ZERO, ZERO)
  }

  function TallyBatch(t: TallyAcc, proofValid: bool, rootNew: Fr, chainNew: Fr, hashNew: Fr): Option<TallyAcc> {
    if proofValid then Some(TallyAcc(hashNew, chainNew, rootNew)) else None
  }

  function Preimage(tally: seq<nat>): (counts: seq<int>)
    requires |tally| <= MAX_CHOICES
    ensures |counts| == MAX_CHOICES
  {
    seq(|tally|, i requires 0 <= i < |tally| => tally[i]) + NoVotes(MAX_CHOICES - |tally|)
  }

  function FinishTally(p: Poll, t: TallyAcc, now: nat, tally: seq<nat>, salt: U64): Option<Poll> {
    if now <= p.end || |tally| != p.nChoices || t.chain != p.chain then None
    else if p.nChoices > MAX_CHOICES then None
    else if TallyHash(Num(salt), Preimage(tally)) != t.tallyHash then None
    else Some(p.(tally := tally))
  }

  // ---- The accounts, updated in place ----

  class PollAccount {
    const nChoices: U8
    const votingStartTime: nat
    const votingEndTime: nat
    var cumulativeMsgHash: Fr
    var tally: seq<nat>
    ghost var msgs: seq<Msg>

    ghost function View(): Poll
      reads this
    {
      Poll(nChoices, votingStartTime, votingEndTime, cumulativeMsgHash, tally, msgs)
    }

    constructor (nChoices: U8, start: nat, end: nat)
      requires nChoices > 0 && start < end && end - start <= MAX_POLL_DURATION
      ensures CreatePoll(nChoices, start, end) == Some(View())
      ensures this.nChoices == nChoices && votingStartTime == start && votingEndTime == end
      ensures cumulativeMsgHash == ZERO && tally == [] && msgs == []
    {
      this.nChoices, votingStartTime, votingEndTime := nChoices, start, end;
      cumulativeMsgHash, tally, msgs := ZERO, [], [];
    }

    method VoteCommon(now: nat, msg: Msg, proofValid: bool) returns (ok: bool)
      modifies this
      ensures var v := Vote(old(View()), now, msg, proofValid);
        ok == v.Some? && View() == if ok then v.value else old(View())
      ensures ok == (proofValid && votingStartTime <= now <= votingEndTime)
      ensures msgs == if ok then old(msgs) + [msg] else old(msgs)
      ensures tally == old(tally)
      ensures ok ==> cumulativeMsgHash == Hash2(old(cumulativeMsgHash), HashN([msg.ephX, msg.ephY, msg.nonce] + msg.ciphertext))
    {
      if !(votingStartTime <= now <= votingEndTime) {
        return false;
      }
      var msgHash := MsgHash(msg);
      if !proofValid {
        return false;
      }
      cumulativeMsgHash := Hash2(cumulativeMsgHash, msgHash);
      msgs := msgs + [msg];
      ok := true;
    }

    method Finish(acc: TallyAccount, now: nat, tally: seq<nat>, salt: U64) returns (ok: bool)
      modifies this
      ensures var v := FinishTally(old(View()), acc.View(), now, tally, salt);
        ok == v.Some? && View() == if ok then v.value else old(View())
      ensures ok == (votingEndTime < now && |tally| == nChoices <= 11 && acc.cumulativeMsgHash == old(cumulativeMsgHash)
        && acc.tallyHash == TallyHash(Num(salt), tally + NoVotes(11 - |tally|)))
      ensures this.tally == if ok then tally else old(this.tally)
      ensures ok ==> acc.cumulativeMsgHash == cumulativeMsgHash && msgs == old(msgs)
    {
      if now <= votingEndTime {
        return false;
      }
      if |tally| != nChoices {
        return false;
      }
      if acc.cumulativeMsgHash != cumulativeMsgHash {
        return false;
      }
      if nChoices > MAX_CHOICES {
        return false;
      }
      var preimage := Preimage(tally);
      if TallyHash(Num(salt), preimage) != acc.tallyHash {
        return false;
      }
      this.tally := tally;
      ok := true;
    }
  }

  class TallyAccount {
    var tallyHash: Fr
    var cumulativeMsgHash: Fr
    var root: Fr

    ghost function View(): TallyAcc
      reads this
    {
      TallyAcc(tallyHash, cumulativeMsgHash, root)
    }

    method Create(initialTallyHash: Fr)
      modifies this
      ensures View() == CreateTally(initialTallyHash)
      ensures root == ZERO && cumulativeMsgHash == ZERO && tallyHash == initialTallyHash
    {
      tallyHash, cumulativeMsgHash, root := initialTallyHash, ZERO, ZERO;
    }

    method Batch(proofValid: bool, rootNew: Fr, chainNew: Fr, hashNew: Fr) returns (ok: bool)
      modifies this
      ensures var v := TallyBatch(old(View()), proofValid, rootNew, chainNew, hashNew);
        ok == v.Some? && View() == if ok then v.value else old(View())
      ensures ok == proofValid
      ensures ok ==> root == rootNew && cumulativeMsgHash == chainNew && tallyHash == hashNew
    {
      if !proofValid {
        return false;
      }
      root, cumulativeMsgHash, tallyHash := rootNew, chainNew, hashNew;
      ok := true;
    }
  }

  // ---- Runs ----

  datatype World = World(polls: map<nat, Poll>, tallies: map<nat, TallyAcc>, now: nat)

  datatype Action =
    | Wait(now: nat)
    | NewPoll(id: nat, nChoices: U8, start: nat, end: nat)
    | CastVote(id: nat, msg: Msg)
    | NewTally(acct: nat, initialTallyHash: Fr)
    | Advance(acct: nat, rootNew: Fr, chainNew: Fr, hashNew: Fr)
    | Finish(acct: nat, id: nat, tally: seq<nat>, salt: U64)
    | CloseTally(acct: nat)

  // One accepted instruction. Finishing may name any tally account, which it then closes.
  ghost predicate Step(w: World, a: Action, w': World, checks: Checks, dec: Decrypt) {
    match a
    case Wait(now) => w.now <= now && w' == w.(now := now)
    case NewPoll(id, n, start, end) =>
      id !in w.polls && CreatePoll(n, start, end).Some?
      && w' == w.(polls := w.polls[id := CreatePoll(n, start, end).value])
    case CastVote(id, msg) =>
      id in w.polls &&
      var v := Vote(w.polls[id], w.now, msg, ChoiceAccepted(dec(msg).choice, w.polls[id].nChoices));
      v.Some? && w' == w.(polls := w.polls[id := v.value])
    case NewTally(acct, h) => w' == w.(tallies := w.tallies[acct := CreateTally(h)])
    case Advance(acct, r, c, h) =>
      acct in w.tallies && Provable(w.tallies[acct], r, c, h, checks, dec)
      && w' == w.(tallies := w.tallies[acct := TallyBatch(w.tallies[acct], true, r, c, h).value])
    case Finish(acct, id, tally, salt) =>
      acct in w.tallies && id in w.polls &&
      var v := FinishTally(w.polls[id], w.tallies[acct], w.now, tally, salt);
      v.Some? && w' == World(w.polls[id := v.value], w.tallies - {acct}, w.now)
    case CloseTally(acct) => acct in w.tallies && w' == w.(tallies := w.tallies - {acct})
  }

  // A tally account commits to a tally state; before the first message its hash is free.
  ghost predicate Commits(t: TallyAcc, s: TallyState, salt: Fr) {
    && t.chain == s.chain && t.root == Canon(Hashes(s.leaves), 0, DEPTH)
    && Spread(s.leaves.Keys, 0, DEPTH)
    && (s.chain != ZERO ==> t.tallyHash == TallyHash(salt, s.counts))
  }

  ghost predicate StandsFor(t: TallyAcc, msgs: seq<Msg>, salt: Fr, dec: Decrypt) {
    Commits(t, TallyOf(msgs, dec), salt)
  }

  ghost predicate StandsAt(t: TallyAcc, casts: seq<Cast>, salt: Fr, ranges: bool, dec: Decrypt) {
    Commits(t, CastAll(START, casts, dec), salt) && (ranges ==> TrueIndices(casts, dec))
  }

  // Of accounts advanced with flags that are not bits nothing is known.
  ghost predicate TallyOk(t: TallyAcc, checks: Checks, dec: Decrypt) {
    checks.bits ==> exists casts, salt :: StandsAt(t, casts, salt, checks.ranges, dec)
  }

  // A stored result is these counts, with nothing beyond the poll's choices.
  ghost predicate Matches(tally: seq<nat>, counts: seq<int>, nChoices: nat) {
    && |tally| == nChoices <= MAX_CHOICES == |counts|
    && (forall i | 0 <= i < nChoices :: tally[i] == counts[i])
    && (forall i | nChoices <= i < MAX_CHOICES :: counts[i] == 0)
  }

  ghost predicate ResultOf(tally: seq<nat>, msgs: seq<Msg>, nChoices: nat, dec: Decrypt) {
    Matches(tally, TallyOf(msgs, dec).counts, nChoices)
  }

  // The result counts each of the messages once, at indices of the tallier's choosing.
  ghost predicate ResultAt(tally: seq<nat>, casts: seq<Cast>, msgs: seq<Msg>, nChoices: nat, dec: Decrypt) {
    Msgs(casts) == msgs && Matches(tally, CastAll(START, casts, dec).counts, nChoices)
  }

  ghost predicate Tallied(tally: seq<nat>, msgs: seq<Msg>, nChoices: nat, ranges: bool, dec: Decrypt) {
    exists casts :: ResultAt(tally, casts, msgs, nChoices, dec) && (ranges ==> TrueIndices(casts, dec))
  }

  ghost predicate PollOk(p: Poll, now: nat, dec: Decrypt) {
    && p.nChoices > 0
    && p.chain == TallyOf(p.msgs, dec).chain
    && (forall msg | msg in p.msgs :: ChoiceAccepted(dec(msg).choice, p.nChoices))
    && (p.tally != [] ==> p.end < now)
  }

  ghost predicate Inv(w: World, checks: Checks, dec: Decrypt) {
    && (forall acct | acct in w.tallies :: TallyOk(w.tallies[acct], checks, dec))
    && (forall id | id in w.polls :: PollOk(w.polls[id], w.now, dec) && Finished(w.polls[id], checks, dec))
  }

  ghost predicate Finished(p: Poll, checks: Checks, dec: Decrypt) {
    checks.bits && p.tally != [] && p.msgs != [] ==> Tallied(p.tally, p.msgs, p.nChoices, checks.ranges, dec)
  }

  lemma CreatedOk(h: Fr, checks: Checks, dec: Decrypt)
    ensures TallyOk(CreateTally(h), checks, dec)
  {
    assert Hashes(START.leaves) == map[];
    CanonEmpty(0, DEPTH);
    assert CastAll(START, [], dec) == START;
    assert StandsAt(CreateTally(h), [], ZERO, checks.ranges, dec);
  }

  // An accepted batch keeps the account standing for a message sequence.
  lemma AdvanceOk(t: TallyAcc, rootNew: Fr, chainNew: Fr, hashNew: Fr, checks: Checks, dec: Decrypt)
    requires TallyOk(t, checks, dec) && Provable(t, rootNew, chainNew, hashNew, checks, dec)
    ensures TallyOk(TallyAcc(hashNew, chainNew, rootNew), checks, dec)
  {
    hide Canon, Tally, VoteAt, Hashes, CastAll, Spread, AllInRange, BitFlags, TallyHash;
    if checks.bits {
      var casts, salt :| StandsAt(t, casts, salt, checks.ranges, dec);
      var w :| Meets(w, checks) && Tally(t.root, t.chain, w, dec) == Some(Outputs(t.tallyHash, rootNew, chainNew, hashNew));
      CastChain(casts, dec);
      ChainLengths(Msgs(casts), dec);
      CastNone(START, dec);
      FirstHash(t, CastAll(START, casts, dec), salt, w, dec);
      TallySound(CastAll(START, casts, dec), w.saltOld, w, dec);
      BatchExact(t.root, t.chain, w, dec);
      CastAllConcat(START, casts, CastsOf(w), dec);
      assert StandsAt(TallyAcc(hashNew, chainNew, rootNew), casts + CastsOf(w), w.saltNew, checks.ranges, dec);
    }
  }

  // The old hash opens to the counts so far, the first batch because it must start from zeros.
  lemma FirstHash(t: TallyAcc, s: TallyState, salt: Fr, w: Witness, dec: Decrypt)
    requires Commits(t, s, salt) && (s.chain == ZERO ==> s.counts == START.counts)
    requires Tally(t.root, t.chain, w, dec).Some? && Tally(t.root, t.chain, w, dec).value.tallyHashOld == t.tallyHash
    ensures t.tallyHash == TallyHash(w.saltOld, s.counts)
  {
    hide Canon, TallySlots, Hashes;
    if s.chain != ZERO {
      TallyHashBinds(salt, s.counts, w.saltOld, w.tallyOld);
    }
  }

  lemma VoteOk(p: Poll, now: nat, msg: Msg, dec: Decrypt)
    requires PollOk(p, now, dec) && Vote(p, now, msg, ChoiceAccepted(dec(msg).choice, p.nChoices)).Some?
    ensures PollOk(Vote(p, now, msg, ChoiceAccepted(dec(msg).choice, p.nChoices)).value, now, dec) && p.tally == []
  {
    VoteAllSnoc(START, p.msgs, msg, dec);
  }

  // A finish that succeeds on a poll with votes, from an account advanced with flags that are bits,
  // stores a tally that counts each of them once; with ranges checked too, the tally of the votes.
  lemma FinishOk(p: Poll, t: TallyAcc, now: nat, tally: seq<nat>, salt: U64, checks: Checks, dec: Decrypt)
    requires PollOk(p, now, dec) && TallyOk(t, checks, dec) && p.msgs != []
    requires FinishTally(p, t, now, tally, salt).Some?
    ensures checks.bits ==> Tallied(tally, p.msgs, p.nChoices, checks.ranges, dec)
    ensures checks == ALL_CHECKS ==> ResultOf(tally, p.msgs, p.nChoices, dec)
  {
    hide Canon, VoteAt, Hashes, CastAll, VoteAll, Spread, ChoiceAccepted;
    if checks.bits {
      var casts, salt' :| StandsAt(t, casts, salt', checks.ranges, dec);
      var counts := CastAll(START, casts, dec).counts;
      CastChain(casts, dec);
      ChainBinds(Msgs(casts), p.msgs, dec);
      ChainLengths(p.msgs, dec);
      TallyHashBinds(Num(salt), Preimage(tally), salt', counts);
      forall i | 0 <= i < MAX_CHOICES ensures counts[i] == if i < |tally| then tally[i] else 0 {
        assert Preimage(tally)[i] == if i < |tally| then tally[i] else 0;
      }
      assert ResultAt(tally, casts, p.msgs, p.nChoices, dec);
      if checks.ranges {
        TrueCasts(START, casts, dec);
      }
    }
  }

  lemma StepKeepsInv(w: World, a: Action, w': World, checks: Checks, dec: Decrypt)
    requires Inv(w, checks, dec) && Step(w, a, w', checks, dec)
    ensures Inv(w', checks, dec)
  {
    hide TallyOk, TallyOf, Tallied, Provable, MsgHash, ChoiceAccepted;
    match a {
      case Wait(_) =>
      case NewPoll(_, n, start, end) =>
        ChainLengths([], dec);
      case CastVote(id, msg) => VoteOk(w.polls[id], w.now, msg, dec);
      case NewTally(_, h) => CreatedOk(h, checks, dec);
      case Advance(acct, r, c, h) => AdvanceOk(w.tallies[acct], r, c, h, checks, dec);
      case Finish(acct, id, tally, salt) =>
        if w.polls[id].msgs != [] {
          FinishOk(w.polls[id], w.tallies[acct], w.now, tally, salt, checks, dec);
        }
      case CloseTally(_) =>
    }
  }

  ghost predicate Run(ws: seq<World>, actions: seq<Action>, checks: Checks, dec: Decrypt) {
    && |ws| == |actions| + 1 && ws[0].polls == map[] && ws[0].tallies == map[]
    && forall i | 0 <= i < |actions| :: Step(ws[i], actions[i], ws[i + 1], checks, dec)
  }

  lemma TrueResult(tally: seq<nat>, msgs: seq<Msg>, nChoices: nat, dec: Decrypt)
    requires Tallied(tally, msgs, nChoices, true, dec)
    ensures ResultOf(tally, msgs, nChoices, dec)
  {
    hide CastAll, VoteAll;
    var casts :| ResultAt(tally, casts, msgs, nChoices, dec) && TrueIndices(casts, dec);
    TrueCasts(START, casts, dec);
  }

  // Over every run whose batches have flags that are bits, a finished poll with votes holds a tally
  // counting each vote of its full sequence once; with the ranges checked too, it holds the tally of
  // that sequence.
  lemma {:induction false} EveryRun(ws: seq<World>, actions: seq<Action>, checks: Checks, dec: Decrypt, n: nat)
    requires Run(ws, actions, checks, dec) && n < |ws|
    ensures Inv(ws[n], checks, dec)
    ensures checks.bits ==> forall id | id in ws[n].polls && ws[n].polls[id].tally != [] && ws[n].polls[id].msgs != [] ::
      var p := ws[n].polls[id];
      Tallied(p.tally, p.msgs, p.nChoices, checks.ranges, dec) && (checks.ranges ==> ResultOf(p.tally, p.msgs, p.nChoices, dec))
  {
    hide TallyOk, Tallied, ResultOf, Step;
    if n > 0 {
      EveryRun(ws, actions, checks, dec, n - 1);
      StepKeepsInv(ws[n - 1], actions[n - 1], ws[n], checks, dec);
    }
    forall id | checks == ALL_CHECKS && id in ws[n].polls && ws[n].polls[id].tally != [] && ws[n].polls[id].msgs != []
      ensures ResultOf(ws[n].polls[id].tally, ws[n].polls[id].msgs, ws[n].polls[id].nChoices, dec)
    {
      TrueResult(ws[n].polls[id].tally, ws[n].polls[id].msgs, ws[n].polls[id].nChoices, dec);
    }
  }

  // With flags and ranges checked the result is the one tally: whichever accounts and salts are used,
  // two finishes agree.
  lemma FinishesAgree(p: Poll, now: nat, t1: TallyAcc, tally1: seq<nat>, salt1: U64,
                      t2: TallyAcc, tally2: seq<nat>, salt2: U64, dec: Decrypt)
    requires PollOk(p, now, dec) && TallyOk(t1, ALL_CHECKS, dec) && TallyOk(t2, ALL_CHECKS, dec) && p.msgs != []
    requires FinishTally(p, t1, now, tally1, salt1).Some? && FinishTally(p, t2, now, tally2, salt2).Some?
    ensures tally1 == tally2
  {
    FinishOk(p, t1, now, tally1, salt1, ALL_CHECKS, dec);
    FinishOk(p, t2, now, tally2, salt2, ALL_CHECKS, dec);
  }

  lemma Opens(t: TallyAcc, msgs: seq<Msg>, salt: Fr, dec: Decrypt)
    requires StandsFor(t, msgs, salt, dec) && msgs != []
    ensures t.chain == TallyOf(msgs, dec).chain && t.tallyHash == TallyHash(salt, TallyOf(msgs, dec).counts)
  {
    ChainLengths(msgs, dec);
  }

  // The right tally can always be finished, once the account stands for all the votes.
  lemma FinishAccepts(p: Poll, t: TallyAcc, now: nat, salt: U64, dec: Decrypt) returns (tally: seq<nat>)
    requires PollOk(p, now, dec) && StandsFor(t, p.msgs, Num(salt), dec) && p.msgs != []
    requires p.end < now && p.nChoices <= MAX_CHOICES
    ensures FinishTally(p, t, now, tally, salt) == Some(p.(tally := tally))
    ensures ResultOf(tally, p.msgs, p.nChoices, dec)
  {
    hide Canon, VoteAll, Hashes, Pow2, Counted, StandsFor, ChoiceAccepted;
    assert t.chain == p.chain && t.tallyHash == TallyHash(Num(salt), TallyOf(p.msgs, dec).counts) by {
      Opens(t, p.msgs, Num(salt), dec);
    }
    var s := TallyOf(p.msgs, dec);
    TallyCounted(p.msgs, dec);
    forall msg | msg in p.msgs ensures dec(msg).choice <= p.nChoices || dec(msg).choice > MAX_CHOICES {
      ChoicesAccepted(dec(msg).choice, p.nChoices);
    }
    UnusedChoices(p.msgs, dec, p.nChoices);
    CountsBounded(s, |s.counts|);
    tally := seq(p.nChoices, i requires 0 <= i < p.nChoices => s.counts[i]);
    assert Preimage(tally) == s.counts;
  }

  // Without votes nothing fixes the result: any tally of the right length can be finished, by
  // opening an account with its hash. With votes, and flags and ranges checked, only one can.
  lemma ResultFixedIffVotes(p: Poll, now: nat, dec: Decrypt)
    requires PollOk(p, now, dec) && p.end < now && p.nChoices <= MAX_CHOICES
    ensures p.msgs != [] <==>
      forall t1, tally1, salt1: U64, t2, tally2, salt2: U64 ::
        TallyOk(t1, ALL_CHECKS, dec) && TallyOk(t2, ALL_CHECKS, dec)
        && FinishTally(p, t1, now, tally1, salt1).Some? && FinishTally(p, t2, now, tally2, salt2).Some?
        ==> tally1 == tally2
  {
    hide TallyOk, PollOk;
    if p.msgs != [] {
      forall t1, tally1, salt1: U64, t2, tally2, salt2: U64 |
        TallyOk(t1, ALL_CHECKS, dec) && TallyOk(t2, ALL_CHECKS, dec)
        && FinishTally(p, t1, now, tally1, salt1).Some? && FinishTally(p, t2, now, tally2, salt2).Some?
        ensures tally1 == tally2
      {
        FinishesAgree(p, now, t1, tally1, salt1, t2, tally2, salt2, dec);
      }
    } else {
      assert p.nChoices > 0 && p.chain == ZERO by {
        PollChain(p, now, dec);
      }
      var zeros, ones := seq(p.nChoices, _ => 0), seq(p.nChoices, _ => 1);
      assert zeros[0] != ones[0];
      var t1, t2 := CreateTally(TallyHash(Num(0), Preimage(zeros))), CreateTally(TallyHash(Num(0), Preimage(ones)));
      CreatedOk(t1.tallyHash, ALL_CHECKS, dec);
      CreatedOk(t2.tallyHash, ALL_CHECKS, dec);
      assert FinishTally(p, t1, now, zeros, 0).Some? && FinishTally(p, t2, now, ones, 0).Some?;
    }
  }

  lemma PollChain(p: Poll, now: nat, dec: Decrypt)
    requires PollOk(p, now, dec)
    ensures p.nChoices > 0 && (p.chain == ZERO <==> p.msgs == [])
  {
    ChainLengths(p.msgs, dec);
  }
}
