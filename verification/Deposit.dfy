// The poll account as a deposit: what creation puts in, what relayed votes take out.

module Deposit {
  import opened Field
  import opened Wrappers
  import opened Signals
  import R = Relay
  import S = Relayer

  const MSG_LIMIT: nat := 3
  const N_RELAYERS: nat := 1
  const U64_MAX: nat := 0xFFFF_FFFF_FFFF_FFFF

  function CheckedMul(a: Option<nat>, b: nat): Option<nat> {
    if a.Some? && a.value * b <= U64_MAX then Some(a.value * b) else None
  }

  // (relayer fee + platform fee) * limit * relayers * voters, overflow refused at every step.
  function DepositFor(relayerFee: nat, platformFee: nat, nVoters: nat): Option<nat> {
    var fees := if relayerFee + platformFee <= U64_MAX then Some(relayerFee + platformFee) else None;
    CheckedMul(CheckedMul(CheckedMul(fees, MSG_LIMIT), N_RELAYERS), nVoters)
  }

  lemma DepositAmount(relayerFee: nat, platformFee: nat, nVoters: nat)
    requires DepositFor(relayerFee, platformFee, nVoters).Some?
    ensures DepositFor(relayerFee, platformFee, nVoters).value == (relayerFee + platformFee) * (MSG_LIMIT * nVoters)
  {
    var f := relayerFee + platformFee;
    assert f * MSG_LIMIT * N_RELAYERS * nVoters == f * (MSG_LIMIT * nVoters) by {
      assert f * MSG_LIMIT * N_RELAYERS == f * MSG_LIMIT;
      Regroup(f, MSG_LIMIT, nVoters);
    }
  }

  // The deposit is refused exactly when what it multiplies out to does not fit 64 bits.
  lemma DepositExact(relayerFee: nat, platformFee: nat, nVoters: nat)
    ensures DepositFor(relayerFee, platformFee, nVoters).Some? <==>
      (relayerFee + platformFee) * (3 * if nVoters > 0 then nVoters else 1) < 0x1_0000_0000_0000_0000
  {
    var f, n := relayerFee + platformFee, if nVoters > 0 then nVoters else 1;
    Regroup(f, 3, n);
    AtLeastOnce(f * 3, n);
  }

  lemma AtLeastOnce(a: nat, n: nat)
    requires n > 0
    ensures a <= a * n
  {
  }

  lemma Regroup(a: nat, b: nat, c: nat)
    ensures a * b * c == a * (b * c)
  {
  }

  lemma OneLess(f: nat, a: nat, k: nat)
    requires k < a
    ensures f * (a - k) == f * (a - (k + 1)) + f
  {
  }

  // One more relay's fees come out of the share set aside for it.
  lemma ShareCovers(lamports: nat, rent: nat, fee: nat, platformFee: nat, platformFeeNow: nat, a: nat, k: nat)
    requires k < a && platformFeeNow <= platformFee && lamports >= rent + (fee + platformFee) * (a - k)
    ensures lamports >= fee + platformFeeNow
    ensures lamports - fee - platformFeeNow >= rent + (fee + platformFee) * (a - (k + 1))
  {
    OneLess(fee + platformFee, a, k);
    NoLoss(fee + platformFee, a - (k + 1));
  }

  lemma NoLoss(f: nat, n: nat)
    ensures f * n >= 0
  {
  }

  class PollFunds {
    const rent: nat
    const nVoters: nat
    const platformFee: nat        // the platform's fee when the poll was created
    const endTime: nat
    const relayers: R.RelayerState
    var lamports: nat
    var withdrawn: bool

    ghost predicate Valid()
      reads this, relayers
    {
      && relayers.Valid() && relayers.msgLimit == MSG_LIMIT
      && (!withdrawn && relayers.bits && |relayers.history| <= MSG_LIMIT * nVoters ==>
            lamports >= rent + Owed(|relayers.history|))
    }

    // The relayer service starts out mirroring a new poll, and under its limit.
    lemma Served(service: S.Backend, skey: seq<nat>)
      requires Valid() && relayers.bits && relayers.history == []
      requires service.quotaDb == map[] && service.uniqDb == map[]
      ensures service.Mirrors(skey, relayers) && relayers.msgLimit == S.MSG_LIMIT == 3
    {
      service.StartsMirrored(skey, relayers);
    }

    // The fees of the relays still to come, once k were made.
    ghost function Owed(k: nat): int {
      (relayers.fee + platformFee) * (MSG_LIMIT * nVoters - k)
    }

    lemma OwedCovers(balance: nat, platformFeeNow: nat, k: nat)
      requires k < MSG_LIMIT * nVoters && platformFeeNow <= platformFee && balance >= rent + Owed(k)
      ensures balance >= relayers.fee + platformFeeNow
      ensures balance - relayers.fee - platformFeeNow >= rent + Owed(k + 1)
    {
      ShareCovers(balance, rent, relayers.fee, platformFee, platformFeeNow, MSG_LIMIT * nVoters, k);
    }

    constructor (rent: nat, deposit: nat, relayerFee: nat, platformFee: nat, nVoters: nat, endTime: nat)
      requires DepositFor(relayerFee, platformFee, nVoters) == Some(deposit)
      ensures Valid() && !withdrawn && fresh(relayers)
      ensures relayers.msgLimit == 3
      ensures relayers.history == [] && relayers.bits && relayers.fee == relayerFee
      ensures this.rent == rent && this.nVoters == nVoters && this.platformFee == platformFee && this.endTime == endTime
      ensures lamports == rent + deposit
    {
      this.rent, this.nVoters, this.platformFee, this.endTime := rent, nVoters, platformFee, endTime;
      lamports, withdrawn := rent + deposit, false;
      relayers := new R.RelayerState.Create(MSG_LIMIT, relayerFee);
      new;
      DepositAmount(relayerFee, platformFee, nVoters);
    }

    // Move lamports out, refusing to go below zero.
    method Transfer(amount: nat) returns (ok: bool)
      modifies this`lamports
      ensures ok == (old(lamports) >= amount)
      ensures lamports == if ok then old(lamports) - amount else old(lamports)
    {
      ok := lamports >= amount;
      if ok {
        lamports := lamports - amount;
      }
    }

    // A relayed vote as one transaction: the relay's proof, the vote inside it, both fees out of
    // the deposit, and the relayer's own check that it was paid. While all flags were bits it is
    // never short of funds.
    method RelayedVote(proofValid: bool, rootStateNew: Fr, msgHash: Signal, nuHash: Fr, ghost w: R.Witness,
                       voteOk: bool, platformFeeNow: nat, relayerBalance: nat) returns (ok: bool)
      requires Valid() && !withdrawn && platformFeeNow <= platformFee
      requires proofValid ==>
        R.Circuit(msgHash, relayers.msgLimit, w) == Some(R.Outputs(relayers.rootState, rootStateNew, nuHash))
      requires |R.QuotaOf(relayers.history + [R.RelayOf(w, msgHash)])| <= nVoters
      modifies this`lamports, relayers
      ensures Valid()
      ensures ok == (proofValid && voteOk && relayers.fee > 0 && old(lamports) >= relayers.fee + platformFeeNow)
      ensures proofValid && old(relayers.bits) && R.BitFlags(w) ==> old(lamports) >= relayers.fee + platformFeeNow
      ensures relayers.history == if ok then old(relayers.history) + [R.RelayOf(w, msgHash)] else old(relayers.history)
      ensures lamports == old(lamports) - if ok then relayers.fee + platformFeeNow else 0
    {
      hide R.Rooted, R.Fair, R.QuotaOf, R.Circuit, R.BitFlags, Owed;
      if proofValid && relayers.bits && R.BitFlags(w) {
        Room(msgHash, w);
        OwedCovers(lamports, platformFeeNow, |relayers.history|);
      }
      if !proofValid || !voteOk {
        return false;
      }
      var before := lamports;
      var paidRelayer := Transfer(relayers.fee);
      if !paidRelayer {
        return false;
      }
      var paidPlatform := Transfer(platformFeeNow);
      if !paidPlatform {
        lamports := before;
        return false;
      }
      ok := relayers.Relay(true, rootStateNew, msgHash, nuHash, true, relayerBalance, relayerBalance + relayers.fee, w);
      if !ok {
        lamports := before;
      }
    }

    // An accepted relay fits the deposit's count, as long as no more quota indices are used than
    // there are voters.
    lemma Room(msgHash: Signal, w: R.Witness)
      requires Valid() && relayers.bits && R.BitFlags(w)
      requires R.Circuit(msgHash, relayers.msgLimit, w).Some?
      requires R.Circuit(msgHash, relayers.msgLimit, w).value.rootStateOld == relayers.rootState
      requires |R.QuotaOf(relayers.history + [R.RelayOf(w, msgHash)])| <= nVoters
      ensures |relayers.history| < MSG_LIMIT * nVoters
    {
      hide R.Circuit, R.Rooted, R.UniqOf, R.QuotaOf, R.SumOf, R.Uses, Owed;
      var h, r := relayers.history, R.RelayOf(w, msgHash);
      R.CircuitSound(h, msgHash, relayers.msgLimit, w);
      R.FairMore(h, r, relayers.msgLimit);
      forall idx | idx in R.QuotaOf(h + [r]) ensures R.QuotaOf(h + [r])[idx] <= MSG_LIMIT {
        R.QuotaIsUses(h + [r], idx);
      }
      R.CountsSum(h + [r]);
      R.SumBound(R.QuotaOf(h + [r]), MSG_LIMIT);
    }

    // With every split in range there are no more indices than nullifiers, one for each voter.
    lemma VotersSuffice(history: seq<R.Relayed>)
      requires R.OwnIndices(history) && |R.Nullifiers(history)| <= nVoters
      ensures |R.QuotaOf(history)| <= nVoters
    {
      R.IndicesOfNullifiers(history);
    }

    // From the end time on, everything above the rent can be taken out.
    method Withdraw(now: nat) returns (ok: bool)
      requires Valid()
      modifies this`lamports, this`withdrawn
      ensures Valid()
      ensures ok == (now >= endTime && old(lamports) >= rent)
      ensures if ok then lamports == rent && withdrawn else lamports == old(lamports) && withdrawn == old(withdrawn)
    {
      ok := now >= endTime && lamports >= rent;
      if ok {
        lamports, withdrawn := rent, true;
      }
    }
  }
}
