// The relay circuit and the relayer program: a quota per voter index and each message once.

module Relay {
  import opened Field
  import opened Wrappers
  import opened Keys
  import opened Canonical
  import opened Signals
  import opened SmtCircuit

  const DEPTH: nat := 64

  // ---- What a history of relays means ----

  // One accepted relay: the quota index it used, its nullifier and its message.
  datatype Relayed = Relayed(idx: nat, nu: nat, msgHash: nat)

  function Get(quota: map<nat, nat>, idx: nat): nat {
    if idx in quota then quota[idx] else 0
  }

  function QuotaOf(history: seq<Relayed>): map<nat, nat> {
    if history == [] then map[]
    else
      var quota, idx := QuotaOf(history[..|history| - 1]), history[|history| - 1].idx;
      quota[idx := Get(quota, idx) + 1]
  }

  function UniqOf(history: seq<Relayed>): set<nat> {
    set i | 0 <= i < |history| :: history[i].msgHash
  }

  // How often an index was used, counted from the history itself.
  function Uses(history: seq<Relayed>, idx: nat): nat {
    if history == [] then 0
    else Uses(history[..|history| - 1], idx) + if history[|history| - 1].idx == idx then 1 else 0
  }

  lemma {:induction false} QuotaIsUses(history: seq<Relayed>, idx: nat)
    ensures Get(QuotaOf(history), idx) == Uses(history, idx)
    ensures idx in QuotaOf(history) <==> Uses(history, idx) > 0
  {
    if history != [] {
      QuotaIsUses(history[..|history| - 1], idx);
      QuotaIsUses(history[..|history| - 1], history[|history| - 1].idx);
    }
  }

  lemma Snoc(history: seq<Relayed>, r: Relayed)
    ensures QuotaOf(history + [r]) == QuotaOf(history)[r.idx := Get(QuotaOf(history), r.idx) + 1]
    ensures UniqOf(history + [r]) == UniqOf(history) + {r.msgHash}
  {
    var h := history + [r];
    assert h[..|h| - 1] == history;
    forall x ensures x in UniqOf(h) <==> x in UniqOf(history) + {r.msgHash} {
      if x in UniqOf(history) {
        var i :| 0 <= i < |history| && history[i].msgHash == x;
        assert h[i].msgHash == x;
      }
      if x == r.msgHash {
        assert h[|history|].msgHash == x;
      }
    }
  }

  ghost function SumOf(quota: map<nat, nat>): nat {
    if quota == map[] then 0
    else
      var k :| k in quota;
      quota[k] + SumOf(quota - {k})
  }

  lemma {:induction false} SumTakes(quota: map<nat, nat>, k: nat)
    requires k in quota
    ensures SumOf(quota) == quota[k] + SumOf(quota - {k})
    decreases |quota|
  {
    var j :| j in quota && SumOf(quota) == quota[j] + SumOf(quota - {j});
    if j != k {
      SumTakes(quota - {j}, k);
      SumTakes(quota - {k}, j);
      assert quota - {j} - {k} == quota - {k} - {j};
    }
  }

  // The counts add up to the number of relays.
  lemma {:induction false} CountsSum(history: seq<Relayed>)
    ensures SumOf(QuotaOf(history)) == |history|
  {
    if history != [] {
      var before, r := history[..|history| - 1], history[|history| - 1];
      var idx, quota := r.idx, QuotaOf(before);
      CountsSum(before);
      assert history == before + [r];
      Snoc(before, r);
      SumTakes(QuotaOf(history), idx);
      assert QuotaOf(history) - {idx} == quota - {idx};
      if idx in quota {
        SumTakes(quota, idx);
      } else {
        assert quota - {idx} == quota;
      }
    }
  }

  lemma {:induction false} SumBound(quota: map<nat, nat>, limit: nat)
    requires forall k | k in quota :: quota[k] <= limit
    ensures SumOf(quota) <= limit * |quota|
    decreases |quota|
  {
    if quota != map[] {
      var k :| k in quota;
      SumTakes(quota, k);
      SumBound(quota - {k}, limit);
      assert (quota - {k}).Keys == quota.Keys - {k};
      TimesNext(limit, |quota - {k}|, |quota|);
    }
  }

  lemma TimesNext(limit: nat, n: nat, m: nat)
    requires m == n + 1
    ensures limit * m == limit * n + limit
  {
  }

  // ---- The circuit ----

  // nuLo and nuHi are hints, bound only by the one constraint that they add up to nu in the field;
  // noAuxQuota and noAuxUniq are flags that nothing makes bits, and anyQuota and anyUniq the roots the
  // processors give for such.
  datatype Witness = Witness(
    nu: Signal, nuLo: Signal, nuHi: Signal, rootQuotaOld: Fr, rootUniqOld: Fr, countOld: Signal,
    siblingsQuota: seq<Fr>, noAuxQuota: Signal, auxKeyQuota: nat, auxValueQuota: Fr, anyQuota: Fr,
    siblingsUniq: seq<Fr>, noAuxUniq: Signal, auxKeyUniq: nat, auxValueUniq: Fr, anyUniq: Fr)

  datatype Outputs = Outputs(rootStateOld: Fr, rootStateNew: Fr, nuHash: Fr)

  function Circuit(msgHash: Signal, msgLimit: U64, w: Witness): Option<Outputs> {
    if LessThan16(w.countOld, msgLimit) != Some(true) then None
    else if !Splits(w.nu, w.nuLo, w.nuHi) then None
    else if |w.siblingsQuota| != DEPTH || |w.siblingsUniq| != DEPTH then None
    else if !Verifier(w.rootQuotaOld, w.siblingsQuota, w.auxKeyQuota, w.auxValueQuota, w.noAuxQuota,
                      w.nuLo, Num(w.countOld), Flag(w.countOld == 0)) then None
    else if !Verifier(w.rootUniqOld, w.siblingsUniq, w.auxKeyUniq, w.auxValueUniq, w.noAuxUniq, msgHash, ZERO, 1) then None
    else
      var quotaNew := Processor(w.rootQuotaOld, w.siblingsQuota, w.auxKeyQuota, w.auxValueQuota, w.noAuxQuota,
                                w.nuLo, Num((w.countOld + 1) % MODULUS), WriteOp(true, Flag(w.countOld == 0)), w.anyQuota);
      var uniqNew := Processor(w.rootUniqOld, w.siblingsUniq, w.auxKeyUniq, w.auxValueUniq, w.noAuxUniq,
                               msgHash, Num(1), Some(Insert), w.anyUniq);
      if quotaNew.None? || uniqNew.None? then None
      else Some(Outputs(Hash2(w.rootQuotaOld, w.rootUniqOld), Hash2(quotaNew.value, uniqNew.value),
                        Hash2(Num(w.nu), Num(msgHash))))
  }

  // The two trees of a history.
  function Counts(quota: map<nat, nat>): Leaves {
    map k | k in quota :: Num(quota[k])
  }

  function Ones(uniq: set<nat>): Leaves {
    map k | k in uniq :: Num(1)
  }

  ghost predicate Rooted(history: seq<Relayed>, rootState: Fr) {
    && Spread(QuotaOf(history).Keys, 0, DEPTH) && Spread(UniqOf(history), 0, DEPTH)
    && rootState == Hash2(Canon(Counts(QuotaOf(history)), 0, DEPTH), Canon(Ones(UniqOf(history)), 0, DEPTH))
  }

  // Within the limit, each message once.
  ghost predicate Fair(history: seq<Relayed>, limit: nat) {
    && (forall idx :: Uses(history, idx) <= limit)
    && (forall i, j | 0 <= i < j < |history| :: history[i].msgHash != history[j].msgHash)
  }

  lemma QuotaPositive(history: seq<Relayed>, idx: nat)
    requires idx in QuotaOf(history)
    ensures QuotaOf(history)[idx] > 0
  {
    QuotaIsUses(history, idx);
  }

  // Flags that are bits; the circuit leaves their check out.
  predicate BitFlags(w: Witness) {
    IsBit(w.noAuxQuota) && IsBit(w.noAuxUniq)
  }

  // Completeness for flags that are bits: the gadgets' own relations suffice.
  lemma CircuitAccepts(msgHash: Signal, msgLimit: U64, w: Witness)
    requires BitFlags(w) && LessThan16(w.countOld, msgLimit) == Some(true) && w.countOld < MODULUS - 1
    requires Splits(w.nu, w.nuLo, w.nuHi) && |w.siblingsQuota| == |w.siblingsUniq| == DEPTH
    requires SmtVerifier(w.rootQuotaOld, w.siblingsQuota, w.auxKeyQuota, w.auxValueQuota, w.noAuxQuota == 1,
                         w.nuLo, Num(w.countOld), w.countOld == 0)
    requires SmtVerifier(w.rootUniqOld, w.siblingsUniq, w.auxKeyUniq, w.auxValueUniq, w.noAuxUniq == 1, msgHash, ZERO, true)
    requires SmtProcessor(w.rootQuotaOld, w.siblingsQuota, w.auxKeyQuota, w.auxValueQuota, w.noAuxQuota == 1,
                          w.nuLo, Num(w.countOld + 1), if w.countOld == 0 then Insert else Change).Some?
    requires SmtProcessor(w.rootUniqOld, w.siblingsUniq, w.auxKeyUniq, w.auxValueUniq, w.noAuxUniq == 1,
                          msgHash, Num(1), Insert).Some?
    ensures Circuit(msgHash, msgLimit, w).Some?
  {
    hide SmtVerifier, SmtProcessor, Splits, LessThan16;
  }

  function RelayOf(w: Witness, msgHash: nat): Relayed {
    Relayed(w.nuLo, w.nu, msgHash)
  }

  // Soundness: with flags that are bits, an accepted relay is a new message, the index it uses is
  // below its limit, and the roots move to the history with this relay appended.
  lemma CircuitSound(history: seq<Relayed>, msgHash: Signal, msgLimit: U64, w: Witness)
    requires Circuit(msgHash, msgLimit, w).Some? && BitFlags(w)
    requires Rooted(history, Circuit(msgHash, msgLimit, w).value.rootStateOld)
    requires Uses(history, w.nuLo) <= msgLimit
    ensures w.countOld == Uses(history, w.nuLo) < msgLimit
    ensures msgHash !in UniqOf(history)
    ensures Rooted(history + [RelayOf(w, msgHash)], Circuit(msgHash, msgLimit, w).value.rootStateNew)
  {
    hide Canon, Spread, SmtVerifier, SmtProcessor, QuotaOf, UniqOf, LessThan16, Splits;
    var quota, uniq, r := QuotaOf(history), UniqOf(history), RelayOf(w, msgHash);
    assert Counts(quota).Keys == quota.Keys && Ones(uniq).Keys == uniq;
    VerifierSound(Counts(quota), w.siblingsQuota, w.auxKeyQuota, w.auxValueQuota, w.noAuxQuota == 1,
                  w.nuLo, Num(w.countOld), w.countOld == 0);
    VerifierSound(Ones(uniq), w.siblingsUniq, w.auxKeyUniq, w.auxValueUniq, w.noAuxUniq == 1, msgHash, ZERO, true);
    QuotaIsUses(history, w.nuLo);
    LessThanExact(w.countOld, msgLimit);
    ProcessorSound(Counts(quota), w.siblingsQuota, w.auxKeyQuota, w.auxValueQuota, w.noAuxQuota == 1,
                   w.nuLo, Num(w.countOld + 1), if w.countOld == 0 then Insert else Change);
    ProcessorSound(Ones(uniq), w.siblingsUniq, w.auxKeyUniq, w.auxValueUniq, w.noAuxUniq == 1, msgHash, Num(1), Insert);
    Snoc(history, r);
    assert Counts(quota[w.nuLo := w.countOld + 1]) == Counts(quota)[w.nuLo := Num(w.countOld + 1)];
    assert Ones(uniq + {msgHash}) == Ones(uniq)[msgHash := Num(1)];
    assert Counts(quota[w.nuLo := w.countOld + 1]).Keys == QuotaOf(history + [r]).Keys;
    assert Ones(uniq + {msgHash}).Keys == UniqOf(history + [r]);
  }

  // The first relay of a state written out: one use of its index, one message, and the hash of the
  // nullifier with the message.
  lemma FirstRelay(msgHash: Signal, msgLimit: U64, w: Witness)
    requires Circuit(msgHash, msgLimit, w).Some? && BitFlags(w)
    requires Circuit(msgHash, msgLimit, w).value.rootStateOld == Hash2(Num(0), Num(0))
    ensures var out := Circuit(msgHash, msgLimit, w).value;
      && out.rootStateNew == Hash2(Hash3(Num(w.nuLo), Num(1), Num(1)), Hash3(Num(msgHash), Num(1), Num(1)))
      && out.nuHash == Hash2(Num(w.nu), Num(msgHash))
    ensures w.countOld == 0 < msgLimit && |w.siblingsQuota| == |w.siblingsUniq| == 64
  {
    var out, r := Circuit(msgHash, msgLimit, w).value, RelayOf(w, msgHash);
    assert out.nuHash == Hash2(Num(w.nu), Num(msgHash)) && |w.siblingsQuota| == |w.siblingsUniq| == 64;
    hide Circuit, Canon, BitFlags;
    EmptyRooted();
    CircuitSound([], msgHash, msgLimit, w);
    Snoc([], r);
    assert Counts(QuotaOf([] + [r])) == map[w.nuLo := Num(1)];
    assert Ones(UniqOf([] + [r])) == map[msgHash := Num(1)];
    CanonSingle(map[w.nuLo := Num(1)], w.nuLo, 0, DEPTH);
    CanonSingle(map[msgHash := Num(1)], msgHash, 0, DEPTH);
  }

  // The index an accepted relay uses is its nullifier's own exactly when the split is in range,
  // which the circuit does not check.
  lemma IndexExact(msgHash: Signal, msgLimit: U64, w: Witness)
    requires Circuit(msgHash, msgLimit, w).Some?
    ensures w.nuLo == Low(w.nu, DEPTH) <==> InRange(w.nuLo, w.nuHi)
  {
    SplitExact(w.nu, w.nuLo, w.nuHi);
  }

  lemma FairMore(history: seq<Relayed>, r: Relayed, limit: nat)
    requires Fair(history, limit) && Uses(history, r.idx) < limit && r.msgHash !in UniqOf(history)
    ensures Fair(history + [r], limit)
  {
    var h := history + [r];
    assert h[..|h| - 1] == history;
    forall idx ensures Uses(h, idx) <= limit {
    }
    forall i, j | 0 <= i < j < |h| ensures h[i].msgHash != h[j].msgHash {
      if j == |history| {
        assert history[i].msgHash in UniqOf(history);
      }
    }
  }

  // ---- Quotas of nullifiers ----

  // Every relay used the index its nullifier names.
  predicate OwnIndices(history: seq<Relayed>) {
    forall i | 0 <= i < |history| :: history[i].idx == Low(history[i].nu, DEPTH)
  }

  function RelaysOf(history: seq<Relayed>, nu: nat): nat {
    if history == [] then 0
    else RelaysOf(history[..|history| - 1], nu) + if history[|history| - 1].nu == nu then 1 else 0
  }

  function Nullifiers(history: seq<Relayed>): set<nat> {
    set i | 0 <= i < |history| :: history[i].nu
  }

  // Then no nullifier is relayed above the limit.
  lemma {:induction false} NullifierQuota(history: seq<Relayed>, nu: nat, limit: nat)
    requires OwnIndices(history)
    ensures RelaysOf(history, nu) <= Uses(history, Low(nu, DEPTH))
    ensures Fair(history, limit) ==> RelaysOf(history, nu) <= limit
  {
    if history != [] {
      NullifierQuota(history[..|history| - 1], nu, limit);
    }
  }

  // And no more indices are used than there are nullifiers.
  lemma IndicesOfNullifiers(history: seq<Relayed>)
    requires OwnIndices(history)
    ensures |QuotaOf(history)| <= |Nullifiers(history)|
  {
    var lows := set nu | nu in Nullifiers(history) :: Low(nu, DEPTH);
    forall idx | idx in QuotaOf(history) ensures idx in lows {
      QuotaIsUses(history, idx);
      var i := UsedBy(history, idx);
      assert history[i].nu in Nullifiers(history);
    }
    LowsFewer(Nullifiers(history));
    assert lows == QuotaOf(history).Keys + (lows - QuotaOf(history).Keys);
    assert |QuotaOf(history).Keys| == |QuotaOf(history)|;
  }

  lemma {:induction false} UsedBy(history: seq<Relayed>, idx: nat) returns (i: nat)
    requires Uses(history, idx) > 0
    ensures i < |history| && history[i].idx == idx
  {
    i := |history| - 1;
    if history[i].idx != idx {
      i := UsedBy(history[..|history| - 1], idx);
    }
  }

  lemma {:induction false} LowsFewer(nus: set<nat>)
    ensures |set nu | nu in nus :: Low(nu, DEPTH)| <= |nus|
    decreases |nus|
  {
    hide Low;
    if nus != {} {
      var nu :| nu in nus;
      var rest := nus - {nu};
      LowsFewer(rest);
      var lows, fewer := set n | n in nus :: Low(n, DEPTH), set n | n in rest :: Low(n, DEPTH);
      assert lows == fewer + {Low(nu, DEPTH)};
    }
  }

  // ---- The program account ----

  class RelayerState {
    var rootState: Fr
    const msgLimit: U64
    const fee: nat
    ghost var history: seq<Relayed>
    ghost var bits: bool   // every relay's flags were bits

    // While all flags were bits the root stands for the history, which keeps to the limit.
    ghost predicate Valid()
      reads this
    {
      bits ==> Rooted(history, rootState) && Fair(history, msgLimit)
    }

    // Counts are between one and the limit, messages are distinct, and the counts, the
    // messages and the relays are equally many.
    lemma Conserved()
      requires Valid() && bits
      ensures forall idx | idx in QuotaOf(history) :: 1 <= QuotaOf(history)[idx] <= msgLimit
      ensures SumOf(QuotaOf(history)) == |history| == |UniqOf(history)|
      ensures |history| <= msgLimit * |QuotaOf(history)|
    {
      forall idx | idx in QuotaOf(history) ensures 1 <= QuotaOf(history)[idx] <= msgLimit {
        QuotaIsUses(history, idx);
      }
      CountsSum(history);
      DistinctMessages(history, msgLimit);
      SumBound(QuotaOf(history), msgLimit);
    }

    constructor Create(msgLimit: U64, fee: nat)
      ensures Valid() && bits && history == [] && this.msgLimit == msgLimit && this.fee == fee
    {
      this.msgLimit, this.fee, rootState, history, bits := msgLimit, fee, Hash2(ZERO, ZERO), [], true;
      new;
      EmptyRooted();
    }

    // An accepted relay: the proof, the call and the payment all hold, or nothing changes. A valid
    // proof has some witness w.
    method Relay(proofValid: bool, rootStateNew: Fr, msgHash: Signal, nuHash: Fr, callOk: bool,
                 balanceBefore: nat, balanceAfter: nat, ghost w: Witness) returns (ok: bool)
      requires Valid()
      requires proofValid ==> Circuit(msgHash, msgLimit, w) == Some(Outputs(rootState, rootStateNew, nuHash))
      modifies this
      ensures Valid()
      ensures ok == (proofValid && callOk && balanceAfter > balanceBefore && balanceAfter - balanceBefore >= fee)
      ensures rootState == if ok then rootStateNew else old(rootState)
      ensures history == if ok then old(history) + [RelayOf(w, msgHash)] else old(history)
      ensures bits == (old(bits) && (ok ==> BitFlags(w)))
    {
      if !proofValid {
        return false;
      }
      if !callOk || !(balanceAfter > balanceBefore && balanceAfter - balanceBefore >= fee) {
        return false;
      }
      hide Circuit, Rooted, UniqOf, Uses, BitFlags;
      if bits && BitFlags(w) {
        CircuitSound(history, msgHash, msgLimit, w);
        FairMore(history, RelayOf(w, msgHash), msgLimit);
      }
      rootState := rootStateNew;
      history := history + [RelayOf(w, msgHash)];
      bits := bits && BitFlags(w);
      ok := true;
    }
  }

  lemma {:induction false} DistinctMessages(history: seq<Relayed>, limit: nat)
    requires Fair(history, limit)
    ensures |UniqOf(history)| == |history|
  {
    if history == [] {
      assert UniqOf(history) == {};
    } else {
      var before, r := history[..|history| - 1], history[|history| - 1];
      assert history == before + [r];
      Snoc(before, r);
      FairLess(before, r, limit);
      DistinctMessages(before, limit);
    }
  }

  lemma FairLess(before: seq<Relayed>, r: Relayed, limit: nat)
    requires Fair(before + [r], limit)
    ensures Fair(before, limit) && r.msgHash !in UniqOf(before)
  {
    var h := before + [r];
    assert h[..|h| - 1] == before;
    forall idx ensures Uses(before, idx) <= limit {
      assert Uses(h, idx) <= limit;
    }
    forall i | 0 <= i < |before| ensures before[i].msgHash != r.msgHash {
      assert h[i].msgHash != h[|before|].msgHash;
    }
    forall i, j | 0 <= i < j < |before| ensures before[i].msgHash != before[j].msgHash {
      assert h[i].msgHash != h[j].msgHash;
    }
  }

  lemma EmptyRooted()
    ensures Rooted([], Hash2(ZERO, ZERO))
    ensures forall limit :: Fair([], limit)
  {
    assert Counts(QuotaOf([])) == map[] && Ones(UniqOf([])) == map[];
  }
}
