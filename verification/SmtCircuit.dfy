// The two tree gadgets of the circuits, as relations over a root and a sibling list, and what
// accepting them says about the map under the root.

module SmtCircuit {
  import opened Field
  import opened Wrappers
  import opened Keys
  import opened Canonical
  import opened Signals
  import opened SparseMerkle

  // The level the siblings lead to: one past the last sibling that is not zero.
  function Level(siblings: seq<Fr>): (n: nat)
    ensures n <= |siblings|
    ensures siblings[n..] == Zeros(|siblings| - n)
    ensures n > 0 ==> siblings[n - 1] != ZERO
  {
    if siblings == [] then 0
    else if siblings[|siblings| - 1] != ZERO then |siblings|
    else
      var n := Level(siblings[..|siblings| - 1]);
      assert siblings[n..] == siblings[..|siblings| - 1][n..] + [ZERO];
      n
  }

  lemma {:induction false} LevelIs(siblings: seq<Fr>, n: nat)
    requires n <= |siblings| && siblings[n..] == Zeros(|siblings| - n)
    requires n > 0 ==> siblings[n - 1] != ZERO
    ensures Level(siblings) == n
  {
    if n < |siblings| {
      assert siblings[|siblings| - 1] == siblings[n..][|siblings| - 1 - n];
      LevelIs(siblings[..|siblings| - 1], n);
    }
  }

  function LeafAt(isOld0: bool, oldKey: nat, oldValue: Fr): Fr {
    if isOld0 then ZERO else LeafKey(oldKey, oldValue)
  }

  // SMTVerifier when enabled: the last sibling is zero, and the fold from the claimed bottom is the root.
  predicate SmtVerifier(root: Fr, siblings: seq<Fr>, oldKey: nat, oldValue: Fr, isOld0: bool,
                        key: nat, value: Fr, exclusion: bool)
  {
    && siblings != [] && siblings[|siblings| - 1] == ZERO
    && (exclusion && !isOld0 ==> oldKey != key)
    && root == Fold(if exclusion then LeafAt(isOld0, oldKey, oldValue) else LeafKey(key, value),
                    key, siblings[..Level(siblings)], 0)
  }

  datatype Op = Keep | Insert | Change

  // The hash of a two-leaf tree at level lvl: the shared turns are middle nodes with one empty side.
  function Pushed(oldKey: nat, oldValue: Fr, newKey: nat, newValue: Fr, lvl: nat, d: nat): Option<Fr>
    decreases d - lvl
  {
    if lvl >= d then None
    else if Bit(oldKey, lvl) != Bit(newKey, lvl) then
      Some(if Bit(newKey, lvl) then MidKey(LeafKey(oldKey, oldValue), LeafKey(newKey, newValue))
           else MidKey(LeafKey(newKey, newValue), LeafKey(oldKey, oldValue)))
    else match Pushed(oldKey, oldValue, newKey, newValue, lvl + 1, d)
      case None => None
      case Some(below) => Some(if Bit(newKey, lvl) then MidKey(ZERO, below) else MidKey(below, ZERO))
  }

  // SMTProcessor: the new root, or None when a constraint fails.
  function SmtProcessor(oldRoot: Fr, siblings: seq<Fr>, oldKey: nat, oldValue: Fr, isOld0: bool,
                        newKey: nat, newValue: Fr, op: Op): Option<Fr>
  {
    if op == Keep then Some(oldRoot)
    else if siblings == [] || siblings[|siblings| - 1] != ZERO then None
    else
      var path := siblings[..Level(siblings)];
      if op == Change then
        if oldKey == newKey && oldRoot == Fold(LeafKey(oldKey, oldValue), newKey, path, 0)
        then Some(Fold(LeafKey(newKey, newValue), newKey, path, 0)) else None
      else if oldRoot != Fold(LeafAt(isOld0, oldKey, oldValue), newKey, path, 0) then None
      else if isOld0 then Some(Fold(LeafKey(newKey, newValue), newKey, path, 0))
      else if oldKey == newKey then None
      else match Pushed(oldKey, oldValue, newKey, newValue, Level(siblings), |siblings|)
        case None => None
        case Some(below) => Some(Fold(below, newKey, path, 0))
  }

  // ---- With flags as the circuits give them: signals that they do not make bits ----

  // Nothing is asked of a check whose flags are not bits.
  predicate Verifier(root: Fr, siblings: seq<Fr>, oldKey: nat, oldValue: Fr, isOld0: Signal,
                     key: nat, value: Fr, exclusion: Signal)
  {
    IsBit(isOld0) && IsBit(exclusion) ==>
      SmtVerifier(root, siblings, oldKey, oldValue, isOld0 == 1, key, value, exclusion == 1)
  }

  // A write whose flags are not bits gives any root; no operation is named by a flag that is not a bit.
  function Processor(oldRoot: Fr, siblings: seq<Fr>, oldKey: nat, oldValue: Fr, isOld0: Signal,
                     newKey: nat, newValue: Fr, op: Option<Op>, anyRoot: Fr): Option<Fr>
  {
    if op == Some(Keep) then Some(oldRoot)
    else if op.None? || !IsBit(isOld0) then Some(anyRoot)
    else SmtProcessor(oldRoot, siblings, oldKey, oldValue, isOld0 == 1, newKey, newValue, op.value)
  }

  function WriteOp(enabled: bool, wasEmpty: Signal): Option<Op> {
    if !enabled then Some(Keep) else if wasEmpty == 1 then Some(Insert) else if wasEmpty == 0 then Some(Change) else None
  }

  lemma {:induction false} PushedIsCanon(oldKey: nat, oldValue: Fr, newKey: nat, newValue: Fr, lvl: nat, d: nat)
    requires oldKey != newKey
    ensures Pushed(oldKey, oldValue, newKey, newValue, lvl, d) ==
      if SameBits(oldKey, newKey, lvl, d) then None
      else Some(Canon(map[oldKey := oldValue][newKey := newValue], lvl, d))
    decreases d - lvl
  {
    hide Canon, Spread, Bit;
    if !SameBits(oldKey, newKey, lvl, d) {
      PairCanon(oldKey, oldValue, newKey, newValue, lvl, d);
    }
    if lvl < d {
      PushedIsCanon(oldKey, oldValue, newKey, newValue, lvl + 1, d);
      assert SameBits(oldKey, newKey, lvl, d) <==>
        Bit(oldKey, lvl) == Bit(newKey, lvl) && SameBits(oldKey, newKey, lvl + 1, d);
    }
  }

  // Soundness: an accepted check of inclusion or exclusion is true of the map under the root.
  lemma VerifierSound(m: Leaves, siblings: seq<Fr>, oldKey: nat, oldValue: Fr, isOld0: bool,
                      key: nat, value: Fr, exclusion: bool)
    requires Spread(m.Keys, 0, |siblings|)
    requires SmtVerifier(Canon(m, 0, |siblings|), siblings, oldKey, oldValue, isOld0, key, value, exclusion)
    ensures if exclusion then key !in m else key in m && m[key] == value
  {
    hide Canon, Spread;
    var path, d := siblings[..Level(siblings)], |siblings|;
    if exclusion {
      ExclusionSound(m, key, if isOld0 then None else Some((oldKey, oldValue)), path, d);
    } else {
      InclusionSound(m, key, value, path, d);
    }
  }

  // Soundness: an accepted insert or change moves the root from the old map to the written one.
  lemma ProcessorSound(m: Leaves, siblings: seq<Fr>, oldKey: nat, oldValue: Fr, isOld0: bool,
                       newKey: nat, newValue: Fr, op: Op)
    requires Spread(m.Keys, 0, |siblings|)
    requires SmtProcessor(Canon(m, 0, |siblings|), siblings, oldKey, oldValue, isOld0, newKey, newValue, op).Some?
    ensures op == Insert ==> newKey !in m
    ensures op == Change ==> newKey in m && newKey == oldKey && m[newKey] == oldValue
    ensures var m' := if op == Keep then m else m[newKey := newValue];
      && Spread(m'.Keys, 0, |siblings|)
      && SmtProcessor(Canon(m, 0, |siblings|), siblings, oldKey, oldValue, isOld0, newKey, newValue, op).value
         == Canon(m', 0, |siblings|)
  {
    hide Canon, Spread, Bit, SameBits, Along;
    if op == Keep {
      return;
    }
    var path, d, n := siblings[..Level(siblings)], |siblings|, Level(siblings);
    var met := Along(m, newKey, 0, n);
    var m' := m[newKey := newValue];
    assert m'.Keys == m.Keys + {newKey};
    if op == Change {
      InclusionSound(m, newKey, oldValue, path, d);
      assert m.Keys + {newKey} == m.Keys;
      FoldReplaces(m, newKey, newValue, LeafKey(oldKey, oldValue), path, 0, d);
      assert met[newKey := newValue] == map[newKey := newValue];
      CanonSingle(map[newKey := newValue], newKey, n, d);
    } else {
      ExclusionSound(m, newKey, if isOld0 then None else Some((oldKey, oldValue)), path, d);
      if !isOld0 {
        PushedIsCanon(oldKey, oldValue, newKey, newValue, n, d);
      }
      NotShadowed(m, newKey, isOld0, oldKey, n, d);
      SpreadAdds(m.Keys, newKey, 0, d);
      FoldReplaces(m, newKey, newValue, LeafAt(isOld0, oldKey, oldValue), path, 0, d);
      if isOld0 {
        CanonSingle(map[newKey := newValue], newKey, n, d);
      }
    }
  }

  // Nothing shadows a new key whose path meets an empty slot, or a leaf that parts from it below.
  lemma NotShadowed(m: Leaves, key: nat, empty: bool, other: nat, n: nat, d: nat)
    requires n <= d
    requires Along(m, key, 0, n).Keys == if empty then {} else {other}
    requires !empty ==> !SameBits(other, key, n, d)
    ensures !Shadowed(m.Keys, key, 0, d)
  {
    forall k | k in m && k != key ensures !SameBits(k, key, 0, d) {
      assert k in Along(m, key, 0, n) <==> SameBits(k, key, 0, n);
      assert SameBits(k, key, 0, d) ==> SameBits(k, key, 0, n) && SameBits(k, key, n, d);
    }
  }

  // ---- Completeness: the proofs the tree builds are the witnesses the gadgets accept ----

  lemma ProofShape(p: CircomProof, m: Leaves, key: nat, n: nat, d: nat)
    requires ProofOf(p, m, key, n, d) && d > 0
    ensures Level(p.siblings) == n
    ensures p.siblings[d - 1] == ZERO <==> n < d
    ensures n == d ==> Many(Along(m, key, 0, d - 1))
  {
    hide Canon, Spread, Along, Bit;
    LevelIs(p.siblings, n);
    if n < d {
      assert p.siblings[d - 1] == p.siblings[n..][d - 1 - n];
    }
  }

  // Membership is reported exactly for the keys no other key shadows in their low d-1 bits,
  // and then with the stored value.
  lemma MembershipExact(p: CircomProof, m: Leaves, key: nat, n: nat, d: nat)
    requires ProofOf(p, m, key, n, d) && d > 0
    ensures p.membership <==> key in m && !Shadowed(m.Keys, key, 0, d - 1)
    ensures p.membership ==> p.oldKey == key && p.oldValue == m[key]
  {
    hide Canon, Spread, Bit, SameBits, Along;
    ProofShape(p, m, key, n, d);
    AlongKeeps(m, key, n);
    if key in m {
      ShadowedAlong(m, key, d - 1);
      ShadowedAlong(m, key, n);
      if Shadowed(m.Keys, key, 0, d - 1) && n < d {
        ShadowedLonger(m.Keys, key, n, d - 1);
      }
    }
  }

  // With no shadow in the low d-1 bits the proof fits the circuit: inclusion verifies exactly for
  // the stored value, exclusion exactly when the leaf met does not sit at key zero.
  lemma ProofVerifies(p: CircomProof, m: Leaves, key: nat, value: Fr, n: nat, d: nat)
    requires Spread(m.Keys, 0, d) && d > 0
    requires ProofOf(p, m, key, n, d) && !Shadowed(m.Keys, key, 0, d - 1)
    ensures SmtVerifier(Canon(m, 0, d), p.siblings, p.oldKey, p.oldValue, p.isOld0, key, value, false)
            <==> key in m && m[key] == value
    ensures SmtVerifier(Canon(m, 0, d), p.siblings, p.oldKey, p.oldValue, p.isOld0, key, value, true)
            <==> key !in m && 0 !in Along(m, key, 0, n)
  {
    hide Canon, Spread, Bit, SameBits, Along;
    NoShadowStops(p, m, key, n, d);
    MembershipExact(p, m, key, n, d);
    AlongKeeps(m, key, n);
    var met := Along(m, key, 0, n);
    BottomHash(p, m, key, n, d);
    if SmtVerifier(Canon(m, 0, d), p.siblings, p.oldKey, p.oldValue, p.isOld0, key, value, false) {
      VerifierSound(m, p.siblings, p.oldKey, p.oldValue, p.isOld0, key, value, false);
    }
    if SmtVerifier(Canon(m, 0, d), p.siblings, p.oldKey, p.oldValue, p.isOld0, key, value, true) {
      VerifierSound(m, p.siblings, p.oldKey, p.oldValue, p.isOld0, key, value, true);
      FoldInjective(Canon(met, n, d), LeafAt(p.isOld0, p.oldKey, p.oldValue), key, p.siblings[..n], 0);
    }
  }

  // A path that takes up the whole depth fits neither gadget: its last sibling is not zero.
  lemma DeepRejected(p: CircomProof, m: Leaves, key: nat, root: Fr, oldKey: nat, oldValue: Fr, isOld0: bool, value: Fr, d: nat)
    requires ProofOf(p, m, key, d, d) && d > 0
    ensures forall exclusion: bool :: !SmtVerifier(root, p.siblings, oldKey, oldValue, isOld0, key, value, exclusion)
    ensures forall op: Op | op != Keep :: SmtProcessor(root, p.siblings, oldKey, oldValue, isOld0, key, value, op).None?
  {
    hide Canon, Spread, Along;
    ProofShape(p, m, key, d, d);
  }

  lemma ManyShadow(m: Leaves, key: nat, i: nat)
    ensures Many(Along(m, key, 0, i)) ==> Shadowed(m.Keys, key, 0, i)
  {
    var met := Along(m, key, 0, i);
    if Many(met) {
      var a, b :| a in met && b in met && a != b;
      var k := if a != key then a else b;
      assert k in m && k != key && SameBits(k, key, 0, i);
    }
  }

  lemma NoShadowStops(p: CircomProof, m: Leaves, key: nat, n: nat, d: nat)
    requires ProofOf(p, m, key, n, d) && d > 0
    requires !Shadowed(m.Keys, key, 0, d - 1)
    ensures n < d && Level(p.siblings) == n && p.siblings[d - 1] == ZERO
  {
    ProofShape(p, m, key, n, d);
    ManyShadow(m, key, d - 1);
  }

  lemma BottomHash(p: CircomProof, m: Leaves, key: nat, n: nat, d: nat)
    requires ProofOf(p, m, key, n, d) && n < d
    ensures var met := Along(m, key, 0, n);
      Canon(met, n, d) == if met == map[] then ZERO else LeafKey(p.oldKey, p.oldValue)
    ensures 0 in Along(m, key, 0, n) <==> Along(m, key, 0, n) != map[] && p.isOld0
  {
    var met := Along(m, key, 0, n);
    if met != map[] {
      CanonSingle(met, p.oldKey, n, d);
    }
  }

  // The writes the circuit accepts from such a proof are exactly the tree's own.
  lemma ProofProcesses(p: CircomProof, m: Leaves, key: nat, value: Fr, n: nat, d: nat)
    requires Spread(m.Keys, 0, d) && d > 0
    requires ProofOf(p, m, key, n, d) && !Shadowed(m.Keys, key, 0, d - 1)
    requires 0 !in m || 0 == key
    ensures SmtProcessor(Canon(m, 0, d), p.siblings, p.oldKey, p.oldValue, p.isOld0, key, value,
                         if key in m then Change else Insert)
            == Some(Canon(m[key := value], 0, d))
  {
    hide Canon, Spread, Bit, SameBits, Along;
    var op := if key in m then Change else Insert;
    assert SmtProcessor(Canon(m, 0, d), p.siblings, p.oldKey, p.oldValue, p.isOld0, key, value, op).Some? by {
      NoShadowStops(p, m, key, n, d);
      MembershipExact(p, m, key, n, d);
      AlongKeeps(m, key, n);
      ProofMeets(p, m, key, n, d);
      BottomHash(p, m, key, n, d);
      if op == Insert && Along(m, key, 0, n) != map[] {
        PushedIsCanon(p.oldKey, p.oldValue, key, value, n, d);
        PartsBelow(m, key, p.oldKey, n, d);
      }
    }
    ProcessorSound(m, p.siblings, p.oldKey, p.oldValue, p.isOld0, key, value, op);
  }

  lemma ProofMeets(p: CircomProof, m: Leaves, key: nat, n: nat, d: nat)
    requires ProofOf(p, m, key, n, d) && n < d
    ensures var met := Along(m, key, 0, n);
      && |p.siblings| == d && n <= |p.siblings|
      && Canon(m, 0, d) == Fold(Canon(met, n, d), key, p.siblings[..n], 0)
      && (met == map[] ==> p.isOld0)
      && (met != map[] ==> p.oldKey in m && p.oldKey in met && p.isOld0 == (p.oldKey == 0))
  {
    var met := Along(m, key, 0, n);
    assert met != map[] ==> p.oldKey in met;
  }

  lemma PartsBelow(m: Leaves, key: nat, other: nat, n: nat, d: nat)
    requires n < d && other in Along(m, key, 0, n) && other != key
    requires !Shadowed(m.Keys, key, 0, d - 1)
    ensures !SameBits(other, key, n, d)
  {
    SameBitsJoin(other, key, n, d);
  }
}
