// The census: the Merkle tree folded in place over the voters' leaves, its proofs and the circuit
// that checks them, and the chunk-wise ingestion of the leaf file.

module Census {
  import opened Field
  import opened Wrappers
  import opened Keys

  // ---- The perfect tree, padded with the default leaf ----

  function Default(lvl: nat): Fr {
    if lvl == 0 then HASH0 else Hash2(Default(lvl - 1), Default(lvl - 1))
  }

  function LeafAt(leafs: seq<Fr>, i: nat): Fr {
    if i < |leafs| then leafs[i] else HASH0
  }

  function TreeAt(leafs: seq<Fr>, lvl: nat, i: nat): Fr {
    if lvl == 0 then LeafAt(leafs, i) else Hash2(TreeAt(leafs, lvl - 1, 2 * i), TreeAt(leafs, lvl - 1, 2 * i + 1))
  }

  function Up(level: seq<Fr>, def: Fr): (up: seq<Fr>)
    ensures |up| == (|level| + 1) / 2
    ensures forall j | 0 <= j < |up| :: up[j] == Hash2(level[2 * j], if 2 * j + 1 < |level| then level[2 * j + 1] else def)
  {
    seq((|level| + 1) / 2, j requires 0 <= j < (|level| + 1) / 2 =>
      Hash2(level[2 * j], if 2 * j + 1 < |level| then level[2 * j + 1] else def))
  }

  // A level array holds the tree's level as far as there are leaves; beyond is the default.
  ghost predicate IsLevel(level: seq<Fr>, leafs: seq<Fr>, lvl: nat) {
    level != [] && forall i: nat :: TreeAt(leafs, lvl, i) == if i < |level| then level[i] else Default(lvl)
  }

  lemma UpIsLevel(level: seq<Fr>, leafs: seq<Fr>, lvl: nat)
    requires IsLevel(level, leafs, lvl)
    ensures IsLevel(Up(level, Default(lvl)), leafs, lvl + 1)
  {
    hide TreeAt, Default;
    var up, next := Up(level, Default(lvl)), lvl + 1;
    forall i: nat ensures TreeAt(leafs, next, i) == if i < |up| then up[i] else Default(next) {
      UpAt(level, leafs, lvl, i);
    }
  }

  lemma UpAt(level: seq<Fr>, leafs: seq<Fr>, lvl: nat, i: nat)
    requires IsLevel(level, leafs, lvl)
    ensures var up := Up(level, Default(lvl));
      TreeAt(leafs, lvl + 1, i) == if i < |up| then up[i] else Default(lvl + 1)
  {
    TreeStep(leafs, lvl, i);
    DefaultStep(lvl + 1);
    hide TreeAt, Default;
    var l: nat, r: nat := 2 * i, 2 * i + 1;
    assert TreeAt(leafs, lvl, l) == if l < |level| then level[l] else Default(lvl);
    assert TreeAt(leafs, lvl, r) == if r < |level| then level[r] else Default(lvl);
  }

  lemma TreeStep(leafs: seq<Fr>, lvl: nat, i: nat)
    ensures TreeAt(leafs, lvl + 1, i) == Hash2(TreeAt(leafs, lvl, 2 * i), TreeAt(leafs, lvl, 2 * i + 1))
  {
  }

  lemma DefaultStep(lvl: nat)
    ensures Default(lvl) == if lvl == 0 then HASH0 else Hash2(Default(lvl - 1), Default(lvl - 1))
  {
  }

  // The defaults of levels 0..depth.
  method Defaults(depth: nat) returns (def: array<Fr>)
    ensures fresh(def) && def.Length == depth + 1
    ensures forall l | 0 <= l <= depth :: def[l] == Default(l)
  {
    hide Default;
    def := new Fr[depth + 1](_ => HASH0);
    DefaultStep(0);
    for i := 1 to depth + 1
      invariant forall l | 0 <= l < i :: def[l] == Default(l)
    {
      def[i] := Hash2(def[i - 1], def[i - 1]);
      DefaultStep(i);
    }
  }

  // One level up, written over the level being read: position j is written after 2j and 2j+1 were read.
  method FoldLevel(level: array<Fr>, def: Fr) returns (up: array<Fr>)
    modifies level
    ensures fresh(up) && up[..] == Up(old(level[..]), def)
  {
    var newLevelLen := (level.Length + 1) / 2;
    ghost var was := level[..];
    for j := 0 to newLevelLen
      invariant forall k | 0 <= k < j :: level[k] == Up(was, def)[k]
      invariant forall k | j <= k < level.Length :: level[k] == was[k]
    {
      var sibIndex := 2 * j + 1;
      var sib := if sibIndex < level.Length then level[sibIndex] else def;
      level[j] := Hash2(level[2 * j], sib);
    }
    up := new Fr[newLevelLen](i requires 0 <= i < newLevelLen <= level.Length reads level => level[i]);
  }

  method CopyLevel(leafs: seq<Fr>) returns (level: array<Fr>)
    ensures fresh(level) && level[..] == leafs
  {
    level := new Fr[|leafs|](i requires 0 <= i < |leafs| => leafs[i]);
  }

  lemma LeavesAreLevel(leafs: seq<Fr>)
    requires leafs != []
    ensures IsLevel(leafs, leafs, 0)
  {
  }

  lemma LevelAt(level: seq<Fr>, leafs: seq<Fr>, lvl: nat, i: nat)
    requires IsLevel(level, leafs, lvl)
    ensures TreeAt(leafs, lvl, i) == if i < |level| then level[i] else Default(lvl)
  {
  }

  lemma HalfRange(idx: nat, n: nat)
    requires n > 0 && idx < Pow2(n)
    ensures idx / 2 < Pow2(n - 1)
  {
  }

  // A lone leaf is hashed with the hash of zero, two with each other, the first on the left.
  lemma SmallTrees(x: Fr, y: Fr)
    ensures TreeAt([x], 1, 0) == Hash2(x, Hash1(Num(0)))
    ensures TreeAt([x, y], 1, 0) == Hash2(x, y)
  {
    TreeStep([x], 0, 0);
    TreeStep([x, y], 0, 0);
  }

  method GetMerkleRoot(depth: nat, leafs: seq<Fr>) returns (root: Fr)
    requires leafs != []
    ensures root == TreeAt(leafs, depth, 0)
  {
    var def := Defaults(depth);
    root := leafs[0];
    var level := CopyLevel(leafs);
    for lvl := 0 to depth
      invariant fresh(level) && level != def && IsLevel(level[..], leafs, lvl)
      invariant root == TreeAt(leafs, lvl, 0)
      invariant forall l | 0 <= l <= depth :: def[l] == Default(l)
    {
      var sib := if 1 < level.Length then level[1] else def[lvl];
      root := Hash2(root, sib);
      assert TreeAt(leafs, lvl + 1, 0) == Hash2(TreeAt(leafs, lvl, 0), TreeAt(leafs, lvl, 1));
      UpIsLevel(level[..], leafs, lvl);
      level := FoldLevel(level, def[lvl]);
    }
  }

  // The inclusion circuit: the leaf folded with the path, true bits putting it on the right.
  function Inclusion(leaf: Fr, pathIndices: seq<bool>, pathElements: seq<Fr>): Fr
    requires |pathIndices| == |pathElements|
  {
    if pathIndices == [] then leaf
    else
      var n := |pathIndices| - 1;
      var below := Inclusion(leaf, pathIndices[..n], pathElements[..n]);
      if pathIndices[n] then Hash2(pathElements[n], below) else Hash2(below, pathElements[n])
  }

  // The leaf position that bits name below node i.
  function Position(bits: seq<bool>, i: nat): nat {
    if bits == [] then i else Position(bits[..|bits| - 1], 2 * i + if bits[|bits| - 1] then 1 else 0)
  }

  method Sibling(level: array<Fr>, def: Fr, idx: nat, ghost leafs: seq<Fr>, ghost lvl: nat) returns (sib: Fr)
    requires IsLevel(level[..], leafs, lvl) && def == Default(lvl)
    ensures sib == TreeAt(leafs, lvl, if idx % 2 == 1 then idx - 1 else idx + 1)
  {
    var sibIndex: nat := if idx % 2 == 1 then idx - 1 else idx + 1;
    LevelAt(level[..], leafs, lvl, sibIndex);
    sib := if sibIndex < level.Length then level[sibIndex] else def;
  }

  lemma PathSnoc(leaf: Fr, bits: seq<bool>, elements: seq<Fr>, bit: bool, element: Fr, i: nat)
    requires |bits| == |elements|
    ensures var below := Inclusion(leaf, bits, elements);
      Inclusion(leaf, bits + [bit], elements + [element]) == if bit then Hash2(element, below) else Hash2(below, element)
    ensures Position(bits + [bit], i) == Position(bits, 2 * i + if bit then 1 else 0)
  {
    assert (bits + [bit])[..|bits|] == bits && (elements + [element])[..|elements|] == elements;
  }

  // What the climb holds at level lvl: the node above the leaf, and a path from the leaf to it.
  ghost predicate Climbed(leafs: seq<Fr>, index: nat, lvl: nat, idx: nat, root: Fr, path: seq<Fr>, pathPos: seq<bool>)
    requires index < |leafs|
  {
    && |path| == |pathPos| == lvl
    && root == TreeAt(leafs, lvl, idx) == Inclusion(leafs[index], pathPos, path)
    && Position(pathPos, idx) == index
    && idx == index / Pow2(lvl) && Turns(index, pathPos)
  }

  // The path turns right where the index has a one.
  ghost predicate Turns(index: nat, pathPos: seq<bool>) {
    forall i | 0 <= i < |pathPos| :: pathPos[i] == Bit(index, i)
  }

  lemma ClimbStarts(leafs: seq<Fr>, index: nat)
    requires index < |leafs|
    ensures Climbed(leafs, index, 0, index, leafs[index], [], [])
  {
  }

  lemma ClimbMore(leafs: seq<Fr>, index: nat, lvl: nat, idx: nat, root: Fr, path: seq<Fr>, pathPos: seq<bool>, sib: Fr)
    requires index < |leafs| && Climbed(leafs, index, lvl, idx, root, path, pathPos)
    requires sib == TreeAt(leafs, lvl, if idx % 2 == 1 then idx - 1 else idx + 1)
    ensures var bit := idx % 2 == 1;
      Climbed(leafs, index, lvl + 1, idx / 2, if bit then Hash2(sib, root) else Hash2(root, sib), path + [sib], pathPos + [bit])
  {
    NextPower(index, lvl);
    TurnsMore(index, pathPos);
    hide TreeAt, Inclusion, Position, Pow2, Bit, Turns;
    ProofStep(leafs, lvl, idx);
    PathSnoc(leafs[index], pathPos, path, idx % 2 == 1, sib, idx / 2);
  }

  lemma TurnsMore(index: nat, pathPos: seq<bool>)
    requires Turns(index, pathPos)
    ensures Turns(index, pathPos + [Bit(index, |pathPos|)])
  {
  }

  lemma NextPower(index: nat, lvl: nat)
    ensures index / Pow2(lvl + 1) == (index / Pow2(lvl)) / 2
    ensures Bit(index, lvl) <==> (index / Pow2(lvl)) % 2 == 1
  {
    HalfOfQuotient(index, Pow2(lvl));
  }

  method GetMerkleProof(depth: nat, leafs: seq<Fr>, index: nat) returns (root: Fr, path: seq<Fr>, pathPos: seq<bool>)
    requires index < |leafs|
    ensures |path| == |pathPos| == depth
    ensures Inclusion(leafs[index], pathPos, path) == root
    ensures forall i | 0 <= i < depth :: pathPos[i] == Bit(index, i)
    ensures index < Pow2(depth) ==> root == TreeAt(leafs, depth, 0) && Position(pathPos, 0) == index
  {
    var def := Defaults(depth);
    path, pathPos, root := [], [], leafs[index];
    var idx: nat := index;
    var level := CopyLevel(leafs);
    LeavesAreLevel(leafs);
    ClimbStarts(leafs, index);
    for lvl := 0 to depth
      invariant fresh(level) && level != def && IsLevel(level[..], leafs, lvl)
      invariant Climbed(leafs, index, lvl, idx, root, path, pathPos) && idx < level.Length
      invariant index < Pow2(depth) ==> idx < Pow2(depth - lvl)
      invariant forall l | 0 <= l <= depth :: def[l] == Default(l)
    {
      hide Default, Up, Pow2, Climbed, IsLevel;
      var bit := idx % 2 == 1;
      var sib := Sibling(level, def[lvl], idx, leafs, lvl);
      ClimbMore(leafs, index, lvl, idx, root, path, pathPos, sib);
      root := if bit then Hash2(sib, root) else Hash2(root, sib);
      path, pathPos := path + [sib], pathPos + [bit];
      if index < Pow2(depth) {
        HalfRange(idx, depth - lvl);
      }
      idx := idx / 2;
      UpIsLevel(level[..], leafs, lvl);
      level := FoldLevel(level, def[lvl]);
    }
  }

  lemma ProofStep(leafs: seq<Fr>, lvl: nat, idx: nat)
    ensures TreeAt(leafs, lvl + 1, idx / 2) ==
      if idx % 2 == 1 then Hash2(TreeAt(leafs, lvl, idx - 1), TreeAt(leafs, lvl, idx))
      else Hash2(TreeAt(leafs, lvl, idx), TreeAt(leafs, lvl, idx + 1))
  {
    var h := idx / 2;
    assert idx == 2 * h || idx == 2 * h + 1;
  }

  // Soundness: any path the circuit accepts for the root names the leaf really at its position.
  lemma {:induction false} InclusionSound(leafs: seq<Fr>, leaf: Fr, bits: seq<bool>, elements: seq<Fr>, i: nat)
    requires |bits| == |elements|
    requires Inclusion(leaf, bits, elements) == TreeAt(leafs, |bits|, i)
    ensures leaf == LeafAt(leafs, Position(bits, i))
  {
    if bits != [] {
      var n := |bits| - 1;
      InclusionSound(leafs, leaf, bits[..n], elements[..n], 2 * i + if bits[n] then 1 else 0);
    }
  }

  // ---- Ingestion ----

  const BATCH: nat := 10_000

  // A stored verdict: unset, invalid, or valid.
  datatype Census = Census(valid: Option<bool>, voters: set<seq<Byte>>)

  // How many of n leaves taken off the stream are stored before the last batch.
  function Stored(n: nat): nat {
    n - n % 10_000
  }

  lemma StoredNext(n: nat)
    ensures Stored(n) <= n
    ensures Stored(n + 1) == if n + 1 - Stored(n) >= BATCH then n + 1 else Stored(n)
  {
  }

  // Whole leaves in the first c chunks.
  function Whole(chunks: seq<seq<Byte>>, c: nat): nat
    requires c <= |chunks|
  {
    |Concat(chunks[..c])| / 32
  }

  // The c-th chunk, counted on top of what is stored, brings more leaves than expected.
  predicate Refused(chunks: seq<seq<Byte>>, c: nat, expectedVoters: nat) {
    c < |chunks| && Stored(Whole(chunks, c)) + (Whole(chunks, c + 1) - Whole(chunks, c)) > expectedVoters
  }

  predicate FirstRefused(chunks: seq<seq<Byte>>, c: nat, expectedVoters: nat) {
    Refused(chunks, c, expectedVoters) && forall b | 0 <= b < c :: !Refused(chunks, b, expectedVoters)
  }

  // A file too long from its first chunk is refused there, before anything is stored.
  lemma RefusedAtOnce(chunks: seq<seq<Byte>>, expectedVoters: nat)
    requires chunks != [] && |chunks[0]| / 32 > expectedVoters
    ensures FirstRefused(chunks, 0, expectedVoters) && Stored(Whole(chunks, 0)) == 0
  {
    assert chunks[..1][..0] == chunks[..0];
    ConcatSnoc(chunks[..1]);
  }

  // The first n leaves of the file.
  function LeavesOf(bytes: seq<Byte>, n: nat): set<seq<Byte>>
    requires 32 * n <= |bytes|
  {
    set i | 0 <= i < n :: bytes[32 * i..32 * i + 32]
  }

  function Concat(chunks: seq<seq<Byte>>): seq<Byte> {
    if chunks == [] then [] else Concat(chunks[..|chunks| - 1]) + chunks[|chunks| - 1]
  }

  lemma {:induction false} ConcatGrows(chunks: seq<seq<Byte>>, n: nat)
    requires n <= |chunks|
    ensures Concat(chunks[..n]) <= Concat(chunks)
  {
    if n < |chunks| {
      ConcatGrows(chunks[..|chunks| - 1], n);
      assert chunks[..|chunks| - 1][..n] == chunks[..n];
    } else {
      assert chunks[..n] == chunks;
    }
  }

  lemma ConcatSnoc(chunks: seq<seq<Byte>>)
    requires chunks != []
    ensures Concat(chunks) == Concat(chunks[..|chunks| - 1]) + chunks[|chunks| - 1]
  {
  }

  class CensusManager {
    var census: Census

    constructor (census: Census)
      ensures this.census == census
    {
      this.census := census;
    }

    method MarkBad()
      modifies this
      ensures census == old(census).(valid := Some(false))
    {
      census := census.(valid := Some(false));
    }

    method InsertLeaves(batch: seq<seq<Byte>>)
      modifies this
      ensures census == old(census).(voters := old(census).voters + set b | b in batch)
    {
      census := census.(voters := census.voters + set b | b in batch);
    }

    // What the loop holds: `done` leaves taken off the stream, `total` of them inserted.
    ghost predicate Reading(bytes: seq<Byte>, buf: seq<Byte>, batch: seq<seq<Byte>>, total: nat, done: nat, before: set<seq<Byte>>)
      reads this
    {
      && 32 * done <= |bytes| && buf == bytes[32 * done..]
      && total + |batch| == done
      && (forall i | 0 <= i < |batch| :: batch[i] == bytes[32 * (total + i)..32 * (total + i) + 32])
      && census.voters == before + LeavesOf(bytes, total)
    }

    method TakeLeaves(ghost bytes: seq<Byte>, buf0: seq<Byte>, batch0: seq<seq<Byte>>, total0: nat, ghost done0: nat, ghost before: set<seq<Byte>>)
      returns (buf: seq<Byte>, batch: seq<seq<Byte>>, total: nat)
      requires Reading(bytes, buf0, batch0, total0, done0, before) && total0 == Stored(done0)
      modifies this
      ensures Reading(bytes, buf, batch, total, |bytes| / 32, before) && total == Stored(|bytes| / 32)
      ensures |buf| < 32 && census.valid == old(census.valid)
    {
      hide LeavesOf, Stored;
      buf, batch, total := buf0, batch0, total0;
      ghost var done := done0;
      while |buf| >= 32
        invariant Reading(bytes, buf, batch, total, done, before) && total == Stored(done)
        invariant census.valid == old(census.valid)
        decreases |buf|
      {
        var leaf := buf[..32];
        assert leaf == bytes[32 * done..32 * done + 32];
        buf := buf[32..];
        batch := batch + [leaf];
        StoredNext(done);
        done := done + 1;
        if |batch| >= BATCH {
          batch, total := FlushBatch(bytes, buf, batch, total, done, before);
        }
      }
    }

    method FlushBatch(ghost bytes: seq<Byte>, buf: seq<Byte>, batch0: seq<seq<Byte>>, total0: nat, ghost done: nat, ghost before: set<seq<Byte>>)
      returns (batch: seq<seq<Byte>>, total: nat)
      requires Reading(bytes, buf, batch0, total0, done, before)
      modifies this
      ensures Reading(bytes, buf, batch, total, done, before) && batch == [] && total == done
      ensures census.valid == old(census.valid)
    {
      InsertLeaves(batch0);
      total := total0 + |batch0|;
      batch := [];
      BatchIs(bytes, batch0, total0);
    }

    // One chunk: refuse it when the stream then holds too many leaves, else take them off.
    method Consume(ghost bytes: seq<Byte>, chunk: seq<Byte>, buf0: seq<Byte>, batch0: seq<seq<Byte>>, total0: nat,
                   expectedVoters: nat, ghost before: set<seq<Byte>>)
      returns (tooMany: bool, buf: seq<Byte>, batch: seq<seq<Byte>>, total: nat)
      requires Reading(bytes, buf0, batch0, total0, |bytes| / 32, before) && total0 == Stored(|bytes| / 32)
      modifies this
      ensures census.valid == old(census.valid)
      ensures tooMany <==> total0 + |buf0 + chunk| / 32 > expectedVoters
      ensures tooMany <==> Stored(|bytes| / 32) + (|bytes + chunk| / 32 - |bytes| / 32) > expectedVoters
      ensures tooMany ==> census == old(census)
      ensures !tooMany ==> Reading(bytes + chunk, buf, batch, total, |bytes + chunk| / 32, before) && |buf| < 32
      ensures !tooMany ==> total == Stored(|bytes + chunk| / 32)
    {
      hide LeavesOf, Stored;
      ghost var longer := bytes + chunk;
      LongerReads(bytes, longer, total0, batch0);
      buf, batch, total := buf0 + chunk, batch0, total0;
      assert buf == longer[32 * (|bytes| / 32)..];
      assert |buf| / 32 == |longer| / 32 - |bytes| / 32;
      tooMany := total + |buf| / 32 > expectedVoters;
      if !tooMany {
        buf, batch, total := TakeLeaves(longer, buf, batch, total, |bytes| / 32, before);
      }
    }

    // The chunks one by one, up to one refused.
    method Stream(chunks: seq<seq<Byte>>, expectedVoters: nat)
      returns (refused: bool, buf: seq<Byte>, batch: seq<seq<Byte>>, total: nat)
      modifies this
      ensures census.valid == old(census.valid)
      ensures refused ==> exists c: nat ::
        FirstRefused(chunks, c, expectedVoters) && Holds(old(census.voters), Concat(chunks), Stored(Whole(chunks, c)))
      ensures refused ==> |Concat(chunks)| / 32 > expectedVoters
      ensures !refused ==> forall c: nat :: !Refused(chunks, c, expectedVoters)
      ensures !refused ==> var n := |Concat(chunks)| / 32;
        Reading(Concat(chunks), buf, batch, total, n, old(census.voters)) && |buf| < 32 && total == Stored(n)
    {
      ghost var before := census.voters;
      refused, buf, batch, total := false, [], [], 0;
      ghost var bytes: seq<Byte> := [];
      assert LeavesOf(bytes, 0) == {};
      for c := 0 to |chunks|
        invariant bytes == Concat(chunks[..c])
        invariant Reading(bytes, buf, batch, total, |bytes| / 32, before) && |buf| < 32 && total == Stored(|bytes| / 32)
        invariant census.valid == old(census.valid)
        invariant forall b: nat | b < c :: !Refused(chunks, b, expectedVoters)
      {
        hide Reading, Concat, LeavesOf, Stored, Holds, Refused;
        NextChunk(chunks, c, expectedVoters);
        ReadingHolds(bytes, buf, batch, total, |bytes| / 32, before);
        refused, buf, batch, total := Consume(bytes, chunks[c], buf, batch, total, expectedVoters, before);
        if refused {
          HoldsLonger(before, bytes, Concat(chunks), Stored(|bytes| / 32));
          assert FirstRefused(chunks, c, expectedVoters);
          return;
        }
        bytes := bytes + chunks[c];
      }
      assert chunks[..|chunks|] == chunks;
    }

    // The verdict depends on the bytes alone, however they are cut into chunks: valid exactly for
    // the expected number of 32-byte leaves. What is stored is every leaf, unless a chunk was refused
    // or bytes were left over, and then the whole batches before.
    method Ingest(contentLength: Option<nat>, chunks: seq<seq<Byte>>, expectedVoters: nat)
      modifies this
      ensures old(census.valid) == Some(true) ==> census == old(census)
      ensures old(census.valid) != Some(true) ==> census.valid == Some(|Concat(chunks)| == 32 * expectedVoters)
      ensures old(census.valid) != Some(true) ==>
        forall c: nat | FirstRefused(chunks, c, expectedVoters) ::
          Holds(old(census.voters), Concat(chunks), Stored(Whole(chunks, c)))
      ensures old(census.valid) != Some(true) && (forall c: nat :: !FirstRefused(chunks, c, expectedVoters)) ==>
        var n := |Concat(chunks)| / 32;
        Holds(old(census.voters), Concat(chunks), if |Concat(chunks)| == 32 * n then n else Stored(n))
    {
      hide LeavesOf, Concat, Stored, Refused, Whole;
      if census.valid == Some(true) {
        return;
      }
      if contentLength.Some? && contentLength.value % 32 != 0 {
        MarkBad();
      }
      if contentLength.Some? && contentLength.value / 32 != expectedVoters {
        MarkBad();
      }
      ghost var before, bytes := census.voters, Concat(chunks);
      var refused, buf, batch, total := Stream(chunks, expectedVoters);
      if refused {
        MarkBad();
        return;
      }
      if buf != [] {
        MarkBad();
        return;
      }
      if batch != [] {
        batch, total := FlushBatch(bytes, buf, batch, total, |bytes| / 32, before);
      }
      if total != expectedVoters {
        MarkBad();
        return;
      }
      census := census.(valid := Some(true));
    }

    lemma HoldsLonger(before: set<seq<Byte>>, bytes: seq<Byte>, longer: seq<Byte>, n: nat)
      requires Holds(before, bytes, n) && bytes <= longer
      ensures Holds(before, longer, n)
    {
      SameLeaves(bytes, longer, n);
    }

    // The table holds the first n leaves of the file beside what it held before.
    ghost predicate Holds(before: set<seq<Byte>>, bytes: seq<Byte>, n: nat)
      reads this
    {
      32 * n <= |bytes| && census.voters == before + LeavesOf(bytes, n)
    }

    lemma ReadingHolds(bytes: seq<Byte>, buf: seq<Byte>, batch: seq<seq<Byte>>, total: nat, done: nat, before: set<seq<Byte>>)
      requires Reading(bytes, buf, batch, total, done, before)
      ensures Holds(before, bytes, total)
    {
    }
  }

  // What the next chunk adds, and when it is refused.
  lemma NextChunk(chunks: seq<seq<Byte>>, c: nat, expectedVoters: nat)
    requires c < |chunks|
    ensures Concat(chunks[..c + 1]) == Concat(chunks[..c]) + chunks[c]
    ensures var done, all := |Concat(chunks[..c])| / 32, |Concat(chunks[..c + 1])| / 32;
      && (Refused(chunks, c, expectedVoters) <==> Stored(done) + (all - done) > expectedVoters)
      && Stored(done) <= done && Whole(chunks, c) == done && all <= |Concat(chunks)| / 32
    ensures Concat(chunks[..c]) <= Concat(chunks)
  {
    assert chunks[..c + 1][..c] == chunks[..c];
    ConcatSnoc(chunks[..c + 1]);
    ConcatGrows(chunks, c);
    ConcatGrows(chunks, c + 1);
  }

  lemma BatchIs(bytes: seq<Byte>, batch: seq<seq<Byte>>, total: nat)
    requires 32 * (total + |batch|) <= |bytes|
    requires forall i | 0 <= i < |batch| :: batch[i] == bytes[32 * (total + i)..32 * (total + i) + 32]
    ensures LeavesOf(bytes, total) + (set b | b in batch) == LeavesOf(bytes, total + |batch|)
  {
    var l, r := LeavesOf(bytes, total) + (set b | b in batch), LeavesOf(bytes, total + |batch|);
    forall x | x in r ensures x in l {
      var i :| 0 <= i < total + |batch| && x == bytes[32 * i..32 * i + 32];
      if i >= total {
        assert x == batch[i - total];
      }
    }
    forall x | x in l ensures x in r {
      if x in batch {
        var i :| 0 <= i < |batch| && batch[i] == x;
        assert x == bytes[32 * (total + i)..32 * (total + i) + 32];
      }
    }
  }

  lemma SameLeaves(bytes: seq<Byte>, longer: seq<Byte>, n: nat)
    requires bytes <= longer && 32 * n <= |bytes|
    ensures LeavesOf(bytes, n) == LeavesOf(longer, n)
  {
    forall i | 0 <= i < n ensures bytes[32 * i..32 * i + 32] == longer[32 * i..32 * i + 32] {
    }
  }

  lemma LongerReads(bytes: seq<Byte>, longer: seq<Byte>, total: nat, batch: seq<seq<Byte>>)
    requires bytes <= longer && 32 * (total + |batch|) <= |bytes|
    requires forall i | 0 <= i < |batch| :: batch[i] == bytes[32 * (total + i)..32 * (total + i) + 32]
    ensures forall i | 0 <= i < |batch| :: batch[i] == longer[32 * (total + i)..32 * (total + i) + 32]
    ensures LeavesOf(bytes, total) == LeavesOf(longer, total)
  {
    SameLeaves(bytes, longer, total);
    forall i | 0 <= i < |batch| ensures batch[i] == longer[32 * (total + i)..32 * (total + i) + 32] {
    }
  }
}
