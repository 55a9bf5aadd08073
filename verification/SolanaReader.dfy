// The polling reader: it pages backwards over a growing ledger and delivers every transaction
// after its start once to the confirmed stream and once to the finalized stream, in order.

module SolanaReader {
  import opened Wrappers

  // How many signatures one page holds at most.
  const LIMIT: nat := 1000

  // A signature stands for its transaction's position in the ledger.
  type Sig = nat

  datatype Status = Confirmed | Finalized
  datatype SigInfo = SigInfo(sig: Sig, slot: nat, status: Status)
  datatype Tx = Tx(sig: Sig, slot: nat)
  datatype Block = Block(slot: nat, sigs: seq<(Sig, Status)>)

  // What one request sees: how much of the ledger is confirmed, and how much of that is finalized.
  datatype Snapshot = Snapshot(length: nat, finalized: nat)

  ghost predicate Rising(slots: seq<nat>) {
    forall i, j | 0 <= i <= j < |slots| :: slots[i] <= slots[j]
  }

  // The slots of the ledger as it will be; requests see growing prefixes of it.
  ghost predicate Growing(slots: seq<nat>, calls: nat -> Snapshot) {
    && Rising(slots)
    && (forall n: nat :: calls(n).finalized <= calls(n).length <= |slots|)
    && (forall m: nat, n: nat | m <= n :: calls(m).length <= calls(n).length && calls(m).finalized <= calls(n).finalized)
  }

  function StatusAt(i: nat, finalized: nat): Status {
    if i < finalized then Finalized else Confirmed
  }

  // Positions lo..hi-1, oldest first.
  function Listing(slots: seq<nat>, lo: nat, hi: nat, finalized: nat): (l: seq<SigInfo>)
    requires lo <= hi <= |slots|
    ensures |l| == hi - lo
    ensures forall i | 0 <= i < hi - lo :: l[i] == SigInfo(lo + i, slots[lo + i], StatusAt(lo + i, finalized))
  {
    seq(hi - lo, i requires 0 <= i < hi - lo => SigInfo(lo + i, slots[lo + i], StatusAt(lo + i, finalized)))
  }

  function Txs(slots: seq<nat>, lo: nat, hi: nat): (l: seq<Tx>)
    requires lo <= hi <= |slots|
    ensures |l| == hi - lo
    ensures forall i | 0 <= i < hi - lo :: l[i] == Tx(lo + i, slots[lo + i])
  {
    seq(hi - lo, i requires 0 <= i < hi - lo => Tx(lo + i, slots[lo + i]))
  }

  function Reverse<T>(s: seq<T>): (r: seq<T>)
    ensures |r| == |s|
    ensures forall i | 0 <= i < |s| :: r[i] == s[|s| - 1 - i]
  {
    seq(|s|, i requires 0 <= i < |s| => s[|s| - 1 - i])
  }

  function Start(until: Option<Sig>): nat {
    if until.Some? then until.value + 1 else 0
  }

  function PageLow(lo: nat, mid: nat): (low: nat)
    requires lo <= mid
    ensures lo <= low <= mid
  {
    if mid - lo > LIMIT then mid - LIMIT else lo
  }

  lemma ReverseTwice<T>(s: seq<T>)
    ensures Reverse(Reverse(s)) == s
  {
  }

  // A page, newest first: after `until`, before `before`, at most LIMIT signatures.
  function FetchSignatureChunk(slots: seq<nat>, snap: Snapshot, until: Option<Sig>, before: Option<Sig>): seq<SigInfo>
    requires Start(until) <= (if before.Some? then before.value else snap.length) <= |slots|
  {
    var lo, hi := Start(until), if before.Some? then before.value else snap.length;
    Reverse(Listing(slots, PageLow(lo, hi), hi, snap.finalized))
  }

  ghost predicate FirstFinalized(page: seq<SigInfo>, i: int) {
    0 <= i < |page| && page[i].status == Finalized && forall j | 0 <= j < i :: page[j].status == Confirmed
  }

  ghost predicate NewestIn(page: seq<SigInfo>, found: Option<Sig>) {
    if found.None? then forall i | 0 <= i < |page| :: page[i].status == Confirmed
    else exists i :: FirstFinalized(page, i) && page[i].sig == found.value
  }

  // The newest finalized signature of a page.
  method FindFinalized(page: seq<SigInfo>) returns (found: Option<Sig>)
    ensures NewestIn(page, found)
  {
    for i := 0 to |page|
      invariant forall j | 0 <= j < i :: page[j].status == Confirmed
    {
      if page[i].status == Finalized {
        assert FirstFinalized(page, i);
        return Some(page[i].sig);
      }
    }
    found := None;
  }

  // The pages put back oldest first.
  function Unpage(chunks: seq<seq<SigInfo>>): seq<SigInfo> {
    if chunks == [] then [] else Unpage(chunks[1..]) + Reverse(chunks[0])
  }

  lemma {:induction false} UnpageSnoc(chunks: seq<seq<SigInfo>>, page: seq<SigInfo>)
    ensures Unpage(chunks + [page]) == Reverse(page) + Unpage(chunks)
  {
    hide Reverse, Unpage;
    UnpageStep(chunks + [page]);
    UnpageStep(chunks);
    if chunks == [] {
      assert (chunks + [page])[1..] == [] && (chunks + [page])[0] == page;
    } else {
      assert (chunks + [page])[1..] == chunks[1..] + [page] && (chunks + [page])[0] == chunks[0];
      UnpageSnoc(chunks[1..], page);
      Associates(Reverse(page), Unpage(chunks[1..]), Reverse(chunks[0]));
    }
  }

  lemma UnpageStep(chunks: seq<seq<SigInfo>>)
    ensures Unpage(chunks) == if chunks == [] then [] else Unpage(chunks[1..]) + Reverse(chunks[0])
  {
  }

  lemma Associates(a: seq<SigInfo>, b: seq<SigInfo>, c: seq<SigInfo>)
    ensures (a + b) + c == a + (b + c)
  {
  }

  // Statuses seen page by page agree with one finalized boundary g of the whole round: a page
  // read later sees at least as much finalized, and lies before every page read earlier.
  lemma PageJoins(slots: seq<nat>, lo: nat, mid: nat, hi: nat, finalized: nat, g: nat)
    requires lo <= mid <= g <= hi <= |slots|
    requires g > mid ==> g <= finalized
    ensures var g' := Boundary(lo, mid, finalized, g);
      lo <= g' <= hi && (g' > lo ==> g' <= finalized)
      && Listing(slots, lo, mid, finalized) + Listing(slots, mid, hi, g) == Listing(slots, lo, hi, g')
  {
  }

  // The boundary after one more page [lo, mid): kept once a finalized entry was seen.
  function Boundary(lo: nat, mid: nat, finalized: nat, g: nat): nat {
    if g > mid then g else if finalized >= mid then mid else if finalized <= lo then lo else finalized
  }

  // One page, and what it adds to the round: its newest finalized signature if none was seen yet.
  method FetchPage(slots: seq<nat>, snap: Snapshot, until: Option<Sig>, before: Option<Sig>, nextUntil: Option<Sig>)
    returns (page: seq<SigInfo>, before': Option<Sig>, nextUntil': Option<Sig>)
    requires Start(until) <= (if before.Some? then before.value else snap.length) <= |slots|
    ensures var lo, mid := Start(until), if before.Some? then before.value else snap.length;
      var low := PageLow(lo, mid);
      && |page| == mid - low == (if mid - lo > 1000 then 1000 else mid - lo) && Reverse(page) == Listing(slots, low, mid, snap.finalized)
      && before' == (if low < mid then Some(low) else before)
      && (nextUntil.Some? ==> nextUntil' == nextUntil)
      && (nextUntil.None? ==> nextUntil' == var g := Boundary(low, mid, snap.finalized, mid); if g > low then Some(g - 1) else None)
  {
    hide Reverse, Listing, Boundary, NewestIn;
    page := FetchSignatureChunk(slots, snap, until, before);
    ghost var mid := if before.Some? then before.value else snap.length;
    ghost var low := PageLow(Start(until), mid);
    ReverseTwice(Listing(slots, low, mid, snap.finalized));
    nextUntil' := nextUntil;
    if nextUntil.None? {
      nextUntil' := FindFinalized(page);
      NewestFinalized(slots, low, mid, snap.finalized, page, nextUntil');
    }
    before' := OldestSig(slots, page, before, low, mid, snap.finalized);
  }

  method OldestSig(slots: seq<nat>, page: seq<SigInfo>, before: Option<Sig>, ghost low: nat, ghost mid: nat, ghost finalized: nat)
    returns (before': Option<Sig>)
    requires low <= mid <= |slots| && page == Reverse(Listing(slots, low, mid, finalized))
    ensures before' == if low < mid then Some(low) else before
  {
    before' := before;
    if page != [] {
      assert page[|page| - 1] == Listing(slots, low, mid, finalized)[0];
      before' := Some(page[|page| - 1].sig);
    }
  }

  // What a round has read so far: positions b.. up to hi, finalized below g.
  ghost predicate Read(slots: seq<nat>, chunks: seq<seq<SigInfo>>, nextUntil: Option<Sig>, b: nat, hi: nat, g: nat, finalized: nat) {
    && b <= g <= hi <= |slots| && (g > b ==> g <= finalized)
    && Unpage(chunks) == Listing(slots, b, hi, g)
    && nextUntil == if g > b then Some(g - 1) else None
  }

  lemma ReadMore(slots: seq<nat>, chunks: seq<seq<SigInfo>>, page: seq<SigInfo>, nextUntil: Option<Sig>, nextUntil': Option<Sig>,
                 low: nat, b: nat, hi: nat, g: nat, seen: nat, finalized: nat)
    requires Read(slots, chunks, nextUntil, b, hi, g, seen) && low <= b && seen <= finalized
    requires Reverse(page) == Listing(slots, low, b, finalized)
    requires nextUntil.Some? ==> nextUntil' == nextUntil
    requires nextUntil.None? ==> nextUntil' == var g := Boundary(low, b, finalized, b); if g > low then Some(g - 1) else None
    ensures Read(slots, chunks + [page], nextUntil', low, hi, Boundary(low, b, finalized, g), finalized)
  {
    UnpageSnoc(chunks, page);
    PageJoins(slots, low, b, hi, finalized, g);
  }

  // All pages of one round, newest first.
  method FetchSignatures(slots: seq<nat>, calls: nat -> Snapshot, from: nat, until: Option<Sig>)
    returns (sigChunks: seq<seq<SigInfo>>, nextUntil: Option<Sig>, next: nat, ghost g: nat)
    requires Growing(slots, calls) && Start(until) <= calls(from).length
    ensures next > from && g >= calls(from).finalized
    ensures Read(slots, sigChunks, nextUntil, Start(until), calls(from).length, g, calls(next - 1).finalized)
  {
    hide Read;
    var before: Option<Sig> := None;
    ghost var lo, hi: nat := Start(until), calls(from).length;
    ghost var b: nat, seen: nat := hi, calls(from).finalized;
    g := hi;
    sigChunks, nextUntil, next := [], None, from;
    ReadNothing(slots, hi, seen);
    var more := true;
    while more
      invariant lo <= b <= hi && from <= next && seen <= calls(next).finalized
      invariant b <= g && g >= calls(from).finalized
      invariant before == if b < hi then Some(b) else None
      invariant next > from && b == hi ==> !more
      invariant next == from ==> b == hi && more
      invariant !more ==> b == lo && next > from && seen == calls(next - 1).finalized
      invariant Read(slots, sigChunks, nextUntil, b, hi, g, seen)
      decreases more, b
    {
      ghost var low := PageLow(lo, b);
      ghost var nextUntil0 := nextUntil;
      var page;
      page, before, nextUntil := FetchPage(slots, calls(next), until, before, nextUntil);
      ReadMore(slots, sigChunks, page, nextUntil0, nextUntil, low, b, hi, g, seen, calls(next).finalized);
      sigChunks := sigChunks + [page];
      g, seen, b := Boundary(low, b, calls(next).finalized, g), calls(next).finalized, low;
      more := |page| >= LIMIT;
      next := next + 1;
    }
  }

  lemma ReadNothing(slots: seq<nat>, hi: nat, seen: nat)
    requires hi <= |slots|
    ensures Read(slots, [], None, hi, hi, hi, seen)
  {
  }

  lemma NewestFinalized(slots: seq<nat>, lo: nat, hi: nat, finalized: nat, page: seq<SigInfo>, found: Option<Sig>)
    requires lo <= hi <= |slots| && page == Reverse(Listing(slots, lo, hi, finalized))
    requires NewestIn(page, found)
    ensures var g := Boundary(lo, hi, finalized, hi);
      found == if g > lo then Some(g - 1) else None
  {
    if found.Some? {
      var i :| FirstFinalized(page, i) && page[i].sig == found.value;
      if i > 0 {
        assert page[i - 1].status == Confirmed;
      }
    } else if lo < hi {
      assert page[|page| - 1].status == Confirmed;
    }
  }

  // ---- Grouping the signatures to fetch by slot ----

  // The blocks list positions a..b-1 in order, one block a slot, slots strictly rising.
  ghost predicate Covers(blocks: seq<Block>, slots: seq<nat>, a: nat, b: nat, g: nat) {
    if blocks == [] then a == b
    else
      var last := blocks[|blocks| - 1];
      var m := b - |last.sigs|;
      && a <= m < b <= |slots|
      && BlockIs(last, slots, m, g)
      && (m > a ==> slots[m - 1] < last.slot)
      && Covers(blocks[..|blocks| - 1], slots, a, m, g)
  }

  ghost predicate BlockIs(block: Block, slots: seq<nat>, m: nat, g: nat) {
    && m + |block.sigs| <= |slots|
    && forall j | 0 <= j < |block.sigs| :: block.sigs[j] == (m + j, StatusAt(m + j, g)) && slots[m + j] == block.slot
  }

  lemma {:induction false} CoversRise(blocks: seq<Block>, slots: seq<nat>, a: nat, b: nat, g: nat)
    requires Covers(blocks, slots, a, b, g) && b <= |slots|
    requires Rising(slots)
    ensures blocks != [] ==> blocks[|blocks| - 1].slot == slots[b - 1]
    ensures forall k, l | 0 <= k < l < |blocks| :: blocks[k].slot < blocks[l].slot
    decreases |blocks|
  {
    if blocks != [] {
      var last := blocks[|blocks| - 1];
      assert last.sigs[|last.sigs| - 1] == (b - 1, StatusAt(b - 1, g));
      CoversRise(blocks[..|blocks| - 1], slots, a, b - |last.sigs|, g);
    }
  }

  method BinarySearch(blocks: seq<Block>, slot: nat) returns (found: Option<nat>)
    requires forall k, l | 0 <= k < l < |blocks| :: blocks[k].slot < blocks[l].slot
    ensures found.Some? ==> found.value < |blocks| && blocks[found.value].slot == slot
    ensures found.None? ==> forall k | 0 <= k < |blocks| :: blocks[k].slot != slot
  {
    var lo, hi := 0, |blocks|;
    while lo < hi
      invariant 0 <= lo <= hi <= |blocks|
      invariant forall k | 0 <= k < lo :: blocks[k].slot < slot
      invariant forall k | hi <= k < |blocks| :: slot < blocks[k].slot
    {
      var mid := (lo + hi) / 2;
      if blocks[mid].slot == slot {
        return Some(mid);
      } else if blocks[mid].slot < slot {
        lo := mid + 1;
      } else {
        hi := mid;
      }
    }
    found := None;
  }

  // The next position goes to its slot's block, which can only be the last one.
  method AddSigToFetch(blocks: seq<Block>, slots: seq<nat>, sig: Sig, status: Status, ghost a: nat, ghost g: nat)
    returns (blocks': seq<Block>)
    requires a <= sig < |slots| && status == StatusAt(sig, g) && Covers(blocks, slots, a, sig, g)
    requires Rising(slots)
    ensures Covers(blocks', slots, a, sig + 1, g)
  {
    var found := FindBlock(blocks, slots, sig, a, g);
    hide Covers, BlockIs, Rising;
    if found.Some? {
      var i := found.value;
      blocks' := blocks[i := Block(blocks[i].slot, blocks[i].sigs + [(sig, status)])];
      AddsToLast(blocks, slots, sig, a, g);
    } else {
      blocks' := blocks + [Block(slots[sig], [(sig, status)])];
      AddsNew(blocks, slots, sig, a, g);
    }
  }

  lemma AddsToLast(blocks: seq<Block>, slots: seq<nat>, sig: Sig, a: nat, g: nat)
    requires a <= sig < |slots| && Covers(blocks, slots, a, sig, g)
    requires blocks != [] && blocks[|blocks| - 1].slot == slots[sig]
    ensures var i := |blocks| - 1;
      Covers(blocks[i := Block(blocks[i].slot, blocks[i].sigs + [(sig, StatusAt(sig, g))])], slots, a, sig + 1, g)
  {
    CoversLast(blocks, slots, a, sig, g);
    hide Covers, BlockIs;
    var init, last := blocks[..|blocks| - 1], blocks[|blocks| - 1];
    var m: nat := sig - |last.sigs|;
    BlockGrows(last, slots, m, g);
    var block := Block(last.slot, last.sigs + [(sig, StatusAt(sig, g))]);
    CoversAppend(init, block, slots, a, m, g);
    assert blocks[|blocks| - 1 := block] == init + [block];
  }

  lemma AddsNew(blocks: seq<Block>, slots: seq<nat>, sig: Sig, a: nat, g: nat)
    requires a <= sig < |slots| && Covers(blocks, slots, a, sig, g)
    requires sig > a ==> slots[sig - 1] < slots[sig]
    ensures Covers(blocks + [Block(slots[sig], [(sig, StatusAt(sig, g))])], slots, a, sig + 1, g)
  {
    hide Covers;
    CoversAppend(blocks, Block(slots[sig], [(sig, StatusAt(sig, g))]), slots, a, sig, g);
  }

  // The search finds the slot's block exactly when the last block is of that slot.
  method FindBlock(blocks: seq<Block>, slots: seq<nat>, sig: Sig, ghost a: nat, ghost g: nat) returns (found: Option<nat>)
    requires a <= sig < |slots| && Covers(blocks, slots, a, sig, g) && Rising(slots)
    ensures found.Some? ==> found.value == |blocks| - 1 && blocks[found.value].slot == slots[sig]
    ensures found.None? && sig > a ==> slots[sig - 1] < slots[sig]
  {
    CoversRise(blocks, slots, a, sig, g);
    CoversLast(blocks, slots, a, sig, g);
    found := BinarySearch(blocks, slots[sig]);
    if sig > a {
      assert slots[sig - 1] <= slots[sig];
    }
  }

  lemma BlockGrows(block: Block, slots: seq<nat>, m: nat, g: nat)
    requires BlockIs(block, slots, m, g)
    requires var next := m + |block.sigs|; next < |slots| && slots[next] == block.slot
    ensures var next := m + |block.sigs|;
      BlockIs(Block(block.slot, block.sigs + [(next, StatusAt(next, g))]), slots, m, g)
  {
    var n := |block.sigs|;
    var sigs := block.sigs + [(m + n, StatusAt(m + n, g))];
    forall j | 0 <= j < n + 1 ensures sigs[j] == (m + j, StatusAt(m + j, g)) && slots[m + j] == block.slot {
      if j < n {
        assert sigs[j] == block.sigs[j];
      }
    }
  }

  lemma CoversAppend(blocks: seq<Block>, block: Block, slots: seq<nat>, a: nat, m: nat, g: nat)
    requires a <= m && Covers(blocks, slots, a, m, g)
    requires block.sigs != [] && BlockIs(block, slots, m, g)
    requires m > a ==> slots[m - 1] < block.slot
    ensures Covers(blocks + [block], slots, a, m + |block.sigs|, g)
  {
    assert (blocks + [block])[..|blocks|] == blocks;
  }

  lemma CoversLast(blocks: seq<Block>, slots: seq<nat>, a: nat, b: nat, g: nat)
    requires Covers(blocks, slots, a, b, g)
    ensures blocks == [] ==> a == b
    ensures blocks != [] ==>
      var last := blocks[|blocks| - 1];
      var m := b - |last.sigs|;
      && a <= m < b <= |slots| && BlockIs(last, slots, m, g)
      && (m > a ==> slots[m - 1] < last.slot)
      && Covers(blocks[..|blocks| - 1], slots, a, m, g)
  {
  }

  // ---- Fetching a block's transactions ----

  // The signatures occur in the block's list, in this order.
  ghost predicate Within(sigs: seq<Sig>, block: seq<Sig>)
    decreases |sigs|
  {
    sigs == [] || exists i :: FoundAt(sigs, block, i)
  }

  ghost predicate FoundAt(sigs: seq<Sig>, block: seq<Sig>, i: int)
    requires sigs != []
    decreases |sigs|, 0
  {
    0 <= i < |block| && block[i] == sigs[0] && Within(sigs[1..], block[i + 1..])
  }

  lemma {:induction false} WithinLonger(sigs: seq<Sig>, block: seq<Sig>, i: nat, j: nat)
    requires i <= j <= |block| && Within(sigs, block[j..])
    ensures Within(sigs, block[i..])
  {
    if sigs != [] {
      var k :| FoundAt(sigs, block[j..], k);
      assert block[j..][k + 1..] == block[i..][k + (j - i) + 1..];
      assert FoundAt(sigs, block[i..], k + (j - i));
    }
  }

  // A block lists the transactions of its slot in ledger order, among others.
  ghost predicate Blocks(slots: seq<nat>, blockOf: nat -> seq<Sig>) {
    forall block: Block, m: nat, g: nat | BlockIs(block, slots, m, g) :: Within(Sigs(block.sigs), blockOf(block.slot))
  }

  function Sigs(sigs: seq<(Sig, Status)>): (r: seq<Sig>)
    ensures |r| == |sigs| && forall j | 0 <= j < |sigs| :: r[j] == sigs[j].0
  {
    seq(|sigs|, j requires 0 <= j < |sigs| => sigs[j].0)
  }

  // Each signature is looked for only after the one before it; none is missed.
  method FetchTxsInBlock(block: seq<Sig>, slot: nat, sigs: seq<Sig>) returns (txs: seq<Tx>)
    requires Within(sigs, block)
    ensures |txs| == |sigs| && forall j | 0 <= j < |sigs| :: txs[j] == Tx(sigs[j], slot)
  {
    txs := [];
    var unseen := block;
    assert sigs[0..] == sigs;
    for n := 0 to |sigs|
      invariant |txs| == n && forall j | 0 <= j < n :: txs[j] == Tx(sigs[j], slot)
      invariant Within(sigs[n..], unseen)
    {
      ghost var at :| FoundAt(sigs[n..], unseen, at);
      var pos := 0;
      while unseen[pos] != sigs[n]
        invariant 0 <= pos <= at
        decreases at - pos
      {
        pos := pos + 1;
      }
      txs := txs + [Tx(unseen[pos], slot)];
      assert sigs[n..][1..] == sigs[n + 1..];
      WithinLonger(sigs[n + 1..], unseen, pos + 1, at + 1);
      unseen := unseen[pos + 1..];
    }
  }

  // ---- The reader ----

  function Cache(slots: seq<nat>, f: nat, c: nat): map<Sig, Tx>
    requires c <= |slots|
  {
    map i: nat | f <= i < c :: Tx(i, slots[i])
  }

  function Min(a: nat, b: nat): nat {
    if a < b then a else b
  }

  function Max(a: nat, b: nat): nat {
    if a < b then b else a
  }

  function Size(blocks: seq<Block>): nat {
    if blocks == [] then 0 else Size(blocks[..|blocks| - 1]) + |blocks[|blocks| - 1].sigs|
  }

  lemma {:induction false} CoversSize(blocks: seq<Block>, slots: seq<nat>, a: nat, b: nat, g: nat)
    requires Covers(blocks, slots, a, b, g)
    ensures a + Size(blocks) == b
    decreases |blocks|
  {
    if blocks != [] {
      CoversSize(blocks[..|blocks| - 1], slots, a, b - |blocks[|blocks| - 1].sigs|, g);
    }
  }

  // The k-th block starts where the blocks before it end.
  lemma {:induction false} CoversPrefix(blocks: seq<Block>, slots: seq<nat>, a: nat, b: nat, g: nat, k: nat)
    requires Covers(blocks, slots, a, b, g) && k < |blocks|
    ensures BlockIs(blocks[k], slots, a + Size(blocks[..k]), g)
    ensures Size(blocks[..k + 1]) == Size(blocks[..k]) + |blocks[k].sigs|
    decreases |blocks|
  {
    CoversLast(blocks, slots, a, b, g);
    var rest := blocks[..|blocks| - 1];
    var m: nat := b - |blocks[|blocks| - 1].sigs|;
    hide Covers, BlockIs;
    if k == |rest| {
      CoversSize(rest, slots, a, m, g);
      assert blocks[..k] == rest && blocks[..k + 1] == blocks;
    } else {
      CoversPrefix(rest, slots, a, m, g, k);
      assert rest[..k] == blocks[..k] && rest[..k + 1] == blocks[..k + 1];
    }
  }

  class Reader {
    const slots: seq<nat>
    var txReadFrom: Option<Sig>
    var confirmedTxs: map<Sig, Tx>
    var confirmedOut: seq<Tx>
    var finalizedOut: seq<Tx>

    // Everything from s to c went to the confirmed stream and everything from s to f to the
    // finalized one, each once and in ledger order; the rest waits in the cache.
    ghost predicate Delivered(s: nat, f: nat, c: nat)
      reads this`confirmedTxs, this`confirmedOut, this`finalizedOut
    {
      && s <= f <= c <= |slots|
      && confirmedOut == Txs(slots, s, c) && finalizedOut == Txs(slots, s, f)
      && confirmedTxs == Cache(slots, f, c)
    }

    constructor (slots: seq<nat>, txReadFrom: Option<Sig>)
      requires Start(txReadFrom) <= |slots|
      ensures this.slots == slots && this.txReadFrom == txReadFrom
      ensures Delivered(Start(txReadFrom), Start(txReadFrom), Start(txReadFrom))
    {
      this.slots, this.txReadFrom, confirmedTxs, confirmedOut, finalizedOut := slots, txReadFrom, map[], [], [];
    }

    // The oldest-first pass: cached transactions now finalized are released, the rest is queued.
    method Scan(oldestFirst: seq<SigInfo>, ghost s: nat, ghost lo: nat, ghost c: nat, ghost hi: nat, ghost g: nat)
      returns (blocksToFetch: seq<Block>)
      requires Delivered(s, lo, c) && c <= hi <= |slots| && lo <= g <= hi
      requires oldestFirst == Listing(slots, lo, hi, g)
      requires Rising(slots)
      modifies this`confirmedTxs, this`finalizedOut
      ensures Delivered(s, Min(g, c), c) && Covers(blocksToFetch, slots, c, hi, g)
    {
      blocksToFetch := [];
      for i := 0 to |oldestFirst|
        invariant Delivered(s, Min(Min(g, c), lo + i), c)
        invariant Covers(blocksToFetch, slots, c, Max(c, lo + i), g)
      {
        hide Covers, Delivered;
        blocksToFetch := ScanOne(blocksToFetch, oldestFirst[i], s, lo + i, c, g);
      }
    }

    method ScanOne(blocks: seq<Block>, sig: SigInfo, ghost s: nat, ghost p: nat, ghost c: nat, ghost g: nat)
      returns (blocksToFetch: seq<Block>)
      requires p < |slots| && sig == SigInfo(p, slots[p], StatusAt(p, g))
      requires Delivered(s, Min(Min(g, c), p), c) && Covers(blocks, slots, c, Max(c, p), g)
      requires Rising(slots)
      modifies this`confirmedTxs, this`finalizedOut
      ensures Delivered(s, Min(Min(g, c), p + 1), c)
      ensures Covers(blocksToFetch, slots, c, Max(c, p + 1), g)
    {
      hide Covers;
      blocksToFetch := blocks;
      match sig.status {
        case Confirmed =>
          if sig.sig !in confirmedTxs {
            blocksToFetch := AddSigToFetch(blocksToFetch, slots, sig.sig, sig.status, c, g);
          }
        case Finalized =>
          if sig.sig in confirmedTxs {
            finalizedOut := finalizedOut + [confirmedTxs[sig.sig]];
            confirmedTxs := confirmedTxs - {sig.sig};
            assert Txs(slots, s, p) + [Tx(p, slots[p])] == Txs(slots, s, p + 1);
          } else {
            blocksToFetch := AddSigToFetch(blocksToFetch, slots, sig.sig, sig.status, c, g);
          }
      }
    }

    method FetchBlock(block: Block, blockOf: nat -> seq<Sig>, ghost m: nat, ghost g: nat) returns (txs: seq<(Tx, Status)>)
      requires Blocks(slots, blockOf) && BlockIs(block, slots, m, g)
      ensures |txs| == |block.sigs|
      ensures forall j | 0 <= j < |txs| :: txs[j] == (Tx(m + j, slots[m + j]), StatusAt(m + j, g))
    {
      if |block.sigs| == 1 {
        txs := [(Tx(block.sigs[0].0, block.slot), block.sigs[0].1)];
      } else {
        var fetched := FetchTxsInBlock(blockOf(block.slot), block.slot, Sigs(block.sigs));
        txs := seq(|fetched|, j requires 0 <= j < |fetched| <= |block.sigs| => (fetched[j], block.sigs[j].1));
      }
    }

    method DeliverOne(tx: Tx, status: Status, ghost s: nat, ghost p: nat, ghost g: nat)
      requires p < |slots| && Delivered(s, Min(g, p), p) && s <= g
      requires tx == Tx(p, slots[p]) && status == StatusAt(p, g)
      modifies this`confirmedTxs, this`confirmedOut, this`finalizedOut
      ensures Delivered(s, Min(g, p + 1), p + 1)
    {
      match status {
        case Confirmed =>
          confirmedTxs := confirmedTxs[tx.sig := tx];
          confirmedOut := confirmedOut + [tx];
        case Finalized =>
          confirmedOut := confirmedOut + [tx];
          finalizedOut := finalizedOut + [tx];
      }
    }

    method Deliver(blocks: seq<Block>, blockOf: nat -> seq<Sig>, ghost s: nat, ghost c: nat, ghost hi: nat, ghost g: nat)
      requires Delivered(s, Min(g, c), c) && Covers(blocks, slots, c, hi, g) && s <= g && hi <= |slots|
      requires Blocks(slots, blockOf)
      modifies this`confirmedTxs, this`confirmedOut, this`finalizedOut
      ensures Delivered(s, Min(g, hi), hi)
    {
      hide Covers, BlockIs, Blocks, Delivered;
      CoversSize(blocks, slots, c, hi, g);
      assert blocks[..|blocks|] == blocks;
      for k := 0 to |blocks|
        invariant Delivered(s, Min(g, c + Size(blocks[..k])), c + Size(blocks[..k]))
      {
        ghost var m := c + Size(blocks[..k]);
        CoversPrefix(blocks, slots, c, hi, g, k);
        var txs := FetchBlock(blocks[k], blockOf, m, g);
        InRange(blocks[k], m, g);
        for j := 0 to |txs|
          invariant Delivered(s, Min(g, m + j), m + j)
        {
          DeliverOne(txs[j].0, txs[j].1, s, m + j, g);
        }
      }
    }

    lemma InRange(block: Block, m: nat, g: nat)
      requires BlockIs(block, slots, m, g)
      ensures m + |block.sigs| <= |slots|
    {
    }

    // One polling round: read the pages after `until`, release what became final, deliver what is new.
    method Round(calls: nat -> Snapshot, blockOf: nat -> seq<Sig>, from: nat, until: Option<Sig>, ghost s: nat, ghost c: nat)
      returns (nextUntil: Option<Sig>, next: nat, ghost g: nat)
      requires Growing(slots, calls) && Blocks(slots, blockOf)
      requires Delivered(s, Start(until), c) && c <= calls(from).length
      modifies this`confirmedTxs, this`confirmedOut, this`finalizedOut
      ensures next > from && Start(until) <= g && g >= calls(from).finalized
      ensures Delivered(s, g, calls(from).length)
      ensures nextUntil == if g > Start(until) then Some(g - 1) else None
      ensures g > Start(until) ==> g <= calls(next - 1).finalized
    {
      hide Delivered, Covers, Blocks;
      var sigChunks;
      ghost var hi := calls(from).length;
      KeepsDelivered(s, Start(until), c);
      sigChunks, nextUntil, next, g := FetchSignatures(slots, calls, from, until);
      var blocks := Scan(Unpage(sigChunks), s, Start(until), c, hi, g);
      if blocks != [] {
        Deliver(blocks, blockOf, s, c, hi, g);
      } else {
        NothingNew(slots, c, hi, g);
      }
    }

    // Any number of polling rounds from the start position s. After each, with f the finalized
    // boundary seen and c the length seen, both streams are ledger-order prefixes from s without
    // gaps, and the cache holds exactly the delivered transactions newer than `until`.
    method ListenToSolana(calls: nat -> Snapshot, blockOf: nat -> seq<Sig>, rounds: nat)
      returns (ghost f: nat, ghost c: nat, ghost last: nat)
      requires Growing(slots, calls) && Blocks(slots, blockOf)
      requires Start(txReadFrom) <= calls(0).length
      requires Delivered(Start(txReadFrom), Start(txReadFrom), Start(txReadFrom))
      modifies this
      ensures Delivered(old(Start(txReadFrom)), f, c)
      ensures c <= calls(last).length
      ensures rounds > 0 ==> c == calls(last).length && f >= calls(last).finalized
      ensures f > old(Start(txReadFrom)) ==> exists n :: f <= calls(n).finalized
    {
      ghost var s := Start(txReadFrom);
      var until: Option<Sig>, nextUntil: Option<Sig> := None, None;
      var n, round := 0, 0;
      f, c, last := s, s, 0;
      while round < rounds
        invariant Delivered(s, f, c) && c <= calls(n).length
        invariant f == Start(if txReadFrom.Some? then txReadFrom else if nextUntil.Some? then nextUntil else until)
        invariant c <= calls(last).length
        invariant round > 0 ==> c == calls(last).length && f >= calls(last).finalized
        invariant f > s ==> exists n :: f <= calls(n).finalized
        decreases rounds - round
      {
        hide Delivered, Blocks;
        if txReadFrom.Some? {
          until := txReadFrom;
          txReadFrom := None;
        } else if nextUntil.Some? {
          until := nextUntil;
        }
        last := n;
        nextUntil, n, f := Round(calls, blockOf, n, until, s, c);
        c := calls(last).length;
        round := round + 1;
      }
    }

    lemma KeepsDelivered(s: nat, f: nat, c: nat)
      requires Delivered(s, f, c)
      ensures s <= f <= c <= |slots|
    {
    }
  }

  lemma NothingNew(slots: seq<nat>, a: nat, b: nat, g: nat)
    requires Covers([], slots, a, b, g)
    ensures a == b
  {
  }
}
