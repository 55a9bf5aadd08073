// From the delivered transactions to the database: which carry events, how events change the
// tables, and what the stored cursor means across crashes and restarts.

module Indexer {
  import opened Field
  import opened Wrappers
  import L = LogParser
  import opened SolanaReader

  datatype Event =
    | CreatePoll(pollId: nat, nChoices: nat, nVoters: nat)
    | Vote(pollId: nat, ephX: Fr, ephY: Fr, nonce: nat, ciphertext: seq<Fr>)
    | FinishTally(pollId: nat, tally: seq<nat>)

  datatype PollRow = PollRow(nChoices: nat, nVoters: nat, tally: Option<seq<nat>>)
  datatype Tables = Tables(polls: map<nat, PollRow>, votes: seq<Event>)

  const EMPTY := Tables(map[], [])

  // Whose logs are read, and how its payloads decode.
  datatype Listener = Listener(program: string, decode: L.Decoder<Event>)

  datatype LedgerTx = LedgerTx(failed: bool, logs: Option<seq<string>>)

  // ---- Events of a transaction ----

  function Parsed(tx: LedgerTx, on: Listener): L.Outcome<Event> {
    if tx.failed || tx.logs.None? then L.ParseError
    else L.HandleLines(L.State([], false, []), tx.logs.value, on.program, on.decode)
  }

  // Failed transactions, those without logs and those whose logs do not parse carry none.
  function EventsOf(tx: LedgerTx, on: Listener): seq<Event> {
    if Parsed(tx, on).Going? then Parsed(tx, on).state.events else []
  }

  // So they come from successful transactions alone, and from logs that parse.
  lemma NoEvents(tx: LedgerTx, on: Listener)
    ensures tx.failed || tx.logs.None? ==> EventsOf(tx, on) == []
    ensures tx.logs.Some? && !L.HandleLines(L.State([], false, []), tx.logs.value, on.program, on.decode).Going? ==>
      EventsOf(tx, on) == []
  {
    hide L.HandleLines;
  }

  // Of a successful transaction, printed as a forest of calls, they are the listened program's own
  // decodable payloads in order.
  lemma EventsPrinted(tx: LedgerTx, forest: seq<L.Item>, on: Listener)
    requires L.ValidItems(forest) && forall item | item in forest :: item.Call?
    requires !tx.failed && tx.logs == Some(L.PrintAll(forest, 1))
    ensures EventsOf(tx, on) == L.DecodeAll(L.PayloadsAll(forest, "", on.program), on.decode)
  {
    L.ParseInvertsPrint(forest, on.program, on.decode);
  }

  // ---- The tables ----

  function DropVotes(votes: seq<Event>, pollId: nat): seq<Event> {
    if votes == [] then []
    else DropVotes(votes[..|votes| - 1], pollId) + if votes[|votes| - 1].pollId == pollId then [] else [votes[|votes| - 1]]
  }

  function OnEvent(t: Tables, e: Event): Tables {
    match e
    case CreatePoll(id, n, voters) =>
      if id in t.polls then t else t.(polls := t.polls[id := PollRow(n, voters, None)])
    case Vote(_, _, _, _, _) => t.(votes := t.votes + [e])
    case FinishTally(id, tally) =>
      Tables(if id in t.polls then t.polls[id := t.polls[id].(tally := Some(tally))] else t.polls, DropVotes(t.votes, id))
  }

  function Apply(t: Tables, events: seq<Event>): Tables {
    if events == [] then t else OnEvent(Apply(t, events[..|events| - 1]), events[|events| - 1])
  }

  lemma {:induction false} ApplySplit(t: Tables, a: seq<Event>, b: seq<Event>)
    ensures Apply(t, a + b) == Apply(Apply(t, a), b)
  {
    if b == [] {
      assert a + b == a;
    } else {
      assert (a + b)[..|a + b| - 1] == a + b[..|b| - 1];
      ApplySplit(t, a, b[..|b| - 1]);
    }
  }

  // The events of the first n transactions, in ledger order.
  function EventsUpTo(ledger: seq<LedgerTx>, n: nat, on: Listener): seq<Event>
    requires n <= |ledger|
  {
    if n == 0 then [] else EventsUpTo(ledger, n - 1, on) + EventsOf(ledger[n - 1], on)
  }

  // The votes a poll's tally page is served: those cast since the poll was last finished.
  function VotesSince(events: seq<Event>, pollId: nat): seq<Event> {
    if events == [] then []
    else
      var before, e := VotesSince(events[..|events| - 1], pollId), events[|events| - 1];
      if e.FinishTally? && e.pollId == pollId then [] else if e.Vote? && e.pollId == pollId then before + [e] else before
  }

  function VotesOf(votes: seq<Event>, pollId: nat): seq<Event> {
    if votes == [] then []
    else VotesOf(votes[..|votes| - 1], pollId) + if votes[|votes| - 1].pollId == pollId then [votes[|votes| - 1]] else []
  }

  lemma {:induction false} DropKeepsOthers(votes: seq<Event>, dropped: nat, pollId: nat)
    ensures VotesOf(DropVotes(votes, dropped), pollId) == if dropped == pollId then [] else VotesOf(votes, pollId)
  {
    if votes != [] {
      var init, last := votes[..|votes| - 1], votes[|votes| - 1];
      DropKeepsOthers(init, dropped, pollId);
      if last.pollId != dropped {
        VotesOfSnoc(DropVotes(init, dropped), last, pollId);
      } else {
        assert DropVotes(init, dropped) + [] == DropVotes(init, dropped);
      }
    }
  }

  lemma VotesOfSnoc(votes: seq<Event>, e: Event, pollId: nat)
    ensures VotesOf(votes + [e], pollId) == VotesOf(votes, pollId) + if e.pollId == pollId then [e] else []
  {
    assert (votes + [e])[..|votes|] == votes;
  }

  // Each vote row appears once, in event order, and goes when its poll is finished.
  lemma {:induction false} TableOfVotes(events: seq<Event>, pollId: nat)
    ensures VotesOf(Apply(EMPTY, events).votes, pollId) == VotesSince(events, pollId)
  {
    if events != [] {
      var before, e := Apply(EMPTY, events[..|events| - 1]), events[|events| - 1];
      TableOfVotes(events[..|events| - 1], pollId);
      match e {
        case CreatePoll(_, _, _) =>
        case Vote(_, _, _, _, _) => VotesOfSnoc(before.votes, e, pollId);
        case FinishTally(id, _) => DropKeepsOthers(before.votes, id, pollId);
      }
    }
  }

  ghost predicate Creates(e: Event, pollId: nat) {
    e.CreatePoll? && e.pollId == pollId
  }

  ghost predicate Finishes(e: Event, pollId: nat) {
    e.FinishTally? && e.pollId == pollId
  }

  // The i-th event is the first to create the poll.
  ghost predicate FirstCreated(events: seq<Event>, pollId: nat, i: nat) {
    i < |events| && Creates(events[i], pollId) && forall j | 0 <= j < i :: !Creates(events[j], pollId)
  }

  // A row keeps the shape its poll was first created with, and the tally it was last finished with.
  ghost predicate RowOf(row: PollRow, events: seq<Event>, pollId: nat, i: nat) {
    && FirstCreated(events, pollId, i)
    && row.nChoices == events[i].nChoices && row.nVoters == events[i].nVoters
    && (row.tally.None? ==> forall j | i < j < |events| :: !Finishes(events[j], pollId))
    && (row.tally.Some? ==> exists j: nat :: LastFinished(events, pollId, i, j) && events[j].tally == row.tally.value)
  }

  ghost predicate LastFinished(events: seq<Event>, pollId: nat, i: nat, j: nat) {
    i < j < |events| && Finishes(events[j], pollId) && forall k | j < k < |events| :: !Finishes(events[k], pollId)
  }

  lemma {:induction false} TableOfPolls(events: seq<Event>, pollId: nat)
    ensures var polls := Apply(EMPTY, events).polls;
      && (pollId in polls <==> exists i :: 0 <= i < |events| && Creates(events[i], pollId))
      && (pollId in polls ==> exists i :: RowOf(polls[pollId], events, pollId, i))
  {
    if events != [] {
      var init, n := events[..|events| - 1], |events| - 1;
      var before, e := Apply(EMPTY, init), events[n];
      TableOfPolls(init, pollId);
      forall i | 0 <= i < n ensures Creates(init[i], pollId) == Creates(events[i], pollId) {
      }
      if pollId in before.polls {
        var i :| RowOf(before.polls[pollId], init, pollId, i);
        RowAfter(before.polls[pollId], init, e, pollId, i);
        assert init + [e] == events;
      } else if Creates(e, pollId) {
        assert FirstCreated(events, pollId, n);
        assert RowOf(PollRow(e.nChoices, e.nVoters, None), events, pollId, n);
      }
    }
  }

  lemma RowAfter(row: PollRow, events: seq<Event>, e: Event, pollId: nat, i: nat)
    requires RowOf(row, events, pollId, i)
    ensures RowOf(if Finishes(e, pollId) then row.(tally := Some(e.tally)) else row, events + [e], pollId, i)
  {
    var all := events + [e];
    assert FirstCreated(all, pollId, i);
    if Finishes(e, pollId) {
      assert LastFinished(all, pollId, i, |events|);
    } else if row.tally.Some? {
      var j: nat :| LastFinished(events, pollId, i, j) && events[j].tally == row.tally.value;
      assert LastFinished(all, pollId, i, j);
    }
  }

  // ---- The two loops ----

  datatype Batch = Batch(sig: Sig, events: seq<Event>)

  // The transactions lo..hi-1 that carry events.
  function Bearing(ledger: seq<LedgerTx>, lo: nat, hi: nat, on: Listener): seq<Batch>
    requires lo <= hi <= |ledger|
    decreases hi - lo
  {
    if lo == hi then []
    else Bearing(ledger, lo, hi - 1, on) + NewBatch(hi - 1, ledger[hi - 1], on)
  }

  function NewBatch(sig: Sig, tx: LedgerTx, on: Listener): seq<Batch> {
    if EventsOf(tx, on) == [] then [] else [Batch(sig, EventsOf(tx, on))]
  }

  // The transactions in the order received, up to one whose logs make the parser panic.
  method ProcessorExecute(ledger: seq<LedgerTx>, received: seq<Sig>, on: Listener, ghost lo: nat, ghost hi: nat)
    returns (sent: seq<Batch>, panicked: bool, ghost stop: nat)
    requires lo <= hi <= |ledger| && |received| == hi - lo && forall i | 0 <= i < hi - lo :: received[i] == lo + i
    ensures panicked <==> exists i :: lo <= i < hi && Parsed(ledger[i], on).Panic?
    ensures !panicked ==> sent == Bearing(ledger, lo, hi, on)
    ensures lo <= stop <= hi && sent == Bearing(ledger, lo, stop, on)
    ensures if panicked then stop < hi && Parsed(ledger[stop], on).Panic? else stop == hi
    ensures forall i | lo <= i < stop :: !Parsed(ledger[i], on).Panic?
  {
    hide L.HandleLines, Bearing;
    BearingStep(ledger, lo, lo, on);
    sent, panicked, stop := [], false, lo;
    for n := 0 to |received|
      invariant stop == lo + n && sent == Bearing(ledger, lo, stop, on)
      invariant forall i | lo <= i < stop :: !Parsed(ledger[i], on).Panic?
    {
      var sig := received[n];
      var tx := ledger[sig];
      BearingStep(ledger, lo, stop + 1, on);
      if tx.failed || tx.logs.None? {
        assert NewBatch(sig, tx, on) == [];
        stop := stop + 1;
        continue;
      }
      var parsed := L.ParseLogs(tx.logs.value, on.program, on.decode);
      match parsed {
        case Panic => return sent, true, stop;
        case ParseError =>
        case Going(state) =>
          if state.events != [] {
            sent := sent + [Batch(sig, state.events)];
          }
      }
      stop := stop + 1;
    }
  }

  class DbManager {
    var tables: Tables
    var cursor: Option<Sig>

    constructor ()
      ensures tables == EMPTY && cursor == None
    {
      tables, cursor := EMPTY, None;
    }

    // One received batch: its events and the cursor in one database transaction.
    method CommitBatch(batch: Batch)
      modifies this
      ensures tables == Apply(old(tables), batch.events) && cursor == Some(batch.sig)
    {
      var tx := tables;
      for i := 0 to |batch.events|
        invariant tx == Apply(old(tables), batch.events[..i])
        invariant tables == old(tables)
      {
        assert batch.events[..i + 1][..i] == batch.events[..i];
        tx := OnEvent(tx, batch.events[i]);
      }
      assert batch.events[..|batch.events|] == batch.events;
      tables, cursor := tx, Some(batch.sig);
    }
  }

  // ---- The pipeline with crashes ----

  // Durable: tables and cursor. Lost in a crash: how far the reader delivered, and both queues.
  datatype Pipeline = Pipeline(tables: Tables, cursor: Option<Sig>, delivered: nat, processed: nat, queue: seq<Batch>)

  datatype Move = Deliver | Process | Commit | Crash

  ghost predicate Moves(ledger: seq<LedgerTx>, p: Pipeline, m: Move, p': Pipeline, on: Listener) {
    match m
    case Deliver => p.delivered < |ledger| && p' == p.(delivered := p.delivered + 1)
    case Process =>
      p.processed < p.delivered <= |ledger| && !Parsed(ledger[p.processed], on).Panic?
      && p' == p.(processed := p.processed + 1, queue := p.queue + NewBatch(p.processed, ledger[p.processed], on))
    case Commit =>
      p.queue != []
      && p' == p.(tables := Apply(p.tables, p.queue[0].events), cursor := Some(p.queue[0].sig), queue := p.queue[1..])
    case Crash =>
      p' == Pipeline(p.tables, p.cursor, Start(p.cursor), Start(p.cursor), [])
  }

  // The tables are the fold of everything up to the cursor, and the queue is exactly what the
  // transactions between cursor and processor carry.
  ghost predicate Consistent(ledger: seq<LedgerTx>, p: Pipeline, on: Listener) {
    var c := Start(p.cursor);
    && c <= p.processed <= p.delivered <= |ledger|
    && p.tables == Apply(EMPTY, EventsUpTo(ledger, c, on))
    && p.queue == Bearing(ledger, c, p.processed, on)
  }

  // The first batch after lo names the first event-bearing transaction; before it nothing happens.
  lemma {:induction false} FirstBatch(ledger: seq<LedgerTx>, lo: nat, hi: nat, on: Listener)
    requires lo <= hi <= |ledger| && Bearing(ledger, lo, hi, on) != []
    ensures var b := Bearing(ledger, lo, hi, on)[0];
      && lo <= b.sig < hi && b.events == EventsOf(ledger[b.sig], on)
      && EventsUpTo(ledger, b.sig, on) == EventsUpTo(ledger, lo, on)
      && Bearing(ledger, b.sig + 1, hi, on) == Bearing(ledger, lo, hi, on)[1..]
    decreases hi - lo
  {
    hide EventsOf, Bearing;
    BearingStep(ledger, lo, hi, on);
    var init, last := Bearing(ledger, lo, hi - 1, on), NewBatch(hi - 1, ledger[hi - 1], on);
    if init == [] {
      NothingBorne(ledger, lo, hi - 1, on);
      BearingStep(ledger, hi, hi, on);
      assert init + last == last && last[1..] == [];
    } else {
      FirstBatch(ledger, lo, hi - 1, on);
      BearingStep(ledger, init[0].sig + 1, hi, on);
      assert (init + last)[0] == init[0] && (init + last)[1..] == init[1..] + last;
    }
  }

  lemma BearingStep(ledger: seq<LedgerTx>, lo: nat, hi: nat, on: Listener)
    requires lo <= hi <= |ledger|
    ensures Bearing(ledger, lo, hi, on) ==
      if lo == hi then [] else Bearing(ledger, lo, hi - 1, on) + NewBatch(hi - 1, ledger[hi - 1], on)
  {
  }

  lemma {:induction false} NothingBorne(ledger: seq<LedgerTx>, lo: nat, hi: nat, on: Listener)
    requires lo <= hi <= |ledger| && Bearing(ledger, lo, hi, on) == []
    ensures EventsUpTo(ledger, hi, on) == EventsUpTo(ledger, lo, on)
    decreases hi - lo
  {
    hide EventsOf, Bearing;
    if lo < hi {
      BearingStep(ledger, lo, hi, on);
      assert NewBatch(hi - 1, ledger[hi - 1], on) == [];
      NothingBorne(ledger, lo, hi - 1, on);
    }
  }

  lemma MoveKeeps(ledger: seq<LedgerTx>, p: Pipeline, m: Move, p': Pipeline, on: Listener)
    requires Consistent(ledger, p, on) && Moves(ledger, p, m, p', on)
    ensures Consistent(ledger, p', on)
  {
    hide EventsOf, OnEvent, Bearing, Apply;
    var c := Start(p.cursor);
    match m {
      case Deliver =>
      case Process => BearingStep(ledger, c, p.processed + 1, on);
      case Commit =>
        FirstBatch(ledger, c, p.processed, on);
        var b := p.queue[0];
        ApplySplit(EMPTY, EventsUpTo(ledger, c, on), b.events);
        assert EventsUpTo(ledger, b.sig + 1, on) == EventsUpTo(ledger, c, on) + b.events;
      case Crash => BearingStep(ledger, c, c, on);
    }
  }

  ghost predicate Run(ledger: seq<LedgerTx>, ps: seq<Pipeline>, moves: seq<Move>, on: Listener) {
    && |ps| == |moves| + 1 && ps[0] == Pipeline(EMPTY, None, 0, 0, [])
    && forall i | 0 <= i < |moves| :: Moves(ledger, ps[i], moves[i], ps[i + 1], on)
  }

  // Over every run with any number of crashes, the stored tables are the events of the ledger up
  // to the stored cursor, each applied once; and with the queue empty, of everything processed.
  lemma {:induction false} EveryRun(ledger: seq<LedgerTx>, ps: seq<Pipeline>, moves: seq<Move>, on: Listener, n: nat)
    requires Run(ledger, ps, moves, on) && n < |ps|
    ensures Consistent(ledger, ps[n], on)
    ensures ps[n].queue == [] ==> ps[n].tables == Apply(EMPTY, EventsUpTo(ledger, ps[n].processed, on))
  {
    hide Moves;
    if n > 0 {
      EveryRun(ledger, ps, moves, on, n - 1);
      MoveKeeps(ledger, ps[n - 1], moves[n - 1], ps[n], on);
    }
    if ps[n].queue == [] {
      NothingBorne(ledger, Start(ps[n].cursor), ps[n].processed, on);
    }
  }

  // ---- The program from start to crash, again and again ----

  // What one life of the program sees and does: its requests, its polling rounds, and how many
  // batches it committed before it crashed.
  datatype Life = Life(calls: nat -> Snapshot, rounds: nat, commits: nat)

  // The tables are the events of the ledger up to the stored cursor, each applied once.
  ghost predicate Folded(db: DbManager, ledger: seq<LedgerTx>, on: Listener)
    reads db
  {
    Start(db.cursor) <= |ledger| && db.tables == Apply(EMPTY, EventsUpTo(ledger, Start(db.cursor), on))
  }

  // A first part of the batches sent, each committed with its cursor.
  method CommitSome(db: DbManager, sent: seq<Batch>, commits: nat, ghost ledger: seq<LedgerTx>, ghost stop: nat, ghost on: Listener)
    requires Folded(db, ledger, on) && Start(db.cursor) <= stop <= |ledger|
    requires sent == Bearing(ledger, Start(db.cursor), stop, on)
    modifies db
    ensures Folded(db, ledger, on) && old(Start(db.cursor)) <= Start(db.cursor) <= stop
    ensures commits >= |sent| ==> db.tables == Apply(EMPTY, EventsUpTo(ledger, stop, on))
  {
    hide Apply, Bearing, EventsOf;
    ghost var s := Start(db.cursor);
    var k := 0;
    while k < |sent| && k < commits
      invariant k <= |sent| && Folded(db, ledger, on)
      invariant s <= Start(db.cursor) <= stop && sent[k..] == Bearing(ledger, Start(db.cursor), stop, on)
    {
      ghost var at := Start(db.cursor);
      assert sent[k..][0] == sent[k] && sent[k..][1..] == sent[k + 1..];
      FirstBatch(ledger, at, stop, on);
      ApplySplit(EMPTY, EventsUpTo(ledger, at, on), sent[k].events);
      db.CommitBatch(sent[k]);
      k := k + 1;
    }
    if k == |sent| {
      assert sent[k..] == [];
      NothingBorne(ledger, Start(db.cursor), stop, on);
    }
  }

  // The reader starts after the stored cursor; what it delivers is parsed, and a first part of the
  // batches is committed.
  method Live(db: DbManager, ledger: seq<LedgerTx>, slots: seq<nat>, blockOf: nat -> seq<Sig>, life: Life, on: Listener)
    returns (ghost last: nat)
    requires |slots| == |ledger| && Growing(slots, life.calls) && Blocks(slots, blockOf)
    requires Folded(db, ledger, on) && Start(db.cursor) <= life.calls(0).length
    modifies db
    ensures Folded(db, ledger, on)
    ensures old(Start(db.cursor)) <= Start(db.cursor) <= life.calls(last).length
    ensures life.rounds > 0 && life.commits >= |ledger| && (forall i | 0 <= i < |ledger| :: !Parsed(ledger[i], on).Panic?) ==>
      db.tables == Apply(EMPTY, EventsUpTo(ledger, life.calls(last).length, on))
  {
    hide Blocks, Apply, Bearing, EventsOf, Parsed, EventsUpTo;
    ghost var s := Start(db.cursor);
    var reader := new Reader(slots, db.cursor);
    ghost var f, c;
    f, c, last := reader.ListenToSolana(life.calls, blockOf, life.rounds);
    var received := seq(|reader.confirmedOut|, i requires 0 <= i < |reader.confirmedOut| reads reader => reader.confirmedOut[i].sig);
    ghost var stop;
    var sent, panicked;
    sent, panicked, stop := ProcessorExecute(ledger, received, on, s, c);
    BearingSize(ledger, s, stop, on);
    CommitSome(db, sent, life.commits, ledger, stop, on);
  }

  lemma {:induction false} BearingSize(ledger: seq<LedgerTx>, lo: nat, hi: nat, on: Listener)
    requires lo <= hi <= |ledger|
    ensures |Bearing(ledger, lo, hi, on)| <= hi - lo
    decreases hi - lo
  {
    hide Bearing, EventsOf;
    BearingStep(ledger, lo, hi, on);
    if lo < hi {
      BearingSize(ledger, lo, hi - 1, on);
    }
  }

  // However often the program crashes and starts again on the growing ledger, the tables are the
  // events up to the cursor, each applied once.
  method Lives(db: DbManager, ledger: seq<LedgerTx>, slots: seq<nat>, blockOf: nat -> seq<Sig>, lives: seq<Life>, on: Listener)
    requires |slots| == |ledger| && Blocks(slots, blockOf)
    requires forall i | 0 <= i < |lives| :: Growing(slots, lives[i].calls)
    requires forall i, j, n: nat | 0 <= i < j < |lives| :: lives[i].calls(n).length <= lives[j].calls(0).length
    requires db.tables == EMPTY && db.cursor == None
    modifies db
    ensures Folded(db, ledger, on)
  {
    for i := 0 to |lives|
      invariant Folded(db, ledger, on)
      invariant forall j | i <= j < |lives| :: Start(db.cursor) <= lives[j].calls(0).length
    {
      var last := Live(db, ledger, slots, blockOf, lives[i], on);
    }
  }
}
