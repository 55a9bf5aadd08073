# MootVote, modelled and proved in Dafny

MootVote is an anonymous voting system: a Solana program holds polls and tallies, zero-knowledge
circuits check votes, relays and tally batches, a relayer service submits votes for a fee, a page in
the browser computes the tally, and an indexer copies the program's events into a database. This
project models those parts and proves what each keeps, and what they keep together.

`dafny verify dfyconfig.toml` checks everything.

## How the files fit together

| file | part of the system |
|---|---|
| `Field.dfy`, `Signals.dfy`, `Keys.dfy`, `Wrappers.dfy` | field elements and Poseidon as free terms; circuit signals modulo the field; keys, their bits and paths |
| `Canonical.dfy` | the meaning of a sparse Merkle tree: a finite map has one canonical root |
| `NodeStore.dfy`, `SparseMerkle.dfy` | the content-addressed store and the tree's operations, proved against the canonical root |
| `Rocks.dfy`, `TreeHistory.dfy` | the RocksDB keyspace with staged writes; whole histories of a tree |
| `SmtCircuit.dfy` | the two tree gadgets of the circuits: soundness, and acceptance of the tree's own proofs |
| `TallyCircuit.dfy` | the tally of a message sequence, and the batch circuit that computes it under hashes |
| `MootVote.dfy` | the voting program's accounts and instructions, over every run |
| `TallyClient.dfy` | the tallier's page: witnesses, batches, and the whole tally up to the program's acceptance |
| `Unchecked.dfy` | inputs that use what the circuits and services leave unchecked |
| `Relay.dfy`, `Relayer.dfy`, `Deposit.dfy` | the relay circuit and program, the relayer's mirror of it, and the poll's deposit |
| `LogParser.dfy`, `SolanaReader.dfy`, `Indexer.dfy` | log parsing, the polling reader, the database and its cursor |
| `Census.dfy` | the census Merkle tree, its circuit, and the ingestion of census files |

The main results, in one line each:

- every tree operation yields the canonical root of the map it should, with exact error conditions,
  and no earlier root loses its meaning (`SparseMerkle`, `TreeHistory`);
- a check or write the tree gadgets accept, their flags bits, is true of the map and is the write of the
  tree, whatever siblings and leaves were claimed, and the tree's own proofs are accepted (`SmtCircuit`);
- in every run of the program whose batches have flags that are bits, a finished poll with votes counts
  each of its votes once, at indices the tallier's witnesses chose; when every split of a nullifier is
  in range too, that is the tally of exactly its votes. The page's witnesses meet both, and it brings a
  poll there in any batches, as long as the tree can hold the voters' indices apart and no counting vote
  is for a choice the page has no count of (`MootVote`, `TallyClient`);
- while the flags of relays are bits, no index exceeds its relay quota and no message is relayed twice,
  the relayer's database mirrors the program after every request that gives its nullifier below the
  modulus, and the deposit pays for every relay of as many indices as there are voters (`Relay`,
  `Relayer`, `Deposit`);
- the parser inverts the printing of call trees, the reader delivers every transaction once and in
  order, and across crashes the database is the fold of the ledger up to its cursor (`LogParser`,
  `SolanaReader`, `Indexer`).

Objects that the original updates in place are classes here (stores, trees, accounts, the relayer's
databases, the page, the reader); circuits, parsers' line rules and instruction arithmetic are
functions. A proof is taken to be valid when a witness satisfying the circuit's relation exists.

Eight properties hold only under a condition, which is proved to be exact or shown to be needed:

- both circuits split the nullifier by the one constraint `nu === nuLo + nuHi * (1 << DEPTH)`, over the
  field and with no range for `nuHi`. The index used is the nullifier's own exactly when `nuLo` is below
  2^64 and the sum stays below the modulus (`TallyCircuit.SlotIndexExact`, `TallyCircuit.BatchExact`,
  `Relay.IndexExact`), and any index can be used otherwise (`TallyClient.AnyIndexAccepted`). Results
  about nullifiers rather than indices carry that range as a condition, called `AllInRange`, in runs
  `Checks.ranges`, or `OwnIndices`, and fail without it on the inputs of `Unchecked`, whose low halves are below 2^64.
- neither circuit makes bits of the flags `noAux`, `wasLeafEmpty`, `noAuxQuota` and `noAuxUniq`, which it
  hands to the tree gadgets (circom/MerkleTreeInclusionProof.circom:16 does so for its own). With a flag
  that is not a bit the gadgets are taken to accept anything and to give any root, so results about what
  a batch or relay did carry `BitFlags` as a condition, in runs `Checks.bits`; without it the relation
  accepts the batch of `Unchecked.RevoteDropped`.
- a vote proof bounds the choice by one 16-bit comparison, which numbers just below the modulus pass
  (`MootVote.ChoicesAccepted`). Such a vote takes part in no count, so the program's results stand and
  the right tally can be finished (`MootVote.FinishAccepts`); but the page fails on it exactly when it
  counts (`TallyClient.Fits`, `TallyClient.Page.TallyPoll`, `Unchecked.TopChoiceStops`).
- the relayer takes its quota index from the request's bytes, and the prover is taken to reduce them
  modulo the field, so the mirror is lost exactly when the program accepts a nullifier given at or above
  the modulus (`Relayer.Backend.RelayInner`), and `Unchecked.HighNullifierAccepted` is one.
- `update` and `get_proof` never look at depth D, so a key is found exactly when no other key shares
  its low D-1 bits (`SparseMerkleTree.Update`, `SmtCircuit.MembershipExact`); `add` indexes past its
  path exactly when another key shares all D bits (`SparseMerkleTree.Add`).
- a leaf at key zero is reported as an empty slot, so an exclusion proof fits the circuit exactly when
  the leaf met is not at key zero (`SmtCircuit.ProofVerifies`).
- a second change before a flush sees the first exactly when the first one's root was already on disk
  (`Rocks.AddTwiceUnflushed`).
- a finish fixes the result exactly when the poll has votes (`MootVote.ResultFixedIffVotes`).

## Model

| member | source | states |
|---|---|---|
| `Keys.PathIsLowBits` | smt-circom/src/lib.rs:101-108 | the path read off a 32-byte key is the low bits of its big-endian number, lowest first, as the circuits walk it |
| `Keys.LastByteLowest` | smt-circom/src/lib.rs:101-108 | the number of a key is read big-endian, its last byte lowest |
| `Keys.BinaryDigits` | smt-circom/src/lib.rs:101-108 | the bits of a number are its binary digits, lowest first |
| `Keys.LowBitsDetermine` | smt-circom/src/lib.rs:101-108 | keys that fit in the tree's depth are told apart by their paths |
| `Signals.SplitExact` | circom/Tally.circom:151-154 | two halves that add up to a signal in the field are its low and high bits exactly when they are in range, which nothing constrains |
| `Signals.AnySplit` | circom/Relay.circom:40-43 | every low half has a high half that the constraint accepts |
| `Signals.LessThanExact` | circom/Relay.circom:37-38 | the 16-bit comparison accepts exactly the numbers less by at most 2^16, away from the top of the field |
| `Signals.LessThanDefined` | circom/Relay.circom:37-38 | for a left side of 16 bits and any signal on the right: where the comparison is defined, wrap-around included, and when it then says less |
| `Signals.AtMostExact` | circom/Vote.circom:73-76 | the 16-bit comparison with a small bound accepts the numbers up to it and those just below the modulus |
| `Signals.ModulusIs` | relayer/src/server.rs:169-170 | the modulus is the order of BN254, by its curve parameter |
| `Canonical.CanonUpdate` | smt-circom/src/lib.rs:156-198 | writing a key under a middle node rewrites the half the key turns into and keeps the other |
| `Canonical.CanonZero` | smt-circom/src/lib.rs:156-165 | the root is zero exactly for the empty map |
| `Canonical.Binding` | smt-circom/src/lib.rs:23-32 | maps with the same root are the same map |
| `Canonical.FoldOpens` | smt-circom/src/lib.rs:305-356 | a fold of siblings that reaches a map's root starts at the root of exactly the leaves sharing the key's turns, and is no longer than the depth |
| `Canonical.FoldReplaces` | smt-circom/src/lib.rs:275-287 | writing a key along an opened path keeps the siblings and changes only the bottom hash |
| `Canonical.FoldInjective` | smt-circom/src/lib.rs:278-286 | equal folds along one path start from equal hashes |
| `Canonical.InclusionSound` | smt-circom/src/lib.rs:322-333 | a leaf hash that folds to the root of a map names a leaf of the map |
| `Canonical.ExclusionSound` | smt-circom/src/lib.rs:313-333 | an empty slot or another key's leaf on a key's path shows the key is absent |
| `NodeStores.PutKeeps` | smt-circom/src/lib.rs:146-150 | a put under the node's own hash keeps the store closed and changes no node already there |
| `NodeStores.NodeStore.Get` | smt-circom/src/store/mem.rs:24-26 | a read returns the node under its hash; children of a middle node can be read too |
| `NodeStores.NodeStore.Put` | smt-circom/src/lib.rs:146-150 | the node is held under its hash; a staged store still reads as before |
| `SparseMerkle.PairCanon` | smt-circom/src/lib.rs:200-243 | the root of two leaves: middle nodes with one empty side while their turns agree, then both leaves |
| `SparseMerkle.TwoLeaves` | smt-circom/src/lib.rs:23-32 | the roots of the empty, the one-leaf and a two-leaf tree, written out in Poseidon: the leaf ends in a one, the left half comes first |
| `SparseMerkle.FoldNodesArePath` | smt-circom/src/lib.rs:275-287 | the nodes rebuilt from a leaf and its siblings are the nodes on the key's path |
| `SparseMerkle.WalkDown` | smt-circom/src/lib.rs:266-299 | one step down keeps the walk: the node reached is the root of the leaves still on the path, and a zero sibling leaves at least two of them |
| `SparseMerkle.SpreadAdds` | smt-circom/src/lib.rs:200-209 | a new key stays apart from the others exactly when none shares its path |
| `SparseMerkle.SparseMerkleTree.PushLeaf` | smt-circom/src/lib.rs:200-243 | the two-leaf subtree, or out of range exactly when the paths never part; writes exactly the new leaf's path |
| `SparseMerkle.SparseMerkleTree.AddLeaf` | smt-circom/src/lib.rs:156-198 | the canonical root with the leaf added; present, or out of range, exactly when it should be; writes exactly the leaf's path, nothing on error |
| `SparseMerkle.SparseMerkleTree.Add` | smt-circom/src/lib.rs:246-255 | adds the leaf to the map the reads see, with exact errors and unchanged state on error |
| `SparseMerkle.SparseMerkleTree.WriteUp` | smt-circom/src/lib.rs:275-287 | rewrites the path above a leaf and moves the root to the fold of its siblings |
| `SparseMerkle.SparseMerkleTree.Update` | smt-circom/src/lib.rs:258-302 | replaces the value and returns the old one, exactly for a present key that no other shares D-1 bits with |
| `SparseMerkle.SparseMerkleTree.AddOrUpdate` | smt-circom/src/lib.rs:359-364 | insert or replace, with the exact errors of both |
| `SparseMerkle.SparseMerkleTree.GetProof` | smt-circom/src/lib.rs:305-356 | siblings that fold the leaf met to the root, zero past where the path stops, the last used one not zero |
| `TreeHistory.StoreDenotes` | smt-circom/src/lib.rs:156-302 | following the nodes down from a stored canonical root collects exactly its map |
| `TreeHistory.RootPersists` | smt-circom/src/store/mem.rs:28-31 | a root keeps its map in every store that grew from one where it stood |
| `TreeHistory.Replay` | smt-circom/src/lib.rs:246-364 | after any operations from the empty tree every root reached is canonical for its map, succeeds when it should, and still denotes that map at the end |
| `TreeHistory.OnlyPresenceFails` | smt-circom/src/lib.rs:359-364 | with keys apart in their low D-1 bits an add fails only on a present key, an update only on an absent one, an upsert never |
| `TreeHistory.OrderIndependent` | smt-circom/src/lib.rs:359-364 | leaves upserted in any order give the same map and root |
| `SmtCircuit.PushedIsCanon` | circom/Tally.circom:174-187 | the gadget's hash of two pushed leaves is their canonical root, missing exactly when their turns never part |
| `SmtCircuit.VerifierSound` | circom/Tally.circom:162-172 | an accepted inclusion or exclusion check is true of the map under the root |
| `SmtCircuit.ProcessorSound` | circom/Tally.circom:174-187 | an accepted insert or change moves the root from a map to the map so written; inserts only absent keys, changes only the claimed value |
| `SmtCircuit.ProofShape` | smt-circom/src/lib.rs:305-356 | the level a proof's siblings lead to is where its path stopped; the last sibling is zero exactly when that is short of the depth |
| `SmtCircuit.MembershipExact` | smt-circom/src/lib.rs:326-332 | membership is reported exactly for present keys no other shares D-1 bits with, and then with the stored value |
| `SmtCircuit.DeepRejected` | smt-circom/src/lib.rs:345-353 | a proof whose path takes up the whole depth is accepted by neither gadget, whatever it claims |
| `SmtCircuit.ProofVerifies` | smt-circom/src/lib.rs:305-356 | the tree's proof passes as inclusion exactly for the stored value, as exclusion exactly for an absent key whose path meets no leaf at key zero |
| `SmtCircuit.ProofProcesses` | smt-circom/src/lib.rs:305-356 | from the tree's proof the gadget computes exactly the tree's own next root |
| `Rocks.RecordsRoundTrip` | smt-circom/src/lib.rs:57-91 | a record decodes to a node exactly when it is that node's encoding, tagged zero for a middle node and one for a leaf; a root record decodes to none |
| `Rocks.FlushView` | smt-circom/src/store/rocksdb.rs:43-84 | a flush adds exactly the staged nodes and the root, and touches no other state |
| `Rocks.RootRecord` | smt-circom/src/store/rocksdb.rs:43-84 | the root is stored at the state's prefix under the zero hash |
| `Rocks.Mutate` | smt-circom/src/lib.rs:246-364 | which operations succeed, and that each writes exactly its key's path |
| `Rocks.MutateBoth` | smt-circom/src/store/rocksdb.rs:53-70 | one operation on a loaded store and a flush equal the operation on the in-memory store: outcome, nodes and root |
| `Rocks.AddTwiceUnflushed` | smt-circom/src/store/rocksdb.rs:46-58 | two unflushed adds: the second sees the first exactly when that root was already stored, else it starts from an empty tree |
| `TallyCircuit.VoteAllConcat` | circom/Tally.circom:57-84 | batching is invisible: a pass over two parts is a pass over the second from where the first ended |
| `TallyCircuit.HashLayouts` | circom/Tally.circom:127-146 | the hashes written out: a message from its key, nonce and ciphertext, a leaf from choice and key, a tally from salt and eleven counts |
| `TallyCircuit.Widths` | circom/Tally.circom:12-43 | an accepted batch has eleven counts, six slots and sixty-four siblings in each |
| `TallyCircuit.FirstVote` | circom/Tally.circom:145-201 | from the empty state a first vote naming the hash of zero moves the root to its one leaf and the chain to its hash, and counts one for its choice when that is from 1 to 11 |
| `TallyCircuit.SecondVote` | circom/Tally.circom:148-197 | a second vote of the same nullifier moves the count exactly when it names the key the first one set |
| `TallyCircuit.ChainBinds` | circom/Tally.circom:199-201 | equal message chains are chains of the same messages |
| `TallyCircuit.ChainLengths` | circom/Tally.circom:52 | the chain is zero exactly before the first message |
| `TallyCircuit.TrueCasts` | circom/Tally.circom:145-201 | messages counted at their own indices give their own tally |
| `TallyCircuit.CastChain` | circom/Tally.circom:199-201 | the chain is of the messages alone, wherever they were counted |
| `TallyCircuit.CastsCounted` | circom/Tally.circom:204-216 | wherever messages were counted, each count is the number of indices whose leaf holds that choice |
| `TallyCircuit.TallyCounted` | circom/Tally.circom:204-216 | after any messages each count is the number of indices whose leaf holds that choice |
| `TallyCircuit.CountsBounded` | circom/Tally.circom:189-197 | counts are never negative and sum to the indices that hold a counted choice |
| `TallyCircuit.UnusedChoices` | circom/Tally.circom:189-197 | choices within the poll's range, or beyond every count, leave all later counts at zero |
| `TallyCircuit.TallyHashBinds` | circom/Tally.circom:86-93 | the tally hash opens to one salt and one list of counts |
| `TallyCircuit.SlotOpens` | circom/Tally.circom:151-172 | with flags that are bits, the old choice and key an accepted slot claims are those of the index it uses, and its emptiness flag is true |
| `TallyCircuit.SlotIndexExact` | circom/Tally.circom:151-154 | the index an accepted slot uses is its message's own exactly when the split is in range |
| `TallyCircuit.SingleSound` | circom/Tally.circom:97-202 | an accepted enabled slot whose flags are bits is its message counted at the index it uses; a disabled one changes nothing |
| `TallyCircuit.SlotsSound` | circom/Tally.circom:64-84 | the accepted slots, their flags bits, are the messages of the enabled ones, in order, counted at the indices they use |
| `TallyCircuit.TallySound` | circom/Tally.circom:12-95 | an accepted batch whose flags are bits ends, from the state of a tally, in the state after its enabled messages, counted at the indices it uses |
| `TallyCircuit.BatchExact` | circom/Tally.circom:64-84 | a batch counts its messages at their own indices exactly when its splits are in range, and then ends at their tally |
| `MootVote.PollAccount.constructor` | programs/mootvote/src/instructions/create_poll.rs:67-85 | a new poll has the given choices and times, the zero chain, no votes and no result |
| `MootVote.Created` | programs/mootvote/src/instructions/create_poll.rs:67-81 | a poll is created exactly for at least one choice and a window that is not empty and at most 31,536,000 seconds long, and holds just what was given |
| `MootVote.PollAccount.VoteCommon` | programs/mootvote/src/instructions/vote.rs:109-173 | succeeds exactly for a valid proof in the window, and then extends the chain by the Poseidon hash of the message written out; otherwise nothing changes |
| `MootVote.PollAccount.Finish` | programs/mootvote/src/instructions/finish_tally.rs:28-60 | stores the result exactly after the end, for the right length, the poll's chain and an opening of the tally hash padded to eleven counts; otherwise nothing changes |
| `MootVote.TallyAccount.Create` | programs/mootvote/src/instructions/create_tally.rs:20-32 | the account starts, or starts over, at the empty root and chain with a free hash |
| `MootVote.TallyAccount.Batch` | programs/mootvote/src/instructions/tally_batch.rs:12-40 | moves to the proved root, chain and hash exactly for a valid proof, or not at all |
| `MootVote.ChoicesAccepted` | circom/Vote.circom:73-76 | the choices a vote proof lets through: those of the poll, and those just below the modulus, which no count takes |
| `MootVote.CreatedOk` | programs/mootvote/src/instructions/create_tally.rs:20-32 | a new account stands for no messages, whatever its hash |
| `MootVote.AdvanceOk` | programs/mootvote/src/instructions/tally_batch.rs:23-37 | with flags checked to be bits, an accepted batch keeps the account standing for messages counted at some indices; with ranges checked too, at their own |
| `MootVote.FirstHash` | circom/Tally.circom:52-55 | the first batch must open the old hash to zeros, later ones to the counts so far |
| `MootVote.FinishOk` | programs/mootvote/src/instructions/finish_tally.rs:31-52 | with flags checked, a successful finish of a poll with votes counts each of them once, with nothing past its choices; with ranges checked too it stores their tally |
| `MootVote.FinishAccepts` | programs/mootvote/src/instructions/finish_tally.rs:31-52 | the right tally is accepted once the account stands for all votes |
| `MootVote.StepKeepsInv` | programs/mootvote/src/instructions/finish_tally.rs:28-60 | every instruction keeps: accounts stand for counted messages and finished polls for counts of their votes, with flags checked; both at their own indices, with ranges checked too |
| `MootVote.EveryRun` | programs/mootvote/src/instructions/finish_tally.rs:28-60 | over every run, whatever choices the program accepted: with flags checked a finished poll with votes counts each vote of its full sequence once; with ranges checked too it holds the tally of that sequence |
| `MootVote.FinishesAgree` | programs/mootvote/src/instructions/finish_tally.rs:28-60 | with flags and ranges checked two finishes of one poll agree, whichever accounts and salts they use |
| `MootVote.ResultFixedIffVotes` | programs/mootvote/src/instructions/create_tally.rs:25-29 | with flags and ranges checked the result is fixed exactly when there is a vote; without votes any tally of the right length can be finished |
| `Unchecked.BatchAccepted` | circom/Tally.circom:151-154 | the circuit accepts two first votes of one nullifier at two indices, the second by a split out of range |
| `Unchecked.RunMiscounts` | programs/mootvote/src/instructions/finish_tally.rs:28-60 | a run of the program that finishes those two votes with two, where their tally is one |
| `Unchecked.RevoteDropped` | circom/Tally.circom:148-172 | with a flag of two the batch relation accepts a revote as a vote that does not count, every split in range |
| `Unchecked.TopChoiceStops` | frontend/src/components/Tally.tsx:267-268 | the program accepts a first vote for the number just below the modulus, and the page can then prepare no batch of it |
| `TallyClient.SlotAccepted` | frontend/src/components/Tally.tsx:251-286 | the slot built from the tree's proof is accepted by the circuit at any index the nullifier splits to |
| `TallyClient.AnyIndexAccepted` | circom/Tally.circom:151-172 | so every message is accepted at every good index, its own being the one in range |
| `TallyClient.NoAuxMatches` | frontend/src/components/Tally.tsx:270-275 | the two ways the page derives the empty-slot flag agree for an absent index |
| `TallyClient.CountsMove` | frontend/src/components/Tally.tsx:267-268 | moving one vote between the page's counts is the circuit's recount of the padded counts |
| `TallyClient.AllFitSplit` | frontend/src/components/Tally.tsx:215-287 | votes fit the page's counts exactly when a first part does, and the rest from where it ended |
| `TallyClient.InRangeFits` | frontend/src/components/Tally.tsx:267-268 | votes for the poll's choices always fit |
| `TallyClient.RepeatedSlotKeeps` | frontend/src/components/Tally.tsx:289-302 | a slot accepted once is accepted again past the batch length, and changes nothing |
| `TallyClient.RepeatsKeep` | frontend/src/components/Tally.tsx:289-302 | padding with the last slot leaves the accumulated state |
| `TallyClient.WitnessAccepted` | frontend/src/components/Tally.tsx:304-357 | the padded witness is accepted, and the circuit's root, chain and tally hash are the page's |
| `TallyClient.Page.Rebuild` | frontend/src/components/Tally.tsx:178-193 | the stored leaves, in whatever order, rebuild the tree of the leaf map |
| `TallyClient.Page.WriteLeaf` | frontend/src/components/Tally.tsx:251-261 | adds the leaf, or updates it when the index is taken, and says which |
| `TallyClient.Page.ReplaceLeaf` | frontend/src/components/Tally.tsx:252-268 | a counting vote moves tree, leaf map and counts to the state after it, or fails for a choice the page has no count of |
| `TallyClient.Page.TallyOne` | frontend/src/components/Tally.tsx:215-286 | one vote that fits: its slot is accepted and the page's state moves past it, counting or not |
| `TallyClient.Page.BuildSlots` | frontend/src/components/Tally.tsx:215-287 | the batch's slots in order, all accepted, and the state after the batch; with good indices exactly when its votes fit |
| `TallyClient.Page.Pad` | frontend/src/components/Tally.tsx:289-302 | the slots repeated to the circuit's width |
| `TallyClient.Page.NextBatch` | frontend/src/components/Tally.tsx:155-357 | whatever is proved stands for exactly the votes of the batch, its splits in range and its flags bits; with good indices it is proved exactly when no counting vote in it is for a choice above the poll's |
| `TallyClient.Page.StartsInStep` | frontend/src/components/Tally.tsx:155-193 | a page without a stored tally starts at the first vote, in step with any account |
| `TallyClient.Page.OnTallyNext` | frontend/src/components/Tally.tsx:155-421 | a batch with good indices is prepared exactly when its votes fit; page and account move together when the send returns and lands, stay when it does neither, and after the first batch part exactly when it does one of the two |
| `TallyClient.Page.OnFinishTally` | frontend/src/components/Tally.tsx:423-468 | finishing succeeds exactly when voting is over and all the poll's votes were processed, and stores their tally |
| `TallyClient.Page.TallyPoll` | frontend/src/components/Tally.tsx:155-468 | from any point, tallying what remains in batches and finishing stores the tally of all the votes; with good indices, voting over and every send landing, it succeeds exactly when the remaining votes fit |
| `Relay.QuotaIsUses` | circom/Relay.circom:59-69 | the quota map counts how often the history used each index |
| `Relay.CountsSum` | circom/Relay.circom:66 | the quota counts add up to the number of relays |
| `Relay.CircuitSound` | circom/Relay.circom:12-98 | with flags that are bits, an accepted relay is a new message, the index it uses is below its limit, and the roots move to the history with it appended |
| `Relay.CircuitAccepts` | circom/Relay.circom:12-98 | with flags that are bits, a witness meeting the two trees' relations is accepted |
| `Relay.FirstRelay` | circom/Relay.circom:37-98 | the first relay of a state written out: the new root is of one use of its index and of one message, and what is published is the hash of nullifier and message |
| `Relay.IndexExact` | circom/Relay.circom:40-43 | the index an accepted relay uses is its nullifier's own exactly when the split is in range |
| `Relay.NullifierQuota` | circom/Relay.circom:37-43 | when all relays used their own index no nullifier is relayed above the limit |
| `Relay.IndicesOfNullifiers` | circom/Relay.circom:40-69 | and no more indices are used than there are nullifiers |
| `Unchecked.RelayedTwice` | circom/Relay.circom:40-43 | with a limit of one the circuit accepts two relays of one nullifier, the second by a split out of range |
| `Relay.FairMore` | circom/Relay.circom:37-81 | one more such relay keeps every quota and keeps messages distinct |
| `Relay.RelayerState.Create` | programs/zk-relayer/src/instructions/create_relayer_state.rs:36-52 | a new state stands for the empty history |
| `Relay.RelayerState.Relay` | programs/zk-relayer/src/instructions/relay.rs:28-114 | a relay counts exactly when proof, call and payment hold, and then appends to the history; otherwise nothing changes; while all flags were bits the root stands for the history |
| `Relay.RelayerState.Conserved` | programs/zk-relayer/src/instructions/relay.rs:45-56 | while all flags were bits, counts of indices lie between one and the limit; counts, distinct messages and relays are equally many |
| `Relayer.WitnessAccepted` | relayer/src/server.rs:172-219 | the two trees' proofs make a witness the circuit accepts for a new message within its quota |
| `Relayer.WritesSucceed` | relayer/src/server.rs:279-285 | after an accepted witness the add-or-update choice on the previous count is right at the index it used, and the writes there are the program's |
| `Relayer.RequestReported` | relayer/src/server.rs:172-197 | what the two proofs report of a request; for clear keys, whether it is a duplicate and how often its index was used |
| `Relayer.ReducedLow` | relayer/src/server.rs:169-170 | a 32-byte nullifier and its reduction in the field name the same index exactly when it is below the modulus |
| `Relayer.NotMirrored` | relayer/src/server.rs:279-286 | a quota database written at another index than the relay used does not mirror the program |
| `Unchecked.HighNullifierAccepted` | relayer/src/server.rs:169-219 | from empty trees the witness of a nullifier above the modulus is accepted, at another index than its bytes name |
| `Relayer.Backend.LoadTree` | relayer/src/rocks.rs:45-64 | a loaded tree stands for the flushed map, its writes staged |
| `Relayer.Backend.FlushTree` | relayer/src/server.rs:286 | the flushed database holds the written map, other states unchanged |
| `Relayer.Backend.Prepare` | relayer/src/server.rs:163-221 | which requests are refused before sending, and that the witness of the others is accepted |
| `Relayer.Backend.Persist` | relayer/src/server.rs:279-286 | both trees take their write and both databases hold it, or neither changes; at the relay's own index it cannot fail |
| `Relayer.Backend.RootsAgree` | relayer/src/server.rs:201-202 | the hash of the two flushed roots is the program's state root |
| `Relayer.Backend.StartsMirrored` | relayer/src/rocks.rs:33-43 | empty databases mirror a new relayer state |
| `Relayer.Backend.RelayInner` | relayer/src/server.rs:151-291 | the mirror is kept exactly unless the program accepts a nullifier given above the modulus; below it the outcome is exact for clear keys, an error leaves both sides unchanged, and the tree writes never fail |
| `Deposit.DepositAmount` | programs/mootvote/src/instructions/create_poll.rs:87-91 | the checked product is the two fees for every message of every voter |
| `Deposit.DepositExact` | programs/mootvote/src/instructions/create_poll.rs:87-91 | a deposit exists exactly when the two fees times three, for every voter and at least once, fit in 64 bits |
| `Deposit.ShareCovers` | programs/mootvote/src/instructions/vote.rs:89-94 | one relay's fees come out of the share set aside for it, leaving the shares of the rest |
| `Deposit.PollFunds.constructor` | programs/mootvote/src/instructions/create_poll.rs:87-109 | a new poll holds its rent and deposit, and a relayer state with the limit of three |
| `Deposit.PollFunds.Served` | relayer/src/server.rs:35 | a relayer with empty databases mirrors a new poll's state, its own limit being the poll's |
| `Deposit.PollFunds.Transfer` | programs/mootvote/src/utils.rs:17-23 | takes the amount out, or refuses exactly when there is less |
| `Deposit.PollFunds.Room` | programs/mootvote/src/instructions/create_poll.rs:87-91 | an accepted relay, all flags so far bits, leaves fewer relays than the deposit pays for, as long as no more quota indices are used than there are voters |
| `Deposit.PollFunds.VotersSuffice` | programs/mootvote/src/instructions/create_poll.rs:87-91 | with every relay at its own index, one nullifier for each voter keeps to that |
| `Deposit.PollFunds.RelayedVote` | programs/mootvote/src/instructions/vote.rs:74-106 | a relayed vote pays both fees or changes nothing; within the voters' number of indices, and while all flags were bits, it never fails for lack of funds, and the rest of the deposit stays covered |
| `Deposit.PollFunds.Withdraw` | programs/mootvote/src/instructions/withdraw_poll.rs:14-25 | from the end time on everything above the rent, and nothing before |
| `LogParser.ParseLogs` | indexer/src/parse_logs.rs:73-103 | the loop with its delayed pop is the fold of the line rule, errors and panics included |
| `LogParser.ParseLine` | indexer/src/parse_logs.rs:83-100 | one pass of the loop is the line rule, with its delayed pop, push, event and errors |
| `LogParser.GetEvents` | ts-sdk/src/events.ts:33-64 | the loop returns the decodable ones of the payload lines it selects, in order |
| `LogParser.TaggedQuiet` | indexer/src/parse_logs.rs:43-70 | log, return and data lines of any content start and end nothing in either parser |
| `LogParser.InvokeReads` | indexer/src/parse_logs.rs:43-70 | an invoke line starts exactly its program in both parsers |
| `LogParser.InvokedExact` | indexer/src/parse_logs.rs:43-70 | a line starts a program exactly when it is "Program", the name without space or colon, and then "invoke" and anything |
| `LogParser.TsInvokedExact` | ts-sdk/src/events.ts:30 | the SDK starts a call exactly on the invoke line of an id, its depth in brackets |
| `LogParser.SuccessReads` | indexer/src/parse_logs.rs:140-148 | a success line ends a program in both parsers |
| `LogParser.LinesAre` | indexer/src/parse_logs.rs:43-70 | the printed lines written out as the runtime logs them |
| `LogParser.Alphabet` | ts-sdk/src/events.ts:30-31 | the characters a program id and a depth are made of, one by one |
| `LogParser.EndExact` | indexer/src/parse_logs.rs:140-148 | a line ends a program exactly when it is its success line, the name without space or colon; the test panics exactly on the line "Program success" |
| `LogParser.TsEndExact` | ts-sdk/src/events.ts:31 | the SDK ends a call exactly on the success or failed line of an id |
| `LogParser.OrphanFails` | indexer/src/parse_logs.rs:85-88 | a first line that starts no program is an error |
| `LogParser.EndsCall` | indexer/src/parse_logs.rs:73-103 | the lines that end a call, with or without its units, leave the program with its pop pending |
| `LogParser.RunCall` | indexer/src/parse_logs.rs:73-103 | a printed call emits its own payloads and leaves the programs running as before, the pop pending |
| `LogParser.RunItem` | indexer/src/parse_logs.rs:73-117 | the same for everything a program may print |
| `LogParser.ParseInvertsPrint` | indexer/src/parse_logs.rs:73-103 | from the log of any forest of successful calls: no error, and exactly the target's own decodable payloads in order |
| `LogParser.TsItems` | ts-sdk/src/events.ts:42-60 | the SDK selects exactly the target's own payloads of what was printed |
| `LogParser.ParsersAgree` | ts-sdk/src/events.ts:33-64 | both parsers select the same payload lines and decode the same events |
| `SolanaReader.FindFinalized` | indexer/src/solana_reader.rs:101-114 | the newest finalized signature of a page, if any |
| `SolanaReader.PageJoins` | indexer/src/solana_reader.rs:96-127 | pages read at different times agree with one finalized boundary for the round |
| `SolanaReader.FetchPage` | indexer/src/solana_reader.rs:97-122 | one page of at most 1000 signatures, the next position to read before, and the newest finalized signature kept from the first page that has one |
| `SolanaReader.FetchSignatures` | indexer/src/solana_reader.rs:96-127 | the pages of a round, put back oldest first, list everything after `until`, and its finalized boundary takes in all that was final when it began |
| `SolanaReader.BinarySearch` | indexer/src/solana_reader.rs:133 | the block of a slot, or none |
| `SolanaReader.AddSigToFetch` | indexer/src/solana_reader.rs:132-138 | the blocks keep listing consecutive positions, one block a slot, slots rising |
| `SolanaReader.FetchTxsInBlock` | indexer/src/solana_reader.rs:297-360 | every wanted transaction of the block is found, each looked for after the one before |
| `SolanaReader.Reader.Scan` | indexer/src/solana_reader.rs:140-172 | cached transactions now finalized are released in order; the blocks to fetch cover exactly the new positions |
| `SolanaReader.Reader.FetchBlock` | indexer/src/solana_reader.rs:182-219 | a block's transactions in order with their statuses, by one request or by block |
| `SolanaReader.Reader.Deliver` | indexer/src/solana_reader.rs:223-248 | the new transactions are delivered once and in order, confirmed ones cached |
| `SolanaReader.Reader.ListenToSolana` | indexer/src/solana_reader.rs:69-250 | after any number of rounds both streams are gapless ledger-order runs from the start cursor, up to all the last round saw confirmed and at least all it saw final; the cache is what was delivered but not released as final |
| `Indexer.ApplySplit` | indexer/src/db.rs:51-54 | events applied in two parts are events applied in one |
| `Indexer.TableOfVotes` | indexer/src/db.rs:159-199 | a poll's vote rows are its votes since it was last finished, each once and in order |
| `Indexer.TableOfPolls` | indexer/src/db.rs:110-194 | a poll's row keeps the shape it was first created with and the tally it was last finished with |
| `Indexer.NoEvents` | indexer/src/indexer_event_processor.rs:54-61 | a failed transaction, one without logs and one whose logs do not parse carry no events |
| `Indexer.EventsPrinted` | indexer/src/event_processor.rs:9-35 | of a successful transaction that logged a forest of calls, the events are exactly the decodable payloads of the watched program, in order |
| `Indexer.ProcessorExecute` | indexer/src/indexer_event_processor.rs:50-70 | exactly the transactions that carry events are forwarded, with their events, up to one that makes the parser panic |
| `Indexer.DbManager.CommitBatch` | indexer/src/db.rs:41-56 | a batch's events and the cursor change together |
| `Indexer.FirstBatch` | indexer/src/indexer_event_processor.rs:77-81 | nothing happens between the cursor and the first batch, so skipping the transactions without events loses none |
| `Indexer.MoveKeeps` | indexer/src/db.rs:41-72 | delivery, processing, commits and crashes keep the tables the fold of the ledger up to the cursor |
| `Indexer.EveryRun` | indexer/src/main.rs:71-90 | over every run with any crashes the stored tables are the events up to the cursor, each applied once |
| `Indexer.CommitSome` | indexer/src/db.rs:41-72 | however many of the batches are committed, the tables are the events up to the cursor |
| `Indexer.Live` | indexer/src/main.rs:71-115 | reader, processor and database together, from the stored cursor: the tables stay the events up to the cursor, and with everything committed they hold all the reader saw |
| `Indexer.Lives` | indexer/src/main.rs:71-115 | the same over any number of crashes and restarts on the growing ledger |
| `Census.UpIsLevel` | helpers/merkletree.ts:26-32 | one level up of a level of the padded tree is the next level |
| `Census.FoldLevel` | helpers/merkletree.ts:26-32 | folding in place over the level being read gives the level above |
| `Census.Defaults` | helpers/merkletree.ts:12-16 | the default of each level is the root of an empty subtree |
| `Census.GetMerkleRoot` | helpers/merkletree.ts:5-36 | the root of the perfect tree padded with the default leaf |
| `Census.SmallTrees` | helpers/merkletree.ts:12-31 | the roots of one and of two leaves at depth one: the missing leaf is the Poseidon hash of zero |
| `Census.GetMerkleProof` | helpers/merkletree.ts:38-80 | the root and path of a leaf: the path passes the circuit, its turns are the binary digits of the index, and the root is the tree's |
| `Census.InclusionSound` | circom/MerkleTreeInclusionProof.circom:12-28 | any path the circuit accepts for the root names the leaf really at the position its bits encode |
| `Census.CensusManager.TakeLeaves` | indexer/src/census_manager.rs:122-132 | whole leaves are taken off the buffer in order and stored in batches of ten thousand, the rest kept |
| `Census.CensusManager.Consume` | indexer/src/census_manager.rs:115-132 | a chunk is refused exactly when the leaves stored and the whole leaves waiting exceed the expected number, and then changes nothing |
| `Census.CensusManager.Stream` | indexer/src/census_manager.rs:115-132 | the stream stops at the first chunk refused, with exactly the whole batches before it stored; without one all its whole leaves are stored or waiting |
| `Census.RefusedAtOnce` | indexer/src/census_manager.rs:117-121 | a first chunk with more whole leaves than expected is refused before anything is stored |
| `Census.CensusManager.Ingest` | indexer/src/census_manager.rs:72-161 | the verdict depends on the bytes alone, however cut: valid exactly for the expected number of whole leaves; all are stored unless a chunk was refused or bytes were left over, and then exactly the whole batches before that; a valid census is left alone |

The relations and steps these speak of are functions without contracts of their own:
`TallyCircuit.TallySingle` and `TallyCircuit.Tally` (circom/Tally.circom:12-202), `Relay.Circuit`
(circom/Relay.circom:12-98), `SmtCircuit.SmtVerifier` and `SmtCircuit.SmtProcessor`,
`MootVote.Vote`, `MootVote.TallyBatch` and `MootVote.FinishTally`
(programs/mootvote/src/instructions), `LogParser.HandleLine` (indexer/src/parse_logs.rs:43-148),
`LogParser.TsNext` (ts-sdk/src/events.ts:42-60), `Indexer.OnEvent` (indexer/src/db.rs:93-199) and
`Census.Inclusion` (circom/MerkleTreeInclusionProof.circom:12-28). `TallyCircuit.VoteStep`,
`Relay.QuotaOf`, `Relay.Uses`, `Canonical.Canon` and `Census.TreeAt` are the reference definitions
they are proved against.

## Left out

- The field: the nullifier's halves, comparisons and relay counts are computed modulo the field; the
  tally's counts are integers, which lie between zero and the number of votes
  (`TallyCircuit.CastsCounted`, `TallyCircuit.CountsBounded`) and so never reach the modulus. Poseidon
  is free of collisions by construction.
- circomlib's `SMTVerifier` and `SMTProcessor`, and the page's JavaScript tree library, are not part
  of this model: the gadgets are taken as the fold, insert and change relations when their flags are
  bits, and as no constraint at all when not, whatever more they may check. A width of 64 bits for their keys, which the comment at circom/Tally.circom:153 relies on, is
  not assumed. The page uses the same tree as the other clients.
- Decryption: a fixed function of the message. That no other secret key decrypts a message is the
  cipher's integrity check, which is not part of this model.
- Vote.circom but for its comparison of the choice, the signature scheme, key agreement and the cipher.
- Byte layouts: a node record is a tag and two words, a state's prefix and a node's hash are a pair.
  Store and database errors are left out.
- Integer widths of fees, counts and times, except the checked products of the deposit. A platform
  fee raised after a poll's creation is outside the solvency result.
- A vote paid by the voter moves fees that never touch the deposit; only relayed votes are modelled in `Deposit`.
- Relayer.Backend.RelayInner: a transaction that lands after the relayer saw a failure, and a crash of
  the relayer between its send and its database write, are left out (the original marks both as open);
  requests of one state are serialized by its lock. The exact outcome is stated for clear keys: not
  zero, and different in their low 63 bits.
- TallyClient.Page.TallyPoll: every send that returns is taken to land, which the page does not wait
  for; `OnTallyNext` says what happens otherwise.
- The page's cursor into the vote list is a count of votes instead of a row number, and the page's
  clock, wallet, browser storage and rendering are left out. Its finish button is enabled one second
  earlier than the program accepts (`>=` at frontend/src/components/Tally.tsx:491-492 against `>` at
  programs/mootvote/src/instructions/finish_tally.rs:33).
- Poll fields that decide nothing here (URLs, keys, census root), account addresses, rent beyond one constant.
- RPC, SQL and HTTP are sequences, maps and functions. A signature is its transaction's position in
  the ledger; a transaction once confirmed stays. Retries, concurrency of block fetches and the
  sleeping of the poll loop are left out.
- LogParser.ParseInvertsPrint: speaks of successful calls, of native programs too; a failed
  transaction's logs are never parsed by the indexer.
- Indexer.EveryRun: a transaction whose logs make the parser panic (the line "Program success",
  `LogParser.EndExact`) is never processed, so nothing after it is; database failures are crashes.
- Census.CensusManager.Ingest: a stream that fails part-way is not modelled; the duplicate-leaf rule of the table is a set.
- Census.GetMerkleProof: indices are unbounded; JavaScript's 32-bit shifts are not modelled.
- TallyClient.Page.NextBatch: that a batch is always proved is stated for indices that are not zero and
  differ in their low 63 bits, and then exactly for votes that fit; what happens to a batch of other
  indices is only "refused, or right". The conditions of the tree and of its proofs beneath it are exact.
- Administration instructions, poll descriptions, census membership queries and key storage.
