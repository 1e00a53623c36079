# FARE: shielded pool client, note tree, mailbox and tickets, verified

A Dafny model of the client-side machinery of FARE, a food-delivery protocol with
shielded payments: the Merkle paths of the Kusama Shield pool and of the vault's note
tree, the arithmetic and bookkeeping of note values, the order mailbox with the thread
client that polls it, and the pricing that binds an order ticket to its escrow.

Code that updates state in place is modelled in place (arrays for side nodes, classes for
`NoteTree`, `OrderThread`, the note store, the mailbox endpoint and the log scanner) and
tied to functions; the theorems are about those functions, over every input and every run.

| file | models |
|---|---|
| `LeanImt.dfy` | the pool's tree, three ways: recursive, incremental, layer by layer |
| `ShieldPool.dfy` | snapshots, batch replay, the rebuilt right half, stitching |
| `PathRebuild.dfy` | anchoring a scan on the note's commitment, the self-check |
| `LogScan.dfy` | the log scan that splits failing ranges, and `reconstructPath` as a whole |
| `ShieldNotes.dfy` | the memoised 2^16-leaf note tree, its paths and its cost |
| `VaultTree.dfy` | the vault contract's own incremental insert, which the client must match |
| `Denominations.dfy` | `decompose` and `cover` |
| `Price.dfy` | the two rounded conversions of a quote |
| `AssetIds.dfy` | asset id to precompile address text and back |
| `NoteWallet.dfy` | the note store, funding a burner, topping up |
| `Mailbox.dfy` | the bounded message thread behind `/api/msg` |
| `OrderChannel.dfy` | the polling reader of an order thread |
| `Menus.dfy`, `Tickets.dfy` | the cart, the two pricers, the choice of a ticket |
| `TicketMail.dfy` | tickets on their way through the mailbox |
| `Poseidon.dfy`, `Powers.dfy`, `Sorting.dfy`, `Text.dfy`, `Wrappers.dfy` | shared definitions |

What stands for what:

- Poseidon is a free term algebra: plain numbers and `Node(l, r)`. Equal hashes have equal
  inputs and no hash is 0. The pool client reads 0 as "no sibling", so inserted leaves are
  taken to be non-zero. The pool's tree depth is a parameter of the lemmas; the code's 128
  is `ShieldPool.DEPTH`.
- Key derivation, sealing, opening, signature recovery and JSON parsing are arbitrary
  functions that may fail (`OrderChannel.Crypto`, `Tickets.Opener`), and so is `parseEther`
  (`Menus.Parser`): the results hold for every choice of them. `None` is a call that throws.
- Which provider requests fail is an arbitrary function of the request's number and range.
- A thrown error is `None` or an `Err`; an HTTP answer is its status and messages.
- `{:induction false}` stands wherever Dafny would otherwise add induction hypotheses of its
  own, so that every induction is the one written out.

Where the code and its comments part, the model follows the code:

- web/src/shieldpool.ts:126-127 says that the captured side nodes never change afterwards.
  The captured values stay the right left siblings in every later tree
  (`LeanImt.CapturedForever`), but the storage slots are reused: `ShieldPool.SlotIsReused`
  shows one, `ShieldPool.SlotKeptExactly` says up to which insert a slot survives.
- web/src/shield.ts:195 records a change note with the block that is current after the
  relay answered, where a deposit steps back from its receipt
  (web/src/shieldpool.ts:130-136). `LogScan.FoundExactly` proves that a record finds its
  note if and only if its starting block is no later than the note's own;
  `LogScan.LateRecordLost` is a note recorded one block too late.
- web/src/shieldpool.ts:204 halves `from + to` with a 32-bit shift. `LogScan.SplitsExactly`
  proves that every split of a range falls inside it if and only if the range ends at 2^30
  or before; that bound is the one precondition of the scan.
- web/src/denominations.ts:51 calls what `cover` finds the smallest combination. Its total
  is the smallest (`Denominations.CoverCheapest`); its number of notes is not always
  (`CoverNotFewest`), and `CoverFewestExactly` says when it is. The divisibility
  that the comment on `decompose` asks for is enough; `GreedyCanWaste` shows what can happen
  on a ladder without it.
- Given more than 2^16 leaves the client still answers a note beyond them with a path and a
  root, which no verifier accepts: `ShieldNotes.WitnessExact`. The vault's events never list
  that many, because the vault refuses to insert into a full tree (`VaultTree.InsertLeaf`).
- `shieldpool.precompileFor` accepts ids up to 2^64 - 1, `assetIdOf` reads back those below
  2^32 only: `AssetIds.OutOfRange`. It also reads ids out of texts with white space in place
  of the last digits, because `BigInt` trims it: `AssetIds.SpacedText`.
- A quote with a zero rate makes `nativeToToken` answer 0, which is then not enough for any
  positive amount: `Price.AdjointExactly`.
- web/functions/api/msg.ts:9 and :80 call (from, seq) the identity of a message; the code
  compares the kind as well. A repost that lowers its timestamp can make the capped thread
  keep an older message than one it dropped: `Mailbox.LoweredTimestamp` is a run that
  does, `Mailbox.PostKeepsNewestExactly` has the exact condition.
- Line keys tell configurations apart while ids hold no separator (`Menus.KeyIdentifies`); a
  separator can make two of them collide (`Menus.SeparatorsCollide`), and
  `Menus.KeysEqualExactly` says when.
- web/src/ticket.ts:143-146 says that an open mailbox is fine. A payload that is the JSON
  text `null`, or whose order id or time cannot be converted, makes the selection loop throw
  (lines 158 and 167), and an honest ticket behind it is not seen: `Tickets.NullHidesHonest`.
  `Tickets.BoundExactly` says exactly when a bound ticket is returned.
- A plain hello has the identity of one that carried a signed commitment and replaces it in
  the mailbox. `send` posts one before the peer's key is known (web/src/channel.ts:239-240),
  after which no reader learns the commitment until the peer signs anew:
  `OrderChannel.SendForgetsCommitment`.
- A new `OrderThread` counts its chats from 0 again (web/src/channel.ts:187). Its k-th chat
  replaces the k-th of the object before it (`OrderChannel.RestartReplaces`), and a reader
  that has handled that number never returns the new one (`OrderChannel.HandledNeverReturned`).
- The comment above `ticketSeq` (web/src/channel.ts:120-132) says that a fixed number would let
  anyone erase a ticket. A number derived from the content can be posted by anyone too:
  `TicketMail.TicketKeptExactly` says when a ticket survives, `TicketMail.NumbersCollide` gives
  texts that share a number.
- web/functions/api/msg.ts:71 destructures the body outside the `try`: a body of `null` makes
  the handler throw.

## Model

| member | source | states |
|---|---|---|
| LeanImt.FoldSiblings | web/src/shieldpool.ts:256-261 | the self-check's fold of a leaf with its siblings, bit by bit and skipping 0, gives the tree's root, for every leaf set, position and depth |
| LeanImt.InsertStep | web/src/shieldpool.ts:192-196 | if the side nodes at the set bits of the index are the roots of the complete blocks to its left, one insert ends with the root of the enlarged tree and leaves the side nodes right for the next index |
| LeanImt.SideInvariant | web/src/shieldpool.ts:185-198 | over every insertion history the side nodes at the set bits of the next index are the roots of the complete left sibling blocks |
| LeanImt.LiveRootIsRoot | web/src/shieldpool.ts:192-218 | the node the last insert ends with equals the recursive root with lone-child promotion: the incremental tree refines the recursive one |
| LeanImt.CapturedForever | web/src/shieldpool.ts:126-129 | a side node captured at a set bit of the leaf's index is that leaf's left sibling in every larger tree |
| LeanImt.LayersAgree | web/src/shieldpool.test.ts:22-33 | hashing neighbours layer by layer, with a last odd node promoted, gives the same root and the same sibling list per leaf as the recursive tree |
| LeanImt.SmallRoots | web/src/shieldpool.ts:216-217 | two leaves hash left to right, a third is promoted until it has a sibling |
| ShieldPool.CommitmentBinds | web/src/shieldpool.ts:85-101 | two notes have one commitment if and only if value, asset (an omitted one being native, which is 0), nullifier and secret are all equal |
| ShieldPool.CommitmentOf | web/src/shieldpool.ts:100-101 | where value, asset, nullifier and secret stand in the leaf |
| ShieldPool.CaptureSnapshot | web/src/shieldpool.ts:128-129 | the snapshot holds exactly the levels where the index has a set bit, each with its side node |
| ShieldPool.InsertLeaf | web/src/shieldpool.ts:192-196 | the in-place replay of one insert: the new side nodes and the final node are those of the pool's insert, which `InsertStep` relates to the tree |
| ShieldPool.BatchNotePaths | web/src/shieldpool.ts:179-199 | every member of a batch gets the index and the snapshot of the side nodes as the members before it left them; missing published levels read as 0 |
| ShieldPool.BatchSplits | web/src/shieldpool.ts:185-198 | a batch a ++ b is a, then b from the side nodes a leaves behind |
| ShieldPool.BatchMember | web/src/shieldpool.ts:185-198 | the path of member k is its snapshot of the side nodes after the first k members |
| ShieldPool.BatchFollowsPool | web/src/shieldpool.ts:174-183 | replaying a batch over the pool's side nodes before it gives the pool's side nodes after it |
| ShieldPool.OwnReadLocated | web/src/shieldpool.ts:126-129 | reading the side nodes after one's own insert (a deposit, or a change note that is the last leaf) gives the snapshot from before it: an insert never writes its bit-set levels |
| ShieldPool.BatchLocated | web/src/shieldpool.ts:166-199 | every batch member gets the path it would have got if deposited alone and read just after its own insert |
| ShieldPool.PublishedLocated | web/src/shieldpool.ts:166-199 | from a published record of the side nodes before a batch, in which zeros may be left out, every member gets the path it would have got alone |
| ShieldPool.FirstOfBatch | web/src/shieldpool.ts:182-190 | the first member's snapshot is the published nodes at the set bits of its index, 0 for those that are absent |
| ShieldPool.PublishedValidForever | web/src/shieldpool.ts:166-231 | such a path, with the leaves from the member's own on, folds to the root the pool publishes, whatever was inserted since |
| ShieldPool.SlotKeptExactly | web/src/shieldpool.ts:126-127 | no insert from i up to m writes level lv if and only if m has not passed the end of i's block: the comment's "never change afterwards" is false of the slot |
| ShieldPool.SlotIsReused | web/src/shieldpool.ts:126-129 | with three leaves, the slot that the note at index 1 captured holds another value |
| ShieldPool.SubtreeRootIsRoot | web/src/shieldpool.ts:210-218 | on a sparse map that knows every leaf from some index on, the recursion gives the tree's root of the block, and nothing past the last leaf |
| ShieldPool.SubtreeFound | web/src/shieldpool.ts:210-218 | on any sparse map a subtree is found if and only if its first slot is known and not past the last leaf: a lone right child is not promoted |
| ShieldPool.AuthPath | web/src/shieldpool.ts:221-231 | 128 siblings: the snapshot at set bits, the rebuilt block root at clear bits, 0 where there is none |
| ShieldPool.RightSiblings | web/src/shieldpool.ts:225-228 | at every clear bit the block root rebuilt from the leaves after the note is its sibling in the tree of all leaves |
| ShieldPool.StitchedPath | web/src/shieldpool.ts:221-231 | snapshot plus later leaves give the leaf's siblings in the tree of all leaves, with no earlier leaf known |
| ShieldPool.SnapshotValidForever | web/src/shieldpool.ts:220-231 | for every insertion history, index and later size the stitched path folds to the root the pool publishes |
| PathRebuild.Anchor | web/src/shieldpool.ts:246-252 | leaves before the first one equal to the commitment are dropped, the rest are numbered from the note's index without gaps; anchored if and only if the commitment was scanned |
| PathRebuild.AnchorsExactly | web/src/shieldpool.ts:245-253 | a scan of notes' leaves anchors if and only if one of them agrees with the record in value, asset, nullifier and secret |
| PathRebuild.CheckedPath | web/src/shieldpool.ts:245-264 | anchoring, path and self-check together: the siblings, or not found, or a root mismatch |
| PathRebuild.PathFromSuffix | web/src/shieldpool.ts:246-261 | from a scan that starts at the note, the path is the leaf's siblings and folds to the root, whatever precedes the note |
| PathRebuild.RootInjective | web/src/shieldpool.ts:210-218 | leaf sequences of any two lengths with one root are one sequence, when the leaves have the shape of commitments |
| PathRebuild.SuffixBound | web/src/shieldpool.ts:210-218 | behind the same arbitrary leaves the root binds all later commitments, number and order |
| PathRebuild.SelfCheckExact | web/src/shieldpool.ts:246-263 | the self-check passes if and only if the scan from its first match on is exactly the leaves from the note's own to the last, nothing missing, added or swapped; the answer is "not found" if and only if nothing matches |
| PathRebuild.ScanComplete | web/src/shieldpool.ts:244-264 | a scan with extra earlier leaves that are not its commitment recovers the leaf's siblings and passes the self-check |
| LogScan.SplitsExactly | web/src/shieldpool.ts:204 | the 32-bit midpoint falls inside every range that ends at `to` if and only if `to` is at most 2^30 |
| LogScan.ChainOrder | web/src/shieldpool.ts:244 | in the order of the scan blocks never fall, and within a block log indices rise |
| LogScan.InRangeSplits | web/src/shieldpool.ts:204 | the logs of a range are those of its first half followed by those of its second |
| LogScan.Scanner.GetLogsSafe | web/src/shieldpool.ts:202-205 | for every pattern of failures: either all logs of the range are appended exactly once and in order, or the last request asked for a single block of the range (the range itself if empty), failed, and everything before that block was appended; at most 2 (to - from) + 1 requests |
| LogScan.SortMerges | web/src/shieldpool.ts:241-244 | sorting the deposit logs followed by the commitment logs gives the chain's own order |
| LogScan.Scanner.ReconstructPath | web/src/shieldpool.ts:235-265 | the whole function gives what anchoring and self-check give on the leaves of the block range in chain order, or throws because a request for a single block of the range failed |
| LogScan.ScanIsSuffix | web/src/shieldpool.ts:239-244 | a scan up to the present is a suffix of the history that starts at or before any log of its starting block or later |
| LogScan.BoundedScanSuffices | web/src/shieldpool.ts:233-265 | from its deposit block on, with no earlier event, a note gets the siblings of its leaf and passes the self-check against the live root |
| LogScan.FoundExactly | web/src/shieldpool.ts:130-136 | a record finds its note if and only if its scan starts no later than the note's block; otherwise the commitment is not found |
| LogScan.LateRecordLost | web/src/shield.ts:195 | a pool with one leaf: a record that starts at the leaf's block finds it, one that starts a block later does not |
| ShieldNotes.ZeroHashes | web/src/shieldnote.ts:93-97 | entry l is the root of the empty tree of height l, for every l up to the depth |
| ShieldNotes.SmallFull | web/src/shieldnote.ts:112 | leaves hash left to right, with 0 in empty slots |
| ShieldNotes.EmptySubtree | web/src/shieldnote.ts:107 | a subtree that starts past the last leaf has the zero root of its level: the short cut is sound |
| ShieldNotes.InternalCount | web/src/shieldnote.ts:99-115 | any set of distinct non-empty internal nodes up to level l has at most the sum of ceil(n / 2^k), k = 1..l, which is at most n + l |
| ShieldNotes.NonEmpty | web/src/shieldnote.ts:107 | a node of level l is non-empty if and only if its index is below ceil(n / 2^l) |
| ShieldNotes.NoteTree.constructor | web/src/shieldnote.ts:101-104 | a new tree has an empty memo, right zero roots, and no hash counted |
| ShieldNotes.NoteTree.NodeAt | web/src/shieldnote.ts:106-115 | with memo and short cut, the value of the node in the full zero-padded tree; every memo entry stays right and hashes counted equal entries made |
| ShieldNotes.NoteTree.Root | web/src/shieldnote.ts:117-119 | after any calls, the root of the full tree, and at most n + 16 hashes made by all calls so far |
| ShieldNotes.NoteTree.PathTo | web/src/shieldnote.ts:123-133 | after any calls, for any index, the sibling and the turn at every level of the full tree, and at most n + 16 hashes made by all calls so far |
| ShieldNotes.PathFolds | web/src/shieldnote.ts:121-133 | folding any slot's value, empty ones included, with its path gives its ancestor at every level |
| ShieldNotes.PathProvesRoot | circuits/shieldnote.circom:37-60 | for every index below 2^16 the circuit's fold of the slot with its path is the root |
| ShieldNotes.FoldBinds | circuits/shieldnote.circom:48-59 | along given turns, a fold determines the leaf and every sibling |
| ShieldNotes.RootBinds | circuits/shieldnote.circom:37-60 | a value and 16 siblings fold to the root along an index's turns if and only if they are that slot's value and its path |
| ShieldNotes.ProveSpend | web/src/shieldnote.ts:177-186 | the first index of the commitment, its path and the root; nothing if and only if the commitment is not a leaf |
| ShieldNotes.LateWitness | web/src/shieldnote.ts:177-186 | past 2^16 leaves a path can fold to the root only for a value that is already an earlier leaf |
| ShieldNotes.WitnessExact | web/src/shieldnote.ts:174-186 | the witness satisfies the circuit's Merkle check if and only if the note is among the first 2^16 leaves |
| VaultTree.InsertLeaf | contracts/FareVault.sol:648-673 | the contract's insert: new cache and new root, or a revert without change when the tree is full |
| VaultTree.FillStep | contracts/FareVault.sol:653-668 | if the cached left siblings are right, the insert hashes up to the root of the enlarged padded tree and leaves the cache right |
| VaultTree.FilledInvariant | contracts/FareVault.sol:256-268 | from any initial cache, the cached values that later inserts read are the left siblings: the warm-up writes are never read |
| VaultTree.FullIsPadded | web/src/shieldnote.ts:99-115 | the client's tree by slots is the padded tree split at its middle |
| VaultTree.ClientMatchesVault | contracts/FareVault.sol:646-673 | after any up to 2^16 inserts the vault's root is the client's root |
| Denominations.Decompose | web/src/denominations.ts:39-49 | terminates on positive rungs with the greedy choice over the rungs in descending order; rungs plus residue is the amount |
| Denominations.GreedyAgain | web/src/denominations.ts:36-49 | decomposing what was taken takes the same rungs again |
| Denominations.AddCoin | web/src/denominations.ts:36-38 | on a divisibility chain one more coin raises the greedy count by at most one |
| Denominations.GreedyFewest | web/src/denominations.ts:36-38 | on a divisibility chain no multiset of rungs reaches its total with fewer notes than greedy |
| Denominations.DecomposeOptimal | web/src/denominations.ts:36-49 | rungs come from the ladder, the residue is not negative and below the smallest rung, no multiset fits a larger total, none has this total in fewer notes |
| Denominations.GreedyCanWaste | web/src/denominations.ts:37-38 | on the ladder 1, 3, 4, whose rungs do not divide, greedy needs more notes than another plan |
| Denominations.Cover | web/src/denominations.ts:54-63 | nothing for amounts not above 0, an exception on an empty ladder, else greedy plus one smallest rung if it falls short, with overshoot = total - amount |
| Denominations.CoverCheapest | web/src/denominations.ts:51-63 | on a divisibility chain it reaches the amount, overshoots by less than the smallest rung, and no plan that reaches the amount has a smaller total |
| Denominations.CoverFewestExactly | web/src/denominations.ts:51-63 | it uses the fewest notes for its total if and only if the amount is a multiple of the smallest rung or no larger rung divides that total |
| Denominations.PlansDescend | web/src/denominations.ts:34-62 | both ways of cutting an amount list the biggest rungs first |
| Denominations.CoverNotFewest | web/src/denominations.ts:51-63 | 4.9 over rungs 1 and 5 takes five notes where one has the same total |
| Denominations.AddSmallest | web/src/denominations.ts:58-61 | one more smallest rung costs a note unless a larger rung divides the new total |
| Price.Adjoint | web/src/price.ts:74-87 | for positive rates, t token units are enough for w wei if and only if they convert back to at least w |
| Price.AdjointExactly | web/src/price.ts:86 | with the zero-rate guard that equivalence holds if and only if the rate is positive or w is 0 |
| Price.NeededAmount | web/src/price.ts:79-87 | the rounded-up amount converts back to at least w, one unit less does not, and the excess is at most the worth of one unit |
| Price.WholeToken | web/src/price.ts:74-77 | one whole token is worth its rate in whole native coins of 10^18 wei, rounded down, whatever its decimals |
| Price.Scales | web/src/price.ts:75-76 | the unit of six decimals is a million, of eighteen 10^18 |
| AssetIds.OrDisjoint | web/src/shieldpool.ts:98 | OR-ing a shifted number with one below the shift is adding them |
| AssetIds.PrintedForm | web/src/shield.ts:258 | the address printed for an id below 2^32 is its 8 digits, 24 zeros and the marker |
| AssetIds.PrintThenParse | web/src/token.ts:75-81 | printing and parsing is the identity on ids from 1 to 2^32 - 1 |
| AssetIds.OutOfRange | web/src/token.ts:75-81 | id 0 and ids from 2^32 to 2^64 - 1 parse to no id |
| AssetIds.ParseThenPrint | web/src/token.ts:75-81 | a text that parses to an id has 40 characters after lower-casing and dropping the prefix, and is then what that id prints if and only if its first eight are digits; the id is between 1 and 2^32 - 1 |
| AssetIds.SpacedText | web/src/token.ts:79 | seven digits and a space parse to an id that prints another text |
| AssetIds.NotANumber | web/src/token.ts:77-80 | before the zeros and the marker, eight characters make the conversion throw if and only if no number is left after trimming |
| AssetIds.PrefixAndCase | web/src/token.ts:76 | the prefix may be left out and letters may be of either case |
| AssetIds.SpacesExactly | web/src/token.ts:79 | the white space and line ends that `BigInt` trims |
| NoteWallet.PickIsLeast | web/src/shield.ts:102-119 | the pick is an unspent note of the asset, sufficient, and of least value among those; there is none if and only if none suffices |
| NoteWallet.BalanceAfterPush | web/src/shield.ts:94 | storing a note adds its value to the balance of its own asset and to no other |
| NoteWallet.BalanceAfterSpend | web/src/shield.ts:95 | marking a note spent takes its value out of its own asset's balance and out of no other |
| NoteWallet.MarkedExactly | web/src/shield.ts:95 | marking spends the notes with that nullifier and changes no other note and no other field |
| NoteWallet.NoteStore.AdoptShieldedNote | web/src/shield.ts:138-141 | stored unless a note with that nullifier is known, in which case nothing changes |
| NoteWallet.AdoptsOnce | web/src/shield.ts:138-141 | a note is added if and only if none with its nullifier is stored, and adopting twice is adopting once |
| NoteWallet.NoteStore.FundBurner | web/src/shield.ts:171-208 | which error or amount each sequence of relay answers leads to, and the store after it; what is withdrawn exceeds the amount by the fee, if there is one; only an evicted root is retried, three times in all; a balance that cannot be read is an error with the note already spent |
| NoteWallet.ChangeRecorded | web/src/shield.ts:193-196 | the change of an accepted and recorded funding is the store's last note: its leaf holds what is left of the value, native, under the new nullifier and secret, with the recorded path and block; before it the old notes with the spent one marked |
| NoteWallet.NoChangeRecorded | web/src/shield.ts:193-196 | without change, or when it could not be recorded, the store only marks the note spent |
| NoteWallet.RecordedIsSpendable | web/src/shieldpool.ts:233-265 | a stored note whose path is located at its leaf is found by a scan from its block on, if that is not later than the leaf's, with the siblings of the leaf |
| NoteWallet.SpendConserves | web/src/shield.ts:193-196 | a withdrawal with its change note takes exactly the withdrawn value out of the native balance (the whole note if the change could not be recorded) and nothing out of any other |
| NoteWallet.FundingConserves | web/src/shield.ts:171-208 | one funding, whatever the relay answers, moves exactly its outflow out of the native balance and keeps nullifiers distinct |
| NoteWallet.BalanceConserved | web/src/shield.ts:92-141 | over every run of deposits, adoptions and fundings with fresh nullifiers each asset's balance is value in minus value out |
| NoteWallet.NoteStore.TopUpShielded | web/src/shield.ts:246-272 | which outcome every input has: nothing to do, an id too large, a failed approval, id 0, a failed deposit exactly if fewer deposits go through than there are rungs, else success with deposited = amount + overshoot and overshoot below the smallest rung; one note is stored for each rung deposited, with the leaf, path and block of its deposit; the asset's balance grows by those rungs, all other balances stay |
| NoteWallet.LaddersExactly | web/src/denominations.ts:24-32 | the native ladder is 1 and 5 coins of 10^18 wei, the other the five rungs of six decimals |
| NoteWallet.AddressExactly | web/src/shieldpool.ts:85-99 | the notes of an asset carry its precompile address, id * 2^128 + 0x01200000 |
| Mailbox.Relay.OnRequestPost | web/functions/api/msg.ts:62-88 | status 503, 400, 413 or 200 in the source's order of checks, or a throw exactly on a body of `null`; only 200 changes the store, and only the topic's thread |
| Mailbox.Relay.OnRequestGet | web/functions/api/msg.ts:50-60 | status, and the topic's messages newer than `since` |
| Mailbox.TopicExactly | web/functions/api/msg.ts:40 | a topic is accepted if and only if it is "0x" and 64 hexadecimal digits of either case |
| Mailbox.SinceIsSuffix | web/functions/api/msg.ts:59 | of a sorted thread the reader is given the part newer than `since`, whole and in order |
| Mailbox.PlacedHolds | web/functions/api/msg.ts:81-84 | before the cut: sorted, one envelope per identity, the post itself and exactly the envelopes of other identities |
| Mailbox.PostValid | web/functions/api/msg.ts:81-85 | a post keeps one envelope per identity, the order by timestamp, and at most 200 |
| Mailbox.SortAppend | web/functions/api/msg.ts:83-84 | a new envelope lands after all that are not younger, ties included, and moves no other |
| Mailbox.RepostHeld | web/functions/api/msg.ts:80-85 | posting what the thread holds changes nothing |
| Mailbox.DroppedAtOnce | web/functions/api/msg.ts:83-85 | a post is dropped at once only by a full thread that is younger throughout, which stays as it was |
| Mailbox.PostTwice | web/functions/api/msg.ts:80-86 | posting twice in a row is posting once, also when the cap drops the post and when it ties |
| Mailbox.PostKeepsNewestExactly | web/functions/api/msg.ts:80-85 | one post keeps the thread a selection of the newest of the unbounded log if and only if a repost is no older than any post the thread lacks |
| Mailbox.LoweredTimestamp | web/functions/api/msg.ts:80-85 | 201 chats and a repost of the last with timestamp 0: the thread no longer holds the newest, though it did before the repost |
| Mailbox.RunKeepsNewest | web/functions/api/msg.ts:78-86 | over every run in which reposts never lower `ts`, the thread holds latest posts only, and a missing one means a full thread that holds nothing older |
| Mailbox.RunValid | web/functions/api/msg.ts:78-86 | over every run of posts with integer timestamps: one envelope per identity, sorted, at most 200, and nothing that was not posted |
| Mailbox.NothingLost | web/functions/api/msg.ts:78-86 | while at most 200 identities were posted, the thread is exactly the latest post of each, even if timestamps fall |
| Mailbox.HeldIsLatest | web/functions/api/msg.ts:80-85 | over every run, even if timestamps fall, what the thread holds is the latest post of its identity |
| Mailbox.YoungIsHeld | web/functions/api/msg.ts:78-86 | over every run in which reposts never lower `ts`, a latest post is held if at most 200 latest posts, its own included, are as young |
| Mailbox.LooseRunValid | web/functions/api/msg.ts:73-86 | over every run in which some envelopes carry no number for a timestamp, and the sort may then leave any arrangement: still one envelope per identity, at most 200, nothing that was not posted |
| Mailbox.LooseRunSorted | web/functions/api/msg.ts:81-85 | in such a run, once all that are held and posted carry a number, the thread is sorted and is what the exact model says |
| Mailbox.OneLocationPerSender | web/src/channel.ts:250-262 | with locations sent under sequence number 0, no reachable thread holds two of one sender |
| OrderChannel.OrderThread.AdoptPeer | web/src/channel.ts:311-330 | the loop adopts the first key that derives to the peer and the first commitment signed by it |
| OrderChannel.OrderThread.ReadChats | web/src/channel.ts:332-350 | which chats are opened and returned, and which ids are remembered |
| OrderChannel.OrderThread.SurfaceLocation | web/src/channel.ts:352-369 | the watermark and the listener's calls after the pass; `LocationSurfaced` and `NoLocationSurfaced` say what they are |
| OrderChannel.OrderThread.Poll | web/src/channel.ts:308-369 | one poll's new state and messages as a function of the old state and the thread; `OneHello`, `AdoptsExactly`, `ReturnedInOrder`, `HandledExactly`, `LocationSurfaced` and `NoLocationSurfaced` say what they are |
| OrderChannel.OrderThread.Open | web/src/channel.ts:214-223 | one identity for every announcement; with a commitment it carries it signed, without one (or an empty one) it is the plain hello |
| OrderChannel.OrderThread.Send | web/src/channel.ts:238-248 | without the peer's key a hello and an error; with it the sealed chat under the next sequence number |
| OrderChannel.OrderThread.SendLoc | web/src/channel.ts:254-262 | without the peer's key the plain hello; with it the sealed location under sequence number 0 |
| OrderChannel.AtMostOnce | web/src/channel.ts:332-350 | over every run of polls on any threads no chat id is returned twice |
| OrderChannel.UnreadKept | web/src/channel.ts:337-342 | over every run, while the peer's key is unknown no id of the peer is marked as handled |
| OrderChannel.EarlyMessageReturned | web/src/channel.ts:342 | a message met before the peer's key is known is returned by the first poll that has the key and still sees it, if it opens |
| OrderChannel.ReadsFirst | web/src/channel.ts:334-350 | the first openable chat of an id not yet handled is returned |
| OrderChannel.ReturnedInOrder | web/src/channel.ts:333-350 | what reading returns are sealed chats of the peer that opened, each with its own sender, text and time, in the thread's order |
| OrderChannel.HandledExactly | web/src/channel.ts:334-349 | an id is marked as handled if and only if it was, or some chat of the thread has it that is not the peer's, or is sealed and the key is known, whether it opens or not |
| OrderChannel.AdoptsExactly | web/src/channel.ts:315-325 | a key is adopted if and only if some hello in the thread carries one that derives to the peer |
| OrderChannel.OneHello | web/src/channel.ts:317-324 | from one hello a key is adopted if and only if it is not empty and derives to the peer, and a commitment if and only if moreover it is not empty and was signed by the peer |
| OrderChannel.AdoptsFirstKey | web/src/channel.ts:316-320 | of several keys that derive to the peer the first in the thread is adopted |
| OrderChannel.AdoptsFirstCommit | web/src/channel.ts:321-324 | of several signed commitments the first in the thread is adopted |
| Text.CaseBlind | web/src/channel.ts:319-323 | comparing lower-cased texts forgets the case of letters and nothing else |
| OrderChannel.AdoptsCommitExactly | web/src/channel.ts:315-325 | a commitment is adopted if and only if some hello in the thread carries one signed by the peer, whether or not the key was known |
| OrderChannel.CommitSeenExactly | web/src/channel.ts:309-325 | after any run of posts, a reader without a commitment adopts one if and only if a signed hello of the peer is still in the thread |
| OrderChannel.LatestCommitSeenExactly | web/src/channel.ts:309-325 | while at most 200 identities were posted: if and only if the latest post of some identity is a signed hello of the peer |
| OrderChannel.PlainHelloReplaces | web/functions/api/msg.ts:80-83 | right after a plain hello, only a signed hello of another identity can give a commitment |
| OrderChannel.SendForgetsCommitment | web/src/channel.ts:214-241 | the peer opens with a commitment and then posts a plain hello: a reader that polls in between adopts the commitment, one that first polls later never does until the peer signs anew |
| OrderChannel.KeysAuthentic | web/src/channel.ts:311-330 | over every run the adopted key derives to the peer's address and the adopted commitment was signed by it |
| OrderChannel.KeysFixed | web/src/channel.ts:315-325 | over every run a key or commitment once set never changes |
| OrderChannel.LocationsRise | web/src/channel.ts:352-369 | over every run the listener is called with strictly increasing timestamps |
| OrderChannel.LocationSurfaced | web/src/channel.ts:353-369 | once the key is known, a sealed location of the peer above the watermark moves it to the newest such, the first of equals, and the listener is called exactly if that one opens and parses, with its two numbers in order and its timestamp |
| OrderChannel.NoLocationSurfaced | web/src/channel.ts:353-360 | without a listener, a key or such a location, nothing happens |
| OrderChannel.SentLocationReached | web/src/channel.ts:254-369 | a location that was sent reaches the listener, if the reader's key opens what was sealed and no other of the peer's is as new |
| OrderChannel.NewestIsNewest | web/src/channel.ts:354-359 | the location chosen is one of the peer's and none of the peer's is newer |
| OrderChannel.ChatReachesReader | web/src/channel.ts:308-350 | end to end: a chat that is its identity's latest post is returned by the next poll of a reader with the key that has not handled its id, if at most 200 identities were posted, or if reposts never lowered `ts` and at most 200 latest posts, its own included, are as young |
| OrderChannel.SentChatReturned | web/src/channel.ts:238-350 | a chat that was sent is returned by the next poll with its text, number and time, if the reader's key opens what was sealed |
| OrderChannel.RestartReplaces | web/src/channel.ts:187-246 | after a restart of the sender its k-th chat has the identity of the k-th before, and the mailbox holds no other chat under it than the new one |
| OrderChannel.HandledNeverReturned | web/src/channel.ts:334-349 | over every run of polls, an id once handled is never returned by a later poll, whatever is posted under it |
| Menus.CartStaysValid | web/src/menu.ts:290-299 | both cart operations keep keys pairwise distinct and quantities positive, for any ids, index and quantity |
| Menus.SetExactly | web/src/menu.ts:297-299 | a line whose quantity is set keeps its place or is dropped when nothing is left; no other line moves or changes, and an index outside the cart changes nothing |
| Menus.AddExactly | web/src/menu.ts:290-295 | adding raises the one line with that key, in its place, or appends a new line; a line with nothing left is dropped; no other line changes |
| Menus.KeysEqualExactly | web/src/menu.ts:279-282 | for any choice ids, if no item id holds '|' or no choice id does: two keys are equal if and only if the items are and the sorted choice ids, cut at their commas, give the same pieces |
| Menus.KeyIdentifies | web/src/menu.ts:279-282 | with no '|' in item ids and choice ids that are not empty and hold no comma, two keys are equal if and only if item and chosen options are, in any order |
| Menus.SeparatorsCollide | web/src/menu.ts:281-282 | a comma in a choice id, or an empty one, gives different selections one key |
| Menus.ResolvedExactly | web/src/menu.ts:310-319 | a line resolves to nothing if no item has its id, else to the first such item's name and price, the line's quantity, and exactly the options it picked as extras |
| Menus.ResolvedInOrder | web/src/menu.ts:322-325 | lines resolve one by one and in order, those the menu lost are left out, and without a menu there are none |
| Menus.PricedExactly | web/src/menu.ts:327-331 | a line can be priced if and only if its base price and every extra parse, an empty price standing for "0" |
| Menus.PlainPrice | web/src/menu.ts:310-331 | without options a unit costs the item's own price |
| Menus.OneMoreOption | web/src/menu.ts:313-331 | picking one more option, one the item lists once, adds its price to a unit |
| Menus.WholeExactly | web/src/menu.ts:330 | quantities are cut to whole units, and none is below 0 |
| Menus.ResolvedWei | web/src/menu.ts:327-331 | unit price times whole quantity, or nothing if any price fails to parse |
| Menus.CartTotal | web/src/menu.ts:336-346 | the total over the lines that resolve and parse |
| Menus.TotalIsWorth | web/src/menu.ts:322-346 | the total is the sum over cart lines of unit price times whole quantity, lines gone from the menu or without a price counting 0 |
| Menus.AddRaisesLine | web/src/menu.ts:290-295 | for any ids, adding q > 0 whole units raises the sum of the lines' worths by q times the unit price of the line they end up in |
| Menus.AddRaisesTotal | web/src/menu.ts:290-346 | with such ids, adding q > 0 units of a configuration, q whole, raises the total by q times its price, merged into a line or not |
| Tickets.LineWei | web/src/ticket.ts:56-60 | the venue's price of one line, or an exception |
| Tickets.TicketTotalWei | web/src/ticket.ts:63-73 | the venue's total, lines that cannot be priced left out |
| Tickets.NoOptions | web/src/ticket.ts:58 | a line without options costs what it costs with none picked |
| Tickets.FetchTicket | web/src/ticket.ts:147-170 | what the selection loop ends with, a thrown error included; which ticket that is, `TicketSeen` says |
| Tickets.TotalsAgree | web/src/menu.ts:333-346 | the venue's total of a resolved cart is the cart's own total, on all lines |
| Tickets.ChooseMeans | web/src/ticket.ts:151-169 | the loop throws at the first ticket that throws, returns the first bound one, or runs to the end, whichever comes first |
| Tickets.BoundExactly | web/src/ticket.ts:147-170 | a bound ticket is returned if and only if one comes before everything that throws; it is the first |
| Tickets.ThrowsExactly | web/src/ticket.ts:158-167 | the call throws if and only if a payload that throws comes before every bound ticket: `null`, an order id without a text, or a time that does not compare with that of an earlier ticket |
| Tickets.LatestKept | web/src/ticket.ts:164-169 | with no bound ticket and nothing that throws, the readable ticket placed latest, the later of ties |
| Tickets.TicketSeen | web/src/ticket.ts:147-170 | the first bound ticket if one comes before everything that throws, else an error if anything throws, else the readable one placed latest, else none |
| Tickets.OneTicket | web/src/ticket.ts:84-87 | a ticket by itself: exactly when it throws, exactly when it is seen, with the total of its lines, and exactly when it is unpriced, bound or a mismatch |
| Tickets.TwoTickets | web/src/ticket.ts:164-169 | of two tickets that are not bound the one placed later is seen, the second of equals, and the call throws if and only if a time does not compare |
| Tickets.SeenIsForOrder | web/src/ticket.ts:151-163 | whatever is seen was opened from the box, names the order and carries the total of its lines |
| Tickets.HonestTicketAccepted | web/src/ticket.ts:140-170 | with the ticket of the escrowed cart in the mailbox and a total that is not 0, the venue gets a bound ticket of that total if and only if some bound ticket up to it comes before everything that throws, in particular if nothing before it throws |
| Tickets.NullHidesHonest | web/src/ticket.ts:152-158 | a `null` payload ahead of an honest ticket makes the call throw, where the honest ticket alone is accepted |
| TicketMail.FetchedExactly | web/src/channel.ts:162-169 | a ticket is among those fetched if and only if some envelope of the thread is a complete ticket envelope that carries it |
| TicketMail.FetchedInOrder | web/src/channel.ts:166-168 | tickets are fetched in the thread's order |
| TicketMail.TicketFetchedExactly | web/src/channel.ts:145-169 | while at most 200 identities were posted, a ticket is fetched if and only if the latest post of some identity carries it |
| TicketMail.TicketKeptExactly | web/src/channel.ts:120-157 | a ticket that nobody else posts is fetched if and only if no later post, whoever made it, has its identity |
| TicketMail.NumbersCollide | web/src/channel.ts:133-137 | two hexadecimal beginnings whose texts, if they go on alike, share a ticket number |
| TicketMail.SecondErasesFirst | web/src/channel.ts:129-132 | of two tickets whose texts share a number only the later one can be fetched |
| TicketMail.HonestTicketReaches | web/src/ticket.ts:121-170 | end to end: the ticket of the escrowed cart, posted and not posted over while at most 200 identities were posted, gives the venue a bound ticket of the escrowed total, if no ticket in the mailbox throws |

## Left out

- Real cryptography and the field modulus: Poseidon, keccak, ECDH, AES-GCM, Groth16, signatures; see above for what stands in.
- Contracts and circuits other than the vault's note-tree insert and the circuit's Merkle fold; the vault's ring of past roots.
- Deposit races (another deposit between reading the tree size and the transaction) and chain reorganisations: the leaf index is taken as correct.
- PathRebuild.SelfCheckExact: leaves from the note on are taken to have the shape of commitments, Poseidon(Poseidon(a, b), Poseidon(c, d)) of plain numbers, because a leaf that is itself some other hash could stand for a subtree; the leaves before the note, a genesis leaf included, may be anything but 0.
- LogScan.Scanner.GetLogsSafe: ranges end at block 2^30 or before; `SplitsExactly` shows that beyond it some split falls outside its range.
- Mailbox.Relay.OnRequestPost: timestamps are integers, where the endpoint does not check `ts`; what then still holds is `Mailbox.LooseRunValid` and `LooseRunSorted`; expiry of threads and concurrent read-modify-write of the key-value store are not modelled; the `data` field is not carried.
- OrderChannel.OrderThread.Poll: the photo and profile passes (channel.ts:371-408) repeat the location pass with other kinds and are not modelled; polls do not overlap.
- Capsules, relays and their fallback, HTTP and WebSocket transport.
- TicketMail.NumbersCollide: characters are taken by their number, which is that of a UTF-16 unit for all text below U+10000; sealed tickets are hexadecimal.
- NoteWallet.NoteStore.FundBurner: reading the relay's fee is left out, and of the wait for the burner's balance only whether it can be read; relay answers are parameters.
- `shieldedReturn`, whose one store effect is a deposit of an amount rounded down to 0.001 PAS.
- Price.Adjoint: amounts are not negative, where BigInt division and Dafny's agree; fetching, caching and formatting of quotes are left out.
- AssetIds.ParseThenPrint: lower-casing is ASCII; no other character lower-cases to a digit of a text that parses.
- Tickets.TicketSeen: the time a ticket was placed is a whole number, absent, or a value whose comparison throws; texts and other values, which JavaScript compares by its own rules, are not modelled and matter only for which ticket is kept when none is bound.
- Menus.AddRaisesTotal: q is a whole number, as every caller passes; a fractional quantity is truncated per line. Infinite and NaN quantities are not modelled.
- Menu parsing, option validation, opening hours, categories, counting of items.
- Comparators that never answer 0 (denominations.ts:34, shield.ts:105) are modelled as the stable sort they give in engines that only ask whether one element goes before another.
- Views, ops consoles, maps, push, IPFS, deploy scripts and the venue node: user interface and orchestration.
- Members that would only add easy statements: escrow splits, governance parameters, gas budgets, kitchen boards, relay choice.
