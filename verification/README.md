# A model of the Vertcoin P2Pool node

This project models the parts of a decentralised mining pool node on which all nodes have to
agree, and states what those parts guarantee:

- **The share chain** (`Shares`, `Tip`, `WorkIndex`, `VerifyPass`, `Admission`, `Pruning`,
  `ShareChain`, `History`). Shares form a forest linked by parent hash. The node keeps cumulative
  work, chain length, child lists and the tip incrementally while shares arrive before their parents,
  wait, are accepted, rejected and pruned. The main result is `ShareChain.Chain.Run`: after any
  sequence of locked sections, with batches stored and shares pruned between the turns of a verify
  pass and commits to disk in flight at any moment, the incremental state is what a recomputation from
  scratch would give, but for shares below those that a pass under way has rejected.
  `History.RunMedianNeverDecreases` carries the median-time rule over whole runs.
- **Payout and consensus** (`Window`, `Payout`, `Coinbase`, `Consensus`). The PPLNS window walk, the
  retarget, the exact satoshi split and its verifier, and the median-time rule.
- **The share store** (`ShareStore`). The dirty-set commit protocol against a database.
- **The download frontier** (`Frontier`).
- **The Verthash proof-of-space graph** (`Powers`, `XiLayout`, `XiParents`, `XiFile`,
  `XiGenerators`). The same graph in three forms: a recursive generator, a generator with an explicit
  stack, and a closed form for the parents of one node. All three are tied to one layout, and the
  file that generation leaves is described by the closed form alone.
- **Merkle links** (`Merkle`), **SHA-256 streaming and mid-states** (`Sha256`) and **light-mode
  template voting** (`Templates`).

`Sequences` and `Sorting` hold what the other modules share.

How things are modelled:

- A hash is a natural number of which only equality and order are used. Parent links are acyclic,
  carried by a ghost `rank`. Verthash, SHA-3, the SHA-256 compression, address decoding and the
  Merkle hash are arbitrary functions.
- Difficulties are reals. Satoshi amounts, weights, ids and lengths are unbounded integers, except
  that the SHA-256 length wraps at 2^64 as in the program.
- The clock is an argument. The loops over Go maps pick their elements in any order.
- Go's shared counter `count *int64` is an argument and a result. The node file is a map from place
  to hash together with a flag for a read that missed, which is a panic in the program.
- State that the program updates in place is a class: `ShareChain.Chain`, `XiGenerators.Graph`,
  `Sha256.Sha256Digest`, `Templates.LightNode`.

Where the program does less than one might expect, the exact condition is stated:

- Nodes are not written in increasing order. The sinks are written in pairs, one from each half of
  the row, so the order is increasing for index 1 and for no other index
  (`XiLayout.AscendingExactlyAtOne`).
- The median-time rule compares a share's time only if the parent's own time has reached activation
  (or the share's has). Above a full window whose median has reached activation, all acceptable
  children respect the median if and only if the parent's own time has reached activation
  (`Consensus.RuleBindsExactly`), and a chain from genesis on which it has not is accepted share by
  share (`Consensus.UnarmedChainExists`). From a start where it has, the rule can never be switched off
  again (`Consensus.MedianNeverDecreases`).
- `betterTip` with its tolerance agrees with the order by work and then hash exactly if works within
  the tolerance of each other are in the order of their hashes (`Tip.ComparableExactly`). Three chains
  of one share each on which it goes round in a circle are given (`Tip.BetterTipCycles`). Works that
  are multiples of a unit coarser than the tolerance satisfy the condition.
- Marking a share verified is safe for the database exactly if the share is held
  (`ShareStore.MarkSafeExactly`). The program can mark a share that pruning by age has just removed,
  because that pruning does not take the lock of the verify pass. Such a share is then verified in
  memory, missing on disk and not dirty exactly if it arrives once more in a batch whose clock was read
  before the prune's and still admits its timestamps (`ShareStore.LateMarkLosesShare`).
- `shareHasStandardPayout` lists the payout version 5 among the key and script hashes, and its comment
  says that these are all above 16; but version 5 is taken for a witness version first, so a payout to
  it never counts (`Payout.StandardPayouts`).
- `txSetHash` concatenates ids without separators. Equal hashes mean equal ids one by one exactly if
  the widths of the ids are equal one by one (`Templates.FingerprintIdentifies`), as they are for
  hexadecimal transaction ids; `Templates.FingerprintNeedsWidth` gives two transactions for which they
  are not.

## Model

| member | source | states |
|---|---|---|
| `Shares.TotalsMonotone` | work/sharechain.go:833-876 | cumulative work and length, the sums over held ancestors up to the first missing one, can only drop when shares are removed |
| `Shares.TotalsFrame` | work/sharechain.go:833-876 | a share outside a descendant-closed set around a change keeps its totals |
| `Tip.BetterTipIsBeats` | work/sharechain.go:883-887 | on works that, within 1e-9 of each other, are in the order of their hashes, the tolerant comparison is the exact order by work, then hash |
| `Tip.ComparableExactly` | work/sharechain.go:883-887 | the exact condition: the comparison is the order on all pairs if and only if works within the tolerance are in the order of their hashes |
| `Tip.BetterTipCycles` | work/sharechain.go:883-887 | three held candidates whose cumulative works lie within the tolerance and on which the comparison goes round in a circle |
| `Tip.TipBestUnique` | work/sharechain.go:889-904 | if a verified non-stale share exists, the best tip is unique, so no scan order matters |
| `Tip.TipBestMeaning` | work/sharechain.go:878-904 | the best tip is held, verified and not stale, and ahead of all other such shares by work and then hash |
| `Tip.ExactGraded` | work/sharechain.go:833-876 | if every share's own work is a multiple of a unit, so is every cumulative work |
| `Tip.GradedComparable` | work/sharechain.go:883-887 | multiples of a unit above 1e-9 are equal or further apart than the tolerance |
| `WorkIndex.Affected` | work/sharechain.go:833-850 | finds each held seed and descendant once, closed under children, and nothing else |
| `WorkIndex.QueueStep` | work/sharechain.go:851-876 | one turn of the queue keeps it equal to the affected shares whose affected parent is done, without repetition |
| `WorkIndex.QueueComplete` | work/sharechain.go:851-876 | a queue that is used up has visited every affected share |
| `WorkIndex.Recount` | work/sharechain.go:851-876 | terminates, visits each affected share exactly once and after its affected parent, and leaves all totals exact: the number of non-stale shares on the path down and the sum of their difficulties |
| `WorkIndex.EntryMeaning` | work/sharechain.go:856-874 | an exact entry counts the non-stale shares on the path of parents down to the first missing one, and adds up their difficulties, each raised to one half |
| `WorkIndex.DropChild` | work/sharechain.go:769-797 | removing a share keeps the child lists the exact inverse of the parent relation, with no empty list |
| `WorkIndex.AddedKeepsTip` | work/sharechain.go:748-754 | after shares are added the tip still beats every candidate whose work did not change, unless some candidate builds on a rejected share |
| `WorkIndex.UnlinkLags` | work/sharechain.go:769-797 | unlinking while descendants keep stale work leaves every entry exact for the earlier store |
| `WorkIndex.BelowCarries` | work/sharechain.go:801-876 | what built on a rejected share before a change and is not recounted still does |
| `WorkIndex.OutsideRemoved` | work/sharechain.go:1032-1042 | a share that does not build on a rejected one keeps its totals when another share is rejected |
| `VerifyPass.RunChanges` | work/sharechain.go:989-1057 | any run of turns adds up to: accepted shares verified, rejected ones gone, exactly these marked |
| `VerifyPass.RunKeepsTip` | work/sharechain.go:989-1064 | through a whole pass over stale works the tip stays the one a full scan over those works would choose |
| `VerifyPass.LaterIsNotParent` | work/sharechain.go:989-1010 | in chain-length order no later share is the parent of an earlier non-stale one |
| `VerifyPass.RunLeavesWaiting` | work/sharechain.go:989-1057 | a non-stale share that a pass left pending still has a parent that is missing or unverified with fewer than 200 shares below |
| `VerifyPass.RunOfWaiting` | work/sharechain.go:989-1057 | if every pending share has to wait, a pass accepts and rejects nothing |
| `VerifyPass.WaitingAfterRecount` | work/sharechain.go:1049-1057 | dropping the work of rejected shares at the end makes no waiting share ready |
| `VerifyPass.RunSummary` | work/sharechain.go:989-1057 | the net effect of a whole pass: changes, books, tip, who still waits, and that a pass over waiting shares changes nothing |
| `VerifyPass.JudgedOutside` | work/sharechain.go:1010-1048 | after a turn in an interleaved pass only shares that build on rejected ones may be out of date |
| `VerifyPass.JudgedTip` | work/sharechain.go:1010-1064 | after such a turn the tip is the best over the works kept, unless some candidate builds on a rejected share |
| `VerifyPass.RecordedMedian` | work/sharechain.go:1066-1109 | the median rule along every chain of shares recorded as accepted |
| `Admission.StoredFacts` | work/sharechain.go:129-166 | a batch replaces nothing held, and what is new passed the screen and is filed under its hash |
| `Admission.StoredBrings` | work/sharechain.go:135-167 | after a batch all that was held is as it was, every admissible share's hash is held, and all that is new is an admissible share of the batch |
| `Admission.FirstIsKept` | work/sharechain.go:149-162 | of several new admissible shares with one hash the first is kept |
| `Admission.ScreenMeaning` | work/sharechain.go:137-159 | which shares are stored, called duplicate or called invalid, in numbers |
| `Admission.StoreBatch` | work/sharechain.go:135-167 | the storing loop gives the store, the distinct new hashes and each share's first verdict |
| `Admission.SettleOutcomes` | work/sharechain.go:174-183 | the final verdicts: accepted, pending, or rejected and gone |
| `ShareChain.Chain.SelectTip` | work/sharechain.go:889-904 | in any scan order the tip becomes the unique best candidate, and stays if there is none |
| `ShareChain.Chain.ConsiderTip` | work/sharechain.go:906-923 | the tip becomes the best candidate if it beat all shares not offered |
| `ShareChain.Chain.Link` | work/sharechain.go:817-821 | one more share is filed under its parent |
| `ShareChain.Chain.Unlink` | work/sharechain.go:769-797 | the share leaves every map and the child lists, is marked if it was held, and reports whether it was a tip candidate |
| `ShareChain.Chain.UpdateWork` | work/sharechain.go:833-876 | after a change only at the seeds, only the seeds and their descendants are touched and all totals are exact again but for shares that build on a rejected one |
| `ShareChain.Chain.AddWork` | work/sharechain.go:748-754 | newly stored shares are indexed, earlier orphans below them gain their work, and the tip stays the best, also while a pass is under way |
| `ShareChain.Chain.DropWork` | work/sharechain.go:801-815 | descendants of removed shares lose their work, and the tip is rescanned exactly when it has to be |
| `ShareChain.Chain.RemoveShares` | work/sharechain.go:756-767 | exactly the named shares go, are marked, and index and tip are exact afterwards |
| `ShareChain.Chain.MarkVerified` | work/sharechain.go:1059-1064 | the share becomes verified, loses its arrival time, is marked, and becomes tip if it beats it |
| `ShareChain.Chain.StoreAndIndex` | work/sharechain.go:134-169 | the locked half that stores a batch, with a pass under way or not |
| `ShareChain.Chain.PassBegin` | work/sharechain.go:989-1006 | the list of pending shares, shortest chain first |
| `ShareChain.Chain.PassTurn` | work/sharechain.go:1010-1048 | one turn by the rules, whatever happened since the last one, keeps index, books and tip |
| `ShareChain.Chain.PassEnd` | work/sharechain.go:1049-1057 | at the end of an interleaved pass everything is exact again and the tip is what a full scan would choose |
| `ShareChain.Chain.VerifyPending` | work/sharechain.go:989-1057 | a whole pass: every pending share has one turn, shortest chain first, each judged by the rules in the state the turns before led to; index exact, tip as a full scan would choose, received shares exactly the unverified ones, every non-stale pending share waiting, and nothing changes if all had to wait |
| `ShareChain.Chain.AddShares` | work/sharechain.go:129-183 | a batch is screened and stored, the pass over the stored state accepts and rejects by the rules, and every outcome is the share's fate in the new state |
| `ShareChain.Chain.PruneOld` | work/sharechain.go:193-205 | exactly the shares before the cutoff go, also while a pass is under way that has none of them left to judge |
| `ShareChain.Chain.PruneUnverified` | work/sharechain.go:210-250 | at most 8640 unverified shares remain; the dropped ones are the expired ones that no verified share builds on, and of the others only the oldest beyond the cap |
| `ShareChain.Chain.Recompute` | work/sharechain.go:731-746 | rebuilds index and tip from the held shares alone |
| `ShareChain.Chain.Load` | work/sharechain.go:709-727 | a chain loaded from the database holds and has verified exactly what is stored, with exact index and best tip |
| `ShareChain.Chain.CommitBegin` | work/sharestore.go:124-146 | the marked hashes move into a batch of puts and deletes, and nothing is lost |
| `ShareChain.Chain.CommitEnd` | work/sharestore.go:148-192 | a write that succeeds applies the batch; one that fails changes nothing and marks the hashes again |
| `ShareChain.Chain.Run` | work/sharechain.go:129-1064 | after any sequence of locked sections (storing, pass begin, turn and end, pruning, recomputing, commit begin and end) every operation has brought about what it should; index exact but for shares below those a pass under way has rejected, books exact, database coherent, and on the grid the tip is the best or about to be rescanned; with no pass under way lengths and works are those along the path of every share, and the tip is what a full scan would choose |
| `ShareChain.Chain.Perform` | work/sharechain.go:129-1064 | what each operation brings about: which shares are held, verified, judged, pruned, written or marked again, and that nothing else changes |
| `ShareChain.PerformedAccounts` | work/sharechain.go:129-1064 | no share is held that was not held or in the batch stored, and none is verified but in a sound turn that accepts it |
| `History.RunRemembered` | work/sharechain.go:129-1064 | over any run every verified share was loaded or accepted by the rules on shares that were held |
| `History.RunMedianNeverDecreases` | work/sharechain.go:1066-1109 | the median rule over whole runs, for every chain of shares the run accepted with full windows held |
| `Pruning.WalkBelow` | work/sharechain.go:218-230 | a walk that stops where an earlier one has been still adds everything below the share |
| `Pruning.ChainLeadsBelow` | work/sharechain.go:218-230 | where a chain of parents through held unverified shares leads is below its start |
| `Pruning.BelowHasChain` | work/sharechain.go:218-230 | and whatever is below a share is reached by such a chain |
| `Pruning.ProtectedShares` | work/sharechain.go:218-230 | exactly the shares that a verified share reaches through held unverified parents |
| `Pruning.ChooseExpired` | work/sharechain.go:210-250 | which received shares are dropped, and that at most the cap is left |
| `Pruning.CapHolds` | work/sharechain.go:240-243 | any choice by these rules leaves at most 8640 unverified shares |
| `ShareStore.MarkedKeepsCoherent` | work/sharestore.go:22-27 | a change of memory that marks what it touches keeps every disagreement with the disk marked or in flight |
| `ShareStore.BuildBatch` | work/sharestore.go:135-146 | puts for the marked hashes that are held and verified, deletes for the others |
| `ShareStore.StepSafe` | work/sharestore.go:124-157 | every locked section keeps each hash on which disk and verified shares differ dirty or in flight |
| `ShareStore.RunSafe` | work/sharestore.go:124-157 | the same for every interleaving of changes with commits that succeed or fail |
| `ShareStore.QuietCommitIsExact` | work/sharestore.go:124-157 | a successful commit with nothing in between leaves on disk exactly the shares that are held and verified, and loading gives them back |
| `ShareStore.MarkSafeExactly` | work/sharechain.go:1059-1064 | marking a share verified keeps the protocol safe exactly if the share is held |
| `ShareStore.LateMarkLosesShare` | work/sharechain.go:1044-1064 | a share pruned for age between judgement and mark is lost for the database exactly if it arrives again in a batch whose clock still admits it, which has to be a clock read before the prune's |
| `Window.OrderedWalk` | work/sharechain.go:314-346 | the walk returns the first non-stale held ancestors; its step bound never cuts it short |
| `Window.Retarget` | work/sharechain.go:353-383 | the expected difficulty is at least the minimum, within a tenth of the parent's, and the minimum below 200 shares |
| `Window.RetargetMeaning` | work/sharechain.go:358-382 | the difficulty times the span is the work of 199 shares times 15 seconds, where that is within a tenth of the parent's difficulty and not below one half; beyond, it is the nearer bound |
| `Window.SteadyPaceKeeps` | work/sharechain.go:353-383 | shares of one difficulty every 15 seconds keep that difficulty |
| `Window.TotalsAlongPath` | work/sharechain.go:314-346 | the lineage is the non-stale shares on the path of parents, and totals count and add them up |
| `Window.CreditMeaning` | work/sharechain.go:390-416 | a share is credited with its target's difficulty up to 16 if its proof of work is absent or within a thousandth of it, else with nothing |
| `Window.ExpectedDifficulty` | work/sharechain.go:353-383 | the retarget loop computes that difficulty from the walk |
| `Window.SharesForPayout` | work/sharechain.go:418-487 | the selection loop takes the window over the lineage of the anchor |
| `Window.HasCompleteWindow` | work/sharechain.go:925-985 | decides whether that window closed or the chain reaches genesis |
| `Window.WindowMeaning` | work/sharechain.go:418-487 | the window is the shortest prefix of the lineage that reaches the work or age bound, without uncredited shares |
| `Window.WindowInNumbers` | work/sharechain.go:425-485 | 36 hours, the window size, and the expected difficulty times the size or twelve blocks' worth, whichever is less, bound the window |
| `Window.LimitNeverBinds` | work/sharechain.go:434-437 | the limit on one share's credit in a window never binds |
| `Window.CompleteMeaning` | work/sharechain.go:925-985 | a window is complete at genesis, above a path that ends at a share without a parent, or once closed on 8640 shares |
| `Window.ClosedWindowStable` | work/sharechain.go:925-985 | shares further down do not change a window that has closed |
| `Window.WindowAgreement` | work/sharechain.go:925-985 | with 200 non-stale ancestors held and a complete window, every store that holds more selects the same shares whatever its tip |
| `Payout.WeightsOrderFree` | work/coinbase.go:116-157 | the weights do not depend on the order of the selected shares |
| `Payout.WeighShares` | work/coinbase.go:116-157 | the weighing loop gives each address its total and their sum |
| `Payout.WeightMeaning` | work/coinbase.go:131-153 | a share weighs nothing without standard payout, address and credit, and otherwise its credit in whole millionths, at least one |
| `Payout.StandardPayouts` | work/coinbase.go:83-99 | which payout versions and lengths count as standard |
| `Payout.SplitTail` | work/coinbase.go:159-186 | the split over any remaining addresses pays what is left, each but the last its floor |
| `Payout.SplitMeaning` | work/coinbase.go:108-208 | outputs sum to the reward, are positive, ascending and address-distinct; all but the last weighted address get their floor, the last gets between its floor and its floor plus n - 1, and more than zero |
| `Payout.Allocate` | work/coinbase.go:159-186 | the allocation loop computes that split |
| `Payout.CalculateOutputs` | work/coinbase.go:108-208 | the whole computation, from the window at the anchor to the sorted outputs; with one share per address each is paid by its credited difficulty |
| `Payout.SplitByDifficulty` | work/coinbase.go:131-186 | each of several addresses with one share gets its credited difficulty's part of the reward, rounded down, and the highest address also the units left over |
| `Coinbase.CountAndAmountsSuffice` | work/coinbase.go:442-453 | as many outputs as expected and every script paid its amount force the outputs to be the expected ones |
| `Coinbase.ChecksAreExact` | work/coinbase.go:403-453 | the count and amount checks pass exactly when the paying outputs are a permutation of the expected ones |
| `Coinbase.AcceptedIsExact` | work/coinbase.go:393-455 | what a verified coinbase pays: the expected PPLNS outputs of its own total at its own anchor, and no one else |
| `Coinbase.EnvelopeRefuses` | work/coinbase.go:394-437 | each ground on which the verifier refuses before it looks at who is paid |
| `Coinbase.TallyOutputs` | work/coinbase.go:403-413 | what each script is paid, the total and the number of paying outputs |
| `Coinbase.VerifyShareCoinbase` | work/coinbase.go:393-455 | the verifier decides exactly that |
| `Coinbase.BuildOutputs` | work/coinbase.go:235-257 | the builder emits the split and its zero-valued commitments, or fails on an address that does not decode |
| `Coinbase.BuiltIsAccepted` | work/coinbase.go:218-257 | what the builder emits at an anchor passes the verifier at that anchor |
| `Coinbase.BuiltIsAcceptedElsewhere` | work/coinbase.go:218-257 | and it passes on every node that holds more, if the builder's window was complete |
| `Consensus.MedianCount` | work/sharechain.go:1080-1094 | the median is at least v exactly when more than half of the window is |
| `Consensus.ComputeMedianTimePast` | work/sharechain.go:1080-1094 | the sorted middle of 11 non-stale ancestors, none with fewer |
| `Consensus.CheckConsensus` | work/sharechain.go:1096-1130 | accepts exactly the shares that meet the version, median-time, difficulty and coinbase rules |
| `Consensus.RulesInNumbers` | work/sharechain.go:1096-1130 | the rules a share must meet, in numbers and down to who its coinbase pays, and no others |
| `Consensus.MedianStep` | work/sharechain.go:1080-1094 | a stale share leaves the median alone, another one moves it at most towards its own time |
| `Consensus.StaysArmed` | work/sharechain.go:1066-1109 | along an accepted chain the rule, once armed, stays armed |
| `Consensus.MedianNeverDecreases` | work/sharechain.go:1066-1109 | once the median has reached activation it never decreases, and every later share, stale or not, is at or after the median before it |
| `Consensus.RuleBindsExactly` | work/sharechain.go:1066-1109 | the exact condition under which all acceptable children respect the median |
| `Consensus.UnarmedChainExists` | work/sharechain.go:1066-1109 | eleven shares from genesis, each accepted on those before it, above which a backdated child is accepted |
| `Frontier.MissingTail` | work/sharechain.go:1162-1188 | the memoized walk finds the true first missing ancestor and keeps the memo exact |
| `Frontier.TailAlongPath` | work/sharechain.go:1162-1188 | the tail is the missing parent that ends the path down, none if the path ends without a parent |
| `Frontier.Heads` | work/sharechain.go:1190-1213 | the shares no held share builds on, most work first |
| `Frontier.MissingParents` | work/sharechain.go:1137-1160 | distinct hashes, none held, each the first missing ancestor of an eligible head, and all of them unless cut off at the maximum |
| `Merkle.BranchLeadsToRoot` | work/util.go:67-112 | folding the branch of any leaf gives the root, odd levels included |
| `Merkle.LevelMeaning` | work/transaction.go:56-68 | neighbours are combined in order, and the last hash of an odd level with itself |
| `Merkle.FirstBranchIgnoresLeaf` | work/util.go:67-112 | the branch of the first leaf does not depend on it |
| `Merkle.PlaceholderLinkIsRight` | stratum/server.go:265-279 | a link built with a placeholder coinbase gives the true root for the real one |
| `Merkle.MerkleRoot` | work/transaction.go:52-71 | the level-by-level loop computes the root |
| `Merkle.MerkleLink` | work/util.go:68-112 | the loop collects the branch |
| `Merkle.RootFromLink` | util/util.go:56-70 | the loop folds the branch |
| `Sha256.SplitFree` | util/sha256.go:154-175 | writing a message in pieces leaves the same digest as writing it at once |
| `Sha256.StreamingIsSha256` | util/sha256.go:154-224 | however a message is cut, the checksum is that of the padded whole message |
| `Sha256.PaddingEmptiesBuffer` | util/sha256.go:184-202 | after the two padding writes nothing is buffered, so the panic is unreachable |
| `Sha256.PaddingMeaning` | util/sha256.go:184-198 | the padding of section 5.1.1 of FIPS 180-4: a one bit, as few zeros as fit, the length in bits |
| `Sha256.MarshalLayout` | util/sha256.go:45-60 | where the parts of a marshalled digest are |
| `Sha256.MarshalRoundTrip` | util/sha256.go:45-82 | unmarshalling a marshalled digest gives it back, so it behaves the same from then on |
| `Sha256.MidStateContinues` | util/sha256.go:109-123 | hashing on from the encoded state and tail of a prefix gives the hash of prefix and data, whatever the buffer held |
| `Sha256.Sha256Digest.Reset` | util/sha256.go:125-136 | back to the fresh digest, from any state |
| `Sha256.Sha256Digest.Write` | util/sha256.go:154-175 | the buffered write in place: words, tail and length are those of the concatenation |
| `Sha256.Sha256Digest.CheckSum` | util/sha256.go:184-216 | the checksum of what was absorbed, with an empty buffer afterwards |
| `Sha256.Sha256Digest.Sum` | util/sha256.go:177-182 | the checksum is appended and the digest is left as it was |
| `Sha256.Sha256Digest.CalcMidState` | util/sha256.go:109-123 | takes over a state and hashes the data on top of it |
| `Sha256.Sha256Digest.MarshalBinary` | util/sha256.go:45-60 | the 108 bytes of the digest |
| `Sha256.Sha256Digest.UnmarshalBinary` | util/sha256.go:62-82 | loads a well-formed encoding, and changes nothing on an error |
| `Sha256.Sum256` | util/sha256.go:219-224 | the one-shot hash |
| `Templates.FingerprintIdentifies` | work/manager.go:273-281 | equal transaction-set hashes mean equal ids one by one exactly if the widths are equal one by one |
| `Templates.FingerprintNeedsWidth` | work/manager.go:273-281 | two transactions with different ids and the same hash input |
| `Templates.IntersectTemplateTxs` | work/manager.go:832-860 | the transactions of the first list that the second knows and that depend on no other, and their fees |
| `Templates.SubsidyMeaning` | work/manager.go:902-902 | fifty coins at first, half of that every 840,000 blocks |
| `Templates.ClaimLimitMeaning` | work/manager.go:902-921 | a coinbase may claim the subsidy plus the fees, but no more than twice the subsidy |
| `Templates.CountVotes` | work/manager.go:954-981 | for every order of the votes: the two counts, whether a pinned vote agrees exactly, and whether a pinned vote and a second vote exist |
| `Templates.DecisionIsOrderFree` | work/manager.go:982-996 | which branch is taken does not depend on the order of the votes |
| `Templates.ResultClaims` | work/manager.go:982-996 | whatever is decided, the result claims at most the subsidy plus the fees it keeps |
| `Templates.ResultSupported` | work/manager.go:982-996 | whatever is decided and in whatever order, a live pinned vote for the same block and bits covers what is kept |
| `Templates.SupportedIds` | work/manager.go:982-996 | the kept transactions are the vote's own, or have the vote's ids one by one exactly if the widths are equal one by one |
| `Templates.LightNode.Current` | work/manager.go:940-949 | the template installed, or none once agreement is over three minutes old |
| `Templates.LightNode.Resolve` | work/manager.go:954-996 | the vote as a function of the live votes, and the soundness of its result |
| `Templates.LightNode.Install` | work/manager.go:997-1006 | replaces the template unless block and transactions are the same; never more than one is installed |
| `Templates.LightNode.ApplyRemoteTemplate` | work/manager.go:891-1007 | a template is installed exactly if it passes the checks, its height is in step and the live votes agree, and then it is what the vote comes to; every template ever installed honours its claim and is supported; votes and scores change exactly as they should |
| `Powers.Log2` | verthash/graph.go:41-48 | the floor of the binary logarithm |
| `Powers.FlipTwice` | verthash/graph.go:287-291 | the partner in a butterfly differs in the one bit, and is mutual |
| `Powers.FlipInRange` | verthash/graph.go:287-291 | the partner stays in the row |
| `XiLayout.NumXiFormula` | verthash/graph.go:263-265 | the product that numXi computes is the number of nodes of the layout |
| `XiLayout.NumButterflyFormula` | verthash/graph.go:267-269 | the product that numButterfly computes is the number of nodes of a butterfly |
| `XiLayout.BodyGenerates` | verthash/graph.go:449-577 | every node after the sources is written exactly once, from sources and nodes written before |
| `XiLayout.WholeGenerates` | verthash/graph.go:449-577 | the ids of the whole graph are written exactly once each, reading only lower ids that were written before |
| `XiLayout.OffsetsAdvance` | verthash/graph.go:476-482 | the explicit offsets are in order and the sinks end the graph |
| `XiLayout.CrossEdgesPair` | verthash/graph.go:281-294 | the cross edges of a butterfly level pair its nodes: partners have the same two parents in opposite order |
| `XiLayout.AscendingExactlyAtOne` | verthash/graph.go:553-576 | the ids are written in increasing order if and only if the index is one |
| `XiParents.ButterflyAgrees` | verthash/graph.go:133-150 | the closed form of a butterfly node names the parents of the generator, for both butterflies |
| `XiParents.SinksAgree` | verthash/graph.go:195-202 | the same for the sinks |
| `XiParents.NestedAgrees` | verthash/graph.go:182-187 | the same for the two nested graphs |
| `XiParents.BodyAgrees` | verthash/graph.go:153-206 | for every index all writes have exactly the parents of the closed form, in its order |
| `XiParents.ClosedFormIsLayout` | verthash/graph.go:115-206 | for every index and every node there is exactly one write of it, with exactly the parents GetParents returns |
| `XiFile.PlaceBijective` | verthash/graph.go:259-261 | clearing the top bit maps the ids one-to-one onto the first places |
| `XiFile.ParentsBelow` | verthash/graph.go:115-206 | the closed form names only earlier nodes of the graph |
| `XiFile.GenerationMeaning` | verthash/graph.go:70-112 | generation never reads a missing node, fills exactly the first numXi places, and leaves in each the hash that the closed form defines |
| `XiGenerators.FiveTasks` | verthash/graph.go:337-345 | the five stacked tasks of an index stand for the writes of the graph of that index |
| `XiGenerators.StagesFill` | verthash/graph.go:476-482 | every offset computed beforehand is where the counter arrives after the stages before it |
| `XiGenerators.IdBit` | verthash/graph.go:70-72 | the first id is the least power of two above the size |
| `XiGenerators.OneIdBit` | verthash/graph.go:70-72 | there is only one such power |
| `XiGenerators.Graph.NewNode` | verthash/graph.go:292-302 | reads the parents in order, hashes and stores |
| `XiGenerators.Graph.ButterflyGraph` | verthash/graph.go:271-306 | writes exactly the levels of the butterfly |
| `XiGenerators.Graph.XiGraph` | verthash/graph.go:449-577 | the recursive generator writes exactly the layout, sources included on the first call |
| `XiGenerators.Graph.AddStages` | verthash/graph.go:476-577 | every explicit offset equals the running counter when it is used |
| `XiGenerators.Graph.StackLoop` | verthash/graph.go:333-446 | what is written plus what the stacks stand for is always the whole graph; the nodes still to write shrink every turn |
| `XiGenerators.Graph.XiGraphIter` | verthash/graph.go:309-447 | the generator with a stack writes exactly the same layout |
| `XiGenerators.BothGenerators` | verthash/graph.go:309-577 | both generators perform the same writes in the same order and leave the same file |
| `XiGenerators.NewGraph` | verthash/graph.go:53-112 | a new graph file holds every node's hash in its place, for ids from the least power of two above the size |

## Left out

- `Tip.GradedComparable`: the tip results over runs assume that every share's own work is a multiple of a unit coarser than the tolerance; without it the program promises no particular tip.
- `ShareChain.Chain.VerifyPending`: a pass with nothing in between, since who still waits at its end is promised only then; `ShareChain.Chain.Run` covers passes with other operations between their turns.
- `ShareChain.Chain.Run`: a turn is one step, though the program looks, judges and marks under separate locks; a prune by age during a pass is taken only if it drops no share the pass has left to judge, and `ShareStore.LateMarkLosesShare` shows what it costs otherwise.
- `History.RunMedianNeverDecreases`: a hash stands for one share over the whole run, and the windows below the shares of the chain were held when they were judged.
- `ShareChain.Chain.Load`: loads into a new chain; opening the database and migrating the old JSON file are not modelled.
- `Window.Retarget`: reals instead of float64, so rounding and the memo fields that cache difficulties are not captured.
- `Payout.CalculateOutputs`: amounts and weights do not overflow int64, and a share's weight is the floor of the exact real.
- `Consensus.MedianNeverDecreases`: for chains on which the rule is armed at the start; `Consensus.RuleBindsExactly` shows that without it the property fails.
- `Templates.LightNode.ApplyRemoteTemplate`: decoding, the header proof-of-work check and the pending-block bookkeeping after the vote are not modelled; one clock reading stands for the several of a call; fee sums do not overflow.
- `XiGenerators.Graph.AddSinks`: reads the parents of each of a pair of sinks just before writing it; the program reads the three parents before it writes the two nodes.
- `XiGenerators.NewGraph`: an existing file is not reopened, and progress reporting is not modelled.
- `Sha256.Sum256`: the initial words and the compression function are arbitrary, so the SHA-256 constants and rounds are not captured.
- Node ids and counters of the graph are mathematical integers; index is at least one, as for every graph the node uses.
- bech32, base58, transaction serialization, compact target encoding and the bytes of Verthash and SHA-3 are library code and stand as arbitrary functions.
- Peer-to-peer streams, gossip, compression, peer scores and the download scheduler.
- The JSON-RPC client, block submission, the dashboard, configuration and logging.
- Stratum difficulty adjustment, rate monitors, hashrate statistics and other float heuristics.
- Selecting shares for other peers (GetSharesForSync, GetStopHashes, GetSharesByHashWithParents): short variations of the walks modelled here.
