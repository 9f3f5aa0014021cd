# Verified models of vibe-node

vibe-node is a Cardano node in Python. This project models the components of it
whose correctness depends on every interleaving, every run or every input, and
proves what they are for. One file per component; `MapSum.dfy` holds sums over
finite maps, which four of them share. Cryptographic primitives, encodings and
the ledger validator behind the mempool are parameters of the models: function
values about which only the facts named in a lemma's `requires` are assumed.

* **Software transactional memory** (`Stm.dfy`, `StmProofs.dfy`,
  `StmCalls.dfy`, `StmProgress.dfy`, `StmTornRead.dfy`, `StmObjects.dfy`). Any number of threads run arbitrary
  transaction bodies. A step is what the locks make atomic: a read with its
  version, an unlocked re-read of the live value, taking the commit lock,
  validating one variable, assigning one value, bumping its version, parking,
  waking. Bodies are functions of what they have seen, so they may branch and
  need not terminate. Results: serializability of every run in commit order,
  exactness of conflict detection, no missed change while blocked by `retry`,
  absence of deadlock, how a call ends and when it tries again, that a transaction
  left alone commits and a sleeping one is woken and served, and a bound on lost
  validations that is reached. The objects `TVar` and `Transaction` are classes.
* **Read-write lock** (`RwLock.dfy`). The monitor's sections as steps over threads
  that are inside, parked or woken. Safety, who gets in and who is woken,
  no lost wake-up, writer preference, and a bound on how long any schedule can go on once no new calls arrive. The
  lock object's sections are methods tied to the same step functions.
* **Open-addressing hash index** (`HashIndex.dfy`). Arrays, linear probing and
  deletion by re-inserting the rest of the cluster, proved against a finite map.
  The deletion loop's invariant tracks the one hole that probe chains may cross.
* **Byron UTxO transition** (`Byron.dfy`). Validation that accumulates errors,
  sequential application, and whole chains: no replay, no double spend, no
  overwritten entry, conservation of value.
* **Rewards** (`Rewards.dfy`). The stake snapshot, the reward pot, the pool reward
  formula, its split, and the bound on what an epoch distributes, over exact
  rationals (type `real`) with truncation toward zero.
* **Key-evolving signatures** (`Kes.dfy`). Key trees of any depth, signing,
  verification, evolution and serialization.
* **Hard-fork era arithmetic** (`Hfc.dfy`). Slot and epoch conversion over eras of
  different epoch length, several of which may start together.
* **Mempool** (`Mempool.dfy`). The stateful class over any validator, with replay
  as the meaning of its contents.
* **Certificates** (`Delegation.dfy`) and **ratification** (`Ratify.dfy`). Strict and
  lenient certificate processing, deposits, and the stake-weighted vote count.

Where code and documentation disagree, the models follow the code:

* `stm.py` promises that a transaction reads a consistent snapshot (lines 12-15 and
  131). A running transaction can see half of another's commit, because a read
  takes no commit lock; only transactions that pass validation saw one store.
  `StmTornRead.RunningTransactionsMaySeeTornState` gives such a run and
  `StmProofs.ValidatedReads` the guarantee that does hold: the guard is validation.
* `stm.py` promises no starvation (line 15). A transaction can lose every attempt it
  has: `StmProgress.TransactionsCanStarve` gives such a schedule for every number of
  retries. It loses at most one validation to each transaction that another thread
  commits and that writes something (`StmProgress.LossesAreOthersCommits`).
* `kes_serialization.py` stores an unspent sibling subtree as its first leaf's seed
  and rebuilds it as if that were the subtree's seed (lines 68-89, 130, 185), and it
  tells the active half from the other by its verification key (lines 189-220). The
  live secret comes back if the halves of every half-spent subtree have different
  verification keys; if some have the same, a leaf grown from zeros comes back instead.
  With different halves the secrets of all remaining periods come back if at most two
  periods remain, p + 2 >= 2^d, so always for depths 0 and 1; and, unless a secret is
  derived from itself by steps to the left, only then. `Kes.RoundTripIsExact` states
  both directions of both, about the key that deserialization returns.
* `rewards.py` says the operator keeps a pledge-based share (lines 286-289). When
  the listed delegators make up the pool's stake, as the snapshot's own do, the
  final clamp takes that share back to within one lovelace per delegator. Operator and
  members keep their shares exactly when these fit into the reward together
  (`Rewards.SharesAreKeptExactly`); `Rewards.PledgeShareCanBeLost` is a snapshot pool
  whose operator is left with nothing.
* `rewards.py` can compute a negative pool reward when the pledge exceeds the pool's
  stake; `Rewards.NeverNegativeExactly` gives the condition.
* `mempool.py` calls `split_by_size` a split into prefix and suffix (lines 663-665).
  It skips what does not fit and goes on, so it is one exactly when nothing behind
  the longest fitting prefix fits into the room left.
* `mempool.py` removes and evicts transactions without rewinding the validator or
  checking the rest again. Whatever the validator, the rest still replays exactly when
  nothing stays behind a removed transaction, and the validator's state is still that
  of the rest exactly when nothing was removed (`Mempool.RemovalKeepsReplayExactly`).
  Evictions take the oldest, so as long as slots ascend they keep replay only if they
  take all or nothing (`Mempool.EvictionsComeFirst`). The next sync repairs it.
* `hfc.py`, `advance_to_slot` (lines 1087-1090) moves the tip before the conversion that
  may fail. After a failure epoch and era are still those of the tip exactly when the
  new tip is a slot of the same epoch and era, which a negative one never is;
  `Hfc.FallOutOfStep` is an advance after which they are not.
* `delegation.py` says that `apply_block_certs` does not modify the state in place
  (line 119). It does.
* `shelley_delegation.py` says that a re-registration pays no deposit (lines
  277-278); `compute_certificate_deposits` counts one
  (`Delegation.ReregistrationIsCharged`).
* `conway.py` asks `_is_drep_active` without an epoch (lines 576, 581, 588 and 592), so
  no DRep is ever treated as expired by the vote count. Its sums are those over the
  active DReps exactly when every expired one weighs nothing
  (`Ratify.ExpiredDRepsCountExactly`), and the verdict can differ
  (`Ratify.ExpiredDRepsChangeTheVerdict`).

## Model

| member | source | states |
|---|---|---|
| `StmProofs.Serializability` | packages/vibe-core/src/vibe/core/stm.py:169-217 | In every interleaving the committed transactions have the results and writes of running alone, one after the other in commit order; `atomically` hands back those results in that order; when the commit lock is free the store is the serial store, so aborted attempts changed nothing |
| `StmProofs.StepKeeps` | packages/vibe-core/src/vibe/core/stm.py:113-217 | Every step of every thread keeps the invariant behind serializability |
| `StmProofs.ConflictsAreExact` | packages/vibe-core/src/vibe/core/stm.py:150-161 | While no commit is being applied, a recorded version is current if and only if no transaction committed since then wrote the variable: no conflict passes and nothing else is rejected |
| `StmProofs.ValidatedReads` | packages/vibe-core/src/vibe/core/stm.py:113-161 | After validation every shared read of the transaction, unlocked re-reads included, agrees with the store at its commit point |
| `StmProofs.CurrentVersionsMeanSerialReads` | packages/vibe-core/src/vibe/core/stm.py:113-161 | Any attempt whose recorded versions are all current, at whatever point of its body, has done what the body does alone on the serial store; while no commit is being applied |
| `StmProofs.CommitPoint` | packages/vibe-core/src/vibe/core/stm.py:206-213 | At the commit point, result and staged writes are those of running the body alone on the current serial store |
| `StmProofs.RetryMissesNothing` | packages/vibe-core/src/vibe/core/stm.py:196-204 | Whenever the commit lock is free, everything read by a thread parked in retry and not notified is still at the version read |
| `StmProofs.HolderCanStep` | packages/vibe-core/src/vibe/core/stm.py:150-167 | Whoever holds the commit lock can always take its next step |
| `StmProofs.NoDeadlock` | packages/vibe-core/src/vibe/core/stm.py:169-217 | A thread inside `atomically` can take a step, or the lock holder can |
| `StmCalls.CallsBegin` | packages/vibe-core/src/vibe/core/stm.py:190-193 | A call begins with an empty first attempt, or, with no attempts allowed, not at all |
| `StmCalls.CallsEndExactly` | packages/vibe-core/src/vibe/core/stm.py:190-217 | A step ends a call exactly when it hands back the result that the body returned, the body raises, or the last attempt fails, by a lost validation or a wake-up |
| `StmCalls.AttemptsGoOn` | packages/vibe-core/src/vibe/core/stm.py:190-215 | A call keeps body and retries; a failed attempt is followed by a fresh one with one retry less, every other step goes on with the same attempt |
| `StmCalls.SleepsUntilAWrite` | packages/vibe-core/src/vibe/core/stm.py:194-204 | A transaction sleeps exactly from the decision of an attempt that retries, with all it has read unchanged, until one that wrote something finishes or the wait times out |
| `StmCalls.LeftAloneItCommits` | packages/vibe-core/src/vibe/core/stm.py:190-215 | Whenever the lock is free, a thread starting an attempt can by its own steps commit what its body does alone on the store: these writes, versions one higher, that result, sleepers awake if it wrote |
| `StmCalls.SleeperIsServed` | packages/vibe-core/src/vibe/core/stm.py:194-204 | From any state in which a transaction with a retry left sleeps, another one's commit wakes it and it commits on the store as it then is, without a timeout |
| `StmCalls.TakerIsServed` | packages/vibe-core/src/vibe/core/stm.py:194-204 | A run from the start in which a transaction sleeps on an empty variable, is notified, and hands back what was stored |
| `StmProgress.LossesAreOthersCommits` | packages/vibe-core/src/vibe/core/stm.py:206-215 | On every schedule a thread loses at most as many validations as other threads have committed transactions that wrote something |
| `StmProgress.TransactionsCanStarve` | packages/vibe-core/src/vibe/core/stm.py:193-217 | For every number of retries a schedule on which a transaction loses them all, one to each commit of a writer that changes no value, and ends without a result |
| `Stm.SerialMeaningIsUnique` | packages/vibe-core/src/vibe/core/stm.py:169-175 | Running a body alone on a store has at most one result and set of writes, so the serial history is determined |
| `Stm.LocalRunIsRunAlone` | packages/vibe-core/src/vibe/core/stm.py:113-148 | A run whose shared reads agree with one store is the run the body makes alone on it, with read-your-own-writes |
| `StmTornRead.RunningTransactionsMaySeeTornState` | packages/vibe-core/src/vibe/core/stm.py:113-134 | A run in which a running transaction reads two variables at values that no serial store has together |
| `StmObjects.TVar.Set` | packages/vibe-core/src/vibe/core/stm.py:82-87 | Value and version move together, the version by one |
| `StmObjects.Transaction.Read` | packages/vibe-core/src/vibe/core/stm.py:113-134 | A read yields the transaction's own staged value if there is one, else the live value, and records the version only at the first meeting |
| `StmObjects.Transaction.Write` | packages/vibe-core/src/vibe/core/stm.py:136-148 | A write is staged, changes the transaction's view of that variable alone, and records the version only at the first meeting |
| `StmObjects.Transaction.Validate` | packages/vibe-core/src/vibe/core/stm.py:150-161 | Succeeds exactly when every recorded version is current |
| `StmObjects.Transaction.Commit` | packages/vibe-core/src/vibe/core/stm.py:163-166 | Every staged write is stored and its version moves by one |
| `StmObjects.Transaction.TryCommit` | packages/vibe-core/src/vibe/core/stm.py:206-215 | All writes become visible as the transaction saw them, and nothing else; or, if a version is stale, nothing changes |
| `RwLock.MutualExclusion` | packages/vibe-core/src/vibe/core/rwlock.py:46-78 | In every reachable state a writer is alone inside, and the three fields equal the true counts |
| `RwLock.NoLostWakeup` | packages/vibe-core/src/vibe/core/rwlock.py:46-78 | After any run, a parked reader has a thread that writes or waits to write, a parked writer one that reads or writes, and some thread is inside or woken that will notify them |
| `RwLock.ReaderEntersExactly` | packages/vibe-core/src/vibe/core/rwlock.py:52-55 | In every reachable state a reader gets in exactly when no thread writes or waits to write, however many read; otherwise it parks |
| `RwLock.WriterEntersExactly` | packages/vibe-core/src/vibe/core/rwlock.py:67-72 | In every reachable state a writer, new or woken, gets in exactly when no thread reads or writes |
| `RwLock.LeavingWakesExactly` | packages/vibe-core/src/vibe/core/rwlock.py:58-78 | Whoever leaves wakes all that are parked if no reader is left, and nobody otherwise |
| `RwLock.ReadersShare` | packages/vibe-core/src/vibe/core/rwlock.py:25-38 | Any set of threads can all be reading at once |
| `RwLock.NoReaderOvertakesAWaitingWriter` | packages/vibe-core/src/vibe/core/rwlock.py:53-55 | Over any run during which a writer waits, no new reader enters |
| `RwLock.NoDeadlock` | packages/vibe-core/src/vibe/core/rwlock.py:46-78 | As long as a call is unfinished, some thread can advance |
| `RwLock.AdvanceMakesProgress` | packages/vibe-core/src/vibe/core/rwlock.py:46-78 | Every advance finishes a call or uses up a runnable thread |
| `RwLock.EveryCallIsServed` | packages/vibe-core/src/vibe/core/rwlock.py:30-38 | With no new calls, n threads make at most n(n+1)+n advances on every schedule, and no thread can advance exactly when every call has returned |
| `RwLock.Lock.ReadSection` | packages/vibe-core/src/vibe/core/rwlock.py:52-55 | The reader's entry section does to the fields what the model's step does, and says whether the reader parks |
| `RwLock.Lock.ReadExit` | packages/vibe-core/src/vibe/core/rwlock.py:58-62 | The reader's exit section, and when it notifies |
| `RwLock.Lock.WriteSection` | packages/vibe-core/src/vibe/core/rwlock.py:67-72 | The writer counts itself as waiting before looking at the condition |
| `RwLock.Lock.WriteLoop` | packages/vibe-core/src/vibe/core/rwlock.py:69-72 | A woken writer looks again and enters or parks |
| `RwLock.Lock.WriteExit` | packages/vibe-core/src/vibe/core/rwlock.py:75-78 | The writer's exit section |
| `HashIndex.MaskIsRemainder` | benchmarks/data_architecture/bench_storage.py:546-549 | Masking with capacity minus one is the remainder, for every power of two |
| `HashIndex.ProbeDecides` | benchmarks/data_architecture/bench_storage.py:572-578 | Where a probe ends decides membership and finds the value |
| `HashIndex.ProbeTerminatesExactly` | benchmarks/data_architecture/bench_storage.py:561-566 | A probe ends exactly when a slot is free or the key is present; the map never exceeds the capacity |
| `HashIndex.PutKeepsChains` | benchmarks/data_architecture/bench_storage.py:560-570 | Storing where the probe ended keeps every probe chain unbroken and the keys distinct |
| `HashIndex.Reinserted` | benchmarks/data_architecture/bench_storage.py:588-593 | Re-inserting an entry of the cluster puts it back or moves it into the hole, nowhere else |
| `HashIndex.MoveHole` | benchmarks/data_architecture/bench_storage.py:588-593 | Moving an entry into the hole leaves the table in order except for a new hole where the entry was |
| `HashIndex.CloseHole` | benchmarks/data_architecture/bench_storage.py:588 | When the next slot is free, the whole table is in order again |
| `HashIndex.MoveShrinks` | benchmarks/data_architecture/bench_storage.py:588-593 | Every move brings the entries closer to their homes: the rehash loop ends, also on a full table |
| `HashIndex.Index.constructor` | benchmarks/data_architecture/bench_storage.py:542-553 | An empty map whose capacity is the least power of two that is at least the wanted one |
| `HashIndex.Index.Probe` | benchmarks/data_architecture/bench_storage.py:561-566 | The probe loop ends at the first slot that is free or holds the key |
| `HashIndex.Index.Get` | benchmarks/data_architecture/bench_storage.py:572-578 | Looks the key up in the map |
| `HashIndex.Index.Insert` | benchmarks/data_architecture/bench_storage.py:560-570 | Updates exactly that key of the map; size is the map's cardinality |
| `HashIndex.Index.Rehash` | benchmarks/data_architecture/bench_storage.py:587-593 | Restores the probe chains of the rest of the cluster without changing the map |
| `HashIndex.Index.Delete` | benchmarks/data_architecture/bench_storage.py:580-596 | Removes exactly that key, reports whether it was there, and leaves every other key findable |
| `Byron.MinFeeIsLeast` | packages/vibe-cardano/src/vibe/cardano/ledger/byron_rules.py:101-128 | The minimum fee is the least whole number covering the exact linear fee |
| `Byron.ErrorsExactly` | packages/vibe-cardano/src/vibe/cardano/ledger/byron_rules.py:141-226 | No error is reported if and only if all five rules hold, with input sums taken over distinct entries |
| `Byron.ErrorsName` | packages/vibe-cardano/src/vibe/cardano/ledger/byron_rules.py:141-226 | Which errors are reported, in order: missing inputs by position, repetitions, bad outputs with index and value, and then the two sums or the two fees |
| `Byron.ValidateTx` | packages/vibe-cardano/src/vibe/cardano/ledger/byron_rules.py:141-226 | Reports exactly the errors of the rules, in order, with the early exits |
| `Byron.ApplyTx` | packages/vibe-cardano/src/vibe/cardano/ledger/byron_rules.py:234-284 | For a valid transaction the new set, entry by entry: outputs under the new id in order, inputs gone, the rest untouched; else the errors |
| `Byron.ApplyBlock` | packages/vibe-cardano/src/vibe/cardano/ledger/byron_rules.py:292-327 | Applies all transactions in sequence, or reports the first invalid one with its index and errors |
| `Byron.ChainIsRun` | packages/vibe-cardano/src/vibe/cardano/ledger/byron_rules.py:292-327 | A chain of blocks is accepted exactly when its transactions are, one after another |
| `Byron.NoReplayNoDoubleSpend` | packages/vibe-cardano/src/vibe/cardano/ledger/byron_rules.py:141-284 | Along every accepted run no transaction occurs twice, even with other witnesses, no key is consumed twice, nothing produced ever existed before, and the set is what was created and not spent |
| `Byron.UpdateValue` | packages/vibe-cardano/src/vibe/cardano/ledger/byron_rules.py:275-284 | One update loses exactly the implicit fee and the value of entries that the produced ones overwrite, whatever the ids |
| `Byron.ValueIsConserved` | packages/vibe-cardano/src/vibe/cardano/ledger/byron_rules.py:203-224 | Along every accepted run value plus fees equals the genesis value, and every fee is at least the minimum |
| `Byron.ChainSafety` | packages/vibe-cardano/src/vibe/cardano/ledger/byron_rules.py:292-327 | The safety results for chains of blocks |
| `Rewards.PotIsSplitWithoutLoss` | packages/vibe-cardano/src/vibe/cardano/consensus/rewards.py:118-161 | Expansion and treasury cut are the floors of the exact amounts; the pot is split without loss into non-negative parts |
| `Rewards.BracketCleared` | packages/vibe-cardano/src/vibe/cardano/consensus/rewards.py:242-266 | The reward formula's bracket, free of divisions, as a polynomial in capped stake and pledge |
| `Rewards.BracketExtremes` | packages/vibe-cardano/src/vibe/cardano/consensus/rewards.py:242-266 | Without pledge the bracket is the capped stake; fully saturated it is 1 + a0 times the saturation point |
| `Rewards.PoolRewardBound` | packages/vibe-cardano/src/vibe/cardano/consensus/rewards.py:169-271 | No pool gets more than the pot times its share of the stake, whatever pledge and performance |
| `Rewards.PoolRewardIsExactly` | packages/vibe-cardano/src/vibe/cardano/consensus/rewards.py:225-271 | The reward is n exactly when n is R f / (1 + a0) times the bracket, truncated toward zero, written without divisions for the capped relative stake and pledge; f is the share of expected blocks made |
| `Rewards.RewardExtremes` | packages/vibe-cardano/src/vibe/cardano/consensus/rewards.py:242-271 | Without pledge the reward is the floor of R f sigma / (1 + a0), saturated in stake and pledge that of R f z |
| `Rewards.RewardFollowsPerformance` | packages/vibe-cardano/src/vibe/cardano/consensus/rewards.py:232-240 | More blocks never earn less if the full reward is not negative and never more if it is not positive; all of them earn the full reward, none earn nothing |
| `Rewards.NeverNegativeExactly` | packages/vibe-cardano/src/vibe/cardano/consensus/rewards.py:232-271 | The reward is non-negative for every pot and all block counts if and only if the pledge is tolerable, which a pledge of at most the stake is |
| `Rewards.NegativeExactly` | packages/vibe-cardano/src/vibe/cardano/consensus/rewards.py:232-271 | One call gives a negative reward exactly when blocks were made, or not counted, and the discounted full reward is at most -1 |
| `Rewards.RewardsCanBeNegative` | packages/vibe-cardano/src/vibe/cardano/consensus/rewards.py:258-271 | A pool that gets -7 |
| `Rewards.ComputeStakeDistribution` | packages/vibe-cardano/src/vibe/cardano/consensus/epoch_boundary.py:96-146 | Each registered pool gets exactly the positive stakes delegated to it; the total is the sum over pools and over credentials counted |
| `Rewards.NoStakeIsLost` | packages/vibe-cardano/src/vibe/cardano/consensus/epoch_boundary.py:96-146 | With no stake negative, a pool has the whole stake of the credentials that delegate to it, and the total is that of all that delegate to any |
| `Rewards.MemberRewards` | packages/vibe-cardano/src/vibe/cardano/consensus/rewards.py:279-363 | The split: cost, margin, pledge share, positive truncated member shares, clamp and wipe-out |
| `Rewards.SplitNeverExceeds` | packages/vibe-cardano/src/vibe/cardano/consensus/rewards.py:344-356 | Operator and members together never get more than the reward, with no condition on cost, margin or delegators |
| `Rewards.SharesSum` | packages/vibe-cardano/src/vibe/cardano/consensus/rewards.py:334-342 | Truncating the members' shares loses less than one per delegator |
| `Rewards.SplitBounds` | packages/vibe-cardano/src/vibe/cardano/consensus/rewards.py:315-363 | When the stakes listed make up the pool's, nobody is wiped out, reward - n <= paid <= reward, and the operator gets the floor of cost and margin cut plus at most n |
| `Rewards.SplitIsExactly` | packages/vibe-cardano/src/vibe/cardano/consensus/rewards.py:316-356 | The split in the pool's parameters: a cost of at least the reward, which may be negative, takes it all; else floor of cost, margin and pledge part for the operator, floors of the proportional parts for the delegators, and the clamp |
| `Rewards.SplitAmounts` | packages/vibe-cardano/src/vibe/cardano/consensus/rewards.py:316-356 | When the stakes listed make up the pool's, the operator gets the floor of cost and margin and at most n more, every delegator with a part of at least one the floor of it, and nobody else is listed |
| `Rewards.SharesAreKeptExactly` | packages/vibe-cardano/src/vibe/cardano/consensus/rewards.py:325-356 | Operator and members get what they were allotted, the pledge share included, exactly when the allotments fit into the reward |
| `Rewards.PledgeShareCanBeLost` | packages/vibe-cardano/src/vibe/cardano/consensus/rewards.py:344-356 | A pool of the snapshot whose operator is allotted the whole reward and gets nothing |
| `Rewards.SnapshotPoolsPayOut` | packages/vibe-cardano/src/vibe/cardano/consensus/epoch_boundary.py:339-368 | With the snapshot's own delegators, a pool pays out its whole reward up to less than one per delegator |
| `Rewards.DistributeRewards` | packages/vibe-cardano/src/vibe/cardano/consensus/epoch_boundary.py:336-368 | Every registered pool with stake gets its split; the total is the sum of what is handed out |
| `Rewards.RewardsNeverExceedThePot` | packages/vibe-cardano/src/vibe/cardano/consensus/epoch_boundary.py:226-227 | All pools together never get more than the rewards pot |
| `Rewards.ProcessEpochRewards` | packages/vibe-cardano/src/vibe/cardano/consensus/epoch_boundary.py:330-368 | Snapshot, pot and every pool's split together: exactly the registered pools with stake have a result, that of their own parameters and stake; what is distributed is at most the pot |
| `Kes.KeygenIsFresh` | packages/vibe-cardano/src/vibe/cardano/crypto/kes.py:195-246 | Key generation succeeds exactly for seeds of 32 bytes, and gives a complete tree of the depth asked for, with one secret for each of its 2^d periods |
| `Kes.KeygenLeaves` | packages/vibe-cardano/src/vibe/cardano/crypto/kes.py:226-246 | The secret of period t of a generated key is the seed reached from the root by the binary digits of t, left for 0 and right for 1 |
| `Kes.SecretsDifferExactly` | packages/vibe-cardano/src/vibe/cardano/crypto/kes.py:226-246 | All periods of a generated key have different secrets exactly when the two derivations do not collide on its seeds |
| `Kes.EvolvesTo` | packages/vibe-cardano/src/vibe/cardano/crypto/kes.py:473-539 | What the tree looks like after p updates, for every p |
| `Kes.Evolution` | packages/vibe-cardano/src/vibe/cardano/crypto/kes.py:473-539 | p updates keep the root key and exactly the secrets of the periods from p on, never meet a zeroed leaf, and the update at the last period, and no earlier one, reports exhaustion |
| `Kes.SignsExactlyTheRemainingPeriods` | packages/vibe-cardano/src/vibe/cardano/crypto/kes.py:340-391 | A key at period p signs exactly the periods from p to the last, each by the leaf of that period with the path's verification keys |
| `Kes.SignaturesVerify` | packages/vibe-cardano/src/vibe/cardano/crypto/kes.py:318-332 | Every signature made has length 64(d+1) and verifies under the root |
| `Kes.VerificationIsExact` | packages/vibe-cardano/src/vibe/cardano/crypto/kes.py:399-465 | Under a tree's root, verification accepts exactly the signatures that name the tree's path and verify under the leaf of that period, apart from those that exhibit a second preimage of the pair hash |
| `Kes.SerializedLength` | packages/vibe-cardano/src/vibe/cardano/crypto/kes_serialization.py:44-56 | Every key in its evolution serializes, to 32 + 96 d bytes |
| `Kes.LoadsByLength` | packages/vibe-cardano/src/vibe/cardano/crypto/kes_serialization.py:161-166 | Exactly the data of length 32 + 96 d load, whatever wrote them |
| `Kes.LoadsExactly` | packages/vibe-cardano/src/vibe/cardano/crypto/kes_serialization.py:168-220 | As what any such data load: the half stored in full is the right one if its verification key is the right one's and not the left one's, else the left one; the other grows from the seed |
| `Kes.SerializationKeepsTheLiveKey` | packages/vibe-cardano/src/vibe/cardano/crypto/kes_serialization.py:92-220 | Every key in its evolution loads again, with the same depth and root, and signs the current period identically if the verification keys differ where a left half is spent |
| `Kes.RoundTripIsExact` | packages/vibe-cardano/src/vibe/cardano/crypto/kes_serialization.py:126-220 | The loaded key has the live secret if and only if the halves of half-spent subtrees differ in verification key, short of a coincidence with what grows from zeros; if they do, and no secret is derived from itself, it has all remaining secrets if and only if p + 2 >= 2^d |
| `Kes.ShallowKeysSurvive` | packages/vibe-cardano/src/vibe/cardano/crypto/kes_serialization.py:126-185 | With at most two periods left, or a depth of at most 1, the loaded key has all remaining secrets, whatever the derivation |
| `Kes.EqualHalvesLoseTheKey` | packages/vibe-cardano/src/vibe/cardano/crypto/kes_serialization.py:189-208 | A key of depth 1 with two equal halves, which at period 1 loads with zeros for the live secret |
| `Kes.DeepKeysCanBeLost` | packages/vibe-cardano/src/vibe/cardano/crypto/kes_serialization.py:184-185 | A key of depth 2 whose loaded form has lost secrets of periods still to come |
| `Hfc.SortedErasAre` | packages/vibe-cardano/src/vibe/cardano/consensus/hfc.py:280-284 | The era list is sorted by start epoch, then era, and lists exactly the transitions |
| `Hfc.SortedIsUnique` | packages/vibe-cardano/src/vibe/cardano/consensus/hfc.py:280-284 | Any list sorted that way with the same entries is this one |
| `Hfc.EraStartSlots` | packages/vibe-cardano/src/vibe/cardano/consensus/hfc.py:270-304 | The accumulated first slots of all eras |
| `Hfc.FirstEpochIsLeast` | packages/vibe-cardano/src/vibe/cardano/consensus/hfc.py:280-304 | The timeline begins with the least epoch configured, which is 0 unless an era starts before Byron |
| `Hfc.EpochsAreNonNegativeExactly` | packages/vibe-cardano/src/vibe/cardano/consensus/hfc.py:346-392 | No slot is in a negative epoch exactly when no era is configured to start before Byron |
| `Hfc.EpochsHaveTheirLength` | packages/vibe-cardano/src/vibe/cardano/consensus/hfc.py:270-304 | The first epoch starts at slot 0 and every epoch lasts as many slots as is configured for its era, or else 21600 in Byron and 432000 later, ties and era changes included |
| `Hfc.ConversionsAreAdjoint` | packages/vibe-cardano/src/vibe/cardano/consensus/hfc.py:346-444 | A slot is in epoch e or later iff it is at or after the first slot of e; round trip, bounds, and the era of a slot is the era of its epoch |
| `Hfc.ConversionsAreMonotone` | packages/vibe-cardano/src/vibe/cardano/consensus/hfc.py:346-444 | Both conversions are monotone, to slots strictly |
| `Hfc.EraIsLatestStarted` | packages/vibe-cardano/src/vibe/cardano/consensus/hfc.py:1092-1111 | The era of an epoch is the last one that has started |
| `Hfc.AnswersRoundTrip` | packages/vibe-cardano/src/vibe/cardano/consensus/hfc.py:307-343 | With the horizon check: answers are inverse to each other, and an epoch that can be told for a slot has a first slot that can be told |
| `Hfc.HorizonIsExactly` | packages/vibe-cardano/src/vibe/cardano/consensus/hfc.py:307-328 | The safe zone runs from the first slot of the era that starts last |
| `Hfc.AnswersExactly` | packages/vibe-cardano/src/vibe/cardano/consensus/hfc.py:331-444 | Which slots and epochs are answered, and with which error the others are refused; the horizon itself is inside |
| `Hfc.CurrentEra` | packages/vibe-cardano/src/vibe/cardano/consensus/hfc.py:225-267 | The era of a slot, without a horizon check |
| `Hfc.SlotToEpoch` | packages/vibe-cardano/src/vibe/cardano/consensus/hfc.py:346-392 | The epoch of a slot, or the error for a negative slot or one past the horizon |
| `Hfc.EpochToFirstSlot` | packages/vibe-cardano/src/vibe/cardano/consensus/hfc.py:395-444 | The first slot of an epoch, or the error |
| `Hfc.HfcState.AdvanceToSlot` | packages/vibe-cardano/src/vibe/cardano/consensus/hfc.py:1075-1090 | Brings slot, epoch and era together if the conversion succeeds; otherwise only the slot has moved, and they are together exactly when the slot is one of the old epoch and era |
| `Hfc.FallOutOfStep` | packages/vibe-cardano/src/vibe/cardano/consensus/hfc.py:1087-1090 | An advance past the horizon after which tip and epoch disagree |
| `Mempool.GreedyReplays` | packages/vibe-cardano/src/vibe/cardano/mempool/mempool.py:457-489 | What revalidation keeps replays from the base state, to the state it ends in |
| `Mempool.GreedyKeepsAllExactly` | packages/vibe-cardano/src/vibe/cardano/mempool/mempool.py:457-489 | Revalidation removes nothing if and only if the tickets replay as they stand |
| `Mempool.GreedyDecides` | packages/vibe-cardano/src/vibe/cardano/mempool/mempool.py:468-486 | A ticket survives exactly when it is valid after the survivors before it |
| `Mempool.GreedyReports` | packages/vibe-cardano/src/vibe/cardano/mempool/mempool.py:468-486 | Reported as removed are exactly the tickets that are not kept |
| `Mempool.Mempool.AddTx` | packages/vibe-cardano/src/vibe/cardano/mempool/mempool.py:286-357 | Order of checks, all effects, consistency of list, index, slots and size within capacity, fresh ticket number; what replayed from some base still does |
| `Mempool.Mempool.RemoveTxs` | packages/vibe-cardano/src/vibe/cardano/mempool/mempool.py:380-409 | Removes exactly the listed transactions, in order, and keeps the representation consistent; what is left replays if nothing stays behind a removed one |
| `Mempool.Mempool.SyncWithLedger` | packages/vibe-cardano/src/vibe/cardano/mempool/mempool.py:433-504 | Keeps exactly the greedy replay from the fresh state and leaves the validator in the replayed state |
| `Mempool.AddAllThenResync` | packages/vibe-cardano/src/vibe/cardano/mempool/mempool.py:433-504 | After any number of submissions, syncing again from the same base at the same slot removes nothing |
| `Mempool.RemovalKeepsReplayExactly` | packages/vibe-cardano/src/vibe/cardano/mempool/mempool.py:359-409 | For every validator what is left replays, if and only if only the end was taken out; and the validator's state is still that of the rest, if and only if nothing was |
| `Mempool.RemoveLeavesGap` | packages/vibe-cardano/src/vibe/cardano/mempool/mempool.py:380-409 | For any contents and any removal that does not only take the end: a mempool that had taken them and whose rest does not replay after `RemoveTxs` |
| `Mempool.EvictLeavesGap` | packages/vibe-cardano/src/vibe/cardano/mempool/mempool.py:506-571 | The same for `EvictExpired` |
| `Mempool.EvictionsComeFirst` | packages/vibe-cardano/src/vibe/cardano/mempool/mempool.py:506-571 | With ascending insertion slots an eviction takes only the end exactly when it takes all or nothing |
| `Mempool.Mempool.EvictExpired` | packages/vibe-cardano/src/vibe/cardano/mempool/mempool.py:506-571 | Evicts and reports exactly the transactions inserted at least the timeout ago; what is left replays if nothing stays behind an evicted one |
| `Mempool.Mempool.GetTxsForBlock` | packages/vibe-cardano/src/vibe/cardano/mempool/mempool.py:593-604 | The longest prefix that fits |
| `Mempool.FittingIsLongest` | packages/vibe-cardano/src/vibe/cardano/mempool/mempool.py:573-592 | The prefix fits and no longer one does |
| `Mempool.Mempool.SplitBySize` | packages/vibe-cardano/src/vibe/cardano/mempool/mempool.py:676-687 | The two parts as the loop collects them |
| `Mempool.SplitIsAPrefixExactly` | packages/vibe-cardano/src/vibe/cardano/mempool/mempool.py:660-687 | The first part starts with the block's transactions and fits; it is a prefix exactly when nothing behind the block's prefix fits into the room left |
| `Mempool.SplitDecides` | packages/vibe-cardano/src/vibe/cardano/mempool/mempool.py:676-687 | Both parts keep the order; a ticket is in the first exactly when it fits beside those before it that are, else in the second |
| `Mempool.SplitCanSkip` | packages/vibe-cardano/src/vibe/cardano/mempool/mempool.py:676-687 | Sizes 3 and 1 split at 2: the second is taken and the first is not |
| `Ratify.RatificationIsMonotone` | packages/vibe-cardano/src/vibe/cardano/ledger/conway.py:507-676 | Turning any votes, silence included, into Yes never undoes a ratification, in stake and in count mode |
| `Ratify.SilentPoolsDoNotCount` | packages/vibe-cardano/src/vibe/cardano/ledger/conway.py:453-459 | For hard forks and before protocol version 10 silent pools have no influence |
| `Ratify.SilentPoolsRefuse` | packages/vibe-cardano/src/vibe/cardano/ledger/conway.py:461-475 | From version 10 on, any set of silent pools without a predefined delegation counts as if all of them had voted No |
| `Ratify.SilenceMeans` | packages/vibe-cardano/src/vibe/cardano/ledger/conway.py:422-475 | The vote that a silent pool could cast without changing the verdict, case by case |
| `Ratify.TallyDReps` | packages/vibe-cardano/src/vibe/cardano/ledger/conway.py:566-597 | Every registered DRep counts in the total and every DRep's Yes in the sum, active or not |
| `Ratify.ExpiredDRepsCountExactly` | packages/vibe-cardano/src/vibe/cardano/ledger/conway.py:566-597 | Total and Yes sum are those over the DReps active at an epoch exactly when every expired one in them weighs nothing |
| `Ratify.ExpiredDRepsChangeTheVerdict` | packages/vibe-cardano/src/vibe/cardano/ledger/conway.py:566-597 | A unanimous Yes of the active DReps that is refused because of an expired one |
| `Ratify.TallyPools` | packages/vibe-cardano/src/vibe/cardano/ledger/conway.py:609-666 | Yes stake, and total stake without abstentions, over all pools; or heads of those that voted |
| `Ratify.CheckRatification` | packages/vibe-cardano/src/vibe/cardano/ledger/conway.py:507-676 | Ratified exactly when every body that has a threshold meets it and the committee is large enough |
| `Ratify.RatifiedExactly` | packages/vibe-cardano/src/vibe/cardano/ledger/conway.py:483-676 | The verdict in ratios: every body asked has a Yes share of at least its threshold, equality included, of seats, registered DReps' stake, or stake that does not abstain; and the committee its minimum size |
| `Ratify.DefaultsAre` | packages/vibe-cardano/src/vibe/cardano/ledger/conway_types.py:541-577 | Which bodies the default thresholds ask, and for how much |
| `Delegation.ProcessCertificates` | packages/vibe-cardano/src/vibe/cardano/ledger/shelley_delegation.py:442-472 | The fold over a list, stopping at the first error |
| `Delegation.StrictAcceptsExactly` | packages/vibe-cardano/src/vibe/cardano/ledger/shelley_delegation.py:442-472 | A list is accepted exactly when the preconditions of each certificate's rule hold in the state that those before it leave |
| `Delegation.RewardNetworkIs` | packages/vibe-cardano/src/vibe/cardano/ledger/shelley_delegation.py:325-345 | The network is read from the lower four bits of the header byte, of addresses whose upper four are 14 or 15 |
| `Delegation.RefusalsAreExplained` | packages/vibe-cardano/src/vibe/cardano/ledger/shelley_delegation.py:149-392 | The error of a refused certificate names a precondition that does not hold, with the values that break it |
| `Delegation.StrictKeepsSound` | packages/vibe-cardano/src/vibe/cardano/ledger/shelley_delegation.py:149-392 | Accepted lists keep delegations within registered credentials and pools, retirements within registered pools, VRF keys unique, and the sum of all reward balances |
| `Delegation.StrictRunsAreSound` | packages/vibe-cardano/src/vibe/cardano/ledger/shelley_delegation.py:442-472 | Everything reached from the empty state by accepted certificates is sound |
| `Delegation.StrictIsLenient` | packages/vibe-cardano/src/vibe/cardano/ledger/delegation.py:141-205 | Whatever the strict rules accept, the lenient replay takes to the same state |
| `Delegation.LastWordDecides` | packages/vibe-cardano/src/vibe/cardano/ledger/delegation.py:141-205 | Registration, chosen pool, pool parameters and retirement after any list are, entry by entry, those of the last certificate on the matter, or as before if there is none |
| `Delegation.BalancesStay` | packages/vibe-cardano/src/vibe/cardano/ledger/delegation.py:141-205 | A reward balance stays until the credential is deregistered, and a new one is 0 |
| `Delegation.LenientKeepsSoundExactly` | packages/vibe-cardano/src/vibe/cardano/ledger/delegation.py:141-205 | A lenient step keeps those invariants exactly when the guard that it skips holds |
| `Delegation.LenientCanBreakSoundness` | packages/vibe-cardano/src/vibe/cardano/ledger/delegation.py:141-205 | Each of the skipped guards can fail from the empty state: unknown pool delegated to or retired, VRF key used twice |
| `Delegation.LenientKeepsRegistered` | packages/vibe-cardano/src/vibe/cardano/ledger/delegation.py:141-205 | Without any guard, delegating credentials stay registered |
| `Delegation.DelegationState.ApplyCertLenient` | packages/vibe-cardano/src/vibe/cardano/ledger/delegation.py:141-205 | The in-place update is the lenient step |
| `Delegation.CertsOfBlocks` | packages/vibe-cardano/src/vibe/cardano/ledger/delegation.py:125-138 | A block's certificates are those of its valid transactions, in order |
| `Delegation.DelegationState.ApplyBlockCerts` | packages/vibe-cardano/src/vibe/cardano/ledger/delegation.py:97-138 | The object becomes the lenient fold over the valid transactions' certificates, which is the strict result whenever there is one |
| `Delegation.ComputeCertificateDeposits` | packages/vibe-cardano/src/vibe/cardano/ledger/shelley_delegation.py:480-521 | Deposits less refunds of the list |
| `Delegation.DepositsAreBacked` | packages/vibe-cardano/src/vibe/cardano/ledger/shelley_delegation.py:480-521 | For accepted lists: one key deposit per key gained and one pool deposit per pool gained plus one per re-registration; the promised amount exactly when no pool re-registers or pools are free |
| `Delegation.ReregistrationIsCharged` | packages/vibe-cardano/src/vibe/cardano/ledger/shelley_delegation.py:480-521 | One pool registered twice is charged two deposits |

## Left out

- Ed25519, Blake2b, VRF and CBOR: function parameters. Assumed of them, where a lemma says so: sizes, that a signature verifies under its own key, and that a run's transaction ids do not collide with each other or with genesis.
- Dynamic creation of transactional variables: the set of variables is fixed for a run. A body that names an unknown variable cannot step.
- The one-second timeout of the retry wait is a step that may happen at any time; real time is not modelled. Spurious wake-ups of the read-write lock's condition are not steps of their own.
- HashIndex.Index.Probe: the probe loop that three methods repeat is written once; hashing of keys is outside, the index is given hashed keys.
- HashIndex.Index.Get: requires a free slot or the key to be present, which `ProbeTerminatesExactly` shows to be exactly when the original's loop ends.
- Byron.MinFeeIsLeast: the quotient is exact; the source divides in floating point and then rounds up.
- Byron error texts and shortened hashes: errors carry the values themselves. `ByronTx` construction is the subset type of non-empty input and output lists.
- Duplicate VRF key errors do not name the pool found first, which depends on dictionary order.
- Rewards.PoolReward: block counts are passed together or not at all; the epoch code passes none. Nonce evolution, parameter updates and pool retirement of `process_epoch_boundary` are separate from the rewards and small.
- Rewards.SharesAreKeptExactly: for a negative reward it asks that the pool's cost is not negative, as every pool's is.
- The delegator map per pool is an argument, as in the source; `SplitBounds` needs its positive stakes to sum to the pool's stake, the other bounds do not.
- Hfc: HFCState.next_era_boundary, transition detection, state translations and block dispatch.
- Mempool events, logging, look-ups by id and snapshots; the asyncio lock makes each operation atomic, so there is no interleaving inside one.
- The concrete ledger validator: its `apply_tx` does nothing. The mempool is proved over any validator.
- Ratify: votes are cast and governance states updated elsewhere (`apply_conway_tx`, certificate and proposal handlers, `expire_proposals`), which are lists of independent checks and dictionary updates.
- `compute_pool_stake_distribution` in `delegation.py`: the same aggregation as the snapshot's with reward balances added.
- `chain_selection.py`, the Shelley to Babbage transaction checks, `certified_nat_max_check`, network protocols, storage other than the hash index, CLI.
