# Verified models of the node's core data structures

This project states, in Dafny, what eleven components of the node do and proves what they promise.
Each file holds one module; `dafny verify dfyconfig.toml` checks everything.

- **Check queue** (`CheckQueue`): one master and any number of workers as a state machine whose actions
  are the critical sections of `CCheckQueue`, the execution of one job, and spurious wake-ups. `Queue` is
  the object, and its methods refine the actions.
- **Coin caches** (`CoinsModel`, `Coins`): the DIRTY/FRESH write-back caches over the coin database, at any
  depth, for coins, Sapling anchors and nullifiers. The reference is a stack of flat maps.
- **Address manager** (`AddrManModel`, `AddrManCollisions`, `AddrMan`, `AddrManCheck`, `AddrManDisk`): the tried
  and new tables, the operations on them, collisions, `Check_` itself, and saving and loading. Keyed hashes are arbitrary functions,
  an empty cell is an absent key of a table, and the clock and all random draws are parameters.
- **Block assembler** (`Mempool`, `BlockAssembler`): package selection over an arbitrary mempool DAG. The
  fee-rate order, the comparison of scores and the minimum fee for a size are arbitrary.
- **Cuckoo cache** (`CuckooCache`): insertion with evictions, lazily collected garbage, and epochs.
- **Block index and active chain** (`Chain`): skip pointers, ancestor lookup, `SetTip`, forks, locators.
- **Multi-word integers** (`Words`, `WordShifts`, `ArithUint`, `Compact`): `base_uint` of any width and the
  compact form of 256-bit targets.
- **Bech32** (`Bech32`) as in "Bech32" and its "Checksum" subsection of BIP 173, on bytes and bit vectors.
- **Base58** (`Digits`, `Base58`): both directions with their buffer estimates and cut-offs.
- **Database transaction** (`DbKeys`, `DbTransaction`): pending changes over a store, and the iterator that
  merges them, nested to any depth, and the two transactions of the evo database on top.
- **Rolling bloom filter** (`RollingBloom`): two-bit cells, generations, and the history of insertions.

`Power` and `Wrappers` hold what several modules share.

Objects of the source are classes here, with the same fields; loops are loops with invariants. A C++
exception or a failing return is a result. Where a promise turned out to hold only under a condition, the
condition is proved to be exact:

- `AddCoin` keeps the stack consistent exactly if an overwrite is announced or there is none
  (`Coins.Cache.AddCoin`).
- A flush keeps the best block and the best anchor exactly under the condition of `CoinsModel.FlushBest`
  (`CoinsModel.FlushLosesBest` is a run on which it does not); a flush into the database keeps the anchors
  exactly under that of `CoinsModel.FlushIntoDb` (`CoinsModel.EmptyRootReturns`).
- `PopAnchor` undoes `PushAnchor` exactly under the condition of `CoinsModel.PopUndoesPush`
  (`CoinsModel.SecondPushLost`).
- The time stamps that `Check_` wants survive `Good_` exactly under the condition of `AddrMan.GoodStamps`;
  `AddrManCheck.ClockAtZero` builds a manager on which they do not, and `Check_` reports it.
- `Check_` accepts exactly what `AddrManCheck.Check` says, and `AddrManCheck.AcceptedExactly` lists what it
  overlooks.
- An epoch of the cuckoo cache is 45 percent of the table, as its comment says, exactly below 2^27 slots
  (`CuckooCache.EpochIsShare`).
- Bech32 decoding undoes encoding exactly for the input described in `Bech32.RoundTrip`; the code refuses
  strings only above 1023 characters, while BIP 173 says 90.
- Base58 decoding accepts a string that stands for no bytes under every limit, also a negative one
  (`Base58.DecodeEncoded`).
- `contains` of the rolling filter is characterised exactly, not only for recent keys.

## Model

| member | source | states |
|---|---|---|
| `CheckQueue.BatchSizeMeans` | src/checkqueue.h:100-105 | n jobs fit in a batch if and only if n is one, or is within the limit and n times all threads and one more is within the queue |
| `CheckQueue.AddWakes` | src/checkqueue.h:141-153 | Add wakes no worker for no job, exactly one sleeping worker for one job and every one for more, and never another thread |
| `CheckQueue.WorkWakesWorkers` | src/checkqueue.h:64-122 | in no run do jobs lie in the queue while every worker sleeps |
| `CheckQueue.BatchSize` | src/checkqueue.h:105-105 | a batch is never empty and never larger than the queue |
| `CheckQueue.LoopHeadInv` | src/checkqueue.h:86-115 | from the head of the inner loop on, every counter and flag is right again, and a returned value is the conjunction of the outstanding checks |
| `CheckQueue.FinishBatchInv` | src/checkqueue.h:73-84 | handing in a finished batch keeps nTodo, nTotal, nIdle and fAllOk exact |
| `CheckQueue.BeforeLoopHeadInv` | src/checkqueue.h:73-99 | first entry, waking up and handing in a batch all lead to the same loop-head invariant |
| `CheckQueue.AddInv` | src/checkqueue.h:141-153 | queueing checks extends the set the next result answers for |
| `CheckQueue.ExecuteInv` | src/checkqueue.h:116-120 | running or skipping one check outside the mutex keeps the invariant |
| `CheckQueue.SpuriousInv` | src/checkqueue.h:96-98 | a spurious wake-up keeps the invariant |
| `CheckQueue.StepInv` | src/checkqueue.h:64-122 | every atomic action of every thread keeps the invariant, and only the master returns a value |
| `CheckQueue.RunInv` | src/checkqueue.h:64-122 | the invariant holds at every position of every run, for any number of threads |
| `CheckQueue.WaitReturnsConjunction` | src/checkqueue.h:64-122 | in every interleaving Wait returns the conjunction of exactly the checks added since it last returned, although checks after a failure are skipped |
| `CheckQueue.CountersExact` | src/checkqueue.h:64-122 | whenever the mutex is free, nTodo is the queue plus all batches held, nTotal - nIdle is the number of threads holding one, and a sleeping master has work outstanding |
| `CheckQueue.IdleUntilAdd` | src/checkqueue.h:159-207 | IsIdle holds from each return of Wait until the next Add, so the assertion of CCheckQueueControl cannot fail |
| `CheckQueue.NoDeadlock` | src/checkqueue.h:64-122 | while the master is inside Wait some thread can move without a spurious wake-up |
| `CheckQueue.RankDecreases` | src/checkqueue.h:64-122 | every such move brings the return of Wait closer |
| `CheckQueue.WaitTerminates` | src/checkqueue.h:64-122 | a continuation in which Wait does not return has at most Rank steps and two more for each spurious wake-up |
| `CheckQueue.SpuriousRank` | src/checkqueue.h:96-98 | a spurious wake-up adds exactly one step |
| `CheckQueue.Queue.constructor` | src/checkqueue.h:124-130 | an idle queue |
| `CheckQueue.Queue.Add` | src/checkqueue.h:141-153 | the whole new state of Add; the object invariant is kept |
| `CheckQueue.Queue.TakeBatch` | src/checkqueue.h:106-112 | swapping jobs off the back of the queue takes exactly the last n |
| `CheckQueue.Queue.CleanUp` | src/checkqueue.h:73-84 | the clean-up part of a critical section leads to the specified state |
| `CheckQueue.Queue.CriticalSection` | src/checkqueue.h:64-122 | one critical section of Loop is the action of the state machine, and its return value is the conjunction |
| `CheckQueue.Queue.RunCheck` | src/checkqueue.h:116-120 | one iteration of the work loop is the Execute action |
| `CoinsModel.FetchedCoin` | src/coins.cpp:67-83 | caching what the base says changes nothing that is visible; a spent answer may be FRESH |
| `CoinsModel.StoredCoin` | src/coins.cpp:95-115 | a stored coin is visible; the flag invariant survives exactly when FRESH is only given where nothing was visible |
| `CoinsModel.SpentCoin` | src/coins.cpp:134-148 | erasing a FRESH entry or clearing another one hides exactly that coin |
| `CoinsModel.UncachedCoin` | src/coins.cpp:324-331 | dropping an unmodified entry changes nothing that is visible |
| `CoinsModel.StoredAnchor` | src/coins.cpp:461-501 | an anchor entry with the right root shows its tree exactly if it is entered |
| `CoinsModel.RemovedAnchor` | src/coins.cpp:503-549 | marking an anchor as not entered hides exactly that anchor |
| `CoinsModel.StoredNullifier` | src/coins.cpp:551-560 | a nullifier entry shows exactly what it says |
| `CoinsModel.FlushCoins` | src/coins.cpp:241-308 | after the merge the parent shows what the child showed and its own flag invariant still holds |
| `CoinsModel.NoFreshMisapplied` | src/coins.cpp:277-283 | a consistent child never triggers the exception about a misapplied FRESH flag |
| `CoinsModel.FlushAnchors` | src/coins.cpp:186-217 | with an injective root function a flush preserves all visible anchors |
| `CoinsModel.FlushNullifiers` | src/coins.cpp:219-239 | a flush preserves all visible nullifiers |
| `CoinsModel.LaterOutputsUntouched` | src/coins.cpp:117-132 | adding the first outputs of a transaction leaves its later outpoints alone |
| `CoinsModel.AddOutputsShows` | src/coins.cpp:117-132 | each stored output is shown with its own amount and script, the height and the kind of the transaction; banned ones are not shown, and every other outpoint, anchor and nullifier is as before |
| `CoinsModel.AskBestAnchorSame` | src/coins.cpp:562-566 | asking for the best anchor fills in null hashes but changes no answer |
| `CoinsModel.AskBestBlockSame` | src/coins.cpp:174-184 | asking for the best block fills in null hashes but changes no answer |
| `CoinsModel.FlushBest` | src/coins.cpp:302-322 | a flush keeps the visible best block and best anchor if and only if the cache has its own hash or the two levels below already agree |
| `CoinsModel.FlushIntoDb` | src/sapling/sapling_txdb.cpp:57-90 | a flush into the database keeps coins and best anchor always, and the anchors if and only if the empty tree is still shown |
| `CoinsModel.ReadCoin` | src/coins.cpp:67-148 | on flat maps every operation changes the answer for exactly the coins it names: stored ones read back, spent and banned ones are gone, and caching, flushing and asking change none |
| `CoinsModel.ReadNullifier` | src/coins.cpp:551-560 | only setting nullifiers changes an answer about them, and only about those given |
| `CoinsModel.ReadAnchor` | src/coins.cpp:461-549 | a pushed tree is found under its root, which is best from then on; after a pop the old best is not found and the one given is best; no other answer changes |
| `CoinsModel.PopUndoesPush` | src/coins.cpp:461-549 | on every stack, PopAnchor back to the old root undoes PushAnchor, but for the remembered best anchor, if and only if the pushed root was not entered before or was best already |
| `CoinsModel.SecondPushLost` | src/coins.cpp:461-549 | its failing input: a root pushed twice is gone after one pop |
| `CoinsModel.FlushLosesBest` | src/coins.cpp:302-322 | the failing input of FlushBest: a cache that was never asked, flushed over one with hashes of its own, wipes them out |
| `CoinsModel.EmptyRootReturns` | src/sapling/sapling_txdb.cpp:57-90 | the failing input of FlushIntoDb: the empty root, once popped, is back after a flush into the database |
| `Coins.CoinsDb.BatchWrite` | src/txdb.cpp:77-144 | dirty entries replace, spent ones erase, everything else stays; a null anchor leaves the stored one |
| `Coins.CoinsDb.WriteCoins` | src/txdb.cpp:107-131 | the loop over the coins writes exactly the dirty ones |
| `Coins.CoinsDb.WriteAnchors` | src/sapling/sapling_txdb.cpp:57-78 | the loop over the anchors never writes the empty root |
| `Coins.CoinsDb.WriteNullifiers` | src/sapling/sapling_txdb.cpp:38-55 | the loop over the nullifiers writes or erases exactly the dirty ones |
| `Coins.View.GetCoin` | src/coins.cpp:85-93 | at any depth, the answer is the coin shown, or a remembered spent one |
| `Coins.View.GetSaplingAnchorAt` | src/coins.cpp:423-445 | at any depth, the answer is the anchor shown |
| `Coins.View.GetNullifier` | src/coins.cpp:447-459 | at any depth, the answer is whether the nullifier is shown |
| `Coins.View.GetBestBlock` | src/coins.cpp:174-180 | the first non-null hash going down the stack, remembered by every level asked |
| `Coins.View.GetBestAnchor` | src/coins.cpp:562-566 | the first non-null anchor going down the stack, remembered by every level asked |
| `Coins.Cache.constructor` | src/coins.cpp:25-35 | a new cache over any view shows what the view shows |
| `Coins.Cache.FetchCoin` | src/coins.cpp:67-83 | filling the cache is invisible, and an absent entry means nothing is shown |
| `Coins.Cache.GetCoin` | src/coins.cpp:85-93 | the answer is the coin shown, or a spent one that the cache remembers |
| `Coins.Cache.HaveCoin` | src/coins.cpp:162-166 | true exactly if an unspent coin is shown |
| `Coins.Cache.AddCoin` | src/coins.cpp:95-115 | exactly when it throws, exactly when the stack stays consistent, and then that exactly this coin is added |
| `Coins.Cache.SpendCoin` | src/coins.cpp:134-148 | hides exactly this coin and moves out what was shown |
| `Coins.Cache.Uncache` | src/coins.cpp:324-331 | invisible, and only modified entries stay cached |
| `Coins.Cache.AddCoins` | src/coins.cpp:117-132 | each output is shown field by field as a coin of this transaction, height and kind, except the banned ones, which are spent, and unspendable scripts and zerocoin mints, which show as before; no other coin changes; with the check flag no input makes it throw, without it the caller promises that no stored output overwrites |
| `Coins.Cache.GetSaplingAnchorAt` | src/coins.cpp:423-445 | the anchor shown, now cached |
| `Coins.Cache.GetNullifier` | src/coins.cpp:447-459 | whether the nullifier is shown, now cached |
| `Coins.Cache.GetBestBlock` | src/coins.cpp:174-180 | the visible best block; levels asked remember it |
| `Coins.Cache.SetBestBlock` | src/coins.cpp:182-184 | sets the best block of this level only |
| `Coins.Cache.GetBestAnchor` | src/coins.cpp:562-566 | the visible best anchor; levels asked remember it |
| `Coins.Cache.PushAnchor` | src/coins.cpp:461-501 | enters the tree under its root and makes it best, unless it is best already |
| `Coins.Cache.PopAnchor` | src/coins.cpp:503-549 | removes the best anchor and makes the given one best, unless it is best already |
| `Coins.Cache.SetNullifiers` | src/coins.cpp:551-560 | marks all given nullifiers and no others |
| `Coins.Cache.BatchWrite` | src/coins.cpp:241-308 | throws exactly if some FRESH flag is misapplied, and otherwise merges all three maps |
| `Coins.Cache.BatchWriteCoins` | src/coins.cpp:248-299 | the loop over the coins merges every dirty entry by the flag rules |
| `Coins.Cache.BatchWriteAnchors` | src/coins.cpp:186-217 | the loop over the anchors merges every dirty entry |
| `Coins.Cache.BatchWriteNullifiers` | src/coins.cpp:219-239 | the loop over the nullifiers merges every dirty entry |
| `Coins.Cache.Flush` | src/coins.cpp:310-322 | never throws, empties the cache, and the level below shows what this one showed |
| `Coins.Cache.FlushToCache` | src/coins.cpp:310-322 | into a cache: the parent takes over exactly what was shown |
| `Coins.Cache.FlushToDb` | src/coins.cpp:310-322 | into the database: it takes over exactly what was shown, but for the empty root |
| `Coins.Query` | src/coins.cpp:67-566 | a read answers what the flat maps answer, and shows nothing new |
| `Coins.Change` | src/coins.cpp:95-566 | a change shows what the same change to the flat maps shows |
| `Coins.Execute` | src/coins.cpp:67-566 | one operation on a stack of any depth answers and shows, at every level, what a stack of flat maps does |
| `Coins.Run` | src/coins.cpp:67-566 | so does every run of operations that respects the demands of the source, answer by answer |
| `AddrManModel.SwapKeeps` | src/addrman.cpp:105-123 | swapping two places of vRandom keeps the invariant of Check_ |
| `AddrManModel.DeleteKeeps` | src/addrman.cpp:125-137 | deleting an entry without references keeps it |
| `AddrManModel.DeleteEffect` | src/addrman.cpp:125-137 | Delete removes that entry and nothing else |
| `AddrManModel.DropRefKeeps` | src/addrman.cpp:139-147 | taking one reference away keeps it, but for the entry that may now have none |
| `AddrManModel.ClearNewKeeps` | src/addrman.cpp:139-152 | emptying a cell keeps it; the entry goes exactly if that was its last cell |
| `AddrManModel.CreateKeeps` | src/addrman.cpp:93-103 | a created entry is consistent but for its missing cell |
| `AddrManModel.AddRefKeeps` | src/addrman.cpp:311-337 | giving an entry one more cell keeps it |
| `AddrManModel.RemoveRefsKeeps` | src/addrman.cpp:154-166 | removing an entry from all its buckets leaves no reference behind |
| `AddrManModel.EvictKeeps` | src/addrman.cpp:173-190 | taking an entry out of a tried cell keeps the rest |
| `AddrManModel.PutBackKeeps` | src/addrman.cpp:173-194 | the evicted entry is consistent again in the new table |
| `AddrManModel.PutBackEffect` | src/addrman.cpp:173-194 | it has one reference in its home cell; at most the entry that sat there for the last time is lost |
| `AddrManModel.EnterTriedKeeps` | src/addrman.cpp:195-200 | entering the freed cell completes the move |
| `AddrManModel.MakeTriedKeeps` | src/addrman.cpp:154-200 | moving an entry to tried keeps the whole invariant |
| `AddrManModel.MakeTriedEffect` | src/addrman.cpp:154-200 | it sits in its tried cell and no new cell, everybody else keeps their place but for the displaced ones |
| `AddrManModel.SetPeerKeeps` | src/addrman.cpp:341-361 | updating a peer without changing its address keeps the invariant |
| `AddrManModel.CollisionsSurvive` | src/addrman.cpp:202-266 | collisions stay well formed when services do not change |
| `AddrManModel.RandomCount` | src/addrman.cpp:415-437 | vRandom has as many places as there are entries |
| `AddrManModel.TerribleMeans` | src/addrman.cpp:45-63 | terrible means: not tried in the last minute, and from the future, unknown or a month old, never reached in three attempts, or not for a week in ten |
| `AddrManModel.SizeIsTriedPlusNew` | src/addrman.cpp:415-416 | its length is nTried + nNew |
| `AddrMan.AddrMan.constructor` | src/addrman.h:569-591 | an empty, consistent manager |
| `AddrMan.AddrMan.SwapRandom` | src/addrman.cpp:105-123 | swaps two places and their back references |
| `AddrMan.AddrMan.Delete` | src/addrman.cpp:125-137 | the specified deletion |
| `AddrMan.AddrMan.ClearNew` | src/addrman.cpp:139-152 | the specified emptying of a cell |
| `AddrMan.AddrMan.RemoveFromNew` | src/addrman.cpp:154-166 | looking at one position per bucket finds every reference |
| `AddrMan.AddrMan.EvictTried` | src/addrman.cpp:173-194 | makes room in a tried cell as specified |
| `AddrMan.AddrMan.MakeTried` | src/addrman.cpp:154-200 | the specified move to tried |
| `AddrMan.AddrMan.Good` | src/addrman.cpp:202-266 | nothing for an unknown service; otherwise only its record is marked good, and a new entry ends up in its tried cell, the holder of which goes back to the new table, unless the cell is taken and must be tested first, when it joins the collisions while there is room; the stamps Check_ wants survive if and only if the service is unknown, the clock is positive, or it is zero and the entry is kept waiting |
| `AddrMan.AddrMan.FindBucket` | src/addrman.cpp:234-243 | the search for a bucket that holds a new entry always succeeds |
| `AddrMan.AddrMan.MoveOrQueue` | src/addrman.cpp:252-265 | moves the entry, or queues a collision while there is room for it |
| `AddrMan.AddrMan.Create` | src/addrman.cpp:93-103 | a new id, one past the last |
| `AddrMan.AddrMan.Add` | src/addrman.cpp:268-339 | the result says whether the address was unknown; step by step, a known entry is refreshed and perhaps placed once more, an unknown one is created and placed, and an entry without a cell is deleted again; the only old entries that are lost are terrible ones with a single cell |
| `AddrMan.AddrMan.Refresh` | src/addrman.cpp:276-305 | time, services and the decision whether another cell may be tried |
| `AddrMan.AddrMan.Place` | src/addrman.cpp:314-337 | the cell is given exactly if it is free or its entry gives way |
| `AddrMan.AddrMan.Attempt` | src/addrman.cpp:341-361 | changes the stamps of exactly the entry of that service |
| `AddrMan.AddrMan.Connected` | src/addrman.cpp:519-537 | changes the time of exactly the entry of that service |
| `AddrMan.AddrMan.GetAddr` | src/addrman.cpp:487-517 | distinct, eligible addresses within the quota, and all eligible ones if the quota is not met |
| `AddrMan.AddrMan.ResolveCollisions` | src/addrman.cpp:557-614 | ids are settled in increasing order, each as Settles says; over the whole call a holder that succeeded within four hours, or was tried within a minute, keeps its tried cell and record, a collision behind a recently good holder is over, one behind an overdue holder has given the cell to an address that waited for it, no tried cell becomes empty or goes to anybody who did not wait for it, and the set only shrinks |
| `AddrMan.AddrMan.ResolveOne` | src/addrman.cpp:560-606 | by the ages of the last success and try of the holder and of the candidate, in seconds: the candidate is let go, waits on with nothing changed, or takes the cell over and drives the holder back to the new table |
| `AddrMan.AddrMan.SelectTriedCollision` | src/addrman.cpp:616-641 | the tried entry that stands in the way of the drawn address, never an empty cell |
| `AddrMan.AddrMan.ReplaceIncumbent` | src/addrman.cpp:578-600 | the candidate holds its tried cell afterwards, marked good; the holder is in the new table with one reference |
| `AddrMan.GoodIsOutright` | src/addrman.cpp:202-266 | what marking good does, said on records and cells |
| `AddrMan.GoodTakesOver` | src/addrman.cpp:202-266 | marking good without the test makes the address take over its tried cell |
| `AddrMan.NewcomerPlaced` | src/addrman.cpp:306-337 | an unknown address gets the cell its source leads to if and only if that is free, or held by a terrible entry or one with another cell; otherwise it is not kept |
| `AddrMan.KnownKept` | src/addrman.cpp:276-305 | a known entry gets no further cell if it is tried, has eight, or the announcement is not newer |
| `AddrMan.AddLosses` | src/addrman.cpp:311-337 | the only entries an announcement drives out are terrible ones with a single cell |
| `AddrMan.RefreshMeans` | src/addrman.cpp:276-287 | services accumulate; the time moves only from unknown or by more than an hour or a day, less the penalty; nothing else changes |
| `AddrMan.CountedOnce` | src/addrman.cpp:341-361 | between two successes at most one failure is counted |
| `AddrMan.ConnectedMeans` | src/addrman.cpp:519-537 | afterwards the time is at most twenty minutes old, and it moved only if it was older |
| `AddrMan.QuotaMeans` | src/addrman.cpp:489-495 | the largest number within the count and the percentage |
| `AddrMan.AddKeepsRest` | src/addrman.cpp:268-339 | adding an address disturbs neither collisions nor stamps |
| `AddrMan.GoodStamps` | src/addrman.cpp:202-266 | the exact condition under which Good_ leaves the stamps as Check_ wants them |
| `AddrMan.OnlyOne` | src/addrman.cpp:434-435 | no two entries have the same service |
| `AddrManCollisions.TurnFrame` | src/addrman.cpp:557-614 | settling one id changes nothing, ends that collision, or gives it the cell; nobody else changes their record, and no other collision ends |
| `AddrManCollisions.OtherCell` | src/addrman.cpp:557-614 | whoever holds another tried cell keeps it, with the same record |
| `AddrManCollisions.OwnCellSpared` | src/addrman.cpp:571-577 | a holder that is spared keeps its cell, and if it was good lately the collision is over |
| `AddrManCollisions.AllTurns` | src/addrman.cpp:557-614 | after any number of turns, every tried cell and every id is where the ages at the start put it |
| `AddrManCollisions.Outcome` | src/addrman.cpp:557-614 | so is the state after the whole call, whatever order collisions for one cell come in |
| `AddrManCheck.Check` | src/addrman.cpp:410-484 | 0 if and only if everything Check_ looks at is in order and the key is not null; -16 if only the key is wrong; if the sizes add up, the code of the first bad entry of mapInfo |
| `AddrManCheck.CheckNow` | src/addrman.cpp:410-484 | a consistent manager gets 0, or -16 for a null key, if it is stamped, and an error if it is not |
| `AddrManCheck.AcceptedExactly` | src/addrman.cpp:410-484 | Check_ together with what it overlooks (the range of ids, addresses that lead nowhere, an unknown address of entry 0, cells outside the tables) is exactly the invariant and the stamps |
| `AddrManCheck.NoPlaceLeft` | src/addrman.cpp:415-437 | if the sizes add up and every entry knows its place in vRandom, every place knows its entry |
| `AddrManCheck.Execute` | src/addrman.cpp:202-641 | every operation, a restart from disk included, keeps the manager consistent and stamped while the clock runs |
| `AddrManCheck.Run` | src/addrman.cpp:202-641 | after every run of operations from an empty manager Check_ returns 0, or -16 for a null key |
| `AddrManCheck.ClockAtZero` | src/addrman.cpp:202-216 | the failing input of the stamps: the first address added and marked good at clock zero makes Check_ return -1 |
| `AddrManCheck.CheckInfos` | src/addrman.cpp:418-447 | the code of the first bad entry, or 0 and mapInfo sorted into setTried and mapNew |
| `AddrManCheck.CheckTried` | src/addrman.cpp:449-461 | 0 if and only if every tried cell holds a tried id that belongs there; nothing is left over if and only if every tried id sits in its cell |
| `AddrManCheck.CheckNew` | src/addrman.cpp:463-474 | passes with nothing left over if and only if every new cell holds a new id that belongs there and every reference count is exact |
| `AddrManCheck.TriedNext` | src/addrman.cpp:451-459 | a tried cell fails the tests only if the table is wrong, and else crosses off exactly its id |
| `AddrManCheck.NewNext` | src/addrman.cpp:465-472 | a new cell that passes counts down exactly its id |
| `AddrManCheck.NewFailing` | src/addrman.cpp:465-472 | a new cell fails the tests only if it is a wrong one or its id has too many |
| `AddrManDisk.ListedCounts` | src/addrman.h:385-404 | as many new and tried entries are written as the counters announce |
| `AddrManDisk.UnkIdsIndex` | src/addrman.h:385-395 | mapUnkIds leads every written new id to its position |
| `AddrManDisk.BucketRead` | src/addrman.h:405-418 | the bucket read back for a new entry is one it occupied |
| `AddrManDisk.LimitsHold` | src/addrman.h:466-472 | a consistent manager never exceeds the limits of the reader |
| `AddrManDisk.NewLoaded` | src/addrman.h:474-482 | reading the new entries rebuilds them under their positions as ids |
| `AddrManDisk.TriedLoaded` | src/addrman.h:484-503 | reading the tried entries loses none |
| `AddrManDisk.NotLost` | src/addrman.h:489-501 | the cell of a tried entry that is read is still free |
| `AddrManDisk.AllPlaced` | src/addrman.h:529-549 | every new entry gets the cell of its bucket |
| `AddrManDisk.FreeCell` | src/addrman.h:532-537 | that cell is free when its entry is placed |
| `AddrManDisk.PlacedConsistent` | src/addrman.h:566-566 | the loaded tables satisfy everything Check_ demands of them |
| `AddrManDisk.RoundTrip` | src/addrman.h:363-567 | what was written is accepted; no address is lost, the tried table is the same cell for cell up to renumbering, each new entry is in exactly one cell it had before, and the state is consistent |
| `AddrManDisk.StampsSurvive` | src/addrman.h:363-567 | the stamps that Check_ looks at survive |
| `AddrManDisk.WriteInfos` | src/addrman.h:385-404 | the assertions on the counters never fail |
| `AddrManDisk.WriteBuckets` | src/addrman.h:405-418 | the nested loops write the occupied cells of each bucket in order |
| `AddrManDisk.Serialize` | src/addrman.h:363-426 | the stream is the specified one |
| `AddrManDisk.LoadInfos` | src/addrman.h:474-503 | the loading loops compute the specified state; vRandom and its back references agree |
| `AddrManDisk.ReadBucketLists` | src/addrman.h:505-518 | entryToBucket holds the last bucket that lists an entry |
| `AddrManDisk.PlaceEntries` | src/addrman.h:529-549 | the placing loop computes the specified state |
| `AddrManDisk.Prune` | src/addrman.h:551-561 | deletes exactly the new entries without a cell |
| `AddrManDisk.Unserialize` | src/addrman.h:428-567 | refuses exactly unreadable streams; an unknown format leaves an empty manager, counters over their limits are left behind with empty tables; otherwise every entry has a place, and if all had one the state is the one specified |
| `AddrManDisk.Clear` | src/addrman.h:569-591 | everything goes but the collisions; the key is drawn anew |
| `AddrManDisk.Reload` | src/addrman.h:363-567 | saving a valid manager and loading it into a fresh one gives a valid manager with the same addresses and places |
| `Mempool.Pool.AncestorsAreReached` | src/blockassembler.h:37-50 | a transaction is an ancestor if and only if a non-empty chain of parent links leads to it |
| `Mempool.Pool.AncestorsTransitive` | src/blockassembler.h:37-50 | an ancestor of an ancestor is an ancestor |
| `Mempool.Pool.CountGrows` | src/blockassembler.cpp:340-349 | a transaction has more ancestors than each of them, so sorting by count is a valid order |
| `Mempool.Pool.SumMinus` | src/blockassembler.h:119-131 | totals over a difference of sets are differences of totals |
| `BlockAssembler.UpdateStep` | src/blockassembler.cpp:306-319 | one more included transaction is subtracted exactly once from each descendant |
| `BlockAssembler.SubtractionFits` | src/blockassembler.h:119-131 | no subtraction from a modified total wraps |
| `BlockAssembler.UpdatePackagesForAdded` | src/blockassembler.cpp:299-321 | every descendant outside the added package loses exactly its added ancestors; all others are unchanged |
| `BlockAssembler.SortForBlock` | src/blockassembler.cpp:340-349 | a permutation of the package in the order of ancestor counts |
| `BlockAssembler.PackageOrder` | src/blockassembler.cpp:340-349 | in that order every transaction comes after its ancestors |
| `BlockAssembler.CachedIsExact` | src/blockassembler.cpp:323-338 | an entry that is not skipped still has exact cached totals |
| `BlockAssembler.RemainingShrinks` | src/blockassembler.cpp:299-321 | including a package takes exactly its share out of every remaining package |
| `BlockAssembler.ModAfter` | src/blockassembler.cpp:456-481 | after an inclusion the modified totals again never under-count, and are exact for entries that never failed |
| `BlockAssembler.ModFailed` | src/blockassembler.cpp:428-437 | dropping a failed entry keeps that |
| `BlockAssembler.BlockClosed` | src/blockassembler.cpp:456-477 | what is in the block includes all its ancestors |
| `BlockAssembler.AncestorFirst` | src/blockassembler.cpp:456-477 | an ancestor stands before its descendant |
| `BlockAssembler.BlockParentsFirst` | src/blockassembler.cpp:456-477 | every parent in the pool of a transaction in the block stands before it |
| `BlockAssembler.CutOff` | src/blockassembler.cpp:423-427 | when the cut-off ends the loop, every entry of the index before it is in the block or cannot join it |
| `BlockAssembler.ProgressRound` | src/blockassembler.cpp:375-481 | a round settles the entry it looks at, for good, and forgets no other |
| `BlockAssembler.JoinedSum` | src/blockassembler.cpp:410-430 | a block together with what is left of a package weighs what it weighs with the whole package |
| `BlockAssembler.StillRefused` | src/blockassembler.cpp:323-338 | a package that cannot join the block never can again, however the block grows: a failed entry is guaranteed to fail again |
| `BlockAssembler.BlockAssembler.constructor` | src/blockassembler.cpp:140-147 | the configured size is clamped between 1000 and the maximum less 1000, after its conversion to 32 bits |
| `BlockAssembler.BlockAssembler.ResetBlock` | src/blockassembler.cpp:149-160 | an empty block with the reserved size and sigops |
| `BlockAssembler.BlockAssembler.AddToBlock` | src/blockassembler.cpp:280-297 | appends one transaction, and all counters and lists follow |
| `BlockAssembler.BlockAssembler.OnlyUnconfirmed` | src/blockassembler.cpp:247-258 | removes exactly what is in the block |
| `BlockAssembler.BlockAssembler.TestPackageFinality` | src/blockassembler.cpp:271-278 | true exactly if all are final |
| `BlockAssembler.BlockAssembler.AddPackage` | src/blockassembler.cpp:456-477 | adds the package in a valid order, and the counters grow by its totals |
| `BlockAssembler.BlockAssembler.PackageTotal` | src/blockassembler.cpp:410-421 | the totals a package is judged by never under-count it, are exact unless it has failed before, and it is not in the block yet |
| `BlockAssembler.BlockAssembler.Consider` | src/blockassembler.cpp:428-480 | includes the package if it fits and is final; otherwise what is left of it cannot join the block |
| `BlockAssembler.BlockAssembler.Include` | src/blockassembler.cpp:456-480 | a package that fits keeps the block within its limits and the bookkeeping exact |
| `BlockAssembler.BlockAssembler.AddPackageTxs` | src/blockassembler.cpp:361-482 | terminates; no transaction twice, all parents in the block and before their children, all final, counters exact, limits respected; unless the fee cut-off ended it the block is maximal, that is, no package of the index outside it could still join it; and if the cut-off did, it was for a package outside the block that pays too little by its exact totals or cannot join it, and every entry of the index before it was settled |
| `CuckooCache.EpochCheckRoom` | src/cuckoocache.h:264-296 | after the epoch check there is room for one more element of the current epoch |
| `CuckooCache.EpochIsShare` | src/cuckoocache.h:324-325 | the epoch is 45 percent of the table if and only if that has less than 2^27 slots; above, the product wraps |
| `CuckooCache.CountIs` | src/cuckoocache.h:271-276 | the number the epoch check counts is that of the live slots of the current epoch |
| `CuckooCache.AgedKeeps` | src/cuckoocache.h:280-286 | after ageing exactly the elements of the new epoch are live, as the old one, and nothing has moved |
| `CuckooCache.Settle` | src/cuckoocache.h:382-391 | putting the element in hand into a collectable slot completes the insertion without loss |
| `CuckooCache.SwapOut` | src/cuckoocache.h:392-414 | one eviction moves an element to another of its own positions and takes up the evicted one |
| `CuckooCache.Dropped` | src/cuckoocache.h:382-416 | when the depth runs out exactly the element in hand is lost |
| `CuckooCache.KeptInPlace` | src/cuckoocache.h:376-381 | inserting a stored element revives it in the current epoch |
| `CuckooCache.EpochCheckLive` | src/cuckoocache.h:264-296 | nothing changes before a whole epoch is used; then exactly the current epoch stays live, as the old one |
| `CuckooCache.RevivedLive` | src/cuckoocache.h:376-381 | reviving changes the epoch of that element and nothing else that is live |
| `CuckooCache.StoredAtOnce` | src/cuckoocache.h:382-391 | with a collectable position the element goes to the first one and nothing is lost |
| `CuckooCache.LostOnlyAtLimit` | src/cuckoocache.h:382-415 | an element is lost only after depth_limit exchanges, each with all eight positions live, the first at the second position |
| `CuckooCache.BitPackedFlags.constructor` | src/cuckoocache.h:61-68 | all flags are set |
| `CuckooCache.BitPackedFlags.BitSet` | src/cuckoocache.h:92-95 | sets one flag and changes no other |
| `CuckooCache.BitPackedFlags.BitUnset` | src/cuckoocache.h:103-106 | clears one flag and changes no other |
| `CuckooCache.Cache.constructor` | src/cuckoocache.h:315-329 | a power of two of empty slots, and a whole epoch, computed in 32 bits, to wait |
| `CuckooCache.Cache.EpochCheck` | src/cuckoocache.h:264-296 | decrements the counter, or counts, ages and resets it as specified |
| `CuckooCache.Cache.Insert` | src/cuckoocache.h:368-416 | a stored element is revived; with a collectable position the new one is added and nothing is lost; otherwise the chain of exchanges is the one of the source, at most one element is lost, only after depth_limit exchanges that each met eight live positions, and the new element is in the table unless it is that one; elements move only among their own positions, and the bound on current elements plus counter holds |
| `CuckooCache.Cache.Displace` | src/cuckoocache.h:382-415 | a chain of exchanges, each at the position after the one just left, at most depth_limit of them, that ends by putting the element in hand at its first collectable position or by dropping it |
| `CuckooCache.Cache.FindOpen` | src/cuckoocache.h:383-391 | the first collectable position |
| `CuckooCache.Cache.SwapNext` | src/cuckoocache.h:392-414 | one exchange: at the position that follows, around, the one just left, or at the second for the new element |
| `CuckooCache.ErasedStillFound` | src/cuckoocache.h:418-433 | inserting, erasing and looking again on one thread always finds the element, as the header promises |
| `CuckooCache.Cache.Contains` | src/cuckoocache.h:443-453 | true exactly if the element, other than the filler, is in the table; erasing only marks its slot |
| `Chain.InvertClearsLowestOne` | src/chain.cpp:75-76 | n & (n - 1) clears the lowest one bit |
| `Chain.GetSkipHeight` | src/chain.cpp:78-87 | strictly below every positive height |
| `Chain.SkipOfEven` | src/chain.cpp:75-87 | 2^k * (2m + 1) skips to 2^k * 2m |
| `Chain.SkipOfOdd` | src/chain.cpp:75-87 | one above an even height skips to one above that height with two ones cleared |
| `Chain.SkipOfPowerPlusOne` | src/chain.cpp:75-87 | one above a power of two skips to 1 |
| `Chain.AncestorOfAncestor` | src/chain.cpp:89-112 | walking down in two legs is walking down in one |
| `Chain.BlockIndex.GetAncestor` | src/chain.cpp:89-112 | finds what walking pprev finds, for every height, and never follows a null link |
| `Chain.BlockIndex.BuildSkip` | src/chain.cpp:119-123 | the skip pointer is the ancestor at the skip height |
| `Chain.BlockMap.AddToBlockIndex` | src/validation.cpp:2443-2464 | a new block extends the tree, with its skip pointer in place; a known hash changes nothing |
| `Chain.BlockMap.RebuildSkips` | src/validation.cpp:3500-3543 | one pass in order of height sets every skip pointer |
| `Chain.ActiveChain.ContainsAncestors` | src/chain.h:436-440 | the chain contains exactly the ancestors of its tip |
| `Chain.ActiveChain.NextFollows` | src/chain.h:442-449 | Next is the block of the chain whose predecessor is given, and null exactly for the tip and for strangers |
| `Chain.ActiveChain.SetTip` | src/chain.cpp:15-26 | whatever chain was there, vChain becomes exactly the ancestor path of the new tip |
| `Chain.EarlyStop` | src/chain.cpp:22-25 | the entries the early stop leaves alone are the right ones |
| `Chain.ActiveChain.FindFork` | src/chain.cpp:57-66 | the highest common ancestor of the block and the tip, null exactly if there is none |
| `Chain.MeetDecides` | src/chain.cpp:336-354 | two blocks share exactly the ancestors of their meet |
| `Chain.LastCommonAncestor` | src/chain.cpp:338-354 | the highest common ancestor; its assertion never fails |
| `Chain.ActiveChain.GetLocator` | src/chain.cpp:28-55 | the hashes of the ancestors at the specified heights, whichever lookup path is taken |
| `Chain.ActiveChain.Back` | src/chain.cpp:42-49 | both lookup paths give the same ancestor |
| `Chain.LocatorDescends` | src/chain.cpp:36-52 | the heights descend strictly from the block to 0 |
| `Chain.LocatorLength` | src/chain.cpp:36-52 | a block below height 2^k has at most k + 11 of them |
| `Chain.LocatorDense` | src/chain.cpp:50-51 | the first twelve are consecutive |
| `Chain.LocatorTail` | src/chain.cpp:36-52 | from the twelfth on it is the doubling walk that starts there |
| `Chain.LocatorGaps` | src/chain.cpp:42-51 | whose gaps double, until 0 is reached |
| `WordShifts.BitOrDisjoint` | src/arith_uint256.cpp:38-41 | or-ing parts without common bits adds them |
| `WordShifts.LeftValue` | src/arith_uint256.cpp:29-44 | the word-wise left shift multiplies by a power of two modulo 2^BITS |
| `WordShifts.RightValue` | src/arith_uint256.cpp:46-61 | the word-wise right shift divides by a power of two, rounding down |
| `WordShifts.TopWordDecides` | src/arith_uint256.cpp:214-227 | the highest word that is not zero decides the length in bits |
| `WordShifts.SetBitValue` | src/arith_uint256.cpp:108-108 | or-ing a bit into a quotient that has none at or below it adds its power of two |
| `ArithUint.MulAdd` | src/arith_uint256.cpp:66-85 | carry + word + word * word fits in 64 bits, so no step of a product overflows |
| `ArithUint.BaseUint.constructor` | src/arith_uint256.h:33-37 | zero |
| `ArithUint.BaseUint.Assign64` | src/arith_uint256.h:90-97 | the value of a 64-bit number |
| `ArithUint.BaseUint.Add` | src/arith_uint256.h:137-147 | the sum modulo 2^BITS, even of a number with itself |
| `ArithUint.BaseUint.Negated` | src/arith_uint256.h:79-86 | 2^BITS less the value, modulo 2^BITS |
| `ArithUint.BaseUint.Subtract` | src/arith_uint256.h:149-153 | the difference modulo 2^BITS |
| `ArithUint.BaseUint.Increment` | src/arith_uint256.h:175-182 | one more, modulo 2^BITS |
| `ArithUint.BaseUint.Decrement` | src/arith_uint256.h:192-199 | one less, modulo 2^BITS |
| `ArithUint.BaseUint.MultiplyWord` | src/arith_uint256.cpp:63-73 | the product with a word modulo 2^BITS; no 64-bit step overflows |
| `ArithUint.BaseUint.AddRow` | src/arith_uint256.cpp:80-85 | one row of the schoolbook product, modulo 2^BITS |
| `ArithUint.BaseUint.Multiply` | src/arith_uint256.cpp:75-89 | the product modulo 2^BITS |
| `ArithUint.BaseUint.ShiftLeft` | src/arith_uint256.cpp:29-44 | multiplication by 2^shift modulo 2^BITS, for every shift |
| `ArithUint.BaseUint.ShiftRight` | src/arith_uint256.cpp:46-61 | division by 2^shift, for every shift |
| `ArithUint.BaseUint.CompareTo` | src/arith_uint256.cpp:117-127 | -1, 0 or 1 as the values compare |
| `ArithUint.BaseUint.Bits` | src/arith_uint256.cpp:214-227 | the length in bits, 0 for zero |
| `ArithUint.BaseUint.Divide` | src/arith_uint256.cpp:91-115 | the floor quotient for every divisor but zero, which is refused after the value was set to zero |
| `ArithUint.BaseUint.Round` | src/arith_uint256.cpp:105-112 | one round of long division settles one bit of the quotient |
| `ArithUint.DivisionStep` | src/arith_uint256.cpp:105-112 | taking a bit or leaving it keeps n = q * d + r with r below the next multiple |
| `Compact.OverflowExact` | src/arith_uint256.cpp:287-290 | the size and mantissa tests hold exactly if the magnitude is at least 2^256 |
| `Compact.SetCompact` | src/arith_uint256.cpp:274-292 | the value is the magnitude modulo 2^256; the overflow flag is set exactly if it was cut, the negative flag exactly for a signed non-zero magnitude |
| `Compact.GetCompact` | src/arith_uint256.cpp:294-315 | the specified compact form; both assertions hold |
| `Compact.CompactTruncates` | src/arith_uint256.cpp:274-315 | decoding the compact form gives the number without its low-order bytes |
| `Compact.CompactStable` | src/arith_uint256.cpp:274-315 | the truncated number has the same compact form again |
| `Compact.CompactMonotone` | src/arith_uint256.cpp:274-315 | truncation is monotone |
| `Compact.SizeIsLeast` | src/arith_uint256.cpp:294-310 | the size field is the least number of bytes that leaves the sign bit clear |
| `Compact.Precise` | src/arith_uint256.cpp:274-315 | less than one part in 2^15 is lost, and nothing below 2^23 |
| `Compact.WordVectors` | src/test/arith_uint256_tests.cpp:759-803 | magnitudes and signs of words of the tests |
| `Compact.ShortFormVectors` | src/test/arith_uint256_tests.cpp:759-779 | compact forms of short numbers of the tests |
| `Compact.LongFormVectors` | src/test/arith_uint256_tests.cpp:793-803 | compact forms of longer numbers of the tests |
| `Bech32.ShiftLinear` | src/bech32.cpp:77-87 | one step of the checksum is linear over XOR |
| `Bech32.ShiftInjective` | src/bech32.cpp:77-87 | and maps only zero to zero |
| `Bech32.ShiftTaps` | src/bech32.cpp:77-87 | it multiplies by x below x^6, and each bit of the coefficient of x^6 brings in its own constant |
| `Bech32.FirstVector` | src/test/bech32_tests.cpp:24-43 | the checksum of A12UEL5L verifies |
| `Bech32.CharsetFirst` | src/bech32.cpp:15-16 | the character table, values 0 to 7 |
| `Bech32.CharsetSecond` | src/bech32.cpp:15-16 | values 8 to 15 |
| `Bech32.CharsetThird` | src/bech32.cpp:15-16 | values 16 to 23 |
| `Bech32.CharsetFourth` | src/bech32.cpp:15-16 | values 24 to 31 |
| `Bech32.GeneratorMultiples` | src/bech32.cpp:82-87 | the five constants are the generator remainder k(x) times 1, 2, 4, 8 and 16 in GF(32) |
| `Bech32.BurstDetected` | src/bech32.cpp:33-90 | two symbol sequences that differ only inside one window of six never have the same checksum |
| `Bech32.OneWordPerWindow` | src/bech32.cpp:113-121 | so they never both verify |
| `Bech32.ChecksumVerifies` | src/bech32.cpp:123-135 | the created checksum verifies |
| `Bech32.ChecksumUnique` | src/bech32.cpp:123-135 | and is the only one that does |
| `Bech32.CharRev` | src/bech32.cpp:15-28 | the reverse table undoes the character table |
| `Bech32.RevChar` | src/bech32.cpp:15-28 | and the character table undoes the reverse table up to case |
| `Bech32.RoundTrip` | src/bech32.cpp:142-188 | decoding undoes encoding if and only if the human-readable part is printable without upper case, all values are below 32 and the string has at most 1023 characters, or both parts are empty; with only the first one empty it does not |
| `Bech32.Reencode` | src/bech32.cpp:142-188 | every accepted string is, up to case, the encoding of what it decodes to |
| `Bech32.PolyMod` | src/bech32.cpp:33-90 | the loop computes the residue |
| `Bech32.ExpandHRP` | src/bech32.cpp:98-111 | high bits, a zero, low bits |
| `Bech32.VerifyChecksum` | src/bech32.cpp:113-121 | true exactly if the residue is 1 |
| `Bech32.CreateChecksum` | src/bech32.cpp:123-135 | the only six symbols that complete the data to a word that verifies |
| `Bech32.Encode` | src/bech32.cpp:142-155 | the specified string, empty exactly if some value is not a symbol |
| `Bech32.CheckCharacters` | src/bech32.cpp:159-166 | printable, and not in both cases |
| `Bech32.FindLast` | src/bech32.cpp:167-167 | the last separator |
| `Bech32.ReadWord` | src/bech32.cpp:171-179 | the symbols, if every character has one |
| `Bech32.ReadHrp` | src/bech32.cpp:180-183 | the prefix in lower case |
| `Bech32.Decode` | src/bech32.cpp:157-188 | the specified pair, empty on every kind of error |
| `Base58.AlphabetIs` | src/base58.cpp:21-22 | the alphabet, character by character |
| `Base58.Vectors` | src/test/data/base58_encode_decode.json:2-3 | no bytes give no string and the byte 61 gives 2g |
| `Base58.FindChar` | src/base58.cpp:42-45 | the place of a character in the alphabet, or none |
| `Base58.EncodeBuffer` | src/base58.cpp:83-84 | n bytes fit in n * 138 / 100 + 1 digits of base 58 |
| `Base58.DecodeBuffer` | src/base58.cpp:37-38 | n digits fit in n * 733 / 1000 + 1 bytes |
| `Base58.AccumulateDone` | src/base58.cpp:49-55 | when the inner loop stops no carry is left and the buffer holds the new number in as few digits as it needs |
| `Base58.Accumulate` | src/base58.cpp:46-55 | buf = buf * m + c; the assertion on the carry never fails |
| `Base58.EncodeBase58` | src/base58.cpp:74-112 | the specified string |
| `Base58.ReadBody` | src/base58.cpp:39-58 | reads digits until a space, a stranger or the limit |
| `Base58.TooLong` | src/base58.cpp:32-56 | the early exits refuse only what would not fit |
| `Base58.Refused` | src/base58.cpp:41-63 | a stranger between the outer spaces is refused |
| `Base58.DecodeBase58` | src/base58.cpp:24-72 | accepts exactly strings over the alphabet between spaces whose bytes fit, or that stand for no bytes |
| `Base58.DecodeString` | src/base58.cpp:119-125 | embedded NULs are refused |
| `Base58.DecodeEncoded` | src/base58.cpp:24-112 | decoding undoes encoding if and only if the bytes fit the limit or there are none |
| `Base58.EncodeDecoded` | src/base58.cpp:24-112 | every accepted string is, without the spaces around it, the encoding of what it decodes to |
| `DbKeys.LessTotal` | src/dbwrapper.h:552-560 | the byte order is total |
| `DbKeys.LessBytes` | src/dbwrapper.h:552-560 | one key is before another if and only if it is a proper prefix of it or smaller at the first byte that differs |
| `DbKeys.LessTransitive` | src/dbwrapper.h:552-560 | and transitive |
| `DbKeys.StepPos` | src/dbwrapper.h:446-453 | stepping an iterator leaves out exactly the key it was at |
| `DbTransaction.UsageUpdate` | src/dbwrapper.h:607-684 | replacing the pending entry of one key changes the sum by exactly its cost |
| `DbTransaction.Store.WriteBatch` | src/evo/evodb.cpp:60-61 | the store gets the changes of the batch in order |
| `DbTransaction.Base.Read` | src/dbwrapper.h:629-647 | at any depth, what the map shows; an error exactly for a pending value of another type |
| `DbTransaction.Base.Exists` | src/dbwrapper.h:655-666 | at any depth, whether the map shows the key |
| `DbTransaction.Base.Write` | src/dbwrapper.h:607-621 | a store, a batch or a transaction gets exactly this binding |
| `DbTransaction.Base.Erase` | src/dbwrapper.h:674-684 | a store, a batch or a transaction loses exactly this key |
| `DbTransaction.EraseAll` | src/dbwrapper.h:693-697 | the target loses exactly these keys |
| `DbTransaction.WriteAll` | src/dbwrapper.h:698-700 | the target gets exactly these bindings |
| `DbTransaction.Transaction.constructor` | src/dbwrapper.h:599-599 | a transaction over anything shows what that shows |
| `DbTransaction.Transaction.Write` | src/dbwrapper.h:607-621 | the map shown gets exactly this binding; the memory estimate stays the exact sum |
| `DbTransaction.Transaction.Read` | src/dbwrapper.h:629-647 | what the map shows; an error exactly for a value pending with another type, at this level or below |
| `DbTransaction.Transaction.Exists` | src/dbwrapper.h:655-666 | whether the map shows the key |
| `DbTransaction.Transaction.Erase` | src/dbwrapper.h:674-684 | the map shown loses exactly this key; the memory estimate stays the exact sum |
| `DbTransaction.Transaction.Clear` | src/dbwrapper.h:686-691 | shows the parent again |
| `DbTransaction.Transaction.Commit` | src/dbwrapper.h:693-702 | the target, a batch, a store or a transaction, shows all changes; committed into the parent, the map shown is the same as before |
| `DbTransaction.Transaction.Apply` | src/dbwrapper.h:607-684 | any sequence of writes and erases shows as the same changes made to the map in order |
| `DbTransaction.Transaction.GetMemoryUsage` | src/dbwrapper.h:709-721 | the exact sum over pending entries, so never negative |
| `DbTransaction.CurrentIsFirst` | src/dbwrapper.h:527-540 | the current key of the iterator is the smallest one left |
| `DbTransaction.OnlyOnce` | src/dbwrapper.h:441-455 | a key is left in one of the two sources only |
| `DbTransaction.NewIterator` | src/dbwrapper.h:405-412 | an iterator with iterators of its own for every level below |
| `DbTransaction.Iter.Next` | src/dbwrapper.h:441-455 | at any depth, exactly the smallest key left is left out |
| `DbTransaction.TransactionIterator.SkipUnlessKept` | src/dbwrapper.h:516-525 | stops at a key of the parent exactly if it is neither deleted nor overwritten |
| `DbTransaction.TransactionIterator.SkipDeletedAndOverwritten` | src/dbwrapper.h:515-525 | the parent skips exactly deleted and overwritten keys |
| `DbTransaction.TransactionIterator.DecideCur` | src/dbwrapper.h:527-540 | the smaller of the two keys becomes current |
| `DbTransaction.TransactionIterator.SeekToFirst` | src/dbwrapper.h:414-420 | all keys of the map are left |
| `DbTransaction.TransactionIterator.Seek` | src/dbwrapper.h:428-434 | the keys from the given one on are left |
| `DbTransaction.TransactionIterator.Next` | src/dbwrapper.h:441-455 | exactly the current key is left out; at the end nothing happens, and the two assertions hold |
| `DbTransaction.TransactionIterator.GetKey` | src/dbwrapper.h:478-488 | the smallest key left |
| `DbTransaction.TransactionIterator.GetValue` | src/dbwrapper.h:502-513 | what the map shows there, or an error exactly for a value pending with another type |
| `DbTransaction.AllKeys` | src/dbwrapper.h:414-455 | a full iteration over transactions nested to any depth yields the keys of the map once each, each before the next at the first byte that differs or as its prefix |
| `DbTransaction.Drain` | src/dbwrapper.h:441-488 | GetKey and Next to the end yield exactly what is left, in increasing byte order |
| `DbTransaction.KeysFrom` | src/dbwrapper.h:428-455 | iterating from a key on yields exactly the keys of the map not below it, in increasing byte order |
| `DbTransaction.EvoDb.constructor` | src/evo/evodb.cpp:36-42 | an empty database, nothing pending |
| `DbTransaction.EvoDb.Scope` | src/evo/evodb.cpp:22-54 | a committed scope shows all its changes, one rolled back leaves no trace, and the store is not touched |
| `DbTransaction.EvoDb.CollectRoot` | src/evo/evodb.cpp:58-59 | the root transaction goes into the batch |
| `DbTransaction.EvoDb.CommitRoot` | src/evo/evodb.cpp:56-63 | if the store accepts the batch it becomes what readers saw; if it does not, the store is as before and the changes wait in the batch, unseen |
| `RollingBloom.StoredAt` | src/bloom.h:136-143 | put changes the two bits of one position and no others |
| `RollingBloom.ShownNext` | src/bloom.cpp:272-277 | wiping the number of a new generation removes exactly what is three generations old |
| `RollingBloom.RecentFound` | src/bloom.cpp:264-302 | each of the last 2 * nEntriesPerGeneration keys has all its positions covered |
| `RollingBloom.OldForgotten` | src/bloom.cpp:264-302 | a key is found only if each of its positions was written by one of the last 3 * nEntriesPerGeneration entries |
| `RollingBloom.EmptyFindsNothing` | src/bloom.cpp:293-318 | nothing is found right after a reset |
| `RollingBloom.RollingBloomFilter.constructor` | src/bloom.cpp:236-257 | an empty filter whose two generations hold the requested number |
| `RollingBloom.RollingBloomFilter.Reset` | src/bloom.cpp:310-318 | an empty filter with a new tweak |
| `RollingBloom.RollingBloomFilter.Get` | src/bloom.h:136-138 | the two bits at a position |
| `RollingBloom.RollingBloomFilter.Put` | src/bloom.h:140-143 | stores two bits at a position |
| `RollingBloom.RollingBloomFilter.Wipe` | src/bloom.cpp:272-277 | the loop zeroes exactly the positions that show the code |
| `RollingBloom.RollingBloomFilter.Roll` | src/bloom.cpp:266-278 | the next generation starts with its old positions wiped |
| `RollingBloom.RollingBloomFilter.Insert` | src/bloom.cpp:264-285 | the key joins the history; every position shows the last generation that wrote it, while that is recent |
| `RollingBloom.RollingBloomFilter.Contains` | src/bloom.cpp:293-302 | true exactly if every position of the key was written by an entry of the last three generations |
| `RollingBloom.Run` | src/bloom.cpp:264-302 | in every run since a reset, each of the last 2 * nEntriesPerGeneration keys is found |

## Left out

- Check queue: boost's interruption points, and memory ordering below the mutex.
- Coin caches: the memory accounting (`cachedCoinsUsage`, `DynamicMemoryUsage`), `GetValueIn`, `HaveInputs`, cursors, partial batches and crash simulation of the database, and `HEAD_BLOCKS` recovery.
- Address manager: `Select_` with its probabilistic loop, `SetServices_`, asmap decoding, peers.dat checksums, and the wall clock; the locks are not modelled because every operation runs under one.
- AddrManDisk.Unserialize: the stream is a record of its parts, so what a misaligned byte stream would be read as is not modelled; a stream that is too short is refused, and what it leaves behind is not stated.
- AddrManCheck.Check: the codes -9 to -19 are not told apart from each other; which of them is returned follows the order of the loops.
- Block assembler: shielded transactions and their size limit, the coinbase and coinstake, block validation of the result, and fee modifications by `PrioritiseTransaction`: the fee of a package is the plain fee, for which the two ways the source subtracts an included parent (src/blockassembler.h:119-131 takes the plain fee, src/blockassembler.cpp:306-318 the modified one) agree.
- BlockAssembler.BlockAssembler.AddPackageTxs: which modified entry is best is an arbitrary choice, so nothing is stated about the fee optimality of the block.
- CuckooCache.Cache.constructor: takes the logarithm of the size, because computing it from a byte count uses floating point.
- Cuckoo cache: relaxed atomics of the collection flags under concurrent readers, `setup_bytes`, and the mixing of hashes.
- Chain.BlockMap.AddToBlockIndex: requires that a header does not name its own hash as its predecessor, which no header the source builds can do.
- Block index: chain work, validity status, `FindEarliestAtLeast`, and heights beyond 2^30, where the doubling step of `GetLocator` would leave the range of int.
- Multi-word integers: hexadecimal conversion, `getdouble`, `EqualTo`, bitwise operators between numbers, and serialization.
- Bech32: the regrouping of bits and the address formats built on it.
- Base58: `EncodeBase58Check` and `DecodeBase58Check`, which append and test four bytes of a hash.
- Database transaction: deserialization errors of values that come from the store, typed keys, size estimates of a batch, and changes made while an iterator is in use.
- CoinsModel.PopUndoesPush: requires a root that is not the null hash, because a null hash stands for no answer of its own; no tree is known to have it.
- CheckQueue.WaitTerminates: requires that nothing is added, which holds while the master is in Wait.
- RollingBloom.RollingBloomFilter.constructor: takes the number of hash functions and of words as parameters, because the source computes them in floating point.
- Rolling bloom filter: the false-positive rate, and zero requested elements, for which the source allocates no bits.
- Networking, wallet, script, consensus rules, staking, masternodes, budget, RPC and GUI are not part of this model.
