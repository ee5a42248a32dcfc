# A verified model of the trading engine

The repository is a trading engine in C with a Python API: a pooled limit order book, a matching engine with six
order types, an order-intake gateway, a pipeline that settles trades into accounts, and a bridge that keeps a
second copy of order state for the API. This project models that core in Dafny and proves what it promises.

The model is layered the way the program is. At each layer a class updates its fields in place, as the C code
does, and is proved equal to a function on plain values; the promises are then proved about that function, over
every input and every run.

| layer | in place | reference definition | laws |
|---|---|---|---|
| pools, trees, tables | `FreeStack`, `LevelPool`, `IdTable`, `IdemCache`, `Ring` | sequences, `AvlTree`, maps | `AvlTree`, `IdTable`, `IdemCache`, `Ring` |
| order book | `Book` (agreement of its structures: `BookState`) | `PriceTime`, `BookSpec` | `MatchLaws`, `BookLaws`, `BookAnswers` |
| matching engine | `Engine`, `Orders` | `EngineSpec` | `EngineLaws`, `MarketLaws`, `StopLaws`, `EngineAnswers`, `AuditLaws` |
| accounts | `Portfolio` (C and Python), `AccountTable` | `Accounting` | `Accounting`, `Portfolio`, `LedgerLaws` |
| gateway | `Gateway` | `GatewaySpec`, `RateLimit` | `GatewaySpec`, `GatewayRuns`, `GatewayAnswers`, `RateLimit` |
| pipeline | `Pipeline` | `PipelineSpec` | `PipelineLaws`, `PipelineRuns`, `PipelineAnswers` |
| bridge | `Bridge`, `OrderRegistry`, `EventStream` | `BridgeSpec`, `Registry` | `RegistryLaws`, `FillLaws`, `CascadeLaws`, `BridgeSpec`, `BridgeRuns`, `StreamLaws`, `FaceLaws` |

One side of the book is, in the end, a sequence of resting orders, the one that matches first at the front. The
five structures of the C book (two free-stacks, linked queues, AVL trees over pool slots, the id table, cached
sums) are proved to agree with each other and with that sequence after every operation, also while an incoming
order is being matched and belongs to none of them.

`dafny verify dfyconfig.toml` checks the whole project. Prices, quantities, ids and times are mathematical
integers.

## Where the documentation says otherwise

The model follows the code. Each of these is stated as a lemma with the exact condition, and with an input on which
it shows.

- `engine/orderbook.h:267` says that reducing a quantity keeps time priority. The order is always queued again at
  the tail, so it keeps its place exactly when it was the last of its price (`RequantityKeepsPlaceIff`,
  `ReducingCanLosePlace`).
- `engine/matching_engine.h:52` says that market orders never rest. When a submission returns, a market order rests at
  its sentinel price exactly when the other side held less than it asked for, the book had a slot and a level for the
  remainder, and the trades of the stops it fired have not taken that too (`MarketRestsIff`, `MarketRestsUnfired`,
  `MarketCanRest`, `MarketStopTakes`).
- `engine/matching_engine.h:313` says that a stop activates when the last price crosses its trigger. A stop whose
  trigger the last price already meets is not checked on entry and lies dormant; this is the one way in which any call
  leaves a stop overdue (`PerformDueIff`, `RunDueIff`, `CanEnterDue`).
- `pipeline/gateway.h:20` says that a duplicate gets the original acknowledgement. A message that finds the ring
  full is acknowledged as throttled, and when it is sent again as a duplicate of an order that is on no ring
  (`TurnedAwayIff`, `TurnedAwayExample`); once the cache is full, a repeated key is admitted again, and a repeat that
  the rate limit or the kill switch stops gets their answer (`CaughtIff`, `FullCacheExample`).
- Amending rests an order without matching it, so it can cross the book, exactly when its new price reaches and its
  side has room for it (`ModifyUncrossedIff`, `ModifyCanCross`). At the level limit the amended order is lost without
  an event. As long as the engine's ring drops nothing, this is the one way in which a message can bring the registry
  out of agreement with the book about the orders it has mapped, stops aside (`AcceptKeepsIff`, `ModifyAgreesIff`,
  `LostExample`).
- Not every order on the book is mapped. One rests without a slot that tells of it exactly when a new order rests for
  which there was no slot, no owner entry or no mappable engine id, or when an order rests that a stop turned into
  (`AcceptCoversIff`, `RestsWithoutSlot`, `RestsStopBorn`). An order that has a slot but no mappable id is shown as
  rejected while it rests (`EnteredTellsIff`, `RestsUnmapped`).
- `pipeline/pipeline.c:142` says that every trade updates the portfolios of both sides, and `pipeline/pipeline.c:168`
  that the leg of an unknown side is skipped. An order that a stop turned into is unknown, so its trades are settled
  on one side only, and cash and positions no longer sum to what they were; they do exactly when both sides are known
  or neither is (`ZeroSumIff`, `StopUnbalances`).
- The C and the Python accounting divide differently. They agree after a fill exactly under `RoundingsAgreeIff`,
  which on positive prices always holds (`RoundingsAgreeRun`, `RoundingsCanDiffer`). They also take the two legs of a
  trade in different order, the C side the aggressor's first and the Python side the buyer's. This shows only in an
  account that sells to itself, and there exactly unless `SelfSaleIff` holds (`SelfSaleDiffers`); otherwise the two
  ledgers stay equal over a run in which every order with an owner entry is mapped (`LedgersAgree`).

## Model

| member | source | states |
|---|---|---|
| AvlTree.InsertContents | engine/orderbook.c:220-249 | inserting a new price puts one payload at its place in the price order and moves nothing else, through all four rebalancing cases |
| AvlTree.InsertBalanced | engine/orderbook.c:220-249 | insertion keeps every node balanced within one and grows the tree by at most one level |
| AvlTree.InsertDuplicate | engine/orderbook.c:226-231 | inserting a price that is present changes nothing |
| AvlTree.RemoveContents | engine/orderbook.c:267-299 | a removal takes exactly one payload out of the price order, also when the successor's payload moves into another slot |
| AvlTree.RemoveSlots | engine/orderbook.c:267-299 | a removal gives back exactly one slot of the tree if the price is present and none otherwise, and no slot occurs twice afterwards |
| AvlTree.RemoveBalanced | engine/orderbook.c:267-299 | a removal keeps every node balanced within one and shrinks the tree by at most one level |
| AvlTree.HeightBound | engine/orderbook.h:119 | a balanced tree of at most 256 levels is at most 11 high: the logarithmic cost that the header claims |
| LevelPool.LevelPool.Insert | engine/orderbook.c:220-249 | the recursive in-place insertion leaves the pool slots linked in the shape of the inserted tree, with exact stored heights, and touches no other slot |
| LevelPool.LevelPool.Remove | engine/orderbook.c:267-299 | the in-place removal leaves the slots linked in the shape of the shrunken tree and pushes exactly the slot it gives back on the free-stack |
| LevelPool.LevelPool.RotateRight | engine/orderbook.c:197-206 | a right rotation in place, with both heights made exact again |
| LevelPool.LevelPool.RotateLeft | engine/orderbook.c:208-217 | a left rotation in place, with both heights made exact again |
| LevelPool.LevelPool.Open | engine/orderbook.c:331-344 | opening a level adds exactly one empty level to the price map of one side; the allocation never fails |
| LevelPool.LevelPool.Close | engine/orderbook.c:361-372 | closing a level removes exactly its price from the map of one side |
| LevelPool.LevelPool.Find | engine/orderbook.c:302-310 | the search finds the slot of a price exactly when the price has a level |
| LevelPool.LevelPool.Best | engine/orderbook.c:252-264 | the end of the tree is the best price of all levels: the lowest ask, the highest bid |
| LevelPool.EveryLevelOnce | engine/orderbook.c:73-83 | each level slot is on the free-stack or in exactly one of the two trees |
| IdTable.IdTable.Insert | engine/orderbook.c:126-134 | linear-probing insertion adds one binding to the map, for every hash function |
| IdTable.IdTable.Find | engine/orderbook.c:137-146 | a lookup returns exactly the live binding, for every hash function |
| IdTable.IdTable.Remove | engine/orderbook.c:148-167 | removal without tombstones drops one binding; re-inserting the rest of the cluster loses no other key, and the loops end |
| IdTable.ReinsertKeeps | engine/orderbook.c:156-165 | re-inserting one key of a broken cluster leaves every key reachable except those still to be re-inserted |
| FreeStack.FreeStack.Alloc | engine/orderbook.c:56-60 | allocation hands out the slot freed last, or none when the pool is exhausted |
| FreeStack.FreeStack.Free | engine/orderbook.c:65-70 | a freed slot is the next one to be handed out |
| BookState.EverySlotOnce | engine/orderbook.c:56-70 | each order slot is on the free-stack or once in one queue, that of its own side and price; its id is zero exactly when it is free |
| BookState.EnqueueOk | engine/orderbook.c:347-358 | queueing an order in flight keeps all structures in agreement and enters it into its side's sequence behind everything at least as good |
| BookState.DequeueOk | engine/orderbook.c:361-372 | unlinking an order keeps all structures in agreement and takes exactly it out of its side's sequence |
| BookState.LookupIsSearch | engine/orderbook.c:137-146 | looking an id up in the table finds exactly the order of that id on the two sides |
| BookState.ListedIsLadder | engine/orderbook.c:820-842 | levels listed best first, with their cached totals, are the price ladder of the side's orders |
| Book.Book.constructor | engine/orderbook.c:420-445 | the initial book is empty and all its structures agree |
| Book.Book.Enqueue | engine/orderbook.c:347-358 | the links, the level's end points and both cached sums after appending to a queue |
| Book.Book.Dequeue | engine/orderbook.c:361-372 | the links, the level's end points and both cached sums after unlinking from any place of a queue |
| Book.Book.FillHead | engine/orderbook.c:500-533 | one fill against the head of the best level: recorded, both quantities reduced, the exhausted head unlinked, unlisted and freed; the record is never suppressed |
| Book.Book.MatchAgainst | engine/orderbook.c:476-541 | the two nested loops make exactly the fills of the reference match and leave exactly its remainder |
| Book.Book.AddOrder | engine/orderbook.c:544-627 | adding refines the reference: match, then rest, or reject for lack of a slot, a price or a level |
| Book.Book.CancelOrder | engine/orderbook.c:631-662 | cancelling removes exactly the order of that id, keeps the places of all others, and empties exactly its slot |
| Book.Book.ModifyOrder | engine/orderbook.c:665-720 | amending takes the order out and enters it behind its peers at the new price, or loses it at the level limit |
| Book.Book.GetOrder | engine/orderbook.c:791-797 | the snapshot is the resting order of that id, or nothing when it does not rest |
| Book.Book.BestPrice | engine/orderbook.c:725-742 | the best price is that of the front of the side, zero when it is empty |
| Book.Book.TopLevels | engine/orderbook.c:803-842 | the best prices of a side with the quantity resting at each, as many as exist or were asked for |
| PriceTime.FlatEnter | engine/orderbook.c:347-358 | appending to the queue of a level is entering the whole side behind everything at least as good |
| PriceTime.FlatWithout | engine/orderbook.c:361-372 | taking an order out of its level takes it out of the side and moves no other |
| MatchLaws.MatchIsPrefix | engine/orderbook.c:476-541 | price-time priority: the fills are the front orders in sequence at their own prices, all but the last in full, and what stays is the rest with at most its front reduced |
| MatchLaws.MatchConserves | engine/orderbook.c:509-526 | recorded fills sum to exactly the quantity taken, on both sides |
| MatchLaws.MatchTakesAll | engine/orderbook.c:484-499 | everything within the limit is taken, and only that |
| MatchLaws.MatchStops | engine/orderbook.c:484-499 | a remainder means that nothing within the limit is left |
| BookLaws.ReachableWellFormed | engine/orderbook.c:544-720 | every run of add, cancel and modify keeps both sides ranked, ids unique and issued, quantities positive and the capacities |
| BookLaws.RunUncrossedIff | engine/orderbook.c:544-720 | over every run of additions, cancellations and amendments, the best bid is below the best ask at every point exactly when no amendment comes to rest within reach of the other side |
| BookLaws.RunUncrossed | engine/orderbook.c:544-720 | over every such run the book ends uncrossed, capacity rejections included |
| BookLaws.ModifyUncrossedIff | engine/orderbook.c:665-720 | an amendment crosses the book exactly when price and quantity are positive, the price reaches the other side's front, and the order's side has room for it once the order is out |
| BookLaws.ModifyCanCross | engine/orderbook.c:665-720 | two resting orders and an amendment that makes them cross |
| BookLaws.RequantityKeepsPlaceIff | engine/orderbook.c:677-720 | a change of quantity at the same price keeps the order's place exactly when it was the last of its price |
| BookLaws.ReducingCanLosePlace | engine/orderbook.h:267 | reducing the first of two orders at one price puts it behind the second |
| BookLaws.AddConserves | engine/orderbook.c:544-627 | what an order brought is traded, rests, or is lost at the level limit, and the other side holds less by what was traded |
| BookLaws.FillsFit | engine/orderbook.c:509-517 | an order makes fewer fills than the fill buffer has places |
| BookAnswers.AddAnswers | engine/orderbook.c:544-627 | the whole answer to a new order in the numbers of the call: what it takes from the front of the other side, and, unless its side is full, a remainder that stands at its own price behind everything at least as good, with what is left of its quantity |
| BookAnswers.AddRests | engine/orderbook.c:600-620 | the record under which a remainder rests: its id, its price, what is left, what it asked for, its expiry |
| BookAnswers.CancelAnswers | engine/orderbook.c:631-662 | exactly the order of that id leaves, from its one place, or nothing changes |
| BookAnswers.ModifyAnswers | engine/orderbook.c:665-720 | an amended order leaves its place and stands at the new price behind everything at least as good, with the new quantity and its old original quantity and expiry; at the level limit it is gone |
| BookAnswers.LadderTells | engine/orderbook.c:820-842 | the depth of a side: each price once, best first, each with all that rests at it |
| Orders.FokSumAsc | engine/orders.c:119-139 | the pruned, early-exit walk over the asks finds the wanted quantity exactly when the levels within the limit hold it |
| Orders.FokSumDesc | engine/orders.c:146-166 | the same for the bids |
| Orders.FokCheck | engine/orders.c:169-182 | the check succeeds exactly when the resting quantity within the limit is at least the order's |
| Engine.Engine.Emit | engine/matching_engine.c:65-112 | a full ring refuses the event and counts one drop, any other ring appends it; as long as nothing was dropped the ring holds exactly what was emitted and not yet taken off |
| Engine.Engine.Preprocess | engine/orders.c:220-276 | admission and effective price by order type; stop types are always turned away on this path |
| Engine.Engine.SubmitOrder | engine/matching_engine.c:247-338 | submitting refines the reference, including the stops it sets off |
| Engine.Engine.FireStops | engine/matching_engine.c:183-223 | the scan with its stale price refines the reference, and the mutual recursion ends because active stops fall at each nesting |
| Engine.Engine.SubmitStop | engine/matching_engine.c:342-411 | a valid stop lies dormant in the first free slot under the book's next id; otherwise it is refused |
| Engine.Engine.CancelStop | engine/matching_engine.c:415-429 | exactly the first active stop of that id goes |
| Engine.Engine.ExpireOrders | engine/matching_engine.c:433-469 | exactly the stops and orders go whose expiry is set and not after now, each announced once; the count is theirs and all survivors keep their places |
| Engine.Engine.CancelOrder | engine/matching_engine.c:473-486 | cancelling through the engine, with the event it announces |
| Engine.Engine.ModifyOrder | engine/matching_engine.c:490-506 | amending through the engine; an order lost at the level limit is reported by the result only |
| Engine.Engine.PollEvent | engine/matching_engine.c:74-80 | the ring gives up its events in the order they were emitted |
| EngineSpec.Submit | engine/matching_engine.c:183-338 | stops only ever go from active to inactive during a submission, so the active ones never increase |
| EngineLaws.SubmitQuiet | engine/matching_engine.c:183-223 | after any submission that traded, no active stop is triggered by the last trade price, although outer scans kept a stale one |
| StopLaws.PerformDueIff | engine/matching_engine.c:183-506 | after every call of the engine no active stop is triggered by the last price, exactly unless a stop is entered that the last price already meets |
| StopLaws.RunDueIff | engine/matching_engine.c:183-506 | over every run of submissions, stops, cancellations, amendments and sweeps, no stop is ever overdue exactly when none is entered so |
| StopLaws.CanEnterDue | engine/matching_engine.c:342-411 | a trade at 10, and a stop to buy at 10 that then lies dormant |
| EngineLaws.SubmitUncrossed | engine/matching_engine.c:247-338 | a submission and everything it sets off leaves the best bid below the best ask |
| EngineLaws.IocNeverRests | engine/matching_engine.c:298-305 | an IOC id never rests on return, even after nested stop activations |
| EngineLaws.FokAllOrNothing | engine/matching_engine.c:256-305 | a fill-or-kill order is filled completely or the book, the stops and the last price stay as they were; it trades exactly when admissible and the pool has a slot |
| EngineLaws.AvgPriceBounds | engine/matching_engine.c:280-295 | the reported average is within half a unit of the exact one and between the extreme fill prices |
| EngineAnswers.SubmitAnswers | engine/matching_engine.c:247-338 | which requests are refused, in plain numbers; any other fills the lesser of what it asks for and what the other side offers within its price, whatever stops it fires, and is reported with that quantity, its remainder and its status |
| EngineAnswers.MarketReaches | engine/orders.c:241-245 | the price of a market order is within reach of every 64-bit price |
| EngineAnswers.ExecuteReports | engine/matching_engine.c:276-336 | a submission announces its trades against the front of the other side, numbered on from the last, then the cancelled remainder of an IOC order, then what became of it |
| EngineAnswers.CancelOrderAnswers | engine/matching_engine.c:473-486 | a cancellation announces the order's price, its original quantity and what was still open |
| EngineAnswers.ModifyOrderAnswers | engine/matching_engine.c:490-506 | an accepted amendment announces the new price and quantity, any other announces nothing |
| EngineAnswers.StopAnswers | engine/matching_engine.c:342-411 | which stops are refused, and the record under which any other waits in the first free slot |
| EngineAnswers.CancelStopAnswers | engine/matching_engine.c:415-429 | nothing waits under a cancelled id, everything else waits as before |
| EngineAnswers.MatchCancelAnswers | pipeline/pipeline.c:131-136 | a cancelled id neither rests nor waits |
| EngineAnswers.RunRecords | engine/matching_engine.c:183-506 | over every run, dormant orders wait under distinct issued ids that name nothing on the book, as they were entered |
| EngineAnswers.ExpireAnswers | engine/matching_engine.c:433-469 | a sweep takes exactly what has an expiry that is not after now; orders good till cancelled stay |
| EngineAnswers.ExpiresIff | engine/matching_engine.c:400-469 | a stop entered with a time to live that still waits after any run is taken by a sweep exactly when that time is over |
| AuditLaws.RunAudited | engine/matching_engine.c:183-506 | over every run from a new engine, read off the event log: every trade is at the limit that the resting order announced last and within that of the incoming order; trades are numbered without gaps; counters and last price are those of the log; no stop fired without an earlier trade at its trigger or beyond |
| AuditLaws.FiredBecomes | engine/matching_engine.c:208-219 | a fired stop comes back with its side and quantity, as a market order or as a limit order at its own limit |
| EngineLaws.KeptSurvivors | engine/matching_engine.c:451-466 | cancelling exactly the expired orders, in whatever slot order, leaves the survivors in their places |
| EngineLaws.SweptMore | engine/matching_engine.c:454-465 | each cancellation inside the sweep succeeds and announces an order not announced before |
| MarketLaws.MarketRestsIff | engine/matching_engine.c:247-338 | when the submission returns, with all the stops it fired, a market order rests exactly when the other side held less than it asked for, the book had a slot and a level, and all its trades together took less than it asked for |
| MarketLaws.MarketRestsUnfired | engine/matching_engine.c:298-305 | when it fires no stop, it rests exactly when the other side held less and the book had a slot and a level |
| MarketLaws.MarketStopTakes | engine/matching_engine.c:183-223 | a book on which the other side falls short and the stop that the order fires takes its remainder |
| MarketLaws.MarketCanRest | engine/matching_engine.h:52 | the first order of the day, sent as a market order, rests |
| Ring.Ring.Push | engine/matching_engine.c:65-72 | a full ring refuses the element and counts it; otherwise it is appended |
| Ring.Ring.PushEvict | bridge/bridge.c:85-95 | a full ring gives up its oldest element for the new one |
| Ring.Ring.Pop | pipeline/gateway.c:59-65 | the oldest element comes off, if there is one |
| Accounting.PaidInExact | pipeline/portfolio.c:56-73 | opening, reducing, closing and turning round leave cash plus position at entry price minus realised profit exactly as it was |
| Accounting.PaidInRounds | pipeline/portfolio.c:48-55 | an extending fill moves that sum by less than one unit per unit held, down for longs and up for shorts |
| Accounting.PaidInRun | pipeline/portfolio.c:36-76 | the profit identity with its rounding bound over every sequence of fills |
| Accounting.CloseSplits | pipeline/portfolio.c:56-73 | a fill against the position may be split into any two at the same price, through zero included |
| Accounting.AvgInRangeRun | pipeline/portfolio.c:48-55 | while a position is open its entry price lies between the extreme prices traded |
| Accounting.RoundingsAgreeIff | api/engine_bridge.py:301-304 | the two accountings agree after a fill exactly when it does not extend, or the averaged value is not negative, or divides evenly |
| Accounting.RoundingsAgreeRun | api/engine_bridge.py:286-315 | on positive fills the C and the Python accounting never part |
| Accounting.RoundingsCanDiffer | pipeline/portfolio.c:53 | two fills below zero after which they differ |
| Accounting.SelfSaleIff | api/engine_bridge.py:392-395 | when an account sells to itself, taking the sale first and taking the purchase first give the same account exactly when no position is open or the units sold gain between nothing and less than one unit per unit held |
| Accounting.SelfSaleDiffers | pipeline/pipeline.c:174-188 | three units entered at 5, two of them sold to oneself at 10: the two ledgers part |
| Accounting.WorthRun | api/rooms.py:194-205 | cash plus position at a mark is the sum over all fills of signed quantity times mark minus price |
| Accounting.WorthOrder | api/rooms.py:194-205 | that score does not depend on the order of the fills, nor on the rounding |
| Accounting.TwoLegs | pipeline/pipeline.c:174-188 | the two legs of a trade leave total cash and total position as they were |
| Portfolio.Portfolio.OnFill | pipeline/portfolio.c:36-76 | the C accounting is the reference definition, split into closing and opening, with truncating division |
| Portfolio.Portfolio.Unrealised | pipeline/portfolio.c:123-127 | realised plus unrealised profit is the account's worth at the mark minus what was paid in |
| Portfolio.LegCases | pipeline/portfolio.c:36-76 | one leg in plain numbers: cash and position move by it; extending blends the entry price, reducing realises the closed units against it, turning round starts anew at the price |
| Portfolio.Ledger.ApplyFill | api/engine_bridge.py:286-315 | the Python accounting is the same definition with floor division; other users and other symbols stay untouched, account 0 is ignored |
| Portfolio.Ledger.Drain | api/engine_bridge.py:392-395 | draining the stream runs every account over its own legs of the published trades, the buyer's before the seller's |
| LedgerLaws.SettleAllLegs | pipeline/pipeline.c:170-210 | the C account is the reference accounting run over its own legs of the engine's trades, the aggressor's before the resting order's |
| LedgerLaws.MappedShowsIff | bridge/bridge.c:375-397 | the account the registry shows for an engine id is the one the pipeline settles with, for every id, exactly unless a new order gets an owner entry and no mapped slot |
| LedgerLaws.LedgersAgree | bridge/bridge.c:166-191 | over a run in which that does not happen, the Python account fed by the stream has the cash and the position of the C account, and is the same account unless it sold to itself |
| LedgerLaws.OpeningAccounted | bridge/bridge.c:265-295 | a new symbol starts with no owner and no account shown |
| Portfolio.ScoreIsGain | api/rooms.py:194-205 | with a mark the score of a player is the gain of the fills in any order |
| Portfolio.ScoreIsRealised | api/rooms.py:203 | without a mark it is the realised profit up to the rounding of entry prices |
| AccountTable.AccountTable.Add | pipeline/pipeline.c:231-241 | an account id within the table gets a fresh portfolio, any other is ignored |
| AccountTable.AccountTable.FillLeg | pipeline/pipeline.c:177-188 | the leg of an unknown account is skipped |
| IdemCache.IdemTable.Find | pipeline/gateway.c:82-96 | the probe finds a key exactly when it is remembered, for every hash function, also when the cache is full |
| IdemCache.IdemTable.Insert | pipeline/gateway.c:100-118 | a new key is remembered exactly while there is room, and no other key is lost |
| RateLimit.TakesBound | pipeline/gateway.c:125-143 | from initialisation on, passed calls are at most the burst plus the rate times the elapsed time, despite floor division and deferred refills |
| RateLimit.WindowBound | pipeline/gateway.c:125-143 | over any stretch of calls they are fewer than the burst plus one plus the rate times the elapsed time |
| GatewayAnswers.BurstPasses | pipeline/gateway.c:125-143 | of any number of calls at one moment as many pass as there are tokens: those left and all that accrued since the last refill, up to the burst |
| GatewayAnswers.SubmitAnswers | pipeline/gateway.c:151-316 | the whole answer of the gateway in plain numbers: which messages are malformed, killed, throttled for want of a token, duplicates, or throttled by a full ring, with the counters and the tokens left |
| GatewaySpec.AtMostOnce | pipeline/gateway.c:49-118 | ids go onto the ring strictly ascending and come off in that order, and while no more keys were seen than the cache holds no two orders on the ring share one |
| GatewaySpec.DuplicateReplays | pipeline/gateway.c:221-229 | a duplicate is answered with the id its key was first given and changes nothing but the rate limit |
| GatewaySpec.CaughtIff | pipeline/gateway.c:201-244 | an accepted message with a key that is sent again, after whatever came in between, is answered as a duplicate exactly when the cache had room, the kill switch lets it through and the rate limit has a token |
| GatewaySpec.TurnedAwayIff | pipeline/gateway.c:236-308 | a duplicate's id is on the ring exactly when the ring had room for the first message |
| GatewayRuns.TurnedAwayExample | pipeline/gateway.c:301-308 | a run from the start that fills the ring, after which a message is throttled and then a duplicate of an order on no ring |
| GatewayRuns.FullCacheExample | pipeline/gateway.c:98-118 | a run from the start that fills the cache, after which one message sent twice is admitted as two orders |
| GatewaySpec.AcceptedBound | pipeline/gateway.c:266-316 | over every run, no more reaches the ring than the burst of 2000 and 10000 a second after it |
| Gateway.Gateway.StageAdmit | pipeline/gateway.c:201-244 | kill switch, rate limit, duplicate check and id assignment, in that order |
| Gateway.Gateway.Submit | pipeline/gateway.c:266-316 | intake refines the reference, with all counters and acknowledgements |
| Gateway.Gateway.SetKillSwitch | pipeline/gateway.c:260 | the switch changes nothing else |
| Gateway.Gateway.PopOrder | pipeline/gateway.c:59-65 | the next stage takes orders off in the order they were admitted |
| PipelineSpec.SettleTotals | pipeline/pipeline.c:170-192 | a trade moves total position by the legs that can be attributed, and total cash by their value: not at all, unless it is just one |
| PipelineSpec.SettleAllMoves | pipeline/pipeline.c:200-210 | over any sequence of events, stops included, the totals move by exactly the legs whose other side is unknown |
| PipelineLaws.HandleZeroSum | pipeline/pipeline.c:279-343 | one message that fires no stop, from a known account, settles zero-sum and leaves every resting order attributed |
| PipelineLaws.RunZeroSum | pipeline/pipeline.c:279-343 | over every run of such messages total cash and total position never change |
| PipelineLaws.OpeningSettled | pipeline/pipeline.c:216-223 | an empty pipeline satisfies the invariant of settlement, whatever its accounts hold |
| PipelineLaws.OwnerAppend | pipeline/pipeline.c:24-46 | the first-match search finds the owner just remembered and every owner before it |
| PipelineLaws.ZeroSumIff | pipeline/pipeline.c:174-188 | a trade leaves total position as it was exactly when both of its sides are known or neither is, or its quantity is zero; total cash as well, unless the price is zero |
| PipelineRuns.StopUnbalances | pipeline/pipeline.c:174-188 | three orders from an empty pipeline after which a fired stop has traded unattributed: the totals are one unit and its price out |
| PipelineAnswers.StoppedLeaves | pipeline/pipeline.c:53-78 | which messages validation or risk stops, in plain numbers, and that they change nothing |
| PipelineAnswers.CodesMean | pipeline/pipeline.c:118-129 | what the order and side codes of a message mean to the engine |
| PipelineAnswers.ActionsMean | pipeline/pipeline.c:131-136 | a cancellation tries the book and then the dormant orders, an amendment the book alone, any other action nothing |
| PipelineAnswers.OwnerRemembered | pipeline/pipeline.c:24-38 | the account of a message is remembered under the engine's id while the map has room |
| PipelineLaws.ExecuteEmits | engine/matching_engine.c:276-336 | every trade of a submission is between its own id and orders that rested on the other side |
| Pipeline.Pipeline.LookupAccount | pipeline/pipeline.c:41-46 | the owner of an id, zero when there is none |
| Pipeline.Pipeline.RememberOwner | pipeline/pipeline.c:24-38 | an owner is remembered while the map has room |
| Pipeline.Pipeline.ApplyTrade | pipeline/pipeline.c:170-192 | both legs of a trade, aggressor first |
| Pipeline.Pipeline.DrainEngineEvents | pipeline/pipeline.c:200-210 | exactly the events emitted since the last drain are settled and handed to the bus, in order, provided the ring dropped nothing |
| Pipeline.Pipeline.MatchNew | pipeline/pipeline.c:118-129 | a new order reaches the book or the dormant orders; a stop with a time to live expires that long after now, any other never |
| Pipeline.Pipeline.RouteOrder | pipeline/pipeline.c:319-337 | new orders, cancels and amendments reach the engine, stops with their expiry, and the owner of a new id is remembered |
| Pipeline.Pipeline.Step | pipeline/pipeline.c:279-343 | every parked message is processed in the order of admission; settlement is zero-sum as long as nothing is dropped and every message is plain |
| Registry.SlotOfMe | bridge/bridge.c:72-102 | an engine id leads, through the gateway id, to the one slot that carries it |
| Registry.OnEventIsPointwise | bridge/bridge.c:159-261 | an event advances the slots of the orders it is about, each by itself, and leaves all others and the id mapping alone |
| RegistryLaws.MatchEach | engine/orderbook.c:500-533 | matching conserves the quantity of every single order |
| RegistryLaws.OwnAgrees | bridge/bridge.c:159-261 | after the events of its own submission, of any type and fate, an order's slot agrees with the book |
| RegistryLaws.OthersAgree | bridge/bridge.c:166-196 | the slots of the orders traded against agree with the book after the trades |
| RegistryLaws.CancelAgrees | bridge/bridge.c:227-231 | a cancellation leaves every slot in agreement |
| RegistryLaws.ModifyAgreesIff | bridge/bridge.c:232-235 | an amendment leaves every slot in agreement except exactly that of an order lost at the level limit |
| RegistryLaws.LostExample | engine/orderbook.c:698-706 | a run from the empty book to one with every level of a side in use, on which an amendment loses an order and its slot falls out of agreement |
| CascadeLaws.SubmitInStep | engine/matching_engine.c:183-338 | through a submission and everything it sets off, nested stops included, the slot of any order already on the book stays in agreement with the book, and its fills with all trades announced |
| CascadeLaws.OwnInStep | engine/matching_engine.c:183-338 | so does the slot of the submitted order itself, whatever its type and fate |
| CascadeLaws.SubmitConserves | engine/matching_engine.c:183-338 | through such a cascade what is left of every older order falls by exactly what the announced trades say it traded |
| FillLaws.OwnCounted | bridge/bridge.c:141-258 | the events of its own submission leave a slot with exactly the fills its order traded, whatever the order's type and fate |
| BridgeSpec.AcceptKeepsIff | bridge/bridge.c:309-432 | after every accepted message, whatever stops it fires, each mapped order that is not a stop is open in the registry exactly when it rests, with the same remainder, and the two id mappings stay inverse; the only exception is a message that amends such an order and loses it at the level limit |
| BridgeSpec.AcceptCoversIff | bridge/bridge.c:386-397 | after every accepted message every order on the book has a mapped slot, exactly unless a new order rests that found no slot, owner entry or mappable id, or an order rests that a stop turned into |
| BridgeSpec.EnteredTellsIff | bridge/bridge.c:358-429 | the slot of a new order is open exactly when the order rests, if and only if it does not rest or found its place |
| BridgeSpec.RunAgrees | bridge/bridge.c:309-432 | the agreement holds over every run in which no amendment loses such an order, with all the stops that fire |
| BridgeSpec.RunCovers | bridge/bridge.c:386-397 | over a run in which no message does that, every order on the book has its slot |
| BridgeSpec.OpeningAgrees | bridge/bridge.c:265-295 | a new symbol starts in agreement: nothing rests, no stop is dormant and no slot is used |
| BridgeSpec.RegistryTells | bridge/bridge.c:447-471 | what the view of an order therefore tells: open or partial exactly when it rests, with the quantity that rests; its fills are all it ever traded, and until an amendment fills and remainder are what it asked for |
| BridgeRuns.RestsUnmapped | bridge/bridge.c:388-397 | a run from the start after which an order rests under engine id 65537 and its slot says rejected |
| BridgeRuns.RestsWithoutSlot | bridge/bridge.c:358-365 | past the last slot an order rests that has none |
| BridgeRuns.RestsStopBorn | engine/matching_engine.c:183-223 | a run of three messages after which an order that a stop turned into rests without a slot |
| EventStream.Stage.OnBusEvent | bridge/bridge.c:111-123 | order events and trades are staged in order, book updates are not |
| EventStream.Stream.Push | bridge/bridge.c:85-95 | the stream always holds the newest messages under consecutive numbers, all newer than the last one polled if they fit, and pushed equals polled plus queued plus overwritten |
| EventStream.Stream.Poll | bridge/bridge.c:511-518 | polled numbers strictly increase and tell which message it is |
| StreamLaws.AcceptTells | bridge/bridge.c:159-261 | after every accepted message the last published message about every registered order carries all of its state: account, side, type, price, original quantity, remainder, fills and status |
| StreamLaws.AcceptRepeats | bridge/bridge.c:162-193 | every trade of a message is published once, in order, with its number, price and quantity, under the public ids and accounts of its two orders |
| FaceLaws.AcceptFaces | bridge/bridge.c:199-248 | a slot is partial exactly when it is open and something was filled, its price and side are the last that its order announced, it is cancelled or rejected exactly when that was announced, and a filled or cancelled one has nothing left |
| FaceLaws.FaceTells | bridge/bridge.c:226-243 | so the slot of a resting order shows the price it rests at, also after amendments; only a market order shows none |
| FaceLaws.ListenerKnows | bridge/bridge.c:139-156 | from the last message about a mapped order that is not a stop a listener knows whether it rests, on which side, at which price, how much is left and how much it ever traded; and of one that is gone whether it was cancelled, rejected or filled |
| FaceLaws.RunKnows | bridge/bridge.c:309-432 | this holds after every message of every run in which no amendment loses an order |
| FaceLaws.OpeningKnows | bridge/bridge.c:265-295 | and for a new symbol |
| FaceLaws.AcceptIdentifies | bridge/bridge.c:365-383 | a new slot carries the account, client id, type, side, trigger and quantity of its message, and no message changes those of another |
| OrderRegistry.OrderRegistry.OnTrade | bridge/bridge.c:162-197 | a trade advances both slots and is published, followed by the resting side's new state |
| OrderRegistry.OrderRegistry.OnOrder | bridge/bridge.c:199-258 | an order event updates its slot unless that is terminal, and is published |
| OrderRegistry.OrderRegistry.ProcessStaged | bridge/bridge.c:159-261 | all staged events are applied in order |
| OrderRegistry.OrderRegistry.Bind | bridge/bridge.c:388-397 | the engine's id and the gateway's id are entered in both directions |
| OrderRegistry.OrderRegistry.RejectUntouched | bridge/bridge.c:408-429 | an order no event has touched is shown as rejected |
| Bridge.Bridge.RunPipeline | bridge/bridge.c:385-394 | the staging buffer is exactly what the engine emitted for the one parked message, and never overflows |
| Bridge.Bridge.Submit | bridge/bridge.c:309-432 | submission through the bridge, unknown targets included; as long as the engine's ring drops nothing it keeps the agreement of registry and book exactly unless it amends an order and loses it at the level limit |
| Bridge.Bridge.GetOrder | bridge/bridge.c:447-471 | the view is the slot registered under that id |

## Left out

- BridgeSpec.AcceptKeepsIff: says nothing about the slots of stop orders, nor about an order that a stop turned into: it trades under an id that no slot carries.
- LedgerLaws.LedgersAgree: the Python side hears everything that is published; that it polls before the stream overwrites is not modelled.
- Several books at once: the id table of `engine/orderbook.c` is one global that each `ob_init` clears; the model is one book that owns its table.
- The book's depth query and the quantities in top-of-book: the pruning of `depth_in_tree` skips levels that are in range, so there is no sum to state.
- Engine.Engine.MaybeEmitTob: whether a top-of-book update is emitted is left open, because it depends on those quantities; the update itself carries no contents.
- Engine.Engine.SubmitOrder: the status reported for an order the book refused is what the code leaves there, its initial value, not a rejection; no property rests on it.
- Pipeline.Pipeline.Screen: the verdict of the risk check is arbitrary, because reservations are never released and no property depends on them.
- Pipeline.Pipeline.RouteOrder: the time from which a stop's expiry is computed is an input, as is every other clock reading.
- Book.Book.AddOrder: the fills are returned as a sequence, not written to a caller's buffer, and a missing buffer is not modelled.
- Timestamps of orders, fills, slots and messages.
- Integer widths: values are unbounded, so overflow of 64-bit prices times quantities is outside the model; the hash of the id table alone is computed modulo 2 to the 64th.
- Names and texts: symbols, reasons for rejection and printed reports.
- The write-ahead log and every other use of files, the freeing of memory, and the build with locks and threads.
- The event bus: its one subscriber that keeps state, the bridge's staging buffer, is called directly.
- The risk checks, reservations and position limits of `pipeline/risk.c` and `pipeline/portfolio.c`.
- The HTTP interface, the rooms around the score, the market maker, the price feeds, the mock engine and the frontend.
