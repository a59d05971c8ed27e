# A verified model of the DEX library

This project models the parts of the DEX library whose correctness is hard to see from the code, and
proves properties of them over all inputs, runs and reachable states. `dafny verify dfyconfig.toml`
checks all of it.

**Event-sourced pool state.** `Steps` (SubscriberSteps.dfy) gives the steps of a
`StatefulEventSubscriber` as functions on a snapshot of its fields; `Subscriber` is the mutable class
whose methods perform exactly those steps, loop by loop. `BoundedHistory` runs the steps in any order
and compares the pruned history with a twin that never forgets. `ChainAgreement` adds a chain that can
reorganise and shows that every stored state is the fold of the logs of the chain as it stands.
`SubscriberLaws` says what single steps and whole calls do to what a subscriber answers.
`ComposedSubscriber` glues part subscribers together with lenses. `SupplyConservation` is one concrete
set of event handlers, those of the Angle transmuter.

**Fee quotes.** `FeeCurve` is a price that is linear between breakpoints, with the area under it.
`TransmuterQuotes` is the quoting loop, its binary search and its four quote types, proved against the
area; `QuoteTheorems` states the laws of the quotes: which are granted, there and back, and in two parts.

**Bytecode.** `ExecutorBytecode` prints trees of calls, vertical branches and metadata chunks as nested
length-prefixed frames and decodes them again; `Executor03Bytecode` is the flat layout. `Bytes` holds
the fixed-width fields. `ExchangeIndices` is the bookkeeping that ties an exchange to its parameters.

**Allocation and arithmetic.** `BasisPoints`, `Interpolation`, `AdapterAssignment`, `ContractPaths`,
`TransferFee` and `Vaults`.

**Serialization and scheduling.** `Values` are the values that are serialized, with decimal text;
`JsonText` writes them as JSON text and reads it back; `Serialization` carries big integers and big
numbers through that text. `Scheduler` is the promise scheduler as a state machine and as a class.

`Wrappers`, `Text` and `Sequences` hold what several modules share.

Amounts that the program keeps as `bigint` are integers. Amounts it keeps as floating-point mirrors of
fixed-point contracts are exact reals, with `Math.sqrt` any function that returns the non-negative root
of a non-negative number.

## What the proofs found

- Pruning the history is invisible only while logs are also played near the head. `rollback` may reach
  back seven blocks, but an `update` that plays logs of a block seven or more below the highest block
  reached rewrites an entry the pruned history no longer distinguishes. `BoundedHistory.Near` is the
  guard; for every block number outside it `FarRollbackDiffers` and `FarLogsDiffer` give a run after
  which the two histories answer differently.
- A state obtained without logs may be set behind the blocks already delivered: the cache callback, the
  state a job regenerates and the state a subscriber starts from all can be
  (src/stateful-event-subscriber.ts:140-142, 185, 334, 448). Every entry stays right exactly when no
  delivered block between that state and the next entry changes the state, or the entry is pruned at
  once (`ChainAgreement.FreshTracks`). Otherwise the current state is older than the deliveries and
  nothing says so: `ChainAgreement.LateStateFails` gives such a run for any two blocks.
- Without a preceding `invalidate`, a rollback keeps the current state. That is right exactly when the
  state is not beyond the common block, or happens to be the state of the new chain
  (`ChainAgreement.UninvalidatedRollback`); `UninvalidatedRollbackFails` gives a run that breaks it for
  any common block and any later one.
- A composed subscriber plays a log as often as its part names the address, up to case
  (`ComposedSubscriber.MentionsCount`): the parts are simulated exactly when no address is named twice
  (`ComposedSubscriber.SimulatedIffDistinct`).
- `buildPermit2CallData` with a flag that asks for a balance check appends 32 bytes after the last
  frame, outside the length in its header, so the code is no longer a sequence of frames
  (`ExecutorBytecode.Permit2Decodes`). `buildApproveCallData` appends them before it packs the frame.
- `buildVerticalBranchingFlag` counts exchanges within one route but uses the count as an index into
  the parameters of all routes: right exactly when no earlier route has an exchange
  (`ExchangeIndices.RouteScanAgrees`).
- A mint for a given input divides by the last price it charges. At a fee of -100% that is zero, and
  below it the answer is negative: right exactly when the price is positive
  (`QuoteTheorems.LastPriceDecides`).
- An exact quote may be granted although its inverse is refused: the inverse charges the whole segment
  in which the quote ends before it looks whether it ends there (`QuoteTheorems.ReturnsWhole`,
  `QuoteTheorems.GrantedOneWay`).
- A `ReservesAdjusted` event is applied as announced exactly when it is an increase, moves nothing or
  concerns an unknown collateral: the amount of a decrease is multiplied by `Number(false)`
  (`SupplyConservation.AdjustmentIsSigned`).
- A redemption while nothing is issued divides by zero. From then on an issued amount is not a finite
  number, whatever follows: the total is the sum over the collaterals exactly when that never happens
  (`SupplyConservation.SupplyConserved`).
- When every percentage of an adapter rounds to zero, its route percentages are "NaN" and not a split
  of 10000 (`ContractPaths.FixPercents`).
- `getRateMint` without supply, and `getRateWithdraw` without assets, throw before they reach the check
  that would have answered, because the remainder is computed first.
- `BigInt(1e27)` is not ten to the 27th power: the base of the accrual is the nearest double,
  1000000000000000013287555072.
- Serialized state is read back as it was exactly when no plain text in it starts with `bi@` or `bn@`,
  and no object in it has a numeric `length` that hides its other keys: lodash walks such an object by
  index, so that a big integer under another key makes it impossible to serialize
  (`Serialization.LengthHidesBigInt`), and a missing index comes back as a key of its own.
  Standing alone, a big integer cannot be serialized, a big number does not come back, and a text
  that is not empty throws (`Serialization.SerializeThenParse`).

## Model

| member | source | states |
|---|---|---|
| Steps.LatestKeyNone | src/stateful-event-subscriber.ts:297-302 | the search for the last state before a block finds the largest recorded block below it, and finds none only when there is none |
| Steps.GroupLength | src/stateful-event-subscriber.ts:281-291 | the logs of one block are the longest leading run with the same block number |
| Subscriber.StatefulEventSubscriber.constructor | src/stateful-event-subscriber.ts:27-42 | a new subscriber has no state, an empty history and no flag set |
| Subscriber.StatefulEventSubscriber.SetState | src/stateful-event-subscriber.ts:511-534 | block zero is ignored; otherwise the entry is recorded, the current state moves only forward in blocks and clears the invalid flag, and the history is pruned |
| Subscriber.StatefulEventSubscriber.PruneHistory | src/stateful-event-subscriber.ts:525-533 | the clean-up loop removes exactly the entries that a later one at or below the bound makes unnecessary |
| Subscriber.StatefulEventSubscriber.DropAbove | src/stateful-event-subscriber.ts:353-362 | the loop removes exactly the entries above the block and finds the latest one that stays |
| Subscriber.StatefulEventSubscriber.DropAboveExceptCurrent | src/stateful-event-subscriber.ts:373-379 | the loop removes exactly the entries above the block other than the current one |
| Subscriber.StatefulEventSubscriber.Rollback | src/stateful-event-subscriber.ts:351-381 | an invalid state falls back to the latest one left, or to none; a valid one is kept with its entry |
| Subscriber.StatefulEventSubscriber.DropBelow | src/stateful-event-subscriber.ts:240-244 | the loop, which stops early, still removes every entry below the block |
| Subscriber.StatefulEventSubscriber.Restart | src/stateful-event-subscriber.ts:239-251 | all entries below the block are gone, and the state with them if it was older |
| Subscriber.StatefulEventSubscriber.Invalidate | src/stateful-event-subscriber.ts:390-395 | sets the flag and nothing else |
| Subscriber.StatefulEventSubscriber.Inactivate | src/stateful-event-subscriber.ts:383-388 | sets the flag and nothing else |
| Subscriber.StatefulEventSubscriber.ProcessBlockLogs | src/stateful-event-subscriber.ts:213-228 | the loop gives the last non-null answer, each log played on the state so far |
| Subscriber.StatefulEventSubscriber.StateBefore | src/stateful-event-subscriber.ts:297-302 | the loop finds the largest recorded block below the given one |
| Subscriber.StatefulEventSubscriber.BlockEnd | src/stateful-event-subscriber.ts:282-291 | the inner loop ends where the logs of the block end |
| Subscriber.StatefulEventSubscriber.ProcessBlock | src/stateful-event-subscriber.ts:292-311 | one block's logs: a missing state is generated first, and logs are ignored when there is no older state |
| Subscriber.StatefulEventSubscriber.Update | src/stateful-event-subscriber.ts:260-316 | the outer loop handles the blocks one after the other and clears the invalid flag, unless the subscriber is inactive |
| Subscriber.StatefulEventSubscriber.GetState | src/stateful-event-subscriber.ts:403-409 | never presents an invalid state, nor one older than asked for unless all logs are tracked |
| SubscriberLaws.MissingStateRegenerated | src/stateful-event-subscriber.ts:292-295 | logs for a subscriber without a state leave exactly the state generated at their block, alone in the history |
| SubscriberLaws.UpdateFindsState | src/stateful-event-subscriber.ts:260-316 | after an update an active subscriber has a state if and only if it had one or got a log of a block above zero, and its flag is clear; an inactive one is left as it was |
| SubscriberLaws.FirstLogsGenerate | src/stateful-event-subscriber.ts:260-316 | a new subscriber that gets its first logs ends with the state generated at their block |
| SubscriberLaws.DeliveredHasState | src/stateful-event-subscriber.ts:292-311 | a block delivered with logs leaves a state; if there was none it is that of the chain at the block |
| SubscriberLaws.NullWhenNothingReacts | src/stateful-event-subscriber.ts:213-228 | playing a block's logs answers null if and only if none of them changes the state they are played on |
| SubscriberLaws.QuietLogsIgnored | src/stateful-event-subscriber.ts:296-311 | logs that change nothing, and logs older than every entry, leave a subscriber with a state exactly as it is |
| SubscriberLaws.UpdateOfOneBlock | src/stateful-event-subscriber.ts:281-311 | the logs of one block are played together |
| SubscriberLaws.UpdateInParts | src/stateful-event-subscriber.ts:260-316 | logs may come in one call or in two, as long as no block is cut in two |
| SubscriberLaws.SetIsCurrent | src/stateful-event-subscriber.ts:511-524 | a state at or past the current block becomes current and is served; an older one is only recorded |
| SubscriberLaws.SetKeepsEntries | src/stateful-event-subscriber.ts:525-533 | recording a state loses no entry younger than the bound, and none without a later one at or below it |
| SubscriberLaws.RollbackKeepsEntries | src/stateful-event-subscriber.ts:351-381 | every entry up to the block is kept, and beyond it only the current one of a valid state; an invalid subscriber is left without a state exactly when no entry is |
| SubscriberLaws.RestartKeepsEntries | src/stateful-event-subscriber.ts:239-251 | every entry from the block on is kept and no other, and the state unless it is older |
| SubscriberLaws.InvalidUntilNewer | src/stateful-event-subscriber.ts:390-409 | an invalidated state is not served again before an update ends or a state at or past its block is set |
| BoundedHistory.ReachableWellFormed | src/stateful-event-subscriber.ts:239-534 | in every state reached by any interleaving of the steps: no state exactly when the history is empty, otherwise the state is the entry with the largest block; at most one entry is as old as the pruning bound |
| BoundedHistory.ReachableHistorySize | src/stateful-event-subscriber.ts:525-533 | the history never has more than eight entries |
| BoundedHistory.RunRefines | src/stateful-event-subscriber.ts:511-534 | over any run that stays near the highest block, the pruned history is the unpruned one without entries that later ones at or below the bound replace |
| BoundedHistory.PruningInvisible | src/stateful-event-subscriber.ts:511-534 | on such runs the state, its block, the flag and every look-up from the bound on equal those of a twin that never prunes |
| BoundedHistory.FarRollbackDiffers | src/stateful-event-subscriber.ts:351-371 | for every rollback further back than the bound there is a run after which the two twins differ |
| BoundedHistory.FarLogsDiffer | src/stateful-event-subscriber.ts:297-311 | for every block at or below the bound there is a run after which playing its logs makes the twins differ |
| ChainAgreement.BlockResultIsFold | src/stateful-event-subscriber.ts:213-228 | playing a block's logs computes their fold, and answers null only if nothing changed |
| ChainAgreement.InsertAgrees | src/stateful-event-subscriber.ts:521-524 | an entry set at its own block keeps every entry right for the blocks at which it is in force if and only if no delivered block from it to the next entry changes the state |
| ChainAgreement.PruneAgrees | src/stateful-event-subscriber.ts:525-533 | pruning keeps that |
| ChainAgreement.DeliverTracks | src/stateful-event-subscriber.ts:260-316 | delivering the next block's logs keeps every entry the state of the chain at its block |
| ChainAgreement.ReorgTracks | src/dex-helper/iblock-manager.ts:36-45 | invalidating, perhaps setting a fresh state of the new chain, and rolling back to the common block leaves only states of the new chain, if and only if that fresh state settles: nothing delivered after it and before the next entry changes the state, or it is pruned at once |
| ChainAgreement.FreshTracks | src/stateful-event-subscriber.ts:511-534 | a state set without logs, at any block, keeps every entry right if and only if it settles |
| ChainAgreement.LateStateFails | src/stateful-event-subscriber.ts:440-450 | for any earlier block there is a run in which a state set there is current although it is not the state of the last block delivered |
| ChainAgreement.StatesAreChainStates | src/dex-helper/iblock-manager.ts:19-45 | after any run of deliveries, fresh states that settle, restarts and reorganisations every entry is the fold of the logs of the chain as it stands, and the current state is that of the last block delivered |
| ChainAgreement.UninvalidatedRollback | src/stateful-event-subscriber.ts:372-380 | a rollback without invalidation agrees with the new chain if and only if the kept state is not beyond the common block or is a state of the new chain |
| ChainAgreement.UninvalidatedRollbackFails | src/stateful-event-subscriber.ts:372-380 | for any common block and any later block there is a run in which such a rollback keeps a state the new chain does not have |
| ComposedSubscriber.PlayedProjects | src/composed-event-subscriber.ts:90-99 | seen through a lens, the loop over the subscribed parts only does what its own part does |
| ComposedSubscriber.ComposedSimulatesParts | src/composed-event-subscriber.ts:78-100 | on any log sequence, the composed state seen through a part's lens is the part's own run on the logs of its addresses |
| ComposedSubscriber.MentionsCount | src/composed-event-subscriber.ts:55-65 | for any list of addresses a counting part sees a log as often as it names the address, and on its own once |
| ComposedSubscriber.SimulatedIffDistinct | src/composed-event-subscriber.ts:55-100 | every part with these addresses is simulated on every log sequence if and only if no two of the addresses are the same up to case |
| Text.LowerIs | src/composed-event-subscriber.ts:55-65 | addresses are compared with their capital letters made small and nothing else changed |
| ComposedSubscriber.NullWhenNoneReacts | src/composed-event-subscriber.ts:78-100 | the answer is null if and only if no part subscribed reacts to the log |
| ComposedSubscriber.PlayedInParts | src/composed-event-subscriber.ts:90-99 | the parts are played one after the other, each on what those before it left |
| ComposedSubscriber.SubscribersAscend | src/composed-event-subscriber.ts:55-65 | the parts subscribed to an address are those that name it, in the order of the parts |
| ComposedSubscriber.ComposedEventSubscriber.constructor | src/composed-event-subscriber.ts:45-76 | the index holds, for each lower-case address, the parts that name it, in order; each slice holds the inputs of its part |
| ComposedSubscriber.ComposedEventSubscriber.SubscribePart | src/composed-event-subscriber.ts:56-65 | the inner loop adds a part once for each of its addresses |
| ComposedSubscriber.ComposedEventSubscriber.SubscribeAddress | src/composed-event-subscriber.ts:57-64 | an address seen for the first time gets an empty list and is subscribed to; the part is appended |
| ComposedSubscriber.ComposedEventSubscriber.SliceInputs | src/composed-event-subscriber.ts:67-75 | the slices cut the flattened inputs back into the inputs of each part |
| ComposedSubscriber.ComposedEventSubscriber.ProcessLog | src/composed-event-subscriber.ts:78-100 | a log goes through the parts subscribed to its address, null when none is or none changes |
| ComposedSubscriber.ComposedEventSubscriber.GenerateState | src/composed-event-subscriber.ts:102-130 | each part of the generated state is made from exactly the answers to that part's own inputs |
| SupplyConservation.TransmuterState.HandleSwap | src/dex/angle-transmuter/transmuter.ts:324-345 | a mint adds to the collateral and the total, a burn takes from both |
| SupplyConservation.TransmuterState.HandleRedeem | src/dex/angle-transmuter/transmuter.ts:350-366 | the loop scales every collateral by the same share of the emission before the event; with nothing issued that is no finite number |
| SupplyConservation.TransmuterState.HandleAdjustStablecoins | src/dex/angle-transmuter/transmuter.ts:388-400 | an increase adds to the collateral and the total; an unknown collateral throws after the total was written |
| SupplyConservation.ProcessLog | src/dex/angle-transmuter/transmuter.ts:56-93 | a handler that throws leaves the state as it was, because it works on a clone |
| SupplyConservation.NextBalanced | src/dex/angle-transmuter/transmuter.ts:324-400 | an event keeps the total equal to the sum over the collaterals if and only if it does not divide by zero, or has nothing to divide |
| SupplyConservation.SupplyConserved | src/dex/angle-transmuter/transmuter.ts:324-400 | over any run the total is the sum over the collaterals if and only if nothing is redeemed while nothing is issued |
| SupplyConservation.RedeemKeepsExposure | src/dex/angle-transmuter/transmuter.ts:350-366 | a redemption lowers the total by its amount and keeps each collateral's share of it; an issued amount stays non-negative if and only if no more is redeemed than was issued |
| SupplyConservation.SwapsCancel | src/dex/angle-transmuter/transmuter.ts:324-345 | a mint followed by the burn of the same amount restores the state |
| SupplyConservation.SwapMoves | src/dex/angle-transmuter/transmuter.ts:324-345 | a swap of known tokens that brings EURA in lowers the issued amount of the token going out, and the total, by exactly the amount in; any other raises that of the token coming in by exactly the amount out; nothing else changes |
| SupplyConservation.IncreaseMoves | src/dex/angle-transmuter/transmuter.ts:388-400 | an increase raises the issued amount of its collateral and the total by exactly its amount |
| SupplyConservation.AdjustmentIsSigned | src/dex/angle-transmuter/transmuter.ts:388-400 | an adjustment is the signed one the event announces if and only if it is an increase, moves nothing or concerns an unknown collateral |
| FeeCurve.Curve.CostBetween | src/dex/angle-transmuter/utils.ts:115-237 | across any number of breakpoints the cost lies between the move times the least and the greatest price met |
| FeeCurve.Curve.CostIncreasing | src/dex/angle-transmuter/utils.ts:115-228 | over positive prices a larger move costs strictly more |
| FeeCurve.Curve.FirstCostInjective | src/dex/angle-transmuter/utils.ts:115-228 | as far as prices are positive, the first move of a given cost is the only one, whatever the prices further on |
| FeeCurve.Curve.PriceOnLine | src/dex/angle-transmuter/utils.ts:115-155 | between two breakpoints the price lies on the straight line between theirs, after the last one it stays |
| FeeCurve.Curve.CostOnSegment | src/dex/angle-transmuter/utils.ts:160-172 | a move between two breakpoints costs the amount times the mean of the prices at its ends |
| TransmuterQuotes.ApplyFeeMint | src/dex/angle-transmuter/utils.ts:290-298 | the result times the price is the amount; refused exactly from the cap on; no finite number exactly at a fee of -100% |
| TransmuterQuotes.InvertFeeMint | src/dex/angle-transmuter/utils.ts:300-308 | the amount times the price; refused exactly from the cap on |
| TransmuterQuotes.ApplyFeeBurn | src/dex/angle-transmuter/utils.ts:310-317 | the amount times the price; refused exactly from the maximal burn fee on |
| TransmuterQuotes.InvertFeeBurn | src/dex/angle-transmuter/utils.ts:319-326 | the result times the price is the amount; refused exactly from the maximal burn fee on |
| TransmuterQuotes.ChargedInNumbers | src/dex/angle-transmuter/utils.ts:290-326 | the limits are a mint fee of 1000 and a burn fee of 0.999; a fee of a quarter is paid on top of a mint and kept from a burn |
| TransmuterQuotes.FindLowerBound | src/dex/angle-transmuter/utils.ts:240-274 | the binary search returns the last breakpoint reached, for increasing and decreasing arrays, and zero for an empty one |
| TransmuterQuotes.StartSegment | src/dex/angle-transmuter/utils.ts:95-107 | the segment found from the exposure holds the issued supply |
| TransmuterQuotes.CurrentFeesPrice | src/dex/angle-transmuter/utils.ts:115-155 | the fee computed inside a segment is the point of the curve at the issued supply, and nothing is divided by zero |
| TransmuterQuotes.RadicandNonNegative | src/dex/angle-transmuter/utils.ts:199-204 | the square root is never asked of a negative number, so the fallback for rounding is dead in exact arithmetic |
| TransmuterQuotes.MidFeeExact | src/dex/angle-transmuter/utils.ts:167-172 | on the exact side the mid fee is the mean of the prices at both ends of the move |
| TransmuterQuotes.MidFeeInverse | src/dex/angle-transmuter/utils.ts:173-212 | on the inverse side it is the mean of the present price and the price at which the amount is spent |
| TransmuterQuotes.WalkSegments | src/dex/angle-transmuter/utils.ts:115-237 | every pass keeps the supply inside its segment with a positive distance to the next breakpoint, and the amount so far is the area passed |
| TransmuterQuotes.QuoteFees | src/dex/angle-transmuter/utils.ts:84-238 | exact quotes are the area under the fee curve over the amount; inverse quotes are the first move whose area is the amount, as long as the price a mint divides by is positive; refused if and only if a price charged on the segments walked is over its limit |
| TransmuterQuotes.QuoteMintExactInput | src/dex/angle-transmuter/utils.ts:4-23 | for any fees: the first amount of stablecoins whose cost is the value paid in, if the last price charged is positive; refused if a price charged is over the limit, and despite that only over the cap |
| TransmuterQuotes.QuoteMintExactOutput | src/dex/angle-transmuter/utils.ts:26-44 | the collateral whose value is the cost of the stablecoins; refused if and only if over the cap or a price charged is over the limit |
| TransmuterQuotes.CapCounts | src/dex/angle-transmuter/utils.ts:4-44 | what is issued already counts toward the cap: minting in two steps exceeds it where minting at once does; a negative cap is none |
| TransmuterQuotes.QuoteBurnExactOutput | src/dex/angle-transmuter/utils.ts:47-63 | the first amount of stablecoins whose burn releases the collateral asked for; refused if and only if a price charged is over the limit |
| TransmuterQuotes.QuoteBurnExactInput | src/dex/angle-transmuter/utils.ts:66-82 | the collateral released by burning the stablecoins given; refused if and only if a price charged is over the limit |
| QuoteTheorems.TableChargeable | src/dex/angle-transmuter/utils.ts:290-343 | fees in range from the segment of the exposure on, and an exposure at or past the first breakpoint or a flat first segment, mean that no price of the quote is refused and that all of them are positive |
| QuoteTheorems.LastPricePositive | src/dex/angle-transmuter/utils.ts:173-237 | with positive prices from the exposure on, a mint is only ever divided by a positive price |
| QuoteTheorems.LastPriceDecides | src/dex/angle-transmuter/utils.ts:230-237 | from the last breakpoint on a mint is answered rightly if and only if the last price is positive and under the limit; a fee of -100% divides by zero, and one below answers with a negative amount |
| QuoteTheorems.ReturnsWhole | src/dex/angle-transmuter/utils.ts:84-238 | spending what a move costs over positive prices is granted if and only if the move is and the segment in which it ends can be charged as a whole |
| QuoteTheorems.GrantedOneWay | src/dex/angle-transmuter/utils.ts:160-174 | a fee table and an amount whose exact quote is granted and whose inverse is refused |
| QuoteTheorems.TableCurve | src/dex/angle-transmuter/utils.ts:84-113 | at a breakpoint of the mint or burn table the issued supply has its exposure, and the price is one with the fee listed there |
| QuoteTheorems.GrantedWhen | src/dex/angle-transmuter/utils.ts:115-237 | an exact quote is granted if and only if the mean price over each segment it enters, as far as it goes, is within the limit |
| QuoteTheorems.GrantedBack | src/dex/angle-transmuter/utils.ts:115-237 | over positive prices an inverse quote is granted if and only if, besides, the mean price over the whole of the segment where it ends is within the limit |
| QuoteTheorems.MintThereAndBack | src/dex/angle-transmuter/utils.ts:4-44 | over positive prices, minting with what an exact-output quote asks for gives exactly the amount quoted, across any breakpoints and whatever the fees beyond them; it is refused exactly when the quote is, or the segment in which it ends cannot be charged as a whole |
| QuoteTheorems.BurnThereAndBack | src/dex/angle-transmuter/utils.ts:47-82 | asking for what burning an amount releases costs exactly that amount, under the same condition |
| QuoteTheorems.QuoteInTwoParts | src/dex/angle-transmuter/utils.ts:84-238 | an exact quote is the sum of the quotes of its two parts with the supply moved in between, wherever the split falls; both parts are granted if and only if the whole is and the two halves of the segment that is split can be charged |
| Bytes.HexZeroPad | src/executor/ExecutorBytecodeBuilder.ts:348-353 | a number is padded to its width, or refused when it does not fit |
| Bytes.FieldValue | src/executor/ExecutorBytecodeBuilder.ts:348-353 | a padded field and its value determine each other |
| Bytes.ValueInNumbers | src/executor/ExecutorBytecodeBuilder.ts:348-353 | the most significant byte of a field comes first |
| ExecutorBytecode.HeaderFields | src/executor/constants.ts:24-34 | 32 bytes are the header of some values if and only if each field holds its value |
| ExecutorBytecode.MetadataFields | src/executor/Executor02BytecodeBuilder.ts:455-463 | the same for the metadata in front of a chunk |
| ExecutorBytecode.BranchDataFields | src/executor/Executor02BytecodeBuilder.ts:466-477 | the same for the data of a vertical branch |
| ExecutorBytecode.CallBytes | src/executor/ExecutorBytecodeBuilder.ts:336-357 | byte by byte: at which offset each value of a packed call stands, and how wide it is |
| ExecutorBytecode.BranchBytes | src/executor/Executor02BytecodeBuilder.ts:466-510 | the same for a vertical branch: special 10, an amount position four past the length of its code, an offset of 32 |
| ExecutorBytecode.ByteCodeBytes | src/executor/Executor02BytecodeBuilder.ts:1569-1579 | the outer pack announces an offset of 32 and 64 bytes more than it holds |
| ExecutorBytecode.FramesDecodeUniquely | src/executor/ExecutorBytecodeBuilder.ts:336-357 | the decoder recovers the tree of calls, chunks and nested branches from what the packers emit, if and only if no call carries the flag of a branch |
| ExecutorBytecode.ChunksDecodeUniquely | src/executor/Executor02BytecodeBuilder.ts:455-506 | the same for a run of metadata chunks |
| ExecutorBytecode.DecodableIsPacked | src/executor/Executor02BytecodeBuilder.ts:455-506 | the bytes the decoder accepts are exactly those the packers emit for such trees |
| ExecutorBytecode.DecodeConcatenation | src/executor/Executor02BytecodeBuilder.ts:1467-1482 | code is read piece by piece from any concatenation of what the packers emit |
| ExecutorBytecode.UnpackInvertsPack | src/executor/Executor02BytecodeBuilder.ts:1569-1579 | the outer pack and its reading are inverse, with 64 bytes still to come |
| ExecutorBytecode.ByteCodeDecodesUniquely | src/executor/Executor02BytecodeBuilder.ts:1438-1580 | what is returned for a run of chunks is read back, from the outer pack to the tree, as that run if and only if no call carries the flag of a branch |
| ExecutorBytecode.WrapIsChunk | src/executor/Executor02BytecodeBuilder.ts:1521-1527 | the wrapping with a size and a share of sixteen bytes is a chunk without a token position |
| ExecutorBytecode.Permit2Decodes | src/executor/ExecutorBytecodeBuilder.ts:224-249 | the permit2 approval is a sequence of frames if and only if no balance check is asked for |
| Executor03Bytecode.CallFields | src/executor/constants.ts:36-46 | bytes are a packed call of Executor03 if and only if every field holds its value |
| Executor03Bytecode.CallBytes | src/executor/ExecutorBytecodeBuilder.ts:359-379 | byte by byte: at which offset each value of a packed call of Executor03 stands |
| Executor03Bytecode.CallsDecodeUniquely | src/executor/ExecutorBytecodeBuilder.ts:359-379 | bytes decode to a run of such calls if and only if that run packs to them |
| ExchangeIndices.BuildFlags | src/executor/ExecutorBytecodeBuilder.ts:394-419 | the running index under which flags are built and stored is the place of their exchange among all exchanges |
| ExchangeIndices.ExchangeAtIndex | src/executor/ExecutorBytecodeBuilder.ts:400-419 | at its index stands the exchange itself |
| ExchangeIndices.ScanPriceRoute | src/executor/Executor02BytecodeBuilder.ts:926-937 | the scan returns the last place of the exchange, or zero |
| ExchangeIndices.LastPlaceIsLast | src/executor/Executor02BytecodeBuilder.ts:926-937 | of several places of an exchange the last one counts; one that is missing is given the first |
| ExchangeIndices.ScanAgrees | src/executor/Executor02BytecodeBuilder.ts:926-939 | with distinct exchange objects that is the index of its parameters |
| ExchangeIndices.ScanRoute | src/executor/Executor02BytecodeBuilder.ts:1182-1191 | the scan of a single route returns the last place of the exchange within that route, or zero |
| ExchangeIndices.RouteScanAgrees | src/executor/Executor02BytecodeBuilder.ts:1180-1193 | the scan of one route gives that index if and only if no earlier route has an exchange |
| BasisPoints.SortErrors | src/utils.ts:41-51 | sorting ranks every index once, by increasing error, and of equal errors the earlier index first |
| BasisPoints.UnitsAreFew | src/utils.ts:41-55 | the correction loops never index past the array, and only move entries rounded the wrong way |
| BasisPoints.Adjust | src/utils.ts:45-55 | each correction moves one entry by one and the sum with it |
| BasisPoints.ConvertToBasisPoints | src/utils.ts:30-57 | for any non-negative distribution with a positive sum: non-negative parts, summing to exactly 10000, each within one of its exact share, in the order of the distribution; they are the shares rounded half up, with the units missing given to those rounded down most, or those in excess taken from those rounded up most, the earlier first |
| Interpolation.ValidSamples | src/utils.ts:146-155 | a sample is usable exactly when no earlier price is larger |
| Interpolation.Interpolate | src/utils.ts:140-196 | with sorted volumes the pointer shared by all of them gives what an independent search gives each |
| Interpolation.BetweenSamples | src/utils.ts:172-194 | between usable neighbours, or zero and the first sample, the price is the straight line between theirs rounded down, whatever the side; zero if one of them is not usable |
| Interpolation.BeyondSamples | src/utils.ts:158-170 | beyond the samples a sale gets the last price and a purchase the largest number, or both zero if an earlier price is larger |
| Interpolation.ExactAtKnots | src/utils.ts:172-175 | a sampled volume gets exactly its sampled price |
| Interpolation.PricesRise | src/utils.ts:179-194 | among the volumes that get a price, larger ones never get a smaller one |
| Interpolation.SellNeverOverQuotes | src/utils.ts:179-194 | for samples of a concave output function the price never exceeds the output, rounding included |
| Interpolation.BuyNeverUnderQuotes | src/utils.ts:179-194 | for samples of a convex cost function the price is never below the cost, despite rounding down |
| AdapterAssignment.CountPoints | src/router/payload-encoder.ts:252-262 | the points of an adapter are its entries over all exchanges; an exchange without adapters stops the count |
| AdapterAssignment.BestAdapter | src/router/payload-encoder.ts:264-266 | the reduce keeps an adapter with most points |
| AdapterAssignment.BestIsLast | src/router/payload-encoder.ts:264-266 | among those it is the one first seen last |
| AdapterAssignment.RoundServes | src/router/payload-encoder.ts:273-291 | every round serves at least one exchange, so the recursion ends |
| AdapterAssignment.RoundIsLargest | src/router/payload-encoder.ts:264-287 | when no exchange lists an adapter twice, a round takes as many exchanges as any adapter could |
| AdapterAssignment.RoundGoesToMost | src/router/payload-encoder.ts:244-292 | on either side the round goes to an adapter with as many entries as any, the last first seen of those: every exchange it serves gets its first entry for it, the others what they get among themselves on a sale |
| AdapterAssignment.LeftSplits | src/router/payload-encoder.ts:268-287 | the exchanges left over keep their order and repetitions |
| AdapterAssignment.TakeRound | src/router/payload-encoder.ts:268-287 | exchanges with the best adapter get their own entry for it, the others are left in order; a purchase tolerates none left |
| AdapterAssignment.GetOptimalExchangeAdapterMap | src/router/payload-encoder.ts:244-292 | the recursion computes the greedy assignment |
| AdapterAssignment.AssignIsOwn | src/router/payload-encoder.ts:244-292 | every exchange, and nothing else, is mapped to an entry of its own list |
| AdapterAssignment.SellSucceeds | src/router/payload-encoder.ts:255-256 | a sale is refused if and only if some exchange has no adapter, and names the first |
| AdapterAssignment.BuyUsesOneAdapter | src/router/payload-encoder.ts:282-286 | a purchase maps all exchanges to one adapter |
| AdapterAssignment.BuySucceeds | src/router/payload-encoder.ts:282-286 | when no exchange lists an adapter twice, a purchase succeeds if and only if some adapter serves every exchange |
| ContractPaths.RoundedSum | src/router/payload-encoder.ts:214-217 | re-rounding a rounded running percentage adds exactly the rounded part |
| ContractPaths.PickKeepsOrder | src/router/payload-encoder.ts:193-227 | the routes of an adapter are those of its exchanges, in their order |
| ContractPaths.EachInOneRoute | src/router/payload-encoder.ts:193-227 | each exchange stands in exactly one place of exactly one group |
| ContractPaths.GroupsConserve | src/router/payload-encoder.ts:214-221 | any quantity added up adapter by adapter is its total over all exchanges |
| ContractPaths.CollectAdapters | src/router/payload-encoder.ts:192-227 | the loop builds one group per adapter, in order of first use, with the sums of its percentages and fees |
| ContractPaths.FixPercents | src/router/payload-encoder.ts:228-238 | an adapter's route percentages become the basis points of their distribution, summing to exactly 10000, or all become NaN, exactly when their sum is zero |
| ContractPaths.GetAdapters | src/router/payload-encoder.ts:186-239 | one contract call per adapter of the greedy assignment, with the routes of its exchanges in order and fixed percentages; the network fees add up to those of the exchanges |
| ContractPaths.ExchangeServed | src/router/payload-encoder.ts:186-239 | every exchange stands in the call of the adapter it is assigned to, with its parameters and the index configured |
| ContractPaths.CallsInOrder | src/router/payload-encoder.ts:192-239 | the calls stand in the order in which their adapters are first needed |
| ContractPaths.RoutesInOrder | src/router/payload-encoder.ts:222-227 | within a call the exchanges keep their order |
| ContractPaths.PercentsConserved | src/router/payload-encoder.ts:214-217 | the percentages of the calls add up to those of the exchanges in hundredths of a per cent, each rounded on its own |
| ContractPaths.SingleExchange | src/router/payload-encoder.ts:186-239 | a swap through a single exchange is one call that gives it 10000 out of 10000 |
| ContractPaths.GetContractPathsWithNetworkFee | src/router/payload-encoder.ts:102-124 | each path serves its swap under the greedy assignment; its fee, and that of the call, is the sum of what the exchanges ask for; refused exactly when an exchange has no adapter |
| TransferFee.ApplyTransferFee | src/lib/token-transfer-fee.ts:3-42 | each amount goes through the given number of transfers; only a purchase with a fee of 100% fails |
| TransferFee.OnePerCent | src/lib/token-transfer-fee.ts:3-42 | a fee of 100 is one per cent: 9900 of 10000 arrive, 10000 are sent for 9900 to arrive, and a second transfer charges again; a sale rounds what it keeps down |
| TransferFee.SentIsGreatest | src/lib/token-transfer-fee.ts:18-37 | the grossed-up amount is the greatest of which no more than the wanted amount arrives |
| TransferFee.TransferThereAndBack | src/lib/token-transfer-fee.ts:18-38 | one transfer of a grossed-up amount delivers exactly the amount, despite both divisions |
| TransferFee.FeesInvert | src/lib/token-transfer-fee.ts:15-40 | so does any number of transfers, for every fee below 100% and every amount |
| TransferFee.GrossUpThenCharge | src/lib/token-transfer-fee.ts:3-42 | the round trip on the function itself |
| Vaults.RayMulRoundDown | src/dex/aave-v3-stata-v2/aave-v3-stata-v2.ts:455-460 | the floor of the product over a ray |
| Vaults.RayMulRoundUp | src/dex/aave-v3-stata-v2/aave-v3-stata-v2.ts:462-467 | its ceiling |
| Vaults.RayDivRoundDown | src/dex/aave-v3-stata-v2/aave-v3-stata-v2.ts:469-471 | the floor of the quotient in rays; fails on a zero rate only |
| Vaults.RayDivRoundUp | src/dex/aave-v3-stata-v2/aave-v3-stata-v2.ts:473-475 | its ceiling |
| Vaults.GetRateDeposit | src/dex/angle-staked-stable/angle-staked-stable-pool.ts:210-215 | the shares for assets, rounded down, toward zero should a clock behind the last update make the assets negative; one to one without supply; fails only when a positive amount meets no assets |
| Vaults.GetRateMint | src/dex/angle-staked-stable/angle-staked-stable-pool.ts:217-224 | the assets for shares, rounded up; fails exactly without supply |
| Vaults.GetRateRedeem | src/dex/angle-staked-stable/angle-staked-stable-pool.ts:226-231 | the assets for shares, rounded down, toward zero if negative; one to one without supply |
| Vaults.GetRateWithdraw | src/dex/angle-staked-stable/angle-staked-stable-pool.ts:233-240 | the shares for assets, rounded up; fails exactly without assets; with negative assets one more than the truncated quotient when that is inexact |
| Vaults.StataRounds | src/dex/aave-v3-stata-v2/aave-v3-stata-v2.ts:430-453 | all four previews round against the caller, for any positive rate |
| Vaults.OneToOne | src/dex/aave-v3-stata-v2/aave-v3-stata-v2.ts:430-475 | at a rate of 10^27 all four previews are one to one |
| Vaults.StakedRounds | src/dex/angle-staked-stable/angle-staked-stable-pool.ts:210-240 | so do the four rates, with supply and accrued assets positive, whatever the clock |
| Vaults.Adjoint | src/dex/aave-v3-stata-v2/aave-v3-stata-v2.ts:430-453 | minting costs no more than an amount iff that amount deposits to as many shares; withdrawing likewise answers redeeming |
| Vaults.NothingGained | src/dex/angle-staked-stable/angle-staked-stable-pool.ts:210-240 | no chain of deposits, mints, redemptions and withdrawals at one moment's prices makes a wallet worth more |
| Vaults.DivisionsExact | src/dex/angle-staked-stable/angle-staked-stable-pool.ts:258-259 | the divisions by two and by six drop nothing |
| Vaults.GrowthCompounds | src/dex/angle-staked-stable/angle-staked-stable-pool.ts:251-264 | the accrual compounds: each second adds the rate, the rate squared once per second before it and the rate cubed once per pair of them, where square and cube are the nearest multiples of the base |
| Vaults.AssetsGrown | src/dex/angle-staked-stable/angle-staked-stable-pool.ts:251-264 | accrued assets are the amount times that growth, rounded down, or toward zero should the clock be behind |
| Vaults.AccruedSince | src/dex/angle-staked-stable/angle-staked-stable-pool.ts:242-249 | what the vault holds is what it held at the last update, grown at its rate since then |
| Vaults.OneYear | src/dex/angle-staked-stable/angle-staked-stable-pool.ts:251-264 | a year at five per cent, to the unit |
| Vaults.AccrualGrows | src/dex/angle-staked-stable/angle-staked-stable-pool.ts:251-264 | from the last update on, accrued assets never fall below the amount and never decrease with the time elapsed |
| Vaults.LaterSharesAreWorthMore | src/dex/angle-staked-stable/angle-staked-stable-pool.ts:210-249 | from the last update on, later a share is redeemed for no less and a deposit buys no more |
| Values.PrintRead | src/utils.ts:234-261 | decimal text of any signed integer is read back as that integer |
| Values.PrintInNumbers | src/utils.ts:234-261 | decimal text: digits most significant first, a minus sign in front |
| JsonText.EscapedRead | src/utils.ts:293-305 | quoted text is read back as the text, whatever characters it has and whatever follows the quote |
| JsonText.Punctuation | src/utils.ts:291-305 | arrays and objects are written with brackets, commas and quoted keys |
| JsonText.LeafText | src/utils.ts:291-305 | null, booleans, numbers and texts are written as JSON has them |
| JsonText.JsonThereAndBack | src/utils.ts:293-308 | JSON text written for any value JSON can carry is read back as that value |
| JsonText.EscapedSample | src/utils.ts:291-305 | a quote within a text is escaped, and the closing one is not |
| Serialization.Typecast | src/utils.ts:273-289 | the loop casts each property it walks by the first type that accepts it, recursively, and stops at the first caster that throws; an object with a numeric length is walked by index, and gets the indices it lacks |
| Serialization.CastThereAndBack | src/utils.ts:216-317 | casting to text always succeeds; what it leaves can be written if and only if no big integer is left where it does not go; casting back what was written restores the value if and only if it is clean |
| Serialization.CastIs | src/utils.ts:273-289 | a cast succeeds if and only if every property walked can be cast; it casts those, leaves the others as they are, and adds nothing unless an index is missing |
| Serialization.PrefixedText | src/utils.ts:216-261 | big integers become `bi@`, big numbers `bn@`, and their decimal text |
| Serialization.WalkedKeys | src/utils.ts:273-289 | under a numeric length the keys walked are the indices below it; without one, and in an array, all keys are |
| Serialization.LengthHidesBigInt | src/utils.ts:273-289 | an object with a numeric length and a big integer under another key cannot be serialized, though it can without the length |
| Serialization.SerializeThenParse | src/utils.ts:291-317 | for any data, serializing fails if and only if a big integer is left where the cast does not go or stands alone, or a text stands alone; the data is read back as it was if and only if it can stand at the top, no text the cast reaches starts with either prefix, and under a numeric length every index is there and everything else is what JSON can carry |
| Serialization.FormatsExist | src/utils.ts:216-317 | formats as the round trip asks for exist |
| Scheduler.PromiseScheduler.constructor | src/lib/promise-scheduler.ts:7-13 | starts with the timer armed and nothing waiting |
| Scheduler.PromiseScheduler.AddPromise | src/lib/promise-scheduler.ts:15-17 | appends to those waiting |
| Scheduler.PromiseScheduler.Run | src/lib/promise-scheduler.ts:19-53 | with nothing waiting the timer is armed again; otherwise everything waiting becomes one batch |
| Scheduler.PromiseScheduler.TimerFires | src/lib/promise-scheduler.ts:19-53 | a timer that fires is used up: it is armed again with nothing waiting, or everything waiting becomes a batch |
| Scheduler.PromiseScheduler.TaskEnds | src/lib/promise-scheduler.ts:33-50 | a failure is added again, and the last task of the batch arms the timer |
| Scheduler.NothingIsLost | src/lib/promise-scheduler.ts:15-54 | in every interleaving a promise is waiting, in flight or done as often as it was added |
| Scheduler.BatchesNeverOverlap | src/lib/promise-scheduler.ts:19-53 | the timer is armed once exactly while no batch runs, and two batches never run together |
| Scheduler.NeverStuck | src/lib/promise-scheduler.ts:19-53 | in every reachable state the timer can fire or a task can end |
| Scheduler.FireSendsAll | src/lib/promise-scheduler.ts:28-29 | when the timer fires everything that waits goes in flight |
| Scheduler.OnlySuccessEnds | src/lib/promise-scheduler.ts:15-54 | a promise is done exactly when its task succeeds; one that fails waits again behind the others |

## Left out

- TransmuterQuotes.QuoteMintExactInput: where the last price charged is not positive, nothing is said of an amount that is returned, except from the last breakpoint on (`QuoteTheorems.LastPriceDecides`).
- TransmuterQuotes.ValidTable: breakpoints are strictly monotone and only the first burn exposure may be one, with a flat segment after it, as the contract demands when fees are set.
- Serialization.Typecast: cast on values, so writing into the cloned object in place is not captured, nor where among the keys a new index appears.
- Serialization.SerializeThenParse: data has no property that is undefined before the cast; `JSON.stringify` would drop it.
- Values.PrintRead: of the spellings `BigInt` accepts, white space and other bases are not read.
- SupplyConservation.NextBalanced: collaterals added or revoked by events are not modelled.
- AdapterAssignment.RoundIsLargest: greedy choice is optimal round by round only; nothing is said about the number of adapters used in all.
- Floating-point error: fees, prices and issued amounts are exact reals.
- JsonText.JsonThereAndBack: `JSON.parse` is modelled on text as `JSON.stringify` writes it; white space, repeated keys and other escapes are not read. How finite numbers and `BigNumber` are printed is a parameter that must read back what it wrote.
- `generateState`, event decoding and `getAdapterParam` are functions handed in.
- The cache callback and the job that regenerates a missing state are the same step as any other `setState`, at any block; their scheduling is not modelled.
- Block headers are part of the data of a log; logging and checks that only log are dropped.
- `parallelLimit` starts tasks in any order and at any pace; the limit itself is not modelled.
- Searches for token addresses and amounts in hex text: positions are values of the frames.
- The choice of flags, and where wrapping, approvals and transfers are placed; what the contracts do with the bytecode.
- Metadata of Executor01 and Executor03, which is packed like that of Executor02.
- `getAdapterAndRouteForBuy` and the mega-swap percentages: thin loops over the assignment modelled here.
- The alias and RFQ keys of `getDexKeySpecial`.
- Algebra pool pricing, swap replay and AaveGsm quotes, which rest on libraries that are not part of this model.
