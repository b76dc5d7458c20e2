# A model of the market maker's books and protocols

The repository is an autonomous market maker on a prediction market. It quotes both outcomes of a
market, collects liquidity rewards, and keeps its own books: an account and a table of quotes, a
ledger of collateral it already holds, a cursor into the venue's list of trades. This project
models that bookkeeping in Dafny and proves what has to stay true over whole runs, whatever the
venue, the chain and the clock answer.

Amounts, prices and times are exact reals; floating point appears only as an explicit error term
in the rounding of order amounts. Answers from outside (reward pools, books, mids, fills,
acknowledgements, chain positions, clock readings, a save that fails) are inputs of the step that
reads them. Where the source updates state in place the model has a class whose methods are proved
equal to a function of the state before them; the laws are lemmas about those functions.

| file | what it models |
|---|---|
| Quotes, QuoteLaws, QuoteExits | one quote under one live or paper poll: money, profit and loss, what makes it leave, what it is charged and paid |
| QuoteRuns, QuoteSeconds | one quote over runs of polls, reconciliations and cancellations: cover, when it can leave, seconds |
| Ledger, LedgerLaws, LedgerRuns, LedgerCover, Engine | the account and the quote table over every operation; the engine that updates them |
| Orderbook | reward share, committed capital, paper fills |
| Trades, TradeFills | reading new fills out of the newest-first trade list with a cursor, and what each row says |
| Held, Sums | the held-collateral ledger and its redundant aggregates |
| Recovery, RecoveryReads, Rebuilds | crash and recovery around the persisted watermark, and the chain rebuild inside it |
| Amounts, Flatten, FlattenAnswers | decimal rounding of orders; the retry loop that sells a position, and which answers count in it |
| RateLimit | token buckets, per endpoint and for the host |
| Calendar, Timestamps, TextOrder, Orders | ISO times, their round trip, their order as text, order expiry |
| Drawdown, Walk, Buckets | three small independent cores |

## What was found

- A trade that lands between the submitter's construction and the recovery read is counted twice:
  exactly what it bought is counted once too often (`Recovery.GapIsCountedTwice`).
- A catch-up whose read fails loses exactly what was missed, for good
  (`Recovery.FailedCatchUpLosesTheMissed`); a first poll that fails makes the next one count the
  whole log again (`Recovery.FailedFirstPollRereads`, `Recovery.BothReadsFail`).
- A process that starts with an empty watermark never sees fills already in the log: exactly what
  they bought is missing (`Recovery.EmptyWatermarkSkipsThePast`).
- The rebuild from the chain comes before the catch-up at startup, and before the poll in every
  scan. Fills still to be read that the chain already shows are then counted twice, but only those
  of tokens that were held before, and only if the rebuild is not skipped: a first fill of a
  registered token is counted once (`Rebuilds.StartupRebuildRecounts`,
  `Rebuilds.ScanRebuildRecounts`, and `Rebuilds.RecountHappens` for both cases). The surplus lasts
  until the first rebuild whose chain has caught up (`Rebuilds.CaughtUpRebuildHeals`).
- A rebuild takes back a token that settlement released for as long as the chain shows it
  (`Held.RebuildUndoesRelease`).
- An order whose placement times out may rest at the venue but is not registered. Its fills are
  read as foreign, and registering the token later does not bring them back
  (`Recovery.LateRegistrationMisses`).
- Legs of ours in one trade row share its id; a crash among them loses the rest of the row
  (`Recovery.CrashAmongLegsLosesTheRest`).
- Once a flatten has sold a share or more of a leg without clearing it, no run of polls takes the
  quote off the books any more: every retry asks for more than is held. Polls can take a quote off
  if and only if no leg is short in this way (`QuoteRuns.LeavesIff`, `LedgerCover.RowLeavesIff`);
  any quote can get there (`QuoteRuns.AnyQuoteCanStick`); and the reconciliation that the live
  runner makes at startup and every fifteen seconds frees it again, if the chain shows what is held
  (`QuoteRuns.ReconcileFrees`).
- A poll is complete if and only if the page it reads holds every new row
  (`Trades.PollCompleteIff`).
- The two roundings of an order absorb an error of the product exactly in a half-open interval of
  fine units, which is far wider upwards than downwards (`Amounts.PairAbsorbsIff`).
- A time whose stored form was rounded down is rewarded twice for the sliver: over any run, more
  than the time to the last mark is credited if and only if the slivers add up to more than what is
  cut off at ten minutes or when a pool ends (`QuoteSeconds.SecondsExact`), never by more than half
  a microsecond a poll.
- An order due at this very microsecond but written with more than six fraction digits is not
  expired yet (`Orders.ExpiresExactly`).
- An order id noted twice can drop out of the set of own orders while it is still queued
  (`Flatten.NoteExactIff`).
- A position under one share is acknowledged as flattened without any order
  (`Flatten.DustIsAcknowledged`); the exposure is bounded by one share a leg
  (`LedgerCover.RowCovered`).
- A placement skipped because the pool is still held on chain stays booked
  (`Ledger.SkippedStaysBooked`).
- Registering a held token under another coin breaks the sums per coin, and nothing else does
  (`Held.RegisterAgreesIff`).
- The one-pass drawdown can be too small on a curve that goes below zero
  (`Drawdown.NegativeEquityUndercounts`). It is the maximum over all pairs if and only if no point
  below zero comes after a positive one, or the deepest fall ends at a point that has a single
  positive value before it (`Drawdown.OnePassIff`).

## Model

| member | source | states |
|---|---|---|
| RateLimit.StepKeeps | cpp/include/pmm/ratelimit.hpp:31-41 | one locked attempt keeps tokens within [0, capacity], and neither the total nor the low-priority credit up to any later time grows |
| RateLimit.RunKeeps | cpp/include/pmm/ratelimit.hpp:31-107 | the same over any interleaving of attempts |
| RateLimit.WindowBound | cpp/include/pmm/ratelimit.hpp:31-107 | in any window of length T, after any history, grants total at most capacity + rate T and low-priority grants at most (capacity - reserve, or 0) + rate T; the clock may run backwards |
| RateLimit.WindowBoundTightIff | cpp/include/pmm/ratelimit.hpp:96-103 | the bound is reached in every window of every length, unless the bucket holds nothing while the rate would refill something |
| RateLimit.EventuallyGrantedIff | cpp/include/pmm/ratelimit.hpp:44-71 | an acquire can ever succeed if and only if tokens plus floor fit in the bucket, or without a refill rate in what it has |
| RateLimit.DeficitWaitIsExact | cpp/include/pmm/ratelimit.hpp:61-62 | deficit / rate is exactly the wait after which the attempt succeeds if nobody else draws |
| RateLimit.GrantLeaves | cpp/include/pmm/ratelimit.hpp:31-41 | a low-priority attempt is granted if and only if it leaves the reserve in the bucket, any other if and only if it leaves nothing owed |
| RateLimit.DefaultBurst | cpp/include/pmm/ratelimit.hpp:23-28 | without a burst a bucket holds one second's refill, and at least a whole request |
| RateLimit.AcquireIsARun | cpp/include/pmm/ratelimit.hpp:44-71 | a blocking acquire is a run of attempts interleaved with other threads', so every bound covers it; it times out only past its deadline |
| RateLimit.TokenBucket.constructor | cpp/include/pmm/ratelimit.hpp:23-28 | starts full, at the given burst or one second's rate, at least one token |
| RateLimit.TokenBucket.RefillLocked | cpp/include/pmm/ratelimit.hpp:96-103 | refills for the time passed, never for time running backwards |
| RateLimit.TokenBucket.TryAcquire | cpp/include/pmm/ratelimit.hpp:31-41 | takes and counts exactly when tokens cover the request plus the floor |
| RateLimit.TokenBucket.Acquire | cpp/include/pmm/ratelimit.hpp:44-71 | the retry loop is that run, with its outcome and final state |
| RateLimit.ClassifyRate | cpp/include/pmm/ratelimit.hpp:141-158 | every request with the same key carries the same rate, so a bucket made by any of them is right for all |
| RateLimit.ClassifyFirst | cpp/include/pmm/ratelimit.hpp:141-158 | every request draws from the bucket of the first of the venue's fourteen routes it matches, at that route's rate |
| RateLimit.HostWindowBound | cpp/include/pmm/ratelimit.hpp:124-131 | any window grants the host at most 1500 + 900 T requests, whatever the endpoints |
| RateLimit.EndpointWindowBound | cpp/include/pmm/ratelimit.hpp:161-169 | any window grants an endpoint at most a fifth over one second's rate, plus rate T, also if its bucket is made inside the window |
| RateLimit.CeilingsReached | cpp/include/pmm/ratelimit.hpp:124-169 | both ceilings are what the full buckets really grant in a window of any length |
| RateLimit.RateLimiter.constructor | cpp/include/pmm/ratelimit.hpp:124 | a full host bucket of 1500 at 900 a second, and no endpoint buckets |
| RateLimit.RateLimiter.BucketFor | cpp/include/pmm/ratelimit.hpp:161-169 | finds the key's bucket or makes a full one; no other bucket changes |
| RateLimit.RateLimiter.DrawEndpoint | cpp/include/pmm/ratelimit.hpp:127-129 | draws from the bucket of the request's class only |
| RateLimit.RateLimiter.DrawHost | cpp/include/pmm/ratelimit.hpp:130 | draws from the host's bucket only |
| Trades.AppendLegs | cpp/src/pmm/clob_submitter.cpp:702-715 | the loop appends our legs of a row, in order, and no others |
| Trades.AppendRow | cpp/src/pmm/clob_submitter.cpp:685-732 | appends what one row stands for: nothing for our own taker legs, our maker legs if the row lists them, else its top level |
| Trades.ExtractNewFills | cpp/src/pmm/clob_submitter.cpp:666-735 | returns the fills of exactly the rows before the old cursor's row, and moves the cursor to the newest identified one |
| Trades.NewRowsOfPage | cpp/src/pmm/clob_submitter.cpp:674-684 | a page of the log seen through a cursor yields the new rows it holds and nothing else |
| Trades.PollCompleteIff | cpp/src/pmm/clob_submitter.cpp:674-684 | one poll delivers every new row if and only if its page is long enough to hold them |
| Trades.ExactlyOnce | cpp/src/pmm/clob_submitter.cpp:648-654 | over any run of polls of a growing log with unique ids, what is delivered is the extraction of what arrived: nothing lost, nothing repeated, in order |
| Trades.ExactlyOnceFromScratch | cpp/src/pmm/clob_submitter.cpp:648-654 | with a first poll that has no cursor, all polls together extract the whole final log |
| TradeFills.CaseFolds | cpp/src/pmm/clob_submitter.cpp:651-653 | addresses and sides are compared in ASCII case: letters change by 32, nothing else changes |
| TradeFills.ExtractedSays | cpp/src/pmm/clob_submitter.cpp:666-735 | the fills of a page are, row after row before the cursor's, nothing for a row of our own taker orders; for a row with maker orders one fill for each leg of our address, in order, with that leg's order, asset, upper-cased side, matched amount and price; else one with the row's own, sides exchanged if inverted; and the cursor is the newest row with an id |
| TradeFills.DeliveredSays | cpp/src/pmm/clob_submitter.cpp:648-654 | over any run of polls each row that arrived is delivered in that form, once and in order |
| Trades.FillReader.constructor | cpp/src/pmm/clob_submitter.cpp:226-231 | construction puts the cursor at the newest row and discards the fills |
| Trades.FillReader.PollFills | cpp/src/pmm/clob_submitter.cpp:648-654 | an unreadable answer changes nothing; otherwise the new fills and the new cursor |
| Trades.FillReader.FillsSince | cpp/src/pmm/clob_submitter.cpp:656-664 | reads from the caller's own cursor and leaves the poll cursor alone |
| Held.IngestKeeps | cpp/apps/tail_vendor_main.cpp:308-324 | a fill, ours or foreign, keeps total, coin sums and token amounts in agreement |
| Held.RegisterAgreesIff | cpp/apps/tail_vendor_main.cpp:540-545 | registering a token keeps them in agreement if and only if none of it is held or its coin stays |
| Held.FlaggedExactly | cpp/apps/tail_vendor_main.cpp:540-545 | over any orders a token is flagged as touch for good by any touch order for it, and by nothing else |
| Held.LastOrderKept | cpp/apps/tail_vendor_main.cpp:540-545 | and has the coin and the note of the last order for it |
| Held.TouchedIff | cpp/apps/tail_vendor_main.cpp:488-491 | a held token counts for the touch budget if and only if a touch order was ever placed for it |
| Held.RebuildFromChain | cpp/apps/tail_vendor_main.cpp:283-293 | in any order of tokens the rebuild is the chain's holdings of at least half a share of our tokens, their total, and per coin the sum over its registered tokens |
| Held.RebuiltBalances | cpp/apps/tail_vendor_main.cpp:283-300 | whatever the books said before, after a rebuild total and coin sums are those of the tokens, and with every token registered the aggregates agree |
| Held.EitherSide | cpp/apps/tail_vendor_main.cpp:285 | a position on chain counts for its size, long or short |
| Held.ReleaseOneExact | backtest/deribit_fair/settle_release.py:68-78 | on agreeing books a release subtracts exactly what the token held from all three aggregates; the clamps never bite |
| Held.ReleaseKeeps | backtest/deribit_fair/settle_release.py:67-80 | releasing any list, repeats included, keeps agreement, leaves those tokens at zero and all others alone |
| Held.ReleasedCoin | backtest/deribit_fair/settle_release.py:71-77 | a coin goes from the sums if and only if its released token held all of it |
| Held.RebuildUndoesRelease | backtest/deribit_fair/settle_release.py:78 | releasing any list of tokens makes no difference to what a rebuild makes of the books |
| Held.TouchBudget | cpp/apps/tail_vendor_main.cpp:488-496 | the touch total and coin sums are those of the flagged tokens; one without a coin counts in the total alone |
| Held.CoreBudget | cpp/apps/tail_vendor_main.cpp:497-500 | coin by coin, everything less the touch part, clamped at zero |
| Held.BudgetsPartition | cpp/apps/tail_vendor_main.cpp:486-500 | core and touch partition the holdings in total and per coin, so neither clamp ever bites |
| Held.LoadSave | cpp/apps/tail_vendor_main.cpp:86-128 | what was saved is what is read back, for every state |
| Held.BadCoinStops | cpp/apps/tail_vendor_main.cpp:86-112 | when one coin's amount in the file is no number, the total and the coins before it are read, nothing after, and the damage is reported |
| Held.NothingSaved | cpp/apps/tail_vendor_main.cpp:86-112 | every field of the file may be missing |
| Held.BooksAlwaysAgree | cpp/apps/tail_vendor_main.cpp:279-324 | after any sequence of fills, orders, rebuilds, settlements, failed saves and restarts the aggregates agree in memory and in the file and nothing held is negative |
| Held.HeldBook.constructor | cpp/apps/tail_vendor_main.cpp:86-112 | starts from what the file says, field by field and entry by entry in key order, up to the first value of the wrong type |
| Held.HeldBook.SaveHeld | cpp/apps/tail_vendor_main.cpp:114-128 | the file becomes the state if the rename succeeds, and stays whole if not |
| Held.HeldBook.IngestFill | cpp/apps/tail_vendor_main.cpp:308-324 | updates every field as the ledger says, and saves, foreign fills included |
| Held.HeldBook.RegisterToken | cpp/apps/tail_vendor_main.cpp:540-545 | records coin, note and touch flag, and saves |
| Held.HeldBook.ReconcileHeld | cpp/apps/tail_vendor_main.cpp:279-302 | either nothing happens, for one of the four reasons, or every aggregate is rebuilt from the chain |
| Held.HeldBook.ReleaseSettled | backtest/deribit_fair/settle_release.py:65-81 | the loop releases the tokens one after the other and writes the file |
| Held.HeldBook.ReleaseToken | backtest/deribit_fair/settle_release.py:68-78 | the body of that loop, clamps and dropped coins included |
| Held.HeldBook.SplitTouch | cpp/apps/tail_vendor_main.cpp:488-500 | the two budgets add up to the holdings, in total and per coin |
| Recovery.Watermark | cpp/apps/tail_vendor_main.cpp:305-328 | over every run of arrivals, polls, placements, ingests, failed reads and saves, crashes at any point and recoveries, the file equals the fold of all our fills up to its watermark; if trades may land before a catch-up, or a first poll fail after the first life, it is at least that |
| Recovery.RunKeeps | cpp/apps/tail_vendor_main.cpp:443-445 | the invariant behind it, step by step over a run |
| Recovery.GapIsCountedTwice | cpp/src/pmm/clob_submitter.cpp:226-231 | a life of the process that starts before a gap of trades and recovers after it holds the truth plus the gap once more; exact if and only if the gap bought nothing |
| Recovery.FailedCatchUpLosesTheMissed | cpp/src/pmm/clob_submitter.cpp:656-659 | a catch-up whose read fails leaves out exactly what was missed; exact if and only if that bought nothing |
| Recovery.FailedFirstPollRereads | cpp/src/pmm/clob_submitter.cpp:226-231 | a first poll that fails before a catch-up makes the next poll count the whole log once more; exact if and only if it bought nothing |
| Recovery.BothReadsFail | cpp/src/pmm/clob_submitter.cpp:648-659 | with both reads failing exactly what the file already held is counted twice |
| Recovery.EmptyWatermarkSkipsThePast | cpp/apps/tail_vendor_main.cpp:325-328 | a life from an empty watermark misses exactly what the log already bought; with a failed first poll it misses nothing |
| Rebuilds.StartupRebuildRecounts | cpp/apps/tail_vendor_main.cpp:279-328 | a life that starts with a rebuild from a chain showing any part of what was missed holds the truth, plus what that part bought of tokens already held, less the dust dropped, plus the gap, and nothing of this if the rebuild is skipped; exact if and only if that comes to nothing |
| Rebuilds.ScanRebuildRecounts | cpp/apps/tail_vendor_main.cpp:350-445 | the same for every scan, which reconciles before it polls |
| Rebuilds.RecountHappens | cpp/apps/tail_vendor_main.cpp:283-328 | more of a held token, bought while down and already on chain, is counted twice; a first fill of another registered token once |
| Rebuilds.CaughtUpRebuildHeals | cpp/apps/tail_vendor_main.cpp:280-302 | whatever the books said, a rebuild from a chain that has caught up puts the total at the truth less its dust, or leaves it within half a share of it |
| Rebuilds.RebuildsExactly | cpp/apps/tail_vendor_main.cpp:279-300 | the books are rebuilt if and only if there is a funder, something is held, at least three positions came back and the total would move by half a share |
| Recovery.LateRegistrationMisses | cpp/apps/tail_vendor_main.cpp:532-554 | a token registered after the watermark has passed fills of it misses exactly what those bought; exact if and only if that is nothing |
| Recovery.CrashAmongLegsLosesTheRest | cpp/src/pmm/clob_submitter.cpp:700-717 | on books whose total is exact before the row, whatever the log, a crash after any of a row's legs leaves out exactly what the rest of the row bought; exact if and only if that is nothing |
| RecoveryReads.ReadsAgree | cpp/apps/tail_vendor_main.cpp:326-327 | feeding an extraction backwards is what the protocol reads, fills and cursor, for every list of identified rows |
| Amounts.PairAbsorbsIff | cpp/src/pmm/clob_submitter.cpp:129-132 | rounding up at four more decimals and then down recovers m units from m units plus an error if and only if -1 + 1e-6 < error <= 9999 + 1e-6 fine units |
| Amounts.ConfigIsTabled | cpp/src/pmm/clob_submitter.cpp:120-126 | every tick size gets a row whose amount has two decimals more than its price, an unknown one the row of a cent |
| Amounts.ConfigByDecimals | cpp/src/pmm/clob_submitter.cpp:120-126 | a tick in the n-th of the first four decimal places gets prices of n decimals, any other text two |
| Amounts.HundredthsIff | cpp/src/pmm/clob_submitter.cpp:131 | a size is read as j hundredths exactly within the tolerance below it |
| Amounts.NearestIff | cpp/src/pmm/clob_submitter.cpp:128 | the price is the nearest tick, the even one at a tie |
| Amounts.UsdcUnitsIff | cpp/src/pmm/clob_submitter.cpp:142-144 | the dollar side is the exact product of hundredths and ticks if and only if the error is absorbed |
| Amounts.OrderAmountsExact | cpp/src/pmm/clob_submitter.cpp:138-157 | for every tick size, size and price the two amounts stand in exactly the quoted price, for buys and sells |
| Amounts.AbsorbedIff | cpp/src/pmm/clob_submitter.cpp:138-157 | the amounts equal those without error if and only if the error is absorbed |
| Amounts.QuotientPays | cpp/src/pmm/clob_submitter.cpp:162-164 | a market buy asks for the shares its dollars pay for at the rounded price, or none at price zero |
| Amounts.MarketBuyBracket | cpp/src/pmm/clob_submitter.cpp:162-168 | and that quotient is rounded by less than a unit down and at most two ten-thousandths of one up |
| Amounts.MarketSellIsLimitSell | cpp/src/pmm/clob_submitter.cpp:169-176 | a market sale has the amounts of a limit sale |
| Flatten.FlattenedIff | cpp/src/pmm/clob_submitter.cpp:98-599 | success if and only if within six attempts, none cut short, the positive amounts taken (a purchase) or made (a sale) in replies that say matched or delayed come to all but less than one share; filled plus remaining is always the size |
| Flatten.DustIsAcknowledged | cpp/src/pmm/clob_submitter.cpp:591-594 | under one share: success, nothing sent |
| FlattenAnswers.UnmatchedSellsNothing | cpp/src/pmm/clob_submitter.cpp:98-116 | if no reply says matched or delayed, whatever amounts it states, nothing is filled, no id is remembered, and a share or more is never reported as flattened |
| FlattenAnswers.NotedExactly | cpp/src/pmm/clob_submitter.cpp:502-587 | the ids remembered as our own are exactly those a match was booked under, each the last named by then; the id and status reported are the last named |
| FlattenAnswers.ToldExactly | cpp/src/pmm/clob_submitter.cpp:591-599 | success tells what was filled, an incomplete run what was filled and what is left |
| FlattenAnswers.OfferExactly | cpp/src/pmm/clob_submitter.cpp:514-523 | an order's limit is the price seen worsened by 2, 4, 6 or 8 ticks, at most to a tick from either end; a sale offers the shares left, a purchase their dollars, in whole hundredths |
| Flatten.FlattenOrdersSane | cpp/src/pmm/clob_submitter.cpp:507-523 | at most six orders, each for no more than the one before, no sale below a tick and no purchase above a dollar less a tick |
| Flatten.LadderDeepens | cpp/src/pmm/clob_submitter.cpp:516-521 | later attempts concede no less, at most eight ticks, all of it from the fourth on |
| Flatten.SaleWithinPosition | cpp/src/pmm/clob_submitter.cpp:503-578 | so over all its orders together it fills at most the position |
| Flatten.NeverOversells | cpp/src/pmm/clob_submitter.cpp:522-523 | against a venue that honours order sizes a sale never sells more than the position, up to 1e-8 shares |
| Flatten.NoteAllKeeps | cpp/src/pmm/clob_submitter.cpp:579-586 | however many ids are noted, the queue holds at most 500 and every known id is in it |
| Flatten.KnownIsSmall | cpp/src/pmm/clob_submitter.cpp:582-585 | so at most 500 ids are known |
| Flatten.NoteExactIff | cpp/src/pmm/clob_submitter.cpp:580-585 | noting an id keeps the set equal to the queue's elements if and only if the id it drops is not queued again |
| Flatten.Flattener.NoteId | cpp/src/pmm/clob_submitter.cpp:580-585 | inserts, queues, and evicts the oldest past 500 |
| Flatten.Flattener.Run | cpp/src/pmm/clob_submitter.cpp:502-599 | the loop in place: result, orders sent, and ids noted in order |
| Orderbook.ShareInUnit | cpp/src/pmm/orderbook.cpp:207-211 | a reward share lies between 0 and 1 |
| Orderbook.RewardBounded | cpp/src/pmm/orderbook.cpp:213-216 | an accrual is never negative nor above the whole pool's payment for the time |
| Orderbook.CommittedIsBothLegs | cpp/src/pmm/orderbook.cpp:251-254 | committed capital is what a YES at the bid and a NO at one minus the ask cost, wherever the mid is |
| Orderbook.LossIsPriceDifference | cpp/src/pmm/orderbook.cpp:232-249 | a paper fill marked at the mid less its loss is worth what it cost at the quote's own price |
| Orderbook.PaperInventoryBounded | cpp/src/pmm/orderbook.cpp:241-247 | paper inventory never leaves its bounds and a fill never exceeds the size |
| Orderbook.LossNonNegative | cpp/src/pmm/orderbook.cpp:241-248 | a paper fill is never a gain |
| Quotes.TallyGains | cpp/src/pmm/engine.cpp:618-629 | the fills of a leg gain their shares' worth at the mark less their cost |
| Quotes.BleedCoversLosses | cpp/src/pmm/engine.cpp:620-629 | the bleed is at least what the fills lose |
| Quotes.StepConserves | cpp/src/pmm/engine.cpp:558-733 | in every branch, live or paper, cash moves exactly by what the row books plus released capital less the crossing cost |
| QuoteLaws.LiveMarks | cpp/src/pmm/engine.cpp:558-733 | inventory_pnl stays the marked value of both legs less the cost of applied fills, whatever the branch and the mids |
| QuoteLaws.LiveLegs | cpp/src/pmm/engine.cpp:630-631 | the legs are the old ones plus the fills applied; the row records all of it while it stays, nothing after it left, and a skipped poll changes nothing |
| QuoteLaws.PaperMarks | cpp/src/pmm/engine.cpp:399-436 | the same for paper, with fills at the quote's own prices |
| QuoteLaws.PairsEarnTheSpread | cpp/src/pmm/engine.cpp:617-634 | equal YES and NO bought at the bid and one minus the ask have earned size times the spread, at any mid |
| QuoteLaws.ExitIffAcknowledged | cpp/src/pmm/engine.cpp:551-556 | a live poll takes a quote off the books if and only if it means to and every action it sent was acknowledged |
| QuoteLaws.RetriedWhenReadable | cpp/src/pmm/engine.cpp:636-641 | a quote with a fill or a leg of a share or more is, at the next readable poll, cancelled on both tokens and flattened in full on each leg |
| QuoteLaws.DriftDropsDust | cpp/src/pmm/engine.cpp:674-701 | the exit that flattens nothing drops less than one share of each leg |
| QuoteExits.LeavesExactly | cpp/src/pmm/engine.cpp:537-701 | a live poll takes a quote off the books if and only if both tokens' cancels are acknowledged and: the pool is known to be gone and both legs are sold; or the pool and the mid were read and a touched quote has both legs sold, an untouched one has drifted |
| QuoteExits.DriftIff | cpp/src/pmm/engine.cpp:674-701 | an untouched, acknowledged quote leaves at a readable poll if and only if the mid is at least the maximum spread from its entry |
| QuoteExits.OnUntilOutOfBand | cpp/src/pmm/engine.cpp:674-701 | over any run of such polls it is on the books until the first mid outside the band, and off them from there on |
| QuoteExits.ChargedExactly | cpp/src/pmm/engine.cpp:599-669 | an exit that sells is charged the crossing cents per share on both legs, any other poll nothing |
| QuoteExits.PaidByScore | cpp/src/pmm/orderbook.cpp:42-216 | a poll that sees the pool pays the quote as its score is to itself and the competition; the score is the size times the square of its distance inside the band |
| QuoteExits.RequotesExactly | cpp/src/pmm/engine.cpp:703-720 | orders are moved to the mid just read if and only if an untouched quote in its band has moved enough ticks or was told to; one that has not is left alone |
| QuoteExits.MarkedExactly | cpp/src/pmm/engine.cpp:557-731 | a poll that reads anything counts every fill, books what they lose, and sets the last mid |
| QuoteExits.BleedExactly | cpp/src/pmm/engine.cpp:618-629 | fills that gain bleed nothing, fills that lose bleed exactly their loss |
| QuoteExits.BleedAdds | cpp/src/pmm/engine.cpp:618-629 | and any mixture bleeds what its parts do |
| QuoteExits.PaperLeavesExactly | cpp/src/pmm/engine.cpp:376-424 | a paper quote leaves if and only if its pool is gone or its mid has drifted |
| QuoteExits.PaperChargedExactly | cpp/src/pmm/engine.cpp:380-422 | charged for the YES it leaves with, credited without the ten-minute limit |
| QuoteExits.PaperMarkedExactly | cpp/src/pmm/engine.cpp:426-434 | a readable poll sets the last mid, counts a trade if there was one, and books its loss |
| QuoteExits.EdgesExactly | cpp/src/pmm/orderbook.cpp:226-239 | paper edges lie a half-spread either side of a center that leans against the inventory, by the skew times the half-spread for a full size |
| QuoteExits.PaperFillExactly | cpp/src/pmm/orderbook.cpp:232-249 | a paper quote trades if and only if the mid has come to an edge, the uncancelled part of its size as far as its bound has room |
| QuoteRuns.FlattenOutcomes | cpp/src/pmm/clob_submitter.cpp:489-599 | over all jobs and answers a flatten of a share or more can end with any amount matched, one of less matches nothing, and it is acknowledged if and only if less than a share is left |
| QuoteRuns.StepCovers | cpp/src/pmm/engine.cpp:638-671 | one poll keeps the recorded inventory at or above the real holding, up to a given slack, partial and failed flattens included |
| QuoteRuns.EventCovers | cpp/src/pmm/engine.cpp:749-786 | so does a cancellation, and a reconciliation to within half a share |
| QuoteRuns.RunCovers | cpp/src/pmm/engine.cpp:558-786 | over any run of live polls, reconciliations and cancellations the holding is at most the record while active and less than a share above it afterwards, half a share wider after a reconciliation |
| QuoteRuns.SlackIs | cpp/src/pmm/engine.cpp:764-766 | that width is half a share if anything was reconciled, and nothing otherwise |
| QuoteRuns.PartialSaleSticks | cpp/src/pmm/engine.cpp:650-662 | a poll that sells a share or more of a leg and does not leave records at least a share more than is held |
| QuoteRuns.AnyQuoteCanStick | cpp/src/pmm/engine.cpp:576-602 | every active quote can get there at its next poll |
| QuoteRuns.StuckRun | cpp/src/pmm/engine.cpp:636-671 | from then on every retry asks for more than is held and no run of polls takes the quote off the books |
| QuoteRuns.LeavesIff | cpp/src/pmm/engine.cpp:551-671 | some run of live polls takes an active quote off the books if and only if neither leg is short by a share or more |
| QuoteRuns.ReconcileFrees | cpp/src/pmm/runner.cpp:1494-1498 | after a reconciliation with a chain that shows the holding no leg is short, so some run of polls takes the quote off |
| QuoteSeconds.SecondsWithinElapsed | cpp/src/pmm/engine.cpp:609-610 | with a clock that does not run backwards, seconds credited over any run, skips, reconciliations and cancellations included, are at most the elapsed time plus the slack of the stored times |
| QuoteSeconds.TenMinutesPerPoll | cpp/src/pmm/engine.cpp:610 | a live poll credits at most 600 seconds |
| QuoteSeconds.RewardsWithinPool | cpp/src/pmm/engine.cpp:612-615 | rewards of a run never exceed the whole pool's payment for the seconds credited |
| QuoteSeconds.NoSecondTwice | cpp/src/pmm/engine.cpp:609-615 | with readings that are not rounded down when stored: seconds at most the elapsed time, rewards at most daily times elapsed / 86400 |
| QuoteSeconds.AtMostHalfAMicroPerPoll | cpp/src/pmm/engine.cpp:609-610 | with any readings, half a microsecond a poll more at most |
| QuoteSeconds.SecondsExact | cpp/src/pmm/engine.cpp:558-610 | over every run, with any clock, the seconds are the time to the last mark plus the slips of the intervals less what is cut off at ten minutes or lost when a pool ends; more than that time if and only if the slips exceed the cuts |
| QuoteSeconds.SlipIsRounding | cpp/src/pmm/engine.cpp:29-35 | between readings half a microsecond apart or more a slip is what the first was rounded down by |
| QuoteSeconds.StoredExactly | cpp/src/pmm/engine.cpp:29-35 | a reading of whole microseconds is stored as it is |
| QuoteSeconds.SliverTwiceIff | cpp/src/pmm/engine.cpp:609-610 | the case of two polls: more than the time between them if and only if the first reading was rounded down when stored |
| Ledger.BookedIff | cpp/src/pmm/engine.cpp:298-341 | a placement is booked if and only if every demand is met, and a rejected one changes nothing |
| Ledger.PlacementPaysForBothLegs | cpp/src/pmm/engine.cpp:335-341 | it takes exactly the cost of its two legs, each at least a dollar, and never more cash than there is |
| Ledger.RollbackRestores | cpp/src/pmm/engine.cpp:514-522 | a refused live placement puts the cash back exactly and leaves only a cancelled row |
| Ledger.SkippedStaysBooked | cpp/src/pmm/engine.cpp:456-474 | the guard against held pools returns with the quote active and its capital taken |
| Ledger.ApplyConserves | cpp/src/pmm/engine.cpp:242-294 | each operation keeps cash plus active capital less all earnings, up to crossing costs and capital paid in |
| Ledger.CashConserved | cpp/src/pmm/engine.cpp:101-107 | the same over every run of every operation |
| Ledger.CashFromSummary | cpp/src/pmm/engine.cpp:859-882 | from an empty table, cash is the start plus net maker profit less committed capital, costs and deposits accounted for |
| LedgerLaws.SyncSettles | cpp/src/pmm/engine.cpp:101-107 | after a sync cash and active commitments are the larger of the capital and the commitments, and cash is never negative |
| LedgerLaws.CashAndCommitments | cpp/src/pmm/engine.cpp:101-857 | over every run without a sync the two together change by what the quotes earn less crossing costs |
| LedgerLaws.Rebased | cpp/src/pmm/engine.cpp:101-107 | so from a sync that covers the commitments they are the capital plus earnings since less crossing costs |
| LedgerLaws.PlacedIff | cpp/src/pmm/engine.cpp:298-341 | a placement is booked if and only if it meets all eleven demands, and is otherwise refused over the first unmet in the order they are checked |
| LedgerLaws.PlacedRow | cpp/src/pmm/engine.cpp:335-362 | what the new row takes from the request and the pool, paper or live: tokens, size and half-spread or their defaults, entry and last mid, the time to the microsecond, no holdings |
| LedgerLaws.PlacedSecondsExact | cpp/src/pmm/engine.cpp:361-610 | over any later run its seconds are exactly the time from the placement to its last mark, plus slips, less cuts |
| LedgerLaws.PlacedRewarded | cpp/src/pmm/engine.cpp:361-615 | with a clock that runs forward: at most the time since the placement and half a microsecond a poll, paid at most what the pool pays for it |
| LedgerLaws.LiveOutcome | cpp/src/pmm/engine.cpp:451-524 | a live placement is skipped if and only if a share or more of either token is held on chain, and rolled back if and only if it is not skipped and an order is refused |
| LedgerRuns.RowsIndependent | cpp/src/pmm/engine.cpp:534-537 | polling the rows in turn is polling each alone: no row's step disturbs another's |
| LedgerLaws.PolledLegs | cpp/src/pmm/engine.cpp:540-549 | a live poll moves a row's YES leg by the fills of its token and its NO leg by those of its complement |
| LedgerLaws.PolledLeaves | cpp/src/pmm/engine.cpp:537-701 | and a row leaves exactly by its own reading, acknowledgements and fills |
| LedgerLaws.PolledRequotes | cpp/src/pmm/engine.cpp:703-706 | and its orders are moved exactly by its own reading, the poll's ticks, and whether its YES token is forced |
| LedgerRuns.RowIsQuoteRun | cpp/src/pmm/engine.cpp:528-786 | over every run of every operation a row goes through exactly the run of its own polls, reconciliations and cancellation, whatever happens to the other rows |
| LedgerCover.RowSecondsAreSeconds | cpp/src/pmm/engine.cpp:609-610 | the seconds credited to a row of the table over any run are those of that run |
| LedgerCover.RowRewarded | cpp/src/pmm/engine.cpp:609-615 | so over every run of every operation a row is credited at most the elapsed time and half a microsecond a poll, and paid at most what the pool pays for it; with readings not rounded down, the elapsed time alone |
| LedgerCover.RowSecondsExact | cpp/src/pmm/engine.cpp:558-610 | and exactly: more than the time to its last mark if and only if its slips exceed its cuts |
| LedgerCover.RowCovered | cpp/src/pmm/engine.cpp:638-786 | over every run of live polls, placements, cancellations and reconciliations the holding of a row is at most its record while active and less than a share above it afterwards, half a share wider after a reconciliation |
| LedgerCover.PlacedCovered | cpp/src/pmm/engine.cpp:343-362 | a placed quote starts covered, holding nothing |
| LedgerCover.RowStuck | cpp/src/pmm/engine.cpp:636-671 | a row with a partly sold leg stays active, its capital committed, over every live run that neither reconciles nor cancels it |
| LedgerCover.RowLeavesIff | cpp/src/pmm/engine.cpp:551-671 | without either, some run takes a row off the books if and only if none of its legs is short |
| LedgerRuns.RunGrows | cpp/src/pmm/db.cpp:716-745 | over every run ids stay valid, terms are fixed, and a quote that left never changes again, so its capital is released once |
| LedgerRuns.PnlTelescopes | cpp/src/pmm/engine.cpp:558-733 | over every run of every operation each row's inventory_pnl is the marked value of its holdings less their cost |
| LedgerRuns.ReconcileSettles | cpp/src/pmm/engine.cpp:749-786 | afterwards both legs of every active quote are within half a share of the chain, only legs that disagreed changed, and repeating it changes nothing |
| LedgerLaws.ReconciledLegs | cpp/src/pmm/engine.cpp:749-779 | the YES leg is settled against the chain's amount of the token, the NO leg against its amount of the complement, both if either is half a share off |
| LedgerLaws.CountsChanged | cpp/src/pmm/engine.cpp:749-786 | the number reported is the number of rows changed |
| Engine.AddFills | cpp/src/pmm/engine.cpp:618-629 | the accumulating loop: shares, gain, bleed and count |
| Engine.Engine.constructor | cpp/src/pmm/engine.cpp:89-93 | an account with its balance and no quotes |
| Engine.Engine.SetChainPositions | cpp/include/pmm/engine.hpp:95 | replaces the chain positions the placement guard looks at |
| Engine.Engine.SetCrossing | cpp/include/pmm/engine.hpp:85 | replaces the crossing cost per share |
| Engine.Engine.SyncCapital | cpp/src/pmm/engine.cpp:101-107 | cash becomes capital less what active quotes hold, at least zero |
| Engine.Engine.CreditMaker | cpp/src/pmm/engine.cpp:242-244 | adds to cash and touches nothing else |
| Engine.Engine.ExitMakerQuote | cpp/src/pmm/engine.cpp:281-284 | hands the capital back less the crossing cost, and cancels the row |
| Engine.Engine.UpdateAccrual | cpp/src/pmm/db.cpp:727-745 | writes the eight accrual columns of one row |
| Engine.Engine.PlaceMakerQuote | cpp/src/pmm/engine.cpp:298-365 | every check in order, then the booking |
| Engine.Engine.PlaceMakerQuoteLive | cpp/src/pmm/engine.cpp:451-524 | books, skips a held pool, or rolls back when any order was refused |
| Engine.Engine.CancelMakerQuote | cpp/src/pmm/engine.cpp:849-857 | releases the capital of an active quote, and does nothing to any other |
| Engine.Engine.CloseRow | cpp/src/pmm/engine.cpp:576-602 | leaves or stays as acknowledged |
| Engine.Engine.EndedRow | cpp/src/pmm/engine.cpp:558-603 | the rewards-ended branch in place, with what it sends |
| Engine.Engine.MarkedRow | cpp/src/pmm/engine.cpp:609-733 | the filled, drift, re-center and normal branches in place |
| Engine.Engine.LiveRow | cpp/src/pmm/engine.cpp:538-746 | one active quote's turn: ended, readable or skipped |
| Engine.Engine.ReconcileAt | cpp/src/pmm/engine.cpp:753-779 | one row of the reconciliation, and whether it changed |
| Engine.Engine.AccrueMakerRewardsLive | cpp/src/pmm/engine.cpp:528-746 | one live poll over all active quotes is the ledger's poll, and sends the rows' actions in order |
| Engine.Engine.PaperRow | cpp/src/pmm/engine.cpp:376-446 | one row of a paper poll in place |
| Engine.Engine.AccrueMakerRewards | cpp/src/pmm/engine.cpp:369-447 | one paper poll is the ledger's poll |
| Engine.Engine.ReconcileInventory | cpp/src/pmm/engine.cpp:749-786 | rewrites exactly the legs that disagree and returns how many quotes that were |
| Engine.Engine.GetMakerSummary | cpp/src/pmm/engine.cpp:859-882 | the totals are sums over the table |
| Engine.SummaryAdds | cpp/src/pmm/engine.cpp:859-882 | one more row adds its capital and legs while it is active and its earnings always; the net is both kinds of earnings |
| Calendar.GmtimeInverts | cpp/src/pmm/engine.cpp:36-37 | every second since 1970 is a date that exists and timegm takes it back |
| Calendar.BeforeIff | cpp/src/pmm/engine.cpp:55-62 | for existing dates, earlier in seconds is exactly earlier field by field |
| Calendar.GregorianCycle | cpp/src/pmm/engine.cpp:36-62 | 400 years have 146097 days, and the months from March are the closed form of 153 days every five |
| Timestamps.SplitIsMicros | cpp/src/pmm/engine.cpp:30-35 | seconds and microseconds after the carry are the time to the nearest microsecond |
| Timestamps.RoundTrip | cpp/src/pmm/engine.cpp:29-63 | writing a time and reading it back gives it to the nearest microsecond, for every time since 1970 |
| Timestamps.UnreadableIsZero | cpp/src/pmm/engine.cpp:48-63 | a text without digits is read as 0 |
| TextOrder.WrittenShape | cpp/src/pmm/engine.cpp:29-47 | a stored time is digits of fixed width with dashes, a T and colons between, a point and six digits unless they are zero, and the offset of UTC |
| TextOrder.NormalizeUnifies | cpp/include/pmm/orders.hpp:100-104 | both spellings of UTC normalise to one text |
| TextOrder.TextOrderIsTimeOrder | cpp/include/pmm/orders.hpp:100-104 | a strictly earlier time is a strictly smaller text, whatever the fraction lengths |
| TextOrder.SameTimeLongerIsLater | cpp/include/pmm/orders.hpp:100-104 | at one time the text with more fraction digits is the larger |
| TextOrder.TimeIsRead | cpp/src/pmm/engine.cpp:48-63 | the time of a stamp is the time its text is read as |
| Orders.NowStampIs | cpp/src/pmm/db.cpp:483-496 | the clock's text is a valid stamp of six fraction digits, at the time cut off to the microsecond |
| Orders.ExpiresExactly | cpp/src/pmm/db.cpp:642-660 | a pending good-till-date order due before now expires, one due after does not, one due now does if and only if it was written with at most six fraction digits |
| Orders.CreatedExpiresExactly | cpp/src/pmm/db.cpp:573-593 | the same for an order as it was created, in either spelling; one of another kind, or without an expiry, never expires |
| Orders.ExpireTwice | cpp/src/pmm/db.cpp:652-658 | expiring at an earlier time first makes no difference |
| Orders.NoOtherExpires | cpp/src/pmm/db.cpp:642-660 | nothing but a pending good-till-date order with an expiry ever expires |
| Orders.OrderTable.CreateOrder | cpp/src/pmm/db.cpp:573-593 | appends a pending order with its expiry normalised |
| Orders.OrderTable.CancelOrder | cpp/src/pmm/db.cpp:609-618 | cancels a pending order and nothing else |
| Orders.OrderTable.ExpireOrders | cpp/src/pmm/db.cpp:642-660 | returns the rows the query selects and marks exactly those |
| Drawdown.MaxDrawdownFromEquity | cpp/src/pmm/analytics.cpp:62-71 | the one-pass loop computes the worst fall from the running peak |
| Drawdown.OnePassIsMaximum | cpp/src/pmm/analytics.cpp:62-71 | on every curve that is never negative that is the maximum over all pairs |
| Drawdown.DefinitionUnique | cpp/src/pmm/analytics.cpp:62-71 | the maximum over all pairs is one value |
| Drawdown.WorstAttained | cpp/src/pmm/analytics.cpp:62-71 | on every curve the result is attained by some pair, so never too large |
| Drawdown.HigherStartIff | cpp/src/pmm/analytics.cpp:68 | measuring from the peak covers a lower start if and only if the end is not negative or the starts are one |
| Drawdown.NegativeEquityUndercounts | cpp/src/pmm/analytics.cpp:62-71 | a curve on which the result is too small |
| Drawdown.DeepestIsMaximum | cpp/src/pmm/analytics.cpp:62-71 | on every curve the maximum over all pairs is reached from the peak, or for an end below zero from the smallest positive value before it |
| Drawdown.OnePassIff | cpp/src/pmm/analytics.cpp:62-71 | the one pass gives that maximum if and only if no point below zero comes after a positive one, or one where the deepest fall ends has a single positive value before it |
| Drawdown.MaxDrawdown | cpp/src/pmm/analytics.cpp:131-146 | the trade version is the equity version on the cumulative curve from the starting balance |
| Drawdown.BalanceExactly | cpp/src/pmm/analytics.cpp:131-146 | that curve ends at the start plus sales less purchases less the fees of both |
| Walk.Walk | backtest/archive/arb_scan/arb_probe.py:45-55 | the loop walks the sorted levels greedily |
| Walk.SortKeeps | backtest/archive/arb_scan/arb_probe.py:47 | the levels are a permutation, best price first |
| Walk.WalkFills | backtest/archive/arb_scan/arb_probe.py:49-55 | it fills the quantity or the depth, whichever is less, to within 1e-9 and never more |
| Walk.WalkIsCheapest | backtest/archive/arb_scan/arb_probe.py:45-55 | on asks no allocation of the filled quantity costs less |
| Walk.WalkIsDearest | backtest/archive/arb_scan/arb_probe.py:45-55 | on bids none brings in more |
| Walk.TakesAreTheWalk | backtest/archive/arb_scan/arb_probe.py:49-52 | what it takes is an allocation of the sorted levels, of the quantity and the cash it reports |
| Walk.WalkIsAnAllocation | backtest/archive/arb_scan/arb_probe.py:45-55 | and so of the levels as given: the least cost and the most revenue are reached |
| Buckets.ExactlyOne | backtest/weather/common.py:229-247 | under either reading every temperature is in exactly one of a list of consecutive buckets |
| Buckets.ContainsIff | backtest/weather/common.py:229-247 | a temperature is in the bucket whose labels hold its whole part (floor) or its nearest whole number with halves up (round) |
| Buckets.FToCInverts | backtest/weather/common.py:251-252 | the conversion to C undoes the one to F |
| Buckets.BucketProb | backtest/weather/common.py:263-267 | a bucket's probability lies in [0, 1] and the clamp never bites |
| Buckets.ProbabilitiesSumToOne | backtest/weather/model.py:61-64 | for every monotone distribution they add up to one, also after conversion from F to C |
| Buckets.BucketProbsEnsemble | backtest/weather/model.py:51-58 | the loop averages the members bucket by bucket |
| Buckets.EnsembleSumsToOne | backtest/weather/model.py:51-58 | and the averages add up to one |

## Left out

- Networking, WebSockets, sleeping, logging and stop files; parsing of JSON numbers and strings: requests and their answers are plain records.
- Signing, API keys and the wire form of orders: an order that cannot be built or signed is one abstract answer of an attempt.
- SQLite itself: tables are sequences of rows, ids are positions; schema migration and reset are not part of this model.
- IEEE doubles: reals are exact except for the explicit error of `Amounts`; the cast of a negative amount to an unsigned integer is not modelled.
- The mutex of a token bucket: a refill and a draw under the lock are one atomic step.
- The prices of re-centered orders and the orders of a placement: the model keeps that both legs are cancelled and requoted, and whether all were acknowledged; neither changes the ledger.
- The book behind a poll: its in-band competition and its mid are inputs, and prefetching them in parallel is reading them.
- Market lookup, outcome validation and the choice of the complement token: their answers are part of a placement request.
- Recovery.Watermark: assumes that a read returns the whole log or nothing, at most one leg of ours per row, ids that are unique and not empty, that recovery skips no fill of a registered token, that neither cursor nor watermark has passed a fill of a token when its order is registered, and that its coin stays; an order whose acknowledgement never comes is the case of Recovery.LateRegistrationMisses. A chain rebuild or a settlement inside the run is left out because the file is then no longer a fold of fills; what a rebuild does, at startup and in a scan, is stated in Rebuilds. What a second leg, a skipped stretch, a changed coin and a short page do is stated by their own lemmas in Recovery, by Held.RegisterAgreesIff and by Trades.PollCompleteIff.
- Held.HeldBook.ReconcileHeld: skipping the rebuild when the total would move by less than half a share is modelled as it is, so offsetting errors of two tokens stay.
- Held.HeldBook.constructor: a field of the state file that is a JSON array is not part of this model.
- LedgerCover.RowCovered: is about BUY fills that were applied, sales by the flatten loop, and reconciliation with chain readings that show what the row holds; a fill handed to a poll that could not read its book is lost to the books in the source and in the model, and two active quotes of one token would share a chain reading.
- Timestamps.RoundTrip: reading is modelled for blanks, signs and digits as scanf takes them; exponents after the fraction, which the writer never produces, are not.
- Buckets: the normal distribution and its kernel are any monotone function into [0, 1].
- Tail planning, whitelists, reflex cancelling, the counters that halt or pause after rejected orders, reward calibration, Sharpe ratios and win rates: statistics and decisions without a law of their own here.
