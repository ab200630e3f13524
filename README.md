# DutchAuction — a verified model

This project models the `DutchAuction` contract of the Raiden token sale. The
contract sells a fixed supply of tokens for value at a price that falls with the
time elapsed since the start. Bidders pay in, and the auction ends once the
collected value buys the whole supply at the current price. After the end, each
bidder claims tokens pro rata at the frozen final price.

The contract's own source is not part of this model. Its behaviour is
reconstructed from the two test suites that drive it. Each suite pins one
variant of the rules, and the class carries the variant as a constant:

- `Funds` (tests/test_auction.py):
  - a bid above the missing funds is rejected;
  - the owner ends the auction with `finalizeAuction`;
  - the final price is computed from the collected balance.
- `Reserve` (tests_simple/test_auction.py):
  - a bid above the missing reserve is clipped, and the surplus is refunded;
  - the bid that meets the target ends the auction in the same call;
  - when the bid that ends the auction added value, the final price is the price
    curve at the end time;
  - a bid that finds nothing missing (the price fell past the balance) is
    refunded whole and ends the auction (see "## Findings").

Layout:

- `types.dfy` (`AuctionTypes`): principals, the stage enum with the contract's
  numeric codes, variants, error kinds, result wrappers, the token description
  and bid receipts.
- `pricing.dfy` (`Pricing`): the integer price curve, the target and missing
  funds, claimable token units and both final-price formulas. It also holds the
  arithmetic lemmas about them.
- `ledger.dfy` (`Ledger`): the bid ledger.
  - It is a map, plus the ghost list of bidders in order of their first bid.
  - Sums over the ledger are defined recursively on that list.
  - Lemmas cover bid accumulation, claimed sums and the rounding of claims.
- `invariants.dfy` (`Invariants`): the contract's state invariants, stated on
  plain values.
- `auction.dfy` (`Auction`): the class `DutchAuction`.
  - Its fields are the contract's storage, plus a few balances kept outside it,
    which the model tracks in the same object: the value the auction holds
    (`balance`), the auction's token balance (`auction_tokens`), the units paid to
    each claimer (`tokens_of`), and the value swept to the owner
    (`owner_proceeds`) or to the token contract (`token_reserve`).
  - Its methods are the contract's transactions.
  - `Valid()` is the invariant every transaction keeps.

Transactions that fail return an `Err`/`Fail` outcome and leave the state
unchanged, in the way a reverted transaction does. Time is explicit: a method
that reads the clock takes `now`, and `StartAuction` also takes the block
number.

## Model

| member | source | states |
|---|---|---|
| Auction.DutchAuction.Deploy | tests/test_auction.py:36-55 | Deployment fails exactly when the price factor or the price constant is zero. Otherwise it yields a valid auction in stage 0 with the given owner and settings, and all times, prices and counters at zero. |
| Auction.DutchAuction.Init | tests/test_auction.py:117-136 | A fresh auction has owner, factor and constant as given. Start and end time, start block, claimed funds, supply, final price and stage are all 0. The invariant holds. |
| Auction.DutchAuction.Setup | tests/test_auction.py:58-82 | Succeeds only for the owner, only in stage 0, and only with a token issued by the owner. It then sets the supply to the auction's token balance, the multiplier to 10^decimals and the stage to 1. Any other call fails without effect, so a second setup fails. |
| Auction.DutchAuction.ChangeSettings | tests/test_auction.py:85-114 | A non-owner, a stage after setup, or a zero argument each fails with no effect. Success stores both values exactly. |
| Auction.DutchAuction.StartAuction | tests/test_auction.py:140-192 | Fails for a non-owner, and in any stage other than 1 (before setup, already started, ended). On success: stage 2, with start time and block recorded. |
| Auction.DutchAuction.Price | tests/test_auction.py:196-241 | Zero exactly once ended; 1 before setup; `multiplier*factor//const + 1` after setup; while running, never above that initial price. |
| Pricing.PriceCurve | tests_simple/test_auction.py:200-208 | The price is the truncated quotient plus one. It is at least 1, and `(p-1)*(elapsed+const) <= multiplier*factor < p*(elapsed+const)`. |
| Pricing.PriceNonIncreasing | tests/test_auction.py:217-223 | The curve never rises as time elapses. |
| Pricing.PriceDropsAfterStart | tests_simple/test_auction.py:41-47 | With the tests' fast-decline settings (const divides multiplier*factor), any elapsed time strictly lowers the price. |
| Pricing.Target | tests/test_auction.py:579-585 | The target is price*supply//multiplier, a formula the model reconstructs: the cited lines check only that the final balance claims the supply, and no test computes the target. Its contract pins the quotient: `t*multiplier <= price*supply < (t+1)*multiplier`. |
| Pricing.MissingFunds | tests/test_auction.py:178-187 | Missing funds are zero exactly when the balance reaches the target; otherwise balance plus missing equals the target. |
| Auction.DutchAuction.Missing | tests/test_auction.py:178-187 | Zero once ended, and zero exactly when the balance covers the target at the current price. |
| Auction.DutchAuction.MissingFundsToEndAuction | tests_simple/test_auction.py:51-55 | No value before setup, when the multiplier is zero. Afterwards the missing funds, which are zero once ended. |
| Auction.DutchAuction.Bid | tests/test_auction.py:245-316 | Fails before the start, after the end, or for a zero amount. The funds rule rejects a bid above the missing funds and accepts any other bid whole. The reserve rule fails only when no tokens are auctioned. An accepted part, when positive, is added to the bidder's entry and to the balance. Only a reserve bid whose accepted part equals the missing amount ends the auction. When it ends, the final price covers the supply, and when that bid added value it is the current curve price. Failure changes nothing. |
| Auction.DutchAuction.BidFunds | tests/test_auction.py:341-440 | Accepted exactly when the amount is at most the missing funds, and then accepted whole. So missing+1 fails, and (missing-2) followed by 3 fails and then 2 succeeds. A rejected bid changes nothing. |
| Auction.DutchAuction.BidReserve | tests_simple/test_auction.py:272-357 | The bid is clipped to the missing reserve, and accepted plus refund equals the amount sent. Balance and entry rise by the accepted part, and a bid with nothing accepted records no entry. The stage turns to 3 exactly when the accepted part equals the missing reserve, including a bid that finds nothing missing. The end time is then now. The final price is Pricing.FittedPrice of the curve price: the curve price itself when the bid added value. It fails, with no effect, only when no tokens are auctioned. |
| Auction.DutchAuction.CloseReserve | tests_simple/test_auction.py:243-245 | The end of a reserve auction: stage 3, end time now, and the final price Pricing.FittedPrice of the curve price, so never below it. It is the curve price exactly when the balance's claim at that price fits the supply. In particular it is the curve price if the balance is the target at that price (the converse does not hold). |
| Pricing.FitsSupplyIff | tests_simple/test_auction.py:466-473 | The fit condition `balance*multiplier < (supply+1)*price` holds exactly when the balance's truncated claim at that price is at most the supply. |
| Pricing.FitsSupplyMono | tests/test_auction.py:579-585 | A higher price keeps a fitting claim fitting. |
| Pricing.LeastFittingPrice | tests_simple/test_auction.py:466-473 | A positive price at which the balance's claim fits the supply, such that one unit less does not fit. |
| Pricing.LeastFittingPriceIsLeast | tests_simple/test_auction.py:466-473 | Every fitting price is at least Pricing.LeastFittingPrice. |
| Pricing.FittedPrice | tests_simple/test_auction.py:466-473 | A final price at or above a floor at which the balance's claim fits the supply. It equals the floor exactly when the floor fits, and when it is above the floor, one unit less does not fit. |
| Pricing.FittedPriceAtTarget | tests_simple/test_auction.py:243-245 | When the balance is exactly the target at a curve price, the fitted price is that curve price. |
| Auction.ReserveBidAsWritten | tests_simple/test_auction.py:437-452 | The model's reconstruction of the reserve rule: a bid above the missing amount is clipped to it, with the rest refunded (the tests pin this). A bid is refused when nothing is missing; no test exercises that case, and the model assumes it of the contract as written. |
| Auction.ReserveStallsAsWritten | tests_simple/test_auction.py:437-463 | A concrete run in which, under that reconstructed rule, nothing is missing while the auction is still running, and every further bid is refused. |
| Auction.DutchAuction.Record | tests_simple/test_auction.py:431-462 | A bid adds to the caller's entry and to the balance, and keeps the ledger and the whole invariant. |
| Ledger.AddBidKeepsLedger | tests_simple/test_auction.py:443-462 | A positive bid keeps the ledger well formed and raises the sum of bids by exactly the bid. The balance is therefore always the sum of the accepted amounts. |
| Auction.DutchAuction.FinalizeAuction | tests/test_auction.py:500-574 | Funds variant. Fails for a non-owner, outside stage 2, while funds are missing, or with less than one whole token auctioned. Success sets stage 3, the end time and the final price Pricing.FundsFinalPrice of the balance, so a second call fails. |
| Pricing.FundsFinalPriceAsWritten | tests/test_auction.py:232-241 | The tests' price, balance//(supply//multiplier): its quotient bounds. |
| Pricing.FundsFinalPrice | tests/test_auction.py:232-241 | The corrected price: positive, never below the tests' price, and at it the balance's claim fits the supply. |
| Pricing.FundsFinalPriceCoversSupply | tests/test_auction.py:579-585 | At the corrected price, the collected balance claims at most the auctioned units. |
| Pricing.FundsFinalPriceMatchesAsWritten | tests/test_auction.py:232-241 | For a positive written price, the corrected price equals it exactly when the balance's claim at the written price is at most the supply. They agree in particular whenever the whole-token count divides a positive balance. |
| Pricing.FundsFinalPriceClaimsSupply | tests/test_auction.py:582-585 | When the supply is a whole number of tokens and the whole-token count divides the positive balance, the balance at the final price claims exactly the auctioned supply. |
| Pricing.FundsFinalPriceKeepsSafeWritten | tests/test_auction.py:579-585 | A concrete run (a bid of 111 admitted at price 12, finalized at price 11) where the written price 11 lets the balance claim exactly the 100 units auctioned, and the corrected price is also 11. |
| Pricing.FundsFinalPriceAsWrittenOverAllots | tests/test_auction.py:232-234 | A concrete balance for which the tests' price lets one claim exceed the supply; the corrected price does not. |
| Pricing.OverAllotmentBidAdmitted | tests/test_auction.py:355-358 | In that scenario, the bid of 105 is within the missing funds at elapsed 85. |
| Pricing.OverAllotmentTargetMet | tests/test_auction.py:508-512 | In that scenario, nothing is missing at elapsed 95, so the owner may finalize. |
| Pricing.ReserveAllotment | tests_simple/test_auction.py:466-473 | In the reserve variant, when the auction ends by a bid that added value, the ending balance is the target at the final price. That target fits the supply and claims at most the supply, and exactly the supply when the multiplier divides price*supply. |
| Pricing.ClaimableTokens | tests/test_auction.py:591-593 | A claim is bid*multiplier//final_price: `r*fp <= bid*multiplier < (r+1)*fp`. |
| Auction.DutchAuction.ClaimTokens | tests/test_auction.py:589-641 | Fails before the end, for a non-bidder, or for a second claim by the same bidder, with no effect. A claim pays bid*multiplier//final_price units out of the auction's token balance and adds the bid to the claimed funds. The stage becomes 5 exactly when every bidder has claimed. That last claim moves the whole balance to the owner (funds variant) or to the token contract (reserve variant). |
| Auction.DutchAuction.Claim | tests_simple/test_auction.py:477-534 | An admitted claim pays its units. The claim that completes the set starts trading and moves the whole balance to the owner (funds variant) or to the token contract (reserve variant). |
| Auction.DutchAuction.Pay | tests/test_auction.py:600-630 | The claim's units leave the auction's token balance and the caller's receipt is recorded. The claimed funds reach the balance exactly when every bidder has claimed. |
| Auction.DutchAuction.StartTrading | tests_simple/test_auction.py:527-534 | After the last claim: stage 5, the auction's balance is 0, and the funds claimed went to the owner or to the token contract. |
| Auction.DutchAuction.ClaimAll | tests/test_auction.py:589-641 | The settlement round for distinct bidders who have not claimed: each receives exactly bid*multiplier//final_price units, and earlier entries stay unchanged. The auction's token balance falls by the sum of those shares. The units moved fall short of the exact share of the claimers' bids by less than one unit per claimer. The claimed funds rise by their bids. Once everyone has claimed, the stage is 5 and the auction holds no value. |
| Auction.DutchAuction.ClaimInTurn | tests_simple/test_auction.py:477-518 | The loop of that round: the units paid grow by the mapping Ledger.Payouts of the claimers, the token balance falls by their total, and the claimed funds rise by their bids. |
| Auction.DutchAuction.ClaimNext | tests_simple/test_auction.py:505-518 | One claim of that loop: the next claimer receives its truncated share, and no other entry of the units paid changes. The running payouts, token balance and claimed funds each take one more claimer into account. |
| Ledger.Payouts | tests/test_auction.py:591-596 | The units paid to each listed principal, as a mapping: its keys are exactly the listed principals. |
| Ledger.PayoutsMember | tests/test_auction.py:593-630 | Every listed principal has a bid and is paid bid*multiplier//final_price units. |
| Ledger.PayoutsStep | tests/test_auction.py:626-630 | Paying one more principal of the list extends the payouts by that principal's share. |
| Ledger.Settlement | tests/test_auction.py:604-630 | After a round of claims by fresh claimers, each received its share, earlier entries stay, and the units moved fall short of the exact share of the total by less than one unit per claimer. |
| Auction.DutchAuction.Close | tests/test_auction.py:508-512 | The end, at a positive price at which the balance's claim fits the supply: stage 3, end time recorded, final price frozen; the invariant still holds. |
| Auction.ClaimedShare | tests/test_auction.py:589-641 | Of a valid auction: every claimer holds exactly bid*multiplier//final_price units, and the auction's token balance plus the units held by the claimers is the supply. |
| Ledger.ClaimedUnitsAdd | tests/test_auction.py:600-630 | One more listed bidder among the claimers adds exactly its share to the claimed units. |
| Ledger.PaidSharesMember | tests/test_auction.py:593-630 | When every recorded payout is a truncated share, a listed claimer has a bid and holds exactly its share. |
| Ledger.ClaimRoundingBounds | tests/test_auction.py:604-626 | The claims together never exceed the exact share of the claimed funds, and each loses less than one unit to truncation. Through Ledger.Settlement this bounds the units Auction.DutchAuction.ClaimAll moves. |
| Ledger.TotalInIsTotalIff | tests_simple/test_auction.py:528-534 | With positive bids, the claimed funds reach the total exactly when every bidder has claimed. |
| Ledger.PrefixStep | tests/test_auction.py:589-634 | One more claimer in the settlement order adds that claimer's bid to the claimed sum and its share to the claimed units. |
| Auction.ClaimStep | tests/test_auction.py:600-626 | On values: one more claim keeps the units paid within the claimed funds' share and within the supply. The claimed funds reach the total exactly when the set of claimers is complete. |
| Auction.ClaimKeeps | tests/test_auction.py:589-634 | One claim keeps the ledger, settlement and payout invariants. |
| AuctionTypes.Stage.Code | tests_simple/test_auction.py:51-55 | Stage codes are as the contract reports them, 0 to 3 and 5, never 4. |

## Left out

- Deployment plumbing: contract factories, transaction submission, receipts and
  block mining. These are host-chain I/O, not auction logic.
- Gas and transaction cost accounting. Refunds are modelled as the receipt's
  `refund` field, without the fee paid.
- ABI-level type errors for negative arguments. `nat` parameters exclude them.
- Calls to private functions (`transferFundsToToken`, `transferReserveToToken`,
  and `finalizeAuction` in the reserve variant): the class does not expose them.
  `FinalizeAuction` requires the funds variant.
- The fallback function (plain value transfers). It is not modelled as a separate
  entry point: its tests only show it behaving as a bid.
- The token contract: total supply, preallocations and its other holders. The
  token enters as the auction's balance, the issuer and the decimals at setup.
  The model records the auction's own token balance and the units paid to each
  claimer.
- 256-bit arithmetic: values are unbounded, and overflow does not arise at the
  tests' magnitudes.
- The clock: time is an explicit argument, and callers supply a time no earlier
  than the start (`requires start_time <= now`). The model does not check that
  successive calls pass a non-decreasing time.
- The stage TokensDistributed (code 4): neither suite ever reaches it.
- The per-bidder `claimed` flag: it is the key set of the map of units paid.
- Auction.DutchAuction.BidReserve: once the price has fallen so far that
  nothing is missing, the auction ends at the next bid, not at the moment the
  price crosses. No transaction happens at that moment, so there is nothing to
  model it with. Until that next bid, the auction stays in stage 2 with nothing
  missing.
- Residue sweep: the truncation remainder stays on the auction's token balance,
  as the tests expect at tests/test_auction.py:641.
- Auction.DutchAuction.ClaimAll: with an empty claimer list, the stage is not
  stated beyond the invariant. The claimer list must be distinct bidders who
  have not claimed yet, as in the tests' claim loops.
- Auction.DutchAuction.Price: while running, its contract only bounds the price by
  the initial price. The exact running value is Pricing.PriceCurve at the elapsed
  time, which the body computes.

## Findings

| source | as written | input that shows it | evidently intended | confidence | as-written member | corrected member |
|---|---|---|---|---|---|---|
| tests/test_auction.py:232-234 | The funds variant's final price is balance // (tokens_auctioned // multiplier), the balance per whole token rounded down. | multiplier 10, 100 token units, factor 100, const 10. A single bid of 105 at elapsed 85 is admitted: the price is 11, the target 110. At elapsed 95 the price is 10, the target 100, and nothing is missing. Finalizing gives final price 10, and the bidder claims 105 units of the 100 auctioned. | A final price at which the collected balance's claim is at most the auctioned supply: the written price when its claim fits the supply, otherwise the least price whose claim fits. It equals the written formula whenever the whole-token count divides the balance, as in the tests. | not executed | Pricing.FundsFinalPriceAsWrittenOverAllots | Pricing.FundsFinalPriceCoversSupply |
| tests_simple/test_auction.py:437-463 | In the model's reconstruction of the contract, a reserve bid is admitted only while something is missing, and the auction ends only at a bid that meets the missing reserve. No test bids with nothing missing, so the refusal is not exercised; the tests pin only the clipping and refund. | multiplier 1, 1000 token units, factor 2, const 1. A bid of 1500 at elapsed 0 is admitted whole (price 3, target 3000). At elapsed 2 the price is 1 and the target 1000, so nothing is missing and every bid is refused. No other transaction ends a reserve auction, so the 1500 stay locked. The tests' loop stops when nothing is missing and then expects stage 3. | A bid that finds nothing missing ends the auction and is refunded whole. The final price is the least price, at or above the curve price, at which the balance buys at most the supply. | not executed | Auction.ReserveStallsAsWritten | Auction.DutchAuction.BidReserve |
