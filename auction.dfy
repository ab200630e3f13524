/** The DutchAuction contract: one mutable object whose stage, bid ledger, value
    balance and token balance change step by step under owner and bidder calls.
    `variant` selects the funds or the reserve rules for bidding and ending. */
module Auction {
  import opened AuctionTypes
  import opened Pricing
  import opened Ledger
  import opened Invariants

  function Min(a: nat, b: nat): nat {
    if a <= b then a else b
  }

  /** A reconstruction of the reserve variant's bid rule, on values: the clipping and
      refund of a bid above the missing reserve, which the tests pin, together with the
      refusal of a bid that finds nothing missing, which no test exercises and which this
      model assumes of the contract as written. */
  function ReserveBidAsWritten(missing: nat, amount: nat): (r: Option<BidReceipt>)
    ensures r.Some? <==> missing > 0
    ensures r.Some? ==> r.value.accepted == Min(amount, missing) <= missing
    ensures r.Some? ==> r.value.accepted + r.value.refund == amount
  {
    if missing == 0 then None else Some(BidReceipt(Min(amount, missing), amount - Min(amount, missing)))
  }

  /** Under that reconstructed rule a reserve auction can stall in the started stage. With multiplier 1,
      1000 token units, factor 2 and const 1, a bid of 1500 at the start is admitted whole
      (price 3, target 3000). Two seconds later the price is 1 and the target 1000, so
      nothing is missing, and the rule admits no bid at all; the reserve variant has no
      other transaction that ends the auction, so the 1500 collected stay locked. */
  lemma ReserveStallsAsWritten()
    ensures PriceCurve(1, 2, 1, 0) == 3 && MissingFunds(3, 1000, 1, 0) == 3000
    ensures ReserveBidAsWritten(3000, 1500) == Some(BidReceipt(1500, 0))
    ensures PriceCurve(1, 2, 1, 2) == 1 && MissingFunds(1, 1000, 1, 1500) == 0
    ensures forall amount: nat :: ReserveBidAsWritten(MissingFunds(1, 1000, 1, 1500), amount).None?
  {
    assert 1 * 2 / (0 + 1) + 1 == 3 && 1 * 2 / (2 + 1) + 1 == 1;
    assert 3 * 1000 / 1 == 3000 && 1 * 1000 / 1 == 1000;
    assert MissingFunds(1, 1000, 1, 1500) == 0;
  }

  /** One claim fits into the auction's token balance: the claims paid so far stay
      within their funds' share, the new one within its bid's share, and the whole
      balance within the auctioned supply. */
  lemma ClaimFits(paid: nat, num: nat, claimedFunds: nat, bid: nat, total: nat,
                  multiplier: nat, tokens: nat, finalPrice: nat)
    requires finalPrice > 0
    requires paid * finalPrice <= claimedFunds * multiplier
    requires num * finalPrice <= bid * multiplier
    requires claimedFunds + bid <= total
    requires FitsSupply(total, tokens, multiplier, finalPrice)
    ensures (paid + num) * finalPrice <= (claimedFunds + bid) * multiplier
    ensures paid + num <= tokens
  {
    Distribute(paid, num, finalPrice);
    Distribute(claimedFunds, bid, multiplier);
    MulMono(claimedFunds + bid, total, multiplier);
    MulMono(tokens + 1, paid + num, finalPrice);
  }

  /** One more claim by bidder `k`, on values: at a final price where the bids' claim fits the supply
      the price is positive, the claimed funds grow by k's bid, the units paid stay within
      the claimed funds' share and the supply, and the claimed funds reach the total bid
      exactly when every bidder has claimed. */
  lemma ClaimStep(bids: map<Principal, nat>, xs: seq<Principal>, who: set<Principal>, k: Principal,
                  paid: nat, claimedFunds: nat, multiplier: nat, tokens: nat, finalPrice: nat)
    requires WellFormed(bids, xs) && k in bids && k !in who && who <= bids.Keys
    requires multiplier > 0
    requires claimedFunds == TotalIn(bids, xs, who)
    requires FitsSupply(Total(bids, xs), tokens, multiplier, finalPrice)
    requires paid * finalPrice <= claimedFunds * multiplier
    ensures finalPrice > 0
    ensures TotalIn(bids, xs, who + {k}) == claimedFunds + bids[k]
    ensures finalPrice > 0 ==>
              && (paid + ClaimableTokens(bids[k], multiplier, finalPrice)) * finalPrice
                   <= (claimedFunds + bids[k]) * multiplier
              && paid + ClaimableTokens(bids[k], multiplier, finalPrice) <= tokens
    ensures TotalIn(bids, xs, who + {k}) == Total(bids, xs) <==> who + {k} == bids.Keys
  {
    var total := Total(bids, xs);
    ListedMember(xs, k);
    TotalInAdd(bids, xs, who, k);
    TotalInAtMostTotal(bids, xs, who + {k});
    assert (tokens + 1) * finalPrice > 0;
    var num := ClaimableTokens(bids[k], multiplier, finalPrice);
    ClaimFits(paid, num, claimedFunds, bids[k], total, multiplier, tokens, finalPrice);
    TotalInIsTotalIff(bids, xs, who + {k});
  }

  /** One claim by bidder `k` keeps the ledger, settlement and payout invariants: `k`
      joins the claimers with its token units, its bid joins the claimed funds, and the
      units leave the auction's token balance. */
  lemma ClaimKeeps(bids: map<Principal, nat>, bidders: seq<Principal>,
                   tokens_of: map<Principal, nat>, funds_claimed: nat,
                   auction_tokens: nat, k: Principal, start_time: nat, end_time: nat,
                   multiplier: nat, tokens_auctioned: nat, final_price: nat)
    requires LedgeredInv(bids, bidders, tokens_of)
    requires SettlingInv(start_time, end_time, bids, bidders, funds_claimed, tokens_of.Keys, multiplier, tokens_auctioned, final_price)
    requires PaidInv(auction_tokens, tokens_auctioned, final_price, funds_claimed, multiplier, bids, bidders, tokens_of)
    requires multiplier > 0 && k in bids && k !in tokens_of
    ensures final_price > 0
    ensures ClaimableTokens(bids[k], multiplier, final_price) <= auction_tokens
    ensures LedgeredInv(bids, bidders, tokens_of[k := ClaimableTokens(bids[k], multiplier, final_price)])
    ensures SettlingInv(start_time, end_time, bids, bidders, funds_claimed + bids[k],
                        tokens_of[k := ClaimableTokens(bids[k], multiplier, final_price)].Keys, multiplier, tokens_auctioned, final_price)
    ensures PaidInv(auction_tokens - ClaimableTokens(bids[k], multiplier, final_price),
                    tokens_auctioned, final_price, funds_claimed + bids[k], multiplier,
                    bids, bidders, tokens_of[k := ClaimableTokens(bids[k], multiplier, final_price)])
    ensures funds_claimed + bids[k] == Total(bids, bidders) <==> tokens_of.Keys + {k} == bids.Keys
  {
    assert tokens_of[k := ClaimableTokens(bids[k], multiplier, final_price)].Keys == tokens_of.Keys + {k};
    ClaimStep(bids, bidders, tokens_of.Keys, k, tokens_auctioned - auction_tokens, funds_claimed, multiplier, tokens_auctioned, final_price);
    ListedMember(bidders, k);
    ClaimedUnitsAdd(bids, bidders, tokens_of.Keys, k, multiplier, final_price);
    PaidSharesAdd(tokens_of, bids, bidders, k, multiplier, final_price);
  }

  /** In every valid state, a principal with a token entry is a bidder of an ended
      auction and holds exactly bid * multiplier // final_price units, and the auction
      still holds the supply less the units paid to the claimers. */
  lemma ClaimedShare(a: DutchAuction, p: Principal)
    requires a.Valid() && p in a.tokens_of
    ensures a.stage.HasEnded() && a.final_price > 0 && p in a.bids
    ensures a.tokens_of[p] == ClaimableTokens(a.bids[p], a.multiplier, a.final_price)
    ensures a.auction_tokens + ClaimedUnits(a.bids, a.bidders, a.tokens_of.Keys, a.multiplier, a.final_price)
              == a.tokens_auctioned
  {
    ListedMember(a.bidders, p);
    PaidSharesMember(a.tokens_of, a.bids, a.bidders, p, a.multiplier, a.final_price);
  }

  class DutchAuction {
    const owner: Principal
    const variant: Variant

    var price_factor: nat
    var price_const: nat
    /** 10^decimals of the token; zero until setup. */
    var multiplier: nat
    var tokens_auctioned: nat
    var start_time: nat
    var end_time: nat
    var start_block: nat
    /** Value units per whole token, frozen when the auction ends; zero until then. */
    var final_price: nat
    /** Sum of the bids of the principals that have claimed. */
    var funds_claimed: nat
    var stage: Stage
    var bids: map<Principal, nat>
    /** Value held by the auction contract. */
    var balance: nat
    /** The auction's own balance on the token ledger. */
    var auction_tokens: nat
    /** Token units the auction has transferred to each claimer. */
    var tokens_of: map<Principal, nat>
    /** Value the last claim sends to the owner (funds variant). */
    var owner_proceeds: nat
    /** Value the last claim sends to the token contract (reserve variant). */
    var token_reserve: nat

    /** The bidders in order of their first bid. */
    ghost var bidders: seq<Principal>

    /** The invariant of the contract's state, kept by every operation. */
    ghost predicate Valid()
      reads this
    {
      && Configured()
      && (!stage.HasEnded() ==> Pristine())
      && Ledgered()
      && (stage.HasEnded() ==> Settling())
      && (stage != TradingStarted ==> Open())
      && (stage == TradingStarted ==> Settled())
      && Paid()
    }

    /** Parameters and times: positive price settings, the multiplier set exactly by
        setup, and nothing bid before the start. */
    ghost predicate Configured()
      reads this`price_factor, this`price_const, this`stage, this`multiplier, this`tokens_auctioned, this`start_time, this`start_block, this`bidders
    {
      ConfiguredInv(price_factor, price_const, stage, multiplier, tokens_auctioned, start_time, start_block, bidders)
    }

    /** Before the end: no end data, nothing claimed, nothing paid out. */
    ghost predicate Pristine()
      reads this`end_time, this`final_price, this`tokens_of, this`funds_claimed, this`auction_tokens, this`tokens_auctioned
    {
      PristineInv(end_time, final_price, tokens_of, funds_claimed, auction_tokens, tokens_auctioned)
    }

    /** The ledger: each bidder listed once, every listed bidder holds a positive bid,
        and only bidders claim. */
    ghost predicate Ledgered()
      reads this`bids, this`bidders, this`tokens_of
    {
      LedgeredInv(bids, bidders, tokens_of)
    }

    /** After the end: the final price is positive, the claimed funds are the claimers'
        bids, and at the frozen final price all bids together claim at most the supply. */
    ghost predicate Settling()
      reads this`start_time, this`end_time, this`bids, this`bidders, this`funds_claimed, this`tokens_of, this`multiplier, this`tokens_auctioned, this`final_price
    {
      SettlingInv(start_time, end_time, bids, bidders, funds_claimed, tokens_of.Keys, multiplier, tokens_auctioned, final_price)
    }

    /** Before trading: the auction holds exactly the bids and has paid nothing out. */
    ghost predicate Open()
      reads this`bids, this`bidders, this`balance, this`owner_proceeds, this`token_reserve
    {
      OpenInv(bids, bidders, balance, owner_proceeds, token_reserve)
    }

    /** Trading: everyone has claimed and the whole balance went to the owner (funds
        variant) or to the token contract (reserve variant). */
    ghost predicate Settled()
      reads this`bids, this`bidders, this`balance, this`tokens_of, this`funds_claimed, this`owner_proceeds, this`token_reserve
    {
      SettledInv(bids, bidders, balance, tokens_of.Keys, funds_claimed, owner_proceeds, token_reserve, variant)
    }

    /** The payout: the units paid stay within the claimed funds' share; once the price
        is frozen, every claimer holds exactly its truncated share, and the units paid to
        the claimers plus those the auction still holds make up the supply. */
    ghost predicate Paid()
      reads this`auction_tokens, this`tokens_auctioned, this`final_price, this`funds_claimed, this`multiplier
      reads this`bids, this`bidders, this`tokens_of
    {
      PaidInv(auction_tokens, tokens_auctioned, final_price, funds_claimed, multiplier, bids, bidders, tokens_of)
    }

    /** A freshly deployed auction; `Deploy` is the contract's constructor. */
    constructor Init(creator: Principal, rules: Variant, factor: nat, pconst: nat)
      requires factor > 0 && pconst > 0
      ensures Valid()
      ensures owner == creator && variant == rules
      ensures price_factor == factor && price_const == pconst
      ensures stage == AuctionDeployed && multiplier == 0 && tokens_auctioned == 0
      ensures start_time == 0 && end_time == 0 && start_block == 0
      ensures final_price == 0 && funds_claimed == 0
      ensures bids == map[] && balance == 0
      ensures auction_tokens == 0 && tokens_of == map[] && owner_proceeds == 0 && token_reserve == 0
    {
      owner := creator;
      variant := rules;
      price_factor, price_const := factor, pconst;
      multiplier, tokens_auctioned := 0, 0;
      start_time, end_time, start_block := 0, 0, 0;
      final_price, funds_claimed := 0, 0;
      stage := AuctionDeployed;
      bids, balance := map[], 0;
      auction_tokens, tokens_of := 0, map[];
      owner_proceeds, token_reserve := 0, 0;
      bidders := [];
    }

    /** Deployment: rejects a zero price factor or price constant; otherwise every
        counter, time and price starts at zero and the stage is AuctionDeployed. */
    static method Deploy(creator: Principal, rules: Variant, factor: nat, pconst: nat)
      returns (r: Result<DutchAuction>)
      ensures r.Err? <==> factor == 0 || pconst == 0
      ensures r.Err? ==> r.error == ZeroParameter
      ensures r.Ok? ==> fresh(r.value) && r.value.Valid()
      ensures r.Ok? ==> r.value.owner == creator && r.value.variant == rules
      ensures r.Ok? ==> r.value.price_factor == factor && r.value.price_const == pconst
      ensures r.Ok? ==> r.value.stage == AuctionDeployed && r.value.tokens_auctioned == 0
      ensures r.Ok? ==> r.value.start_time == 0 && r.value.end_time == 0 && r.value.start_block == 0
      ensures r.Ok? ==> r.value.final_price == 0 && r.value.funds_claimed == 0 && r.value.balance == 0
    {
      if factor == 0 || pconst == 0 {
        return Err(ZeroParameter);
      }
      var a := new DutchAuction.Init(creator, rules, factor, pconst);
      return Ok(a);
    }

    /** Seconds since the start while the auction runs; zero before it starts. */
    function Elapsed(now: nat): nat
      reads this
      requires start_time <= now
    {
      if stage == AuctionStarted then now - start_time else 0
    }

    /** The contract's `price()`: 1 before setup (the multiplier is still zero), the
        initial price after setup, the decaying curve while running, 0 once ended. */
    function Price(now: nat): (p: nat)
      reads this
      requires Valid() && start_time <= now
      ensures stage.HasEnded() <==> p == 0
      ensures stage == AuctionDeployed ==> p == 1
      ensures stage == AuctionSetUp ==> p == multiplier * price_factor / price_const + 1
      ensures stage == AuctionStarted ==> p <= multiplier * price_factor / price_const + 1
    {
      if stage.HasEnded() then 0
      else
        PriceNonIncreasing(multiplier, price_factor, price_const, 0, Elapsed(now));
        PriceCurve(multiplier, price_factor, price_const, Elapsed(now))
    }

    /** The value still missing to sell every token at the current price (the
        contract's `missingFundsToEndAuction`, `missingReserveToEndAuction` in the
        reserve variant); zero once the balance covers the target. */
    function Missing(now: nat): (m: nat)
      reads this
      requires Valid() && start_time <= now && stage != AuctionDeployed
      ensures stage.HasEnded() ==> m == 0
      ensures m == 0 <==> balance >= Target(Price(now), tokens_auctioned, multiplier)
    {
      MissingFunds(Price(now), tokens_auctioned, multiplier, balance)
    }

    /** The public query. Before setup the multiplier is zero and the target's division
        by it is undefined; the model answers None there. */
    function MissingFundsToEndAuction(now: nat): (r: Option<nat>)
      reads this
      requires Valid() && start_time <= now
      ensures r.None? <==> stage == AuctionDeployed
      ensures r.Some? ==> r.value == Missing(now)
    {
      if stage == AuctionDeployed then None else Some(Missing(now))
    }

    /** changeSettings: owner only, before the auction starts, both values positive. */
    method ChangeSettings(caller: Principal, factor: nat, pconst: nat) returns (r: Outcome)
      requires Valid()
      modifies this`price_factor, this`price_const
      ensures Valid()
      ensures r == (if caller != owner then Fail(PermissionDenied)
                    else if old(stage) != AuctionDeployed && old(stage) != AuctionSetUp then Fail(InvalidStage)
                    else if factor == 0 || pconst == 0 then Fail(ZeroParameter)
                    else Pass)
      ensures r.Pass? ==> price_factor == factor && price_const == pconst
      ensures r.Fail? ==> unchanged(this)
    {
      if caller != owner {
        return Fail(PermissionDenied);
      }
      if stage != AuctionDeployed && stage != AuctionSetUp {
        return Fail(InvalidStage);
      }
      if factor == 0 || pconst == 0 {
        return Fail(ZeroParameter);
      }
      price_factor, price_const := factor, pconst;
      return Pass;
    }

    /** setup: once, owner only, with a token issued by the owner. Reads the auction's
        token balance as the supply and 10^decimals as the multiplier. */
    method Setup(caller: Principal, token: Token) returns (r: Outcome)
      requires Valid()
      modifies this`multiplier, this`tokens_auctioned, this`auction_tokens, this`stage
      ensures Valid()
      ensures r == (if caller != owner then Fail(PermissionDenied)
                    else if old(stage) != AuctionDeployed then Fail(InvalidStage)
                    else if token.issuer != owner then Fail(ForeignToken)
                    else Pass)
      ensures r.Pass? ==> stage == AuctionSetUp && multiplier == Pow10(token.decimals)
      ensures r.Pass? ==> tokens_auctioned == token.auction_balance && auction_tokens == token.auction_balance
      ensures r.Fail? ==> unchanged(this)
    {
      if caller != owner {
        return Fail(PermissionDenied);
      }
      if stage != AuctionDeployed {
        return Fail(InvalidStage);
      }
      if token.issuer != owner {
        return Fail(ForeignToken);
      }
      tokens_auctioned := token.auction_balance;
      auction_tokens := token.auction_balance;
      multiplier := Pow10(token.decimals);
      stage := AuctionSetUp;
      return Pass;
    }

    /** startAuction: owner only, exactly once, after setup. Records the start time and block. */
    method StartAuction(caller: Principal, now: nat, block: nat) returns (r: Outcome)
      requires Valid()
      modifies this`stage, this`start_time, this`start_block
      ensures Valid()
      ensures r == (if caller != owner then Fail(PermissionDenied)
                    else if old(stage) != AuctionSetUp then Fail(InvalidStage)
                    else Pass)
      ensures r.Pass? ==> stage == AuctionStarted && start_time == now && start_block == block
      ensures r.Fail? ==> unchanged(this)
    {
      if caller != owner {
        return Fail(PermissionDenied);
      }
      if stage != AuctionSetUp {
        return Fail(InvalidStage);
      }
      stage, start_time, start_block := AuctionStarted, now, block;
      return Pass;
    }

    /** Adds `a` to the caller's bid and to the balance. */
    method Record(caller: Principal, a: nat)
      requires Valid() && stage == AuctionStarted && a > 0
      modifies this`bids, this`bidders, this`balance
      ensures Valid()
      ensures bids == AddBid(old(bids), caller, a)
      ensures balance == old(balance) + a
    {
      AddBidKeepsLedger(bids, bidders, caller, a);
      bidders := Enrol(bids, bidders, caller);
      bids := AddBid(bids, caller, a);
      balance := balance + a;
    }

    /** bid. Funds variant: a bid above the missing funds fails. Reserve variant: the
        bid is clipped to the missing reserve, the surplus is refunded, and the bid that
        meets the target ends the auction at the current price. */
    method Bid(caller: Principal, amount: nat, now: nat) returns (r: Result<BidReceipt>)
      requires Valid() && start_time <= now
      modifies this`bids, this`bidders, this`balance, this`stage, this`end_time, this`final_price
      ensures Valid()
      ensures old(stage) != AuctionStarted ==> r == Err(InvalidStage)
      ensures old(stage) == AuctionStarted && amount == 0 ==> r == Err(ZeroBid)
      ensures old(stage) == AuctionStarted && amount > 0 && variant == Funds ==>
                (r.Ok? <==> amount <= old(Missing(now))) && (r.Err? ==> r.error == ExceedsMissingFunds)
      ensures old(stage) == AuctionStarted && amount > 0 && variant == Reserve ==>
                (r.Ok? <==> tokens_auctioned > 0) && (r.Err? ==> r.error == NothingMissing)
      ensures r.Ok? ==> r.value.accepted == Min(amount, old(Missing(now)))
      ensures r.Ok? && variant == Funds ==> r.value.accepted == amount
      ensures r.Ok? ==> r.value.accepted + r.value.refund == amount
      ensures r.Ok? ==> bids == (if r.value.accepted > 0 then AddBid(old(bids), caller, r.value.accepted) else old(bids))
      ensures r.Ok? ==> balance == old(balance) + r.value.accepted
      ensures r.Ok? ==> (stage == AuctionEnded <==> variant == Reserve && r.value.accepted == old(Missing(now)))
      ensures r.Ok? && stage == AuctionEnded ==>
                && tokens_auctioned > 0 && end_time == now
                && final_price == FittedPrice(PriceCurve(multiplier, price_factor, price_const, now - start_time),
                                                    balance, tokens_auctioned, multiplier)
      ensures r.Ok? && stage == AuctionEnded && r.value.accepted > 0 ==>
                final_price == PriceCurve(multiplier, price_factor, price_const, now - start_time)
      ensures r.Ok? && stage != AuctionEnded ==> stage == AuctionStarted && end_time == 0 && final_price == 0
      ensures r.Err? ==> unchanged(this)
    {
      if stage != AuctionStarted {
        return Err(InvalidStage);
      }
      if amount == 0 {
        return Err(ZeroBid);
      }
      if variant == Funds {
        r := BidFunds(caller, amount, now);
      } else {
        r := BidReserve(caller, amount, now);
      }
    }

    /** A bid in the funds variant: accepted whole while it does not exceed the missing funds. */
    method BidFunds(caller: Principal, amount: nat, now: nat) returns (r: Result<BidReceipt>)
      requires Valid() && start_time <= now && stage == AuctionStarted && amount > 0 && variant == Funds
      modifies this`bids, this`bidders, this`balance
      ensures Valid()
      ensures r.Ok? <==> amount <= old(Missing(now))
      ensures r.Err? ==> r.error == ExceedsMissingFunds && unchanged(this)
      ensures r.Ok? ==> r.value == BidReceipt(amount, 0)
      ensures r.Ok? ==> bids == AddBid(old(bids), caller, amount) && balance == old(balance) + amount
    {
      if amount > Missing(now) {
        return Err(ExceedsMissingFunds);
      }
      Record(caller, amount);
      return Ok(BidReceipt(amount, 0));
    }

    /** A bid in the reserve variant: clipped to the missing reserve, the rest refunded.
        The bid that meets the target ends the auction at the current price. A bid that
        finds nothing missing (the price has fallen far enough since the last bid) is
        refunded whole and ends the auction too, at the final price that keeps every claim
        within the supply. With no tokens auctioned nothing is ever missing and every bid
        fails. */
    method BidReserve(caller: Principal, amount: nat, now: nat) returns (r: Result<BidReceipt>)
      requires Valid() && start_time <= now && stage == AuctionStarted && amount > 0 && variant == Reserve
      modifies this`bids, this`bidders, this`balance, this`stage, this`end_time, this`final_price
      ensures Valid()
      ensures r.Ok? <==> tokens_auctioned > 0
      ensures r.Err? ==> r.error == NothingMissing && unchanged(this)
      ensures r.Ok? ==> r.value.accepted == Min(amount, old(Missing(now))) && r.value.accepted + r.value.refund == amount
      ensures r.Ok? ==> bids == (if r.value.accepted > 0 then AddBid(old(bids), caller, r.value.accepted) else old(bids))
      ensures r.Ok? ==> balance == old(balance) + r.value.accepted
      ensures r.Ok? ==> (stage == AuctionEnded <==> r.value.accepted == old(Missing(now)))
      ensures r.Ok? && stage == AuctionEnded ==>
                && end_time == now
                && final_price == FittedPrice(PriceCurve(multiplier, price_factor, price_const, now - start_time),
                                                    balance, tokens_auctioned, multiplier)
      ensures r.Ok? && stage == AuctionEnded && r.value.accepted > 0 ==>
                final_price == PriceCurve(multiplier, price_factor, price_const, now - start_time)
      ensures r.Ok? && stage != AuctionEnded ==> stage == AuctionStarted && end_time == 0 && final_price == 0
    {
      if tokens_auctioned == 0 {
        return Err(NothingMissing);
      }
      var missing := Missing(now);
      var accepted := Min(amount, missing);
      var price := PriceCurve(multiplier, price_factor, price_const, now - start_time);
      if accepted > 0 {
        Record(caller, accepted);
      }
      if accepted == missing {
        CloseReserve(now, price);
      }
      assert price == PriceCurve(multiplier, price_factor, price_const, now - start_time);
      return Ok(BidReceipt(accepted, amount - accepted));
    }

    /** finalizeAuction (funds variant only; private in the reserve variant): owner only,
        while started, once nothing is missing. Freezes the final price: the balance per
        whole token, raised to the least price at which the balance's claim fits the
        supply when that quotient would over-allot. */
    method FinalizeAuction(caller: Principal, now: nat) returns (r: Outcome)
      requires Valid() && start_time <= now && variant == Funds
      modifies this`stage, this`end_time, this`final_price
      ensures Valid()
      ensures r == (if caller != owner then Fail(PermissionDenied)
                    else if old(stage) != AuctionStarted then Fail(InvalidStage)
                    else if old(Missing(now)) > 0 then Fail(FundsStillMissing)
                    else if tokens_auctioned / multiplier == 0 then Fail(NoWholeToken)
                    else Pass)
      ensures r.Pass? ==> stage == AuctionEnded && end_time == now
      ensures r.Pass? ==> final_price == FundsFinalPrice(balance, tokens_auctioned, multiplier)
      ensures r.Fail? ==> unchanged(this)
    {
      if caller != owner {
        return Fail(PermissionDenied);
      }
      if stage != AuctionStarted {
        return Fail(InvalidStage);
      }
      if Missing(now) > 0 {
        return Fail(FundsStillMissing);
      }
      if tokens_auctioned / multiplier == 0 {
        return Fail(NoWholeToken);
      }
      var price := FundsFinalPrice(balance, tokens_auctioned, multiplier);
      Close(now, price);
      return Pass;
    }

    /** The end of the auction: the end time is recorded and the final price frozen. At
        that price the collected balance must claim at most the auctioned supply. */
    method Close(now: nat, price: nat)
      requires Valid() && stage == AuctionStarted && start_time <= now
      requires price > 0 && FitsSupply(balance, tokens_auctioned, multiplier, price)
      modifies this`stage, this`end_time, this`final_price
      ensures Valid() && stage == AuctionEnded && end_time == now && final_price == price
    {
      TotalInNone(bids, bidders);
      ClaimedNone(bids, bidders, multiplier, price);
      assert tokens_of.Keys == {};
      end_time, final_price, stage := now, price, AuctionEnded;
    }

    /** The end of a reserve auction at curve price `price`: the final price is that price
        exactly when the balance's claim at it fits the supply, in particular when the
        balance is exactly its target; otherwise it is the least price that fits. */
    method CloseReserve(now: nat, price: nat)
      requires Valid() && stage == AuctionStarted && start_time <= now && price > 0 && tokens_auctioned > 0
      modifies this`stage, this`end_time, this`final_price
      ensures Valid() && stage == AuctionEnded && end_time == now
      ensures final_price == FittedPrice(price, balance, tokens_auctioned, multiplier) >= price
      ensures final_price == price <==> FitsSupply(balance, tokens_auctioned, multiplier, price)
      ensures balance == Target(price, tokens_auctioned, multiplier) ==> final_price == price
    {
      if balance == Target(price, tokens_auctioned, multiplier) {
        FittedPriceAtTarget(price, tokens_auctioned, multiplier);
      }
      Close(now, FittedPrice(price, balance, tokens_auctioned, multiplier));
    }

    /** claimTokens: once per bidder after the end. Transfers bid * multiplier // final_price
        token units; the claim that completes the set moves the whole balance out (to the
        owner in the funds variant, to the token contract in the reserve variant) and
        starts trading. The truncation remainder stays on the auction's token balance. */
    method ClaimTokens(caller: Principal) returns (r: Result<nat>)
      requires Valid()
      modifies this`auction_tokens, this`tokens_of, this`funds_claimed, this`stage
      modifies this`balance, this`owner_proceeds, this`token_reserve
      ensures Valid()
      ensures old(stage) != AuctionEnded ==> r == Err(InvalidStage)
      ensures old(stage) == AuctionEnded && caller !in bids ==> r == Err(NoBid)
      ensures old(stage) == AuctionEnded && caller in bids && caller in old(tokens_of) ==> r == Err(AlreadyClaimed)
      ensures r.Ok? <==> old(stage) == AuctionEnded && caller in bids && caller !in old(tokens_of)
      ensures r.Ok? ==> final_price > 0 && r.value == ClaimableTokens(bids[caller], multiplier, final_price)
      ensures r.Ok? ==> auction_tokens == old(auction_tokens) - r.value
      ensures r.Ok? ==> tokens_of == old(tokens_of)[caller := r.value]
      ensures r.Ok? ==> funds_claimed == old(funds_claimed) + bids[caller]
      ensures r.Ok? ==> (stage == TradingStarted <==> tokens_of.Keys == bids.Keys)
      ensures r.Ok? && stage == TradingStarted ==>
                && balance == 0
                && owner_proceeds == (if variant == Funds then old(balance) else 0)
                && token_reserve == (if variant == Reserve then old(balance) else 0)
      ensures r.Ok? && stage != TradingStarted ==>
                stage == AuctionEnded && balance == old(balance)
                && owner_proceeds == old(owner_proceeds) && token_reserve == old(token_reserve)
      ensures r.Err? ==> unchanged(this)
    {
      if stage != AuctionEnded {
        return Err(InvalidStage);
      }
      if caller !in bids {
        return Err(NoBid);
      }
      if caller in tokens_of {
        return Err(AlreadyClaimed);
      }
      var num := Claim(caller);
      return Ok(num);
    }

    /** A claim that passed the checks: pays the caller and, when it is the last one,
        starts trading. */
    method Claim(caller: Principal) returns (num: nat)
      requires Valid() && stage == AuctionEnded && caller in bids && caller !in tokens_of
      modifies this`auction_tokens, this`tokens_of, this`funds_claimed, this`stage
      modifies this`balance, this`owner_proceeds, this`token_reserve
      ensures Valid()
      ensures final_price > 0 && num == ClaimableTokens(bids[caller], multiplier, final_price)
      ensures auction_tokens == old(auction_tokens) - num
      ensures tokens_of == old(tokens_of)[caller := num]
      ensures funds_claimed == old(funds_claimed) + bids[caller]
      ensures stage == TradingStarted <==> tokens_of.Keys == bids.Keys
      ensures stage == TradingStarted ==>
                && balance == 0
                && owner_proceeds == (if variant == Funds then old(balance) else 0)
                && token_reserve == (if variant == Reserve then old(balance) else 0)
      ensures stage != TradingStarted ==>
                stage == AuctionEnded && balance == old(balance)
                && owner_proceeds == old(owner_proceeds) && token_reserve == old(token_reserve)
    {
      num := Pay(caller);
      if funds_claimed == balance {
        StartTrading();
      }
    }

    /** The transfer of one claim: `caller`'s token units leave the auction's balance and
        the caller joins the claimers. */
    method Pay(caller: Principal) returns (num: nat)
      requires Valid() && stage == AuctionEnded && caller in bids && caller !in tokens_of
      modifies this`auction_tokens, this`tokens_of, this`funds_claimed
      ensures Valid()
      ensures final_price > 0 && num == ClaimableTokens(bids[caller], multiplier, final_price)
      ensures auction_tokens == old(auction_tokens) - num
      ensures tokens_of == old(tokens_of)[caller := num]
      ensures funds_claimed == old(funds_claimed) + bids[caller]
      ensures funds_claimed == balance <==> tokens_of.Keys == bids.Keys
    {
      ClaimKeeps(bids, bidders, tokens_of, funds_claimed, auction_tokens, caller,
                 start_time, end_time, multiplier, tokens_auctioned, final_price);
      num := ClaimableTokens(bids[caller], multiplier, final_price);
      auction_tokens := auction_tokens - num;
      tokens_of := tokens_of[caller := num];
      funds_claimed := funds_claimed + bids[caller];
    }

    /** The settlement round: each of `claimers` claims in turn and receives its truncated
        share; earlier claims stay as they were. Together the claims move exactly the sum of
        those shares off the auction's token balance, which is below the exact share of the
        claimers' total by less than one token unit per claimer, and add their bids to the
        claimed funds; once everyone has claimed, trading starts and the auction holds no value. */
    method ClaimAll(claimers: seq<Principal>)
      requires Valid() && stage == AuctionEnded
      requires Covers(bids, claimers) && Distinct(claimers) && Listed(claimers) !! tokens_of.Keys
      modifies this`auction_tokens, this`tokens_of, this`funds_claimed, this`stage
      modifies this`balance, this`owner_proceeds, this`token_reserve
      ensures Valid() && final_price > 0
      ensures tokens_of == old(tokens_of) + Payouts(bids, claimers, multiplier, final_price)
      ensures forall p :: p in Listed(claimers) ==>
                p in bids && p in tokens_of && tokens_of[p] == ClaimableTokens(bids[p], multiplier, final_price)
      ensures forall p :: p in old(tokens_of) ==> p in tokens_of && tokens_of[p] == old(tokens_of)[p]
      ensures tokens_of.Keys == old(tokens_of.Keys) + Listed(claimers)
      ensures auction_tokens == old(auction_tokens) - ClaimableTotal(bids, claimers, multiplier, final_price)
      ensures (old(auction_tokens) - auction_tokens) * final_price <= Total(bids, claimers) * multiplier
      ensures Total(bids, claimers) * multiplier
                <= (old(auction_tokens) - auction_tokens) * final_price + |claimers| * (final_price - 1)
      ensures funds_claimed == old(funds_claimed) + Total(bids, claimers)
      ensures claimers != [] ==> (stage == TradingStarted <==> tokens_of.Keys == bids.Keys)
      ensures stage == TradingStarted ==> balance == 0
    {
      ClaimInTurn(claimers);
      Settlement(old(tokens_of), tokens_of, old(auction_tokens) - auction_tokens,
                 bids, claimers, multiplier, final_price);
    }

    /** The claims of the settlement round, one after the other: the paid-out mapping grows
        by the claimers' shares, the token balance drops by their sum and the claimed funds
        rise by their bids. */
    method ClaimInTurn(claimers: seq<Principal>)
      requires Valid() && stage == AuctionEnded
      requires Covers(bids, claimers) && Distinct(claimers) && Listed(claimers) !! tokens_of.Keys
      modifies this`auction_tokens, this`tokens_of, this`funds_claimed, this`stage
      modifies this`balance, this`owner_proceeds, this`token_reserve
      ensures Valid() && final_price > 0
      ensures tokens_of == old(tokens_of) + Payouts(bids, claimers, multiplier, final_price)
      ensures auction_tokens == old(auction_tokens) - ClaimableTotal(bids, claimers, multiplier, final_price)
      ensures funds_claimed == old(funds_claimed) + Total(bids, claimers)
      ensures claimers != [] ==> (stage == TradingStarted <==> tokens_of.Keys == bids.Keys)
      ensures stage == TradingStarted ==> balance == 0
    {
      ghost var tokensOf0, auctionTokens0, fundsClaimed0 := tokens_of, auction_tokens, funds_claimed;
      var i := 0;
      while i < |claimers|
        invariant 0 <= i <= |claimers|
        invariant Valid() && final_price > 0
        invariant stage == AuctionEnded || (stage == TradingStarted && tokens_of.Keys == bids.Keys && balance == 0)
        invariant i > 0 ==> (stage == TradingStarted <==> tokens_of.Keys == bids.Keys)
        invariant Covers(bids, claimers[..i])
        invariant tokens_of == tokensOf0 + Payouts(bids, claimers[..i], multiplier, final_price)
        invariant auction_tokens == auctionTokens0 - ClaimableTotal(bids, claimers[..i], multiplier, final_price)
        invariant funds_claimed == fundsClaimed0 + Total(bids, claimers[..i])
      {
        ClaimNext(claimers, i, tokensOf0, auctionTokens0, fundsClaimed0);
        i := i + 1;
      }
      assert claimers[..i] == claimers;
    }

    /** One round of settlement: the next of `claimers`, who has not claimed yet, claims and
        receives its truncated share. Relative to the state before the round, the paid-out
        mapping, the token balance and the claimed funds each take one more claimer into account. */
    method ClaimNext(claimers: seq<Principal>, i: nat, ghost tokensOf0: map<Principal, nat>, ghost auctionTokens0: int,
                     ghost fundsClaimed0: nat)
      requires Valid() && final_price > 0 && i < |claimers|
      requires stage == AuctionEnded || (stage == TradingStarted && tokens_of.Keys == bids.Keys)
      requires Covers(bids, claimers) && Distinct(claimers) && Listed(claimers) !! tokensOf0.Keys
      requires Covers(bids, claimers[..i])
      requires tokens_of == tokensOf0 + Payouts(bids, claimers[..i], multiplier, final_price)
      requires auction_tokens == auctionTokens0 - ClaimableTotal(bids, claimers[..i], multiplier, final_price)
      requires funds_claimed == fundsClaimed0 + Total(bids, claimers[..i])
      modifies this`auction_tokens, this`tokens_of, this`funds_claimed, this`stage
      modifies this`balance, this`owner_proceeds, this`token_reserve
      ensures Valid() && final_price > 0
      ensures stage == AuctionEnded || (stage == TradingStarted && tokens_of.Keys == bids.Keys && balance == 0)
      ensures stage == TradingStarted <==> tokens_of.Keys == bids.Keys
      ensures claimers[i] in bids && claimers[i] !in old(tokens_of)
      ensures tokens_of == old(tokens_of)[claimers[i] := ClaimableTokens(bids[claimers[i]], multiplier, final_price)]
      ensures Covers(bids, claimers[..i + 1])
      ensures tokens_of == tokensOf0 + Payouts(bids, claimers[..i + 1], multiplier, final_price)
      ensures auction_tokens == auctionTokens0 - ClaimableTotal(bids, claimers[..i + 1], multiplier, final_price)
      ensures funds_claimed == fundsClaimed0 + Total(bids, claimers[..i + 1])
    {
      var c := claimers[i];
      PrefixStep(bids, claimers, i, multiplier, final_price);
      PayoutsStep(tokensOf0, bids, claimers, i, multiplier, final_price);
      ListedMember(claimers, c);
      assert c in bids.Keys - tokens_of.Keys;
      var _ := Claim(c);
    }

    /** The claim that completes the set: the whole balance leaves the auction, to the
        owner in the funds variant and to the token contract in the reserve variant. */
    method StartTrading()
      requires Valid() && stage == AuctionEnded && tokens_of.Keys == bids.Keys
      modifies this`stage, this`balance, this`owner_proceeds, this`token_reserve
      ensures Valid() && stage == TradingStarted && balance == 0
      ensures owner_proceeds == (if variant == Funds then old(balance) else 0)
      ensures token_reserve == (if variant == Reserve then old(balance) else 0)
    {
      TotalInIsTotalIff(bids, bidders, tokens_of.Keys);
      stage := TradingStarted;
      if variant == Funds {
        owner_proceeds := balance;
      } else {
        token_reserve := balance;
      }
      balance := 0;
    }
  }
}
