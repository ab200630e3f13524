/** The contract's state invariants, stated on plain values. */
module Invariants {
  import opened AuctionTypes
  import opened Pricing
  import opened Ledger

  /** Parameters and times: positive price settings, the multiplier set exactly by setup,
      and nothing bid before the start. */
  ghost predicate ConfiguredInv(price_factor: nat, price_const: nat, stage: Stage, multiplier: nat, tokens_auctioned: nat, start_time: nat, start_block: nat, bidders: seq<Principal>)
  {
    && price_factor > 0 && price_const > 0
    && (stage == AuctionDeployed <==> multiplier == 0)
    && (stage == AuctionDeployed ==> tokens_auctioned == 0)
    && (stage == AuctionDeployed || stage == AuctionSetUp ==>
          start_time == 0 && start_block == 0 && bidders == [])
  }

  /** Before the end: no end time, no final price and nothing claimed or paid out. */
  ghost predicate PristineInv(end_time: nat, final_price: nat, tokens_of: map<Principal, nat>, funds_claimed: nat, auction_tokens: nat, tokens_auctioned: nat)
  {
    end_time == 0 && final_price == 0 && tokens_of == map[] && funds_claimed == 0 && auction_tokens == tokens_auctioned
  }

  /** The ledger: each bidder listed once, every listed bidder holds a positive bid,
      and only bidders claim. */
  ghost predicate LedgeredInv(bids: map<Principal, nat>, bidders: seq<Principal>, tokens_of: map<Principal, nat>)
  {
    && WellFormed(bids, bidders)
    && tokens_of.Keys <= bids.Keys
  }

  /** After the end: the final price is positive, the claimed funds are the claimers'
      bids, and at the frozen final price all bids together claim at most the auctioned
      supply. */
  ghost predicate SettlingInv(start_time: nat, end_time: nat, bids: map<Principal, nat>, bidders: seq<Principal>, funds_claimed: nat, claimed: set<Principal>, multiplier: nat, tokens_auctioned: nat, final_price: nat)
  {
    && start_time <= end_time && final_price > 0
    && Covers(bids, bidders)
    && funds_claimed == TotalIn(bids, bidders, claimed)
    && FitsSupply(Total(bids, bidders), tokens_auctioned, multiplier, final_price)
  }

  /** Before trading: the auction holds exactly the bids and has paid nothing out. */
  ghost predicate OpenInv(bids: map<Principal, nat>, bidders: seq<Principal>, balance: nat, owner_proceeds: nat, token_reserve: nat)
  {
    && Covers(bids, bidders)
    && balance == Total(bids, bidders) && owner_proceeds == 0 && token_reserve == 0
  }

  /** Trading: everyone has claimed and the whole balance went to the owner (funds
      variant) or to the token contract (reserve variant). */
  ghost predicate SettledInv(bids: map<Principal, nat>, bidders: seq<Principal>, balance: nat, claimed: set<Principal>, funds_claimed: nat, owner_proceeds: nat, token_reserve: nat, variant: Variant)
  {
    && Covers(bids, bidders)
    && balance == 0 && claimed == bids.Keys && funds_claimed == Total(bids, bidders)
    && owner_proceeds == (if variant == Funds then funds_claimed else 0)
    && token_reserve == (if variant == Reserve then funds_claimed else 0)
  }

  /** The payout: the units paid stay within the claimed funds' share; once the price is
      frozen, every claimer holds exactly its truncated share, and the token units paid to
      the claimers plus those the auction still holds make up the supply. */
  ghost predicate PaidInv(auction_tokens: nat, tokens_auctioned: nat, final_price: nat, funds_claimed: nat, multiplier: nat,
                          bids: map<Principal, nat>, bidders: seq<Principal>, tokens_of: map<Principal, nat>)
  {
    && auction_tokens <= tokens_auctioned
    && (tokens_auctioned - auction_tokens) * final_price <= funds_claimed * multiplier
    && (final_price > 0 ==>
          && Covers(bids, bidders)
          && PaidShares(tokens_of, bids, bidders, multiplier, final_price)
          && auction_tokens + ClaimedUnits(bids, bidders, tokens_of.Keys, multiplier, final_price) == tokens_auctioned)
  }
}
