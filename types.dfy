/** Values shared by the auction model: principals, stages, errors and results. */
module AuctionTypes {

  /** An opaque account identity (an address on the host chain). */
  type Principal = nat

  /** The auction's life cycle. Stages only move forward. */
  datatype Stage = AuctionDeployed | AuctionSetUp | AuctionStarted | AuctionEnded | TradingStarted
  {
    /** The number the contract reports for `stage()`; code 4 is never entered by either variant. */
    function Code(): (c: nat)
      ensures c <= 5 && c != 4
    {
      match this
      case AuctionDeployed => 0
      case AuctionSetUp => 1
      case AuctionStarted => 2
      case AuctionEnded => 3
      case TradingStarted => 5
    }

    /** True once the auction has ended (stages 3 and 5). */
    predicate HasEnded() {
      this == AuctionEnded || this == TradingStarted
    }
  }

  /** The two pinned behaviours of the contract.
      Funds: an overshooting bid fails and the owner ends the auction explicitly.
      Reserve: an overshooting bid is clipped and refunded, and the bid that reaches the target ends it. */
  datatype Variant = Funds | Reserve

  /** Why an operation failed; a failed operation changes nothing. */
  datatype Error =
    | ZeroParameter        // a zero price factor or price constant
    | PermissionDenied     // caller is not the owner
    | InvalidStage         // the operation is not allowed in the current stage
    | ForeignToken         // the token was not issued by the auction's owner
    | ZeroBid              // a bid carrying no value
    | ExceedsMissingFunds  // funds variant: the bid is larger than what is missing
    | NothingMissing       // reserve variant: the target is already reached
    | FundsStillMissing    // finalize while the target is not reached
    | NoWholeToken         // fewer than one whole token auctioned: the price divisor is zero
    | NoBid                // claim by a principal that never bid
    | AlreadyClaimed       // second claim by the same principal

  datatype Option<+T> = None | Some(value: T)

  datatype Outcome = Pass | Fail(error: Error)

  datatype Result<+T> = Ok(value: T) | Err(error: Error)

  /** What `setup` reads from the token contract: who deployed it, the balance it
      credited to the auction, and its number of decimals. */
  datatype Token = Token(issuer: Principal, auction_balance: nat, decimals: nat)

  /** The effect of a successful bid: what the auction kept and what went back to the bidder. */
  datatype BidReceipt = BidReceipt(accepted: nat, refund: nat)
}
