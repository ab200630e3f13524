/** The auction's integer arithmetic: the decaying price curve, the funding target,
    the final price and each bidder's token allotment. All division truncates. */
module Pricing {

  /** 10^decimals, the number of token units in one whole token. */
  function Pow10(decimals: nat): (r: nat)
    ensures r >= 1
    ensures decimals > 0 ==> r % 10 == 0
  {
    if decimals == 0 then 1 else 10 * Pow10(decimals - 1)
  }

  /** Price (value units per whole token) `elapsed` seconds after the start:
      multiplier * factor // (elapsed + const) + 1. The result is one more than
      the truncated quotient, so it is never zero. */
  function PriceCurve(multiplier: nat, factor: nat, pconst: nat, elapsed: nat): (p: nat)
    requires pconst > 0
    ensures p >= 1
    ensures (p - 1) * (elapsed + pconst) <= multiplier * factor < p * (elapsed + pconst)
  {
    var p := multiplier * factor / (elapsed + pconst) + 1;
    AboveQuotient(multiplier * factor, elapsed + pconst, p);
    p
  }

  /** One more than the truncated quotient: (p - 1) * d <= a < p * d for p = a / d + 1. */
  lemma AboveQuotient(a: nat, d: nat, p: nat)
    requires d > 0 && p == a / d + 1
    ensures (p - 1) * d <= a < p * d
  {
    DivBounds(a, d, p - 1);
  }

  /** The truncated quotient: q * d <= a < (q + 1) * d for q = a / d. */
  lemma DivBounds(a: nat, d: nat, q: nat)
    requires d > 0 && q == a / d
    ensures q * d <= a < (q + 1) * d
  {
    var r := a % d;
    assert a == q * d + r;
    assert (q + 1) * d == q * d + d;
  }

  /** Multiplying by the same factor keeps the order. */
  lemma MulMono(x: nat, y: nat, c: nat)
    ensures x <= y ==> x * c <= y * c
  {
  }

  /** A common positive factor can be cancelled from x * c <= y * c. */
  lemma MulCancel(x: nat, y: nat, c: nat)
    requires c > 0 && x * c <= y * c
    ensures x <= y
  {
    MulMono(y + 1, x, c);
    assert (y + 1) * c == y * c + c;
  }

  /** q * d <= a forces q to be at most the truncated quotient a / d. */
  lemma QuotientIsLargest(a: nat, d: nat, q: nat)
    requires d > 0 && q * d <= a
    ensures q <= a / d
  {
    var r := a / d;
    assert a < (r + 1) * d;
    MulMono(r + 1, q, d);
  }

  /** Multiplying the same number by a larger factor gives a larger product. */
  lemma MulMonoLeft(k: nat, x: nat, y: nat)
    ensures x <= y ==> k * x <= k * y
  {
  }

  /** The price never rises while time passes. */
  lemma PriceNonIncreasing(multiplier: nat, factor: nat, pconst: nat, e1: nat, e2: nat)
    requires pconst > 0 && e1 <= e2
    ensures PriceCurve(multiplier, factor, pconst, e2) <= PriceCurve(multiplier, factor, pconst, e1)
  {
    var a := multiplier * factor;
    var q2 := a / (e2 + pconst);
    assert q2 * (e2 + pconst) <= a;
    MulMonoLeft(q2, e1 + pconst, e2 + pconst);
    QuotientIsLargest(a, e1 + pconst, q2);
  }

  /** When const divides multiplier * factor (the tests' "fast decline" settings
      factor 2, const = multiplier are such a case), any elapsed time strictly lowers
      the price below the initial price. */
  lemma PriceDropsAfterStart(multiplier: nat, factor: nat, pconst: nat, elapsed: nat)
    requires pconst > 0 && elapsed > 0
    requires multiplier * factor >= pconst && (multiplier * factor) % pconst == 0
    ensures PriceCurve(multiplier, factor, pconst, elapsed) < PriceCurve(multiplier, factor, pconst, 0)
  {
    var a := multiplier * factor;
    var q0 := a / pconst;
    var q := a / (elapsed + pconst);
    assert a == q0 * pconst;
    MulMono(q0, 0, pconst);
    assert q * (elapsed + pconst) <= a;
    SmallerQuotient(a, pconst, elapsed, q0, q);
  }

  /** If a == q0 * c exactly, no q with q * (c + e) <= a reaches q0 once e > 0. */
  lemma SmallerQuotient(a: nat, c: nat, e: nat, q0: nat, q: nat)
    requires c > 0 && e > 0 && q0 > 0
    requires a == q0 * c && q * (c + e) <= a
    ensures q < q0
  {
    MulAddRight(q0, c, e);
    MulPos(q0, e);
    MulMono(q0, q, c + e);
  }

  /** Multiplication distributes over a sum on the right. */
  lemma MulAddRight(x: nat, y: nat, z: nat)
    ensures x * (y + z) == x * y + x * z
  {
  }

  /** A product of positive numbers is positive. */
  lemma MulPos(x: nat, y: nat)
    ensures x > 0 && y > 0 ==> x * y > 0
  {
  }

  /** A value at most price * tokens claims at most the supply at that price. */
  lemma ProductFits(x: nat, price: nat, tokens: nat)
    requires price > 0 && x <= price * tokens
    ensures x < (tokens + 1) * price
  {
    assert (tokens + 1) * price == tokens * price + price;
  }

  /** c * p <= n * p < (c + 1) * p pins c to n. */
  lemma ExactClaim(c: nat, n: nat, p: nat)
    requires p > 0 && c * p <= n * p < (c + 1) * p
    ensures c == n
  {
    MulCancel(c, n, p);
    MulMono(c + 1, n, p);
  }

  /** A division without remainder multiplies back. */
  lemma DivExact(a: nat, d: nat)
    requires d > 0 && a % d == 0
    ensures (a / d) * d == a
  {
  }

  /** The value needed to buy every auctioned token unit at `price`:
      price * tokens // multiplier. */
  function Target(price: nat, tokens: nat, multiplier: nat): (t: nat)
    requires multiplier > 0
    ensures t * multiplier <= price * tokens < (t + 1) * multiplier
  {
    var a := price * tokens;
    var q := a / multiplier;
    DivBounds(a, multiplier, q);
    q
  }

  /** The value still missing before `balance` reaches the target; zero once it is reached. */
  function MissingFunds(price: nat, tokens: nat, multiplier: nat, balance: nat): (r: nat)
    requires multiplier > 0
    ensures r == 0 <==> balance >= Target(price, tokens, multiplier)
    ensures r > 0 ==> balance + r == Target(price, tokens, multiplier)
  {
    var t := Target(price, tokens, multiplier);
    if t > balance then t - balance else 0
  }

  /** Token units a bid of `bid` value receives at `finalPrice`: bid * multiplier // finalPrice. */
  function ClaimableTokens(bid: nat, multiplier: nat, finalPrice: nat): (r: nat)
    requires finalPrice > 0
    ensures r * finalPrice <= bid * multiplier < (r + 1) * finalPrice
  {
    var a := bid * multiplier;
    var q := a / finalPrice;
    DivBounds(a, finalPrice, q);
    q
  }

  /** The funds variant's final price as the source computes it:
      balance // (tokens // multiplier), the balance per whole token rounded down. */
  function FundsFinalPriceAsWritten(balance: nat, tokens: nat, multiplier: nat): (r: nat)
    requires multiplier > 0 && tokens / multiplier > 0
    ensures r * (tokens / multiplier) <= balance < (r + 1) * (tokens / multiplier)
  {
    var k := tokens / multiplier;
    var q := balance / k;
    DivBounds(balance, k, q);
    q
  }

  /** At `price`, the whole balance claims at most the auctioned token units:
      balance * multiplier // price <= tokens, stated without the division. */
  predicate FitsSupply(balance: nat, tokens: nat, multiplier: nat, price: nat) {
    balance * multiplier < (tokens + 1) * price
  }

  /** FitsSupply says exactly that the balance's truncated claim is within the supply. */
  lemma FitsSupplyIff(balance: nat, tokens: nat, multiplier: nat, price: nat)
    requires price > 0
    ensures FitsSupply(balance, tokens, multiplier, price) <==> ClaimableTokens(balance, multiplier, price) <= tokens
  {
    var c := ClaimableTokens(balance, multiplier, price);
    if c <= tokens {
      MulMono(c + 1, tokens + 1, price);
    } else {
      MulMono(tokens + 1, c, price);
    }
  }

  /** A higher price only lowers the claim. */
  lemma FitsSupplyMono(balance: nat, tokens: nat, multiplier: nat, p: nat, q: nat)
    requires p <= q && FitsSupply(balance, tokens, multiplier, p)
    ensures FitsSupply(balance, tokens, multiplier, q)
  {
    MulMono(p, q, tokens + 1);
  }

  /** The least price at which the balance's claim fits the supply:
      balance * multiplier // (tokens + 1) + 1. */
  function LeastFittingPrice(balance: nat, tokens: nat, multiplier: nat): (r: nat)
    ensures r >= 1 && FitsSupply(balance, tokens, multiplier, r)
    ensures !FitsSupply(balance, tokens, multiplier, r - 1)
  {
    var p := balance * multiplier / (tokens + 1) + 1;
    AboveQuotient(balance * multiplier, tokens + 1, p);
    p
  }

  /** Every fitting price is at least the least one. */
  lemma LeastFittingPriceIsLeast(balance: nat, tokens: nat, multiplier: nat, q: nat)
    requires FitsSupply(balance, tokens, multiplier, q)
    ensures q >= LeastFittingPrice(balance, tokens, multiplier)
  {
    var r := LeastFittingPrice(balance, tokens, multiplier);
    if q < r {
      FitsSupplyMono(balance, tokens, multiplier, q, r - 1);
    }
  }

  /** A final price no lower than `floor` at which the balance's claim fits the supply:
      `floor` itself when it fits, otherwise the least price that fits. */
  function FittedPrice(floor: nat, balance: nat, tokens: nat, multiplier: nat): (r: nat)
    ensures r >= floor && r >= 1 && FitsSupply(balance, tokens, multiplier, r)
    ensures r == floor <==> FitsSupply(balance, tokens, multiplier, floor)
    ensures r > floor ==> !FitsSupply(balance, tokens, multiplier, r - 1)
  {
    var l := LeastFittingPrice(balance, tokens, multiplier);
    if FitsSupply(balance, tokens, multiplier, floor) then
      LeastFittingPriceIsLeast(balance, tokens, multiplier, floor);
      floor
    else
      assert l > floor by {
        if l <= floor {
          FitsSupplyMono(balance, tokens, multiplier, l, floor);
        }
      }
      l
  }

  /** The funds variant's final price as the model computes it: the source's price when
      the balance's claim at it fits the supply, otherwise the least price that fits. */
  function FundsFinalPrice(balance: nat, tokens: nat, multiplier: nat): (r: nat)
    requires multiplier > 0 && tokens / multiplier > 0
    ensures r >= FundsFinalPriceAsWritten(balance, tokens, multiplier) && r > 0
    ensures FitsSupply(balance, tokens, multiplier, r)
  {
    FittedPrice(FundsFinalPriceAsWritten(balance, tokens, multiplier), balance, tokens, multiplier)
  }

  /** A reserve auction that ends with its balance exactly on the target keeps the
      curve price: at that price the target's claim fits the supply. */
  lemma FittedPriceAtTarget(price: nat, tokens: nat, multiplier: nat)
    requires price > 0 && multiplier > 0
    ensures FittedPrice(price, Target(price, tokens, multiplier), tokens, multiplier) == price
  {
    var t := Target(price, tokens, multiplier);
    assert price * tokens < price * (tokens + 1);
  }

  /** At the corrected price the collected balance claims at most the auctioned units. */
  lemma FundsFinalPriceCoversSupply(balance: nat, tokens: nat, multiplier: nat)
    requires multiplier > 0 && tokens / multiplier > 0
    ensures ClaimableTokens(balance, multiplier, FundsFinalPrice(balance, tokens, multiplier)) <= tokens
  {
    FitsSupplyIff(balance, tokens, multiplier, FundsFinalPrice(balance, tokens, multiplier));
  }

  /** The corrected price is the source's price exactly when the balance's claim at the
      source's price fits the supply; in particular whenever the whole-token count
      divides a positive balance, as in the tests' own scenarios. */
  lemma FundsFinalPriceMatchesAsWritten(balance: nat, tokens: nat, multiplier: nat)
    requires multiplier > 0 && tokens / multiplier > 0
    ensures FundsFinalPriceAsWritten(balance, tokens, multiplier) > 0 ==>
              (FundsFinalPrice(balance, tokens, multiplier) == FundsFinalPriceAsWritten(balance, tokens, multiplier)
               <==> ClaimableTokens(balance, multiplier, FundsFinalPriceAsWritten(balance, tokens, multiplier)) <= tokens)
    ensures balance > 0 && balance % (tokens / multiplier) == 0 ==>
              FundsFinalPrice(balance, tokens, multiplier) == FundsFinalPriceAsWritten(balance, tokens, multiplier)
  {
    var w := FundsFinalPriceAsWritten(balance, tokens, multiplier);
    if w > 0 {
      FitsSupplyIff(balance, tokens, multiplier, w);
    }
    if balance > 0 && balance % (tokens / multiplier) == 0 {
      WrittenFitsWhenDivides(balance, tokens, multiplier);
    }
  }

  /** When the whole-token count k divides a positive balance, the balance is w * k for
      the source's price w, and it claims w * k * multiplier // w <= tokens units. */
  lemma WrittenFitsWhenDivides(balance: nat, tokens: nat, multiplier: nat)
    requires multiplier > 0 && tokens / multiplier > 0
    requires balance > 0 && balance % (tokens / multiplier) == 0
    ensures FitsSupply(balance, tokens, multiplier, FundsFinalPriceAsWritten(balance, tokens, multiplier))
  {
    var k := tokens / multiplier;
    var w := FundsFinalPriceAsWritten(balance, tokens, multiplier);
    DivExact(balance, k);
    assert w * k == balance;
    DivBounds(tokens, multiplier, k);
    assert balance * multiplier == w * (k * multiplier);
    MulMonoLeft(w, k * multiplier, tokens);
    ProductFits(balance * multiplier, w, tokens);
  }

  /** In the tests' setting (the supply is a whole number of tokens and the whole-token
      count divides the positive balance), the balance at the final price claims exactly
      the auctioned supply, so only the per-bidder truncation can leave units behind. */
  lemma FundsFinalPriceClaimsSupply(balance: nat, tokens: nat, multiplier: nat)
    requires multiplier > 0 && tokens / multiplier > 0 && tokens % multiplier == 0
    requires balance > 0 && balance % (tokens / multiplier) == 0
    ensures ClaimableTokens(balance, multiplier, FundsFinalPrice(balance, tokens, multiplier)) == tokens
  {
    var k := tokens / multiplier;
    var w := FundsFinalPriceAsWritten(balance, tokens, multiplier);
    FundsFinalPriceMatchesAsWritten(balance, tokens, multiplier);
    DivExact(tokens, multiplier);
    DivExact(balance, k);
    assert w * k == balance;
    assert w > 0;
    assert balance * multiplier == tokens * w by {
      assert balance * multiplier == w * (k * multiplier);
    }
    ExactClaim(ClaimableTokens(balance, multiplier, w), tokens, w);
  }

  /** The scenario behind the as-written funds price's over-allotment, with multiplier 10,
      100 token units, factor 100 and const 10. At elapsed 85 the price is 11 and the
      target 110, so a single bid of 105 is admitted. */
  lemma OverAllotmentBidAdmitted()
    ensures PriceCurve(10, 100, 10, 85) == 11 && MissingFunds(11, 100, 10, 0) == 110
  {
    assert 1000 / 95 == 10;
    assert Target(11, 100, 10) == 110;
  }

  /** At elapsed 95 the price is 10 and the target 100, so the 105 collected leave
      nothing missing and the owner may finalize. */
  lemma OverAllotmentTargetMet()
    ensures PriceCurve(10, 100, 10, 95) == 10 && MissingFunds(10, 100, 10, 105) == 0
  {
    assert 1000 / 105 == 9;
    assert Target(10, 100, 10) == 100;
  }

  /** Finalizing there, the as-written price is 105 // 10 = 10 and the bidder's claim is
      105 token units, five more than were auctioned; the corrected price is 11 and the
      claim 95 units. */
  lemma FundsFinalPriceAsWrittenOverAllots()
    ensures FundsFinalPriceAsWritten(105, 100, 10) == 10
    ensures ClaimableTokens(105, 10, FundsFinalPriceAsWritten(105, 100, 10)) == 105 > 100
    ensures FundsFinalPrice(105, 100, 10) == 11 && ClaimableTokens(105, 10, 11) == 95
  {
  }

  /** A scenario where the source's price is already safe, with multiplier 10, 100 token
      units, factor 11 and const 10: a bid of 111 is admitted at elapsed 0 (price 12,
      target 120), and at elapsed 1 the price is 11, the target 110 and nothing is missing.
      The source's price 111 // 10 = 11 lets the bidder claim exactly the 100 units, and
      the corrected price keeps it. */
  lemma FundsFinalPriceKeepsSafeWritten()
    ensures PriceCurve(10, 11, 10, 0) == 12 && MissingFunds(12, 100, 10, 0) == 120
    ensures PriceCurve(10, 11, 10, 1) == 11 && MissingFunds(11, 100, 10, 111) == 0
    ensures FundsFinalPriceAsWritten(111, 100, 10) == 11 == FundsFinalPrice(111, 100, 10)
    ensures ClaimableTokens(111, 10, 11) == 100
  {
    assert 110 / 10 == 11 && 110 / 11 == 10;
    assert Target(12, 100, 10) == 120 && Target(11, 100, 10) == 110;
    assert FitsSupply(111, 100, 10, 11);
  }

  /** Reserve variant, when the bid that meets the target ends the auction: the balance
      is the target at the current price and the final price is that price, so the balance
      claims at most the supply, and exactly the supply when the multiplier divides
      price * tokens. */
  lemma ReserveAllotment(price: nat, tokens: nat, multiplier: nat)
    requires price > 0 && multiplier > 0
    ensures FitsSupply(Target(price, tokens, multiplier), tokens, multiplier, price)
    ensures ClaimableTokens(Target(price, tokens, multiplier), multiplier, price) <= tokens
    ensures (price * tokens) % multiplier == 0 ==>
              ClaimableTokens(Target(price, tokens, multiplier), multiplier, price) == tokens
  {
    var t := Target(price, tokens, multiplier);
    ProductFits(t * multiplier, price, tokens);
    FitsSupplyIff(t, tokens, multiplier, price);
    if (price * tokens) % multiplier == 0 {
      DivExact(price * tokens, multiplier);
      var c := ClaimableTokens(t, multiplier, price);
      ExactClaim(c, tokens, price);
    }
  }
}
