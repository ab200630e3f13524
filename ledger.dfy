/** Sums over the bid ledger. The contract keeps `bids` as a mapping; the model also
    keeps the bidders in order of their first bid, so that sums are defined by
    recursion over that sequence. */
module Ledger {
  import opened AuctionTypes
  import opened Pricing

  /** No principal appears twice. */
  predicate Distinct(xs: seq<Principal>)
    decreases |xs|
  {
    xs == [] || (Distinct(xs[..|xs| - 1]) && xs[|xs| - 1] !in Listed(xs[..|xs| - 1]))
  }

  /** Every listed principal has a ledger entry. */
  predicate Covers(bids: map<Principal, nat>, xs: seq<Principal>)
    decreases |xs|
  {
    xs == [] || (Covers(bids, xs[..|xs| - 1]) && xs[|xs| - 1] in bids)
  }

  /** A consistent ledger: each principal listed once, exactly the principals with an
      entry are listed, and every entry is positive. */
  predicate WellFormed(bids: map<Principal, nat>, xs: seq<Principal>) {
    && Distinct(xs) && Covers(bids, xs)
    && bids.Keys == Listed(xs)
    && (forall p :: p in bids ==> bids[p] > 0)
  }

  /** The value a principal has bid so far (zero if none). */
  function BidOf(bids: map<Principal, nat>, p: Principal): nat {
    if p in bids then bids[p] else 0
  }

  /** The ledger after `k` adds `a` to its bid. */
  function AddBid(bids: map<Principal, nat>, k: Principal, a: nat): map<Principal, nat> {
    bids[k := BidOf(bids, k) + a]
  }

  /** The bidder list after `k` bids: a first bid appends `k`. */
  function Enrol(bids: map<Principal, nat>, xs: seq<Principal>, k: Principal): seq<Principal> {
    if k in bids then xs else xs + [k]
  }

  /** The set of listed principals. */
  function Listed(xs: seq<Principal>): (r: set<Principal>)
    decreases |xs|
  {
    if xs == [] then {} else Listed(xs[..|xs| - 1]) + {xs[|xs| - 1]}
  }

  /** A principal is in the set exactly when it occurs in the list. */
  lemma {:induction false} ListedMember(xs: seq<Principal>, p: Principal)
    ensures p in Listed(xs) <==> p in xs
  {
    if xs != [] {
      var init := xs[..|xs| - 1];
      ListedMember(init, p);
      assert xs == init + [xs[|xs| - 1]];
    }
  }

  /** Appending one principal adds it to the set. */
  lemma ListedAppend(xs: seq<Principal>, k: Principal)
    ensures Listed(xs + [k]) == Listed(xs) + {k}
  {
    assert (xs + [k])[..|xs|] == xs;
  }

  /** The value bid by the listed principals. */
  function Total(bids: map<Principal, nat>, xs: seq<Principal>): nat
    requires Covers(bids, xs)
    decreases |xs|
  {
    if xs == [] then 0 else Total(bids, xs[..|xs| - 1]) + bids[xs[|xs| - 1]]
  }

  /** The value bid by those listed principals that are in `who`. */
  function TotalIn(bids: map<Principal, nat>, xs: seq<Principal>, who: set<Principal>): nat
    requires Covers(bids, xs)
    decreases |xs|
  {
    if xs == [] then 0
    else TotalIn(bids, xs[..|xs| - 1], who) + (if xs[|xs| - 1] in who then bids[xs[|xs| - 1]] else 0)
  }

  /** The token units the listed principals receive at `finalPrice`. */
  function ClaimableTotal(bids: map<Principal, nat>, xs: seq<Principal>, multiplier: nat, finalPrice: nat): nat
    requires Covers(bids, xs) && finalPrice > 0
    decreases |xs|
  {
    if xs == [] then 0
    else ClaimableTotal(bids, xs[..|xs| - 1], multiplier, finalPrice)
         + ClaimableTokens(bids[xs[|xs| - 1]], multiplier, finalPrice)
  }

  /** The token units each listed principal receives at `finalPrice`, as a mapping. */
  function Payouts(bids: map<Principal, nat>, xs: seq<Principal>, multiplier: nat, finalPrice: nat): (r: map<Principal, nat>)
    requires Covers(bids, xs) && finalPrice > 0
    ensures r.Keys == Listed(xs)
    decreases |xs|
  {
    if xs == [] then map[]
    else
      var k := xs[|xs| - 1];
      Payouts(bids, xs[..|xs| - 1], multiplier, finalPrice)[k := ClaimableTokens(bids[k], multiplier, finalPrice)]
  }

  /** Every listed principal has a bid and is paid its truncated share of it. */
  lemma {:induction false} PayoutsMember(bids: map<Principal, nat>, xs: seq<Principal>, multiplier: nat, finalPrice: nat, p: Principal)
    requires Covers(bids, xs) && finalPrice > 0 && p in Listed(xs)
    ensures p in bids && Payouts(bids, xs, multiplier, finalPrice)[p] == ClaimableTokens(bids[p], multiplier, finalPrice)
    decreases |xs|
  {
    if p != xs[|xs| - 1] {
      PayoutsMember(bids, xs[..|xs| - 1], multiplier, finalPrice, p);
    }
  }

  /** Paying one more principal of the list extends the payouts by that principal's share. */
  lemma PayoutsStep(before: map<Principal, nat>, bids: map<Principal, nat>, xs: seq<Principal>, i: nat, multiplier: nat, finalPrice: nat)
    requires i < |xs| && Covers(bids, xs[..i]) && Covers(bids, xs[..i + 1]) && xs[i] in bids && finalPrice > 0
    ensures (before + Payouts(bids, xs[..i], multiplier, finalPrice))[xs[i] := ClaimableTokens(bids[xs[i]], multiplier, finalPrice)]
              == before + Payouts(bids, xs[..i + 1], multiplier, finalPrice)
  {
    assert xs[..i + 1][..i] == xs[..i];
  }

  /** The token units the listed principals that are in `who` receive at `finalPrice`. */
  function ClaimedUnits(bids: map<Principal, nat>, xs: seq<Principal>, who: set<Principal>, multiplier: nat, finalPrice: nat): nat
    requires Covers(bids, xs) && finalPrice > 0
    decreases |xs|
  {
    if xs == [] then 0
    else
      var k := xs[|xs| - 1];
      ClaimedUnits(bids, xs[..|xs| - 1], who, multiplier, finalPrice)
      + (if k in who then ClaimableTokens(bids[k], multiplier, finalPrice) else 0)
  }

  /** Every listed principal with an entry in `tokensOf` was paid its truncated share. */
  predicate PaidShares(tokensOf: map<Principal, nat>, bids: map<Principal, nat>, xs: seq<Principal>, multiplier: nat, finalPrice: nat)
    requires Covers(bids, xs) && finalPrice > 0
    decreases |xs|
  {
    xs == [] ||
    (&& PaidShares(tokensOf, bids, xs[..|xs| - 1], multiplier, finalPrice)
     && (xs[|xs| - 1] in tokensOf ==>
           tokensOf[xs[|xs| - 1]] == ClaimableTokens(bids[xs[|xs| - 1]], multiplier, finalPrice)))
  }

  /** Adding a new bidder at the end of the list adds that bidder's bid. */
  lemma TotalAppend(bids: map<Principal, nat>, xs: seq<Principal>, k: Principal)
    requires Covers(bids, xs) && k in bids
    ensures Covers(bids, xs + [k])
    ensures Total(bids, xs + [k]) == Total(bids, xs) + bids[k]
  {
    assert (xs + [k])[..|xs|] == xs;
  }

  /** Appending a principal not yet listed keeps the list free of repeats. */
  lemma DistinctAppend(xs: seq<Principal>, k: Principal)
    requires Distinct(xs) && k !in xs
    ensures Distinct(xs + [k])
  {
    ListedMember(xs, k);
    assert (xs + [k])[..|xs|] == xs;
  }

  /** Changing the entry of an unlisted principal leaves the sum alone. */
  lemma {:induction false} TotalFrame(bids: map<Principal, nat>, xs: seq<Principal>, k: Principal, v: nat)
    requires Covers(bids, xs) && k !in xs
    ensures Covers(bids[k := v], xs)
    ensures Total(bids[k := v], xs) == Total(bids, xs)
  {
    if xs != [] {
      TotalFrame(bids, xs[..|xs| - 1], k, v);
    }
  }

  /** Raising one listed principal's bid by `a` raises the sum by exactly `a`. */
  lemma {:induction false} TotalRaise(bids: map<Principal, nat>, xs: seq<Principal>, k: Principal, a: nat)
    requires Covers(bids, xs) && Distinct(xs) && k in xs && k in bids
    ensures Covers(bids[k := bids[k] + a], xs)
    ensures Total(bids[k := bids[k] + a], xs) == Total(bids, xs) + a
  {
    var init := xs[..|xs| - 1];
    var last := xs[|xs| - 1];
    if last == k {
      ListedMember(init, k);
      TotalFrame(bids, init, k, bids[k] + a);
    } else {
      assert k in init by {
        var i :| 0 <= i < |xs| && xs[i] == k;
        assert i < |xs| - 1;
        assert init[i] == k;
      }
      TotalRaise(bids, init, k, a);
    }
  }

  /** A positive bid keeps the ledger consistent and raises the total by exactly the bid. */
  lemma AddBidKeepsLedger(bids: map<Principal, nat>, xs: seq<Principal>, k: Principal, a: nat)
    requires WellFormed(bids, xs) && a > 0
    ensures WellFormed(AddBid(bids, k, a), Enrol(bids, xs, k))
    ensures Total(AddBid(bids, k, a), Enrol(bids, xs, k)) == Total(bids, xs) + a
  {
    ListedMember(xs, k);
    if k in bids {
      TotalRaise(bids, xs, k, a);
    } else {
      DistinctAppend(xs, k);
      TotalFrame(bids, xs, k, a);
      TotalAppend(bids[k := a], xs, k);
      ListedAppend(xs, k);
    }
  }

  /** Nobody has claimed yet: the claimed sum is zero. */
  lemma {:induction false} TotalInNone(bids: map<Principal, nat>, xs: seq<Principal>)
    requires Covers(bids, xs)
    ensures TotalIn(bids, xs, {}) == 0
  {
    if xs != [] {
      TotalInNone(bids, xs[..|xs| - 1]);
    }
  }

  /** A part never exceeds the whole. */
  lemma {:induction false} TotalInAtMostTotal(bids: map<Principal, nat>, xs: seq<Principal>, who: set<Principal>)
    requires Covers(bids, xs)
    ensures TotalIn(bids, xs, who) <= Total(bids, xs)
  {
    if xs != [] {
      TotalInAtMostTotal(bids, xs[..|xs| - 1], who);
    }
  }

  /** Adding one more listed principal to `who` adds exactly that principal's bid. */
  lemma {:induction false} TotalInAdd(bids: map<Principal, nat>, xs: seq<Principal>, who: set<Principal>, k: Principal)
    requires Covers(bids, xs) && Distinct(xs) && k in xs && k in bids && k !in who
    ensures TotalIn(bids, xs, who + {k}) == TotalIn(bids, xs, who) + bids[k]
  {
    var init := xs[..|xs| - 1];
    var last := xs[|xs| - 1];
    if last == k {
      ListedMember(init, k);
      TotalInOutside(bids, init, who, k);
    } else {
      assert k in init by {
        var i :| 0 <= i < |xs| && xs[i] == k;
        assert i < |xs| - 1;
        assert init[i] == k;
      }
      TotalInAdd(bids, init, who, k);
    }
  }

  /** Adding an unlisted principal to `who` changes nothing. */
  lemma {:induction false} TotalInOutside(bids: map<Principal, nat>, xs: seq<Principal>, who: set<Principal>, k: Principal)
    requires Covers(bids, xs) && k !in xs
    ensures TotalIn(bids, xs, who + {k}) == TotalIn(bids, xs, who)
  {
    if xs != [] {
      TotalInOutside(bids, xs[..|xs| - 1], who, k);
    }
  }

  /** Nobody has claimed yet: no units are claimed and every (absent) entry is right. */
  lemma {:induction false} ClaimedNone(bids: map<Principal, nat>, xs: seq<Principal>, multiplier: nat, finalPrice: nat)
    requires Covers(bids, xs) && finalPrice > 0
    ensures ClaimedUnits(bids, xs, {}, multiplier, finalPrice) == 0
    ensures PaidShares(map[], bids, xs, multiplier, finalPrice)
  {
    if xs != [] {
      ClaimedNone(bids, xs[..|xs| - 1], multiplier, finalPrice);
    }
  }

  /** Adding one more listed principal to `who` adds exactly that principal's share. */
  lemma {:induction false} ClaimedUnitsAdd(bids: map<Principal, nat>, xs: seq<Principal>, who: set<Principal>, k: Principal,
                                           multiplier: nat, finalPrice: nat)
    requires Covers(bids, xs) && Distinct(xs) && k in Listed(xs) && k in bids && k !in who && finalPrice > 0
    ensures ClaimedUnits(bids, xs, who + {k}, multiplier, finalPrice)
              == ClaimedUnits(bids, xs, who, multiplier, finalPrice) + ClaimableTokens(bids[k], multiplier, finalPrice)
    decreases |xs|
  {
    var init := xs[..|xs| - 1];
    if xs[|xs| - 1] == k {
      ClaimedUnitsOutside(bids, init, who, k, multiplier, finalPrice);
    } else {
      ClaimedUnitsAdd(bids, init, who, k, multiplier, finalPrice);
    }
  }

  /** Adding an unlisted principal to `who` changes nothing. */
  lemma {:induction false} ClaimedUnitsOutside(bids: map<Principal, nat>, xs: seq<Principal>, who: set<Principal>, k: Principal,
                                               multiplier: nat, finalPrice: nat)
    requires Covers(bids, xs) && k !in Listed(xs) && finalPrice > 0
    ensures ClaimedUnits(bids, xs, who + {k}, multiplier, finalPrice) == ClaimedUnits(bids, xs, who, multiplier, finalPrice)
    decreases |xs|
  {
    if xs != [] {
      ClaimedUnitsOutside(bids, xs[..|xs| - 1], who, k, multiplier, finalPrice);
    }
  }

  /** Paying `k` its share keeps every entry right. */
  lemma {:induction false} PaidSharesAdd(tokensOf: map<Principal, nat>, bids: map<Principal, nat>, xs: seq<Principal>, k: Principal,
                                         multiplier: nat, finalPrice: nat)
    requires Covers(bids, xs) && finalPrice > 0 && k in bids
    requires PaidShares(tokensOf, bids, xs, multiplier, finalPrice)
    ensures PaidShares(tokensOf[k := ClaimableTokens(bids[k], multiplier, finalPrice)], bids, xs, multiplier, finalPrice)
    decreases |xs|
  {
    if xs != [] {
      PaidSharesAdd(tokensOf, bids, xs[..|xs| - 1], k, multiplier, finalPrice);
    }
  }

  /** Each listed principal with an entry holds exactly its truncated share. */
  lemma {:induction false} PaidSharesMember(tokensOf: map<Principal, nat>, bids: map<Principal, nat>, xs: seq<Principal>, p: Principal,
                                            multiplier: nat, finalPrice: nat)
    requires Covers(bids, xs) && finalPrice > 0 && PaidShares(tokensOf, bids, xs, multiplier, finalPrice)
    requires p in Listed(xs) && p in tokensOf
    ensures p in bids && tokensOf[p] == ClaimableTokens(bids[p], multiplier, finalPrice)
    decreases |xs|
  {
    if p != xs[|xs| - 1] {
      PaidSharesMember(tokensOf, bids, xs[..|xs| - 1], p, multiplier, finalPrice);
    }
  }

  /** With every bid positive, the claimed part reaches the whole exactly when every
      listed principal is in `who`: the last claim is the one that completes the set. */
  lemma {:induction false} TotalInIsTotalIff(bids: map<Principal, nat>, xs: seq<Principal>, who: set<Principal>)
    requires Covers(bids, xs)
    requires forall p :: p in bids ==> bids[p] > 0
    ensures TotalIn(bids, xs, who) == Total(bids, xs) <==> Listed(xs) <= who
  {
    if xs != [] {
      var init := xs[..|xs| - 1];
      TotalInIsTotalIff(bids, init, who);
      TotalInAtMostTotal(bids, init, who);
      assert bids[xs[|xs| - 1]] > 0;
    }
  }

  /** A prefix one longer than `xs[..i]` keeps the ledger's list properties, its last
      element is not among the earlier ones, and the sums over it grow by that element's
      bid and claim. */
  lemma {:induction false} PrefixStep(bids: map<Principal, nat>, xs: seq<Principal>, i: nat, multiplier: nat, finalPrice: nat)
    requires Covers(bids, xs) && Distinct(xs) && i < |xs|
    ensures Covers(bids, xs[..i]) && Covers(bids, xs[..i + 1]) && Distinct(xs[..i + 1])
    ensures xs[..i + 1] == xs[..i] + [xs[i]]
    ensures xs[i] in bids && xs[i] !in Listed(xs[..i])
    ensures Total(bids, xs[..i + 1]) == Total(bids, xs[..i]) + bids[xs[i]]
    ensures finalPrice > 0 ==>
              ClaimableTotal(bids, xs[..i + 1], multiplier, finalPrice)
                == ClaimableTotal(bids, xs[..i], multiplier, finalPrice) + ClaimableTokens(bids[xs[i]], multiplier, finalPrice)
    decreases |xs| - i
  {
    if i + 1 < |xs| {
      PrefixStep(bids, xs[..|xs| - 1], i, multiplier, finalPrice);
      assert xs[..|xs| - 1][..i + 1] == xs[..i + 1];
      assert xs[..|xs| - 1][..i] == xs[..i];
      assert xs[..|xs| - 1][i] == xs[i];
    } else {
      assert xs[..i + 1] == xs;
    }
    assert xs[..i + 1][..i] == xs[..i];
  }

  /** Multiplication distributes over addition. */
  lemma Distribute(x: nat, y: nat, z: nat)
    ensures (x + y) * z == x * z + y * z
  {
  }

  /** One more truncated claim: the bounds on the running sums carry over, the slack
      growing by at most finalPrice - 1. */
  lemma RoundingStep(ct: nat, c: nat, t: nat, b: nat, n: nat, multiplier: nat, finalPrice: nat)
    requires finalPrice > 0
    requires ct * finalPrice <= t * multiplier <= ct * finalPrice + n * (finalPrice - 1)
    requires c * finalPrice <= b * multiplier < (c + 1) * finalPrice
    ensures (ct + c) * finalPrice <= (t + b) * multiplier
    ensures (t + b) * multiplier <= (ct + c) * finalPrice + (n + 1) * (finalPrice - 1)
  {
    Distribute(ct, c, finalPrice);
    Distribute(t, b, multiplier);
    Distribute(n, 1, finalPrice - 1);
    Distribute(c, 1, finalPrice);
  }

  /** The claims of the listed principals, each truncated, together stay within the
      exact share of their total, and each claim loses less than one token unit:
      ClaimableTotal * finalPrice <= Total * multiplier <= ClaimableTotal * finalPrice + |xs| * (finalPrice - 1). */
  lemma {:induction false} ClaimRoundingBounds(bids: map<Principal, nat>, xs: seq<Principal>, multiplier: nat, finalPrice: nat)
    requires Covers(bids, xs) && finalPrice > 0
    ensures ClaimableTotal(bids, xs, multiplier, finalPrice) * finalPrice <= Total(bids, xs) * multiplier
    ensures Total(bids, xs) * multiplier
              <= ClaimableTotal(bids, xs, multiplier, finalPrice) * finalPrice + |xs| * (finalPrice - 1)
  {
    if xs != [] {
      var init := xs[..|xs| - 1];
      var b := bids[xs[|xs| - 1]];
      ClaimRoundingBounds(bids, init, multiplier, finalPrice);
      RoundingStep(ClaimableTotal(bids, init, multiplier, finalPrice), ClaimableTokens(b, multiplier, finalPrice),
                   Total(bids, init), b, |init|, multiplier, finalPrice);
    }
  }

  /** The outcome of paying every listed principal, none of whom had been paid before:
      each receives its truncated share, earlier entries stay, and the units moved fall
      short of the exact share of the listed total by less than one unit per principal. */
  lemma Settlement(before: map<Principal, nat>, after: map<Principal, nat>, moved: int,
                   bids: map<Principal, nat>, xs: seq<Principal>, multiplier: nat, finalPrice: nat)
    requires Covers(bids, xs) && finalPrice > 0 && Listed(xs) !! before.Keys
    requires after == before + Payouts(bids, xs, multiplier, finalPrice)
    requires moved == ClaimableTotal(bids, xs, multiplier, finalPrice)
    ensures forall p :: p in Listed(xs) ==>
              p in bids && p in after && after[p] == ClaimableTokens(bids[p], multiplier, finalPrice)
    ensures forall p :: p in before ==> p in after && after[p] == before[p]
    ensures after.Keys == before.Keys + Listed(xs)
    ensures moved * finalPrice <= Total(bids, xs) * multiplier
    ensures Total(bids, xs) * multiplier <= moved * finalPrice + |xs| * (finalPrice - 1)
  {
    forall p | p in Listed(xs)
      ensures p in bids && p in after && after[p] == ClaimableTokens(bids[p], multiplier, finalPrice)
    {
      PayoutsMember(bids, xs, multiplier, finalPrice, p);
    }
    ClaimRoundingBounds(bids, xs, multiplier, finalPrice);
  }
}
