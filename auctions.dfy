/** Entities of the auction site and the rules that decide bids and winners.
    Prices are whole numbers (for example cents); ids are natural numbers. */
module Auctions {

  type UserId = nat
  type AuctionId = nat
  type CategoryId = nat

  datatype Option<T> = None | Some(value: T)

  /** One row of the auction table. `created` is the creation timestamp,
      supplied by the caller because the clock is outside the model. */
  datatype Auction = Auction(
    title: string,
    description: string,
    imageUrl: string,
    category: CategoryId,
    seller: UserId,
    startingBid: int,
    currentBid: int,
    closed: bool,
    created: int)

  /** One row of the bid table: which auction, who bid, and how much. */
  datatype Bid = Bid(auction: AuctionId, bidder: UserId, price: int)

  /** The bids recorded against auction `id`, in the order they were recorded
      (the table filtered on its auction column). */
  function BidsOn(bids: seq<Bid>, id: AuctionId): (r: seq<Bid>)
    ensures |r| <= |bids|
    ensures forall b :: b in r <==> b in bids && b.auction == id
  {
    if bids == [] then []
    else
      var last := bids[|bids| - 1];
      assert bids == bids[..|bids| - 1] + [last];
      BidsOn(bids[..|bids| - 1], id) + (if last.auction == id then [last] else [])
  }

  /** Recording one more bid extends the bids of its own auction by that bid
      and leaves the bids of every other auction as they were. `BidsOn`'s own
      contract gives only membership; this unfolding fixes the order, which
      the invariant and the winner depend on. */
  lemma BidsOnAppend(bids: seq<Bid>, b: Bid, id: AuctionId)
    ensures BidsOn(bids + [b], id) == BidsOn(bids, id) + (if b.auction == id then [b] else [])
  {
    assert (bids + [b])[..|bids|] == bids;
  }

  /** Some bid of maximal price, or None when there is no bid
      (`order_by("-bid_price").first()`; among equal prices the table's order
      is not specified, so only maximality is promised). */
  function HighestBid(bids: seq<Bid>): (r: Option<Bid>)
    ensures r.None? <==> bids == []
    ensures r.Some? ==> r.value in bids && forall b :: b in bids ==> b.price <= r.value.price
  {
    if bids == [] then None
    else
      var last := bids[|bids| - 1];
      var rest := HighestBid(bids[..|bids| - 1]);
      assert bids == bids[..|bids| - 1] + [last];
      if rest.None? || last.price > rest.value.price then Some(last) else rest
  }

  /** The price of the highest recorded bid, or the auction's current bid
      when nothing has been bid yet. */
  function HighestBidPrice(a: Auction, bids: seq<Bid>): (r: int)
    ensures bids == [] ==> r == a.currentBid
    ensures bids != [] ==> (exists b :: b in bids && b.price == r) && forall b :: b in bids ==> b.price <= r
  {
    match HighestBid(bids)
    case None => a.currentBid
    case Some(b) => b.price
  }

  /** The price a new bid must exceed besides the starting bid. This is
      Python's `current_bid or highest_bid_price`: the current bid unless it is
      zero, in which case the highest bid price. */
  function Threshold(a: Auction, bids: seq<Bid>): (r: int)
    ensures a.currentBid != 0 || bids == [] ==> r == a.currentBid
    ensures a.currentBid == 0 && bids != [] ==>
      (exists b :: b in bids && b.price == r) && forall b :: b in bids ==> b.price <= r
  {
    if a.currentBid != 0 then a.currentBid else HighestBidPrice(a, bids)
  }

  /** The acceptance test an open auction applies to an offered price: above
      the starting bid, and above the current bid, or, when the current bid is
      zero and bids exist, above every recorded bid. */
  predicate Accepts(a: Auction, bids: seq<Bid>, price: int): (r: bool)
    ensures r <==> (price > a.startingBid &&
                    if a.currentBid == 0 && bids != [] then forall b :: b in bids ==> b.price < price
                    else price > a.currentBid)
  {
    price > a.startingBid && price > Threshold(a, bids)
  }

  /** The bidder of a highest-priced bid, or nobody when there are no bids. */
  function Winner(bids: seq<Bid>): (r: Option<UserId>)
    ensures r.None? <==> bids == []
    ensures r.Some? ==> exists b :: b in bids && b.bidder == r.value && forall c :: c in bids ==> c.price <= b.price
  {
    match HighestBid(bids)
    case None => None
    case Some(b) => Some(b.bidder)
  }

  ghost predicate StrictlyIncreasing(bids: seq<Bid>)
  {
    forall j, k :: 0 <= j < k < |bids| ==> bids[j].price < bids[k].price
  }

  /** What every auction and its recorded bids satisfy in every reachable
      state: the bids rise strictly, each beats the starting bid, and the
      current bid is the last bid, or the starting bid if there is none. */
  ghost predicate Consistent(a: Auction, bids: seq<Bid>)
  {
    StrictlyIncreasing(bids) &&
    (forall k :: 0 <= k < |bids| ==> bids[k].price > a.startingBid) &&
    a.currentBid == (if bids == [] then a.startingBid else bids[|bids| - 1].price)
  }

  /** A freshly listed auction, with no bids, is consistent. */
  lemma NewAuctionConsistent(a: Auction)
    requires a.currentBid == a.startingBid
    ensures Consistent(a, [])
  {
  }

  /** The current bid never falls below the starting bid. */
  lemma CurrentBidAtLeastStarting(a: Auction, bids: seq<Bid>)
    requires Consistent(a, bids)
    ensures a.currentBid >= a.startingBid
  {
    if bids != [] {
      assert bids[|bids| - 1].price > a.startingBid;
    }
  }

  /** In a consistent auction the last recorded bid is the highest one,
      and every earlier bid is strictly lower. */
  lemma {:induction false} LastBidIsHighest(a: Auction, bids: seq<Bid>)
    requires Consistent(a, bids) && bids != []
    ensures forall k :: 0 <= k < |bids| - 1 ==> bids[k].price < a.currentBid
    ensures forall b :: b in bids ==> b.price <= a.currentBid
  {
    var n := |bids|;
    forall b | b in bids
      ensures b.price <= a.currentBid
    {
      var k :| 0 <= k < n && bids[k] == b;
      if k < n - 1 {
        assert bids[k].price < bids[n - 1].price;
      }
    }
  }

  /** In a consistent auction the `or` fallback never changes anything:
      the threshold is exactly the current bid. */
  lemma ThresholdIsCurrentBid(a: Auction, bids: seq<Bid>)
    requires Consistent(a, bids)
    ensures Threshold(a, bids) == a.currentBid
  {
    if a.currentBid == 0 && bids != [] {
      LastBidIsHighest(a, bids);
      var h := HighestBidPrice(a, bids);
      assert bids[|bids| - 1] in bids;
      assert h >= a.currentBid;
    }
  }

  /** The acceptance test, read on a consistent auction, is the two-sided rule
      "above the starting bid and above the current bid". */
  lemma AcceptsIff(a: Auction, bids: seq<Bid>, price: int)
    requires Consistent(a, bids)
    ensures Accepts(a, bids, price) <==> price > a.startingBid && price > a.currentBid
  {
    ThresholdIsCurrentBid(a, bids);
  }

  /** An accepted price is strictly above every bid already recorded. */
  lemma AcceptedBidBeatsAll(a: Auction, bids: seq<Bid>, price: int)
    requires Consistent(a, bids) && Accepts(a, bids, price)
    ensures forall b :: b in bids ==> b.price < price
  {
    AcceptsIff(a, bids, price);
    if bids != [] {
      LastBidIsHighest(a, bids);
    }
  }

  /** Recording an accepted bid and raising the current bid to its price
      keeps the auction consistent. */
  lemma AcceptKeepsConsistent(a: Auction, bids: seq<Bid>, b: Bid)
    requires Consistent(a, bids) && Accepts(a, bids, b.price)
    ensures Consistent(a.(currentBid := b.price), bids + [b])
  {
    AcceptedBidBeatsAll(a, bids, b.price);
    var s := bids + [b];
    forall j, k | 0 <= j < k < |s|
      ensures s[j].price < s[k].price
    {
      if k == |bids| {
        assert s[j] in bids;
      }
    }
  }

  /** A consistent auction with bids is won by whoever placed the last bid,
      and that bid's price is the current bid. */
  lemma WinnerIsLastBidder(a: Auction, bids: seq<Bid>)
    requires Consistent(a, bids) && bids != []
    ensures Winner(bids) == Some(bids[|bids| - 1].bidder)
    ensures bids[|bids| - 1].price == a.currentBid
  {
    var n := |bids|;
    var h := HighestBid(bids).value;
    var k :| 0 <= k < n && bids[k] == h;
    assert bids[n - 1] in bids;
    assert k == n - 1;
  }
}
