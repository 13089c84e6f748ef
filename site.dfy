/** The state the request handlers share, and the handlers that change it:
    listing an item, bidding, closing, and editing a watchlist. Requests are
    handled one at a time; the requester is always a signed-in user. */
module Site {
  import opened Auctions
  import opened Queries

  /** How a request ended; `Ok` is the only outcome that changes anything. */
  datatype Outcome =
    | Ok
    | NotFound   // no auction with that id
    | Invalid    // the submitted form did not validate
    | Closed     // the auction no longer takes bids
    | TooLow     // the offer does not beat the starting bid and the current price
    | Denied     // only the seller may close an auction
    | Duplicate  // the auction is already on the watchlist
    | Absent     // the auction is not on the watchlist

  /** The fields of the new-listing form. */
  datatype ListingForm = ListingForm(
    title: string, description: string, startingBid: int, category: CategoryId, imageUrl: string)

  /** Facts that hold between any state and any later one: no auction
      disappears, its seller and starting bid stay fixed, a closed auction
      stays closed, and bids are only ever appended. */
  ghost predicate Evolves(auctions: seq<Auction>, bids: seq<Bid>, auctions': seq<Auction>, bids': seq<Bid>)
  {
    |auctions| <= |auctions'| && bids <= bids' &&
    forall i :: 0 <= i < |auctions| ==>
      auctions'[i].seller == auctions[i].seller &&
      auctions'[i].startingBid == auctions[i].startingBid &&
      (auctions[i].closed ==> auctions'[i].closed)
  }

  /** Evolves composes: what holds across each of two requests holds across both. */
  lemma EvolvesTransitive(a0: seq<Auction>, b0: seq<Bid>, a1: seq<Auction>, b1: seq<Bid>, a2: seq<Auction>, b2: seq<Bid>)
    requires Evolves(a0, b0, a1, b1) && Evolves(a1, b1, a2, b2)
    ensures Evolves(a0, b0, a2, b2)
  {
  }

  /** Step `i` of a trace of store states is a request that keeps `Evolves`. */
  ghost predicate EvolvesAt(trace: seq<(seq<Auction>, seq<Bid>)>, i: nat)
    requires i + 1 < |trace|
  {
    Evolves(trace[i].0, trace[i].1, trace[i + 1].0, trace[i + 1].1)
  }

  /** Whatever sequence of requests leads from one store state to another,
      if each request keeps `Evolves`, the first and last states are related
      by it. */
  lemma {:induction false} EvolvesAlong(trace: seq<(seq<Auction>, seq<Bid>)>)
    requires |trace| >= 1
    requires forall i: nat :: i + 1 < |trace| ==> EvolvesAt(trace, i)
    ensures Evolves(trace[0].0, trace[0].1, trace[|trace| - 1].0, trace[|trace| - 1].1)
  {
    var n := |trace|;
    if n > 1 {
      var prefix := trace[..n - 1];
      forall i: nat | i + 1 < |prefix|
        ensures EvolvesAt(prefix, i)
      {
        assert EvolvesAt(trace, i);
      }
      EvolvesAlong(prefix);
      assert EvolvesAt(trace, n - 2);
      EvolvesTransitive(trace[0].0, trace[0].1, trace[n - 2].0, trace[n - 2].1, trace[n - 1].0, trace[n - 1].1);
    }
  }

  /** The invariant of the store: every bid and every watched id refers to an
      existing auction, and every auction is consistent with its own bids. */
  ghost predicate Sound(auctions: seq<Auction>, bids: seq<Bid>, watchlists: map<UserId, set<AuctionId>>)
  {
    (forall k :: 0 <= k < |bids| ==> bids[k].auction < |auctions|) &&
    (forall i :: 0 <= i < |auctions| ==> Consistent(auctions[i], BidsOn(bids, i))) &&
    (forall u, id :: u in watchlists && id in watchlists[u] ==> id < |auctions|)
  }

  /** An auction no bid refers to has no bids. */
  lemma {:induction false} NoBidsOn(bids: seq<Bid>, id: AuctionId)
    requires forall k :: 0 <= k < |bids| ==> bids[k].auction != id
    ensures BidsOn(bids, id) == []
  {
    if bids != [] {
      NoBidsOn(bids[..|bids| - 1], id);
    }
  }

  /** Appending a freshly listed auction, whose current bid is its starting
      bid, keeps the store sound. */
  lemma ListingKeepsSound(auctions: seq<Auction>, bids: seq<Bid>, watchlists: map<UserId, set<AuctionId>>, a: Auction)
    requires Sound(auctions, bids, watchlists) && a.currentBid == a.startingBid
    ensures Sound(auctions + [a], bids, watchlists)
  {
    NoBidsOn(bids, |auctions|);
  }

  /** One auction's share of the step below: auction `i` stays consistent
      with its own bids when bid `b` on auction `id` is recorded. */
  lemma AcceptedBidKeepsConsistentAt(auctions: seq<Auction>, bids: seq<Bid>, id: AuctionId, b: Bid, i: nat)
    requires id < |auctions| && i < |auctions| && b.auction == id
    requires Consistent(auctions[i], BidsOn(bids, i))
    requires i == id ==> Accepts(auctions[id], BidsOn(bids, id), b.price)
    ensures Consistent(auctions[id := auctions[id].(currentBid := b.price)][i], BidsOn(bids + [b], i))
  {
    BidsOnAppend(bids, b, i);
    if i == id {
      AcceptKeepsConsistent(auctions[id], BidsOn(bids, id), b);
    }
  }

  /** Recording a bid that auction `id` accepts, and raising its current bid
      to the bid's price, keeps the store sound. */
  lemma AcceptedBidKeepsSound(auctions: seq<Auction>, bids: seq<Bid>, watchlists: map<UserId, set<AuctionId>>,
                              id: AuctionId, b: Bid)
    requires Sound(auctions, bids, watchlists)
    requires id < |auctions| && b.auction == id && Accepts(auctions[id], BidsOn(bids, id), b.price)
    ensures Sound(auctions[id := auctions[id].(currentBid := b.price)], bids + [b], watchlists)
  {
    var auctions', bids' := auctions[id := auctions[id].(currentBid := b.price)], bids + [b];
    forall k | 0 <= k < |bids'|
      ensures bids'[k].auction < |auctions'|
    {
      if k < |bids| {
        assert bids'[k] == bids[k];
      }
    }
    forall i | 0 <= i < |auctions'|
      ensures Consistent(auctions'[i], BidsOn(bids', i))
    {
      AcceptedBidKeepsConsistentAt(auctions, bids, id, b, i);
    }
  }

  /** How a bid of `price` on auction `id` ends, decided in the order the
      handler checks: the auction must exist, be open, come with a valid form,
      and the price must pass the acceptance test. */
  function BidOutcome(auctions: seq<Auction>, bids: seq<Bid>, id: AuctionId, formValid: bool, price: int): (r: Outcome)
    ensures r in {Ok, NotFound, Closed, Invalid, TooLow}
    ensures r == NotFound <==> id >= |auctions|
    ensures r == Closed <==> id < |auctions| && auctions[id].closed
    ensures r == Invalid <==> id < |auctions| && !auctions[id].closed && !formValid
    ensures r == Ok <==> id < |auctions| && !auctions[id].closed && formValid &&
                         Accepts(auctions[id], BidsOn(bids, id), price)
  {
    if id >= |auctions| then NotFound
    else if auctions[id].closed then Closed
    else if !formValid then Invalid
    else if !Accepts(auctions[id], BidsOn(bids, id), price) then TooLow
    else Ok
  }

  /** In a sound store a bid is taken exactly when the auction exists, is
      open, the form is valid, and the price beats both the starting bid and
      the current bid; a closed auction takes no bid at any price. */
  lemma BidOutcomeOnSound(auctions: seq<Auction>, bids: seq<Bid>, watchlists: map<UserId, set<AuctionId>>,
                          id: AuctionId, formValid: bool, price: int)
    requires Sound(auctions, bids, watchlists)
    ensures BidOutcome(auctions, bids, id, formValid, price) == Ok <==>
      id < |auctions| && !auctions[id].closed && formValid &&
      price > auctions[id].startingBid && price > auctions[id].currentBid
    ensures BidOutcome(auctions, bids, id, formValid, price) == TooLow <==>
      id < |auctions| && !auctions[id].closed && formValid &&
      (price <= auctions[id].startingBid || price <= auctions[id].currentBid)
  {
    if id < |auctions| {
      AcceptsIff(auctions[id], BidsOn(bids, id), price);
    }
  }

  class Marketplace {
    /** The categories (managed outside these handlers). */
    const categories: set<CategoryId>
    /** The auction table; an auction's id is its position. */
    var auctions: seq<Auction>
    /** The bid table, in the order bids were recorded. */
    var bids: seq<Bid>
    /** Each user's watchlist, created on first use. */
    var watchlists: map<UserId, set<AuctionId>>

    ghost predicate Valid()
      reads this
    {
      Sound(auctions, bids, watchlists)
    }

    constructor (categories: set<CategoryId>)
      ensures Valid()
      ensures this.categories == categories && auctions == [] && bids == [] && watchlists == map[]
    {
      this.categories := categories;
      auctions, bids, watchlists := [], [], map[];
    }

    /** In every valid state, every auction's current bid is at least its
        starting bid. */
    lemma CurrentBidsAtLeastStarting()
      requires Valid()
      ensures forall i :: 0 <= i < |auctions| ==> auctions[i].currentBid >= auctions[i].startingBid
    {
      forall i | 0 <= i < |auctions|
        ensures auctions[i].currentBid >= auctions[i].startingBid
      {
        CurrentBidAtLeastStarting(auctions[i], BidsOn(bids, i));
      }
    }

    /** Lists a new item. A valid form whose category exists creates an open
        auction sold by the requester whose current bid is its starting bid,
        and returns its id; an invalid form, or one naming an unknown
        category (which the form's category choice rejects), changes nothing. */
    method Create(requester: UserId, formValid: bool, form: ListingForm, now: int) returns (created: Option<AuctionId>)
      requires Valid()
      modifies this
      ensures Valid()
      ensures created.Some? <==> formValid && form.category in categories
      ensures created.Some? ==> created.value == |old(auctions)|
      ensures created.Some? ==>
        auctions == old(auctions) + [Auction(form.title, form.description, form.imageUrl, form.category,
                                             requester, form.startingBid, form.startingBid, false, now)]
      ensures created.None? ==> auctions == old(auctions)
      ensures bids == old(bids) && watchlists == old(watchlists)
      ensures Evolves(old(auctions), old(bids), auctions, bids)
    {
      if !formValid || form.category !in categories {
        return None;
      }
      var id := |auctions|;
      var a := Auction(form.title, form.description, form.imageUrl, form.category,
                       requester, form.startingBid, form.startingBid, false, now);
      ListingKeepsSound(auctions, bids, watchlists, a);
      auctions := auctions + [a];
      created := Some(id);
    }

    /** Places a bid of `price` on auction `id`. An unknown id, a closed
        auction, an invalid form or an offer that fails the acceptance test
        changes nothing; otherwise the bid is recorded and becomes the
        auction's current bid. */
    method PlaceBid(requester: UserId, id: AuctionId, formValid: bool, price: int) returns (outcome: Outcome)
      requires Valid()
      modifies this
      ensures Valid()
      ensures outcome == BidOutcome(old(auctions), old(bids), id, formValid, price)
      ensures outcome == Ok <==>
        id < |old(auctions)| && !old(auctions)[id].closed && formValid &&
        price > old(auctions)[id].startingBid && price > old(auctions)[id].currentBid
      ensures outcome == Ok ==>
        bids == old(bids) + [Bid(id, requester, price)] &&
        auctions == old(auctions)[id := old(auctions)[id].(currentBid := price)]
      ensures outcome != Ok ==> bids == old(bids) && auctions == old(auctions)
      ensures watchlists == old(watchlists)
      ensures Evolves(old(auctions), old(bids), auctions, bids)
    {
      BidOutcomeOnSound(auctions, bids, watchlists, id, formValid, price);
      outcome := BidOutcome(auctions, bids, id, formValid, price);
      if outcome == Ok {
        var b := Bid(id, requester, price);
        AcceptedBidKeepsSound(auctions, bids, watchlists, id, b);
        bids := bids + [b];
        auctions := auctions[id := auctions[id].(currentBid := price)];
      }
    }

    /** Closes auction `id`. Only its seller may; closing an already closed
        auction succeeds again and changes nothing further. */
    method Close(requester: UserId, id: AuctionId) returns (outcome: Outcome)
      requires Valid()
      modifies this
      ensures Valid()
      ensures id >= |old(auctions)| ==> outcome == NotFound
      ensures id < |old(auctions)| && requester != old(auctions)[id].seller ==> outcome == Denied
      ensures outcome == Ok <==> id < |old(auctions)| && requester == old(auctions)[id].seller
      ensures outcome == Ok ==> auctions == old(auctions)[id := old(auctions)[id].(closed := true)]
      ensures outcome != Ok ==> auctions == old(auctions)
      ensures bids == old(bids) && watchlists == old(watchlists)
      ensures Evolves(old(auctions), old(bids), auctions, bids)
    {
      if id >= |auctions| {
        return NotFound;
      }
      if requester != auctions[id].seller {
        return Denied;
      }
      auctions := auctions[id := auctions[id].(closed := true)];
      outcome := Ok;
    }

    /** Adds auction `id` to the requester's watchlist, creating the
        watchlist first if the requester has none. An auction already on the
        list is reported and the list stays as it was. */
    method AddWatchlist(requester: UserId, id: AuctionId) returns (outcome: Outcome)
      requires Valid()
      modifies this
      ensures Valid()
      ensures id >= |old(auctions)| ==> outcome == NotFound && watchlists == old(watchlists)
      ensures id < |old(auctions)| && id in WatchedBy(old(watchlists), requester) ==>
        outcome == Duplicate && watchlists == old(watchlists)
      ensures id < |old(auctions)| && id !in WatchedBy(old(watchlists), requester) ==>
        outcome == Ok && watchlists == old(watchlists)[requester := WatchedBy(old(watchlists), requester) + {id}]
      ensures outcome != NotFound ==> Watching(watchlists, Some(requester), id)
      ensures auctions == old(auctions) && bids == old(bids)
    {
      if id >= |auctions| {
        return NotFound;
      }
      if requester !in watchlists {
        watchlists := watchlists[requester := {}];
      }
      if id in watchlists[requester] {
        return Duplicate;
      }
      watchlists := watchlists[requester := watchlists[requester] + {id}];
      outcome := Ok;
    }

    /** Removes auction `id` from the requester's watchlist. An auction that
        is not on the list is reported and nothing changes. */
    method RemoveWatchlist(requester: UserId, id: AuctionId) returns (outcome: Outcome)
      requires Valid()
      modifies this
      ensures Valid()
      ensures id >= |old(auctions)| ==> outcome == NotFound && watchlists == old(watchlists)
      ensures id < |old(auctions)| && id in WatchedBy(old(watchlists), requester) ==>
        outcome == Ok && watchlists == old(watchlists)[requester := old(watchlists)[requester] - {id}]
      ensures id < |old(auctions)| && id !in WatchedBy(old(watchlists), requester) ==>
        outcome == Absent && watchlists == old(watchlists)
      ensures outcome != NotFound ==> !Watching(watchlists, Some(requester), id)
      ensures auctions == old(auctions) && bids == old(bids)
    {
      if id >= |auctions| {
        return NotFound;
      }
      if requester in watchlists && id in watchlists[requester] {
        watchlists := watchlists[requester := watchlists[requester] - {id}];
        return Ok;
      }
      outcome := Absent;
    }
  }
}
