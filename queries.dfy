/** The read-only pages of the site: the open-listing index, a category's
    open listings, and the detail page of one listing. */
module Queries {
  import opened Auctions

  /** Whether the listing pages show auction `a`: only open auctions, and
      when a category is asked for, only those of that category. */
  predicate Shown(a: Auction, category: Option<CategoryId>)
  {
    !a.closed && (category.None? || a.category == category.value)
  }

  ghost predicate AllBelow(ids: seq<AuctionId>, n: nat)
  {
    forall k :: 0 <= k < |ids| ==> ids[k] < n
  }

  /** Each id occurs at most once. */
  ghost predicate Distinct(ids: seq<AuctionId>)
  {
    forall id :: multiset(ids)[id] <= 1
  }

  /** Newest first: creation timestamps never increase along `ids`. */
  ghost predicate NewestFirst(auctions: seq<Auction>, ids: seq<AuctionId>)
    requires AllBelow(ids, |auctions|)
  {
    forall j, k :: 0 <= j < k < |ids| ==> auctions[ids[j]].created >= auctions[ids[k]].created
  }

  /** The ids below `n` of the auctions shown, in increasing id order. */
  function ShownBelow(auctions: seq<Auction>, category: Option<CategoryId>, n: nat): (r: seq<AuctionId>)
    requires n <= |auctions|
    ensures AllBelow(r, n) && Distinct(r)
    ensures forall id: AuctionId :: id in r <==> id < n && Shown(auctions[id], category)
  {
    if n == 0 then []
    else
      var rest := ShownBelow(auctions, category, n - 1);
      assert (n - 1) !in rest;
      rest + (if Shown(auctions[n - 1], category) then [n - 1] else [])
  }

  /** A sequence that starts with an entry at least as new as everything after
      it, followed by a newest-first sequence, is newest first. */
  lemma ConsNewest(auctions: seq<Auction>, h: AuctionId, tail: seq<AuctionId>)
    requires h < |auctions| && AllBelow(tail, |auctions|) && NewestFirst(auctions, tail)
    requires forall x :: x in tail ==> auctions[x].created <= auctions[h].created
    ensures AllBelow([h] + tail, |auctions|) && NewestFirst(auctions, [h] + tail)
  {
    var s := [h] + tail;
    forall j, k | 0 <= j < k < |s|
      ensures auctions[s[j]].created >= auctions[s[k]].created
    {
      if j == 0 {
        assert s[k] in tail;
      } else {
        assert s[j] == tail[j - 1] && s[k] == tail[k - 1];
      }
    }
  }

  /** An entry at least as new as the first of a newest-first sequence can
      go in front of it. */
  lemma InsertInFront(auctions: seq<Auction>, id: AuctionId, sorted: seq<AuctionId>)
    requires id < |auctions| && AllBelow(sorted, |auctions|) && NewestFirst(auctions, sorted)
    requires sorted == [] || auctions[id].created >= auctions[sorted[0]].created
    ensures AllBelow([id] + sorted, |auctions|) && NewestFirst(auctions, [id] + sorted)
  {
    forall x | x in sorted
      ensures auctions[x].created <= auctions[id].created
    {
      var k :| 0 <= k < |sorted| && sorted[k] == x;
      if k > 0 {
        assert auctions[sorted[0]].created >= auctions[sorted[k]].created;
      }
    }
    ConsNewest(auctions, id, sorted);
  }

  /** The step of the insertion: an entry newer than `id` stays in front of
      the result of inserting `id` into the rest. */
  lemma InsertBehindNewer(auctions: seq<Auction>, id: AuctionId, head: AuctionId, rest: seq<AuctionId>, tail: seq<AuctionId>)
    requires id < |auctions| && head < |auctions| && AllBelow(rest, |auctions|)
    requires NewestFirst(auctions, [head] + rest) && auctions[id].created < auctions[head].created
    requires AllBelow(tail, |auctions|) && NewestFirst(auctions, tail)
    requires multiset(tail) == multiset(rest) + multiset{id}
    ensures AllBelow([head] + tail, |auctions|) && NewestFirst(auctions, [head] + tail)
  {
    forall x | x in tail
      ensures auctions[x].created <= auctions[head].created
    {
      assert x in multiset(rest) + multiset{id};
      if x != id {
        assert x in multiset(rest);
        var k :| 0 <= k < |rest| && rest[k] == x;
        var s := [head] + rest;
        assert s[0] == head && s[k + 1] == x;
      }
    }
    ConsNewest(auctions, head, tail);
  }

  /** Places `id` into a newest-first sequence, before the first entry that is
      not newer than it. */
  function InsertNewest(auctions: seq<Auction>, id: AuctionId, sorted: seq<AuctionId>): (r: seq<AuctionId>)
    requires id < |auctions| && AllBelow(sorted, |auctions|) && NewestFirst(auctions, sorted)
    ensures AllBelow(r, |auctions|) && NewestFirst(auctions, r)
    ensures multiset(r) == multiset(sorted) + multiset{id}
  {
    if sorted == [] || auctions[id].created >= auctions[sorted[0]].created then
      InsertInFront(auctions, id, sorted);
      [id] + sorted
    else
      var head, rest := sorted[0], sorted[1..];
      assert sorted == [head] + rest;
      var tail := InsertNewest(auctions, id, rest);
      InsertBehindNewer(auctions, id, head, rest, tail);
      [head] + tail
  }

  /** Orders `ids` newest first (`order_by('-creation_date')`); the order among
      equal timestamps is not specified. */
  function SortNewestFirst(auctions: seq<Auction>, ids: seq<AuctionId>): (r: seq<AuctionId>)
    requires AllBelow(ids, |auctions|)
    ensures AllBelow(r, |auctions|) && NewestFirst(auctions, r)
    ensures multiset(r) == multiset(ids)
  {
    if ids == [] then []
    else
      assert ids == [ids[0]] + ids[1..];
      InsertNewest(auctions, ids[0], SortNewestFirst(auctions, ids[1..]))
  }

  /** The listings under `category` (every listing when None), newest first. */
  function OpenListings(auctions: seq<Auction>, category: Option<CategoryId>): (r: seq<AuctionId>)
    ensures AllBelow(r, |auctions|) && NewestFirst(auctions, r) && Distinct(r)
    ensures forall id: AuctionId :: id in r <==> id < |auctions| && Shown(auctions[id], category)
  {
    var open := ShownBelow(auctions, category, |auctions|);
    var r := SortNewestFirst(auctions, open);
    assert forall id: AuctionId :: id in r <==> id in multiset(open);
    r
  }

  /** The index page: every open auction, newest first. */
  function Index(auctions: seq<Auction>): (r: seq<AuctionId>)
    ensures AllBelow(r, |auctions|) && NewestFirst(auctions, r) && Distinct(r)
    ensures forall id: AuctionId :: id in r <==> id < |auctions| && !auctions[id].closed
  {
    OpenListings(auctions, None)
  }

  /** A category page: None (not found) for an unknown category, otherwise the
      open auctions of that category, newest first. */
  function CategoryPage(categories: set<CategoryId>, auctions: seq<Auction>, category: CategoryId): (r: Option<seq<AuctionId>>)
    ensures r.None? <==> category !in categories
    ensures r.Some? ==> AllBelow(r.value, |auctions|) && NewestFirst(auctions, r.value) && Distinct(r.value)
    ensures r.Some? ==> forall id: AuctionId :: id in r.value <==>
      id < |auctions| && !auctions[id].closed && auctions[id].category == category
  {
    if category !in categories then None else Some(OpenListings(auctions, Some(category)))
  }

  /** A category page lists exactly the auctions of the index that belong to
      that category. */
  lemma CategoryPageWithinIndex(categories: set<CategoryId>, auctions: seq<Auction>, category: CategoryId)
    requires category in categories
    ensures forall id: AuctionId :: id in CategoryPage(categories, auctions, category).value <==>
      id in Index(auctions) && auctions[id].category == category
  {
  }

  /** What the detail page of one listing shows: the auction, how many bids it
      has, whether the viewer watches it, and, once it is closed, its winner. */
  datatype ListingPage = ListingPage(auction: Auction, bidCount: nat, watching: bool, winner: Option<UserId>)

  /** The auctions a user watches; a user without a watchlist watches nothing. */
  function WatchedBy(watchlists: map<UserId, set<AuctionId>>, user: UserId): set<AuctionId>
  {
    if user in watchlists then watchlists[user] else {}
  }

  /** Whether `viewer` (None for an anonymous visitor) watches auction `id`:
      an anonymous visitor never does, a signed-in one exactly when the id is
      on their watchlist. */
  predicate Watching(watchlists: map<UserId, set<AuctionId>>, viewer: Option<UserId>, id: AuctionId)
  {
    viewer.Some? && id in WatchedBy(watchlists, viewer.value)
  }

  /** The detail page of auction `id`, or None (not found) for an unknown id. */
  function Listing(auctions: seq<Auction>, bids: seq<Bid>, watchlists: map<UserId, set<AuctionId>>,
                   viewer: Option<UserId>, id: AuctionId): (r: Option<ListingPage>)
    ensures r.None? <==> id >= |auctions|
    ensures r.Some? ==> r.value.auction == auctions[id] && r.value.bidCount == |BidsOn(bids, id)|
    ensures r.Some? ==> (r.value.watching <==> Watching(watchlists, viewer, id))
    ensures r.Some? ==> (r.value.winner.Some? <==> auctions[id].closed && BidsOn(bids, id) != [])
    ensures r.Some? && r.value.winner.Some? ==>
      exists b :: b in bids && b.auction == id && b.bidder == r.value.winner.value &&
        forall c :: c in bids && c.auction == id ==> c.price <= b.price
  {
    if id >= |auctions| then None
    else
      var a := auctions[id];
      var mine := BidsOn(bids, id);
      Some(ListingPage(a, |mine|, Watching(watchlists, viewer, id), if a.closed then Winner(mine) else None))
  }

  /** On a consistent closed auction with bids, the page names the bidder of
      the last recorded bid as the winner, and that bid's price is the
      auction's current bid. */
  lemma ClosedListingNamesLastBidder(auctions: seq<Auction>, bids: seq<Bid>,
                                     watchlists: map<UserId, set<AuctionId>>, viewer: Option<UserId>, id: AuctionId)
    requires id < |auctions| && auctions[id].closed && BidsOn(bids, id) != []
    requires Consistent(auctions[id], BidsOn(bids, id))
    ensures var mine := BidsOn(bids, id);
      Listing(auctions, bids, watchlists, viewer, id).value.winner == Some(mine[|mine| - 1].bidder) &&
      mine[|mine| - 1].price == auctions[id].currentBid
  {
    WinnerIsLastBidder(auctions[id], BidsOn(bids, id));
  }
}
