/** Request sequences whose outcomes follow from the handlers' contracts
    alone, showing that the contracts pin down concrete cases. */
module Scenarios {
  import opened Auctions
  import opened Queries
  import opened Site

  /** A listing starting at 100: offers of 90 and 100 are too low, 150 is
      taken and becomes the current price, and 120 is then too low. */
  method RaisingBids()
  {
    var m := new Marketplace({7});
    var seller, bidder: UserId := 1, 2;
    var created := m.Create(seller, true, ListingForm("Lamp", "Brass lamp", 100, 7, ""), 0);
    var id := created.value;
    assert m.auctions[id].currentBid == 100;
    assert id in CategoryPage(m.categories, m.auctions, 7).value;
    assert CategoryPage(m.categories, m.auctions, 8).None?;
    var rejected := m.Create(seller, true, ListingForm("Vase", "Glass vase", 10, 8, ""), 1);
    assert rejected.None? && |m.auctions| == 1;

    var r := m.PlaceBid(bidder, id, true, 90);
    assert r == TooLow;
    r := m.PlaceBid(bidder, id, true, 100);
    assert r == TooLow;
    r := m.PlaceBid(bidder, id, true, 150);
    assert r == Ok && m.auctions[id].currentBid == 150;
    r := m.PlaceBid(bidder, id, true, 120);
    assert r == TooLow && m.auctions[id].currentBid == 150;
    r := m.PlaceBid(bidder, id, false, 500);
    assert r == Invalid && m.auctions[id].currentBid == 150;
  }

  /** Only the seller can close an auction; closing again succeeds; a closed
      auction takes no further bid at any price and drops off the index. */
  method OnlySellerCloses()
  {
    var m := new Marketplace({0});
    var seller, other: UserId := 1, 2;
    var created := m.Create(seller, true, ListingForm("Chair", "Oak chair", 100, 0, ""), 5);
    var id := created.value;
    assert id in Index(m.auctions);

    var r := m.Close(other, id);
    assert r == Denied && !m.auctions[id].closed;
    r := m.Close(seller, id);
    assert r == Ok && m.auctions[id].closed;
    r := m.Close(seller, id);
    assert r == Ok && m.auctions[id].closed;

    r := m.PlaceBid(other, id, true, 1000);
    assert r == Closed && m.bids == [];
    assert id !in Index(m.auctions);
  }

  /** Seller 1 lists an item; user 3 bids 150 and user 2 bids 200; once the
      seller closes it, user 2 is named the winner. */
  method ClosingPicksWinner()
  {
    var m := new Marketplace({0});
    var a, b, c: UserId := 1, 2, 3;
    var created := m.Create(a, true, ListingForm("Chair", "Oak chair", 100, 0, ""), 5);
    var id := created.value;
    var first, second := Bid(id, c, 150), Bid(id, b, 200);

    ghost var before := m.bids;
    var r := m.PlaceBid(c, id, true, 150);
    assert r == Ok;
    BidsOnAppend(before, first, id);
    assert BidsOn(m.bids, id) == [first];
    before := m.bids;
    r := m.PlaceBid(b, id, true, 200);
    assert r == Ok;
    BidsOnAppend(before, second, id);
    ghost var mine := BidsOn(m.bids, id);
    assert mine == [first] + [second];
    r := m.Close(a, id);
    assert r == Ok;

    ClosedListingNamesLastBidder(m.auctions, m.bids, m.watchlists, Some(a), id);
    var page := Listing(m.auctions, m.bids, m.watchlists, Some(a), id);
    assert page.value.winner == Some(b);
  }

  /** Adding twice reports a duplicate; removing twice reports an absence. */
  method WatchingTwice()
  {
    var m := new Marketplace({0});
    var user: UserId := 4;
    var created := m.Create(1, true, ListingForm("Clock", "Wall clock", 10, 0, ""), 0);
    var id := created.value;

    var r := m.AddWatchlist(user, id);
    assert r == Ok && m.watchlists[user] == {id};
    r := m.AddWatchlist(user, id);
    assert r == Duplicate && m.watchlists[user] == {id};
    r := m.RemoveWatchlist(user, id);
    assert r == Ok && m.watchlists[user] == {};
    r := m.RemoveWatchlist(user, id);
    assert r == Absent && m.watchlists[user] == {};
    r := m.AddWatchlist(user, id + 1);
    assert r == NotFound;
  }
}
