# Auction lifecycle of the EBID-EBUY site, in Dafny

This project models the auction rules of the EBID-EBUY web site, which are kept in
its request handlers (`auctions/views.py`):

- listing an item;
- bidding on it;
- the seller closing it;
- naming the winner of a closed auction;
- adding and removing watchlist entries;
- the open-listing index and category pages.

It also proves the invariants those handlers keep.

The model has three layers. Module `Auctions` holds the entities as values and the
pure rules:
- which bid is highest;
- the price a new offer must beat;
- the acceptance test;
- the winner.

Module `Queries` holds the read-only pages as functions. Two plain definitions
there name what the pages filter on: `Shown` is the `closed=False` filter, with the
category match on a category page (views.py:16 and views.py:83). `Watching` is the
watch flag of the listing page (views.py:189); it is built on `WatchedBy`, the ids
on a user's watchlist. Their promises are stated by the members that use them:
`Index`, `CategoryPage`, `Listing`, `AddWatchlist` and `RemoveWatchlist`. Module `Site` holds the
shared store as a class `Marketplace` with fields:
- the auction table, a `seq<Auction>` whose positions are the ids;
- the bid table, a `seq<Bid>` in the order bids were recorded;
- one watchlist per user, a `map<UserId, set<AuctionId>>`.

Its methods are the mutating handlers. `Create` returns the new auction's id, or
None when the form is invalid or names an unknown category. The other handlers
return an `Outcome` tag (`Ok`, `NotFound`, `Invalid`, `Closed`, `TooLow`, `Denied`,
`Duplicate`, `Absent`) in place of the rendered page or redirect. Module `Scenarios` holds example request
sequences whose outcomes follow from the method contracts alone.

The store invariant `Sound` says three things:
- Every bid and watchlist entry refers to an existing auction.
- On every auction, the recorded bids rise strictly and each beats the starting bid.
- The current bid equals the last recorded bid, or the starting bid if there is none.

Every handler keeps `Sound`. From it follow two things:
- `current_bid >= starting_bid` always holds.
- The winner is the bidder of the last accepted bid.

It also makes the fallback in `current_bid or highest_bid_price` (views.py:346)
unobservable. In a sound store the threshold computed there is exactly the current
bid (`ThresholdIsCurrentBid`). So in a sound store the code's rule comes down to
"above the starting bid and above the current bid" (`AcceptsIff`). A current bid
out of step with the bid table, where the fallback would matter, can only come from
writes outside these handlers (the admin site, or concurrent requests), which are
not modelled.

Conventions:
- Prices are `int`, since the model file that declares the price field is not
  part of this model.
- Form validation is a boolean input (`formValid`).
- The creation timestamp is an input (`now`).
- The requester of every modelled mutating handler (`create`, `bid`, `close`,
  `addWatchlist`, `removeWatchlist`) is a signed-in user id, because those handlers
  are behind the login requirement. The read-only pages (`index`, `category`,
  `listing`) are open to anonymous visitors; `Listing` takes the viewer as an
  `Option<UserId>`.

## Model

| member | source | states |
|---|---|---|
| `Auctions.BidsOn` | auctions/views.py:322 | the bids of one auction are exactly the recorded bids whose auction is that one |
| `Auctions.BidsOnAppend` | auctions/views.py:348-353 | recording a bid appends it to its own auction's bids and leaves every other auction's bids unchanged |
| `Auctions.HighestBid` | auctions/views.py:322 | None exactly when there are no bids; otherwise some recorded bid whose price no other bid exceeds |
| `Auctions.HighestBidPrice` | auctions/views.py:324-328 | with no bids it is the current bid; otherwise it is the price of a recorded bid and no bid is higher |
| `Auctions.Winner` | auctions/views.py:238-240 | nobody exactly when there are no bids; otherwise the bidder of a bid that no bid exceeds |
| `Auctions.Threshold` | auctions/views.py:346 | `current_bid or highest_bid_price`: the current bid when it is non-zero or there are no bids; otherwise the price of a recorded bid that no bid exceeds |
| `Auctions.Accepts` | auctions/views.py:346 | an offer is accepted exactly when it beats the starting bid and either beats the non-zero current bid or, when the current bid is zero and bids exist, beats every recorded bid |
| `Auctions.NewAuctionConsistent` | auctions/views.py:142-147 | an auction whose current bid equals its starting bid, with no bids, satisfies the invariant |
| `Auctions.CurrentBidAtLeastStarting` | auctions/views.py:346-356 | under the invariant the current bid is at least the starting bid |
| `Auctions.LastBidIsHighest` | auctions/views.py:346-356 | under the invariant every earlier bid is strictly below the current bid, and no bid is above it |
| `Auctions.ThresholdIsCurrentBid` | auctions/views.py:322-346 | under the invariant `current_bid or highest_bid_price` is exactly the current bid |
| `Auctions.AcceptsIff` | auctions/views.py:346 | under the invariant an offer is accepted if and only if it beats both the starting bid and the current bid |
| `Auctions.AcceptedBidBeatsAll` | auctions/views.py:346 | on a consistent auction, an accepted offer is strictly above every recorded bid |
| `Auctions.AcceptKeepsConsistent` | auctions/views.py:346-357 | recording an accepted bid and raising the current bid to its price keeps the invariant |
| `Auctions.WinnerIsLastBidder` | auctions/views.py:238-240 | under the invariant the winner is the bidder of the last recorded bid, whose price is the current bid |
| `Queries.ShownBelow` | auctions/views.py:83 | exactly the ids of open auctions (of the asked-for category), each once |
| `Queries.InsertNewest` | auctions/views.py:16 | inserting into a newest-first order keeps it newest first and adds exactly that id |
| `Queries.SortNewestFirst` | auctions/views.py:16 | the result is newest first and a permutation of the input |
| `Queries.OpenListings` | auctions/views.py:83 | exactly the open auctions of the category, each once, newest first |
| `Queries.Index` | auctions/views.py:14-17 | exactly the open auctions, each once, newest first; closed auctions never appear |
| `Queries.CategoryPage` | auctions/views.py:80-104 | not found exactly for an unknown category; otherwise exactly its open auctions, each once, newest first |
| `Queries.CategoryPageWithinIndex` | auctions/views.py:80-104 | a known category's page lists exactly the index entries of that category |
| `Queries.Listing` | auctions/views.py:172-257 | not found exactly for an unknown id; shows the auction, its bid count and whether the viewer watches it; names a winner exactly when the auction is closed and has bids, and that winner placed a highest bid |
| `Queries.ClosedListingNamesLastBidder` | auctions/views.py:222-257 | on a closed auction that satisfies the invariant, the page names the bidder of the last bid, whose price is the current bid |
| `Site.EvolvesTransitive` | auctions/views.py:285-296 | the facts kept by each request (closed stays closed, bids only appended, seller and starting bid fixed) compose across two requests |
| `Site.EvolvesAlong` | auctions/views.py:285-296 | the same facts hold between the first and last state of any sequence of requests each of which keeps them |
| `Site.NoBidsOn` | auctions/views.py:142-147 | an auction that no bid refers to has no bids |
| `Site.ListingKeepsSound` | auctions/views.py:142-147 | appending a new auction whose current bid is its starting bid keeps the store invariant |
| `Site.AcceptedBidKeepsConsistentAt` | auctions/views.py:348-357 | every auction, the one bid on or another, stays consistent when an accepted bid is recorded |
| `Site.AcceptedBidKeepsSound` | auctions/views.py:348-357 | recording an accepted bid and raising that auction's current bid keeps the store invariant |
| `Site.BidOutcome` | auctions/views.py:311-375 | not found for an unknown id, closed for a closed auction whatever the price, invalid for an invalid form, accepted exactly when the acceptance test passes, too low otherwise |
| `Site.BidOutcomeOnSound` | auctions/views.py:334-365 | in a sound store a bid is taken exactly when the auction exists, is open, and the form is valid and the price beats both the starting and current bid; too low exactly when it fails either bound |
| `Site.Marketplace.CurrentBidsAtLeastStarting` | auctions/views.py:146 | in every valid store state every auction's current bid is at least its starting bid |
| `Site.Marketplace.Create` | auctions/views.py:132-162 | a valid form naming an existing category appends an open auction sold by the requester with current bid equal to starting bid and returns its id; an invalid form or an unknown category changes nothing |
| `Site.Marketplace.PlaceBid` | auctions/views.py:306-375 | the outcome is `BidOutcome` of the old state; on success exactly one bid by the requester at that price is appended and only that auction's current bid changes; otherwise nothing changes |
| `Site.Marketplace.Close` | auctions/views.py:269-296 | unknown id: not found; non-seller: denied and nothing changes; seller: the auction is closed (again, if it already was) and nothing else changes; no auction ever reopens |
| `Site.Marketplace.AddWatchlist` | auctions/views.py:432-466 | unknown id: not found; already present: duplicate and nothing changes; otherwise the id is added to the requester's set, which starts empty if the requester had none; afterwards the requester watches the auction |
| `Site.Marketplace.RemoveWatchlist` | auctions/views.py:477-509 | present: the id is removed from the requester's set; absent: reported and nothing changes; unknown id: not found; afterwards the requester does not watch the auction |

## Left out

- Sign-in, sign-out and registration (`login_view`, `logout_view`, `register`) and the login requirement on handlers: these are the web framework's authentication. A duplicate user name is rejected by a database uniqueness error, not by code in the handlers.
- Rendering, templates, flash messages, redirects and the 405 answers for a wrong HTTP method: they carry no rule. The outcome tag stands for the message shown.
- Form validation (`is_valid`, `cleaned_data`): it is the form library's work (`auctions/forms.py` only declares fields), so validity is a boolean input. The one field check that matters to the other pages, that the chosen category exists, is made explicitly by `Create` against the store's categories, as a model form's foreign-key choice rejects an id not in the category table. Whether the category may be left empty depends on the model file, which is not part of this model; the model requires one.
- Posting comments (`comment`): an unconstrained append with no rule to prove. Comments are also not shown in the modelled listing page.
- The watchlist page (`watchlist`) and the category list (`categories`): plain reads with no rule.
- The admin site (`auctions/admin.py`): it only registers the tables. Edits made through it, which could put a current bid out of step with the bid table, are outside the model.
- Concurrency: requests are handled one at a time, so the model does not show the lost update that two simultaneous bids can cause.
- Ties among equal top bids and equal creation times: the database's order is not specified. `HighestBid` and `Winner` promise only a bid of maximal price, and the listing pages promise only newest-first order. In a sound store bid prices are distinct, so the winner is unique.
- Settlement of a closed auction (payment, notification): the source marks this as not implemented.
- The numeric type of prices: the model file that declares it is not part of this model, so prices are unbounded integers with no range or decimal-place limits.
