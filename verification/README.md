# Auction item price and winner

This project models how an auction item in a small Flask/SQLAlchemy
marketplace derives two values from its bid history:

- its **current price** (`AuctionItem.get_highest_bid`), which is the `max(amount)`
  over the bids on the item. If that aggregate is falsy it is the item's
  `starting_price` instead. The aggregate is falsy when it is NULL (no bids)
  and also when it is exactly `0`;
- its **winner** (`AuctionItem.get_winner`): the username of the bidder of the first row of
  the item's bids ordered by amount descending, or `None` when the item has no bids.

Records are immutable datatypes (`Records.User`, `Records.AuctionItem`,
`Records.Bid`). The bid table is a `seq<Bid>` in the engine's scan order and
the user table is a `map` keyed by primary key. The three SQL building blocks
(`WHERE item_id = ?`, the `max` aggregate, `ORDER BY amount DESC LIMIT 1`) are
pure functions in module `Sql`. The two item methods are in module `Auction`.
Module `AuctionProperties` holds the lemmas relating them.

Files: `wrappers.dfy` (Option/Result), `records.dfy`, `sql.dfy`, `auction.dfy`,
`auction_properties.dfy`.

Two faithful details:

- **Falsy zero.** The fallback at database.py:29 is a truthiness test.
  A largest bid of `0.0` therefore reports the starting price, even though a
  winner exists (`AuctionProperties.ZeroBidFallsBack`).
- **No clamp.** A nonzero largest bid below the starting price is reported as
  it is (`AuctionProperties.NoClampToStartingPrice`).

Two consequences of how the code is written:

- `get_winner` orders by amount only. Which of several tied bids comes first
  is therefore up to the database engine. `Sql.FirstByAmountDesc` picks the
  earliest in scan order, but every contract only promises "some bid of
  largest amount".
- The starting price is reported both when there are no bids and when the
  largest bid is 0.

## Model

| member | source | states |
|---|---|---|
| Sql.FilterByItem | database.py:28 | the filtered table holds exactly the bids of the table whose item id matches, each as many times as it occurs in the table, in table order (an order-preserving subsequence) |
| Sql.MaxAmount | database.py:28 | the aggregate is NULL iff there are no rows; otherwise it equals some row's amount and no row's amount exceeds it |
| Sql.FirstByAmountDesc | database.py:32 | no row iff the table is empty; otherwise the row is in the table and no row has a larger amount |
| Auction.HighestBid | database.py:27-29 | no bids on the item gives the starting price; a nonzero largest bid amount on the item is returned as is, with no clamp to the starting price; a largest amount of 0 gives the starting price; the result is always the starting price or a nonzero largest bid amount on the item |
| Auction.SelectedBid | database.py:32 | no bid iff the item has no bids; otherwise a bid on this item whose amount is the largest on the item |
| Auction.Winner | database.py:31-33 | `None` iff the item has no bids; a returned name is the username of the bidder of some largest bid on the item; an error only when such a bidder has no user row; never an error when every bidder on the item has a user row |
| AuctionProperties.FilterByItemAppend | database.py:28 | filtering a concatenation of bid tables is the concatenation of the filtered tables |
| AuctionProperties.FilterOtherItems | database.py:28 | bids on other items filter away to nothing |
| AuctionProperties.FilterByItemIdempotent | database.py:28 | filtering by the same item twice equals filtering once |
| AuctionProperties.OtherItemsIrrelevant | database.py:27-33 | inserting or removing a run of bids on other items anywhere in the table changes neither the price nor the winner |
| AuctionProperties.FilterDropsOtherItems | database.py:28 | filtering a table that contains a run of bids on other items gives the same rows as filtering it without that run |
| AuctionProperties.SameFilterSameResults | database.py:27-33 | two bid tables with the same bids on the item give the same price and the same winner |
| AuctionProperties.OnlyOwnBidsMatter | database.py:27-33 | price and winner computed from the whole table equal those computed from the item's own bids alone |
| AuctionProperties.TopAmountExists | database.py:28 | an item with at least one bid has a largest bid amount |
| AuctionProperties.FallbackIff | database.py:28-29 | the price is the starting price when there are no bids or the largest bid is 0; otherwise it is a nonzero largest bid amount on the item |
| AuctionProperties.WinnerAgreesWithHighestBid | database.py:27-33 | the bid the winner comes from carries the reported price when its amount is nonzero, and the price is the starting price when its amount is 0; when the largest bid is nonzero, a returned winner is the bidder of a bid whose amount equals the reported price |
| AuctionProperties.ZeroBidFallsBack | database.py:29 | an item listed at 100 whose only bid is 0 reports price 100 and still names that bidder as winner |
| AuctionProperties.NoClampToStartingPrice | database.py:28-29 | an item listed at 100 with bids 50 and 30 reports price 50 |

## Left out

- Amounts are `real`. Python float rounding, NaN and infinities are not modelled. Only ordering, equality and the zero test matter to the derivations.
- Sql.FirstByAmountDesc: the engine's tie-breaking order is engine-defined. The definition fixes one choice, the earliest tied row in scan order. Every contract promises only "some row of largest amount", which is weaker than what this definition computes.
- `end_time`, `is_active` and `timestamp` are carried in the records but not read by either derivation. `is_active` and `end_time` are only set when an item is constructed (database.py:22-23 gives `is_active` a default, and tests/test_basic.py:17-18 sets both). Nothing reads them, so the model attaches no behaviour to them. The clock default of `timestamp` (`datetime.utcnow`) is construction-time I/O and is not modelled.
- The HTTP routes in app.py (home, add_item, register, login, logout): these are request handling, template rendering, file upload, password hashing and session management, and have no derivable invariant.
- The WTForms form classes (app.py, forms.py): these are declarative validators whose behaviour lives in a library that is not part of this model.
- The database session, transactions and persistence: the tables are passed as values.
- The user table is keyed by primary key, and `Records.KeysMatch` states that each row sits under its own id. Neither derivation depends on that agreement: a winner's name is read from the row stored under the bid's `user_id`.
