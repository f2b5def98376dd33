/** The two derived properties of an auction item: its current price
    (`get_highest_bid`) and the name of its current winner (`get_winner`).
    Both are read-only functions of the item and the bid table. */
module Auction {
  import opened Wrappers
  import opened Records
  import Sql

  /** Some bid in the table is on `item`. */
  ghost predicate HasBidOn(item: AuctionItem, bids: seq<Bid>) {
    exists b :: b in bids && b.itemId == item.id
  }

  /** `m` is the largest amount bid on `item`: some bid on the item offers
      exactly `m`, and no bid on the item offers more. */
  ghost predicate IsTopAmount(m: real, item: AuctionItem, bids: seq<Bid>) {
    && (exists b :: b in bids && b.itemId == item.id && b.amount == m)
    && (forall b :: b in bids && b.itemId == item.id ==> b.amount <= m)
  }

  /** Every bid on `item` names a bidder present in the user table. */
  ghost predicate BiddersKnown(item: AuctionItem, bids: seq<Bid>, users: UserTable) {
    forall b :: b in bids && b.itemId == item.id ==> b.userId in users
  }

  /** Python truthiness of the aggregate's scalar: `None` and `0.0` are both
      falsy. */
  predicate Truthy(x: Option<real>) {
    x.Some? && x.value != 0.0
  }

  /** The item's current price: the largest amount bid on it, unless that
      aggregate is falsy (no bids, or a largest bid of exactly 0), in which
      case the starting price. The result is not clamped to the starting
      price. */
  function HighestBid(item: AuctionItem, bids: seq<Bid>): (price: real)
    ensures !HasBidOn(item, bids) ==> price == item.startingPrice
    ensures forall m :: IsTopAmount(m, item, bids) && m != 0.0 ==> price == m
    ensures forall m :: IsTopAmount(m, item, bids) && m == 0.0 ==> price == item.startingPrice
    ensures price == item.startingPrice || (price != 0.0 && IsTopAmount(price, item, bids))
  {
    var top := Sql.MaxAmount(Sql.FilterByItem(bids, item.id));
    if Truthy(top) then top.value else item.startingPrice
  }

  /** The bid `get_winner` reads: a bid on the item of largest amount, or
      none when the item has no bids. */
  function SelectedBid(item: AuctionItem, bids: seq<Bid>): (r: Option<Bid>)
    ensures r.None? <==> !HasBidOn(item, bids)
    ensures r.Some? ==> r.value in bids && r.value.itemId == item.id
    ensures r.Some? ==> IsTopAmount(r.value.amount, item, bids)
  {
    Sql.FirstByAmountDesc(Sql.FilterByItem(bids, item.id))
  }

  /** Why `get_winner` can raise: the selected bid's `user_id` has no row in
      the user table, so `bidder` is `None` and reading its `username`
      fails. */
  datatype WinnerError = BidderNotFound(userId: UserId)

  /** The item's current winner: `Success(None)` when nobody has bid,
      otherwise the username of the bidder of some bid of largest amount. */
  function Winner(item: AuctionItem, bids: seq<Bid>, users: UserTable): (r: Result<Option<string>, WinnerError>)
    ensures r == Success(None) <==> !HasBidOn(item, bids)
    ensures r.Success? && r.value.Some? ==>
      exists b :: b in bids && b.itemId == item.id && IsTopAmount(b.amount, item, bids)
                  && b.userId in users && users[b.userId].username == r.value.value
    ensures r.Failure? ==>
      exists b :: b in bids && b.itemId == item.id && IsTopAmount(b.amount, item, bids)
                  && b.userId == r.error.userId && b.userId !in users
    ensures BiddersKnown(item, bids, users) ==> r.Success?
  {
    match SelectedBid(item, bids)
    case None => Success(None)
    case Some(b) =>
      if b.userId in users then Success(Some(users[b.userId].username))
      else Failure(BidderNotFound(b.userId))
  }
}
