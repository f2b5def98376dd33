/** Properties relating the item's price and winner to each other and to
    the rest of the bid table. */
module AuctionProperties {
  import opened Wrappers
  import opened Records
  import Sql
  import opened Auction

  /** Filtering distributes over concatenation of bid tables. */
  lemma {:induction false} FilterByItemAppend(a: seq<Bid>, b: seq<Bid>, itemId: ItemId)
    ensures Sql.FilterByItem(a + b, itemId) == Sql.FilterByItem(a, itemId) + Sql.FilterByItem(b, itemId)
    decreases |a|
  {
    if |a| == 0 {
      assert a + b == b;
    } else {
      assert (a + b)[1..] == a[1..] + b;
      FilterByItemAppend(a[1..], b, itemId);
    }
  }

  /** Bids on other items filter away entirely. */
  lemma {:induction false} FilterOtherItems(others: seq<Bid>, itemId: ItemId)
    requires forall b :: b in others ==> b.itemId != itemId
    ensures Sql.FilterByItem(others, itemId) == []
    decreases |others|
  {
    if |others| > 0 {
      assert others[0] in others;
      assert forall b :: b in others[1..] ==> b in others;
      FilterOtherItems(others[1..], itemId);
    }
  }

  /** Filtering twice by the same item is filtering once. */
  lemma {:induction false} FilterByItemIdempotent(bids: seq<Bid>, itemId: ItemId)
    ensures Sql.FilterByItem(Sql.FilterByItem(bids, itemId), itemId) == Sql.FilterByItem(bids, itemId)
    decreases |bids|
  {
    if |bids| > 0 {
      FilterByItemIdempotent(bids[1..], itemId);
      if bids[0].itemId == itemId {
        var rest := Sql.FilterByItem(bids[1..], itemId);
        assert ([bids[0]] + rest)[1..] == rest;
      }
    }
  }

  /** Inserting a run of bids on other items anywhere in the table, or
      removing one, changes neither the price nor the winner. */
  lemma OtherItemsIrrelevant(item: AuctionItem, pre: seq<Bid>, others: seq<Bid>, post: seq<Bid>, users: UserTable)
    requires forall b :: b in others ==> b.itemId != item.id
    ensures HighestBid(item, pre + others + post) == HighestBid(item, pre + post)
    ensures Winner(item, pre + others + post, users) == Winner(item, pre + post, users)
  {
    FilterDropsOtherItems(pre, others, post, item.id);
    SameFilterSameResults(item, pre + others + post, pre + post, users);
  }

  /** Filtering a table with a run of other-item bids in it gives the same
      rows as filtering the table without that run. */
  lemma FilterDropsOtherItems(pre: seq<Bid>, others: seq<Bid>, post: seq<Bid>, itemId: ItemId)
    requires forall b :: b in others ==> b.itemId != itemId
    ensures Sql.FilterByItem(pre + others + post, itemId) == Sql.FilterByItem(pre + post, itemId)
  {
    var kept, dropped, rest := Sql.FilterByItem(pre, itemId), Sql.FilterByItem(others, itemId), Sql.FilterByItem(post, itemId);
    FilterByItemAppend(pre + others, post, itemId);
    FilterByItemAppend(pre, others, itemId);
    FilterByItemAppend(pre, post, itemId);
    FilterOtherItems(others, itemId);
    assert kept + dropped == kept;
  }

  /** Price and winner are functions of the item's filtered bids. */
  lemma SameFilterSameResults(item: AuctionItem, a: seq<Bid>, b: seq<Bid>, users: UserTable)
    requires Sql.FilterByItem(a, item.id) == Sql.FilterByItem(b, item.id)
    ensures HighestBid(item, a) == HighestBid(item, b)
    ensures Winner(item, a, users) == Winner(item, b, users)
  {
  }

  /** Price and winner depend only on the bids on the item itself. */
  lemma OnlyOwnBidsMatter(item: AuctionItem, bids: seq<Bid>, users: UserTable)
    ensures HighestBid(item, bids) == HighestBid(item, Sql.FilterByItem(bids, item.id))
    ensures Winner(item, bids, users) == Winner(item, Sql.FilterByItem(bids, item.id), users)
  {
    FilterByItemIdempotent(bids, item.id);
  }

  /** Every item that has bids has a largest amount bid on it. */
  lemma TopAmountExists(item: AuctionItem, bids: seq<Bid>)
    requires HasBidOn(item, bids)
    ensures exists m :: IsTopAmount(m, item, bids)
  {
    var top := Sql.MaxAmount(Sql.FilterByItem(bids, item.id));
    assert IsTopAmount(top.value, item, bids);
  }

  /** The price falls back to the starting price exactly when the item has
      no bids or its largest bid is 0; otherwise it is the largest bid.
      A corollary of `HighestBid`'s contract, stated as one if-and-only-if. */
  lemma FallbackIff(item: AuctionItem, bids: seq<Bid>)
    ensures !HasBidOn(item, bids) || IsTopAmount(0.0, item, bids) ==>
      HighestBid(item, bids) == item.startingPrice
    ensures HasBidOn(item, bids) && !IsTopAmount(0.0, item, bids) ==>
      HighestBid(item, bids) != 0.0 && IsTopAmount(HighestBid(item, bids), item, bids)
  {
  }

  /** The bid `get_winner` selects carries the price `get_highest_bid`
      reports whenever that bid's amount is nonzero; when it is 0 the price
      is the starting price. A reported winner is that bid's bidder. */
  lemma WinnerAgreesWithHighestBid(item: AuctionItem, bids: seq<Bid>, users: UserTable)
    requires HasBidOn(item, bids)
    ensures var sel := SelectedBid(item, bids).value;
      HighestBid(item, bids) == (if sel.amount != 0.0 then sel.amount else item.startingPrice)
    ensures var w := Winner(item, bids, users);
      w.Success? && w.value.Some? && !IsTopAmount(0.0, item, bids) ==>
        exists b :: b in bids && b.itemId == item.id && b.amount == HighestBid(item, bids)
                    && b.userId in users && users[b.userId].username == w.value.value
  {
  }

  /** An item listed at 100 whose only bid is 0: the falsy aggregate makes
      the price 100, even though a bid (and so a winner) exists. */
  lemma ZeroBidFallsBack(users: UserTable)
    requires 7 in users
    ensures
      var item := AuctionItem(1, "lamp", "brass", 100.0, "lamp.jpg", 2, 0, true);
      var bids := [Bid(1, 0.0, 0, 7, 1)];
      HighestBid(item, bids) == 100.0 && Winner(item, bids, users) == Success(Some(users[7].username))
  {
  }

  /** An item listed at 100 with bids of 50 and 30: the price is 50, below
      the starting price. */
  lemma NoClampToStartingPrice()
    ensures
      var item := AuctionItem(1, "lamp", "brass", 100.0, "lamp.jpg", 2, 0, true);
      HighestBid(item, [Bid(1, 50.0, 0, 7, 1), Bid(2, 30.0, 1, 8, 1)]) == 50.0
  {
  }
}
