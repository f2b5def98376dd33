/** The three query primitives the item's derivations are built from:
    a `WHERE item_id = ?` filter, the `max(amount)` aggregate, and
    `ORDER BY amount DESC LIMIT 1`. */
module Sql {
  import opened Wrappers
  import opened Records

  /** The bids whose `itemId` column equals `itemId`, in scan order: every
      matching row is kept as often as it occurs, no other row is kept, and
      the kept rows stand in the order of the table. */
  function FilterByItem(bids: seq<Bid>, itemId: ItemId): (r: seq<Bid>)
    ensures forall b :: b in r <==> b in bids && b.itemId == itemId
    ensures forall b :: multiset(r)[b] == if b.itemId == itemId then multiset(bids)[b] else 0
    ensures IsSubsequence(r, bids)
  {
    if |bids| == 0 then []
    else
      var rest := FilterByItem(bids[1..], itemId);
      assert bids == [bids[0]] + bids[1..];
      if bids[0].itemId == itemId then [bids[0]] + rest else rest
  }

  /** `sub` is obtained from `s` by deleting some elements and keeping the
      rest in order. */
  predicate IsSubsequence(sub: seq<Bid>, s: seq<Bid>)
    decreases |s|
  {
    if |sub| == 0 then true
    else if |s| == 0 then false
    else if sub[0] == s[0] then IsSubsequence(sub[1..], s[1..])
    else IsSubsequence(sub, s[1..])
  }

  /** The `max(amount)` aggregate: NULL (None) over no rows, otherwise an
      amount of some row that no row exceeds. */
  function MaxAmount(bids: seq<Bid>): (r: Option<real>)
    ensures r.None? <==> |bids| == 0
    ensures r.Some? ==> exists b :: b in bids && b.amount == r.value
    ensures r.Some? ==> forall b :: b in bids ==> b.amount <= r.value
  {
    if |bids| == 0 then None
    else
      match MaxAmount(bids[1..])
      case None => Some(bids[0].amount)
      case Some(m) => Some(if bids[0].amount >= m then bids[0].amount else m)
  }

  /** `ORDER BY amount DESC` followed by `.first()`: no row over no rows,
      otherwise a row of largest amount. Which of several equal-amount rows
      comes first is up to the engine; this definition takes the earliest in
      scan order, and the contract promises only "some maximal row". */
  function FirstByAmountDesc(bids: seq<Bid>): (r: Option<Bid>)
    ensures r.None? <==> |bids| == 0
    ensures r.Some? ==> r.value in bids
    ensures r.Some? ==> forall b :: b in bids ==> b.amount <= r.value.amount
  {
    if |bids| == 0 then None
    else
      match FirstByAmountDesc(bids[1..])
      case None => Some(bids[0])
      case Some(top) => if bids[0].amount >= top.amount then Some(bids[0]) else Some(top)
  }
}
