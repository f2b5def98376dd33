/** The three mapped tables of the auction store: users, auction items and bids.
    Each record is an immutable value; a table is a sequence of records in the
    order the database engine scans them, or, for users, a map keyed by the
    primary key. */
module Records {

  type UserId = int
  type ItemId = int
  type BidId = int

  /** A registered account. `username` is unique and non-null; the password
      column only ever holds a hash. */
  datatype User = User(id: UserId, username: string, passwordHash: string)

  /** One listing. `startingPrice` is a float column; `endTime` is an
      absolute timestamp and `isActive` defaults to true. Neither `endTime`
      nor `isActive` is read by the price or winner derivations. */
  datatype AuctionItem = AuctionItem(
    id: ItemId,
    title: string,
    description: string,
    startingPrice: real,
    imageFilename: string,
    ownerId: UserId,
    endTime: int,
    isActive: bool)

  /** One offer: `userId` names the bidder and `itemId` the item bid on. */
  datatype Bid = Bid(id: BidId, amount: real, timestamp: int, userId: UserId, itemId: ItemId)

  /** The user table, keyed by primary key; `bid.bidder` is a lookup here. */
  type UserTable = map<UserId, User>

  /** Every row of the user table is stored under its own primary key. */
  predicate KeysMatch(users: UserTable) {
    forall k :: k in users ==> users[k].id == k
  }
}
