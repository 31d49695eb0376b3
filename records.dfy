/** The rows the Entity Framework context stores: one datatype per entity table. Keys
    (SiteId, UserId, session Id, auction Id) are the keys of the maps in Storage.Store. */
module Records {
  import opened Common

  /** A row of Sites. */
  datatype SiteRow = SiteRow(
    name: string,
    timezone: int,
    sessionExpirationInSeconds: int,
    minimumBidIncrement: real)

  /** A row of Users. The SessionId column is a plain column (the Session/User link is
      Session.UserId) and the code only ever writes the user's own id as text into it, so
      `hasSessionId` says whether it is set. */
  datatype UserRow = UserRow(
    siteId: int,
    username: string,
    password: string,
    hasSessionId: bool)

  /** A row of Sessions; `validUntil` is the DbValidUntil column. The row's key, the Id
      column, is the text of `userId`; the store keys it by `userId` itself, which
      Common.IdStringInjective shows to be the same key. */
  datatype SessionRow = SessionRow(
    siteId: int,
    userId: int,
    validUntil: Time)

  /** A row of Auctions. `topAmount == 0` is read by the bidding code as "no bid yet". */
  datatype AuctionRow = AuctionRow(
    siteId: int,
    description: string,
    endsOn: Time,
    startingPrice: real,
    actualPrice: real,
    topAmount: real,
    sellerUserId: int,
    winnerUserId: Option<int>)
}
