/** The database the handles share through their connection string: the four tables as
    maps from key to row, the identity counters that number new rows, and the constraints
    the schema and the code keep (unique names, foreign keys, the price invariant). */
module Storage {
  import opened Common
  import opened Records
  import Bidding

  /** Every site has a positive session expiration and bid increment; names are unique
      (index SiteUnique). */
  ghost predicate SitesValid(sites: map<int, SiteRow>) {
    && (forall k :: k in sites ==>
          sites[k].sessionExpirationInSeconds > 0 && sites[k].minimumBidIncrement > 0.0)
    && (forall k, k' :: k in sites && k' in sites && sites[k].name == sites[k'].name ==> k == k')
  }

  /** Usernames are unique over the whole store: CreateUser checks them without the site. */
  ghost predicate UsernamesUnique(users: map<int, UserRow>) {
    forall u, u' :: u in users && u' in users && users[u].username == users[u'].username ==> u == u'
  }

  /** A session row stored under key `s`: it belongs to user `s` (Session.UserId is the
      foreign key, one session per user), whose SessionId is set, and to a stored site. */
  ghost predicate SessionFits(users: map<int, UserRow>, sites: map<int, SiteRow>, s: int,
                              row: SessionRow) {
    && s == row.userId && s in users && users[s].hasSessionId && row.siteId in sites
  }

  ghost predicate SessionsFit(sessions: map<int, SessionRow>, users: map<int, UserRow>,
                              sites: map<int, SiteRow>) {
    forall s :: s in sessions ==> SessionFits(users, sites, s, sessions[s])
  }

  /** An auction row references a stored site, a stored seller and, if any, a stored
      winner of the same site, and keeps the price invariant. */
  ghost predicate AuctionFits(users: map<int, UserRow>, sites: map<int, SiteRow>, a: AuctionRow) {
    && a.siteId in sites
    && a.sellerUserId in users
    && (a.winnerUserId.Some? ==>
          a.winnerUserId.value in users && users[a.winnerUserId.value].siteId == a.siteId)
    && Bidding.PricesConsistent(a)
  }

  ghost predicate AuctionsFit(auctions: map<int, AuctionRow>, users: map<int, UserRow>,
                              sites: map<int, SiteRow>) {
    forall k :: k in auctions ==> AuctionFits(users, sites, auctions[k])
  }

  class Store {
    const limits: Limits
    var sites: map<int, SiteRow>
    var users: map<int, UserRow>
    /** Keyed by the owning user's UserId, whose text is the Id column. */
    var sessions: map<int, SessionRow>
    var auctions: map<int, AuctionRow>
    /** Identity columns: the key the next inserted row receives. */
    var nextSiteId: int
    var nextUserId: int
    var nextAuctionId: int

    /** The database constraints (the foreign keys are those of
        AuctionDbContext.OnModelCreating). */
    ghost predicate Valid()
      reads this
    {
      && limits.Valid()
      && 1 <= nextSiteId && 1 <= nextUserId && 1 <= nextAuctionId
      && (forall k :: k in sites ==> 1 <= k < nextSiteId)
      && (forall k :: k in users ==> 1 <= k < nextUserId)
      && (forall k :: k in auctions ==> 1 <= k < nextAuctionId)
      && SitesValid(sites)
      && UsernamesUnique(users)
      && SessionsFit(sessions, users, sites)
      && AuctionsFit(auctions, users, sites)
    }

    /** An empty database. */
    constructor (limits: Limits)
      requires limits.Valid()
      ensures Valid() && this.limits == limits
      ensures sites == map[] && users == map[] && sessions == map[] && auctions == map[]
      ensures nextSiteId == 1 && nextUserId == 1 && nextAuctionId == 1
    {
      this.limits := limits;
      sites, users, sessions, auctions := map[], map[], map[], map[];
      nextSiteId, nextUserId, nextAuctionId := 1, 1, 1;
    }

    /** Whether a user row has this site and username. */
    predicate HasUser(siteId: int, username: string)
      reads this`users
    {
      exists u :: u in users && users[u].siteId == siteId && users[u].username == username
    }

    /** The UserId of the user row with this site and username (`SingleOrDefault`). */
    ghost function FindUser(siteId: int, username: string): (r: Option<int>)
      reads this`users
      ensures r.Some? <==> HasUser(siteId, username)
      ensures r.Some? ==> r.value in users && users[r.value].siteId == siteId
                          && users[r.value].username == username
    {
      if HasUser(siteId, username) then
        Some(var u :| u in users && users[u].siteId == siteId && users[u].username == username; u)
      else None
    }

    /** The row a query by site and username finds is the only one it can find. */
    lemma FindUserIsUnique(u: int)
      requires Valid() && u in users
      ensures FindUser(users[u].siteId, users[u].username) == Some(u)
    {
    }

    /** Whether some user row, of any site, has this username. */
    predicate HasUsername(username: string)
      reads this`users
    {
      exists u :: u in users && users[u].username == username
    }

    /** Whether a site row has this name. */
    predicate HasSite(name: string)
      reads this`sites
    {
      exists k :: k in sites && sites[k].name == name
    }

    /** The SiteId of the site row with this name, if any. */
    ghost function FindSite(name: string): (r: Option<int>)
      reads this`sites
      ensures r.Some? <==> HasSite(name)
      ensures r.Some? ==> r.value in sites && sites[r.value].name == name
    {
      if HasSite(name) then
        Some(var k :| k in sites && sites[k].name == name; k)
      else None
    }

    /** INSERT into Sites: the row receives the next identity value. */
    method InsertSite(row: SiteRow) returns (k: int)
      requires Valid()
      requires row.sessionExpirationInSeconds > 0 && row.minimumBidIncrement > 0.0
      requires !HasSite(row.name)
      modifies this
      ensures Valid()
      ensures k == old(nextSiteId) && k !in old(sites) && nextSiteId == k + 1
      ensures sites == old(sites)[k := row]
      ensures users == old(users) && sessions == old(sessions) && auctions == old(auctions)
      ensures nextUserId == old(nextUserId) && nextAuctionId == old(nextAuctionId)
    {
      k := nextSiteId;
      sites := sites[k := row];
      nextSiteId := k + 1;
    }

    /** DELETE of site `k`, which no session and no auction references (both foreign keys
        have no delete action). */
    method RemoveSite(k: int)
      requires Valid()
      requires forall s :: s in sessions ==> sessions[s].siteId != k
      requires forall a :: a in auctions ==> auctions[a].siteId != k
      modifies this
      ensures Valid()
      ensures sites == old(sites) - {k}
      ensures users == old(users) && sessions == old(sessions) && auctions == old(auctions)
      ensures nextSiteId == old(nextSiteId) && nextUserId == old(nextUserId)
      ensures nextAuctionId == old(nextAuctionId)
    {
      sites := sites - {k};
    }

    /** INSERT into Users: the row receives the next identity value. */
    method InsertUser(row: UserRow) returns (k: int)
      requires Valid()
      requires !row.hasSessionId
      requires !HasUsername(row.username)
      modifies this
      ensures Valid()
      ensures k == old(nextUserId) && k !in old(users) && nextUserId == k + 1
      ensures users == old(users)[k := row]
      ensures sites == old(sites) && sessions == old(sessions) && auctions == old(auctions)
      ensures nextSiteId == old(nextSiteId) && nextAuctionId == old(nextAuctionId)
    {
      k := nextUserId;
      users := users[k := row];
      nextUserId := k + 1;
    }

    /** DELETE of auction rows. */
    method RemoveAuctions(ks: set<int>)
      requires Valid()
      modifies this
      ensures Valid()
      ensures auctions == old(auctions) - ks
      ensures sites == old(sites) && users == old(users) && sessions == old(sessions)
      ensures nextSiteId == old(nextSiteId) && nextUserId == old(nextUserId)
      ensures nextAuctionId == old(nextAuctionId)
    {
      auctions := auctions - ks;
    }

    /** UPDATE of a session's DbValidUntil. */
    method SetSessionValidUntil(s: int, t: Time)
      requires Valid() && s in sessions
      modifies this
      ensures Valid()
      ensures sessions == old(sessions)[s := old(sessions[s]).(validUntil := t)]
      ensures sites == old(sites) && users == old(users) && auctions == old(auctions)
      ensures nextSiteId == old(nextSiteId) && nextUserId == old(nextUserId)
      ensures nextAuctionId == old(nextAuctionId)
    {
      sessions := sessions[s := sessions[s].(validUntil := t)];
    }

    /** DELETE of session rows. */
    method RemoveSessions(ss: set<int>)
      requires Valid()
      modifies this
      ensures Valid()
      ensures sessions == old(sessions) - ss
      ensures sites == old(sites) && users == old(users) && auctions == old(auctions)
      ensures nextSiteId == old(nextSiteId) && nextUserId == old(nextUserId)
      ensures nextAuctionId == old(nextAuctionId)
    {
      sessions := sessions - ss;
    }

    /** INSERT into Sessions of the session of user `u`, which has none, with the user's
        SessionId set. */
    method OpenSession(u: int, siteId: int, validUntil: Time)
      requires Valid() && u in users && u !in sessions && siteId in sites
      modifies this
      ensures Valid()
      ensures sessions == old(sessions)[u := SessionRow(siteId, u, validUntil)]
      ensures users == old(users)[u := old(users[u]).(hasSessionId := true)]
      ensures sites == old(sites) && auctions == old(auctions)
      ensures nextSiteId == old(nextSiteId) && nextUserId == old(nextUserId)
      ensures nextAuctionId == old(nextAuctionId)
    {
      users := users[u := users[u].(hasSessionId := true)];
      sessions := sessions[u := SessionRow(siteId, u, validUntil)];
    }

    /** DELETE of user `u`: its session row and the auctions it sells go with it (cascade).
        The winner foreign key has no delete action, so no auction may name `u` as winner. */
    method RemoveUser(u: int)
      requires Valid() && u in users
      requires forall k :: k in auctions ==> auctions[k].winnerUserId != Some(u)
      modifies this
      ensures Valid()
      ensures users == old(users) - {u} && sessions == old(sessions) - {u}
      ensures auctions == map k | k in old(auctions) && old(auctions)[k].sellerUserId != u
                            :: old(auctions)[k]
      ensures sites == old(sites) && nextSiteId == old(nextSiteId)
      ensures nextUserId == old(nextUserId) && nextAuctionId == old(nextAuctionId)
    {
      users := users - {u};
      sessions := sessions - {u};
      auctions := map k | k in auctions && auctions[k].sellerUserId != u :: auctions[k];
    }

    /** The writes of an accepted bid: the bidder's session gets expiry `t`, and auction `k`
        gets the row the bidding rules produced (same links, prices kept consistent). */
    method RecordBid(s: int, t: Time, k: int, row: AuctionRow)
      requires Valid() && s in sessions && k in auctions
      requires row.siteId == auctions[k].siteId && row.sellerUserId == auctions[k].sellerUserId
      requires row.winnerUserId.Some? ==>
        row.winnerUserId.value in users && users[row.winnerUserId.value].siteId == row.siteId
      requires Bidding.PricesConsistent(row)
      modifies this
      ensures Valid()
      ensures sessions == old(sessions)[s := old(sessions[s]).(validUntil := t)]
      ensures auctions == old(auctions)[k := row]
      ensures sites == old(sites) && users == old(users)
      ensures nextSiteId == old(nextSiteId) && nextUserId == old(nextUserId)
      ensures nextAuctionId == old(nextAuctionId)
    {
      sessions := sessions[s := sessions[s].(validUntil := t)];
      auctions := auctions[k := row];
    }

    /** The single SaveChanges of CreateAuction: a new auction row with the next identity
        value, and the creating session's expiry set to `t`. */
    method AddAuction(row: AuctionRow, s: int, t: Time) returns (k: int)
      requires Valid() && s in sessions
      requires row.siteId in sites && row.sellerUserId in users && row.winnerUserId.None?
      requires Bidding.PricesConsistent(row)
      modifies this
      ensures Valid()
      ensures k == old(nextAuctionId) && k !in old(auctions) && nextAuctionId == k + 1
      ensures auctions == old(auctions)[k := row]
      ensures sessions == old(sessions)[s := old(sessions[s]).(validUntil := t)]
      ensures sites == old(sites) && users == old(users)
      ensures nextSiteId == old(nextSiteId) && nextUserId == old(nextUserId)
    {
      k := nextAuctionId;
      auctions := auctions[k := row];
      nextAuctionId := k + 1;
      sessions := sessions[s := sessions[s].(validUntil := t)];
    }
  }
}
