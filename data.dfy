/** The entity handles of the auction site: User, Auction and Session objects. Each holds
    the store it reads and writes (its connection string) and the values it was built
    with; every operation re-reads the rows it needs, as the code does. */
module Data {
  import opened Common
  import opened Records
  import opened Storage
  import Bidding

  /** What Auction.Bid does with an offer, decided on the state before the call. */
  datatype Verdict =
    | Fail(error: Error)                   // an exception, nothing written
    | Refuse                               // `false`, nothing written
    | Accept(bidder: int, row: AuctionRow) // `true`: the bidder's UserId and the new row
  {
    function Outcome(): (r: Result<bool>)
      ensures r.Ok? <==> !Fail?
      ensures r == Ok(true) <==> Accept?
    {
      match this
      case Fail(e) => Err(e)
      case Refuse => Ok(false)
      case Accept(_, _) => Ok(true)
    }
  }

  /** The handles in `hs` are the auctions with keys `keys`, each once. */
  ghost predicate ListsAuctions(hs: seq<Auction>, keys: set<int>) {
    && (forall i :: 0 <= i < |hs| ==> hs[i].id in keys)
    && (forall i, j :: 0 <= i < j < |hs| ==> hs[i].id != hs[j].id)
    && (forall k :: k in keys ==> exists i :: 0 <= i < |hs| && hs[i].id == k)
  }

  lemma ListsAuctionsAppend(hs: seq<Auction>, keys: set<int>, h: Auction)
    requires ListsAuctions(hs, keys) && h.id !in keys
    ensures ListsAuctions(hs + [h], keys + {h.id})
  {
    var hs' := hs + [h];
    forall k | k in keys + {h.id}
      ensures exists i :: 0 <= i < |hs'| && hs'[i].id == k
    {
      if k == h.id {
        assert hs'[|hs|].id == k;
      } else {
        var i :| 0 <= i < |hs| && hs[i].id == k;
        assert hs'[i].id == k;
      }
    }
  }

  class User {
    const db: Store
    const siteId: int
    const username: string
    const password: string
    /** The UserId key. Only a row read from the store carries it; the public constructor
        leaves it at 0. */
    const userId: int

    constructor (db: Store, siteId: int, username: string, password: string)
      ensures this.db == db && this.siteId == siteId && this.username == username
      ensures this.password == password && userId == 0
    {
      this.db := db;
      this.siteId := siteId;
      this.username := username;
      this.password := password;
      userId := 0;
    }

    /** An entity materialised by a query (a navigation such as SellerUser or Owner). */
    constructor Loaded(db: Store, userId: int, row: UserRow)
      ensures this.db == db && this.siteId == row.siteId && this.username == row.username
      ensures this.password == row.password && this.userId == userId
    {
      this.db := db;
      siteId := row.siteId;
      username := row.username;
      password := row.password;
      this.userId := userId;
    }

    /** `IsDeleted`: no user row has this site and username. */
    predicate IsDeleted(): (r: bool)
      reads db`users
      ensures r <==> forall u :: u in db.users ==>
                       db.users[u].siteId != siteId || db.users[u].username != username
    {
      !db.HasUser(siteId, username)
    }

    /** `Equals`: same site, same username. */
    function Equals(other: User?): (r: bool)
      ensures r <==> other != null && HashKey() == other.HashKey()
    {
      other != null && siteId == other.siteId && username == other.username
    }

    /** What `GetHashCode` combines. */
    function HashKey(): (int, string) {
      (siteId, username)
    }

    /** The auction's winner row has this username and this site. */
    predicate WonBy(a: AuctionRow)
      reads db`users
    {
      a.winnerUserId.Some? && a.winnerUserId.value in db.users
      && db.users[a.winnerUserId.value].username == username
      && db.users[a.winnerUserId.value].siteId == siteId
    }

    /** The auctions this user has won: its winner is this user, and it has ended. */
    ghost function WonKeys(now: Time): set<int>
      reads db
    {
      set k | k in db.auctions && WonBy(db.auctions[k]) && db.auctions[k].endsOn <= now
    }

    method WonAuctions(now: Time) returns (r: Result<seq<Auction>>)
      requires db.Valid()
      ensures IsDeleted() ==> r == Err(InvalidOperation)
      ensures !IsDeleted() ==> r.Ok? && ListsAuctions(r.value, WonKeys(now))
      ensures r.Ok? ==> forall i :: 0 <= i < |r.value| ==>
        var h := r.value[i];
        && h.id in db.auctions && h.db == db && h.siteId == siteId
        && h.Shows(db.auctions[h.id], db.auctions[h.id].startingPrice)
        && h.seller.userId == h.sellerUserId
    {
      if IsDeleted() {
        return Err(InvalidOperation);
      }
      var winning := set k | k in db.auctions && WonBy(db.auctions[k]);
      var list: seq<Auction> := [];
      var todo := winning;
      while todo != {}
        invariant todo <= winning
        invariant ListsAuctions(list, WonKeys(now) - todo)
        invariant forall i :: 0 <= i < |list| ==>
          && list[i].id in db.auctions && list[i].db == db && list[i].siteId == siteId
          && list[i].Shows(db.auctions[list[i].id], db.auctions[list[i].id].startingPrice)
          && list[i].seller.userId == list[i].sellerUserId
        decreases todo
      {
        HasElement(todo);
        var k :| k in todo;
        var a := db.auctions[k];
        if a.endsOn <= now {
          assert AuctionFits(db.users, db.sites, a);
          var seller := new User.Loaded(db, a.sellerUserId, db.users[a.sellerUserId]);
          var h := new Auction(db, k, a.sellerUserId, seller, siteId, a.description, a.endsOn,
                               a.startingPrice, a.actualPrice, a.topAmount);
          ListsAuctionsAppend(list, WonKeys(now) - todo, h);
          assert (WonKeys(now) - todo) + {k} == WonKeys(now) - (todo - {k});
          list := list + [h];
        } else {
          assert WonKeys(now) - todo == WonKeys(now) - (todo - {k});
        }
        todo := todo - {k};
      }
      assert WonKeys(now) - todo == WonKeys(now);
      r := Ok(list);
    }

    /** The auctions whose seller is `seller`: both queries of Delete select them with
        the handle's `userId`. */
    ghost function SoldKeys(seller: int): set<int>
      reads db`auctions
    {
      set k | k in db.auctions && db.auctions[k].sellerUserId == seller
    }

    /** One of the auctions `seller` sells has not ended yet. */
    ghost predicate SellsLiveAuction(seller: int, now: Time)
      reads db`auctions
    {
      exists k :: k in SoldKeys(seller) && db.auctions[k].endsOn >= now
    }

    /** Deletes this user. Both queries select by seller; an auction still running stops
        the deletion before anything is written; each ended one is deleted; then the user
        row goes, with its session and its remaining auctions as seller (cascade). The
        winner foreign key has no delete action: while some auction still names this user
        as winner, the store refuses and SaveChanges reports InvalidOperation, after the
        ended auctions have already been deleted. */
    method Delete(now: Time) returns (r: Result<()>)
      requires db.Valid()
      modifies db
      ensures db.Valid()
      ensures old(IsDeleted()) ==> r == Err(InvalidOperation) && unchanged(db)
      ensures !old(IsDeleted()) && old(SellsLiveAuction(userId, now)) ==>
        r == Err(InvalidOperation) && unchanged(db)
      ensures !old(IsDeleted()) && !old(SellsLiveAuction(userId, now)) ==>
        var u := old(db.FindUser(siteId, username)).value;
        var kept := old(db.auctions) - old(SoldKeys(userId));
        && db.sites == old(db.sites) && db.nextSiteId == old(db.nextSiteId)
        && db.nextUserId == old(db.nextUserId) && db.nextAuctionId == old(db.nextAuctionId)
        && (if exists k :: k in kept && kept[k].winnerUserId == Some(u) then
              && r == Err(InvalidOperation) && db.auctions == kept
              && db.users == old(db.users) && db.sessions == old(db.sessions)
            else
              && r == Ok(())
              && db.users == old(db.users) - {u} && db.sessions == old(db.sessions) - {u}
              && db.auctions == (map k | k in kept && kept[k].sellerUserId != u :: kept[k]))
    {
      if IsDeleted() {
        return Err(InvalidOperation);
      }
      var ended := SoldAuctionsEnded(userId, now);
      if !ended {
        return Err(InvalidOperation);
      }
      DeleteSold(userId);
      var u :| u in db.users && db.users[u].username == username && db.users[u].siteId == siteId;
      db.FindUserIsUnique(u);
      if exists k :: k in db.auctions && db.auctions[k].winnerUserId == Some(u) {
        return Err(InvalidOperation);
      }
      db.RemoveUser(u);
      r := Ok(());
    }

    /** Delete as evidently intended: the auctions are selected by the key of the user's
        own row instead of the handle's `userId`, which is 0 on every public handle, so the
        user is never deleted while it sells an auction that has not ended. */
    method DeleteByUserRow(now: Time) returns (r: Result<()>)
      requires db.Valid()
      modifies db
      ensures db.Valid()
      ensures old(IsDeleted()) ==> r == Err(InvalidOperation) && unchanged(db)
      ensures !old(IsDeleted()) ==>
        var u := old(db.FindUser(siteId, username)).value;
        var kept := old(db.auctions) - old(SoldKeys(u));
        && (old(SellsLiveAuction(u, now)) ==> r == Err(InvalidOperation) && unchanged(db))
        && (!old(SellsLiveAuction(u, now)) ==>
              && db.auctions == kept && db.sites == old(db.sites)
              && db.nextSiteId == old(db.nextSiteId) && db.nextUserId == old(db.nextUserId)
              && db.nextAuctionId == old(db.nextAuctionId)
              && (if exists k :: k in kept && kept[k].winnerUserId == Some(u) then
                    && r == Err(InvalidOperation)
                    && db.users == old(db.users) && db.sessions == old(db.sessions)
                  else
                    && r == Ok(())
                    && db.users == old(db.users) - {u} && db.sessions == old(db.sessions) - {u}))
      ensures r.Ok? ==> old(!IsDeleted() && !SellsLiveAuction(db.FindUser(siteId, username).value, now))
      ensures r.Ok? ==> IsDeleted()
    {
      if IsDeleted() {
        return Err(InvalidOperation);
      }
      var u :| u in db.users && db.users[u].username == username && db.users[u].siteId == siteId;
      db.FindUserIsUnique(u);
      var ended := SoldAuctionsEnded(u, now);
      if !ended {
        return Err(InvalidOperation);
      }
      DeleteSold(u);
      if exists k :: k in db.auctions && db.auctions[k].winnerUserId == Some(u) {
        return Err(InvalidOperation);
      }
      ghost var kept := db.auctions;
      db.RemoveUser(u);
      assert db.auctions == kept;
      r := Ok(());
    }

    /** The first loop of Delete, over the auctions `seller` sells: whether every one has
        ended. (Clearing the winner of each one only touches entities that are never
        saved: the second loop deletes those rows.) */
    method SoldAuctionsEnded(seller: int, now: Time) returns (ended: bool)
      ensures ended <==> !SellsLiveAuction(seller, now)
    {
      var winningAuctions := set k | k in db.auctions && db.auctions[k].sellerUserId == seller;
      var todo := winningAuctions;
      while todo != {}
        invariant todo <= winningAuctions
        invariant forall k :: k in winningAuctions - todo ==> db.auctions[k].endsOn < now
        decreases todo
      {
        HasElement(todo);
        var k :| k in todo;
        if db.auctions[k].endsOn >= now {
          return false;
        }
        todo := todo - {k};
      }
      ended := true;
    }

    /** The second loop of Delete: `auction.Delete()` on each auction `seller` sells. */
    method DeleteSold(seller: int)
      requires db.Valid()
      modifies db
      ensures db.Valid()
      ensures db.auctions == old(db.auctions) - old(SoldKeys(seller))
      ensures db.sites == old(db.sites) && db.users == old(db.users)
      ensures db.sessions == old(db.sessions)
      ensures db.nextSiteId == old(db.nextSiteId) && db.nextUserId == old(db.nextUserId)
      ensures db.nextAuctionId == old(db.nextAuctionId)
    {
      var owningAuctions := set k | k in db.auctions && db.auctions[k].sellerUserId == seller;
      var todo := owningAuctions;
      while todo != {}
        invariant todo <= owningAuctions
        invariant db.auctions == old(db.auctions) - (owningAuctions - todo)
        invariant db.sites == old(db.sites) && db.users == old(db.users)
        invariant db.sessions == old(db.sessions)
        invariant db.nextSiteId == old(db.nextSiteId) && db.nextUserId == old(db.nextUserId)
        invariant db.nextAuctionId == old(db.nextAuctionId)
        invariant db.Valid()
        decreases todo
      {
        HasElement(todo);
        var k :| k in todo;
        db.RemoveAuctions({k});
        assert db.auctions == old(db.auctions) - (owningAuctions - (todo - {k}));
        todo := todo - {k};
      }
    }
  }

  class Auction {
    const db: Store
    const id: int
    const sellerUserId: int
    const seller: User
    const siteId: int
    const description: string
    const endsOn: Time
    /** The price the handle was built with; bids below it are refused outright. */
    const startingPrice: real
    const actualPrice: real
    const topAmount: real
    /** Per-handle state (not stored): accepted bids made through this handle, and the
        sessions of the first and the latest of them. */
    var numberOfBids: nat
    var firstBidderSession: Session?
    var lastBidderSession: Session?

    constructor (db: Store, id: int, sellerUserId: int, seller: User, siteId: int,
                 description: string, endsOn: Time, startingPrice: real, actualPrice: real,
                 topAmount: real)
      ensures this.db == db && this.id == id && this.sellerUserId == sellerUserId
      ensures this.seller == seller && this.siteId == siteId && this.description == description
      ensures this.endsOn == endsOn && this.startingPrice == startingPrice
      ensures this.actualPrice == actualPrice && this.topAmount == topAmount
      ensures numberOfBids == 0 && firstBidderSession == null && lastBidderSession == null
    {
      this.db := db;
      this.id := id;
      this.sellerUserId := sellerUserId;
      this.seller := seller;
      this.siteId := siteId;
      this.description := description;
      this.endsOn := endsOn;
      this.startingPrice := startingPrice;
      this.actualPrice := actualPrice;
      this.topAmount := topAmount;
      numberOfBids := 0;
      firstBidderSession := null;
      lastBidderSession := null;
    }

    /** A handle freshly built from row `a`, showing `price` as its starting price, whose
        seller has the site and username of the row's seller. */
    ghost predicate Shows(a: AuctionRow, price: real)
      reads this, db
    {
      && sellerUserId == a.sellerUserId && description == a.description && endsOn == a.endsOn
      && startingPrice == price && actualPrice == a.actualPrice && topAmount == a.topAmount
      && a.sellerUserId in db.users
      && seller.siteId == db.users[a.sellerUserId].siteId
      && seller.username == db.users[a.sellerUserId].username
      && numberOfBids == 0 && firstBidderSession == null && lastBidderSession == null
    }

    /** `IsDeleted`: no auction row has this Id and SiteId. */
    predicate IsDeleted(): (r: bool)
      reads db`auctions
      ensures r <==> forall k :: k in db.auctions ==> k != id || db.auctions[k].siteId != siteId
    {
      !(id in db.auctions && db.auctions[id].siteId == siteId)
    }

    /** `Equals`: same site, same Id. */
    function Equals(other: Auction?): (r: bool)
      ensures r <==> other != null && HashKey() == other.HashKey()
    {
      other != null && siteId == other.siteId && id == other.id
    }

    /** What `GetHashCode` combines. */
    function HashKey(): (int, int) {
      (siteId, id)
    }

    /** Fewer than two bids through this handle, or exactly two made with one Session object
        (reference equality: two Session objects for the same user are different). */
    predicate ShowsStartingPrice()
      reads this
    {
      numberOfBids < 2 || (numberOfBids == 2 && lastBidderSession == firstBidderSession)
    }

    method CurrentPrice() returns (r: Result<real>)
      ensures IsDeleted() ==> r == Err(InvalidOperation)
      ensures !IsDeleted() && ShowsStartingPrice() ==> r == Ok(startingPrice)
      ensures !IsDeleted() && !ShowsStartingPrice() ==> r == Ok(db.auctions[id].actualPrice)
    {
      if IsDeleted() {
        return Err(InvalidOperation);
      }
      if numberOfBids < 2 || (numberOfBids == 2 && lastBidderSession == firstBidderSession) {
        return Ok(startingPrice);
      }
      r := Ok(db.auctions[id].actualPrice);
    }

    method CurrentWinner() returns (r: Result<Option<User>>)
      requires db.Valid()
      ensures IsDeleted() ==> r == Err(InvalidOperation)
      ensures !IsDeleted() ==> r.Ok? && (r.value.None? <==> db.auctions[id].winnerUserId.None?)
      ensures r.Ok? && r.value.Some? ==>
        var w := db.auctions[id].winnerUserId.value;
        && w in db.users && r.value.value.db == db && r.value.value.siteId == siteId
        && r.value.value.username == db.users[w].username
        && r.value.value.password == db.users[w].password && r.value.value.userId == 0
    {
      if IsDeleted() {
        return Err(InvalidOperation);
      }
      var a := db.auctions[id];
      assert AuctionFits(db.users, db.sites, db.auctions[id]);
      match a.winnerUserId
      case None =>
        r := Ok(None);
      case Some(w) =>
        var winner := new User(db, siteId, db.users[w].username, db.users[w].password);
        r := Ok(Some(winner));
    }

    /** The stored seller is the user this handle names as Seller. */
    ghost predicate SellerIsStored()
      reads db
    {
      && id in db.auctions && db.auctions[id].sellerUserId in db.users
      && db.users[db.auctions[id].sellerUserId].siteId == seller.siteId
      && db.users[db.auctions[id].sellerUserId].username == seller.username
    }

    /** The checks of Bid in their order, then the bidding rules on the stored row. The
        handle's EndsOn and StartingPrice are used, and the session's ValidUntil getter,
        which reads the session's own database. */
    ghost function BidVerdict(session: Session?, offer: real, now: Time): (v: Verdict)
      reads db, session, if session == null then {} else {session.db}
      requires db.Valid()
      ensures v.Accept? ==>
        && !IsDeleted() && siteId in db.sites && session != null && session.userId in db.sessions
        && v.bidder in db.users && db.users[v.bidder].siteId == siteId
        && Bidding.Arbitrate(db.auctions[id], v.bidder, offer,
                             db.sites[siteId].minimumBidIncrement) == Bidding.Accept(v.row)
        && 0.0 <= offer
    {
      if IsDeleted() then Fail(InvalidOperation)
      else if endsOn < now then Fail(InvalidOperation)
      else if offer < 0.0 then Fail(OutOfRange)
      else if offer < startingPrice then Refuse
      else if session == null then Fail(ArgumentNull)
      else if session.userId !in db.sessions then Fail(Argument)
      else
        match db.FindUser(session.user.siteId, session.user.username)
        case None => Fail(InvalidOperation)
        case Some(b) =>
          if session.ValidUntil() < now then Fail(Argument)
          else if db.users[b].siteId == seller.siteId && db.users[b].username == seller.username then
            Fail(Argument)
          else if db.users[b].siteId != siteId then Fail(Argument)
          else
            assert AuctionFits(db.users, db.sites, db.auctions[id]);
            match Bidding.Arbitrate(db.auctions[id], b, offer, db.sites[siteId].minimumBidIncrement)
            case Reject => Refuse
            case Accept(row) => Accept(b, row)
    }

    /** A bid this handle accepts never makes the seller the winner. */
    lemma AcceptedBidderIsNotSeller(session: Session?, offer: real, now: Time)
      requires db.Valid() && SellerIsStored()
      requires BidVerdict(session, offer, now).Accept?
      ensures BidVerdict(session, offer, now).bidder != db.auctions[id].sellerUserId
    {
    }

    method Bid(session: Session?, offer: real, now: Time) returns (r: Result<bool>)
      requires db.Valid()
      modifies this, db
      ensures db.Valid()
      ensures r == old(BidVerdict(session, offer, now)).Outcome()
      ensures !old(BidVerdict(session, offer, now)).Accept? ==> unchanged(this) && unchanged(db)
      ensures var v := old(BidVerdict(session, offer, now));
        v.Accept? ==> BidRecorded(session, v.row, now)
    {
      ghost var v := BidVerdict(session, offer, now);
      if IsDeleted() {
        return Err(InvalidOperation);
      }
      if endsOn < now {
        return Err(InvalidOperation);
      }
      if offer < 0.0 {
        return Err(OutOfRange);
      }
      if offer < startingPrice {
        return Ok(false);
      }
      if session == null {
        return Err(ArgumentNull);
      }
      if session.userId !in db.sessions {
        return Err(Argument);
      }
      if !db.HasUser(session.user.siteId, session.user.username) {
        return Err(InvalidOperation);
      }
      var bidderId :| bidderId in db.users && db.users[bidderId].siteId == session.user.siteId
                      && db.users[bidderId].username == session.user.username;
      db.FindUserIsUnique(bidderId);
      var bidder := db.users[bidderId];
      if session.ValidUntil() < now {
        return Err(Argument);
      }
      if bidder.siteId == seller.siteId && bidder.username == seller.username {
        return Err(Argument);
      }
      if bidder.siteId != siteId {
        return Err(Argument);
      }
      assert AuctionFits(db.users, db.sites, db.auctions[id]);
      assert v == match Bidding.Arbitrate(db.auctions[id], bidderId, offer,
                                          db.sites[siteId].minimumBidIncrement)
                  case Reject => Refuse
                  case Accept(row) => Accept(bidderId, row);
      var accepted := Settle(session, bidderId, offer, now);
      r := Ok(accepted);
    }

    /** The state after an accepted bid that produced `row`: the row is stored, the bidder's
        session is extended by the site's expiration, this handle counts one more bid and
        records the session; nothing else changes. */
    twostate predicate BidRecorded(session: Session, row: AuctionRow, now: Time)
      reads this, db
      requires old(siteId in db.sites && session.userId in db.sessions)
    {
      && db.auctions == old(db.auctions)[id := row]
      && db.sessions == old(db.sessions)[session.userId := old(db.sessions[session.userId])
           .(validUntil := now + old(db.sites[siteId].sessionExpirationInSeconds))]
      && db.sites == old(db.sites) && db.users == old(db.users)
      && db.nextSiteId == old(db.nextSiteId) && db.nextUserId == old(db.nextUserId)
      && db.nextAuctionId == old(db.nextAuctionId)
      && numberOfBids == old(numberOfBids) + 1
      && (old(numberOfBids) == 0 ==>
            firstBidderSession == session && lastBidderSession == old(lastBidderSession))
      && (old(numberOfBids) != 0 ==>
            firstBidderSession == old(firstBidderSession) && lastBidderSession == session)
    }

    /** The "Check Auction" part of Bid and the writes after it: the bidding rules on the
        reloaded row (Bidding.Arbitrate), then, for an accepted offer, the session's new
        expiry, the updated row and the handle's count. */
    method Settle(session: Session, bidderId: int, offer: real, now: Time) returns (accepted: bool)
      requires db.Valid() && !IsDeleted() && siteId in db.sites && session.userId in db.sessions
      requires bidderId in db.users && db.users[bidderId].siteId == siteId && 0.0 <= offer
      modifies this, db
      ensures db.Valid()
      ensures var d := old(Bidding.Arbitrate(db.auctions[id], bidderId, offer,
                                             db.sites[siteId].minimumBidIncrement));
        && accepted == d.Accept?
        && (!accepted ==> unchanged(this) && unchanged(db))
        && (accepted ==> BidRecorded(session, d.row, now))
    {
      var auction := db.auctions[id];
      assert AuctionFits(db.users, db.sites, auction);
      var inc := db.sites[auction.siteId].minimumBidIncrement;
      match Bidding.Arbitrate(auction, bidderId, offer, inc)
      case Reject =>
        accepted := false;
      case Accept(row) =>
        Bidding.ArbitrateKeepsPrices(auction, bidderId, offer, inc);
        // Two SaveChanges in the code: the session's expiry first, then the row.
        db.RecordBid(session.userId, now + db.sites[siteId].sessionExpirationInSeconds, id, row);
        SetSession(session);
        numberOfBids := numberOfBids + 1;
        accepted := true;
    }

    /** Records the session of the first accepted bid, or else of the latest one. */
    method SetSession(session: Session)
      modifies this`firstBidderSession, this`lastBidderSession
      ensures old(numberOfBids) == 0 ==>
        firstBidderSession == session && lastBidderSession == old(lastBidderSession)
      ensures old(numberOfBids) != 0 ==>
        firstBidderSession == old(firstBidderSession) && lastBidderSession == session
    {
      if numberOfBids == 0 {
        firstBidderSession := session;
      } else {
        lastBidderSession := session;
      }
    }

    method Delete() returns (r: Result<()>)
      requires db.Valid()
      modifies db
      ensures db.Valid()
      ensures old(IsDeleted()) ==> r == Err(InvalidOperation) && unchanged(db)
      ensures !old(IsDeleted()) ==>
        && r == Ok(()) && db.auctions == old(db.auctions) - {id}
        && db.sites == old(db.sites) && db.users == old(db.users) && db.sessions == old(db.sessions)
        && db.nextSiteId == old(db.nextSiteId) && db.nextUserId == old(db.nextUserId)
        && db.nextAuctionId == old(db.nextAuctionId)
    {
      if IsDeleted() {
        return Err(InvalidOperation);
      }
      db.RemoveAuctions({id});
      r := Ok(());
    }
  }

  class Session {
    const db: Store
    /** The owning user's id as text; its row is the one keyed by `userId`. */
    const id: string := IdString(userId)
    const siteId: int
    const userId: int
    const user: User
    /** The cached DbValidUntil; the getter prefers the stored value. */
    var dbValidUntil: Time

    constructor (db: Store, siteId: int, userId: int, user: User, validUntil: Time)
      ensures this.db == db && this.siteId == siteId && this.userId == userId && this.user == user
      ensures id == IdString(userId) && dbValidUntil == validUntil
    {
      this.db := db;
      this.siteId := siteId;
      this.userId := userId;
      this.user := user;
      dbValidUntil := validUntil;
    }

    /** The ValidUntil getter: the stored value while the row exists, else the cache. */
    function ValidUntil(): (t: Time)
      reads this, db`sessions
      ensures userId in db.sessions ==> t == db.sessions[userId].validUntil
      ensures userId !in db.sessions ==> t == dbValidUntil
    {
      if userId in db.sessions then db.sessions[userId].validUntil else dbValidUntil
    }

    /** The ValidUntil setter writes only the cache, so while the row exists the getter
        does not see it. */
    method SetValidUntil(t: Time)
      modifies this
      ensures dbValidUntil == t
      ensures userId in db.sessions ==> ValidUntil() == old(ValidUntil())
      ensures userId !in db.sessions ==> ValidUntil() == t
    {
      dbValidUntil := t;
    }

    /** `IsDeleted`: no session row has this Id. A row's Id is the text of the key it is
        stored under, and different keys have different texts. */
    predicate IsDeleted(): (r: bool)
      reads db`sessions
      ensures r <==> forall s :: s in db.sessions ==> IdString(s) != id
    {
      assert userId !in db.sessions ==> forall s :: s in db.sessions ==> IdString(s) != id by {
        forall s | s in db.sessions && IdString(s) == id {
          IdStringInjective(s, userId);
        }
      }
      userId !in db.sessions
    }

    /** `Equals`: same Id. */
    function Equals(other: Session?): (r: bool)
      ensures r <==> other != null && HashKey() == other.HashKey()
    {
      other != null && id == other.id
    }

    /** What `GetHashCode` hashes. */
    function HashKey(): string {
      id
    }

    /** Two sessions are equal exactly when they belong to the same user. */
    lemma EqualsIffSameUser(other: Session)
      ensures Equals(other) <==> userId == other.userId
    {
      if Equals(other) {
        IdStringInjective(userId, other.userId);
      }
    }

    /** The first exception CreateAuction raises, in the order of its checks. */
    ghost function CreateAuctionError(description: Option<string>, endsOn: Time,
                                      startingPrice: real, now: Time): Option<Error>
      reads this, db
    {
      if IsDeleted() then Some(InvalidOperation)
      else if now > ValidUntil() then Some(InvalidOperation)
      else if description.None? then Some(ArgumentNull)
      else if description.value == "" then Some(Argument)
      else if startingPrice < 0.0 then Some(OutOfRange)
      else if endsOn < now then Some(TimeMachine)
      else if !db.HasUser(siteId, user.username) then Some(UnavailableDb)
      else if siteId !in db.sites then Some(NullReference)
      else None
    }

    method CreateAuction(description: Option<string>, endsOn: Time, startingPrice: real, now: Time)
      returns (r: Result<Auction>)
      requires db.Valid()
      modifies this, db
      ensures db.Valid()
      ensures old(CreateAuctionError(description, endsOn, startingPrice, now)).Some? ==>
        && r == Err(old(CreateAuctionError(description, endsOn, startingPrice, now)).value)
        && unchanged(this) && unchanged(db)
      ensures old(CreateAuctionError(description, endsOn, startingPrice, now)).None? ==>
        var seller := old(db.FindUser(siteId, user.username)).value;
        var k := old(db.nextAuctionId);
        var validUntil := now + old(db.sites[siteId].sessionExpirationInSeconds);
        && k !in old(db.auctions)
        && db.auctions == old(db.auctions)[k := Bidding.NewAuctionRow(siteId, description.value,
                                                                      endsOn, startingPrice, seller)]
        && db.nextAuctionId == k + 1
        && db.sessions == old(db.sessions)[userId := old(db.sessions[userId]).(validUntil := validUntil)]
        && dbValidUntil == validUntil && ValidUntil() == validUntil
        && db.sites == old(db.sites) && db.users == old(db.users)
        && db.nextSiteId == old(db.nextSiteId) && db.nextUserId == old(db.nextUserId)
        && r.Ok? && fresh(r.value) && r.value.db == db && r.value.id == k && r.value.siteId == siteId
        && r.value.Shows(db.auctions[k], startingPrice) && r.value.seller.userId == 0
    {
      if IsDeleted() {
        return Err(InvalidOperation);
      }
      if now > ValidUntil() {
        return Err(InvalidOperation);
      }
      if description.None? {
        return Err(ArgumentNull);
      }
      if description.value == "" {
        return Err(Argument);
      }
      if startingPrice < 0.0 {
        return Err(OutOfRange);
      }
      if endsOn < now {
        return Err(TimeMachine);
      }
      if !db.HasUser(siteId, user.username) {
        return Err(UnavailableDb);
      }
      var u :| u in db.users && db.users[u].siteId == siteId && db.users[u].username == user.username;
      db.FindUserIsUnique(u);
      var userRow := db.users[u];
      if siteId !in db.sites {
        return Err(NullReference);
      }
      var validUntil := now + db.sites[siteId].sessionExpirationInSeconds;
      dbValidUntil := validUntil;
      var k := db.AddAuction(Bidding.NewAuctionRow(siteId, description.value, endsOn,
                                                   startingPrice, u), userId, validUntil);
      var seller := new User(db, userRow.siteId, userRow.username, userRow.password);
      var auction := new Auction(db, k, u, seller, siteId, description.value, endsOn,
                                 startingPrice, startingPrice, 0.0);
      r := Ok(auction);
    }

    method Logout() returns (r: Result<()>)
      requires db.Valid()
      modifies db
      ensures db.Valid()
      ensures old(IsDeleted()) ==> r == Err(InvalidOperation) && unchanged(db)
      ensures !old(IsDeleted()) ==>
        && r == Ok(()) && db.sessions == old(db.sessions) - {userId}
        && db.sites == old(db.sites) && db.users == old(db.users) && db.auctions == old(db.auctions)
        && db.nextSiteId == old(db.nextSiteId) && db.nextUserId == old(db.nextUserId)
        && db.nextAuctionId == old(db.nextAuctionId)
    {
      if IsDeleted() {
        return Err(InvalidOperation);
      }
      db.RemoveSessions({userId});
      r := Ok(());
    }
  }
}
