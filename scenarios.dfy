/** Calls of the public operations on a fresh store, each with its outcome proved: how the
    code as written behaves where it departs from what its interface promises, and how the
    corrected operation behaves instead. */
module Scenarios {
  import opened Common
  import opened Records
  import opened Storage
  import opened Data
  import opened Sites
  import opened Hosting

  /** Limits that admit the names used below; their real values are not part of this
      model. */
  const TestLimits := Limits(1, 20, 1, 1, 20, -12, 12)

  /** A fresh store with site "site" (SiteId 1, sessions of 600 seconds) and, on it, the
      user "ann" (UserId 1), and a handle on that site. */
  method SiteWithUser() returns (db: Store, site: Site)
    ensures fresh(db) && db.Valid() && site.db == db && site.siteId == 1
    ensures !site.IsDeleted() && site.sessionExpirationInSeconds == 600 && db.limits == TestLimits
    ensures db.sites.Keys == {1} && db.users == map[1 := UserRow(1, "ann", "secret", false)]
    ensures db.sessions == map[] && db.auctions == map[] && db.nextAuctionId == 1
  {
    db := new Store(TestLimits);
    var host := new Host(db);
    var created := host.CreateSite(Some("site"), 0, 600, 1.0);
    assert db.sites == map[1 := SiteRow("site", 0, 600, 1.0)];
    var loaded := host.LoadSite(Some("site"));
    site := loaded.value;
    var added := site.CreateUser(Some("ann"), Some("secret"));
  }

  /** As written: after a logout, logging in again raises UnavailableDb, because Logout
      deletes the session row but leaves the user's SessionId set. */
  method LoginAfterLogout() returns (first: Result<Option<Session>>, second: Result<Option<Session>>)
    ensures first.Ok? && first.value.Some?
    ensures second == Err(UnavailableDb)
  {
    var db, site := SiteWithUser();
    site.NewUserOpensSession(1, "ann", "secret");
    first := site.Login(Some("ann"), Some("secret"), 0);
    var out := first.value.value.Logout();
    site.MatchIsTheQuery("ann", "secret", 1);
    second := site.Login(Some("ann"), Some("secret"), 10);
  }

  /** Corrected: the same calls with the session row deciding the branch opens a new
      session. */
  method LoginAfterLogoutBySessionRow() returns (first: Result<Option<Session>>,
                                                 second: Result<Option<Session>>)
    ensures first.Ok? && first.value.Some?
    ensures second.Ok? && second.value.Some? && second.value.value.userId == 1
  {
    var db, site := SiteWithUser();
    site.MatchIsTheQuery("ann", "secret", 1);
    first := site.LoginBySessionRow(Some("ann"), Some("secret"), 0);
    var out := first.value.value.Logout();
    site.MatchIsTheQuery("ann", "secret", 1);
    second := site.LoginBySessionRow(Some("ann"), Some("secret"), 10);
  }

  /** "ann" logged in, selling the auction "lamp" (Id 1) that ends at 100. */
  method SellerWithLiveAuction() returns (db: Store, session: Session)
    ensures fresh(db) && db.Valid() && session.db == db && session.userId == 1
    ensures session.user.db == db && session.user.siteId == 1
    ensures session.user.username == "ann" && session.user.userId == 0
    ensures db.users.Keys == {1} && db.users[1].username == "ann" && db.users[1].siteId == 1
    ensures db.auctions.Keys == {1} && db.auctions[1].sellerUserId == 1
    ensures db.auctions[1].endsOn == 100 && db.auctions[1].winnerUserId == None
  {
    var site;
    db, site := SiteWithUser();
    site.NewUserOpensSession(1, "ann", "secret");
    var login := site.Login(Some("ann"), Some("secret"), 0);
    session := login.value.value;
    db.FindUserIsUnique(1);
    assert session.CreateAuctionError(Some("lamp"), 100, 10.0, 0).None?;
    var created := session.CreateAuction(Some("lamp"), 100, 10.0, 0);
  }

  /** As written: deleting "ann" through the handle her session carries succeeds while
      her auction is still running (the handle's UserId is 0, so no auction is selected),
      and the running auction goes with her. */
  method DeleteSellerOfLiveAuction() returns (r: Result<()>, remaining: map<int, AuctionRow>)
    ensures r == Ok(()) && remaining == map[]
  {
    var db, session := SellerWithLiveAuction();
    db.FindUserIsUnique(1);
    assert session.user.SoldKeys(0) == {} by {
      assert db.auctions.Keys == {1};
    }
    r := session.user.Delete(50);
    remaining := db.auctions;
  }

  /** Corrected: selecting the auctions by the user's own row refuses the deletion and
      keeps the running auction. */
  method DeleteSellerOfLiveAuctionByUserRow() returns (r: Result<()>, remaining: set<int>)
    ensures r == Err(InvalidOperation) && remaining == {1}
  {
    var db, session := SellerWithLiveAuction();
    db.FindUserIsUnique(1);
    assert 1 in session.user.SoldKeys(1);
    r := session.user.DeleteByUserRow(50);
    remaining := db.auctions.Keys;
  }
}
