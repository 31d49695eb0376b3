# Auction site: a Dafny model of the bidding and session engine

This project models the domain engine of the TAP 2022/23 auction site, a multi-tenant
backend. A **host** creates and loads **sites**. Each site has **users**, login
**sessions** and **auctions**. Users bid on auctions under proxy-bidding rules. The C#
code keeps every entity in an Entity Framework database, and each object the interface
hands out (a `Site`, `User`, `Session` or `Auction`) is a *handle* on that database: it
holds a connection string and the values it was built with, and re-reads the rows it
needs on every call.

The model follows that structure:

- `Storage.Store` is the database. Its four tables are maps from key to row, and three
  identity counters give new rows their keys. `Store.Valid()` states the constraints that
  every operation keeps:
  - unique site names and usernames;
  - the foreign keys of the schema;
  - one session per user, keyed by the user's id;
  - the price invariant of every auction.

  Each store method is the single write one operation saves: an INSERT, an UPDATE, or a
  DELETE with its cascades. It states the new content of every table.
- `Records` holds the rows, one datatype per table.
- `Data` holds the `User`, `Auction` and `Session` handle classes. `Sites` holds the
  `Site` handle, and `Hosting` holds the `Host`. Each handle has a `const db: Store`
  standing for its connection string, and `const` fields for the values it was built
  with. The per-handle state that the code mutates is held in `var` fields:
  - for an auction, the number of bids made through the handle and the first and last
    bidder sessions;
  - for a session, the cached expiry.
- `Bidding` is the pure part of `Auction.Bid`: three rejection rules on the stored row,
  then one of four updates of the ceiling (`TopAmount`), the price (`ActualPrice`) and the
  winner. Its lemmas relate these rules to the prices, the ceiling and the winner, and
  replay any stream of offers.
- `Scenarios` calls the public operations on a fresh store and proves the outcome, to show
  where the code departs from the behaviour its interface promises (see "## Findings").

Every operation has a contract that states:
- the first error it raises, with the checks in the code's order;
- that an error or a refused bid writes nothing, except the winner refusal of
  `User.Delete`, which comes after its ended auctions are deleted;
- the exact new state of every table it touches.

The clock is a `now: Time` parameter, in seconds. Prices are `real`.

Where the code and its interface description disagree, the model follows the code:
- `Site.Delete` does not cascade. Sessions and auctions reference their site with no
  delete action, so a site that still has any of them cannot be deleted. The store
  refuses the delete, and `SaveChanges` reports InvalidOperation.
- `User.Delete` selects the auctions it checks and removes by the handle's `UserId`. Both
  of its queries select by *seller*. While any auction names the user as winner, the
  user row cannot be deleted (the winner foreign key has no delete action). In that case
  the ended auctions are already gone when the refusal comes.
- Logging in again after a logout or an expiry sweep raises UnavailableDb (see
  "## Findings").

## Model

| member | source | states |
|---|---|---|
| Common.IdString | TAP22_23_AuctionSite/Data/Session.cs:44-49 | the session Id is the decimal text of the owner's UserId: never empty, leading '-' exactly for a negative id |
| Common.Utf16Length | TAP22_23_AuctionSite/Data/Site.cs:118-121 | `string.Length` counts UTF-16 code units: at least one and at most two per character |
| Common.BmpUtf16Length | TAP22_23_AuctionSite/Data/Site.cs:118-121 | a text of Basic Multilingual Plane characters has as many code units as characters |
| Common.AstralCharIsTwoUnits | TAP22_23_AuctionSite/Logic/Host.cs:41 | any character outside the Basic Multilingual Plane is one character but two code units |
| Common.IdStringInjective | TAP22_23_AuctionSite/Data/Session.cs:43-52 | two different users never get the same session Id |
| Bidding.NewAuctionRow | TAP22_23_AuctionSite/Data/Session.cs:83-87 | a new auction has seller = the session's user, price = starting price, no ceiling, no winner, and meets the price invariant when the starting price is not negative |
| Bidding.Arbitrate | TAP22_23_AuctionSite/Data/Auction.cs:140-244 | an accepted offer changes only the price, the ceiling and the winner of the stored row |
| Bidding.RejectedExactly | TAP22_23_AuctionSite/Data/Auction.cs:140-147 | an offer is refused exactly when the winner bids below its ceiling plus the increment, or a non-winner bids below the price, or below price plus increment once a ceiling exists |
| Bidding.ArbitrateKeepsPrices | TAP22_23_AuctionSite/Data/Auction.cs:162-244 | with a positive increment, every accepted non-negative offer keeps starting ≤ price ≤ ceiling and "a positive ceiling has a winner", and never lowers the price or the ceiling |
| Bidding.CeilingIsLargestOffer | TAP22_23_AuctionSite/Data/Auction.cs:162-244 | after an accepted offer the ceiling is the larger of the old ceiling and the offer |
| Bidding.WinnerAfterAccept | TAP22_23_AuctionSite/Data/Auction.cs:162-244 | the bidder wins exactly on a first bid, a re-bid by the winner, or an offer above the ceiling; otherwise winner and ceiling stay |
| Bidding.ProxyPrice | TAP22_23_AuctionSite/Data/Auction.cs:193-244 | an overtaking offer pays min(offer, ceiling + increment); a non-overtaking one raises the price to min(ceiling, offer + increment) |
| Bidding.EqualOfferDoesNotOvertake | TAP22_23_AuctionSite/Data/Auction.cs:193 | an offer equal to a positive ceiling never changes the winner |
| Bidding.ReplayKeepsPrices | TAP22_23_AuctionSite/Data/Auction.cs:140-244 | after any stream of non-negative offers the price invariant holds and price and ceiling have not gone down |
| Bidding.ReplayWinnerIffCeiling | TAP22_23_AuctionSite/Data/Auction.cs:162-244 | with a positive starting price, "has a winner" and "has a positive ceiling" stay equivalent through any stream of offers |
| Bidding.ProxyBiddingExample | TAP22_23_AuctionSite/Data/Auction.cs:162-244 | a three-offer sequence: first bid holds at the starting price, a lower rival pushes the price to offer + increment, a higher rival takes the auction at old ceiling + increment |
| Bidding.WinnerRaisesByIncrement | TAP22_23_AuctionSite/Data/Auction.cs:140-191 | an accepted first bid or winner's raise keeps the price, makes the offer the ceiling and the bidder the winner; a winner's raise is at least ceiling + increment |
| Bidding.WinnerRaiseExample | TAP22_23_AuctionSite/Data/Auction.cs:179-191 | with the winner at ceiling 20 and increment 1, its offer of 20 is refused and 21 accepted, changing only the ceiling |
| Bidding.ZeroOfferReplacesWinner | TAP22_23_AuctionSite/Data/Auction.cs:162-177 | as written: with starting price 0, a second bidder offering 0 replaces a winner that holds the auction at 0 |
| Bidding.ArbitrateByWinner | TAP22_23_AuctionSite/Data/Auction.cs:140-244 | the rules with the first-bid test on the winner: an accepted offer changes only price, ceiling and winner |
| Bidding.ByWinnerOnlyHigherOfferOvertakes | TAP22_23_AuctionSite/Data/Auction.cs:162-222 | corrected rules: a recorded winner loses only to an offer above its ceiling, and the price invariant is kept |
| Storage.Store.FindUser | TAP22_23_AuctionSite/Data/User.cs:102-106 | the query by site and username finds a row exactly when one exists, and it is a row with that site and username |
| Storage.Store.FindUserIsUnique | TAP22_23_AuctionSite/Data/Site.cs:181-184 | because usernames are unique over the store, the query by site and username finds the one row that has them |
| Storage.Store.FindSite | TAP22_23_AuctionSite/Data/Site.cs:214-220 | the query by name finds a site exactly when one has that name |
| Storage.Store.InsertSite | TAP22_23_AuctionSite/Logic/Host.cs:61-63 | the new site row gets the next SiteId; only the site table and its counter change |
| Storage.Store.RemoveSite | TAP22_23_AuctionSite/Data/AuctionDbContext.cs:60-72 | a site no session or auction references is removed, nothing else changes |
| Storage.Store.InsertUser | TAP22_23_AuctionSite/Data/Site.cs:186-187 | the new user row gets the next UserId; only the user table and its counter change |
| Storage.Store.RemoveAuctions | TAP22_23_AuctionSite/Data/Auction.cs:257-258 | exactly the given auction rows are removed |
| Storage.Store.SetSessionValidUntil | TAP22_23_AuctionSite/Data/Site.cs:149-152 | only the session's expiry changes |
| Storage.Store.RemoveSessions | TAP22_23_AuctionSite/Data/Site.cs:229-230 | exactly the given session rows are removed |
| Storage.Store.OpenSession | TAP22_23_AuctionSite/Data/Site.cs:137-140 | one session row for the user is added and its SessionId is set, in one save |
| Storage.Store.RemoveUser | TAP22_23_AuctionSite/Data/AuctionDbContext.cs:47-58 | deleting a user cascades to its session and the auctions it sells; no auction may name it as winner |
| Storage.Store.RecordBid | TAP22_23_AuctionSite/Data/Auction.cs:150-170 | an accepted bid stores the bidder's new expiry and the updated auction row, nothing else |
| Storage.Store.AddAuction | TAP22_23_AuctionSite/Data/Session.cs:87-95 | the new auction gets the next Id and the creating session the new expiry, in one save |
| Data.Verdict.Outcome | TAP22_23_AuctionSite/Data/Auction.cs:85-245 | Bid returns normally exactly when it raises nothing, and returns true exactly for an accepted offer |
| Data.User.constructor | TAP22_23_AuctionSite/Data/User.cs:35-41 | the public constructor keeps site, username and password and leaves UserId at 0 |
| Data.User.Loaded | TAP22_23_AuctionSite/Data/User.cs:59 | a handle materialised from a stored row (a `SellerUser` or `Owner` navigation) carries that row's UserId and its site, username and password |
| Data.User.IsDeleted | TAP22_23_AuctionSite/Data/User.cs:102-106 | deleted exactly when no stored user row has this site and username |
| Data.User.Equals | TAP22_23_AuctionSite/Data/User.cs:110-121 | users are equal exactly when site and username agree (the pair GetHashCode combines) |
| Data.User.WonAuctions | TAP22_23_AuctionSite/Data/User.cs:45-64 | deleted user → InvalidOperation; otherwise exactly the ended auctions whose winner has this site and username, once each, built from the stored rows |
| Data.User.Delete | TAP22_23_AuctionSite/Data/User.cs:66-98 | deleted user → InvalidOperation; an auction sold under the handle's UserId still running → InvalidOperation with nothing written; otherwise those auctions go, and the user goes with its session and remaining sold auctions unless some auction names it as winner |
| Data.User.DeleteByUserRow | TAP22_23_AuctionSite/Data/User.cs:73-97 | corrected: with the auctions selected by the user's own key, a user that sells a running auction is never deleted |
| Data.User.SoldAuctionsEnded | TAP22_23_AuctionSite/Data/User.cs:77-84 | the first loop finds a running auction exactly when one of the selected auctions has not ended |
| Data.User.DeleteSold | TAP22_23_AuctionSite/Data/User.cs:86-91 | the second loop removes exactly the selected auctions |
| Data.Auction.constructor | TAP22_23_AuctionSite/Data/Auction.cs:41-52 | a handle keeps the values it is given and starts with no bids and no bidder sessions |
| Data.Auction.IsDeleted | TAP22_23_AuctionSite/Data/Auction.cs:270-275 | deleted exactly when no stored auction row has this Id and SiteId |
| Data.Auction.Equals | TAP22_23_AuctionSite/Data/Auction.cs:279-290 | auctions are equal exactly when SiteId and Id agree (the pair GetHashCode combines) |
| Data.Auction.CurrentPrice | TAP22_23_AuctionSite/Data/Auction.cs:56-72 | deleted → InvalidOperation; fewer than two bids through the handle, or two through the same Session object → the handle's starting price; otherwise the stored price |
| Data.Auction.CurrentWinner | TAP22_23_AuctionSite/Data/Auction.cs:74-83 | deleted → InvalidOperation; no handle exactly when no winner is stored, else a public handle with the winner's username and password |
| Data.Auction.BidVerdict | TAP22_23_AuctionSite/Data/Auction.cs:85-147 | an accepted offer comes from a stored session of a stored bidder of this site, is not negative, and is what the bidding rules accept on the stored row |
| Data.Auction.AcceptedBidderIsNotSeller | TAP22_23_AuctionSite/Data/Auction.cs:123-124 | an accepted bid never comes from the auction's seller |
| Data.Auction.Bid | TAP22_23_AuctionSite/Data/Auction.cs:85-245 | errors in the code's order; a refused offer writes nothing, not even the session expiry; an accepted one stores the new row, extends the bidder's session to now + expiration, counts the bid and records the session; the store stays valid |
| Data.Auction.Settle | TAP22_23_AuctionSite/Data/Auction.cs:130-245 | the rules on the reloaded row: refused → nothing written; accepted → the row, the session expiry and the handle's count change as in Bid |
| Data.Auction.SetSession | TAP22_23_AuctionSite/Data/Auction.cs:263-268 | the first bid records the first bidder session; later ones the last |
| Data.Auction.Delete | TAP22_23_AuctionSite/Data/Auction.cs:247-259 | deleted → InvalidOperation with nothing written; otherwise exactly this auction's row is removed |
| Data.Session.constructor | TAP22_23_AuctionSite/Data/Session.cs:43-52 | the Id is the owner's UserId as text; the cached expiry is the one given |
| Data.Session.ValidUntil | TAP22_23_AuctionSite/Data/Session.cs:13-21 | the getter returns the stored expiry while the row exists, the cached one otherwise |
| Data.Session.SetValidUntil | TAP22_23_AuctionSite/Data/Session.cs:22 | the setter writes the cache only: invisible while the row exists |
| Data.Session.IsDeleted | TAP22_23_AuctionSite/Data/Session.cs:118-124 | deleted exactly when no stored session row has this session's Id |
| Data.Session.Equals | TAP22_23_AuctionSite/Data/Session.cs:128-135 | sessions are equal exactly when their Ids agree (what GetHashCode hashes) |
| Data.Session.EqualsIffSameUser | TAP22_23_AuctionSite/Data/Session.cs:43-52 | two sessions are equal exactly when they belong to the same user |
| Data.Session.CreateAuction | TAP22_23_AuctionSite/Data/Session.cs:56-100 | errors in the code's order, with nothing written (endsOn == now accepted); otherwise one new auction row for the session's user, the session's stored and cached expiry = now + expiration, and a fresh handle on the new row |
| Data.Session.Logout | TAP22_23_AuctionSite/Data/Session.cs:102-114 | deleted → InvalidOperation; otherwise exactly this session row is removed |
| Sites.CredentialsError | TAP22_23_AuctionSite/Data/Site.cs:112-122 | no error exactly when both are present, the username's UTF-16 length is within bounds and the password's is long enough; a missing argument is ArgumentNull, a bad length Argument |
| Sites.Site.constructor | TAP22_23_AuctionSite/Logic/Host.cs:85-86 | a loaded handle carries the row's SiteId, name, timezone, expiration and increment |
| Sites.Site.IsDeleted | TAP22_23_AuctionSite/Data/Site.cs:214-220 | deleted exactly when no stored site row has this name |
| Sites.Site.Equals | TAP22_23_AuctionSite/Data/Site.cs:236-243 | sites are equal exactly when their names agree |
| Sites.Site.Now | TAP22_23_AuctionSite/Data/Site.cs:204-210 | deleted site → InvalidOperation, otherwise the clock reading |
| Sites.Site.MatchIsTheQuery | TAP22_23_AuctionSite/Data/Site.cs:126-127 | the Login query finds user u exactly when u's row has this SiteId, username and password |
| Sites.Site.NewUserOpensSession | TAP22_23_AuctionSite/Data/Site.cs:132-142 | a user just created on this site, logging in with valid credentials, gets a new session |
| Sites.Site.Login | TAP22_23_AuctionSite/Data/Site.cs:107-158 | errors in the code's order; no match → null with nothing written; first login → one session row with Id = user id and expiry now + expiration, SessionId set; re-login → only its expiry renewed; SessionId set but no row → UnavailableDb |
| Sites.Site.LoginBySessionRow | TAP22_23_AuctionSite/Data/Site.cs:132-157 | corrected: a user with the right credentials on a live site always gets a session |
| Sites.Site.CreateUser | TAP22_23_AuctionSite/Data/Site.cs:160-188 | the checks of Login, then NameAlreadyInUse if any site has the username; otherwise exactly one user row is added |
| Sites.Site.Delete | TAP22_23_AuctionSite/Data/Site.cs:190-202 | deleted → InvalidOperation; a site still referenced by a session or auction → InvalidOperation; otherwise exactly the site row with this name is removed |
| Sites.Site.RemoveSessions | TAP22_23_AuctionSite/Data/Site.cs:224-232 | exactly this site's sessions expired at now are removed: none of its sessions is left expired, and other sites' sessions are untouched |
| Sites.Site.ToyGetUsers | TAP22_23_AuctionSite/Data/Site.cs:47-62 | deleted → InvalidOperation; otherwise one public handle per user row of this SiteId, with its username and password |
| Sites.Site.ToyGetAuctions | TAP22_23_AuctionSite/Data/Site.cs:64-89 | deleted → InvalidOperation; otherwise one handle per auction of this SiteId (only those with EndsOn ≥ now when asked), showing the stored price as starting price |
| Sites.Site.ToyGetSessions | TAP22_23_AuctionSite/Data/Site.cs:91-105 | deleted → InvalidOperation; otherwise one handle per session of this SiteId, with the loaded owner and the stored expiry |
| Hosting.Host.GetSiteInfos | TAP22_23_AuctionSite/Logic/Host.cs:21-35 | the (name, timezone) of every stored site, once each |
| Hosting.Host.NameError | TAP22_23_AuctionSite/Logic/Host.cs:38-42 | no error exactly when the name is present and its UTF-16 length within bounds; missing → ArgumentNull, bad length → Argument |
| Hosting.Host.CreateSite | TAP22_23_AuctionSite/Logic/Host.cs:36-64 | errors in the code's order, then NameAlreadyInUse; otherwise exactly one site row with the given parameters, found by its name |
| Hosting.Host.LoadSite | TAP22_23_AuctionSite/Logic/Host.cs:66-95 | name checks, then InexistentName; otherwise a fresh handle with the stored SiteId and parameters, not deleted |
| Scenarios.SiteWithUser | TAP22_23_AuctionSite/Logic/Host.cs:36-95 | creating a site, loading it and creating a user leaves exactly that site and that user in an empty store |
| Scenarios.LoginAfterLogout | TAP22_23_AuctionSite/Data/Site.cs:132-147 | as written: login, logout, login again → the second login raises UnavailableDb |
| Scenarios.LoginAfterLogoutBySessionRow | TAP22_23_AuctionSite/Data/Site.cs:132-157 | corrected: the second login returns a session of the same user |
| Scenarios.SellerWithLiveAuction | TAP22_23_AuctionSite/Data/Session.cs:56-100 | a user that logs in and creates an auction is its stored seller, and the session's user handle has UserId 0 |
| Scenarios.DeleteSellerOfLiveAuction | TAP22_23_AuctionSite/Data/User.cs:73-97 | as written: deleting that user through the session's user handle while the auction runs succeeds, and the running auction is deleted with it |
| Scenarios.DeleteSellerOfLiveAuctionByUserRow | TAP22_23_AuctionSite/Data/User.cs:73-88 | corrected: the same deletion is refused with InvalidOperation and the auction stays |

## Left out

- Database faults are not modelled. In the code they surface as UnavailableDb: the
  `SqlException` handlers of Host.cs:27-31 and Host.cs:92-94, and the translation of
  `DbUpdateException` in `AuctionDbContext.SaveChanges`. Only the two refusals the schema
  makes on valid calls are modelled, both reported as InvalidOperation: a foreign key
  with no delete action, and a new session whose site is gone.
- Nothing concurrent is modelled. Every operation runs alone and is atomic, so several
  branches are left out because they are reachable only when another caller deletes a
  row in between: the `== null` returns of Site.Delete, User.Delete, Auction.Delete and
  Logout, and the second "not found" checks of Bid and CurrentPrice.
- Data.Auction.Bid saves the session's expiry and the auction row as one atomic step. The
  code saves them in two separate `SaveChanges`.
- Data.User.Delete does not save the winner clearing of its first loop. In the code those
  tracked rows are also deleted by the second loop, through other contexts. The final
  `SaveChanges` then meets rows that no longer exist, and EF Core reports that as a
  concurrency failure.
- Data.User.Delete, Data.User.WonAuctions, Sites.Site.ToyGetSessions and
  Sites.Site.ToyGetAuctions treat the
  entities EF materialises as handles on the same store: the auctions Delete loops over,
  the `Owner` of a session, the `SellerUser` of an auction. In the code these objects
  have no connection string, so a store access made through them would fail.
- The alarm clock and the five-minute alarm that calls RemoveSessions (Host.cs:82-88).
  The clock is the `now` parameter, and the sweep is an explicit call.
- Storage.Store.FindUser, Storage.Store.FindSite, Sites.Site.Match, Sites.Site.CreateUserError,
  Data.User.IsDeleted and Sites.Site.IsDeleted compare usernames, passwords and site names
  by ordinal equality. In the code these comparisons are made by the database
  (Site.cs:126-127, 181, 197, 217; User.cs:104), and so are the unique indexes on user
  and site names. Under SQL Server's default case-insensitive collation, which also
  ignores trailing spaces, the code matches more: after CreateUser("ann", …) it refuses
  CreateUser("Ann", …) with NameAlreadyInUse, and Login("ANN", …) finds "ann". The C#
  `Equals` methods (User.cs:116, Site.cs:238) are ordinal, as in the model.
- Time zones. Time is whole seconds on one clock.
- Prices are `real`: there is no IEEE rounding and no `double.Epsilon` bound.
- The values of DomainConstraints. Only `min ≤ max` of each pair is assumed.
- The order of the lists ToyGetUsers, ToyGetAuctions, ToyGetSessions, WonAuctions and
  GetSiteInfos return. The contracts state which rows are listed, each once, but not in
  what order. GetSiteInfos is a lazy `yield` enumeration in the code and a finished
  sequence here.
- Hosting.Host.LoadSite leaves out the alarm subscription for the same reason as above.
- GetHashCode is modelled by `HashKey`, the value it hashes, not by the hash function.
- Schema creation (`HostFactory`) and the framework test are not part of this model.

## Findings

| source | as written | input that shows it | evidently intended | confidence | as-written member | corrected member |
|---|---|---|---|---|---|---|
| TAP22_23_AuctionSite/Data/Auction.cs:146,162 | a first bid is recognised by `TopAmount == 0`, but an accepted offer of 0 leaves the ceiling at 0 while recording a winner | starting price 0; bidder 1 offers 0 and wins; bidder 2 offers 0 and takes the auction from bidder 1 | a bid is a first bid when no winner is recorded, so a winner loses only to a higher offer | not executed; high | Bidding.ZeroOfferReplacesWinner | Bidding.ByWinnerOnlyHigherOfferOvertakes |
| TAP22_23_AuctionSite/Data/Site.cs:132,143-147 | Login uses `SessionId == null` to choose its branch. Logout (Session.cs:102-114) and the expiry sweep delete the session row but never clear SessionId | create site and user "ann", log in, log out, log in again: the second login raises UnavailableDb | log in again with a new session when the old row is gone | not executed; high | Scenarios.LoginAfterLogout | Sites.Site.LoginBySessionRow |
| TAP22_23_AuctionSite/Data/User.cs:74-75 | Delete selects auctions with the handle's `UserId`, which the public constructor leaves at 0 (User.cs:35-41). Every user handle built by Login (Site.cs:134,155), ToyGetUsers (Site.cs:60) and CurrentWinner (Auction.cs:82) is built that way | "ann" sells an auction ending at 100; at 50, deleting that user through the session's user handle succeeds and the cascade deletes the running auction | a user who sells a running auction is not deleted | not executed; high | Scenarios.DeleteSellerOfLiveAuction | Data.User.DeleteByUserRow |

The operations keep the code's behaviour: Data.Auction.Settle uses Bidding.Arbitrate,
Sites.Site.Login branches on SessionId, and Data.User.Delete selects by the handle's
UserId. Each corrected member sits beside the operation it corrects, with the intended
property proved about it. The corrected scenarios Scenarios.LoginAfterLogoutBySessionRow
and Scenarios.DeleteSellerOfLiveAuctionByUserRow call it and prove the outcome.
