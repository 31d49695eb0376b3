/** The Site handle: what a loaded site offers its clients (users, login, the listings of
    its rows, deletion, its clock) and the expiry sweep its alarm runs. */
module Sites {
  import opened Common
  import opened Records
  import opened Storage
  import opened Data

  /** The argument checks Login and CreateUser share, in their order: each argument
      present, then the username's length, then the password's. Lengths count UTF-16 code
      units, as `string.Length` does. */
  function CredentialsError(limits: Limits, username: Option<string>, password: Option<string>)
    : (e: Option<Error>)
    ensures e.None? <==>
      && username.Some? && password.Some?
      && limits.minUserName <= Utf16Length(username.value) <= limits.maxUserName
      && limits.minUserPassword <= Utf16Length(password.value)
    ensures e == Some(ArgumentNull) <==> username.None? || password.None?
    ensures e.Some? ==> e.value == ArgumentNull || e.value == Argument
  {
    if username.None? || password.None? then Some(ArgumentNull)
    else
      var n := Utf16Length(username.value);
      if n < limits.minUserName || n > limits.maxUserName then Some(Argument)
      else if Utf16Length(password.value) < limits.minUserPassword then Some(Argument)
      else None
  }

  /** What Login does, decided on the state before the call. */
  datatype LoginCase =
    | Raise(error: Error)  // an exception, nothing written
    | NoMatch              // `null`: no user with these credentials
    | Open(user: int)      // a new session row for this UserId
    | Renew(user: int)     // the user's session row gets a new expiry

  /** The (username, password) pairs of user handles. */
  ghost function HandleCredentials(hs: seq<User>): set<(string, string)> {
    set i | 0 <= i < |hs| :: (hs[i].username, hs[i].password)
  }

  /** The (username, password) pairs of the user rows with keys `keys`. */
  ghost function RowCredentials(db: Store, keys: set<int>): set<(string, string)>
    reads db`users
    requires forall k :: k in keys ==> k in db.users
  {
    set k | k in keys :: (db.users[k].username, db.users[k].password)
  }

  /** The handles in `hs` stand for the user rows with keys `keys`, each once: usernames,
      unique over the store, tell the rows apart. */
  ghost predicate ListsUsers(db: Store, hs: seq<User>, keys: set<int>)
    reads db`users
  {
    && (forall k :: k in keys ==> k in db.users)
    && (forall i, j :: 0 <= i < j < |hs| ==> hs[i].username != hs[j].username)
    && HandleCredentials(hs) == RowCredentials(db, keys)
  }

  lemma ListsUsersAppend(db: Store, hs: seq<User>, keys: set<int>, h: User, k: int)
    requires UsernamesUnique(db.users)
    requires ListsUsers(db, hs, keys) && k in db.users && k !in keys
    requires h.username == db.users[k].username && h.password == db.users[k].password
    ensures ListsUsers(db, hs + [h], keys + {k})
  {
    var hs' := hs + [h];
    assert HandleCredentials(hs') == HandleCredentials(hs) + {(h.username, h.password)} by {
      forall p | p in HandleCredentials(hs')
        ensures p in HandleCredentials(hs) + {(h.username, h.password)}
      {
        var i :| 0 <= i < |hs'| && p == (hs'[i].username, hs'[i].password);
        if i < |hs| {
          assert hs'[i] == hs[i];
        }
      }
      assert hs'[|hs|] == h;
      forall i | 0 <= i < |hs|
        ensures (hs[i].username, hs[i].password) in HandleCredentials(hs')
      {
        assert hs'[i] == hs[i];
      }
    }
    assert RowCredentials(db, keys + {k})
        == RowCredentials(db, keys) + {(db.users[k].username, db.users[k].password)};
    forall i | 0 <= i < |hs|
      ensures hs[i].username != h.username
    {
      var p := (hs[i].username, hs[i].password);
      assert p in HandleCredentials(hs);
      assert p in RowCredentials(db, keys);
      var k' :| k' in keys && p == (db.users[k'].username, db.users[k'].password);
      assert k' != k;
    }
  }

  /** The handles in `hs` are the sessions of the users `keys`, each once. */
  ghost predicate ListsSessions(hs: seq<Session>, keys: set<int>) {
    && (forall i :: 0 <= i < |hs| ==> hs[i].userId in keys)
    && (forall i, j :: 0 <= i < j < |hs| ==> hs[i].userId != hs[j].userId)
    && (forall k :: k in keys ==> exists i :: 0 <= i < |hs| && hs[i].userId == k)
  }

  lemma ListsSessionsAppend(hs: seq<Session>, keys: set<int>, h: Session)
    requires ListsSessions(hs, keys) && h.userId !in keys
    ensures ListsSessions(hs + [h], keys + {h.userId})
  {
    var hs' := hs + [h];
    forall k | k in keys + {h.userId}
      ensures exists i :: 0 <= i < |hs'| && hs'[i].userId == k
    {
      if k == h.userId {
        assert hs'[|hs|].userId == k;
      } else {
        var i :| 0 <= i < |hs| && hs[i].userId == k;
        assert hs'[i].userId == k;
      }
    }
  }

  class Site {
    const db: Store
    /** The key of the row the handle was loaded from. */
    const siteId: int
    /** The handle's identity: IsDeleted and Equals go by name. */
    const name: string
    const timezone: int
    const sessionExpirationInSeconds: int
    const minimumBidIncrement: real

    constructor (db: Store, siteId: int, row: SiteRow)
      ensures this.db == db && this.siteId == siteId && name == row.name
      ensures timezone == row.timezone && sessionExpirationInSeconds == row.sessionExpirationInSeconds
      ensures minimumBidIncrement == row.minimumBidIncrement
    {
      this.db := db;
      this.siteId := siteId;
      name := row.name;
      timezone := row.timezone;
      sessionExpirationInSeconds := row.sessionExpirationInSeconds;
      minimumBidIncrement := row.minimumBidIncrement;
    }

    /** `IsDeleted`: no site row has this name. */
    predicate IsDeleted(): (r: bool)
      reads db`sites
      ensures r <==> forall k :: k in db.sites ==> db.sites[k].name != name
    {
      !db.HasSite(name)
    }

    /** `Equals`: same name. */
    function Equals(other: Site?): (r: bool)
      ensures r <==> other != null && HashKey() == other.HashKey()
    {
      other != null && name == other.name
    }

    /** What `GetHashCode` hashes. */
    function HashKey(): string {
      name
    }

    /** `Now()`: the reading of the site's clock, passed in as `clock`. */
    function Now(clock: Time): (r: Result<Time>)
      reads db`sites
      ensures r.Ok? <==> !IsDeleted()
      ensures r.Ok? ==> r.value == clock
      ensures r.Err? ==> r.error == InvalidOperation
    {
      if IsDeleted() then Err(InvalidOperation) else Ok(clock)
    }

    /** The user a Login query finds: the one with this site, username and password. */
    ghost function Match(username: string, password: string): Option<int>
      reads db`users
    {
      match db.FindUser(siteId, username)
      case None => None
      case Some(u) => if db.users[u].password == password then Some(u) else None
    }

    /** The query of Login finds user `u` exactly when `u`'s row has this site, username
        and password. */
    lemma MatchIsTheQuery(username: string, password: string, u: int)
      requires db.Valid()
      ensures Match(username, password) == Some(u) <==>
        && u in db.users && db.users[u].siteId == siteId
        && db.users[u].username == username && db.users[u].password == password
    {
      if u in db.users && db.users[u].siteId == siteId && db.users[u].username == username {
        db.FindUserIsUnique(u);
      }
    }

    /** The checks of Login in their order, then its two branches on the user's SessionId.
        A new session row needs a stored site with this handle's SiteId (its foreign key);
        a set SessionId whose row is gone is reported as an unavailable database. */
    ghost function LoginCaseOf(username: Option<string>, password: Option<string>): LoginCase
      reads db`sites, db`users, db`sessions
    {
      if IsDeleted() then Raise(InvalidOperation)
      else if CredentialsError(db.limits, username, password).Some? then
        Raise(CredentialsError(db.limits, username, password).value)
      else
        match Match(username.value, password.value)
        case None => NoMatch
        case Some(u) =>
          if !db.users[u].hasSessionId then
            if siteId !in db.sites then Raise(InvalidOperation) else Open(u)
          else if u in db.sessions then Renew(u)
          else Raise(UnavailableDb)
    }

    /** A user this site just created, with valid credentials, opens a new session on a
        live site whose row still has this handle's SiteId. */
    lemma NewUserOpensSession(k: int, username: string, password: string)
      requires db.Valid() && !IsDeleted() && siteId in db.sites
      requires k in db.users && db.users[k] == UserRow(siteId, username, password, false)
      requires CredentialsError(db.limits, Some(username), Some(password)).None?
      ensures LoginCaseOf(Some(username), Some(password)) == Open(k)
    {
      MatchIsTheQuery(username, password, k);
    }

    /** A session handle Login returns for user `u`: of this site, of the user's own row,
        with a fresh public User handle, valid until `validUntil`. */
    ghost predicate LoggedIn(s: Session, u: int, username: string, password: string,
                             validUntil: Time)
      reads s, db`sessions
    {
      && s.db == db && s.siteId == siteId && s.userId == u && s.id == IdString(u)
      && s.user.db == db && s.user.siteId == siteId && s.user.username == username
      && s.user.password == password && s.user.userId == 0
      && s.dbValidUntil == validUntil && !s.IsDeleted() && s.ValidUntil() == validUntil
    }

    method Login(username: Option<string>, password: Option<string>, now: Time)
      returns (r: Result<Option<Session>>)
      requires db.Valid()
      modifies db
      ensures db.Valid()
      ensures var c := old(LoginCaseOf(username, password));
        && (c.Raise? ==> r == Err(c.error) && unchanged(db))
        && (c.NoMatch? ==> r == Ok(None) && unchanged(db))
      ensures var c := old(LoginCaseOf(username, password));
        var expiry := now + sessionExpirationInSeconds;
        c.Open? ==>
          && db.sessions == old(db.sessions)[c.user := SessionRow(siteId, c.user, expiry)]
          && db.users == old(db.users)[c.user := old(db.users[c.user]).(hasSessionId := true)]
          && db.sites == old(db.sites) && db.auctions == old(db.auctions)
          && db.nextSiteId == old(db.nextSiteId) && db.nextUserId == old(db.nextUserId)
          && db.nextAuctionId == old(db.nextAuctionId)
          && r.Ok? && r.value.Some? && fresh(r.value.value) && fresh(r.value.value.user)
          && LoggedIn(r.value.value, c.user, username.value, password.value, expiry)
      ensures var c := old(LoginCaseOf(username, password));
        var expiry := now + sessionExpirationInSeconds;
        c.Renew? ==>
          && db.sessions == old(db.sessions)[c.user := old(db.sessions[c.user]).(validUntil := expiry)]
          && db.users == old(db.users) && db.sites == old(db.sites) && db.auctions == old(db.auctions)
          && db.nextSiteId == old(db.nextSiteId) && db.nextUserId == old(db.nextUserId)
          && db.nextAuctionId == old(db.nextAuctionId)
          && r.Ok? && r.value.Some? && fresh(r.value.value) && fresh(r.value.value.user)
          && LoggedIn(r.value.value, c.user, username.value, password.value, expiry)
    {
      if IsDeleted() {
        return Err(InvalidOperation);
      }
      var e := CredentialsError(db.limits, username, password);
      if e.Some? {
        return Err(e.value);
      }
      var name, pass := username.value, password.value;
      if !exists u :: u in db.users && db.users[u].username == name && db.users[u].siteId == siteId
                      && db.users[u].password == pass {
        return Ok(None);
      }
      var u :| u in db.users && db.users[u].username == name && db.users[u].siteId == siteId
               && db.users[u].password == pass;
      MatchIsTheQuery(name, pass, u);
      var expiry := now + sessionExpirationInSeconds;
      if !db.users[u].hasSessionId {
        if siteId !in db.sites {
          // The new row's SiteId references no site: the foreign key refuses it.
          return Err(InvalidOperation);
        }
        db.OpenSession(u, siteId, expiry);
        var owner := new User(db, siteId, name, pass);
        var session := new Session(db, siteId, u, owner, expiry);
        return Ok(Some(session));
      }
      if u !in db.sessions {
        return Err(UnavailableDb);
      }
      db.SetSessionValidUntil(u, expiry);
      var owner := new User(db, siteId, name, pass);
      var session := new Session(db, siteId, u, owner, expiry);
      r := Ok(Some(session));
    }

    /** Login as evidently intended: whether the user's session row exists decides between
        opening and renewing, not the user's SessionId, which Logout and the expiry sweep
        leave set. */
    ghost function IntendedLoginCaseOf(username: Option<string>, password: Option<string>)
      : LoginCase
      reads db`sites, db`users, db`sessions
    {
      if IsDeleted() then Raise(InvalidOperation)
      else if CredentialsError(db.limits, username, password).Some? then
        Raise(CredentialsError(db.limits, username, password).value)
      else
        match Match(username.value, password.value)
        case None => NoMatch
        case Some(u) =>
          if u in db.sessions then Renew(u)
          else if siteId !in db.sites then Raise(InvalidOperation)
          else Open(u)
    }

    /** Login with the session row, not the SessionId, deciding the branch. A user with the
        right credentials on a live site whose row carries this SiteId always gets a
        session. */
    method LoginBySessionRow(username: Option<string>, password: Option<string>, now: Time)
      returns (r: Result<Option<Session>>)
      requires db.Valid()
      modifies db
      ensures db.Valid()
      ensures var c := old(IntendedLoginCaseOf(username, password));
        && (c.Raise? ==> r == Err(c.error) && unchanged(db))
        && (c.NoMatch? ==> r == Ok(None) && unchanged(db))
      ensures var c := old(IntendedLoginCaseOf(username, password));
        var expiry := now + sessionExpirationInSeconds;
        c.Open? ==>
          && db.sessions == old(db.sessions)[c.user := SessionRow(siteId, c.user, expiry)]
          && db.users == old(db.users)[c.user := old(db.users[c.user]).(hasSessionId := true)]
          && db.sites == old(db.sites) && db.auctions == old(db.auctions)
          && db.nextSiteId == old(db.nextSiteId) && db.nextUserId == old(db.nextUserId)
          && db.nextAuctionId == old(db.nextAuctionId)
          && r.Ok? && r.value.Some? && fresh(r.value.value) && fresh(r.value.value.user)
          && LoggedIn(r.value.value, c.user, username.value, password.value, expiry)
      ensures var c := old(IntendedLoginCaseOf(username, password));
        var expiry := now + sessionExpirationInSeconds;
        c.Renew? ==>
          && db.sessions == old(db.sessions)[c.user := old(db.sessions[c.user]).(validUntil := expiry)]
          && db.users == old(db.users) && db.sites == old(db.sites) && db.auctions == old(db.auctions)
          && db.nextSiteId == old(db.nextSiteId) && db.nextUserId == old(db.nextUserId)
          && db.nextAuctionId == old(db.nextAuctionId)
          && r.Ok? && r.value.Some? && fresh(r.value.value) && fresh(r.value.value.user)
          && LoggedIn(r.value.value, c.user, username.value, password.value, expiry)
      ensures old(!IsDeleted() && CredentialsError(db.limits, username, password).None?
                  && Match(username.value, password.value).Some? && siteId in db.sites) ==>
        r.Ok? && r.value.Some?
    {
      if IsDeleted() {
        return Err(InvalidOperation);
      }
      var e := CredentialsError(db.limits, username, password);
      if e.Some? {
        return Err(e.value);
      }
      var name, pass := username.value, password.value;
      if !exists u :: u in db.users && db.users[u].username == name && db.users[u].siteId == siteId
                      && db.users[u].password == pass {
        return Ok(None);
      }
      var u :| u in db.users && db.users[u].username == name && db.users[u].siteId == siteId
               && db.users[u].password == pass;
      MatchIsTheQuery(name, pass, u);
      var expiry := now + sessionExpirationInSeconds;
      if u !in db.sessions {
        if siteId !in db.sites {
          return Err(InvalidOperation);
        }
        db.OpenSession(u, siteId, expiry);
        var owner := new User(db, siteId, name, pass);
        var session := new Session(db, siteId, u, owner, expiry);
        return Ok(Some(session));
      }
      db.SetSessionValidUntil(u, expiry);
      var owner := new User(db, siteId, name, pass);
      var session := new Session(db, siteId, u, owner, expiry);
      r := Ok(Some(session));
    }

    /** The first exception CreateUser raises, in the order of its checks; the username
        is looked up over every site. */
    ghost function CreateUserError(username: Option<string>, password: Option<string>): Option<Error>
      reads db`sites, db`users
    {
      if IsDeleted() then Some(InvalidOperation)
      else if CredentialsError(db.limits, username, password).Some? then
        CredentialsError(db.limits, username, password)
      else if db.HasUsername(username.value) then Some(NameAlreadyInUse)
      else None
    }

    method CreateUser(username: Option<string>, password: Option<string>) returns (r: Result<()>)
      requires db.Valid()
      modifies db
      ensures db.Valid()
      ensures old(CreateUserError(username, password)).Some? ==>
        r == Err(old(CreateUserError(username, password)).value) && unchanged(db)
      ensures old(CreateUserError(username, password)).None? ==>
        var k := old(db.nextUserId);
        && r == Ok(()) && k !in old(db.users) && db.nextUserId == k + 1
        && db.users == old(db.users)[k := UserRow(siteId, username.value, password.value, false)]
        && db.sites == old(db.sites) && db.sessions == old(db.sessions)
        && db.auctions == old(db.auctions)
        && db.nextSiteId == old(db.nextSiteId) && db.nextAuctionId == old(db.nextAuctionId)
    {
      if IsDeleted() {
        return Err(InvalidOperation);
      }
      var e := CredentialsError(db.limits, username, password);
      if e.Some? {
        return Err(e.value);
      }
      if db.HasUsername(username.value) {
        return Err(NameAlreadyInUse);
      }
      var k := db.InsertUser(UserRow(siteId, username.value, password.value, false));
      r := Ok(());
    }

    /** Some session or auction row references site `k`. */
    ghost predicate Referenced(k: int)
      reads db`sessions, db`auctions
    {
      || (exists s :: s in db.sessions && db.sessions[s].siteId == k)
      || (exists a :: a in db.auctions && db.auctions[a].siteId == k)
    }

    /** Deletes the site row with this name. Sessions and auctions reference their site
        with no delete action, so while the site has any, the store refuses and SaveChanges
        reports InvalidOperation. */
    method Delete() returns (r: Result<()>)
      requires db.Valid()
      modifies db
      ensures db.Valid()
      ensures old(IsDeleted()) ==> r == Err(InvalidOperation) && unchanged(db)
      ensures !old(IsDeleted()) && old(Referenced(db.FindSite(name).value)) ==>
        r == Err(InvalidOperation) && unchanged(db)
      ensures !old(IsDeleted()) && !old(Referenced(db.FindSite(name).value)) ==>
        && r == Ok(()) && db.sites == old(db.sites) - {old(db.FindSite(name)).value}
        && db.users == old(db.users) && db.sessions == old(db.sessions)
        && db.auctions == old(db.auctions)
        && db.nextSiteId == old(db.nextSiteId) && db.nextUserId == old(db.nextUserId)
        && db.nextAuctionId == old(db.nextAuctionId)
      ensures r.Ok? ==> IsDeleted()
    {
      if IsDeleted() {
        return Err(InvalidOperation);
      }
      var k :| k in db.sites && db.sites[k].name == name;
      assert db.FindSite(name) == Some(k);
      if (exists s :: s in db.sessions && db.sessions[s].siteId == k)
         || (exists a :: a in db.auctions && db.auctions[a].siteId == k) {
        return Err(InvalidOperation);
      }
      db.RemoveSite(k);
      r := Ok(());
    }

    /** The sessions the sweep removes: this site's, expired at `now`. */
    ghost function ExpiredKeys(now: Time): set<int>
      reads db`sessions
    {
      set s | s in db.sessions && db.sessions[s].siteId == siteId && db.sessions[s].validUntil <= now
    }

    /** The expiry sweep the site's alarm runs every five minutes (it checks nothing
        first): every session of this site whose expiry is not after `now` goes; after it no
        session of the site is expired, and the other sites' sessions are untouched. */
    method RemoveSessions(now: Time)
      requires db.Valid()
      modifies db
      ensures db.Valid()
      ensures db.sessions == old(db.sessions) - old(ExpiredKeys(now))
      ensures forall s :: s in db.sessions && db.sessions[s].siteId == siteId ==>
        db.sessions[s].validUntil > now
      ensures forall s :: s in old(db.sessions) && old(db.sessions[s]).siteId != siteId ==>
        s in db.sessions && db.sessions[s] == old(db.sessions[s])
      ensures db.sites == old(db.sites) && db.users == old(db.users)
      ensures db.auctions == old(db.auctions)
      ensures db.nextSiteId == old(db.nextSiteId) && db.nextUserId == old(db.nextUserId)
      ensures db.nextAuctionId == old(db.nextAuctionId)
    {
      var expired := set s | s in db.sessions && db.sessions[s].siteId == siteId
                             && db.sessions[s].validUntil <= now;
      db.RemoveSessions(expired);
    }

    /** The keys of this site's user rows. */
    ghost function UserKeys(): set<int>
      reads db`users
    {
      set k | k in db.users && db.users[k].siteId == siteId
    }

    /** `ToyGetUsers`: a public handle (UserId 0) for each user row of this SiteId. */
    method ToyGetUsers() returns (r: Result<seq<User>>)
      requires db.Valid()
      ensures IsDeleted() ==> r == Err(InvalidOperation)
      ensures !IsDeleted() ==> r.Ok? && ListsUsers(db, r.value, UserKeys())
      ensures r.Ok? ==> forall i :: 0 <= i < |r.value| ==>
        r.value[i].db == db && r.value[i].siteId == siteId && r.value[i].userId == 0
    {
      if IsDeleted() {
        return Err(InvalidOperation);
      }
      var keys := set k | k in db.users && db.users[k].siteId == siteId;
      var list: seq<User> := [];
      var todo := keys;
      while todo != {}
        invariant todo <= keys
        invariant ListsUsers(db, list, keys - todo)
        invariant forall i :: 0 <= i < |list| ==>
          list[i].db == db && list[i].siteId == siteId && list[i].userId == 0
        decreases todo
      {
        HasElement(todo);
        var k :| k in todo;
        var h := new User(db, siteId, db.users[k].username, db.users[k].password);
        ListsUsersAppend(db, list, keys - todo, h, k);
        assert (keys - todo) + {k} == keys - (todo - {k});
        list := list + [h];
        todo := todo - {k};
      }
      assert keys - todo == keys;
      r := Ok(list);
    }

    /** The keys of the auction rows `ToyGetAuctions(onlyNotEnded)` lists at `now`. */
    ghost function AuctionKeys(onlyNotEnded: bool, now: Time): set<int>
      reads db`auctions
    {
      set k | k in db.auctions && db.auctions[k].siteId == siteId
                && (onlyNotEnded ==> db.auctions[k].endsOn >= now)
    }

    /** `ToyGetAuctions`: a handle for each auction row of this SiteId (with
        `onlyNotEnded`, each not ended at `now`). The handle shows the row's ActualPrice
        as its starting price, and its seller is the loaded seller row. */
    method ToyGetAuctions(onlyNotEnded: bool, now: Time) returns (r: Result<seq<Auction>>)
      requires db.Valid()
      ensures IsDeleted() ==> r == Err(InvalidOperation)
      ensures !IsDeleted() ==> r.Ok? && ListsAuctions(r.value, AuctionKeys(onlyNotEnded, now))
      ensures r.Ok? ==> forall i :: 0 <= i < |r.value| ==>
        var h := r.value[i];
        && h.id in db.auctions && h.db == db && h.siteId == siteId
        && h.Shows(db.auctions[h.id], db.auctions[h.id].actualPrice)
        && h.seller.userId == h.sellerUserId
    {
      if IsDeleted() {
        return Err(InvalidOperation);
      }
      var ofSite := set k | k in db.auctions && db.auctions[k].siteId == siteId;
      var list: seq<Auction> := [];
      var todo := ofSite;
      while todo != {}
        invariant todo <= ofSite
        invariant ListsAuctions(list, AuctionKeys(onlyNotEnded, now) - todo)
        invariant forall i :: 0 <= i < |list| ==>
          && list[i].id in db.auctions && list[i].db == db && list[i].siteId == siteId
          && list[i].Shows(db.auctions[list[i].id], db.auctions[list[i].id].actualPrice)
          && list[i].seller.userId == list[i].sellerUserId
        decreases todo
      {
        HasElement(todo);
        var k :| k in todo;
        var a := db.auctions[k];
        if !onlyNotEnded || a.endsOn >= now {
          assert AuctionFits(db.users, db.sites, a);
          var seller := new User.Loaded(db, a.sellerUserId, db.users[a.sellerUserId]);
          var h := new Auction(db, k, a.sellerUserId, seller, siteId, a.description, a.endsOn,
                               a.actualPrice, a.actualPrice, a.topAmount);
          ListsAuctionsAppend(list, AuctionKeys(onlyNotEnded, now) - todo, h);
          assert (AuctionKeys(onlyNotEnded, now) - todo) + {k}
              == AuctionKeys(onlyNotEnded, now) - (todo - {k});
          list := list + [h];
        } else {
          assert AuctionKeys(onlyNotEnded, now) - todo
              == AuctionKeys(onlyNotEnded, now) - (todo - {k});
        }
        todo := todo - {k};
      }
      assert AuctionKeys(onlyNotEnded, now) - todo == AuctionKeys(onlyNotEnded, now);
      r := Ok(list);
    }

    /** The keys of this site's session rows. */
    ghost function SessionKeys(): set<int>
      reads db`sessions
    {
      set s | s in db.sessions && db.sessions[s].siteId == siteId
    }

    /** `ToyGetSessions`: a handle for each session row of this SiteId, whose user is the
        loaded owner row and whose cached expiry is the stored one. */
    method ToyGetSessions() returns (r: Result<seq<Session>>)
      requires db.Valid()
      ensures IsDeleted() ==> r == Err(InvalidOperation)
      ensures !IsDeleted() ==> r.Ok? && ListsSessions(r.value, SessionKeys())
      ensures r.Ok? ==> forall i :: 0 <= i < |r.value| ==>
        var h := r.value[i];
        && h.userId in db.sessions && h.userId in db.users && h.db == db && h.siteId == siteId
        && h.user.db == db && h.user.userId == h.userId
        && h.user.username == db.users[h.userId].username
        && h.dbValidUntil == db.sessions[h.userId].validUntil
    {
      if IsDeleted() {
        return Err(InvalidOperation);
      }
      var keys := set s | s in db.sessions && db.sessions[s].siteId == siteId;
      var list: seq<Session> := [];
      var todo := keys;
      while todo != {}
        invariant todo <= keys
        invariant ListsSessions(list, keys - todo)
        invariant forall i :: 0 <= i < |list| ==>
          && list[i].userId in db.sessions && list[i].userId in db.users && list[i].db == db
          && list[i].siteId == siteId && list[i].user.db == db
          && list[i].user.userId == list[i].userId
          && list[i].user.username == db.users[list[i].userId].username
          && list[i].dbValidUntil == db.sessions[list[i].userId].validUntil
        decreases todo
      {
        HasElement(todo);
        var s :| s in todo;
        assert SessionFits(db.users, db.sites, s, db.sessions[s]);
        var owner := new User.Loaded(db, s, db.users[s]);
        var h := new Session(db, siteId, s, owner, db.sessions[s].validUntil);
        ListsSessionsAppend(list, keys - todo, h);
        assert (keys - todo) + {s} == keys - (todo - {s});
        list := list + [h];
        todo := todo - {s};
      }
      assert keys - todo == keys;
      r := Ok(list);
    }
  }
}
