/** The Host: the entry point that creates sites, lists them and loads a Site handle by
    name. */
module Hosting {
  import opened Common
  import opened Records
  import opened Storage
  import opened Sites

  /** `infos` lists the (name, timezone) of each site row with a key in `keys`, each once
      (names are unique). */
  ghost predicate ListsSiteInfos(db: Store, infos: seq<(string, int)>, keys: set<int>)
    reads db`sites
  {
    && (forall k :: k in keys ==> k in db.sites)
    && (forall i, j :: 0 <= i < j < |infos| ==> infos[i].0 != infos[j].0)
    && (set p | p in infos) == SiteInfos(db, keys)
  }

  ghost function SiteInfos(db: Store, keys: set<int>): set<(string, int)>
    reads db`sites
    requires forall k :: k in keys ==> k in db.sites
  {
    set k | k in keys :: (db.sites[k].name, db.sites[k].timezone)
  }

  lemma ListsSiteInfosAppend(db: Store, infos: seq<(string, int)>, keys: set<int>, k: int)
    requires SitesValid(db.sites)
    requires ListsSiteInfos(db, infos, keys) && k in db.sites && k !in keys
    ensures ListsSiteInfos(db, infos + [(db.sites[k].name, db.sites[k].timezone)], keys + {k})
  {
    var info := (db.sites[k].name, db.sites[k].timezone);
    var infos' := infos + [info];
    assert (set p | p in infos') == (set p | p in infos) + {info};
    assert SiteInfos(db, keys + {k}) == SiteInfos(db, keys) + {info};
    forall i | 0 <= i < |infos|
      ensures infos[i].0 != info.0
    {
      assert infos[i] in (set p | p in infos);
      assert infos[i] in SiteInfos(db, keys);
      var k' :| k' in keys && infos[i] == (db.sites[k'].name, db.sites[k'].timezone);
      assert k' != k;
    }
  }

  class Host {
    /** The store the connection string names. */
    const db: Store

    constructor (db: Store)
      ensures this.db == db
    {
      this.db := db;
    }

    /** `GetSiteInfos`: the name and timezone of every site. */
    method GetSiteInfos() returns (infos: seq<(string, int)>)
      requires db.Valid()
      ensures ListsSiteInfos(db, infos, db.sites.Keys)
    {
      infos := [];
      var todo := db.sites.Keys;
      while todo != {}
        invariant todo <= db.sites.Keys
        invariant ListsSiteInfos(db, infos, db.sites.Keys - todo)
        decreases todo
      {
        HasElement(todo);
        var k :| k in todo;
        ListsSiteInfosAppend(db, infos, db.sites.Keys - todo, k);
        assert (db.sites.Keys - todo) + {k} == db.sites.Keys - (todo - {k});
        infos := infos + [(db.sites[k].name, db.sites[k].timezone)];
        todo := todo - {k};
      }
      assert db.sites.Keys - todo == db.sites.Keys;
    }

    /** The name checks of CreateSite and LoadSite: present, then its length in UTF-16 code
        units. */
    function NameError(name: Option<string>): (e: Option<Error>)
      ensures e.None? <==>
        name.Some? && db.limits.minSiteName <= Utf16Length(name.value) <= db.limits.maxSiteName
      ensures e == Some(ArgumentNull) <==> name.None?
      ensures e.Some? ==> e.value == ArgumentNull || e.value == Argument
    {
      if name.None? then Some(ArgumentNull)
      else
        var n := Utf16Length(name.value);
        if n < db.limits.minSiteName || n > db.limits.maxSiteName then Some(Argument) else None
    }

    /** The first exception CreateSite raises, in the order of its checks. */
    ghost function CreateSiteError(name: Option<string>, timezone: int,
                                   sessionExpirationInSeconds: int, minimumBidIncrement: real)
      : Option<Error>
      reads db`sites
    {
      if NameError(name).Some? then NameError(name)
      else if timezone < db.limits.minTimeZone || timezone > db.limits.maxTimeZone then
        Some(OutOfRange)
      else if sessionExpirationInSeconds <= 0 then Some(OutOfRange)
      else if minimumBidIncrement <= 0.0 then Some(OutOfRange)
      else if db.HasSite(name.value) then Some(NameAlreadyInUse)
      else None
    }

    method CreateSite(name: Option<string>, timezone: int, sessionExpirationInSeconds: int,
                      minimumBidIncrement: real) returns (r: Result<()>)
      requires db.Valid()
      modifies db
      ensures db.Valid()
      ensures var e := old(CreateSiteError(name, timezone, sessionExpirationInSeconds,
                                           minimumBidIncrement));
        e.Some? ==> r == Err(e.value) && unchanged(db)
      ensures var e := old(CreateSiteError(name, timezone, sessionExpirationInSeconds,
                                           minimumBidIncrement));
        var k := old(db.nextSiteId);
        e.None? ==>
          && r == Ok(()) && k !in old(db.sites) && db.nextSiteId == k + 1
          && db.sites == old(db.sites)[k := SiteRow(name.value, timezone,
                                                    sessionExpirationInSeconds, minimumBidIncrement)]
          && db.FindSite(name.value) == Some(k)
          && db.users == old(db.users) && db.sessions == old(db.sessions)
          && db.auctions == old(db.auctions)
          && db.nextUserId == old(db.nextUserId) && db.nextAuctionId == old(db.nextAuctionId)
    {
      var e := NameError(name);
      if e.Some? {
        return Err(e.value);
      }
      if timezone < db.limits.minTimeZone || timezone > db.limits.maxTimeZone {
        return Err(OutOfRange);
      }
      if sessionExpirationInSeconds <= 0 {
        return Err(OutOfRange);
      }
      if minimumBidIncrement <= 0.0 {
        return Err(OutOfRange);
      }
      if db.HasSite(name.value) {
        return Err(NameAlreadyInUse);
      }
      var k := db.InsertSite(SiteRow(name.value, timezone, sessionExpirationInSeconds,
                                     minimumBidIncrement));
      assert db.sites[k].name == name.value;
      r := Ok(());
    }

    /** The first exception LoadSite raises, in the order of its checks. */
    ghost function LoadSiteError(name: Option<string>): Option<Error>
      reads db`sites
    {
      if NameError(name).Some? then NameError(name)
      else if !db.HasSite(name.value) then Some(InexistentName)
      else None
    }

    /** `LoadSite`: a handle on the site row with this name, carrying its SiteId. */
    method LoadSite(name: Option<string>) returns (r: Result<Site>)
      requires db.Valid()
      ensures LoadSiteError(name).Some? ==> r == Err(LoadSiteError(name).value)
      ensures LoadSiteError(name).None? ==>
        var k := db.FindSite(name.value).value;
        && r.Ok? && fresh(r.value) && r.value.db == db && r.value.siteId == k
        && r.value.name == name.value && r.value.timezone == db.sites[k].timezone
        && r.value.sessionExpirationInSeconds == db.sites[k].sessionExpirationInSeconds
        && r.value.minimumBidIncrement == db.sites[k].minimumBidIncrement
        && !r.value.IsDeleted()
    {
      var e := NameError(name);
      if e.Some? {
        return Err(e.value);
      }
      if !db.HasSite(name.value) {
        return Err(InexistentName);
      }
      var k :| k in db.sites && db.sites[k].name == name.value;
      assert db.FindSite(name.value) == Some(k);
      var site := new Site(db, k, db.sites[k]);
      r := Ok(site);
    }
  }
}
