/** From the first management command to the last reply: resolution over the zones
    of a database that a disciplined run produced. */
module EndToEnd {
  import opened Tlv
  import opened Names
  import opened Records
  import opened Database
  import opened Delegation
  import opened Discipline
  import opened Resolver
  import opened Resolution
  import opened CachedRuns
  import ZoneChain
  import Runs

  /** Each zone of the database, served from its rows. */
  ghost function WorldOf(db: Db): World
  {
    map z | z in (set i | i in db.zones :: db.zones[i].name) :: Site(ZoneIdOf(db.zones, z).value, db.rows)
  }

  lemma WorldZones(db: Db, z: Name)
    requires UniqueNames(db.zones)
    ensures z in WorldOf(db) <==> exists i :: i in db.zones && db.zones[i].name == z
    ensures z in WorldOf(db) ==> WorldOf(db)[z].rows == db.rows && WorldOf(db)[z].zid in db.zones &&
                                 db.zones[WorldOf(db)[z].zid].name == z
  {
  }

  /** What the operators see to beyond the tools' discipline: every guard row closes its
      zone's chain, no NACK packet is stored, and a zone stands behind every delegation. */
  ghost predicate WellKept(db: Db)
  {
    && (forall zid :: zid in db.zones ==> ZoneChain.GuardCloses(db.rows, zid))
    && (forall r :: r in db.rows ==> r.data.contentType != Nack)
    && Delegable(db)
  }

  ghost predicate Delegable(db: Db)
  {
    forall r :: r in db.rows && r.zoneId in db.zones && r.typ == NS && r.data.contentType == Link ==>
      exists i :: i in db.zones && db.zones[i].name == db.zones[r.zoneId].name + r.rrLabel
  }

  /** The guard rows do close the chains if zones keep their certificates and have no
      record at the apex or at /KEY. */
  lemma CertifiedZonesWellKept(p: Policy, db: Db)
    requires Healthy(p, db) && p.keepsCerts && Delegable(db)
    requires forall r :: r in db.rows ==> r.data.contentType != Nack
    requires forall r :: r in db.rows && r.typ != DOE ==> r.rrLabel != [] && r.rrLabel != [KEY]
    ensures WellKept(db)
  {
    hide Healthy, ZoneChain.GuardCloses, Delegable;
    forall zid | zid in db.zones
      ensures ZoneChain.GuardCloses(db.rows, zid)
    {
      CertifiedZoneCloses(p, db, zid);
    }
  }

  lemma SitesOk(p: Policy, db: Db, z: Name)
    requires Healthy(p, db) && WellKept(db) && z in WorldOf(db)
    ensures SiteOk(z, WorldOf(db)[z])
  {
    hide ZoneChain.DeniesAbsent, ZoneChain.GuardCloses, Marked;
    WorldZones(db, z);
    HealthyZoneDenies(p, db, WorldOf(db)[z].zid);
  }

  lemma HealthyWorld(p: Policy, db: Db)
    requires Healthy(p, db) && WellKept(db)
    ensures WorldOk(WorldOf(db))
  {
    hide SiteOk, ZoneChain.GuardCloses;
    var w := WorldOf(db);
    forall z | z in w
      ensures SiteOk(z, w[z])
    {
      SitesOk(p, db, z);
    }
    forall z, l | LinkAt(w, z, l)
      ensures z + l in w
    {
      WorldZones(db, z);
      WorldZones(db, z + l);
      var r := RowAt(w, z, l, NS).value;
    }
  }

  /** After any disciplined run from the empty database, under any policy, if the zones
      are well kept, resolving any askable goal from any of its zones ends with the
      answer of the deepest zone that the delegations lead to. */
  lemma ManagedZonesResolve(p: Policy, ops: seq<Runs.Op>, db: Db, now: Component, goal: Goal, s: nat) returns (d: nat)
    requires DisciplinedRun(p, EMPTY_DB, ops, db) && WellKept(db)
    requires Askable(goal.rrType)
    requires s <= |goal.dst| && exists i :: i in db.zones && db.zones[i].name == goal.dst[..s]
    ensures Inv(goal, Start(goal, s).0) && Waiting(Start(goal, s).0)
    ensures Solved(WorldOf(db), goal, s, d, |goal.dst| - s + 1, Resolve(WorldOf(db), now, goal, Start(goal, s).0))
  {
    DisciplinedRunHealthy(p, EMPTY_DB, ops, db);
    HealthyWorld(p, db);
    WorldZones(db, goal.dst[..s]);
    d := ResolutionCorrect(WorldOf(db), now, goal, s);
  }

  /** The same of the controller with its cache, driven by replies from the network: if
      the cache is sound and no zone name contains NDNS, it ends with that answer and
      leaves the cache sound. */
  lemma ControllerResolves(p: Policy, ops: seq<Runs.Op>, db: Db, now: Component, goal: Goal, s: nat, cache: Cache)
    returns (d: nat, last: Ctl, kept: Cache, ev: Event)
    requires DisciplinedRun(p, EMPTY_DB, ops, db) && WellKept(db)
    requires Askable(goal.rrType)
    requires s <= |goal.dst| && exists i :: i in db.zones && db.zones[i].name == goal.dst[..s]
    requires forall i :: i in db.zones ==> NDNS_QUERY !in db.zones[i].name
    requires OnlyLinks(cache) && CacheSound(WorldOf(db), now, cache)
    ensures ControllerRun(WorldOf(db), now, goal, s, cache) == Some((last, kept, ev))
    ensures exists n: nat :: Solved(WorldOf(db), goal, s, d, |goal.dst| - s + 1, Ended(last, ev, n))
    ensures CacheSound(WorldOf(db), now, kept)
  {
    hide DisciplinedRun, WellKept, Settles, Deepest, CacheSound, Resolve, ResolveCached, ControllerRun, SiteOk, WorldOf;
    var w := WorldOf(db);
    d := ManagedZonesResolve(p, ops, db, now, goal, s);
    DisciplinedRunHealthy(p, EMPTY_DB, ops, db);
    HealthyWorld(p, db);
    assert goal.dst[..s] in w by { WorldZones(db, goal.dst[..s]); }
    assert Coherent(w) by { CoherentWorld(p, db); }
    var start := Start(goal, s).0;
    CacheTransparent(w, now, goal, start, cache);
    ControllerRunFollows(w, now, goal, s, cache);
    var out := Resolve(w, now, goal, start);
    last, kept, ev := out.ctl, ResolveCached(w, now, goal, start, cache).1, out.event;
    assert out == Ended(last, ev, out.queries);
  }

  lemma CoherentWorld(p: Policy, db: Db)
    requires Healthy(p, db) && WellKept(db)
    requires forall i :: i in db.zones ==> NDNS_QUERY !in db.zones[i].name
    ensures Coherent(WorldOf(db))
  {
    var w := WorldOf(db);
    HealthyWorld(p, db);
    forall z | z in w
      ensures NDNS_QUERY !in z
    {
      WorldZones(db, z);
    }
  }
}
