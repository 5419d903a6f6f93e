/** Whole runs of management operations and server updates from the empty
    database, and what every run keeps. */
module Runs {
  import opened Tlv
  import opened Names
  import opened Records
  import opened Database
  import opened ZoneChain
  import opened Management
  import opened Server

  datatype Op =
    | Create(z: NewZone, id: nat, now: Component)
    | Delete(zone: Name)
    | Add(row: Row, now: Component)
    | AddMulti(row: Row, authTtl: nat, now: Component)
    | AddFile(zone: Name, certOk: bool, file: File, ttl: nat, now: Component)
    | Remove(zone: Name, rrLabel: Name, typ: Component, now: Component)
    | Update(zid: nat, data: Data)

  /** A row as the record factory makes it for a zone of the database. */
  ghost predicate FactoryRow(db: Db, row: Row)
  {
    && row.zoneId in db.zones
    && row.data.name == RecordName(db.zones[row.zoneId].name, row.rrLabel, row.typ, row.version)
  }

  /** What an operation asks of its caller: factory rows, packets named under the
      zone, and a record left to build the chain from. */
  ghost predicate Defined(db: Db, op: Op)
  {
    match op
    case Create(z, id, now) => id > 0 && id !in db.zones
    case Delete(zone) => true
    case Add(row, now) => FactoryRow(db, row) && NonDoeSlots(Replace(db.rows, row), row.zoneId) != {}
    case AddMulti(row, ttl, now) =>
      && FactoryRow(db, row) && row.rrLabel != []
      && NonDoeSlots(Replace(PrefixesAdded(db, row, ttl, now), row), row.zoneId) != {}
    case AddFile(zone, certOk, file, ttl, now) =>
      FileDefined(db, zone, file, ttl) && (file.Packet? ==> MatchData(file.data.name, zone).Some?)
    case Remove(zone, rrLabel, typ, now) => RemoveDefined(db, zone, rrLabel, typ)
    case Update(zid, data) => zid in db.zones && UnderZone(data.name, db.zones[zid].name)
  }

  ghost function Apply(db: Db, op: Op): Db
    requires Defined(db, op)
  {
    match op
    case Create(z, id, now) => AfterCreateZone(db, z, id, now).0
    case Delete(zone) => AfterDeleteZone(db, zone).0
    case Add(row, now) => AfterAddRrset(db, row, now).0
    case AddMulti(row, ttl, now) => AfterAddMultiLevel(db, row, ttl, now).0
    case AddFile(zone, certOk, file, ttl, now) => AfterAddFile(db, zone, certOk, file, ttl, now).0
    case Remove(zone, rrLabel, typ, now) => AfterRemoveRrSet(db, zone, rrLabel, typ, now)
    case Update(zid, data) => AfterUpdate(db, zid, data).0
  }

  /** The id of the zone an operation works on. */
  ghost function Target(db: Db, op: Op): Option<nat>
  {
    match op
    case Create(z, id, now) => Some(id)
    case Delete(zone) => ZoneIdOf(db.zones, zone)
    case Add(row, now) => Some(row.zoneId)
    case AddMulti(row, ttl, now) => Some(row.zoneId)
    case AddFile(zone, certOk, file, ttl, now) => ZoneIdOf(db.zones, zone)
    case Remove(zone, rrLabel, typ, now) => ZoneIdOf(db.zones, zone)
    case Update(zid, data) => Some(zid)
  }

  ghost predicate Run(db: Db, ops: seq<Op>, after: Db)
    decreases |ops|
  {
    if ops == [] then after == db
    else Defined(db, ops[0]) && Run(Apply(db, ops[0]), ops[1..], after)
  }

  // ---------- integrity ----------

  ghost predicate Integrity(db: Db)
  {
    && 0 !in db.zones && UniqueNames(db.zones)
    && UniqueSlots(db.rows)
    && (forall r :: r in db.rows ==> FactoryRow(db, r))
  }

  /** How the rows may change while zone `zid` is worked on: other zones keep
      theirs, and a new row other than a DoE row is newer than what it replaces. */
  ghost predicate Evolves(before: set<Row>, after: set<Row>, zid: nat)
  {
    && (forall r :: r in before && r.zoneId != zid ==> r in after)
    && (forall r :: r in after && r.zoneId != zid ==> r in before)
    && (forall r, s :: r in after && r !in before && r.typ != DOE && s in before && s.zoneId == zid && SlotOf(s) == SlotOf(r)
                       ==> ComponentLess(s.version, r.version))
  }

  lemma RebuildStep(db: Db, mid: Db, zid: nat, now: Component)
    requires Integrity(mid) && zid in mid.zones && NonDoeSlots(mid.rows, zid) != {}
    requires Evolves(db.rows, mid.rows, zid)
    ensures var after := mid.(rows := Rebuilt(mid.rows, zid, mid.zones[zid].name, now));
            Integrity(after) && Evolves(db.rows, after.rows, zid)
  {
    RebuiltUnique(mid.rows, zid, mid.zones[zid].name, now);
  }

  ghost predicate Newer(rows: set<Row>, row: Row)
  {
    var stored := Lookup(rows, row.zoneId, row.rrLabel, row.typ);
    stored.Some? ==> ComponentLess(stored.value.version, row.version)
  }

  lemma ReplaceStep(db: Db, mid: Db, row: Row)
    requires Integrity(mid) && FactoryRow(mid, row)
    requires db.rows <= mid.rows && Evolves(db.rows, mid.rows, row.zoneId)
    requires Newer(mid.rows, row)
    ensures var after := mid.(rows := Replace(mid.rows, row));
            Integrity(after) && Evolves(db.rows, after.rows, row.zoneId)
  {
    ReplaceUnique(mid.rows, row);
  }

  lemma CheckedIsNewer(rows: set<Row>, row: Row)
    requires VersionCheck(rows, row) == Done
    ensures Newer(rows, row)
  {
    var stored := Lookup(rows, row.zoneId, row.rrLabel, row.typ);
    if stored.Some? {
      ComponentLessTotal(row.version, stored.value.version);
    }
  }

  lemma StoreStep(db: Db, mid: Db, row: Row, now: Component)
    requires Integrity(mid) && FactoryRow(mid, row)
    requires NonDoeSlots(Replace(mid.rows, row), row.zoneId) != {}
    requires db.rows <= mid.rows && Evolves(db.rows, mid.rows, row.zoneId)
    ensures var after := AfterStore(mid, row, now).0;
            Integrity(after) && Evolves(db.rows, after.rows, row.zoneId)
  {
    if VersionCheck(mid.rows, row) == Done {
      CheckedIsNewer(mid.rows, row);
      ReplaceStep(db, mid, row);
      RebuildStep(db, mid.(rows := Replace(mid.rows, row)), row.zoneId, now);
    }
  }

  lemma {:induction false} WithAuthStep(db: Db, zid: nat, rrLabel: Name, k: nat, ttl: nat, now: Component)
    requires Integrity(db) && zid in db.zones && k <= |rrLabel|
    ensures var after := db.(rows := WithAuth(db.rows, zid, db.zones[zid].name, rrLabel, k, ttl, now));
            Integrity(after) && Evolves(db.rows, after.rows, zid) && db.rows <= after.rows
  {
    if k > 0 {
      WithAuthStep(db, zid, rrLabel, k - 1, ttl, now);
    }
  }

  lemma CreateStep(db: Db, z: NewZone, id: nat, now: Component)
    requires Integrity(db) && id > 0 && id !in db.zones
    ensures var after := AfterCreateZone(db, z, id, now).0;
            Integrity(after) && Evolves(db.rows, after.rows, id)
  {
    if CreateCheck(db, z) == Done {
      var zones := db.zones[id := Zone(z.name, z.ttl)];
      var ksk, dsk := CertRow(id, z.name, z.ksk, z.ttl), CertRow(id, z.name, z.dsk, z.ttl);
      var start := Db(zones, db.rows);
      assert Integrity(start);
      if Lookup(db.rows, id, ksk.rrLabel, CERT).None? {
        ReplaceStep(start, start, ksk);
        if Lookup(db.rows + {ksk}, id, dsk.rrLabel, CERT).None? {
          var mid := Db(zones, db.rows + {ksk, dsk});
          assert mid.rows == db.rows + {ksk} + {dsk};
          ReplaceStep(start, Db(zones, db.rows + {ksk}), dsk);
          assert SlotOf(ksk) in NonDoeSlots(mid.rows, id);
          RebuildStep(start, mid, id, now);
        }
      }
    }
  }

  /** The row that an accepted update stores. */
  ghost function UpdatedRow(db: Db, zid: nat, data: Data): Row
    requires zid in db.zones && UnderZone(data.name, db.zones[zid].name)
    requires MatchData(data.name, db.zones[zid].name).Some?
  {
    var (rrLabel, typ, version) := MatchData(data.name, db.zones[zid].name).value;
    match Lookup(db.rows, zid, rrLabel, typ)
    case None => Row(zid, rrLabel, typ, version, db.zones[zid].ttl, data)
    case Some(r) => r.(version := version, data := data)
  }

  lemma UpdateIsReplace(db: Db, zid: nat, data: Data)
    requires zid in db.zones && UnderZone(data.name, db.zones[zid].name)
    ensures var (after, code) := AfterUpdate(db, zid, data);
            if code == Updated then
              && MatchData(data.name, db.zones[zid].name).Some?
              && var row := UpdatedRow(db, zid, data);
              && FactoryRow(db, row) && row.zoneId == zid && Newer(db.rows, row)
              && after == db.(rows := Replace(db.rows, row))
            else after == db
  {
  }

  lemma UpdateStep(db: Db, zid: nat, data: Data)
    requires Integrity(db) && zid in db.zones && UnderZone(data.name, db.zones[zid].name)
    ensures var after := AfterUpdate(db, zid, data).0;
            Integrity(after) && Evolves(db.rows, after.rows, zid)
  {
    UpdateIsReplace(db, zid, data);
    if AfterUpdate(db, zid, data).1 == Updated {
      ReplaceStep(db, db, UpdatedRow(db, zid, data));
    }
  }

  lemma AddMultiStep(db: Db, row: Row, ttl: nat, now: Component)
    requires Integrity(db) && Defined(db, AddMulti(row, ttl, now))
    ensures var after := AfterAddMultiLevel(db, row, ttl, now).0;
            Integrity(after) && Evolves(db.rows, after.rows, row.zoneId)
  {
    var mid := db.(rows := PrefixesAdded(db, row, ttl, now));
    var after := AfterAddMultiLevel(db, row, ttl, now).0;
    if after != db {
      assert after == AfterStore(mid, row, now).0;
      assert Integrity(mid) && Evolves(db.rows, mid.rows, row.zoneId) && db.rows <= mid.rows by {
        WithAuthStep(db, row.zoneId, row.rrLabel, |row.rrLabel| - 1, EffectiveTtl(db.zones[row.zoneId], ttl), now);
      }
      StoreStep(db, mid, row, now);
    }
  }

  lemma FileStep(db: Db, zid: nat, data: Data, ttl: nat, now: Component)
    requires Integrity(db) && zid in db.zones
    requires UnderZone(data.name, db.zones[zid].name) && MatchData(data.name, db.zones[zid].name).Some?
    requires NonDoeSlots(Replace(db.rows, RowFromData(zid, db.zones[zid], ttl, data)), zid) != {}
    ensures var after := AfterStore(db, RowFromData(zid, db.zones[zid], ttl, data), now).0;
            Integrity(after) && Evolves(db.rows, after.rows, zid)
  {
    RecordNameOfMatch(data.name, db.zones[zid].name);
    StoreStep(db, db, RowFromData(zid, db.zones[zid], ttl, data), now);
  }

  lemma RemoveStep(db: Db, zone: Name, rrLabel: Name, typ: Component, now: Component)
    requires Integrity(db) && RemoveDefined(db, zone, rrLabel, typ)
    ensures var after := AfterRemoveRrSet(db, zone, rrLabel, typ, now);
            && Integrity(after)
            && match ZoneIdOf(db.zones, zone) { case None => after == db case Some(zid) => Evolves(db.rows, after.rows, zid) }
  {
    var id := ZoneIdOf(db.zones, zone);
    if id.Some? {
      var row := Lookup(db.rows, id.value, rrLabel, typ);
      if row.Some? {
        RebuildStep(db, db.(rows := db.rows - {row.value}), id.value, now);
      }
    }
  }

  lemma DeleteStep(db: Db, zone: Name)
    requires Integrity(db)
    ensures var after := AfterDeleteZone(db, zone).0;
            && Integrity(after)
            && match ZoneIdOf(db.zones, zone) { case None => after == db case Some(zid) => Evolves(db.rows, after.rows, zid) }
  {
  }

  lemma EvolvesSame(rows: set<Row>)
    ensures forall zid :: Evolves(rows, rows, zid)
  {
  }

  /** Every operation keeps the database intact, leaves the other zones alone, and
      replaces a record only by a newer version. */
  lemma ApplyStep(db: Db, op: Op)
    requires Integrity(db) && Defined(db, op)
    ensures Integrity(Apply(db, op))
    ensures Target(db, op).None? ==> Apply(db, op) == db
    ensures Target(db, op).Some? ==> Evolves(db.rows, Apply(db, op).rows, Target(db, op).value)
  {
    hide Integrity, Evolves, Rebuilt, WithAuth, Replace, AfterStore, AfterCreateZone;
    EvolvesSame(db.rows);
    match op
    case Create(z, id, now) => CreateStep(db, z, id, now);
    case Delete(zone) => DeleteStep(db, zone);
    case Add(row, now) => StoreStep(db, db, row, now);
    case AddMulti(row, ttl, now) => AddMultiStep(db, row, ttl, now);
    case AddFile(zone, certOk, file, ttl, now) =>
      var id := ZoneIdOf(db.zones, zone);
      if id.Some? && file.Packet? {
        FileStep(db, id.value, file.data, ttl, now);
      }
    case Remove(zone, rrLabel, typ, now) => RemoveStep(db, zone, rrLabel, typ, now);
    case Update(zid, data) => UpdateStep(db, zid, data);
  }

  /** One row per zone, label and type, rows only of live zones, and packets named
      after their rows, in every state that any run reaches. */
  lemma {:induction false} RunKeepsIntegrity(db: Db, ops: seq<Op>, after: Db)
    requires Integrity(db) && Run(db, ops, after)
    ensures Integrity(after)
    decreases |ops|
  {
    if ops != [] {
      ApplyStep(db, ops[0]);
      RunKeepsIntegrity(Apply(db, ops[0]), ops[1..], after);
    }
  }

  /** A record set other than DoE that an operation replaces gets a newer version. */
  lemma VersionsGrow(db: Db, op: Op, r: Row, s: Row)
    requires Integrity(db) && Defined(db, op)
    requires r in db.rows && s in Apply(db, op).rows
    requires r.zoneId == s.zoneId && SlotOf(r) == SlotOf(s) && r.typ != DOE
    ensures r == s || ComponentLess(r.version, s.version)
  {
    ApplyStep(db, op);
  }

  lemma SameRowsSameAnswers(rows: set<Row>, rows': set<Row>, zid: nat, s: Slot)
    requires UniqueSlots(rows) && UniqueSlots(rows')
    requires ZoneRows(rows, zid) == ZoneRows(rows', zid)
    ensures Lookup(rows, zid, s.rrLabel, s.typ) == Lookup(rows', zid, s.rrLabel, s.typ)
    ensures LowerBound(rows, zid, DOE, KeyOf(s)) == LowerBound(rows', zid, DOE, KeyOf(s))
  {
    assert forall r: Row :: r.zoneId == zid ==> (r in rows <==> r in rows') by {
      assert forall r: Row :: r.zoneId == zid ==> (r in rows <==> r in ZoneRows(rows, zid));
      assert forall r: Row :: r.zoneId == zid ==> (r in rows' <==> r in ZoneRows(rows', zid));
    }
    var q := KeyOf(s);
    var a, b := LowerBound(rows, zid, DOE, q), LowerBound(rows', zid, DOE, q);
    if a.Some? && b.Some? {
      assert IsBound(rows, zid, DOE, q, b.value);
      BoundUnique(rows, zid, DOE, q, a.value, b.value);
    }
  }

  /** Operations on one zone change neither the record nor the denial that another zone answers with. */
  lemma ZonesAreIsolated(db: Db, op: Op, zid: nat, s: Slot)
    requires Integrity(db) && Defined(db, op)
    requires Target(db, op) != Some(zid)
    ensures ZoneRows(Apply(db, op).rows, zid) == ZoneRows(db.rows, zid)
    ensures Lookup(Apply(db, op).rows, zid, s.rrLabel, s.typ) == Lookup(db.rows, zid, s.rrLabel, s.typ)
    ensures LowerBound(Apply(db, op).rows, zid, DOE, KeyOf(s)) == LowerBound(db.rows, zid, DOE, KeyOf(s))
  {
    ApplyStep(db, op);
    SameRowsSameAnswers(Apply(db, op).rows, db.rows, zid, s);
  }

  /** A deleted zone leaves nothing behind, so a zone created later under the same
      id holds its two certificates and its chain and nothing else. */
  lemma ReusedIdStartsClean(db: Db, z: NewZone, id: nat, now: Component, r: Row)
    requires Integrity(db) && id !in db.zones
    requires r in AfterCreateZone(db, z, id, now).0.rows && r.zoneId == id
    ensures r.typ == DOE || r == CertRow(id, z.name, z.ksk, z.ttl) || r == CertRow(id, z.name, z.dsk, z.ttl)
  {
    assert forall x :: x in db.rows ==> FactoryRow(db, x);
  }
}
