/** Disciplined runs: every zone keeps a denial chain, delegations stay well formed,
    and refused additions leave no trace. */
module Discipline {
  import opened Tlv
  import opened Names
  import opened Records
  import opened Chain
  import opened Database
  import opened ZoneChain
  import opened Management
  import opened Runs
  import opened Delegation
  import Server
  import Effects

  // ---------- refused additions ----------

  lemma WithAuthChanges(rows: set<Row>, zid: nat, zone: Name, rrLabel: Name, k: nat, ttl: nat, now: Component)
    requires k <= |rrLabel|
    ensures WithAuth(rows, zid, zone, rrLabel, k, ttl, now) == rows <==>
            forall j :: 0 < j <= k ==> Lookup(rows, zid, rrLabel[..j], NS).Some?
  {
    hide WithAuth;
    Effects.WithAuthExact(rows, zid, zone, rrLabel, k, ttl, now);
    var missing := Effects.MissingAuth(rows, zid, zone, rrLabel, k, ttl, now);
    if j: nat :| 0 < j <= k && Lookup(rows, zid, rrLabel[..j], NS).None? {
      var row := AuthRow(zid, zone, rrLabel[..j], ttl, now);
      assert row in missing && row !in rows;
    } else {
      assert missing == {};
    }
  }

  /** addMultiLevelLabelRrset checks the version after adding AUTH rows. A refused
      call leaves the database as it was if and only if an earlier check refuses it
      or it has no AUTH row to add. */
  lemma RefusalExact(db: Db, row: Row, ttl: nat, now: Component)
    requires Integrity(db) && Defined(db, AddMulti(row, ttl, now))
    requires AfterAddMultiLevel(db, row, ttl, now).1 != Done
    ensures AfterAddMultiLevel(db, row, ttl, now).0 == db <==>
            || LinkAbove(db.rows, row.zoneId, row.rrLabel)
            || (row.typ == NS && NsAt(db.rows, row.zoneId, row.rrLabel, Auth))
            || PrefixesPresent(db.rows, row.zoneId, row.rrLabel)
  {
    WithAuthChanges(db.rows, row.zoneId, db.zones[row.zoneId].name, row.rrLabel, |row.rrLabel| - 1, EffectiveTtl(db.zones[row.zoneId], ttl), now);
  }

  lemma RefusedMultiChangesNothing(p: Policy, db: Db, row: Row, ttl: nat, now: Component)
    requires Integrity(db) && Delegated(p, db.rows) && Defined(db, AddMulti(row, ttl, now)) && Managed(p, row.typ)
    requires AfterAddMultiLevel(db, row, ttl, now).1 != Done
    ensures AfterAddMultiLevel(db, row, ttl, now).0 == db
  {
    RefusalExact(db, row, ttl, now);
    if !LinkAbove(db.rows, row.zoneId, row.rrLabel) && !(row.typ == NS && NsAt(db.rows, row.zoneId, row.rrLabel, Auth)) {
      WithAuthDelegated(p, db.rows, row.zoneId, db.zones[row.zoneId].name, row.rrLabel, |row.rrLabel| - 1, EffectiveTtl(db.zones[row.zoneId], ttl), now);
      var stored := Lookup(PrefixesAdded(db, row, ttl, now), row.zoneId, row.rrLabel, row.typ).value;
      assert stored in db.rows;
      forall k | 0 < k < |row.rrLabel|
        ensures Lookup(db.rows, row.zoneId, row.rrLabel[..k], NS).Some?
      {
        assert NsAt(db.rows, stored.zoneId, stored.rrLabel[..k], Auth);
      }
    }
  }

  /** Under the delegation invariants no refused addition of a managed record changes anything. */
  lemma RefusedAddChangesNothing(p: Policy, db: Db, op: Op)
    requires Integrity(db) && Delegated(p, db.rows) && Defined(db, op)
    requires (op.Add? && AfterAddRrset(db, op.row, op.now).1 != Done) ||
             (op.AddMulti? && Managed(p, op.row.typ) && AfterAddMultiLevel(db, op.row, op.authTtl, op.now).1 != Done)
    ensures Apply(db, op) == db
  {
    if op.AddMulti? {
      RefusedMultiChangesNothing(p, db, op.row, op.authTtl, op.now);
    }
  }

  // ---------- every zone has a chain ----------

  ghost predicate TwoCerts(ss: set<Slot>)
  {
    exists a, b :: a != b && CertSlot(a) in ss && CertSlot(b) in ss
  }

  /** A chain, and one over two key certificates if those are kept. */
  ghost predicate ChainOf(p: Policy, rows: set<Row>, zid: nat, zone: Name, base: seq<Slot>, now: Component)
  {
    IsChain(rows, zid, zone, base, now) && (p.keepsCerts ==> TwoCerts(set s | s in base))
  }

  ghost predicate ChainedZone(p: Policy, rows: set<Row>, zid: nat, zone: Name)
  {
    exists base, now :: ChainOf(p, rows, zid, zone, base, now)
  }

  ghost predicate Chained(p: Policy, db: Db)
  {
    forall zid :: zid in db.zones ==> ChainedZone(p, db.rows, zid, db.zones[zid].name)
  }

  lemma RebuiltChained(p: Policy, rows: set<Row>, zid: nat, zone: Name, now: Component)
    requires NonDoeSlots(rows, zid) != {} && (p.keepsCerts ==> TwoCerts(NonDoeSlots(rows, zid)))
    ensures ChainedZone(p, Rebuilt(rows, zid, zone, now), zid, zone)
  {
    RebuiltIsChain(rows, zid, zone, now);
    var base := SortSlots(NonDoeSlots(rows, zid));
    assert (set s | s in base) == NonDoeSlots(rows, zid);
    assert ChainOf(p, Rebuilt(rows, zid, zone, now), zid, zone, base, now);
  }

  lemma ChainedCerts(p: Policy, rows: set<Row>, rows': set<Row>, zid: nat, zone: Name)
    requires ChainedZone(p, rows, zid, zone) && p.keepsCerts
    requires forall id :: CertSlot(id) in NonDoeSlots(rows, zid) ==> CertSlot(id) in NonDoeSlots(rows', zid)
    ensures TwoCerts(NonDoeSlots(rows', zid))
  {
  }

  /** The chain stands as long as the zone's DoE rows stay and its record sets do. */
  lemma ChainStands(p: Policy, rows: set<Row>, rows': set<Row>, zid: nat, zone: Name)
    requires ChainedZone(p, rows, zid, zone)
    requires forall r: Row :: r.zoneId == zid && r.typ == DOE ==> (r in rows <==> r in rows')
    requires NonDoeSlots(rows, zid) <= NonDoeSlots(rows', zid)
    ensures ChainedZone(p, rows', zid, zone)
  {
    var base, now :| ChainOf(p, rows, zid, zone, base, now);
    assert IsChain(rows', zid, zone, base, now);
    assert ChainOf(p, rows', zid, zone, base, now);
  }

  lemma ReplaceKeepsSlots(rows: set<Row>, row: Row, zid: nat)
    ensures NonDoeSlots(rows, zid) <= NonDoeSlots(Replace(rows, row), zid)
  {
  }

  lemma StoreChained(p: Policy, db: Db, mid: Db, row: Row, now: Component)
    requires row.zoneId in db.zones && mid.zones == db.zones && db.rows <= mid.rows
    requires NonDoeSlots(Replace(mid.rows, row), row.zoneId) != {}
    requires ChainedZone(p, db.rows, row.zoneId, db.zones[row.zoneId].name)
    requires VersionCheck(mid.rows, row) == Done
    ensures ChainedZone(p, AfterStore(mid, row, now).0.rows, row.zoneId, db.zones[row.zoneId].name)
  {
    ReplaceKeepsSlots(mid.rows, row, row.zoneId);
    assert NonDoeSlots(db.rows, row.zoneId) <= NonDoeSlots(mid.rows, row.zoneId);
    if p.keepsCerts {
      ChainedCerts(p, db.rows, Replace(mid.rows, row), row.zoneId, db.zones[row.zoneId].name);
    }
    RebuiltChained(p, Replace(mid.rows, row), row.zoneId, db.zones[row.zoneId].name, now);
  }

  lemma SimpleStoreChained(p: Policy, db: Db, row: Row, now: Component)
    requires row.zoneId in db.zones && NonDoeSlots(Replace(db.rows, row), row.zoneId) != {}
    requires ChainedZone(p, db.rows, row.zoneId, db.zones[row.zoneId].name)
    ensures ChainedZone(p, AfterStore(db, row, now).0.rows, row.zoneId, db.zones[row.zoneId].name)
    ensures ChainedZone(p, AfterAddRrset(db, row, now).0.rows, row.zoneId, db.zones[row.zoneId].name)
  {
    if VersionCheck(db.rows, row) == Done {
      StoreChained(p, db, db, row, now);
    }
  }

  /** Refused or not: AUTH rows that a refused call leaves behind do no harm to the chain. */
  lemma AddMultiChained(p: Policy, db: Db, row: Row, ttl: nat, now: Component)
    requires UniqueSlots(db.rows) && Defined(db, AddMulti(row, ttl, now))
    requires ChainedZone(p, db.rows, row.zoneId, db.zones[row.zoneId].name)
    ensures ChainedZone(p, AfterAddMultiLevel(db, row, ttl, now).0.rows, row.zoneId, db.zones[row.zoneId].name)
  {
    var mid := db.(rows := PrefixesAdded(db, row, ttl, now));
    var zone := db.zones[row.zoneId].name;
    assert db.rows <= mid.rows && forall r :: r in mid.rows && r !in db.rows ==> r.typ == NS by {
      Effects.WithAuthExact(db.rows, row.zoneId, zone, row.rrLabel, |row.rrLabel| - 1, EffectiveTtl(db.zones[row.zoneId], ttl), now);
    }
    if AfterAddMultiLevel(db, row, ttl, now).0 != db {
      assert AfterAddMultiLevel(db, row, ttl, now) == AfterStore(mid, row, now);
      if VersionCheck(mid.rows, row) == Done {
        assert ChainedZone(p, AfterStore(mid, row, now).0.rows, row.zoneId, zone) by {
          StoreChained(p, db, mid, row, now);
        }
      } else {
        assert ChainedZone(p, mid.rows, row.zoneId, zone) by {
          assert NS.value[0] != DOE.value[0];
          ChainStands(p, db.rows, mid.rows, row.zoneId, zone);
        }
      }
    }
  }

  lemma RemoveChained(p: Policy, db: Db, zid: nat, rrLabel: Name, typ: Component, now: Component)
    requires Integrity(db) && zid in db.zones && RemoveDefined(db, db.zones[zid].name, rrLabel, typ)
    requires p.keepsCerts ==> forall id :: Slot(rrLabel, typ) != CertSlot(id)
    requires ChainedZone(p, db.rows, zid, db.zones[zid].name)
    ensures ChainedZone(p, AfterRemoveRrSet(db, db.zones[zid].name, rrLabel, typ, now).rows, zid, db.zones[zid].name)
  {
    var zone := db.zones[zid].name;
    assert ZoneIdOf(db.zones, zone) == Some(zid);
    var row := Lookup(db.rows, zid, rrLabel, typ);
    if row.Some? {
      var rest := db.rows - {row.value};
      if p.keepsCerts {
        forall id | CertSlot(id) in NonDoeSlots(db.rows, zid)
          ensures CertSlot(id) in NonDoeSlots(rest, zid)
        {
          var r :| r in db.rows && r.zoneId == zid && r.typ != DOE && SlotOf(r) == CertSlot(id);
          assert r in rest;
        }
        ChainedCerts(p, db.rows, rest, zid, zone);
      }
      RebuiltChained(p, rest, zid, zone, now);
    }
  }

  lemma UpdateChained(p: Policy, db: Db, zid: nat, data: Data)
    requires Server.PlainUpdate(db, zid, data)
    requires ChainedZone(p, db.rows, zid, db.zones[zid].name)
    ensures ChainedZone(p, Server.AfterUpdate(db, zid, data).0.rows, zid, db.zones[zid].name)
  {
    var zone := db.zones[zid].name;
    var base, now :| ChainOf(p, db.rows, zid, zone, base, now);
    Server.UpdateKeepsChain(db, zid, data, zid, zone, base, now);
    assert ChainOf(p, Server.AfterUpdate(db, zid, data).0.rows, zid, zone, base, now);
  }

  lemma CreateChained(p: Policy, db: Db, z: NewZone, id: nat, now: Component)
    requires Integrity(db) && id !in db.zones && z.ksk.keyId != z.dsk.keyId
    requires CreateCheck(db, z) == Done
    ensures ChainedZone(p, AfterCreateZone(db, z, id, now).0.rows, id, z.name)
  {
    var ksk, dsk := CertRow(id, z.name, z.ksk, z.ttl), CertRow(id, z.name, z.dsk, z.ttl);
    assert ksk.rrLabel[1] != dsk.rrLabel[1];
    var rows := db.rows + {ksk, dsk};
    assert Lookup(db.rows, id, ksk.rrLabel, CERT).None? by {
      assert forall r :: r in db.rows ==> FactoryRow(db, r);
    }
    assert Lookup(db.rows + {ksk}, id, dsk.rrLabel, CERT).None? by {
      assert forall r :: r in db.rows ==> FactoryRow(db, r);
    }
    assert CERT.value[0] != DOE.value[0];
    assert SlotOf(ksk) == CertSlot(z.ksk.keyId) && SlotOf(dsk) == CertSlot(z.dsk.keyId);
    assert ksk in rows && dsk in rows;
    assert CertSlot(z.ksk.keyId) in NonDoeSlots(rows, id) && CertSlot(z.dsk.keyId) in NonDoeSlots(rows, id);
    RebuiltChained(p, rows, id, z.name, now);
  }

  lemma ApplyChainedTarget(p: Policy, db: Db, op: Op, zid: nat)
    requires Integrity(db) && Defined(db, op) && Disciplined(p, db, op) && !op.Create?
    requires Target(db, op) == Some(zid) && zid in db.zones
    requires ChainedZone(p, db.rows, zid, db.zones[zid].name)
    ensures op.Delete? || ChainedZone(p, Apply(db, op).rows, zid, db.zones[zid].name)
  {
    match op
    case Delete(_) =>
    case Add(row, now) => SimpleStoreChained(p, db, row, now);
    case AddMulti(row, ttl, now) => AddMultiChained(p, db, row, ttl, now);
    case AddFile(_, _, file, ttl, now) =>
      if file.Packet? {
        SimpleStoreChained(p, db, RowFromData(zid, db.zones[zid], ttl, file.data), now);
      }
    case Remove(_, rrLabel, typ, now) => RemoveChained(p, db, zid, rrLabel, typ, now);
    case Update(_, data) => UpdateChained(p, db, zid, data);
  }

  /** Which zones an operation leaves, and under what name. */
  lemma ApplyZones(db: Db, op: Op, zid: nat)
    requires Integrity(db) && Defined(db, op)
    ensures Target(db, op) != Some(zid) ==> (zid in Apply(db, op).zones <==> zid in db.zones)
    ensures zid in db.zones && zid in Apply(db, op).zones ==> Apply(db, op).zones[zid] == db.zones[zid]
    ensures Target(db, op) == Some(zid) && op.Delete? ==> zid !in Apply(db, op).zones
    ensures Target(db, op) == Some(zid) && zid in Apply(db, op).zones && zid !in db.zones ==>
              op.Create? && CreateCheck(db, op.z) == Done && Apply(db, op).zones[zid].name == op.z.name
  {
  }

  lemma ApplyChainedZone(p: Policy, db: Db, op: Op, zid: nat)
    requires Integrity(db) && Chained(p, db) && Defined(db, op) && Disciplined(p, db, op)
    requires zid in Apply(db, op).zones
    ensures ChainedZone(p, Apply(db, op).rows, zid, Apply(db, op).zones[zid].name)
  {
    hide ChainedZone, CreateCheck, AfterCreateZone;
    ApplyZones(db, op, zid);
    if Target(db, op) != Some(zid) {
      SameZoneSlots(db, op, zid);
      ChainStands(p, db.rows, Apply(db, op).rows, zid, db.zones[zid].name);
    } else if op.Create? {
      CreateChained(p, db, op.z, op.id, op.now);
    } else {
      ApplyChainedTarget(p, db, op, zid);
    }
  }

  lemma SameZoneSlots(db: Db, op: Op, zid: nat)
    requires Integrity(db) && Defined(db, op) && Target(db, op) != Some(zid)
    ensures forall r: Row :: r.zoneId == zid ==> (r in Apply(db, op).rows <==> r in db.rows)
    ensures NonDoeSlots(Apply(db, op).rows, zid) == NonDoeSlots(db.rows, zid)
  {
    hide Apply, Integrity;
    ApplyStep(db, op);
  }

  lemma ApplyChained(p: Policy, db: Db, op: Op)
    requires Integrity(db) && Chained(p, db) && Defined(db, op) && Disciplined(p, db, op)
    ensures Chained(p, Apply(db, op))
  {
    hide ChainedZone, Apply, Disciplined, Integrity;
    forall zid | zid in Apply(db, op).zones
      ensures ChainedZone(p, Apply(db, op).rows, zid, Apply(db, op).zones[zid].name)
    {
      ApplyChainedZone(p, db, op, zid);
    }
  }

  // ---------- disciplined runs ----------

  ghost predicate DisciplinedRun(p: Policy, db: Db, ops: seq<Op>, after: Db)
    decreases |ops|
  {
    if ops == [] then after == db
    else Defined(db, ops[0]) && Disciplined(p, db, ops[0]) && DisciplinedRun(p, Apply(db, ops[0]), ops[1..], after)
  }

  lemma {:induction false} RunExtends(p: Policy, db: Db, ops: seq<Op>, mid: Db, op: Op)
    requires DisciplinedRun(p, db, ops, mid) && Defined(mid, op) && Disciplined(p, mid, op)
    ensures DisciplinedRun(p, db, ops + [op], Apply(mid, op))
    decreases |ops|
  {
    hide Defined, Disciplined, Apply;
    if ops == [] {
      assert ([] + [op])[1..] == [];
    } else {
      RunExtends(p, Apply(db, ops[0]), ops[1..], mid, op);
      assert (ops + [op])[1..] == ops[1..] + [op];
    }
  }

  ghost predicate Healthy(p: Policy, db: Db)
  {
    Integrity(db) && Delegated(p, db.rows) && Chained(p, db)
  }

  /** Every state that a disciplined run reaches from the empty database is healthy. */
  lemma {:induction false} DisciplinedRunHealthy(p: Policy, db: Db, ops: seq<Op>, after: Db)
    requires Healthy(p, db) && DisciplinedRun(p, db, ops, after)
    ensures Healthy(p, after)
    decreases |ops|
  {
    if ops != [] {
      ApplyStep(db, ops[0]);
      DisciplineRespects(p, db, ops[0]);
      ApplyDelegated(p, db, ops[0]);
      ApplyChained(p, db, ops[0]);
      DisciplinedRunHealthy(p, Apply(db, ops[0]), ops[1..], after);
    }
  }

  /** A healthy zone whose guard row closes the chain denies every absent record set,
      whatever has been updated since the chain was built. */
  lemma HealthyZoneDenies(p: Policy, db: Db, zid: nat)
    requires Healthy(p, db) && zid in db.zones && GuardCloses(db.rows, zid)
    ensures DeniesAbsent(db.rows, zid)
  {
    var zone := db.zones[zid].name;
    assert ChainedZone(p, db.rows, zid, zone);
    var base, now :| ChainOf(p, db.rows, zid, zone, base, now);
    GuardRowTells(db.rows, zid, zone, base, now);
    DenialComplete(db.rows, zid, zone, base, now);
  }

  /** Kept certificates and no record at the apex or at /KEY are one way to get there. */
  lemma CertifiedZoneCloses(p: Policy, db: Db, zid: nat)
    requires Healthy(p, db) && zid in db.zones && p.keepsCerts
    requires forall r :: r in db.rows && r.zoneId == zid && r.typ != DOE ==> r.rrLabel != [] && r.rrLabel != [KEY]
    ensures GuardCloses(db.rows, zid)
  {
    var zone := db.zones[zid].name;
    assert ChainedZone(p, db.rows, zid, zone);
    var base, now :| ChainOf(p, db.rows, zid, zone, base, now);
    var a, b :| a != b && CertSlot(a) in (set s | s in base) && CertSlot(b) in (set s | s in base);
    forall t: Slot | t in base
      ensures t.rrLabel != [] && t.rrLabel != [KEY]
    {
      assert t in NonDoeSlots(db.rows, zid);
    }
    GuardCondition(base, a, b);
    GuardRowTells(db.rows, zid, zone, base, now);
  }

  /** Nested labels invert inner rows: every accepted two-level addition whose second
      component precedes `NS` leaves an inner row of the zone's chain that denies every
      name, stored records included. */
  lemma NestedAddInvertsRow(db: Db, row: Row, ttl: nat, now: Component) returns (base: seq<Slot>, i: nat)
    requires Integrity(db) && Defined(db, AddMulti(row, ttl, now)) && row.typ != DOE
    requires AfterAddMultiLevel(db, row, ttl, now).1 == Done
    requires |row.rrLabel| > 1 && ComponentLess(row.rrLabel[1], NS)
    ensures var after := AfterAddMultiLevel(db, row, ttl, now).0;
            && IsChain(after.rows, row.zoneId, db.zones[row.zoneId].name, base, now)
            && SlotOf(row) in base && i < |base| - 1
            && forall q :: AbsentByRange(ChainRange(KeysOf(base), i), q)
  {
    hide Rebuilt, IsChain, WithAuth;
    var zid, zone := row.zoneId, db.zones[row.zoneId].name;
    var mid := PrefixesAdded(db, row, ttl, now);
    var rows := Replace(mid, row);
    assert AfterAddMultiLevel(db, row, ttl, now).0.rows == Rebuilt(rows, zid, zone, now);
    RebuiltIsChain(rows, zid, zone, now);
    base := SortSlots(NonDoeSlots(rows, zid));
    assert Lookup(mid, zid, row.rrLabel[..1], NS).Some? by {
      Effects.WithAuthExact(db.rows, zid, zone, row.rrLabel, |row.rrLabel| - 1, EffectiveTtl(db.zones[row.zoneId], ttl), now);
      assert At(AuthRow(zid, zone, row.rrLabel[..1], EffectiveTtl(db.zones[row.zoneId], ttl), now), zid, row.rrLabel[..1], NS);
    }
    assert SlotOf(row) in NonDoeSlots(rows, zid);
    var first := Lookup(mid, zid, row.rrLabel[..1], NS).value;
    assert first in rows && SlotOf(first) in NonDoeSlots(rows, zid) by {
      assert NS.value[0] != DOE.value[0];
    }
    i := NestedLabelInvertsRow(base, SlotOf(first), SlotOf(row));
  }
}
