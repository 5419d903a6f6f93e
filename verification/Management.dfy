/** The management operations: functions that say what each one does to the
    tables, and the class whose methods do it step by step. */
module Management {
  import opened Tlv
  import opened Names
  import opened Records
  import opened Database
  import opened ZoneChain
  import Chain

  datatype Reason =
    | NoSuchZone | ZoneExists | BadParent | CertMismatch | NoRootDkey | DuplicateCert
    | OverridesLink | OverridesAuth | DuplicateVersion | NewerExists | NoSuchFile | NotAPacket

  datatype Outcome = Done | Rejected(reason: Reason)

  /** A zone key certificate named zone/NDNS/KEY/keyId/CERT/version. */
  datatype Cert = Cert(keyId: Component, version: Component, bytes: Bytes)

  /** Arguments of createZone; `certsMatch` is the key chain's verdict on given
      certificates and `dkeyGiven` whether a D-Key certificate was named. */
  datatype NewZone = NewZone(
    name: Name, parent: Name, ttl: nat, ksk: Cert, dsk: Cert, certsMatch: bool, dkeyGiven: bool)

  /** What addRrsetFromFile finds at the given path or on standard input. */
  datatype File = Missing | Unreadable | Packet(data: Data)

  // ---------- specification ----------

  /** The label has an NS row of that content type: a delegation or an AUTH mark. */
  ghost predicate NsAt(rows: set<Row>, zid: nat, rrLabel: Name, ct: ContentType)
  {
    exists r :: r in rows && At(r, zid, rrLabel, NS) && r.data.contentType == ct
  }

  /** checkRrsetVersion: only a newer version may take the place of a stored row. */
  ghost function VersionCheck(rows: set<Row>, row: Row): Outcome
  {
    match Lookup(rows, row.zoneId, row.rrLabel, row.typ)
    case None => Done
    case Some(r) =>
      if r.version == row.version then Rejected(DuplicateVersion)
      else if ComponentLess(row.version, r.version) then Rejected(NewerExists)
      else Done
  }

  ghost function Replace(rows: set<Row>, row: Row): set<Row>
  {
    match Lookup(rows, row.zoneId, row.rrLabel, row.typ)
    case None => rows + {row}
    case Some(r) => rows - {r} + {row}
  }

  ghost function AfterStore(db: Db, row: Row, now: Component): (Db, Outcome)
    requires row.zoneId in db.zones && NonDoeSlots(Replace(db.rows, row), row.zoneId) != {}
  {
    var check := VersionCheck(db.rows, row);
    if check != Done then (db, check)
    else (db.(rows := Rebuilt(Replace(db.rows, row), row.zoneId, db.zones[row.zoneId].name, now)), Done)
  }

  ghost function AfterAddRrset(db: Db, row: Row, now: Component): (Db, Outcome)
    requires row.zoneId in db.zones && NonDoeSlots(Replace(db.rows, row), row.zoneId) != {}
  {
    if NsAt(db.rows, row.zoneId, row.rrLabel, Auth) then (db, Rejected(OverridesAuth))
    else AfterStore(db, row, now)
  }

  /** Zero stands for the zone's own time to live. */
  function EffectiveTtl(zone: Zone, ttl: nat): nat
  {
    if ttl == 0 then zone.ttl else ttl
  }

  function AuthRow(zid: nat, zone: Name, rrLabel: Name, ttl: nat, now: Component): Row
  {
    Row(zid, rrLabel, NS, now, ttl, Data(RecordName(zone, rrLabel, NS, now), Auth, Nothing))
  }

  /** The table after giving each of the first `k` prefixes of `rrLabel` an NS row. */
  ghost function WithAuth(rows: set<Row>, zid: nat, zone: Name, rrLabel: Name, k: nat, ttl: nat, now: Component): set<Row>
    requires k <= |rrLabel|
  {
    if k == 0 then rows else
    var before := WithAuth(rows, zid, zone, rrLabel, k - 1, ttl, now);
    if Lookup(before, zid, rrLabel[..k], NS).Some? then before
    else before + {AuthRow(zid, zone, rrLabel[..k], ttl, now)}
  }

  ghost predicate LinkAbove(rows: set<Row>, zid: nat, rrLabel: Name)
  {
    exists k :: 1 <= k < |rrLabel| && NsAt(rows, zid, rrLabel[..k], Link)
  }

  ghost function PrefixesAdded(db: Db, row: Row, ttl: nat, now: Component): set<Row>
    requires row.zoneId in db.zones && row.rrLabel != []
  {
    var zone := db.zones[row.zoneId];
    WithAuth(db.rows, row.zoneId, zone.name, row.rrLabel, |row.rrLabel| - 1, EffectiveTtl(zone, ttl), now)
  }

  ghost function AfterAddMultiLevel(db: Db, row: Row, authTtl: nat, now: Component): (Db, Outcome)
    requires row.zoneId in db.zones && row.rrLabel != []
    requires NonDoeSlots(Replace(PrefixesAdded(db, row, authTtl, now), row), row.zoneId) != {}
  {
    if LinkAbove(db.rows, row.zoneId, row.rrLabel) then (db, Rejected(OverridesLink))
    else if row.typ == NS && NsAt(db.rows, row.zoneId, row.rrLabel, Auth) then (db, Rejected(OverridesAuth))
    else AfterStore(db.(rows := PrefixesAdded(db, row, authTtl, now)), row, now)
  }

  /** The row that addRrsetFromFile makes of a packet; a name too short to hold a
      type and a version leaves the parsed fields empty. */
  function RowFromData(zid: nat, zone: Zone, ttl: nat, data: Data): Row
    requires UnderZone(data.name, zone.name)
  {
    var t := EffectiveTtl(zone, ttl);
    match MatchData(data.name, zone.name)
    case None => Row(zid, [], NO_COMPONENT, NO_COMPONENT, t, data)
    case Some((rrLabel, typ, version)) => Row(zid, rrLabel, typ, version, t, data)
  }

  /** A loaded packet is named under the zone, and leaves it a record to build a chain from. */
  ghost predicate FileDefined(db: Db, zone: Name, file: File, ttl: nat)
  {
    file.Packet? ==>
      && UnderZone(file.data.name, zone)
      && (var id := ZoneIdOf(db.zones, zone);
          id.Some? ==>
            NonDoeSlots(Replace(db.rows, RowFromData(id.value, db.zones[id.value], ttl, file.data)), id.value) != {})
  }

  ghost function AfterAddFile(db: Db, zone: Name, certOk: bool, file: File, ttl: nat, now: Component): (Db, Outcome)
    requires FileDefined(db, zone, file, ttl)
  {
    match ZoneIdOf(db.zones, zone)
    case None => (db, Rejected(NoSuchZone))
    case Some(zid) =>
      if !certOk then (db, Rejected(CertMismatch)) else
      match file
      case Missing => (db, Rejected(NoSuchFile))
      case Unreadable => (db, Rejected(NotAPacket))
      case Packet(data) => AfterStore(db, RowFromData(zid, db.zones[zid], ttl, data), now)
  }

  ghost function AfterRemoveRrSet(db: Db, zone: Name, rrLabel: Name, typ: Component, now: Component): Db
    requires RemoveDefined(db, zone, rrLabel, typ)
  {
    match ZoneIdOf(db.zones, zone)
    case None => db
    case Some(zid) =>
      match Lookup(db.rows, zid, rrLabel, typ)
      case None => db
      case Some(r) => db.(rows := Rebuilt(db.rows - {r}, zid, zone, now))
  }

  /** The zone keeps a record to build a chain from. */
  ghost predicate RemoveDefined(db: Db, zone: Name, rrLabel: Name, typ: Component)
  {
    match ZoneIdOf(db.zones, zone)
    case None => true
    case Some(zid) =>
      match Lookup(db.rows, zid, rrLabel, typ)
      case None => true
      case Some(r) => NonDoeSlots(db.rows - {r}, zid) != {}
  }

  function CertRow(zid: nat, zone: Name, cert: Cert, ttl: nat): Row
  {
    Row(zid, [KEY, cert.keyId], CERT, cert.version, ttl,
        Data(RecordName(zone, [KEY, cert.keyId], CERT, cert.version), ContentType.Key, Payload(cert.bytes)))
  }

  ghost function CreateCheck(db: Db, z: NewZone): Outcome
  {
    if ZoneIdOf(db.zones, z.name).Some? then Rejected(ZoneExists)
    else if z.name != [] && (z.parent == z.name || !(z.parent <= z.name)) then Rejected(BadParent)
    else if !z.certsMatch then Rejected(CertMismatch)
    else if z.name == [] && !z.dkeyGiven then Rejected(NoRootDkey)
    else Done
  }

  /** `id` is the id that the zone table assigns. Two certificates of one key are
      only noticed after the zone and the first certificate are stored. */
  ghost function AfterCreateZone(db: Db, z: NewZone, id: nat, now: Component): (Db, Outcome)
  {
    var check := CreateCheck(db, z);
    if check != Done then (db, check) else
    var zones := db.zones[id := Zone(z.name, z.ttl)];
    var ksk, dsk := CertRow(id, z.name, z.ksk, z.ttl), CertRow(id, z.name, z.dsk, z.ttl);
    if Lookup(db.rows, id, ksk.rrLabel, CERT).Some? then (Db(zones, db.rows), Rejected(DuplicateCert))
    else if Lookup(db.rows + {ksk}, id, dsk.rrLabel, CERT).Some? then (Db(zones, db.rows + {ksk}), Rejected(DuplicateCert))
    else
      assert SlotOf(ksk) in NonDoeSlots(db.rows + {ksk, dsk}, id);
      (Db(zones, Rebuilt(db.rows + {ksk, dsk}, id, z.name, now)), Done)
  }

  ghost function AfterDeleteZone(db: Db, name: Name): (Db, Outcome)
  {
    match ZoneIdOf(db.zones, name)
    case None => (db, Rejected(NoSuchZone))
    case Some(zid) => (Db(db.zones - {zid}, db.rows - ZoneRows(db.rows, zid)), Done)
  }

  // ---------- consequences used by the methods ----------

  lemma ReplaceUnique(rows: set<Row>, row: Row)
    requires UniqueSlots(rows)
    ensures UniqueSlots(Replace(rows, row))
    ensures row in Replace(rows, row)
    ensures row.typ != DOE ==> NonDoeSlots(Replace(rows, row), row.zoneId) != {}
  {
    if row.typ != DOE {
      assert SlotOf(row) in NonDoeSlots(Replace(rows, row), row.zoneId);
    }
  }

  lemma {:induction false} WithAuthUnique(rows: set<Row>, zid: nat, zone: Name, rrLabel: Name, k: nat, ttl: nat, now: Component)
    requires UniqueSlots(rows) && k <= |rrLabel|
    ensures UniqueSlots(WithAuth(rows, zid, zone, rrLabel, k, ttl, now))
    ensures rows <= WithAuth(rows, zid, zone, rrLabel, k, ttl, now)
  {
    if k > 0 {
      WithAuthUnique(rows, zid, zone, rrLabel, k - 1, ttl, now);
    }
  }

  lemma LookupUnique(rows: set<Row>, r: Row)
    requires UniqueSlots(rows) && r in rows
    ensures Lookup(rows, r.zoneId, r.rrLabel, r.typ) == Some(r)
  {
  }

  class ManagementTool {
    const db: DbMgr

    constructor (db: DbMgr)
      ensures this.db == db
    {
      this.db := db;
    }

    method GenerateDoe(zid: nat, now: Component) returns (out: Outcome)
      requires UniqueSlots(db.rows) && NonDoeSlots(db.rows, zid) != {}
      modifies db
      ensures db.zones == old(db.zones)
      ensures out == if zid in old(db.zones) then Done else Rejected(NoSuchZone)
      ensures zid !in old(db.zones) ==> db.rows == old(db.rows)
      ensures zid in old(db.zones) ==> db.rows == Rebuilt(old(db.rows), zid, db.zones[zid].name, now)
    {
      if zid !in db.zones {
        return Rejected(NoSuchZone);
      }
      ghost var before := db.rows;
      db.RemoveRrsetsOfZoneByType(zid, DOE);
      var found := db.FindRrsets(zid);
      assert forall i, j :: 0 <= i < j < |found| ==> SlotOf(found[i]) != SlotOf(found[j]) by {
        assert forall i :: 0 <= i < |found| ==> found[i] in found;
      }
      var allRecords := SortRrsets(found);
      SortedOnce(found, allRecords);
      var keys := Chain.KeysOf(SlotsOf(allRecords));
      SortedListIsSortSlots(before, zid, allRecords);
      SortedKeysDistinct(SlotsOf(allRecords));
      InsertChain(before, zid, keys, now);
      out := Done;
    }

    /** One row per neighbouring pair of keys, the row that closes the cycle, and the guard row. */
    method InsertChain(ghost before: set<Row>, zid: nat, keys: seq<Name>, now: Component)
      requires zid in db.zones && db.rows == WithoutType(before, zid, DOE)
      requires keys != [] && Chain.Distinct(keys) && [] !in keys
      modifies db
      ensures db.zones == old(db.zones)
      ensures db.rows == WithoutType(before, zid, DOE) + ChainRows(zid, db.zones[zid].name, keys, now, |keys| + 1)
    {
      ghost var zone := db.zones[zid].name;
      var i := 0;
      while i < |keys| - 1
        invariant 0 <= i <= |keys| - 1
        invariant db.zones == old(db.zones)
        invariant db.rows == WithoutType(before, zid, DOE) + ChainRows(zid, zone, keys, now, i)
      {
        InsertRange(before, zid, keys, i, keys[i], keys[i], keys[i + 1], now);
        i := i + 1;
      }
      var last, first := keys[|keys| - 1], keys[0];
      InsertRange(before, zid, keys, i, last, last, first, now);
      InsertRange(before, zid, keys, i + 1, [], last, first, now);
    }

    /** generateDoeRrset and insert; `k` is the position of the row in the chain. */
    method InsertRange(ghost before: set<Row>, zid: nat, ghost keys: seq<Name>, ghost k: nat,
                       rrLabel: Name, lower: Name, upper: Name, now: Component)
      requires zid in db.zones && keys != [] && Chain.Distinct(keys) && [] !in keys && k <= |keys|
      requires rrLabel == Chain.ChainLabel(keys, k) && (lower, upper) == Chain.ChainRange(keys, k)
      requires db.rows == WithoutType(before, zid, DOE) + ChainRows(zid, db.zones[zid].name, keys, now, k)
      modifies db
      ensures db.zones == old(db.zones)
      ensures db.rows == WithoutType(before, zid, DOE) + ChainRows(zid, db.zones[zid].name, keys, now, k + 1)
    {
      var zone := db.zones[zid].name;
      ChainRowFresh(before, zid, zone, keys, now, k);
      var row := Row(zid, rrLabel, DOE, now, DEFAULT_CACHE_TTL,
                     Data(RecordName(zone, rrLabel, DOE, now), Doe, Range(lower, upper)));
      assert row == DoeRow(zid, zone, keys, now, k);
      var ok := db.InsertRow(row);
      assert ok;
    }

    /** Removes an older version of the row; refuses if the row is not newer. */
    method CheckRrsetVersion(row: Row) returns (out: Outcome)
      requires UniqueSlots(db.rows)
      modifies db
      ensures db.zones == old(db.zones)
      ensures out == VersionCheck(old(db.rows), row)
      ensures out != Done ==> db.rows == old(db.rows)
      ensures out == Done ==> db.rows + {row} == Replace(old(db.rows), row) && !Clashes(db.rows, row)
    {
      var original := db.FindRow(row.zoneId, row.rrLabel, row.typ);
      if original.Some? {
        if original.value.version == row.version {
          return Rejected(DuplicateVersion);
        } else if ComponentLess(row.version, original.value.version) {
          return Rejected(NewerExists);
        }
        db.RemoveRow(original.value);
      }
      out := Done;
    }

    method StoreRow(row: Row, now: Component) returns (out: Outcome)
      requires row.zoneId in db.zones && UniqueSlots(db.rows)
      requires NonDoeSlots(Replace(db.rows, row), row.zoneId) != {}
      modifies db
      ensures (db.State(), out) == AfterStore(old(db.State()), row, now)
    {
      ReplaceUnique(db.rows, row);
      out := CheckRrsetVersion(row);
      if out == Done {
        var _ := db.InsertRow(row);
        out := GenerateDoe(row.zoneId, now);
      }
    }

    method AddRrset(row: Row, now: Component) returns (out: Outcome)
      requires row.zoneId in db.zones && UniqueSlots(db.rows)
      requires NonDoeSlots(Replace(db.rows, row), row.zoneId) != {}
      modifies db
      ensures (db.State(), out) == AfterAddRrset(old(db.State()), row, now)
    {
      hide AfterStore;
      var ns := db.FindRow(row.zoneId, row.rrLabel, NS);
      if ns.Some? && ns.value.data.contentType == Auth {
        return Rejected(OverridesAuth);
      }
      out := StoreRow(row, now);
    }

    /** Whether some proper prefix of the label is delegated to another zone. */
    method IsBelowLink(zid: nat, rrLabel: Name) returns (below: bool)
      requires UniqueSlots(db.rows) && rrLabel != []
      ensures below <==> LinkAbove(db.rows, zid, rrLabel)
    {
      var i := 1;
      while i <= |rrLabel| - 1
        invariant 1 <= i <= |rrLabel|
        invariant forall k :: 1 <= k < i ==> !NsAt(db.rows, zid, rrLabel[..k], Link)
      {
        var ns := db.FindRow(zid, rrLabel[..i], NS);
        if ns.Some? && ns.value.data.contentType == Link {
          assert NsAt(db.rows, zid, rrLabel[..i], Link);
          return true;
        }
        i := i + 1;
      }
      below := false;
    }

    method AddAuthRows(zid: nat, rrLabel: Name, authTtl: nat, now: Component)
      requires zid in db.zones && UniqueSlots(db.rows) && rrLabel != []
      modifies db
      ensures db.zones == old(db.zones)
      ensures db.rows == WithAuth(old(db.rows), zid, db.zones[zid].name, rrLabel, |rrLabel| - 1, EffectiveTtl(db.zones[zid], authTtl), now)
    {
      var ttl := EffectiveTtl(db.zones[zid], authTtl);
      ghost var before, zone := db.rows, db.zones[zid].name;
      var i := 1;
      while i <= |rrLabel| - 1
        invariant 1 <= i <= |rrLabel|
        invariant db.zones == old(db.zones)
        invariant db.rows == WithAuth(before, zid, zone, rrLabel, i - 1, ttl, now)
      {
        WithAuthUnique(before, zid, zone, rrLabel, i - 1, ttl, now);
        var ns := db.FindRow(zid, rrLabel[..i], NS);
        if ns.None? {
          var _ := db.InsertRow(AuthRow(zid, db.zones[zid].name, rrLabel[..i], ttl, now));
        }
        i := i + 1;
      }
    }

    method AddMultiLevelLabelRrset(row: Row, authTtl: nat, now: Component) returns (out: Outcome)
      requires row.zoneId in db.zones && UniqueSlots(db.rows) && row.rrLabel != []
      requires NonDoeSlots(Replace(PrefixesAdded(db.State(), row, authTtl, now), row), row.zoneId) != {}
      modifies db
      ensures (db.State(), out) == AfterAddMultiLevel(old(db.State()), row, authTtl, now)
    {
      hide NonDoeSlots, WithAuth, Rebuilt;
      var below := IsBelowLink(row.zoneId, row.rrLabel);
      if below {
        return Rejected(OverridesLink);
      }
      if row.typ == NS {
        var ns := db.FindRow(row.zoneId, row.rrLabel, NS);
        if ns.Some? && ns.value.data.contentType == Auth {
          return Rejected(OverridesAuth);
        }
      }
      ghost var mid := db.State().(rows := PrefixesAdded(db.State(), row, authTtl, now));
      assert AfterAddMultiLevel(db.State(), row, authTtl, now) == AfterStore(mid, row, now);
      assert UniqueSlots(mid.rows) by {
        WithAuthUnique(db.rows, row.zoneId, db.zones[row.zoneId].name, row.rrLabel, |row.rrLabel| - 1, EffectiveTtl(db.zones[row.zoneId], authTtl), now);
      }
      AddAuthRows(row.zoneId, row.rrLabel, authTtl, now);
      assert db.State() == mid;
      out := StoreRow(row, now);
    }

    /** `certOk` is the key chain's verdict on the signing certificate. */
    method AddRrsetFromFile(zone: Name, certOk: bool, file: File, ttl: nat, now: Component) returns (out: Outcome)
      requires UniqueSlots(db.rows) && UniqueNames(db.zones)
      requires FileDefined(db.State(), zone, file, ttl)
      modifies db
      ensures (db.State(), out) == AfterAddFile(old(db.State()), zone, certOk, file, ttl, now)
    {
      var id := db.FindZone(zone);
      if id.None? {
        return Rejected(NoSuchZone);
      }
      if !certOk {
        return Rejected(CertMismatch);
      }
      match file
      case Missing => return Rejected(NoSuchFile);
      case Unreadable => return Rejected(NotAPacket);
      case Packet(data) => out := StoreRow(RowFromData(id.value, db.zones[id.value], ttl, data), now);
    }

    method RemoveRrSet(zone: Name, rrLabel: Name, typ: Component, now: Component)
      requires UniqueSlots(db.rows) && UniqueNames(db.zones)
      requires RemoveDefined(db.State(), zone, rrLabel, typ)
      modifies db
      ensures db.State() == AfterRemoveRrSet(old(db.State()), zone, rrLabel, typ, now)
    {
      var id := db.FindZone(zone);
      if id.Some? {
        var row := db.FindRow(id.value, rrLabel, typ);
        if row.Some? {
          db.RemoveRow(row.value);
          var _ := GenerateDoe(id.value, now);
        }
      }
    }

    /** False if the zone already has a certificate of that key. */
    method AddIdCert(zid: nat, cert: Cert, ttl: nat) returns (ok: bool)
      requires zid in db.zones
      modifies db
      ensures db.zones == old(db.zones)
      ensures ok <==> Lookup(old(db.rows), zid, [KEY, cert.keyId], CERT).None?
      ensures db.rows == if ok then old(db.rows) + {CertRow(zid, db.zones[zid].name, cert, ttl)} else old(db.rows)
    {
      var row := CertRow(zid, db.zones[zid].name, cert, ttl);
      var present := db.FindRow(zid, row.rrLabel, CERT);
      ok := present.None?;
      if ok {
        var _ := db.InsertRow(row);
      }
    }

    method CreateZone(z: NewZone, now: Component) returns (id: nat, out: Outcome)
      requires UniqueSlots(db.rows) && UniqueNames(db.zones)
      modifies db
      ensures CreateCheck(old(db.State()), z) == Done ==> id > 0 && id !in old(db.zones)
      ensures (db.State(), out) == AfterCreateZone(old(db.State()), z, id, now)
    {
      hide Rebuilt;
      id := 0;
      var present := db.FindZone(z.name);
      if present.Some? {
        return id, Rejected(ZoneExists);
      }
      if z.name != [] && (z.parent == z.name || !(z.parent <= z.name)) {
        return id, Rejected(BadParent);
      }
      if !z.certsMatch {
        return id, Rejected(CertMismatch);
      }
      if z.name == [] && !z.dkeyGiven {
        return id, Rejected(NoRootDkey);
      }
      var newId := db.InsertZone(Zone(z.name, z.ttl));
      id := newId.value;
      var ok := AddIdCert(id, z.ksk, z.ttl);
      if !ok {
        return id, Rejected(DuplicateCert);
      }
      ok := AddIdCert(id, z.dsk, z.ttl);
      if !ok {
        return id, Rejected(DuplicateCert);
      }
      ghost var ksk, dsk := CertRow(id, z.name, z.ksk, z.ttl), CertRow(id, z.name, z.dsk, z.ttl);
      assert db.rows == old(db.rows) + {ksk, dsk};
      assert SlotOf(ksk) in NonDoeSlots(db.rows, id);
      out := GenerateDoe(id, now);
    }

    method DeleteZone(name: Name) returns (out: Outcome)
      requires UniqueNames(db.zones)
      modifies db
      ensures (db.State(), out) == AfterDeleteZone(old(db.State()), name)
    {
      var id := db.FindZone(name);
      if id.None? {
        return Rejected(NoSuchZone);
      }
      var rrsets := db.FindRrsets(id.value);
      ghost var before := db.rows;
      for i := 0 to |rrsets|
        invariant db.zones == old(db.zones)
        invariant db.rows == before - (set r | r in rrsets[..i])
      {
        db.RemoveRow(rrsets[i]);
        assert rrsets[..i + 1] == rrsets[..i] + [rrsets[i]];
      }
      assert rrsets[..|rrsets|] == rrsets;
      assert (set r | r in rrsets) == ZoneRows(before, id.value);
      db.RemoveZone(id.value);
      out := Done;
    }
  }

  lemma SortedListIsSortSlots(rows: set<Row>, zid: nat, sorted: seq<Row>)
    requires Chain.SortedSlots(SlotsOf(sorted))
    requires forall r :: r in sorted <==> r in ZoneRows(WithoutType(rows, zid, DOE), zid)
    ensures SlotsOf(sorted) == SortSlots(NonDoeSlots(rows, zid))
  {
    var s := SlotsOf(sorted);
    forall x
      ensures x in s <==> x in NonDoeSlots(rows, zid)
    {
      if x in s {
        var i :| 0 <= i < |s| && s[i] == x;
        assert sorted[i] in sorted;
      }
      if x in NonDoeSlots(rows, zid) {
        var r :| r in rows && r.zoneId == zid && r.typ != DOE && SlotOf(r) == x;
        assert r in sorted;
        var i :| 0 <= i < |sorted| && sorted[i] == r;
        assert s[i] == x;
      }
    }
    SortedUnique(s, SortSlots(NonDoeSlots(rows, zid)));
  }
}
