/** What each operation achieves: when it succeeds, and exactly which records the
    database holds afterwards. */
module Effects {
  import opened Tlv
  import opened Names
  import opened Records
  import opened Database
  import opened ZoneChain
  import opened Management
  import opened Server
  import opened Runs

  predicate SamePlace(r: Row, s: Row)
  {
    r.zoneId == s.zoneId && SlotOf(r) == SlotOf(s)
  }

  /** The records (DoE rows aside) are those before, with `row` in its place and `extra` added. */
  ghost predicate Holds(before: set<Row>, after: set<Row>, row: Row, extra: set<Row>)
  {
    forall r: Row :: r.typ != DOE ==>
      (r in after <==> r == row || r in extra || (r in before && !SamePlace(r, row)))
  }

  /** The version of the row is stored already. */
  ghost predicate SameStored(rows: set<Row>, row: Row)
  {
    exists r :: r in rows && SamePlace(r, row) && r.version == row.version
  }

  /** A newer version of the row is stored. */
  ghost predicate NewerStored(rows: set<Row>, row: Row)
  {
    exists r :: r in rows && SamePlace(r, row) && ComponentLess(row.version, r.version)
  }

  lemma VersionCheckExact(rows: set<Row>, row: Row)
    ensures VersionCheck(rows, row) in {Done, Rejected(DuplicateVersion), Rejected(NewerExists)}
    ensures VersionCheck(rows, row) == Done <==> Newer(rows, row)
    ensures UniqueSlots(rows) ==>
              && (VersionCheck(rows, row) == Rejected(DuplicateVersion) <==> SameStored(rows, row))
              && (VersionCheck(rows, row) == Rejected(NewerExists) <==> NewerStored(rows, row))
  {
    var stored := Lookup(rows, row.zoneId, row.rrLabel, row.typ);
    if stored.Some? {
      assert SamePlace(stored.value, row);
      ComponentLessTotal(stored.value.version, row.version);
      ComponentIrreflexive(row.version);
      SingletonLess(stored.value.version, row.version);
      SingletonLess(row.version, stored.value.version);
      if ComponentLess(stored.value.version, row.version) {
        NameLessAsymmetric([stored.value.version], [row.version]);
      }
    }
  }

  lemma ReplaceHolds(rows: set<Row>, row: Row)
    requires UniqueSlots(rows)
    ensures Holds(rows, Replace(rows, row), row, {})
  {
  }

  lemma RebuiltHolds(before: set<Row>, mid: set<Row>, row: Row, extra: set<Row>, zone: Name, now: Component)
    requires Holds(before, mid, row, extra) && NonDoeSlots(mid, row.zoneId) != {}
    ensures Holds(before, Rebuilt(mid, row.zoneId, zone, now), row, extra)
  {
  }

  /** Version check, insert and rebuild: accepted exactly if no equal or newer version is
      stored; the row is then in its place and no other record changed. */
  lemma StoreEffect(db: Db, row: Row, now: Component)
    requires UniqueSlots(db.rows) && row.zoneId in db.zones && NonDoeSlots(Replace(db.rows, row), row.zoneId) != {}
    ensures var (after, out) := AfterStore(db, row, now);
            && out in {Done, Rejected(DuplicateVersion), Rejected(NewerExists)}
            && (out == Done <==> Newer(db.rows, row))
            && (out == Rejected(DuplicateVersion) <==> SameStored(db.rows, row))
            && (out == Rejected(NewerExists) <==> NewerStored(db.rows, row))
            && (out != Done ==> after == db)
            && (out == Done ==> after.zones == db.zones && Holds(db.rows, after.rows, row, {}))
  {
    hide Holds, Newer, SameStored, NewerStored, Replace, NonDoeSlots, Rebuilt;
    VersionCheckExact(db.rows, row);
    ReplaceHolds(db.rows, row);
    RebuiltHolds(db.rows, Replace(db.rows, row), row, {}, db.zones[row.zoneId].name, now);
  }

  /** addRrset succeeds exactly if its label is not marked AUTH and no equal or newer
      version is stored; the record is then in its place and nothing else changed. Each
      refusal has its own reason and changes nothing. */
  lemma AddEffect(db: Db, row: Row, now: Component)
    requires Integrity(db) && Defined(db, Add(row, now))
    ensures var (after, out) := AfterAddRrset(db, row, now);
            var marked := NsAt(db.rows, row.zoneId, row.rrLabel, Auth);
            && (out == Done <==> !marked && Newer(db.rows, row))
            && (out == Rejected(OverridesAuth) <==> marked)
            && (out == Rejected(DuplicateVersion) <==> !marked && SameStored(db.rows, row))
            && (out == Rejected(NewerExists) <==> !marked && NewerStored(db.rows, row))
            && (out != Done ==> after == db)
            && (out == Done ==> after.zones == db.zones && Holds(db.rows, after.rows, row, {}))
  {
    hide Holds, Newer, SameStored, NewerStored, AfterStore, NsAt;
    StoreEffect(db, row, now);
  }

  /** The AUTH records for those proper prefixes, up to length k, that have no NS row. */
  ghost function MissingAuth(rows: set<Row>, zid: nat, zone: Name, rrLabel: Name, k: nat, ttl: nat, now: Component): set<Row>
    requires k <= |rrLabel|
  {
    set j: nat | 0 < j <= k && Lookup(rows, zid, rrLabel[..j], NS).None? ::
      Row(zid, rrLabel[..j], NS, now, ttl, Data(RecordName(zone, rrLabel[..j], NS, now), Auth, Nothing))
  }

  lemma {:induction false} WithAuthExact(rows: set<Row>, zid: nat, zone: Name, rrLabel: Name, k: nat, ttl: nat, now: Component)
    requires k <= |rrLabel|
    ensures WithAuth(rows, zid, zone, rrLabel, k, ttl, now) ==
            rows + MissingAuth(rows, zid, zone, rrLabel, k, ttl, now)
  {
    if k == 0 {
      assert MissingAuth(rows, zid, zone, rrLabel, 0, ttl, now) == {};
    } else {
      WithAuthExact(rows, zid, zone, rrLabel, k - 1, ttl, now);
      var before := WithAuth(rows, zid, zone, rrLabel, k - 1, ttl, now);
      assert forall j :: 0 < j < k ==> |rrLabel[..j]| < |rrLabel[..k]|;
      assert Lookup(before, zid, rrLabel[..k], NS).Some? <==> Lookup(rows, zid, rrLabel[..k], NS).Some?;
    }
  }

  lemma ReplaceHoldsWithExtra(rows: set<Row>, extra: set<Row>, row: Row)
    requires UniqueSlots(rows + extra)
    requires forall r :: r in extra ==> !SamePlace(r, row)
    ensures Holds(rows, Replace(rows + extra, row), row, extra)
    ensures Newer(rows + extra, row) <==> Newer(rows, row)
    ensures SameStored(rows + extra, row) <==> SameStored(rows, row)
    ensures NewerStored(rows + extra, row) <==> NewerStored(rows, row)
  {
  }

  /** addMultiLevelLabelRrset succeeds exactly if the label is not below a delegation,
      an NS record does not replace an AUTH row, and no equal or newer version is
      stored; it then also adds the missing AUTH rows above the record, and no more. A
      refusal by version adds those rows too. */
  lemma AddMultiEffect(db: Db, row: Row, ttl: nat, now: Component)
    requires Integrity(db) && Defined(db, AddMulti(row, ttl, now))
    ensures var (after, out) := AfterAddMultiLevel(db, row, ttl, now);
            var zone := db.zones[row.zoneId];
            var extra := MissingAuth(db.rows, row.zoneId, zone.name, row.rrLabel, |row.rrLabel| - 1,
                                     if ttl == 0 then zone.ttl else ttl, now);
            var below := LinkAbove(db.rows, row.zoneId, row.rrLabel);
            var marked := row.typ == NS && NsAt(db.rows, row.zoneId, row.rrLabel, Auth);
            && (out == Done <==> !below && !marked && Newer(db.rows, row))
            && (out == Rejected(OverridesLink) <==> below)
            && (out == Rejected(OverridesAuth) <==> !below && marked)
            && (out == Rejected(DuplicateVersion) <==> !below && !marked && SameStored(db.rows, row))
            && (out == Rejected(NewerExists) <==> !below && !marked && NewerStored(db.rows, row))
            && after.zones == db.zones
            && (below || marked ==> after == db)
            && (!below && !marked && out != Done ==> after.rows == db.rows + extra)
            && (out == Done ==> Holds(db.rows, after.rows, row, extra))
  {
    hide Holds, Newer, NonDoeSlots, Rebuilt, Replace, WithAuth, LinkAbove, NsAt, VersionCheck, SameStored, NewerStored;
    var zid, zone, n := row.zoneId, db.zones[row.zoneId].name, |row.rrLabel| - 1;
    var t := EffectiveTtl(db.zones[zid], ttl);
    var extra := MissingAuth(db.rows, zid, zone, row.rrLabel, n, t, now);
    WithAuthExact(db.rows, zid, zone, row.rrLabel, n, t, now);
    WithAuthUnique(db.rows, zid, zone, row.rrLabel, n, t, now);
    ReplaceHoldsWithExtra(db.rows, extra, row);
    VersionCheckExact(db.rows + extra, row);
    RebuiltHolds(db.rows, Replace(db.rows + extra, row), row, extra, zone, now);
  }

  /** The row that a loaded packet should become: its label, type and version are those of
      the packet's name, or empty if the name is too short to hold a type and a version. */
  predicate RowOfPacket(row: Row, zid: nat, zone: Zone, data: Data, ttl: nat)
  {
    && row.zoneId == zid && row.data == data && row.ttl == (if ttl == 0 then zone.ttl else ttl)
    && if |data.name| < |zone.name| + 3 then
         row.rrLabel == [] && row.typ == NO_COMPONENT && row.version == NO_COMPONENT
       else data.name == RecordName(zone.name, row.rrLabel, row.typ, row.version)
  }

  /** addRrsetFromFile: an unknown zone, an unfit certificate, a missing file and an
      unreadable packet are refused in that order, and change nothing. */
  lemma FileRefusals(db: Db, zone: Name, certOk: bool, file: File, ttl: nat, now: Component)
    requires UniqueSlots(db.rows) && UniqueNames(db.zones) && FileDefined(db, zone, file, ttl)
    ensures var (after, out) := AfterAddFile(db, zone, certOk, file, ttl, now);
            var known := exists i :: i in db.zones && db.zones[i].name == zone;
            && (out == Rejected(NoSuchZone) <==> !known)
            && (out == Rejected(CertMismatch) <==> known && !certOk)
            && (out == Rejected(NoSuchFile) <==> known && certOk && file.Missing?)
            && (out == Rejected(NotAPacket) <==> known && certOk && file.Unreadable?)
            && (out != Done ==> after == db)
  {
    hide Rebuilt, NonDoeSlots, Replace;
  }

  /** A packet that was read is stored exactly if no equal or newer version is; the row
      made of it is then in its place and no other record changed. */
  lemma FileEffect(db: Db, zid: nat, certOk: bool, data: Data, ttl: nat, now: Component, row: Row)
    requires UniqueSlots(db.rows) && UniqueNames(db.zones) && zid in db.zones
    requires FileDefined(db, db.zones[zid].name, Packet(data), ttl) && RowOfPacket(row, zid, db.zones[zid], data, ttl)
    ensures var (after, out) := AfterAddFile(db, db.zones[zid].name, certOk, Packet(data), ttl, now);
            && (out == Done <==> certOk && Newer(db.rows, row))
            && (out == Rejected(DuplicateVersion) <==> certOk && SameStored(db.rows, row))
            && (out == Rejected(NewerExists) <==> certOk && NewerStored(db.rows, row))
            && (out == Done ==> after.zones == db.zones && Holds(db.rows, after.rows, row, {}))
  {
    hide Holds, Newer, SameStored, NewerStored, AfterStore, NonDoeSlots, Replace;
    var zone := db.zones[zid];
    assert ZoneIdOf(db.zones, zone.name) == Some(zid);
    MatchExact(data.name, zone.name, row.rrLabel, row.typ, row.version);
    assert RowFromData(zid, zone, ttl, data) == row;
    StoreEffect(db, row, now);
  }

  /** doUpdate accepts a packet exactly if it is new or newer than the stored one, and
      the server then answers the packet's own name, less the version, with it. */
  lemma UpdateEffect(db: Db, zid: nat, data: Data, now: Component)
    requires Integrity(db) && Defined(db, Update(zid, data))
    requires MatchData(data.name, db.zones[zid].name).Some?
    ensures var (rrLabel, typ, version) := MatchData(data.name, db.zones[zid].name).value;
            var (after, code) := AfterUpdate(db, zid, data);
            && (code == Updated <==> Newer(db.rows, Row(zid, rrLabel, typ, version, 0, data)))
            && (code == Updated ==>
                  && HandleQuery(after.rows, zid, QueryName(Question(db.zones[zid].name, rrLabel, typ)),
                                 Match(rrLabel, typ, None), now) == Answer(data)
                  && forall r: Row :: !At(r, zid, rrLabel, typ) ==> (r in after.rows <==> r in db.rows))
            && (code != Updated ==> after == db)
  {
    var (rrLabel, typ, version) := MatchData(data.name, db.zones[zid].name).value;
    var (after, code) := AfterUpdate(db, zid, data);
    UpdateIsReplace(db, zid, data);
    if code == Updated {
      var row := UpdatedRow(db, zid, data);
      ReplaceUnique(db.rows, row);
      LookupUnique(after.rows, row);
    }
  }

  /** removeRrSet removes the record, if there is one, and no other; without one it
      changes nothing. */
  lemma RemoveEffect(db: Db, zone: Name, rrLabel: Name, typ: Component, now: Component)
    requires Integrity(db) && RemoveDefined(db, zone, rrLabel, typ)
    ensures var after := AfterRemoveRrSet(db, zone, rrLabel, typ, now);
            var found := exists r :: r in db.rows && db.zones[r.zoneId].name == zone && r.rrLabel == rrLabel && r.typ == typ;
            && after.zones == db.zones
            && (!found ==> after == db)
            && forall r: Row :: r.typ != DOE ==>
                 (r in after.rows <==>
                    r in db.rows && !(db.zones[r.zoneId].name == zone && r.rrLabel == rrLabel && r.typ == typ))
  {
    var id := ZoneIdOf(db.zones, zone);
    assert forall r :: r in db.rows ==> FactoryRow(db, r);
  }

  /** A key certificate of the zone, at /KEY and the key's id. */
  predicate IsIdCert(r: Row, id: nat, zone: Name, cert: Cert, ttl: nat)
  {
    && At(r, id, [KEY, cert.keyId], CERT) && r.version == cert.version && r.ttl == ttl
    && r.data == Data(zone + [NDNS_QUERY, KEY, cert.keyId, CERT, cert.version], ContentType.Key, Payload(cert.bytes))
  }

  /** createZone succeeds exactly if the name is free, the parent is a proper prefix
      (or the root has a D-Key), the given certificates match, and the two keys differ.
      It then adds the zone and its two certificates. Refusals come in this order and
      change nothing, except that equal keys leave the zone with the first certificate. */
  lemma CreateEffect(db: Db, z: NewZone, id: nat, now: Component)
    requires Integrity(db) && id !in db.zones
    ensures var (after, out) := AfterCreateZone(db, z, id, now);
            var free := forall i :: i in db.zones ==> db.zones[i].name != z.name;
            var placed := z.name == [] || z.parent < z.name;
            var keyed := z.name == [] ==> z.dkeyGiven;
            && (out == Rejected(ZoneExists) <==> !free)
            && (out == Rejected(BadParent) <==> free && !placed)
            && (out == Rejected(CertMismatch) <==> free && placed && !z.certsMatch)
            && (out == Rejected(NoRootDkey) <==> free && placed && z.certsMatch && !keyed)
            && (out == Rejected(DuplicateCert) <==> free && placed && z.certsMatch && keyed && z.ksk.keyId == z.dsk.keyId)
            && (out == Done <==> free && placed && z.certsMatch && keyed && z.ksk.keyId != z.dsk.keyId)
            && (out !in {Done, Rejected(DuplicateCert)} ==> after == db)
            && (out in {Done, Rejected(DuplicateCert)} ==> after.zones == db.zones[id := Zone(z.name, z.ttl)])
            && (out == Rejected(DuplicateCert) ==>
                  forall r: Row :: r in after.rows <==> r in db.rows || IsIdCert(r, id, z.name, z.ksk, z.ttl))
            && (out == Done ==>
                  forall r: Row :: r.typ != DOE ==>
                    (r in after.rows <==>
                       || r in db.rows
                       || IsIdCert(r, id, z.name, z.ksk, z.ttl)
                       || IsIdCert(r, id, z.name, z.dsk, z.ttl)))
  {
    hide Integrity;
    assert forall r :: r in db.rows ==> r.zoneId != id by { RowsOfLiveZones(db, id); }
    var ksk, dsk := CertRow(id, z.name, z.ksk, z.ttl), CertRow(id, z.name, z.dsk, z.ttl);
    assert ksk.rrLabel[1] == z.ksk.keyId && dsk.rrLabel[1] == z.dsk.keyId;
    CertRowIsIdCert(id, z.name, z.ksk, z.ttl);
    CertRowIsIdCert(id, z.name, z.dsk, z.ttl);
  }

  lemma RowsOfLiveZones(db: Db, id: nat)
    requires Integrity(db) && id !in db.zones
    ensures forall r :: r in db.rows ==> r.zoneId != id
  {
    assert forall r :: r in db.rows ==> FactoryRow(db, r);
  }

  lemma CertRowIsIdCert(id: nat, zone: Name, cert: Cert, ttl: nat)
    ensures forall r: Row :: IsIdCert(r, id, zone, cert, ttl) <==> r == CertRow(id, zone, cert, ttl)
  {
    assert RecordName(zone, [KEY, cert.keyId], CERT, cert.version) ==
           zone + [NDNS_QUERY, KEY, cert.keyId, CERT, cert.version];
  }

  /** deleteZone succeeds exactly if the zone is there, and leaves neither it nor any of its rows. */
  lemma DeleteEffect(db: Db, zone: Name)
    requires Integrity(db)
    ensures var (after, out) := AfterDeleteZone(db, zone);
            var known := exists i :: i in db.zones && db.zones[i].name == zone;
            && (out == Done <==> known)
            && (out == Rejected(NoSuchZone) <==> !known)
            && (out != Done ==> after == db)
            && (out == Done ==>
                  && (forall i :: i in after.zones <==> i in db.zones && db.zones[i].name != zone)
                  && (forall i :: i in after.zones ==> after.zones[i] == db.zones[i])
                  && forall r: Row :: r in after.rows <==> r in db.rows && r.zoneId in after.zones)
  {
    assert forall r :: r in db.rows ==> FactoryRow(db, r);
  }

  // ---------- when the chain is rebuilt ----------

  /** The operation goes through and ends in a rebuild of its zone's chain. */
  ghost predicate Rebuilds(db: Db, op: Op)
    requires Defined(db, op)
  {
    match op
    case Create(z, _, _) =>
      && (forall i :: i in db.zones ==> db.zones[i].name != z.name)
      && (if z.name == [] then z.dkeyGiven else z.parent < z.name)
      && z.certsMatch && z.ksk.keyId != z.dsk.keyId
    case Add(row, _) => !NsAt(db.rows, row.zoneId, row.rrLabel, Auth) && Newer(db.rows, row)
    case AddMulti(row, _, _) =>
      && !LinkAbove(db.rows, row.zoneId, row.rrLabel)
      && !(row.typ == NS && NsAt(db.rows, row.zoneId, row.rrLabel, Auth))
      && Newer(db.rows, row)
    case AddFile(zone, certOk, file, ttl, _) =>
      && certOk && file.Packet?
      && exists zid, row :: zid in db.zones && db.zones[zid].name == zone &&
           RowOfPacket(row, zid, db.zones[zid], file.data, ttl) && Newer(db.rows, row)
    case Remove(zone, rrLabel, typ, _) =>
      exists zid :: zid in db.zones && db.zones[zid].name == zone && Lookup(db.rows, zid, rrLabel, typ).Some?
    case Delete(_) => false
    case Update(_, _) => false
  }

  /** After every create, add, multi-level add, file load and removal that goes through,
      the zone's DoE rows are a chain over every record set that it then holds, in the
      version of the operation's time. */
  lemma RebuildsChain(db: Db, op: Op)
    requires Integrity(db) && Defined(db, op) && Rebuilds(db, op)
    ensures Target(db, op).Some?
    ensures var zid, after := Target(db, op).value, Apply(db, op);
            zid in after.zones && Covered(after.rows, zid, after.zones[zid].name, op.now)
  {
    hide Rebuilt, Covered, NonDoeSlots, Replace, WithAuth, LinkAbove, NsAt, Newer;
    match op
    case Create(z, id, now) =>
      CreateEffect(db, z, id, now);
      var rows := db.rows + {CertRow(id, z.name, z.ksk, z.ttl), CertRow(id, z.name, z.dsk, z.ttl)};
      CertsStored(rows, id, z);
      RebuiltCovered(rows, id, z.name, now);
    case Add(row, now) => StoreCovers(db, row, now);
    case AddMulti(row, ttl, now) =>
      AddMultiEffect(db, row, ttl, now);
      var mid := db.(rows := PrefixesAdded(db, row, ttl, now));
      VersionCheckExact(mid.rows, row);
      StoreCovers(mid, row, now);
    case AddFile(zone, certOk, file, ttl, now) =>
      var zid, row :| zid in db.zones && db.zones[zid].name == zone &&
        RowOfPacket(row, zid, db.zones[zid], file.data, ttl) && Newer(db.rows, row);
      assert ZoneIdOf(db.zones, zone) == Some(zid);
      MatchExact(file.data.name, zone, row.rrLabel, row.typ, row.version);
      assert RowFromData(zid, db.zones[zid], ttl, file.data) == row;
      StoreCovers(db, row, now);
    case Remove(zone, rrLabel, typ, now) =>
      var zid := ZoneIdOf(db.zones, zone).value;
      RebuiltCovered(db.rows - {Lookup(db.rows, zid, rrLabel, typ).value}, zid, zone, now);
  }

  lemma StoreCovers(db: Db, row: Row, now: Component)
    requires row.zoneId in db.zones && NonDoeSlots(Replace(db.rows, row), row.zoneId) != {} && Newer(db.rows, row)
    ensures AfterStore(db, row, now).0.zones == db.zones
    ensures Covered(AfterStore(db, row, now).0.rows, row.zoneId, db.zones[row.zoneId].name, now)
  {
    hide Rebuilt, Covered, NonDoeSlots, Replace;
    VersionCheckExact(db.rows, row);
    RebuiltCovered(Replace(db.rows, row), row.zoneId, db.zones[row.zoneId].name, now);
  }

  lemma CertsStored(rows: set<Row>, id: nat, z: NewZone)
    requires CertRow(id, z.name, z.ksk, z.ttl) in rows
    ensures NonDoeSlots(rows, id) != {}
  {
    assert CERT.value[0] != DOE.value[0];
    assert SlotOf(CertRow(id, z.name, z.ksk, z.ttl)) in NonDoeSlots(rows, id);
  }

  /** Every other management operation leaves the DoE rows of the zones that remain as they are. */
  lemma OthersKeepDoe(db: Db, op: Op, r: Row)
    requires Integrity(db) && Defined(db, op) && !Rebuilds(db, op) && !op.Update?
    requires r.typ == DOE && r.zoneId in Apply(db, op).zones
    ensures r in Apply(db, op).rows <==> r in db.rows
  {
    hide Rebuilt, NonDoeSlots, Replace, WithAuth, LinkAbove, NsAt, Newer, Holds;
    match op
    case Create(z, id, now) =>
      CreateEffect(db, z, id, now);
      assert CERT.value[0] != DOE.value[0];
    case Delete(zone) => DeleteEffect(db, zone);
    case Add(row, now) => AddEffect(db, row, now);
    case AddMulti(row, ttl, now) =>
      AddMultiEffect(db, row, ttl, now);
      assert NS.value[0] != DOE.value[0];
    case AddFile(zone, certOk, file, ttl, now) => RefusedFile(db, zone, certOk, file, ttl, now);
    case Remove(zone, rrLabel, typ, now) =>
      assert ZoneIdOf(db.zones, zone).None? || Lookup(db.rows, ZoneIdOf(db.zones, zone).value, rrLabel, typ).None?;
  }

  lemma RefusedFile(db: Db, zone: Name, certOk: bool, file: File, ttl: nat, now: Component)
    requires Integrity(db) && Defined(db, AddFile(zone, certOk, file, ttl, now))
    requires !Rebuilds(db, AddFile(zone, certOk, file, ttl, now))
    ensures AfterAddFile(db, zone, certOk, file, ttl, now).0 == db
  {
    hide AfterStore, NonDoeSlots, Replace, Newer;
    var id := ZoneIdOf(db.zones, zone);
    if id.Some? && certOk && file.Packet? {
      var row := RowFromData(id.value, db.zones[id.value], ttl, file.data);
      MatchExact(file.data.name, zone, row.rrLabel, row.typ, row.version);
      assert RowOfPacket(row, id.value, db.zones[id.value], file.data, ttl);
      StoreEffect(db, row, now);
    }
  }
}
