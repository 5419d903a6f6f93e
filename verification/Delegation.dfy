/** The delegation invariants: what they say, exactly which operations keep them,
    and the discipline of the tools, which does. */
module Delegation {
  import opened Tlv
  import opened Names
  import opened Records
  import opened Database
  import opened ZoneChain
  import opened Management
  import opened Runs
  import Chain
  import Server
  import Effects

  // ---------- the invariants ----------

  /** What operators hold on to: whether TXT records, like NS records, have every
      prefix of their label marked, and whether zone certificates stay. */
  datatype Policy = Policy(marksTxt: bool, keepsCerts: bool)

  predicate Managed(p: Policy, t: Component)
  {
    t == NS || (p.marksTxt && t == TXT)
  }

  predicate IsLink(d: Data)
  {
    d.contentType == Link && d.content.Delegations?
  }

  /** Every proper prefix of the label has an AUTH row. */
  ghost predicate Marked(rows: set<Row>, zid: nat, rrLabel: Name)
  {
    forall k :: 0 < k < |rrLabel| ==> NsAt(rows, zid, rrLabel[..k], Auth)
  }

  /** NS rows delegate or mark an intermediate label, and above every managed
      record each proper prefix has an NS row, which is never a delegation. */
  ghost predicate Delegated(p: Policy, rows: set<Row>)
  {
    && NsWellFormed(rows)
    && (forall r :: r in rows && Managed(p, r.typ) ==> Marked(rows, r.zoneId, r.rrLabel))
  }

  ghost predicate NsWellFormed(rows: set<Row>)
  {
    forall r :: r in rows && r.typ == NS ==> r.data.contentType == Auth || IsLink(r.data)
  }

  /** Every proper prefix of the label has an NS row. */
  ghost predicate PrefixesPresent(rows: set<Row>, zid: nat, rrLabel: Name)
  {
    forall k :: 0 < k < |rrLabel| ==> Lookup(rows, zid, rrLabel[..k], NS).Some?
  }

  /** First half: the rows above a managed record exist. */
  ghost predicate PrefixesExist(p: Policy, rows: set<Row>)
  {
    forall r :: r in rows && Managed(p, r.typ) ==> PrefixesPresent(rows, r.zoneId, r.rrLabel)
  }

  /** Second half: none of them is a delegation. */
  ghost predicate NoLinkAbove(p: Policy, rows: set<Row>)
  {
    forall r :: r in rows && Managed(p, r.typ) ==> !LinkAbove(rows, r.zoneId, r.rrLabel)
  }

  lemma DelegatedHalves(p: Policy, rows: set<Row>)
    requires UniqueSlots(rows)
    ensures Delegated(p, rows) <==> NsWellFormed(rows) && PrefixesExist(p, rows) && NoLinkAbove(p, rows)
  {
    if Delegated(p, rows) {
      forall r, k | r in rows && Managed(p, r.typ) && 0 < k < |r.rrLabel|
        ensures Lookup(rows, r.zoneId, r.rrLabel[..k], NS).Some? && !NsAt(rows, r.zoneId, r.rrLabel[..k], Link)
      {
        assert NsAt(rows, r.zoneId, r.rrLabel[..k], Auth);
      }
    }
  }

  /** Some managed record lies strictly below the label. */
  ghost predicate Relied(p: Policy, rows: set<Row>, zid: nat, rrLabel: Name)
  {
    rrLabel != [] && exists r :: r in rows && r.zoneId == zid && Managed(p, r.typ) && rrLabel < r.rrLabel
  }

  lemma ReliedIsAuth(p: Policy, rows: set<Row>, zid: nat, rrLabel: Name)
    requires Delegated(p, rows) && Relied(p, rows, zid, rrLabel)
    ensures NsAt(rows, zid, rrLabel, Auth)
  {
    var r :| r in rows && r.zoneId == zid && Managed(p, r.typ) && rrLabel < r.rrLabel;
    assert r.rrLabel[..|rrLabel|] == rrLabel;
  }

  // ---------- exactly what keeps them ----------

  /** The row may take its place: a managed record below AUTH rows only, and a
      delegation above no managed record. */
  ghost predicate Fits(p: Policy, rows: set<Row>, row: Row)
  {
    && (row.typ == NS ==>
          row.data.contentType == Auth || (IsLink(row.data) && !Relied(p, rows, row.zoneId, row.rrLabel)))
    && (Managed(p, row.typ) ==> Marked(rows, row.zoneId, row.rrLabel))
  }

  lemma RebuiltDelegated(p: Policy, rows: set<Row>, zid: nat, zone: Name, now: Component)
    requires NonDoeSlots(rows, zid) != {}
    ensures Delegated(p, Rebuilt(rows, zid, zone, now)) <==> Delegated(p, rows)
  {
    var after := Rebuilt(rows, zid, zone, now);
    assert !Managed(p, DOE) by {
      assert NS.value[0] != DOE.value[0] && TXT.value[0] != DOE.value[0];
    }
    assert forall r: Row :: r.typ != DOE ==> (r in after <==> r in rows);
    forall i: nat, l: Name
      ensures NsAt(after, i, l, Auth) <==> NsAt(rows, i, l, Auth)
    {
    }
  }

  lemma ReplaceDelegated(p: Policy, rows: set<Row>, row: Row)
    requires UniqueSlots(rows) && Delegated(p, rows)
    ensures Delegated(p, Replace(rows, row)) <==> Fits(p, rows, row)
  {
    var after := Replace(rows, row);
    if Fits(p, rows, row) {
      FittingRow(p, rows, row);
    } else if Delegated(p, after) {
      ReplaceUnique(rows, row);
      if Relied(p, rows, row.zoneId, row.rrLabel) {
        var r :| r in rows && r.zoneId == row.zoneId && Managed(p, r.typ) && row.rrLabel < r.rrLabel;
        assert r in after;
        ReliedIsAuth(p, after, row.zoneId, row.rrLabel);
      }
      assert forall k :: 0 < k < |row.rrLabel| && NsAt(after, row.zoneId, row.rrLabel[..k], Auth) ==>
        NsAt(rows, row.zoneId, row.rrLabel[..k], Auth);
    }
  }

  lemma FittingRow(p: Policy, rows: set<Row>, row: Row)
    requires UniqueSlots(rows) && Delegated(p, rows) && Fits(p, rows, row)
    ensures Delegated(p, Replace(rows, row))
  {
    var after := Replace(rows, row);
    forall r, k | r in after && Managed(p, r.typ) && 0 < k < |r.rrLabel|
      ensures NsAt(after, r.zoneId, r.rrLabel[..k], Auth)
    {
      assert NsAt(rows, r.zoneId, r.rrLabel[..k], Auth);
      var x :| x in rows && At(x, r.zoneId, r.rrLabel[..k], NS) && x.data.contentType == Auth;
      assert r.rrLabel[..k] < r.rrLabel;
      assert x in after || (At(row, r.zoneId, r.rrLabel[..k], NS) && row.data.contentType == Auth);
    }
  }

  lemma StoreDelegated(p: Policy, db: Db, row: Row, now: Component)
    requires UniqueSlots(db.rows) && Delegated(p, db.rows)
    requires row.zoneId in db.zones && NonDoeSlots(Replace(db.rows, row), row.zoneId) != {}
    ensures Delegated(p, AfterStore(db, row, now).0.rows) <==> (Newer(db.rows, row) ==> Fits(p, db.rows, row))
  {
    hide Delegated, Fits, Rebuilt, Replace, NonDoeSlots;
    Effects.VersionCheckExact(db.rows, row);
    ReplaceDelegated(p, db.rows, row);
    RebuiltDelegated(p, Replace(db.rows, row), row.zoneId, db.zones[row.zoneId].name, now);
  }

  lemma MarkOnePrefix(p: Policy, rows: set<Row>, zid: nat, zone: Name, rrLabel: Name, k: nat, ttl: nat, now: Component)
    requires UniqueSlots(rows) && Delegated(p, rows) && 0 < k < |rrLabel|
    requires Lookup(rows, zid, rrLabel[..k], NS).None?
    requires forall j :: 0 < j < k ==> NsAt(rows, zid, rrLabel[..j], Auth)
    ensures var after := rows + {AuthRow(zid, zone, rrLabel[..k], ttl, now)};
            Delegated(p, after) && forall j :: 0 < j <= k ==> NsAt(after, zid, rrLabel[..j], Auth)
  {
    var row := AuthRow(zid, zone, rrLabel[..k], ttl, now);
    assert forall j :: 0 < j < k ==> row.rrLabel[..j] == rrLabel[..j];
    ReplaceDelegated(p, rows, row);
    assert At(row, zid, rrLabel[..k], NS);
    forall j | 0 < j < k
      ensures NsAt(rows + {row}, zid, rrLabel[..j], Auth)
    {
      assert NsAt(rows, zid, rrLabel[..j], Auth);
    }
  }

  /** The AUTH loop of addMultiLevelLabelRrset marks every proper prefix. */
  lemma {:induction false} WithAuthDelegated(p: Policy, rows: set<Row>, zid: nat, zone: Name, rrLabel: Name, k: nat, ttl: nat, now: Component)
    requires UniqueSlots(rows) && Delegated(p, rows) && k < |rrLabel|
    requires !LinkAbove(rows, zid, rrLabel)
    ensures var after := WithAuth(rows, zid, zone, rrLabel, k, ttl, now);
            && Delegated(p, after)
            && (forall j :: 0 < j <= k ==> NsAt(after, zid, rrLabel[..j], Auth))
            && (forall r :: r in after && r !in rows ==>
                  r.typ == NS && r.data.contentType == Auth && |r.rrLabel| < |rrLabel|)
  {
    if k > 0 {
      WithAuthDelegated(p, rows, zid, zone, rrLabel, k - 1, ttl, now);
      WithAuthUnique(rows, zid, zone, rrLabel, k - 1, ttl, now);
      var before := WithAuth(rows, zid, zone, rrLabel, k - 1, ttl, now);
      var stored := Lookup(before, zid, rrLabel[..k], NS);
      if stored.Some? {
        assert stored.value in rows ==> !NsAt(rows, zid, rrLabel[..k], Link);
        assert stored.value.data.contentType == Auth;
      } else {
        MarkOnePrefix(p, before, zid, zone, rrLabel, k, ttl, now);
      }
    }
  }

  /** After the AUTH loop the row has its prefixes marked, and what lay below it before lies below it now. */
  lemma MidDelegated(p: Policy, db: Db, row: Row, ttl: nat, now: Component)
    requires UniqueSlots(db.rows) && Delegated(p, db.rows) && row.zoneId in db.zones && row.rrLabel != []
    requires !LinkAbove(db.rows, row.zoneId, row.rrLabel)
    ensures var mid := PrefixesAdded(db, row, ttl, now);
            && UniqueSlots(mid) && Delegated(p, mid) && Marked(mid, row.zoneId, row.rrLabel)
            && (Relied(p, mid, row.zoneId, row.rrLabel) <==> Relied(p, db.rows, row.zoneId, row.rrLabel))
            && (Newer(mid, row) <==> Newer(db.rows, row))
  {
    var n, zone := |row.rrLabel| - 1, db.zones[row.zoneId].name;
    WithAuthUnique(db.rows, row.zoneId, zone, row.rrLabel, n, EffectiveTtl(db.zones[row.zoneId], ttl), now);
    WithAuthDelegated(p, db.rows, row.zoneId, zone, row.rrLabel, n, EffectiveTtl(db.zones[row.zoneId], ttl), now);
  }

  lemma AddMultiDelegated(p: Policy, db: Db, row: Row, ttl: nat, now: Component)
    requires UniqueSlots(db.rows) && Delegated(p, db.rows) && Defined(db, AddMulti(row, ttl, now))
    ensures Delegated(p, AfterAddMultiLevel(db, row, ttl, now).0.rows) <==> Respects(p, db, AddMulti(row, ttl, now))
  {
    hide Delegated, WithAuth, Rebuilt, NonDoeSlots, Newer, Replace;
    if !LinkAbove(db.rows, row.zoneId, row.rrLabel) && !(row.typ == NS && NsAt(db.rows, row.zoneId, row.rrLabel, Auth)) {
      var mid := db.(rows := PrefixesAdded(db, row, ttl, now));
      assert AfterAddMultiLevel(db, row, ttl, now) == AfterStore(mid, row, now);
      MidDelegated(p, db, row, ttl, now);
      StoreDelegated(p, mid, row, now);
      if Relied(p, db.rows, row.zoneId, row.rrLabel) {
        ReliedIsAuth(p, db.rows, row.zoneId, row.rrLabel);
      }
    }
  }

  /** Removing an NS row keeps the invariants if and only if no managed record lies
      strictly below it; removing any other row always does. */
  lemma RemovalExact(p: Policy, db: Db, zid: nat, rrLabel: Name, typ: Component, now: Component)
    requires UniqueSlots(db.rows) && UniqueNames(db.zones) && Delegated(p, db.rows) && zid in db.zones
    requires RemoveDefined(db, db.zones[zid].name, rrLabel, typ)
    ensures Delegated(p, AfterRemoveRrSet(db, db.zones[zid].name, rrLabel, typ, now).rows) <==>
            (typ == NS ==> !Relied(p, db.rows, zid, rrLabel))
  {
    hide Rebuilt, NonDoeSlots;
    var zone := db.zones[zid].name;
    assert ZoneIdOf(db.zones, zone) == Some(zid);
    if typ == NS && Relied(p, db.rows, zid, rrLabel) {
      ReliedIsAuth(p, db.rows, zid, rrLabel);
    }
    var row := Lookup(db.rows, zid, rrLabel, typ);
    if row.Some? {
      RebuiltDelegated(p, db.rows - {row.value}, zid, zone, now);
      WithoutRow(p, db.rows, row.value);
    }
  }

  lemma WithoutRow(p: Policy, rows: set<Row>, row: Row)
    requires UniqueSlots(rows) && Delegated(p, rows) && row in rows
    ensures Delegated(p, rows - {row}) <==> (row.typ == NS ==> !Relied(p, rows, row.zoneId, row.rrLabel))
  {
    var rest := rows - {row};
    if row.typ == NS && Relied(p, rows, row.zoneId, row.rrLabel) {
      var r :| r in rows && r.zoneId == row.zoneId && Managed(p, r.typ) && row.rrLabel < r.rrLabel;
      assert r in rest && r.rrLabel[..|row.rrLabel|] == row.rrLabel;
      assert !NsAt(rest, row.zoneId, row.rrLabel, Auth);
    } else {
      forall r, k | r in rest && Managed(p, r.typ) && 0 < k < |r.rrLabel|
        ensures NsAt(rest, r.zoneId, r.rrLabel[..k], Auth)
      {
        assert NsAt(rows, r.zoneId, r.rrLabel[..k], Auth);
        assert r.rrLabel[..k] < r.rrLabel;
      }
    }
  }

  lemma CreateDelegated(p: Policy, db: Db, z: NewZone, id: nat, now: Component)
    requires Integrity(db) && Delegated(p, db.rows) && id !in db.zones
    ensures Delegated(p, AfterCreateZone(db, z, id, now).0.rows)
  {
    hide Rebuilt, Delegated;
    var ksk, dsk := CertRow(id, z.name, z.ksk, z.ttl), CertRow(id, z.name, z.dsk, z.ttl);
    assert db.rows + {ksk, dsk} == db.rows + {ksk} + {dsk};
    PlusCert(p, db.rows, ksk);
    PlusCert(p, db.rows + {ksk}, dsk);
    if SlotOf(ksk) in NonDoeSlots(db.rows + {ksk, dsk}, id) {
      RebuiltDelegated(p, db.rows + {ksk, dsk}, id, z.name, now);
    }
  }

  lemma PlusCert(p: Policy, rows: set<Row>, cert: Row)
    requires Delegated(p, rows) && cert.typ == CERT
    ensures Delegated(p, rows + {cert})
  {
    assert NS.value[0] != CERT.value[0] && TXT.value[0] != CERT.value[0];
    forall r, k | r in rows && Managed(p, r.typ) && 0 < k < |r.rrLabel|
      ensures NsAt(rows + {cert}, r.zoneId, r.rrLabel[..k], Auth)
    {
      assert NsAt(rows, r.zoneId, r.rrLabel[..k], Auth);
    }
  }

  lemma DeleteDelegated(p: Policy, db: Db, zone: Name)
    requires Delegated(p, db.rows)
    ensures Delegated(p, AfterDeleteZone(db, zone).0.rows)
  {
  }

  /** The condition under which an operation keeps the delegation invariants: it is
      refused, or what it stores fits, or what it removes is not relied on. */
  ghost predicate Respects(p: Policy, db: Db, op: Op)
    requires Defined(db, op)
  {
    match op
    case Create(_, _, _) => true
    case Delete(_) => true
    case Add(row, _) =>
      NsAt(db.rows, row.zoneId, row.rrLabel, Auth) || !Newer(db.rows, row) || Fits(p, db.rows, row)
    case AddMulti(row, _, _) =>
      || LinkAbove(db.rows, row.zoneId, row.rrLabel)
      || (row.typ == NS && NsAt(db.rows, row.zoneId, row.rrLabel, Auth))
      || !Newer(db.rows, row)
      || (row.typ == NS ==> row.data.contentType == Auth || IsLink(row.data))
    case AddFile(zone, certOk, file, ttl, _) =>
      var id := ZoneIdOf(db.zones, zone);
      certOk && file.Packet? && id.Some? ==>
        var row := RowFromData(id.value, db.zones[id.value], ttl, file.data);
        Newer(db.rows, row) ==> Fits(p, db.rows, row)
    case Remove(zone, rrLabel, typ, _) =>
      var id := ZoneIdOf(db.zones, zone);
      id.Some? && typ == NS ==> !Relied(p, db.rows, id.value, rrLabel)
    case Update(zid, data) =>
      MatchData(data.name, db.zones[zid].name).Some? ==>
        var row := UpdatedRow(db, zid, data);
        Newer(db.rows, row) ==> Fits(p, db.rows, row)
  }

  lemma UpdateDelegated(p: Policy, db: Db, zid: nat, data: Data)
    requires UniqueSlots(db.rows) && Delegated(p, db.rows) && Defined(db, Update(zid, data))
    ensures Delegated(p, Server.AfterUpdate(db, zid, data).0.rows) <==> Respects(p, db, Update(zid, data))
  {
    hide Delegated, Fits;
    UpdateIsReplace(db, zid, data);
    if MatchData(data.name, db.zones[zid].name).Some? {
      ReplaceDelegated(p, db.rows, UpdatedRow(db, zid, data));
    }
  }

  /** Every operation, whatever its arguments, keeps the delegation invariants if and
      only if it respects them. */
  lemma ApplyDelegated(p: Policy, db: Db, op: Op)
    requires Integrity(db) && Delegated(p, db.rows) && Defined(db, op)
    ensures Delegated(p, Apply(db, op).rows) <==> Respects(p, db, op)
  {
    hide Delegated, Rebuilt, NonDoeSlots, Fits, Newer;
    match op
    case Create(z, id, now) => CreateDelegated(p, db, z, id, now);
    case Delete(zone) => DeleteDelegated(p, db, zone);
    case Add(row, now) => StoreDelegated(p, db, row, now);
    case AddMulti(row, ttl, now) => AddMultiDelegated(p, db, row, ttl, now);
    case AddFile(zone, certOk, file, ttl, now) =>
      var id := ZoneIdOf(db.zones, zone);
      if id.Some? && file.Packet? {
        StoreDelegated(p, db, RowFromData(id.value, db.zones[id.value], ttl, file.data), now);
      }
    case Remove(zone, rrLabel, typ, now) =>
      var id := ZoneIdOf(db.zones, zone);
      if id.Some? {
        RemovalExact(p, db, id.value, rrLabel, typ, now);
      }
    case Update(zid, data) => UpdateDelegated(p, db, zid, data);
  }

  // ---------- the discipline of the tools ----------

  /** What a caller of the tools does: NS records are delegations, a managed record
      with a label of two or more components goes through addMultiLevelLabelRrset, an
      AUTH row with records below it is not removed, and what a file or an update brings
      fits. For the chain's sake the two keys of a zone differ and updates bring no DoE record. */
  ghost predicate Disciplined(p: Policy, db: Db, op: Op)
    requires Defined(db, op)
  {
    match op
    case Create(z, _, _) => CreateCheck(db, z) == Done ==> z.ksk.keyId != z.dsk.keyId
    case Delete(_) => true
    case Add(row, _) => (row.typ == NS ==> IsLink(row.data)) && (Managed(p, row.typ) ==> |row.rrLabel| <= 1)
    case AddMulti(row, _, _) => row.typ == NS ==> IsLink(row.data)
    case AddFile(_, _, _, _, _) => Respects(p, db, op)
    case Remove(zone, rrLabel, typ, _) =>
      && (var id := ZoneIdOf(db.zones, zone);
          id.Some? && typ == NS && NsAt(db.rows, id.value, rrLabel, Auth) ==> !Relied(p, db.rows, id.value, rrLabel))
      && (p.keepsCerts ==> forall id :: Slot(rrLabel, typ) != Chain.CertSlot(id))
    case Update(zid, data) => Server.PlainUpdate(db, zid, data) && Respects(p, db, op)
  }

  /** The discipline is enough. It is here that the invariants need each other: a
      delegation may be added because labels above records are already marked, and
      removed because no delegation lies above a record. */
  lemma DisciplineRespects(p: Policy, db: Db, op: Op)
    requires Integrity(db) && Delegated(p, db.rows) && Defined(db, op) && Disciplined(p, db, op)
    ensures Respects(p, db, op)
  {
    match op
    case Add(row, _) =>
      if Relied(p, db.rows, row.zoneId, row.rrLabel) {
        ReliedIsAuth(p, db.rows, row.zoneId, row.rrLabel);
      }
    case Remove(zone, rrLabel, typ, _) =>
      var id := ZoneIdOf(db.zones, zone);
      if id.Some? && Relied(p, db.rows, id.value, rrLabel) {
        ReliedIsAuth(p, db.rows, id.value, rrLabel);
      }
    case _ =>
  }

  /** Without the first half, a disciplined addition breaks the second: where no NS row
      marks a label, addRrset puts a delegation above the records below it. */
  lemma LinkNeedsPrefixes(p: Policy, db: Db, row: Row, r: Row, now: Component)
    requires Integrity(db) && Defined(db, Add(row, now)) && Disciplined(p, db, Add(row, now))
    requires row.typ == NS && row.rrLabel != [] && Lookup(db.rows, row.zoneId, row.rrLabel, NS).None?
    requires r in db.rows && r.zoneId == row.zoneId && Managed(p, r.typ) && row.rrLabel < r.rrLabel
    ensures !NoLinkAbove(p, Apply(db, Add(row, now)).rows)
  {
    assert NS.value[0] != DOE.value[0] && TXT.value[0] != DOE.value[0];
    var after := Apply(db, Add(row, now)).rows;
    Effects.AddEffect(db, row, now);
    assert row in after && r in after;
    assert r.rrLabel[..|row.rrLabel|] == row.rrLabel;
    assert NsAt(after, r.zoneId, r.rrLabel[..|row.rrLabel|], Link);
  }

  /** Without the second half, a disciplined removal breaks the first: a delegation is
      no AUTH row, so nothing stops its removal from above records. */
  lemma RemovalNeedsNoLink(p: Policy, db: Db, link: Row, r: Row, now: Component)
    requires Integrity(db) && link in db.rows && link.typ == NS && link.data.contentType == Link && link.rrLabel != []
    requires r in db.rows && r.zoneId == link.zoneId && Managed(p, r.typ) && link.rrLabel < r.rrLabel
    ensures var op := Remove(db.zones[link.zoneId].name, link.rrLabel, NS, now);
            && Defined(db, op) && Disciplined(p, db, op)
            && !PrefixesExist(p, Apply(db, op).rows)
  {
    hide Rebuilt;
    assert NS.value[0] != DOE.value[0] && TXT.value[0] != DOE.value[0] && NS.value[0] != CERT.value[0];
    var zid := link.zoneId;
    var zone := db.zones[zid].name;
    assert ZoneIdOf(db.zones, zone) == Some(zid);
    LookupUnique(db.rows, link);
    assert SlotOf(r) in NonDoeSlots(db.rows - {link}, zid);
    Effects.RemoveEffect(db, zone, link.rrLabel, NS, now);
    var after := Apply(db, Remove(zone, link.rrLabel, NS, now)).rows;
    assert r in after && r.rrLabel[..|link.rrLabel|] == link.rrLabel;
    assert Lookup(after, r.zoneId, r.rrLabel[..|link.rrLabel|], NS).None?;
  }
}
