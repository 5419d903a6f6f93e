/** A record below labels that nothing marks, as an update can store it, and what goes
    wrong around it: the cases that the exact conditions of the delegation invariants shut out. */
module UnmarkedRecords {
  import opened Tlv
  import opened Names
  import opened Records
  import opened Database
  import opened Management
  import opened Runs
  import opened Delegation
  import opened Scenario
  import ZoneChain
  import Server
  import Discipline
  import Effects

  /** A new zone after an update that brings a TXT record at a two-component label. The run
      is disciplined for operators who do not ask TXT records to have marked prefixes. */
  lemma Unmarked(z: NewZone, rrLabel: Name, version: Component, now: Component) returns (ops: seq<Op>, db: Db)
    requires Creatable(z)
    ensures Discipline.DisciplinedRun(Policy(false, true), EMPTY_DB, ops, db)
    ensures Integrity(db) && db.zones == map[1 := Zone(z.name, z.ttl)]
    ensures TxtRow(1, z.name, rrLabel, version, z.ttl) in db.rows
    ensures forall r :: r in db.rows ==> FreshRow(r) || r == TxtRow(1, z.name, rrLabel, version, z.ttl)
  {
    hide AfterCreateZone;
    var p, row := Policy(false, true), TxtRow(1, z.name, rrLabel, version, z.ttl);
    var one := OneZone(z, now);
    TypesDiffer();
    Server.MatchRecordName(z.name, rrLabel, TXT, version);
    var update := Update(1, row.data);
    UpdateIsReplace(one, 1, row.data);
    assert Lookup(one.rows, 1, rrLabel, TXT).None?;
    assert UpdatedRow(one, 1, row.data) == row;
    db := Apply(one, update);
    UpdateStep(one, 1, row.data);
    ops := [Create(z, 1, now)] + [update];
    Discipline.RunExtends(p, EMPTY_DB, [], EMPTY_DB, Create(z, 1, now));
    Discipline.RunExtends(p, EMPTY_DB, [Create(z, 1, now)], one, update);
  }

  /** A refused multi-level addition that leaves a row behind: the record is there in that
      version, but the label above it had no NS row and has one now. */
  lemma RefusedAddLeavesRow(z: NewZone, a: Component, b: Component, version: Component, ttl: nat, now: Component)
    returns (ops: seq<Op>, db: Db, row: Row)
    requires Creatable(z)
    ensures Discipline.DisciplinedRun(Policy(false, true), EMPTY_DB, ops, db)
    ensures Defined(db, AddMulti(row, ttl, now)) && row.rrLabel == [a, b] && row.typ == TXT
    ensures AfterAddMultiLevel(db, row, ttl, now).1 == Rejected(DuplicateVersion)
    ensures AuthRow(1, z.name, [a], EffectiveTtl(Zone(z.name, z.ttl), ttl), now) !in db.rows
    ensures AuthRow(1, z.name, [a], EffectiveTtl(Zone(z.name, z.ttl), ttl), now) in AfterAddMultiLevel(db, row, ttl, now).0.rows
  {
    hide Discipline.DisciplinedRun, ZoneChain.Rebuilt, Integrity;
    ops, db := Unmarked(z, [a, b], version, now);
    row := TxtRow(1, z.name, [a, b], version, z.ttl);
    TypesDiffer();
    assert UniqueSlots(db.rows) && FactoryRow(db, row) by { IntegrityGives(db, row); }
    var mid := PrefixesAdded(db, row, ttl, now);
    assert row.rrLabel[..1] == [a];
    assert WithAuth(db.rows, 1, z.name, row.rrLabel, 0, EffectiveTtl(Zone(z.name, z.ttl), ttl), now) == db.rows;
    assert mid == db.rows + {AuthRow(1, z.name, [a], EffectiveTtl(Zone(z.name, z.ttl), ttl), now)};
    assert Lookup(mid, 1, row.rrLabel, TXT) == Some(row) by {
      assert forall r :: r in mid && At(r, 1, row.rrLabel, TXT) ==> r == row;
    }
    assert SlotOf(row) in ZoneChain.NonDoeSlots(Replace(mid, row), 1) by {
      assert row in Replace(mid, row);
    }
    assert !LinkAbove(db.rows, 1, row.rrLabel);
  }

  lemma IntegrityGives(db: Db, row: Row)
    requires Integrity(db) && row in db.rows
    ensures UniqueSlots(db.rows) && FactoryRow(db, row)
  {
  }

  /** The halves of the delegation invariants hold each other up, for operators who do ask
      TXT records to have marked prefixes. In `one` only the first half is broken; adding a
      delegation, which their discipline allows, breaks the second. In `two` only the second
      is broken; removing the delegation, allowed too, breaks the first. */
  lemma HalvesNeedEachOther(z: NewZone, a: Component, b: Component, names: seq<Name>, version: Component, now: Component)
    returns (one: Db, two: Db)
    requires Creatable(z)
    ensures var p, add := Policy(true, true), Add(LinkRow(1, z.name, a, names, version), now);
            && Integrity(one) && NsWellFormed(one.rows) && NoLinkAbove(p, one.rows) && !PrefixesExist(p, one.rows)
            && Defined(one, add) && Disciplined(p, one, add) && two == Apply(one, add)
            && NsWellFormed(two.rows) && PrefixesExist(p, two.rows) && !NoLinkAbove(p, two.rows)
    ensures var p, remove := Policy(true, true), Remove(z.name, [a], NS, now);
            Defined(two, remove) && Disciplined(p, two, remove) && !PrefixesExist(p, Apply(two, remove).rows)
  {
    hide Discipline.DisciplinedRun, ZoneChain.Rebuilt, Disciplined, Apply, PrefixesExist, NoLinkAbove, NsWellFormed, Integrity;
    var _, db := Unmarked(z, [a, b], version, now);
    one := db;
    var p, txt, link := Policy(true, true), TxtRow(1, z.name, [a, b], version, z.ttl), LinkRow(1, z.name, a, names, version);
    OnlyTxt(p, one, txt);
    assert txt.rrLabel[..1] == [a] && [a] < txt.rrLabel;
    LinkAccepted(p, one, txt, link, now);
    LinkNeedsPrefixes(p, one, link, txt, now);
    two := Apply(one, Add(link, now));
    LinkCovers(p, one, two, txt, link);
    assert two.zones[1].name == z.name;
    RemovalNeedsNoLink(p, two, link, txt, now);
  }

  lemma OnlyTxt(p: Policy, db: Db, txt: Row)
    requires Integrity(db) && txt in db.rows && txt.typ == TXT && |txt.rrLabel| == 2 && p.marksTxt
    requires forall r :: r in db.rows ==> FreshRow(r) || r == txt
    ensures NsWellFormed(db.rows) && NoLinkAbove(p, db.rows) && !PrefixesExist(p, db.rows)
    ensures Lookup(db.rows, txt.zoneId, txt.rrLabel[..1], NS).None?
  {
    TypesDiffer();
    assert txt.rrLabel[..1] == txt.rrLabel[..1] && Lookup(db.rows, txt.zoneId, txt.rrLabel[..1], NS).None?;
  }

  lemma LinkAccepted(p: Policy, db: Db, txt: Row, link: Row, now: Component)
    requires Integrity(db) && txt in db.rows && FactoryRow(db, link) && link.zoneId == txt.zoneId
    requires link.typ == NS && IsLink(link.data) && |link.rrLabel| == 1
    requires forall r :: r in db.rows ==> FreshRow(r) || r == txt
    requires txt.typ == TXT
    ensures Defined(db, Add(link, now)) && Disciplined(p, db, Add(link, now))
    ensures Integrity(Apply(db, Add(link, now))) && Apply(db, Add(link, now)).zones == db.zones
    ensures Effects.Holds(db.rows, Apply(db, Add(link, now)).rows, link, {})
  {
    hide ZoneChain.Rebuilt;
    TypesDiffer();
    ReplaceUnique(db.rows, link);
    Effects.AddEffect(db, link, now);
    ApplyStep(db, Add(link, now));
  }

  lemma LinkCovers(p: Policy, one: Db, two: Db, txt: Row, link: Row)
    requires Effects.Holds(one.rows, two.rows, link, {}) && txt in one.rows && txt.typ == TXT && |txt.rrLabel| == 2
    requires link.typ == NS && IsLink(link.data) && link.zoneId == txt.zoneId && link.rrLabel == txt.rrLabel[..1]
    requires forall r :: r in one.rows ==> FreshRow(r) || r == txt
    ensures NsWellFormed(two.rows) && PrefixesExist(p, two.rows)
    ensures txt in two.rows && link in two.rows
  {
    TypesDiffer();
    forall r, k | r in two.rows && Managed(p, r.typ) && 0 < k < |r.rrLabel|
      ensures Lookup(two.rows, r.zoneId, r.rrLabel[..k], NS).Some?
    {
      assert r == txt && k == 1;
      assert At(link, r.zoneId, r.rrLabel[..k], NS);
    }
  }
}
