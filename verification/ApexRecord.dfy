/** A record at a zone's apex, added by an ordinary run, that stops resolution below the
    zone: the case that a closing guard row shuts out. */
module ApexRecord {
  import opened Tlv
  import opened Names
  import opened Records
  import opened Chain
  import opened Database
  import opened ZoneChain
  import opened Management
  import opened Runs
  import opened Resolver
  import opened Scenario
  import Server
  import Delegation
  import Discipline
  import Resolution
  import EndToEnd
  import Effects

  function ApexSlots(z: NewZone): seq<Slot>
  {
    [Slot([], TXT), CertSlot(z.ksk.keyId), CertSlot(z.dsk.keyId)]
  }

  /** The records of a new zone are its two certificates. */
  lemma NewZoneSlots(z: NewZone, now: Component)
    requires AfterCreateZone(EMPTY_DB, z, 1, now).1 == Done
    ensures var slots := NonDoeSlots(AfterCreateZone(EMPTY_DB, z, 1, now).0.rows, 1);
            slots == {CertSlot(z.ksk.keyId), CertSlot(z.dsk.keyId)}
  {
    hide CreateCheck;
    TypesDiffer();
    var rows := AfterCreateZone(EMPTY_DB, z, 1, now).0.rows;
    var ksk, dsk := CertRow(1, z.name, z.ksk, z.ttl), CertRow(1, z.name, z.dsk, z.ttl);
    assert SlotOf(ksk) in NonDoeSlots(EMPTY_DB.rows + {ksk, dsk}, 1);
    assert rows == Rebuilt(EMPTY_DB.rows + {ksk, dsk}, 1, z.name, now);
    assert forall r: Row :: r.typ != DOE ==> (r in rows <==> r == ksk || r == dsk);
    assert SlotOf(ksk) == CertSlot(z.ksk.keyId) && SlotOf(dsk) == CertSlot(z.dsk.keyId);
  }

  lemma ApexSlot(rows: set<Row>, row: Row)
    requires row.typ != DOE && Lookup(rows, row.zoneId, row.rrLabel, row.typ).None?
    ensures NonDoeSlots(Replace(rows, row), row.zoneId) == NonDoeSlots(rows, row.zoneId) + {SlotOf(row)}
  {
    var all := rows + {row};
    assert forall r :: r in rows ==> r in all;
    assert row in all;
  }

  /** After the record at the apex is added, the chain is the one of `ApexRecordBreaksDenial`. */
  lemma ApexChained(z: NewZone, one: Db, row: Row, now: Component)
    requires one == AfterCreateZone(EMPTY_DB, z, 1, now).0 && AfterCreateZone(EMPTY_DB, z, 1, now).1 == Done
    requires ComponentLess(z.ksk.keyId, z.dsk.keyId)
    requires row.zoneId == 1 && row.rrLabel == [] && row.typ == TXT
    requires forall r :: r in one.rows ==> FreshRow(r)
    ensures NonDoeSlots(Replace(one.rows, row), 1) != {}
    ensures IsChain(Rebuilt(Replace(one.rows, row), 1, z.name, now), 1, z.name, ApexSlots(z), now)
  {
    hide AfterCreateZone, Rebuilt, IsChain;
    TypesDiffer();
    NewZoneSlots(z, now);
    ApexSlot(one.rows, row);
    var slots := NonDoeSlots(Replace(one.rows, row), 1);
    assert forall x :: x in slots <==> x in ApexSlots(z);
    ApexChain(z.ksk.keyId, z.dsk.keyId);
    SortedUnique(SortSlots(slots), ApexSlots(z));
    RebuiltIsChain(Replace(one.rows, row), 1, z.name, now);
  }

  /** Over that chain, the NACK for an NS question before /KEY is one that the client rejects. */
  lemma RejectedNack(z: NewZone, w: Resolution.World, rows: set<Row>, c: Component, built: Component, now: Component) returns (doe: Data)
    requires ComponentLess(z.ksk.keyId, z.dsk.keyId) && ComponentLess(c, KEY)
    requires z.name in w && w[z.name] == Resolution.Site(1, rows)
    requires IsChain(rows, 1, z.name, ApexSlots(z), built)
    requires Lookup(rows, 1, [c], NS).None?
    ensures var q := Server.Question(z.name, [c], NS);
            Resolution.Serve(w, q, now) == Some(Data(Server.QueryName(q) + [now], Nack, Nested(doe)))
    ensures doe.content.Range? && !AbsentByRange((doe.content.lower, doe.content.upper), [c, NS])
  {
    var q, s := Server.Question(z.name, [c], NS), Slot([c], NS);
    Server.MatchQueryName(q);
    DenialOfAbsentSlot(rows, 1, z.name, ApexSlots(z), built, s);
    ApexDenial(z.ksk.keyId, z.dsk.keyId, KeyOf(s));
    assert KeyOf(s) == [c, NS];
    NameLessAsymmetric([c, NS], KeyOf(CertSlot(z.ksk.keyId)));
    var row := LowerBound(rows, 1, DOE, KeyOf(s)).value;
    assert row in ChainRows(1, z.name, KeysOf(ApexSlots(z)), built, |ApexSlots(z)| + 1);
    doe := row.data;
  }

  lemma OnlyZone(db: Db, z: Zone)
    requires db.zones == map[1 := z]
    ensures z.name in EndToEnd.WorldOf(db) && EndToEnd.WorldOf(db)[z.name] == Resolution.Site(1, db.rows)
  {
    assert db.zones[1].name == z.name;
    EndToEnd.WorldZones(db, z.name);
  }

  lemma ApexSetUp(p: Delegation.Policy, z: NewZone, version: Component, now: Component) returns (ops: seq<Op>, db: Db)
    requires Creatable(z) && ComponentLess(z.ksk.keyId, z.dsk.keyId)
    ensures Discipline.DisciplinedRun(p, EMPTY_DB, ops, db)
    ensures db.zones == map[1 := Zone(z.name, z.ttl)]
    ensures IsChain(db.rows, 1, z.name, ApexSlots(z), now)
    ensures forall r :: r in db.rows ==> r.typ != NS
  {
    hide AfterCreateZone, IsChain;
    var row := TxtRow(1, z.name, [], version, z.ttl);
    var one := OneZone(z, now);
    TypesDiffer();
    ApexChained(z, one, row, now);
    Effects.AddEffect(one, row, now);
    db := Apply(one, Add(row, now));
    ops := [Create(z, 1, now)] + [Add(row, now)];
    Discipline.RunExtends(p, EMPTY_DB, [], EMPTY_DB, Create(z, 1, now));
    Discipline.RunExtends(p, EMPTY_DB, [Create(z, 1, now)], one, Add(row, now));
  }

  /** Creating a zone and adding one TXT record at its apex is a disciplined run after which
      the resolver throws on every name below the zone whose first component precedes `KEY`. */
  lemma ApexRecordStopsResolution(p: Delegation.Policy, z: NewZone, version: Component, now: Component, rest: Name, rrType: Component)
    returns (ops: seq<Op>, db: Db)
    requires Creatable(z) && ComponentLess(z.ksk.keyId, z.dsk.keyId)
    requires rest != [] && ComponentLess(rest[0], KEY)
    ensures Discipline.DisciplinedRun(p, EMPTY_DB, ops, db)
    ensures var goal, s := Goal(z.name + rest, rrType), |z.name|;
            && Inv(goal, Start(goal, s).0) && Waiting(Start(goal, s).0)
            && Resolution.Resolve(EndToEnd.WorldOf(db), now, goal, Start(goal, s).0) == Resolution.Ended(Start(goal, s).0, Threw, 1)
  {
    hide IsChain, EndToEnd.WorldOf, Resolution.Serve, Discipline.DisciplinedRun, AbsentByRange;
    ops, db := ApexSetUp(p, z, version, now);
    OnlyZone(db, Zone(z.name, z.ttl));
    var goal, s := Goal(z.name + rest, rrType), |z.name|;
    StartInv(goal, s);
    var ctl := Start(goal, s).0;
    var q := QuestionOf(goal, ctl);
    assert q == Server.Question(z.name, [rest[0]], NS) by {
      assert goal.dst[..s] == z.name && goal.dst[s..s + 1] == [rest[0]];
      assert goal.dst[s..] == rest;
    }
    var doe := RejectedNack(z, EndToEnd.WorldOf(db), db.rows, rest[0], now, now);
    assert ctl.lastLabelType == [rest[0], NS];
    assert HandleData(goal, ctl, Data(Server.QueryName(q) + [now], Nack, Nested(doe))) == (ctl, Threw);
  }
}
