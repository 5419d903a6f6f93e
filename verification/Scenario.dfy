/** A delegation set up from scratch: the assumptions of the end-to-end theorem are
    met by the ordinary way of running the tools. */
module Scenario {
  import opened Names
  import opened Records
  import opened Database
  import opened Management
  import opened Runs
  import opened Delegation
  import opened Discipline
  import opened Resolver
  import opened Resolution
  import opened EndToEnd
  import ZoneChain
  import Effects

  /** The NS record that generateNsRrset makes for one label component. */
  function LinkRow(zid: nat, zone: Name, c: Component, names: seq<Name>, version: Component): Row
  {
    Row(zid, [c], NS, version, 3600, Data(RecordName(zone, [c], NS, version), Link, Delegations(names)))
  }

  /** A TXT record. */
  function TxtRow(zid: nat, zone: Name, rrLabel: Name, version: Component, ttl: nat): Row
  {
    Row(zid, rrLabel, TXT, version, ttl, Data(RecordName(zone, rrLabel, TXT, version), Resp, Payload([])))
  }

  /** A zone of a kind that createZone accepts in a database without it. */
  predicate Creatable(z: NewZone)
  {
    z.parent < z.name && z.certsMatch && z.ksk.keyId != z.dsk.keyId
  }

  /** Two such zones, one directly below the other. */
  predicate ParentAndChild(parent: NewZone, child: NewZone, c: Component)
  {
    Creatable(parent) && Creatable(child) && child.name == parent.name + [c] && child.parent == parent.name && c != KEY
  }

  /** Rows that a freshly created zone can have. */
  predicate FreshRow(r: Row)
  {
    || (r.typ == DOE && r.data.contentType == Doe)
    || (r.typ == CERT && |r.rrLabel| == 2 && r.data.contentType == ContentType.Key)
  }

  lemma Created(db: Db, z: NewZone, id: nat, now: Component)
    requires AfterCreateZone(db, z, id, now).1 == Done
    requires forall r :: r in db.rows ==> FreshRow(r)
    ensures AfterCreateZone(db, z, id, now).0.zones == db.zones[id := Zone(z.name, z.ttl)]
    ensures forall r :: r in AfterCreateZone(db, z, id, now).0.rows ==> FreshRow(r)
  {
  }

  lemma TypesDiffer()
    ensures NS != CERT && NS != DOE && CERT != DOE && TXT != DOE && TXT != CERT && TXT != NS
  {
    assert NS.value[0] == 78 && CERT.value[0] == 67 && DOE.value[0] == 68 && TXT.value[0] == 84;
  }

  /** The first zone of a database. */
  lemma OneZone(z: NewZone, now: Component) returns (one: Db)
    requires Creatable(z)
    ensures one == AfterCreateZone(EMPTY_DB, z, 1, now).0 && AfterCreateZone(EMPTY_DB, z, 1, now).1 == Done
    ensures Integrity(one) && one.zones == map[1 := Zone(z.name, z.ttl)]
    ensures forall r :: r in one.rows ==> FreshRow(r)
  {
    hide AfterCreateZone, FreshRow;
    one := AfterCreateZone(EMPTY_DB, z, 1, now).0;
    Effects.CreateEffect(EMPTY_DB, z, 1, now);
    CreateStep(EMPTY_DB, z, 1, now);
    Created(EMPTY_DB, z, 1, now);
  }

  /** Both zones, before the delegation. */
  lemma TwoZones(parent: NewZone, child: NewZone, c: Component, now: Component) returns (one: Db, two: Db)
    requires ParentAndChild(parent, child, c)
    ensures one == AfterCreateZone(EMPTY_DB, parent, 1, now).0 && two == AfterCreateZone(one, child, 2, now).0
    ensures Integrity(one) && Integrity(two)
    ensures 2 !in one.zones && two.zones == map[1 := Zone(parent.name, parent.ttl), 2 := Zone(child.name, child.ttl)]
    ensures forall r :: r in two.rows ==> FreshRow(r)
  {
    hide AfterCreateZone, FreshRow;
    one := OneZone(parent, now);
    two := AfterCreateZone(one, child, 2, now).0;
    Effects.CreateEffect(one, child, 2, now);
    CreateStep(one, child, 2, now);
    Created(one, child, 2, now);
  }

  lemma AddLink(p: Policy, two: Db, parent: Name, c: Component, names: seq<Name>, version: Component, now: Component)
    returns (db: Db)
    requires Integrity(two) && 1 in two.zones && two.zones[1].name == parent
    requires forall r :: r in two.rows ==> FreshRow(r)
    ensures var op := Add(LinkRow(1, parent, c, names, version), now);
            Defined(two, op) && Disciplined(p, two, op) && db == Apply(two, op) && db.zones == two.zones
    ensures LinkRow(1, parent, c, names, version) in db.rows
    ensures forall r :: r in db.rows ==> r == LinkRow(1, parent, c, names, version) || FreshRow(r)
  {
    TypesDiffer();
    var row := LinkRow(1, parent, c, names, version);
    ReplaceUnique(two.rows, row);
    db := Apply(two, Add(row, now));
    Effects.AddEffect(two, row, now);
    forall r | r in db.rows
      ensures r == row || FreshRow(r)
    {
      if r.typ == DOE && r !in two.rows {
        assert db.rows == ZoneChain.Rebuilt(Replace(two.rows, row), 1, parent, now);
      }
    }
  }

  /** Creating a parent zone and a child zone and adding the delegation is a disciplined
      run, and its result satisfies every assumption of `ManagedZonesResolve`. */
  lemma DelegationSetUp(p: Policy, parent: NewZone, child: NewZone, c: Component, names: seq<Name>,
                        version: Component, now: Component)
    returns (ops: seq<Op>, db: Db)
    requires ParentAndChild(parent, child, c)
    ensures DisciplinedRun(p, EMPTY_DB, ops, db) && WellKept(db)
    ensures db.zones == map[1 := Zone(parent.name, parent.ttl), 2 := Zone(child.name, child.ttl)]
    ensures LinkAt(WorldOf(db), parent.name, [c])
  {
    hide WellKept, Integrity, WorldOf, LinkAt, FreshRow, AfterCreateZone, Healthy;
    var one, two := TwoZones(parent, child, c, now);
    var row := LinkRow(1, parent.name, c, names, version);
    db := AddLink(p, two, parent.name, c, names, version, now);
    var strict := Policy(true, true);
    var _ := AddLink(strict, two, parent.name, c, names, version, now);
    ops := [Create(parent, 1, now)] + [Create(child, 2, now)] + [Add(row, now)];
    forall pol | pol in {p, strict}
      ensures DisciplinedRun(pol, EMPTY_DB, ops, db)
    {
      RunExtends(pol, EMPTY_DB, [], EMPTY_DB, Create(parent, 1, now));
      RunExtends(pol, EMPTY_DB, [Create(parent, 1, now)], one, Create(child, 2, now));
      RunExtends(pol, EMPTY_DB, [Create(parent, 1, now)] + [Create(child, 2, now)], two, Add(row, now));
    }
    assert Healthy(strict, EMPTY_DB) by { EmptyHealthy(strict); }
    DisciplinedRunHealthy(strict, EMPTY_DB, ops, db);
    assert WellKept(db) && LinkAt(WorldOf(db), parent.name, [c]) by {
      LinkedIsWellKept(strict, db, child.name, row);
    }
  }

  lemma EmptyHealthy(p: Policy)
    ensures Healthy(p, EMPTY_DB)
  {
  }

  lemma LinkedIsWellKept(p: Policy, db: Db, child: Name, row: Row)
    requires Healthy(p, db) && p.keepsCerts
    requires 1 in db.zones && 2 in db.zones && db.zones[2].name == child
    requires row in db.rows && row.zoneId == 1 && row.typ == NS && row.data.contentType == Link
    requires row.rrLabel != [] && row.rrLabel != [KEY] && child == db.zones[1].name + row.rrLabel
    requires forall r :: r in db.rows ==> r == row || FreshRow(r)
    ensures WellKept(db) && LinkAt(WorldOf(db), db.zones[1].name, row.rrLabel)
  {
    hide WellKept, Delegated, Chained;
    TypesDiffer();
    CertifiedZonesWellKept(p, db);
    WorldZones(db, db.zones[1].name);
    LookupUnique(db.rows, row);
  }

  /** So resolving any name below the child from the parent ends at the child zone or
      further down, never at the parent. */
  lemma ResolvesThroughDelegation(p: Policy, parent: NewZone, child: NewZone, c: Component, names: seq<Name>,
                                  version: Component, rest: Name, rrType: Component, now: Component)
    returns (db: Db, d: nat)
    requires ParentAndChild(parent, child, c) && Askable(rrType) && (rest != [] || rrType != NS)
    ensures var goal, s := Goal(child.name + rest, rrType), |parent.name|;
            && Inv(goal, Start(goal, s).0) && Waiting(Start(goal, s).0)
            && Solved(WorldOf(db), goal, s, d, |rest| + 2, Resolve(WorldOf(db), now, goal, Start(goal, s).0))
            && d > s
  {
    hide Resolve, DisciplinedRun, WellKept, Settles, LinkAt, WorldOf, Start, Inv;
    var ops;
    ops, db := DelegationSetUp(p, parent, child, c, names, version, now);
    var goal, s := Goal(child.name + rest, rrType), |parent.name|;
    assert goal.dst[..s] == parent.name && goal.dst[s..s + 1] == [c];
    assert db.zones[1].name == goal.dst[..s];
    d := ManagedZonesResolve(p, ops, db, now, goal, s);
    assert Hop(WorldOf(db), goal, s, s + 1);
    var path :| Path(WorldOf(db), goal, path) && path[0] == s && path[|path| - 1] == d;
    PathAscends(WorldOf(db), goal, path);
  }

  lemma {:induction false} PathAscends(w: World, goal: Goal, path: seq<nat>)
    requires Path(w, goal, path)
    ensures path[0] <= path[|path| - 1]
    decreases |path|
  {
    if |path| > 1 {
      assert Hop(w, goal, path[0], path[1]);
      PathAscends(w, goal, path[1..]);
    }
  }
}
