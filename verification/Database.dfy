/** The zone and record tables, with the uniqueness, comparison and ordering
    semantics of the SQL statements that use them. */
module Database {
  import opened Tlv
  import opened Names
  import opened Records
  import Chain

  datatype Zone = Zone(name: Name, ttl: nat)
  datatype Db = Db(zones: map<nat, Zone>, rows: set<Row>)

  const EMPTY_DB := Db(map[], {})

  predicate At(r: Row, zid: nat, rrLabel: Name, typ: Component)
  {
    r.zoneId == zid && r.rrLabel == rrLabel && r.typ == typ
  }

  function ZoneRows(rows: set<Row>, zid: nat): set<Row>
  {
    set r | r in rows && r.zoneId == zid
  }

  /** At most one row per zone, label and type; the schema only demands this per version. */
  ghost predicate UniqueSlots(rows: set<Row>)
  {
    forall r, s :: r in rows && s in rows && r.zoneId == s.zoneId && SlotOf(r) == SlotOf(s) ==> r == s
  }

  /** The unique index (zone_id, label, type, version). */
  predicate Clashes(rows: set<Row>, row: Row)
  {
    exists r :: r in rows && At(r, row.zoneId, row.rrLabel, row.typ) && r.version == row.version
  }

  ghost predicate UniqueNames(zones: map<nat, Zone>)
  {
    forall i, j :: i in zones && j in zones && zones[i].name == zones[j].name ==> i == j
  }

  ghost function ZoneIdOf(zones: map<nat, Zone>, name: Name): (o: Option<nat>)
    ensures o.Some? ==> o.value in zones && zones[o.value].name == name
    ensures o.None? ==> forall i :: i in zones ==> zones[i].name != name
  {
    if i :| i in zones && zones[i].name == name then Some(i) else None
  }

  ghost function Lookup(rows: set<Row>, zid: nat, rrLabel: Name, typ: Component): (o: Option<Row>)
    ensures o.Some? ==> o.value in rows && At(o.value, zid, rrLabel, typ)
    ensures o.None? ==> forall r :: r in rows ==> !At(r, zid, rrLabel, typ)
  {
    if r :| r in rows && At(r, zid, rrLabel, typ) then Some(r) else None
  }

  // ---------- SELECT ... WHERE label < ? AND type = ? ORDER BY label DESC ----------

  predicate StoredBefore(a: Name, b: Name)
  {
    BytesLess(NameWire(a), NameWire(b))
  }

  predicate Candidate(r: Row, zid: nat, typ: Component, q: Name)
  {
    r.zoneId == zid && r.typ == typ && StoredBefore(r.rrLabel, q)
  }

  ghost predicate IsBound(rows: set<Row>, zid: nat, typ: Component, q: Name, r: Row)
  {
    && r in rows && Candidate(r, zid, typ, q)
    && forall s :: s in rows && Candidate(s, zid, typ, q) ==> !StoredBefore(r.rrLabel, s.rrLabel)
  }

  ghost function LowerBound(rows: set<Row>, zid: nat, typ: Component, q: Name): (o: Option<Row>)
    ensures o.Some? ==> IsBound(rows, zid, typ, q, o.value)
    ensures o.None? ==> forall r :: r in rows ==> !Candidate(r, zid, typ, q)
  {
    if x :| x in rows && Candidate(x, zid, typ, q) then
      assert exists r :: IsBound(rows, zid, typ, q, r) by {
        var top := GreatestCandidate(rows, zid, typ, q, x);
      }
      var r :| IsBound(rows, zid, typ, q, r);
      Some(r)
    else None
  }

  lemma {:induction false} GreatestCandidate(rows: set<Row>, zid: nat, typ: Component, q: Name, x: Row) returns (top: Row)
    requires x in rows && Candidate(x, zid, typ, q)
    ensures IsBound(rows, zid, typ, q, top)
    decreases |rows|
  {
    top := x;
    StoredIrreflexive(x.rrLabel);
    if y :| y in rows && Candidate(y, zid, typ, q) && StoredBefore(x.rrLabel, y.rrLabel) {
      top := GreatestCandidate(rows - {x}, zid, typ, q, y);
      if StoredBefore(top.rrLabel, x.rrLabel) {
        BytesLessTransitive(NameWire(top.rrLabel), NameWire(x.rrLabel), NameWire(y.rrLabel));
      }
    }
  }

  lemma StoredIrreflexive(a: Name)
    ensures !StoredBefore(a, a)
  {
    if StoredBefore(a, a) {
      BytesLessAsymmetric(NameWire(a), NameWire(a));
    }
  }

  lemma BoundUnique(rows: set<Row>, zid: nat, typ: Component, q: Name, r: Row, s: Row)
    requires UniqueSlots(rows)
    requires IsBound(rows, zid, typ, q, r) && IsBound(rows, zid, typ, q, s)
    ensures r == s
  {
    OrderEmbedding(r.rrLabel, s.rrLabel);
    OrderEmbedding(s.rrLabel, r.rrLabel);
    NameLessTotal(r.rrLabel, s.rrLabel);
  }

  class DbMgr {
    var zones: map<nat, Zone>
    var rows: set<Row>

    ghost function State(): Db
      reads this
    {
      Db(zones, rows)
    }

    constructor ()
      ensures State() == EMPTY_DB
    {
      zones, rows := map[], {};
    }

    /** One more than the largest id in use, as SQLite picks for an integer primary
        key, so the id of a deleted zone can come back. */
    method NextZoneId() returns (id: nat)
      ensures id > 0 && id !in zones
      ensures (forall i :: i in zones ==> i < id) && (id == 1 || id - 1 in zones)
    {
      id := 1;
      var rest := zones.Keys;
      while rest != {}
        invariant rest <= zones.Keys && id > 0 && (id == 1 || id - 1 in zones)
        invariant forall i :: i in zones && i !in rest ==> i < id
        decreases rest
      {
        var i :| i in rest;
        rest := rest - {i};
        if i >= id {
          id := i + 1;
        }
      }
    }

    method InsertZone(zone: Zone) returns (id: Option<nat>)
      modifies this
      ensures rows == old(rows)
      ensures id.Some? <==> forall i :: i in old(zones) ==> old(zones)[i].name != zone.name
      ensures id.None? ==> zones == old(zones)
      ensures id.Some? ==> id.value > 0 && id.value !in old(zones) && zones == old(zones)[id.value := zone]
      ensures id.Some? ==> (forall i :: i in old(zones) ==> i < id.value) && (id.value == 1 || id.value - 1 in old(zones))
    {
      var clash := FindZone(zone.name);
      if clash.Some? {
        return None;
      }
      var next := NextZoneId();
      zones := zones[next := zone];
      id := Some(next);
    }

    method FindZone(name: Name) returns (id: Option<nat>)
      ensures id.Some? ==> id.value in zones && zones[id.value].name == name
      ensures id.None? ==> forall i :: i in zones ==> zones[i].name != name
    {
      if i :| i in zones.Keys && zones[i].name == name {
        id := Some(i);
      } else {
        id := None;
      }
    }

    method RemoveZone(id: nat)
      modifies this
      ensures rows == old(rows) && zones == old(zones) - {id}
    {
      zones := zones - {id};
    }

    /** False stands for the ExecuteError of a violated unique index. */
    method InsertRow(row: Row) returns (ok: bool)
      modifies this
      ensures zones == old(zones)
      ensures ok <==> !Clashes(old(rows), row)
      ensures rows == if ok then old(rows) + {row} else old(rows)
    {
      ok := !Clashes(rows, row);
      if ok {
        rows := rows + {row};
      }
    }

    method FindRow(zid: nat, rrLabel: Name, typ: Component) returns (o: Option<Row>)
      ensures o.Some? ==> o.value in rows && At(o.value, zid, rrLabel, typ)
      ensures o.None? ==> forall r :: r in rows ==> !At(r, zid, rrLabel, typ)
      ensures UniqueSlots(rows) ==> o == Lookup(rows, zid, rrLabel, typ)
    {
      if r :| r in rows && At(r, zid, rrLabel, typ) {
        o := Some(r);
      } else {
        o := None;
      }
    }

    method FindLowerBound(zid: nat, typ: Component, q: Name) returns (o: Option<Row>)
      ensures o.Some? ==> IsBound(rows, zid, typ, q, o.value)
      ensures o.None? ==> forall r :: r in rows ==> !Candidate(r, zid, typ, q)
      ensures UniqueSlots(rows) ==> o == LowerBound(rows, zid, typ, q)
    {
      o := None;
      var rest := rows;
      while rest != {}
        invariant rest <= rows
        invariant o.Some? ==> o.value in rows && Candidate(o.value, zid, typ, q)
        invariant forall s :: s in rows && s !in rest && Candidate(s, zid, typ, q) ==>
                    o.Some? && !StoredBefore(o.value.rrLabel, s.rrLabel)
        decreases rest
      {
        var r :| r in rest;
        rest := rest - {r};
        if Candidate(r, zid, typ, q) && (o.None? || StoredBefore(o.value.rrLabel, r.rrLabel)) {
          forall s | s in rows && s !in rest && Candidate(s, zid, typ, q)
            ensures !StoredBefore(r.rrLabel, s.rrLabel)
          {
            StoredIrreflexive(r.rrLabel);
            if s != r && StoredBefore(r.rrLabel, s.rrLabel) {
              BytesLessTransitive(NameWire(o.value.rrLabel), NameWire(r.rrLabel), NameWire(s.rrLabel));
            }
          }
          o := Some(r);
        }
      }
      if o.Some? && UniqueSlots(rows) {
        BoundUnique(rows, zid, typ, q, o.value, LowerBound(rows, zid, typ, q).value);
      }
    }

    /** Reads the zone's rows from a cursor ordered by label. */
    method FindRrsets(zid: nat) returns (vec: seq<Row>)
      ensures forall r :: r in vec <==> r in ZoneRows(rows, zid)
      ensures Chain.Distinct(vec)
      ensures forall i, j :: 0 <= i < j < |vec| ==> !StoredBefore(vec[j].rrLabel, vec[i].rrLabel)
    {
      hide StoredBefore;
      vec := [];
      var rest := ZoneRows(rows, zid);
      while rest != {}
        invariant rest <= ZoneRows(rows, zid)
        invariant forall r :: r in vec <==> r in ZoneRows(rows, zid) && r !in rest
        invariant Chain.Distinct(vec)
        invariant forall r, s :: r in vec && s in rest ==> !StoredBefore(s.rrLabel, r.rrLabel)
        invariant forall i, j :: 0 <= i < j < |vec| ==> !StoredBefore(vec[j].rrLabel, vec[i].rrLabel)
        decreases rest
      {
        ghost var x :| x in rest;
        ghost var least := LeastLabel(rest, x);
        var r :| r in rest && forall s :: s in rest ==> !StoredBefore(s.rrLabel, r.rrLabel);
        assert r !in vec;
        vec, rest := vec + [r], rest - {r};
      }
    }

    method RemoveRow(row: Row)
      modifies this
      ensures zones == old(zones) && rows == old(rows) - {row}
    {
      rows := rows - {row};
    }

    method RemoveRrsetsOfZoneByType(zid: nat, typ: Component)
      modifies this
      ensures zones == old(zones)
      ensures rows == WithoutType(old(rows), zid, typ)
    {
      rows := WithoutType(rows, zid, typ);
    }

    method UpdateRow(row: Row, version: Component, data: Data)
      requires row in rows
      modifies this
      ensures zones == old(zones)
      ensures rows == old(rows) - {row} + {row.(version := version, data := data)}
    {
      rows := rows - {row} + {row.(version := version, data := data)};
    }
  }

  function WithoutType(rows: set<Row>, zid: nat, typ: Component): set<Row>
  {
    set r | r in rows && !(r.zoneId == zid && r.typ == typ)
  }

  lemma {:induction false} LeastLabel(rows: set<Row>, x: Row) returns (least: Row)
    requires x in rows
    ensures least in rows && forall s :: s in rows ==> !StoredBefore(s.rrLabel, least.rrLabel)
    decreases |rows|
  {
    least := x;
    StoredIrreflexive(x.rrLabel);
    if y :| y in rows && StoredBefore(y.rrLabel, x.rrLabel) {
      least := LeastLabel(rows - {x}, y);
      if StoredBefore(x.rrLabel, least.rrLabel) {
        BytesLessTransitive(NameWire(y.rrLabel), NameWire(x.rrLabel), NameWire(least.rrLabel));
      }
    }
  }
}
