/** Query and packet names, and the authoritative server: a hit, a NACK that
    carries a DoE record, or an update decided by version. */
module Server {
  import opened Tlv
  import opened Names
  import opened Records
  import opened Database
  import Chain
  import ZoneChain

  // ---------- names of queries and packets ----------

  datatype Question = Question(zone: Name, rrLabel: Name, rrType: Component)
  datatype Interest = Interest(name: Name, hint: seq<Name>)
  datatype Query = Query(question: Question, queryType: Component, hint: seq<Name>)
  datatype Match = Match(rrLabel: Name, rrType: Component, version: Option<Component>)

  function QueryName(q: Question): Name
  {
    q.zone + [NDNS_QUERY] + q.rrLabel + [q.rrType]
  }

  function ToInterest(q: Query): Interest
  {
    Interest(q.question.zone + [q.queryType] + q.question.rrLabel + [q.question.rrType], q.hint)
  }

  /** A version component must not be the whole rest of the name: the subtraction
      that yields the label's length would wrap around. */
  predicate MatchDefined(name: Name, zone: Name)
  {
    UnderZone(name, zone) && (|name| == |zone| + 2 ==> !IsVersion(name[|name| - 1]))
  }

  function MatchInterest(name: Name, zone: Name): Option<Match>
    requires MatchDefined(name, zone)
  {
    var skip, n := |zone| + 1, |name|;
    if n - skip < 1 then None
    else if IsVersion(name[n - 1]) then Some(Match(name[skip..n - 2], name[n - 2], Some(name[n - 1])))
    else Some(Match(name[skip..n - 1], name[n - 1], None))
  }

  function FromInterest(zone: Name, interest: Interest): Option<Query>
    requires MatchDefined(interest.name, zone)
  {
    match MatchInterest(interest.name, zone)
    case None => None
    case Some(m) => Some(Query(Question(zone, m.rrLabel, m.rrType), interest.name[|zone|], interest.hint))
  }

  lemma MatchQueryName(q: Question)
    requires !IsVersion(q.rrType)
    ensures MatchDefined(QueryName(q), q.zone)
    ensures MatchInterest(QueryName(q), q.zone) == Some(Match(q.rrLabel, q.rrType, None))
  {
  }

  lemma MatchVersionedName(q: Question, version: Component)
    requires IsVersion(version)
    ensures MatchDefined(QueryName(q) + [version], q.zone)
    ensures MatchInterest(QueryName(q) + [version], q.zone) == Some(Match(q.rrLabel, q.rrType, Some(version)))
  {
    var name := QueryName(q) + [version];
    assert name[|q.zone| + 1..|name| - 2] == q.rrLabel;
  }

  /** Every query name is decided: no match only for the bare zone prefix, and a trailing
      version is split off exactly if it is one. */
  lemma MatchInterestExact(name: Name, zone: Name, m: Match)
    requires MatchDefined(name, zone)
    ensures MatchInterest(name, zone).None? <==> name == zone + [NDNS_QUERY]
    ensures MatchInterest(name, zone) == Some(m) <==>
            var asked := QueryName(Question(zone, m.rrLabel, m.rrType));
            if m.version.Some? then name == asked + [m.version.value] && IsVersion(m.version.value)
            else name == asked && !IsVersion(m.rrType)
  {
    var q := Question(zone, m.rrLabel, m.rrType);
    if m.version.Some? && IsVersion(m.version.value) {
      MatchVersionedName(q, m.version.value);
    } else if m.version.None? && !IsVersion(m.rrType) {
      MatchQueryName(q);
    }
    var skip, n := |zone| + 1, |name|;
    assert name[..skip] == zone + [NDNS_QUERY];
    if n > skip {
      assert name == name[..skip] + name[skip..n - 1] + [name[n - 1]];
      if IsVersion(name[n - 1]) {
        assert name == name[..skip] + name[skip..n - 2] + [name[n - 2]] + [name[n - 1]];
      }
    }
  }

  /** fromInterest inverts toInterest for every query whose type is not a version. */
  lemma QueryRoundTrip(q: Query)
    requires q.queryType == NDNS_QUERY && !IsVersion(q.question.rrType)
    ensures ToInterest(q).name == QueryName(q.question)
    ensures MatchDefined(ToInterest(q).name, q.question.zone)
    ensures FromInterest(q.question.zone, ToInterest(q)) == Some(q)
  {
  }

  /** fromInterest fails exactly on the bare zone prefix; otherwise the Interest's name is
      that of the query, with or without a version. */
  lemma FromInterestDecides(zone: Name, interest: Interest)
    requires MatchDefined(interest.name, zone)
    ensures var r := FromInterest(zone, interest);
            && (r.None? <==> interest.name == zone + [NDNS_QUERY])
            && (r.Some? ==>
                  && r.value.question.zone == zone && r.value.queryType == NDNS_QUERY && r.value.hint == interest.hint
                  && var asked := QueryName(r.value.question);
                  interest.name == asked ||
                  (asked < interest.name && |interest.name| == |asked| + 1 && IsVersion(interest.name[|asked|])))
  {
    var m := MatchInterest(interest.name, zone);
    MatchInterestExact(interest.name, zone, if m.Some? then m.value else Match([], NS, None));
  }

  lemma MatchRecordName(zone: Name, rrLabel: Name, typ: Component, version: Component)
    ensures UnderZone(RecordName(zone, rrLabel, typ, version), zone)
    ensures MatchData(RecordName(zone, rrLabel, typ, version), zone) == Some((rrLabel, typ, version))
    ensures RecordName(zone, rrLabel, typ, version) == QueryName(Question(zone, rrLabel, typ)) + [version]
  {
  }

  lemma RecordNameOfMatch(name: Name, zone: Name)
    requires UnderZone(name, zone) && MatchData(name, zone).Some?
    ensures var (rrLabel, typ, version) := MatchData(name, zone).value;
            name == RecordName(zone, rrLabel, typ, version)
  {
  }

  // ---------- queries ----------

  datatype Reply = Answer(data: Data) | Fault

  ghost function HandleQuery(rows: set<Row>, zid: nat, interest: Name, m: Match, now: Component): Reply
  {
    var hit := Lookup(rows, zid, m.rrLabel, m.rrType);
    if hit.Some? && (m.version.None? || m.version.value == hit.value.version) then Answer(hit.value.data)
    else
      match LowerBound(rows, zid, DOE, KeyOf(Slot(m.rrLabel, m.rrType)))
      case None => Fault
      case Some(doe) => Answer(Data(interest + [now], Nack, Nested(doe.data)))
  }

  /** Rows carry the packet that their zone, label, type and version name. */
  ghost predicate Named(rows: set<Row>, zid: nat, zone: Name)
  {
    forall r :: r in rows && r.zoneId == zid ==> r.data.name == RecordName(zone, r.rrLabel, r.typ, r.version)
  }

  /** Whatever the server sends, the query's name is a prefix of the packet's name. */
  lemma AnswerMatchesQuestion(rows: set<Row>, zid: nat, zone: Name, interest: Name, now: Component)
    requires Named(rows, zid, zone)
    requires MatchDefined(interest, zone) && MatchInterest(interest, zone).Some?
    ensures var reply := HandleQuery(rows, zid, interest, MatchInterest(interest, zone).value, now);
            reply.Answer? ==> interest <= reply.data.name
  {
  }

  /** The stored packet that answers the query: the one at label and type, in the version
      asked for if one is. */
  predicate Answers(r: Row, zid: nat, m: Match)
  {
    At(r, zid, m.rrLabel, m.rrType) && (m.version.None? || m.version == Some(r.version))
  }

  /** The NACK named by the query, around the DoE row that stored order puts just before
      what was asked for. */
  ghost predicate NackFor(rows: set<Row>, zid: nat, interest: Name, m: Match, now: Component, reply: Reply)
  {
    exists doe :: IsBound(rows, zid, DOE, m.rrLabel + [m.rrType], doe) &&
      reply == Answer(Data(interest + [now], Nack, Nested(doe.data)))
  }

  /** Every query is decided: the packet that answers it if there is one, otherwise a NACK,
      and the fatal error only in a zone without a DoE row before what was asked for. */
  lemma QueryDecides(rows: set<Row>, zid: nat, interest: Name, m: Match, now: Component)
    requires UniqueSlots(rows)
    ensures var reply := HandleQuery(rows, zid, interest, m, now);
            && (forall r :: r in rows && Answers(r, zid, m) ==> reply == Answer(r.data))
            && ((forall r :: r in rows ==> !Answers(r, zid, m)) ==>
                  NackFor(rows, zid, interest, m, now, reply) ||
                  (reply == Fault && forall r :: r in rows ==> !Candidate(r, zid, DOE, m.rrLabel + [m.rrType])))
  {
    assert KeyOf(Slot(m.rrLabel, m.rrType)) == m.rrLabel + [m.rrType];
  }

  /** A query for one version gets the stored packet if and only if that version is stored;
      for another version, or no record, it gets a NACK, and under a chain never the error. */
  lemma VersionedQueryDecides(rows: set<Row>, zid: nat, base: seq<Slot>, built: Component, q: Question,
                              version: Component, now: Component)
    requires UniqueSlots(rows) && Named(rows, zid, q.zone) && ZoneChain.IsChain(rows, zid, q.zone, base, built)
    requires IsVersion(version)
    ensures var interest := QueryName(q) + [version];
            && MatchDefined(interest, q.zone) && MatchInterest(interest, q.zone).Some?
            && var m := MatchInterest(interest, q.zone).value;
            var reply := HandleQuery(rows, zid, interest, m, now);
            && (forall r :: r in rows && At(r, zid, q.rrLabel, q.rrType) ==>
                  (reply == Answer(r.data) <==> r.version == version))
            && ((forall r :: r in rows && At(r, zid, q.rrLabel, q.rrType) ==> r.version != version) ==>
                  NackFor(rows, zid, interest, m, now, reply))
  {
    hide ZoneChain.IsChain, IsBound;
    var interest := QueryName(q) + [version];
    MatchVersionedName(q, version);
    QueryDecides(rows, zid, interest, Match(q.rrLabel, q.rrType, Some(version)), now);
    ZoneChain.ChainHasBound(rows, zid, q.zone, base, built, q.rrLabel + [q.rrType]);
    forall r | r in rows && At(r, zid, q.rrLabel, q.rrType)
      ensures |r.data.name| < |interest + [now]|
    {
      MatchRecordName(q.zone, q.rrLabel, q.rrType, r.version);
    }
  }

  // ---------- updates ----------

  datatype UpdateCode = Updated | Refused | Ignored

  ghost function AfterUpdate(db: Db, zid: nat, data: Data): (Db, UpdateCode)
    requires zid in db.zones && UnderZone(data.name, db.zones[zid].name)
  {
    match MatchData(data.name, db.zones[zid].name)
    case None => (db, Ignored)
    case Some((rrLabel, typ, version)) =>
      match Lookup(db.rows, zid, rrLabel, typ)
      case None => (db.(rows := db.rows + {Row(zid, rrLabel, typ, version, db.zones[zid].ttl, data)}), Updated)
      case Some(r) =>
        if ComponentLess(r.version, version)
        then (db.(rows := db.rows - {r} + {r.(version := version, data := data)}), Updated)
        else (db, Refused)
  }

  /** A packet name too short for a type and a version is the only one without a match. */
  lemma MatchExact(name: Name, zone: Name, rrLabel: Name, typ: Component, version: Component)
    requires UnderZone(name, zone)
    ensures MatchData(name, zone) == Some((rrLabel, typ, version)) <==> name == RecordName(zone, rrLabel, typ, version)
    ensures MatchData(name, zone).None? <==> |name| < |zone| + 3
  {
    MatchRecordName(zone, rrLabel, typ, version);
    if MatchData(name, zone).Some? {
      RecordNameOfMatch(name, zone);
    }
  }

  /** Each outcome of an update, decided by the packet's name and the stored version, and
      the table it leaves. */
  lemma UpdateDecides(db: Db, zid: nat, data: Data)
    requires UniqueSlots(db.rows) && zid in db.zones && UnderZone(data.name, db.zones[zid].name)
    ensures var (after, code) := AfterUpdate(db, zid, data);
            && (code == Ignored <==> |data.name| < |db.zones[zid].name| + 3)
            && (code != Updated ==> after == db)
  {
  }

  /** The same for a packet that is named after a record set of the zone. */
  lemma RecordUpdateDecides(db: Db, zid: nat, rrLabel: Name, typ: Component, version: Component, data: Data)
    requires UniqueSlots(db.rows) && zid in db.zones
    requires data.name == RecordName(db.zones[zid].name, rrLabel, typ, version)
    ensures UnderZone(data.name, db.zones[zid].name)
    ensures var (after, code) := AfterUpdate(db, zid, data);
            && (code == Refused <==>
                  exists r :: r in db.rows && At(r, zid, rrLabel, typ) && !ComponentLess(r.version, version))
            && (code == Updated <==>
                  forall r :: r in db.rows && At(r, zid, rrLabel, typ) ==> ComponentLess(r.version, version))
            && (code == Updated ==>
                  && after.zones == db.zones
                  && (forall r: Row :: !At(r, zid, rrLabel, typ) ==> (r in after.rows <==> r in db.rows))
                  && exists row ::
                       && (forall r :: r in after.rows && At(r, zid, rrLabel, typ) <==> r == row)
                       && row.version == version && row.data == data
                       && (forall r :: r in db.rows && At(r, zid, rrLabel, typ) ==> row.ttl == r.ttl)
                       && ((forall r :: r in db.rows ==> !At(r, zid, rrLabel, typ)) ==> row.ttl == db.zones[zid].ttl))
  {
    MatchRecordName(db.zones[zid].name, rrLabel, typ, version);
    var (after, code) := AfterUpdate(db, zid, data);
    if code == Updated {
      var row := Lookup(after.rows, zid, rrLabel, typ).value;
      assert forall r :: r in after.rows && At(r, zid, rrLabel, typ) <==> r == row;
    }
  }

  class NameServer {
    const db: DbMgr
    const zid: nat

    constructor (db: DbMgr, zid: nat)
      ensures this.db == db && this.zid == zid
    {
      this.db, this.zid := db, zid;
    }

    method Respond(interest: Name, m: Match, now: Component) returns (reply: Reply)
      requires UniqueSlots(db.rows)
      ensures reply == HandleQuery(db.rows, zid, interest, m, now)
    {
      var row := db.FindRow(zid, m.rrLabel, m.rrType);
      if row.Some? && (m.version.None? || m.version.value == row.value.version) {
        return Answer(row.value.data);
      }
      var doe := db.FindLowerBound(zid, DOE, m.rrLabel + [m.rrType]);
      if doe.None? {
        return Fault;
      }
      reply := Answer(Data(interest + [now], Nack, Nested(doe.value.data)));
    }

    method DoUpdate(data: Data) returns (code: UpdateCode)
      requires UniqueSlots(db.rows) && zid in db.zones && UnderZone(data.name, db.zones[zid].name)
      modifies db
      ensures (db.State(), code) == AfterUpdate(old(db.State()), zid, data)
    {
      var m := MatchData(data.name, db.zones[zid].name);
      if m.None? {
        return Ignored;
      }
      var (rrLabel, typ, version) := m.value;
      var row := db.FindRow(zid, rrLabel, typ);
      if row.None? {
        var _ := db.InsertRow(Row(zid, rrLabel, typ, version, db.zones[zid].ttl, data));
        return Updated;
      }
      if ComponentLess(row.value.version, version) {
        db.UpdateRow(row.value, version, data);
        return Updated;
      }
      code := Refused;
    }
  }

  // ---------- denial after updates ----------

  /** An update of any type but DOE, accepted by the zone it names. */
  ghost predicate PlainUpdate(db: Db, zid: nat, data: Data)
  {
    && zid in db.zones && UnderZone(data.name, db.zones[zid].name)
    && (MatchData(data.name, db.zones[zid].name).Some? ==> MatchData(data.name, db.zones[zid].name).value.1 != DOE)
  }

  ghost predicate UpdateRun(db: Db, ups: seq<(nat, Data)>, after: Db)
    decreases |ups|
  {
    if ups == [] then after == db
    else
      && PlainUpdate(db, ups[0].0, ups[0].1)
      && UpdateRun(AfterUpdate(db, ups[0].0, ups[0].1).0, ups[1..], after)
  }

  /** An update never rebuilds the chain, and never invalidates it. */
  lemma UpdateKeepsChain(db: Db, uid: nat, data: Data, zid: nat, zone: Name, base: seq<Slot>, now: Component)
    requires PlainUpdate(db, uid, data)
    requires ZoneChain.IsChain(db.rows, zid, zone, base, now)
    ensures ZoneChain.IsChain(AfterUpdate(db, uid, data).0.rows, zid, zone, base, now)
  {
  }

  /** After any sequence of such updates to any zones, a record set that is still
      absent is denied exactly as the chain allowed when it was built. */
  lemma {:induction false} DenialSurvivesUpdates(db: Db, ups: seq<(nat, Data)>, after: Db,
                                                 zid: nat, zone: Name, base: seq<Slot>, now: Component, s: Slot)
    requires UpdateRun(db, ups, after)
    requires ZoneChain.IsChain(db.rows, zid, zone, base, now)
    requires Lookup(after.rows, zid, s.rrLabel, s.typ).None?
    ensures LowerBound(after.rows, zid, DOE, KeyOf(s)).Some?
    ensures ZoneChain.Accepts(LowerBound(after.rows, zid, DOE, KeyOf(s)).value.data, KeyOf(s)) <==>
            Chain.DenialWorks(Chain.KeysOf(base), KeyOf(s))
    decreases |ups|
  {
    if ups == [] {
      ZoneChain.DenialOfAbsentSlot(db.rows, zid, zone, base, now, s);
    } else {
      UpdateKeepsChain(db, ups[0].0, ups[0].1, zid, zone, base, now);
      DenialSurvivesUpdates(AfterUpdate(db, ups[0].0, ups[0].1).0, ups[1..], after, zid, zone, base, now, s);
    }
  }
}
