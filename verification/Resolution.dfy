/** Resolution over a world of zones: every run ends at the one zone that the
    delegations lead to, within a bounded number of queries, cache or no cache. */
module Resolution {
  import opened Tlv
  import opened Names
  import opened Records
  import opened Management
  import opened Server
  import opened Delegation
  import opened Resolver
  import Chain
  import Database
  import ZoneChain

  // ---------- the world ----------

  /** The table rows from which a zone's server answers. */
  datatype Site = Site(zid: nat, rows: set<Row>)
  type World = map<Name, Site>

  ghost function RowAt(w: World, zone: Name, rrLabel: Name, typ: Component): Option<Row>
    requires zone in w
  {
    Database.Lookup(w[zone].rows, w[zone].zid, rrLabel, typ)
  }

  ghost predicate LinkAt(w: World, zone: Name, rrLabel: Name)
  {
    zone in w && RowAt(w, zone, rrLabel, NS).Some? && RowAt(w, zone, rrLabel, NS).value.data.contentType == Link
  }

  /** A zone whose records are named after it, hold no NACK packets, delegate in the
      way the tools keep, and deny whatever is absent. */
  ghost predicate SiteOk(zone: Name, s: Site)
  {
    && Database.UniqueSlots(s.rows) && Named(s.rows, s.zid, zone)
    && (forall r :: r in s.rows && r.zoneId == s.zid ==> r.data.contentType != Nack)
    && (forall r :: r in s.rows && r.zoneId == s.zid && r.typ == NS ==> r.data.contentType == Auth || IsLink(r.data))
    && (forall r :: r in s.rows && r.zoneId == s.zid && r.typ == NS ==> Marked(s.rows, s.zid, r.rrLabel))
    && ZoneChain.DeniesAbsent(s.rows, s.zid)
  }

  ghost predicate WorldOk(w: World)
  {
    && (forall z :: z in w ==> SiteOk(z, w[z]))
    && (forall z, l :: LinkAt(w, z, l) ==> z + l in w)
  }

  /** What the network brings back for a question: the reply of the zone's server, or nothing. */
  ghost function Serve(w: World, q: Question, now: Component): Option<Data>
  {
    if q.zone !in w || !MatchDefined(QueryName(q), q.zone) then None else
    match MatchInterest(QueryName(q), q.zone)
    case None => None
    case Some(m) =>
      if m.rrType == UPDATE_LABEL then None else
      match HandleQuery(w[q.zone].rows, w[q.zone].zid, QueryName(q), m, now)
      case Fault => None
      case Answer(data) => Some(data)
  }

  predicate Askable(typ: Component)
  {
    !IsVersion(typ) && typ != UPDATE_LABEL
  }

  /** The record a question asks for, or the packet that denies it. */
  ghost predicate Settles(w: World, q: Question, data: Data)
    requires q.zone in w
  {
    && UnderZone(data.name, q.zone)
    && match RowAt(w, q.zone, q.rrLabel, q.rrType) {
         case Some(r) => data == r.data
         case None => ZoneChain.Accepts(data, KeyOf(Slot(q.rrLabel, q.rrType)))
       }
  }

  /** In a good world every askable question to an existing zone is answered. */
  lemma ServeSettles(w: World, q: Question, now: Component)
    requires WorldOk(w) && q.zone in w && Askable(q.rrType)
    ensures Serve(w, q, now).Some?
    ensures var data := Serve(w, q, now).value;
            && Settles(w, q, Unwrapped(data))
            && (RowAt(w, q.zone, q.rrLabel, q.rrType).Some? ==>
                  data == RowAt(w, q.zone, q.rrLabel, q.rrType).value.data && data.contentType != Nack)
            && (RowAt(w, q.zone, q.rrLabel, q.rrType).None? ==>
                  data.contentType == Nack && data.content.Nested?)
  {
    hide Chain.AbsentByRange, IsLink, Marked;
    MatchQueryName(q);
    var site, s := w[q.zone], Slot(q.rrLabel, q.rrType);
    var row := RowAt(w, q.zone, q.rrLabel, q.rrType);
    if row.Some? {
      MatchRecordName(q.zone, q.rrLabel, q.rrType, row.value.version);
    } else {
      assert KeyOf(s) == KeyOf(s);
      var doe := Database.LowerBound(site.rows, site.zid, DOE, KeyOf(s)).value;
      MatchRecordName(q.zone, doe.rrLabel, doe.typ, doe.version);
    }
  }

  // ---------- specification: follow the delegations ----------

  /** Delegations at the full label are not followed when the goal is an NS record. */
  function Limit(goal: Goal): int
  {
    if goal.rrType == NS then |goal.dst| - 1 else |goal.dst|
  }

  /** The zone at prefix f of the goal's label delegates to the zone at prefix g. */
  ghost predicate Hop(w: World, goal: Goal, f: nat, g: nat)
  {
    f < g <= |goal.dst| && g <= Limit(goal) && LinkAt(w, goal.dst[..f], goal.dst[f..g])
  }

  ghost predicate Path(w: World, goal: Goal, p: seq<nat>)
  {
    p != [] && forall i :: 0 <= i < |p| - 1 ==> Hop(w, goal, p[i], p[i + 1])
  }

  ghost predicate NoHop(w: World, goal: Goal, d: nat)
  {
    forall g :: !Hop(w, goal, d, g)
  }

  /** From prefix s the delegations lead to prefix d and no further. */
  ghost predicate Deepest(w: World, goal: Goal, s: nat, d: nat)
  {
    && (exists p :: Path(w, goal, p) && p[0] == s && p[|p| - 1] == d)
    && NoHop(w, goal, d)
  }

  lemma HopUnique(w: World, goal: Goal, f: nat, g: nat, h: nat)
    requires WorldOk(w) && Hop(w, goal, f, g) && Hop(w, goal, f, h)
    ensures g == h
  {
    hide WorldOk;
    if g < h {
      NoHopBelowLink(w, goal, f, g, h);
    } else if h < g {
      NoHopBelowLink(w, goal, f, h, g);
    }
  }

  lemma NoHopBelowLink(w: World, goal: Goal, f: nat, g: nat, h: nat)
    requires WorldOk(w) && f < g < h <= |goal.dst| && LinkAt(w, goal.dst[..f], goal.dst[f..h])
    ensures !LinkAt(w, goal.dst[..f], goal.dst[f..g])
    ensures RowAt(w, goal.dst[..f], goal.dst[f..g], NS).Some?
  {
    hide ZoneChain.DeniesAbsent, Named, IsLink;
    var zone, far := goal.dst[..f], goal.dst[f..h];
    assert SiteOk(zone, w[zone]);
    assert far[..g - f] == goal.dst[f..g];
    var r := RowAt(w, zone, far, NS).value;
    assert NsAt(w[zone].rows, w[zone].zid, r.rrLabel[..g - f], Auth);
  }

  /** There is at most one place where the delegations end. */
  lemma {:induction false} DeepestUnique(w: World, goal: Goal, p: seq<nat>, q: seq<nat>)
    requires WorldOk(w) && Path(w, goal, p) && Path(w, goal, q) && p[0] == q[0]
    requires NoHop(w, goal, p[|p| - 1])
    requires NoHop(w, goal, q[|q| - 1])
    ensures p[|p| - 1] == q[|q| - 1]
    decreases |p|
  {
    hide WorldOk, Hop;
    assert |p| > 1 ==> Hop(w, goal, p[0], p[1]);
    assert |q| > 1 ==> Hop(w, goal, q[0], q[1]);
    if |p| > 1 && |q| > 1 {
      HopUnique(w, goal, p[0], p[1], q[1]);
      DeepestUnique(w, goal, p[1..], q[1..]);
    }
  }

  lemma DeepestIsUnique(w: World, goal: Goal, s: nat, d: nat, e: nat)
    requires WorldOk(w) && Deepest(w, goal, s, d) && Deepest(w, goal, s, e)
    ensures d == e
  {
    hide WorldOk;
    var p :| Path(w, goal, p) && p[0] == s && p[|p| - 1] == d;
    var q :| Path(w, goal, q) && q[0] == s && q[|q| - 1] == e;
    DeepestUnique(w, goal, p, q);
  }

  // ---------- runs ----------

  /** How a run ends, and after how many queries. `Repeating` is the endless
      repetition of one query after a packet of an unexpected type. */
  datatype Outcome =
    | Ended(ctl: Ctl, event: Event, queries: nat)
    | Unanswered
    | Repeating

  /** The rest of the run whose outstanding query is that of `ctl`. */
  ghost function Resolve(w: World, now: Component, goal: Goal, ctl: Ctl): Outcome
    requires Inv(goal, ctl) && Waiting(ctl)
    decreases Remaining(goal, ctl)
  {
    match Serve(w, QuestionOf(goal, ctl), now)
    case None => Unanswered
    case Some(data) =>
      var (next, ev) := HandleData(goal, ctl, data);
      ReactKeepsInv(goal, ctl, Got(data, true));
      if !ev.Send? then Ended(next, ev, 1)
      else if Remaining(goal, next) >= Remaining(goal, ctl) then Repeating
      else OneMore(Resolve(w, now, goal, next))
  }

  function OneMore(out: Outcome): Outcome
  {
    if out.Ended? then out.(queries := out.queries + 1) else out
  }

  /** One reply's worth of a run. */
  lemma ResolveUnfolds(w: World, now: Component, goal: Goal, ctl: Ctl, data: Data)
    requires Inv(goal, ctl) && Waiting(ctl) && Serve(w, QuestionOf(goal, ctl), now) == Some(data)
    requires Expected(data) || ctl.step == QueryRr
    ensures var (next, ev) := HandleData(goal, ctl, data);
            && Inv(goal, next)
            && (!ev.Send? ==> Resolve(w, now, goal, ctl) == Ended(next, ev, 1))
            && (ev.Send? ==>
                  && Waiting(next) && Remaining(goal, next) < Remaining(goal, ctl)
                  && Resolve(w, now, goal, ctl) == OneMore(Resolve(w, now, goal, next)))
  {
    ReactKeepsInv(goal, ctl, Got(data, true));
    if HandleData(goal, ctl, data).1.Send? {
      Progress(goal, ctl, data);
    }
  }

  /** Replies to NS questions are delegations, AUTH records or denials. */
  ghost predicate NsExpected(w: World, now: Component)
  {
    forall q: Question :: q.rrType == NS && Serve(w, q, now).Some? ==> Expected(Serve(w, q, now).value)
  }

  /** In any such world a run never repeats a query for ever: it stops without an answer
      or ends, and then has sent at most as many queries as remained at its start. */
  lemma {:induction false} BoundedTermination(w: World, now: Component, goal: Goal, ctl: Ctl)
    requires NsExpected(w, now)
    requires Inv(goal, ctl) && Waiting(ctl)
    ensures !Resolve(w, now, goal, ctl).Repeating?
    ensures Resolve(w, now, goal, ctl).Ended? ==> Resolve(w, now, goal, ctl).queries <= Remaining(goal, ctl)
    decreases Remaining(goal, ctl)
  {
    var reply := Serve(w, QuestionOf(goal, ctl), now);
    if reply.Some? {
      ResolveUnfolds(w, now, goal, ctl, reply.value);
      var (next, ev) := HandleData(goal, ctl, reply.value);
      if ev.Send? {
        BoundedTermination(w, now, goal, next);
      }
    }
  }

  /** The answer that the specification asks for: the run ends at the deepest zone
      with what that zone has for the rest of the label, after no more queries than allowed. */
  ghost predicate Solved(w: World, goal: Goal, s: nat, d: nat, bound: nat, out: Outcome)
  {
    && out.Ended? && out.queries <= bound
    && out.ctl.step == AnswerStub && out.ctl.nFinished == d <= |goal.dst|
    && out.event.Success? && out.event.zone == goal.dst[..d]
    && Deepest(w, goal, s, d)
    && goal.dst[..d] in w
    && Settles(w, Question(goal.dst[..d], goal.dst[d..], goal.rrType), out.event.data)
  }

  lemma AskRr(w: World, now: Component, goal: Goal, ctl: Ctl)
    requires WorldOk(w) && Inv(goal, ctl) && ctl.step == QueryRr && Askable(goal.rrType)
    requires goal.dst[..ctl.nFinished] in w
    requires NoHop(w, goal, ctl.nFinished)
    ensures Solved(w, goal, ctl.nFinished, ctl.nFinished, 1, Resolve(w, now, goal, ctl))
  {
    var d := ctl.nFinished;
    var q := QuestionOf(goal, ctl);
    assert q == Question(goal.dst[..d], goal.dst[d..], goal.rrType) by {
      assert goal.dst[..|goal.dst|] == goal.dst && goal.dst[|goal.dst|..] == [];
    }
    ServeSettles(w, q, now);
    var data := Serve(w, q, now).value;
    ResolveUnfolds(w, now, goal, ctl, data);
    assert HandleData(goal, ctl, data) == (ctl.(step := AnswerStub), Success(Unwrapped(data), goal.dst[..d])) by {
      assert Prefix(goal.dst, d) == goal.dst[..d];
    }
    NoFurther(w, goal, d);
  }

  lemma NoFurther(w: World, goal: Goal, d: nat)
    requires NoHop(w, goal, d)
    ensures Deepest(w, goal, d, d)
  {
    assert Path(w, goal, [d]) && [d][0] == d;
  }

  /** The state of a run that is walking down the label inside one zone. */
  ghost predicate Walking(w: World, goal: Goal, ctl: Ctl)
  {
    && Inv(goal, ctl) && ctl.step == QueryNs
    && goal.dst[..ctl.nFinished] in w
    && forall g :: ctl.nFinished < g < ctl.nFinished + ctl.nTry ==> !LinkAt(w, goal.dst[..ctl.nFinished], goal.dst[ctl.nFinished..g])
  }

  /** Extends a solution from the zone a delegation leads to back to the delegating zone. */
  lemma SolvedBackOneHop(w: World, goal: Goal, f: nat, g: nat, d: nat, n: nat, out: Outcome)
    requires Hop(w, goal, f, g) && Solved(w, goal, g, d, n, out)
    ensures Solved(w, goal, f, d, n + 1, OneMore(out))
  {
    hide Settles, LinkAt;
    var p :| Path(w, goal, p) && p[0] == g && p[|p| - 1] == d;
    var p' := [f] + p;
    forall i | 0 <= i < |p'| - 1
      ensures Hop(w, goal, p'[i], p'[i + 1])
    {
      if i > 0 {
        assert p'[i] == p[i - 1] && p'[i + 1] == p[i];
      }
    }
    assert Path(w, goal, p') && p'[0] == f && p'[|p'| - 1] == d;
  }

  /** No NS row at some prefix means no delegation at or below it. */
  lemma AbsentMeansNoHop(w: World, goal: Goal, f: nat, t: nat)
    requires WorldOk(w) && 1 <= t && f + t <= |goal.dst| && goal.dst[..f] in w
    requires forall g :: f < g < f + t ==> !LinkAt(w, goal.dst[..f], goal.dst[f..g])
    requires RowAt(w, goal.dst[..f], goal.dst[f..f + t], NS).None?
    ensures NoHop(w, goal, f)
  {
    hide WorldOk, RowAt;
    forall g | f < g <= |goal.dst|
      ensures !LinkAt(w, goal.dst[..f], goal.dst[f..g])
    {
      if g > f + t && LinkAt(w, goal.dst[..f], goal.dst[f..g]) {
        NoHopBelowLink(w, goal, f, f + t, g);
      }
    }
  }

  lemma NotTypes()
    ensures Askable(NS)
  {
  }

  /** The three replies a walking run can get, and where they take it. */
  lemma WalkStep(w: World, now: Component, goal: Goal, ctl: Ctl) returns (data: Data, row: Option<Row>)
    requires WorldOk(w) && Walking(w, goal, ctl)
    ensures var zone, rrLabel := goal.dst[..ctl.nFinished], goal.dst[ctl.nFinished..ctl.nFinished + ctl.nTry];
            && QuestionOf(goal, ctl) == Question(zone, rrLabel, NS)
            && Serve(w, QuestionOf(goal, ctl), now) == Some(data)
            && row == RowAt(w, zone, rrLabel, NS)
            && (row.Some? ==> data == row.value.data && (data.contentType == Auth || IsLink(data)))
            && (row.None? ==> data.contentType == Nack && data.content.Nested? && ZoneChain.Accepts(data.content.inner, ctl.lastLabelType))
            && Settles(w, QuestionOf(goal, ctl), Unwrapped(data))
  {
    hide ZoneChain.DeniesAbsent, Named, Serve;
    var f, t := ctl.nFinished, ctl.nTry;
    var q := QuestionOf(goal, ctl);
    assert q == Question(goal.dst[..f], goal.dst[f..f + t], NS) by {
      assert goal.dst[..|goal.dst|] == goal.dst;
    }
    NotTypes();
    ServeSettles(w, q, now);
    data := Serve(w, q, now).value;
    row := RowAt(w, q.zone, q.rrLabel, NS);
    assert SiteOk(q.zone, w[q.zone]);
  }

  /** A run that ends on an NS reply for the whole rest of the label. */
  lemma EndsOnNs(w: World, goal: Goal, ctl: Ctl, out: Outcome, row: Row)
    requires WorldOk(w) && Walking(w, goal, ctl) && goal.rrType == NS
    requires ctl.nFinished + ctl.nTry == |goal.dst|
    requires RowAt(w, goal.dst[..ctl.nFinished], goal.dst[ctl.nFinished..], NS) == Some(row)
    requires out.Ended? && out.queries == 1 && out.ctl.step == AnswerStub && out.ctl.nFinished == ctl.nFinished
    requires out.event == Success(row.data, goal.dst[..ctl.nFinished])
    ensures Solved(w, goal, ctl.nFinished, ctl.nFinished, 1, out)
  {
    var f := ctl.nFinished;
    NoFurther(w, goal, f);
    MatchRecordName(goal.dst[..f], goal.dst[f..], NS, row.version);
    assert SiteOk(goal.dst[..f], w[goal.dst[..f]]);
  }

  /** A denied prefix: nothing is delegated from here on, so the record is asked for. */
  lemma AfterNack(w: World, now: Component, goal: Goal, ctl: Ctl, data: Data)
    requires WorldOk(w) && Walking(w, goal, ctl) && Askable(goal.rrType)
    requires RowAt(w, goal.dst[..ctl.nFinished], goal.dst[ctl.nFinished..ctl.nFinished + ctl.nTry], NS).None?
    requires Serve(w, QuestionOf(goal, ctl), now) == Some(data)
    requires data.contentType == Nack && data.content.Nested? && ZoneChain.Accepts(data.content.inner, ctl.lastLabelType)
    ensures Solved(w, goal, ctl.nFinished, ctl.nFinished, Remaining(goal, ctl), Resolve(w, now, goal, ctl))
  {
    hide WorldOk, Serve, Resolve, Settles;
    ResolveUnfolds(w, now, goal, ctl, data);
    var next := HandleData(goal, ctl, data).0;
    assert next.step == QueryRr && next.nFinished == ctl.nFinished;
    AbsentMeansNoHop(w, goal, ctl.nFinished, ctl.nTry);
    AskRr(w, now, goal, next);
  }

  /** Resolution refines its specification from every walking state. */
  lemma {:induction false} WalkSolves(w: World, now: Component, goal: Goal, ctl: Ctl) returns (d: nat)
    requires WorldOk(w) && Walking(w, goal, ctl) && Askable(goal.rrType)
    ensures Solved(w, goal, ctl.nFinished, d, Remaining(goal, ctl), Resolve(w, now, goal, ctl))
    decreases Remaining(goal, ctl), 2
  {
    var data, row := WalkStep(w, now, goal, ctl);
    if row.None? {
      AfterNack(w, now, goal, ctl, data);
      d := ctl.nFinished;
    } else if data.contentType == Link {
      d := AfterLink(w, now, goal, ctl, row.value);
    } else {
      d := AfterAuth(w, now, goal, ctl, row.value);
    }
  }

  /** A delegation: the run goes on in the zone it names, or ends if it is the goal. */
  lemma {:induction false} AfterLink(w: World, now: Component, goal: Goal, ctl: Ctl, row: Row) returns (d: nat)
    requires WorldOk(w) && Walking(w, goal, ctl) && Askable(goal.rrType)
    requires RowAt(w, goal.dst[..ctl.nFinished], goal.dst[ctl.nFinished..ctl.nFinished + ctl.nTry], NS) == Some(row)
    requires Serve(w, QuestionOf(goal, ctl), now) == Some(row.data) && IsLink(row.data)
    ensures Solved(w, goal, ctl.nFinished, d, Remaining(goal, ctl), Resolve(w, now, goal, ctl))
    decreases Remaining(goal, ctl), 1
  {
    hide WorldOk, Serve, HandleData, Resolve, Settles;
    var f, g := ctl.nFinished, ctl.nFinished + ctl.nTry;
    ResolveUnfolds(w, now, goal, ctl, row.data);
    LinkDecides(goal, ctl, row.data);
    var next := HandleData(goal, ctl, row.data).0;
    if g == |goal.dst| && goal.rrType == NS {
      LastLabel(goal, f, g);
      EndsOnNs(w, goal, ctl, Resolve(w, now, goal, ctl), row);
      d := f;
    } else {
      IsHop(w, goal, f, g, row);
      d := InNextZone(w, now, goal, f, g, next, Remaining(goal, ctl));
      SolvedBackOneHop(w, goal, f, g, d, Remaining(goal, next), Resolve(w, now, goal, next));
    }
  }

  lemma IsHop(w: World, goal: Goal, f: nat, g: nat, row: Row)
    requires f < g <= |goal.dst| && goal.dst[..f] in w && (g < |goal.dst| || goal.rrType != NS)
    requires RowAt(w, goal.dst[..f], goal.dst[f..g], NS) == Some(row) && row.data.contentType == Link
    ensures Hop(w, goal, f, g)
  {
  }

  lemma {:induction false} InNextZone(w: World, now: Component, goal: Goal, f: nat, g: nat, next: Ctl, above: nat) returns (d: nat)
    requires WorldOk(w) && Askable(goal.rrType)
    requires Inv(goal, next) && Hop(w, goal, f, g) && next.nFinished == g && next.nTry == 1
    requires next.step == (if g == |goal.dst| then QueryRr else QueryNs)
    requires Remaining(goal, next) < above
    ensures Solved(w, goal, g, d, Remaining(goal, next), Resolve(w, now, goal, next))
    decreases above, 0
  {
    assert goal.dst[..f] + goal.dst[f..g] == goal.dst[..g];
    if g == |goal.dst| {
      assert NoHop(w, goal, g);
      AskRr(w, now, goal, next);
      d := g;
    } else {
      d := WalkSolves(w, now, goal, next);
    }
  }

  /** An AUTH record: one more component in the same zone, until the label ends. */
  lemma {:induction false} AfterAuth(w: World, now: Component, goal: Goal, ctl: Ctl, row: Row) returns (d: nat)
    requires WorldOk(w) && Walking(w, goal, ctl) && Askable(goal.rrType)
    requires RowAt(w, goal.dst[..ctl.nFinished], goal.dst[ctl.nFinished..ctl.nFinished + ctl.nTry], NS) == Some(row)
    requires Serve(w, QuestionOf(goal, ctl), now) == Some(row.data) && row.data.contentType == Auth
    ensures Solved(w, goal, ctl.nFinished, d, Remaining(goal, ctl), Resolve(w, now, goal, ctl))
    decreases Remaining(goal, ctl), 1
  {
    hide WorldOk, Serve, HandleData, Resolve, Settles;
    var f, g := ctl.nFinished, ctl.nFinished + ctl.nTry;
    ResolveUnfolds(w, now, goal, ctl, row.data);
    AuthDecides(goal, ctl, row.data);
    var next := HandleData(goal, ctl, row.data).0;
    WalksOn(w, goal, ctl, next, row);
    d := f;
    if g < |goal.dst| {
      d := WalkSolves(w, now, goal, next);
    } else if goal.rrType == NS {
      LastLabel(goal, f, g);
      EndsOnNs(w, goal, ctl, Resolve(w, now, goal, ctl), row);
    } else {
      AskRr(w, now, goal, next);
    }
  }

  lemma LastLabel(goal: Goal, f: nat, g: nat)
    requires f <= g == |goal.dst|
    ensures goal.dst[f..g] == goal.dst[f..] && Prefix(goal.dst, f) == goal.dst[..f]
  {
  }

  /** An AUTH record is no delegation: the walk goes on, or nothing is delegated here. */
  lemma WalksOn(w: World, goal: Goal, ctl: Ctl, next: Ctl, row: Row)
    requires Walking(w, goal, ctl) && Inv(goal, next) && next.nFinished == ctl.nFinished
    requires RowAt(w, goal.dst[..ctl.nFinished], goal.dst[ctl.nFinished..ctl.nFinished + ctl.nTry], NS) == Some(row)
    requires row.data.contentType == Auth
    ensures next.step == QueryNs && next.nTry == ctl.nTry + 1 ==> Walking(w, goal, next)
    ensures ctl.nFinished + ctl.nTry == |goal.dst| ==> NoHop(w, goal, ctl.nFinished)
  {
    var f, g := ctl.nFinished, ctl.nFinished + ctl.nTry;
    assert !LinkAt(w, goal.dst[..f], goal.dst[f..g]);
    assert forall h :: f < h <= g ==> !LinkAt(w, goal.dst[..f], goal.dst[f..h]);
  }

  /** The main theorem. From any existing start zone the run ends in ANSWER_STUB at
      the deepest zone that the delegations reach, with that zone's record for the
      rest of the label or a denial of it, after at most N - s + 1 queries. */
  lemma ResolutionCorrect(w: World, now: Component, goal: Goal, s: nat) returns (d: nat)
    requires WorldOk(w) && Askable(goal.rrType)
    requires s <= |goal.dst| && goal.dst[..s] in w
    ensures Inv(goal, Start(goal, s).0) && Waiting(Start(goal, s).0)
    ensures Solved(w, goal, s, d, |goal.dst| - s + 1, Resolve(w, now, goal, Start(goal, s).0))
  {
    StartInv(goal, s);
    var ctl := Start(goal, s).0;
    if s == |goal.dst| {
      AskRr(w, now, goal, ctl);
      d := s;
    } else {
      d := WalkSolves(w, now, goal, ctl);
    }
  }
}
