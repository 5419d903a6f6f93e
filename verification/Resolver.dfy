/** The iterative resolver: its transitions as functions, what holds whatever
    replies it gets, and the controller class with its delegation cache. */
module Resolver {
  import opened Tlv
  import opened Names
  import opened Records
  import opened Server
  import Chain

  datatype Step = QueryNs | QueryRr | AnswerStub | Abort

  /** The label and type to resolve. */
  datatype Goal = Goal(dst: Name, rrType: Component)

  datatype Ctl = Ctl(step: Step, nFinished: nat, nTry: nat, lastLink: Option<Data>, lastLabelType: Name)

  /** What a call of the controller leads to: a query sent out, the success
      callback, the failure callback, or an exception. */
  datatype Event = Send(query: Query) | Success(data: Data, zone: Name) | Failure | Threw

  predicate Waiting(ctl: Ctl)
  {
    ctl.step == QueryNs || ctl.step == QueryRr
  }

  // ---------- transitions ----------

  function QuestionOf(goal: Goal, ctl: Ctl): Question
  {
    var zone := Prefix(goal.dst, ctl.nFinished);
    if ctl.step == QueryNs then Question(zone, SubName(goal.dst, ctl.nFinished, ctl.nTry), NS)
    else Question(zone, SubName(goal.dst, ctl.nFinished, |goal.dst|), goal.rrType)
  }

  function HintOf(ctl: Ctl): seq<Name>
  {
    if ctl.lastLink.Some? && ctl.lastLink.value.content.Delegations? then ctl.lastLink.value.content.names else []
  }

  /** makeLatestInterest: the query for the current state, remembered for the next denial. */
  function Ask(goal: Goal, ctl: Ctl): (Ctl, Event)
  {
    var q := QuestionOf(goal, ctl);
    (ctl.(lastLabelType := q.rrLabel + [q.rrType]), Send(Query(q, NDNS_QUERY, HintOf(ctl))))
  }

  function Start(goal: Goal, s: nat): (Ctl, Event)
  {
    Ask(goal, Ctl(if |goal.dst| == s then QueryRr else QueryNs, s, 1, None, []))
  }

  /** The QUERY_NS branch; None is an exception. */
  function NsTransition(goal: Goal, ctl: Ctl, data: Data, ct: ContentType): Option<Ctl>
  {
    if ct == Doe then
      if data.content.Range? && Chain.AbsentByRange((data.content.lower, data.content.upper), ctl.lastLabelType)
      then Some(ctl.(step := QueryRr)) else None
    else if ct == Link then
      if !data.content.Delegations? then None else
      var linked := ctl.(lastLink := if data.content.names == [] then None else Some(data));
      if ctl.nFinished + ctl.nTry == |goal.dst| && goal.rrType == NS then Some(linked.(step := AnswerStub))
      else Some(linked.(nFinished := ctl.nFinished + ctl.nTry, nTry := 1))
    else if ct == Auth then Some(ctl.(nTry := ctl.nTry + 1))
    else Some(ctl)
  }

  function PastEnd(goal: Goal, ctl: Ctl): Ctl
  {
    if ctl.nFinished + ctl.nTry > |goal.dst|
    then ctl.(step := if goal.rrType == NS then AnswerStub else QueryRr) else ctl
  }

  function HandleValidated(goal: Goal, ctl: Ctl, data: Data, ct: ContentType): (Ctl, Event)
  {
    match ctl.step
    case QueryNs =>
      (match NsTransition(goal, ctl, data, ct)
       case None => (ctl, Threw)
       case Some(moved) =>
         var next := PastEnd(goal, moved);
         if Waiting(next) then Ask(goal, next) else (next, Success(data, Prefix(goal.dst, next.nFinished))))
    case QueryRr => (ctl.(step := AnswerStub), Success(data, Prefix(goal.dst, ctl.nFinished)))
    case _ => (ctl.(step := Abort), Failure)
  }

  /** A NACK is replaced by the DoE record it carries. */
  function HandleData(goal: Goal, ctl: Ctl, data: Data): (Ctl, Event)
  {
    if data.contentType == Nack then
      if data.content.Nested? then HandleValidated(goal, ctl, data.content.inner, Doe) else (ctl, Threw)
    else HandleValidated(goal, ctl, data, data.contentType)
  }

  // ---------- what holds whatever the replies are ----------

  /** A reply: a packet with the validator's verdict, or none. */
  datatype Input = Got(data: Data, valid: bool) | TimedOut

  function React(goal: Goal, ctl: Ctl, input: Input): (Ctl, Event)
  {
    match input
    case Got(data, valid) =>
      if valid then HandleData(goal, ctl, data)
      else if data.contentType == Nack && !data.content.Nested? then (ctl, Threw)
      else (ctl, Failure)
    case TimedOut => (ctl, Failure)
  }

  predicate Inv(goal: Goal, ctl: Ctl)
  {
    && ctl.nFinished <= |goal.dst|
    && (ctl.step == QueryNs ==> ctl.nTry >= 1 && ctl.nFinished + ctl.nTry <= |goal.dst|)
    && (ctl.lastLink.Some? ==> ctl.lastLink.value.content.Delegations? && ctl.lastLink.value.content.names != [])
    && (Waiting(ctl) ==> var q := QuestionOf(goal, ctl); ctl.lastLabelType == q.rrLabel + [q.rrType])
  }

  lemma StartInv(goal: Goal, s: nat)
    requires s <= |goal.dst|
    ensures Inv(goal, Start(goal, s).0) && Waiting(Start(goal, s).0)
    ensures Start(goal, s).1 == Send(Query(QuestionOf(goal, Start(goal, s).0), NDNS_QUERY, []))
  {
  }

  /** Whatever arrives, the counters stay within the label, and what is sent is the query of the new state. */
  lemma ReactKeepsInv(goal: Goal, ctl: Ctl, input: Input)
    requires Inv(goal, ctl)
    ensures Inv(goal, React(goal, ctl, input).0)
    ensures var (next, ev) := React(goal, ctl, input);
            ev.Send? ==> Waiting(next) && ev.query == Query(QuestionOf(goal, next), NDNS_QUERY, HintOf(next))
  {
    hide HandleValidated, Inv, QuestionOf, HintOf;
    if input.Got? {
      var data := input.data;
      ValidatedKeepsInv(goal, ctl, data, data.contentType);
      if data.content.Nested? {
        ValidatedKeepsInv(goal, ctl, data.content.inner, Doe);
      }
    }
  }

  lemma ValidatedKeepsInv(goal: Goal, ctl: Ctl, data: Data, ct: ContentType)
    requires Inv(goal, ctl)
    ensures var (next, ev) := HandleValidated(goal, ctl, data, ct);
            && Inv(goal, next)
            && (ev.Send? ==> Waiting(next) && ev.query == Query(QuestionOf(goal, next), NDNS_QUERY, HintOf(next)))
  {
    hide Chain.AbsentByRange;
  }

  /** Whatever arrives, an answer is parsed with the zone that was last asked. */
  lemma ParsedInAskedZone(goal: Goal, ctl: Ctl, input: Input)
    requires Inv(goal, ctl)
    ensures var (next, ev) := React(goal, ctl, input);
            ev.Success? ==> Waiting(ctl) && next.step == AnswerStub && ev.zone == QuestionOf(goal, ctl).zone
  {
    hide Chain.AbsentByRange;
  }

  /** The events of a run over any sequence of replies. */
  function Events(goal: Goal, ctl: Ctl, inputs: seq<Input>): (evs: seq<Event>)
    ensures |evs| == |inputs|
    decreases |inputs|
  {
    if inputs == [] then [] else
    var (next, ev) := React(goal, ctl, inputs[0]);
    [ev] + Events(goal, next, inputs[1..])
  }

  lemma {:induction false} NoSuccessAfterEnd(goal: Goal, ctl: Ctl, inputs: seq<Input>, i: nat)
    requires !Waiting(ctl) && i < |inputs|
    ensures !Events(goal, ctl, inputs)[i].Success?
    decreases |inputs|
  {
    if i > 0 {
      NoSuccessAfterEnd(goal, React(goal, ctl, inputs[0]).0, inputs[1..], i - 1);
    }
  }

  /** The success callback fires at most once, whatever arrives and however late. */
  lemma {:induction false} AtMostOneSuccess(goal: Goal, ctl: Ctl, inputs: seq<Input>, i: nat, j: nat)
    requires i < j < |inputs|
    ensures !(Events(goal, ctl, inputs)[i].Success? && Events(goal, ctl, inputs)[j].Success?)
    decreases i
  {
    var (next, ev) := React(goal, ctl, inputs[0]);
    if i > 0 {
      AtMostOneSuccess(goal, next, inputs[1..], i - 1, j - 1);
    } else if ev.Success? {
      NoSuccessAfterEnd(goal, next, inputs[1..], j - 1);
    }
  }

  /** The replies that an NS query can lead to in a zone as the tools keep it. */
  predicate Expected(data: Data)
  {
    data.contentType in {Link, Auth, Nack, Doe}
  }

  // ---------- what each reply leads to ----------

  /** A NACK without a packet inside. */
  predicate Malformed(data: Data)
  {
    data.contentType == Nack && !data.content.Nested?
  }

  /** The packet that the client looks at: the one inside a NACK, or the packet itself. */
  function Unwrapped(data: Data): Data
  {
    if data.contentType == Nack && data.content.Nested? then data.content.inner else data
  }

  /** The packet's range denies the name: strictly inside if the ends are in order, any
      name if they are inverted. */
  predicate Denies(doe: Data, q: Name)
  {
    doe.content.Range? &&
    var lower, upper := doe.content.lower, doe.content.upper;
    || (NameLess(lower, upper) && NameLess(lower, q) && NameLess(q, upper))
    || NameLess(upper, lower)
  }

  /** The client's check of a denial, in every zone and at every point of the walk: the
      record is asked for only if the range denies what was asked; else the client throws. */
  lemma DenialDecides(goal: Goal, ctl: Ctl, data: Data)
    requires Inv(goal, ctl) && ctl.step == QueryNs
    requires !Malformed(data) && data.contentType in {Nack, Doe}
    ensures var q, f := QuestionOf(goal, ctl), ctl.nFinished;
            var (next, ev) := HandleData(goal, ctl, data);
            if Denies(Unwrapped(data), KeyOf(Slot(q.rrLabel, q.rrType))) then
              && next.step == QueryRr && next.nFinished == f && next.lastLink == ctl.lastLink
              && ev == Send(Query(Question(goal.dst[..f], goal.dst[f..], goal.rrType), NDNS_QUERY, HintOf(ctl)))
            else (next, ev) == (ctl, Threw)
  {
    hide Chain.AbsentByRange;
    var doe := Unwrapped(data);
    if doe.content.Range? {
      var range := (doe.content.lower, doe.content.upper);
      Chain.AbsentByRangeMeaning(range, ctl.lastLabelType);
      NameLessTotal(range.0, range.1);
    }
  }

  /** A delegation takes the walk into the zone it names, with its names as the hint, or
      is the answer if it is the NS record asked for. */
  lemma LinkDecides(goal: Goal, ctl: Ctl, data: Data)
    requires Inv(goal, ctl) && ctl.step == QueryNs && data.contentType == Link
    ensures var f, g := ctl.nFinished, ctl.nFinished + ctl.nTry;
            var (next, ev) := HandleData(goal, ctl, data);
            if !data.content.Delegations? then (next, ev) == (ctl, Threw)
            else if g == |goal.dst| && goal.rrType == NS then
              && next.step == AnswerStub && next.nFinished == f
              && ev == Success(data, goal.dst[..f])
            else
              && next.nFinished == g && next.nTry == 1 && HintOf(next) == data.content.names
              && next.step == (if g == |goal.dst| then QueryRr else QueryNs)
              && ev == Send(Query(if g == |goal.dst| then Question(goal.dst, [], goal.rrType)
                                  else Question(goal.dst[..g], goal.dst[g..g + 1], NS),
                                  NDNS_QUERY, data.content.names))
  {
  }

  /** An AUTH record lengthens the tried prefix, until the label ends. */
  lemma AuthDecides(goal: Goal, ctl: Ctl, data: Data)
    requires Inv(goal, ctl) && ctl.step == QueryNs && data.contentType == Auth
    ensures var f, g := ctl.nFinished, ctl.nFinished + ctl.nTry;
            var (next, ev) := HandleData(goal, ctl, data);
            && next.nFinished == f && next.lastLink == ctl.lastLink
            && if g < |goal.dst| then
                 && next.step == QueryNs && next.nTry == ctl.nTry + 1
                 && ev == Send(Query(Question(goal.dst[..f], goal.dst[f..g + 1], NS), NDNS_QUERY, HintOf(ctl)))
               else if goal.rrType == NS then
                 next.step == AnswerStub && ev == Success(data, goal.dst[..f])
               else
                 && next.step == QueryRr
                 && ev == Send(Query(Question(goal.dst[..f], goal.dst[f..], goal.rrType), NDNS_QUERY, HintOf(ctl)))
  {
  }

  /** Any packet ends the record query, and any packet after the end is an error. A
      malformed NACK throws in every state. */
  lemma LastReplyDecides(goal: Goal, ctl: Ctl, data: Data)
    requires Inv(goal, ctl) && (ctl.step != QueryNs || Malformed(data))
    ensures HandleData(goal, ctl, data) ==
            if Malformed(data) then (ctl, Threw)
            else if ctl.step == QueryRr then (ctl.(step := AnswerStub), Success(Unwrapped(data), goal.dst[..ctl.nFinished]))
            else (ctl.(step := Abort), Failure)
  {
    assert goal.dst[..|goal.dst|] == goal.dst;
  }

  /** A packet of another kind in the NS phase repeats the query. */
  lemma OthersRepeat(goal: Goal, ctl: Ctl, data: Data)
    requires Inv(goal, ctl) && ctl.step == QueryNs && !Expected(data)
    ensures HandleData(goal, ctl, data) == (ctl, Send(Query(QuestionOf(goal, ctl), NDNS_QUERY, HintOf(ctl))))
  {
  }

  /** Timeouts and packets that the validator rejects fail the query and leave the state
      as it is; only an accepted packet can succeed. */
  lemma FailuresDecide(goal: Goal, ctl: Ctl, input: Input)
    ensures input == TimedOut ==> React(goal, ctl, input) == (ctl, Failure)
    ensures input.Got? && !input.valid && !Malformed(input.data) ==> React(goal, ctl, input) == (ctl, Failure)
    ensures input.Got? && Malformed(input.data) ==> React(goal, ctl, input) == (ctl, Threw)
    ensures React(goal, ctl, input).1.Success? ==> input.Got? && input.valid
  {
  }

  // ---------- progress ----------

  /** Bounds the queries still to be sent, the outstanding one included. */
  function Remaining(goal: Goal, ctl: Ctl): nat
    requires Inv(goal, ctl)
  {
    match ctl.step
    case QueryNs => |goal.dst| - ctl.nFinished - ctl.nTry + 2
    case QueryRr => 1
    case _ => 0
  }

  /** A delegation, an AUTH record or an accepted denial brings the run closer to
      its end; any other packet leaves the state as it was and repeats the query. */
  lemma Progress(goal: Goal, ctl: Ctl, data: Data)
    requires Inv(goal, ctl) && HandleData(goal, ctl, data).1.Send?
    ensures Inv(goal, HandleData(goal, ctl, data).0)
    ensures if Expected(data)
            then Remaining(goal, HandleData(goal, ctl, data).0) < Remaining(goal, ctl)
            else HandleData(goal, ctl, data) == (ctl, Send(Query(QuestionOf(goal, ctl), NDNS_QUERY, HintOf(ctl))))
  {
    ReactKeepsInv(goal, ctl, Got(data, true));
  }

  function Queries(evs: seq<Event>): nat
  {
    if evs == [] then 0 else (if evs[0].Send? then 1 else 0) + Queries(evs[1..])
  }

  /** How many packets of another kind arrive in reply to NS queries of the run. */
  function Surprises(goal: Goal, ctl: Ctl, inputs: seq<Input>): nat
    decreases |inputs|
  {
    if inputs == [] then 0 else
    (if ctl.step == QueryNs && inputs[0].Got? && inputs[0].valid && !Expected(inputs[0].data) then 1 else 0)
      + Surprises(goal, React(goal, ctl, inputs[0]).0, inputs[1..])
  }

  /** A run on any replies at all sends, after the outstanding query, at most as many
      queries as remain, plus one for each unexpected packet in its NS phase. */
  lemma {:induction false} QueriesBounded(goal: Goal, ctl: Ctl, inputs: seq<Input>)
    requires Inv(goal, ctl)
    ensures !Waiting(ctl) ==> Queries(Events(goal, ctl, inputs)) == 0
    ensures Waiting(ctl) ==> Queries(Events(goal, ctl, inputs)) < Remaining(goal, ctl) + Surprises(goal, ctl, inputs)
    decreases |inputs|
  {
    if inputs != [] {
      var (next, ev) := React(goal, ctl, inputs[0]);
      ReactKeepsInv(goal, ctl, inputs[0]);
      QueriesBounded(goal, next, inputs[1..]);
      assert Events(goal, ctl, inputs) == [ev] + Events(goal, next, inputs[1..]);
      assert ([ev] + Events(goal, next, inputs[1..]))[1..] == Events(goal, next, inputs[1..]);
      if ev.Send? {
        Progress(goal, ctl, inputs[0].data);
      }
    }
  }

  /** From the start, with expected replies to NS queries: at most N - s + 1 queries in all. */
  lemma RunIsBounded(goal: Goal, s: nat, inputs: seq<Input>)
    requires s <= |goal.dst| && Surprises(goal, Start(goal, s).0, inputs) == 0
    ensures 1 + Queries(Events(goal, Start(goal, s).0, inputs)) <= |goal.dst| - s + 1
  {
    StartInv(goal, s);
    QueriesBounded(goal, Start(goal, s).0, inputs);
  }

  // ---------- the delegation cache ----------

  /** Delegation packets under the name of the query they answer; None is "no cache". */
  type Cache = Option<map<Name, Data>>

  predicate OnlyLinks(cache: Cache)
  {
    cache.Some? ==> forall n :: n in cache.value ==> cache.value[n].contentType == Link
  }

  function CacheKey(data: Data): Name
  {
    if data.name == [] then [] else data.name[..|data.name| - 1]
  }

  function Remember(cache: Cache, data: Data): (r: Cache)
    ensures OnlyLinks(cache) ==> OnlyLinks(r)
  {
    if cache.Some? && data.contentType == Link then Some(cache.value[CacheKey(data) := data]) else cache
  }

  /** One call of onData, with the calls that cached answers lead to. */
  ghost function Receive(goal: Goal, ctl: Ctl, cache: Cache, data: Data): (r: (Ctl, Cache, Event))
    requires Inv(goal, ctl) && OnlyLinks(cache)
    ensures Inv(goal, r.0) && OnlyLinks(r.1)
    ensures r.2.Send? ==> Waiting(r.0) && Remaining(goal, r.0) <= Remaining(goal, ctl)
    decreases Remaining(goal, ctl) + (if data.contentType == Link then 0 else 1), 0
  {
    var (next, ev) := HandleData(goal, ctl, data);
    var kept := Remember(cache, data);
    ReactKeepsInv(goal, ctl, Got(data, true));
    if ev.Send? then
      Progress(goal, ctl, data);
      ExpressVia(goal, next, kept, ev.query)
    else (next, kept, ev)
  }

  ghost function ExpressVia(goal: Goal, ctl: Ctl, cache: Cache, query: Query): (r: (Ctl, Cache, Event))
    requires Inv(goal, ctl) && Waiting(ctl) && OnlyLinks(cache)
    ensures Inv(goal, r.0) && OnlyLinks(r.1)
    ensures r.2.Send? ==> Waiting(r.0) && Remaining(goal, r.0) <= Remaining(goal, ctl)
    decreases Remaining(goal, ctl), 1
  {
    if cache.Some? && ToInterest(query).name in cache.value
    then Receive(goal, ctl, cache, cache.value[ToInterest(query).name])
    else (ctl, cache, Send(query))
  }

  class IterativeQueryController {
    const goal: Goal
    var step: Step
    var nFinished: nat
    var nTry: nat
    var lastLink: Option<Data>
    var lastLabelType: Name
    var cache: Cache

    ghost function State(): Ctl
      reads this
    {
      Ctl(step, nFinished, nTry, lastLink, lastLabelType)
    }

    constructor (goal: Goal, startIndex: nat, cache: Cache)
      ensures this.goal == goal && this.cache == cache
      ensures State() == Ctl(QueryNs, startIndex, 1, None, [])
    {
      this.goal, this.cache := goal, cache;
      step, nFinished, nTry, lastLink, lastLabelType := QueryNs, startIndex, 1, None, [];
    }

    method Begin() returns (ev: Event)
      requires State() == Ctl(QueryNs, nFinished, 1, None, []) && nFinished <= |goal.dst| && OnlyLinks(cache)
      modifies this
      ensures Inv(goal, Start(goal, old(nFinished)).0) && Waiting(Start(goal, old(nFinished)).0)
      ensures (State(), cache, ev) ==
              ExpressVia(goal, Start(goal, old(nFinished)).0, old(cache), Start(goal, old(nFinished)).1.query)
    {
      StartInv(goal, nFinished);
      if |goal.dst| == nFinished {
        step := QueryRr;
      }
      var query := MakeLatestInterest();
      ev := Express(query);
    }

    method MakeLatestInterest() returns (query: Query)
      requires Waiting(State())
      modifies this`lastLabelType
      ensures (State(), Send(query)) == Ask(goal, old(State()))
    {
      var zone := Prefix(goal.dst, nFinished);
      var hint := if lastLink.Some? && lastLink.value.content.Delegations? then lastLink.value.content.names else [];
      var question;
      if step == QueryNs {
        question := Question(zone, SubName(goal.dst, nFinished, nTry), NS);
      } else {
        question := Question(zone, SubName(goal.dst, nFinished, |goal.dst|), goal.rrType);
      }
      lastLabelType := question.rrLabel + [question.rrType];
      query := Query(question, NDNS_QUERY, hint);
    }

    method Express(query: Query) returns (ev: Event)
      requires Inv(goal, State()) && Waiting(State()) && OnlyLinks(cache)
      modifies this
      ensures (State(), cache, ev) == ExpressVia(goal, old(State()), old(cache), query)
      decreases Remaining(goal, State()), 1
    {
      if cache.Some? && ToInterest(query).name in cache.value {
        ev := OnData(cache.value[ToInterest(query).name]);
      } else {
        ev := Send(query);
      }
    }

    /** Packet arrival; the validator, if any, has accepted the packet. */
    method OnData(data: Data) returns (ev: Event)
      requires Inv(goal, State()) && OnlyLinks(cache)
      modifies this
      ensures (State(), cache, ev) == Receive(goal, old(State()), old(cache), data)
      decreases Remaining(goal, State()) + (if data.contentType == Link then 0 else 1), 0
    {
      hide Chain.AbsentByRange, Inv;
      ReactKeepsInv(goal, State(), Got(data, true));
      ghost var before, cached := State(), cache;
      if cache.Some? && data.contentType == Link {
        cache := Some(cache.value[CacheKey(data) := data]);
      }
      var data', ct := data, data.contentType;
      if ct == Nack {
        if !data.content.Nested? {
          return Threw;
        }
        data', ct := data.content.inner, Doe;
      }
      var ok := Transition(data', ct);
      if !ok {
        return Threw;
      }
      if step == QueryNs || step == QueryRr {
        Progress(goal, before, data);
        var query := MakeLatestInterest();
        ev := Express(query);
      } else if step == AnswerStub {
        ev := Success(data', Prefix(goal.dst, nFinished));
      } else {
        ev := Failure;
      }
    }

    /** The switch on the query step; false is an exception. */
    method Transition(data: Data, ct: ContentType) returns (ok: bool)
      modifies this`step, this`nFinished, this`nTry, this`lastLink
      ensures ok <==> !(old(step) == QueryNs && NsTransition(goal, old(State()), data, ct).None?)
      ensures !ok ==> State() == old(State())
      ensures ok ==> State() == match old(step) {
                case QueryNs => PastEnd(goal, NsTransition(goal, old(State()), data, ct).value)
                case QueryRr => old(State()).(step := AnswerStub)
                case _ => old(State()).(step := Abort) }
    {
      match step
      case QueryNs =>
        if ct == Doe {
          if !data.content.Range? || !Chain.AbsentByRange((data.content.lower, data.content.upper), lastLabelType) {
            return false;
          }
          step := QueryRr;
        } else if ct == Link {
          if !data.content.Delegations? {
            return false;
          }
          lastLink := if data.content.names == [] then None else Some(data);
          if nFinished + nTry == |goal.dst| && goal.rrType == NS {
            step := AnswerStub;
          } else {
            nFinished := nFinished + nTry;
            nTry := 1;
          }
        } else if ct == Auth {
          nTry := nTry + 1;
        }
        if nFinished + nTry > |goal.dst| {
          step := if goal.rrType == NS then AnswerStub else QueryRr;
        }
        return true;
      case QueryRr =>
        step := AnswerStub;
        return true;
      case _ =>
        step := Abort;
        return true;
    }
  }
}
