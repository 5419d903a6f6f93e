/** Runs seen from inside: where forwarding hints come from, and why the
    delegation cache changes nothing but the traffic. */
module CachedRuns {
  import opened Tlv
  import opened Names
  import opened Records
  import opened Server
  import opened Resolver
  import opened Resolution

  // ---------- forwarding hints ----------

  /** `next` is the state after one reply from the world. */
  ghost predicate OneReply(w: World, now: Component, goal: Goal, ctl: Ctl, next: Ctl)
  {
    var reply := Serve(w, QuestionOf(goal, ctl), now);
    reply.Some? && HandleData(goal, ctl, reply.value).1.Send? && HandleData(goal, ctl, reply.value).0 == next
  }

  /** The states of a run that started at prefix s and still waits for a reply. */
  ghost predicate Trace(w: World, now: Component, goal: Goal, s: nat, ctls: seq<Ctl>)
  {
    && ctls != [] && ctls[0] == Start(goal, s).0
    && forall i :: 0 <= i < |ctls| - 1 ==> OneReply(w, now, goal, ctls[i], ctls[i + 1])
  }

  ghost predicate DelegatedBy(w: World, goal: Goal, g: nat, ctl: Ctl)
  {
    && g < ctl.nFinished <= |goal.dst|
    && LinkAt(w, goal.dst[..g], goal.dst[g..ctl.nFinished])
    && var link := RowAt(w, goal.dst[..g], goal.dst[g..ctl.nFinished], NS).value.data;
       link.content.Delegations? && HintOf(ctl) == link.content.names
  }

  /** The hint belongs to the zone being queried: none at the start zone, otherwise
      the names listed by the packet that delegated the zone. */
  ghost predicate HintOk(w: World, goal: Goal, s: nat, ctl: Ctl)
  {
    if ctl.nFinished == s then HintOf(ctl) == []
    else exists g :: s <= g && DelegatedBy(w, goal, g, ctl)
  }

  /** A delegation packet in reply to an NS question is the zone's stored record. */
  lemma LinkReplyIsStored(w: World, q: Question, now: Component)
    requires Askable(q.rrType) && Serve(w, q, now).Some? && Serve(w, q, now).value.contentType == Link
    ensures q.zone in w && RowAt(w, q.zone, q.rrLabel, q.rrType).Some?
    ensures Serve(w, q, now).value == RowAt(w, q.zone, q.rrLabel, q.rrType).value.data
  {
  }

  /** A delegation packet in the NS phase is the zone's delegation at the tried prefix. */
  lemma LinkReplyIsHop(w: World, now: Component, goal: Goal, ctl: Ctl)
    requires Inv(goal, ctl) && ctl.step == QueryNs
    requires var reply := Serve(w, QuestionOf(goal, ctl), now); reply.Some? && reply.value.contentType == Link
    ensures var f, g := ctl.nFinished, ctl.nFinished + ctl.nTry;
            && LinkAt(w, goal.dst[..f], goal.dst[f..g])
            && Serve(w, QuestionOf(goal, ctl), now).value == RowAt(w, goal.dst[..f], goal.dst[f..g], NS).value.data
  {
    hide Serve;
    var f, g := ctl.nFinished, ctl.nFinished + ctl.nTry;
    assert QuestionOf(goal, ctl) == Question(goal.dst[..f], goal.dst[f..g], NS) by {
      assert goal.dst[..|goal.dst|] == goal.dst;
    }
    NotTypes();
    LinkReplyIsStored(w, QuestionOf(goal, ctl), now);
  }

  /** Only a delegation moves the run to another zone and changes the hint. */
  lemma ZoneChangesByLink(goal: Goal, ctl: Ctl, data: Data)
    requires Inv(goal, ctl)
    ensures var (next, ev) := HandleData(goal, ctl, data);
            if ctl.step == QueryNs && data.contentType == Link && ev.Send? then
              && data.content.Delegations? && next.nFinished == ctl.nFinished + ctl.nTry
              && next.lastLink == if data.content.names == [] then None else Some(data)
            else next.nFinished == ctl.nFinished && (ev.Send? ==> next.lastLink == ctl.lastLink)
  {
  }

  lemma HintStep(w: World, now: Component, goal: Goal, s: nat, ctl: Ctl, next: Ctl)
    requires Inv(goal, ctl) && Waiting(ctl) && s <= ctl.nFinished
    requires OneReply(w, now, goal, ctl, next) && HintOk(w, goal, s, ctl)
    ensures s <= next.nFinished && HintOk(w, goal, s, next)
  {
    hide Serve, HandleData, Inv, LinkAt;
    var data := Serve(w, QuestionOf(goal, ctl), now).value;
    ZoneChangesByLink(goal, ctl, data);
    ReactKeepsInv(goal, ctl, Got(data, true));
    if ctl.step == QueryNs && data.contentType == Link {
      LinkReplyIsHop(w, now, goal, ctl);
      assert DelegatedBy(w, goal, ctl.nFinished, next) by { TriedWithinLabel(goal, ctl); }
    } else if ctl.nFinished != s {
      var g :| s <= g && DelegatedBy(w, goal, g, ctl);
      assert DelegatedBy(w, goal, g, next);
    }
  }

  lemma TriedWithinLabel(goal: Goal, ctl: Ctl)
    requires Inv(goal, ctl) && ctl.step == QueryNs
    ensures 1 <= ctl.nTry && ctl.nFinished + ctl.nTry <= |goal.dst|
  {
  }

  lemma StartHint(w: World, goal: Goal, s: nat)
    ensures HintOk(w, goal, s, Start(goal, s).0) && Start(goal, s).0.nFinished == s
  {
  }

  /** At every query of every run, the counters stay within the label and the hint
      comes from the delegation of the zone being asked. */
  lemma {:induction false} HintInvariant(w: World, now: Component, goal: Goal, s: nat, ctls: seq<Ctl>)
    requires s <= |goal.dst| && Trace(w, now, goal, s, ctls)
    ensures var ctl := ctls[|ctls| - 1];
            Inv(goal, ctl) && Waiting(ctl) && s <= ctl.nFinished && HintOk(w, goal, s, ctl)
    decreases |ctls|
  {
    hide Serve, HandleData, HintOk, Inv;
    if |ctls| == 1 {
      StartInv(goal, s);
      StartHint(w, goal, s);
    } else {
      var n := |ctls|;
      var ctl, next := ctls[n - 2], ctls[n - 1];
      HintInvariant(w, now, goal, s, ctls[..n - 1]);
      assert OneReply(w, now, goal, ctls[n - 2], ctls[n - 2 + 1]);
      HintStep(w, now, goal, s, ctl, next);
      ReactKeepsInv(goal, ctl, Got(Serve(w, QuestionOf(goal, ctl), now).value, true));
    }
  }

  // ---------- the cache ----------

  ghost function CachedReply(w: World, now: Component, cache: Cache, q: Question): Option<Data>
  {
    if cache.Some? && QueryName(q) in cache.value then Some(cache.value[QueryName(q)]) else Serve(w, q, now)
  }

  /** As `Resolve`, with answers from the cache where it has them. */
  ghost function ResolveCached(w: World, now: Component, goal: Goal, ctl: Ctl, cache: Cache): (Outcome, Cache)
    requires Inv(goal, ctl) && Waiting(ctl)
    decreases Remaining(goal, ctl)
  {
    match CachedReply(w, now, cache, QuestionOf(goal, ctl))
    case None => (Unanswered, cache)
    case Some(data) =>
      var (next, ev) := HandleData(goal, ctl, data);
      var kept := Remember(cache, data);
      ReactKeepsInv(goal, ctl, Got(data, true));
      if !ev.Send? then (Ended(next, ev, 1), kept)
      else if Remaining(goal, next) >= Remaining(goal, ctl) then (Repeating, kept)
      else
        var (out, last) := ResolveCached(w, now, goal, next, kept);
        (OneMore(out), last)
  }

  /** The bound counts answers from the cache and holds for any cache of delegations,
      whatever these delegations say. */
  lemma {:induction false} CachedRunBounded(w: World, now: Component, goal: Goal, ctl: Ctl, cache: Cache)
    requires NsExpected(w, now) && OnlyLinks(cache) && Inv(goal, ctl) && Waiting(ctl)
    ensures var out := ResolveCached(w, now, goal, ctl, cache).0;
            !out.Repeating? && (out.Ended? ==> out.queries <= Remaining(goal, ctl))
    decreases Remaining(goal, ctl)
  {
    var reply := CachedReply(w, now, cache, QuestionOf(goal, ctl));
    if reply.Some? {
      var (next, ev) := HandleData(goal, ctl, reply.value);
      ReactKeepsInv(goal, ctl, Got(reply.value, true));
      if ev.Send? {
        Progress(goal, ctl, reply.value);
        CachedRunBounded(w, now, goal, next, Remember(cache, reply.value));
      }
    }
  }

  /** Zones whose names do not contain the component that separates zone and label,
      whose rows are named after them, and whose delegations lead to zones. */
  ghost predicate Coherent(w: World)
  {
    && (forall z :: z in w ==> NDNS_QUERY !in z && Named(w[z].rows, w[z].zid, z))
    && (forall z, l :: LinkAt(w, z, l) ==> z + l in w)
  }

  /** The cache holds what the zones themselves would answer. */
  ghost predicate CacheSound(w: World, now: Component, cache: Cache)
  {
    cache.Some? ==> forall q: Question :: q.zone in w && QueryName(q) in cache.value ==>
      Serve(w, q, now) == Some(cache.value[QueryName(q)])
  }

  /** Outside zone names that contain NDNS, a query name determines the question. */
  lemma QueryNameInjective(q: Question, r: Question)
    requires NDNS_QUERY !in q.zone && NDNS_QUERY !in r.zone && QueryName(q) == QueryName(r)
    ensures q == r
  {
    var n, m := QueryName(q), QueryName(r);
    var i, j := |q.zone|, |r.zone|;
    assert n[i] == NDNS_QUERY && m[j] == NDNS_QUERY;
    assert forall k :: 0 <= k < i ==> n[k] == q.zone[k];
    assert forall k :: 0 <= k < j ==> m[k] == r.zone[k];
    assert q.zone == n[..i] && r.zone == m[..j];
    assert q.rrLabel == n[i + 1..|n| - 1] && r.rrLabel == m[j + 1..|m| - 1];
    assert q.rrType == n[|n| - 1] && r.rrType == m[|m| - 1];
  }

  lemma RememberKeepsSound(w: World, now: Component, cache: Cache, q: Question, data: Data)
    requires Coherent(w) && CacheSound(w, now, cache) && Askable(q.rrType)
    requires q.zone in w && Serve(w, q, now) == Some(data)
    ensures CacheSound(w, now, Remember(cache, data))
  {
    if data.contentType == Link && cache.Some? {
      LinkReplyIsStored(w, q, now);
      var row := RowAt(w, q.zone, q.rrLabel, q.rrType).value;
      MatchRecordName(q.zone, q.rrLabel, q.rrType, row.version);
      assert CacheKey(data) == QueryName(q);
      forall r: Question | r.zone in w && QueryName(r) == QueryName(q)
        ensures r == q
      {
        QueryNameInjective(q, r);
      }
    }
  }

  /** A delegation packet that answers a question is cached under the question's name, and
      nothing else in the cache changes; other packets are not cached. */
  lemma RememberExact(cache: Cache, q: Question, version: Component, data: Data)
    requires data.name == QueryName(q) + [version]
    ensures var kept := Remember(cache, data);
            if cache.None? || data.contentType != Link then kept == cache
            else
              && kept.Some? && QueryName(q) in kept.value && kept.value[QueryName(q)] == data
              && forall n :: n != QueryName(q) ==>
                   (n in kept.value <==> n in cache.value) && (n in kept.value ==> kept.value[n] == cache.value[n])
  {
    assert CacheKey(data) == QueryName(q);
  }

  /** A run takes nothing out of the cache. */
  lemma {:induction false} CacheGrows(w: World, now: Component, goal: Goal, ctl: Ctl, cache: Cache)
    requires Inv(goal, ctl) && Waiting(ctl) && cache.Some?
    ensures var kept := ResolveCached(w, now, goal, ctl, cache).1;
            kept.Some? && cache.value.Keys <= kept.value.Keys
    decreases Remaining(goal, ctl)
  {
    hide HandleData, Serve, Inv;
    var reply := CachedReply(w, now, cache, QuestionOf(goal, ctl));
    if reply.Some? {
      var (next, ev) := HandleData(goal, ctl, reply.value);
      ReactKeepsInv(goal, ctl, Got(reply.value, true));
      if ev.Send? && Remaining(goal, next) < Remaining(goal, ctl) {
        CacheGrows(w, now, goal, next, Remember(cache, reply.value));
      }
    }
  }

  /** A delegation that a run comes across is in the cache afterwards, so it is not asked
      for on the network again. */
  lemma MetDelegationIsCached(w: World, now: Component, goal: Goal, ctl: Ctl, cache: Cache)
    requires Coherent(w) && Inv(goal, ctl) && ctl.step == QueryNs && cache.Some?
    requires var q := QuestionOf(goal, ctl); q.zone in w && Serve(w, q, now).Some? && Serve(w, q, now).value.contentType == Link
    ensures var kept := ResolveCached(w, now, goal, ctl, cache).1;
            kept.Some? && QueryName(QuestionOf(goal, ctl)) in kept.value
  {
    hide HandleData;
    var q := QuestionOf(goal, ctl);
    if QueryName(q) in cache.value {
      CacheGrows(w, now, goal, ctl, cache);
    } else {
      NotTypes();
      LinkReplyIsStored(w, q, now);
      var row := RowAt(w, q.zone, q.rrLabel, q.rrType).value;
      MatchRecordName(q.zone, q.rrLabel, q.rrType, row.version);
      var data := Serve(w, q, now).value;
      RememberExact(cache, q, row.version, data);
      var (next, ev) := HandleData(goal, ctl, data);
      ReactKeepsInv(goal, ctl, Got(data, true));
      if ev.Send? && Remaining(goal, next) < Remaining(goal, ctl) {
        CacheGrows(w, now, goal, next, Remember(cache, data));
      }
    }
  }

  lemma ZoneStaysKnown(w: World, now: Component, goal: Goal, ctl: Ctl)
    requires Coherent(w) && Inv(goal, ctl) && Waiting(ctl) && goal.dst[..ctl.nFinished] in w
    requires Serve(w, QuestionOf(goal, ctl), now).Some?
    ensures var next := HandleData(goal, ctl, Serve(w, QuestionOf(goal, ctl), now).value).0;
            next.nFinished <= |goal.dst| && goal.dst[..next.nFinished] in w
  {
    hide Serve, HandleData, LinkAt;
    var f, g := ctl.nFinished, ctl.nFinished + ctl.nTry;
    var data := Serve(w, QuestionOf(goal, ctl), now).value;
    ZoneChangesByLink(goal, ctl, data);
    if ctl.step == QueryNs && data.contentType == Link {
      LinkReplyIsHop(w, now, goal, ctl);
      assert goal.dst[..f] + goal.dst[f..g] == goal.dst[..g];
    }
  }

  /** A run with a sound cache ends exactly like the run without one, after as many
      questions, and leaves the cache sound. */
  lemma {:induction false} CacheTransparent(w: World, now: Component, goal: Goal, ctl: Ctl, cache: Cache)
    requires Coherent(w) && CacheSound(w, now, cache) && Askable(goal.rrType)
    requires Inv(goal, ctl) && Waiting(ctl) && goal.dst[..ctl.nFinished] in w
    ensures ResolveCached(w, now, goal, ctl, cache).0 == Resolve(w, now, goal, ctl)
    ensures CacheSound(w, now, ResolveCached(w, now, goal, ctl, cache).1)
    decreases Remaining(goal, ctl)
  {
    var q := QuestionOf(goal, ctl);
    assert q.zone == goal.dst[..ctl.nFinished] by {
      assert goal.dst[..|goal.dst|] == goal.dst;
    }
    NotTypes();
    var reply := Serve(w, q, now);
    assert CachedReply(w, now, cache, q) == reply;
    if reply.Some? {
      RememberKeepsSound(w, now, cache, q, reply.value);
      var (next, ev) := HandleData(goal, ctl, reply.value);
      ReactKeepsInv(goal, ctl, Got(reply.value, true));
      if ev.Send? && Remaining(goal, next) < Remaining(goal, ctl) {
        ZoneStaysKnown(w, now, goal, ctl);
        CacheTransparent(w, now, goal, next, Remember(cache, reply.value));
      }
    }
  }

  ghost predicate SameEnd(a: (Outcome, Cache), b: (Outcome, Cache))
  {
    && a.1 == b.1
    && (a.0.Ended? <==> b.0.Ended?)
    && (if a.0.Ended? then a.0.ctl == b.0.ctl && a.0.event == b.0.event else a.0 == b.0)
  }

  /** What the controller does in one call, cached replies included, is what the
      cached run does up to the next query that goes to the network. */
  lemma {:induction false} ControllerFollowsCachedRun(w: World, now: Component, goal: Goal, ctl: Ctl, cache: Cache)
    requires Inv(goal, ctl) && Waiting(ctl) && OnlyLinks(cache)
    ensures var (last, kept, ev) := ExpressVia(goal, ctl, cache, Query(QuestionOf(goal, ctl), NDNS_QUERY, HintOf(ctl)));
            if ev.Send? then
              && Waiting(last) && ev.query.question == QuestionOf(goal, last)
              && (kept.Some? ==> QueryName(ev.query.question) !in kept.value)
              && SameEnd(ResolveCached(w, now, goal, ctl, cache), ResolveCached(w, now, goal, last, kept))
            else
              exists n: nat :: ResolveCached(w, now, goal, ctl, cache) == (Ended(last, ev, n), kept)
    decreases Remaining(goal, ctl)
  {
    var q := QuestionOf(goal, ctl);
    var query := Query(q, NDNS_QUERY, HintOf(ctl));
    assert ToInterest(query).name == QueryName(q);
    if cache.Some? && QueryName(q) in cache.value {
      var data := cache.value[QueryName(q)];
      var (next, ev) := HandleData(goal, ctl, data);
      var kept := Remember(cache, data);
      ReactKeepsInv(goal, ctl, Got(data, true));
      assert ExpressVia(goal, ctl, cache, query) == Receive(goal, ctl, cache, data);
      if ev.Send? {
        Progress(goal, ctl, data);
        ControllerFollowsCachedRun(w, now, goal, next, kept);
        var (last, k, e) := ExpressVia(goal, next, kept, ev.query);
        if !e.Send? {
          var n: nat :| ResolveCached(w, now, goal, next, kept) == (Ended(last, e, n), k);
          assert ResolveCached(w, now, goal, ctl, cache) == (Ended(last, e, n + 1), k);
        }
      } else {
        assert ResolveCached(w, now, goal, ctl, cache) == (Ended(next, ev, 1), kept);
      }
    }
  }

  // ---------- the controller's whole run ----------

  /** The controller waits for the reply to its query on the network; each reply is
      handed to onData, until no further query comes out of it. */
  ghost function Drive(w: World, now: Component, goal: Goal, ctl: Ctl, cache: Cache): Option<(Ctl, Cache, Event)>
    requires Inv(goal, ctl) && Waiting(ctl) && OnlyLinks(cache)
    decreases Remaining(goal, ctl)
  {
    match Serve(w, QuestionOf(goal, ctl), now)
    case None => None
    case Some(data) =>
      var (next, kept, ev) := Receive(goal, ctl, cache, data);
      if !ev.Send? then Some((next, kept, ev))
      else if Remaining(goal, next) >= Remaining(goal, ctl) then None
      else Drive(w, now, goal, next, kept)
  }

  /** The whole run of the controller: start, then replies from the network. */
  ghost function ControllerRun(w: World, now: Component, goal: Goal, s: nat, cache: Cache): Option<(Ctl, Cache, Event)>
    requires s <= |goal.dst| && OnlyLinks(cache)
  {
    StartInv(goal, s);
    var (ctl, kept, ev) := ExpressVia(goal, Start(goal, s).0, cache, Start(goal, s).1.query);
    if !ev.Send? then Some((ctl, kept, ev))
    else Drive(w, now, goal, ctl, kept)
  }

  /** What the controller has reached when its run ends as the cached run does. */
  ghost predicate EndsAs(run: Option<(Ctl, Cache, Event)>, spec: (Outcome, Cache))
  {
    spec.0.Ended? ==> run == Some((spec.0.ctl, spec.1, spec.0.event))
  }

  lemma {:induction false} DriveFollows(w: World, now: Component, goal: Goal, ctl: Ctl, cache: Cache)
    requires Inv(goal, ctl) && Waiting(ctl) && OnlyLinks(cache)
    requires cache.Some? ==> QueryName(QuestionOf(goal, ctl)) !in cache.value
    ensures EndsAs(Drive(w, now, goal, ctl, cache), ResolveCached(w, now, goal, ctl, cache))
    decreases Remaining(goal, ctl)
  {
    hide HandleData, Serve;
    var reply := Serve(w, QuestionOf(goal, ctl), now);
    if reply.Some? && ResolveCached(w, now, goal, ctl, cache).0.Ended? {
      var data := reply.value;
      var (next, ev) := HandleData(goal, ctl, data);
      var kept := Remember(cache, data);
      ReactKeepsInv(goal, ctl, Got(data, true));
      if ev.Send? {
        ControllerFollowsCachedRun(w, now, goal, next, kept);
        var (last, k, e) := ExpressVia(goal, next, kept, ev.query);
        assert Receive(goal, ctl, cache, data) == (last, k, e);
        if e.Send? {
          DriveFollows(w, now, goal, last, k);
        }
      }
    }
  }

  /** The controller with its cache ends as the cached run does, from start to finish. */
  lemma ControllerRunFollows(w: World, now: Component, goal: Goal, s: nat, cache: Cache)
    requires s <= |goal.dst| && OnlyLinks(cache)
    ensures Inv(goal, Start(goal, s).0) && Waiting(Start(goal, s).0)
    ensures EndsAs(ControllerRun(w, now, goal, s, cache), ResolveCached(w, now, goal, Start(goal, s).0, cache))
  {
    hide HandleData, Serve, Receive, Drive, ResolveCached;
    StartInv(goal, s);
    var start := Start(goal, s);
    ControllerFollowsCachedRun(w, now, goal, start.0, cache);
    var (ctl, kept, ev) := ExpressVia(goal, start.0, cache, start.1.query);
    if ev.Send? {
      DriveFollows(w, now, goal, ctl, kept);
    }
  }
}
