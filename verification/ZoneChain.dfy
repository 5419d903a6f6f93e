/** Rebuilding a zone's DoE rows (generateDoe): the sorted record list, the rows
    it leads to, and what those rows answer to lower-bound lookups. */
module ZoneChain {
  import opened Names
  import opened Records
  import opened Chain
  import opened Database

  const DEFAULT_CACHE_TTL: nat := 3600

  function SlotsOf(s: seq<Row>): (slots: seq<Slot>)
    ensures |slots| == |s| && forall i :: 0 <= i < |s| ==> slots[i] == SlotOf(s[i])
  {
    seq(|s|, i requires 0 <= i < |s| => SlotOf(s[i]))
  }

  // ---------- the sorted arrangement of a set of slots ----------

  lemma {:induction false} LeastSlot(ss: set<Slot>, x: Slot) returns (m: Slot)
    requires x in ss
    ensures m in ss && forall s :: s in ss ==> !SlotLess(s, m)
    decreases |ss|
  {
    m := x;
    if y :| y in ss && SlotLess(y, x) {
      SlotLessAsymmetric(y, x);
      m := LeastSlot(ss - {x}, y);
      if SlotLess(x, m) {
        SlotLessTransitive(y, x, m);
      }
    }
  }

  ghost function SortSlots(ss: set<Slot>): (s: seq<Slot>)
    ensures SortedSlots(s)
    ensures forall x :: x in s <==> x in ss
    ensures ss != {} <==> s != []
    decreases |ss|
  {
    if ss == {} then [] else
    assert exists m :: m in ss && forall s :: s in ss ==> !SlotLess(s, m) by {
      var x :| x in ss;
      var m := LeastSlot(ss, x);
    }
    var m :| m in ss && forall s :: s in ss ==> !SlotLess(s, m);
    var tail := SortSlots(ss - {m});
    assert forall i :: 0 <= i < |tail| ==> SlotLess(m, tail[i]) by {
      forall i | 0 <= i < |tail|
        ensures SlotLess(m, tail[i])
      {
        assert tail[i] in tail;
        SlotLessTotal(m, tail[i]);
      }
    }
    [m] + tail
  }

  /** A sorted arrangement is determined by its elements. */
  lemma {:induction false} SortedUnique(s: seq<Slot>, t: seq<Slot>)
    requires SortedSlots(s) && SortedSlots(t)
    requires forall x :: x in s <==> x in t
    ensures s == t
  {
    assert (s != [] ==> s[0] in t) && (t != [] ==> t[0] in s);
    if s != [] {
      SlotLessTotal(s[0], t[0]);
      var i :| 0 <= i < |t| && t[i] == s[0];
      var j :| 0 <= j < |s| && s[j] == t[0];
      if i > 0 {
        SlotLessAsymmetric(t[0], t[i]);
      }
      assert s[0] == t[0];
      forall x
        ensures x in s[1..] <==> x in t[1..]
      {
        TailMembers(s, x);
        TailMembers(t, x);
      }
      SortedUnique(s[1..], t[1..]);
      assert s == [s[0]] + s[1..] && t == [t[0]] + t[1..];
    }
  }

  lemma TailMembers(s: seq<Slot>, x: Slot)
    requires SortedSlots(s) && s != []
    ensures x in s[1..] <==> x in s && x != s[0]
  {
    if x in s[1..] {
      var i :| 1 <= i < |s| && s[i] == x;
      SlotLessAsymmetric(s[0], s[i]);
    }
    if x in s && x != s[0] {
      var i :| 0 <= i < |s| && s[i] == x;
      assert s[1..][i - 1] == x;
    }
  }

  ghost predicate SortedRows(s: seq<Row>)
  {
    forall i, j :: 0 <= i < j < |s| ==> !RowLess(s[j], s[i])
  }

  /** Stands for std::sort with Rrset::operator<. */
  method SortRrsets(vec: seq<Row>) returns (sorted: seq<Row>)
    ensures multiset(sorted) == multiset(vec)
    ensures SortedRows(sorted)
  {
    sorted := [];
    for k := 0 to |vec|
      invariant multiset(sorted) == multiset(vec[..k])
      invariant SortedRows(sorted)
    {
      var row := vec[k];
      var i := 0;
      while i < |sorted| && RowLess(sorted[i], row)
        invariant i <= |sorted|
        invariant forall j :: 0 <= j < i ==> RowLess(sorted[j], row)
      {
        i := i + 1;
      }
      InsertKeepsSorted(sorted, i, row);
      assert vec[..k + 1] == vec[..k] + [row];
      assert sorted == sorted[..i] + sorted[i..];
      sorted := sorted[..i] + [row] + sorted[i..];
    }
    assert vec[..|vec|] == vec;
  }

  lemma InsertKeepsSorted(s: seq<Row>, i: nat, row: Row)
    requires SortedRows(s) && i <= |s|
    requires forall j :: 0 <= j < i ==> RowLess(s[j], row)
    requires i < |s| ==> !RowLess(s[i], row)
    ensures SortedRows(s[..i] + [row] + s[i..])
  {
    hide RowLess;
    forall j | 0 <= j < i
      ensures !RowLess(row, s[j])
    {
      RowLessWeak(s[j], s[j], row);
    }
    forall j | i <= j < |s|
      ensures !RowLess(s[j], row)
    {
      RowLessWeak(s[j], s[i], row);
    }
  }

  /** Record sets that occur once are sorted strictly by label and type. */
  lemma SortedSlotsOfRows(s: seq<Row>)
    requires SortedRows(s) && Distinct(SlotsOf(s))
    ensures SortedSlots(SlotsOf(s))
  {
    var slots := SlotsOf(s);
    forall i, j | 0 <= i < j < |slots|
      ensures SlotLess(slots[i], slots[j])
    {
      assert !RowLess(s[j], s[i]) && slots[i] != slots[j];
      SlotLessTotal(SlotOf(s[i]), SlotOf(s[j]));
    }
  }

  lemma {:induction false} DistinctCounts<T>(s: seq<T>)
    ensures Distinct(s) <==> forall x :: multiset(s)[x] <= 1
  {
    if s != [] {
      var n := |s| - 1;
      DistinctCounts(s[..n]);
      assert s == s[..n] + [s[n]];
      if Distinct(s) {
        assert s[n] !in s[..n];
      } else if Distinct(s[..n]) {
        assert s[n] in s[..n];
        assert multiset(s)[s[n]] == multiset(s[..n])[s[n]] + 1;
      } else {
        var x :| multiset(s[..n])[x] > 1;
        assert multiset(s)[x] >= multiset(s[..n])[x];
      }
    }
  }

  /** Sorting a list in which every record set occurs once. */
  lemma SortedOnce(vec: seq<Row>, sorted: seq<Row>)
    requires multiset(sorted) == multiset(vec) && SortedRows(sorted)
    requires forall i, j :: 0 <= i < j < |vec| ==> SlotOf(vec[i]) != SlotOf(vec[j])
    ensures SortedSlots(SlotsOf(sorted))
    ensures forall r :: r in sorted <==> r in vec
  {
    assert forall r :: (r in sorted <==> r in multiset(sorted)) && (r in vec <==> r in multiset(vec));
    DistinctCounts(vec);
    DistinctCounts(sorted);
    forall i, j | 0 <= i < j < |sorted|
      ensures SlotOf(sorted[i]) != SlotOf(sorted[j])
    {
      assert sorted[i] in vec && sorted[j] in vec;
    }
    SortedSlotsOfRows(sorted);
  }

  // ---------- the rows of a chain ----------

  function DoeRow(zid: nat, zone: Name, keys: seq<Name>, now: Component, i: nat): Row
    requires keys != [] && i <= |keys|
  {
    var rrLabel, range := ChainLabel(keys, i), ChainRange(keys, i);
    Row(zid, rrLabel, DOE, now, DEFAULT_CACHE_TTL,
        Data(RecordName(zone, rrLabel, DOE, now), Doe, Range(range.0, range.1)))
  }

  /** The first `k` rows of the chain, in the order in which they are inserted. */
  ghost function ChainRows(zid: nat, zone: Name, keys: seq<Name>, now: Component, k: nat): set<Row>
    requires keys != [] && k <= |keys| + 1
  {
    set i: nat | i < k :: DoeRow(zid, zone, keys, now, i)
  }

  ghost function NonDoeSlots(rows: set<Row>, zid: nat): set<Slot>
  {
    set r | r in rows && r.zoneId == zid && r.typ != DOE :: SlotOf(r)
  }

  /** The table after generateDoe. */
  ghost function Rebuilt(rows: set<Row>, zid: nat, zone: Name, now: Component): set<Row>
    requires NonDoeSlots(rows, zid) != {}
  {
    var keys := KeysOf(SortSlots(NonDoeSlots(rows, zid)));
    WithoutType(rows, zid, DOE) + ChainRows(zid, zone, keys, now, |keys| + 1)
  }

  lemma SortedKeysDistinct(base: seq<Slot>)
    requires SortedSlots(base)
    ensures Distinct(KeysOf(base)) && [] !in KeysOf(base)
  {
    var keys := KeysOf(base);
    forall i, j | 0 <= i < j < |keys|
      ensures keys[i] != keys[j]
    {
      SlotLessAsymmetric(base[i], base[j]);
      KeyInjective(base[i], base[j]);
    }
  }

  lemma ChainRowFresh(rows: set<Row>, zid: nat, zone: Name, keys: seq<Name>, now: Component, k: nat)
    requires keys != [] && Distinct(keys) && [] !in keys && k <= |keys|
    ensures !Clashes(WithoutType(rows, zid, DOE) + ChainRows(zid, zone, keys, now, k),
                     DoeRow(zid, zone, keys, now, k))
    ensures ChainRows(zid, zone, keys, now, k + 1) ==
            ChainRows(zid, zone, keys, now, k) + {DoeRow(zid, zone, keys, now, k)}
  {
  }

  /** In the zone, the DoE rows are those of a chain over sorted slots that all
      still hold a record. Records added since the chain was built may be missing from it. */
  ghost predicate IsChain(rows: set<Row>, zid: nat, zone: Name, base: seq<Slot>, now: Component)
  {
    && base != [] && SortedSlots(base)
    && (forall s :: s in base ==> s in NonDoeSlots(rows, zid))
    && (forall r :: r in rows && r.zoneId == zid && r.typ == DOE <==>
                    r in ChainRows(zid, zone, KeysOf(base), now, |base| + 1))
  }

  lemma RebuiltUnique(rows: set<Row>, zid: nat, zone: Name, now: Component)
    requires NonDoeSlots(rows, zid) != {} && UniqueSlots(rows)
    ensures UniqueSlots(Rebuilt(rows, zid, zone, now))
  {
    var keys := KeysOf(SortSlots(NonDoeSlots(rows, zid)));
    SortedKeysDistinct(SortSlots(NonDoeSlots(rows, zid)));
    forall i: nat, j: nat | i < j <= |keys|
      ensures ChainLabel(keys, i) != ChainLabel(keys, j)
    {
      assert keys[i] in keys;
    }
  }

  lemma RebuiltIsChain(rows: set<Row>, zid: nat, zone: Name, now: Component)
    requires NonDoeSlots(rows, zid) != {}
    ensures IsChain(Rebuilt(rows, zid, zone, now), zid, zone, SortSlots(NonDoeSlots(rows, zid)), now)
  {
  }

  lemma AbsentKey(rows: set<Row>, zid: nat, zone: Name, base: seq<Slot>, now: Component, s: Slot)
    requires IsChain(rows, zid, zone, base, now)
    requires Lookup(rows, zid, s.rrLabel, s.typ).None?
    ensures KeyOf(s) !in KeysOf(base)
  {
    forall i | 0 <= i < |base|
      ensures KeyOf(base[i]) != KeyOf(s)
    {
      assert base[i] in base;
      KeyInjective(base[i], s);
    }
  }

  /** The row that a lower-bound lookup returns sits at a lower-bound position of the chain. */
  lemma BoundPosition(rows: set<Row>, zid: nat, zone: Name, base: seq<Slot>, now: Component, q: Name, r: Row)
    returns (i: nat)
    requires IsChain(rows, zid, zone, base, now)
    requires IsBound(rows, zid, DOE, q, r)
    ensures i <= |base| && r == DoeRow(zid, zone, KeysOf(base), now, i)
    ensures IsLowerBound(KeysOf(base), q, i)
  {
    var keys := KeysOf(base);
    assert r in ChainRows(zid, zone, keys, now, |base| + 1);
    i :| i <= |base| && r == DoeRow(zid, zone, keys, now, i);
    OrderEmbedding(r.rrLabel, q);
    forall j: nat | j <= |keys| && NameLess(ChainLabel(keys, j), q)
      ensures !NameLess(ChainLabel(keys, i), ChainLabel(keys, j))
    {
      var s := DoeRow(zid, zone, keys, now, j);
      assert s in ChainRows(zid, zone, keys, now, |base| + 1);
      OrderEmbedding(s.rrLabel, q);
      OrderEmbedding(r.rrLabel, s.rrLabel);
    }
  }

  /** Whatever record set is asked for, the lookup finds a DoE row. */
  lemma ChainHasBound(rows: set<Row>, zid: nat, zone: Name, base: seq<Slot>, now: Component, q: Name)
    requires IsChain(rows, zid, zone, base, now) && q != []
    ensures LowerBound(rows, zid, DOE, q).Some?
  {
    var guard := DoeRow(zid, zone, KeysOf(base), now, |base|);
    assert guard in ChainRows(zid, zone, KeysOf(base), now, |base| + 1);
    OrderEmbedding([], q);
    assert guard in rows && Candidate(guard, zid, DOE, q);
  }

  ghost predicate Accepts(data: Data, q: Name)
  {
    && data.contentType == Doe && data.content.Range?
    && AbsentByRange((data.content.lower, data.content.upper), q)
  }

  /** Denial, end to end inside one zone: for a record set that is absent, the row
      picked in stored order is accepted by the client exactly when the chain allows it. */
  lemma DenialOfAbsentSlot(rows: set<Row>, zid: nat, zone: Name, base: seq<Slot>, now: Component, s: Slot)
    requires IsChain(rows, zid, zone, base, now)
    requires Lookup(rows, zid, s.rrLabel, s.typ).None?
    ensures LowerBound(rows, zid, DOE, KeyOf(s)).Some?
    ensures Accepts(LowerBound(rows, zid, DOE, KeyOf(s)).value.data, KeyOf(s)) <==>
            DenialWorks(KeysOf(base), KeyOf(s))
  {
    var q, keys := KeyOf(s), KeysOf(base);
    ChainHasBound(rows, zid, zone, base, now, q);
    var r := LowerBound(rows, zid, DOE, q).value;
    var i := BoundPosition(rows, zid, zone, base, now, q, r);
    AbsentKey(rows, zid, zone, base, now, s);
    SortedKeysDistinct(base);
    DenialExact(keys, q, i);
  }

  /** Every absent record set of the zone is denied by a row the client accepts. */
  ghost predicate DeniesAbsent(rows: set<Row>, zid: nat)
  {
    forall s: Slot {:trigger KeyOf(s)} :: Lookup(rows, zid, s.rrLabel, s.typ).None? ==>
      && LowerBound(rows, zid, DOE, KeyOf(s)).Some?
      && Accepts(LowerBound(rows, zid, DOE, KeyOf(s)).value.data, KeyOf(s))
  }

  lemma DenialComplete(rows: set<Row>, zid: nat, zone: Name, base: seq<Slot>, now: Component)
    requires IsChain(rows, zid, zone, base, now)
    requires NameLess(KeyOf(base[0]), KeyOf(base[|base| - 1]))
    ensures DeniesAbsent(rows, zid)
  {
    forall s: Slot | Lookup(rows, zid, s.rrLabel, s.typ).None?
      ensures LowerBound(rows, zid, DOE, KeyOf(s)).Some?
      ensures Accepts(LowerBound(rows, zid, DOE, KeyOf(s)).value.data, KeyOf(s))
    {
      DenialOfAbsentSlot(rows, zid, zone, base, now, s);
    }
  }

  /** Right after a rebuild, when the chain covers every record set, denial is
      complete only then: the condition is exact. */
  lemma DenialCompleteExact(rows: set<Row>, zid: nat, zone: Name, base: seq<Slot>, now: Component)
    requires IsChain(rows, zid, zone, base, now) && forall s :: s in NonDoeSlots(rows, zid) ==> s in base
    ensures DeniesAbsent(rows, zid) <==> NameLess(KeyOf(base[0]), KeyOf(base[|base| - 1]))
  {
    if NameLess(KeyOf(base[0]), KeyOf(base[|base| - 1])) {
      DenialComplete(rows, zid, zone, base, now);
    } else {
      var t := FirstBeforeLastNeeded(base);
      assert Lookup(rows, zid, t.rrLabel, t.typ).None?;
      DenialOfAbsentSlot(rows, zid, zone, base, now, t);
      assert KeyOf(t) == KeyOf(t);
    }
  }

  /** The zone's guard row, at the empty label, closes the chain from a later key back
      to an earlier one. */
  ghost predicate GuardCloses(rows: set<Row>, zid: nat)
  {
    exists r :: r in rows && At(r, zid, [], DOE) && r.data.content.Range? &&
      NameLess(r.data.content.upper, r.data.content.lower)
  }

  /** The guard row alone shows whether the chain's first key precedes its last. */
  lemma GuardRowTells(rows: set<Row>, zid: nat, zone: Name, base: seq<Slot>, now: Component)
    requires IsChain(rows, zid, zone, base, now)
    ensures GuardCloses(rows, zid) <==> NameLess(KeyOf(base[0]), KeyOf(base[|base| - 1]))
  {
    var keys, n := KeysOf(base), |base|;
    SortedKeysDistinct(base);
    assert forall k :: 0 <= k < n ==> keys[k] in keys;
    var guard := DoeRow(zid, zone, keys, now, n);
    assert guard in ChainRows(zid, zone, keys, now, n + 1);
    forall r | r in rows && At(r, zid, [], DOE)
      ensures r == guard
    {
      assert r in ChainRows(zid, zone, keys, now, n + 1);
      var i: nat :| i <= n && r == DoeRow(zid, zone, keys, now, i);
    }
  }

  // ---------- a chain over every record set ----------

  /** The zone's DoE rows are a chain over all of its record sets. */
  ghost predicate Covered(rows: set<Row>, zid: nat, zone: Name, now: Component)
  {
    exists base :: IsChain(rows, zid, zone, base, now) && forall s :: s in NonDoeSlots(rows, zid) ==> s in base
  }

  ghost predicate IsLast(ss: set<Slot>, s: Slot)
  {
    s in ss && forall u :: u in ss ==> !SlotLess(s, u)
  }

  ghost predicate IsFirst(ss: set<Slot>, s: Slot)
  {
    s in ss && forall u :: u in ss ==> !SlotLess(u, s)
  }

  /** `t` follows `s` in the order of label and type; the first follows the last. */
  ghost predicate Follows(ss: set<Slot>, s: Slot, t: Slot)
  {
    || (IsLast(ss, s) && IsFirst(ss, t))
    || (s in ss && t in ss && SlotLess(s, t) && forall u :: u in ss ==> !(SlotLess(s, u) && SlotLess(u, t)))
  }

  /** The DoE record at a label, with the range from one record set to another. */
  ghost predicate IsRangeRow(r: Row, zid: nat, zone: Name, rrLabel: Name, s: Slot, t: Slot, now: Component)
  {
    && At(r, zid, rrLabel, DOE) && r.version == now && r.ttl == 3600
    && r.data == Data(RecordName(zone, rrLabel, DOE, now), Doe, Range(KeyOf(s), KeyOf(t)))
  }

  /** What a covering chain is, row by row: at the key of every record set the range to the
      one that follows it, at the empty label the range from the last to the first, and
      nothing else. */
  lemma CoveredMeaning(rows: set<Row>, zid: nat, zone: Name, now: Component)
    requires Covered(rows, zid, zone, now)
    ensures var ss := NonDoeSlots(rows, zid);
            && (forall s, t :: Follows(ss, s, t) ==>
                  && (exists r :: r in rows && IsRangeRow(r, zid, zone, KeyOf(s), s, t, now))
                  && (IsLast(ss, s) ==> exists r :: r in rows && IsRangeRow(r, zid, zone, [], s, t, now)))
            && (forall r :: r in rows && r.zoneId == zid && r.typ == DOE ==>
                  exists s, t :: Follows(ss, s, t) &&
                    (IsRangeRow(r, zid, zone, KeyOf(s), s, t, now) ||
                     (IsLast(ss, s) && IsRangeRow(r, zid, zone, [], s, t, now))))
  {
    var ss := NonDoeSlots(rows, zid);
    var base :| IsChain(rows, zid, zone, base, now) && forall s :: s in ss ==> s in base;
    forall s, t | Follows(ss, s, t)
      ensures exists r :: r in rows && IsRangeRow(r, zid, zone, KeyOf(s), s, t, now)
      ensures IsLast(ss, s) ==> exists r :: r in rows && IsRangeRow(r, zid, zone, [], s, t, now)
    {
      FollowsHasRow(rows, zid, zone, base, now, s, t);
    }
    forall r | r in rows && r.zoneId == zid && r.typ == DOE
      ensures exists s, t :: Follows(ss, s, t) &&
                (IsRangeRow(r, zid, zone, KeyOf(s), s, t, now) ||
                 (IsLast(ss, s) && IsRangeRow(r, zid, zone, [], s, t, now)))
    {
      var s, t := RowFollows(rows, zid, zone, base, now, r);
    }
  }

  /** Positions of the sorted list are the order of its elements. */
  lemma SortedPositions(base: seq<Slot>, i: nat, j: nat)
    requires SortedSlots(base) && i < |base| && j < |base|
    ensures SlotLess(base[i], base[j]) <==> i < j
  {
    if j < i {
      SlotLessAsymmetric(base[j], base[i]);
    } else if i == j {
      SlotLessIrreflexive(base[i]);
    }
  }

  /** Which positions follow each other. */
  lemma FollowsPositions(ss: set<Slot>, base: seq<Slot>, i: nat, j: nat)
    requires SortedSlots(base) && (forall s :: s in base <==> s in ss) && i < |base| && j < |base|
    ensures IsLast(ss, base[i]) <==> i == |base| - 1
    ensures Follows(ss, base[i], base[j]) <==> j == if i < |base| - 1 then i + 1 else 0
  {
    var n := |base|;
    assert base[i] in base && base[j] in base && base[n - 1] in base && base[0] in base;
    forall k: nat | k < n
      ensures (SlotLess(base[i], base[k]) <==> i < k) && (SlotLess(base[k], base[j]) <==> k < j) && base[k] in ss
    {
      assert base[k] in base;
      SortedPositions(base, i, k);
      SortedPositions(base, k, j);
    }
    assert forall u :: u in ss ==> exists k: nat :: k < n && base[k] == u;
    if i < n - 1 {
      assert base[i + 1] in ss;
    }
  }

  lemma FollowsHasRow(rows: set<Row>, zid: nat, zone: Name, base: seq<Slot>, now: Component, s: Slot, t: Slot)
    requires IsChain(rows, zid, zone, base, now) && forall x :: x in NonDoeSlots(rows, zid) ==> x in base
    requires Follows(NonDoeSlots(rows, zid), s, t)
    ensures exists r :: r in rows && IsRangeRow(r, zid, zone, KeyOf(s), s, t, now)
    ensures IsLast(NonDoeSlots(rows, zid), s) ==> exists r :: r in rows && IsRangeRow(r, zid, zone, [], s, t, now)
  {
    var keys := KeysOf(base);
    var i: nat :| i < |base| && base[i] == s;
    var j: nat :| j < |base| && base[j] == t;
    FollowsPositions(NonDoeSlots(rows, zid), base, i, j);
    var row, guard := DoeRow(zid, zone, keys, now, i), DoeRow(zid, zone, keys, now, |base|);
    assert row in ChainRows(zid, zone, keys, now, |base| + 1) && guard in ChainRows(zid, zone, keys, now, |base| + 1);
    assert IsRangeRow(row, zid, zone, KeyOf(s), s, t, now);
    assert i == |base| - 1 ==> IsRangeRow(guard, zid, zone, [], s, t, now);
  }

  lemma RowFollows(rows: set<Row>, zid: nat, zone: Name, base: seq<Slot>, now: Component, r: Row)
    returns (s: Slot, t: Slot)
    requires IsChain(rows, zid, zone, base, now) && forall x :: x in NonDoeSlots(rows, zid) ==> x in base
    requires r in rows && r.zoneId == zid && r.typ == DOE
    ensures Follows(NonDoeSlots(rows, zid), s, t)
    ensures IsRangeRow(r, zid, zone, KeyOf(s), s, t, now) ||
            (IsLast(NonDoeSlots(rows, zid), s) && IsRangeRow(r, zid, zone, [], s, t, now))
  {
    hide Follows, IsLast, SlotLess, SortedSlots;
    var keys, n := KeysOf(base), |base|;
    assert r in ChainRows(zid, zone, keys, now, n + 1);
    var k: nat :| k <= n && r == DoeRow(zid, zone, keys, now, k);
    var i := if k < n then k else n - 1;
    var j := if i < n - 1 then i + 1 else 0;
    s, t := base[i], base[j];
    FollowsPositions(NonDoeSlots(rows, zid), base, i, j);
  }

  lemma RebuiltCovered(rows: set<Row>, zid: nat, zone: Name, now: Component)
    requires NonDoeSlots(rows, zid) != {}
    ensures Covered(Rebuilt(rows, zid, zone, now), zid, zone, now)
  {
    RebuiltIsChain(rows, zid, zone, now);
    var base := SortSlots(NonDoeSlots(rows, zid));
    assert NonDoeSlots(Rebuilt(rows, zid, zone, now), zid) == NonDoeSlots(rows, zid);
  }
}
