/** The cyclic chain of denial-of-existence ranges: what generateDoe builds, how
    the server picks a range, and what the client accepts. */
module Chain {
  import opened Names
  import opened Records
  import Tlv

  ghost predicate Distinct<T>(s: seq<T>)
  {
    forall i, j :: 0 <= i < j < |s| ==> s[i] != s[j]
  }

  ghost predicate SortedSlots(s: seq<Slot>)
  {
    forall i, j :: 0 <= i < j < |s| ==> SlotLess(s[i], s[j])
  }

  function KeysOf(s: seq<Slot>): (keys: seq<Name>)
    ensures |keys| == |s| && forall i :: 0 <= i < |s| ==> keys[i] == KeyOf(s[i])
  {
    seq(|s|, i requires 0 <= i < |s| => KeyOf(s[i]))
  }

  /** Position i of the chain; position |keys| is the guard row at the empty label. */
  function ChainLabel(keys: seq<Name>, i: nat): Name
    requires i <= |keys|
  {
    if i < |keys| then keys[i] else []
  }

  function ChainRange(keys: seq<Name>, i: nat): (Name, Name)
    requires i <= |keys| && keys != []
  {
    if i < |keys| - 1 then (keys[i], keys[i + 1]) else (keys[|keys| - 1], keys[0])
  }

  /** The client's test (isAbsentByDoe). */
  predicate AbsentByRange(range: (Name, Name), q: Name)
  {
    || (NameLess(range.0, q) && NameLess(q, range.1))
    || (NameLess(range.1, range.0) && (NameLess(q, range.0) || NameLess(range.1, q)))
  }

  /** An ordered range denies exactly the names strictly between its ends, a
      degenerate one denies nothing, and an inverted one denies every name. */
  lemma AbsentByRangeMeaning(range: (Name, Name), q: Name)
    ensures NameLess(range.0, range.1) ==>
              (AbsentByRange(range, q) <==> NameLess(range.0, q) && NameLess(q, range.1))
    ensures range.0 == range.1 ==> !AbsentByRange(range, q)
    ensures NameLess(range.1, range.0) ==> AbsentByRange(range, q)
  {
    NameLessTotal(q, range.0);
    if NameLess(range.0, range.1) {
      NameLessAsymmetric(range.0, range.1);
    }
    if NameLess(range.0, q) && NameLess(q, range.1) {
      NameLessTransitive(range.0, q, range.1);
      if range.0 == range.1 || NameLess(range.1, range.0) {
        NameLessAsymmetric(range.0, range.1);
      }
    }
    if NameLess(range.1, range.0) && range.0 == range.1 {
      NameLessAsymmetric(range.1, range.0);
    }
    if NameLess(range.1, range.0) && NameLess(range.0, q) {
      NameLessTransitive(range.1, range.0, q);
    }
  }

  /** `i` is the chain position that `label < q ORDER BY label DESC` puts first. */
  ghost predicate IsLowerBound(keys: seq<Name>, q: Name, i: nat)
  {
    && i <= |keys|
    && NameLess(ChainLabel(keys, i), q)
    && forall j: nat :: j <= |keys| && NameLess(ChainLabel(keys, j), q)
         ==> !NameLess(ChainLabel(keys, i), ChainLabel(keys, j))
  }

  /** Whether a denial of `q` will be accepted, decided by the chain's first and
      last keys and by whether some key precedes `q`. */
  ghost predicate DenialWorks(keys: seq<Name>, q: Name)
    requires keys != []
  {
    || NameLess(keys[0], keys[|keys| - 1])
    || (|keys| >= 2 && exists i :: 0 <= i < |keys| && NameLess(keys[i], q))
  }

  /** For an absent `q`, the range the server picks is accepted by the client
      exactly when `DenialWorks`. The keys need no particular order. */
  lemma DenialExact(keys: seq<Name>, q: Name, i: nat)
    requires keys != [] && Distinct(keys) && [] !in keys
    requires q !in keys
    requires IsLowerBound(keys, q, i)
    ensures AbsentByRange(ChainRange(keys, i), q) <==> DenialWorks(keys, q)
  {
    var n := |keys|;
    AbsentByRangeMeaning(ChainRange(keys, i), q);
    NameLessTotal(keys[0], keys[n - 1]);
    NameLessIrreflexive(keys[0]);
    if i < n - 1 {
      NameLessTotal(keys[i + 1], q);
      if NameLess(keys[i + 1], q) {
        assert ChainLabel(keys, i + 1) == keys[i + 1];
        NameLessTotal(keys[i], keys[i + 1]);
      } else {
        NameLessTransitive(keys[i], q, keys[i + 1]);
      }
    } else if n >= 2 && NameLess(keys[n - 1], keys[0]) {
      NameLessAsymmetric(keys[n - 1], keys[0]);
      OuterRangeExact(keys, q, i);
    }
  }

  /** The last row and the guard row when the sorted ends are inverted by name. */
  lemma OuterRangeExact(keys: seq<Name>, q: Name, i: nat)
    requires |keys| >= 2 && Distinct(keys) && [] !in keys && q !in keys
    requires IsLowerBound(keys, q, i) && i >= |keys| - 1
    requires NameLess(keys[|keys| - 1], keys[0])
    ensures NameLess(keys[|keys| - 1], q) && NameLess(q, keys[0]) <==>
            exists j :: 0 <= j < |keys| && NameLess(keys[j], q)
  {
    var n := |keys|;
    if i == n {
      forall j | 0 <= j < n
        ensures !NameLess(keys[j], q)
      {
        assert ChainLabel(keys, j) == keys[j];
        assert NameLess([], keys[j]);
      }
    } else {
      NameLessTotal(q, keys[0]);
      assert ChainLabel(keys, 0) == keys[0];
    }
  }

  // ---------- exact semantics of a chain whose keys are in name order ----------

  ghost predicate Ascending(keys: seq<Name>)
  {
    forall i, j :: 0 <= i < j < |keys| ==> NameLess(keys[i], keys[j])
  }

  datatype Cell = AtKey(i: nat) | InnerGap(i: nat) | OuterGap

  ghost predicate InCell(keys: seq<Name>, q: Name, c: Cell)
    requires keys != []
  {
    match c
    case AtKey(i) => i < |keys| && q == keys[i]
    case InnerGap(i) => i < |keys| - 1 && NameLess(keys[i], q) && NameLess(q, keys[i + 1])
    case OuterGap => NameLess(q, keys[0]) || NameLess(keys[|keys| - 1], q)
  }

  /** The keys, the inner gaps and the outer gap cover every name. */
  lemma {:induction false} CellExists(keys: seq<Name>, q: Name) returns (c: Cell)
    requires keys != [] && Ascending(keys)
    ensures InCell(keys, q, c)
    decreases |keys|
  {
    var n := |keys|;
    NameLessTotal(q, keys[n - 1]);
    if q == keys[n - 1] {
      c := AtKey(n - 1);
    } else if NameLess(keys[n - 1], q) || n == 1 {
      c := OuterGap;
    } else {
      var c' := CellExists(keys[..n - 1], q);
      c := if c' == OuterGap && !NameLess(q, keys[0]) then InnerGap(n - 2) else c';
    }
  }

  /** In an ascending chain, what is below a key is below all later keys, and
      what is above a key is above all earlier ones. */
  lemma AscendingBounds(keys: seq<Name>, q: Name, i: nat, j: nat)
    requires Ascending(keys) && i <= j < |keys|
    ensures NameLess(q, keys[i]) ==> NameLess(q, keys[j])
    ensures NameLess(keys[j], q) ==> NameLess(keys[i], q)
  {
    if i < j {
      if NameLess(q, keys[i]) {
        NameLessTransitive(q, keys[i], keys[j]);
      }
      if NameLess(keys[j], q) {
        NameLessTransitive(keys[i], keys[j], q);
      }
    }
  }

  /** The half-position of a cell: 2i for key i, 2i+1 for the gap after it. */
  function CellRank(c: Cell, n: nat): int
  {
    match c
    case AtKey(i) => 2 * i
    case InnerGap(i) => 2 * i + 1
    case OuterGap => 2 * n
  }

  /** No name lies in two cells. */
  lemma CellUnique(keys: seq<Name>, q: Name, c: Cell, d: Cell)
    requires keys != [] && Ascending(keys)
    requires InCell(keys, q, c) && InCell(keys, q, d)
    ensures c == d
    decreases CellRank(c, |keys|) > CellRank(d, |keys|)
  {
    var n := |keys|;
    if CellRank(c, n) > CellRank(d, n) {
      CellUnique(keys, q, d, c);
    } else if c != d {
      // q is at or below `keys[hi]` by cell c, and at or above `keys[lo]` by cell d
      var at := c.i;
      match d
      case AtKey(j) =>
        AscendingBounds(keys, q, if c.AtKey? then at else at + 1, j);
        NameLessIrreflexive(q);
      case InnerGap(j) =>
        if c.InnerGap? {
          AscendingBounds(keys, q, at + 1, j);
          NameLessAsymmetric(q, keys[j]);
        } else {
          AscendingBounds(keys, q, at, j);
          NameLessIrreflexive(q);
        }
      case OuterGap =>
        AscendingBounds(keys, q, 0, at);
        AscendingBounds(keys, q, at, n - 1);
        NameLessIrreflexive(q);
        if c.InnerGap? {
          AscendingBounds(keys, q, at + 1, n - 1);
          if NameLess(q, keys[0]) {
            NameLessAsymmetric(q, keys[at]);
          } else {
            NameLessAsymmetric(q, keys[n - 1]);
          }
        }
    }
  }

  lemma NameLessIrreflexive(q: Name)
    ensures !NameLess(q, q)
  {
    if NameLess(q, q) {
      NameLessAsymmetric(q, q);
    }
  }

  /** In an ascending chain of two or more keys each inner row denies exactly its
      own gap, and the last row and the guard row deny every name. */
  lemma ChainSemantics(keys: seq<Name>, q: Name, i: nat)
    requires |keys| >= 2 && Ascending(keys) && i <= |keys|
    ensures i < |keys| - 1 ==> (AbsentByRange(ChainRange(keys, i), q) <==> InCell(keys, q, InnerGap(i)))
    ensures i >= |keys| - 1 ==> AbsentByRange(ChainRange(keys, i), q)
  {
    AbsentByRangeMeaning(ChainRange(keys, i), q);
  }

  lemma {:induction false} NeighboursAscend(keys: seq<Name>, i: nat, j: nat)
    requires forall k :: 0 <= k < |keys| - 1 ==> NameLess(keys[k], keys[k + 1])
    requires i < j < |keys|
    ensures NameLess(keys[i], keys[j])
  {
    if i + 1 < j {
      NeighboursAscend(keys, i, j - 1);
      NameLessTransitive(keys[i], keys[j - 1], keys[j - 1 + 1]);
    } else {
      assert NameLess(keys[i], keys[i + 1]);
    }
  }

  ghost predicate InnerRowsDenyNoKey(keys: seq<Name>)
  {
    forall i, j :: 0 <= i < |keys| - 1 && 0 <= j < |keys| ==> !AbsentByRange(ChainRange(keys, i), keys[j])
  }

  /** No inner row denies a stored record if and only if the sorted keys are also in
      name order, which a nested label can break. */
  lemma InnerRowsSoundExact(keys: seq<Name>)
    requires Distinct(keys)
    ensures InnerRowsDenyNoKey(keys) <==> Ascending(keys)
  {
    if InnerRowsDenyNoKey(keys) {
      forall i | 0 <= i < |keys| - 1
        ensures NameLess(keys[i], keys[i + 1])
      {
        NameLessTotal(keys[i], keys[i + 1]);
        AbsentByRangeMeaning(ChainRange(keys, i), keys[0]);
      }
      forall i, j | 0 <= i < j < |keys|
        ensures NameLess(keys[i], keys[j])
      {
        NeighboursAscend(keys, i, j);
      }
    }
    if Ascending(keys) {
      forall i, j | 0 <= i < |keys| - 1 && 0 <= j < |keys|
        ensures !AbsentByRange(ChainRange(keys, i), keys[j])
      {
        ChainSemantics(keys, keys[j], i);
        if InCell(keys, keys[j], InnerGap(i)) {
          CellUnique(keys, keys[j], AtKey(j), InnerGap(i));
        }
      }
    }
  }

  /** For sorted record sets, the keys ascend exactly when no label is extended by
      another one whose next component precedes its type. */
  lemma AscendingExact(s: seq<Slot>)
    requires SortedSlots(s)
    ensures Ascending(KeysOf(s)) <==>
            forall i, j :: 0 <= i < j < |s| ==>
              !(s[i].rrLabel < s[j].rrLabel && ComponentLess(s[j].rrLabel[|s[i].rrLabel|], s[i].typ))
  {
    forall i, j | 0 <= i < j < |s|
      ensures NameLess(KeysOf(s)[i], KeysOf(s)[j]) <==>
              !(s[i].rrLabel < s[j].rrLabel && ComponentLess(s[j].rrLabel[|s[i].rrLabel|], s[i].typ))
    {
      SortOrderVsKeyOrder(s[i], s[j]);
    }
  }

  // ---------- when the first sorted key precedes the last ----------

  /** A label sorted between a label and one of its extensions extends it too. */
  lemma BetweenExtensions(p: Name, l: Name, e: Name)
    requires p <= e
    requires p == l || NameLess(p, l)
    requires l == e || NameLess(l, e)
    ensures p <= l
  {
    if !(p <= l) {
      var x := e[|p|..];
      assert e == p + x;
      NameLessExtend(p, l, x, []);
      assert l + [] == l;
      NameLessAsymmetric(e, l);
    }
  }

  lemma SortedBounds(s: seq<Slot>, t: Slot)
    requires SortedSlots(s) && t in s
    ensures s[0].rrLabel == t.rrLabel || NameLess(s[0].rrLabel, t.rrLabel)
    ensures t.rrLabel == s[|s| - 1].rrLabel || NameLess(t.rrLabel, s[|s| - 1].rrLabel)
  {
  }

  /** The certificates that createZone adds. */
  function CertSlot(id: Component): Slot { Slot([KEY, id], CERT) }

  lemma CommonPrefix(p: Name, id1: Component, id2: Component)
    requires id1 != id2
    ensures p <= [KEY, id1] && p <= [KEY, id2] ==> p == [] || p == [KEY]
  {
    assert [KEY, id1][1] == id1 && [KEY, id2][1] == id2;
  }

  /** A zone that keeps its two key certificates and has no record at its apex or
      at /KEY has a first key before its last key, whatever else it holds. */
  lemma GuardCondition(s: seq<Slot>, id1: Component, id2: Component)
    requires SortedSlots(s) && id1 != id2
    requires CertSlot(id1) in s && CertSlot(id2) in s
    requires forall t :: t in s ==> t.rrLabel != [] && t.rrLabel != [KEY]
    ensures |s| >= 2 && NameLess(KeyOf(s[0]), KeyOf(s[|s| - 1]))
  {
    var first, last := s[0], s[|s| - 1];
    assert CertSlot(id1).rrLabel[1] != CertSlot(id2).rrLabel[1];
    SortOrderVsKeyOrder(first, last);
    assert first in s;
    if first.rrLabel < last.rrLabel {
      SortedBounds(s, CertSlot(id1));
      SortedBounds(s, CertSlot(id2));
      BetweenExtensions(first.rrLabel, [KEY, id1], last.rrLabel);
      CommonPrefix(first.rrLabel, id1, id2);
      BetweenExtensions(first.rrLabel, [KEY, id2], last.rrLabel);
    }
  }

  /** Without that condition denial can fail: with one TXT record at the apex, the
      first key /TXT follows the last key /KEY/b/CERT, and of the absent names exactly
      those that precede /KEY/a/CERT get a row that the client rejects. */
  lemma ApexRecordBreaksDenial(a: Component, b: Component, q: Name, i: nat)
    requires ComponentLess(a, b)
    requires var keys := KeysOf([Slot([], TXT), CertSlot(a), CertSlot(b)]);
             q !in keys && IsLowerBound(keys, q, i)
    ensures var s := [Slot([], TXT), CertSlot(a), CertSlot(b)];
            && SortedSlots(s)
            && (AbsentByRange(ChainRange(KeysOf(s), i), q) <==> NameLess(KeyOf(CertSlot(a)), q))
  {
    var s := [Slot([], TXT), CertSlot(a), CertSlot(b)];
    var keys := KeysOf(s);
    ApexChain(a, b);
    assert Distinct(keys) && [] !in keys by {
      NameLessAsymmetric(keys[1], keys[2]);
      NameLessAsymmetric(keys[2], keys[0]);
      NameLessAsymmetric(keys[1], keys[0]);
    }
    DenialExact(keys, q, i);
    ApexDenial(a, b, q);
  }

  lemma ApexDenial(a: Component, b: Component, q: Name)
    requires ComponentLess(a, b)
    ensures DenialWorks(KeysOf([Slot([], TXT), CertSlot(a), CertSlot(b)]), q) <==> NameLess(KeyOf(CertSlot(a)), q)
  {
    var keys := KeysOf([Slot([], TXT), CertSlot(a), CertSlot(b)]);
    ApexChain(a, b);
    NameLessAsymmetric(keys[2], keys[0]);
    if j :| 0 <= j < 3 && NameLess(keys[j], q) {
      if j == 2 {
        NameLessTransitive(keys[1], keys[2], q);
      } else if j == 0 {
        NameLessTransitive(keys[1], keys[0], q);
      }
    }
  }

  lemma ApexChain(a: Component, b: Component)
    requires ComponentLess(a, b)
    ensures var s := [Slot([], TXT), CertSlot(a), CertSlot(b)];
            var keys := KeysOf(s);
            && SortedSlots(s)
            && NameLess(keys[1], keys[2]) && NameLess(keys[2], keys[0]) && NameLess(keys[1], keys[0])
  {
    var s := [Slot([], TXT), CertSlot(a), CertSlot(b)];
    var keys := KeysOf(s);
    NameLessSamePrefix([KEY], [a], [b]);
    SingletonLess(a, b);
    assert [KEY] + [a] == [KEY, a] && [KEY] + [b] == [KEY, b];
    assert Tlv.BytesLess(KEY.value, TXT.value);
    assert ComponentLess(KEY, TXT);
    assert SlotLess(s[1], s[2]);
    SortOrderVsKeyOrder(s[1], s[2]);
    assert keys[0] == [TXT] && keys[1][0] == KEY && keys[2][0] == KEY;
  }

  /** An inner row with inverted ends denies every name, stored or not. Any record
      whose label is extended by another one, with a next component before the record's
      type, leads to such a row: /x of type NS (an AUTH row, say) and /x/a of type TXT
      with `a` before `NS`. */
  lemma NestedLabelInvertsRow(s: seq<Slot>, t: Slot, u: Slot) returns (i: nat)
    requires SortedSlots(s) && t in s && u in s
    requires t.rrLabel < u.rrLabel && ComponentLess(u.rrLabel[|t.rrLabel|], t.typ)
    ensures i < |s| - 1 && forall q :: AbsentByRange(ChainRange(KeysOf(s), i), q)
  {
    var keys := KeysOf(s);
    var m: nat :| m < |s| && s[m] == t;
    var n: nat :| n < |s| && s[n] == u;
    ProperPrefixLess(t.rrLabel, u.rrLabel);
    SlotLessAsymmetric(t, u);
    assert m < n;
    SortOrderVsKeyOrder(t, u);
    if forall k :: 0 <= k < |keys| - 1 ==> NameLess(keys[k], keys[k + 1]) {
      NeighboursAscend(keys, m, n);
    }
    i :| i < |keys| - 1 && !NameLess(keys[i], keys[i + 1]);
    SlotLessAsymmetric(s[i], s[i + 1]);
    KeyInjective(s[i], s[i + 1]);
    NameLessTotal(keys[i], keys[i + 1]);
    forall q
      ensures AbsentByRange(ChainRange(keys, i), q)
    {
      AbsentByRangeMeaning(ChainRange(keys, i), q);
    }
  }

  lemma ProperPrefixLess(p: Name, e: Name)
    requires p < e
    ensures NameLess(p, e)
  {
    NameLessSamePrefix(p, [], e[|p|..]);
    assert p + [] == p && p + e[|p|..] == e;
  }

  /** The smallest such zone: the two records that a two-level addition of a TXT
      record leaves. The row between them denies both. */
  lemma NestedPairDenied(x: Component, a: Component)
    requires ComponentLess(a, NS)
    ensures var s := [Slot([x], NS), Slot([x, a], TXT)];
            && SortedSlots(s)
            && AbsentByRange(ChainRange(KeysOf(s), 0), KeyOf(s[0]))
            && AbsentByRange(ChainRange(KeysOf(s), 0), KeyOf(s[1]))
  {
    var s := [Slot([x], NS), Slot([x, a], TXT)];
    assert [x] + [a] == [x, a];
    ProperPrefixLess([x], [x, a]);
    assert s[0] in s && s[1] in s;
    var i := NestedLabelInvertsRow(s, s[0], s[1]);
    assert i == 0;
  }

  /** The least key of all: a single component of type 1 without a value. */
  const LEAST := Component(1, [])

  lemma LeastKey(t: Slot)
    ensures t == Slot([], LEAST) || (SlotLess(Slot([], LEAST), t) && NameLess(KeyOf(Slot([], LEAST)), KeyOf(t)))
  {
  }

  /** The first key before the last is also necessary: otherwise some record set is
      absent from the chain and not denied by it. */
  lemma FirstBeforeLastNeeded(s: seq<Slot>) returns (t: Slot)
    requires s != [] && SortedSlots(s) && !NameLess(KeyOf(s[0]), KeyOf(s[|s| - 1]))
    ensures t !in s && t.typ != DOE && !DenialWorks(KeysOf(s), KeyOf(t))
  {
    var n := |s|;
    LeastKey(s[n - 1]);
    assert |KEY.value| == |DOE.value| && KEY.value[0] != DOE.value[0];
    t := if s == [Slot([], LEAST)] then Slot([], KEY) else Slot([], LEAST);
    forall i | 0 <= i < n
      ensures t != s[i] && (n >= 2 ==> !NameLess(KeyOf(s[i]), KeyOf(t)))
    {
      LeastKey(s[i]);
      if n >= 2 {
        LeastKey(s[0]);
        assert i > 0 ==> SlotLess(s[0], s[i]);
        if i > 0 {
          SlotLessAsymmetric(s[0], s[i]);
        }
        if t == s[i] {
          SlotLessAsymmetric(s[0], s[n - 1]);
        } else {
          NameLessAsymmetric(KeyOf(t), KeyOf(s[i]));
        }
      }
    }
  }
}
