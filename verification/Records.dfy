/** Data packets, resource record sets and the order in which generateDoe sorts
    them. A packet's content is kept in decoded form; module Wire relates it to bytes. */
module Records {
  import opened Tlv
  import opened Names

  const NDNS_QUERY := Component(GENERIC, [78, 68, 78, 83])          // "NDNS"
  const UPDATE_LABEL := Component(GENERIC, [85, 80, 68, 65, 84, 69])  // "UPDATE"
  const NS := Component(GENERIC, [78, 83])                          // "NS"
  const CERT := Component(GENERIC, [67, 69, 82, 84])                // "CERT"
  const TXT := Component(GENERIC, [84, 88, 84])                     // "TXT"
  const DOE := Component(GENERIC, [68, 79, 69])                     // "DOE"
  const KEY := Component(GENERIC, [75, 69, 89])                     // "KEY"
  const NO_COMPONENT := Component(GENERIC, [])

  datatype ContentType = Blob | Link | Key | Nack | Doe | Auth | Resp

  datatype Content =
    | Nothing
    | Delegations(names: seq<Name>)
    | Range(lower: Name, upper: Name)
    | Nested(inner: Data)
    | Payload(bytes: Bytes)

  datatype Data = Data(name: Name, contentType: ContentType, content: Content)

  datatype Row = Row(zoneId: nat, rrLabel: Name, typ: Component, version: Component, ttl: nat, data: Data)

  /** What identifies a record set inside a zone. */
  datatype Slot = Slot(rrLabel: Name, typ: Component)

  function SlotOf(r: Row): Slot { Slot(r.rrLabel, r.typ) }

  /** The name that DoE ranges and denial lookups use for a record set. */
  function KeyOf(s: Slot): Name { s.rrLabel + [s.typ] }

  lemma KeyInjective(s: Slot, t: Slot)
    ensures KeyOf(s) == KeyOf(t) <==> s == t
    ensures KeyOf(s) != []
  {
    assert KeyOf(s)[..|KeyOf(s)| - 1] == s.rrLabel && KeyOf(t)[..|KeyOf(t)| - 1] == t.rrLabel;
  }

  /** Name of the packet that answers for a record set: zone/NDNS/label/type/version. */
  function RecordName(zone: Name, rrLabel: Name, typ: Component, version: Component): Name
  {
    zone + [NDNS_QUERY] + rrLabel + [typ, version]
  }

  /** The assertions of calculateSkip. */
  predicate UnderZone(name: Name, zone: Name)
  {
    zone + [NDNS_QUERY] <= name
  }

  /** Label, type and version of a packet name. */
  function MatchData(name: Name, zone: Name): Option<(Name, Component, Component)>
    requires UnderZone(name, zone)
  {
    var skip, n := |zone| + 1, |name|;
    if n - skip < 2 then None else Some((name[skip..n - 2], name[n - 2], name[n - 1]))
  }

  // ---------- getPrefix and getSubName clamp to the name's end ----------

  function Prefix(n: Name, k: nat): Name
  {
    if k >= |n| then n else n[..k]
  }

  function SubName(n: Name, i: nat, k: nat): Name
  {
    if i >= |n| then [] else if i + k >= |n| then n[i..] else n[i..i + k]
  }

  // ---------- Rrset::operator< ----------

  predicate RowLess(a: Row, b: Row)
  {
    || NameLess(a.rrLabel, b.rrLabel)
    || (a.rrLabel == b.rrLabel && ComponentLess(a.typ, b.typ))
    || (a.rrLabel == b.rrLabel && a.typ == b.typ && ComponentLess(a.version, b.version))
  }

  predicate SlotLess(a: Slot, b: Slot)
  {
    NameLess(a.rrLabel, b.rrLabel) || (a.rrLabel == b.rrLabel && ComponentLess(a.typ, b.typ))
  }

  lemma SingletonLess(c: Component, d: Component)
    ensures NameLess([c], [d]) <==> ComponentLess(c, d)
  {
  }

  lemma SlotLessTotal(a: Slot, b: Slot)
    ensures a == b || SlotLess(a, b) || SlotLess(b, a)
  {
    NameLessTotal(a.rrLabel, b.rrLabel);
    ComponentLessTotal(a.typ, b.typ);
  }

  lemma SlotLessAsymmetric(a: Slot, b: Slot)
    requires SlotLess(a, b)
    ensures a != b && !SlotLess(b, a)
  {
    if NameLess(a.rrLabel, b.rrLabel) {
      NameLessAsymmetric(a.rrLabel, b.rrLabel);
    } else {
      SingletonLess(a.typ, b.typ);
      SingletonLess(b.typ, a.typ);
      NameLessAsymmetric([a.typ], [b.typ]);
      if NameLess(b.rrLabel, a.rrLabel) {
        NameLessAsymmetric(b.rrLabel, a.rrLabel);
      }
    }
  }

  lemma SlotLessTransitive(a: Slot, b: Slot, c: Slot)
    requires SlotLess(a, b) && SlotLess(b, c)
    ensures SlotLess(a, c)
  {
    if NameLess(a.rrLabel, b.rrLabel) && NameLess(b.rrLabel, c.rrLabel) {
      NameLessTransitive(a.rrLabel, b.rrLabel, c.rrLabel);
    } else if a.rrLabel == b.rrLabel && b.rrLabel == c.rrLabel && !NameLess(a.rrLabel, b.rrLabel) {
      SingletonLess(a.typ, b.typ);
      SingletonLess(b.typ, c.typ);
      SingletonLess(a.typ, c.typ);
      if NameLess(b.rrLabel, c.rrLabel) {
        NameLessAsymmetric(b.rrLabel, c.rrLabel);
      }
      NameLessTransitive([a.typ], [b.typ], [c.typ]);
    }
  }

  /** Rrset::operator< is a strict weak order. */
  lemma RowLessWeak(a: Row, b: Row, c: Row)
    ensures RowLess(a, c) ==> RowLess(a, b) || RowLess(b, c)
    ensures RowLess(a, c) ==> !RowLess(c, a)
  {
    SlotLessTotal(SlotOf(a), SlotOf(b));
    ComponentLessTotal(a.version, b.version);
    if RowLess(a, c) {
      SingletonLess(a.version, c.version);
      SingletonLess(c.version, a.version);
      if SlotLess(SlotOf(a), SlotOf(c)) {
        SlotLessAsymmetric(SlotOf(a), SlotOf(c));
      } else {
        NameLessAsymmetric([a.version], [c.version]);
        SlotLessIrreflexive(SlotOf(a));
      }
      if SlotLess(SlotOf(b), SlotOf(a)) && SlotLess(SlotOf(a), SlotOf(c)) {
        SlotLessTransitive(SlotOf(b), SlotOf(a), SlotOf(c));
      }
      if ComponentLess(b.version, a.version) && ComponentLess(a.version, c.version) {
        SingletonLess(b.version, a.version);
        SingletonLess(b.version, c.version);
        NameLessTransitive([b.version], [a.version], [c.version]);
      }
    }
  }

  lemma SlotLessIrreflexive(a: Slot)
    ensures !SlotLess(a, a)
  {
    if SlotLess(a, a) {
      SlotLessAsymmetric(a, a);
    }
  }

  /** The sort order and the order of the keys disagree on a sorted pair exactly
      when the first label is a proper prefix of the second and the next
      component of the second comes before the first one's type. */
  lemma SortOrderVsKeyOrder(a: Slot, b: Slot)
    requires SlotLess(a, b)
    ensures NameLess(KeyOf(a), KeyOf(b)) <==>
            !(a.rrLabel < b.rrLabel && ComponentLess(b.rrLabel[|a.rrLabel|], a.typ))
  {
    if a.rrLabel == b.rrLabel {
      if NameLess(a.rrLabel, b.rrLabel) {
        NameLessAsymmetric(a.rrLabel, b.rrLabel);
      }
      NameLessSamePrefix(a.rrLabel, [a.typ], [b.typ]);
      SingletonLess(a.typ, b.typ);
    } else if a.rrLabel < b.rrLabel {
      var k := |a.rrLabel|;
      var tail := b.rrLabel[k..] + [b.typ];
      assert KeyOf(b) == a.rrLabel + tail;
      NameLessSamePrefix(a.rrLabel, [a.typ], tail);
      assert tail[0] == b.rrLabel[k] && [a.typ][1..] == [] && tail[1..] != [];
      ComponentLessTotal(a.typ, tail[0]);
      SingletonLess(a.typ, tail[0]);
      SingletonLess(tail[0], a.typ);
      if ComponentLess(tail[0], a.typ) {
        NameLessAsymmetric([tail[0]], [a.typ]);
      }
    } else {
      NameLessExtend(a.rrLabel, b.rrLabel, [a.typ], [b.typ]);
    }
  }
}
