/** Name components, names, their canonical order ("Canonical Order" in the Name
    chapter of the NDN Packet Format Specification v0.3), and the way the
    database stores a name: the concatenation of its component TLVs. */
module Names {
  import opened Tlv

  type ComponentType = t: nat | 1 <= t <= 65535 witness 8
  type Value = v: Bytes | |v| < LIMIT

  datatype Component = Component(typ: ComponentType, value: Value)
  type Name = seq<Component>

  const GENERIC: ComponentType := 8
  const VERSION: ComponentType := 54

  // ---------- canonical order ----------

  predicate ComponentLess(c: Component, d: Component)
  {
    || c.typ < d.typ
    || (c.typ == d.typ && |c.value| < |d.value|)
    || (c.typ == d.typ && |c.value| == |d.value| && BytesLess(c.value, d.value))
  }

  predicate NameLess(a: Name, b: Name)
  {
    b != [] && (a == [] || ComponentLess(a[0], b[0]) || (a[0] == b[0] && NameLess(a[1..], b[1..])))
  }

  lemma ComponentLessTotal(c: Component, d: Component)
    ensures c == d || ComponentLess(c, d) || ComponentLess(d, c)
  {
    BytesLessTotal(c.value, d.value);
  }

  // ---------- stored form ----------

  function ComponentWire(c: Component): Bytes
  {
    Element(c.typ, c.value)
  }

  /** What saveName binds: the value part of the name's wire encoding. */
  function NameWire(n: Name): Bytes
  {
    if n == [] then [] else ComponentWire(n[0]) + NameWire(n[1..])
  }

  lemma ComponentWireOrder(c: Component, d: Component, s: Bytes, t: Bytes)
    requires ComponentLess(c, d)
    ensures BytesLess(ComponentWire(c) + s, ComponentWire(d) + t)
  {
    var x, y := VarNumber(|c.value|) + c.value + s, VarNumber(|d.value|) + d.value + t;
    assert ComponentWire(c) + s == VarNumber(c.typ) + x && ComponentWire(d) + t == VarNumber(d.typ) + y;
    if c.typ < d.typ {
      VarNumberMonotone(c.typ, d.typ, x, y);
    } else {
      BytesLessSamePrefix(VarNumber(c.typ), x, y);
      assert x == VarNumber(|c.value|) + (c.value + s) && y == VarNumber(|d.value|) + (d.value + t);
      if |c.value| < |d.value| {
        VarNumberMonotone(|c.value|, |d.value|, c.value + s, d.value + t);
      } else {
        BytesLessSamePrefix(VarNumber(|c.value|), c.value + s, d.value + t);
        BytesLessExtend(c.value, d.value, s, t);
      }
    }
  }

  /** The BLOB order of stored labels is the canonical order of the labels. */
  lemma {:induction false} OrderEmbedding(a: Name, b: Name)
    ensures NameLess(a, b) <==> BytesLess(NameWire(a), NameWire(b))
  {
    if a != [] && b != [] {
      var s, t := NameWire(a[1..]), NameWire(b[1..]);
      ComponentLessTotal(a[0], b[0]);
      if a[0] == b[0] {
        OrderEmbedding(a[1..], b[1..]);
        BytesLessSamePrefix(ComponentWire(a[0]), s, t);
        ComponentIrreflexive(a[0]);
      } else if ComponentLess(a[0], b[0]) {
        ComponentWireOrder(a[0], b[0], s, t);
      } else {
        ComponentWireOrder(b[0], a[0], t, s);
        BytesLessAsymmetric(NameWire(b), NameWire(a));
      }
    }
  }

  lemma ComponentIrreflexive(c: Component)
    ensures !ComponentLess(c, c)
  {
    if BytesLess(c.value, c.value) {
      BytesLessAsymmetric(c.value, c.value);
    }
  }

  // ---------- reading a stored name back ----------

  function ReadComponent(b: Bytes): (r: Option<(Component, Bytes)>)
    ensures r.Some? ==> |r.value.1| < |b|
  {
    match ReadElement(b)
    case None => None
    case Some((typ, value, rest)) =>
      if 1 <= typ <= 65535 then Some((Component(typ, value), rest)) else None
  }

  function ReadName(b: Bytes): Option<Name>
    decreases |b|
  {
    if b == [] then Some([]) else
    match ReadComponent(b)
    case None => None
    case Some((c, rest)) =>
      match ReadName(rest)
      case None => None
      case Some(n) => Some([c] + n)
  }

  lemma {:induction false} NameRoundTrip(n: Name)
    ensures ReadName(NameWire(n)) == Some(n)
  {
    if n != [] {
      NameRoundTrip(n[1..]);
      ElementRoundTrip(n[0].typ, n[0].value, NameWire(n[1..]));
      assert n == [n[0]] + n[1..];
    }
  }

  /** The bytes are the elements of the name's components, one after the other. */
  ghost predicate IsNameWire(b: Bytes, n: Name)
    decreases |n|
  {
    if n == [] then b == []
    else exists e, rest :: IsElement(e, n[0].typ, n[0].value) && b == e + rest && IsNameWire(rest, n[1..])
  }

  /** Exactly those bytes are read as the name; all others are malformed. */
  lemma {:induction false} ReadNameExact(b: Bytes, n: Name)
    ensures ReadName(b) == Some(n) <==> IsNameWire(b, n)
    decreases |n|
  {
    if n == [] {
      assert b != [] ==> ReadName(b) != Some([]);
    } else {
      var c, tail := n[0], n[1..];
      assert n == [c] + tail;
      if ReadName(b) == Some(n) {
        var rest := ReadComponent(b).value.1;
        ReadElementExact(b, c.typ, c.value, rest);
        ReadNameExact(rest, tail);
      }
      forall e, rest | IsElement(e, c.typ, c.value) && b == e + rest && IsNameWire(rest, tail)
        ensures ReadName(b) == Some(n)
      {
        ReadElementExact(b, c.typ, c.value, rest);
        ReadNameExact(rest, tail);
      }
    }
  }

  /** The database column is decoded component by component; a malformed
      component is the error that restoreName throws. */
  method RestoreName(stored: Bytes) returns (r: Option<Name>)
    ensures r == ReadName(stored)
  {
    var name: Name := [];
    var buffer := stored;
    assert ReadName(stored).Some? ==> [] + ReadName(stored).value == ReadName(stored).value;
    while buffer != []
      invariant ReadName(stored) ==
                match ReadName(buffer) { case None => None case Some(n) => Some(name + n) }
      decreases |buffer|
    {
      var component := ReadComponent(buffer);
      if component.None? {
        return None;
      }
      ghost var tail := ReadName(component.value.1);
      assert tail.Some? ==> name + ([component.value.0] + tail.value) == name + [component.value.0] + tail.value;
      name := name + [component.value.0];
      buffer := component.value.1;
    }
    assert name + [] == name;
    r := Some(name);
  }

  // ---------- the canonical order is a strict total order ----------

  lemma NameLessTotal(a: Name, b: Name)
    ensures a == b || NameLess(a, b) || NameLess(b, a)
  {
    OrderEmbedding(a, b);
    OrderEmbedding(b, a);
    BytesLessTotal(NameWire(a), NameWire(b));
    NameRoundTrip(a);
    NameRoundTrip(b);
  }

  lemma NameLessAsymmetric(a: Name, b: Name)
    requires NameLess(a, b)
    ensures a != b && !NameLess(b, a)
  {
    OrderEmbedding(a, b);
    OrderEmbedding(b, a);
    BytesLessAsymmetric(NameWire(a), NameWire(b));
  }

  lemma NameLessTransitive(a: Name, b: Name, c: Name)
    requires NameLess(a, b) && NameLess(b, c)
    ensures NameLess(a, c)
  {
    OrderEmbedding(a, b);
    OrderEmbedding(b, c);
    OrderEmbedding(a, c);
    BytesLessTransitive(NameWire(a), NameWire(b), NameWire(c));
  }

  lemma {:induction false} NameLessSamePrefix(p: Name, a: Name, b: Name)
    ensures NameLess(p + a, p + b) <==> NameLess(a, b)
  {
    if p == [] {
      assert p + a == a && p + b == b;
    } else {
      assert (p + a)[1..] == p[1..] + a && (p + b)[1..] == p[1..] + b;
      ComponentIrreflexive(p[0]);
      NameLessSamePrefix(p[1..], a, b);
    }
  }

  /** Unless `a` is a prefix of `b`, appending to either name keeps their order. */
  lemma {:induction false} NameLessExtend(a: Name, b: Name, x: Name, y: Name)
    requires NameLess(a, b) && !(a <= b)
    ensures NameLess(a + x, b + y)
  {
    assert (a + x)[0] == a[0] && (b + y)[0] == b[0];
    if a[0] == b[0] && !ComponentLess(a[0], b[0]) {
      assert a == [a[0]] + a[1..] && b == [b[0]] + b[1..];
      assert (a + x)[1..] == a[1..] + x && (b + y)[1..] == b[1..] + y;
      NameLessExtend(a[1..], b[1..], x, y);
    }
  }

  // ---------- version components ----------

  predicate IsVersion(c: Component)
  {
    c.typ == VERSION && |c.value| in {1, 2, 4, 8}
  }

  function FromVersion(n: nat): (c: Component)
    requires n < LIMIT
    ensures IsVersion(c)
  {
    Component(VERSION, NonNegativeInteger(n))
  }

  /** Version components are the big-endian numbers of one of the four widths under type 54. */
  lemma VersionExact(c: Component)
    ensures IsVersion(c) <==>
            exists n: nat, k: nat :: k in {1, 2, 4, 8} && n < Pow256(k) && c.typ == 54 && c.value == BigEndian(n, k)
  {
    FromBigEndianRoundTrip(c.value);
  }

  /** Comparing version components compares the 64-bit version numbers. */
  lemma VersionOrder(m: nat, n: nat)
    requires m < LIMIT && n < LIMIT
    ensures ComponentLess(FromVersion(m), FromVersion(n)) <==> m < n
  {
    Pow256Values();
    if m < n {
      if IntegerWidth(m) == IntegerWidth(n) {
        BigEndianMonotone(m, n, IntegerWidth(n));
      }
    } else if n < m {
      if IntegerWidth(m) == IntegerWidth(n) {
        BigEndianMonotone(n, m, IntegerWidth(m));
        BytesLessAsymmetric(NonNegativeInteger(n), NonNegativeInteger(m));
      }
    } else {
      ComponentIrreflexive(FromVersion(m));
    }
  }
}
