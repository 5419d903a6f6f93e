/** Byte strings, their SQLite BLOB order, and the variable-size numbers of the
    NDN Packet Format Specification v0.3 ("Variable Size Encoding for Type and
    Length" and "Non-Negative Integer Encoding"). */
module Tlv {

  datatype Option<+T> = None | Some(value: T)

  type byte = b: int | 0 <= b < 256
  type Bytes = seq<byte>

  /** One more than the largest number that a type or a length can hold. */
  const LIMIT: nat := 0x1_0000_0000_0000_0000

  // ---------- byte-lexicographic order (memcmp, then the shorter one first) ----------

  predicate BytesLess(a: Bytes, b: Bytes)
  {
    b != [] && (a == [] || a[0] < b[0] || (a[0] == b[0] && BytesLess(a[1..], b[1..])))
  }

  lemma {:induction false} BytesLessSamePrefix(p: Bytes, s: Bytes, t: Bytes)
    ensures BytesLess(p + s, p + t) <==> BytesLess(s, t)
  {
    if p == [] {
      assert p + s == s && p + t == t;
    } else {
      assert (p + s)[1..] == p[1..] + s && (p + t)[1..] == p[1..] + t;
      BytesLessSamePrefix(p[1..], s, t);
    }
  }

  lemma {:induction false} BytesLessExtend(x: Bytes, y: Bytes, s: Bytes, t: Bytes)
    requires |x| == |y| && BytesLess(x, y)
    ensures BytesLess(x + s, y + t)
  {
    assert (x + s)[1..] == x[1..] + s && (y + t)[1..] == y[1..] + t;
    if x[0] == y[0] {
      BytesLessExtend(x[1..], y[1..], s, t);
    }
  }

  lemma {:induction false} BytesLessTotal(a: Bytes, b: Bytes)
    ensures a == b || BytesLess(a, b) || BytesLess(b, a)
  {
    if a != [] && b != [] && a[0] == b[0] {
      BytesLessTotal(a[1..], b[1..]);
      assert a == [a[0]] + a[1..] && b == [b[0]] + b[1..];
    }
  }

  lemma {:induction false} BytesLessAsymmetric(a: Bytes, b: Bytes)
    requires BytesLess(a, b)
    ensures a != b && !BytesLess(b, a)
  {
    if a != [] && a[0] == b[0] {
      BytesLessAsymmetric(a[1..], b[1..]);
    }
  }

  lemma {:induction false} BytesLessTransitive(a: Bytes, b: Bytes, c: Bytes)
    requires BytesLess(a, b) && BytesLess(b, c)
    ensures BytesLess(a, c)
  {
    if a != [] && a[0] == b[0] == c[0] {
      BytesLessTransitive(a[1..], b[1..], c[1..]);
    }
  }

  // ---------- big-endian numbers of a fixed width ----------

  function Pow256(k: nat): (p: nat)
    ensures p > 0
  {
    if k == 0 then 1 else 256 * Pow256(k - 1)
  }

  lemma Pow256Values()
    ensures Pow256(1) == 0x100 && Pow256(2) == 0x1_0000
    ensures Pow256(4) == 0x1_0000_0000 && Pow256(8) == LIMIT
  {
  }

  function BigEndian(n: nat, k: nat): (b: Bytes)
    requires n < Pow256(k)
    ensures |b| == k
  {
    if k == 0 then [] else BigEndian(n / 256, k - 1) + [n % 256]
  }

  function FromBigEndian(b: Bytes): nat
  {
    if b == [] then 0 else FromBigEndian(b[..|b| - 1]) * 256 + b[|b| - 1]
  }

  lemma {:induction false} BigEndianRoundTrip(n: nat, k: nat)
    requires n < Pow256(k)
    ensures FromBigEndian(BigEndian(n, k)) == n
  {
    if k != 0 {
      BigEndianRoundTrip(n / 256, k - 1);
      assert BigEndian(n, k)[..k - 1] == BigEndian(n / 256, k - 1);
    }
  }

  lemma {:induction false} FromBigEndianRoundTrip(b: Bytes)
    ensures FromBigEndian(b) < Pow256(|b|) && BigEndian(FromBigEndian(b), |b|) == b
  {
    if b != [] {
      var n := |b| - 1;
      FromBigEndianRoundTrip(b[..n]);
      assert FromBigEndian(b) / 256 == FromBigEndian(b[..n]) && FromBigEndian(b) % 256 == b[n];
      assert b == b[..n] + [b[n]];
    }
  }

  lemma {:induction false} BigEndianMonotone(m: nat, n: nat, k: nat)
    requires m < n < Pow256(k)
    ensures BytesLess(BigEndian(m, k), BigEndian(n, k))
  {
    if m / 256 == n / 256 {
      assert BytesLess([m % 256], [n % 256]);
      BytesLessSamePrefix(BigEndian(m / 256, k - 1), [m % 256], [n % 256]);
    } else {
      BigEndianMonotone(m / 256, n / 256, k - 1);
      BytesLessExtend(BigEndian(m / 256, k - 1), BigEndian(n / 256, k - 1), [m % 256], [n % 256]);
    }
  }

  // ---------- variable-size numbers ----------

  function VarNumber(n: nat): Bytes
    requires n < LIMIT
  {
    Pow256Values();
    if n < 253 then [n]
    else if n < 0x1_0000 then [253] + BigEndian(n, 2)
    else if n < 0x1_0000_0000 then [254] + BigEndian(n, 4)
    else [255] + BigEndian(n, 8)
  }

  /** The code is monotone and prefix-free at once: what follows the two
      numbers cannot change how they compare. */
  lemma VarNumberMonotone(m: nat, n: nat, s: Bytes, t: Bytes)
    requires m < n < LIMIT
    ensures BytesLess(VarNumber(m) + s, VarNumber(n) + t)
  {
    Pow256Values();
    var x, y := VarNumber(m), VarNumber(n);
    if x[0] < y[0] {
      assert (x + s)[0] == x[0] && (y + t)[0] == y[0];
    } else {
      var k := |x| - 1;
      assert x == [x[0]] + BigEndian(m, k) && y == [x[0]] + BigEndian(n, k);
      BigEndianMonotone(m, n, k);
      BytesLessSamePrefix([x[0]], BigEndian(m, k), BigEndian(n, k));
      BytesLessExtend(x, y, s, t);
    }
  }

  function ReadVarNumber(b: Bytes): Option<(nat, Bytes)>
  {
    if b == [] then None
    else if b[0] < 253 then Some((b[0], b[1..]))
    else
      var k := if b[0] == 253 then 2 else if b[0] == 254 then 4 else 8;
      if |b| < 1 + k then None else Some((FromBigEndian(b[1..1 + k]), b[1 + k..]))
  }

  lemma VarNumberRoundTrip(n: nat, s: Bytes)
    requires n < LIMIT
    ensures ReadVarNumber(VarNumber(n) + s) == Some((n, s))
  {
    Pow256Values();
    var x := VarNumber(n);
    var b := x + s;
    assert b[0] == x[0] && b[|x|..] == s;
    if n >= 253 {
      var k := |x| - 1;
      assert b[1..1 + k] == x[1..] == BigEndian(n, k);
      BigEndianRoundTrip(n, k);
    }
  }

  /** The number that the bytes stand for, in any of the four forms. */
  predicate IsVarNumber(x: Bytes, n: nat)
  {
    || (|x| == 1 && x[0] < 253 && n == x[0])
    || (|x| == 3 && x[0] == 253 && n == FromBigEndian(x[1..]))
    || (|x| == 5 && x[0] == 254 && n == FromBigEndian(x[1..]))
    || (|x| == 9 && x[0] == 255 && n == FromBigEndian(x[1..]))
  }

  /** Numbers are written in their shortest form. */
  lemma VarNumberShortest(n: nat, x: Bytes)
    requires n < LIMIT
    ensures IsVarNumber(VarNumber(n), n)
    ensures IsVarNumber(x, n) ==> |VarNumber(n)| <= |x|
  {
    Pow256Values();
    var v := VarNumber(n);
    if n >= 253 {
      var k := |v| - 1;
      assert v[1..] == BigEndian(n, k);
      BigEndianRoundTrip(n, k);
    }
    if IsVarNumber(x, n) && |x| > 1 {
      FromBigEndianRoundTrip(x[1..]);
    }
  }

  /** The reader accepts exactly the bytes that start with a number in one of its forms. */
  lemma ReadVarNumberExact(b: Bytes, n: nat, rest: Bytes)
    ensures ReadVarNumber(b) == Some((n, rest)) <==> exists x :: IsVarNumber(x, n) && b == x + rest
  {
    if ReadVarNumber(b) == Some((n, rest)) {
      var x := b[..|b| - |rest|];
      assert b == x + rest && x[1..] == b[1..|x|];
      assert IsVarNumber(x, n);
    }
    forall x | IsVarNumber(x, n) && b == x + rest
      ensures ReadVarNumber(b) == Some((n, rest))
    {
      assert b[0] == x[0] && b[1..|x|] == x[1..] && b[|x|..] == rest;
    }
  }

  // ---------- type-length-value elements ----------

  function Element(typ: nat, value: Bytes): (b: Bytes)
    requires typ < LIMIT && |value| < LIMIT
    ensures |b| > 0
  {
    VarNumber(typ) + VarNumber(|value|) + value
  }

  /** Type and value of the first element, and the bytes that follow it. */
  function ReadElement(b: Bytes): (r: Option<(nat, Bytes, Bytes)>)
    ensures r.Some? ==> |r.value.1| < LIMIT && |r.value.2| < |b|
  {
    match ReadVarNumber(b)
    case None => None
    case Some((typ, b1)) =>
      match ReadVarNumber(b1)
      case None => None
      case Some((len, b2)) =>
        if len > |b2| || len >= LIMIT then None else Some((typ, b2[..len], b2[len..]))
  }

  lemma ElementRoundTrip(typ: nat, value: Bytes, s: Bytes)
    requires typ < LIMIT && |value| < LIMIT
    ensures ReadElement(Element(typ, value) + s) == Some((typ, value, s))
  {
    var b1 := VarNumber(|value|) + (value + s);
    assert Element(typ, value) + s == VarNumber(typ) + b1;
    VarNumberRoundTrip(typ, b1);
    VarNumberRoundTrip(|value|, value + s);
    assert (value + s)[..|value|] == value && (value + s)[|value|..] == s;
  }

  /** The bytes are one element in any form. */
  ghost predicate IsElement(e: Bytes, typ: nat, value: Bytes)
  {
    exists x, y :: IsVarNumber(x, typ) && IsVarNumber(y, |value|) && e == x + y + value
  }

  /** The reader accepts exactly the bytes that start with an element. */
  lemma ReadElementExact(b: Bytes, typ: nat, value: Bytes, rest: Bytes)
    requires |value| < LIMIT
    ensures ReadElement(b) == Some((typ, value, rest)) <==> exists e :: IsElement(e, typ, value) && b == e + rest
  {
    hide IsElement, ReadElement;
    if ReadElement(b) == Some((typ, value, rest)) {
      var e := ElementRead(b, typ, value, rest);
    }
    forall e | IsElement(e, typ, value) && b == e + rest
      ensures ReadElement(b) == Some((typ, value, rest))
    {
      ElementReads(e, typ, value, rest);
    }
  }

  lemma ElementRead(b: Bytes, typ: nat, value: Bytes, rest: Bytes) returns (e: Bytes)
    requires ReadElement(b) == Some((typ, value, rest))
    ensures IsElement(e, typ, value) && b == e + rest
  {
    hide IsVarNumber, ReadVarNumber;
    var b1 := ReadVarNumber(b).value.1;
    var b2 := ReadVarNumber(b1).value.1;
    ReadVarNumberExact(b, typ, b1);
    ReadVarNumberExact(b1, |value|, b2);
    var x :| IsVarNumber(x, typ) && b == x + b1;
    var y :| IsVarNumber(y, |value|) && b1 == y + b2;
    assert b2 == value + rest;
    e := x + y + value;
  }

  lemma ElementReads(e: Bytes, typ: nat, value: Bytes, rest: Bytes)
    requires |value| < LIMIT && IsElement(e, typ, value)
    ensures ReadElement(e + rest) == Some((typ, value, rest))
  {
    hide IsVarNumber, ReadVarNumber;
    var x, y :| IsVarNumber(x, typ) && IsVarNumber(y, |value|) && e == x + y + value;
    var b1 := y + (value + rest);
    assert e + rest == x + b1;
    ReadVarNumberExact(e + rest, typ, b1);
    ReadVarNumberExact(b1, |value|, value + rest);
    assert (value + rest)[..|value|] == value && (value + rest)[|value|..] == rest;
  }

  // ---------- non-negative integers (the value of a version component) ----------

  function IntegerWidth(n: nat): nat
  {
    if n < 0x100 then 1 else if n < 0x1_0000 then 2 else if n < 0x1_0000_0000 then 4 else 8
  }

  function NonNegativeInteger(n: nat): (b: Bytes)
    requires n < LIMIT
    ensures |b| == IntegerWidth(n)
  {
    Pow256Values();
    BigEndian(n, IntegerWidth(n))
  }

  /** A version number is written in the shortest of the four widths. */
  lemma IntegerShortest(n: nat, k: nat)
    requires n < LIMIT
    ensures |NonNegativeInteger(n)| in {1, 2, 4, 8} && FromBigEndian(NonNegativeInteger(n)) == n
    ensures k in {1, 2, 4, 8} && n < Pow256(k) ==> |NonNegativeInteger(n)| <= k
  {
    Pow256Values();
    BigEndianRoundTrip(n, IntegerWidth(n));
  }
}
