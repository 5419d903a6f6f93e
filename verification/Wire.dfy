/** The byte form of packet contents: record lists, DoE pairs and responses. */
module Wire {
  import opened Tlv
  import opened Names
  import opened Records
  import Server

  type TlvType = t: nat | 1 <= t < 0x1_0000_0000 witness 1
  datatype Block = Block(typ: TlvType, value: Value)

  const CONTENT: TlvType := 21
  const NAME: TlvType := 7

  function BlockWire(b: Block): Bytes
  {
    Element(b.typ, b.value)
  }

  function ListWire(bs: seq<Block>): Bytes
  {
    if bs == [] then [] else BlockWire(bs[0]) + ListWire(bs[1..])
  }

  /** The packet format can only express a list whose encoding fits a TLV-LENGTH. */
  predicate Encodable(bs: seq<Block>)
  {
    |ListWire(bs)| < LIMIT
  }

  /** Content ::= CONTENT-TYPE TLV-LENGTH Block* */
  function ContentWire(bs: seq<Block>): Bytes
    requires Encodable(bs)
  {
    BlockWire(Block(CONTENT, ListWire(bs)))
  }

  // ---------- decoding ----------

  function ReadBlock(b: Bytes): (r: Option<(Block, Bytes)>)
    ensures r.Some? ==> |r.value.1| < |b|
  {
    match ReadElement(b)
    case None => None
    case Some((typ, value, rest)) =>
      if 1 <= typ < 0x1_0000_0000 then Some((Block(typ, value), rest)) else None
  }

  /** Parsing the elements of a block. */
  function ReadList(b: Bytes): Option<seq<Block>>
    decreases |b|
  {
    if b == [] then Some([]) else
    match ReadBlock(b)
    case None => None
    case Some((first, rest)) =>
      match ReadList(rest)
      case None => None
      case Some(bs) => Some([first] + bs)
  }

  function ReadContent(b: Bytes): Option<seq<Block>>
  {
    match ReadBlock(b)
    case None => None
    case Some((outer, rest)) => if outer.typ == CONTENT && rest == [] then ReadList(outer.value) else None
  }

  lemma {:induction false} ListRoundTrip(bs: seq<Block>)
    ensures ReadList(ListWire(bs)) == Some(bs)
  {
    if bs != [] {
      ListRoundTrip(bs[1..]);
      ElementRoundTrip(bs[0].typ, bs[0].value, ListWire(bs[1..]));
      assert bs == [bs[0]] + bs[1..];
    }
  }

  /** Decoding an encoded record list gives the list back. */
  lemma ContentRoundTrip(bs: seq<Block>)
    requires Encodable(bs)
    ensures ReadContent(ContentWire(bs)) == Some(bs)
  {
    ListRoundTrip(bs);
    ElementRoundTrip(CONTENT, ListWire(bs), []);
    assert ContentWire(bs) + [] == ContentWire(bs);
  }

  /** The bytes are the elements of the list, one after the other. */
  ghost predicate IsListWire(b: Bytes, bs: seq<Block>)
    decreases |bs|
  {
    if bs == [] then b == []
    else exists e, rest :: IsElement(e, bs[0].typ, bs[0].value) && b == e + rest && IsListWire(rest, bs[1..])
  }

  lemma {:induction false} ReadListExact(b: Bytes, bs: seq<Block>)
    ensures ReadList(b) == Some(bs) <==> IsListWire(b, bs)
    decreases |bs|
  {
    if bs == [] {
      assert b != [] ==> ReadList(b) != Some([]);
    } else {
      var c, tail := bs[0], bs[1..];
      assert bs == [c] + tail;
      if ReadList(b) == Some(bs) {
        var rest := ReadBlock(b).value.1;
        ReadElementExact(b, c.typ, c.value, rest);
        ReadListExact(rest, tail);
      }
      forall e, rest | IsElement(e, c.typ, c.value) && b == e + rest && IsListWire(rest, tail)
        ensures ReadList(b) == Some(bs)
      {
        ReadElementExact(b, c.typ, c.value, rest);
        ReadListExact(rest, tail);
      }
    }
  }

  /** Exactly one Content element around the list, and nothing after it, is read as the
      list; all other bytes are malformed. */
  lemma ReadContentExact(b: Bytes, bs: seq<Block>)
    ensures ReadContent(b) == Some(bs) <==>
            exists value :: |value| < LIMIT && IsElement(b, 21, value) && IsListWire(value, bs)
  {
    if ReadContent(b) == Some(bs) {
      var value := ReadBlock(b).value.0.value;
      ReadElementExact(b, CONTENT, value, []);
      ReadListExact(value, bs);
      var e :| IsElement(e, CONTENT, value) && b == e + [];
      assert e == b;
    }
    forall value: Bytes | |value| < LIMIT && IsElement(b, 21, value) && IsListWire(value, bs)
      ensures ReadContent(b) == Some(bs)
    {
      assert b == b + [];
      ReadElementExact(b, CONTENT, value, []);
      ReadListExact(value, bs);
    }
  }

  /** wireDecode and wireDecodeTxt: the elements, appended one by one. */
  method WireDecode(wire: Bytes) returns (r: Option<seq<Block>>)
    ensures r == ReadContent(wire)
  {
    var outer := ReadBlock(wire);
    if outer.None? || outer.value.0.typ != CONTENT || outer.value.1 != [] {
      return None;
    }
    var rrs: seq<Block> := [];
    var rest: Bytes := outer.value.0.value;
    ghost var all := ReadList(rest);
    assert all.Some? ==> [] + all.value == all.value;
    while rest != []
      invariant all == match ReadList(rest) { case None => None case Some(bs) => Some(rrs + bs) }
      decreases |rest|
    {
      var element := ReadBlock(rest);
      if element.None? {
        return None;
      }
      ghost var tail := ReadList(element.value.1);
      assert tail.Some? ==> rrs + ([element.value.0] + tail.value) == rrs + [element.value.0] + tail.value;
      rrs := rrs + [element.value.0];
      rest := element.value.1;
    }
    assert rrs + [] == rrs;
    r := Some(rrs);
  }

  // ---------- DoE pairs ----------

  predicate FitsBlock(n: Name)
  {
    |NameWire(n)| < LIMIT
  }

  function NameBlock(n: Name): Block
    requires FitsBlock(n)
  {
    Block(NAME, NameWire(n))
  }

  function NameOfBlock(b: Block): Option<Name>
  {
    if b.typ == NAME then ReadName(b.value) else None
  }

  /** wireDecodeDoe; None stands for its errors. */
  function DecodeDoe(content: Bytes): Option<(Name, Name)>
  {
    match ReadContent(content)
    case None => None
    case Some(bs) =>
      if |bs| != 2 then None
      else if NameOfBlock(bs[0]).None? || NameOfBlock(bs[1]).None? then None
      else Some((NameOfBlock(bs[0]).value, NameOfBlock(bs[1]).value))
  }

  lemma DoeRoundTrip(lower: Name, upper: Name)
    requires FitsBlock(lower) && FitsBlock(upper) && Encodable([NameBlock(lower), NameBlock(upper)])
    ensures DecodeDoe(ContentWire([NameBlock(lower), NameBlock(upper)])) == Some((lower, upper))
  {
    ContentRoundTrip([NameBlock(lower), NameBlock(upper)]);
    NameRoundTrip(lower);
    NameRoundTrip(upper);
  }

  /** A DoE content is decoded exactly if it holds two Name elements with well-formed names. */
  lemma DecodeDoeExact(content: Bytes, lower: Name, upper: Name)
    ensures DecodeDoe(content) == Some((lower, upper)) <==>
            exists bs: seq<Block> :: ReadContent(content) == Some(bs) && |bs| == 2 && bs[0].typ == 7 && bs[1].typ == 7 &&
              IsNameWire(bs[0].value, lower) && IsNameWire(bs[1].value, upper)
  {
    var bs := ReadContent(content);
    if bs.Some? && |bs.value| == 2 {
      ReadNameExact(bs.value[0].value, lower);
      ReadNameExact(bs.value[1].value, upper);
    }
  }

  lemma DoeNeedsPair(bs: seq<Block>)
    requires Encodable(bs) && |bs| != 2
    ensures DecodeDoe(ContentWire(bs)).None?
  {
    ContentRoundTrip(bs);
  }

  // ---------- the two encoding passes ----------

  function VarNumberSize(n: nat): nat
  {
    if n < 253 then 1 else if n < 0x1_0000 then 3 else if n < 0x1_0000_0000 then 5 else 9
  }

  function BlockSize(b: Block): (n: nat)
    ensures n == |BlockWire(b)|
  {
    VarNumberSize(b.typ) + VarNumberSize(|b.value|) + |b.value|
  }

  lemma {:induction false} ListWireSplit(bs: seq<Block>, i: nat)
    requires i < |bs|
    ensures ListWire(bs[i..]) == BlockWire(bs[i]) + ListWire(bs[i + 1..])
  {
  }

  /** The estimator pass: adds up sizes from the last record to the first. */
  method Estimate(rrs: seq<Block>) returns (total: nat)
    requires Encodable(rrs)
    ensures total == |ContentWire(rrs)|
  {
    total := 0;
    var i := |rrs|;
    while i > 0
      invariant 0 <= i <= |rrs|
      invariant total == |ListWire(rrs[i..])|
    {
      i := i - 1;
      ListWireSplit(rrs, i);
      total := total + BlockSize(rrs[i]);
    }
    assert rrs[0..] == rrs;
    total := total + VarNumberSize(total);
    total := total + VarNumberSize(CONTENT);
  }

  /** Writes bytes in front of position `pos` and returns where they start. */
  method Prepend(buffer: array<byte>, pos: nat, bytes: Bytes) returns (at: nat)
    requires |bytes| <= pos <= buffer.Length
    modifies buffer
    ensures at == pos - |bytes|
    ensures buffer[at..] == bytes + old(buffer[pos..])
  {
    at := pos - |bytes|;
    forall i | 0 <= i < |bytes| {
      buffer[at + i] := bytes[i];
    }
  }

  /** Writes the records, last one first, at the end of the buffer. */
  method PrependList(buffer: array<byte>, rrs: seq<Block>) returns (pos: nat)
    requires |ListWire(rrs)| <= buffer.Length
    modifies buffer
    ensures pos == buffer.Length - |ListWire(rrs)|
    ensures buffer[pos..] == ListWire(rrs)
  {
    pos := buffer.Length;
    var i := |rrs|;
    while i > 0
      invariant 0 <= i <= |rrs| && pos <= buffer.Length
      invariant buffer[pos..] == ListWire(rrs[i..])
    {
      i := i - 1;
      ListWireSplit(rrs, i);
      SuffixShorter(rrs, i);
      pos := Prepend(buffer, pos, BlockWire(rrs[i]));
    }
    assert rrs[0..] == rrs;
  }

  /** The buffer pass writes back to front into a buffer of the estimated size and
      fills it exactly. */
  method WireEncode(rrs: seq<Block>) returns (wire: Bytes)
    requires Encodable(rrs)
    ensures wire == ContentWire(rrs)
    ensures ReadContent(wire) == Some(rrs)
  {
    hide VarNumber, ListWire, ReadContent;
    var size := Estimate(rrs);
    var buffer := new byte[size];
    var pos := PrependList(buffer, rrs);
    ghost var list := ListWire(rrs);
    pos := Prepend(buffer, pos, VarNumber(size - pos));
    assert buffer[pos..] == VarNumber(|list|) + list;
    pos := Prepend(buffer, pos, VarNumber(CONTENT));
    assert pos == 0;
    ContentRoundTrip(rrs);
    wire := buffer[..];
    assert buffer[0..] == wire;
    assert wire == VarNumber(CONTENT) + (VarNumber(|list|) + list);
  }

  lemma {:induction false} SuffixShorter(bs: seq<Block>, i: nat)
    requires i <= |bs|
    ensures |ListWire(bs[i..])| <= |ListWire(bs)|
  {
    if i == 0 {
      assert bs[0..] == bs;
    } else {
      SuffixShorter(bs, i - 1);
      ListWireSplit(bs, i - 1);
    }
  }

  // ---------- responses ----------

  datatype Response = Response(
    zone: Name, queryType: Component, rrLabel: Name, rrType: Component, version: Component,
    contentType: ContentType, rrs: seq<Block>, appContent: Bytes)

  datatype Packet = Packet(name: Name, contentType: ContentType, content: Bytes)

  predicate IsRaw(ct: ContentType)
  {
    ct == Blob || ct == ContentType.Key
  }

  /** toData; a response without a version gets the current time as one. */
  function ToData(r: Response, now: Component): (Response, Packet)
    requires Encodable(r.rrs)
  {
    var r' := if r.version.value == [] then r.(version := now) else r;
    (r', Packet(r.zone + [r.queryType] + r.rrLabel + [r.rrType] + [r'.version], r.contentType,
                if IsRaw(r.contentType) then r.appContent else ContentWire(r.rrs)))
  }

  /** fromData into a fresh response. */
  function FromData(zone: Name, p: Packet): Option<Response>
    requires UnderZone(p.name, zone)
  {
    match MatchData(p.name, zone)
    case None => None
    case Some((rrLabel, typ, version)) =>
      var r := Response(zone, p.name[|zone|], rrLabel, typ, version, p.contentType, [], []);
      if IsRaw(p.contentType) then Some(r.(appContent := p.content))
      else
        match ReadContent(p.content)
        case None => None
        case Some(rrs) => Some(r.(rrs := rrs))
  }

  /** Response::operator==. */
  predicate SameResponse(a: Response, b: Response)
  {
    && a.zone == b.zone && a.queryType == b.queryType && a.rrLabel == b.rrLabel && a.rrType == b.rrType
    && a.version == b.version && a.contentType == b.contentType
    && if IsRaw(a.contentType) then a.appContent == b.appContent else a.rrs == b.rrs
  }

  /** fromData fails exactly on a name too short for a type and a version, or on a
      malformed record list; the content of BLOB and KEY packets is taken as it is. */
  lemma FromDataDecides(zone: Name, p: Packet)
    requires UnderZone(p.name, zone)
    ensures FromData(zone, p).None? <==>
            |p.name| < |zone| + 3 || (p.contentType !in {Blob, ContentType.Key} && ReadContent(p.content).None?)
  {
  }

  /** For every content type, what toData writes fromData reads back; toData only fills
      in a missing version. */
  lemma ResponseRoundTrip(r: Response, now: Component)
    requires Encodable(r.rrs) && r.queryType == NDNS_QUERY
    ensures var (r', p) := ToData(r, now);
            && r' == (if r.version.value == [] then r.(version := now) else r)
            && UnderZone(p.name, r.zone) && p.contentType == r.contentType
            && FromData(r.zone, p).Some? && SameResponse(FromData(r.zone, p).value, r')
  {
    var (r', p) := ToData(r, now);
    assert p.name == RecordName(r.zone, r.rrLabel, r.rrType, r'.version);
    Server.MatchRecordName(r.zone, r.rrLabel, r.rrType, r'.version);
    ContentRoundTrip(r.rrs);
  }
}
