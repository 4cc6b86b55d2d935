/** Distinguished names: a SEQUENCE of non-empty SETs of (type, value) pairs. */
module Name {
  import opened Bytes
  import opened Der

  // The value is any element; its tag is kept and its content is not looked into.
  datatype Attribute = Attribute(kind: bytes, tag: byte, value: bytes)

  type Name = seq<seq<Attribute>>

  predicate WellFormed(n: Name) {
    forall k | 0 <= k < |n| :: n[k] != []
  }

  // ---------------------------------------------------------------- encoder

  function EncodeAttribute(a: Attribute): (s: bytes)
    ensures s != []
  {
    Tlv(SEQUENCE, Tlv(OID, a.kind) + Tlv(a.tag, a.value))
  }

  function EncodeAttributes(s: seq<Attribute>): bytes {
    if s == [] then [] else EncodeAttribute(s[0]) + EncodeAttributes(s[1..])
  }

  function EncodeSets(n: Name): bytes {
    if n == [] then [] else Tlv(SET, EncodeAttributes(n[0])) + EncodeSets(n[1..])
  }

  function Encode(n: Name): bytes {
    Tlv(SEQUENCE, EncodeSets(n))
  }

  // ---------------------------------------------------------------- what the parser does

  function AttributeAt(b: buffer, i: nat, e: nat): (r: Result<(Attribute, nat)>)
    requires e <= |b|
    ensures r.Ok? ==> i + 2 <= r.value.1 <= e
  {
    var h :- ElementAt(b, SEQUENCE, i, e);
    var kind :- ElementAt(b, OID, h.start, h.end);
    var value :- HeaderAt(b, kind.end, h.end);
    if h.end != value.end then Err(TrailingData)
    else Ok((Attribute(b[kind.start..kind.end], value.identifier, b[value.start..value.end]), h.end))
  }

  // One attribute, and more up to e.
  function AttributesAt(b: buffer, i: nat, e: nat): (r: Result<seq<Attribute>>)
    requires e <= |b|
    ensures r.Ok? ==> r.value != []
    decreases |b| - i
  {
    var (a, j) :- AttributeAt(b, i, e);
    if j >= e then Ok([a])
    else
      var rest :- AttributesAt(b, j, e);
      Ok([a] + rest)
  }

  // Sets up to e.
  function SetsAt(b: buffer, i: nat, e: nat): Result<Name>
    requires e <= |b|
    decreases |b| - i
  {
    if i >= e then Ok([])
    else
      var h :- ElementAt(b, SET, i, e);
      var s :- AttributesAt(b, h.start, h.end);
      var rest :- SetsAt(b, h.end, e);
      Ok([s] + rest)
  }

  function NameAt(b: buffer, i: nat, e: nat): (r: Result<(Name, nat)>)
    requires e <= |b|
    ensures r.Ok? ==> i + 2 <= r.value.1 <= e
  {
    var h :- ElementAt(b, SEQUENCE, i, e);
    var n :- SetsAt(b, h.start, h.end);
    Ok((n, h.end))
  }

  // ---------------------------------------------------------------- parser and encoder agree

  lemma AttributeSound(b: buffer, i: nat, e: nat)
    requires e <= |b| && AttributeAt(b, i, e).Ok?
    ensures var (a, j) := AttributeAt(b, i, e).value;
      At(b, i, EncodeAttribute(a)) && j == i + |EncodeAttribute(a)|
  {
    hide HeaderAt, Tlv, At;
    var (a, j) := AttributeAt(b, i, e).value;
    HeaderSound(b, i, e);
    var h := HeaderAt(b, i, e).value;
    HeaderSound(b, h.start, h.end);
    HeaderSound(b, h.start + |Tlv(OID, a.kind)|, h.end);
    AtConcat(b, h.start, Tlv(OID, a.kind), Tlv(a.tag, a.value));
    AtWhole(b, h.start, h.end, Tlv(OID, a.kind) + Tlv(a.tag, a.value));
  }

  lemma AttributeComplete(b: buffer, i: nat, e: nat, a: Attribute)
    requires e <= |b| && At(b, i, EncodeAttribute(a)) && i + |EncodeAttribute(a)| <= e
    ensures AttributeAt(b, i, e) == Ok((a, i + |EncodeAttribute(a)|))
  {
    hide HeaderAt, Tlv, At;
    var content := Tlv(OID, a.kind) + Tlv(a.tag, a.value);
    HeaderComplete(b, i, e, SEQUENCE, content);
    var end := i + |EncodeAttribute(a)|;
    var start := end - |content|;
    AtConcat(b, start, Tlv(OID, a.kind), Tlv(a.tag, a.value));
    HeaderComplete(b, start, end, OID, a.kind);
    HeaderComplete(b, start + |Tlv(OID, a.kind)|, end, a.tag, a.value);
  }

  lemma {:induction false} AttributesSound(b: buffer, i: nat, e: nat)
    requires e <= |b| && AttributesAt(b, i, e).Ok?
    ensures var s := AttributesAt(b, i, e).value;
      At(b, i, EncodeAttributes(s)) && e == i + |EncodeAttributes(s)|
    decreases |b| - i
  {
    hide AttributeAt, EncodeAttribute, At;
    AttributeSound(b, i, e);
    var (a, j) := AttributeAt(b, i, e).value;
    var s := AttributesAt(b, i, e).value;
    if j < e { AttributesSound(b, j, e); }
    AtEmpty(b, e);
    AtConcat(b, i, EncodeAttribute(a), EncodeAttributes(s[1..]));
  }

  lemma {:induction false} AttributesComplete(b: buffer, i: nat, e: nat, s: seq<Attribute>)
    requires s != [] && e == i + |EncodeAttributes(s)| <= |b| && At(b, i, EncodeAttributes(s))
    ensures AttributesAt(b, i, e) == Ok(s)
    decreases |s|
  {
    hide AttributeAt, EncodeAttribute, At;
    AtConcat(b, i, EncodeAttribute(s[0]), EncodeAttributes(s[1..]));
    AttributeComplete(b, i, e, s[0]);
    var j := i + |EncodeAttribute(s[0])|;
    assert s == [s[0]] + s[1..];
    if |s| > 1 {
      assert EncodeAttributes(s[1..]) == EncodeAttribute(s[1]) + EncodeAttributes(s[1..][1..]);
      AttributesComplete(b, j, e, s[1..]);
    } else {
      assert s[1..] == [] && s == [s[0]];
    }
  }

  lemma {:induction false} SetsSound(b: buffer, i: nat, e: nat)
    requires i <= e <= |b| && SetsAt(b, i, e).Ok?
    ensures var n := SetsAt(b, i, e).value;
      WellFormed(n) && At(b, i, EncodeSets(n)) && e == i + |EncodeSets(n)|
    decreases |b| - i
  {
    hide HeaderAt, AttributesAt, EncodeAttributes, Tlv, At;
    AtEmpty(b, e);
    if i < e {
      HeaderSound(b, i, e);
      var h := HeaderAt(b, i, e).value;
      AttributesSound(b, h.start, h.end);
      SetsSound(b, h.end, e);
      var s := AttributesAt(b, h.start, h.end).value;
      AtWhole(b, h.start, h.end, EncodeAttributes(s));
      AtConcat(b, i, Tlv(SET, EncodeAttributes(s)), EncodeSets(SetsAt(b, h.end, e).value));
    }
  }

  lemma {:induction false} SetsComplete(b: buffer, i: nat, e: nat, n: Name)
    requires WellFormed(n) && e == i + |EncodeSets(n)| <= |b| && At(b, i, EncodeSets(n))
    ensures SetsAt(b, i, e) == Ok(n)
    decreases |n|
  {
    hide HeaderAt, AttributesAt, EncodeAttributes, Tlv, At;
    if n != [] {
      var content := EncodeAttributes(n[0]);
      AtConcat(b, i, Tlv(SET, content), EncodeSets(n[1..]));
      HeaderComplete(b, i, e, SET, content);
      var j := i + |Tlv(SET, content)|;
      AttributesComplete(b, j - |content|, j, n[0]);
      SetsComplete(b, j, e, n[1..]);
      assert n == [n[0]] + n[1..];
    }
  }

  // Accepted names are exactly the sequences of non-empty sets of pairs, and fill their element.
  lemma NameSound(b: buffer, i: nat, e: nat)
    requires e <= |b| && NameAt(b, i, e).Ok?
    ensures var (n, j) := NameAt(b, i, e).value;
      WellFormed(n) && At(b, i, Encode(n)) && j == i + |Encode(n)|
  {
    hide HeaderAt, SetsAt, EncodeSets, Tlv, At;
    HeaderSound(b, i, e);
    var h := HeaderAt(b, i, e).value;
    SetsSound(b, h.start, h.end);
    AtWhole(b, h.start, h.end, EncodeSets(SetsAt(b, h.start, h.end).value));
  }

  lemma NameComplete(b: buffer, i: nat, e: nat, n: Name)
    requires e <= |b| && WellFormed(n) && At(b, i, Encode(n)) && i + |Encode(n)| <= e
    ensures NameAt(b, i, e) == Ok((n, i + |Encode(n)|))
  {
    hide HeaderAt, SetsAt, EncodeSets, Tlv, At;
    HeaderComplete(b, i, e, SEQUENCE, EncodeSets(n));
    var end := i + |Encode(n)|;
    SetsComplete(b, end - |EncodeSets(n)|, end, n);
  }

  // ---------------------------------------------------------------- the parser itself

  // One part of the input is left after another: both end in the same way.
  ghost predicate SameEnd<T>(r: Result<T>, s: Result<T>) {
    (r.Ok? <==> s.Ok?) && (r.Err? ==> s.Err? && r.code == s.code)
  }

  method ParseAttribute(c: Cursor, setEnd: uint64) returns (r: Result<uint64>)
    requires c.idx <= setEnd <= |c.raw|
    modifies c
    ensures match AttributeAt(c.raw, old(c.idx), setEnd)
      case Ok((_, j)) => r == Ok(j) && c.idx == j
      case Err(code) => r == Err(code)
  {
    hide HeaderAt;
    var attributeEnd :- c.ParseDataElement(SEQUENCE, setEnd);
    var typeEnd :- c.ParseDataElement(OID, attributeEnd);
    c.idx := typeEnd;
    var value :- c.ParseAny(attributeEnd);
    if attributeEnd != value.end {
      return Err(TrailingData);
    }
    c.idx := value.end;
    return Ok(attributeEnd);
  }

  method ParseSet(c: Cursor, setEnd: uint64) returns (r: Result<()>)
    requires c.idx <= setEnd <= |c.raw| && setEnd > 0
    modifies c
    ensures match AttributesAt(c.raw, old(c.idx), setEnd)
      case Ok(_) => r == Ok(()) && c.idx == setEnd
      case Err(code) => r == Err(code)
  {
    hide AttributeAt;
    ghost var spec := AttributesAt(c.raw, c.idx, setEnd);
    var attributeEnd: uint64 := 0;
    while attributeEnd < setEnd
      invariant c.idx <= setEnd && attributeEnd <= setEnd
      invariant attributeEnd == 0 || attributeEnd == c.idx
      invariant attributeEnd < setEnd ==> SameEnd(spec, AttributesAt(c.raw, c.idx, setEnd))
      invariant attributeEnd == setEnd ==> spec.Ok?
      decreases |c.raw| - c.idx
    {
      attributeEnd :- ParseAttribute(c, setEnd);
    }
    assert c.idx == setEnd;
    return Ok(());
  }

  method ParseName(c: Cursor, parentEnd: uint64) returns (r: Result<()>)
    requires c.idx <= parentEnd <= |c.raw|
    modifies c
    ensures match NameAt(c.raw, old(c.idx), parentEnd)
      case Ok((_, j)) => r == Ok(()) && c.idx == j
      case Err(code) => r == Err(code)
  {
    hide HeaderAt, AttributesAt;
    var nameEnd :- c.ParseDataElement(SEQUENCE, parentEnd);
    ghost var spec := SetsAt(c.raw, c.idx, nameEnd);
    while c.idx < nameEnd
      invariant c.idx <= nameEnd
      invariant SameEnd(spec, SetsAt(c.raw, c.idx, nameEnd))
      decreases nameEnd - c.idx
    {
      var setEnd :- c.ParseDataElement(SET, nameEnd);
      var _ :- ParseSet(c, setEnd);
    }
    assert c.idx == nameEnd;
    return Ok(());
  }
}
