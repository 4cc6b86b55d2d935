/**
 * The DER layer of src/x509.c: element headers, optional elements, BOOLEAN DEFAULT FALSE and
 * BIT STRINGs without unused bits. For each parser there is a function of the buffer that says
 * what it does, including its error code, a method of class Cursor that does it by moving an
 * index, and lemmas that relate what is accepted to an encoder.
 */
module Der {
  import opened Bytes

  datatype ParseCode =
    | ParseOk
    | UnexpectedEndOfData
    | UnexpectedIdentifier
    | InvalidLengthForm
    | TrailingData
    | InvalidVersion
    | InvalidBoolean
    | InvalidInteger
    | InvalidBitstring
    | InvalidValidityTime
    | MismatchedSigId
    | ExceedsMaxExtns
    | DuplicateExtns
    | UnrecognizedCriticalExtn
    | InvalidCriticality

  type ParseError = c: ParseCode | c != ParseOk witness UnexpectedEndOfData

  datatype Result<+T> = Ok(value: T) | Err(code: ParseError) {
    predicate IsFailure() { Err? }

    function PropagateFailure<U>(): Result<U>
      requires Err?
    {
      Err(code)
    }

    function Extract(): T
      requires Ok?
    {
      value
    }
  }

  const BOOLEAN: byte := 1
  const INTEGER: byte := 2
  const BITSTRING: byte := 3
  const OCTET_STRING: byte := 4
  const OID: byte := 6
  const UTCTIME: byte := 23
  const GENERALIZEDTIME: byte := 24
  const SEQUENCE: byte := 0x30
  const SET: byte := 0x31
  const IMPLICIT_0: byte := 0x80
  const IMPLICIT_1: byte := 0x81
  const IMPLICIT_2: byte := 0x82
  const EXPLICIT_0: byte := 0xa0
  const CONSTRUCTED_1: byte := 0xa1
  const EXPLICIT_3: byte := 0xa3

  // The sentinel end index of an element that is not there.
  const IDX_NONE: uint64 := 0

  // ---------------------------------------------------------------- encoder

  // Length octets in the only form section 10.1 of X.690 allows. The long form has at most 126
  // octets; no buffer reaches the numbers that would need more.
  function LengthOctets(n: nat): (s: bytes)
    ensures s != []
  {
    var octets := BigEndian(n);
    if n < 128 then [n]
    else [if |octets| < 127 then 128 + |octets| else 255] + octets
  }

  function HeaderOctets(identifier: byte, length: nat): bytes {
    [identifier] + LengthOctets(length)
  }

  function Tlv(identifier: byte, content: bytes): (s: bytes)
    ensures |s| >= 2 + |content|
  {
    HeaderOctets(identifier, |content|) + content
  }

  function OptionalTlv(identifier: byte, content: Option<bytes>): bytes {
    if content.Some? then Tlv(identifier, content.value) else []
  }

  function DefaultBool(value: bool): bytes {
    if value then Tlv(BOOLEAN, [0xff]) else []
  }

  function BitString(octets: bytes): bytes {
    Tlv(BITSTRING, [0] + octets)
  }

  // ---------------------------------------------------------------- what each parser does

  // An element whose content occupies [start, end).
  datatype Header = Header(identifier: byte, start: nat, end: nat)

  function HeaderAt(b: buffer, i: nat, e: nat): (r: Result<Header>)
    requires e <= |b|
    ensures r.Ok? ==> i + 2 <= r.value.start <= r.value.end <= e
  {
    if i + 1 >= e then Err(UnexpectedEndOfData)
    else
      var lead := b[i + 1];
      if lead == 0x80 || lead == 0xff then Err(InvalidLengthForm)
      else if lead < 0x80 then Bounded(b[i], i + 2, lead, e)
      else
        var octets := lead - 0x80;
        if i + 2 + octets > e then Err(UnexpectedEndOfData)
        else if b[i + 2] == 0 then Err(InvalidLengthForm)
        else if octets > 8 then Err(UnexpectedEndOfData)
        else
          var length := Value(b[i + 2..i + 2 + octets]);
          if length <= 127 then Err(InvalidLengthForm)
          else Bounded(b[i], i + 2 + octets, length, e)
  }

  function Bounded(identifier: byte, start: nat, length: nat, e: nat): Result<Header> {
    if start + length > e then Err(UnexpectedEndOfData)
    else Ok(Header(identifier, start, start + length))
  }

  function ElementAt(b: buffer, expected: byte, i: nat, e: nat): (r: Result<Header>)
    requires e <= |b|
    ensures r.Ok? ==> r == HeaderAt(b, i, e) && i + 2 <= r.value.start <= r.value.end <= e
  {
    var h :- HeaderAt(b, i, e);
    if h.identifier != expected then Err(UnexpectedIdentifier) else Ok(h)
  }

  function OptionalAt(b: buffer, expected: byte, i: nat, e: nat): (r: Result<Option<Header>>)
    requires e <= |b|
    ensures r.Ok? && r.value.Some? ==> ElementAt(b, expected, i, e) == Ok(r.value.value)
  {
    match ElementAt(b, expected, i, e)
    case Ok(h) => Ok(Some(h))
    case Err(code) =>
      if code == UnexpectedEndOfData || code == UnexpectedIdentifier then Ok(None) else Err(code)
  }

  // The value and the position after it.
  function DefaultBoolAt(b: buffer, i: nat, e: nat): (r: Result<(bool, nat)>)
    requires i <= e <= |b|
    ensures r.Ok? ==> i <= r.value.1 <= e
  {
    var o :- OptionalAt(b, BOOLEAN, i, e);
    if o.None? then Ok((false, i))
    else if o.value.end != o.value.start + 1 || b[o.value.start] != 0xff then Err(InvalidBoolean)
    else Ok((true, o.value.end))
  }

  // The octets after the leading count of unused bits, which must be zero.
  function BitStringAt(b: buffer, i: nat, e: nat): (r: Result<Slice>)
    requires e <= |b|
    ensures r.Ok? ==> i + 3 <= r.value.start <= r.value.end <= e
  {
    var h :- ElementAt(b, BITSTRING, i, e);
    if h.start >= h.end then Err(UnexpectedEndOfData)
    else if b[h.start] != 0 then Err(InvalidBitstring)
    else Ok(Slice(h.start + 1, h.end))
  }

  // ---------------------------------------------------------------- parsers and encoder agree

  lemma LongForm(octets: bytes)
    requires 1 <= |octets| <= 8 && octets[0] != 0 && Value(octets) >= 128
    ensures LengthOctets(Value(octets)) == [128 + |octets|] + octets
  {
    BigEndianOfValue(octets);
  }

  lemma LongFormOf(n: nat) returns (octets: bytes)
    requires 128 <= n < TWO_TO_THE_64
    ensures octets == BigEndian(n) && 1 <= |octets| <= 8 && octets[0] != 0 && Value(octets) == n
    ensures LengthOctets(n) == [128 + |octets|] + octets
  {
    hide BigEndian, Value;
    octets := BigEndian(n);
    Pow256Eight();
    BigEndianSize(n, 8);
    ValueOfBigEndian(n);
  }

  lemma HeaderOctetsSound(b: buffer, i: nat, e: nat)
    requires e <= |b| && HeaderAt(b, i, e).Ok?
    ensures var h := HeaderAt(b, i, e).value; b[i..h.start] == HeaderOctets(h.identifier, h.end - h.start)
  {
    hide BigEndian, Value;
    var h := HeaderAt(b, i, e).value;
    if b[i + 1] >= 0x80 {
      var octets := b[i + 2..h.start];
      LongForm(octets);
      assert b[i..h.start] == [b[i]] + ([b[i + 1]] + octets);
    }
  }

  // Every accepted header is the minimal encoding of the content it frames.
  lemma HeaderSound(b: buffer, i: nat, e: nat)
    requires e <= |b| && HeaderAt(b, i, e).Ok?
    ensures var h := HeaderAt(b, i, e).value;
      At(b, i, Tlv(h.identifier, b[h.start..h.end])) &&
      h.end == i + |Tlv(h.identifier, b[h.start..h.end])|
  {
    hide HeaderAt, LengthOctets;
    var h := HeaderAt(b, i, e).value;
    HeaderOctetsSound(b, i, e);
    assert b[i..h.end] == b[i..h.start] + b[h.start..h.end];
  }

  lemma LongHeaderComplete(b: buffer, i: nat, e: nat, octets: bytes)
    requires 1 <= |octets| <= 8 && octets[0] != 0 && Value(octets) >= 128
    requires i + 2 + |octets| + Value(octets) <= e <= |b|
    requires b[i + 1] == 128 + |octets| && At(b, i + 2, octets)
    ensures var start := i + 2 + |octets|; HeaderAt(b, i, e) == Ok(Header(b[i], start, start + Value(octets)))
  {
    assert b[i + 2] == b[i + 2..i + 2 + |octets|][0];
  }

  lemma HeaderOctetsComplete(b: buffer, i: nat, e: nat, identifier: byte, n: nat)
    requires e <= |b| && At(b, i, HeaderOctets(identifier, n)) && i + |HeaderOctets(identifier, n)| + n <= e
    ensures var start := i + |HeaderOctets(identifier, n)|;
      HeaderAt(b, i, e) == Ok(Header(identifier, start, start + n))
  {
    AtConcat(b, i, [identifier], LengthOctets(n));
    assert b[i] == b[i..i + 1][0];
    if n < 128 {
      assert b[i + 1] == b[i + 1..i + 2][0];
    } else {
      var octets := LongFormOf(n);
      AtConcat(b, i + 1, [128 + |octets|], octets);
      assert b[i + 1] == b[i + 1..i + 2][0];
      LongHeaderComplete(b, i, e, octets);
    }
  }

  // Every minimal encoding that fits is accepted, and its content is found.
  lemma HeaderComplete(b: buffer, i: nat, e: nat, identifier: byte, content: bytes)
    requires e <= |b| && At(b, i, Tlv(identifier, content)) && i + |Tlv(identifier, content)| <= e
    ensures var end := i + |Tlv(identifier, content)|; var start := end - |content|;
      HeaderAt(b, i, e) == Ok(Header(identifier, start, end)) && At(b, start, content) &&
      b[start..end] == content
  {
    AtConcat(b, i, HeaderOctets(identifier, |content|), content);
    HeaderOctetsComplete(b, i, e, identifier, |content|);
  }

  // The outcome depends on nothing at or behind the end of the enclosing element.
  lemma HeaderReadsBelow(b: buffer, c: buffer, i: nat, e: nat)
    requires e <= |b| && e <= |c| && b[..e] == c[..e]
    ensures HeaderAt(b, i, e) == HeaderAt(c, i, e)
  {
    hide Value;
    forall k | 0 <= k < e ensures b[k] == c[k] { assert b[..e][k] == c[..e][k]; }
    if i + 1 < e && b[i + 1] >= 0x80 {
      var end := i + 2 + (b[i + 1] - 0x80);
      if end <= e { assert b[i + 2..end] == c[i + 2..end]; }
    }
  }

  // An element that is cut off reads as any absent optional element, but is cut off for whatever
  // is required next.
  lemma TruncationPersists(b: buffer, optional: byte, required: byte, i: nat, e: nat)
    requires e <= |b| && HeaderAt(b, i, e) == Err(UnexpectedEndOfData)
    ensures OptionalAt(b, optional, i, e) == Ok(None)
    ensures ElementAt(b, required, i, e) == Err(UnexpectedEndOfData)
  {
    hide HeaderAt;
  }

  // An element with another tag, or the end of the data, reads as an absent optional element.
  lemma OptionalAbsent(b: buffer, expected: byte, i: nat, e: nat, identifier: byte, content: bytes)
    requires e <= |b| && At(b, i, Tlv(identifier, content)) && i + |Tlv(identifier, content)| <= e
    requires identifier != expected
    ensures OptionalAt(b, expected, i, e) == Ok(None)
  {
    HeaderComplete(b, i, e, identifier, content);
  }

  lemma OptionalPresent(b: buffer, i: nat, e: nat, identifier: byte, content: bytes)
    requires e <= |b| && At(b, i, Tlv(identifier, content)) && i + |Tlv(identifier, content)| <= e
    ensures var end := i + |Tlv(identifier, content)|;
      OptionalAt(b, identifier, i, e) == Ok(Some(Header(identifier, end - |content|, end))) &&
      b[end - |content|..end] == content
  {
    HeaderComplete(b, i, e, identifier, content);
  }

  lemma DefaultBoolSound(b: buffer, i: nat, e: nat)
    requires i <= e <= |b| && DefaultBoolAt(b, i, e).Ok?
    ensures var (v, j) := DefaultBoolAt(b, i, e).value;
      At(b, i, DefaultBool(v)) && j == i + |DefaultBool(v)|
  {
    if DefaultBoolAt(b, i, e).value.0 {
      HeaderSound(b, i, e);
      var h := HeaderAt(b, i, e).value;
      assert b[h.start..h.end] == [0xff];
    }
  }

  lemma DefaultBoolTrue(b: buffer, i: nat, e: nat)
    requires i <= e <= |b| && At(b, i, DefaultBool(true)) && i + |DefaultBool(true)| <= e
    ensures DefaultBoolAt(b, i, e) == Ok((true, i + |DefaultBool(true)|))
  {
    HeaderComplete(b, i, e, BOOLEAN, [0xff]);
  }

  lemma BitStringSound(b: buffer, i: nat, e: nat)
    requires e <= |b| && BitStringAt(b, i, e).Ok?
    ensures var s := BitStringAt(b, i, e).value;
      At(b, i, BitString(Read(b, s))) && s.end == i + |BitString(Read(b, s))|
  {
    hide HeaderAt, Tlv, At;
    HeaderSound(b, i, e);
    var h := HeaderAt(b, i, e).value;
    SliceCons(b, h.start, h.end);
  }

  lemma BitStringComplete(b: buffer, i: nat, e: nat, octets: bytes)
    requires e <= |b| && At(b, i, BitString(octets)) && i + |BitString(octets)| <= e
    ensures var end := i + |BitString(octets)|; var s := Slice(end - |octets|, end);
      BitStringAt(b, i, e) == Ok(s) && Read(b, s) == octets
  {
    hide HeaderAt, Tlv;
    HeaderComplete(b, i, e, BITSTRING, [0] + octets);
    var end := i + |BitString(octets)|;
    AtConcat(b, end - |octets| - 1, [0], octets);
    AtOctet(b, end - |octets| - 1, 0);
  }

  // ---------------------------------------------------------------- the parsers themselves

  /** A read position in a certificate. On success a parser leaves it where the next one starts. */
  class Cursor {
    const raw: buffer
    var idx: uint64

    constructor (raw: buffer, idx: uint64)
      ensures this.raw == raw && this.idx == idx
    {
      this.raw := raw;
      this.idx := idx;
    }

    // The accumulation of the length octets, most significant first.
    method ReadLength(octets: nat) returns (length: uint64)
      requires octets <= 8 && idx + octets <= |raw|
      modifies this
      ensures idx == old(idx) + octets
      ensures length == Value(raw[old(idx)..idx])
    {
      length := 0;
      Pow256Eight();
      for k := 0 to octets
        invariant idx == old(idx) + k
        invariant length == Value(raw[old(idx)..idx])
      {
        Pow256Monotone(k + 1, 8);
        ValueSnoc(raw[old(idx)..idx], raw[idx]);
        assert raw[old(idx)..idx + 1] == raw[old(idx)..idx] + [raw[idx]];
        length := length * 256 + raw[idx];
        idx := idx + 1;
      }
    }

    method ParseAny(parentEnd: uint64) returns (r: Result<Header>)
      requires idx <= parentEnd <= |raw|
      modifies this
      ensures r == HeaderAt(raw, old(idx), parentEnd)
      ensures r.Ok? ==> idx == r.value.start
    {
      if idx >= parentEnd {
        return Err(UnexpectedEndOfData);
      }
      var identifier := raw[idx];
      idx := idx + 1;
      if idx >= parentEnd {
        return Err(UnexpectedEndOfData);
      }
      var lengthByte := raw[idx];
      if lengthByte == 0x80 || lengthByte == 0xff {
        return Err(InvalidLengthForm);
      }
      var length: uint64 := 0;
      idx := idx + 1;
      if lengthByte >= 0x80 {
        var lengthOctets := lengthByte - 0x80;
        var lengthEnd: uint64 := idx + lengthOctets;
        if lengthEnd > parentEnd {
          return Err(UnexpectedEndOfData);
        }
        if raw[idx] == 0 {
          return Err(InvalidLengthForm);
        }
        if lengthOctets > 8 {
          return Err(UnexpectedEndOfData);
        }
        length := ReadLength(lengthOctets);
        if length <= 127 {
          return Err(InvalidLengthForm);
        }
      } else {
        length := lengthByte;
      }
      if length > parentEnd - idx {
        return Err(UnexpectedEndOfData);
      }
      var contentEnd: uint64 := idx + length;
      return Ok(Header(identifier, idx, contentEnd));
    }

    method ParseDataElement(expected: byte, parentEnd: uint64) returns (r: Result<uint64>)
      requires idx <= parentEnd <= |raw|
      modifies this
      ensures match ElementAt(raw, expected, old(idx), parentEnd)
        case Ok(h) => r == Ok(h.end) && idx == h.start
        case Err(code) => r == Err(code)
    {
      var h :- ParseAny(parentEnd);
      if h.identifier != expected {
        return Err(UnexpectedIdentifier);
      }
      return Ok(h.end);
    }

    // A failure leaves the index alone; rsa_extract relies on that.
    method ParseNull(parentEnd: uint64) returns (r: Result<()>)
      requires idx <= parentEnd <= |raw|
      modifies this
      ensures r.Ok? <==> old(idx) + 2 <= parentEnd && At(raw, old(idx), [5, 0])
      ensures idx == if r.Ok? then old(idx) + 2 else old(idx)
      ensures match r
        case Ok(_) => true
        case Err(UnexpectedEndOfData) => old(idx) + 2 > parentEnd
        case Err(UnexpectedIdentifier) => old(idx) + 2 <= parentEnd && raw[old(idx)] != 5
        case Err(code) => code == InvalidLengthForm && old(idx) + 2 <= parentEnd && raw[old(idx)] == 5
    {
      var end: uint64 := idx + 2;
      if end > parentEnd {
        return Err(UnexpectedEndOfData);
      }
      if raw[idx] != 5 {
        return Err(UnexpectedIdentifier);
      }
      if raw[idx + 1] != 0 {
        return Err(InvalidLengthForm);
      }
      idx := end;
      return Ok(());
    }

    // All or nothing: either a whole header is consumed and the end of its content returned,
    // or the index and the end the caller had are given back.
    method ParseOptionalData(expected: byte, parentEnd: uint64, preEnd: uint64) returns (r: Result<uint64>)
      requires idx <= parentEnd <= |raw|
      modifies this
      ensures match OptionalAt(raw, expected, old(idx), parentEnd)
        case Ok(Some(h)) => r == Ok(h.end) && idx == h.start
        case Ok(None) => r == Ok(preEnd) && idx == old(idx)
        case Err(code) => r == Err(code)
    {
      var preIdx := idx;
      var element := ParseDataElement(expected, parentEnd);
      match element
      case Ok(end) => return Ok(end);
      case Err(code) =>
        if code == UnexpectedEndOfData || code == UnexpectedIdentifier {
          idx := preIdx;
          return Ok(preEnd);
        }
        return Err(code);
    }

    method ParseDefaultBool(parentEnd: uint64) returns (r: Result<bool>)
      requires idx <= parentEnd <= |raw|
      modifies this
      ensures match DefaultBoolAt(raw, old(idx), parentEnd)
        case Ok((value, j)) => r == Ok(value) && idx == j
        case Err(code) => r == Err(code)
    {
      var boolEnd :- ParseOptionalData(BOOLEAN, parentEnd, IDX_NONE);
      if boolEnd != IDX_NONE {
        var next: uint64 := idx + 1;
        if boolEnd != next || raw[idx] != 0xff {
          return Err(InvalidBoolean);
        }
        idx := boolEnd;
        return Ok(true);
      }
      return Ok(false);
    }

    method ParseBitstringNoUnused(parentEnd: uint64) returns (r: Result<uint64>)
      requires idx <= parentEnd <= |raw|
      modifies this
      ensures match BitStringAt(raw, old(idx), parentEnd)
        case Ok(s) => r == Ok(s.end) && idx == s.start
        case Err(code) => r == Err(code)
    {
      var contentEnd :- ParseDataElement(BITSTRING, parentEnd);
      if idx >= contentEnd {
        return Err(UnexpectedEndOfData);
      }
      if raw[idx] != 0 {
        return Err(InvalidBitstring);
      }
      idx := idx + 1;
      return Ok(contentEnd);
    }
  }
}
