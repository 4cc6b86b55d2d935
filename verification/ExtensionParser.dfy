/** The extension handlers and the loop over the extension list, writing into an X509Fields. */
module ExtensionParser {
  import opened Bytes
  import opened Der
  import opened Bits
  import opened Extensions
  import opened Usage
  import opened Fields

  method ParseBasicConstraint(raw: buffer, start: uint64, extnEnd: uint64, fields: X509Fields) returns (r: Result<()>)
    requires start <= extnEnd <= |raw|
    modifies fields`keyCertSign, fields`pathLenConstraint
    ensures match BasicConstraintAt(raw, start, extnEnd)
      case Ok(x) => r == Ok(()) && fields.Extracted() == Record(raw, old(fields.Extracted()), x)
      case Err(code) => r == Err(code)
  {
    hide HeaderAt, Read;
    var c := new Cursor(raw, start);
    var constraintEnd :- c.ParseDataElement(SEQUENCE, extnEnd);
    fields.keyCertSign :- c.ParseDefaultBool(constraintEnd);
    if fields.keyCertSign {
      var pathEnd :- c.ParseOptionalData(INTEGER, constraintEnd, IDX_NONE);
      if pathEnd != IDX_NONE {
        if c.idx == pathEnd {
          return Err(UnexpectedEndOfData);
        }
        if raw[c.idx] >= 0x80 || pathEnd - c.idx > 4 {
          return Err(InvalidInteger);
        }
        fields.pathLenConstraint := ReadPathLength(c, pathEnd, fields.pathLenConstraint);
      } else {
        fields.pathLenConstraint := MAX_UINT32;
      }
    }
    if c.idx != extnEnd {
      return Err(TrailingData);
    }
    return Ok(());
  }

  method ReadPathLength(c: Cursor, pathEnd: uint64, initial: uint32) returns (length: uint32)
    requires c.idx <= pathEnd <= |c.raw|
    modifies c
    ensures c.idx == pathEnd
    ensures length == Accumulate(initial, Read(c.raw, Slice(old(c.idx), pathEnd)))
  {
    length := initial;
    while c.idx < pathEnd
      invariant c.idx <= pathEnd
      invariant Accumulate(length, c.raw[c.idx..pathEnd]) == Accumulate(initial, c.raw[old(c.idx)..pathEnd])
    {
      SliceCons(c.raw, c.idx, pathEnd);
      length := length % 0x100_0000 * 256 + c.raw[c.idx];
      c.idx := c.idx + 1;
    }
  }

  // Moves past an optional element whose content is not used.
  method SkipOptional(c: Cursor, expected: byte, parentEnd: uint64) returns (r: Result<()>)
    requires c.idx <= parentEnd <= |c.raw|
    modifies c
    ensures match OptionalSliceAt(c.raw, expected, old(c.idx), parentEnd)
      case Ok((_, j)) => r == Ok(()) && c.idx == j
      case Err(code) => r == Err(code)
  {
    hide HeaderAt;
    var end :- c.ParseOptionalData(expected, parentEnd, IDX_NONE);
    if end != IDX_NONE {
      c.idx := end;
    }
    return Ok(());
  }

  method ParseAkid(raw: buffer, start: uint64, extnEnd: uint64, fields: X509Fields) returns (r: Result<()>)
    requires start <= extnEnd <= |raw|
    modifies fields`akid
    ensures match AkidAt(raw, start, extnEnd)
      case Ok(x) => r == Ok(()) && fields.Extracted() == Record(raw, old(fields.Extracted()), x)
      case Err(code) => r == Err(code)
  {
    hide HeaderAt, Read;
    var c := new Cursor(raw, start);
    var akidSeqEnd :- c.ParseDataElement(SEQUENCE, extnEnd);
    if akidSeqEnd != extnEnd {
      return Err(TrailingData);
    }
    var keyIdEnd :- c.ParseOptionalData(IMPLICIT_0, akidSeqEnd, IDX_NONE);
    fields.akid := Slice(if keyIdEnd != IDX_NONE then c.idx else fields.akid.start, keyIdEnd);
    if keyIdEnd != IDX_NONE {
      c.idx := keyIdEnd;
    }
    var _ :- SkipOptional(c, CONSTRUCTED_1, akidSeqEnd);
    var _ :- SkipOptional(c, IMPLICIT_2, akidSeqEnd);
    if c.idx != extnEnd {
      return Err(TrailingData);
    }
    return Ok(());
  }

  method ParseSkid(raw: buffer, start: uint64, extnEnd: uint64, fields: X509Fields) returns (r: Result<()>)
    requires start <= extnEnd <= |raw|
    modifies fields`skid
    ensures match SkidAt(raw, start, extnEnd)
      case Ok(x) => r == Ok(()) && fields.Extracted() == Record(raw, old(fields.Extracted()), x)
      case Err(code) => r == Err(code)
  {
    hide HeaderAt, Read;
    var c := new Cursor(raw, start);
    var skidEnd :- c.ParseDataElement(OCTET_STRING, extnEnd);
    if skidEnd != extnEnd {
      return Err(TrailingData);
    }
    fields.skid := Slice(c.idx, skidEnd);
    return Ok(());
  }

  method ParseKeyUsage(raw: buffer, start: uint64, extnEnd: uint64, ghost critical: bool, fields: X509Fields)
    returns (r: Result<()>)
    requires start <= extnEnd <= |raw|
    modifies fields`hasKeyUsage, fields`keyUsageFlags
    ensures match KeyUsageAt(raw, start, extnEnd, critical)
      case Ok(x) => r == Ok(()) && fields.Extracted() == Record(raw, old(fields.Extracted()), x)
      case Err(code) => r == Err(code)
  {
    hide HeaderAt, Or, Bit, LowBitsClear;
    var c := new Cursor(raw, start);
    var usageEnd :- c.ParseDataElement(BITSTRING, extnEnd);
    if usageEnd - c.idx <= 1 {
      return Err(UnexpectedEndOfData);
    }
    if usageEnd != extnEnd || usageEnd - c.idx > 3 {
      return Err(TrailingData);
    }
    ghost var bits := raw[c.idx..usageEnd];
    var (unused, first, last) := (raw[c.idx], raw[c.idx + 1], raw[usageEnd - 1]);
    if unused >= 8 {
      return Err(InvalidBitstring);
    }
    SliceOctets(raw, c.idx, usageEnd);
    var ends := EndsWithLastSetBit(last, unused);
    if !ends {
      return Err(InvalidBitstring);
    }
    fields.hasKeyUsage := true;
    ghost var before := fields.keyUsageFlags;
    fields.keyUsageFlags := Or32(fields.keyUsageFlags, first);
    var third: uint64 := c.idx + 2;
    if third < usageEnd {
      var second: uint32 := raw[third];
      fields.keyUsageFlags := Or32(fields.keyUsageFlags, 2 * second);
    }
    GatheredKeyUsage(before, bits);
    return Ok(());
  }

  lemma SliceOctets(b: bytes, i: nat, j: nat)
    requires i + 2 <= j <= |b|
    ensures var s := b[i..j];
      && |s| == j - i && s[0] == b[i] && s[1] == b[i + 1] && s[|s| - 1] == b[j - 1]
      && (i + 2 < j ==> s[2] == b[i + 2])
  {}

  // The masks for the last bit that must be set and for the unused ones behind it.
  method EndsWithLastSetBit(last: byte, unused: byte) returns (ok: bool)
    requires unused < 8
    ensures ok <==> Bit(last, unused) && LowBitsClear(last, unused)
  {
    hide And, Bit, LowBitsClear, Pow2, ShiftRight;
    ShiftedHighBit(unused);
    BitByMask(last, unused);
    LowBitsByMask(last, unused);
    var lastSetBit: byte := ShiftRight(0x80, 7 - unused);
    // The wrap-around the source allows for does not happen, as a bit is set.
    var unusedBits: byte := (lastSetBit + 255) % 256;
    ok := And(last, lastSetBit) != 0 && And(last, unusedBits) == 0;
  }

  // Taking up the octets one after the other is taking up both.
  lemma GatheredKeyUsage(flags: uint32, bits: bytes)
    requires 2 <= |bits| <= 3
    ensures Or32(flags, KeyUsageFlags(bits)) ==
      if |bits| == 3 then Or32(Or32(flags, bits[1]), 2 * SecondOctet(bits)) else Or32(flags, bits[1])
  {
    hide Or;
    OrAssociates(flags, bits[1], 2 * SecondOctet(bits));
    OrZero(bits[1]);
  }

  method ParseExtKeyUsage(raw: buffer, start: uint64, extnEnd: uint64, ghost critical: bool, fields: X509Fields)
    returns (r: Result<()>)
    requires start <= extnEnd <= |raw|
    modifies fields`hasExtKeyUsage, fields`keyUsageFlags
    ensures match ExtKeyUsageAt(raw, start, extnEnd, critical)
      case Ok(x) => r == Ok(()) && fields.Extracted() == Record(raw, old(fields.Extracted()), x)
      case Err(code) => r == Err(code)
  {
    hide HeaderAt, PurposesAt, Read, ReadAll, PurposesFlags;
    var c := new Cursor(raw, start);
    var usageEnd :- c.ParseDataElement(SEQUENCE, extnEnd);
    if usageEnd != extnEnd {
      return Err(TrailingData);
    }
    fields.keyUsageFlags :- GatherPurposes(c, usageEnd, fields.keyUsageFlags);
    fields.hasExtKeyUsage := true;
    return Ok(());
  }

  // The loop over the purposes, with the flags gathered in a word.
  method GatherPurposes(c: Cursor, usageEnd: uint64, initial: uint32) returns (r: Result<uint32>)
    requires c.idx <= usageEnd <= |c.raw|
    modifies c
    ensures match PurposesAt(c.raw, old(c.idx), usageEnd)
      case Ok(ps) => r == Ok(Or32(initial, PurposesFlags(ReadAll(c.raw, ps)))) && c.idx == usageEnd
      case Err(code) => r == Err(code)
  {
    hide HeaderAt, Or, PurposeFlag;
    var flags := initial;
    OrZero(flags);
    while c.idx < usageEnd
      invariant c.idx <= usageEnd
      invariant Gathered(c.raw, PurposesAt(c.raw, c.idx, usageEnd), flags)
        == Gathered(c.raw, PurposesAt(c.raw, old(c.idx), usageEnd), initial)
    {
      var purposeEnd :- c.ParseDataElement(OID, usageEnd);
      var oid := c.raw[c.idx..purposeEnd];
      ghost var rest := PurposesAt(c.raw, purposeEnd, usageEnd);
      if rest.Ok? { OrAssociates(flags, PurposeFlag(oid), PurposesFlags(ReadAll(c.raw, rest.value))); }
      flags := Or32(flags, PurposeFlag(oid));
      c.idx := purposeEnd;
    }
    OrZero(flags);
    return Ok(flags);
  }

  ghost function Gathered(b: bytes, ps: Result<seq<Slice>>, flags: uint32): Result<uint32> {
    match ps
    case Ok(s) => Ok(Or32(flags, PurposesFlags(ReadAll(b, s))))
    case Err(code) => Err(code)
  }

  // The indirect call through the table entry.
  method ParseValue(kind: Kind, raw: buffer, start: uint64, extnEnd: uint64, ghost critical: bool, fields: X509Fields)
    returns (r: Result<()>)
    requires start <= extnEnd <= |raw|
    modifies fields`skid, fields`akid, fields`keyCertSign,
      fields`pathLenConstraint, fields`hasKeyUsage, fields`hasExtKeyUsage, fields`keyUsageFlags
    ensures match ValueAt(kind, raw, start, extnEnd, critical)
      case Ok(x) => r == Ok(()) && fields.Extracted() == Record(raw, old(fields.Extracted()), x)
      case Err(code) => r == Err(code)
  {
    hide BasicConstraintAt, AkidAt, SkidAt, KeyUsageAt, ExtKeyUsageAt, Record;
    match kind
    case BasicConstraintKind => r := ParseBasicConstraint(raw, start, extnEnd, fields);
    case AkidKind => r := ParseAkid(raw, start, extnEnd, fields);
    case SkidKind => r := ParseSkid(raw, start, extnEnd, fields);
    case KeyUsageKind => r := ParseKeyUsage(raw, start, extnEnd, critical, fields);
    case ExtKeyUsageKind => r := ParseExtKeyUsage(raw, start, extnEnd, critical, fields);
  }

  // The search of the table for the extension's OID, the criticality rules and the handler.
  method RecogniseExtension(raw: buffer, w: Wrapper, fields: X509Fields) returns (r: Result<()>)
    requires w.oid.start <= w.oid.end <= w.value.start <= w.value.end <= |raw|
    modifies fields`skid, fields`akid, fields`keyCertSign,
      fields`pathLenConstraint, fields`hasKeyUsage, fields`hasExtKeyUsage, fields`keyUsageFlags
    ensures match RecognisedAt(raw, w)
      case Ok(x) => r == Ok(()) && fields.Extracted() == Record(raw, old(fields.Extracted()), x)
      case Err(code) => r == Err(code)
  {
    hide ValueAt;
    var oid := raw[w.oid.start..w.oid.end];
    var criticalFail := w.critical;
    var k := 0;
    while k < |SUPPORTED_EXTNS|
      invariant k <= |SUPPORTED_EXTNS|
      invariant fields.Extracted() == old(fields.Extracted())
      invariant Lookup(oid, 0) == Lookup(oid, k)
    {
      var s := SUPPORTED_EXTNS[k];
      if s.oid == oid {
        if s.criticality >= 2 && (s.criticality % 2 == 1) != w.critical {
          return Err(InvalidCriticality);
        }
        r := ParseValue(s.kind, raw, w.value.start, w.value.end, w.critical, fields);
        return;
      }
      k := k + 1;
    }
    if criticalFail {
      return Err(UnrecognizedCriticalExtn);
    }
    return Ok(());
  }

  method ParseWrapper(c: Cursor, extensionsEnd: uint64) returns (r: Result<Wrapper>)
    requires c.idx <= extensionsEnd <= |c.raw|
    modifies c
    ensures r == WrapperAt(c.raw, old(c.idx), extensionsEnd)
    ensures r.Ok? ==> c.idx == r.value.value.start
  {
    hide HeaderAt;
    var extensionEnd :- c.ParseDataElement(SEQUENCE, extensionsEnd);
    var oidEnd :- c.ParseDataElement(OID, extensionEnd);
    var oidStart := c.idx;
    c.idx := oidEnd;
    var critical :- c.ParseDefaultBool(extensionEnd);
    var extnEnd :- c.ParseDataElement(OCTET_STRING, extensionEnd);
    if extnEnd != extensionEnd {
      return Err(TrailingData);
    }
    return Ok(Wrapper(Slice(oidStart, oidEnd), critical, Slice(c.idx, extnEnd)));
  }

  // The OIDs met so far, kept as positions and sizes in two fixed arrays.
  ghost predicate Remembers(raw: buffer, starts: array<uint64>, sizes: array<uint64>, count: nat, seen: seq<bytes>)
    reads starts, sizes
  {
    && starts.Length == MAX_EXTN && sizes.Length == MAX_EXTN && |seen| == count <= MAX_EXTN
    && forall k | 0 <= k < count :: starts[k] + sizes[k] <= |raw| && raw[starts[k]..starts[k] + sizes[k]] == seen[k]
  }

  method IsDuplicate(raw: buffer, starts: array<uint64>, sizes: array<uint64>, count: nat, oid: bytes,
      ghost seen: seq<bytes>)
    returns (duplicate: bool)
    requires Remembers(raw, starts, sizes, count, seen)
    ensures duplicate <==> oid in seen
  {
    for i := 0 to count
      invariant oid !in seen[..i]
    {
      if sizes[i] == |oid| && raw[starts[i]..starts[i] + sizes[i]] == oid {
        return true;
      }
    }
    return false;
  }

  method Remember(raw: buffer, starts: array<uint64>, sizes: array<uint64>, count: nat, oid: Slice,
      ghost seen: seq<bytes>)
    requires Remembers(raw, starts, sizes, count, seen) && count < MAX_EXTN && starts != sizes
    requires oid.start <= oid.end <= |raw|
    modifies starts, sizes
    ensures Remembers(raw, starts, sizes, count + 1, seen + [Read(raw, oid)])
  {
    starts[count], sizes[count] := oid.start, oid.end - oid.start;
  }

  ghost function Finished(b: bytes, xs: Result<seq<Extension<Slice>>>, f: Found): Result<Found> {
    match xs
    case Ok(s) => Ok(RecordAll(b, f, s))
    case Err(code) => Err(code)
  }

  // One turn of the loop, and what is left to do after it.
  ghost function Turn(b: buffer, i: nat, e: nat, seen: seq<bytes>, f: Found): Result<Found>
    requires i <= e <= |b|
  {
    if i == e then Ok(f)
    else if |seen| >= MAX_EXTN then Err(ExceedsMaxExtns)
    else
      var w :- WrapperAt(b, i, e);
      var oid := Read(b, w.oid);
      if oid in seen then Err(DuplicateExtns)
      else
        var x :- RecognisedAt(b, w);
        Finished(b, ListAt(b, w.value.end, e, seen + [oid]), Record(b, f, x))
  }

  lemma FinishedStep(b: buffer, i: nat, e: nat, seen: seq<bytes>, f: Found)
    requires i <= e <= |b|
    ensures Finished(b, ListAt(b, i, e, seen), f) == Turn(b, i, e, seen, f)
  {
    hide WrapperAt, RecognisedAt, Record;
  }

  method ParseExtensions(c: Cursor, extensionsEnd: uint64, fields: X509Fields) returns (r: Result<()>)
    requires c.idx <= extensionsEnd <= |c.raw|
    modifies c, fields`skid, fields`akid, fields`keyCertSign,
      fields`pathLenConstraint, fields`hasKeyUsage, fields`hasExtKeyUsage, fields`keyUsageFlags
    ensures match ListAt(c.raw, old(c.idx), extensionsEnd, [])
      case Ok(xs) =>
        && r == Ok(()) && c.idx == extensionsEnd
        && fields.Extracted() == RecordAll(c.raw, old(fields.Extracted()), xs)
      case Err(code) => r == Err(code)
  {
    hide WrapperAt, RecognisedAt, Record, ListAt, RecordAll;
    var starts := new uint64[MAX_EXTN];
    var sizes := new uint64[MAX_EXTN];
    var count := 0;
    ghost var seen: seq<bytes> := [];
    assert Remembers(c.raw, starts, sizes, count, seen);
    hide Remembers;
    while c.idx < extensionsEnd
      invariant c.idx <= extensionsEnd
      invariant |seen| == count && Remembers(c.raw, starts, sizes, count, seen)
      invariant Finished(c.raw, ListAt(c.raw, c.idx, extensionsEnd, seen), fields.Extracted())
        == Finished(c.raw, ListAt(c.raw, old(c.idx), extensionsEnd, []), old(fields.Extracted()))
    {
      FinishedStep(c.raw, c.idx, extensionsEnd, seen, fields.Extracted());
      if count >= MAX_EXTN {
        return Err(ExceedsMaxExtns);
      }
      var w :- ParseWrapper(c, extensionsEnd);
      var oid := c.raw[w.oid.start..w.oid.end];
      var duplicate := IsDuplicate(c.raw, starts, sizes, count, oid, seen);
      if duplicate {
        return Err(DuplicateExtns);
      }
      Remember(c.raw, starts, sizes, count, w.oid, seen);
      count := count + 1;
      seen := seen + [oid];
      var _ :- RecogniseExtension(c.raw, w, fields);
      c.idx := w.value.end;
    }
    assert c.idx == extensionsEnd;
    FinishedStep(c.raw, c.idx, extensionsEnd, seen, fields.Extracted());
    return Ok(());
  }
}
