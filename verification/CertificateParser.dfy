/** parse_x509 itself: the cursor moves through the certificate and the struct is filled in. */
module CertificateParser {
  import opened Bytes
  import opened Der
  import opened Extensions
  import opened Fields
  import opened Certificate
  import opened ExtensionParser
  import Name
  import Time

  method ParseAlgId(c: Cursor, parentEnd: uint64) returns (r: Result<(Slice, Slice)>)
    requires c.idx <= parentEnd <= |c.raw|
    modifies c
    ensures match AlgIdAt(c.raw, old(c.idx), parentEnd)
      case Ok(a) => r == Ok((Slice(old(c.idx), a.params.end), a.oid)) && c.idx == a.params.end
      case Err(code) => r == Err(code)
  {
    hide HeaderAt;
    var idStart := c.idx;
    var idEnd :- c.ParseDataElement(SEQUENCE, parentEnd);
    var oidEnd :- c.ParseDataElement(OID, idEnd);
    var oidStart := c.idx;
    c.idx := idEnd;
    return Ok((Slice(idStart, idEnd), Slice(oidStart, oidEnd)));
  }

  method ParseVersion(c: Cursor, parentEnd: uint64) returns (r: Result<()>)
    requires c.idx <= parentEnd <= |c.raw|
    modifies c
    ensures match VersionAt(c.raw, old(c.idx), parentEnd)
      case Ok(j) => r == Ok(()) && c.idx == j
      case Err(code) => r == Err(code)
  {
    hide HeaderAt;
    var explicitEnd :- c.ParseDataElement(EXPLICIT_0, parentEnd);
    var versionEnd :- c.ParseDataElement(INTEGER, explicitEnd);
    if versionEnd - c.idx != 1 || c.raw[c.idx] != 2 {
      return Err(InvalidVersion);
    }
    if versionEnd != explicitEnd {
      return Err(TrailingData);
    }
    c.idx := versionEnd;
    return Ok(());
  }

  method ParseValidity(c: Cursor, parentEnd: uint64, fields: X509Fields) returns (r: Result<()>)
    requires c.idx <= parentEnd <= |c.raw|
    modifies c, fields
    ensures match ValidityAt(c.raw, old(c.idx), parentEnd)
      case Ok((s, t, j)) =>
        && r == Ok(()) && c.idx == j
        && fields.Contents() == old(fields.Contents()).(notBefore := Time.Timestamp(s), notAfter := Time.Timestamp(t))
      case Err(code) => r == Err(code)
  {
    hide HeaderAt, Time.TimeAt, Time.Timestamp;
    var validityEnd :- c.ParseDataElement(SEQUENCE, parentEnd);
    fields.notBefore :- Time.ParseTime(c, validityEnd);
    fields.notAfter :- Time.ParseTime(c, validityEnd);
    if c.idx != validityEnd {
      return Err(TrailingData);
    }
    return Ok(());
  }

  method ParseSigAlg(c: Cursor, tbsEnd: uint64, fields: X509Fields) returns (r: Result<()>)
    requires c.idx <= tbsEnd <= |c.raw|
    modifies c, fields
    ensures match AlgIdAt(c.raw, old(c.idx), tbsEnd)
      case Ok(a) =>
        && r == Ok(()) && c.idx == a.params.end
        && fields.Contents() == old(fields.Contents()).(sigId := Slice(old(c.idx), a.params.end), sigOid := a.oid)
      case Err(code) => r == Err(code)
  {
    hide AlgIdAt;
    var alg :- ParseAlgId(c, tbsEnd);
    var (id, oid) := alg;
    fields.sigId, fields.sigOid := id, oid;
    return Ok(());
  }

  method ParseNames(c: Cursor, tbsEnd: uint64, fields: X509Fields) returns (r: Result<()>)
    requires c.idx <= tbsEnd <= |c.raw|
    modifies c, fields
    ensures match NamesAt(c.raw, old(c.idx), tbsEnd)
      case Ok((_, s, t, _, j)) =>
        && r == Ok(()) && c.idx == j
        && fields.Contents() == old(fields.Contents()).(notBefore := Time.Timestamp(s), notAfter := Time.Timestamp(t))
      case Err(code) => r == Err(code)
  {
    hide Name.NameAt, ValidityAt, Time.Timestamp, X509Fields.Contents;
    var _ :- Name.ParseName(c, tbsEnd);
    var _ :- ParseValidity(c, tbsEnd, fields);
    var _ :- Name.ParseName(c, tbsEnd);
    return Ok(());
  }

  method ParseKeyAlg(c: Cursor, keyInfoEnd: uint64, fields: X509Fields) returns (r: Result<()>)
    requires c.idx <= keyInfoEnd <= |c.raw|
    modifies c, fields
    ensures match AlgIdAt(c.raw, old(c.idx), keyInfoEnd)
      case Ok(a) =>
        && r == Ok(()) && c.idx == a.params.end
        && fields.Contents() == old(fields.Contents()).(pubKeyId := Slice(old(c.idx), a.params.end), pubKeyOid := a.oid)
      case Err(code) => r == Err(code)
  {
    hide AlgIdAt;
    var alg :- ParseAlgId(c, keyInfoEnd);
    var (id, oid) := alg;
    fields.pubKeyId, fields.pubKeyOid := id, oid;
    return Ok(());
  }

  method ParseKeyInfo(c: Cursor, parentEnd: uint64, fields: X509Fields) returns (r: Result<()>)
    requires c.idx <= parentEnd <= |c.raw|
    modifies c, fields
    ensures match KeyInfoAt(c.raw, old(c.idx), parentEnd)
      case Ok((k, start)) =>
        && r == Ok(()) && c.idx == k.key.end
        && fields.Contents() == old(fields.Contents()).(
          pubKeyId := Slice(start, k.alg.params.end), pubKeyOid := k.alg.oid, pubKey := k.key)
      case Err(code) => r == Err(code)
  {
    hide HeaderAt, AlgIdAt, BitStringAt;
    var keyInfoEnd :- c.ParseDataElement(SEQUENCE, parentEnd);
    var _ :- ParseKeyAlg(c, keyInfoEnd, fields);
    var pubKeyEnd :- c.ParseBitstringNoUnused(keyInfoEnd);
    if pubKeyEnd != keyInfoEnd {
      return Err(TrailingData);
    }
    fields.pubKey := Slice(c.idx, pubKeyEnd);
    c.idx := pubKeyEnd;
    return Ok(());
  }

  method ParseOptionalExtensions(c: Cursor, tbsEnd: uint64, fields: X509Fields) returns (r: Result<()>)
    requires c.idx <= tbsEnd <= |c.raw|
    modifies c, fields
    ensures match ExtensionsAt(c.raw, old(c.idx), tbsEnd)
      case Ok((xs, j)) =>
        && r == Ok(()) && c.idx == j
        && fields.Contents() == old(fields.Contents()).(
          found := RecordAll(c.raw, NOTHING_FOUND, if xs.Some? then xs.value else []))
      case Err(code) => r == Err(code)
  {
    hide HeaderAt, ListAt;
    var explicitEnd :- c.ParseOptionalData(EXPLICIT_3, tbsEnd, IDX_NONE);
    fields.AssignDefaultExtensions();
    if explicitEnd != IDX_NONE {
      var extensionsEnd :- c.ParseDataElement(SEQUENCE, explicitEnd);
      if extensionsEnd != explicitEnd {
        return Err(TrailingData);
      }
      var _ :- ParseExtensions(c, extensionsEnd, fields);
    }
    return Ok(());
  }

  // The optional elements after the public key, up to the end of the signed part.
  method ParseTail(c: Cursor, tbsEnd: uint64, fields: X509Fields) returns (r: Result<()>)
    requires c.idx <= tbsEnd <= |c.raw|
    modifies c, fields
    ensures match TailAt(c.raw, old(c.idx), tbsEnd)
      case Ok(t) =>
        && r == Ok(()) && c.idx == tbsEnd
        && fields.Contents() == old(fields.Contents()).(
          found := RecordAll(c.raw, NOTHING_FOUND, if t.extensions.Some? then t.extensions.value else []))
      case Err(code) => r == Err(code)
  {
    hide OptionalSliceAt, ExtensionsAt, RecordAll, X509Fields.Contents;
    var _ :- SkipOptional(c, IMPLICIT_1, tbsEnd);
    var _ :- SkipOptional(c, IMPLICIT_2, tbsEnd);
    var _ :- ParseOptionalExtensions(c, tbsEnd, fields);
    if c.idx != tbsEnd {
      return Err(TrailingData);
    }
    return Ok(());
  }

  // The view v with what the signed part, behind the serial number, adds to it.
  function Filled(v: View, b: bytes, t: Tbs<Slice>, keyIdStart: nat): View {
    v.(sigId := Slice(t.serial.end, t.sigAlg.params.end), sigOid := t.sigAlg.oid,
       notBefore := Time.Timestamp(t.notBefore), notAfter := Time.Timestamp(t.notAfter),
       pubKeyId := Slice(keyIdStart, t.keyInfo.alg.params.end), pubKeyOid := t.keyInfo.alg.oid, pubKey := t.keyInfo.key,
       found := RecordAll(b, NOTHING_FOUND, ExtensionsOf(t)))
  }

  method ParseAfterSerial(c: Cursor, ghost serial: Slice, tbsEnd: uint64, fields: X509Fields) returns (r: Result<()>)
    requires c.idx == serial.end <= tbsEnd <= |c.raw|
    modifies c, fields
    ensures match AfterSerialAt(c.raw, serial, tbsEnd)
      case Ok((t, start)) =>
        && r == Ok(()) && c.idx == tbsEnd
        && fields.Contents() == Filled(old(fields.Contents()), c.raw, t, start)
      case Err(code) => r == Err(code)
  {
    hide AlgIdAt, NamesAt, KeyInfoAt, TailAt, RecordAll, Time.Timestamp, X509Fields.Contents;
    var _ :- ParseSigAlg(c, tbsEnd, fields);
    var _ :- ParseNames(c, tbsEnd, fields);
    var _ :- ParseKeyInfo(c, tbsEnd, fields);
    var _ :- ParseTail(c, tbsEnd, fields);
    return Ok(());
  }

  method ParseTbs(c: Cursor, tbsEnd: uint64, fields: X509Fields) returns (r: Result<()>)
    requires c.idx <= tbsEnd <= |c.raw|
    modifies c, fields
    ensures match TbsAt(c.raw, old(c.idx), tbsEnd)
      case Ok((t, start)) =>
        && r == Ok(()) && c.idx == tbsEnd
        && fields.Contents() == Filled(old(fields.Contents()).(certSerial := t.serial), c.raw, t, start)
      case Err(code) => r == Err(code)
  {
    hide HeaderAt, VersionAt, AfterSerialAt, Filled;
    var _ :- ParseVersion(c, tbsEnd);
    var serialEnd :- c.ParseDataElement(INTEGER, tbsEnd);
    fields.certSerial := Slice(c.idx, serialEnd);
    c.idx := serialEnd;
    r := ParseAfterSerial(c, fields.certSerial, tbsEnd, fields);
  }

  method ParseSignature(c: Cursor, certEnd: uint64, fields: X509Fields) returns (r: Result<()>)
    requires c.idx <= certEnd <= |c.raw| && fields.sigId.start <= fields.sigId.end <= |c.raw|
    modifies c, fields
    ensures match SignatureAt(c.raw, old(c.idx), certEnd, old(fields.sigId))
      case Ok(s) => r == Ok(()) && fields.Contents() == old(fields.Contents()).(sig := s)
      case Err(code) => r == Err(code)
  {
    hide BitStringAt;
    var sigIdSize: uint64 := fields.sigId.end - fields.sigId.start;
    var copyEnd: uint64 := c.idx + sigIdSize;
    if copyEnd >= certEnd {
      return Err(UnexpectedEndOfData);
    }
    if c.raw[fields.sigId.start..fields.sigId.end] != c.raw[c.idx..copyEnd] {
      return Err(MismatchedSigId);
    }
    c.idx := copyEnd;
    var sigEnd :- c.ParseBitstringNoUnused(certEnd);
    if sigEnd != certEnd {
      return Err(TrailingData);
    }
    fields.sig := Slice(c.idx, sigEnd);
    c.idx := sigEnd;
    return Ok(());
  }

  method ParseX509(raw: buffer, fields: X509Fields) returns (r: Result<()>)
    modifies fields
    ensures match X509(raw)
      case Ok(p) => r == Ok(()) && fields.Contents() == ViewOf(raw, p)
      case Err(code) => r == Err(code)
  {
    hide HeaderAt, TbsAt, SignatureAt, RecordAll, Time.Timestamp;
    var c := new Cursor(raw, 0);
    var certEnd :- c.ParseDataElement(SEQUENCE, |raw|);
    if |raw| != certEnd {
      return Err(TrailingData);
    }
    var signedDataStart := c.idx;
    var tbsEnd :- c.ParseDataElement(SEQUENCE, certEnd);
    fields.signedData := Slice(signedDataStart, tbsEnd);
    var _ :- ParseTbs(c, tbsEnd, fields);
    r := ParseSignature(c, certEnd, fields);
  }
}
