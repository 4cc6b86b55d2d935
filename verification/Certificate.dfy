/**
 * The certificate: its abstract syntax, its DER encoder, what parse_x509 does, and the proof that
 * it accepts exactly the encodings of well-formed certificates (the profile of section 4.1 of
 * RFC 5280 that the source implements) and finds every component.
 */
module Certificate {
  import opened Bytes
  import opened Der
  import opened Extensions
  import opened Fields
  import Name
  import Time

  // Over leaves of type T: slices of the buffer as parsed, or the bytes they select. Parameters,
  // serial number and unique identifiers are not interpreted.
  datatype AlgId<T> = AlgId(oid: T, params: T)

  datatype KeyInfo<T> = KeyInfo(alg: AlgId<T>, key: T)

  datatype Tail<T> = Tail(issuerUid: Option<T>, subjectUid: Option<T>, extensions: Option<seq<Extension<T>>>)

  datatype Tbs<T> = Tbs(
    serial: T,
    sigAlg: AlgId<T>,
    issuer: Name.Name,
    notBefore: Time.Time,
    notAfter: Time.Time,
    subject: Name.Name,
    keyInfo: KeyInfo<T>,
    tail: Tail<T>)

  datatype Certificate<T> = Certificate(tbs: Tbs<T>, signature: T)

  function ReadAlgId(b: bytes, a: AlgId<Slice>): AlgId<bytes> {
    AlgId(Read(b, a.oid), Read(b, a.params))
  }

  function ReadKeyInfo(b: bytes, k: KeyInfo<Slice>): KeyInfo<bytes> {
    KeyInfo(ReadAlgId(b, k.alg), Read(b, k.key))
  }

  function ReadTail(b: bytes, t: Tail<Slice>): Tail<bytes> {
    Tail(ReadOption(b, t.issuerUid), ReadOption(b, t.subjectUid), ReadExtensions(b, t.extensions))
  }

  function ReadExtensions(b: bytes, xs: Option<seq<Extension<Slice>>>): Option<seq<Extension<bytes>>> {
    if xs.Some? then Some(ReadList(b, xs.value)) else None
  }

  function ReadTbs(b: bytes, t: Tbs<Slice>): Tbs<bytes> {
    Tbs(Read(b, t.serial), ReadAlgId(b, t.sigAlg), t.issuer, t.notBefore, t.notAfter, t.subject,
      ReadKeyInfo(b, t.keyInfo), ReadTail(b, t.tail))
  }

  function ReadCertificate(b: bytes, c: Certificate<Slice>): Certificate<bytes> {
    Certificate(ReadTbs(b, c.tbs), Read(b, c.signature))
  }

  // ---------------------------------------------------------------- encoder

  function EncodeAlgId(a: AlgId<bytes>): (s: bytes)
    ensures |s| >= 2
  {
    Tlv(SEQUENCE, Tlv(OID, a.oid) + a.params)
  }

  // Version 3, the only one accepted.
  function EncodeVersion(): bytes {
    Tlv(EXPLICIT_0, Tlv(INTEGER, [2]))
  }

  function EncodeValidity(notBefore: Time.Time, notAfter: Time.Time): bytes {
    Tlv(SEQUENCE, Time.Encode(notBefore) + Time.Encode(notAfter))
  }

  function EncodeKeyInfo(k: KeyInfo<bytes>): bytes {
    Tlv(SEQUENCE, EncodeAlgId(k.alg) + BitString(k.key))
  }

  function ExtensionsContent(xs: Option<seq<Extension<bytes>>>): Option<bytes> {
    if xs.Some? then Some(Tlv(SEQUENCE, EncodeList(xs.value))) else None
  }

  function EncodeTail(t: Tail<bytes>): bytes {
    OptionalTlv(IMPLICIT_1, t.issuerUid) +
    (OptionalTlv(IMPLICIT_2, t.subjectUid) + OptionalTlv(EXPLICIT_3, ExtensionsContent(t.extensions)))
  }

  function AfterSerial(t: Tbs<bytes>): bytes {
    EncodeAlgId(t.sigAlg) + (Name.Encode(t.issuer) + (EncodeValidity(t.notBefore, t.notAfter) +
    (Name.Encode(t.subject) + (EncodeKeyInfo(t.keyInfo) + EncodeTail(t.tail)))))
  }

  function TbsContent(t: Tbs<bytes>): bytes {
    EncodeVersion() + (Tlv(INTEGER, t.serial) + AfterSerial(t))
  }

  function EncodeTbs(t: Tbs<bytes>): bytes {
    Tlv(SEQUENCE, TbsContent(t))
  }

  // The signature algorithm stands both inside and after the signed part.
  function Encode(c: Certificate<bytes>): bytes {
    Tlv(SEQUENCE, EncodeTbs(c.tbs) + (EncodeAlgId(c.tbs.sigAlg) + BitString(c.signature)))
  }

  predicate WellFormedTbs(t: Tbs<bytes>) {
    && Name.WellFormed(t.issuer) && Name.WellFormed(t.subject)
    && Time.WellFormed(t.notBefore) && Time.WellFormed(t.notAfter)
    && (t.tail.extensions.Some? ==> WellFormedList(t.tail.extensions.value, []))
  }

  // ---------------------------------------------------------------- what the parser does

  function AlgIdAt(b: buffer, i: nat, e: nat): (r: Result<AlgId<Slice>>)
    requires e <= |b|
    ensures r.Ok? ==> i + 4 <= r.value.oid.start <= r.value.oid.end == r.value.params.start <= r.value.params.end <= e
  {
    var h :- ElementAt(b, SEQUENCE, i, e);
    var oid :- ElementAt(b, OID, h.start, h.end);
    Ok(AlgId(Slice(oid.start, oid.end), Slice(oid.end, h.end)))
  }

  function VersionAt(b: buffer, i: nat, e: nat): (r: Result<nat>)
    requires e <= |b|
    ensures r.Ok? ==> i + 2 <= r.value <= e
  {
    var outer :- ElementAt(b, EXPLICIT_0, i, e);
    var version :- ElementAt(b, INTEGER, outer.start, outer.end);
    if version.end - version.start != 1 || b[version.start] != 2 then Err(InvalidVersion)
    else if version.end != outer.end then Err(TrailingData)
    else Ok(version.end)
  }

  function ValidityAt(b: buffer, i: nat, e: nat): (r: Result<(Time.Time, Time.Time, nat)>)
    requires e <= |b|
    ensures r.Ok? ==> i + 2 <= r.value.2 <= e
  {
    var h :- ElementAt(b, SEQUENCE, i, e);
    var (notBefore, j) :- Time.TimeAt(b, h.start, h.end);
    var (notAfter, k) :- Time.TimeAt(b, j, h.end);
    if k != h.end then Err(TrailingData) else Ok((notBefore, notAfter, k))
  }

  // Issuer, validity and subject.
  function NamesAt(b: buffer, i: nat, e: nat): (r: Result<(Name.Name, Time.Time, Time.Time, Name.Name, nat)>)
    requires e <= |b|
    ensures r.Ok? ==> i <= r.value.4 <= e
  {
    var (issuer, j) :- Name.NameAt(b, i, e);
    var (notBefore, notAfter, k) :- ValidityAt(b, j, e);
    var (subject, l) :- Name.NameAt(b, k, e);
    Ok((issuer, notBefore, notAfter, subject, l))
  }

  // With the position where the key's algorithm identifier starts.
  function KeyInfoAt(b: buffer, i: nat, e: nat): (r: Result<(KeyInfo<Slice>, nat)>)
    requires e <= |b|
    ensures r.Ok? ==> var (k, start) := r.value;
      && i + 2 <= start < k.alg.oid.start <= k.alg.oid.end == k.alg.params.start
      && k.alg.params.start <= k.alg.params.end < k.key.start <= k.key.end <= e
  {
    var h :- ElementAt(b, SEQUENCE, i, e);
    var alg :- AlgIdAt(b, h.start, h.end);
    var key :- BitStringAt(b, alg.params.end, h.end);
    if key.end != h.end then Err(TrailingData) else Ok((KeyInfo(alg, key), h.start))
  }

  function ExtensionsAt(b: buffer, i: nat, e: nat): Result<(Option<seq<Extension<Slice>>>, nat)>
    requires i <= e <= |b|
  {
    var o :- OptionalAt(b, EXPLICIT_3, i, e);
    if o.None? then Ok((None, i))
    else
      var h :- ElementAt(b, SEQUENCE, o.value.start, o.value.end);
      if h.end != o.value.end then Err(TrailingData)
      else
        var xs :- ListAt(b, h.start, h.end, []);
        Ok((Some(xs), h.end))
  }

  function TailAt(b: buffer, i: nat, e: nat): Result<Tail<Slice>>
    requires i <= e <= |b|
  {
    var (issuerUid, j) :- OptionalSliceAt(b, IMPLICIT_1, i, e);
    var (subjectUid, k) :- OptionalSliceAt(b, IMPLICIT_2, j, e);
    var (extensions, l) :- ExtensionsAt(b, k, e);
    if l != e then Err(TrailingData) else Ok(Tail(issuerUid, subjectUid, extensions))
  }

  // A parsed certificate, with the positions that its components do not give away.
  datatype Parsed = Parsed(cert: Certificate<Slice>, signedData: Slice, sigId: Slice, pubKeyId: Slice)

  function AfterSerialAt(b: buffer, serial: Slice, e: nat): (r: Result<(Tbs<Slice>, nat)>)
    requires serial.end <= e <= |b|
    ensures r.Ok? ==> r.value.0.serial == serial
    ensures r.Ok? ==> var (t, start) := r.value;
      && serial.end < t.sigAlg.oid.start <= t.sigAlg.oid.end <= t.sigAlg.params.end <= start <= t.keyInfo.alg.oid.start
      && t.keyInfo.alg.oid.start <= t.keyInfo.alg.oid.end <= t.keyInfo.alg.params.end <= t.keyInfo.key.start
      && t.keyInfo.key.start <= t.keyInfo.key.end <= e
  {
    var sigAlg :- AlgIdAt(b, serial.end, e);
    var (issuer, notBefore, notAfter, subject, k) :- NamesAt(b, sigAlg.params.end, e);
    var (keyInfo, keyIdStart) :- KeyInfoAt(b, k, e);
    var tail :- TailAt(b, keyInfo.key.end, e);
    Ok((Tbs(serial, sigAlg, issuer, notBefore, notAfter, subject, keyInfo, tail), keyIdStart))
  }

  function TbsAt(b: buffer, i: nat, e: nat): (r: Result<(Tbs<Slice>, nat)>)
    requires e <= |b|
    ensures r.Ok? ==> var (t, start) := r.value;
      && i < t.serial.start <= t.serial.end
      && t.serial.end < t.sigAlg.oid.start <= t.sigAlg.oid.end <= t.sigAlg.params.end <= start
      && start <= t.keyInfo.alg.oid.start <= t.keyInfo.alg.oid.end <= t.keyInfo.alg.params.end <= t.keyInfo.key.start
      && t.keyInfo.key.start <= t.keyInfo.key.end <= e
  {
    var j :- VersionAt(b, i, e);
    var serial :- ElementAt(b, INTEGER, j, e);
    AfterSerialAt(b, Slice(serial.start, serial.end), e)
  }

  // A copy of the inner algorithm identifier, then the signature up to e.
  function SignatureAt(b: buffer, i: nat, e: nat, sigId: Slice): Result<Slice>
    requires e <= |b| && sigId.start <= sigId.end <= |b|
  {
    var j := i + (sigId.end - sigId.start);
    if j >= e then Err(UnexpectedEndOfData)
    else if b[sigId.start..sigId.end] != b[i..j] then Err(MismatchedSigId)
    else
      var s :- BitStringAt(b, j, e);
      if s.end != e then Err(TrailingData) else Ok(s)
  }

  function X509(b: buffer): Result<Parsed> {
    var outer :- ElementAt(b, SEQUENCE, 0, |b|);
    if |b| != outer.end then Err(TrailingData)
    else
      var inner :- ElementAt(b, SEQUENCE, outer.start, outer.end);
      var (tbs, keyIdStart) :- TbsAt(b, inner.start, inner.end);
      var sigId := Slice(tbs.serial.end, tbs.sigAlg.params.end);
      var signature :- SignatureAt(b, inner.end, outer.end, sigId);
      Ok(Parsed(Certificate(tbs, signature), Slice(outer.start, inner.end), sigId,
        Slice(keyIdStart, tbs.keyInfo.alg.params.end)))
  }

  function ExtensionsOf<T>(t: Tbs<T>): seq<Extension<T>> {
    if t.tail.extensions.Some? then t.tail.extensions.value else []
  }

  // What parse_x509 leaves in the struct.
  function ViewOf(b: bytes, p: Parsed): View {
    var t := p.cert.tbs;
    View(p.sigId, t.sigAlg.oid, p.cert.signature, p.pubKeyId, t.keyInfo.alg.oid, t.keyInfo.key,
      p.signedData, t.serial, Time.Timestamp(t.notBefore), Time.Timestamp(t.notAfter),
      RecordAll(b, NOTHING_FOUND, ExtensionsOf(t)))
  }

  // ---------------------------------------------------------------- parser and encoder agree

  lemma AlgIdSound(b: buffer, i: nat, e: nat)
    requires e <= |b| && AlgIdAt(b, i, e).Ok?
    ensures var a := AlgIdAt(b, i, e).value;
      At(b, i, EncodeAlgId(ReadAlgId(b, a))) && a.params.end == i + |EncodeAlgId(ReadAlgId(b, a))|
  {
    hide HeaderAt, Tlv, At;
    var a := AlgIdAt(b, i, e).value;
    HeaderSound(b, i, e);
    var h := HeaderAt(b, i, e).value;
    HeaderSound(b, h.start, h.end);
    AtSlice(b, a.params.start, a.params.end);
    AtConcat(b, h.start, Tlv(OID, Read(b, a.oid)), Read(b, a.params));
    AtWhole(b, h.start, h.end, Tlv(OID, Read(b, a.oid)) + Read(b, a.params));
  }

  lemma AlgIdComplete(b: buffer, i: nat, e: nat, a: AlgId<bytes>)
    requires At(b, i, EncodeAlgId(a)) && i + |EncodeAlgId(a)| <= e <= |b|
    ensures var r := AlgIdAt(b, i, e);
      r.Ok? && ReadAlgId(b, r.value) == a && r.value.params.end == i + |EncodeAlgId(a)|
  {
    hide HeaderAt, Tlv, At;
    var content := Tlv(OID, a.oid) + a.params;
    HeaderComplete(b, i, e, SEQUENCE, content);
    var end := i + |EncodeAlgId(a)|;
    AtConcat(b, end - |content|, Tlv(OID, a.oid), a.params);
    HeaderComplete(b, end - |content|, end, OID, a.oid);
    AtWhole(b, end - |a.params|, end, a.params);
  }

  lemma VersionSound(b: buffer, i: nat, e: nat)
    requires e <= |b| && VersionAt(b, i, e).Ok?
    ensures At(b, i, EncodeVersion()) && VersionAt(b, i, e).value == i + |EncodeVersion()|
  {
    hide HeaderAt, Tlv, At;
    HeaderSound(b, i, e);
    var h := HeaderAt(b, i, e).value;
    HeaderSound(b, h.start, h.end);
    var v := HeaderAt(b, h.start, h.end).value;
    assert b[v.start..v.end] == [2];
    AtWhole(b, h.start, h.end, Tlv(INTEGER, [2]));
  }

  lemma VersionComplete(b: buffer, i: nat, e: nat)
    requires At(b, i, EncodeVersion()) && i + |EncodeVersion()| <= e <= |b|
    ensures VersionAt(b, i, e) == Ok(i + |EncodeVersion()|)
  {
    hide HeaderAt, Tlv, At;
    var content := Tlv(INTEGER, [2]);
    HeaderComplete(b, i, e, EXPLICIT_0, content);
    var end := i + |EncodeVersion()|;
    HeaderComplete(b, end - |content|, end, INTEGER, [2]);
    assert b[end - 1] == b[end - 1..end][0];
  }

  lemma ValiditySound(b: buffer, i: nat, e: nat)
    requires e <= |b| && ValidityAt(b, i, e).Ok?
    ensures var (notBefore, notAfter, k) := ValidityAt(b, i, e).value;
      && Time.WellFormed(notBefore) && Time.WellFormed(notAfter)
      && At(b, i, EncodeValidity(notBefore, notAfter)) && k == i + |EncodeValidity(notBefore, notAfter)|
  {
    hide HeaderAt, Tlv, At, Time.TimeAt, Time.WellFormed, Time.Encode;
    HeaderSound(b, i, e);
    var h := HeaderAt(b, i, e).value;
    Time.TimeSound(b, h.start, h.end);
    var (notBefore, j) := Time.TimeAt(b, h.start, h.end).value;
    Time.TimeSound(b, j, h.end);
    var (notAfter, k) := Time.TimeAt(b, j, h.end).value;
    AtConcat(b, h.start, Time.Encode(notBefore), Time.Encode(notAfter));
    AtWhole(b, h.start, h.end, Time.Encode(notBefore) + Time.Encode(notAfter));
  }

  lemma ValidityComplete(b: buffer, i: nat, e: nat, notBefore: Time.Time, notAfter: Time.Time)
    requires Time.WellFormed(notBefore) && Time.WellFormed(notAfter)
    requires At(b, i, EncodeValidity(notBefore, notAfter)) && i + |EncodeValidity(notBefore, notAfter)| <= e <= |b|
    ensures ValidityAt(b, i, e) == Ok((notBefore, notAfter, i + |EncodeValidity(notBefore, notAfter)|))
  {
    hide HeaderAt, Tlv, At, Time.TimeAt, Time.WellFormed, Time.Encode;
    var content := Time.Encode(notBefore) + Time.Encode(notAfter);
    HeaderComplete(b, i, e, SEQUENCE, content);
    var end := i + |EncodeValidity(notBefore, notAfter)|;
    var start := end - |content|;
    AtConcat(b, start, Time.Encode(notBefore), Time.Encode(notAfter));
    Time.TimeComplete(b, start, end, notBefore);
    Time.TimeComplete(b, start + |Time.Encode(notBefore)|, end, notAfter);
  }

  lemma KeyInfoSound(b: buffer, i: nat, e: nat)
    requires e <= |b| && KeyInfoAt(b, i, e).Ok?
    ensures var (k, start) := KeyInfoAt(b, i, e).value; var x := ReadKeyInfo(b, k);
      && At(b, i, EncodeKeyInfo(x)) && k.key.end == i + |EncodeKeyInfo(x)|
      && At(b, start, EncodeAlgId(x.alg)) && k.alg.params.end == start + |EncodeAlgId(x.alg)|
  {
    hide HeaderAt, Tlv, At, AlgIdAt, EncodeAlgId, BitString, BitStringAt, ReadAlgId;
    HeaderSound(b, i, e);
    var h := HeaderAt(b, i, e).value;
    AlgIdSound(b, h.start, h.end);
    var x := ReadKeyInfo(b, KeyInfoAt(b, i, e).value.0);
    var j := AlgIdAt(b, h.start, h.end).value.params.end;
    BitStringSound(b, j, h.end);
    AtConcat(b, h.start, EncodeAlgId(x.alg), BitString(x.key));
    AtWhole(b, h.start, h.end, EncodeAlgId(x.alg) + BitString(x.key));
  }

  lemma KeyInfoComplete(b: buffer, i: nat, e: nat, x: KeyInfo<bytes>)
    requires At(b, i, EncodeKeyInfo(x)) && i + |EncodeKeyInfo(x)| <= e <= |b|
    ensures var r := KeyInfoAt(b, i, e);
      r.Ok? && ReadKeyInfo(b, r.value.0) == x && r.value.0.key.end == i + |EncodeKeyInfo(x)|
  {
    hide HeaderAt, Tlv, At, AlgIdAt, EncodeAlgId, BitString, BitStringAt, ReadAlgId;
    var content := EncodeAlgId(x.alg) + BitString(x.key);
    HeaderComplete(b, i, e, SEQUENCE, content);
    var end := i + |EncodeKeyInfo(x)|;
    var start := end - |content|;
    AtConcat(b, start, EncodeAlgId(x.alg), BitString(x.key));
    AlgIdComplete(b, start, end, x.alg);
    BitStringComplete(b, start + |EncodeAlgId(x.alg)|, end, x.key);
  }

  lemma ExtensionsSound(b: buffer, i: nat, e: nat)
    requires i <= e <= |b| && ExtensionsAt(b, i, e).Ok?
    ensures var (o, j) := ExtensionsAt(b, i, e).value;
      var xs := ReadExtensions(b, o);
      var s := OptionalTlv(EXPLICIT_3, ExtensionsContent(xs));
      && (xs.Some? ==> WellFormedList(xs.value, []))
      && At(b, i, s) && j == i + |s|
  {
    hide HeaderAt, Tlv, At, ListAt, EncodeList, WellFormedList, ReadList;
    var (o, j) := ExtensionsAt(b, i, e).value;
    AtEmpty(b, i);
    if o.Some? {
      HeaderSound(b, i, e);
      var outer := HeaderAt(b, i, e).value;
      HeaderSound(b, outer.start, outer.end);
      var h := HeaderAt(b, outer.start, outer.end).value;
      ListSound(b, h.start, h.end, []);
      AtWhole(b, h.start, h.end, EncodeList(ReadList(b, o.value)));
      AtWhole(b, outer.start, outer.end, Tlv(SEQUENCE, EncodeList(ReadList(b, o.value))));
    }
  }

  lemma ExtensionsComplete(b: buffer, i: nat, e: nat, xs: Option<seq<Extension<bytes>>>)
    requires xs.Some? ==> WellFormedList(xs.value, [])
    requires At(b, i, OptionalTlv(EXPLICIT_3, ExtensionsContent(xs)))
    requires e == i + |OptionalTlv(EXPLICIT_3, ExtensionsContent(xs))| <= |b|
    ensures var r := ExtensionsAt(b, i, e); r.Ok? && ReadExtensions(b, r.value.0) == xs && r.value.1 == e
  {
    hide HeaderAt, Tlv, At, ListAt, EncodeList, WellFormedList, ReadList;
    if xs.None? {
      AtEnd(b, i);
    } else {
      var list := EncodeList(xs.value);
      OptionalPresent(b, i, e, EXPLICIT_3, Tlv(SEQUENCE, list));
      HeaderComplete(b, i, e, EXPLICIT_3, Tlv(SEQUENCE, list));
      var start := e - |Tlv(SEQUENCE, list)|;
      HeaderComplete(b, start, e, SEQUENCE, list);
      ListComplete(b, e - |list|, e, [], xs.value);
    }
  }

  lemma TailSound(b: buffer, i: nat, e: nat)
    requires i <= e <= |b| && TailAt(b, i, e).Ok?
    ensures var l := TailAt(b, i, e).value; var t := ReadTail(b, l);
      && (t.extensions.Some? ==> WellFormedList(t.extensions.value, []))
      && At(b, i, EncodeTail(t)) && e == i + |EncodeTail(t)|
  {
    hide HeaderAt, Tlv, At, OptionalTlv, OptionalSliceAt, ExtensionsAt, ExtensionsContent, WellFormedList, ReadList;
    var t := ReadTail(b, TailAt(b, i, e).value);
    OptionalSliceSound(b, IMPLICIT_1, i, e);
    var j := OptionalSliceAt(b, IMPLICIT_1, i, e).value.1;
    OptionalSliceSound(b, IMPLICIT_2, j, e);
    var k := OptionalSliceAt(b, IMPLICIT_2, j, e).value.1;
    ExtensionsSound(b, k, e);
    var (o1, o2) := (OptionalTlv(IMPLICIT_1, t.issuerUid), OptionalTlv(IMPLICIT_2, t.subjectUid));
    var o3 := OptionalTlv(EXPLICIT_3, ExtensionsContent(t.extensions));
    AtConcat(b, j, o2, o3);
    AtConcat(b, i, o1, o2 + o3);
  }

  // Where the optional elements may stand: at the start, or behind one or both unique identifiers.
  ghost predicate TailPosition(b: buffer, i: nat, e: nat, p: nat)
    requires i <= e <= |b|
  {
    p == i || match OptionalSliceAt(b, IMPLICIT_1, i, e)
      case Err(_) => false
      case Ok((_, j)) => p == j || match OptionalSliceAt(b, IMPLICIT_2, j, e)
        case Err(_) => false
        case Ok((_, k)) => p == k
  }

  // An optional element that is cut off, wherever it stands, is not taken for an absent one.
  lemma TruncatedTailRefused(b: buffer, i: nat, e: nat, p: nat)
    requires i <= e <= |b| && TailPosition(b, i, e, p)
    requires p < e && HeaderAt(b, p, e) == Err(UnexpectedEndOfData)
    ensures TailAt(b, i, e) == Err(TrailingData)
  {
    hide HeaderAt;
    TruncationPersists(b, IMPLICIT_1, SEQUENCE, p, e);
    TruncationPersists(b, IMPLICIT_2, SEQUENCE, p, e);
    TruncationPersists(b, EXPLICIT_3, SEQUENCE, p, e);
  }

  // RFC 5280 wants at least one extension, but an empty list of them is accepted.
  lemma EmptyExtensionsAccepted()
    ensures ExtensionsAt([0xa3, 2, 0x30, 0], 0, 4) == Ok((Some([]), 4))
  {
  }

  lemma TailComplete(b: buffer, i: nat, e: nat, t: Tail<bytes>)
    requires t.extensions.Some? ==> WellFormedList(t.extensions.value, [])
    requires e == i + |EncodeTail(t)| <= |b| && At(b, i, EncodeTail(t))
    ensures var r := TailAt(b, i, e); r.Ok? && ReadTail(b, r.value) == t
  {
    hide HeaderAt, Tlv, At, OptionalSliceAt, ExtensionsAt, ExtensionsContent, WellFormedList, ReadList;
    var (o1, o2) := (OptionalTlv(IMPLICIT_1, t.issuerUid), OptionalTlv(IMPLICIT_2, t.subjectUid));
    var o3 := OptionalTlv(EXPLICIT_3, ExtensionsContent(t.extensions));
    AtConcat(b, i, o1, o2 + o3);
    AtConcat(b, i + |o1|, o2, o3);
    var xs := ExtensionsContent(t.extensions);
    var last := if xs.Some? then Some((EXPLICIT_3, xs.value)) else None;
    var rest := if t.subjectUid.Some? then Some((IMPLICIT_2, t.subjectUid.value)) else last;
    OptionalSliceComplete(b, IMPLICIT_1, i, e, t.issuerUid, rest);
    OptionalSliceComplete(b, IMPLICIT_2, i + |o1|, e, t.subjectUid, last);
    ExtensionsComplete(b, i + |o1| + |o2|, e, t.extensions);
  }
}
