/** Parsing and encoding of whole certificates undo each other. */
module CertificateTheorems {
  import opened Bytes
  import opened Der
  import opened Extensions
  import opened Usage
  import opened Fields
  import opened Certificate
  import Name
  import Time

  lemma AfterSerialSound(b: buffer, serial: Slice, e: nat)
    requires serial.end <= e <= |b| && AfterSerialAt(b, serial, e).Ok?
    ensures var (l, start) := AfterSerialAt(b, serial, e).value; var t := ReadTbs(b, l);
      && WellFormedTbs(t)
      && At(b, serial.end, AfterSerial(t)) && e == serial.end + |AfterSerial(t)|
      && At(b, serial.end, EncodeAlgId(t.sigAlg)) && l.sigAlg.params.end == serial.end + |EncodeAlgId(t.sigAlg)|
      && At(b, start, EncodeAlgId(t.keyInfo.alg)) && l.keyInfo.alg.params.end == start + |EncodeAlgId(t.keyInfo.alg)|
  {
    hide At, AlgIdAt, EncodeAlgId, Name.NameAt, Name.Encode, Name.WellFormed, ValidityAt, EncodeValidity,
      Time.WellFormed, KeyInfoAt, EncodeKeyInfo, TailAt, EncodeTail, ReadAlgId, WellFormedList, Read;
    var (l, start) := AfterSerialAt(b, serial, e).value;
    var t := ReadTbs(b, l);
    AlgIdSound(b, serial.end, e);
    var p1 := l.sigAlg.params.end;
    Name.NameSound(b, p1, e);
    var p2 := Name.NameAt(b, p1, e).value.1;
    ValiditySound(b, p2, e);
    var p3 := ValidityAt(b, p2, e).value.2;
    Name.NameSound(b, p3, e);
    var p4 := Name.NameAt(b, p3, e).value.1;
    KeyInfoSound(b, p4, e);
    var p5 := l.keyInfo.key.end;
    TailSound(b, p5, e);
    AtConcat(b, p4, EncodeKeyInfo(t.keyInfo), EncodeTail(t.tail));
    var s4 := EncodeKeyInfo(t.keyInfo) + EncodeTail(t.tail);
    AtConcat(b, p3, Name.Encode(t.subject), s4);
    var s3 := Name.Encode(t.subject) + s4;
    AtConcat(b, p2, EncodeValidity(t.notBefore, t.notAfter), s3);
    var s2 := EncodeValidity(t.notBefore, t.notAfter) + s3;
    AtConcat(b, p1, Name.Encode(t.issuer), s2);
    AtConcat(b, serial.end, EncodeAlgId(t.sigAlg), Name.Encode(t.issuer) + s2);
  }

  lemma AfterSerialComplete(b: buffer, serial: Slice, e: nat, t: Tbs<bytes>)
    requires WellFormedTbs(t) && Read(b, serial) == t.serial
    requires e == serial.end + |AfterSerial(t)| <= |b| && At(b, serial.end, AfterSerial(t))
    ensures var r := AfterSerialAt(b, serial, e); r.Ok? && ReadTbs(b, r.value.0) == t
  {
    hide At, AlgIdAt, EncodeAlgId, Name.NameAt, Name.Encode, Name.WellFormed, ValidityAt, EncodeValidity,
      Time.WellFormed, KeyInfoAt, EncodeKeyInfo, TailAt, EncodeTail, ReadAlgId, ReadTail, WellFormedList, Read;
    var s4 := EncodeKeyInfo(t.keyInfo) + EncodeTail(t.tail);
    var s3 := Name.Encode(t.subject) + s4;
    var s2 := EncodeValidity(t.notBefore, t.notAfter) + s3;
    var s1 := Name.Encode(t.issuer) + s2;
    AtConcat(b, serial.end, EncodeAlgId(t.sigAlg), s1);
    AlgIdComplete(b, serial.end, e, t.sigAlg);
    var p1 := serial.end + |EncodeAlgId(t.sigAlg)|;
    AtConcat(b, p1, Name.Encode(t.issuer), s2);
    Name.NameComplete(b, p1, e, t.issuer);
    var p2 := p1 + |Name.Encode(t.issuer)|;
    AtConcat(b, p2, EncodeValidity(t.notBefore, t.notAfter), s3);
    ValidityComplete(b, p2, e, t.notBefore, t.notAfter);
    var p3 := p2 + |EncodeValidity(t.notBefore, t.notAfter)|;
    AtConcat(b, p3, Name.Encode(t.subject), s4);
    Name.NameComplete(b, p3, e, t.subject);
    var p4 := p3 + |Name.Encode(t.subject)|;
    AtConcat(b, p4, EncodeKeyInfo(t.keyInfo), EncodeTail(t.tail));
    KeyInfoComplete(b, p4, e, t.keyInfo);
    TailComplete(b, p4 + |EncodeKeyInfo(t.keyInfo)|, e, t.tail);
  }

  lemma TbsSound(b: buffer, i: nat, e: nat)
    requires i <= e <= |b| && TbsAt(b, i, e).Ok?
    ensures var (l, start) := TbsAt(b, i, e).value; var t := ReadTbs(b, l);
      && WellFormedTbs(t)
      && At(b, i, TbsContent(t)) && e == i + |TbsContent(t)|
      && At(b, l.serial.end, EncodeAlgId(t.sigAlg)) && l.sigAlg.params.end == l.serial.end + |EncodeAlgId(t.sigAlg)|
      && At(b, start, EncodeAlgId(t.keyInfo.alg)) && l.keyInfo.alg.params.end == start + |EncodeAlgId(t.keyInfo.alg)|
  {
    hide HeaderAt, Tlv, At, VersionAt, EncodeVersion, AfterSerialAt, AfterSerial, EncodeAlgId, WellFormedTbs,
      ReadTail, ReadKeyInfo, ReadAlgId;
    VersionSound(b, i, e);
    var j := VersionAt(b, i, e).value;
    HeaderSound(b, j, e);
    var (l, start) := TbsAt(b, i, e).value;
    AfterSerialSound(b, l.serial, e);
    var t := ReadTbs(b, l);
    AtConcat(b, j, Tlv(INTEGER, t.serial), AfterSerial(t));
    AtConcat(b, i, EncodeVersion(), Tlv(INTEGER, t.serial) + AfterSerial(t));
  }

  lemma TbsComplete(b: buffer, i: nat, e: nat, t: Tbs<bytes>)
    requires WellFormedTbs(t) && e == i + |TbsContent(t)| <= |b| && At(b, i, TbsContent(t))
    ensures var r := TbsAt(b, i, e); r.Ok? && ReadTbs(b, r.value.0) == t
  {
    hide HeaderAt, Tlv, At, VersionAt, EncodeVersion, AfterSerialAt, AfterSerial, WellFormedTbs, ReadTail,
      ReadKeyInfo, ReadAlgId;
    var s := Tlv(INTEGER, t.serial) + AfterSerial(t);
    AtConcat(b, i, EncodeVersion(), s);
    VersionComplete(b, i, e);
    var j := i + |EncodeVersion()|;
    AtConcat(b, j, Tlv(INTEGER, t.serial), AfterSerial(t));
    HeaderComplete(b, j, e, INTEGER, t.serial);
    var k := j + |Tlv(INTEGER, t.serial)|;
    AfterSerialComplete(b, Slice(k - |t.serial|, k), e, t);
  }

  lemma AtCopy(b: bytes, i: nat, j: nat, s: bytes)
    requires At(b, i, s) && j + |s| <= |b| && b[j..j + |s|] == b[i..i + |s|]
    ensures At(b, j, s)
  {}

  lemma SignatureSound(b: buffer, i: nat, e: nat, sigId: Slice, a: bytes)
    requires e <= |b| && At(b, sigId.start, a) && sigId.end == sigId.start + |a| <= |b|
    requires SignatureAt(b, i, e, sigId).Ok?
    ensures var s := SignatureAt(b, i, e, sigId).value; var x := a + BitString(Read(b, s));
      At(b, i, x) && s.end == e == i + |x|
  {
    hide HeaderAt, BitString, BitStringAt, At;
    var s := SignatureAt(b, i, e, sigId).value;
    var j := i + |a|;
    AtCopy(b, sigId.start, i, a);
    BitStringSound(b, j, e);
    AtConcat(b, i, a, BitString(Read(b, s)));
  }

  lemma SignatureComplete(b: buffer, i: nat, e: nat, sigId: Slice, a: bytes, signature: bytes)
    requires At(b, sigId.start, a) && sigId.end == sigId.start + |a| <= |b|
    requires var x := a + BitString(signature); At(b, i, x) && e == i + |x| <= |b|
    ensures var r := SignatureAt(b, i, e, sigId); r.Ok? && Read(b, r.value) == signature
  {
    hide BitStringAt, BitString, At;
    AtConcat(b, i, a, BitString(signature));
    AtWhole(b, sigId.start, sigId.end, a);
    AtWhole(b, i, i + |a|, a);
    BitStringComplete(b, i + |a|, e, signature);
  }

  // ---------------------------------------------------------------- the main theorems

  // The signed data stand in the buffer after the first byte, and the components in the signed data
  // and in each other; the signature comes after them and ends the buffer.
  ghost predicate Placed(b: bytes, p: Parsed) {
    var (t, key) := (p.cert.tbs, p.cert.tbs.keyInfo);
    && p.signedData.start > 0 && Inside(p.signedData, Whole(b))
    && p.signedData.start < t.serial.start && t.serial.start <= t.serial.end == p.sigId.start
    && Inside(t.sigAlg.oid, p.sigId) && p.sigId.start < t.sigAlg.oid.start && p.sigId.end <= p.pubKeyId.start
    && Inside(key.alg.oid, p.pubKeyId) && p.pubKeyId.end <= key.key.start
    && key.key.start <= key.key.end <= p.signedData.end
    && p.signedData.end <= p.cert.signature.start <= p.cert.signature.end == |b|
    && forall x <- ExtensionsOf(t) :: KeyIdInside(x, p.signedData)
  }

  // How the parts of an accepted certificate fill it: with no gaps, the outer header, the
  // signed data, a copy of the inner algorithm identifier and the signature up to the last byte.
  ghost predicate Tiled(b: bytes, p: Parsed, c: Certificate<bytes>) {
    && Placed(b, p)
    && At(b, p.signedData.start, EncodeTbs(c.tbs)) && p.signedData.end == p.signedData.start + |EncodeTbs(c.tbs)|
    && At(b, p.sigId.start, EncodeAlgId(c.tbs.sigAlg)) && p.sigId.end == p.sigId.start + |EncodeAlgId(c.tbs.sigAlg)|
    && At(b, p.pubKeyId.start, EncodeAlgId(c.tbs.keyInfo.alg))
    && p.pubKeyId.end == p.pubKeyId.start + |EncodeAlgId(c.tbs.keyInfo.alg)|
    && At(b, p.signedData.end, EncodeAlgId(c.tbs.sigAlg) + BitString(c.signature))
    && |b| == p.signedData.end + |EncodeAlgId(c.tbs.sigAlg) + BitString(c.signature)|
  }

  // What is accepted is the encoding of the well-formed certificate the slices select.
  lemma ParseSound(b: buffer)
    requires X509(b).Ok?
    ensures var p := X509(b).value; var c := ReadCertificate(b, p.cert);
      && WellFormedTbs(c.tbs) && b == Encode(c)
      && Tiled(b, p, c)
  {
    hide HeaderAt, Tlv, At, TbsAt, TbsContent, SignatureAt, EncodeAlgId, BitString, WellFormedTbs, ReadTbs, Placed;
    var p := X509(b).value;
    var c := ReadCertificate(b, p.cert);
    Placement(b);
    HeaderSound(b, 0, |b|);
    var outer := HeaderAt(b, 0, |b|).value;
    HeaderSound(b, outer.start, outer.end);
    var inner := HeaderAt(b, outer.start, outer.end).value;
    TbsSound(b, inner.start, inner.end);
    AtWhole(b, inner.start, inner.end, TbsContent(c.tbs));
    var tail := EncodeAlgId(c.tbs.sigAlg) + BitString(c.signature);
    SliceWithin(b, p.sigId, EncodeAlgId(c.tbs.sigAlg));
    SignatureSound(b, inner.end, outer.end, p.sigId, EncodeAlgId(c.tbs.sigAlg));
    AtConcat(b, outer.start, EncodeTbs(c.tbs), tail);
    AtWhole(b, outer.start, outer.end, EncodeTbs(c.tbs) + tail);
    AtWhole(b, 0, |b|, Encode(c));
    assert b[0..|b|] == b;
  }

  lemma Placement(b: buffer)
    requires X509(b).Ok?
    ensures Placed(b, X509(b).value)
  {
    hide HeaderAt, TbsAt, KeyIdInside, BitStringAt;
    var p := X509(b).value;
    var inner := HeaderAt(b, HeaderAt(b, 0, |b|).value.start, |b|).value;
    TbsInside(b, inner.start, inner.end);
    forall x <- ExtensionsOf(p.cert.tbs) ensures KeyIdInside(x, p.signedData) {
      Widen(x, Slice(inner.start, inner.end), p.signedData);
    }
  }

  lemma Widen(x: Extension<Slice>, inner: Slice, outer: Slice)
    requires KeyIdInside(x, inner) && outer.start <= inner.start && inner.end <= outer.end
    ensures KeyIdInside(x, outer)
  {}

  lemma TbsInside(b: buffer, i: nat, e: nat)
    requires e <= |b| && TbsAt(b, i, e).Ok?
    ensures forall x <- ExtensionsOf(TbsAt(b, i, e).value.0) :: KeyIdInside(x, Slice(i, e))
  {
    hide HeaderAt, VersionAt, AlgIdAt, NamesAt, KeyInfoAt, OptionalSliceAt, ListAt, KeyIdInside;
    var t := TbsAt(b, i, e).value.0;
    if t.tail.extensions.Some? {
      var j := OptionalSliceAt(b, IMPLICIT_1, t.keyInfo.key.end, e).value.1;
      var k := OptionalSliceAt(b, IMPLICIT_2, j, e).value.1;
      var outer := HeaderAt(b, k, e).value;
      var h := HeaderAt(b, outer.start, outer.end).value;
      ListInside(b, h.start, h.end, []);
      forall x <- t.tail.extensions.value ensures KeyIdInside(x, Slice(i, e)) {
        Widen(x, Slice(h.start, h.end), Slice(i, e));
      }
    }
  }

  lemma SliceWithin(b: bytes, s: Slice, x: bytes)
    requires At(b, s.start, x) && s.end == s.start + |x|
    ensures s.end <= |b|
  {}

  // Every encoding of a well-formed certificate is accepted and read back.
  lemma ParseComplete(c: Certificate<bytes>)
    requires WellFormedTbs(c.tbs) && |Encode(c)| < TWO_TO_THE_63
    ensures var r := X509(Encode(c)); r.Ok? && ReadCertificate(Encode(c), r.value.cert) == c
  {
    hide HeaderAt, Tlv, At, TbsAt, TbsContent, SignatureAt, EncodeAlgId, BitString, WellFormedTbs, ReadTbs;
    var b: buffer := Encode(c);
    var tail := EncodeAlgId(c.tbs.sigAlg) + BitString(c.signature);
    AtSelf(b);
    HeaderComplete(b, 0, |b|, SEQUENCE, EncodeTbs(c.tbs) + tail);
    var start := |b| - |EncodeTbs(c.tbs) + tail|;
    AtConcat(b, start, EncodeTbs(c.tbs), tail);
    HeaderComplete(b, start, |b|, SEQUENCE, TbsContent(c.tbs));
    var end := start + |EncodeTbs(c.tbs)|;
    TbsComplete(b, end - |TbsContent(c.tbs)|, end, c.tbs);
    TbsSound(b, end - |TbsContent(c.tbs)|, end);
    var l := TbsAt(b, end - |TbsContent(c.tbs)|, end).value.0;
    SignatureComplete(b, end, |b|, Slice(l.serial.end, l.sigAlg.params.end), EncodeAlgId(c.tbs.sigAlg), c.signature);
  }

  lemma AtSelf(b: bytes)
    ensures At(b, 0, b)
  {
    assert b[0..|b|] == b;
  }

  // A buffer is accepted if and only if it encodes a well-formed certificate, which is unique and
  // is the one the slices select.
  lemma AcceptedIffEncoding(b: buffer, c: Certificate<bytes>)
    ensures (WellFormedTbs(c.tbs) && b == Encode(c)) <==>
      (X509(b).Ok? && ReadCertificate(b, X509(b).value.cert) == c)
  {
    hide X509, Encode, WellFormedTbs, ReadCertificate, Tiled;
    if X509(b).Ok? { ParseSound(b); }
    if WellFormedTbs(c.tbs) && b == Encode(c) { ParseComplete(c); }
  }

  lemma EncodingInjective(c: Certificate<bytes>, d: Certificate<bytes>)
    requires WellFormedTbs(c.tbs) && WellFormedTbs(d.tbs) && Encode(c) == Encode(d) && |Encode(c)| < TWO_TO_THE_63
    ensures c == d
  {
    hide X509, Encode, WellFormedTbs, ReadCertificate;
    ParseComplete(c);
    ParseComplete(d);
  }

  // ---------------------------------------------------------------- what the fields mean

  // Every pair of indices lies where its component stands: a key identifier is in the signed data,
  // or both its indices are the sentinel.
  ghost predicate Bounded(b: bytes, v: View, c: Certificate<bytes>) {
    && v.signedData.start > 0 && Inside(v.signedData, Whole(b))
    && Inside(v.certSerial, v.signedData)
    && Inside(v.sigId, v.signedData) && Inside(v.sigOid, v.sigId)
    && Inside(v.pubKeyId, v.signedData) && Inside(v.pubKeyOid, v.pubKeyId) && Inside(v.pubKey, v.signedData)
    && Inside(v.sig, Slice(v.signedData.end, |b|)) && v.sig.end == |b|
    && Recorded(b, v.found.skid, v.signedData, SubjectKeyIdentifier(ExtensionsOf(c.tbs)))
    && Recorded(b, v.found.akid, v.signedData, AuthorityKeyIdentifier(ExtensionsOf(c.tbs)))
  }

  // Every start and end index selects its component, and the summary is that of the extensions.
  ghost predicate Describes(b: bytes, v: View, c: Certificate<bytes>) {
    && Bounded(b, v, c)
    && Read(b, v.signedData) == EncodeTbs(c.tbs)
    && Read(b, v.sigId) == EncodeAlgId(c.tbs.sigAlg)
    && Read(b, v.sigOid) == c.tbs.sigAlg.oid
    && Read(b, v.sig) == c.signature
    && Read(b, v.pubKeyId) == EncodeAlgId(c.tbs.keyInfo.alg)
    && Read(b, v.pubKeyOid) == c.tbs.keyInfo.alg.oid
    && Read(b, v.pubKey) == c.tbs.keyInfo.key
    && Read(b, v.certSerial) == c.tbs.serial
    && v.notBefore == Time.Timestamp(c.tbs.notBefore)
    && v.notAfter == Time.Timestamp(c.tbs.notAfter)
    && v.found.usage == NoteAll(NO_USAGE, ExtensionsOf(c.tbs))
  }

  lemma FieldsDescribe(b: buffer)
    requires X509(b).Ok?
    ensures var p := X509(b).value; Describes(b, ViewOf(b, p), ReadCertificate(b, p.cert))
  {
    hide X509, EncodeTbs, EncodeAlgId, BitString, Recorded, SubjectKeyIdentifier, AuthorityKeyIdentifier,
      RecordAll, NoteAll, WellFormedList, KeyIdInside, Time.Timestamp, ReadKeyInfo, ReadAlgId;
    var p := X509(b).value;
    ParseSound(b);
    FoundInExtensions(b, p.cert.tbs, p.signedData);
    FieldsDescribeParts(b, p);
  }

  lemma FoundInExtensions(b: bytes, t: Tbs<Slice>, outer: Slice)
    requires WellFormedTbs(ReadTbs(b, t)) && outer.start > 0 && forall x <- ExtensionsOf(t) :: KeyIdInside(x, outer)
    ensures var r := RecordAll(b, NOTHING_FOUND, ExtensionsOf(t));
      var xs := ExtensionsOf(ReadTbs(b, t));
      && Recorded(b, r.skid, outer, SubjectKeyIdentifier(xs))
      && Recorded(b, r.akid, outer, AuthorityKeyIdentifier(xs))
      && r.usage == NoteAll(NO_USAGE, xs)
  {
    hide Recorded, SubjectKeyIdentifier, AuthorityKeyIdentifier, RecordAll, NoteAll, KeyIdInside;
    var xs := ExtensionsOf(t);
    assert ReadList(b, xs) == ExtensionsOf(ReadTbs(b, t));
    IdentifiersFound(b, xs, outer);
    RecordedUsage(b, NOTHING_FOUND, xs);
  }

  lemma FieldsDescribeParts(b: buffer, p: Parsed)
    requires Tiled(b, p, ReadCertificate(b, p.cert))
    ensures var c := ReadCertificate(b, p.cert); var v := ViewOf(b, p);
      && Read(b, v.signedData) == EncodeTbs(c.tbs)
      && Read(b, v.sigId) == EncodeAlgId(c.tbs.sigAlg)
      && Read(b, v.pubKeyId) == EncodeAlgId(c.tbs.keyInfo.alg)
      && Read(b, v.pubKeyOid) == c.tbs.keyInfo.alg.oid
      && Read(b, v.sigOid) == c.tbs.sigAlg.oid
      && Read(b, v.pubKey) == c.tbs.keyInfo.key
  {
    hide EncodeTbs, EncodeAlgId, BitString, RecordAll;
  }

  // The header promises that the indices of an empty serial number are the sentinel. They never
  // are: the promise is kept exactly by serial numbers that are not empty.
  lemma SerialNeverMarkedMissing(b: buffer)
    requires X509(b).Ok?
    ensures var (p, s) := (X509(b).value, ViewOf(b, X509(b).value).certSerial);
      && s.start != 0 && s.end != 0
      && ((ReadCertificate(b, p.cert).tbs.serial == [] ==> s == Slice(0, 0))
          <==> ReadCertificate(b, p.cert).tbs.serial != [])
  {
    hide X509, RecordAll, KeyIdInside, ReadTail, ReadKeyInfo, ReadAlgId;
    Placement(b);
  }

  // An empty serial number is accepted wherever another one is.
  lemma EmptySerialAccepted(c: Certificate<bytes>)
    requires WellFormedTbs(c.tbs)
    ensures var d := c.(tbs := c.tbs.(serial := []));
      |Encode(d)| < TWO_TO_THE_63 ==>
        && X509(Encode(d)).Ok?
        && ReadCertificate(Encode(d), X509(Encode(d)).value.cert).tbs.serial == []
  {
    hide X509, Encode, ReadCertificate;
    var d := c.(tbs := c.tbs.(serial := []));
    if |Encode(d)| < TWO_TO_THE_63 { ParseComplete(d); }
  }

  // ---------------------------------------------------------------- the order of extensions

  function WithExtensions(c: Certificate<bytes>, xs: seq<Extension<bytes>>): Certificate<bytes> {
    c.(tbs := c.tbs.(tail := c.tbs.tail.(extensions := Some(xs))))
  }

  // Permuting the extensions of an accepted certificate gives an accepted certificate, with the
  // same usage flags, path length and CA flag and the same identifiers.
  lemma PermutedExtensions(b: buffer, c: Certificate<bytes>, ys: seq<Extension<bytes>>)
    requires WellFormedTbs(c.tbs) && b == Encode(c) && c.tbs.tail.extensions.Some?
    requires multiset(c.tbs.tail.extensions.value) == multiset(ys)
    ensures var d := Encode(WithExtensions(c, ys));
      && |d| == |b| && X509(d).Ok? && X509(b).Ok?
      && var (v, w) := (ViewOf(b, X509(b).value).found, ViewOf(d, X509(d).value).found);
      && v.usage == w.usage
      && KeyIdentifier(b, v.skid) == KeyIdentifier(d, w.skid)
      && KeyIdentifier(b, v.akid) == KeyIdentifier(d, w.akid)
  {
    hide X509, Encode, ViewOf, NoteAll, Find, ReadCertificate, EncodeTbs, EncodeAlgId;
    var xs := c.tbs.tail.extensions.value;
    var e := WithExtensions(c, ys);
    PermutedWellFormed(xs, ys);
    PermutedLength(c, ys);
    ParseComplete(c);
    ParseComplete(e);
    FieldsDescribe(b);
    FieldsDescribe(Encode(e));
    OrderIrrelevant(xs, ys);
  }

  lemma {:induction false} PermutedListLength(xs: seq<Extension<bytes>>, ys: seq<Extension<bytes>>)
    requires multiset(xs) == multiset(ys)
    ensures |EncodeList(xs)| == |EncodeList(ys)|
    decreases |xs|
  {
    hide EncodeExtension;
    if xs == [] {
      assert |multiset(ys)| == 0;
    } else {
      var x := xs[0];
      assert xs == [x] + xs[1..];
      assert x in multiset(ys);
      var k :| 0 <= k < |ys| && ys[k] == x;
      var rest := ys[..k] + ys[k + 1..];
      assert ys == ys[..k] + ([x] + ys[k + 1..]);
      assert multiset(rest) == multiset(ys) - multiset{x};
      PermutedListLength(xs[1..], rest);
      EncodeListConcat(ys[..k], ys[k + 1..]);
      EncodeListConcat(ys[..k], [x] + ys[k + 1..]);
      assert ([x] + ys[k + 1..])[1..] == ys[k + 1..];
    }
  }

  lemma {:induction false} EncodeListConcat(xs: seq<Extension<bytes>>, ys: seq<Extension<bytes>>)
    ensures |EncodeList(xs + ys)| == |EncodeList(xs)| + |EncodeList(ys)|
    decreases |xs|
  {
    hide EncodeExtension;
    if xs == [] {
      assert xs + ys == ys;
    } else {
      assert (xs + ys)[1..] == xs[1..] + ys;
      EncodeListConcat(xs[1..], ys);
    }
  }

  lemma TlvLength(identifier: byte, s: bytes, t: bytes)
    requires |s| == |t|
    ensures |Tlv(identifier, s)| == |Tlv(identifier, t)|
  {}

  lemma PermutedLength(c: Certificate<bytes>, ys: seq<Extension<bytes>>)
    requires c.tbs.tail.extensions.Some? && multiset(c.tbs.tail.extensions.value) == multiset(ys)
    ensures |Encode(c)| == |Encode(WithExtensions(c, ys))|
  {
    hide Tlv, EncodeList, EncodeAlgId, EncodeVersion, EncodeValidity, EncodeKeyInfo, Name.Encode, BitString;
    var (xs, d) := (c.tbs.tail.extensions.value, WithExtensions(c, ys));
    PermutedListLength(xs, ys);
    TlvLength(SEQUENCE, EncodeList(xs), EncodeList(ys));
    TlvLength(EXPLICIT_3, Tlv(SEQUENCE, EncodeList(xs)), Tlv(SEQUENCE, EncodeList(ys)));
    TlvLength(SEQUENCE, TbsContent(c.tbs), TbsContent(d.tbs));
    var tail := EncodeAlgId(c.tbs.sigAlg) + BitString(c.signature);
    TlvLength(SEQUENCE, EncodeTbs(c.tbs) + tail, EncodeTbs(d.tbs) + tail);
  }

  // Well-formedness of a list, without the order.
  lemma {:induction false} ListConditions(xs: seq<Extension<bytes>>, seen: seq<bytes>)
    ensures WellFormedList(xs, seen) <==>
      && (xs == [] || |seen| + |xs| <= 64)
      && (forall x <- xs :: WellFormed(x) && OidOf(x) !in seen)
      && (forall i, j | 0 <= i < j < |xs| :: OidOf(xs[i]) != OidOf(xs[j]))
    decreases |xs|
  {
    hide WellFormed, OidOf;
    if xs != [] {
      var seen' := seen + [OidOf(xs[0])];
      ListConditions(xs[1..], seen');
      assert xs == [xs[0]] + xs[1..];
      forall j | 1 <= j < |xs| ensures xs[j] in xs[1..] && xs[j] == xs[1..][j - 1] {}
      if WellFormedList(xs, seen) {
        forall i, j | 0 <= i < j < |xs| ensures OidOf(xs[i]) != OidOf(xs[j]) {
          if i > 0 { assert OidOf(xs[1..][i - 1]) != OidOf(xs[1..][j - 1]); }
        }
      }
    }
  }

  lemma PermutedWellFormed(xs: seq<Extension<bytes>>, ys: seq<Extension<bytes>>)
    requires WellFormedList(xs, []) && multiset(xs) == multiset(ys)
    ensures WellFormedList(ys, [])
  {
    hide WellFormed, OidOf, WellFormedList;
    ListConditions(xs, []);
    ListConditions(ys, []);
    assert |xs| == |multiset(xs)| == |multiset(ys)| == |ys|;
    forall y <- ys ensures y in xs { assert y in multiset(xs); }
    forall i, j | 0 <= i < j < |ys| ensures OidOf(ys[i]) != OidOf(ys[j]) {
      DistinctAfterPermuting(xs, ys, i, j);
    }
  }

  lemma DistinctAfterPermuting(xs: seq<Extension<bytes>>, ys: seq<Extension<bytes>>, i: nat, j: nat)
    requires WellFormedList(xs, []) && multiset(xs) == multiset(ys) && i < j < |ys|
    ensures OidOf(ys[i]) != OidOf(ys[j])
  {
    hide WellFormed, OidOf;
    if OidOf(ys[i]) == OidOf(ys[j]) {
      assert ys[i] in multiset(xs) && ys[j] in multiset(xs);
      UniqueOids(xs, [], ys[i]);
      UniqueOids(xs, [], ys[j]);
      assert ys == ys[..i] + [ys[i]] + ys[i + 1..j] + [ys[j]] + ys[j + 1..];
      assert multiset(ys)[ys[i]] >= 2;
      OnceOnly(xs, [], ys[i]);
    }
  }

  lemma {:induction false} OnceOnly(xs: seq<Extension<bytes>>, seen: seq<bytes>, x: Extension<bytes>)
    requires WellFormedList(xs, seen)
    ensures multiset(xs)[x] <= 1
    decreases |xs|
  {
    hide WellFormed, OidOf;
    if xs != [] {
      assert xs == [xs[0]] + xs[1..];
      var seen' := seen + [OidOf(xs[0])];
      OnceOnly(xs[1..], seen', x);
      if x == xs[0] && x in xs[1..] { UniqueOids(xs[1..], seen', x); }
    }
  }
}
