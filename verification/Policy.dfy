/**
 * Which certificates are trusted, and for which key: the checks of src/crypto.c on a parsed
 * certificate. Building a key and checking a signature are done by a library the model knows
 * nothing about.
 */
module Policy {
  import opened Bytes
  import opened Bits
  import opened Der
  import opened Extensions
  import opened Usage
  import opened Fields
  import opened Certificate
  import opened CertificateTheorems
  import Name
  import Time

  datatype Digest = Sha256 | Sha384 | Sha512

  // What the library builds a public key from.
  datatype Material =
    | Ed25519(raw: bytes)
    | Ed448(raw: bytes)
    | Rsa(digest: Digest, modulus: bytes, exponent: bytes)

  datatype PubKey = PubKey(expiry: int, expSigSize: nat, algIdx: nat, material: Material)

  // The library: whether it accepts key material, and whether a signature (the last argument) is
  // that of some data under a key.
  datatype Crypto = Crypto(loads: Material -> bool, verifies: (Material, bytes, bytes) -> bool)

  datatype ExtractCode =
    | CertOk
    | Expired
    | NotBefore
    | InvalidUsage
    | InvalidSelfSign
    | InvalidSig
    | InvalidPubKey
    | InvalidPubKeyParams
    | UnsupportedAlg

  type ExtractError = c: ExtractCode | c != CertOk witness Expired

  datatype Extraction<+T> = Accepted(value: T) | Refused(code: ExtractError) {
    predicate IsFailure() { Refused? }

    function PropagateFailure<U>(): Extraction<U>
      requires Refused?
    {
      Refused(code)
    }

    function Extract(): T
      requires Accepted?
    {
      value
    }
  }

  const ED25519_OID: bytes := [0x2b, 0x65, 0x70]
  const ED448_OID: bytes := [0x2b, 0x65, 0x71]
  const RSA_OID: bytes := [0x2a, 0x86, 0x48, 0x86, 0xf7, 0x0d, 0x01, 0x01, 0x01]
  const RSA_SHA256_OID: bytes := [0x2a, 0x86, 0x48, 0x86, 0xf7, 0x0d, 0x01, 0x01, 0x0b]
  const RSA_SHA384_OID: bytes := [0x2a, 0x86, 0x48, 0x86, 0xf7, 0x0d, 0x01, 0x01, 0x0c]
  const RSA_SHA512_OID: bytes := [0x2a, 0x86, 0x48, 0x86, 0xf7, 0x0d, 0x01, 0x01, 0x0d]

  // In the order of the table of supported algorithms.
  const SUPPORTED_ALGS: seq<bytes> := [ED25519_OID, ED448_OID, RSA_OID]

  // digitalSignature, keyCertSign and codeSigning
  const USAGE_MASK: nat := Or(Or(0x80, 0x04), 0x8_0000)

  // ---------------------------------------------------------------- the policy

  function DigestOid(d: Digest): bytes {
    match d
    case Sha256 => RSA_SHA256_OID
    case Sha384 => RSA_SHA384_OID
    case Sha512 => RSA_SHA512_OID
  }

  function RsaKey(modulus: bytes, exponent: bytes): bytes {
    Tlv(SEQUENCE, Tlv(INTEGER, modulus) + Tlv(INTEGER, exponent))
  }

  // The size of a signature; for RSA that of the modulus, whose first octet is taken for the sign.
  function SignatureSize(m: Material): int {
    match m
    case Ed25519(_) => 64
    case Ed448(_) => 114
    case Rsa(_, modulus, _) => |modulus| - 1
  }

  // The certificate's key is m. Edwards keys take no parameters, in the certificate's signature
  // either. RSA parameters may be NULL or absent, the modulus must be written with 385 or 513
  // octets, and what follows the key inside its BIT STRING is not looked at.
  ghost predicate HasKey(t: Tbs<bytes>, m: Material) {
    var (a, key) := (t.keyInfo.alg, t.keyInfo.key);
    match m
    case Ed25519(raw) => a == AlgId(ED25519_OID, []) && t.sigAlg == a && raw == key
    case Ed448(raw) => a == AlgId(ED448_OID, []) && t.sigAlg == a && raw == key
    case Rsa(digest, modulus, exponent) =>
      && a.oid == RSA_OID && (a.params == [] || a.params == [5, 0])
      && t.sigAlg.oid == DigestOid(digest)
      && RsaKey(modulus, exponent) <= key
      && (|modulus| == 385 || |modulus| == 513)
  }

  // The extensions make the key a code-signing authority: a CA:TRUE basicConstraints (which is
  // always critical), a KeyUsage and an ExtKeyUsage with the three flags, and key identifiers that
  // are equal or both missing.
  ghost predicate AllowsCodeSigning(xs: seq<Extension<bytes>>) {
    var (basic, usage) := (Find(xs, BASIC_CONSTRAINT_OID), Find(xs, KEY_USAGE_OID));
    var extended := Find(xs, EXT_KEY_USAGE_OID);
    && basic.Some? && basic.value.BasicConstraints? && basic.value.ca
    && usage.Some? && usage.value.KeyUsage?
    && Bit(KeyUsageFlags(usage.value.bits), 7) && Bit(KeyUsageFlags(usage.value.bits), 2)
    && extended.Some? && extended.value.ExtKeyUsage?
    && (exists p <- extended.value.purposes :: PurposeBit(p) == Some(19))
    && SubjectKeyIdentifier(xs) == AuthorityKeyIdentifier(xs)
  }

  // The certificate is to be trusted now, for the key m.
  ghost predicate Trustworthy(c: Certificate<bytes>, now: int, crypto: Crypto, m: Material) {
    && Time.Timestamp(c.tbs.notBefore) <= now <= Time.Timestamp(c.tbs.notAfter)
    && AllowsCodeSigning(ExtensionsOf(c.tbs))
    && HasKey(c.tbs, m) && crypto.loads(m)
    && |c.signature| == SignatureSize(m) && crypto.verifies(m, EncodeTbs(c.tbs), c.signature)
  }

  function AlgIndex(m: Material): nat {
    match m
    case Ed25519(_) => 0
    case Ed448(_) => 1
    case Rsa(_, _, _) => 2
  }

  // ---------------------------------------------------------------- what the code does

  // The positions the extraction relies on: every slice it looks at lies in the buffer.
  ghost predicate InBounds(b: bytes, v: View) {
    && Inside(v.signedData, Whole(b)) && Inside(v.sig, Whole(b))
    && Inside(v.sigId, Whole(b)) && Inside(v.sigOid, Whole(b))
    && Inside(v.pubKeyId, Whole(b)) && Inside(v.pubKeyOid, v.pubKeyId) && Inside(v.pubKey, Whole(b))
    && (v.found.skid.start != IDX_NONE ==> Inside(v.found.skid, Whole(b)))
    && (v.found.akid.start != IDX_NONE ==> Inside(v.found.akid, Whole(b)))
  }

  predicate CertEq(b: bytes, s: Slice, t: Slice)
    requires Inside(s, Whole(b)) && Inside(t, Whole(b))
  {
    Cut(b, s) == Cut(b, t)
  }

  function EdAt(b: bytes, v: View, crypto: Crypto, m: Material): Extraction<Material>
    requires InBounds(b, v)
  {
    if v.pubKeyOid.end != v.pubKeyId.end then Refused(InvalidPubKeyParams)
    else if !CertEq(b, v.sigId, v.pubKeyId) then Refused(InvalidSig)
    else if !crypto.loads(m) then Refused(InvalidPubKey)
    else Accepted(m)
  }

  // Modulus and exponent.
  function RsaKeyAt(b: buffer, i: nat, e: nat): (r: Result<(Slice, Slice)>)
    requires e <= |b|
    ensures r.Ok? ==> i + 2 <= r.value.0.start <= r.value.0.end <= r.value.1.start <= r.value.1.end <= e
  {
    var h :- ElementAt(b, SEQUENCE, i, e);
    var n :- ElementAt(b, INTEGER, h.start, h.end);
    var x :- ElementAt(b, INTEGER, n.end, h.end);
    if x.end != h.end then Err(TrailingData) else Ok((Slice(n.start, n.end), Slice(x.start, x.end)))
  }

  function DigestOf(oid: bytes): Option<Digest> {
    if oid == RSA_SHA256_OID then Some(Sha256)
    else if oid == RSA_SHA384_OID then Some(Sha384)
    else if oid == RSA_SHA512_OID then Some(Sha512)
    else None
  }

  function RsaAt(b: buffer, v: View, crypto: Crypto): Extraction<Material>
    requires InBounds(b, v)
  {
    var params := Cut(b, Slice(v.pubKeyOid.end, v.pubKeyId.end));
    if params != [] && params != [5, 0] then Refused(InvalidPubKeyParams)
    else
      var digest := DigestOf(Cut(b, v.sigOid));
      if digest.None? then Refused(UnsupportedAlg)
      else match RsaKeyAt(b, v.pubKey.start, v.pubKey.end)
        case Err(_) => Refused(InvalidPubKey)
        case Ok((n, x)) =>
          var m := Rsa(digest.value, Cut(b, n), Cut(b, x));
          if |m.modulus| != 385 && |m.modulus| != 513 then Refused(UnsupportedAlg)
          else if !crypto.loads(m) then Refused(InvalidPubKey)
          else Accepted(m)
  }

  function KeyAt(b: buffer, v: View, crypto: Crypto): Extraction<Material>
    requires InBounds(b, v)
  {
    var oid := Cut(b, v.pubKeyOid);
    if oid == ED25519_OID then EdAt(b, v, crypto, Ed25519(Cut(b, v.pubKey)))
    else if oid == ED448_OID then EdAt(b, v, crypto, Ed448(Cut(b, v.pubKey)))
    else if oid == RSA_OID then RsaAt(b, v, crypto)
    else Refused(UnsupportedAlg)
  }

  predicate Verifies(m: Material, crypto: Crypto, data: bytes, sig: bytes) {
    |sig| == SignatureSize(m) && crypto.verifies(m, data, sig)
  }

  function ExtractAt(b: buffer, v: View, now: int, crypto: Crypto): Extraction<Material>
    requires InBounds(b, v)
  {
    var (u, skid, akid) := (v.found.usage, v.found.skid, v.found.akid);
    if v.notAfter < now then Refused(Expired)
    else if v.notBefore > now then Refused(NotBefore)
    else if !u.keyCertSign then Refused(InvalidUsage)
    else if (skid.start != IDX_NONE) != (akid.start != IDX_NONE) then Refused(InvalidSelfSign)
    else if skid.start != IDX_NONE && !CertEq(b, skid, akid) then Refused(InvalidSelfSign)
    else if !u.hasKeyUsage || !u.hasExtKeyUsage || And(u.flags, USAGE_MASK) != USAGE_MASK then Refused(InvalidUsage)
    else
      var m :- KeyAt(b, v, crypto);
      if Verifies(m, crypto, Cut(b, v.signedData), Cut(b, v.sig)) then Accepted(m) else Refused(InvalidSig)
  }

  // Parsing, then extracting: the key a certificate file is trusted for.
  function TrustedKey(b: buffer, now: int, crypto: Crypto): Option<PubKey> {
    match X509(b)
    case Err(_) => None
    case Ok(p) =>
      var v := ViewOf(b, p);
      ViewInBounds(b, p);
      match ExtractAt(b, v, now, crypto)
      case Refused(_) => None
      case Accepted(m) => KeySize(b, v, now, crypto); Some(PubKey(v.notAfter, SignatureSize(m), AlgIndex(m), m))
  }

  // The parser leaves only positions inside the buffer.
  lemma ViewInBounds(b: buffer, p: Parsed)
    requires X509(b) == Ok(p)
    ensures InBounds(b, ViewOf(b, p))
    ensures var v := ViewOf(b, p);
      ReadCertificate(b, p.cert).tbs.keyInfo.alg.params == Read(b, Slice(v.pubKeyOid.end, v.pubKeyId.end))
  {
    hide X509, EncodeTbs, EncodeAlgId, SubjectKeyIdentifier, AuthorityKeyIdentifier, NoteAll, Time.Timestamp;
    FieldsDescribe(b);
    ParametersBehindOid(b, p);
  }

  lemma ParametersBehindOid(b: buffer, p: Parsed)
    requires X509(b) == Ok(p)
    ensures var v := ViewOf(b, p);
      ReadCertificate(b, p.cert).tbs.keyInfo.alg.params == Read(b, Slice(v.pubKeyOid.end, v.pubKeyId.end))
  {
    hide HeaderAt, AlgIdAt, VersionAt, Name.NameAt, ValidityAt, KeyInfoAt, TailAt, SignatureAt, RecordAll,
      Time.Timestamp;
  }

  lemma KeySize(b: buffer, v: View, now: int, crypto: Crypto)
    requires InBounds(b, v) && ExtractAt(b, v, now, crypto).Accepted?
    ensures SignatureSize(ExtractAt(b, v, now, crypto).value) >= 64
  {
    hide RsaKeyAt, Read, And;
  }

  // ---------------------------------------------------------------- the code implements the policy

  lemma MaskMeansThree(flags: nat)
    ensures And(flags, USAGE_MASK) == USAGE_MASK <==> Bit(flags, 7) && Bit(flags, 2) && Bit(flags, 19)
  {
    hide And, Or, Bit, Pow2;
    forall k: nat
      ensures Bit(USAGE_MASK, k) <==> k == 7 || k == 2 || k == 19
      ensures Bit(And(flags, USAGE_MASK), k) <==> Bit(flags, k) && Bit(USAGE_MASK, k)
    {
      BitAnd(flags, USAGE_MASK, k);
      MaskBits(k);
    }
    if Bit(flags, 7) && Bit(flags, 2) && Bit(flags, 19) { SameBits(And(flags, USAGE_MASK), USAGE_MASK); }
  }

  lemma MaskBits(k: nat)
    ensures Bit(USAGE_MASK, k) <==> k == 7 || k == 2 || k == 19
  {
    hide Bit, Or;
    Pow2Values();
    assert Pow2(2) == 4;
    BitOr(Or(0x80, 0x04), 0x8_0000, k);
    BitOr(0x80, 0x04, k);
    BitOfPow2(7, k);
    BitOfPow2(2, k);
    BitOfPow2(19, k);
  }

  // The three flags come from where they should: two from the KeyUsage, one from the ExtKeyUsage.
  lemma FlagsByExtension(usage: Option<Extension<bytes>>, extended: Option<Extension<bytes>>)
    requires usage.Some? ==> usage.value.KeyUsage? && CanonicalBits(usage.value.bits)
    requires extended.Some? ==> extended.value.ExtKeyUsage?
    ensures var f := Or32(0, Or32(FlagsOf(usage), FlagsOf(extended)));
      && (Bit(f, 7) <==> usage.Some? && Bit(KeyUsageFlags(usage.value.bits), 7))
      && (Bit(f, 2) <==> usage.Some? && Bit(KeyUsageFlags(usage.value.bits), 2))
      && (Bit(f, 19) <==> extended.Some? && exists p <- extended.value.purposes :: PurposeBit(p) == Some(19))
  {
    hide Or, Bit, CanonicalBits, KeyUsageFlags, PurposesFlags, PurposeBit;
    forall k | k in {2, 7, 19}
      ensures var f := Or32(0, Or32(FlagsOf(usage), FlagsOf(extended)));
        Bit(f, k) <==> Bit(FlagsOf(usage), k) || Bit(FlagsOf(extended), k)
    {
      OrZero(Or(FlagsOf(usage), FlagsOf(extended)));
      BitOr(FlagsOf(usage), FlagsOf(extended), k);
    }
    BitZero(2);
    BitZero(7);
    BitZero(19);
    if extended.Some? {
      BitOfPurposesFlags(extended.value.purposes, 2);
      BitOfPurposesFlags(extended.value.purposes, 7);
      BitOfPurposesFlags(extended.value.purposes, 19);
    }
    if usage.Some? { NoFlag19(usage.value.bits); }
  }

  lemma NoFlag19(bits: bytes)
    requires CanonicalBits(bits)
    ensures !Bit(KeyUsageFlags(bits), 19)
  {
    hide Bit, LowBitsClear, KeyUsageFlags;
    NoHighFlags(bits);
    Pow2Values();
    BitBound(KeyUsageFlags(bits), 9, 19);
  }

  // The checks on the recorded usage and identifiers are the policy on the extensions.
  lemma UsageChecks(b: bytes, f: Found, outer: Slice, xs: seq<Extension<bytes>>)
    requires WellFormedList(xs, []) && Inside(outer, Whole(b))
    requires f.usage == NoteAll(NO_USAGE, xs)
    requires Recorded(b, f.skid, outer, SubjectKeyIdentifier(xs))
    requires Recorded(b, f.akid, outer, AuthorityKeyIdentifier(xs))
    ensures AllowsCodeSigning(xs) <==>
      && f.usage.keyCertSign
      && (f.skid.start != IDX_NONE) == (f.akid.start != IDX_NONE)
      && (f.skid.start != IDX_NONE ==> CertEq(b, f.skid, f.akid))
      && f.usage.hasKeyUsage && f.usage.hasExtKeyUsage && And(f.usage.flags, USAGE_MASK) == USAGE_MASK
  {
    hide Or, And, Bit, CanonicalBits, KeyUsageFlags, PurposesFlags, PurposeBit, NoteAll, Find, WellFormedList,
      SubjectKeyIdentifier, AuthorityKeyIdentifier, Accumulate;
    NoteAllIsSummary(NO_USAGE, xs, []);
    var (basic, usage) := (Find(xs, BASIC_CONSTRAINT_OID), Find(xs, KEY_USAGE_OID));
    var extended := Find(xs, EXT_KEY_USAGE_OID);
    FoundKinds(xs, basic);
    FoundKinds(xs, usage);
    FoundKinds(xs, extended);
    FlagsByExtension(usage, extended);
    MaskMeansThree(f.usage.flags);
  }

  lemma FoundKinds(xs: seq<Extension<bytes>>, x: Option<Extension<bytes>>)
    requires WellFormedList(xs, []) && (x.Some? ==> x.value in xs)
    ensures x.Some? ==> WellFormed(x.value)
    ensures x.Some? && OidOf(x.value) == BASIC_CONSTRAINT_OID ==> x.value.BasicConstraints?
    ensures x.Some? && OidOf(x.value) == KEY_USAGE_OID ==> x.value.KeyUsage?
    ensures x.Some? && OidOf(x.value) == EXT_KEY_USAGE_OID ==> x.value.ExtKeyUsage?
  {
    hide WellFormed, OidOf;
    if x.Some? {
      UniqueOids(xs, [], x.value);
      OidKind(x.value);
    }
  }

  lemma RsaKeySound(b: buffer, i: nat, e: nat)
    requires i <= e <= |b| && RsaKeyAt(b, i, e).Ok?
    ensures var (n, x) := RsaKeyAt(b, i, e).value; RsaKey(Read(b, n), Read(b, x)) <= b[i..e]
  {
    hide HeaderAt, Tlv, At;
    HeaderSound(b, i, e);
    var h := HeaderAt(b, i, e).value;
    HeaderSound(b, h.start, h.end);
    var (n, x) := RsaKeyAt(b, i, e).value;
    HeaderSound(b, n.end, h.end);
    AtConcat(b, h.start, Tlv(INTEGER, Read(b, n)), Tlv(INTEGER, Read(b, x)));
    AtWhole(b, h.start, h.end, Tlv(INTEGER, Read(b, n)) + Tlv(INTEGER, Read(b, x)));
    AtWhole(b, i, h.end, RsaKey(Read(b, n), Read(b, x)));
    assert b[i..e][..h.end - i] == b[i..h.end];
  }

  lemma RsaKeyComplete(b: buffer, i: nat, e: nat, modulus: bytes, exponent: bytes)
    requires i <= e <= |b| && RsaKey(modulus, exponent) <= b[i..e]
    ensures var r := RsaKeyAt(b, i, e); r.Ok? && Read(b, r.value.0) == modulus && Read(b, r.value.1) == exponent
  {
    hide HeaderAt, Tlv;
    var content := Tlv(INTEGER, modulus) + Tlv(INTEGER, exponent);
    var end := i + |RsaKey(modulus, exponent)|;
    assert b[i..end] == b[i..e][..end - i];
    HeaderComplete(b, i, e, SEQUENCE, content);
    var start := end - |content|;
    AtConcat(b, start, Tlv(INTEGER, modulus), Tlv(INTEGER, exponent));
    HeaderComplete(b, start, end, INTEGER, modulus);
    HeaderComplete(b, start + |Tlv(INTEGER, modulus)|, end, INTEGER, exponent);
  }

  // Algorithm identifiers are equal when their encodings are.
  lemma AlgIdInjective(b: buffer, i: nat, a: AlgId<bytes>, a': AlgId<bytes>)
    requires At(b, i, EncodeAlgId(a)) && EncodeAlgId(a) == EncodeAlgId(a') && i + |EncodeAlgId(a)| <= |b|
    ensures a == a'
  {
    hide AlgIdAt, EncodeAlgId, At, ReadAlgId;
    AlgIdComplete(b, i, |b|, a);
    AlgIdComplete(b, i, |b|, a');
  }

  lemma EdImplements(b: buffer, v: View, crypto: Crypto, c: Certificate<bytes>, m: Material)
    requires InBounds(b, v) && Describes(b, v, c)
    requires c.tbs.keyInfo.alg.params == Read(b, Slice(v.pubKeyOid.end, v.pubKeyId.end))
    requires At(b, v.sigId.start, EncodeAlgId(c.tbs.sigAlg)) && v.sigId.start + |EncodeAlgId(c.tbs.sigAlg)| <= |b|
    ensures EdAt(b, v, crypto, m) == Accepted(m) <==>
      c.tbs.keyInfo.alg.params == [] && c.tbs.sigAlg == c.tbs.keyInfo.alg && crypto.loads(m)
  {
    hide At, EncodeAlgId, EncodeTbs, Recorded, SubjectKeyIdentifier, AuthorityKeyIdentifier, NoteAll, Time.Timestamp;
    if EncodeAlgId(c.tbs.sigAlg) == EncodeAlgId(c.tbs.keyInfo.alg) {
      AlgIdInjective(b, v.sigId.start, c.tbs.sigAlg, c.tbs.keyInfo.alg);
    }
  }

  lemma RsaImplements(b: buffer, v: View, crypto: Crypto, c: Certificate<bytes>, m: Material)
    requires InBounds(b, v) && Describes(b, v, c)
    requires c.tbs.keyInfo.alg.params == Read(b, Slice(v.pubKeyOid.end, v.pubKeyId.end))
    requires c.tbs.keyInfo.alg.oid == RSA_OID
    ensures RsaAt(b, v, crypto) == Accepted(m) <==> HasKey(c.tbs, m) && crypto.loads(m)
  {
    hide RsaKeyAt, RsaKey, EncodeAlgId, EncodeTbs, Recorded, SubjectKeyIdentifier, AuthorityKeyIdentifier, NoteAll,
      Time.Timestamp;
    assert RSA_OID != ED25519_OID && RSA_OID != ED448_OID;
    var (i, e) := (v.pubKey.start, v.pubKey.end);
    if RsaKeyAt(b, i, e).Ok? { RsaKeySound(b, i, e); }
    if m.Rsa? && RsaKey(m.modulus, m.exponent) <= c.tbs.keyInfo.key { RsaKeyComplete(b, i, e, m.modulus, m.exponent); }
    if m.Rsa? { DigestByOid(m.digest); }
  }

  lemma DigestByOid(d: Digest)
    ensures forall oid: bytes :: DigestOf(oid) == Some(d) <==> oid == DigestOid(d)
  {
    assert RSA_SHA256_OID[8] == 0x0b && RSA_SHA384_OID[8] == 0x0c && RSA_SHA512_OID[8] == 0x0d;
  }

  lemma KeyImplements(b: buffer, v: View, crypto: Crypto, c: Certificate<bytes>, m: Material)
    requires InBounds(b, v) && Describes(b, v, c)
    requires c.tbs.keyInfo.alg.params == Read(b, Slice(v.pubKeyOid.end, v.pubKeyId.end))
    requires At(b, v.sigId.start, EncodeAlgId(c.tbs.sigAlg)) && v.sigId.start + |EncodeAlgId(c.tbs.sigAlg)| <= |b|
    ensures KeyAt(b, v, crypto) == Accepted(m) <==> HasKey(c.tbs, m) && crypto.loads(m)
  {
    hide At, EdAt, RsaAt, RsaKey, EncodeAlgId, EncodeTbs, Recorded, SubjectKeyIdentifier, AuthorityKeyIdentifier,
      NoteAll, Time.Timestamp, DigestOid;
    assert ED25519_OID[2] != ED448_OID[2] && |RSA_OID| == 9;
    var key := c.tbs.keyInfo.key;
    EdImplements(b, v, crypto, c, Ed25519(key));
    EdImplements(b, v, crypto, c, Ed448(key));
    EdOwnMaterial(b, v, crypto, Ed25519(key));
    EdOwnMaterial(b, v, crypto, Ed448(key));
    if c.tbs.keyInfo.alg.oid == RSA_OID { RsaImplements(b, v, crypto, c, m); }
  }

  lemma EdOwnMaterial(b: bytes, v: View, crypto: Crypto, m: Material)
    requires InBounds(b, v)
    ensures EdAt(b, v, crypto, m).Accepted? ==> EdAt(b, v, crypto, m) == Accepted(m)
  {}

  lemma ExtractImplements(b: buffer, p: Parsed, now: int, crypto: Crypto, m: Material)
    requires X509(b) == Ok(p) && InBounds(b, ViewOf(b, p))
    ensures ExtractAt(b, ViewOf(b, p), now, crypto) == Accepted(m) <==>
      Trustworthy(ReadCertificate(b, p.cert), now, crypto, m)
  {
    hide X509, ViewOf, ReadCertificate, EncodeTbs, EncodeAlgId, Recorded, SubjectKeyIdentifier,
      AuthorityKeyIdentifier, NoteAll, Time.Timestamp, KeyAt, HasKey, AllowsCodeSigning, And, WellFormedList, Read;
    var (v, c) := (ViewOf(b, p), ReadCertificate(b, p.cert));
    ViewInBounds(b, p);
    FieldsDescribe(b);
    ParseSound(b);
    ListOfTbs(c.tbs);
    UsageChecks(b, v.found, v.signedData, ExtensionsOf(c.tbs));
    SignatureIdStands(b, p);
    KeyImplements(b, v, crypto, c, m);
  }

  lemma ListOfTbs(t: Tbs<bytes>)
    requires WellFormedTbs(t)
    ensures WellFormedList(ExtensionsOf(t), [])
  {}

  lemma SignatureIdStands(b: buffer, p: Parsed)
    requires Tiled(b, p, ReadCertificate(b, p.cert))
    ensures var a := EncodeAlgId(ReadCertificate(b, p.cert).tbs.sigAlg);
      At(b, ViewOf(b, p).sigId.start, a) && ViewOf(b, p).sigId.start + |a| <= |b|
  {
    hide EncodeAlgId, EncodeTbs, RecordAll, ReadCertificate;
  }

  // ---------------------------------------------------------------- the main theorem

  // A file is trusted for a key if and only if it is the encoding of a well-formed certificate
  // that the policy trusts for that key. The key carries the certificate's expiry.
  lemma TrustedIff(b: buffer, now: int, crypto: Crypto, c: Certificate<bytes>, k: PubKey)
    requires WellFormedTbs(c.tbs) && b == Encode(c)
    ensures TrustedKey(b, now, crypto) == Some(k) <==>
      && Trustworthy(c, now, crypto, k.material)
      && k.expiry == Time.Timestamp(c.tbs.notAfter) && k.expSigSize == SignatureSize(k.material)
      && k.algIdx == AlgIndex(k.material)
  {
    hide X509, ViewOf, ReadCertificate, Encode, Trustworthy, ExtractAt, WellFormedTbs, Time.Timestamp, Describes;
    AcceptedIffEncoding(b, c);
    var p := X509(b).value;
    ViewInBounds(b, p);
    ExtractImplements(b, p, now, crypto, k.material);
    ExpiryOfView(b, p);
    var x := ExtractAt(b, ViewOf(b, p), now, crypto);
    if x.Accepted? { KeySize(b, ViewOf(b, p), now, crypto); }
  }

  lemma ExpiryOfView(b: buffer, p: Parsed)
    ensures ViewOf(b, p).notAfter == Time.Timestamp(ReadCertificate(b, p.cert).tbs.notAfter)
  {
    hide Time.Timestamp, RecordAll;
  }

  lemma OnlyCertificatesTrusted(b: buffer, now: int, crypto: Crypto)
    requires TrustedKey(b, now, crypto).Some?
    ensures exists c: Certificate<bytes> :: WellFormedTbs(c.tbs) && b == Encode(c)
  {
    hide X509, Encode, ReadCertificate, WellFormedTbs, ExtractAt, ViewOf;
    var c := ReadCertificate(b, X509(b).value.cert);
    AcceptedIffEncoding(b, c);
  }

  // There is exactly one each of a critical CA:TRUE basicConstraints, a KeyUsage that, if it sets
  // named bits only, has digitalSignature and keyCertSign, and an ExtKeyUsage with codeSigning.
  ghost predicate OneOfEach(xs: seq<Extension<bytes>>, basic: Extension<bytes>, usage: Extension<bytes>,
      extended: Extension<bytes>)
  {
    && multiset(xs)[basic] == multiset(xs)[usage] == multiset(xs)[extended] == 1
    && (forall x <- xs :: x.BasicConstraints? <==> x == basic)
    && (forall x <- xs :: x.KeyUsage? <==> x == usage)
    && (forall x <- xs :: x.ExtKeyUsage? <==> x == extended)
    && basic.BasicConstraints? && Critical(basic) && basic.ca
    && usage.KeyUsage?
    && ((forall j | 9 <= j < 16 :: !NamedBit(usage.bits, j)) ==> NamedBit(usage.bits, 0) && NamedBit(usage.bits, 5))
    && extended.ExtKeyUsage? && KP_PREFIX + [3] in extended.purposes
  }

  lemma TrustedExtensions(xs: seq<Extension<bytes>>)
    requires WellFormedList(xs, []) && AllowsCodeSigning(xs)
    ensures OneOfEach(xs,
      Find(xs, BASIC_CONSTRAINT_OID).value, Find(xs, KEY_USAGE_OID).value, Find(xs, EXT_KEY_USAGE_OID).value)
  {
    hide Bit, KeyUsageFlags, CanonicalBits, PurposeBit, SubjectKeyIdentifier, AuthorityKeyIdentifier, WellFormedList,
      Find;
    var (basic, usage) := (Find(xs, BASIC_CONSTRAINT_OID).value, Find(xs, KEY_USAGE_OID).value);
    var extended := Find(xs, EXT_KEY_USAGE_OID).value;
    OnceOnly(xs, [], basic);
    OnceOnly(xs, [], usage);
    OnceOnly(xs, [], extended);
    forall x <- xs
      ensures x.BasicConstraints? <==> x == basic
      ensures x.KeyUsage? <==> x == usage
      ensures x.ExtKeyUsage? <==> x == extended
    {
      UniqueOids(xs, [], x);
    }
    CodeSigningPurpose(extended.purposes);
    UniqueOids(xs, [], usage);
    FlagOfNamedBit(usage.bits, 0);
    FlagOfNamedBit(usage.bits, 5);
  }

  // When the extensions allow code signing, in their own terms: with the unnamed KeyUsage bits that
  // the flags cannot tell from the named ones.
  lemma AllowedExactly(xs: seq<Extension<bytes>>)
    requires WellFormedList(xs, [])
    ensures AllowsCodeSigning(xs) <==>
      && (exists x <- xs :: x.BasicConstraints? && x.ca)
      && (exists x <- xs :: x.KeyUsage?
            && (NamedBit(x.bits, 0) || NamedBit(x.bits, 9)) && (NamedBit(x.bits, 5) || NamedBit(x.bits, 14)))
      && (exists x <- xs :: x.ExtKeyUsage? && [0x2b, 6, 1, 5, 5, 7, 3, 3] in x.purposes)
      && (forall k: bytes :: SubjectKeyId(k) in xs <==> exists x <- xs :: x.AuthorityKeyId? && x.authority == Some(k))
  {
    hide Bit, KeyUsageFlags, WellFormed, PurposeBit, WellFormedList, Find, NamedBit;
    forall x <- xs ensures Find(xs, OidOf(x)) == Some(x) && UsageMeans(x) {
      UniqueOids(xs, [], x);
      UsageMeaning(x);
    }
    FoundByKind(xs);
  }

  ghost predicate UsageMeans(x: Extension<bytes>) {
    && (x.KeyUsage? ==>
          && (Bit(KeyUsageFlags(x.bits), 7) <==> NamedBit(x.bits, 0) || NamedBit(x.bits, 9))
          && (Bit(KeyUsageFlags(x.bits), 2) <==> NamedBit(x.bits, 5) || NamedBit(x.bits, 14)))
    && (x.ExtKeyUsage? ==>
          ((exists p <- x.purposes :: PurposeBit(p) == Some(19)) <==> [0x2b, 6, 1, 5, 5, 7, 3, 3] in x.purposes))
  }

  lemma UsageMeaning(x: Extension<bytes>)
    requires WellFormed(x)
    ensures UsageMeans(x)
  {
    hide Bit, KeyUsageFlags, LowBitsClear, PurposeBit, NamedBit;
    if x.KeyUsage? {
      FlagOfNamedBit(x.bits, 0);
      FlagOfNamedBit(x.bits, 5);
    }
    if x.ExtKeyUsage? {
      CodeSigningPurpose(x.purposes);
      assert KP_PREFIX + [3] == [0x2b, 6, 1, 5, 5, 7, 3, 3];
    }
  }

  lemma FoundByKind(xs: seq<Extension<bytes>>)
    requires WellFormedList(xs, [])
    ensures var x := Find(xs, BASIC_CONSTRAINT_OID); x.Some? ==> x.value in xs && x.value.BasicConstraints?
    ensures var x := Find(xs, KEY_USAGE_OID); x.Some? ==> x.value in xs && x.value.KeyUsage?
    ensures var x := Find(xs, EXT_KEY_USAGE_OID); x.Some? ==> x.value in xs && x.value.ExtKeyUsage?
    ensures var x := Find(xs, SKID_OID); x.Some? ==> x.value in xs && x.value.SubjectKeyId?
    ensures var x := Find(xs, AKID_OID); x.Some? ==> x.value in xs && x.value.AuthorityKeyId?
  {
    hide WellFormed, OidOf, WellFormedList;
    forall oid | Find(xs, oid).Some? ensures WellFormed(Find(xs, oid).value) && OidOf(Find(xs, oid).value) == oid {
      UniqueOids(xs, [], Find(xs, oid).value);
    }
    if Find(xs, BASIC_CONSTRAINT_OID).Some? { OidKind(Find(xs, BASIC_CONSTRAINT_OID).value); }
    if Find(xs, KEY_USAGE_OID).Some? { OidKind(Find(xs, KEY_USAGE_OID).value); }
    if Find(xs, EXT_KEY_USAGE_OID).Some? { OidKind(Find(xs, EXT_KEY_USAGE_OID).value); }
    if Find(xs, SKID_OID).Some? { OidKind(Find(xs, SKID_OID).value); }
    if Find(xs, AKID_OID).Some? { OidKind(Find(xs, AKID_OID).value); }
  }

  lemma CodeSigningPurpose(purposes: seq<bytes>)
    ensures (exists p <- purposes :: PurposeBit(p) == Some(19)) <==> KP_PREFIX + [3] in purposes
  {
    forall p <- purposes ensures PurposeBit(p) == Some(19) <==> p == KP_PREFIX + [3] {
      if |p| == 8 { assert p == p[..7] + [p[7]]; }
    }
    assert PurposeBit(KP_PREFIX + [3]) == Some(19);
  }

  // From the bytes of a file to what it must contain: a file trusted for a key is the encoding of a
  // certificate with one each of the three extensions as they must be, and key identifiers that
  // are equal or both missing; it is valid now, and signed by the key, with the key's fixed size.
  lemma TrustedFile(b: buffer, now: int, crypto: Crypto, k: PubKey)
    requires TrustedKey(b, now, crypto) == Some(k)
    ensures exists c: Certificate<bytes>, basic, usage, extended ::
      && b == Encode(c) && WellFormedTbs(c.tbs)
      && OneOfEach(ExtensionsOf(c.tbs), basic, usage, extended)
      && SubjectKeyIdentifier(ExtensionsOf(c.tbs)) == AuthorityKeyIdentifier(ExtensionsOf(c.tbs))
      && Time.Timestamp(c.tbs.notBefore) <= now <= Time.Timestamp(c.tbs.notAfter) == k.expiry
      && HasKey(c.tbs, k.material) && |c.signature| == k.expSigSize
      && crypto.verifies(k.material, EncodeTbs(c.tbs), c.signature)
      && match k.material
         case Ed25519(_) => k.expSigSize == 64
         case Ed448(_) => k.expSigSize == 114
         case Rsa(_, modulus, _) => k.expSigSize == |modulus| - 1 && (k.expSigSize == 384 || k.expSigSize == 512)
  {
    hide TrustedKey, Encode, WellFormedTbs, Time.Timestamp, OneOfEach, SubjectKeyIdentifier, AuthorityKeyIdentifier,
      EncodeTbs, RsaKey, KeyUsageFlags, PurposeBit;
    OnlyCertificatesTrusted(b, now, crypto);
    var c: Certificate<bytes> :| WellFormedTbs(c.tbs) && b == Encode(c);
    TrustedIff(b, now, crypto, c, k);
    ListOfTbs(c.tbs);
    TrustedExtensions(ExtensionsOf(c.tbs));
  }

  // ---------------------------------------------------------------- the size of an RSA modulus

  ghost predicate HasBits(n: nat, k: nat)
    requires k > 0
  {
    Pow2(k - 1) <= n < Pow2(k)
  }

  lemma {:induction false} Pow256IsPow2(k: nat)
    ensures Pow256(k) == Pow2(8 * k)
  {
    if k > 0 {
      Pow256IsPow2(k - 1);
      assert Pow2(8 * k) == 4 * Pow2(8 * k - 2) && Pow2(8 * k - 2) == 4 * Pow2(8 * k - 4);
      assert Pow2(8 * k - 4) == 4 * Pow2(8 * k - 6) && Pow2(8 * k - 6) == 4 * Pow2(8 * k - 8);
    }
  }

  lemma {:induction false} LeadingValue(s: bytes)
    requires s != []
    ensures Value(s) == s[0] * Pow256(|s| - 1) + Value(s[1..])
  {
    var (n, t) := (|s| - 1, s[..|s| - 1]);
    if n == 0 {
      assert s == [s[0]] && t == [];
    } else {
      LeadingValue(t);
      assert t[1..] == s[1..][..n - 1] && t[0] == s[0];
      Scaled(s[0], n - 1);
    }
  }

  lemma Scaled(x: nat, k: nat)
    ensures 256 * (x * Pow256(k)) == x * Pow256(k + 1)
  {}

  lemma LeadingProduct(x: nat, p: nat)
    ensures x >= 1 ==> x * p >= p
    ensures x >= 128 ==> x * p >= 128 * p
    ensures x <= 127 ==> x * p <= 127 * p
  {
    if x >= 1 { assert x * p == p + (x - 1) * p; }
    if x >= 128 { assert x * p == 128 * p + (x - 128) * p; }
    if x <= 127 { assert 127 * p == x * p + (127 - x) * p; }
  }

  // A number of k + 1 octets has all of 8k bits exactly if the first octet is zero and the second
  // has its high bit set.
  lemma FullSizeIff(s: bytes)
    requires |s| >= 2
    ensures HasBits(Value(s), 8 * (|s| - 1)) <==> s[0] == 0 && s[1] >= 128
  {
    hide Value, Pow256, Pow2;
    var k := |s| - 1;
    Pow256IsPow2(k);
    LeadingValue(s);
    LeadingValue(s[1..]);
    LeadingProduct(s[0], Pow256(k));
    LeadingProduct(s[1], Pow256(k - 1));
    HalfOfPow2(8 * k);
    assert Pow256(k) == 256 * Pow256(k - 1) by { NextPow256(k - 1); }
  }

  lemma HalfOfPow2(k: nat)
    requires k > 0
    ensures Pow2(k) == 2 * Pow2(k - 1)
  {}

  lemma NextPow256(k: nat)
    ensures Pow256(k + 1) == 256 * Pow256(k)
  {}

  // The promise is that only moduli of 3072 and 4096 bits will do. But only the number of octets is
  // looked at: an accepted modulus has the bits that this number stands for, eight for each octet
  // of a signature, if and only if the first octet is zero and the next one is at least 128.
  lemma RsaModulusSize(t: Tbs<bytes>, m: Material)
    requires HasKey(t, m) && m.Rsa?
    ensures SignatureSize(m) == 384 || SignatureSize(m) == 512
    ensures HasBits(Value(m.modulus), 8 * SignatureSize(m)) <==> m.modulus[0] == 0 && m.modulus[1] >= 128
  {
    hide RsaKey, DigestOid, HasBits, Value;
    FullSizeIff(m.modulus);
  }

  // A certificate with the octets modulus for its RSA modulus, with or without NULL parameters, and
  // with something behind the key.
  function RsaCertificate(params: bytes, modulus: bytes, behind: bytes, signature: bytes): Certificate<bytes> {
    Certificate(
      Tbs([1], AlgId(RSA_SHA256_OID, [5, 0]), [],
        Time.Time(false, 70, 1, 1, 0, 0, 0), Time.Time(false, 49, 1, 1, 0, 0, 0), [],
        KeyInfo(AlgId(RSA_OID, params), RsaKey(modulus, [1]) + behind),
        Tail(None, None, Some(CODE_SIGNING))),
      signature)
  }

  const CODE_SIGNING: seq<Extension<bytes>> :=
    [BasicConstraints(true, None), KeyUsage(true, [2, 0x84]), ExtKeyUsage(false, [KP_PREFIX + [3]])]

  lemma CodeSigningFound(oid: bytes)
    ensures Find(CODE_SIGNING, oid) ==
      if oid == BASIC_CONSTRAINT_OID then Some(CODE_SIGNING[0])
      else if oid == KEY_USAGE_OID then Some(CODE_SIGNING[1])
      else if oid == EXT_KEY_USAGE_OID then Some(CODE_SIGNING[2])
      else None
  {
    var (x, y, z) := (CODE_SIGNING[0], CODE_SIGNING[1], CODE_SIGNING[2]);
    assert CODE_SIGNING[1..] == [y, z] && [y, z][1..] == [z] && [z][1..] == [];
    assert Find([], oid) == None;
    assert Find([z], oid) == if oid == EXT_KEY_USAGE_OID then Some(z) else None;
  }

  lemma CodeSigningWellFormed()
    ensures WellFormedList(CODE_SIGNING, []) && CanonicalBits([2, 0x84])
  {
    hide WellFormed, OidOf;
    var (x, y, z) := (CODE_SIGNING[0], CODE_SIGNING[1], CODE_SIGNING[2]);
    CodeSigningMembers();
    var oids := [OidOf(x), OidOf(y), OidOf(z)];
    assert WellFormedList([], oids);
    assert oids[..2] + [OidOf(z)] == oids && [z][1..] == [];
    assert WellFormedList([z], oids[..2]);
    assert oids[..1] + [OidOf(y)] == oids[..2] && [y, z][1..] == [z];
    assert WellFormedList([y, z], oids[..1]);
    assert [] + [OidOf(x)] == oids[..1] && CODE_SIGNING[1..] == [y, z];
  }

  lemma CodeSigningMembers()
    ensures CanonicalBits([2, 0x84]) && forall x <- CODE_SIGNING :: WellFormed(x)
    ensures var (x, y, z) := (CODE_SIGNING[0], CODE_SIGNING[1], CODE_SIGNING[2]);
      OidOf(x) != OidOf(y) && OidOf(x) != OidOf(z) && OidOf(y) != OidOf(z)
  {
    assert BASIC_CONSTRAINT_OID[2] == 0x13 && KEY_USAGE_OID[2] == 0x0f && EXT_KEY_USAGE_OID[2] == 0x25;
    assert Bit(0x84, 2) && LowBitsClear(0x84, 2);
  }

  lemma CodeSigningAllowed()
    ensures WellFormedList(CODE_SIGNING, []) && AllowsCodeSigning(CODE_SIGNING)
  {
    hide PurposeBit, WellFormedList, Find, KeyUsageFlags, CanonicalBits;
    CodeSigningWellFormed();
    CodeSigningFound(BASIC_CONSTRAINT_OID);
    CodeSigningFound(KEY_USAGE_OID);
    CodeSigningFound(EXT_KEY_USAGE_OID);
    CodeSigningFound(SKID_OID);
    CodeSigningFound(AKID_OID);
    assert BASIC_CONSTRAINT_OID[2] == 0x13 && KEY_USAGE_OID[2] == 0x0f && EXT_KEY_USAGE_OID[2] == 0x25;
    assert SKID_OID[2] == 0x0e && AKID_OID[2] == 0x23;
    OneOctetFlags([2, 0x84]);
    assert Bit(0x84, 2) && Bit(0x84, 7);
    CodeSigningPurpose([KP_PREFIX + [3]]);
    assert KP_PREFIX + [3] in CODE_SIGNING[2].purposes;
  }

  // Whatever the octets of the modulus are, whether the parameters are NULL or absent and whatever
  // stands behind the key: the certificate is trusted by a library that loads and verifies it.
  lemma AnyModulusTrusted(params: bytes, modulus: bytes, behind: bytes, signature: bytes, crypto: Crypto)
    requires |modulus| == 385 || |modulus| == 513
    requires params == [] || params == [5, 0]
    requires var c := RsaCertificate(params, modulus, behind, signature);
      var m := Rsa(Sha256, modulus, [1]);
      |signature| == |modulus| - 1 && crypto.loads(m) && crypto.verifies(m, EncodeTbs(c.tbs), signature)
    ensures var c := RsaCertificate(params, modulus, behind, signature);
      WellFormedTbs(c.tbs) && Trustworthy(c, 0, crypto, Rsa(Sha256, modulus, [1]))
  {
    hide EncodeTbs, RsaKey, Time.Timestamp, AllowsCodeSigning, WellFormedList;
    var c := RsaCertificate(params, modulus, behind, signature);
    CodeSigningAllowed();
    assert Time.Pow10(2) == 100;
    Time.EpochIsZero();
    assert Time.WellFormed(c.tbs.notBefore) && Time.WellFormed(c.tbs.notAfter);
    Time.TimestampsOrdered(c.tbs.notAfter, c.tbs.notAfter);
    assert HasKey(c.tbs, Rsa(Sha256, modulus, [1]));
  }

  // In particular a modulus of 385 zero octets, which has no bits at all.
  lemma ZeroModulusTrusted()
    ensures var (modulus, signature) := (seq(385, _ => 0), seq(384, _ => 0));
      && Value(modulus) == 0
      && var c := RsaCertificate([5, 0], modulus, [], signature);
         WellFormedTbs(c.tbs) && Trustworthy(c, 0, Crypto(_ => true, (_, _, _) => true), Rsa(Sha256, modulus, [1]))
  {
    hide EncodeTbs, RsaCertificate, Trustworthy, WellFormedTbs;
    ZeroValue(385);
    AnyModulusTrusted([5, 0], seq(385, _ => 0), [], seq(384, _ => 0), Crypto(_ => true, (_, _, _) => true));
  }

  lemma {:induction false} ZeroValue(n: nat)
    ensures Value(seq(n, _ => 0)) == 0
  {
    if n > 0 {
      ZeroValue(n - 1);
      assert seq(n, _ => 0)[..n - 1] == seq(n - 1, _ => 0);
    }
  }

  // ---------------------------------------------------------------- which algorithm

  // The certificate's key is m, with the identifiers of RFC 8410 and RFC 8017 written out.
  lemma KeyWrittenOut(t: Tbs<bytes>, m: Material)
    ensures HasKey(t, m) <==>
      var (a, key) := (t.keyInfo.alg, t.keyInfo.key);
      match m
      case Ed25519(raw) => a.oid == [0x2b, 0x65, 0x70] && a.params == [] && t.sigAlg == a && raw == key
      case Ed448(raw) => a.oid == [0x2b, 0x65, 0x71] && a.params == [] && t.sigAlg == a && raw == key
      case Rsa(digest, modulus, exponent) =>
        && a.oid == [0x2a, 0x86, 0x48, 0x86, 0xf7, 0x0d, 1, 1, 1] && (a.params == [] || a.params == [5, 0])
        && t.sigAlg.oid == [0x2a, 0x86, 0x48, 0x86, 0xf7, 0x0d, 1, 1,
             match digest case Sha256 => 11 case Sha384 => 12 case Sha512 => 13]
        && Tlv(0x30, Tlv(2, modulus) + Tlv(2, exponent)) <= key
        && (|modulus| == 385 || |modulus| == 513)
  {
    hide Tlv;
  }

  // A trusted key records the position of the certificate's algorithm in the table, and the size of
  // its signatures.
  lemma AlgorithmRecorded(b: buffer, now: int, crypto: Crypto, c: Certificate<bytes>, k: PubKey)
    requires WellFormedTbs(c.tbs) && b == Encode(c) && TrustedKey(b, now, crypto) == Some(k)
    ensures k.algIdx < |SUPPORTED_ALGS| && SUPPORTED_ALGS[k.algIdx] == c.tbs.keyInfo.alg.oid
    ensures match k.algIdx
      case 0 => c.tbs.keyInfo.alg.oid == [0x2b, 0x65, 0x70] && k.expSigSize == 64
      case 1 => c.tbs.keyInfo.alg.oid == [0x2b, 0x65, 0x71] && k.expSigSize == 114
      case _ =>
        && c.tbs.keyInfo.alg.oid == [0x2a, 0x86, 0x48, 0x86, 0xf7, 0x0d, 1, 1, 1]
        && (k.expSigSize == 384 || k.expSigSize == 512)
  {
    hide TrustedKey, Encode, WellFormedTbs, Time.Timestamp, AllowsCodeSigning, EncodeTbs, RsaKey, HasKey;
    TrustedIff(b, now, crypto, c, k);
    KeyWrittenOut(c.tbs, k.material);
  }

  // ---------------------------------------------------------------- what is refused, and why

  // Why the certificate's key is refused, if it is.
  ghost function KeyRefusal(t: Tbs<bytes>, crypto: Crypto): Option<ExtractCode> {
    var (a, key) := (t.keyInfo.alg, t.keyInfo.key);
    if a.oid == RSA_OID then RsaRefusal(t, crypto)
    else if a.oid != ED25519_OID && a.oid != ED448_OID then Some(UnsupportedAlg)
    else if a.params != [] then Some(InvalidPubKeyParams)
    else if t.sigAlg != a then Some(InvalidSig)
    else if !crypto.loads(if a.oid == ED25519_OID then Ed25519(key) else Ed448(key)) then Some(InvalidPubKey)
    else None
  }

  ghost function RsaRefusal(t: Tbs<bytes>, crypto: Crypto): Option<ExtractCode> {
    var (a, key) := (t.keyInfo.alg, t.keyInfo.key);
    if a.params != [] && a.params != [5, 0] then Some(InvalidPubKeyParams)
    else if forall d: Digest :: t.sigAlg.oid != DigestOid(d) then Some(UnsupportedAlg)
    else if forall n, x :: !BeginsWithRsaKey(key, n, x) then Some(InvalidPubKey)
    else if forall n, x :: BeginsWithRsaKey(key, n, x) ==> |n| != 385 && |n| != 513 then Some(UnsupportedAlg)
    else if forall m :: HasKey(t, m) ==> !crypto.loads(m) then Some(InvalidPubKey)
    else None
  }

  ghost predicate BeginsWithRsaKey(key: bytes, modulus: bytes, exponent: bytes) {
    RsaKey(modulus, exponent) <= key
  }

  lemma KeyRefused(b: buffer, v: View, crypto: Crypto, c: Certificate<bytes>)
    requires InBounds(b, v) && Describes(b, v, c)
    requires c.tbs.keyInfo.alg.params == Read(b, Slice(v.pubKeyOid.end, v.pubKeyId.end))
    requires At(b, v.sigId.start, EncodeAlgId(c.tbs.sigAlg)) && v.sigId.start + |EncodeAlgId(c.tbs.sigAlg)| <= |b|
    ensures match KeyAt(b, v, crypto)
      case Refused(code) => KeyRefusal(c.tbs, crypto) == Some(code)
      case Accepted(m) => KeyRefusal(c.tbs, crypto) == None && HasKey(c.tbs, m)
  {
    hide At, RsaAt, RsaRefusal, EncodeAlgId, EncodeTbs, Recorded, NoteAll, Time.Timestamp, DigestOid, HasKey;
    assert ED25519_OID[2] != ED448_OID[2] && |RSA_OID| == 9;
    if KeyAt(b, v, crypto).Accepted? { KeyImplements(b, v, crypto, c, KeyAt(b, v, crypto).value); }
    if EncodeAlgId(c.tbs.sigAlg) == EncodeAlgId(c.tbs.keyInfo.alg) {
      AlgIdInjective(b, v.sigId.start, c.tbs.sigAlg, c.tbs.keyInfo.alg);
    }
    if c.tbs.keyInfo.alg.oid == RSA_OID { RsaRefused(b, v, crypto, c); }
  }

  // An accepted RSA key is the only one its octets begin with; a refused one is none.
  lemma RsaKeyFound(b: buffer, i: nat, e: nat)
    requires i <= e <= |b|
    ensures match RsaKeyAt(b, i, e)
      case Ok((n, x)) => forall m, y :: BeginsWithRsaKey(b[i..e], m, y) <==> m == Read(b, n) && y == Read(b, x)
      case Err(_) => forall m, y :: !BeginsWithRsaKey(b[i..e], m, y)
  {
    hide RsaKeyAt, RsaKey;
    if RsaKeyAt(b, i, e).Ok? { RsaKeySound(b, i, e); }
    forall m, y | BeginsWithRsaKey(b[i..e], m, y)
      ensures RsaKeyAt(b, i, e).Ok?
      ensures Read(b, RsaKeyAt(b, i, e).value.0) == m && Read(b, RsaKeyAt(b, i, e).value.1) == y
    {
      RsaKeyComplete(b, i, e, m, y);
    }
  }

  lemma RsaRefused(b: buffer, v: View, crypto: Crypto, c: Certificate<bytes>)
    requires InBounds(b, v) && Describes(b, v, c) && c.tbs.keyInfo.alg.oid == RSA_OID
    requires c.tbs.keyInfo.alg.params == Read(b, Slice(v.pubKeyOid.end, v.pubKeyId.end))
    ensures match RsaAt(b, v, crypto)
      case Refused(code) => RsaRefusal(c.tbs, crypto) == Some(code)
      case Accepted(m) => RsaRefusal(c.tbs, crypto) == None
  {
    hide RsaKeyAt, BeginsWithRsaKey, EncodeAlgId, EncodeTbs, Recorded, NoteAll, Time.Timestamp, HasKey, DigestOf,
      DigestOid;
    var (key, oid) := (c.tbs.keyInfo.key, c.tbs.sigAlg.oid);
    assert key == b[v.pubKey.start..v.pubKey.end];
    RsaKeyFound(b, v.pubKey.start, v.pubKey.end);
    var parts := RsaKeyAt(b, v.pubKey.start, v.pubKey.end);
    if parts.Ok? {
      assert BeginsWithRsaKey(key, Read(b, parts.value.0), Read(b, parts.value.1));
    }
    forall d: Digest ensures DigestOf(oid) == Some(d) <==> oid == DigestOid(d) { DigestByOid(d); }
    if DigestOf(oid).Some? {
      assert oid == DigestOid(DigestOf(oid).value);
    }
    forall m ensures RsaAt(b, v, crypto) == Accepted(m) <==> HasKey(c.tbs, m) && crypto.loads(m) {
      RsaImplements(b, v, crypto, c, m);
    }
  }

  // Why a certificate is refused, if it is: the checks come in this order, so each refusal says that
  // the checks before it were passed.
  ghost function Refusal(c: Certificate<bytes>, now: int, crypto: Crypto): Option<ExtractCode> {
    var xs := ExtensionsOf(c.tbs);
    if Time.Timestamp(c.tbs.notAfter) < now then Some(Expired)
    else if now < Time.Timestamp(c.tbs.notBefore) then Some(NotBefore)
    else if forall x <- xs :: !(x.BasicConstraints? && x.ca) then Some(InvalidUsage)
    else if SubjectKeyIdentifier(xs) != AuthorityKeyIdentifier(xs) then Some(InvalidSelfSign)
    else if !AllowsCodeSigning(xs) then Some(InvalidUsage)
    else if KeyRefusal(c.tbs, crypto).Some? then KeyRefusal(c.tbs, crypto)
    else if forall m :: !Trustworthy(c, now, crypto, m) then Some(InvalidSig)
    else None
  }

  lemma RefusedInOrder(b: buffer, p: Parsed, now: int, crypto: Crypto)
    requires X509(b) == Ok(p) && InBounds(b, ViewOf(b, p))
    ensures match ExtractAt(b, ViewOf(b, p), now, crypto)
      case Refused(code) => Refusal(ReadCertificate(b, p.cert), now, crypto) == Some(code)
      case Accepted(_) => Refusal(ReadCertificate(b, p.cert), now, crypto) == None
  {
    hide X509, ViewOf, ReadCertificate, EncodeTbs, EncodeAlgId, Recorded, SubjectKeyIdentifier, KeyRefusal, HasKey,
      AuthorityKeyIdentifier, NoteAll, Time.Timestamp, KeyAt, AllowsCodeSigning, And, WellFormedList, Find, Trustworthy;
    var (v, c) := (ViewOf(b, p), ReadCertificate(b, p.cert));
    var xs := ExtensionsOf(c.tbs);
    ViewInBounds(b, p);
    FieldsDescribe(b);
    ParseSound(b);
    ListOfTbs(c.tbs);
    SummaryAsDocumented(xs);
    UsageChecks(b, v.found, v.signedData, xs);
    IdentifiersAgree(b, v.found, v.signedData, xs);
    SignatureIdStands(b, p);
    KeyRefused(b, v, crypto, c);
    forall m ensures ExtractAt(b, v, now, crypto) == Accepted(m) <==> Trustworthy(c, now, crypto, m) {
      ExtractImplements(b, p, now, crypto, m);
    }
  }

  lemma IdentifiersAgree(b: bytes, f: Found, outer: Slice, xs: seq<Extension<bytes>>)
    requires Inside(outer, Whole(b))
    requires Recorded(b, f.skid, outer, SubjectKeyIdentifier(xs))
    requires Recorded(b, f.akid, outer, AuthorityKeyIdentifier(xs))
    ensures SubjectKeyIdentifier(xs) == AuthorityKeyIdentifier(xs) <==>
      && (f.skid.start != IDX_NONE) == (f.akid.start != IDX_NONE)
      && (f.skid.start != IDX_NONE ==> CertEq(b, f.skid, f.akid))
  {
    hide SubjectKeyIdentifier, AuthorityKeyIdentifier;
  }

  // ---------------------------------------------------------------- the keys of several files

  // What is there, in order.
  function Present<T>(found: seq<Option<T>>): seq<T> {
    if found == [] then []
    else
      var (rest, last) := (Present(found[..|found| - 1]), found[|found| - 1]);
      if last.Some? then rest + [last.value] else rest
  }

  // The keys read from files, each at its own time; files that are not trusted are passed over.
  function ReadCerts(files: seq<buffer>, times: seq<int>, crypto: Crypto): seq<PubKey>
    requires |files| == |times|
  {
    Present(TrustedKeys(files, times, crypto))
  }

  function TrustedKeys(files: seq<buffer>, times: seq<int>, crypto: Crypto): (r: seq<Option<PubKey>>)
    requires |files| == |times|
    ensures |r| == |files| && forall i | 0 <= i < |files| :: r[i] == TrustedKey(files[i], times[i], crypto)
  {
    seq(|files|, i requires 0 <= i < |files| => TrustedKey(files[i], times[i], crypto))
  }

  // The members are all those found, at these positions, in their order.
  ghost predicate InOrder<T(!new)>(positions: seq<nat>, found: seq<Option<T>>, members: seq<T>) {
    && |positions| == |members|
    && (forall n | 0 <= n < |members| :: positions[n] < |found| && found[positions[n]] == Some(members[n]))
    && (forall m, n | 0 <= m < n < |members| :: positions[m] < positions[n])
    && (forall i | 0 <= i < |found| && found[i].Some? :: i in positions)
  }

  // The positions at which something is there.
  function Positions<T>(found: seq<Option<T>>): (r: seq<nat>)
    ensures forall n | 0 <= n < |r| :: r[n] < |found|
  {
    if found == [] then []
    else
      var n := |found| - 1;
      Positions(found[..n]) + if found[n].Some? then [n] else []
  }

  lemma {:induction false} PresentInOrder<T(!new)>(found: seq<Option<T>>)
    ensures InOrder(Positions(found), found, Present(found))
  {
    if found != [] {
      var n := |found| - 1;
      PresentInOrder(found[..n]);
      ExtendInOrder(Positions(found[..n]), found, Present(found[..n]));
    }
  }

  lemma ExtendInOrder<T(!new)>(positions: seq<nat>, found: seq<Option<T>>, members: seq<T>)
    requires found != [] && InOrder(positions, found[..|found| - 1], members)
    ensures var n := |found| - 1;
      if found[n].Some? then InOrder(positions + [n], found, members + [found[n].value])
      else InOrder(positions, found, members)
  {
    var n := |found| - 1;
    forall i | 0 <= i < n && found[i].Some? ensures i in positions { assert found[..n][i] == found[i]; }
  }

  // The keys are those of all the files that are trusted, in the order of the files.
  lemma KeysInOrder(files: seq<buffer>, times: seq<int>, crypto: Crypto)
    requires |files| == |times|
    ensures var found := TrustedKeys(files, times, crypto);
      InOrder(Positions(found), found, ReadCerts(files, times, crypto))
  {
    hide TrustedKey, TrustedKeys, Present, InOrder;
    PresentInOrder(TrustedKeys(files, times, crypto));
  }

  lemma InOrderMembers<T(!new)>(positions: seq<nat>, found: seq<Option<T>>, members: seq<T>, x: T)
    requires InOrder(positions, found, members)
    ensures x in members <==> Some(x) in found
  {
    if Some(x) in found {
      var i :| 0 <= i < |found| && found[i] == Some(x);
      var n :| 0 <= n < |positions| && positions[n] == i;
      assert members[n] == x;
    }
  }

  // A key is among them if and only if some file is trusted for it.
  lemma TrustedFromFiles(files: seq<buffer>, times: seq<int>, crypto: Crypto, k: PubKey)
    requires |files| == |times|
    ensures k in ReadCerts(files, times, crypto) <==>
      exists i | 0 <= i < |files| :: TrustedKey(files[i], times[i], crypto) == Some(k)
  {
    hide TrustedKey, ReadCerts, InOrder, TrustedKeys;
    KeysInOrder(files, times, crypto);
    var (found, keys) := (TrustedKeys(files, times, crypto), ReadCerts(files, times, crypto));
    InOrderMembers(Positions(found), found, keys, k);
  }
}
