/** The functions of src/crypto.c: from the parsed fields to a public key, step by step. */
module KeyExtraction {
  import opened Bytes
  import opened Bits
  import opened Der
  import opened Fields
  import opened Certificate
  import opened CertificateParser
  import opened Policy

  // A key without its expiry, which is set last.
  function Unsigned(m: Material): PubKey
    requires SignatureSize(m) >= 0
  {
    PubKey(0, SignatureSize(m), AlgIndex(m), m)
  }

  // What a method returns, given what the specification extracts.
  ghost predicate Builds(r: Extraction<PubKey>, spec: Extraction<Material>, expiry: int) {
    match spec
    case Accepted(m) => SignatureSize(m) >= 0 && r == Accepted(Unsigned(m).(expiry := expiry))
    case Refused(code) => r == Refused(code)
  }

  method ExtractEd(raw: buffer, fields: X509Fields, crypto: Crypto, m: Material) returns (r: Extraction<Material>)
    requires InBounds(raw, fields.Contents())
    ensures r == EdAt(raw, fields.Contents(), crypto, m)
  {
    if fields.pubKeyOid.end != fields.pubKeyId.end {
      return Refused(InvalidPubKeyParams);
    }
    if !CertEq(raw, fields.sigId, fields.pubKeyId) {
      return Refused(InvalidSig);
    }
    if !crypto.loads(m) {
      return Refused(InvalidPubKey);
    }
    return Accepted(m);
  }

  method ExtractRsa(raw: buffer, fields: X509Fields, crypto: Crypto) returns (r: Extraction<PubKey>)
    requires InBounds(raw, fields.Contents())
    ensures Builds(r, RsaAt(raw, fields.Contents(), crypto), 0)
  {
    hide RsaKeyAt, At, DigestOf;
    // A failure to parse NULL is not looked at: what counts is whether the parameters are used up.
    var c := new Cursor(raw, fields.pubKeyOid.end);
    var _ := c.ParseNull(fields.pubKeyId.end);
    NullOrNothing(raw, fields.pubKeyOid.end, fields.pubKeyId.end, c.idx);
    if c.idx != fields.pubKeyId.end {
      return Refused(InvalidPubKeyParams);
    }
    var digest := DigestOf(Cut(raw, fields.sigOid));
    if digest.None? {
      return Refused(UnsupportedAlg);
    }
    var parts := ParseRsaKey(raw, fields.pubKey.start, fields.pubKey.end);
    if parts.Err? {
      return Refused(InvalidPubKey);
    }
    var (modulus, exponent) := parts.value;
    var expSigSize: nat;
    if modulus.end - modulus.start == 385 {
      expSigSize := 384;
    } else if modulus.end - modulus.start == 513 {
      expSigSize := 512;
    } else {
      return Refused(UnsupportedAlg);
    }
    var m := Rsa(digest.value, Cut(raw, modulus), Cut(raw, exponent));
    if !crypto.loads(m) {
      return Refused(InvalidPubKey);
    }
    return Accepted(PubKey(0, expSigSize, 2, m));
  }

  lemma NullOrNothing(b: bytes, i: nat, e: nat, j: nat)
    requires i <= e <= |b|
    requires j == if i + 2 <= e && At(b, i, [5, 0]) then i + 2 else i
    ensures j == e <==> Read(b, Slice(i, e)) == [] || Read(b, Slice(i, e)) == [5, 0]
  {
    if Read(b, Slice(i, e)) == [5, 0] { assert At(b, i, [5, 0]); }
  }

  method ParseRsaKey(raw: buffer, start: uint64, end: uint64) returns (r: Result<(Slice, Slice)>)
    requires start <= end <= |raw|
    ensures r == RsaKeyAt(raw, start, end)
  {
    hide HeaderAt;
    var c := new Cursor(raw, start);
    var seqEnd :- c.ParseDataElement(SEQUENCE, end);
    var modulusEnd :- c.ParseDataElement(INTEGER, seqEnd);
    var modulusStart := c.idx;
    c.idx := modulusEnd;
    var expEnd :- c.ParseDataElement(INTEGER, seqEnd);
    if expEnd != seqEnd {
      return Err(TrailingData);
    }
    return Ok((Slice(modulusStart, modulusEnd), Slice(c.idx, expEnd)));
  }

  method ExtractPubKey(raw: buffer, fields: X509Fields, crypto: Crypto) returns (r: Extraction<PubKey>)
    requires InBounds(raw, fields.Contents())
    ensures Builds(r, KeyAt(raw, fields.Contents(), crypto), 0)
  {
    hide EdAt, RsaAt, Read;
    assert ED25519_OID[2] != ED448_OID[2] && |RSA_OID| == 9;
    var oid := Cut(raw, fields.pubKeyOid);
    var key := Cut(raw, fields.pubKey);
    for idx := 0 to |SUPPORTED_ALGS|
      invariant oid !in SUPPORTED_ALGS[..idx]
    {
      if SUPPORTED_ALGS[idx] == oid {
        if idx == 2 {
          r := ExtractRsa(raw, fields, crypto);
        } else {
          var m := if idx == 0 then Ed25519(key) else Ed448(key);
          EdOwnMaterial(raw, fields.Contents(), crypto, m);
          var built :- ExtractEd(raw, fields, crypto, m);
          r := Accepted(PubKey(0, if idx == 0 then 64 else 114, idx, built));
        }
        return;
      }
    }
    assert SUPPORTED_ALGS[..3] == [ED25519_OID, ED448_OID, RSA_OID];
    return Refused(UnsupportedAlg);
  }

  // A signature of the wrong size is refused without asking the library.
  method VerifyPubKey(key: PubKey, crypto: Crypto, data: bytes, sig: bytes) returns (ok: bool)
    ensures ok <==> |sig| == key.expSigSize && crypto.verifies(key.material, data, sig)
  {
    if key.expSigSize != |sig| {
      return false;
    }
    return crypto.verifies(key.material, data, sig);
  }

  method ExtractSelfSignForCodeSign(raw: buffer, fields: X509Fields, now: int, crypto: Crypto)
    returns (r: Extraction<PubKey>)
    requires InBounds(raw, fields.Contents())
    ensures Builds(r, ExtractAt(raw, fields.Contents(), now, crypto), fields.notAfter)
  {
    hide KeyAt, Read, And, Or;
    if fields.notAfter < now {
      return Refused(Expired);
    }
    if fields.notBefore > now {
      return Refused(NotBefore);
    }
    if !fields.keyCertSign {
      return Refused(InvalidUsage);
    }
    var isSkid := fields.skid.start != IDX_NONE;
    var isAkid := fields.akid.start != IDX_NONE;
    if isSkid != isAkid {
      return Refused(InvalidSelfSign);
    }
    if isSkid && !CertEq(raw, fields.skid, fields.akid) {
      return Refused(InvalidSelfSign);
    }
    if !fields.hasKeyUsage || !fields.hasExtKeyUsage || And(fields.keyUsageFlags, USAGE_MASK) != USAGE_MASK {
      return Refused(InvalidUsage);
    }
    var key :- ExtractPubKey(raw, fields, crypto);
    var verified := VerifyPubKey(key, crypto, Cut(raw, fields.signedData), Cut(raw, fields.sig));
    if !verified {
      return Refused(InvalidSig);
    }
    return Accepted(key.(expiry := fields.notAfter));
  }

  // The keys of several files, in their order; files that are not trusted are passed over.
  method ReadAllCerts(files: seq<buffer>, times: seq<int>, crypto: Crypto) returns (keys: seq<PubKey>)
    requires |files| == |times|
    ensures keys == ReadCerts(files, times, crypto)
  {
    hide TrustedKey, TrustedKeys;
    keys := [];
    for i := 0 to |files|
      invariant keys == Present(TrustedKeys(files, times, crypto)[..i])
    {
      var key := ReadCert(files[i], times[i], crypto);
      assert TrustedKeys(files, times, crypto)[..i + 1][..i] == TrustedKeys(files, times, crypto)[..i];
      if key.Some? {
        keys := keys + [key.value];
      }
    }
    assert TrustedKeys(files, times, crypto)[..|files|] == TrustedKeys(files, times, crypto);
  }

  // From the bytes of a file to a trusted key.
  method ReadCert(raw: buffer, now: int, crypto: Crypto) returns (key: Option<PubKey>)
    ensures key == TrustedKey(raw, now, crypto)
  {
    hide X509, ViewOf, ExtractAt;
    var fields := new X509Fields();
    var parsed := ParseX509(raw, fields);
    if parsed.Err? {
      return None;
    }
    ghost var p := X509(raw).value;
    ViewInBounds(raw, p);
    var extracted := ExtractSelfSignForCodeSign(raw, fields, now, crypto);
    if extracted.Refused? {
      return None;
    }
    return Some(extracted.value);
  }
}
