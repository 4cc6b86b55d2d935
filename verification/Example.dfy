/** One certificate with every optional part, written out octet by octet, and what becomes of it. */
module Example {
  import opened Bytes
  import opened Bits
  import opened Der
  import opened Extensions
  import opened Usage
  import opened Fields
  import opened Certificate
  import opened CertificateTheorems
  import opened Policy
  import Name
  import Time

  // ---------------------------------------------------------------- the octets

  const ALGORITHM: bytes := [0x30, 0x05, 0x06, 0x03, 0x2b, 0x65, 0x70]

  // A name with one letter.
  function NameOf(letter: byte): bytes {
    [0x30, 0x0c, 0x31, 0x0a, 0x30, 0x08, 0x06, 0x03, 0x55, 0x04, 0x03, 0x0c, 0x01, letter]
  }

  const UTC_1970: bytes := [0x17, 0x0d, 0x37, 0x30, 0x30, 0x31, 0x30, 0x31, 0x30, 0x30, 0x30, 0x30, 0x30, 0x30, 0x5a]

  const GENERAL_2050: bytes :=
    [0x18, 0x0f, 0x32, 0x30, 0x35, 0x30, 0x30, 0x31, 0x30, 0x31, 0x30, 0x30, 0x30, 0x30, 0x30, 0x30, 0x5a]

  const BASIC: bytes :=
    [0x30, 0x0f, 0x06, 0x03, 0x55, 0x1d, 0x13, 0x01, 0x01, 0xff, 0x04, 0x05, 0x30, 0x03, 0x01, 0x01, 0xff]

  const AKID: bytes :=
    [0x30, 0x11, 0x06, 0x03, 0x55, 0x1d, 0x23,
     0x04, 0x0a, 0x30, 0x08, 0x80, 0x01, 0x05, 0xa1, 0x00, 0x82, 0x01, 0x09]

  const SKID: bytes := [0x30, 0x0a, 0x06, 0x03, 0x55, 0x1d, 0x0e, 0x04, 0x03, 0x04, 0x01, 0x05]

  const USAGE: bytes :=
    [0x30, 0x0e, 0x06, 0x03, 0x55, 0x1d, 0x0f, 0x01, 0x01, 0xff, 0x04, 0x04, 0x03, 0x02, 0x02, 0x84]

  const PURPOSES: bytes :=
    [0x30, 0x13, 0x06, 0x03, 0x55, 0x1d, 0x25,
     0x04, 0x0c, 0x30, 0x0a, 0x06, 0x08, 0x2b, 0x06, 0x01, 0x05, 0x05, 0x07, 0x03, 0x03]

  const UNKNOWN: bytes := [0x30, 0x08, 0x06, 0x02, 0x2a, 0x03, 0x04, 0x02, 0x05, 0x00]

  function Signed(key: bytes): bytes {
    [0x30, 0x81, 0xe2, 0xa0, 0x03, 0x02, 0x01, 0x02, 0x02, 0x01, 0x2a]
    + (ALGORITHM
    + (NameOf(0x61)
    + ([0x30, 0x20] + (UTC_1970 + GENERAL_2050)
    + (NameOf(0x62)
    + ([0x30, 0x2a] + (ALGORITHM + ([0x03, 0x21, 0x00] + key))
    + ([0x81, 0x01, 0x07, 0x82, 0x01, 0x08]
    + ([0xa3, 0x61, 0x30, 0x5f] + (BASIC + (AKID + (SKID + (USAGE + (PURPOSES + UNKNOWN))))))))))))
  }

  function Octets(key: bytes, signature: bytes): bytes {
    [0x30, 0x82, 0x01, 0x2f] + (Signed(key) + (ALGORITHM + ([0x03, 0x41, 0x00] + signature)))
  }

  // ---------------------------------------------------------------- the certificate

  const EDWARDS: AlgId<bytes> := AlgId([0x2b, 0x65, 0x70], [])

  function Someone(letter: byte): Name.Name {
    [[Name.Attribute([0x55, 0x04, 0x03], 0x0c, [letter])]]
  }

  const EXTENSIONS: seq<Extension<bytes>> := [
    BasicConstraints(true, None),
    AuthorityKeyId(Some([5]), Some([]), Some([9])),
    SubjectKeyId([5]),
    KeyUsage(true, [2, 0x84]),
    ExtKeyUsage(false, [[0x2b, 6, 1, 5, 5, 7, 3, 3]]),
    Other([0x2a, 3], [5, 0])]

  function Contents(key: bytes, signature: bytes): Certificate<bytes> {
    Certificate(
      Tbs([0x2a], EDWARDS,
        Someone(0x61), Time.Time(false, 70, 1, 1, 0, 0, 0), Time.Time(true, 2050, 1, 1, 0, 0, 0), Someone(0x62),
        KeyInfo(EDWARDS, key), Tail(Some([7]), Some([8]), Some(EXTENSIONS))),
      signature)
  }

  // ---------------------------------------------------------------- the octets encode it

  lemma Short(identifier: byte, content: bytes)
    requires |content| < 128
    ensures Tlv(identifier, content) == [identifier, |content|] + content
  {
    assert [identifier] + [|content|] == [identifier, |content|];
  }

  lemma AlgorithmOctets()
    ensures EncodeAlgId(EDWARDS) == ALGORITHM
  {
    hide Tlv;
    Short(6, EDWARDS.oid);
    assert Tlv(6, EDWARDS.oid) + EDWARDS.params == [6, 3, 0x2b, 0x65, 0x70];
    Short(0x30, [6, 3, 0x2b, 0x65, 0x70]);
  }

  lemma AttributeOctets(letter: byte)
    ensures Name.EncodeAttribute(Someone(letter)[0][0]) == [0x30, 8, 6, 3, 0x55, 4, 3, 0x0c, 1, letter]
  {
    hide Tlv;
    var a := Someone(letter)[0][0];
    Short(6, a.kind);
    Short(0x0c, a.value);
    assert Tlv(6, a.kind) + Tlv(0x0c, a.value) == [6, 3, 0x55, 4, 3, 0x0c, 1, letter];
    Short(0x30, [6, 3, 0x55, 4, 3, 0x0c, 1, letter]);
  }

  lemma NameOctets(letter: byte)
    ensures Name.Encode(Someone(letter)) == NameOf(letter) && Name.WellFormed(Someone(letter))
  {
    hide Tlv, Name.EncodeAttribute;
    var n := Someone(letter);
    AttributeOctets(letter);
    assert Name.EncodeAttributes([]) == [] && n[0][1..] == [];
    assert Name.EncodeAttributes(n[0]) == Name.EncodeAttribute(n[0][0]);
    Short(0x31, Name.EncodeAttribute(n[0][0]));
    assert Name.EncodeSets([]) == [] && n[1..] == [];
    assert Name.EncodeSets(n) == [0x31, 0x0a] + Name.EncodeAttribute(n[0][0]);
    Short(0x30, [0x31, 0x0a] + Name.EncodeAttribute(n[0][0]));
  }

  lemma UtcOctets()
    ensures Time.Encode(Time.Time(false, 70, 1, 1, 0, 0, 0)) == UTC_1970
  {
    hide Tlv, Time.Body, Time.Digits;
    var t := Time.Time(false, 70, 1, 1, 0, 0, 0);
    Time.BodyWrittenOut(t);
    Time.DigitsWrittenOut(70);
    Time.DigitsWrittenOut(1);
    Time.DigitsWrittenOut(0);
    Short(0x17, Time.Body(t));
  }

  lemma GeneralOctets()
    ensures Time.Encode(Time.Time(true, 2050, 1, 1, 0, 0, 0)) == GENERAL_2050
  {
    hide Tlv, Time.Body, Time.Digits;
    var t := Time.Time(true, 2050, 1, 1, 0, 0, 0);
    Time.BodyWrittenOut(t);
    Time.DigitsWrittenOut(2050);
    Time.DigitsWrittenOut(1);
    Time.DigitsWrittenOut(0);
    Short(0x18, Time.Body(t));
  }

  lemma ValidityOctets()
    ensures EncodeValidity(Time.Time(false, 70, 1, 1, 0, 0, 0), Time.Time(true, 2050, 1, 1, 0, 0, 0))
      == [0x30, 0x20] + (UTC_1970 + GENERAL_2050)
  {
    hide Tlv, Time.Encode;
    UtcOctets();
    GeneralOctets();
    Short(0x30, UTC_1970 + GENERAL_2050);
  }

  lemma KeyOctets(key: bytes)
    requires |key| == 32
    ensures EncodeKeyInfo(KeyInfo(EDWARDS, key)) == [0x30, 0x2a] + (ALGORITHM + ([0x03, 0x21, 0x00] + key))
  {
    hide Tlv;
    AlgorithmOctets();
    Short(3, [0] + key);
    assert [3, 33] + ([0] + key) == [3, 33, 0] + key;
    Short(0x30, ALGORITHM + ([3, 33, 0] + key));
  }

  // An extension that is written out: its OID, TRUE if it is critical, and its value.
  lemma WrapOctets(oid: bytes, critical: bool, value: bytes)
    requires |oid| + |value| < 100
    ensures Wrap(oid, critical, value) ==
      [0x30, |oid| + |value| + if critical then 7 else 4, 6, |oid|] + oid
      + (if critical then [1, 1, 0xff] else []) + [4, |value|] + value
  {
    hide Tlv;
    Short(6, oid);
    Short(1, [0xff]);
    Short(4, value);
    Short(0x30, Tlv(6, oid) + (DefaultBool(critical) + Tlv(4, value)));
  }

  lemma BasicOctets()
    ensures EncodeExtension(EXTENSIONS[0]) == BASIC
  {
    hide Tlv, Wrap;
    Short(1, [0xff]);
    assert DefaultBool(true) + OptionalTlv(2, None) == [1, 1, 0xff];
    Short(0x30, [1, 1, 0xff]);
    assert EncodeValue(EXTENSIONS[0]) == [0x30, 3, 1, 1, 0xff];
    WrapOctets(BASIC_CONSTRAINT_OID, true, [0x30, 3, 1, 1, 0xff]);
  }

  lemma AkidValue()
    ensures EncodeValue(EXTENSIONS[1]) == [0x30, 8, 0x80, 1, 5, 0xa1, 0, 0x82, 1, 9]
  {
    hide Tlv;
    Short(0x80, [5]);
    Short(0xa1, []);
    Short(0x82, [9]);
    assert EncodeAkid(Some([5]), Some([]), Some([9])) == [0x80, 1, 5, 0xa1, 0, 0x82, 1, 9];
    Short(0x30, [0x80, 1, 5, 0xa1, 0, 0x82, 1, 9]);
  }

  lemma AkidOctets()
    ensures EncodeExtension(EXTENSIONS[1]) == AKID
  {
    hide Tlv, Wrap, EncodeValue;
    AkidValue();
    WrapOctets(AKID_OID, false, [0x30, 8, 0x80, 1, 5, 0xa1, 0, 0x82, 1, 9]);
  }

  lemma SkidOctets()
    ensures EncodeExtension(EXTENSIONS[2]) == SKID
  {
    hide Tlv, Wrap;
    Short(4, [5]);
    assert EncodeValue(EXTENSIONS[2]) == [4, 1, 5];
    WrapOctets(SKID_OID, false, [4, 1, 5]);
  }

  lemma UsageOctets()
    ensures EncodeExtension(EXTENSIONS[3]) == USAGE
  {
    hide Tlv, Wrap;
    Short(3, [2, 0x84]);
    assert EncodeValue(EXTENSIONS[3]) == [3, 2, 2, 0x84];
    WrapOctets(KEY_USAGE_OID, true, [3, 2, 2, 0x84]);
  }

  lemma PurposesValue(p: bytes)
    requires |p| == 8
    ensures EncodeValue(ExtKeyUsage(false, [p])) == [0x30, 0x0a, 6, 8] + p
  {
    hide Tlv;
    Short(6, p);
    assert EncodePurposes([]) == [] && [p][1..] == [];
    assert EncodePurposes([p]) == [6, 8] + p;
    Short(0x30, [6, 8] + p);
    Regroup([0x30, 0x0a], [6, 8], p);
  }

  lemma PurposesOctets()
    ensures EncodeExtension(EXTENSIONS[4]) == PURPOSES
  {
    hide Tlv, Wrap, EncodeValue;
    PurposesValue([0x2b, 6, 1, 5, 5, 7, 3, 3]);
    WrapOctets(EXT_KEY_USAGE_OID, false, [0x30, 0x0a, 6, 8] + [0x2b, 6, 1, 5, 5, 7, 3, 3]);
  }

  lemma UnknownOctets()
    ensures EncodeExtension(EXTENSIONS[5]) == UNKNOWN
  {
    hide Tlv, Wrap;
    WrapOctets([0x2a, 3], false, [5, 0]);
  }

  lemma ListOctets()
    ensures EncodeList(EXTENSIONS) == BASIC + (AKID + (SKID + (USAGE + (PURPOSES + UNKNOWN))))
  {
    hide EncodeExtension;
    var xs := EXTENSIONS;
    BasicOctets();
    AkidOctets();
    SkidOctets();
    UsageOctets();
    PurposesOctets();
    UnknownOctets();
    assert EncodeList(xs[6..]) == [];
    assert xs[5..][1..] == xs[6..] && EncodeList(xs[5..]) == UNKNOWN;
    assert xs[4..][1..] == xs[5..] && EncodeList(xs[4..]) == PURPOSES + UNKNOWN;
    assert xs[3..][1..] == xs[4..] && EncodeList(xs[3..]) == USAGE + (PURPOSES + UNKNOWN);
    assert xs[2..][1..] == xs[3..] && EncodeList(xs[2..]) == SKID + (USAGE + (PURPOSES + UNKNOWN));
    assert xs[1..][1..] == xs[2..] && EncodeList(xs[1..]) == AKID + (SKID + (USAGE + (PURPOSES + UNKNOWN)));
  }

  lemma TailOctets()
    ensures EncodeTail(Tail(Some([7]), Some([8]), Some(EXTENSIONS))) ==
      [0x81, 0x01, 0x07, 0x82, 0x01, 0x08]
      + ([0xa3, 0x61, 0x30, 0x5f] + (BASIC + (AKID + (SKID + (USAGE + (PURPOSES + UNKNOWN))))))
  {
    hide Tlv, EncodeList;
    ListOctets();
    TailAround(EXTENSIONS, BASIC + (AKID + (SKID + (USAGE + (PURPOSES + UNKNOWN)))));
  }

  lemma TailAround(xs: seq<Extension<bytes>>, list: bytes)
    requires EncodeList(xs) == list && |list| == 0x5f
    ensures EncodeTail(Tail(Some([7]), Some([8]), Some(xs))) ==
      [0x81, 0x01, 0x07, 0x82, 0x01, 0x08] + ([0xa3, 0x61, 0x30, 0x5f] + list)
  {
    hide Tlv, EncodeList;
    Short(0x81, [7]);
    Short(0x82, [8]);
    Short(0x30, list);
    Short(0xa3, [0x30, 0x5f] + list);
    Regroup([0xa3, 0x61], [0x30, 0x5f], list);
    Regroup([0x81, 1, 7], [0x82, 1, 8], [0xa3, 0x61, 0x30, 0x5f] + list);
  }

  lemma Regroup(a: bytes, b: bytes, c: bytes)
    ensures a + (b + c) == (a + b) + c
  {}

  lemma VersionOctets()
    ensures EncodeVersion() == [0xa0, 3, 2, 1, 2]
  {
    hide Tlv;
    Short(2, [2]);
    Short(0xa0, [2, 1] + [2]);
  }

  lemma Long(identifier: byte, content: bytes)
    ensures 128 <= |content| < 256 ==> Tlv(identifier, content) == [identifier, 0x81, |content|] + content
    ensures 256 <= |content| < 0x1_0000 ==>
      Tlv(identifier, content) == [identifier, 0x82, |content| / 256, |content| % 256] + content
  {
    var n := |content|;
    if n < 0x1_0000 {
      assert n / 256 > 0 ==> BigEndian(n / 256) == [n / 256];
    }
  }

  lemma SignedOctets(key: bytes, signature: bytes)
    requires |key| == 32
    ensures EncodeTbs(Contents(key, signature).tbs) == Signed(key) && |Signed(key)| == 229
  {
    hide Tlv, EncodeAlgId, EncodeVersion, EncodeValidity, EncodeKeyInfo, EncodeTail, Name.Encode;
    var t := Contents(key, signature).tbs;
    VersionOctets();
    Short(2, [0x2a]);
    assert Tlv(2, t.serial) == [2, 1, 0x2a];
    AlgorithmOctets();
    NameOctets(0x61);
    NameOctets(0x62);
    ValidityOctets();
    KeyOctets(key);
    TailOctets();
    var rest := AfterSerial(t);
    assert |rest| == 0xda;
    SignedAround(rest);
  }

  lemma SignedAround(rest: bytes)
    requires |rest| == 0xda
    ensures Tlv(0x30, [0xa0, 3, 2, 1, 2] + ([2, 1, 0x2a] + rest))
      == [0x30, 0x81, 0xe2, 0xa0, 3, 2, 1, 2, 2, 1, 0x2a] + rest
  {
    hide Tlv;
    Long(0x30, [0xa0, 3, 2, 1, 2] + ([2, 1, 0x2a] + rest));
    Regroup([0xa0, 3, 2, 1, 2], [2, 1, 0x2a], rest);
    Regroup([0x30, 0x81, 0xe2], [0xa0, 3, 2, 1, 2, 2, 1, 0x2a], rest);
  }

  lemma Encoded(key: bytes, signature: bytes)
    requires |key| == 32 && |signature| == 64
    ensures Encode(Contents(key, signature)) == Octets(key, signature) && |Octets(key, signature)| == 307
  {
    hide Tlv, EncodeAlgId, EncodeTbs, Signed;
    SignedOctets(key, signature);
    AlgorithmOctets();
    Short(3, [0] + signature);
    assert [3, 65] + ([0] + signature) == [3, 65, 0] + signature;
    Long(0x30, Signed(key) + (ALGORITHM + ([3, 65, 0] + signature)));
  }

  // ---------------------------------------------------------------- it is accepted

  lemma WellFormedContents(key: bytes, signature: bytes)
    ensures WellFormedTbs(Contents(key, signature).tbs)
  {
    hide WellFormedList;
    NameOctets(0x61);
    NameOctets(0x62);
    ListWellFormed();
    assert Time.Pow10(2) == 100 && Time.Pow10(4) == 10000;
  }

  lemma Members()
    ensures CanonicalBits([2, 0x84]) && forall x <- EXTENSIONS :: WellFormed(x)
    ensures forall i, j | 0 <= i < j < 6 :: OidOf(EXTENSIONS[i]) != OidOf(EXTENSIONS[j])
  {
    hide Lookup;
    assert BASIC_CONSTRAINT_OID[2] == 0x13 && AKID_OID[2] == 0x23 && SKID_OID[2] == 0x0e;
    assert KEY_USAGE_OID[2] == 0x0f && EXT_KEY_USAGE_OID[2] == 0x25;
    assert Bit(0x84, 2) && LowBitsClear(0x84, 2);
    TableOrder([0x2a, 3]);
  }

  lemma ListWellFormed()
    ensures WellFormedList(EXTENSIONS, [])
  {
    hide WellFormed, OidOf, WellFormedList;
    Members();
    ListConditions(EXTENSIONS, []);
  }

  // For every key and signature of the right size: the octets are accepted, and read back.
  lemma Accepted(key: bytes, signature: bytes)
    requires |key| == 32 && |signature| == 64
    ensures var b: buffer := Octets(key, signature);
      X509(b).Ok? && ReadCertificate(b, X509(b).value.cert) == Contents(key, signature)
  {
    hide X509, Encode, WellFormedTbs, ReadCertificate, Octets, Contents;
    Encoded(key, signature);
    WellFormedContents(key, signature);
    AcceptedIffEncoding(Octets(key, signature), Contents(key, signature));
  }

  lemma UsageBits()
    ensures NamedBit([2, 0x84], 0) && NamedBit([2, 0x84], 5)
  {
    assert Bit(0x84, 7) && Bit(0x84, 2);
  }

  lemma Allowed()
    ensures AllowsCodeSigning(EXTENSIONS)
  {
    hide AllowsCodeSigning, WellFormedList, CanonicalBits, NamedBit;
    ListWellFormed();
    UsageBits();
    AllowedExactly(EXTENSIONS);
    var (basic, akid, skid) := (EXTENSIONS[0], EXTENSIONS[1], EXTENSIONS[2]);
    var (usage, purposes) := (EXTENSIONS[3], EXTENSIONS[4]);
    assert basic in EXTENSIONS && akid in EXTENSIONS && skid in EXTENSIONS;
    assert usage in EXTENSIONS && purposes in EXTENSIONS;
    assert [0x2b, 6, 1, 5, 5, 7, 3, 3] in purposes.purposes;
  }

  // It is trusted from the epoch to the timestamp of its end, if and only if the library loads the
  // key and verifies the signature; and for nothing but this key.
  lemma Trusted(key: bytes, signature: bytes, now: int, crypto: Crypto)
    requires |key| == 32 && |signature| == 64
    ensures var m := Ed25519(key);
      TrustedKey(Octets(key, signature), now, crypto) ==
        if 0 <= now <= 62482752000 && crypto.loads(m) && crypto.verifies(m, Signed(key), signature)
        then Some(PubKey(62482752000, 64, 0, m)) else None
  {
    hide TrustedKey, Octets, Signed, AllowsCodeSigning, EncodeTbs, Encode, WellFormedTbs, Time.Timestamp, RsaKey;
    var (b, c) := (Octets(key, signature), Contents(key, signature));
    Encoded(key, signature);
    SignedOctets(key, signature);
    WellFormedContents(key, signature);
    Allowed();
    Time.EpochIsZero();
    Time.GeneralizedTimeIsLate();
    assert RSA_OID != ED25519_OID && ED448_OID[2] != ED25519_OID[2];
    var r := TrustedKey(b, now, crypto);
    if r.Some? { TrustedIff(b, now, crypto, c, r.value); }
    TrustedIff(b, now, crypto, c, PubKey(62482752000, 64, 0, Ed25519(key)));
  }
}
