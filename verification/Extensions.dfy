/**
 * The extensions the source understands: their grammar, their encoder, the parser of the extension
 * list with its duplicate and criticality rules, and the proof that parser and encoder agree.
 */
module Extensions {
  import opened Bytes
  import opened Der
  import opened Bits

  const MAX_EXTN: nat := 64
  const MAX_UINT32: uint32 := 0xffff_ffff

  // An extension over leaves of type T: slices of the buffer as parsed, or the bytes they select.
  // The key usages keep the content octets of their BIT STRING. Other is an extension that is
  // not in the table of supported ones; it cannot be critical.
  datatype Extension<T> =
    | BasicConstraints(ca: bool, pathLen: Option<T>)
    | AuthorityKeyId(authority: Option<T>, issuer: Option<T>, serial: Option<T>)
    | SubjectKeyId(keyId: T)
    | KeyUsage(critical: bool, bits: T)
    | ExtKeyUsage(critical: bool, purposes: seq<T>)
    | Other(oid: T, value: T)

  function ReadOption(b: bytes, s: Option<Slice>): Option<bytes> {
    if s.Some? then Some(Read(b, s.value)) else None
  }

  function ReadAll(b: bytes, s: seq<Slice>): (r: seq<bytes>)
    ensures |r| == |s|
  {
    if s == [] then [] else [Read(b, s[0])] + ReadAll(b, s[1..])
  }

  function ReadExtension(b: bytes, x: Extension<Slice>): Extension<bytes> {
    match x
    case BasicConstraints(ca, p) => BasicConstraints(ca, ReadOption(b, p))
    case AuthorityKeyId(k, i, s) => AuthorityKeyId(ReadOption(b, k), ReadOption(b, i), ReadOption(b, s))
    case SubjectKeyId(k) => SubjectKeyId(Read(b, k))
    case KeyUsage(c, s) => KeyUsage(c, Read(b, s))
    case ExtKeyUsage(c, ps) => ExtKeyUsage(c, ReadAll(b, ps))
    case Other(o, v) => Other(Read(b, o), Read(b, v))
  }

  function ReadList(b: bytes, xs: seq<Extension<Slice>>): seq<Extension<bytes>> {
    if xs == [] then [] else [ReadExtension(b, xs[0])] + ReadList(b, xs[1..])
  }

  // ---------------------------------------------------------------- the table

  datatype Kind = BasicConstraintKind | AkidKind | SkidKind | KeyUsageKind | ExtKeyUsageKind

  // criticality is 0 (any), 2 (must not be critical) or 3 (must be critical).
  datatype SupportedExtn = SupportedExtn(oid: bytes, criticality: nat, kind: Kind)

  const BASIC_CONSTRAINT_OID: bytes := [0x55, 0x1d, 0x13]
  const AKID_OID: bytes := [0x55, 0x1d, 0x23]
  const SKID_OID: bytes := [0x55, 0x1d, 0x0e]
  const KEY_USAGE_OID: bytes := [0x55, 0x1d, 0x0f]
  const EXT_KEY_USAGE_OID: bytes := [0x55, 0x1d, 0x25]

  const SUPPORTED_EXTNS: seq<SupportedExtn> := [
    SupportedExtn(BASIC_CONSTRAINT_OID, 3, BasicConstraintKind),
    SupportedExtn(AKID_OID, 2, AkidKind),
    SupportedExtn(SKID_OID, 2, SkidKind),
    SupportedExtn(KEY_USAGE_OID, 0, KeyUsageKind),
    SupportedExtn(EXT_KEY_USAGE_OID, 0, ExtKeyUsageKind)
  ]

  // The first entry for an OID at or after position k.
  function Lookup(oid: bytes, k: nat): (r: Option<SupportedExtn>)
    requires k <= |SUPPORTED_EXTNS|
    ensures r.Some? ==> r.value.oid == oid && r.value in SUPPORTED_EXTNS
    decreases |SUPPORTED_EXTNS| - k
  {
    if k == |SUPPORTED_EXTNS| then None
    else if SUPPORTED_EXTNS[k].oid == oid then Some(SUPPORTED_EXTNS[k])
    else Lookup(oid, k + 1)
  }

  // ---------------------------------------------------------------- encoder

  function OidOf(x: Extension<bytes>): bytes {
    match x
    case BasicConstraints(_, _) => BASIC_CONSTRAINT_OID
    case AuthorityKeyId(_, _, _) => AKID_OID
    case SubjectKeyId(_) => SKID_OID
    case KeyUsage(_, _) => KEY_USAGE_OID
    case ExtKeyUsage(_, _) => EXT_KEY_USAGE_OID
    case Other(oid, _) => oid
  }

  predicate Critical(x: Extension<bytes>) {
    match x
    case BasicConstraints(_, _) => true
    case KeyUsage(critical, _) => critical
    case ExtKeyUsage(critical, _) => critical
    case _ => false
  }

  function EncodePurposes(ps: seq<bytes>): bytes {
    if ps == [] then [] else Tlv(OID, ps[0]) + EncodePurposes(ps[1..])
  }

  function EncodeAkid(authority: Option<bytes>, issuer: Option<bytes>, serial: Option<bytes>): bytes {
    OptionalTlv(IMPLICIT_0, authority) + (OptionalTlv(CONSTRUCTED_1, issuer) + OptionalTlv(IMPLICIT_2, serial))
  }

  function EncodeValue(x: Extension<bytes>): bytes {
    match x
    case BasicConstraints(ca, p) => Tlv(SEQUENCE, DefaultBool(ca) + OptionalTlv(INTEGER, p))
    case AuthorityKeyId(k, i, s) => Tlv(SEQUENCE, EncodeAkid(k, i, s))
    case SubjectKeyId(k) => Tlv(OCTET_STRING, k)
    case KeyUsage(_, bits) => Tlv(BITSTRING, bits)
    case ExtKeyUsage(_, ps) => Tlv(SEQUENCE, EncodePurposes(ps))
    case Other(_, value) => value
  }

  function Wrap(oid: bytes, critical: bool, value: bytes): bytes {
    Tlv(SEQUENCE, Tlv(OID, oid) + (DefaultBool(critical) + Tlv(OCTET_STRING, value)))
  }

  function EncodeExtension(x: Extension<bytes>): bytes {
    Wrap(OidOf(x), Critical(x), EncodeValue(x))
  }

  function EncodeList(xs: seq<Extension<bytes>>): bytes {
    if xs == [] then [] else EncodeExtension(xs[0]) + EncodeList(xs[1..])
  }

  // A count of unused bits, then one or two octets of which the last ends with the last bit set,
  // as section 11.2.2 of X.690 demands of named bit lists.
  predicate CanonicalBits(s: bytes) {
    && 2 <= |s| <= 3
    && s[0] < 8
    && Bit(s[|s| - 1], s[0])
    && LowBitsClear(s[|s| - 1], s[0])
  }

  // A path length has one to four octets and is not negative; it need not be minimal.
  predicate PathLength(p: bytes) {
    1 <= |p| <= 4 && p[0] < 128
  }

  predicate WellFormed(x: Extension<bytes>) {
    match x
    case BasicConstraints(ca, p) => p.Some? ==> ca && PathLength(p.value)
    case KeyUsage(_, bits) => CanonicalBits(bits)
    case Other(oid, _) => Lookup(oid, 0).None?
    case _ => true
  }

  // At most 64 extensions, all well-formed, no OID twice; seen are the OIDs before them.
  predicate WellFormedList(xs: seq<Extension<bytes>>, seen: seq<bytes>) {
    xs == [] || (
      && |seen| < MAX_EXTN
      && WellFormed(xs[0])
      && OidOf(xs[0]) !in seen
      && WellFormedList(xs[1..], seen + [OidOf(xs[0])]))
  }

  // ---------------------------------------------------------------- what the parsers do

  function BasicConstraintAt(b: buffer, i: nat, e: nat): Result<Extension<Slice>>
    requires e <= |b|
  {
    var h :- ElementAt(b, SEQUENCE, i, e);
    var (ca, j) :- DefaultBoolAt(b, h.start, h.end);
    var p :- if ca then OptionalAt(b, INTEGER, j, h.end) else Ok(None);
    match p
    case None => if j != e then Err(TrailingData) else Ok(BasicConstraints(ca, None))
    case Some(q) =>
      if q.start == q.end then Err(UnexpectedEndOfData)
      else if b[q.start] >= 128 || q.end - q.start > 4 then Err(InvalidInteger)
      else if q.end != e then Err(TrailingData)
      else Ok(BasicConstraints(true, Some(Slice(q.start, q.end))))
  }

  // An optional element as a slice, and the position after it.
  function OptionalSliceAt(b: buffer, expected: byte, i: nat, e: nat): (r: Result<(Option<Slice>, nat)>)
    requires i <= e <= |b|
    ensures r.Ok? ==> i <= r.value.1 <= e
    ensures r.Ok? && r.value.0.Some? ==> i + 2 <= r.value.0.value.start <= r.value.0.value.end == r.value.1
    ensures r.Ok? && r.value.0.None? ==> r.value.1 == i
  {
    var o :- OptionalAt(b, expected, i, e);
    if o.None? then Ok((None, i)) else Ok((Some(Slice(o.value.start, o.value.end)), o.value.end))
  }

  function AkidAt(b: buffer, i: nat, e: nat): Result<Extension<Slice>>
    requires e <= |b|
  {
    var h :- ElementAt(b, SEQUENCE, i, e);
    if h.end != e then Err(TrailingData)
    else
      var (authority, j) :- OptionalSliceAt(b, IMPLICIT_0, h.start, h.end);
      var (issuer, k) :- OptionalSliceAt(b, CONSTRUCTED_1, j, h.end);
      var (serial, l) :- OptionalSliceAt(b, IMPLICIT_2, k, h.end);
      if l != e then Err(TrailingData) else Ok(AuthorityKeyId(authority, issuer, serial))
  }

  function SkidAt(b: buffer, i: nat, e: nat): Result<Extension<Slice>>
    requires e <= |b|
  {
    var h :- ElementAt(b, OCTET_STRING, i, e);
    if h.end != e then Err(TrailingData) else Ok(SubjectKeyId(Slice(h.start, h.end)))
  }

  function KeyUsageAt(b: buffer, i: nat, e: nat, critical: bool): Result<Extension<Slice>>
    requires e <= |b|
  {
    var h :- ElementAt(b, BITSTRING, i, e);
    if h.end - h.start <= 1 then Err(UnexpectedEndOfData)
    else if h.end != e || h.end - h.start > 3 then Err(TrailingData)
    else if !CanonicalBits(b[h.start..h.end]) then Err(InvalidBitstring)
    else Ok(KeyUsage(critical, Slice(h.start, h.end)))
  }

  function PurposesAt(b: buffer, i: nat, e: nat): Result<seq<Slice>>
    requires e <= |b|
    decreases |b| - i
  {
    if i >= e then Ok([])
    else
      var h :- ElementAt(b, OID, i, e);
      var rest :- PurposesAt(b, h.end, e);
      Ok([Slice(h.start, h.end)] + rest)
  }

  function ExtKeyUsageAt(b: buffer, i: nat, e: nat, critical: bool): Result<Extension<Slice>>
    requires e <= |b|
  {
    var h :- ElementAt(b, SEQUENCE, i, e);
    if h.end != e then Err(TrailingData)
    else
      var purposes :- PurposesAt(b, h.start, h.end);
      Ok(ExtKeyUsage(critical, purposes))
  }

  // The OID, criticality and value octets of an extension.
  datatype Wrapper = Wrapper(oid: Slice, critical: bool, value: Slice)

  function WrapperAt(b: buffer, i: nat, e: nat): (r: Result<Wrapper>)
    requires e <= |b|
    ensures r.Ok? ==> var w := r.value;
      i + 2 <= w.oid.start <= w.oid.end <= w.value.start <= w.value.end <= e
  {
    var h :- ElementAt(b, SEQUENCE, i, e);
    var oid :- ElementAt(b, OID, h.start, h.end);
    var (critical, j) :- DefaultBoolAt(b, oid.end, h.end);
    var v :- ElementAt(b, OCTET_STRING, j, h.end);
    if v.end != h.end then Err(TrailingData)
    else Ok(Wrapper(Slice(oid.start, oid.end), critical, Slice(v.start, v.end)))
  }

  function ValueAt(kind: Kind, b: buffer, i: nat, e: nat, critical: bool): Result<Extension<Slice>>
    requires e <= |b|
  {
    match kind
    case BasicConstraintKind => BasicConstraintAt(b, i, e)
    case AkidKind => AkidAt(b, i, e)
    case SkidKind => SkidAt(b, i, e)
    case KeyUsageKind => KeyUsageAt(b, i, e, critical)
    case ExtKeyUsageKind => ExtKeyUsageAt(b, i, e, critical)
  }

  function RecognisedAt(b: buffer, w: Wrapper): Result<Extension<Slice>>
    requires w.value.end <= |b|
  {
    match Lookup(Read(b, w.oid), 0)
    case None => if w.critical then Err(UnrecognizedCriticalExtn) else Ok(Other(w.oid, w.value))
    case Some(s) =>
      if s.criticality >= 2 && (s.criticality % 2 == 1) != w.critical then Err(InvalidCriticality)
      else ValueAt(s.kind, b, w.value.start, w.value.end, w.critical)
  }

  function ListAt(b: buffer, i: nat, e: nat, seen: seq<bytes>): Result<seq<Extension<Slice>>>
    requires e <= |b|
    decreases |b| - i
  {
    if i >= e then Ok([])
    else if |seen| >= MAX_EXTN then Err(ExceedsMaxExtns)
    else
      var w :- WrapperAt(b, i, e);
      var oid := Read(b, w.oid);
      if oid in seen then Err(DuplicateExtns)
      else
        var x :- RecognisedAt(b, w);
        var rest :- ListAt(b, w.value.end, e, seen + [oid]);
        Ok([x] + rest)
  }

  // ---------------------------------------------------------------- parsers and encoder agree

  lemma BasicConstraintSound(b: buffer, i: nat, e: nat)
    requires e <= |b| && BasicConstraintAt(b, i, e).Ok?
    ensures var x := ReadExtension(b, BasicConstraintAt(b, i, e).value);
      WellFormed(x) && x.BasicConstraints? && At(b, i, EncodeValue(x)) && e == i + |EncodeValue(x)|
  {
    hide HeaderAt, Tlv, At, DefaultBool, DefaultBoolAt;
    HeaderSound(b, i, e);
    var h := HeaderAt(b, i, e).value;
    DefaultBoolSound(b, h.start, h.end);
    var (ca, j) := DefaultBoolAt(b, h.start, h.end).value;
    var x := ReadExtension(b, BasicConstraintAt(b, i, e).value);
    if x.pathLen.Some? { HeaderSound(b, j, h.end); } else { AtEmpty(b, j); }
    AtConcat(b, h.start, DefaultBool(ca), OptionalTlv(INTEGER, x.pathLen));
    AtWhole(b, h.start, e, DefaultBool(ca) + OptionalTlv(INTEGER, x.pathLen));
  }

  lemma BasicConstraintComplete(b: buffer, i: nat, e: nat, x: Extension<bytes>)
    requires x.BasicConstraints? && WellFormed(x)
    requires e == i + |EncodeValue(x)| <= |b| && At(b, i, EncodeValue(x))
    ensures var r := BasicConstraintAt(b, i, e); r.Ok? && ReadExtension(b, r.value) == x
  {
    hide HeaderAt, Tlv, At, DefaultBool;
    var content := DefaultBool(x.ca) + OptionalTlv(INTEGER, x.pathLen);
    HeaderComplete(b, i, e, SEQUENCE, content);
    var start := e - |content|;
    AtConcat(b, start, DefaultBool(x.ca), OptionalTlv(INTEGER, x.pathLen));
    AtEnd(b, e);
    if x.ca {
      DefaultBoolTrue(b, start, e);
      var j := start + |DefaultBool(true)|;
      if x.pathLen.Some? { OptionalPresent(b, j, e, INTEGER, x.pathLen.value); }
    } else {
      DefaultBoolFalse();
    }
  }

  lemma DefaultBoolFalse()
    ensures DefaultBool(false) == []
  {}

  lemma OptionalSliceSound(b: buffer, expected: byte, i: nat, e: nat)
    requires i <= e <= |b| && OptionalSliceAt(b, expected, i, e).Ok?
    ensures var (o, j) := OptionalSliceAt(b, expected, i, e).value;
      At(b, i, OptionalTlv(expected, ReadOption(b, o))) && j == i + |OptionalTlv(expected, ReadOption(b, o))|
  {
    hide HeaderAt, Tlv, At;
    var (o, j) := OptionalSliceAt(b, expected, i, e).value;
    if o.Some? { HeaderSound(b, i, e); } else { AtEmpty(b, i); }
  }

  // next is the first octet of whatever follows, if anything does.
  lemma OptionalSliceComplete(b: buffer, expected: byte, i: nat, e: nat, o: Option<bytes>, rest: Option<(byte, bytes)>)
    requires At(b, i, OptionalTlv(expected, o)) && i + |OptionalTlv(expected, o)| <= e <= |b|
    requires match rest
      case None => i + |OptionalTlv(expected, o)| == e
      case Some((tag, content)) =>
        && tag != expected
        && At(b, i + |OptionalTlv(expected, o)|, Tlv(tag, content))
        && i + |OptionalTlv(expected, o)| + |Tlv(tag, content)| <= e
    ensures var r := OptionalSliceAt(b, expected, i, e);
      r.Ok? && r.value.1 == i + |OptionalTlv(expected, o)| && ReadOption(b, r.value.0) == o
  {
    hide HeaderAt, Tlv, At;
    if o.Some? {
      OptionalPresent(b, i, e, expected, o.value);
    } else if rest.Some? {
      OptionalAbsent(b, expected, i, e, rest.value.0, rest.value.1);
    } else {
      assert HeaderAt(b, i, e) == Err(UnexpectedEndOfData) by { AtEnd(b, i); }
    }
  }

  lemma AtEnd(b: buffer, i: nat)
    requires i <= |b|
    ensures HeaderAt(b, i, i) == Err(UnexpectedEndOfData)
  {}

  lemma AkidSound(b: buffer, i: nat, e: nat)
    requires e <= |b| && AkidAt(b, i, e).Ok?
    ensures var x := ReadExtension(b, AkidAt(b, i, e).value);
      x.AuthorityKeyId? && At(b, i, EncodeValue(x)) && e == i + |EncodeValue(x)|
  {
    hide HeaderAt, Tlv, At, OptionalTlv, OptionalSliceAt;
    HeaderSound(b, i, e);
    var h := HeaderAt(b, i, e).value;
    var x := ReadExtension(b, AkidAt(b, i, e).value);
    OptionalSliceSound(b, IMPLICIT_0, h.start, e);
    var j := OptionalSliceAt(b, IMPLICIT_0, h.start, e).value.1;
    OptionalSliceSound(b, CONSTRUCTED_1, j, e);
    var k := OptionalSliceAt(b, CONSTRUCTED_1, j, e).value.1;
    OptionalSliceSound(b, IMPLICIT_2, k, e);
    AtConcat(b, j, OptionalTlv(CONSTRUCTED_1, x.issuer), OptionalTlv(IMPLICIT_2, x.serial));
    AtConcat(b, h.start, OptionalTlv(IMPLICIT_0, x.authority),
      OptionalTlv(CONSTRUCTED_1, x.issuer) + OptionalTlv(IMPLICIT_2, x.serial));
    AtWhole(b, h.start, e, EncodeAkid(x.authority, x.issuer, x.serial));
  }

  lemma AkidComplete(b: buffer, i: nat, e: nat, x: Extension<bytes>)
    requires x.AuthorityKeyId?
    requires e == i + |EncodeValue(x)| <= |b| && At(b, i, EncodeValue(x))
    ensures var r := AkidAt(b, i, e); r.Ok? && ReadExtension(b, r.value) == x
  {
    hide HeaderAt, Tlv, At, OptionalSliceAt;
    var content := EncodeAkid(x.authority, x.issuer, x.serial);
    HeaderComplete(b, i, e, SEQUENCE, content);
    var start := e - |content|;
    var (o0, o1) := (OptionalTlv(IMPLICIT_0, x.authority), OptionalTlv(CONSTRUCTED_1, x.issuer));
    var o2 := OptionalTlv(IMPLICIT_2, x.serial);
    AtConcat(b, start, o0, o1 + o2);
    AtConcat(b, start + |o0|, o1, o2);
    var last := if x.serial.Some? then Some((IMPLICIT_2, x.serial.value)) else None;
    OptionalSliceComplete(b, IMPLICIT_2, start + |o0| + |o1|, e, x.serial, None);
    OptionalSliceComplete(b, CONSTRUCTED_1, start + |o0|, e, x.issuer, last);
    var rest := if x.issuer.Some? then Some((CONSTRUCTED_1, x.issuer.value)) else last;
    OptionalSliceComplete(b, IMPLICIT_0, start, e, x.authority, rest);
  }

  lemma {:induction false} PurposesSound(b: buffer, i: nat, e: nat)
    requires i <= e <= |b| && PurposesAt(b, i, e).Ok?
    ensures var ps := ReadAll(b, PurposesAt(b, i, e).value);
      At(b, i, EncodePurposes(ps)) && e == i + |EncodePurposes(ps)|
    decreases |b| - i
  {
    hide HeaderAt, Tlv, At;
    AtEmpty(b, e);
    if i < e {
      HeaderSound(b, i, e);
      var h := HeaderAt(b, i, e).value;
      PurposesSound(b, h.end, e);
      var rest := ReadAll(b, PurposesAt(b, h.end, e).value);
      var ps := ReadAll(b, PurposesAt(b, i, e).value);
      assert ps[0] == b[h.start..h.end] && ps[1..] == rest;
      AtConcat(b, i, Tlv(OID, ps[0]), EncodePurposes(rest));
    }
  }

  lemma {:induction false} PurposesComplete(b: buffer, i: nat, e: nat, ps: seq<bytes>)
    requires e == i + |EncodePurposes(ps)| <= |b| && At(b, i, EncodePurposes(ps))
    ensures var r := PurposesAt(b, i, e); r.Ok? && ReadAll(b, r.value) == ps
    decreases |ps|
  {
    hide HeaderAt, Tlv, At;
    if ps != [] {
      AtConcat(b, i, Tlv(OID, ps[0]), EncodePurposes(ps[1..]));
      HeaderComplete(b, i, e, OID, ps[0]);
      PurposesComplete(b, i + |Tlv(OID, ps[0])|, e, ps[1..]);
      assert ps == [ps[0]] + ps[1..];
    }
  }

  lemma SkidSound(b: buffer, i: nat, e: nat)
    requires e <= |b| && SkidAt(b, i, e).Ok?
    ensures var x := ReadExtension(b, SkidAt(b, i, e).value);
      x.SubjectKeyId? && At(b, i, EncodeValue(x)) && e == i + |EncodeValue(x)|
  {
    hide HeaderAt, Tlv, At;
    HeaderSound(b, i, e);
  }

  lemma SkidComplete(b: buffer, i: nat, e: nat, x: Extension<bytes>)
    requires x.SubjectKeyId? && e == i + |EncodeValue(x)| <= |b| && At(b, i, EncodeValue(x))
    ensures var r := SkidAt(b, i, e); r.Ok? && ReadExtension(b, r.value) == x
  {
    hide HeaderAt, Tlv, At;
    HeaderComplete(b, i, e, OCTET_STRING, x.keyId);
  }

  lemma KeyUsageSound(b: buffer, i: nat, e: nat, critical: bool)
    requires e <= |b| && KeyUsageAt(b, i, e, critical).Ok?
    ensures var x := ReadExtension(b, KeyUsageAt(b, i, e, critical).value);
      x.KeyUsage? && x.critical == critical && WellFormed(x) && At(b, i, EncodeValue(x)) && e == i + |EncodeValue(x)|
  {
    hide HeaderAt, Tlv, At, CanonicalBits;
    HeaderSound(b, i, e);
  }

  lemma KeyUsageComplete(b: buffer, i: nat, e: nat, x: Extension<bytes>)
    requires x.KeyUsage? && WellFormed(x) && e == i + |EncodeValue(x)| <= |b| && At(b, i, EncodeValue(x))
    ensures var r := KeyUsageAt(b, i, e, x.critical); r.Ok? && ReadExtension(b, r.value) == x
  {
    hide HeaderAt, Tlv, At, Bit, LowBitsClear;
    HeaderComplete(b, i, e, BITSTRING, x.bits);
  }

  lemma ExtKeyUsageSound(b: buffer, i: nat, e: nat, critical: bool)
    requires e <= |b| && ExtKeyUsageAt(b, i, e, critical).Ok?
    ensures var x := ReadExtension(b, ExtKeyUsageAt(b, i, e, critical).value);
      x.ExtKeyUsage? && x.critical == critical && At(b, i, EncodeValue(x)) && e == i + |EncodeValue(x)|
  {
    hide HeaderAt, Tlv, At, PurposesAt, ReadAll, EncodePurposes;
    HeaderSound(b, i, e);
    var h := HeaderAt(b, i, e).value;
    PurposesSound(b, h.start, h.end);
    AtWhole(b, h.start, h.end, EncodePurposes(ReadAll(b, PurposesAt(b, h.start, h.end).value)));
  }

  lemma ExtKeyUsageComplete(b: buffer, i: nat, e: nat, x: Extension<bytes>)
    requires x.ExtKeyUsage? && e == i + |EncodeValue(x)| <= |b| && At(b, i, EncodeValue(x))
    ensures var r := ExtKeyUsageAt(b, i, e, x.critical); r.Ok? && ReadExtension(b, r.value) == x
  {
    hide HeaderAt, Tlv, At, PurposesAt, ReadAll, EncodePurposes;
    HeaderComplete(b, i, e, SEQUENCE, EncodePurposes(x.purposes));
    PurposesComplete(b, e - |EncodePurposes(x.purposes)|, e, x.purposes);
  }

  function KindOf(x: Extension<bytes>): Kind
    requires !x.Other?
  {
    match x
    case BasicConstraints(_, _) => BasicConstraintKind
    case AuthorityKeyId(_, _, _) => AkidKind
    case SubjectKeyId(_) => SkidKind
    case KeyUsage(_, _) => KeyUsageKind
    case ExtKeyUsage(_, _) => ExtKeyUsageKind
  }

  // An accepted value is the encoding of a well-formed extension of the kind asked for.
  lemma ValueSound(kind: Kind, b: buffer, i: nat, e: nat, critical: bool)
    requires e <= |b| && ValueAt(kind, b, i, e, critical).Ok?
    ensures var x := ReadExtension(b, ValueAt(kind, b, i, e, critical).value);
      && !x.Other? && KindOf(x) == kind
      && WellFormed(x) && At(b, i, EncodeValue(x)) && e == i + |EncodeValue(x)|
      && (x.KeyUsage? || x.ExtKeyUsage? ==> x.critical == critical)
  {
    hide BasicConstraintAt, AkidAt, SkidAt, KeyUsageAt, ExtKeyUsageAt, At, EncodeValue, ReadExtension;
    match kind
    case BasicConstraintKind => BasicConstraintSound(b, i, e);
    case AkidKind => AkidSound(b, i, e);
    case SkidKind => SkidSound(b, i, e);
    case KeyUsageKind => KeyUsageSound(b, i, e, critical);
    case ExtKeyUsageKind => ExtKeyUsageSound(b, i, e, critical);
  }

  lemma ValueComplete(b: buffer, i: nat, e: nat, x: Extension<bytes>)
    requires !x.Other? && WellFormed(x)
    requires e == i + |EncodeValue(x)| <= |b| && At(b, i, EncodeValue(x))
    ensures var r := ValueAt(KindOf(x), b, i, e, Critical(x)); r.Ok? && ReadExtension(b, r.value) == x
  {
    hide BasicConstraintAt, AkidAt, SkidAt, KeyUsageAt, ExtKeyUsageAt, At, EncodeValue, ReadExtension, WellFormed;
    match x
    case BasicConstraints(_, _) => BasicConstraintComplete(b, i, e, x);
    case AuthorityKeyId(_, _, _) => AkidComplete(b, i, e, x);
    case SubjectKeyId(_) => SkidComplete(b, i, e, x);
    case KeyUsage(_, _) => KeyUsageComplete(b, i, e, x);
    case ExtKeyUsage(_, _) => ExtKeyUsageComplete(b, i, e, x);
  }

  lemma WrapperSound(b: buffer, i: nat, e: nat)
    requires e <= |b| && WrapperAt(b, i, e).Ok?
    ensures var w := WrapperAt(b, i, e).value;
      var s := Wrap(Read(b, w.oid), w.critical, Read(b, w.value));
      At(b, i, s) && w.value.end == i + |s|
  {
    hide HeaderAt, Tlv, At, DefaultBool, DefaultBoolAt;
    HeaderSound(b, i, e);
    var h := HeaderAt(b, i, e).value;
    HeaderSound(b, h.start, h.end);
    var w := WrapperAt(b, i, e).value;
    DefaultBoolSound(b, w.oid.end, h.end);
    var j := DefaultBoolAt(b, w.oid.end, h.end).value.1;
    HeaderSound(b, j, h.end);
    var (o, c, v) := (Tlv(OID, Read(b, w.oid)), DefaultBool(w.critical), Tlv(OCTET_STRING, Read(b, w.value)));
    AtConcat(b, w.oid.end, c, v);
    AtConcat(b, h.start, o, c + v);
    AtWhole(b, h.start, h.end, o + (c + v));
  }

  lemma WrapperComplete(b: buffer, i: nat, e: nat, oid: bytes, critical: bool, value: bytes)
    requires var s := Wrap(oid, critical, value); At(b, i, s) && i + |s| <= e <= |b|
    ensures var r := WrapperAt(b, i, e); var end := i + |Wrap(oid, critical, value)|;
      r.Ok? && Read(b, r.value.oid) == oid && r.value.critical == critical &&
      r.value.value == Slice(end - |value|, end) && Read(b, r.value.value) == value && At(b, end - |value|, value)
  {
    hide HeaderAt, Tlv, At, DefaultBool, DefaultBoolAt;
    var (o, c, v) := (Tlv(OID, oid), DefaultBool(critical), Tlv(OCTET_STRING, value));
    var end := i + |Wrap(oid, critical, value)|;
    HeaderComplete(b, i, e, SEQUENCE, o + (c + v));
    var start := end - |o + (c + v)|;
    AtConcat(b, start, o, c + v);
    AtConcat(b, start + |o|, c, v);
    HeaderComplete(b, start, end, OID, oid);
    CriticalComplete(b, start + |o|, end, critical, value);
    HeaderComplete(b, start + |o| + |c|, end, OCTET_STRING, value);
  }

  lemma CriticalComplete(b: buffer, i: nat, e: nat, critical: bool, value: bytes)
    requires i <= e <= |b| && At(b, i, DefaultBool(critical) + Tlv(OCTET_STRING, value))
    requires e == i + |DefaultBool(critical) + Tlv(OCTET_STRING, value)|
    ensures DefaultBoolAt(b, i, e) == Ok((critical, i + |DefaultBool(critical)|))
  {
    hide HeaderAt, Tlv, At, DefaultBool;
    AtConcat(b, i, DefaultBool(critical), Tlv(OCTET_STRING, value));
    if critical {
      DefaultBoolTrue(b, i, e);
    } else {
      DefaultBoolFalse();
      OptionalAbsent(b, BOOLEAN, i, e, OCTET_STRING, value);
    }
  }

  // The OID and the criticality rule of each kind.
  function Entry(kind: Kind): SupportedExtn {
    match kind
    case BasicConstraintKind => SupportedExtn(BASIC_CONSTRAINT_OID, 3, kind)
    case AkidKind => SupportedExtn(AKID_OID, 2, kind)
    case SkidKind => SupportedExtn(SKID_OID, 2, kind)
    case KeyUsageKind => SupportedExtn(KEY_USAGE_OID, 0, kind)
    case ExtKeyUsageKind => SupportedExtn(EXT_KEY_USAGE_OID, 0, kind)
  }

  // The table holds one entry for each kind, and finds it by its OID.
  lemma TableHasKind(oid: bytes, kind: Kind)
    ensures Lookup(oid, 0) == Some(Entry(kind)) <==> oid == Entry(kind).oid
    ensures Lookup(oid, 0).Some? ==> Lookup(oid, 0).value == Entry(Lookup(oid, 0).value.kind)
  {
    TableOrder(oid);
  }

  lemma TableOrder(oid: bytes)
    ensures Lookup(oid, 0) ==
      if oid == BASIC_CONSTRAINT_OID then Some(Entry(BasicConstraintKind))
      else if oid == AKID_OID then Some(Entry(AkidKind))
      else if oid == SKID_OID then Some(Entry(SkidKind))
      else if oid == KEY_USAGE_OID then Some(Entry(KeyUsageKind))
      else if oid == EXT_KEY_USAGE_OID then Some(Entry(ExtKeyUsageKind))
      else None
  {
    assert Lookup(oid, 5) == None;
    assert Lookup(oid, 3) == if oid == KEY_USAGE_OID then Some(Entry(KeyUsageKind))
      else if oid == EXT_KEY_USAGE_OID then Some(Entry(ExtKeyUsageKind)) else None;
    assert Lookup(oid, 1) == if oid == AKID_OID then Some(Entry(AkidKind))
      else if oid == SKID_OID then Some(Entry(SkidKind)) else Lookup(oid, 3);
  }

  lemma RecognisedSound(b: buffer, w: Wrapper)
    requires w.value.start <= w.value.end <= |b| && RecognisedAt(b, w).Ok?
    ensures var x := ReadExtension(b, RecognisedAt(b, w).value);
      WellFormed(x) && OidOf(x) == Read(b, w.oid) && Critical(x) == w.critical && EncodeValue(x) == Read(b, w.value)
  {
    hide Lookup, ValueAt;
    var l := Lookup(Read(b, w.oid), 0);
    if l.Some? {
      hide At, EncodeValue, ReadExtension, WellFormed, BASIC_CONSTRAINT_OID, AKID_OID, SKID_OID, KEY_USAGE_OID,
        EXT_KEY_USAGE_OID;
      var kind := l.value.kind;
      TableHasKind(Read(b, w.oid), kind);
      ValueSound(kind, b, w.value.start, w.value.end, w.critical);
      var x := ReadExtension(b, RecognisedAt(b, w).value);
      AtWhole(b, w.value.start, w.value.end, EncodeValue(x));
    }
  }

  lemma RecognisedComplete(b: buffer, w: Wrapper, x: Extension<bytes>)
    requires WellFormed(x) && w.value.start <= w.value.end <= |b|
    requires Read(b, w.oid) == OidOf(x) && w.critical == Critical(x) && Read(b, w.value) == EncodeValue(x)
    ensures RecognisedAt(b, w).Ok? && ReadExtension(b, RecognisedAt(b, w).value) == x
  {
    hide Lookup, ValueAt;
    if !x.Other? {
      hide At, EncodeValue, ReadExtension, WellFormed, BASIC_CONSTRAINT_OID, AKID_OID, SKID_OID, KEY_USAGE_OID,
        EXT_KEY_USAGE_OID;
      TableHasKind(OidOf(x), KindOf(x));
      AtSlice(b, w.value.start, w.value.end);
      ValueComplete(b, w.value.start, w.value.end, x);
    }
  }

  lemma ExtensionSound(b: buffer, i: nat, e: nat)
    requires e <= |b| && WrapperAt(b, i, e).Ok? && RecognisedAt(b, WrapperAt(b, i, e).value).Ok?
    ensures var w := WrapperAt(b, i, e).value;
      var x := ReadExtension(b, RecognisedAt(b, w).value);
      && WellFormed(x) && OidOf(x) == Read(b, w.oid)
      && At(b, i, EncodeExtension(x)) && w.value.end == i + |EncodeExtension(x)|
  {
    hide WrapperAt, RecognisedAt, ReadExtension, WellFormed, OidOf, Critical, EncodeValue, Wrap, At;
    WrapperSound(b, i, e);
    RecognisedSound(b, WrapperAt(b, i, e).value);
  }

  lemma ExtensionComplete(b: buffer, i: nat, e: nat, x: Extension<bytes>)
    requires WellFormed(x) && At(b, i, EncodeExtension(x)) && i + |EncodeExtension(x)| <= e <= |b|
    ensures var r := WrapperAt(b, i, e);
      && r.Ok? && Read(b, r.value.oid) == OidOf(x) && r.value.value.end == i + |EncodeExtension(x)|
      && RecognisedAt(b, r.value).Ok? && ReadExtension(b, RecognisedAt(b, r.value).value) == x
  {
    hide WrapperAt, RecognisedAt, ReadExtension, WellFormed, OidOf, Critical, EncodeValue, Wrap, At;
    WrapperComplete(b, i, e, OidOf(x), Critical(x), EncodeValue(x));
    RecognisedComplete(b, WrapperAt(b, i, e).value, x);
  }

  lemma {:induction false} ListSound(b: buffer, i: nat, e: nat, seen: seq<bytes>)
    requires i <= e <= |b| && ListAt(b, i, e, seen).Ok?
    ensures var xs := ReadList(b, ListAt(b, i, e, seen).value);
      WellFormedList(xs, seen) && At(b, i, EncodeList(xs)) && e == i + |EncodeList(xs)|
    decreases |b| - i
  {
    hide WrapperAt, RecognisedAt, WellFormed, EncodeExtension, At, ReadExtension;
    AtEmpty(b, e);
    if i < e {
      ExtensionSound(b, i, e);
      var w := WrapperAt(b, i, e).value;
      var oid := Read(b, w.oid);
      ListSound(b, w.value.end, e, seen + [oid]);
      var x := ReadExtension(b, RecognisedAt(b, w).value);
      var rest := ReadList(b, ListAt(b, w.value.end, e, seen + [oid]).value);
      var xs := ReadList(b, ListAt(b, i, e, seen).value);
      assert xs[0] == x && xs[1..] == rest;
      AtConcat(b, i, EncodeExtension(x), EncodeList(rest));
    }
  }

  lemma {:induction false} ListComplete(b: buffer, i: nat, e: nat, seen: seq<bytes>, xs: seq<Extension<bytes>>)
    requires WellFormedList(xs, seen) && e == i + |EncodeList(xs)| <= |b| && At(b, i, EncodeList(xs))
    ensures var r := ListAt(b, i, e, seen); r.Ok? && ReadList(b, r.value) == xs
    decreases |xs|
  {
    hide WrapperAt, RecognisedAt, WellFormed, EncodeExtension, At, ReadExtension;
    if xs != [] {
      AtConcat(b, i, EncodeExtension(xs[0]), EncodeList(xs[1..]));
      ExtensionComplete(b, i, e, xs[0]);
      ListComplete(b, i + |EncodeExtension(xs[0])|, e, seen + [OidOf(xs[0])], xs[1..]);
      assert xs == [xs[0]] + xs[1..];
    }
  }

  // ---------------------------------------------------------------- what else is accepted

  // An empty list of purposes.
  lemma EmptyPurposesAccepted()
    ensures ExtKeyUsageAt([0x30, 0], 0, 2, false) == Ok(ExtKeyUsage(false, []))
  {
  }

  // A path length with superfluous zeros, against section 8.3.2 of X.690.
  lemma PaddedPathLengthAccepted()
    ensures var b: buffer := [0x30, 7, 1, 1, 0xff, 2, 2, 0, 5];
      BasicConstraintAt(b, 0, 9) == Ok(BasicConstraints(true, Some(Slice(7, 9))))
  {
  }
}
