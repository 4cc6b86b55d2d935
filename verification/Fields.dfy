/** The struct the parser fills in, and what each accepted extension records in it. */
module Fields {
  import opened Bytes
  import opened Der
  import opened Extensions
  import opened Usage

  // A start and an end index, of 64 bits each.
  type Range = s: Slice | s.start < TWO_TO_THE_64 && s.end < TWO_TO_THE_64 witness Slice(0, 0)

  /** Ranges of the certificate, and the summary of its validity and usage. */
  class X509Fields {
    var sigId: Range
    var sigOid: Range
    var sig: Range
    var pubKeyId: Range
    var pubKeyOid: Range
    var pubKey: Range
    var signedData: Range
    var certSerial: Range
    var skid: Range
    var akid: Range
    var notBefore: int
    var notAfter: int
    var keyCertSign: bool
    var pathLenConstraint: uint32
    var hasKeyUsage: bool
    var hasExtKeyUsage: bool
    var keyUsageFlags: uint32

    constructor () {}

    // The part the extensions write.
    function Extracted(): Found
      reads `skid, `akid, `keyCertSign, `pathLenConstraint, `hasKeyUsage, `hasExtKeyUsage, `keyUsageFlags
    {
      Found(skid, akid, Usage(keyCertSign, pathLenConstraint, hasKeyUsage, hasExtKeyUsage, keyUsageFlags))
    }

    function Contents(): View
      reads this
    {
      View(sigId, sigOid, sig, pubKeyId, pubKeyOid, pubKey, signedData, certSerial, notBefore, notAfter, Extracted())
    }

    method AssignDefaultExtensions()
      modifies `skid, `akid, `keyCertSign, `pathLenConstraint, `hasKeyUsage, `hasExtKeyUsage, `keyUsageFlags
      ensures Extracted() == NOTHING_FOUND
    {
      skid, akid := Slice(IDX_NONE, IDX_NONE), Slice(IDX_NONE, IDX_NONE);
      keyCertSign, pathLenConstraint := false, 0;
      hasKeyUsage, hasExtKeyUsage, keyUsageFlags := false, false, 0;
    }
  }

  datatype Found = Found(skid: Slice, akid: Slice, usage: Usage)

  const NOTHING_FOUND: Found := Found(Slice(0, 0), Slice(0, 0), NO_USAGE)

  // The contents of an X509Fields.
  datatype View = View(
    sigId: Slice, sigOid: Slice, sig: Slice,
    pubKeyId: Slice, pubKeyOid: Slice, pubKey: Slice,
    signedData: Slice, certSerial: Slice,
    notBefore: int, notAfter: int, found: Found)

  // What an extension records. An authority identifier without a key identifier resets the end
  // index only.
  function Record(b: bytes, f: Found, x: Extension<Slice>): Found {
    var usage := Note(f.usage, ReadExtension(b, x));
    match x
    case SubjectKeyId(k) => Found(k, f.akid, usage)
    case AuthorityKeyId(Some(k), _, _) => Found(f.skid, k, usage)
    case AuthorityKeyId(None, _, _) => Found(f.skid, Slice(f.akid.start, 0), usage)
    case _ => f.(usage := usage)
  }

  function RecordAll(b: bytes, f: Found, xs: seq<Extension<Slice>>): Found
    decreases |xs|
  {
    if xs == [] then f else RecordAll(b, Record(b, f, xs[0]), xs[1..])
  }

  // ---------------------------------------------------------------- what is found

  // The usage recorded is the summary of the extensions read.
  lemma {:induction false} RecordedUsage(b: bytes, f: Found, xs: seq<Extension<Slice>>)
    ensures RecordAll(b, f, xs).usage == NoteAll(f.usage, ReadList(b, xs))
    decreases |xs|
  {
    hide Note, ReadExtension;
    if xs != [] {
      RecordedUsage(b, Record(b, f, xs[0]), xs[1..]);
      assert ReadList(b, xs)[1..] == ReadList(b, xs[1..]);
    }
  }

  // A key identifier as recorded: presence is a non-zero start.
  function KeyIdentifier(b: bytes, s: Slice): Option<bytes> {
    if s.start != 0 then Some(Read(b, s)) else None
  }

  function SubjectKeyIdentifier(xs: seq<Extension<bytes>>): Option<bytes> {
    match Find(xs, SKID_OID)
    case Some(SubjectKeyId(k)) => Some(k)
    case _ => None
  }

  function AuthorityKeyIdentifier(xs: seq<Extension<bytes>>): Option<bytes> {
    match Find(xs, AKID_OID)
    case Some(AuthorityKeyId(k, _, _)) => k
    case _ => None
  }

  // A key identifier is recorded by its indices inside outer, its absence by the sentinel in both.
  ghost predicate Recorded(b: bytes, s: Slice, outer: Slice, id: Option<bytes>) {
    match id
    case Some(k) => s.start > 0 && Inside(s, outer) && Read(b, s) == k
    case None => s == Slice(0, 0)
  }

  // The key identifier of an extension stands inside outer.
  ghost predicate KeyIdInside(x: Extension<Slice>, outer: Slice) {
    match x
    case SubjectKeyId(k) => Inside(k, outer)
    case AuthorityKeyId(Some(k), _, _) => Inside(k, outer)
    case _ => true
  }

  lemma {:induction false} ListInside(b: buffer, i: nat, e: nat, seen: seq<bytes>)
    requires e <= |b| && ListAt(b, i, e, seen).Ok?
    ensures forall x <- ListAt(b, i, e, seen).value :: KeyIdInside(x, Slice(i, e))
    decreases |b| - i
  {
    hide HeaderAt, Lookup;
    if i < e {
      var w := WrapperAt(b, i, e).value;
      ListInside(b, w.value.end, e, seen + [Read(b, w.oid)]);
      RecognisedInside(b, w);
    }
  }

  lemma ValueInside(kind: Kind, b: buffer, w: Wrapper)
    requires w.value.end <= |b| && ValueAt(kind, b, w.value.start, w.value.end, w.critical).Ok?
    ensures KeyIdInside(ValueAt(kind, b, w.value.start, w.value.end, w.critical).value, w.value)
  {
    hide HeaderAt, CanonicalBits, PurposesAt, OptionalSliceAt, DefaultBoolAt, Read;
  }

  lemma RecognisedInside(b: buffer, w: Wrapper)
    requires w.value.end <= |b| && RecognisedAt(b, w).Ok?
    ensures KeyIdInside(RecognisedAt(b, w).value, w.value)
  {
    hide HeaderAt, Lookup, CanonicalBits, PurposesAt, OptionalSliceAt, DefaultBoolAt, KeyUsageAt, BasicConstraintAt,
      ExtKeyUsageAt;
    var l := Lookup(Read(b, w.oid), 0);
    if l.Some? { ValueInside(l.value.kind, b, w); }
  }

  // The subject key identifier recorded is that of the extensions read, if they have one.
  lemma {:induction false} RecordedSkid(b: bytes, f: Found, xs: seq<Extension<Slice>>, seen: seq<bytes>, outer: Slice)
    requires WellFormedList(ReadList(b, xs), seen) && outer.start > 0 && forall x <- xs :: KeyIdInside(x, outer)
    ensures var (r, ys) := (RecordAll(b, f, xs), ReadList(b, xs));
      if Find(ys, SKID_OID).None? then r.skid == f.skid else Recorded(b, r.skid, outer, SubjectKeyIdentifier(ys))
    decreases |xs|
  {
    hide Note, WellFormed, OidOf, Read;
    if xs != [] {
      var (x, y, ys) := (xs[0], ReadExtension(b, xs[0]), ReadList(b, xs));
      assert KeyIdInside(x, outer) && y == ys[0] && ys[1..] == ReadList(b, xs[1..]);
      var seen' := seen + [OidOf(y)];
      RecordedSkid(b, Record(b, f, x), xs[1..], seen', outer);
      FindNotSeen(ys[1..], seen', OidOf(y));
      OidKind(y);
    }
  }

  lemma {:induction false} RecordedAkid(b: bytes, f: Found, xs: seq<Extension<Slice>>, seen: seq<bytes>, outer: Slice)
    requires WellFormedList(ReadList(b, xs), seen) && outer.start > 0 && forall x <- xs :: KeyIdInside(x, outer)
    ensures var (r, ys) := (RecordAll(b, f, xs), ReadList(b, xs));
      if Find(ys, AKID_OID).None? then r.akid == f.akid
      else if AuthorityKeyIdentifier(ys).None? then r.akid == Slice(f.akid.start, IDX_NONE)
      else Recorded(b, r.akid, outer, AuthorityKeyIdentifier(ys))
    decreases |xs|
  {
    hide Note, WellFormed, OidOf, Read;
    if xs != [] {
      var (x, y, ys) := (xs[0], ReadExtension(b, xs[0]), ReadList(b, xs));
      assert KeyIdInside(x, outer) && y == ys[0] && ys[1..] == ReadList(b, xs[1..]);
      var seen' := seen + [OidOf(y)];
      RecordedAkid(b, Record(b, f, x), xs[1..], seen', outer);
      FindNotSeen(ys[1..], seen', OidOf(y));
      OidKind(y);
    }
  }

  // From the defaults: an identifier is recorded exactly when an extension carries one.
  lemma IdentifiersFound(b: bytes, xs: seq<Extension<Slice>>, outer: Slice)
    requires WellFormedList(ReadList(b, xs), []) && outer.start > 0 && forall x <- xs :: KeyIdInside(x, outer)
    ensures var (r, ys) := (RecordAll(b, NOTHING_FOUND, xs), ReadList(b, xs));
      && Recorded(b, r.skid, outer, SubjectKeyIdentifier(ys))
      && Recorded(b, r.akid, outer, AuthorityKeyIdentifier(ys))
  {
    hide RecordAll, ReadList, WellFormed, OidOf;
    RecordedSkid(b, NOTHING_FOUND, xs, [], outer);
    RecordedAkid(b, NOTHING_FOUND, xs, [], outer);
  }
}
