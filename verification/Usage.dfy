/**
 * What the extensions say about the key: CA flag, path length and the word of usage flags, which
 * the handlers gather one extension at a time, and why the order of the extensions is irrelevant.
 */
module Usage {
  import opened Bytes
  import opened Bits
  import opened Extensions

  // The fields of x509Fields that summarise the extensions.
  datatype Usage = Usage(
    keyCertSign: bool,
    pathLen: uint32,
    hasKeyUsage: bool,
    hasExtKeyUsage: bool,
    flags: uint32)

  const NO_USAGE: Usage := Usage(false, 0, false, false, 0)

  function Or32(x: uint32, y: uint32): uint32 {
    Pow2Values();
    OrBound(x, y, 32);
    Or(x, y)
  }

  // path_len_constraint = (path_len_constraint << 8) | octet, for each octet
  function Accumulate(p: uint32, s: bytes): uint32
    decreases |s|
  {
    if s == [] then p else Accumulate(p % 0x100_0000 * 256 + s[0], s[1..])
  }

  // The second octet is shifted left by one, as the source has it.
  function KeyUsageFlags(bits: bytes): uint32 {
    if |bits| < 2 then 0 else Or32(bits[1], 2 * SecondOctet(bits))
  }

  function SecondOctet(bits: bytes): uint32 {
    if |bits| > 2 then bits[2] else 0
  }

  const KP_PREFIX: bytes := [0x2b, 0x06, 0x01, 0x05, 0x05, 0x07, 0x03]

  function PurposeFlag(oid: bytes): uint32 {
    if |oid| == 8 && oid[..7] == KP_PREFIX then
      match oid[7]
      case 0 => 0x1_0000
      case 1 => 0x2_0000
      case 2 => 0x4_0000
      case 3 => 0x8_0000
      case 4 => 0x10_0000
      case 8 => 0x20_0000
      case 9 => 0x40_0000
      case _ => 0
    else 0
  }

  function PurposesFlags(ps: seq<bytes>): uint32 {
    if ps == [] then 0 else Or32(PurposeFlag(ps[0]), PurposesFlags(ps[1..]))
  }

  // What one extension adds to the summary.
  function Note(u: Usage, x: Extension<bytes>): Usage {
    match x
    case BasicConstraints(ca, p) =>
      u.(keyCertSign := ca,
         pathLen := if !ca then u.pathLen else if p.Some? then Accumulate(u.pathLen, p.value) else MAX_UINT32)
    case KeyUsage(_, bits) => u.(hasKeyUsage := true, flags := Or32(u.flags, KeyUsageFlags(bits)))
    case ExtKeyUsage(_, ps) => u.(hasExtKeyUsage := true, flags := Or32(u.flags, PurposesFlags(ps)))
    case _ => u
  }

  function NoteAll(u: Usage, xs: seq<Extension<bytes>>): Usage
    decreases |xs|
  {
    if xs == [] then u else NoteAll(Note(u, xs[0]), xs[1..])
  }

  // ---------------------------------------------------------------- path length

  lemma SmallValue(s: bytes)
    requires |s| <= 4
    ensures Value(s) < TWO_TO_THE_32
    ensures |s| < 4 ==> Value(s) < 0x100_0000
  {
    Pow256Monotone(|s|, 4);
    assert Pow256(4) == TWO_TO_THE_32;
    if |s| < 4 {
      Pow256Monotone(|s|, 3);
      assert Pow256(3) == 0x100_0000;
    }
  }

  lemma AccumulateStep(p: uint32, t: bytes)
    requires t != [] && p < 0x100_0000
    ensures Accumulate(p, t) == Accumulate(256 * p + t[0], t[1..])
  {}

  lemma {:induction false} AccumulateIsValue(s: bytes, t: bytes)
    requires |s| + |t| <= 4
    ensures Value(s) < TWO_TO_THE_32
    ensures Accumulate(Value(s), t) == Value(s + t)
    decreases |t|
  {
    SmallValue(s);
    if t != [] {
      hide Value, Pow256, Accumulate;
      AccumulateStep(Value(s), t);
      ValueSnoc(s, t[0]);
      AccumulateIsValue(s + [t[0]], t[1..]);
      assert s + [t[0]] + t[1..] == s + t;
    } else {
      assert s + t == s;
    }
  }

  // Starting from the default of zero, the shifts compute the number the INTEGER denotes.
  lemma PathLengthIsValue(p: bytes)
    requires PathLength(p)
    ensures Accumulate(0, p) == Value(p)
  {
    AccumulateIsValue([], p);
    assert [] + p == p;
  }

  // The path lengths are the numbers of up to 31 bits.
  lemma PathLengthRange(p: bytes, n: nat)
    ensures PathLength(p) ==> Value(p) < 0x8000_0000
    ensures n < 0x8000_0000 ==> PathLength(FourOctets(n)) && Value(FourOctets(n)) == n
  {
    hide Value;
    if PathLength(p) {
      if |p| == 4 {
        ValueOfFour(p);
      } else {
        SmallValue(p);
      }
    }
    if n < 0x8000_0000 { ValueOfFour(FourOctets(n)); }
  }

  // The last four octets of a number.
  function FourOctets(n: nat): bytes {
    var (x, y, z) := (n / 0x100, n / 0x100 / 0x100, n / 0x100 / 0x100 / 0x100);
    [z % 0x100, y % 0x100, x % 0x100, n % 0x100]
  }

  lemma ValueOfFour(s: bytes)
    requires |s| == 4
    ensures var (w: nat, x: nat, y: nat, z: nat) := (s[0], s[1], s[2], s[3]);
      Value(s) == 0x100_0000 * w + 0x1_0000 * x + 0x100 * y + z
  {
    hide Value;
    var (t, u, v) := (s[..1], s[..2], s[..3]);
    ValueSnoc(v, s[3]);
    ValueSnoc(u, s[2]);
    ValueSnoc(t, s[1]);
    ValueSnoc([], s[0]);
    assert Value([]) == 0 by { NothingIsZero(); }
    assert v + [s[3]] == s && u + [s[2]] == v && t + [s[1]] == u && [] + [s[0]] == t;
  }

  lemma NothingIsZero()
    ensures Value([]) == 0
  {
  }

  // ---------------------------------------------------------------- KeyUsage

  // Bit j of the BIT STRING whose content octets are given: bit 0 is the high bit of the first
  // octet after the count of unused bits.
  predicate NamedBit(bits: bytes, j: nat) {
    1 + j / 8 < |bits| && Bit(bits[1 + j / 8], 7 - j % 8)
  }

  function TrailingZeros(x: nat): (n: nat)
    requires x > 0
    ensures Bit(x, n) && LowBitsClear(x, n)
  {
    if x % 2 == 1 then 0 else TrailingZeros(x / 2) + 1
  }

  lemma {:induction false} LowestBitUnique(x: nat, n: nat)
    requires x > 0 && Bit(x, n) && LowBitsClear(x, n)
    ensures n == TrailingZeros(x)
  {
    if n > 0 { LowestBitUnique(x / 2, n - 1); }
  }

  // The count of unused bits is forced by the last octet.
  lemma CanonicalCount(bits: bytes)
    requires CanonicalBits(bits)
    ensures bits[|bits| - 1] > 0 && bits[0] == TrailingZeros(bits[|bits| - 1])
  {
    var last := bits[|bits| - 1];
    if last == 0 { BitZero(bits[0]); }
    LowestBitUnique(last, bits[0]);
  }

  lemma OctetDetermined(x: byte, y: byte)
    requires forall k | 0 <= k < 8 :: Bit(x, k) <==> Bit(y, k)
    ensures x == y
  {
    Pow2Values();
    forall k: nat ensures Bit(x, k) <==> Bit(y, k) {
      if k >= 8 {
        BitBound(x, 8, k);
        BitBound(y, 8, k);
      }
    }
    SameBits(x, y);
  }

  // Two accepted encodings of the same set of bits are the same octets.
  lemma KeyUsageEncodingUnique(s: bytes, t: bytes)
    requires CanonicalBits(s) && CanonicalBits(t)
    requires forall j | 0 <= j < 16 :: NamedBit(s, j) <==> NamedBit(t, j)
    ensures s == t
  {
    CanonicalCount(s);
    CanonicalCount(t);
    if |s| != |t| {
      LastBitIsNamed(s);
      LastBitIsNamed(t);
    } else {
      forall i | 1 <= i < |s| ensures s[i] == t[i] {
        forall k | 0 <= k < 8 ensures Bit(s[i], k) <==> Bit(t[i], k) {
          var j := 8 * (i - 1) + 7 - k;
          assert NamedBit(s, j) <==> NamedBit(t, j);
        }
        OctetDetermined(s[i], t[i]);
      }
    }
  }

  lemma LastBitIsNamed(s: bytes)
    requires CanonicalBits(s)
    ensures NamedBit(s, 8 * (|s| - 2) + 7 - s[0])
  {}

  // The octet whose high bits are the first n members of a set of bit positions.
  function Octet(bits: set<nat>, n: nat): (x: nat)
    ensures x < Pow2(n)
  {
    if n == 0 then 0 else 2 * Octet(bits, n - 1) + if n - 1 in bits then 1 else 0
  }

  lemma {:induction false} BitOfOctet(bits: set<nat>, n: nat, j: nat)
    requires j < n
    ensures Bit(Octet(bits, n), n - 1 - j) <==> j in bits
  {
    assert Octet(bits, n) / 2 == Octet(bits, n - 1);
    if j < n - 1 { BitOfOctet(bits, n - 1, j); }
  }

  // The encoding of a non-empty set of the nine named bits.
  function KeyUsageEncoding(bits: set<nat>): bytes
    requires bits != {} && forall j <- bits :: j <= 8
  {
    Pow2Values();
    var octet: byte := Octet(bits, 8);
    if 8 in bits then [7, octet, 0x80]
    else
      SomeBitSet(bits);
      [TrailingZeros(octet), octet]
  }

  lemma SomeBitSet(bits: set<nat>)
    requires bits != {} && (forall j <- bits :: j <= 8) && 8 !in bits
    ensures 0 < Octet(bits, 8) < 256 && TrailingZeros(Octet(bits, 8)) < 8
  {
    Pow2Values();
    var j :| j in bits;
    BitOfOctet(bits, 8, j);
    if Octet(bits, 8) == 0 { BitZero(7 - j); }
    var n := TrailingZeros(Octet(bits, 8));
    if n >= 8 { BitBound(Octet(bits, 8), 8, n); }
  }

  // Every non-empty set of named bits has an accepted encoding, which denotes that set; with
  // KeyUsageEncodingUnique, exactly one.
  lemma KeyUsageEncodingExists(bits: set<nat>)
    requires bits != {} && forall j <- bits :: j <= 8
    ensures var s := KeyUsageEncoding(bits);
      CanonicalBits(s) && forall j | 0 <= j < 16 :: NamedBit(s, j) <==> j in bits
  {
    var s := KeyUsageEncoding(bits);
    Pow2Values();
    forall j | 0 <= j < 16 ensures NamedBit(s, j) <==> j in bits {
      if j < 8 {
        BitOfOctet(bits, 8, j);
      } else if 8 in bits {
        BitOfPow2(7, 15 - j);
      }
    }
    if 8 in bits {
      BitOfPow2(7, 7);
      LowBitsOfPow2(7);
    } else {
      SomeBitSet(bits);
    }
  }

  lemma BitOfKeyUsageFlags(bits: bytes, k: nat)
    requires CanonicalBits(bits)
    ensures Bit(KeyUsageFlags(bits), k) <==>
      Bit(bits[1], k) || (k > 0 && |bits| == 3 && Bit(bits[2], k - 1))
  {
    BitOr(bits[1], 2 * SecondOctet(bits), k);
    BitZero(k);
    assert 2 * SecondOctet(bits) / 2 == SecondOctet(bits);
    if k > 0 { BitZero(k - 1); }
  }

  // The header places named bit j < 8 at flag 7 - j and decipherOnly, bit 8, at flag 15.
  predicate FlagsAsDeclared(bits: bytes) {
    && (forall j | 0 <= j < 8 :: Bit(KeyUsageFlags(bits), 7 - j) <==> NamedBit(bits, j))
    && (Bit(KeyUsageFlags(bits), 15) <==> NamedBit(bits, 8))
  }

  // The handler shifts the second octet by one. So the flags are as declared exactly when
  // decipherOnly is not set and no unnamed bit, which lands nine places up, adds a named one.
  lemma KeyUsageFlagsExact(bits: bytes)
    requires CanonicalBits(bits)
    ensures FlagsAsDeclared(bits) <==>
      !NamedBit(bits, 8) && forall j | 0 <= j < 7 :: NamedBit(bits, j + 9) ==> NamedBit(bits, j)
    ensures KeyUsageFlags(bits) < 512
  {
    hide Or, Bit, LowBitsClear, KeyUsageFlags;
    NoHighFlags(bits);
    if FlagsAsDeclared(bits) {
      forall j | 0 <= j < 7 && NamedBit(bits, j + 9) ensures NamedBit(bits, j) {
        FlagOfNamedBit(bits, j);
      }
    } else if !NamedBit(bits, 8) {
      var j :| 0 <= j < 8 && (Bit(KeyUsageFlags(bits), 7 - j) <==> !NamedBit(bits, j));
      FlagOfNamedBit(bits, j);
      assert j < 7 && NamedBit(bits, j + 9) && !NamedBit(bits, j);
    }
  }

  lemma NoHighFlags(bits: bytes)
    requires |bits| >= 2
    ensures KeyUsageFlags(bits) < 512 && !Bit(KeyUsageFlags(bits), 15)
  {
    Pow2Values();
    OrBound(bits[1], 2 * SecondOctet(bits), 9);
    BitBound(KeyUsageFlags(bits), 9, 15);
  }

  lemma FlagOfNamedBit(bits: bytes, j: nat)
    requires CanonicalBits(bits) && j < 8
    ensures Bit(KeyUsageFlags(bits), 7 - j) <==> NamedBit(bits, j) || NamedBit(bits, j + 9)
  {
    BitOfKeyUsageFlags(bits, 7 - j);
    if j < 7 { assert (j + 9) / 8 == 1 && (j + 9) % 8 == j + 1; }
  }

  // With a single octet the flags are that octet.
  lemma OneOctetFlags(bits: bytes)
    requires CanonicalBits(bits) && |bits| == 2
    ensures KeyUsageFlags(bits) == bits[1]
  {
    OrZero(bits[1]);
  }

  // A KeyUsage that sets only the unnamed bit 9 passes for digitalSignature.
  lemma UnnamedBitPassesForSignature()
    ensures var bits := [6, 0x00, 0x40];
      CanonicalBits(bits) && !NamedBit(bits, 0) && KeyUsageFlags(bits) == 0x80
  {
    Pow2Values();
    BitOfPow2(6, 6);
    LowBitsOfPow2(6);
    BitZero(7);
    OrZero(0x80);
  }

  // ---------------------------------------------------------------- ExtKeyUsage

  // The flag a purpose stands for, by its position.
  function PurposeBit(oid: bytes): Option<nat> {
    if |oid| != 8 || oid[..7] != KP_PREFIX then None
    else if oid[7] <= 4 then Some(16 + oid[7])
    else if oid[7] == 8 || oid[7] == 9 then Some(13 + oid[7])
    else None
  }

  // Each purpose of section 4.2.1.12 of RFC 5280 has the flag that the header gives it.
  lemma PurposeMeaning(oid: bytes, k: nat)
    ensures PurposeBit(oid) == Some(k) <==>
      exists n: byte :: oid == [0x2b, 6, 1, 5, 5, 7, 3, n] &&
        ((n == 0 && k == 16) || (n == 1 && k == 17) || (n == 2 && k == 18) || (n == 3 && k == 19) || (n == 4 && k == 20)
         || (n == 8 && k == 21) || (n == 9 && k == 22))
  {
    if |oid| == 8 {
      assert oid == oid[..7] + [oid[7]];
      if oid[..7] == KP_PREFIX { assert oid == [0x2b, 6, 1, 5, 5, 7, 3, oid[7]]; }
    }
    forall n: byte | oid == [0x2b, 6, 1, 5, 5, 7, 3, n] ensures oid[..7] == KP_PREFIX {}
  }

  lemma BitOfPurposeFlag(oid: bytes, k: nat)
    ensures Bit(PurposeFlag(oid), k) <==> PurposeBit(oid) == Some(k)
  {
    hide Bit, Pow2;
    BitZero(k);
    if PurposeBit(oid).Some? {
      var n := PurposeBit(oid).value;
      BitOfPow2(n, k);
      Pow2Values();
      assert PurposeFlag(oid) == Pow2(n);
    }
  }

  // A flag is set if and only if some listed purpose is the one it stands for: order and
  // repetition are irrelevant, and the flags stay clear of those of the KeyUsage.
  lemma {:induction false} BitOfPurposesFlags(ps: seq<bytes>, k: nat)
    ensures Bit(PurposesFlags(ps), k) <==> exists p <- ps :: PurposeBit(p) == Some(k)
    ensures Bit(PurposesFlags(ps), k) ==> 16 <= k <= 22
  {
    if ps == [] {
      BitZero(k);
    } else {
      BitOr(PurposeFlag(ps[0]), PurposesFlags(ps[1..]), k);
      BitOfPurposeFlag(ps[0], k);
      BitOfPurposesFlags(ps[1..], k);
      assert ps == [ps[0]] + ps[1..];
    }
  }

  // ---------------------------------------------------------------- order

  // The first extension with a given OID.
  function Find(xs: seq<Extension<bytes>>, oid: bytes): (r: Option<Extension<bytes>>)
    ensures r.Some? ==> r.value in xs && OidOf(r.value) == oid
  {
    if xs == [] then None else if OidOf(xs[0]) == oid then Some(xs[0]) else Find(xs[1..], oid)
  }

  // No OID occurs twice in a well-formed list, nor among those seen before.
  lemma {:induction false} UniqueOids(xs: seq<Extension<bytes>>, seen: seq<bytes>, x: Extension<bytes>)
    requires WellFormedList(xs, seen) && x in xs
    ensures WellFormed(x) && OidOf(x) !in seen && Find(xs, OidOf(x)) == Some(x)
  {
    if x != xs[0] {
      assert x in xs[1..];
      UniqueOids(xs[1..], seen + [OidOf(xs[0])], x);
    }
  }

  function FlagsOf(x: Option<Extension<bytes>>): uint32 {
    match x
    case Some(KeyUsage(_, bits)) => KeyUsageFlags(bits)
    case Some(ExtKeyUsage(_, ps)) => PurposesFlags(ps)
    case _ => 0
  }

  // The summary, read off the three extensions it depends on.
  function Summary(u: Usage, basic: Option<Extension<bytes>>, usage: Option<Extension<bytes>>,
      extended: Option<Extension<bytes>>): Usage
  {
    var v := if basic.Some? then Note(u, basic.value) else u;
    v.(hasKeyUsage := u.hasKeyUsage || usage.Some?,
       hasExtKeyUsage := u.hasExtKeyUsage || extended.Some?,
       flags := Or32(u.flags, Or32(FlagsOf(usage), FlagsOf(extended))))
  }

  lemma OidKind(x: Extension<bytes>)
    requires WellFormed(x)
    ensures OidOf(x) == BASIC_CONSTRAINT_OID <==> x.BasicConstraints?
    ensures OidOf(x) == KEY_USAGE_OID <==> x.KeyUsage?
    ensures OidOf(x) == EXT_KEY_USAGE_OID <==> x.ExtKeyUsage?
    ensures OidOf(x) == SKID_OID <==> x.SubjectKeyId?
    ensures OidOf(x) == AKID_OID <==> x.AuthorityKeyId?
  {
    hide Lookup;
    if x.Other? {
      TableHasKind(OidOf(x), BasicConstraintKind);
      TableHasKind(OidOf(x), KeyUsageKind);
      TableHasKind(OidOf(x), ExtKeyUsageKind);
      TableHasKind(OidOf(x), SkidKind);
      TableHasKind(OidOf(x), AkidKind);
    } else {
      assert BASIC_CONSTRAINT_OID[2] == 0x13 && AKID_OID[2] == 0x23 && SKID_OID[2] == 0x0e;
      assert KEY_USAGE_OID[2] == 0x0f && EXT_KEY_USAGE_OID[2] == 0x25;
    }
  }

  lemma OrRegroup(a: nat, b: nat, c: nat, d: nat)
    ensures Or(Or(a, b), Or(c, d)) == Or(a, Or(Or(b, c), d))
    ensures Or(Or(a, b), Or(c, d)) == Or(a, Or(c, Or(b, d)))
  {
    forall k: nat
      ensures Bit(Or(Or(a, b), Or(c, d)), k) <==> Bit(Or(a, Or(Or(b, c), d)), k)
      ensures Bit(Or(Or(a, b), Or(c, d)), k) <==> Bit(Or(a, Or(c, Or(b, d))), k)
    {
      BitOr(Or(a, b), Or(c, d), k);
      BitOr(a, b, k);
      BitOr(c, d, k);
      BitOr(a, Or(Or(b, c), d), k);
      BitOr(Or(b, c), d, k);
      BitOr(b, c, k);
      BitOr(a, Or(c, Or(b, d)), k);
      BitOr(c, Or(b, d), k);
      BitOr(b, d, k);
    }
    SameBits(Or(Or(a, b), Or(c, d)), Or(a, Or(Or(b, c), d)));
    SameBits(Or(Or(a, b), Or(c, d)), Or(a, Or(c, Or(b, d))));
  }

  lemma {:induction false} FindNotSeen(xs: seq<Extension<bytes>>, seen: seq<bytes>, oid: bytes)
    requires WellFormedList(xs, seen) && oid in seen
    ensures Find(xs, oid) == None
  {
    if Find(xs, oid).Some? { UniqueOids(xs, seen, Find(xs, oid).value); }
  }

  lemma SummaryStep(u: Usage, x: Extension<bytes>, basic: Option<Extension<bytes>>, usage: Option<Extension<bytes>>,
      extended: Option<Extension<bytes>>)
    requires x.BasicConstraints? ==> basic.None?
    requires x.KeyUsage? ==> usage.None?
    requires x.ExtKeyUsage? ==> extended.None?
    requires basic.Some? ==> basic.value.BasicConstraints?
    ensures Summary(Note(u, x), basic, usage, extended) == Summary(u,
      if x.BasicConstraints? then Some(x) else basic,
      if x.KeyUsage? then Some(x) else usage,
      if x.ExtKeyUsage? then Some(x) else extended)
  {
    hide Or, Accumulate, KeyUsageFlags, PurposesFlags;
    if x.KeyUsage? {
      OrRegroup(u.flags, KeyUsageFlags(x.bits), 0, FlagsOf(extended));
      OrZero(KeyUsageFlags(x.bits));
    } else if x.ExtKeyUsage? {
      OrRegroup(u.flags, PurposesFlags(x.purposes), FlagsOf(usage), 0);
      OrZero(PurposesFlags(x.purposes));
    }
  }

  // Gathering extension by extension gives what the three relevant extensions say.
  lemma {:induction false} NoteAllIsSummary(u: Usage, xs: seq<Extension<bytes>>, seen: seq<bytes>)
    requires WellFormedList(xs, seen)
    ensures NoteAll(u, xs)
      == Summary(u, Find(xs, BASIC_CONSTRAINT_OID), Find(xs, KEY_USAGE_OID), Find(xs, EXT_KEY_USAGE_OID))
    decreases |xs|
  {
    hide Or, Note, WellFormed, OidOf;
    if xs == [] {
      OrZero(0);
      OrZero(u.flags);
    } else {
      var (x, rest) := (xs[0], xs[1..]);
      var seen' := seen + [OidOf(x)];
      NoteAllIsSummary(Note(u, x), rest, seen');
      OidKind(x);
      var (basic, usage) := (Find(rest, BASIC_CONSTRAINT_OID), Find(rest, KEY_USAGE_OID));
      var extended := Find(rest, EXT_KEY_USAGE_OID);
      if basic.Some? { UniqueOids(rest, seen', basic.value); OidKind(basic.value); }
      FindNotSeen(rest, seen', OidOf(x));
      SummaryStep(u, x, basic, usage, extended);
    }
  }

  // What the header promises of the summary: CA as the extension says; the path length it gives,
  // the largest number if it gives none and zero if it is not a CA; and which usages are there.
  lemma SummaryAsDocumented(xs: seq<Extension<bytes>>)
    requires WellFormedList(xs, [])
    ensures var u := NoteAll(NO_USAGE, xs);
      && (u.keyCertSign <==> exists x <- xs :: x.BasicConstraints? && x.ca)
      && (u.hasKeyUsage <==> exists x <- xs :: x.KeyUsage?)
      && (u.hasExtKeyUsage <==> exists x <- xs :: x.ExtKeyUsage?)
      && (!u.keyCertSign ==> u.pathLen == 0)
      && forall x <- xs :: x.BasicConstraints? && x.ca ==>
           u.pathLen == if x.pathLen.Some? then Value(x.pathLen.value) else 0xffff_ffff
  {
    hide Or, Accumulate, KeyUsageFlags, PurposesFlags, WellFormedList, NoteAll, Find, CanonicalBits;
    NoteAllIsSummary(NO_USAGE, xs, []);
    forall x <- xs
      ensures Find(xs, OidOf(x)) == Some(x) && WellFormed(x)
      ensures x.BasicConstraints? && x.pathLen.Some? ==> Accumulate(0, x.pathLen.value) == Value(x.pathLen.value)
    {
      UniqueOids(xs, [], x);
      if x.BasicConstraints? && x.pathLen.Some? { PathLengthIsValue(x.pathLen.value); }
    }
    forall oid | Find(xs, oid).Some?
      ensures var x := Find(xs, oid).value;
        && x in xs && WellFormed(x)
        && (oid == BASIC_CONSTRAINT_OID <==> x.BasicConstraints?)
        && (oid == KEY_USAGE_OID <==> x.KeyUsage?)
        && (oid == EXT_KEY_USAGE_OID <==> x.ExtKeyUsage?)
    {
      FoundIsOfKind(xs, oid);
    }
  }

  // And that the flags of a usage that is missing are zero.
  lemma MissingUsageHasNoFlags(xs: seq<Extension<bytes>>)
    requires WellFormedList(xs, [])
    ensures var u := NoteAll(NO_USAGE, xs);
      && (!u.hasKeyUsage ==> forall k: nat | k < 16 :: !Bit(u.flags, k))
      && (!u.hasExtKeyUsage ==> forall k: nat | k >= 9 :: !Bit(u.flags, k))
  {
    hide Bit, Or, KeyUsageFlags, PurposesFlags, WellFormedList, NoteAll, Find, LowBitsClear;
    NoteAllIsSummary(NO_USAGE, xs, []);
    var (usage, extended) := (Find(xs, KEY_USAGE_OID), Find(xs, EXT_KEY_USAGE_OID));
    if usage.Some? { FoundIsOfKind(xs, KEY_USAGE_OID); }
    if extended.Some? { FoundIsOfKind(xs, EXT_KEY_USAGE_OID); }
    var (f, g) := (FlagsOf(usage), FlagsOf(extended));
    forall k: nat
      ensures Bit(Or32(0, Or32(f, g)), k) <==> Bit(f, k) || Bit(g, k)
      ensures usage.None? ==> !Bit(f, k)
      ensures usage.Some? && k >= 9 ==> !Bit(f, k)
      ensures extended.None? ==> !Bit(g, k)
      ensures extended.Some? && k < 16 ==> !Bit(g, k)
    {
      OrZero(Or(f, g));
      BitOr(f, g, k);
      BitZero(k);
      if usage.Some? {
        NoHighFlags(usage.value.bits);
        if k >= 9 { Pow2Values(); BitBound(f, 9, k); }
      }
      if extended.Some? { BitOfPurposesFlags(extended.value.purposes, k); }
    }
  }

  lemma FoundIsOfKind(xs: seq<Extension<bytes>>, oid: bytes)
    requires WellFormedList(xs, [])
    requires Find(xs, oid).Some?
    ensures var x := Find(xs, oid).value;
      && x in xs && WellFormed(x)
      && (oid == BASIC_CONSTRAINT_OID <==> x.BasicConstraints?)
      && (oid == KEY_USAGE_OID <==> x.KeyUsage?)
      && (oid == EXT_KEY_USAGE_OID <==> x.ExtKeyUsage?)
  {
    hide WellFormed, OidOf, WellFormedList;
    var x := Find(xs, oid).value;
    UniqueOids(xs, [], x);
    OidKind(x);
  }

  lemma {:induction false} PermutedFind(xs: seq<Extension<bytes>>, ys: seq<Extension<bytes>>, oid: bytes)
    requires WellFormedList(xs, []) && WellFormedList(ys, []) && multiset(xs) == multiset(ys)
    ensures Find(xs, oid) == Find(ys, oid)
  {
    var (f, g) := (Find(xs, oid), Find(ys, oid));
    if f.Some? {
      assert f.value in multiset(xs);
      UniqueOids(ys, [], f.value);
    } else if g.Some? {
      assert g.value in multiset(ys);
      UniqueOids(xs, [], g.value);
    }
  }

  // The order of the extensions does not matter.
  lemma OrderIrrelevant(xs: seq<Extension<bytes>>, ys: seq<Extension<bytes>>)
    requires WellFormedList(xs, []) && WellFormedList(ys, []) && multiset(xs) == multiset(ys)
    ensures NoteAll(NO_USAGE, xs) == NoteAll(NO_USAGE, ys)
    ensures Find(xs, SKID_OID) == Find(ys, SKID_OID) && Find(xs, AKID_OID) == Find(ys, AKID_OID)
  {
    hide NoteAll, Find, Summary, WellFormedList;
    NoteAllIsSummary(NO_USAGE, xs, []);
    NoteAllIsSummary(NO_USAGE, ys, []);
    PermutedFind(xs, ys, BASIC_CONSTRAINT_OID);
    PermutedFind(xs, ys, KEY_USAGE_OID);
    PermutedFind(xs, ys, EXT_KEY_USAGE_OID);
    PermutedFind(xs, ys, SKID_OID);
    PermutedFind(xs, ys, AKID_OID);
  }
}
