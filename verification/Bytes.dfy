/** Machine integers, byte strings, slices of a buffer, and big-endian numbers. */
module Bytes {
  const TWO_TO_THE_32: nat := 0x1_0000_0000
  const TWO_TO_THE_63: nat := 0x8000_0000_0000_0000
  const TWO_TO_THE_64: nat := 0x1_0000_0000_0000_0000

  type byte = x: int | 0 <= x < 256
  type bytes = seq<byte>

  // The source's unsigned words. Storing a value in a variable of one of these types
  // obliges the verifier to show that the computation did not wrap around.
  type uint32 = x: int | 0 <= x < TWO_TO_THE_32
  type uint64 = x: int | 0 <= x < TWO_TO_THE_64

  // No object is larger than PTRDIFF_MAX bytes on the 64-bit platforms the source supports.
  type buffer = s: bytes | |s| < TWO_TO_THE_63

  datatype Option<+T> = None | Some(value: T)

  // A half-open range of positions of some buffer.
  datatype Slice = Slice(start: nat, end: nat)

  // The bytes a slice selects (nothing if it does not fit the buffer).
  function Read(b: bytes, s: Slice): bytes {
    if s.start <= s.end <= |b| then b[s.start..s.end] else []
  }

  predicate Inside(s: Slice, outer: Slice) {
    outer.start <= s.start <= s.end <= outer.end
  }

  // All of a buffer.
  function Whole(b: bytes): Slice {
    Slice(0, |b|)
  }

  // The bytes of a slice that fits.
  function Cut(b: bytes, s: Slice): (r: bytes)
    requires Inside(s, Whole(b))
    ensures r == Read(b, s)
  {
    b[s.start..s.end]
  }

  // The string s stands in b at position i.
  ghost predicate At(b: bytes, i: nat, s: bytes) {
    i + |s| <= |b| && b[i..i + |s|] == s
  }

  lemma AtConcat(b: bytes, i: nat, s: bytes, t: bytes)
    ensures At(b, i, s + t) <==> At(b, i, s) && At(b, i + |s|, t)
  {
    if At(b, i, s) && At(b, i + |s|, t) {
      assert b[i..i + |s + t|] == b[i..i + |s|] + b[i + |s|..i + |s| + |t|];
    }
    if At(b, i, s + t) {
      assert b[i..i + |s|] == b[i..i + |s + t|][..|s|];
      assert b[i + |s|..i + |s| + |t|] == b[i..i + |s + t|][|s|..];
    }
  }

  lemma AtSlice(b: bytes, i: nat, j: nat)
    requires i <= j <= |b|
    ensures At(b, i, b[i..j])
  {}

  lemma SliceCons(b: bytes, i: nat, j: nat)
    requires i < j <= |b|
    ensures b[i..j] == [b[i]] + b[i + 1..j]
  {}

  lemma AtOctet(b: bytes, i: nat, x: byte)
    ensures At(b, i, [x]) <==> i < |b| && b[i] == x
  {
    if i < |b| { assert b[i..i + 1] == [b[i]]; }
  }

  lemma AtEmpty(b: bytes, i: nat)
    requires i <= |b|
    ensures At(b, i, [])
  {}

  lemma AtWhole(b: bytes, i: nat, j: nat, s: bytes)
    requires At(b, i, s) && j == i + |s|
    ensures j <= |b| && b[i..j] == s
  {}

  function Pow256(k: nat): (p: nat)
    ensures p >= 1
  {
    if k == 0 then 1 else 256 * Pow256(k - 1)
  }

  lemma Pow256Eight()
    ensures Pow256(8) == TWO_TO_THE_64
  {
    assert Pow256(2) == 0x1_0000;
    assert Pow256(4) == 0x1_0000_0000;
    assert Pow256(6) == 0x1_0000_0000_0000;
  }

  lemma {:induction false} Pow256Monotone(j: nat, k: nat)
    requires j <= k
    ensures Pow256(j) <= Pow256(k)
  {
    if j < k { Pow256Monotone(j, k - 1); }
  }

  // The number a big-endian octet string denotes.
  function Value(s: bytes): (n: nat)
    ensures n < Pow256(|s|)
  {
    if s == [] then 0 else 256 * Value(s[..|s| - 1]) + s[|s| - 1]
  }

  lemma ValueSnoc(s: bytes, x: byte)
    ensures Value(s + [x]) == 256 * Value(s) + x
  {
    assert (s + [x])[..|s|] == s;
  }

  // The shortest big-endian octet string of a number (empty for zero).
  function BigEndian(n: nat): (s: bytes)
    ensures s != [] ==> s[0] != 0
    ensures s == [] <==> n == 0
  {
    if n == 0 then [] else BigEndian(n / 256) + [n % 256]
  }

  lemma {:induction false} ValueOfBigEndian(n: nat)
    ensures Value(BigEndian(n)) == n
  {
    if n != 0 {
      ValueOfBigEndian(n / 256);
      var s := BigEndian(n);
      assert s[..|s| - 1] == BigEndian(n / 256);
    }
  }

  lemma {:induction false} LeadingOctet(s: bytes)
    requires s != [] && s[0] != 0
    ensures Value(s) >= Pow256(|s| - 1)
  {
    if |s| > 1 { LeadingOctet(s[..|s| - 1]); }
  }

  lemma {:induction false} BigEndianOfValue(s: bytes)
    requires s != [] ==> s[0] != 0
    ensures BigEndian(Value(s)) == s
  {
    if s != [] {
      var t := s[..|s| - 1];
      BigEndianOfValue(t);
      LeadingOctet(s);
      assert Value(s) / 256 == Value(t) && Value(s) % 256 == s[|s| - 1];
      assert s == t + [s[|s| - 1]];
    }
  }

  lemma BigEndianSize(n: nat, k: nat)
    requires n < Pow256(k)
    ensures |BigEndian(n)| <= k
  {
    var s := BigEndian(n);
    ValueOfBigEndian(n);
    if |s| > k {
      Pow256Monotone(k, |s| - 1);
      LeadingOctet(s);
    }
  }
}
