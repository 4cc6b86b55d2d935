/**
 * The scan of the trusted keys when a connection terminates: expired keys are swapped out of the
 * list while the others are tried. The loop's bound is taken before the first turn, although the
 * list shrinks inside it; Intended is the loop that looks at the current size instead.
 */
module KeyScan {
  import opened Bytes
  import opened Policy

  const NEWLINE: byte := 10

  predicate HasExpired(k: PubKey, now: int) {
    now > k.expiry
  }

  // What was received, split as the key expects: signature, newline, script.
  function Split(k: PubKey, data: bytes): Option<(bytes, bytes)> {
    if k.expSigSize + 1 <= |data| && data[k.expSigSize] == NEWLINE
    then Some((data[..k.expSigSize], data[k.expSigSize + 1..]))
    else None
  }

  predicate Authenticates(k: PubKey, crypto: Crypto, data: bytes) {
    match Split(k, data)
    case Some((sig, script)) => crypto.verifies(k.material, script, sig)
    case None => false
  }

  datatype Outcome = Matched(key: PubKey) | Unmatched | AllExpired

  // The array of keys and how many of them are in the list.
  datatype Keys = Keys(all: seq<PubKey>, size: nat)

  predicate Valid(k: Keys) {
    1 <= k.size <= |k.all|
  }

  function Current(k: Keys): seq<PubKey>
    requires Valid(k)
  {
    k.all[..k.size]
  }

  function Swap<T>(s: seq<T>, i: nat, j: nat): seq<T>
    requires i < |s| && j < |s|
  {
    s[i := s[j]][j := s[i]]
  }

  // Swap remove; only done when the list has another key.
  function Remove(k: Keys, i: nat): (r: Keys)
    requires Valid(k) && k.size > 1 && i < |k.all|
    ensures Valid(r) && |r.all| == |k.all|
  {
    Keys(Swap(k.all, i, k.size - 1), k.size - 1)
  }

  // The loop from position i, with the bound it was entered with.
  function Scan(k: Keys, i: nat, bound: nat, now: int, crypto: Crypto, data: bytes): (r: (Outcome, Keys))
    requires Valid(k) && i <= bound <= |k.all|
    ensures Valid(r.1) && |r.1.all| == |k.all|
    decreases k.size + bound - i
  {
    if i == bound then (Unmatched, k)
    else if HasExpired(k.all[i], now) then
      if k.size > 1 then Scan(Remove(k, i), i, bound, now, crypto, data) else (AllExpired, k)
    else if Authenticates(k.all[i], crypto, data) then (Matched(k.all[i]), k)
    else Scan(k, i + 1, bound, now, crypto, data)
  }

  // The same with the bound re-read: k.size - i decreases although i may stay.
  function Intended(k: Keys, i: nat, now: int, crypto: Crypto, data: bytes): (r: (Outcome, Keys))
    requires Valid(k) && i <= k.size
    ensures Valid(r.1) && |r.1.all| == |k.all|
    decreases k.size - i
  {
    if i == k.size then (Unmatched, k)
    else if HasExpired(k.all[i], now) then
      if k.size > 1 then Intended(Remove(k, i), i, now, crypto, data) else (AllExpired, k)
    else if Authenticates(k.all[i], crypto, data) then (Matched(k.all[i]), k)
    else Intended(k, i + 1, now, crypto, data)
  }

  // ---------------------------------------------------------------- filter, then try each

  function Unexpired(s: seq<PubKey>, now: int): seq<PubKey> {
    if s == [] then []
    else Unexpired(s[..|s| - 1], now) + if HasExpired(s[|s| - 1], now) then [] else [s[|s| - 1]]
  }

  lemma {:induction false} UnexpiredConcat(s: seq<PubKey>, t: seq<PubKey>, now: int)
    ensures Unexpired(s + t, now) == Unexpired(s, now) + Unexpired(t, now)
  {
    if t == [] {
      assert s + t == s;
    } else {
      UnexpiredConcat(s, t[..|t| - 1], now);
      assert (s + t)[..|s + t| - 1] == s + t[..|t| - 1];
    }
  }

  lemma {:induction false} UnexpiredMembers(s: seq<PubKey>, now: int)
    ensures forall k :: k in Unexpired(s, now) <==> k in s && !HasExpired(k, now)
    ensures |Unexpired(s, now)| <= |s|
  {
    if s != [] {
      UnexpiredMembers(s[..|s| - 1], now);
      assert s == s[..|s| - 1] + [s[|s| - 1]];
    }
  }

  lemma {:induction false} AllUnexpired(s: seq<PubKey>, now: int)
    requires forall k <- s :: !HasExpired(k, now)
    ensures Unexpired(s, now) == s
  {
    if s != [] {
      AllUnexpired(s[..|s| - 1], now);
      assert s == s[..|s| - 1] + [s[|s| - 1]];
    }
  }

  lemma UnexpiredOne(k: PubKey, now: int)
    ensures Unexpired([k], now) == if HasExpired(k, now) then [] else [k]
  {
    assert [k][..0] == [];
  }

  // Putting the last key in the place of an expired one leaves the unexpired keys.
  lemma ReplaceKeepsUnexpired(a: seq<PubKey>, x: PubKey, b: seq<PubKey>, y: PubKey, now: int)
    requires HasExpired(x, now)
    ensures multiset(Unexpired(a + ([y] + b), now)) == multiset(Unexpired(a + ([x] + (b + [y])), now))
  {
    hide Unexpired, HasExpired;
    UnexpiredOne(x, now);
    UnexpiredConcat(a, [x] + (b + [y]), now);
    UnexpiredConcat([x], b + [y], now);
    UnexpiredConcat(b, [y], now);
    UnexpiredConcat(a, [y] + b, now);
    UnexpiredConcat([y], b, now);
  }

  // Removing an expired key from the list leaves its unexpired keys.
  lemma RemoveKeepsUnexpired(k: Keys, i: nat, now: int)
    requires Valid(k) && k.size > 1 && i < k.size && HasExpired(k.all[i], now)
    ensures multiset(Unexpired(Current(Remove(k, i)), now)) == multiset(Unexpired(Current(k), now))
    ensures |Unexpired(Current(Remove(k, i)), now)| == |Unexpired(Current(k), now)|
  {
    hide Unexpired, HasExpired;
    var (a, x, y) := (k.all[..i], k.all[i], k.all[k.size - 1]);
    if i == k.size - 1 {
      assert Current(k) == a + [x] && Current(Remove(k, i)) == a;
      UnexpiredOne(x, now);
      UnexpiredConcat(a, [x], now);
    } else {
      var b := k.all[i + 1..k.size - 1];
      assert Current(k) == a + ([x] + (b + [y])) && Current(Remove(k, i)) == a + ([y] + b);
      ReplaceKeepsUnexpired(a, x, b, y, now);
    }
    SameSize(Unexpired(Current(Remove(k, i)), now), Unexpired(Current(k), now));
  }

  lemma SameSize(s: seq<PubKey>, t: seq<PubKey>)
    requires multiset(s) == multiset(t)
    ensures |s| == |t|
  {
    assert |multiset(s)| == |multiset(t)|;
  }

  lemma RemovePermutes(k: Keys, i: nat)
    requires Valid(k) && k.size > 1 && i < |k.all|
    ensures multiset(Remove(k, i).all) == multiset(k.all)
  {
    SwapPermutes(k.all, i, k.size - 1);
  }

  lemma SwapPermutes<T>(s: seq<T>, i: nat, j: nat)
    requires i < |s| && j < |s|
    ensures multiset(Swap(s, i, j)) == multiset(s)
  {
    var t := s[i := s[j]];
    assert multiset(t) == multiset(s) - multiset{s[i]} + multiset{s[j]};
    assert multiset(t[j := s[i]]) == multiset(t) - multiset{t[j]} + multiset{s[i]};
  }

  ghost predicate NoneMatches(s: seq<PubKey>, now: int, crypto: Crypto, data: bytes) {
    forall k <- s :: !HasExpired(k, now) && !Authenticates(k, crypto, data)
  }

  // With the bound re-read, the loop filters out the expired keys and tries the others: it finds a
  // key if and only if an unexpired one authenticates, gives up if and only if none is unexpired, and
  // otherwise keeps exactly the unexpired keys. In no case does it lose one of these.
  lemma {:induction false} IntendedFilters(k: Keys, i: nat, now: int, crypto: Crypto, data: bytes)
    requires Valid(k) && i <= k.size && NoneMatches(k.all[..i], now, crypto, data)
    ensures var (outcome, r) := Intended(k, i, now, crypto, data); var unexpired := Unexpired(Current(k), now);
      && multiset(r.all) == multiset(k.all)
      && multiset(Unexpired(Current(r), now)) == multiset(unexpired)
      && (match outcome
          case Matched(key) => key in unexpired && Authenticates(key, crypto, data)
          case AllExpired => unexpired == [] && r.size == 1
          case Unmatched =>
            && multiset(Current(r)) == multiset(unexpired) && r.size == |unexpired|
            && NoneMatches(Current(r), now, crypto, data))
    decreases k.size - i
  {
    hide Authenticates, Unexpired;
    if i == k.size {
      assert Current(k) == k.all[..i];
      AllUnexpired(Current(k), now);
    } else if HasExpired(k.all[i], now) {
      if k.size > 1 {
        RemoveKeepsUnexpired(k, i, now);
        RemovePermutes(k, i);
        UnexpiredMembers(Current(k), now);
        UnexpiredMembers(Current(Remove(k, i)), now);
        assert Remove(k, i).all[..i] == k.all[..i];
        IntendedFilters(Remove(k, i), i, now, crypto, data);
        SameMembers(Unexpired(Current(Remove(k, i)), now), Unexpired(Current(k), now));
      } else {
        assert Current(k) == [k.all[0]];
        UnexpiredOne(k.all[0], now);
      }
    } else {
      UnexpiredMembers(Current(k), now);
      assert k.all[i] in Current(k);
      if !Authenticates(k.all[i], crypto, data) {
        assert k.all[..i + 1] == k.all[..i] + [k.all[i]];
        IntendedFilters(k, i + 1, now, crypto, data);
      }
    }
  }

  lemma SameMembers<T>(s: seq<T>, t: seq<T>)
    requires multiset(s) == multiset(t)
    ensures forall x :: x in s <==> x in t
  {
    forall x ensures x in s <==> x in t {
      assert x in s <==> x in multiset(s);
      assert x in t <==> x in multiset(t);
    }
  }

  // ---------------------------------------------------------------- the loop as written

  // While the position is inside the list, the loop does what was intended.
  lemma {:induction false} ScanFollowsIntended(k: Keys, i: nat, bound: nat, now: int, crypto: Crypto, data: bytes)
    requires Valid(k) && i <= k.size <= bound <= |k.all|
    ensures var (outcome, r) := Intended(k, i, now, crypto, data);
      && r.size <= k.size
      && Scan(k, i, bound, now, crypto, data) ==
        if outcome == Unmatched then Scan(r, r.size, bound, now, crypto, data) else (outcome, r)
    decreases k.size - i
  {
    hide Authenticates;
    if i < k.size {
      if HasExpired(k.all[i], now) {
        if k.size > 1 { ScanFollowsIntended(Remove(k, i), i, bound, now, crypto, data); }
      } else if !Authenticates(k.all[i], crypto, data) {
        ScanFollowsIntended(k, i + 1, bound, now, crypto, data);
      }
    }
  }

  // The keys taken out stand behind the list.
  lemma {:induction false} RemovedAreExpired(k: Keys, i: nat, bound: nat, now: int, crypto: Crypto, data: bytes)
    requires Valid(k) && i <= k.size <= bound <= |k.all|
    requires forall j | k.size <= j < bound :: HasExpired(k.all[j], now)
    ensures var r := Intended(k, i, now, crypto, data).1;
      r.size <= bound && forall j | r.size <= j < bound :: HasExpired(r.all[j], now)
    decreases k.size - i
  {
    hide Authenticates;
    if i < k.size {
      if HasExpired(k.all[i], now) {
        if k.size > 1 { RemovedAreExpired(Remove(k, i), i, bound, now, crypto, data); }
      } else if !Authenticates(k.all[i], crypto, data) {
        RemovedAreExpired(k, i + 1, bound, now, crypto, data);
      }
    }
  }

  // Past the list, the loop meets each removed key again and takes an unexpired one out for it.
  lemma {:induction false} ScanOverrun(k: Keys, i: nat, bound: nat, now: int, crypto: Crypto, data: bytes)
    requires Valid(k) && k.size <= i <= bound <= |k.all|
    requires NoneMatches(Current(k), now, crypto, data)
    requires forall j | i <= j < bound :: HasExpired(k.all[j], now)
    ensures var (outcome, r) := Scan(k, i, bound, now, crypto, data); var removed := bound - i;
      if removed < k.size then outcome == Unmatched && r.size == k.size - removed && Current(r) == k.all[..r.size]
      else outcome == AllExpired && r.size == 1 && Current(r) == k.all[..1]
    decreases bound - i
  {
    hide Authenticates;
    if i < bound && k.size > 1 {
      var next := Remove(k, i);
      assert next.all[i] == k.all[k.size - 1] && k.all[k.size - 1] in Current(k);
      assert Current(next) == Current(k)[..k.size - 1];
      assert Scan(k, i, bound, now, crypto, data) == Scan(next, i, bound, now, crypto, data)
        == Scan(next, i + 1, bound, now, crypto, data);
      ScanOverrun(next, i + 1, bound, now, crypto, data);
    }
  }

  lemma {:induction false} ScanPermutes(k: Keys, i: nat, bound: nat, now: int, crypto: Crypto, data: bytes)
    requires Valid(k) && i <= bound <= |k.all|
    ensures multiset(Scan(k, i, bound, now, crypto, data).1.all) == multiset(k.all)
    decreases k.size + bound - i
  {
    hide Authenticates;
    if i < bound {
      if HasExpired(k.all[i], now) {
        if k.size > 1 {
          RemovePermutes(k, i);
          ScanPermutes(Remove(k, i), i, bound, now, crypto, data);
        }
      } else {
        ScanPermutes(k, i + 1, bound, now, crypto, data);
      }
    }
  }

  // The scan as a connection's termination runs it.
  function ScanAll(k: Keys, now: int, crypto: Crypto, data: bytes): (r: (Outcome, Keys))
    requires Valid(k)
    ensures Valid(r.1) && |r.1.all| == |k.all|
  {
    Scan(k, 0, k.size, now, crypto, data)
  }

  // What the scan does, in all cases. It authenticates exactly when an unexpired key does, and
  // then keeps all of these. Otherwise, with e expired and u unexpired keys in the list, it keeps
  // u - e of the unexpired ones, or, when there are not more of them than expired ones, reports
  // that all have expired and keeps one key, unexpired if there was such a key.
  lemma ScanExact(k: Keys, now: int, crypto: Crypto, data: bytes)
    requires Valid(k)
    ensures var (outcome, r) := ScanAll(k, now, crypto, data);
      var unexpired := Unexpired(Current(k), now);
      var expired := k.size - |unexpired|;
      && multiset(r.all) == multiset(k.all)
      && (outcome.Matched? <==> exists key <- unexpired :: Authenticates(key, crypto, data))
      && (match outcome
          case Matched(key) =>
            && key in unexpired && Authenticates(key, crypto, data)
            && multiset(Unexpired(Current(r), now)) == multiset(unexpired)
          case Unmatched =>
            && (expired == 0 || expired < |unexpired|)
            && r.size == |unexpired| - expired && multiset(Current(r)) <= multiset(unexpired)
          case AllExpired =>
            && expired > 0 && expired >= |unexpired|
            && r.size == 1 && (if unexpired == [] then HasExpired(r.all[0], now) else r.all[0] in unexpired))
  {
    hide Authenticates, Unexpired, Scan, Intended, HasExpired;
    var (outcome, r) := Intended(k, 0, now, crypto, data);
    var unexpired := Unexpired(Current(k), now);
    UnexpiredMembers(Current(k), now);
    assert k.all[..0] == [];
    IntendedFilters(k, 0, now, crypto, data);
    ScanFollowsIntended(k, 0, k.size, now, crypto, data);
    ScanPermutes(k, 0, k.size, now, crypto, data);
    match outcome
    case Matched(_) =>
    case AllExpired =>
      UnexpiredMembers(Current(r), now);
      SameMembers(Unexpired(Current(r), now), unexpired);
      assert r.all[0] in Current(r);
    case Unmatched =>
      RemovedAreExpired(k, 0, k.size, now, crypto, data);
      ScanOverrun(r, r.size, k.size, now, crypto, data);
      SameMembers(Current(r), unexpired);
      var s := Scan(r, r.size, k.size, now, crypto, data).1;
      assert Current(s) == Current(r)[..s.size];
      PrefixWithin(Current(r), s.size);
      assert s.all[0] == Current(s)[0] == Current(r)[0];
  }

  lemma PrefixWithin<T>(s: seq<T>, n: nat)
    requires n <= |s|
    ensures multiset(s[..n]) <= multiset(s)
  {
    assert s == s[..n] + s[n..];
  }

  // The promises of the comments in the source, and exactly when they are kept: only expired keys
  // are dropped if and only if a key matches, or none had expired, or at most one has not ...
  ghost predicate LosesNone(k: Keys, now: int, crypto: Crypto, data: bytes)
    requires Valid(k)
  {
    var unexpired := Unexpired(Current(k), now);
    (exists key <- unexpired :: Authenticates(key, crypto, data)) || |unexpired| == k.size || |unexpired| <= 1
  }

  lemma KeepsUnexpiredIff(k: Keys, now: int, crypto: Crypto, data: bytes)
    requires Valid(k)
    ensures multiset(Unexpired(Current(ScanAll(k, now, crypto, data).1), now)) == multiset(Unexpired(Current(k), now))
      <==> LosesNone(k, now, crypto, data)
  {
    hide Scan, Unexpired, Authenticates, HasExpired;
    ScanExact(k, now, crypto, data);
    UnexpiredMembers(Current(k), now);
    var ((outcome, r), unexpired) := (ScanAll(k, now, crypto, data), Unexpired(Current(k), now));
    match outcome
    case Matched(_) =>
    case Unmatched =>
      forall key <- Current(r) ensures !HasExpired(key, now) { assert key in multiset(Current(r)); }
      AllUnexpired(Current(r), now);
      assert |multiset(Current(r))| == r.size && |multiset(unexpired)| == |unexpired|;
      if |unexpired| == k.size { SubsetOfSameSize(multiset(Current(r)), multiset(unexpired)); }
    case AllExpired =>
      assert Current(r) == [r.all[0]];
      UnexpiredOne(r.all[0], now);
      if |unexpired| == 1 { assert unexpired == [r.all[0]]; }
      if |unexpired| > 1 { assert |multiset(unexpired)| > 1; }
  }

  // The list [expired, u, w] loses u when none matches.
  lemma OneExpiredKeyTakesAnother(expired: PubKey, u: PubKey, w: PubKey, now: int, crypto: Crypto, data: bytes)
    requires HasExpired(expired, now) && !HasExpired(u, now) && !HasExpired(w, now)
    requires !Authenticates(u, crypto, data) && !Authenticates(w, crypto, data)
    ensures var (outcome, r) := ScanAll(Keys([expired, u, w], 3), now, crypto, data);
      outcome == Unmatched && Current(r) == [w]
  {
    hide HasExpired, Authenticates;
    var k := Keys([expired, u, w], 3);
    var k1 := Keys([w, u, expired], 2);
    var k2 := Keys([w, expired, u], 1);
    assert Remove(k, 0) == k1 && Remove(k1, 2) == k2;
    assert Scan(k, 0, 3, now, crypto, data) == Scan(k1, 0, 3, now, crypto, data) == Scan(k1, 2, 3, now, crypto, data);
    assert Scan(k1, 2, 3, now, crypto, data) == Scan(k2, 2, 3, now, crypto, data) == Scan(k2, 3, 3, now, crypto, data);
  }

  // An unexpired key stays unexpired at the times before, so what a scan keeps at its time it keeps
  // for all later times.
  lemma KeepsForLater(s: seq<PubKey>, t: seq<PubKey>, now: int, later: int)
    requires multiset(Unexpired(s, now)) == multiset(Unexpired(t, now)) && now <= later
    ensures multiset(Unexpired(s, later)) == multiset(Unexpired(t, later))
  {
    hide Unexpired;
    forall k: PubKey ensures multiset(Unexpired(s, later))[k] == multiset(Unexpired(t, later))[k] {
      UnexpiredCount(s, now, k);
      UnexpiredCount(t, now, k);
      UnexpiredCount(s, later, k);
      UnexpiredCount(t, later, k);
    }
  }

  lemma {:induction false} UnexpiredCount(s: seq<PubKey>, now: int, k: PubKey)
    ensures multiset(Unexpired(s, now))[k] == if HasExpired(k, now) then 0 else multiset(s)[k]
  {
    if s != [] {
      UnexpiredCount(s[..|s| - 1], now, k);
      assert s == s[..|s| - 1] + [s[|s| - 1]];
    }
  }

  lemma SubsetOfSameSize<T>(s: multiset<T>, t: multiset<T>)
    requires s <= t && |s| == |t|
    ensures s == t
  {
    assert t == s + (t - s);
    assert |t - s| == 0;
  }

  // ... and the server is closed for lack of unexpired keys, when no key matches, if and only if at
  // least as many have expired as have not; so rightly only if none is unexpired.
  lemma ClosesIff(k: Keys, now: int, crypto: Crypto, data: bytes)
    requires Valid(k)
    ensures var unexpired := Unexpired(Current(k), now);
      ScanAll(k, now, crypto, data).0 == AllExpired <==>
        (forall key <- unexpired :: !Authenticates(key, crypto, data)) && 2 * |unexpired| <= k.size
  {
    hide Scan, Unexpired, Authenticates;
    ScanExact(k, now, crypto, data);
    UnexpiredMembers(Current(k), now);
  }

  // Without expired keys the list stays as it is.
  lemma {:induction false} NothingRemoved(k: Keys, i: nat, bound: nat, now: int, crypto: Crypto, data: bytes)
    requires Valid(k) && i <= bound <= |k.all|
    requires forall j | i <= j < bound :: !HasExpired(k.all[j], now)
    ensures Scan(k, i, bound, now, crypto, data).1 == k
    decreases bound - i
  {
    hide Authenticates, HasExpired;
    if i < bound && !Authenticates(k.all[i], crypto, data) { NothingRemoved(k, i + 1, bound, now, crypto, data); }
  }

  // One expired key and one unexpired one that does not match: the server closes.
  lemma OneExpiredKeyCloses(unexpired: PubKey, expired: PubKey, now: int, crypto: Crypto, data: bytes)
    requires HasExpired(expired, now) && !HasExpired(unexpired, now) && !Authenticates(unexpired, crypto, data)
    ensures ScanAll(Keys([expired, unexpired], 2), now, crypto, data).0 == AllExpired
  {
    hide Scan, Unexpired, Authenticates;
    var k := Keys([expired, unexpired], 2);
    assert Current(k) == [expired] + [unexpired];
    UnexpiredConcat([expired], [unexpired], now);
    UnexpiredOne(expired, now);
    UnexpiredOne(unexpired, now);
    ClosesIff(k, now, crypto, data);
  }

  // ---------------------------------------------------------------- the loop itself

  method ScanKeys(keys: array<PubKey>, keysSize: nat, now: int, crypto: Crypto, data: bytes)
    returns (outcome: Outcome, size: nat)
    requires 1 <= keysSize <= keys.Length
    modifies keys
    ensures (outcome, Keys(keys[..], size)) == ScanAll(Keys(old(keys[..]), keysSize), now, crypto, data)
  {
    hide Authenticates;
    size := keysSize;
    var i, bound := 0, keysSize;
    while i < bound
      invariant i <= bound && 1 <= size <= keys.Length
      invariant Scan(Keys(keys[..], size), i, bound, now, crypto, data)
        == ScanAll(Keys(old(keys[..]), keysSize), now, crypto, data)
      decreases size + bound - i
    {
      if HasExpired(keys[i], now) {
        if size > 1 {
          ghost var before := keys[..];
          keys[i], keys[size - 1] := keys[size - 1], keys[i];
          size := size - 1;
          assert keys[..] == Swap(before, i, size);
          continue;
        } else {
          return AllExpired, size;
        }
      }
      if Authenticates(keys[i], crypto, data) {
        return Matched(keys[i]), size;
      }
      i := i + 1;
    }
    return Unmatched, size;
  }

  // ---------------------------------------------------------------- framing

  // What the sender writes is split into what it was made of, for every key with signatures of
  // that size, whatever bytes the signature holds; and nothing else is split that way.
  lemma FramingRoundTrip(k: PubKey, sig: bytes, script: bytes, data: bytes)
    ensures Split(k, data) == Some((sig, script)) <==> |sig| == k.expSigSize && data == sig + [10] + script
  {
    if Split(k, data) == Some((sig, script)) {
      assert data == data[..k.expSigSize] + [data[k.expSigSize]] + data[k.expSigSize + 1..];
    }
    if |sig| == k.expSigSize && data == sig + [NEWLINE] + script {
      assert data[..|sig|] == sig && data[|sig| + 1..] == script;
    }
  }

  // A key authenticates what a sender with signatures of its size has put together if and only if
  // the signature is one of the script.
  lemma AuthenticatesSigned(k: PubKey, crypto: Crypto, sig: bytes, script: bytes)
    requires |sig| == k.expSigSize
    ensures Authenticates(k, crypto, sig + [10] + script) <==> crypto.verifies(k.material, script, sig)
  {
    hide Split;
    FramingRoundTrip(k, sig, script, sig + [10] + script);
  }
}
