/** What every step of the server keeps. */
module ServerInvariant {
  import opened Bytes
  import opened Bits
  import opened Policy
  import opened KeyScan
  import opened Server

  function LiveCount(conns: seq<Conn>): nat {
    if conns == [] then 0
    else LiveCount(conns[..|conns| - 1]) + if conns[|conns| - 1].Live() then 1 else 0
  }

  // A kilobyte doubled some number of times, up to two gigabytes.
  ghost predicate Capacity(cap: nat) {
    exists k: nat :: k <= 21 && cap == KILOBYTE * Pow2(k)
  }

  // A connection in use holds exactly what it has sent, with room for more.
  ghost predicate SlotOk(c: Conn, s: State) {
    if c.Live() then
      && Holder(c, s)
      && c.data == s.received[c.owner]
      && |c.data| < c.cap
      && c.openTime < MAX_INT64
    else c.data == [] && (c.cap == 0 || Capacity(c.cap))
  }

  // What releasing it relies on.
  ghost predicate Holder(c: Conn, s: State) {
    c.Live() && c.owner < |s.received| && c.owner !in s.released && Capacity(c.cap)
  }

  ghost predicate SlotsOk(s: State) {
    forall i | 0 <= i < |s.conns| :: SlotOk(s.conns[i], s)
  }

  // No connection is in two slots.
  ghost predicate Exclusive(s: State) {
    forall i, j | 0 <= i < j < |s.conns| && s.conns[i].Live() && s.conns[j].Live() ::
      s.conns[i].owner != s.conns[j].owner
  }

  // No connection is released twice.
  ghost predicate ReleasedOnce(s: State) {
    && (forall o <- s.released :: o < |s.received|)
    && (forall i, j | 0 <= i < j < |s.released| :: s.released[i] != s.released[j])
  }

  // The counter counts the slots in use, and they are the connections accepted and not released.
  ghost predicate CountOk(s: State) {
    s.status != Aborted ==> s.connsTotal == LiveCount(s.conns) == |s.received| - |s.released|
  }

  // An executed script is what one released connection sent after a signature and a newline, and
  // the signature is one of the script under a trusted key that had not expired.
  ghost predicate Genuine(x: Execution, s: State, trusted: seq<PubKey>, crypto: Crypto) {
    && x.owner in s.released && x.owner < |s.received|
    && x.key in trusted && x.now <= x.key.expiry
    && exists sig: bytes :: |sig| == x.key.expSigSize
         && s.received[x.owner] == sig + [NEWLINE] + x.script && crypto.verifies(x.key.material, x.script, sig)
  }

  // a is b with some members left out.
  ghost predicate Subsequence(a: seq<nat>, b: seq<nat>) {
    a == [] || (b != [] &&
      if a[|a| - 1] == b[|b| - 1] then Subsequence(a[..|a| - 1], b[..|b| - 1]) else Subsequence(a, b[..|b| - 1]))
  }

  function Owners(log: seq<Execution>): (r: seq<nat>)
    ensures |r| == |log|
  {
    if log == [] then [] else Owners(log[..|log| - 1]) + [log[|log| - 1].owner]
  }

  // Numbered from 1 in the order in which their connections ended, one per connection.
  ghost predicate LogOk(s: State, trusted: seq<PubKey>, crypto: Crypto) {
    && s.scriptN == |s.log|
    && (forall k | 0 <= k < |s.log| :: s.log[k].number == k + 1 && Genuine(s.log[k], s, trusted, crypto))
    && Subsequence(Owners(s.log), s.released)
  }

  // The list is a rearrangement of the keys the server started with.
  ghost predicate KeysOk(s: State, trusted: seq<PubKey>) {
    multiset(s.keys.all) == multiset(trusted)
  }

  ghost predicate Inv(s: State, trusted: seq<PubKey>, crypto: Crypto) {
    && Shape(s) && SlotsOk(s) && Exclusive(s) && ReleasedOnce(s) && CountOk(s)
    && LogOk(s, trusted, crypto) && KeysOk(s, trusted)
  }

  // ---------------------------------------------------------------- counting

  lemma {:induction false} CountUpdate(conns: seq<Conn>, i: nat, c: Conn)
    requires i < |conns|
    ensures LiveCount(conns[i := c])
      == LiveCount(conns) - (if conns[i].Live() then 1 else 0) + (if c.Live() then 1 else 0)
  {
    var n := |conns| - 1;
    if i == n {
      assert conns[i := c][..n] == conns[..n];
    } else {
      assert conns[i := c][..n] == conns[..n][i := c];
      CountUpdate(conns[..n], i, c);
    }
  }

  lemma {:induction false} CountBound(conns: seq<Conn>)
    ensures LiveCount(conns) <= |conns|
    ensures LiveCount(conns) == |conns| <==> forall i | 0 <= i < |conns| :: conns[i].Live()
  {
    if conns != [] {
      var n := |conns| - 1;
      CountBound(conns[..n]);
      assert forall i | 0 <= i < n :: conns[..n][i] == conns[i];
    }
  }

  lemma {:induction false} CountEmpty(n: nat)
    ensures LiveCount(seq(n, _ => EMPTY_CONN)) == 0
  {
    if n > 0 {
      assert seq(n, _ => EMPTY_CONN)[..n - 1] == seq(n - 1, _ => EMPTY_CONN);
      CountEmpty(n - 1);
    }
  }

  lemma Doubling(cap: nat)
    requires Capacity(cap)
    ensures 1024 <= cap <= 0x8000_0000 && exists k: nat :: cap == 1024 * Pow2(k)
    ensures cap < 0x8000_0000 ==> Capacity(2 * cap)
  {
    var k: nat :| k <= 21 && cap == KILOBYTE * Pow2(k);
    Pow2Monotone(k, 21);
    Pow2Values();
    assert Pow2(21) == 0x20_0000;
    if k < 21 { assert 2 * cap == KILOBYTE * Pow2(k + 1); }
  }

  // ---------------------------------------------------------------- subsequences

  lemma SubsequenceBoth(a: seq<nat>, b: seq<nat>, x: nat)
    requires Subsequence(a, b)
    ensures Subsequence(a + [x], b + [x])
  {
    assert (a + [x])[..|a|] == a && (b + [x])[..|b|] == b;
  }

  lemma SubsequenceMore(a: seq<nat>, b: seq<nat>, x: nat)
    requires Subsequence(a, b) && x !in b
    ensures Subsequence(a, b + [x])
  {
    assert (b + [x])[..|b|] == b;
    SubsequenceMembers(a, b);
  }

  lemma {:induction false} SubsequenceMembers(a: seq<nat>, b: seq<nat>)
    requires Subsequence(a, b)
    ensures forall x <- a :: x in b
    decreases |b|
  {
    if a != [] {
      SubsequenceMembers(if a[|a| - 1] == b[|b| - 1] then a[..|a| - 1] else a, b[..|b| - 1]);
      assert a == a[..|a| - 1] + [a[|a| - 1]];
    }
  }

  // Members of a sequence without repetitions stay without repetitions.
  lemma {:induction false} SubsequenceDistinct(a: seq<nat>, b: seq<nat>)
    requires Subsequence(a, b) && forall i, j | 0 <= i < j < |b| :: b[i] != b[j]
    ensures forall i, j | 0 <= i < j < |a| :: a[i] != a[j]
    decreases |b|
  {
    if a != [] {
      var (a', b') := (a[..|a| - 1], b[..|b| - 1]);
      if a[|a| - 1] == b[|b| - 1] {
        SubsequenceDistinct(a', b');
        SubsequenceMembers(a', b');
        forall i, j | 0 <= i < j < |a| ensures a[i] != a[j] {
          if j == |a| - 1 { assert a'[i] in b'; } else { assert a'[i] != a'[j]; }
        }
      } else {
        SubsequenceDistinct(a, b');
      }
    }
  }

  lemma OwnersAppend(log: seq<Execution>, x: Execution)
    ensures Owners(log + [x]) == Owners(log) + [x.owner]
  {
    assert (log + [x])[..|log|] == log;
  }

  // ---------------------------------------------------------------- releasing

  // Everything but the slot that is about to be released.
  ghost predicate AllBut(s: State, i: nat, trusted: seq<PubKey>, crypto: Crypto) {
    && Shape(s) && i < MAX_CONCURRENCY && Holder(s.conns[i], s)
    && (forall j | 0 <= j < MAX_CONCURRENCY && j != i :: SlotOk(s.conns[j], s))
    && Exclusive(s) && ReleasedOnce(s) && CountOk(s) && LogOk(s, trusted, crypto) && KeysOk(s, trusted)
  }

  lemma ReleaseKeeps(s: State, i: nat, trusted: seq<PubKey>, crypto: Crypto)
    requires AllBut(s, i, trusted, crypto)
    ensures Inv(Release(s, i), trusted, crypto)
  {
    hide Capacity, Subsequence, LiveCount, Genuine, Owners;
    var r := Release(s, i);
    CountUpdate(s.conns, i, r.conns[i]);
    forall j | 0 <= j < MAX_CONCURRENCY ensures SlotOk(r.conns[j], r) {
      if j != i { assert SlotOk(s.conns[j], s); }
    }
    SubsequenceMore(Owners(s.log), s.released, s.conns[i].owner);
    forall k | 0 <= k < |s.log| ensures Genuine(r.log[k], r, trusted, crypto) {
      GenuineStays(s.log[k], s, r, trusted, crypto);
    }
  }

  // The past of released connections is fixed.
  lemma GenuineStays(x: Execution, s: State, r: State, trusted: seq<PubKey>, crypto: Crypto)
    requires Genuine(x, s, trusted, crypto)
    requires |s.received| <= |r.received| && (forall o <- s.released :: o in r.released)
    requires s.received[x.owner] == r.received[x.owner]
    ensures Genuine(x, r, trusted, crypto)
  {}

  // ---------------------------------------------------------------- accepting

  lemma {:induction false} OldestIsOldest(conns: seq<Conn>, n: nat)
    requires n <= |conns|
    requires forall j | 0 <= j < n && conns[j].Live() :: conns[j].openTime < MAX_INT64
    ensures match Oldest(conns, n)
      case Some(i) => forall j | 0 <= j < n && conns[j].Live() ::
        conns[i].openTime <= conns[j].openTime && (j < i ==> conns[i].openTime < conns[j].openTime)
      case None => forall j | 0 <= j < n :: !conns[j].Live()
  {
    if n > 0 { OldestIsOldest(conns, n - 1); }
  }

  // A full table makes room by releasing the connection that was opened first; after that there is
  // a free slot.
  lemma EvictKeeps(s: State, trusted: seq<PubKey>, crypto: Crypto)
    requires Inv(s, trusted, crypto) && s.status == Running
    ensures Inv(Evict(s), trusted, crypto) && Evict(s).status == Running
    ensures Evict(s).connsTotal < MAX_CONCURRENCY && FirstFree(Evict(s).conns, 0).Some?
    ensures s.connsTotal < MAX_CONCURRENCY ==> Evict(s) == s
    ensures s.connsTotal >= MAX_CONCURRENCY ==>
      exists i | 0 <= i < MAX_CONCURRENCY :: Evict(s) == Release(s, i) &&
        forall j | 0 <= j < MAX_CONCURRENCY :: s.conns[i].openTime <= s.conns[j].openTime
  {
    hide Capacity, LogOk, Exclusive, ReleasedOnce, KeysOk, LiveCount;
    CountBound(s.conns);
    OldestIsOldest(s.conns, MAX_CONCURRENCY);
    if s.connsTotal >= MAX_CONCURRENCY {
      var i := Oldest(s.conns, MAX_CONCURRENCY).value;
      ReleaseKeeps(s, i, trusted, crypto);
      assert Evict(s) == Release(s, i);
    }
    CountBound(Evict(s).conns);
  }

  lemma OccupyKeeps(t: State, i: nat, c: Conn, trusted: seq<PubKey>, crypto: Crypto)
    requires Inv(t, trusted, crypto) && t.status == Running && i < MAX_CONCURRENCY && !t.conns[i].Live()
    requires c.Live() && c.openTime < MAX_INT64 && c.data == [] && c.owner == |t.received| && Capacity(c.cap)
    ensures var r := t.(conns := t.conns[i := c], connsTotal := t.connsTotal + 1, received := t.received + [[]]);
      Inv(r, trusted, crypto)
  {
    hide Subsequence, LiveCount, Genuine, Owners, Capacity;
    var r := t.(conns := t.conns[i := c], connsTotal := t.connsTotal + 1, received := t.received + [[]]);
    CountUpdate(t.conns, i, c);
    Doubling(c.cap);
    forall j | 0 <= j < MAX_CONCURRENCY ensures SlotOk(r.conns[j], r) {
      if j != i { assert SlotOk(t.conns[j], t); }
    }
    forall k | 0 <= k < |t.log| ensures Genuine(r.log[k], r, trusted, crypto) {
      assert t.log[k].owner < |t.received| by { GenuineOwner(t.log[k], t, trusted, crypto); }
      GenuineStays(t.log[k], t, r, trusted, crypto);
    }
  }

  lemma GenuineOwner(x: Execution, s: State, trusted: seq<PubKey>, crypto: Crypto)
    requires Genuine(x, s, trusted, crypto)
    ensures x.owner in s.released && x.owner < |s.received|
  {}

  lemma AcceptKeeps(s: State, outcome: AcceptOutcome, trusted: seq<PubKey>, crypto: Crypto)
    requires Inv(s, trusted, crypto) && Enabled(s, Incoming(outcome))
    ensures Inv(Accept(s, outcome), trusted, crypto)
    ensures Accept(s, outcome).status == Aborted <==> outcome == EpollFailed
  {
    hide Capacity, LogOk, Exclusive, ReleasedOnce, KeysOk, LiveCount;
    EvictKeeps(s, trusted, crypto);
    var t := Evict(s);
    if outcome.Opened? {
      var i := FirstFree(t.conns, 0).value;
      assert SlotOk(t.conns[i], t);
      KilobyteIsCapacity();
      OccupyKeeps(t, i, Accept(s, outcome).conns[i], trusted, crypto);
    } else if outcome.EpollFailed? {
      AbortKeeps(t, Accept(s, outcome), trusted, crypto);
    }
  }

  lemma AbortKeeps(t: State, r: State, trusted: seq<PubKey>, crypto: Crypto)
    requires Inv(t, trusted, crypto) && r == t.(connsTotal := r.connsTotal, status := Aborted)
    ensures Inv(r, trusted, crypto)
  {
    hide Capacity, Subsequence, LiveCount, Owners;
    forall j | 0 <= j < MAX_CONCURRENCY ensures SlotOk(r.conns[j], r) { assert SlotOk(t.conns[j], t); }
  }

  lemma KilobyteIsCapacity()
    ensures Capacity(KILOBYTE)
  {
    assert KILOBYTE == KILOBYTE * Pow2(0);
  }

  // ---------------------------------------------------------------- receiving

  // The bytes read extend what the connection has sent; nothing else changes.
  lemma ExtendKeeps(s: State, i: nat, chunk: bytes, cap: nat, trusted: seq<PubKey>, crypto: Crypto)
    requires Inv(s, trusted, crypto) && i < MAX_CONCURRENCY && s.conns[i].Live() && Capacity(cap)
    ensures var c := s.conns[i];
      var r := s.(conns := s.conns[i := c.(data := c.data + chunk, cap := cap)],
        received := s.received[c.owner := s.received[c.owner] + chunk]);
      && AllBut(r, i, trusted, crypto)
      && (|c.data + chunk| < cap ==> Inv(r, trusted, crypto))
  {
    hide Capacity, Subsequence, LiveCount, Genuine, Owners;
    var c := s.conns[i];
    var r := s.(conns := s.conns[i := c.(data := c.data + chunk, cap := cap)],
      received := s.received[c.owner := s.received[c.owner] + chunk]);
    assert SlotOk(c, s);
    CountUpdate(s.conns, i, r.conns[i]);
    forall j | 0 <= j < MAX_CONCURRENCY && j != i ensures SlotOk(r.conns[j], r) {
      assert SlotOk(s.conns[j], s);
    }
    forall k | 0 <= k < |s.log| ensures Genuine(r.log[k], r, trusted, crypto) {
      GenuineOwner(s.log[k], s, trusted, crypto);
      GenuineStays(s.log[k], s, r, trusted, crypto);
    }
  }

  lemma Read1Keeps(s: State, i: nat, chunk: bytes, trusted: seq<PubKey>, crypto: Crypto)
    requires Inv(s, trusted, crypto) && i < MAX_CONCURRENCY && s.conns[i].Live()
    requires |chunk| <= s.conns[i].cap - |s.conns[i].data|
    ensures Inv(Read1(s, i, chunk), trusted, crypto)
    ensures var t := Read1(s, i, chunk);
      if |s.conns[i].data| + |chunk| >= 0x8000_0000 then !t.conns[i].Live()
      else t.conns[i].Live() && t.conns[i].data == s.conns[i].data + chunk && t.conns[i].owner == s.conns[i].owner
  {
    hide Capacity, Exclusive, ReleasedOnce, CountOk, LogOk, KeysOk;
    var c := s.conns[i];
    assert SlotOk(c, s);
    Doubling(c.cap);
    var full := |c.data + chunk| >= c.cap;
    if |c.data + chunk| >= MAX_SCRIPT_SIZE {
      ExtendKeeps(s, i, chunk, c.cap, trusted, crypto);
      var r := s.(conns := s.conns[i := c.(data := c.data + chunk)],
        received := s.received[c.owner := s.received[c.owner] + chunk]);
      ReleaseKeeps(r, i, trusted, crypto);
    } else {
      ExtendKeeps(s, i, chunk, if full then 2 * c.cap else c.cap, trusted, crypto);
    }
  }

  lemma {:induction false} ReceiveKeeps(s: State, i: nat, segments: seq<bytes>, ending: Ending, trusted: seq<PubKey>,
      crypto: Crypto)
    requires Inv(s, trusted, crypto) && i < MAX_CONCURRENCY && s.conns[i].Live()
    ensures var r := Receive(s, i, segments, ending);
      Inv(r, trusted, crypto) && r.status == s.status && r.keys == s.keys
    decreases Pending(segments)
  {
    hide Capacity, Exclusive, ReleasedOnce, CountOk, LogOk, KeysOk, Read1;
    var c := s.conns[i];
    assert SlotOk(c, s);
    if segments == [] {
      if ending == Failed { ReleaseKeeps(s, i, trusted, crypto); }
    } else {
      var n := Min(c.cap - |c.data|, |segments[0]|);
      if n > 0 {
        Read1Keeps(s, i, segments[0][..n], trusted, crypto);
        Read1Frame(s, i, segments[0][..n]);
        var t := Read1(s, i, segments[0][..n]);
        if t.conns[i].Live() { ReceiveKeeps(t, i, AfterRead(segments, n), ending, trusted, crypto); }
      }
    }
  }

  lemma Read1Frame(s: State, i: nat, chunk: bytes)
    requires Shape(s) && i < MAX_CONCURRENCY && s.conns[i].Live()
    ensures var t := Read1(s, i, chunk);
      && t.status == s.status && t.keys == s.keys && t.log == s.log && t.scriptN == s.scriptN
      && t.conns[i].owner == s.conns[i].owner && (t.conns[i].Live() ==> t.released == s.released)
  {}

  // ---------------------------------------------------------------- terminating

  lemma TerminateKeeps(s: State, i: nat, now: int, trusted: seq<PubKey>, crypto: Crypto)
    requires Inv(s, trusted, crypto) && s.status == Running && i < MAX_CONCURRENCY && s.conns[i].Live()
    ensures Inv(Terminate(s, i, now, crypto), trusted, crypto)
  {
    hide Capacity, Exclusive, Subsequence, LiveCount, ScanAll, Unexpired, Authenticates, Genuine, Owners, Split;
    var c := s.conns[i];
    assert SlotOk(c, s);
    ScanExact(s.keys, now, crypto, c.data);
    var (outcome, keys) := ScanAll(s.keys, now, crypto, c.data);
    var t := s.(keys := keys);
    RearrangedKeeps(s, t, trusted, crypto);
    match outcome
    case AllExpired => ClosedKeeps(t, trusted, crypto);
    case Unmatched => ReleaseKeeps(t, i, trusted, crypto);
    case Matched(key) => ExecuteKeeps(s, i, key, keys, now, trusted, crypto);
  }

  lemma RearrangedKeeps(s: State, t: State, trusted: seq<PubKey>, crypto: Crypto)
    requires Inv(s, trusted, crypto) && t == s.(keys := t.keys)
    requires KeyScan.Valid(t.keys) && multiset(t.keys.all) == multiset(s.keys.all)
    ensures Inv(t, trusted, crypto)
  {
    hide Capacity, Subsequence, LiveCount, Owners;
    forall j | 0 <= j < MAX_CONCURRENCY ensures SlotOk(t.conns[j], t) { assert SlotOk(s.conns[j], s); }
    forall k | 0 <= k < |s.log| ensures Genuine(t.log[k], t, trusted, crypto) {
      assert Genuine(s.log[k], s, trusted, crypto);
    }
  }

  lemma ClosedKeeps(s: State, trusted: seq<PubKey>, crypto: Crypto)
    requires Inv(s, trusted, crypto) && s.status != Aborted
    ensures Inv(s.(status := Closed), trusted, crypto)
  {
    hide Capacity, Subsequence, LiveCount, Owners;
    var t := s.(status := Closed);
    forall j | 0 <= j < MAX_CONCURRENCY ensures SlotOk(t.conns[j], t) { assert SlotOk(s.conns[j], s); }
    forall k | 0 <= k < |s.log| ensures Genuine(t.log[k], t, trusted, crypto) {
      assert Genuine(s.log[k], s, trusted, crypto);
    }
  }

  lemma ExecuteKeeps(s: State, i: nat, key: PubKey, keys: Keys, now: int, trusted: seq<PubKey>, crypto: Crypto)
    requires Inv(s, trusted, crypto) && i < MAX_CONCURRENCY && s.conns[i].Live()
    requires KeyScan.Valid(keys) && multiset(keys.all) == multiset(s.keys.all)
    requires key in Unexpired(Current(s.keys), now) && Authenticates(key, crypto, s.conns[i].data)
    ensures var c := s.conns[i];
      var x := Execution(s.scriptN + 1, c.owner, key, Split(key, c.data).value.1, now);
      Inv(Release(s.(keys := keys, scriptN := s.scriptN + 1, log := s.log + [x]), i), trusted, crypto)
  {
    hide Capacity, Subsequence, LiveCount, Genuine, Owners, Unexpired, Split, Holder;
    var c := s.conns[i];
    assert SlotOk(c, s);
    var x := Execution(s.scriptN + 1, c.owner, key, Split(key, c.data).value.1, now);
    var t := s.(keys := keys);
    RearrangedKeeps(s, t, trusted, crypto);
    assert Holder(c, s);
    ReleaseKeeps(t, i, trusted, crypto);
    var (r, q) := (Release(t.(scriptN := s.scriptN + 1, log := s.log + [x]), i), Release(t, i));
    assert r == q.(scriptN := s.scriptN + 1, log := s.log + [x]);
    SubsequenceBoth(Owners(s.log), s.released, c.owner);
    OwnersAppend(s.log, x);
    assert Genuine(x, r, trusted, crypto) by {
      UnexpiredMembers(Current(s.keys), now);
      assert key in multiset(s.keys.all);
      ExecutionIsGenuine(x, r, trusted, crypto);
    }
    forall k | 0 <= k < |r.log| ensures r.log[k].number == k + 1 && Genuine(r.log[k], r, trusted, crypto) {
      if k < |s.log| { assert q.log[k] == r.log[k]; GenuineStays(q.log[k], q, r, trusted, crypto); }
    }
    forall j | 0 <= j < MAX_CONCURRENCY ensures SlotOk(r.conns[j], r) { SlotStays(q.conns[j], q, r); }
  }

  lemma SlotStays(c: Conn, s: State, t: State)
    requires SlotOk(c, s) && s.received == t.received && s.released == t.released
    ensures SlotOk(c, t)
  {}

  lemma ExecutionIsGenuine(x: Execution, s: State, trusted: seq<PubKey>, crypto: Crypto)
    requires x.owner in s.released && x.owner < |s.received| && x.key in trusted && x.now <= x.key.expiry
    requires Authenticates(x.key, crypto, s.received[x.owner]) && x.script == Split(x.key, s.received[x.owner]).value.1
    ensures Genuine(x, s, trusted, crypto)
  {
    var (sig, script) := Split(x.key, s.received[x.owner]).value;
    FramingRoundTrip(x.key, sig, script, s.received[x.owner]);
  }

  // ---------------------------------------------------------------- steps

  lemma StartInv(trusted: seq<PubKey>, crypto: Crypto)
    requires trusted != []
    ensures Inv(Start(trusted), trusted, crypto)
  {
    CountEmpty(MAX_CONCURRENCY);
  }

  lemma StepKeeps(s: State, e: Event, trusted: seq<PubKey>, crypto: Crypto)
    requires Inv(s, trusted, crypto) && Enabled(s, e)
    ensures Inv(Step(s, e, crypto), trusted, crypto)
  {
    hide Capacity, Exclusive, ReleasedOnce, LogOk, KeysOk, Receive, Terminate, Release, Accept, LiveCount;
    match e
    case Incoming(outcome) => AcceptKeeps(s, outcome, trusted, crypto);
    case Ready(i, readable, segments, ending, hangup, error, now) =>
      var s1 := if readable then Receive(s, i, segments, ending) else s;
      if readable { ReceiveKeeps(s, i, segments, ending, trusted, crypto); }
      var s2 := if s1.conns[i].Live() && hangup then Terminate(s1, i, now, crypto) else s1;
      if s1.conns[i].Live() && hangup { TerminateKeeps(s1, i, now, trusted, crypto); }
      if s2.status == Running && s2.conns[i].Live() && error {
        assert SlotOk(s2.conns[i], s2);
        ReleaseKeeps(s2, i, trusted, crypto);
      }
  }
}
