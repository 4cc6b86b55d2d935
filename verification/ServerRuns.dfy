/** What holds of whole runs of the server, whatever events happen in whatever order. */
module ServerRuns {
  import opened Bytes
  import opened Policy
  import opened KeyScan
  import opened Server
  import opened ServerInvariant
  import opened Certificate
  import Calendar
  import Time

  lemma {:induction false} RunKeeps(s: State, events: seq<Event>, trusted: seq<PubKey>, crypto: Crypto)
    requires Inv(s, trusted, crypto) && IsRun(s, events, crypto)
    ensures Inv(Run(s, events, crypto), trusted, crypto)
    decreases |events|
  {
    hide Step, SlotsOk, Exclusive, ReleasedOnce, CountOk, LogOk, KeysOk, Enabled;
    if events != [] {
      StepKeeps(s, events[0], trusted, crypto);
      RunKeeps(Step(s, events[0], crypto), events[1..], trusted, crypto);
    }
  }

  // In every reachable state the counter counts the connections, accepted and not yet released,
  // that occupy slots, no more than fit the table; no connection occupies two slots or is released
  // twice; a connection's buffer holds exactly what it has sent and has room for at least one byte,
  // and its capacity is a power of two between a kilobyte and two gigabytes.
  lemma ReachableStates(trusted: seq<PubKey>, events: seq<Event>, crypto: Crypto)
    requires trusted != [] && IsRun(Start(trusted), events, crypto)
    ensures var s := Run(Start(trusted), events, crypto);
      && (s.status != Aborted ==>
           0 <= s.connsTotal == LiveCount(s.conns) == |s.received| - |s.released| <= 128)
      && Exclusive(s) && ReleasedOnce(s)
      && forall i | 0 <= i < 128 && s.conns[i].Live() :: var c := s.conns[i];
           c.data == s.received[c.owner] && |c.data| < c.cap && Capacity(c.cap) && c.owner !in s.released
  {
    hide IsRun, LogOk, KeysOk, LiveCount, Capacity;
    StartInv(trusted, crypto);
    RunKeeps(Start(trusted), events, trusted, crypto);
    var s := Run(Start(trusted), events, crypto);
    CountBound(s.conns);
    forall i | 0 <= i < MAX_CONCURRENCY && s.conns[i].Live()
      ensures var c := s.conns[i];
        c.data == s.received[c.owner] && |c.data| < c.cap && Capacity(c.cap) && c.owner !in s.released
    {
      assert SlotOk(s.conns[i], s);
    }
  }

  // A running server never fails to find a slot: an accepted connection ends the program only when
  // epoll refuses it.
  lemma AcceptNeverStuck(trusted: seq<PubKey>, events: seq<Event>, outcome: AcceptOutcome, crypto: Crypto)
    requires trusted != [] && IsRun(Start(trusted), events, crypto)
    requires Enabled(Run(Start(trusted), events, crypto), Incoming(outcome))
    ensures Accept(Run(Start(trusted), events, crypto), outcome).status == Aborted <==> outcome == EpollFailed
  {
    hide IsRun, SlotsOk, Exclusive, ReleasedOnce, CountOk, LogOk, KeysOk;
    StartInv(trusted, crypto);
    RunKeeps(Start(trusted), events, trusted, crypto);
    AcceptKeeps(Run(Start(trusted), events, crypto), outcome, trusted, crypto);
  }

  // ---------------------------------------------------------------- executed scripts

  // Every script executed in a run is what some connection sent after a signature and a newline,
  // and the signature is one of that script under a trusted key that had not expired then. The
  // scripts are numbered from 1, in the order in which their connections ended, one for each.
  lemma ExecutionSafety(trusted: seq<PubKey>, events: seq<Event>, crypto: Crypto)
    requires trusted != [] && IsRun(Start(trusted), events, crypto)
    ensures var s := Run(Start(trusted), events, crypto);
      && |s.log| == s.scriptN
      && (forall k | 0 <= k < |s.log| :: s.log[k].number == k + 1 && Genuine(s.log[k], s, trusted, crypto))
      && (forall j, k | 0 <= j < k < |s.log| :: s.log[j].owner != s.log[k].owner)
      && Subsequence(Owners(s.log), s.released)
  {
    hide IsRun, SlotsOk, Exclusive, CountOk, KeysOk, Genuine, Subsequence;
    StartInv(trusted, crypto);
    RunKeeps(Start(trusted), events, trusted, crypto);
    var s := Run(Start(trusted), events, crypto);
    SubsequenceDistinct(Owners(s.log), s.released);
    OwnersAt(s.log);
  }

  lemma {:induction false} OwnersAt(log: seq<Execution>)
    ensures forall k | 0 <= k < |log| :: Owners(log)[k] == log[k].owner
  {
    if log != [] { OwnersAt(log[..|log| - 1]); }
  }

  // The file stands behind the key: it is the encoding of a certificate that was trusted for it.
  // The key expires when the certificate says if and only if that is written as a UTCTime, and
  // later otherwise.
  ghost predicate Certified(k: PubKey, b: buffer, now: int, crypto: Crypto) {
    exists c: Certificate<bytes> ::
      && WellFormedTbs(c.tbs) && b == Encode(c) && Trustworthy(c, now, crypto, k.material)
      && k.expiry == Time.Timestamp(c.tbs.notAfter) && k.expSigSize == SignatureSize(k.material)
      && ExpiresAsNamed(k, c.tbs.notAfter)
  }

  ghost predicate ExpiresAsNamed(k: PubKey, notAfter: Time.Time) {
    var named := Calendar.Seconds(Time.Meant(notAfter));
    (k.expiry == named <==> !notAfter.general) && k.expiry >= named
  }

  lemma TrustedIsCertified(k: PubKey, b: buffer, now: int, crypto: Crypto)
    requires TrustedKey(b, now, crypto) == Some(k)
    ensures Certified(k, b, now, crypto)
  {
    hide TrustedKey, Trustworthy, Encode, Time.WellFormed, Time.Timestamp, Calendar.Seconds;
    OnlyCertificatesTrusted(b, now, crypto);
    var c: Certificate<bytes> :| WellFormedTbs(c.tbs) && b == Encode(c);
    TrustedIff(b, now, crypto, c, k);
    Time.TimestampIsMeantIffUtc(c.tbs.notAfter);
  }

  // What was received is a signature of the script, of the size the key demands, and the script.
  ghost predicate Signed(x: Execution, data: bytes, crypto: Crypto) {
    exists sig: bytes ::
      && |sig| == SignatureSize(x.key.material)
      && data == sig + [10] + x.script
      && crypto.verifies(x.key.material, x.script, sig)
  }

  // From files to scripts: if the trusted keys are those read from files, then every executed
  // script was sent with a signature of it, of the key's fixed size, under the key of one of these
  // files, which is a certificate that allows code signing, was valid when it was read, and had not
  // expired by the source's reckoning.
  lemma OnlyCertifiedScripts(files: seq<buffer>, times: seq<int>, events: seq<Event>, crypto: Crypto)
    requires |files| == |times| && ReadCerts(files, times, crypto) != []
    requires IsRun(Start(ReadCerts(files, times, crypto)), events, crypto)
    ensures var s := Run(Start(ReadCerts(files, times, crypto)), events, crypto);
      forall x <- s.log ::
        && x.owner < |s.received| && x.now <= x.key.expiry
        && (exists i | 0 <= i < |files| :: Certified(x.key, files[i], times[i], crypto))
        && Signed(x, s.received[x.owner], crypto)
  {
    hide IsRun, Run, TrustedKey, Trustworthy, Subsequence, Inv, Encode, WellFormedTbs, ReadCerts, ExpiresAsNamed;
    var trusted := ReadCerts(files, times, crypto);
    ExecutionSafety(trusted, events, crypto);
    var s := Run(Start(trusted), events, crypto);
    forall x <- s.log
      ensures x.owner < |s.received| && x.now <= x.key.expiry
      ensures exists i | 0 <= i < |files| :: Certified(x.key, files[i], times[i], crypto)
      ensures Signed(x, s.received[x.owner], crypto)
    {
      assert Genuine(x, s, trusted, crypto);
      TrustedFromFiles(files, times, crypto, x.key);
      var i :| 0 <= i < |files| && TrustedKey(files[i], times[i], crypto) == Some(x.key);
      TrustedIsCertified(x.key, files[i], times[i], crypto);
    }
  }

  // ---------------------------------------------------------------- delivery

  function Concat(segments: seq<bytes>): bytes {
    if segments == [] then [] else segments[0] + Concat(segments[1..])
  }

  lemma ConcatNothing()
    ensures Concat([]) == []
  {}

  lemma ConcatCons(first: bytes, rest: seq<bytes>)
    ensures Concat([first] + rest) == first + Concat(rest)
  {
    assert ([first] + rest)[1..] == rest;
  }

  lemma SplitAt(s: bytes, n: nat, t: bytes)
    requires n <= |s|
    ensures s[..n] + (s[n..] + t) == s + t
  {}

  lemma ConcatAfterRead(segments: seq<bytes>, n: nat)
    requires segments != [] && 0 < n <= |segments[0]|
    ensures Concat(segments) == segments[0][..n] + Concat(AfterRead(segments, n))
  {
    var (first, rest) := (segments[0], segments[1..]);
    ConcatCons(first[n..], rest);
    SplitAt(first, n, Concat(rest));
    if n == |first| { assert first[..n] == first; }
  }

  lemma AfterReadNonEmpty(segments: seq<bytes>, n: nat)
    requires segments != [] && 0 < n <= |segments[0]| && forall x <- segments :: x != []
    ensures forall x <- AfterRead(segments, n) :: x != []
  {
    forall x <- AfterRead(segments, n) ensures x != [] {
      if x in segments[1..] {
        assert x in segments;
      } else {
        assert x == segments[0][n..] && |x| > 0;
      }
    }
  }

  // However the bytes are cut into segments, and however the buffer must grow, reading them all
  // appends them; unless the connection would exceed the size limit.
  lemma {:induction false} ReceiveAppends(s: State, i: nat, segments: seq<bytes>, ending: Ending,
      trusted: seq<PubKey>, crypto: Crypto)
    requires Inv(s, trusted, crypto) && i < MAX_CONCURRENCY && s.conns[i].Live()
    requires ending != Failed && forall x <- segments :: x != []
    requires |s.conns[i].data| + |Concat(segments)| < 0x8000_0000
    ensures var (c, d) := (s.conns[i], Receive(s, i, segments, ending).conns[i]);
      d.Live() && d.owner == c.owner && d.data == c.data + Concat(segments)
    decreases Pending(segments)
  {
    hide Capacity, Exclusive, ReleasedOnce, CountOk, LogOk, KeysOk, Read1, AfterRead, Concat;
    var c := s.conns[i];
    if segments == [] {
      assert Concat(segments) == [] by { ConcatNothing(); }
      assert c.data + [] == c.data;
    } else {
      assert SlotOk(c, s) && segments[0] in segments;
      var n := Min(c.cap - |c.data|, |segments[0]|);
      var chunk := segments[0][..n];
      ConcatAfterRead(segments, n);
      Read1Keeps(s, i, chunk, trusted, crypto);
      var rest := AfterRead(segments, n);
      AfterReadNonEmpty(segments, n);
      ReceiveAppends(Read1(s, i, chunk), i, rest, ending, trusted, crypto);
      assert c.data + chunk + Concat(rest) == c.data + (chunk + Concat(rest));
    }
  }

  // What the events bring to slot i.
  function SentTo(i: nat, events: seq<Event>): bytes {
    if events == [] then []
    else match events[0]
      case Ready(j, readable, segments, _, _, _, _) =>
        (if j == i && readable then Concat(segments) else []) + SentTo(i, events[1..])
      case Incoming(_) => SentTo(i, events[1..])
  }

  // No event ends the connection in slot i or evicts it.
  ghost predicate StaysOpen(s: State, i: nat, events: seq<Event>, crypto: Crypto)
    requires Shape(s) && IsRun(s, events, crypto)
    decreases |events|
  {
    events == [] || (
      && (match events[0]
          case Incoming(_) => s.connsTotal < MAX_CONCURRENCY || Oldest(s.conns, MAX_CONCURRENCY) != Some(i)
          case Ready(j, _, _, ending, hangup, error, _) => j != i || (!hangup && !error && ending != Failed))
      && StaysOpen(Step(s, events[0], crypto), i, events[1..], crypto))
  }

  lemma Read1Elsewhere(s: State, i: nat, j: nat, chunk: bytes)
    requires Shape(s) && i < MAX_CONCURRENCY && j < MAX_CONCURRENCY && i != j && s.conns[j].Live()
    ensures Read1(s, j, chunk).conns[i] == s.conns[i]
  {}

  lemma {:induction false} ReceiveElsewhere(s: State, i: nat, j: nat, segments: seq<bytes>, ending: Ending)
    requires Shape(s) && i < MAX_CONCURRENCY && j < MAX_CONCURRENCY && i != j && s.conns[j].Live()
    ensures Receive(s, j, segments, ending).conns[i] == s.conns[i]
    decreases Pending(segments)
  {
    hide AfterRead, Read1;
    if segments != [] {
      var n := Min(s.conns[j].cap - |s.conns[j].data|, |segments[0]|);
      if n > 0 {
        Read1Elsewhere(s, i, j, segments[0][..n]);
        var t := Read1(s, j, segments[0][..n]);
        if t.conns[j].Live() { ReceiveElsewhere(t, i, j, AfterRead(segments, n), ending); }
      }
    }
  }

  lemma StepElsewhere(s: State, e: Event, i: nat, crypto: Crypto)
    requires Shape(s) && Enabled(s, e) && i < MAX_CONCURRENCY && s.conns[i].Live()
    requires match e
      case Incoming(_) => s.connsTotal < MAX_CONCURRENCY || Oldest(s.conns, MAX_CONCURRENCY) != Some(i)
      case Ready(j, _, _, _, _, _, _) => j != i
    ensures Step(s, e, crypto).conns[i] == s.conns[i]
  {
    hide Receive, ScanAll;
    if e.Ready? && e.readable { ReceiveElsewhere(s, i, e.slot, e.segments, e.ending); }
  }

  // Over any stretch of events in which a connection stays open, interleaved with those of other
  // connections, its buffer gathers all that it sends, in order, below the size limit.
  lemma {:induction false} Delivery(s: State, i: nat, events: seq<Event>, trusted: seq<PubKey>, crypto: Crypto)
    requires Inv(s, trusted, crypto) && i < MAX_CONCURRENCY && s.conns[i].Live()
    requires IsRun(s, events, crypto) && StaysOpen(s, i, events, crypto)
    requires |s.conns[i].data| + |SentTo(i, events)| < 0x8000_0000
    ensures var (c, d) := (s.conns[i], Run(s, events, crypto).conns[i]);
      d.Live() && d.owner == c.owner && d.data == c.data + SentTo(i, events)
    decreases |events|
  {
    hide Receive, Accept, Terminate, SlotsOk, Exclusive, ReleasedOnce, CountOk, LogOk, KeysOk;
    var c := s.conns[i];
    if events == [] {
      assert c.data + [] == c.data;
    } else {
      var (e, rest) := (events[0], events[1..]);
      var t := Step(s, e, crypto);
      StepKeeps(s, e, trusted, crypto);
      if e.Ready? && e.slot == i {
        if e.readable { ReceiveAppends(s, i, e.segments, e.ending, trusted, crypto); }
      } else {
        StepElsewhere(s, e, i, crypto);
      }
      Delivery(t, i, rest, trusted, crypto);
      var bytesNow := if e.Ready? && e.slot == i && e.readable then Concat(e.segments) else [];
      assert c.data + bytesNow + SentTo(i, rest) == c.data + (bytesNow + SentTo(i, rest));
    }
  }

  // When a connection ends, the script it sent is executed if and only if a key that has not
  // expired authenticates it; once, with the next number. If the authenticating key has signatures
  // of the sender's size, the script is the sender's.
  lemma EndOfConnection(s: State, e: Event, sig: bytes, script: bytes, trusted: seq<PubKey>, crypto: Crypto)
    requires Inv(s, trusted, crypto) && e.Ready? && Enabled(s, e) && e.hangup && (e.readable ==> e.ending != Failed)
    requires s.conns[e.slot].data + (if e.readable then Concat(e.segments) else []) == sig + [10] + script
    requires |sig + [10] + script| < 0x8000_0000
    ensures var t := Step(s, e, crypto); var data := sig + [10] + script;
      if exists k <- Unexpired(Current(s.keys), e.now) :: Authenticates(k, crypto, data) then
        exists key :: key in Unexpired(Current(s.keys), e.now) && Authenticates(key, crypto, data) &&
          t.log == s.log + [Execution(s.scriptN + 1, s.conns[e.slot].owner, key, Split(key, data).value.1, e.now)] &&
          (key.expSigSize == |sig| ==> Split(key, data).value.1 == script)
      else t.log == s.log
  {
    hide Receive, ScanAll, SlotsOk, Exclusive, ReleasedOnce, CountOk, LogOk, KeysOk, Unexpired, Authenticates, Split;
    var i := e.slot;
    if e.readable {
      ReceiveAppends(s, i, e.segments, e.ending, trusted, crypto);
      ReceiveKeeps(s, i, e.segments, e.ending, trusted, crypto);
      ReceiveLog(s, i, e.segments, e.ending);
    } else {
      assert s.conns[i].data + [] == s.conns[i].data;
    }
    var data := sig + [10] + script;
    ScanExact(s.keys, e.now, crypto, data);
    var outcome := ScanAll(s.keys, e.now, crypto, data).0;
    if outcome.Matched? { FramingRoundTrip(outcome.key, sig, script, data); }
  }

  lemma {:induction false} ReceiveLog(s: State, i: nat, segments: seq<bytes>, ending: Ending)
    requires Shape(s) && i < MAX_CONCURRENCY && s.conns[i].Live()
    ensures var r := Receive(s, i, segments, ending);
      && r.log == s.log && r.scriptN == s.scriptN && r.keys == s.keys
      && r.conns[i].owner == s.conns[i].owner && (r.conns[i].Live() ==> r.released == s.released)
    decreases Pending(segments)
  {
    hide AfterRead, Read1;
    if segments != [] {
      var n := Min(s.conns[i].cap - |s.conns[i].data|, |segments[0]|);
      if n > 0 {
        Read1Frame(s, i, segments[0][..n]);
        var t := Read1(s, i, segments[0][..n]);
        if t.conns[i].Live() { ReceiveLog(t, i, AfterRead(segments, n), ending); }
      }
    }
  }

  // ---------------------------------------------------------------- from connecting to executing

  lemma {:induction false} RunConcat(s: State, a: seq<Event>, b: seq<Event>, crypto: Crypto)
    requires Shape(s)
    ensures IsRun(s, a + b, crypto) <==> IsRun(s, a, crypto) && IsRun(Run(s, a, crypto), b, crypto)
    ensures IsRun(s, a + b, crypto) ==> Run(s, a + b, crypto) == Run(Run(s, a, crypto), b, crypto)
    decreases |a|
  {
    hide Step, Enabled;
    if a == [] {
      assert a + b == b;
    } else {
      assert (a + b)[0] == a[0] && (a + b)[1..] == a[1..] + b;
      if Enabled(s, a[0]) { RunConcat(Step(s, a[0], crypto), a[1..], b, crypto); }
    }
  }

  lemma {:induction false} SentToConcat(i: nat, a: seq<Event>, b: seq<Event>)
    ensures SentTo(i, a + b) == SentTo(i, a) + SentTo(i, b)
    decreases |a|
  {
    hide Concat;
    if a == [] {
      assert a + b == b;
    } else {
      assert (a + b)[0] == a[0] && (a + b)[1..] == a[1..] + b;
      SentToConcat(i, a[1..], b);
    }
  }

  // No scan meets a trusted key that has expired.
  ghost predicate NeverExpired(trusted: seq<PubKey>, events: seq<Event>) {
    forall e <- events :: e.Ready? && e.hangup ==> forall k <- trusted :: !HasExpired(k, e.now)
  }

  // Then the list stays as the server started with it.
  lemma {:induction false} ListStays(s: State, events: seq<Event>, trusted: seq<PubKey>, crypto: Crypto)
    requires Shape(s) && IsRun(s, events, crypto) && NeverExpired(trusted, events)
    requires trusted != [] && s.keys == Keys(trusted, |trusted|)
    ensures Run(s, events, crypto).keys == s.keys
    decreases |events|
  {
    hide Receive, ScanAll, Terminate, HasExpired, Accept;
    if events != [] {
      var e := events[0];
      if e.Ready? && e.readable { ReceiveLog(s, e.slot, e.segments, e.ending); }
      if e.Ready? && e.hangup {
        TerminateList(if e.readable then Receive(s, e.slot, e.segments, e.ending) else s, e.slot, e.now, crypto);
      }
      if e.Incoming? { AcceptList(s, e.outcome); }
      ListStays(Step(s, e, crypto), events[1..], trusted, crypto);
    }
  }

  lemma AcceptList(s: State, outcome: AcceptOutcome)
    requires Shape(s)
    ensures var t := Accept(s, outcome); t.keys == s.keys && t.log == s.log && t.scriptN == s.scriptN
  {}

  lemma TerminateList(s: State, i: nat, now: int, crypto: Crypto)
    requires Shape(s) && i < MAX_CONCURRENCY && forall k <- Current(s.keys) :: !HasExpired(k, now)
    ensures Terminate(s, i, now, crypto).keys == s.keys
  {
    hide Scan, HasExpired, Split, Authenticates;
    forall j | 0 <= j < s.keys.size ensures !HasExpired(s.keys.all[j], now) {
      assert s.keys.all[j] in Current(s.keys);
    }
    NothingRemoved(s.keys, 0, s.keys.size, now, crypto, s.conns[i].data);
  }

  // The list has lost no trusted key that is unexpired now.
  ghost predicate NoneMissing(keys: Keys, trusted: seq<PubKey>, now: int)
    requires KeyScan.Valid(keys)
  {
    multiset(Unexpired(Current(keys), now)) == multiset(Unexpired(trusted, now))
  }

  // The time of the latest scan, or since.
  function Latest(e: Event, since: int): int {
    if e.Ready? && e.hangup then e.now else since
  }

  function LatestOf(events: seq<Event>, since: int): int {
    if events == [] then since else LatestOf(events[1..], Latest(events[0], since))
  }

  // Time does not run backwards, and every scan is one that loses no unexpired key.
  ghost predicate ScansLoseNone(s: State, events: seq<Event>, since: int, crypto: Crypto)
    requires Shape(s) && IsRun(s, events, crypto)
    decreases |events|
  {
    events == [] || (
      && Latest(events[0], since) >= since
      && ScanLosesNone(s, events[0], crypto)
      && ScansLoseNone(Step(s, events[0], crypto), events[1..], Latest(events[0], since), crypto))
  }

  ghost predicate ScanLosesNone(s: State, e: Event, crypto: Crypto)
    requires Shape(s) && Enabled(s, e)
  {
    e.Ready? && e.hangup ==>
      var t := if e.readable then Receive(s, e.slot, e.segments, e.ending) else s;
      t.conns[e.slot].Live() ==> LosesNone(t.keys, e.now, crypto, t.conns[e.slot].data)
  }

  lemma StepKeepsUnexpired(s: State, e: Event, now: int, crypto: Crypto)
    requires Shape(s) && Enabled(s, e) && ScanLosesNone(s, e, crypto) && (e.Ready? && e.hangup ==> e.now <= now)
    ensures multiset(Unexpired(Current(Step(s, e, crypto).keys), now)) == multiset(Unexpired(Current(s.keys), now))
  {
    hide Receive, ScanAll, Unexpired, LosesNone, Accept, Split;
    match e
    case Incoming(outcome) => AcceptList(s, outcome);
    case Ready(i, readable, segments, ending, hangup, _, scanTime) =>
      if readable { ReceiveLog(s, i, segments, ending); }
      var t := if readable then Receive(s, i, segments, ending) else s;
      if hangup && t.conns[i].Live() {
        var (data, keys) := (t.conns[i].data, s.keys);
        KeepsUnexpiredIff(keys, scanTime, crypto, data);
        KeepsForLater(Current(ScanAll(keys, scanTime, crypto, data).1), Current(keys), scanTime, now);
      }
  }

  // Then at no time has the list lost a trusted key that is still unexpired.
  lemma {:induction false} ListKeepsUnexpired(s: State, events: seq<Event>, since: int, now: int, trusted: seq<PubKey>,
      crypto: Crypto)
    requires Shape(s) && IsRun(s, events, crypto) && ScansLoseNone(s, events, since, crypto)
    requires NoneMissing(s.keys, trusted, now) && LatestOf(events, since) <= now
    ensures NoneMissing(Run(s, events, crypto).keys, trusted, now) && since <= now
    decreases |events|
  {
    hide Step, ScanLosesNone, Unexpired, Enabled;
    if events != [] {
      var e := events[0];
      LatestGrows(Step(s, e, crypto), events[1..], Latest(e, since), crypto);
      StepKeepsUnexpired(s, e, now, crypto);
      ListKeepsUnexpired(Step(s, e, crypto), events[1..], Latest(e, since), now, trusted, crypto);
    }
  }

  lemma {:induction false} LatestGrows(s: State, events: seq<Event>, since: int, crypto: Crypto)
    requires Shape(s) && IsRun(s, events, crypto) && ScansLoseNone(s, events, since, crypto)
    ensures LatestOf(events, since) >= since
    decreases |events|
  {
    hide Step, ScanLosesNone, Enabled;
    if events != [] { LatestGrows(Step(s, events[0], crypto), events[1..], Latest(events[0], since), crypto); }
  }

  // A script sent by the connection was executed, under one of the keys, which authenticates what
  // it sent; the sender's script, if the key has signatures of the sender's size.
  ghost predicate Executed(log: seq<Execution>, owner: nat, sig: bytes, script: bytes, keys: seq<PubKey>,
      crypto: Crypto)
  {
    var data := sig + [10] + script;
    exists x <- log ::
      && x.owner == owner && x.key in keys
      && Authenticates(x.key, crypto, data) && x.script == Split(x.key, data).value.1
      && (x.key.expSigSize == |sig| ==> x.script == script)
  }

  // The hang-up of a connection that has sent all of it, when no unexpired key is missing.
  lemma LastEvent(s: State, last: Event, sig: bytes, script: bytes, trusted: seq<PubKey>, crypto: Crypto)
    requires Inv(s, trusted, crypto) && last.Ready? && Enabled(s, last) && NoneMissing(s.keys, trusted, last.now)
    requires last.hangup && (last.readable ==> last.ending != Failed)
    requires s.conns[last.slot].data + (if last.readable then Concat(last.segments) else []) == sig + [10] + script
    requires |sig + [10] + script| < 0x8000_0000
    ensures var (log, owner) := (Step(s, last, crypto).log, s.conns[last.slot].owner);
      if exists k <- Unexpired(trusted, last.now) :: Authenticates(k, crypto, sig + [10] + script)
      then Executed(log, owner, sig, script, Unexpired(trusted, last.now), crypto)
      else forall x <- log :: x.owner != owner
  {
    hide Step, Concat, Unexpired, SlotsOk, Exclusive, ReleasedOnce, CountOk, LogOk, KeysOk, HasExpired;
    SameMembers(Unexpired(Current(s.keys), last.now), Unexpired(trusted, last.now));
    EndOfConnection(s, last, sig, script, trusted, crypto);
    NotYetExecuted(s, last.slot, trusted, crypto);
    var (data, log) := (sig + [10] + script, Step(s, last, crypto).log);
    if exists k <- Unexpired(trusted, last.now) :: Authenticates(k, crypto, data) {
      assert log[|s.log|] in log;
    }
  }

  // From the state a connection is opened in, through any interleaving in which it stays open, to
  // its hang-up.
  lemma OpenToEnd(s: State, i: nat, during: seq<Event>, last: Event, sig: bytes, script: bytes,
      trusted: seq<PubKey>, crypto: Crypto)
    requires Inv(s, trusted, crypto)
    requires i < MAX_CONCURRENCY && s.conns[i].Live() && s.conns[i].data == []
    requires IsRun(s, during, crypto) && StaysOpen(s, i, during, crypto) && Enabled(Run(s, during, crypto), last)
    requires last.Ready? && last.slot == i && last.hangup && (last.readable ==> last.ending != Failed)
    requires NoneMissing(Run(s, during, crypto).keys, trusted, last.now)
    requires SentTo(i, during + [last]) == sig + [10] + script && |sig + [10] + script| < 0x8000_0000
    ensures var (log, owner) := (Step(Run(s, during, crypto), last, crypto).log, s.conns[i].owner);
      if exists k <- Unexpired(trusted, last.now) :: Authenticates(k, crypto, sig + [10] + script)
      then Executed(log, owner, sig, script, Unexpired(trusted, last.now), crypto)
      else forall x <- log :: x.owner != owner
  {
    hide Step, StaysOpen, Concat, IsRun, Run, Authenticates, Executed, SlotsOk, Exclusive, ReleasedOnce, CountOk, LogOk,
      KeysOk, Enabled, SentTo, NoneMissing, Unexpired;
    SentToConcat(i, during, [last]);
    SentToLast(i, last);
    Delivery(s, i, during, trusted, crypto);
    RunKeeps(s, during, trusted, crypto);
    LastEvent(Run(s, during, crypto), last, sig, script, trusted, crypto);
  }

  lemma SentToLast(i: nat, last: Event)
    requires last.Ready? && last.slot == i
    ensures SentTo(i, [last]) == if last.readable then Concat(last.segments) else []
  {
    hide Concat;
    assert SentTo(i, []) == [];
  }

  lemma NotYetExecuted(s: State, i: nat, trusted: seq<PubKey>, crypto: Crypto)
    requires Inv(s, trusted, crypto) && i < MAX_CONCURRENCY && s.conns[i].Live()
    ensures forall x <- s.log :: x.owner != s.conns[i].owner
  {
    hide Exclusive, ReleasedOnce, CountOk, KeysOk, Capacity, Subsequence, Owners;
    assert SlotOk(s.conns[i], s);
    forall x <- s.log ensures x.owner != s.conns[i].owner {
      var k :| 0 <= k < |s.log| && s.log[k] == x;
      assert Genuine(s.log[k], s, trusted, crypto);
    }
  }

  // The two cases in which the list is as good as new at the end of the second stretch of events:
  // no scan has met an expired key, or none has lost an unexpired one.
  ghost predicate ListIntact(trusted: seq<PubKey>, before: seq<Event>, t: State, during: seq<Event>, since: int,
      now: int, crypto: Crypto)
    requires trusted != [] && IsRun(Start(trusted), before, crypto) && Shape(t) && IsRun(t, during, crypto)
  {
    var between := LatestOf(before, since);
    || NeverExpired(trusted, before + during)
    || (&& ScansLoseNone(Start(trusted), before, since, crypto) && ScansLoseNone(t, during, between, crypto)
        && LatestOf(during, between) <= now)
  }

  lemma IntactMissesNone(trusted: seq<PubKey>, before: seq<Event>, t: State, during: seq<Event>, since: int, now: int,
      crypto: Crypto)
    requires trusted != [] && IsRun(Start(trusted), before, crypto) && Shape(t) && IsRun(t, during, crypto)
    requires ListIntact(trusted, before, t, during, since, now, crypto)
    requires t.keys == Run(Start(trusted), before, crypto).keys
    ensures NoneMissing(Run(t, during, crypto).keys, trusted, now)
  {
    hide Unexpired, IsRun, Run, Step, ScansLoseNone, LatestOf, HasExpired;
    assert Current(Start(trusted).keys) == trusted;
    if NeverExpired(trusted, before + during) {
      assert NeverExpired(trusted, before) by { forall e <- before ensures e in before + during {} }
      assert NeverExpired(trusted, during) by { forall e <- during ensures e in before + during {} }
      ListStays(Start(trusted), before, trusted, crypto);
      ListStays(t, during, trusted, crypto);
    } else {
      var between := LatestOf(before, since);
      LatestGrows(t, during, between, crypto);
      ListKeepsUnexpired(Start(trusted), before, since, now, trusted, crypto);
      ListKeepsUnexpired(t, during, between, now, trusted, crypto);
    }
  }

  // After some events, slot i goes to a new connection, which stays open during others and then
  // hangs up; and the list is intact.
  ghost predicate OpenUntil(before: seq<Event>, fd: int, clock: int, i: nat, during: seq<Event>, last: Event,
      since: int, trusted: seq<PubKey>, crypto: Crypto)
    requires trusted != []
  {
    && IsRun(Start(trusted), before, crypto)
    && var (s, arrival) := (Run(Start(trusted), before, crypto), Incoming(Opened(fd, clock)));
       && Enabled(s, arrival) && i < 128 && FirstFree(Evict(s).conns, 0) == Some(i)
       && var t := Step(s, arrival, crypto);
          && IsRun(t, during, crypto) && StaysOpen(t, i, during, crypto) && Enabled(Run(t, during, crypto), last)
          && last.Ready? && last.slot == i && last.hangup && (last.readable ==> last.ending != Failed)
          && ListIntact(trusted, before, t, during, since, last.now, crypto)
  }

  // A whole run: the server starts; after any events a connection is opened; it sends a signature,
  // a newline and a script, in whatever pieces and between whatever other events; it is not evicted
  // and hangs up. If so far no scan has met an expired key, or none has lost an unexpired one, then
  // its script is executed if a trusted key that is unexpired now authenticates it, and nothing is
  // executed for it otherwise.
  lemma SignedScriptIsExecuted(before: seq<Event>, fd: int, clock: int, i: nat, during: seq<Event>, last: Event,
      sig: bytes, script: bytes, since: int, trusted: seq<PubKey>, crypto: Crypto)
    requires trusted != [] && OpenUntil(before, fd, clock, i, during, last, since, trusted, crypto)
    requires SentTo(i, during + [last]) == sig + [10] + script && |sig + [10] + script| < 0x8000_0000
    ensures var events := before + ([Incoming(Opened(fd, clock))] + (during + [last]));
      && IsRun(Start(trusted), events, crypto)
      && var log := Run(Start(trusted), events, crypto).log;
         var owner := |Run(Start(trusted), before, crypto).received|;
         if exists k <- Unexpired(trusted, last.now) :: Authenticates(k, crypto, sig + [10] + script)
         then Executed(log, owner, sig, script, Unexpired(trusted, last.now), crypto)
         else forall x <- log :: x.owner != owner
  {
    hide StaysOpen, Authenticates, Split, SlotsOk, Exclusive, ReleasedOnce, CountOk, LogOk, KeysOk, Unexpired,
      NoneMissing, SentTo, Executed, ListIntact;
    var (s, arrival) := (Run(Start(trusted), before, crypto), Incoming(Opened(fd, clock)));
    var t := Step(s, arrival, crypto);
    StartInv(trusted, crypto);
    RunKeeps(Start(trusted), before, trusted, crypto);
    Newcomer(s, fd, clock, i, trusted, crypto);
    IntactMissesNone(trusted, before, t, during, since, last.now, crypto);
    StepKeeps(s, arrival, trusted, crypto);
    OpenToEnd(t, i, during, last, sig, script, trusted, crypto);
    RunOne(Run(t, during, crypto), last, crypto);
    RunConcat(t, during, [last], crypto);
    RunFirst(s, arrival, during + [last], crypto);
    RunConcat(Start(trusted), before, [arrival] + (during + [last]), crypto);
  }

  // From files to executions: if the trusted keys are those read from files, the script is executed
  // when the signature is one under the key of any of the trusted files that has not expired.
  lemma TrustedFileIsServed(files: seq<buffer>, times: seq<int>, n: nat, k: PubKey, before: seq<Event>, fd: int,
      clock: int, i: nat, during: seq<Event>, last: Event, sig: bytes, script: bytes, since: int, crypto: Crypto)
    requires |files| == |times| && n < |files| && TrustedKey(files[n], times[n], crypto) == Some(k)
    requires ReadCerts(files, times, crypto) != []
    requires OpenUntil(before, fd, clock, i, during, last, since, ReadCerts(files, times, crypto), crypto)
    requires SentTo(i, during + [last]) == sig + [10] + script && |sig + [10] + script| < 0x8000_0000
    requires last.Ready? && last.now <= k.expiry && |sig| == k.expSigSize && crypto.verifies(k.material, script, sig)
    ensures var trusted := ReadCerts(files, times, crypto);
      var events := before + ([Incoming(Opened(fd, clock))] + (during + [last]));
      && IsRun(Start(trusted), events, crypto)
      && Executed(Run(Start(trusted), events, crypto).log, |Run(Start(trusted), before, crypto).received|, sig, script,
           Unexpired(trusted, last.now), crypto)
  {
    hide OpenUntil, TrustedKey, ReadCerts, Executed, SentTo, IsRun, Run, Unexpired, Authenticates;
    var trusted := ReadCerts(files, times, crypto);
    TrustedFromFiles(files, times, crypto, k);
    UnexpiredMembers(trusted, last.now);
    AuthenticatesSigned(k, crypto, sig, script);
    SignedScriptIsExecuted(before, fd, clock, i, during, last, sig, script, since, trusted, crypto);
  }

  lemma RunOne(s: State, e: Event, crypto: Crypto)
    requires Shape(s) && Enabled(s, e)
    ensures IsRun(s, [e], crypto) && Run(s, [e], crypto) == Step(s, e, crypto)
  {
    hide Step, Enabled;
    assert [e][1..] == [];
  }

  lemma RunFirst(s: State, e: Event, rest: seq<Event>, crypto: Crypto)
    requires Shape(s) && Enabled(s, e) && IsRun(Step(s, e, crypto), rest, crypto)
    ensures IsRun(s, [e] + rest, crypto) && Run(s, [e] + rest, crypto) == Run(Step(s, e, crypto), rest, crypto)
  {
    hide Step, Enabled;
    assert ([e] + rest)[1..] == rest;
  }

  // A new connection gets the first free slot, with an empty buffer and the next number.
  lemma Newcomer(s: State, fd: int, clock: int, i: nat, trusted: seq<PubKey>, crypto: Crypto)
    requires Inv(s, trusted, crypto) && Enabled(s, Incoming(Opened(fd, clock)))
    requires i < MAX_CONCURRENCY && FirstFree(Evict(s).conns, 0) == Some(i)
    ensures var t := Accept(s, Opened(fd, clock));
      && t.conns[i].Live() && t.conns[i].data == [] && t.conns[i].owner == |s.received|
      && t.keys == s.keys && t.log == s.log && t.status == Running
  {
    hide Capacity, LogOk, Exclusive, ReleasedOnce, KeysOk, LiveCount, Oldest;
    EvictKeeps(s, trusted, crypto);
    assert SlotOk(Evict(s).conns[i], Evict(s));
    assert Evict(s).received == s.received;
  }

  // ---------------------------------------------------------------- when scripts are executed

  // The event is the hang-up of the execution's connection, which it releases, at the execution's
  // time, and the execution is what it adds to the log.
  ghost predicate ExecutedBy(x: Execution, s: State, e: Event, crypto: Crypto)
    requires Shape(s) && Enabled(s, e)
  {
    && e.Ready? && e.hangup && e.now == x.now
    && s.conns[e.slot].owner == x.owner && x.owner !in s.released && x.owner in Step(s, e, crypto).released
    && Step(s, e, crypto).log == s.log + [x]
  }

  lemma StepLog(s: State, e: Event, trusted: seq<PubKey>, crypto: Crypto)
    requires Inv(s, trusted, crypto) && Enabled(s, e)
    ensures var t := Step(s, e, crypto);
      t.log == s.log ||
      (|t.log| == |s.log| + 1 && t.log[..|s.log|] == s.log && ExecutedBy(t.log[|s.log|], s, e, crypto))
  {
    hide Receive, ScanAll, Split, Accept, Exclusive, ReleasedOnce, CountOk, LogOk, KeysOk, Capacity;
    match e
    case Incoming(outcome) => AcceptList(s, outcome);
    case Ready(i, readable, segments, ending, _, _, _) =>
      if readable { ReceiveLog(s, i, segments, ending); }
      assert SlotOk(s.conns[i], s);
  }

  // The event at position n executes x.
  ghost predicate ExecutedAt(x: Execution, s: State, events: seq<Event>, n: nat, crypto: Crypto)
    requires Shape(s) && n < |events|
  {
    && IsRun(s, events[..n], crypto) && Enabled(Run(s, events[..n], crypto), events[n])
    && ExecutedBy(x, Run(s, events[..n], crypto), events[n], crypto)
  }

  lemma {:induction false} LogFromEvents(s: State, events: seq<Event>, x: Execution, trusted: seq<PubKey>,
      crypto: Crypto)
    requires Inv(s, trusted, crypto) && IsRun(s, events, crypto) && x in Run(s, events, crypto).log && x !in s.log
    ensures exists n | 0 <= n < |events| :: ExecutedAt(x, s, events, n, crypto)
    decreases |events|
  {
    hide Step, Enabled, ExecutedBy, SlotsOk, Exclusive, ReleasedOnce, CountOk, LogOk, KeysOk;
    var (e, rest) := (events[0], events[1..]);
    var t := Step(s, e, crypto);
    StepKeeps(s, e, trusted, crypto);
    StepLog(s, e, trusted, crypto);
    if x in t.log {
      NothingRun(s, crypto);
      assert events[..0] == [];
      NewEntry(s.log, t.log, x);
      assert ExecutedAt(x, s, events, 0, crypto);
    } else {
      LogFromEvents(t, rest, x, trusted, crypto);
      var n :| 0 <= n < |rest| && ExecutedAt(x, t, rest, n, crypto);
      RunFirst(s, e, rest[..n], crypto);
      assert events[..n + 1] == [e] + rest[..n] && events[n + 1] == rest[n];
      assert ExecutedAt(x, s, events, n + 1, crypto);
    }
  }

  lemma NothingRun(s: State, crypto: Crypto)
    requires Shape(s)
    ensures IsRun(s, [], crypto) && Run(s, [], crypto) == s
  {}

  lemma NewEntry(log: seq<Execution>, longer: seq<Execution>, x: Execution)
    requires x in longer && x !in log && (longer == log || (|longer| == |log| + 1 && log == longer[..|log|]))
    ensures longer != log && longer[|log|] == x
  {}

  // Every execution in a run is the work of one event: the hang-up that ends its connection, at the
  // time recorded, at which its key had not expired.
  lemma ExecutedWhenEnded(trusted: seq<PubKey>, events: seq<Event>, crypto: Crypto)
    requires trusted != [] && IsRun(Start(trusted), events, crypto)
    ensures forall x <- Run(Start(trusted), events, crypto).log ::
      x.now <= x.key.expiry && exists n | 0 <= n < |events| :: ExecutedAt(x, Start(trusted), events, n, crypto)
  {
    hide IsRun, Run, ExecutedAt, SlotsOk, Exclusive, ReleasedOnce, CountOk, KeysOk, Subsequence;
    StartInv(trusted, crypto);
    ExecutionSafety(trusted, events, crypto);
    forall x <- Run(Start(trusted), events, crypto).log
      ensures x.now <= x.key.expiry && exists n | 0 <= n < |events| :: ExecutedAt(x, Start(trusted), events, n, crypto)
    {
      var log := Run(Start(trusted), events, crypto).log;
      var k :| 0 <= k < |log| && log[k] == x;
      assert Genuine(log[k], Run(Start(trusted), events, crypto), trusted, crypto);
      LogFromEvents(Start(trusted), events, x, trusted, crypto);
    }
  }

  // ---------------------------------------------------------------- eviction

  // A connection survives the arrival of another one if and only if the table is not full or it is
  // not the one the search for the oldest settles on. If it is, its slot goes to the newcomer at
  // once, or is empty, or the program ends.
  lemma EvictionReusesSlot(s: State, outcome: AcceptOutcome, i: nat, trusted: seq<PubKey>, crypto: Crypto)
    requires Inv(s, trusted, crypto) && Enabled(s, Incoming(outcome)) && i < MAX_CONCURRENCY && s.conns[i].Live()
    ensures var t := Accept(s, outcome);
      var survives := s.connsTotal < MAX_CONCURRENCY || Oldest(s.conns, MAX_CONCURRENCY) != Some(i);
      && (t.conns[i].Live() && t.conns[i].owner == s.conns[i].owner <==> survives)
      && (!survives ==>
           && t.released == s.released + [s.conns[i].owner]
           && match outcome
              case Opened(fd, clock) =>
                t.conns[i] == Conn(fd, clock, [], s.conns[i].cap, |s.received|) && t.status == Running
              case AcceptFailed => !t.conns[i].Live() && t.status == Running
              case EpollFailed => !t.conns[i].Live() && t.status == Aborted)
  {
    hide Capacity, LogOk, Exclusive, ReleasedOnce, KeysOk, LiveCount, Oldest;
    CountBound(s.conns);
    EvictKeeps(s, trusted, crypto);
    assert SlotOk(s.conns[i], s);
    CapacityPositive(s.conns[i].cap);
    if s.connsTotal >= MAX_CONCURRENCY && Oldest(s.conns, MAX_CONCURRENCY) == Some(i) {
      assert forall j | 0 <= j < i :: Evict(s).conns[j].Live();
      assert FirstFree(Evict(s).conns, 0) == Some(i);
    }
  }

  // So an event of the evicted connection that is handled after the accept is taken for one of the
  // newcomer, which is released although nothing happened to it; or the server closes, if not more
  // keys are left than have expired.
  lemma StaleEventEndsNewcomer(s: State, fd: int, clock: int, i: nat, hangup: bool, error: bool, now: int,
      trusted: seq<PubKey>, crypto: Crypto)
    requires Inv(s, trusted, crypto) && Enabled(s, Incoming(Opened(fd, clock)))
    requires s.connsTotal == MAX_CONCURRENCY && Oldest(s.conns, MAX_CONCURRENCY) == Some(i) && (hangup || error)
    ensures var events := [Incoming(Opened(fd, clock)), Ready(i, false, [], Drained, hangup, error, now)];
      && IsRun(s, events, crypto)
      && var t := Run(s, events, crypto);
         && t.log == s.log
         && (t.status == Closed <==> hangup && 2 * |Unexpired(Current(s.keys), now)| <= s.keys.size)
         && (t.status != Closed ==> !t.conns[i].Live() && t.released == s.released + [s.conns[i].owner, |s.received|])
  {
    hide Capacity, LogOk, Exclusive, ReleasedOnce, KeysOk, LiveCount, Oldest, Evict, ScanAll, Unexpired, SlotsOk;
    var (arrival, stale) := (Incoming(Opened(fd, clock)), Ready(i, false, [], Drained, hangup, error, now));
    var u := Accept(s, Opened(fd, clock));
    EvictionReusesSlot(s, Opened(fd, clock), i, trusted, crypto);
    AcceptKeeps(s, Opened(fd, clock), trusted, crypto);
    AcceptList(s, Opened(fd, clock));
    NothingAuthenticates(u.keys, now, crypto);
    RunOne(u, stale, crypto);
    RunFirst(s, arrival, [stale], crypto);
    assert [arrival] + [stale] == [arrival, stale];
  }

  // Nothing received does not even split.
  lemma NothingAuthenticates(k: Keys, now: int, crypto: Crypto)
    requires KeyScan.Valid(k)
    ensures ScanAll(k, now, crypto, []).0
      == if 2 * |Unexpired(Current(k), now)| <= k.size then AllExpired else Unmatched
  {
    hide Unexpired, Scan;
    ScanExact(k, now, crypto, []);
    ClosesIff(k, now, crypto, []);
  }

  lemma CapacityPositive(cap: nat)
    requires Capacity(cap)
    ensures cap > 0
  {
    Doubling(cap);
  }
}
