/** What one event makes of the whole state, and what follows of it for runs. */
module ServerOutcomes {
  import opened Bytes
  import opened Policy
  import opened KeyScan
  import opened Server
  import opened ServerInvariant
  import opened ServerRuns

  // ---------------------------------------------------------------- a connection's event

  // What the connection has sent once the event's data have been read.
  function Sent(s: State, e: Event): bytes
    requires Shape(s) && e.Ready? && Enabled(s, e)
  {
    s.conns[e.slot].data + if e.readable then Concat(e.segments) else []
  }

  // Reading leaves the connection open: no read fails, and it has sent less than two gigabytes.
  predicate Survives(s: State, e: Event)
    requires Shape(s) && e.Ready? && Enabled(s, e)
  {
    e.readable ==> e.ending != Failed && |Sent(s, e)| < 0x8000_0000
  }

  ghost predicate Matches(s: State, e: Event, crypto: Crypto)
    requires Shape(s) && e.Ready? && Enabled(s, e)
  {
    exists k <- Unexpired(Current(s.keys), e.now) :: Authenticates(k, crypto, Sent(s, e))
  }

  // The server closes when a connection hangs up that no unexpired key authenticates, and at least
  // as many keys of the list have expired as have not.
  ghost predicate Closes(s: State, e: Event, crypto: Crypto)
    requires Shape(s) && Enabled(s, e)
  {
    && e.Ready? && e.hangup && Survives(s, e)
    && !Matches(s, e, crypto) && 2 * |Unexpired(Current(s.keys), e.now)| <= s.keys.size
  }

  // Only the data, the capacity, and whether it is in use may differ.
  ghost predicate SameConnection(c: Conn, d: Conn) {
    c.fd == d.fd && c.openTime == d.openTime && c.owner == d.owner
  }

  lemma Read1Exact(s: State, i: nat, chunk: bytes)
    requires Shape(s) && i < MAX_CONCURRENCY && s.conns[i].Live()
    ensures var (c, t) := (s.conns[i], Read1(s, i, chunk));
      && t.status == s.status && t.keys == s.keys && t.log == s.log && t.scriptN == s.scriptN
      && |t.received| == |s.received|
      && (forall j | 0 <= j < MAX_CONCURRENCY && j != i :: t.conns[j] == s.conns[j])
      && if |c.data + chunk| < 0x8000_0000
         then SameConnection(t.conns[i], c) && t.conns[i].data == c.data + chunk && t.released == s.released
         else !t.conns[i].Live() && t.released == s.released + [c.owner]
  {}

  // The receive loop, in all cases.
  lemma {:induction false} ReceiveExact(s: State, i: nat, segments: seq<bytes>, ending: Ending, trusted: seq<PubKey>,
      crypto: Crypto)
    requires Inv(s, trusted, crypto) && i < MAX_CONCURRENCY && s.conns[i].Live() && forall x <- segments :: x != []
    ensures var (c, t) := (s.conns[i], Receive(s, i, segments, ending));
      && t.status == s.status && t.keys == s.keys && t.log == s.log && t.scriptN == s.scriptN
      && |t.received| == |s.received|
      && (forall j | 0 <= j < MAX_CONCURRENCY && j != i :: t.conns[j] == s.conns[j])
      && if ending != Failed && |c.data| + |Concat(segments)| < 0x8000_0000
         then SameConnection(t.conns[i], c) && t.conns[i].data == c.data + Concat(segments) && t.released == s.released
         else !t.conns[i].Live() && t.released == s.released + [c.owner]
    decreases Pending(segments)
  {
    hide Capacity, Exclusive, ReleasedOnce, CountOk, LogOk, KeysOk, Read1, AfterRead, Concat;
    var c := s.conns[i];
    assert SlotOk(c, s);
    if segments == [] {
      ConcatNothing();
      Doubling(c.cap);
      assert c.data + [] == c.data;
    } else {
      assert segments[0] in segments;
      var n := Min(c.cap - |c.data|, |segments[0]|);
      var (chunk, rest) := (segments[0][..n], AfterRead(segments, n));
      ConcatAfterRead(segments, n);
      Read1Exact(s, i, chunk);
      Read1Keeps(s, i, chunk, trusted, crypto);
      AfterReadNonEmpty(segments, n);
      if |c.data + chunk| < MAX_SCRIPT_SIZE {
        ReceiveExact(Read1(s, i, chunk), i, rest, ending, trusted, crypto);
        assert c.data + chunk + Concat(rest) == c.data + (chunk + Concat(rest));
      }
    }
  }

  // The end of a connection, in all cases.
  lemma TerminateExact(s: State, i: nat, now: int, crypto: Crypto)
    requires Shape(s) && i < MAX_CONCURRENCY && s.conns[i].Live() && s.status == Running && s.scriptN == |s.log|
    ensures var (c, t, unexpired) := (s.conns[i], Terminate(s, i, now, crypto), Unexpired(Current(s.keys), now));
      var matches := exists k <- unexpired :: Authenticates(k, crypto, c.data);
      && t.keys == ScanAll(s.keys, now, crypto, c.data).1 && t.received == s.received
      && (forall j | 0 <= j < MAX_CONCURRENCY && j != i :: t.conns[j] == s.conns[j])
      && (if !matches && 2 * |unexpired| <= s.keys.size
          then t.status == Closed && t.conns[i] == c && t.released == s.released
          else t.status == Running && !t.conns[i].Live() && t.released == s.released + [c.owner])
      && (if matches then ExecutesOne(s.keys, s.log, t.log, c.owner, now, c.data, crypto) else t.log == s.log)
  {
    hide ScanAll, Unexpired, Authenticates, Split;
    var data := s.conns[i].data;
    ScanExact(s.keys, now, crypto, data);
    ClosesIff(s.keys, now, crypto, data);
    var outcome := ScanAll(s.keys, now, crypto, data).0;
    if outcome.Matched? {
      var longer := Terminate(s, i, now, crypto).log;
      assert ExecutesKey(s.keys, s.log, longer, s.conns[i].owner, now, data, crypto, outcome.key);
    }
  }

  // One script is added to the log, with the next number: that which an unexpired key of the list,
  // by which the data are authentic, splits off.
  ghost predicate ExecutesOne(keys: Keys, log: seq<Execution>, longer: seq<Execution>, owner: nat, now: int,
      data: bytes, crypto: Crypto)
    requires KeyScan.Valid(keys)
  {
    exists key: PubKey :: ExecutesKey(keys, log, longer, owner, now, data, crypto, key)
  }

  ghost predicate ExecutesKey(keys: Keys, log: seq<Execution>, longer: seq<Execution>, owner: nat, now: int,
      data: bytes, crypto: Crypto, key: PubKey)
    requires KeyScan.Valid(keys)
  {
    && key in Unexpired(Current(keys), now) && Authenticates(key, crypto, data)
    && longer == log + [Execution(|log| + 1, owner, key, Split(key, data).value.1, now)]
  }

  lemma LogCounted(s: State, trusted: seq<PubKey>, crypto: Crypto)
    requires Inv(s, trusted, crypto)
    ensures s.scriptN == |s.log|
  {}

  // What a connection's event does, in all cases.
  lemma ReadyExact(s: State, e: Event, trusted: seq<PubKey>, crypto: Crypto)
    requires Inv(s, trusted, crypto) && e.Ready? && Enabled(s, e)
    ensures var (c, t, data) := (s.conns[e.slot], Step(s, e, crypto), Sent(s, e));
      var ends := Survives(s, e) && e.hangup;
      && t.status == (if Closes(s, e, crypto) then Closed else Running)
      && t.keys == (if ends then ScanAll(s.keys, e.now, crypto, data).1 else s.keys)
      && (if Closes(s, e, crypto) || (Survives(s, e) && !e.hangup && !e.error)
          then SameConnection(t.conns[e.slot], c) && t.conns[e.slot].data == data && t.released == s.released
          else !t.conns[e.slot].Live() && t.released == s.released + [c.owner])
      && (if ends && Matches(s, e, crypto) then ExecutesOne(s.keys, s.log, t.log, c.owner, e.now, data, crypto)
          else t.log == s.log)
      && (forall j | 0 <= j < MAX_CONCURRENCY && j != e.slot :: t.conns[j] == s.conns[j])
      && |t.received| == |s.received|
  {
    hide Receive, Terminate, ScanAll, Concat, Unexpired, Authenticates, Split, Exclusive, ReleasedOnce, CountOk, LogOk,
      KeysOk, Capacity, ExecutesOne;
    var i := e.slot;
    assert SlotOk(s.conns[i], s);
    if e.readable { ReceiveExact(s, i, e.segments, e.ending, trusted, crypto); }
    assert s.conns[i].data + [] == s.conns[i].data;
    var r := if e.readable then Receive(s, i, e.segments, e.ending) else s;
    LogCounted(s, trusted, crypto);
    if r.conns[i].Live() && e.hangup { TerminateExact(r, i, e.now, crypto); }
  }

  // A hang-up, an error flag or a failed read releases the connection, unless the server closes.
  lemma EndedMeansReleased(s: State, e: Event, trusted: seq<PubKey>, crypto: Crypto)
    requires Inv(s, trusted, crypto) && e.Ready? && Enabled(s, e)
    requires e.hangup || e.error || (e.readable && e.ending == Failed)
    ensures var t := Step(s, e, crypto);
      if Closes(s, e, crypto) then t.status == Closed else t.status == Running && !t.conns[e.slot].Live()
  {
    hide Step, Closes, Matches;
    ReadyExact(s, e, trusted, crypto);
  }

  // ---------------------------------------------------------------- an arrival

  // What an arrival does, in all cases. A full table first releases its oldest connection; the new
  // one gets a free slot, with the slot's buffer or a kilobyte; all others stay as they are.
  lemma IncomingExact(s: State, outcome: AcceptOutcome, trusted: seq<PubKey>, crypto: Crypto)
    requires Inv(s, trusted, crypto) && Enabled(s, Incoming(outcome))
    ensures var (t, oldest) := (Accept(s, outcome), Oldest(s.conns, 128));
      && t.status == (if outcome.EpollFailed? then Aborted else Running)
      && t.keys == s.keys && t.log == s.log
      && (s.connsTotal == 128 ==> oldest.Some?)
      && t.released == (if s.connsTotal == 128 then s.released + [s.conns[oldest.value].owner] else s.released)
      && match outcome
         case Opened(fd, clock) =>
           && t.received == s.received + [[]]
           && exists i | 0 <= i < 128 ::
                && (!s.conns[i].Live() || (s.connsTotal == 128 && oldest == Some(i)))
                && t.conns[i] == Conn(fd, clock, [], if s.conns[i].cap == 0 then 1024 else s.conns[i].cap, |s.received|)
                && OthersStay(s, t, i)
         case _ =>
           && t.received == s.received
           && forall j | 0 <= j < 128 ::
                if s.connsTotal == 128 && oldest == Some(j) then !t.conns[j].Live() else t.conns[j] == s.conns[j]
  {
    hide Capacity, LogOk, Exclusive, ReleasedOnce, KeysOk, LiveCount, Oldest;
    CountBound(s.conns);
    EvictKeeps(s, trusted, crypto);
    AcceptKeeps(s, outcome, trusted, crypto);
    forall j | 0 <= j < MAX_CONCURRENCY ensures SlotOk(s.conns[j], s) {}
    OldestIsOldest(s.conns, MAX_CONCURRENCY);
    if outcome.Opened? {
      var i := FirstFree(Evict(s).conns, 0).value;
      assert OthersStay(s, Accept(s, outcome), i);
    }
  }

  ghost predicate OthersStay(s: State, t: State, i: nat)
    requires Shape(s) && Shape(t)
  {
    forall j | 0 <= j < 128 && j != i :: t.conns[j] == s.conns[j]
  }

  // ---------------------------------------------------------------- when the server ends

  // In a run, every event finds the server running. At its end the server has closed if and only if
  // the last event closes it, and was aborted if and only if that is an arrival epoll refuses.
  lemma WhenServerCloses(trusted: seq<PubKey>, events: seq<Event>, crypto: Crypto)
    requires trusted != [] && IsRun(Start(trusted), events, crypto)
    ensures var status := Run(Start(trusted), events, crypto).status;
      if events == [] then status == Running
      else
        var (before, last) := (events[..|events| - 1], events[|events| - 1]);
        && IsRun(Start(trusted), before, crypto)
        && var s := Run(Start(trusted), before, crypto);
           && Enabled(s, last)
           && (status == Closed <==> Closes(s, last, crypto))
           && (status == Aborted <==> last == Incoming(EpollFailed))
  {
    hide Step, Enabled, Closes, IsRun, Run, SlotsOk, Exclusive, ReleasedOnce, CountOk, LogOk, KeysOk;
    NothingRun(Start(trusted), crypto);
    if events != [] {
      var (before, last) := (events[..|events| - 1], events[|events| - 1]);
      assert events == before + [last];
      RunConcat(Start(trusted), before, [last], crypto);
      var s := Run(Start(trusted), before, crypto);
      RunLast(s, last, crypto);
      StartInv(trusted, crypto);
      RunKeeps(Start(trusted), before, trusted, crypto);
      StepEnds(s, last, trusted, crypto);
    }
  }

  lemma RunLast(s: State, e: Event, crypto: Crypto)
    requires Shape(s) && IsRun(s, [e], crypto)
    ensures Enabled(s, e) && Run(s, [e], crypto) == Step(s, e, crypto)
  {
    hide Step, Enabled;
    assert [e][1..] == [];
  }

  lemma StepEnds(s: State, e: Event, trusted: seq<PubKey>, crypto: Crypto)
    requires Inv(s, trusted, crypto) && Enabled(s, e)
    ensures Step(s, e, crypto).status == Closed <==> Closes(s, e, crypto)
    ensures Step(s, e, crypto).status == Aborted <==> e == Incoming(EpollFailed)
  {
    hide Accept, HandleReady, Matches;
    if e.Ready? { ReadyExact(s, e, trusted, crypto); } else { IncomingExact(s, e.outcome, trusted, crypto); }
  }

  // ---------------------------------------------------------------- who is the oldest

  // Descriptor and clock of the connections that events bring, in order.
  function Arrivals(events: seq<Event>): seq<(int, int)> {
    if events == [] then [] else Arrival(events[0]) + Arrivals(events[1..])
  }

  function Arrival(e: Event): seq<(int, int)> {
    match e
    case Incoming(Opened(fd, clock)) => [(fd, clock)]
    case _ => []
  }

  // Every connection in the table has the descriptor and the clock it arrived with.
  ghost predicate Dated(s: State, arrivals: seq<(int, int)>)
    requires Shape(s)
  {
    && |arrivals| == |s.received|
    && forall i | 0 <= i < 128 && s.conns[i].Live() ::
         arrivals[s.conns[i].owner] == (s.conns[i].fd, s.conns[i].openTime)
  }

  lemma StepDated(s: State, e: Event, arrivals: seq<(int, int)>, trusted: seq<PubKey>, crypto: Crypto)
    requires Inv(s, trusted, crypto) && Enabled(s, e) && Dated(s, arrivals)
    ensures Dated(Step(s, e, crypto), arrivals + Arrival(e))
  {
    hide Accept, HandleReady, Matches, Closes, Oldest, ExecutesOne, SlotsOk, Exclusive, ReleasedOnce, CountOk, LogOk,
      KeysOk;
    if e.Ready? { ReadyExact(s, e, trusted, crypto); } else { IncomingExact(s, e.outcome, trusted, crypto); }
  }

  lemma {:induction false} RunDated(s: State, events: seq<Event>, arrivals: seq<(int, int)>, trusted: seq<PubKey>,
      crypto: Crypto)
    requires Inv(s, trusted, crypto) && IsRun(s, events, crypto) && Dated(s, arrivals)
    ensures Dated(Run(s, events, crypto), arrivals + Arrivals(events))
    decreases |events|
  {
    hide Step, Dated, Arrival, SlotsOk, Exclusive, ReleasedOnce, CountOk, LogOk, KeysOk, Enabled;
    if events == [] {
      assert arrivals + [] == arrivals;
    } else {
      var (e, rest) := (events[0], events[1..]);
      StepKeeps(s, e, trusted, crypto);
      StepDated(s, e, arrivals, trusted, crypto);
      RunDated(Step(s, e, crypto), rest, arrivals + Arrival(e), trusted, crypto);
      assert arrivals + Arrival(e) + Arrivals(rest) == arrivals + (Arrival(e) + Arrivals(rest));
    }
  }

  // In every reachable state: the connections are numbered as they arrived, and each one in the
  // table has the descriptor and the clock it arrived with.
  lemma ReachableDates(trusted: seq<PubKey>, events: seq<Event>, crypto: Crypto)
    requires trusted != [] && IsRun(Start(trusted), events, crypto)
    ensures Dated(Run(Start(trusted), events, crypto), Arrivals(events))
  {
    hide Run, IsRun, SlotsOk, Exclusive, ReleasedOnce, CountOk, LogOk, KeysOk;
    StartInv(trusted, crypto);
    RunDated(Start(trusted), events, [], trusted, crypto);
    assert [] + Arrivals(events) == Arrivals(events);
  }

  // The connection evicted is the one that arrived at the earliest clock, in the lowest slot among
  // those that did.
  lemma EvictsEarliest(trusted: seq<PubKey>, events: seq<Event>, outcome: AcceptOutcome, crypto: Crypto)
    requires trusted != [] && IsRun(Start(trusted), events, crypto)
    requires var s := Run(Start(trusted), events, crypto); Enabled(s, Incoming(outcome)) && s.connsTotal == 128
    ensures var (s, a) := (Run(Start(trusted), events, crypto), Arrivals(events));
      Dated(s, a) && exists i | 0 <= i < 128 ::
        && s.conns[i].Live()
        && Accept(s, outcome).released == s.released + [s.conns[i].owner]
        && forall j | 0 <= j < 128 :: s.conns[j].Live() && (
             a[s.conns[i].owner].1 < a[s.conns[j].owner].1
             || (a[s.conns[i].owner].1 == a[s.conns[j].owner].1 && i <= j))
  {
    hide Run, IsRun, Oldest, Accept, Exclusive, ReleasedOnce, LogOk, KeysOk, LiveCount, Capacity;
    var s := Run(Start(trusted), events, crypto);
    StartInv(trusted, crypto);
    RunKeeps(Start(trusted), events, trusted, crypto);
    ReachableDates(trusted, events, crypto);
    IncomingExact(s, outcome, trusted, crypto);
    CountBound(s.conns);
    forall j | 0 <= j < MAX_CONCURRENCY ensures SlotOk(s.conns[j], s) {}
    OldestIsOldest(s.conns, MAX_CONCURRENCY);
  }
}
