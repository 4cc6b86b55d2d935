/**
 * The event loop of src/main.c as a state machine: a table of 128 connections with oldest-first
 * eviction, receive buffers that double, the list of trusted keys and the scripts executed. A
 * step handles one event; system calls are represented by their outcomes.
 */
module Server {
  import opened Bytes
  import opened Policy
  import opened KeyScan

  const MAX_CONCURRENCY: nat := 128
  const KILOBYTE: nat := 1024
  const MAX_SCRIPT_SIZE: nat := 0x8000_0000
  const MAX_INT64: int := 0x7fff_ffff_ffff_ffff

  // A slot of the table: in use when fd is positive. data are the bytes in the receive buffer and
  // cap its capacity, zero before the first use. owner numbers the connection in the slot.
  datatype Conn = Conn(fd: int, openTime: int, data: bytes, cap: nat, owner: nat) {
    predicate Live() {
      fd > 0
    }
  }

  const EMPTY_CONN: Conn := Conn(0, 0, [], 0, 0)

  datatype Status = Running | Closed | Aborted

  datatype Execution = Execution(number: nat, owner: nat, key: PubKey, script: bytes, now: int)

  // received, released and log record the past: the bytes read from each connection ever
  // accepted, the connections released in order, and the scripts executed.
  datatype State = State(
    conns: seq<Conn>,
    connsTotal: int,
    keys: Keys,
    scriptN: nat,
    status: Status,
    received: seq<bytes>,
    released: seq<nat>,
    log: seq<Execution>)

  datatype AcceptOutcome = AcceptFailed | EpollFailed | Opened(fd: int, clock: int)

  // How a series of reads ends: nothing more now, end of stream, or an error.
  datatype Ending = Drained | EndOfStream | Failed

  // A connection's event carries the segments that wait in its socket, how reading ends after
  // them, and the flags the kernel reports.
  datatype Event =
    | Incoming(outcome: AcceptOutcome)
    | Ready(slot: nat, readable: bool, segments: seq<bytes>, ending: Ending, hangup: bool, error: bool, now: int)

  // A full-size table, a list of at least one key, and live connections that have been numbered.
  predicate Shape(s: State) {
    && |s.conns| == MAX_CONCURRENCY
    && KeyScan.Valid(s.keys)
    && forall i | 0 <= i < MAX_CONCURRENCY && s.conns[i].Live() :: s.conns[i].owner < |s.received|
  }

  // All the keys that were read are in the list; the spare room behind them is never looked at.
  function Start(trusted: seq<PubKey>): (s: State)
    requires trusted != []
    ensures Shape(s)
  {
    State(seq(MAX_CONCURRENCY, _ => EMPTY_CONN), 0, Keys(trusted, |trusted|), 0, Running, [], [], [])
  }

  // ---------------------------------------------------------------- steps

  // free_conn: the buffer is kept for the next connection in the slot.
  function Release(s: State, i: nat): (r: State)
    requires Shape(s) && i < MAX_CONCURRENCY
    ensures Shape(r)
  {
    var c := s.conns[i];
    s.(conns := s.conns[i := c.(fd := 0, openTime := 0, data := [])],
       connsTotal := s.connsTotal - 1,
       released := s.released + [c.owner])
  }

  // The slot the linear search for the oldest connection settles on, looking at the first n.
  function Oldest(conns: seq<Conn>, n: nat): (r: Option<nat>)
    requires n <= |conns|
    ensures r.Some? ==> r.value < n && conns[r.value].Live()
  {
    if n == 0 then None
    else
      var best := Oldest(conns, n - 1);
      var c := conns[n - 1];
      if c.Live() && c.openTime < (if best.Some? then conns[best.value].openTime else MAX_INT64) then Some(n - 1)
      else best
  }

  // The first unused slot from position k on.
  function FirstFree(conns: seq<Conn>, k: nat): (r: Option<nat>)
    requires k <= |conns|
    ensures match r
      case Some(i) => k <= i < |conns| && !conns[i].Live() && forall j | k <= j < i :: conns[j].Live()
      case None => forall j | k <= j < |conns| :: conns[j].Live()
    decreases |conns| - k
  {
    if k == |conns| then None else if !conns[k].Live() then Some(k) else FirstFree(conns, k + 1)
  }

  // Makes room in a full table. The assertion that a connection was found ends the program.
  function Evict(s: State): (r: State)
    requires Shape(s)
    ensures Shape(r)
  {
    if s.connsTotal < MAX_CONCURRENCY then s
    else match Oldest(s.conns, MAX_CONCURRENCY)
      case Some(i) => Release(s, i)
      case None => s.(status := Aborted)
  }

  function Accept(s: State, outcome: AcceptOutcome): (r: State)
    requires Shape(s)
    ensures Shape(r)
  {
    var t := Evict(s);
    if t.status != Running then t
    else match outcome
      case AcceptFailed => t
      case EpollFailed => t.(connsTotal := t.connsTotal + 1, status := Aborted)
      case Opened(fd, clock) =>
        match FirstFree(t.conns, 0)
        case None => t.(connsTotal := t.connsTotal + 1, status := Aborted)
        case Some(i) =>
          var c := t.conns[i];
          t.(conns := t.conns[i := Conn(fd, clock, c.data, if c.cap == 0 then KILOBYTE else c.cap, |t.received|)],
             connsTotal := t.connsTotal + 1,
             received := t.received + [[]])
  }

  function Min(x: int, y: int): int {
    if x <= y then x else y
  }

  // Bytes of segments still unread.
  function Pending(segments: seq<bytes>): nat {
    if segments == [] then 0 else |segments[0]| + 1 + Pending(segments[1..])
  }

  // One successful read: n bytes enter the buffer, which doubles when it is full.
  function Read1(s: State, i: nat, chunk: bytes): (r: State)
    requires Shape(s) && i < MAX_CONCURRENCY && s.conns[i].Live()
    ensures Shape(r)
  {
    var c := s.conns[i];
    var data := c.data + chunk;
    var t := s.(received := s.received[c.owner := s.received[c.owner] + chunk]);
    if |data| >= MAX_SCRIPT_SIZE then Release(t.(conns := s.conns[i := c.(data := data)]), i)
    else t.(conns := s.conns[i := c.(data := data, cap := if |data| >= c.cap then 2 * c.cap else c.cap)])
  }

  // The receive loop. A read returns at most what fits and at most one segment; a read of nothing
  // ends the loop like an end of stream.
  function Receive(s: State, i: nat, segments: seq<bytes>, ending: Ending): (r: State)
    requires Shape(s) && i < MAX_CONCURRENCY && s.conns[i].Live()
    ensures Shape(r)
    decreases Pending(segments)
  {
    if segments == [] then
      if ending == Failed then Release(s, i) else s
    else
      var c := s.conns[i];
      var n := Min(c.cap - |c.data|, |segments[0]|);
      if n <= 0 then s
      else
        var t := Read1(s, i, segments[0][..n]);
        if !t.conns[i].Live() then t
        else Receive(t, i, AfterRead(segments, n), ending)
  }

  function AfterRead(segments: seq<bytes>, n: nat): (r: seq<bytes>)
    requires segments != [] && 0 < n <= |segments[0]|
    ensures Pending(r) < Pending(segments)
  {
    if n == |segments[0]| then segments[1..] else
      var r := [segments[0][n..]] + segments[1..];
      assert r[1..] == segments[1..];
      r
  }

  // The connection has ended: scan the keys, execute the script if one authenticates it, release.
  function Terminate(s: State, i: nat, now: int, crypto: Crypto): (r: State)
    requires Shape(s) && i < MAX_CONCURRENCY
    ensures Shape(r)
  {
    var c := s.conns[i];
    var (outcome, keys) := ScanAll(s.keys, now, crypto, c.data);
    match outcome
    case AllExpired => s.(keys := keys, status := Closed)
    case Unmatched => Release(s.(keys := keys), i)
    case Matched(key) =>
      ScanExact(s.keys, now, crypto, c.data);
      var script := Split(key, c.data).value.1;
      Release(s.(keys := keys, scriptN := s.scriptN + 1,
                 log := s.log + [Execution(s.scriptN + 1, c.owner, key, script, now)]), i)
  }

  // What the environment guarantees of an event. Descriptor 0 is taken; clock() does not return
  // its largest value; the kernel does not hand out empty segments. A connection's event is for
  // the connection now in the slot: the source asserts that there is one.
  predicate Enabled(s: State, e: Event)
    requires Shape(s)
  {
    && s.status == Running
    && match e
       case Incoming(Opened(fd, clock)) => fd > 0 && clock < MAX_INT64
       case Incoming(_) => true
       case Ready(i, _, segments, _, _, _, _) =>
         i < MAX_CONCURRENCY && s.conns[i].Live() && forall x <- segments :: x != []
  }

  function HandleReady(s: State, e: Event, crypto: Crypto): (r: State)
    requires Shape(s) && e.Ready? && Enabled(s, e)
    ensures Shape(r)
  {
    var s1 := if e.readable then Receive(s, e.slot, e.segments, e.ending) else s;
    var s2 := if s1.conns[e.slot].Live() && e.hangup then Terminate(s1, e.slot, e.now, crypto) else s1;
    if s2.status == Running && s2.conns[e.slot].Live() && e.error then Release(s2, e.slot) else s2
  }

  function Step(s: State, e: Event, crypto: Crypto): (r: State)
    requires Shape(s) && Enabled(s, e)
    ensures Shape(r)
  {
    match e
    case Incoming(outcome) => Accept(s, outcome)
    case Ready(_, _, _, _, _, _, _) => HandleReady(s, e, crypto)
  }

  // ---------------------------------------------------------------- runs

  ghost predicate IsRun(s: State, events: seq<Event>, crypto: Crypto)
    requires Shape(s)
    decreases |events|
  {
    events == [] || (Enabled(s, events[0]) && IsRun(Step(s, events[0], crypto), events[1..], crypto))
  }

  ghost function Run(s: State, events: seq<Event>, crypto: Crypto): (r: State)
    requires Shape(s) && IsRun(s, events, crypto)
    ensures Shape(r)
    decreases |events|
  {
    if events == [] then s else Run(Step(s, events[0], crypto), events[1..], crypto)
  }
}
