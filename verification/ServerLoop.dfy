/** The event loop on its own data: arrays of connections and keys, updated in place. */
module ServerLoop {
  import opened Bytes
  import opened Policy
  import opened KeyScan
  import opened Server
  import opened ServerInvariant

  // An entry of the table. The buffer is null until the slot is first used; later connections in
  // the slot use it again. Its first bufSize bytes have been received.
  datatype Connection = Connection(fd: int, openTime: int, bufSize: uint64, bufCap: uint64, buf: array?<byte>)

  predicate Sound(c: Connection) {
    if c.buf == null then c.bufSize == c.bufCap == 0 else c.bufSize <= c.bufCap == c.buf.Length && c.bufCap > 0
  }

  function Received(c: Connection): bytes
    requires Sound(c)
    reads c.buf
  {
    if c.buf == null then [] else c.buf[..c.bufSize]
  }

  function Abstract(c: Connection, owner: nat, data: bytes): Conn {
    Conn(c.fd, c.openTime, data, c.bufCap, owner)
  }

  function AbstractAll(cs: seq<Connection>, owners: seq<nat>, datas: seq<bytes>): (r: seq<Conn>)
    requires |cs| == |owners| == |datas|
    ensures |r| == |cs| && forall i | 0 <= i < |cs| :: r[i] == Abstract(cs[i], owners[i], datas[i])
  {
    seq(|cs|, i requires 0 <= i < |cs| => Abstract(cs[i], owners[i], datas[i]))
  }

  class EventLoop {
    var scriptN: nat
    const keys: array<PubKey>
    var keysSize: nat
    const conns: array<Connection>
    var connsTotal: uint64
    var status: Status

    // The past, the number of the connection in each slot, and what its buffer holds.
    ghost var owners: seq<nat>
    ghost var datas: seq<bytes>
    ghost var received: seq<bytes>
    ghost var released: seq<nat>
    ghost var log: seq<Execution>

    ghost const trusted: seq<PubKey>
    const crypto: Crypto

    ghost predicate Sized()
      reads `owners, `datas, `keysSize
    {
      conns.Length == MAX_CONCURRENCY == |owners| == |datas| && 1 <= keysSize <= keys.Length
    }

    ghost function Buffers(): set<array?<byte>>
      reads conns
    {
      set i | 0 <= i < conns.Length :: conns[i].buf
    }

    // No two entries share a buffer, and each buffer holds what it should.
    ghost predicate Stored()
      reads `datas, conns, Buffers()
    {
      && |datas| == conns.Length
      && (forall i, j | 0 <= i < j < conns.Length :: conns[i].buf == null || conns[i].buf != conns[j].buf)
      && (forall i | 0 <= i < conns.Length :: Sound(conns[i]) && Received(conns[i]) == datas[i])
    }

    ghost function View(): State
      requires Sized()
      reads this, keys, conns
    {
      State(AbstractAll(conns[..], owners, datas), connsTotal, Keys(keys[..], keysSize), scriptN, status,
        received, released, log)
    }

    ghost predicate Valid()
      reads this, keys, conns, Buffers()
    {
      Sized() && Stored() && Inv(View(), trusted, crypto)
    }

    // A buffer is the one the slot had, or new.
    twostate predicate BuffersKept()
      reads conns
    {
      forall i | 0 <= i < conns.Length :: conns[i].buf == old(conns[i].buf) || fresh(conns[i].buf)
    }

    constructor (trusted: seq<PubKey>, crypto: Crypto)
      requires trusted != []
      ensures Valid() && View() == Start(trusted) && this.trusted == trusted && this.crypto == crypto
      ensures fresh(keys) && fresh(conns)
    {
      scriptN, keysSize, connsTotal, status := 0, |trusted|, 0, Running;
      keys := new PubKey[|trusted|](i requires 0 <= i < |trusted| => trusted[i]);
      conns := new Connection[MAX_CONCURRENCY](_ => Connection(0, 0, 0, 0, null));
      owners, datas := seq(MAX_CONCURRENCY, _ => 0), seq(MAX_CONCURRENCY, _ => []);
      received, released, log := [], [], [];
      this.trusted, this.crypto := trusted, crypto;
      new;
      assert keys[..] == trusted;
      assert View() == Start(trusted);
      StartInv(trusted, crypto);
    }

    // Writes one entry of the table.
    method Store(i: nat, c: Connection, ghost owner: nat, ghost data: bytes)
      requires Sized() && Stored() && i < MAX_CONCURRENCY && Sound(c) && Received(c) == data
      requires forall j | 0 <= j < conns.Length && j != i :: c.buf == null || c.buf != conns[j].buf
      modifies conns, `owners, `datas
      ensures Sized() && Stored()
      ensures View() == old(View()).(conns := old(View()).conns[i := Abstract(c, owner, data)])
      ensures conns[..] == old(conns[..])[i := c]
      ensures owners == old(owners)[i := owner] && datas == old(datas)[i := data]
    {
      conns[i] := c;
      owners := owners[i := owner];
      datas := datas[i := data];
      assert View().conns == old(View()).conns[i := Abstract(c, owner, data)];
    }

    method FreeConn(i: nat)
      requires Sized() && Stored() && i < MAX_CONCURRENCY && conns[i].fd > 0
      requires AllBut(View(), i, trusted, crypto) && status == Running
      modifies this`connsTotal, this`owners, this`datas, this`released, conns
      ensures Valid() && View() == Release(old(View()), i) && BuffersKept()
      ensures status == Running && conns[i].fd <= 0
    {
      hide SlotOk, Holder, SlotsOk, Exclusive, ReleasedOnce, CountOk, LogOk, KeysOk;
      ReleaseKeeps(View(), i, trusted, crypto);
      Counted(View(), i, trusted, crypto);
      Store(i, conns[i].(fd := 0, bufSize := 0, openTime := 0), owners[i], []);
      connsTotal := connsTotal - 1;
      released := released + [owners[i]];
      assert View() == Release(old(View()), i);
    }

    method FindOldest() returns (oldest: Option<nat>)
      requires Sized()
      ensures oldest == Oldest(View().conns, MAX_CONCURRENCY)
    {
      oldest := None;
      var minOpenTime := MAX_INT64;
      for k := 0 to conns.Length
        invariant oldest == Oldest(View().conns, k)
        invariant minOpenTime == if oldest.Some? then View().conns[oldest.value].openTime else MAX_INT64
      {
        if conns[k].fd > 0 && conns[k].openTime < minOpenTime {
          minOpenTime := conns[k].openTime;
          oldest := Some(k);
        }
      }
    }

    method FindFree() returns (free: Option<nat>)
      requires Sized()
      ensures free == FirstFree(View().conns, 0)
    {
      for i := 0 to conns.Length
        invariant FirstFree(View().conns, 0) == FirstFree(View().conns, i)
      {
        if conns[i].fd <= 0 {
          return Some(i);
        }
      }
      return None;
    }

    method EvictOldest()
      requires Valid() && status == Running
      modifies this`connsTotal, this`owners, this`datas, this`released, conns
      ensures Valid() && View() == Evict(old(View())) && BuffersKept()
    {
      hide SlotsOk, Exclusive, ReleasedOnce, CountOk, LogOk, KeysOk, Oldest, Release;
      EvictKeeps(View(), trusted, crypto);
      if connsTotal >= MAX_CONCURRENCY {
        var oldest := FindOldest();
        assert oldest.Some? by { OldestFound(View(), trusted, crypto); }
        LiveIsReleasable(View(), oldest.value, trusted, crypto);
        FreeConn(oldest.value);
      }
    }

    // Puts an accepted connection into a free slot, with the slot's buffer or a first one.
    method Occupy(i: nat, fd: int, clock: int)
      requires Sized() && Stored() && i < MAX_CONCURRENCY && View().conns[i].data == []
      modifies this`owners, this`datas, this`received, conns
      ensures Sized() && Stored() && BuffersKept()
      ensures View() == old(View()).(
        conns := old(View()).conns[i :=
          Conn(fd, clock, [], if old(conns[i].bufCap) == 0 then KILOBYTE else old(conns[i].bufCap), |old(received)|)],
        received := old(received) + [[]])
    {
      var c := conns[i].(fd := fd, openTime := clock);
      if c.buf == null {
        var buf := new byte[KILOBYTE];
        c := c.(bufCap := KILOBYTE, bufSize := 0, buf := buf);
      }
      Store(i, c, |received|, []);
      received := received + [[]];
    }

    method CountOne()
      requires Sized() && Stored() && connsTotal < MAX_CONCURRENCY
      modifies `connsTotal
      ensures Sized() && Stored() && View() == old(View()).(connsTotal := old(connsTotal) + 1)
    {
      connsTotal := connsTotal + 1;
    }

    // The program ends, with or without a failed assertion.
    method End(how: Status)
      requires Sized() && Stored()
      modifies `status
      ensures Sized() && Stored() && View() == old(View()).(status := how)
    {
      status := how;
    }

    method AcceptConnection(outcome: AcceptOutcome)
      requires Valid() && Enabled(View(), Incoming(outcome))
      modifies this, conns
      ensures Valid() && View() == Accept(old(View()), outcome) && BuffersKept()
    {
      hide Stored, SlotsOk, Exclusive, ReleasedOnce, CountOk, LogOk, KeysOk, Evict, FirstFree;
      AcceptKeeps(View(), outcome, trusted, crypto);
      EvictKeeps(View(), trusted, crypto);
      EvictOldest();
      ghost var t := View();
      match outcome
      case AcceptFailed =>
      case EpollFailed =>
        CountOne();
        End(Aborted);
      case Opened(fd, clock) =>
        CountOne();
        var free := FindFree();
        var i := free.value;
        FreeIsEmpty(t, i, trusted, crypto);
        Occupy(i, fd, clock);
    }

    // recv: the bytes are put behind those received, in the buffer itself.
    method Write(i: nat, chunk: bytes)
      requires Sized() && Stored() && i < MAX_CONCURRENCY && conns[i].buf != null
      requires |chunk| <= conns[i].bufCap - conns[i].bufSize
      modifies conns[i].buf
      ensures Stored() && conns[i].buf[..conns[i].bufSize + |chunk|] == datas[i] + chunk
    {
      var (buf, size) := (conns[i].buf, conns[i].bufSize);
      forall k | 0 <= k < |chunk| {
        buf[size + k] := chunk[k];
      }
      assert buf[..size] == old(buf[..size]) == datas[i];
      assert buf[size..size + |chunk|] == chunk;
      assert buf[..size + |chunk|] == buf[..size] + buf[size..size + |chunk|];
      assert forall j | 0 <= j < conns.Length && j != i :: Received(conns[j]) == old(Received(conns[j]));
    }

    method Append(i: nat, chunk: bytes)
      requires Sized() && Stored() && i < MAX_CONCURRENCY && conns[i].buf != null && owners[i] < |received|
      requires |chunk| <= conns[i].bufCap - conns[i].bufSize
      modifies `owners, `datas, `received, conns, conns[i].buf
      ensures Sized() && Stored()
      ensures conns[..] == old(conns[..])[i := old(conns[i]).(bufSize := old(conns[i].bufSize) + |chunk|)]
      ensures var (v, c) := (old(View()), old(View()).conns[i]);
        View() == v.(
          conns := v.conns[i := c.(data := c.data + chunk)],
          received := v.received[c.owner := v.received[c.owner] + chunk])
    {
      Write(i, chunk);
      Store(i, conns[i].(bufSize := conns[i].bufSize + |chunk|), owners[i], datas[i] + chunk);
      received := received[owners[i] := received[owners[i]] + chunk];
    }

    // realloc to twice the size; the contents of the new half do not matter.
    method Enlarge(i: nat)
      requires Sized() && Stored() && i < MAX_CONCURRENCY && 0 < conns[i].bufCap < TWO_TO_THE_63
      modifies `owners, `datas, conns
      ensures Sized() && Stored() && BuffersKept()
      ensures var (v, c) := (old(View()), old(View()).conns[i]);
        View() == v.(conns := v.conns[i := c.(cap := 2 * c.cap)])
      ensures conns[i].fd == old(conns[i].fd)
    {
      var c := conns[i];
      var buf := new byte[2 * c.bufCap];
      forall k | 0 <= k < c.bufSize {
        buf[k] := c.buf[k];
      }
      assert buf[..c.bufSize] == Received(c);
      Store(i, c.(bufCap := 2 * c.bufCap, buf := buf), owners[i], datas[i]);
    }

    // One read: the bytes are stored; an oversize connection is released, a full buffer doubled.
    method Put(i: nat, chunk: bytes)
      requires Valid() && status == Running && i < MAX_CONCURRENCY && conns[i].fd > 0
      requires |chunk| <= conns[i].bufCap - conns[i].bufSize && conns[i].buf != null
      modifies this`connsTotal, this`owners, this`datas, this`released, this`received, conns, conns[i].buf
      ensures Valid() && View() == Read1(old(View()), i, chunk) && BuffersKept()
      ensures status == Running
    {
      hide SlotOk, Holder, SlotsOk, Exclusive, ReleasedOnce, CountOk, LogOk, KeysOk, Release;
      ghost var before := View();
      Read1Keeps(before, i, chunk, trusted, crypto);
      Room(before, i, trusted, crypto);
      ExtendKeeps(before, i, chunk, conns[i].bufCap, trusted, crypto);
      Append(i, chunk);
      if conns[i].bufSize >= MAX_SCRIPT_SIZE {
        FreeConn(i);
      } else if conns[i].bufSize >= conns[i].bufCap {
        Enlarge(i);
        assert View().conns == Read1(before, i, chunk).conns;
      }
    }

    // Reads until nothing is left, the stream ends or the connection is released.
    method ReceiveAll(i: nat, segments: seq<bytes>, ending: Ending)
      requires Valid() && status == Running && i < MAX_CONCURRENCY && conns[i].fd > 0
      modifies this`connsTotal, this`owners, this`datas, this`released, this`received, conns, conns[i].buf
      ensures Valid() && View() == Receive(old(View()), i, segments, ending) && BuffersKept()
      ensures status == Running
    {
      hide SlotsOk, Exclusive, ReleasedOnce, CountOk, LogOk, KeysOk, Read1, AfterRead, Release, Receive;
      var pending := segments;
      while pending != []
        invariant Valid() && conns[i].fd > 0 && status == Running && BuffersKept()
        invariant Receive(View(), i, pending, ending) == Receive(old(View()), i, segments, ending)
        decreases Pending(pending)
      {
        ReceiveOnce(View(), i, pending, ending);
        var n := Min(conns[i].bufCap - conns[i].bufSize, |pending[0]|);
        if n <= 0 {
          return;
        }
        Put(i, pending[0][..n]);
        if conns[i].fd <= 0 {
          return;
        }
        pending := AfterRead(pending, n);
      }
      ReceiveNothing(View(), i, ending);
      if ending == Failed {
        LiveIsReleasable(View(), i, trusted, crypto);
        FreeConn(i);
      }
    }

    // The scan of the keys for the bytes received from the connection in slot i.
    method Authenticate(i: nat, now: int) returns (outcome: Outcome, data: bytes)
      requires Valid() && i < MAX_CONCURRENCY
      modifies this`keysSize, keys
      ensures Valid() && data == datas[i]
      ensures (outcome, View()) ==
        (ScanAll(old(View()).keys, now, crypto, data).0,
         old(View()).(keys := ScanAll(old(View()).keys, now, crypto, data).1))
    {
      hide SlotOk, Holder, SlotsOk, Exclusive, ReleasedOnce, CountOk, LogOk, KeysOk, ScanAll, Split, Authenticates,
        Unexpired;
      ghost var before := View();
      data := Received(conns[i]);
      ScanExact(before.keys, now, crypto, data);
      outcome, keysSize := ScanKeys(keys, keysSize, now, crypto, data);
      RearrangedKeeps(before, View(), trusted, crypto);
    }

    // A script is executed: it gets the next number.
    method Execute(ghost owner: nat, key: PubKey, script: bytes, now: int)
      requires Sized() && Stored()
      modifies `scriptN, `log
      ensures Sized() && Stored()
      ensures View() == old(View()).(
        scriptN := old(scriptN) + 1, log := old(log) + [Execution(old(scriptN) + 1, owner, key, script, now)])
    {
      scriptN := scriptN + 1;
      log := log + [Execution(scriptN, owner, key, script, now)];
    }

    // The connection has ended: authenticate, execute, release.
    method Finish(i: nat, now: int)
      requires Valid() && status == Running && i < MAX_CONCURRENCY && conns[i].fd > 0
      modifies this, keys, conns
      ensures Valid() && View() == Terminate(old(View()), i, now, crypto) && BuffersKept()
    {
      hide Stored, SlotOk, Holder, SlotsOk, Exclusive, ReleasedOnce, CountOk, LogOk, KeysOk, ScanAll, Split,
        Authenticates, Unexpired;
      ghost var before := View();
      TerminateKeeps(before, i, now, trusted, crypto);
      var outcome, data := Authenticate(i, now);
      match outcome
      case AllExpired =>
        End(Closed);
      case Unmatched =>
        LiveIsReleasable(View(), i, trusted, crypto);
        FreeConn(i);
      case Matched(key) =>
        ScanExact(before.keys, now, crypto, data);
        assert Split(key, data).Some? by { AuthenticSplits(key, crypto, data); }
        LiveIsReleasable(View(), i, trusted, crypto);
        FreeConn(i);
        Execute(before.conns[i].owner, key, Split(key, data).value.1, now);
    }

    method HandleEvent(e: Event)
      requires Valid() && Enabled(View(), e)
      modifies this, keys, conns, Buffers()
      ensures Valid() && View() == Step(old(View()), e, crypto) && BuffersKept()
    {
      hide Accept, Receive, Terminate, Release, SlotsOk, Exclusive, ReleasedOnce, CountOk, LogOk, KeysOk;
      StepKeeps(View(), e, trusted, crypto);
      match e
      case Incoming(outcome) =>
        AcceptConnection(outcome);
      case Ready(i, readable, segments, ending, hangup, error, now) =>
        if readable {
          ReceiveKeeps(View(), i, segments, ending, trusted, crypto);
          ReceiveAll(i, segments, ending);
        }
        if conns[i].fd > 0 && hangup {
          Finish(i, now);
        }
        if status == Running && conns[i].fd > 0 && error {
          LiveIsReleasable(View(), i, trusted, crypto);
          FreeConn(i);
        }
    }
  }

  lemma LiveIsReleasable(s: State, i: nat, trusted: seq<PubKey>, crypto: Crypto)
    requires Inv(s, trusted, crypto) && i < MAX_CONCURRENCY && s.conns[i].Live()
    ensures AllBut(s, i, trusted, crypto)
  {
    hide LogOk, Exclusive, ReleasedOnce, CountOk, KeysOk, Capacity;
    assert SlotOk(s.conns[i], s);
  }

  lemma FreeIsEmpty(s: State, i: nat, trusted: seq<PubKey>, crypto: Crypto)
    requires Inv(s, trusted, crypto) && i < MAX_CONCURRENCY && !s.conns[i].Live()
    ensures s.conns[i].data == []
  {
    hide LogOk, Exclusive, ReleasedOnce, CountOk, KeysOk, Capacity;
    assert SlotOk(s.conns[i], s);
  }

  lemma Room(s: State, i: nat, trusted: seq<PubKey>, crypto: Crypto)
    requires Inv(s, trusted, crypto) && i < MAX_CONCURRENCY && s.conns[i].Live()
    ensures s.conns[i].owner < |s.received| && Capacity(s.conns[i].cap) && s.conns[i].cap <= MAX_SCRIPT_SIZE
  {
    hide LogOk, Exclusive, ReleasedOnce, CountOk, KeysOk, Capacity;
    assert SlotOk(s.conns[i], s);
    Doubling(s.conns[i].cap);
  }

  lemma OldestFound(s: State, trusted: seq<PubKey>, crypto: Crypto)
    requires Inv(s, trusted, crypto) && s.status == Running && s.connsTotal >= MAX_CONCURRENCY
    ensures Oldest(s.conns, MAX_CONCURRENCY).Some?
  {
    hide LogOk, Exclusive, ReleasedOnce, KeysOk, Capacity, LiveCount, Oldest;
    CountBound(s.conns);
    forall i | 0 <= i < MAX_CONCURRENCY ensures SlotOk(s.conns[i], s) {}
    OldestIsOldest(s.conns, MAX_CONCURRENCY);
    assert s.conns[0].Live();
  }

  lemma Counted(s: State, i: nat, trusted: seq<PubKey>, crypto: Crypto)
    requires AllBut(s, i, trusted, crypto) && s.status == Running
    ensures s.connsTotal > 0
  {
    hide LogOk, Exclusive, ReleasedOnce, KeysOk, Capacity, LiveCount;
    CountPositive(s.conns, i);
  }

  lemma AuthenticSplits(k: PubKey, crypto: Crypto, data: bytes)
    requires Authenticates(k, crypto, data)
    ensures Split(k, data).Some?
  {}

  lemma ReceiveNothing(s: State, i: nat, ending: Ending)
    requires Shape(s) && i < MAX_CONCURRENCY && s.conns[i].Live()
    ensures Receive(s, i, [], ending) == if ending == Failed then Release(s, i) else s
  {}

  lemma ReceiveOnce(s: State, i: nat, segments: seq<bytes>, ending: Ending)
    requires Shape(s) && i < MAX_CONCURRENCY && s.conns[i].Live() && segments != []
    ensures var n := Min(s.conns[i].cap - |s.conns[i].data|, |segments[0]|);
      if n <= 0 then Receive(s, i, segments, ending) == s
      else
        var t := Read1(s, i, segments[0][..n]);
        Receive(s, i, segments, ending)
          == if t.conns[i].Live() then Receive(t, i, AfterRead(segments, n), ending) else t
  {
    hide Read1, AfterRead;
  }

  // A connection to release is counted.
  lemma {:induction false} CountPositive(conns: seq<Conn>, i: nat)
    requires i < |conns| && conns[i].Live()
    ensures LiveCount(conns) > 0
  {
    if i < |conns| - 1 { CountPositive(conns[..|conns| - 1], i); }
  }
}
