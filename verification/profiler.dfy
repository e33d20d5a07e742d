/** The profiler facade (profiler/profiler.cpp): a process-wide transport, a counter
    handing out scope handles, and a map from handle to the scope's packet pair.

    Clock readings are parameters: each `GetNanoseconds` call the source makes becomes
    an 8-byte value passed in. */
module Profiler {
  import opened Bytes
  import opened Packets
  import opened Transport
  import opened Wrappers

  const LoopbackAddress: string := "127.0.0.1"
  const ProfilerPort: int := 5300
  /** The largest `int`; `mapCounter++` past it is undefined behaviour. */
  const IntMax: int := 0x7fff_ffff

  /** `ProfileData` without its stopwatch: the pending scope-enter and scope-exit packets. */
  datatype ScopeRecord = ScopeRecord(enter: Packet, exit: Packet)

  /** The statics of profiler.cpp: `socketClient` (absent before `Initialize` and after
      `Destroy`), `mapCounter` and `profiles`. */
  datatype State = State(client: Option<Transport>, counter: int, profiles: map<int, ScopeRecord>)

  /** The statics before any call. */
  const Unstarted: State := State(None, 0, map[])

  /** Every handle in the map was handed out before the counter reached its value. */
  predicate HandlesBelowCounter(s: State) {
    && 0 <= s.counter
    && forall h :: h in s.profiles ==> 0 <= h < s.counter
  }

  /** Every record pairs a scope-enter packet and a scope-exit packet of one name. */
  predicate RecordsWellFormed(s: State) {
    forall h :: h in s.profiles ==>
      && s.profiles[h].enter.ScopeIn?
      && s.profiles[h].exit.ScopeOut?
      && s.profiles[h].enter.name == s.profiles[h].exit.name
  }

  predicate Valid(s: State) {
    HandlesBelowCounter(s) && RecordsWellFormed(s)
  }

  /** `Initialize`: a fresh transport, listening as a server on 127.0.0.1:5300. */
  function Initialize(s: State, time: Bytes8): (s': State)
    ensures s'.client.Some?
    ensures var t := s'.client.value;
      && t.role == Server && t.address == LoopbackAddress && t.port == ProfilerPort
      && t.queue == [] && t.peers == [] && t.worker == Idle
      && !t.connected && !t.listening && t.hello == HelloPacket(time)
    ensures s'.counter == s.counter && s'.profiles == s.profiles
  {
    var created := NewTransport(time);
    s.(client := Some(ListenAsync(created, LoopbackAddress, ProfilerPort)))
  }

  /** `std::string(scopeName.c_str())`: the name up to its first NUL byte. */
  function CString(s: seq<byte>): (r: seq<byte>)
    ensures r <= s && 0 !in r
    ensures |r| < |s| ==> s[|r|] == 0
  {
    if |s| == 0 || s[0] == 0 then [] else [s[0]] + CString(s[1..])
  }

  /** `StartScope`: hands out the current counter value, stores a scope-enter packet and
      a scope-exit packet with zero elapsed time under it, and queues the scope-enter
      packet through the transport as written. `enterTime` and `exitTime` are the two
      clock readings the constructors are given. `None` is the `std::terminate` that
      `SendPacketAsync` reaches when the transport's worker returned without being
      joined. */
  function StartScope(s: State, name: seq<byte>, enterTime: Bytes8, exitTime: Bytes8): (r: Option<(State, int)>)
    requires s.client.Some?
    requires s.counter < IntMax
    ensures r.None? <==> s.client.value.role != Unassigned && s.client.value.worker == Finished
    ensures r.Some? ==> var (s', handle) := r.value;
      && handle == s.counter && s'.counter == s.counter + 1
      && handle in s'.profiles && s'.profiles.Keys == s.profiles.Keys + {handle}
      && (forall h :: h in s.profiles && h != handle ==> s'.profiles[h] == s.profiles[h])
      && s'.client.Some?
      && SendPacketAsyncAsWritten(s.client.value, s'.profiles[handle].enter) == s'.client
    ensures r.Some? ==> var rec := r.value.0.profiles[r.value.1];
      && rec.enter == MakeScopeIn(ScopeInId, enterTime, CString(name))
      && rec.exit == MakeScopeOut(exitTime, CString(name), ZeroDouble)
      && rec.enter.name == rec.exit.name
      && rec.enter.name <= CString(name)
      && (|CString(name)| <= NameCapacity ==> rec.enter.name == CString(name))
  {
    var handle := s.counter;
    var scope := CString(name);
    var rec := ScopeRecord(MakeScopeIn(ScopeInId, enterTime, scope), MakeScopeOut(exitTime, scope, ZeroDouble));
    var sent := SendPacketAsyncAsWritten(s.client.value, rec.enter);
    if sent.None? then None
    else
      Some((s.(counter := s.counter + 1,
               profiles := s.profiles[handle := rec],
               client := sent),
            handle))
  }

  /** `EndScope`: the stored scope-exit packet gets the elapsed value and the current
      time, and is queued through the transport as written; `None` is its
      `std::terminate`. The record stays in the map. `profiles[index]` on a missing
      handle dereferences a null record, so the handle must be present. */
  function EndScope(s: State, handle: int, elapsed: Bytes8, now: Bytes8): (r: Option<State>)
    requires s.client.Some?
    requires handle in s.profiles && s.profiles[handle].exit.ScopeOut?
    ensures r.None? <==> s.client.value.role != Unassigned && s.client.value.worker == Finished
    ensures r.Some? ==> var s' := r.value;
      && s'.counter == s.counter && s'.profiles.Keys == s.profiles.Keys
      && (forall h :: h in s.profiles && h != handle ==> s'.profiles[h] == s.profiles[h])
      && s'.profiles[handle].enter == s.profiles[handle].enter
      && s'.profiles[handle].exit == ScopeOut(now, s.profiles[handle].exit.name, elapsed)
      && s'.client.Some?
      && SendPacketAsyncAsWritten(s.client.value, s'.profiles[handle].exit) == s'.client
  {
    var rec := s.profiles[handle];
    var exit := SetTime(SetNanoseconds(rec.exit, elapsed), now);
    var sent := SendPacketAsyncAsWritten(s.client.value, exit);
    if sent.None? then None
    else Some(s.(profiles := s.profiles[handle := rec.(exit := exit)], client := sent))
  }

  /** `Destroy`: the transport is deleted and the map cleared. The counter is not reset. */
  function Destroy(s: State): (s': State)
    ensures s'.client.None? && s'.profiles == map[] && s'.counter == s.counter
  {
    State(None, s.counter, map[])
  }

  /** A `ScopeProfiler` guard around a block: `StartScope` when it is built and
      `EndScope` with the same handle when it is destroyed. `None` is an abort in
      either call. */
  function GuardedScope(s: State, name: seq<byte>, enterTime: Bytes8, exitTime: Bytes8, elapsed: Bytes8, now: Bytes8): (r: Option<(State, int)>)
    requires s.client.Some?
    requires s.counter < IntMax
    ensures r.None? <==> s.client.value.role != Unassigned && s.client.value.worker == Finished
    ensures r.Some? ==> r.value.1 == s.counter && r.value.0.counter == s.counter + 1
  {
    match StartScope(s, name, enterTime, exitTime)
    case None => None
    case Some((started, handle)) =>
      match EndScope(started, handle, elapsed, now)
      case None => None
      case Some(ended) => Some((ended, handle))
  }

  /** The guard aborts exactly when the server's worker has already returned;
      otherwise it queues its scope-enter packet and then its scope-exit packet, both
      with the scope's name. */
  lemma GuardQueuesEnterThenExit(s: State, name: seq<byte>, enterTime: Bytes8, exitTime: Bytes8, elapsed: Bytes8, now: Bytes8)
    requires s.client.Some? && s.client.value.role == Server
    requires s.counter < IntMax
    ensures GuardedScope(s, name, enterTime, exitTime, elapsed, now).None? <==> s.client.value.worker == Finished
    ensures GuardedScope(s, name, enterTime, exitTime, elapsed, now).Some? ==>
      var (s', handle) := GuardedScope(s, name, enterTime, exitTime, elapsed, now).value;
      var rec := s'.profiles[handle];
      && handle in s'.profiles
      && s'.client.Some?
      && s'.client.value.queue == s.client.value.queue + [rec.enter, rec.exit]
      && rec.enter.ScopeIn? && rec.exit.ScopeOut?
      && rec.enter.name == rec.exit.name
      && rec.exit.nanoseconds == elapsed && rec.exit.time == now
  {
    var r := StartScope(s, name, enterTime, exitTime);
    if r.Some? {
      var (started, handle) := r.value;
      assert started.client.value.worker == Running;
      var ended := EndScope(started, handle, elapsed, now).value;
      assert started.client.value.queue == s.client.value.queue + [started.profiles[handle].enter];
      assert ended.profiles[handle].enter == started.profiles[handle].enter;
    }
  }

  /** The transport's respawn abort, reached through the facade: after `Initialize`
      and a first `StartScope`, the worker fails to bind and returns, and the next
      `StartScope` calls `std::terminate`. */
  lemma FailedBindAbortsNextScope(helloTime: Bytes8, name: seq<byte>, t0: Bytes8, t1: Bytes8)
    ensures var s1 := Initialize(Unstarted, helloTime);
      var first := StartScope(s1, name, t0, t1);
      && first.Some?
      && var s2 := first.value.0;
      && var failed := s2.(client := Some(WorkerSetup(s2.client.value, false)));
      && failed.counter < IntMax
      && StartScope(failed, name, t0, t1).None?
  {
  }

  // ---------------------------------------------------------------------------
  // Runs of calls

  /** One call into the facade, with the clock readings it makes. */
  datatype Call =
    | InitializeCall(time: Bytes8)
    | StartCall(name: seq<byte>, enterTime: Bytes8, exitTime: Bytes8)
    | EndCall(handle: int, elapsed: Bytes8, now: Bytes8)
    | DestroyCall

  /** Whether the source defines the call's behaviour in this state. */
  predicate Callable(s: State, c: Call) {
    match c
    case InitializeCall(_) => true
    case StartCall(_, _, _) => s.client.Some? && s.counter < IntMax
    case EndCall(h, _, _) => s.client.Some? && h in s.profiles && s.profiles[h].exit.ScopeOut?
    case DestroyCall => true
  }

  /** Applies a call; the second component is the handle a `StartScope` returned.
      `None` is an abort in the transport. */
  function Perform(s: State, c: Call): Option<(State, Option<int>)>
    requires Callable(s, c)
  {
    match c
    case InitializeCall(t) => Some((Initialize(s, t), None))
    case StartCall(n, t0, t1) =>
      (match StartScope(s, n, t0, t1)
       case None => None
       case Some((s', h)) => Some((s', Some(h))))
    case EndCall(h, e, t) =>
      (match EndScope(s, h, e, t)
       case None => None
       case Some(s') => Some((s', None)))
    case DestroyCall => Some((Destroy(s), None))
  }

  /** Every facade call that does not abort keeps the state valid. */
  lemma PerformKeepsValid(s: State, c: Call)
    requires Valid(s) && Callable(s, c)
    ensures Perform(s, c).Some? ==>
      && Valid(Perform(s, c).value.0)
      && Perform(s, c).value.0.counter >= s.counter
    ensures Perform(s, c).Some? && Perform(s, c).value.1.Some? ==>
      && Perform(s, c).value.1.value == s.counter
      && Perform(s, c).value.1.value !in s.profiles
      && Perform(s, c).value.0.counter == s.counter + 1
  {
    match c
    case InitializeCall(_) =>
    case StartCall(n, t0, t1) =>
    case EndCall(h, e, t) =>
      if Perform(s, c).Some? {
        var s' := Perform(s, c).value.0;
        forall k | k in s'.profiles
          ensures s'.profiles[k].enter.name == s'.profiles[k].exit.name
        {
          if k == h {
            assert s'.profiles[k].exit.name == s.profiles[h].exit.name;
          }
        }
      }
    case DestroyCall =>
  }

  /** Applies the callable prefix of a sequence of calls, stopping at the first call
      whose behaviour is undefined or that aborts; the second component lists the
      handles returned. */
  function PerformAll(s: State, calls: seq<Call>): (State, seq<int>)
    decreases |calls|
  {
    if |calls| == 0 || !Callable(s, calls[0]) || Perform(s, calls[0]).None? then (s, [])
    else
      var first := Perform(s, calls[0]).value;
      var rest := PerformAll(first.0, calls[1..]);
      (rest.0, (if first.1.Some? then [first.1.value] else []) + rest.1)
  }

  predicate StrictlyIncreasing(hs: seq<int>) {
    forall i, j :: 0 <= i < j < |hs| ==> hs[i] < hs[j]
  }

  /** Handles are handed out in strictly increasing order, each at least the counter
      at the start and below the counter at the end, so none repeats, across
      `Destroy` and re-`Initialize` too. */
  lemma {:induction false} HandlesNeverRepeat(s: State, calls: seq<Call>)
    requires Valid(s)
    ensures var (s', hs) := PerformAll(s, calls);
      && Valid(s')
      && StrictlyIncreasing(hs)
      && (forall i :: 0 <= i < |hs| ==> s.counter <= hs[i] < s'.counter)
    decreases |calls|
  {
    if |calls| > 0 && Callable(s, calls[0]) && Perform(s, calls[0]).Some? {
      var first := Perform(s, calls[0]).value;
      PerformKeepsValid(s, calls[0]);
      HandlesNeverRepeat(first.0, calls[1..]);
      var rest := PerformAll(first.0, calls[1..]);
      if first.1.Some? {
        CounterNeverDecreases(first.0, calls[1..]);
        PrependHandle(s.counter, first.0.counter, rest.1, rest.0.counter);
      }
    }
  }

  /** Putting a handle below every later one in front keeps the list increasing. */
  lemma PrependHandle(h: int, next: int, hs: seq<int>, last: int)
    requires h < next <= last
    requires StrictlyIncreasing(hs)
    requires forall i :: 0 <= i < |hs| ==> next <= hs[i] < last
    ensures StrictlyIncreasing([h] + hs)
    ensures forall i :: 0 <= i < |[h] + hs| ==> h <= ([h] + hs)[i] < last
  {
    var all := [h] + hs;
    forall i, j | 0 <= i < j < |all|
      ensures all[i] < all[j]
    {
      assert all[j] == hs[j - 1];
      if i > 0 {
        assert all[i] == hs[i - 1];
      }
    }
    forall i | 0 <= i < |all|
      ensures h <= all[i] < last
    {
      if i > 0 {
        assert all[i] == hs[i - 1];
      }
    }
  }

  /** The counter never decreases over a run of calls. */
  lemma {:induction false} CounterNeverDecreases(s: State, calls: seq<Call>)
    requires Valid(s)
    ensures PerformAll(s, calls).0.counter >= s.counter
    decreases |calls|
  {
    if |calls| > 0 && Callable(s, calls[0]) && Perform(s, calls[0]).Some? {
      PerformKeepsValid(s, calls[0]);
      CounterNeverDecreases(Perform(s, calls[0]).value.0, calls[1..]);
    }
  }
}
