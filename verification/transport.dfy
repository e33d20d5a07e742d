/** The profiler's socket transport (profiler/communications/socketclient.cpp), as a
    sequential state machine.

    The source runs a send worker thread and an accept thread around mutex-guarded
    fields. Here every thread step is an explicit operation, and every result the
    operating system decides (whether `connect`/`bind`/`listen` succeed, what `send`
    and `accept` return) is a parameter. */
module Transport {
  import opened Bytes
  import opened Packets
  import opened Wrappers

  /** `CONNECTION_TYPE`: NONE, CLIENT or SERVER. */
  datatype Role = Unassigned | Client | Server

  /** The send worker `m_Thread`: no joinable thread, a running thread, or a thread
      that has returned but was never joined (still joinable). */
  datatype Worker = Idle | Running | Finished

  /** One accepted connection (`SocketConnection`), identified by its descriptor. */
  datatype Peer = Peer(sock: int)

  datatype Transport = Transport(
    role: Role,
    address: string,
    port: int,
    queue: seq<Packet>,
    peers: seq<Peer>,
    connected: bool,
    worker: Worker,
    listening: bool,
    hello: Packet)

  /** The ASCII bytes of "Schwifty". */
  const HelloMagic: seq<byte> := [0x53, 0x63, 0x68, 0x77, 0x69, 0x66, 0x74, 0x79]

  /** `m_HelloPacket`: a handshake built from the eight characters of "Schwifty" read
      as one `long long`. Its magic bytes on the wire are those characters again. */
  function HelloPacket(time: Bytes8): (p: Packet)
    ensures p.Handshake? && p.time == time
    ensures Encode(p)[9..17] == HelloMagic
  {
    var magic := ToSigned(HelloMagic);
    HandshakeMagicOnWire(time, magic, HelloMagic);
    SignedBytesRoundTrip(HelloMagic);
    HandshakeFromMagic(time, magic)
  }

  /** `SocketClient(time)`: no role, no socket, nothing queued, no threads. */
  function NewTransport(time: Bytes8): (t: Transport)
    ensures t.role == Unassigned && t.queue == [] && t.peers == []
    ensures !t.connected && t.worker == Idle && !t.listening
    ensures t.hello.Handshake? && t.hello.time == time && Encode(t.hello)[9..17] == HelloMagic
  {
    var hello := HelloPacket(time);
    Transport(Unassigned, "", 0, [], [], false, Idle, false, hello)
  }

  /** `ConnectAsync`: records the target and becomes a client, unless a role is set. */
  function ConnectAsync(t: Transport, address: string, port: int): (t': Transport)
    ensures t.role != Unassigned ==> t' == t
    ensures t.role == Unassigned ==> t' == t.(role := Client, address := address, port := port)
  {
    if t.role == Unassigned then t.(address := address, port := port, role := Client) else t
  }

  /** `ListenAsync`: records the bind target and becomes a server, unless a role is set. */
  function ListenAsync(t: Transport, address: string, port: int): (t': Transport)
    ensures t.role != Unassigned ==> t' == t
    ensures t.role == Unassigned ==> t' == t.(role := Server, address := address, port := port)
  {
    if t.role == Unassigned then t.(address := address, port := port, role := Server) else t
  }

  /** `AddToQueue`: `std::queue::push`. */
  function AddToQueue(t: Transport, p: Packet): (t': Transport)
    ensures |t'.queue| == |t.queue| + 1
    ensures t'.queue[..|t.queue|] == t.queue && t'.queue[|t.queue|] == p
    ensures t' == t.(queue := t'.queue)
  {
    t.(queue := t.queue + [p])
  }

  /** `SendPacketAsync` as written: without a role nothing happens; otherwise the packet
      is queued and, when the running flag is down, a new worker is assigned to
      `m_Thread`. Assigning to a `std::thread` that is still joinable calls
      `std::terminate`; `None` stands for that abort. */
  function SendPacketAsyncAsWritten(t: Transport, p: Packet): (r: Option<Transport>)
    ensures r.None? <==> t.role != Unassigned && t.worker == Finished
  {
    if t.role == Unassigned then Some(t)
    else
      var queued := AddToQueue(t, p);
      match queued.worker
      case Running => Some(queued)
      case Idle => Some(queued.(worker := Running))
      case Finished => None
  }

  /** `SendPacketAsync` with the intended respawn: a worker that has returned is joined
      before a new one takes its place, so the call never aborts. */
  function SendPacketAsync(t: Transport, p: Packet): (t': Transport)
    ensures t.role == Unassigned ==> t' == t
    ensures t.role != Unassigned ==>
      && t'.queue == t.queue + [p]
      && t'.worker == Running
      && t' == t.(queue := t'.queue, worker := Running)
  {
    if t.role == Unassigned then t
    else AddToQueue(t, p).(worker := Running)
  }

  /** The start of `RunThread` (with `Connect` / `Listen`): an unconnected worker
      connects as a client or binds, listens and starts the accept thread as a
      server. `ok` is whether those socket calls all succeed. On failure the worker
      clears its running flag and returns, leaving the queue in place. */
  function WorkerSetup(t: Transport, ok: bool): (t': Transport)
    requires t.worker == Running
    ensures t'.queue == t.queue && t'.peers == t.peers && t'.role == t.role
    ensures t.connected || t.role == Unassigned ==> t' == t
    ensures !t.connected && t.role != Unassigned ==>
      (ok <==> t'.connected && t'.worker == Running) && (!ok ==> t'.worker == Finished)
    ensures t'.listening <==> t.listening || (!t.connected && t.role == Server && ok)
  {
    if t.connected then t
    else
      match t.role
      case Unassigned => t
      case Client => if ok then t.(connected := true) else t.(worker := Finished)
      case Server =>
        if ok then t.(connected := true, listening := true) else t.(worker := Finished)
  }

  /** The peers kept after a broadcast: those whose send result was not negative, in
      their original order. */
  function Kept(peers: seq<Peer>, results: seq<int>): (r: seq<Peer>)
    requires |results| == |peers|
    ensures |r| <= |peers|
    ensures |r| == |peers| <==> forall i :: 0 <= i < |results| ==> results[i] >= 0
  {
    if |peers| == 0 then []
    else (if results[0] < 0 then [] else [peers[0]]) + Kept(peers[1..], results[1..])
  }

  /** The server branch of `SendPacket`: one send per peer present at the start, the
      indices of failed sends collected, then those peers erased in one pass. */
  method Broadcast(peers: seq<Peer>, results: seq<int>) returns (survivors: seq<Peer>, attempted: seq<Peer>)
    requires |results| == |peers|
    ensures attempted == peers
    ensures survivors == Kept(peers, results)
  {
    var deletes: set<nat> := {};
    attempted := [];
    var i := 0;
    while i < |peers|
      invariant 0 <= i <= |peers|
      invariant attempted == peers[..i]
      invariant forall k :: k in deletes <==> 0 <= k < i && results[k] < 0
    {
      attempted := attempted + [peers[i]];
      if results[i] < 0 {
        deletes := deletes + {i};
      }
      i := i + 1;
    }
    survivors := [];
    var j := |peers|;
    while j > 0
      invariant 0 <= j <= |peers|
      invariant survivors == Kept(peers[j..], results[j..])
    {
      j := j - 1;
      assert peers[j..][1..] == peers[j + 1..] && results[j..][1..] == results[j + 1..];
      if j !in deletes {
        survivors := [peers[j]] + survivors;
      }
    }
    assert peers[0..] == peers && results[0..] == results;
  }

  /** `SendPacket` as written. The client branch tests `send`'s return value for being
      non-zero, so it reports failure for every write of at least one byte and success
      only when nothing was written; a server always reports success. The result is
      the peer list afterwards and the reported flag. */
  function SendPacketAsWritten(role: Role, peers: seq<Peer>, results: seq<int>): (r: (seq<Peer>, bool))
    requires role == Server ==> |results| == |peers|
    requires role == Client ==> |results| == 1
    ensures role != Server ==> r.0 == peers
    ensures role == Server ==> r.0 == Kept(peers, results) && r.1
    ensures role == Client ==> (r.1 <==> results[0] == 0)
    ensures role == Unassigned ==> r.1
  {
    match role
    case Client => (peers, results[0] == 0)
    case Server => (Kept(peers, results), true)
    case Unassigned => (peers, true)
  }

  /** `SendPacket` with the client test the server branch uses: a send fails when
      `send` returns a negative value. */
  function SendPacket(role: Role, peers: seq<Peer>, results: seq<int>): (r: (seq<Peer>, bool))
    requires role == Server ==> |results| == |peers|
    requires role == Client ==> |results| == 1
    ensures role != Server ==> r.0 == peers
    ensures role == Server ==> r.0 == Kept(peers, results) && r.1
    ensures role == Client ==> (r.1 <==> results[0] >= 0)
    ensures role == Unassigned ==> r.1
  {
    match role
    case Client => (peers, results[0] >= 0)
    case Server => (Kept(peers, results), true)
    case Unassigned => (peers, true)
  }

  /** As written: a client whose `send` writes all 17 bytes of a handshake reports
      failure; the corrected test reports success. */
  lemma ClientSuccessReportedAsFailure(peers: seq<Peer>)
    ensures !SendPacketAsWritten(Client, peers, [17]).1
    ensures SendPacket(Client, peers, [17]).1
  {
  }

  /** The two versions keep the same peers and differ in the flag exactly for a client
      whose send returned a non-zero value that is not an error. */
  lemma SendPacketVersionsAgree(role: Role, peers: seq<Peer>, results: seq<int>)
    requires role == Server ==> |results| == |peers|
    requires role == Client ==> |results| == 1
    ensures SendPacketAsWritten(role, peers, results).0 == SendPacket(role, peers, results).0
    ensures SendPacketAsWritten(role, peers, results).1 != SendPacket(role, peers, results).1
      <==> role == Client && results[0] > 0
  {
  }

  /** The send results a step needs: one per peer for a server, one for a client. */
  predicate ResultsFit(t: Transport, results: seq<int>) {
    && (t.role == Server ==> |results| == |t.peers|)
    && (t.role == Client ==> |results| == 1)
  }

  /** One pass of the worker loop of `RunThread`: with an empty queue it only sleeps;
      otherwise it pops the front packet and sends it. The second component is the
      packet handed to `SendPacket`, if any. */
  function WorkerStep(t: Transport, results: seq<int>): (r: (Transport, Option<Packet>))
    requires t.worker == Running && t.connected
    requires ResultsFit(t, results)
    ensures |t.queue| == 0 ==> r == (t, None)
    ensures |t.queue| > 0 ==>
      && r.1 == Some(t.queue[0])
      && r.0.queue == t.queue[1..]
      && r.0.peers == SendPacket(t.role, t.peers, results).0
      && r.0 == t.(queue := r.0.queue, peers := r.0.peers)
  {
    if |t.queue| == 0 then (t, None)
    else
      var sent := SendPacket(t.role, t.peers, results);
      (t.(queue := t.queue[1..], peers := sent.0), Some(t.queue[0]))
  }

  /** One pass of `ListenLoop`: an accept result of -1 adds nobody; any other socket is
      sent the hello packet and then appended to the peers, whatever that send
      returned. The second component is what was sent to the new peer. */
  function AcceptOne(t: Transport, sock: int): (r: (Transport, Option<seq<byte>>))
    requires t.listening
    ensures sock == -1 ==> r == (t, None)
    ensures sock != -1 ==>
      && r.0 == t.(peers := t.peers + [Peer(sock)])
      && r.1 == Some(Encode(t.hello))
  {
    if sock == -1 then (t, None)
    else (t.(peers := t.peers + [Peer(sock)]), Some(Encode(t.hello)))
  }

  /** The peers a run of accept results adds. */
  function AcceptedPeers(socks: seq<int>): seq<Peer> {
    if |socks| == 0 then []
    else (if socks[0] == -1 then [] else [Peer(socks[0])]) + AcceptedPeers(socks[1..])
  }

  /** `ListenLoop` over a run of accept results: every accepted socket is greeted once
      and appended in accept order. */
  method ListenLoop(t: Transport, socks: seq<int>) returns (t': Transport, greeted: seq<Peer>, sent: seq<seq<byte>>)
    requires t.listening
    ensures t' == t.(peers := t.peers + AcceptedPeers(socks))
    ensures greeted == AcceptedPeers(socks)
    ensures |sent| == |greeted|
    ensures forall k :: 0 <= k < |sent| ==> sent[k] == Encode(t.hello)
  {
    t' := t;
    greeted := [];
    sent := [];
    var i := 0;
    while i < |socks|
      invariant 0 <= i <= |socks|
      invariant greeted == AcceptedPeers(socks[..i])
      invariant t' == t.(peers := t.peers + greeted)
      invariant |sent| == |greeted|
      invariant forall k :: 0 <= k < |sent| ==> sent[k] == Encode(t.hello)
    {
      AcceptedPeersAppend(socks[..i], socks[i]);
      assert socks[..i + 1] == socks[..i] + [socks[i]];
      var r := AcceptOne(t', socks[i]);
      t' := r.0;
      if r.1.Some? {
        greeted := greeted + [Peer(socks[i])];
        sent := sent + [r.1.value];
      }
      i := i + 1;
    }
    assert socks[..i] == socks;
  }

  lemma {:induction false} AcceptedPeersAppend(socks: seq<int>, s: int)
    ensures AcceptedPeers(socks + [s]) == AcceptedPeers(socks) + (if s == -1 then [] else [Peer(s)])
  {
    if |socks| == 0 {
      assert socks + [s] == [s];
    } else {
      var first := if socks[0] == -1 then [] else [Peer(socks[0])];
      var last := if s == -1 then [] else [Peer(s)];
      assert (socks + [s])[0] == socks[0] && (socks + [s])[1..] == socks[1..] + [s];
      AcceptedPeersAppend(socks[1..], s);
      assert AcceptedPeers(socks + [s]) == first + (AcceptedPeers(socks[1..]) + last);
      assert AcceptedPeers(socks) == first + AcceptedPeers(socks[1..]);
    }
  }

  /** What the destructor does: the worker is stopped and joined, the accept thread is
      stopped and joined and every peer socket closed, and the primary socket closed
      when connected. Packets still queued are never sent. */
  datatype Teardown = Teardown(closedPeers: seq<Peer>, closesPrimary: bool, unsent: seq<Packet>)

  function Shutdown(t: Transport): (d: Teardown)
    ensures d.closedPeers == (if t.listening then t.peers else [])
    ensures d.closesPrimary <==> t.connected
    ensures d.unsent == t.queue
  {
    Teardown(if t.listening then t.peers else [], t.connected, t.queue)
  }

  /** Peers exist only while the accept thread runs: it is the only place that adds
      them, and the destructor closes them when it stops that thread. */
  predicate PeersOnlyWhileListening(t: Transport) {
    t.peers != [] ==> t.listening
  }

  // ---------------------------------------------------------------------------
  // The broadcast pass

  predicate Distinct<T(==)>(s: seq<T>) {
    forall i, j :: 0 <= i < j < |s| ==> s[i] != s[j]
  }

  /** `a` is `b` with some elements left out and the rest in their original order. */
  predicate IsSubsequence<T(==)>(a: seq<T>, b: seq<T>)
    decreases |b|
  {
    |a| == 0 || (|b| > 0 && if a[0] == b[0] then IsSubsequence(a[1..], b[1..]) else IsSubsequence(a, b[1..]))
  }

  lemma {:induction false} SubsequenceOfTail<T>(a: seq<T>, b: seq<T>)
    requires |b| > 0 && IsSubsequence(a, b[1..])
    ensures IsSubsequence(a, b)
    decreases |a| + |b|
  {
    if |a| > 0 && a[0] == b[0] {
      SubsequenceDropFirst(a, b[1..]);
    }
  }

  lemma {:induction false} SubsequenceDropFirst<T>(a: seq<T>, b: seq<T>)
    requires |a| > 0 && IsSubsequence(a, b)
    ensures IsSubsequence(a[1..], b)
    decreases |a| + |b|
  {
    if a[0] == b[0] {
      if |b[1..]| > 0 {
        SubsequenceOfTail(a[1..], b);
      } else {
        assert |a[1..]| == 0;
      }
    } else {
      SubsequenceDropFirst(a, b[1..]);
      SubsequenceOfTail(a[1..], b);
    }
  }

  /** The survivors of a broadcast keep their relative order, and no peer is added. */
  lemma {:induction false} KeptIsOrderedSubset(peers: seq<Peer>, results: seq<int>)
    requires |results| == |peers|
    ensures IsSubsequence(Kept(peers, results), peers)
    ensures |Kept(peers, results)| <= |peers|
    ensures forall x :: x in Kept(peers, results) ==> x in peers
  {
    if |peers| > 0 {
      KeptIsOrderedSubset(peers[1..], results[1..]);
      var rest := Kept(peers[1..], results[1..]);
      if results[0] < 0 {
        assert Kept(peers, results) == rest;
        if |rest| > 0 {
          SubsequenceOfTail(rest, peers);
        }
      } else {
        assert Kept(peers, results) == [peers[0]] + rest;
        assert ([peers[0]] + rest)[1..] == rest;
      }
    }
  }

  /** A peer whose send did not fail survives the pass; with distinct peers, a peer
      whose send returned a negative value is gone afterwards. */
  lemma {:induction false} KeptExactlyTheSuccesses(peers: seq<Peer>, results: seq<int>)
    requires |results| == |peers|
    ensures forall i :: 0 <= i < |peers| && results[i] >= 0 ==> peers[i] in Kept(peers, results)
    ensures Distinct(peers) ==>
      forall i :: 0 <= i < |peers| && results[i] < 0 ==> peers[i] !in Kept(peers, results)
    ensures Distinct(peers) ==> Distinct(Kept(peers, results))
  {
    if |peers| > 0 {
      KeptExactlyTheSuccesses(peers[1..], results[1..]);
      KeptIsOrderedSubset(peers[1..], results[1..]);
      var rest := Kept(peers[1..], results[1..]);
      assert Kept(peers, results) == (if results[0] < 0 then [] else [peers[0]]) + rest;
      forall i | 0 <= i < |peers| && results[i] >= 0
        ensures peers[i] in Kept(peers, results)
      {
        if i > 0 {
          assert peers[1..][i - 1] == peers[i];
        }
      }
      if Distinct(peers) {
        assert Distinct(peers[1..]);
        assert peers[0] !in peers[1..];
        assert peers[0] !in rest;
        forall i | 0 <= i < |peers| && results[i] < 0
          ensures peers[i] !in Kept(peers, results)
        {
          if i > 0 {
            assert peers[1..][i - 1] == peers[i];
          }
        }
      }
    }
  }

  /** An accepted socket is a descriptor the process had not open, so it is new to the
      peer list, and accepting it keeps the peers distinct. */
  lemma AcceptKeepsPeersDistinct(t: Transport, sock: int)
    requires t.listening && Distinct(t.peers) && Peer(sock) !in t.peers
    ensures Distinct(AcceptOne(t, sock).0.peers)
  {
  }

  // ---------------------------------------------------------------------------
  // The respawn defect of SendPacketAsync

  /** As written: a server whose bind or listen fails leaves a returned, unjoined
      worker behind, and the next packet aborts the process. */
  lemma RespawnAfterFailedSetupAborts(time: Bytes8, first: Packet, second: Packet)
    ensures var t0 := ListenAsync(NewTransport(time), "127.0.0.1", 5300);
      var t1 := SendPacketAsyncAsWritten(t0, first);
      && t1.Some? && t1.value.worker == Running
      && SendPacketAsyncAsWritten(WorkerSetup(t1.value, false), second).None?
  {
  }

  /** Corrected: the same sequence keeps both packets queued and a worker running,
      which retries the setup. */
  lemma RespawnAfterFailedSetupRetries(time: Bytes8, first: Packet, second: Packet)
    ensures var t0 := ListenAsync(NewTransport(time), "127.0.0.1", 5300);
      var t2 := SendPacketAsync(WorkerSetup(SendPacketAsync(t0, first), false), second);
      && t2.queue == [first, second] && t2.worker == Running && !t2.connected
  {
  }

  /** Wherever the written code does not abort, the corrected call does the same. */
  lemma SendPacketAsyncAgreesUnlessAborting(t: Transport, p: Packet)
    ensures SendPacketAsyncAsWritten(t, p).Some? ==> SendPacketAsyncAsWritten(t, p).value == SendPacketAsync(t, p)
  {
  }

  // ---------------------------------------------------------------------------
  // Runs of operations

  /** One call or thread step on the transport. Socket results are carried in the event. */
  datatype Event =
    | ConnectCall(address: string, port: int)
    | ListenCall(address: string, port: int)
    | Enqueue(packet: Packet)
    | Setup(ok: bool)
    | Step(results: seq<int>)
    | Accept(sock: int)

  /** Applies one event. A thread step whose thread is not running at that point (or
      whose results do not fit the peers) is not a step that can happen, and changes
      nothing. The second component is the packet handed to `SendPacket`, if any. */
  function Apply(t: Transport, e: Event): (Transport, Option<Packet>) {
    match e
    case ConnectCall(a, p) => (ConnectAsync(t, a, p), None)
    case ListenCall(a, p) => (ListenAsync(t, a, p), None)
    case Enqueue(p) => (SendPacketAsync(t, p), None)
    case Setup(ok) => if t.worker == Running then (WorkerSetup(t, ok), None) else (t, None)
    case Step(results) =>
      if t.worker == Running && t.connected && ResultsFit(t, results) then WorkerStep(t, results)
      else (t, None)
    case Accept(sock) => if t.listening then (AcceptOne(t, sock).0, None) else (t, None)
  }

  /** Applies events in order; the second component lists the packets sent, in order. */
  function Run(t: Transport, events: seq<Event>): (Transport, seq<Packet>)
    decreases |events|
  {
    if |events| == 0 then (t, [])
    else
      var first := Apply(t, events[0]);
      var rest := Run(first.0, events[1..]);
      (rest.0, (if first.1.Some? then [first.1.value] else []) + rest.1)
  }

  /** The packets of the `Enqueue` events, in order. */
  function Enqueued(events: seq<Event>): seq<Packet>
    decreases |events|
  {
    if |events| == 0 then []
    else (if events[0].Enqueue? then [events[0].packet] else []) + Enqueued(events[1..])
  }

  /** Only `ConnectCall` or `ListenCall` on a transport without a role changes the role. */
  lemma ApplyRoleWriteOnce(t: Transport, e: Event)
    ensures Apply(t, e).0.role != t.role ==>
      t.role == Unassigned && (e.ConnectCall? || e.ListenCall?)
  {
  }

  lemma ApplyQueue(t: Transport, e: Event)
    requires t.role != Unassigned
    ensures var r := Apply(t, e);
      (if r.1.Some? then [r.1.value] else []) + r.0.queue
        == t.queue + (if e.Enqueue? then [e.packet] else [])
  {
  }

  /** No event adds a peer without the accept thread running, or stops that thread. */
  lemma ApplyKeepsPeersOnlyWhileListening(t: Transport, e: Event)
    requires PeersOnlyWhileListening(t)
    ensures PeersOnlyWhileListening(Apply(t, e).0)
    ensures t.listening ==> Apply(t, e).0.listening
  {
  }

  /** The destructor closes exactly the peers still in the list: from any state where
      peers exist only while listening (a new transport included), after any run of
      events the teardown closes the peers present and no others. Peers a broadcast
      has erased are not among them (see `FailedPeerNeverClosed`). */
  lemma {:induction false} ShutdownClosesEveryPeer(t: Transport, events: seq<Event>)
    requires PeersOnlyWhileListening(t)
    ensures PeersOnlyWhileListening(Run(t, events).0)
    ensures Shutdown(Run(t, events).0).closedPeers == Run(t, events).0.peers
    decreases |events|
  {
    if |events| > 0 {
      ApplyKeepsPeersOnlyWhileListening(t, events[0]);
      ShutdownClosesEveryPeer(Apply(t, events[0]).0, events[1..]);
    }
  }

  /** Once set, the role never changes. */
  lemma {:induction false} RunRoleWriteOnce(t: Transport, events: seq<Event>)
    requires t.role != Unassigned
    ensures Run(t, events).0.role == t.role
    decreases |events|
  {
    if |events| > 0 {
      ApplyRoleWriteOnce(t, events[0]);
      RunRoleWriteOnce(Apply(t, events[0]).0, events[1..]);
    }
  }

  /** Re-bracketing used by `RunIsFifo`. */
  lemma Regroup(sent: seq<Packet>, restSent: seq<Packet>, restQueue: seq<Packet>, midQueue: seq<Packet>,
                queue: seq<Packet>, mine: seq<Packet>, later: seq<Packet>)
    requires restSent + restQueue == midQueue + later
    requires sent + midQueue == queue + mine
    ensures (sent + restSent) + restQueue == queue + (mine + later)
  {
    calc {
      (sent + restSent) + restQueue;
      sent + (midQueue + later);
      (queue + mine) + later;
    }
  }

  /** FIFO: once a role is set, the packets sent followed by those still queued are
      exactly the packets queued before followed by the packets enqueued, in order;
      nothing is dropped, duplicated or reordered. */
  lemma {:induction false} RunIsFifo(t: Transport, events: seq<Event>)
    requires t.role != Unassigned
    ensures Run(t, events).1 + Run(t, events).0.queue == t.queue + Enqueued(events)
    decreases |events|
  {
    if |events| > 0 {
      var first := Apply(t, events[0]);
      var sent := if first.1.Some? then [first.1.value] else [];
      var mine := if events[0].Enqueue? then [events[0].packet] else [];
      ApplyQueue(t, events[0]);
      ApplyRoleWriteOnce(t, events[0]);
      RunIsFifo(first.0, events[1..]);
      var rest := Run(first.0, events[1..]);
      Regroup(sent, rest.1, rest.0.queue, first.0.queue, t.queue, mine, Enqueued(events[1..]));
    }
  }

  // ---------------------------------------------------------------------------
  // Peer sockets erased by a broadcast

  /** The peers a broadcast erases: those whose send returned a negative value, in
      their original order. */
  function Dropped(peers: seq<Peer>, results: seq<int>): (r: seq<Peer>)
    requires |results| == |peers|
    ensures |r| <= |peers|
    ensures r == [] <==> forall i :: 0 <= i < |results| ==> results[i] >= 0
  {
    if |peers| == 0 then []
    else (if results[0] < 0 then [peers[0]] else []) + Dropped(peers[1..], results[1..])
  }

  /** A broadcast splits the peers into the kept and the erased, losing none. */
  lemma {:induction false} KeptAndDroppedSplitPeers(peers: seq<Peer>, results: seq<int>)
    requires |results| == |peers|
    ensures multiset(Kept(peers, results)) + multiset(Dropped(peers, results)) == multiset(peers)
  {
    if |peers| > 0 {
      var head, rest := [peers[0]], peers[1..];
      var kept, dropped := Kept(rest, results[1..]), Dropped(rest, results[1..]);
      KeptAndDroppedSplitPeers(rest, results[1..]);
      assert peers == head + rest;
      assert multiset(peers) == multiset(head) + multiset(rest);
      if results[0] < 0 {
        assert Kept(peers, results) == kept;
        assert Dropped(peers, results) == head + dropped;
        assert multiset(head + dropped) == multiset(head) + multiset(dropped);
      } else {
        assert Kept(peers, results) == head + kept;
        assert multiset(head + kept) == multiset(head) + multiset(kept);
        assert Dropped(peers, results) == dropped;
      }
    }
  }

  /** Whether the event is a worker step that pops a packet and sends it. */
  predicate SendsPacket(t: Transport, e: Event) {
    && e.Step?
    && t.worker == Running && t.connected && ResultsFit(t, e.results)
    && |t.queue| > 0
  }

  /** The peer an event accepts, if any. */
  function AcceptedBy(t: Transport, e: Event): seq<Peer> {
    if e.Accept? && t.listening && e.sock != -1 then [Peer(e.sock)] else []
  }

  /** The peer sockets the corrected worker closes in an event: those a server's
      broadcast erases. The worker as written closes none of them. */
  function ClosedBy(t: Transport, e: Event): seq<Peer> {
    if SendsPacket(t, e) && t.role == Server then Dropped(t.peers, e.results) else []
  }

  /** Each event keeps the peer ledger: the peers before plus the one accepted are the
      peers after plus those the corrected worker closes. */
  lemma ApplyPeerLedger(t: Transport, e: Event)
    ensures multiset(t.peers) + multiset(AcceptedBy(t, e))
         == multiset(Apply(t, e).0.peers) + multiset(ClosedBy(t, e))
  {
    if SendsPacket(t, e) && t.role == Server {
      KeptAndDroppedSplitPeers(t.peers, e.results);
    }
  }

  /** The peers a run of events accepts, in order. */
  function RunAccepted(t: Transport, events: seq<Event>): seq<Peer>
    decreases |events|
  {
    if |events| == 0 then []
    else AcceptedBy(t, events[0]) + RunAccepted(Apply(t, events[0]).0, events[1..])
  }

  /** The peer sockets the corrected worker closes over a run of events, in order. */
  function RunClosed(t: Transport, events: seq<Event>): seq<Peer>
    decreases |events|
  {
    if |events| == 0 then []
    else ClosedBy(t, events[0]) + RunClosed(Apply(t, events[0]).0, events[1..])
  }

  /** `Run`, `RunAccepted` and `RunClosed` of a non-empty run, one event unfolded. */
  lemma RunUnfold(t: Transport, events: seq<Event>)
    requires |events| > 0
    ensures Run(t, events).0 == Run(Apply(t, events[0]).0, events[1..]).0
    ensures RunAccepted(t, events) == AcceptedBy(t, events[0]) + RunAccepted(Apply(t, events[0]).0, events[1..])
    ensures RunClosed(t, events) == ClosedBy(t, events[0]) + RunClosed(Apply(t, events[0]).0, events[1..])
  {
  }

  /** Two ledger steps chained: what comes in over both equals what remains plus
      what went out over both. */
  lemma ChainLedger<T>(before: multiset<T>, in1: multiset<T>, mid: multiset<T>, out1: multiset<T>,
                       in2: multiset<T>, after: multiset<T>, out2: multiset<T>)
    requires before + in1 == mid + out1
    requires mid + in2 == after + out2
    ensures before + (in1 + in2) == after + (out1 + out2)
  {
    forall x: T
      ensures (before + (in1 + in2))[x] == (after + (out1 + out2))[x]
    {
      assert (before + in1)[x] == (mid + out1)[x];
      assert (mid + in2)[x] == (after + out2)[x];
    }
  }

  /** The peer ledger over a run of events. */
  lemma {:induction false} RunPeerLedger(t: Transport, events: seq<Event>)
    ensures multiset(t.peers) + multiset(RunAccepted(t, events))
         == multiset(Run(t, events).0.peers) + multiset(RunClosed(t, events))
    decreases |events|
  {
    if |events| > 0 {
      var next := Apply(t, events[0]).0;
      var accepted, closed := AcceptedBy(t, events[0]), ClosedBy(t, events[0]);
      var laterAccepted, laterClosed := RunAccepted(next, events[1..]), RunClosed(next, events[1..]);
      RunUnfold(t, events);
      ApplyPeerLedger(t, events[0]);
      RunPeerLedger(next, events[1..]);
      ChainLedger(multiset(t.peers), multiset(accepted), multiset(next.peers), multiset(closed),
                  multiset(laterAccepted), multiset(Run(next, events[1..]).0.peers), multiset(laterClosed));
      assert multiset(accepted + laterAccepted) == multiset(accepted) + multiset(laterAccepted);
      assert multiset(closed + laterClosed) == multiset(closed) + multiset(laterClosed);
    }
  }

  /** Corrected: from a transport without peers (a new one included), every peer
      socket a run accepts is closed exactly once, either when a broadcast erases it
      or by the destructor. */
  lemma EveryAcceptedPeerClosedOnce(t: Transport, events: seq<Event>)
    requires t.peers == []
    ensures multiset(RunAccepted(t, events))
         == multiset(RunClosed(t, events) + Shutdown(Run(t, events).0).closedPeers)
  {
    var last := Run(t, events).0;
    var accepted, closed := multiset(RunAccepted(t, events)), multiset(RunClosed(t, events));
    RunPeerLedger(t, events);
    ShutdownClosesEveryPeer(t, events);
    assert multiset(t.peers) == multiset{};
    assert accepted == multiset(last.peers) + closed;
    assert multiset(RunClosed(t, events) + Shutdown(last).closedPeers) == closed + multiset(last.peers);
    assert multiset(last.peers) + closed == closed + multiset(last.peers);
  }

  /** A run of `a + b` ends where a run of `b` from the end of `a` ends. */
  lemma {:induction false} RunAppend(t: Transport, a: seq<Event>, b: seq<Event>)
    ensures Run(t, a + b).0 == Run(Run(t, a).0, b).0
    decreases |a|
  {
    if |a| == 0 {
      assert a + b == b;
    } else {
      var next := Apply(t, a[0]).0;
      assert (a + b)[0] == a[0] && (a + b)[1..] == a[1..] + b;
      RunUnfold(t, a + b);
      RunUnfold(t, a);
      RunAppend(next, a[1..], b);
    }
  }

  /** The peers a run of `a + b` accepts are those `a` accepts, then those `b` accepts
      from where `a` ends. */
  lemma {:induction false} RunAcceptedAppend(t: Transport, a: seq<Event>, b: seq<Event>)
    ensures RunAccepted(t, a + b) == RunAccepted(t, a) + RunAccepted(Run(t, a).0, b)
    decreases |a|
  {
    if |a| == 0 {
      assert a + b == b;
    } else {
      var e, rest := a[0], a[1..];
      var next := Apply(t, e).0;
      assert (a + b)[0] == e && (a + b)[1..] == rest + b;
      RunUnfold(t, a + b);
      RunUnfold(t, a);
      RunAcceptedAppend(next, rest, b);
      assert RunAccepted(t, a + b) == AcceptedBy(t, e) + (RunAccepted(next, rest) + RunAccepted(Run(next, rest).0, b));
    }
  }

  /** The peers the corrected worker closes over `a + b` are those it closes over `a`,
      then those it closes over `b` from where `a` ends. */
  lemma {:induction false} RunClosedAppend(t: Transport, a: seq<Event>, b: seq<Event>)
    ensures RunClosed(t, a + b) == RunClosed(t, a) + RunClosed(Run(t, a).0, b)
    decreases |a|
  {
    if |a| == 0 {
      assert a + b == b;
    } else {
      var e, rest := a[0], a[1..];
      var next := Apply(t, e).0;
      assert (a + b)[0] == e && (a + b)[1..] == rest + b;
      RunUnfold(t, a + b);
      RunUnfold(t, a);
      RunClosedAppend(next, rest, b);
      assert RunClosed(t, a + b) == ClosedBy(t, e) + (RunClosed(next, rest) + RunClosed(Run(next, rest).0, b));
    }
  }

  /** A listening server with a packet queued and no peers accepts socket 5, and the
      broadcast of that packet to it fails: the peer is erased, and only the corrected
      worker closes it. */
  lemma AcceptThenFailedBroadcast(t: Transport)
    requires t.role == Server && t.listening && t.connected && t.worker == Running
    requires |t.queue| > 0 && t.peers == []
    ensures var events := [Accept(5), Step([-1])];
      && RunAccepted(t, events) == [Peer(5)]
      && RunClosed(t, events) == [Peer(5)]
      && Run(t, events).0.peers == []
      && Run(t, events).0.listening
  {
    var events := [Accept(5), Step([-1])];
    var t1 := t.(peers := [Peer(5)]);
    assert Apply(t, events[0]).0 == t1;
    assert Kept([Peer(5)], [-1]) == [] && Dropped([Peer(5)], [-1]) == [Peer(5)];
    var t2 := Apply(t1, events[1]).0;
    assert t2.peers == [] && t2.listening;
    assert events[1..] == [Step([-1])] && events[1..][1..] == [];
    RunUnfold(t1, events[1..]);
    RunUnfold(t, events);
  }

  /** A transport without a role, connection, worker, queue or peers (a new one) that
      listens, queues a packet and sets up successfully is a listening, connected
      server with that packet queued and no peers; it has accepted and closed
      nothing. */
  lemma ListenQueueAndBind(t: Transport, p: Packet)
    requires t.role == Unassigned && !t.connected && t.worker == Idle && !t.listening
    requires t.queue == [] && t.peers == []
    ensures var events := [ListenCall("127.0.0.1", 5300), Enqueue(p), Setup(true)];
      var end := Run(t, events).0;
      && end.role == Server && end.listening && end.connected && end.worker == Running
      && end.queue == [p] && end.peers == []
      && RunAccepted(t, events) == [] && RunClosed(t, events) == []
  {
    var events := [ListenCall("127.0.0.1", 5300), Enqueue(p), Setup(true)];
    var t1 := Apply(t, events[0]).0;
    var t2 := Apply(t1, events[1]).0;
    var t3 := Apply(t2, events[2]).0;
    assert t1.role == Server && !t1.connected && t1.worker == Idle && t1.queue == [] && t1.peers == [];
    assert t2.role == Server && !t2.connected && t2.worker == Running && t2.queue == [p] && t2.peers == [];
    assert t3.role == Server && t3.connected && t3.listening && t3.worker == Running;
    assert t3.queue == [p] && t3.peers == [];
    assert events[1..] == [Enqueue(p), Setup(true)] && events[1..][1..] == [Setup(true)];
    assert events[1..][1..][1..] == [];
    RunUnfold(t2, events[1..][1..]);
    RunUnfold(t1, events[1..]);
    RunUnfold(t, events);
  }

  /** As written: a server accepts socket 5, and the first broadcast to it fails and
      erases it. The worker closes nothing and the destructor closes only the peers
      still listed, so socket 5 is never closed. The corrected worker closes it. */
  lemma FailedPeerNeverClosed(time: Bytes8, p: Packet)
    ensures var t := NewTransport(time);
      var events := [ListenCall("127.0.0.1", 5300), Enqueue(p), Setup(true), Accept(5), Step([-1])];
      var end := Run(t, events).0;
      && Peer(5) in RunAccepted(t, events)
      && Peer(5) !in end.peers
      && Peer(5) !in Shutdown(end).closedPeers
      && Peer(5) in RunClosed(t, events)
  {
    var t := NewTransport(time);
    var prefix := [ListenCall("127.0.0.1", 5300), Enqueue(p), Setup(true)];
    var suffix := [Accept(5), Step([-1])];
    assert prefix + suffix == [ListenCall("127.0.0.1", 5300), Enqueue(p), Setup(true), Accept(5), Step([-1])];
    ListenQueueAndBind(t, p);
    var mid := Run(t, prefix).0;
    AcceptThenFailedBroadcast(mid);
    RunAppend(t, prefix, suffix);
    RunAcceptedAppend(t, prefix, suffix);
    RunClosedAppend(t, prefix, suffix);
  }
}
