/**
 * The sending side (src/network/transport.rs): one cached stream per peer, dropped at the first failed write.
 * A stream is what the network has accepted on it, plus, as history, the bodies written to it in order.
 */
module Transport {
  import opened Wrappers
  import opened Bytes
  import opened Codec
  import opened Framing

  datatype Stream = Stream(wire: seq<byte>, bodies: seq<Body>)

  /** `conns` maps a peer to the number of its cached stream. */
  datatype Net = Net(conns: map<nat, nat>, streams: seq<Stream>)

  /**
   * What goes wrong in one send: a write either succeeds (None) or fails after that many bytes of the frame,
   * the length, the body or, with all of them, the flush.
   */
  datatype Faults = Faults(cached: Option<nat>, connect: bool, retry: Option<nat>)

  function Write(s: Stream, body: Body, fault: Option<nat>): Stream {
    Stream(s.wire + (if fault.None? then Frame(body) else Take(Frame(body), fault.value)), s.bodies + [body])
  }

  /** A new connection; it is cached only if the write goes through. */
  function SendFresh(n: Net, peer: nat, body: Body, f: Faults): (Net, bool) {
    if !f.connect then (n, false) else
      var streams := n.streams + [Write(Stream([], []), body, f.retry)];
      (Net(if f.retry.None? then n.conns[peer := |n.streams|] else n.conns, streams), f.retry.None?)
  }

  /** `send_to_peer`: the cached stream first; if it fails it is forgotten and a new one is tried. */
  function PeerSend(n: Net, peer: nat, body: Body, f: Faults): (Net, bool) {
    if peer in n.conns && n.conns[peer] < |n.streams| then
      var i := n.conns[peer];
      var written := n.streams[i := Write(n.streams[i], body, f.cached)];
      if f.cached.None? then (Net(n.conns, written), true)
      else SendFresh(Net(n.conns - {peer}, written), peer, body, f)
    else SendFresh(n, peer, body, f)
  }

  /** The two critical sections of `send_message`; other sends may run between them. */
  datatype NetEvent = Send(peer: nat, body: Body, faults: Faults) | Evict(peer: nat)

  function NetStep(n: Net, ev: NetEvent): Net {
    match ev
    case Send(peer, body, f) => PeerSend(n, peer, body, f).0
    case Evict(peer) => n.(conns := n.conns - {peer})
  }

  function NetRun(n: Net, evs: seq<NetEvent>): Net {
    if |evs| == 0 then n else NetStep(NetRun(n, evs[..|evs| - 1]), evs[|evs| - 1])
  }

  lemma RunSnoc(n: Net, evs: seq<NetEvent>, ev: NetEvent)
    ensures NetRun(n, evs + [ev]) == NetStep(NetRun(n, evs), ev)
  {
    assert (evs + [ev])[..|evs|] == evs;
  }

  lemma RunOfTwo(n: Net, first: NetEvent, second: NetEvent)
    ensures NetRun(n, [first]) == NetStep(n, first)
    ensures NetRun(n, [first, second]) == NetStep(NetStep(n, first), second)
  {
    assert [first][..0] == [];
    assert [first, second][..1] == [first];
  }

  const NO_STREAMS: Net := Net(map[], [])

  // ---------- stream integrity ----------

  /** All frames but possibly the last are whole. */
  predicate AtMostLastTorn(s: Stream) {
    && s.wire <= Frames(s.bodies)
    && (|s.bodies| > 0 ==> Frames(s.bodies[..|s.bodies| - 1]) <= s.wire)
  }

  ghost predicate NetInv(n: Net) {
    && (forall i :: 0 <= i < |n.streams| ==> AtMostLastTorn(n.streams[i]))
    && (forall p :: p in n.conns ==>
          n.conns[p] < |n.streams| && n.streams[n.conns[p]].wire == Frames(n.streams[n.conns[p]].bodies))
    && (forall p, q :: p in n.conns && q in n.conns && n.conns[p] == n.conns[q] ==> p == q)
  }

  lemma WriteKeeps(s: Stream, body: Body, fault: Option<nat>)
    requires s.wire == Frames(s.bodies)
    ensures AtMostLastTorn(Write(s, body, fault))
    ensures fault.None? ==> Write(s, body, fault).wire == Frames(Write(s, body, fault).bodies)
  {
    FramesConcat(s.bodies, [body]);
    assert Frames([body]) == Frame(body) by {
      assert [body][1..] == [];
      assert Frame(body) + [] == Frame(body);
    }
    assert (s.bodies + [body])[..|s.bodies|] == s.bodies;
  }

  lemma FreshKeeps(n: Net, peer: nat, body: Body, f: Faults)
    requires NetInv(n) && peer !in n.conns
    ensures NetInv(SendFresh(n, peer, body, f).0)
  {
    WriteKeeps(Stream([], []), body, f.retry);
  }

  lemma SendKeeps(n: Net, peer: nat, body: Body, f: Faults)
    requires NetInv(n)
    ensures NetInv(PeerSend(n, peer, body, f).0)
  {
    if peer in n.conns {
      var i := n.conns[peer];
      WriteKeeps(n.streams[i], body, f.cached);
      if f.cached.Some? {
        FreshKeeps(Net(n.conns - {peer}, n.streams[i := Write(n.streams[i], body, f.cached)]), peer, body, f);
      }
    } else {
      FreshKeeps(n, peer, body, f);
    }
  }

  lemma {:induction false} RunsKeepNet(evs: seq<NetEvent>)
    ensures NetInv(NetRun(NO_STREAMS, evs))
  {
    if |evs| > 0 {
      RunsKeepNet(evs[..|evs| - 1]);
      var n, ev := NetRun(NO_STREAMS, evs[..|evs| - 1]), evs[|evs| - 1];
      if ev.Send? { SendKeeps(n, ev.peer, ev.body, ev.faults); }
    }
  }

  // ---------- what a send does ----------

  /** The part of a frame that gets through: all of it, or that many bytes. */
  function Through(body: Body, fault: Option<nat>): seq<byte> {
    if fault.None? || |Frame(body)| <= fault.value then Frame(body) else Frame(body)[..fault.value]
  }

  /** `before` with one more write of `body`. */
  ghost predicate Written(before: Stream, after: Stream, body: Body, fault: Option<nat>) {
    after.bodies == before.bodies + [body] && after.wire == before.wire + Through(body, fault)
  }

  /** A cached stream is tried first; a new connection is made if there is none or it has failed. */
  predicate TriesNew(n: Net, peer: nat, f: Faults) {
    (peer !in n.conns || f.cached.Some?) && f.connect
  }

  /**
   * One send, exactly: which streams it writes and what, whether it succeeds, and what is cached afterwards. After a
   * success the peer's cached stream ends with the body and carries whole frames; after a failure nothing is cached.
   */
  lemma SendExact(n: Net, peer: nat, body: Body, f: Faults)
    requires NetInv(n)
    ensures var (t, ok) := PeerSend(n, peer, body, f);
            && |t.streams| == |n.streams| + (if TriesNew(n, peer, f) then 1 else 0)
            && (forall i :: 0 <= i < |n.streams| && !(peer in n.conns && i == n.conns[peer]) ==>
                  t.streams[i] == n.streams[i])
            && (peer in n.conns ==> Written(n.streams[n.conns[peer]], t.streams[n.conns[peer]], body, f.cached))
            && (TriesNew(n, peer, f) ==> Written(Stream([], []), t.streams[|n.streams|], body, f.retry))
            && (ok <==> (peer in n.conns && f.cached.None?) || (TriesNew(n, peer, f) && f.retry.None?))
            && (peer in t.conns <==> ok)
            && (ok ==> t.conns[peer] == if TriesNew(n, peer, f) then |n.streams| else n.conns[peer])
            && (forall q :: q != peer ==>
                  (q in t.conns <==> q in n.conns) && (q in n.conns ==> t.conns[q] == n.conns[q]))
  {
  }

  /** So a send that succeeds leaves the body at the end of the peer's cached stream, all its frames whole. */
  lemma SentIsOnTheWire(n: Net, peer: nat, body: Body, f: Faults)
    requires NetInv(n) && PeerSend(n, peer, body, f).1
    ensures var t := PeerSend(n, peer, body, f).0;
            && peer in t.conns && t.conns[peer] < |t.streams|
            && var s := t.streams[t.conns[peer]];
               s.bodies != [] && s.bodies[|s.bodies| - 1] == body && s.wire == Frames(s.bodies)
  {
    SendExact(n, peer, body, f);
    SendKeeps(n, peer, body, f);
  }

  /** Forgetting a connection concerns that peer's cached stream alone, and writes nothing. */
  lemma EvictForgets(n: Net, peer: nat)
    ensures var t := NetStep(n, Evict(peer));
            && peer !in t.conns && t.streams == n.streams
            && forall q :: q != peer ==> (q in t.conns <==> q in n.conns) && (q in n.conns ==> t.conns[q] == n.conns[q])
  {
  }

  /** The writes an event attempts: the number of the stream, and the body. */
  function Attempt(n: Net, ev: NetEvent): seq<(nat, Body)> {
    match ev
    case Evict(_) => []
    case Send(peer, body, f) =>
      (if peer in n.conns then [(n.conns[peer], body)] else [])
      + (if TriesNew(n, peer, f) then [(|n.streams|, body)] else [])
  }

  function Attempts(evs: seq<NetEvent>): seq<(nat, Body)> {
    if |evs| == 0 then []
    else Attempts(evs[..|evs| - 1]) + Attempt(NetRun(NO_STREAMS, evs[..|evs| - 1]), evs[|evs| - 1])
  }

  function On(attempts: seq<(nat, Body)>, i: nat): seq<Body> {
    if |attempts| == 0 then []
    else On(attempts[..|attempts| - 1], i)
         + (if attempts[|attempts| - 1].0 == i then [attempts[|attempts| - 1].1] else [])
  }

  lemma {:induction false} OnConcat(a: seq<(nat, Body)>, b: seq<(nat, Body)>, i: nat)
    ensures On(a + b, i) == On(a, i) + On(b, i)
  {
    if |b| == 0 {
      assert a + b == a;
    } else {
      assert (a + b)[..|a + b| - 1] == a + b[..|b| - 1];
      OnConcat(a, b[..|b| - 1], i);
    }
  }

  lemma OnOne(stream: nat, body: Body, i: nat)
    ensures On([(stream, body)], i) == if stream == i then [body] else []
  {
    assert [(stream, body)][..0] == [];
  }

  function BodiesOf(n: Net, i: nat): seq<Body> {
    if i < |n.streams| then n.streams[i].bodies else []
  }

  lemma StepAttempts(n: Net, ev: NetEvent, i: nat)
    requires NetInv(n)
    ensures BodiesOf(NetStep(n, ev), i) == BodiesOf(n, i) + On(Attempt(n, ev), i)
  {
    if ev.Send? {
      AttemptOn(n, ev, i);
      SendExact(n, ev.peer, ev.body, ev.faults);
    }
  }

  /** The attempts of a send on one stream: on the cached one, on the new one, or none. */
  lemma AttemptOn(n: Net, ev: NetEvent, i: nat)
    requires NetInv(n) && ev.Send?
    ensures On(Attempt(n, ev), i)
            == if (ev.peer in n.conns && n.conns[ev.peer] == i) || (TriesNew(n, ev.peer, ev.faults) && |n.streams| == i)
               then [ev.body] else []
  {
    if ev.Send? {
      var first := if ev.peer in n.conns then [(n.conns[ev.peer], ev.body)] else [];
      var second := if TriesNew(n, ev.peer, ev.faults) then [(|n.streams|, ev.body)] else [];
      OnConcat(first, second, i);
      if ev.peer in n.conns { OnOne(n.conns[ev.peer], ev.body, i); }
      OnOne(|n.streams|, ev.body, i);
    }
  }

  /**
   * Nothing is written that was not sent, and nothing sent is left unwritten: over any run the bodies written to a
   * stream are those of the attempts on it, in order.
   */
  lemma {:induction false} BodiesAreAttempts(evs: seq<NetEvent>, i: nat)
    ensures BodiesOf(NetRun(NO_STREAMS, evs), i) == On(Attempts(evs), i)
  {
    if |evs| > 0 {
      var front, ev := evs[..|evs| - 1], evs[|evs| - 1];
      BodiesAreAttempts(front, i);
      RunsKeepNet(front);
      StepAttempts(NetRun(NO_STREAMS, front), ev, i);
      OnConcat(Attempts(front), Attempt(NetRun(NO_STREAMS, front), ev), i);
    }
  }

  // ---------- what a receiver reads ----------

  /**
   * Stream integrity. Over any run of sends and evictions with any connect and write failures: whatever part of a
   * stream has reached the receiver, it reads a prefix of the bodies written to that stream, in order (the sender
   * checks no sizes; Framing.PrefixReadExact is why no body may wrap to an acceptable length). When all bodies are
   * acceptable, it can read all but the last, and all of a stream that is still cached.
   */
  lemma StreamIntegrity(evs: seq<NetEvent>, i: nat, n: nat)
    requires i < |NetRun(NO_STREAMS, evs).streams| && n <= |NetRun(NO_STREAMS, evs).streams[i].wire|
    requires NoMisread(NetRun(NO_STREAMS, evs).streams[i].bodies)
    ensures var s := NetRun(NO_STREAMS, evs).streams[i];
            && ParseFrames(s.wire[..n]) <= s.bodies
            && (AllSendable(s.bodies) && |s.bodies| > 0 ==> s.bodies[..|s.bodies| - 1] <= ParseFrames(s.wire))
            && (AllSendable(s.bodies) && i in NetRun(NO_STREAMS, evs).conns.Values ==> ParseFrames(s.wire) == s.bodies)
  {
    RunsKeepNet(evs);
    var net := NetRun(NO_STREAMS, evs);
    var s := net.streams[i];
    assert s.wire[..n] == Frames(s.bodies)[..n];
    ParseAnyPrefix(s.bodies, n);
    if |s.bodies| > 0 && AllSendable(s.bodies) { AllButLastArrive(s); }
    FramingRoundTrip(s.bodies);
  }

  lemma AllButLastArrive(s: Stream)
    requires AtMostLastTorn(s) && |s.bodies| > 0 && AllSendable(s.bodies)
    ensures s.bodies[..|s.bodies| - 1] <= ParseFrames(s.wire)
  {
    var n, front := |s.wire|, s.bodies[..|s.bodies| - 1];
    assert s.wire == Frames(s.bodies)[..n];
    AllSendablePrefix(s.bodies);
    ParseAnyPrefix(s.bodies, n);
    WholeFramesCount(s.bodies, |front|, n);
  }

  lemma {:induction false} WholeFramesCount(bodies: seq<Body>, k: nat, n: nat)
    requires k <= |bodies| && |Frames(bodies[..k])| <= n
    ensures k <= WholeFrames(bodies, n)
  {
    if k > 0 {
      assert bodies[..k][1..] == bodies[1..][..k - 1];
      WholeFramesCount(bodies[1..], k - 1, n - |Frame(bodies[0])|);
    }
  }

  function EncodeAll(msgs: seq<RaftMessage>): seq<Body> {
    if |msgs| == 0 then [] else [EncodeMessage(msgs[0])] + EncodeAll(msgs[1..])
  }

  lemma ForwardableCons(m: RaftMessage, bodies: seq<Body>)
    ensures Forwardable([EncodeMessage(m)] + bodies) == [m] + Forwardable(bodies)
  {
    MessageRoundTrip(m);
    assert ([EncodeMessage(m)] + bodies)[1..] == bodies;
  }

  lemma {:induction false} ForwardablePrefix(msgs: seq<RaftMessage>, k: nat)
    requires k <= |EncodeAll(msgs)|
    ensures Forwardable(EncodeAll(msgs)[..k]) <= msgs
  {
    if k > 0 {
      var bodies := EncodeAll(msgs[1..])[..k - 1];
      ForwardablePrefix(msgs[1..], k - 1);
      ForwardableCons(msgs[0], bodies);
      assert EncodeAll(msgs)[..k] == [EncodeMessage(msgs[0])] + bodies;
      assert msgs == [msgs[0]] + msgs[1..];
    }
  }

  /** In terms of messages: a receiver forwards, in order, a prefix of the messages sent on that connection. */
  lemma MessagesArriveInOrder(evs: seq<NetEvent>, i: nat, n: nat, msgs: seq<RaftMessage>)
    requires i < |NetRun(NO_STREAMS, evs).streams| && n <= |NetRun(NO_STREAMS, evs).streams[i].wire|
    requires NetRun(NO_STREAMS, evs).streams[i].bodies == EncodeAll(msgs) && NoMisread(EncodeAll(msgs))
    ensures Forwardable(ParseFrames(NetRun(NO_STREAMS, evs).streams[i].wire[..n])) <= msgs
  {
    StreamIntegrity(evs, i, n);
    var parsed := ParseFrames(NetRun(NO_STREAMS, evs).streams[i].wire[..n]);
    assert parsed == EncodeAll(msgs)[..|parsed|];
    ForwardablePrefix(msgs, |parsed|);
  }

  lemma DroppedStaysDroppedOnce(n: Net, ev: NetEvent, i: nat)
    requires NetInv(n) && i < |n.streams| && i !in n.conns.Values
    ensures var t := NetStep(n, ev); i < |t.streams| && i !in t.conns.Values && t.streams[i] == n.streams[i]
  {
  }

  /** A stream no peer is cached under is never written again, nor cached again. */
  lemma {:induction false} DroppedStreamStaysDropped(evs: seq<NetEvent>, more: seq<NetEvent>, i: nat)
    requires i < |NetRun(NO_STREAMS, evs).streams| && i !in NetRun(NO_STREAMS, evs).conns.Values
    ensures i < |NetRun(NO_STREAMS, evs + more).streams| && i !in NetRun(NO_STREAMS, evs + more).conns.Values
    ensures NetRun(NO_STREAMS, evs + more).streams[i] == NetRun(NO_STREAMS, evs).streams[i]
  {
    if |more| == 0 {
      assert evs + more == evs;
    } else {
      var front, last := more[..|more| - 1], more[|more| - 1];
      DroppedStreamStaysDropped(evs, front, i);
      assert evs + more == (evs + front) + [last];
      RunSnoc(NO_STREAMS, evs + front, last);
      RunsKeepNet(evs + front);
      DroppedStaysDroppedOnce(NetRun(NO_STREAMS, evs + front), last, i);
    }
  }

  /** What is left of a fault after `n` bytes have gone through. */
  function After(fault: Option<nat>, n: nat): Option<nat> {
    if fault.None? then None else if fault.value < n then Some(0) else Some(fault.value - n)
  }

  /** The stream after a `write_all`. */
  function Accept(s: Stream, data: seq<byte>, fault: Option<nat>): Stream {
    s.(wire := s.wire + if fault.None? then data else Take(data, fault.value))
  }

  lemma TakeConcat<T>(a: seq<T>, b: seq<T>, k: nat)
    ensures Take(a + b, k) == if k < |a| then Take(a, k) else a + Take(b, k - |a|)
  {
  }

  /** Two pieces written one after the other, the second only if the first went through, are one piece. */
  lemma AcceptConcat(s: Stream, a: seq<byte>, b: seq<byte>, fault: Option<nat>)
    ensures Accept(s, a + b, fault)
            == if fault.Some? && fault.value < |a| then Accept(s, a, fault)
               else Accept(Accept(s, a, fault), b, After(fault, |a|))
  {
    if fault.None? {
      assert s.wire + (a + b) == (s.wire + a) + b;
    } else {
      TakeConcat(a, b, fault.value);
      if fault.value >= |a| {
        var part := Take(b, fault.value - |a|);
        assert s.wire + (a + part) == (s.wire + a) + part;
      }
    }
  }

  // ---------- the code ----------

  class NetworkTransport {
    const nodeId: nat
    var peers: set<nat>
    var connections: map<nat, nat>
    var streams: seq<Stream>
    var inbox: seq<RaftMessage>

    function View(): Net
      reads this
    {
      Net(connections, streams)
    }

    ghost predicate Valid()
      reads this
    {
      NetInv(View())
    }

    /** The peer's cached stream ends with `body`, and all its frames are whole. */
    ghost predicate CarriesLast(peer: nat, body: Body)
      reads this
      requires peer in connections
    {
      && connections[peer] < |streams|
      && var s := streams[connections[peer]];
         s.bodies != [] && s.bodies[|s.bodies| - 1] == body && s.wire == Frames(s.bodies)
    }

    constructor (nodeId: nat, peers: set<nat>)
      ensures this.nodeId == nodeId && this.peers == peers && inbox == [] && View() == NO_STREAMS && Valid()
    {
      this.nodeId, this.peers := nodeId, peers;
      connections, streams, inbox := map[], [], [];
    }

    /** `write_all`: everything, or as many bytes as get through before the failure. */
    method WriteAll(i: nat, data: seq<byte>, fault: Option<nat>) returns (ok: bool)
      requires i < |streams|
      modifies this`streams
      ensures ok <==> fault.None? || |data| <= fault.value
      ensures streams == old(streams)[i := Accept(old(streams)[i], data, fault)]
    {
      ok := fault.None? || |data| <= fault.value;
      var accepted := if ok then data else data[..fault.value];
      streams := streams[i := streams[i].(wire := streams[i].wire + accepted)];
    }

    /**
     * `write_message` on stream `i`: the length, the body, the flush. `fault` is after how many bytes of the frame
     * the network fails, if it does: in the length, in the body, or, with all of them written, in the flush.
     */
    method WriteMessage(i: nat, body: Body, fault: Option<nat>) returns (ok: bool)
      requires i < |streams|
      modifies this`streams
      ensures ok == fault.None?
      ensures streams == old(streams)[i := Write(old(streams)[i], body, fault)]
      ensures Written(old(streams)[i], streams[i], body, fault)
    {
      AcceptConcat(streams[i].(bodies := streams[i].bodies + [body]), BigEndian(|body| % U32, 4), body, fault);
      streams := streams[i := streams[i].(bodies := streams[i].bodies + [body])];
      ok := WriteAll(i, BigEndian(|body| % U32, 4), fault);
      if !ok { return; }
      ok := WriteAll(i, body, After(fault, 4));
      if !ok { return; }
      ok := fault.None?;
    }

    /** The second half of `send_to_peer`: connect, write, and cache the stream if that went through. */
    method SendOnNewStream(peer: nat, body: Body, f: Faults) returns (ok: bool)
      modifies this`connections, this`streams
      ensures (View(), ok) == SendFresh(old(View()), peer, body, f)
    {
      if !f.connect { return false; }
      ghost var before := streams;
      streams := streams + [Stream([], [])];
      ok := WriteMessage(|streams| - 1, body, f.retry);
      assert streams == before + [Write(Stream([], []), body, f.retry)];
      if ok { connections := connections[peer := |streams| - 1]; }
    }

    method SendToPeer(peer: nat, body: Body, f: Faults) returns (ok: bool)
      requires Valid()
      modifies this`connections, this`streams
      ensures Valid()
      ensures (View(), ok) == PeerSend(old(View()), peer, body, f)
      ensures ok <==> peer in connections
      ensures ok ==> CarriesLast(peer, body)
    {
      SendExact(View(), peer, body, f);
      if PeerSend(View(), peer, body, f).1 { SentIsOnTheWire(View(), peer, body, f); }
      SendKeeps(View(), peer, body, f);
      if peer in connections {
        ok := WriteMessage(connections[peer], body, f.cached);
        if ok { return; }
        connections := connections - {peer};
      }
      ok := SendOnNewStream(peer, body, f);
    }

    /**
     * `send_message`: a message to this node is queued, one to an unknown peer is dropped, any other is sent, and
     * a failed send only forgets the connection. `open` tells whether the own queue still has a reader.
     */
    method SendMessage(msg: RaftMessage, f: Faults, open: bool) returns (ok: bool)
      requires Valid()
      modifies this`connections, this`streams, this`inbox
      ensures Valid()
      ensures ok <==> msg.to != nodeId || open
      ensures msg.to != nodeId && msg.to in peers && msg.to in connections ==> CarriesLast(msg.to, EncodeMessage(msg))
      ensures inbox == if msg.to == nodeId && open then old(inbox) + [msg] else old(inbox)
      ensures View() == if msg.to == nodeId || msg.to !in peers then old(View())
                        else if PeerSend(old(View()), msg.to, EncodeMessage(msg), f).1
                        then NetRun(old(View()), [Send(msg.to, EncodeMessage(msg), f)])
                        else NetRun(old(View()), [Send(msg.to, EncodeMessage(msg), f), Evict(msg.to)])
    {
      if msg.to == nodeId {
        if open { inbox := inbox + [msg]; }
        return open;
      }
      if msg.to !in peers { return true; }
      RunOfTwo(View(), Send(msg.to, EncodeMessage(msg), f), Evict(msg.to));
      ok := SendToPeer(msg.to, EncodeMessage(msg), f);
      if !ok { connections := connections - {msg.to}; }
      ok := true;
    }
  }
}
