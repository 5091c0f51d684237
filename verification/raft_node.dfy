/**
 * The node's code (src/raft/node.rs, src/raft/state_machine.rs), proved to be runs of the node machine. Calls of
 * the methods here run one after the other; the machine is where their steps interleave.
 */
module RaftNode {
  import opened Wrappers
  import opened Bytes
  import opened OrderedStore
  import opened Codec
  import opened DurableLog
  import opened SharedStore
  import opened RaftStorage
  import opened ReadyPipeline
  import opened ReadyTheorems
  import opened Proposals
  import opened NodeMachine

  class StateMachine {
    const storage: RocksDbStorage

    constructor (storage: RocksDbStorage)
      ensures this.storage == storage
    {
      this.storage := storage;
    }

    method Apply(proposal: Proposal, io: bool) returns (ok: bool)
      modifies storage
      ensures ok == io
      ensures storage.db == if io then ApplyProposal(old(storage.db), proposal) else old(storage.db)
    {
      match proposal
      case Put(key, value) => ok := storage.Put(key, value, io);
      case Delete(key) => ok := storage.Delete(key, io);
    }
  }

  /** The store's answers to the writes of one call of `handle_ready`; applies past the end of the list succeed. */
  datatype Io = Io(puts: nat, hard: bool, applies: seq<bool>)

  predicate ApplyOk(io: Io, i: nat) {
    i < |io.applies| ==> io.applies[i]
  }

  /** The entries whose application the store accepts. */
  function Accepted(es: seq<Entry>, io: Io): seq<Entry> {
    if |es| == 0 then [] else
      Accepted(es[..|es| - 1], io) + (if ApplyOk(io, |es| - 1) then [es[|es| - 1]] else [])
  }

  /** An entry is left out exactly if the store refuses its application. */
  lemma AcceptedSnoc(es: seq<Entry>, e: Entry, io: Io)
    ensures Accepted([], io) == []
    ensures Accepted(es + [e], io)
            == Accepted(es, io) + if |es| < |io.applies| && !io.applies[|es|] then [] else [e]
  {
    assert (es + [e])[..|es|] == es;
  }

  lemma {:induction false} AllAccepted(es: seq<Entry>, io: Io)
    requires forall i :: 0 <= i < |io.applies| ==> io.applies[i]
    ensures Accepted(es, io) == es
  {
    if |es| > 0 {
      AllAccepted(es[..|es| - 1], io);
      AcceptedSnoc(es[..|es| - 1], es[|es| - 1], io);
      assert es == es[..|es| - 1] + [es[|es| - 1]];
    }
  }

  lemma AcceptedNext(m: Disk, es: seq<Entry>, n: nat, io: Io)
    requires n < |es|
    ensures Replay(m, Accepted(es[..n + 1], io))
            == var before := Replay(m, Accepted(es[..n], io));
               if ApplyOk(io, n) then ApplyEntry(before, es[n]) else before
  {
    assert es[..n + 1][..n] == es[..n];
    var front := Accepted(es[..n], io);
    assert (front + [es[n]])[..|front|] == front;
    assert front + [] == front;
  }

  predicate Persists(ready: Ready, io: Io) {
    |ready.entries| <= io.puts && (ready.hs.Some? ==> io.hard)
  }

  // ---------- the steps one call consists of ----------

  function PutSteps(n: nat): seq<NodeEvent> {
    if n == 0 then [] else PutSteps(n - 1) + [Handle(PutLogEntry(true))]
  }

  function ApplySteps(n: nat, io: Io): seq<NodeEvent> {
    if n == 0 then [] else ApplySteps(n - 1, io) + [Handle(ApplyNext(ApplyOk(io, n - 1)))]
  }

  function PersistSteps(ready: Ready, io: Io): seq<NodeEvent> {
    if io.puts < |ready.entries| then PutSteps(io.puts) + [Handle(PutLogEntry(false))]
    else PutSteps(|ready.entries|) + [Handle(FinishAppend)] + [Handle(SaveHardState(io.hard))]
  }

  /** Take the Ready, persist; then, unless that failed, advance, apply everything, and return the messages. */
  function ReadySteps(ready: Ready, light: LightReady, io: Io): seq<NodeEvent> {
    if Persists(ready, io) then BeforeAdvance(ready, io) + AfterPersist(ready, light, io) else BeforeAdvance(ready, io)
  }

  /** The contract of raft-rs for what it answers when this Ready is advanced. */
  ghost predicate LightAllowed(log: seq<Entry>, w: World, ready: Ready, light: LightReady, io: Io) {
    Persists(ready, io) ==>
      NextCommitted(log, w.p.delivered + |ready.committed|,
                    (w.p.stable - Indices(ready.entries)) + Indexed(ready.entries), light.committed)
  }

  function BeforeAdvance(ready: Ready, io: Io): seq<NodeEvent> {
    [] + [Handle(TakeReady(ready))] + PersistSteps(ready, io)
  }

  function AfterPersist(ready: Ready, light: LightReady, io: Io): seq<NodeEvent> {
    [] + [Handle(Advance(light))] + ApplyAndReturn(|ready.committed + light.committed|, io)
  }

  function ApplyAndReturn(n: nat, io: Io): seq<NodeEvent> {
    ApplySteps(n, io) + [Handle(Release)]
  }

  /** The pipeline of `w` with its disk and its stage replaced. */
  function Persisted(w: World, a: Adapter, stage: Stage): World {
    w.(p := w.p.(a := a, stage := stage))
  }

  function AfterPuts(w: World, ready: Ready, n: nat): World
    requires n <= |ready.entries|
  {
    Persisted(w, w.p.a.(disk := PutEntries(w.p.a.disk, ready.entries[..n])), Persisting(ready, n))
  }

  lemma OnePut(log: seq<Entry>, w: World, ready: Ready, n: nat)
    requires n < |ready.entries|
    ensures WorldEnabled(log, AfterPuts(w, ready, n), Handle(PutLogEntry(true)))
    ensures WorldStep(log, AfterPuts(w, ready, n), Handle(PutLogEntry(true))) == AfterPuts(w, ready, n + 1)
  {
    assert ready.entries[..n + 1][..n] == ready.entries[..n];
  }

  lemma NoPuts(w: World, ready: Ready)
    requires w.p.stage == Persisting(ready, 0)
    ensures AfterPuts(w, ready, 0) == w
  {
    assert ready.entries[..0] == [];
  }

  lemma {:induction false} PutStepsRun(log: seq<Entry>, w: World, ready: Ready, n: nat)
    requires w == AfterPuts(w, ready, 0) && n <= |ready.entries|
    ensures WorldExec(log, w, PutSteps(n)) == Some(AfterPuts(w, ready, n))
  {
    if n > 0 {
      PutStepsRun(log, w, ready, n - 1);
      var before, v := PutSteps(n - 1), AfterPuts(w, ready, n - 1);
      OnePut(log, w, ready, n - 1);
      var evs, t := WorldNext(log, w, before, v, Handle(PutLogEntry(true)));
      assert PutSteps(n) == evs;
    }
  }

  lemma FailedPut(log: seq<Entry>, w: World, ready: Ready, n: nat)
    requires n < |ready.entries|
    ensures WorldEnabled(log, AfterPuts(w, ready, n), Handle(PutLogEntry(false)))
    ensures WorldStep(log, AfterPuts(w, ready, n), Handle(PutLogEntry(false)))
            == w.(p := Abort(w.p.(a := AdapterStep(w.p.a, Append(ready.entries, n)))))
  {
  }

  lemma PersistFails(log: seq<Entry>, w: World, ready: Ready, io: Io)
    requires w.p.stage == Persisting(ready, 0) && io.puts < |ready.entries|
    ensures WorldExec(log, w, PersistSteps(ready, io))
            == Some(w.(p := Abort(w.p.(a := AdapterStep(w.p.a, Append(ready.entries, io.puts))))))
  {
    NoPuts(w, ready);
    PutStepsRun(log, w, ready, io.puts);
    FailedPut(log, w, ready, io.puts);
    var evs, v := WorldNext(log, w, PutSteps(io.puts), AfterPuts(w, ready, io.puts), Handle(PutLogEntry(false)));
  }

  lemma AppendRun(log: seq<Entry>, w: World, ready: Ready)
    requires w.p.stage == Persisting(ready, 0)
    ensures WorldExec(log, w, PutSteps(|ready.entries|) + [Handle(FinishAppend)])
            == Some(Persisted(w, AdapterStep(w.p.a, Append(ready.entries, |ready.entries|)), Saving(ready)))
  {
    var n := |ready.entries|;
    NoPuts(w, ready);
    PutStepsRun(log, w, ready, n);
    assert ready.entries[..n] == ready.entries;
    var evs, v := WorldNext(log, w, PutSteps(n), AfterPuts(w, ready, n), Handle(FinishAppend));
  }

  lemma SaveRun(log: seq<Entry>, w: World, ready: Ready, io: bool)
    requires w.p.stage == Saving(ready)
    ensures WorldEnabled(log, w, Handle(SaveHardState(io)))
    ensures WorldStep(log, w, Handle(SaveHardState(io)))
            == if ready.hs.None? then Persisted(w, w.p.a, Advancing(ready))
               else if io then Persisted(w, AdapterStep(w.p.a, SaveHard(ready.hs.value, io)), Advancing(ready))
               else w.(p := Abort(w.p))
  {
  }

  /** Persisting as a whole is the adapter's append followed by saving the hard state. */
  function PersistedAdapter(a: Adapter, ready: Ready, io: Io): Adapter {
    var appended := AdapterStep(a, Append(ready.entries, io.puts));
    if |ready.entries| <= io.puts && ready.hs.Some?
    then AdapterStep(appended, SaveHard(ready.hs.value, io.hard))
    else appended
  }

  function PersistResult(w: World, ready: Ready, io: Io): World {
    var a := PersistedAdapter(w.p.a, ready, io);
    if Persists(ready, io) then Persisted(w, a, Advancing(ready)) else w.(p := Abort(w.p.(a := a)))
  }

  lemma PersistRun(log: seq<Entry>, w: World, ready: Ready, io: Io)
    requires w.p.stage == Persisting(ready, 0)
    ensures WorldExec(log, w, PersistSteps(ready, io)) == Some(PersistResult(w, ready, io))
  {
    if io.puts < |ready.entries| {
      PersistFails(log, w, ready, io);
    } else {
      AppendRun(log, w, ready);
      var v := Persisted(w, AdapterStep(w.p.a, Append(ready.entries, |ready.entries|)), Saving(ready));
      SaveRun(log, v, ready, io.hard);
      var steps := PutSteps(|ready.entries|) + [Handle(FinishAppend)];
      var evs, t := WorldNext(log, w, steps, v, Handle(SaveHardState(io.hard)));
    }
  }

  lemma BeforeAdvanceRun(log: seq<Entry>, w0: World, w1: World, w2: World, rd: Ready, io: Io)
    requires WorldEnabled(log, w0, Handle(TakeReady(rd))) && w1 == WorldStep(log, w0, Handle(TakeReady(rd)))
    requires WorldExec(log, w1, PersistSteps(rd, io)) == Some(w2)
    ensures WorldExec(log, w0, BeforeAdvance(rd, io)) == Some(w2)
  {
    var evs, w := WorldNext(log, w0, [], w0, Handle(TakeReady(rd)));
    WorldConcat(log, w0, evs, PersistSteps(rd, io));
  }

  lemma AdvanceAllowed(log: seq<Entry>, w: World, rd: Ready, light: LightReady, io: Io)
    requires WorldEnabled(log, w, Handle(TakeReady(rd))) && LightAllowed(log, w, rd, light, io) && Persists(rd, io)
    ensures WorldEnabled(log, PersistResult(WorldStep(log, w, Handle(TakeReady(rd))), rd, io), Handle(Advance(light)))
  {
  }

  lemma AfterPersistRun(log: seq<Entry>, w0: World, w1: World, w2: World, rd: Ready, light: LightReady, io: Io)
    requires WorldEnabled(log, w0, Handle(Advance(light))) && w1 == WorldStep(log, w0, Handle(Advance(light)))
    requires WorldExec(log, w1, ApplyAndReturn(|rd.committed + light.committed|, io)) == Some(w2)
    ensures WorldExec(log, w0, AfterPersist(rd, light, io)) == Some(w2)
  {
    var evs, w := WorldNext(log, w0, [], w0, Handle(Advance(light)));
    WorldConcat(log, w0, evs, ApplyAndReturn(|rd.committed + light.committed|, io));
  }

  lemma ApplyStepsNext(log: seq<Entry>, w0: World, i: nat, io: Io, w: World)
    requires WorldExec(log, w0, ApplySteps(i, io)) == Some(w) && w.p.stage.Applying? && w.p.stage.todo != []
    ensures WorldExec(log, w0, ApplySteps(i + 1, io)) == Some(WorldStep(log, w, Handle(ApplyNext(ApplyOk(io, i)))))
  {
    var evs, next := WorldNext(log, w0, ApplySteps(i, io), w, Handle(ApplyNext(ApplyOk(io, i))));
  }

  // ---------- what a call achieves ----------

  ghost predicate Reachable(log: seq<Entry>, w: World) {
    exists m, evs :: WorldReaches(m, log, evs, w)
  }

  lemma StaysReachable(log: seq<Entry>, w: World, more: seq<NodeEvent>, v: World)
    requires Reachable(log, w) && WorldExec(log, w, more) == Some(v)
    ensures Reachable(log, v)
  {
    var m, evs :| WorldReaches(m, log, evs, w);
    WorldConcat(log, InitialWorld(m), evs, more);
    assert WorldReaches(m, log, evs + more, v);
  }

  /** In a reachable state an answered Ready is durable, and an idle node has consumed all it was handed. */
  lemma ReachableIdle(log: seq<Entry>, w: World)
    requires Reachable(log, w) && w.p.stage.Idle?
    ensures w.p.next == w.p.delivered <= |log|
    ensures forall i :: 0 <= i < |w.p.answers| ==> AnswerOk(w.p.answers[i])
  {
    var m, evs :| WorldReaches(m, log, evs, w);
    RunInvariants(m, log, evs, w);
  }

  /** Nothing about the Readies taken so far has changed, nor what has been handed out. */
  predicate SameCall(p: Pipeline, q: Pipeline) {
    && q.taken == p.taken && q.delivered == p.delivered
    && q.answers == p.answers && q.advanced == p.advanced && q.failed == p.failed
  }

  lemma PersistResultCall(w: World, ready: Ready, io: Io)
    ensures var v := PersistResult(w, ready, io);
            && (Persists(ready, io) ==> SameCall(w.p, v.p) && v.p.next == w.p.next)
            && (!Persists(ready, io) ==>
                  && SameCall(w.p.(failed := v.p.failed), v.p) && v.p.next == v.p.delivered
                  && v.p.failed == w.p.failed + {w.p.taken})
  {
  }

  lemma PersistKeepsUsers(a: Adapter, ready: Ready, io: Io)
    ensures forall k :: !Reserved(k) ==> Lookup(PersistedAdapter(a, ready, io).disk, k) == Lookup(a.disk, k)
  {
    PutEntriesAt(a.disk, if io.puts < |ready.entries| then ready.entries[..io.puts] else ready.entries);
  }

  lemma ReturnNext(log: seq<Entry>, w0: World, n: nat, io: Io, w: World)
    requires WorldExec(log, w0, ApplySteps(n, io)) == Some(w) && w.p.stage.Applying? && w.p.stage.todo == []
    ensures WorldEnabled(log, w, Handle(Release))
    ensures WorldExec(log, w0, ApplyAndReturn(n, io)) == Some(WorldStep(log, w, Handle(Release)))
  {
    var evs, next := WorldNext(log, w0, ApplySteps(n, io), w, Handle(Release));
  }

  class RaftNode {
    ghost const log: seq<Entry>
    const kv: RocksDbStorage
    const adapter: RaftStorageAdapter
    const stateMachine: StateMachine
    var pendingProposals: map<nat, Proposal>
    var proposalIndex: nat
    var channels: map<nat, bool>
    ghost var w: World

    ghost predicate Valid()
      reads this, kv, adapter
    {
      && adapter.kv == kv && stateMachine.storage == kv
      && adapter.View() == w.p.a
      && pendingProposals == w.c.pending && proposalIndex == w.c.counter && channels == w.c.mail
    }

    constructor (ghost log: seq<Entry>, adapter: RaftStorageAdapter, ghost w: World)
      requires adapter.View() == w.p.a && w.c.pending == map[] && w.c.counter == 0 && w.c.mail == map[]
      ensures Valid() && fresh(stateMachine)
      ensures this.log == log && this.adapter == adapter && this.kv == adapter.kv && this.w == w
    {
      this.log, this.kv, this.adapter, this.w := log, adapter.kv, adapter, w;
      stateMachine := new StateMachine(adapter.kv);
      pendingProposals, proposalIndex, channels := map[], 0, map[];
    }

    /** `RaftNode::new`: a start of the process, `before` being the node as the last process left it. */
    static method New(ghost log: seq<Entry>, kv: RocksDbStorage, start: Start, ghost before: World)
      returns (r: Option<RaftNode>)
      requires before.p.stage.Down? && before.p.a.disk == kv.db
      requires before.c.pending == map[] && before.c.counter == 0 && before.c.mail == map[]
      modifies kv
      ensures r.Some? ==> fresh(r.value) && fresh(r.value.adapter) && r.value.Valid()
                          && r.value.kv == kv && r.value.log == log
      ensures r.Some? ==> r.value.w == WorldStep(log, before, Handle(Event.Restart(start))) && r.value.w.p.stage.Idle?
      ensures r.Some? ==>
                && r.value.pendingProposals == map[] && r.value.channels == map[] && r.value.proposalIndex == 0
                && LoadEntries(old(kv.db)) == Some(r.value.adapter.entries)
                && LoadHardState(old(kv.db)) == Some(r.value.adapter.hard)
                && LoadConfState(kv.db) == Some(r.value.adapter.conf)
                && (!HasVoters(old(kv.db)) ==> r.value.adapter.conf.voters == start.voters)
      ensures r.None? <==> Undecodable(old(kv.db)) || (!HasVoters(old(kv.db)) && !start.io)
      ensures r.None? ==> kv.db == old(kv.db) && WorldStep(log, before, Handle(Event.Restart(start))) == before
    {
      OpenFailsExactly(kv.db, Some(start.voters), start.io);
      OpenYields(kv.db, Some(start.voters), start.io);
      var adapter := RaftStorageAdapter.NewInner(kv, Some(start.voters), start.io);
      if adapter.None? { return None; }
      var node := new RaftNode(log, adapter.value, WorldStep(log, before, Handle(Event.Restart(start))));
      r := Some(node);
    }

    /** `propose` up to the wait: take an id, register, hand over to raft-rs, which may refuse. */
    method Propose(proposal: Proposal, accepted: bool) returns (id: nat)
      requires Valid() && !w.p.stage.Down? && proposalIndex + 1 < ID_LIMIT
      modifies this`pendingProposals, this`proposalIndex, this`w
      ensures Valid() && id == old(proposalIndex) + 1
      ensures pendingProposals == old(pendingProposals)[id := proposal]
      ensures WorldExec(log, old(w), NodeMachine.CallSteps(id, proposal, accepted)) == Some(w)
      ensures InPhase(w.c, id, if accepted then Waiting else Done(Rejected))
    {
      CallRun(log, w, proposal, accepted);
      w := AfterCall(w, proposal, accepted);
      proposalIndex := proposalIndex + 1;
      id := proposalIndex;
      pendingProposals := pendingProposals[id := proposal];
    }

    /** The `select!` of `propose`: the reply if there is one and the timer does not win, the timeout otherwise. */
    method Await(id: nat, timerWins: bool) returns (outcome: Outcome)
      requires Valid() && !w.p.stage.Down? && InPhase(w.c, id, Waiting)
      modifies this`pendingProposals, this`w
      ensures Valid() && InPhase(w.c, id, Done(outcome))
      ensures id in channels && !timerWins ==>
                && outcome == (if channels[id] then Acked else ApplyFailed)
                && w == WorldStep(log, old(w), Client(Receive(id)))
      ensures id !in channels || timerWins ==>
                outcome == TimedOut && id !in pendingProposals && w == WorldStep(log, old(w), Client(TimeOut(id)))
    {
      if id in channels && !timerWins {
        outcome := if channels[id] then Acked else ApplyFailed;
        w := WorldStep(log, w, Client(Receive(id)));
      } else {
        pendingProposals := pendingProposals - {id};
        outcome := TimedOut;
        w := WorldStep(log, w, Client(TimeOut(id)));
      }
    }

    /** Step 2 of `handle_ready`: entries, then hard state; an error ends the call. */
    method PersistRecords(ready: Ready, io: Io) returns (ok: bool)
      requires adapter.kv == kv
      modifies adapter, kv
      ensures ok == Persists(ready, io)
      ensures adapter.View() == PersistedAdapter(old(adapter.View()), ready, io)
      ensures ok ==> adapter.entries == old(adapter.entries) + ready.entries
      ensures ok && ready.hs.Some? ==> adapter.hard == ready.hs.value
    {
      if ready.entries != [] {
        ok := adapter.AppendEntries(ready.entries, io.puts);
        if !ok { return; }
      }
      if ready.hs.Some? {
        ok := adapter.SaveHardState(ready.hs.value, io.hard);
        if !ok { return; }
      }
      ok := true;
    }

    method Persist(ready: Ready, io: Io) returns (ok: bool)
      requires Valid() && w.p.stage == Persisting(ready, 0)
      modifies this`w, adapter, kv
      ensures Valid() && ok == Persists(ready, io)
      ensures WorldExec(log, old(w), PersistSteps(ready, io)) == Some(w)
      ensures w == PersistResult(old(w), ready, io)
      ensures w.p.stage == if ok then Advancing(ready) else Idle
      ensures w.p.taken == old(w).p.taken && w.p.delivered == old(w).p.delivered && w.p.answers == old(w).p.answers
      ensures ok ==> w.p.next == old(w).p.next
      ensures !ok ==> w.p.next == w.p.delivered && w.p.taken in w.p.failed
      ensures ok ==> adapter.entries == old(adapter.entries) + ready.entries
      ensures ok && ready.hs.Some? ==> adapter.hard == ready.hs.value
      ensures forall k :: !Reserved(k) ==> Lookup(kv.db, k) == Lookup(old(kv.db), k)
    {
      PersistResultCall(w, ready, io);
      PersistKeepsUsers(w.p.a, ready, io);
      PersistRun(log, w, ready, io);
      w := PersistResult(w, ready, io);
      ok := PersistRecords(ready, io);
    }

    /** One turn of the apply loop. */
    method ApplyOne(entry: Entry, io: bool)
      requires Valid() && w.p.stage.Applying? && w.p.stage.todo != [] && entry == w.p.stage.todo[0]
      modifies this`pendingProposals, this`channels, this`w, kv
      ensures Valid() && w == WorldStep(log, old(w), Handle(ApplyNext(io)))
      ensures w.p.stage == old(w).p.stage.(todo := old(w).p.stage.todo[1..])
      ensures SameCall(old(w).p, w.p) && w.p.next == old(w).p.next + 1
      ensures kv.db == if io then ApplyEntry(old(kv.db), entry) else old(kv.db)
      ensures entry.data == [] || DecodeProposal(entry.data).None? ==>
                && kv.db == old(kv.db) && pendingProposals == old(pendingProposals) && channels == old(channels)
                && w.p.skipped == old(w).p.skipped
      ensures entry.data != [] && DecodeProposal(entry.data).Some? ==>
                && kv.db == (if io then ApplyProposal(old(kv.db), DecodeProposal(entry.data).value) else old(kv.db))
                && w.p.skipped == (if io then old(w).p.skipped else old(w).p.skipped + {old(w).p.next})
                && if |entry.context| >= 8 && FromLittleEndian(entry.context[..8]) in old(pendingProposals) then
                     var id := FromLittleEndian(entry.context[..8]);
                     pendingProposals == old(pendingProposals) - {id} && channels == old(channels)[id := io]
                   else pendingProposals == old(pendingProposals) && channels == old(channels)
    {
      SkippedExactly(kv.db, entry);
      w := WorldStep(log, w, Handle(ApplyNext(io)));
      if entry.data == [] { return; }
      var proposal := DecodeProposal(entry.data);
      if proposal.Some? {
        var ok := stateMachine.Apply(proposal.value, io);
        if |entry.context| >= 8 {
          var id := FromLittleEndian(entry.context[..8]);
          if id in pendingProposals {
            pendingProposals := pendingProposals - {id};
            channels := channels[id := ok];
          }
        }
      }
    }

    method ApplyCommitted(todo: seq<Entry>, io: Io)
      requires Valid() && w.p.stage.Applying? && w.p.stage.todo == todo
      modifies this`pendingProposals, this`channels, this`w, kv
      ensures Valid() && WorldExec(log, old(w), ApplySteps(|todo|, io)) == Some(w)
      ensures w.p.stage == old(w).p.stage.(todo := [])
      ensures SameCall(old(w).p, w.p) && w.p.next == old(w).p.next + |todo|
      ensures kv.db == Replay(old(kv.db), Accepted(todo, io))
    {
      ghost var w0 := w;
      var i := 0;
      while i < |todo|
        invariant 0 <= i <= |todo| && Valid()
        invariant WorldExec(log, w0, ApplySteps(i, io)) == Some(w)
        invariant w.p.stage == w0.p.stage.(todo := todo[i..])
        invariant SameCall(w0.p, w.p) && w.p.next == w0.p.next + i
        invariant kv.db == Replay(old(kv.db), Accepted(todo[..i], io))
      {
        AcceptedNext(old(kv.db), todo, i, io);
        ApplyStepsNext(log, w0, i, io, w);
        assert todo[i..][1..] == todo[i + 1..];
        ApplyOne(todo[i], ApplyOk(io, i));
        i := i + 1;
      }
      assert todo[..|todo|] == todo;
    }

    /** Steps that change no field of the code: taking the Ready, advancing raft-rs, returning. */
    ghost method RaftStep(step: Event)
      requires Valid() && WorldEnabled(log, w, Handle(step)) && (step.TakeReady? || step.Release?)
      modifies this`w
      ensures Valid() && w == WorldStep(log, old(w), Handle(step))
      ensures w.p.stage == if step.TakeReady? then Persisting(step.ready, 0) else Idle
      ensures w.p.next == old(w).p.next && w.p.failed == old(w).p.failed
      ensures step.TakeReady? ==>
                && w.p.taken == old(w).p.taken + 1 && w.p.answers == old(w).p.answers
                && w.p.delivered == old(w).p.delivered + |step.ready.committed|
      ensures step.Release? ==>
                && w.p.taken == old(w).p.taken && w.p.delivered == old(w).p.delivered
                && var Applying(ready, light, _) := old(w).p.stage;
                   w.p.answers == old(w).p.answers
                                  + [Answer(w.p.taken, ready, ready.messages + ready.persisted + light.messages, kv.db)]
    {
      w := WorldStep(log, w, Handle(step));
    }

    ghost method AdvanceRaft(light: LightReady)
      requires Valid() && WorldEnabled(log, w, Handle(Advance(light)))
      modifies this`w
      ensures Valid() && w == WorldStep(log, old(w), Handle(Advance(light)))
      ensures old(w).p.stage.Advancing? && w.p.stage.Applying?
      ensures w.p.stage.ready == old(w).p.stage.ready && w.p.stage.light == light
      ensures w.p.stage.todo == old(w).p.stage.ready.committed + light.committed
      ensures w.p.taken == old(w).p.taken && w.p.next == old(w).p.next && w.p.answers == old(w).p.answers
      ensures w.p.delivered == old(w).p.delivered + |light.committed|
    {
      w := WorldStep(log, w, Handle(Advance(light)));
    }

    method ApplyAndRelease(rd: Ready, light: LightReady, todo: seq<Entry>, io: Io)
      requires Valid() && w.p.stage == Applying(rd, light, todo)
      modifies this`pendingProposals, this`channels, this`w, kv
      ensures Valid() && w.p.stage.Idle?
      ensures WorldExec(log, old(w), ApplyAndReturn(|todo|, io)) == Some(w)
      ensures w.p.taken == old(w).p.taken && w.p.delivered == old(w).p.delivered
      ensures w.p.next == old(w).p.next + |todo|
      ensures w.p.answers == old(w).p.answers
                             + [Answer(w.p.taken, rd, rd.messages + rd.persisted + light.messages, kv.db)]
      ensures kv.db == Replay(old(kv.db), Accepted(todo, io))
    {
      ghost var w0 := w;
      ApplyCommitted(todo, io);
      ReturnNext(log, w0, |todo|, io, w);
      RaftStep(Release);
    }

    /** Step 3 on: advance, apply everything, and the messages are free to go. */
    method AdvanceAndApply(rd: Ready, light: LightReady, io: Io)
      requires Valid() && w.p.stage == Advancing(rd) && WorldEnabled(log, w, Handle(Advance(light)))
      modifies this`pendingProposals, this`channels, this`w, kv
      ensures Valid() && w.p.stage.Idle?
      ensures WorldExec(log, old(w), AfterPersist(rd, light, io)) == Some(w)
      ensures w.p.taken == old(w).p.taken && w.p.delivered == old(w).p.delivered + |light.committed|
      ensures w.p.next == old(w).p.next + |rd.committed| + |light.committed|
      ensures w.p.answers == old(w).p.answers
                             + [Answer(w.p.taken, rd, rd.messages + rd.persisted + light.messages, kv.db)]
      ensures kv.db == Replay(old(kv.db), Accepted(rd.committed + light.committed, io))
    {
      ghost var w0 := w;
      AdvanceRaft(light);
      ghost var w1 := w;
      ApplyAndRelease(rd, light, rd.committed + light.committed, io);
      AfterPersistRun(log, w0, w1, w, rd, light, io);
    }

    /** What a call did that took `rd`: `before` is the node it found and `db` the store. */
    ghost predicate Handled(before: World, db: Disk, rd: Ready, light: LightReady, io: Io)
      reads this, kv
    {
      && w.p.answers == before.p.answers
                        + [Answer(w.p.taken, rd, rd.messages + rd.persisted + light.messages, kv.db)]
      && w.p.delivered == before.p.delivered + |rd.committed| + |light.committed|
      && w.p.next == before.p.next + |rd.committed| + |light.committed|
      && UserView(kv.db) == UserView(Replay(db, Accepted(rd.committed + light.committed, io)))
    }

    /** And what it did if persisting failed: the Ready is given up, its committed entries with it. */
    ghost predicate GivenUp(before: World, db: Disk, rd: Ready)
      reads this, kv
    {
      && w.p.answers == before.p.answers && w.p.taken in w.p.failed
      && w.p.next == w.p.delivered == before.p.delivered + |rd.committed|
      && UserView(kv.db) == UserView(db)
    }

    /** `handle_ready` once there is a Ready. */
    method HandleTaken(rd: Ready, light: LightReady, io: Io) returns (ok: bool)
      requires Valid() && Enabled(log, w.p, TakeReady(rd)) && LightAllowed(log, w, rd, light, io)
      modifies this`pendingProposals, this`channels, this`w, adapter, kv
      ensures Valid() && w.p.stage.Idle? && ok == Persists(rd, io)
      ensures WorldExec(log, old(w), ReadySteps(rd, light, io)) == Some(w)
      ensures w.p.taken == old(w).p.taken + 1
      ensures ok ==> Handled(old(w), old(kv.db), rd, light, io)
      ensures ok ==> adapter.entries == old(adapter.entries) + rd.entries
      ensures ok && rd.hs.Some? ==> adapter.hard == rd.hs.value
      ensures !ok ==> GivenUp(old(w), old(kv.db), rd)
    {
      ghost var w0, db := w, kv.db;
      RaftStep(TakeReady(rd));
      ghost var w1 := w;
      ok := Persist(rd, io);
      ghost var persisted := kv.db;
      SameUserView(persisted, db);
      BeforeAdvanceRun(log, w0, w1, w, rd, io);
      if ok {
        AdvanceAllowed(log, w0, rd, light, io);
        AdvanceAndApply(rd, light, io);
        WorldConcat(log, w0, BeforeAdvance(rd, io), AfterPersist(rd, light, io));
        ReplaySameView(persisted, db, Accepted(rd.committed + light.committed, io));
      }
    }

    /**
     * `handle_ready`. `ready` is what raft-rs has to hand out, if anything, and `light` what it answers when it is
     * advanced, under its contract. Nothing is returned unless persisting succeeded; the messages come back in
     * the order of the source.
     */
    method HandleReady(ready: Option<Ready>, light: LightReady, io: Io) returns (r: Option<seq<RaftMessage>>)
      requires Valid() && w.p.stage.Idle?
      requires ready.Some? ==> Enabled(log, w.p, TakeReady(ready.value)) && LightAllowed(log, w, ready.value, light, io)
      modifies this`pendingProposals, this`channels, this`w, adapter, kv
      ensures Valid() && w.p.stage.Idle?
      ensures ready.None? ==> r == Some([]) && w == old(w)
      ensures ready.Some? ==> WorldExec(log, old(w), ReadySteps(ready.value, light, io)) == Some(w)
      ensures ready.Some? ==> r == if Persists(ready.value, io)
                                   then Some(ready.value.messages + ready.value.persisted + light.messages) else None
      ensures r.None? <==> ready.Some? && (io.puts < |ready.value.entries| || (ready.value.hs.Some? && !io.hard))
      ensures ready.Some? ==> w.p.taken == old(w).p.taken + 1
      ensures ready.Some? && r.Some? ==> Handled(old(w), old(kv.db), ready.value, light, io)
      ensures ready.Some? && r.Some? && (forall i :: 0 <= i < |io.applies| ==> io.applies[i]) ==>
                UserView(kv.db) == UserView(Replay(old(kv.db), ready.value.committed + light.committed))
      ensures ready.Some? && r.Some? ==>
                && r.value == w.p.answers[|w.p.answers| - 1].messages
                && adapter.entries == old(adapter.entries) + ready.value.entries
                && (ready.value.hs.Some? ==> adapter.hard == ready.value.hs.value)
      ensures r.None? ==> ready.Some? && GivenUp(old(w), old(kv.db), ready.value)
      ensures Reachable(log, old(w)) ==>
                && Reachable(log, w) && w.p.next == w.p.delivered
                && (ready.Some? && r.Some? ==>
                      EntriesDurable(kv.db, ready.value.entries) && HardStateDurable(kv.db, ready.value.hs))
    {
      if ready.None? {
        if Reachable(log, w) { ReachableIdle(log, w); }
        return Some([]);
      }
      ghost var w0 := w;
      var ok := HandleTaken(ready.value, light, io);
      if forall i :: 0 <= i < |io.applies| ==> io.applies[i] {
        AllAccepted(ready.value.committed + light.committed, io);
      }
      if Reachable(log, w0) {
        StaysReachable(log, w0, ReadySteps(ready.value, light, io), w);
        ReachableIdle(log, w);
        if ok { assert AnswerOk(w.p.answers[|w0.p.answers|]); }
      }
      r := if ok then Some(ready.value.messages + ready.value.persisted + light.messages) else None;
    }
  }
}
