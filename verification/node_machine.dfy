/**
 * The whole node: the pipeline and the callers of `propose`, interleaved in any way. Applying an entry answers
 * the pending proposal whose id the entry carries in its context.
 */
module NodeMachine {
  import opened Wrappers
  import opened Bytes
  import opened OrderedStore
  import opened Codec
  import opened DurableLog
  import opened SharedStore
  import opened RaftStorage
  import opened ReadyPipeline
  import opened ReadyTheorems
  import opened CommittedReads
  import opened Proposals

  /** A reply: the log position that was applied, and whether applying it succeeded. */
  datatype Reply = Reply(pos: nat, ok: bool)

  /** History: the reply sent to each call, and every successful application (process, position). */
  datatype World = World(p: Pipeline, c: Clients, replies: map<CallId, Reply>, applied: set<(nat, nat)>)

  datatype NodeEvent = Handle(step: Event) | Client(call: ClientEvent)

  /** The proposal id in an entry's context: its first eight bytes, if it has that many. */
  function Carries(e: Entry): Option<nat> {
    if |e.context| < 8 then None else Some(FromLittleEndian(e.context[..8]))
  }

  /** The context `propose` gives raft-rs. */
  function IdContext(id: nat): seq<byte> {
    LittleEndian(id, 8)
  }

  ghost predicate WorldEnabled(log: seq<Entry>, w: World, ev: NodeEvent) {
    match ev
    case Handle(step) => Enabled(log, w.p, step)
    case Client(call) => !w.p.stage.Down? && ClientEnabled(w.c, call)
  }

  /** The end of one turn of the apply loop: the result goes to the waiter, if the entry's id has one. */
  function Notify(w: World, e: Entry, pos: nat, ok: bool): World {
    var applied := if ok then w.applied + {(w.c.epoch, pos)} else w.applied;
    match Carries(e)
    case None => w.(applied := applied)
    case Some(id) =>
      w.(applied := applied, c := TakeReply(w.c, id, ok),
         replies := if id in w.c.pending then w.replies[CallId(w.c.epoch, id) := Reply(pos, ok)] else w.replies)
  }

  ghost function WorldStep(log: seq<Entry>, w: World, ev: NodeEvent): World
    requires WorldEnabled(log, w, ev)
  {
    match ev
    case Client(call) => w.(c := ClientStep(w.c, call))
    case Handle(step) =>
      var moved := w.(p := Step(log, w.p, step));
      if step.Crash? then moved.(c := Reset(w.c))
      else if step.ApplyNext? && Op(w.p.stage.todo[0]).Some? then Notify(moved, w.p.stage.todo[0], w.p.next, step.io)
      else moved
  }

  ghost function WorldExec(log: seq<Entry>, w: World, evs: seq<NodeEvent>): Option<World> {
    if |evs| == 0 then Some(w) else
      match WorldExec(log, w, evs[..|evs| - 1])
      case None => None
      case Some(v) => if WorldEnabled(log, v, evs[|evs| - 1]) then Some(WorldStep(log, v, evs[|evs| - 1])) else None
  }

  function InitialWorld(m: Disk): World {
    World(Initial(m), NO_CLIENTS, map[], {})
  }

  ghost predicate WorldReaches(m: Disk, log: seq<Entry>, evs: seq<NodeEvent>, w: World) {
    Loadable(m) && Committed(log) && WorldExec(log, InitialWorld(m), evs) == Some(w)
  }

  // ---------- each half of a run is a run of its machine ----------

  lemma {:induction false} PipelineOfRun(m: Disk, log: seq<Entry>, evs: seq<NodeEvent>, w: World)
    returns (steps: seq<Event>)
    requires WorldReaches(m, log, evs, w)
    ensures Reaches(m, log, steps, w.p)
  {
    if |evs| == 0 {
      steps := [];
    } else {
      var front, ev := evs[..|evs| - 1], evs[|evs| - 1];
      var v := WorldExec(log, InitialWorld(m), front).value;
      steps := PipelineOfRun(m, log, front, v);
      if ev.Handle? {
        var next;
        steps, next := ExecNext(log, Initial(m), steps, v.p, ev.step);
      }
    }
  }

  /** What an event means to the proposals: nothing, for most steps of the pipeline. */
  ghost function ClientPart(log: seq<Entry>, w: World, ev: NodeEvent): seq<ProposalEvent>
    requires WorldEnabled(log, w, ev)
  {
    match ev
    case Client(call) => [Caller(call)]
    case Handle(step) =>
      if step.Crash? then [Crashed]
      else if step.ApplyNext? && Op(w.p.stage.todo[0]).Some? && Carries(w.p.stage.todo[0]).Some?
      then [Answered(Carries(w.p.stage.todo[0]).value, step.io)]
      else []
  }

  lemma {:induction false} ClientsOfRun(m: Disk, log: seq<Entry>, evs: seq<NodeEvent>, w: World)
    returns (calls: seq<ProposalEvent>)
    requires WorldReaches(m, log, evs, w)
    ensures ClientRun(NO_CLIENTS, calls) == Some(w.c)
  {
    if |evs| == 0 {
      calls := [];
    } else {
      var front, ev := evs[..|evs| - 1], evs[|evs| - 1];
      var v := WorldExec(log, InitialWorld(m), front).value;
      calls := ClientsOfRun(m, log, front, v);
      var part := ClientPart(log, v, ev);
      if part != [] {
        assert (calls + part)[..|calls + part| - 1] == calls;
        calls := calls + part;
      }
    }
  }

  lemma IdContextRoundTrip(id: nat)
    requires id < ID_LIMIT
    ensures |IdContext(id)| == 8 && FromLittleEndian(IdContext(id)[..8]) == id
  {
    assert Pow256(8) == ID_LIMIT;
    LittleEndianRoundTrip(id, 8);
    assert IdContext(id)[..8] == IdContext(id);
  }

  /**
   * A context carries the id in its first eight bytes, least significant first; a shorter one carries none. So any
   * context that begins with what `propose` writes for an id carries that id.
   */
  lemma CarriesExact(e: Entry, id: nat, rest: seq<byte>)
    requires id < ID_LIMIT
    ensures |e.context| >= 8 ==>
              var c := e.context;
              Carries(e) == Some(c[0] as nat + 0x100 * c[1] as nat + 0x1_0000 * c[2] as nat + 0x100_0000 * c[3] as nat
                                 + 0x1_0000_0000 * c[4] as nat + 0x100_0000_0000 * c[5] as nat
                                 + 0x1_0000_0000_0000 * c[6] as nat + 0x100_0000_0000_0000 * c[7] as nat)
    ensures e.context == IdContext(id) + rest ==> Carries(e) == Some(id)
    ensures |e.context| < 8 ==> Carries(e) == None
  {
    IdContextRoundTrip(id);
    if |e.context| >= 8 { LittleEndianLayout(e.context[..8]); }
    assert (IdContext(id) + rest)[..8] == IdContext(id)[..8];
  }

  /** Both halves keep their invariants. */
  lemma RunInvariants(m: Disk, log: seq<Entry>, evs: seq<NodeEvent>, w: World)
    requires WorldReaches(m, log, evs, w)
    ensures Inv(m, log, w.p) && ClientsInv(w.c)
  {
    var steps := PipelineOfRun(m, log, evs, w);
    RunsKeepInv(m, log, steps);
    var calls := ClientsOfRun(m, log, evs, w);
    RunsKeepClients(calls);
  }

  // ---------- replies ----------

  /** A reply goes to a registered call, and is about an entry that carries its id; nothing else counts as Ok. */
  predicate ReplyOk(log: seq<Entry>, w: World, cid: CallId) {
    && (cid in w.replies ==>
          && cid in w.c.calls
          && w.replies[cid].pos < |log|
          && Op(log[w.replies[cid].pos]).Some?
          && Carries(log[w.replies[cid].pos]) == Some(cid.id)
          && (w.replies[cid].ok ==> (cid.epoch, w.replies[cid].pos) in w.applied))
    && (cid.epoch == w.c.epoch ==>
          && (cid in w.replies <==> cid.id in w.c.mail)
          && (cid in w.replies ==> w.c.mail[cid.id] == w.replies[cid].ok))
    && (cid in w.c.calls && w.c.calls[cid].phase == Done(Acked) ==> cid in w.replies && w.replies[cid].ok)
    && (cid in w.c.calls && w.c.calls[cid].phase == Done(ApplyFailed) ==> cid in w.replies && !w.replies[cid].ok)
  }

  /** The id of the pending call that applying `e` answers. */
  function Waiter(c: Clients, e: Entry): Option<nat> {
    if Op(e).Some? && Carries(e).Some? && Carries(e).value in c.pending then Carries(e) else None
  }

  /** What applying the entry at `pos` does outside the pipeline. */
  ghost predicate Applied(log: seq<Entry>, w: World, v: World, pos: nat, io: bool) {
    && pos < |log|
    && v.applied == (if io && Op(log[pos]).Some? then w.applied + {(w.c.epoch, pos)} else w.applied)
    && match Waiter(w.c, log[pos])
       case None => v.c == w.c && v.replies == w.replies
       case Some(id) => v.c == TakeReply(w.c, id, io) && v.replies == w.replies[CallId(w.c.epoch, id) := Reply(pos, io)]
  }

  lemma ApplyEffect(log: seq<Entry>, w: World, io: bool)
    requires DeliveryInv(log, w.p) && WorldEnabled(log, w, Handle(ApplyNext(io)))
    ensures w.p.next < |log| && w.p.stage.todo[0] == log[w.p.next]
    ensures Applied(log, w, WorldStep(log, w, Handle(ApplyNext(io))), w.p.next, io)
  {
    assert w.p.stage.todo[0] == log[w.p.next];
  }

  /** And what any other step does: a step of one call, a crash, or nothing. */
  ghost predicate Elsewhere(w: World, v: World) {
    && v.replies == w.replies && v.applied == w.applied
    && (v.c == w.c || v.c == Reset(w.c) || exists call :: ClientEnabled(w.c, call) && v.c == ClientStep(w.c, call))
  }

  lemma OtherEffect(log: seq<Entry>, w: World, ev: NodeEvent)
    requires WorldEnabled(log, w, ev) && !(ev.Handle? && ev.step.ApplyNext?)
    ensures Elsewhere(w, WorldStep(log, w, ev))
  {
    if ev.Client? { assert ClientEnabled(w.c, ev.call); }
  }

  lemma AppliedKeepsReply(log: seq<Entry>, w: World, v: World, pos: nat, io: bool, cid: CallId)
    requires ClientsInv(w.c) && ReplyOk(log, w, cid) && Applied(log, w, v, pos, io)
    ensures ReplyOk(log, v, cid)
  {
    assert PendingOk(w.c, cid.id);
  }

  /** What a step of a call changes in the records of any one call. */
  lemma CallEffectOn(c: Clients, call: ClientEvent, cid: CallId)
    requires ClientsInv(c) && ClientEnabled(c, call)
    ensures var d := ClientStep(c, call);
            && d.epoch == c.epoch && d.mail == c.mail
            && (cid in c.calls ==> cid in d.calls && d.calls[cid].proposal == c.calls[cid].proposal)
            && (cid in d.calls && d.calls[cid].phase == Done(Acked) ==>
                  || (cid in c.calls && c.calls[cid].phase == Done(Acked))
                  || (cid.epoch == c.epoch && cid.id in c.mail && c.mail[cid.id]))
            && (cid in d.calls && d.calls[cid].phase == Done(ApplyFailed) ==>
                  || (cid in c.calls && c.calls[cid].phase == Done(ApplyFailed))
                  || (cid.epoch == c.epoch && cid.id in c.mail && !c.mail[cid.id]))
  {
    assert CallOk(c, CallId(c.epoch, c.counter + 1));
  }

  lemma ElsewhereKeepsReply(log: seq<Entry>, w: World, v: World, cid: CallId)
    requires ClientsInv(w.c) && ReplyOk(log, w, cid) && Elsewhere(w, v)
    ensures ReplyOk(log, v, cid)
  {
    assert CallOk(w.c, cid);
    if v.c != w.c && v.c != Reset(w.c) {
      var call :| ClientEnabled(w.c, call) && v.c == ClientStep(w.c, call);
      CallEffectOn(w.c, call, cid);
    }
  }

  lemma {:induction false} RunsKeepReplies(m: Disk, log: seq<Entry>, evs: seq<NodeEvent>, w: World, cid: CallId)
    requires WorldReaches(m, log, evs, w)
    ensures ReplyOk(log, w, cid)
  {
    if |evs| > 0 {
      var front, ev := evs[..|evs| - 1], evs[|evs| - 1];
      var v := WorldExec(log, InitialWorld(m), front).value;
      RunsKeepReplies(m, log, front, v, cid);
      RunInvariants(m, log, front, v);
      if ev.Handle? && ev.step.ApplyNext? {
        ApplyEffect(log, v, ev.step.io);
        AppliedKeepsReply(log, v, w, v.p.next, ev.step.io, cid);
      } else {
        OtherEffect(log, v, ev);
        ElsewhereKeepsReply(log, v, w, cid);
      }
    }
  }

  // ---------- acknowledgement soundness ----------

  /** The entry at `pos` stems from a call of the process `epoch`. */
  predicate Own(origin: seq<Option<CallId>>, epoch: nat, pos: nat) {
    pos < |origin| && origin[pos].Some? && origin[pos].value.epoch == epoch
  }

  /**
   * `origin` says which call's proposal became which committed entry (None: another node's). raft-rs carries a
   * proposal unchanged: an entry that stems from a call of this process has that call's id and proposal.
   */
  ghost predicate Faithful(log: seq<Entry>, origin: seq<Option<CallId>>, w: World, ev: NodeEvent) {
    var pos := w.p.next;
    ev == Handle(ApplyNext(true)) && pos < |log| && Own(origin, w.c.epoch, pos) ==>
      && origin[pos].value in w.c.calls
      && log[pos].context == IdContext(origin[pos].value.id)
      && log[pos].data == EncodeProposal(w.c.calls[origin[pos].value].proposal)
  }

  /**
   * No entry is applied successfully for a waiter of another origin: an entry from another node, or from an
   * earlier process on this one, does not carry an id that is pending when it is applied.
   */
  ghost predicate NoForeignLiveId(log: seq<Entry>, origin: seq<Option<CallId>>, w: World, ev: NodeEvent) {
    var pos := w.p.next;
    ev == Handle(ApplyNext(true)) && pos < |log| && Op(log[pos]).Some? && !Own(origin, w.c.epoch, pos) ==>
      Carries(log[pos]).Some? ==> Carries(log[pos]).value !in w.c.pending
  }

  ghost predicate FaithfulThroughout(log: seq<Entry>, origin: seq<Option<CallId>>, w: World, evs: seq<NodeEvent>) {
    |evs| > 0 ==>
      var front := evs[..|evs| - 1];
      && FaithfulThroughout(log, origin, w, front)
      && (WorldExec(log, w, front).Some? ==> Faithful(log, origin, WorldExec(log, w, front).value, evs[|evs| - 1]))
  }

  ghost predicate NoForeignThroughout(log: seq<Entry>, origin: seq<Option<CallId>>, w: World, evs: seq<NodeEvent>) {
    |evs| > 0 ==>
      var front := evs[..|evs| - 1];
      && NoForeignThroughout(log, origin, w, front)
      && (WorldExec(log, w, front).Some? ==>
            NoForeignLiveId(log, origin, WorldExec(log, w, front).value, evs[|evs| - 1]))
  }

  /** The call was answered on account of its own committed entry, applied by the call's own process. */
  predicate OwnEntryApplied(log: seq<Entry>, origin: seq<Option<CallId>>, w: World, cid: CallId) {
    && cid in w.replies && cid in w.c.calls
    && w.replies[cid].pos < |log| == |origin|
    && origin[w.replies[cid].pos] == Some(cid)
    && Op(log[w.replies[cid].pos]) == Some(w.c.calls[cid].proposal)
    && (cid.epoch, w.replies[cid].pos) in w.applied
  }

  /** An entry of this process' own carries the id and the proposal of the very call it stems from. */
  lemma OwnEntryIsExact(log: seq<Entry>, origin: seq<Option<CallId>>, w: World)
    requires ClientsInv(w.c) && w.p.next < |log| && Own(origin, w.c.epoch, w.p.next)
    requires Faithful(log, origin, w, Handle(ApplyNext(true)))
    ensures origin[w.p.next].value in w.c.calls
    ensures Carries(log[w.p.next]) == Some(origin[w.p.next].value.id)
    ensures Op(log[w.p.next]) == Some(w.c.calls[origin[w.p.next].value].proposal)
  {
    var cid := origin[w.p.next].value;
    assert CallOk(w.c, cid);
    IdContextRoundTrip(cid.id);
    ProposalRoundTrip(w.c.calls[cid].proposal);
  }

  /**
   * One reply: when an entry is applied for a waiter, the waiter is told of its own entry exactly if the entry
   * does not come from elsewhere.
   */
  lemma ReplyExact(log: seq<Entry>, origin: seq<Option<CallId>>, w: World, id: nat)
    requires |origin| == |log| && ClientsInv(w.c) && DeliveryInv(log, w.p)
    requires WorldEnabled(log, w, Handle(ApplyNext(true))) && Faithful(log, origin, w, Handle(ApplyNext(true)))
    requires Waiter(w.c, w.p.stage.todo[0]) == Some(id)
    ensures OwnEntryApplied(log, origin, WorldStep(log, w, Handle(ApplyNext(true))), CallId(w.c.epoch, id))
            <==> NoForeignLiveId(log, origin, w, Handle(ApplyNext(true)))
  {
    ApplyEffect(log, w, true);
    if Own(origin, w.c.epoch, w.p.next) { OwnEntryIsExact(log, origin, w); }
    AppliedExact(log, origin, w, WorldStep(log, w, Handle(ApplyNext(true))), id);
  }

  lemma AppliedExact(log: seq<Entry>, origin: seq<Option<CallId>>, w: World, v: World, id: nat)
    requires |origin| == |log| && ClientsInv(w.c) && Applied(log, w, v, w.p.next, true)
    requires Waiter(w.c, log[w.p.next]) == Some(id)
    requires Own(origin, w.c.epoch, w.p.next) ==>
               && origin[w.p.next].value in w.c.calls
               && origin[w.p.next].value.id == id
               && Op(log[w.p.next]) == Some(w.c.calls[origin[w.p.next].value].proposal)
    ensures OwnEntryApplied(log, origin, v, CallId(w.c.epoch, id))
            <==> NoForeignLiveId(log, origin, w, Handle(ApplyNext(true)))
  {
    assert PendingOk(w.c, id);
  }

  /** Every successful reply sent so far was on account of the caller's own entry. */
  ghost predicate AllOwn(log: seq<Entry>, origin: seq<Option<CallId>>, w: World) {
    forall cid :: cid in w.replies && w.replies[cid].ok ==> OwnEntryApplied(log, origin, w, cid)
  }

  /** A reply once sent is never replaced, and neither is the proposal it was about. */
  ghost predicate Kept(log: seq<Entry>, origin: seq<Option<CallId>>, w: World, v: World, cid: CallId)
    requires cid in w.replies
  {
    && cid in v.replies && v.replies[cid] == w.replies[cid]
    && (w.replies[cid].ok ==> (OwnEntryApplied(log, origin, v, cid) <==> OwnEntryApplied(log, origin, w, cid)))
  }

  lemma AppliedKeeps(log: seq<Entry>, origin: seq<Option<CallId>>, w: World, v: World, pos: nat, io: bool, cid: CallId)
    requires ClientsInv(w.c) && ReplyOk(log, w, cid) && cid in w.replies && Applied(log, w, v, pos, io)
    ensures Kept(log, origin, w, v, cid)
  {
    assert PendingOk(w.c, cid.id);
  }

  lemma ElsewhereKeeps(log: seq<Entry>, origin: seq<Option<CallId>>, w: World, v: World, cid: CallId)
    requires ClientsInv(w.c) && ReplyOk(log, w, cid) && cid in w.replies && Elsewhere(w, v)
    ensures Kept(log, origin, w, v, cid)
  {
    if v.c != w.c && v.c != Reset(w.c) {
      var call :| ClientEnabled(w.c, call) && v.c == ClientStep(w.c, call);
      CallEffectOn(w.c, call, cid);
    }
  }

  lemma ReplyKept(log: seq<Entry>, origin: seq<Option<CallId>>, w: World, ev: NodeEvent, cid: CallId)
    requires ClientsInv(w.c) && DeliveryInv(log, w.p) && ReplyOk(log, w, cid) && cid in w.replies
    requires WorldEnabled(log, w, ev)
    ensures Kept(log, origin, w, WorldStep(log, w, ev), cid)
  {
    var v := WorldStep(log, w, ev);
    if ev.Handle? && ev.step.ApplyNext? {
      ApplyEffect(log, w, ev.step.io);
      AppliedKeeps(log, origin, w, v, w.p.next, ev.step.io, cid);
    } else {
      OtherEffect(log, w, ev);
      ElsewhereKeeps(log, origin, w, v, cid);
    }
  }

  /** The one reply a step may add. */
  lemma NewReply(log: seq<Entry>, w: World, ev: NodeEvent, cid: CallId)
    requires DeliveryInv(log, w.p) && WorldEnabled(log, w, ev)
    requires cid !in w.replies && cid in WorldStep(log, w, ev).replies && WorldStep(log, w, ev).replies[cid].ok
    ensures ev == Handle(ApplyNext(true)) && cid.epoch == w.c.epoch && Waiter(w.c, w.p.stage.todo[0]) == Some(cid.id)
  {
    if ev.Handle? && ev.step.ApplyNext? { ApplyEffect(log, w, ev.step.io); } else { OtherEffect(log, w, ev); }
  }

  lemma StepOwn(log: seq<Entry>, origin: seq<Option<CallId>>, w: World, ev: NodeEvent)
    requires |origin| == |log| && ClientsInv(w.c) && DeliveryInv(log, w.p)
    requires forall cid :: ReplyOk(log, w, cid)
    requires WorldEnabled(log, w, ev) && Faithful(log, origin, w, ev)
    ensures AllOwn(log, origin, WorldStep(log, w, ev))
            <==> AllOwn(log, origin, w) && NoForeignLiveId(log, origin, w, ev)
  {
    var v := WorldStep(log, w, ev);
    forall cid | cid in w.replies ensures Kept(log, origin, w, v, cid) { ReplyKept(log, origin, w, ev, cid); }
    if !NoForeignLiveId(log, origin, w, ev) {
      ForeignReply(log, origin, w);
    } else {
      forall cid | cid !in w.replies && cid in v.replies && v.replies[cid].ok
        ensures OwnEntryApplied(log, origin, v, cid)
      {
        NewReply(log, w, ev, cid);
        ReplyExact(log, origin, w, cid.id);
      }
      OwnBeforeAndAfter(log, origin, w, v);
    }
  }

  lemma OwnBeforeAndAfter(log: seq<Entry>, origin: seq<Option<CallId>>, w: World, v: World)
    requires forall cid :: cid in w.replies ==> Kept(log, origin, w, v, cid)
    requires forall cid :: cid !in w.replies && cid in v.replies && v.replies[cid].ok ==>
               OwnEntryApplied(log, origin, v, cid)
    ensures AllOwn(log, origin, v) <==> AllOwn(log, origin, w)
  {
    forall cid | cid in w.replies ensures Kept(log, origin, w, v, cid) && cid in v.replies {}
  }

  /** A foreign entry that meets its id sends a reply that is not the waiter's own. */
  lemma ForeignReply(log: seq<Entry>, origin: seq<Option<CallId>>, w: World)
    requires |origin| == |log| && ClientsInv(w.c) && DeliveryInv(log, w.p)
    requires WorldEnabled(log, w, Handle(ApplyNext(true))) && Faithful(log, origin, w, Handle(ApplyNext(true)))
    requires !NoForeignLiveId(log, origin, w, Handle(ApplyNext(true)))
    ensures !AllOwn(log, origin, WorldStep(log, w, Handle(ApplyNext(true))))
  {
    ApplyEffect(log, w, true);
    var id := Waiter(w.c, log[w.p.next]).value;
    ReplyExact(log, origin, w, id);
    var v := WorldStep(log, w, Handle(ApplyNext(true)));
    assert CallId(w.c.epoch, id) in v.replies && v.replies[CallId(w.c.epoch, id)].ok;
  }

  /**
   * Exactly when replies are right. Over every interleaving of calls, timeouts, crashes and steps of
   * `handle_ready`: every successful reply ever sent was on account of the caller's own committed entry if and only
   * if no step applied, for a waiter, an entry from another node or an earlier process.
   */
  lemma {:induction false} AckExact(
      m: Disk, log: seq<Entry>, origin: seq<Option<CallId>>, evs: seq<NodeEvent>, w: World)
    requires WorldReaches(m, log, evs, w) && |origin| == |log|
    requires FaithfulThroughout(log, origin, InitialWorld(m), evs)
    ensures AllOwn(log, origin, w) <==> NoForeignThroughout(log, origin, InitialWorld(m), evs)
  {
    if |evs| > 0 {
      var front, ev := evs[..|evs| - 1], evs[|evs| - 1];
      var v := WorldExec(log, InitialWorld(m), front).value;
      AckExact(m, log, origin, front, v);
      RunInvariants(m, log, front, v);
      forall cid ensures ReplyOk(log, v, cid) { RunsKeepReplies(m, log, front, v, cid); }
      StepOwn(log, origin, v, ev);
    }
  }

  /**
   * Acknowledgement soundness: if a call of `propose` returned Ok, and no foreign entry was applied for a waiter,
   * the committed entry made from that very call was applied successfully by its own process before the reply.
   */
  lemma AckSoundness(m: Disk, log: seq<Entry>, origin: seq<Option<CallId>>, evs: seq<NodeEvent>, w: World, cid: CallId)
    requires WorldReaches(m, log, evs, w) && |origin| == |log|
    requires FaithfulThroughout(log, origin, InitialWorld(m), evs)
    requires NoForeignThroughout(log, origin, InitialWorld(m), evs)
    requires cid in w.c.calls && w.c.calls[cid].phase == Done(Acked)
    ensures OwnEntryApplied(log, origin, w, cid)
  {
    AckExact(m, log, origin, evs, w);
    RunsKeepReplies(m, log, evs, w, cid);
  }

  // ---------- how a node can make sure ----------

  /** When `id` is registered, no entry still to be consumed carries it, except this process' own. */
  ghost predicate ClearRegistration(log: seq<Entry>, origin: seq<Option<CallId>>, w: World, ev: NodeEvent) {
    ev.Client? && ev.call.Register? ==>
      forall pos :: w.p.next <= pos < |log| && Carries(log[pos]) == Some(ev.call.id) ==> Own(origin, w.c.epoch, pos)
  }

  ghost predicate ClearThroughout(log: seq<Entry>, origin: seq<Option<CallId>>, w: World, evs: seq<NodeEvent>) {
    |evs| > 0 ==>
      var front := evs[..|evs| - 1];
      && ClearThroughout(log, origin, w, front)
      && (WorldExec(log, w, front).Some? ==>
            ClearRegistration(log, origin, WorldExec(log, w, front).value, evs[|evs| - 1]))
  }

  /** No pending id is carried by a foreign entry still to be consumed. */
  ghost predicate PendingClear(log: seq<Entry>, origin: seq<Option<CallId>>, w: World) {
    forall pos :: w.p.next <= pos < |log| && Carries(log[pos]).Some? && Carries(log[pos]).value in w.c.pending ==>
      Own(origin, w.c.epoch, pos)
  }

  /** Nothing but a crash moves the position back. */
  lemma PositionsOnlyGrow(log: seq<Entry>, s: Pipeline, step: Event)
    requires DeliveryInv(log, s) && Enabled(log, s, step) && step != Crash
    ensures Step(log, s, step).next >= s.next
  {
  }

  /** Nothing but a registration adds to the map. */
  lemma PendingOnlyShrinks(log: seq<Entry>, w: World, ev: NodeEvent)
    requires WorldEnabled(log, w, ev) && ev != Handle(Crash)
    ensures WorldStep(log, w, ev).c.epoch == w.c.epoch
    ensures forall id :: id in WorldStep(log, w, ev).c.pending ==> id in w.c.pending || ev == Client(Register(id))
  {
  }

  lemma StepKeepsClear(log: seq<Entry>, origin: seq<Option<CallId>>, w: World, ev: NodeEvent)
    requires DeliveryInv(log, w.p) && PendingClear(log, origin, w)
    requires WorldEnabled(log, w, ev) && ClearRegistration(log, origin, w, ev)
    ensures PendingClear(log, origin, WorldStep(log, w, ev))
  {
    if ev != Handle(Crash) {
      PendingOnlyShrinks(log, w, ev);
      if ev.Handle? { PositionsOnlyGrow(log, w.p, ev.step); }
    }
  }

  /**
   * A condition a node can meet across restarts: a proposal is registered only when no entry still to be consumed
   * carries its id from elsewhere. A process that is the only proposer and waits, after a start, until what its
   * predecessors proposed has been delivered again before it takes proposals is an instance.
   */
  lemma {:induction false} ClearRegistrationsSuffice(
      m: Disk, log: seq<Entry>, origin: seq<Option<CallId>>, evs: seq<NodeEvent>, w: World)
    requires WorldReaches(m, log, evs, w) && ClearThroughout(log, origin, InitialWorld(m), evs)
    ensures PendingClear(log, origin, w) && NoForeignThroughout(log, origin, InitialWorld(m), evs)
  {
    if |evs| > 0 {
      var front, ev := evs[..|evs| - 1], evs[|evs| - 1];
      var v := WorldExec(log, InitialWorld(m), front).value;
      ClearRegistrationsSuffice(m, log, origin, front, v);
      RunInvariants(m, log, front, v);
      StepKeepsClear(log, origin, v, ev);
    }
  }

  /** A run extended by one event. */
  lemma WorldNext(log: seq<Entry>, w: World, evs: seq<NodeEvent>, v: World, ev: NodeEvent)
    returns (evs': seq<NodeEvent>, v': World)
    requires WorldExec(log, w, evs) == Some(v) && WorldEnabled(log, v, ev)
    ensures evs' == evs + [ev] && v' == WorldStep(log, v, ev)
    ensures WorldExec(log, w, evs') == Some(v')
  {
    evs', v' := evs + [ev], WorldStep(log, v, ev);
    assert evs'[..|evs'| - 1] == evs;
  }

  lemma {:induction false} WorldConcat(log: seq<Entry>, w: World, a: seq<NodeEvent>, b: seq<NodeEvent>)
    requires WorldExec(log, w, a).Some? && WorldExec(log, WorldExec(log, w, a).value, b).Some?
    ensures WorldExec(log, w, a + b) == WorldExec(log, WorldExec(log, w, a).value, b)
  {
    if |b| == 0 {
      assert a + b == a;
    } else {
      WorldConcat(log, w, a, b[..|b| - 1]);
      assert (a + b)[..|a + b| - 1] == a + b[..|b| - 1];
    }
  }

  /** The steps of a call of `propose` up to the wait. */
  function CallSteps(id: nat, proposal: Proposal, accepted: bool): seq<NodeEvent> {
    [] + [Client(Issue(proposal))] + [Client(Register(id))] + [Client(Submit(id, accepted))]
  }

  /** And what they do: the next id is registered with its proposal; a refused call returns and leaves it there. */
  function AfterCall(w: World, proposal: Proposal, accepted: bool): World {
    var id, phase := w.c.counter + 1, if accepted then Waiting else Done(Rejected);
    w.(c := w.c.(counter := id, pending := w.c.pending[id := proposal],
                 calls := w.c.calls[CallId(w.c.epoch, id) := Call(proposal, phase)]))
  }

  lemma CallEffect(c: Clients, proposal: Proposal, accepted: bool)
    requires c.counter + 1 < ID_LIMIT
    ensures var id, phase := c.counter + 1, if accepted then Waiting else Done(Rejected);
            var issued := ClientStep(c, Issue(proposal));
            && ClientEnabled(issued, Register(id))
            && var registered := ClientStep(issued, Register(id));
               && ClientEnabled(registered, Submit(id, accepted))
               && ClientStep(registered, Submit(id, accepted))
                  == c.(counter := id, pending := c.pending[id := proposal],
                        calls := c.calls[CallId(c.epoch, id) := Call(proposal, phase)])
  {
  }

  lemma CallRun(log: seq<Entry>, w: World, proposal: Proposal, accepted: bool)
    requires !w.p.stage.Down? && w.c.counter + 1 < ID_LIMIT
    ensures WorldExec(log, w, CallSteps(w.c.counter + 1, proposal, accepted)) == Some(AfterCall(w, proposal, accepted))
  {
    var id := w.c.counter + 1;
    CallEffect(w.c, proposal, accepted);
    var evs, v := WorldNext(log, w, [], w, Client(Issue(proposal)));
    evs, v := WorldNext(log, w, evs, v, Client(Register(id)));
    evs, v := WorldNext(log, w, evs, v, Client(Submit(id, accepted)));
  }

  // ---------- the stale id, from the first start on ----------

  ghost predicate Trace(m: Disk, log: seq<Entry>, origin: seq<Option<CallId>>, evs: seq<NodeEvent>, w: World) {
    WorldReaches(m, log, evs, w) && FaithfulThroughout(log, origin, InitialWorld(m), evs)
  }

  lemma TraceNext(
      m: Disk, log: seq<Entry>, origin: seq<Option<CallId>>, evs: seq<NodeEvent>, w: World, ev: NodeEvent)
    returns (evs': seq<NodeEvent>, w': World)
    requires Trace(m, log, origin, evs, w) && WorldEnabled(log, w, ev) && Faithful(log, origin, w, ev)
    ensures w' == WorldStep(log, w, ev) && evs' == evs + [ev] && Trace(m, log, origin, evs', w')
  {
    evs', w' := WorldNext(log, InitialWorld(m), evs, w, ev);
  }

  /** A trace goes on through any run that applies nothing. */
  lemma {:induction false} TraceRun(
      m: Disk, log: seq<Entry>, origin: seq<Option<CallId>>, evs: seq<NodeEvent>, w: World,
      more: seq<NodeEvent>, v: World)
    requires Trace(m, log, origin, evs, w) && WorldExec(log, w, more) == Some(v)
    requires Handle(ApplyNext(true)) !in more
    ensures Trace(m, log, origin, evs + more, v)
  {
    if |more| == 0 {
      assert evs + more == evs;
    } else {
      var front, ev := more[..|more| - 1], more[|more| - 1];
      var u := WorldExec(log, w, front).value;
      assert ev in more && Handle(ApplyNext(true)) !in front;
      TraceRun(m, log, origin, evs, w, front, u);
      assert Faithful(log, origin, u, ev);
      var evs', v' := TraceNext(m, log, origin, evs + front, u, ev);
      assert evs' == evs + more;
    }
  }

  /** A call up to the wait. */
  lemma TraceCall(
      m: Disk, log: seq<Entry>, origin: seq<Option<CallId>>, evs: seq<NodeEvent>, w: World, proposal: Proposal)
    returns (evs': seq<NodeEvent>, w': World)
    requires Trace(m, log, origin, evs, w) && !w.p.stage.Down? && w.c.counter + 1 < ID_LIMIT
    ensures w' == AfterCall(w, proposal, true) && Trace(m, log, origin, evs', w')
  {
    var call := CallSteps(w.c.counter + 1, proposal, true);
    evs', w' := evs + call, AfterCall(w, proposal, true);
    CallRun(log, w, proposal, true);
    TraceRun(m, log, origin, evs, w, call, w');
  }

  /** Applying an entry for a waiting call, which then returns Ok. */
  lemma TraceAnswer(m: Disk, log: seq<Entry>, origin: seq<Option<CallId>>, evs: seq<NodeEvent>, w: World, id: nat)
    returns (evs': seq<NodeEvent>, w': World)
    requires Trace(m, log, origin, evs, w) && Faithful(log, origin, w, Handle(ApplyNext(true)))
    requires w.p.stage.Applying? && w.p.stage.todo != []
    requires Op(w.p.stage.todo[0]).Some? && Carries(w.p.stage.todo[0]) == Some(id)
    requires InPhase(w.c, id, Waiting) && id in w.c.pending
    ensures Trace(m, log, origin, evs', w')
    ensures w'.c.epoch == w.c.epoch && w'.c.calls == Move(w.c, id, Done(Acked))
    ensures w'.p == ApplyStep(w.p, true).(a := w'.p.a)
  {
    evs', w' := TraceNext(m, log, origin, evs, w, Handle(ApplyNext(true)));
    evs', w' := TraceNext(m, log, origin, evs', w', Client(Receive(id)));
  }

  lemma TraceStart(m: Disk, log: seq<Entry>, origin: seq<Option<CallId>>, start: Start)
    returns (evs: seq<NodeEvent>, w: World)
    requires Loadable(m) && NoLog(m) && Committed(log) && start.io
    ensures Trace(m, log, origin, evs, w)
    ensures w.c == NO_CLIENTS && w.p.stage.Idle? && w.p.stable == map[] && w.p.next == w.p.delivered == w.p.high == 0
  {
    var p := EmptyStart(m, log, start);
    assert [Event.Restart(start)][..0] == [];
    assert Exec(log, Initial(m), []) == Some(Initial(m));
    evs, w := TraceNext(m, log, origin, [], InitialWorld(m), Handle(Event.Restart(start)));
  }

  /** Steps of the pipeline alone. */
  lemma {:induction false} TraceSteps(
      m: Disk, log: seq<Entry>, origin: seq<Option<CallId>>, evs: seq<NodeEvent>, w: World,
      steps: seq<Event>, p: Pipeline)
    returns (evs': seq<NodeEvent>, w': World)
    requires Trace(m, log, origin, evs, w) && Exec(log, w.p, steps) == Some(p)
    requires forall step :: step in steps ==> !step.ApplyNext? && step != Crash
    ensures Trace(m, log, origin, evs', w') && w' == w.(p := p)
  {
    if |steps| == 0 {
      evs', w' := evs, w;
    } else {
      var front, step := steps[..|steps| - 1], steps[|steps| - 1];
      assert step in steps;
      evs', w' := TraceSteps(m, log, origin, evs, w, front, Exec(log, w.p, front).value);
      evs', w' := TraceNext(m, log, origin, evs', w', Handle(step));
    }
  }

  /** A process that is idle and has been told that `e` is persisted; nothing is delivered to it yet. */
  predicate Knows(s: Pipeline, e: Entry) {
    s.stage.Idle? && s.next == s.delivered == 0 && e.index in s.stable && s.stable[e.index] == e
  }

  /** A crashed node that has consumed the entry knows it again after the next start. */
  lemma RestartKnows(m: Disk, e: Entry, evs: seq<NodeEvent>, w: World, start: Start)
    requires WorldReaches(m, [e], evs, w) && w.p.stage.Down? && w.p.high == 1 && start.io
    ensures Knows(Step([e], w.p, Event.Restart(start)), e)
  {
    RunInvariants(m, [e], evs, w);
    assert [e][0] == e;
    RestartDisk([e], w.p, start);
    RestartStable([e], w.p, start, e);
  }

  lemma TraceRestart(m: Disk, e: Entry, origin: seq<Option<CallId>>, evs: seq<NodeEvent>, w: World, start: Start)
    returns (evs': seq<NodeEvent>, w': World)
    requires Trace(m, [e], origin, evs, w) && !w.p.stage.Down? && w.p.high == 1 && start.io
    ensures Trace(m, [e], origin, evs', w')
    ensures w'.c == Reset(w.c) && Knows(w'.p, e)
  {
    var down := WorldStep([e], w, Handle(Crash));
    evs', w' := TraceNext(m, [e], origin, evs, w, Handle(Crash));
    RestartKnows(m, e, evs', down, start);
    evs', w' := TraceNext(m, [e], origin, evs', down, Handle(Event.Restart(start)));
  }

  /** A Ready whose only content is the log's one entry, committed, up to the apply loop. */
  lemma DeliverOne(e: Entry, s: Pipeline) returns (steps: seq<Event>, t: Pipeline)
    requires Knows(s, e)
    ensures Exec([e], s, steps) == Some(t)
    ensures forall step :: step in steps ==> !step.ApplyNext? && step != Crash
    ensures t.stage.Applying? && t.stage.todo == [e] && t.next == 0 && t.high == s.high
  {
    var ready := Ready([], [], [], [e], Some(HardState(e.term, 1, 1)));
    steps, t := PersistCommitted(e, s, ready);
    assert [e][1..1] == [] && [e] + [] == [e];
    steps, t := ExecNext([e], s, steps, t, Advance(LightReady([], [])));
  }

  lemma PersistCommitted(e: Entry, s: Pipeline, ready: Ready) returns (steps: seq<Event>, t: Pipeline)
    requires Knows(s, e) && ready.entries == [] && ready.committed == [e]
    ensures Exec([e], s, steps) == Some(t)
    ensures forall step :: step in steps ==> !step.ApplyNext? && step != Crash
    ensures t.stage == Advancing(ready) && t.delivered == 1 && t.next == 0 && t.high == s.high
  {
    assert [e][0..1] == [e];
    assert s.stable - Indices([]) == s.stable;
    steps, t := ExecNext([e], s, [], s, TakeReady(ready));
    steps, t := ExecNext([e], s, steps, t, FinishAppend);
    steps, t := ExecNext([e], s, steps, t, SaveHardState(true));
  }

  /** The entry a first process makes of its first proposal. */
  function FirstEntry(proposal: Proposal): Entry {
    Entry(1, 1, 0, EncodeProposal(proposal), IdContext(1))
  }

  lemma FirstEntryDecodes(proposal: Proposal)
    requires !Reserved(proposal.key)
    ensures Committed([FirstEntry(proposal)])
    ensures Op(FirstEntry(proposal)) == Some(proposal) && Carries(FirstEntry(proposal)) == Some(1)
  {
    ProposalRoundTrip(proposal);
    IdContextRoundTrip(1);
  }

  lemma AfterFirstCall(w: World, earlier: Proposal)
    requires w.c == NO_CLIENTS
    ensures var c := AfterCall(w, earlier, true).c;
            c.epoch == 0 && c.calls == map[CallId(0, 1) := Call(earlier, Waiting)] && 1 in c.pending
  {
  }

  /** The first process, up to its first call. */
  lemma FirstCall(m: Disk, e: Entry, origin: seq<Option<CallId>>, earlier: Proposal, start: Start)
    returns (evs: seq<NodeEvent>, w: World)
    requires Loadable(m) && NoLog(m) && Committed([e]) && start.io
    ensures Trace(m, [e], origin, evs, w)
    ensures w.c.epoch == 0 && w.c.calls == map[CallId(0, 1) := Call(earlier, Waiting)] && 1 in w.c.pending
    ensures w.p.stage.Idle? && w.p.next == w.p.delivered == w.p.high == 0
  {
    var w0;
    evs, w0 := TraceStart(m, [e], origin, start);
    AfterFirstCall(w0, earlier);
    evs, w := TraceCall(m, [e], origin, evs, w0, earlier);
  }

  /** Appending the entry, and its delivery up to the apply loop. */
  lemma TraceDelivery(m: Disk, e: Entry, origin: seq<Option<CallId>>, evs: seq<NodeEvent>, w: World)
    returns (evs': seq<NodeEvent>, w': World)
    requires Trace(m, [e], origin, evs, w) && Knows(w.p, e)
    ensures Trace(m, [e], origin, evs', w') && w'.c == w.c
    ensures w'.p.stage.Applying? && w'.p.stage.todo == [e] && w'.p.next == 0 && w'.p.high == w.p.high
  {
    var steps, p := DeliverOne(e, w.p);
    evs', w' := TraceSteps(m, [e], origin, evs, w, steps, p);
  }

  lemma TraceAppend(m: Disk, e: Entry, origin: seq<Option<CallId>>, evs: seq<NodeEvent>, w: World)
    returns (evs': seq<NodeEvent>, w': World)
    requires Trace(m, [e], origin, evs, w) && e.index == 1
    requires w.p.stage.Idle? && w.p.next == w.p.delivered == w.p.high == 0
    ensures Trace(m, [e], origin, evs', w') && w'.c == w.c && Knows(w'.p, e) && w'.p.high == 0
  {
    var steps, p := AppendOne([e], w.p, e, true);
    evs', w' := TraceSteps(m, [e], origin, evs, w, steps, p);
  }

  lemma FirstProcess(m: Disk, earlier: Proposal, start: Start) returns (evs: seq<NodeEvent>, w: World)
    requires Loadable(m) && NoLog(m) && start.io && !Reserved(earlier.key)
    ensures Trace(m, [FirstEntry(earlier)], [Some(CallId(0, 1))], evs, w)
    ensures w.c.epoch == 0 && w.c.calls == map[CallId(0, 1) := Call(earlier, Done(Acked))]
    ensures !w.p.stage.Down? && w.p.high == 1
  {
    var e, origin := FirstEntry(earlier), [Some(CallId(0, 1))];
    FirstEntryDecodes(earlier);
    evs, w := FirstCall(m, e, origin, earlier, start);
    evs, w := TraceAppend(m, e, origin, evs, w);
    evs, w := TraceDelivery(m, e, origin, evs, w);
    evs, w := TraceAnswer(m, [e], origin, evs, w, 1);
  }

  lemma AfterReset(c: Clients, earlier: Proposal)
    requires c.epoch == 0 && c.calls == map[CallId(0, 1) := Call(earlier, Done(Acked))]
    ensures Reset(c).epoch == 1 && Reset(c).counter == 0 && Reset(c).calls == c.calls
  {
  }

  lemma AfterSecondCall(w: World, earlier: Proposal, proposal: Proposal)
    requires w.c.epoch == 1 && w.c.counter == 0 && w.c.calls == map[CallId(0, 1) := Call(earlier, Done(Acked))]
    ensures var c := AfterCall(w, proposal, true).c;
            && c.epoch == 1 && 1 in c.pending
            && c.calls == map[CallId(0, 1) := Call(earlier, Done(Acked)), CallId(1, 1) := Call(proposal, Waiting)]
  {
  }

  lemma AfterSecondAnswer(c: Clients, earlier: Proposal, proposal: Proposal)
    requires c.epoch == 1
    requires c.calls == map[CallId(0, 1) := Call(earlier, Done(Acked)), CallId(1, 1) := Call(proposal, Waiting)]
    ensures InPhase(c, 1, Waiting)
    ensures Move(c, 1, Done(Acked))
            == map[CallId(0, 1) := Call(earlier, Done(Acked)), CallId(1, 1) := Call(proposal, Done(Acked))]
  {
  }

  /** The second process, up to its first call. */
  lemma SecondCall(
      m: Disk, e: Entry, origin: seq<Option<CallId>>, earlier: Proposal, proposal: Proposal,
      evs: seq<NodeEvent>, w: World, again: Start)
    returns (evs': seq<NodeEvent>, w': World)
    requires Trace(m, [e], origin, evs, w) && again.io && !w.p.stage.Down? && w.p.high == 1
    requires w.c.epoch == 0 && w.c.calls == map[CallId(0, 1) := Call(earlier, Done(Acked))]
    ensures Trace(m, [e], origin, evs', w') && Knows(w'.p, e)
    ensures w'.c.epoch == 1 && 1 in w'.c.pending
    ensures w'.c.calls == map[CallId(0, 1) := Call(earlier, Done(Acked)), CallId(1, 1) := Call(proposal, Waiting)]
  {
    var w1;
    evs', w1 := TraceRestart(m, e, origin, evs, w, again);
    AfterReset(w.c, earlier);
    AfterSecondCall(w1, earlier, proposal);
    evs', w' := TraceCall(m, [e], origin, evs', w1, proposal);
  }

  /** The second process: restart, new call, redelivery, answer. */
  lemma SecondProcess(m: Disk, earlier: Proposal, proposal: Proposal, evs: seq<NodeEvent>, w: World, again: Start)
    returns (evs': seq<NodeEvent>, w': World)
    requires Trace(m, [FirstEntry(earlier)], [Some(CallId(0, 1))], evs, w) && again.io && !Reserved(earlier.key)
    requires w.c.epoch == 0 && w.c.calls == map[CallId(0, 1) := Call(earlier, Done(Acked))]
    requires !w.p.stage.Down? && w.p.high == 1
    ensures Trace(m, [FirstEntry(earlier)], [Some(CallId(0, 1))], evs', w')
    ensures w'.c.calls == map[CallId(0, 1) := Call(earlier, Done(Acked)), CallId(1, 1) := Call(proposal, Done(Acked))]
  {
    var e, origin := FirstEntry(earlier), [Some(CallId(0, 1))];
    FirstEntryDecodes(earlier);
    var w1, w2;
    evs', w1 := SecondCall(m, e, origin, earlier, proposal, evs, w, again);
    evs', w2 := TraceDelivery(m, e, origin, evs', w1);
    AfterSecondAnswer(w1.c, earlier, proposal);
    evs', w' := TraceAnswer(m, [e], origin, evs', w2, 1);
  }

  /**
   * A restart is enough to make a wrong reply: ids start again at 1 while the log is delivered again from index 1.
   * From an empty log: a process starts, its call is committed, applied and answered; it crashes; the next process
   * takes a call, which gets id 1 again, and answers it with success when the earlier call's entry is applied again.
   * Both calls have returned Ok, and the second one's proposal is in no committed entry.
   */
  lemma StaleIdAcknowledged(m: Disk, earlier: Proposal, proposal: Proposal, start: Start, again: Start)
    returns (evs: seq<NodeEvent>, w: World)
    requires Loadable(m) && NoLog(m) && start.io && again.io && !Reserved(earlier.key) && earlier != proposal
    ensures var log, origin := [FirstEntry(earlier)], [Some(CallId(0, 1))];
            && Trace(m, log, origin, evs, w)
            && w.c.calls == map[CallId(0, 1) := Call(earlier, Done(Acked)), CallId(1, 1) := Call(proposal, Done(Acked))]
            && (forall e :: e in log ==> Op(e) != Some(proposal))
            && !OwnEntryApplied(log, origin, w, CallId(1, 1))
  {
    FirstEntryDecodes(earlier);
    evs, w := FirstProcess(m, earlier, start);
    evs, w := SecondProcess(m, earlier, proposal, evs, w, again);
  }
}
