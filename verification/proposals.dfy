/**
 * Proposal tracking (`RaftNode::propose`, src/raft/node.rs) as a machine: every lock is taken and dropped
 * separately, so calls interleave with each other and with replies at each of these steps.
 */
module Proposals {
  import opened Wrappers
  import opened Codec

  /** Ids are u64. */
  const ID_LIMIT: nat := 0x1_0000_0000_0000_0000

  datatype Outcome = Acked | ApplyFailed | Rejected | TimedOut | Lost

  /** How far one call of `propose` has got: id taken; registered as pending; handed to raft-rs; returned. */
  datatype Phase = Issued | Registered | Waiting | Done(outcome: Outcome)

  /** Each process counts from 0, so an id names a call only together with the process (the epoch). */
  datatype CallId = CallId(epoch: nat, id: nat)

  datatype Call = Call(proposal: Proposal, phase: Phase)

  /**
   * `counter`, `pending` and `mail` (a reply sent into a call's one-shot channel: whether applying succeeded)
   * are the process' own; `calls` and `left`, the ids that have left `pending`, are history.
   */
  datatype Clients = Clients(
    epoch: nat, counter: nat, pending: map<nat, Proposal>, mail: map<nat, bool>,
    calls: map<CallId, Call>, left: seq<nat>)

  datatype ClientEvent =
    | Issue(proposal: Proposal)
    | Register(id: nat)
    | Submit(id: nat, accepted: bool)
    | Receive(id: nat)
    | TimeOut(id: nat)

  predicate InPhase(c: Clients, id: nat, phase: Phase) {
    CallId(c.epoch, id) in c.calls && c.calls[CallId(c.epoch, id)].phase == phase
  }

  predicate ClientEnabled(c: Clients, ev: ClientEvent) {
    match ev
    case Issue(_) => c.counter + 1 < ID_LIMIT
    case Register(id) => InPhase(c, id, Issued)
    case Submit(id, _) => InPhase(c, id, Registered)
    case Receive(id) => InPhase(c, id, Waiting) && id in c.mail
    case TimeOut(id) => InPhase(c, id, Waiting)
  }

  function Move(c: Clients, id: nat, phase: Phase): map<CallId, Call>
    requires CallId(c.epoch, id) in c.calls
  {
    c.calls[CallId(c.epoch, id) := c.calls[CallId(c.epoch, id)].(phase := phase)]
  }

  function Leave(c: Clients, id: nat): Clients {
    if id in c.pending then c.(pending := c.pending - {id}, left := c.left + [id]) else c
  }

  function ClientStep(c: Clients, ev: ClientEvent): Clients
    requires ClientEnabled(c, ev)
  {
    match ev
    case Issue(proposal) =>
      c.(counter := c.counter + 1, calls := c.calls[CallId(c.epoch, c.counter + 1) := Call(proposal, Issued)])
    case Register(id) =>
      c.(pending := c.pending[id := c.calls[CallId(c.epoch, id)].proposal], calls := Move(c, id, Registered))
    case Submit(id, accepted) => c.(calls := Move(c, id, if accepted then Waiting else Done(Rejected)))
    case Receive(id) => c.(calls := Move(c, id, Done(if c.mail[id] then Acked else ApplyFailed)))
    case TimeOut(id) => Leave(c, id).(calls := Move(c, id, Done(TimedOut)))
  }

  /** `handle_ready` has applied an entry carrying `id`: take the waiter out, if there is one, and tell it. */
  function TakeReply(c: Clients, id: nat, ok: bool): Clients {
    if id in c.pending then Leave(c, id).(mail := c.mail[id := ok]) else c
  }

  /** A crash: the process' memory is gone, and so are the calls still running in it. */
  function Reset(c: Clients): Clients {
    Clients(c.epoch + 1, 0, map[], map[],
            map cid | cid in c.calls ::
              if c.calls[cid].phase.Done? then c.calls[cid] else c.calls[cid].(phase := Done(Lost)),
            [])
  }

  /** The steps that touch proposals, replies and crashes included. */
  datatype ProposalEvent = Caller(ev: ClientEvent) | Answered(id: nat, ok: bool) | Crashed

  predicate Allowed(c: Clients, ev: ProposalEvent) {
    ev.Caller? ==> ClientEnabled(c, ev.ev)
  }

  function Next(c: Clients, ev: ProposalEvent): Clients
    requires Allowed(c, ev)
  {
    match ev
    case Caller(e) => ClientStep(c, e)
    case Answered(id, ok) => TakeReply(c, id, ok)
    case Crashed => Reset(c)
  }

  function ClientRun(c: Clients, evs: seq<ProposalEvent>): Option<Clients> {
    if |evs| == 0 then Some(c) else
      match ClientRun(c, evs[..|evs| - 1])
      case None => None
      case Some(d) => if Allowed(d, evs[|evs| - 1]) then Some(Next(d, evs[|evs| - 1])) else None
  }

  const NO_CLIENTS: Clients := Clients(0, 0, map[], map[], map[], [])

  // ---------- conservation ----------

  /** Calls of earlier processes have returned; the current one's are numbered 1..=counter. */
  predicate CallOk(c: Clients, cid: CallId) {
    && (cid in c.calls ==> cid.epoch <= c.epoch)
    && (cid in c.calls && cid.epoch < c.epoch ==> c.calls[cid].phase.Done?)
    && (cid.epoch == c.epoch ==> (cid in c.calls <==> 1 <= cid.id <= c.counter))
  }

  /** The id has been put into the pending map. */
  predicate Entered(c: Clients, id: nat) {
    CallId(c.epoch, id) in c.calls && c.calls[CallId(c.epoch, id)].phase != Issued
  }

  predicate PendingOk(c: Clients, id: nat) {
    && (id in c.pending <==> Entered(c, id) && id !in c.left)
    && (id in c.pending ==> c.pending[id] == c.calls[CallId(c.epoch, id)].proposal)
    && (id in c.left ==> Entered(c, id))
    && (id in c.left <==> id in c.mail || InPhase(c, id, Done(TimedOut)))
  }

  predicate NoRepeats(ids: seq<nat>) {
    forall i, j :: 0 <= i < j < |ids| ==> ids[i] != ids[j]
  }

  ghost predicate ClientsInv(c: Clients) {
    && c.counter < ID_LIMIT
    && NoRepeats(c.left)
    && (forall cid :: CallOk(c, cid))
    && (forall id :: PendingOk(c, id))
  }

  lemma StepKeepsCall(c: Clients, ev: ProposalEvent, cid: CallId)
    requires ClientsInv(c) && Allowed(c, ev)
    ensures CallOk(Next(c, ev), cid)
  {
    assert CallOk(c, cid);
    if ev.Caller? && !ev.ev.Issue? { assert CallOk(c, CallId(c.epoch, ev.ev.id)); }
  }

  lemma LeaveOnce(c: Clients, id: nat)
    requires ClientsInv(c) && id in c.pending
    ensures NoRepeats(Leave(c, id).left)
  {
    assert PendingOk(c, id);
  }

  lemma StepKeepsPending(c: Clients, ev: ProposalEvent, id: nat)
    requires ClientsInv(c) && Allowed(c, ev)
    ensures PendingOk(Next(c, ev), id)
  {
    assert PendingOk(c, id);
    match ev
    case Caller(e) =>
      if e.Issue? {
        assert CallOk(c, CallId(c.epoch, c.counter + 1));
        assert PendingOk(c, c.counter + 1);
      } else {
        assert PendingOk(c, e.id);
        if e.TimeOut? { assert forall x :: x in c.left + [e.id] <==> x in c.left || x == e.id; }
      }
    case Answered(x, ok) => assert forall y :: y in c.left + [x] <==> y in c.left || y == x;
    case Crashed => assert CallOk(c, CallId(c.epoch + 1, id));
  }

  lemma StepKeepsClients(c: Clients, ev: ProposalEvent)
    requires ClientsInv(c) && Allowed(c, ev)
    ensures ClientsInv(Next(c, ev))
  {
    forall cid ensures CallOk(Next(c, ev), cid) { StepKeepsCall(c, ev, cid); }
    forall id ensures PendingOk(Next(c, ev), id) { StepKeepsPending(c, ev, id); }
    match ev
    case Caller(TimeOut(id)) => if id in c.pending { LeaveOnce(c, id); }
    case Answered(id, ok) => if id in c.pending { LeaveOnce(c, id); }
    case _ =>
  }

  lemma {:induction false} RunsKeepClients(evs: seq<ProposalEvent>)
    requires ClientRun(NO_CLIENTS, evs).Some?
    ensures ClientsInv(ClientRun(NO_CLIENTS, evs).value)
  {
    if |evs| > 0 {
      RunsKeepClients(evs[..|evs| - 1]);
      StepKeepsClients(ClientRun(NO_CLIENTS, evs[..|evs| - 1]).value, evs[|evs| - 1]);
    }
  }

  /**
   * Proposal conservation, over every interleaving of calls, replies, timeouts and crashes. The ids issued by a
   * process are 1..=counter and the next one is new. An id enters the pending map once and leaves at most once.
   * The map holds precisely the registered ids that have been neither replied to nor timed out, orphans of a
   * rejected call among them, each with its own proposal; and no waiting call is ever forgotten.
   */
  lemma ProposalConservation(evs: seq<ProposalEvent>, c: Clients, id: nat)
    requires ClientRun(NO_CLIENTS, evs) == Some(c)
    ensures CallId(c.epoch, id) in c.calls <==> 1 <= id <= c.counter
    ensures CallId(c.epoch, c.counter + 1) !in c.calls
    ensures NoRepeats(c.left)
    ensures id in c.left ==> Entered(c, id) && id !in c.pending
    ensures id in c.pending <==> Entered(c, id) && id !in c.mail && !InPhase(c, id, Done(TimedOut))
    ensures id in c.pending ==> c.pending[id] == c.calls[CallId(c.epoch, id)].proposal
    ensures InPhase(c, id, Waiting) ==> id in c.pending || id in c.mail
    ensures forall cid :: cid in c.calls && cid.epoch < c.epoch ==> c.calls[cid].phase.Done?
  {
    RunsKeepClients(evs);
    assert CallOk(c, CallId(c.epoch, id)) && CallOk(c, CallId(c.epoch, c.counter + 1));
    assert PendingOk(c, id);
    forall cid | cid in c.calls && cid.epoch < c.epoch ensures c.calls[cid].phase.Done? { assert CallOk(c, cid); }
  }

  /** Each caller gets one outcome: once a call has returned, nothing that happens later changes what it returned. */
  lemma {:induction false} OutcomeIsFinal(
      evs: seq<ProposalEvent>, more: seq<ProposalEvent>, c: Clients, d: Clients, cid: CallId)
    requires ClientRun(NO_CLIENTS, evs) == Some(c) && ClientRun(c, more) == Some(d)
    requires cid in c.calls && c.calls[cid].phase.Done?
    ensures cid in d.calls && d.calls[cid] == c.calls[cid]
  {
    if |more| > 0 {
      var e := ClientRun(c, more[..|more| - 1]).value;
      OutcomeIsFinal(evs, more[..|more| - 1], c, e, cid);
      RunConcat(NO_CLIENTS, evs, more[..|more| - 1]);
      RunsKeepClients(evs + more[..|more| - 1]);
      assert CallOk(e, cid) && CallOk(e, CallId(e.epoch, e.counter + 1));
    }
  }

  lemma {:induction false} RunConcat(c: Clients, a: seq<ProposalEvent>, b: seq<ProposalEvent>)
    requires ClientRun(c, a).Some? && ClientRun(ClientRun(c, a).value, b).Some?
    ensures ClientRun(c, a + b) == ClientRun(ClientRun(c, a).value, b)
  {
    if |b| == 0 {
      assert a + b == a;
    } else {
      RunConcat(c, a, b[..|b| - 1]);
      assert (a + b)[..|a + b| - 1] == a + b[..|b| - 1];
    }
  }
}
