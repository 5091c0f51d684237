/**
 * The persist / advance / apply pipeline of `handle_ready` (src/raft/node.rs) as a machine of small steps, with
 * crashes and restarts between any two of them. raft-rs is the environment: `Enabled` is the contract it keeps.
 */
module ReadyPipeline {
  import opened Wrappers
  import opened Bytes
  import opened OrderedStore
  import opened Codec
  import opened DurableLog
  import opened SharedStore
  import opened RaftStorage

  // ---------- applying a committed log ----------

  /** The proposal in an entry; empty and undecodable entries carry none and are skipped. */
  function Op(e: Entry): Option<Proposal> {
    if e.data == [] then None else DecodeProposal(e.data)
  }

  function ApplyEntry(m: Disk, e: Entry): Disk {
    match Op(e) case None => m case Some(p) => ApplyProposal(m, p)
  }

  /** The reference meaning of a log: its proposals applied in order. */
  function Replay(m: Disk, es: seq<Entry>): Disk {
    if |es| == 0 then m else ApplyEntry(Replay(m, es[..|es| - 1]), es[|es| - 1])
  }

  predicate Touches(e: Entry, k: Key) {
    Op(e).Some? && Op(e).value.key == k
  }

  predicate Touched(es: seq<Entry>, k: Key) {
    exists i :: 0 <= i < |es| && Touches(es[i], k)
  }

  /** An entry is skipped exactly if its data is empty, as a new leader's is, or does not decode. */
  lemma SkippedExactly(m: Disk, e: Entry)
    ensures Op(e).None? <==> e.data == [] || DecodeProposal(e.data).None?
    ensures e.data == [] || DecodeProposal(e.data).None? ==> ApplyEntry(m, e) == m
    ensures e.data != [] && DecodeProposal(e.data).Some? ==>
              ApplyEntry(m, e) == ApplyProposal(m, DecodeProposal(e.data).value)
  {
  }

  /** The log without its empty and undecodable entries. */
  function Proposing(es: seq<Entry>): seq<Entry> {
    if |es| == 0 then [] else
      var e := es[|es| - 1];
      Proposing(es[..|es| - 1]) + (if e.data != [] && DecodeProposal(e.data).Some? then [e] else [])
  }

  /** Replaying a log is replaying it without them: nodes that skip them see the same store. */
  lemma {:induction false} ReplaySkips(m: Disk, es: seq<Entry>)
    ensures Replay(m, es) == Replay(m, Proposing(es))
  {
    if |es| > 0 {
      var front, last := es[..|es| - 1], es[|es| - 1];
      ReplaySkips(m, front);
      SkippedExactly(Replay(m, front), last);
      if Op(last).Some? {
        assert Proposing(es) == Proposing(front) + [last];
        assert Proposing(es)[..|Proposing(es)| - 1] == Proposing(front);
      } else {
        assert Proposing(es) == Proposing(front) + [] == Proposing(front);
      }
    }
  }

  lemma TouchedLonger(es: seq<Entry>, n: nat, k: Key)
    requires n <= |es| && Touched(es[..n], k)
    ensures Touched(es, k)
  {
    var i :| 0 <= i < n && Touches(es[..n][i], k);
    assert Touches(es[i], k);
  }

  lemma TouchedShorter(es: seq<Entry>, k: Key)
    requires |es| > 0 && Touched(es, k) && !Touches(es[|es| - 1], k)
    ensures Touched(es[..|es| - 1], k)
  {
    var i :| 0 <= i < |es| && Touches(es[i], k);
    assert Touches(es[..|es| - 1][i], k);
  }

  lemma TouchedSnoc(es: seq<Entry>, k: Key)
    requires |es| > 0
    ensures Touched(es, k) <==> Touched(es[..|es| - 1], k) || Touches(es[|es| - 1], k)
  {
    var n := |es| - 1;
    if Touched(es[..n], k) { TouchedLonger(es, n, k); }
    if Touched(es, k) && !Touches(es[n], k) { TouchedShorter(es, k); }
  }

  lemma {:induction false} ReplayUntouched(m: Disk, es: seq<Entry>, k: Key)
    requires !Touched(es, k)
    ensures Lookup(Replay(m, es), k) == Lookup(m, k)
  {
    if |es| > 0 {
      TouchedSnoc(es, k);
      ReplayUntouched(m, es[..|es| - 1], k);
    }
  }

  lemma ApplyEntryAt(m: Disk, m': Disk, e: Entry, k: Key)
    ensures !Touches(e, k) ==> Lookup(ApplyEntry(m, e), k) == Lookup(m, k)
    ensures Touches(e, k) ==> Lookup(ApplyEntry(m, e), k) == Lookup(ApplyEntry(m', e), k)
  {
  }

  /** Last write wins: what a replayed log leaves under a key it touches does not depend on where it started. */
  lemma {:induction false} ReplayTouched(m: Disk, m': Disk, es: seq<Entry>, k: Key)
    requires Touched(es, k)
    ensures Lookup(Replay(m, es), k) == Lookup(Replay(m', es), k)
  {
    var front, last := es[..|es| - 1], es[|es| - 1];
    var a, b := Replay(m, front), Replay(m', front);
    TouchedSnoc(es, k);
    if !Touches(last, k) { ReplayTouched(m, m', front, k); }
    ApplyEntryAt(a, b, last, k);
    ApplyEntryAt(b, a, last, k);
  }

  // ---------- the machine ----------

  datatype Ready = Ready(
    messages: seq<RaftMessage>, persisted: seq<RaftMessage>,
    entries: seq<Entry>, committed: seq<Entry>, hs: Option<HardState>)

  datatype LightReady = LightReady(messages: seq<RaftMessage>, committed: seq<Entry>)

  /** Where the one call of `handle_ready` is. */
  datatype Stage =
    | Down
    | Idle
    | Persisting(ready: Ready, puts: nat)
    | Saving(ready: Ready)
    | Advancing(ready: Ready)
    | Applying(ready: Ready, light: LightReady, todo: seq<Entry>)

  /** A completed call: the number of its Ready, what it returned, and the disk when it did. */
  datatype Answer = Answer(number: nat, ready: Ready, messages: seq<RaftMessage>, disk: Disk)

  /**
   * `stable` and `delivered` are raft-rs' own: the entries it has been told are persisted, and the last
   * committed index it has handed out since the process started. The rest after `stage` is history:
   * `next` committed entries consumed since the process started, `high` the most ever consumed, `skipped` the
   * positions this process moved past without applying them, because a write was refused, and the Readies taken,
   * advanced and failed.
   */
  datatype Pipeline = Pipeline(
    a: Adapter, stage: Stage, stable: map<nat, Entry>, delivered: nat,
    next: nat, high: nat, skipped: set<nat>,
    taken: nat, advanced: set<nat>, failed: set<nat>, answers: seq<Answer>)

  datatype Event =
    | TakeReady(ready: Ready)
    | PutLogEntry(io: bool)
    | FinishAppend
    | SaveHardState(io: bool)
    | Advance(light: LightReady)
    | ApplyNext(io: bool)
    | Release
    | Crash
    | Restart(start: Start)

  function Indices(es: seq<Entry>): set<nat> {
    set e | e in es :: e.index
  }

  function Indexed(es: seq<Entry>): map<nat, Entry> {
    map i | i in Indices(es) && LastAt(es, i).Some? :: LastAt(es, i).value
  }

  function Max(x: nat, y: nat): nat {
    if x < y then y else x
  }

  /** `committed` is the next stretch of the committed log, and raft-rs knows each of its entries to be persisted. */
  ghost predicate NextCommitted(log: seq<Entry>, from: nat, stable: map<nat, Entry>, committed: seq<Entry>) {
    && from + |committed| <= |log|
    && committed == log[from..from + |committed|]
    && forall e :: e in committed ==> e.index in stable && stable[e.index] == e
  }

  /** At an index already handed out as committed, only the committed entry is ever handed out again. */
  ghost predicate EntriesAgree(log: seq<Entry>, es: seq<Entry>, upTo: nat) {
    forall e :: e in es && 1 <= e.index <= upTo && e.index <= |log| ==> e == log[e.index - 1]
  }

  /** What must hold for an event to happen: the control flow of `handle_ready` and the contract of raft-rs. */
  ghost predicate Enabled(log: seq<Entry>, s: Pipeline, ev: Event) {
    match ev
    case TakeReady(ready) =>
      && s.stage.Idle?
      && NextCommitted(log, s.delivered, s.stable - Indices(ready.entries), ready.committed)
      && EntriesAgree(log, ready.entries, Max(s.high, s.delivered + |ready.committed|))
    case PutLogEntry(_) => s.stage.Persisting? && s.stage.puts < |s.stage.ready.entries|
    case FinishAppend => s.stage.Persisting? && s.stage.puts == |s.stage.ready.entries|
    case SaveHardState(_) => s.stage.Saving?
    case Advance(light) =>
      && s.stage.Advancing?
      && NextCommitted(log, s.delivered, s.stable + Indexed(s.stage.ready.entries), light.committed)
    case ApplyNext(_) => s.stage.Applying? && s.stage.todo != []
    case Release => s.stage.Applying? && s.stage.todo == []
    case Crash => !s.stage.Down?
    case Restart(_) => s.stage.Down?
  }

  predicate Between(from: nat, to: nat, j: nat) {
    from <= j < to
  }

  function Positions(from: nat, to: nat): set<nat> {
    set j: nat | 0 <= j < to && Between(from, to, j)
  }

  /** An early return with an error: the Ready is dropped, with the committed entries in it. */
  function Abort(s: Pipeline): Pipeline {
    s.(stage := Idle, next := s.delivered, skipped := s.skipped + Positions(s.next, s.delivered),
       failed := s.failed + {s.taken})
  }

  function ApplyStep(s: Pipeline, io: bool): Pipeline
    requires s.stage.Applying? && s.stage.todo != []
  {
    var e := s.stage.todo[0];
    s.(a := s.a.(disk := if io then ApplyEntry(s.a.disk, e) else s.a.disk),
       skipped := if io || Op(e).None? then s.skipped else s.skipped + {s.next},
       next := s.next + 1, high := Max(s.high, s.next + 1),
       stage := s.stage.(todo := s.stage.todo[1..]))
  }

  ghost function Step(log: seq<Entry>, s: Pipeline, ev: Event): Pipeline
    requires Enabled(log, s, ev)
  {
    match ev
    case TakeReady(ready) =>
      s.(stage := Persisting(ready, 0), stable := s.stable - Indices(ready.entries),
         delivered := s.delivered + |ready.committed|, taken := s.taken + 1)
    case PutLogEntry(io) =>
      var Persisting(ready, puts) := s.stage;
      if io then s.(a := s.a.(disk := PutEntry(s.a.disk, ready.entries[puts])), stage := Persisting(ready, puts + 1))
      else Abort(s)
    case FinishAppend =>
      s.(a := s.a.(entries := s.a.entries + s.stage.ready.entries), stage := Saving(s.stage.ready))
    case SaveHardState(io) =>
      var ready := s.stage.ready;
      if ready.hs == None then s.(stage := Advancing(ready))
      else if io then
        s.(a := s.a.(disk := PutHardState(s.a.disk, ready.hs.value), hard := ready.hs.value), stage := Advancing(ready))
      else Abort(s)
    case Advance(light) =>
      var ready := s.stage.ready;
      s.(stage := Applying(ready, light, ready.committed + light.committed),
         stable := s.stable + Indexed(ready.entries),
         delivered := s.delivered + |light.committed|, advanced := s.advanced + {s.taken})
    case ApplyNext(io) => ApplyStep(s, io)
    case Release =>
      var Applying(ready, light, _) := s.stage;
      s.(stage := Idle,
         answers := s.answers + [Answer(s.taken, ready, ready.messages + ready.persisted + light.messages, s.a.disk)])
    case Crash => s.(stage := Down, stable := map[], delivered := 0, next := 0, skipped := {})
    case Restart(start) =>
      match Open(s.a.disk, Some(start.voters), start.io)
      case None => s
      case Some(b) => s.(a := b, stage := Idle, stable := Indexed(b.entries))
  }

  ghost function Exec(log: seq<Entry>, s: Pipeline, evs: seq<Event>): Option<Pipeline> {
    if |evs| == 0 then Some(s) else
      match Exec(log, s, evs[..|evs| - 1])
      case None => None
      case Some(t) => if Enabled(log, t, evs[|evs| - 1]) then Some(Step(log, t, evs[|evs| - 1])) else None
  }

  /** The machine before its process is started for the first time, on a store with any loadable contents. */
  function Initial(m: Disk): Pipeline {
    Pipeline(Adapter(m, [], DEFAULT_HARD_STATE, DEFAULT_CONF_STATE), Down, map[], 0, 0, 0, {}, 0, {}, {}, [])
  }

  ghost predicate Loadable(m: Disk) {
    Canonical(m) && LoadHardState(m).Some? && LoadConfState(m).Some?
  }

  /** A store without Raft records is one. */
  lemma FreshLoadable(m: Disk)
    requires NoLog(m) && HARD_STATE_KEY !in m && CONF_STATE_KEY !in m
    ensures Loadable(m)
  {
  }

  /** A committed log: numbered from 1, and its proposals leave the reserved keys alone. */
  ghost predicate Committed(log: seq<Entry>) {
    && Consecutive(log, 1)
    && forall e :: e in log && Op(e).Some? ==> !Reserved(Op(e).value.key)
  }

  // ---------- what every step keeps ----------

  ghost predicate EntriesDurable(m: Disk, es: seq<Entry>) {
    forall i :: LastAt(es, i).Some? ==> At(m, i) == LastAt(es, i)
  }

  ghost predicate HardStateDurable(m: Disk, hs: Option<HardState>) {
    hs.Some? ==> LoadHardState(m) == hs
  }

  /** What raft-rs takes for persisted is on disk, and so is every committed entry it has ever handed out. */
  ghost predicate DiskInv(log: seq<Entry>, s: Pipeline) {
    && Loadable(s.a.disk)
    && (forall i :: i in s.stable ==> At(s.a.disk, i) == Some(s.stable[i]))
    && Max(s.high, s.delivered) <= |log|
    && (forall j :: 0 <= j < Max(s.high, s.delivered) ==> At(s.a.disk, j + 1) == Some(log[j]))
  }

  ghost predicate StageInv(log: seq<Entry>, s: Pipeline) {
    match s.stage
    case Down => s.delivered == 0 && s.stable == map[]
    case Idle => true
    case Persisting(ready, puts) =>
      && puts <= |ready.entries|
      && EntriesDurable(s.a.disk, ready.entries[..puts])
      && EntriesAgree(log, ready.entries, Max(s.high, s.delivered))
      && (forall e :: e in ready.entries ==> e.index !in s.stable)
    case Saving(ready) => EntriesDurable(s.a.disk, ready.entries)
    case Advancing(ready) => EntriesDurable(s.a.disk, ready.entries) && HardStateDurable(s.a.disk, ready.hs)
    case Applying(ready, light, todo) => EntriesDurable(s.a.disk, ready.entries) && HardStateDurable(s.a.disk, ready.hs)
  }

  /** The committed entries in flight are exactly the ones handed out and not yet consumed. */
  ghost predicate DeliveryInv(log: seq<Entry>, s: Pipeline) {
    && s.next <= s.delivered <= |log|
    && match s.stage
       case Down => s.next == s.delivered == 0 && s.skipped == {}
       case Idle => s.next == s.delivered
       case Persisting(ready, _) => ready.committed == log[s.next..s.delivered]
       case Saving(ready) => ready.committed == log[s.next..s.delivered]
       case Advancing(ready) => ready.committed == log[s.next..s.delivered]
       case Applying(_, _, todo) => todo == log[s.next..s.delivered]
  }

  /** User keys that the first `n` committed entries do not touch are as in `m`. */
  ghost predicate UntouchedAsIn(m: Disk, log: seq<Entry>, n: nat, disk: Disk)
    requires n <= |log|
  {
    forall k :: !Reserved(k) && !Touched(log[..n], k) ==> Lookup(disk, k) == Lookup(m, k)
  }

  /** What the proposal of `e` leaves under its key. */
  function Written(e: Entry): Option<Value>
    requires Op(e).Some?
  {
    if Op(e).value.Put? then Some(Op(e).value.value) else None
  }

  /** The store already holds what `e` would write: applying it changes nothing. */
  predicate Holds(m: Disk, e: Entry) {
    Op(e).Some? ==> Lookup(m, Op(e).value.key) == Written(e)
  }

  /** Among the first `n` entries, the one at `j` is the last that writes its key. */
  predicate LastOfItsKey(log: seq<Entry>, n: nat, j: nat)
    requires j < n <= |log|
  {
    Op(log[j]).Some? && forall i :: j < i < n ==> !Touches(log[i], Op(log[j]).value.key)
  }

  /** Every key holds what its last writer among the first `n` entries wrote, if that one was not skipped. */
  ghost predicate HeldBut(log: seq<Entry>, n: nat, skipped: set<nat>, disk: Disk)
    requires n <= |log|
  {
    forall j :: 0 <= j < n && j !in skipped && LastOfItsKey(log, n, j) ==> Holds(disk, log[j])
  }

  /** The store has drifted from `m` only where the longest prefix ever consumed reaches. */
  ghost predicate ReplayInv(m: Disk, log: seq<Entry>, s: Pipeline) {
    && Max(s.high, s.next) <= |log|
    && UntouchedAsIn(m, log, s.high, s.a.disk)
    && HeldBut(log, s.next, s.skipped, s.a.disk)
  }

  predicate Busy(s: Pipeline) {
    !s.stage.Down? && !s.stage.Idle?
  }

  /** A Ready is advanced or has failed, never both; the current one has not failed, and is advanced before applying. */
  ghost predicate HistoryInv(s: Pipeline) {
    && s.advanced !! s.failed
    && (forall n :: n in s.advanced + s.failed ==> n <= s.taken)
    && (Busy(s) ==> s.taken !in s.failed && (s.taken in s.advanced <==> s.stage.Applying?))
  }

  ghost predicate AnswerOk(r: Answer) {
    && EntriesDurable(r.disk, r.ready.entries)
    && HardStateDurable(r.disk, r.ready.hs)
    && r.ready.messages + r.ready.persisted <= r.messages
  }

  ghost predicate AnswersInv(s: Pipeline) {
    && (forall i :: 0 <= i < |s.answers| ==>
          AnswerOk(s.answers[i]) && s.answers[i].number in s.advanced && (Busy(s) ==> s.answers[i].number < s.taken))
    && (forall i, j :: 0 <= i < j < |s.answers| ==> s.answers[i].number < s.answers[j].number)
  }

  ghost predicate Inv(m: Disk, log: seq<Entry>, s: Pipeline) {
    DiskInv(log, s) && StageInv(log, s) && DeliveryInv(log, s) && ReplayInv(m, log, s) && HistoryInv(s) && AnswersInv(s)
  }

  lemma InitialInv(m: Disk, log: seq<Entry>)
    requires Loadable(m)
    ensures Inv(m, log, Initial(m))
  {
  }

  // -- the log records

  lemma {:induction false} LastAtIndices(es: seq<Entry>, i: nat)
    ensures LastAt(es, i).Some? <==> i in Indices(es)
    ensures LastAt(es, i).Some? ==> LastAt(es, i).value in es && LastAt(es, i).value.index == i
  {
    LastAtIsLast(es, i);
  }

  lemma LastAtSnoc(es: seq<Entry>, n: nat, i: nat)
    requires n < |es|
    ensures LastAt(es[..n + 1], i) == if es[n].index == i then Some(es[n]) else LastAt(es[..n], i)
  {
    assert es[..n + 1][..n] == es[..n];
  }

  lemma LoadableAfterPutEntry(m: Disk, e: Entry)
    requires Loadable(m)
    ensures Loadable(PutEntry(m, e))
  {
    PutEntryAt(m, e);
    LogKeyReserved(e.index);
  }

  lemma TakeReadyDisk(log: seq<Entry>, s: Pipeline, ready: Ready)
    requires Committed(log) && DiskInv(log, s) && StageInv(log, s) && DeliveryInv(log, s)
    requires Enabled(log, s, TakeReady(ready))
    ensures DiskInv(log, Step(log, s, TakeReady(ready))) && StageInv(log, Step(log, s, TakeReady(ready)))
    ensures DeliveryInv(log, Step(log, s, TakeReady(ready)))
  {
    var t := Step(log, s, TakeReady(ready));
    DeliveredIsDurable(log, s.delivered, s.stable - Indices(ready.entries), ready.committed, s.a.disk);
    assert ready.entries[..0] == [];
    forall e | e in ready.entries ensures e.index !in t.stable {
      assert e.index in Indices(ready.entries);
    }
  }

  lemma SliceElement<T>(log: seq<T>, from: nat, to: nat, j: nat)
    requires from <= j < to <= |log|
    ensures log[j] in log[from..to]
  {
    assert log[from..to][j - from] == log[j];
  }

  /** Newly delivered entries are durable because raft-rs has been told only of durable ones. */
  lemma DeliveredIsDurable(log: seq<Entry>, from: nat, stable: map<nat, Entry>, committed: seq<Entry>, m: Disk)
    requires Consecutive(log, 1) && NextCommitted(log, from, stable, committed)
    requires forall i :: i in stable ==> At(m, i) == Some(stable[i])
    ensures forall j :: from <= j < from + |committed| ==> At(m, j + 1) == Some(log[j])
  {
    forall j | from <= j < from + |committed| ensures At(m, j + 1) == Some(log[j]) {
      SliceElement(log, from, from + |committed|, j);
      assert log[j].index == j + 1;
      assert stable[j + 1] == log[j];
    }
  }

  lemma PutLogEntryDisk(log: seq<Entry>, s: Pipeline)
    requires Committed(log) && DiskInv(log, s) && StageInv(log, s)
    requires Enabled(log, s, PutLogEntry(true))
    ensures DiskInv(log, Step(log, s, PutLogEntry(true))) && StageInv(log, Step(log, s, PutLogEntry(true)))
  {
    var ready, puts := s.stage.ready, s.stage.puts;
    var e := ready.entries[puts];
    PutEntryAt(s.a.disk, e);
    LoadableAfterPutEntry(s.a.disk, e);
    assert e in ready.entries;
    var m := PutEntry(s.a.disk, e);
    forall i | LastAt(ready.entries[..puts + 1], i).Some?
      ensures At(m, i) == LastAt(ready.entries[..puts + 1], i)
    {
      LastAtSnoc(ready.entries, puts, i);
    }
    forall j | 0 <= j < Max(s.high, s.delivered) ensures At(m, j + 1) == Some(log[j]) {
      if e.index == j + 1 { assert e == log[j]; }
    }
  }

  lemma StableGrows(m: Disk, stable: map<nat, Entry>, es: seq<Entry>)
    requires forall i :: i in stable ==> At(m, i) == Some(stable[i])
    requires EntriesDurable(m, es)
    ensures forall i :: i in stable + Indexed(es) ==> At(m, i) == Some((stable + Indexed(es))[i])
  {
    forall i | i in stable + Indexed(es) ensures At(m, i) == Some((stable + Indexed(es))[i]) {
      LastAtIndices(es, i);
    }
  }

  lemma AdvanceDisk(log: seq<Entry>, s: Pipeline, light: LightReady)
    requires Committed(log) && DiskInv(log, s) && StageInv(log, s)
    requires Enabled(log, s, Advance(light))
    ensures DiskInv(log, Step(log, s, Advance(light))) && StageInv(log, Step(log, s, Advance(light)))
  {
    var es := s.stage.ready.entries;
    StableGrows(s.a.disk, s.stable, es);
    DeliveredIsDurable(log, s.delivered, s.stable + Indexed(es), light.committed, s.a.disk);
  }

  lemma AdvanceDelivery(log: seq<Entry>, s: Pipeline, light: LightReady)
    requires DeliveryInv(log, s) && Enabled(log, s, Advance(light))
    ensures DeliveryInv(log, Step(log, s, Advance(light)))
  {
    var to := s.delivered + |light.committed|;
    assert log[s.next..s.delivered] + log[s.delivered..to] == log[s.next..to];
  }

  lemma ApplyKeepsRecords(m: Disk, e: Entry)
    requires Op(e).Some? ==> !Reserved(Op(e).value.key)
    ensures Loadable(m) ==> Loadable(ApplyEntry(m, e))
    ensures forall i :: At(ApplyEntry(m, e), i) == At(m, i)
    ensures LoadHardState(ApplyEntry(m, e)) == LoadHardState(m)
  {
    if Op(e).Some? {
      ApplyProposalFrame(m, Op(e).value);
      RecoveryFrame(m, ApplyEntry(m, e));
    }
  }

  lemma ApplyNextDisk(log: seq<Entry>, s: Pipeline, io: bool)
    requires Committed(log) && DiskInv(log, s) && StageInv(log, s) && DeliveryInv(log, s)
    requires Enabled(log, s, ApplyNext(io))
    ensures DiskInv(log, Step(log, s, ApplyNext(io))) && StageInv(log, Step(log, s, ApplyNext(io)))
    ensures DeliveryInv(log, Step(log, s, ApplyNext(io)))
    ensures s.stage.todo[0] == log[s.next] && s.next < s.delivered
  {
    assert s.stage.todo[0] == log[s.next];
    assert log[s.next] in log;
    ApplyKeepsRecords(s.a.disk, log[s.next]);
  }

  /** What a start of a node with loadable records does: it loads the durable log; the voters may be filled in. */
  lemma RestartLoadsLog(log: seq<Entry>, s: Pipeline, start: Start)
    requires Loadable(s.a.disk) && Enabled(log, s, Restart(start))
    ensures var t := Step(log, s, Restart(start));
            && Loadable(t.a.disk)
            && (forall i :: At(t.a.disk, i) == At(s.a.disk, i))
            && (forall k :: !Reserved(k) ==> Lookup(t.a.disk, k) == Lookup(s.a.disk, k))
            && (t == s || (t == s.(a := t.a, stage := Idle, stable := Indexed(t.a.entries))
                           && Lists(t.a.entries, s.a.disk)))
            && (start.io ==> t.stage.Idle?)
  {
    var m := s.a.disk;
    RecoveryIsDurableLog(m);
    var es, cs := LoadEntries(m).value, LoadConfState(m).value;
    OpenLoads(m, start, es, LoadHardState(m).value, cs);
    PutConfStateFrame(m, cs.(voters := start.voters));
  }

  lemma RestartDisk(log: seq<Entry>, s: Pipeline, start: Start)
    requires DiskInv(log, s) && StageInv(log, s) && DeliveryInv(log, s)
    requires Enabled(log, s, Restart(start))
    ensures DiskInv(log, Step(log, s, Restart(start))) && StageInv(log, Step(log, s, Restart(start)))
    ensures DeliveryInv(log, Step(log, s, Restart(start)))
    ensures start.io ==> Step(log, s, Restart(start)).stage.Idle?
    ensures forall k :: !Reserved(k) ==> Lookup(Step(log, s, Restart(start)).a.disk, k) == Lookup(s.a.disk, k)
  {
    RestartLoadsLog(log, s, start);
    var t := Step(log, s, Restart(start));
    if t != s {
      forall i | i in t.stable ensures At(t.a.disk, i) == Some(t.stable[i]) { LastAtIndices(t.a.entries, i); }
    }
  }

  lemma SaveHardStateDisk(log: seq<Entry>, s: Pipeline)
    requires DiskInv(log, s) && StageInv(log, s)
    requires Enabled(log, s, SaveHardState(true))
    ensures DiskInv(log, Step(log, s, SaveHardState(true))) && StageInv(log, Step(log, s, SaveHardState(true)))
  {
    var hs := s.stage.ready.hs;
    if hs.Some? { PutHardStateFrame(s.a.disk, hs.value); }
  }

  lemma StepKeepsDisk(log: seq<Entry>, s: Pipeline, ev: Event)
    requires Committed(log) && DiskInv(log, s) && StageInv(log, s) && DeliveryInv(log, s) && Enabled(log, s, ev)
    ensures DiskInv(log, Step(log, s, ev)) && StageInv(log, Step(log, s, ev))
  {
    match ev
    case TakeReady(ready) => TakeReadyDisk(log, s, ready);
    case PutLogEntry(io) => if io { PutLogEntryDisk(log, s); }
    case FinishAppend => assert s.stage.ready.entries[..s.stage.puts] == s.stage.ready.entries;
    case SaveHardState(io) => if io || s.stage.ready.hs == None { SaveHardStateDisk(log, s); }
    case Advance(light) => AdvanceDisk(log, s, light);
    case ApplyNext(io) => ApplyNextDisk(log, s, io);
    case Release =>
    case Crash =>
    case Restart(start) => RestartDisk(log, s, start);
  }

  lemma StepKeepsDelivery(log: seq<Entry>, s: Pipeline, ev: Event)
    requires DiskInv(log, s) && StageInv(log, s) && DeliveryInv(log, s) && Enabled(log, s, ev)
    ensures DeliveryInv(log, Step(log, s, ev))
  {
    match ev
    case Advance(light) => AdvanceDelivery(log, s, light);
    case ApplyNext(io) => assert s.stage.todo[1..] == log[s.next + 1..s.delivered];
    case Restart(start) => RestartDisk(log, s, start);
    case _ =>
  }

  // -- the user keys

  lemma TouchedMonotone(log: seq<Entry>, i: nat, j: nat, k: Key)
    requires i <= j <= |log| && Touched(log[..i], k)
    ensures Touched(log[..j], k)
  {
    var n :| 0 <= n < i && Touches(log[..i][n], k);
    assert Touches(log[..j][n], k);
  }

  /** Writes to reserved keys do not matter to what a committed log has written. */
  lemma HeldFrame(log: seq<Entry>, n: nat, skipped: set<nat>, before: Disk, after: Disk)
    requires Committed(log) && n <= |log| && HeldBut(log, n, skipped, before)
    requires forall k :: !Reserved(k) ==> Lookup(after, k) == Lookup(before, k)
    ensures HeldBut(log, n, skipped, after)
  {
    forall j | 0 <= j < n && j !in skipped && LastOfItsKey(log, n, j) ensures Holds(after, log[j]) {
      assert log[j] in log;
      assert Lookup(after, Op(log[j]).value.key) == Lookup(before, Op(log[j]).value.key);
    }
  }

  /** A last writer of a longer prefix that lies in a shorter one is a last writer there. */
  lemma HeldShorter(log: seq<Entry>, n: nat, top: nat, j: nat)
    requires j < n <= top <= |log| && LastOfItsKey(log, top, j)
    ensures LastOfItsKey(log, n, j)
  {
  }

  lemma HeldNext(log: seq<Entry>, n: nat, skipped: set<nat>, before: Disk)
    requires n < |log| && HeldBut(log, n, skipped, before)
    ensures HeldBut(log, n + 1, skipped, ApplyEntry(before, log[n]))
    ensures HeldBut(log, n + 1, if Op(log[n]).None? then skipped else skipped + {n}, before)
  {
    forall j | 0 <= j < n && j !in skipped && LastOfItsKey(log, n + 1, j)
      ensures Holds(before, log[j]) && Holds(ApplyEntry(before, log[n]), log[j])
    {
      HeldShorter(log, n, n + 1, j);
      ApplyEntryAt(before, before, log[n], Op(log[j]).value.key);
    }
  }

  lemma UntouchedNext(m: Disk, log: seq<Entry>, high: nat, n: nat, before: Disk, after: Disk)
    requires high <= |log| && n < |log| && UntouchedAsIn(m, log, high, before)
    requires after == before || after == ApplyEntry(before, log[n])
    ensures UntouchedAsIn(m, log, Max(high, n + 1), after)
  {
    var top := Max(high, n + 1);
    forall k | !Reserved(k) && !Touched(log[..top], k) ensures Lookup(after, k) == Lookup(m, k) {
      if Touched(log[..high], k) { TouchedMonotone(log, high, top, k); }
      assert log[..top][n] == log[n];
      ApplyEntryAt(before, before, log[n], k);
    }
  }

  lemma ApplyNextReplays(m: Disk, log: seq<Entry>, s: Pipeline, io: bool)
    requires DeliveryInv(log, s) && ReplayInv(m, log, s) && Enabled(log, s, ApplyNext(io))
    ensures ReplayInv(m, log, Step(log, s, ApplyNext(io)))
  {
    assert s.stage.todo[0] == log[s.next];
    ReplaysNext(m, log, s, Step(log, s, ApplyNext(io)), io);
  }

  lemma ReplaysNext(m: Disk, log: seq<Entry>, s: Pipeline, t: Pipeline, io: bool)
    requires ReplayInv(m, log, s) && s.next < |log|
    requires t.next == s.next + 1 && t.high == Max(s.high, s.next + 1)
    requires t.a.disk == if io then ApplyEntry(s.a.disk, log[s.next]) else s.a.disk
    requires t.skipped == if io || Op(log[s.next]).None? then s.skipped else s.skipped + {s.next}
    ensures ReplayInv(m, log, t)
  {
    UntouchedNext(m, log, s.high, s.next, s.a.disk, t.a.disk);
    HeldNext(log, s.next, s.skipped, s.a.disk);
  }

  lemma AbortKeepsReplay(m: Disk, log: seq<Entry>, s: Pipeline)
    requires ReplayInv(m, log, s) && s.next <= s.delivered <= |log|
    ensures ReplayInv(m, log, Abort(s))
  {
    var t := Abort(s);
    forall j | 0 <= j < t.next && j !in t.skipped && LastOfItsKey(log, t.next, j) ensures Holds(t.a.disk, log[j]) {
      assert j < s.next by { assert j !in Positions(s.next, s.delivered); }
      HeldShorter(log, s.next, t.next, j);
    }
  }

  /** Steps that touch nothing but reserved keys and consume nothing. */
  lemma SameUsersKeepReplay(m: Disk, log: seq<Entry>, s: Pipeline, t: Pipeline)
    requires Committed(log) && ReplayInv(m, log, s)
    requires t.next == s.next && t.high == s.high && t.skipped == s.skipped
    requires forall k :: !Reserved(k) ==> Lookup(t.a.disk, k) == Lookup(s.a.disk, k)
    ensures ReplayInv(m, log, t)
  {
    HeldFrame(log, s.next, s.skipped, s.a.disk, t.a.disk);
  }

  lemma StepKeepsReplay(m: Disk, log: seq<Entry>, s: Pipeline, ev: Event)
    requires Committed(log) && DiskInv(log, s) && StageInv(log, s) && DeliveryInv(log, s) && ReplayInv(m, log, s)
    requires Enabled(log, s, ev)
    ensures ReplayInv(m, log, Step(log, s, ev))
  {
    match ev
    case PutLogEntry(io) =>
      if io {
        PutEntryAt(s.a.disk, s.stage.ready.entries[s.stage.puts]);
        SameUsersKeepReplay(m, log, s, Step(log, s, ev));
      } else {
        AbortKeepsReplay(m, log, s);
      }
    case SaveHardState(io) =>
      if s.stage.ready.hs.Some? && !io { AbortKeepsReplay(m, log, s); }
      else { SameUsersKeepReplay(m, log, s, Step(log, s, ev)); }
    case ApplyNext(io) => ApplyNextReplays(m, log, s, io);
    case Crash =>
    case Restart(start) =>
      RestartDisk(log, s, start);
      SameUsersKeepReplay(m, log, s, Step(log, s, ev));
    case _ =>
  }

  lemma StepKeepsHistory(log: seq<Entry>, s: Pipeline, ev: Event)
    requires HistoryInv(s) && Enabled(log, s, ev)
    ensures HistoryInv(Step(log, s, ev))
  {
  }

  lemma StepKeepsAnswers(log: seq<Entry>, s: Pipeline, ev: Event)
    requires StageInv(log, s) && HistoryInv(s) && AnswersInv(s) && Enabled(log, s, ev)
    ensures AnswersInv(Step(log, s, ev))
  {
    if ev.Release? {
      var t := Step(log, s, ev);
      assert AnswerOk(t.answers[|s.answers|]);
    } else {
      forall i | 0 <= i < |s.answers| ensures s.answers[i].number <= s.taken {
        assert s.answers[i].number in s.advanced + s.failed;
      }
    }
  }

  lemma {:induction false} RunsKeepInv(m: Disk, log: seq<Entry>, evs: seq<Event>)
    requires Loadable(m) && Committed(log) && Exec(log, Initial(m), evs).Some?
    ensures Inv(m, log, Exec(log, Initial(m), evs).value)
  {
    if |evs| == 0 {
      InitialInv(m, log);
    } else {
      var front, ev := evs[..|evs| - 1], evs[|evs| - 1];
      RunsKeepInv(m, log, front);
      var s := Exec(log, Initial(m), front).value;
      StepKeepsDisk(log, s, ev);
      StepKeepsDelivery(log, s, ev);
      StepKeepsReplay(m, log, s, ev);
      StepKeepsHistory(log, s, ev);
      StepKeepsAnswers(log, s, ev);
    }
  }
}
