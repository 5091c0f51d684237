/**
 * Where raft-rs gets the committed entries it hands out: it reads them back through the adapter's `entries`
 * (src/raft/storage.rs), that is, from the cache. When does the cache let it keep its contract?
 */
module CommittedReads {
  import opened Wrappers
  import opened Bytes
  import opened OrderedStore
  import opened Codec
  import opened DurableLog
  import opened SharedStore
  import opened RaftStorage
  import opened ReadyPipeline
  import opened ReadyTheorems

  // ---------- what the cache knows ----------

  /** What raft-rs takes for persisted is the newest cached entry at its index, also while a Ready is in flight. */
  ghost predicate CacheInv(s: Pipeline) {
    && (forall i :: i in s.stable ==> LastAt(s.a.entries, i) == Some(s.stable[i]))
    && (s.stage.Saving? || s.stage.Advancing? ==>
          var es := s.stage.ready.entries;
          |es| <= |s.a.entries| && s.a.entries[|s.a.entries| - |es|..] == es)
  }

  lemma {:induction false} LastAtConcat(a: seq<Entry>, b: seq<Entry>, i: nat)
    ensures LastAt(a + b, i) == if LastAt(b, i).Some? then LastAt(b, i) else LastAt(a, i)
  {
    if |b| == 0 {
      assert a + b == a;
    } else {
      assert (a + b)[..|a + b| - 1] == a + b[..|b| - 1];
      LastAtConcat(a, b[..|b| - 1], i);
    }
  }

  lemma FinishAppendCache(log: seq<Entry>, s: Pipeline)
    requires StageInv(log, s) && CacheInv(s) && Enabled(log, s, FinishAppend)
    ensures CacheInv(Step(log, s, FinishAppend))
  {
    var es := s.stage.ready.entries;
    forall i | i in s.stable ensures LastAt(s.a.entries + es, i) == Some(s.stable[i]) {
      LastAtConcat(s.a.entries, es, i);
      LastAtIndices(es, i);
    }
  }

  lemma AdvanceCache(log: seq<Entry>, s: Pipeline, light: LightReady)
    requires CacheInv(s) && Enabled(log, s, Advance(light))
    ensures CacheInv(Step(log, s, Advance(light)))
  {
    var c, es := s.a.entries, s.stage.ready.entries;
    assert c == c[..|c| - |es|] + es;
    TailIsNewest(c[..|c| - |es|], es, s.stable);
  }

  lemma TailIsNewest(older: seq<Entry>, es: seq<Entry>, stable: map<nat, Entry>)
    requires forall i :: i in stable ==> LastAt(older + es, i) == Some(stable[i])
    ensures forall i :: i in stable + Indexed(es) ==> LastAt(older + es, i) == Some((stable + Indexed(es))[i])
  {
    forall i | i in stable + Indexed(es) ensures LastAt(older + es, i) == Some((stable + Indexed(es))[i]) {
      LastAtConcat(older, es, i);
      LastAtIndices(es, i);
    }
  }

  lemma RestartCache(log: seq<Entry>, s: Pipeline, start: Start)
    requires DiskInv(log, s) && StageInv(log, s) && CacheInv(s) && Enabled(log, s, Event.Restart(start))
    ensures CacheInv(Step(log, s, Event.Restart(start)))
  {
    var t := Step(log, s, Event.Restart(start));
    if t.stage.Idle? {
      forall i | i in t.stable ensures LastAt(t.a.entries, i) == Some(t.stable[i]) { LastAtIndices(t.a.entries, i); }
    }
  }

  /** The other steps leave the cache alone and tell raft-rs nothing new. */
  lemma SameCache(s: Pipeline, t: Pipeline)
    requires CacheInv(s) && t.a.entries == s.a.entries
    requires forall i :: i in t.stable ==> i in s.stable && t.stable[i] == s.stable[i]
    requires t.stage.Advancing? ==> s.stage.Saving? && s.stage.ready == t.stage.ready
    requires !t.stage.Saving?
    ensures CacheInv(t)
  {
  }

  lemma StepKeepsCache(log: seq<Entry>, s: Pipeline, ev: Event)
    requires DiskInv(log, s) && StageInv(log, s) && CacheInv(s) && Enabled(log, s, ev)
    ensures CacheInv(Step(log, s, ev))
  {
    match ev
    case FinishAppend => FinishAppendCache(log, s);
    case Advance(light) => AdvanceCache(log, s, light);
    case Restart(start) => RestartCache(log, s, start);
    case _ => SameCache(s, Step(log, s, ev));
  }

  lemma {:induction false} RunsKeepCache(m: Disk, log: seq<Entry>, evs: seq<Event>, s: Pipeline)
    requires Reaches(m, log, evs, s)
    ensures CacheInv(s)
  {
    if |evs| > 0 {
      var front := evs[..|evs| - 1];
      var before := Exec(log, Initial(m), front).value;
      RunsKeepCache(m, log, front, before);
      RunsKeepInv(m, log, front);
      StepKeepsCache(log, before, evs[|evs| - 1]);
    }
  }

  // ---------- exactly when a read gives the committed entries ----------

  lemma {:induction false} InRangeLastAt(c: seq<Entry>, low: nat, high: nat, i: nat)
    ensures LastAt(InRange(c, low, high), i) == if low <= i < high then LastAt(c, i) else None
  {
    if |c| > 0 {
      var front, last := c[..|c| - 1], c[|c| - 1];
      InRangeLastAt(front, low, high, i);
      LastAtConcat(InRange(front, low, high), if low <= last.index < high then [last] else [], i);
      assert [last][..0] == [];
    }
  }

  lemma SliceMember(log: seq<Entry>, from: nat, to: nat, e: Entry)
    requires Consecutive(log, 1) && from <= to <= |log|
    ensures e in log[from..to] <==> from < e.index <= to && e == log[e.index - 1]
  {
    if e in log[from..to] {
      var j :| 0 <= j < to - from && log[from..to][j] == e;
      assert log[from + j] == e;
    }
    if from < e.index <= to && e == log[e.index - 1] { SliceElement(log, from, to, e.index - 1); }
  }

  lemma ReadMember(log: seq<Entry>, c: seq<Entry>, from: nat, to: nat, e: Entry)
    requires Consecutive(log, 1) && from <= to <= |log|
    requires from < e.index <= to ==> LastAt(c, e.index) == Some(log[e.index - 1])
    requires Increasing(InRange(c, from + 1, to + 1))
    ensures e in InRange(c, from + 1, to + 1) <==> e in log[from..to]
  {
    InRangeLastAt(c, from + 1, to + 1, e.index);
    IncreasingMember(InRange(c, from + 1, to + 1), e);
    SliceMember(log, from, to, e);
  }

  lemma SliceIncreasing(log: seq<Entry>, from: nat, to: nat)
    requires Consecutive(log, 1) && from <= to <= |log|
    ensures Increasing(log[from..to])
  {
  }

  lemma ReadExact(log: seq<Entry>, c: seq<Entry>, from: nat, to: nat)
    requires Consecutive(log, 1) && from <= to <= |log|
    requires forall i :: from < i <= to ==> LastAt(c, i) == Some(log[i - 1])
    ensures InRange(c, from + 1, to + 1) == log[from..to] <==> Increasing(InRange(c, from + 1, to + 1))
  {
    SliceIncreasing(log, from, to);
    if Increasing(InRange(c, from + 1, to + 1)) {
      forall e ensures e in InRange(c, from + 1, to + 1) <==> e in log[from..to] { ReadMember(log, c, from, to, e); }
      SameElementsSameSequence(InRange(c, from + 1, to + 1), log[from..to]);
    }
  }

  /** The two events with which raft-rs hands out committed entries. */
  predicate HandsOut(ev: Event, committed: seq<Entry>) {
    (ev.TakeReady? && ev.ready.committed == committed) || (ev.Advance? && ev.light.committed == committed)
  }

  lemma HandingOut(log: seq<Entry>, s: Pipeline, ev: Event, committed: seq<Entry>)
    requires Enabled(log, s, ev) && HandsOut(ev, committed)
    ensures NextCommitted(log, s.delivered, Step(log, s, ev).stable, committed)
    ensures Step(log, s, ev).a == s.a
  {
  }

  lemma CommittedIsCached(log: seq<Entry>, from: nat, stable: map<nat, Entry>, c: seq<Entry>, committed: seq<Entry>)
    requires Consecutive(log, 1) && NextCommitted(log, from, stable, committed)
    requires forall i :: i in stable ==> LastAt(c, i) == Some(stable[i])
    ensures forall i :: from < i <= from + |committed| ==> LastAt(c, i) == Some(log[i - 1])
  {
    forall i | from < i <= from + |committed| ensures LastAt(c, i) == Some(log[i - 1]) {
      SliceElement(log, from, from + |committed|, i - 1);
      assert log[i - 1].index == i;
    }
  }

  /** What is handed out rests on entries that raft-rs takes for persisted and the cache knows as the newest. */
  lemma HandedOutFrom(m: Disk, log: seq<Entry>, evs: seq<Event>, s: Pipeline, ev: Event, committed: seq<Entry>)
    returns (stable: map<nat, Entry>)
    requires Reaches(m, log, evs, s) && Enabled(log, s, ev) && HandsOut(ev, committed)
    ensures Consecutive(log, 1) && NextCommitted(log, s.delivered, stable, committed)
    ensures forall i :: i in stable ==> LastAt(s.a.entries, i) == Some(stable[i])
  {
    HandingOut(log, s, ev, committed);
    stable := Step(log, s, ev).stable;
    assert CacheInv(Step(log, s, ev)) by {
      RunsKeepInv(m, log, evs);
      RunsKeepCache(m, log, evs, s);
      StepKeepsCache(log, s, ev);
    }
  }

  /** What the adapter answers when asked for the next `n` committed entries without a size bound. */
  function NextRead(s: Pipeline, n: nat): seq<Entry> {
    InRange(s.a.entries, s.delivered + 1, s.delivered + n + 1)
  }

  lemma ContractRead(log: seq<Entry>, s: Pipeline, stable: map<nat, Entry>, committed: seq<Entry>)
    requires Consecutive(log, 1) && NextCommitted(log, s.delivered, stable, committed)
    requires forall i :: i in stable ==> LastAt(s.a.entries, i) == Some(stable[i])
    ensures NextRead(s, |committed|) == committed <==> Increasing(NextRead(s, |committed|))
  {
    CommittedIsCached(log, s.delivered, stable, s.a.entries, committed);
    ReadExact(log, s.a.entries, s.delivered, s.delivered + |committed|);
  }

  /**
   * Over any run: the committed entries that the contract of raft-rs lets it hand out are what the adapter answers
   * when asked for them if and only if the cached entries in that range have strictly increasing indices.
   */
  lemma CommittedReadExact(m: Disk, log: seq<Entry>, evs: seq<Event>, s: Pipeline, ev: Event, committed: seq<Entry>)
    requires Reaches(m, log, evs, s) && Enabled(log, s, ev) && HandsOut(ev, committed)
    ensures NextRead(s, |committed|) == committed <==> Increasing(NextRead(s, |committed|))
  {
    var stable := HandedOutFrom(m, log, evs, s, ev, committed);
    ContractRead(log, s, stable, committed);
  }

  // ---------- runs that only append at the end ----------

  /** The Readies' entries continue the cached log. */
  ghost predicate InPlace(s: Pipeline, ev: Event) {
    ev.TakeReady? ==> Consecutive(ev.ready.entries, LastIndex(s.a.entries) + 1)
  }

  ghost predicate InPlaceRun(log: seq<Entry>, s: Pipeline, evs: seq<Event>) {
    |evs| > 0 ==>
      && InPlaceRun(log, s, evs[..|evs| - 1])
      && (Exec(log, s, evs[..|evs| - 1]).Some? ==> InPlace(Exec(log, s, evs[..|evs| - 1]).value, evs[|evs| - 1]))
  }

  /** The records recover as a log numbered from 1 that begins with `known`. */
  ghost predicate Extends(m: Disk, known: seq<Entry>) {
    && Canonical(m) && LoadEntries(m).Some?
    && Consecutive(LoadEntries(m).value, 1) && known <= LoadEntries(m).value
  }

  /** The cached entries, and while a Ready's are being put, those that have been. */
  function Known(s: Pipeline): seq<Entry> {
    if s.stage.Persisting? && s.stage.puts <= |s.stage.ready.entries|
    then s.a.entries + s.stage.ready.entries[..s.stage.puts]
    else s.a.entries
  }

  ghost predicate PlaceInv(s: Pipeline) {
    && Consecutive(s.a.entries, 1) && Extends(s.a.disk, Known(s))
    && (s.stage.Persisting? ==>
          && s.stage.puts <= |s.stage.ready.entries|
          && Consecutive(s.stage.ready.entries, |s.a.entries| + 1))
  }

  lemma PutExtends(m: Disk, known: seq<Entry>, e: Entry)
    requires Extends(m, known) && e.index == |known| + 1
    ensures Extends(PutEntry(m, e), known + [e])
  {
    var r := LoadEntries(m).value;
    AppendRecovery(m, r, |known|, [e]);
    assert [e][..0] == [];
    assert PutEntries(m, [e]) == PutEntry(m, e);
    assert r[..|known|] == known;
    OverwriteExtends(r, |known|, [e]);
  }

  lemma ExtendsPrefix(m: Disk, known: seq<Entry>, more: seq<Entry>)
    requires Extends(m, known + more)
    ensures Extends(m, known)
  {
  }

  lemma KnownNext(log: seq<Entry>, s: Pipeline)
    requires Enabled(log, s, PutLogEntry(true))
    ensures |Known(s)| == |s.a.entries| + s.stage.puts
    ensures Known(Step(log, s, PutLogEntry(true))) == Known(s) + [s.stage.ready.entries[s.stage.puts]]
  {
    var es, puts := s.stage.ready.entries, s.stage.puts;
    assert es[..puts + 1] == es[..puts] + [es[puts]];
  }

  lemma PutInPlace(log: seq<Entry>, s: Pipeline)
    requires PlaceInv(s) && Enabled(log, s, PutLogEntry(true))
    ensures PlaceInv(Step(log, s, PutLogEntry(true)))
  {
    KnownNext(log, s);
    PutExtends(s.a.disk, Known(s), s.stage.ready.entries[s.stage.puts]);
  }

  /** A Ready given up while its entries are being put. */
  lemma GivenUpInPlace(s: Pipeline, t: Pipeline)
    requires PlaceInv(s) && t.a == s.a && !t.stage.Persisting?
    ensures PlaceInv(t)
  {
    assert Known(s) == s.a.entries + Known(s)[|s.a.entries|..];
    ExtendsPrefix(s.a.disk, s.a.entries, Known(s)[|s.a.entries|..]);
  }

  lemma SameLogInPlace(s: Pipeline, t: Pipeline)
    requires PlaceInv(s) && t.a.entries == s.a.entries && !s.stage.Persisting? && !t.stage.Persisting?
    requires LoadEntries(t.a.disk) == LoadEntries(s.a.disk) && Canonical(t.a.disk) == Canonical(s.a.disk)
    ensures PlaceInv(t)
  {
  }

  lemma ApplyInPlace(log: seq<Entry>, s: Pipeline, io: bool)
    requires Committed(log) && DiskInv(log, s) && StageInv(log, s) && DeliveryInv(log, s) && PlaceInv(s)
    requires Enabled(log, s, ApplyNext(io))
    ensures PlaceInv(Step(log, s, ApplyNext(io)))
  {
    ApplyNextDisk(log, s, io);
    var e := log[s.next];
    assert e in log;
    if Op(e).Some? {
      ApplyProposalFrame(s.a.disk, Op(e).value);
      RecoveryFrame(s.a.disk, ApplyEntry(s.a.disk, e));
    }
    SameLogInPlace(s, Step(log, s, ApplyNext(io)));
  }

  lemma RestartInPlace(log: seq<Entry>, s: Pipeline, start: Start)
    requires DiskInv(log, s) && PlaceInv(s) && Enabled(log, s, Event.Restart(start))
    ensures PlaceInv(Step(log, s, Event.Restart(start)))
  {
    var m := s.a.disk;
    var cs := LoadConfState(m).value;
    OpenLoads(m, start, LoadEntries(m).value, LoadHardState(m).value, cs);
    PutConfStateFrame(m, cs.(voters := start.voters));
  }

  lemma SaveInPlace(log: seq<Entry>, s: Pipeline, io: bool)
    requires PlaceInv(s) && Enabled(log, s, SaveHardState(io))
    ensures PlaceInv(Step(log, s, SaveHardState(io)))
  {
    if s.stage.ready.hs.Some? { PutHardStateFrame(s.a.disk, s.stage.ready.hs.value); }
    SameLogInPlace(s, Step(log, s, SaveHardState(io)));
  }

  lemma StepKeepsPlace(log: seq<Entry>, s: Pipeline, ev: Event)
    requires Committed(log) && DiskInv(log, s) && StageInv(log, s) && DeliveryInv(log, s) && PlaceInv(s)
    requires Enabled(log, s, ev) && InPlace(s, ev)
    ensures PlaceInv(Step(log, s, ev))
  {
    match ev
    case TakeReady(ready) => assert s.a.entries + ready.entries[..0] == s.a.entries;
    case PutLogEntry(io) => if io { PutInPlace(log, s); } else { GivenUpInPlace(s, Step(log, s, ev)); }
    case FinishAppend => assert s.stage.ready.entries[..s.stage.puts] == s.stage.ready.entries;
    case SaveHardState(io) => SaveInPlace(log, s, io);
    case ApplyNext(io) => ApplyInPlace(log, s, io);
    case Restart(start) => RestartInPlace(log, s, start);
    case Crash => GivenUpInPlace(s, Step(log, s, ev));
    case _ =>
  }

  lemma {:induction false} RunsKeepPlace(m: Disk, log: seq<Entry>, evs: seq<Event>, s: Pipeline)
    requires Reaches(m, log, evs, s) && Extends(m, []) && InPlaceRun(log, Initial(m), evs)
    ensures PlaceInv(s)
  {
    if |evs| > 0 {
      var front := evs[..|evs| - 1];
      var before := Exec(log, Initial(m), front).value;
      RunsKeepPlace(m, log, front, before);
      RunsKeepInv(m, log, front);
      StepKeepsPlace(log, before, evs[|evs| - 1]);
    }
  }

  lemma ContiguousReadIncreasing(s: Pipeline, n: nat)
    requires Consecutive(s.a.entries, 1)
    ensures Increasing(NextRead(s, n))
  {
    var c, low, high := s.a.entries, s.delivered + 1, s.delivered + n + 1;
    InRangeContiguous(c, 1, low, high);
    SliceIncreasing(c, Clamp(low - 1, |c|), Clamp(high - 1, |c|));
  }

  lemma InPlaceContiguous(m: Disk, log: seq<Entry>, evs: seq<Event>, s: Pipeline)
    requires Reaches(m, log, evs, s) && Extends(m, []) && InPlaceRun(log, Initial(m), evs)
    ensures Consecutive(s.a.entries, 1)
  {
    RunsKeepPlace(m, log, evs, s);
  }

  lemma InPlaceRead(m: Disk, log: seq<Entry>, evs: seq<Event>, s: Pipeline, ev: Event, committed: seq<Entry>)
    requires Reaches(m, log, evs, s) && Extends(m, []) && InPlaceRun(log, Initial(m), evs)
    requires Enabled(log, s, ev) && HandsOut(ev, committed)
    ensures NextRead(s, |committed|) == committed
  {
    CommittedReadExact(m, log, evs, s, ev, committed);
    assert Consecutive(s.a.entries, 1) by { InPlaceContiguous(m, log, evs, s); }
    ContiguousReadIncreasing(s, |committed|);
  }

  /**
   * The adapter lets raft-rs keep its contract in every run, with any crashes and refused writes, in which each
   * Ready continues the cached log: a read of any committed stretch raft-rs may hand out, with any size bound, gives
   * the stretch or, with a bound, a non-empty beginning of it.
   */
  lemma InPlaceReadsKeepContract(
      m: Disk, log: seq<Entry>, evs: seq<Event>, s: Pipeline, ev: Event, committed: seq<Entry>,
      max: Option<nat>, r: Result<seq<Entry>, ReadError>)
    requires Reaches(m, log, evs, s) && Extends(m, []) && InPlaceRun(log, Initial(m), evs)
    requires Enabled(log, s, ev) && HandsOut(ev, committed) && committed != []
    requires BoundedRead(NextRead(s, |committed|), max, r)
    ensures r.Ok? && r.value != [] && r.value <= committed
    ensures max.None? ==> r.value == committed
  {
    InPlaceRead(m, log, evs, s, ev, committed);
  }

  /** raft-rs knows the next `n` committed entries to be persisted. Nothing is said about their content. */
  ghost predicate MayAsk(log: seq<Entry>, from: nat, stable: map<nat, Entry>, n: nat) {
    from + n <= |log| && forall i :: from < i <= from + n ==> i in stable && stable[i] == log[i - 1]
  }

  /** What is handed out is what the adapter answers for such a range, cut anywhere by a size bound. */
  ghost predicate HandsOutRead(log: seq<Entry>, s: Pipeline, stable: map<nat, Entry>, committed: seq<Entry>) {
    exists n :: MayAsk(log, s.delivered, stable, n) && committed <= NextRead(s, n)
  }

  /** `Enabled` with the content of committed entries left to the adapter. */
  ghost predicate ReadEnabled(log: seq<Entry>, s: Pipeline, ev: Event) {
    match ev
    case TakeReady(ready) =>
      && s.stage.Idle?
      && HandsOutRead(log, s, s.stable - Indices(ready.entries), ready.committed)
      && EntriesAgree(log, ready.entries, Max(s.high, s.delivered + |ready.committed|))
    case Advance(light) =>
      s.stage.Advancing? && HandsOutRead(log, s, s.stable + Indexed(s.stage.ready.entries), light.committed)
    case _ => Enabled(log, s, ev)
  }

  lemma ReadIsCommitted(log: seq<Entry>, s: Pipeline, stable: map<nat, Entry>, committed: seq<Entry>)
    requires Consecutive(log, 1) && Consecutive(s.a.entries, 1)
    requires forall i :: i in stable ==> LastAt(s.a.entries, i) == Some(stable[i])
    requires HandsOutRead(log, s, stable, committed)
    ensures NextCommitted(log, s.delivered, stable, committed)
  {
    var n :| MayAsk(log, s.delivered, stable, n) && committed <= NextRead(s, n);
    ContiguousReadIncreasing(s, n);
    ReadExact(log, s.a.entries, s.delivered, s.delivered + n);
    PrefixIsCommitted(log, s.delivered, stable, n, committed);
  }

  lemma PrefixIsCommitted(log: seq<Entry>, from: nat, stable: map<nat, Entry>, n: nat, committed: seq<Entry>)
    requires Consecutive(log, 1) && MayAsk(log, from, stable, n) && committed <= log[from..from + n]
    ensures NextCommitted(log, from, stable, committed)
  {
    var to := from + |committed|;
    assert committed == log[from..to];
    forall e | e in committed ensures e.index in stable && stable[e.index] == e { SliceMember(log, from, to, e); }
  }

  /**
   * So in such runs the content of committed entries need not be assumed: whenever raft-rs asks for a range it may
   * ask for, handing out the adapter's answer is a step the contract allows. All theorems about runs apply.
   */
  lemma InPlaceReadsAreAllowed(m: Disk, log: seq<Entry>, evs: seq<Event>, s: Pipeline, ev: Event)
    requires Reaches(m, log, evs, s) && Extends(m, []) && InPlaceRun(log, Initial(m), evs)
    requires ReadEnabled(log, s, ev)
    ensures Enabled(log, s, ev)
  {
    assert CacheInv(s) by { RunsKeepCache(m, log, evs, s); }
    assert Consecutive(s.a.entries, 1) by { InPlaceContiguous(m, log, evs, s); }
    match ev
    case TakeReady(ready) => ReadIsCommitted(log, s, s.stable - Indices(ready.entries), ready.committed);
    case Advance(light) =>
      var c, es := s.a.entries, s.stage.ready.entries;
      assert c == c[..|c| - |es|] + es;
      TailIsNewest(c[..|c| - |es|], es, s.stable);
      ReadIsCommitted(log, s, s.stable + Indexed(es), light.committed);
    case _ =>
  }

  // ---------- and a run that does not ----------

  lemma EmptyStart(m: Disk, log: seq<Entry>, start: Start) returns (s: Pipeline)
    requires Loadable(m) && NoLog(m) && start.io
    ensures Exec(log, Initial(m), [Event.Restart(start)]) == Some(s)
    ensures s.stage.Idle? && s.a.entries == [] && s.stable == map[] && s.next == s.delivered == s.high == 0
  {
    EmptyLogLoads(m);
    OpenLoads(m, start, [], LoadHardState(m).value, LoadConfState(m).value);
    var evs;
    evs, s := ExecNext(log, Initial(m), [], Initial(m), Event.Restart(start));
    assert evs == [Event.Restart(start)];
  }

  /** Taking a Ready with one entry for index 1 and appending it. */
  lemma PutOne(log: seq<Entry>, s: Pipeline, ready: Ready) returns (evs: seq<Event>, t: Pipeline)
    requires s.stage.Idle? && s.high == s.delivered == 0 && |log| > 0
    requires |ready.entries| == 1 && ready.entries[0].index == 1 && ready.committed == []
    ensures Exec(log, s, evs) == Some(t)
    ensures forall ev :: ev in evs ==> !ev.ApplyNext? && ev != Crash
    ensures t.stage == Saving(ready) && t.high == t.delivered == 0 && t.next == s.next
    ensures t.a.entries == s.a.entries + ready.entries
  {
    assert log[0..0] == [];
    evs, t := ExecNext(log, s, [], s, TakeReady(ready));
    evs, t := ExecNext(log, s, evs, t, PutLogEntry(true));
    evs, t := ExecNext(log, s, evs, t, FinishAppend);
  }

  /** A Ready with one entry for index 1; its hard state is saved, or refused after the append (`io`). */
  lemma AppendOne(log: seq<Entry>, s: Pipeline, e: Entry, io: bool) returns (evs: seq<Event>, t: Pipeline)
    requires s.stage.Idle? && s.high == s.next == s.delivered == 0 && |log| > 0 && e.index == 1
    ensures Exec(log, s, evs) == Some(t)
    ensures forall ev :: ev in evs ==> !ev.ApplyNext? && ev != Crash
    ensures t.stage.Idle? && t.high == t.next == t.delivered == 0
    ensures t.a.entries == s.a.entries + [e]
    ensures io ==> 1 in t.stable && t.stable[1] == e
  {
    var ready := Ready([], [], [e], [], Some(HardState(e.term, 0, 0)));
    evs, t := PutOne(log, s, ready);
    evs, t := ExecNext(log, s, evs, t, SaveHardState(io));
    if io {
      assert log[0..0] == [];
      LastAtIndices([e], 1);
      evs, t := ExecNext(log, s, evs, t, Advance(LightReady([], [])));
      evs, t := ExecNext(log, s, evs, t, Release);
    }
  }

  lemma ExecThree(
      log: seq<Entry>, s0: Pipeline, a: seq<Event>, s1: Pipeline, b: seq<Event>, s2: Pipeline,
      c: seq<Event>, s3: Pipeline)
    returns (evs: seq<Event>)
    requires Exec(log, s0, a) == Some(s1) && Exec(log, s1, b) == Some(s2) && Exec(log, s2, c) == Some(s3)
    ensures Exec(log, s0, evs) == Some(s3)
  {
    ExecConcat(log, s0, a, b);
    ExecConcat(log, s0, a + b, c);
    evs := a + b + c;
  }

  lemma BothInRange(stale: Entry, newer: Entry)
    requires stale.index == newer.index == 1
    ensures InRange([stale] + [newer], 1, 2) == [stale, newer]
  {
    assert [stale] + [newer] == [stale, newer] && [stale, newer][..1] == [stale];
    assert [stale][..0] == [];
    assert InRange([stale], 1, 2) == InRange([], 1, 2) + [stale];
    assert InRange([stale, newer], 1, 2) == InRange([stale], 1, 2) + [newer];
  }

  lemma OnlyNewerAllowed(s: Pipeline, newer: Entry)
    requires s.stage.Idle? && s.delivered == 0 && newer.index == 1 && 1 in s.stable && s.stable[1] == newer
    ensures Enabled([newer], s, TakeReady(Ready([], [], [], [newer], None)))
  {
    assert [newer][0..1] == [newer];
    assert s.stable - Indices([]) == s.stable;
  }

  lemma AppendTwice(m: Disk, log: seq<Entry>, stale: Entry, newer: Entry, start: Start, io: bool)
    returns (evs: seq<Event>, s: Pipeline)
    requires Loadable(m) && NoLog(m) && start.io && stale.index == newer.index == 1 && |log| > 0
    ensures Exec(log, Initial(m), evs) == Some(s)
    ensures s.stage.Idle? && s.delivered == 0 && 1 in s.stable && s.stable[1] == newer
    ensures s.a.entries == [stale] + [newer]
  {
    var s0 := EmptyStart(m, log, start);
    var e1, s1 := AppendOne(log, s0, stale, io);
    var e2;
    e2, s := AppendOne(log, s1, newer, true);
    evs := ExecThree(log, Initial(m), [Event.Restart(start)], s0, e1, s1, e2, s);
  }

  /**
   * The conflict step of section 5.3 of the extended Raft paper breaks it: index 1 is appended twice, with the
   * entry of a later term, or (`io` false, `stale == newer`) with the same entry again because the hard state of
   * its first Ready was refused. The contract has raft-rs hand out `newer`; the adapter answers with both.
   */
  lemma OverwriteReadsBoth(m: Disk, stale: Entry, newer: Entry, start: Start, io: bool)
    returns (evs: seq<Event>, s: Pipeline)
    requires Loadable(m) && NoLog(m) && start.io && stale.index == newer.index == 1 && Committed([newer])
    ensures Reaches(m, [newer], evs, s) && s.stage.Idle?
    ensures Enabled([newer], s, TakeReady(Ready([], [], [], [newer], None)))
    ensures NextRead(s, 1) == [stale, newer]
  {
    evs, s := AppendTwice(m, [newer], stale, newer, start, io);
    BothInRange(stale, newer);
    OnlyNewerAllowed(s, newer);
  }
}
