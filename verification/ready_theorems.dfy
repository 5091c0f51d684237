/** What the pipeline guarantees over whole runs, for every committed log and every store it may start on. */
module ReadyTheorems {
  import opened Wrappers
  import opened Bytes
  import opened OrderedStore
  import opened Codec
  import opened DurableLog
  import opened SharedStore
  import opened RaftStorage
  import opened ReadyPipeline

  ghost predicate Reaches(m: Disk, log: seq<Entry>, evs: seq<Event>, s: Pipeline) {
    Loadable(m) && Committed(log) && Exec(log, Initial(m), evs) == Some(s)
  }

  // ---------- the user keys ----------

  /** The last of the first `n` entries that writes `k`, at or after one that does. */
  lemma {:induction false} LastToucher(log: seq<Entry>, n: nat, k: Key, i: nat) returns (j: nat)
    requires i < n <= |log| && Touches(log[i], k)
    ensures i <= j < n && LastOfItsKey(log, n, j) && Touches(log[j], k)
  {
    j := n - 1;
    if !Touches(log[j], k) {
      j := LastToucher(log, n - 1, k, i);
      StaysLast(log, n, j, k);
    }
  }

  lemma StaysLast(log: seq<Entry>, n: nat, j: nat, k: Key)
    requires j + 1 < n <= |log| && LastOfItsKey(log, n - 1, j) && Touches(log[j], k) && !Touches(log[n - 1], k)
    ensures LastOfItsKey(log, n, j)
  {
    assert Op(log[j]).value.key == k;
    forall i | j < i < n ensures !Touches(log[i], k) { assert i < n - 1 || i == n - 1; }
  }

  /** Replaying a log leaves under a key what its last writer wrote. */
  lemma {:induction false} ReplayAtLast(m: Disk, log: seq<Entry>, n: nat, j: nat)
    requires j < n <= |log| && LastOfItsKey(log, n, j)
    ensures Holds(Replay(m, log[..n]), log[j])
  {
    assert log[..n][..n - 1] == log[..n - 1];
    if j < n - 1 {
      ReplayAtLast(m, log, n - 1, j);
      ApplyEntryAt(Replay(m, log[..n - 1]), m, log[n - 1], Op(log[j]).value.key);
    }
  }

  lemma KeyFromInv(m: Disk, log: seq<Entry>, s: Pipeline, k: Key)
    requires Committed(log) && ReplayInv(m, log, s) && s.high <= s.next && !Reserved(k)
    ensures Lookup(s.a.disk, k) == Lookup(Replay(m, log[..s.next]), k)
            <==> forall j :: j in s.skipped && j < s.next && LastOfItsKey(log, s.next, j) && Touches(log[j], k) ==>
                   Holds(s.a.disk, log[j])
  {
    var n := s.next;
    forall j | 0 <= j < n && LastOfItsKey(log, n, j) ensures Holds(Replay(m, log[..n]), log[j]) {
      ReplayAtLast(m, log, n, j);
    }
    if Touched(log[..n], k) {
      var i :| 0 <= i < n && Touches(log[..n][i], k);
      var last := LastToucher(log, n, k, i);
    } else {
      if Touched(log[..s.high], k) { TouchedMonotone(log, s.high, n, k); }
      ReplayUntouched(m, log[..n], k);
      forall j | 0 <= j < n ensures !Touches(log[j], k) { assert log[..n][j] == log[j]; }
    }
  }

  /**
   * One key, whatever writes were refused so far: it is as in the replayed log unless its last writer among the
   * consumed entries was skipped, and then exactly if the store happens to hold that writer's value anyway.
   */
  lemma KeyExact(m: Disk, log: seq<Entry>, evs: seq<Event>, s: Pipeline, k: Key)
    requires Reaches(m, log, evs, s) && s.high <= s.next && !Reserved(k)
    ensures s.next <= |log|
    ensures Lookup(s.a.disk, k) == Lookup(Replay(m, log[..s.next]), k)
            <==> forall j :: j in s.skipped && j < s.next && LastOfItsKey(log, s.next, j) && Touches(log[j], k) ==>
                   Holds(s.a.disk, log[j])
  {
    RunsKeepInv(m, log, evs);
    KeyFromInv(m, log, s, k);
  }

  /**
   * The store after refused writes, exactly. A refused write makes the running process move past committed entries
   * for good: the failing one, or all those of a Ready whose persistence failed. However many were refused, and
   * whatever was delivered since, once redelivery is back at or past the furthest index ever consumed the user
   * keys equal the committed log replayed if and only if, for every skipped entry that no later consumed entry
   * overwrites, the store already holds what it would have written.
   */
  lemma RefusedWritesExact(m: Disk, log: seq<Entry>, evs: seq<Event>, s: Pipeline)
    requires Reaches(m, log, evs, s) && s.high <= s.next
    ensures s.next <= |log|
    ensures UserView(s.a.disk) == UserView(Replay(m, log[..s.next]))
            <==> forall j :: j in s.skipped && j < s.next && LastOfItsKey(log, s.next, j) ==> Holds(s.a.disk, log[j])
  {
    RunsKeepInv(m, log, evs);
    var replayed := Replay(m, log[..s.next]);
    if UserView(s.a.disk) == UserView(replayed) {
      forall j | j in s.skipped && j < s.next && LastOfItsKey(log, s.next, j) ensures Holds(s.a.disk, log[j]) {
        var k := Op(log[j]).value.key;
        assert log[j] in log;
        UserViewLookup(s.a.disk, replayed, k);
        KeyFromInv(m, log, s, k);
      }
    }
    if forall j :: j in s.skipped && j < s.next && LastOfItsKey(log, s.next, j) ==> Holds(s.a.disk, log[j]) {
      forall k | !Reserved(k) ensures Lookup(s.a.disk, k) == Lookup(replayed, k) { KeyFromInv(m, log, s, k); }
      SameUserView(s.a.disk, replayed);
    }
  }

  /** A process that has caught up with the furthest point ever reached, and has skipped nothing. */
  predicate CaughtUp(s: Pipeline) {
    s.skipped == {} && s.high <= s.next
  }

  /**
   * Crash-replay refinement. Nothing records how far the store has got, and every restart applies the log from
   * index 1 again on top of it; still, whenever redelivery is back at or past the furthest index ever consumed,
   * the user keys are exactly the committed log replayed once over the initial store. Writes refused to earlier
   * processes do not matter: their entries have been delivered again.
   */
  lemma CrashReplay(m: Disk, log: seq<Entry>, evs: seq<Event>, s: Pipeline)
    requires Reaches(m, log, evs, s) && CaughtUp(s)
    ensures s.next <= |log| && UserView(s.a.disk) == UserView(Replay(m, log[..s.next]))
  {
    RefusedWritesExact(m, log, evs, s);
  }

  /** At any moment, also in the middle of a redelivery and after errors, only keys of that furthest prefix differ. */
  lemma OnlyConsumedKeysChange(m: Disk, log: seq<Entry>, evs: seq<Event>, s: Pipeline, k: Key)
    requires Reaches(m, log, evs, s) && !Reserved(k)
    ensures s.high <= |log|
    ensures Lookup(s.a.disk, k) != Lookup(m, k) ==> Touched(log[..s.high], k)
  {
    RunsKeepInv(m, log, evs);
  }

  /**
   * Replica agreement: two nodes that cut the same committed log into Readies and light Readies in any way, with
   * any crashes between, show the same user keys once they have caught up to the same index.
   */
  lemma ReplicaAgreement(
      log: seq<Entry>, m1: Disk, evs1: seq<Event>, s1: Pipeline, m2: Disk, evs2: seq<Event>, s2: Pipeline)
    requires Reaches(m1, log, evs1, s1) && Reaches(m2, log, evs2, s2)
    requires UserView(m1) == UserView(m2)
    requires CaughtUp(s1) && CaughtUp(s2) && s1.next == s2.next
    ensures UserView(s1.a.disk) == UserView(s2.a.disk)
  {
    CrashReplay(m1, log, evs1, s1);
    CrashReplay(m2, log, evs2, s2);
    RunsKeepInv(m1, log, evs1);
    ReplaySameView(m1, m2, log[..s1.next]);
  }

  lemma UserViewLookup(m: Disk, m': Disk, k: Key)
    requires UserView(m) == UserView(m') && !Reserved(k)
    ensures Lookup(m, k) == Lookup(m', k)
  {
    assert k in UserView(m) <==> k in m;
    assert k in UserView(m') <==> k in m';
    if k in m { assert UserView(m)[k] == UserView(m')[k]; }
  }

  lemma ReplaySameView(m: Disk, m': Disk, es: seq<Entry>)
    requires UserView(m) == UserView(m')
    ensures UserView(Replay(m, es)) == UserView(Replay(m', es))
  {
    forall k | !Reserved(k) ensures Lookup(Replay(m, es), k) == Lookup(Replay(m', es), k) {
      UserViewLookup(m, m', k);
      if Touched(es, k) {
        ReplayTouched(m, m', es, k);
      } else {
        ReplayUntouched(m, es, k);
        ReplayUntouched(m', es, k);
      }
    }
    SameUserView(Replay(m, es), Replay(m', es));
  }

  // ---------- a committed entry lost to a storage error ----------

  /** Delivering one committed entry in a Ready whose hard state is then refused. */
  lemma DropOneEntry(log: seq<Entry>, s: Pipeline, ready: Ready) returns (evs: seq<Event>, t: Pipeline)
    requires s.stage.Idle? && s.next == s.delivered
    requires ready.entries == [] && ready.hs.Some? && |ready.committed| == 1
    requires NextCommitted(log, s.delivered, s.stable, ready.committed)
    ensures Exec(log, s, evs) == Some(t)
    ensures t == s.(stage := Idle, stable := t.stable, delivered := s.delivered + 1, next := s.delivered + 1,
                    skipped := s.skipped + {s.delivered}, taken := s.taken + 1, failed := s.failed + {s.taken + 1})
  {
    assert s.stable - Indices(ready.entries) == s.stable;
    evs, t := ExecNext(log, s, [], s, TakeReady(ready));
    evs, t := ExecNext(log, s, evs, t, FinishAppend);
    evs, t := ExecNext(log, s, evs, t, SaveHardState(false));
    assert s.a.(entries := s.a.entries + []) == s.a;
    assert Positions(s.delivered, s.delivered + 1) == {s.delivered};
  }

  /** A first start: nothing is delivered yet, and raft-rs knows what the disk holds. */
  lemma FirstStart(m: Disk, log: seq<Entry>, start: Start, e: Entry) returns (s: Pipeline)
    requires Loadable(m) && start.io && At(m, e.index) == Some(e)
    ensures Exec(log, Initial(m), [Event.Restart(start)]) == Some(s)
    ensures s.stage.Idle? && s.next == s.delivered == s.high == 0 && s.skipped == {}
    ensures e.index in s.stable && s.stable[e.index] == e
    ensures forall k :: !Reserved(k) ==> Lookup(s.a.disk, k) == Lookup(m, k)
  {
    InitialInv(m, log);
    RestartDisk(log, Initial(m), start);
    RestartStable(log, Initial(m), start, e);
    var evs;
    evs, s := ExecNext(log, Initial(m), [], Initial(m), Event.Restart(start));
    assert evs == [Event.Restart(start)];
  }

  /** A process that has consumed the whole log changes no user key, whatever it does until it crashes. */
  lemma NothingLeftToApply(log: seq<Entry>, s: Pipeline, ev: Event)
    requires Committed(log) && DiskInv(log, s) && StageInv(log, s) && DeliveryInv(log, s) && Enabled(log, s, ev)
    requires s.next == |log| && ev != Crash
    ensures Step(log, s, ev).next == |log|
    ensures forall k :: !Reserved(k) ==> Lookup(Step(log, s, ev).a.disk, k) == Lookup(s.a.disk, k)
  {
    match ev
    case PutLogEntry(io) => if io { PutEntryAt(s.a.disk, s.stage.ready.entries[s.stage.puts]); }
    case Restart(start) => RestartDisk(log, s, start);
    case _ =>
  }

  lemma {:induction false} LossLasts(
      m: Disk, log: seq<Entry>, evs: seq<Event>, s: Pipeline, more: seq<Event>, t: Pipeline)
    requires Reaches(m, log, evs, s) && s.next == |log|
    requires Crash !in more && Exec(log, s, more) == Some(t)
    ensures t.next == |log|
    ensures forall k :: !Reserved(k) ==> Lookup(t.a.disk, k) == Lookup(s.a.disk, k)
  {
    if |more| > 0 {
      var front, ev := more[..|more| - 1], more[|more| - 1];
      var u := Exec(log, s, front).value;
      assert ev in more && Crash !in front;
      LossLasts(m, log, evs, s, front, u);
      ExecConcat(log, Initial(m), evs, front);
      RunsKeepInv(m, log, evs + front);
      NothingLeftToApply(log, u, ev);
    }
  }

  /**
   * Such a loss does happen: on a node whose log already holds one committed Put, the hard state of the Ready
   * that delivers it cannot be saved. The node is at index 1, its store lacks the key, and that stays so through
   * everything the process may still do; only a restart delivers the entry again.
   */
  lemma LostCommittedEntry(m: Disk, key: Key, value: Value, start: Start) returns (evs: seq<Event>, s: Pipeline)
    requires !Reserved(key) && key !in m && start.io && Loadable(m)
    requires At(m, 1) == Some(Entry(1, 1, 0, EncodeProposal(Put(key, value)), []))
    ensures var log := [Entry(1, 1, 0, EncodeProposal(Put(key, value)), [])];
            && Reaches(m, log, evs, s)
            && s.stage.Idle? && s.next == s.delivered == 1 && s.high <= s.next && s.skipped == {0}
            && key in Replay(m, log)
            && forall more, t :: Crash !in more && Exec(log, s, more) == Some(t) ==> key !in t.a.disk
  {
    var put := Entry(1, 1, 0, EncodeProposal(Put(key, value)), []);
    var log := [put];
    SinglePut(m, key, value);
    var s1 := FirstStart(m, log, start, put);
    var rest;
    rest, s := DropOneEntry(log, s1, Ready([], [], [], [put], Some(HardState(1, 1, 1))));
    evs := [Event.Restart(start)] + rest;
    ExecConcat(log, Initial(m), [Event.Restart(start)], rest);
    assert Lookup(s.a.disk, key) == Lookup(m, key);
    forall more, t | Crash !in more && Exec(log, s, more) == Some(t) ensures key !in t.a.disk {
      LossLasts(m, log, evs, s, more, t);
      assert Lookup(t.a.disk, key) == Lookup(s.a.disk, key);
    }
  }

  lemma SinglePut(m: Disk, key: Key, value: Value)
    requires !Reserved(key)
    ensures var log := [Entry(1, 1, 0, EncodeProposal(Put(key, value)), [])]; Committed(log) && key in Replay(m, log)
  {
    var log := [Entry(1, 1, 0, EncodeProposal(Put(key, value)), [])];
    ProposalRoundTrip(Put(key, value));
    assert Replay(m, log) == ApplyEntry(Replay(m, log[..0]), log[0]);
  }

  lemma {:induction false} ExecConcat(log: seq<Entry>, s: Pipeline, a: seq<Event>, b: seq<Event>)
    requires Exec(log, s, a).Some? && Exec(log, Exec(log, s, a).value, b).Some?
    ensures Exec(log, s, a + b) == Exec(log, Exec(log, s, a).value, b)
  {
    if |b| == 0 {
      assert a + b == a;
    } else {
      ExecConcat(log, s, a, b[..|b| - 1]);
      assert (a + b)[..|a + b| - 1] == a + b[..|b| - 1];
    }
  }

  /** A run extended by one step. */
  lemma ExecNext(log: seq<Entry>, s: Pipeline, evs: seq<Event>, t: Pipeline, ev: Event)
    returns (evs': seq<Event>, t': Pipeline)
    requires Exec(log, s, evs) == Some(t) && Enabled(log, t, ev)
    ensures evs' == evs + [ev] && t' == Step(log, t, ev)
    ensures Exec(log, s, evs') == Some(t')
  {
    evs', t' := evs + [ev], Step(log, t, ev);
    assert evs'[..|evs'| - 1] == evs;
  }

  /** After a start raft-rs knows every durable entry to be persisted. */
  lemma RestartStable(log: seq<Entry>, s: Pipeline, start: Start, e: Entry)
    requires DiskInv(log, s) && StageInv(log, s) && DeliveryInv(log, s) && Enabled(log, s, Event.Restart(start))
    requires start.io && At(s.a.disk, e.index) == Some(e)
    ensures var t := Step(log, s, Event.Restart(start)); e.index in t.stable && t.stable[e.index] == e
  {
    var m := s.a.disk;
    RecoveryIsDurableLog(m);
    var es := LoadEntries(m).value;
    OpenLoads(m, start, es, LoadHardState(m).value, LoadConfState(m).value);
    IncreasingLookup(es, e.index);
    LastAtIndices(es, e.index);
  }

  // ---------- durability ----------

  /**
   * Write-ahead discipline. Every set of messages ever returned belongs to a Ready that was advanced and whose
   * entries and hard state were on disk at that moment, the last entry put at an index counting; a Ready with a
   * failed write is never advanced and never answered.
   */
  lemma WriteAhead(m: Disk, log: seq<Entry>, evs: seq<Event>, s: Pipeline, i: nat)
    requires Reaches(m, log, evs, s) && i < |s.answers|
    ensures s.answers[i].number in s.advanced && s.answers[i].number !in s.failed
    ensures EntriesDurable(s.answers[i].disk, s.answers[i].ready.entries)
    ensures HardStateDurable(s.answers[i].disk, s.answers[i].ready.hs)
    ensures s.answers[i].ready.messages + s.answers[i].ready.persisted <= s.answers[i].messages
    ensures forall j :: 0 <= j < i ==> s.answers[j].number < s.answers[i].number
  {
    RunsKeepInv(m, log, evs);
    assert AnswerOk(s.answers[i]);
  }

  /** A refused log or hard-state write ends the call there: not advanced, nothing returned, now or later. */
  lemma FailedReadyIsNeverAnswered(
      m: Disk, log: seq<Entry>, evs: seq<Event>, s: Pipeline, ev: Event, more: seq<Event>, t: Pipeline)
    requires Reaches(m, log, evs, s) && Enabled(log, s, ev)
    requires ev == PutLogEntry(false) || (ev == SaveHardState(false) && s.stage.ready.hs.Some?)
    requires Exec(log, Step(log, s, ev), more) == Some(t)
    ensures s.taken !in t.advanced
    ensures forall i :: 0 <= i < |t.answers| ==> t.answers[i].number != s.taken
  {
    var evs', s' := ExecNext(log, Initial(m), evs, s, ev);
    ExecConcat(log, Initial(m), evs', more);
    RunsKeepInv(m, log, evs' + more);
    FailureIsRemembered(log, Step(log, s, ev), more, s.taken);
  }

  lemma {:induction false} FailureIsRemembered(log: seq<Entry>, s: Pipeline, evs: seq<Event>, n: nat)
    requires n in s.failed && Exec(log, s, evs).Some?
    ensures n in Exec(log, s, evs).value.failed
  {
    if |evs| > 0 { FailureIsRemembered(log, s, evs[..|evs| - 1], n); }
  }

  /** Every entry ever consumed, in this process or before any crash, is in the durable log, now and for good. */
  lemma AppliedIsDurable(m: Disk, log: seq<Entry>, evs: seq<Event>, s: Pipeline, j: nat)
    requires Reaches(m, log, evs, s) && j < s.high
    ensures j < |log| && At(s.a.disk, j + 1) == Some(log[j])
  {
    RunsKeepInv(m, log, evs);
  }

  /** A crashed node can always be started again: its records load, and the log it loads holds all it ever applied. */
  lemma RestartAlwaysLoads(m: Disk, log: seq<Entry>, evs: seq<Event>, s: Pipeline, start: Start)
    requires Reaches(m, log, evs, s) && s.stage.Down? && start.io
    ensures Open(s.a.disk, Some(start.voters), start.io).Some?
    ensures s.high <= |log|
    ensures forall j :: 0 <= j < s.high ==> log[j] in Open(s.a.disk, Some(start.voters), start.io).value.entries
  {
    RunsKeepInv(m, log, evs);
    var d := s.a.disk;
    RecoveryIsDurableLog(d);
    OpenLoads(d, start, LoadEntries(d).value, LoadHardState(d).value, LoadConfState(d).value);
    forall j | 0 <= j < s.high ensures log[j] in LoadEntries(d).value {
      assert At(d, j + 1) == Some(log[j]);
    }
  }
}
