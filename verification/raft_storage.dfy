/**
 * The durable log adapter (src/raft/storage.rs): an in-memory vector of entries beside the log records in the
 * store. `Adapter` is its value, the lemmas are about runs of its operations, the class is the code.
 */
module RaftStorage {
  import opened Wrappers
  import opened Bytes
  import opened OrderedStore
  import opened Codec
  import opened DurableLog

  datatype Adapter = Adapter(disk: Disk, entries: seq<Entry>, hard: HardState, conf: ConfState)

  datatype ReadError = Compacted | Unavailable

  /** No snapshot is ever taken, so its index and term stay 0. */
  const SNAPSHOT_INDEX: nat := 0
  const SNAPSHOT_TERM: nat := 0

  const U64: nat := 0x1_0000_0000_0000_0000

  // ---------- opening ----------

  /** `new_inner`: load everything; an empty voter list is filled in and stored. `io` answers that one put. */
  function Open(m: Disk, bootstrap: Option<seq<nat>>, io: bool): Option<Adapter> {
    match LoadHardState(m) case None => None case Some(hs) =>
    match LoadConfState(m) case None => None case Some(cs) =>
    match LoadEntries(m) case None => None case Some(es) =>
      if bootstrap.Some? && cs.voters == [] then
        var cs' := cs.(voters := bootstrap.value);
        if io then Some(Adapter(PutConfState(m, cs'), es, hs, cs')) else None
      else Some(Adapter(m, es, hs, cs))
  }

  ghost predicate Undecodable(m: Disk) {
    || (HARD_STATE_KEY in m && DecodeHardState(m[HARD_STATE_KEY]) == None)
    || (CONF_STATE_KEY in m && DecodeConfState(m[CONF_STATE_KEY]) == None)
    || exists k :: k in m && LOG_PREFIX <= k && DecodeEntry(m[k]) == None
  }

  predicate HasVoters(m: Disk) {
    && CONF_STATE_KEY in m && DecodeConfState(m[CONF_STATE_KEY]).Some?
    && DecodeConfState(m[CONF_STATE_KEY]).value.voters != []
  }

  /** Opening fails exactly on an undecodable record or a refused put of the voters that are missing. */
  lemma OpenFailsExactly(m: Disk, bootstrap: Option<seq<nat>>, io: bool)
    ensures Open(m, bootstrap, io) == None <==> Undecodable(m) || (bootstrap.Some? && !HasVoters(m) && !io)
  {
    RecoveryOutcome(m);
  }

  /** Otherwise it holds what is stored, with the voters filled in and stored if there were none. */
  lemma OpenYields(m: Disk, bootstrap: Option<seq<nat>>, io: bool)
    ensures Open(m, bootstrap, io).Some? ==>
              var b := Open(m, bootstrap, io).value;
              && LoadEntries(m) == Some(b.entries)
              && LoadHardState(m) == Some(b.hard)
              && LoadConfState(b.disk) == Some(b.conf)
              && (HasVoters(m) || bootstrap.None? ==> b.disk == m)
              && (!HasVoters(m) && bootstrap.Some? ==> b.conf.voters == bootstrap.value)
              && forall k :: k != CONF_STATE_KEY ==> Lookup(b.disk, k) == Lookup(m, k)
  {
    if LoadConfState(m).Some? && bootstrap.Some? {
      PutConfStateFrame(m, LoadConfState(m).value.(voters := bootstrap.value));
    }
  }

  /** A start of the process: the voters it is configured with, and whether storing them would succeed. */
  datatype Start = Start(voters: seq<nat>, io: bool)

  function StartOnce(m: Disk, s: Start): Disk {
    match Open(m, Some(s.voters), s.io) case None => m case Some(b) => b.disk
  }

  function DiskAfter(m: Disk, starts: seq<Start>): Disk
    decreases |starts|
  {
    if |starts| == 0 then m else DiskAfter(StartOnce(m, starts[0]), starts[1..])
  }

  function FirstNonEmpty(lists: seq<seq<nat>>): seq<nat> {
    if |lists| == 0 then [] else if lists[0] != [] then lists[0] else FirstNonEmpty(lists[1..])
  }

  /** The voter lists of the starts whose put goes through. */
  function Storable(starts: seq<Start>): seq<seq<nat>> {
    if |starts| == 0 then [] else (if starts[0].io then [starts[0].voters] else []) + Storable(starts[1..])
  }

  lemma FirstNonEmptyUnfold(v: seq<nat>, lists: seq<seq<nat>>)
    ensures FirstNonEmpty([v] + lists) == if v != [] then v else FirstNonEmpty(lists)
  {
    assert ([v] + lists)[1..] == lists;
  }

  lemma StartOnceEffect(m: Disk, s: Start)
    requires LoadHardState(m).Some? && LoadConfState(m).Some? && LoadEntries(m).Some?
    ensures LoadHardState(StartOnce(m, s)) == LoadHardState(m)
    ensures LoadEntries(StartOnce(m, s)) == LoadEntries(m)
    ensures var cs := LoadConfState(m).value;
            LoadConfState(StartOnce(m, s)) == Some(if cs.voters == [] && s.io then cs.(voters := s.voters) else cs)
  {
    PutConfStateFrame(m, LoadConfState(m).value.(voters := s.voters));
  }

  /**
   * Over any number of starts with any voter lists, the voters on disk are the first non-empty list among the
   * one found and those stored since, and the recovered log, hard state and learners never change.
   */
  lemma {:induction false} RestartStability(m: Disk, starts: seq<Start>)
    requires LoadHardState(m).Some? && LoadConfState(m).Some? && LoadEntries(m).Some?
    ensures LoadHardState(DiskAfter(m, starts)) == LoadHardState(m)
    ensures LoadEntries(DiskAfter(m, starts)) == LoadEntries(m)
    ensures LoadConfState(DiskAfter(m, starts))
            == var cs := LoadConfState(m).value;
               Some(cs.(voters := FirstNonEmpty([cs.voters] + Storable(starts))))
    decreases |starts|
  {
    var cs := LoadConfState(m).value;
    FirstNonEmptyUnfold(cs.voters, Storable(starts));
    if |starts| > 0 {
      var s, rest := starts[0], starts[1..];
      StartOnceEffect(m, s);
      RestartStability(StartOnce(m, s), rest);
      FirstNonEmptyUnfold(s.voters, Storable(rest));
      FirstNonEmptyUnfold(cs.voters, Storable(rest));
      assert !s.io ==> Storable(starts) == Storable(rest);
    }
  }

  // ---------- runs of the adapter ----------

  /** `puts` tells how many puts of an append succeed: all of them, or the one after fails and so does the call. */
  datatype AdapterEvent =
    | Append(batch: seq<Entry>, puts: nat)
    | SaveHard(hs: HardState, io: bool)
    | SaveConf(cs: ConfState, io: bool)
    | Reopen(start: Start)

  /** A start that fails leaves the disk as it was; the next event is then another start. */
  function AdapterStep(a: Adapter, ev: AdapterEvent): Adapter {
    match ev
    case Append(batch, puts) =>
      if puts < |batch| then a.(disk := PutEntries(a.disk, batch[..puts]))
      else a.(disk := PutEntries(a.disk, batch), entries := a.entries + batch)
    case SaveHard(hs, io) => if io then a.(disk := PutHardState(a.disk, hs), hard := hs) else a
    case SaveConf(cs, io) => if io then a.(disk := PutConfState(a.disk, cs), conf := cs) else a
    case Reopen(start) =>
      match Open(a.disk, Some(start.voters), start.io)
      case None => a
      case Some(b) => b
  }

  function FirstIndex(es: seq<Entry>): nat {
    if |es| == 0 then SNAPSHOT_INDEX + 1 else es[0].index
  }

  function LastIndex(es: seq<Entry>): nat {
    if |es| == 0 then SNAPSHOT_INDEX else es[|es| - 1].index
  }

  /** Appends start right after the last index. Everything else is unrestricted. */
  ghost predicate AppendsInPlace(a: Adapter, ev: AdapterEvent) {
    ev.Append? ==> Consecutive(ev.batch, LastIndex(a.entries) + 1)
  }

  ghost function AdapterExec(a: Adapter, evs: seq<AdapterEvent>): Option<Adapter> {
    if |evs| == 0 then Some(a) else
      match AdapterExec(a, evs[..|evs| - 1])
      case None => None
      case Some(b) => if AppendsInPlace(b, evs[|evs| - 1]) then Some(AdapterStep(b, evs[|evs| - 1])) else None
  }

  /**
   * Memory and disk describe one log numbered from 1: recovery succeeds and yields the cached entries, possibly
   * followed by entries an append has put without completing.
   */
  ghost predicate OneLog(a: Adapter) {
    && Canonical(a.disk)
    && Consecutive(a.entries, 1)
    && LoadEntries(a.disk).Some?
    && Consecutive(LoadEntries(a.disk).value, 1)
    && a.entries <= LoadEntries(a.disk).value
    && LoadHardState(a.disk) == Some(a.hard)
    && LoadConfState(a.disk) == Some(a.conf)
  }

  lemma PutEntriesKeepsStates(m: Disk, es: seq<Entry>)
    ensures LoadHardState(PutEntries(m, es)) == LoadHardState(m)
    ensures LoadConfState(PutEntries(m, es)) == LoadConfState(m)
  {
    PutEntriesAt(m, es);
    ReservedKeysApart();
    assert Lookup(PutEntries(m, es), HARD_STATE_KEY) == Lookup(m, HARD_STATE_KEY);
    assert Lookup(PutEntries(m, es), CONF_STATE_KEY) == Lookup(m, CONF_STATE_KEY);
  }

  lemma AppendKeepsOneLog(a: Adapter, batch: seq<Entry>, puts: nat)
    requires OneLog(a) && Consecutive(batch, LastIndex(a.entries) + 1)
    ensures OneLog(AdapterStep(a, Append(batch, puts)))
  {
    var part := if puts < |batch| then batch[..puts] else batch;
    var r, base := LoadEntries(a.disk).value, |a.entries|;
    AppendRecovery(a.disk, r, base, part);
    PutEntriesKeepsStates(a.disk, part);
    assert r[..base] == a.entries;
    OverwriteExtends(r, base, part);
  }

  lemma OverwriteExtends(r: seq<Entry>, base: nat, batch: seq<Entry>)
    requires base <= |r|
    ensures r[..base] <= Overwrite(r, base, batch)
    ensures r[..base] + batch <= Overwrite(r, base, batch)
  {
  }

  /** A start of an adapter whose records all load: it loads them, and only the voters may be filled in. */
  lemma OpenLoads(m: Disk, start: Start, es: seq<Entry>, hs: HardState, cs: ConfState)
    requires LoadEntries(m) == Some(es) && LoadHardState(m) == Some(hs) && LoadConfState(m) == Some(cs)
    ensures Open(m, Some(start.voters), start.io)
            == var filled := cs.(voters := start.voters);
               if cs.voters != [] then Some(Adapter(m, es, hs, cs))
               else if start.io then Some(Adapter(PutConfState(m, filled), es, hs, filled))
               else None
  {
  }

  lemma RestartKeepsOneLog(a: Adapter, start: Start)
    requires OneLog(a)
    ensures OneLog(AdapterStep(a, Reopen(start)))
  {
    OpenLoads(a.disk, start, LoadEntries(a.disk).value, a.hard, a.conf);
    if a.conf.voters == [] && start.io { PutConfStateFrame(a.disk, a.conf.(voters := start.voters)); }
  }

  lemma StepKeepsOneLog(a: Adapter, ev: AdapterEvent)
    requires OneLog(a) && AppendsInPlace(a, ev)
    ensures OneLog(AdapterStep(a, ev))
  {
    match ev
    case Append(batch, puts) => AppendKeepsOneLog(a, batch, puts);
    case SaveHard(hs, io) => PutHardStateFrame(a.disk, hs);
    case SaveConf(cs, io) => PutConfStateFrame(a.disk, cs);
    case Reopen(start) => RestartKeepsOneLog(a, start);
  }

  lemma EmptyLogLoads(m: Disk)
    requires NoLog(m)
    ensures LoadEntries(m) == Some([])
  {
    NoLogIsEmptyLog(m);
    RecoveryIsDurableLog(m);
    SameElementsSameSequence(LoadEntries(m).value, []);
  }

  /** A start on a store without Raft records. */
  lemma FreshStore(m: Disk, start: Start)
    requires NoLog(m) && HARD_STATE_KEY !in m && CONF_STATE_KEY !in m && start.io
    ensures Open(m, Some(start.voters), start.io).Some?
    ensures OneLog(Open(m, Some(start.voters), start.io).value)
    ensures var a := Open(m, Some(start.voters), start.io).value;
            && a.entries == [] && a.hard == HardState(0, 0, 0) && a.conf == ConfState(start.voters, [])
            && LoadConfState(a.disk) == Some(ConfState(start.voters, []))
  {
    NoLogIsEmptyLog(m);
    EmptyLogLoads(m);
    OpenLoads(m, start, [], DEFAULT_HARD_STATE, DEFAULT_CONF_STATE);
    PutConfStateFrame(m, ConfState(start.voters, []));
  }

  /**
   * In every state reached by contiguous appends (completed, or stopped by a crash or an error after any number
   * of puts), saves and restarts, memory and disk describe one log.
   */
  lemma {:induction false} RunsKeepOneLog(a: Adapter, evs: seq<AdapterEvent>)
    requires OneLog(a) && AdapterExec(a, evs).Some?
    ensures OneLog(AdapterExec(a, evs).value)
  {
    if |evs| > 0 {
      var front, ev := evs[..|evs| - 1], evs[|evs| - 1];
      RunsKeepOneLog(a, front);
      StepKeepsOneLog(AdapterExec(a, front).value, ev);
    }
  }

  /**
   * So in each of those states a restart succeeds unless its own put fails, and the cache is exactly what it
   * would load if and only if no record is stored at the next index.
   */
  lemma RestartAfterAnyRun(a: Adapter, evs: seq<AdapterEvent>, b: Adapter, start: Start)
    requires OneLog(a) && AdapterExec(a, evs) == Some(b)
    ensures start.io ==> Open(b.disk, Some(start.voters), start.io).Some?
    ensures LoadEntries(b.disk) == Some(b.entries) <==> LogKey(LastIndex(b.entries) + 1) !in b.disk
  {
    RunsKeepOneLog(a, evs);
    RestartLoads(b, start);
    NoStaleTail(b);
  }

  lemma RestartLoads(b: Adapter, start: Start)
    requires OneLog(b)
    ensures start.io ==> Open(b.disk, Some(start.voters), start.io).Some?
  {
    OpenLoads(b.disk, start, LoadEntries(b.disk).value, b.hard, b.conf);
  }

  lemma NoStaleTail(b: Adapter)
    requires OneLog(b)
    ensures LoadEntries(b.disk) == Some(b.entries) <==> LogKey(LastIndex(b.entries) + 1) !in b.disk
  {
    var r, next := LoadEntries(b.disk).value, LastIndex(b.entries) + 1;
    RecoveryIsDurableLog(b.disk);
    ContiguousAt(b.disk, r, next);
    AtOwnIndex(b.disk, next);
    assert |r| == |b.entries| ==> r == b.entries;
  }

  // ---------- appends of any batches ----------

  /** Completed appends, whatever their indices. */
  function AppendAll(a: Adapter, batches: seq<seq<Entry>>): Adapter {
    if |batches| == 0 then a else
      var b := AppendAll(a, batches[..|batches| - 1]);
      AdapterStep(b, Append(batches[|batches| - 1], |batches[|batches| - 1]|))
  }

  lemma {:induction false} AppendAllPushes(a: Adapter, batches: seq<seq<Entry>>)
    requires a.entries == []
    ensures AppendAll(a, batches).disk == PutEntries(a.disk, AppendAll(a, batches).entries)
  {
    if |batches| > 0 {
      var b := AppendAll(a, batches[..|batches| - 1]);
      AppendAllPushes(a, batches[..|batches| - 1]);
      PutEntriesConcat(a.disk, b.entries, batches[|batches| - 1]);
    }
  }

  function Concat(batches: seq<seq<Entry>>): seq<Entry> {
    if |batches| == 0 then [] else Concat(batches[..|batches| - 1]) + batches[|batches| - 1]
  }

  lemma {:induction false} AppendAllCaches(a: Adapter, batches: seq<seq<Entry>>)
    ensures AppendAll(a, batches).entries == a.entries + Concat(batches)
  {
    if |batches| > 0 {
      var front, last := batches[..|batches| - 1], batches[|batches| - 1];
      AppendAllCaches(a, front);
      assert a.entries + (Concat(front) + last) == (a.entries + Concat(front)) + last;
    }
  }

  /**
   * After any completed appends to an empty log, the cache holds the batches end to end, and recovery returns the
   * cached vector exactly when the cached indices are strictly increasing.
   */
  lemma AppendsRecoverExactly(a: Adapter, batches: seq<seq<Entry>>)
    requires NoLog(a.disk) && a.entries == []
    ensures AppendAll(a, batches).entries == Concat(batches)
    ensures LoadEntries(AppendAll(a, batches).disk) == Some(AppendAll(a, batches).entries)
            <==> Increasing(AppendAll(a, batches).entries)
  {
    AppendAllPushes(a, batches);
    AppendAllCaches(a, batches);
    RecoveryExact(a.disk, AppendAll(a, batches).entries);
  }

  /**
   * And lookups in the cache agree with lookups after a restart, at every index, exactly when the first and the
   * last entry pushed at each index are the same; in particular when the indices are strictly increasing.
   */
  lemma AppendsLookupAgreement(a: Adapter, batches: seq<seq<Entry>>)
    requires NoLog(a.disk) && a.entries == []
    ensures var b := AppendAll(a, batches); var r := LoadEntries(b.disk);
            && r.Some?
            && ((forall i :: FirstAt(b.entries, i) == FirstAt(r.value, i))
                <==> (forall i :: FirstAt(b.entries, i) == LastAt(b.entries, i)))
            && (Increasing(b.entries) ==> forall i :: FirstAt(b.entries, i) == FirstAt(r.value, i))
  {
    AppendAllPushes(a, batches);
    var es := AppendAll(a, batches).entries;
    LookupAgreement(a.disk, es);
    if Increasing(es) {
      forall i ensures FirstAt(es, i) == LastAt(es, i) { IncreasingLookup(es, i); }
    }
  }

  // ---------- reads ----------

  function Term(es: seq<Entry>, idx: nat): Result<nat, ReadError> {
    if idx == SNAPSHOT_INDEX then Ok(SNAPSHOT_TERM)
    else if idx < SNAPSHOT_INDEX then Err(Compacted)
    else match FirstAt(es, idx) case None => Err(Unavailable) case Some(e) => Ok(e.term)
  }

  /**
   * On any cache: `term` is 0 at index 0, elsewhere that of the first entry with the index, and unavailable, never
   * compacted, if there is none; the ends are those of the vector, or 1 and 0.
   */
  lemma ReadsOfAnyCache(es: seq<Entry>, idx: nat)
    ensures Term(es, 0) == Ok(0)
    ensures idx > 0 && (forall j :: 0 <= j < |es| ==> es[j].index != idx) ==> Term(es, idx) == Err(Unavailable)
    ensures forall j ::
              0 <= j < |es| && es[j].index == idx && idx > 0 && (forall k :: 0 <= k < j ==> es[k].index != idx) ==>
                Term(es, idx) == Ok(es[j].term)
    ensures es == [] ==> FirstIndex(es) == 1 && LastIndex(es) == 0
    ensures es != [] ==> FirstIndex(es) == es[0].index && LastIndex(es) == es[|es| - 1].index
  {
    FirstAtIsFirst(es, idx);
  }

  /** The cached entries with index in `low..high`, in cache order. */
  function InRange(es: seq<Entry>, low: nat, high: nat): seq<Entry> {
    if |es| == 0 then [] else
      InRange(es[..|es| - 1], low, high) + (if low <= es[|es| - 1].index < high then [es[|es| - 1]] else [])
  }

  function Size(e: Entry): nat {
    |EncodeEntry(e)|
  }

  /** The entries as they are encoded, end to end. */
  function Encoded(es: seq<Entry>): seq<byte> {
    if |es| == 0 then [] else Encoded(es[..|es| - 1]) + EncodeEntry(es[|es| - 1])
  }

  lemma {:induction false} TotalSizeEncoded(es: seq<Entry>)
    ensures TotalSize(es) == |Encoded(es)|
  {
    if |es| > 0 { TotalSizeEncoded(es[..|es| - 1]); }
  }

  function TotalSize(es: seq<Entry>): nat {
    if |es| == 0 then 0 else TotalSize(es[..|es| - 1]) + Size(es[|es| - 1])
  }

  /**
   * What a size-bounded read of `slice` must return: nothing to read is an error; otherwise a non-empty prefix,
   * within the bound unless it is a single entry, that could not be one entry longer.
   */
  ghost predicate BoundedRead(slice: seq<Entry>, max: Option<nat>, r: Result<seq<Entry>, ReadError>) {
    if |slice| == 0 then r == Err(Unavailable) else
      && r.Ok?
      && 0 < |r.value|
      && r.value <= slice
      && (max.None? ==> r.value == slice)
      && (max.Some? && 1 < |r.value| ==> TotalSize(r.value) <= max.value)
      && (max.Some? && |r.value| < |slice| ==> TotalSize(slice[..|r.value| + 1]) > max.value)
  }

  lemma {:induction false} TotalSizeMonotone(es: seq<Entry>, i: nat, j: nat)
    requires i <= j <= |es|
    ensures TotalSize(es[..i]) <= TotalSize(es[..j])
  {
    if i < j {
      assert es[..j][..j - 1] == es[..j - 1];
      TotalSizeMonotone(es, i, j - 1);
    }
  }

  lemma {:induction false} InRangePrefix(es: seq<Entry>, n: nat, low: nat, high: nat)
    requires n <= |es|
    ensures InRange(es[..n], low, high) <= InRange(es, low, high)
  {
    if n < |es| {
      assert es[..|es| - 1][..n] == es[..n];
      InRangePrefix(es[..|es| - 1], n, low, high);
    } else {
      assert es[..n] == es;
    }
  }

  /** `InRange` keeps exactly the entries in range, one by one, in order. */
  lemma {:induction false} InRangeConcat(a: seq<Entry>, b: seq<Entry>, low: nat, high: nat)
    ensures InRange(a + b, low, high) == InRange(a, low, high) + InRange(b, low, high)
    ensures |a| == 1 ==> InRange(a, low, high) == if low <= a[0].index < high then a else []
  {
    assert |a| == 1 ==> a[..0] == [];
    if |b| == 0 {
      assert a + b == a;
    } else {
      assert (a + b)[..|a + b| - 1] == a + b[..|b| - 1];
      InRangeConcat(a, b[..|b| - 1], low, high);
    }
  }

  function Clamp(n: int, top: nat): (r: nat)
    ensures r <= top
  {
    if n < 0 then 0 else if n <= top then n else top
  }

  lemma {:induction false} InRangeContiguous(es: seq<Entry>, first: nat, low: nat, high: nat)
    requires Consecutive(es, first) && first <= low <= high
    ensures InRange(es, low, high) == es[Clamp(low - first, |es|)..Clamp(high - first, |es|)]
  {
    if |es| > 0 {
      var front, last := es[..|es| - 1], es[|es| - 1];
      InRangeContiguous(front, first, low, high);
      var from, to := Clamp(low - first, |front|), Clamp(high - first, |front|);
      SliceSteps(es, from, to);
      assert last.index == first + |es| - 1;
      if low <= last.index < high { assert Clamp(high - first, |es|) == |es| && to == |es| - 1; }
    }
  }

  lemma SliceSteps<T>(s: seq<T>, from: nat, to: nat)
    requires from <= to < |s|
    ensures s[..|s| - 1][from..to] == s[from..to]
    ensures s[from..|s|] == s[from..|s| - 1] + [s[|s| - 1]]
  {
  }

  lemma BoundDecides(slice: seq<Entry>, max: nat, result: seq<Entry>, n: nat)
    requires 1 < n <= |slice| && 0 < |result| && result <= slice
    requires 1 < |result| ==> TotalSize(result) <= max
    requires |result| < |slice| ==> TotalSize(slice[..|result| + 1]) > max
    ensures n <= |result| <==> |Encoded(slice[..n])| <= max
  {
    TotalSizeEncoded(slice[..n]);
    if n <= |result| {
      assert result == slice[..|result|];
      TotalSizeMonotone(slice, n, |result|);
    } else {
      TotalSizeMonotone(slice, |result| + 1, n);
    }
  }

  /**
   * On a contiguous log a read of `low..high` returns the longest prefix of that slice (cut at the end of the
   * log) within the bound, its first entry in any case, and everything when there is no bound.
   */
  lemma RangeReadExact(
      es: seq<Entry>, first: nat, low: nat, high: nat, max: Option<nat>, r: Result<seq<Entry>, ReadError>)
    requires Consecutive(es, first) && first <= low < high && low < first + |es|
    requires BoundedRead(InRange(es, low, high), max, r)
    ensures var slice := es[low - first..if high < first + |es| then high - first else |es|];
            && r.Ok? && 0 < |r.value| && r.value <= slice
            && (max.None? ==> r.value == slice)
            && (max.Some? ==> forall n :: 1 < n <= |slice| ==> (n <= |r.value| <==> |Encoded(slice[..n])| <= max.value))
  {
    InRangeContiguous(es, first, low, high);
    var slice := InRange(es, low, high);
    if max.Some? {
      forall n | 1 < n <= |slice| ensures n <= |r.value| <==> |Encoded(slice[..n])| <= max.value {
        BoundDecides(slice, max.value, r.value, n);
      }
    }
  }

  lemma {:induction false} FirstAtContiguous(es: seq<Entry>, first: nat, i: nat)
    requires Consecutive(es, first)
    ensures FirstAt(es, i) == if first <= i < first + |es| then Some(es[i - first]) else None
  {
    if |es| > 0 && es[0].index != i { FirstAtContiguous(es[1..], first + 1, i); }
  }

  /**
   * All reads describe one log: with RunsKeepOneLog, in every reachable state. `term` answers exactly for 0 and
   * first..=last, and a one-entry read carries that term, whatever the size bound.
   */
  lemma OneAbstractLog(es: seq<Entry>, i: nat, max: Option<nat>, r: Result<seq<Entry>, ReadError>)
    requires Consecutive(es, 1)
    requires BoundedRead(InRange(es, i, i + 1), max, r)
    ensures FirstIndex(es) == 1 && LastIndex(es) == |es|
    ensures Term(es, 0) == Ok(0)
    ensures Term(es, i).Ok? <==> i == 0 || FirstIndex(es) <= i <= LastIndex(es)
    ensures r.Ok? <==> FirstIndex(es) <= i <= LastIndex(es)
    ensures r.Ok? ==> |r.value| == 1 && r.value[0].index == i && Term(es, i) == Ok(r.value[0].term)
  {
    FirstAtContiguous(es, 1, i);
    if i == 0 {
      NothingInRange(es, 0, 1);
    } else {
      InRangeContiguous(es, 1, i, i + 1);
    }
  }

  lemma {:induction false} NothingInRange(es: seq<Entry>, low: nat, high: nat)
    requires forall j :: 0 <= j < |es| ==> !(low <= es[j].index < high)
    ensures InRange(es, low, high) == []
  {
    if |es| > 0 { NothingInRange(es[..|es| - 1], low, high); }
  }

  /** Addition as a u64 does it. */
  function AddU64(a: nat, b: nat): (c: nat)
    ensures c < U64
    ensures a + b < U64 ==> c == a + b
  {
    (a + b) % U64
  }

  /** The total size as a u64 running total adds it up. */
  function RunningTotal(es: seq<Entry>): nat {
    if |es| == 0 then 0 else AddU64(RunningTotal(es[..|es| - 1]), Size(es[|es| - 1]))
  }

  lemma AddWraps(a: nat, b: nat)
    ensures AddU64(a % U64, b) == (a + b) % U64
  {
  }

  /** Whatever the sizes, the running total is the encoded length as a u64. */
  lemma {:induction false} RunningTotalWraps(es: seq<Entry>)
    ensures RunningTotal(es) == |Encoded(es)| % U64
  {
    if |es| > 0 {
      RunningTotalWraps(es[..|es| - 1]);
      AddWraps(|Encoded(es[..|es| - 1])|, Size(es[|es| - 1]));
    }
  }

  /** Each running total past the first entry, as a u64, is within the bound. */
  predicate Within(es: seq<Entry>, max: Option<nat>) {
    max.None? || |es| <= 1 || (RunningTotal(es) <= max.value && Within(es[..|es| - 1], max))
  }

  /**
   * What `entries` returns, whatever the sizes: an error if nothing is in range; otherwise the entries in range, cut
   * before the first one (but not the first of all) that would take the u64 running total above the bound.
   */
  ghost predicate WrappingRead(slice: seq<Entry>, max: Option<nat>, r: Result<seq<Entry>, ReadError>) {
    if |slice| == 0 then r == Err(Unavailable) else
      && r.Ok?
      && 0 < |r.value|
      && r.value <= slice
      && (max.None? ==> r.value == slice)
      && Within(r.value, max)
      && (max.Some? && |r.value| < |slice| ==> RunningTotal(slice[..|r.value| + 1]) > max.value)
  }

  lemma {:induction false} RunningTotalExact(es: seq<Entry>)
    requires TotalSize(es) < U64
    ensures RunningTotal(es) == TotalSize(es)
  {
    if |es| > 0 { RunningTotalExact(es[..|es| - 1]); }
  }

  lemma PartialFits(slice: seq<Entry>, n: nat)
    requires n <= |slice| && TotalSize(slice) < U64
    ensures RunningTotal(slice[..n]) == TotalSize(slice[..n])
  {
    TotalSizeMonotone(slice, n, |slice|);
    assert slice[..|slice|] == slice;
    RunningTotalExact(slice[..n]);
  }

  /** As long as the sizes in range add up to less than 2^64, the running total is exact, and so is the bound. */
  lemma WrappingReadFits(slice: seq<Entry>, max: Option<nat>, r: Result<seq<Entry>, ReadError>)
    requires WrappingRead(slice, max, r) && (max.None? || TotalSize(slice) < U64)
    ensures BoundedRead(slice, max, r)
  {
    if |slice| > 0 && max.Some? {
      assert r.value == slice[..|r.value|];
      PartialFits(slice, |r.value|);
      if |r.value| < |slice| { PartialFits(slice, |r.value| + 1); }
    }
  }

  // ---------- the code ----------

  /** The key, record and entry of each put, computed before the first one is made. */
  predicate Prepared(prepared: seq<(Key, seq<byte>, Entry)>, batch: seq<Entry>) {
    |prepared| == |batch|
    && forall j :: 0 <= j < |batch| ==> prepared[j] == (LogKey(batch[j].index), EncodeEntry(batch[j]), batch[j])
  }

  class RaftStorageAdapter {
    const kv: RocksDbStorage
    var entries: seq<Entry>
    var hard: HardState
    var conf: ConfState

    function View(): Adapter
      reads this, kv
    {
      Adapter(kv.db, entries, hard, conf)
    }

    constructor (kv: RocksDbStorage, hs: HardState, cs: ConfState, es: seq<Entry>)
      ensures this.kv == kv && hard == hs && conf == cs && entries == es
    {
      this.kv := kv;
      hard, conf, entries := hs, cs, es;
    }

    /** `new_inner`. */
    static method NewInner(kv: RocksDbStorage, bootstrap: Option<seq<nat>>, io: bool)
      returns (r: Option<RaftStorageAdapter>)
      modifies kv
      ensures r.Some? ==> fresh(r.value) && r.value.kv == kv
                          && Open(old(kv.db), bootstrap, io) == Some(r.value.View())
      ensures r.None? ==> Open(old(kv.db), bootstrap, io) == None && kv.db == old(kv.db)
    {
      var hs := LoadHardState(kv.db);
      if hs.None? { return None; }
      var cs := LoadConfState(kv.db);
      if cs.None? { return None; }
      var es := LoadLog(kv);
      if es.None? { return None; }
      if bootstrap.Some? && cs.value.voters == [] {
        var adapter := new RaftStorageAdapter(kv, hs.value, cs.value.(voters := bootstrap.value), es.value);
        var ok := adapter.SaveConfState(cs.value.(voters := bootstrap.value), io);
        if !ok { return None; }
        return Some(adapter);
      }
      var adapter := new RaftStorageAdapter(kv, hs.value, cs.value, es.value);
      r := Some(adapter);
    }

    /** `load_entries`: list by prefix, decode in key order, sort by index. */
    static method LoadLog(kv: RocksDbStorage) returns (r: Option<seq<Entry>>)
      ensures r == LoadEntries(kv.db)
    {
      var keys := kv.ListKeys(Some(LOG_PREFIX));
      var es := DecodeRecords(kv, keys);
      r := if es.None? then None else Some(SortByIndex(es.value));
    }

    static method DecodeRecords(kv: RocksDbStorage, keys: seq<Key>) returns (r: Option<seq<Entry>>)
      ensures r == DecodeAll(kv.db, keys)
    {
      var es := [];
      var i := 0;
      while i < |keys|
        invariant 0 <= i <= |keys|
        invariant DecodeAll(kv.db, keys[..i]) == Some(es)
      {
        assert keys[..i + 1][..i] == keys[..i];
        var data := kv.Get(keys[i]);
        if data.Some? {
          var e := DecodeEntry(data.value);
          if e.None? {
            DecodeAllStops(kv.db, keys, i + 1);
            return None;
          }
          es := es + [e.value];
        }
        i := i + 1;
      }
      assert keys[..|keys|] == keys;
      r := Some(es);
    }

    method SaveHardState(hs: HardState, io: bool) returns (ok: bool)
      modifies this, kv
      ensures ok == io
      ensures View() == AdapterStep(old(View()), SaveHard(hs, io))
      ensures ok ==> LoadHardState(kv.db) == Some(hs) && hard == hs
      ensures forall k :: k != HARD_STATE_KEY || !ok ==> Lookup(kv.db, k) == Lookup(old(kv.db), k)
    {
      PutHardStateFrame(kv.db, hs);
      ok := kv.Put(HARD_STATE_KEY, EncodeHardState(hs), io);
      if ok { hard := hs; }
    }

    method SaveConfState(cs: ConfState, io: bool) returns (ok: bool)
      modifies this, kv
      ensures ok == io
      ensures View() == AdapterStep(old(View()), SaveConf(cs, io))
      ensures ok ==> LoadConfState(kv.db) == Some(cs) && conf == cs
      ensures forall k :: k != CONF_STATE_KEY || !ok ==> Lookup(kv.db, k) == Lookup(old(kv.db), k)
    {
      PutConfStateFrame(kv.db, cs);
      ok := kv.Put(CONF_STATE_KEY, EncodeConfState(cs), io);
      if ok { conf := cs; }
    }

    /** Encode everything, put everything, and only then push everything onto the cache. */
    method AppendEntries(batch: seq<Entry>, puts: nat) returns (ok: bool)
      modifies this, kv
      ensures ok <==> |batch| <= puts
      ensures View() == AdapterStep(old(View()), Append(batch, puts))
      ensures entries == if ok then old(entries) + batch else old(entries)
      ensures var done := if ok then batch else batch[..puts];
              forall i :: At(kv.db, i) == if LastAt(done, i).Some? then LastAt(done, i) else At(old(kv.db), i)
      ensures forall k :: !(LOG_PREFIX <= k) ==> Lookup(kv.db, k) == Lookup(old(kv.db), k)
    {
      PutEntriesAt(kv.db, if |batch| <= puts then batch else batch[..puts]);
      var prepared := Prepare(batch);
      ok := PutPrepared(prepared, batch, puts);
      if !ok { return; }
      var i := 0;
      while i < |prepared|
        invariant 0 <= i <= |prepared|
        invariant entries == old(entries) + batch[..i]
        invariant kv.db == PutEntries(old(kv.db), batch) && hard == old(hard) && conf == old(conf)
      {
        entries := entries + [prepared[i].2];
        i := i + 1;
      }
      assert batch[..|batch|] == batch;
    }

    static method Prepare(batch: seq<Entry>) returns (prepared: seq<(Key, seq<byte>, Entry)>)
      ensures Prepared(prepared, batch)
    {
      prepared := [];
      var i := 0;
      while i < |batch|
        invariant 0 <= i <= |batch| && Prepared(prepared, batch[..i])
      {
        prepared := prepared + [(LogKey(batch[i].index), EncodeEntry(batch[i]), batch[i])];
        i := i + 1;
      }
    }

    method PutPrepared(prepared: seq<(Key, seq<byte>, Entry)>, ghost batch: seq<Entry>, puts: nat) returns (ok: bool)
      requires Prepared(prepared, batch)
      modifies kv
      ensures ok <==> |batch| <= puts
      ensures kv.db == PutEntries(old(kv.db), if ok then batch else batch[..puts])
    {
      var i := 0;
      while i < |prepared|
        invariant 0 <= i <= |prepared| && i <= puts
        invariant kv.db == PutEntries(old(kv.db), batch[..i])
      {
        assert batch[..i + 1][..i] == batch[..i];
        ok := kv.Put(prepared[i].0, prepared[i].1, i < puts);
        if !ok { return; }
        i := i + 1;
      }
      assert batch[..|batch|] == batch;
      ok := true;
    }

    /** `get_entry`: the first cached entry with that index. */
    method GetEntry(idx: nat) returns (r: Result<Entry, ReadError>)
      ensures r == match FirstAt(entries, idx) case None => Err(Unavailable) case Some(e) => Ok(e)
    {
      var i := 0;
      while i < |entries|
        invariant 0 <= i <= |entries|
        invariant FirstAt(entries, idx) == FirstAt(entries[i..], idx)
      {
        if entries[i].index == idx { return Ok(entries[i]); }
        assert entries[i..][1..] == entries[i + 1..];
        i := i + 1;
      }
      r := Err(Unavailable);
    }

    /** `term`. */
    method TermAt(idx: nat) returns (r: Result<nat, ReadError>)
      ensures r == Term(entries, idx)
    {
      if idx == SNAPSHOT_INDEX { return Ok(SNAPSHOT_TERM); }
      if idx < SNAPSHOT_INDEX { return Err(Compacted); }
      var entry := GetEntry(idx);
      r := match entry case Ok(e) => Ok(e.term) case Err(error) => Err(error);
    }

    method CachedFirstIndex() returns (i: nat)
      ensures i == FirstIndex(entries)
    {
      i := if |entries| == 0 then SNAPSHOT_INDEX + 1 else entries[0].index;
    }

    method CachedLastIndex() returns (i: nat)
      ensures i == LastIndex(entries)
    {
      i := if |entries| == 0 then SNAPSHOT_INDEX else entries[|entries| - 1].index;
    }

    /** `entries`: whatever the loop below collects, or an error if that is nothing. */
    method Entries(low: nat, high: nat, max: Option<nat>) returns (r: Result<seq<Entry>, ReadError>)
      ensures WrappingRead(InRange(entries, low, high), max, r)
    {
      var result := Collect(entries, low, high, max);
      r := if result == [] then Err(Unavailable) else Ok(result);
    }

    /** The total with one more entry, and whether the bound allows it. The first entry is always taken. */
    static method Fits(ghost result: seq<Entry>, totalSize: nat, entry: Entry, max: Option<nat>, empty: bool)
      returns (fits: bool, nextSize: nat)
      requires totalSize == RunningTotal(result) && Within(result, max) && empty == (|result| == 0)
      ensures nextSize == RunningTotal(result + [entry])
      ensures fits ==> Within(result + [entry], max)
      ensures !fits ==> max.Some? && |result| > 0 && nextSize > max.value
    {
      RunningTotalSnoc(result, entry);
      WithinSnoc(result, entry, max);
      nextSize := AddU64(totalSize, Size(entry));
      fits := max.None? || nextSize <= max.value || empty;
    }

    /** Collect matching entries until the next one would exceed the bound. */
    static method Collect(es: seq<Entry>, low: nat, high: nat, max: Option<nat>) returns (result: seq<Entry>)
      ensures WrappingRead(InRange(es, low, high), max, if result == [] then Err(Unavailable) else Ok(result))
    {
      result := [];
      var totalSize: nat := 0;
      var i := 0;
      while i < |es|
        invariant 0 <= i <= |es|
        invariant result == InRange(es[..i], low, high)
        invariant totalSize == RunningTotal(result) && Within(result, max)
      {
        InRangeSnoc(es, i, low, high);
        if low <= es[i].index < high {
          var fits, nextSize := Fits(result, totalSize, es[i], max, result == []);
          if !fits {
            InRangePrefix(es, i + 1, low, high);
            StopsEarly(InRange(es, low, high), result, es[i], max);
            return;
          }
          totalSize := nextSize;
          result := result + [es[i]];
        }
        i := i + 1;
      }
      assert es[..|es|] == es;
    }
  }

  lemma RunningTotalSnoc(es: seq<Entry>, e: Entry)
    ensures RunningTotal(es + [e]) == AddU64(RunningTotal(es), Size(e))
  {
    assert (es + [e])[..|es|] == es;
  }

  lemma WithinSnoc(result: seq<Entry>, e: Entry, max: Option<nat>)
    requires Within(result, max)
    ensures max.None? || |result| == 0 || RunningTotal(result + [e]) <= max.value ==> Within(result + [e], max)
  {
    assert (result + [e])[..|result|] == result;
  }

  /** The loop may stop at an entry that would exceed the bound. */
  lemma StopsEarly(slice: seq<Entry>, result: seq<Entry>, e: Entry, max: Option<nat>)
    requires |result| > 0 && result + [e] <= slice && Within(result, max)
    requires max.Some? && RunningTotal(result + [e]) > max.value
    ensures WrappingRead(slice, max, Ok(result))
  {
    assert slice[..|result| + 1] == result + [e];
  }

  lemma {:induction false} DecodeAllStops(m: Disk, keys: seq<Key>, n: nat)
    requires n <= |keys| && DecodeAll(m, keys[..n]) == None
    ensures DecodeAll(m, keys) == None
  {
    if n < |keys| {
      assert keys[..|keys| - 1][..n] == keys[..n];
      DecodeAllStops(m, keys[..|keys| - 1], n);
    } else {
      assert keys[..n] == keys;
    }
  }

  lemma InRangeSnoc(es: seq<Entry>, i: nat, low: nat, high: nat)
    requires i < |es|
    ensures InRange(es[..i + 1], low, high)
            == InRange(es[..i], low, high) + (if low <= es[i].index < high then [es[i]] else [])
  {
    assert es[..i + 1][..i] == es[..i];
  }
}
