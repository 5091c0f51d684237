/**
 * What the Raft records look like on disk and what recovery makes of them (src/raft/storage.rs): log entries
 * under `__raft_log_<decimal index>`, hard state and conf state under two fixed keys, user keys beside them.
 */
module DurableLog {
  import opened Wrappers
  import opened Bytes
  import opened OrderedStore
  import opened Codec

  const LOG_PREFIX: Key := Ascii("__raft_log_")
  const HARD_STATE_KEY: Key := Ascii("__raft_hard_state__")
  const CONF_STATE_KEY: Key := Ascii("__raft_conf_state__")

  function LogKey(index: nat): Key {
    LOG_PREFIX + Decimal(index)
  }

  /** The keys recovery looks at. */
  predicate Reserved(k: Key) {
    LOG_PREFIX <= k || k == HARD_STATE_KEY || k == CONF_STATE_KEY
  }

  lemma ReservedKeysApart()
    ensures !(LOG_PREFIX <= HARD_STATE_KEY) && !(LOG_PREFIX <= CONF_STATE_KEY) && HARD_STATE_KEY != CONF_STATE_KEY
  {
    assert LOG_PREFIX[7] == 'l' as int as byte;
    assert HARD_STATE_KEY[7] == 'h' as int as byte;
    assert CONF_STATE_KEY[7] == 'c' as int as byte;
  }

  lemma RaftPrefixReserved(k: Key)
    ensures Reserved(k) ==> Ascii("__raft_") <= k
  {
    assert Ascii("__raft_") == LOG_PREFIX[..7];
    assert Ascii("__raft_") == HARD_STATE_KEY[..7];
    assert Ascii("__raft_") == CONF_STATE_KEY[..7];
  }

  lemma LogKeyInjective(i: nat, j: nat)
    requires LogKey(i) == LogKey(j)
    ensures i == j
  {
    DecimalRoundTrip(i);
    DecimalRoundTrip(j);
    assert LogKey(i)[|LOG_PREFIX|..] == Decimal(i);
    assert LogKey(j)[|LOG_PREFIX|..] == Decimal(j);
  }

  /** A log key is `__raft_log_` and the index in decimal digits without a leading zero. */
  lemma LogKeyLayout(i: nat)
    ensures |LogKey(i)| > 11 && LogKey(i)[..11] == Ascii("__raft_log_")
    ensures FromDecimal(LogKey(i)[11..]) == i
    ensures forall j :: 11 <= j < |LogKey(i)| ==> '0' as int <= LogKey(i)[j] as int <= '9' as int
    ensures LogKey(i)[11] as int == '0' as int ==> i == 0 && |LogKey(i)| == 12
  {
    DecimalRoundTrip(i);
    DecimalDigits(i);
    assert LogKey(i)[11..] == Decimal(i);
    forall j | 11 <= j < |LogKey(i)| ensures LogKey(i)[j] == Decimal(i)[j - 11] {}
  }

  lemma LogKeyReserved(i: nat)
    ensures LOG_PREFIX <= LogKey(i)
    ensures LogKey(i) != HARD_STATE_KEY && LogKey(i) != CONF_STATE_KEY
  {
    ReservedKeysApart();
  }

  // ---------- recovery ----------

  function LoadHardState(m: Disk): Option<HardState> {
    if HARD_STATE_KEY in m then DecodeHardState(m[HARD_STATE_KEY]) else Some(DEFAULT_HARD_STATE)
  }

  function LoadConfState(m: Disk): Option<ConfState> {
    if CONF_STATE_KEY in m then DecodeConfState(m[CONF_STATE_KEY]) else Some(DEFAULT_CONF_STATE)
  }

  /** The entries under `keys`, in that order; None if a record does not decode. */
  function DecodeAll(m: Disk, keys: seq<Key>): Option<seq<Entry>> {
    if |keys| == 0 then Some([]) else
      match DecodeAll(m, keys[..|keys| - 1]) case None => None case Some(es) =>
      match Lookup(m, keys[|keys| - 1]) case None => Some(es) case Some(record) =>
      match DecodeEntry(record) case None => None case Some(e) => Some(es + [e])
  }

  function InsertByIndex(es: seq<Entry>, e: Entry): seq<Entry> {
    if |es| == 0 || es[|es| - 1].index <= e.index then es + [e]
    else InsertByIndex(es[..|es| - 1], e) + [es[|es| - 1]]
  }

  /** `sort_by_key(|e| e.index)`: stable. */
  function SortByIndex(es: seq<Entry>): seq<Entry> {
    if |es| == 0 then [] else InsertByIndex(SortByIndex(es[..|es| - 1]), es[|es| - 1])
  }

  function LoadEntries(m: Disk): Option<seq<Entry>> {
    match DecodeAll(m, KeysWithPrefix(m, LOG_PREFIX))
    case None => None
    case Some(es) => Some(SortByIndex(es))
  }

  // ---------- the durable log as an index ----------

  function At(m: Disk, i: nat): Option<Entry> {
    if LogKey(i) in m then DecodeEntry(m[LogKey(i)]) else None
  }

  /** Every record under the log prefix decodes, and lies under its own index. */
  ghost predicate Canonical(m: Disk) {
    forall k :: k in m && LOG_PREFIX <= k ==>
      DecodeEntry(m[k]).Some? && k == LogKey(DecodeEntry(m[k]).value.index)
  }

  ghost predicate Increasing(es: seq<Entry>) {
    forall i, j :: 0 <= i < j < |es| ==> es[i].index < es[j].index
  }

  function FirstAt(es: seq<Entry>, i: nat): Option<Entry> {
    if |es| == 0 then None else if es[0].index == i then Some(es[0]) else FirstAt(es[1..], i)
  }

  function LastAt(es: seq<Entry>, i: nat): Option<Entry> {
    if |es| == 0 then None else if es[|es| - 1].index == i then Some(es[|es| - 1]) else LastAt(es[..|es| - 1], i)
  }

  lemma {:induction false} FirstAtIsFirst(es: seq<Entry>, i: nat)
    ensures FirstAt(es, i) == None ==> forall j :: 0 <= j < |es| ==> es[j].index != i
    ensures FirstAt(es, i).Some? ==>
      exists j :: 0 <= j < |es| && es[j] == FirstAt(es, i).value && es[j].index == i
                  && forall k :: 0 <= k < j ==> es[k].index != i
  {
    if |es| > 0 && es[0].index != i {
      FirstAtIsFirst(es[1..], i);
      if FirstAt(es, i).Some? {
        var j :| 0 <= j < |es[1..]| && es[1..][j] == FirstAt(es[1..], i).value && es[1..][j].index == i
                 && forall k :: 0 <= k < j ==> es[1..][k].index != i;
        forall k | 0 <= k < j + 1 ensures es[k].index != i {
          if k > 0 { assert es[k] == es[1..][k - 1]; }
        }
        assert es[j + 1] == FirstAt(es, i).value;
      } else {
        forall j | 0 <= j < |es| ensures es[j].index != i {
          if j > 0 { assert es[j] == es[1..][j - 1]; }
        }
      }
    }
  }

  lemma {:induction false} LastAtIsLast(es: seq<Entry>, i: nat)
    ensures LastAt(es, i) == None ==> forall j :: 0 <= j < |es| ==> es[j].index != i
    ensures LastAt(es, i).Some? ==>
      exists j :: 0 <= j < |es| && es[j] == LastAt(es, i).value && es[j].index == i
                  && forall k :: j < k < |es| ==> es[k].index != i
  {
    if |es| > 0 && es[|es| - 1].index != i {
      var front := es[..|es| - 1];
      LastAtIsLast(front, i);
      if LastAt(es, i).Some? {
        var j :| 0 <= j < |front| && front[j] == LastAt(front, i).value && front[j].index == i
                 && forall k :: j < k < |front| ==> front[k].index != i;
        assert es[j] == LastAt(es, i).value;
        forall k | j < k < |es| ensures es[k].index != i {
          if k < |front| { assert es[k] == front[k]; }
        }
      } else {
        forall j | 0 <= j < |es| ensures es[j].index != i {
          if j < |front| { assert es[j] == front[j]; }
        }
      }
    }
  }

  /** In an increasing sequence an index occurs once, so first, last and membership coincide. */
  lemma IncreasingLookup(es: seq<Entry>, i: nat)
    requires Increasing(es)
    ensures FirstAt(es, i) == LastAt(es, i)
    ensures forall e: Entry :: e.index == i ==> (e in es <==> LastAt(es, i) == Some(e))
  {
    FirstAtIsFirst(es, i);
    LastAtIsLast(es, i);
  }

  lemma IncreasingMember(es: seq<Entry>, e: Entry)
    requires Increasing(es)
    ensures e in es <==> LastAt(es, e.index) == Some(e)
  {
    IncreasingLookup(es, e.index);
  }

  // ---------- recovery returns exactly the durable log ----------

  lemma {:induction false} InsertIncreasing(es: seq<Entry>, e: Entry)
    requires Increasing(es)
    requires forall x :: x in es ==> x.index != e.index
    ensures Increasing(InsertByIndex(es, e))
    ensures forall x :: x in InsertByIndex(es, e) <==> x in es || x == e
  {
    if |es| > 0 && es[|es| - 1].index > e.index {
      var front, last := es[..|es| - 1], es[|es| - 1];
      assert es == front + [last];
      InsertIncreasing(front, e);
      var inner := InsertByIndex(front, e);
      forall k | 0 <= k < |inner| ensures inner[k].index < last.index {
        assert inner[k] in inner;
      }
    } else if |es| > 0 {
      assert es[|es| - 1] in es;
    }
  }

  lemma {:induction false} SortIncreasing(es: seq<Entry>)
    requires forall i, j :: 0 <= i < j < |es| ==> es[i].index != es[j].index
    ensures Increasing(SortByIndex(es))
    ensures forall x :: x in SortByIndex(es) <==> x in es
  {
    if |es| > 0 {
      var front, last := es[..|es| - 1], es[|es| - 1];
      assert es == front + [last];
      SortIncreasing(front);
      forall x | x in SortByIndex(front) ensures x.index != last.index {
        var i :| 0 <= i < |front| && front[i] == x;
        assert es[i] == x;
      }
      InsertIncreasing(SortByIndex(front), last);
    }
  }

  ghost predicate Decodes(m: Disk, keys: seq<Key>, es: seq<Entry>) {
    |es| == |keys| && forall i :: 0 <= i < |keys| ==> keys[i] in m && DecodeEntry(m[keys[i]]) == Some(es[i])
  }

  lemma DecodesSnoc(m: Disk, keys: seq<Key>, es: seq<Entry>, e: Entry)
    requires |keys| > 0 && Decodes(m, keys[..|keys| - 1], es)
    requires keys[|keys| - 1] in m && DecodeEntry(m[keys[|keys| - 1]]) == Some(e)
    ensures Decodes(m, keys, es + [e])
  {
    forall i | 0 <= i < |keys| ensures keys[i] in m && DecodeEntry(m[keys[i]]) == Some((es + [e])[i]) {
      if i < |keys| - 1 { assert keys[..|keys| - 1][i] == keys[i]; }
    }
  }

  lemma {:induction false} DecodeAllExact(m: Disk, keys: seq<Key>)
    requires Canonical(m)
    requires forall i :: 0 <= i < |keys| ==> keys[i] in m && LOG_PREFIX <= keys[i]
    ensures DecodeAll(m, keys).Some? && Decodes(m, keys, DecodeAll(m, keys).value)
  {
    if |keys| > 0 {
      var front, last := keys[..|keys| - 1], keys[|keys| - 1];
      DecodeAllExact(m, front);
      var es, e := DecodeAll(m, front).value, DecodeEntry(m[last]).value;
      assert DecodeAll(m, keys) == Some(es + [e]);
      DecodesSnoc(m, keys, es, e);
    }
  }

  /** Whatever is stored: listing and decoding fails exactly on an undecodable record, else keeps every record. */
  lemma {:induction false} DecodeAllOutcome(m: Disk, keys: seq<Key>)
    requires forall i :: 0 <= i < |keys| ==> keys[i] in m
    ensures DecodeAll(m, keys).Some? <==> forall i :: 0 <= i < |keys| ==> DecodeEntry(m[keys[i]]).Some?
    ensures DecodeAll(m, keys).Some? ==> Decodes(m, keys, DecodeAll(m, keys).value)
  {
    if |keys| > 0 {
      var front, last := keys[..|keys| - 1], keys[|keys| - 1];
      DecodeAllOutcome(m, front);
      if DecodeAll(m, front).Some? && DecodeEntry(m[last]).Some? {
        DecodesSnoc(m, keys, DecodeAll(m, front).value, DecodeEntry(m[last]).value);
      } else if DecodeAll(m, front) == None {
        var i :| 0 <= i < |front| && DecodeEntry(m[front[i]]) == None;
        assert keys[i] == front[i];
      }
    }
  }

  ghost predicate Sorted(es: seq<Entry>) {
    forall i, j :: 0 <= i < j < |es| ==> es[i].index <= es[j].index
  }

  lemma {:induction false} InsertBounded(es: seq<Entry>, e: Entry, top: nat)
    requires e.index <= top && forall i :: 0 <= i < |es| ==> es[i].index <= top
    ensures forall i :: 0 <= i < |InsertByIndex(es, e)| ==> InsertByIndex(es, e)[i].index <= top
  {
    if |es| > 0 && es[|es| - 1].index > e.index { InsertBounded(es[..|es| - 1], e, top); }
  }

  lemma {:induction false} InsertKeepsOrder(es: seq<Entry>, e: Entry)
    requires Sorted(es)
    ensures Sorted(InsertByIndex(es, e))
  {
    if |es| > 0 && es[|es| - 1].index > e.index {
      InsertKeepsOrder(es[..|es| - 1], e);
      InsertBounded(es[..|es| - 1], e, es[|es| - 1].index);
    }
  }

  lemma {:induction false} InsertKeepsAll(es: seq<Entry>, e: Entry)
    ensures multiset(InsertByIndex(es, e)) == multiset(es) + multiset{e}
  {
    if |es| > 0 && es[|es| - 1].index > e.index {
      InsertKeepsAll(es[..|es| - 1], e);
      assert es == es[..|es| - 1] + [es[|es| - 1]];
    }
  }

  lemma {:induction false} SortKeepsAll(es: seq<Entry>)
    ensures Sorted(SortByIndex(es)) && multiset(SortByIndex(es)) == multiset(es)
  {
    if |es| > 0 {
      assert es == es[..|es| - 1] + [es[|es| - 1]];
      SortKeepsAll(es[..|es| - 1]);
      InsertKeepsOrder(SortByIndex(es[..|es| - 1]), es[|es| - 1]);
      InsertKeepsAll(SortByIndex(es[..|es| - 1]), es[|es| - 1]);
    }
  }

  /**
   * Recovery on any store, also one whose records were not written by this adapter: it fails exactly if a record
   * under the log prefix does not decode; otherwise it yields every decoded record, sorted by index.
   */
  lemma RecoveryOutcome(m: Disk)
    ensures LoadEntries(m).Some? <==> forall k :: k in m && LOG_PREFIX <= k ==> DecodeEntry(m[k]).Some?
    ensures LoadEntries(m).Some? ==>
              exists es :: Decodes(m, KeysWithPrefix(m, LOG_PREFIX), es)
                           && Sorted(LoadEntries(m).value) && multiset(LoadEntries(m).value) == multiset(es)
  {
    var keys := KeysWithPrefix(m, LOG_PREFIX);
    WithPrefixExact(SortedKeys(m.Keys), LOG_PREFIX);
    assert forall i :: 0 <= i < |keys| ==> keys[i] in keys;
    DecodeAllOutcome(m, keys);
    if LoadEntries(m).Some? { SortKeepsAll(DecodeAll(m, keys).value); }
  }

  /** `r` lists the durable log: in index order, each index once, nothing missing. */
  ghost predicate Lists(r: seq<Entry>, m: Disk) {
    Increasing(r) && forall e :: e in r <==> At(m, e.index) == Some(e)
  }

  lemma AtOwnIndex(m: Disk, i: nat)
    requires Canonical(m)
    ensures At(m, i).Some? <==> LogKey(i) in m
    ensures At(m, i).Some? ==> At(m, i).value.index == i
  {
    LogKeyReserved(i);
    if LogKey(i) in m { LogKeyInjective(i, DecodeEntry(m[LogKey(i)]).value.index); }
  }

  /** Before sorting: the decoded records are the durable log in key order, no index twice. */
  lemma ScannedRecords(m: Disk)
    requires Canonical(m)
    ensures var keys := KeysWithPrefix(m, LOG_PREFIX); var r := DecodeAll(m, keys);
            && Ascending(keys)
            && (forall k :: k in keys <==> k in m && LOG_PREFIX <= k)
            && r.Some? && |r.value| == |keys|
            && forall i :: 0 <= i < |keys| ==>
                 keys[i] == LogKey(r.value[i].index) && At(m, r.value[i].index) == Some(r.value[i])
  {
    var keys := KeysWithPrefix(m, LOG_PREFIX);
    WithPrefixExact(SortedKeys(m.Keys), LOG_PREFIX);
    assert forall i :: 0 <= i < |keys| ==> keys[i] in keys;
    DecodeAllExact(m, keys);
  }

  lemma DistinctIndices(keys: seq<Key>, es: seq<Entry>)
    requires Ascending(keys) && |es| == |keys|
    requires forall i :: 0 <= i < |keys| ==> keys[i] == LogKey(es[i].index)
    ensures forall i, j :: 0 <= i < j < |es| ==> es[i].index != es[j].index
  {
    forall i, j | 0 <= i < j < |es| ensures es[i].index != es[j].index {
      assert Less(keys[i], keys[j]);
      LessIrreflexive(keys[i]);
    }
  }

  lemma ScanMissesNothing(m: Disk, keys: seq<Key>, es: seq<Entry>, e: Entry)
    requires |es| == |keys|
    requires forall k :: k in keys <==> k in m && LOG_PREFIX <= k
    requires forall i :: 0 <= i < |keys| ==> keys[i] == LogKey(es[i].index) && At(m, es[i].index) == Some(es[i])
    ensures e in es <==> At(m, e.index) == Some(e)
  {
    if At(m, e.index) == Some(e) {
      LogKeyReserved(e.index);
      var i :| 0 <= i < |keys| && keys[i] == LogKey(e.index);
      LogKeyInjective(es[i].index, e.index);
      assert es[i] == e;
    }
  }

  /** On a canonical disk recovery succeeds and yields the durable log. */
  lemma RecoveryIsDurableLog(m: Disk)
    requires Canonical(m)
    ensures LoadEntries(m).Some? && Lists(LoadEntries(m).value, m)
  {
    var keys := KeysWithPrefix(m, LOG_PREFIX);
    ScannedRecords(m);
    var es := DecodeAll(m, keys).value;
    DistinctIndices(keys, es);
    SortIncreasing(es);
    var r := SortByIndex(es);
    assert LoadEntries(m) == Some(r);
    forall e ensures e in r <==> At(m, e.index) == Some(e) { ScanMissesNothing(m, keys, es, e); }
  }

  lemma FrontOfIncreasing(a: seq<Entry>, e: Entry)
    requires Increasing(a) && |a| > 0
    ensures e in a[..|a| - 1] <==> e in a && e != a[|a| - 1]
    ensures e in a ==> e.index <= a[|a| - 1].index && (e.index == a[|a| - 1].index ==> e == a[|a| - 1])
  {
    var front, last := a[..|a| - 1], a[|a| - 1];
    assert a == front + [last];
    if e in front {
      var i :| 0 <= i < |front| && front[i] == e;
      assert a[i] == e;
    }
  }

  lemma SameLast(a: seq<Entry>, b: seq<Entry>)
    requires Increasing(a) && Increasing(b) && |a| > 0
    requires forall e :: e in a <==> e in b
    ensures |b| > 0 && a[|a| - 1] == b[|b| - 1]
  {
    assert a[|a| - 1] in a;
    assert b[|b| - 1] in b;
    FrontOfIncreasing(a, b[|b| - 1]);
    FrontOfIncreasing(b, a[|a| - 1]);
  }

  lemma SameFront(a: seq<Entry>, b: seq<Entry>, fa: seq<Entry>, fb: seq<Entry>)
    requires Increasing(a) && Increasing(b) && |a| > 0 && |b| > 0 && a[|a| - 1] == b[|b| - 1]
    requires fa == a[..|a| - 1] && fb == b[..|b| - 1]
    requires forall e :: e in a <==> e in b
    ensures forall e :: e in fa <==> e in fb
  {
    forall e ensures e in fa <==> e in fb {
      FrontOfIncreasing(a, e);
      FrontOfIncreasing(b, e);
    }
  }

  lemma FrontIncreasing(a: seq<Entry>)
    requires Increasing(a) && |a| > 0
    ensures Increasing(a[..|a| - 1])
  {
  }

  lemma {:induction false} SameElementsSameSequence(a: seq<Entry>, b: seq<Entry>)
    requires Increasing(a) && Increasing(b)
    requires forall e :: e in a <==> e in b
    ensures a == b
  {
    assert |b| > 0 ==> b[0] in b;
    if |a| > 0 {
      SameLast(a, b);
      var fa, fb := a[..|a| - 1], b[..|b| - 1];
      SameFront(a, b, fa, fb);
      FrontIncreasing(a);
      FrontIncreasing(b);
      SameElementsSameSequence(fa, fb);
      assert a == fa + [a[|a| - 1]] && b == fb + [b[|b| - 1]];
    }
  }

  // ---------- writing the log ----------

  function PutEntry(m: Disk, e: Entry): Disk {
    m[LogKey(e.index) := EncodeEntry(e)]
  }

  function PutEntries(m: Disk, es: seq<Entry>): Disk {
    if |es| == 0 then m else PutEntry(PutEntries(m, es[..|es| - 1]), es[|es| - 1])
  }

  lemma PutEntryAt(m: Disk, e: Entry)
    ensures Canonical(m) ==> Canonical(PutEntry(m, e))
    ensures forall i :: At(PutEntry(m, e), i) == if i == e.index then Some(e) else At(m, i)
    ensures forall k :: !(LOG_PREFIX <= k) ==> Lookup(PutEntry(m, e), k) == Lookup(m, k)
  {
    EntryRoundTrip(e);
    LogKeyReserved(e.index);
    forall i ensures At(PutEntry(m, e), i) == if i == e.index then Some(e) else At(m, i) {
      if LogKey(i) == LogKey(e.index) { LogKeyInjective(i, e.index); }
    }
  }

  /** After a run of puts, each index holds the last entry put there and every other record is as before. */
  lemma {:induction false} PutEntriesAt(m: Disk, es: seq<Entry>)
    ensures Canonical(m) ==> Canonical(PutEntries(m, es))
    ensures forall i :: At(PutEntries(m, es), i) == if LastAt(es, i).Some? then LastAt(es, i) else At(m, i)
    ensures forall k :: !(LOG_PREFIX <= k) ==> Lookup(PutEntries(m, es), k) == Lookup(m, k)
  {
    if |es| > 0 {
      PutEntriesAt(m, es[..|es| - 1]);
      PutEntryAt(PutEntries(m, es[..|es| - 1]), es[|es| - 1]);
    }
  }

  lemma {:induction false} PutEntriesConcat(m: Disk, a: seq<Entry>, b: seq<Entry>)
    ensures PutEntries(PutEntries(m, a), b) == PutEntries(m, a + b)
  {
    if |b| == 0 {
      assert a + b == a;
    } else {
      assert (a + b)[..|a + b| - 1] == a + b[..|b| - 1];
      PutEntriesConcat(m, a, b[..|b| - 1]);
    }
  }

  ghost predicate NoLog(m: Disk) {
    forall k :: k in m ==> !(LOG_PREFIX <= k)
  }

  lemma NoLogIsEmptyLog(m: Disk)
    requires NoLog(m)
    ensures Canonical(m) && forall i :: At(m, i) == None
  {
    forall i ensures At(m, i) == None { LogKeyReserved(i); }
  }

  /**
   * Appending `es` to an empty log (in any number of batches: PutEntriesConcat) and recovering gives back what
   * the cache holds, `es` itself, exactly when the pushed indices are strictly increasing.
   */
  lemma RecoveryExact(m: Disk, es: seq<Entry>)
    requires NoLog(m)
    ensures LoadEntries(PutEntries(m, es)) == Some(es) <==> Increasing(es)
  {
    NoLogIsEmptyLog(m);
    PutEntriesAt(m, es);
    RecoveryIsDurableLog(PutEntries(m, es));
    if Increasing(es) {
      var r := LoadEntries(PutEntries(m, es)).value;
      forall e ensures e in r <==> e in es { IncreasingLookup(es, e.index); }
      SameElementsSameSequence(r, es);
    }
  }

  /**
   * The cache answers a lookup with the first entry pushed at an index, a recovered log with the last one put.
   * So lookups before and after a restart agree everywhere exactly when the two coincide at every index.
   */
  lemma LookupAgreement(m: Disk, es: seq<Entry>)
    requires NoLog(m)
    ensures LoadEntries(PutEntries(m, es)).Some?
    ensures forall i :: FirstAt(LoadEntries(PutEntries(m, es)).value, i) == LastAt(es, i)
    ensures (forall i :: FirstAt(es, i) == FirstAt(LoadEntries(PutEntries(m, es)).value, i))
            <==> (forall i :: FirstAt(es, i) == LastAt(es, i))
  {
    NoLogIsEmptyLog(m);
    PutEntriesAt(m, es);
    RecoveryIsDurableLog(PutEntries(m, es));
    var r := LoadEntries(PutEntries(m, es)).value;
    forall i ensures FirstAt(r, i) == LastAt(es, i) {
      IncreasingLookup(r, i);
      LastAtIsLast(es, i);
      LastAtIsLast(r, i);
      if LastAt(es, i).Some? { assert LastAt(es, i).value in r; }
    }
  }

  /**
   * The conflict step of section 5.3 of the extended Raft paper, which replaces an uncommitted suffix: the
   * adapter only pushes, so until a restart it keeps answering with the replaced entry.
   */
  lemma OverwriteIsNotSeenUntilRestart(m: Disk)
    requires NoLog(m)
    ensures var stale := Entry(1, 1, 0, [], []); var newer := Entry(1, 2, 0, [], []);
            FirstAt([stale] + [newer], 1) == Some(stale)
            && LoadEntries(PutEntries(m, [stale] + [newer])).Some?
            && FirstAt(LoadEntries(PutEntries(m, [stale] + [newer])).value, 1) == Some(newer)
  {
    var stale, newer := Entry(1, 1, 0, [], []), Entry(1, 2, 0, [], []);
    LookupAgreement(m, [stale] + [newer]);
    assert LastAt([stale] + [newer], 1) == Some(newer);
  }

  // ---------- contiguous logs ----------

  /** Consecutive indices from `first` on. */
  ghost predicate Consecutive(es: seq<Entry>, first: nat) {
    forall i :: 0 <= i < |es| ==> es[i].index == first + i
  }

  /** A contiguous log is an array: index i holds the i-th entry, and nothing lies beyond. */
  lemma ContiguousAt(m: Disk, r: seq<Entry>, i: nat)
    requires Canonical(m) && Lists(r, m) && Consecutive(r, 1)
    ensures At(m, i) == if 1 <= i <= |r| then Some(r[i - 1]) else None
  {
    AtOwnIndex(m, i);
    forall e | e in r ensures 1 <= e.index <= |r| && e == r[e.index - 1] {
      var j :| 0 <= j < |r| && r[j] == e;
    }
    if 1 <= i <= |r| { assert r[i - 1] in r; }
  }

  /** `r` with the batch written over it from position `base` on. */
  function Overwrite(r: seq<Entry>, base: nat, batch: seq<Entry>): seq<Entry>
    requires base <= |r|
  {
    r[..base] + batch + (if base + |batch| < |r| then r[base + |batch|..] else [])
  }

  lemma ConsecutiveLastAt(batch: seq<Entry>, first: nat, i: nat)
    requires Consecutive(batch, first)
    ensures LastAt(batch, i) == if first <= i < first + |batch| then Some(batch[i - first]) else None
  {
    LastAtIsLast(batch, i);
    if first <= i < first + |batch| { assert batch[i - first].index == i; }
  }

  lemma ArrayLists(m: Disk, c: seq<Entry>)
    requires Consecutive(c, 1)
    requires forall i: nat :: At(m, i) == if 1 <= i <= |c| then Some(c[i - 1]) else None
    ensures Lists(c, m)
  {
    forall e ensures e in c <==> At(m, e.index) == Some(e) {
      if e in c {
        var j :| 0 <= j < |c| && c[j] == e;
      }
    }
  }

  lemma OverwriteIndex(r: seq<Entry>, base: nat, batch: seq<Entry>, i: nat)
    requires base <= |r| && 1 <= i <= |Overwrite(r, base, batch)|
    ensures base < i <= base + |batch| ==> Overwrite(r, base, batch)[i - 1] == batch[i - base - 1]
    ensures !(base < i <= base + |batch|) ==> i <= |r| && Overwrite(r, base, batch)[i - 1] == r[i - 1]
  {
  }

  lemma OverwriteConsecutive(r: seq<Entry>, base: nat, batch: seq<Entry>)
    requires Consecutive(r, 1) && base <= |r| && Consecutive(batch, base + 1)
    ensures Consecutive(Overwrite(r, base, batch), 1)
  {
    var c := Overwrite(r, base, batch);
    forall i | 0 <= i < |c| ensures c[i].index == 1 + i { OverwriteIndex(r, base, batch, i + 1); }
  }

  lemma OverwriteAt(m: Disk, r: seq<Entry>, base: nat, batch: seq<Entry>, i: nat)
    requires Canonical(m) && Lists(r, m) && Consecutive(r, 1)
    requires base <= |r| && Consecutive(batch, base + 1)
    ensures At(PutEntries(m, batch), i)
            == if 1 <= i <= |Overwrite(r, base, batch)| then Some(Overwrite(r, base, batch)[i - 1]) else None
  {
    PutEntriesAt(m, batch);
    ContiguousAt(m, r, i);
    ConsecutiveLastAt(batch, base + 1, i);
    var c, at := Overwrite(r, base, batch), At(PutEntries(m, batch), i);
    if 1 <= i <= |c| { OverwriteIndex(r, base, batch, i); }
  }

  lemma OverwriteLists(m: Disk, r: seq<Entry>, base: nat, batch: seq<Entry>)
    requires Canonical(m) && Lists(r, m) && Consecutive(r, 1)
    requires base <= |r| && Consecutive(batch, base + 1)
    ensures Consecutive(Overwrite(r, base, batch), 1)
    ensures Lists(Overwrite(r, base, batch), PutEntries(m, batch))
  {
    var c := Overwrite(r, base, batch);
    OverwriteConsecutive(r, base, batch);
    forall i: nat ensures At(PutEntries(m, batch), i) == if 1 <= i <= |c| then Some(c[i - 1]) else None {
      OverwriteAt(m, r, base, batch, i);
    }
    ArrayLists(PutEntries(m, batch), c);
  }

  /**
   * Appending a batch at position `base + 1` of a contiguous durable log, stopped after any number of its puts
   * (`batch` being the part that was put): recovery sees the log up to `base`, the batch, and whatever the old
   * log had beyond it, since nothing is ever truncated.
   */
  lemma AppendRecovery(m: Disk, r: seq<Entry>, base: nat, batch: seq<Entry>)
    requires Canonical(m) && LoadEntries(m) == Some(r) && Consecutive(r, 1)
    requires base <= |r| && Consecutive(batch, base + 1)
    ensures Canonical(PutEntries(m, batch))
    ensures LoadEntries(PutEntries(m, batch)) == Some(Overwrite(r, base, batch))
    ensures Consecutive(Overwrite(r, base, batch), 1)
  {
    RecoveryIsDurableLog(m);
    OverwriteLists(m, r, base, batch);
    PutEntriesAt(m, batch);
    RecoveryIsDurableLog(PutEntries(m, batch));
    SameElementsSameSequence(LoadEntries(PutEntries(m, batch)).value, Overwrite(r, base, batch));
  }

  lemma OverwriteAtEnd(r: seq<Entry>, batch: seq<Entry>)
    ensures Overwrite(r, |r|, batch) == r + batch
  {
  }

  /**
   * A crash inside an append: after any `puts` of the puts of a batch that starts at `last_index + 1`, the next
   * recovery yields the old log followed by exactly the entries that were put.
   */
  lemma CrashInsideAppend(m: Disk, r: seq<Entry>, batch: seq<Entry>, puts: nat)
    requires Canonical(m) && LoadEntries(m) == Some(r) && Consecutive(r, 1)
    requires Consecutive(batch, |r| + 1) && puts <= |batch|
    ensures LoadEntries(PutEntries(m, batch[..puts])) == Some(r + batch[..puts])
    ensures Consecutive(r + batch[..puts], 1)
  {
    AppendRecovery(m, r, |r|, batch[..puts]);
    OverwriteAtEnd(r, batch[..puts]);
  }

  // ---------- hard state and conf state ----------

  function PutHardState(m: Disk, hs: HardState): Disk {
    m[HARD_STATE_KEY := EncodeHardState(hs)]
  }

  function PutConfState(m: Disk, cs: ConfState): Disk {
    m[CONF_STATE_KEY := EncodeConfState(cs)]
  }

  lemma {:induction false} AscendingUnique(a: seq<Key>, b: seq<Key>)
    requires Ascending(a) && Ascending(b)
    requires forall k :: k in a <==> k in b
    ensures a == b
  {
    assert |a| > 0 ==> a[0] in a;
    assert |b| > 0 ==> b[0] in b;
    if |a| > 0 {
      var ta, tb := a[1..], b[1..];
      assert a == [a[0]] + ta && b == [b[0]] + tb;
      assert a[0] == b[0] by {
        var i :| 0 <= i < |b| && b[i] == a[0];
        var j :| 0 <= j < |a| && a[j] == b[0];
        if i > 0 && j > 0 {
          LessTransitive(a[0], b[0], a[0]);
          LessIrreflexive(a[0]);
        }
      }
      forall k ensures k in ta <==> k in tb {
        LessIrreflexive(a[0]);
        if k in ta { assert k in a; }
        if k in tb { assert k in b; }
      }
      AscendingUnique(ta, tb);
    }
  }

  lemma {:induction false} DecodeAllFrame(m: Disk, m': Disk, keys: seq<Key>)
    requires forall k :: k in keys ==> Lookup(m, k) == Lookup(m', k)
    ensures DecodeAll(m, keys) == DecodeAll(m', keys)
  {
    if |keys| > 0 {
      DecodeAllFrame(m, m', keys[..|keys| - 1]);
      assert keys[|keys| - 1] in keys;
    }
  }

  /** The recovered log depends on the log records only. */
  lemma LogFrame(m: Disk, m': Disk)
    requires forall k :: LOG_PREFIX <= k ==> Lookup(m, k) == Lookup(m', k)
    ensures LoadEntries(m) == LoadEntries(m')
    ensures Canonical(m) == Canonical(m')
    ensures forall i :: At(m, i) == At(m', i)
  {
    var a, b := KeysWithPrefix(m, LOG_PREFIX), KeysWithPrefix(m', LOG_PREFIX);
    WithPrefixExact(SortedKeys(m.Keys), LOG_PREFIX);
    WithPrefixExact(SortedKeys(m'.Keys), LOG_PREFIX);
    forall k ensures k in a <==> k in b {
      if LOG_PREFIX <= k { assert Lookup(m, k) == Lookup(m', k); }
    }
    AscendingUnique(a, b);
    DecodeAllFrame(m, m', a);
    forall i ensures At(m, i) == At(m', i) {
      LogKeyReserved(i);
      assert Lookup(m, LogKey(i)) == Lookup(m', LogKey(i));
    }
    CanonicalFrame(m, m');
    CanonicalFrame(m', m);
  }

  lemma CanonicalFrame(m: Disk, m': Disk)
    requires forall k :: LOG_PREFIX <= k ==> Lookup(m, k) == Lookup(m', k)
    ensures Canonical(m) ==> Canonical(m')
  {
    if Canonical(m) {
      forall k | k in m' && LOG_PREFIX <= k
        ensures DecodeEntry(m'[k]).Some? && k == LogKey(DecodeEntry(m'[k]).value.index)
      {
        assert Lookup(m, k) == Lookup(m', k);
      }
    }
  }

  /** Recovery reads the reserved keys only. */
  lemma RecoveryFrame(m: Disk, m': Disk)
    requires forall k :: Reserved(k) ==> Lookup(m, k) == Lookup(m', k)
    ensures LoadEntries(m) == LoadEntries(m')
    ensures LoadHardState(m) == LoadHardState(m') && LoadConfState(m) == LoadConfState(m')
    ensures Canonical(m) == Canonical(m')
    ensures forall i :: At(m, i) == At(m', i)
  {
    LogFrame(m, m');
    assert Lookup(m, HARD_STATE_KEY) == Lookup(m', HARD_STATE_KEY);
    assert Lookup(m, CONF_STATE_KEY) == Lookup(m', CONF_STATE_KEY);
  }

  lemma PutHardStateFrame(m: Disk, hs: HardState)
    ensures LoadHardState(PutHardState(m, hs)) == Some(hs)
    ensures LoadConfState(PutHardState(m, hs)) == LoadConfState(m)
    ensures LoadEntries(PutHardState(m, hs)) == LoadEntries(m)
    ensures Canonical(PutHardState(m, hs)) == Canonical(m)
    ensures forall i :: At(PutHardState(m, hs), i) == At(m, i)
  {
    HardStateRoundTrip(hs);
    ReservedKeysApart();
    LogFrame(m, PutHardState(m, hs));
  }

  lemma PutConfStateFrame(m: Disk, cs: ConfState)
    ensures LoadConfState(PutConfState(m, cs)) == Some(cs)
    ensures LoadHardState(PutConfState(m, cs)) == LoadHardState(m)
    ensures LoadEntries(PutConfState(m, cs)) == LoadEntries(m)
    ensures Canonical(PutConfState(m, cs)) == Canonical(m)
    ensures forall i :: At(PutConfState(m, cs), i) == At(m, i)
  {
    ConfStateRoundTrip(cs);
    ReservedKeysApart();
    LogFrame(m, PutConfState(m, cs));
  }
}
