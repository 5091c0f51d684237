/** The byte-keyed store (src/storage/rocksdb_storage.rs): a map whose iterators run in key order. */
module OrderedStore {
  import opened Wrappers
  import opened Bytes

  type Disk = map<Key, Value>

  function Lookup(m: Disk, k: Key): Option<Value> {
    if k in m then Some(m[k]) else None
  }

  ghost predicate Ascending(ks: seq<Key>) {
    forall i, j :: 0 <= i < j < |ks| ==> Less(ks[i], ks[j])
  }

  predicate Least(k: Key, s: set<Key>) {
    k in s && forall j :: j in s ==> !Less(j, k)
  }

  lemma {:induction false} LeastKeyExists(s: set<Key>)
    requires s != {}
    ensures exists k :: Least(k, s)
    decreases |s|
  {
    var k :| k in s;
    LessIrreflexive(k);
    if s == {k} {
      assert Least(k, s);
    } else {
      LeastKeyExists(s - {k});
      var rest :| Least(rest, s - {k});
      if Less(k, rest) {
        forall j | j in s ensures !Less(j, k) {
          if Less(j, k) { LessTransitive(j, k, rest); }
        }
        assert Least(k, s);
      } else {
        assert Least(rest, s);
      }
    }
  }

  lemma LeastKeyUnique(s: set<Key>, a: Key, b: Key)
    requires Least(a, s) && Least(b, s)
    ensures a == b
  {
    LessTotal(a, b);
  }

  lemma LeastBelowRest(s: set<Key>, least: Key)
    requires Least(least, s)
    ensures forall k :: k in s && k != least ==> Less(least, k)
  {
    forall k | k in s && k != least ensures Less(least, k) { LessTotal(least, k); }
  }

  /** The order in which a RocksDB iterator visits the keys: ascending, each key once. */
  function SortedKeys(s: set<Key>): (ks: seq<Key>)
    ensures Ascending(ks)
    ensures forall k :: k in ks <==> k in s
  {
    if s == {} then []
    else
      LeastKeyExists(s);
      assert forall a, b | Least(a, s) && Least(b, s) :: a == b by {
        forall a, b | Least(a, s) && Least(b, s) ensures a == b { LeastKeyUnique(s, a, b); }
      }
      var least :| Least(least, s);
      LeastBelowRest(s, least);
      var rest := SortedKeys(s - {least});
      [least] + rest
  }

  /** The listing as a scan of everything with a filter (docs/PHASE_1.md): the form `ListKeys` speeds up. */
  function WithPrefix(ks: seq<Key>, p: Key): (r: seq<Key>) {
    if |ks| == 0 then []
    else WithPrefix(ks[..|ks| - 1], p) + (if p <= ks[|ks| - 1] then [ks[|ks| - 1]] else [])
  }

  function KeysWithPrefix(m: Disk, p: Key): seq<Key> {
    WithPrefix(SortedKeys(m.Keys), p)
  }

  lemma {:induction false} WithPrefixRun(ks: seq<Key>, p: Key, lo: nat, hi: nat)
    requires lo <= hi <= |ks|
    requires forall i :: 0 <= i < |ks| ==> (p <= ks[i] <==> lo <= i < hi)
    ensures WithPrefix(ks, p) == ks[lo..hi]
  {
    if |ks| > 0 {
      var front := ks[..|ks| - 1];
      if hi == |ks| {
        if lo == hi {
          WithPrefixRun(front, p, lo - 1, hi - 1);
        } else {
          WithPrefixRun(front, p, lo, hi - 1);
          assert ks[lo..hi] == front[lo..hi - 1] + [ks[hi - 1]];
        }
      } else {
        WithPrefixRun(front, p, lo, hi);
        assert ks[lo..hi] == front[lo..hi];
      }
    }
  }

  /** The filtered scan keeps exactly the matching keys, in order, without repeats. */
  lemma {:induction false} WithPrefixExact(ks: seq<Key>, p: Key)
    requires Ascending(ks)
    ensures Ascending(WithPrefix(ks, p))
    ensures forall k :: k in WithPrefix(ks, p) <==> k in ks && p <= k
  {
    if |ks| > 0 {
      var front := ks[..|ks| - 1];
      WithPrefixExact(front, p);
      assert ks == front + [ks[|ks| - 1]];
      forall k | k in WithPrefix(front, p) ensures Less(k, ks[|ks| - 1]) {
        var i :| 0 <= i < |front| && front[i] == k;
        assert ks[i] == k;
      }
      assert forall i :: 0 <= i < |WithPrefix(front, p)| ==> WithPrefix(front, p)[i] in WithPrefix(front, p);
    }
  }

  /** Where an iterator opened at `p` starts: the first key that is not before `p`. */
  function SeekIndex(ks: seq<Key>, p: Key): (i: nat)
    ensures i <= |ks|
    ensures forall j :: 0 <= j < i ==> Less(ks[j], p)
    ensures i < |ks| ==> !Less(ks[i], p)
  {
    if |ks| == 0 || !Less(ks[0], p) then 0 else
      var i := SeekIndex(ks[1..], p);
      i + 1
  }

  /** `io` stands for RocksDB's answer to a write: a refused write changes nothing. */
  class RocksDbStorage {
    var db: Disk

    constructor (contents: Disk)
      ensures db == contents
    {
      db := contents;
    }

    method Get(key: Key) returns (v: Option<Value>)
      ensures v == Lookup(db, key)
    {
      v := if key in db then Some(db[key]) else None;
    }

    method Put(key: Key, value: Value, io: bool) returns (ok: bool)
      modifies this
      ensures ok == io
      ensures db == if io then old(db)[key := value] else old(db)
    {
      if io { db := db[key := value]; }
      ok := io;
    }

    method Delete(key: Key, io: bool) returns (ok: bool)
      modifies this
      ensures ok == io
      ensures db == if io then old(db) - {key} else old(db)
    {
      if io { db := db - {key}; }
      ok := io;
    }

    /** With a prefix: seek to it and stop at the first key past it. Without: every key. */
    method ListKeys(prefix: Option<Key>) returns (keys: seq<Key>)
      ensures prefix.None? ==> keys == SortedKeys(db.Keys)
      ensures prefix.Some? ==> keys == KeysWithPrefix(db, prefix.value)
    {
      match prefix
      case Some(p) => keys := TakeWhileMatching(SortedKeys(db.Keys), p);
      case None => keys := SortedKeys(db.Keys);
    }
  }

  /** The loop of the prefix branch over one iterator, `all` being the order it would visit the store in. */
  method TakeWhileMatching(all: seq<Key>, p: Key) returns (keys: seq<Key>)
    requires Ascending(all)
    ensures keys == WithPrefix(all, p)
  {
    keys := [];
    var start := SeekIndex(all, p);
    var i := start;
    while i < |all|
      invariant start <= i <= |all|
      invariant keys == all[start..i]
      invariant forall j :: start <= j < i ==> p <= all[j]
    {
      if !(p <= all[i]) { break; }
      keys := keys + [all[i]];
      i := i + 1;
    }
    SeekAndStop(all, p, start, i);
  }

  /** On ascending keys the matches are exactly the run between the seek point and the first non-match. */
  lemma SeekAndStop(all: seq<Key>, p: Key, start: nat, stop: nat)
    requires Ascending(all)
    requires start == SeekIndex(all, p) <= stop <= |all|
    requires forall j :: start <= j < stop ==> p <= all[j]
    requires stop < |all| ==> !(p <= all[stop])
    ensures all[start..stop] == WithPrefix(all, p)
  {
    forall i | 0 <= i < |all| ensures p <= all[i] <==> start <= i < stop {
      if i < start {
        if p <= all[i] { PrefixNotBefore(p, all[i]); }
      } else if stop <= i {
        if start < stop || i > start {
          if Less(all[stop], p) {
            assert start < stop;
            PrefixNotBefore(p, all[start]);
            LessTransitive(all[start], all[stop], p);
          }
        }
        if i > stop { PrefixInterval(p, all[stop], all[i]); }
      }
    }
    WithPrefixRun(all, p, start, stop);
  }
}
