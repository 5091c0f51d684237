/**
 * One store holds both the Raft records and the users' keys. Saving the one and applying the other do not
 * disturb each other as long as no user key is a reserved one.
 */
module SharedStore {
  import opened Wrappers
  import opened Bytes
  import opened OrderedStore
  import opened Codec
  import opened DurableLog

  /** `StateMachine::apply` (src/raft/state_machine.rs) on the stored map. */
  function ApplyProposal(m: Disk, p: Proposal): Disk {
    match p
    case Put(key, value) => m[key := value]
    case Delete(key) => m - {key}
  }

  /** The part of the store users see. */
  function UserView(m: Disk): Disk {
    map k | k in m && !Reserved(k) :: m[k]
  }

  /** A write to the shared store: one of the three Raft saves, or an applied proposal. */
  datatype Write =
    | LogWrite(entry: Entry)
    | HardWrite(hs: HardState)
    | ConfWrite(cs: ConfState)
    | UserWrite(op: Proposal)

  function Effect(m: Disk, w: Write): Disk {
    match w
    case LogWrite(entry) => PutEntry(m, entry)
    case HardWrite(hs) => PutHardState(m, hs)
    case ConfWrite(cs) => PutConfState(m, cs)
    case UserWrite(op) => ApplyProposal(m, op)
  }

  function Effects(m: Disk, ws: seq<Write>): Disk {
    if |ws| == 0 then m else Effect(Effects(m, ws[..|ws| - 1]), ws[|ws| - 1])
  }

  /** The history with only its user writes (`user`), or only its Raft saves. */
  function Only(ws: seq<Write>, user: bool): seq<Write> {
    if |ws| == 0 then [] else
      Only(ws[..|ws| - 1], user) + (if ws[|ws| - 1].UserWrite? == user then [ws[|ws| - 1]] else [])
  }

  ghost predicate SparesReserved(ws: seq<Write>) {
    forall w :: w in ws && w.UserWrite? ==> !Reserved(w.op.key)
  }

  lemma ApplyProposalFrame(m: Disk, p: Proposal)
    ensures forall k :: k != p.key ==> Lookup(ApplyProposal(m, p), k) == Lookup(m, k)
    ensures Lookup(ApplyProposal(m, p), p.key) == if p.Put? then Some(p.value) else None
  {
  }

  lemma RaftSaveFrame(m: Disk, w: Write)
    requires !w.UserWrite?
    ensures forall k :: !Reserved(k) ==> Lookup(Effect(m, w), k) == Lookup(m, k)
  {
    if w.LogWrite? { LogKeyReserved(w.entry.index); }
  }

  /** Two disks that agree on one side of the reserved boundary still do after the same write to that side. */
  lemma SameWriteSameEffect(m: Disk, m': Disk, w: Write, user: bool)
    requires forall k :: Reserved(k) != user ==> Lookup(m, k) == Lookup(m', k)
    ensures forall k :: Reserved(k) != user ==> Lookup(Effect(m, w), k) == Lookup(Effect(m', w), k)
  {
  }

  lemma {:induction false} SidesAreIndependent(m: Disk, ws: seq<Write>, user: bool)
    requires SparesReserved(ws)
    ensures forall k :: Reserved(k) != user ==> Lookup(Effects(m, ws), k) == Lookup(Effects(m, Only(ws, user)), k)
  {
    if |ws| > 0 {
      var front, w := ws[..|ws| - 1], ws[|ws| - 1];
      assert forall v :: v in front ==> v in ws;
      assert w in ws;
      SidesAreIndependent(m, front, user);
      var a, b := Effects(m, front), Effects(m, Only(front, user));
      if w.UserWrite? == user {
        SameWriteSameEffect(a, b, w, user);
        assert Only(ws, user)[..|Only(ws, user)| - 1] == Only(front, user);
      } else {
        assert Only(ws, user) == Only(front, user);
        if w.UserWrite? { ApplyProposalFrame(a, w.op); } else { RaftSaveFrame(a, w); }
      }
    }
  }

  /**
   * For any mix of Raft saves and applied proposals on unreserved keys: what a restart recovers depends on the
   * Raft saves alone, and what users see depends on the applied proposals alone.
   */
  lemma NonInterference(m: Disk, ws: seq<Write>)
    requires SparesReserved(ws)
    ensures LoadEntries(Effects(m, ws)) == LoadEntries(Effects(m, Only(ws, false)))
    ensures LoadHardState(Effects(m, ws)) == LoadHardState(Effects(m, Only(ws, false)))
    ensures LoadConfState(Effects(m, ws)) == LoadConfState(Effects(m, Only(ws, false)))
    ensures UserView(Effects(m, ws)) == UserView(Effects(m, Only(ws, true)))
  {
    SidesAreIndependent(m, ws, false);
    RecoveryFrame(Effects(m, ws), Effects(m, Only(ws, false)));
    SidesAreIndependent(m, ws, true);
    SameUserView(Effects(m, ws), Effects(m, Only(ws, true)));
  }

  lemma SameUserView(m: Disk, m': Disk)
    requires forall k :: !Reserved(k) ==> Lookup(m, k) == Lookup(m', k)
    ensures UserView(m) == UserView(m')
  {
    var a, b := UserView(m), UserView(m');
    forall k ensures k in a <==> k in b {
      if !Reserved(k) { assert Lookup(m, k) == Lookup(m', k); }
    }
    forall k | k in a ensures a[k] == b[k] { assert Lookup(m, k) == Lookup(m', k); }
  }

  ghost predicate RecoversAlike(m: Disk, m': Disk) {
    LoadEntries(m) == LoadEntries(m') && LoadHardState(m) == LoadHardState(m') && LoadConfState(m) == LoadConfState(m')
  }

  ghost predicate DifferOnlyAt(m: Disk, m': Disk, k: Key) {
    forall j :: j != k ==> Lookup(m, j) == Lookup(m', j)
  }

  lemma TornLogRecord(k: Key)
    requires LOG_PREFIX <= k
    ensures LoadEntries(map[k := TORN_RECORD]) == None
  {
    var m: Disk := map[k := TORN_RECORD];
    TornRecordUndecodable();
    WithPrefixExact(SortedKeys(m.Keys), LOG_PREFIX);
    assert k in KeysWithPrefix(m, LOG_PREFIX);
    UndecodableRecord(m, KeysWithPrefix(m, LOG_PREFIX), k);
  }

  lemma TornRecordIsSeen(k: Key)
    requires Reserved(k)
    ensures !RecoversAlike(map[], map[k := TORN_RECORD])
  {
    TornRecordUndecodable();
    NoLogIsEmptyLog(map[]);
    RecoveryIsDurableLog(map[]);
    if LOG_PREFIX <= k { TornLogRecord(k); }
  }

  /** The reserved keys are exactly the ones a user must not write: what any other key holds never matters. */
  lemma ReservedExactly(k: Key)
    ensures (forall m, m' :: DifferOnlyAt(m, m', k) ==> RecoversAlike(m, m')) <==> !Reserved(k)
  {
    if Reserved(k) {
      TornRecordIsSeen(k);
      assert DifferOnlyAt(map[], map[k := TORN_RECORD], k);
    } else {
      forall m, m' | DifferOnlyAt(m, m', k) ensures RecoversAlike(m, m') { RecoveryFrame(m, m'); }
    }
  }

  /** One undecodable record among those scanned fails the whole recovery. */
  lemma {:induction false} UndecodableRecord(m: Disk, keys: seq<Key>, k: Key)
    requires k in keys && k in m && DecodeEntry(m[k]) == None
    ensures DecodeAll(m, keys) == None
  {
    if k != keys[|keys| - 1] {
      assert keys == keys[..|keys| - 1] + [keys[|keys| - 1]];
      UndecodableRecord(m, keys[..|keys| - 1], k);
    }
  }
}
