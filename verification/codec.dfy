/**
 * Invertible byte formats for the records the repository stores and sends. The library formats it uses
 * (prost, bincode) are not modelled; what matters here is that decoding undoes encoding.
 */
module Codec {
  import opened Wrappers
  import opened Bytes

  /** A log entry. `kind` is raft's entry type; the node never looks at it. */
  datatype Entry = Entry(index: nat, term: nat, kind: nat, data: seq<byte>, context: seq<byte>)

  datatype HardState = HardState(term: nat, vote: nat, commit: nat)

  datatype ConfState = ConfState(voters: seq<nat>, learners: seq<nat>)

  datatype Proposal = Put(key: Key, value: Value) | Delete(key: Key)

  datatype RaftMessage = RaftMessage(to: nat, sender: nat, kind: nat, body: seq<byte>)

  const DEFAULT_HARD_STATE := HardState(0, 0, 0)
  const DEFAULT_CONF_STATE := ConfState([], [])

  function EncodeEntry(e: Entry): seq<byte> {
    Varint(e.index) + (Varint(e.term) + (Varint(e.kind) + (Chunk(e.data) + (Chunk(e.context) + []))))
  }

  function DecodeEntry(s: seq<byte>): Option<Entry> {
    match ReadVarint(s) case None => None case Some((index, s1)) =>
    match ReadVarint(s1) case None => None case Some((term, s2)) =>
    match ReadVarint(s2) case None => None case Some((kind, s3)) =>
    match ReadChunk(s3) case None => None case Some((data, s4)) =>
    match ReadChunk(s4) case None => None case Some((context, s5)) =>
      if s5 == [] then Some(Entry(index, term, kind, data, context)) else None
  }

  lemma EntryRoundTrip(e: Entry)
    ensures DecodeEntry(EncodeEntry(e)) == Some(e)
  {
    var s4 := Chunk(e.context) + [];
    var s3 := Chunk(e.data) + s4;
    var s2 := Varint(e.kind) + s3;
    var s1 := Varint(e.term) + s2;
    ChunkRoundTrip(e.context, []);
    ChunkRoundTrip(e.data, s4);
    VarintRoundTrip(e.kind, s3);
    VarintRoundTrip(e.term, s2);
    VarintRoundTrip(e.index, s1);
  }

  function EncodeHardState(hs: HardState): seq<byte> {
    Varint(hs.term) + (Varint(hs.vote) + (Varint(hs.commit) + []))
  }

  function DecodeHardState(s: seq<byte>): Option<HardState> {
    match ReadVarint(s) case None => None case Some((term, s1)) =>
    match ReadVarint(s1) case None => None case Some((vote, s2)) =>
    match ReadVarint(s2) case None => None case Some((commit, s3)) =>
      if s3 == [] then Some(HardState(term, vote, commit)) else None
  }

  lemma HardStateRoundTrip(hs: HardState)
    ensures DecodeHardState(EncodeHardState(hs)) == Some(hs)
  {
    var s2 := Varint(hs.commit) + [];
    var s1 := Varint(hs.vote) + s2;
    VarintRoundTrip(hs.commit, []);
    VarintRoundTrip(hs.vote, s2);
    VarintRoundTrip(hs.term, s1);
  }

  function EncodeIds(ids: seq<nat>): seq<byte> {
    if |ids| == 0 then [] else Varint(ids[0]) + EncodeIds(ids[1..])
  }

  function ReadIds(n: nat, s: seq<byte>): Option<(seq<nat>, seq<byte>)> {
    if n == 0 then Some(([], s)) else
      match ReadVarint(s) case None => None case Some((id, s1)) =>
      match ReadIds(n - 1, s1) case None => None case Some((ids, s2)) => Some(([id] + ids, s2))
  }

  lemma {:induction false} IdsRoundTrip(ids: seq<nat>, rest: seq<byte>)
    ensures ReadIds(|ids|, EncodeIds(ids) + rest) == Some((ids, rest))
  {
    if |ids| == 0 {
      assert EncodeIds(ids) + rest == rest;
    } else {
      assert EncodeIds(ids) + rest == Varint(ids[0]) + (EncodeIds(ids[1..]) + rest);
      VarintRoundTrip(ids[0], EncodeIds(ids[1..]) + rest);
      IdsRoundTrip(ids[1..], rest);
      assert ids == [ids[0]] + ids[1..];
    }
  }

  function EncodeConfState(cs: ConfState): seq<byte> {
    Varint(|cs.voters|) + (EncodeIds(cs.voters) + (Varint(|cs.learners|) + (EncodeIds(cs.learners) + [])))
  }

  function DecodeConfState(s: seq<byte>): Option<ConfState> {
    match ReadVarint(s) case None => None case Some((n, s1)) =>
    match ReadIds(n, s1) case None => None case Some((voters, s2)) =>
    match ReadVarint(s2) case None => None case Some((k, s3)) =>
    match ReadIds(k, s3) case None => None case Some((learners, s4)) =>
      if s4 == [] then Some(ConfState(voters, learners)) else None
  }

  lemma ConfStateRoundTrip(cs: ConfState)
    ensures DecodeConfState(EncodeConfState(cs)) == Some(cs)
  {
    var s3 := EncodeIds(cs.learners) + [];
    var s2 := Varint(|cs.learners|) + s3;
    var s1 := EncodeIds(cs.voters) + s2;
    IdsRoundTrip(cs.learners, []);
    VarintRoundTrip(|cs.learners|, s3);
    IdsRoundTrip(cs.voters, s2);
    VarintRoundTrip(|cs.voters|, s1);
  }

  function EncodeProposal(p: Proposal): seq<byte> {
    match p
    case Put(key, value) => [0 as byte] + (Chunk(key) + (Chunk(value) + []))
    case Delete(key) => [1 as byte] + (Chunk(key) + [])
  }

  /** Bytes after a complete proposal are ignored, as `bincode::deserialize` does. */
  function DecodeProposal(s: seq<byte>): Option<Proposal> {
    if |s| == 0 then None
    else
      match ReadChunk(s[1..]) case None => None case Some((key, s1)) =>
        if s[0] == 1 then Some(Delete(key))
        else if s[0] == 0 then
          match ReadChunk(s1) case None => None case Some((value, _)) => Some(Put(key, value))
        else None
  }

  lemma ProposalRoundTrip(p: Proposal)
    ensures DecodeProposal(EncodeProposal(p)) == Some(p)
  {
    match p
    case Put(key, value) =>
      var s1 := Chunk(value) + [];
      ChunkRoundTrip(value, []);
      ChunkRoundTrip(key, s1);
      assert EncodeProposal(p)[1..] == Chunk(key) + s1;
    case Delete(key) =>
      ChunkRoundTrip(key, []);
      assert EncodeProposal(p)[1..] == Chunk(key) + [];
  }

  function EncodeMessage(m: RaftMessage): seq<byte> {
    Varint(m.to) + (Varint(m.sender) + (Varint(m.kind) + (Chunk(m.body) + [])))
  }

  function DecodeMessage(s: seq<byte>): Option<RaftMessage> {
    match ReadVarint(s) case None => None case Some((to, s1)) =>
    match ReadVarint(s1) case None => None case Some((sender, s2)) =>
    match ReadVarint(s2) case None => None case Some((kind, s3)) =>
    match ReadChunk(s3) case None => None case Some((body, s4)) =>
      if s4 == [] then Some(RaftMessage(to, sender, kind, body)) else None
  }

  lemma MessageRoundTrip(m: RaftMessage)
    ensures DecodeMessage(EncodeMessage(m)) == Some(m)
  {
    var s3 := Chunk(m.body) + [];
    var s2 := Varint(m.kind) + s3;
    var s1 := Varint(m.sender) + s2;
    ChunkRoundTrip(m.body, []);
    VarintRoundTrip(m.kind, s3);
    VarintRoundTrip(m.sender, s2);
    VarintRoundTrip(m.to, s1);
  }

  /** A record no decoder accepts: an integer that never ends. */
  const TORN_RECORD: seq<byte> := [255]

  lemma TornRecordUndecodable()
    ensures DecodeEntry(TORN_RECORD) == None
    ensures DecodeHardState(TORN_RECORD) == None
    ensures DecodeConfState(TORN_RECORD) == None
  {
    assert TORN_RECORD[1..] == [];
    assert ReadVarint(TORN_RECORD[1..]) == None;
  }
}
