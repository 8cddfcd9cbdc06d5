/** FileAppendTransaction: freezing into chunks, and sending the frozen chunks one after another. */
module FileAppend {
  import opened Words
  import opened Execute

  // ---------------------------------------------------------------- chunks

  function Min(a: int, b: int): int { if a <= b then a else b }

  /** (len + (chunkSize - 1)) / chunkSize. */
  function ChunkCount(len: nat, size: int): nat
    requires size > 0
  {
    (len + (size - 1)) / size
  }

  function Chunk(contents: seq<byte>, size: int, i: nat): seq<byte>
    requires size > 0
  {
    var start := Min(i * size, |contents|);
    contents[start..Min(start + size, |contents|)]
  }

  function Joined(parts: seq<seq<byte>>): seq<byte>
  {
    if parts == [] then [] else Joined(parts[..|parts| - 1]) + parts[|parts| - 1]
  }

  lemma ChunkCountIsCeiling(len: nat, size: int)
    requires size > 0
    ensures var n := ChunkCount(len, size); n * size >= len && (n > 0 ==> (n - 1) * size < len)
  {
    var n := ChunkCount(len, size);
    assert n * size <= len + (size - 1) < n * size + size;
    assert (n - 1) * size == n * size - size;
  }

  lemma ChunkStart(len: nat, size: int, i: nat)
    requires size > 0 && i < ChunkCount(len, size)
    ensures i * size < len
  {
    var n := ChunkCount(len, size);
    ChunkCountIsCeiling(len, size);
    Monotone(i, n - 1, size);
  }

  lemma Monotone(a: int, b: int, c: int)
    requires a <= b && c >= 0
    ensures a * c <= b * c
  {
    assert (b - a) * c >= 0;
  }

  /** Every chunk is nonempty and at most `size` long, and all but the last are exactly `size` long. */
  lemma ChunkLength(contents: seq<byte>, size: int, i: nat)
    requires size > 0 && i < ChunkCount(|contents|, size)
    ensures 0 < |Chunk(contents, size, i)| <= size
    ensures i + 1 < ChunkCount(|contents|, size) ==> |Chunk(contents, size, i)| == size
  {
    ChunkStart(|contents|, size, i);
    if i + 1 < ChunkCount(|contents|, size) {
      ChunkStart(|contents|, size, i + 1);
      assert (i + 1) * size == i * size + size;
    }
  }

  function Chunks(contents: seq<byte>, size: int, n: nat): (parts: seq<seq<byte>>)
    requires size > 0
    ensures |parts| == n
  {
    seq(n, i requires 0 <= i < n => Chunk(contents, size, i))
  }

  /** The first `n` chunks, joined, are a prefix of the contents; all of them are the contents. */
  lemma {:induction false} ChunksJoin(contents: seq<byte>, size: int, n: nat)
    requires size > 0
    ensures Joined(Chunks(contents, size, n)) == contents[..Min(n * size, |contents|)]
    ensures n == ChunkCount(|contents|, size) ==> Joined(Chunks(contents, size, n)) == contents
  {
    hide Chunk, ChunkCount;
    if n > 0 {
      ChunksJoin(contents, size, n - 1);
      assert Chunks(contents, size, n)[..n - 1] == Chunks(contents, size, n - 1);
      ChunkAppends(contents, size, n - 1);
    }
    ChunkCountIsCeiling(|contents|, size);
  }

  lemma ChunkAppends(contents: seq<byte>, size: int, i: nat)
    requires size > 0
    ensures contents[..Min(i * size, |contents|)] + Chunk(contents, size, i) == contents[..Min((i + 1) * size, |contents|)]
  {
    var start := i * size;
    assert (i + 1) * size == start + size;
    Adjacent(contents, Min(start, |contents|), Min(start + size, |contents|));
  }

  lemma Adjacent(s: seq<byte>, i: nat, j: nat)
    requires i <= j <= |s|
    ensures s[..i] + s[i..j] == s[..j]
  {
  }

  // ---------------------------------------------------------------- position of a signed transaction

  function Slot(nodes: nat, i: nat, j: nat): (k: nat) { nodes * i + j }

  function RowOf(nodes: nat, k: nat): nat requires nodes > 0 { k / nodes }

  function ColumnOf(nodes: nat, k: nat): (j: nat)
    requires nodes > 0
    ensures j < nodes
  {
    k % nodes
  }

  /** Rows and columns invert the slot number, which stays inside the list. */
  lemma SlotInverse(nodes: nat, i: nat, j: nat, rows: nat)
    requires j < nodes && i < rows
    ensures RowOf(nodes, Slot(nodes, i, j)) == i && ColumnOf(nodes, Slot(nodes, i, j)) == j
    ensures Slot(nodes, i, j) < Slot(nodes, rows, 0)
  {
    ModUnique(Slot(nodes, i, j), nodes, i, j);
    Monotone(i + 1, rows, nodes);
    assert (i + 1) * nodes == nodes * i + nodes;
    assert rows * nodes == nodes * rows;
  }

  /** executeAll recovers the number of chunks from the number of signed transactions. */
  lemma QuotientRecoversChunks(nodes: nat, chunks: nat)
    requires nodes > 0
    ensures Slot(nodes, chunks, 0) / nodes == chunks
  {
    ModUnique(Slot(nodes, chunks, 0), nodes, chunks, 0);
  }

  // ---------------------------------------------------------------- transaction ids

  class Time {
    var nanos: int

    constructor (n: int)
      ensures nanos == n
    {
      nanos := n;
    }
  }

  /** Copying a TransactionID copies the pointer to its valid start. */
  datatype TransactionId = TransactionId(account: nat, validStart: Time)

  datatype Timestamp = Timestamp(seconds: int, nanos: int)

  datatype ProtoId = ProtoId(account: nat, start: Timestamp)

  const BILLION: int := 1_000_000_000

  function TimeToProtobuf(t: int): Timestamp { Timestamp(t / BILLION, t - t / BILLION * BILLION) }

  function TimeFromProtobuf(p: Timestamp): int { p.seconds * BILLION + p.nanos }

  /** The wire form is normalised, loses nothing, and no two instants share one. */
  lemma TimestampRoundTrip(t: int, p: Timestamp)
    ensures TimeFromProtobuf(TimeToProtobuf(t)) == t && 0 <= TimeToProtobuf(t).nanos < BILLION
    ensures 0 <= p.nanos < BILLION ==> TimeToProtobuf(TimeFromProtobuf(p)) == p
  {
  }

  function ToProtobuf(id: TransactionId): ProtoId
    reads id.validStart
  {
    ProtoId(id.account, TimeToProtobuf(id.validStart.nanos))
  }

  method FromProtobuf(p: ProtoId) returns (id: TransactionId)
    ensures fresh(id.validStart)
    ensures id.account == p.account && id.validStart.nanos == TimeFromProtobuf(p.start)
  {
    var t := new Time(TimeFromProtobuf(p.start));
    id := TransactionId(p.account, t);
  }

  // ---------------------------------------------------------------- the transaction

  /** The marshalled body of one signed transaction. */
  datatype Body = Body(id: ProtoId, node: nat, contents: seq<byte>)

  /** What the freeze and the requests need of a client; `now` is the generated valid start. */
  datatype Client = Client(nodes: seq<nat>, operator: Option<nat>, now: int, rejectsIds: bool)

  /** The body FreezeWith puts at position `k`: chunk k / nodes for node k % nodes, with the id that many
      nanoseconds after the first. */
  function Planned(contents: seq<byte>, size: int, nodes: seq<nat>, account: nat, base: int, k: nat): Body
    requires size > 0 && nodes != []
  {
    Body(ProtoId(account, TimeToProtobuf(base + RowOf(|nodes|, k))),
         nodes[ColumnOf(|nodes|, k)], Chunk(contents, size, RowOf(|nodes|, k)))
  }

  /** The body at every position is the planned one. */
  predicate AllPlanned(signed: seq<Body>, contents: seq<byte>, size: int, nodes: seq<nat>, account: nat, base: int)
    requires size > 0
  {
    forall k :: 0 <= k < |signed| ==> nodes != [] && signed[k] == Planned(contents, size, nodes, account, base, k)
  }

  /** What planned bodies are, position by position: the i-th slice of the contents for node j, under the id i
      nanoseconds after the first. */
  lemma PlannedBody(signed: seq<Body>, contents: seq<byte>, size: int, nodes: seq<nat>, account: nat, base: int, i: nat, j: nat)
    requires size > 0 && AllPlanned(signed, contents, size, nodes, account, base) && j < |nodes| && i < ChunkCount(|contents|, size)
    requires |signed| == |nodes| * ChunkCount(|contents|, size)
    ensures |nodes| * i + j < |signed| && i * size < |contents|
    ensures var end := if i * size + size <= |contents| then i * size + size else |contents|;
            signed[|nodes| * i + j] == Body(ProtoId(account, TimeToProtobuf(base + i)), nodes[j], contents[i * size..end])
  {
    hide Chunk, ChunkCount, TimeToProtobuf, RowOf, ColumnOf;
    SlotInverse(|nodes|, i, j, ChunkCount(|contents|, size));
    ChunkStart(|contents|, size, i);
    SplitStep(contents, size, i, base);
    var k := |nodes| * i + j;
    assert k == Slot(|nodes|, i, j);
    assert signed[k] == Planned(contents, size, nodes, account, base, k);
  }

  /** Appending a row of bodies keeps every position as planned. */
  lemma RowPlanned(contents: seq<byte>, size: int, nodes: seq<nat>, account: nat, base: int, i: nat, before: seq<Body>, after: seq<Body>)
    requires size > 0 && |before| == Slot(|nodes|, i, 0) && |after| == |before| + |nodes| && after[..|before|] == before
    requires AllPlanned(before, contents, size, nodes, account, base)
    requires forall j :: 0 <= j < |nodes| ==>
      after[|before| + j] == Body(ProtoId(account, TimeToProtobuf(base + i)), nodes[j], Chunk(contents, size, i))
    ensures |after| == Slot(|nodes|, i + 1, 0)
    ensures AllPlanned(after, contents, size, nodes, account, base)
  {
    hide RowOf, ColumnOf, Chunk, TimeToProtobuf;
    assert |nodes| * (i + 1) == |nodes| * i + |nodes|;
    forall k | 0 <= k < |after| ensures nodes != [] && after[k] == Planned(contents, size, nodes, account, base, k) {
      if k < |before| {
        assert after[k] == after[..|before|][k];
      } else {
        SlotInverse(|nodes|, i, k - |before|, i + 1);
        assert after[k] == after[|before| + (k - |before|)];
      }
    }
  }

  lemma NothingPlanned(contents: seq<byte>, size: int, nodes: seq<nat>, account: nat, base: int)
    requires size > 0
    ensures AllPlanned([], contents, size, nodes, account, base)
  {
  }

  lemma SlotStart(nodes: nat)
    ensures Slot(nodes, 0, 0) == 0
  {
  }

  lemma SplitStep(contents: seq<byte>, size: int, i: nat, base: int)
    requires size > 0 && i < ChunkCount(|contents|, size)
    ensures i * size <= |contents| && contents[i * size..Min(i * size + size, |contents|)] == Chunk(contents, size, i)
    ensures TimeFromProtobuf(TimeToProtobuf(base + i)) == base + i
  {
    ChunkStart(|contents|, size, i);
  }

  class FileAppendTransaction {
    var contents: seq<byte>
    var chunkSize: int
    var maxChunks: nat
    var nodes: seq<nat>
    var nodeIndex: nat
    var ids: seq<TransactionId>
    var idIndex: nat
    var signed: seq<Body>

    predicate IsFrozen()
      reads this
    {
      |signed| > 0
    }

    predicate Valid()
      reads this
    {
      chunkSize > 0 && (ids == [] || idIndex < |ids|) && (if nodes == [] then nodeIndex == 0 else nodeIndex < |nodes|)
    }

    function Count(): nat
      reads this
      requires chunkSize > 0
    {
      ChunkCount(|contents|, chunkSize)
    }

    predicate SameSettings(c: seq<byte>, size: int, max: nat, index: nat)
      reads this
    {
      contents == c && chunkSize == size && maxChunks == max && nodeIndex == index
    }

    constructor (contents: seq<byte>, chunkSize: int, maxChunks: nat, nodes: seq<nat>, ids: seq<TransactionId>)
      requires chunkSize > 0
      ensures Valid() && SameSettings(contents, chunkSize, maxChunks, 0)
      ensures this.nodes == nodes && this.ids == ids && signed == [] && idIndex == 0
    {
      this.contents, this.chunkSize, this.maxChunks, this.nodes, this.ids := contents, chunkSize, maxChunks, nodes, ids;
      nodeIndex, idIndex, signed := 0, 0, [];
    }

    method InitTransactionId(client: Option<Client>) returns (ok: bool)
      requires Valid()
      modifies this`ids, this`idIndex
      ensures Valid()
      ensures ok == (old(ids) != [] || (client.Some? && client.value.operator.Some?))
      ensures old(ids) != [] || !ok ==> ids == old(ids) && idIndex == old(idIndex)
      ensures old(ids) == [] && ok ==> idIndex == 0 && |ids| == 1 && fresh(ids[0].validStart)
                                       && ids[0].account == client.value.operator.value
                                       && ids[0].validStart.nanos == client.value.now
    {
      if ids == [] {
        if client.None? || client.value.operator.None? { return false; }
        var t := new Time(client.value.now);
        ids, idIndex := [TransactionId(client.value.operator.value, t)], 0;
      }
      ok := true;
    }

    /** The inner loop of the freeze: one signed transaction per node for one chunk. */
    method PushRow(id: ProtoId, part: seq<byte>)
      modifies this`signed
      ensures |signed| == old(|signed|) + |nodes|
      ensures signed[..old(|signed|)] == old(signed)
      ensures forall j :: 0 <= j < |nodes| ==> signed[old(|signed|) + j] == Body(id, nodes[j], part)
    {
      for j := 0 to |nodes|
        invariant |signed| == old(|signed|) + j
        invariant signed[..old(|signed|)] == old(signed)
        invariant forall m :: 0 <= m < j ==> signed[old(|signed|) + m] == Body(id, nodes[m], part)
      {
        signed := signed + [Body(id, nodes[j], part)];
      }
    }

    /** Stored ids are `account` with valid starts `base`, `base` + 1, … */
    predicate IdsFrom(account: nat, base: int)
      reads this, set i | 0 <= i < |ids| :: ids[i].validStart
    {
      forall i :: 0 <= i < |ids| ==> ids[i].account == account && ids[i].validStart.nanos == base + i
    }

    /** The chunk loop of the freeze. */
    method Split(next: TransactionId, chunks: nat)
      requires chunkSize > 0 && chunks == Count()
      modifies this`ids, this`idIndex, this`signed, next.validStart
      ensures |ids| == chunks && idIndex == 0 && |signed| == Slot(|nodes|, chunks, 0)
      ensures forall i :: 0 <= i < |ids| ==> fresh(ids[i].validStart)
      ensures AllPlanned(signed, contents, chunkSize, nodes, next.account, old(next.validStart.nanos)) && IdsFrom(next.account, old(next.validStart.nanos))
      ensures next.validStart.nanos == old(next.validStart.nanos) + chunks
    {
      hide AllPlanned, Chunk, ChunkCount, TimeToProtobuf, TimeFromProtobuf, Slot;
      ghost var base := next.validStart.nanos;
      SlotStart(|nodes|);
      NothingPlanned(contents, chunkSize, nodes, next.account, base);
      ids, idIndex, signed := [], 0, [];
      var i: nat := 0;
      while i < chunks
        invariant i <= chunks && |ids| == i && idIndex == 0
        invariant next.validStart.nanos == base + i
        invariant |signed| == Slot(|nodes|, i, 0)
        invariant AllPlanned(signed, contents, chunkSize, nodes, next.account, base)
        invariant forall m :: 0 <= m < i ==>
          fresh(ids[m].validStart) && ids[m].validStart != next.validStart
          && ids[m].account == next.account && ids[m].validStart.nanos == base + m
      {
        ghost var before := signed;
        SplitStep(contents, chunkSize, i, base);
        var start := i * chunkSize;
        var end := Min(start + chunkSize, |contents|);
        var copy := FromProtobuf(ToProtobuf(next));
        ids := ids + [copy];
        PushRow(ToProtobuf(next), contents[start..end]);
        RowPlanned(contents, chunkSize, nodes, next.account, base, i, before, signed);
        next.validStart.nanos := next.validStart.nanos + 1;
        i := i + 1;
      }
    }

    lemma FrozenReady(account: nat, base: int)
      requires chunkSize > 0 && AllPlanned(signed, contents, chunkSize, nodes, account, base) && idIndex == 0 && |ids| == Count()
      requires |signed| == Slot(|nodes|, Count(), 0) && (nodes != [] ==> nodeIndex < |nodes|)
      ensures IsFrozen() == (contents != [] && nodes != []) && (IsFrozen() ==> Ready())
    {
      hide Chunk, TimeToProtobuf, RowOf, ColumnOf;
      ChunkCountIsCeiling(|contents|, chunkSize);
      if nodes != [] { Monotone(1, |nodes|, Count()); }
    }

    /** Freezing splits the contents into signed transactions, one per chunk and node. The ids stored beside
        them are copies with valid starts one nanosecond apart, although the loop keeps advancing the valid
        start of the id it was given, which ends past them all. */
    method FreezeWith(client: Option<Client>) returns (ok: bool)
      requires Valid()
      modifies this, if ids != [] && idIndex < |ids| then {ids[idIndex].validStart} else {}
      ensures Valid() && SameSettings(old(contents), old(chunkSize), old(maxChunks), old(nodeIndex))
      ensures old(IsFrozen()) ==>
        ok && signed == old(signed) && ids == old(ids) && nodes == old(nodes) && idIndex == old(idIndex)
      ensures !old(IsFrozen()) ==>
        ok == ( && (old(nodes) != [] || client.Some?)
                && !(client.Some? && client.value.rejectsIds)
                && (old(ids) != [] || (client.Some? && client.value.operator.Some?))
                && Count() <= maxChunks)
      ensures !ok ==> signed == old(signed)
      ensures !ok && old(ids) != [] ==> ids == old(ids) && idIndex == old(idIndex)
      ensures old(ids) != [] && (!ok || old(IsFrozen())) ==>
        old(ids[idIndex].validStart).nanos == old(ids[idIndex].validStart.nanos)
      ensures nodes == if old(IsFrozen()) || old(nodes) != [] || client.None? then old(nodes) else client.value.nodes
      ensures ok && !old(IsFrozen()) ==>
        var account := if old(ids) != [] then old(ids[idIndex].account) else client.value.operator.value;
        var base := if old(ids) != [] then old(ids[idIndex].validStart.nanos) else client.value.now;
        && idIndex == 0 && |ids| == Count()
        && |signed| == Slot(|nodes|, Count(), 0)
        && AllPlanned(signed, contents, chunkSize, nodes, account, base) && IdsFrom(account, base)
        && (forall i :: 0 <= i < |ids| ==> fresh(ids[i].validStart))
        && (old(ids) != [] ==> old(ids[idIndex].validStart).nanos == base + Count())
      ensures ok && !old(IsFrozen()) ==> IsFrozen() == (contents != [] && nodes != []) && (IsFrozen() ==> Ready())
    {
      hide Planned, Ready, Slot, AllPlanned, IdsFrom;
      if IsFrozen() { return true; }
      if nodes == [] {
        if client.None? { return false; }
        nodes := client.value.nodes;
      }
      if client.Some? && client.value.rejectsIds { return false; }
      var found := InitTransactionId(client);
      if !found { return false; }
      var chunks := (|contents| + (chunkSize - 1)) / chunkSize;
      if chunks > maxChunks { return false; }
      var next := ids[idIndex];
      ghost var base := next.validStart.nanos;
      Split(next, chunks);
      FrozenReady(next.account, base);
      ok := true;
    }

    // -------------------------------------------------------------- sending

    /** A frozen transaction between two requests. */
    predicate Ready()
      reads this
    {
      && chunkSize > 0 && nodes != [] && Count() > 0
      && |ids| == Count() && idIndex < |ids| && nodeIndex < |nodes|
      && |signed| == Slot(|nodes|, Count(), 0)
      && forall k :: 0 <= k < |signed| ==>
           && signed[k].contents == Chunk(contents, chunkSize, RowOf(|nodes|, k))
           && signed[k].node == nodes[ColumnOf(|nodes|, k)]
    }

    /** makeRequest: the signed transaction of the current chunk and node, brought up to date with the current
        id, which changes nothing unless the id was regenerated. */
    method MakeRequest() returns (body: Body)
      requires Ready()
      modifies this`signed
      ensures Ready()
      ensures body == Body(ToProtobuf(ids[idIndex]), nodes[nodeIndex], Chunk(contents, chunkSize, idIndex))
      ensures var k := Slot(|nodes|, idIndex, nodeIndex);
        k < old(|signed|) && signed == old(signed)[k := body]
        && (old(signed[k]).id == ToProtobuf(ids[idIndex]) ==> signed == old(signed))
    {
      hide RowOf, ColumnOf, Slot, Chunk, ChunkCount, TimeToProtobuf;
      SlotInverse(|nodes|, idIndex, nodeIndex, |ids|);
      var index := Slot(|nodes|, idIndex, nodeIndex);
      body := signed[index].(id := ToProtobuf(ids[idIndex]));
      signed := signed[index := body];
    }

    lemma ReadyFacts()
      requires Ready()
      ensures chunkSize > 0 && nodes != [] && |ids| == Count() > 0 && idIndex < |ids| && nodeIndex < |nodes|
      ensures |signed| == Slot(|nodes|, |ids|, 0)
    {
    }

    method AdvanceRequest()
      modifies this`nodeIndex
      ensures old(Ready()) ==> Ready()
      ensures nodeIndex == if nodes == [] then old(nodeIndex) else (old(nodeIndex) + 1) % |nodes|
    {
      if |nodes| != 0 { nodeIndex := (nodeIndex + 1) % |nodes|; }
    }

    /** mapResponse names the current id and moves on to the next one. */
    method MapResponse() returns (id: TransactionId)
      requires idIndex < |ids|
      modifies this`idIndex
      ensures old(Ready()) ==> Ready()
      ensures id == ids[old(idIndex)] && idIndex == (old(idIndex) + 1) % |ids|
    {
      id := ids[idIndex];
      idIndex := (idIndex + 1) % |ids|;
    }

    method RegenerateId(account: nat, now: int)
      requires idIndex < |ids|
      modifies this`ids
      ensures old(Ready()) ==> Ready()
      ensures |ids| == old(|ids|) && fresh(ids[idIndex].validStart)
      ensures ids == old(ids)[idIndex := ids[idIndex]]
      ensures ids[idIndex].account == account && ids[idIndex].validStart.nanos == now
    {
      var t := new Time(now);
      ids := ids[idIndex := TransactionId(account, t)];
    }

    /** One attempt of _Execute: the request, and what the environment's answer does to the transaction. */
    method TakeAttempt(cfg: Config, o: Observation, newId: TransactionIdParts) returns (body: Body)
      requires Ready()
      modifies this`signed, this`nodeIndex, this`ids
      ensures Ready() && |ids| == old(|ids|)
      ensures body == Body(old(ToProtobuf(ids[idIndex])), nodes[old(nodeIndex)], Chunk(contents, chunkSize, idIndex))
      ensures nodeIndex == if MovesOn(o) then (old(nodeIndex) + 1) % |nodes| else old(nodeIndex)
      ensures MovesOn(o) <==>
        && !o.batched && o.nodeFound && o.healthy
        && (o.channelError.Some? || o.callError.Some? || o.state.RetryWithAnotherNode?)
      ensures Renews(cfg, o) <==>
        && !o.batched && o.nodeFound && o.healthy && o.channelError.None? && o.callError.None?
        && o.state.Expired? && cfg.isTransaction && o.regenerated
      ensures ids == old(ids)[idIndex := ids[idIndex]] && (!Renews(cfg, o) ==> ids == old(ids))
      ensures ToProtobuf(ids[idIndex]) == if Renews(cfg, o) then NewId(newId) else old(ToProtobuf(ids[idIndex]))
    {
      hide Chunk, ChunkCount, RowOf, ColumnOf, Slot, TimeToProtobuf, Ready, MovesOn, Renews;
      ReadyFacts();
      OnFields(cfg, o);
      body := MakeRequest();
      if MovesOn(o) {
        AdvanceRequest();
      } else if Renews(cfg, o) {
        RegenerateId(newId.account, newId.now);
      }
    }

    /** _Execute on this transaction. The environment fixes the course of the run; in it, every attempt requests
        the chunk that is current at the start, from the node that the advances before it led to, and only a
        finished run moves on to the next chunk. */
    method ExecuteOne(cfg: Config, env: nat -> Observation, newIds: nat -> TransactionIdParts)
      returns (requests: seq<Body>, out: Outcome)
      requires Ready()
      modifies this`signed, this`nodeIndex, this`ids, this`idIndex
      ensures Ready() && |ids| == old(|ids|)
      ensures IsRun(cfg, env, |requests|, out)
      ensures Determined(cfg, env, newIds, nodes, old(nodeIndex), old(ToProtobuf(ids[idIndex])),
                         Chunk(contents, chunkSize, old(idIndex)), requests)
      ensures ids == old(ids)[old(idIndex) := ids[old(idIndex)]]
      ensures ToProtobuf(ids[old(idIndex)]) == IdAt(cfg, env, newIds, |requests|, old(ToProtobuf(ids[idIndex])))
      ensures nodeIndex == NodeAt(cfg, env, |requests|, old(nodeIndex), |nodes|)
      ensures idIndex == if out.Mapped? then (old(idIndex) + 1) % |ids| else old(idIndex)
      ensures KeepsIds(cfg, env, |requests|) ==> ids == old(ids)
    {
      hide Chunk, ChunkCount, Slot, TimeToProtobuf, Ready, IsRun, MovesOn, Renews, NodeAt, RunLog, Logged, Determined, NewId;
      ReadyFacts();
      ghost var start, first, part := nodeIndex, ToProtobuf(ids[idIndex]), Chunk(contents, chunkSize, idIndex);
      NothingSent(cfg, env, newIds, nodes, start, first, part);
      var log, attempts;
      out, log, attempts := RunLoop(cfg, env);
      NodeAtStart(cfg, env, nodeIndex, |nodes|);
      requests := [];
      for k := 0 to attempts
        invariant Ready() && |ids| == old(|ids|) && idIndex == old(idIndex) && |requests| == k
        invariant nodeIndex == NodeAt(cfg, env, k, start, |nodes|)
        invariant Determined(cfg, env, newIds, nodes, start, first, part, requests)
        invariant ids == old(ids)[idIndex := ids[idIndex]] && (KeepsIds(cfg, env, k) ==> ids == old(ids))
        invariant ToProtobuf(ids[idIndex]) == IdAt(cfg, env, newIds, k, first)
      {
        ReadyFacts();
        NodeAtStep(cfg, env, k, start, |nodes|);
        var body := TakeAttempt(cfg, env(k), newIds(k));
        OneSent(cfg, env, newIds, nodes, start, first, part, requests, body);
        requests := requests + [body];
      }
      if out.Mapped? {
        ReadyFacts();
        var _ := MapResponse();
      }
    }

    /** An _Execute as executeAll sees it: the accepted request, or a failure. */
    method Submit(cfg: Config, env: nat -> Observation, newIds: nat -> TransactionIdParts) returns (sent: Option<Body>)
      requires Ready()
      modifies this`signed, this`nodeIndex, this`ids, this`idIndex
      ensures Ready() && |ids| == old(|ids|)
      ensures sent.Some? ==>
        idIndex == (old(idIndex) + 1) % |ids| && sent.value.contents == Chunk(contents, chunkSize, old(idIndex))
      ensures sent.None? <==> Fails(cfg, env)
    {
      hide Chunk, ChunkCount, Ready, Slot, IsRun, NodeAt, KeepsIds, TimeToProtobuf, Fails;
      var requests, out := ExecuteOne(cfg, env, newIds);
      RunEnds(cfg, env, |requests|, out);
      sent := if out.Mapped? then Some(requests[|requests| - 1]) else None;
    }

    /** One iteration of executeAll: an _Execute, repeated as long as the receipt says throttled, given up when a
        run fails. Since every answer moves on to the next id, the last answer belongs to that many chunks
        further on. */
    method ExecuteChunk(cfg: Config, envs: nat -> nat -> Observation, newIds: nat -> nat -> TransactionIdParts,
                        times: nat, regenerated: nat -> Option<TransactionIdParts>, calls: nat)
      returns (sent: Option<Body>)
      requires Ready() && idIndex == Cycle(calls, |ids|)
      modifies this`signed, this`nodeIndex, this`ids, this`idIndex
      ensures Ready() && |ids| == old(|ids|)
      ensures sent.Some? ==>
        && idIndex == Cycle(calls + times + 1, |ids|)
        && sent.value.contents == Chunk(contents, chunkSize, Cycle(calls + times, |ids|))
      ensures sent.None? <==> exists c :: calls <= c <= calls + times && Fails(cfg, envs(c))
    {
      hide Chunk, ChunkCount, Ready, Slot, Cycle, Fails;
      ReadyFacts();
      NextIndex(calls, |ids|);
      sent := Submit(cfg, envs(calls), newIds(calls));
      if sent.None? { return; }
      for t := 0 to times
        invariant Ready() && |ids| == old(|ids|) && sent.Some?
        invariant forall c :: calls <= c <= calls + t ==> !Fails(cfg, envs(c))
        invariant idIndex == Cycle(calls + t + 1, |ids|)
        invariant sent.value.contents == Chunk(contents, chunkSize, Cycle(calls + t, |ids|))
      {
        ReadyFacts();
        var call := calls + t + 1;
        if regenerated(call).Some? { RegenerateId(regenerated(call).value.account, regenerated(call).value.now); }
        NextIndex(call, |ids|);
        sent := Submit(cfg, envs(call), newIds(call));
        if sent.None? { return; }
      }
    }

    /** executeAll, with the attempts, throttled receipts and regenerated ids given by the environment. The run
        stops early when an _Execute fails, or after `stop` chunks when a receipt does. Iteration i ends with the
        answer to call number i + (throttled receipts so far), which carries the chunk of this number, counted
        round the ids. */
    method ExecuteAll(cfg: Config, envs: nat -> nat -> Observation, newIds: nat -> nat -> TransactionIdParts,
                      throttled: nat -> nat, regenerated: nat -> Option<TransactionIdParts>, stop: nat)
      returns (delivered: seq<Body>)
      requires Ready() && idIndex == 0
      modifies this`signed, this`nodeIndex, this`ids, this`idIndex
      ensures Ready()
      ensures |delivered| <= Min(Count(), stop)
      ensures forall c :: 0 <= c < |delivered| + Total(throttled, |delivered|) ==> !Fails(cfg, envs(c))
      ensures |delivered| < Min(Count(), stop) ==>
        exists c :: |delivered| + Total(throttled, |delivered|) <= c <= |delivered| + Total(throttled, |delivered| + 1) && Fails(cfg, envs(c))
      ensures forall i :: 0 <= i < |delivered| ==>
        delivered[i].contents == Chunk(contents, chunkSize, DeliveredChunk(throttled, Count(), i))
      ensures (forall i :: 0 <= i < Count() ==> Multiple(throttled(i), Count())) ==>
        && Joined(Payloads(delivered)) == contents[..Min(|delivered| * chunkSize, |contents|)]
        && (|delivered| == Count() ==> Joined(Payloads(delivered)) == contents)
    {
      hide Chunk, ChunkCount, Total, Ready, Slot, Cycle, Multiple, Joined, Payloads, DeliveredChunk, Fails;
      ReadyFacts();
      var size := |signed| / |nodes|;
      QuotientRecoversChunks(|nodes|, |ids|);
      delivered := [];
      var i, calls := 0, 0;
      var failed := false;
      TotalStep(throttled, 0);
      CycleStart(size);
      while i < size && i < stop && !failed
        invariant Ready() && i <= Min(size, stop) && size == |ids| == Count() && |delivered| == i
        invariant calls == i + Total(throttled, i) && (failed || idIndex == Cycle(calls, size))
        invariant forall c :: 0 <= c < calls ==> !Fails(cfg, envs(c))
        invariant failed ==> exists c :: calls <= c <= i + Total(throttled, i + 1) && Fails(cfg, envs(c))
        invariant forall m :: 0 <= m < i ==>
          delivered[m].contents == Chunk(contents, chunkSize, DeliveredChunk(throttled, size, m))
        decreases size - i, !failed
      {
        TotalStep(throttled, i);
        DeliveredStep(throttled, size, i);
        var sent := ExecuteChunk(cfg, envs, newIds, throttled(i), regenerated, calls);
        if sent.None? {
          failed := true;
        } else {
          calls := calls + throttled(i) + 1;
          delivered := delivered + [sent.value];
          i := i + 1;
        }
      }
      if i < size && !failed {  // the iteration whose receipt fails
        var _ := ExecuteChunk(cfg, envs, newIds, throttled(i), regenerated, calls);
      }
      if forall k :: 0 <= k < Count() ==> Multiple(throttled(k), Count()) {
        DeliveredJoins(contents, chunkSize, throttled, delivered);
      }
    }

    /** GetTransactionBodySizeAllChunks, with the marshalled size of a body left open. It reports every chunk
        exactly with one node or one chunk, and zeros for the last ones otherwise. */
    method BodySizes(size: Body -> nat) returns (sizes: seq<nat>)
      requires Ready()
      ensures |sizes| == Count()
      ensures forall c :: 0 <= c < |sizes| ==>
        && Slot(|nodes|, c, 0) < |signed|
        && sizes[c] == if Slot(|nodes|, c, 0) < Count() then size(signed[Slot(|nodes|, c, 0)]) else 0
      ensures (forall b :: size(b) > 0) ==>
        ((forall c :: 0 <= c < |sizes| ==> Slot(|nodes|, c, 0) < |signed| && sizes[c] == size(signed[Slot(|nodes|, c, 0)]))
         <==> |nodes| == 1 || Count() <= 1)
    {
      hide Chunk, ChunkCount, RowOf, ColumnOf;
      var chunks := |ids|;
      sizes := seq(chunks, _ => 0);
      var i, index := 0, 0;
      forall c | 0 <= c < chunks ensures Slot(|nodes|, c, 0) < |signed| { Monotone(c + 1, chunks, |nodes|); }
      Monotone(1, |nodes|, chunks);
      while i < chunks
        invariant i == Slot(|nodes|, index, 0) && |sizes| == chunks
        invariant forall c :: 0 <= c < index ==> Slot(|nodes|, c, 0) < chunks
        invariant forall c :: 0 <= c < chunks ==>
          Slot(|nodes|, c, 0) < |signed| && sizes[c] == if c < index then size(signed[Slot(|nodes|, c, 0)]) else 0
        decreases chunks - i
      {
        Monotone(1, |nodes|, index);
        sizes := sizes[index := size(signed[i])];
        assert |nodes| * (index + 1) == |nodes| * index + |nodes|;
        i := i + |nodes|;
        index := index + 1;
      }
      forall c | index <= c < chunks ensures Slot(|nodes|, c, 0) >= chunks {
        Monotone(index, c, |nodes|);
      }
      SlotsInsideIff(|nodes|, chunks);
    }
  }

  // ---------------------------------------------------------------- runs of executeAll

  datatype TransactionIdParts = TransactionIdParts(account: nat, now: int)

  /** The answer that makes _Execute regenerate the id. */
  predicate Renews(cfg: Config, o: Observation)
  {
    Answered(o) && o.state.Expired? && cfg.isTransaction && o.regenerated
  }

  predicate KeepsIds(cfg: Config, env: nat -> Observation, n: nat) { forall k :: 0 <= k < n ==> !Renews(cfg, env(k)) }

  lemma OnFields(cfg: Config, o: Observation)
    ensures MovesOn(o) <==>
      && !o.batched && o.nodeFound && o.healthy
      && (o.channelError.Some? || o.callError.Some? || o.state.RetryWithAnotherNode?)
    ensures Renews(cfg, o) <==>
      && !o.batched && o.nodeFound && o.healthy && o.channelError.None? && o.callError.None?
      && o.state.Expired? && cfg.isTransaction && o.regenerated
  {
  }

  function NewId(parts: TransactionIdParts): ProtoId { ProtoId(parts.account, TimeToProtobuf(parts.now)) }

  /** The id of attempt `k`: that of the last renewal before it, or the first one if there was none. */
  function IdAt(cfg: Config, env: nat -> Observation, newIds: nat -> TransactionIdParts, k: nat, first: ProtoId): (id: ProtoId)
    ensures KeepsIds(cfg, env, k) ==> id == first
  {
    if k == 0 then first
    else if Renews(cfg, env(k - 1)) then NewId(newIds(k - 1))
    else IdAt(cfg, env, newIds, k - 1, first)
  }

  /** Attempt k sends `part` under the id and to the node that the answers before it determine. */
  ghost predicate Determined(cfg: Config, env: nat -> Observation, newIds: nat -> TransactionIdParts, nodes: seq<nat>,
                             start: nat, first: ProtoId, part: seq<byte>, requests: seq<Body>)
    requires nodes != []
  {
    forall k :: 0 <= k < |requests| ==>
      requests[k] == Body(IdAt(cfg, env, newIds, k, first), nodes[NodeAt(cfg, env, k, start, |nodes|)], part)
  }

  lemma NothingSent(cfg: Config, env: nat -> Observation, newIds: nat -> TransactionIdParts, nodes: seq<nat>,
                    start: nat, first: ProtoId, part: seq<byte>)
    requires nodes != []
    ensures Determined(cfg, env, newIds, nodes, start, first, part, [])
  {
  }

  lemma OneSent(cfg: Config, env: nat -> Observation, newIds: nat -> TransactionIdParts, nodes: seq<nat>,
                start: nat, first: ProtoId, part: seq<byte>, requests: seq<Body>, body: Body)
    requires nodes != [] && Determined(cfg, env, newIds, nodes, start, first, part, requests)
    requires var k := |requests|; body == Body(IdAt(cfg, env, newIds, k, first), nodes[NodeAt(cfg, env, k, start, |nodes|)], part)
    ensures Determined(cfg, env, newIds, nodes, start, first, part, requests + [body])
  {
    hide IdAt, NodeAt;
  }

  /** The run ends in anything but a mapped response. */
  ghost predicate Fails(cfg: Config, env: nat -> Observation)
  {
    exists n: nat, out :: IsRun(cfg, env, n, out) && !out.Mapped?
  }

  lemma RunEnds(cfg: Config, env: nat -> Observation, n: nat, out: Outcome)
    requires IsRun(cfg, env, n, out)
    ensures out.Mapped? ==> n > 0
    ensures !out.Mapped? <==> Fails(cfg, env)
  {
    if Fails(cfg, env) {
      var m: nat, o :| IsRun(cfg, env, m, o) && !o.Mapped?;
      RunUnique(cfg, env, n, out, m, o);
    }
  }

  /** The node of attempt `k` in a run that started at `start`: one further for every advance logged before. */
  ghost function NodeAt(cfg: Config, env: nat -> Observation, k: nat, start: nat, nodes: nat): (i: nat)
    requires nodes > 0
    ensures i < nodes
  {
    Cycle(start + Advances(RunLog(cfg, env, k)), nodes)
  }

  lemma NodeAtStart(cfg: Config, env: nat -> Observation, start: nat, nodes: nat)
    requires start < nodes
    ensures NodeAt(cfg, env, 0, start, nodes) == start
  {
    AdvancesStep(cfg, env, 0);
  }

  lemma NodeAtStep(cfg: Config, env: nat -> Observation, k: nat, start: nat, nodes: nat)
    requires nodes > 0
    ensures var i := NodeAt(cfg, env, k, start, nodes);
      NodeAt(cfg, env, k + 1, start, nodes) == if MovesOn(env(k)) then (i + 1) % nodes else i
  {
    hide Advances, RunLog, Cycle, MovesOn;
    AdvancesStep(cfg, env, k);
    NextIndex(start + Advances(RunLog(cfg, env, k)), nodes);
  }

  /** Throttled receipts over the first `n` chunks. */
  function Total(throttled: nat -> nat, n: nat): nat
  {
    if n == 0 then 0 else Total(throttled, n - 1) + throttled(n - 1)
  }

  lemma TotalStep(throttled: nat -> nat, n: nat)
    ensures Total(throttled, 0) == 0 && Total(throttled, n + 1) == Total(throttled, n) + throttled(n)
  {
  }

  function DeliveredChunk(throttled: nat -> nat, n: nat, i: nat): nat
    requires n > 0
  {
    Cycle(i + Total(throttled, i + 1), n)
  }

  lemma DeliveredStep(throttled: nat -> nat, n: nat, i: nat)
    requires n > 0
    ensures DeliveredChunk(throttled, n, i) == Cycle(i + Total(throttled, i + 1), n)
  {
  }

  /** Position after `k` steps round a list of `n`. */
  function Cycle(k: nat, n: nat): (i: nat)
    requires n > 0
    ensures i < n
  {
    k % n
  }

  lemma CycleStart(n: nat)
    requires n > 0
    ensures Cycle(0, n) == 0
  {
  }

  lemma NextIndex(k: nat, n: nat)
    requires n > 0
    ensures (Cycle(k, n) + 1) % n == Cycle(k + 1, n)
  {
    SameModulus(k % n + 1, k + 1, k / n, n);
    assert k == n * (k / n) + k % n;
  }

  lemma SameModulus(a: nat, b: nat, q: nat, n: nat)
    requires n > 0 && b == n * q + a
    ensures b % n == a % n
  {
    var c, r := a / n, a % n;
    assert a == n * c + r;
    assert n * (q + c) == n * q + n * c;
    ModUnique(b, n, q + c, r);
  }

  lemma MultipleShift(a: nat, m: nat, n: nat)
    requires n > 0 && m % n == 0
    ensures (a + m) % n == a % n
  {
    SameModulus(a, a + m, m / n, n);
  }

  lemma ShiftBack(i: nat, m: nat, n: nat)
    requires i < n && (i + m) % n == i
    ensures m % n == 0
  {
    var q := (i + m) / n;
    assert i + m == n * q + i;
    ModUnique(m, n, q, 0);
  }

  /** Each chunk is the one delivered in its turn exactly when every chunk's number of throttled receipts is a
      multiple of the number of chunks: always for a single chunk, otherwise essentially only without any. */
  lemma DeliveredInOrderIff(throttled: nat -> nat, n: nat)
    requires n > 0
    ensures (forall i :: 0 <= i < n ==> DeliveredChunk(throttled, n, i) == i) <==> (forall i :: 0 <= i < n ==> Multiple(throttled(i), n))
  {
    hide Total, DeliveredChunk, Multiple;
    if forall i :: 0 <= i < n ==> Multiple(throttled(i), n) {
      forall i | 0 <= i < n ensures DeliveredChunk(throttled, n, i) == i {
        TotalMultiple(throttled, n, i + 1);
        InTurnIff(throttled, n, i);
      }
    }
    if forall i :: 0 <= i < n ==> DeliveredChunk(throttled, n, i) == i {
      forall i | 0 <= i < n ensures Multiple(throttled(i), n) {
        InTurnIff(throttled, n, i);
        assert DeliveredChunk(throttled, n, i) == i;
        TotalStep(throttled, i);
        NoneIsMultiple(throttled, n);
        if i > 0 {
          InTurnIff(throttled, n, i - 1);
          assert DeliveredChunk(throttled, n, i - 1) == i - 1;
        }
        MultipleRest(Total(throttled, i), throttled(i), n);
      }
    }
  }

  predicate Multiple(m: nat, n: nat) requires n > 0 { m % n == 0 }

  lemma NoneIsMultiple(throttled: nat -> nat, n: nat)
    requires n > 0
    ensures Multiple(Total(throttled, 0), n)
  {
  }

  lemma MultipleRest(a: nat, b: nat, n: nat)
    requires n > 0 && Multiple(a, n)
    ensures Multiple(a + b, n) == Multiple(b, n)
  {
    MultipleShift(b, a, n);
  }

  lemma InTurnIff(throttled: nat -> nat, n: nat, i: nat)
    requires i < n
    ensures DeliveredChunk(throttled, n, i) == i <==> Multiple(Total(throttled, i + 1), n)
  {
    hide Total;
    InPlaceIff(i, Total(throttled, i + 1), n);
  }

  lemma InPlaceIff(i: nat, m: nat, n: nat)
    requires i < n
    ensures (i + m) % n == i <==> m % n == 0
  {
    if m % n == 0 {
      MultipleShift(i, m, n);
      CycleSmall(i, n);
    } else if (i + m) % n == i {
      ShiftBack(i, m, n);
    }
  }

  lemma CycleSmall(i: nat, n: nat)
    requires i < n
    ensures i % n == i
  {
  }

  lemma {:induction false} TotalMultiple(throttled: nat -> nat, n: nat, k: nat)
    requires n > 0 && k <= n && forall i :: 0 <= i < n ==> Multiple(throttled(i), n)
    ensures Multiple(Total(throttled, k), n)
  {
    hide Multiple;
    NoneIsMultiple(throttled, n);
    if k > 0 {
      TotalMultiple(throttled, n, k - 1);
      MultipleRest(Total(throttled, k - 1), throttled(k - 1), n);
    }
  }

  function Payloads(bodies: seq<Body>): (parts: seq<seq<byte>>)
    ensures |parts| == |bodies|
  {
    seq(|bodies|, i requires 0 <= i < |bodies| => bodies[i].contents)
  }

  /** What executeAll delivered joins to the contents, or to the prefix it reached, when the throttled receipts
      keep the order; `delivered` is any list with the contents ExecuteAll promises. */
  lemma DeliveredJoins(contents: seq<byte>, size: int, throttled: nat -> nat, delivered: seq<Body>)
    requires size > 0
    requires var n := ChunkCount(|contents|, size);
      && n > 0 && |delivered| <= n
      && (forall i :: 0 <= i < |delivered| ==> delivered[i].contents == Chunk(contents, size, DeliveredChunk(throttled, n, i)))
      && (forall i :: 0 <= i < n ==> Multiple(throttled(i), n))
    ensures Joined(Payloads(delivered)) == contents[..Min(|delivered| * size, |contents|)]
    ensures |delivered| == ChunkCount(|contents|, size) ==> Joined(Payloads(delivered)) == contents
  {
    hide Chunk, Joined, ChunkCount, DeliveredChunk;
    DeliveredInOrderIff(throttled, ChunkCount(|contents|, size));
    assert Payloads(delivered) == Chunks(contents, size, |delivered|);
    ChunksJoin(contents, size, |delivered|);
  }

  /** Two chunks and one throttled receipt: the second chunk is sent in place of the first, then the first. */
  lemma ThrottledOutOfOrder(a: byte, b: byte)
    ensures var t := (i: nat) => if i == 0 then 1 else 0;
      && ChunkCount(2, 1) == 2
      && Chunk([a, b], 1, DeliveredChunk(t, 2, 0)) == [b]
      && Chunk([a, b], 1, DeliveredChunk(t, 2, 1)) == [a]
  {
    var t := (i: nat) => if i == 0 then 1 else 0;
    assert Total(t, 1) == 1;
    assert Total(t, 2) == 1;
  }

  lemma SlotsInsideIff(nodes: nat, chunks: nat)
    requires nodes > 0
    ensures (forall c :: 0 <= c < chunks ==> Slot(nodes, c, 0) < chunks) <==> (nodes == 1 || chunks <= 1)
    ensures nodes > 1 && chunks > 1 ==> Slot(nodes, chunks - 1, 0) >= chunks
  {
    if nodes > 1 && chunks > 1 {
      assert Slot(nodes, chunks - 1, 0) >= chunks by {
        Monotone(2, nodes, chunks - 1);
        assert nodes * (chunks - 1) >= 2 * (chunks - 1);
      }
    }
  }
}
