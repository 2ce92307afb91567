/** The storage engine as the program has it: objects whose methods read, append
    to, replace and delete files, step by step. Every method is proved to take
    exactly the durable steps of its plan, in that order, and to leave memory as
    the plan says, on any directory. What the plans keep is proved elsewhere. */
module Engine {
  import opened Words
  import opened Records
  import opened Codec
  import opened Checksum
  import opened Encoding
  import opened Replay
  import opened Disks
  import opened DurableSteps
  import opened Protocol
  import opened Runs

  // ---- the directory -------------------------------------------------------------------------

  /** The files of a storage directory. `trace` records the durable steps taken. */
  class Directory {
    var segs: map<SegmentId, SegmentFile>
    var registry: Registry
    var index: Checkpoints
    ghost var trace: seq<Micro>

    ghost function View(): Disk
      reads this
    {
      Disk(segs, registry, index)
    }

    /** The steps taken since. */
    twostate predicate Took(steps: seq<Micro>)
      reads this
    {
      View() == DiskAfter(old(View()), steps) && trace == old(trace) + steps
    }

    function Files(): Segments
      reads this
    {
      map id | id in segs :: segs[id].bytes
    }

    method CreateSegmentFile(id: SegmentId)
      requires id !in segs
      modifies this
      ensures Took([CreateSegment(id)])
    {
      TakeOne(View(), CreateSegment(id));
      segs := segs[id := SegmentFile([], 0)];
      trace := trace + [CreateSegment(id)];
    }

    method WriteMagic(id: SegmentId)
      requires id in segs
      modifies this
      ensures Took([WriteHeader(id)])
    {
      TakeOne(View(), WriteHeader(id));
      segs := segs[id := segs[id].(bytes := segs[id].bytes + SEGMENT_MAGIC)];
      trace := trace + [WriteHeader(id)];
    }

    method WriteRecordFrame(id: SegmentId, frame: seq<byte>, ghost r: NodeRecord)
      requires id in segs && Encodable(r) && frame == Encoding.Frame(r)
      modifies this
      ensures Took([WriteFrame(id, r)])
    {
      hide Encodable, Encoding.Frame;
      TakeOne(View(), WriteFrame(id, r));
      segs := segs[id := segs[id].(bytes := segs[id].bytes + frame)];
      trace := trace + [WriteFrame(id, r)];
    }

    method SyncFile(id: SegmentId)
      requires id in segs
      modifies this
      ensures Took([SyncData(id)])
    {
      TakeOne(View(), SyncData(id));
      segs := segs[id := segs[id].(durable := |segs[id].bytes|)];
      trace := trace + [SyncData(id)];
    }

    method TruncateFile(id: SegmentId, len: nat)
      requires id in segs && len <= |segs[id].bytes|
      modifies this
      ensures Took([Truncate(id, len)])
    {
      TakeOne(View(), Truncate(id, len));
      segs := segs[id := SegmentFile(segs[id].bytes[..len], Min(segs[id].durable, len))];
      trace := trace + [Truncate(id, len)];
    }

    method ReplaceIndex(index: Checkpoints)
      modifies this
      ensures Took([SaveIndex(index)]) && segs == old(segs)
    {
      TakeOne(View(), SaveIndex(index));
      this.index := index;
      trace := trace + [SaveIndex(index)];
    }

    method ReplaceRegistry(registry: Registry)
      modifies this
      ensures Took([SaveRegistry(registry)]) && segs == old(segs)
    {
      TakeOne(View(), SaveRegistry(registry));
      this.registry := registry;
      trace := trace + [SaveRegistry(registry)];
    }

    /** `remove_file`; a file that is already gone is fine. */
    method RemoveFile(id: SegmentId)
      modifies this
      ensures Took([DeleteSegment(id)]) && segs == old(segs) - {id}
    {
      TakeOne(View(), DeleteSegment(id));
      segs := segs - {id};
      trace := trace + [DeleteSegment(id)];
    }
  }

  lemma TakeOne(d: Disk, m: Micro)
    ensures DiskAfter(d, [m]) == ApplyMicro(d, m)
  {
    assert [m][1..] == [];
  }

  lemma {:induction false} TakeBoth(d: Disk, a: seq<Micro>, b: seq<Micro>)
    ensures DiskAfter(d, a + b) == DiskAfter(DiskAfter(d, a), b)
    decreases |a|
  {
    hide ApplyMicro;
    if a == [] {
      assert a + b == b;
    } else {
      assert (a + b)[1..] == a[1..] + b;
      TakeBoth(ApplyMicro(d, a[0]), a[1..], b);
    }
  }

  // ---- counters and tables ----------------------------------------------------------------------

  function Sum(values: seq<nat>): nat {
    if values == [] then 0 else values[0] + Sum(values[1..])
  }

  lemma {:induction false} SumOneMore(values: seq<nat>, value: nat)
    ensures Sum(values + [value]) == Sum(values) + value
    decreases |values|
  {
    if values == [] {
      assert [value][1..] == [];
      assert values + [value] == [value];
    } else {
      assert (values + [value])[1..] == values[1..] + [value];
      SumOneMore(values[1..], value);
    }
  }

  /** `unsynced_records` and `unsynced_bytes`, which decide whether `sync` does anything.
      `written` lists the lengths of the records written since the last sync. */
  class Metrics {
    var unsyncedRecords: nat
    var unsyncedBytes: nat
    ghost var written: seq<nat>

    /** The counters hold how many records were written since the last sync and how many bytes they
        have, or the greatest 64-bit number if that is less: they never wrap. */
    ghost predicate Valid()
      reads this
    {
      && unsyncedRecords == Min(|written|, U64_LIMIT - 1)
      && unsyncedBytes == Min(Sum(written), U64_LIMIT - 1)
    }

    constructor ()
      ensures Valid() && written == [] && unsyncedRecords == 0 && unsyncedBytes == 0
    {
      unsyncedRecords, unsyncedBytes, written := 0, 0, [];
    }

    method RecordWritten(bytes: nat)
      requires Valid()
      modifies this
      ensures Valid() && written == old(written) + [bytes]
      ensures unsyncedRecords == SaturatingAdd(old(unsyncedRecords), 1)
      ensures unsyncedBytes == SaturatingAdd(old(unsyncedBytes), bytes)
    {
      SumOneMore(written, bytes);
      unsyncedRecords := SaturatingAdd(unsyncedRecords, 1);
      unsyncedBytes := SaturatingAdd(unsyncedBytes, bytes);
      written := written + [bytes];
    }

    method SegmentSynced()
      modifies this
      ensures Valid() && written == [] && unsyncedRecords == 0 && unsyncedBytes == 0
    {
      unsyncedRecords, unsyncedBytes, written := 0, 0, [];
    }
  }

  /** The counters are both zero exactly as long as nothing was written since the last sync. */
  lemma NothingPending(metrics: Metrics)
    requires metrics.Valid()
    ensures metrics.unsyncedRecords == 0 && metrics.unsyncedBytes == 0 <==> metrics.written == []
  {
  }

  class NodeRegistry {
    var nodes: Registry

    constructor (nodes: Registry)
      ensures this.nodes == nodes
    {
      this.nodes := nodes;
    }

    /** A node ID can be created once, ever. */
    method CreateNode(node: NodeId) returns (ok: bool)
      modifies this
      ensures ok <==> node !in old(nodes)
      ensures nodes == if ok then old(nodes)[node := false] else old(nodes)
    {
      if node in nodes {
        return false;
      }
      nodes := nodes[node := false];
      return true;
    }

    /** A removed ID stays reserved. */
    method RemoveNode(node: NodeId) returns (ok: bool)
      modifies this
      ensures ok <==> IsActive(old(nodes), node)
      ensures nodes == if ok then old(nodes)[node := true] else old(nodes)
    {
      if node !in nodes {
        return false;
      }
      if nodes[node] {
        return false;
      }
      nodes := nodes[node := true];
      return true;
    }
  }

  class CheckpointIndex {
    var nodes: Checkpoints

    constructor (nodes: Checkpoints)
      ensures this.nodes == nodes
    {
      this.nodes := nodes;
    }

    method SetCheckpointPosition(node: NodeId, position: RecordPosition)
      modifies this
      ensures nodes == old(nodes)[node := position]
    {
      nodes := nodes[node := position];
    }

    method RemoveNode(node: NodeId)
      modifies this
      ensures nodes == old(nodes) - {node}
    {
      nodes := nodes - {node};
    }

    /** Positions of all the given nodes, or none if one of them has none. */
    method CheckpointPositions(nodeIds: set<NodeId>) returns (r: Option<Checkpoints>)
      ensures r == HintsFor(nodes, nodeIds)
    {
      var positions: Checkpoints := map[];
      var rest := nodeIds;
      while rest != {}
        invariant rest <= nodeIds && nodeIds - rest <= nodes.Keys
        invariant positions == map n | n in nodeIds - rest :: nodes[n]
        decreases rest
      {
        var n :| n in rest;
        if n !in nodes {
          return None;
        }
        positions, rest := positions[n := nodes[n]], rest - {n};
      }
      assert nodeIds - rest == nodeIds;
      assert positions == HintsFor(nodes, nodeIds).value;
      return Some(positions);
    }

    /** The oldest segment that holds a checkpoint some active node needs. */
    method GcBarrier(active: set<NodeId>) returns (b: Option<Barrier>)
      ensures IsBarrier(nodes, active, b)
    {
      var oldest: Option<SegmentId> := None;
      var rest := active;
      while rest != {}
        invariant rest <= active && active - rest <= nodes.Keys
        invariant match oldest
                  case None => active - rest == {}
                  case Some(s) => active - rest != {} && LeastCheckpointSegment(nodes, active - rest, s)
        decreases rest
      {
        var n :| n in rest;
        if n !in nodes {
          return None;
        }
        var segment := nodes[n].segment;
        assert active - (rest - {n}) == (active - rest) + {n};
        oldest := Some(if oldest.Some? && oldest.value < segment then oldest.value else segment);
        rest := rest - {n};
      }
      assert active - rest == active;
      return Some(if oldest.Some? then BeforeSegment(oldest.value) else AllInactive);
    }
  }

  // ---- the writer ---------------------------------------------------------------------------------

  class SegmentWriter {
    const dir: Directory
    var activeSegment: SegmentId
    var segmentLen: nat
    const maxSegmentLen: nat

    /** Opens the active file, creating it or completing an empty one. */
    constructor (dir: Directory, active: SegmentId, maxSegmentLen: nat)
      requires forall id :: id in dir.segs ==> id <= active
      modifies dir
      ensures this.dir == dir && this.maxSegmentLen == maxSegmentLen && activeSegment == active
      ensures dir.Took(WriterSteps(old(dir.View()), active))
      ensures Ready() && segmentLen == |dir.segs[active].bytes|
    {
      this.dir, this.maxSegmentLen, activeSegment, segmentLen := dir, maxSegmentLen, active, 0;
      new;
      ghost var d := dir.View();
      if active !in dir.segs {
        dir.CreateSegmentFile(active);
        TakeOne(d, CreateSegment(active));
        dir.WriteMagic(active);
        TakeOne(ApplyMicro(d, CreateSegment(active)), WriteHeader(active));
        TakeBoth(d, [CreateSegment(active)], [WriteHeader(active)]);
        assert [CreateSegment(active)] + [WriteHeader(active)] == [CreateSegment(active), WriteHeader(active)];
      } else if dir.segs[active].bytes == [] {
        dir.WriteMagic(active);
        TakeOne(d, WriteHeader(active));
      }
      segmentLen := |dir.segs[active].bytes|;
    }

    /** The file it appends to is there and is the last one. */
    predicate Ready()
      reads this, dir
    {
      activeSegment in dir.segs && forall id :: id in dir.segs ==> id <= activeSegment
    }

    /** The part of the engine's memory that the writer and the counters hold. */
    ghost predicate Holds(m: Memory, metrics: Metrics)
      reads this, metrics
    {
      && m.active == activeSegment && m.segmentLen == segmentLen && m.maxSegmentLen == maxSegmentLen
      && m.unsyncedRecords == metrics.unsyncedRecords && m.unsyncedBytes == metrics.unsyncedBytes
      && metrics.Valid()
    }

    method SyncCurrentSegment(metrics: Metrics, ghost m: Memory)
      requires Ready() && Holds(m, metrics)
      modifies dir, metrics
      ensures Ready() && Holds(Synced(m), metrics) && dir.Took([SyncData(m.active)])
    {
      TakeOne(dir.View(), SyncData(activeSegment));
      dir.SyncFile(activeSegment);
      metrics.SegmentSynced();
    }

    /** Syncs the active file exactly when a record was written since the last sync. */
    method Sync(metrics: Metrics, ghost m: Memory)
      requires Ready() && Holds(m, metrics)
      modifies dir, metrics
      ensures Ready() && Holds(SyncPlan(m).memory, metrics) && dir.Took(SyncPlan(m).steps)
      ensures dir.Took(if old(metrics.written) != [] then [SyncData(activeSegment)] else []) && metrics.written == []
    {
      NothingPending(metrics);
      if metrics.unsyncedRecords != 0 || metrics.unsyncedBytes != 0 {
        SyncCurrentSegment(metrics, m);
      }
    }

    method Rotate(metrics: Metrics, ghost m: Memory) returns (ok: bool)
      requires Ready() && Holds(m, metrics)
      modifies this, dir, metrics
      ensures ok == RotatePlan(m).ok
      ensures Ready() && Holds(RotatePlan(m).memory, metrics) && dir.Took(RotatePlan(m).steps)
    {
      ghost var d := dir.View();
      SyncCurrentSegment(metrics, m);
      if activeSegment + 1 == U64_LIMIT {
        return false;
      }
      var next := activeSegment + 1;
      ghost var sync, create, header := SyncData(activeSegment), CreateSegment(next), WriteHeader(next);
      dir.CreateSegmentFile(next);
      TakeOne(DiskAfter(d, [sync]), create);
      dir.WriteMagic(next);
      TakeOne(DiskAfter(DiskAfter(d, [sync]), [create]), header);
      TakeBoth(d, [sync], [create] + [header]);
      TakeBoth(DiskAfter(d, [sync]), [create], [header]);
      assert [sync] + ([create] + [header]) == [sync, create, header] == RotatePlan(m).steps;
      activeSegment, segmentLen := next, SEGMENT_HEADER_LEN;
      return true;
    }

    method Append(node: NodeId, record: Record, metrics: Metrics, table: array2<bv32>, ghost m: Memory)
      returns (position: Option<RecordPosition>)
      requires IsTable(table) && RecordInIndexSpace(record) && Ready() && Holds(m, metrics)
      modifies this, dir, metrics
      ensures var r := NodeRecord(node, record);
              var pl := AppendPlan(m, r);
              && (position.Some? <==> pl.ok) && (pl.ok ==> Encodable(r) && position.value == AppendPosition(m, r))
              && Ready() && Holds(pl.memory, metrics) && dir.Took(pl.steps)
      ensures position.Some? ==> metrics.written != []
    {
      hide Encodable, Encoding.Frame, IsTable, RotatePlan, DiskAfter;
      ghost var r := NodeRecord(node, record);
      ghost var d := dir.View();
      Nothing(d);
      var frame := EncodeRecordFrame(node, record, table);
      if frame.None? {
        return None;
      }
      var writtenBytes := |frame.value|;
      ghost var rotation := if ShouldRotate(m, writtenBytes) then RotatePlan(m) else Plan(true, [], m);
      if ShouldRotateNow(writtenBytes) {
        var rotated := Rotate(metrics, m);
        if !rotated {
          return None;
        }
      }
      RotateMemory(m);
      assert Holds(rotation.memory, metrics) && dir.Took(rotation.steps);
      position := Some(RecordPosition(activeSegment, segmentLen));
      dir.WriteRecordFrame(activeSegment, frame.value, r);
      KeysAfterWrite(DiskAfter(d, rotation.steps), activeSegment, r);
      TakeBoth(d, rotation.steps, [WriteFrame(activeSegment, r)]);
      segmentLen := segmentLen + writtenBytes;
      metrics.RecordWritten(writtenBytes);
    }

    /** `should_rotate`. */
    predicate ShouldRotateNow(writtenBytes: nat)
      reads this
    {
      if segmentLen <= SEGMENT_HEADER_LEN then false
      else U64_LIMIT <= segmentLen + writtenBytes || maxSegmentLen < segmentLen + writtenBytes
    }
  }

  lemma Nothing(d: Disk)
    ensures DiskAfter(d, []) == d
  {
  }

  lemma RotateMemory(m: Memory)
    ensures RotatePlan(m).ok <==> m.active + 1 < U64_LIMIT
    ensures RotatePlan(m).ok ==>
              RotatePlan(m).memory.active == m.active + 1 && RotatePlan(m).memory.segmentLen == SEGMENT_HEADER_LEN
  {
  }

  lemma KeysAfterWrite(d: Disk, id: SegmentId, r: NodeRecord)
    requires id in d.segs
    ensures DiskAfter(d, [WriteFrame(id, r)]).segs.Keys == d.segs.Keys
  {
    TakeOne(d, WriteFrame(id, r));
  }
}
