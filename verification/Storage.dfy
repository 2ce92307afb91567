/** `StorageEngine` and `ReadOnlyStorage`. Each operation of the engine takes
    exactly the steps of its plan, on any directory; each load returns what its
    specification says. */
module Storage {
  import opened Words
  import opened Records
  import opened Sorted
  import opened Codec
  import opened Checksum
  import opened Decoding
  import opened Frames
  import opened NodeStates
  import opened Replay
  import opened ReplayProofs
  import opened Recovery
  import opened Disks
  import opened DurableSteps
  import opened Protocol
  import opened Runs
  import opened Engine

  // ---- opening -----------------------------------------------------------------------------------

  /** The directory's segments, oldest first. */
  method ListSegments(dir: Directory) returns (ids: seq<SegmentId>)
    ensures ids == Ascending(dir.segs.Keys) && Increasing(ids)
    ensures forall id :: id in ids <==> id in dir.segs
  {
    hide Ascending;
    ids := Replayer.DiscoverSegments(dir.Files());
    assert dir.Files().Keys == dir.segs.Keys;
    AscendingIs(dir.segs.Keys);
  }

  /** `select_active_append_segment`. */
  method SelectActiveSegment(dir: Directory) returns (active: SegmentId)
    ensures active == SelectActive(dir.segs.Keys)
    ensures forall id :: id in dir.segs ==> id <= active
    ensures dir.segs != map[] ==> active in dir.segs
  {
    hide Ascending;
    var ids := ListSegments(dir);
    AscendingIs(dir.segs.Keys);
    if ids == [] {
      assert dir.segs.Keys == {};
      return 0;
    }
    assert ids[|ids| - 1] in ids;
    return ids[|ids| - 1];
  }

  /** Every file of a directory can be recovered. */
  ghost predicate Recoverable(d: Disk, active: SegmentId) {
    forall id :: id in d.segs ==> Recovered(d.segs[id].bytes, id == active).Some?
  }

  /** `scan_segment` on a file of the directory. */
  method RecoverFile(dir: Directory, id: SegmentId, allowPartial: bool, table: array2<bv32>) returns (ok: bool)
    requires IsTable(table) && id in dir.segs
    modifies dir
    ensures ok <==> Recovered(old(dir.segs[id].bytes), allowPartial).Some?
    ensures var bytes := old(dir.segs[id].bytes);
            dir.Took(if ok && Recovered(bytes, allowPartial).value != bytes
                     then [Truncate(id, |Recovered(bytes, allowPartial).value|)] else [])
    ensures !allowPartial ==> dir.View() == old(dir.View()) && dir.trace == old(dir.trace)
  {
    hide IsTable, Recovered;
    Nothing(dir.View());
    var bytes := dir.segs[id].bytes;
    var file := new File(bytes, []);
    ok := ScanSegment(file, allowPartial, table);
    if !ok {
      return false;
    }
    RecoveredLength(bytes, allowPartial);
    if |file.bytes| != |bytes| {
      dir.TruncateFile(id, |file.bytes|);
    }
  }

  /** `recover_storage_dir`: scans every segment, oldest first, and cuts the torn tail of the
      active one. */
  method RecoverStorageDir(dir: Directory, active: SegmentId, table: array2<bv32>) returns (ok: bool)
    requires IsTable(table) && (forall id :: id in dir.segs ==> id <= active) &&
        (dir.segs != map[] ==> active in dir.segs)
    modifies dir
    ensures ok <==> Recoverable(old(dir.View()), active)
    ensures dir.Took(if ok then RecoverSteps(old(dir.View()), active) else [])
  {
    hide Ascending, IsTable, Recovered, DiskAfter, ApplyMicro, RecoverSteps, Recoverable;
    ghost var d := dir.View();
    Nothing(d);
    var ids := ListSegments(dir);
    RecoverNone(d, active);
    for k := 0 to |ids|
      invariant k < |ids| ==> dir.View() == d && dir.trace == old(dir.trace)
      invariant k == |ids| ==> dir.Took(RecoverSteps(d, active))
      invariant forall j :: 0 <= j < k ==> Recovered(d.segs[ids[j]].bytes, ids[j] == active).Some?
    {
      var id := ids[k];
      assert id in ids;
      OnlyLastActive(ids, k, active);
      var scanned := RecoverFile(dir, id, id == active, table);
      if !scanned {
        OneFails(d, active, id);
        return false;
      }
      if id == active {
        RecoverActive(d, active);
      }
    }
    AllScanned(d, active, ids);
    return true;
  }

  lemma OnlyLastActive(ids: seq<SegmentId>, k: nat, active: SegmentId)
    requires Increasing(ids) && k < |ids| && active in ids && forall id :: id in ids ==> id <= active
    ensures ids[k] == active <==> k == |ids| - 1
  {
    var j :| 0 <= j < |ids| && ids[j] == active;
    assert ids[|ids| - 1] in ids;
    assert j == |ids| - 1;
  }

  lemma RecoverNone(d: Disk, active: SegmentId)
    ensures active !in d.segs ==> RecoverSteps(d, active) == []
  {
    hide Recovered;
  }

  lemma RecoverActive(d: Disk, active: SegmentId)
    requires active in d.segs && Recovered(d.segs[active].bytes, true).Some?
    ensures var bytes := d.segs[active].bytes;
            RecoverSteps(d, active) == if Recovered(bytes, true).value != bytes
                                       then [Truncate(active, |Recovered(bytes, true).value|)] else []
  {
    hide Recovered;
  }

  /** Recovery only cuts, and only the active file. */
  lemma RecoveredLength(bytes: seq<byte>, allowPartial: bool)
    requires Recovered(bytes, allowPartial).Some?
    ensures var r := Recovered(bytes, allowPartial).value;
            |r| <= |bytes| && (r != bytes <==> |r| != |bytes|) && (r != bytes ==> allowPartial)
  {
    RecoveryIsSafe(bytes, allowPartial);
  }

  lemma OneFails(d: Disk, active: SegmentId, id: SegmentId)
    requires id in d.segs && Recovered(d.segs[id].bytes, id == active).None?
    ensures !Recoverable(d, active)
  {
    hide Recovered;
  }

  lemma AllScanned(d: Disk, active: SegmentId, ids: seq<SegmentId>)
    requires forall id :: id in d.segs ==> id in ids
    requires forall j :: 0 <= j < |ids| && ids[j] in d.segs ==> Recovered(d.segs[ids[j]].bytes, ids[j] == active).Some?
    ensures Recoverable(d, active)
  {
    hide Recovered;
  }

  /** `validate_checkpoint_position`, on the file it opens. */
  method ValidateCheckpointFile(bytes: seq<byte>, arriving: seq<seq<byte>>, node: NodeId, offset: nat,
                                table: array2<bv32>)
    returns (ok: bool, ghost seen: seq<byte>)
    requires IsTable(table)
    ensures bytes <= seen <= Final(bytes, arriving)
    ensures ok <==> ValidAt(seen, node, offset)
  {
    hide IsTable, Decode, ReadFrame, Final;
    var file := new File(bytes, arriving);
    var header := Replayer.ReadSegmentHeader(file, false, false);
    seen := file.bytes;
    if !header.HasRecords? {
      return false, seen;
    }
    if offset < SEGMENT_HEADER_LEN {
      return false, seen;
    }
    if |file.bytes| < offset {
      return false, seen;
    }
    file.Seek(offset);
    var body := ReadRecordBody(file, table);
    seen := file.bytes;
    if !body.Read? {
      return false, seen;
    }
    var record := DecodeNodeRecord(body.value);
    return record.Some? && record.value.node == node && record.value.record.SnapshotCheckpoint?, seen;
  }

  /** `validate_checkpoint_position`. */
  method ValidateCheckpointPosition(segs: Segments, node: NodeId, position: RecordPosition,
      table: array2<bv32>) returns (ok: bool)
    requires IsTable(table)
    ensures ok <==> ValidPosition(segs, node, position)
  {
    hide IsTable, ValidAt;
    if position.segment !in segs {
      return false;
    }
    ghost var seen;
    ok, seen := ValidateCheckpointFile(segs[position.segment], [], node, position.offset, table);
    NothingArrives(segs[position.segment], seen);
  }

  lemma NothingArrives(bytes: seq<byte>, seen: seq<byte>)
    requires bytes <= seen <= Final(bytes, [])
    ensures seen == bytes
  {
  }

  /** `CheckpointIndex::load`: entries of nodes that are not active are dropped, the rest must
      point at checkpoints. */
  method LoadIndex(dir: Directory, registry: Registry, table: array2<bv32>) returns (r: Option<CheckpointIndex>)
    requires IsTable(table)
    ensures var kept := Retained(dir.index, registry);
            && (r.Some? <==> forall n :: n in kept ==> ValidPosition(Contents(dir.View()), n, kept[n]))
            && (r.Some? ==> fresh(r.value) && r.value.nodes == kept)
  {
    hide IsTable, ValidPosition;
    var kept := Retained(dir.index, registry);
    var files := dir.Files();
    assert files == Contents(dir.View());
    var rest := kept.Keys;
    while rest != {}
      invariant rest <= kept.Keys
      invariant forall n :: n in kept && n !in rest ==> ValidPosition(files, n, kept[n])
      decreases rest
    {
      var n :| n in rest;
      var ok := ValidateCheckpointPosition(files, n, kept[n], table);
      if !ok {
        return None;
      }
      rest := rest - {n};
    }
    var index := new CheckpointIndex(kept);
    return Some(index);
  }

  // ---- deleting ------------------------------------------------------------------------------------

  /** The loop of `collect_garbage`. */
  method DeleteAllowed(dir: Directory, active: SegmentId, ids: seq<SegmentId>, barrier: Barrier, ghost m: Memory)
    requires m.active == active && IsBarrier(m.index, ActiveNodes(m.registry), Some(barrier))
    modifies dir
    ensures dir.Took(DeleteSteps(m, ids))
    ensures dir.segs.Keys <= old(dir.segs.Keys) && (active in old(dir.segs) ==> active in dir.segs)
  {
    hide Collectable, DiskAfter, ApplyMicro, DeleteSteps, IsBarrier;
    ghost var d := dir.View();
    ghost var done: seq<Micro> := [];
    Nothing(d);
    assert ids[0..] == ids;
    for k := 0 to |ids|
      invariant dir.Took(done) && DeleteSteps(m, ids) == done + DeleteSteps(m, ids[k..])
      invariant dir.segs.Keys <= old(dir.segs.Keys) && (active in old(dir.segs) ==> active in dir.segs)
    {
      var id := ids[k];
      BarrierMeaning(m, Some(barrier), id);
      DeleteNext(m, ids, k, done);
      if id == active {
        continue;
      }
      if !AllowsDelete(barrier, id) {
        continue;
      }
      TakeBoth(d, done, [DeleteSegment(id)]);
      dir.RemoveFile(id);
      done := done + [DeleteSegment(id)];
    }
    DeleteEnd(m, ids, done);
  }

  // ---- the engine ----------------------------------------------------------------------------------

  class StorageEngine {
    const dir: Directory
    const metrics: Metrics
    const writer: SegmentWriter
    const table: array2<bv32>
    var registry: NodeRegistry
    var index: CheckpointIndex

    constructor (dir: Directory, metrics: Metrics, writer: SegmentWriter, table: array2<bv32>,
                 registry: NodeRegistry, index: CheckpointIndex)
      ensures this.dir == dir && this.metrics == metrics && this.writer == writer && this.table == table
      ensures this.registry == registry && this.index == index
    {
      this.dir, this.metrics, this.writer, this.table := dir, metrics, writer, table;
      this.registry, this.index := registry, index;
    }

    ghost predicate Valid()
      reads this, dir, writer, table, metrics
    {
      writer.dir == dir && IsTable(table) && writer.Ready() && metrics.Valid()
    }

    /** What the engine holds in memory. */
    ghost function Mem(): Memory
      reads this, metrics, writer, registry, index
    {
      Memory(registry.nodes, index.nodes, writer.activeSegment, writer.segmentLen, writer.maxSegmentLen,
             metrics.unsyncedRecords, metrics.unsyncedBytes)
    }

    /** The engine has carried out a plan. */
    twostate predicate Did(pl: Plan, ok: bool)
      reads this, dir, metrics, writer, registry, index
    {
      ok == pl.ok && dir.Took(pl.steps) && Mem() == pl.memory
    }

    /** `with_max_segment_len`. */
    static method Open(dir: Directory, maxSegmentLen: u64, table: array2<bv32>) returns (r: Option<StorageEngine>)
      requires IsTable(table)
      modifies dir
      ensures var pl := OpenPlan(old(dir.View()), maxSegmentLen);
              && (r.Some? <==> pl.ok) && dir.Took(pl.steps)
              && (r.Some? ==> fresh(r.value) && fresh(r.value.metrics) && fresh(r.value.writer)
                              && r.value.dir == dir && r.value.Valid() && r.value.Mem() == pl.memory)
    {
      hide IsTable, ValidPosition, Recovered, RecoverSteps, WriterSteps, DiskAfter, SelectActive, Retained, Contents;
      ghost var d := dir.View();
      Nothing(d);
      if maxSegmentLen == 0 {
        return None;
      }
      var active := SelectActiveSegment(dir);
      var ok := RecoverStorageDir(dir, active, table);
      if !ok {
        NotRecoverable(d, active);
        return None;
      }
      ghost var d1 := dir.View();
      RecoverKeepsNames(d, active);
      var registry := new NodeRegistry(dir.registry);
      var index := LoadIndex(dir, dir.registry, table);
      if index.None? {
        return None;
      }
      var metrics := new Metrics();
      var writer := new SegmentWriter(dir, active, maxSegmentLen);
      TakeBoth(d, RecoverSteps(d, active), WriterSteps(d1, active));
      var engine := new StorageEngine(dir, metrics, writer, table, registry, index.value);
      return Some(engine);
    }

    /** `create_node`. */
    method CreateNode(node: NodeId) returns (ok: bool)
      requires Valid()
      modifies this, dir, metrics, writer
      ensures Valid() && Did(PlanOf(old(dir.View()), old(Mem()), Operation.CreateNode(node)), ok)
    {
      hide IsTable, AppendPlan, SyncPlan, AppendPosition, Encodable, DiskAfter, ApplyMicro, Then, PlanOf, Metrics.Valid;
      ghost var d, m, trace := dir.View(), Mem(), dir.trace;
      Nothing(d);
      CreatePlanIs(d, m, node);
      var created := new NodeRegistry(registry.nodes);
      ok := created.CreateNode(node);
      if !ok {
        return false;
      }
      InitialFits();
      var append := AppendDurably(node, SnapshotCheckpoint(INITIAL_CHECKPOINT));
      if append.None? {
        return false;
      }
      var positions := new CheckpointIndex(index.nodes);
      positions.SetCheckpointPosition(node, append.value);
      ghost var r := NodeRecord(node, SnapshotCheckpoint(INITIAL_CHECKPOINT));
      MetadataSteps(d, trace, Then(AppendPlan(m, r), SyncPlan).steps, SaveIndex(positions.nodes),
          SaveRegistry(created.nodes));
      PublishIndex(positions);
      PublishRegistry(created);
    }

    /** Saves a new index and then takes it over. */
    method PublishIndex(positions: CheckpointIndex)
      requires Valid()
      modifies this, dir
      ensures Valid() && dir.Took([SaveIndex(positions.nodes)])
      ensures registry == old(registry) && index == positions
    {
      dir.ReplaceIndex(positions.nodes);
      index := positions;
    }

    /** Saves a new registry and then takes it over. */
    method PublishRegistry(nodes: NodeRegistry)
      requires Valid()
      modifies this, dir
      ensures Valid() && dir.Took([SaveRegistry(nodes.nodes)])
      ensures registry == nodes && index == old(index)
    {
      dir.ReplaceRegistry(nodes.nodes);
      registry := nodes;
    }

    /** `append` and then `sync`. */
    method AppendDurably(node: NodeId, record: Record) returns (position: Option<RecordPosition>)
      requires Valid() && RecordInIndexSpace(record)
      modifies dir, metrics, writer
      ensures var r, m := NodeRecord(node, record), old(Mem());
              && Valid() && Did(Then(AppendPlan(m, r), SyncPlan), position.Some?)
              && (position.Some? ==> Encodable(r) && position.value == AppendPosition(m, r))
      ensures Mem().registry == old(Mem()).registry && Mem().index == old(Mem()).index
    {
      hide IsTable, AppendPlan, SyncPlan, AppendPosition, Encodable, DiskAfter, ApplyMicro, Then;
      ghost var d, m := dir.View(), Mem();
      ghost var r := NodeRecord(node, record);
      AppendThenSync(d, m, r);
      position := writer.Append(node, record, metrics, table, m);
      if position.None? {
        return None;
      }
      writer.Sync(metrics, AppendPlan(m, r).memory);
    }

    /** `save_current_term`, `save_voted_for` and `append_entries`. */
    method SaveRecord(node: NodeId, record: Record) returns (ok: bool)
      requires Valid() && RecordInIndexSpace(record)
      modifies this, dir, metrics, writer
      ensures Valid() && Did(PlanOf(old(dir.View()), old(Mem()), Operation.SaveRecord(node, record)), ok)
    {
      hide IsTable, AppendPlan, AppendPosition, Encodable, DiskAfter;
      ghost var d, m := dir.View(), Mem();
      Nothing(d);
      if !IsActive(registry.nodes, node) {
        return false;
      }
      AppendKeepsMetadata(m, NodeRecord(node, record));
      var append := writer.Append(node, record, metrics, table, m);
      return append.Some?;
    }

    /** `save_snapshot`. */
    method SaveSnapshot(node: NodeId, checkpoint: Checkpoint) returns (ok: bool)
      requires Valid() && InIndexSpace(checkpoint.suffix.entries)
      modifies this, dir, metrics, writer
      ensures Valid() && Did(PlanOf(old(dir.View()), old(Mem()), Operation.SaveSnapshot(node, checkpoint)), ok)
    {
      hide IsTable, AppendPlan, SyncPlan, AppendPosition, Encodable, DiskAfter, ValidCheckpoint, CollectPlan,
           ApplyMicro;
      ghost var d, m := dir.View(), Mem();
      Nothing(d);
      if !IsActive(registry.nodes, node) {
        return false;
      }
      var valid := ValidateCheckpoint(checkpoint);
      if !valid {
        return false;
      }
      ok := WriteCheckpoint(node, checkpoint);
      if !ok {
        return false;
      }
      ghost var p := SnapshotPlan(m, node, checkpoint);
      CollectGarbage();
      CollectSucceeds(DiskAfter(d, p.steps), p.memory);
      TakeBoth(d, p.steps, CollectPlan(DiskAfter(d, p.steps), p.memory).steps);
      return true;
    }

    /** The part of `save_snapshot` before garbage collection. */
    method WriteCheckpoint(node: NodeId, checkpoint: Checkpoint) returns (ok: bool)
      requires Valid() && IsActive(registry.nodes, node) && ValidCheckpoint(checkpoint)
      modifies this, dir, metrics, writer
      ensures Valid() && Did(SnapshotPlan(old(Mem()), node, checkpoint), ok)
    {
      hide IsTable, AppendPlan, SyncPlan, AppendPosition, Encodable, DiskAfter, ApplyMicro, Then;
      ghost var d, m := dir.View(), Mem();
      var append := AppendDurably(node, SnapshotCheckpoint(checkpoint));
      if append.None? {
        return false;
      }
      var positions := new CheckpointIndex(index.nodes);
      positions.SetCheckpointPosition(node, append.value);
      ghost var r := NodeRecord(node, SnapshotCheckpoint(checkpoint));
      TakeBoth(d, Then(AppendPlan(m, r), SyncPlan).steps, [SaveIndex(positions.nodes)]);
      PublishIndex(positions);
      return true;
    }

    /** `remove_node`. */
    method RemoveNode(node: NodeId) returns (ok: bool)
      requires Valid()
      modifies this, dir, metrics, writer
      ensures Valid() && Did(PlanOf(old(dir.View()), old(Mem()), Operation.RemoveNode(node)), ok)
    {
      hide IsTable, DiskAfter, CollectPlan, ApplyMicro, RemovePlan;
      ghost var d, m := dir.View(), Mem();
      Nothing(d);
      if !IsActive(registry.nodes, node) {
        RemoveFails(m, node);
        return false;
      }
      MarkRemoved(node);
      ghost var p := RemovePlan(m, node);
      CollectGarbage();
      CollectSucceeds(DiskAfter(d, p.steps), p.memory);
      TakeBoth(d, p.steps, CollectPlan(DiskAfter(d, p.steps), p.memory).steps);
      return true;
    }

    /** The part of `remove_node` before garbage collection. */
    method MarkRemoved(node: NodeId)
      requires Valid() && IsActive(registry.nodes, node)
      modifies this, dir
      ensures Valid() && Did(RemovePlan(old(Mem()), node), true)
    {
      hide IsTable, DiskAfter, ApplyMicro, RemovePlan;
      ghost var d, trace := dir.View(), dir.trace;
      Nothing(d);
      RemovePlanIs(Mem(), node);
      var removed := new NodeRegistry(registry.nodes);
      var ok := removed.RemoveNode(node);
      PublishRegistry(removed);
      var positions := new CheckpointIndex(index.nodes);
      positions.RemoveNode(node);
      PublishIndex(positions);
      MetadataSteps(d, trace, [], SaveRegistry(removed.nodes), SaveIndex(positions.nodes));
      NoneBefore(trace, [SaveRegistry(removed.nodes), SaveIndex(positions.nodes)]);
    }

    /** `sync`. */
    method Sync()
      requires Valid()
      modifies this, dir, metrics, writer
      ensures Valid() && Did(PlanOf(old(dir.View()), old(Mem()), Operation.Sync), true)
    {
      writer.Sync(metrics, Mem());
    }

    /** `collect_garbage`: deletes, oldest first, every segment but the active one that the
        barrier allows. */
    method CollectGarbage()
      requires Valid()
      modifies dir
      ensures Valid() && Did(CollectPlan(old(dir.View()), old(Mem())), true)
    {
      hide IsTable, Ascending, Collectable, DiskAfter, DeleteSteps, IsBarrier;
      ghost var m := Mem();
      Nothing(dir.View());
      var ids := ListSegments(dir);
      var nodes := ActiveNodes(registry.nodes);
      var barrier := index.GcBarrier(nodes);
      if barrier.None? {
        NothingCollectable(m, ids, barrier);
        return;
      }
      DeleteAllowed(dir, writer.activeSegment, ids, barrier.value, m);
    }

    /** `load`. */
    method Load(node: NodeId) returns (r: Option<State>)
      requires Valid()
      ensures r == if IsActive(registry.nodes, node) then Runs.Load(dir.View(), Mem(), node) else None
      ensures r.Some? ==> StateInv(r.value)
    {
      hide IsTable, ReplayNodeViews, StateInv, Ascending;
      if !IsActive(registry.nodes, node) {
        return None;
      }
      var hint := PositionFor(index.nodes, node);
      var listing := Replayer.Listing(dir.Files(), []);
      assert listing.segs == Contents(dir.View());
      ghost var first, second;
      r, first, second := Replayer.ReplayNodeState(listing, listing, writer.activeSegment, node, hint, true, table);
      SeesListed(listing, writer.activeSegment, first);
      SeesListed(listing, writer.activeSegment, second);
    }

    /** `load_all`. */
    method LoadAll() returns (r: Option<States>)
      requires Valid()
      ensures r == Runs.LoadAllNodes(dir.View(), Mem())
      ensures r.Some? ==> Replayer.StatesInv(r.value)
    {
      hide IsTable, LoadAllViews, StateInv, Ascending;
      var nodes := ActiveNodes(registry.nodes);
      var hints := index.CheckpointPositions(nodes);
      var listing := Replayer.Listing(dir.Files(), []);
      assert listing.segs == Contents(dir.View());
      ghost var first, second;
      r, first, second := Replayer.LoadAllNodes(listing, listing, writer.activeSegment, nodes, hints, true, table);
      SeesListed(listing, writer.activeSegment, first);
      SeesListed(listing, writer.activeSegment, second);
    }
  }

  // ---- a reader beside the engine ------------------------------------------------------------------

  /** A file as it is when opened, and what a writer adds while it is read. */
  datatype OpenedFile = OpenedFile(bytes: seq<byte>, arriving: seq<seq<byte>>)

  /** Registry and index as read from the directory when the reader was opened. */
  class ReadOnlyStorage {
    const table: array2<bv32>
    const registry: Registry
    const index: Checkpoints

    constructor (registry: Registry, index: Checkpoints, table: array2<bv32>)
      ensures this.registry == registry && this.index == index && this.table == table
    {
      this.registry, this.index, this.table := registry, index, table;
    }

    /** `ReadOnlyStorage::open`: entries of nodes that are not active are dropped, and each of the
        others must point at a checkpoint in the file it names, as that file is when it is opened
        and read. */
    static method Open(registry: Registry, index: Checkpoints, files: map<NodeId, Option<OpenedFile>>, table: array2<bv32>)
      returns (r: Option<ReadOnlyStorage>, ghost seen: map<NodeId, seq<byte>>)
      requires IsTable(table) && Retained(index, registry).Keys <= files.Keys
      ensures forall n :: n in seen ==>
                n in files && files[n].Some?
                && files[n].value.bytes <= seen[n] <= Final(files[n].value.bytes, files[n].value.arriving)
      ensures var kept := Retained(index, registry);
              && (r.Some? ==> forall n :: n in kept ==> n in seen && ValidAt(seen[n], n, kept[n].offset))
              && (r.None? ==> exists n :: n in kept
                                && (files[n].None? || (n in seen && !ValidAt(seen[n], n, kept[n].offset))))
      ensures r.Some? ==> fresh(r.value) && r.value.registry == registry && r.value.index == Retained(index, registry)
                          && r.value.table == table
    {
      hide IsTable, ValidAt, Final;
      var kept := Retained(index, registry);
      seen := map[];
      var rest := kept.Keys;
      while rest != {}
        invariant rest <= kept.Keys && seen.Keys == kept.Keys - rest
        invariant forall n :: n in seen ==>
                    && n in files && files[n].Some?
                    && files[n].value.bytes <= seen[n] <= Final(files[n].value.bytes, files[n].value.arriving)
                    && ValidAt(seen[n], n, kept[n].offset)
        decreases rest
      {
        var n :| n in rest;
        if files[n].None? {
          return None, seen;
        }
        var ok;
        ghost var bytes;
        ok, bytes := ValidateCheckpointFile(files[n].value.bytes, files[n].value.arriving, n, kept[n].offset, table);
        seen := seen[n := bytes];
        if !ok {
          return None, seen;
        }
        rest := rest - {n};
      }
      var storage := new ReadOnlyStorage(registry, kept, table);
      return Some(storage), seen;
    }

    /** Two passes over the directory, each listing it anew, while a writer may append. */
    method Load(first: Replayer.Listing, second: Replayer.Listing, active: SegmentId, node: NodeId)
      returns (r: Option<State>, ghost seenFirst: Segments, ghost seenSecond: Segments)
      requires IsTable(table)
      ensures !IsActive(registry, node) ==> r == None
      ensures var a, b := Replayer.ActiveIn(first.segs, active, false), Replayer.ActiveIn(second.segs, active, false);
              IsActive(registry, node) ==>
                && Replayer.Sees(first, a, seenFirst) && Replayer.Sees(second, b, seenSecond)
                && r == ReplayNodeViews(View(seenFirst, a), View(seenSecond, b), node, PositionFor(index, node))
    {
      hide IsTable, ReplayNodeViews, StateInv, Replayer.Sees, Replayer.ActiveIn;
      if !IsActive(registry, node) {
        return None, first.segs, second.segs;
      }
      r, seenFirst, seenSecond :=
        Replayer.ReplayNodeState(first, second, active, node, PositionFor(index, node), false, table);
    }

    method LoadAll(first: Replayer.Listing, second: Replayer.Listing, active: SegmentId)
      returns (r: Option<States>, ghost seenFirst: Segments, ghost seenSecond: Segments)
      requires IsTable(table)
      ensures var a, b := Replayer.ActiveIn(first.segs, active, false), Replayer.ActiveIn(second.segs, active, false);
              var nodes := ActiveNodes(registry);
              && Replayer.Sees(first, a, seenFirst) && Replayer.Sees(second, b, seenSecond)
              && r == LoadAllViews(View(seenFirst, a), View(seenSecond, b), nodes, HintsFor(index, nodes))
    {
      hide IsTable, LoadAllViews, StateInv, Replayer.Sees, Replayer.ActiveIn;
      var nodes := ActiveNodes(registry);
      var positions := new CheckpointIndex(index);
      var hints := positions.CheckpointPositions(nodes);
      r, seenFirst, seenSecond := Replayer.LoadAllNodes(first, second, active, nodes, hints, false, table);
    }
  }

  /** Opening a reader beside a writer that only appends and rotates always succeeds: `d` is the
      directory whose registry and index it read, and each file it opens later has only grown. The
      reader then has, for every active node, the index entry of that directory. */
  lemma ReaderOpens(d: Disk, hist: History, files: map<NodeId, Option<OpenedFile>>, opens: bool,
                    seen: map<NodeId, seq<byte>>)
    requires DiskInv(d, hist) && Retained(d.index, d.registry).Keys <= files.Keys
    requires forall n :: n in Retained(d.index, d.registry) && d.index[n].segment in d.segs ==>
               files[n].Some? && d.segs[d.index[n].segment].bytes <= files[n].value.bytes
    requires forall n :: n in seen ==> n in files && files[n].Some? && files[n].value.bytes <= seen[n]
    requires !opens ==> exists n :: n in Retained(d.index, d.registry)
                          && (files[n].None? || (n in seen && !ValidAt(seen[n], n, d.index[n].offset)))
    ensures opens
    ensures var kept, nodes := Retained(d.index, d.registry), ActiveNodes(d.registry);
            && (forall n :: n in nodes ==> PositionFor(kept, n) == PositionFor(d.index, n) && n in kept)
            && HintsFor(kept, nodes) == HintsFor(d.index, nodes)
  {
    hide DiskInv, ValidAt, SegmentsFit, PointsAt;
    IndexFitsIs(d, hist);
    var kept, nodes := Retained(d.index, d.registry), ActiveNodes(d.registry);
    forall n | n in nodes ensures n in d.index && n in kept {
      assert IsActive(d.registry, n);
    }
    assert HintsFor(kept, nodes).value == HintsFor(d.index, nodes).value;
    if !opens {
      var n :| n in kept && (files[n].None? || (n in seen && !ValidAt(seen[n], n, d.index[n].offset)));
      var k :| PointsAt(d, hist, n, d.index[n], k);
      EntryHistory(d, hist, n, d.index[n], k);
      EntryPresent(d, hist, n, d.index[n], k);
      assert d.segs[d.index[n].segment].bytes <= seen[n];
      EntryStaysValid(d, hist, n, d.index[n], k, seen[n]);
      assert false;
    }
  }

  // ---- what the engine's methods keep ----------------------------------------------------------------

  /** On a directory in step with its history, any operation of the engine leaves it in step: the
      history has gained exactly what the operation appended, and every active node loads the
      fold of its history. */
  twostate lemma StaysInStep(e: StorageEngine, op: Operation, ok: bool, p: Point, n: NodeId)
    requires p.disk == old(e.dir.View()) && MemoryFits(p, old(e.Mem())) && DiskInv(p.disk, p.hist)
    requires e.Did(PlanOf(p.disk, old(e.Mem()), op), ok)
    ensures var q := RunSteps(p, PlanOf(p.disk, old(e.Mem()), op).steps);
            && q.disk == e.dir.View() && MemoryFits(q, e.Mem()) && DiskInv(q.disk, q.hist)
            && Flat(q.hist) == Flat(p.hist) + (if ok then Appended(op) else [])
            && (IsActive(e.registry.nodes, n) ==> Runs.Load(e.dir.View(), e.Mem(), n) == Naive(Flat(q.hist), n))
  {
    hide MemoryFits, DiskInv, SegmentsFit, PlanOf, RunSteps, StepsOk, Durable, Flat, Runs.Load, Naive, DiskAfter;
    var m := old(e.Mem());
    var pl := PlanOf(p.disk, m, op);
    PlanOk(p, m, op);
    RunDisk(p, pl.steps);
    var q := RunSteps(p, pl.steps);
    if IsActive(e.registry.nodes, n) {
      LoadIsNaive(q, e.Mem(), n);
    }
  }

  // ---- small facts -----------------------------------------------------------------------------------

  lemma SeesListed(l: Replayer.Listing, active: SegmentId, seen: Segments)
    requires Replayer.Sees(l, active, seen) && l.arriving == []
    ensures seen == l.segs && Replayer.ActiveIn(l.segs, active, true) == active
  {
    hide Ascending, Final;
    forall id | id in seen ensures seen[id] == l.segs[id] {
      assert l.segs[id] <= seen[id] <= l.segs[id];
    }
  }

  lemma CreatePlanIs(d: Disk, m: Memory, node: NodeId)
    ensures var r := NodeRecord(node, SnapshotCheckpoint(INITIAL_CHECKPOINT));
            var a := Then(AppendPlan(m, r), SyncPlan);
            PlanOf(d, m, CreateNode(node))
            == if node in m.registry then Plan(false, [], m)
               else if !a.ok then a
               else
                 var index, registry := m.index[node := AppendPosition(m, r)], m.registry[node := false];
                 Plan(true, a.steps + [SaveIndex(index), SaveRegistry(registry)],
                     a.memory.(index := index, registry := registry))
  {
    hide AppendPlan, SyncPlan, AppendPosition, Then;
  }

  lemma RemovePlanIs(m: Memory, node: NodeId)
    requires IsActive(m.registry, node)
    ensures var registry, index := m.registry[node := true], m.index - {node};
            RemovePlan(m, node)
                == Plan(true, [SaveRegistry(registry), SaveIndex(index)], m.(registry := registry, index := index))
  {
  }

  lemma InitialFits()
    ensures RecordInIndexSpace(SnapshotCheckpoint(INITIAL_CHECKPOINT))
  {
  }

  lemma RemoveFails(m: Memory, node: NodeId)
    requires !IsActive(m.registry, node)
    ensures RemovePlan(m, node) == Plan(false, [], m)
  {
  }

  /** `append` and `sync`, one plan after the other. */
  lemma AppendThenSync(d: Disk, m: Memory, r: NodeRecord)
    ensures var a := AppendPlan(m, r);
            var s := SyncPlan(a.memory);
            && Then(a, SyncPlan) == (if a.ok then Plan(true, a.steps + s.steps, s.memory) else a)
            && DiskAfter(d, a.steps + s.steps) == DiskAfter(DiskAfter(d, a.steps), s.steps)
            && s.memory.registry == m.registry && s.memory.index == m.index && a.memory.registry == m.registry
            && a.memory.index == m.index
  {
    hide AppendPlan, DiskAfter;
    AppendKeepsMetadata(m, r);
    TakeBoth(d, AppendPlan(m, r).steps, SyncPlan(AppendPlan(m, r).memory).steps);
  }

  /** Two more steps: the directory and the trace. */
  lemma MetadataSteps(d: Disk, trace: seq<Micro>, before: seq<Micro>, first: Micro, second: Micro)
    ensures DiskAfter(d, before + [first, second]) == DiskAfter(DiskAfter(DiskAfter(d, before), [first]), [second])
    ensures trace + (before + [first, second]) == trace + before + [first] + [second]
  {
    hide DiskAfter, ApplyMicro;
    assert before + [first, second] == before + ([first] + [second]);
    TakeBoth(d, before, [first] + [second]);
    TakeBoth(DiskAfter(d, before), [first], [second]);
  }

  lemma NoneBefore(trace: seq<Micro>, steps: seq<Micro>)
    ensures [] + steps == steps && trace + [] == trace
  {
  }

  lemma NotRecoverable(d: Disk, active: SegmentId)
    requires !Recoverable(d, active)
    ensures exists id :: id in d.segs && Recovered(d.segs[id].bytes, id == active).None?
  {
    hide Recovered;
  }

  lemma RecoverKeepsNames(d: Disk, active: SegmentId)
    ensures DiskAfter(d, RecoverSteps(d, active)).segs.Keys == d.segs.Keys
  {
    hide Recovered;
    Nothing(d);
    var steps := RecoverSteps(d, active);
    if steps != [] {
      TakeOne(d, steps[0]);
      assert steps == [steps[0]];
    }
  }

  lemma DeleteNext(m: Memory, ids: seq<SegmentId>, k: nat, done: seq<Micro>)
    requires k < |ids|
    ensures var step := if ids[k] != m.active && Collectable(m, ids[k]) then [DeleteSegment(ids[k])] else [];
            done + DeleteSteps(m, ids[k..]) == done + step + DeleteSteps(m, ids[k + 1..]) && done + [] == done
  {
    hide Collectable;
    assert ids[k..][1..] == ids[k + 1..];
  }

  lemma DeleteEnd(m: Memory, ids: seq<SegmentId>, done: seq<Micro>)
    ensures done + DeleteSteps(m, ids[|ids|..]) == done
  {
    assert ids[|ids|..] == [];
  }

  lemma {:induction false} NothingCollectable(m: Memory, ids: seq<SegmentId>, b: Option<Barrier>)
    requires IsBarrier(m.index, ActiveNodes(m.registry), b) && b.None?
    ensures DeleteSteps(m, ids) == []
    decreases |ids|
  {
    hide Collectable;
    if ids != [] {
      BarrierMeaning(m, b, ids[0]);
      NothingCollectable(m, ids[1..], b);
    }
  }
}
