/** Garbage collection is complete: after an operation that collects, no segment
    that may go is left, whatever was there before. */
module Collection {
  import opened Records
  import opened Sorted
  import opened Codec
  import opened Replay
  import opened Disks
  import opened DurableSteps
  import opened Protocol
  import opened Runs
  import opened Consequences
  import opened Durability
  import opened Rotation

  // ---- segment names through a list of steps ---------------------------------------------------

  function NextKeys(keys: set<SegmentId>, m: Micro): set<SegmentId> {
    match m
    case CreateSegment(id) => keys + {id}
    case DeleteSegment(id) => keys - {id}
    case _ => keys
  }

  function KeysAfter(keys: set<SegmentId>, steps: seq<Micro>): set<SegmentId>
    decreases |steps|
  {
    if steps == [] then keys else KeysAfter(NextKeys(keys, steps[0]), steps[1..])
  }

  lemma {:induction false} DiskKeys(d: Disk, steps: seq<Micro>)
    ensures DiskAfter(d, steps).segs.Keys == KeysAfter(d.segs.Keys, steps)
    decreases |steps|
  {
    hide Written;
    if steps != [] {
      DiskKeys(ApplyMicro(d, steps[0]), steps[1..]);
      OneKey(d, steps[0]);
    }
  }

  lemma OneKey(d: Disk, m: Micro)
    ensures ApplyMicro(d, m).segs.Keys == NextKeys(d.segs.Keys, m)
  {
    hide Written;
  }

  lemma {:induction false} KeysConcat(keys: set<SegmentId>, a: seq<Micro>, b: seq<Micro>)
    ensures KeysAfter(keys, a + b) == KeysAfter(KeysAfter(keys, a), b)
    decreases |a|
  {
    hide NextKeys;
    if a == [] {
      assert a + b == b;
    } else {
      assert (a + b)[0] == a[0] && (a + b)[1..] == a[1..] + b;
      KeysConcat(NextKeys(keys, a[0]), a[1..], b);
    }
  }

  /** The segments a collection leaves. */
  ghost function Kept(keys: set<SegmentId>, m: Memory): set<SegmentId> {
    set id | id in keys && (id == m.active || !Collectable(m, id))
  }

  lemma {:induction false} DeleteKeys(keys: set<SegmentId>, m: Memory, ids: seq<SegmentId>)
    ensures KeysAfter(keys, DeleteSteps(m, ids))
         == set id | id in keys && !(id in ids && id != m.active && Collectable(m, id))
    decreases |ids|
  {
    hide Collectable;
    if ids != [] {
      var id, rest := ids[0], DeleteSteps(m, ids[1..]);
      if id != m.active && Collectable(m, id) {
        assert ([DeleteSegment(id)] + rest)[1..] == rest;
        DeleteKeys(keys - {id}, m, ids[1..]);
      } else {
        assert [] + rest == rest;
        DeleteKeys(keys, m, ids[1..]);
      }
    }
  }

  lemma CollectKeys(d: Disk, m: Memory)
    ensures DiskAfter(d, CollectPlan(d, m).steps).segs.Keys == Kept(d.segs.Keys, m)
  {
    hide Collectable, DeleteSteps, Ascending, DiskAfter;
    AscendingIs(d.segs.Keys);
    DiskKeys(d, CollectPlan(d, m).steps);
    DeleteKeys(d.segs.Keys, m, Ascending(d.segs.Keys));
  }

  lemma OneStepKeys(keys: set<SegmentId>, m: Micro)
    ensures KeysAfter(keys, [m]) == NextKeys(keys, m)
  {
    assert [m][1..] == [];
  }

  lemma RotateKeys(keys: set<SegmentId>, m: Memory)
    requires RotatePlan(m).ok
    ensures KeysAfter(keys, RotatePlan(m).steps) == keys + {RotatePlan(m).memory.active}
  {
    hide KeysAfter;
    var next := m.active + 1;
    var steps := [SyncData(m.active), CreateSegment(next), WriteHeader(next)];
    assert steps == [SyncData(m.active)] + [CreateSegment(next)] + [WriteHeader(next)];
    KeysConcat(keys, [SyncData(m.active)] + [CreateSegment(next)], [WriteHeader(next)]);
    KeysConcat(keys, [SyncData(m.active)], [CreateSegment(next)]);
    OneStepKeys(keys, SyncData(m.active));
    OneStepKeys(keys, CreateSegment(next));
    OneStepKeys(keys + {next}, WriteHeader(next));
  }

  /** An append leaves all segments and may open one more, the active one. */
  lemma AppendKeys(keys: set<SegmentId>, m: Memory, r: NodeRecord)
    requires m.active in keys && AppendPlan(m, r).ok
    ensures Encodable(r) && KeysAfter(keys, AppendPlan(m, r).steps) == keys + {AppendPlan(m, r).memory.active}
  {
    hide Encodable, Encoding.Frame, KeysAfter, RotatePlan, NextKeys;
    var len := |Encoding.Frame(r)|;
    var rotation := if ShouldRotate(m, len) then RotatePlan(m) else Plan(true, [], m);
    var now := keys + {rotation.memory.active};
    if ShouldRotate(m, len) {
      RotateKeys(keys, m);
    } else {
      QuietKeys(keys, []);
      assert now == keys;
    }
    KeysConcat(keys, rotation.steps, [WriteFrame(rotation.memory.active, r)]);
    QuietKeys(now, [WriteFrame(rotation.memory.active, r)]);
  }

  lemma {:induction false} QuietKeys(keys: set<SegmentId>, steps: seq<Micro>)
    requires forall i :: 0 <= i < |steps| ==> !steps[i].CreateSegment? && !steps[i].DeleteSegment?
    ensures KeysAfter(keys, steps) == keys
    decreases |steps|
  {
    if steps != [] {
      QuietKeys(keys, steps[1..]);
    }
  }

  lemma SyncQuiet(m: Memory)
    ensures forall i :: 0 <= i < |SyncPlan(m).steps| ==>
              !SyncPlan(m).steps[i].CreateSegment? && !SyncPlan(m).steps[i].DeleteSegment?
    ensures SyncPlan(m).memory.active == m.active
  {
  }

  lemma SnapshotKeys(keys: set<SegmentId>, m: Memory, node: NodeId, c: Checkpoint)
    requires m.active in keys && SnapshotPlan(m, node, c).ok
    ensures KeysAfter(keys, SnapshotPlan(m, node, c).steps) == keys + {SnapshotPlan(m, node, c).memory.active}
  {
    hide AppendPlan, SyncPlan, AppendPosition, ValidCheckpoint, KeysAfter;
    var r := NodeRecord(node, SnapshotCheckpoint(c));
    var a := AppendPlan(m, r);
    var s := SyncPlan(a.memory);
    AppendKeys(keys, m, r);
    var save := [SaveIndex(m.index[node := AppendPosition(m, r)])];
    SyncQuiet(a.memory);
    QuietKeys(keys + {a.memory.active}, s.steps);
    QuietKeys(keys + {a.memory.active}, save);
    KeysConcat(keys, a.steps, s.steps);
    KeysConcat(keys, a.steps + s.steps, save);
  }

  lemma RemoveKeys(keys: set<SegmentId>, m: Memory, node: NodeId)
    ensures KeysAfter(keys, RemovePlan(m, node).steps) == keys && RemovePlan(m, node).memory.active == m.active
  {
    hide KeysAfter;
    QuietKeys(keys, RemovePlan(m, node).steps);
  }

  // ---- whole operations -----------------------------------------------------------------------------

  lemma ThenCollects(d: Disk, p: Plan)
    requires p.ok
    ensures var whole := Then(p, mem => CollectPlan(DiskAfter(d, p.steps), mem));
            && whole.ok && whole.memory == p.memory
            && DiskAfter(d, whole.steps).segs.Keys == Kept(DiskAfter(d, p.steps).segs.Keys, p.memory)
  {
    hide DiskAfter, CollectPlan, Kept, KeysAfter;
    var gc := CollectPlan(DiskAfter(d, p.steps), p.memory);
    CollectSucceeds(DiskAfter(d, p.steps), p.memory);
    CollectKeys(DiskAfter(d, p.steps), p.memory);
    DiskKeys(d, p.steps);
    DiskKeys(DiskAfter(d, p.steps), gc.steps);
    DiskKeys(d, p.steps + gc.steps);
    KeysConcat(d.segs.Keys, p.steps, gc.steps);
  }

  /** The segments after an operation that collects are those before it, and a new active one if it
      had to rotate, without exactly the inactive ones that the barrier allows to go. */
  lemma OperationCollects(d: Disk, m: Memory, op: Operation)
    requires op.SaveSnapshot? || op.RemoveNode?
    requires m.active in d.segs && PlanOf(d, m, op).ok
    ensures var pl := PlanOf(d, m, op);
            DiskAfter(d, pl.steps).segs.Keys == Kept(d.segs.Keys + {pl.memory.active}, pl.memory)
  {
    hide SnapshotPlan, RemovePlan, DiskAfter, CollectPlan, Kept, KeysAfter;
    match op
    case SaveSnapshot(node, c) =>
      var p := SnapshotPlan(m, node, c);
      ThenCollects(d, p);
      SnapshotKeys(d.segs.Keys, m, node, c);
      DiskKeys(d, p.steps);
    case RemoveNode(node) =>
      var p := RemovePlan(m, node);
      ThenCollects(d, p);
      RemoveKeys(d.segs.Keys, m, node);
      DiskKeys(d, p.steps);
      assert d.segs.Keys + {m.active} == d.segs.Keys;
  }

  /** In any run: after a `save_snapshot` or `remove_node` that succeeds, the segments are the earlier
      ones, files that a crash brought back included, and the active one, without exactly the
      inactive ones that may go; so no inactive segment that may go is left. */
  lemma NothingLeftToCollect(run: seq<World>, i: nat, op: Operation)
    requires IsRun(run) && i < |run| && run[i].engine.Some? && run[i].engine.value.Idle?
    requires op.SaveSnapshot? || op.RemoveNode?
    requires PlanOf(run[i].at.disk, run[i].engine.value.memory, op).ok
    ensures var s := Done(run[i], op);
            var m := s.engine.value.memory;
            && Reachable(s)
            && s.at.disk.segs.Keys == Kept(run[i].at.disk.segs.Keys + {m.active}, m)
            && (forall id :: id in s.at.disk.segs && id != m.active ==> !Collectable(m, id))
  {
    hide WorldInv, MemoryFits, DiskInv, SegmentsFit, PlanOf, DiskAfter, RunSteps, Reachable, Collectable, Next, IsRun;
    var m := run[i].engine.value.memory;
    RunKeeps(run, i);
    PrefixReaches(run, i);
    IdleFits(run[i]);
    FitsShape(run[i].at, m);
    FitsParts(run[i].at, m);
    ReachDone(run[i], op);
    OperationCollects(run[i].at.disk, m, op);
    RunDisk(run[i].at, PlanOf(run[i].at.disk, m, op).steps);
  }

  lemma PrefixReaches(run: seq<World>, i: nat)
    requires IsRun(run) && i < |run|
    ensures Reachable(run[i])
  {
    hide Next;
    assert EndsIn(run[..i + 1], run[i]);
  }

  /** The same in plain terms. Of every file left, either it is the active one, or some active node's
      checkpoint is in it or before it; and every file that is gone lies before the checkpoint of every
      active node. */
  lemma ExactlyTheUnneededGo(run: seq<World>, i: nat, op: Operation)
    requires IsRun(run) && i < |run| && run[i].engine.Some? && run[i].engine.value.Idle?
    requires op.SaveSnapshot? || op.RemoveNode?
    requires PlanOf(run[i].at.disk, run[i].engine.value.memory, op).ok
    ensures var s := Done(run[i], op);
            var m := s.engine.value.memory;
            && Reachable(s) && ActiveNodes(m.registry) <= m.index.Keys
            && (forall id :: id in s.at.disk.segs ==>
                 && (id == m.active || id in run[i].at.disk.segs)
                 && (id == m.active || exists n :: n in ActiveNodes(m.registry) && m.index[n].segment <= id))
            && (forall id :: id in run[i].at.disk.segs && id !in s.at.disk.segs ==>
                 && id != m.active
                 && forall n :: n in ActiveNodes(m.registry) ==> id < m.index[n].segment)
  {
    hide WorldInv, MemoryFits, DiskInv, SegmentsFit, PlanOf, Reachable, Collectable, Next, IsRun, RunSteps;
    NothingLeftToCollect(run, i, op);
    var s := Done(run[i], op);
    var m := s.engine.value.memory;
    ReachInv(s);
    IdleFits(s);
    FitsShape(s.at, m);
    ActiveIndexed(s.at.disk, m);
    forall id: SegmentId
      ensures Collectable(m, id) <==> forall n :: n in ActiveNodes(m.registry) ==> id < m.index[n].segment
    {
      CollectableIs(m, id);
    }
  }

  lemma ActiveIndexed(d: Disk, m: Memory)
    requires MetadataFits(d, m)
    ensures ActiveNodes(m.registry) <= m.index.Keys
  {
    forall n | n in ActiveNodes(m.registry) ensures n in m.index {
      assert IsActive(m.registry, n);
    }
  }

  lemma CollectableIs(m: Memory, id: SegmentId)
    requires ActiveNodes(m.registry) <= m.index.Keys
    ensures Collectable(m, id) <==> forall n :: n in ActiveNodes(m.registry) ==> id < m.index[n].segment
  {
    forall n ensures n in ActiveNodes(m.registry) <==> IsActive(m.registry, n) {
    }
  }

  // ---- where the index points afterwards -----------------------------------------------------------

  /** A plan that appends one record and then leaves the history alone; the record's position goes
      into the index. */
  ghost predicate AppendsIndexed(m: Memory, r: NodeRecord, pl: Plan) {
    && AppendsOnce(m, r, pl)
    && AppendPlan(m, r).ok && Encodable(r)
    && pl.memory.index == m.index[r.node := AppendPosition(m, r)]
    && IsActive(pl.memory.registry, r.node)
  }

  lemma CreateIndexes(d: Disk, m: Memory, node: NodeId)
    requires PlanOf(d, m, CreateNode(node)).ok
    ensures AppendsIndexed(m, NodeRecord(node, SnapshotCheckpoint(INITIAL_CHECKPOINT)), PlanOf(d, m, CreateNode(node)))
  {
    PlannedAppend(m, NodeRecord(node, SnapshotCheckpoint(INITIAL_CHECKPOINT)));
    CreateOnce(m, node);
    hide AppendPlan, AppendPosition, Encodable;
  }

  lemma SnapshotIndexes(p: Point, m: Memory, node: NodeId, c: Checkpoint)
    requires PlanOf(p.disk, m, SaveSnapshot(node, c)).ok
    ensures AppendsIndexed(m, NodeRecord(node, SnapshotCheckpoint(c)), PlanOf(p.disk, m, SaveSnapshot(node, c)))
    ensures PlanOf(p.disk, m, SaveSnapshot(node, c)).memory.registry == m.registry
  {
    hide AppendPlan, AppendPosition, ValidCheckpoint, DiskAfter, DeleteSteps, Encodable;
    PlannedAppend(m, NodeRecord(node, SnapshotCheckpoint(c)));
    SnapshotOnce(p, m, node, c);
  }

  lemma PlannedAppend(m: Memory, r: NodeRecord)
    ensures AppendPlan(m, r).ok ==> Encodable(r)
    ensures Then(AppendPlan(m, r), SyncPlan).ok == AppendPlan(m, r).ok
    ensures Then(AppendPlan(m, r), SyncPlan).memory.registry == m.registry
  {
    hide Encodable, Encoding.Frame;
  }

  /** After a `create_node` or `save_snapshot` that succeeds, the node's index entry, in memory and on
      disk, is the position of the checkpoint just written: the last record of the active segment.
      No other active node's entry has changed. */
  lemma IndexNamesTheNewest(w: World, op: Operation)
    requires Reachable(w) && w.engine.Some? && w.engine.value.Idle?
    requires op.CreateNode? || op.SaveSnapshot?
    requires PlanOf(w.at.disk, w.engine.value.memory, op).ok
    ensures var s := Done(w, op);
            var m := s.engine.value.memory;
            && s.at.hist != [] && m.active == Last(s.at.hist)
            && s.at.hist[Last(s.at.hist)] != [] && HistoryOk(s.at.hist)
            && op.node in m.index && m.index[op.node].segment == m.active
            && RecordAt(s.at.hist, Appended(op)[0], m.index[op.node], |s.at.hist[Last(s.at.hist)]| - 1)
            && IsActive(m.registry, op.node)
            && op.node in s.at.disk.index && s.at.disk.index[op.node] == m.index[op.node]
            && m.index == w.engine.value.memory.index[op.node := m.index[op.node]]
  {
    hide SegmentsFit, DiskInv, MemoryFits, RunSteps, StepsOk, PlanOf, Flat, Durable, Reachable, Encodable, AppendPlan,
         AppendPosition, RecordAt, OffsetOf, AppendsOnce;
    var m, r := w.engine.value.memory, Appended(op)[0];
    ReachInv(w);
    match op {
      case CreateNode(node) => CreateIndexes(w.at.disk, m, node);
      case SaveSnapshot(node, c) => SnapshotIndexes(w.at, m, node, c);
    }
    var pl := PlanOf(w.at.disk, m, op);
    AppendedLast(w.at, m, r, pl);
    PlanOk(w.at, m, op);
    var s := Done(w, op);
    FitsShape(s.at, pl.memory);
    FitsParts(s.at, pl.memory);
  }

  /** The record such a plan appends is the last of the history, at its position. */
  lemma AppendedLast(p: Point, m: Memory, r: NodeRecord, pl: Plan)
    requires MemoryFits(p, m) && AppendsIndexed(m, r, pl)
    ensures var q := RunSteps(p, pl.steps);
            && q.hist != [] && HistoryOk(q.hist) && q.hist[Last(q.hist)] != []
            && AppendPosition(m, r).segment == Last(q.hist)
            && RecordAt(q.hist, r, AppendPosition(m, r), |q.hist[Last(q.hist)]| - 1)
  {
    hide SegmentsFit, MemoryFits, RunSteps, StepsOk, Flat, Encodable, AppendPlan, AppendPosition, RecordAt, OffsetOf;
    var first := AppendPlan(m, r).steps;
    var rest := pl.steps[|first|..];
    assert pl.steps == first + rest;
    RunConcat(p, first, rest);
    AppendOk(p, m, r);
    QuietRun(RunSteps(p, first), rest);
  }

  /** So after a `save_snapshot` of the only active node, one segment file is left: the active one. */
  lemma OnlyNodeKeepsOneSegment(run: seq<World>, i: nat, node: NodeId, c: Checkpoint)
    requires IsRun(run) && i < |run| && run[i].engine.Some? && run[i].engine.value.Idle?
    requires PlanOf(run[i].at.disk, run[i].engine.value.memory, SaveSnapshot(node, c)).ok
    requires ActiveNodes(run[i].engine.value.memory.registry) == {node}
    ensures var s := Done(run[i], SaveSnapshot(node, c));
            s.at.disk.segs.Keys == {s.engine.value.memory.active}
  {
    hide PlanOf, Reachable, IsRun, Done, RecordAt, HistoryOk, ActiveNodes, AppendsIndexed, Appended;
    var w, op := run[i], SaveSnapshot(node, c);
    DoneIsIdle(w, op);
    PrefixReaches(run, i);
    ExactlyTheUnneededGo(run, i, op);
    IndexNamesTheNewest(w, op);
    SnapshotIndexes(w.at, w.engine.value.memory, node, c);
    var s := Done(w, op);
    ActiveIsGreatest(s);
    var m := s.engine.value.memory;
    OnlyOneLeft(s.at.disk.segs.Keys, m.index, ActiveNodes(m.registry), node, m.active);
  }

  lemma DoneIsIdle(w: World, op: Operation)
    requires w.engine.Some? && w.engine.value.Idle?
    ensures Done(w, op).engine == Some(Idle(PlanOf(w.at.disk, w.engine.value.memory, op).memory))
  {
    hide PlanOf, RunSteps;
  }

  lemma OnlyOneLeft(ids: set<SegmentId>, index: Checkpoints, nodes: set<NodeId>, node: NodeId, active: SegmentId)
    requires nodes == {node} && node in index && index[node].segment == active && active in ids
    requires forall id :: id in ids ==>
               id <= active && (id == active || exists n :: n in nodes && index[n].segment <= id)
    ensures ids == {active}
  {
  }

  lemma ActiveIsGreatest(w: World)
    requires Reachable(w) && w.engine.Some? && w.engine.value.Idle?
    ensures w.engine.value.memory.active in w.at.disk.segs
    ensures forall id :: id in w.at.disk.segs ==> id <= w.engine.value.memory.active
  {
    hide WorldInv, MemoryFits, DiskInv, SegmentsFit, Reachable, Flat;
    var m := w.engine.value.memory;
    ReachInv(w);
    IdleFits(w);
    FitsShape(w.at, m);
    FitsParts(w.at, m);
    forall id | id in w.at.disk.segs ensures id <= m.active {
      KeyBound(w.at.disk, w.at.hist, id);
    }
  }
}
