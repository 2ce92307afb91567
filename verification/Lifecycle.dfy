/** The life cycle of nodes over whole runs: an ID is created once, and a removed
    node never comes back, whatever crashes. */
module Lifecycle {
  import opened Words
  import opened Records
  import opened Sorted
  import opened Replay
  import opened Recovery
  import opened Codec
  import opened Disks
  import opened DurableSteps
  import opened Protocol
  import opened Runs

  /** No ID is forgotten and no removal undone. */
  predicate RegistryGrows(a: Registry, b: Registry) {
    forall n :: n in a ==> n in b && (a[n] ==> b[n])
  }

  /** Every registry that the steps save grows out of the one before it. */
  ghost predicate Registers(registry: Registry, todo: seq<Micro>)
    decreases |todo|
  {
    todo != [] ==>
      if todo[0].SaveRegistry? then RegistryGrows(registry, todo[0].registry) && Registers(todo[0].registry, todo[1..])
      else Registers(registry, todo[1..])
  }

  predicate SavesNoRegistry(steps: seq<Micro>) {
    forall i :: 0 <= i < |steps| ==> !steps[i].SaveRegistry?
  }

  lemma {:induction false} RegistersAfter(registry: Registry, before: seq<Micro>, todo: seq<Micro>)
    requires SavesNoRegistry(before) && Registers(registry, todo)
    ensures Registers(registry, before + todo)
    decreases |before|
  {
    if before == [] {
      assert before + todo == todo;
    } else {
      assert (before + todo)[1..] == before[1..] + todo;
      RegistersAfter(registry, before[1..], todo);
    }
  }

  lemma RegistersNothing(registry: Registry, steps: seq<Micro>)
    requires SavesNoRegistry(steps)
    ensures Registers(registry, steps)
  {
    assert steps + [] == steps;
    RegistersAfter(registry, steps, []);
  }

  lemma AppendSavesNone(m: Memory, r: NodeRecord)
    ensures SavesNoRegistry(AppendPlan(m, r).steps) && SavesNoRegistry(Then(AppendPlan(m, r), SyncPlan).steps)
  {
    hide Encodable, Encoding.Frame;
  }

  lemma {:induction false} DeletesSaveNone(m: Memory, ids: seq<SegmentId>)
    ensures SavesNoRegistry(DeleteSteps(m, ids))
    decreases |ids|
  {
    hide Collectable;
    if ids != [] {
      DeletesSaveNone(m, ids[1..]);
    }
  }

  lemma CreateRegisters(m: Memory, node: NodeId)
    ensures Registers(m.registry, CreatePlan(m, node).steps)
  {
    hide AppendPlan, AppendPosition, Then;
    if node !in m.registry {
      var r := NodeRecord(node, SnapshotCheckpoint(INITIAL_CHECKPOINT));
      var a := Then(AppendPlan(m, r), SyncPlan);
      AppendSavesNone(m, r);
      var index, registry := m.index[node := AppendPosition(m, r)], m.registry[node := false];
      var last := [SaveIndex(index), SaveRegistry(registry)];
      assert last[1..] == [SaveRegistry(registry)] && last[1..][1..] == [];
      RegistersAfter(m.registry, a.steps, last);
      RegistersNothing(m.registry, a.steps);
    }
  }

  lemma SnapshotRegisters(d: Disk, m: Memory, node: NodeId, c: Checkpoint)
    ensures Registers(m.registry, PlanOf(d, m, SaveSnapshot(node, c)).steps)
  {
    hide AppendPlan, AppendPosition, Then, DiskAfter, DeleteSteps, ValidCheckpoint, Ascending;
    var r := NodeRecord(node, SnapshotCheckpoint(c));
    AppendSavesNone(m, r);
    var p := SnapshotPlan(m, node, c);
    assert SavesNoRegistry(p.steps);
    DeletesSaveNone(p.memory, Ascending(DiskAfter(d, p.steps).segs.Keys));
    CollectedRegisters(d, m.registry, p);
  }

  lemma CollectedRegisters(d: Disk, registry: Registry, p: Plan)
    requires SavesNoRegistry(p.steps)
    ensures Registers(registry, Then(p, mem => CollectPlan(DiskAfter(d, p.steps), mem)).steps)
  {
    hide DiskAfter, Ascending, DeleteSteps;
    DeletesSaveNone(p.memory, Ascending(DiskAfter(d, p.steps).segs.Keys));
    RegistersNothing(registry, Then(p, mem => CollectPlan(DiskAfter(d, p.steps), mem)).steps);
  }

  lemma RemoveRegisters(d: Disk, m: Memory, node: NodeId)
    ensures Registers(m.registry, PlanOf(d, m, RemoveNode(node)).steps)
  {
    hide DiskAfter, Ascending, DeleteSteps;
    var p := RemovePlan(m, node);
    if p.ok {
      var deletes := CollectPlan(DiskAfter(d, p.steps), p.memory).steps;
      DeletesSaveNone(p.memory, Ascending(DiskAfter(d, p.steps).segs.Keys));
      var all := p.steps + deletes;
      assert all[1..] == [p.steps[1]] + deletes;
      RegistersNothing(p.steps[0].registry, all[1..]);
    }
  }

  lemma PlanRegisters(d: Disk, m: Memory, op: Operation)
    ensures Registers(m.registry, PlanOf(d, m, op).steps)
  {
    hide AppendPlan, CreatePlan, SnapshotPlan, RemovePlan, CollectPlan, DiskAfter, Registers;
    match op
    case CreateNode(node) => CreateRegisters(m, node);
    case SaveRecord(node, record) =>
      AppendSavesNone(m, NodeRecord(node, record));
      RegistersNothing(m.registry, PlanOf(d, m, op).steps);
    case SaveSnapshot(node, c) => SnapshotRegisters(d, m, node, c);
    case RemoveNode(node) => RemoveRegisters(d, m, node);
    case Sync => RegistersNothing(m.registry, PlanOf(d, m, op).steps);
  }

  lemma OpenSavesNone(d: Disk, max: nat)
    ensures SavesNoRegistry(OpenPlan(d, max).steps)
  {
    hide Recovered, SelectActive, ValidPosition, DiskAfter, Retained;
  }

  // ---- runs ----------------------------------------------------------------------------------------

  ghost predicate TodoRegisters(w: World) {
    w.engine.Some? && w.engine.value.Busy? ==> Registers(w.at.disk.registry, w.engine.value.todo)
  }

  lemma IdleRegistry(w: World)
    requires WorldInv(w) && w.engine.Some? && w.engine.value.Idle?
    ensures w.engine.value.memory.registry == w.at.disk.registry
  {
    hide SegmentsFit, DiskInv, Durable, Settled, Flat;
    FitsShape(w.at, w.engine.value.memory);
  }

  lemma StepRegisters(w: World, w': World)
    requires TodoRegisters(w) && TakesStep(w, w')
    ensures TodoRegisters(w') && RegistryGrows(w.at.disk.registry, w'.at.disk.registry)
  {
    hide ApplyHistory, Written, Flat;
  }

  lemma CrashRegistry(w: World, w': World)
    requires Crashes(w, w')
    ensures TodoRegisters(w') && w'.at.disk.registry == w.at.disk.registry
  {
    hide CrashHistory, CompleteFile;
  }

  lemma NextRegisters(w: World, w': World)
    requires WorldInv(w) && TodoRegisters(w) && Next(w, w')
    ensures TodoRegisters(w') && RegistryGrows(w.at.disk.registry, w'.at.disk.registry)
  {
    hide WorldInv, TakesStep, Crashes, OpenPlan, PlanOf, Registers;
    if Opens(w, w') {
      var max: u64 :| var pl := OpenPlan(w.at.disk, max);
           pl.ok && w' == World(w.at.(own := 0), w.acknowledged, Some(Busy(pl.steps, pl.memory, false)));
      OpenSavesNone(w.at.disk, max);
      RegistersNothing(w.at.disk.registry, OpenPlan(w.at.disk, max).steps);
    } else if exists op :: Begins(w, w', op) {
      var op :| Begins(w, w', op);
      IdleRegistry(w);
      PlanRegisters(w.at.disk, w.engine.value.memory, op);
    } else if TakesStep(w, w') {
      StepRegisters(w, w');
    } else if Returns(w, w') {
    } else {
      CrashRegistry(w, w');
    }
  }

  lemma {:induction false} RunRegisters(run: seq<World>, i: nat, j: nat)
    requires IsRun(run) && i <= j < |run|
    ensures TodoRegisters(run[j]) && RegistryGrows(run[i].at.disk.registry, run[j].at.disk.registry)
    decreases j
  {
    hide WorldInv, Next, TodoRegisters;
    if j == 0 {
      NoEngine();
    } else {
      RunKeeps(run, j - 1);
      RunRegisters(run, if i < j then i else j - 1, j - 1);
      NextRegisters(run[j - 1], run[j]);
    }
  }

  lemma NoEngine()
    ensures TodoRegisters(EMPTY_WORLD)
  {
  }

  /** Over every run, crashes and reopenings included: an ID that was ever created cannot be
      created again, and a removed node is never active again, on disk or in memory. */
  lemma CreatedOnce(run: seq<World>, i: nat, j: nat, n: NodeId)
    requires IsRun(run) && i <= j < |run| && n in run[i].at.disk.registry
    ensures n in run[j].at.disk.registry
    ensures run[i].at.disk.registry[n] ==> !IsActive(run[j].at.disk.registry, n)
    ensures run[j].engine.Some? && run[j].engine.value.Idle? ==>
              && (run[i].at.disk.registry[n] ==> !IsActive(run[j].engine.value.memory.registry, n))
              && !PlanOf(run[j].at.disk, run[j].engine.value.memory, CreateNode(n)).ok
  {
    hide WorldInv, IsRun, TodoRegisters;
    RunRegisters(run, i, j);
    RunKeeps(run, j);
    if run[j].engine.Some? && run[j].engine.value.Idle? {
      IdleRegistry(run[j]);
    }
  }
}
