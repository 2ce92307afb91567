/** What each operation does to what callers can see: which nodes are active, and
    the state each of them loads. Stated from every reachable state of the store,
    field by field, and without the records or steps behind it. */
module Effects {
  import opened Records
  import opened Codec
  import opened NodeStates
  import opened ReplayProofs
  import opened Disks
  import opened DurableSteps
  import opened Protocol
  import opened Runs
  import opened Durability
  import opened Limits
  import opened Folds

  /** A reachable store with an engine between operations. */
  ghost predicate Ready(w: World) {
    Reachable(w) && w.engine.Some? && w.engine.value.Idle?
  }

  ghost function RegistryOf(w: World): Registry
    requires Ready(w)
  {
    w.engine.value.memory.registry
  }

  ghost function LoadIn(w: World, n: NodeId): Option<State>
    requires Ready(w)
  {
    Load(w.at.disk, w.engine.value.memory, n)
  }

  ghost predicate Succeeds(w: World, op: Operation)
    requires Ready(w)
  {
    PlanOf(w.at.disk, w.engine.value.memory, op).ok
  }

  // ---- records at the end of the history ------------------------------------------------------

  lemma {:induction false} LastCheckpointStays(own: seq<Record>, r: Record)
    requires !r.SnapshotCheckpoint?
    ensures FromLastCheckpoint(own + [r]) == FromLastCheckpoint(own) + [r]
    decreases |own|
  {
    if own != [] {
      assert (own + [r])[1..] == own[1..] + [r];
      LastCheckpointStays(own[1..], r);
      if HasCheckpoint(own[1..]) {
        var i :| 0 <= i < |own[1..]| && own[1..][i].SnapshotCheckpoint?;
        assert (own[1..] + [r])[i].SnapshotCheckpoint?;
      }
    }
  }

  lemma OneOwn(r: NodeRecord, n: NodeId)
    ensures OwnRecords([r], n) == if r.node == n then [r.record] else []
  {
    assert [r][1..] == [];
  }

  /** A node is not touched by the record of another, and its own next record is applied. */
  lemma NaiveNext(rs: seq<NodeRecord>, r: NodeRecord, n: NodeId)
    ensures r.node != n ==> Naive(rs + [r], n) == Naive(rs, n)
    ensures r.node == n && !r.record.SnapshotCheckpoint? ==>
              Naive(rs + [r], n) == match Naive(rs, n) case None => None case Some(s) => ApplyRecord(s, r.record)
  {
    hide Fold, ApplyRecord, FromLastCheckpoint, OwnRecords;
    var own := OwnRecords(rs, n);
    OwnConcat(rs, [r], n);
    OneOwn(r, n);
    if r.node == n && !r.record.SnapshotCheckpoint? {
      LastCheckpointStays(own, r.record);
      FoldLast(DEFAULT_STATE, FromLastCheckpoint(own) + [r.record]);
      assert (FromLastCheckpoint(own) + [r.record])[..|FromLastCheckpoint(own)|] == FromLastCheckpoint(own);
    } else {
      assert own + [] == own;
    }
  }

  // ---- one operation ---------------------------------------------------------------------------

  /** Which nodes are known afterwards, and which of them are removed. */
  lemma RegistryAfter(d: Disk, m: Memory, op: Operation)
    ensures var pl := PlanOf(d, m, op);
            pl.memory.registry == (
              if pl.ok && op.CreateNode? then m.registry[op.node := false]
              else if pl.ok && op.RemoveNode? then m.registry[op.node := true]
              else m.registry)
    ensures PlanOf(d, m, op).ok ==>
              match op
              case CreateNode(node) => node !in m.registry
              case SaveRecord(node, _) => IsActive(m.registry, node)
              case SaveSnapshot(node, _) => IsActive(m.registry, node)
              case RemoveNode(node) => IsActive(m.registry, node)
              case Sync => true
  {
    hide AppendPlan, AppendPosition, ValidCheckpoint, DiskAfter, DeleteSteps, IsActive;
    match op
    case CreateNode(node) => AppendSyncMetadata(m, NodeRecord(node, SnapshotCheckpoint(INITIAL_CHECKPOINT)));
    case SaveRecord(node, record) => AppendKeepsMetadata(m, NodeRecord(node, record));
    case SaveSnapshot(node, c) => AppendSyncMetadata(m, NodeRecord(node, SnapshotCheckpoint(c)));
    case _ =>
  }

  lemma AppendSyncMetadata(m: Memory, r: NodeRecord)
    ensures AppendPlan(m, r).memory.registry == m.registry && AppendPlan(m, r).memory.index == m.index
    ensures Then(AppendPlan(m, r), SyncPlan).memory.registry == m.registry
    ensures Then(AppendPlan(m, r), SyncPlan).memory.index == m.index
  {
    hide AppendPlan;
    AppendKeepsMetadata(m, r);
    AppendKeepsMetadata(AppendPlan(m, r).memory, r);
  }

  /** After an operation the store is ready again, and every active node loads the fold of a history
      that has grown by exactly the operation's record, if it succeeded. */
  lemma DoneLoads(w: World, op: Operation)
    requires Ready(w) && IsCallable(op)
    ensures var s := Done(w, op);
            && Ready(s)
            && Flat(s.at.hist) == Flat(w.at.hist) + (if Succeeds(w, op) then Appended(op) else [])
            && s.engine.value.memory == PlanOf(w.at.disk, w.engine.value.memory, op).memory
            && (forall n :: IsActive(RegistryOf(s), n) ==> LoadIn(s, n) == Naive(Flat(s.at.hist), n))
            && (forall n :: IsActive(RegistryOf(w), n) ==> LoadIn(w, n) == Naive(Flat(w.at.hist), n))
  {
    hide Reachable, SegmentsFit, DiskInv, MemoryFits, RunSteps, StepsOk, PlanOf, Flat, Durable, Load, Naive;
    var m := w.engine.value.memory;
    ReachInv(w);
    ReachDone(w, op);
    PlanOk(w.at, m, op);
    var s := Done(w, op);
    forall n | IsActive(RegistryOf(s), n) ensures LoadIn(s, n) == Naive(Flat(s.at.hist), n) {
      LoadIsNaive(s.at, s.engine.value.memory, n);
    }
    forall n | IsActive(RegistryOf(w), n) ensures LoadIn(w, n) == Naive(Flat(w.at.hist), n) {
      LoadIsNaive(w.at, m, n);
    }
  }

  /** The node whose records an operation may add to. */
  function NodeOf(op: Operation): Option<NodeId> {
    match op
    case CreateNode(node) => Some(node)
    case SaveRecord(node, _) => Some(node)
    case SaveSnapshot(node, _) => Some(node)
    case _ => None
  }

  /** An operation that fails changes nothing that can be loaded, and an operation that succeeds
      changes nothing for any node but its own. A successful creation adds its node, a successful
      removal takes its node away, and nothing else changes which nodes there are. */
  lemma OthersKept(w: World, op: Operation, n: NodeId)
    requires Ready(w) && IsCallable(op)
    ensures var s := Done(w, op);
            && Ready(s)
            && RegistryOf(s) == (
                 if Succeeds(w, op) && op.CreateNode? then RegistryOf(w)[op.node := false]
                 else if Succeeds(w, op) && op.RemoveNode? then RegistryOf(w)[op.node := true]
                 else RegistryOf(w))
            && (IsActive(RegistryOf(w), n) && IsActive(RegistryOf(s), n) ==>
                !Succeeds(w, op) || NodeOf(op) != Some(n) ==> LoadIn(s, n) == LoadIn(w, n))
  {
    hide Reachable, PlanOf, Flat, Load, Naive, Done, IsCallable;
    DoneLoads(w, op);
    RegistryAfter(w.at.disk, w.engine.value.memory, op);
    if Appended(op) != [] {
      NaiveNext(Flat(w.at.hist), Appended(op)[0], n);
    }
    assert Flat(w.at.hist) + [] == Flat(w.at.hist);
  }

  /** A new node has term 0, no vote, an empty configuration, an empty log at position 0, and no
      payloads; its snapshot is the empty one its first checkpoint spells out. */
  lemma CreatedLoads(w: World, node: NodeId)
    requires Ready(w) && Succeeds(w, CreateNode(node))
    ensures var s := Done(w, CreateNode(node));
            && Ready(s) && node !in RegistryOf(w) && IsActive(RegistryOf(s), node)
            && LoadIn(s, node) == Some(State(
                 0, None,
                 Log(Config({}, {}, {}), Entries(LogPosition(0, 0), [])),
                 map[],
                 Some(Snapshot(LogPosition(0, 0), Config({}, {}, {}), []))))
  {
    hide Reachable, PlanOf, Flat, Load, Naive, Done;
    DoneLoads(w, CreateNode(node));
    RegistryAfter(w.at.disk, w.engine.value.memory, CreateNode(node));
    LastIsCheckpoint(Flat(w.at.hist), node, INITIAL_CHECKPOINT);
    InitialState();
    CheckpointLoads(INITIAL_CHECKPOINT);
  }

  lemma SavedLoads(w: World, node: NodeId, record: Record)
    requires Ready(w) && !record.SnapshotCheckpoint? && Succeeds(w, SaveRecord(node, record))
    ensures var s := Done(w, SaveRecord(node, record));
            && Ready(s) && RegistryOf(s) == RegistryOf(w) && IsActive(RegistryOf(w), node)
            && LoadIn(s, node)
               == match LoadIn(w, node) case None => None case Some(before) => ApplyRecord(before, record)
  {
    hide Reachable, PlanOf, Flat, Load, Naive, Done, ApplyRecord;
    var op := SaveRecord(node, record);
    DoneLoads(w, op);
    RegistryAfter(w.at.disk, w.engine.value.memory, op);
    NaiveNext(Flat(w.at.hist), NodeRecord(node, record), node);
  }

  /** Saving a term changes the term that is loaded, and nothing else. */
  lemma SavedTermLoads(w: World, node: NodeId, term: Term)
    requires Ready(w) && Succeeds(w, SaveRecord(node, CurrentTerm(term)))
    ensures var s := Done(w, SaveRecord(node, CurrentTerm(term)));
            && Ready(s) && RegistryOf(s) == RegistryOf(w) && IsActive(RegistryOf(w), node)
            && match LoadIn(w, node)
               case None => LoadIn(s, node) == None
               case Some(b) => LoadIn(s, node) == Some(State(term, b.votedFor, b.log, b.payloads, b.snapshot))
  {
    hide Reachable, PlanOf, Load, Done;
    SavedLoads(w, node, CurrentTerm(term));
  }

  /** Saving a vote, or that there is none, changes the vote that is loaded, and nothing else. */
  lemma SavedVoteLoads(w: World, node: NodeId, votedFor: Option<NodeId>)
    requires Ready(w) && Succeeds(w, SaveRecord(node, VotedFor(votedFor)))
    ensures var s := Done(w, SaveRecord(node, VotedFor(votedFor)));
            && Ready(s) && RegistryOf(s) == RegistryOf(w) && IsActive(RegistryOf(w), node)
            && match LoadIn(w, node)
               case None => LoadIn(s, node) == None
               case Some(b) => LoadIn(s, node) == Some(State(b.currentTerm, votedFor, b.log, b.payloads, b.snapshot))
  {
    hide Reachable, PlanOf, Load, Done;
    SavedLoads(w, node, VotedFor(votedFor));
  }

  /** Appending entries: the node still loads exactly when the log loaded before goes through the
      anchor, and then everything up to the anchor is as before and everything behind it is the
      append's. */
  lemma SavedEntriesLoad(w: World, node: NodeId, a: Append)
    requires Ready(w) && Succeeds(w, SaveRecord(node, Record.Append(a)))
    ensures var s := Done(w, SaveRecord(node, Record.Append(a)));
            && Ready(s) && RegistryOf(s) == RegistryOf(w) && IsActive(RegistryOf(w), node)
            && match LoadIn(w, node)
               case None => LoadIn(s, node) == None
               case Some(b) =>
                 && (LoadIn(s, node).Some? <==> GoesThrough(b.log.entries, a.entries.prev))
                 && (LoadIn(s, node).Some? ==> AppendedTo(b, a, LoadIn(s, node).value))
  {
    hide Reachable, PlanOf, Load, Done, ApplyAppend, ValidAppend, GoesThrough, AppendedTo;
    SavedLoads(w, node, Record.Append(a));
    SavedIsValid(w.at.disk, w.engine.value.memory, node, a);
    if LoadIn(w, node).Some? {
      AppendSpelledOut(LoadIn(w, node).value, a);
    }
  }

  lemma SavedIsValid(d: Disk, m: Memory, node: NodeId, a: Append)
    requires PlanOf(d, m, SaveRecord(node, Record.Append(a))).ok
    ensures ValidAppend(a)
  {
    hide ValidAppend, Encoding.Frame;
  }

  /** Saving a snapshot replaces what is loaded by the checkpoint's own content. */
  lemma SavedCheckpointLoads(w: World, node: NodeId, c: Checkpoint)
    requires Ready(w) && Succeeds(w, SaveSnapshot(node, c))
    ensures var s := Done(w, SaveSnapshot(node, c));
            && Ready(s) && RegistryOf(s) == RegistryOf(w) && IsActive(RegistryOf(w), node)
            && (LoadIn(s, node).Some? <==> !(c.snapshot.lastIncluded.index == 0 && c.snapshot.lastIncluded.term != 0))
            && (LoadIn(s, node).Some? ==>
                LoadIn(s, node) == Some(State(
                  c.currentTerm, c.votedFor,
                  Log(c.snapshot.config, c.suffix.entries),
                  c.suffix.payloads,
                  Some(c.snapshot))))
  {
    hide Reachable, PlanOf, Load, Done;
    SavedSnapshotLoads(w, node, c);
    DoneLoads(w, SaveSnapshot(node, c));
    RegistryAfter(w.at.disk, w.engine.value.memory, SaveSnapshot(node, c));
  }

  /** Between operations of any run, crashes and reopenings included, every active node that loads
      loads what searching its records in the history from the end gives, field by field. */
  lemma LoadedIsFound(run: seq<World>, i: nat, n: NodeId)
    requires IsRun(run) && i < |run| && run[i].engine.Some? && run[i].engine.value.Idle?
    requires IsActive(run[i].engine.value.memory.registry, n)
    requires Load(run[i].at.disk, run[i].engine.value.memory, n).Some?
    ensures FoundIn(Load(run[i].at.disk, run[i].engine.value.memory, n).value, OwnRecords(Flat(run[i].at.hist), n))
  {
    hide IsRun, Flat, Load, Naive, FoundIn;
    LoadsHistory(run, i, n);
    NaiveIsFound(Flat(run[i].at.hist), n);
  }

  // ---- when an operation succeeds ----------------------------------------------------------------

  /** The record fits behind the last one, or the segment is empty, or there is an ID for the next. */
  ghost predicate HasRoom(m: Memory, r: NodeRecord)
    requires Encodable(r)
  {
    var end := m.segmentLen + |Encoding.Frame(r)|;
    m.segmentLen <= 4 || (end <= m.maxSegmentLen && end < 0x1_0000_0000_0000_0000) || m.active < 0xFFFF_FFFF_FFFF_FFFF
  }

  /** An operation succeeds exactly if its node is one it applies to and its record, if it has one,
      can be encoded and has room. */
  lemma SucceedsExactly(w: World, op: Operation)
    requires Ready(w)
    ensures var m := w.engine.value.memory;
            Succeeds(w, op) <==>
              match op
              case CreateNode(node) =>
                && node !in m.registry
                && Encodable(NodeRecord(node, SnapshotCheckpoint(INITIAL_CHECKPOINT)))
                && HasRoom(m, NodeRecord(node, SnapshotCheckpoint(INITIAL_CHECKPOINT)))
              case SaveRecord(node, record) =>
                && node in m.registry && !m.registry[node]
                && Encodable(NodeRecord(node, record)) && HasRoom(m, NodeRecord(node, record))
              case SaveSnapshot(node, c) =>
                && node in m.registry && !m.registry[node]
                && Encodable(NodeRecord(node, SnapshotCheckpoint(c)))
                && HasRoom(m, NodeRecord(node, SnapshotCheckpoint(c)))
              case RemoveNode(node) => node in m.registry && !m.registry[node]
              case Sync => true
  {
    hide Reachable, Encodable, Encoding.Frame, DiskAfter, DeleteSteps, HasRoom;
    var m := w.engine.value.memory;
    match op
    case CreateNode(node) => AppendSyncSucceeds(m, NodeRecord(node, SnapshotCheckpoint(INITIAL_CHECKPOINT)));
    case SaveRecord(node, record) => AppendSyncSucceeds(m, NodeRecord(node, record));
    case SaveSnapshot(node, c) =>
      AppendSyncSucceeds(m, NodeRecord(node, SnapshotCheckpoint(c)));
      EncodableCheckpoint(node, c);
    case _ =>
  }

  lemma AppendSyncSucceeds(m: Memory, r: NodeRecord)
    ensures AppendPlan(m, r).ok <==> Encodable(r) && HasRoom(m, r)
    ensures Then(AppendPlan(m, r), SyncPlan).ok == AppendPlan(m, r).ok
  {
    hide Encodable, Encoding.Frame;
  }

  lemma EncodableCheckpoint(node: NodeId, c: Checkpoint)
    ensures Encodable(NodeRecord(node, SnapshotCheckpoint(c))) ==> ValidCheckpoint(c)
  {
    hide ValidCheckpoint;
  }

  /** A new node's first checkpoint, a term and a vote can always be encoded. */
  lemma SmallRecordsEncodable(node: NodeId, term: Term, votedFor: Option<NodeId>)
    ensures Encodable(NodeRecord(node, SnapshotCheckpoint(INITIAL_CHECKPOINT)))
    ensures Encodable(NodeRecord(node, CurrentTerm(term)))
    ensures Encodable(NodeRecord(node, VotedFor(votedFor)))
  {
    InitialEncodable(node);
    TermEncodable(node, term);
    VoteEncodable(node, votedFor);
  }

  lemma VoteEncodable(node: NodeId, votedFor: Option<NodeId>)
    ensures Encodable(NodeRecord(node, VotedFor(votedFor)))
  {
  }

  // ---- what is acknowledged stays ---------------------------------------------------------------------

  /** A stretch of a run: any steps, crashes and reopenings. */
  ghost predicate Continues(run: seq<World>) {
    run != [] && forall i :: 0 <= i < |run| - 1 ==> Next(run[i], run[i + 1])
  }

  lemma {:induction false} AcknowledgedStays(run: seq<World>)
    requires Continues(run) && Reachable(run[0])
    ensures var e := run[|run| - 1];
            && Reachable(e)
            && run[0].acknowledged <= |Flat(run[0].at.hist)|
            && run[0].acknowledged <= e.acknowledged <= |Flat(e.at.hist)|
            && Flat(run[0].at.hist)[..run[0].acknowledged] <= Flat(e.at.hist)
    decreases |run|
  {
    hide Reachable, WorldInv, Next, Flat, Crashes;
    ReachBound(run[0]);
    var n := |run| - 1;
    if n > 0 {
      AcknowledgedStays(run[..n]);
      assert run[..n][n - 1] == run[n - 1];
      assert Next(run[n - 1], run[n - 1 + 1]);
      ReachInv(run[n - 1]);
      NextKeeps(run[n - 1], run[n]);
      ReachNext(run[n - 1], run[n]);
      PrefixKept(Flat(run[0].at.hist)[..run[0].acknowledged], Flat(run[n - 1].at.hist), Flat(run[n].at.hist));
    }
  }

  lemma PrefixKept<T>(a: seq<T>, b: seq<T>, c: seq<T>)
    requires a <= b && (b <= c || (c <= b && |a| <= |c|))
    ensures a <= c
  {
  }

  lemma ReachBound(w: World)
    requires Reachable(w)
    ensures w.acknowledged <= |Flat(w.at.hist)|
  {
    hide Reachable, SegmentsFit, DiskInv, EngineInv, Durable, Flat;
    ReachInv(w);
    DurableBound(w.at.disk, w.at.hist, w.acknowledged);
  }

  /** After a `create_node` or `save_snapshot` that succeeds, or any save and then a `sync`, the whole
      history is acknowledged. */
  lemma AllAcknowledged(w: World, op: Operation)
    requires Ready(w) && Succeeds(w, op)
    requires op.CreateNode? || op.SaveSnapshot? || (op.Sync? && w.at.own == |Flat(w.at.hist)|)
    ensures Reachable(Done(w, op)) && Done(w, op).acknowledged == |Flat(Done(w, op).at.hist)|
  {
    hide Reachable, SegmentsFit, DiskInv, MemoryFits, RunSteps, StepsOk, PlanOf, Flat, Durable;
    var m := w.engine.value.memory;
    ReachInv(w);
    ReachDone(w, op);
    PlanOk(w.at, m, op);
    ReachBound(w);
    ReachBound(Done(w, op));
  }

  lemma SavedOwnsAll(w: World, node: NodeId, record: Record)
    requires Ready(w) && !record.SnapshotCheckpoint? && Succeeds(w, SaveRecord(node, record))
    ensures var s := Done(w, SaveRecord(node, record)); s.at.own == |Flat(s.at.hist)|
  {
    hide Reachable, SegmentsFit, DiskInv, MemoryFits, RunSteps, StepsOk, PlanOf, Flat, Durable;
    ReachInv(w);
    PlanOk(w.at, w.engine.value.memory, SaveRecord(node, record));
  }

  /** Whatever crashes and reopenings follow, the history a `create_node` or `save_snapshot` returned
      with is never lost. */
  lemma ReturnedSurvives(w: World, op: Operation, run: seq<World>)
    requires Ready(w) && Succeeds(w, op)
    requires op.CreateNode? || op.SaveSnapshot? || (op.Sync? && w.at.own == |Flat(w.at.hist)|)
    requires Continues(run) && run[0] == Done(w, op)
    ensures Reachable(run[|run| - 1]) && Flat(Done(w, op).at.hist) <= Flat(run[|run| - 1].at.hist)
  {
    hide Reachable, PlanOf, Flat, Done, Next;
    AllAcknowledged(w, op);
    AcknowledgedStays(run);
    var a := Flat(Done(w, op).at.hist);
    assert a[..|a|] == a;
  }

  /** An active node loads the same as long as what it loaded from is kept and no record of it comes
      after that. */
  lemma StillLoads(s: World, e: World, n: NodeId)
    requires Ready(s) && Ready(e) && IsActive(RegistryOf(s), n) && IsActive(RegistryOf(e), n)
    requires Flat(s.at.hist) <= Flat(e.at.hist)
    requires forall j :: |Flat(s.at.hist)| <= j < |Flat(e.at.hist)| ==> Flat(e.at.hist)[j].node != n
    ensures LoadIn(e, n) == LoadIn(s, n)
  {
    hide Reachable, Flat, Load, Naive;
    ReadyLoads(s, n);
    ReadyLoads(e, n);
    var a, b := Flat(s.at.hist), Flat(e.at.hist);
    assert b == a + b[|a|..];
    NaiveOthers(a, b[|a|..], n);
  }

  /** A record saved and then synced by the same instance is as safe. */
  lemma SyncedSurvives(w: World, node: NodeId, record: Record, run: seq<World>)
    requires Ready(w) && !record.SnapshotCheckpoint? && Succeeds(w, SaveRecord(node, record))
    requires Continues(run) && run[0] == Done(Done(w, SaveRecord(node, record)), Sync)
    ensures var saved := Done(w, SaveRecord(node, record));
            && Ready(saved) && Flat(saved.at.hist) == Flat(w.at.hist) + [NodeRecord(node, record)]
            && Flat(saved.at.hist) <= Flat(run[|run| - 1].at.hist)
  {
    hide Reachable, PlanOf, Flat, Load, Naive, Done, Next;
    var saved := Done(w, SaveRecord(node, record));
    DoneLoads(w, SaveRecord(node, record));
    SavedOwnsAll(w, node, record);
    SyncAlways(saved);
    DoneLoads(saved, Sync);
    ReturnedSurvives(saved, Sync, run);
    assert Flat(saved.at.hist) + [] == Flat(saved.at.hist);
  }

  lemma SyncAlways(w: World)
    requires Ready(w)
    ensures Succeeds(w, Sync)
  {
    hide Reachable;
  }

  lemma ReadyLoads(w: World, n: NodeId)
    requires Ready(w) && IsActive(RegistryOf(w), n)
    ensures LoadIn(w, n) == Naive(Flat(w.at.hist), n)
  {
    hide Reachable, SegmentsFit, DiskInv, MemoryFits, Flat, Durable, Load, Naive;
    ReachInv(w);
    LoadIsNaive(w.at, w.engine.value.memory, n);
  }

  lemma {:induction false} NaiveOthers(a: seq<NodeRecord>, b: seq<NodeRecord>, n: NodeId)
    requires forall j :: 0 <= j < |b| ==> b[j].node != n
    ensures Naive(a + b, n) == Naive(a, n)
    decreases |b|
  {
    hide Naive;
    if b == [] {
      assert a + b == a;
    } else {
      var k := |b| - 1;
      NaiveOthers(a, b[..k], n);
      NaiveNext(a + b[..k], b[k], n);
      assert a + b == a + b[..k] + [b[k]];
    }
  }
}
