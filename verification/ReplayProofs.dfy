/** Proofs about replay: hint independence, agreement of the all-node replay
    with the single-node one, and refinement of both to the naive fold. */
module ReplayProofs {
  import opened Words
  import opened Records
  import opened Sorted
  import opened Codec
  import opened Frames
  import opened NodeStates
  import opened Replay

  // ---- the naive reading of a record stream ---------------------------------------------

  /** A node's own records, in order. */
  ghost function OwnRecords(rs: seq<NodeRecord>, node: NodeId): seq<Record> {
    if rs == [] then []
    else (if rs[0].node == node then [rs[0].record] else []) + OwnRecords(rs[1..], node)
  }

  ghost predicate HasCheckpoint(rs: seq<Record>) {
    exists i :: 0 <= i < |rs| && rs[i].SnapshotCheckpoint?
  }

  /** The records from the last checkpoint on, or all of them if there is none. */
  ghost function FromLastCheckpoint(rs: seq<Record>): seq<Record> {
    if rs == [] then []
    else if HasCheckpoint(rs[1..]) then FromLastCheckpoint(rs[1..])
    else rs
  }

  /** The reference meaning of a stream for one node. */
  ghost function Naive(rs: seq<NodeRecord>, node: NodeId): Option<State> {
    Fold(DEFAULT_STATE, FromLastCheckpoint(OwnRecords(rs, node)))
  }

  // ---- decodable frames -----------------------------------------------------------------

  ghost predicate Decodable(fs: seq<StoredFrame>) {
    forall i :: 0 <= i < |fs| ==> Decode(fs[i].body).Some?
  }

  ghost function RecordsOf(fs: seq<StoredFrame>): (rs: seq<NodeRecord>)
    requires Decodable(fs)
    ensures |rs| == |fs|
    ensures forall i :: 0 <= i < |fs| ==> rs[i] == Decode(fs[i].body).value
  {
    seq(|fs|, i requires 0 <= i < |fs| => Decode(fs[i].body).value)
  }

  /** Positions strictly increase along a stream. */
  ghost predicate InOrder(fs: seq<StoredFrame>) {
    forall i, j :: 0 <= i < j < |fs| ==> Before(fs[i].at, fs[j].at)
  }

  lemma DecodeGivesNode(body: seq<byte>)
    requires Decode(body).Some?
    ensures DecodeNode(body) == Some(Decode(body).value.node)
  {
  }

  // ---- finding checkpoints ----------------------------------------------------------------

  ghost predicate IsCheckpointOf(f: StoredFrame, node: NodeId) {
    Decode(f.body).Some? && Decode(f.body).value.node == node && Decode(f.body).value.record.SnapshotCheckpoint?
  }

  /** The index of the last checkpoint of a node in a stream. */
  ghost function LastCheckpoint(fs: seq<StoredFrame>, node: NodeId): Option<nat> {
    if fs == [] then None
    else if IsCheckpointOf(fs[|fs| - 1], node) then Some(|fs| - 1)
    else LastCheckpoint(fs[..|fs| - 1], node)
  }

  ghost predicate NoCheckpointAfter(fs: seq<StoredFrame>, node: NodeId, c: nat) {
    forall i :: c <= i < |fs| ==> !IsCheckpointOf(fs[i], node)
  }

  lemma {:induction false} LastCheckpointIs(fs: seq<StoredFrame>, node: NodeId)
    ensures match LastCheckpoint(fs, node)
            case None => NoCheckpointAfter(fs, node, 0)
            case Some(c) => c < |fs| && IsCheckpointOf(fs[c], node) && NoCheckpointAfter(fs, node, c + 1)
    decreases |fs|
  {
    hide IsCheckpointOf;
    if fs != [] && !IsCheckpointOf(fs[|fs| - 1], node) {
      var most := fs[..|fs| - 1];
      LastCheckpointIs(most, node);
      assert forall i :: 0 <= i < |most| ==> most[i] == fs[i];
    }
  }

  lemma LastCheckpointUnique(fs: seq<StoredFrame>, node: NodeId, r: Option<nat>)
    requires match r
             case None => NoCheckpointAfter(fs, node, 0)
             case Some(c) => c < |fs| && IsCheckpointOf(fs[c], node) && NoCheckpointAfter(fs, node, c + 1)
    ensures LastCheckpoint(fs, node) == r
  {
    hide IsCheckpointOf, LastCheckpoint;
    LastCheckpointIs(fs, node);
  }

  ghost function LastCheckpointAt(fs: seq<StoredFrame>, node: NodeId): Option<RecordPosition> {
    LastCheckpointIs(fs, node);
    match LastCheckpoint(fs, node)
    case None => None
    case Some(i) => Some(fs[i].at)
  }

  lemma LastCheckpointTail(fs: seq<StoredFrame>, node: NodeId)
    requires fs != []
    ensures LastCheckpointAt(fs, node)
         == if LastCheckpointAt(fs[1..], node).Some? then LastCheckpointAt(fs[1..], node)
            else if IsCheckpointOf(fs[0], node) then Some(fs[0].at)
            else None
  {
    hide IsCheckpointOf, LastCheckpoint;
    LastCheckpointIs(fs[1..], node);
    assert forall i :: 0 <= i < |fs[1..]| ==> fs[1..][i] == fs[i + 1];
    assert forall i :: 0 < i < |fs| ==> fs[i] == fs[1..][i - 1];
    match LastCheckpoint(fs[1..], node)
    case Some(c) => LastCheckpointUnique(fs, node, Some(c + 1));
    case None => LastCheckpointUnique(fs, node, if IsCheckpointOf(fs[0], node) then Some(0) else None);
  }

  /** The first pass finds, for each wanted node, its last checkpoint in what it reads. */
  lemma {:induction false} CheckpointPass(fs: seq<StoredFrame>, nodes: set<NodeId>, acc: Checkpoints)
    requires Decodable(fs)
    ensures FoldM(CheckpointStep(nodes), fs, acc).Some?
    ensures forall n :: n in nodes ==>
              PositionFor(FoldM(CheckpointStep(nodes), fs, acc).value, n)
              == if LastCheckpointAt(fs, n).Some? then LastCheckpointAt(fs, n) else PositionFor(acc, n)
    decreases |fs|
  {
    hide Decode, DecodeNode;
    if fs != [] {
      DecodeGivesNode(fs[0].body);
      var next := CheckpointStep(nodes)(acc, fs[0]).value;
      CheckpointPass(fs[1..], nodes, next);
      forall n | n in nodes
        ensures PositionFor(FoldM(CheckpointStep(nodes), fs, acc).value, n)
             == if LastCheckpointAt(fs, n).Some? then LastCheckpointAt(fs, n) else PositionFor(acc, n)
      {
        LastCheckpointTail(fs, n);
      }
    }
  }

  // ---- replaying one node --------------------------------------------------------------------

  lemma OwnRecordsTail(fs: seq<StoredFrame>, node: NodeId)
    requires fs != [] && Decodable(fs)
    ensures Decodable(fs[1..])
    ensures OwnRecords(RecordsOf(fs), node)
         == (if Decode(fs[0].body).value.node == node then [Decode(fs[0].body).value.record] else [])
            + OwnRecords(RecordsOf(fs[1..]), node)
  {
    hide Decode;
    assert RecordsOf(fs)[1..] == RecordsOf(fs[1..]);
  }

  /** From a point on that is not before the checkpoint, the second pass folds the node's records. */
  lemma {:induction false} NodePassAfter(fs: seq<StoredFrame>, node: NodeId, from: Option<RecordPosition>, st: State)
    requires Decodable(fs)
    requires from.Some? ==> forall i :: 0 <= i < |fs| ==> !Before(fs[i].at, from.value)
    ensures FoldM(NodeStep(node, from), fs, st) == Fold(st, OwnRecords(RecordsOf(fs), node))
    decreases |fs|
  {
    hide ApplyRecord, Before, Decode, DecodeNode;
    if fs != [] {
      DecodeGivesNode(fs[0].body);
      OwnRecordsTail(fs, node);
      var r := Decode(fs[0].body).value;
      if r.node == node {
        match ApplyRecord(st, r.record)
        case None =>
        case Some(next) =>
          assert ([r.record] + OwnRecords(RecordsOf(fs[1..]), node))[1..] == OwnRecords(RecordsOf(fs[1..]), node);
          NodePassAfter(fs[1..], node, from, next);
      } else {
        assert [] + OwnRecords(RecordsOf(fs[1..]), node) == OwnRecords(RecordsOf(fs[1..]), node);
        NodePassAfter(fs[1..], node, from, st);
      }
    }
  }

  /** Before the checkpoint it skips everything. */
  lemma {:induction false} NodePassBefore(fs: seq<StoredFrame>, node: NodeId, from: RecordPosition, st: State)
    requires Decodable(fs)
    requires forall i :: 0 <= i < |fs| ==> Before(fs[i].at, from)
    ensures FoldM(NodeStep(node, Some(from)), fs, st) == Some(st)
    decreases |fs|
  {
    hide ApplyRecord, Before, Decode, DecodeNode;
    if fs != [] {
      DecodeGivesNode(fs[0].body);
      NodePassBefore(fs[1..], node, from, st);
    }
  }

  lemma {:induction false} FoldMConcat<A>(step: (A, StoredFrame) -> Option<A>, a: seq<StoredFrame>,
      b: seq<StoredFrame>, acc: A)
    ensures FoldM(step, a + b, acc) == match FoldM(step, a, acc) case None => None case Some(m) => FoldM(step, b, m)
    decreases |a|
  {
    if a == [] {
      assert a + b == b;
    } else {
      assert (a + b)[1..] == a[1..] + b;
      match step(acc, a[0])
      case None =>
      case Some(next) => FoldMConcat(step, a[1..], b, next);
    }
  }

  lemma {:induction false} OwnConcat(a: seq<NodeRecord>, b: seq<NodeRecord>, node: NodeId)
    ensures OwnRecords(a + b, node) == OwnRecords(a, node) + OwnRecords(b, node)
    decreases |a|
  {
    if a == [] {
      assert a + b == b;
    } else {
      assert (a + b)[1..] == a[1..] + b;
      OwnConcat(a[1..], b, node);
      var h := if a[0].node == node then [a[0].record] else [];
      assert OwnRecords(a, node) == h + OwnRecords(a[1..], node);
      assert h + (OwnRecords(a[1..], node) + OwnRecords(b, node)) == h + OwnRecords(a[1..], node) + OwnRecords(b, node);
    }
  }

  lemma {:induction false} LastCheckpointConcat(a: seq<Record>, b: seq<Record>)
    requires HasCheckpoint(b)
    ensures FromLastCheckpoint(a + b) == FromLastCheckpoint(b)
    decreases |a|
  {
    if a == [] {
      assert a + b == b;
    } else {
      assert (a + b)[1..] == a[1..] + b;
      var i :| 0 <= i < |b| && b[i].SnapshotCheckpoint?;
      assert (a[1..] + b)[|a| - 1 + i].SnapshotCheckpoint?;
      LastCheckpointConcat(a[1..], b);
    }
  }

  lemma {:induction false} NoCheckpointOwned(fs: seq<StoredFrame>, node: NodeId)
    requires Decodable(fs)
    requires forall i :: 0 <= i < |fs| ==> !IsCheckpointOf(fs[i], node)
    ensures !HasCheckpoint(OwnRecords(RecordsOf(fs), node))
    decreases |fs|
  {
    hide Decode;
    if fs != [] {
      OwnRecordsTail(fs, node);
      NoCheckpointOwned(fs[1..], node);
    }
  }

  /** The naive meaning of a stream starts at the node's last checkpoint in it. */
  lemma NaiveFromCheckpoint(fs: seq<StoredFrame>, node: NodeId)
    requires Decodable(fs)
    ensures match LastCheckpoint(fs, node)
            case None => Naive(RecordsOf(fs), node) == Fold(DEFAULT_STATE, OwnRecords(RecordsOf(fs), node))
            case Some(c) =>
              c < |fs| && Decodable(fs[c..]) &&
                  Naive(RecordsOf(fs), node) == Fold(DEFAULT_STATE, OwnRecords(RecordsOf(fs[c..]), node))
  {
    hide Decode;
    LastCheckpointIs(fs, node);
    match LastCheckpoint(fs, node)
    case None =>
      NoCheckpointOwned(fs, node);
      NoneFirst(OwnRecords(RecordsOf(fs), node));
    case Some(c) =>
      var tail := OwnRecords(RecordsOf(fs[c..]), node);
      assert RecordsOf(fs) == RecordsOf(fs[..c]) + RecordsOf(fs[c..]);
      OwnConcat(RecordsOf(fs[..c]), RecordsOf(fs[c..]), node);
      OwnRecordsTail(fs[c..], node);
      assert fs[c..][1..] == fs[c + 1..];
      NoCheckpointOwned(fs[c + 1..], node);
      assert tail[0].SnapshotCheckpoint?;
      assert tail[1..] == OwnRecords(RecordsOf(fs[c + 1..]), node);
      LastCheckpointConcat(OwnRecords(RecordsOf(fs[..c]), node), tail);
  }

  lemma NoneFirst(rs: seq<Record>)
    requires !HasCheckpoint(rs)
    ensures FromLastCheckpoint(rs) == rs
  {
    if rs != [] {
      assert forall i :: 0 <= i < |rs[1..]| ==> rs[1..][i] == rs[i + 1];
    }
  }

  lemma OrderSplit(fs: seq<StoredFrame>, c: nat)
    requires InOrder(fs) && c < |fs|
    ensures forall i :: 0 <= i < c ==> Before(fs[i].at, fs[c].at)
    ensures forall i :: c <= i < |fs| ==> !Before(fs[i].at, fs[c].at)
  {
  }

  /** The second pass, over any part of the stream that holds record `c`, folds the node's
      records from `c` on. */
  lemma NodePassFrom(fs: seq<StoredFrame>, node: NodeId, cut: nat, c: nat)
    requires Decodable(fs) && InOrder(fs) && cut <= c < |fs|
    ensures Decodable(fs[c..])
    ensures FoldM(NodeStep(node, Some(fs[c].at)), fs[cut..], DEFAULT_STATE)
         == Fold(DEFAULT_STATE, OwnRecords(RecordsOf(fs[c..]), node))
  {
    hide Decode, NodeStep, Before, InOrder, Fold, OwnRecords, FoldM;
    var step := NodeStep(node, Some(fs[c].at));
    OrderSplit(fs, c);
    assert fs[cut..] == fs[cut..c] + fs[c..];
    FoldMConcat(step, fs[cut..c], fs[c..], DEFAULT_STATE);
    NodePassBefore(fs[cut..c], node, fs[c].at, DEFAULT_STATE);
    NodePassAfter(fs[c..], node, Some(fs[c].at), DEFAULT_STATE);
  }

  /** The fold of a node's records from its last checkpoint among the first `seen` frames on. */
  ghost function CaughtUp(fs: seq<StoredFrame>, seen: nat, node: NodeId): Option<State>
    requires Decodable(fs) && seen <= |fs|
  {
    LastCheckpointIs(fs[..seen], node);
    match LastCheckpoint(fs[..seen], node)
    case None => Fold(DEFAULT_STATE, OwnRecords(RecordsOf(fs), node))
    case Some(c) => Fold(DEFAULT_STATE, OwnRecords(RecordsOf(fs[c..]), node))
  }

  /** The second pass over any part of the stream that holds that checkpoint computes it. */
  lemma NodePassCatchesUp(fs: seq<StoredFrame>, seen: nat, node: NodeId, cut: nat)
    requires Decodable(fs) && InOrder(fs) && seen <= |fs| && cut <= |fs|
    requires match LastCheckpoint(fs[..seen], node) case None => cut == 0 case Some(c) => cut <= c
    ensures FoldM(NodeStep(node, LastCheckpointAt(fs[..seen], node)), fs[cut..], DEFAULT_STATE)
        == CaughtUp(fs, seen, node)
  {
    hide Decode, NodeStep, Before, LastCheckpoint, InOrder, Fold, OwnRecords, FoldM;
    LastCheckpointIs(fs[..seen], node);
    match LastCheckpoint(fs[..seen], node)
    case None =>
      assert fs[0..] == fs;
      NodePassAfter(fs, node, None, DEFAULT_STATE);
    case Some(c) =>
      NodePassFrom(fs, node, cut, c);
  }

  lemma CaughtUpToAll(fs: seq<StoredFrame>, node: NodeId)
    requires Decodable(fs)
    ensures CaughtUp(fs, |fs|, node) == Naive(RecordsOf(fs), node)
  {
    hide Decode, Naive, Fold, OwnRecords, LastCheckpoint;
    assert fs[..|fs|] == fs;
    NaiveFromCheckpoint(fs, node);
  }

  lemma CheckpointFirst(rs: seq<Record>)
    requires HasCheckpoint(rs)
    ensures rs != [] && (rs[0].SnapshotCheckpoint? || HasCheckpoint(rs[1..]))
  {
    var i :| 0 <= i < |rs| && rs[i].SnapshotCheckpoint?;
    if i > 0 {
      assert rs[1..][i - 1].SnapshotCheckpoint?;
    }
  }

  /** A checkpoint resets the state, so a fold that succeeds may as well start at the last one. */
  lemma {:induction false} FoldResets(st: State, rs: seq<Record>)
    requires HasCheckpoint(rs) && Fold(st, rs).Some?
    ensures Fold(st, rs) == Fold(DEFAULT_STATE, FromLastCheckpoint(rs))
    decreases |rs|
  {
    hide IntoState, ApplyAppend;
    if HasCheckpoint(rs[1..]) {
      FoldResets(ApplyRecord(st, rs[0]).value, rs[1..]);
    } else {
      CheckpointFirst(rs);
    }
  }

  /** Catching up from an older checkpoint gives, whenever it gives a state, the naive meaning. */
  lemma CaughtUpIsNaive(fs: seq<StoredFrame>, seen: nat, node: NodeId)
    requires Decodable(fs) && seen <= |fs| && CaughtUp(fs, seen, node).Some?
    ensures CaughtUp(fs, seen, node) == Naive(RecordsOf(fs), node)
  {
    hide Decode, Fold, OwnRecords, LastCheckpoint, FromLastCheckpoint, HasCheckpoint;
    LastCheckpointIs(fs[..seen], node);
    var own := OwnRecords(RecordsOf(fs), node);
    match LastCheckpoint(fs[..seen], node)
    case None =>
      if HasCheckpoint(own) {
        FoldResets(DEFAULT_STATE, own);
      } else {
        NoneFirst(own);
      }
    case Some(c) =>
      var tail := OwnRecords(RecordsOf(fs[c..]), node);
      StartsWithCheckpoint(fs[c..], node);
      FoldResets(DEFAULT_STATE, tail);
      assert RecordsOf(fs) == RecordsOf(fs[..c]) + RecordsOf(fs[c..]);
      OwnConcat(RecordsOf(fs[..c]), RecordsOf(fs[c..]), node);
      LastCheckpointConcat(OwnRecords(RecordsOf(fs[..c]), node), tail);
  }

  /** A fold that starts with a checkpoint does not depend on the state before it. */
  lemma CheckpointForgets(st: State, rs: seq<Record>)
    requires rs != [] && rs[0].SnapshotCheckpoint?
    ensures Fold(st, rs) == Fold(DEFAULT_STATE, rs)
  {
    hide IntoState, ApplyAppend;
  }

  /** Catching up is the naive meaning of what the first pass saw, continued with the node's own
      records that only the second pass saw. */
  lemma CaughtUpContinues(fs: seq<StoredFrame>, seen: nat, node: NodeId)
    requires Decodable(fs) && seen <= |fs|
    ensures Decodable(fs[..seen]) && Decodable(fs[seen..])
    ensures CaughtUp(fs, seen, node)
         == match Naive(RecordsOf(fs[..seen]), node)
            case None => None
            case Some(st) => Fold(st, OwnRecords(RecordsOf(fs[seen..]), node))
  {
    hide Decode, Fold, OwnRecords, LastCheckpoint, Naive, IsCheckpointOf;
    var a, b := fs[..seen], fs[seen..];
    NaiveFromCheckpoint(a, node);
    match LastCheckpoint(a, node)
    case None => FoldParts(fs, 0, seen, node);
    case Some(c) =>
      assert a[c..] == fs[c..seen];
      FoldParts(fs, c, seen, node);
  }

  /** The node's own records of a stretch of a stream, folded in two parts. */
  lemma FoldParts(fs: seq<StoredFrame>, i: nat, j: nat, node: NodeId)
    requires Decodable(fs) && i <= j <= |fs|
    ensures Decodable(fs[i..]) && Decodable(fs[i..j]) && Decodable(fs[j..])
    ensures fs[0..] == fs && fs[0..j] == fs[..j]
    ensures Fold(DEFAULT_STATE, OwnRecords(RecordsOf(fs[i..]), node))
         == match Fold(DEFAULT_STATE, OwnRecords(RecordsOf(fs[i..j]), node))
            case None => None
            case Some(mid) => Fold(mid, OwnRecords(RecordsOf(fs[j..]), node))
  {
    hide Decode, Fold, OwnRecords;
    assert RecordsOf(fs[i..]) == RecordsOf(fs[i..j]) + RecordsOf(fs[j..]);
    OwnConcat(RecordsOf(fs[i..j]), RecordsOf(fs[j..]), node);
    FoldConcat(DEFAULT_STATE, OwnRecords(RecordsOf(fs[i..j]), node), OwnRecords(RecordsOf(fs[j..]), node));
  }

  lemma LastIsLater(fs: seq<StoredFrame>, seen: nat, node: NodeId)
    requires seen <= |fs|
    ensures LastCheckpoint(fs, node).Some? ==> LastCheckpoint(fs, node).value < |fs|
    ensures match LastCheckpoint(fs[..seen], node)
            case None => true
            case Some(c) => c < seen && LastCheckpoint(fs, node).Some? && c <= LastCheckpoint(fs, node).value
  {
    hide IsCheckpointOf, LastCheckpoint;
    LastCheckpointIs(fs[..seen], node);
    LastCheckpointIs(fs, node);
    match LastCheckpoint(fs[..seen], node)
    case None =>
    case Some(c) => assert IsCheckpointOf(fs[c], node);
  }

  /** Where catching up starts: at the last checkpoint the first pass saw. */
  ghost function CatchUpStart(fs: seq<StoredFrame>, seen: nat, node: NodeId): (c: nat)
    requires seen <= |fs|
    ensures c <= |fs|
    ensures LastCheckpoint(fs, node).Some? ==> c <= LastCheckpoint(fs, node).value < |fs|
  {
    LastIsLater(fs, seen, node);
    match LastCheckpoint(fs[..seen], node)
    case None => 0
    case Some(c) => c
  }

  /** The node's own records fold without error from the last checkpoint the first pass saw up to
      the last checkpoint of all. */
  ghost predicate GapFolds(fs: seq<StoredFrame>, seen: nat, node: NodeId)
    requires Decodable(fs) && seen <= |fs|
  {
    match LastCheckpoint(fs, node)
    case None => true
    case Some(d) => Fold(DEFAULT_STATE, OwnRecords(RecordsOf(fs[CatchUpStart(fs, seen, node)..d]), node)).Some?
  }

  /** Catching up gives the naive meaning, state or error, exactly when that is an error or the
      records in between fold. */
  lemma CaughtUpExactly(fs: seq<StoredFrame>, seen: nat, node: NodeId)
    requires Decodable(fs) && seen <= |fs|
    ensures CaughtUp(fs, seen, node) == Naive(RecordsOf(fs), node)
            <==> Naive(RecordsOf(fs), node).None? || GapFolds(fs, seen, node)
  {
    hide Decode, Fold, OwnRecords, LastCheckpoint, Naive, IsCheckpointOf;
    NaiveFromCheckpoint(fs, node);
    LastCheckpointIs(fs, node);
    LastCheckpointIs(fs[..seen], node);
    if CaughtUp(fs, seen, node).Some? {
      CaughtUpIsNaive(fs, seen, node);
    }
    match LastCheckpoint(fs, node)
    case None =>
      NoneInPrefix(fs, seen, node);
    case Some(d) =>
      var c := CatchUpStart(fs, seen, node);
      FoldParts(fs, c, d, node);
      FirstOwn(fs[d..], node);
      var gap := Fold(DEFAULT_STATE, OwnRecords(RecordsOf(fs[c..d]), node));
      if gap.Some? {
        CheckpointForgets(gap.value, OwnRecords(RecordsOf(fs[d..]), node));
      }
  }

  lemma FirstOwn(fs: seq<StoredFrame>, node: NodeId)
    requires Decodable(fs) && fs != [] && IsCheckpointOf(fs[0], node)
    ensures OwnRecords(RecordsOf(fs), node) != [] && OwnRecords(RecordsOf(fs), node)[0].SnapshotCheckpoint?
  {
    hide Decode;
  }

  lemma NoneInPrefix(fs: seq<StoredFrame>, seen: nat, node: NodeId)
    requires seen <= |fs| && NoCheckpointAfter(fs, node, 0)
    ensures LastCheckpoint(fs[..seen], node) == None
  {
    hide IsCheckpointOf, LastCheckpoint;
    LastCheckpointIs(fs[..seen], node);
  }

  /** Without a checkpoint of the node between the passes nothing can go wrong. */
  lemma NoCheckpointBetween(fs: seq<StoredFrame>, seen: nat, node: NodeId)
    requires Decodable(fs) && seen <= |fs| && NoCheckpointAfter(fs, node, seen)
    ensures GapFolds(fs, seen, node) && CaughtUp(fs, seen, node) == Naive(RecordsOf(fs), node)
  {
    hide Decode, Fold, LastCheckpoint, Naive, IsCheckpointOf, OwnRecords, CaughtUp;
    LastCheckpointIs(fs, node);
    LastCheckpointIs(fs[..seen], node);
    match LastCheckpoint(fs, node) {
      case None =>
      case Some(d) =>
        assert d < seen && fs[..seen][d] == fs[d];
        LastCheckpointUnique(fs[..seen], node, Some(d));
        assert CatchUpStart(fs, seen, node) == d && fs[d..d] == [];
        NothingFolds(node);
    }
    CaughtUpExactly(fs, seen, node);
  }

  lemma NothingFolds(node: NodeId)
    ensures Fold(DEFAULT_STATE, OwnRecords(RecordsOf([]), node)).Some?
  {
    assert RecordsOf([]) == [];
  }

  lemma StartsWithCheckpoint(fs: seq<StoredFrame>, node: NodeId)
    requires Decodable(fs) && fs != [] && IsCheckpointOf(fs[0], node)
    ensures HasCheckpoint(OwnRecords(RecordsOf(fs), node))
  {
    hide Decode;
    assert OwnRecords(RecordsOf(fs), node)[0].SnapshotCheckpoint?;
  }

  // ---- what the passes read --------------------------------------------------------------

  /** Offsets increase along a scan, which starts where it is told to. */
  lemma {:induction false} ScanOrder(bytes: seq<byte>, off: nat)
    requires off <= |bytes|
    ensures forall i :: 0 <= i < |ScanFrom(bytes, off).frames| ==> off <= ScanFrom(bytes, off).frames[i].offset
    ensures forall i, j :: 0 <= i < j < |ScanFrom(bytes, off).frames| ==>
              ScanFrom(bytes, off).frames[i].offset < ScanFrom(bytes, off).frames[j].offset
    decreases |bytes| - off
  {
    hide ReadFrame;
    match ReadFrame(bytes, off)
    case Complete(_, next) => ScanOrder(bytes, next);
    case _ =>
  }

  /** Scanning from a frame found by a scan finds the same frames from there on. */
  lemma {:induction false} ScanSuffix(bytes: seq<byte>, off: nat, i: nat)
    requires off <= |bytes| && i < |ScanFrom(bytes, off).frames|
    ensures var s := ScanFrom(bytes, off);
            s.frames[i].offset <= |bytes| && ScanFrom(bytes, s.frames[i].offset) == Scan(s.frames[i..], s.end, s.tail)
    decreases |bytes| - off
  {
    hide ReadFrame;
    match ReadFrame(bytes, off)
    case Complete(body, next) =>
      var s, t := ScanFrom(bytes, off), ScanFrom(bytes, next);
      if i > 0 {
        ScanSuffix(bytes, next, i - 1);
        assert s.frames[i..] == t.frames[i - 1..];
      }
    case _ =>
  }

  lemma SegmentFramesOrder(bytes: seq<byte>, allowPartial: bool, id: SegmentId)
    requires SegmentFrames(bytes, allowPartial, SEGMENT_HEADER_LEN).Some?
    ensures InOrder(Placed(id, SegmentFrames(bytes, allowPartial, SEGMENT_HEADER_LEN).value))
  {
    if |bytes| >= SEGMENT_HEADER_LEN {
      ScanOrder(bytes, SEGMENT_HEADER_LEN);
    }
  }

  lemma SegmentFramesFrom(bytes: seq<byte>, allowPartial: bool, i: nat)
    requires SegmentFrames(bytes, allowPartial, SEGMENT_HEADER_LEN).Some?
    requires i < |SegmentFrames(bytes, allowPartial, SEGMENT_HEADER_LEN).value|
    ensures var fs := SegmentFrames(bytes, allowPartial, SEGMENT_HEADER_LEN).value;
            SegmentFrames(bytes, allowPartial, fs[i].offset) == Some(fs[i..])
  {
    ScanOrder(bytes, SEGMENT_HEADER_LEN);
    ScanSuffix(bytes, SEGMENT_HEADER_LEN, i);
  }

  /** A stream is in order and its frames lie in the listed segments. */
  lemma {:induction false} StreamOrder(segs: Segments, ids: seq<SegmentId>, active: SegmentId)
    requires (forall id :: id in ids ==> id in segs) && Increasing(ids)
    requires Stream(segs, ids, active, Everywhere).Some?
    ensures var fs := Stream(segs, ids, active, Everywhere).value;
            InOrder(fs) && forall i :: 0 <= i < |fs| ==> fs[i].at.segment in ids
    decreases |ids|
  {
    hide SegmentFrames;
    if ids != [] {
      StreamOrder(segs, ids[1..], active);
      SegmentFramesOrder(segs[ids[0]], ids[0] == active, ids[0]);
      var a := Placed(ids[0], SegmentFrames(segs[ids[0]], ids[0] == active, SEGMENT_HEADER_LEN).value);
      var b := Stream(segs, ids[1..], active, Everywhere).value;
      assert forall i :: 0 <= i < |b| ==> ids[0] < b[i].at.segment;
    }
  }

  /** Where nothing is skipped and no record is singled out, a pass reads everything. */
  lemma {:induction false} StreamWhole(segs: Segments, ids: seq<SegmentId>, active: SegmentId, start: Start)
    requires forall id :: id in ids ==> id in segs && !Skips(start, id) && StartOffset(start, id) == SEGMENT_HEADER_LEN
    ensures Stream(segs, ids, active, start) == Stream(segs, ids, active, Everywhere)
    decreases |ids|
  {
    hide SegmentFrames;
    if ids != [] {
      assert ids[0] in ids;
      StreamWhole(segs, ids[1..], active, start);
    }
  }

  lemma IncreasingTail(ids: seq<u64>)
    requires Increasing(ids) && ids != []
    ensures Increasing(ids[1..]) && forall id :: id in ids[1..] ==> ids[0] < id
  {
  }

  /** Starting at a segment drops exactly the frames of earlier segments. */
  lemma {:induction false} StreamAtSegment(segs: Segments, ids: seq<SegmentId>, active: SegmentId,
      s: SegmentId) returns (c: nat)
    requires (forall id :: id in ids ==> id in segs) && Increasing(ids)
    requires Stream(segs, ids, active, Everywhere).Some?
    ensures var fs := Stream(segs, ids, active, Everywhere).value;
            && c <= |fs| && Stream(segs, ids, active, AtSegment(s)) == Some(fs[c..])
            && forall i :: 0 <= i < c ==> fs[i].at.segment < s
    decreases |ids|
  {
    hide SegmentFrames;
    if ids == [] {
      c := 0;
    } else if ids[0] < s {
      IncreasingTail(ids);
      var d := StreamAtSegment(segs, ids[1..], active, s);
      var a := Placed(ids[0], SegmentFrames(segs[ids[0]], ids[0] == active, SEGMENT_HEADER_LEN).value);
      var b := Stream(segs, ids[1..], active, Everywhere).value;
      c := |a| + d;
      assert (a + b)[c..] == b[d..];
    } else {
      IncreasingTail(ids);
      forall id | id in ids ensures !Skips(AtSegment(s), id) {
        assert id == ids[0] || id in ids[1..];
      }
      StreamWhole(segs, ids, active, AtSegment(s));
      c := 0;
    }
  }

  /** Starting at a record drops exactly the frames before it. */
  lemma {:induction false} StreamAtRecord(segs: Segments, ids: seq<SegmentId>, active: SegmentId, i: nat)
    requires (forall id :: id in ids ==> id in segs) && Increasing(ids)
    requires Stream(segs, ids, active, Everywhere).Some?
    requires i < |Stream(segs, ids, active, Everywhere).value|
    ensures var fs := Stream(segs, ids, active, Everywhere).value;
            Stream(segs, ids, active, AtRecord(fs[i].at)) == Some(fs[i..])
    decreases |ids|
  {
    hide SegmentFrames;
    var fs := Stream(segs, ids, active, Everywhere).value;
    var p := fs[i].at;
    IncreasingTail(ids);
    var raw := SegmentFrames(segs[ids[0]], ids[0] == active, SEGMENT_HEADER_LEN).value;
    var a := Placed(ids[0], raw);
    var b := Stream(segs, ids[1..], active, Everywhere).value;
    if i < |a| {
      SegmentFramesFrom(segs[ids[0]], ids[0] == active, i);
      StreamWhole(segs, ids[1..], active, AtRecord(p));
      assert Placed(ids[0], raw[i..]) == a[i..];
      assert (a + b)[i..] == a[i..] + b;
    } else {
      StreamOrder(segs, ids[1..], active);
      StreamAtRecord(segs, ids[1..], active, i - |a|);
      assert b[i - |a|] == fs[i];
      assert fs[i..] == b[i - |a|..];
    }
  }

  // ---- stores whose frames all decode -------------------------------------------------------

  ghost function WholeStream(segs: Segments, active: SegmentId): Option<seq<StoredFrame>> {
    AscendingIs(segs.Keys);
    Stream(segs, Ascending(segs.Keys), active, Everywhere)
  }

  /** Every segment is well formed (only the active one may be torn) and every frame decodes. */
  ghost predicate WellFormed(segs: Segments, active: SegmentId) {
    WholeStream(segs, active).Some? && Decodable(WholeStream(segs, active).value)
  }

  /** All records on disk, in order. */
  ghost function StoredRecords(segs: Segments, active: SegmentId): seq<NodeRecord>
    requires WellFormed(segs, active)
  {
    RecordsOf(WholeStream(segs, active).value)
  }

  /** A position that names a checkpoint record of the node. */
  ghost predicate ValidHint(segs: Segments, active: SegmentId, node: NodeId, p: RecordPosition) {
    && WholeStream(segs, active).Some?
    && exists i :: 0 <= i < |WholeStream(segs, active).value| && WholeStream(segs, active).value[i].at == p
                   && IsCheckpointOf(WholeStream(segs, active).value[i], node)
  }

  lemma LastCheckpointSuffix(fs: seq<StoredFrame>, node: NodeId, i: nat, j: nat)
    requires i <= j < |fs| && IsCheckpointOf(fs[j], node)
    ensures LastCheckpoint(fs, node).Some? && j <= LastCheckpoint(fs, node).value < |fs|
    ensures LastCheckpointAt(fs[i..], node) == LastCheckpointAt(fs, node)
  {
    hide IsCheckpointOf, LastCheckpoint;
    LastCheckpointIs(fs, node);
    var c := LastCheckpoint(fs, node).value;
    assert forall k :: 0 <= k < |fs[i..]| ==> fs[i..][k] == fs[k + i];
    LastCheckpointUnique(fs[i..], node, Some(c - i));
  }

  /** What a second pass reads extends what the first read. */
  ghost predicate Follows(first: View, second: View) {
    && WellFormed(first.segs, first.active) && WellFormed(second.segs, second.active)
    && WholeStream(first.segs, first.active).value <= WholeStream(second.segs, second.active).value
  }

  /** All frames a view shows, in order. */
  ghost function Shown(v: View): (fs: seq<StoredFrame>)
    requires WellFormed(v.segs, v.active)
    ensures Decodable(fs)
  {
    WholeStream(v.segs, v.active).value
  }

  ghost function ShownFrom(v: View, start: Start): Option<seq<StoredFrame>> {
    AscendingIs(v.segs.Keys);
    Stream(v.segs, Ascending(v.segs.Keys), v.active, start)
  }

  lemma FramesInOrder(v: View)
    requires WellFormed(v.segs, v.active)
    ensures InOrder(Shown(v))
  {
    hide Decodable, InOrder, Stream;
    AscendingIs(v.segs.Keys);
    StreamOrder(v.segs, Ascending(v.segs.Keys), v.active);
  }

  /** The first pass, started anywhere not after the checkpoints that matter, finds them. */
  lemma FirstPassFinds(v: View, nodes: set<NodeId>, start: Start, i: nat)
    requires WellFormed(v.segs, v.active) && i <= |Shown(v)|
    requires ShownFrom(v, start) == Some(Shown(v)[i..])
    requires forall n :: n in nodes ==> LastCheckpointAt(Shown(v)[i..], n) == LastCheckpointAt(Shown(v), n)
    ensures var r := Pass(v.segs, v.active, start, CheckpointStep(nodes), map[]);
            r.Some? && forall n :: n in nodes ==> PositionFor(r.value, n) == LastCheckpointAt(Shown(v), n)
  {
    hide Decode, Stream, FoldM, CheckpointStep, LastCheckpoint, LastCheckpointAt, WholeStream, Ascending;
    CheckpointPass(Shown(v)[i..], nodes, map[]);
  }

  lemma FirstPassFromHint(v: View, node: NodeId, hint: Option<RecordPosition>)
    requires WellFormed(v.segs, v.active) && (hint.Some? ==> ValidHint(v.segs, v.active, node, hint.value))
    ensures var r := Pass(v.segs, v.active, StartAtHint(hint), CheckpointStep({node}), map[]);
            r.Some? && PositionFor(r.value, node) == LastCheckpointAt(Shown(v), node)
  {
    hide Decode, Stream, LastCheckpoint, LastCheckpointAt, InOrder, Decodable, Pass, IsCheckpointOf;
    AscendingIs(v.segs.Keys);
    var fs := Shown(v);
    assert fs[0..] == fs;
    var i := 0;
    if hint.Some? {
      i :| 0 <= i < |fs| && fs[i].at == hint.value && IsCheckpointOf(fs[i], node);
      StreamAtRecord(v.segs, Ascending(v.segs.Keys), v.active, i);
      LastCheckpointSuffix(fs, node, i, i);
    }
    FirstPassFinds(v, {node}, StartAtHint(hint), i);
  }

  /** Where the second pass starts in its stream, and that this is not after the checkpoint. */
  lemma SecondPassStart(v: View, segment: SegmentId) returns (cut: nat)
    requires WellFormed(v.segs, v.active)
    ensures cut <= |Shown(v)|
    ensures ShownFrom(v, AtSegment(segment)) == Some(Shown(v)[cut..])
    ensures forall i :: 0 <= i < |Shown(v)| && segment <= Shown(v)[i].at.segment ==> cut <= i
  {
    hide Stream, Decodable;
    AscendingIs(v.segs.Keys);
    cut := StreamAtSegment(v.segs, Ascending(v.segs.Keys), v.active, segment);
  }

  /** Replay by two passes that read at different times, with any hint that names a checkpoint
      of the node, however stale, or with none: the fold of what the second pass reads, from
      the last checkpoint the first pass could see. */
  lemma TwoPassesCatchUp(first: View, second: View, node: NodeId, hint: Option<RecordPosition>)
    requires Follows(first, second)
    requires hint.Some? ==> ValidHint(first.segs, first.active, node, hint.value)
    ensures ReplayNodeViews(first, second, node, hint) == CaughtUp(Shown(second), |Shown(first)|, node)
  {
    hide Decode, Stream, FoldM, CheckpointStep, NodeStep, LastCheckpoint, InOrder, CaughtUp, Decodable, ValidHint,
         IsCheckpointOf;
    var fs, seen := Shown(second), |Shown(first)|;
    assert fs[..seen] == Shown(first);
    FirstPassFromHint(first, node, hint);
    FramesInOrder(second);
    LastCheckpointIs(Shown(first), node);
    match LastCheckpoint(Shown(first), node)
    case None =>
      assert fs[0..] == fs;
      NodePassCatchesUp(fs, seen, node, 0);
    case Some(c) =>
      var cut := SecondPassStart(second, fs[c].at.segment);
      NodePassCatchesUp(fs, seen, node, cut);
  }

  /** Hint independence: with any hint that names a checkpoint of the node, however stale,
      or with none, replay gives the naive meaning of everything stored. */
  lemma HintIndependence(segs: Segments, active: SegmentId, node: NodeId, hint: Option<RecordPosition>)
    requires WellFormed(segs, active)
    requires hint.Some? ==> ValidHint(segs, active, node, hint.value)
    ensures ReplayNode(segs, active, node, hint) == Naive(StoredRecords(segs, active), node)
  {
    hide WholeStream, Decodable, ReplayNodeViews, CaughtUp, Naive, ValidHint;
    var v := View(segs, active);
    TwoPassesCatchUp(v, v, node, hint);
    CaughtUpToAll(Shown(v), node);
  }

  // ---- all nodes at once ------------------------------------------------------------------------

  ghost function NodeResult(fs: seq<StoredFrame>, from: Checkpoints, m: States, n: NodeId): Option<State> {
    FoldM(NodeStep(n, PositionFor(from, n)), fs, StateOf(m, n))
  }

  /** A pass for many nodes succeeds iff the pass for each does, and then holds their results. */
  lemma {:induction false} AllPass(fs: seq<StoredFrame>, nodes: set<NodeId>, from: Checkpoints, m: States)
    requires nodes != {}
    ensures FoldM(AllStep(nodes, from), fs, m).Some? <==> forall n :: n in nodes ==> NodeResult(fs, from, m, n).Some?
    ensures FoldM(AllStep(nodes, from), fs, m).Some? ==>
              forall n :: n in nodes ==>
                  NodeResult(fs, from, m, n) == Some(StateOf(FoldM(AllStep(nodes, from), fs, m).value, n))
    decreases |fs|
  {
    hide Decode, DecodeNode, ApplyRecord, Before;
    if fs != [] {
      var f := fs[0];
      forall n | n in nodes
        ensures NodeResult(fs, from, m, n)
             == match NodeStepOf(n, PositionFor(from, n), StateOf(m, n), f)
                case None => None
                case Some(st) => FoldM(NodeStep(n, PositionFor(from, n)), fs[1..], st)
      {
      }
      match AllStepOf(nodes, from, m, f)
      case None =>
        StepFails(nodes, from, m, f);
      case Some(next) =>
        forall n | n in nodes ensures NodeStepOf(n, PositionFor(from, n), StateOf(m, n), f) == Some(StateOf(next, n)) {
        }
        AllPass(fs[1..], nodes, from, next);
    }
  }

  lemma StepFails(nodes: set<NodeId>, from: Checkpoints, m: States, f: StoredFrame)
    requires nodes != {} && AllStepOf(nodes, from, m, f) == None
    ensures exists n :: n in nodes && NodeStepOf(n, PositionFor(from, n), StateOf(m, n), f) == None
  {
    hide Decode, ApplyRecord, Before;
    var n := if DecodeNode(f.body).Some? then DecodeNode(f.body).value else (var k :| k in nodes; k);
    assert NodeStepOf(n, PositionFor(from, n), StateOf(m, n), f) == None;
  }

  /** Hints for exactly the wanted nodes, each naming a checkpoint of its node. */
  ghost predicate ValidHints(segs: Segments, active: SegmentId, nodes: set<NodeId>, hints: Option<Checkpoints>) {
    hints.Some? ==>
      hints.value.Keys == nodes && forall n :: n in nodes ==> ValidHint(segs, active, n, hints.value[n])
  }

  /** A result for many nodes succeeds iff catching up succeeds for each, and holds those states. */
  ghost predicate MatchesEach(r: Option<States>, fs: seq<StoredFrame>, seen: nat, nodes: set<NodeId>)
    requires Decodable(fs) && seen <= |fs|
  {
    && (r.Some? <==> forall n :: n in nodes ==> CaughtUp(fs, seen, n).Some?)
    && (r.Some? ==> forall n :: n in nodes ==> CaughtUp(fs, seen, n) == Some(StateOf(r.value, n)))
  }

  /** The second pass for many nodes, when the first found every last checkpoint and the
      second starts no later than any of them. */
  lemma AllPassCatchesUp(fs: seq<StoredFrame>, seen: nat, nodes: set<NodeId>, from: Checkpoints, cut: nat)
    requires nodes != {} && Decodable(fs) && InOrder(fs) && seen <= |fs| && cut <= |fs|
    requires forall n :: n in nodes ==> PositionFor(from, n) == LastCheckpointAt(fs[..seen], n)
    requires forall n :: n in nodes ==>
               match LastCheckpoint(fs[..seen], n) case None => cut == 0 case Some(c) => cut <= c
    ensures MatchesEach(FoldM(AllStep(nodes, from), fs[cut..], map[]), fs, seen, nodes)
  {
    hide Decode, FoldM, NodeStep, AllStep, CaughtUp, LastCheckpoint, LastCheckpointAt, InOrder;
    AllPass(fs[cut..], nodes, from, map[]);
    forall n | n in nodes ensures NodeResult(fs[cut..], from, map[], n) == CaughtUp(fs, seen, n) {
      NodePassCatchesUp(fs, seen, n, cut);
    }
  }

  /** A hint that is not before a record is at or after it in the stream. */
  lemma HintAfter(fs: seq<StoredFrame>, i: nat, j: nat)
    requires InOrder(fs) && i < |fs| && j < |fs| && !Before(fs[j].at, fs[i].at)
    ensures i <= j
  {
  }

  lemma FullScanCatchesUp(first: View, second: View, nodes: set<NodeId>)
    requires Follows(first, second) && nodes != {}
    ensures MatchesEach(ReplayAllViews(first, second, nodes, None), Shown(second), |Shown(first)|, nodes)
  {
    hide Decode, Stream, FoldM, CheckpointStep, AllStep, LastCheckpoint, LastCheckpointAt, InOrder, Before,
         MatchesEach, Decodable;
    var fs, seen := Shown(second), |Shown(first)|;
    assert fs[..seen] == Shown(first);
    assert Shown(first)[0..] == Shown(first);
    assert fs[0..] == fs;
    FirstPassFinds(first, nodes, Everywhere, 0);
    FramesInOrder(second);
    var found := Pass(first.segs, first.active, Everywhere, CheckpointStep(nodes), map[]).value;
    AllPassCatchesUp(fs, seen, nodes, found, 0);
  }

  lemma HintedScanCatchesUp(first: View, second: View, nodes: set<NodeId>, h: Checkpoints)
    requires Follows(first, second) && nodes != {}
    requires ValidHints(first.segs, first.active, nodes, Some(h))
    ensures MatchesEach(ReplayAllViews(first, second, nodes, Some(h)), Shown(second), |Shown(first)|, nodes)
  {
    hide Decode, Stream, FoldM, CheckpointStep, AllStep, LastCheckpoint, LastCheckpointAt, InOrder, Before,
         MatchesEach, IsCheckpointOf, Decodable;
    AscendingIs(first.segs.Keys);
    var fs, seen := Shown(second), |Shown(first)|;
    assert fs[..seen] == Shown(first);
    FramesInOrder(first);
    FramesInOrder(second);
    var least := Least(h);
    var i := HintIndex(first.segs, first.active, h, least);
    StreamAtRecord(first.segs, Ascending(first.segs.Keys), first.active, i);
    var cut := SecondPassStart(second, least.segment);
    forall n | n in nodes
      ensures LastCheckpointAt(Shown(first)[i..], n) == LastCheckpointAt(Shown(first), n)
      ensures LastCheckpoint(Shown(first), n).Some? && LastCheckpointAt(Shown(first), n).Some?
      ensures cut <= LastCheckpoint(Shown(first), n).value
    {
      FoundAfterLeast(first.segs, first.active, n, h[n], i);
    }
    FirstPassFinds(first, nodes, AtRecord(least), i);
    var found := Pass(first.segs, first.active, AtRecord(least), CheckpointStep(nodes), map[]).value;
    assert forall n :: n in nodes ==> PositionFor(h + found, n) == LastCheckpointAt(fs[..seen], n);
    AllPassCatchesUp(fs, seen, nodes, h + found, cut);
  }

  /** Loading all nodes by two passes that read at different times: it succeeds iff catching up
      succeeds for every node, and holds exactly those states, all from one common stream. */
  lemma LoadAllCatchesUp(first: View, second: View, nodes: set<NodeId>, hints: Option<Checkpoints>)
    requires Follows(first, second) && ValidHints(first.segs, first.active, nodes, hints)
    ensures var r := LoadAllViews(first, second, nodes, hints);
            var fs, seen := Shown(second), |Shown(first)|;
            && (r.Some? <==> forall n :: n in nodes ==> CaughtUp(fs, seen, n).Some?)
            && (r.Some? ==> r.value.Keys == nodes && forall n :: n in nodes ==>
                CaughtUp(fs, seen, n) == Some(r.value[n]))
  {
    hide ReplayAllViews, WholeStream, CaughtUp, ValidHints, Decodable;
    if nodes != {} {
      match hints
      case None => FullScanCatchesUp(first, second, nodes);
      case Some(h) => HintedScanCatchesUp(first, second, nodes, h);
    }
  }

  /** Loading all nodes succeeds iff every node has a naive meaning, and returns exactly those,
      with hints for all nodes or with a full scan. */
  lemma LoadAllIsNaive(segs: Segments, active: SegmentId, nodes: set<NodeId>, hints: Option<Checkpoints>)
    requires WellFormed(segs, active) && ValidHints(segs, active, nodes, hints)
    ensures var r := LoadAll(segs, active, nodes, hints);
            var rs := StoredRecords(segs, active);
            && (r.Some? <==> forall n :: n in nodes ==> Naive(rs, n).Some?)
            && (r.Some? ==> r.value.Keys == nodes && forall n :: n in nodes ==> Naive(rs, n) == Some(r.value[n]))
  {
    hide LoadAllViews, WholeStream, CaughtUp, Naive, ValidHints, Decodable;
    var v := View(segs, active);
    LoadAllCatchesUp(v, v, nodes, hints);
    forall n | n in nodes ensures CaughtUp(Shown(v), |Shown(v)|, n) == Naive(StoredRecords(segs, active), n) {
      CaughtUpToAll(Shown(v), n);
    }
  }

  /** The naive meaning of a stream for many nodes at once. */
  ghost function NaiveAll(rs: seq<NodeRecord>, nodes: set<NodeId>): Option<States> {
    if forall n :: n in nodes ==> Naive(rs, n).Some? then Some(map n | n in nodes :: Naive(rs, n).value) else None
  }

  /** Loading all nodes by two passes gives the naive meaning of what the second saw, states or
      error, exactly when some node's is an error or every node's records in between fold. */
  lemma LoadAllExactly(first: View, second: View, nodes: set<NodeId>, hints: Option<Checkpoints>)
    requires Follows(first, second) && ValidHints(first.segs, first.active, nodes, hints)
    ensures var fs, seen := Shown(second), |Shown(first)|;
            LoadAllViews(first, second, nodes, hints) == NaiveAll(RecordsOf(fs), nodes)
            <==> (exists n :: n in nodes && Naive(RecordsOf(fs), n).None?) || forall n :: n in nodes ==> GapFolds(fs, seen, n)
  {
    hide LoadAllViews, WholeStream, CaughtUp, ValidHints, Decodable, Naive, GapFolds;
    var fs, seen := Shown(second), |Shown(first)|;
    var r, naive := LoadAllViews(first, second, nodes, hints), NaiveAll(RecordsOf(fs), nodes);
    LoadAllCatchesUp(first, second, nodes, hints);
    forall n | n in nodes
      ensures CaughtUp(fs, seen, n) == Naive(RecordsOf(fs), n) <==> Naive(RecordsOf(fs), n).None? || GapFolds(fs, seen, n)
      ensures CaughtUp(fs, seen, n).Some? ==> CaughtUp(fs, seen, n) == Naive(RecordsOf(fs), n)
    {
      CaughtUpExactly(fs, seen, n);
      if CaughtUp(fs, seen, n).Some? {
        CaughtUpIsNaive(fs, seen, n);
      }
    }
    if r.Some? {
      assert naive.Some? && r.value == naive.value;
    }
  }

  lemma HintIndex(segs: Segments, active: SegmentId, h: Checkpoints, p: RecordPosition) returns (i: nat)
    requires WholeStream(segs, active).Some? && IsLeast(p, h)
    requires forall n :: n in h ==> ValidHint(segs, active, n, h[n])
    ensures i < |WholeStream(segs, active).value| && WholeStream(segs, active).value[i].at == p
  {
    hide WholeStream, IsCheckpointOf;
    var n :| n in h && h[n] == p;
    i :| 0 <= i < |WholeStream(segs, active).value| && WholeStream(segs, active).value[i].at == p
         && IsCheckpointOf(WholeStream(segs, active).value[i], n);
  }

  lemma FoundAfterLeast(segs: Segments, active: SegmentId, n: NodeId, p: RecordPosition, i: nat)
    requires WholeStream(segs, active).Some? && ValidHint(segs, active, n, p)
    requires var fs := WholeStream(segs, active).value;
             InOrder(fs) && i < |fs| && !Before(p, fs[i].at)
    ensures var fs := WholeStream(segs, active).value;
            && LastCheckpoint(fs, n).Some? && i <= LastCheckpoint(fs, n).value
            && LastCheckpointAt(fs[i..], n) == LastCheckpointAt(fs, n)
            && LastCheckpointAt(fs, n).Some?
  {
    hide WholeStream, IsCheckpointOf, LastCheckpoint;
    var fs := WholeStream(segs, active).value;
    var j :| 0 <= j < |fs| && fs[j].at == p && IsCheckpointOf(fs[j], n);
    HintAfter(fs, i, j);
    LastCheckpointSuffix(fs, n, i, j);
  }

  /** `load_all` succeeds iff `load` succeeds for every node, and then they agree node by node. */
  lemma LoadAllAgreesWithLoad(segs: Segments, active: SegmentId, nodes: set<NodeId>, hints: Option<Checkpoints>,
                              single: map<NodeId, Option<RecordPosition>>)
    requires WellFormed(segs, active) && ValidHints(segs, active, nodes, hints)
    requires nodes <= single.Keys
    requires forall n :: n in nodes && single[n].Some? ==> ValidHint(segs, active, n, single[n].value)
    ensures var r := LoadAll(segs, active, nodes, hints);
            && (r.Some? <==> forall n :: n in nodes ==> ReplayNode(segs, active, n, single[n]).Some?)
            && (r.Some? ==> r.value.Keys == nodes && forall n :: n in nodes ==>
                ReplayNode(segs, active, n, single[n]) == Some(r.value[n]))
  {
    hide ReplayNode, LoadAll, Naive, WellFormed, ValidHint, StoredRecords;
    LoadAllIsNaive(segs, active, nodes, hints);
    forall n | n in nodes ensures ReplayNode(segs, active, n, single[n]) == Naive(StoredRecords(segs, active), n) {
      HintIndependence(segs, active, n, single[n]);
    }
  }
}
