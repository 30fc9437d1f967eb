/** Objects that no record names: which steps leave one in the store, and that it stays for good. */
module StorageStray {
  import opened Storage
  import opened StorageSafety

  predicate HasRow(rows: seq<Row>, key: Pid) {
    exists i :: 0 <= i < |rows| && rows[i].key == key
  }

  /** The upload may still record its object or roll it back. */
  predicate AtWork(pc: UploadPc) {
    InFlight(pc) || pc == Rejected
  }

  /** Neither a record, live or deleted, nor an upload in progress knows about the object. */
  ghost predicate Stray(s: State, key: Pid) {
    && key in s.objects && !HasRow(s.rows, key)
    && !(key < |s.procs| && s.procs[key].Upload? && AtWork(s.procs[key].upc))
  }

  ghost predicate NoStray(s: State) {
    forall key: Pid :: !Stray(s, key)
  }

  /** What ties objects to uploads: an upload has no object before its write and no record before its
      INSERT, it has its object while it is at work without a record, and its record once it has ended
      well. */
  ghost predicate Accounted(s: State, q: Pid)
    requires q < |s.procs|
  {
    s.procs[q].Upload? ==>
      && (s.procs[q].upc == Streaming ==> q !in s.objects)
      && (s.procs[q].upc == Streaming || InFlight(s.procs[q].upc) ==> !HasRow(s.rows, q))
      && (AtWork(s.procs[q].upc) && !HasRow(s.rows, q) ==> q in s.objects)
      && (s.procs[q].upc.Created? || s.procs[q].upc.ReturnedOk? ==> HasRow(s.rows, q))
  }

  ghost predicate ObjectsKnown(s: State) {
    && (forall key: Pid | key in s.objects :: key < |s.procs| && s.procs[key].Upload?)
    && (forall i | 0 <= i < |s.rows| :: s.rows[i].key < |s.procs|)
    && (forall q | 0 <= q < |s.procs| :: Accounted(s, q))
  }

  /** The steps that leave a stray object: a write that the store carries out and reports as failed,
      and a rollback that fails, unless a lost INSERT has given the object a record. */
  predicate Leaves(s: State, a: Action, key: Pid) {
    || (a == StoreFails(key, true) && IsUpload(s, key, Streaming))
    || (a == RollBack(key, false) && IsUpload(s, key, Rejected) && !HasRow(s.rows, key))
  }

  // ---------- Each step ----------

  ghost predicate SameRows(rows: seq<Row>, rows': seq<Row>) {
    |rows'| == |rows| && forall i | 0 <= i < |rows| :: rows'[i].key == rows[i].key
  }

  lemma SameHasRow(rows: seq<Row>, rows': seq<Row>, key: Pid)
    requires SameRows(rows, rows')
    ensures HasRow(rows', key) <==> HasRow(rows, key)
  {
    if HasRow(rows, key) {
      var i :| 0 <= i < |rows| && rows[i].key == key;
      assert rows'[i].key == key;
    }
    if HasRow(rows', key) {
      var i :| 0 <= i < |rows'| && rows'[i].key == key;
      assert rows[i].key == key;
    }
  }

  /** Whether the step leaves the given object behind is all there is to say about strays. */
  ghost predicate Tracks(s: State, a: Action, s': State) {
    && ObjectsKnown(s')
    && forall key: Pid :: Stray(s', key) <==> Stray(s, key) || Leaves(s, a, key)
  }

  /** A step that keeps keys and objects, and moves at most a request p that is no upload. */
  lemma QuietTracks(s: State, a: Action, s': State, p: Pid)
    requires ObjectsKnown(s) && SameRows(s.rows, s'.rows) && s'.objects == s.objects
    requires |s.procs| <= |s'.procs|
    requires forall q | 0 <= q < |s'.procs| :: q != p ==> q < |s.procs| && s'.procs[q] == s.procs[q]
    requires p < |s'.procs| ==> !s'.procs[p].Upload? && (p < |s.procs| ==> !s.procs[p].Upload?)
    requires !a.StoreFails? && !a.RollBack?
    ensures Tracks(s, a, s')
  {
    forall q | 0 <= q < |s'.procs| ensures Accounted(s', q) {
      if q != p {
        var proc := s'.procs[q];
        assert q < |s.procs| && s.procs[q] == proc && Accounted(s, q);
        SameHasRow(s.rows, s'.rows, q);
      }
    }
    forall key: Pid ensures Stray(s', key) <==> Stray(s, key) {
      SameHasRow(s.rows, s'.rows, key);
    }
  }

  /** The object of a row that is there goes. */
  lemma DropTracks(s: State, id: FileId, ok: bool)
    requires ObjectsKnown(s) && id < |s.rows|
    ensures ObjectsKnown(DropObject(s, id, ok))
    ensures forall key: Pid :: Stray(DropObject(s, id, ok), key) <==> Stray(s, key)
  {
    var s' := DropObject(s, id, ok);
    assert HasRow(s.rows, s.rows[id].key);
    forall q | 0 <= q < |s'.procs| ensures Accounted(s', q) {
      assert Accounted(s, q);
    }
  }

  /** A step of an upload that adds no row. */
  lemma UploadTracks(s: State, a: Action, s': State, p: Pid)
    requires ObjectsKnown(s) && s'.rows == s.rows
    requires p < |s'.procs| && |s.procs| <= |s'.procs| && s'.procs[p].Upload? && Accounted(s', p)
    requires p < |s.procs| ==> s.procs[p].Upload?
    requires forall q | 0 <= q < |s'.procs| :: q != p ==> q < |s.procs| && s'.procs[q] == s.procs[q]
    requires forall key: Pid | key != p :: key in s'.objects <==> key in s.objects
    requires forall key: Pid | key != p :: !Leaves(s, a, key)
    requires Stray(s', p) <==> Stray(s, p) || Leaves(s, a, p)
    ensures Tracks(s, a, s')
  {
    forall q | 0 <= q < |s'.procs| ensures Accounted(s', q) {
      if q != p {
        var proc := s'.procs[q];
        assert q < |s.procs| && s.procs[q] == proc && Accounted(s, q);
      }
    }
    forall key: Pid ensures Stray(s', key) <==> Stray(s, key) || Leaves(s, a, key) {
      if key != p && key < |s'.procs| {
        var proc := s'.procs[key];
        assert key < |s.procs| && s.procs[key] == proc;
      }
    }
  }

  lemma AddedHasRow(rows: seq<Row>, row: Row, key: Pid)
    ensures HasRow(rows + [row], key) <==> HasRow(rows, key) || key == row.key
  {
    var rows' := rows + [row];
    assert rows'[|rows|] == row;
    if HasRow(rows, key) {
      var i :| 0 <= i < |rows| && rows[i].key == key;
      assert rows'[i].key == key;
    }
  }

  /** A committed INSERT gives the object its record. */
  lemma InsertTracks(s: State, a: Action, p: Pid, pc: UploadPc)
    requires ObjectsKnown(s) && IsUpload(s, p, Cleared) && !InFlight(pc) && pc != Streaming
    requires !a.StoreFails? && !a.RollBack?
    ensures Tracks(s, a, AddRow(Advance(s, p, pc), p))
  {
    var s' := AddRow(Advance(s, p, pc), p);
    assert Accounted(s, p);
    forall q | 0 <= q < |s'.procs| ensures Accounted(s', q) {
      assert Accounted(s, q);
      AddedHasRow(s.rows, NewRow(s, p), q);
    }
    forall key: Pid ensures Stray(s', key) <==> Stray(s, key) {
      AddedHasRow(s.rows, NewRow(s, p), key);
    }
  }

  lemma OutsideTracks(cfg: Config, s: State, a: Action)
    requires ObjectsKnown(s) && (a.Tick? || a.AddShare? || a.EndShare?)
    ensures Tracks(s, a, OutsideStep(cfg, s, a))
  {
    QuietTracks(s, a, OutsideStep(cfg, s, a), |s.procs|);
  }

  lemma StoreTracks(s: State, a: Action)
    requires ObjectsKnown(s) && (a.BeginUpload? || a.StoreObject? || a.StoreFails?)
    ensures Tracks(s, a, StoreStep(s, a))
  {
    var s' := StoreStep(s, a);
    if a.BeginUpload? {
      assert |s.procs| !in s.objects;
      UploadTracks(s, a, s', |s.procs|);
    } else if s' != s {
      assert Accounted(s, a.p);
      UploadTracks(s, a, s', a.p);
    }
  }

  lemma QuotaTracks(cfg: Config, s: State, a: Action)
    requires ObjectsKnown(s) && (a.TakeLock? || a.PolicyReadFails? || a.CheckUsage?)
    ensures Tracks(s, a, QuotaStep(cfg, s, a))
  {
    var s' := QuotaStep(cfg, s, a);
    if s' != s {
      assert Accounted(s, a.p);
      UploadTracks(s, a, s', a.p);
    }
  }

  lemma RecordTracks(cfg: Config, s: State, a: Action)
    requires ObjectsKnown(s) && (a.Insert? || a.InsertFails? || a.RollBack? || a.Return?)
    ensures Tracks(s, a, RecordStep(cfg, s, a))
  {
    var s' := RecordStep(cfg, s, a);
    if s' != s {
      assert Accounted(s, a.p);
      if a.Insert? {
        InsertTracks(s, a, a.p, Created(|s.rows|));
      } else if a.InsertFails? && a.committed && !cfg.acknowledged {
        InsertTracks(s, a, a.p, Rejected);
      } else {
        UploadTracks(s, a, s', a.p);
      }
    }
  }

  lemma DeleteTracks(s: State, a: Action)
    requires ObjectsKnown(s) && (a.BeginDelete? || a.SoftDelete? || a.DropDeleted? || a.LogDeleted?)
    ensures Tracks(s, a, DeleteStep(s, a))
  {
    var s' := DeleteStep(s, a);
    if s' != s {
      if a.DropDeleted? {
        var moved := Move(s, a.p, Delete(s.procs[a.p].target, false, Over));
        QuietTracks(s, a, moved, a.p);
        DropTracks(moved, s.procs[a.p].target, a.ok);
      } else {
        QuietTracks(s, a, s', if a.BeginDelete? then |s.procs| else a.p);
      }
    }
  }

  lemma PurgeTracks(cfg: Config, s: State, a: Action)
    requires ObjectsKnown(s)
    requires a.BeginPurge? || a.BeginOrphans? || a.SkipOrphans? || a.PurgeFlip? || a.PurgeDrop? || a.PurgeLog?
    ensures Tracks(s, a, PurgeStep(cfg, s, a))
  {
    var s' := PurgeStep(cfg, s, a);
    if s' != s {
      if a.PurgeDrop? {
        var q := s.procs[a.p];
        var moved := Move(s, a.p, Purge(q.purger, q.todo, Log, q.freed));
        QuietTracks(s, a, moved, a.p);
        DropTracks(moved, q.todo[0], a.ok);
      } else {
        QuietTracks(s, a, s', if a.BeginPurge? then |s.procs| else a.p);
      }
    }
  }

  lemma StepTracks(cfg: Config, s: State, a: Action)
    requires ObjectsKnown(s)
    ensures Tracks(s, a, Step(cfg, s, a))
  {
    if a.Tick? || a.AddShare? || a.EndShare? {
      OutsideTracks(cfg, s, a);
    } else if a.BeginUpload? || a.StoreObject? || a.StoreFails? {
      StoreTracks(s, a);
    } else if a.TakeLock? || a.PolicyReadFails? || a.CheckUsage? {
      QuotaTracks(cfg, s, a);
    } else if a.Insert? || a.InsertFails? || a.RollBack? || a.Return? {
      RecordTracks(cfg, s, a);
    } else if a.BeginDelete? || a.SoftDelete? || a.DropDeleted? || a.LogDeleted? {
      DeleteTracks(s, a);
    } else {
      PurgeTracks(cfg, s, a);
    }
  }

  // ---------- Whole runs ----------

  ghost predicate LeftAt(cfg: Config, s: State, actions: seq<Action>, i: nat, key: Pid) {
    i < |actions| && Leaves(Run(cfg, s, actions[..i]), actions[i], key)
  }

  /** A stray object was there before, or is left by some step; and once left it stays. */
  lemma {:induction false} RunTracks(cfg: Config, s: State, actions: seq<Action>, key: Pid)
    requires ObjectsKnown(s)
    ensures ObjectsKnown(Run(cfg, s, actions))
    ensures Stray(Run(cfg, s, actions), key) <==> Stray(s, key) || exists i: nat :: LeftAt(cfg, s, actions, i, key)
    decreases |actions|
  {
    if actions != [] {
      var n := |actions| - 1;
      var before := actions[..n];
      RunTracks(cfg, s, before, key);
      StepTracks(cfg, Run(cfg, s, before), actions[n]);
      LeftBefore(cfg, s, actions, key);
    }
  }

  lemma LeftBefore(cfg: Config, s: State, actions: seq<Action>, key: Pid)
    requires actions != []
    ensures
      var n := |actions| - 1;
      (exists i: nat :: LeftAt(cfg, s, actions, i, key)) <==>
        (exists i: nat :: LeftAt(cfg, s, actions[..n], i, key)) || Leaves(Run(cfg, s, actions[..n]), actions[n], key)
  {
    var n := |actions| - 1;
    var before := actions[..n];
    if i: nat :| LeftAt(cfg, s, before, i, key) {
      assert before[..i] == actions[..i];
      assert LeftAt(cfg, s, actions, i, key);
    }
    if i: nat :| LeftAt(cfg, s, actions, i, key) && i < n {
      assert before[..i] == actions[..i];
      assert LeftAt(cfg, s, before, i, key);
    }
    if Leaves(Run(cfg, s, before), actions[n], key) {
      assert LeftAt(cfg, s, actions, n, key);
    }
  }

  /** The dual of no dangling record: in every run each object belongs to a record or to an upload at
      work, exactly if no write was carried out that reported an error, and no rollback without a
      record failed. */
  lemma NoStrayIff(cfg: Config, actions: seq<Action>)
    ensures NoStray(Run(cfg, START, actions)) <==> forall i: nat, key: Pid :: !LeftAt(cfg, START, actions, i, key)
  {
    var end := Run(cfg, START, actions);
    forall key: Pid ensures Stray(end, key) <==> exists i: nat :: LeftAt(cfg, START, actions, i, key) {
      RunTracks(cfg, START, actions, key);
      assert !Stray(START, key);
    }
    if i: nat, key: Pid :| LeftAt(cfg, START, actions, i, key) {
      assert Stray(end, key);
    }
  }

  /** A stray object stays in the store in every continuation. */
  lemma StrayForever(cfg: Config, s: State, actions: seq<Action>, key: Pid)
    requires Reachable(cfg, s) && Stray(s, key)
    ensures Stray(Run(cfg, s, actions), key)
  {
    var past :| Run(cfg, START, past) == s;
    RunTracks(cfg, START, past, key);
    RunTracks(cfg, s, actions, key);
  }

  /** Under any policy, the store may keep an upload that is reported as failed. */
  lemma LostWriteStrays(cfg: Config) returns (s: State)
    ensures Reachable(cfg, s) && Stray(s, 0) && s.procs == [Upload(0, 0, ReturnedErr)]
  {
    ReachBegun(cfg, 0, 0);
    var begun := State(0, [], {}, {}, map[], [Upload(0, 0, Streaming)]);
    ReachNext(cfg, begun, StoreFails(0, true));
    s := Step(cfg, begun, StoreFails(0, true));
  }

  /** And the rollback may fail after an INSERT that failed. */
  lemma FailedRollBackStrays(cfg: Config) returns (s: State)
    ensures Reachable(cfg, s) && Stray(s, 0) && s.procs == [Upload(0, 0, Abandoned)]
  {
    ReachCleared(cfg);
    var cleared := State(0, [], {0}, {}, FirstLock(cfg), [Upload(0, 0, Cleared)]);
    ReachNext(cfg, cleared, InsertFails(0, false));
    var rejected := State(0, [], {0}, {}, FirstLock(cfg), [Upload(0, 0, Rejected)]);
    assert Step(cfg, cleared, InsertFails(0, false)) == rejected;
    ReachNext(cfg, rejected, RollBack(0, false));
    s := Step(cfg, rejected, RollBack(0, false));
  }
}
