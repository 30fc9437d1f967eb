/** No dangling record: an invariant of the storage state machine over every interleaving. */
module StorageSafety {
  import opened Wrappers
  import opened Storage

  /** Every live record has its object. */
  ghost predicate NoDangling(s: State) {
    forall i | 0 <= i < |s.rows| :: !s.rows[i].Deleted() ==> s.rows[i].key in s.objects
  }

  /** The row was inserted by the upload whose pid is its key. */
  ghost predicate RowOwned(s: State, i: FileId)
    requires i < |s.rows|
  {
    var p := s.rows[i].key;
    p < |s.procs| && s.procs[p].Upload? && (s.procs[p].upc == Created(i) || s.procs[p].upc == ReturnedOk(i))
  }

  predicate InFlight(pc: UploadPc) {
    pc == Stored || pc == Locked || pc == Cleared
  }

  /** An upload past the object store and not yet rejected has its object there; whoever is about to
      drop an object works for a row that is deleted. */
  ghost predicate ProcSound(s: State, q: Pid)
    requires q < |s.procs|
  {
    match s.procs[q]
    case Upload(_, _, upc) => InFlight(upc) ==> q in s.objects
    case Delete(target, _, dpc) => dpc == Dropping ==> Gone(s.rows, target)
    case Purge(purger, todo, ppc, _) =>
      if purger == OrphanPass then AllGone(s.rows, todo)
      else ppc == Drop ==> todo != [] && Gone(s.rows, todo[0])
  }

  ghost predicate Consistent(s: State) {
    && NoDangling(s)
    && (forall i | 0 <= i < |s.rows| :: RowOwned(s, i))
    && (forall q | 0 <= q < |s.procs| :: ProcSound(s, q))
  }

  /** Rows keep their key, and only ever go from live to deleted. */
  ghost predicate RowsKept(rows: seq<Row>, rows': seq<Row>) {
    && |rows| <= |rows'|
    && forall i | 0 <= i < |rows| :: rows'[i].key == rows[i].key && (rows[i].Deleted() ==> rows'[i].Deleted())
  }

  /** An upload stays an upload, and once it has its row it keeps it. */
  predicate Proceeds(proc: Proc, proc': Proc) {
    proc.Upload? ==>
      && proc'.Upload?
      && (proc.upc.Created? ==> proc'.upc == ReturnedOk(proc.upc.id))
      && !proc.upc.ReturnedOk?
  }

  /** A step of p that adds no row and drops no object keeps every row and every other process sound. */
  lemma Frame(s: State, s': State, p: Pid)
    requires Consistent(s)
    requires |s'.rows| == |s.rows| && RowsKept(s.rows, s'.rows) && s.objects <= s'.objects
    requires p < |s'.procs| && |s.procs| <= |s'.procs|
    requires forall q | 0 <= q < |s'.procs| :: q != p ==> q < |s.procs| && s'.procs[q] == s.procs[q]
    requires p < |s.procs| ==> Proceeds(s.procs[p], s'.procs[p])
    requires ProcSound(s', p)
    ensures Consistent(s')
  {
    forall i | 0 <= i < |s'.rows| ensures RowOwned(s', i) {
      assert RowOwned(s, i);
    }
    forall q | 0 <= q < |s'.procs| ensures ProcSound(s', q) {
      if q != p {
        var proc := s'.procs[q];
        assert q < |s.procs| && s.procs[q] == proc && ProcSound(s, q);
      }
    }
  }

  /** Dropping the object of a key that no live row and no upload in flight uses is harmless. */
  lemma DropKeeps(s: State, s': State, key: Pid)
    requires Consistent(s)
    requires s' == s.(objects := s.objects - {key})
    requires forall i | 0 <= i < |s.rows| :: s.rows[i].key == key ==> s.rows[i].Deleted()
    requires key < |s.procs| && s.procs[key].Upload? && !InFlight(s.procs[key].upc)
    ensures Consistent(s')
  {
    forall i | 0 <= i < |s'.rows| ensures RowOwned(s', i) {
      assert RowOwned(s, i);
    }
    forall q | 0 <= q < |s'.procs| ensures ProcSound(s', q) {
      assert ProcSound(s, q);
    }
  }

  lemma DropDeletedRow(s: State, id: FileId, ok: bool)
    requires Consistent(s) && Gone(s.rows, id)
    ensures Consistent(DropObject(s, id, ok))
  {
    if ok {
      assert RowOwned(s, id);
      forall i | 0 <= i < |s.rows| && s.rows[i].key == s.rows[id].key ensures s.rows[i].Deleted() {
        assert RowOwned(s, i);
      }
      DropKeeps(s, DropObject(s, id, ok), s.rows[id].key);
    }
  }

  lemma InsertKeeps(s: State, p: Pid)
    requires Consistent(s) && IsUpload(s, p, Cleared)
    ensures Consistent(AddRow(Advance(s, p, Created(|s.rows|)), p))
  {
    var s' := AddRow(Advance(s, p, Created(|s.rows|)), p);
    assert ProcSound(s, p);
    forall i | 0 <= i < |s'.rows| ensures RowOwned(s', i) {
      if i < |s.rows| { assert RowOwned(s, i); }
    }
    forall q | 0 <= q < |s'.procs| ensures ProcSound(s', q) {
      assert ProcSound(s, q);
    }
  }

  lemma RollBackKeeps(s: State, p: Pid, ok: bool)
    requires Consistent(s) && IsUpload(s, p, Rejected)
    ensures Consistent(Advance(s, p, Abandoned).(objects := if ok then s.objects - {p} else s.objects))
  {
    var moved := Advance(s, p, Abandoned);
    Frame(s, moved, p);
    if ok {
      forall i | 0 <= i < |s.rows| ensures s.rows[i].key != p {
        assert RowOwned(s, i);
      }
      DropKeeps(moved, moved.(objects := s.objects - {p}), p);
    }
  }

  lemma OutsideKeeps(cfg: Config, s: State, a: Action)
    requires Consistent(s)
    ensures Consistent(OutsideStep(cfg, s, a))
  {
    var s' := OutsideStep(cfg, s, a);
    assert RowsKept(s.rows, s'.rows);
    forall i | 0 <= i < |s'.rows| ensures RowOwned(s', i) {
      assert RowOwned(s, i);
    }
    forall q | 0 <= q < |s'.procs| ensures ProcSound(s', q) {
      assert ProcSound(s, q);
    }
  }

  lemma StoreKeeps(s: State, a: Action)
    requires Consistent(s)
    ensures Consistent(StoreStep(s, a))
  {
    var s' := StoreStep(s, a);
    match a
    case BeginUpload(_, _) => Frame(s, s', |s.procs|);
    case StoreObject(p) => if s' != s { Frame(s, s', p); }
    case StoreFails(p, _) => if s' != s { Frame(s, s', p); }
    case _ =>
  }

  lemma QuotaKeeps(cfg: Config, s: State, a: Action)
    requires Consistent(s)
    ensures Consistent(QuotaStep(cfg, s, a))
  {
    var s' := QuotaStep(cfg, s, a);
    if s' != s {
      assert ProcSound(s, a.p);
      Frame(s, s', a.p);
    }
  }

  lemma RecordKeeps(cfg: Config, s: State, a: Action)
    requires Consistent(s) && cfg.acknowledged
    ensures Consistent(RecordStep(cfg, s, a))
  {
    var s' := RecordStep(cfg, s, a);
    match a
    case Insert(p) => if s' != s { InsertKeeps(s, p); }
    case InsertFails(p, _) => if s' != s { Frame(s, s', p); }
    case RollBack(p, ok) => if s' != s { RollBackKeeps(s, p, ok); }
    case Return(p) => if s' != s { Frame(s, s', p); }
    case _ =>
  }

  lemma DeleteKeeps(s: State, a: Action)
    requires Consistent(s)
    ensures Consistent(DeleteStep(s, a))
  {
    var s' := DeleteStep(s, a);
    match a
    case BeginDelete(id, byAdmin) => if s' != s { Frame(s, s', |s.procs|); }
    case SoftDelete(p, ok) => if s' != s { Frame(s, s', p); }
    case DropDeleted(p, ok) =>
      if s' != s {
        var moved := Move(s, p, Delete(s.procs[p].target, false, Over));
        assert ProcSound(s, p);
        Frame(s, moved, p);
        DropDeletedRow(moved, s.procs[p].target, ok);
      }
    case LogDeleted(p, ok) => if s' != s { Frame(s, s', p); }
    case _ =>
  }

  lemma PurgeDropKeeps(cfg: Config, s: State, p: Pid, ok: bool)
    requires Consistent(s) && AtCandidate(s, p, Drop)
    ensures Consistent(PurgeStep(cfg, s, PurgeDrop(p, ok)))
  {
    var q := s.procs[p];
    var moved := Move(s, p, Purge(q.purger, q.todo, Log, q.freed));
    assert ProcSound(s, p);
    Frame(s, moved, p);
    DropDeletedRow(moved, q.todo[0], ok);
  }

  lemma PurgeKeeps(cfg: Config, s: State, a: Action)
    requires Consistent(s)
    ensures Consistent(PurgeStep(cfg, s, a))
  {
    var s' := PurgeStep(cfg, s, a);
    match a
    case BeginPurge(_, _) => if s' != s { Frame(s, s', |s.procs|); }
    case BeginOrphans(p, _) => if s' != s { Frame(s, s', p); }
    case SkipOrphans(p) => if s' != s { Frame(s, s', p); }
    case PurgeFlip(p, _) => if s' != s { assert ProcSound(s, p); Frame(s, s', p); }
    case PurgeDrop(p, ok) => if s' != s { PurgeDropKeeps(cfg, s, p, ok); }
    case PurgeLog(p, _) => if s' != s { assert ProcSound(s, p); Frame(s, s', p); }
    case _ =>
  }

  lemma StepKeepsConsistent(cfg: Config, s: State, a: Action)
    requires Consistent(s) && cfg.acknowledged
    ensures Consistent(Step(cfg, s, a))
  {
    OutsideKeeps(cfg, s, a);
    StoreKeeps(s, a);
    QuotaKeeps(cfg, s, a);
    RecordKeeps(cfg, s, a);
    DeleteKeeps(s, a);
    PurgeKeeps(cfg, s, a);
  }

  /** Every interleaving keeps the store consistent. */
  lemma {:induction false} StaysConsistent(cfg: Config, s: State, actions: seq<Action>)
    requires Consistent(s) && cfg.acknowledged
    ensures Consistent(Run(cfg, s, actions))
    decreases |actions|
  {
    if actions != [] {
      StaysConsistent(cfg, s, actions[..|actions| - 1]);
      StepKeepsConsistent(cfg, Run(cfg, s, actions[..|actions| - 1]), actions[|actions| - 1]);
    }
  }

  ghost predicate Reachable(cfg: Config, s: State) {
    Reaches(cfg, START, s)
  }

  lemma ReachNext(cfg: Config, s: State, a: Action)
    requires Reachable(cfg, s)
    ensures Reachable(cfg, Step(cfg, s, a))
  {
    ReachesNext(cfg, START, s, a);
  }

  lemma ReachBegun(cfg: Config, owner: Owner, size: nat)
    ensures Reachable(cfg, State(0, [], {}, {}, map[], [Upload(owner, size, Streaming)]))
  {
    ReachesStart(cfg, START);
    ReachNext(cfg, START, BeginUpload(owner, size));
    assert Spawn(START, Upload(owner, size, Streaming)) ==
      State(0, [], {}, {}, map[], [Upload(owner, size, Streaming)]);
  }

  /** The first upload has its object in the store. */
  lemma ReachStored(cfg: Config, owner: Owner, size: nat)
    ensures Reachable(cfg, State(0, [], {0}, {}, map[], [Upload(owner, size, Stored)]))
  {
    ReachBegun(cfg, owner, size);
    var s := State(0, [], {}, {}, map[], [Upload(owner, size, Streaming)]);
    ReachNext(cfg, s, StoreObject(0));
    assert Step(cfg, s, StoreObject(0)) == State(0, [], {0}, {}, map[], [Upload(owner, size, Stored)]);
  }

  function FirstLock(cfg: Config): map<Owner, Pid> {
    if cfg.quotaOn then map[0 := 0] else map[]
  }

  /** An empty first upload passes the quota check. */
  lemma ReachCleared(cfg: Config)
    ensures Reachable(cfg, State(0, [], {0}, {}, FirstLock(cfg), [Upload(0, 0, Cleared)]))
  {
    ReachStored(cfg, 0, 0);
    var s := State(0, [], {0}, {}, map[], [Upload(0, 0, Stored)]);
    ReachNext(cfg, s, TakeLock(0));
    if cfg.quotaOn {
      var locked := State(0, [], {0}, {}, FirstLock(cfg), [Upload(0, 0, Locked)]);
      assert Step(cfg, s, TakeLock(0)) == locked;
      ReachNext(cfg, locked, CheckUsage(0, true, true));
    }
  }

  /** An INSERT that commits without acknowledgement leaves a record whose object the rollback drops. */
  lemma LostInsertDangles(cfg: Config) returns (s: State)
    requires !cfg.acknowledged
    ensures Reachable(cfg, s) && !NoDangling(s)
  {
    ReachCleared(cfg);
    var cleared := State(0, [], {0}, {}, FirstLock(cfg), [Upload(0, 0, Cleared)]);
    ReachNext(cfg, cleared, InsertFails(0, true));
    var row := Row(0, 0, 0, 0, [], None, 0);
    var inserted := State(0, [row], {0}, {}, FirstLock(cfg), [Upload(0, 0, Rejected)]);
    assert Step(cfg, cleared, InsertFails(0, true)) == inserted;
    ReachNext(cfg, inserted, RollBack(0, true));
    s := Step(cfg, inserted, RollBack(0, true));
    assert s.rows[0] == row && 0 !in s.objects;
  }

  /** In every interleaving every live record has its object, exactly when no INSERT that reports
      an error has been committed. */
  lemma NeverDangling(cfg: Config)
    ensures (forall s :: Reachable(cfg, s) ==> NoDangling(s)) <==> cfg.acknowledged
  {
    if cfg.acknowledged {
      forall s | Reachable(cfg, s) ensures NoDangling(s) {
        ReachableConsistent(cfg, s);
      }
    } else {
      var s := LostInsertDangles(cfg);
    }
  }

  lemma ReachableConsistent(cfg: Config, s: State)
    requires Reachable(cfg, s) && cfg.acknowledged
    ensures Consistent(s)
  {
    var actions :| Run(cfg, START, actions) == s;
    StaysConsistent(cfg, START, actions);
  }
}
