/** The storage service at run time: uploads, deletes, purges and the retention worker interleave
    with each other, with the sharing of files and with the clock, one SQL statement or object-store
    call at a time. */
module Storage {
  import opened Wrappers
  import Retention

  type Owner = nat
  type Pid = nat     // a request or worker cycle, in order of arrival
  type FileId = nat  // position in the files table; rows are never physically removed

  /** Policy and environment, fixed during a run. */
  datatype Config = Config(
    quotaOn: bool,                   // quota enabled, with a positive global limit
    globalQuota: nat,
    override: Owner -> Option<nat>,  // admin_svc.user_quotas
    policyReads: bool,               // reading the policy never fails
    overrideReads: bool,             // reading an override never fails
    usageReads: bool,                // reading the usage never fails
    acknowledged: bool,              // an INSERT that reports an error has not been committed
    retention: Retention.Policy,
    shortestShare: nat,              // the shortest time a transfer can be given
    oneWorker: bool)                 // one instance runs the worker, so its cycles do not overlap

  function EffectiveQuota(cfg: Config, owner: Owner): nat {
    match cfg.override(owner)
    case Some(quota) => quota
    case None => cfg.globalQuota
  }

  /** A row of storage.files, with the transfers that contain the file. flippedBy says who was the
      first to set deletedAt. */
  datatype Row = Row(owner: Owner, key: Pid, size: nat, createdAt: int, shares: seq<Retention.Share>,
                     deletedAt: Option<int>, flippedBy: Pid)
  {
    predicate Deleted() {
      deletedAt.Some?
    }

    function File(): Retention.File {
      Retention.File(createdAt, shares, Deleted())
    }
  }

  /** Where an upload is. */
  datatype UploadPc =
    | Streaming
    | Stored
    | Locked
    | Cleared
    | Rejected
    | Abandoned
    | Created(id: FileId)
    | ReturnedOk(id: FileId)
    | ReturnedErr

  datatype DeletePc = Requested | Dropping | Over

  datatype PurgePc = Flip | Drop | Log

  datatype Purger =
    | AdminHandler  // handleTriggerPurge
    | WorkerCycle   // runCycle, first pass
    | OrphanPass    // runCycle, second pass: purgeOrphanedObjects

  /** A request or worker cycle in progress. The object key of an upload is its pid. */
  datatype Proc =
    | Upload(owner: Owner, size: nat, upc: UploadPc)
    | Delete(target: FileId, byAdmin: bool, dpc: DeletePc)  // DeleteFile, handleAdminDeleteFile
    | Purge(purger: Purger, todo: seq<FileId>, ppc: PurgePc, freed: nat)

  datatype State = State(
    now: int,
    rows: seq<Row>,
    objects: set<Pid>,
    log: set<FileId>,      // ids in storage.file_purge_log
    locks: map<Owner, Pid>,
    procs: seq<Proc>)

  /** ok: the statement or the object-store call succeeds. */
  datatype Action =
    | Tick(elapsed: nat)
    | AddShare(id: FileId, expiresIn: nat)  // a transfer with the file is created
    | EndShare(id: FileId, i: nat)          // Revoke or ExpireStale on the i-th of them
    | BeginUpload(owner: Owner, size: nat)
    | StoreObject(p: Pid)
    | StoreFails(p: Pid, lost: bool)        // lost: stored, but not acknowledged
    | TakeLock(p: Pid)
    | PolicyReadFails(p: Pid)
    | CheckUsage(p: Pid, overrideOk: bool, usageOk: bool)
    | Insert(p: Pid)
    | InsertFails(p: Pid, committed: bool)
    | RollBack(p: Pid, ok: bool)
    | Return(p: Pid)
    | BeginDelete(id: FileId, byAdmin: bool)
    | SoftDelete(p: Pid, ok: bool)
    | DropDeleted(p: Pid, ok: bool)
    | LogDeleted(p: Pid, ok: bool)
    | BeginPurge(purger: Purger, ids: seq<FileId>)
    | BeginOrphans(p: Pid, ids: seq<FileId>)
    | SkipOrphans(p: Pid)                   // the query of the second pass fails
    | PurgeFlip(p: Pid, ok: bool)
    | PurgeDrop(p: Pid, ok: bool)
    | PurgeLog(p: Pid, ok: bool)

  // ---------- Queries ----------

  /** GetUsageByOwner: bytes of the owner's live files. */
  function Usage(rows: seq<Row>, owner: Owner): nat {
    if rows == [] then 0
    else
      var last := rows[|rows| - 1];
      Usage(rows[..|rows| - 1], owner) + if last.owner == owner && !last.Deleted() then last.size else 0
  }

  predicate Live(s: State, id: FileId) {
    id < |s.rows| && !s.rows[id].Deleted()
  }

  predicate Gone(rows: seq<Row>, id: FileId) {
    id < |rows| && rows[id].Deleted()
  }

  predicate AllGone(rows: seq<Row>, ids: seq<FileId>) {
    forall i | 0 <= i < |ids| :: Gone(rows, ids[i])
  }

  predicate Distinct(ids: seq<FileId>) {
    forall i, j | 0 <= i < j < |ids| :: ids[i] != ids[j]
  }

  /** The retention rule selects this file now. */
  predicate Selected(cfg: Config, s: State, id: FileId) {
    id < |s.rows| && Retention.WorkerSelects(s.rows[id].File(), cfg.retention, s.now)
  }

  const MAX_FILES_PER_CYCLE := 500  // also the cap of the manual purge

  /** FindFilesEligibleForDeletion, cut to the cap: in any order, all of them if they fit. */
  predicate IsCandidates(cfg: Config, s: State, ids: seq<FileId>) {
    && Distinct(ids) && |ids| <= MAX_FILES_PER_CYCLE
    && (forall i | 0 <= i < |ids| :: Selected(cfg, s, ids[i]))
    && (|ids| < MAX_FILES_PER_CYCLE ==> forall id | 0 <= id < |s.rows| :: Selected(cfg, s, id) ==> id in ids)
  }

  const ORPHAN_WINDOW := 48 * 60 * 60 * Retention.SECOND
  const ORPHAN_LIMIT := 200

  /** Recently deleted and not in the purge log. */
  predicate Pending(s: State, id: FileId) {
    Gone(s.rows, id) && s.rows[id].deletedAt.value > s.now - ORPHAN_WINDOW && id !in s.log
  }

  predicate NoEarlier(s: State, a: FileId, b: FileId) {
    Gone(s.rows, a) && Gone(s.rows, b) && s.rows[a].deletedAt.value >= s.rows[b].deletedAt.value
  }

  /** FindSoftDeletedPendingObjectPurge: ORDER BY deleted_at DESC LIMIT 200. */
  predicate IsPendingResult(s: State, ids: seq<FileId>) {
    && Distinct(ids) && |ids| <= ORPHAN_LIMIT
    && (forall i | 0 <= i < |ids| :: Pending(s, ids[i]))
    && (forall i, j | 0 <= i < j < |ids| :: NoEarlier(s, ids[i], ids[j]))
    && (|ids| < ORPHAN_LIMIT ==> forall id | 0 <= id < |s.rows| :: Pending(s, id) ==> id in ids)
    && (forall id, i | 0 <= id < |s.rows| && 0 <= i < |ids| :: Pending(s, id) && id !in ids ==>
      NoEarlier(s, ids[i], id))
  }

  // ---------- Statements ----------

  /** UPDATE storage.files SET deleted_at = now() WHERE id = $1 [AND deleted_at IS NULL]: without the
      second condition a row that is already deleted gets a new date. */
  function StampRow(row: Row, p: Pid, now: int, restamp: bool): Row {
    if !row.Deleted() then row.(deletedAt := Some(now), flippedBy := p)
    else if restamp then row.(deletedAt := Some(now)) else row
  }

  function FlipRow(rows: seq<Row>, id: FileId, p: Pid, now: int, restamp: bool): seq<Row>
    requires id < |rows|
  {
    rows[id := StampRow(rows[id], p, now, restamp)]
  }

  function Move(s: State, p: Pid, proc: Proc): State
    requires p < |s.procs|
  {
    s.(procs := s.procs[p := proc])
  }

  function Spawn(s: State, proc: Proc): State {
    s.(procs := s.procs + [proc])
  }

  predicate IsUpload(s: State, p: Pid, pc: UploadPc) {
    p < |s.procs| && s.procs[p].Upload? && s.procs[p].upc == pc
  }

  function Advance(s: State, p: Pid, pc: UploadPc): State
    requires p < |s.procs| && s.procs[p].Upload?
  {
    Move(s, p, Upload(s.procs[p].owner, s.procs[p].size, pc))
  }

  function NewRow(s: State, p: Pid): Row
    requires p < |s.procs| && s.procs[p].Upload?
  {
    Row(s.procs[p].owner, p, s.procs[p].size, s.now, [], None, 0)
  }

  function AddRow(s: State, p: Pid): State
    requires p < |s.procs| && s.procs[p].Upload?
  {
    s.(rows := s.rows + [NewRow(s, p)])
  }

  /** The quota test. A failed read of the override falls back to the global limit, a failed read
      of the usage lets the upload through. */
  predicate OverQuota(cfg: Config, s: State, owner: Owner, size: nat, overrideOk: bool, usageOk: bool) {
    var quota := if overrideOk then EffectiveQuota(cfg, owner) else cfg.globalQuota;
    usageOk && Usage(s.rows, owner) + size > quota
  }

  /** The deferred unlock: gives the quota mutex back if this upload holds it. */
  function Unlock(s: State, p: Pid): State
    requires p < |s.procs| && s.procs[p].Upload?
  {
    var owner := s.procs[p].owner;
    if owner in s.locks && s.locks[owner] == p then s.(locks := s.locks - {owner}) else s
  }

  // ---------- Steps ----------

  /** The clock, and the transfers of a file. Every transfer has an expiry. */
  function OutsideStep(cfg: Config, s: State, a: Action): State {
    match a
    case Tick(elapsed) => s.(now := s.now + elapsed)
    case AddShare(id, expiresIn) =>
      if id >= |s.rows| || expiresIn < cfg.shortestShare then s
      else
        var row := s.rows[id];
        s.(rows := s.rows[id := row.(shares := row.shares + [Retention.Share(false, Some(s.now + expiresIn))])])
    case EndShare(id, i) =>
      if id >= |s.rows| || i >= |s.rows[id].shares| then s
      else
        var row := s.rows[id];
        s.(rows := s.rows[id := row.(shares := row.shares[i := row.shares[i].(revoked := true)])])
    case _ => s
  }

  /** The start of an upload, up to the answer of the object store. */
  function StoreStep(s: State, a: Action): State {
    match a
    case BeginUpload(owner, size) => Spawn(s, Upload(owner, size, Streaming))
    case StoreObject(p) =>
      if !IsUpload(s, p, Streaming) then s
      else Advance(s, p, Stored).(objects := s.objects + {p})
    case StoreFails(p, lost) =>
      if !IsUpload(s, p, Streaming) then s
      else Advance(s, p, ReturnedErr).(objects := if lost then s.objects + {p} else s.objects)
    case _ => s
  }

  /** The quota check of an upload, under the mutex of its owner. */
  function QuotaStep(cfg: Config, s: State, a: Action): State {
    match a
    case TakeLock(p) =>
      if !IsUpload(s, p, Stored) then s
      else if !cfg.quotaOn then Advance(s, p, Cleared)
      else if s.procs[p].owner in s.locks then s
      else Advance(s, p, Locked).(locks := s.locks[s.procs[p].owner := p])
    case PolicyReadFails(p) =>
      if !IsUpload(s, p, Stored) || cfg.policyReads then s else Advance(s, p, Cleared)
    case CheckUsage(p, overrideOk, usageOk) =>
      if !IsUpload(s, p, Locked) then s
      else
        var over := OverQuota(cfg, s, s.procs[p].owner, s.procs[p].size,
                              overrideOk || cfg.overrideReads, usageOk || cfg.usageReads);
        Advance(s, p, if over then Rejected else Cleared)
    case _ => s
  }

  /** The end of an upload: its record or its rollback. */
  function RecordStep(cfg: Config, s: State, a: Action): State {
    match a
    case Insert(p) =>
      if !IsUpload(s, p, Cleared) then s else AddRow(Advance(s, p, Created(|s.rows|)), p)
    case InsertFails(p, committed) =>
      if !IsUpload(s, p, Cleared) then s
      else if committed && !cfg.acknowledged then AddRow(Advance(s, p, Rejected), p)
      else Advance(s, p, Rejected)
    case RollBack(p, ok) =>
      if !IsUpload(s, p, Rejected) then s
      else Advance(s, p, Abandoned).(objects := if ok then s.objects - {p} else s.objects)
    case Return(p) =>
      if p < |s.procs| && s.procs[p].Upload? && s.procs[p].upc.Created? then
        Unlock(Advance(s, p, ReturnedOk(s.procs[p].upc.id)), p)
      else if IsUpload(s, p, Abandoned) then Unlock(Advance(s, p, ReturnedErr), p)
      else s
    case _ => s
  }

  predicate IsDelete(s: State, p: Pid, pc: DeletePc) {
    p < |s.procs| && s.procs[p].Delete? && s.procs[p].dpc == pc && s.procs[p].target < |s.rows|
  }

  function DropObject(s: State, id: FileId, ok: bool): State
    requires id < |s.rows|
  {
    if ok then s.(objects := s.objects - {s.rows[id].key}) else s
  }

  /** One step of an owner's or an admin's delete. The owner's UPDATE reports "not found" on a row
      that is already deleted, and the object is dropped afterwards; the admin's UPDATE matches a
      deleted row too, and is followed by an entry in the purge log. */
  function DeleteStep(s: State, a: Action): State {
    match a
    case BeginDelete(id, byAdmin) =>
      if Live(s, id) then Spawn(s, Delete(id, byAdmin, Requested)) else s
    case SoftDelete(p, ok) =>
      if !IsDelete(s, p, Requested) then s
      else
        var d := s.procs[p];
        if !ok || (!d.byAdmin && s.rows[d.target].Deleted()) then Move(s, p, Delete(d.target, d.byAdmin, Over))
        else
          Move(s, p, Delete(d.target, d.byAdmin, Dropping)).(rows := FlipRow(s.rows, d.target, p, s.now, d.byAdmin))
    case DropDeleted(p, ok) =>
      if !IsDelete(s, p, Dropping) || s.procs[p].byAdmin then s
      else DropObject(Move(s, p, Delete(s.procs[p].target, false, Over)), s.procs[p].target, ok)
    case LogDeleted(p, ok) =>
      if !IsDelete(s, p, Dropping) || !s.procs[p].byAdmin then s
      else
        Move(s, p, Delete(s.procs[p].target, true, Over))
          .(log := if ok then s.log + {s.procs[p].target} else s.log)
    case _ => s
  }

  /** The purge is at the given stage of its first remaining candidate. */
  predicate AtCandidate(s: State, p: Pid, pc: PurgePc) {
    && p < |s.procs| && s.procs[p].Purge? && s.procs[p].ppc == pc
    && s.procs[p].todo != [] && s.procs[p].todo[0] < |s.rows|
  }

  /** No worker cycle is in progress. */
  predicate NoCycle(s: State) {
    forall q | 0 <= q < |s.procs| :: s.procs[q].Purge? ==>
      s.procs[q].purger == AdminHandler || (s.procs[q].purger == OrphanPass && s.procs[q].todo == [])
  }

  predicate FirstPassDone(s: State, p: Pid) {
    p < |s.procs| && s.procs[p].Purge? && s.procs[p].purger == WorkerCycle && s.procs[p].todo == []
  }

  /** One step of a purge. The admin handler skips candidates it did not flip itself and never
      touches the object store; the worker's first pass does all three stages for every candidate,
      and its second pass the last two. A cycle begins only with retention on and something to do,
      and its second pass only at the end of the first. */
  function PurgeStep(cfg: Config, s: State, a: Action): State {
    match a
    case BeginPurge(purger, ids) =>
      if !IsCandidates(cfg, s, ids) || purger == OrphanPass then s
      else if purger == WorkerCycle && (!cfg.retention.enabled || ids == [] || (cfg.oneWorker && !NoCycle(s))) then s
      else Spawn(s, Purge(purger, ids, Flip, 0))
    case BeginOrphans(p, ids) =>
      if !FirstPassDone(s, p) || !IsPendingResult(s, ids) then s
      else Move(s, p, Purge(OrphanPass, ids, Drop, s.procs[p].freed))
    case SkipOrphans(p) =>
      if !FirstPassDone(s, p) then s else Move(s, p, Purge(OrphanPass, [], Drop, s.procs[p].freed))
    case PurgeFlip(p, ok) =>
      if !AtCandidate(s, p, Flip) then s
      else
        var q, row := s.procs[p], s.rows[s.procs[p].todo[0]];
        if !ok || (q.purger == AdminHandler && row.Deleted()) then
          Move(s, p, Purge(q.purger, q.todo[1..], Flip, q.freed))
        else
          var next := if q.purger == AdminHandler then Log else Drop;
          Move(s, p, Purge(q.purger, q.todo, next, q.freed + row.size))
            .(rows := FlipRow(s.rows, q.todo[0], p, s.now, false))
    case PurgeDrop(p, ok) =>
      if !AtCandidate(s, p, Drop) then s
      else
        var q := s.procs[p];
        DropObject(Move(s, p, Purge(q.purger, q.todo, Log, q.freed)), q.todo[0], ok)
    case PurgeLog(p, ok) =>
      if !AtCandidate(s, p, Log) then s
      else
        var q := s.procs[p];
        var next := if q.purger == OrphanPass then Drop else Flip;
        Move(s, p, Purge(q.purger, q.todo[1..], next, q.freed))
          .(log := if ok then s.log + {q.todo[0]} else s.log)
    case _ => s
  }

  function Step(cfg: Config, s: State, a: Action): State {
    match a
    case Tick(_) => OutsideStep(cfg, s, a)
    case AddShare(_, _) => OutsideStep(cfg, s, a)
    case EndShare(_, _) => OutsideStep(cfg, s, a)
    case BeginPurge(_, _) => PurgeStep(cfg, s, a)
    case BeginOrphans(_, _) => PurgeStep(cfg, s, a)
    case SkipOrphans(_) => PurgeStep(cfg, s, a)
    case PurgeFlip(_, _) => PurgeStep(cfg, s, a)
    case PurgeDrop(_, _) => PurgeStep(cfg, s, a)
    case PurgeLog(_, _) => PurgeStep(cfg, s, a)
    case BeginDelete(_, _) => DeleteStep(s, a)
    case SoftDelete(_, _) => DeleteStep(s, a)
    case DropDeleted(_, _) => DeleteStep(s, a)
    case LogDeleted(_, _) => DeleteStep(s, a)
    case TakeLock(_) => QuotaStep(cfg, s, a)
    case PolicyReadFails(_) => QuotaStep(cfg, s, a)
    case CheckUsage(_, _, _) => QuotaStep(cfg, s, a)
    case Insert(_) => RecordStep(cfg, s, a)
    case InsertFails(_, _) => RecordStep(cfg, s, a)
    case RollBack(_, _) => RecordStep(cfg, s, a)
    case Return(_) => RecordStep(cfg, s, a)
    case _ => StoreStep(s, a)
  }

  /** An interleaving: a step that is not possible when its turn comes does nothing. */
  function Run(cfg: Config, s: State, actions: seq<Action>): State
    decreases |actions|
  {
    if actions == [] then s else Step(cfg, Run(cfg, s, actions[..|actions| - 1]), actions[|actions| - 1])
  }

  const START := State(0, [], {}, {}, map[], [])

  ghost predicate Reaches(cfg: Config, s: State, s': State) {
    exists actions :: Run(cfg, s, actions) == s'
  }

  lemma ReachesStart(cfg: Config, s: State)
    ensures Reaches(cfg, s, s)
  {
    assert Run(cfg, s, []) == s;
  }

  lemma ReachesNext(cfg: Config, s: State, m: State, a: Action)
    requires Reaches(cfg, s, m)
    ensures Reaches(cfg, s, Step(cfg, m, a))
  {
    var actions :| Run(cfg, s, actions) == m;
    assert (actions + [a])[..|actions|] == actions;
    assert Run(cfg, s, actions + [a]) == Step(cfg, m, a);
  }

  lemma {:induction false} RunAppend(cfg: Config, s: State, a: seq<Action>, b: seq<Action>)
    ensures Run(cfg, s, a + b) == Run(cfg, Run(cfg, s, a), b)
    decreases |b|
  {
    if b == [] {
      assert a + b == a;
    } else {
      var n := |b| - 1;
      RunAppend(cfg, s, a, b[..n]);
      assert (a + b)[..|a + b| - 1] == a + b[..n] && (a + b)[|a + b| - 1] == b[n];
      assert Run(cfg, s, a + b) == Step(cfg, Run(cfg, s, a + b[..n]), b[n]);
    }
  }

  lemma ReachesOn(cfg: Config, s: State, m: State, s': State)
    requires Reaches(cfg, s, m) && Reaches(cfg, m, s')
    ensures Reaches(cfg, s, s')
  {
    var a :| Run(cfg, s, a) == m;
    var b :| Run(cfg, m, b) == s';
    RunAppend(cfg, s, a, b);
  }

  /** One more step of a run. */
  ghost function Advanced(cfg: Config, s: State, m: State, a: Action): (s': State)
    requires Reaches(cfg, s, m)
    ensures s' == Step(cfg, m, a) && Reaches(cfg, s, s')
  {
    ReachesNext(cfg, s, m, a);
    Step(cfg, m, a)
  }
}
