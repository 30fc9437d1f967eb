/** The end of the upload handler as the code runs it: quota check under the owner's mutex, record,
    rollback. */
module UploadHandler {
  import opened Wrappers
  import opened Storage
  import opened StorageQuota

  datatype Reply =
    | Recorded(id: FileId)
    | QuotaExceeded(used: nat, quota: nat)
    | CreateFailed

  /** How the statements of one call end. The policy may not be readable; committed tells whether an
      INSERT that reports an error took effect. */
  datatype Outcomes = Outcomes(policyRead: bool, overrideOk: bool, usageOk: bool, insertOk: bool, committed: bool,
                               deleteOk: bool)

  /** Outcomes that the configuration allows. */
  predicate Possible(cfg: Config, o: Outcomes) {
    && (cfg.policyReads ==> o.policyRead) && (cfg.overrideReads ==> o.overrideOk) && (cfg.usageReads ==> o.usageOk)
    && (cfg.acknowledged ==> !o.committed)
  }

  /** The limit that the check compares with. */
  function Limit(cfg: Config, owner: Owner, o: Outcomes): nat {
    if o.overrideOk && cfg.override(owner).Some? then cfg.override(owner).value else cfg.globalQuota
  }

  /** The check is made, and the upload is too much. */
  predicate Overruns(cfg: Config, rows: seq<Row>, owner: Owner, size: nat, o: Outcomes) {
    cfg.quotaOn && o.policyRead && o.usageOk && Usage(rows, owner) + size > Limit(cfg, owner, o)
  }

  class Handler {
    const now: int  // of the database, for one call
    var rows: seq<Row>
    var objects: set<Pid>
    var quotaMu: map<Owner, Pid>  // who holds the mutex of an owner

    constructor (now: int, rows: seq<Row>, objects: set<Pid>)
      ensures this.now == now && this.rows == rows && this.objects == objects && quotaMu == map[]
    {
      this.now, this.rows, this.objects, quotaMu := now, rows, objects, map[];
    }

    /** The handler's view of a state of the state machine. */
    ghost predicate Shows(s: State)
      reads this
    {
      now == s.now && rows == s.rows && objects == s.objects && quotaMu == s.locks
    }

    /** FileRepository.Create. */
    method Create(owner: Owner, key: Pid, size: nat, o: Outcomes) returns (id: Option<FileId>)
      modifies `rows
      ensures id == if o.insertOk then Some(|old(rows)|) else None
      ensures rows ==
        if o.insertOk || o.committed then old(rows) + [Row(owner, key, size, now, [], None, 0)] else old(rows)
    {
      id := if o.insertOk then Some(|rows|) else None;
      if o.insertOk || o.committed {
        rows := rows + [Row(owner, key, size, now, [], None, 0)];
      }
    }

    method DeleteObject(key: Pid, o: Outcomes)
      modifies `objects
      ensures objects == if o.deleteOk then old(objects) - {key} else old(objects)
    {
      if o.deleteOk {
        objects := objects - {key};
      }
    }

    /** The quota check, with the mutex held. */
    method CheckQuota(cfg: Config, owner: Owner, size: nat, o: Outcomes) returns (over: bool, used: nat, quota: nat)
      ensures quota == if o.overrideOk then EffectiveQuota(cfg, owner) else cfg.globalQuota
      ensures quota == if o.overrideOk && cfg.override(owner).Some? then cfg.override(owner).value else cfg.globalQuota
      ensures over <==> o.usageOk && Usage(rows, owner) + size > quota
      ensures over ==> used == Usage(rows, owner)
    {
      quota := cfg.globalQuota;
      if o.overrideOk && cfg.override(owner).Some? {
        quota := cfg.override(owner).value;
      }
      used := Usage(rows, owner);
      over := o.usageOk && used + size > quota;
    }

    /** Takes the mutex and checks the quota, if there is one and it can be read. */
    method PassQuota(cfg: Config, p: Pid, owner: Owner, size: nat, o: Outcomes, ghost s: State)
        returns (over: bool, used: nat, quota: nat, ghost s': State)
      requires Possible(cfg, o) && Shows(s) && owner !in s.locks
      requires IsUpload(s, p, Stored) && s.procs[p].owner == owner && s.procs[p].size == size
      modifies `quotaMu
      ensures Reaches(cfg, s, s') && Shows(s') && s'.rows == s.rows && s'.objects == s.objects
      ensures IsUpload(s', p, if over then Rejected else Cleared)
      ensures s'.procs[p].owner == owner && s'.procs[p].size == size
      ensures s'.locks == s.locks || s'.locks == s.locks[owner := p]
      ensures over ==> cfg.quotaOn && used == Usage(rows, owner) && used + size > quota && quota == Limit(cfg, owner, o)
      ensures over <==> Overruns(cfg, rows, owner, size, o)
      ensures !over && cfg.quotaOn && o.policyRead && o.overrideOk && o.usageOk ==>
        Usage(rows, owner) + size <= EffectiveQuota(cfg, owner)
    {
      ReachesStart(cfg, s);
      over, used, quota := false, 0, 0;
      if o.policyRead && cfg.quotaOn {
        quotaMu := quotaMu[owner := p];
        s' := Advanced(cfg, s, s, TakeLock(p));
        over, used, quota := CheckQuota(cfg, owner, size, o);
        s' := Advanced(cfg, s, s', CheckUsage(p, o.overrideOk, o.usageOk));
      } else {
        s' := Advanced(cfg, s, s, if o.policyRead then TakeLock(p) else PolicyReadFails(p));
      }
    }

    /** Creates the record, or rolls the upload back. */
    method Record(cfg: Config, p: Pid, owner: Owner, size: nat, o: Outcomes, ghost s: State, ghost before: State)
        returns (id: Option<FileId>, ghost s': State)
      requires Possible(cfg, o) && Reaches(cfg, s, before) && Shows(before)
      requires IsUpload(before, p, Cleared) && before.procs[p].owner == owner && before.procs[p].size == size
      modifies this
      ensures Reaches(cfg, s, s') && Shows(s') && quotaMu == Storage.Unlock(before, p).locks
      ensures IsUpload(s', p, if id.Some? then ReturnedOk(id.value) else ReturnedErr)
      ensures id.Some? ==>
        id.value == |old(rows)| && rows == old(rows) + [Row(owner, p, size, now, [], None, 0)]
          && objects == old(objects)
      ensures id.Some? <==> o.insertOk
      ensures id.None? && o.deleteOk ==> objects == old(objects) - {p}
    {
      id := Create(owner, p, size, o);
      if id.None? {
        s' := Advanced(cfg, s, before, InsertFails(p, o.committed));
        s' := RollBackUpload(cfg, p, owner, o, s, s');
      } else {
        s' := Advanced(cfg, s, before, Insert(p));
        ReleaseMutex(owner, p);
        s' := Advanced(cfg, s, s', Return(p));
      }
    }

    /** Everything after the object is in the store, for one upload whose owner's mutex is free. What
        it does is a run of the state machine, and the mutex is free again at the end. A recorded
        file fits in the quota if the quota is on and its reads worked; without a record the object
        is gone, if the store lets it be deleted. */
    method Finish(cfg: Config, p: Pid, owner: Owner, size: nat, o: Outcomes, ghost s: State)
        returns (reply: Reply, ghost s': State)
      requires Possible(cfg, o) && Shows(s) && owner !in s.locks
      requires IsUpload(s, p, Stored) && s.procs[p].owner == owner && s.procs[p].size == size
      modifies this
      ensures Reaches(cfg, s, s') && Shows(s') && quotaMu == old(quotaMu)
      ensures IsUpload(s', p, if reply.Recorded? then ReturnedOk(reply.id) else ReturnedErr)
      ensures reply.QuotaExceeded? <==> Overruns(cfg, old(rows), owner, size, o)
      ensures reply.Recorded? <==> !Overruns(cfg, old(rows), owner, size, o) && o.insertOk
      ensures reply.QuotaExceeded? ==> reply.quota == Limit(cfg, owner, o)
      ensures reply.Recorded? ==>
        reply.id == |old(rows)| && rows == old(rows) + [Row(owner, p, size, now, [], None, 0)]
          && objects == old(objects)
      ensures reply.Recorded? && cfg.quotaOn && o.policyRead && o.overrideOk && o.usageOk ==>
        Usage(rows, owner) <= EffectiveQuota(cfg, owner)
      ensures reply.QuotaExceeded? ==>
        cfg.quotaOn && reply.used == Usage(old(rows), owner) && reply.used + size > reply.quota && rows == old(rows)
      ensures !reply.Recorded? && o.deleteOk ==> objects == old(objects) - {p}
    {
      var over, used, quota;
      over, used, quota, s' := PassQuota(cfg, p, owner, size, o, s);
      if over {
        s' := RollBackUpload(cfg, p, owner, o, s, s');
        reply := QuotaExceeded(used, quota);
      } else {
        UsageAdd(rows, Row(owner, p, size, now, [], None, 0), owner);
        var id;
        id, s' := Record(cfg, p, owner, size, o, s, s');
        reply := if id.Some? then Recorded(id.value) else CreateFailed;
      }
    }

    /** The best-effort delete of the object, and the deferred unlock. */
    method RollBackUpload(cfg: Config, p: Pid, owner: Owner, o: Outcomes, ghost s: State, ghost before: State)
        returns (ghost s': State)
      requires Reaches(cfg, s, before) && Shows(before) && IsUpload(before, p, Rejected)
      requires before.procs[p].owner == owner
      modifies `objects, `quotaMu
      ensures Reaches(cfg, s, s') && Shows(s') && IsUpload(s', p, ReturnedErr) && s'.rows == before.rows
      ensures objects == if o.deleteOk then old(objects) - {p} else old(objects)
      ensures s'.locks == Storage.Unlock(before, p).locks
    {
      DeleteObject(p, o);
      s' := Advanced(cfg, s, before, RollBack(p, o.deleteOk));
      ReleaseMutex(owner, p);
      s' := Advanced(cfg, s, s', Return(p));
    }

    /** The deferred unlock, a no-op if the mutex was not taken. */
    method ReleaseMutex(owner: Owner, p: Pid)
      modifies `quotaMu
      ensures quotaMu ==
        if owner in old(quotaMu) && old(quotaMu)[owner] == p then old(quotaMu) - {owner} else old(quotaMu)
    {
      if owner in quotaMu && quotaMu[owner] == p {
        quotaMu := quotaMu - {owner};
      }
    }
  }
}
