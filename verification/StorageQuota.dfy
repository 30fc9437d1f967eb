/** Quota safety of the storage state machine. */
module StorageQuota {
  import opened Wrappers
  import opened Storage
  import opened StorageSafety

  // ---------- How the usage changes ----------

  lemma UsageAdd(rows: seq<Row>, row: Row, owner: Owner)
    ensures Usage(rows + [row], owner) ==
      Usage(rows, owner) + if row.owner == owner && !row.Deleted() then row.size else 0
  {
    assert (rows + [row])[..|rows|] == rows;
  }

  /** Marking a row takes its size off its owner's usage, once; marking it again changes nothing. */
  lemma {:induction false} UsageFlip(rows: seq<Row>, id: FileId, p: Pid, now: int, restamp: bool, owner: Owner)
    requires id < |rows|
    ensures Usage(FlipRow(rows, id, p, now, restamp), owner) ==
      Usage(rows, owner) - if rows[id].owner == owner && !rows[id].Deleted() then rows[id].size else 0
  {
    var rows' := FlipRow(rows, id, p, now, restamp);
    var n := |rows| - 1;
    if id == n {
      assert rows'[..n] == rows[..n];
    } else {
      UsageFlip(rows[..n], id, p, now, restamp, owner);
      assert rows'[..n] == FlipRow(rows[..n], id, p, now, restamp);
      assert rows'[n] == rows[n];
    }
  }

  /** Who owns what, how large, live or not. */
  ghost predicate SameBytes(rows: seq<Row>, rows': seq<Row>) {
    && |rows'| == |rows|
    && forall i | 0 <= i < |rows| ::
         rows'[i].owner == rows[i].owner && rows'[i].size == rows[i].size && rows'[i].Deleted() == rows[i].Deleted()
  }

  lemma {:induction false} UsageSame(rows: seq<Row>, rows': seq<Row>, owner: Owner)
    requires SameBytes(rows, rows')
    ensures Usage(rows', owner) == Usage(rows, owner)
  {
    if rows != [] {
      UsageSame(rows[..|rows| - 1], rows'[..|rows| - 1], owner);
    }
  }

  // ---------- The quota mutex ----------

  predicate Holds(pc: UploadPc) {
    pc == Locked || pc == Cleared || pc == Rejected || pc == Abandoned || pc.Created?
  }

  /** An upload between its lock and its return holds the mutex of its owner, so it is the only one
      of that owner there, and one that has passed the check still fits. */
  ghost predicate Guarded(cfg: Config, s: State, p: Pid)
    requires p < |s.procs|
  {
    s.procs[p].Upload? && Holds(s.procs[p].upc) ==>
      var owner := s.procs[p].owner;
      && owner in s.locks && s.locks[owner] == p
      && (s.procs[p].upc == Cleared ==> Usage(s.rows, owner) + s.procs[p].size <= EffectiveQuota(cfg, owner))
  }

  ghost predicate AllGuarded(cfg: Config, s: State) {
    forall p | 0 <= p < |s.procs| :: Guarded(cfg, s, p)
  }

  /** No owner's override is below the global limit, so that falling back to that limit is harmless. */
  ghost predicate NoTighterOverride(cfg: Config) {
    forall owner: Owner :: EffectiveQuota(cfg, owner) >= cfg.globalQuota
  }

  /** The quota is on, the reads without which an upload is let through do not fail, and a failing
      read of the override does no harm. */
  ghost predicate Enforced(cfg: Config) {
    cfg.quotaOn && cfg.policyReads && cfg.usageReads && (cfg.overrideReads || NoTighterOverride(cfg))
  }

  /** Usage within the given bounds. */
  ghost predicate Within(cfg: Config, rows: seq<Row>, start: seq<Row>) {
    forall owner: Owner :: Usage(rows, owner) <= EffectiveQuota(cfg, owner) || Usage(rows, owner) <= Usage(start, owner)
  }

  ghost predicate UsageFalls(rows: seq<Row>, rows': seq<Row>) {
    forall owner: Owner :: Usage(rows', owner) <= Usage(rows, owner)
  }

  lemma FlipFalls(rows: seq<Row>, id: FileId, p: Pid, now: int, restamp: bool)
    requires id < |rows|
    ensures UsageFalls(rows, FlipRow(rows, id, p, now, restamp))
  {
    forall owner: Owner ensures Usage(FlipRow(rows, id, p, now, restamp), owner) <= Usage(rows, owner) {
      UsageFlip(rows, id, p, now, restamp, owner);
    }
  }

  /** A step of p that adds no bytes and takes away no other upload's lock. */
  lemma GuardFrame(cfg: Config, s: State, s': State, p: Pid, start: seq<Row>)
    requires AllGuarded(cfg, s) && Within(cfg, s.rows, start)
    requires UsageFalls(s.rows, s'.rows)
    requires forall o | o in s.locks && s.locks[o] != p :: o in s'.locks && s'.locks[o] == s.locks[o]
    requires p < |s'.procs| && |s.procs| <= |s'.procs|
    requires forall q | 0 <= q < |s'.procs| :: q != p ==> q < |s.procs| && s'.procs[q] == s.procs[q]
    requires Guarded(cfg, s', p)
    ensures AllGuarded(cfg, s') && Within(cfg, s'.rows, start)
  {
    forall q | 0 <= q < |s'.procs| ensures Guarded(cfg, s', q) {
      if q != p {
        var proc := s'.procs[q];
        assert q < |s.procs| && s.procs[q] == proc && Guarded(cfg, s, q);
      }
    }
  }

  /** The insert of an upload that has passed the check. */
  lemma InsertGuarded(cfg: Config, s: State, p: Pid, pc: UploadPc, start: seq<Row>)
    requires AllGuarded(cfg, s) && Within(cfg, s.rows, start)
    requires IsUpload(s, p, Cleared) && pc != Cleared
    ensures AllGuarded(cfg, AddRow(Advance(s, p, pc), p)) && Within(cfg, AddRow(Advance(s, p, pc), p).rows, start)
  {
    var s' := AddRow(Advance(s, p, pc), p);
    assert Guarded(cfg, s, p);
    forall owner: Owner
      ensures Usage(s'.rows, owner) == Usage(s.rows, owner) + if owner == s.procs[p].owner then s.procs[p].size else 0
    {
      UsageAdd(s.rows, s'.rows[|s.rows|], owner);
    }
    forall q | 0 <= q < |s'.procs| ensures Guarded(cfg, s', q) {
      assert Guarded(cfg, s, q);
    }
  }

  lemma OutsideGuarded(cfg: Config, s: State, a: Action, start: seq<Row>)
    requires AllGuarded(cfg, s) && Within(cfg, s.rows, start)
    ensures AllGuarded(cfg, OutsideStep(cfg, s, a)) && Within(cfg, OutsideStep(cfg, s, a).rows, start)
  {
    var s' := OutsideStep(cfg, s, a);
    forall owner: Owner ensures Usage(s'.rows, owner) == Usage(s.rows, owner) {
      UsageSame(s.rows, s'.rows, owner);
    }
    forall q | 0 <= q < |s'.procs| ensures Guarded(cfg, s', q) {
      assert Guarded(cfg, s, q);
    }
  }

  lemma StoreGuarded(cfg: Config, s: State, a: Action, start: seq<Row>)
    requires AllGuarded(cfg, s) && Within(cfg, s.rows, start)
    ensures AllGuarded(cfg, StoreStep(s, a)) && Within(cfg, StoreStep(s, a).rows, start)
  {
    var s' := StoreStep(s, a);
    match a
    case BeginUpload(_, _) => GuardFrame(cfg, s, s', |s.procs|, start);
    case StoreObject(p) => if s' != s { GuardFrame(cfg, s, s', p, start); }
    case StoreFails(p, _) => if s' != s { GuardFrame(cfg, s, s', p, start); }
    case _ =>
  }

  lemma QuotaGuarded(cfg: Config, s: State, a: Action, start: seq<Row>)
    requires Enforced(cfg)
    requires AllGuarded(cfg, s) && Within(cfg, s.rows, start)
    ensures AllGuarded(cfg, QuotaStep(cfg, s, a)) && Within(cfg, QuotaStep(cfg, s, a).rows, start)
  {
    var s' := QuotaStep(cfg, s, a);
    if s' != s {
      assert Guarded(cfg, s, a.p);
      GuardFrame(cfg, s, s', a.p, start);
    }
  }

  lemma RecordGuarded(cfg: Config, s: State, a: Action, start: seq<Row>)
    requires AllGuarded(cfg, s) && Within(cfg, s.rows, start)
    ensures AllGuarded(cfg, RecordStep(cfg, s, a)) && Within(cfg, RecordStep(cfg, s, a).rows, start)
  {
    var s' := RecordStep(cfg, s, a);
    if s' != s {
      assert Guarded(cfg, s, a.p);
      if a.Insert? {
        InsertGuarded(cfg, s, a.p, Created(|s.rows|), start);
      } else if a.InsertFails? && a.committed && !cfg.acknowledged {
        InsertGuarded(cfg, s, a.p, Rejected, start);
      } else {
        GuardFrame(cfg, s, s', a.p, start);
      }
    }
  }

  lemma DeleteGuarded(cfg: Config, s: State, a: Action, start: seq<Row>)
    requires AllGuarded(cfg, s) && Within(cfg, s.rows, start)
    ensures AllGuarded(cfg, DeleteStep(s, a)) && Within(cfg, DeleteStep(s, a).rows, start)
  {
    var s' := DeleteStep(s, a);
    match a
    case BeginDelete(_, _) => if s' != s { GuardFrame(cfg, s, s', |s.procs|, start); }
    case SoftDelete(p, _) =>
      if s' != s {
        FlipFalls(s.rows, s.procs[p].target, p, s.now, s.procs[p].byAdmin);
        GuardFrame(cfg, s, s', p, start);
      }
    case DropDeleted(p, _) => if s' != s { GuardFrame(cfg, s, s', p, start); }
    case LogDeleted(p, _) => if s' != s { GuardFrame(cfg, s, s', p, start); }
    case _ =>
  }

  lemma PurgeGuarded(cfg: Config, s: State, a: Action, start: seq<Row>)
    requires AllGuarded(cfg, s) && Within(cfg, s.rows, start)
    ensures AllGuarded(cfg, PurgeStep(cfg, s, a)) && Within(cfg, PurgeStep(cfg, s, a).rows, start)
  {
    var s' := PurgeStep(cfg, s, a);
    match a
    case BeginPurge(_, _) => if s' != s { GuardFrame(cfg, s, s', |s.procs|, start); }
    case BeginOrphans(p, _) => if s' != s { GuardFrame(cfg, s, s', p, start); }
    case SkipOrphans(p) => if s' != s { GuardFrame(cfg, s, s', p, start); }
    case PurgeFlip(p, _) =>
      if s' != s {
        FlipFalls(s.rows, s.procs[p].todo[0], p, s.now, false);
        GuardFrame(cfg, s, s', p, start);
      }
    case PurgeDrop(p, _) => if s' != s { GuardFrame(cfg, s, s', p, start); }
    case PurgeLog(p, _) => if s' != s { GuardFrame(cfg, s, s', p, start); }
    case _ =>
  }

  lemma {:induction false} StaysWithin(cfg: Config, s: State, actions: seq<Action>, start: seq<Row>)
    requires Enforced(cfg)
    requires AllGuarded(cfg, s) && Within(cfg, s.rows, start)
    ensures AllGuarded(cfg, Run(cfg, s, actions)) && Within(cfg, Run(cfg, s, actions).rows, start)
    decreases |actions|
  {
    if actions != [] {
      var before, a := Run(cfg, s, actions[..|actions| - 1]), actions[|actions| - 1];
      StaysWithin(cfg, s, actions[..|actions| - 1], start);
      OutsideGuarded(cfg, before, a, start);
      StoreGuarded(cfg, before, a, start);
      QuotaGuarded(cfg, before, a, start);
      RecordGuarded(cfg, before, a, start);
      DeleteGuarded(cfg, before, a, start);
      PurgeGuarded(cfg, before, a, start);
    }
  }

  /** Started on any table with no request in progress, every interleaving keeps each owner's live
      bytes within the effective quota, or within what they were if that was already more. */
  lemma QuotaHolds(cfg: Config, start: State, actions: seq<Action>, owner: Owner)
    requires Enforced(cfg)
    requires start.procs == []
    ensures Usage(Run(cfg, start, actions).rows, owner) <= EffectiveQuota(cfg, owner)
         || Usage(Run(cfg, start, actions).rows, owner) <= Usage(start.rows, owner)
  {
    StaysWithin(cfg, start, actions, start.rows);
  }

  /** An upload past the check is recorded. */
  lemma ReachRecorded(cfg: Config, owner: Owner, size: nat, locks: map<Owner, Pid>) returns (s: State)
    requires Reachable(cfg, State(0, [], {0}, {}, locks, [Upload(owner, size, Cleared)]))
    ensures Reachable(cfg, s) && Usage(s.rows, owner) == size
  {
    var cleared := State(0, [], {0}, {}, locks, [Upload(owner, size, Cleared)]);
    ReachNext(cfg, cleared, Insert(0));
    s := Step(cfg, cleared, Insert(0));
    var row := Row(owner, 0, size, 0, [], None, 0);
    assert s.rows == [] + [row];
    UsageAdd([], row, owner);
  }

  /** With the quota off, or its policy unreadable, nothing is checked. */
  lemma UncheckedExceeds(cfg: Config) returns (s: State)
    requires !cfg.quotaOn || !cfg.policyReads
    ensures Reachable(cfg, s) && Usage(s.rows, 0) > EffectiveQuota(cfg, 0)
  {
    var size := EffectiveQuota(cfg, 0) + 1;
    ReachStored(cfg, 0, size);
    s := State(0, [], {0}, {}, map[], [Upload(0, size, Stored)]);
    var a := if cfg.quotaOn then PolicyReadFails(0) else TakeLock(0);
    ReachNext(cfg, s, a);
    assert Step(cfg, s, a) == State(0, [], {0}, {}, map[], [Upload(0, size, Cleared)]);
    s := ReachRecorded(cfg, 0, size, map[]);
  }

  /** With the mutex held, a check that does not see an overrun lets the upload through. */
  lemma ReachPassed(cfg: Config, owner: Owner, size: nat, overrideOk: bool, usageOk: bool)
    requires cfg.quotaOn
    requires !OverQuota(cfg, State(0, [], {0}, {}, map[owner := 0], [Upload(owner, size, Locked)]), owner, size,
                        overrideOk || cfg.overrideReads, usageOk || cfg.usageReads)
    ensures Reachable(cfg, State(0, [], {0}, {}, map[owner := 0], [Upload(owner, size, Cleared)]))
  {
    ReachStored(cfg, owner, size);
    var stored := State(0, [], {0}, {}, map[], [Upload(owner, size, Stored)]);
    var locked := State(0, [], {0}, {}, map[owner := 0], [Upload(owner, size, Locked)]);
    ReachNext(cfg, stored, TakeLock(0));
    assert Step(cfg, stored, TakeLock(0)) == locked;
    ReachNext(cfg, locked, CheckUsage(0, overrideOk, usageOk));
    assert Step(cfg, locked, CheckUsage(0, overrideOk, usageOk)) ==
      State(0, [], {0}, {}, map[owner := 0], [Upload(owner, size, Cleared)]);
  }

  /** A usage read that fails lets any upload through. */
  lemma UsageFailureExceeds(cfg: Config) returns (s: State)
    requires cfg.quotaOn && !cfg.usageReads
    ensures Reachable(cfg, s) && Usage(s.rows, 0) > EffectiveQuota(cfg, 0)
  {
    var size := EffectiveQuota(cfg, 0) + 1;
    ReachPassed(cfg, 0, size, true, false);
    s := ReachRecorded(cfg, 0, size, map[0 := 0]);
  }

  /** An override read that fails lets an owner use the global limit instead of a tighter one. */
  lemma OverrideFailureExceeds(cfg: Config, owner: Owner) returns (s: State)
    requires cfg.quotaOn && !cfg.overrideReads && EffectiveQuota(cfg, owner) < cfg.globalQuota
    ensures Reachable(cfg, s) && Usage(s.rows, owner) > EffectiveQuota(cfg, owner)
  {
    var size := cfg.globalQuota;
    ReachPassed(cfg, owner, size, false, true);
    s := ReachRecorded(cfg, owner, size, map[owner := 0]);
  }

  /** The limit of an owner is the override, above or below the global limit, and the global limit if
      there is none. It is respected in every reachable state if the quota is enforced. */
  lemma QuotaCap(cfg: Config, s: State, owner: Owner)
    requires Enforced(cfg) && Reachable(cfg, s)
    ensures cfg.override(owner).None? ==> Usage(s.rows, owner) <= cfg.globalQuota
    ensures cfg.override(owner).Some? ==> Usage(s.rows, owner) <= cfg.override(owner).value
  {
    var actions :| Run(cfg, START, actions) == s;
    QuotaHolds(cfg, START, actions, owner);
  }

  /** And it can be used up to the last byte, so an owner with a higher override gets past the global
      limit. */
  lemma QuotaIsReached(cfg: Config, owner: Owner) returns (s: State)
    ensures Reachable(cfg, s)
    ensures cfg.override(owner).None? ==> Usage(s.rows, owner) == cfg.globalQuota
    ensures cfg.override(owner).Some? ==> Usage(s.rows, owner) == cfg.override(owner).value
  {
    var size := match cfg.override(owner) case Some(quota) => quota case None => cfg.globalQuota;
    if cfg.quotaOn {
      ReachPassed(cfg, owner, size, true, true);
    } else {
      ReachUnchecked(cfg, owner, size);
    }
    s := ReachRecorded(cfg, owner, size, if cfg.quotaOn then map[owner := 0] else map[]);
  }

  lemma ReachUnchecked(cfg: Config, owner: Owner, size: nat)
    requires !cfg.quotaOn
    ensures Reachable(cfg, State(0, [], {0}, {}, map[], [Upload(owner, size, Cleared)]))
  {
    ReachStored(cfg, owner, size);
    var stored := State(0, [], {0}, {}, map[], [Upload(owner, size, Stored)]);
    ReachNext(cfg, stored, TakeLock(0));
    assert Step(cfg, stored, TakeLock(0)) == State(0, [], {0}, {}, map[], [Upload(owner, size, Cleared)]);
  }

  /** The quota is respected in every reachable state exactly when it is on, the policy and usage
      reads do not fail, and neither do the override reads unless no override is below the limit. */
  lemma QuotaSafety(cfg: Config)
    ensures (forall s, owner: Owner :: Reachable(cfg, s) ==> Usage(s.rows, owner) <= EffectiveQuota(cfg, owner))
            <==> Enforced(cfg)
  {
    if Enforced(cfg) {
      forall s, owner: Owner | Reachable(cfg, s) ensures Usage(s.rows, owner) <= EffectiveQuota(cfg, owner) {
        var actions :| Run(cfg, START, actions) == s;
        QuotaHolds(cfg, START, actions, owner);
      }
    } else if !cfg.quotaOn || !cfg.policyReads {
      var s := UncheckedExceeds(cfg);
    } else if !cfg.usageReads {
      var s := UsageFailureExceeds(cfg);
    } else {
      var owner: Owner :| EffectiveQuota(cfg, owner) < cfg.globalQuota;
      var s := OverrideFailureExceeds(cfg, owner);
    }
  }
}
