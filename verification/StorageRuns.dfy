/** Runs of the storage state machine that the possibility results need: a new upload, a cycle of the
    worker, and its second pass. */
module StorageRuns {
  import opened Storage
  import Retention

  // ---------- What the queries return ----------

  /** A purge takes at most 500 of the selected files, and all of them if they are fewer. */
  lemma CandidatesRule(cfg: Config, s: State, ids: seq<FileId>)
    requires IsCandidates(cfg, s, ids)
    ensures |ids| <= 500 && forall i, j | 0 <= i < j < |ids| :: ids[i] != ids[j]
    ensures forall id | id in ids :: id < |s.rows| && Retention.WorkerSelects(s.rows[id].File(), cfg.retention, s.now)
    ensures |ids| < 500 ==> forall id | 0 <= id < |s.rows| ::
      Retention.WorkerSelects(s.rows[id].File(), cfg.retention, s.now) ==> id in ids
  {
  }

  /** The row was deleted in the last 48 hours and is not in the purge log. */
  predicate RecentlyDeleted(s: State, id: FileId) {
    && id < |s.rows| && s.rows[id].deletedAt.Some? && id !in s.log
    && s.now - s.rows[id].deletedAt.value < 172_800_000_000
  }

  /** The second pass takes the 200 latest of these rows, or all of them, latest first. */
  lemma PendingRule(s: State, ids: seq<FileId>)
    requires IsPendingResult(s, ids)
    ensures |ids| <= 200 && forall id | id in ids :: RecentlyDeleted(s, id)
    ensures forall i, j | 0 <= i < j < |ids| ::
      ids[i] != ids[j] && s.rows[ids[i]].deletedAt.value >= s.rows[ids[j]].deletedAt.value
    ensures forall id: FileId | RecentlyDeleted(s, id) && id !in ids ::
      |ids| == 200 && forall other | other in ids :: s.rows[other].deletedAt.value >= s.rows[id].deletedAt.value
  {
    forall i, j | 0 <= i < j < |ids| ensures s.rows[ids[i]].deletedAt.value >= s.rows[ids[j]].deletedAt.value {
      assert NoEarlier(s, ids[i], ids[j]);
    }
    forall id: FileId, other | RecentlyDeleted(s, id) && id !in ids && other in ids
      ensures s.rows[other].deletedAt.value >= s.rows[id].deletedAt.value
    {
      var i :| 0 <= i < |ids| && ids[i] == other;
      assert Pending(s, id) && NoEarlier(s, ids[i], id);
    }
  }

  // ---------- Results the queries can return ----------

  /** The candidates, beginning with the given ones. */
  lemma {:induction false} CandidatesFrom(cfg: Config, s: State, start: seq<FileId>) returns (ids: seq<FileId>)
    requires Distinct(start) && |start| <= MAX_FILES_PER_CYCLE
    requires forall i | 0 <= i < |start| :: Selected(cfg, s, start[i])
    ensures IsCandidates(cfg, s, ids) && start <= ids
    decreases MAX_FILES_PER_CYCLE - |start|
  {
    if |start| < MAX_FILES_PER_CYCLE && exists id :: 0 <= id < |s.rows| && Selected(cfg, s, id) && id !in start {
      var id :| 0 <= id < |s.rows| && Selected(cfg, s, id) && id !in start;
      ids := CandidatesFrom(cfg, s, start + [id]);
      assert start <= start + [id];
    } else {
      ids := start;
    }
  }

  predicate Left(s: State, ids: seq<FileId>, id: FileId) {
    Pending(s, id) && id !in ids
  }

  /** Of the pending rows below n that are not taken yet, the one deleted last. */
  lemma {:induction false} LatestLeft(s: State, ids: seq<FileId>, n: nat) returns (latest: FileId)
    requires n <= |s.rows| && exists id :: 0 <= id < n && Left(s, ids, id)
    ensures latest < n && Left(s, ids, latest)
    ensures forall id | 0 <= id < n :: Left(s, ids, id) ==> NoEarlier(s, latest, id)
  {
    if exists id :: 0 <= id < n - 1 && Left(s, ids, id) {
      latest := LatestLeft(s, ids, n - 1);
      if Left(s, ids, n - 1) && !NoEarlier(s, latest, n - 1) {
        latest := n - 1;
      }
    } else {
      latest := n - 1;
    }
  }

  /** The pending rows deleted last, as far as they are taken. */
  ghost predicate TakenInOrder(s: State, ids: seq<FileId>) {
    && Distinct(ids) && |ids| <= ORPHAN_LIMIT
    && (forall i | 0 <= i < |ids| :: Pending(s, ids[i]))
    && (forall i, j | 0 <= i < j < |ids| :: NoEarlier(s, ids[i], ids[j]))
    && (forall id, i | 0 <= id < |s.rows| && 0 <= i < |ids| :: Left(s, ids, id) ==> NoEarlier(s, ids[i], id))
  }

  lemma TakeNext(s: State, ids: seq<FileId>, latest: FileId)
    requires TakenInOrder(s, ids) && |ids| < ORPHAN_LIMIT
    requires latest < |s.rows| && Left(s, ids, latest)
    requires forall id | 0 <= id < |s.rows| :: Left(s, ids, id) ==> NoEarlier(s, latest, id)
    ensures TakenInOrder(s, ids + [latest])
  {
    var more := ids + [latest];
    forall id, i | 0 <= id < |s.rows| && 0 <= i < |more| && Left(s, more, id) ensures NoEarlier(s, more[i], id) {
      assert Left(s, ids, id);
    }
    forall i, j | 0 <= i < j < |more| ensures NoEarlier(s, more[i], more[j]) {
      if j == |ids| { assert NoEarlier(s, ids[i], latest); }
    }
  }

  lemma {:induction false} PendingResult(s: State, start: seq<FileId>) returns (ids: seq<FileId>)
    requires TakenInOrder(s, start)
    ensures IsPendingResult(s, ids)
    decreases ORPHAN_LIMIT - |start|
  {
    if |start| < ORPHAN_LIMIT && exists id :: 0 <= id < |s.rows| && Left(s, start, id) {
      var latest := LatestLeft(s, start, |s.rows|);
      TakeNext(s, start, latest);
      ids := PendingResult(s, start + [latest]);
    } else {
      ids := start;
      forall id | 0 <= id < |s.rows| && Pending(s, id) && |ids| < ORPHAN_LIMIT ensures id in ids {
        assert !Left(s, start, id);
      }
      forall id, i | 0 <= id < |s.rows| && 0 <= i < |ids| && Pending(s, id) && id !in ids
        ensures NoEarlier(s, ids[i], id)
      {
        assert Left(s, ids, id);
      }
    }
  }

  // ---------- Passes ----------

  /** A first pass all of whose statements fail leaves everything as it is. */
  lemma {:induction false} SkipAll(cfg: Config, s: State, p: Pid)
    requires p < |s.procs| && s.procs[p].Purge? && s.procs[p].purger == WorkerCycle && s.procs[p].ppc == Flip
    requires forall i | 0 <= i < |s.procs[p].todo| :: s.procs[p].todo[i] < |s.rows|
    ensures Reaches(cfg, s, Move(s, p, Purge(WorkerCycle, [], Flip, s.procs[p].freed)))
    decreases |s.procs[p].todo|
  {
    var q := s.procs[p];
    ReachesStart(cfg, s);
    if q.todo == [] {
      assert Move(s, p, q) == s;
    } else {
      var s' := Move(s, p, Purge(WorkerCycle, q.todo[1..], Flip, q.freed));
      ReachesNext(cfg, s, s, PurgeFlip(p, false));
      assert Step(cfg, s, PurgeFlip(p, false)) == s';
      SkipAll(cfg, s', p);
      ReachesOn(cfg, s, s', Move(s', p, Purge(WorkerCycle, [], Flip, q.freed)));
      assert Move(s', p, Purge(WorkerCycle, [], Flip, q.freed)) == Move(s, p, Purge(WorkerCycle, [], Flip, q.freed));
    }
  }

  function Ids(ids: seq<FileId>): set<FileId> {
    set i | 0 <= i < |ids| :: ids[i]
  }

  /** The state after a second pass has gone over its first n rows, with every delete failing, and
      with the log entries written or not. */
  function PassedOver(s: State, p: Pid, ids: seq<FileId>, n: nat, freed: nat, logs: bool): State
    requires p < |s.procs| && n <= |ids|
  {
    Move(s, p, Purge(OrphanPass, ids[n..], Drop, freed)).(log := if logs then s.log + Ids(ids[..n]) else s.log)
  }

  lemma PassOne(cfg: Config, s: State, p: Pid, ids: seq<FileId>, freed: nat, logs: bool)
    requires p < |s.procs| && s.procs[p] == Purge(OrphanPass, ids, Drop, freed)
    requires ids != [] && ids[0] < |s.rows|
    ensures Reaches(cfg, s, Move(s, p, Purge(OrphanPass, ids[1..], Drop, freed)).(
              log := if logs then s.log + {ids[0]} else s.log))
  {
    ReachesStart(cfg, s);
    var dropped := Move(s, p, Purge(OrphanPass, ids, Log, freed));
    ReachesNext(cfg, s, s, PurgeDrop(p, false));
    assert Step(cfg, s, PurgeDrop(p, false)) == dropped;
    ReachesNext(cfg, s, dropped, PurgeLog(p, logs));
    assert Step(cfg, dropped, PurgeLog(p, logs)) ==
      Move(s, p, Purge(OrphanPass, ids[1..], Drop, freed)).(log := if logs then s.log + {ids[0]} else s.log);
  }

  lemma PassedOverNext(s: State, p: Pid, ids: seq<FileId>, n: nat, freed: nat, logs: bool)
    requires p < |s.procs| && 0 < n <= |ids|
    ensures
      var m := PassedOver(s, p, ids, n - 1, freed, logs);
      && ids[n - 1..] != [] && ids[n - 1..][0] == ids[n - 1] && ids[n - 1..][1..] == ids[n..]
      && p < |m.procs| && PassedOver(s, p, ids, n, freed, logs) ==
           Move(m, p, Purge(OrphanPass, ids[n..], Drop, freed)).(log := if logs then m.log + {ids[n - 1]} else m.log)
  {
    assert ids[..n] == ids[..n - 1] + [ids[n - 1]];
    assert Ids(ids[..n]) == Ids(ids[..n - 1]) + {ids[n - 1]};
  }

  lemma {:induction false} PassOver(cfg: Config, s: State, p: Pid, ids: seq<FileId>, n: nat, freed: nat, logs: bool)
    requires p < |s.procs| && s.procs[p] == Purge(OrphanPass, ids, Drop, freed)
    requires n <= |ids| && forall i | 0 <= i < |ids| :: ids[i] < |s.rows|
    ensures Reaches(cfg, s, PassedOver(s, p, ids, n, freed, logs))
  {
    if n == 0 {
      ReachesStart(cfg, s);
      assert PassedOver(s, p, ids, 0, freed, logs) == s;
    } else {
      var m := PassedOver(s, p, ids, n - 1, freed, logs);
      PassOver(cfg, s, p, ids, n - 1, freed, logs);
      PassOne(cfg, m, p, ids[n - 1..], freed, logs);
      PassedOverNext(s, p, ids, n, freed, logs);
      ReachesOn(cfg, s, m, PassedOver(s, p, ids, n, freed, logs));
    }
  }

  lemma PassAll(cfg: Config, s: State, p: Pid, ids: seq<FileId>, freed: nat, logs: bool)
    requires p < |s.procs| && s.procs[p] == Purge(OrphanPass, ids, Drop, freed)
    requires forall i | 0 <= i < |ids| :: ids[i] < |s.rows|
    ensures Reaches(cfg, s, Move(s, p, Purge(OrphanPass, [], Drop, freed)).(
              log := if logs then s.log + Ids(ids) else s.log))
  {
    PassOver(cfg, s, p, ids, |ids|, freed, logs);
    assert ids[|ids|..] == [] && ids[..|ids|] == ids;
  }

  // ---------- One worker ----------

  predicate InCycle(proc: Proc) {
    proc.Purge? && (proc.purger == WorkerCycle || (proc.purger == OrphanPass && proc.todo != []))
  }

  ghost predicate AtMostOneCycle(s: State) {
    forall p, q | 0 <= p < q < |s.procs| :: !(InCycle(s.procs[p]) && InCycle(s.procs[q]))
  }

  /** A step of p that does not bring it into a cycle, or does when there is none. */
  lemma OneCycleFrame(s: State, s': State, p: Pid)
    requires AtMostOneCycle(s) && |s.procs| <= |s'.procs|
    requires forall q | 0 <= q < |s'.procs| :: q != p ==> q < |s.procs| && s'.procs[q] == s.procs[q]
    requires p < |s'.procs| && InCycle(s'.procs[p]) ==> NoCycle(s) || (p < |s.procs| && InCycle(s.procs[p]))
    ensures AtMostOneCycle(s')
  {
    forall a, b | 0 <= a < b < |s'.procs| ensures !(InCycle(s'.procs[a]) && InCycle(s'.procs[b])) {
      var x, y := s'.procs[a], s'.procs[b];
      assert a != p ==> a < |s.procs| && s.procs[a] == x;
      assert b != p ==> b < |s.procs| && s.procs[b] == y;
      if a < |s.procs| && b < |s.procs| {
        assert !(InCycle(s.procs[a]) && InCycle(s.procs[b]));
      }
    }
  }

  lemma UploadOneCycle(cfg: Config, s: State, a: Action)
    requires AtMostOneCycle(s)
    ensures AtMostOneCycle(OutsideStep(cfg, s, a)) && AtMostOneCycle(StoreStep(s, a))
  {
    if StoreStep(s, a) != s { OneCycleFrame(s, StoreStep(s, a), if a.BeginUpload? then |s.procs| else a.p); }
  }

  lemma RecordOneCycle(cfg: Config, s: State, a: Action)
    requires AtMostOneCycle(s)
    ensures AtMostOneCycle(QuotaStep(cfg, s, a)) && AtMostOneCycle(RecordStep(cfg, s, a))
  {
    if QuotaStep(cfg, s, a) != s { OneCycleFrame(s, QuotaStep(cfg, s, a), a.p); }
    if RecordStep(cfg, s, a) != s { OneCycleFrame(s, RecordStep(cfg, s, a), a.p); }
  }

  lemma PurgeOneCycle(cfg: Config, s: State, a: Action)
    requires AtMostOneCycle(s) && cfg.oneWorker
    ensures AtMostOneCycle(DeleteStep(s, a)) && AtMostOneCycle(PurgeStep(cfg, s, a))
  {
    if DeleteStep(s, a) != s { OneCycleFrame(s, DeleteStep(s, a), if a.BeginDelete? then |s.procs| else a.p); }
    if PurgeStep(cfg, s, a) != s { OneCycleFrame(s, PurgeStep(cfg, s, a), if a.BeginPurge? then |s.procs| else a.p); }
  }

  /** With one worker no two cycles are ever in progress at the same time. */
  lemma {:induction false} OneCycleAtATime(cfg: Config, actions: seq<Action>)
    requires cfg.oneWorker
    ensures AtMostOneCycle(Run(cfg, START, actions))
    decreases |actions|
  {
    if actions != [] {
      var before, a := Run(cfg, START, actions[..|actions| - 1]), actions[|actions| - 1];
      OneCycleAtATime(cfg, actions[..|actions| - 1]);
      UploadOneCycle(cfg, before, a);
      RecordOneCycle(cfg, before, a);
      PurgeOneCycle(cfg, before, a);
    }
  }

  // ---------- The cycles in progress ----------

  /** No cycle is in its first pass, and the second passes have rows to go over. */
  ghost predicate SecondPassesOnly(s: State) {
    forall q | 0 <= q < |s.procs| && s.procs[q].Purge? ::
      && s.procs[q].purger != WorkerCycle
      && (s.procs[q].purger == OrphanPass ==> s.procs[q].ppc != Flip && AllGone(s.rows, s.procs[q].todo))
  }

  /** A second pass can come to its end without a trace. */
  lemma EndSecondPass(cfg: Config, s: State, q: Pid)
    requires SecondPassesOnly(s) && q < |s.procs| && s.procs[q].Purge? && s.procs[q].purger == OrphanPass
    ensures
      var ppc := if s.procs[q].todo == [] then s.procs[q].ppc else Drop;
      Reaches(cfg, s, Move(s, q, Purge(OrphanPass, [], ppc, s.procs[q].freed)))
  {
    var proc := s.procs[q];
    forall i | 0 <= i < |proc.todo| ensures proc.todo[i] < |s.rows| {
      assert Gone(s.rows, proc.todo[i]);
    }
    ReachesStart(cfg, s);
    if proc.todo == [] {
      assert Move(s, q, proc) == s;
    } else if proc.ppc == Drop {
      PassAll(cfg, s, q, proc.todo, proc.freed, false);
    } else {
      var next := Move(s, q, Purge(OrphanPass, proc.todo[1..], Drop, proc.freed));
      ReachesNext(cfg, s, s, PurgeLog(q, false));
      assert Step(cfg, s, PurgeLog(q, false)) == next;
      PassAll(cfg, next, q, proc.todo[1..], proc.freed, false);
      assert Move(next, q, Purge(OrphanPass, [], Drop, proc.freed)) ==
        Move(s, q, Purge(OrphanPass, [], Drop, proc.freed));
      ReachesOn(cfg, s, next, Move(s, q, Purge(OrphanPass, [], Drop, proc.freed)));
    }
  }

  /** The cycles in progress come to their end, one after the other; nobody else moves. */
  lemma {:induction false} ReachNoCycle(cfg: Config, s: State, n: nat) returns (s': State)
    requires SecondPassesOnly(s) && n <= |s.procs|
    ensures Reaches(cfg, s, s') && SecondPassesOnly(s') && s' == s.(procs := s'.procs) && |s'.procs| == |s.procs|
    ensures forall q | 0 <= q < |s.procs| :: !s.procs[q].Purge? ==> s'.procs[q] == s.procs[q]
    ensures forall q | 0 <= q < n && s'.procs[q].Purge? :: s'.procs[q].purger == AdminHandler || s'.procs[q].todo == []
    ensures n == |s.procs| ==> NoCycle(s')
  {
    if n == 0 {
      s' := s;
      ReachesStart(cfg, s);
    } else {
      var m := ReachNoCycle(cfg, s, n - 1);
      var proc := m.procs[n - 1];
      if proc.Purge? && proc.purger == OrphanPass {
        s' := Move(m, n - 1, Purge(OrphanPass, [], if proc.todo == [] then proc.ppc else Drop, proc.freed));
        EndSecondPass(cfg, m, n - 1);
        ReachesOn(cfg, s, m, s');
      } else {
        s' := m;
      }
    }
  }

  // ---------- A cycle ----------

  ghost function PendingSet(s: State): set<FileId> {
    set id: FileId | id < |s.rows| && Pending(s, id)
  }

  /** A cycle whose first pass marks nothing comes to its end. */
  lemma ReachFirstPassDone(cfg: Config, s: State, c: FileId)
    requires cfg.retention.enabled && NoCycle(s) && Selected(cfg, s, c)
    ensures Reaches(cfg, s, Spawn(s, Purge(WorkerCycle, [], Flip, 0)))
  {
    var p := |s.procs|;
    var ids := CandidatesFrom(cfg, s, [c]);
    var begun := Spawn(s, Purge(WorkerCycle, ids, Flip, 0));
    ReachesStart(cfg, s);
    ReachesNext(cfg, s, s, BeginPurge(WorkerCycle, ids));
    assert Step(cfg, s, BeginPurge(WorkerCycle, ids)) == begun;
    forall i | 0 <= i < |ids| ensures ids[i] < |s.rows| {
      assert Selected(cfg, s, ids[i]);
    }
    SkipAll(cfg, begun, p);
    assert Move(begun, p, Purge(WorkerCycle, [], Flip, 0)) == Spawn(s, Purge(WorkerCycle, [], Flip, 0));
    ReachesOn(cfg, s, begun, Spawn(s, Purge(WorkerCycle, [], Flip, 0)));
  }

  lemma ReachSecondPass(cfg: Config, s: State, c: FileId, q: seq<FileId>)
    requires cfg.retention.enabled && NoCycle(s) && Selected(cfg, s, c) && IsPendingResult(s, q)
    ensures Reaches(cfg, s, Spawn(s, Purge(OrphanPass, q, Drop, 0)))
  {
    var done := Spawn(s, Purge(WorkerCycle, [], Flip, 0));
    ReachFirstPassDone(cfg, s, c);
    SamePending(s, done, q);
    ReachesNext(cfg, s, done, BeginOrphans(|s.procs|, q));
    assert Step(cfg, done, BeginOrphans(|s.procs|, q)) == Spawn(s, Purge(OrphanPass, q, Drop, 0));
  }

  lemma SamePending(s: State, s': State, q: seq<FileId>)
    requires s'.rows == s.rows && s'.now == s.now && s'.log == s.log && IsPendingResult(s, q)
    ensures IsPendingResult(s', q)
  {
    assert forall id: FileId :: Pending(s', id) == Pending(s, id);
    assert forall a: FileId, b: FileId :: NoEarlier(s', a, b) == NoEarlier(s, a, b);
  }

  lemma SameSelected(cfg: Config, s: State, s': State, c: FileId)
    requires s'.rows == s.rows && s'.now == s.now && Selected(cfg, s, c)
    ensures Selected(cfg, s', c)
  {
  }

  /** A cycle that takes the object of the k-th row of its second pass. */
  lemma CycleTakes(cfg: Config, s: State, c: FileId, q: seq<FileId>, k: nat) returns (s': State)
    requires cfg.retention.enabled && NoCycle(s) && Selected(cfg, s, c) && IsPendingResult(s, q) && k < |q|
    ensures q[k] < |s.rows| && Reaches(cfg, s, s') && s.rows[q[k]].key !in s'.objects
  {
    var p, second := |s.procs|, Spawn(s, Purge(OrphanPass, q, Drop, 0));
    ReachSecondPass(cfg, s, c, q);
    forall i | 0 <= i < |q| ensures q[i] < |s.rows| {
      assert Pending(s, q[i]);
    }
    PassOver(cfg, second, p, q, k, 0, true);
    var m := PassedOver(second, p, q, k, 0, true);
    ReachesOn(cfg, s, second, m);
    ReachesNext(cfg, s, m, PurgeDrop(p, true));
    s' := Step(cfg, m, PurgeDrop(p, true));
  }

  /** A cycle that marks nothing, drops nothing, and logs what its second pass goes over. */
  lemma CycleLogs(cfg: Config, s: State, c: FileId, q: seq<FileId>) returns (s': State)
    requires cfg.retention.enabled && NoCycle(s) && Selected(cfg, s, c) && IsPendingResult(s, q)
    ensures Reaches(cfg, s, s') && NoCycle(s')
    ensures s'.rows == s.rows && s'.now == s.now && s'.log == s.log + Ids(q)
  {
    var p, second := |s.procs|, Spawn(s, Purge(OrphanPass, q, Drop, 0));
    ReachSecondPass(cfg, s, c, q);
    forall i | 0 <= i < |q| ensures q[i] < |s.rows| {
      assert Pending(s, q[i]);
    }
    PassAll(cfg, second, p, q, 0, true);
    s' := Move(second, p, Purge(OrphanPass, [], Drop, 0)).(log := s.log + Ids(q));
    ReachesOn(cfg, s, second, s');
  }

  /** While some file is selected, cycles can go on until the object of a pending row is dropped: each
      second pass takes it or logs others before it. */
  lemma {:induction false} CyclesDrop(cfg: Config, s: State, id: FileId, c: FileId) returns (s': State)
    requires cfg.retention.enabled && NoCycle(s) && Selected(cfg, s, c) && Pending(s, id)
    ensures Reaches(cfg, s, s') && s.rows[id].key !in s'.objects
    decreases |PendingSet(s)|
  {
    var q := PendingResult(s, []);
    if id in q {
      var k :| 0 <= k < |q| && q[k] == id;
      s' := CycleTakes(cfg, s, c, q, k);
    } else {
      var m := CycleLogs(cfg, s, c, q);
      FewerPending(s, m, q, id);
      SameSelected(cfg, s, m, c);
      s' := CyclesDrop(cfg, m, id, c);
      ReachesOn(cfg, s, m, s');
    }
  }

  lemma FewerPending(s: State, m: State, q: seq<FileId>, id: FileId)
    requires IsPendingResult(s, q) && Pending(s, id) && id !in q
    requires m.rows == s.rows && m.now == s.now && m.log == s.log + Ids(q)
    ensures |PendingSet(m)| < |PendingSet(s)| && Pending(m, id)
  {
    assert Pending(s, q[0]) && q[0] in Ids(q);
    assert q[0] in PendingSet(s) && q[0] !in PendingSet(m);
    assert PendingSet(m) <= PendingSet(s) - {q[0]};
    Subset(PendingSet(m), PendingSet(s) - {q[0]});
  }

  lemma {:induction false} Subset(a: set<FileId>, b: set<FileId>)
    requires a <= b
    ensures |a| <= |b|
  {
    if a != {} {
      var x :| x in a;
      Subset(a - {x}, b - {x});
    }
  }

  // ---------- A new upload ----------

  lemma {:induction false} Bound(a: set<nat>) returns (b: nat)
    ensures forall x | x in a :: x < b
  {
    if a == {} {
      b := 0;
    } else {
      var x :| x in a;
      b := Bound(a - {x});
      if b <= x { b := x + 1; }
      assert forall y | y in a :: y == x || y in a - {x};
    }
  }

  lemma {:induction false} UsageOfNobody(rows: seq<Row>, owner: Owner)
    requires forall i | 0 <= i < |rows| :: rows[i].owner != owner
    ensures Usage(rows, owner) == 0
  {
    if rows != [] {
      UsageOfNobody(rows[..|rows| - 1], owner);
    }
  }

  /** Somebody without files and without an upload at the quota check. */
  lemma NewOwner(s: State) returns (owner: Owner)
    ensures owner !in s.locks && Usage(s.rows, owner) == 0
  {
    var owners := set i | 0 <= i < |s.rows| :: s.rows[i].owner;
    owner := Bound(s.locks.Keys + owners);
    assert forall i | 0 <= i < |s.rows| :: s.rows[i].owner in owners;
    UsageOfNobody(s.rows, owner);
  }

  /** The state of an upload by a new owner, past the given point. */
  function Uploading(s: State, owner: Owner, pc: UploadPc, locks: map<Owner, Pid>): State {
    Spawn(s, Upload(owner, 0, pc)).(objects := s.objects + {|s.procs|}, locks := locks)
  }

  lemma ReachUploaded(cfg: Config, s: State, owner: Owner)
    ensures Reaches(cfg, s, Uploading(s, owner, Stored, s.locks))
  {
    ReachesStart(cfg, s);
    ReachesNext(cfg, s, s, BeginUpload(owner, 0));
    var begun := Spawn(s, Upload(owner, 0, Streaming));
    assert Step(cfg, s, BeginUpload(owner, 0)) == begun;
    ReachesNext(cfg, s, begun, StoreObject(|s.procs|));
    assert Step(cfg, begun, StoreObject(|s.procs|)) == Uploading(s, owner, Stored, s.locks);
  }

  lemma ReachPassed(cfg: Config, s: State, owner: Owner) returns (locks: map<Owner, Pid>)
    requires owner !in s.locks && Usage(s.rows, owner) == 0
    ensures Reaches(cfg, s, Uploading(s, owner, Cleared, locks))
  {
    ReachUploaded(cfg, s, owner);
    var p, stored := |s.procs|, Uploading(s, owner, Stored, s.locks);
    ReachesNext(cfg, s, stored, TakeLock(p));
    if cfg.quotaOn {
      locks := s.locks[owner := p];
      var locked := Uploading(s, owner, Locked, locks);
      assert Step(cfg, stored, TakeLock(p)) == locked;
      ReachesNext(cfg, s, locked, CheckUsage(p, true, true));
      assert Step(cfg, locked, CheckUsage(p, true, true)) == Uploading(s, owner, Cleared, locks);
    } else {
      locks := s.locks;
      assert Step(cfg, stored, TakeLock(p)) == Uploading(s, owner, Cleared, locks);
    }
  }

  /** From every state an empty file can still be uploaded: its row is the last one, and nothing else
      in the tables changes. */
  lemma ReachNewFile(cfg: Config, s: State) returns (s': State)
    ensures Reaches(cfg, s, s')
    ensures s'.now == s.now && s'.log == s.log && |s'.rows| == |s.rows| + 1 && s'.rows[..|s.rows|] == s.rows
    ensures s'.rows[|s.rows|].createdAt == s.now && s'.rows[|s.rows|].shares == [] && !s'.rows[|s.rows|].Deleted()
    ensures |s.procs| <= |s'.procs| && s'.procs[..|s.procs|] == s.procs && (NoCycle(s) ==> NoCycle(s'))
  {
    var owner := NewOwner(s);
    var locks := ReachPassed(cfg, s, owner);
    var cleared := Uploading(s, owner, Cleared, locks);
    ReachesNext(cfg, s, cleared, Insert(|s.procs|));
    s' := Step(cfg, cleared, Insert(|s.procs|));
  }
}
