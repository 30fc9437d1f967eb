/** What a purge reports as freed, against what it marked itself. */
module StorageFreed {
  import opened Storage
  import opened StorageSafety

  /** Bytes of the files the given request was the first to mark as deleted. */
  function Flipped(rows: seq<Row>, p: Pid): nat {
    if rows == [] then 0
    else
      var last := rows[|rows| - 1];
      Flipped(rows[..|rows| - 1], p) + if last.Deleted() && last.flippedBy == p then last.size else 0
  }

  lemma {:induction false} FlippedFlip(rows: seq<Row>, id: FileId, p: Pid, now: int, restamp: bool, q: Pid)
    requires id < |rows|
    ensures Flipped(FlipRow(rows, id, p, now, restamp), q) ==
      Flipped(rows, q) + if q == p && !rows[id].Deleted() then rows[id].size else 0
  {
    var rows' := FlipRow(rows, id, p, now, restamp);
    var n := |rows| - 1;
    if id == n {
      assert rows'[..n] == rows[..n];
    } else {
      FlippedFlip(rows[..n], id, p, now, restamp, q);
      assert rows'[..n] == FlipRow(rows[..n], id, p, now, restamp);
      assert rows'[n] == rows[n];
    }
  }

  lemma FlippedAdd(rows: seq<Row>, row: Row, p: Pid)
    requires !row.Deleted()
    ensures Flipped(rows + [row], p) == Flipped(rows, p)
  {
    assert (rows + [row])[..|rows|] == rows;
  }

  ghost predicate SameMarks(rows: seq<Row>, rows': seq<Row>) {
    && |rows'| == |rows|
    && forall i | 0 <= i < |rows| ::
         rows'[i].size == rows[i].size && rows'[i].Deleted() == rows[i].Deleted()
           && rows'[i].flippedBy == rows[i].flippedBy
  }

  lemma {:induction false} FlippedSame(rows: seq<Row>, rows': seq<Row>, p: Pid)
    requires SameMarks(rows, rows')
    ensures Flipped(rows', p) == Flipped(rows, p)
  {
    if rows != [] {
      FlippedSame(rows[..|rows| - 1], rows'[..|rows| - 1], p);
    }
  }

  lemma {:induction false} FlippedByNobody(rows: seq<Row>, p: Pid)
    requires forall i | 0 <= i < |rows| :: rows[i].Deleted() ==> rows[i].flippedBy != p
    ensures Flipped(rows, p) == 0
  {
    if rows != [] {
      FlippedByNobody(rows[..|rows| - 1], p);
    }
  }

  // ---------- One step ----------

  ghost predicate MarkersKnown(s: State) {
    forall i | 0 <= i < |s.rows| :: s.rows[i].Deleted() ==> s.rows[i].flippedBy < |s.procs|
  }

  predicate IsPurge(s: State, p: Pid) {
    p < |s.procs| && s.procs[p].Purge?
  }

  /** The purge is about to run its UPDATE, which will work, on a row that is already deleted. */
  predicate FindsDeleted(s: State, a: Action, p: Pid) {
    a == PurgeFlip(p, true) && AtCandidate(s, p, Flip) && s.rows[s.procs[p].todo[0]].Deleted()
  }

  /** What it then takes credit for; the admin handler looks at the affected count and takes none. */
  function StaleBytes(s: State, a: Action, p: Pid): nat {
    if FindsDeleted(s, a, p) && s.procs[p].purger != AdminHandler then s.rows[s.procs[p].todo[0]].size else 0
  }

  /** Rows that only change outside of purges and deletes keep what each request has marked. */
  lemma MarksElsewhere(cfg: Config, s: State, a: Action, p: Pid)
    requires !a.SoftDelete? && !a.PurgeFlip?
    ensures Flipped(Step(cfg, s, a).rows, p) == Flipped(s.rows, p)
  {
    var s' := Step(cfg, s, a);
    if a.AddShare? || a.EndShare? {
      FlippedSame(s.rows, s'.rows, p);
    } else if s'.rows != s.rows {
      assert s'.rows == s.rows + [s'.rows[|s.rows|]];
      FlippedAdd(s.rows, s'.rows[|s.rows|], p);
    }
  }

  lemma UploadMarkersKnown(cfg: Config, s: State, a: Action)
    requires MarkersKnown(s)
    ensures MarkersKnown(StoreStep(s, a)) && MarkersKnown(QuotaStep(cfg, s, a)) && MarkersKnown(RecordStep(cfg, s, a))
  {
  }

  lemma StepMarkersKnown(cfg: Config, s: State, a: Action)
    requires MarkersKnown(s)
    ensures MarkersKnown(Step(cfg, s, a))
  {
    UploadMarkersKnown(cfg, s, a);
  }

  predicate IsPurgeAction(a: Action) {
    a.BeginPurge? || a.BeginOrphans? || a.SkipOrphans? || a.PurgeFlip? || a.PurgeDrop? || a.PurgeLog?
  }

  lemma UploadLeavesPurge(cfg: Config, s: State, a: Action, p: Pid)
    requires IsPurge(s, p)
    ensures IsPurge(StoreStep(s, a), p) && StoreStep(s, a).procs[p] == s.procs[p]
    ensures IsPurge(QuotaStep(cfg, s, a), p) && QuotaStep(cfg, s, a).procs[p] == s.procs[p]
    ensures IsPurge(RecordStep(cfg, s, a), p) && RecordStep(cfg, s, a).procs[p] == s.procs[p]
  {
  }

  /** Only its own actions move a purge. */
  lemma OthersLeavePurge(cfg: Config, s: State, a: Action, p: Pid)
    requires IsPurge(s, p) && (IsPurgeAction(a) ==> a.BeginPurge? || a.p != p)
    ensures IsPurge(Step(cfg, s, a), p) && Step(cfg, s, a).procs[p] == s.procs[p]
  {
    UploadLeavesPurge(cfg, s, a, p);
  }

  lemma DeleteFlips(cfg: Config, s: State, a: Action, p: Pid)
    requires a.SoftDelete? && IsPurge(s, p)
    ensures Flipped(Step(cfg, s, a).rows, p) == Flipped(s.rows, p)
  {
    if Step(cfg, s, a).rows != s.rows {
      FlippedFlip(s.rows, s.procs[a.p].target, a.p, s.now, s.procs[a.p].byAdmin, p);
    }
  }

  lemma PurgeFlips(cfg: Config, s: State, q: Pid, ok: bool, p: Pid)
    requires IsPurge(s, p)
    ensures
      var s' := Step(cfg, s, PurgeFlip(q, ok));
      && IsPurge(s', p) && s'.procs[p].purger == s.procs[p].purger
      && s'.procs[p].freed - Flipped(s'.rows, p) ==
           s.procs[p].freed - Flipped(s.rows, p) + StaleBytes(s, PurgeFlip(q, ok), p)
  {
    if AtCandidate(s, q, Flip) {
      FlippedFlip(s.rows, s.procs[q].todo[0], q, s.now, false, p);
    }
  }

  lemma PurgeMoves(cfg: Config, s: State, a: Action, p: Pid)
    requires IsPurge(s, p) && (a.BeginPurge? || a.BeginOrphans? || a.SkipOrphans? || a.PurgeDrop? || a.PurgeLog?)
    ensures IsPurge(Step(cfg, s, a), p) && Step(cfg, s, a).procs[p].freed == s.procs[p].freed
    ensures s.procs[p].purger == AdminHandler <==> Step(cfg, s, a).procs[p].purger == AdminHandler
  {
  }

  lemma StepFreed(cfg: Config, s: State, a: Action, p: Pid)
    requires IsPurge(s, p)
    ensures IsPurge(Step(cfg, s, a), p)
    ensures s.procs[p].purger == AdminHandler <==> Step(cfg, s, a).procs[p].purger == AdminHandler
    ensures Step(cfg, s, a).procs[p].freed - Flipped(Step(cfg, s, a).rows, p) ==
      s.procs[p].freed - Flipped(s.rows, p) + StaleBytes(s, a, p)
  {
    if a.PurgeFlip? {
      PurgeFlips(cfg, s, a.p, a.ok, p);
    } else if IsPurgeAction(a) {
      PurgeMoves(cfg, s, a, p);
      MarksElsewhere(cfg, s, a, p);
    } else {
      OthersLeavePurge(cfg, s, a, p);
      if a.SoftDelete? { DeleteFlips(cfg, s, a, p); } else { MarksElsewhere(cfg, s, a, p); }
    }
  }

  // ---------- Runs ----------

  function StaleAt(cfg: Config, s: State, actions: seq<Action>, i: nat, p: Pid): nat
    requires i < |actions|
  {
    StaleBytes(Run(cfg, s, actions[..i]), actions[i], p)
  }

  /** Bytes the purge takes credit for in the first n steps of a run although it finds the rows
      deleted. */
  function StaleIn(cfg: Config, s: State, actions: seq<Action>, n: nat, p: Pid): nat
    requires n <= |actions|
  {
    if n == 0 then 0 else StaleIn(cfg, s, actions, n - 1, p) + StaleAt(cfg, s, actions, n - 1, p)
  }

  lemma RunNext(cfg: Config, s: State, actions: seq<Action>, n: nat)
    requires n < |actions|
    ensures Run(cfg, s, actions[..n + 1]) == Step(cfg, Run(cfg, s, actions[..n]), actions[n])
  {
    assert actions[..n + 1][..n] == actions[..n];
  }

  lemma {:induction false} RunFreed(cfg: Config, s: State, actions: seq<Action>, n: nat, p: Pid)
    requires IsPurge(s, p) && n <= |actions|
    ensures
      var s' := Run(cfg, s, actions[..n]);
      && IsPurge(s', p)
      && (s.procs[p].purger == AdminHandler <==> s'.procs[p].purger == AdminHandler)
      && s'.procs[p].freed - Flipped(s'.rows, p) ==
        s.procs[p].freed - Flipped(s.rows, p) + StaleIn(cfg, s, actions, n, p)
  {
    if n == 0 {
      assert actions[..0] == [];
    } else {
      RunFreed(cfg, s, actions, n - 1, p);
      RunNext(cfg, s, actions, n - 1);
      StepFreed(cfg, Run(cfg, s, actions[..n - 1]), actions[n - 1], p);
    }
  }

  lemma {:induction false} StaleZero(cfg: Config, s: State, actions: seq<Action>, n: nat, p: Pid)
    requires n <= |actions|
    ensures StaleIn(cfg, s, actions, n, p) == 0 <==> forall i | 0 <= i < n :: StaleAt(cfg, s, actions, i, p) == 0
  {
    if n > 0 {
      StaleZero(cfg, s, actions, n - 1, p);
    }
  }

  lemma {:induction false} ReachableMarkersKnown(cfg: Config, actions: seq<Action>)
    ensures MarkersKnown(Run(cfg, START, actions))
    decreases |actions|
  {
    if actions != [] {
      ReachableMarkersKnown(cfg, actions[..|actions| - 1]);
      StepMarkersKnown(cfg, Run(cfg, START, actions[..|actions| - 1]), actions[|actions| - 1]);
    }
  }

  /** A purge that has just begun. */
  ghost predicate Begins(cfg: Config, s: State, purger: Purger, ids: seq<FileId>) {
    Reachable(cfg, s) && Step(cfg, s, BeginPurge(purger, ids)) != s
  }

  lemma NothingFreedYet(cfg: Config, s: State, purger: Purger, ids: seq<FileId>)
    requires Begins(cfg, s, purger, ids)
    ensures Step(cfg, s, BeginPurge(purger, ids)) == Spawn(s, Purge(purger, ids, Flip, 0))
    ensures Distinct(ids) && forall k | 0 <= k < |ids| :: Live(s, ids[k])
    ensures MarkersKnown(s) && Flipped(s.rows, |s.procs|) == 0
  {
    var actions :| Run(cfg, START, actions) == s;
    ReachableMarkersKnown(cfg, actions);
    FlippedByNobody(s.rows, |s.procs|);
  }

  /** In every interleaving the admin handler's freed bytes are exactly those of the rows it marked
      itself. */
  lemma AdminFreedBytes(cfg: Config, s: State, ids: seq<FileId>, actions: seq<Action>)
    requires Begins(cfg, s, AdminHandler, ids)
    ensures
      var end := Run(cfg, Step(cfg, s, BeginPurge(AdminHandler, ids)), actions);
      IsPurge(end, |s.procs|) && end.procs[|s.procs|].freed == Flipped(end.rows, |s.procs|)
  {
    var begun, p := Step(cfg, s, BeginPurge(AdminHandler, ids)), |s.procs|;
    NothingFreedYet(cfg, s, AdminHandler, ids);
    RunFreed(cfg, begun, actions, |actions|, p);
    StaleZero(cfg, begun, actions, |actions|, p);
    assert actions[..|actions|] == actions;
    forall i | 0 <= i < |actions| ensures StaleAt(cfg, begun, actions, i, p) == 0 {
      RunFreed(cfg, begun, actions, i, p);
    }
  }

  // ---------- The worker, overtaken ----------

  /** Marks stay: a row keeps its key and size, and a deleted one its first marker. */
  ghost predicate MarksKept(rows: seq<Row>, rows': seq<Row>) {
    && |rows| <= |rows'|
    && forall i | 0 <= i < |rows| ::
         && rows'[i].key == rows[i].key && rows'[i].size == rows[i].size
         && (rows[i].Deleted() ==> rows'[i].Deleted() && rows'[i].flippedBy == rows[i].flippedBy)
  }

  lemma OthersMarksKept(cfg: Config, s: State, a: Action)
    ensures MarksKept(s.rows, OutsideStep(cfg, s, a).rows) && MarksKept(s.rows, DeleteStep(s, a).rows)
    ensures MarksKept(s.rows, PurgeStep(cfg, s, a).rows)
  {
  }

  lemma UploadMarksKept(cfg: Config, s: State, a: Action)
    ensures MarksKept(s.rows, StoreStep(s, a).rows) && MarksKept(s.rows, QuotaStep(cfg, s, a).rows)
    ensures MarksKept(s.rows, RecordStep(cfg, s, a).rows)
  {
  }

  lemma StepMarksKept(cfg: Config, s: State, a: Action)
    ensures MarksKept(s.rows, Step(cfg, s, a).rows)
  {
    UploadMarksKept(cfg, s, a);
    OthersMarksKept(cfg, s, a);
  }

  lemma {:induction false} RunMarksKept(cfg: Config, s: State, actions: seq<Action>)
    ensures MarksKept(s.rows, Run(cfg, s, actions).rows)
    decreases |actions|
  {
    if actions != [] {
      RunMarksKept(cfg, s, actions[..|actions| - 1]);
      StepMarksKept(cfg, Run(cfg, s, actions[..|actions| - 1]), actions[|actions| - 1]);
    }
  }

  /** Where a first pass over ids stands: k candidates are behind it, and what it has marked is
      among them, or is the one it is at. Its second pass marks nothing any more. */
  ghost predicate Behind(s: State, p: Pid, ids: seq<FileId>, k: nat) {
    && IsPurge(s, p) && k <= |ids|
    && (s.procs[p].purger == OrphanPass ==> s.procs[p].ppc != Flip)
    && (s.procs[p].purger != OrphanPass ==> s.procs[p].todo == ids[k..])
    && forall id | 0 <= id < |s.rows| :: s.rows[id].Deleted() && s.rows[id].flippedBy == p ==>
         id in ids[..k] || (k < |ids| && id == ids[k] && s.procs[p].ppc != Flip)
  }

  lemma OthersBehind(cfg: Config, s: State, a: Action, p: Pid, ids: seq<FileId>, k: nat)
    requires Behind(s, p, ids, k) && (IsPurgeAction(a) ==> a.BeginPurge? || a.p != p)
    ensures Behind(Step(cfg, s, a), p, ids, k)
  {
    OthersLeavePurge(cfg, s, a, p);
    MarkedByMover(cfg, s, a, p);
  }

  /** A row that p is the first to mark is marked by an action of p. */
  lemma MarkedByMover(cfg: Config, s: State, a: Action, p: Pid)
    requires IsPurge(s, p) && (IsPurgeAction(a) ==> a.BeginPurge? || a.p != p)
    ensures forall id | 0 <= id < |Step(cfg, s, a).rows| ::
      Step(cfg, s, a).rows[id].Deleted() && Step(cfg, s, a).rows[id].flippedBy == p ==>
        id < |s.rows| && s.rows[id].Deleted() && s.rows[id].flippedBy == p
  {
  }

  lemma StepBehind(cfg: Config, s: State, a: Action, p: Pid, ids: seq<FileId>, k: nat) returns (k': nat)
    requires Behind(s, p, ids, k)
    ensures Behind(Step(cfg, s, a), p, ids, k')
  {
    k' := k;
    if !IsPurgeAction(a) || a.BeginPurge? || a.p != p {
      OthersBehind(cfg, s, a, p, ids, k);
    } else {
      var s' := PurgeStep(cfg, s, a);
      if s'.procs[p].purger != OrphanPass && s'.procs[p].todo != s.procs[p].todo {
        k' := k + 1;
        assert ids[k..][1..] == ids[k'..];
        assert ids[..k'] == ids[..k] + [ids[k]];
      }
    }
  }

  lemma {:induction false} RunBehind(cfg: Config, s: State, actions: seq<Action>, p: Pid, ids: seq<FileId>)
      returns (k: nat)
    requires Behind(s, p, ids, 0)
    ensures Behind(Run(cfg, s, actions), p, ids, k)
    decreases |actions|
  {
    if actions == [] {
      k := 0;
    } else {
      k := RunBehind(cfg, s, actions[..|actions| - 1], p, ids);
      k := StepBehind(cfg, Run(cfg, s, actions[..|actions| - 1]), actions[|actions| - 1], p, ids, k);
    }
  }

  /** Step j of the run marks the row, and not for p. */
  ghost predicate MarkedByOther(cfg: Config, s: State, actions: seq<Action>, j: nat, id: FileId, p: Pid) {
    && j < |actions|
    && Live(Run(cfg, s, actions[..j]), id)
    && Gone(Run(cfg, s, actions[..j + 1]).rows, id)
    && Run(cfg, s, actions[..j + 1]).rows[id].flippedBy != p
  }

  /** Step i of the run is p's own UPDATE for a candidate that is not empty, and that an earlier step
      has marked for somebody else. */
  ghost predicate Overtaken(cfg: Config, s: State, actions: seq<Action>, i: nat, p: Pid) {
    && i < |actions|
    && var before := Run(cfg, s, actions[..i]);
       && actions[i] == PurgeFlip(p, true) && AtCandidate(before, p, Flip)
       && before.rows[before.procs[p].todo[0]].size > 0
       && exists j :: 0 <= j < i && MarkedByOther(cfg, s, actions, j, before.procs[p].todo[0], p)
  }

  /** A row that goes from live to deleted in a run is marked by one of its steps. */
  lemma {:induction false} SomeStepMarks(cfg: Config, s: State, actions: seq<Action>, id: FileId, n: nat)
      returns (j: nat)
    requires n <= |actions| && Live(s, id) && Gone(Run(cfg, s, actions[..n]).rows, id)
    ensures j < n && Live(Run(cfg, s, actions[..j]), id) && Gone(Run(cfg, s, actions[..j + 1]).rows, id)
    decreases n
  {
    assert actions[..0] == [];
    if Gone(Run(cfg, s, actions[..n - 1]).rows, id) {
      j := SomeStepMarks(cfg, s, actions, id, n - 1);
    } else {
      RunMarksKept(cfg, s, actions[..n - 1]);
      j := n - 1;
    }
  }

  lemma MarksSince(cfg: Config, s: State, actions: seq<Action>, j: nat, i: nat)
    requires j <= i <= |actions|
    ensures MarksKept(Run(cfg, s, actions[..j]).rows, Run(cfg, s, actions[..i]).rows)
  {
    RunAppend(cfg, s, actions[..j], actions[j..i]);
    assert actions[..j] + actions[j..i] == actions[..i];
    RunMarksKept(cfg, Run(cfg, s, actions[..j]), actions[j..i]);
  }

  lemma StaleMeansOvertaken(cfg: Config, s: State, ids: seq<FileId>, actions: seq<Action>, i: nat)
    requires Begins(cfg, s, WorkerCycle, ids) && i < |actions|
    requires StaleAt(cfg, Step(cfg, s, BeginPurge(WorkerCycle, ids)), actions, i, |s.procs|) > 0
    ensures Overtaken(cfg, Step(cfg, s, BeginPurge(WorkerCycle, ids)), actions, i, |s.procs|)
  {
    NothingFreedYet(cfg, s, WorkerCycle, ids);
    var begun, p := Spawn(s, Purge(WorkerCycle, ids, Flip, 0)), |s.procs|;
    var before := Run(cfg, begun, actions[..i]);
    var k := RunBehind(cfg, begun, actions[..i], p, ids);
    var c := before.procs[p].todo[0];
    assert c == ids[k] && Live(s, ids[k]);
    assert before.rows[c].flippedBy != p;
    var j := SomeStepMarks(cfg, begun, actions, c, i);
    MarksSince(cfg, begun, actions, j + 1, i);
    assert MarkedByOther(cfg, begun, actions, j, c, p);
  }

  lemma OvertakenMeansStale(cfg: Config, begun: State, actions: seq<Action>, i: nat, p: Pid)
    requires Overtaken(cfg, begun, actions, i, p)
    requires IsPurge(Run(cfg, begun, actions[..i]), p) && Run(cfg, begun, actions[..i]).procs[p].purger != AdminHandler
    ensures StaleAt(cfg, begun, actions, i, p) > 0
  {
    var c := Run(cfg, begun, actions[..i]).procs[p].todo[0];
    var j :| 0 <= j < i && MarkedByOther(cfg, begun, actions, j, c, p);
    MarksSince(cfg, begun, actions, j + 1, i);
  }

  /** In every interleaving the worker's freed bytes are at least those of the rows it marked itself,
      and exactly those unless some step of another request marks a non-empty candidate between the
      worker's query and its own UPDATE for it. */
  lemma WorkerFreedBytes(cfg: Config, s: State, ids: seq<FileId>, actions: seq<Action>)
    requires Begins(cfg, s, WorkerCycle, ids)
    ensures
      var begun, p := Step(cfg, s, BeginPurge(WorkerCycle, ids)), |s.procs|;
      var end := Run(cfg, begun, actions);
      && IsPurge(end, p) && end.procs[p].freed >= Flipped(end.rows, p)
      && (end.procs[p].freed == Flipped(end.rows, p) <==>
            forall i | 0 <= i < |actions| :: !Overtaken(cfg, begun, actions, i, p))
  {
    var begun, p := Step(cfg, s, BeginPurge(WorkerCycle, ids)), |s.procs|;
    NothingFreedYet(cfg, s, WorkerCycle, ids);
    RunFreed(cfg, begun, actions, |actions|, p);
    StaleZero(cfg, begun, actions, |actions|, p);
    assert actions[..|actions|] == actions;
    forall i | 0 <= i < |actions|
      ensures StaleAt(cfg, begun, actions, i, p) > 0 <==> Overtaken(cfg, begun, actions, i, p)
    {
      RunFreed(cfg, begun, actions, i, p);
      if StaleAt(cfg, begun, actions, i, p) > 0 { StaleMeansOvertaken(cfg, s, ids, actions, i); }
      if Overtaken(cfg, begun, actions, i, p) { OvertakenMeansStale(cfg, begun, actions, i, p); }
    }
  }
}
