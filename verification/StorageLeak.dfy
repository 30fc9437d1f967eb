/** Which deleted files the worker can still remove from the object store. */
module StorageLeak {
  import opened Wrappers
  import opened Storage
  import opened StorageSafety
  import opened StorageFreed
  import opened StorageKeys
  import opened StorageRuns
  import Retention

  // ---------- Every share has an expiry ----------

  ghost predicate Dated(s: State) {
    forall id | 0 <= id < |s.rows| :: !Retention.HasNull(s.rows[id].shares)
  }

  ghost predicate SameShares(rows: seq<Row>, rows': seq<Row>) {
    && |rows| <= |rows'|
    && (forall id | 0 <= id < |rows| :: rows'[id].shares == rows[id].shares)
    && (forall id | |rows| <= id < |rows'| :: rows'[id].shares == [])
  }

  lemma UploadShares(cfg: Config, s: State, a: Action)
    ensures SameShares(s.rows, StoreStep(s, a).rows) && SameShares(s.rows, QuotaStep(cfg, s, a).rows)
    ensures SameShares(s.rows, RecordStep(cfg, s, a).rows)
  {
  }

  lemma SharesElsewhere(cfg: Config, s: State, a: Action)
    requires !a.AddShare? && !a.EndShare?
    ensures SameShares(s.rows, Step(cfg, s, a).rows)
  {
    UploadShares(cfg, s, a);
  }

  lemma OutsideDated(cfg: Config, s: State, a: Action)
    requires Dated(s)
    ensures Dated(OutsideStep(cfg, s, a))
  {
    var s' := OutsideStep(cfg, s, a);
    forall id | 0 <= id < |s'.rows| ensures !Retention.HasNull(s'.rows[id].shares) {
      assert !Retention.HasNull(s.rows[id].shares);
    }
  }

  lemma StepDated(cfg: Config, s: State, a: Action)
    requires Dated(s)
    ensures Dated(Step(cfg, s, a))
  {
    if a.AddShare? || a.EndShare? {
      OutsideDated(cfg, s, a);
    } else {
      SharesElsewhere(cfg, s, a);
    }
  }

  lemma {:induction false} StaysDated(cfg: Config, s: State, actions: seq<Action>)
    requires Dated(s)
    ensures Dated(Run(cfg, s, actions))
    decreases |actions|
  {
    if actions != [] {
      StaysDated(cfg, s, actions[..|actions| - 1]);
      StepDated(cfg, Run(cfg, s, actions[..|actions| - 1]), actions[|actions| - 1]);
    }
  }

  lemma ReachableDated(cfg: Config, s: State)
    requires Reachable(cfg, s)
    ensures Dated(s)
  {
    var actions :| Run(cfg, START, actions) == s;
    StaysDated(cfg, START, actions);
  }

  /** A transfer that is created keeps its files from being selected until it expires. */
  lemma SharedIsKept(cfg: Config, s: State, id: FileId, expiresIn: nat, later: int)
    requires id < |s.rows| && expiresIn >= cfg.shortestShare && s.now <= later < s.now + expiresIn
    ensures
      var s' := Step(cfg, s, AddShare(id, expiresIn));
      id < |s'.rows| && !Retention.WorkerSelects(s'.rows[id].File(), cfg.retention, later)
  {
    var shares := Step(cfg, s, AddShare(id, expiresIn)).rows[id].shares;
    assert shares[|shares| - 1] == Retention.Share(false, Some(s.now + expiresIn));
    Retention.ActiveShareProtects(Step(cfg, s, AddShare(id, expiresIn)).rows[id].File(), cfg.retention, later,
                                  |shares| - 1);
  }

  /** One that is ended protects them no longer, and nothing else changes. */
  lemma EndedIsOver(cfg: Config, s: State, id: FileId, i: nat)
    requires id < |s.rows| && i < |s.rows[id].shares|
    ensures
      var s' := Step(cfg, s, EndShare(id, i));
      && |s'.rows| == |s.rows| && |s'.rows[id].shares| == |s.rows[id].shares|
      && s' == s.(rows := s.rows[id := s.rows[id].(shares := s'.rows[id].shares)])
      && s'.rows[id].shares[i].expiresAt == s.rows[id].shares[i].expiresAt
      && (forall j | 0 <= j < |s.rows[id].shares| && j != i :: s'.rows[id].shares[j] == s.rows[id].shares[j])
      && forall later :: !Retention.IsActive(s'.rows[id].shares[i], later)
  {
  }

  // ---------- The chance of a deleted file ----------

  function Due(cfg: Config, row: Row): int {
    Retention.Deadline(row.File(), cfg.retention)
  }

  /** The least time a file that is uploaded now takes to be selected: unshared, or shared for the
      shortest time. */
  function Soonest(cfg: Config): int {
    var shared := cfg.shortestShare + cfg.retention.Retention();
    if cfg.retention.Orphan() <= shared then cfg.retention.Orphan() else shared
  }

  /** Some file can be selected at an instant before the given one: a live file as its shares are, or
      one that is still to be uploaded. */
  ghost predicate CandidateBefore(cfg: Config, s: State, until: int) {
    || (s.now < until && exists c: FileId :: Live(s, c) && Due(cfg, s.rows[c]) + 1 < until)
    || s.now + Soonest(cfg) + 1 < until
  }

  /** An admin's UPDATE for the file, which renews its date, is still to come. */
  ghost predicate Restampable(s: State, id: FileId) {
    exists q :: 0 <= q < |s.procs| && s.procs[q] == Delete(id, true, Requested)
  }

  function WindowEnd(s: State, id: FileId): int
    requires Gone(s.rows, id)
  {
    s.rows[id].deletedAt.value + ORPHAN_WINDOW
  }

  /** What a later cycle needs to pick the file up: retention on, no entry in the purge log, and a
      second pass within 48 hours of the deletion, which takes a candidate for the first pass. */
  ghost predicate HasChance(cfg: Config, s: State, id: FileId)
    requires Gone(s.rows, id)
  {
    && cfg.retention.enabled && id !in s.log
    && (Restampable(s, id) || CandidateBefore(cfg, s, WindowEnd(s, id)))
  }

  // ---------- Requests that are already at work ----------

  /** The second pass of a cycle in progress could select the file. */
  ghost predicate StillSelectable(s: State, id: FileId)
    requires Gone(s.rows, id)
  {
    id !in s.log && (s.now < WindowEnd(s, id) || Restampable(s, id))
  }

  /** The request or cycle in progress may itself drop the object of the file. */
  ghost predicate MayDrop(s: State, q: Pid, id: FileId)
    requires Gone(s.rows, id) && q < |s.procs|
  {
    match s.procs[q]
    case Upload(_, _, upc) => upc == Rejected && s.rows[id].key == q
    case Delete(target, byAdmin, dpc) => target == id && !byAdmin && dpc == Dropping
    case Purge(purger, todo, ppc, _) =>
      match purger
      case AdminHandler => ppc == Drop && id in todo
      case OrphanPass => id in todo
      case WorkerCycle => id in todo || StillSelectable(s, id)
  }

  /** A deleted file whose object is there, and which no request in progress will drop. */
  ghost predicate Settled(s: State, id: FileId) {
    && Gone(s.rows, id) && s.rows[id].key in s.objects
    && forall q | 0 <= q < |s.procs| :: !MayDrop(s, q, id)
  }

  ghost predicate Hopeless(cfg: Config, s: State, id: FileId) {
    Settled(s, id) && !HasChance(cfg, s, id)
  }

  // ---------- Without a chance: never ----------

  /** Each live row is due no earlier than before, or than an upload of now could be. */
  ghost predicate DuesKept(cfg: Config, s: State, s': State) {
    forall c | 0 <= c < |s'.rows| && !s'.rows[c].Deleted() ::
      || (Live(s, c) && Due(cfg, s'.rows[c]) >= Due(cfg, s.rows[c]))
      || Due(cfg, s'.rows[c]) >= s.now + Soonest(cfg)
  }

  lemma ChanceKept(cfg: Config, s: State, s': State, until: int)
    requires s.now <= s'.now && DuesKept(cfg, s, s') && CandidateBefore(cfg, s', until)
    ensures CandidateBefore(cfg, s, until)
  {
    if s'.now < until && exists c: FileId :: Live(s', c) && Due(cfg, s'.rows[c]) + 1 < until {
      var c: FileId :| Live(s', c) && Due(cfg, s'.rows[c]) + 1 < until;
      assert Live(s, c) || Due(cfg, s'.rows[c]) >= s.now + Soonest(cfg);
    }
  }

  /** A step that moves at most request p keeps a file hopeless. */
  lemma HopelessFrame(cfg: Config, s: State, s': State, id: FileId, p: Pid)
    requires Hopeless(cfg, s, id)
    requires id < |s'.rows| && s'.rows[id].key == s.rows[id].key && s'.rows[id].Deleted()
      && s.rows[id].key in s'.objects
    requires s'.rows[id].deletedAt == s.rows[id].deletedAt || Restampable(s, id)
    requires s.log <= s'.log && s.now <= s'.now && DuesKept(cfg, s, s')
    requires |s.procs| <= |s'.procs|
    requires forall q | 0 <= q < |s'.procs| :: q != p ==> q < |s.procs| && s'.procs[q] == s.procs[q]
    requires p < |s'.procs| ==>
      && !(s'.procs[p] == Delete(id, true, Requested) && (p >= |s.procs| || s.procs[p] != s'.procs[p]))
      && (MayDrop(s', p, id) ==> p < |s.procs| && MayDrop(s, p, id))
    ensures Hopeless(cfg, s', id)
  {
    assert Restampable(s', id) ==> Restampable(s, id) by {
      if Restampable(s', id) {
        var q :| 0 <= q < |s'.procs| && s'.procs[q] == Delete(id, true, Requested);
        assert q < |s.procs| && s.procs[q] == s'.procs[q];
      }
    }
    forall q | 0 <= q < |s'.procs| ensures !MayDrop(s', q, id) {
      if q != p {
        var proc := s'.procs[q];
        assert q < |s.procs| && s.procs[q] == proc && !MayDrop(s, q, id);
      }
    }
    if HasChance(cfg, s', id) && !Restampable(s, id) {
      ChanceKept(cfg, s, s', WindowEnd(s, id));
    }
  }

  lemma ShareDue(cfg: Config, s: State, id: FileId, expiresIn: nat)
    requires Dated(s) && Live(s, id) && expiresIn >= cfg.shortestShare
    ensures
      var due := Due(cfg, OutsideStep(cfg, s, AddShare(id, expiresIn)).rows[id]);
      due >= Due(cfg, s.rows[id]) || due >= s.now + Soonest(cfg)
  {
    Retention.DeadlineWithShare(s.rows[id].File(), cfg.retention, false, s.now + expiresIn);
  }

  lemma EndDue(cfg: Config, s: State, id: FileId, i: nat)
    requires id < |s.rows|
    ensures Due(cfg, OutsideStep(cfg, s, EndShare(id, i)).rows[id]) == Due(cfg, s.rows[id])
  {
    if i < |s.rows[id].shares| {
      Retention.MaxExpiryRevoked(s.rows[id].shares, i);
    }
  }

  lemma OutsideDues(cfg: Config, s: State, a: Action)
    requires Dated(s)
    ensures DuesKept(cfg, s, OutsideStep(cfg, s, a))
  {
    var s' := OutsideStep(cfg, s, a);
    if a.AddShare? && s' != s && Live(s, a.id) {
      ShareDue(cfg, s, a.id, a.expiresIn);
    }
    if a.EndShare? && s' != s {
      EndDue(cfg, s, a.id, a.i);
    }
  }

  lemma OutsideHopeless(cfg: Config, s: State, a: Action, id: FileId)
    requires Dated(s) && Hopeless(cfg, s, id)
    ensures Hopeless(cfg, OutsideStep(cfg, s, a), id)
  {
    OutsideDues(cfg, s, a);
    HopelessFrame(cfg, s, OutsideStep(cfg, s, a), id, |s.procs|);
  }

  lemma StoreHopeless(cfg: Config, s: State, a: Action, id: FileId)
    requires Hopeless(cfg, s, id)
    ensures Hopeless(cfg, StoreStep(s, a), id)
  {
    var s' := StoreStep(s, a);
    if s' != s { HopelessFrame(cfg, s, s', id, if a.BeginUpload? then |s.procs| else a.p); }
  }

  lemma QuotaHopeless(cfg: Config, s: State, a: Action, id: FileId)
    requires Keyed(s) && Hopeless(cfg, s, id)
    ensures Hopeless(cfg, QuotaStep(cfg, s, a), id)
  {
    var s' := QuotaStep(cfg, s, a);
    assert KeyKnown(s, id);
    if s' != s { HopelessFrame(cfg, s, s', id, a.p); }
  }

  lemma RecordHopeless(cfg: Config, s: State, a: Action, id: FileId)
    requires Keyed(s) && Hopeless(cfg, s, id)
    ensures Hopeless(cfg, RecordStep(cfg, s, a), id)
  {
    var s' := RecordStep(cfg, s, a);
    assert KeyKnown(s, id);
    if s' != s {
      assert !MayDrop(s, a.p, id);
      HopelessFrame(cfg, s, s', id, a.p);
    }
  }

  lemma DeleteHopeless(cfg: Config, s: State, a: Action, id: FileId)
    requires Keyed(s) && Hopeless(cfg, s, id)
    ensures Hopeless(cfg, DeleteStep(s, a), id)
  {
    var s' := DeleteStep(s, a);
    if s' != s {
      if a.DropDeleted? {
        assert !MayDrop(s, a.p, id);
        assert KeyKnown(s, id) && KeyKnown(s, s.procs[a.p].target);
      }
      HopelessFrame(cfg, s, s', id, if a.BeginDelete? then |s.procs| else a.p);
    }
  }

  /** When a cycle can begin at all, its second pass will not select the file. */
  lemma CycleTooLate(cfg: Config, s: State, id: FileId, c: FileId)
    requires Dated(s) && Hopeless(cfg, s, id) && cfg.retention.enabled && Selected(cfg, s, c)
    ensures !StillSelectable(s, id)
  {
    Retention.SelectedIffPastDeadline(s.rows[c].File(), cfg.retention, s.now);
    assert Live(s, c) && Due(cfg, s.rows[c]) < s.now;
  }

  lemma BeginHopeless(cfg: Config, s: State, purger: Purger, ids: seq<FileId>, id: FileId)
    requires Dated(s) && Hopeless(cfg, s, id)
    ensures Hopeless(cfg, PurgeStep(cfg, s, BeginPurge(purger, ids)), id)
  {
    var s' := PurgeStep(cfg, s, BeginPurge(purger, ids));
    if s' != s {
      forall i | 0 <= i < |ids| ensures ids[i] != id {
        assert Selected(cfg, s, ids[i]);
      }
      if purger == WorkerCycle {
        assert Selected(cfg, s, ids[0]);
        CycleTooLate(cfg, s, id, ids[0]);
      }
      HopelessFrame(cfg, s, s', id, |s.procs|);
    }
  }

  lemma PassHopeless(cfg: Config, s: State, a: Action, id: FileId)
    requires Keyed(s) && Hopeless(cfg, s, id)
    requires a.BeginOrphans? || a.SkipOrphans? || a.PurgeFlip? || a.PurgeDrop? || a.PurgeLog?
    ensures Hopeless(cfg, PurgeStep(cfg, s, a), id)
  {
    var s' := PurgeStep(cfg, s, a);
    if s' != s {
      assert !MayDrop(s, a.p, id);
      if a.PurgeDrop? {
        assert WorksOnDeleted(s, s.procs[a.p]);
      }
      HopelessFrame(cfg, s, s', id, a.p);
    }
  }

  lemma StepHopeless(cfg: Config, s: State, a: Action, id: FileId)
    requires Keyed(s) && Dated(s) && Hopeless(cfg, s, id)
    ensures Hopeless(cfg, Step(cfg, s, a), id)
  {
    OutsideHopeless(cfg, s, a, id);
    StoreHopeless(cfg, s, a, id);
    QuotaHopeless(cfg, s, a, id);
    RecordHopeless(cfg, s, a, id);
    DeleteHopeless(cfg, s, a, id);
    if a.BeginPurge? { BeginHopeless(cfg, s, a.purger, a.ids, id); }
    if a.BeginOrphans? || a.SkipOrphans? || a.PurgeFlip? || a.PurgeDrop? || a.PurgeLog? { PassHopeless(cfg, s, a, id); }
  }

  /** A file without a chance keeps its object in every continuation. */
  lemma {:induction false} HopelessForever(cfg: Config, s: State, actions: seq<Action>, id: FileId)
    requires Keyed(s) && Dated(s) && Hopeless(cfg, s, id)
    ensures Hopeless(cfg, Run(cfg, s, actions), id)
    decreases |actions|
  {
    if actions != [] {
      HopelessForever(cfg, s, actions[..|actions| - 1], id);
      StaysKeyed(cfg, s, actions[..|actions| - 1]);
      StaysDated(cfg, s, actions[..|actions| - 1]);
      StepHopeless(cfg, Run(cfg, s, actions[..|actions| - 1]), actions[|actions| - 1], id);
    }
  }

  // ---------- With a chance: possibly ----------

  lemma SelectedPastDue(cfg: Config, s: State, c: FileId)
    requires Dated(s) && Live(s, c) && Due(cfg, s.rows[c]) < s.now
    ensures Selected(cfg, s, c)
  {
    Retention.SelectedIffPastDeadline(s.rows[c].File(), cfg.retention, s.now);
  }

  /** Waiting until a live file is selected. */
  lemma ReachSelected(cfg: Config, s: State, c: FileId) returns (s': State)
    requires Dated(s) && Live(s, c)
    ensures Reaches(cfg, s, s') && Selected(cfg, s', c) && (NoCycle(s) ==> NoCycle(s'))
    ensures s' == s.(now := if s.now <= Due(cfg, s.rows[c]) then Due(cfg, s.rows[c]) + 1 else s.now)
  {
    ReachesStart(cfg, s);
    if s.now <= Due(cfg, s.rows[c]) {
      var elapsed := Due(cfg, s.rows[c]) + 1 - s.now;
      ReachesNext(cfg, s, s, Tick(elapsed));
      s' := Step(cfg, s, Tick(elapsed));
    } else {
      s' := s;
    }
    SelectedPastDue(cfg, s', c);
  }

  /** A new file shared for the shortest time. */
  lemma ShareNew(cfg: Config, s: State, c: FileId) returns (s': State)
    requires Live(s, c) && s.rows[c].shares == []
    ensures Reaches(cfg, s, s') && Live(s', c) && s' == s.(rows := s.rows[c := s'.rows[c]])
    ensures Due(cfg, s'.rows[c]) == s.now + cfg.shortestShare + cfg.retention.Retention()
  {
    ReachesStart(cfg, s);
    ReachesNext(cfg, s, s, AddShare(c, cfg.shortestShare));
    s' := Step(cfg, s, AddShare(c, cfg.shortestShare));
    Retention.DeadlineWithShare(s.rows[c].File(), cfg.retention, false, s.now + cfg.shortestShare);
  }

  /** A new file that will be due as soon as possible. */
  lemma ReachSoonest(cfg: Config, s: State) returns (s': State)
    requires Dated(s)
    ensures Reaches(cfg, s, s') && Dated(s')
    ensures s'.now == s.now && s'.log == s.log && |s'.rows| == |s.rows| + 1 && s'.rows[..|s.rows|] == s.rows
    ensures |s.procs| <= |s'.procs| && s'.procs[..|s.procs|] == s.procs && (NoCycle(s) ==> NoCycle(s'))
    ensures Live(s', |s.rows|) && Due(cfg, s'.rows[|s.rows|]) == s.now + Soonest(cfg)
  {
    var m := ReachNewFile(cfg, s);
    var c := |s.rows|;
    if cfg.retention.Orphan() <= cfg.shortestShare + cfg.retention.Retention() {
      s' := m;
    } else {
      s' := ShareNew(cfg, m, c);
      ReachesOn(cfg, s, m, s');
      assert s'.rows[..|s.rows|] == m.rows[..|s.rows|];
    }
    var actions :| Run(cfg, s, actions) == s';
    StaysDated(cfg, s, actions);
  }

  /** Within the window, a candidate comes up in time. */
  lemma ReachCandidate(cfg: Config, s: State, until: int) returns (s': State, c: FileId)
    requires Dated(s) && NoCycle(s) && CandidateBefore(cfg, s, until)
    ensures Reaches(cfg, s, s') && Selected(cfg, s', c) && s'.now < until && NoCycle(s')
    ensures s'.log == s.log && |s.rows| <= |s'.rows| && s'.rows[..|s.rows|] == s.rows
  {
    if s.now < until && exists c: FileId :: Live(s, c) && Due(cfg, s.rows[c]) + 1 < until {
      c :| Live(s, c) && Due(cfg, s.rows[c]) + 1 < until;
      s' := ReachSelected(cfg, s, c);
    } else {
      var m := ReachSoonest(cfg, s);
      c := |s.rows|;
      s' := ReachSelected(cfg, m, c);
      ReachesOn(cfg, s, m, s');
    }
  }

  /** With the admin's UPDATE still to come, the window opens again whenever a candidate is there. */
  lemma ReachRestamped(cfg: Config, s: State, id: FileId) returns (s': State, c: FileId)
    requires Dated(s) && NoCycle(s) && Gone(s.rows, id) && id !in s.log && Restampable(s, id)
    ensures Reaches(cfg, s, s') && Selected(cfg, s', c) && Pending(s', id) && NoCycle(s')
    ensures s'.rows[id].key == s.rows[id].key
  {
    var q :| 0 <= q < |s.procs| && s.procs[q] == Delete(id, true, Requested);
    var m := ReachSoonest(cfg, s);
    c := |s.rows|;
    assert m.procs[..|s.procs|][q] == m.procs[q] && m.rows[..|s.rows|][id] == m.rows[id];
    var selected := ReachSelected(cfg, m, c);
    ReachesOn(cfg, s, m, selected);
    ReachesNext(cfg, s, selected, SoftDelete(q, true));
    s' := Step(cfg, selected, SoftDelete(q, true));
  }

  lemma ChanceTaken(cfg: Config, s: State, id: FileId) returns (s': State)
    requires Dated(s) && NoCycle(s) && Gone(s.rows, id) && HasChance(cfg, s, id)
    ensures Reaches(cfg, s, s') && s.rows[id].key !in s'.objects
  {
    var m, c;
    if Restampable(s, id) {
      m, c := ReachRestamped(cfg, s, id);
    } else {
      m, c := ReachCandidate(cfg, s, WindowEnd(s, id));
      assert m.rows[..|s.rows|][id] == m.rows[id];
    }
    s' := CyclesDrop(cfg, m, id, c);
    ReachesOn(cfg, s, m, s');
  }

  /** A file with a chance, which no request in progress will drop: the cycles in progress are past
      their first pass, and can come to their end first. */
  lemma SettledChanceTaken(cfg: Config, s: State, id: FileId) returns (s': State)
    requires Keyed(s) && Dated(s) && Settled(s, id) && HasChance(cfg, s, id)
    ensures Reaches(cfg, s, s') && s.rows[id].key !in s'.objects
  {
    forall q | 0 <= q < |s.procs| && s.procs[q].Purge?
      ensures s.procs[q].purger != WorkerCycle
      ensures s.procs[q].purger == OrphanPass ==> s.procs[q].ppc != Flip && AllGone(s.rows, s.procs[q].todo)
    {
      assert !MayDrop(s, q, id) && WorksOnDeleted(s, s.procs[q]);
    }
    var m := ReachNoCycle(cfg, s, |s.procs|);
    if Restampable(s, id) {
      var q :| 0 <= q < |s.procs| && s.procs[q] == Delete(id, true, Requested);
      assert m.procs[q] == s.procs[q];
    }
    SameChance(cfg, s, m, id);
    s' := ChanceTaken(cfg, m, id);
    ReachesOn(cfg, s, m, s');
  }

  lemma SameChance(cfg: Config, s: State, m: State, id: FileId)
    requires m == s.(procs := m.procs) && Dated(s) && Gone(s.rows, id) && HasChance(cfg, s, id)
    requires Restampable(s, id) ==> Restampable(m, id)
    ensures Dated(m) && Gone(m.rows, id) && HasChance(cfg, m, id)
  {
    if !Restampable(s, id) {
      if s.now < WindowEnd(s, id) && exists c: FileId :: Live(s, c) && Due(cfg, s.rows[c]) + 1 < WindowEnd(s, id) {
        var c: FileId :| Live(s, c) && Due(cfg, s.rows[c]) + 1 < WindowEnd(s, id);
        assert Live(m, c);
      }
    }
  }

  /** Once no request in progress will drop it, the object of a deleted file can still go in some
      continuation exactly when the file has a chance: retention is on, the file is not in the purge
      log, and some candidate can come up before the 48 hours since its deletion are over, or an
      admin's UPDATE for the file will renew them. */
  lemma PurgeableIffChance(cfg: Config, s: State, id: FileId)
    requires Reachable(cfg, s) && Settled(s, id)
    ensures (exists actions :: s.rows[id].key !in Run(cfg, s, actions).objects) <==> HasChance(cfg, s, id)
  {
    ReachableDated(cfg, s);
    ReachableKeyed(cfg, s);
    if HasChance(cfg, s, id) {
      var s' := SettledChanceTaken(cfg, s, id);
      var actions :| Run(cfg, s, actions) == s';
      assert s.rows[id].key !in Run(cfg, s, actions).objects;
    } else {
      forall actions ensures s.rows[id].key in Run(cfg, s, actions).objects {
        HopelessForever(cfg, s, actions, id);
        RunMarksKept(cfg, s, actions);
      }
    }
  }

  // ---------- Deletes that leak ----------

  /** A live file with its object, on which no request in progress works, and no worker cycle is in
      its first pass. */
  ghost predicate Idle(s: State, id: FileId) {
    && Live(s, id) && s.rows[id].key in s.objects
    && forall q | 0 <= q < |s.procs| ::
         match s.procs[q]
         case Upload(_, _, upc) => upc == Rejected ==> s.rows[id].key != q
         case Delete(target, _, dpc) => target == id ==> dpc == Over
         case Purge(purger, todo, _, _) => id !in todo && purger != WorkerCycle
  }

  function Deleted(s: State, id: FileId, byAdmin: bool, dpc: DeletePc): State
    requires id < |s.rows|
  {
    Spawn(s, Delete(id, byAdmin, dpc)).(rows := FlipRow(s.rows, id, |s.procs|, s.now, byAdmin))
  }

  lemma ReachMarked(cfg: Config, s: State, id: FileId, byAdmin: bool)
    requires Live(s, id)
    ensures Reaches(cfg, s, Deleted(s, id, byAdmin, Dropping))
  {
    var p, begun := |s.procs|, Spawn(s, Delete(id, byAdmin, Requested));
    ReachesStart(cfg, s);
    ReachesNext(cfg, s, s, BeginDelete(id, byAdmin));
    assert Step(cfg, s, BeginDelete(id, byAdmin)) == begun;
    ReachesNext(cfg, s, begun, SoftDelete(p, true));
    assert Step(cfg, begun, SoftDelete(p, true)) == Deleted(s, id, byAdmin, Dropping);
  }

  /** The object of a file deleted by an admin stays in the store for good, if the log entry is
      written. */
  lemma AdminDeleteLeaks(cfg: Config, s: State, id: FileId) returns (s': State)
    requires Reachable(cfg, s) && Idle(s, id)
    ensures Reaches(cfg, s, s') && id in s'.log
    ensures forall actions :: s.rows[id].key in Run(cfg, s', actions).objects
  {
    ReachMarked(cfg, s, id, true);
    var marked := Deleted(s, id, true, Dropping);
    ReachesNext(cfg, s, marked, LogDeleted(|s.procs|, true));
    s' := Step(cfg, marked, LogDeleted(|s.procs|, true));
    ReachesOn(cfg, START, s, s');
    forall q | 0 <= q < |s'.procs| ensures !MayDrop(s', q, id) {
      if q < |s.procs| { assert s'.procs[q] == s.procs[q]; }
    }
    PurgeableIffChance(cfg, s', id);
  }

  /** So does that of a file deleted by its owner, if the store fails to drop it and no cycle comes to
      its second pass in the next 48 hours. */
  lemma OwnerDeleteLeaks(cfg: Config, s: State, id: FileId) returns (s': State)
    requires Reachable(cfg, s) && Idle(s, id)
    ensures Reaches(cfg, s, s') && s'.now == s.now + 172_800_000_000 && s'.log == s.log
    ensures forall actions :: s.rows[id].key in Run(cfg, s', actions).objects
  {
    ReachMarked(cfg, s, id, false);
    var marked := Deleted(s, id, false, Dropping);
    ReachesNext(cfg, s, marked, DropDeleted(|s.procs|, false));
    var failed := Deleted(s, id, false, Over);
    assert Step(cfg, marked, DropDeleted(|s.procs|, false)) == failed;
    ReachesNext(cfg, s, failed, Tick(ORPHAN_WINDOW));
    s' := Step(cfg, failed, Tick(ORPHAN_WINDOW));
    ReachesOn(cfg, START, s, s');
    forall q | 0 <= q < |s'.procs|
      ensures !MayDrop(s', q, id) && s'.procs[q] != Delete(id, true, Requested)
    {
      if q < |s.procs| { assert s'.procs[q] == s.procs[q]; }
    }
    PurgeableIffChance(cfg, s', id);
  }

  // ---------- A cycle that is overtaken ----------

  /** A first pass that has counted right so far, and finds a row deleted, counts wrong from then on. */
  lemma OneStale(cfg: Config, begun: State, before: seq<Action>, p: Pid)
    requires IsPurge(begun, p) && begun.procs[p].freed == Flipped(begun.rows, p)
    requires StaleBytes(Run(cfg, begun, before), PurgeFlip(p, true), p) > 0
    ensures
      var end := Run(cfg, begun, before + [PurgeFlip(p, true)]);
      IsPurge(end, p) && end.procs[p].freed > Flipped(end.rows, p)
  {
    var actions := before + [PurgeFlip(p, true)];
    assert actions[..|before|] == before && actions[..|actions|] == actions;
    RunFreed(cfg, begun, actions, |actions|, p);
    assert StaleAt(cfg, begun, actions, |before|, p) > 0;
  }

  lemma MarkedUnderway(begun: State, p: Pid, ids: seq<FileId>, id: FileId)
    requires p < |begun.procs| && begun.procs[p] == Purge(WorkerCycle, ids, Flip, 0)
    requires ids != [] && ids[0] == id && Live(begun, id) && begun.rows[id].size > 0
    ensures StaleBytes(Deleted(begun, id, true, Dropping), PurgeFlip(p, true), p) > 0
  {
  }

  /** From every reachable state in which retention is on and a file that is not empty is selected,
      an admin's delete between the query and the UPDATE makes the worker count bytes that it did
      not free. */
  lemma WorkerOvercounts(cfg: Config, s: State, id: FileId) returns (ids: seq<FileId>, actions: seq<Action>)
    requires Reachable(cfg, s) && cfg.retention.enabled && (cfg.oneWorker ==> NoCycle(s))
    requires Selected(cfg, s, id) && s.rows[id].size > 0
    ensures Begins(cfg, s, WorkerCycle, ids)
    ensures
      var end := Run(cfg, Step(cfg, s, BeginPurge(WorkerCycle, ids)), actions);
      IsPurge(end, |s.procs|) && end.procs[|s.procs|].freed > Flipped(end.rows, |s.procs|)
  {
    var p := |s.procs|;
    ids := CandidatesFrom(cfg, s, [id]);
    var begun := Spawn(s, Purge(WorkerCycle, ids, Flip, 0));
    assert Step(cfg, s, BeginPurge(WorkerCycle, ids)) == begun;
    ReachMarked(cfg, begun, id, true);
    var before :| Run(cfg, begun, before) == Deleted(begun, id, true, Dropping);
    NothingFreedYet(cfg, s, WorkerCycle, ids);
    MarkedUnderway(begun, p, ids, id);
    OneStale(cfg, begun, before, p);
    actions := before + [PurgeFlip(p, true)];
  }
}
