/** Which upload the object of a record belongs to, and that only deleted records lose theirs to a
    delete or a purge: in every interleaving, whether or not INSERTs are acknowledged. */
module StorageKeys {
  import opened Storage
  import opened StorageSafety

  /** The INSERT of the upload has been tried, or will not be. */
  predicate PastInsert(pc: UploadPc) {
    !InFlight(pc) && pc != Streaming
  }

  ghost predicate KeyKnown(s: State, i: FileId)
    requires i < |s.rows|
  {
    var p := s.rows[i].key;
    p < |s.procs| && s.procs[p].Upload? && PastInsert(s.procs[p].upc)
  }

  ghost predicate DistinctKeys(rows: seq<Row>) {
    forall i, j | 0 <= i < j < |rows| :: rows[i].key != rows[j].key
  }

  /** Whoever is about to drop the object of a row finds the row deleted. */
  ghost predicate WorksOnDeleted(s: State, proc: Proc) {
    match proc
    case Upload(_, _, _) => true
    case Delete(target, _, dpc) => dpc == Dropping ==> Gone(s.rows, target)
    case Purge(purger, todo, ppc, _) =>
      if purger == OrphanPass then ppc != Flip && AllGone(s.rows, todo)
      else ppc == Drop ==> todo != [] && Gone(s.rows, todo[0])
  }

  ghost predicate Keyed(s: State) {
    && (forall i | 0 <= i < |s.rows| :: KeyKnown(s, i))
    && DistinctKeys(s.rows)
    && (forall q | 0 <= q < |s.procs| :: WorksOnDeleted(s, s.procs[q]))
  }

  predicate StaysPast(proc: Proc, proc': Proc) {
    proc.Upload? && PastInsert(proc.upc) ==> proc'.Upload? && PastInsert(proc'.upc)
  }

  /** A step of p that adds no row. */
  lemma KeysFrame(s: State, s': State, p: Pid)
    requires Keyed(s) && |s'.rows| == |s.rows| && RowsKept(s.rows, s'.rows)
    requires |s.procs| <= |s'.procs|
    requires forall q | 0 <= q < |s'.procs| :: q != p ==> q < |s.procs| && s'.procs[q] == s.procs[q]
    requires p < |s'.procs| ==> WorksOnDeleted(s', s'.procs[p])
    requires p < |s.procs| ==> StaysPast(s.procs[p], s'.procs[p])
    ensures Keyed(s')
  {
    forall i | 0 <= i < |s'.rows| ensures KeyKnown(s', i) {
      assert KeyKnown(s, i);
    }
    forall q | 0 <= q < |s'.procs| ensures WorksOnDeleted(s', s'.procs[q]) {
      if q != p {
        var proc := s'.procs[q];
        assert q < |s.procs| && s.procs[q] == proc && WorksOnDeleted(s, proc);
      }
    }
  }

  /** A committed INSERT, acknowledged or not. */
  lemma InsertKeyed(s: State, p: Pid, pc: UploadPc)
    requires Keyed(s) && IsUpload(s, p, Cleared) && PastInsert(pc)
    ensures Keyed(AddRow(Advance(s, p, pc), p))
  {
    var s' := AddRow(Advance(s, p, pc), p);
    forall i | 0 <= i < |s.rows| ensures s.rows[i].key != p {
      assert KeyKnown(s, i);
    }
    forall i | 0 <= i < |s'.rows| ensures KeyKnown(s', i) {
      if i < |s.rows| { assert KeyKnown(s, i); }
    }
    forall q | 0 <= q < |s'.procs| ensures WorksOnDeleted(s', s'.procs[q]) {
      assert WorksOnDeleted(s, s.procs[q]);
    }
  }

  lemma OutsideKeyed(cfg: Config, s: State, a: Action)
    requires Keyed(s)
    ensures Keyed(OutsideStep(cfg, s, a))
  {
    KeysFrame(s, OutsideStep(cfg, s, a), |s.procs|);
  }

  lemma UploadKeyed(cfg: Config, s: State, a: Action)
    requires Keyed(s)
    ensures Keyed(StoreStep(s, a)) && Keyed(QuotaStep(cfg, s, a))
  {
    if StoreStep(s, a) != s { KeysFrame(s, StoreStep(s, a), if a.BeginUpload? then |s.procs| else a.p); }
    if QuotaStep(cfg, s, a) != s { KeysFrame(s, QuotaStep(cfg, s, a), a.p); }
  }

  lemma RecordKeyed(cfg: Config, s: State, a: Action)
    requires Keyed(s)
    ensures Keyed(RecordStep(cfg, s, a))
  {
    var s' := RecordStep(cfg, s, a);
    if s' != s {
      if a.Insert? {
        InsertKeyed(s, a.p, Created(|s.rows|));
      } else if a.InsertFails? && a.committed && !cfg.acknowledged {
        InsertKeyed(s, a.p, Rejected);
      } else {
        KeysFrame(s, s', a.p);
      }
    }
  }

  lemma DeleteKeyed(s: State, a: Action)
    requires Keyed(s)
    ensures Keyed(DeleteStep(s, a))
  {
    var s' := DeleteStep(s, a);
    if s' != s { KeysFrame(s, s', if a.BeginDelete? then |s.procs| else a.p); }
  }

  lemma PurgeKeyed(cfg: Config, s: State, a: Action)
    requires Keyed(s)
    ensures Keyed(PurgeStep(cfg, s, a))
  {
    var s' := PurgeStep(cfg, s, a);
    if s' != s {
      if a.BeginOrphans? {
        forall i | 0 <= i < |a.ids| ensures Gone(s.rows, a.ids[i]) {
          assert Pending(s, a.ids[i]);
        }
      } else if !a.BeginPurge? {
        assert WorksOnDeleted(s, s.procs[a.p]);
      }
      KeysFrame(s, s', if a.BeginPurge? then |s.procs| else a.p);
    }
  }

  lemma {:induction false} StaysKeyed(cfg: Config, s: State, actions: seq<Action>)
    requires Keyed(s)
    ensures Keyed(Run(cfg, s, actions))
    decreases |actions|
  {
    if actions != [] {
      var before, a := Run(cfg, s, actions[..|actions| - 1]), actions[|actions| - 1];
      StaysKeyed(cfg, s, actions[..|actions| - 1]);
      OutsideKeyed(cfg, before, a);
      UploadKeyed(cfg, before, a);
      RecordKeyed(cfg, before, a);
      DeleteKeyed(before, a);
      PurgeKeyed(cfg, before, a);
    }
  }

  lemma ReachableKeyed(cfg: Config, s: State)
    requires Reachable(cfg, s)
    ensures Keyed(s)
  {
    var actions :| Run(cfg, START, actions) == s;
    StaysKeyed(cfg, START, actions);
  }
}
