/** Deletes, the retention worker's cycle and the admin's manual purge as the code runs them, without
    interference. Each is a run of the storage state machine. */
module Cleanup {
  import opened Wrappers
  import opened Bytes
  import opened Storage
  import Retention

  // ---------- What a purge does to the tables ----------

  function LiveBytes(rows: seq<Row>): nat {
    if rows == [] then 0
    else LiveBytes(rows[..|rows| - 1]) + if rows[|rows| - 1].Deleted() then 0 else rows[|rows| - 1].size
  }

  function LiveCount(rows: seq<Row>): nat {
    if rows == [] then 0
    else LiveCount(rows[..|rows| - 1]) + if rows[|rows| - 1].Deleted() then 0 else 1
  }

  lemma {:induction false} FlipLive(rows: seq<Row>, id: FileId, p: Pid, now: int)
    requires id < |rows| && !rows[id].Deleted()
    ensures LiveBytes(FlipRow(rows, id, p, now, false)) == LiveBytes(rows) - rows[id].size
    ensures LiveCount(FlipRow(rows, id, p, now, false)) == LiveCount(rows) - 1
  {
    var rows' := FlipRow(rows, id, p, now, false);
    var n := |rows| - 1;
    if id == n {
      assert rows'[..n] == rows[..n];
    } else {
      FlipLive(rows[..n], id, p, now);
      assert rows'[..n] == FlipRow(rows[..n], id, p, now, false);
      assert rows'[n] == rows[n];
    }
  }

  /** The live ones of the listed rows deleted by p where the statement works, all else as it was. */
  ghost predicate Purged(rows: seq<Row>, rows': seq<Row>, ids: seq<FileId>, ok: FileId -> bool, p: Pid, now: int) {
    && |rows'| == |rows|
    && forall i | 0 <= i < |rows| ::
         rows'[i] == if i in ids && ok(i) then StampRow(rows[i], p, now, false) else rows[i]
  }

  /** One of the listed rows, where the call works, has this key. */
  ghost predicate KeyDropped(rows: seq<Row>, ids: seq<FileId>, ok: FileId -> bool, key: Pid) {
    exists i :: 0 <= i < |ids| && ids[i] < |rows| && ok(ids[i]) && rows[ids[i]].key == key
  }

  ghost predicate KeyOfDeleted(rows: seq<Row>, key: Pid) {
    exists i :: 0 <= i < |rows| && rows[i].Deleted() && rows[i].key == key
  }

  /** The objects of the listed rows are gone where the call works, and no others. */
  ghost predicate Dropped(objects: set<Pid>, objects': set<Pid>, rows: seq<Row>, ids: seq<FileId>, ok: FileId -> bool) {
    forall key :: key in objects' <==> key in objects && !KeyDropped(rows, ids, ok, key)
  }

  lemma KeyDroppedNext(rows: seq<Row>, ids: seq<FileId>, ok: FileId -> bool, n: nat, key: Pid)
    requires n < |ids| && ids[n] < |rows|
    ensures KeyDropped(rows, ids[..n + 1], ok, key) <==>
            KeyDropped(rows, ids[..n], ok, key) || (ok(ids[n]) && rows[ids[n]].key == key)
  {
    if KeyDropped(rows, ids[..n + 1], ok, key) {
      var i :| 0 <= i < n + 1 && ids[i] < |rows| && ok(ids[i]) && rows[ids[i]].key == key;
      assert i < n ==> ids[..n][i] == ids[i];
    }
    if KeyDropped(rows, ids[..n], ok, key) {
      var i :| 0 <= i < n && ids[i] < |rows| && ok(ids[i]) && rows[ids[i]].key == key;
      assert ids[..n + 1][i] == ids[i];
    }
    assert ids[..n + 1][n] == ids[n];
  }

  lemma DroppedNext(start: set<Pid>, objects: set<Pid>, objects': set<Pid>, rows: seq<Row>, ids: seq<FileId>,
                    ok: FileId -> bool, n: nat)
    requires n < |ids| && ids[n] < |rows|
    requires Dropped(start, objects, rows, ids[..n], ok)
    requires objects' == if ok(ids[n]) then objects - {rows[ids[n]].key} else objects
    ensures Dropped(start, objects', rows, ids[..n + 1], ok)
  {
    forall key: Pid ensures key in objects' <==> key in start && !KeyDropped(rows, ids[..n + 1], ok, key) {
      KeyDroppedNext(rows, ids, ok, n, key);
    }
  }

  /** The listed ids are in the log where the statement works, and nothing else is new in it. */
  ghost predicate Logged(log: set<FileId>, log': set<FileId>, ids: seq<FileId>, ok: FileId -> bool) {
    forall id :: id in log' <==> id in log || (id in ids && ok(id))
  }

  lemma LoggedNext(start: set<FileId>, log: set<FileId>, log': set<FileId>, ids: seq<FileId>, ok: FileId -> bool,
                   n: nat)
    requires n < |ids| && Logged(start, log, ids[..n], ok)
    requires log' == if ok(ids[n]) then log + {ids[n]} else log
    ensures Logged(start, log', ids[..n + 1], ok)
  {
    assert ids[..n + 1] == ids[..n] + [ids[n]];
  }

  function Both(f: FileId -> bool, g: FileId -> bool): FileId -> bool {
    (id: FileId) => f(id) && g(id)
  }

  lemma PurgedNext(rows: seq<Row>, before: seq<Row>, ids: seq<FileId>, ok: FileId -> bool, n: nat, p: Pid, now: int)
    requires n < |ids| && ids[n] < |rows|
    requires Purged(rows, before, ids[..n], ok, p, now)
    ensures
      var after := if ok(ids[n]) then FlipRow(before, ids[n], p, now, false) else before;
      Purged(rows, after, ids[..n + 1], ok, p, now)
  {
    assert forall id :: id in ids[..n + 1] <==> id in ids[..n] || id == ids[n];
  }

  /** How many of the candidates the statement works for. */
  function Working(ids: seq<FileId>, ok: FileId -> bool): (r: nat)
    ensures r <= |ids|
  {
    if ids == [] then 0 else Working(ids[..|ids| - 1], ok) + if ok(ids[|ids| - 1]) then 1 else 0
  }

  lemma {:induction false} WorkingAll(ids: seq<FileId>, ok: FileId -> bool)
    requires forall id :: ok(id)
    ensures Working(ids, ok) == |ids|
  {
    if ids != [] {
      WorkingAll(ids[..|ids| - 1], ok);
    }
  }

  lemma WorkingNext(ids: seq<FileId>, ok: FileId -> bool, n: nat)
    requires n < |ids|
    ensures Working(ids[..n + 1], ok) == Working(ids[..n], ok) + if ok(ids[n]) then 1 else 0
  {
    assert ids[..n + 1][..n] == ids[..n];
  }

  predicate AllLive(rows: seq<Row>, ids: seq<FileId>) {
    forall i | 0 <= i < |ids| :: ids[i] < |rows| && !rows[ids[i]].Deleted()
  }

  /** Candidates are distinct, so the next one is still live. */
  lemma NextLive(rows: seq<Row>, before: seq<Row>, ids: seq<FileId>, ok: FileId -> bool, n: nat, p: Pid, now: int)
    requires Distinct(ids) && AllLive(rows, ids) && n < |ids| && Purged(rows, before, ids[..n], ok, p, now)
    ensures ids[n] < |before| && before[ids[n]] == rows[ids[n]] && !before[ids[n]].Deleted()
  {
    assert ids[n] !in ids[..n];
  }

  /** Which statements and object-store calls succeed. */
  datatype Outcomes = Outcomes(flip: FileId -> bool, drop: FileId -> bool, log: FileId -> bool)

  /** What the queries look at. */
  function Seen(now: int, rows: seq<Row>, log: set<FileId>): State {
    State(now, rows, {}, log, map[], [])
  }

  /** FindFilesEligibleForDeletion: all the selected files, in any order. */
  ghost predicate IsEligibleResult(cfg: Config, now: int, rows: seq<Row>, ids: seq<FileId>) {
    Distinct(ids) && forall id :: id in ids <==> Selected(cfg, Seen(now, rows, {}), id)
  }

  function Files(rows: seq<Row>): seq<Retention.File> {
    seq(|rows|, i requires 0 <= i < |rows| => rows[i].File())
  }

  /** The two rules joined by UNION ALL are such a result. */
  lemma UnionIsEligibleResult(cfg: Config, now: int, rows: seq<Row>)
    ensures IsEligibleResult(cfg, now, rows, Retention.FindFilesEligibleForDeletion(Files(rows), cfg.retention, now))
  {
    Retention.QueryExact(Files(rows), cfg.retention, now);
  }

  /** FindSoftDeletedPendingObjectPurge, as a function of the tables. */
  type PendingQuery = (seq<Row>, set<FileId>) -> seq<FileId>

  ghost predicate SelectsPending(query: PendingQuery, now: int) {
    forall rows, log :: IsPendingResult(Seen(now, rows, log), query(rows, log))
  }

  function Capped(candidates: seq<FileId>): seq<FileId> {
    candidates[..Min(|candidates|, MAX_FILES_PER_CYCLE)]
  }

  /** Cut to the cap, the query's result is what the state machine's purges begin with. */
  lemma CappedCandidates(cfg: Config, s: State, candidates: seq<FileId>)
    requires IsEligibleResult(cfg, s.now, s.rows, candidates)
    ensures IsCandidates(cfg, s, Capped(candidates)) && AllLive(s.rows, Capped(candidates))
  {
    var seen := Seen(s.now, s.rows, {});
    forall id: FileId ensures Selected(cfg, seen, id) <==> Selected(cfg, s, id) {}
    forall i | 0 <= i < |Capped(candidates)| ensures Selected(cfg, s, Capped(candidates)[i]) {
      assert candidates[i] in candidates;
    }
  }

  datatype Tables = Tables(rows: seq<Row>, log: set<FileId>, objects: set<Pid>)

  /** What purgeFile does for one candidate. */
  ghost predicate PurgedOne(t: Tables, t': Tables, id: FileId, p: Pid, now: int, outcomes: Outcomes)
    requires id < |t.rows|
  {
    if outcomes.flip(id) then
      && t'.rows == FlipRow(t.rows, id, p, now, false)
      && t'.objects == (if outcomes.drop(id) then t.objects - {t.rows[id].key} else t.objects)
      && t'.log == if outcomes.log(id) then t.log + {id} else t.log
    else t' == t
  }

  /** What the first pass of a cycle does for all of its candidates: the live bytes fall by exactly
      the bytes it reports. */
  ghost predicate FirstPass(t: Tables, t': Tables, ids: seq<FileId>, p: Pid, now: int, outcomes: Outcomes,
                            deleted: nat, freedBytes: nat)
  {
    && Purged(t.rows, t'.rows, ids, outcomes.flip, p, now)
    && deleted == Working(ids, outcomes.flip)
    && LiveBytes(t'.rows) == LiveBytes(t.rows) - freedBytes
    && LiveCount(t'.rows) == LiveCount(t.rows) - deleted
    && Dropped(t.objects, t'.objects, t.rows, ids, Both(outcomes.flip, outcomes.drop))
    && Logged(t.log, t'.log, ids, Both(outcomes.flip, outcomes.log))
  }

  lemma FirstPassNext(start: Tables, t: Tables, t': Tables, ids: seq<FileId>, p: Pid, now: int, outcomes: Outcomes,
                      deleted: nat, freedBytes: nat, n: nat)
    requires Distinct(ids) && AllLive(start.rows, ids) && n < |ids|
    requires FirstPass(start, t, ids[..n], p, now, outcomes, deleted, freedBytes)
    requires ids[n] < |t.rows| && PurgedOne(t, t', ids[n], p, now, outcomes)
    ensures ids[n] < |t'.rows| && (
      if outcomes.flip(ids[n]) then
        FirstPass(start, t', ids[..n + 1], p, now, outcomes, deleted + 1, freedBytes + t.rows[ids[n]].size)
      else FirstPass(start, t', ids[..n + 1], p, now, outcomes, deleted, freedBytes))
  {
    NextLive(start.rows, t.rows, ids, outcomes.flip, n, p, now);
    WorkingNext(ids, outcomes.flip, n);
    FlipLive(t.rows, ids[n], p, now);
    PurgedNext(start.rows, t.rows, ids, outcomes.flip, n, p, now);
    DroppedNext(start.objects, t.objects, t'.objects, start.rows, ids, Both(outcomes.flip, outcomes.drop), n);
    LoggedNext(start.log, t.log, t'.log, ids, Both(outcomes.flip, outcomes.log), n);
  }

  /** What the second pass does for one row. */
  ghost predicate OrphanOne(t: Tables, t': Tables, id: FileId, o: Outcomes)
    requires id < |t.rows|
  {
    && t'.rows == t.rows
    && t'.objects == (if o.drop(id) then t.objects - {t.rows[id].key} else t.objects)
    && t'.log == if o.log(id) then t.log + {id} else t.log
  }

  /** And for all that its query returned. */
  ghost predicate SecondPass(t: Tables, t': Tables, ids: seq<FileId>, o: Outcomes) {
    && t'.rows == t.rows
    && Dropped(t.objects, t'.objects, t.rows, ids, o.drop)
    && Logged(t.log, t'.log, ids, o.log)
  }

  lemma SecondPassNext(start: Tables, t: Tables, t': Tables, ids: seq<FileId>, o: Outcomes, n: nat)
    requires n < |ids| && ids[n] < |start.rows|
    requires SecondPass(start, t, ids[..n], o) && OrphanOne(t, t', ids[n], o)
    ensures SecondPass(start, t', ids[..n + 1], o)
  {
    DroppedNext(start.objects, t.objects, t'.objects, start.rows, ids, o.drop, n);
    LoggedNext(start.log, t.log, t'.log, ids, o.log, n);
  }

  /** A cycle only takes objects of rows that are deleted by now. */
  lemma OnlyDeletedDropped(t0: Tables, t1: Tables, t2: Tables, ids: seq<FileId>, p: Pid, now: int, o: Outcomes,
                           deleted: nat, freedBytes: nat, pending: seq<FileId>)
    requires FirstPass(t0, t1, ids, p, now, o, deleted, freedBytes)
    requires SecondPass(t1, t2, pending, o) && AllGone(t1.rows, pending)
    ensures forall key | key in t0.objects && key !in t2.objects :: KeyOfDeleted(t2.rows, key)
  {
    forall key | key in t0.objects && key !in t2.objects ensures KeyOfDeleted(t2.rows, key) {
      if key in t1.objects {
        var i :| 0 <= i < |pending| && pending[i] < |t1.rows| && o.drop(pending[i]) && t1.rows[pending[i]].key == key;
        assert Gone(t1.rows, pending[i]);
      } else {
        assert KeyDropped(t0.rows, ids, Both(o.flip, o.drop), key);
        var i :| 0 <= i < |ids| && ids[i] < |t0.rows| && Both(o.flip, o.drop)(ids[i]) && t0.rows[ids[i]].key == key;
        assert t1.rows[ids[i]].Deleted() && t1.rows[ids[i]].key == key;
      }
    }
  }

  /** What the manual purge does for one candidate: it looks at the affected count. */
  ghost predicate AdminOne(t: Tables, t': Tables, id: FileId, p: Pid, now: int, o: Outcomes)
    requires id < |t.rows|
  {
    && t'.rows == (if o.flip(id) then FlipRow(t.rows, id, p, now, false) else t.rows)
    && t'.objects == t.objects
    && t'.log == if o.flip(id) && !t.rows[id].Deleted() && o.log(id) then t.log + {id} else t.log
  }

  /** And for all of them: it reports exactly what it marked itself, logs that, and leaves the objects
      alone. */
  ghost predicate AdminPass(t: Tables, t': Tables, ids: seq<FileId>, p: Pid, now: int, o: Outcomes,
                            deleted: nat, freedBytes: nat)
  {
    && Purged(t.rows, t'.rows, ids, o.flip, p, now)
    && LiveBytes(t'.rows) == LiveBytes(t.rows) - freedBytes
    && LiveCount(t'.rows) == LiveCount(t.rows) - deleted
    && t'.objects == t.objects
    && forall id :: id in t'.log <==>
         (id in t.log || (id in ids && id < |t.rows| && !t.rows[id].Deleted() && o.flip(id) && o.log(id)))
  }

  lemma AdminPassNext(start: Tables, t: Tables, t': Tables, ids: seq<FileId>, p: Pid, now: int, o: Outcomes,
                      deleted: nat, freedBytes: nat, n: nat)
    requires n < |ids| && ids[n] < |start.rows| && |t.rows| == |start.rows|
    requires AdminPass(start, t, ids[..n], p, now, o, deleted, freedBytes) && AdminOne(t, t', ids[n], p, now, o)
    ensures
      if o.flip(ids[n]) && !t.rows[ids[n]].Deleted() then
        AdminPass(start, t', ids[..n + 1], p, now, o, deleted + 1, freedBytes + t.rows[ids[n]].size)
      else AdminPass(start, t', ids[..n + 1], p, now, o, deleted, freedBytes)
  {
    assert ids[..n + 1] == ids[..n] + [ids[n]];
    PurgedNext(start.rows, t.rows, ids, o.flip, n, p, now);
    if t.rows[ids[n]].Deleted() {
      assert FlipRow(t.rows, ids[n], p, now, false) == t.rows;
    } else {
      FlipLive(t.rows, ids[n], p, now);
    }
  }

  datatype DeleteReply = NoContent | NotFound | Forbidden | Failed

  class Service {
    const cfg: Config
    const now: int  // of the database, for one call
    var rows: seq<Row>
    var log: set<FileId>
    var objects: set<Pid>

    constructor (cfg: Config, now: int, rows: seq<Row>, log: set<FileId>, objects: set<Pid>)
      ensures this.cfg == cfg && this.now == now
      ensures this.rows == rows && this.log == log && this.objects == objects
    {
      this.cfg, this.now := cfg, now;
      this.rows, this.log, this.objects := rows, log, objects;
    }

    ghost function Snapshot(): Tables
      reads this
    {
      Tables(rows, log, objects)
    }

    /** The service's view of a state of the state machine. */
    ghost predicate Shows(s: State)
      reads this
    {
      now == s.now && rows == s.rows && log == s.log && objects == s.objects
    }

    /** UPDATE ... SET deleted_at = now() WHERE id = $1 AND deleted_at IS NULL; affected tells whether
        a row matched. */
    method SoftDeleteByID(id: FileId, p: Pid) returns (affected: bool)
      requires id < |rows|
      modifies `rows
      ensures affected <==> !old(rows)[id].Deleted()
      ensures rows == FlipRow(old(rows), id, p, now, false)
    {
      affected := !rows[id].Deleted();
      if affected {
        rows := rows[id := rows[id].(deletedAt := Some(now), flippedBy := p)];
      }
    }

    /** FileRepository.SoftDelete, which also checks the owner. */
    method SoftDelete(id: FileId, owner: Owner, p: Pid) returns (found: bool)
      requires id < |rows|
      modifies `rows
      ensures found <==> old(rows)[id].owner == owner && !old(rows)[id].Deleted()
      ensures rows == if found then FlipRow(old(rows), id, p, now, false) else old(rows)
    {
      found := false;
      if rows[id].owner == owner {
        found := SoftDeleteByID(id, p);
      }
    }

    /** DeleteFile with its detached drop, without interference. Only a live file is found, only its
        owner or an administrator may delete it; the row is marked before the object goes, and there
        is no entry in the purge log. */
    method DeleteFile(id: FileId, caller: Owner, isAdmin: bool, updateOk: bool, dropOk: bool, p: Pid, ghost s: State)
        returns (reply: DeleteReply, ghost s': State)
      requires Shows(s) && p == |s.procs|
      modifies this
      ensures Reaches(cfg, s, s') && Shows(s')
      ensures reply.NotFound? <==> !Live(s, id)
      ensures reply.Forbidden? <==> Live(s, id) && s.rows[id].owner != caller && !isAdmin
      ensures reply.NoContent? <==> Live(s, id) && (s.rows[id].owner == caller || isAdmin) && updateOk
      ensures reply.NoContent? ==> rows == old(rows)[id := old(rows)[id].(deletedAt := Some(now), flippedBy := p)]
      ensures reply.NoContent? ==>
        && Live(s, id) && Gone(rows, id) && rows == FlipRow(old(rows), id, p, now, false)
        && objects == if dropOk then old(objects) - {rows[id].key} else old(objects)
      ensures !reply.NoContent? ==> rows == old(rows) && objects == old(objects)
      ensures log == old(log)
    {
      ReachesStart(cfg, s);
      s' := s;
      if id >= |rows| || rows[id].Deleted() { return NotFound, s'; }
      var owner, key := rows[id].owner, rows[id].key;
      if owner != caller && !isAdmin { return Forbidden, s'; }
      s' := Advanced(cfg, s, s', BeginDelete(id, false));
      s' := Advanced(cfg, s, s', Action.SoftDelete(p, updateOk));
      if !updateOk { return Failed, s'; }
      var _ := SoftDelete(id, owner, p);
      if dropOk { objects := objects - {key}; }
      s' := Advanced(cfg, s, s', DropDeleted(p, dropOk));
      reply := NoContent;
    }

    /** handleAdminDeleteFile without interference: marks and logs, and leaves the object. */
    method AdminDeleteFile(id: FileId, updateOk: bool, logOk: bool, p: Pid, ghost s: State)
        returns (reply: DeleteReply, ghost s': State)
      requires Shows(s) && p == |s.procs|
      modifies this
      ensures Reaches(cfg, s, s') && Shows(s') && objects == old(objects)
      ensures reply.NotFound? <==> !Live(s, id)
      ensures reply.NoContent? <==> Live(s, id) && updateOk
      ensures reply.NoContent? ==> rows == old(rows)[id := old(rows)[id].(deletedAt := Some(now), flippedBy := p)]
      ensures reply.NoContent? ==>
        && Live(s, id) && Gone(rows, id) && rows == FlipRow(old(rows), id, p, now, false)
        && log == if logOk then old(log) + {id} else old(log)
      ensures !reply.NoContent? ==> rows == old(rows) && log == old(log)
    {
      ReachesStart(cfg, s);
      s' := s;
      if id >= |rows| || rows[id].Deleted() { return NotFound, s'; }
      s' := Advanced(cfg, s, s', BeginDelete(id, true));
      s' := Advanced(cfg, s, s', Action.SoftDelete(p, updateOk));
      if !updateOk { return Failed, s'; }
      rows := rows[id := rows[id].(deletedAt := Some(now), flippedBy := p)];
      if logOk { log := log + {id}; }
      s' := Advanced(cfg, s, s', LogDeleted(p, logOk));
      reply := NoContent;
    }

    /** purgeFile: mark, object, log. Only a failing mark is an error. */
    method PurgeFile(id: FileId, p: Pid, outcomes: Outcomes) returns (done: bool)
      requires id < |rows|
      modifies this
      ensures done <==> outcomes.flip(id)
      ensures PurgedOne(old(Snapshot()), Snapshot(), id, p, now, outcomes)
    {
      done := outcomes.flip(id);
      if done {
        var _ := SoftDeleteByID(id, p);
        if outcomes.drop(id) { objects := objects - {rows[id].key}; }
        if outcomes.log(id) { log := log + {id}; }
      }
    }

    /** One round of the loop of purgeOrphanedObjects. */
    method PurgeOrphan(id: FileId, outcomes: Outcomes)
      requires id < |rows|
      modifies `objects, `log
      ensures OrphanOne(old(Snapshot()), Snapshot(), id, outcomes)
    {
      if outcomes.drop(id) { objects := objects - {rows[id].key}; }
      if outcomes.log(id) { log := log + {id}; }
    }

    /** The loop of purgeOrphanedObjects. */
    method PurgeOrphans(pending: seq<FileId>, p: Pid, outcomes: Outcomes, ghost freed: nat, ghost s0: State,
                        ghost s: State)
        returns (ghost s': State)
      requires Reaches(cfg, s0, s) && Shows(s) && AllGone(rows, pending)
      requires p < |s.procs| && s.procs[p] == Purge(OrphanPass, pending, Drop, freed)
      modifies `objects, `log
      ensures Reaches(cfg, s0, s') && Shows(s')
      ensures SecondPass(old(Snapshot()), Snapshot(), pending, outcomes)
    {
      s' := s;
      var i := 0;
      while i < |pending|
        invariant 0 <= i <= |pending|
        invariant SecondPass(old(Snapshot()), Snapshot(), pending[..i], outcomes)
        invariant Reaches(cfg, s0, s') && Shows(s')
        invariant p < |s'.procs| && s'.procs[p] == Purge(OrphanPass, pending[i..], Drop, freed)
      {
        ghost var before := Snapshot();
        assert Gone(rows, pending[i]);
        PurgeOrphan(pending[i], outcomes);
        SecondPassNext(old(Snapshot()), before, Snapshot(), pending, outcomes, i);
        s' := OrphanSteps(cfg, s0, s', p, pending[i..], freed, outcomes, Snapshot());
        assert pending[i..][1..] == pending[i + 1..];
        i := i + 1;
      }
      assert pending[..|pending|] == pending;
    }

    /** purgeOrphanedObjects: whatever the query selects is logged even if its object stays. */
    method PurgeOrphanedObjects(p: Pid, query: PendingQuery, outcomes: Outcomes, ghost s0: State, ghost s: State)
        returns (ghost s': State)
      requires Reaches(cfg, s0, s) && Shows(s) && FirstPassDone(s, p) && SelectsPending(query, now)
      modifies `objects, `log
      ensures Reaches(cfg, s0, s') && Shows(s')
      ensures AllGone(rows, query(rows, old(log))) && |query(rows, old(log))| <= 200
      ensures SecondPass(old(Snapshot()), Snapshot(), query(rows, old(log)), outcomes)
    {
      var pending := query(rows, log);
      PendingGone(Seen(now, rows, log), s, pending);
      s' := Advanced(cfg, s0, s, BeginOrphans(p, pending));
      s' := PurgeOrphans(pending, p, outcomes, s.procs[p].freed, s0, s');
    }

    /** One round of the loop of runCycle. */
    method PurgeCandidate(todo: seq<FileId>, i: nat, p: Pid, outcomes: Outcomes, deleted: nat, freedBytes: nat,
                          ghost start: Tables, ghost s0: State, ghost s: State)
        returns (deleted': nat, freedBytes': nat, ghost s': State)
      requires Distinct(todo) && AllLive(start.rows, todo) && i < |todo| && |rows| == |start.rows|
      requires FirstPass(start, Snapshot(), todo[..i], p, now, outcomes, deleted, freedBytes)
      requires Reaches(cfg, s0, s) && Shows(s)
      requires p < |s.procs| && s.procs[p] == Purge(WorkerCycle, todo[i..], Flip, freedBytes)
      modifies this
      ensures |rows| == |old(rows)|
      ensures FirstPass(start, Snapshot(), todo[..i + 1], p, now, outcomes, deleted', freedBytes')
      ensures Reaches(cfg, s0, s') && Shows(s')
      ensures p < |s'.procs| && s'.procs[p] == Purge(WorkerCycle, todo[i + 1..], Flip, freedBytes')
    {
      deleted', freedBytes' := deleted, freedBytes;
      assert todo[i] < |rows|;
      var size := rows[todo[i]].size;
      var done := PurgeFile(todo[i], p, outcomes);
      s' := CandidateNext(cfg, s0, s, start, Snapshot(), todo, p, outcomes, deleted, freedBytes, i);
      if done {
        deleted', freedBytes' := deleted + 1, freedBytes + size;
      }
    }

    /** The first pass of runCycle. */
    method PurgeCandidates(todo: seq<FileId>, p: Pid, outcomes: Outcomes, ghost s0: State, ghost s: State)
        returns (deleted: nat, freedBytes: nat, ghost s': State)
      requires Distinct(todo) && AllLive(rows, todo)
      requires Reaches(cfg, s0, s) && Shows(s) && p < |s.procs| && s.procs[p] == Purge(WorkerCycle, todo, Flip, 0)
      modifies this
      ensures FirstPass(old(Snapshot()), Snapshot(), todo, p, now, outcomes, deleted, freedBytes)
      ensures Reaches(cfg, s0, s') && Shows(s') && FirstPassDone(s', p) && s'.procs[p].freed == freedBytes
    {
      deleted, freedBytes := 0, 0;
      s' := s;
      var i := 0;
      while i < |todo|
        invariant 0 <= i <= |todo| && |rows| == |old(rows)|
        invariant FirstPass(old(Snapshot()), Snapshot(), todo[..i], p, now, outcomes, deleted, freedBytes)
        invariant Reaches(cfg, s0, s') && Shows(s')
        invariant p < |s'.procs| && s'.procs[p] == Purge(WorkerCycle, todo[i..], Flip, freedBytes)
      {
        deleted, freedBytes, s' :=
          PurgeCandidate(todo, i, p, outcomes, deleted, freedBytes, old(Snapshot()), s0, s');
        i := i + 1;
      }
      assert todo[..|todo|] == todo;
    }

    /** runCycle: with retention off, or without candidates, not even the orphan pass runs. */
    method RunCycle(candidates: seq<FileId>, p: Pid, query: PendingQuery, outcomes: Outcomes, ghost s: State)
        returns (deleted: nat, freedBytes: nat, ghost s': State, ghost marked: Tables)
      requires Shows(s) && p == |s.procs| && (cfg.oneWorker ==> NoCycle(s))
      requires IsEligibleResult(cfg, now, rows, candidates) && SelectsPending(query, now)
      modifies this
      ensures Reaches(cfg, s, s') && Shows(s')
      ensures !cfg.retention.enabled || candidates == [] ==>
        deleted == freedBytes == 0 && rows == old(rows) && objects == old(objects) && log == old(log)
      ensures cfg.retention.enabled ==>
        && Purged(old(rows), rows, Capped(candidates), outcomes.flip, p, now)
        && deleted == Working(Capped(candidates), outcomes.flip)
      // the first pass, and what its tables then have for the second
      ensures cfg.retention.enabled && candidates != [] ==>
        && FirstPass(old(Snapshot()), marked, Capped(candidates), p, now, outcomes, deleted, freedBytes)
        && SecondPass(marked, Snapshot(), query(marked.rows, marked.log), outcomes)
      ensures LiveBytes(rows) == LiveBytes(old(rows)) - freedBytes
      ensures LiveCount(rows) == LiveCount(old(rows)) - deleted
      ensures forall key | key in old(objects) && key !in objects :: KeyOfDeleted(rows, key)
    {
      deleted, freedBytes, marked := 0, 0, Snapshot();
      ReachesStart(cfg, s);
      s' := s;
      if !cfg.retention.enabled || candidates == [] { return; }
      CappedCandidates(cfg, s, candidates);
      s' := Advanced(cfg, s, s', BeginPurge(WorkerCycle, Capped(candidates)));
      deleted, freedBytes, s' := PurgeCandidates(Capped(candidates), p, outcomes, s, s');
      marked := Snapshot();
      s' := PurgeOrphanedObjects(p, query, outcomes, s, s');
      OnlyDeletedDropped(old(Snapshot()), marked, Snapshot(), Capped(candidates), p, now, outcomes, deleted, freedBytes,
                         query(marked.rows, marked.log));
    }

    /** The UPDATE of handleTriggerPurge, and the log entry if it has marked the row. */
    method PurgeByHand(id: FileId, p: Pid, outcomes: Outcomes) returns (affected: bool)
      requires id < |rows|
      modifies `rows, `log
      ensures affected <==> outcomes.flip(id) && !old(rows)[id].Deleted()
      ensures AdminOne(old(Snapshot()), Snapshot(), id, p, now, outcomes)
    {
      affected := false;
      if outcomes.flip(id) {
        affected := SoftDeleteByID(id, p);
      }
      if affected && outcomes.log(id) { log := log + {id}; }
    }

    /** One round of the loop of handleTriggerPurge. */
    method PurgeNext(todo: seq<FileId>, i: nat, p: Pid, outcomes: Outcomes, deleted: nat, freedBytes: nat,
                     ghost start: Tables, ghost s0: State, ghost s: State)
        returns (deleted': nat, freedBytes': nat, ghost s': State)
      requires i < |todo| && todo[i] < |rows| && |rows| == |start.rows|
      requires AdminPass(start, Snapshot(), todo[..i], p, now, outcomes, deleted, freedBytes)
      requires Reaches(cfg, s0, s) && Shows(s)
      requires p < |s.procs| && s.procs[p] == Purge(AdminHandler, todo[i..], Flip, freedBytes)
      modifies `rows, `log
      ensures |rows| == |old(rows)|
      ensures AdminPass(start, Snapshot(), todo[..i + 1], p, now, outcomes, deleted', freedBytes')
      ensures Reaches(cfg, s0, s') && Shows(s')
      ensures p < |s'.procs| && s'.procs[p] == Purge(AdminHandler, todo[i + 1..], Flip, freedBytes')
    {
      deleted', freedBytes' := deleted, freedBytes;
      ghost var before := Snapshot();
      var size := rows[todo[i]].size;
      var affected := PurgeByHand(todo[i], p, outcomes);
      AdminPassNext(start, before, Snapshot(), todo, p, now, outcomes, deleted, freedBytes, i);
      s' := AdminSteps(cfg, s0, s, p, todo[i..], freedBytes, outcomes, Snapshot());
      if affected {
        deleted', freedBytes' := deleted + 1, freedBytes + size;
      }
      assert todo[i..][1..] == todo[i + 1..];
    }

    /** handleTriggerPurge, once its query is answered: counts only the rows it marks itself, and never
        touches the object store. By now others may have deleted candidates. */
    method HandleTriggerPurge(candidates: seq<FileId>, p: Pid, outcomes: Outcomes, ghost s: State)
        returns (deleted: nat, freedBytes: nat, capped: bool, ghost s': State)
      requires forall i | 0 <= i < |candidates| :: candidates[i] < |rows|
      requires Shows(s) && p < |s.procs| && s.procs[p] == Purge(AdminHandler, Capped(candidates), Flip, 0)
      modifies `rows, `log
      ensures Reaches(cfg, s, s') && Shows(s')
      ensures p < |s'.procs| && s'.procs[p] == Purge(AdminHandler, [], Flip, freedBytes)
      ensures capped <==> |candidates| > 500
      ensures AdminPass(old(Snapshot()), Snapshot(), Capped(candidates), p, now, outcomes, deleted, freedBytes)
    {
      var todo := Capped(candidates);
      capped := |candidates| > MAX_FILES_PER_CYCLE;
      deleted, freedBytes := 0, 0;
      ReachesStart(cfg, s);
      s' := s;
      var i := 0;
      while i < |todo|
        invariant 0 <= i <= |todo| && |rows| == |old(rows)|
        invariant AdminPass(old(Snapshot()), Snapshot(), todo[..i], p, now, outcomes, deleted, freedBytes)
        invariant Reaches(cfg, s, s') && Shows(s')
        invariant p < |s'.procs| && s'.procs[p] == Purge(AdminHandler, todo[i..], Flip, freedBytes)
      {
        deleted, freedBytes, s' := PurgeNext(todo, i, p, outcomes, deleted, freedBytes, old(Snapshot()), s, s');
        i := i + 1;
      }
      assert todo[..|todo|] == todo;
    }
  }

  // ---------- The same steps in the state machine ----------

  lemma PendingGone(seen: State, s: State, pending: seq<FileId>)
    requires IsPendingResult(seen, pending)
    requires seen.rows == s.rows && seen.now == s.now && seen.log == s.log
    ensures IsPendingResult(s, pending) && AllGone(s.rows, pending)
  {
    assert forall id: FileId :: Pending(s, id) == Pending(seen, id);
    assert forall a: FileId, b: FileId :: NoEarlier(s, a, b) == NoEarlier(seen, a, b);
    forall i | 0 <= i < |pending| ensures Gone(s.rows, pending[i]) {
      assert Pending(seen, pending[i]);
    }
  }

  /** The object of the next row, and its log entry. */
  lemma DropAndLog(cfg: Config, s0: State, s: State, p: Pid, purger: Purger, todo: seq<FileId>, freed: nat,
                   drop: bool, log: bool)
      returns (s': State)
    requires purger != AdminHandler && todo != [] && todo[0] < |s.rows|
    requires Reaches(cfg, s0, s) && p < |s.procs| && s.procs[p] == Purge(purger, todo, Drop, freed)
    ensures Reaches(cfg, s0, s')
    ensures s' == Move(s, p, Purge(purger, todo[1..], if purger == OrphanPass then Drop else Flip, freed)).(
      objects := if drop then s.objects - {s.rows[todo[0]].key} else s.objects,
      log := if log then s.log + {todo[0]} else s.log)
  {
    s' := Advanced(cfg, s0, s, PurgeDrop(p, drop));
    s' := Advanced(cfg, s0, s', PurgeLog(p, log));
  }

  /** One row of the second pass. */
  lemma OrphanSteps(cfg: Config, s0: State, s: State, p: Pid, todo: seq<FileId>, freed: nat, o: Outcomes, t: Tables)
      returns (s': State)
    requires Reaches(cfg, s0, s) && p < |s.procs| && s.procs[p] == Purge(OrphanPass, todo, Drop, freed)
    requires todo != [] && todo[0] < |s.rows|
    requires OrphanOne(Tables(s.rows, s.log, s.objects), t, todo[0], o)
    ensures Reaches(cfg, s0, s') && s'.now == s.now && Tables(s'.rows, s'.log, s'.objects) == t
    ensures p < |s'.procs| && s'.procs[p] == Purge(OrphanPass, todo[1..], Drop, freed)
  {
    s' := DropAndLog(cfg, s0, s, p, OrphanPass, todo, freed, o.drop(todo[0]), o.log(todo[0]));
  }

  lemma MarkStep(cfg: Config, s0: State, s: State, p: Pid, todo: seq<FileId>, freed: nat) returns (s': State)
    requires Reaches(cfg, s0, s) && p < |s.procs| && s.procs[p] == Purge(WorkerCycle, todo, Flip, freed)
    requires todo != [] && todo[0] < |s.rows|
    ensures Reaches(cfg, s0, s')
    ensures s' == Move(s, p, Purge(WorkerCycle, todo, Drop, freed + s.rows[todo[0]].size)).(
      rows := FlipRow(s.rows, todo[0], p, s.now, false))
  {
    s' := Advanced(cfg, s0, s, PurgeFlip(p, true));
  }

  /** One candidate of the first pass. */
  lemma CandidateSteps(cfg: Config, s0: State, s: State, p: Pid, todo: seq<FileId>, freed: nat, o: Outcomes, t: Tables)
      returns (s': State)
    requires Reaches(cfg, s0, s) && p < |s.procs| && s.procs[p] == Purge(WorkerCycle, todo, Flip, freed)
    requires todo != [] && todo[0] < |s.rows|
    requires PurgedOne(Tables(s.rows, s.log, s.objects), t, todo[0], p, s.now, o)
    ensures Reaches(cfg, s0, s') && s'.now == s.now && Tables(s'.rows, s'.log, s'.objects) == t
    ensures p < |s'.procs| && s'.procs[p] ==
      Purge(WorkerCycle, todo[1..], Flip, if o.flip(todo[0]) then freed + s.rows[todo[0]].size else freed)
  {
    if o.flip(todo[0]) {
      s' := MarkStep(cfg, s0, s, p, todo, freed);
      var size := s.rows[todo[0]].size;
      s' := DropAndLog(cfg, s0, s', p, WorkerCycle, todo, freed + size, o.drop(todo[0]), o.log(todo[0]));
    } else {
      s' := Advanced(cfg, s0, s, PurgeFlip(p, false));
    }
  }

  /** The i-th candidate of the first pass, in the tables and in the state machine. */
  lemma CandidateNext(cfg: Config, s0: State, s: State, start: Tables, t: Tables, todo: seq<FileId>, p: Pid,
                      o: Outcomes, deleted: nat, freed: nat, i: nat) returns (s': State)
    requires Distinct(todo) && AllLive(start.rows, todo) && i < |todo|
    requires FirstPass(start, Tables(s.rows, s.log, s.objects), todo[..i], p, s.now, o, deleted, freed)
    requires Reaches(cfg, s0, s) && p < |s.procs| && s.procs[p] == Purge(WorkerCycle, todo[i..], Flip, freed)
    requires todo[i] < |s.rows| && PurgedOne(Tables(s.rows, s.log, s.objects), t, todo[i], p, s.now, o)
    ensures Reaches(cfg, s0, s') && s'.now == s.now && Tables(s'.rows, s'.log, s'.objects) == t && |t.rows| == |s.rows|
    ensures
      var done, size := o.flip(todo[i]), s.rows[todo[i]].size;
      var deleted', freed' := if done then deleted + 1 else deleted, if done then freed + size else freed;
      && p < |s'.procs| && s'.procs[p] == Purge(WorkerCycle, todo[i + 1..], Flip, freed')
      && FirstPass(start, t, todo[..i + 1], p, s.now, o, deleted', freed')
  {
    FirstPassNext(start, Tables(s.rows, s.log, s.objects), t, todo, p, s.now, o, deleted, freed, i);
    s' := CandidateSteps(cfg, s0, s, p, todo[i..], freed, o, t);
    assert todo[i..][1..] == todo[i + 1..];
  }

  /** One candidate of the manual purge. */
  lemma AdminSteps(cfg: Config, s0: State, s: State, p: Pid, todo: seq<FileId>, freed: nat, o: Outcomes, t: Tables)
      returns (s': State)
    requires Reaches(cfg, s0, s) && p < |s.procs| && s.procs[p] == Purge(AdminHandler, todo, Flip, freed)
    requires todo != [] && todo[0] < |s.rows|
    requires AdminOne(Tables(s.rows, s.log, s.objects), t, todo[0], p, s.now, o)
    ensures Reaches(cfg, s0, s') && s'.now == s.now && Tables(s'.rows, s'.log, s'.objects) == t
    ensures p < |s'.procs| && s'.procs[p] == Purge(AdminHandler, todo[1..], Flip,
      if o.flip(todo[0]) && !s.rows[todo[0]].Deleted() then freed + s.rows[todo[0]].size else freed)
  {
    s' := Advanced(cfg, s0, s, PurgeFlip(p, o.flip(todo[0])));
    if o.flip(todo[0]) && !s.rows[todo[0]].Deleted() {
      assert s' == Move(s, p, Purge(AdminHandler, todo, Log, freed + s.rows[todo[0]].size)).(rows := t.rows);
      s' := Advanced(cfg, s0, s', PurgeLog(p, o.log(todo[0])));
    } else {
      assert t.rows == s.rows;
    }
  }

  // ---------- Cycles over a frozen eligible set ----------

  /** The files the eligibility query returns at one instant. */
  ghost function Eligible(cfg: Config, now: int, rows: seq<Row>): set<FileId> {
    set id: FileId | id < |rows| && Selected(cfg, Seen(now, rows, {}), id)
  }

  lemma {:induction false} ResultSize(ids: seq<FileId>, all: set<FileId>)
    requires Distinct(ids) && forall id :: id in ids <==> id in all
    ensures |ids| == |all|
  {
    if ids == [] {
      assert all == {};
    } else {
      var last := ids[|ids| - 1];
      ResultSize(ids[..|ids| - 1], all - {last});
    }
  }

  /** A cycle in which every mark works. */
  datatype Cycle = Cycle(candidates: seq<FileId>, p: Pid, ok: FileId -> bool)

  ghost predicate CleanCycle(cfg: Config, now: int, rows: seq<Row>, rows': seq<Row>, cycle: Cycle) {
    && IsEligibleResult(cfg, now, rows, cycle.candidates)
    && (forall id :: cycle.ok(id))
    && Purged(rows, rows', Capped(cycle.candidates), cycle.ok, cycle.p, now)
  }

  function Excess(n: nat, taken: nat): nat {
    if n <= taken then 0 else n - taken
  }

  lemma DistinctSplit(ids: seq<FileId>, n: nat, id: FileId)
    requires Distinct(ids) && n <= |ids|
    ensures id in ids[n..] <==> id in ids && id !in ids[..n]
  {
    assert ids == ids[..n] + ids[n..];
  }

  /** Marking some selected files leaves the others selected. */
  lemma SelectedAfter(cfg: Config, now: int, rows: seq<Row>, rows': seq<Row>, ids: seq<FileId>, ok: FileId -> bool,
                      p: Pid, id: FileId)
    requires Purged(rows, rows', ids, ok, p, now) && forall x :: ok(x)
    ensures Selected(cfg, Seen(now, rows', {}), id) <==> Selected(cfg, Seen(now, rows, {}), id) && id !in ids
  {
  }

  /** A cycle marks the lesser of 500 and the number of eligible files. */
  lemma CycleDrains(cfg: Config, now: int, rows: seq<Row>, rows': seq<Row>, cycle: Cycle)
    requires CleanCycle(cfg, now, rows, rows', cycle)
    ensures Working(Capped(cycle.candidates), cycle.ok) == Min(|Eligible(cfg, now, rows)|, 500)
    ensures |Eligible(cfg, now, rows')| == Excess(|Eligible(cfg, now, rows)|, 500)
  {
    var ids := cycle.candidates;
    var n := |Capped(ids)|;
    ResultSize(ids, Eligible(cfg, now, rows));
    WorkingAll(Capped(ids), cycle.ok);
    forall id: FileId ensures id in ids[n..] <==> id in Eligible(cfg, now, rows') {
      DistinctSplit(ids, n, id);
      SelectedAfter(cfg, now, rows, rows', Capped(ids), cycle.ok, cycle.p, id);
    }
    ResultSize(ids[n..], Eligible(cfg, now, rows'));
  }

  /** k cycles over a set of N eligible files leave max(0, N - 500k) of them. */
  lemma {:induction false} CyclesDrain(cfg: Config, now: int, history: seq<seq<Row>>, cycles: seq<Cycle>)
    requires |history| == |cycles| + 1
    requires forall k | 0 <= k < |cycles| :: CleanCycle(cfg, now, history[k], history[k + 1], cycles[k])
    ensures |Eligible(cfg, now, history[|cycles|])| ==
      Excess(|Eligible(cfg, now, history[0])|, 500 * |cycles|)
  {
    var k := |cycles| - 1;
    if cycles != [] {
      CyclesDrain(cfg, now, history[..k + 1], cycles[..k]);
      assert CleanCycle(cfg, now, history[k], history[k + 1], cycles[k]);
      CycleDrains(cfg, now, history[k], history[k + 1], cycles[k]);
    }
  }
}
