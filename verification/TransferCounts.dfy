/** Download caps and conservation of the download counts, over every interleaving. */
module TransferCounts {
  import opened Wrappers
  import opened Transfers

  // ---------- Counting requests ----------

  /** How many requests satisfy p. */
  function Tally(attempts: seq<Attempt>, p: Attempt -> bool): nat {
    if attempts == [] then 0
    else Tally(attempts[..|attempts| - 1], p) + One(p(attempts[|attempts| - 1]))
  }

  function One(b: bool): nat {
    if b then 1 else 0
  }

  lemma {:induction false} TallySet(attempts: seq<Attempt>, a: AttemptId, attempt: Attempt, p: Attempt -> bool)
    requires a < |attempts|
    ensures Tally(attempts[a := attempt], p) == Tally(attempts, p) - One(p(attempts[a])) + One(p(attempt))
  {
    var n := |attempts| - 1;
    var attempts' := attempts[a := attempt];
    if a == n {
      assert attempts'[..n] == attempts[..n];
    } else {
      TallySet(attempts[..n], a, attempt, p);
      assert attempts'[..n] == attempts[..n][a := attempt];
    }
  }

  lemma TallyAdd(attempts: seq<Attempt>, attempt: Attempt, p: Attempt -> bool)
    ensures Tally(attempts + [attempt], p) == Tally(attempts, p) + One(p(attempt))
  {
    assert (attempts + [attempt])[..|attempts|] == attempts;
  }

  lemma {:induction false} TallyLess(attempts: seq<Attempt>, p: Attempt -> bool, q: Attempt -> bool)
    requires forall i | 0 <= i < |attempts| :: p(attempts[i]) ==> q(attempts[i])
    ensures Tally(attempts, p) <= Tally(attempts, q)
  {
    if attempts != [] {
      TallyLess(attempts[..|attempts| - 1], p, q);
    }
  }

  /** Allowed downloads of one file of one transfer. */
  function AllowedFor(tid: TransferId, fid: FileId): Attempt -> bool {
    (x: Attempt) => x.tid == tid && x.fid == fid && Success(x.phase)
  }

  /** Counted against the limit: allowed, or refused because the answer of the upsert got lost. */
  predicate Used(phase: Phase) {
    Success(phase) || phase == Charged
  }

  function UsedFor(tid: TransferId, fid: FileId): Attempt -> bool {
    (x: Attempt) => x.tid == tid && x.fid == fid && Used(x.phase)
  }

  function UsedOf(tid: TransferId): Attempt -> bool {
    (x: Attempt) => x.tid == tid && Used(x.phase)
  }

  function InPhaseOf(tid: TransferId, phase: Phase): Attempt -> bool {
    (x: Attempt) => x.tid == tid && x.phase == phase
  }

  function AllowedOf(tid: TransferId): Attempt -> bool {
    (x: Attempt) => x.tid == tid && Success(x.phase)
  }

  // ---------- Cap ----------

  /** The counter is the number of downloads used up, within the limit; without a limit nothing is
      counted per file. */
  ghost predicate CounterExact(s: State, tid: TransferId, fid: FileId)
    requires tid < |s.transfers|
  {
    var limit := s.transfers[tid].maxDownloads;
    if limit > 0 then Count(s.counters, tid, fid) == Tally(s.attempts, UsedFor(tid, fid)) <= limit
    else (tid, fid) !in s.counters
  }

  /** Every request and counter belongs to a transfer, and the grand total lags behind the allowed
      downloads by those not counted yet and those whose increment failed. */
  ghost predicate Balanced(s: State, tid: TransferId)
    requires tid < |s.transfers|
  {
    Tally(s.attempts, AllowedOf(tid)) ==
      s.transfers[tid].downloadCount + Tally(s.attempts, InPhaseOf(tid, Allowed))
        + Tally(s.attempts, InPhaseOf(tid, CountFailed))
  }

  ghost predicate Owned(s: State) {
    && (forall a | 0 <= a < |s.attempts| :: s.attempts[a].tid < |s.transfers|)
    && (forall key | key in s.counters :: key.0 < |s.transfers|)
  }

  ghost predicate Exact(s: State) {
    && Owned(s)
    && (forall tid, fid | 0 <= tid < |s.transfers| && 0 <= fid :: CounterExact(s, tid, fid))
    && (forall tid | 0 <= tid < |s.transfers| :: Balanced(s, tid))
  }

  /** A step of request a that changes neither its success nor a counter. */
  lemma QuietStep(s: State, a: AttemptId, phase: Phase)
    requires Exact(s) && a < |s.attempts|
    requires !Used(phase) && !Used(s.attempts[a].phase)
    ensures Exact(Advance(s, a, phase))
  {
    var s' := Advance(s, a, phase);
    var x := s'.attempts[a];
    forall tid, fid | 0 <= tid < |s.transfers| && 0 <= fid ensures CounterExact(s', tid, fid) {
      assert CounterExact(s, tid, fid);
      TallySet(s.attempts, a, x, UsedFor(tid, fid));
    }
    forall tid | 0 <= tid < |s.transfers| ensures Balanced(s', tid) {
      BalanceMoves(s, s', a, tid);
    }
  }

  /** How a change of phase moves the two sides of the balance. */
  lemma BalanceMoves(s: State, s': State, a: AttemptId, tid: TransferId)
    requires a < |s.attempts| && tid < |s.transfers| && Balanced(s, tid) && |s'.attempts| == |s.attempts|
    requires s'.attempts == s.attempts[a := s.attempts[a].(phase := s'.attempts[a].phase)]
    ensures
      var p, p' := s.attempts[a].phase, s'.attempts[a].phase;
      var mine := s.attempts[a].tid == tid;
      Tally(s'.attempts, AllowedOf(tid)) - Tally(s'.attempts, InPhaseOf(tid, Allowed))
        - Tally(s'.attempts, InPhaseOf(tid, CountFailed)) ==
      s.transfers[tid].downloadCount
        - (if mine then One(Success(p)) - One(p == Allowed) - One(p == CountFailed) else 0)
        + (if mine then One(Success(p')) - One(p' == Allowed) - One(p' == CountFailed) else 0)
  {
    var x := s'.attempts[a];
    TallySet(s.attempts, a, x, AllowedOf(tid));
    TallySet(s.attempts, a, x, InPhaseOf(tid, Allowed));
    TallySet(s.attempts, a, x, InPhaseOf(tid, CountFailed));
  }

  lemma UpsertCounter(s: State, a: AttemptId, answer: Answer, tid: TransferId, fid: FileId)
    requires a < |s.attempts| && s.attempts[a].tid < |s.transfers| && s.attempts[a].phase == Checked
    requires AttemptStep(s, a, answer).attempts[a].phase != Refused
    requires tid < |s.transfers| && CounterExact(s, tid, fid) && CounterExact(s, s.attempts[a].tid, s.attempts[a].fid)
    ensures CounterExact(AttemptStep(s, a, answer), tid, fid)
  {
    TallySet(s.attempts, a, AttemptStep(s, a, answer).attempts[a], UsedFor(tid, fid));
  }

  lemma UpsertExact(s: State, a: AttemptId, answer: Answer)
    requires Exact(s) && a < |s.attempts| && s.attempts[a].phase == Checked
    ensures Exact(AttemptStep(s, a, answer))
  {
    var s' := AttemptStep(s, a, answer);
    var x := s.attempts[a];
    if s'.attempts[a].phase == Refused {
      QuietStep(s, a, Refused);
    } else {
      forall tid, fid | 0 <= tid < |s.transfers| && 0 <= fid ensures CounterExact(s', tid, fid) {
        assert CounterExact(s, tid, fid) && CounterExact(s, x.tid, x.fid);
        UpsertCounter(s, a, answer, tid, fid);
      }
      forall tid | 0 <= tid < |s.transfers| ensures Balanced(s', tid) {
        BalanceMoves(s, s', a, tid);
      }
    }
  }

  lemma IncrementExact(s: State, a: AttemptId, answer: Answer)
    requires Exact(s) && a < |s.attempts| && s.attempts[a].phase == Allowed
    ensures Exact(AttemptStep(s, a, answer))
  {
    var s' := AttemptStep(s, a, answer);
    forall tid, fid | 0 <= tid < |s.transfers| && 0 <= fid ensures CounterExact(s', tid, fid) {
      assert CounterExact(s, tid, fid);
      TallySet(s.attempts, a, s'.attempts[a], UsedFor(tid, fid));
    }
    forall tid | 0 <= tid < |s.transfers| ensures Balanced(s', tid) {
      BalanceMoves(s, s', a, tid);
    }
  }

  lemma NoneOf(s: State, tid: TransferId, p: Attempt -> bool)
    requires Owned(s) && tid >= |s.transfers|
    requires forall x: Attempt :: p(x) ==> x.tid == tid
    ensures Tally(s.attempts, p) == 0
  {
    TallyNone(s.attempts, p);
  }

  lemma {:induction false} TallyNone(attempts: seq<Attempt>, p: Attempt -> bool)
    requires forall i | 0 <= i < |attempts| :: !p(attempts[i])
    ensures Tally(attempts, p) == 0
  {
    if attempts != [] {
      TallyNone(attempts[..|attempts| - 1], p);
    }
  }

  /** Rows that are new start with nothing counted, the others keep their limit and total. */
  lemma OthersExact(s: State, s': State)
    requires Exact(s)
    requires s'.attempts == s.attempts && s'.counters == s.counters && |s.transfers| <= |s'.transfers|
    requires forall tid | 0 <= tid < |s'.transfers| ::
      if tid < |s.transfers| then
        && s'.transfers[tid].maxDownloads == s.transfers[tid].maxDownloads
        && s'.transfers[tid].downloadCount == s.transfers[tid].downloadCount
      else s'.transfers[tid].downloadCount == 0
    ensures Exact(s')
  {
    forall tid, fid | 0 <= tid < |s'.transfers| && 0 <= fid ensures CounterExact(s', tid, fid) {
      if tid < |s.transfers| {
        assert CounterExact(s, tid, fid);
      } else {
        NoneOf(s, tid, UsedFor(tid, fid));
      }
    }
    forall tid | 0 <= tid < |s'.transfers| ensures Balanced(s', tid) {
      if tid < |s.transfers| {
        assert Balanced(s, tid);
      } else {
        NoneOf(s, tid, AllowedOf(tid));
        NoneOf(s, tid, InPhaseOf(tid, Allowed));
        NoneOf(s, tid, InPhaseOf(tid, CountFailed));
      }
    }
  }

  lemma BeginBalanced(s: State, x: Attempt, tid: TransferId)
    requires tid < |s.transfers| && Balanced(s, tid) && x.phase == Begun
    ensures Balanced(s.(attempts := s.attempts + [x]), tid)
  {
    TallyAdd(s.attempts, x, AllowedOf(tid));
    TallyAdd(s.attempts, x, InPhaseOf(tid, Allowed));
    TallyAdd(s.attempts, x, InPhaseOf(tid, CountFailed));
  }

  lemma BeginCounter(s: State, x: Attempt, tid: TransferId, fid: FileId)
    requires tid < |s.transfers| && CounterExact(s, tid, fid) && x.phase == Begun
    ensures CounterExact(s.(attempts := s.attempts + [x]), tid, fid)
  {
    TallyAdd(s.attempts, x, UsedFor(tid, fid));
  }

  lemma BeginExact(s: State, x: Attempt)
    requires Exact(s) && x.tid < |s.transfers| && x.phase == Begun
    ensures Exact(s.(attempts := s.attempts + [x]))
  {
    var s' := s.(attempts := s.attempts + [x]);
    forall tid, fid | 0 <= tid < |s'.transfers| && 0 <= fid ensures CounterExact(s', tid, fid) {
      assert CounterExact(s, tid, fid);
      BeginCounter(s, x, tid, fid);
    }
    forall tid | 0 <= tid < |s'.transfers| ensures Balanced(s', tid) {
      assert Balanced(s, tid);
      BeginBalanced(s, x, tid);
    }
  }

  lemma OwnerStepExact(s: State, action: Action)
    requires Exact(s)
    ensures Exact(OwnerStep(s, action))
  {
    match action
    case Begin(tid, fid, password) =>
      if tid < |s.transfers| { BeginExact(s, Attempt(tid, fid, password, Begun)); }
    case _ => OthersExact(s, OwnerStep(s, action));
  }

  lemma StepExact(s: State, action: Action)
    requires Exact(s)
    ensures Exact(Step(s, action))
  {
    if !IsAttemptAction(action) {
      OwnerStepExact(s, action);
    } else if Step(s, action) != s {
      var a := action.a;
      match s.attempts[a].phase
      case Begun => QuietStep(s, a, Snapshot(s.transfers[s.attempts[a].tid].revoked));
      case Snapshot(_) => QuietStep(s, a, Step(s, action).attempts[a].phase);
      case Checked => UpsertExact(s, a, action.answer);
      case Allowed => IncrementExact(s, a, action.answer);
      case _ =>
    }
  }

  lemma {:induction false} StaysExact(s: State, actions: seq<Action>)
    requires Exact(s)
    ensures Exact(Run(s, actions))
    decreases |actions|
  {
    if actions != [] {
      StaysExact(s, actions[..|actions| - 1]);
      StepExact(Run(s, actions[..|actions| - 1]), actions[|actions| - 1]);
    }
  }

  // ---------- Conservation ----------

  /** Sum of the counters of a transfer's files. */
  function SumCounters(counters: map<(TransferId, FileId), nat>, tid: TransferId, files: seq<FileId>): nat {
    if files == [] then 0
    else SumCounters(counters, tid, files[..|files| - 1]) + Count(counters, tid, files[|files| - 1])
  }

  predicate PastChecks(phase: Phase) {
    phase == Checked || Used(phase)
  }

  /** A request past its checks asks for a file of its transfer. */
  predicate Known(s: State, a: AttemptId)
    requires a < |s.attempts|
  {
    && s.attempts[a].tid < |s.transfers|
    && (PastChecks(s.attempts[a].phase) ==> s.attempts[a].fid in s.transfers[s.attempts[a].tid].files)
  }

  /** And no transfer lists a file twice. */
  ghost predicate FilesKnown(s: State) {
    && (forall tid | 0 <= tid < |s.transfers| :: Distinct(s.transfers[tid].files))
    && forall a | 0 <= a < |s.attempts| :: Known(s, a)
  }

  lemma StepKnown(s: State, action: Action, a: AttemptId)
    requires a < |s.attempts| && Known(s, a)
    ensures a < |Step(s, action).attempts| && Known(Step(s, action), a)
  {
    StepFollows(s, action);
    var s' := Step(s, action);
    assert SameAttempt(s.attempts[a], s'.attempts[a]);
    assert SameTransfer(s.transfers[s.attempts[a].tid], s'.transfers[s.attempts[a].tid]);
  }

  lemma StepDistinct(s: State, action: Action, tid: TransferId)
    requires forall i | 0 <= i < |s.transfers| :: Distinct(s.transfers[i].files)
    requires tid < |Step(s, action).transfers|
    ensures Distinct(Step(s, action).transfers[tid].files)
  {
    StepFollows(s, action);
    if tid < |s.transfers| { assert SameTransfer(s.transfers[tid], Step(s, action).transfers[tid]); }
  }

  lemma StepFilesKnown(s: State, action: Action)
    requires FilesKnown(s)
    ensures FilesKnown(Step(s, action))
  {
    var s' := Step(s, action);
    forall tid | 0 <= tid < |s'.transfers| ensures Distinct(s'.transfers[tid].files) {
      StepDistinct(s, action, tid);
    }
    forall a | 0 <= a < |s'.attempts| ensures Known(s', a) {
      if a < |s.attempts| { StepKnown(s, action, a); }
    }
  }

  lemma {:induction false} StaysFilesKnown(s: State, actions: seq<Action>)
    requires FilesKnown(s)
    ensures FilesKnown(Run(s, actions))
    decreases |actions|
  {
    if actions != [] {
      StaysFilesKnown(s, actions[..|actions| - 1]);
      StepFilesKnown(Run(s, actions[..|actions| - 1]), actions[|actions| - 1]);
    }
  }

  function SumUsed(attempts: seq<Attempt>, tid: TransferId, files: seq<FileId>): nat {
    if files == [] then 0
    else SumUsed(attempts, tid, files[..|files| - 1]) + Tally(attempts, UsedFor(tid, files[|files| - 1]))
  }

  /** One more request adds at most one, to the sum as to its file. */
  lemma {:induction false} SumUsedAdd(attempts: seq<Attempt>, x: Attempt, tid: TransferId, files: seq<FileId>)
    requires Distinct(files)
    ensures SumUsed(attempts + [x], tid, files) == SumUsed(attempts, tid, files) + One(UsedOf(tid)(x) && x.fid in files)
  {
    if files != [] {
      var n := |files| - 1;
      SumUsedAdd(attempts, x, tid, files[..n]);
      TallyAdd(attempts, x, UsedFor(tid, files[n]));
      assert files == files[..n] + [files[n]];
    }
  }

  lemma {:induction false} SumUsedNone(tid: TransferId, files: seq<FileId>)
    ensures SumUsed([], tid, files) == 0
  {
    if files != [] {
      SumUsedNone(tid, files[..|files| - 1]);
    }
  }

  lemma {:induction false} SumUsedIsTally(attempts: seq<Attempt>, tid: TransferId, files: seq<FileId>)
    requires Distinct(files)
    requires forall a | 0 <= a < |attempts| :: UsedOf(tid)(attempts[a]) ==> attempts[a].fid in files
    ensures SumUsed(attempts, tid, files) == Tally(attempts, UsedOf(tid))
  {
    if attempts == [] {
      SumUsedNone(tid, files);
    } else {
      var n := |attempts| - 1;
      SumUsedIsTally(attempts[..n], tid, files);
      SumUsedAdd(attempts[..n], attempts[n], tid, files);
      assert attempts == attempts[..n] + [attempts[n]];
    }
  }

  lemma {:induction false} SumCountersIsUsed(s: State, tid: TransferId, files: seq<FileId>)
    requires Exact(s) && tid < |s.transfers| && s.transfers[tid].maxDownloads > 0
    ensures SumCounters(s.counters, tid, files) == SumUsed(s.attempts, tid, files)
  {
    if files != [] {
      SumCountersIsUsed(s, tid, files[..|files| - 1]);
      assert CounterExact(s, tid, files[|files| - 1]);
    }
  }

  /** No transfer, request or counter yet. */
  predicate Fresh(s: State) {
    s.transfers == [] && s.attempts == [] && s.counters == map[]
  }

  /** Nothing took effect and was reported as failed. */
  ghost predicate NothingLost(s: State) {
    forall a | 0 <= a < |s.attempts| :: s.attempts[a].phase != Charged && s.attempts[a].phase != CountLost
  }

  lemma StepNothingLost(s: State, action: Action)
    requires s.acknowledged && NothingLost(s)
    ensures NothingLost(Step(s, action))
  {
  }

  lemma {:induction false} StaysNothingLost(s: State, actions: seq<Action>)
    requires s.acknowledged && NothingLost(s)
    ensures Run(s, actions).acknowledged && NothingLost(Run(s, actions))
    decreases |actions|
  {
    if actions != [] {
      var before, action := Run(s, actions[..|actions| - 1]), actions[|actions| - 1];
      StaysNothingLost(s, actions[..|actions| - 1]);
      StepFollows(before, action);
      StepNothingLost(before, action);
    }
  }

  lemma {:induction false} TallySame(attempts: seq<Attempt>, p: Attempt -> bool, q: Attempt -> bool)
    requires forall i | 0 <= i < |attempts| :: p(attempts[i]) == q(attempts[i])
    ensures Tally(attempts, p) == Tally(attempts, q)
  {
    TallyLess(attempts, p, q);
    TallyLess(attempts, q, p);
  }

  /** Download cap: in every interleaving a limited file is downloaded no more often than its counter
      says, which is within the limit; and exactly as often if nothing was lost. */
  lemma DownloadCap(start: State, actions: seq<Action>, tid: TransferId, fid: FileId)
    requires Fresh(start) && tid < |Run(start, actions).transfers|
      && Run(start, actions).transfers[tid].maxDownloads > 0
    ensures
      var s := Run(start, actions);
      && Tally(s.attempts, AllowedFor(tid, fid)) <= Count(s.counters, tid, fid) <= s.transfers[tid].maxDownloads
      && Count(s.counters, tid, fid) == Tally(s.attempts, UsedFor(tid, fid))
      && (start.acknowledged ==> Count(s.counters, tid, fid) == Tally(s.attempts, AllowedFor(tid, fid)))
  {
    var s := Run(start, actions);
    StaysExact(start, actions);
    assert CounterExact(s, tid, fid);
    TallyLess(s.attempts, AllowedFor(tid, fid), UsedFor(tid, fid));
    if start.acknowledged {
      StaysNothingLost(start, actions);
      TallySame(s.attempts, AllowedFor(tid, fid), UsedFor(tid, fid));
    }
  }

  /** The counter is the number of allowed downloads in every run exactly if nothing can get lost. */
  lemma CounterIsAllowedIffAcknowledged(start: State)
    requires Fresh(start)
    ensures (forall actions, tid: TransferId, fid: FileId ::
               CountsAllowed(Run(start, actions), tid, fid)) <==> start.acknowledged
  {
    if start.acknowledged {
      forall actions, tid: TransferId, fid: FileId ensures CountsAllowed(Run(start, actions), tid, fid) {
        if tid < |Run(start, actions).transfers| && Run(start, actions).transfers[tid].maxDownloads > 0 {
          DownloadCap(start, actions, tid, fid);
        }
      }
    } else {
      var actions := LostUpsert(start);
      assert !CountsAllowed(Run(start, actions), 0, 0);
    }
  }

  ghost predicate CountsAllowed(s: State, tid: TransferId, fid: FileId) {
    tid < |s.transfers| && s.transfers[tid].maxDownloads > 0 ==>
      Count(s.counters, tid, fid) == Tally(s.attempts, AllowedFor(tid, fid))
  }

  /** The one transfer, of file 0, and the one request for it. */
  function OneRequest(start: State, limit: int, phase: Phase, used: nat, total: nat): State {
    State(start.acknowledged, start.now, [Transfer(0, [0], None, limit, None, false, total)],
          if used == 0 then map[] else map[(0, 0) := used], [Attempt(0, 0, "", phase)])
  }

  lemma RunSnoc(s: State, actions: seq<Action>, a: Action)
    ensures Run(s, actions + [a]) == Step(Run(s, actions), a)
  {
    assert (actions + [a])[..|actions|] == actions;
  }

  lemma ReachBegun(start: State, limit: int) returns (actions: seq<Action>)
    requires Fresh(start)
    ensures Run(start, actions) == OneRequest(start, limit, Begun, 0, 0)
  {
    var create, begin := Create(Transfer(0, [0], None, limit, None, false, 0)), Begin(0, 0, "");
    var created := start.(transfers := [Transfer(0, [0], None, limit, None, false, 0)]);
    assert Step(start, create) == created;
    RunSnoc(start, [], create);
    RunSnoc(start, [create], begin);
    assert [] + [create] == [create];
    actions := [create] + [begin];
  }

  lemma ReachChecked(start: State, limit: int) returns (actions: seq<Action>)
    requires Fresh(start)
    ensures Run(start, actions) == OneRequest(start, limit, Checked, 0, 0)
  {
    actions := ReachBegun(start, limit);
    RunSnoc(start, actions, Read(0));
    assert Step(OneRequest(start, limit, Begun, 0, 0), Read(0)) == OneRequest(start, limit, Snapshot(false), 0, 0);
    actions := actions + [Read(0)];
    RunSnoc(start, actions, Check(0));
    assert Step(OneRequest(start, limit, Snapshot(false), 0, 0), Check(0)) == OneRequest(start, limit, Checked, 0, 0);
    actions := actions + [Check(0)];
  }

  lemma TallyOne(x: Attempt, p: Attempt -> bool)
    ensures Tally([x], p) == One(p(x))
  {
    TallyAdd([], x, p);
    assert [] + [x] == [x];
  }

  /** An upsert whose answer is lost uses up a download that nobody gets. */
  lemma LostUpsert(start: State) returns (actions: seq<Action>)
    requires Fresh(start) && !start.acknowledged
    ensures !CountsAllowed(Run(start, actions), 0, 0)
  {
    actions := ReachChecked(start, 1);
    RunSnoc(start, actions, Upsert(0, Lost));
    assert Step(OneRequest(start, 1, Checked, 0, 0), Upsert(0, Lost)) == OneRequest(start, 1, Charged, 1, 0);
    actions := actions + [Upsert(0, Lost)];
    TallyOne(Attempt(0, 0, "", Charged), AllowedFor(0, 0));
  }

  /** Conservation: the allowed downloads are those in the grand total, those whose increment is
      pending and those whose increment did not take effect; under a limit the counters add up to the
      downloads used up. */
  lemma DownloadsConserved(start: State, actions: seq<Action>, tid: TransferId)
    requires Fresh(start) && tid < |Run(start, actions).transfers|
    ensures
      var s := Run(start, actions);
      var t := s.transfers[tid];
      && Tally(s.attempts, AllowedOf(tid)) == t.downloadCount
           + Tally(s.attempts, InPhaseOf(tid, Allowed)) + Tally(s.attempts, InPhaseOf(tid, CountFailed))
      && (t.maxDownloads > 0 ==> SumCounters(s.counters, tid, t.files) == Tally(s.attempts, UsedOf(tid)))
      && (start.acknowledged ==> Tally(s.attempts, UsedOf(tid)) == Tally(s.attempts, AllowedOf(tid)))
  {
    var s := Run(start, actions);
    StaysExact(start, actions);
    StaysFilesKnown(start, actions);
    assert Balanced(s, tid);
    if s.transfers[tid].maxDownloads > 0 {
      SumCountersIsUsed(s, tid, s.transfers[tid].files);
      forall a | 0 <= a < |s.attempts| && UsedOf(tid)(s.attempts[a])
        ensures s.attempts[a].fid in s.transfers[tid].files
      {
        assert Known(s, a);
      }
      SumUsedIsTally(s.attempts, tid, s.transfers[tid].files);
    }
    if start.acknowledged {
      StaysNothingLost(start, actions);
      TallySame(s.attempts, UsedOf(tid), AllowedOf(tid));
    }
  }

  /** Increments that were reported as failed. */
  function ReportedFailed(tid: TransferId): Attempt -> bool {
    (x: Attempt) => x.tid == tid && (x.phase == CountFailed || x.phase == CountLost)
  }

  /** The same balance with what the service sees of the increments. */
  ghost predicate BalancedAsReported(s: State, tid: TransferId) {
    tid < |s.transfers| ==>
      Tally(s.attempts, AllowedOf(tid)) == s.transfers[tid].downloadCount
        + Tally(s.attempts, InPhaseOf(tid, Allowed)) + Tally(s.attempts, ReportedFailed(tid))
  }

  /** No increment has failed, or been reported as failed. */
  ghost predicate NoneMissed(s: State) {
    forall a | 0 <= a < |s.attempts| :: s.attempts[a].phase != CountFailed && s.attempts[a].phase != CountLost
  }

  predicate AllDone(actions: seq<Action>) {
    forall i | 0 <= i < |actions| :: actions[i].Increment? ==> actions[i].answer == Done
  }

  lemma StepNoneMissed(s: State, action: Action)
    requires NoneMissed(s) && (action.Increment? ==> action.answer == Done)
    ensures NoneMissed(Step(s, action))
  {
  }

  lemma {:induction false} StaysNoneMissed(s: State, actions: seq<Action>)
    requires NoneMissed(s) && AllDone(actions)
    ensures NoneMissed(Run(s, actions))
    decreases |actions|
  {
    if actions != [] {
      var before, action := Run(s, actions[..|actions| - 1]), actions[|actions| - 1];
      StaysNoneMissed(s, actions[..|actions| - 1]);
      StepNoneMissed(before, action);
    }
  }

  /** While every increment that is tried works, the total is the allowed downloads but those whose
      increment is still pending. */
  lemma TotalIsAllowed(start: State, actions: seq<Action>, tid: TransferId)
    requires Fresh(start) && AllDone(actions) && tid < |Run(start, actions).transfers|
    ensures
      var s := Run(start, actions);
      Tally(s.attempts, AllowedOf(tid)) == s.transfers[tid].downloadCount + Tally(s.attempts, InPhaseOf(tid, Allowed))
  {
    DownloadsConserved(start, actions, tid);
    StaysNoneMissed(start, actions);
    TallyNone(Run(start, actions).attempts, InPhaseOf(tid, CountFailed));
  }

  /** It holds in every run exactly if nothing can get lost. */
  lemma BalancedIffAcknowledged(start: State)
    requires Fresh(start)
    ensures (forall actions, tid: TransferId :: BalancedAsReported(Run(start, actions), tid)) <==> start.acknowledged
  {
    if start.acknowledged {
      forall actions, tid: TransferId ensures BalancedAsReported(Run(start, actions), tid) {
        var s := Run(start, actions);
        if tid < |s.transfers| {
          DownloadsConserved(start, actions, tid);
          StaysNothingLost(start, actions);
          TallySame(s.attempts, ReportedFailed(tid), InPhaseOf(tid, CountFailed));
        }
      }
    } else {
      var actions := LostIncrement(start);
      assert !BalancedAsReported(Run(start, actions), 0);
    }
  }

  /** An increment whose answer is lost is in the total and among the failures. */
  lemma LostIncrement(start: State) returns (actions: seq<Action>)
    requires Fresh(start) && !start.acknowledged
    ensures !BalancedAsReported(Run(start, actions), 0)
  {
    actions := ReachChecked(start, 0);
    RunSnoc(start, actions, Upsert(0, Done));
    assert Step(OneRequest(start, 0, Checked, 0, 0), Upsert(0, Done)) == OneRequest(start, 0, Allowed, 0, 0);
    actions := actions + [Upsert(0, Done)];
    RunSnoc(start, actions, Increment(0, Lost));
    assert Step(OneRequest(start, 0, Allowed, 0, 0), Increment(0, Lost)) == OneRequest(start, 0, CountLost, 0, 1);
    actions := actions + [Increment(0, Lost)];
    var x := Attempt(0, 0, "", CountLost);
    TallyOne(x, AllowedOf(0));
    TallyOne(x, InPhaseOf(0, Allowed));
    TallyOne(x, ReportedFailed(0));
  }

  /** Only an upsert for this very file changes its counter. */
  lemma OtherCountersUntouched(s: State, action: Action, tid: TransferId, fid: FileId)
    requires Count(Step(s, action).counters, tid, fid) != Count(s.counters, tid, fid)
    ensures action.Upsert? && action.a < |s.attempts|
    ensures s.attempts[action.a].tid == tid && s.attempts[action.a].fid == fid
    ensures action.a < |Step(s, action).attempts| && Used(Step(s, action).attempts[action.a].phase)
    ensures Count(Step(s, action).counters, tid, fid) == Count(s.counters, tid, fid) + 1
  {
  }

  // ---------- Stopping a transfer ----------

  /** A tally grows by a step only if the request that moves comes to satisfy the property. */
  lemma TallyStep(s: State, action: Action, p: Attempt -> bool)
    requires forall x: Attempt :: x.phase == Begun ==> !p(x)
    ensures
      if IsAttemptAction(action) && Step(s, action) != s then
        && action.a < |s.attempts| && s.attempts[action.a].tid < |s.transfers|
        && IsNext(action, s.attempts[action.a].phase)
        && Tally(Step(s, action).attempts, p) == Tally(s.attempts, p) - One(p(s.attempts[action.a]))
             + One(p(s.attempts[action.a].(phase := NextPhase(s, action.a, AnswerOf(action)))))
      else Tally(Step(s, action).attempts, p) == Tally(s.attempts, p)
  {
    var s' := Step(s, action);
    if IsAttemptAction(action) && s' != s {
      TallySet(s.attempts, action.a, s'.attempts[action.a], p);
    } else if action.Begin? && s' != s {
      TallyAdd(s.attempts, s'.attempts[|s.attempts|], p);
    }
  }

  /** Allowed already, or past the point where a revocation is noticed. */
  function PastRevocation(tid: TransferId): Attempt -> bool {
    (x: Attempt) => x.tid == tid && (Success(x.phase) || x.phase == Checked || x.phase == Snapshot(false))
  }

  /** Allowed already, or past the point where the clock is read. */
  function PastExpiry(tid: TransferId): Attempt -> bool {
    (x: Attempt) => x.tid == tid && (Success(x.phase) || x.phase == Checked)
  }

  lemma RevokedStepStops(s: State, action: Action, tid: TransferId)
    requires tid < |s.transfers| && s.transfers[tid].revoked
    ensures Tally(Step(s, action).attempts, PastRevocation(tid)) <= Tally(s.attempts, PastRevocation(tid))
  {
    TallyStep(s, action, PastRevocation(tid));
  }

  lemma ExpiredStepStops(s: State, action: Action, tid: TransferId)
    requires tid < |s.transfers| && Expired(s.transfers[tid], s.now)
    ensures Tally(Step(s, action).attempts, PastExpiry(tid)) <= Tally(s.attempts, PastExpiry(tid))
  {
    TallyStep(s, action, PastExpiry(tid));
  }

  /** After Revoke or ExpireStale has committed, the allowed downloads never become more than those
      allowed by then plus the requests that had read the transfer before and were not refused. */
  lemma {:induction false} StopsAfterRevocation(s: State, actions: seq<Action>, tid: TransferId)
    requires tid < |s.transfers| && s.transfers[tid].revoked
    ensures Tally(Run(s, actions).attempts, PastRevocation(tid)) <= Tally(s.attempts, PastRevocation(tid))
    ensures Tally(Run(s, actions).attempts, AllowedOf(tid)) <= Tally(s.attempts, PastRevocation(tid))
    decreases |actions|
  {
    if actions != [] {
      var before := Run(s, actions[..|actions| - 1]);
      StopsAfterRevocation(s, actions[..|actions| - 1], tid);
      RunFollows(s, actions[..|actions| - 1]);
      assert SameTransfer(s.transfers[tid], before.transfers[tid]);
      RevokedStepStops(before, actions[|actions| - 1], tid);
    }
    TallyLess(Run(s, actions).attempts, AllowedOf(tid), PastRevocation(tid));
  }

  /** Once the expiry is past, they never become more than those allowed by then plus the requests
      already past their checks. */
  lemma {:induction false} StopsAfterExpiry(s: State, actions: seq<Action>, tid: TransferId)
    requires tid < |s.transfers| && Expired(s.transfers[tid], s.now)
    ensures Tally(Run(s, actions).attempts, PastExpiry(tid)) <= Tally(s.attempts, PastExpiry(tid))
    ensures Tally(Run(s, actions).attempts, AllowedOf(tid)) <= Tally(s.attempts, PastExpiry(tid))
    decreases |actions|
  {
    if actions != [] {
      var before := Run(s, actions[..|actions| - 1]);
      StopsAfterExpiry(s, actions[..|actions| - 1], tid);
      RunFollows(s, actions[..|actions| - 1]);
      assert SameTransfer(s.transfers[tid], before.transfers[tid]);
      ExpiredStepStops(before, actions[|actions| - 1], tid);
    }
    TallyLess(Run(s, actions).attempts, AllowedOf(tid), PastExpiry(tid));
  }
}
