/** The life of transfers: download attempts interleave with revocation, expiry and each other, one
    SQL statement at a time. */
module Transfers {
  import opened Wrappers

  type TransferId = nat  // position in transfer.transfers
  type FileId = nat
  type AttemptId = nat   // a download request, in order of arrival

  /** A row of transfer.transfers with its rows of transfer.transfer_files. */
  datatype Transfer = Transfer(
    owner: nat,
    files: seq<FileId>,
    password: Option<string>,
    maxDownloads: int,        // limits each file if positive
    expiresAt: Option<int>,
    revoked: bool,
    downloadCount: nat)

  /** Where a download request is. A snapshot keeps what GetBySlug read that can still change. */
  datatype Phase =
    | Begun
    | Snapshot(revoked: bool)
    | Checked
    | Allowed      // the caller gets the file; the detached increment is still to come
    | Counted
    | CountFailed
    | CountLost    // the increment took effect, but was reported as failed
    | Charged      // the upsert took effect, but was reported as failed, and the caller is refused
    | Refused

  datatype Attempt = Attempt(tid: TransferId, fid: FileId, password: string, phase: Phase)

  /** acknowledged: a statement that reports an error has not been committed. */
  datatype State = State(
    acknowledged: bool,
    now: int,
    transfers: seq<Transfer>,
    counters: map<(TransferId, FileId), nat>,  // transfer.file_download_counts
    attempts: seq<Attempt>)

  /** How a statement ends: carried out, refused by the database, or carried out but reported as
      failed. */
  datatype Answer = Done | Failed | Lost

  datatype Action =
    | Tick(elapsed: nat)
    | Create(transfer: Transfer)
    | Revoke(tid: TransferId, owner: nat)
    | ExpireStale
    | Begin(tid: TransferId, fid: FileId, password: string)
    | Read(a: AttemptId)
    | Check(a: AttemptId)
    | Upsert(a: AttemptId, answer: Answer)
    | Increment(a: AttemptId, answer: Answer)

  // ---------- Statements ----------

  /** time.Now().After(expiresAt). */
  predicate Expired(t: Transfer, now: int) {
    t.expiresAt.Some? && now > t.expiresAt.value
  }

  function Count(counters: map<(TransferId, FileId), nat>, tid: TransferId, fid: FileId): nat {
    if (tid, fid) in counters then counters[(tid, fid)] else 0
  }

  /** The upsert returns a row: the counter is new, or below the limit. */
  predicate UpsertReturns(counters: map<(TransferId, FileId), nat>, tid: TransferId, fid: FileId, maxDownloads: int) {
    (tid, fid) !in counters || counters[(tid, fid)] < maxDownloads
  }

  function UpsertCounters(counters: map<(TransferId, FileId), nat>, tid: TransferId, fid: FileId, maxDownloads: int)
    : map<(TransferId, FileId), nat>
  {
    if (tid, fid) !in counters then counters[(tid, fid) := 1]
    else if counters[(tid, fid)] < maxDownloads then counters[(tid, fid) := counters[(tid, fid)] + 1]
    else counters
  }

  /** The is_exhausted subquery: limited, and no file of the transfer has downloads left. */
  predicate IsExhausted(t: Transfer, counters: map<(TransferId, FileId), nat>, tid: TransferId) {
    t.maxDownloads > 0 && !exists fid :: fid in t.files && Count(counters, tid, fid) < t.maxDownloads
  }

  /** UPDATE ... SET is_revoked = TRUE WHERE is_revoked = FALSE AND expires_at < NOW(). */
  function Expire(t: Transfer, now: int): Transfer {
    if Expired(t, now) then t.(revoked := true) else t
  }

  predicate PasswordAccepted(t: Transfer, given: string) {
    t.password.None? || (given != "" && given == t.password.value)
  }

  predicate Distinct(files: seq<FileId>) {
    forall i, j | 0 <= i < j < |files| :: files[i] != files[j]
  }

  // ---------- Steps ----------

  function Advance(s: State, a: AttemptId, phase: Phase): State
    requires a < |s.attempts|
  {
    s.(attempts := s.attempts[a := s.attempts[a].(phase := phase)])
  }

  predicate PassesChecks(t: Transfer, revoked: bool, attempt: Attempt, now: int) {
    !revoked && !Expired(t, now) && PasswordAccepted(t, attempt.password) && attempt.fid in t.files
  }

  /** What the next statement of a download request leads to. */
  function NextPhase(s: State, a: AttemptId, answer: Answer): Phase
    requires a < |s.attempts| && s.attempts[a].tid < |s.transfers|
  {
    var attempt := s.attempts[a];
    var t := s.transfers[attempt.tid];
    match attempt.phase
    case Begun => Snapshot(t.revoked)
    case Snapshot(revoked) => if PassesChecks(t, revoked, attempt, s.now) then Checked else Refused
    case Checked =>
      if t.maxDownloads <= 0 then Allowed
      else if !UpsertReturns(s.counters, attempt.tid, attempt.fid, t.maxDownloads) then Refused
      else if answer == Done then Allowed
      else if answer == Lost && !s.acknowledged then Charged else Refused
    case Allowed =>
      if answer == Done then Counted else if answer == Lost && !s.acknowledged then CountLost else CountFailed
    case phase => phase
  }

  /** A step of a download request. Under a limit the upsert counts the download of the file, and
      the detached increment counts it for the transfer. */
  function AttemptStep(s: State, a: AttemptId, answer: Answer): State
    requires a < |s.attempts| && s.attempts[a].tid < |s.transfers|
  {
    var attempt, next := s.attempts[a], NextPhase(s, a, answer);
    var t := s.transfers[attempt.tid];
    var moved := Advance(s, a, next);
    if attempt.phase == Checked && (next == Allowed || next == Charged) && t.maxDownloads > 0 then
      moved.(counters := UpsertCounters(s.counters, attempt.tid, attempt.fid, t.maxDownloads))
    else if attempt.phase == Allowed && (next == Counted || next == CountLost) then
      moved.(transfers := s.transfers[attempt.tid := t.(downloadCount := t.downloadCount + 1)])
    else moved
  }

  /** A step of somebody else. */
  function OwnerStep(s: State, a: Action): State {
    match a
    case Tick(elapsed) => s.(now := s.now + elapsed)
    case Create(t) =>
      // a repeated file violates the primary key of transfer_files, and the transaction is rolled back
      if Distinct(t.files) then s.(transfers := s.transfers + [t.(revoked := false, downloadCount := 0)]) else s
    case Revoke(tid, owner) =>
      if tid < |s.transfers| && s.transfers[tid].owner == owner then
        s.(transfers := s.transfers[tid := s.transfers[tid].(revoked := true)])
      else s
    case ExpireStale =>
      s.(transfers := seq(|s.transfers|, i requires 0 <= i < |s.transfers| => Expire(s.transfers[i], s.now)))
    case Begin(tid, fid, password) =>
      if tid < |s.transfers| then s.(attempts := s.attempts + [Attempt(tid, fid, password, Begun)]) else s
    case _ => s
  }

  /** The statement of an action comes next in its request. */
  predicate IsNext(a: Action, phase: Phase) {
    match a
    case Read(_) => phase == Begun
    case Check(_) => phase.Snapshot?
    case Upsert(_, _) => phase == Checked
    case Increment(_, _) => phase == Allowed
    case _ => false
  }

  predicate IsAttemptAction(a: Action) {
    a.Read? || a.Check? || a.Upsert? || a.Increment?
  }

  function AnswerOf(a: Action): Answer {
    if a.Upsert? || a.Increment? then a.answer else Done
  }

  function Step(s: State, a: Action): State {
    if IsAttemptAction(a) then
      if a.a < |s.attempts| && s.attempts[a.a].tid < |s.transfers| && IsNext(a, s.attempts[a.a].phase) then
        AttemptStep(s, a.a, AnswerOf(a))
      else s
    else OwnerStep(s, a)
  }

  /** An interleaving: a step that is not possible when its turn comes does nothing. */
  function Run(s: State, actions: seq<Action>): State
    decreases |actions|
  {
    if actions == [] then s else Step(Run(s, actions[..|actions| - 1]), actions[|actions| - 1])
  }

  predicate Succeeded(s: State, a: AttemptId) {
    a < |s.attempts| && Success(s.attempts[a].phase)
  }

  predicate Success(phase: Phase) {
    phase == Allowed || phase == Counted || phase == CountFailed || phase == CountLost
  }

  /** Transfer.Status, in increasing order of priority. */
  datatype Status = Active | ExpiredStatus | Exhausted | Revoked {
    function Rank(): nat {
      match this
      case Active => 0
      case ExpiredStatus => 1
      case Exhausted => 2
      case Revoked => 3
    }
  }

  function StatusOf(t: Transfer, exhausted: bool, now: int): Status {
    if t.revoked then Revoked
    else if t.maxDownloads > 0 && exhausted then Exhausted
    else if Expired(t, now) then ExpiredStatus
    else Active
  }

  function StatusIn(s: State, tid: TransferId): Status
    requires tid < |s.transfers|
  {
    StatusOf(s.transfers[tid], IsExhausted(s.transfers[tid], s.counters, tid), s.now)
  }

  // ---------- What every step keeps ----------

  /** The parts of a row that no statement changes; a revocation is never taken back. */
  predicate SameTransfer(t: Transfer, t': Transfer) {
    t' == t.(revoked := t'.revoked, downloadCount := t'.downloadCount) && (t.revoked ==> t'.revoked)
  }

  predicate SameAttempt(x: Attempt, x': Attempt) {
    x' == x.(phase := x'.phase)
  }

  /** Time goes on, rows and requests stay, counters only grow. */
  ghost predicate Follows(s: State, s': State) {
    && s'.acknowledged == s.acknowledged && s.now <= s'.now
    && |s.transfers| <= |s'.transfers|
    && (forall tid | 0 <= tid < |s.transfers| :: SameTransfer(s.transfers[tid], s'.transfers[tid]))
    && |s.attempts| <= |s'.attempts|
    && (forall a | 0 <= a < |s.attempts| :: SameAttempt(s.attempts[a], s'.attempts[a]))
    && (forall key | key in s.counters :: key in s'.counters && s.counters[key] <= s'.counters[key])
  }

  lemma AttemptFollows(s: State, a: AttemptId, answer: Answer)
    requires a < |s.attempts| && s.attempts[a].tid < |s.transfers|
    ensures Follows(s, AttemptStep(s, a, answer))
  {
  }

  lemma OwnerFollows(s: State, a: Action)
    ensures Follows(s, OwnerStep(s, a))
  {
  }

  lemma StepFollows(s: State, a: Action)
    ensures Follows(s, Step(s, a))
  {
    OwnerFollows(s, a);
    if IsAttemptAction(a) && a.a < |s.attempts| && s.attempts[a.a].tid < |s.transfers| {
      AttemptFollows(s, a.a, AnswerOf(a));
    }
  }

  lemma {:induction false} RunFollows(s: State, actions: seq<Action>)
    ensures Follows(s, Run(s, actions))
    decreases |actions|
  {
    if actions != [] {
      RunFollows(s, actions[..|actions| - 1]);
      StepFollows(Run(s, actions[..|actions| - 1]), actions[|actions| - 1]);
      FollowsOn(s, Run(s, actions[..|actions| - 1]), Run(s, actions));
    }
  }

  lemma FollowsOn(s: State, m: State, s': State)
    requires Follows(s, m) && Follows(m, s')
    ensures Follows(s, s')
  {
  }

  // ---------- Status and exhaustion ----------

  /** is_exhausted holds exactly when the upsert would refuse every file of the limited transfer. */
  lemma {:induction false} ExhaustedMeansRefused(t: Transfer, counters: map<(TransferId, FileId), nat>, tid: TransferId)
    ensures IsExhausted(t, counters, tid) <==>
      t.maxDownloads > 0 && forall fid :: fid in t.files ==> !UpsertReturns(counters, tid, fid, t.maxDownloads)
  {
    if t.maxDownloads > 0 {
      forall fid | fid in t.files
        ensures UpsertReturns(counters, tid, fid, t.maxDownloads) <==> Count(counters, tid, fid) < t.maxDownloads {}
    }
  }

  lemma ExhaustedStays(s: State, s': State, tid: TransferId)
    requires Follows(s, s') && tid < |s.transfers|
    requires IsExhausted(s.transfers[tid], s.counters, tid)
    ensures IsExhausted(s'.transfers[tid], s'.counters, tid)
  {
    forall fid | fid in s'.transfers[tid].files ensures Count(s'.counters, tid, fid) >= s'.transfers[tid].maxDownloads {
      assert SameTransfer(s.transfers[tid], s'.transfers[tid]);
      assert !(Count(s.counters, tid, fid) < s.transfers[tid].maxDownloads);
    }
  }

  /** In every run exhaustion is permanent and the status only moves up:
      active < expired < exhausted < revoked. */
  lemma {:induction false} StatusOnlyRises(s: State, actions: seq<Action>, tid: TransferId)
    requires tid < |s.transfers|
    ensures tid < |Run(s, actions).transfers|
    ensures IsExhausted(s.transfers[tid], s.counters, tid) ==>
      IsExhausted(Run(s, actions).transfers[tid], Run(s, actions).counters, tid)
    ensures StatusIn(s, tid).Rank() <= StatusIn(Run(s, actions), tid).Rank()
  {
    var s' := Run(s, actions);
    RunFollows(s, actions);
    assert SameTransfer(s.transfers[tid], s'.transfers[tid]);
    if IsExhausted(s.transfers[tid], s.counters, tid) {
      ExhaustedStays(s, s', tid);
    }
  }

  // ---------- Which requests can still succeed ----------

  predicate HasRoom(s: State, attempt: Attempt)
    requires attempt.tid < |s.transfers|
  {
    var limit := s.transfers[attempt.tid].maxDownloads;
    limit <= 0 || Count(s.counters, attempt.tid, attempt.fid) < limit
  }

  /** What a request still needs from here on. Only one without a snapshot looks at the revocation,
      and only one that has not been checked looks at the clock. */
  predicate MaySucceed(s: State, a: AttemptId) {
    a < |s.attempts| && s.attempts[a].tid < |s.transfers| &&
    var attempt := s.attempts[a];
    var t := s.transfers[attempt.tid];
    match attempt.phase
    case Begun => PassesChecks(t, t.revoked, attempt, s.now) && HasRoom(s, attempt)
    case Snapshot(revoked) => PassesChecks(t, revoked, attempt, s.now) && HasRoom(s, attempt)
    case Checked => HasRoom(s, attempt)
    case Refused => false
    case Charged => false
    case _ => true
  }

  lemma DoomedByOthers(s: State, action: Action, a: AttemptId)
    requires a < |s.attempts| && s.attempts[a].tid < |s.transfers| && !MaySucceed(s, a)
    requires !IsAttemptAction(action)
    ensures !MaySucceed(Step(s, action), a)
  {
    OwnerFollows(s, action);
    var s' := Step(s, action);
    assert s'.attempts[a] == s.attempts[a];
    assert SameTransfer(s.transfers[s.attempts[a].tid], s'.transfers[s.attempts[a].tid]);
  }

  lemma DoomedByItself(s: State, a: AttemptId, answer: Answer)
    requires a < |s.attempts| && s.attempts[a].tid < |s.transfers| && !MaySucceed(s, a)
    ensures !MaySucceed(AttemptStep(s, a, answer), a)
  {
  }

  lemma DoomedByAnother(s: State, b: AttemptId, answer: Answer, a: AttemptId)
    requires a < |s.attempts| && s.attempts[a].tid < |s.transfers| && !MaySucceed(s, a)
    requires b < |s.attempts| && s.attempts[b].tid < |s.transfers| && b != a
    ensures !MaySucceed(AttemptStep(s, b, answer), a)
  {
    AttemptFollows(s, b, answer);
    var s' := AttemptStep(s, b, answer);
    assert s'.attempts[a] == s.attempts[a];
    assert SameTransfer(s.transfers[s.attempts[a].tid], s'.transfers[s.attempts[a].tid]);
  }

  lemma DoomedStays(s: State, action: Action, a: AttemptId)
    requires a < |s.attempts| && s.attempts[a].tid < |s.transfers|
    requires !MaySucceed(s, a)
    ensures a < |Step(s, action).attempts| && Step(s, action).attempts[a].tid < |Step(s, action).transfers|
    ensures !MaySucceed(Step(s, action), a)
  {
    StepFollows(s, action);
    var s' := Step(s, action);
    assert SameAttempt(s.attempts[a], s'.attempts[a]);
    if !IsAttemptAction(action) {
      DoomedByOthers(s, action, a);
    } else if s' != s {
      if action.a == a {
        DoomedByItself(s, a, AnswerOf(action));
      } else {
        DoomedByAnother(s, action.a, AnswerOf(action), a);
      }
    }
  }

  lemma {:induction false} DoomedForever(s: State, actions: seq<Action>, a: AttemptId)
    requires a < |s.attempts| && s.attempts[a].tid < |s.transfers|
    requires !MaySucceed(s, a)
    ensures a < |Run(s, actions).attempts| && Run(s, actions).attempts[a].tid < |Run(s, actions).transfers|
    ensures !MaySucceed(Run(s, actions), a)
    decreases |actions|
  {
    if actions != [] {
      DoomedForever(s, actions[..|actions| - 1], a);
      DoomedStays(Run(s, actions[..|actions| - 1]), actions[|actions| - 1], a);
    }
  }

  /** The steps that are left to a request. */
  function Rest(phase: Phase, a: AttemptId): seq<Action> {
    match phase
    case Begun => [Read(a), Check(a), Upsert(a, Done)]
    case Snapshot(_) => [Check(a), Upsert(a, Done)]
    case Checked => [Upsert(a, Done)]
    case _ => []
  }

  lemma {:induction false} RunFirst(s: State, a: Action, rest: seq<Action>)
    ensures Run(s, [a] + rest) == Run(Step(s, a), rest)
    decreases |rest|
  {
    var actions := [a] + rest;
    if rest == [] {
      assert actions[..0] == [];
    } else {
      RunFirst(s, a, rest[..|rest| - 1]);
      assert actions[..|rest|] == [a] + rest[..|rest| - 1] && actions[|rest|] == rest[|rest| - 1];
      assert Run(s, actions) == Step(Run(s, [a] + rest[..|rest| - 1]), rest[|rest| - 1]);
    }
  }

  /** The next step of a request that may succeed is possible, and leaves the rest to it. */
  lemma RestStep(s: State, a: AttemptId)
    requires MaySucceed(s, a) && !Success(s.attempts[a].phase)
    ensures
      var rest := Rest(s.attempts[a].phase, a);
      rest != [] && MaySucceed(Step(s, rest[0]), a) && Rest(Step(s, rest[0]).attempts[a].phase, a) == rest[1..]
  {
    var rest := Rest(s.attempts[a].phase, a);
    var s' := Step(s, rest[0]);
    assert s' == AttemptStep(s, a, Done);
    assert s'.attempts[a].phase == NextPhase(s, a, Done);
  }

  lemma {:induction false} RestSucceeds(s: State, a: AttemptId)
    requires MaySucceed(s, a)
    ensures Succeeded(Run(s, Rest(s.attempts[a].phase, a)), a)
    decreases |Rest(s.attempts[a].phase, a)|
  {
    var rest := Rest(s.attempts[a].phase, a);
    if rest != [] {
      RestStep(s, a);
      RestSucceeds(Step(s, rest[0]), a);
      RunFirst(s, rest[0], rest[1..]);
      assert rest == [rest[0]] + rest[1..];
    }
  }

  /** A request can still succeed in some continuation exactly when MaySucceed says so; so one whose
      snapshot is taken after the revocation, or that is checked after the expiry, never does. */
  lemma SucceedsIff(s: State, a: AttemptId)
    requires a < |s.attempts| && s.attempts[a].tid < |s.transfers|
    ensures (exists actions :: Succeeded(Run(s, actions), a)) <==> MaySucceed(s, a)
  {
    if MaySucceed(s, a) {
      var rest := Rest(s.attempts[a].phase, a);
      RestSucceeds(s, a);
      assert exists actions :: Succeeded(Run(s, actions), a) by { assert Succeeded(Run(s, rest), a); }
    } else {
      forall actions ensures !Succeeded(Run(s, actions), a) {
        DoomedForever(s, actions, a);
      }
    }
  }
}
