/** What revoking a transfer, or letting it expire, does to the requests that come after, and what the
    status of a transfer tells about them. */
module TransferStops {
  import opened Wrappers
  import opened Transfers

  // ---------- Requests that come after ----------

  /** A request for the transfer that has not got the file, and will not if it looks at what is there. */
  predicate Barred(x: Attempt, tid: TransferId) {
    x.tid == tid ==> x.phase == Begun || x.phase == Snapshot(true) || x.phase == Refused
  }

  /** The same when only the clock stands in the way, which is read after the row. */
  predicate TooLate(x: Attempt, tid: TransferId) {
    x.tid == tid ==> x.phase == Begun || x.phase.Snapshot? || x.phase == Refused
  }

  /** The row is revoked, and request a is barred if it is there. */
  ghost predicate Shut(s: State, tid: TransferId, a: AttemptId) {
    tid < |s.transfers| && s.transfers[tid].revoked && (a < |s.attempts| ==> Barred(s.attempts[a], tid))
  }

  ghost predicate Over(s: State, tid: TransferId, a: AttemptId) {
    && tid < |s.transfers| && s.transfers[tid].expiresAt.Some? && s.now > s.transfers[tid].expiresAt.value
    && (a < |s.attempts| ==> TooLate(s.attempts[a], tid))
  }

  lemma StaysShutStep(s: State, action: Action, tid: TransferId, a: AttemptId)
    requires Shut(s, tid, a)
    ensures Shut(Step(s, action), tid, a)
  {
    var s' := Step(s, action);
    StepFollows(s, action);
    assert SameTransfer(s.transfers[tid], s'.transfers[tid]);
    if a < |s.attempts| {
      assert SameAttempt(s.attempts[a], s'.attempts[a]);
    }
  }

  lemma {:induction false} StaysShut(s: State, actions: seq<Action>, tid: TransferId, a: AttemptId)
    requires Shut(s, tid, a)
    ensures Shut(Run(s, actions), tid, a)
    decreases |actions|
  {
    if actions != [] {
      StaysShut(s, actions[..|actions| - 1], tid, a);
      StaysShutStep(Run(s, actions[..|actions| - 1]), actions[|actions| - 1], tid, a);
    }
  }

  lemma StaysOverStep(s: State, action: Action, tid: TransferId, a: AttemptId)
    requires Over(s, tid, a)
    ensures Over(Step(s, action), tid, a)
  {
    var s' := Step(s, action);
    StepFollows(s, action);
    assert SameTransfer(s.transfers[tid], s'.transfers[tid]);
    if a < |s.attempts| {
      assert SameAttempt(s.attempts[a], s'.attempts[a]);
    }
  }

  lemma {:induction false} StaysOver(s: State, actions: seq<Action>, tid: TransferId, a: AttemptId)
    requires Over(s, tid, a)
    ensures Over(Run(s, actions), tid, a)
    decreases |actions|
  {
    if actions != [] {
      StaysOver(s, actions[..|actions| - 1], tid, a);
      StaysOverStep(Run(s, actions[..|actions| - 1]), actions[|actions| - 1], tid, a);
    }
  }

  lemma {:induction false} RunAppend(s: State, a: seq<Action>, b: seq<Action>)
    ensures Run(s, a + b) == Run(Run(s, a), b)
    decreases |b|
  {
    if b == [] {
      assert a + b == a;
    } else {
      var n := |b| - 1;
      RunAppend(s, a, b[..n]);
      assert (a + b)[..|a + b| - 1] == a + b[..n] && (a + b)[|a + b| - 1] == b[n];
      assert Run(s, a + b) == Step(Run(s, a + b[..n]), b[n]);
    }
  }

  lemma RunAround(s: State, before: seq<Action>, action: Action, after: seq<Action>)
    ensures Run(s, before + [action] + after) == Run(Step(Run(s, before), action), after)
  {
    RunAppend(s, before + [action], after);
    RunAppend(s, before, [action]);
    assert [action][..0] == [];
    assert Run(Run(s, before), []) == Run(s, before);
  }

  /** The action ends the transfer: its owner revokes it, or stale transfers are expired after its
      time. */
  predicate Ends(s: State, action: Action, tid: TransferId)
    requires tid < |s.transfers|
  {
    match action
    case Revoke(revoked, owner) => revoked == tid && owner == s.transfers[tid].owner
    case ExpireStale => s.transfers[tid].expiresAt.Some? && s.now > s.transfers[tid].expiresAt.value
    case _ => false
  }

  /** In every run, once its owner has revoked a transfer, or ExpireStale has come across it after its
      time, no request for it succeeds that was begun later, or had not read the row by then. */
  lemma NotServedAfterEnd(s: State, before: seq<Action>, end: Action, after: seq<Action>, tid: TransferId, a: AttemptId)
    requires
      var mid := Run(s, before);
      && tid < |mid.transfers| && Ends(mid, end, tid)
      && (a < |mid.attempts| ==> mid.attempts[a].phase == Begun)
    ensures
      var last := Run(s, before + [end] + after);
      a < |last.attempts| && last.attempts[a].tid == tid ==> !Succeeded(last, a)
  {
    var mid := Run(s, before);
    RunAround(s, before, end, after);
    assert Shut(Step(mid, end), tid, a);
    StaysShut(Step(mid, end), after, tid, a);
  }

  /** Once the clock has passed the expiry, no request succeeds that was begun later, or had not been
      checked by then. */
  lemma NotServedAfterExpiry(s: State, before: seq<Action>, elapsed: nat, after: seq<Action>, tid: TransferId,
                             a: AttemptId)
    requires
      var mid := Run(s, before);
      && tid < |mid.transfers| && mid.transfers[tid].expiresAt.Some?
      && mid.now + elapsed > mid.transfers[tid].expiresAt.value
      && (a < |mid.attempts| ==> mid.attempts[a].phase == Begun || mid.attempts[a].phase.Snapshot?)
    ensures
      var last := Run(s, before + [Tick(elapsed)] + after);
      a < |last.attempts| && last.attempts[a].tid == tid ==> !Succeeded(last, a)
  {
    var mid := Run(s, before);
    RunAround(s, before, Tick(elapsed), after);
    assert Over(Step(mid, Tick(elapsed)), tid, a);
    StaysOver(Step(mid, Tick(elapsed)), after, tid, a);
  }

  /** And a revocation touches nothing but the row of this owner. */
  lemma RevokeTouches(s: State, tid: TransferId, owner: nat)
    ensures
      var s' := Step(s, Revoke(tid, owner));
      && s' == s.(transfers := s'.transfers) && |s'.transfers| == |s.transfers|
      && forall i | 0 <= i < |s.transfers| ::
           s'.transfers[i] == if i == tid && s.transfers[i].owner == owner then s.transfers[i].(revoked := true)
                              else s.transfers[i]
  {
  }

  // ---------- What the status tells ----------

  /** A request that begins now, with nobody in between. */
  function Alone(s: State, tid: TransferId, fid: FileId, password: string): seq<Action> {
    var a := |s.attempts|;
    [Begin(tid, fid, password), Read(a), Check(a), Upsert(a, Done)]
  }

  predicate ServedAlone(s: State, tid: TransferId, fid: FileId, password: string) {
    Succeeded(Run(s, Alone(s, tid, fid, password)), |s.attempts|)
  }

  lemma BegunMay(s: State, tid: TransferId, fid: FileId, password: string)
    requires tid < |s.transfers|
    ensures
      var t, begun := s.transfers[tid], Step(s, Begin(tid, fid, password));
      && |begun.attempts| == |s.attempts| + 1
      && begun.attempts[|s.attempts|] == Attempt(tid, fid, password, Begun) && begun.transfers == s.transfers
      && (MaySucceed(begun, |s.attempts|) <==>
            && !t.revoked && !(t.expiresAt.Some? && s.now > t.expiresAt.value)
            && (t.password.None? || (password != "" && password == t.password.value))
            && fid in t.files && (t.maxDownloads <= 0 || Count(s.counters, tid, fid) < t.maxDownloads))
  {
  }

  /** A request that has begun, with nobody in between, is served exactly if it may succeed. */
  lemma RestDecides(s: State, a: AttemptId)
    requires a < |s.attempts| && s.attempts[a].tid < |s.transfers| && s.attempts[a].phase == Begun
    ensures Succeeded(Run(s, [Read(a), Check(a), Upsert(a, Done)]), a) <==> MaySucceed(s, a)
  {
    assert Rest(Begun, a) == [Read(a), Check(a), Upsert(a, Done)];
    if MaySucceed(s, a) {
      RestSucceeds(s, a);
    } else {
      DoomedForever(s, [Read(a), Check(a), Upsert(a, Done)], a);
    }
  }

  /** It is served exactly if the transfer is neither revoked nor past its time, the password is right,
      and the file is one of the transfer's and has downloads left. */
  lemma AloneIff(s: State, tid: TransferId, fid: FileId, password: string)
    requires tid < |s.transfers|
    ensures
      var t := s.transfers[tid];
      ServedAlone(s, tid, fid, password) <==>
        && !t.revoked && !(t.expiresAt.Some? && s.now > t.expiresAt.value)
        && (t.password.None? || (password != "" && password == t.password.value))
        && fid in t.files && (t.maxDownloads <= 0 || Count(s.counters, tid, fid) < t.maxDownloads)
  {
    var a, rest := |s.attempts|, [Read(|s.attempts|), Check(|s.attempts|), Upsert(|s.attempts|, Done)];
    var begun := Step(s, Begin(tid, fid, password));
    assert Alone(s, tid, fid, password) == [Begin(tid, fid, password)] + rest;
    RunFirst(s, Begin(tid, fid, password), rest);
    BegunMay(s, tid, fid, password);
    RestDecides(begun, a);
  }

  /** Every file of the limited transfer has been downloaded as often as allowed. */
  ghost predicate UsedUp(s: State, tid: TransferId)
    requires tid < |s.transfers|
  {
    var t := s.transfers[tid];
    t.maxDownloads > 0 && forall fid | fid in t.files :: Count(s.counters, tid, fid) >= t.maxDownloads
  }

  /** A transfer with files is active exactly if some request would be served now; otherwise its status
      gives the first reason, in the order revoked, exhausted, expired. Create stores no empty
      password. */
  lemma StatusTells(s: State, tid: TransferId)
    requires tid < |s.transfers| && s.transfers[tid].files != [] && s.transfers[tid].password != Some("")
    ensures
      var t := s.transfers[tid];
      && (StatusIn(s, tid) == Revoked <==> t.revoked)
      && (StatusIn(s, tid) == Exhausted <==> !t.revoked && UsedUp(s, tid))
      && (StatusIn(s, tid) == ExpiredStatus <==>
            !t.revoked && !UsedUp(s, tid) && t.expiresAt.Some? && s.now > t.expiresAt.value)
    ensures StatusIn(s, tid) == Active <==> exists fid, password :: ServedAlone(s, tid, fid, password)
  {
    var t := s.transfers[tid];
    assert IsExhausted(t, s.counters, tid) <==> UsedUp(s, tid);
    if StatusIn(s, tid) == Active {
      assert t.files[0] in t.files;
      var fid: FileId :| fid in t.files && (t.maxDownloads <= 0 || Count(s.counters, tid, fid) < t.maxDownloads);
      var password := if t.password.Some? then t.password.value else "";
      AloneIff(s, tid, fid, password);
      assert ServedAlone(s, tid, fid, password);
    }
    if fid: FileId, password: string :| ServedAlone(s, tid, fid, password) {
      AloneIff(s, tid, fid, password);
    }
  }

  /** In every run a revoked transfer stays revoked, an exhausted one is never active or expired again,
      and an expired one never active. */
  lemma StatusIsKept(s: State, actions: seq<Action>, tid: TransferId)
    requires tid < |s.transfers|
    ensures tid < |Run(s, actions).transfers|
    ensures
      var before, after := StatusIn(s, tid), StatusIn(Run(s, actions), tid);
      && (before == Revoked ==> after == Revoked)
      && (before == Exhausted ==> after == Exhausted || after == Revoked)
      && (before == ExpiredStatus ==> after != Active)
  {
    StatusOnlyRises(s, actions, tid);
  }
}
