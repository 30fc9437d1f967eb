/** The transfers of the program as the shares that the retention rules look at. */
module ShareRules {
  import opened Transfers
  import opened Retention

  /** The rows that a query joins for a file: one for each transfer that contains it. */
  function SharesOf(transfers: seq<Transfer>, fid: FileId): seq<Share> {
    if transfers == [] then []
    else
      var last := transfers[|transfers| - 1];
      SharesOf(transfers[..|transfers| - 1], fid) +
        if fid in last.files then [Share(last.revoked, last.expiresAt)] else []
  }

  /** What the service's Create hands to the repository always has an expiry. */
  predicate Expiring(actions: seq<Action>) {
    forall i | 0 <= i < |actions| :: actions[i].Create? ==> actions[i].transfer.expiresAt.Some?
  }

  ghost predicate AllExpire(transfers: seq<Transfer>) {
    forall tid | 0 <= tid < |transfers| :: transfers[tid].expiresAt.Some?
  }

  lemma StepExpiring(s: State, action: Action)
    requires AllExpire(s.transfers) && (action.Create? ==> action.transfer.expiresAt.Some?)
    ensures AllExpire(Step(s, action).transfers)
  {
    var s' := Step(s, action);
    StepFollows(s, action);
    forall tid | 0 <= tid < |s'.transfers| ensures s'.transfers[tid].expiresAt.Some? {
      if tid < |s.transfers| {
        assert SameTransfer(s.transfers[tid], s'.transfers[tid]);
      }
    }
  }

  lemma {:induction false} StaysExpiring(s: State, actions: seq<Action>)
    requires AllExpire(s.transfers) && Expiring(actions)
    ensures AllExpire(Run(s, actions).transfers)
    decreases |actions|
  {
    if actions != [] {
      var n := |actions| - 1;
      var before, s' := Run(s, actions[..n]), Run(s, actions);
      StaysExpiring(s, actions[..n]);
      StepExpiring(before, actions[n]);
    }
  }

  lemma {:induction false} SharesHaveExpiry(transfers: seq<Transfer>, fid: FileId)
    requires AllExpire(transfers)
    ensures !HasNull(SharesOf(transfers, fid))
  {
    if transfers != [] {
      SharesHaveExpiry(transfers[..|transfers| - 1], fid);
    }
  }

  /** The share stands for this transfer, which has the file. */
  predicate StandsFor(share: Share, t: Transfer, fid: FileId) {
    fid in t.files && share.revoked == t.revoked && share.expiresAt == t.expiresAt
  }

  /** Each transfer with the file is one of its shares, and there are no others. */
  lemma {:induction false} SharesAreTransfers(transfers: seq<Transfer>, fid: FileId, share: Share)
    ensures share in SharesOf(transfers, fid) <==>
      exists tid :: 0 <= tid < |transfers| && StandsFor(share, transfers[tid], fid)
  {
    if transfers != [] {
      var init := transfers[..|transfers| - 1];
      SharesAreTransfers(init, fid, share);
      if tid :| 0 <= tid < |init| && StandsFor(share, init[tid], fid) {
        assert StandsFor(share, transfers[tid], fid);
      }
      if tid :| 0 <= tid < |transfers| && StandsFor(share, transfers[tid], fid) {
        assert tid < |init| ==> StandsFor(share, init[tid], fid);
      }
    }
  }

  /** On every file that the program can produce, the admin's list and the worker agree at every
      instant. */
  lemma ListAgreesWithWorker(start: State, actions: seq<Action>, fid: FileId, createdAt: int, policy: Policy, now: int)
    requires start.transfers == [] && Expiring(actions)
    ensures
      var file := File(createdAt, SharesOf(Run(start, actions).transfers, fid), false);
      WorkerSelects(file, policy, now) <==> EligiblePurge(file, policy, now)
  {
    StaysExpiring(start, actions);
    SharesHaveExpiry(Run(start, actions).transfers, fid);
    AgreementWithoutNulls(File(createdAt, SharesOf(Run(start, actions).transfers, fid), false), policy, now);
  }

  /** And with days that the settings handler accepts, a date that is shown is the one the worker
      keeps, as long as the shares stay as they are. */
  lemma DateIsKept(start: State, actions: seq<Action>, fid: FileId, createdAt: int, policy: Policy, now: int,
                   later: int)
    requires start.transfers == [] && Expiring(actions)
    requires policy.retentionDays >= 1 && policy.orphanDays >= 1 && now <= later
    ensures
      var file := File(createdAt, SharesOf(Run(start, actions).transfers, fid), false);
      AutoDeleteAt(file, policy, now).Some? ==>
        (WorkerSelects(file, policy, later) <==> later > AutoDeleteAt(file, policy, now).value)
  {
    var file := File(createdAt, SharesOf(Run(start, actions).transfers, fid), false);
    StaysExpiring(start, actions);
    SharesHaveExpiry(Run(start, actions).transfers, fid);
    if AutoDeleteAt(file, policy, now).Some? {
      AutoDeleteIsKept(file, policy, now);
    }
  }
}
