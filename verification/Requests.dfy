/** Submissions to a file request: each call counts, uploads, and only then inserts. */
module Requests {
  /** Submit calls for one request. Calls at the same point are interchangeable, so it is enough to
      know how many there are. */
  datatype State = State(
    recorded: nat,  // rows of request_submissions
    entered: nat,   // calls that have not counted yet
    passed: nat)    // calls past the check, whose upload or insert is still to come
  {
    function InFlight(): nat {
      entered + passed
    }
  }

  datatype Action =
    | Enter
    | Count(ok: bool)    // the max-files check, or an earlier refusal or failure
    | Insert(ok: bool)   // not ok: the upload or the insert fails

  /** The check in Submit. */
  predicate MayPass(maxFiles: int, recorded: nat) {
    maxFiles <= 0 || recorded < maxFiles
  }

  /** At most c calls are in flight at a time. */
  function Step(maxFiles: int, c: nat, s: State, a: Action): State {
    match a
    case Enter => if s.InFlight() < c then s.(entered := s.entered + 1) else s
    case Count(ok) =>
      if s.entered == 0 then s
      else if ok && MayPass(maxFiles, s.recorded) then s.(entered := s.entered - 1, passed := s.passed + 1)
      else s.(entered := s.entered - 1)
    case Insert(ok) =>
      if s.passed == 0 then s
      else if ok then s.(recorded := s.recorded + 1, passed := s.passed - 1)
      else s.(passed := s.passed - 1)
  }

  function Run(maxFiles: int, c: nat, s: State, actions: seq<Action>): State
    decreases |actions|
  {
    if actions == [] then s
    else Step(maxFiles, c, Run(maxFiles, c, s, actions[..|actions| - 1]), actions[|actions| - 1])
  }

  const START := State(0, 0, 0)

  ghost predicate Reachable(maxFiles: int, c: nat, s: State) {
    exists actions :: Run(maxFiles, c, START, actions) == s
  }

  lemma RunNext(maxFiles: int, c: nat, s: State, actions: seq<Action>, a: Action)
    ensures Run(maxFiles, c, s, actions + [a]) == Step(maxFiles, c, Run(maxFiles, c, s, actions), a)
  {
    assert (actions + [a])[..|actions|] == actions && (actions + [a])[|actions|] == a;
  }

  lemma ReachNext(maxFiles: int, c: nat, s: State, a: Action)
    requires Reachable(maxFiles, c, s)
    ensures Reachable(maxFiles, c, Step(maxFiles, c, s, a))
  {
    var actions :| Run(maxFiles, c, START, actions) == s;
    RunNext(maxFiles, c, START, actions, a);
  }

  // ---------- The bound ----------

  /** Calls past the check still count as submissions to come. */
  lemma {:induction false} Bounded(maxFiles: int, c: nat, actions: seq<Action>)
    requires maxFiles > 0 && c > 0
    ensures
      var s := Run(maxFiles, c, START, actions);
      s.InFlight() <= c && s.recorded + s.passed <= maxFiles + c - 1
    decreases |actions|
  {
    if actions != [] {
      Bounded(maxFiles, c, actions[..|actions| - 1]);
    }
  }

  // ---------- The bound is reached ----------

  lemma ReachStart(maxFiles: int, c: nat)
    ensures Reachable(maxFiles, c, State(0, 0, 0))
  {
    assert Run(maxFiles, c, START, []) == State(0, 0, 0);
  }

  lemma EnterSerially(maxFiles: int, c: nat, k: nat)
    requires c > 0 && Reachable(maxFiles, c, State(k, 0, 0))
    ensures Reachable(maxFiles, c, State(k, 1, 0))
  {
    ReachNext(maxFiles, c, State(k, 0, 0), Enter);
  }

  lemma CountSerially(maxFiles: int, c: nat, k: nat)
    requires k < maxFiles && c > 0 && Reachable(maxFiles, c, State(k, 0, 0))
    ensures Reachable(maxFiles, c, State(k, 0, 1))
  {
    EnterSerially(maxFiles, c, k);
    ReachNext(maxFiles, c, State(k, 1, 0), Count(true));
  }

  lemma SubmitSerially(maxFiles: int, c: nat, k: nat)
    requires k < maxFiles && c > 0 && Reachable(maxFiles, c, State(k, 0, 0))
    ensures Reachable(maxFiles, c, State(k + 1, 0, 0))
  {
    CountSerially(maxFiles, c, k);
    ReachNext(maxFiles, c, State(k, 0, 1), Insert(true));
  }

  lemma {:induction false} ReachSerial(maxFiles: int, c: nat, k: nat)
    requires k <= maxFiles && c > 0
    ensures Reachable(maxFiles, c, State(k, 0, 0))
  {
    if k == 0 {
      ReachStart(maxFiles, c);
    } else {
      ReachSerial(maxFiles, c, k - 1);
      SubmitSerially(maxFiles, c, k - 1);
    }
  }

  lemma {:induction false} ReachEntered(maxFiles: int, c: nat, j: nat)
    requires maxFiles > 0 && j <= c && c > 0
    ensures Reachable(maxFiles, c, State(maxFiles - 1, j, 0))
  {
    if j == 0 {
      ReachSerial(maxFiles, c, maxFiles - 1);
    } else {
      ReachEntered(maxFiles, c, j - 1);
      ReachNext(maxFiles, c, State(maxFiles - 1, j - 1, 0), Enter);
    }
  }

  lemma {:induction false} ReachPassed(maxFiles: int, c: nat, j: nat)
    requires maxFiles > 0 && j <= c && c > 0
    ensures Reachable(maxFiles, c, State(maxFiles - 1, c - j, j))
  {
    if j == 0 {
      ReachEntered(maxFiles, c, c);
    } else {
      ReachPassed(maxFiles, c, j - 1);
      ReachNext(maxFiles, c, State(maxFiles - 1, c - j + 1, j - 1), Count(true));
    }
  }

  lemma {:induction false} ReachInserted(maxFiles: int, c: nat, j: nat)
    requires maxFiles > 0 && j <= c && c > 0
    ensures Reachable(maxFiles, c, State(maxFiles - 1 + j, 0, c - j))
  {
    if j == 0 {
      ReachPassed(maxFiles, c, c);
    } else {
      ReachInserted(maxFiles, c, j - 1);
      ReachNext(maxFiles, c, State(maxFiles - 2 + j, 0, c - j + 1), Insert(true));
    }
  }

  /** With at most c calls in flight a limited request records at most MaxFiles + c - 1 submissions,
      and this many in some run. */
  lemma SubmissionCap(maxFiles: int, c: nat)
    requires maxFiles > 0 && c > 0
    ensures forall s :: Reachable(maxFiles, c, s) ==> s.recorded <= maxFiles + c - 1
    ensures exists s :: Reachable(maxFiles, c, s) && s.recorded == maxFiles + c - 1
  {
    forall s | Reachable(maxFiles, c, s) ensures s.recorded <= maxFiles + c - 1 {
      var actions :| Run(maxFiles, c, START, actions) == s;
      Bounded(maxFiles, c, actions);
    }
    ReachInserted(maxFiles, c, c);
    assert State(maxFiles - 1 + c, 0, 0).recorded == maxFiles + c - 1;
  }

  /** So the limit holds in every run exactly when the calls are serial. */
  lemma LimitHoldsIffSerial(maxFiles: int, c: nat)
    requires maxFiles > 0 && c > 0
    ensures (forall s :: Reachable(maxFiles, c, s) ==> s.recorded <= maxFiles) <==> c == 1
  {
    SubmissionCap(maxFiles, c);
  }

  // ---------- The call itself ----------

  datatype Outcome = Recorded | ClosedOrExpired | FileTooLarge | LimitReached | Failed

  class RequestService {
    const maxFiles: int
    const maxSizeMB: int
    var submissions: seq<nat>  // file ids

    constructor (maxFiles: int, maxSizeMB: int)
      ensures this.maxFiles == maxFiles && this.maxSizeMB == maxSizeMB && submissions == []
    {
      this.maxFiles, this.maxSizeMB, submissions := maxFiles, maxSizeMB, [];
    }

    /** Submit without interference. uploaded is the answer of the storage service. */
    method Submit(closed: bool, size: nat, countOk: bool, uploaded: bool, fileID: nat, insertOk: bool)
        returns (outcome: Outcome)
      modifies this
      ensures submissions == if outcome.Recorded? then old(submissions) + [fileID] else old(submissions)
      ensures outcome.Recorded? <==>
        && !closed && (maxSizeMB <= 0 || size <= maxSizeMB * 1024 * 1024)
        && (maxFiles <= 0 || (countOk && |old(submissions)| < maxFiles)) && uploaded && insertOk
      ensures maxFiles > 0 && |old(submissions)| <= maxFiles ==> |submissions| <= maxFiles
      ensures outcome.LimitReached? ==> 0 < maxFiles <= |old(submissions)|
    {
      if closed { return ClosedOrExpired; }
      if maxSizeMB > 0 && size > maxSizeMB * 1024 * 1024 { return FileTooLarge; }
      if maxFiles > 0 {
        if !countOk { return Failed; }
        if |submissions| >= maxFiles { return LimitReached; }
      }
      if !uploaded { return Failed; }
      if !insertOk { return Failed; }
      submissions := submissions + [fileID];
      return Recorded;
    }
  }
}
