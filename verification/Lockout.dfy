/** Account lockout: failed password verifications against a fixed policy, logins one at a time. */
module Lockout {
  import opened Wrappers

  /** The lockout columns of auth.users. */
  datatype User = User(failed: nat, lockedUntil: Option<int>)

  datatype Policy = Policy(maxAttempts: int, lockDuration: nat)

  predicate IsLocked(user: User, now: int) {
    user.lockedUntil.Some? && user.lockedUntil.value > now
  }

  /** RecordFailedLogin: one more failure; at the threshold, and at every failure beyond it, the
      account is locked from now on. */
  function RecordFailed(user: User, policy: Policy, now: int): User {
    User(user.failed + 1,
         if user.failed + 1 >= policy.maxAttempts then Some(now + policy.lockDuration) else user.lockedUntil)
  }

  /** RecordSuccessfulLogin. */
  function RecordSuccessful(user: User): User {
    User(0, None)
  }

  /** Serialised requests. A login reads the clock at check, and its failure is recorded at record.
      A right password resets the counter unless the login stops before that, at the second factor
      or at an unverified address. */
  datatype Request =
    | Login(check: int, record: int, passwordOk: bool, stops: bool)
    | SecondFactor(record: int)  // LoginWithMFA succeeds

  datatype State = State(user: User, failures: seq<int>)  // times of the failures since the last reset

  function Step(policy: Policy, s: State, r: Request): State {
    match r
    case SecondFactor(_) => State(RecordSuccessful(s.user), [])
    case Login(check, record, passwordOk, stops) =>
      if IsLocked(s.user, check) then s
      else if !passwordOk then State(RecordFailed(s.user, policy, record), s.failures + [record])
      else if stops then s
      else State(RecordSuccessful(s.user), [])
  }

  /** What a request does to the columns: nothing while the lock lasts or if the login stops before its
      end, one more failure for a wrong password, and a reset only for a complete login. */
  lemma RequestEffects(policy: Policy, s: State, r: Request)
    ensures
      var after := Step(policy, s, r);
      match r
      case SecondFactor(_) => after.user.failed == 0 && after.user.lockedUntil == None && after.failures == []
      case Login(check, record, passwordOk, stops) =>
        if s.user.lockedUntil.Some? && s.user.lockedUntil.value > check then after == s
        else if passwordOk && stops then after == s
        else if passwordOk then after.user.failed == 0 && after.user.lockedUntil == None && after.failures == []
        else
          && after.user.failed == s.user.failed + 1 && after.failures == s.failures + [record]
          && after.user.lockedUntil ==
               if s.user.failed + 1 >= policy.maxAttempts then Some(record + policy.lockDuration)
               else s.user.lockedUntil
  {
  }

  function Run(policy: Policy, requests: seq<Request>): State
    decreases |requests|
  {
    if requests == [] then State(User(0, None), [])
    else Step(policy, Run(policy, requests[..|requests| - 1]), requests[|requests| - 1])
  }

  /** One login after the other, on a clock that does not go back. */
  ghost predicate Serial(requests: seq<Request>) {
    && (forall i | 0 <= i < |requests| :: requests[i].Login? ==> requests[i].check <= requests[i].record)
    && (forall i, j | 0 <= i < j < |requests| :: requests[j].Login? ==> requests[i].record <= requests[j].check)
  }

  /** A threshold below one locks at the first failure, like a threshold of one. */
  function Threshold(policy: Policy): (m: nat)
    ensures m >= 1
  {
    if policy.maxAttempts < 1 then 1 else policy.maxAttempts
  }

  /** The counter is never cleared by a lock that runs out, so from the threshold on each failure
      locks again, and the next comes a lock duration later at the earliest. */
  ghost predicate Spaced(policy: Policy, s: State) {
    && s.user.failed == |s.failures|
    && (s.user.lockedUntil == if |s.failures| >= Threshold(policy)
          then Some(s.failures[|s.failures| - 1] + policy.lockDuration) else None)
    && forall i | Threshold(policy) <= i < |s.failures| :: s.failures[i] >= s.failures[i - 1] + policy.lockDuration
  }

  lemma {:induction false} StaysSpaced(policy: Policy, requests: seq<Request>)
    requires Serial(requests)
    ensures Spaced(policy, Run(policy, requests))
    decreases |requests|
  {
    if requests != [] {
      StaysSpaced(policy, requests[..|requests| - 1]);
    }
  }

  lemma {:induction false} Spread(failures: seq<int>, m: nat, n: nat, gap: nat)
    requires 1 <= m <= n <= |failures|
    requires forall i | m <= i < |failures| :: failures[i] >= failures[i - 1] + gap
    ensures failures[n - 1] - failures[m - 1] >= (n - m) * gap
    decreases n
  {
    if n > m {
      Spread(failures, m, n - 1, gap);
      assert (n - m) * gap == (n - 1 - m) * gap + gap;
    }
  }

  /** The n-th failed verification since a reset comes at least (n - M) lock durations after the M-th. */
  lemma LockoutBound(policy: Policy, requests: seq<Request>, n: nat)
    requires Serial(requests)
    requires Threshold(policy) <= n <= |Run(policy, requests).failures|
    ensures
      var failures, m := Run(policy, requests).failures, Threshold(policy);
      failures[n - 1] - failures[m - 1] >= (n - m) * policy.lockDuration
  {
    StaysSpaced(policy, requests);
    Spread(Run(policy, requests).failures, Threshold(policy), n, policy.lockDuration);
  }

  // ---------- The bound is reached ----------

  /** When the n-th of a series of failing logins comes, each as early as the locks allow. */
  function Earliest(policy: Policy, n: nat): nat {
    if n <= Threshold(policy) then 0 else (n - Threshold(policy)) * policy.lockDuration
  }

  lemma EarliestNext(policy: Policy, n: nat)
    ensures Earliest(policy, n + 1) == Earliest(policy, n) + if n >= Threshold(policy) then policy.lockDuration else 0
  {
    if n >= Threshold(policy) {
      var k := n - Threshold(policy);
      assert (k + 1) * policy.lockDuration == k * policy.lockDuration + policy.lockDuration;
    }
  }

  ghost predicate OnTime(policy: Policy, failures: seq<int>) {
    forall i | 0 <= i < |failures| :: failures[i] == Earliest(policy, i + 1)
  }

  lemma RunNext(policy: Policy, requests: seq<Request>, r: Request)
    ensures Run(policy, requests + [r]) == Step(policy, Run(policy, requests), r)
  {
    assert (requests + [r])[..|requests|] == requests;
  }

  lemma FailsOnTime(policy: Policy, s: State, e: nat)
    requires Spaced(policy, s) && OnTime(policy, s.failures) && e == Earliest(policy, |s.failures| + 1)
    ensures Step(policy, s, Login(e, e, false, false)).failures == s.failures + [e]
    ensures OnTime(policy, s.failures + [e])
  {
    EarliestNext(policy, |s.failures|);
  }

  lemma SerialNext(requests: seq<Request>, e: int)
    requires Serial(requests) && forall i | 0 <= i < |requests| :: requests[i].record <= e
    ensures Serial(requests + [Login(e, e, false, false)])
  {
  }

  /** For every n there is a serial run of n failing logins that are exactly as far apart as the
      bound says. */
  lemma {:induction false} LockoutTight(policy: Policy, n: nat) returns (requests: seq<Request>)
    ensures Serial(requests) && forall i | 0 <= i < |requests| :: requests[i].record <= Earliest(policy, n)
    ensures |Run(policy, requests).failures| == n && OnTime(policy, Run(policy, requests).failures)
  {
    if n == 0 {
      requests := [];
    } else {
      var before := LockoutTight(policy, n - 1);
      var e := Earliest(policy, n);
      EarliestNext(policy, n - 1);
      StaysSpaced(policy, before);
      FailsOnTime(policy, Run(policy, before), e);
      SerialNext(before, e);
      requests := before + [Login(e, e, false, false)];
      RunNext(policy, before, Login(e, e, false, false));
    }
  }
}
