/** Account lockout when logins of one account overlap: the account is read, the lock is checked, and
    only then the failure is recorded. */
module LockoutRace {
  import opened Wrappers
  import Lockout

  /** One of at most c logins in flight, with the lock it has seen when it read the account. */
  datatype Slot =
    | Idle
    | Read(seen: Option<int>)
    | Passed(seen: Option<int>)  // not locked, as far as it has seen

  /** failures: times of the failures since the last reset. */
  datatype State = State(now: int, user: Lockout.User, failures: seq<int>, slots: seq<Slot>)

  datatype Action =
    | Tick(elapsed: nat)
    | ReadUser(i: nat)
    | CheckLock(i: nat)
    | Fail(i: nat)
    | Succeed(i: nat)
    | Leave(i: nat)  // a stop after the right password, or an error
    | SecondFactor   // LoginWithMFA succeeds

  predicate IsPassed(s: State, i: nat) {
    i < |s.slots| && s.slots[i].Passed?
  }

  function Step(policy: Lockout.Policy, s: State, a: Action): State {
    match a
    case Tick(elapsed) => s.(now := s.now + elapsed)
    case ReadUser(i) =>
      if i < |s.slots| && s.slots[i].Idle? then s.(slots := s.slots[i := Read(s.user.lockedUntil)]) else s
    case CheckLock(i) =>
      if i >= |s.slots| || !s.slots[i].Read? then s
      else
        var seen := s.slots[i].seen;
        s.(slots := s.slots[i := if Lockout.IsLocked(Lockout.User(0, seen), s.now) then Idle else Passed(seen)])
    case Fail(i) =>
      if !IsPassed(s, i) then s
      else
        State(s.now, Lockout.RecordFailed(s.user, policy, s.now), s.failures + [s.now], s.slots[i := Idle])
    case Succeed(i) =>
      if !IsPassed(s, i) then s
      else State(s.now, Lockout.RecordSuccessful(s.user), [], s.slots[i := Idle])
    case Leave(i) => if i < |s.slots| then s.(slots := s.slots[i := Idle]) else s
    case SecondFactor => s.(user := Lockout.RecordSuccessful(s.user), failures := [])
  }

  function Run(policy: Lockout.Policy, s: State, actions: seq<Action>): State
    decreases |actions|
  {
    if actions == [] then s
    else Step(policy, Run(policy, s, actions[..|actions| - 1]), actions[|actions| - 1])
  }

  function AllIdle(c: nat): (slots: seq<Slot>)
    ensures |slots| == c && forall i | 0 <= i < c :: slots[i].Idle?
  {
    seq(c, _ => Idle)
  }

  /** n failures at the same time. */
  function Times(now: int, n: nat): (times: seq<int>)
    ensures |times| == n && forall i | 0 <= i < n :: times[i] == now
  {
    seq(n, _ => now)
  }

  function Start(c: nat): State {
    State(0, Lockout.User(0, None), [], AllIdle(c))
  }

  ghost predicate Reachable(policy: Lockout.Policy, c: nat, s: State) {
    exists actions :: Run(policy, Start(c), actions) == s
  }

  // ---------- One login by itself ----------

  /** The steps of one login in a free slot; wait is the time between its check and its record. */
  function LoginActions(i: nat, wait: nat, passwordOk: bool, stops: bool): seq<Action> {
    [ReadUser(i), CheckLock(i), Tick(wait), if !passwordOk then Fail(i) else if stops then Leave(i) else Succeed(i)]
  }

  /** A login that nobody interferes with is a request of the serial model. */
  lemma SerialLogin(policy: Lockout.Policy, s: State, i: nat, wait: nat, passwordOk: bool, stops: bool)
    requires i < |s.slots| && s.slots[i].Idle?
    ensures
      var s' := Run(policy, s, LoginActions(i, wait, passwordOk, stops));
      && Lockout.State(s'.user, s'.failures) == Lockout.Step(policy, Lockout.State(s.user, s.failures),
           Lockout.Login(s.now, s.now + wait, passwordOk, stops))
      && s'.now == s.now + wait && s'.slots == s.slots
  {
    var actions := LoginActions(i, wait, passwordOk, stops);
    var read := Step(policy, s, actions[0]);
    var checked := Step(policy, read, actions[1]);
    var later := Step(policy, checked, actions[2]);
    var done := Step(policy, later, actions[3]);
    assert actions[..3][..2] == actions[..2] && actions[..2][..1] == actions[..1] && actions[..1][..0] == [];
    assert Run(policy, s, actions[..1]) == read;
    assert Run(policy, s, actions[..2]) == checked;
    assert Run(policy, s, actions[..3]) == later;
    assert Run(policy, s, actions) == done;
    assert done.slots == s.slots;
  }

  /** The second factor resets the account like a complete login. */
  lemma SecondFactorResets(policy: Lockout.Policy, s: State)
    ensures
      var s' := Step(policy, s, SecondFactor);
      s'.user.failed == 0 && s'.user.lockedUntil == None && s'.failures == [] && s'.slots == s.slots && s'.now == s.now
  {
  }

  // ---------- The bound ----------

  /** The login is in flight and has not seen a lock that lasts until the given time. */
  predicate Unaware(slot: Slot, until: int) {
    !slot.Idle? && !(slot.seen.Some? && slot.seen.value >= until)
  }

  function UnawareIn(slots: seq<Slot>, until: int): (n: nat)
    ensures n <= |slots|
  {
    if slots == [] then 0
    else UnawareIn(slots[..|slots| - 1], until) + if Unaware(slots[|slots| - 1], until) then 1 else 0
  }

  lemma {:induction false} UnawareSet(slots: seq<Slot>, i: nat, slot: Slot, until: int)
    requires i < |slots|
    ensures UnawareIn(slots[i := slot], until) + (if Unaware(slots[i], until) then 1 else 0)
         == UnawareIn(slots, until) + if Unaware(slot, until) then 1 else 0
  {
    var n := |slots| - 1;
    if i == n {
      assert slots[i := slot][..n] == slots[..n];
    } else {
      UnawareSet(slots[..n], i, slot, until);
      assert slots[i := slot][..n] == slots[..n][i := slot];
    }
  }

  lemma {:induction false} IdleIsAware(slots: seq<Slot>, i: nat, until: int)
    requires i < |slots| && slots[i].Idle?
    ensures UnawareIn(slots, until) < |slots|
  {
    if i < |slots| - 1 {
      IdleIsAware(slots[..|slots| - 1], i, until);
    }
  }

  /** The counter, the lock, and what the logins in flight have seen. */
  ghost predicate Sound(policy: Lockout.Policy, c: nat, s: State) {
    && |s.slots| == c
    && s.user.failed == |s.failures|
    && (s.user.lockedUntil == if |s.failures| >= Lockout.Threshold(policy)
          then Some(s.failures[|s.failures| - 1] + policy.lockDuration) else None)
    && (forall i, j | 0 <= i <= j < |s.failures| :: s.failures[i] <= s.failures[j])
    && (forall i | 0 <= i < |s.failures| :: s.failures[i] <= s.now)
    && (forall i | 0 <= i < c :: s.slots[i].Passed? && s.slots[i].seen.Some? ==> s.slots[i].seen.value <= s.now)
  }

  /** The failures after a given one, which locks the account, and the logins in flight that are
      unaware of that lock, are fewer than c together, until the lock is over. */
  ghost predicate Few(policy: Lockout.Policy, c: nat, s: State, i: nat)
    requires i < |s.failures|
  {
    var until := s.failures[i] + policy.lockDuration;
    || |s.failures| - 1 - i + UnawareIn(s.slots, until) < c
    || s.failures[|s.failures| - 1] >= until
  }

  /** From the threshold on, c failures further a lock duration is over. */
  ghost predicate Spaced(policy: Lockout.Policy, c: nat, failures: seq<int>) {
    forall i, j | Lockout.Threshold(policy) - 1 <= i && i + c <= j < |failures| ::
      failures[j] >= failures[i] + policy.lockDuration
  }

  ghost predicate Holds(policy: Lockout.Policy, c: nat, s: State) {
    && Sound(policy, c, s) && Spaced(policy, c, s.failures)
    && forall n | Lockout.Threshold(policy) - 1 <= n < |s.failures| :: Few(policy, c, s, n)
  }

  /** A step that keeps the account, and turns at most one slot into one that is no less aware. */
  lemma SlotHolds(policy: Lockout.Policy, c: nat, s: State, i: nat, slot: Slot)
    requires Holds(policy, c, s) && i < |s.slots|
    requires forall n | Lockout.Threshold(policy) - 1 <= n < |s.failures| ::
      var until := s.failures[n] + policy.lockDuration;
      Unaware(slot, until) ==> Unaware(s.slots[i], until)
    requires slot.Passed? && slot.seen.Some? ==> slot.seen.value <= s.now
    ensures Holds(policy, c, s.(slots := s.slots[i := slot]))
  {
    var s' := s.(slots := s.slots[i := slot]);
    forall n | Lockout.Threshold(policy) - 1 <= n < |s'.failures| ensures Few(policy, c, s', n) {
      assert Few(policy, c, s, n);
      UnawareSet(s.slots, i, slot, s.failures[n] + policy.lockDuration);
    }
  }

  lemma FailHolds(policy: Lockout.Policy, c: nat, s: State, i: nat)
    requires Holds(policy, c, s) && IsPassed(s, i)
    ensures Holds(policy, c, Step(policy, s, Fail(i)))
  {
    var s' := Step(policy, s, Fail(i));
    assert Sound(policy, c, s');
    forall n | Lockout.Threshold(policy) - 1 <= n < |s'.failures| ensures Few(policy, c, s', n) {
      var until := s'.failures[n] + policy.lockDuration;
      if n == |s.failures| {
        IdleIsAware(s'.slots, i, until);
      } else {
        assert Few(policy, c, s, n);
        UnawareSet(s.slots, i, Idle, until);
      }
    }
    FewSpaced(policy, c, s, s');
  }

  lemma FewSpaced(policy: Lockout.Policy, c: nat, s: State, s': State)
    requires Spaced(policy, c, s.failures)
    requires |s'.failures| == |s.failures| + 1 && s'.failures[..|s.failures|] == s.failures
    requires forall n | Lockout.Threshold(policy) - 1 <= n < |s'.failures| :: Few(policy, c, s', n)
    ensures Spaced(policy, c, s'.failures)
  {
    forall i, j | Lockout.Threshold(policy) - 1 <= i && i + c <= j < |s'.failures|
      ensures s'.failures[j] >= s'.failures[i] + policy.lockDuration
    {
      if j == |s.failures| {
        assert Few(policy, c, s', i);
      } else {
        assert s'.failures[..|s.failures|][j] == s'.failures[j];
        assert s'.failures[..|s.failures|][i] == s'.failures[i];
      }
    }
  }

  lemma StepHolds(policy: Lockout.Policy, c: nat, s: State, a: Action)
    requires Holds(policy, c, s)
    ensures Holds(policy, c, Step(policy, s, a))
  {
    match a
    case Tick(_) =>
      var s' := Step(policy, s, a);
      forall n | Lockout.Threshold(policy) - 1 <= n < |s'.failures| ensures Few(policy, c, s', n) {
        assert Few(policy, c, s, n);
      }
    case ReadUser(i) =>
      if i < |s.slots| && s.slots[i].Idle? { SlotHolds(policy, c, s, i, Read(s.user.lockedUntil)); }
    case CheckLock(i) =>
      if i < |s.slots| && s.slots[i].Read? {
        var seen := s.slots[i].seen;
        SlotHolds(policy, c, s, i, if Lockout.IsLocked(Lockout.User(0, seen), s.now) then Idle else Passed(seen));
      }
    case Fail(i) => if IsPassed(s, i) { FailHolds(policy, c, s, i); }
    case Succeed(i) =>
    case Leave(i) => if i < |s.slots| { SlotHolds(policy, c, s, i, Idle); }
    case SecondFactor =>
  }

  lemma {:induction false} StaysHeld(policy: Lockout.Policy, c: nat, actions: seq<Action>)
    ensures Holds(policy, c, Run(policy, Start(c), actions))
    decreases |actions|
  {
    if actions != [] {
      var n := |actions| - 1;
      StaysHeld(policy, c, actions[..n]);
      StepHolds(policy, c, Run(policy, Start(c), actions[..n]), actions[n]);
    }
  }

  lemma {:induction false} SpacedTimes(policy: Lockout.Policy, c: nat, failures: seq<int>, i: nat, j: nat, k: nat)
    requires Spaced(policy, c, failures) && forall i, j | 0 <= i <= j < |failures| :: failures[i] <= failures[j]
    requires Lockout.Threshold(policy) - 1 <= i && i + k * c <= j < |failures|
    ensures failures[j] - failures[i] >= k * policy.lockDuration
    decreases k
  {
    assert k * c >= 0;
    if k > 0 {
      assert k * c == (k - 1) * c + c && (k - 1) * c >= 0;
      assert k * policy.lockDuration == (k - 1) * policy.lockDuration + policy.lockDuration;
      SpacedTimes(policy, c, failures, i, j - c, k - 1);
    }
  }

  /** With at most c logins of an account in flight, k * c failures beyond any from the threshold on
      take at least k lock durations. Failures are numbered from zero here. */
  lemma RaceBound(policy: Lockout.Policy, c: nat, s: State, i: nat, j: nat, k: nat)
    requires Reachable(policy, c, s)
    requires Lockout.Threshold(policy) - 1 <= i && i + k * c <= j < |s.failures|
    ensures s.failures[j] - s.failures[i] >= k * policy.lockDuration
  {
    var actions :| Run(policy, Start(c), actions) == s;
    StaysHeld(policy, c, actions);
    SpacedTimes(policy, c, s.failures, i, j, k);
  }

  // ---------- The bound is reached ----------

  lemma RunNext(policy: Lockout.Policy, s: State, actions: seq<Action>, a: Action)
    ensures Run(policy, s, actions + [a]) == Step(policy, Run(policy, s, actions), a)
  {
    assert (actions + [a])[..|actions|] == actions && (actions + [a])[|actions|] == a;
  }

  lemma ReachNext(policy: Lockout.Policy, c: nat, s: State, a: Action)
    requires Reachable(policy, c, s)
    ensures Reachable(policy, c, Step(policy, s, a))
  {
    var actions :| Run(policy, Start(c), actions) == s;
    RunNext(policy, Start(c), actions, a);
  }

  /** The first j slots in one phase, the rest in another. */
  function Split(c: nat, j: nat, x: Slot, y: Slot): seq<Slot> {
    seq(c, i => if i < j then x else y)
  }

  lemma SplitNext(c: nat, j: nat, x: Slot, y: Slot)
    requires j < c
    ensures Split(c, j, x, y)[j := x] == Split(c, j + 1, x, y)
  {
  }

  lemma SplitEnds(c: nat, x: Slot, y: Slot)
    ensures Split(c, 0, x, y) == Split(c, c, y, x)
  {
  }

  lemma {:induction false} ReachRead(policy: Lockout.Policy, c: nat, s: State, j: nat)
    requires Reachable(policy, c, s) && s.slots == Split(c, 0, Read(s.user.lockedUntil), Idle) && j <= c
    ensures Reachable(policy, c, s.(slots := Split(c, j, Read(s.user.lockedUntil), Idle)))
    decreases j
  {
    if j > 0 {
      ReachRead(policy, c, s, j - 1);
      SplitNext(c, j - 1, Read(s.user.lockedUntil), Idle);
      ReachNext(policy, c, s.(slots := Split(c, j - 1, Read(s.user.lockedUntil), Idle)), ReadUser(j - 1));
    }
  }

  lemma {:induction false} ReachPassed(policy: Lockout.Policy, c: nat, s: State, seen: Option<int>, j: nat)
    requires Reachable(policy, c, s) && s.slots == Split(c, 0, Passed(seen), Read(seen)) && j <= c
    requires !(seen.Some? && seen.value > s.now)
    ensures Reachable(policy, c, s.(slots := Split(c, j, Passed(seen), Read(seen))))
    decreases j
  {
    if j > 0 {
      ReachPassed(policy, c, s, seen, j - 1);
      SplitNext(c, j - 1, Passed(seen), Read(seen));
      ReachNext(policy, c, s.(slots := Split(c, j - 1, Passed(seen), Read(seen))), CheckLock(j - 1));
    }
  }

  /** An account from the failure before the threshold on, after j more failures at the same time. */
  function After(policy: Lockout.Policy, s: State, j: nat): Lockout.User {
    if j == 0 then s.user else Lockout.User(s.user.failed + j, Some(s.now + policy.lockDuration))
  }

  lemma {:induction false} ReachFailed(policy: Lockout.Policy, c: nat, s: State, seen: Option<int>, j: nat)
    requires Reachable(policy, c, s) && s.slots == Split(c, 0, Idle, Passed(seen)) && j <= c
    requires s.user.failed + 1 >= Lockout.Threshold(policy)
    ensures Reachable(policy, c, State(s.now, After(policy, s, j), s.failures + Times(s.now, j),
                                       Split(c, j, Idle, Passed(seen))))
    decreases j
  {
    if j == 0 {
      assert s.failures + Times(s.now, 0) == s.failures;
    } else {
      var before := State(s.now, After(policy, s, j - 1), s.failures + Times(s.now, j - 1),
                          Split(c, j - 1, Idle, Passed(seen)));
      ReachFailed(policy, c, s, seen, j - 1);
      SplitNext(c, j - 1, Idle, Passed(seen));
      ReachNext(policy, c, before, Fail(j - 1));
      assert before.failures + [s.now] == s.failures + Times(s.now, j);
      assert Step(policy, before, Fail(j - 1)) == State(s.now, After(policy, s, j), before.failures + [s.now],
                                                        before.slots[j - 1 := Idle]);
    }
  }

  /** Nobody is logging in, the account is not locked, and the next failure locks it. */
  ghost predicate Ready(policy: Lockout.Policy, c: nat, s: State) {
    && Reachable(policy, c, s) && s.slots == AllIdle(c)
    && !Lockout.IsLocked(s.user, s.now) && s.user.failed + 1 >= Lockout.Threshold(policy)
  }

  /** A round: c logins read, check and fail at once, and the lock runs out. */
  lemma Round(policy: Lockout.Policy, c: nat, s: State) returns (s': State)
    requires c > 0 && Ready(policy, c, s)
    ensures Ready(policy, c, s') && s'.now == s.now + policy.lockDuration
    ensures s'.failures == s.failures + Times(s.now, c) && s'.user.failed == s.user.failed + c
  {
    var seen := s.user.lockedUntil;
    assert s.slots == Split(c, 0, Read(seen), Idle);
    ReachRead(policy, c, s, c);
    SplitEnds(c, Passed(seen), Read(seen));
    assert Split(c, c, Read(seen), Idle) == Split(c, 0, Passed(seen), Read(seen));
    var read := s.(slots := Split(c, 0, Passed(seen), Read(seen)));
    ReachPassed(policy, c, read, seen, c);
    assert Split(c, c, Passed(seen), Read(seen)) == Split(c, 0, Idle, Passed(seen));
    var passed := s.(slots := Split(c, 0, Idle, Passed(seen)));
    ReachFailed(policy, c, passed, seen, c);
    assert Split(c, c, Idle, Passed(seen)) == AllIdle(c);
    var failed := State(s.now, After(policy, s, c), s.failures + Times(s.now, c), AllIdle(c));
    ReachNext(policy, c, failed, Tick(policy.lockDuration));
    s' := Step(policy, failed, Tick(policy.lockDuration));
  }

  /** The failures before the threshold, one login after the other at time 0. */
  lemma {:induction false} ReachReady(policy: Lockout.Policy, c: nat, k: nat) returns (s: State)
    requires c > 0 && k < Lockout.Threshold(policy)
    ensures Reachable(policy, c, s) && s == State(0, Lockout.User(k, None), Times(0, k), AllIdle(c))
    decreases k
  {
    if k == 0 {
      assert Run(policy, Start(c), []) == Start(c);
      s := Start(c);
    } else {
      var before := ReachReady(policy, c, k - 1);
      s := OneFailure(policy, c, before);
      assert Times(0, k - 1) + [0] == Times(0, k);
      assert s.slots == AllIdle(c);
    }
  }

  lemma OneFailure(policy: Lockout.Policy, c: nat, s: State) returns (s': State)
    requires c > 0 && Reachable(policy, c, s) && |s.slots| == c && s.slots[0].Idle? && s.user.lockedUntil == None
    ensures Reachable(policy, c, s')
    ensures s' == State(s.now, Lockout.RecordFailed(s.user, policy, s.now), s.failures + [s.now], s.slots)
  {
    ReachNext(policy, c, s, ReadUser(0));
    var read := s.(slots := s.slots[0 := Read(None)]);
    assert Step(policy, s, ReadUser(0)) == read;
    ReachNext(policy, c, read, CheckLock(0));
    var passed := s.(slots := s.slots[0 := Passed(None)]);
    assert read.slots[0 := Passed(None)] == passed.slots;
    assert Step(policy, read, CheckLock(0)) == passed;
    ReachNext(policy, c, passed, Fail(0));
    s' := Step(policy, passed, Fail(0));
    assert passed.slots[0 := Idle] == s.slots;
  }

  lemma {:induction false} ReachRounds(policy: Lockout.Policy, c: nat, k: nat) returns (s: State)
    requires c > 0
    ensures Ready(policy, c, s) && s.now == k * policy.lockDuration
    ensures |s.failures| == s.user.failed == Lockout.Threshold(policy) - 1 + k * c
    ensures k > 0 ==> s.failures[Lockout.Threshold(policy) - 1] == 0
    decreases k
  {
    var m := Lockout.Threshold(policy);
    if k == 0 {
      s := ReachReady(policy, c, m - 1);
    } else {
      var before := ReachRounds(policy, c, k - 1);
      s := Round(policy, c, before);
      assert k * c == (k - 1) * c + c;
      assert k * policy.lockDuration == (k - 1) * policy.lockDuration + policy.lockDuration;
      if k > 1 {
        assert (k - 1) * c >= c by { assert (k - 2) * c >= 0; }
        assert s.failures[m - 1] == before.failures[m - 1];
      }
    }
  }

  /** For every k there is a run in which k * c failures beyond the one that reaches the threshold take
      exactly k lock durations, and the c failures from there on come all at once. */
  lemma RaceTight(policy: Lockout.Policy, c: nat, k: nat) returns (s: State)
    requires c > 0
    ensures Reachable(policy, c, s) && |s.failures| == Lockout.Threshold(policy) - 1 + k * c + c
    ensures |s.failures| >= Lockout.Threshold(policy)
    ensures forall j | Lockout.Threshold(policy) - 1 + k * c <= j < |s.failures| ::
      s.failures[j] - s.failures[Lockout.Threshold(policy) - 1] == k * policy.lockDuration
  {
    var m := Lockout.Threshold(policy);
    var before := ReachRounds(policy, c, k);
    s := Round(policy, c, before);
    assert k * c >= 0;
    if k > 0 {
      assert k * c >= c by { assert (k - 1) * c >= 0; }
      assert s.failures[m - 1] == before.failures[m - 1];
    }
  }

  /** So from the threshold on each failure comes a lock duration after the one before, in every run,
      exactly if logins are serial (or locks do not last). */
  lemma SpacedIffSerial(policy: Lockout.Policy, c: nat)
    requires c > 0
    ensures (forall s :: Reachable(policy, c, s) ==> Spaced(policy, 1, s.failures)) <==>
      c == 1 || policy.lockDuration == 0
  {
    if c == 1 || policy.lockDuration == 0 {
      forall s | Reachable(policy, c, s) ensures Spaced(policy, 1, s.failures) {
        var actions :| Run(policy, Start(c), actions) == s;
        StaysHeld(policy, c, actions);
      }
    } else {
      var s := RaceTight(policy, c, 0);
      var m := Lockout.Threshold(policy);
      assert 0 * c == 0 && 0 * policy.lockDuration == 0;
      assert s.failures[m] - s.failures[m - 1] == 0;
      assert !Spaced(policy, 1, s.failures);
    }
  }
}
