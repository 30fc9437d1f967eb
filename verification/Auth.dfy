/** The authentication service's login, with its limiter and lockout, for one call at a time. */
module Auth {
  import opened Wrappers
  import Lockout
  import opened RateLimit

  const SECOND: nat := 1_000_000_000
  const LOGIN_RATE_LIMIT: nat := 5
  const LOGIN_RATE_LIMIT_WINDOW: nat := 15 * 60 * SECOND

  type Cache = map<string, Counter>

  function Find(cache: Cache, key: string): Option<Counter> {
    if key in cache then Some(cache[key]) else None
  }

  function Touch(cache: Cache, key: string, now: int, window: nat): Cache {
    cache[key := Increment(Find(cache, key), now, window)]
  }

  function IpKey(ip: string): string {
    "ratelimit:login:" + ip
  }

  function EmailKey(email: string): string {
    "ratelimit:login:email:" + email
  }

  datatype Account = Account(user: Lockout.User, active: bool, mfaEnabled: bool, verified: bool)

  datatype Outcome =
    | RateLimited
    | NoSuchUser
    | Disabled
    | Locked
    | InvalidCredentials
    | MfaRequired
    | EmailNotVerified
    | LoggedIn

  class AuthService {
    const hasCache: bool  // Redis is configured
    const policy: Lockout.Policy
    const requireVerification: bool
    var cache: Cache
    var accounts: map<string, Account>

    constructor (hasCache: bool, policy: Lockout.Policy, requireVerification: bool, accounts: map<string, Account>)
      ensures this.hasCache == hasCache && this.policy == policy && this.requireVerification == requireVerification
      ensures this.accounts == accounts && cache == map[]
    {
      this.hasCache, this.policy, this.requireVerification := hasCache, policy, requireVerification;
      this.accounts, cache := accounts, map[];
    }

    /** Without a cache, or when INCR fails, the request passes and the caller is told. */
    method CheckRateLimitGeneric(key: string, limit: nat, window: nat, now: int, up: bool)
        returns (limited: bool, failed: bool)
      modifies `cache
      ensures failed <==> !hasCache || !up
      ensures cache == if failed then old(cache) else Touch(old(cache), key, now, window)
      ensures limited <==> !failed && !Admitted(limit, Event(Check(now), Increment(Find(old(cache), key), now, window)))
    {
      if !hasCache { return false, true; }
      if !up { return false, true; }
      var counter := Increment(Find(cache, key), now, window);
      cache := cache[key := counter];
      return counter.count > limit, false;
    }

    /** The check on the client address denies when there is no cache. */
    method CheckRateLimit(ip: string, now: int, up: bool) returns (limited: bool, failed: bool)
      modifies `cache
      ensures failed <==> !hasCache || !up
      ensures cache == if failed then old(cache) else Touch(old(cache), IpKey(ip), now, LOGIN_RATE_LIMIT_WINDOW)
      ensures
        var counter := Increment(Find(old(cache), IpKey(ip)), now, LOGIN_RATE_LIMIT_WINDOW);
        limited <==> !hasCache || (up && !Admitted(LOGIN_RATE_LIMIT, Event(Check(now), counter)))
    {
      if !hasCache { return true, true; }
      limited, failed := CheckRateLimitGeneric(IpKey(ip), LOGIN_RATE_LIMIT, LOGIN_RATE_LIMIT_WINDOW, now, up);
    }

    method RecordIPAttempt(ip: string, now: int, up: bool)
      modifies `cache
      ensures cache == if hasCache && ip != "" && up then Touch(old(cache), IpKey(ip), now, LOGIN_RATE_LIMIT_WINDOW)
                       else old(cache)
    {
      if !hasCache || ip == "" || !up { return; }
      cache := cache[IpKey(ip) := Increment(Find(cache, IpKey(ip)), now, LOGIN_RATE_LIMIT_WINDOW)];
    }

    /** UserRepository.RecordFailedLogin. */
    method RecordFailedLogin(email: string, now: int)
      requires email in accounts
      modifies `accounts
      ensures accounts == old(accounts)[email := old(accounts)[email].(
        user := Lockout.RecordFailed(old(accounts)[email].user, policy, now))]
    {
      var account := accounts[email];
      var failed := account.user.failed + 1;
      var lockedUntil := account.user.lockedUntil;
      if failed >= policy.maxAttempts {
        lockedUntil := Some(now + policy.lockDuration);
      }
      accounts := accounts[email := account.(user := Lockout.User(failed, lockedUntil))];
    }

    /** UserRepository.RecordSuccessfulLogin. */
    method RecordSuccessfulLogin(email: string)
      requires email in accounts
      modifies `accounts
      ensures accounts == old(accounts)[email := old(accounts)[email].(
        user := Lockout.RecordSuccessful(old(accounts)[email].user))]
    {
      accounts := accounts[email := accounts[email].(user := Lockout.User(0, None))];
    }

    /** The two limits on logins: by address, where a missing cache denies, and by account. */
    method CheckLimits(email: string, ip: string, now: int, up: string -> bool) returns (limited: bool)
      modifies `cache
      ensures IpKey(ip) != EmailKey(email) ==> (limited <==>
        || (ip != "" && (!hasCache || (up(IpKey(ip)) &&
              Increment(Find(old(cache), IpKey(ip)), now, LOGIN_RATE_LIMIT_WINDOW).count > LOGIN_RATE_LIMIT)))
        || (hasCache && up(EmailKey(email)) &&
              Increment(Find(old(cache), EmailKey(email)), now, LOGIN_RATE_LIMIT_WINDOW).count > LOGIN_RATE_LIMIT))
      ensures forall key | key != IpKey(ip) && key != EmailKey(email) :: Find(cache, key) == Find(old(cache), key)
      ensures hasCache && ip != "" && up(IpKey(ip)) && IpKey(ip) != EmailKey(email) ==>
        Find(cache, IpKey(ip)) == Some(Increment(Find(old(cache), IpKey(ip)), now, LOGIN_RATE_LIMIT_WINDOW))
      ensures hasCache && up(EmailKey(email)) && IpKey(ip) != EmailKey(email) && !limited ==>
        Find(cache, EmailKey(email)) == Some(Increment(Find(old(cache), EmailKey(email)), now, LOGIN_RATE_LIMIT_WINDOW))
    {
      if ip != "" {
        var byIp, _ := CheckRateLimit(ip, now, up(IpKey(ip)));
        if byIp { return true; }
      }
      var byEmail, failed :=
        CheckRateLimitGeneric(EmailKey(email), LOGIN_RATE_LIMIT, LOGIN_RATE_LIMIT_WINDOW, now, up(EmailKey(email)));
      return !failed && byEmail;
    }

    /** The rest of a login. An account that is found and active changes as the lockout model says;
        wrong credentials are charged to the address. */
    method Authenticate(email: string, passwordOk: bool, ip: string, now: int, record: int, up: bool)
        returns (outcome: Outcome)
      modifies this
      ensures outcome != RateLimited
      ensures outcome.NoSuchUser? <==> email !in old(accounts)
      ensures outcome.Disabled? <==> email in old(accounts) && !old(accounts)[email].active
      ensures outcome in {NoSuchUser, Disabled} ==> accounts == old(accounts)
      ensures outcome !in {NoSuchUser, Disabled} ==>
        var account := old(accounts)[email];
        var stops := account.mfaEnabled || (requireVerification && !account.verified);
        var request := Lockout.Login(now, record, passwordOk, stops);
        var after := Lockout.Step(policy, Lockout.State(account.user, []), request);
        && accounts == old(accounts)[email := account.(user := after.user)]
        && (outcome.Locked? <==> Lockout.IsLocked(account.user, now))
        && (outcome.InvalidCredentials? <==> !Lockout.IsLocked(account.user, now) && !passwordOk)
        && (outcome.LoggedIn? <==> !Lockout.IsLocked(account.user, now) && passwordOk && !stops)
      // on the columns of the account
      ensures outcome in {Locked, MfaRequired, EmailNotVerified} ==> accounts == old(accounts)
      ensures outcome.LoggedIn? ==>
        accounts == old(accounts)[email := old(accounts)[email].(user := Lockout.User(0, None))]
      ensures outcome.InvalidCredentials? ==>
        var account := old(accounts)[email];
        var failed := account.user.failed + 1;
        var lockedUntil := if failed >= policy.maxAttempts then Some(record + policy.lockDuration)
                           else account.user.lockedUntil;
        accounts == old(accounts)[email := account.(user := Lockout.User(failed, lockedUntil))]
      ensures outcome !in {NoSuchUser, Disabled} ==>
        var account := old(accounts)[email];
        var locked := account.user.lockedUntil.Some? && account.user.lockedUntil.value > now;
        && (outcome.Locked? <==> locked)
        && (outcome.InvalidCredentials? <==> !locked && !passwordOk)
        && (outcome.MfaRequired? <==> !locked && passwordOk && account.mfaEnabled)
        && (outcome.EmailNotVerified? <==>
              !locked && passwordOk && !account.mfaEnabled && requireVerification && !account.verified)
      ensures cache == if outcome in {NoSuchUser, InvalidCredentials} && hasCache && ip != "" && up
        then Touch(old(cache), IpKey(ip), record, LOGIN_RATE_LIMIT_WINDOW) else old(cache)
    {
      if email !in accounts {
        RecordIPAttempt(ip, record, up);
        return NoSuchUser;
      }
      var account := accounts[email];
      if !account.active { return Disabled; }
      if account.user.lockedUntil.Some? && account.user.lockedUntil.value > now { return Locked; }
      if !passwordOk {
        RecordFailedLogin(email, record);
        RecordIPAttempt(ip, record, up);
        return InvalidCredentials;
      }
      if account.mfaEnabled { return MfaRequired; }
      if requireVerification && !account.verified { return EmailNotVerified; }
      RecordSuccessfulLogin(email);
      return LoggedIn;
    }

    /** Login. up tells for each key whether INCR works; record is when a failure is recorded.

        A login past the limits does to the account what a request of the lockout model does. It is
        one use of the counter of the account, and one of that of the address, or two if it fails
        for its credentials. */
    method Login(email: string, passwordOk: bool, ip: string, now: int, record: int, up: string -> bool)
        returns (outcome: Outcome)
      modifies this
      ensures IpKey(ip) != EmailKey(email) ==> (outcome.RateLimited? <==>
        || (ip != "" && (!hasCache || (up(IpKey(ip)) &&
              Increment(Find(old(cache), IpKey(ip)), now, LOGIN_RATE_LIMIT_WINDOW).count > LOGIN_RATE_LIMIT)))
        || (hasCache && up(EmailKey(email)) &&
              Increment(Find(old(cache), EmailKey(email)), now, LOGIN_RATE_LIMIT_WINDOW).count > LOGIN_RATE_LIMIT))
      ensures forall key | key != IpKey(ip) && key != EmailKey(email) :: Find(cache, key) == Find(old(cache), key)
      ensures outcome.NoSuchUser? ==> email !in old(accounts)
      ensures outcome.Disabled? ==> email in old(accounts) && !old(accounts)[email].active
      ensures outcome in {RateLimited, NoSuchUser, Disabled} ==> accounts == old(accounts)
      ensures outcome !in {RateLimited, NoSuchUser, Disabled} ==>
        && email in old(accounts) && old(accounts)[email].active
        && var account := old(accounts)[email];
           var stops := account.mfaEnabled || (requireVerification && !account.verified);
           var request := Lockout.Login(now, record, passwordOk, stops);
           var after := Lockout.Step(policy, Lockout.State(account.user, []), request);
           && accounts == old(accounts)[email := account.(user := after.user)]
           && (outcome.Locked? <==> Lockout.IsLocked(account.user, now))
           && (outcome.InvalidCredentials? <==> !Lockout.IsLocked(account.user, now) && !passwordOk)
           && (outcome.LoggedIn? <==> !Lockout.IsLocked(account.user, now) && passwordOk && !stops)
      // on the columns of the account
      ensures outcome in {Locked, MfaRequired, EmailNotVerified} ==> accounts == old(accounts)
      ensures outcome.LoggedIn? ==>
        accounts == old(accounts)[email := old(accounts)[email].(user := Lockout.User(0, None))]
      ensures outcome.InvalidCredentials? ==>
        var account := old(accounts)[email];
        var failed := account.user.failed + 1;
        var lockedUntil := if failed >= policy.maxAttempts then Some(record + policy.lockDuration)
                           else account.user.lockedUntil;
        accounts == old(accounts)[email := account.(user := Lockout.User(failed, lockedUntil))]
      ensures outcome !in {RateLimited, NoSuchUser, Disabled} ==>
        var account := old(accounts)[email];
        var locked := account.user.lockedUntil.Some? && account.user.lockedUntil.value > now;
        && (outcome.Locked? <==> locked)
        && (outcome.InvalidCredentials? <==> !locked && !passwordOk)
        && (outcome.MfaRequired? <==> !locked && passwordOk && account.mfaEnabled)
        && (outcome.EmailNotVerified? <==>
              !locked && passwordOk && !account.mfaEnabled && requireVerification && !account.verified)
      ensures hasCache && ip != "" && up(IpKey(ip)) && IpKey(ip) != EmailKey(email) ==>
        var checked := Increment(Find(old(cache), IpKey(ip)), now, LOGIN_RATE_LIMIT_WINDOW);
        Find(cache, IpKey(ip)) == Some(
          if outcome in {NoSuchUser, InvalidCredentials} then Increment(Some(checked), record, LOGIN_RATE_LIMIT_WINDOW)
          else checked)
      ensures hasCache && up(EmailKey(email)) && IpKey(ip) != EmailKey(email) && !outcome.RateLimited? ==>
        Find(cache, EmailKey(email)) == Some(Increment(Find(old(cache), EmailKey(email)), now, LOGIN_RATE_LIMIT_WINDOW))
    {
      var limited := CheckLimits(email, ip, now, up);
      if limited { return RateLimited; }
      outcome := Authenticate(email, passwordOk, ip, now, record, up(IpKey(ip)));
    }

    /** Any series of logins, one after the other and with a cache that answers: what each does to the
        counter of a given address and to a given account. */
    method LoginSeries(calls: seq<Call>, ghost ip: string, ghost email: string)
        returns (outcomes: seq<Outcome>, ghost counters: seq<Option<Counter>>, ghost users: seq<Lockout.User>)
      requires hasCache && ip != "" && email in accounts
      requires forall i | 0 <= i < |calls| :: IpKey(ip) != EmailKey(calls[i].email)
      modifies this
      ensures email in accounts && |outcomes| == |calls| && |counters| == |users| == |calls| + 1
      ensures counters[0] == Find(old(cache), IpKey(ip)) && counters[|calls|] == Find(cache, IpKey(ip))
      ensures users[0] == old(accounts)[email].user && users[|calls|] == accounts[email].user
      ensures forall i | 0 <= i < |calls| :: CallCounter(calls[i], outcomes[i], ip, counters[i], counters[i + 1])
      ensures forall i | 0 <= i < |calls| ::
        CallUser(policy, calls[i], outcomes[i], email, Stops(old(accounts)[email]), users[i], users[i + 1])
    {
      ghost var stops := Stops(accounts[email]);
      outcomes, counters, users := [], [Find(cache, IpKey(ip))], [accounts[email].user];
      var i := 0;
      while i < |calls|
        invariant 0 <= i <= |calls| && |outcomes| == i && |counters| == |users| == i + 1
        invariant email in accounts && Stops(accounts[email]) == stops
        invariant counters[0] == Find(old(cache), IpKey(ip)) && counters[i] == Find(cache, IpKey(ip))
        invariant users[0] == old(accounts)[email].user && users[i] == accounts[email].user
        invariant forall j | 0 <= j < i :: CallCounter(calls[j], outcomes[j], ip, counters[j], counters[j + 1])
        invariant forall j | 0 <= j < i :: CallUser(policy, calls[j], outcomes[j], email, stops, users[j], users[j + 1])
      {
        var outcome := NextLogin(calls[i], ip, email, stops);
        outcomes := outcomes + [outcome];
        counters := counters + [Find(cache, IpKey(ip))];
        users := users + [accounts[email].user];
        i := i + 1;
      }
    }

    method NextLogin(call: Call, ghost ip: string, ghost email: string, ghost stops: bool) returns (outcome: Outcome)
      requires hasCache && ip != "" && IpKey(ip) != EmailKey(call.email)
      requires email in accounts && Stops(accounts[email]) == stops
      modifies this
      ensures email in accounts && Stops(accounts[email]) == stops
      ensures CallCounter(call, outcome, ip, Find(old(cache), IpKey(ip)), Find(cache, IpKey(ip)))
      ensures CallUser(policy, call, outcome, email, stops, old(accounts)[email].user, accounts[email].user)
    {
      IpKeysDiffer(call.ip, ip);
      outcome := Login(call.email, call.passwordOk, call.ip, call.now, call.record, key => true);
    }

    ghost predicate Stops(account: Account) {
      account.mfaEnabled || (requireVerification && !account.verified)
    }
  }

  // ---------- Series of logins ----------

  /** A login in a series: when it checks, and when it would record a failure. */
  datatype Call = Call(email: string, passwordOk: bool, ip: string, now: int, record: int)

  predicate SerialCalls(calls: seq<Call>) {
    && (forall i | 0 <= i < |calls| :: calls[i].now <= calls[i].record)
    && (forall i, j | 0 <= i < j < |calls| :: calls[i].record <= calls[j].now)
  }

  predicate Charges(outcome: Outcome) {
    outcome in {NoSuchUser, InvalidCredentials}
  }

  function UsesOfCall(call: Call, outcome: Outcome, ip: string): seq<Use> {
    if call.ip != ip then []
    else if Charges(outcome) then [Check(call.now), Record(call.record)]
    else [Check(call.now)]
  }

  /** The uses of the key of an address in the first n calls. */
  function UsesOf(calls: seq<Call>, outcomes: seq<Outcome>, n: nat, ip: string): seq<Use>
    requires n <= |calls| == |outcomes|
  {
    if n == 0 then [] else UsesOf(calls, outcomes, n - 1, ip) + UsesOfCall(calls[n - 1], outcomes[n - 1], ip)
  }

  function RequestsOfCall(call: Call, outcome: Outcome, email: string, stops: bool): seq<Lockout.Request> {
    if call.email != email || outcome in {RateLimited, NoSuchUser, Disabled} then []
    else [Lockout.Login(call.now, call.record, call.passwordOk, stops)]
  }

  /** Those of the first n calls that get to the password of an account. */
  function RequestsOf(calls: seq<Call>, outcomes: seq<Outcome>, n: nat, email: string,
                      stops: bool): seq<Lockout.Request>
    requires n <= |calls| == |outcomes|
  {
    if n == 0 then []
    else RequestsOf(calls, outcomes, n - 1, email, stops) + RequestsOfCall(calls[n - 1], outcomes[n - 1], email, stops)
  }

  /** What the limiter's bounds assume, with the counter that the cache holds. */
  ghost predicate FromLogins(uses: seq<Use>, counter: Option<Counter>) {
    && Ordered(uses) && Logins(uses, LOGIN_RATE_LIMIT_WINDOW, LOGIN_RATE_LIMIT)
    && LastCounter(Events(uses, LOGIN_RATE_LIMIT_WINDOW)) == counter
  }

  /** What the lockout's bound assumes, with the columns that the account has. */
  ghost predicate FromAccount(policy: Lockout.Policy, requests: seq<Lockout.Request>, user: Lockout.User) {
    Lockout.Serial(requests) && Lockout.Run(policy, requests).user == user
  }

  ghost predicate UsedBy(uses: seq<Use>, clock: Option<int>) {
    uses != [] ==> clock.Some? && forall i | 0 <= i < |uses| :: uses[i].now <= clock.value
  }

  ghost predicate RequestedBy(requests: seq<Lockout.Request>, clock: Option<int>) {
    requests != [] ==> clock.Some? && forall i | 0 <= i < |requests| :: requests[i].record <= clock.value
  }

  /** The end of the last call before the i-th. */
  function Clock(calls: seq<Call>, i: nat): Option<int>
    requires i <= |calls|
  {
    if i == 0 then None else Some(calls[i - 1].record)
  }

  /** What one call does to the counter of an address. */
  ghost predicate CallCounter(call: Call, outcome: Outcome, ip: string, before: Option<Counter>,
                              after: Option<Counter>) {
    if call.ip != ip then after == before
    else
      var checked := Increment(before, call.now, LOGIN_RATE_LIMIT_WINDOW);
      && after == Some(
           if Charges(outcome) then Increment(Some(checked), call.record, LOGIN_RATE_LIMIT_WINDOW) else checked)
      && (Charges(outcome) ==> checked.count <= LOGIN_RATE_LIMIT)
  }

  /** And to an account. */
  ghost predicate CallUser(policy: Lockout.Policy, call: Call, outcome: Outcome, email: string, stops: bool,
                           before: Lockout.User, after: Lockout.User)
  {
    after == if RequestsOfCall(call, outcome, email, stops) == [] then before
      else
        var request := Lockout.Login(call.now, call.record, call.passwordOk, stops);
        Lockout.Step(policy, Lockout.State(before, []), request).user
  }

  lemma IpKeysDiffer(a: string, b: string)
    ensures IpKey(a) == IpKey(b) <==> a == b
  {
    if IpKey(a) == IpKey(b) {
      assert IpKey(a)[|"ratelimit:login:"|..] == a;
      assert IpKey(b)[|"ratelimit:login:"|..] == b;
    }
  }

  /** A check, and a record right after it if the check admits. */
  lemma OneUse(uses: seq<Use>, counter: Option<Counter>, use: Use)
    requires FromLogins(uses, counter) && forall i | 0 <= i < |uses| :: uses[i].now <= use.now
    requires use.Record? ==> uses != [] && Admitted(LOGIN_RATE_LIMIT, Events(uses, LOGIN_RATE_LIMIT_WINDOW)[|uses| - 1])
    ensures FromLogins(uses + [use], Some(Increment(counter, use.now, LOGIN_RATE_LIMIT_WINDOW)))
    ensures Events(uses + [use], LOGIN_RATE_LIMIT_WINDOW)[|uses|] ==
      Event(use, Increment(counter, use.now, LOGIN_RATE_LIMIT_WINDOW))
  {
    EventsNext(uses, LOGIN_RATE_LIMIT_WINDOW, use);
    LoginsNext(uses, use, LOGIN_RATE_LIMIT_WINDOW, LOGIN_RATE_LIMIT);
  }

  lemma LoginsNext(uses: seq<Use>, use: Use, window: nat, limit: nat)
    requires Logins(uses, window, limit)
    requires use.Record? ==> uses != [] && Admitted(limit, Events(uses, window)[|uses| - 1])
    ensures Logins(uses + [use], window, limit)
  {
    var more := uses + [use];
    EventsNext(uses, window, use);
    forall i | 0 <= i < |more| && more[i].Record? ensures i > 0 && Admitted(limit, Events(more, window)[i - 1]) {
      if i < |uses| { assert uses[i].Record?; }
    }
  }

  lemma ChargedUses(uses: seq<Use>, call: Call, before: Option<Counter>)
    requires FromLogins(uses, before) && call.now <= call.record
    requires forall i | 0 <= i < |uses| :: uses[i].now <= call.now
    requires Increment(before, call.now, LOGIN_RATE_LIMIT_WINDOW).count <= LOGIN_RATE_LIMIT
    ensures
      var checked := Increment(before, call.now, LOGIN_RATE_LIMIT_WINDOW);
      FromLogins(uses + [Check(call.now), Record(call.record)],
                 Some(Increment(Some(checked), call.record, LOGIN_RATE_LIMIT_WINDOW)))
  {
    var checked := Increment(before, call.now, LOGIN_RATE_LIMIT_WINDOW);
    OneUse(uses, before, Check(call.now));
    OneUse(uses + [Check(call.now)], Some(checked), Record(call.record));
    assert uses + [Check(call.now)] + [Record(call.record)] == uses + [Check(call.now), Record(call.record)];
  }

  lemma CallUses(uses: seq<Use>, call: Call, outcome: Outcome, ip: string, before: Option<Counter>,
                 after: Option<Counter>)
    requires FromLogins(uses, before) && call.now <= call.record
    requires forall i | 0 <= i < |uses| :: uses[i].now <= call.now
    requires CallCounter(call, outcome, ip, before, after)
    ensures UsedBy(uses + UsesOfCall(call, outcome, ip), Some(call.record))
    ensures FromLogins(uses + UsesOfCall(call, outcome, ip), after)
  {
    if call.ip != ip {
      assert uses + [] == uses;
    } else if Charges(outcome) {
      ChargedUses(uses, call, before);
    } else {
      OneUse(uses, before, Check(call.now));
    }
  }

  lemma RequestsNext(policy: Lockout.Policy, requests: seq<Lockout.Request>, r: Lockout.Request, user: Lockout.User)
    requires FromAccount(policy, requests, user) && r.Login? && r.check <= r.record
    requires forall i | 0 <= i < |requests| :: requests[i].record <= r.check
    ensures RequestedBy(requests + [r], Some(r.record))
    ensures FromAccount(policy, requests + [r], Lockout.Step(policy, Lockout.State(user, []), r).user)
  {
    Lockout.RunNext(policy, requests, r);
  }

  lemma CallRequests(policy: Lockout.Policy, requests: seq<Lockout.Request>, call: Call, outcome: Outcome,
                     email: string, stops: bool, before: Lockout.User, after: Lockout.User)
    requires FromAccount(policy, requests, before) && call.now <= call.record
    requires forall i | 0 <= i < |requests| :: requests[i].record <= call.now
    requires CallUser(policy, call, outcome, email, stops, before, after)
    ensures RequestedBy(requests + RequestsOfCall(call, outcome, email, stops), Some(call.record))
    ensures FromAccount(policy, requests + RequestsOfCall(call, outcome, email, stops), after)
  {
    if RequestsOfCall(call, outcome, email, stops) == [] {
      assert requests + [] == requests;
    } else {
      RequestsNext(policy, requests, Lockout.Login(call.now, call.record, call.passwordOk, stops), before);
    }
  }

  /** The uses of an address's key in a series are a list as the limiter's bounds assume it. */
  lemma {:induction false} SeriesUses(calls: seq<Call>, outcomes: seq<Outcome>, ip: string,
                                      counters: seq<Option<Counter>>, n: nat)
    requires SerialCalls(calls) && |outcomes| == |calls| && |counters| == |calls| + 1 && counters[0] == None
    requires forall i | 0 <= i < |calls| :: CallCounter(calls[i], outcomes[i], ip, counters[i], counters[i + 1])
    requires n <= |calls|
    ensures FromLogins(UsesOf(calls, outcomes, n, ip), counters[n])
      && UsedBy(UsesOf(calls, outcomes, n, ip), Clock(calls, n))
  {
    if n > 0 {
      SeriesUses(calls, outcomes, ip, counters, n - 1);
      CallUses(UsesOf(calls, outcomes, n - 1, ip), calls[n - 1], outcomes[n - 1], ip, counters[n - 1], counters[n]);
    }
  }

  /** The requests for an account in a series are a list as the lockout's bound assumes it. */
  lemma {:induction false} SeriesRequests(policy: Lockout.Policy, calls: seq<Call>, outcomes: seq<Outcome>,
                                          email: string, stops: bool, users: seq<Lockout.User>, n: nat)
    requires SerialCalls(calls) && |outcomes| == |calls| && |users| == |calls| + 1 && users[0] == Lockout.User(0, None)
    requires forall i | 0 <= i < |calls| ::
      CallUser(policy, calls[i], outcomes[i], email, stops, users[i], users[i + 1])
    requires n <= |calls|
    ensures FromAccount(policy, RequestsOf(calls, outcomes, n, email, stops), users[n])
    ensures RequestedBy(RequestsOf(calls, outcomes, n, email, stops), Clock(calls, n))
  {
    if n > 0 {
      SeriesRequests(policy, calls, outcomes, email, stops, users, n - 1);
      CallRequests(policy, RequestsOf(calls, outcomes, n - 1, email, stops), calls[n - 1], outcomes[n - 1], email,
                   stops, users[n - 1], users[n]);
    }
  }

  /** In a series of logins on a key that starts out free, at most limit + 1 are admitted, or charged
      for wrong credentials, in one lifetime of the key. */
  lemma SeriesCharges(calls: seq<Call>, outcomes: seq<Outcome>, ip: string, counters: seq<Option<Counter>>, birth: int)
    requires SerialCalls(calls) && |outcomes| == |calls| && |counters| == |calls| + 1 && counters[0] == None
    requires forall i | 0 <= i < |calls| :: CallCounter(calls[i], outcomes[i], ip, counters[i], counters[i + 1])
    ensures
      var uses := UsesOf(calls, outcomes, |calls|, ip);
      Tally(Events(uses, 900_000_000_000), Charged(5, birth)) <= 6
  {
    SeriesUses(calls, outcomes, ip, counters, |calls|);
    LoginsPerLifetime(UsesOf(calls, outcomes, |calls|, ip), LOGIN_RATE_LIMIT_WINDOW, LOGIN_RATE_LIMIT, birth);
  }

  /** And from an account without failures on, the failures keep the distance that the lockout
      promises. */
  lemma SeriesFailures(policy: Lockout.Policy, calls: seq<Call>, outcomes: seq<Outcome>, email: string, stops: bool,
                       users: seq<Lockout.User>, n: nat)
    requires SerialCalls(calls) && |outcomes| == |calls| && |users| == |calls| + 1 && users[0] == Lockout.User(0, None)
    requires forall i | 0 <= i < |calls| ::
      CallUser(policy, calls[i], outcomes[i], email, stops, users[i], users[i + 1])
    requires
      var requests := RequestsOf(calls, outcomes, |calls|, email, stops);
      Lockout.Threshold(policy) <= n <= |Lockout.Run(policy, requests).failures|
    ensures
      var requests, m := RequestsOf(calls, outcomes, |calls|, email, stops), Lockout.Threshold(policy);
      var failures := Lockout.Run(policy, requests).failures;
      users[|calls|].failed == |failures| && failures[n - 1] - failures[m - 1] >= (n - m) * policy.lockDuration
  {
    SeriesRequests(policy, calls, outcomes, email, stops, users, |calls|);
    Lockout.StaysSpaced(policy, RequestsOf(calls, outcomes, |calls|, email, stops));
    Lockout.LockoutBound(policy, RequestsOf(calls, outcomes, |calls|, email, stops), n);
  }
}
