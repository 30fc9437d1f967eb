/** The three separately written rules on when a file may be purged. Instants and durations are in
    microseconds, and a day has 24 hours. */
module Retention {
  import opened Wrappers

  const SECOND: int := 1_000_000
  const DAY: int := 24 * 60 * 60 * SECOND
  const DEFAULT_RETENTION_DAYS := 30
  const DEFAULT_ORPHAN_DAYS := 90

  /** A transfer that contains the file. */
  datatype Share = Share(revoked: bool, expiresAt: Option<int>)

  datatype File = File(createdAt: int, shares: seq<Share>, deleted: bool)

  datatype Policy = Policy(enabled: bool, retentionDays: int, orphanDays: int) {
    /** The worker and the admin handlers replace a non-positive number of days. */
    function Retention(): (r: int)
      ensures r >= DAY
    {
      (if retentionDays <= 0 then DEFAULT_RETENTION_DAYS else retentionDays) * DAY
    }

    function Orphan(): (r: int)
      ensures r >= DAY
    {
      (if orphanDays <= 0 then DEFAULT_ORPHAN_DAYS else orphanDays) * DAY
    }
  }

  predicate IsActive(share: Share, now: int) {
    !share.revoked && (share.expiresAt.None? || share.expiresAt.value > now)
  }

  predicate IsDone(share: Share, now: int) {
    share.revoked || (share.expiresAt.Some? && share.expiresAt.value < now)
  }

  // ---------- SQL aggregates ----------

  function CountActive(shares: seq<Share>, now: int): nat {
    if shares == [] then 0
    else CountActive(shares[..|shares| - 1], now) + if IsActive(shares[|shares| - 1], now) then 1 else 0
  }

  function Later(a: Option<int>, b: Option<int>): Option<int> {
    if a.None? then b else if b.None? then a else if a.value < b.value then b else a
  }

  /** max(expires_at): NULLs are skipped, NULL if nothing is left. */
  function MaxExpiry(shares: seq<Share>): Option<int> {
    if shares == [] then None else Later(MaxExpiry(shares[..|shares| - 1]), shares[|shares| - 1].expiresAt)
  }

  function Coalesce(a: Option<int>, otherwise: int): int {
    if a.Some? then a.value else otherwise
  }

  /** max(coalesce(expires_at, otherwise)). */
  function MaxCoalesced(shares: seq<Share>, otherwise: int): int
    requires shares != []
  {
    var last := Coalesce(shares[|shares| - 1].expiresAt, otherwise);
    if |shares| == 1 then last
    else
      var rest := MaxCoalesced(shares[..|shares| - 1], otherwise);
      if rest < last then last else rest
  }

  lemma {:induction false} CountActiveZero(shares: seq<Share>, now: int)
    ensures CountActive(shares, now) == 0 <==> forall i | 0 <= i < |shares| :: !IsActive(shares[i], now)
  {
    if shares != [] {
      CountActiveZero(shares[..|shares| - 1], now);
    }
  }

  ghost predicate HasNull(shares: seq<Share>) {
    exists i :: 0 <= i < |shares| && shares[i].expiresAt.None?
  }

  lemma {:induction false} MaxExpiryBounds(shares: seq<Share>)
    ensures MaxExpiry(shares).None? <==> forall i | 0 <= i < |shares| :: shares[i].expiresAt.None?
    ensures MaxExpiry(shares).Some? ==>
      && (forall i | 0 <= i < |shares| :: shares[i].expiresAt.Some? ==>
        shares[i].expiresAt.value <= MaxExpiry(shares).value)
      && exists i :: 0 <= i < |shares| && shares[i].expiresAt == MaxExpiry(shares)
  {
    if shares != [] {
      MaxExpiryBounds(shares[..|shares| - 1]);
      var rest := MaxExpiry(shares[..|shares| - 1]);
      if rest.Some? {
        var i :| 0 <= i < |shares| - 1 && shares[..|shares| - 1][i].expiresAt == rest;
        assert shares[i].expiresAt == rest;
      }
      assert shares[|shares| - 1].expiresAt == MaxExpiry(shares) || rest == MaxExpiry(shares);
    }
  }

  /** The two maxima differ only through the NULLs. */
  lemma {:induction false} MaxCoalescedIs(shares: seq<Share>, otherwise: int)
    requires shares != []
    ensures MaxCoalesced(shares, otherwise) ==
      if !HasNull(shares) then Coalesce(MaxExpiry(shares), otherwise)
      else if MaxExpiry(shares).Some? && MaxExpiry(shares).value > otherwise then MaxExpiry(shares).value
      else otherwise
  {
    var init := shares[..|shares| - 1];
    if |shares| == 1 {
      assert init == [];
      assert HasNull(shares) <==> shares[0].expiresAt.None?;
    } else {
      MaxCoalescedIs(init, otherwise);
      MaxExpiryBounds(init);
      assert HasNull(shares) <==> HasNull(init) || shares[|shares| - 1].expiresAt.None? by {
        if HasNull(init) {
          var i :| 0 <= i < |init| && init[i].expiresAt.None?;
          assert shares[i].expiresAt.None?;
        }
        if HasNull(shares) {
          var i :| 0 <= i < |shares| && shares[i].expiresAt.None?;
          assert i < |init| ==> init[i].expiresAt.None?;
        }
      }
      assert MaxExpiry(init).None? ==> init[0].expiresAt.None?;
    }
  }

  // ---------- The three rules ----------

  /** FindFilesEligibleForDeletion, rule 1: shared, every share over, the last one long enough ago. */
  predicate RetentionExpired(file: File, policy: Policy, now: int) {
    && !file.deleted && file.shares != []
    && (forall i | 0 <= i < |file.shares| :: IsDone(file.shares[i], now))
    && MaxCoalesced(file.shares, now - SECOND) < now - policy.Retention()
  }

  /** Rule 2: never shared, and old enough. */
  predicate OrphanExpired(file: File, policy: Policy, now: int) {
    !file.deleted && file.shares == [] && file.createdAt < now - policy.Orphan()
  }

  predicate WorkerSelects(file: File, policy: Policy, now: int) {
    RetentionExpired(file, policy, now) || OrphanExpired(file, policy, now)
  }

  /** eligible_purge in the admin's file list, which shows live files. */
  predicate EligiblePurge(file: File, policy: Policy, now: int) {
    !file.deleted &&
    if |file.shares| > 0 && CountActive(file.shares, now) == 0
       && Coalesce(MaxExpiry(file.shares), now - SECOND) < now - policy.Retention() then true
    else if |file.shares| == 0 && file.createdAt < now - policy.Orphan() then true
    else false
  }

  /** auto_delete_at in the owner's file list; days are taken as configured. */
  function AutoDeleteAt(file: File, policy: Policy, now: int): Option<int> {
    if !policy.enabled then None
    else if |file.shares| == 0 then Some(file.createdAt + policy.orphanDays * DAY)
    else if CountActive(file.shares, now) == 0 && MaxExpiry(file.shares).Some? then
      Some(MaxExpiry(file.shares).value + policy.retentionDays * DAY)
    else None
  }

  // ---------- How they relate ----------

  /** Every share without an expiry is revoked, and there is one. */
  ghost predicate OnlyRevokedNulls(shares: seq<Share>) {
    HasNull(shares) && forall i | 0 <= i < |shares| :: shares[i].expiresAt.None? ==> shares[i].revoked
  }

  /** The worker and the admin's list agree except on a file that has a revoked share without an
      expiry next to shares that expired long enough ago: the list calls it eligible, and the worker
      never selects it. */
  lemma RetentionAgreement(file: File, policy: Policy, now: int)
    requires !file.deleted
    ensures (WorkerSelects(file, policy, now) <==> EligiblePurge(file, policy, now)) <==>
      !(OnlyRevokedNulls(file.shares) && MaxExpiry(file.shares).Some?
        && MaxExpiry(file.shares).value < now - policy.Retention())
  {
    var shares := file.shares;
    CountActiveZero(shares, now);
    MaxExpiryBounds(shares);
    if shares != [] {
      MaxCoalescedIs(shares, now - SECOND);
    }
  }

  /** With an expiry on every share, as Create sets it, they agree at every instant. */
  lemma AgreementWithoutNulls(file: File, policy: Policy, now: int)
    requires !file.deleted && !HasNull(file.shares)
    ensures WorkerSelects(file, policy, now) <==> EligiblePurge(file, policy, now)
  {
    RetentionAgreement(file, policy, now);
  }

  /** A file with an active share is selected by neither rule and has no date. */
  lemma ActiveShareProtects(file: File, policy: Policy, now: int, i: nat)
    requires i < |file.shares| && IsActive(file.shares[i], now)
    ensures !WorkerSelects(file, policy, now) && !EligiblePurge(file, policy, now)
    ensures AutoDeleteAt(file, policy, now).None?
  {
    CountActiveZero(file.shares, now);
    assert !IsDone(file.shares[i], now);
  }

  /** The instant after which the worker selects a file whose shares are over. */
  function Deadline(file: File, policy: Policy): int {
    if |file.shares| == 0 then file.createdAt + policy.Orphan()
    else Coalesce(MaxExpiry(file.shares), 0) + policy.Retention()
  }

  function ConfiguredDays(file: File, policy: Policy): int {
    if |file.shares| == 0 then policy.orphanDays else policy.retentionDays
  }

  /** With an expiry on every share, the worker selects a live file exactly after its deadline. */
  lemma SelectedIffPastDeadline(file: File, policy: Policy, now: int)
    requires !HasNull(file.shares)
    ensures WorkerSelects(file, policy, now) <==> !file.deleted && now > Deadline(file, policy)
  {
    MaxExpiryBounds(file.shares);
    if file.shares != [] {
      MaxCoalescedIs(file.shares, now - SECOND);
    }
  }

  /** One more share puts the deadline off, unless the file had none. */
  lemma DeadlineWithShare(file: File, policy: Policy, revoked: bool, expiry: int)
    requires !HasNull(file.shares)
    ensures
      var shared := file.(shares := file.shares + [Share(revoked, Some(expiry))]);
      && !HasNull(shared.shares)
      && Deadline(shared, policy) >= expiry + policy.Retention()
      && (file.shares == [] ==> Deadline(shared, policy) == expiry + policy.Retention())
      && (file.shares != [] ==> Deadline(shared, policy) >= Deadline(file, policy))
  {
    var shared := file.shares + [Share(revoked, Some(expiry))];
    assert shared[..|shared| - 1] == file.shares;
    MaxExpiryBounds(file.shares);
  }

  /** Ending a share does not move the deadline. */
  lemma {:induction false} MaxExpiryRevoked(shares: seq<Share>, i: nat)
    requires i < |shares|
    ensures MaxExpiry(shares[i := shares[i].(revoked := true)]) == MaxExpiry(shares)
  {
    var n := |shares| - 1;
    var ended := shares[i := shares[i].(revoked := true)];
    if i == n {
      assert ended[..n] == shares[..n];
    } else {
      MaxExpiryRevoked(shares[..n], i);
      assert ended[..n] == shares[..n][i := shares[i].(revoked := true)];
    }
  }

  /** From the moment a date is shown, with the shares unchanged, the worker selects the file once
      the deadline is past, and never if one of the shares has no expiry. */
  lemma SelectedAfterDeadline(file: File, policy: Policy, now: int, later: int)
    requires !file.deleted && AutoDeleteAt(file, policy, now).Some? && now <= later
    ensures WorkerSelects(file, policy, later) <==> !HasNull(file.shares) && later > Deadline(file, policy)
  {
    var shares := file.shares;
    CountActiveZero(shares, now);
    MaxExpiryBounds(shares);
    if shares != [] {
      MaxCoalescedIs(shares, later - SECOND);
      forall i | 0 <= i < |shares| && later > MaxExpiry(shares).value
        ensures HasNull(shares) || IsDone(shares[i], later)
      {
        assert !IsActive(shares[i], now);
      }
    }
  }

  /** The date shown is the one the worker keeps exactly when every share has an expiry and the
      configured number of days is positive (or the deadline has passed already). */
  lemma AutoDeleteIsKept(file: File, policy: Policy, now: int)
    requires !file.deleted && AutoDeleteAt(file, policy, now).Some?
    ensures (forall later | later >= now ::
               WorkerSelects(file, policy, later) <==> later > AutoDeleteAt(file, policy, now).value)
      <==> !HasNull(file.shares) && (ConfiguredDays(file, policy) >= 1 || now > Deadline(file, policy))
  {
    var shown, deadline := AutoDeleteAt(file, policy, now).value, Deadline(file, policy);
    MaxExpiryBounds(file.shares);
    forall later | later >= now
      ensures WorkerSelects(file, policy, later) <==> !HasNull(file.shares) && later > deadline
    {
      SelectedAfterDeadline(file, policy, now, later);
    }
    if HasNull(file.shares) {
      var some := if now > shown then now else shown + 1;
      assert !WorkerSelects(file, policy, some);
    } else if ConfiguredDays(file, policy) >= 1 {
      assert shown == deadline;
    } else if now <= deadline {
      assert shown < deadline;
      assert !WorkerSelects(file, policy, deadline);
    }
  }

  // ---------- The rules, share by share ----------

  /** The worker selects a live file without shares a number of days after its upload, and one with
      shares when every single one has an expiry that is this long ago; 90 and 30 days if the policy
      has no positive number. */
  lemma WorkerRule(file: File, policy: Policy, now: int)
    ensures
      var days := if policy.retentionDays <= 0 then 30 else policy.retentionDays;
      var orphanDays := if policy.orphanDays <= 0 then 90 else policy.orphanDays;
      WorkerSelects(file, policy, now) <==>
        && !file.deleted
        && (file.shares == [] ==> now - file.createdAt > orphanDays * 24 * 60 * 60 * 1_000_000)
        && forall share | share in file.shares ::
             share.expiresAt.Some? && now - share.expiresAt.value > days * 24 * 60 * 60 * 1_000_000
  {
    var shares := file.shares;
    MaxExpiryBounds(shares);
    if shares != [] {
      MaxCoalescedIs(shares, now - SECOND);
      assert HasNull(shares) <==> exists share :: share in shares && share.expiresAt.None?;
    }
  }

  /** The admin's list, share by share: no share is active, one has an expiry, and those that have one
      are this long over. */
  lemma ListRule(file: File, policy: Policy, now: int)
    ensures
      var days := if policy.retentionDays <= 0 then 30 else policy.retentionDays;
      var orphanDays := if policy.orphanDays <= 0 then 90 else policy.orphanDays;
      EligiblePurge(file, policy, now) <==>
        && !file.deleted
        && (file.shares == [] ==> now - file.createdAt > orphanDays * 24 * 60 * 60 * 1_000_000)
        && (file.shares != [] ==> exists share :: share in file.shares && share.expiresAt.Some?)
        && forall share | share in file.shares ::
             && (share.expiresAt.None? ==> share.revoked)
             && (share.expiresAt.Some? ==> now - share.expiresAt.value > days * 24 * 60 * 60 * 1_000_000)
  {
    CountActiveZero(file.shares, now);
    MaxExpiryBounds(file.shares);
  }

  /** With retention on, a date is shown exactly if the file has no shares, or some share has an expiry
      and each is revoked or past it; and it is the configured number of days after the upload, or
      after the last of the expiries. */
  lemma DateRule(file: File, policy: Policy, now: int)
    ensures AutoDeleteAt(file, policy, now).Some? <==>
      && policy.enabled
      && (file.shares != [] ==> exists share :: share in file.shares && share.expiresAt.Some?)
      && forall share | share in file.shares ::
           share.revoked || (share.expiresAt.Some? && share.expiresAt.value <= now)
    ensures AutoDeleteAt(file, policy, now).Some? ==>
      var date := AutoDeleteAt(file, policy, now).value;
      if file.shares == [] then date == file.createdAt + policy.orphanDays * 24 * 60 * 60 * 1_000_000
      else
        && (exists share :: share in file.shares && share.expiresAt.Some?
              && date == share.expiresAt.value + policy.retentionDays * 24 * 60 * 60 * 1_000_000)
        && forall share | share in file.shares && share.expiresAt.Some? ::
             date >= share.expiresAt.value + policy.retentionDays * 24 * 60 * 60 * 1_000_000
  {
    CountActiveZero(file.shares, now);
    MaxExpiryBounds(file.shares);
  }

  /** With an expiry on every share and positive days, every file that the worker selects has a date
      shown, and that date is past. */
  lemma SelectedHasDate(file: File, policy: Policy, now: int)
    requires policy.enabled && policy.retentionDays >= 1 && policy.orphanDays >= 1
    requires forall share | share in file.shares :: share.expiresAt.Some?
    requires WorkerSelects(file, policy, now)
    ensures AutoDeleteAt(file, policy, now).Some? && AutoDeleteAt(file, policy, now).value < now
  {
    WorkerRule(file, policy, now);
    assert file.shares != [] ==> file.shares[0] in file.shares;
    DateRule(file, policy, now);
  }

  // ---------- Rows from outside ----------

  /** A revoked transfer without an expiry, next to one that expired two days ago: the list calls the
      file eligible, and the worker never selects it. */
  lemma NullShareDisagrees()
    ensures
      var file := File(0, [Share(true, None), Share(false, Some(0))], false);
      var policy := Policy(true, 1, 1);
      EligiblePurge(file, policy, 2 * DAY) && !WorkerSelects(file, policy, 2 * DAY)
  {
    var shares := [Share(true, None), Share(false, Some(0))];
    var policy := Policy(true, 1, 1);
    assert shares[0].expiresAt.None?;
    assert MaxExpiry(shares[..1][..0]) == None && MaxExpiry(shares[..1]) == None;
    assert MaxExpiry(shares) == Some(0);
    CountActiveZero(shares, 2 * DAY);
    RetentionAgreement(File(0, shares, false), policy, 2 * DAY);
  }

  /** With zero days configured, the list shows the day of the upload, and the worker waits for 90. */
  lemma ZeroDaysDisagree()
    ensures
      var file := File(0, [], false);
      var policy := Policy(true, 0, 0);
      AutoDeleteAt(file, policy, 0) == Some(0) && !WorkerSelects(file, policy, DAY)
  {
  }

  // ---------- The worker's query ----------

  /** The positions of the files a rule selects. */
  function Matching(files: seq<File>, rule: File -> bool): seq<nat> {
    if files == [] then []
    else
      var n := |files| - 1;
      Matching(files[..n], rule) + if rule(files[n]) then [n] else []
  }

  /** The two rules joined by UNION ALL. */
  function FindFilesEligibleForDeletion(files: seq<File>, policy: Policy, now: int): seq<nat> {
    Matching(files, (file: File) => RetentionExpired(file, policy, now))
      + Matching(files, (file: File) => OrphanExpired(file, policy, now))
  }

  lemma {:induction false} MatchingExact(files: seq<File>, rule: File -> bool)
    ensures forall i: nat :: i in Matching(files, rule) <==> i < |files| && rule(files[i])
    ensures forall i, j | 0 <= i < j < |Matching(files, rule)| :: Matching(files, rule)[i] < Matching(files, rule)[j]
  {
    if files != [] {
      var n := |files| - 1;
      MatchingExact(files[..n], rule);
      var rest, all := Matching(files[..n], rule), Matching(files, rule);
      forall i | 0 <= i < |rest| ensures rest[i] < n {
        assert rest[i] in rest;
      }
      forall i: nat ensures i in all <==> i < |files| && rule(files[i]) {
        assert i in all <==> i in rest || (i == n && rule(files[n]));
      }
    }
  }

  /** No file comes up twice, and exactly the selected ones come up. */
  lemma QueryExact(files: seq<File>, policy: Policy, now: int)
    ensures var found := FindFilesEligibleForDeletion(files, policy, now);
      && (forall i: nat :: i in found <==> i < |files| && WorkerSelects(files[i], policy, now))
      && (forall i, j | 0 <= i < j < |found| :: found[i] != found[j])
  {
    var expired := (file: File) => RetentionExpired(file, policy, now);
    var orphans := (file: File) => OrphanExpired(file, policy, now);
    MatchingExact(files, expired);
    MatchingExact(files, orphans);
    forall i, j | 0 <= i < |Matching(files, expired)| && 0 <= j < |Matching(files, orphans)|
      ensures Matching(files, expired)[i] != Matching(files, orphans)[j]
    {
      assert Matching(files, expired)[i] in Matching(files, expired);
      assert Matching(files, orphans)[j] in Matching(files, orphans);
    }
  }
}
