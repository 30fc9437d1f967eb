/** The transfer repository and the download gate as the code runs them for one request. */
module TransferService {
  import opened Wrappers
  import opened Transfers

  datatype Outcome =
    | Served(fileIDs: seq<FileId>)
    | NoTransfer
    | TransferRevoked
    | TransferExpired
    | PasswordRequired
    | IncorrectPassword
    | NoSuchFile
    | LimitReached

  /** How many stale rows ExpireStale finds. */
  function Stale(transfers: seq<Transfer>, now: int): nat {
    if transfers == [] then 0
    else
      var last := transfers[|transfers| - 1];
      Stale(transfers[..|transfers| - 1], now) + if !last.revoked && Expired(last, now) then 1 else 0
  }

  const MAX_EXPIRES_IN: int := 90 * 24 * 60 * 60 * 1_000_000_000

  class TransferRepository {
    var transfers: seq<Transfer>
    var counters: map<(TransferId, FileId), nat>

    constructor ()
      ensures transfers == [] && counters == map[]
    {
      transfers, counters := [], map[];
    }

    ghost function At(now: int, attempts: seq<Attempt>): State
      reads this
    {
      State(true, now, transfers, counters, attempts)
    }

    /** One transaction: the row, then one row for each file, which must be distinct. */
    method Create(t: Transfer) returns (tid: Option<TransferId>)
      modifies `transfers
      ensures tid == if Distinct(t.files) then Some(|old(transfers)|) else None
      ensures transfers == if Distinct(t.files) then old(transfers) + [t.(revoked := false, downloadCount := 0)]
        else old(transfers)
    {
      var i := 0;
      while i < |t.files|
        invariant 0 <= i <= |t.files|
        invariant Distinct(t.files[..i])
      {
        if t.files[i] in t.files[..i] {
          var j :| 0 <= j < i && t.files[j] == t.files[i];
          return None;
        }
        assert t.files[..i + 1] == t.files[..i] + [t.files[i]];
        i := i + 1;
      }
      assert t.files[..i] == t.files;
      transfers := transfers + [t.(revoked := false, downloadCount := 0)];
      return Some(|transfers| - 1);
    }

    method AttemptFileDownload(tid: TransferId, fid: FileId, maxDownloads: int) returns (allowed: bool)
      modifies `counters
      ensures allowed <==> UpsertReturns(old(counters), tid, fid, maxDownloads)
      ensures counters == UpsertCounters(old(counters), tid, fid, maxDownloads)
      ensures allowed <==> (tid, fid) !in old(counters) || old(counters)[(tid, fid)] < maxDownloads
      ensures allowed ==> counters == old(counters)[(tid, fid) :=
        if (tid, fid) in old(counters) then old(counters)[(tid, fid)] + 1 else 1]
      ensures !allowed ==> counters == old(counters)
    {
      if (tid, fid) !in counters {
        counters := counters[(tid, fid) := 1];
        return true;
      }
      allowed := counters[(tid, fid)] < maxDownloads;
      if allowed {
        counters := counters[(tid, fid) := counters[(tid, fid)] + 1];
      }
    }

    method IncrementDownloads(tid: TransferId)
      modifies `transfers
      ensures transfers == if tid < |old(transfers)|
        then old(transfers)[tid := old(transfers)[tid].(downloadCount := old(transfers)[tid].downloadCount + 1)]
        else old(transfers)
    {
      if tid < |transfers| {
        transfers := transfers[tid := transfers[tid].(downloadCount := transfers[tid].downloadCount + 1)];
      }
    }

    method Revoke(tid: TransferId, owner: nat, ghost now: int) returns (found: bool)
      modifies `transfers
      ensures found <==> tid < |old(transfers)| && old(transfers)[tid].owner == owner
      ensures At(now, []) == OwnerStep(old(At(now, [])), Action.Revoke(tid, owner))
      ensures found ==> transfers == old(transfers)[tid := old(transfers)[tid].(revoked := true)]
      ensures !found ==> transfers == old(transfers)
    {
      found := tid < |transfers| && transfers[tid].owner == owner;
      if found {
        transfers := transfers[tid := transfers[tid].(revoked := true)];
      }
    }

    /** Revokes the stale rows one by one; the number is what the UPDATE reports. */
    method ExpireStale(now: int) returns (n: nat)
      modifies `transfers
      ensures At(now, []) == OwnerStep(old(At(now, [])), Action.ExpireStale)
      ensures n == Stale(old(transfers), now)
      ensures Stale(transfers, now) == 0
      ensures |transfers| == |old(transfers)|
      ensures forall i | 0 <= i < |transfers| ::
        transfers[i] == old(transfers)[i].(revoked := old(transfers)[i].revoked ||
          (old(transfers)[i].expiresAt.Some? && now > old(transfers)[i].expiresAt.value))
    {
      n := 0;
      var i := 0;
      while i < |transfers|
        invariant 0 <= i <= |transfers| == |old(transfers)|
        invariant forall j | 0 <= j < i :: transfers[j] == Expire(old(transfers)[j], now)
        invariant forall j | i <= j < |transfers| :: transfers[j] == old(transfers)[j]
        invariant n == Stale(old(transfers)[..i], now)
      {
        assert old(transfers)[..i + 1][..i] == old(transfers)[..i];
        if !transfers[i].revoked && Expired(transfers[i], now) {
          transfers := transfers[i := transfers[i].(revoked := true)];
          n := n + 1;
        }
        i := i + 1;
      }
      assert old(transfers)[..|transfers|] == old(transfers);
      NoneStale(transfers, now);
    }
  }

  lemma {:induction false} NoneStale(transfers: seq<Transfer>, now: int)
    requires forall i | 0 <= i < |transfers| :: transfers[i].revoked || !Expired(transfers[i], now)
    ensures Stale(transfers, now) == 0
  {
    if transfers != [] {
      NoneStale(transfers[..|transfers| - 1], now);
    }
  }

  /** An empty password is none. */
  function Stored(password: string): Option<string> {
    if password == "" then None else Some(password)
  }

  class Service {
    const repo: TransferRepository

    constructor (repo: TransferRepository)
      ensures this.repo == repo
    {
      this.repo := repo;
    }

    /** Create. Whatever it accepts expires, at most 90 days from now; this is the only INSERT of a
        transfer. */
    method Create(owner: nat, nameBlank: bool, files: seq<FileId>, password: string, maxDownloads: int,
                  expiresIn: int, now: int) returns (tid: Option<TransferId>)
      modifies repo
      ensures tid.Some? <==>
        && !nameBlank && files != [] && 0 < expiresIn <= MAX_EXPIRES_IN
        && forall i, j | 0 <= i < j < |files| :: files[i] != files[j]
      ensures tid.Some? ==>
        && tid.value == |old(repo.transfers)| && tid.value < |repo.transfers|
        && repo.transfers[tid.value].expiresAt.Some?
        && repo.At(now, []) == OwnerStep(old(repo.At(now, [])),
             Action.Create(Transfer(owner, files, Stored(password), maxDownloads, Some(now + expiresIn), false, 0)))
        && (forall given :: PasswordAccepted(repo.transfers[tid.value], given) <==> password == "" || given == password)
        && repo.transfers == old(repo.transfers) + [repo.transfers[tid.value]]
        && now < repo.transfers[tid.value].expiresAt.value <= now + 90 * 24 * 60 * 60 * 1_000_000_000
        && !repo.transfers[tid.value].revoked && repo.transfers[tid.value].files == files
      ensures tid.None? ==> repo.transfers == old(repo.transfers) && repo.counters == old(repo.counters)
    {
      if nameBlank || |files| == 0 || expiresIn <= 0 || expiresIn > MAX_EXPIRES_IN { return None; }
      tid := repo.Create(Transfer(owner, files, Stored(password), maxDownloads, Some(now + expiresIn), false, 0));
    }

    /** Whether the file belongs to the transfer. */
    method Contains(fileIDs: seq<FileId>, fid: FileId) returns (found: bool)
      ensures found <==> fid in fileIDs
    {
      found := false;
      var i := 0;
      while i < |fileIDs|
        invariant 0 <= i <= |fileIDs|
        invariant !found && fid !in fileIDs[..i]
      {
        if fileIDs[i] == fid { return true; }
        i := i + 1;
      }
    }

    /** AttemptFileDownload, without interference. The caller gets the file exactly when a request
        that starts here may succeed; then the file is counted once if there is a limit, and the
        transfer once. Otherwise nothing changes, and the first check that fails is the answer. */
    method AttemptFileDownload(tid: TransferId, fid: FileId, password: string, now: int) returns (outcome: Outcome)
      modifies repo
      ensures outcome.Served? <==> (tid < |old(repo.transfers)| &&
        MaySucceed(old(repo.At(now, [Attempt(tid, fid, password, Begun)])), 0))
      ensures outcome.Served? <==> (tid < |old(repo.transfers)| &&
        var t := old(repo.transfers)[tid];
        && !t.revoked && !(t.expiresAt.Some? && now > t.expiresAt.value)
        && (t.password.None? || (password != "" && password == t.password.value))
        && fid in t.files && (t.maxDownloads <= 0 || Count(old(repo.counters), tid, fid) < t.maxDownloads))
      ensures outcome.Served? ==>
        && outcome.fileIDs == old(repo.transfers)[tid].files
        && repo.counters == (if old(repo.transfers)[tid].maxDownloads > 0
             then UpsertCounters(old(repo.counters), tid, fid, old(repo.transfers)[tid].maxDownloads)
             else old(repo.counters))
        && repo.transfers == old(repo.transfers)[tid :=
             old(repo.transfers)[tid].(downloadCount := old(repo.transfers)[tid].downloadCount + 1)]
      ensures !outcome.Served? ==> repo.transfers == old(repo.transfers) && repo.counters == old(repo.counters)
      ensures outcome.NoTransfer? <==> tid >= |repo.transfers|
      ensures outcome.TransferRevoked? <==> tid < |repo.transfers| && repo.transfers[tid].revoked
      ensures outcome.TransferExpired? <==>
        && tid < |repo.transfers| && !repo.transfers[tid].revoked
        && repo.transfers[tid].expiresAt.Some? && now > repo.transfers[tid].expiresAt.value
      ensures outcome.PasswordRequired? || outcome.IncorrectPassword? ==>
        && tid < |repo.transfers| && !PasswordAccepted(repo.transfers[tid], password)
        && (outcome.PasswordRequired? <==> password == "")
      ensures outcome.NoSuchFile? ==> tid < |repo.transfers| && fid !in repo.transfers[tid].files
      ensures outcome.LimitReached? ==>
        && tid < |repo.transfers| && fid in repo.transfers[tid].files && PasswordAccepted(repo.transfers[tid], password)
        && 0 < repo.transfers[tid].maxDownloads <= Count(repo.counters, tid, fid)
    {
      if tid >= |repo.transfers| { return NoTransfer; }
      var t := repo.transfers[tid];
      if t.revoked { return TransferRevoked; }
      if t.expiresAt.Some? && now > t.expiresAt.value { return TransferExpired; }
      if t.password.Some? {
        if password == "" { return PasswordRequired; }
        if password != t.password.value { return IncorrectPassword; }
      }
      var found := Contains(t.files, fid);
      if !found { return NoSuchFile; }
      if t.maxDownloads > 0 {
        var allowed := repo.AttemptFileDownload(tid, fid, t.maxDownloads);
        if !allowed { return LimitReached; }
      }
      repo.IncrementDownloads(tid);
      return Served(t.files);
    }
  }
}
