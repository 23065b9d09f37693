/**
 * The synchronisation engine (internal/service/sync.go): per repository, read
 * the prior record, ask the mirror for the head, build the artifact if it is
 * absent, record repo and version rows, drop the stale artifact of a moved tag,
 * and retire versions beyond the newest three; then, for the whole batch, bump
 * the catalogue once and run the callback when something changed.
 *
 * The mirror, the clock and the builder's environment are an oracle per
 * repository; the zips directory is a map from file name to size.
 */
module Sync {
  import opened Wrappers
  import opened Model
  import Store
  import Zip
  import Ordering

  /** A configured repository. */
  datatype TrackedRepo = TrackedRepo(name: string, url: string, lfs: bool)

  /** What GetLatestCommit reports. */
  datatype Head = Head(commit: string, tag: string)

  /** Everything one repository's sync learns from outside the engine. */
  datatype SyncOracle = SyncOracle(
    startTime: Time,            // time.Now() before the prior record is read
    pullOk: bool,               // PullOrClone succeeds
    head: Option<Head>,         // GetLatestCommit's commit and tag, or its error
    statFails: bool,            // os.Stat of the artifact fails other than with not-exist
    createFails: bool,          // CreateZip cannot create the target file
    tree: seq<Zip.WalkEntry>,   // the working copy as filepath.Walk visits it
    archiveSize: int,           // size of the file CreateZip leaves behind
    buildTime: Time,            // time.Now() after a build
    sizeFails: bool,            // GetFileSize fails
    writeTime: Time)            // time.Now() in UpsertRepo, also CURRENT_TIMESTAMP of inserted rows

  /** `commitHash[:7]` needs seven characters. */
  predicate CommitLongEnough(o: SyncOracle) {
    o.head.Some? ==> |o.head.value.commit| >= 7
  }

  datatype SyncError =
    | PullFailed
    | CommitLookupFailed
    | StatFailed
    | BuildFailed
    | SizeFailed
    | UpsertFailed(cause: Store.StoreError)
    | AddVersionFailed(cause: Store.StoreError)
    | RetentionQueryFailed(cause: Store.StoreError)
    | MarkFailed(cause: Store.StoreError)

  /** The errors raised before any store write. */
  predicate IsPackagingError(e: SyncError) {
    e.PullFailed? || e.CommitLookupFailed? || e.StatFailed? || e.BuildFailed? || e.SizeFailed?
  }

  /** syncRepo's `(error, bool)`. */
  datatype RepoSyncResult = RepoSyncResult(err: Option<SyncError>, changed: bool)

  // ---------------------------------------------------------------- prior record

  /** The `(commit, tag, lastSync)` a sync starts from. */
  datatype Prior = Prior(commit: string, tag: string, lastSync: Time)

  /** The code as written dereferences the nil record GetRepoByName returns for an unknown name. */
  datatype PriorRead = Read(prior: Prior) | NilDereference

  function PriorStateAsWritten(got: Result<Option<DBRepo>, Store.StoreError>, now: Time): PriorRead {
    match got
    case Err(_) => Read(Prior("", "", now))
    case Ok(None) => NilDereference
    case Ok(Some(row)) => Read(Prior(row.commitHash, row.tag, row.lastSync))
  }

  /** The prior state with an absent record read as empty history. */
  function PriorState(got: Result<Option<DBRepo>, Store.StoreError>, now: Time): (p: Prior)
    ensures PriorStateAsWritten(got, now).Read? ==> p == PriorStateAsWritten(got, now).prior
    ensures got == Ok(None) ==> p == Prior("", "", now)
  {
    match got
    case Ok(Some(row)) => Prior(row.commitHash, row.tag, row.lastSync)
    case _ => Prior("", "", now)
  }

  /** On the first sync of a repository the code as written dereferences nil; the model starts from no history. */
  lemma FirstSyncDereferencesNil(now: Time)
    ensures PriorStateAsWritten(Ok(None), now) == NilDereference
    ensures PriorState(Ok(None), now) == Prior("", "", now)
  {
  }

  /** The prior state read from the store. */
  function PriorOf(db: Store.Tables, failing: set<Store.Query>, name: string, now: Time): Prior {
    var got: Result<Option<DBRepo>, Store.StoreError> :=
      if Store.GetRepoByNameQ in failing then Err(Store.QueryFailed(Store.GetRepoByNameQ))
      else Ok(Store.FindRepo(db.repos, name));
    PriorState(got, now)
  }

  // ---------------------------------------------------------------- artifact names

  /** `<name>-<commit[:7]>.zip`, a file of the zips directory. */
  function ZipFileName(repoName: string, commit: string): string
    requires |commit| >= 7
  {
    repoName + "-" + commit[..7] + ".zip"
  }

  /** The commit prefix an artifact name of this repository carries, if it is one. */
  function CommitPrefixOf(repoName: string, file: string): Option<string> {
    var n := |repoName|;
    if |file| == n + 12 && file[..n] == repoName && file[n] == '-' && file[n + 8..] == ".zip"
    then Some(file[n + 1..n + 8])
    else None
  }

  lemma ZipFileNameRoundTrip(repoName: string, commit: string)
    requires |commit| >= 7
    ensures CommitPrefixOf(repoName, ZipFileName(repoName, commit)) == Some(commit[..7])
  {
    var f := ZipFileName(repoName, commit);
    var n := |repoName|;
    assert f[..n] == repoName && f[n] == '-' && f[n + 1..n + 8] == commit[..7] && f[n + 8..] == ".zip";
  }

  lemma CommitPrefixOfInverts(repoName: string, file: string)
    ensures match CommitPrefixOf(repoName, file)
      case Some(p) => |p| == 7 && file == repoName + "-" + p + ".zip"
      case None => true
  {
    var n := |repoName|;
    if CommitPrefixOf(repoName, file).Some? {
      assert file == file[..n] + [file[n]] + file[n + 1..n + 8] + file[n + 8..];
    }
  }

  /** Two commits of one repository get the same artifact name exactly when their first seven characters agree. */
  lemma ZipFileNamesCollide(repoName: string, c1: string, c2: string)
    requires |c1| >= 7 && |c2| >= 7
    ensures ZipFileName(repoName, c1) == ZipFileName(repoName, c2) <==> c1[..7] == c2[..7]
  {
    ZipFileNameRoundTrip(repoName, c1);
    ZipFileNameRoundTrip(repoName, c2);
  }

  // ---------------------------------------------------------------- stages of one sync

  /** The zips directory: file name to size. */
  type Dir = map<string, int>

  /** The outcome of steps 130-164: mirror, artifact and its size. */
  datatype Packaged = Packaged(head: Head, zipName: string, size: int, zipCreated: bool, lastSync: Time)

  datatype PackageStep = PackageStep(zips: Dir, out: Result<Packaged, SyncError>)

  function Package(zips: Dir, name: string, lastSync: Time, o: SyncOracle): (r: PackageStep)
    requires CommitLongEnough(o)
  {
    if !o.pullOk then PackageStep(zips, Err(PullFailed))
    else if o.head.None? then PackageStep(zips, Err(CommitLookupFailed))
    else if o.statFails then PackageStep(zips, Err(StatFailed))
    else
      var head := o.head.value;
      var zipName := ZipFileName(name, head.commit);
      if zipName in zips then
        if o.sizeFails then PackageStep(zips, Err(SizeFailed))
        else PackageStep(zips, Ok(Packaged(head, zipName, zips[zipName], false, lastSync)))
      else
        match Zip.ArchiveOutcome(o.createFails, o.tree)
        case Failed(left) =>
          PackageStep(if left then zips[zipName := o.archiveSize] else zips, Err(BuildFailed))
        case Archived(_) =>
          var zips' := zips[zipName := o.archiveSize];
          if o.sizeFails then PackageStep(zips', Err(SizeFailed))
          else PackageStep(zips', Ok(Packaged(head, zipName, o.archiveSize, true, o.buildTime)))
  }

  /** The repos row syncRepo hands to UpsertRepo. */
  function RepoRow(repo: TrackedRepo, p: Packaged): DBRepo {
    DBRepo(0, repo.name, repo.url, p.head.tag, p.lastSync, p.head.commit, p.zipName, p.size, 0, 0)
  }

  /** The versions row syncRepo hands to AddVersion. */
  function VersionRow(repoId: int, p: Packaged): DBVersion {
    DBVersion(0, repoId, p.head.tag, p.head.commit, p.zipName, p.size, p.lastSync, DefaultDeleted)
  }

  /** The outcome of steps 166-194: the tables and the repo's row id. */
  datatype RecordStep = RecordStep(db: Store.Tables, out: Result<int, SyncError>)

  function Record(db: Store.Tables, failing: set<Store.Query>, repo: TrackedRepo, p: Packaged, now: Time): (r: RecordStep)
    requires Store.Valid(db)
    ensures Store.Valid(r.db)
  {
    if Store.UpsertRepoQ in failing then
      RecordStep(db, Err(UpsertFailed(Store.QueryFailed(Store.UpsertRepoQ))))
    else
      var w := Store.UpsertRepoRows(db, RepoRow(repo, p), now);
      if Store.AddVersionQ in failing then
        RecordStep(w.tables, Err(AddVersionFailed(Store.QueryFailed(Store.AddVersionQ))))
      else
        RecordStep(Store.AddVersionRows(w.tables, VersionRow(w.id, p), now).tables, Ok(w.id))
  }

  /** The artifact of the prior commit when the tag stayed and the commit moved (steps 196-201). */
  function StaleArtifact(name: string, prior: Prior, head: Head): Option<string>
    requires |head.commit| >= 7
  {
    if prior.tag == head.tag && |prior.commit| >= 7 && prior.commit != head.commit
    then Some(ZipFileName(name, prior.commit))
    else None
  }

  function Remove(zips: Dir, file: Option<string>): Dir {
    match file
    case Some(f) => zips - {f}
    case None => zips
  }

  datatype RetireStep = RetireStep(zips: Dir, db: Store.Tables, err: Option<SyncError>)

  /** The retirement loop: remove each candidate's file, then mark its row deleted; a failed mark stops. */
  function RetireEach(zips: Dir, db: Store.Tables, failing: set<Store.Query>, cands: seq<DBVersion>): (r: RetireStep)
    requires Store.Valid(db)
    ensures Store.Valid(r.db)
    ensures r.db.repos == db.repos && r.db.lastRepoId == db.lastRepoId && r.db.lastVersionId == db.lastVersionId
    ensures |r.db.versions| == |db.versions|
    ensures r.err.Some? ==> r.err.value.MarkFailed?
    decreases |cands|
  {
    if cands == [] then RetireStep(zips, db, None)
    else
      var zips' := zips - {cands[0].zipFile};
      var q := Store.MarkDeletedQ(cands[0].id);
      if q in failing then RetireStep(zips', db, Some(MarkFailed(Store.QueryFailed(q))))
      else
        Store.MarkDeletedKeepsValid(db, cands[0].id);
        RetireEach(zips', db.(versions := Store.MarkDeletedRows(db.versions, cands[0].id)), failing, cands[1..])
  }

  /** The one case retention leaves alone: a single leftover row with the empty tag. */
  predicate Exempt(cands: seq<DBVersion>) {
    |cands| == 1 && cands[0].tag == ""
  }

  /** Steps 203-220. */
  function Retention(zips: Dir, db: Store.Tables, failing: set<Store.Query>, repoId: int): (r: RetireStep)
    requires Store.Valid(db)
    ensures Store.Valid(r.db)
  {
    if Store.OlderThan3Q in failing then
      RetireStep(zips, db, Some(RetentionQueryFailed(Store.QueryFailed(Store.OlderThan3Q))))
    else
      var cands := Store.RetirementCandidates(db.versions, repoId);
      if Exempt(cands) then RetireStep(zips, db, None)
      else RetireEach(zips, db, failing, cands)
  }

  /** The zips directory and the metadata tables. */
  datatype World = World(zips: Dir, db: Store.Tables)

  datatype Synced = Synced(world: World, result: RepoSyncResult)

  /** One repository's sync, step by step as syncRepo performs it. */
  function SyncRepoSpec(w: World, failing: set<Store.Query>, repo: TrackedRepo, o: SyncOracle): (s: Synced)
    requires Store.Valid(w.db) && CommitLongEnough(o)
    ensures Store.Valid(s.world.db)
  {
    var prior := PriorOf(w.db, failing, repo.name, o.startTime);
    var pk := Package(w.zips, repo.name, prior.lastSync, o);
    match pk.out
    case Err(e) => Synced(World(pk.zips, w.db), RepoSyncResult(Some(e), false))
    case Ok(p) =>
      var rec := Record(w.db, failing, repo, p, o.writeTime);
      match rec.out
      case Err(e) => Synced(World(pk.zips, rec.db), RepoSyncResult(Some(e), false))
      case Ok(repoId) =>
        var zips1 := Remove(pk.zips, StaleArtifact(repo.name, prior, p.head));
        var ret := Retention(zips1, rec.db, failing, repoId);
        if ret.err.Some? then Synced(World(ret.zips, ret.db), RepoSyncResult(ret.err, false))
        else Synced(World(ret.zips, ret.db), RepoSyncResult(None, p.zipCreated || p.head.tag != prior.tag))
  }

  // ---------------------------------------------------------------- the batch

  /** The outward effects of SyncAll besides the store: the catalogue bump and the callback. */
  datatype Effect = CatalogueBump(ok: bool) | CallbackRun

  datatype RepoFailure = RepoFailure(name: string, cause: SyncError)

  datatype Batch = Batch(world: World, results: seq<RepoSyncResult>)

  /** `commitHash[:7]` is defined for every repository of the batch. */
  predicate LongCommits(oracles: seq<SyncOracle>) {
    forall i :: 0 <= i < |oracles| ==> CommitLongEnough(oracles[i])
  }

  /** The repositories synced one after another (the source runs them concurrently under one lock). */
  function SyncEach(w: World, failing: set<Store.Query>, repos: seq<TrackedRepo>, oracles: seq<SyncOracle>): (b: Batch)
    requires |repos| == |oracles| && Store.Valid(w.db) && LongCommits(oracles)
    ensures Store.Valid(b.world.db) && |b.results| == |repos|
    decreases |repos|
  {
    if repos == [] then Batch(w, [])
    else
      var n := |repos| - 1;
      var b := SyncEach(w, failing, repos[..n], oracles[..n]);
      var s := SyncRepoSpec(b.world, failing, repos[n], oracles[n]);
      Batch(s.world, b.results + [s.result])
  }

  /** One more repository of the batch. */
  lemma SyncEachStep(w: World, failing: set<Store.Query>, repos: seq<TrackedRepo>, oracles: seq<SyncOracle>, i: nat)
    requires |repos| == |oracles| && Store.Valid(w.db) && LongCommits(oracles) && i < |repos|
    ensures LongCommits(oracles[..i]) && LongCommits(oracles[..i + 1]) && CommitLongEnough(oracles[i])
    ensures var b := SyncEach(w, failing, repos[..i], oracles[..i]);
      var s := SyncRepoSpec(b.world, failing, repos[i], oracles[i]);
      SyncEach(w, failing, repos[..i + 1], oracles[..i + 1]) == Batch(s.world, b.results + [s.result])
  {
    assert repos[..i + 1][..i] == repos[..i] && oracles[..i + 1][..i] == oracles[..i];
  }

  /** The errors SyncAll collects, one per failed repository, in repository order. */
  function Failures(repos: seq<TrackedRepo>, results: seq<RepoSyncResult>): seq<RepoFailure>
    requires |repos| == |results|
  {
    if repos == [] then []
    else
      var n := |repos| - 1;
      Failures(repos[..n], results[..n])
        + (if results[n].err.Some? then [RepoFailure(repos[n].name, results[n].err.value)] else [])
  }

  /** SyncAll's `hasChanges`: some repository synced without error and reported a change. */
  predicate AnyChanged(results: seq<RepoSyncResult>) {
    exists i :: 0 <= i < |results| && results[i].err.None? && results[i].changed
  }

  datatype Aggregated = Aggregated(err: Option<seq<RepoFailure>>, effects: seq<Effect>)

  /** SyncAll's decision after every repository has been synced. */
  function Aggregate(repos: seq<TrackedRepo>, results: seq<RepoSyncResult>, bumpOk: bool, callbackSet: bool): Aggregated
    requires |repos| == |results|
  {
    var errs := Failures(repos, results);
    if |errs| > 0 then Aggregated(Some(errs), [])
    else if AnyChanged(results) then
      Aggregated(None, if callbackSet then [CatalogueBump(bumpOk), CallbackRun] else [CatalogueBump(bumpOk)])
    else Aggregated(None, [])
  }

  // ---------------------------------------------------------------- the service object

  class SyncService {
    const store: Store.SQLiteStore
    /** The `<storage>/zips` directory. */
    var zips: Dir
    /** Whether a post-sync callback is registered. */
    var onSync: bool
    var effects: seq<Effect>

    constructor (store: Store.SQLiteStore, zips: Dir)
      ensures this.store == store && this.zips == zips && !onSync && effects == []
    {
      this.store := store;
      this.zips := zips;
      onSync := false;
      effects := [];
    }

    method SetOnSyncCallback(registered: bool)
      modifies this
      ensures onSync == registered && zips == old(zips) && effects == old(effects)
    {
      onSync := registered;
    }

    /** Steps 118-128: the prior commit, tag and sync time. */
    method ReadPrior(name: string, now: Time) returns (prior: Prior)
      ensures prior == PriorOf(store.db, store.failing, name, now)
    {
      var latestCommitHash, latestTag, lastSync := "", "", now;
      var got := store.GetRepoByName(name);
      if got.Ok? && got.value.Some? {
        latestCommitHash, latestTag, lastSync := got.value.value.commitHash, got.value.value.tag, got.value.value.lastSync;
      }
      // An unknown name leaves the empty history here (see PriorStateAsWritten for the code as written).
      prior := Prior(latestCommitHash, latestTag, lastSync);
    }

    /** Steps 130-164: pull, head, build the artifact if absent, read its size. */
    method PackageArtifact(name: string, lastSync: Time, o: SyncOracle) returns (out: Result<Packaged, SyncError>)
      requires CommitLongEnough(o)
      modifies this
      ensures onSync == old(onSync) && effects == old(effects)
      ensures PackageStep(zips, out) == Package(old(zips), name, lastSync, o)
    {
      if !o.pullOk {
        return Err(PullFailed);
      }
      if o.head.None? {
        return Err(CommitLookupFailed);
      }
      var head := o.head.value;
      var zipFileName := ZipFileName(name, head.commit);
      var zipCreated := false;
      var syncTime := lastSync;
      if o.statFails {
        return Err(StatFailed);
      }
      if zipFileName !in zips {
        var built := Zip.CreateZip(o.createFails, o.tree);
        if built.Failed? {
          if built.fileLeft {
            zips := zips[zipFileName := o.archiveSize];
          }
          return Err(BuildFailed);
        }
        zips := zips[zipFileName := o.archiveSize];
        zipCreated := true;
        syncTime := o.buildTime;
      }
      if o.sizeFails {
        return Err(SizeFailed);
      }
      out := Ok(Packaged(head, zipFileName, zips[zipFileName], zipCreated, syncTime));
    }

    /** Steps 166-194: upsert the repo row, then add or update the version row. */
    method RecordMetadata(repo: TrackedRepo, p: Packaged, now: Time) returns (out: Result<int, SyncError>)
      requires Store.Valid(store.db)
      modifies store
      ensures store.failing == old(store.failing)
      ensures RecordStep(store.db, out) == Record(old(store.db), store.failing, repo, p, now)
    {
      var dbRepo := DBRepo(0, repo.name, repo.url, p.head.tag, p.lastSync, p.head.commit, p.zipName, p.size, 0, 0);
      var err, written := store.UpsertRepo(dbRepo, now);
      if err.Some? {
        return Err(UpsertFailed(err.value));
      }
      var version := DBVersion(0, written.id, p.head.tag, p.head.commit, p.zipName, p.size, p.lastSync, DefaultDeleted);
      var verr, _ := store.AddVersion(version, now);
      if verr.Some? {
        return Err(AddVersionFailed(verr.value));
      }
      out := Ok(written.id);
    }

    /** Steps 203-220: retire every version beyond the newest three. */
    method Retire(repoId: int) returns (err: Option<SyncError>)
      requires Store.Valid(store.db)
      modifies this, store
      ensures store.failing == old(store.failing) && onSync == old(onSync) && effects == old(effects)
      ensures RetireStep(zips, store.db, err) == Retention(old(zips), old(store.db), store.failing, repoId)
    {
      var listed := store.GetOlderThan3LatestUnDeletedVersions(repoId);
      if listed.Err? {
        return Some(RetentionQueryFailed(listed.error));
      }
      var versions := listed.value;
      if |versions| == 1 && versions[0].tag == "" {
        return None;
      }
      err := RetireAll(versions);
    }

    /** The retirement loop: remove each file, then mark its row; the first failed mark ends it. */
    method RetireAll(versions: seq<DBVersion>) returns (err: Option<SyncError>)
      requires Store.Valid(store.db)
      modifies this, store
      ensures store.failing == old(store.failing) && onSync == old(onSync) && effects == old(effects)
      ensures RetireStep(zips, store.db, err) == RetireEach(old(zips), old(store.db), store.failing, versions)
    {
      ghost var target := RetireEach(zips, store.db, store.failing, versions);
      for i := 0 to |versions|
        invariant Store.Valid(store.db) && store.failing == old(store.failing)
        invariant onSync == old(onSync) && effects == old(effects)
        invariant RetireEach(zips, store.db, store.failing, versions[i..]) == target
      {
        assert versions[i..][0] == versions[i] && versions[i..][1..] == versions[i + 1..];
        zips := zips - {versions[i].zipFile};
        var merr := store.MarkVersionAsDeleted(versions[i].id);
        if merr.Some? {
          return Some(MarkFailed(merr.value));
        }
      }
      err := None;
    }

    method SyncRepo(repo: TrackedRepo, o: SyncOracle) returns (res: RepoSyncResult)
      requires Store.Valid(store.db) && CommitLongEnough(o)
      modifies this, store
      ensures Store.Valid(store.db) && store.failing == old(store.failing)
      ensures onSync == old(onSync) && effects == old(effects)
      ensures Synced(World(zips, store.db), res) == SyncRepoSpec(old(World(zips, store.db)), old(store.failing), repo, o)
    {
      var prior := ReadPrior(repo.name, o.startTime);
      var packaged := PackageArtifact(repo.name, prior.lastSync, o);
      if packaged.Err? {
        return RepoSyncResult(Some(packaged.error), false);
      }
      var p := packaged.value;
      var recorded := RecordMetadata(repo, p, o.writeTime);
      if recorded.Err? {
        return RepoSyncResult(Some(recorded.error), false);
      }
      var stale := StaleArtifact(repo.name, prior, p.head);
      if stale.Some? {
        zips := zips - {stale.value};
      }
      var err := Retire(recorded.value);
      if err.Some? {
        return RepoSyncResult(err, false);
      }
      res := RepoSyncResult(None, p.zipCreated || p.head.tag != prior.tag);
    }

    /** The per-repository goroutines, run one after another. */
    method SyncEachRepo(repos: seq<TrackedRepo>, oracles: seq<SyncOracle>) returns (results: seq<RepoSyncResult>)
      requires |repos| == |oracles| && Store.Valid(store.db) && LongCommits(oracles)
      modifies this, store
      ensures store.failing == old(store.failing) && onSync == old(onSync) && effects == old(effects)
      ensures Batch(World(zips, store.db), results) == SyncEach(old(World(zips, store.db)), store.failing, repos, oracles)
    {
      ghost var w0 := World(zips, store.db);
      results := [];
      for i := 0 to |repos|
        invariant store.failing == old(store.failing) && onSync == old(onSync) && effects == old(effects)
        invariant LongCommits(oracles[..i])
        invariant Batch(World(zips, store.db), results) == SyncEach(w0, store.failing, repos[..i], oracles[..i])
      {
        SyncEachStep(w0, store.failing, repos, oracles, i);
        var res := SyncRepo(repos[i], oracles[i]);
        results := results + [res];
      }
      assert repos[..|repos|] == repos && oracles[..|oracles|] == oracles;
    }

    /** Syncs every repository, then aggregates: any error suppresses the bump and the callback. */
    method SyncAll(repos: seq<TrackedRepo>, oracles: seq<SyncOracle>, bumpOk: bool) returns (err: Option<seq<RepoFailure>>)
      requires |repos| == |oracles| && Store.Valid(store.db) && LongCommits(oracles)
      modifies this, store
      ensures Store.Valid(store.db) && store.failing == old(store.failing) && onSync == old(onSync)
      ensures var b := SyncEach(old(World(zips, store.db)), old(store.failing), repos, oracles);
        var a := Aggregate(repos, b.results, bumpOk, onSync);
        && World(zips, store.db) == b.world
        && err == a.err
        && effects == old(effects) + a.effects
    {
      var results := SyncEachRepo(repos, oracles);
      err := Conclude(repos, results, bumpOk);
    }

    /** SyncAll after the wait: collect the failures, then bump and call back when something changed. */
    method Conclude(repos: seq<TrackedRepo>, results: seq<RepoSyncResult>, bumpOk: bool) returns (err: Option<seq<RepoFailure>>)
      requires |repos| == |results|
      modifies this
      ensures err == Aggregate(repos, results, bumpOk, onSync).err
      ensures effects == old(effects) + Aggregate(repos, results, bumpOk, onSync).effects
      ensures zips == old(zips) && onSync == old(onSync)
    {
      var errs, hasChanges := Collect(repos, results);
      if |errs| > 0 {
        return Some(errs);
      }
      ghost var e0 := effects;
      if hasChanges {
        // The bump's outcome is only logged by the source; the callback runs either way.
        effects := effects + [CatalogueBump(bumpOk)];
        if onSync {
          effects := effects + [CallbackRun];
          assert effects == e0 + [CatalogueBump(bumpOk), CallbackRun];
        }
      }
      return None;
    }
  }

  /** The failures sent on the error channel and the `hasChanges` flag, gathered over the results. */
  method Collect(repos: seq<TrackedRepo>, results: seq<RepoSyncResult>) returns (errs: seq<RepoFailure>, hasChanges: bool)
    requires |repos| == |results|
    ensures errs == Failures(repos, results)
    ensures hasChanges == AnyChanged(results)
  {
    errs, hasChanges := [], false;
    for i := 0 to |repos|
      invariant errs == Failures(repos[..i], results[..i])
      invariant hasChanges == AnyChanged(results[..i])
    {
      assert repos[..i + 1][..i] == repos[..i] && results[..i + 1][..i] == results[..i];
      if results[i].err.Some? {
        errs := errs + [RepoFailure(repos[i].name, results[i].err.value)];
      } else if results[i].changed {
        hasChanges := true;
      }
      assert results[..i + 1][i] == results[i];
    }
    assert repos[..|repos|] == repos && results[..|results|] == results;
  }
}
