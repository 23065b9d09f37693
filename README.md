# Dora-OSG in Dafny: sync engine, metadata store and catalogue API

Dora-OSG mirrors a fixed list of git repositories and serves them as a package catalogue. For each
repository the sync service pulls the repository and reads its head commit and tag. It packs the
working tree into `<name>-<first 7 hex of commit>.zip` when that archive is not already on disk, and
it records the result in a SQLite store: one `repos` row per name, one `versions` row per (repo, tag).
It then removes the archive of a re-tagged commit and retires every undeleted version past the three
newest, deleting the retired files. The HTTP API serves cached JSON views of the store.
Middleware restricts the admin routes to loopback clients and restricts file downloads to `.zip`
and asset downloads to `.json` and `.jpg`.

The model has one module per source file:

- `Model` (`model.dfy`): the `repos`, `versions` and `package_list_versions` records and the
  response records, and the two time conversions. Time is in nanoseconds. `CURRENT_TIMESTAMP`
  truncates to whole seconds and `Unix()` gives floor seconds.
- `Store` (`store.dfy`): the tables as a value `Tables` with its schema invariant `Valid`, each
  statement as a function on `Tables`, and the class `SQLiteStore`, whose methods update the
  `db` field. A failing statement is modelled by a set `failing` of queries that report an error.
- `Ordering` (`ordering.dfy`): `ORDER BY` as a stable insertion sort, and the BINARY collation
  as lexicographic order on strings.
- `Zip` (`zip.dfy`): the exclusion filter and the entry selection of the directory walk.
- `Sync` (`sync.dfy`): `syncRepo` as a specification function `SyncRepoSpec`, composed of stage
  functions (prior read, packaging, recording, stale delete, retention). The class `SyncService`
  has one method per stage, each proved equal to its stage function, plus `SyncAll`.
- `SyncProps` (`sync_props.dfy`): what a sync guarantees, proved about those functions.
- `Http` (`http.dfy`): the reply shape that `net/http`'s `Error`, `Redirect` and the JSON writers
  produce.
- `Api` (`api.dfy`): the cache rebuild `Rebuild` and the class `API` whose `UpdateCache` is
  proved equal to it; the read handlers as functions of the cache or the store.
- `Middleware` (`middleware.dfy`): the three middlewares as functions from the request to
  "forward" or "respond", with `net.SplitHostPort`, `filepath.Ext` and `strings.ToLower`
  written out.

The archive directory is a map from file name to size. Git is an oracle record per sync: the pull
and head outcome, the archive builder's outcome, the clock readings and the archive size.

## Model

| member | source | states |
|---|---|---|
| Model.Unix | internal/handler/api.go:146 | `Time.Unix()` is the floor of the nanosecond time in seconds |
| Model.CurrentTimestamp | internal/model/db.go:53-54 | `CURRENT_TIMESTAMP` is a whole second, at most one second before the insert |
| Model.DefaultCatalogueRow | internal/model/db.go:70-74 | a fresh `package_list_versions` row has version 1 and the insert's timestamp |
| Store.EmptyTablesValid | internal/model/db.go:42-79 | the empty schema satisfies the uniqueness, id and `deleted` constraints |
| Store.FindRepo | internal/store/sqlite.go:109-131 | the name lookup finds a row exactly when some row has that name, and the row it gives has it |
| Store.FindRepoUnique | internal/model/db.go:45 | with unique names the lookup of a row's name gives that row |
| Store.FindVersion | internal/store/sqlite.go:82-91 | the (repo, tag) lookup finds a row exactly when one exists, and the row it gives matches |
| Store.FindVersionUnique | internal/model/db.go:67 | with unique (repo, tag) pairs the lookup gives that row |
| Store.ReplaceRepoKeepsValid | internal/model/db.go:43-55 | updating a repos row in place, with the same id and name, keeps the schema constraints and changes no other name's rows |
| Store.AppendRepoKeepsValid | internal/model/db.go:44-45 | inserting a new name with the next autoincrement id keeps the constraints; the new id exceeds every old one |
| Store.ReplaceVersionKeepsValid | internal/model/db.go:57-68 | updating a versions row without touching id, repo, tag or deleted keeps the constraints |
| Store.AppendVersionKeepsValid | internal/model/db.go:58-67 | inserting a new (repo, tag) pair with the next id and `deleted = 0` keeps the constraints |
| Store.UpsertRepoRows | internal/store/sqlite.go:46-78 | a new name is inserted with an id above all others; an existing name keeps id, url and created_at and gets only tag, last_sync, commit, zip, size and updated_at; other names' rows and the versions table are untouched; the constraints hold |
| Store.RepackagedRetiredTagStaysRetired | internal/store/sqlite.go:85-88 | packaging again a tag whose row is marked deleted leaves that row deleted with its old created_at, so no undeleted row of the repo has that tag |
| Store.AddVersionRows | internal/store/sqlite.go:81-106 | a new (repo, tag) is inserted with a fresh id, `CURRENT_TIMESTAMP` and `deleted = 0`; an existing one keeps id, created_at and deleted and gets only commit, zip and size; other rows and the repos table are untouched |
| Store.MarkDeletedRows | internal/store/sqlite.go:237-244 | marking keeps the number of rows |
| Store.MarkDeletedRowsAt | internal/store/sqlite.go:238 | row i after the update is row i with `deleted = 1` if its id matches, else unchanged |
| Store.MarkDeletedChangesOnlyThatRow | internal/store/sqlite.go:237-244 | only the row with that id changes, and only its deleted flag |
| Store.MarkDeletedIdempotent | internal/store/sqlite.go:238 | marking the same id twice is the same as marking it once |
| Store.MarkDeletedUnknownId | internal/store/sqlite.go:238-243 | an unknown id changes nothing and is not an error |
| Store.MarkDeletedKeepsValid | internal/model/db.go:65 | the update keeps the schema constraints |
| Store.NewerFirstIsTotalOrder | internal/store/sqlite.go:135 | `ORDER BY created_at DESC` (ties by id) is total and transitive |
| Store.NameFirstIsTotalOrder | internal/store/sqlite.go:169 | `ORDER BY name` is total and transitive |
| Store.OfRepo | internal/store/sqlite.go:135 | `WHERE repo_id = ?` selects exactly that repo's rows |
| Store.UndeletedOfRepo | internal/store/sqlite.go:202 | `WHERE repo_id = ? AND deleted = 0` selects exactly those rows |
| Store.NewestFirstSorted | internal/store/sqlite.go:135 | the ordered listing is sorted newest first and is a permutation of its input |
| Store.SelectVersionsMeaning | internal/store/sqlite.go:134-165 | the version listing holds only that repo's rows, newest first, limited to `limit` when positive, and all rows otherwise |
| Store.SelectVersionsNewest | internal/store/sqlite.go:134-165 | the version listing is drawn from the repo's rows (no row more often than in the table), and no row of the repo left out is newer than a row returned |
| Store.RetirementCandidatesMeaning | internal/store/sqlite.go:201-234 | for n undeleted rows of the repo there are max(0, n-3) candidates, each an undeleted row of that repo, newest first |
| Store.RetirementCandidatesOldest | internal/store/sqlite.go:201-234 | the candidates are drawn from the repo's undeleted rows (no row more often than in the table), and none is newer than an undeleted row kept: the newest three stay |
| Store.NewestPrefix | internal/store/sqlite.go:135-138 | a prefix of a newest-first listing is part of it, and no row left out is newer than a row kept |
| Store.NewestSuffix | internal/store/sqlite.go:202-215 | a suffix of a newest-first listing is part of it, and no row in it is newer than a row before it |
| Store.ReposByNameMeaning | internal/store/sqlite.go:168-198 | `GetAllRepos` lists every repo exactly once, in strictly ascending name order |
| Store.SQLiteStore.constructor | internal/store/sqlite.go:21-38 | a new store has empty tables |
| Store.SQLiteStore.UpsertRepo | internal/store/sqlite.go:46-78 | the tables become `UpsertRepoRows`; the record gets the row id and `updated_at`; a failed statement changes nothing and reports the error |
| Store.SQLiteStore.AddVersion | internal/store/sqlite.go:81-106 | the tables become `AddVersionRows`; the record gets the row id; a failed statement changes nothing |
| Store.SQLiteStore.GetRepoByName | internal/store/sqlite.go:109-131 | an unknown name gives no row and no error; a failed query gives the error |
| Store.SQLiteStore.GetVersionsByRepoID | internal/store/sqlite.go:134-165 | the result is the ordered, limited selection, or the query's error |
| Store.SQLiteStore.GetAllRepos | internal/store/sqlite.go:168-198 | the result is the repos in name order, or the query's error |
| Store.SQLiteStore.GetOlderThan3LatestUnDeletedVersions | internal/store/sqlite.go:201-234 | the result is the retirement candidates, or the query's error |
| Store.SQLiteStore.MarkVersionAsDeleted | internal/store/sqlite.go:237-244 | the versions table becomes the marked table, or is unchanged with the error reported |
| Zip.ShouldExclude | pkg/zip/zip.go:78-85 | the loop answers true exactly when some excluded prefix starts the path |
| Zip.ExcludedIsGitPrefix | pkg/zip/zip.go:13-16 | since `.git` is a prefix of `.github`, exclusion means exactly "starts with `.git`" |
| Zip.ExcludedMonotone | pkg/zip/zip.go:80 | extending an excluded path keeps it excluded |
| Zip.ExclusionExamples | pkg/zip/zip.go:43-50 | `.gitignore` and `.github/...` are dropped; a nested `src/.git/config` and `README.md` are kept |
| Zip.EntriesMeaning | pkg/zip/zip.go:32-72 | the archive entries are exactly the walked paths that are files and not excluded |
| Zip.CreateZip | pkg/zip/zip.go:19-75 | a create failure yields no archive; any walk, open or copy failure aborts with the partial file left; otherwise the archive holds exactly the entries |
| Sync.PriorState | internal/service/sync.go:118-128 | the prior commit, tag and last sync come from the stored row; a missing row or a failed read gives the empty history with the current time |
| Sync.FirstSyncDereferencesNil | internal/service/sync.go:122-127 | on the first sync of a name the code as written dereferences the nil row; the corrected read gives the empty history |
| Sync.ZipFileNameRoundTrip | internal/service/sync.go:142 | the archive name gives back the 7-character commit prefix |
| Sync.CommitPrefixOfInverts | internal/service/sync.go:142 | every name that parses as an archive name is the name of its prefix |
| Sync.ZipFileNamesCollide | internal/service/sync.go:142 | two commits get the same archive name exactly when their first seven characters agree |
| Sync.Record | internal/service/sync.go:166-194 | writing the repo row and the version row keeps the schema constraints |
| Sync.RetireEach | internal/service/sync.go:210-219 | the retirement loop keeps the constraints and the table sizes, changes no repo row, and reports only a mark failure |
| Sync.Retention | internal/service/sync.go:203-220 | retention keeps the schema constraints |
| Sync.SyncRepoSpec | internal/service/sync.go:114-234 | a whole sync keeps the schema constraints |
| Sync.SyncEach | internal/service/sync.go:69-81 | syncing the list in order keeps the constraints and yields one result per repo |
| Sync.SyncEachStep | internal/service/sync.go:69-81 | syncing one more repo appends its result to the results so far |
| Sync.SyncService.constructor | internal/service/sync.go:29-49 | a new service has no callback and no effects |
| Sync.SyncService.SetOnSyncCallback | internal/service/sync.go:52-56 | the callback is registered or cleared; nothing else changes |
| Sync.SyncService.ReadPrior | internal/service/sync.go:118-128 | the prior state is the corrected read of the repo's row |
| Sync.SyncService.PackageArtifact | internal/service/sync.go:130-164 | archive directory and outcome equal the packaging stage |
| Sync.SyncService.RecordMetadata | internal/service/sync.go:166-194 | tables and outcome equal the recording stage |
| Sync.SyncService.Retire | internal/service/sync.go:203-220 | archives, tables and error equal the retention stage |
| Sync.SyncService.RetireAll | internal/service/sync.go:209-220 | archives, tables and error equal the retirement loop |
| Sync.SyncService.SyncRepo | internal/service/sync.go:114-234 | archives, tables and result equal `SyncRepoSpec`; the constraints hold after |
| Sync.SyncService.SyncEachRepo | internal/service/sync.go:69-81 | archives, tables and results equal `SyncEach` |
| Sync.SyncService.SyncAll | internal/service/sync.go:64-111 | state, error and effects equal syncing every repo, followed by the aggregation |
| Sync.SyncService.Conclude | internal/service/sync.go:84-108 | the error and the appended effects are those of the aggregation |
| Sync.Collect | internal/service/sync.go:73-90 | the collected errors are the failures in repo order; `hasChanges` is whether any repo changed |
| SyncProps.RetireEachRows | internal/service/sync.go:210-219 | the loop only sets deleted flags, only on candidate ids, and on all of them when no mark fails |
| SyncProps.RetireEachFiles | internal/service/sync.go:212-213 | the loop only removes archives, and removes every candidate's archive when no mark fails |
| SyncProps.RetireEachFails | internal/service/sync.go:216-218 | the loop fails exactly when some candidate's mark fails |
| SyncProps.UndeletedIdsIncreasing | internal/model/db.go:58 | filtering rows whose ids increase keeps the ids increasing |
| SyncProps.NewestRowsDistinctIds | internal/model/db.go:58 | the ordered undeleted rows of a repo have distinct ids |
| SyncProps.RetentionKeepsNewest | internal/service/sync.go:203-220 | after retention, outside the one-untagged-candidate exemption, the repo's undeleted rows are exactly its newest three |
| SyncProps.RetentionKeepsThree | internal/service/sync.go:203-220 | the repo then has min(n, 3) undeleted rows |
| SyncProps.RetentionAtMostThree | internal/service/sync.go:209-220 | after retention at most three rows stay undeleted, or four when the exempt fourth is untagged |
| SyncProps.RetentionRemovesCandidateFiles | internal/service/sync.go:210-214 | every retired candidate's archive is gone |
| SyncProps.RetentionOnlyMarks | internal/service/sync.go:203-220 | retention leaves the repos table alone, only sets deleted flags, only removes archives, and fails only on its query or a mark |
| SyncProps.RetentionKeepsArtifactRecord | internal/service/sync.go:203-220 | a version row recording an artifact still exists after retention |
| SyncProps.RecordOutcome | internal/service/sync.go:166-194 | a failed upsert writes nothing; success leaves the repo row with the packaged tag, commit, file, size and last sync, plus a version row recording that artifact |
| SyncProps.UpsertRecordsRow | internal/service/sync.go:167-180 | the upserted row carries the packaged head, archive and size |
| SyncProps.AddVersionRecordsArtifact | internal/service/sync.go:182-194 | after `AddVersion` a versions row records the artifact of the repo row |
| SyncProps.PackagingFailureReported | internal/service/sync.go:130-164 | a sync reports a pull, head, stat, build or size error exactly when packaging fails |
| SyncProps.LaterErrorsNotPackaging | internal/service/sync.go:166-220 | once packaging succeeds, any reported error is a store error |
| SyncProps.PackagingFailureWritesNothing | internal/service/sync.go:130-164 | a packaging failure leaves the tables unchanged, reports no change and keeps every existing archive |
| SyncProps.PackageOutcome | internal/service/sync.go:130-164 | packaging fails exactly on a failing pull, head, stat, build or size; success carries the head; existing archives are kept |
| SyncProps.SuccessRecordsHead | internal/service/sync.go:167-180 | a successful sync leaves the repo row with the head's tag and commit and its archive name |
| SyncProps.BuildOnlyWhenAbsent | internal/service/sync.go:142-164 | an existing archive is reused with the prior last-sync time and its size; only a missing one is built, with the build time and the new size |
| SyncProps.SuccessRecordsVersion | internal/service/sync.go:182-194 | a successful sync leaves a version row recording the repo row's artifact |
| SyncProps.ChangedMeansBuiltOrRetagged | internal/service/sync.go:228-233 | a failed sync reports no change; a successful one reports a change exactly when the archive was built or the tag differs from the prior tag |
| SyncProps.StaleArtifactRemoved | internal/service/sync.go:196-201 | a same-tag sync with a new commit removes the prior commit's archive |
| SyncProps.StaleDeleteCanRemoveNewArtifact | internal/service/sync.go:196-201 | when the old and new commits share their 7-character prefix, the stale delete removes the archive that the new repo row points to |
| SyncProps.SyncKeepsAtMostThree | internal/service/sync.go:203-220 | after a successful sync the repo has at most three undeleted versions, or four with the exempt untagged fourth |
| SyncProps.FailuresMeaning | internal/service/sync.go:73-90 | the collected failures are exactly the failed repos with their errors |
| SyncProps.FailuresEmptyIff | internal/service/sync.go:90-92 | no failures are collected exactly when every repo synced |
| SyncProps.AggregateMeaning | internal/service/sync.go:90-110 | any failure returns an error with no bump and no callback; otherwise a change bumps the catalogue once and runs the callback when one is set, and no change does neither |
| Api.DownloadURL | internal/handler/api.go:292-294 | the download URL is the base, `/zips/` and the file name |
| Api.DownloadURLRoundTrip | internal/handler/api.go:292-294 | the file name is recovered from its download URL |
| Api.FileOfDownloadURLInverts | internal/handler/api.go:292-294 | every URL under the base's `/zips/` is the download URL of its tail |
| Api.DownloadURLInjective | internal/handler/api.go:292-294 | distinct files get distinct download URLs |
| Api.VersionViews | internal/handler/api.go:135-147 | one version view per row, in row order |
| Api.Views | internal/handler/api.go:122-163 | the package list has no more entries than the repo listing |
| Api.Rebuild | internal/handler/api.go:111-192 | a failed repo listing changes nothing; otherwise the list is rebuilt, and the version slot is filled exactly when the catalogue row is read |
| Api.ListPackages | internal/handler/api.go:195-206 | 500 "Cache not initialized" before the first rebuild, otherwise the cached list as JSON |
| Api.GetPackageVersions | internal/handler/api.go:209-226 | 400 for an empty name; 200 with the cached package when the name is cached; 404 otherwise |
| Api.GetPackageListVersion | internal/handler/api.go:297-308 | 500 before the version slot is filled, otherwise the cached version as JSON |
| Api.GetLatestPackage | internal/handler/api.go:229-268 | 400 for an empty name; 500 when either query fails; 404 for an unknown name or no versions; otherwise a redirect |
| Api.UnixMonotone | internal/handler/api.go:146 | `Unix()` preserves the order of times |
| Api.PackageViewMeaning | internal/handler/api.go:122-147 | a package's view has its name and URL and min(n, 3) versions, each the view of one of the repo's rows, newest first, each behind its download URL |
| Api.PackageViewNewest | internal/handler/api.go:122-147 | a package's versions are the views of the rows the store lists, in order; those rows are drawn from the repo's rows (no row more often than in the table) and no row left out is newer than one shown |
| Api.RebuildStep | internal/handler/api.go:122-166 | one turn of the rebuild loop appends the repo's record to the list and writes it under the repo's name exactly when its version query succeeds, and changes nothing otherwise |
| Api.ViewsOnlyListed | internal/handler/api.go:122-155 | every listed package is the view of a repo whose version query succeeded |
| Api.ViewsAllListed | internal/handler/api.go:122-155 | every repo whose version query succeeds is in the list |
| Api.ViewsKeepOrder | internal/handler/api.go:122-155 | the package list keeps the name order of the repo listing |
| Api.CachedListed | internal/handler/api.go:157-166 | every listed repo's entry in the per-package cache is its view |
| Api.CachedKeeps | internal/handler/api.go:157-166 | cache entries are never dropped; an entry for a repo not relisted keeps its old value |
| Api.CachedOnlyAdds | internal/handler/api.go:157-166 | every cache entry is an old one or belongs to a listed repo |
| Api.ReposByNameAscending | internal/store/sqlite.go:168-198 | the repo listing is strictly ascending by name and holds every repo |
| Api.RebuildPackages | internal/handler/api.go:111-175 | after a rebuild the package list is ascending and holds exactly the views of the listed repos |
| Api.RebuildPackageInfo | internal/handler/api.go:122-166 | after a rebuild the per-package cache holds every listed repo's view, keeps old entries, and adds nothing else |
| Api.ServesRebuiltRecord | internal/handler/api.go:209-226 | after a rebuild `getPackageVersions` serves the listed repo's rebuilt view as JSON |
| Api.UninitialisedUntilRebuilt | internal/handler/api.go:111-192 | the list endpoint stays 500 only while every rebuild fails its repo listing; the version endpoint stays 500 while the listing or the catalogue read fails |
| Api.LatestRedirectsToNewest | internal/handler/api.go:229-268 | the latest endpoint redirects exactly when the repo exists with versions, and then to the download URL of a newest version |
| Api.LatestMayBeDeleted | internal/handler/api.go:249-267 | the redirect can target a retired version: the listing does not filter on `deleted` |
| Api.API.constructor | internal/handler/api.go:35-68 | a new API starts with an empty cache |
| Api.API.BuildVersions | internal/handler/api.go:135-147 | the loop builds the version views of the rows |
| Api.API.UpdateCache | internal/handler/api.go:111-192 | cache and error equal `Rebuild` of the old cache |
| Middleware.IndexOf | internal/handler/middleware.go:18 | the first position of a character, or -1 exactly when it is absent |
| Middleware.LastIndexOf | internal/handler/middleware.go:18 | the last position of a character, or -1 exactly when it is absent |
| Middleware.Ext | internal/handler/middleware.go:74 | the extension is a suffix of the path that starts with the last dot of the last element; it is empty only when every dot lies in an earlier element |
| Middleware.SplitHostPortSound | internal/handler/middleware.go:18 | a successful split gives back the address as `host:port` or `[host]:port` |
| Middleware.SplitBracketedSound | internal/handler/middleware.go:18 | a bracketed address splits into its host and port |
| Middleware.SplitPlainSound | internal/handler/middleware.go:18 | an unbracketed address splits at its only colon |
| Middleware.SplitBracketed | internal/handler/middleware.go:18 | `[host]:port` splits into host and port |
| Middleware.SplitPlain | internal/handler/middleware.go:18 | `host:port` splits into host and port |
| Middleware.SplitJoinRoundTrip | internal/handler/middleware.go:18 | splitting a joined host and port gives them back |
| Middleware.LocalOnly | internal/handler/middleware.go:15-32 | forwarded exactly when the address splits and its host is `127.0.0.1`, `::1` or `localhost`; an unsplittable address gets 400, any other host 403 |
| Middleware.LocalOnlyByHost | internal/handler/middleware.go:18-28 | for a well-formed address only the host decides: loopback hosts pass, others get 403 |
| Middleware.LocalOnlyNeedsPort | internal/handler/middleware.go:18-22 | an address without a port is rejected with 400 |
| Middleware.SecureFileServer | internal/handler/middleware.go:35-57 | forwarded exactly when the path does not end in `/` and ends in `.zip` in any case; the security and attachment headers are set on every reply; otherwise 404 |
| Middleware.ZipSuffixAnyCase | internal/handler/middleware.go:50 | the lowered path ends in `.zip` exactly when its last four characters are `.`, z/Z, i/I and p/P |
| Middleware.SecureAssetsServer | internal/handler/middleware.go:60-90 | forwarded exactly for non-directory paths whose lowered extension is `.json` or `.jpg`, with the matching content type; security headers always; otherwise 404 |
| Middleware.ExtensionIsSuffix | internal/handler/middleware.go:74-75 | a lowered extension equals a lowercase dotted word exactly when the lowered path ends in that word |
| Middleware.AssetsForwardIffSuffix | internal/handler/middleware.go:68-78 | asset paths pass exactly when they end in `.json` or `.jpg` in any case and not in `/` |
| Middleware.JpegRefused | internal/handler/middleware.go:74-78 | a `.jpeg` path is refused |

## Left out

- Concurrency: `SyncAll` runs one goroutine per repository under one mutex, so the syncs are
  serialised in some order. The model syncs them in list order. The collected errors are in repo
  order, not channel order. The unsynchronised write to `hasChanges` is not modelled. The API's
  read/write lock is not modelled. `Sync.SyncEach` accepts a list that repeats a repository name;
  the source's name-keyed map (internal/service/sync.go:44-46) cannot hold such a list.
- Git (`pkg/git/git.go`) is not part of this model. Pull, clone and head reading are oracle outcomes.
- The file system is a map from archive name to size. `os.Stat` errors other than "not exist"
  and the size read are oracle outcomes. `os.Remove` errors are ignored, as in the source.
- CreateZip's file contents: the archive's bytes, the zip format and the copied file data are not
  modelled. Only which entries are written, and which failure aborts the build, are modelled.
- The SQL engine: each statement is a function on the table values. An engine error is a query in
  the store's `failing` set. `ORDER BY created_at DESC` breaks ties by ascending id; SQLite leaves
  this order unspecified. Foreign keys and cascades are not modelled (nothing deletes repos).
- `Store.SQLiteStore.constructor`: opening the database file and applying the schema are not
  modelled; the store starts from empty tables.
- `IncrementPackageListVersion` and `GetLatestPackageListVersion` are not part of this model. The
  increment's success is a parameter of `SyncAll`, and the latest catalogue row is a parameter of
  `UpdateCache`.
- JSON encoding: cached bytes are the structured values they encode. Marshalling cannot fail for
  these types, so its error paths are not modelled.
- Time is an input: `time.Now()` readings are fields of the sync oracle or parameters.
- The `sync` column of `repos` and git's repository constructor are not modelled. The source's
  record, schema and insert statement disagree on this column.
- `Sync.SyncRepoSpec`: requires a head commit of at least seven characters (`CommitLongEnough`).
  The source slices `commitHash[:7]` and would panic on a shorter one; git always yields 40 hex
  characters.
- `Api.API.constructor`: `NewAPI`'s immediate `UpdateCache`, route registration, the rate
  limiter, the manual sync trigger and the callback wiring between the sync service and the API
  are not modelled.
- `net/http`: `http.Error`'s headers are modelled on a header map (content type and `nosniff`).
  The redirect's HTML body is not modelled.
- `Middleware.LocalOnly`: uses `net.SplitHostPort`, which is written out after Go's standard
  library, with every error collapsed to "no split".
- `Middleware.SecureFileServer`: `strings.ToLower` is ASCII lower-casing here; Go lowers all of
  Unicode.
- `Middleware.SecureAssetsServer`: same ASCII restriction; the path is treated as slash-separated
  for `filepath.Ext`.
- Pointers: the store and handlers pass records by pointer; the model passes values and returns
  the ids the store writes back.
- Logging, configuration, `main` and the rate limiter are not modelled.

## Findings

| source | as written | input that shows it | evidently intended | confidence | as-written member | corrected member |
|---|---|---|---|---|---|---|
| internal/service/sync.go:122-127 | `GetRepoByName` returns a nil row with no error for an unknown name (internal/store/sqlite.go:124-126), and `syncRepo` then reads fields through the nil pointer | the first sync of any repository, when `repos` has no row for its name | an unknown repository starts with an empty history (no commit, no tag, last sync now) and is then packaged and inserted | not executed | Sync.FirstSyncDereferencesNil | Sync.PriorState |

The stale-archive delete (internal/service/sync.go:196-201) builds the old archive name from the
old commit's first seven characters. When the old and new commits share that prefix, the two names
coincide, and the delete removes the archive just recorded for the new commit.
`SyncProps.StaleDeleteCanRemoveNewArtifact` proves this about the code as written. The model keeps
that behaviour.

On a conflict, AddVersion's update (internal/store/sqlite.go:85-88) rewrites only commit_hash,
zip_file and size. A tag that retention has already marked deleted and that is packaged again
keeps `deleted = 1` and its old created_at. It is therefore never listed again.
`Store.RepackagedRetiredTagStaysRetired` proves this. Whether that is intended is not evident from
the source, so the model keeps the behaviour as written.
