/**
 * The records of the metadata database and of the API responses, and the
 * constraints its schema imposes: one repos row per name, one versions row per
 * (repo_id, tag), autoincrement ids, and the column defaults.
 */
module Model {

  /** A wall-clock instant, in nanoseconds since the Unix epoch (Go's time.Time). */
  type Time = int

  const NanosPerSecond: int := 1_000_000_000

  /** Go's Time.Unix: whole seconds since the epoch, rounded down. */
  function Unix(t: Time): (secs: int)
    ensures secs * NanosPerSecond <= t < (secs + 1) * NanosPerSecond
  {
    t / NanosPerSecond
  }

  /** SQLite's CURRENT_TIMESTAMP: the current instant truncated to whole seconds. */
  function CurrentTimestamp(now: Time): (t: Time)
    ensures t <= now < t + NanosPerSecond
    ensures t % NanosPerSecond == 0
  {
    now - now % NanosPerSecond
  }

  /** A row of the repos table; the schema's `sync` column is not written by any query and is left out. */
  datatype DBRepo = DBRepo(
    id: int,
    name: string,
    url: string,
    tag: string,
    lastSync: Time,
    commitHash: string,
    zipFile: string,
    size: int,
    createdAt: Time,
    updatedAt: Time)

  /** A row of the versions table. The tag is a string, never null; "" is the untagged state. */
  datatype DBVersion = DBVersion(
    id: int,
    repoId: int,
    tag: string,
    commitHash: string,
    zipFile: string,
    size: int,
    createdAt: Time,
    deleted: int)

  /** A row of the package_list_versions table (the catalogue version). */
  datatype DBPackageListVersion = DBPackageListVersion(id: int, version: int, updatedAt: Time)

  /** Column defaults of the schema. */
  const DefaultDeleted: int := 0
  const DefaultCatalogueVersion: int := 1

  /** The row `INSERT INTO package_list_versions DEFAULT VALUES` creates with autoincrement id `id`. */
  function DefaultCatalogueRow(id: int, now: Time): (row: DBPackageListVersion)
    ensures row.version == 1
    ensures row.id == id && row.updatedAt <= now < row.updatedAt + NanosPerSecond
  {
    DBPackageListVersion(id, DefaultCatalogueVersion, CurrentTimestamp(now))
  }

  /** UNIQUE(name) on repos. */
  predicate UniqueNames(repos: seq<DBRepo>) {
    forall i, j :: 0 <= i < j < |repos| ==> repos[i].name != repos[j].name
  }

  /** UNIQUE(repo_id, tag) on versions. */
  predicate UniqueRepoTags(versions: seq<DBVersion>) {
    forall i, j :: 0 <= i < j < |versions| ==>
      versions[i].repoId != versions[j].repoId || versions[i].tag != versions[j].tag
  }

  /**
   * AUTOINCREMENT: rows in insertion order have strictly increasing positive ids,
   * none above the table's sequence counter (the largest id ever handed out).
   */
  predicate RepoIdsIncreasing(repos: seq<DBRepo>, lastId: int) {
    && 0 <= lastId
    && (forall i, j :: 0 <= i < j < |repos| ==> repos[i].id < repos[j].id)
    && (forall i :: 0 <= i < |repos| ==> 0 < repos[i].id <= lastId)
  }

  predicate VersionIdsIncreasing(versions: seq<DBVersion>, lastId: int) {
    && 0 <= lastId
    && (forall i, j :: 0 <= i < j < |versions| ==> versions[i].id < versions[j].id)
    && (forall i :: 0 <= i < |versions| ==> 0 < versions[i].id <= lastId)
  }

  /** The deleted column only ever holds 0 (the default) or 1 (written by the retention mark). */
  predicate DeletedFlags(versions: seq<DBVersion>) {
    forall i :: 0 <= i < |versions| ==> versions[i].deleted == 0 || versions[i].deleted == 1
  }

  /** One version entry of an API package record (internal/model/repo.go). */
  datatype Version = Version(file: string, size: int, tag: string, commit: string, download: string, updatedAt: int)

  /** A package record as the catalogue API serves it (internal/model/repo.go). */
  datatype PackageInfo = PackageInfo(name: string, url: string, versions: seq<Version>)
}
