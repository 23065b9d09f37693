/**
 * The metadata store (internal/store/sqlite.go) as in-memory tables. The SQL
 * engine is not modelled: each query's meaning is a function on the tables,
 * and a query listed in the store's `failing` set reports an error instead.
 */
module Store {
  import opened Wrappers
  import opened Model
  import Ordering

  /** The store's queries, as the failure oracle names them. */
  datatype Query =
    | GetRepoByNameQ
    | UpsertRepoQ
    | AddVersionQ
    | GetVersionsQ(repoId: int)
    | GetAllReposQ
    | OlderThan3Q
    | MarkDeletedQ(versionId: int)

  datatype StoreError = QueryFailed(query: Query)

  /** The repos and versions tables in insertion order, with their autoincrement counters. */
  datatype Tables = Tables(repos: seq<DBRepo>, versions: seq<DBVersion>, lastRepoId: int, lastVersionId: int)

  const EmptyTables: Tables := Tables([], [], 0, 0)

  /** The schema's constraints, which every write keeps. */
  predicate Valid(t: Tables) {
    && UniqueNames(t.repos)
    && RepoIdsIncreasing(t.repos, t.lastRepoId)
    && UniqueRepoTags(t.versions)
    && VersionIdsIncreasing(t.versions, t.lastVersionId)
    && DeletedFlags(t.versions)
  }

  lemma EmptyTablesValid()
    ensures Valid(EmptyTables)
  {
  }

  // ---------------------------------------------------------------- lookups

  /** Position of the first row named `name`, or -1. */
  function IndexOfName(repos: seq<DBRepo>, name: string): (k: int)
    ensures -1 <= k < |repos|
    ensures k >= 0 ==> repos[k].name == name && forall i :: 0 <= i < k ==> repos[i].name != name
    ensures k < 0 <==> forall i :: 0 <= i < |repos| ==> repos[i].name != name
  {
    if repos == [] then -1
    else if repos[0].name == name then 0
    else
      var k := IndexOfName(repos[1..], name);
      if k < 0 then -1 else k + 1
  }

  /** `SELECT * FROM repos WHERE name = ?`: the row, or None when no row has that name. */
  function FindRepo(repos: seq<DBRepo>, name: string): (r: Option<DBRepo>)
    ensures r.Some? <==> exists i :: 0 <= i < |repos| && repos[i].name == name
    ensures r.Some? ==> r.value in repos && r.value.name == name
  {
    var k := IndexOfName(repos, name);
    if k < 0 then None else Some(repos[k])
  }

  lemma FindRepoUnique(repos: seq<DBRepo>, i: int)
    requires UniqueNames(repos) && 0 <= i < |repos|
    ensures FindRepo(repos, repos[i].name) == Some(repos[i])
  {
  }

  /** Position of the first row with this (repo_id, tag), or -1. */
  function IndexOfRepoTag(versions: seq<DBVersion>, repoId: int, tag: string): (k: int)
    ensures -1 <= k < |versions|
    ensures k >= 0 ==> versions[k].repoId == repoId && versions[k].tag == tag
    ensures k >= 0 ==> forall i :: 0 <= i < k ==> versions[i].repoId != repoId || versions[i].tag != tag
    ensures k < 0 <==> forall i :: 0 <= i < |versions| ==> versions[i].repoId != repoId || versions[i].tag != tag
  {
    if versions == [] then -1
    else if versions[0].repoId == repoId && versions[0].tag == tag then 0
    else
      var k := IndexOfRepoTag(versions[1..], repoId, tag);
      if k < 0 then -1 else k + 1
  }

  /** The versions row with this (repo_id, tag), if any. */
  function FindVersion(versions: seq<DBVersion>, repoId: int, tag: string): (r: Option<DBVersion>)
    ensures r.Some? <==> exists i :: 0 <= i < |versions| && versions[i].repoId == repoId && versions[i].tag == tag
    ensures r.Some? ==> r.value in versions && r.value.repoId == repoId && r.value.tag == tag
  {
    var k := IndexOfRepoTag(versions, repoId, tag);
    if k < 0 then None else Some(versions[k])
  }

  lemma FindVersionUnique(versions: seq<DBVersion>, i: int)
    requires UniqueRepoTags(versions) && 0 <= i < |versions|
    ensures FindVersion(versions, versions[i].repoId, versions[i].tag) == Some(versions[i])
  {
  }

  // ---------------------------------------------------------------- writes

  /** The tables after a write, and the id `RETURNING id` reports. */
  datatype Written = Written(tables: Tables, id: int)

  lemma ReplaceRepoKeepsValid(t: Tables, k: int, row: DBRepo)
    requires Valid(t) && 0 <= k < |t.repos|
    requires row.id == t.repos[k].id && row.name == t.repos[k].name
    ensures Valid(t.(repos := t.repos[k := row]))
    ensures forall r: DBRepo :: r.name != row.name ==> (r in t.repos[k := row] <==> r in t.repos)
  {
    var repos' := t.repos[k := row];
    forall r: DBRepo | r.name != row.name ensures r in repos' <==> r in t.repos {
      if r in t.repos {
        var i :| 0 <= i < |t.repos| && t.repos[i] == r;
        assert repos'[i] == r;
      }
    }
  }

  lemma AppendRepoKeepsValid(t: Tables, row: DBRepo)
    requires Valid(t) && row.id == t.lastRepoId + 1
    requires forall i :: 0 <= i < |t.repos| ==> t.repos[i].name != row.name
    ensures Valid(t.(repos := t.repos + [row], lastRepoId := row.id))
    ensures forall r :: r in t.repos ==> r.id < row.id
  {
    var repos' := t.repos + [row];
    forall i, j | 0 <= i < j < |repos'| ensures repos'[i].id < repos'[j].id && repos'[i].name != repos'[j].name {
      assert repos'[i] == t.repos[i];
      if j < |t.repos| { assert repos'[j] == t.repos[j]; }
    }
    assert forall i :: 0 <= i < |t.repos| ==> repos'[i] == t.repos[i];
  }

  lemma ReplaceVersionKeepsValid(t: Tables, k: int, row: DBVersion)
    requires Valid(t) && 0 <= k < |t.versions|
    requires row.id == t.versions[k].id && row.repoId == t.versions[k].repoId && row.tag == t.versions[k].tag
    requires row.deleted == t.versions[k].deleted
    ensures Valid(t.(versions := t.versions[k := row]))
    ensures forall r: DBVersion :: (r.repoId != row.repoId || r.tag != row.tag) ==>
      (r in t.versions[k := row] <==> r in t.versions)
  {
    var versions' := t.versions[k := row];
    forall r: DBVersion | r.repoId != row.repoId || r.tag != row.tag ensures r in versions' <==> r in t.versions {
      if r in t.versions {
        var i :| 0 <= i < |t.versions| && t.versions[i] == r;
        assert versions'[i] == r;
      }
    }
  }

  lemma AppendVersionKeepsValid(t: Tables, row: DBVersion)
    requires Valid(t) && row.id == t.lastVersionId + 1 && row.deleted == 0
    requires forall i :: 0 <= i < |t.versions| ==> t.versions[i].repoId != row.repoId || t.versions[i].tag != row.tag
    ensures Valid(t.(versions := t.versions + [row], lastVersionId := row.id))
    ensures forall r :: r in t.versions ==> r.id < row.id
  {
    var versions' := t.versions + [row];
    forall i, j | 0 <= i < j < |versions'|
      ensures versions'[i].id < versions'[j].id
      ensures versions'[i].repoId != versions'[j].repoId || versions'[i].tag != versions'[j].tag
    {
      assert versions'[i] == t.versions[i];
      if j < |t.versions| { assert versions'[j] == t.versions[j]; }
    }
    assert forall i :: 0 <= i < |t.versions| ==> versions'[i] == t.versions[i];
  }

  /**
   * UpsertRepo's statement: insert a repos row, or, when the name exists, overwrite
   * only tag, last_sync, commit_hash, zip_file, size and updated_at.
   */
  function UpsertRepoRows(t: Tables, repo: DBRepo, now: Time): (w: Written)
    requires Valid(t)
    ensures Valid(w.tables)
    ensures w.tables.versions == t.versions && w.tables.lastVersionId == t.lastVersionId
    ensures match FindRepo(t.repos, repo.name)
      case Some(prev) =>
        && w.id == prev.id
        && |w.tables.repos| == |t.repos|
        && FindRepo(w.tables.repos, repo.name) == Some(prev.(tag := repo.tag, lastSync := repo.lastSync,
             commitHash := repo.commitHash, zipFile := repo.zipFile, size := repo.size, updatedAt := now))
      case None =>
        && w.id == t.lastRepoId + 1
        && (forall r :: r in t.repos ==> r.id < w.id)
        && |w.tables.repos| == |t.repos| + 1
        && FindRepo(w.tables.repos, repo.name) == Some(DBRepo(w.id, repo.name, repo.url, repo.tag, repo.lastSync,
             repo.commitHash, repo.zipFile, repo.size, CurrentTimestamp(now), now))
    ensures forall r: DBRepo :: r.name != repo.name ==> (r in w.tables.repos <==> r in t.repos)
  {
    var k := IndexOfName(t.repos, repo.name);
    if k >= 0 then
      var prev := t.repos[k];
      var row := prev.(tag := repo.tag, lastSync := repo.lastSync, commitHash := repo.commitHash,
                       zipFile := repo.zipFile, size := repo.size, updatedAt := now);
      ReplaceRepoKeepsValid(t, k, row);
      FindRepoUnique(t.repos[k := row], k);
      Written(t.(repos := t.repos[k := row]), prev.id)
    else
      var id := t.lastRepoId + 1;
      var row := DBRepo(id, repo.name, repo.url, repo.tag, repo.lastSync, repo.commitHash, repo.zipFile,
                        repo.size, CurrentTimestamp(now), now);
      AppendRepoKeepsValid(t, row);
      FindRepoUnique(t.repos + [row], |t.repos|);
      Written(t.(repos := t.repos + [row], lastRepoId := id), id)
  }

  /**
   * AddVersion's statement: insert a versions row (created_at and deleted take
   * their defaults; the caller's CreatedAt is not used), or, when (repo_id, tag)
   * exists, overwrite only commit_hash, zip_file and size.
   */
  function AddVersionRows(t: Tables, v: DBVersion, now: Time): (w: Written)
    requires Valid(t)
    ensures Valid(w.tables)
    ensures w.tables.repos == t.repos && w.tables.lastRepoId == t.lastRepoId
    ensures match FindVersion(t.versions, v.repoId, v.tag)
      case Some(prev) =>
        && w.id == prev.id
        && |w.tables.versions| == |t.versions|
        && FindVersion(w.tables.versions, v.repoId, v.tag)
             == Some(prev.(commitHash := v.commitHash, zipFile := v.zipFile, size := v.size))
      case None =>
        && w.id == t.lastVersionId + 1
        && (forall r :: r in t.versions ==> r.id < w.id)
        && |w.tables.versions| == |t.versions| + 1
        && FindVersion(w.tables.versions, v.repoId, v.tag) == Some(DBVersion(w.id, v.repoId, v.tag, v.commitHash,
             v.zipFile, v.size, CurrentTimestamp(now), DefaultDeleted))
    ensures forall r: DBVersion :: (r.repoId != v.repoId || r.tag != v.tag) ==> (r in w.tables.versions <==> r in t.versions)
  {
    var k := IndexOfRepoTag(t.versions, v.repoId, v.tag);
    if k >= 0 then
      var prev := t.versions[k];
      var row := prev.(commitHash := v.commitHash, zipFile := v.zipFile, size := v.size);
      ReplaceVersionKeepsValid(t, k, row);
      FindVersionUnique(t.versions[k := row], k);
      Written(t.(versions := t.versions[k := row]), prev.id)
    else
      var id := t.lastVersionId + 1;
      var row := DBVersion(id, v.repoId, v.tag, v.commitHash, v.zipFile, v.size, CurrentTimestamp(now), DefaultDeleted);
      AppendVersionKeepsValid(t, row);
      FindVersionUnique(t.versions + [row], |t.versions|);
      Written(t.(versions := t.versions + [row], lastVersionId := id), id)
  }

  /**
   * Packaging a tag again whose row retention already marked deleted leaves the
   * row deleted and with its old created_at: the conflict update touches neither,
   * so no undeleted row of the repo carries that tag afterwards.
   */
  lemma RepackagedRetiredTagStaysRetired(t: Tables, v: DBVersion, now: Time)
    requires Valid(t)
    requires FindVersion(t.versions, v.repoId, v.tag).Some? && FindVersion(t.versions, v.repoId, v.tag).value.deleted == 1
    ensures var prev := FindVersion(t.versions, v.repoId, v.tag).value;
      var after := AddVersionRows(t, v, now).tables.versions;
      && FindVersion(after, v.repoId, v.tag).Some?
      && FindVersion(after, v.repoId, v.tag).value.deleted == 1
      && FindVersion(after, v.repoId, v.tag).value.createdAt == prev.createdAt
      && (forall r :: r in UndeletedOfRepo(after, v.repoId) ==> r.tag != v.tag)
  {
    var after := AddVersionRows(t, v, now).tables.versions;
    forall r | r in UndeletedOfRepo(after, v.repoId) ensures r.tag != v.tag {
      var i :| 0 <= i < |after| && after[i] == r;
      FindVersionUnique(after, i);
    }
  }

  /** One row under `UPDATE versions SET deleted = 1 WHERE id = ?`. */
  function MarkRow(v: DBVersion, id: int): DBVersion {
    if v.id == id then v.(deleted := 1) else v
  }

  /** `UPDATE versions SET deleted = 1 WHERE id = ?` over the whole table. */
  function MarkDeletedRows(versions: seq<DBVersion>, id: int): (r: seq<DBVersion>)
    ensures |r| == |versions|
  {
    if versions == [] then [] else [MarkRow(versions[0], id)] + MarkDeletedRows(versions[1..], id)
  }

  lemma {:induction false} MarkDeletedRowsAt(versions: seq<DBVersion>, id: int, i: int)
    requires 0 <= i < |versions|
    ensures MarkDeletedRows(versions, id)[i] == MarkRow(versions[i], id)
  {
    if i > 0 {
      MarkDeletedRowsAt(versions[1..], id, i - 1);
    }
  }

  /** The mark sets deleted = 1 on the row with that id and changes nothing else. */
  lemma MarkDeletedChangesOnlyThatRow(versions: seq<DBVersion>, id: int)
    ensures var r := MarkDeletedRows(versions, id);
      forall i :: 0 <= i < |versions| ==>
        if versions[i].id == id then r[i] == versions[i].(deleted := 1) else r[i] == versions[i]
  {
    forall i | 0 <= i < |versions| {
      MarkDeletedRowsAt(versions, id, i);
    }
  }

  /** Marking twice is marking once. */
  lemma {:induction false} MarkDeletedIdempotent(versions: seq<DBVersion>, id: int)
    ensures MarkDeletedRows(MarkDeletedRows(versions, id), id) == MarkDeletedRows(versions, id)
  {
    if versions != [] {
      MarkDeletedIdempotent(versions[1..], id);
      assert MarkDeletedRows(versions, id)[1..] == MarkDeletedRows(versions[1..], id);
    }
  }

  /** An id no row has leaves the table as it was. */
  lemma {:induction false} MarkDeletedUnknownId(versions: seq<DBVersion>, id: int)
    requires forall i :: 0 <= i < |versions| ==> versions[i].id != id
    ensures MarkDeletedRows(versions, id) == versions
  {
    if versions != [] {
      MarkDeletedUnknownId(versions[1..], id);
      assert versions == [versions[0]] + versions[1..];
    }
  }

  lemma MarkDeletedKeepsValid(t: Tables, id: int)
    requires Valid(t)
    ensures Valid(t.(versions := MarkDeletedRows(t.versions, id)))
  {
    MarkDeletedChangesOnlyThatRow(t.versions, id);
  }

  // ---------------------------------------------------------------- ordered selections

  /** `ORDER BY created_at DESC`; rows created in the same second keep id order. */
  predicate NewerFirst(a: DBVersion, b: DBVersion) {
    a.createdAt > b.createdAt || (a.createdAt == b.createdAt && a.id <= b.id)
  }

  /** `ORDER BY name` under the BINARY collation. */
  predicate NameFirst(a: DBRepo, b: DBRepo) {
    Ordering.LexLe(a.name, b.name)
  }

  lemma NewerFirstIsTotalOrder()
    ensures Ordering.Total(NewerFirst) && Ordering.Transitive(NewerFirst)
  {
  }

  lemma NameFirstIsTotalOrder()
    ensures Ordering.Total(NameFirst) && Ordering.Transitive(NameFirst)
  {
    forall a, b ensures NameFirst(a, b) || NameFirst(b, a) {
      Ordering.LexLeTotal(a.name, b.name);
    }
    forall a, b, c | NameFirst(a, b) && NameFirst(b, c) ensures NameFirst(a, c) {
      Ordering.LexLeTransitive(a.name, b.name, c.name);
    }
  }

  /** `WHERE repo_id = ?`, in table order. */
  function OfRepo(versions: seq<DBVersion>, repoId: int): (r: seq<DBVersion>)
    ensures forall v :: v in r <==> v in versions && v.repoId == repoId
  {
    if versions == [] then []
    else (if versions[0].repoId == repoId then [versions[0]] else []) + OfRepo(versions[1..], repoId)
  }

  /** `WHERE repo_id = ? AND deleted = 0`, in table order. */
  function UndeletedOfRepo(versions: seq<DBVersion>, repoId: int): (r: seq<DBVersion>)
    ensures forall v :: v in r <==> v in versions && v.repoId == repoId && v.deleted == 0
  {
    if versions == [] then []
    else
      (if versions[0].repoId == repoId && versions[0].deleted == 0 then [versions[0]] else [])
      + UndeletedOfRepo(versions[1..], repoId)
  }

  function NewestFirst(rows: seq<DBVersion>): seq<DBVersion> {
    Ordering.SortBy(rows, NewerFirst)
  }

  /** GetVersionsByRepoID's query: that repo's rows, newest first, cut to `limit` when limit > 0. */
  function SelectVersions(versions: seq<DBVersion>, repoId: int, limit: int): seq<DBVersion> {
    var rows := NewestFirst(OfRepo(versions, repoId));
    if limit > 0 && limit < |rows| then rows[..limit] else rows
  }

  /** GetOlderThan3LatestUnDeletedVersions: the repo's undeleted rows, newest first, past the first three. */
  function RetirementCandidates(versions: seq<DBVersion>, repoId: int): seq<DBVersion> {
    var rows := NewestFirst(UndeletedOfRepo(versions, repoId));
    if |rows| <= 3 then [] else rows[3..]
  }

  /** GetAllRepos's query. */
  function ReposByName(repos: seq<DBRepo>): seq<DBRepo> {
    Ordering.SortBy(repos, NameFirst)
  }

  lemma NewestFirstSorted(rows: seq<DBVersion>)
    ensures Ordering.SortedBy(NewestFirst(rows), NewerFirst)
    ensures multiset(NewestFirst(rows)) == multiset(rows)
  {
    NewerFirstIsTotalOrder();
    Ordering.SortBySorted(rows, NewerFirst);
  }

  /**
   * GetVersionsByRepoID returns only that repo's rows (deleted ones included),
   * newest created_at first, at most `limit` of them when limit > 0 and all of
   * them otherwise.
   */
  lemma SelectVersionsMeaning(versions: seq<DBVersion>, repoId: int, limit: int)
    ensures var r := SelectVersions(versions, repoId, limit);
      && (forall v :: v in r ==> v in versions && v.repoId == repoId)
      && (forall i, j :: 0 <= i < j < |r| ==> r[i].createdAt >= r[j].createdAt)
      && |r| == (if limit > 0 && limit < |OfRepo(versions, repoId)| then limit else |OfRepo(versions, repoId)|)
      && (limit <= 0 ==> forall v :: v in versions && v.repoId == repoId ==> v in r)
  {
    var rows := NewestFirst(OfRepo(versions, repoId));
    NewestFirstSorted(OfRepo(versions, repoId));
    Ordering.MultisetMembers(rows, OfRepo(versions, repoId));
    var r := SelectVersions(versions, repoId, limit);
    assert forall v :: v in r ==> v in rows;
    forall i, j | 0 <= i < j < |r| ensures r[i].createdAt >= r[j].createdAt {
      assert r[i] == rows[i] && r[j] == rows[j];
      assert NewerFirst(rows[i], rows[j]);
    }
  }

  /**
   * The retirement candidates are undeleted rows of the repo, newest first, and
   * there are max(0, n - 3) of them for n undeleted rows.
   */
  lemma RetirementCandidatesMeaning(versions: seq<DBVersion>, repoId: int)
    ensures var c := RetirementCandidates(versions, repoId);
      var n := |UndeletedOfRepo(versions, repoId)|;
      && |c| == (if n <= 3 then 0 else n - 3)
      && (forall v :: v in c ==> v in versions && v.repoId == repoId && v.deleted == 0)
      && (forall i, j :: 0 <= i < j < |c| ==> c[i].createdAt >= c[j].createdAt)
  {
    var rows := NewestFirst(UndeletedOfRepo(versions, repoId));
    NewestFirstSorted(UndeletedOfRepo(versions, repoId));
    Ordering.MultisetMembers(rows, UndeletedOfRepo(versions, repoId));
    var c := RetirementCandidates(versions, repoId);
    forall i, j | 0 <= i < j < |c| ensures c[i].createdAt >= c[j].createdAt {
      assert c[i] == rows[i + 3] && c[j] == rows[j + 3];
      assert NewerFirst(rows[i + 3], rows[j + 3]);
    }
  }

  /** A prefix of a newest-first listing: part of it, and no row left out is newer than a row kept. */
  lemma NewestPrefix(rows: seq<DBVersion>, k: int)
    requires Ordering.SortedBy(rows, NewerFirst) && 0 <= k <= |rows|
    ensures multiset(rows[..k]) <= multiset(rows)
    ensures forall v, w :: v in rows && v !in rows[..k] && w in rows[..k] ==> v.createdAt <= w.createdAt
  {
    assert rows == rows[..k] + rows[k..];
    forall v, w | v in rows && v !in rows[..k] && w in rows[..k] ensures v.createdAt <= w.createdAt {
      assert v in rows[k..];
      var j :| 0 <= j < |rows| - k && rows[k..][j] == v;
      var i :| 0 <= i < k && rows[..k][i] == w;
      assert NewerFirst(rows[i], rows[k + j]);
    }
  }

  /** A suffix of a newest-first listing: part of it, and no row in it is newer than a row before it. */
  lemma NewestSuffix(rows: seq<DBVersion>, k: int)
    requires Ordering.SortedBy(rows, NewerFirst) && 0 <= k <= |rows|
    ensures multiset(rows[k..]) <= multiset(rows)
    ensures forall v, w :: v in rows && v !in rows[k..] && w in rows[k..] ==> w.createdAt <= v.createdAt
  {
    assert rows == rows[..k] + rows[k..];
    forall v, w | v in rows && v !in rows[k..] && w in rows[k..] ensures w.createdAt <= v.createdAt {
      assert v in rows[..k];
      var i :| 0 <= i < k && rows[..k][i] == v;
      var j :| 0 <= j < |rows| - k && rows[k..][j] == w;
      assert NewerFirst(rows[i], rows[k + j]);
    }
  }

  /**
   * GetVersionsByRepoID's rows are the repo's newest: each row occurs in the
   * repo's rows at least as often as in the result, and no row of the repo
   * left out is newer than a row returned.
   */
  lemma SelectVersionsNewest(versions: seq<DBVersion>, repoId: int, limit: int)
    ensures var r := SelectVersions(versions, repoId, limit);
      && multiset(r) <= multiset(OfRepo(versions, repoId))
      && (forall v, w :: v in versions && v.repoId == repoId && v !in r && w in r ==> v.createdAt <= w.createdAt)
  {
    var rows := NewestFirst(OfRepo(versions, repoId));
    NewestFirstSorted(OfRepo(versions, repoId));
    Ordering.MultisetMembers(rows, OfRepo(versions, repoId));
    var k := if limit > 0 && limit < |rows| then limit else |rows|;
    NewestPrefix(rows, k);
    assert rows[..|rows|] == rows;
    assert SelectVersions(versions, repoId, limit) == rows[..k];
  }

  /**
   * The retirement candidates are the repo's oldest undeleted rows: part of
   * them, and none is newer than an undeleted row that is kept.
   */
  lemma RetirementCandidatesOldest(versions: seq<DBVersion>, repoId: int)
    ensures var c := RetirementCandidates(versions, repoId);
      && multiset(c) <= multiset(UndeletedOfRepo(versions, repoId))
      && (forall v, w :: v in versions && v.repoId == repoId && v.deleted == 0 && v !in c && w in c
            ==> w.createdAt <= v.createdAt)
  {
    var rows := NewestFirst(UndeletedOfRepo(versions, repoId));
    NewestFirstSorted(UndeletedOfRepo(versions, repoId));
    Ordering.MultisetMembers(rows, UndeletedOfRepo(versions, repoId));
    var k := if |rows| <= 3 then |rows| else 3;
    NewestSuffix(rows, k);
    assert rows[|rows|..] == [];
    assert RetirementCandidates(versions, repoId) == rows[k..];
  }

  /** GetAllRepos returns every repos row exactly once, in strictly ascending name order. */
  lemma ReposByNameMeaning(t: Tables)
    requires Valid(t)
    ensures var r := ReposByName(t.repos);
      && multiset(r) == multiset(t.repos)
      && (forall i, j :: 0 <= i < j < |r| ==> Ordering.LexLe(r[i].name, r[j].name) && r[i].name != r[j].name)
  {
    var r := ReposByName(t.repos);
    NameFirstIsTotalOrder();
    Ordering.SortBySorted(t.repos, NameFirst);
    assert Ordering.NoDuplicates(t.repos);
    Ordering.NoDuplicatesPermutation(t.repos, r);
    Ordering.MultisetMembers(r, t.repos);
    forall i, j | 0 <= i < j < |r| ensures Ordering.LexLe(r[i].name, r[j].name) && r[i].name != r[j].name {
      assert NameFirst(r[i], r[j]);
      assert r[i] in t.repos && r[j] in t.repos;
      var a :| 0 <= a < |t.repos| && t.repos[a] == r[i];
      var b :| 0 <= b < |t.repos| && t.repos[b] == r[j];
      assert a != b;
    }
  }

  // ---------------------------------------------------------------- the store object

  class SQLiteStore {
    var db: Tables
    /** The queries the SQL engine currently answers with an error. */
    var failing: set<Query>

    constructor (failing: set<Query>)
      ensures db == EmptyTables && this.failing == failing
    {
      db := EmptyTables;
      this.failing := failing;
    }

    /** Upserts by name; `written` is the caller's record with UpdatedAt and, on success, ID written back. */
    method UpsertRepo(repo: DBRepo, now: Time) returns (err: Option<StoreError>, written: DBRepo)
      requires Valid(db)
      modifies this
      ensures Valid(db) && failing == old(failing)
      ensures UpsertRepoQ in failing ==>
        err == Some(QueryFailed(UpsertRepoQ)) && db == old(db) && written == repo.(updatedAt := now)
      ensures UpsertRepoQ !in failing ==>
        var w := UpsertRepoRows(old(db), repo, now);
        err == None && db == w.tables && written == repo.(id := w.id, updatedAt := now)
    {
      written := repo.(updatedAt := now);
      if UpsertRepoQ in failing {
        err := Some(QueryFailed(UpsertRepoQ));
        return;
      }
      var w := UpsertRepoRows(db, written, now);
      db := w.tables;
      written := written.(id := w.id);
      err := None;
    }

    /** Adds or updates by (repo_id, tag); `written` carries the row id on success. */
    method AddVersion(version: DBVersion, now: Time) returns (err: Option<StoreError>, written: DBVersion)
      requires Valid(db)
      modifies this
      ensures Valid(db) && failing == old(failing)
      ensures AddVersionQ in failing ==> err == Some(QueryFailed(AddVersionQ)) && db == old(db) && written == version
      ensures AddVersionQ !in failing ==>
        var w := AddVersionRows(old(db), version, now);
        err == None && db == w.tables && written == version.(id := w.id)
    {
      written := version;
      if AddVersionQ in failing {
        err := Some(QueryFailed(AddVersionQ));
        return;
      }
      var w := AddVersionRows(db, version, now);
      db := w.tables;
      written := version.(id := w.id);
      err := None;
    }

    /** An unknown name is `Ok(None)`, not an error. */
    method GetRepoByName(name: string) returns (r: Result<Option<DBRepo>, StoreError>)
      ensures GetRepoByNameQ in failing ==> r == Err(QueryFailed(GetRepoByNameQ))
      ensures GetRepoByNameQ !in failing ==> r == Ok(FindRepo(db.repos, name))
    {
      if GetRepoByNameQ in failing {
        return Err(QueryFailed(GetRepoByNameQ));
      }
      r := Ok(FindRepo(db.repos, name));
    }

    method GetVersionsByRepoID(repoId: int, limit: int) returns (r: Result<seq<DBVersion>, StoreError>)
      ensures GetVersionsQ(repoId) in failing ==> r == Err(QueryFailed(GetVersionsQ(repoId)))
      ensures GetVersionsQ(repoId) !in failing ==> r == Ok(SelectVersions(db.versions, repoId, limit))
    {
      if GetVersionsQ(repoId) in failing {
        return Err(QueryFailed(GetVersionsQ(repoId)));
      }
      var rows := SelectVersions(db.versions, repoId, limit);
      var versions: seq<DBVersion> := [];
      for i := 0 to |rows|
        invariant versions == rows[..i]
      {
        versions := versions + [rows[i]];
      }
      assert rows[..|rows|] == rows;
      r := Ok(versions);
    }

    method GetAllRepos() returns (r: Result<seq<DBRepo>, StoreError>)
      ensures GetAllReposQ in failing ==> r == Err(QueryFailed(GetAllReposQ))
      ensures GetAllReposQ !in failing ==> r == Ok(ReposByName(db.repos))
    {
      if GetAllReposQ in failing {
        return Err(QueryFailed(GetAllReposQ));
      }
      var rows := ReposByName(db.repos);
      var repos: seq<DBRepo> := [];
      for i := 0 to |rows|
        invariant repos == rows[..i]
      {
        repos := repos + [rows[i]];
      }
      assert rows[..|rows|] == rows;
      r := Ok(repos);
    }

    /** Scans the undeleted rows newest first and keeps those after the first three. */
    method GetOlderThan3LatestUnDeletedVersions(repoId: int) returns (r: Result<seq<DBVersion>, StoreError>)
      ensures OlderThan3Q in failing ==> r == Err(QueryFailed(OlderThan3Q))
      ensures OlderThan3Q !in failing ==> r == Ok(RetirementCandidates(db.versions, repoId))
    {
      if OlderThan3Q in failing {
        return Err(QueryFailed(OlderThan3Q));
      }
      var rows := NewestFirst(UndeletedOfRepo(db.versions, repoId));
      var versions: seq<DBVersion> := [];
      var skip := 0;
      for i := 0 to |rows|
        invariant skip == i
        invariant versions == if i <= 3 then [] else rows[3..i]
      {
        skip := skip + 1;
        if skip <= 3 {
          continue;
        }
        versions := versions + [rows[i]];
      }
      assert |rows| > 3 ==> rows[3..|rows|] == rows[3..];
      r := Ok(versions);
    }

    method MarkVersionAsDeleted(versionId: int) returns (err: Option<StoreError>)
      requires Valid(db)
      modifies this
      ensures Valid(db) && failing == old(failing)
      ensures MarkDeletedQ(versionId) in failing ==> err == Some(QueryFailed(MarkDeletedQ(versionId))) && db == old(db)
      ensures MarkDeletedQ(versionId) !in failing ==>
        err == None && db == old(db).(versions := MarkDeletedRows(old(db).versions, versionId))
    {
      if MarkDeletedQ(versionId) in failing {
        return Some(QueryFailed(MarkDeletedQ(versionId)));
      }
      MarkDeletedKeepsValid(db, versionId);
      db := db.(versions := MarkDeletedRows(db.versions, versionId));
      err := None;
    }
  }
}
