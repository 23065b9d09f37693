/**
 * The catalogue API (internal/handler/api.go): a cache of the package list, the
 * per-package records and the catalogue version, rebuilt from the store by
 * UpdateCache, and the read handlers that answer from that cache (or, for the
 * latest-download redirect, from the store directly).
 */
module Api {
  import opened Wrappers
  import opened Model
  import opened Store
  import Ordering
  import Http

  /** The catalogue version as served: the counter and its update time in Unix seconds. */
  datatype VersionResponse = VersionResponse(version: int, updatedAt: int)

  /** What the handlers serve as JSON. */
  datatype Payload = PackageList(packages: seq<PackageInfo>) | Package(info: PackageInfo) | ListVersion(v: VersionResponse)

  type Reply = Http.Reply<Payload>

  /** The three cache slots; `None` is a slot that was never filled. */
  datatype Cache = Cache(
    packages: Option<seq<PackageInfo>>,
    version: Option<VersionResponse>,
    packageInfo: map<string, PackageInfo>)

  const Uninitialised: Cache := Cache(None, None, map[])

  datatype CacheError = ReposFailed(cause: StoreError) | ListVersionFailed

  // ---------------------------------------------------------------- download URLs

  function DownloadURL(baseUrl: string, file: string): (url: string)
    ensures |url| == |baseUrl| + 6 + |file|
  {
    baseUrl + "/zips/" + file
  }

  /** The file a download URL under `baseUrl` names, if it is one. */
  function FileOfDownloadURL(baseUrl: string, url: string): Option<string> {
    var prefix := baseUrl + "/zips/";
    if prefix <= url then Some(url[|prefix|..]) else None
  }

  lemma DownloadURLRoundTrip(baseUrl: string, file: string)
    ensures FileOfDownloadURL(baseUrl, DownloadURL(baseUrl, file)) == Some(file)
  {
    var prefix := baseUrl + "/zips/";
    assert DownloadURL(baseUrl, file) == prefix + file;
    assert (prefix + file)[|prefix|..] == file;
  }

  lemma FileOfDownloadURLInverts(baseUrl: string, url: string)
    ensures FileOfDownloadURL(baseUrl, url).Some? ==> DownloadURL(baseUrl, FileOfDownloadURL(baseUrl, url).value) == url
  {
    var prefix := baseUrl + "/zips/";
    if prefix <= url {
      assert url == prefix + url[|prefix|..];
    }
  }

  /** Distinct files have distinct download URLs. */
  lemma DownloadURLInjective(baseUrl: string, a: string, b: string)
    ensures DownloadURL(baseUrl, a) == DownloadURL(baseUrl, b) ==> a == b
  {
    DownloadURLRoundTrip(baseUrl, a);
    DownloadURLRoundTrip(baseUrl, b);
  }

  // ---------------------------------------------------------------- the cache projection

  /** A versions row as a package version entry. */
  function VersionView(baseUrl: string, v: DBVersion): Version {
    Version(v.zipFile, v.size, v.tag, v.commitHash, DownloadURL(baseUrl, v.zipFile), Unix(v.createdAt))
  }

  function VersionViews(baseUrl: string, rows: seq<DBVersion>): (r: seq<Version>)
    ensures |r| == |rows|
    ensures forall i :: 0 <= i < |rows| ==> r[i] == VersionView(baseUrl, rows[i])
  {
    if rows == [] then []
    else VersionViews(baseUrl, rows[..|rows| - 1]) + [VersionView(baseUrl, rows[|rows| - 1])]
  }

  /** The package record UpdateCache builds for a repo: its three newest version rows. */
  function PackageView(baseUrl: string, versions: seq<DBVersion>, repo: DBRepo): PackageInfo {
    PackageInfo(repo.name, repo.url, VersionViews(baseUrl, SelectVersions(versions, repo.id, 3)))
  }

  /** A repo whose version lookup succeeds; the others are skipped. */
  predicate Listed(failing: set<Query>, repo: DBRepo) {
    GetVersionsQ(repo.id) !in failing
  }

  /** The repos whose version lookup succeeds, as a function value. */
  function ListedBy(failing: set<Query>): DBRepo -> bool {
    r => Listed(failing, r)
  }

  /** The package record of a repo, as a function value. */
  function ViewOf(baseUrl: string, versions: seq<DBVersion>): DBRepo -> PackageInfo {
    r => PackageView(baseUrl, versions, r)
  }

  function NameOf(r: DBRepo): string {
    r.name
  }

  /** The images under `f` of the elements of `s` that `keep` accepts, in the order of `s`. */
  function FilterMap<A, B>(s: seq<A>, keep: A -> bool, f: A -> B): (r: seq<B>)
    ensures |r| <= |s|
  {
    if s == [] then []
    else
      var n := |s| - 1;
      var rest := FilterMap(s[..n], keep, f);
      if keep(s[n]) then rest + [f(s[n])] else rest
  }

  /** `m` after writing `key(x) := f(x)` for each accepted element `x` of `s`, in order. */
  function PutEach<A, V>(s: seq<A>, keep: A -> bool, key: A -> string, f: A -> V, m: map<string, V>): map<string, V> {
    if s == [] then m
    else
      var n := |s| - 1;
      var m' := PutEach(s[..n], keep, key, f, m);
      if keep(s[n]) then m'[key(s[n]) := f(s[n])] else m'
  }

  /** The package list built from `repos`, in their order, skipping unlisted repos. */
  function Views(baseUrl: string, db: Tables, failing: set<Query>, repos: seq<DBRepo>): (r: seq<PackageInfo>)
    ensures |r| <= |repos|
  {
    FilterMap(repos, ListedBy(failing), ViewOf(baseUrl, db.versions))
  }

  /** The packageInfo map after writing the records of the listed repos into `info`, in order. */
  function Cached(baseUrl: string, db: Tables, failing: set<Query>, repos: seq<DBRepo>, info: map<string, PackageInfo>)
    : map<string, PackageInfo>
  {
    PutEach(repos, ListedBy(failing), NameOf, ViewOf(baseUrl, db.versions), info)
  }

  datatype Rebuilt = Rebuilt(cache: Cache, err: Option<CacheError>)

  /**
   * UpdateCache on a cache `c`, a store and the catalogue-version lookup's
   * outcome `latest` (None when it fails).
   */
  function Rebuild(baseUrl: string, db: Tables, failing: set<Query>, latest: Option<DBPackageListVersion>, c: Cache)
    : (r: Rebuilt)
    ensures GetAllReposQ in failing ==> r.cache == c && r.err == Some(ReposFailed(QueryFailed(GetAllReposQ)))
    ensures GetAllReposQ !in failing ==> r.cache.packages.Some? && (r.err.None? <==> latest.Some?)
    ensures GetAllReposQ !in failing && latest.None? ==> r.cache.version == c.version && r.err == Some(ListVersionFailed)
    ensures GetAllReposQ !in failing && latest.Some? ==>
      r.cache.version == Some(VersionResponse(latest.value.version, Unix(latest.value.updatedAt)))
  {
    if GetAllReposQ in failing then Rebuilt(c, Some(ReposFailed(QueryFailed(GetAllReposQ))))
    else
      var repos := ReposByName(db.repos);
      var c1 := c.(packages := Some(Views(baseUrl, db, failing, repos)),
                   packageInfo := Cached(baseUrl, db, failing, repos, c.packageInfo));
      match latest
      case None => Rebuilt(c1, Some(ListVersionFailed))
      case Some(row) => Rebuilt(c1.(version := Some(VersionResponse(row.version, Unix(row.updatedAt)))), None)
  }

  // ---------------------------------------------------------------- the read handlers

  function ListPackages(c: Cache): (r: Reply)
    ensures r.status == Http.StatusInternalServerError <==> c.packages.None?
    ensures c.packages.None? ==> r.body == Http.Text("Cache not initialized\n")
    ensures c.packages.Some? ==>
      r.status == Http.StatusOK && r.body == Http.Payload(PackageList(c.packages.value))
      && "Content-Type" in r.headers && r.headers["Content-Type"] == Http.ApplicationJson
  {
    if c.packages.None? then Http.Error(map[], "Cache not initialized", Http.StatusInternalServerError)
    else Http.Json(map[], PackageList(c.packages.value))
  }

  function GetPackageVersions(c: Cache, name: string): (r: Reply)
    ensures r.status == Http.StatusBadRequest <==> name == ""
    ensures name == "" ==> r.body == Http.Text("package name is required\n")
    ensures r.status == Http.StatusOK <==> name != "" && name in c.packageInfo
    ensures r.status == Http.StatusOK ==>
      r.body == Http.Payload(Package(c.packageInfo[name])) && "Content-Type" in r.headers && r.headers["Content-Type"] == Http.ApplicationJson
    ensures r.status == Http.StatusNotFound <==> name != "" && name !in c.packageInfo
    ensures r.status == Http.StatusNotFound ==> r.body == Http.Text("package not found\n")
  {
    if name == "" then Http.Error(map[], "package name is required", Http.StatusBadRequest)
    else if name in c.packageInfo then Http.Json(map[], Package(c.packageInfo[name]))
    else Http.Error(map[], "package not found", Http.StatusNotFound)
  }

  function GetPackageListVersion(c: Cache): (r: Reply)
    ensures r.status == Http.StatusInternalServerError <==> c.version.None?
    ensures c.version.None? ==> r.body == Http.Text("Cache not initialized\n")
    ensures c.version.Some? ==>
      r.status == Http.StatusOK && r.body == Http.Payload(ListVersion(c.version.value))
      && "Content-Type" in r.headers && r.headers["Content-Type"] == Http.ApplicationJson
  {
    if c.version.None? then Http.Error(map[], "Cache not initialized", Http.StatusInternalServerError)
    else Http.Json(map[], ListVersion(c.version.value))
  }

  /** getLatestPackage: answered from the store, not from the cache. */
  function GetLatestPackage(baseUrl: string, db: Tables, failing: set<Query>, name: string): (r: Reply)
    ensures r.status == Http.StatusBadRequest <==> name == ""
    ensures r.status == Http.StatusInternalServerError <==>
      name != "" && (GetRepoByNameQ in failing
        || (FindRepo(db.repos, name).Some? && GetVersionsQ(FindRepo(db.repos, name).value.id) in failing))
    ensures r.status == Http.StatusNotFound <==>
      name != "" && GetRepoByNameQ !in failing
      && (FindRepo(db.repos, name).None?
        || (GetVersionsQ(FindRepo(db.repos, name).value.id) !in failing
          && OfRepo(db.versions, FindRepo(db.repos, name).value.id) == []))
    ensures r.status == Http.StatusNotFound ==>
      r.body == Http.Text(if FindRepo(db.repos, name).None? then "package not found\n" else "no versions found\n")
    ensures r.status in {Http.StatusBadRequest, Http.StatusNotFound, Http.StatusInternalServerError, Http.StatusFound}
  {
    if name == "" then Http.Error(map[], "package name is required", Http.StatusBadRequest)
    else if GetRepoByNameQ in failing then Http.Error(map[], "Internal Server Error", Http.StatusInternalServerError)
    else match FindRepo(db.repos, name)
      case None => Http.Error(map[], "package not found", Http.StatusNotFound)
      case Some(repo) =>
        if GetVersionsQ(repo.id) in failing then Http.Error(map[], "Internal Server Error", Http.StatusInternalServerError)
        else
          var rows := SelectVersions(db.versions, repo.id, 3);
          SelectVersionsMeaning(db.versions, repo.id, 3);
          if |rows| == 0 then Http.Error(map[], "no versions found", Http.StatusNotFound)
          else Http.Redirect(map[], DownloadURL(baseUrl, rows[0].zipFile))
  }

  // ---------------------------------------------------------------- properties of the projection

  predicate NamesAscending(repos: seq<DBRepo>) {
    forall i, j :: 0 <= i < j < |repos| ==> Ordering.LexLe(repos[i].name, repos[j].name) && repos[i].name != repos[j].name
  }

  predicate PackagesAscending(packages: seq<PackageInfo>) {
    forall i, j :: 0 <= i < j < |packages| ==>
      Ordering.LexLe(packages[i].name, packages[j].name) && packages[i].name != packages[j].name
  }

  lemma UnixMonotone(a: Time, b: Time)
    requires a <= b
    ensures Unix(a) <= Unix(b)
  {
  }

  /**
   * A package record carries the repo's name and URL and at most three of its
   * version rows, newest first, each with its download URL and its creation
   * time in Unix seconds.
   */
  lemma PackageViewMeaning(baseUrl: string, versions: seq<DBVersion>, repo: DBRepo)
    ensures var p := PackageView(baseUrl, versions, repo);
      var n := |OfRepo(versions, repo.id)|;
      && p.name == repo.name && p.url == repo.url
      && |p.versions| == (if n < 3 then n else 3)
      && (forall i :: 0 <= i < |p.versions| ==>
            exists v :: v in versions && v.repoId == repo.id && p.versions[i] == VersionView(baseUrl, v))
      && (forall i :: 0 <= i < |p.versions| ==> p.versions[i].download == DownloadURL(baseUrl, p.versions[i].file))
      && (forall i, j :: 0 <= i < j < |p.versions| ==> p.versions[i].updatedAt >= p.versions[j].updatedAt)
  {
    var rows := SelectVersions(versions, repo.id, 3);
    SelectVersionsMeaning(versions, repo.id, 3);
    var p := PackageView(baseUrl, versions, repo);
    forall i | 0 <= i < |p.versions|
      ensures exists v :: v in versions && v.repoId == repo.id && p.versions[i] == VersionView(baseUrl, v)
    {
      assert rows[i] in rows;
    }
    assert p.versions == VersionViews(baseUrl, rows);
    forall i, j | 0 <= i < j < |p.versions| ensures p.versions[i].updatedAt >= p.versions[j].updatedAt {
      assert rows[i].createdAt >= rows[j].createdAt;
      UnixMonotone(rows[j].createdAt, rows[i].createdAt);
      assert p.versions[i] == VersionView(baseUrl, rows[i]) && p.versions[j] == VersionView(baseUrl, rows[j]);
    }
  }

  /**
   * The versions of a package record are the repo's newest rows: they are drawn
   * from the repo's rows without repetition beyond the table's own, and no row
   * of the repo left out is newer than a row shown.
   */
  lemma PackageViewNewest(baseUrl: string, versions: seq<DBVersion>, repo: DBRepo)
    ensures var rows := SelectVersions(versions, repo.id, 3);
      var p := PackageView(baseUrl, versions, repo);
      && |p.versions| == |rows|
      && (forall i :: 0 <= i < |rows| ==> p.versions[i] == VersionView(baseUrl, rows[i]))
      && multiset(rows) <= multiset(OfRepo(versions, repo.id))
      && (forall v, w :: v in versions && v.repoId == repo.id && v !in rows && w in rows ==> v.createdAt <= w.createdAt)
  {
    SelectVersionsNewest(versions, repo.id, 3);
  }

  /** One more repo of the listing: its record is appended and written when it is listed. */
  lemma RebuildStep(baseUrl: string, db: Tables, failing: set<Query>, repos: seq<DBRepo>, i: int,
                    info: map<string, PackageInfo>)
    requires 0 <= i < |repos|
    ensures Views(baseUrl, db, failing, repos[..i + 1]) == if Listed(failing, repos[i])
      then Views(baseUrl, db, failing, repos[..i]) + [PackageView(baseUrl, db.versions, repos[i])]
      else Views(baseUrl, db, failing, repos[..i])
    ensures Cached(baseUrl, db, failing, repos[..i + 1], info) == if Listed(failing, repos[i])
      then Cached(baseUrl, db, failing, repos[..i], info)[repos[i].name := PackageView(baseUrl, db.versions, repos[i])]
      else Cached(baseUrl, db, failing, repos[..i], info)
  {
    assert repos[..i + 1][..i] == repos[..i];
  }

  lemma {:induction false} FilterMapOnly<A, B>(s: seq<A>, keep: A -> bool, f: A -> B)
    ensures forall y :: y in FilterMap(s, keep, f) ==> exists k :: 0 <= k < |s| && keep(s[k]) && y == f(s[k])
  {
    if s != [] {
      var n := |s| - 1;
      var front := s[..n];
      FilterMapOnly(front, keep, f);
      forall y | y in FilterMap(s, keep, f) ensures exists k :: 0 <= k < |s| && keep(s[k]) && y == f(s[k]) {
        if y in FilterMap(front, keep, f) {
          var k :| 0 <= k < n && keep(front[k]) && y == f(front[k]);
          assert front[k] == s[k];
        } else {
          assert keep(s[n]) && y == f(s[n]);
        }
      }
    }
  }

  lemma {:induction false} FilterMapHas<A, B>(s: seq<A>, keep: A -> bool, f: A -> B, k: int)
    requires 0 <= k < |s| && keep(s[k])
    ensures f(s[k]) in FilterMap(s, keep, f)
    decreases |s|
  {
    var n := |s| - 1;
    var front := s[..n];
    if k < n {
      assert front[k] == s[k];
      FilterMapHas(front, keep, f, k);
    }
  }

  /** The package list holds exactly the records of the listed repos. */
  lemma ViewsOnlyListed(baseUrl: string, db: Tables, failing: set<Query>, repos: seq<DBRepo>)
    ensures forall p :: p in Views(baseUrl, db, failing, repos) ==>
      exists k :: 0 <= k < |repos| && Listed(failing, repos[k]) && p == PackageView(baseUrl, db.versions, repos[k])
  {
    FilterMapOnly(repos, ListedBy(failing), ViewOf(baseUrl, db.versions));
  }

  lemma ViewsAllListed(baseUrl: string, db: Tables, failing: set<Query>, repos: seq<DBRepo>)
    ensures forall k :: 0 <= k < |repos| && Listed(failing, repos[k]) ==>
      PackageView(baseUrl, db.versions, repos[k]) in Views(baseUrl, db, failing, repos)
  {
    forall k | 0 <= k < |repos| && Listed(failing, repos[k])
      ensures PackageView(baseUrl, db.versions, repos[k]) in Views(baseUrl, db, failing, repos)
    {
      FilterMapHas(repos, ListedBy(failing), ViewOf(baseUrl, db.versions), k);
    }
  }

  function PackageName(p: PackageInfo): string {
    p.name
  }

  /** Strictly ascending names under `key`. */
  predicate AscendingBy<T>(s: seq<T>, key: T -> string) {
    forall i, j :: 0 <= i < j < |s| ==> Ordering.LexLe(key(s[i]), key(s[j])) && key(s[i]) != key(s[j])
  }

  /** Filtering keeps an order that the images of all elements already have. */
  lemma {:induction false} FilterMapAscending<A, B>(s: seq<A>, keep: A -> bool, f: A -> B, key: B -> string)
    requires forall i, j :: 0 <= i < j < |s| ==> Ordering.LexLe(key(f(s[i])), key(f(s[j]))) && key(f(s[i])) != key(f(s[j]))
    ensures AscendingBy(FilterMap(s, keep, f), key)
  {
    if s != [] {
      var n := |s| - 1;
      var front := s[..n];
      FilterMapAscending(front, keep, f, key);
      if keep(s[n]) {
        var rest := FilterMap(front, keep, f);
        var r := rest + [f(s[n])];
        FilterMapOnly(front, keep, f);
        forall i, j | 0 <= i < j < |r| ensures Ordering.LexLe(key(r[i]), key(r[j])) && key(r[i]) != key(r[j]) {
          assert r[i] == rest[i];
          if j == |rest| {
            assert rest[i] in rest;
            var k :| 0 <= k < n && keep(front[k]) && rest[i] == f(front[k]);
            assert front[k] == s[k];
          } else {
            assert r[j] == rest[j];
          }
        }
      }
    }
  }

  /** Skipping repos keeps the remaining records in the order of `repos`. */
  lemma ViewsKeepOrder(baseUrl: string, db: Tables, failing: set<Query>, repos: seq<DBRepo>)
    requires NamesAscending(repos)
    ensures PackagesAscending(Views(baseUrl, db, failing, repos))
  {
    var f := ViewOf(baseUrl, db.versions);
    forall i, j | 0 <= i < j < |repos|
      ensures Ordering.LexLe(PackageName(f(repos[i])), PackageName(f(repos[j])))
        && PackageName(f(repos[i])) != PackageName(f(repos[j]))
    {
      assert PackageName(f(repos[i])) == repos[i].name && PackageName(f(repos[j])) == repos[j].name;
    }
    FilterMapAscending(repos, ListedBy(failing), f, PackageName);
    var ps := Views(baseUrl, db, failing, repos);
    assert AscendingBy(ps, PackageName);
    forall i, j | 0 <= i < j < |ps| ensures Ordering.LexLe(ps[i].name, ps[j].name) && ps[i].name != ps[j].name {
      assert PackageName(ps[i]) == ps[i].name && PackageName(ps[j]) == ps[j].name;
    }
  }

  lemma {:induction false} PutEachWritten<A, V>(s: seq<A>, keep: A -> bool, key: A -> string, f: A -> V, m: map<string, V>)
    requires forall i, j :: 0 <= i < j < |s| ==> key(s[i]) != key(s[j])
    ensures forall k :: 0 <= k < |s| && keep(s[k]) ==>
      key(s[k]) in PutEach(s, keep, key, f, m) && PutEach(s, keep, key, f, m)[key(s[k])] == f(s[k])
  {
    if s != [] {
      var n := |s| - 1;
      var front := s[..n];
      PutEachWritten(front, keep, key, f, m);
      var m0 := PutEach(front, keep, key, f, m);
      forall k | 0 <= k < n && keep(s[k])
        ensures key(s[k]) in PutEach(s, keep, key, f, m) && PutEach(s, keep, key, f, m)[key(s[k])] == f(s[k])
      {
        assert front[k] == s[k];
        assert key(s[k]) in m0 && m0[key(s[k])] == f(s[k]);
      }
    }
  }

  lemma {:induction false} PutEachKeeps<A, V>(s: seq<A>, keep: A -> bool, key: A -> string, f: A -> V, m: map<string, V>)
    ensures forall x :: x in m ==> x in PutEach(s, keep, key, f, m)
    ensures forall x ::
      (x in m && (forall k :: 0 <= k < |s| && keep(s[k]) ==> key(s[k]) != x)) ==> PutEach(s, keep, key, f, m)[x] == m[x]
  {
    if s != [] {
      var n := |s| - 1;
      var front := s[..n];
      PutEachKeeps(front, keep, key, f, m);
      forall x | x in m && (forall k :: 0 <= k < |s| && keep(s[k]) ==> key(s[k]) != x)
        ensures PutEach(s, keep, key, f, m)[x] == m[x]
      {
        forall k | 0 <= k < n && keep(front[k]) ensures key(front[k]) != x {
          assert front[k] == s[k];
        }
      }
    }
  }

  lemma {:induction false} PutEachOnlyAdds<A, V>(s: seq<A>, keep: A -> bool, key: A -> string, f: A -> V, m: map<string, V>)
    ensures forall x :: x in PutEach(s, keep, key, f, m) ==> x in m || exists k :: 0 <= k < |s| && keep(s[k]) && key(s[k]) == x
  {
    if s != [] {
      var n := |s| - 1;
      var front := s[..n];
      PutEachOnlyAdds(front, keep, key, f, m);
      var m0 := PutEach(front, keep, key, f, m);
      forall x | x in PutEach(s, keep, key, f, m)
        ensures x in m || exists k :: 0 <= k < |s| && keep(s[k]) && key(s[k]) == x
      {
        if x in m0 && x !in m {
          var k :| 0 <= k < n && keep(front[k]) && key(front[k]) == x;
          assert front[k] == s[k];
        }
      }
    }
  }

  /** Writing the records into the packageInfo map: every listed repo's entry is its new record. */
  lemma CachedListed(baseUrl: string, db: Tables, failing: set<Query>, repos: seq<DBRepo>, info: map<string, PackageInfo>)
    requires NamesAscending(repos)
    ensures forall k :: 0 <= k < |repos| && Listed(failing, repos[k]) ==>
      repos[k].name in Cached(baseUrl, db, failing, repos, info)
      && Cached(baseUrl, db, failing, repos, info)[repos[k].name] == PackageView(baseUrl, db.versions, repos[k])
  {
    PutEachWritten(repos, ListedBy(failing), NameOf, ViewOf(baseUrl, db.versions), info);
  }

  /**
   * Every old entry stays a key, and keeps its value unless a listed repo of
   * that name overwrote it.
   */
  lemma CachedKeeps(baseUrl: string, db: Tables, failing: set<Query>, repos: seq<DBRepo>, info: map<string, PackageInfo>)
    ensures forall name :: name in info ==> name in Cached(baseUrl, db, failing, repos, info)
    ensures forall name ::
      (name in info && (forall k :: 0 <= k < |repos| && Listed(failing, repos[k]) ==> repos[k].name != name))
      ==> Cached(baseUrl, db, failing, repos, info)[name] == info[name]
  {
    PutEachKeeps(repos, ListedBy(failing), NameOf, ViewOf(baseUrl, db.versions), info);
  }

  /** No key appears other than the old ones and the listed repos' names. */
  lemma CachedOnlyAdds(baseUrl: string, db: Tables, failing: set<Query>, repos: seq<DBRepo>, info: map<string, PackageInfo>)
    ensures forall name :: name in Cached(baseUrl, db, failing, repos, info) ==>
      name in info || exists k :: 0 <= k < |repos| && Listed(failing, repos[k]) && repos[k].name == name
  {
    PutEachOnlyAdds(repos, ListedBy(failing), NameOf, ViewOf(baseUrl, db.versions), info);
  }

  /** GetAllRepos's rows, in its order, satisfy the ascending-name precondition. */
  lemma ReposByNameAscending(db: Tables)
    requires Valid(db)
    ensures NamesAscending(ReposByName(db.repos))
    ensures forall r :: r in ReposByName(db.repos) <==> r in db.repos
  {
    ReposByNameMeaning(db);
    Ordering.MultisetMembers(ReposByName(db.repos), db.repos);
  }

  /**
   * After a rebuild the package list holds exactly the records of the listed
   * repos, ordered by strictly ascending name.
   */
  lemma RebuildPackages(baseUrl: string, db: Tables, failing: set<Query>, latest: Option<DBPackageListVersion>, c: Cache)
    requires Valid(db) && GetAllReposQ !in failing
    ensures var ps := Rebuild(baseUrl, db, failing, latest, c).cache.packages;
      && ps.Some?
      && PackagesAscending(ps.value)
      && (forall r :: r in db.repos && Listed(failing, r) ==> PackageView(baseUrl, db.versions, r) in ps.value)
      && (forall p :: p in ps.value ==>
            exists r :: r in db.repos && Listed(failing, r) && p == PackageView(baseUrl, db.versions, r))
  {
    var repos := ReposByName(db.repos);
    ReposByNameAscending(db);
    ViewsKeepOrder(baseUrl, db, failing, repos);
    ViewsOnlyListed(baseUrl, db, failing, repos);
    ViewsAllListed(baseUrl, db, failing, repos);
    var ps := Views(baseUrl, db, failing, repos);
    forall r | r in db.repos && Listed(failing, r) ensures PackageView(baseUrl, db.versions, r) in ps {
      assert r in repos;
      var k :| 0 <= k < |repos| && repos[k] == r;
    }
    forall p | p in ps ensures exists r :: r in db.repos && Listed(failing, r) && p == PackageView(baseUrl, db.versions, r) {
      var k :| 0 <= k < |repos| && Listed(failing, repos[k]) && p == PackageView(baseUrl, db.versions, repos[k]);
      assert repos[k] in repos;
    }
  }

  /**
   * After a rebuild every listed repo's entry is its new record; entries are
   * never removed, an unlisted repo's old entry is kept, and nothing else is added.
   */
  lemma RebuildPackageInfo(baseUrl: string, db: Tables, failing: set<Query>, latest: Option<DBPackageListVersion>, c: Cache)
    requires Valid(db) && GetAllReposQ !in failing
    ensures var m := Rebuild(baseUrl, db, failing, latest, c).cache.packageInfo;
      && (forall r :: r in db.repos && Listed(failing, r) ==> r.name in m && m[r.name] == PackageView(baseUrl, db.versions, r))
      && (forall name :: name in c.packageInfo ==> name in m)
      && (forall r :: r in db.repos && !Listed(failing, r) && r.name in c.packageInfo ==> m[r.name] == c.packageInfo[r.name])
      && (forall name :: name in m ==> name in c.packageInfo || exists r :: r in db.repos && Listed(failing, r) && r.name == name)
  {
    var repos := ReposByName(db.repos);
    ReposByNameAscending(db);
    CachedListed(baseUrl, db, failing, repos, c.packageInfo);
    CachedKeeps(baseUrl, db, failing, repos, c.packageInfo);
    CachedOnlyAdds(baseUrl, db, failing, repos, c.packageInfo);
    var m := Cached(baseUrl, db, failing, repos, c.packageInfo);
    forall r | r in db.repos && Listed(failing, r) ensures r.name in m && m[r.name] == PackageView(baseUrl, db.versions, r) {
      var k :| 0 <= k < |repos| && repos[k] == r;
    }
    forall r | r in db.repos && !Listed(failing, r) && r.name in c.packageInfo ensures m[r.name] == c.packageInfo[r.name] {
      var a :| 0 <= a < |repos| && repos[a] == r;
      forall k | 0 <= k < |repos| && Listed(failing, repos[k]) ensures repos[k].name != r.name {
        assert k != a;
      }
    }
    forall name | name in m ensures name in c.packageInfo || exists r :: r in db.repos && Listed(failing, r) && r.name == name {
      if name !in c.packageInfo {
        var k :| 0 <= k < |repos| && Listed(failing, repos[k]) && repos[k].name == name;
        assert repos[k] in repos;
      }
    }
  }

  /** After a rebuild, getPackageVersions serves a listed repo's fresh record. */
  lemma ServesRebuiltRecord(baseUrl: string, db: Tables, failing: set<Query>, latest: Option<DBPackageListVersion>,
                            c: Cache, repo: DBRepo)
    requires Valid(db) && GetAllReposQ !in failing
    requires repo in db.repos && Listed(failing, repo) && repo.name != ""
    ensures GetPackageVersions(Rebuild(baseUrl, db, failing, latest, c).cache, repo.name)
      == Http.Json(map[], Package(PackageView(baseUrl, db.versions, repo)))
  {
    RebuildPackageInfo(baseUrl, db, failing, latest, c);
  }

  /**
   * listPackages answers "not initialised" after a rebuild exactly when it did
   * before and the repos query failed; getPackageListVersion exactly when it did
   * before and the rebuild stopped before reading the catalogue version.
   */
  lemma UninitialisedUntilRebuilt(baseUrl: string, db: Tables, failing: set<Query>, latest: Option<DBPackageListVersion>,
                                  c: Cache)
    ensures var c' := Rebuild(baseUrl, db, failing, latest, c).cache;
      && (ListPackages(c').status == Http.StatusInternalServerError <==>
            ListPackages(c).status == Http.StatusInternalServerError && GetAllReposQ in failing)
      && (GetPackageListVersion(c').status == Http.StatusInternalServerError <==>
            GetPackageListVersion(c).status == Http.StatusInternalServerError && (GetAllReposQ in failing || latest.None?))
  {
  }

  /**
   * A redirect from getLatestPackage goes to the download URL of a row of that
   * repo with the greatest creation time among all its rows, deleted or not.
   */
  lemma LatestRedirectsToNewest(baseUrl: string, db: Tables, failing: set<Query>, name: string)
    ensures var r := GetLatestPackage(baseUrl, db, failing, name);
      && (r.status == Http.StatusFound <==>
            name != "" && GetRepoByNameQ !in failing && FindRepo(db.repos, name).Some?
            && GetVersionsQ(FindRepo(db.repos, name).value.id) !in failing
            && OfRepo(db.versions, FindRepo(db.repos, name).value.id) != [])
      && (r.status == Http.StatusFound ==>
            exists v :: v in db.versions && v.repoId == FindRepo(db.repos, name).value.id
              && r.headers == map["Location" := DownloadURL(baseUrl, v.zipFile)]
              && (forall w :: w in db.versions && w.repoId == v.repoId ==> w.createdAt <= v.createdAt))
  {
    var r := GetLatestPackage(baseUrl, db, failing, name);
    if r.status == Http.StatusFound {
      var repo := FindRepo(db.repos, name).value;
      var all := OfRepo(db.versions, repo.id);
      var rows := NewestFirst(all);
      NewestFirstSorted(all);
      Ordering.MultisetMembers(rows, all);
      SelectVersionsMeaning(db.versions, repo.id, 3);
      var v := rows[0];
      assert SelectVersions(db.versions, repo.id, 3)[0] == v;
      forall w | w in db.versions && w.repoId == v.repoId ensures w.createdAt <= v.createdAt {
        assert w in rows;
        var j :| 0 <= j < |rows| && rows[j] == w;
        if j > 0 {
          assert NewerFirst(rows[0], rows[j]);
        }
      }
      assert v in db.versions && v.repoId == repo.id;
    }
  }

  /** Deleted rows are not filtered out: a strictly newest deleted row is the redirect target. */
  lemma LatestMayBeDeleted(baseUrl: string, db: Tables, failing: set<Query>, name: string, v: DBVersion)
    requires name != "" && GetRepoByNameQ !in failing && FindRepo(db.repos, name).Some?
    requires GetVersionsQ(FindRepo(db.repos, name).value.id) !in failing
    requires v in db.versions && v.repoId == FindRepo(db.repos, name).value.id && v.deleted == 1
    requires forall w :: w in db.versions && w.repoId == v.repoId && w != v ==> w.createdAt < v.createdAt
    ensures GetLatestPackage(baseUrl, db, failing, name).headers == map["Location" := DownloadURL(baseUrl, v.zipFile)]
  {
    assert v in OfRepo(db.versions, v.repoId);
    LatestRedirectsToNewest(baseUrl, db, failing, name);
  }

  // ---------------------------------------------------------------- the cache object

  class API {
    const store: SQLiteStore
    const baseUrl: string
    var cache: Cache

    /** NewAPI before its first UpdateCache: every slot empty. */
    constructor (store: SQLiteStore, baseUrl: string)
      ensures this.store == store && this.baseUrl == baseUrl && cache == Uninitialised
    {
      this.store := store;
      this.baseUrl := baseUrl;
      cache := Uninitialised;
    }

    /** The version entries of one package, in the order of its rows. */
    method BuildVersions(rows: seq<DBVersion>) returns (versions: seq<Version>)
      ensures versions == VersionViews(baseUrl, rows)
    {
      versions := [];
      for j := 0 to |rows|
        invariant versions == VersionViews(baseUrl, rows[..j])
      {
        assert rows[..j + 1][..j] == rows[..j];
        var v := rows[j];
        versions := versions + [Version(v.zipFile, v.size, v.tag, v.commitHash, DownloadURL(baseUrl, v.zipFile), Unix(v.createdAt))];
      }
      assert rows[..|rows|] == rows;
    }

    /** Rebuilds the cache from the store; `latest` is GetLatestPackageListVersion's outcome. */
    method UpdateCache(latest: Option<DBPackageListVersion>) returns (err: Option<CacheError>)
      modifies this
      ensures Rebuilt(cache, err) == Rebuild(baseUrl, store.db, store.failing, latest, old(cache))
    {
      var got := store.GetAllRepos();
      if got.Err? {
        return Some(ReposFailed(got.error));
      }
      var repos := got.value;
      ghost var info0 := cache.packageInfo;
      var packages: seq<PackageInfo> := [];
      for i := 0 to |repos|
        invariant packages == Views(baseUrl, store.db, store.failing, repos[..i])
        invariant cache == old(cache).(packageInfo := Cached(baseUrl, store.db, store.failing, repos[..i], info0))
      {
        RebuildStep(baseUrl, store.db, store.failing, repos, i, info0);
        var rows := store.GetVersionsByRepoID(repos[i].id, 3);
        if rows.Err? {
          continue;
        }
        var versions := BuildVersions(rows.value);
        var info := PackageInfo(repos[i].name, repos[i].url, versions);
        packages := packages + [info];
        cache := cache.(packageInfo := cache.packageInfo[repos[i].name := info]);
      }
      assert repos[..|repos|] == repos;
      cache := cache.(packages := Some(packages));
      if latest.None? {
        return Some(ListVersionFailed);
      }
      cache := cache.(version := Some(VersionResponse(latest.value.version, Unix(latest.value.updatedAt))));
      err := None;
    }
  }
}
