/**
 * What syncRepo and SyncAll promise, proved about the step-by-step
 * definitions in module Sync (which SyncService's methods are proved equal to).
 */
module SyncProps {
  import opened Wrappers
  import opened Model
  import Store
  import Zip
  import Ordering
  import opened Sync

  // ---------------------------------------------------------------- retention

  function Ids(cands: seq<DBVersion>): set<int> {
    set i | 0 <= i < |cands| :: cands[i].id
  }

  function Files(cands: seq<DBVersion>): set<string> {
    set i | 0 <= i < |cands| :: cands[i].zipFile
  }

  lemma IdsCons(cands: seq<DBVersion>)
    requires cands != []
    ensures Ids(cands) == {cands[0].id} + Ids(cands[1..])
    ensures Files(cands) == {cands[0].zipFile} + Files(cands[1..])
  {
    forall i | 0 < i < |cands| ensures cands[1..][i - 1] == cands[i] { }
    forall x | x in Ids(cands[1..]) ensures x in Ids(cands) {
      var i :| 0 <= i < |cands[1..]| && cands[1..][i].id == x;
      assert cands[i + 1] == cands[1..][i];
    }
    forall x | x in Files(cands[1..]) ensures x in Files(cands) {
      var i :| 0 <= i < |cands[1..]| && cands[1..][i].zipFile == x;
      assert cands[i + 1] == cands[1..][i];
    }
  }

  /** Each row either stays or has its deleted flag set; rows of non-candidates stay. */
  lemma {:induction false} RetireEachRows(zips: Dir, db: Store.Tables, failing: set<Store.Query>, cands: seq<DBVersion>)
    requires Store.Valid(db)
    ensures var r := RetireEach(zips, db, failing, cands);
      && (forall i :: 0 <= i < |db.versions| ==>
            r.db.versions[i] == db.versions[i] || r.db.versions[i] == db.versions[i].(deleted := 1))
      && (forall i :: 0 <= i < |db.versions| && db.versions[i].id !in Ids(cands) ==> r.db.versions[i] == db.versions[i])
      && (r.err.None? ==> forall i :: 0 <= i < |db.versions| && db.versions[i].id in Ids(cands) ==>
            r.db.versions[i] == db.versions[i].(deleted := 1))
    decreases |cands|
  {
    if cands != [] && Store.MarkDeletedQ(cands[0].id) !in failing {
      Store.MarkDeletedKeepsValid(db, cands[0].id);
      var db' := db.(versions := Store.MarkDeletedRows(db.versions, cands[0].id));
      RetireEachRows(zips - {cands[0].zipFile}, db', failing, cands[1..]);
      Store.MarkDeletedChangesOnlyThatRow(db.versions, cands[0].id);
      IdsCons(cands);
    }
  }

  /** Retirement only removes files; when it runs to the end, exactly the candidates' files are gone. */
  lemma {:induction false} RetireEachFiles(zips: Dir, db: Store.Tables, failing: set<Store.Query>, cands: seq<DBVersion>)
    requires Store.Valid(db)
    ensures var r := RetireEach(zips, db, failing, cands);
      && r.zips.Keys <= zips.Keys
      && (forall f :: f in r.zips ==> r.zips[f] == zips[f])
      && (r.err.None? ==> r.zips == zips - Files(cands))
    decreases |cands|
  {
    if cands != [] && Store.MarkDeletedQ(cands[0].id) !in failing {
      Store.MarkDeletedKeepsValid(db, cands[0].id);
      var db' := db.(versions := Store.MarkDeletedRows(db.versions, cands[0].id));
      RetireEachFiles(zips - {cands[0].zipFile}, db', failing, cands[1..]);
      IdsCons(cands);
    }
  }

  /** Retirement fails exactly when one of the candidates' marks fails. */
  lemma {:induction false} RetireEachFails(zips: Dir, db: Store.Tables, failing: set<Store.Query>, cands: seq<DBVersion>)
    requires Store.Valid(db)
    ensures RetireEach(zips, db, failing, cands).err.Some?
      <==> exists i :: 0 <= i < |cands| && Store.MarkDeletedQ(cands[i].id) in failing
    decreases |cands|
  {
    if cands != [] && Store.MarkDeletedQ(cands[0].id) !in failing {
      Store.MarkDeletedKeepsValid(db, cands[0].id);
      var db' := db.(versions := Store.MarkDeletedRows(db.versions, cands[0].id));
      RetireEachFails(zips - {cands[0].zipFile}, db', failing, cands[1..]);
      forall i | 0 < i < |cands| ensures cands[1..][i - 1] == cands[i] { }
    }
  }

  /** Distinct rows of an id-increasing table have distinct ids. */
  lemma SameIdSameRow(versions: seq<DBVersion>, x: DBVersion, y: DBVersion)
    requires IncreasingIds(versions)
    requires x in versions && y in versions
    ensures x.id == y.id ==> x == y
  {
    var i :| 0 <= i < |versions| && versions[i] == x;
    var j :| 0 <= j < |versions| && versions[j] == y;
  }

  predicate DistinctIds(s: seq<DBVersion>) {
    forall a, b :: 0 <= a < b < |s| ==> s[a].id != s[b].id
  }

  predicate IncreasingIds(s: seq<DBVersion>) {
    forall i, j :: 0 <= i < j < |s| ==> s[i].id < s[j].id
  }

  lemma ConsIncreasing(head: DBVersion, s: seq<DBVersion>)
    requires IncreasingIds(s) && forall k :: 0 <= k < |s| ==> head.id < s[k].id
    ensures IncreasingIds([head] + s)
  {
    var u := [head] + s;
    forall i, j | 0 <= i < j < |u| ensures u[i].id < u[j].id {
      assert u[j] == s[j - 1];
      if i > 0 {
        assert u[i] == s[i - 1];
      }
    }
  }

  lemma {:induction false} UndeletedIdsIncreasing(versions: seq<DBVersion>, repoId: int)
    requires IncreasingIds(versions)
    ensures IncreasingIds(Store.UndeletedOfRepo(versions, repoId))
  {
    if versions != [] {
      var rest := versions[1..];
      assert IncreasingIds(rest) by {
        forall i, j | 0 <= i < j < |rest| ensures rest[i].id < rest[j].id {
          assert rest[i] == versions[i + 1] && rest[j] == versions[j + 1];
        }
      }
      UndeletedIdsIncreasing(rest, repoId);
      var ur := Store.UndeletedOfRepo(rest, repoId);
      var head := versions[0];
      forall k | 0 <= k < |ur| ensures head.id < ur[k].id {
        assert ur[k] in rest;
        var m :| 0 <= m < |rest| && rest[m] == ur[k];
        assert versions[m + 1] == rest[m];
      }
      var u := Store.UndeletedOfRepo(versions, repoId);
      if head.repoId == repoId && head.deleted == 0 {
        assert u == [head] + ur;
        ConsIncreasing(head, ur);
      } else {
        assert u == ur;
      }
    }
  }

  /** The undeleted rows of a repository, newest first, have distinct ids. */
  lemma NewestRowsDistinctIds(versions: seq<DBVersion>, repoId: int)
    requires IncreasingIds(versions)
    ensures DistinctIds(Store.NewestFirst(Store.UndeletedOfRepo(versions, repoId)))
  {
    var u := Store.UndeletedOfRepo(versions, repoId);
    var rows := Store.NewestFirst(u);
    UndeletedIdsIncreasing(versions, repoId);
    assert Ordering.NoDuplicates(u) by {
      forall a, b | 0 <= a < b < |u| ensures u[a] != u[b] {
        assert u[a].id < u[b].id;
      }
    }
    Ordering.NoDuplicatesPermutation(u, rows);
    forall a, b | 0 <= a < b < |rows| ensures rows[a].id != rows[b].id {
      assert rows[a] in multiset(u) && rows[b] in multiset(u);
      SameIdSameRow(versions, rows[a], rows[b]);
    }
  }

  /** The count of distinct elements of a duplicate-free sequence is its length. */
  lemma {:induction false} DistinctCount<T>(s: seq<T>)
    requires Ordering.NoDuplicates(s)
    ensures |set x | x in s| == |s|
  {
    if s != [] {
      var rest := s[1..];
      assert Ordering.NoDuplicates(rest) by {
        forall a, b | 0 <= a < b < |rest| ensures rest[a] != rest[b] {
          assert rest[a] == s[a + 1] && rest[b] == s[b + 1];
        }
      }
      DistinctCount(rest);
      assert s[0] !in rest by {
        forall k | 0 <= k < |rest| ensures rest[k] != s[0] {
          assert rest[k] == s[k + 1];
        }
      }
      assert (set x | x in s) == {s[0]} + (set x | x in rest) by {
        forall x | x in s ensures x == s[0] || x in rest {
          var k :| 0 <= k < |s| && s[k] == x;
          if k > 0 {
            assert rest[k - 1] == x;
          }
        }
      }
    }
  }

  /** The rows a retention pass keeps: the newest three undeleted ones, or all when there are fewer. */
  function Kept(versions: seq<DBVersion>, repoId: int): seq<DBVersion> {
    var rows := Store.NewestFirst(Store.UndeletedOfRepo(versions, repoId));
    if |rows| <= 3 then rows else rows[..3]
  }

  /**
   * Marking the rows whose ids are those of the tail `c` of an id-distinct
   * listing `kept + c` of the undeleted rows leaves `kept` as the undeleted rows.
   */
  lemma MarkingTailKeepsHead(before: seq<DBVersion>, after: seq<DBVersion>, rows: seq<DBVersion>, kept: seq<DBVersion>, c: seq<DBVersion>, repoId: int)
    requires |after| == |before|
    requires forall i :: 0 <= i < |before| ==> after[i] == before[i] || after[i] == before[i].(deleted := 1)
    requires forall i :: 0 <= i < |before| && before[i].id !in Ids(c) ==> after[i] == before[i]
    requires forall i :: 0 <= i < |before| && before[i].id in Ids(c) ==> after[i] == before[i].(deleted := 1)
    requires rows == kept + c
    requires forall v :: v in rows <==> v in before && v.repoId == repoId && v.deleted == 0
    requires DistinctIds(rows)
    ensures forall v :: v in after && v.repoId == repoId && v.deleted == 0 <==> v in kept
  {
    var m := |kept|;
    forall v | v in after && v.repoId == repoId && v.deleted == 0 ensures v in kept {
      var i :| 0 <= i < |after| && after[i] == v;
      assert after[i] == before[i] && before[i].id !in Ids(c);
      forall j | 0 <= j < |c| ensures c[j] != v {
        assert c[j].id in Ids(c);
      }
      assert v in rows;
    }
    forall v | v in kept ensures v in after && v.repoId == repoId && v.deleted == 0 {
      var k :| 0 <= k < m && kept[k] == v;
      assert rows[k] == v;
      var i :| 0 <= i < |before| && before[i] == v;
      assert v.id !in Ids(c) by {
        forall j | 0 <= j < |c| ensures c[j].id != v.id {
          assert c[j] == rows[m + j];
        }
      }
      assert after[i] == v;
    }
  }

  /**
   * After a retention pass that ran to the end and was not exempted, a row of
   * the repository is undeleted exactly when it is one of the kept rows.
   */
  lemma RetentionKeepsNewest(zips: Dir, db: Store.Tables, failing: set<Store.Query>, repoId: int)
    requires Store.Valid(db)
    ensures var r := Retention(zips, db, failing, repoId);
      r.err.None? && !Exempt(Store.RetirementCandidates(db.versions, repoId)) ==>
        forall v :: v in r.db.versions && v.repoId == repoId && v.deleted == 0 <==> v in Kept(db.versions, repoId)
  {
    var r := Retention(zips, db, failing, repoId);
    var c := Store.RetirementCandidates(db.versions, repoId);
    if r.err.None? && !Exempt(c) {
      var u := Store.UndeletedOfRepo(db.versions, repoId);
      var rows := Store.NewestFirst(u);
      var kept := Kept(db.versions, repoId);
      assert rows == kept + c;
      assert r == RetireEach(zips, db, failing, c);
      RetireEachRows(zips, db, failing, c);
      NewestRowsDistinctIds(db.versions, repoId);
      Ordering.MultisetMembers(u, rows);
      MarkingTailKeepsHead(db.versions, r.db.versions, rows, kept, c, repoId);
    }
  }

  /** The same pass leaves exactly min(n, 3) undeleted rows of the repository, n the count before it. */
  lemma RetentionKeepsThree(zips: Dir, db: Store.Tables, failing: set<Store.Query>, repoId: int)
    requires Store.Valid(db)
    ensures var r := Retention(zips, db, failing, repoId);
      var n := |Store.UndeletedOfRepo(db.versions, repoId)|;
      r.err.None? && !Exempt(Store.RetirementCandidates(db.versions, repoId)) ==>
        |Store.UndeletedOfRepo(r.db.versions, repoId)| == (if n <= 3 then n else 3)
  {
    var r := Retention(zips, db, failing, repoId);
    if r.err.None? && !Exempt(Store.RetirementCandidates(db.versions, repoId)) {
      RetentionKeepsNewest(zips, db, failing, repoId);
      var kept := Kept(db.versions, repoId);
      var ua := Store.UndeletedOfRepo(r.db.versions, repoId);
      assert (set x | x in ua) == (set x | x in kept);
      UndeletedIdsIncreasing(r.db.versions, repoId);
      assert Ordering.NoDuplicates(ua) by {
        forall a, b | 0 <= a < b < |ua| ensures ua[a] != ua[b] {
          assert ua[a].id < ua[b].id;
        }
      }
      DistinctCount(ua);
      NewestRowsDistinctIds(db.versions, repoId);
      assert Ordering.NoDuplicates(kept);
      DistinctCount(kept);
    }
  }

  /**
   * Whatever the candidates, a retention pass that ran to the end leaves at most
   * three undeleted rows of the repository, or four whose oldest has the empty
   * tag (the exemption).
   */
  lemma RetentionAtMostThree(zips: Dir, db: Store.Tables, failing: set<Store.Query>, repoId: int)
    requires Store.Valid(db)
    ensures var r := Retention(zips, db, failing, repoId);
      var u := Store.UndeletedOfRepo(r.db.versions, repoId);
      r.err.None? ==> |u| <= 3 || (|u| == 4 && Store.NewestFirst(u)[3].tag == "")
  {
    var c := Store.RetirementCandidates(db.versions, repoId);
    if Exempt(c) {
      assert Store.NewestFirst(Store.UndeletedOfRepo(db.versions, repoId))[3] == c[0];
    } else {
      RetentionKeepsThree(zips, db, failing, repoId);
    }
  }

  /** A retention pass that ran to the end removed the file of every candidate. */
  lemma RetentionRemovesCandidateFiles(zips: Dir, db: Store.Tables, failing: set<Store.Query>, repoId: int)
    requires Store.Valid(db)
    ensures var r := Retention(zips, db, failing, repoId);
      var c := Store.RetirementCandidates(db.versions, repoId);
      r.err.None? && !Exempt(c) ==> forall i :: 0 <= i < |c| ==> c[i].zipFile !in r.zips
  {
    var r := Retention(zips, db, failing, repoId);
    var c := Store.RetirementCandidates(db.versions, repoId);
    if r.err.None? && !Exempt(c) {
      RetireEachFiles(zips, db, failing, c);
      forall i | 0 <= i < |c| ensures c[i].zipFile !in r.zips {
        assert c[i].zipFile in Files(c);
      }
    }
  }

  // ---------------------------------------------------------------- stages

  /** A version row recording the artifact of a repo row. */
  predicate RecordsArtifact(v: DBVersion, row: DBRepo) {
    v.repoId == row.id && v.tag == row.tag && v.commitHash == row.commitHash && v.zipFile == row.zipFile && v.size == row.size
  }

  /** Retention changes only deleted flags and only removes files. */
  lemma RetentionOnlyMarks(zips: Dir, db: Store.Tables, failing: set<Store.Query>, repoId: int)
    requires Store.Valid(db)
    ensures var r := Retention(zips, db, failing, repoId);
      && r.db.repos == db.repos
      && |r.db.versions| == |db.versions|
      && (forall i :: 0 <= i < |db.versions| ==>
            r.db.versions[i] == db.versions[i] || r.db.versions[i] == db.versions[i].(deleted := 1))
      && r.zips.Keys <= zips.Keys
      && (r.err.Some? ==> r.err.value.RetentionQueryFailed? || r.err.value.MarkFailed?)
  {
    var c := Store.RetirementCandidates(db.versions, repoId);
    if Store.OlderThan3Q !in failing && !Exempt(c) {
      RetireEachRows(zips, db, failing, c);
      RetireEachFiles(zips, db, failing, c);
    }
  }

  /** Retention keeps every row's artifact record: it only sets deleted flags. */
  lemma RetentionKeepsArtifactRecord(zips: Dir, db: Store.Tables, failing: set<Store.Query>, repoId: int, row: DBRepo)
    requires Store.Valid(db)
    ensures var r := Retention(zips, db, failing, repoId);
      (exists i :: 0 <= i < |db.versions| && RecordsArtifact(db.versions[i], row)) ==>
        exists i :: 0 <= i < |r.db.versions| && RecordsArtifact(r.db.versions[i], row)
  {
    var r := Retention(zips, db, failing, repoId);
    RetentionOnlyMarks(zips, db, failing, repoId);
    if i :| 0 <= i < |db.versions| && RecordsArtifact(db.versions[i], row) {
      assert RecordsArtifact(r.db.versions[i], row);
    }
  }

  /**
   * The metadata writes: the repo row named by the repository carries the new
   * head, artifact, size and sync time under the id the step reports, and its
   * version row for the tag records the same artifact; a failed upsert writes nothing.
   */
  lemma RecordOutcome(db: Store.Tables, failing: set<Store.Query>, repo: TrackedRepo, p: Packaged, now: Time)
    requires Store.Valid(db)
    ensures var rec := Record(db, failing, repo, p, now);
      && (rec.out.Err? && rec.out.error.UpsertFailed? ==> rec.db == db)
      && (rec.out.Err? ==> rec.out.error.UpsertFailed? || rec.out.error.AddVersionFailed?)
      && (rec.out.Ok? ==>
            && Store.FindRepo(rec.db.repos, repo.name).Some?
            && var row := Store.FindRepo(rec.db.repos, repo.name).value;
            && row.id == rec.out.value
            && row.tag == p.head.tag && row.commitHash == p.head.commit && row.zipFile == p.zipName
            && row.lastSync == p.lastSync && row.size == p.size
            && exists i :: 0 <= i < |rec.db.versions| && RecordsArtifact(rec.db.versions[i], row))
  {
    var rec := Record(db, failing, repo, p, now);
    if rec.out.Ok? {
      assert Store.UpsertRepoQ !in failing && Store.AddVersionQ !in failing;
      var w := Store.UpsertRepoRows(db, RepoRow(repo, p), now);
      UpsertRecordsRow(db, repo, p, now);
      var row := Store.FindRepo(w.tables.repos, repo.name).value;
      AddVersionRecordsArtifact(w.tables, row, p, now);
      var v := Store.AddVersionRows(w.tables, VersionRow(row.id, p), now);
      assert rec.db == v.tables && rec.out.value == w.id;
    }
  }

  /** UpsertRepo leaves one row of that name, carrying the packaged artifact, under the id it reports. */
  lemma UpsertRecordsRow(db: Store.Tables, repo: TrackedRepo, p: Packaged, now: Time)
    requires Store.Valid(db)
    ensures var w := Store.UpsertRepoRows(db, RepoRow(repo, p), now);
      && Store.FindRepo(w.tables.repos, repo.name).Some?
      && var row := Store.FindRepo(w.tables.repos, repo.name).value;
      && row.id == w.id
      && row.tag == p.head.tag && row.commitHash == p.head.commit && row.zipFile == p.zipName
      && row.lastSync == p.lastSync && row.size == p.size
  {
  }

  /** AddVersion leaves a version row recording the repository row's artifact. */
  lemma AddVersionRecordsArtifact(t: Store.Tables, row: DBRepo, p: Packaged, now: Time)
    requires Store.Valid(t)
    requires row.tag == p.head.tag && row.commitHash == p.head.commit && row.zipFile == p.zipName && row.size == p.size
    ensures var v := Store.AddVersionRows(t, VersionRow(row.id, p), now);
      exists i :: 0 <= i < |v.tables.versions| && RecordsArtifact(v.tables.versions[i], row)
  {
    var v := Store.AddVersionRows(t, VersionRow(row.id, p), now);
    var found := Store.FindVersion(v.tables.versions, row.id, p.head.tag).value;
    var i :| 0 <= i < |v.tables.versions| && v.tables.versions[i] == found;
    assert RecordsArtifact(v.tables.versions[i], row);
  }

  // ---------------------------------------------------------------- one repository

  /** One of the packaging steps fails, stated on the inputs alone. */
  predicate PackagingFails(zips: Dir, name: string, o: SyncOracle)
    requires CommitLongEnough(o)
  {
    || !o.pullOk
    || o.head.None?
    || o.statFails
    || (ZipFileName(name, o.head.value.commit) !in zips && Zip.ArchiveOutcome(o.createFails, o.tree).Failed?)
    || o.sizeFails
  }

  /** A failure of the mirror, the stat, the build or the size read is reported as such, and only those are. */
  lemma PackagingFailureReported(w: World, failing: set<Store.Query>, repo: TrackedRepo, o: SyncOracle)
    requires Store.Valid(w.db) && CommitLongEnough(o)
    ensures var s := SyncRepoSpec(w, failing, repo, o);
      PackagingFails(w.zips, repo.name, o) <==> s.result.err.Some? && IsPackagingError(s.result.err.value)
  {
    var prior := PriorOf(w.db, failing, repo.name, o.startTime);
    var pk := Package(w.zips, repo.name, prior.lastSync, o);
    PackageOutcome(w.zips, repo.name, prior.lastSync, o);
    if pk.out.Ok? {
      LaterErrorsNotPackaging(w, failing, repo, o);
    } else {
      assert SyncRepoSpec(w, failing, repo, o).result.err == Some(pk.out.error);
    }
  }

  /** Once packaging succeeded, any error comes from the store writes or the retention. */
  lemma LaterErrorsNotPackaging(w: World, failing: set<Store.Query>, repo: TrackedRepo, o: SyncOracle)
    requires Store.Valid(w.db) && CommitLongEnough(o)
    requires Package(w.zips, repo.name, PriorOf(w.db, failing, repo.name, o.startTime).lastSync, o).out.Ok?
    ensures var s := SyncRepoSpec(w, failing, repo, o);
      s.result.err.Some? ==> !IsPackagingError(s.result.err.value)
  {
    var prior := PriorOf(w.db, failing, repo.name, o.startTime);
    var pk := Package(w.zips, repo.name, prior.lastSync, o);
    PackageOutcome(w.zips, repo.name, prior.lastSync, o);
    var p := pk.out.value;
    var rec := Record(w.db, failing, repo, p, o.writeTime);
    RecordOutcome(w.db, failing, repo, p, o.writeTime);
    var err := SyncRepoSpec(w, failing, repo, o).result.err;
    if rec.out.Ok? {
      var zips1 := Remove(pk.zips, StaleArtifact(repo.name, prior, p.head));
      RetentionOnlyMarks(zips1, rec.db, failing, rec.out.value);
      assert err == Retention(zips1, rec.db, failing, rec.out.value).err;
    } else {
      assert err == Some(rec.out.error);
    }
  }

  /**
   * A failed packaging step makes no change, writes nothing to the store and
   * removes or alters no file (only a partial artifact may be left behind).
   */
  lemma PackagingFailureWritesNothing(w: World, failing: set<Store.Query>, repo: TrackedRepo, o: SyncOracle)
    requires Store.Valid(w.db) && CommitLongEnough(o)
    ensures var s := SyncRepoSpec(w, failing, repo, o);
      PackagingFails(w.zips, repo.name, o) ==>
        && s.world.db == w.db
        && !s.result.changed
        && forall f :: f in w.zips ==> f in s.world.zips && s.world.zips[f] == w.zips[f]
  {
    var prior := PriorOf(w.db, failing, repo.name, o.startTime);
    var pk := Package(w.zips, repo.name, prior.lastSync, o);
    PackageOutcome(w.zips, repo.name, prior.lastSync, o);
    if pk.out.Err? {
      assert SyncRepoSpec(w, failing, repo, o) == Synced(World(pk.zips, w.db), RepoSyncResult(Some(pk.out.error), false));
    }
  }

  /**
   * Packaging fails exactly on those conditions, with a packaging error, and
   * never alters a present file; on success it packaged the head commit.
   */
  lemma PackageOutcome(zips: Dir, name: string, lastSync: Time, o: SyncOracle)
    requires CommitLongEnough(o)
    ensures var pk := Package(zips, name, lastSync, o);
      && (pk.out.Err? <==> PackagingFails(zips, name, o))
      && (pk.out.Ok? ==> o.head.Some? && pk.out.value.head == o.head.value && |pk.out.value.head.commit| >= 7)
      && (pk.out.Err? ==> IsPackagingError(pk.out.error))
      && forall f :: f in zips ==> f in pk.zips && pk.zips[f] == zips[f]
  {
  }

  /**
   * After a successful sync the repository's row carries the head's commit and
   * tag and the artifact `<name>-<commit[:7]>.zip`.
   */
  lemma SuccessRecordsHead(w: World, failing: set<Store.Query>, repo: TrackedRepo, o: SyncOracle)
    requires Store.Valid(w.db) && CommitLongEnough(o)
    ensures var s := SyncRepoSpec(w, failing, repo, o);
      s.result.err.None? ==>
        && o.head.Some?
        && Store.FindRepo(s.world.db.repos, repo.name).Some?
        && var row := Store.FindRepo(s.world.db.repos, repo.name).value;
        && row.tag == o.head.value.tag && row.commitHash == o.head.value.commit
        && row.zipFile == ZipFileName(repo.name, o.head.value.commit)
  {
    var prior := PriorOf(w.db, failing, repo.name, o.startTime);
    var pk := Package(w.zips, repo.name, prior.lastSync, o);
    if pk.out.Ok? {
      PackageOutcome(w.zips, repo.name, prior.lastSync, o);
      var p := pk.out.value;
      var rec := Record(w.db, failing, repo, p, o.writeTime);
      RecordOutcome(w.db, failing, repo, p, o.writeTime);
      if rec.out.Ok? {
        var zips1 := Remove(pk.zips, StaleArtifact(repo.name, prior, p.head));
        RetentionOnlyMarks(zips1, rec.db, failing, rec.out.value);
      }
    }
  }

  /**
   * The builder ran exactly when the artifact was absent: then the row has the
   * build's size and time, otherwise the existing file's size and the prior sync time.
   */
  lemma BuildOnlyWhenAbsent(w: World, failing: set<Store.Query>, repo: TrackedRepo, o: SyncOracle)
    requires Store.Valid(w.db) && CommitLongEnough(o)
    ensures var s := SyncRepoSpec(w, failing, repo, o);
      s.result.err.None? ==>
        && o.head.Some?
        && Store.FindRepo(s.world.db.repos, repo.name).Some?
        && var file := ZipFileName(repo.name, o.head.value.commit);
           var row := Store.FindRepo(s.world.db.repos, repo.name).value;
        && row.lastSync == (if file in w.zips then PriorOf(w.db, failing, repo.name, o.startTime).lastSync else o.buildTime)
        && row.size == (if file in w.zips then w.zips[file] else o.archiveSize)
  {
    var prior := PriorOf(w.db, failing, repo.name, o.startTime);
    var pk := Package(w.zips, repo.name, prior.lastSync, o);
    if pk.out.Ok? {
      PackageOutcome(w.zips, repo.name, prior.lastSync, o);
      var p := pk.out.value;
      var rec := Record(w.db, failing, repo, p, o.writeTime);
      RecordOutcome(w.db, failing, repo, p, o.writeTime);
      if rec.out.Ok? {
        var zips1 := Remove(pk.zips, StaleArtifact(repo.name, prior, p.head));
        RetentionOnlyMarks(zips1, rec.db, failing, rec.out.value);
      }
    }
  }

  /** After a successful sync a version row for the repository's id and tag records its artifact. */
  lemma SuccessRecordsVersion(w: World, failing: set<Store.Query>, repo: TrackedRepo, o: SyncOracle)
    requires Store.Valid(w.db) && CommitLongEnough(o)
    ensures var s := SyncRepoSpec(w, failing, repo, o);
      s.result.err.None? ==>
        && Store.FindRepo(s.world.db.repos, repo.name).Some?
        && exists i :: 0 <= i < |s.world.db.versions|
             && RecordsArtifact(s.world.db.versions[i], Store.FindRepo(s.world.db.repos, repo.name).value)
  {
    var prior := PriorOf(w.db, failing, repo.name, o.startTime);
    var pk := Package(w.zips, repo.name, prior.lastSync, o);
    if pk.out.Ok? {
      PackageOutcome(w.zips, repo.name, prior.lastSync, o);
      var p := pk.out.value;
      var rec := Record(w.db, failing, repo, p, o.writeTime);
      RecordOutcome(w.db, failing, repo, p, o.writeTime);
      if rec.out.Ok? {
        var zips1 := Remove(pk.zips, StaleArtifact(repo.name, prior, p.head));
        RetentionOnlyMarks(zips1, rec.db, failing, rec.out.value);
        RetentionKeepsArtifactRecord(zips1, rec.db, failing, rec.out.value, Store.FindRepo(rec.db.repos, repo.name).value);
      }
    }
  }


  /** A sync reports a change exactly when it succeeded and built the artifact or saw a new tag. */
  lemma ChangedMeansBuiltOrRetagged(w: World, failing: set<Store.Query>, repo: TrackedRepo, o: SyncOracle)
    requires Store.Valid(w.db) && CommitLongEnough(o)
    ensures var s := SyncRepoSpec(w, failing, repo, o);
      s.result.err.Some? ==> !s.result.changed
    ensures var s := SyncRepoSpec(w, failing, repo, o);
      s.result.err.None? ==>
        && o.head.Some?
        && s.result.changed == (ZipFileName(repo.name, o.head.value.commit) !in w.zips
                                || o.head.value.tag != PriorOf(w.db, failing, repo.name, o.startTime).tag)
  {
  }

  /**
   * When the tag stayed and the commit moved, the prior commit's artifact is
   * gone after a successful sync.
   */
  lemma StaleArtifactRemoved(w: World, failing: set<Store.Query>, repo: TrackedRepo, o: SyncOracle)
    requires Store.Valid(w.db) && CommitLongEnough(o)
    ensures var s := SyncRepoSpec(w, failing, repo, o);
      var prior := PriorOf(w.db, failing, repo.name, o.startTime);
      s.result.err.None? && prior.tag == o.head.value.tag && |prior.commit| >= 7 && prior.commit != o.head.value.commit ==>
        ZipFileName(repo.name, prior.commit) !in s.world.zips
  {
    var prior := PriorOf(w.db, failing, repo.name, o.startTime);
    var pk := Package(w.zips, repo.name, prior.lastSync, o);
    if pk.out.Ok? {
      PackageOutcome(w.zips, repo.name, prior.lastSync, o);
      var p := pk.out.value;
      var rec := Record(w.db, failing, repo, p, o.writeTime);
      if rec.out.Ok? {
        var zips1 := Remove(pk.zips, StaleArtifact(repo.name, prior, p.head));
        RetentionOnlyMarks(zips1, rec.db, failing, rec.out.value);
      }
    }
  }

  /**
   * The stale delete compares full hashes but removes by the seven-character
   * name: when the prior and new commits differ but share that prefix, a
   * successful sync leaves the repo row pointing at an artifact it has just
   * removed.
   */
  lemma StaleDeleteCanRemoveNewArtifact(w: World, failing: set<Store.Query>, repo: TrackedRepo, o: SyncOracle)
    requires Store.Valid(w.db) && CommitLongEnough(o)
    ensures var s := SyncRepoSpec(w, failing, repo, o);
      var prior := PriorOf(w.db, failing, repo.name, o.startTime);
      s.result.err.None? && prior.tag == o.head.value.tag && |prior.commit| >= 7
        && prior.commit != o.head.value.commit && prior.commit[..7] == o.head.value.commit[..7] ==>
        && Store.FindRepo(s.world.db.repos, repo.name).Some?
        && Store.FindRepo(s.world.db.repos, repo.name).value.zipFile == ZipFileName(repo.name, o.head.value.commit)
        && ZipFileName(repo.name, o.head.value.commit) !in s.world.zips
  {
    var s := SyncRepoSpec(w, failing, repo, o);
    var prior := PriorOf(w.db, failing, repo.name, o.startTime);
    if s.result.err.None? && |prior.commit| >= 7 {
      SuccessRecordsHead(w, failing, repo, o);
      StaleArtifactRemoved(w, failing, repo, o);
      ZipFileNamesCollide(repo.name, prior.commit, o.head.value.commit);
    }
  }

  /**
   * After a successful sync the repository has at most three undeleted
   * versions, or exactly four when the exemption spared a single empty-tag
   * leftover, which is then the oldest.
   */
  lemma SyncKeepsAtMostThree(w: World, failing: set<Store.Query>, repo: TrackedRepo, o: SyncOracle)
    requires Store.Valid(w.db) && CommitLongEnough(o)
    ensures var s := SyncRepoSpec(w, failing, repo, o);
      s.result.err.None? ==>
        && Store.FindRepo(s.world.db.repos, repo.name).Some?
        && var u := Store.UndeletedOfRepo(s.world.db.versions, Store.FindRepo(s.world.db.repos, repo.name).value.id);
        && (|u| <= 3 || (|u| == 4 && Store.NewestFirst(u)[3].tag == ""))
  {
    var prior := PriorOf(w.db, failing, repo.name, o.startTime);
    var pk := Package(w.zips, repo.name, prior.lastSync, o);
    if pk.out.Ok? {
      PackageOutcome(w.zips, repo.name, prior.lastSync, o);
      var p := pk.out.value;
      var rec := Record(w.db, failing, repo, p, o.writeTime);
      RecordOutcome(w.db, failing, repo, p, o.writeTime);
      if rec.out.Ok? {
        var zips1 := Remove(pk.zips, StaleArtifact(repo.name, prior, p.head));
        RetentionOnlyMarks(zips1, rec.db, failing, rec.out.value);
        RetentionAtMostThree(zips1, rec.db, failing, rec.out.value);
      }
    }
  }


  // ---------------------------------------------------------------- the batch

  /** The collected failures are exactly the failed repositories, each with its cause. */
  lemma {:induction false} FailuresMeaning(repos: seq<TrackedRepo>, results: seq<RepoSyncResult>)
    requires |repos| == |results|
    ensures forall f :: f in Failures(repos, results) <==>
      exists i :: 0 <= i < |results| && results[i].err.Some? && f == RepoFailure(repos[i].name, results[i].err.value)
    decreases |repos|
  {
    if repos != [] {
      var n := |repos| - 1;
      FailuresMeaning(repos[..n], results[..n]);
      forall i | 0 <= i < n ensures repos[..n][i] == repos[i] && results[..n][i] == results[i] { }
    }
  }

  lemma FailuresEmptyIff(repos: seq<TrackedRepo>, results: seq<RepoSyncResult>)
    requires |repos| == |results|
    ensures |Failures(repos, results)| == 0 <==> forall i :: 0 <= i < |results| ==> results[i].err.None?
  {
    FailuresMeaning(repos, results);
    if i :| 0 <= i < |results| && results[i].err.Some? {
      assert RepoFailure(repos[i].name, results[i].err.value) in Failures(repos, results);
    }
  }

  /**
   * Any failed repository makes SyncAll report an error with neither bump nor
   * callback; otherwise it bumps exactly once and, if one is registered, runs
   * the callback (whatever the bump's outcome) exactly when some repository
   * changed.
   */
  lemma AggregateMeaning(repos: seq<TrackedRepo>, results: seq<RepoSyncResult>, bumpOk: bool, callbackSet: bool)
    requires |repos| == |results|
    ensures var a := Aggregate(repos, results, bumpOk, callbackSet);
      (exists i :: 0 <= i < |results| && results[i].err.Some?) ==> a.err.Some? && a.effects == []
    ensures var a := Aggregate(repos, results, bumpOk, callbackSet);
      (forall i :: 0 <= i < |results| ==> results[i].err.None?) ==>
        && a.err == None
        && (a.effects != [] <==> AnyChanged(results))
        && (AnyChanged(results) ==>
              a.effects[0] == CatalogueBump(bumpOk) && forall k :: 0 < k < |a.effects| ==> !a.effects[k].CatalogueBump?)
        && (CallbackRun in a.effects <==> AnyChanged(results) && callbackSet)
  {
    FailuresEmptyIff(repos, results);
  }
}
