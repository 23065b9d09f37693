/**
 * The archive builder's entry selection (pkg/zip/zip.go). The walk of the
 * source tree is given as its sequence of entries, each carrying the path
 * relative to the source directory and the errors the walk or the copy hits
 * there; archive bytes are not modelled.
 */
module Zip {

  const ExcludePaths: seq<string> := [".git", ".github"]

  /** The exclusion rule: some element of ExcludePaths is a string prefix of the path. */
  predicate Excluded(path: string) {
    exists i :: 0 <= i < |ExcludePaths| && ExcludePaths[i] <= path
  }

  /** shouldExclude: the loop over ExcludePaths with an early return. */
  method ShouldExclude(path: string) returns (excluded: bool)
    ensures excluded <==> Excluded(path)
  {
    for i := 0 to |ExcludePaths|
      invariant forall j :: 0 <= j < i ==> !(ExcludePaths[j] <= path)
    {
      if ExcludePaths[i] <= path {
        return true;
      }
    }
    return false;
  }

  /** The test is on the raw string, so ".github" adds nothing to ".git". */
  lemma ExcludedIsGitPrefix(path: string)
    ensures Excluded(path) <==> ".git" <= path
  {
    if ".github" <= path {
      assert path[..4] == ".github"[..4];
    }
    if ".git" <= path {
      assert ExcludePaths[0] <= path;
    }
  }

  /** Exclusion only grows as the path is extended. */
  lemma ExcludedMonotone(path: string, suffix: string)
    requires Excluded(path)
    ensures Excluded(path + suffix)
  {
    ExcludedIsGitPrefix(path);
    assert (path + suffix)[..4] == path[..4];
    ExcludedIsGitPrefix(path + suffix);
  }

  /** Raw-string prefixes catch dot-files beyond the two directories; nested .git directories are kept. */
  lemma ExclusionExamples()
    ensures Excluded(".gitignore")
    ensures Excluded(".github/workflows/ci.yml")
    ensures !Excluded("src/.git/config")
    ensures !Excluded("README.md")
  {
    ExcludedIsGitPrefix(".gitignore");
    ExcludedIsGitPrefix(".github/workflows/ci.yml");
    ExcludedIsGitPrefix("src/.git/config");
    assert "src/.git/config"[0] != ".git"[0];
    ExcludedIsGitPrefix("README.md");
    assert "README.md"[0] != ".git"[0];
  }

  /** One path visited by filepath.Walk, relative to the source directory. */
  datatype WalkEntry = WalkEntry(
    relPath: string,
    isDir: bool,
    walkError: bool,   // the walk reports an error for this path
    copyError: bool)   // creating its archive entry, opening it or copying it fails

  datatype ZipOutcome =
    | Archived(entries: seq<string>)
    | Failed(fileLeft: bool)   // whether the target file was created before the failure

  /** A non-directory path that survives the exclusion rule becomes an entry. */
  predicate Archivable(e: WalkEntry) {
    !e.isDir && !Excluded(e.relPath)
  }

  /** The walk callback returns an error here, which stops the walk. */
  predicate Aborts(e: WalkEntry) {
    e.walkError || (Archivable(e) && e.copyError)
  }

  /** Entry names, in walk order, of the archivable paths. */
  function Entries(walk: seq<WalkEntry>): seq<string> {
    if walk == [] then []
    else
      var last := walk[|walk| - 1];
      Entries(walk[..|walk| - 1]) + (if Archivable(last) then [last.relPath] else [])
  }

  /** Directories are never written; every archivable path is an entry and nothing else is. */
  lemma {:induction false} EntriesMeaning(walk: seq<WalkEntry>)
    ensures forall p :: p in Entries(walk) <==>
      exists i :: 0 <= i < |walk| && walk[i].relPath == p && Archivable(walk[i])
  {
    if walk != [] {
      var init := walk[..|walk| - 1];
      EntriesMeaning(init);
      forall p ensures p in Entries(walk) <==>
        exists i :: 0 <= i < |walk| && walk[i].relPath == p && Archivable(walk[i])
      {
        if exists i :: 0 <= i < |walk| && walk[i].relPath == p && Archivable(walk[i]) {
          var i :| 0 <= i < |walk| && walk[i].relPath == p && Archivable(walk[i]);
          if i < |walk| - 1 {
            assert init[i] == walk[i];
          }
        }
        if p in Entries(init) {
          var i :| 0 <= i < |init| && init[i].relPath == p && Archivable(init[i]);
          assert walk[i] == init[i];
        }
      }
    }
  }

  /** What CreateZip returns for a walk, as one function. */
  function ArchiveOutcome(createFails: bool, walk: seq<WalkEntry>): ZipOutcome {
    if createFails then Failed(false)
    else if exists i :: 0 <= i < |walk| && Aborts(walk[i]) then Failed(true)
    else Archived(Entries(walk))
  }

  /**
   * CreateZip: create the target, then walk; any walk, create, open or copy error
   * aborts the whole build (leaving the created target behind).
   */
  method CreateZip(createFails: bool, walk: seq<WalkEntry>) returns (out: ZipOutcome)
    ensures createFails ==> out == Failed(false)
    ensures !createFails && (exists i :: 0 <= i < |walk| && Aborts(walk[i])) ==> out == Failed(true)
    ensures !createFails && (forall i :: 0 <= i < |walk| ==> !Aborts(walk[i])) ==> out == Archived(Entries(walk))
  {
    if createFails {
      return Failed(false);
    }
    var entries: seq<string> := [];
    for i := 0 to |walk|
      invariant forall j :: 0 <= j < i ==> !Aborts(walk[j])
      invariant entries == Entries(walk[..i])
    {
      var e := walk[i];
      assert walk[..i + 1][..i] == walk[..i];
      if e.walkError {
        return Failed(true);
      }
      if e.isDir {
        continue;
      }
      var skip := ShouldExclude(e.relPath);
      if skip {
        continue;
      }
      if e.copyError {
        return Failed(true);
      }
      entries := entries + [e.relPath];
    }
    assert walk[..|walk|] == walk;
    return Archived(entries);
  }
}
