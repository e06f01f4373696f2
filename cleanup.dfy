/** Retention: keeps the newest `KeepLastBackups` archives of a unit and
    tries to delete every older one, carrying on past a deletion that fails. */
module Cleanup {
  import opened Errors
  import opened FileSystems
  import opened Units
  import opened TarSearcher

  /** `matchingFiles.Skip(keep)` when there are more than `keep` archives,
      and nothing otherwise; `Skip` of a negative count skips nothing. */
  function Stale(found: seq<string>, keep: int): (r: seq<string>)
    ensures |found| <= keep ==> r == []
    ensures |found| > keep ==> |r| == |found| - (if keep < 0 then 0 else keep)
    ensures forall i :: 0 <= i < |r| ==> r[i] == found[|found| - |r| + i]
  {
    if |found| <= keep then [] else found[(if keep < 0 then 0 else keep)..]
  }

  /** The paths whose deletion succeeds, out of `files`. */
  function Deletable(files: seq<string>, undeletable: set<string>): set<string> {
    set p | p in files && p !in undeletable
  }

  /** The filesystem and outcome a cleanup leaves: the search's exception,
      or every stale archive gone except those that could not be deleted. */
  function Retained(fs: FileSystem, searched: Unit, keep: int, undeletable: set<string>): (FileSystem, Outcome) {
    match FindBackupsFromNewestToOldest(fs, searched)
    case Failure(e) => (fs, Fail(e))
    case Success(found) => (fs.(nodes := fs.nodes - Deletable(Stale(PathsOf(found), keep), undeletable)), Pass)
  }

  /** The `foreach` over the stale archives: each deletion is tried in
      turn; one that throws is logged and skipped. */
  method DeleteEach(fs: FileSystem, files: seq<string>, undeletable: set<string>) returns (fs': FileSystem, attempted: seq<string>)
    ensures attempted == files
    ensures fs'.nodes == fs.nodes - Deletable(files, undeletable)
    ensures fs'.order == fs.order && fs'.cwd == fs.cwd
  {
    fs', attempted := fs, [];
    for i := 0 to |files|
      invariant attempted == files[..i]
      invariant fs'.nodes == fs.nodes - Deletable(attempted, undeletable)
      invariant fs'.order == fs.order && fs'.cwd == fs.cwd
    {
      var file := files[i];
      assert files[..i + 1] == attempted + [file];
      if file in undeletable {
        // "Failed deleting ..."
      } else {
        fs' := Delete(fs', file);
      }
      attempted := attempted + [file];
    }
    assert files[..|files|] == files;
  }

  class CleanupProcessor {
    const numKeepNewest: int
    /** The unit as it was when the processor was made; its searcher lists
        that unit's destination for that unit's name. */
    const searched: Unit

    /** `new CleanupProcessor(unit)`: the keep count, destination and name
        are read once, here. */
    constructor (unit: Unit)
      ensures numKeepNewest == unit.keepLastBackups && searched == unit
    {
      numKeepNewest := unit.keepLastBackups;
      searched := unit;
    }

    /** Lists the unit's archives newest first and tries to delete all but
        the newest `numKeepNewest`, in list order. A deletion that throws
        (a path in `undeletable`) is logged and the next one is tried; a
        failing search throws out of `Cleanup`. `attempted` lists the
        deletions tried, in order. */
    method Cleanup(fs: FileSystem, undeletable: set<string>) returns (fs': FileSystem, r: Outcome, attempted: seq<string>)
      ensures FindBackupsFromNewestToOldest(fs, searched).Failure? ==>
                fs' == fs && attempted == [] && r == Fail(FindBackupsFromNewestToOldest(fs, searched).error)
      ensures FindBackupsFromNewestToOldest(fs, searched).Success? ==>
                && r == Pass
                && attempted == Stale(PathsOf(FindBackupsFromNewestToOldest(fs, searched).value), numKeepNewest)
                && fs'.nodes == fs.nodes - Deletable(attempted, undeletable)
                && fs'.order == fs.order && fs'.cwd == fs.cwd
      ensures (fs', r) == Retained(fs, searched, numKeepNewest, undeletable)
    {
      var found := FindBackupsFromNewestToOldest(fs, searched);
      if found.Failure? {
        return fs, Fail(found.error), [];
      }
      var matchingFiles := PathsOf(found.value);
      var filesToDelete := Stale(matchingFiles, numKeepNewest);
      if |matchingFiles| <= numKeepNewest {
        // "No deletions."
        NothingDeleted(fs, undeletable);
        return fs, Pass, [];
      }
      fs', attempted := DeleteEach(fs, filesToDelete, undeletable);
      r := Pass;
      assert fs' == fs.(nodes := fs.nodes - Deletable(filesToDelete, undeletable));
    }
  }

  lemma NothingDeleted(fs: FileSystem, undeletable: set<string>)
    ensures fs.nodes - Deletable([], undeletable) == fs.nodes
  {
    assert Deletable([], undeletable) == {};
  }

  /** The retention promise, over what a cleanup leaves. Every archive kept
      is at least as new as every archive whose deletion is tried; of the
      archives found, exactly the newest `keep` and the undeletable ones
      remain, untouched; and no other path changes. */
  lemma RetainedKeepsNewest(fs: FileSystem, searched: Unit, keep: int, undeletable: set<string>, found: seq<Candidate>)
    requires FindBackupsFromNewestToOldest(fs, searched) == Success(found)
    requires NoDuplicates(fs.order)
    ensures forall i, j :: 0 <= i < keep <= j < |found| ==> Instant(found[j].time) <= Instant(found[i].time)
    ensures var fs' := Retained(fs, searched, keep, undeletable).0;
            forall i :: 0 <= i < |found| ==>
              (found[i].path in fs'.nodes <==> i < keep || found[i].path in undeletable)
    ensures var fs' := Retained(fs, searched, keep, undeletable).0;
            forall p :: p in fs'.nodes ==> p in fs.nodes && fs'.nodes[p] == fs.nodes[p]
    ensures var fs' := Retained(fs, searched, keep, undeletable).0;
            forall p :: p in fs.nodes && p !in PathsOf(found) ==> p in fs'.nodes
  {
    FoundPathsDistinct(fs, searched);
    var paths := PathsOf(found);
    forall i | 0 <= i < |paths| ensures paths[i] in fs.nodes {
      assert found[i] in found;
    }
    StaleDeletion(fs.nodes, paths, keep, undeletable);
  }

  /** Deleting the stale part of a list of distinct, existing paths leaves
      exactly the first `keep` of them and the undeletable ones. */
  lemma StaleDeletion(nodes: map<string, Node>, paths: seq<string>, keep: int, undeletable: set<string>)
    requires NoDuplicates(paths)
    requires forall i :: 0 <= i < |paths| ==> paths[i] in nodes
    ensures var nodes' := nodes - Deletable(Stale(paths, keep), undeletable);
            forall i :: 0 <= i < |paths| ==> (paths[i] in nodes' <==> i < keep || paths[i] in undeletable)
  {
    var stale := Stale(paths, keep);
    var k := if keep < 0 then 0 else keep;
    forall i | 0 <= i < |paths| ensures paths[i] in stale <==> k <= i && keep < |paths| {
      if paths[i] in stale {
        var m :| 0 <= m < |stale| && stale[m] == paths[i];
        assert paths[|paths| - |stale| + m] == paths[i];
      }
    }
  }
}
