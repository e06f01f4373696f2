/** The archive builder: stages (file, entry name) pairs, filters them by
    extension, and writes them in staging order to a gzip-compressed tar. */
module TarBuilder {
  import opened Text
  import opened Paths
  import opened Errors
  import opened FileSystems

  /** A staged file: where it is read from and the name it gets in the archive. */
  datatype Staged = Staged(filePath: string, entryName: string)

  /** The exclusion test: the file's extension is in the registered set, which
      compares ignoring case. Every registered extension is stored lower-cased
      (`ExcludeExtensions`), so the lookup is that of the lower-cased
      extension; `ExclusionIgnoresCase` states the ignore-case reading. */
  predicate Excluded(excluded: set<string>, path: string) {
    LowerAll(GetExtension(path)) in excluded
  }

  /** The entry name `AddFile` stages: the given name, or else the file's base
      name, with every '\' turned into '/'. */
  function EntryName(filePath: string, entryName: Option<string>): string {
    Replace(entryName.GetOr(GetFileName(filePath)), '\\', '/')
  }

  /** The name `AddDirectory` hands to `AddFile` for a file below `dir`: the
      prefix without trailing '/', a '/', and the path relative to `dir`; or,
      without a prefix, the file's full path. */
  function DirectoryEntryName(dir: string, filePath: string, prefix: Option<string>): string
    requires |DirPrefix(dir)| <= |filePath|
  {
    var relative := Replace(filePath[|DirPrefix(dir)|..], '\\', '/');
    if prefix.Some? then TrimEnd(prefix.value, {'/'}) + "/" + relative else filePath
  }

  /** What `AddDirectory` stages for one enumerated file. */
  function StageOne(f: string, dir: string, prefix: Option<string>, excluded: set<string>): seq<Staged>
    requires |DirPrefix(dir)| <= |f|
  {
    if Excluded(excluded, f) then [] else [Staged(f, EntryName(f, Some(DirectoryEntryName(dir, f, prefix))))]
  }

  /** What `AddDirectory` stages for the enumerated `files`, in order. */
  function StageFiles(files: seq<string>, dir: string, prefix: Option<string>, excluded: set<string>): seq<Staged>
    requires forall f <- files :: |DirPrefix(dir)| <= |f|
  {
    if files == [] then []
    else StageFiles(files[..|files| - 1], dir, prefix, excluded) + StageOne(files[|files| - 1], dir, prefix, excluded)
  }

  /** The files of `files` whose extension is not excluded, in order. */
  function NotExcluded(files: seq<string>, excluded: set<string>): (r: seq<string>)
    ensures forall f :: f in r <==> f in files && !Excluded(excluded, f)
  {
    if files == [] then []
    else
      var f := files[|files| - 1];
      NotExcluded(files[..|files| - 1], excluded) + (if Excluded(excluded, f) then [] else [f])
  }

  function FilePaths(staged: seq<Staged>): (r: seq<string>)
    ensures |r| == |staged| && forall i :: 0 <= i < |staged| ==> r[i] == staged[i].filePath
  {
    seq(|staged|, i requires 0 <= i < |staged| => staged[i].filePath)
  }

  predicate StartsWithDot(ext: string) {
    |ext| > 0 && ext[0] == '.'
  }

  /** The position of the first extension without a leading '.', or the
      length when every extension has one. */
  function FirstWithoutDot(exts: seq<string>): (k: nat)
    ensures k <= |exts|
    ensures forall i :: 0 <= i < k ==> StartsWithDot(exts[i])
    ensures k < |exts| ==> !StartsWithDot(exts[k])
  {
    if exts == [] || !StartsWithDot(exts[0]) then 0 else 1 + FirstWithoutDot(exts[1..])
  }

  function LoweredSet(exts: seq<string>): set<string> {
    set i | 0 <= i < |exts| :: LowerAll(exts[i])
  }

  /** The result of writing staged entries: the tar entries written, and the
      exception that stopped the writing, if any. */
  datatype Archived = Archived(written: seq<TarEntry>, failure: Option<Exception>)

  /** The tar entry written for one staged file that is not skipped. */
  function EntryFor(s: Staged, fs: FileSystem): TarEntry
    requires FileExists(fs, s.filePath)
  {
    if fs.nodes[s.filePath].isSymlink then TarEntry(s.entryName, SymbolicLink, Bytes([]))
    else TarEntry(s.entryName, RegularFile, fs.nodes[s.filePath].content)
  }

  /** The entry-selection loop of `Save`: entries in staging order, a symlink
      skipped when links are not followed, a missing file stopping the write. */
  function WriteEntries(staged: seq<Staged>, follow: bool, fs: FileSystem): Archived {
    if staged == [] then Archived([], None)
    else
      var previous := WriteEntries(staged[..|staged| - 1], follow, fs);
      var s := staged[|staged| - 1];
      if previous.failure.Some? then previous
      else if !follow && HasReparsePoint(fs, s.filePath) then previous
      else if !FileExists(fs, s.filePath) then Archived(previous.written, Some(FileNotFound(s.filePath)))
      else Archived(previous.written + [EntryFor(s, fs)], None)
  }

  /** The staged entries `Save` writes: all but the reparse points when links
      are not followed. */
  function Kept(staged: seq<Staged>, follow: bool, fs: FileSystem): (r: seq<Staged>)
    ensures forall s :: s in r <==> s in staged && (follow || !HasReparsePoint(fs, s.filePath))
  {
    if staged == [] then []
    else
      var s := staged[|staged| - 1];
      Kept(staged[..|staged| - 1], follow, fs) + (if !follow && HasReparsePoint(fs, s.filePath) then [] else [s])
  }

  class Builder {
    var entries: seq<Staged>
    var excluded: set<string>
    var followSymlinks: bool

    /** `TarBuilder.Construct()`. */
    constructor ()
      ensures entries == [] && excluded == {} && !followSymlinks
    {
      entries, excluded, followSymlinks := [], {}, false;
    }

    predicate IsExcluded(path: string)
      reads this
    {
      Excluded(excluded, path)
    }

    /** Stages one file: a missing file throws, an excluded one is dropped,
        anything else is appended under its entry name. */
    method AddFile(fs: FileSystem, filePath: string, entryName: Option<string>) returns (r: Outcome)
      modifies this`entries
      ensures r == if FileExists(fs, filePath) then Pass else Fail(FileNotFound(filePath))
      ensures entries == old(entries) +
                (if FileExists(fs, filePath) && !Excluded(excluded, filePath)
                 then [Staged(filePath, EntryName(filePath, entryName))] else [])
    {
      if !FileExists(fs, filePath) {
        return Fail(FileNotFound(filePath));
      }
      if !IsExcluded(filePath) {
        entries := entries + [Staged(filePath, EntryName(filePath, entryName))];
      }
      return Pass;
    }

    /** Stages every file below `dir`, in enumeration order. */
    method AddDirectory(fs: FileSystem, dir: string, prefix: Option<string>) returns (r: Outcome)
      modifies this`entries
      ensures r == if DirectoryExists(fs, dir) then Pass else Fail(DirectoryNotFound(dir))
      ensures !DirectoryExists(fs, dir) ==> entries == old(entries)
      ensures DirectoryExists(fs, dir) ==>
                entries == old(entries) + StageFiles(EnumerateFiles(fs, dir), dir, prefix, excluded)
    {
      if !DirectoryExists(fs, dir) {
        return Fail(DirectoryNotFound(dir));
      }
      var files := EnumerateFiles(fs, dir);
      EnumeratedUnder(fs, dir);
      AddEnumeratedFiles(fs, dir, prefix, files);
      return Pass;
    }

    /** The `foreach` of `AddDirectory` over the enumerated files. */
    method AddEnumeratedFiles(fs: FileSystem, dir: string, prefix: Option<string>, files: seq<string>)
      requires Enumerable(fs, dir, files)
      modifies this`entries
      ensures entries == old(entries) + StageFiles(files, dir, prefix, excluded)
    {
      var ex := excluded;
      ghost var start := entries;
      for i := 0 to |files|
        invariant excluded == ex
        invariant entries == start + StageFiles(files[..i], dir, prefix, ex)
      {
        AddNext(fs, dir, prefix, files, i, start);
      }
      TakeAll(files);
    }

    /** One turn of the `AddDirectory` loop, stated over the files staged so far. */
    method AddNext(fs: FileSystem, dir: string, prefix: Option<string>, files: seq<string>, i: nat, ghost start: seq<Staged>)
      requires Enumerable(fs, dir, files) && i < |files|
      requires entries == start + StageFiles(files[..i], dir, prefix, excluded)
      modifies this`entries
      ensures entries == start + StageFiles(files[..i + 1], dir, prefix, excluded)
    {
      EnumerableStep(fs, dir, files, i, start, prefix, excluded);
      AddEnumerated(fs, dir, prefix, files[i]);
    }

    /** The body of the `AddDirectory` loop: an excluded file is skipped, any
        other is added under its directory entry name. */
    method AddEnumerated(fs: FileSystem, dir: string, prefix: Option<string>, filePath: string)
      requires |DirPrefix(dir)| <= |filePath| && FileExists(fs, filePath)
      modifies this`entries
      ensures entries == old(entries) + StageOne(filePath, dir, prefix, excluded)
    {
      if IsExcluded(filePath) {
        return;
      }
      var archivePath := DirectoryEntryName(dir, filePath, prefix);
      var _ := AddFile(fs, filePath, Some(archivePath));
    }

    /** Registers extensions in order; the first one without a leading '.'
        throws, and those before it stay registered. */
    method ExcludeExtensions(exts: seq<string>) returns (r: Outcome)
      modifies this`excluded
      ensures excluded == old(excluded) + LoweredSet(exts[..FirstWithoutDot(exts)])
      ensures r == if FirstWithoutDot(exts) < |exts| then Fail(Argument("Extension must start with a '.'")) else Pass
    {
      for i := 0 to |exts|
        invariant i <= FirstWithoutDot(exts)
        invariant excluded == old(excluded) + LoweredSet(exts[..i])
      {
        if !StartsWithDot(exts[i]) {
          return Fail(Argument("Extension must start with a '.'"));
        }
        assert LoweredSet(exts[..i + 1]) == LoweredSet(exts[..i]) + {LowerAll(exts[i])};
        excluded := excluded + {LowerAll(exts[i])};
      }
      assert exts[..|exts|] == exts;
      return Pass;
    }

    method FollowSymlinks(follow: bool)
      modifies this`followSymlinks
      ensures followSymlinks == follow
    {
      followSymlinks := follow;
    }

    /** Creates the output file, then writes the staged entries in staging
        order. The partly written archive stays on disk when an entry fails. */
    method Save(fs: FileSystem, outputPath: string) returns (fs': FileSystem, r: Outcome)
      ensures CreateFile(fs, outputPath, TarGz([])).Failure? ==>
                fs' == fs && r == Fail(CreateFile(fs, outputPath, TarGz([])).error)
      ensures CreateFile(fs, outputPath, TarGz([])).Success? ==>
                var a := WriteEntries(entries, followSymlinks, fs);
                && fs' == CreateFile(fs, outputPath, TarGz(a.written)).value
                && r == (if a.failure.Some? then Fail(a.failure.value) else Pass)
    {
      var created := CreateFile(fs, outputPath, TarGz([]));
      if created.Failure? {
        return fs, Fail(created.error);
      }
      var written: seq<TarEntry> := [];
      var failure: Option<Exception> := None;
      var i := 0;
      while i < |entries| && failure.None?
        invariant 0 <= i <= |entries|
        invariant WriteEntries(entries[..i], followSymlinks, fs) == Archived(written, failure)
      {
        var s := entries[i];
        WriteEntriesSnoc(entries, i, followSymlinks, fs);
        if !followSymlinks && HasReparsePoint(fs, s.filePath) {
          // skipped: "Skipping symlink"
        } else if !FileExists(fs, s.filePath) {
          failure := Some(FileNotFound(s.filePath));
        } else {
          written := written + [EntryFor(s, fs)];
        }
        i := i + 1;
      }
      FailureIsFinal(entries, i, followSymlinks, fs);
      fs' := CreateFile(fs, outputPath, TarGz(written)).value;
      r := if failure.Some? then Fail(failure.value) else Pass;
    }
  }

  /** Every file of `files` lies below `dir` and exists. */
  predicate Enumerable(fs: FileSystem, dir: string, files: seq<string>) {
    forall f <- files :: |DirPrefix(dir)| <= |f| && FileExists(fs, f)
  }

  lemma EnumeratedUnder(fs: FileSystem, dir: string)
    ensures Enumerable(fs, dir, EnumerateFiles(fs, dir))
  {
  }

  /** One turn of the `AddDirectory` loop: the next file is below `dir` and
      exists, and staging it extends the staged prefix by one file. */
  lemma EnumerableStep(fs: FileSystem, dir: string, files: seq<string>, i: nat, start: seq<Staged>,
                       prefix: Option<string>, excluded: set<string>)
    requires Enumerable(fs, dir, files) && i < |files|
    ensures |DirPrefix(dir)| <= |files[i]| && FileExists(fs, files[i])
    ensures start + StageFiles(files[..i + 1], dir, prefix, excluded)
         == (start + StageFiles(files[..i], dir, prefix, excluded)) + StageOne(files[i], dir, prefix, excluded)
  {
    assert files[i] in files;
    StageFilesSnoc(files, i, dir, prefix, excluded);
    AppendAssoc(start, StageFiles(files[..i], dir, prefix, excluded), StageOne(files[i], dir, prefix, excluded));
  }

  lemma StageFilesSnoc(files: seq<string>, i: nat, dir: string, prefix: Option<string>, excluded: set<string>)
    requires i < |files|
    requires forall f <- files :: |DirPrefix(dir)| <= |f|
    ensures StageFiles(files[..i + 1], dir, prefix, excluded)
         == StageFiles(files[..i], dir, prefix, excluded) + StageOne(files[i], dir, prefix, excluded)
  {
    assert files[..i + 1][..i] == files[..i];
  }

  lemma WriteEntriesSnoc(staged: seq<Staged>, i: nat, follow: bool, fs: FileSystem)
    requires i < |staged|
    ensures WriteEntries(staged[..i + 1], follow, fs)
         == var previous := WriteEntries(staged[..i], follow, fs);
            var s := staged[i];
            if previous.failure.Some? then previous
            else if !follow && HasReparsePoint(fs, s.filePath) then previous
            else if !FileExists(fs, s.filePath) then Archived(previous.written, Some(FileNotFound(s.filePath)))
            else Archived(previous.written + [EntryFor(s, fs)], None)
  {
    assert staged[..i + 1][..i] == staged[..i];
  }

  /** Once an entry has failed, the later ones are never written. */
  lemma {:induction false} FailureIsFinal(staged: seq<Staged>, k: nat, follow: bool, fs: FileSystem)
    requires k <= |staged|
    requires k == |staged| || WriteEntries(staged[..k], follow, fs).failure.Some?
    ensures WriteEntries(staged, follow, fs) == WriteEntries(staged[..k], follow, fs)
    decreases |staged| - k
  {
    if k < |staged| {
      assert staged[..|staged| - 1][..k] == staged[..k];
      FailureIsFinal(staged[..|staged| - 1], k, follow, fs);
    } else {
      assert staged[..k] == staged;
    }
  }

  lemma FilePathsAppend(a: seq<Staged>, b: seq<Staged>)
    ensures FilePaths(a + b) == FilePaths(a) + FilePaths(b)
  {
  }

  lemma FilePathsOfOne(f: string, dir: string, prefix: Option<string>, excluded: set<string>)
    requires |DirPrefix(dir)| <= |f|
    ensures FilePaths(StageOne(f, dir, prefix, excluded)) == if Excluded(excluded, f) then [] else [f]
  {
    var one := StageOne(f, dir, prefix, excluded);
    assert |one| <= 1 && (one == [] <==> Excluded(excluded, f));
    assert one != [] ==> one[0].filePath == f;
  }

  /** `AddDirectory` stages exactly the enumerated files whose extension is not
      excluded, in enumeration order. */
  lemma {:induction false} StageFilesSelects(files: seq<string>, dir: string, prefix: Option<string>, excluded: set<string>)
    requires forall f <- files :: |DirPrefix(dir)| <= |f|
    ensures FilePaths(StageFiles(files, dir, prefix, excluded)) == NotExcluded(files, excluded)
  {
    if files != [] {
      var init, f := files[..|files| - 1], files[|files| - 1];
      StageFilesSelects(init, dir, prefix, excluded);
      FilePathsAppend(StageFiles(init, dir, prefix, excluded), StageOne(f, dir, prefix, excluded));
      FilePathsOfOne(f, dir, prefix, excluded);
    }
  }

  /** Every name `AddDirectory` stages uses '/' only. */
  lemma {:induction false} StagedNamesUseSlash(files: seq<string>, dir: string, prefix: Option<string>, excluded: set<string>)
    requires forall f <- files :: |DirPrefix(dir)| <= |f|
    ensures forall s <- StageFiles(files, dir, prefix, excluded) :: '\\' !in s.entryName
  {
    if files != [] {
      var init, f := files[..|files| - 1], files[|files| - 1];
      StagedNamesUseSlash(init, dir, prefix, excluded);
      StageOneUsesSlash(f, dir, prefix, excluded);
      assert StageFiles(files, dir, prefix, excluded)
          == StageFiles(init, dir, prefix, excluded) + StageOne(f, dir, prefix, excluded);
    }
  }

  lemma StageOneUsesSlash(f: string, dir: string, prefix: Option<string>, excluded: set<string>)
    requires |DirPrefix(dir)| <= |f|
    ensures forall s <- StageOne(f, dir, prefix, excluded) :: '\\' !in s.entryName
  {
  }

  /** The name a file below `dir` is staged under: the prefix without its
      trailing '/', then '/' and the relative path; or, without a prefix, the
      full path; '\' turned into '/' in either case. */
  lemma StagedName(dir: string, f: string, prefix: Option<string>)
    requires StartsWith(f, DirPrefix(dir))
    ensures prefix.Some? ==>
              EntryName(f, Some(DirectoryEntryName(dir, f, prefix)))
              == Replace(TrimEnd(prefix.value, {'/'}), '\\', '/') + "/" + Replace(f[|DirPrefix(dir)|..], '\\', '/')
    ensures prefix.None? ==> EntryName(f, Some(DirectoryEntryName(dir, f, prefix))) == Replace(f, '\\', '/')
  {
    if prefix.Some? {
      var t, rel := TrimEnd(prefix.value, {'/'}), f[|DirPrefix(dir)|..];
      var n := t + "/" + Replace(rel, '\\', '/');
      assert Replace(n, '\\', '/') == Replace(t, '\\', '/') + "/" + Replace(rel, '\\', '/');
    }
  }

  /** Registered extensions are stored lower-cased, and the exclusion test
      matches an extension in any letter case. */
  lemma ExclusionIgnoresCase(exts: seq<string>, path: string)
    ensures Excluded(LoweredSet(exts), path) <==>
              exists i :: 0 <= i < |exts| && EqualsIgnoreCase(exts[i], GetExtension(path))
  {
    forall i | 0 <= i < |exts|
      ensures EqualsIgnoreCase(LowerAll(exts[i]), GetExtension(path)) == EqualsIgnoreCase(exts[i], GetExtension(path))
    {
      LowerAllIdempotent(exts[i]);
    }
  }

  /** Without following links, `Save` never fails while no staged path has
      become a directory: it writes, in staging order, one regular-file entry
      per staged file that is present and not a symlink. */
  lemma {:induction false} SaveSkipsLinks(staged: seq<Staged>, fs: FileSystem)
    requires forall s <- staged :: s.filePath in fs.nodes ==> fs.nodes[s.filePath].File?
    ensures WriteEntries(staged, false, fs).failure == None
    ensures var w, k := WriteEntries(staged, false, fs).written, Kept(staged, false, fs);
            && |w| == |k|
            && forall i :: 0 <= i < |k| ==>
                 && FileExists(fs, k[i].filePath) && !fs.nodes[k[i].filePath].isSymlink
                 && w[i] == TarEntry(k[i].entryName, RegularFile, fs.nodes[k[i].filePath].content)
  {
    if staged != [] {
      SaveSkipsLinks(staged[..|staged| - 1], fs);
    }
  }

  /** Following links, `Save` writes every staged entry, in staging order, as
      long as every staged path is a file. */
  lemma {:induction false} SaveFollowingLinks(staged: seq<Staged>, fs: FileSystem)
    requires forall s <- staged :: FileExists(fs, s.filePath)
    ensures WriteEntries(staged, true, fs).failure == None
    ensures var w := WriteEntries(staged, true, fs).written;
            |w| == |staged| && forall i :: 0 <= i < |staged| ==> w[i] == EntryFor(staged[i], fs)
  {
    if staged != [] {
      SaveFollowingLinks(staged[..|staged| - 1], fs);
    }
  }
}
