/** Backing up and restoring one unit: the guards (enabled, valid), the
    archive built from the unit's sources, its name in the destination, the
    retention cleanup after a backup, and the restore of the newest archive
    into the source directories. */
module UnitProcessor {
  import opened Text
  import opened Paths
  import opened Errors
  import opened FileSystems
  import opened Units
  import opened UnitValidator
  import opened TarBuilder
  import opened TarExtractor
  import opened TarSearcher
  import opened Cleanup

  /** The `w` low decimal digits of `n`, most significant first, padded with
      '0'. */
  function Digits(n: nat, w: nat): (r: string)
    ensures |r| == w && AllDigits(r)
  {
    if w == 0 then [] else Digits(n / 10, w - 1) + [('0' as int + n % 10) as char]
  }

  /** `{now:yyyyMMddHHmmss}`. */
  function FormatStamp(t: DateTime): (r: string)
    requires ValidDateTime(t)
    ensures |r| == StampLength && AllDigits(r)
  {
    Digits(t.year, 4) + Digits(t.month, 2) + Digits(t.day, 2)
    + Digits(t.hour, 2) + Digits(t.minute, 2) + Digits(t.second, 2)
  }

  /** The archive a backup writes: `<destination>/<unit>-<stamp>.tar.gz`. */
  function OutputName(unit: Unit, now: DateTime): string
    requires ValidDateTime(now)
  {
    Join(unit.destination, unit.unitName + "-" + FormatStamp(now) + ArchiveSuffix)
  }

  /** The prefix a source's files get in the archive: the source itself with
      absolute paths, else its last path component (taken as written, so a
      trailing '/' leaves it empty). */
  function ArchivePrefix(unit: Unit, source: string): string {
    if unit.useAbsolutePaths then source else GetFileName(source)
  }

  /** The archive folder a restore maps onto a source: the source itself with
      absolute paths, else the last component of the source less trailing
      '/' and '\'. */
  function RestoreFolder(unit: Unit, source: string): string {
    if unit.useAbsolutePaths then source else GetFileName(TrimEnd(source, {'/', '\\'}))
  }

  /** Whether the unit goes ahead: `false` when disabled or when validation
      reports errors; validation's exception escapes. */
  function Guards(fs: FileSystem, unit: Unit): Result<bool> {
    if !unit.enabled then Success(false)
    else match Validation(fs, unit)
      case Failure(e) => Failure(e)
      case Success(errors) => Success(errors == [])
  }

  /** What `AddDirectory` stages for one source. */
  function DirStaged(fs: FileSystem, dir: string, prefix: string, excluded: set<string>): seq<Staged> {
    EnumeratedUnder(fs, dir);
    StageFiles(EnumerateFiles(fs, dir), dir, Some(prefix), excluded)
  }

  /** The source loop of a backup over the first `k` sources: each source's
      files in turn; a source that is not a directory throws. */
  function StageSources(fs: FileSystem, unit: Unit, excluded: set<string>, k: nat): Result<seq<Staged>>
    requires k <= |unit.sources|
  {
    if k == 0 then Success([])
    else match StageSources(fs, unit, excluded, k - 1)
      case Failure(e) => Failure(e)
      case Success(prev) =>
        var source := unit.sources[k - 1];
        if !DirectoryExists(fs, source) then Failure(DirectoryNotFound(source))
        else Success(prev + DirStaged(fs, source, ArchivePrefix(unit, source), excluded))
  }

  /** The staged entries of a backup, or the exception that stops it before
      anything is written. */
  function Staging(fs: FileSystem, unit: Unit): Result<seq<Staged>> {
    if FirstWithoutDot(unit.excludes) < |unit.excludes| then Failure(Argument("Extension must start with a '.'"))
    else StageSources(fs, unit, LoweredSet(unit.excludes), |unit.sources|)
  }

  /** A backup once the guards passed and links are switched off: stage,
      write the archive (a partial archive stays when writing stops), then
      clean up old archives. */
  function Backup(fs: FileSystem, unit: Unit, now: DateTime, undeletable: set<string>): (FileSystem, Outcome)
    requires ValidDateTime(now)
  {
    match Staging(fs, unit)
    case Failure(e) => (fs, Fail(e))
    case Success(staged) =>
      var out := OutputName(unit, now);
      match CreateFile(fs, out, TarGz([]))
      case Failure(e) => (fs, Fail(e))
      case Success(_) =>
        var a := WriteEntries(staged, false, fs);
        var saved := CreateFile(fs, out, TarGz(a.written)).value;
        if a.failure.Some? then (saved, Fail(a.failure.value))
        else Retained(saved, unit, unit.keepLastBackups, undeletable)
  }

  /** The filesystem and folder table after some `MapFolder` calls, and the
      exception that stopped them, if any. */
  datatype Mapped = Mapped(fs: FileSystem, mappings: seq<Mapping>, failure: Option<Exception>)

  /** The key `MapFolder` stores for a source. */
  function RestoreKey(unit: Unit, source: string): string {
    Trim(Replace(RestoreFolder(unit, source), '\\', '/'), {'/'})
  }

  /** One `MapFolder` call for `source`. */
  function MapOne(prev: Mapped, unit: Unit, source: string): Mapped {
    var key := RestoreKey(unit, source);
    var dest := Replace(source, '\\', '/');
    if DirectoryExists(prev.fs, dest) then Mapped(prev.fs, Put(prev.mappings, key, GetFullPath(prev.fs.cwd, dest)), None)
    else match CreateDirectory(prev.fs, dest)
      case Failure(e) => Mapped(prev.fs, prev.mappings, Some(e))
      case Success(created) => Mapped(created, Put(prev.mappings, key, GetFullPath(prev.fs.cwd, dest)), None)
  }

  /** The mapping loop of a restore over the remaining `sources`, from the
      state `prev`; the first exception ends it. */
  function MapAll(prev: Mapped, unit: Unit, sources: seq<string>): Mapped
    decreases |sources|
  {
    if prev.failure.Some? || sources == [] then prev
    else MapAll(MapOne(prev, unit, sources[0]), unit, sources[1..])
  }

  /** `Extract` on the archive at `archive`. */
  function Extraction(fs: FileSystem, archive: string, mappings: seq<Mapping>, force: bool): (FileSystem, Outcome) {
    if !FileExists(fs, archive) then (fs, Fail(FileNotFound(archive)))
    else if !fs.nodes[archive].content.TarGz? then (fs, Fail(InvalidArchive(archive)))
    else
      var x := ExtractAll(fs.nodes[archive].content.entries, mappings, force, fs);
      (x.fs, if x.failure.Some? then Fail(x.failure.value) else Pass)
  }

  /** A restore from the archive at `latest`: it must exist; each source's
      archive folder is mapped onto the source, then the archive is
      extracted. */
  function RestoreFrom(fs: FileSystem, unit: Unit, latest: string, force: bool): (FileSystem, Outcome) {
    if !FileExists(fs, latest) then (fs, Fail(FileNotFound(latest)))
    else
      var m := MapAll(Mapped(fs, [], None), unit, unit.sources);
      if m.failure.Some? then (m.fs, Fail(m.failure.value))
      else Extraction(m.fs, latest, m.mappings, force)
  }

  /** A restore once the guards passed: find the newest archive (none found
      is logged and ends the restore) and restore from it. */
  function Restore(fs: FileSystem, unit: Unit, force: bool): (FileSystem, Outcome) {
    match FindBackupsFromNewestToOldest(fs, unit)
    case Failure(e) => (fs, Fail(e))
    case Success(found) =>
      if found == [] then (fs, Pass)
      else RestoreFrom(fs, unit, found[0].path, force)
  }

  /** The search reads only a unit's destination and name. */
  lemma SearchReadsDestinationAndName(fs: FileSystem, a: Unit, b: Unit)
    requires a.destination == b.destination && a.unitName == b.unitName
    ensures FindBackupsFromNewestToOldest(fs, a) == FindBackupsFromNewestToOldest(fs, b)
  {
  }

  lemma StageSourcesSnoc(fs: FileSystem, unit: Unit, excluded: set<string>, k: nat)
    requires k < |unit.sources|
    requires StageSources(fs, unit, excluded, k).Success?
    ensures StageSources(fs, unit, excluded, k + 1) ==
              var source := unit.sources[k];
              if !DirectoryExists(fs, source) then Failure(DirectoryNotFound(source))
              else Success(StageSources(fs, unit, excluded, k).value + DirStaged(fs, source, ArchivePrefix(unit, source), excluded))
  {
  }

  lemma {:induction false} StageFailureIsFinal(fs: FileSystem, unit: Unit, excluded: set<string>, k: nat, n: nat)
    requires k <= n <= |unit.sources|
    requires StageSources(fs, unit, excluded, k).Failure?
    ensures StageSources(fs, unit, excluded, n) == StageSources(fs, unit, excluded, k)
    decreases n
  {
    if n > k {
      StageFailureIsFinal(fs, unit, excluded, k, n - 1);
    }
  }

  /** The source loop of `BackupUnit`: each source is added under its
      archive prefix; a source that is not a directory throws. */
  method StageAll(fs: FileSystem, u: Unit, builder: Builder) returns (r: Outcome)
    modifies builder`entries
    requires builder.entries == []
    ensures var st := StageSources(fs, u, builder.excluded, |u.sources|);
            && (st.Failure? ==> r == Fail(st.error))
            && (st.Success? ==> r == Pass && builder.entries == st.value)
  {
    var sources := u.sources;
    for i := 0 to |sources|
      invariant StageSources(fs, u, builder.excluded, i) == Success(builder.entries)
    {
      var added := StageNext(fs, u, builder, i);
      if added.Fail? {
        StageFailureIsFinal(fs, u, builder.excluded, i + 1, |sources|);
        return added;
      }
    }
    return Pass;
  }

  /** One turn of the source loop: source `i` is added under its prefix. */
  method StageNext(fs: FileSystem, u: Unit, builder: Builder, i: nat) returns (r: Outcome)
    modifies builder`entries
    requires i < |u.sources|
    requires StageSources(fs, u, builder.excluded, i) == Success(builder.entries)
    ensures var st := StageSources(fs, u, builder.excluded, i + 1);
            && (st.Failure? ==> r == Fail(st.error))
            && (st.Success? ==> r == Pass && builder.entries == st.value)
  {
    ghost var before := builder.entries;
    var source := u.sources[i];
    r := builder.AddDirectory(fs, source, Some(ArchivePrefix(u, source)));
    StageNextStep(fs, u, builder.excluded, i, before, builder.entries, r);
  }

  /** What one turn of the source loop leaves behind, given what
      `AddDirectory` promises for source `i`. */
  lemma StageNextStep(fs: FileSystem, u: Unit, excluded: set<string>, i: nat,
                      before: seq<Staged>, after: seq<Staged>, r: Outcome)
    requires i < |u.sources|
    requires StageSources(fs, u, excluded, i) == Success(before)
    requires r == if DirectoryExists(fs, u.sources[i]) then Pass else Fail(DirectoryNotFound(u.sources[i]))
    requires DirectoryExists(fs, u.sources[i]) ==>
               after == before + StageFiles(EnumerateFiles(fs, u.sources[i]), u.sources[i],
                                            Some(ArchivePrefix(u, u.sources[i])), excluded)
    ensures var st := StageSources(fs, u, excluded, i + 1);
            && (st.Failure? ==> r == Fail(st.error))
            && (st.Success? ==> r == Pass && after == st.value)
  {
    StageSourcesNext(fs, u, excluded, i, before);
  }

  lemma StageSourcesNext(fs: FileSystem, u: Unit, excluded: set<string>, i: nat, staged: seq<Staged>)
    requires i < |u.sources|
    requires StageSources(fs, u, excluded, i) == Success(staged)
    ensures var source := u.sources[i];
            StageSources(fs, u, excluded, i + 1) ==
              if DirectoryExists(fs, source)
              then Success(staged + StageFiles(EnumerateFiles(fs, source), source, Some(ArchivePrefix(u, source)), excluded))
              else Failure(DirectoryNotFound(source))
  {
    StageSourcesSnoc(fs, u, excluded, i);
  }

  lemma MapAllStep(prev: Mapped, unit: Unit, sources: seq<string>)
    requires prev.failure.None? && sources != []
    ensures MapAll(prev, unit, sources) == MapAll(MapOne(prev, unit, sources[0]), unit, sources[1..])
  {
  }

  /** The mapping loop of `LoadUnit`: each source's archive folder is mapped
      onto the source, in order, until one `MapFolder` throws. */
  method MapSources(fs: FileSystem, u: Unit, extractor: Extractor) returns (fs': FileSystem, r: Outcome)
    requires extractor.Valid() && extractor.mappings == []
    modifies extractor`mappings
    ensures extractor.Valid()
    ensures var m := MapAll(Mapped(fs, [], None), u, u.sources);
            && fs' == m.fs
            && (m.failure.Some? ==> r == Fail(m.failure.value))
            && (m.failure.None? ==> r == Pass && extractor.mappings == m.mappings)
  {
    var sources := u.sources;
    fs' := fs;
    for i := 0 to |sources|
      invariant extractor.Valid()
      invariant MapAll(Mapped(fs', extractor.mappings, None), u, sources[i..]) == MapAll(Mapped(fs, [], None), u, sources)
    {
      ghost var before := Mapped(fs', extractor.mappings, None);
      MapAllStep(before, u, sources[i..]);
      assert sources[i..][0] == sources[i] && sources[i..][1..] == sources[i + 1..];
      ghost var next := MapOne(before, u, sources[i]);
      var archivePath := RestoreFolder(u, sources[i]);
      // "Extracting all archived files in ... to ..."
      var mapped;
      fs', mapped := extractor.MapFolder(fs', archivePath, sources[i]);
      if mapped.Fail? {
        assert next == Mapped(fs', extractor.mappings, Some(mapped.error));
        return fs', mapped;
      }
      assert next == Mapped(fs', extractor.mappings, None);
    }
    return fs', Pass;
  }

  /** `LoadUnit` from the newest archive on: opens it, maps the sources,
      extracts. */
  method RestoreFromLatest(fs: FileSystem, u: Unit, latest: string, force: bool) returns (fs': FileSystem, r: Outcome)
    ensures (fs', r) == RestoreFrom(fs, u, latest, force)
  {
    var constructed := Construct(fs, latest);
    if constructed.Failure? {
      return fs, Fail(constructed.error);
    }
    var extractor := constructed.value;
    extractor.ForceOverwrite(force);
    var mapped;
    fs', mapped := MapSources(fs, u, extractor);
    ghost var m := MapAll(Mapped(fs, [], None), u, u.sources);
    if mapped.Fail? {
      return fs', mapped;
    }
    assert extractor.mappings == m.mappings && extractor.forceOverwrite == force;
    fs', r := extractor.Extract(fs');
  }

  class UnitProcessor {
    /** The unit, shared with the configuration it came from. */
    var unit: Unit
    const validator: UnitValidator
    const cleanup: CleanupProcessor
    /** The unit as the searcher captured it. */
    const searched: Unit

    /** The helpers were all made from the unit, and the processor changes
        no field of it but `followSymlinks`. */
    predicate Valid()
      reads this
    {
      && validator.unit == searched
      && cleanup.searched == searched
      && cleanup.numKeepNewest == searched.keepLastBackups
      && unit == searched.(followSymlinks := unit.followSymlinks)
    }

    constructor (unit: Unit)
      ensures this.unit == unit && searched == unit && Valid()
    {
      this.unit := unit;
      validator := new UnitValidator(unit);
      cleanup := new CleanupProcessor(unit);
      searched := unit;
    }

    /** Writes a new archive of the unit and prunes old ones. `now` stands
        for the clock and `undeletable` for the archives whose deletion
        throws. */
    method BackupUnit(fs: FileSystem, now: DateTime, undeletable: set<string>) returns (fs': FileSystem, r: Outcome)
      requires Valid() && ValidDateTime(now)
      modifies this`unit
      ensures Valid()
      ensures Guards(fs, old(unit)).Failure? ==>
                fs' == fs && r == Fail(Guards(fs, old(unit)).error) && unit == old(unit)
      ensures Guards(fs, old(unit)) == Success(false) ==> fs' == fs && r == Pass && unit == old(unit)
      ensures Guards(fs, old(unit)) == Success(true) ==>
                unit == old(unit).(followSymlinks := false) && (fs', r) == Backup(fs, unit, now, undeletable)
    {
      var proceed := ProcessGuards(fs);
      if proceed.Failure? {
        return fs, Fail(proceed.error);
      }
      if !proceed.value {
        return fs, Pass;
      }
      if unit.followSymlinks {
        // "FollowSymlinks is not yet supported! Ignoring symlinks!"
        unit := unit.(followSymlinks := false);
      }
      fs', r := Archive(fs, unit, now, undeletable);
    }

    /** The body of `BackupUnit` after the guards: builds and saves the
        archive of `u`, then runs the cleanup. */
    method Archive(fs: FileSystem, u: Unit, now: DateTime, undeletable: set<string>) returns (fs': FileSystem, r: Outcome)
      requires ValidDateTime(now)
      requires cleanup.searched.destination == u.destination && cleanup.searched.unitName == u.unitName
      requires cleanup.numKeepNewest == u.keepLastBackups && !u.followSymlinks
      ensures (fs', r) == Backup(fs, u, now, undeletable)
    {
      var builder := new Builder();
      var excluding := builder.ExcludeExtensions(u.excludes);
      if excluding.Fail? {
        return fs, excluding;
      }
      assert u.excludes[..|u.excludes|] == u.excludes;
      assert builder.excluded == LoweredSet(u.excludes);
      builder.FollowSymlinks(u.followSymlinks);
      // `IgnoreGitRepositories` changes nothing.
      var staged := StageAll(fs, u, builder);
      assert Staging(fs, u) == StageSources(fs, u, builder.excluded, |u.sources|);
      if staged.Fail? {
        return fs, staged;
      }
      var outputName := OutputName(u, now);
      fs', r := builder.Save(fs, outputName);
      if r.Fail? {
        return;
      }
      // "Unit ... saved to ..."
      SearchReadsDestinationAndName(fs', cleanup.searched, u);
      var attempted;
      fs', r, attempted := cleanup.Cleanup(fs', undeletable);
    }

    /** Restores the newest archive of the unit into its sources. */
    method LoadUnit(fs: FileSystem, force: bool) returns (fs': FileSystem, r: Outcome)
      requires Valid()
      modifies this`unit
      ensures Valid()
      ensures Guards(fs, old(unit)).Failure? ==>
                fs' == fs && r == Fail(Guards(fs, old(unit)).error) && unit == old(unit)
      ensures Guards(fs, old(unit)) == Success(false) ==> fs' == fs && r == Pass && unit == old(unit)
      ensures Guards(fs, old(unit)) == Success(true) ==>
                unit == old(unit).(followSymlinks := false) && (fs', r) == Restore(fs, unit, force)
    {
      var proceed := ProcessGuards(fs);
      if proceed.Failure? {
        return fs, Fail(proceed.error);
      }
      if !proceed.value {
        return fs, Pass;
      }
      if unit.followSymlinks {
        // "FollowSymlinks is not yet supported! Ignoring symlinks!"
        unit := unit.(followSymlinks := false);
      }
      fs', r := RestoreLatest(fs, unit, force);
    }

    /** The body of `LoadUnit` after the guards: finds the newest archive of
        `u`, maps every source onto its folder, then extracts. */
    method RestoreLatest(fs: FileSystem, u: Unit, force: bool) returns (fs': FileSystem, r: Outcome)
      requires searched.destination == u.destination && searched.unitName == u.unitName
      ensures (fs', r) == Restore(fs, u, force)
    {
      SearchReadsDestinationAndName(fs, searched, u);
      var archives := FindBackupsFromNewestToOldest(fs, searched);
      if archives.Failure? {
        return fs, Fail(archives.error);
      }
      if |archives.value| == 0 {
        // "No Backups found for ...!"
        return fs, Pass;
      }
      var latestArchive := archives.value[0];
      fs', r := RestoreFromLatest(fs, u, latestArchive.path, force);
    }

    /** `ProcessGuards`: disabled units and units with validation errors are
        skipped. */
    method ProcessGuards(fs: FileSystem) returns (r: Result<bool>)
      requires Valid()
      ensures r == Guards(fs, unit)
    {
      if !unit.enabled {
        // "Unit ... is disabled. Skipping!"
        return Success(false);
      }
      r := ValidateUnit(fs);
    }

    /** `ValidateUnit`: true when validation reports no error. */
    method ValidateUnit(fs: FileSystem) returns (r: Result<bool>)
      requires Valid()
      ensures r.Failure? <==> Validation(fs, unit).Failure?
      ensures r.Failure? ==> r.error == Validation(fs, unit).error
      ensures r.Success? ==> (r.value <==> Validation(fs, unit).value == [])
    {
      var errors := validator.Validate(fs);
      if errors.Failure? {
        return Failure(errors.error);
      }
      if |errors.value| == 0 {
        return Success(true);
      }
      // Each error is logged.
      return Success(false);
    }
  }
}
