/** Properties that connect the processors: a backup's archive name is found
    again by the search with the time it was written, and archive entries
    whose names start with '/' (absolute mode, or a relative source given
    with a trailing '/') are never restored. */
module BackupProperties {
  import opened Text
  import opened Paths
  import opened Errors
  import opened FileSystems
  import opened Units
  import opened UnitValidator
  import opened TarBuilder
  import opened TarExtractor
  import opened TarSearcher
  import opened UnitProcessor

  // ---------------------------------------------------------------------
  // The guards.

  /** A unit goes ahead exactly when it is enabled and acceptable; the
      guards throw exactly when it is enabled and a source trims to "" or
      holds U+0000. */
  lemma GuardsIff(fs: FileSystem, unit: Unit)
    ensures Guards(fs, unit).Failure? <==> unit.enabled && |unit.sources| > 0 && !AllResolve(unit.sources)
    ensures Guards(fs, unit).Failure? <==>
              unit.enabled && exists m :: 0 <= m < |unit.sources| && (TrimEnd(unit.sources[m], Separators) == [] || '\0' in unit.sources[m])
    ensures Guards(fs, unit) == Success(true) <==> unit.enabled && AllResolve(unit.sources) && Acceptable(fs, unit)
  {
    ValidationThrowsIff(fs, unit);
    if AllResolve(unit.sources) {
      ValidationAcceptsIff(fs, unit);
    }
  }

  lemma AllDotted(exts: seq<string>)
    requires forall i :: 0 <= i < |exts| ==> StartsWithDot(exts[i])
    ensures FirstWithoutDot(exts) == |exts|
  {
  }

  /** Past the guards every exclude starts with '.', so registering them
      never throws. */
  lemma AcceptedExcludesRegister(fs: FileSystem, unit: Unit)
    requires Acceptable(fs, unit)
    ensures FirstWithoutDot(unit.excludes) == |unit.excludes|
  {
    forall i | 0 <= i < |unit.excludes| ensures StartsWithDot(unit.excludes[i]) {
      assert unit.excludes[i] in unit.excludes;
    }
    AllDotted(unit.excludes);
  }

  /** Past the guards, a unit in absolute mode archives every file under a
      name starting with '/'. */
  lemma AcceptedAbsoluteUnitRooted(fs: FileSystem, unit: Unit)
    requires Acceptable(fs, unit) && unit.useAbsolutePaths
    ensures forall s {:trigger RootedPrefix(unit, s)} :: s in unit.sources ==> RootedPrefix(unit, s)
  {
    forall s | s in unit.sources ensures RootedPrefix(unit, s) {
      var i :| 0 <= i < |unit.sources| && unit.sources[i] == s;
    }
  }

  // ---------------------------------------------------------------------
  // The timestamp in an archive name.

  /** Padding a number to `w` digits and reading it back gives the number. */
  lemma {:induction false} DigitsRoundTrip(n: nat, w: nat)
    requires n < Pow10(w)
    ensures DigitsValue(Digits(n, w)) == n
  {
    if w > 0 {
      var q, m := n / 10, n % 10;
      DivTen(n, Pow10(w - 1));
      DigitsRoundTrip(q, w - 1);
      var c := ('0' as int + m) as char;
      assert Digits(n, w) == Digits(q, w - 1) + [c];
      DigitsValueSnoc(Digits(q, w - 1), c);
    }
  }

  /** Reading one more digit multiplies the value so far by ten. */
  lemma DigitsValueSnoc(s: string, c: char)
    requires AllDigits(s) && AllDigits(s + [c])
    ensures DigitsValue(s + [c]) == DigitsValue(s) * 10 + (c as int - '0' as int)
  {
    assert (s + [c])[..|s|] == s;
  }

  lemma DivTen(n: nat, p: nat)
    requires n < 10 * p
    ensures n / 10 < p && n == (n / 10) * 10 + n % 10 && 0 <= n % 10 < 10
  {
  }

  /** The stamp a backup writes parses back to the time it was written. */
  lemma StampRoundTrip(t: DateTime)
    requires ValidDateTime(t)
    ensures Fields(FormatStamp(t)) == t
    ensures ParseExact(FormatStamp(t)) == Success(t)
  {
    var s := FormatStamp(t);
    assert Pow10(2) == 100;
    assert Pow10(4) == 10000;
    DigitsRoundTrip(t.year, 4);
    DigitsRoundTrip(t.month, 2);
    DigitsRoundTrip(t.day, 2);
    DigitsRoundTrip(t.hour, 2);
    DigitsRoundTrip(t.minute, 2);
    DigitsRoundTrip(t.second, 2);
    assert s[0..4] == Digits(t.year, 4);
    assert s[4..6] == Digits(t.month, 2);
    assert s[6..8] == Digits(t.day, 2);
    assert s[8..10] == Digits(t.hour, 2);
    assert s[10..12] == Digits(t.minute, 2);
    assert s[12..14] == Digits(t.second, 2);
  }

  /** Stamps written by backups sort, as strings, in the order of the times
      they stand for. */
  lemma StampsSortChronologically(a: DateTime, b: DateTime)
    requires ValidDateTime(a) && ValidDateTime(b)
    ensures OrdinalLess(FormatStamp(a), FormatStamp(b)) <==> Before(a, b)
  {
    StampRoundTrip(a);
    StampRoundTrip(b);
    StampOrderIsChronological(FormatStamp(a), FormatStamp(b));
  }

  // ---------------------------------------------------------------------
  // The archive a backup saves is found by the search.

  /** The file name of `dir + "/" + name` is `name` when `name` holds no
      separator. */
  lemma FileNameOfJoin(dir: string, name: string)
    requires Separator !in name
    ensures GetFileName(dir + [Separator] + name) == name
  {
    var p := dir + [Separator] + name;
    assert p[|dir| + 1..] == name;
    FileNameAfterLastSeparator(p, |dir| + 1);
  }

  /** The archive name of a unit whose name holds no '/' is a plain file
      name. */
  lemma ArchiveNameIsPlain(unit: Unit, now: DateTime)
    requires ValidDateTime(now) && Separator !in unit.unitName
    ensures Separator !in unit.unitName + "-" + FormatStamp(now) + ArchiveSuffix
  {
    var stamp := FormatStamp(now);
    var name := unit.unitName + "-" + stamp + ArchiveSuffix;
    forall i | 0 <= i < |name| ensures name[i] != Separator {
      if i < |unit.unitName| {
        assert name[i] == unit.unitName[i];
      } else if i == |unit.unitName| {
        assert name[i] == '-';
      } else if i < |unit.unitName| + 1 + StampLength {
        assert name[i] == stamp[i - |unit.unitName| - 1];
      }
    }
  }

  /** The archive path of a rooted destination without trailing '/': the
      destination, a '/', and the archive name. */
  lemma OutputNameShape(unit: Unit, now: DateTime)
    requires ValidDateTime(now)
    requires IsRooted(unit.destination) && unit.destination[|unit.destination| - 1] != Separator
    requires Separator !in unit.unitName
    ensures var name := unit.unitName + "-" + FormatStamp(now) + ArchiveSuffix;
            && OutputName(unit, now) == unit.destination + [Separator] + name
            && GetFileName(OutputName(unit, now)) == name
            && GetDirectoryName(OutputName(unit, now)) == unit.destination
  {
    var dest := unit.destination;
    var name := unit.unitName + "-" + FormatStamp(now) + ArchiveSuffix;
    ArchiveNameIsPlain(unit, now);
    assert name[0] != Separator;
    var out := dest + [Separator] + name;
    FileNameOfJoin(dest, name);
    assert out[|dest|] == Separator;
    assert out[..|dest|] == dest;
    assert LastIndexOf(out, Separator) == |dest|;
  }

  /** A file created directly in a rooted directory without trailing '/' is
      listed there. */
  lemma CreatedFileIsListed(fs: FileSystem, dir: string, name: string, content: Content)
    requires IsRooted(dir) && dir[|dir| - 1] != Separator
    requires Separator !in name
    requires GetDirectoryName(dir + [Separator] + name) == dir
    requires CreateFile(fs, dir + [Separator] + name, content).Success?
    ensures var saved := CreateFile(fs, dir + [Separator] + name, content).value;
            Listing(saved, dir).Success? && dir + [Separator] + name in Listing(saved, dir).value
  {
    var out := dir + [Separator] + name;
    var saved := CreateFile(fs, out, content).value;
    assert TrimEnd(dir, Separators) == dir;
    assert DirPrefix(dir) == dir + [Separator];
    assert Key(dir) == dir;
    assert DirectoryExists(saved, dir);
    assert out[|DirPrefix(dir)|..] == name;
    assert out in TopLevelFiles(saved, dir);
  }

  /** With a rooted destination without trailing '/' and a unit name without
      '/', the archive a backup saves is listed in the destination and
      accepted by the search pattern with the stamp of `now`. */
  lemma SavedArchiveIsListed(fs: FileSystem, unit: Unit, now: DateTime, content: Content)
    requires ValidDateTime(now)
    requires IsRooted(unit.destination) && unit.destination[|unit.destination| - 1] != Separator
    requires Separator !in unit.unitName
    requires CreateFile(fs, OutputName(unit, now), content).Success?
    ensures var saved, out := CreateFile(fs, OutputName(unit, now), content).value, OutputName(unit, now);
            && Listing(saved, unit.destination).Success?
            && out in Listing(saved, unit.destination).value
            && Accepted(unit.unitName, out)
            && MatchStamp(unit.unitName, GetFileName(out)) == Some(FormatStamp(now))
  {
    var name := unit.unitName + "-" + FormatStamp(now) + ArchiveSuffix;
    OutputNameShape(unit, now);
    ArchiveNameIsPlain(unit, now);
    OutputNameMatches(unit.unitName, FormatStamp(now));
    CreatedFileIsListed(fs, unit.destination, name, content);
  }

  /** Every accepted file of the listing is among the candidates of a
      successful search, with the digit group of its name. */
  lemma AcceptedFileIsFound(fs: FileSystem, unit: Unit, p: string)
    requires FindBackupsFromNewestToOldest(fs, unit).Success?
    requires p in Listing(fs, unit.destination).value && Accepted(unit.unitName, p)
    ensures exists c <- FindBackupsFromNewestToOldest(fs, unit).value ::
              c.path == p && MatchStamp(unit.unitName, GetFileName(p)) == Some(c.stamp) && c.time == Fields(c.stamp)
  {
    var found := FindBackupsFromNewestToOldest(fs, unit).value;
    var files := Listing(fs, unit.destination).value;
    var accepted := AcceptedFiles(files, unit.unitName);
    var matched := Matching(files, unit.unitName);
    var cs := ParseAll(matched).value;
    assert found == SortNewestFirst(cs);
    MatchedPaths(files, unit.unitName);
    MatchingFacts(files, unit.unitName);
    var i :| 0 <= i < |accepted| && accepted[i] == p;
    var c := cs[i];
    assert c == Candidate(matched[i].0, matched[i].1, Fields(matched[i].1));
    assert matched[i] in matched;
    assert c.path == p && MatchStamp(unit.unitName, GetFileName(p)) == Some(c.stamp);
    assert c in multiset(found);
  }

  /** ... and when the search of the destination succeeds, the archive is
      one of its candidates, for the time `now`. */
  lemma SavedArchiveIsFound(fs: FileSystem, unit: Unit, now: DateTime, content: Content)
    requires ValidDateTime(now)
    requires IsRooted(unit.destination) && unit.destination[|unit.destination| - 1] != Separator
    requires Separator !in unit.unitName
    requires CreateFile(fs, OutputName(unit, now), content).Success?
    requires FindBackupsFromNewestToOldest(CreateFile(fs, OutputName(unit, now), content).value, unit).Success?
    ensures exists c <- FindBackupsFromNewestToOldest(CreateFile(fs, OutputName(unit, now), content).value, unit).value ::
              c.path == OutputName(unit, now) && c.time == now
  {
    var saved, out := CreateFile(fs, OutputName(unit, now), content).value, OutputName(unit, now);
    SavedArchiveIsListed(fs, unit, now, content);
    AcceptedFileIsFound(saved, unit, out);
    StampRoundTrip(now);
  }

  // ---------------------------------------------------------------------
  // Entries whose names start with '/' are never restored.

  /** A prefix that starts with '/' or is made only of '/'. */
  predicate RootedOrEmpty(prefix: string) {
    IsRooted(prefix) || TrimEnd(prefix, {'/'}) == []
  }

  /** A prefix that is rooted, or that is empty once its trailing '/' are
      trimmed, gives every name `AddDirectory` stages a leading '/'. */
  lemma {:induction false} StagedNamesRooted(files: seq<string>, dir: string, prefix: string, excluded: set<string>)
    requires forall f <- files :: |DirPrefix(dir)| <= |f|
    requires RootedOrEmpty(prefix)
    ensures forall s <- StageFiles(files, dir, Some(prefix), excluded) :: IsRooted(s.entryName)
  {
    if files != [] {
      var init, f := files[..|files| - 1], files[|files| - 1];
      StagedNamesRooted(init, dir, prefix, excluded);
      StageOneRooted(f, dir, prefix, excluded);
      assert StageFiles(files, dir, Some(prefix), excluded)
          == StageFiles(init, dir, Some(prefix), excluded) + StageOne(f, dir, Some(prefix), excluded);
    }
  }

  lemma StageOneRooted(f: string, dir: string, prefix: string, excluded: set<string>)
    requires |DirPrefix(dir)| <= |f|
    requires RootedOrEmpty(prefix)
    ensures forall s <- StageOne(f, dir, Some(prefix), excluded) :: IsRooted(s.entryName)
  {
    var n := DirectoryEntryName(dir, f, Some(prefix));
    PrefixedNameRooted(dir, f, prefix);
    ReplaceKeepsRoot(n);
    assert StageOne(f, dir, Some(prefix), excluded) == [] ||
           StageOne(f, dir, Some(prefix), excluded) == [Staged(f, Replace(n, '\\', '/'))];
  }

  lemma PrefixedNameRooted(dir: string, f: string, prefix: string)
    requires |DirPrefix(dir)| <= |f|
    requires RootedOrEmpty(prefix)
    ensures IsRooted(DirectoryEntryName(dir, f, Some(prefix)))
  {
    var t := TrimEnd(prefix, {'/'});
    TrimEndFacts(prefix, {'/'});
    var n := DirectoryEntryName(dir, f, Some(prefix));
    assert n == t + "/" + Replace(f[|DirPrefix(dir)|..], '\\', '/');
    if t != [] {
      assert n[0] == t[0] == prefix[0];
    }
  }

  lemma ReplaceKeepsRoot(n: string)
    requires IsRooted(n)
    ensures IsRooted(Replace(n, '\\', '/'))
  {
    assert Replace(n, '\\', '/')[0] == n[0];
  }

  /** `Save` writes entries under staged names only. */
  lemma {:induction false} WrittenNamesRooted(staged: seq<Staged>, follow: bool, fs: FileSystem)
    requires forall s <- staged :: IsRooted(s.entryName)
    ensures forall e <- WriteEntries(staged, follow, fs).written :: IsRooted(e.name)
  {
    if staged != [] {
      WrittenNamesRooted(staged[..|staged| - 1], follow, fs);
    }
  }

  /** The archive prefix of a source gives rooted entry names. */
  predicate RootedPrefix(unit: Unit, source: string) {
    RootedOrEmpty(ArchivePrefix(unit, source))
  }

  /** Every source of the unit has a rooted archive prefix. */
  predicate SourcesRooted(unit: Unit) {
    forall s <- unit.sources :: RootedPrefix(unit, s)
  }

  lemma DirStagedRooted(fs: FileSystem, dir: string, prefix: string, excluded: set<string>)
    requires RootedOrEmpty(prefix)
    ensures forall s <- DirStaged(fs, dir, prefix, excluded) :: IsRooted(s.entryName)
  {
    EnumeratedUnder(fs, dir);
    StagedNamesRooted(EnumerateFiles(fs, dir), dir, prefix, excluded);
  }

  /** Every staged entry name starts with '/'. */
  predicate AllRooted(staged: seq<Staged>) {
    forall s <- staged :: IsRooted(s.entryName)
  }

  /** A successful staging of `k` sources is that of the first `k - 1`
      followed by the files of source `k - 1`. */
  lemma StageSourcesLast(fs: FileSystem, unit: Unit, excluded: set<string>, k: nat)
    requires 0 < k <= |unit.sources|
    requires StageSources(fs, unit, excluded, k).Success?
    ensures StageSources(fs, unit, excluded, k - 1).Success?
    ensures var source := unit.sources[k - 1];
            StageSources(fs, unit, excluded, k).value
            == StageSources(fs, unit, excluded, k - 1).value + DirStaged(fs, source, ArchivePrefix(unit, source), excluded)
  {
  }

  lemma AllRootedAppend(a: seq<Staged>, b: seq<Staged>)
    requires AllRooted(a) && AllRooted(b)
    ensures AllRooted(a + b)
  {
  }

  /** A staging result that, when it succeeds, names every entry rooted. */
  predicate RootedStaging(r: Result<seq<Staged>>) {
    r.Success? ==> AllRooted(r.value)
  }

  lemma StageStepRooted(fs: FileSystem, unit: Unit, excluded: set<string>, k: nat)
    requires 0 < k <= |unit.sources|
    requires SourcesRooted(unit)
    requires RootedStaging(StageSources(fs, unit, excluded, k - 1))
    ensures RootedStaging(StageSources(fs, unit, excluded, k))
  {
    if StageSources(fs, unit, excluded, k).Success? {
      StageSourcesLast(fs, unit, excluded, k);
      var source := unit.sources[k - 1];
      assert source in unit.sources;
      DirStagedRooted(fs, source, ArchivePrefix(unit, source), excluded);
      AllRootedAppend(StageSources(fs, unit, excluded, k - 1).value, DirStaged(fs, source, ArchivePrefix(unit, source), excluded));
    }
  }

  lemma {:induction false} StageSourcesRooted(fs: FileSystem, unit: Unit, excluded: set<string>, k: nat)
    requires k <= |unit.sources|
    requires SourcesRooted(unit)
    ensures RootedStaging(StageSources(fs, unit, excluded, k))
  {
    if k > 0 {
      StageSourcesRooted(fs, unit, excluded, k - 1);
      StageStepRooted(fs, unit, excluded, k);
    }
  }

  /** In absolute mode every source is its own prefix, so with rooted sources
      every entry of the archive a backup writes starts with '/'. */
  lemma AbsoluteModeNamesRooted(unit: Unit)
    requires unit.useAbsolutePaths && forall s <- unit.sources :: IsRooted(s)
    ensures forall s <- unit.sources :: RootedPrefix(unit, s)
  {
  }

  /** In relative mode a source written with a trailing '/' has an empty
      last component, so its files are archived as "/<relative path>". */
  lemma TrailingSlashNamesRooted(unit: Unit, source: string)
    requires !unit.useAbsolutePaths && source != [] && source[|source| - 1] == Separator
    ensures ArchivePrefix(unit, source) == [] && RootedPrefix(unit, source)
  {
  }

  /** The entries a backup writes all start with '/' when every source's
      prefix is rooted. */
  lemma BackupEntriesRooted(fs: FileSystem, unit: Unit)
    requires Staging(fs, unit).Success?
    requires SourcesRooted(unit)
    ensures forall e <- WriteEntries(Staging(fs, unit).value, false, fs).written :: IsRooted(e.name)
  {
    StageSourcesRooted(fs, unit, LoweredSet(unit.excludes), |unit.sources|);
    WrittenNamesRooted(Staging(fs, unit).value, false, fs);
  }

  /** The keys `MapFolder` stores never start with '/'. */
  lemma {:induction false} MappedKeysRelative(prev: Mapped, unit: Unit, sources: seq<string>)
    requires RelativeKeys(prev.mappings)
    ensures RelativeKeys(MapAll(prev, unit, sources).mappings)
    decreases |sources|
  {
    if prev.failure.None? && sources != [] {
      MapOneKeepsRelative(prev, unit, sources[0]);
      MappedKeysRelative(MapOne(prev, unit, sources[0]), unit, sources[1..]);
    }
  }

  lemma MapOneKeepsRelative(prev: Mapped, unit: Unit, source: string)
    requires RelativeKeys(prev.mappings)
    ensures RelativeKeys(MapOne(prev, unit, source).mappings)
  {
    MapOneTable(prev, unit, source);
    TrimFacts(Replace(RestoreFolder(unit, source), '\\', '/'), {'/'});
    PutKeepsRelative(prev.mappings, RestoreKey(unit, source), GetFullPath(prev.fs.cwd, Replace(source, '\\', '/')));
  }

  /** Restoring from an archive whose every entry starts with '/' writes no
      file: the restore only creates the source directories, and succeeds
      unless creating one of them throws. */
  lemma RootedArchiveRestoresNothing(fs: FileSystem, unit: Unit, latest: string, force: bool)
    requires FileExists(fs, latest) && fs.nodes[latest].content.TarGz?
    requires forall e <- fs.nodes[latest].content.entries :: IsRooted(e.name)
    ensures var m := MapAll(Mapped(fs, [], None), unit, unit.sources);
            RestoreFrom(fs, unit, latest, force) == (m.fs, if m.failure.Some? then Fail(m.failure.value) else Pass)
  {
    var m := MapAll(Mapped(fs, [], None), unit, unit.sources);
    MappedKeysRelative(Mapped(fs, [], None), unit, unit.sources);
    var entries := fs.nodes[latest].content.entries;
    assert forall e <- entries :: IsRooted(Replace(e.name, '\\', '/'));
    if m.failure.None? {
      MapKeepsFiles(Mapped(fs, [], None), unit, unit.sources, latest);
      RootedArchiveExtractsNothing(entries, m.mappings, force, m.fs);
    }
  }

  /** The mapping loop only creates directories: a file that exists before
      it exists after it, unchanged. */
  lemma {:induction false} MapKeepsFiles(prev: Mapped, unit: Unit, sources: seq<string>, p: string)
    requires FileExists(prev.fs, p)
    ensures var m := MapAll(prev, unit, sources);
            FileExists(m.fs, p) && m.fs.nodes[p] == prev.fs.nodes[p]
    decreases |sources|
  {
    if prev.failure.None? && sources != [] {
      MapOneKeepsFiles(prev, unit, sources[0], p);
      MapKeepsFiles(MapOne(prev, unit, sources[0]), unit, sources[1..], p);
    }
  }

  lemma MapOneKeepsFiles(prev: Mapped, unit: Unit, source: string, p: string)
    requires FileExists(prev.fs, p)
    ensures var m := MapOne(prev, unit, source);
            FileExists(m.fs, p) && m.fs.nodes[p] == prev.fs.nodes[p]
  {
    var dest := Replace(source, '\\', '/');
    if !DirectoryExists(prev.fs, dest) {
      var created := CreateDirectory(prev.fs, dest);
      if created.Success? && Key(dest) == p {
        assert false;
      }
    }
  }

  /** A unit left at its defaults archives in absolute mode: once it passes
      the guards, every entry of its archives starts with '/', and restoring
      such an archive writes no file (`RootedArchiveRestoresNothing`). */
  lemma DefaultUnitArchivesRooted(fs: FileSystem, unitName: string, sources: seq<string>, destination: string)
    requires Acceptable(fs, NewUnit(unitName, sources, destination))
    requires Staging(fs, NewUnit(unitName, sources, destination)).Success?
    ensures var unit := NewUnit(unitName, sources, destination);
            forall e <- WriteEntries(Staging(fs, unit).value, false, fs).written :: IsRooted(e.name)
  {
    var unit := NewUnit(unitName, sources, destination);
    AcceptedAbsoluteUnitRooted(fs, unit);
    BackupEntriesRooted(fs, unit);
  }

  // ---------------------------------------------------------------------
  // Which archive a restore uses, and the folder table it builds.

  /** A restore that finds archives restores from the first one listed,
      which is not older than any other. */
  lemma RestoreUsesNewest(fs: FileSystem, unit: Unit, force: bool)
    requires FindBackupsFromNewestToOldest(fs, unit).Success? && FindBackupsFromNewestToOldest(fs, unit).value != []
    ensures var found := FindBackupsFromNewestToOldest(fs, unit).value;
            && Restore(fs, unit, force) == RestoreFrom(fs, unit, found[0].path, force)
            && forall c <- found :: !Before(found[0].time, c.time)
  {
    var found := FindBackupsFromNewestToOldest(fs, unit).value;
    forall c <- found ensures !Before(found[0].time, c.time) {
      var j :| 0 <= j < |found| && found[j] == c;
      InstantIsChronological(found[0].time, c.time);
    }
  }

  /** After a mapping loop that does not throw, every source's folder is in
      the table, and so is every folder that was there before. */
  lemma {:induction false} EverySourceMapped(prev: Mapped, unit: Unit, sources: seq<string>)
    requires DistinctKeys(prev.mappings)
    ensures var m := MapAll(prev, unit, sources);
            && DistinctKeys(m.mappings)
            && (m.failure.None? ==>
                  && (forall s <- sources :: Lookup(m.mappings, RestoreKey(unit, s)).Some?)
                  && (forall k :: Lookup(prev.mappings, k).Some? ==> Lookup(m.mappings, k).Some?))
    decreases |sources|
  {
    if prev.failure.None? && sources != [] {
      var next := MapOne(prev, unit, sources[0]);
      MapAllStep(prev, unit, sources);
      MapOneAdds(prev, unit, sources[0]);
      EverySourceMapped(next, unit, sources[1..]);
      var m := MapAll(next, unit, sources[1..]);
      if m.failure.None? {
        assert Lookup(m.mappings, RestoreKey(unit, sources[0])).Some?;
        forall s <- sources ensures Lookup(m.mappings, RestoreKey(unit, s)).Some? {
          if s != sources[0] {
            assert s in sources[1..];
          }
        }
      }
    }
  }

  /** One `MapFolder` call on the table: a `Put` of the source's folder, or
      no change when it throws. */
  lemma MapOneTable(prev: Mapped, unit: Unit, source: string)
    ensures var next := MapOne(prev, unit, source);
            next.mappings == if next.failure.None?
              then Put(prev.mappings, RestoreKey(unit, source), GetFullPath(prev.fs.cwd, Replace(source, '\\', '/')))
              else prev.mappings
  {
    var dest := Replace(source, '\\', '/');
    if !DirectoryExists(prev.fs, dest) {
      var created := CreateDirectory(prev.fs, dest);
      if created.Failure? {
        assert MapOne(prev, unit, source) == Mapped(prev.fs, prev.mappings, Some(created.error));
      }
    }
  }

  /** A `Put` adds its key and keeps the others. */
  lemma PutAdds(mappings: seq<Mapping>, key: string, destination: string)
    requires DistinctKeys(mappings)
    ensures var next := Put(mappings, key, destination);
            && DistinctKeys(next)
            && Lookup(next, key).Some?
            && (forall k :: Lookup(mappings, k).Some? ==> Lookup(next, k).Some?)
  {
    PutKeepsDistinct(mappings, key, destination);
    PutThenLookup(mappings, key, destination, key);
    forall k | Lookup(mappings, k).Some? ensures Lookup(Put(mappings, key, destination), k).Some? {
      PutThenLookup(mappings, key, destination, k);
    }
  }

  /** One `MapFolder` that does not throw adds its folder and keeps the
      others. */
  lemma MapOneAdds(prev: Mapped, unit: Unit, source: string)
    requires DistinctKeys(prev.mappings)
    ensures var next := MapOne(prev, unit, source);
            && DistinctKeys(next.mappings)
            && (next.failure.None? ==>
                  && Lookup(next.mappings, RestoreKey(unit, source)).Some?
                  && (forall k :: Lookup(prev.mappings, k).Some? ==> Lookup(next.mappings, k).Some?))
  {
    MapOneTable(prev, unit, source);
    PutAdds(prev.mappings, RestoreKey(unit, source), GetFullPath(prev.fs.cwd, Replace(source, '\\', '/')));
  }
}
