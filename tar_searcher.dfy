/** Archive discovery: the backups of one unit are the files directly in its
    destination directory named `<unit name>-<yyyyMMddHHmmss>.tar.gz`, listed
    from the newest timestamp to the oldest. */
module TarSearcher {
  import opened Text
  import opened Paths
  import opened Errors
  import opened FileSystems
  import opened Units

  const ArchiveSuffix: string := ".tar.gz"
  const StampLength: nat := 14

  /** `Regex.Match(name)` with `^<escaped unit name>-(\d{14})\.tar\.gz$`: the
      unit name is matched literally and case-sensitively, and `$` also
      matches before a final '\n'. The result is the 14-digit group. */
  function MatchStamp(unitName: string, name: string): (r: Option<string>)
    ensures r.Some? ==> |r.value| == StampLength && AllDigits(r.value)
  {
    var t := if |name| > 0 && name[|name| - 1] == '\n' then name[..|name| - 1] else name;
    var n := |unitName|;
    if |t| == n + 1 + StampLength + |ArchiveSuffix| && t[..n] == unitName && t[n] == '-'
       && AllDigits(t[n + 1..n + 1 + StampLength]) && t[n + 1 + StampLength..] == ArchiveSuffix
    then Some(t[n + 1..n + 1 + StampLength])
    else None
  }

  /** The names the pattern accepts are exactly `<unit name>-<digits>.tar.gz`,
      optionally followed by '\n'. */
  lemma MatchStampShape(unitName: string, name: string)
    requires MatchStamp(unitName, name).Some?
    ensures var d := MatchStamp(unitName, name).value;
            name == unitName + "-" + d + ArchiveSuffix || name == unitName + "-" + d + ArchiveSuffix + "\n"
  {
    var t := if |name| > 0 && name[|name| - 1] == '\n' then name[..|name| - 1] else name;
    var n := |unitName|;
    assert t == t[..n] + "-" + t[n + 1..n + 1 + StampLength] + t[n + 1 + StampLength..];
    if t != name {
      assert name == t + "\n";
    }
  }

  /** The search pattern `*.tar.gz` of `GetFiles`. */
  predicate GlobMatches(name: string) {
    EndsWith(name, ArchiveSuffix)
  }

  /** A parsed `DateTime`. */
  datatype DateTime = DateTime(year: int, month: int, day: int, hour: int, minute: int, second: int)

  predicate IsLeapYear(y: int) {
    y % 4 == 0 && (y % 100 != 0 || y % 400 == 0)
  }

  function DaysInMonth(y: int, m: int): int {
    if m == 2 then (if IsLeapYear(y) then 29 else 28)
    else if m == 4 || m == 6 || m == 9 || m == 11 then 30
    else 31
  }

  /** A date and time `DateTime` can represent. */
  predicate ValidDateTime(t: DateTime) {
    && 1 <= t.year <= 9999
    && 1 <= t.month <= 12
    && 1 <= t.day <= DaysInMonth(t.year, t.month)
    && 0 <= t.hour < 24 && 0 <= t.minute < 60 && 0 <= t.second < 60
  }

  /** The fields of a 14-digit `yyyyMMddHHmmss` string. */
  function Fields(s: string): DateTime
    requires |s| == StampLength && AllDigits(s)
  {
    DateTime(DigitsValue(s[0..4]), DigitsValue(s[4..6]), DigitsValue(s[6..8]),
             DigitsValue(s[8..10]), DigitsValue(s[10..12]), DigitsValue(s[12..14]))
  }

  /** `DateTime.ParseExact(s, "yyyyMMddHHmmss", null)`: a string that does not
      name a valid date and time throws `FormatException`. */
  function ParseExact(s: string): (r: Result<DateTime>)
    requires |s| == StampLength && AllDigits(s)
    ensures r.Success? <==> ValidDateTime(Fields(s))
    ensures r.Success? ==> r.value == Fields(s)
  {
    if ValidDateTime(Fields(s)) then Success(Fields(s)) else Failure(Format(s))
  }

  /** Chronological order of `DateTime`: by year, then month, day, hour,
      minute and second. */
  predicate Before(a: DateTime, b: DateTime) {
    if a.year != b.year then a.year < b.year
    else if a.month != b.month then a.month < b.month
    else if a.day != b.day then a.day < b.day
    else if a.hour != b.hour then a.hour < b.hour
    else if a.minute != b.minute then a.minute < b.minute
    else a.second < b.second
  }

  /** A number that orders valid `DateTime`s chronologically (see
      `InstantIsChronological`). */
  function Instant(t: DateTime): int {
    ((((t.year * 100 + t.month) * 100 + t.day) * 100 + t.hour) * 100 + t.minute) * 100 + t.second
  }

  /** A discovered archive: its path, its 14-digit group and the time parsed
      from it. */
  datatype Candidate = Candidate(path: string, stamp: string, time: DateTime)

  /** The files the pattern accepts, in listing order, with their digit
      groups (see `MatchingFacts`). */
  function Matching(files: seq<string>, unitName: string): (r: seq<(string, string)>)
    ensures Stamped(r)
  {
    if files == [] then []
    else
      var f := files[|files| - 1];
      var m := MatchStamp(unitName, GetFileName(f));
      var prev := Matching(files[..|files| - 1], unitName);
      var last := if GlobMatches(GetFileName(f)) && m.Some? then [(f, m.value)] else [];
      StampedAppend(prev, last);
      prev + last
  }

  /** `Matching` keeps exactly the listed files that both the glob and the
      pattern accept, each with its digit group. */
  lemma {:induction false} MatchingFacts(files: seq<string>, unitName: string)
    ensures var r := Matching(files, unitName);
            && (forall x <- r :: x.0 in files && GlobMatches(GetFileName(x.0)) && MatchStamp(unitName, GetFileName(x.0)) == Some(x.1))
            && (forall f <- files :: GlobMatches(GetFileName(f)) && MatchStamp(unitName, GetFileName(f)).Some? ==>
                  (f, MatchStamp(unitName, GetFileName(f)).value) in r)
  {
    if files != [] {
      var init, f := files[..|files| - 1], files[|files| - 1];
      MatchingFacts(init, unitName);
      assert files == init + [f];
    }
  }

  lemma StampedAppend(a: seq<(string, string)>, b: seq<(string, string)>)
    requires Stamped(a) && Stamped(b)
    ensures Stamped(a + b)
  {
    forall i | 0 <= i < |a + b| ensures |(a + b)[i].1| == StampLength && AllDigits((a + b)[i].1) {
      if i >= |a| {
        assert (a + b)[i] == b[i - |a|];
      }
    }
  }

  /** Every digit group of `matched` has the shape `ParseExact` reads. */
  predicate Stamped(matched: seq<(string, string)>) {
    forall i :: 0 <= i < |matched| ==> |matched[i].1| == StampLength && AllDigits(matched[i].1)
  }

  /** The parse step over the matching files: the first digit group, in
      listing order, that is not a valid date and time makes it throw. */
  function ParseAll(matched: seq<(string, string)>): (r: Result<seq<Candidate>>)
    requires Stamped(matched)
    ensures r.Success? <==> forall i :: 0 <= i < |matched| ==> ValidDateTime(Fields(matched[i].1))
    ensures r.Success? ==> |r.value| == |matched|
    ensures r.Success? ==> forall i :: 0 <= i < |matched| ==>
              r.value[i] == Candidate(matched[i].0, matched[i].1, Fields(matched[i].1))
    ensures r.Failure? ==> exists i :: 0 <= i < |matched| && !ValidDateTime(Fields(matched[i].1))
                                        && r.error == Format(matched[i].1)
  {
    if matched == [] then Success([])
    else
      match ParseAll(matched[..|matched| - 1])
      case Failure(e) => Failure(e)
      case Success(init) =>
        var m := matched[|matched| - 1];
        match ParseExact(m.1)
        case Failure(e) => Failure(e)
        case Success(t) =>
          var r := init + [Candidate(m.0, m.1, t)];
          assert forall i :: 0 <= i < |init| ==> r[i] == init[i];
          Success(r)
  }

  predicate NewestFirst(cs: seq<Candidate>) {
    forall i, j :: 0 <= i < j < |cs| ==> Instant(cs[j].time) <= Instant(cs[i].time)
  }

  /** Places `c` after every candidate at least as new, before the first
      older one. */
  function Insert(c: Candidate, sorted: seq<Candidate>): (r: seq<Candidate>)
    requires NewestFirst(sorted)
    ensures NewestFirst(r)
    ensures multiset(r) == multiset(sorted) + multiset{c}
    ensures forall x <- r :: x in sorted || x == c
  {
    if sorted == [] then [c]
    else if Instant(c.time) > Instant(sorted[0].time) then
      HeadIsNewest(sorted);
      ConsNewestFirst(c, sorted);
      [c] + sorted
    else
      var rest := Insert(c, sorted[1..]);
      HeadIsNewest(sorted);
      assert sorted == [sorted[0]] + sorted[1..];
      ConsNewestFirst(sorted[0], rest);
      [sorted[0]] + rest
  }

  /** The head of a newest-first list is at least as new as every element. */
  lemma HeadIsNewest(sorted: seq<Candidate>)
    requires sorted != [] && NewestFirst(sorted)
    ensures forall x <- sorted :: Instant(x.time) <= Instant(sorted[0].time)
  {
    forall x <- sorted ensures Instant(x.time) <= Instant(sorted[0].time) {
      var k :| 0 <= k < |sorted| && sorted[k] == x;
    }
  }

  /** A candidate at least as new as every element of a newest-first list
      can head it. */
  lemma ConsNewestFirst(h: Candidate, rest: seq<Candidate>)
    requires NewestFirst(rest)
    requires forall x <- rest :: Instant(x.time) <= Instant(h.time)
    ensures NewestFirst([h] + rest)
  {
    var r := [h] + rest;
    forall i, j | 0 <= i < j < |r| ensures Instant(r[j].time) <= Instant(r[i].time) {
      assert r[j] == rest[j - 1];
      if i > 0 {
        assert r[i] == rest[i - 1];
      }
    }
  }

  /** `OrderByDescending(f => f.Timestamp)`: a stable sort, newest first. */
  function SortNewestFirst(cs: seq<Candidate>): (r: seq<Candidate>)
    ensures NewestFirst(r)
    ensures multiset(r) == multiset(cs)
    ensures forall x <- r :: x in cs
  {
    if cs == [] then []
    else
      assert cs == cs[..|cs| - 1] + [cs[|cs| - 1]];
      Insert(cs[|cs| - 1], SortNewestFirst(cs[..|cs| - 1]))
  }

  function PathsOf(cs: seq<Candidate>): (r: seq<string>)
    ensures |r| == |cs| && forall i :: 0 <= i < |cs| ==> r[i] == cs[i].path
  {
    if cs == [] then [] else PathsOf(cs[..|cs| - 1]) + [cs[|cs| - 1].path]
  }

  /** A file name the search accepts for `unitName`. */
  predicate Accepted(unitName: string, p: string) {
    GlobMatches(GetFileName(p)) && MatchStamp(unitName, GetFileName(p)).Some?
  }

  /** The accepted files of a listing, in listing order. */
  function AcceptedFiles(files: seq<string>, unitName: string): (r: seq<string>)
    ensures forall p :: p in r <==> p in files && Accepted(unitName, p)
  {
    if files == [] then []
    else
      var p := files[|files| - 1];
      AcceptedFiles(files[..|files| - 1], unitName) + (if Accepted(unitName, p) then [p] else [])
  }

  /** `new DirectoryInfo(destination).GetFiles(..., TopDirectoryOnly)`: an
      empty path throws `ArgumentException`, a missing directory
      `DirectoryNotFoundException`. */
  function Listing(fs: FileSystem, destination: string): (r: Result<seq<string>>)
    ensures destination == [] ==> r.Failure? && r.error.Argument?
    ensures destination != [] && !DirectoryExists(fs, GetFullPath(fs.cwd, destination)) ==>
              r == Failure(DirectoryNotFound(destination))
    ensures r.Success? ==> r.value == TopLevelFiles(fs, GetFullPath(fs.cwd, destination))
    ensures r.Success? ==> DirectoryExists(fs, GetFullPath(fs.cwd, destination))
  {
    if destination == [] then Failure(Argument("The path is empty."))
    else
      var dir := GetFullPath(fs.cwd, destination);
      if !DirectoryExists(fs, dir) then Failure(DirectoryNotFound(destination))
      else Success(TopLevelFiles(fs, dir))
  }

  /** `new TarSearcher(unit).FindBackupsFromNewestToOldest()`: lists the
      destination directory, keeps the names the pattern accepts, parses their
      timestamps and sorts newest first. */
  function FindBackupsFromNewestToOldest(fs: FileSystem, unit: Unit): (r: Result<seq<Candidate>>)
    ensures Listing(fs, unit.destination).Failure? ==> r == Failure(Listing(fs, unit.destination).error)
    ensures r.Success? ==> NewestFirst(r.value)
    ensures r.Success? ==> forall c <- r.value ::
              && c.path in Listing(fs, unit.destination).value
              && Accepted(unit.unitName, c.path)
              && MatchStamp(unit.unitName, GetFileName(c.path)) == Some(c.stamp)
              && ValidDateTime(c.time) && c.time == Fields(c.stamp)
    ensures r.Failure? && Listing(fs, unit.destination).Success? ==>
              exists p <- Listing(fs, unit.destination).value ::
                Accepted(unit.unitName, p)
                && var d := MatchStamp(unit.unitName, GetFileName(p)).value;
                   !ValidDateTime(Fields(d)) && r.error == Format(d)
  {
    match Listing(fs, unit.destination)
    case Failure(e) => Failure(e)
    case Success(files) =>
      var matched := Matching(files, unit.unitName);
      match ParseAll(matched)
      case Failure(e) =>
        ParseFailure(files, unit.unitName);
        Failure(e)
      case Success(cs) =>
        ParsedCandidates(files, unit.unitName, cs);
        Success(SortNewestFirst(cs))
  }

  lemma ParsedCandidates(files: seq<string>, unitName: string, cs: seq<Candidate>)
    requires ParseAll(Matching(files, unitName)) == Success(cs)
    ensures forall c <- cs ::
              && c.path in files
              && Accepted(unitName, c.path)
              && MatchStamp(unitName, GetFileName(c.path)) == Some(c.stamp)
              && ValidDateTime(c.time) && c.time == Fields(c.stamp)
  {
    var matched := Matching(files, unitName);
    MatchingFacts(files, unitName);
    forall c <- cs
      ensures c.path in files && Accepted(unitName, c.path)
      ensures MatchStamp(unitName, GetFileName(c.path)) == Some(c.stamp)
      ensures ValidDateTime(c.time) && c.time == Fields(c.stamp)
    {
      var i :| 0 <= i < |cs| && cs[i] == c;
      assert matched[i] in matched;
    }
  }

  lemma ParseFailure(files: seq<string>, unitName: string)
    requires ParseAll(Matching(files, unitName)).Failure?
    ensures exists p <- files ::
              Accepted(unitName, p)
              && var d := MatchStamp(unitName, GetFileName(p)).value;
                 !ValidDateTime(Fields(d)) && ParseAll(Matching(files, unitName)).error == Format(d)
  {
    var matched := Matching(files, unitName);
    MatchingFacts(files, unitName);
    var i :| 0 <= i < |matched| && !ValidDateTime(Fields(matched[i].1)) && ParseAll(matched).error == Format(matched[i].1);
    assert matched[i] in matched;
    var p := matched[i].0;
    assert p in files && Accepted(unitName, p) && MatchStamp(unitName, GetFileName(p)).value == matched[i].1;
  }

  lemma {:induction false} MatchedPaths(files: seq<string>, unitName: string)
    ensures var m := Matching(files, unitName);
            |m| == |AcceptedFiles(files, unitName)|
            && forall i :: 0 <= i < |m| ==> m[i].0 == AcceptedFiles(files, unitName)[i]
  {
    if files != [] {
      var init, f := files[..|files| - 1], files[|files| - 1];
      MatchedPaths(init, unitName);
      MatchedPathsSnoc(Matching(init, unitName), AcceptedFiles(init, unitName), if Accepted(unitName, f) then [(f, MatchStamp(unitName, GetFileName(f)).value)] else [], if Accepted(unitName, f) then [f] else []);
    }
  }

  lemma MatchedPathsSnoc(m: seq<(string, string)>, a: seq<string>, m': seq<(string, string)>, a': seq<string>)
    requires |m| == |a| && forall i :: 0 <= i < |m| ==> m[i].0 == a[i]
    requires |m'| == |a'| && forall i :: 0 <= i < |m'| ==> m'[i].0 == a'[i]
    ensures |m + m'| == |a + a'| && forall i :: 0 <= i < |m + m'| ==> (m + m')[i].0 == (a + a')[i]
  {
  }

  lemma ParsedPaths(matched: seq<(string, string)>, cs: seq<Candidate>)
    requires Stamped(matched)
    requires ParseAll(matched) == Success(cs)
    ensures forall i :: 0 <= i < |cs| ==> cs[i].path == matched[i].0
  {
  }

  // ---------------------------------------------------------------------
  // Properties of the search.

  /** The result is a reordering of one candidate per accepted file of the
      listing, taken in listing order: nothing is added, dropped or
      duplicated. */
  lemma SearchIsPermutation(fs: FileSystem, unit: Unit)
    requires FindBackupsFromNewestToOldest(fs, unit).Success?
    ensures var r, files := FindBackupsFromNewestToOldest(fs, unit).value, Listing(fs, unit.destination).value;
            var accepted := AcceptedFiles(files, unit.unitName);
            exists cs: seq<Candidate> ::
              && multiset(r) == multiset(cs) && |cs| == |accepted|
              && forall i :: 0 <= i < |cs| ==> cs[i].path == accepted[i]
  {
    var files := Listing(fs, unit.destination).value;
    var matched := Matching(files, unit.unitName);
    var cs := ParseAll(matched).value;
    var r := FindBackupsFromNewestToOldest(fs, unit).value;
    assert r == SortNewestFirst(cs);
    MatchedPaths(files, unit.unitName);
    ParsedPaths(matched, cs);
    var accepted := AcceptedFiles(files, unit.unitName);
    assert multiset(r) == multiset(cs) && |cs| == |accepted|;
    assert forall i :: 0 <= i < |cs| ==> cs[i].path == accepted[i];
  }

  lemma {:induction false} AcceptedFilesNoDuplicates(files: seq<string>, unitName: string)
    requires NoDuplicates(files)
    ensures NoDuplicates(AcceptedFiles(files, unitName))
  {
    if files != [] {
      var init, p := files[..|files| - 1], files[|files| - 1];
      AcceptedFilesNoDuplicates(init, unitName);
      assert p !in init;
      AppendNoDuplicates(AcceptedFiles(init, unitName), if Accepted(unitName, p) then [p] else []);
    }
  }

  /** A candidate sequence whose paths are distinct holds each candidate once. */
  lemma {:induction false} DistinctPathsCountOnce(cs: seq<Candidate>, x: Candidate)
    requires forall a, b :: 0 <= a < b < |cs| ==> cs[a].path != cs[b].path
    ensures multiset(cs)[x] <= 1
  {
    if cs != [] {
      var init := cs[..|cs| - 1];
      assert cs == init + [cs[|cs| - 1]];
      DistinctPathsCountOnce(init, x);
      if cs[|cs| - 1] == x {
        assert x !in init;
      }
    }
  }

  lemma TwiceCounted(cs: seq<Candidate>, i: nat, j: nat)
    requires i < j < |cs| && cs[i] == cs[j]
    ensures multiset(cs)[cs[i]] >= 2
  {
    assert cs == cs[..j] + [cs[j]] + cs[j + 1..];
    assert cs[i] in cs[..j];
  }

  lemma SamePathSameCandidate(cs: seq<Candidate>, accepted: seq<string>, x: Candidate, y: Candidate)
    requires |cs| == |accepted| && NoDuplicates(accepted)
    requires forall i :: 0 <= i < |cs| ==> cs[i].path == accepted[i]
    requires x in multiset(cs) && y in multiset(cs) && x.path == y.path
    ensures x == y
  {
    var a :| 0 <= a < |cs| && cs[a] == x;
    var b :| 0 <= b < |cs| && cs[b] == y;
    assert accepted[a] == accepted[b];
  }

  /** A reordering of candidates whose paths are distinct has distinct paths. */
  lemma PermutedPathsDistinct(found: seq<Candidate>, cs: seq<Candidate>, accepted: seq<string>)
    requires multiset(found) == multiset(cs) && |cs| == |accepted| && NoDuplicates(accepted)
    requires forall i :: 0 <= i < |cs| ==> cs[i].path == accepted[i]
    ensures forall i, j :: 0 <= i < j < |found| ==> found[i].path != found[j].path
  {
    forall i, j | 0 <= i < j < |found| ensures found[i].path != found[j].path {
      if found[i].path == found[j].path {
        SamePathSameCandidate(cs, accepted, found[i], found[j]);
        TwiceCounted(found, i, j);
        DistinctPathsCountOnce(cs, found[i]);
      }
    }
  }

  /** When the filesystem lists no path twice, no archive is found twice. */
  lemma FoundPathsDistinct(fs: FileSystem, unit: Unit)
    requires FindBackupsFromNewestToOldest(fs, unit).Success? && NoDuplicates(fs.order)
    ensures var found := FindBackupsFromNewestToOldest(fs, unit).value;
            forall i, j :: 0 <= i < j < |found| ==> found[i].path != found[j].path
  {
    var files := Listing(fs, unit.destination).value;
    FilesDirectlyInNoDuplicates(fs.order, fs.nodes, DirPrefix(GetFullPath(fs.cwd, unit.destination)));
    AcceptedFilesNoDuplicates(files, unit.unitName);
    var accepted := AcceptedFiles(files, unit.unitName);
    SearchIsPermutation(fs, unit);
    var cs: seq<Candidate> :| && multiset(FindBackupsFromNewestToOldest(fs, unit).value) == multiset(cs)
                              && |cs| == |accepted|
                              && forall i :: 0 <= i < |cs| ==> cs[i].path == accepted[i];
    PermutedPathsDistinct(FindBackupsFromNewestToOldest(fs, unit).value, cs, accepted);
  }

  /** One accepted file whose digit group is not a valid date and time makes
      the whole search throw, instead of being left out. */
  lemma InvalidDateThrows(fs: FileSystem, unit: Unit, p: string)
    requires Listing(fs, unit.destination).Success?
    requires p in Listing(fs, unit.destination).value && Accepted(unit.unitName, p)
    requires !ValidDateTime(Fields(MatchStamp(unit.unitName, GetFileName(p)).value))
    ensures FindBackupsFromNewestToOldest(fs, unit).Failure?
    ensures FindBackupsFromNewestToOldest(fs, unit).error.Format?
  {
    InvalidStampFailsParse(Listing(fs, unit.destination).value, unit.unitName, p);
    ParseFailureThrows(fs, unit);
  }

  lemma InvalidStampFailsParse(files: seq<string>, unitName: string, p: string)
    requires p in files && Accepted(unitName, p)
    requires !ValidDateTime(Fields(MatchStamp(unitName, GetFileName(p)).value))
    ensures ParseAll(Matching(files, unitName)).Failure?
  {
    var matched := Matching(files, unitName);
    MatchingFacts(files, unitName);
    var d := MatchStamp(unitName, GetFileName(p)).value;
    assert (p, d) in matched;
    var i :| 0 <= i < |matched| && matched[i] == (p, d);
    assert !ValidDateTime(Fields(matched[i].1));
  }

  lemma ParseFailureThrows(fs: FileSystem, unit: Unit)
    requires Listing(fs, unit.destination).Success?
    requires ParseAll(Matching(Listing(fs, unit.destination).value, unit.unitName)).Failure?
    ensures FindBackupsFromNewestToOldest(fs, unit).Failure?
    ensures FindBackupsFromNewestToOldest(fs, unit).error.Format?
  {
  }

  /** The name a backup is saved under is found by the search for the same
      unit, with its digit group. */
  lemma {:induction false} OutputNameMatches(unitName: string, stamp: string)
    requires |stamp| == StampLength && AllDigits(stamp)
    ensures MatchStamp(unitName, unitName + "-" + stamp + ArchiveSuffix) == Some(stamp)
    ensures GlobMatches(unitName + "-" + stamp + ArchiveSuffix)
  {
    var name := unitName + "-" + stamp + ArchiveSuffix;
    var n := |unitName|;
    assert name[..n] == unitName;
    assert name[n + 1..n + 1 + StampLength] == stamp;
    assert name[n + 1 + StampLength..] == ArchiveSuffix;
  }

  /** The unit name is matched literally: a file named after another unit is
      never taken, so unit `a` does not pick up `a-b-<14 digits>.tar.gz`. */
  lemma {:induction false} UnitNameIsLiteral(unitName: string, other: string, stamp: string)
    requires MatchStamp(unitName, other + "-" + stamp + ArchiveSuffix).Some?
    requires |stamp| == StampLength
    ensures other == unitName
  {
    var name := other + "-" + stamp + ArchiveSuffix;
    var d := MatchStamp(unitName, name).value;
    assert name[|name| - 1] == 'z';
    assert |other| == |unitName|;
    assert name[..|other|] == other;
  }

  /** Only names of the exact shape are found: the '\n' that `$` tolerates
      never reaches the pattern, because the name must end with `.tar.gz`. */
  lemma ExactNamesOnly(unitName: string, name: string)
    requires GlobMatches(name) && MatchStamp(unitName, name).Some?
    ensures name == unitName + "-" + MatchStamp(unitName, name).value + ArchiveSuffix
  {
    MatchStampShape(unitName, name);
    var d := MatchStamp(unitName, name).value;
    if name == unitName + "-" + d + ArchiveSuffix + "\n" {
      assert false;
    }
  }

  /** With valid dates, two archives of one unit in one directory that carry
      the same timestamp are the same file, so the order among equal
      timestamps never shows. */
  lemma SameTimeSameFile(fs: FileSystem, unit: Unit, r: seq<Candidate>, i: nat, j: nat)
    requires FindBackupsFromNewestToOldest(fs, unit) == Success(r)
    requires i < |r| && j < |r| && r[i].time == r[j].time
    ensures r[i].path == r[j].path
  {
    var dir := GetFullPath(fs.cwd, unit.destination);
    var p, q := r[i].path, r[j].path;
    assert r[i] in r && r[j] in r;
    var files := Listing(fs, unit.destination).value;
    assert p in files && q in files;
    StampOfFields(r[i].stamp, r[j].stamp);
    ExactNamesOnly(unit.unitName, GetFileName(p));
    ExactNamesOnly(unit.unitName, GetFileName(q));
    FileNameDeterminesPath(p, q, dir);
  }

  lemma FileNameDeterminesPath(p: string, q: string, dir: string)
    requires StartsWith(p, DirPrefix(dir)) && Separator !in p[|DirPrefix(dir)|..]
    requires StartsWith(q, DirPrefix(dir)) && Separator !in q[|DirPrefix(dir)|..]
    requires GetFileName(p) == GetFileName(q)
    ensures p == q
  {
    var k := |DirPrefix(dir)|;
    assert DirPrefix(dir)[k - 1] == Separator;
    FileNameAfterLastSeparator(p, k);
    FileNameAfterLastSeparator(q, k);
    assert p == p[..k] + p[k..];
    assert q == q[..k] + q[k..];
  }

  lemma FileNameAfterLastSeparator(p: string, k: nat)
    requires 0 < k <= |p| && p[k - 1] == Separator && Separator !in p[k..]
    ensures GetFileName(p) == p[k..]
  {
    var i := LastIndexOf(p, Separator);
    LastIndexOfFacts(p, Separator);
    assert forall j :: k <= j < |p| ==> p[j] == p[k..][j - k];
    assert i == k - 1;
  }

  /** Two 14-digit strings with the same fields are the same string. */
  lemma StampOfFields(a: string, b: string)
    requires |a| == StampLength && AllDigits(a) && |b| == StampLength && AllDigits(b)
    requires Fields(a) == Fields(b)
    ensures a == b
  {
    FieldsValue(a);
    FieldsValue(b);
    DigitsValueInjective(a, b);
  }

  /** `Before` is the order `Instant` induces on valid date and times. */
  lemma InstantIsChronological(a: DateTime, b: DateTime)
    requires ValidDateTime(a) && ValidDateTime(b)
    ensures Before(a, b) <==> Instant(a) < Instant(b)
  {
  }

  /** For valid timestamps, the ordinal order of the 14-digit strings is the
      chronological order of the times they name. */
  lemma StampOrderIsChronological(a: string, b: string)
    requires |a| == StampLength && AllDigits(a) && ValidDateTime(Fields(a))
    requires |b| == StampLength && AllDigits(b) && ValidDateTime(Fields(b))
    ensures OrdinalLess(a, b) <==> Before(Fields(a), Fields(b))
  {
    FieldsValue(a);
    FieldsValue(b);
    InstantIsChronological(Fields(a), Fields(b));
    OrdinalLessIsNumeric(a, b);
  }

  // ---------------------------------------------------------------------
  // Decimal arithmetic on digit strings.

  function Pow10(n: nat): (r: nat)
    ensures r >= 1
  {
    if n == 0 then 1 else 10 * Pow10(n - 1)
  }

  function DigitOf(c: char): int {
    c as int - '0' as int
  }

  lemma {:induction false} DigitsValueBound(s: string)
    requires AllDigits(s)
    ensures DigitsValue(s) < Pow10(|s|)
  {
    if s != [] {
      DigitsValueBound(s[..|s| - 1]);
    }
  }

  /** The value of `a + b` is `a` shifted by `|b|` digits plus `b`. */
  lemma {:induction false} DigitsValueAppend(a: string, b: string)
    requires AllDigits(a) && AllDigits(b)
    ensures AllDigits(a + b)
    ensures DigitsValue(a + b) == DigitsValue(a) * Pow10(|b|) + DigitsValue(b)
  {
    var ab := a + b;
    if b != [] {
      var b' := b[..|b| - 1];
      assert ab[..|ab| - 1] == a + b';
      assert ab[|ab| - 1] == b[|b| - 1];
      DigitsValueAppend(a, b');
      var x, p, d := DigitsValue(a), Pow10(|b'|), DigitOf(b[|b| - 1]);
      assert DigitsValue(ab) == DigitsValue(a + b') * 10 + d;
      assert DigitsValue(b) == DigitsValue(b') * 10 + d;
      assert Pow10(|b|) == 10 * p;
      ShiftDecimal(x, p);
    } else {
      assert ab == a;
    }
  }

  lemma ShiftDecimal(x: int, p: int)
    ensures (x * p) * 10 == x * (10 * p)
  {
  }

  /** Splitting the last two digits off a prefix. */
  lemma SplitTwoDigits(s: string, k: nat)
    requires AllDigits(s) && 2 <= k <= |s|
    ensures DigitsValue(s[..k]) == DigitsValue(s[..k - 2]) * 100 + DigitsValue(s[k - 2..k])
  {
    assert s[..k] == s[..k - 2] + s[k - 2..k];
    DigitsValueAppend(s[..k - 2], s[k - 2..k]);
    assert Pow10(2) == 100;
  }

  /** The fields of a stamp, read as one number, are the stamp's value. */
  lemma FieldsValue(s: string)
    requires |s| == StampLength && AllDigits(s)
    ensures Instant(Fields(s)) == DigitsValue(s)
  {
    var t := Fields(s);
    assert s[..4] == s[0..4] && s[..14] == s;
    SplitTwoDigits(s, 6);
    var v6 := t.year * 100 + t.month;
    assert DigitsValue(s[..6]) == v6;
    SplitTwoDigits(s, 8);
    var v8 := v6 * 100 + t.day;
    assert DigitsValue(s[..8]) == v8;
    SplitTwoDigits(s, 10);
    var v10 := v8 * 100 + t.hour;
    assert DigitsValue(s[..10]) == v10;
    SplitTwoDigits(s, 12);
    var v12 := v10 * 100 + t.minute;
    assert DigitsValue(s[..12]) == v12;
    SplitTwoDigits(s, 14);
  }

  /** Equal-length digit strings compare ordinally as their values compare. */
  lemma {:induction false} OrdinalLessIsNumeric(a: string, b: string)
    requires |a| == |b| && AllDigits(a) && AllDigits(b)
    ensures OrdinalLess(a, b) <==> DigitsValue(a) < DigitsValue(b)
    decreases |a|
  {
    if a != [] {
      var n := |a| - 1;
      var a', b' := a[1..], b[1..];
      DigitsValueAppend([a[0]], a');
      DigitsValueAppend([b[0]], b');
      assert [a[0]] + a' == a && [b[0]] + b' == b;
      DigitsValueBound(a');
      DigitsValueBound(b');
      assert DigitsValue([a[0]]) == DigitOf(a[0]);
      assert DigitsValue([b[0]]) == DigitOf(b[0]);
      if a[0] == b[0] {
        OrdinalLessIsNumeric(a', b');
      } else if a[0] < b[0] {
        LeadingDigitDecides(DigitOf(a[0]), DigitOf(b[0]), DigitsValue(a'), DigitsValue(b'), Pow10(n));
      } else {
        LeadingDigitDecides(DigitOf(b[0]), DigitOf(a[0]), DigitsValue(b'), DigitsValue(a'), Pow10(n));
      }
    }
  }

  lemma LeadingDigitDecides(x: int, y: int, u: int, v: int, p: int)
    requires 0 <= x < y && 0 <= u < p && 0 <= v
    ensures x * p + u < y * p + v
  {
    assert (x + 1) * p <= y * p;
  }

  lemma {:induction false} DigitsValueInjective(a: string, b: string)
    requires |a| == |b| && AllDigits(a) && AllDigits(b)
    requires DigitsValue(a) == DigitsValue(b)
    ensures a == b
  {
    if a != [] {
      OrdinalLessIsNumeric(a, b);
      OrdinalLessIsNumeric(b, a);
      OrdinalTotal(a, b);
    }
  }

  lemma {:induction false} OrdinalTotal(a: string, b: string)
    requires |a| == |b|
    ensures a == b || OrdinalLess(a, b) || OrdinalLess(b, a)
    decreases |a|
  {
    if a != [] && a[0] == b[0] {
      OrdinalTotal(a[1..], b[1..]);
      if a[1..] == b[1..] {
        assert a == [a[0]] + a[1..] && b == [b[0]] + b[1..];
      }
    }
  }
}
