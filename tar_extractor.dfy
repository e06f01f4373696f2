/** The archive extractor: a table from archive folder to destination
    directory, and an extraction loop that copies each file entry of the
    archive below the destination of the first folder that contains it. */
module TarExtractor {
  import opened Text
  import opened Paths
  import opened Errors
  import opened FileSystems

  /** One row of the folder table: an archive folder (stored without leading
      or trailing '/') and the full path of its destination directory. */
  datatype Mapping = Mapping(key: string, destination: string)

  /** The position of the row whose key equals `key` ignoring case. */
  function FindKey(mappings: seq<Mapping>, key: string): (r: Option<nat>)
    ensures r.Some? ==> r.value < |mappings| && EqualsIgnoreCase(mappings[r.value].key, key)
    ensures r.None? ==> forall i :: 0 <= i < |mappings| ==> !EqualsIgnoreCase(mappings[i].key, key)
  {
    if mappings == [] then None
    else if EqualsIgnoreCase(mappings[|mappings| - 1].key, key) then Some(|mappings| - 1)
    else FindKey(mappings[..|mappings| - 1], key)
  }

  /** No two keys of the table are equal ignoring case. */
  predicate DistinctKeys(mappings: seq<Mapping>) {
    forall i, j :: 0 <= i < j < |mappings| ==> !EqualsIgnoreCase(mappings[i].key, mappings[j].key)
  }

  /** No key starts with '/': keys are stored trimmed of separators. */
  predicate RelativeKeys(mappings: seq<Mapping>) {
    forall m <- mappings :: m.key == [] || m.key[0] != '/'
  }

  /** The destination the table holds for `key`, compared ignoring case. */
  function Lookup(mappings: seq<Mapping>, key: string): Option<string> {
    match FindKey(mappings, key)
    case None => None
    case Some(i) => Some(mappings[i].destination)
  }

  /** `_folderMappings[key] = destination` on a dictionary that compares keys
      ignoring case: an existing row keeps its place and its stored key and
      takes the new destination; a new key is added at the end. */
  function Put(mappings: seq<Mapping>, key: string, destination: string): (r: seq<Mapping>)
    ensures FindKey(mappings, key).Some? ==>
              var i := FindKey(mappings, key).value;
              r == mappings[i := Mapping(mappings[i].key, destination)]
    ensures FindKey(mappings, key).None? ==> r == mappings + [Mapping(key, destination)]
  {
    match FindKey(mappings, key)
    case Some(i) => mappings[i := Mapping(mappings[i].key, destination)]
    case None => mappings + [Mapping(key, destination)]
  }

  /** The row used for an entry: the first, in table order, whose key followed
      by '/' starts the entry path ignoring case. */
  function FirstMatch(mappings: seq<Mapping>, path: string): (r: Option<nat>)
    ensures r.Some? ==> r.value < |mappings| && StartsWithIgnoreCase(path, mappings[r.value].key + "/")
    ensures r.Some? ==> forall j :: 0 <= j < r.value ==> !StartsWithIgnoreCase(path, mappings[j].key + "/")
    ensures r.None? ==> forall j :: 0 <= j < |mappings| ==> !StartsWithIgnoreCase(path, mappings[j].key + "/")
  {
    if mappings == [] then None
    else if StartsWithIgnoreCase(path, mappings[0].key + "/") then Some(0)
    else match FirstMatch(mappings[1..], path)
      case None => None
      case Some(i) => Some(i + 1)
  }

  /** `TarEntry.IsDirectory` of the tar library: the header marks a
      directory, or the name, as read from the archive, ends in '/' (how old
      tar formats mark directories). */
  predicate IsDirectoryEntry(e: TarEntry) {
    e.kind == Directory || EndsWith(e.name, "/")
  }

  /** The file an entry is written to, or `None` when it is skipped: a
      directory entry, an entry no key matches, or one whose first matching
      key is empty. The output path is the destination combined with the entry
      path less the key and one separator. */
  function Route(mappings: seq<Mapping>, e: TarEntry): Option<string> {
    if IsDirectoryEntry(e) then None
    else
      var path := Replace(e.name, '\\', '/');
      match FirstMatch(mappings, path)
      case None => None
      case Some(i) =>
        if mappings[i].key == [] then None
        else Some(Combine(mappings[i].destination, path[|mappings[i].key| + 1..]))
  }

  /** The filesystem after some entries were processed, and the exception
      that stopped the extraction, if any. */
  datatype Extracted = Extracted(fs: FileSystem, failure: Option<Exception>)

  /** One pass of the extraction loop: create the parent directory of the
      output file, then leave an existing file alone unless overwriting, else
      write the entry's contents. */
  function ExtractOne(e: TarEntry, mappings: seq<Mapping>, force: bool, fs: FileSystem): (r: Extracted)
    ensures Route(mappings, e).None? ==> r == Extracted(fs, None)
    ensures forall p :: FileExists(fs, p) && (Route(mappings, e) != Some(p) || (!force && r.failure.None?)) ==>
              p in r.fs.nodes && r.fs.nodes[p] == fs.nodes[p]
    ensures Route(mappings, e).Some? && r.failure.None? && (force || !FileExists(fs, Route(mappings, e).value)) ==>
              FileExists(r.fs, Route(mappings, e).value) && r.fs.nodes[Route(mappings, e).value].content == e.data
    ensures r.fs.cwd == fs.cwd
  {
    match Route(mappings, e)
    case None => Extracted(fs, None)
    case Some(target) =>
      var d := CreateDirectory(fs, GetDirectoryName(target));
      if d.Failure? then Extracted(fs, Some(d.error))
      else if FileExists(d.value, target) && !force then Extracted(d.value, None)
      else
        var c := CreateFile(d.value, target, e.data);
        if c.Failure? then Extracted(d.value, Some(c.error)) else Extracted(c.value, None)
  }

  /** The extraction loop over `entries`, in archive order; the first
      exception ends it. */
  function ExtractAll(entries: seq<TarEntry>, mappings: seq<Mapping>, force: bool, fs: FileSystem): Extracted {
    if entries == [] then Extracted(fs, None)
    else
      var previous := ExtractAll(entries[..|entries| - 1], mappings, force, fs);
      if previous.failure.Some? then previous
      else ExtractOne(entries[|entries| - 1], mappings, force, previous.fs)
  }

  /** The entries that are written: neither directories nor unmapped. */
  function Routed(entries: seq<TarEntry>, mappings: seq<Mapping>): (r: seq<TarEntry>)
    ensures forall e :: e in r <==> e in entries && Route(mappings, e).Some?
  {
    if entries == [] then []
    else
      var e := entries[|entries| - 1];
      Routed(entries[..|entries| - 1], mappings) + (if Route(mappings, e).Some? then [e] else [])
  }

  class Extractor {
    const archivePath: string
    var mappings: seq<Mapping>
    var forceOverwrite: bool

    predicate Valid()
      reads this
    {
      DistinctKeys(mappings) && RelativeKeys(mappings)
    }

    constructor (archivePath: string)
      ensures this.archivePath == archivePath && mappings == [] && !forceOverwrite && Valid()
    {
      this.archivePath := archivePath;
      mappings := [];
      forceOverwrite := false;
    }

    /** Adds or replaces the row for `archiveFolder`, creating the destination
        directory when it is missing. */
    method MapFolder(fs: FileSystem, archiveFolder: string, destinationPath: string) returns (fs': FileSystem, r: Outcome)
      requires Valid()
      modifies this`mappings
      ensures Valid()
      ensures var key, dest := Trim(Replace(archiveFolder, '\\', '/'), {'/'}), Replace(destinationPath, '\\', '/');
              var created := CreateDirectory(fs, dest);
              if !DirectoryExists(fs, dest) && created.Failure? then
                && fs' == fs && r == Fail(created.error) && mappings == old(mappings)
              else
                && fs' == (if DirectoryExists(fs, dest) then fs else created.value)
                && DirectoryExists(fs', dest)
                && r == Pass
                && mappings == Put(old(mappings), key, GetFullPath(fs.cwd, dest))
    {
      var key := Replace(archiveFolder, '\\', '/');
      var dest := Replace(destinationPath, '\\', '/');
      key := Trim(key, {'/'});
      TrimFacts(Replace(archiveFolder, '\\', '/'), {'/'});
      fs' := fs;
      if !DirectoryExists(fs, dest) {
        var created := CreateDirectory(fs, dest);
        if created.Failure? {
          return fs, Fail(created.error);
        }
        fs' := created.value;
      }
      PutKeepsDistinct(mappings, key, GetFullPath(fs'.cwd, dest));
      PutKeepsRelative(mappings, key, GetFullPath(fs'.cwd, dest));
      mappings := Put(mappings, key, GetFullPath(fs'.cwd, dest));
      r := Pass;
    }

    method ForceOverwrite(force: bool)
      modifies this`forceOverwrite
      ensures forceOverwrite == force
    {
      forceOverwrite := force;
    }

    /** Opens the archive and runs the extraction loop over its entries. */
    method Extract(fs: FileSystem) returns (fs': FileSystem, r: Outcome)
      ensures !FileExists(fs, archivePath) ==> fs' == fs && r == Fail(FileNotFound(archivePath))
      ensures FileExists(fs, archivePath) && !fs.nodes[archivePath].content.TarGz? ==>
                fs' == fs && r == Fail(InvalidArchive(archivePath))
      ensures FileExists(fs, archivePath) && fs.nodes[archivePath].content.TarGz? ==>
                var x := ExtractAll(fs.nodes[archivePath].content.entries, mappings, forceOverwrite, fs);
                fs' == x.fs && r == (if x.failure.Some? then Fail(x.failure.value) else Pass)
    {
      if !FileExists(fs, archivePath) {
        return fs, Fail(FileNotFound(archivePath));
      }
      if !fs.nodes[archivePath].content.TarGz? {
        return fs, Fail(InvalidArchive(archivePath));
      }
      var entries := fs.nodes[archivePath].content.entries;
      var failure: Option<Exception> := None;
      fs' := fs;
      var i := 0;
      while i < |entries| && failure.None?
        invariant 0 <= i <= |entries|
        invariant ExtractAll(entries[..i], mappings, forceOverwrite, fs) == Extracted(fs', failure)
      {
        ExtractAllSnoc(entries, i, mappings, forceOverwrite, fs);
        fs', failure := ExtractEntry(fs', entries[i]);
        i := i + 1;
      }
      ExtractFailureIsFinal(entries, i, mappings, forceOverwrite, fs);
      r := if failure.Some? then Fail(failure.value) else Pass;
    }

    /** The body of the extraction loop for one entry. */
    method ExtractEntry(fs: FileSystem, entry: TarEntry) returns (fs': FileSystem, failure: Option<Exception>)
      ensures ExtractOne(entry, mappings, forceOverwrite, fs) == Extracted(fs', failure)
    {
      if IsDirectoryEntry(entry) {
        return fs, None;
      }
      var path := Replace(entry.name, '\\', '/');
      var m := FirstMatch(mappings, path);
      if m.None? || mappings[m.value].key == [] {
        // "Skipping unmapped archive path"
        return fs, None;
      }
      var relativePath := path[|mappings[m.value].key| + 1..];
      var destinationFile := Combine(mappings[m.value].destination, relativePath);
      var created := CreateDirectory(fs, GetDirectoryName(destinationFile));
      if created.Failure? {
        return fs, Some(created.error);
      }
      fs' := created.value;
      if FileExists(fs', destinationFile) && !forceOverwrite {
        // "Skipping already existing file"
        return fs', None;
      }
      var written := CreateFile(fs', destinationFile, entry.data);
      if written.Failure? {
        return fs', Some(written.error);
      }
      return written.value, None;
    }
  }

  /** `TarExtractor.Construct`: refuses an archive path that is not a file. */
  method Construct(fs: FileSystem, archivePath: string) returns (r: Result<Extractor>)
    ensures r.Failure? <==> !FileExists(fs, archivePath)
    ensures r.Failure? ==> r.error == FileNotFound(archivePath)
    ensures r.Success? ==> fresh(r.value) && r.value.Valid() && r.value.archivePath == archivePath
                           && r.value.mappings == [] && !r.value.forceOverwrite
  {
    if !FileExists(fs, archivePath) {
      return Failure(FileNotFound(archivePath));
    }
    var x := new Extractor(archivePath);
    return Success(x);
  }

  lemma ExtractAllSnoc(entries: seq<TarEntry>, i: nat, mappings: seq<Mapping>, force: bool, fs: FileSystem)
    requires i < |entries|
    ensures ExtractAll(entries[..i + 1], mappings, force, fs)
         == var previous := ExtractAll(entries[..i], mappings, force, fs);
            if previous.failure.Some? then previous else ExtractOne(entries[i], mappings, force, previous.fs)
  {
    assert entries[..i + 1][..i] == entries[..i];
  }

  /** Once an entry has failed, the later ones are never processed. */
  lemma {:induction false} ExtractFailureIsFinal(entries: seq<TarEntry>, k: nat, mappings: seq<Mapping>, force: bool, fs: FileSystem)
    requires k <= |entries|
    requires k == |entries| || ExtractAll(entries[..k], mappings, force, fs).failure.Some?
    ensures ExtractAll(entries, mappings, force, fs) == ExtractAll(entries[..k], mappings, force, fs)
    decreases |entries| - k
  {
    if k < |entries| {
      assert entries[..|entries| - 1][..k] == entries[..k];
      ExtractFailureIsFinal(entries[..|entries| - 1], k, mappings, force, fs);
    } else {
      assert entries[..k] == entries;
    }
  }

  /** `Put` keeps the keys distinct. */
  lemma PutKeepsRelative(mappings: seq<Mapping>, key: string, destination: string)
    requires RelativeKeys(mappings) && (key == [] || key[0] != '/')
    ensures RelativeKeys(Put(mappings, key, destination))
  {
  }

  lemma PutKeepsDistinct(mappings: seq<Mapping>, key: string, destination: string)
    requires DistinctKeys(mappings)
    ensures DistinctKeys(Put(mappings, key, destination))
  {
  }

  /** Dictionary semantics of the table: after `Put`, the key (in any letter
      case) finds the new destination and every other key what it found
      before. */
  lemma {:induction false} PutThenLookup(mappings: seq<Mapping>, key: string, destination: string, other: string)
    requires DistinctKeys(mappings)
    ensures Lookup(Put(mappings, key, destination), other)
         == if EqualsIgnoreCase(key, other) then Some(destination) else Lookup(mappings, other)
  {
    var r := Put(mappings, key, destination);
    PutKeepsDistinct(mappings, key, destination);
    FindKeyUnique(r, other);
    FindKeyUnique(mappings, other);
  }

  /** In a table with distinct keys the key found is the only one that
      matches. */
  lemma FindKeyUnique(mappings: seq<Mapping>, key: string)
    requires DistinctKeys(mappings)
    ensures forall i :: 0 <= i < |mappings| && EqualsIgnoreCase(mappings[i].key, key) ==> FindKey(mappings, key) == Some(i)
  {
  }

  /** A directory entry writes nothing, whether its header marks it as a
      directory or only its name ends in '/': `k/sub/` is skipped, and the
      file `k/sub/a` after it is then written below the new `sub`. */
  lemma SlashNamedEntrySkipped(d: Content)
    ensures var fs := FileSystem(map["/" := Dir, "/d" := Dir], ["/", "/d"], "/");
            var m := [Mapping("k", "/d")];
            var x := ExtractAll([TarEntry("k/sub/", RegularFile, Bytes([])), TarEntry("k/sub/a", RegularFile, d)], m, false, fs);
            && ExtractOne(TarEntry("k/sub/", RegularFile, Bytes([])), m, false, fs) == Extracted(fs, None)
            && x.failure == None && FileExists(x.fs, "/d/sub/a") && x.fs.nodes["/d/sub/a"].content == d
  {
    var fs := FileSystem(map["/" := Dir, "/d" := Dir], ["/", "/d"], "/");
    var m := [Mapping("k", "/d")];
    var e0, e1 := TarEntry("k/sub/", RegularFile, Bytes([])), TarEntry("k/sub/a", RegularFile, d);
    assert EndsWith(e0.name, "/");
    assert Route(m, e0) == None;
    assert [e0][..0] == [];
    assert ExtractAll([e0], m, false, fs) == Extracted(fs, None);
    assert [e0, e1][..1] == [e0];
    SlashExampleWrite(d);
  }

  /** The file entry of `SlashNamedEntrySkipped` is written below `/d`. */
  lemma SlashExampleWrite(d: Content)
    ensures var fs := FileSystem(map["/" := Dir, "/d" := Dir], ["/", "/d"], "/");
            var r := ExtractOne(TarEntry("k/sub/a", RegularFile, d), [Mapping("k", "/d")], false, fs);
            r.failure == None && FileExists(r.fs, "/d/sub/a") && r.fs.nodes["/d/sub/a"].content == d
  {
    var fs := FileSystem(map["/" := Dir, "/d" := Dir], ["/", "/d"], "/");
    SlashExampleRoute(d);
    SlashExampleParent();
    var c := CreateDirectory(fs, "/d/sub");
    assert c.Success?;
    assert "/d/sub/a" !in c.value.nodes;
    assert TrimEnd("/d/sub/a", Separators) == "/d/sub/a";
    assert CreateFile(c.value, "/d/sub/a", d).Success?;
  }

  /** The file entry of `SlashNamedEntrySkipped` is routed below `/d`. */
  lemma SlashExampleRoute(d: Content)
    ensures Route([Mapping("k", "/d")], TarEntry("k/sub/a", RegularFile, d)) == Some("/d/sub/a")
  {
    var name := "k/sub/a";
    assert name[|name| - 1] == 'a';
    assert Replace(name, '\\', '/') == name;
    assert name[..2] == "k/";
    assert StartsWithIgnoreCase(name, "k/");
    assert !EndsWith(name, "/");
    assert FirstMatch([Mapping("k", "/d")], name) == Some(0);
    assert name[2..] == "sub/a";
    assert Combine("/d", "sub/a") == "/d/sub/a";
  }

  /** The parent of `/d/sub/a` and the directories creating it makes sure of. */
  lemma SlashExampleParent()
    ensures GetDirectoryName("/d/sub/a") == "/d/sub"
    ensures forall a :: a in Ancestry("/d/sub") ==> a == "/d" || a == "/d/sub"
  {
    LastIndexOfFacts("/d/sub/a", Separator);
    assert "/d/sub/a"[6] == Separator;
    assert "/d/sub"[..2] == "/d";
    assert TrimEnd("/d", Separators) == "/d";
    assert TrimEnd("/d/sub", Separators) == "/d/sub";
  }

  /** Directory entries and unmapped entries have no effect on the
      extraction: it is the extraction of the routed entries alone. */
  lemma {:induction false} OnlyRoutedEntriesMatter(entries: seq<TarEntry>, mappings: seq<Mapping>, force: bool, fs: FileSystem)
    ensures ExtractAll(entries, mappings, force, fs) == ExtractAll(Routed(entries, mappings), mappings, force, fs)
  {
    if entries != [] {
      var init, e := entries[..|entries| - 1], entries[|entries| - 1];
      OnlyRoutedEntriesMatter(init, mappings, force, fs);
      var previous := ExtractAll(init, mappings, force, fs);
      if Route(mappings, e).Some? {
        var routed := Routed(init, mappings) + [e];
        assert routed[..|routed| - 1] == Routed(init, mappings);
        assert Routed(entries, mappings) == routed;
      } else {
        assert Routed(entries, mappings) == Routed(init, mappings);
        assert previous.failure.None? ==> ExtractOne(e, mappings, force, previous.fs) == previous;
      }
    }
  }

  /** Without overwriting, extraction never changes a file that existed
      before, whatever the archive holds. */
  lemma {:induction false} NoOverwriteKeepsFiles(entries: seq<TarEntry>, mappings: seq<Mapping>, fs: FileSystem, p: string)
    requires FileExists(fs, p)
    ensures var x := ExtractAll(entries, mappings, false, fs);
            p in x.fs.nodes && x.fs.nodes[p] == fs.nodes[p]
  {
    if entries != [] {
      NoOverwriteKeepsFiles(entries[..|entries| - 1], mappings, fs, p);
    }
  }

  /** An entry whose path starts with '/' is never written when no key starts
      with '/' (as `MapFolder` guarantees): its only possible match is an
      empty key, which counts as unmapped. */
  lemma RootedEntryUnrouted(mappings: seq<Mapping>, e: TarEntry)
    requires RelativeKeys(mappings)
    requires IsRooted(Replace(e.name, '\\', '/'))
    ensures Route(mappings, e).None?
  {
    var path := Replace(e.name, '\\', '/');
    var m := FirstMatch(mappings, path);
    if m.Some? {
      var k := mappings[m.value].key + "/";
      assert LowerAll(path[..|k|])[0] == LowerAll(k)[0];
    }
  }

  /** Extracting an archive whose every entry path starts with '/' changes
      nothing. */
  lemma {:induction false} RootedArchiveExtractsNothing(entries: seq<TarEntry>, mappings: seq<Mapping>, force: bool, fs: FileSystem)
    requires RelativeKeys(mappings)
    requires forall e <- entries :: IsRooted(Replace(e.name, '\\', '/'))
    ensures ExtractAll(entries, mappings, force, fs) == Extracted(fs, None)
  {
    if entries != [] {
      RootedArchiveExtractsNothing(entries[..|entries| - 1], mappings, force, fs);
      RootedEntryUnrouted(mappings, entries[|entries| - 1]);
    }
  }
}
