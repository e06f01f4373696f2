/** The filesystem the engine reads and writes, as a value: a map from path to
    node, the order in which directory listings enumerate paths, and the working
    directory that relative paths resolve against. An archive file stores its
    entry list directly; the tar and gzip byte encoding is not modelled. */
module FileSystems {
  import opened Text
  import opened Paths
  import opened Errors

  newtype byte = x: int | 0 <= x < 256

  datatype EntryKind = RegularFile | Directory | SymbolicLink

  /** What a file holds: plain bytes, or a gzip-compressed tar archive. */
  datatype Content = Bytes(data: seq<byte>) | TarGz(entries: seq<TarEntry>)

  /** One tar entry: its name inside the archive, its kind and its contents. */
  datatype TarEntry = TarEntry(name: string, kind: EntryKind, data: Content)

  datatype Node = Dir | File(content: Content, isSymlink: bool)

  datatype FileSystem = FileSystem(nodes: map<string, Node>, order: seq<string>, cwd: string)

  /** The key a directory is stored under: its path without trailing
      separators ("/" for the root). */
  function Key(p: string): string {
    var t := TrimEnd(p, Separators);
    if t == [] && p != [] then [Separator] else t
  }

  /** `File.Exists`. */
  predicate FileExists(fs: FileSystem, p: string) {
    p in fs.nodes && fs.nodes[p].File?
  }

  /** `Directory.Exists`: false for "", trailing separators are ignored. */
  predicate DirectoryExists(fs: FileSystem, p: string) {
    p != [] && Key(p) in fs.nodes && fs.nodes[Key(p)].Dir?
  }

  /** `Path.Exists`: a file or a directory. */
  predicate PathExists(fs: FileSystem, p: string) {
    FileExists(fs, p) || DirectoryExists(fs, p)
  }

  /** `new FileInfo(p).Attributes.HasFlag(FileAttributes.ReparsePoint)`. The
      attributes of a path that does not exist read as -1, every flag set, so
      a missing path counts as a reparse point. */
  predicate HasReparsePoint(fs: FileSystem, p: string) {
    p !in fs.nodes || (fs.nodes[p].File? && fs.nodes[p].isSymlink)
  }

  /** `File.Create(p)` and writing `content` into it: refused when a directory
      stands at `p` or the parent directory is missing. */
  function CreateFile(fs: FileSystem, p: string, content: Content): (r: Result<FileSystem>)
    ensures r.Success? ==> r.value.nodes == fs.nodes[p := File(content, false)] && r.value.cwd == fs.cwd
    ensures r.Success? <==> !DirectoryExists(fs, p) && DirectoryExists(fs, GetDirectoryName(p))
    ensures r.Success? ==> p in r.value.order
  {
    if DirectoryExists(fs, p) then Failure(UnauthorizedAccess(p))
    else if !DirectoryExists(fs, GetDirectoryName(p)) then Failure(DirectoryNotFound(p))
    else Success(FileSystem(fs.nodes[p := File(content, false)],
                            if p in fs.order then fs.order else fs.order + [p], fs.cwd))
  }

  /** The directories `Directory.CreateDirectory(d)` makes sure of, by key:
      each ancestor of `d` named before one of its separators, and `d`. */
  function Ancestry(d: string): set<string> {
    (set i | 0 < i < |d| && d[i] == Separator :: Key(d[..i])) + {Key(d)}
  }

  /** `Directory.CreateDirectory(d)`: creates `d` and every missing
      ancestor; a no-op when all exist, refused when `d` is empty or a file
      stands at `d` or at one of its ancestors. */
  function CreateDirectory(fs: FileSystem, d: string): (r: Result<FileSystem>)
    ensures r.Success? <==> d != [] && forall a :: a in Ancestry(d) ==> !(a in fs.nodes && fs.nodes[a].File?)
    ensures r.Success? ==> DirectoryExists(r.value, d) && r.value.cwd == fs.cwd && r.value.order == fs.order
    ensures r.Success? ==> forall a :: a in Ancestry(d) ==> a in r.value.nodes && r.value.nodes[a].Dir?
    ensures r.Success? ==> forall p :: p in fs.nodes ==> p in r.value.nodes && r.value.nodes[p] == fs.nodes[p]
    ensures r.Success? ==> forall p :: p in r.value.nodes && p !in fs.nodes ==> p in Ancestry(d)
  {
    if d == [] then Failure(Argument("The value cannot be an empty string."))
    else if exists a :: a in Ancestry(d) && a in fs.nodes && fs.nodes[a].File? then Failure(IO(d))
    else Success(fs.(nodes := fs.nodes + map a | a in Ancestry(d) :: Dir))
  }

  /** `FileInfo.Delete()`. */
  function Delete(fs: FileSystem, p: string): (r: FileSystem)
    ensures r.nodes == fs.nodes - {p}
  {
    fs.(nodes := fs.nodes - {p})
  }

  /** The prefix every path below directory `dir` starts with. */
  function DirPrefix(dir: string): string {
    TrimEnd(dir, Separators) + [Separator]
  }

  /** The files of `order` that exist in `nodes` and start with `prefix`, in
      enumeration order. */
  function FilesUnder(order: seq<string>, nodes: map<string, Node>, prefix: string): (r: seq<string>)
    ensures forall p :: p in r <==> p in order && p in nodes && nodes[p].File? && StartsWith(p, prefix)
  {
    if order == [] then []
    else
      var p := order[|order| - 1];
      FilesUnder(order[..|order| - 1], nodes, prefix)
        + (if p in nodes && nodes[p].File? && StartsWith(p, prefix) then [p] else [])
  }

  /** `Directory.EnumerateFiles(dir, "*", SearchOption.AllDirectories)`. */
  function EnumerateFiles(fs: FileSystem, dir: string): (r: seq<string>)
    ensures forall p :: p in r <==> p in fs.order && FileExists(fs, p) && StartsWith(p, DirPrefix(dir))
  {
    FilesUnder(fs.order, fs.nodes, DirPrefix(dir))
  }

  /** The files directly inside `dir` (no separator after the prefix), in
      enumeration order. */
  function FilesDirectlyIn(order: seq<string>, nodes: map<string, Node>, prefix: string): (r: seq<string>)
    ensures forall p :: p in r <==>
              (p in order && p in nodes && nodes[p].File? && StartsWith(p, prefix) && Separator !in p[|prefix|..])
  {
    if order == [] then []
    else
      var p := order[|order| - 1];
      FilesDirectlyIn(order[..|order| - 1], nodes, prefix)
        + (if p in nodes && nodes[p].File? && StartsWith(p, prefix) && Separator !in p[|prefix|..] then [p] else [])
  }

  /** `DirectoryInfo.GetFiles(..., SearchOption.TopDirectoryOnly)`. */
  function TopLevelFiles(fs: FileSystem, dir: string): (r: seq<string>)
    ensures forall p :: p in r <==>
              (p in fs.order && FileExists(fs, p) && StartsWith(p, DirPrefix(dir)) && Separator !in p[|DirPrefix(dir)|..])
  {
    FilesDirectlyIn(fs.order, fs.nodes, DirPrefix(dir))
  }

  /** No path occurs twice; a directory enumeration never yields a path twice. */
  predicate NoDuplicates(s: seq<string>) {
    forall i, j :: 0 <= i < j < |s| ==> s[i] != s[j]
  }

  lemma AppendNoDuplicates(s: seq<string>, t: seq<string>)
    requires NoDuplicates(s) && NoDuplicates(t)
    requires forall x :: x in t ==> x !in s
    ensures NoDuplicates(s + t)
  {
    forall i, j | 0 <= i < j < |s + t| ensures (s + t)[i] != (s + t)[j] {
      if i < |s| && |s| <= j {
        assert (s + t)[j] in t;
      }
    }
  }

  /** Listing one directory keeps the enumeration free of duplicates. */
  lemma {:induction false} FilesDirectlyInNoDuplicates(order: seq<string>, nodes: map<string, Node>, prefix: string)
    requires NoDuplicates(order)
    ensures NoDuplicates(FilesDirectlyIn(order, nodes, prefix))
  {
    if order != [] {
      var init, p := order[..|order| - 1], order[|order| - 1];
      FilesDirectlyInNoDuplicates(init, nodes, prefix);
      assert p !in init;
      AppendNoDuplicates(FilesDirectlyIn(init, nodes, prefix),
                         if p in nodes && nodes[p].File? && StartsWith(p, prefix) && Separator !in p[|prefix|..] then [p] else []);
    }
  }
}
