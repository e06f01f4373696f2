/** Backing a directory up under a relative prefix and then extracting the
    archive through a mapping from that prefix to a destination directory
    puts every backed-up file, with its contents, at the same relative place
    below the destination, writes nothing else there, and leaves everything
    outside the destination as it was. */
module RestoreRoundTrip {
  import opened Text
  import opened Paths
  import opened Errors
  import opened FileSystems
  import opened TarBuilder
  import opened TarExtractor

  /** No two separators in a row. */
  predicate NoEmptySegment(p: string) {
    forall i :: 0 <= i < |p| - 1 ==> !(p[i] == Separator && p[i + 1] == Separator)
  }

  /** A full path as a directory listing returns it: rooted, below the root,
      without a trailing separator and without an empty segment. */
  predicate Canonical(p: string) {
    |p| >= 2 && p[0] == Separator && p[|p| - 1] != Separator && NoEmptySegment(p)
  }

  /** What remains of a canonical path below a canonical directory: neither
      empty nor starting or ending with a separator, no empty segment. */
  predicate RelCanonical(r: string) {
    r != [] && r[0] != Separator && r[|r| - 1] != Separator && NoEmptySegment(r)
  }

  /** Where the file at relative path `rel` lands below `dest`. */
  function Target(dest: string, rel: string): string {
    dest + [Separator] + rel
  }

  /** A filesystem shaped as a tree: nothing lies below a file. */
  ghost predicate FilesAreLeaves(fs: FileSystem) {
    forall f, g :: FileExists(fs, f) && g in fs.nodes ==> !StartsWith(g, f + [Separator])
  }

  /** Every file below `dir` has a canonical path holding no '\'. */
  ghost predicate CanonicalTree(fs: FileSystem, dir: string) {
    && Canonical(dir)
    && forall f :: FileExists(fs, f) && StartsWith(f, dir + [Separator]) ==> Canonical(f) && '\\' !in f
  }

  /** A destination to restore into: a canonical directory whose ancestors
      all exist as directories and below which nothing exists yet. */
  predicate FreshDestination(fs: FileSystem, dest: string) {
    && Canonical(dest)
    && (forall a :: a in Ancestry(dest) ==> a in fs.nodes && fs.nodes[a].Dir?)
    && (forall p :: p in fs.nodes ==> !StartsWith(p, dest + [Separator]))
  }

  /** The entries of an archive made under prefix `key` from the files at the
      relative paths `rels`: one regular-file entry named `key/rel` each, the
      same path always with the same contents, and no path below another. */
  predicate Restorable(entries: seq<TarEntry>, rels: seq<string>, key: string) {
    && |entries| == |rels| && key != [] && '\\' !in key
    && (forall j :: 0 <= j < |rels| ==>
          && RelCanonical(rels[j]) && '\\' !in rels[j]
          && entries[j] == TarEntry(key + [Separator] + rels[j], RegularFile, entries[j].data))
    && (forall i, j :: 0 <= i < |rels| && 0 <= j < |rels| && rels[i] == rels[j] ==> entries[i].data == entries[j].data)
    && (forall i, j :: 0 <= i < |rels| && 0 <= j < |rels| ==> !StartsWith(rels[j], rels[i] + [Separator]))
  }

  /** Nothing outside `dest` differs from `base`. */
  ghost predicate Outside(fs: FileSystem, base: FileSystem, dest: string) {
    forall p :: !StartsWith(p, dest + [Separator]) ==>
      (p in fs.nodes <==> p in base.nodes) && (p in fs.nodes ==> fs.nodes[p] == base.nodes[p])
  }

  /** The first `k` entries are restored, with their contents. */
  predicate Written(fs: FileSystem, dest: string, rels: seq<string>, entries: seq<TarEntry>, k: nat)
    requires k <= |rels| && k <= |entries|
  {
    forall j :: 0 <= j < k ==> Target(dest, rels[j]) in fs.nodes && fs.nodes[Target(dest, rels[j])] == File(entries[j].data, false)
  }

  /** Everything below `dest` is one of the first `kf` restored files, or a
      directory on the way to one of the first `kd`. */
  predicate Below(fs: FileSystem, dest: string, rels: seq<string>, kf: nat, kd: nat)
    requires kf <= |rels| && kd <= |rels|
  {
    forall p :: p in fs.nodes && StartsWith(p, dest + [Separator]) ==>
      || (exists j :: 0 <= j < kf && p == Target(dest, rels[j]))
      || (fs.nodes[p] == Dir && exists j :: 0 <= j < kd && StartsWith(Target(dest, rels[j]), p + [Separator]))
  }

  lemma ReplaceAbsent(s: string, from: char, to: char)
    requires from !in s
    ensures Replace(s, from, to) == s
  {
  }

  /** A path not ending in a separator is its own key. */
  lemma KeyOfUntrimmed(x: string)
    requires x != [] && x[|x| - 1] != Separator
    ensures Key(x) == x
  {
  }

  /** A key is never longer than the path it is taken from. */
  lemma KeyShort(y: string)
    requires y != []
    ensures |Key(y)| <= |y|
  {
    TrimEndFacts(y, Separators);
  }

  /** Every key `CreateDirectory(x)` makes sure of is at most as long as `x`. */
  lemma AncestryShort(x: string)
    requires x != []
    ensures forall a :: a in Ancestry(x) ==> |a| <= |x|
  {
    forall a | a in Ancestry(x) ensures |a| <= |x| {
      if a == Key(x) {
        KeyShort(x);
      } else {
        var i :| 0 < i < |x| && x[i] == Separator && a == Key(x[..i]);
        KeyShort(x[..i]);
      }
    }
  }

  lemma StartsWithCancel(a: string, b: string, c: string)
    ensures StartsWith(a + b, a + c) <==> StartsWith(b, c)
  {
    if |c| <= |b| {
      assert (a + b)[..|a + c|] == a + b[..|c|];
      assert (a + b[..|c|])[|a|..] == b[..|c|];
      assert (a + c)[|a|..] == c;
    }
  }

  /** A path below a directory is the directory, a separator and the rest. */
  lemma SplitBelow(f: string, dir: string)
    requires StartsWith(f, dir + [Separator])
    ensures f == (dir + [Separator]) + f[|dir| + 1..]
  {
    assert f == f[..|dir| + 1] + f[|dir| + 1..];
  }

  /** The target of a relative path below a canonical destination is itself
      canonical and lies below the destination. */
  lemma TargetCanonical(dest: string, rel: string)
    requires Canonical(dest) && RelCanonical(rel)
    ensures Canonical(Target(dest, rel)) && StartsWith(Target(dest, rel), dest + [Separator])
  {
    var t := Target(dest, rel);
    forall i | 0 <= i < |t| - 1 ensures !(t[i] == Separator && t[i + 1] == Separator) {
      if i < |dest| - 1 {
        assert t[i] == dest[i] && t[i + 1] == dest[i + 1];
      } else if i > |dest| {
        var j := i - |dest| - 1;
        assert t[i] == rel[j] && t[i + 1] == rel[j + 1];
      }
    }
    assert t[..|dest| + 1] == dest + [Separator];
  }

  /** Targets below one destination nest exactly as their relative paths do. */
  lemma TargetPrefix(dest: string, r1: string, r2: string)
    ensures StartsWith(Target(dest, r2), Target(dest, r1) + [Separator]) <==> StartsWith(r2, r1 + [Separator])
  {
    assert Target(dest, r2) == (dest + [Separator]) + r2;
    assert Target(dest, r1) + [Separator] == (dest + [Separator]) + (r1 + [Separator]);
    StartsWithCancel(dest + [Separator], r2, r1 + [Separator]);
  }

  lemma TargetInjective(dest: string, r1: string, r2: string)
    requires Target(dest, r1) == Target(dest, r2)
    ensures r1 == r2
  {
    assert Target(dest, r1)[|dest| + 1..] == r1;
    assert Target(dest, r2)[|dest| + 1..] == r2;
  }

  /** The parent of a target is a proper prefix of it, followed there by a
      separator, and no shorter than the destination. */
  lemma DirectoryOfTarget(dest: string, rel: string)
    requires Canonical(dest) && RelCanonical(rel)
    ensures var t, d := Target(dest, rel), GetDirectoryName(Target(dest, rel));
            |dest| <= |d| < |t| && d == t[..|d|] && t[|d|] == Separator
  {
    var t := Target(dest, rel);
    LastIndexOfFacts(t, Separator);
    assert t[|dest|] == Separator;
    assert t[|t| - 1] == rel[|rel| - 1];
  }

  /** The key `CreateDirectory` makes sure of for the prefix of a target
      before one of its separators is an ancestor of the destination, or a
      directory below the destination that the target lies below. */
  lemma PrefixAncestor(dest: string, rel: string, m: nat)
    requires Canonical(dest) && RelCanonical(rel)
    requires 0 < m < |Target(dest, rel)| && Target(dest, rel)[m] == Separator
    ensures var t := Target(dest, rel);
            var a := Key(t[..m]);
            a in Ancestry(dest) || (StartsWith(a, dest + [Separator]) && StartsWith(t, a + [Separator]))
  {
    var t := Target(dest, rel);
    TargetCanonical(dest, rel);
    var x := t[..m];
    assert x[m - 1] == t[m - 1];
    KeyOfUntrimmed(x);
    if m < |dest| {
      assert x == dest[..m] && dest[m] == t[m];
      assert Key(dest[..m]) in (set i | 0 < i < |dest| && dest[i] == Separator :: Key(dest[..i]));
    } else if m == |dest| {
      assert x == dest;
    } else {
      assert x[..|dest| + 1] == t[..|dest| + 1];
      assert t[..m + 1] == x + [Separator];
    }
  }

  /** Every key `CreateDirectory` makes sure of for a target's parent is an
      ancestor of the destination, or a directory below the destination that
      the target lies below. */
  lemma AncestryOfTarget(dest: string, rel: string)
    requires Canonical(dest) && RelCanonical(rel)
    ensures var t := Target(dest, rel);
            forall a :: a in Ancestry(GetDirectoryName(t)) ==>
              a in Ancestry(dest) || (StartsWith(a, dest + [Separator]) && StartsWith(t, a + [Separator]))
  {
    var t := Target(dest, rel);
    var d := GetDirectoryName(t);
    DirectoryOfTarget(dest, rel);
    forall a | a in Ancestry(d)
      ensures a in Ancestry(dest) || (StartsWith(a, dest + [Separator]) && StartsWith(t, a + [Separator]))
    {
      if a == Key(d) {
        PrefixAncestor(dest, rel, |d|);
      } else {
        var m :| 0 < m < |d| && d[m] == Separator && a == Key(d[..m]);
        assert d[..m] == t[..m] && d[m] == t[m];
        PrefixAncestor(dest, rel, m);
      }
    }
  }

  /** An entry named `key/rel` is routed to `dest/rel`. */
  lemma RouteOfEntry(key: string, dest: string, rel: string, data: Content)
    requires key != [] && '\\' !in key && Canonical(dest) && RelCanonical(rel) && '\\' !in rel
    ensures Route([Mapping(key, dest)], TarEntry(key + [Separator] + rel, RegularFile, data)) == Some(Target(dest, rel))
  {
    var name := key + [Separator] + rel;
    assert name[|name| - 1] == rel[|rel| - 1];
    assert !EndsWith(name, "/");
    ReplaceAbsent(name, '\\', '/');
    assert name[..|key + [Separator]|] == key + [Separator];
    assert StartsWithIgnoreCase(name, key + [Separator]);
    assert FirstMatch([Mapping(key, dest)], name) == Some(0);
    assert name[|key| + 1..] == rel;
    assert Combine(dest, rel) == Target(dest, rel);
  }

  /** What `Restorable` says about entry `k` and the entries before it. */
  predicate FitsAt(entries: seq<TarEntry>, rels: seq<string>, key: string, k: nat)
    requires k < |rels| == |entries|
  {
    && key != [] && '\\' !in key && RelCanonical(rels[k]) && '\\' !in rels[k]
    && entries[k] == TarEntry(key + [Separator] + rels[k], RegularFile, entries[k].data)
    && (forall j :: 0 <= j < k && rels[j] == rels[k] ==> entries[j].data == entries[k].data)
    && (forall j :: 0 <= j <= k ==> !StartsWith(rels[j], rels[k] + [Separator]) && !StartsWith(rels[k], rels[j] + [Separator]))
  }

  lemma RestorableFits(entries: seq<TarEntry>, rels: seq<string>, key: string, k: nat)
    requires Restorable(entries, rels, key) && k < |rels|
    ensures FitsAt(entries, rels, key, k)
  {
  }

  /** Making sure of the parent of the next target succeeds, leaves the
      outside and the files restored so far alone, and adds only directories
      on the way to the next target. */
  lemma DirectoryStep(entries: seq<TarEntry>, rels: seq<string>, key: string, dest: string,
                      base: FileSystem, cur: FileSystem, k: nat)
    requires k < |rels| == |entries| && FitsAt(entries, rels, key, k) && FreshDestination(base, dest)
    requires Outside(cur, base, dest) && Written(cur, dest, rels, entries, k) && Below(cur, dest, rels, k, k)
    ensures var c := CreateDirectory(cur, GetDirectoryName(Target(dest, rels[k])));
            && c.Success? && DirectoryExists(c.value, GetDirectoryName(Target(dest, rels[k])))
            && Outside(c.value, base, dest) && Written(c.value, dest, rels, entries, k)
            && Below(c.value, dest, rels, k, k + 1)
  {
    var t := Target(dest, rels[k]);
    var d := GetDirectoryName(t);
    DirectoryOfTarget(dest, rels[k]);
    AncestryOfTarget(dest, rels[k]);
    AncestryShort(dest);
    forall a | a in Ancestry(d) ensures !(a in cur.nodes && cur.nodes[a].File?) {
      if a in cur.nodes && StartsWith(a, dest + [Separator]) && StartsWith(t, a + [Separator]) && !(cur.nodes[a] == Dir) {
        var j :| 0 <= j < k && a == Target(dest, rels[j]);
        TargetPrefix(dest, rels[j], rels[k]);
      }
    }
    var c := CreateDirectory(cur, d);
    forall p | p in c.value.nodes && p !in cur.nodes
      ensures p in Ancestry(d) && StartsWith(p, dest + [Separator]) && StartsWith(t, p + [Separator]) && c.value.nodes[p] == Dir
    {
      assert !StartsWith(p, dest + [Separator]) ==> p in base.nodes;
    }
  }

  /** Allowing more files or more directories keeps `Below`. */
  lemma BelowWiden(fs: FileSystem, dest: string, rels: seq<string>, kf: nat, kd: nat, kf2: nat, kd2: nat)
    requires kf <= kf2 <= |rels| && kd <= kd2 <= |rels| && Below(fs, dest, rels, kf, kd)
    ensures Below(fs, dest, rels, kf2, kd2)
  {
    forall p | p in fs.nodes && StartsWith(p, dest + [Separator])
      ensures || (exists j :: 0 <= j < kf2 && p == Target(dest, rels[j]))
              || (fs.nodes[p] == Dir && exists j :: 0 <= j < kd2 && StartsWith(Target(dest, rels[j]), p + [Separator]))
    {
      if exists j :: 0 <= j < kf && p == Target(dest, rels[j]) {
        var j :| 0 <= j < kf && p == Target(dest, rels[j]);
        assert 0 <= j < kf2;
      } else {
        var j :| 0 <= j < kd && StartsWith(Target(dest, rels[j]), p + [Separator]);
        assert 0 <= j < kd2;
      }
    }
  }

  /** When the next target already holds a file, it is one restored by an
      earlier entry with the same relative path, so it holds the same
      contents. */
  lemma SkipStep(entries: seq<TarEntry>, rels: seq<string>, dest: string, mid: FileSystem, k: nat)
    requires |entries| == |rels| && k < |rels|
    requires forall j :: 0 <= j < k && rels[j] == rels[k] ==> entries[j].data == entries[k].data
    requires Written(mid, dest, rels, entries, k) && Below(mid, dest, rels, k, k + 1)
    requires FileExists(mid, Target(dest, rels[k])) && StartsWith(Target(dest, rels[k]), dest + [Separator])
    ensures Written(mid, dest, rels, entries, k + 1) && Below(mid, dest, rels, k + 1, k + 1)
  {
    var t := Target(dest, rels[k]);
    var j :| 0 <= j < k && t == Target(dest, rels[j]);
    TargetInjective(dest, rels[j], rels[k]);
    BelowWiden(mid, dest, rels, k, k + 1, k + 1, k + 1);
  }

  /** Storing the next entry's contents at its target, where no file stood,
      keeps the outside and restores that entry too. */
  lemma PutStep(entries: seq<TarEntry>, rels: seq<string>, dest: string,
                base: FileSystem, mid: FileSystem, x: FileSystem, k: nat)
    requires k < |rels| == |entries| && StartsWith(Target(dest, rels[k]), dest + [Separator])
    requires Outside(mid, base, dest) && Written(mid, dest, rels, entries, k) && Below(mid, dest, rels, k, k + 1)
    requires !FileExists(mid, Target(dest, rels[k]))
    requires x.nodes == mid.nodes[Target(dest, rels[k]) := File(entries[k].data, false)]
    ensures Outside(x, base, dest) && Written(x, dest, rels, entries, k + 1) && Below(x, dest, rels, k + 1, k + 1)
  {
    var t := Target(dest, rels[k]);
    forall p | p in x.nodes && StartsWith(p, dest + [Separator])
      ensures || (exists j :: 0 <= j < k + 1 && p == Target(dest, rels[j]))
              || (x.nodes[p] == Dir && exists j :: 0 <= j < k + 1 && StartsWith(Target(dest, rels[j]), p + [Separator]))
    {
      if p != t {
        assert p in mid.nodes && x.nodes[p] == mid.nodes[p];
        BelowWiden(mid, dest, rels, k, k + 1, k + 1, k + 1);
      }
    }
  }

  /** When the next target holds no file yet, nothing stands in its way:
      writing it succeeds and restores it. */
  lemma WriteStep(entries: seq<TarEntry>, rels: seq<string>, key: string, dest: string,
                  base: FileSystem, mid: FileSystem, k: nat)
    requires k < |rels| == |entries| && FitsAt(entries, rels, key, k) && Canonical(dest)
    requires Outside(mid, base, dest) && Written(mid, dest, rels, entries, k) && Below(mid, dest, rels, k, k + 1)
    requires !FileExists(mid, Target(dest, rels[k])) && DirectoryExists(mid, GetDirectoryName(Target(dest, rels[k])))
    ensures var c := CreateFile(mid, Target(dest, rels[k]), entries[k].data);
            && c.Success? && Outside(c.value, base, dest)
            && Written(c.value, dest, rels, entries, k + 1) && Below(c.value, dest, rels, k + 1, k + 1)
  {
    var t := Target(dest, rels[k]);
    TargetCanonical(dest, rels[k]);
    KeyOfUntrimmed(t);
    if t in mid.nodes {
      var j :| 0 <= j < k + 1 && StartsWith(Target(dest, rels[j]), t + [Separator]);
      TargetPrefix(dest, rels[k], rels[j]);
    }
    var c := CreateFile(mid, t, entries[k].data);
    PutStep(entries, rels, dest, base, mid, c.value, k);
  }

  /** What one pass of the extraction loop does, without overwriting, to an
      entry routed to `t` whose parent directory can be made. */
  lemma ExtractOneRouted(e: TarEntry, mappings: seq<Mapping>, t: string, fs: FileSystem)
    requires Route(mappings, e) == Some(t) && CreateDirectory(fs, GetDirectoryName(t)).Success?
    ensures var mid := CreateDirectory(fs, GetDirectoryName(t)).value;
            var c := CreateFile(mid, t, e.data);
            ExtractOne(e, mappings, false, fs)
            == if FileExists(mid, t) then Extracted(mid, None)
               else if c.Failure? then Extracted(mid, Some(c.error)) else Extracted(c.value, None)
  {
  }

  /** One pass of the extraction loop restores the next entry. */
  lemma ExtractStep(entries: seq<TarEntry>, rels: seq<string>, key: string, dest: string,
                    base: FileSystem, cur: FileSystem, k: nat)
    requires k < |rels| == |entries| && FitsAt(entries, rels, key, k) && FreshDestination(base, dest)
    requires Outside(cur, base, dest) && Written(cur, dest, rels, entries, k) && Below(cur, dest, rels, k, k)
    ensures var r := ExtractOne(entries[k], [Mapping(key, dest)], false, cur);
            && r.failure == None && Outside(r.fs, base, dest)
            && Written(r.fs, dest, rels, entries, k + 1) && Below(r.fs, dest, rels, k + 1, k + 1)
  {
    var t := Target(dest, rels[k]);
    RouteOfEntry(key, dest, rels[k], entries[k].data);
    DirectoryStep(entries, rels, key, dest, base, cur, k);
    ExtractOneRouted(entries[k], [Mapping(key, dest)], t, cur);
    var mid := CreateDirectory(cur, GetDirectoryName(t)).value;
    if FileExists(mid, t) {
      TargetCanonical(dest, rels[k]);
      SkipStep(entries, rels, dest, mid, k);
    } else {
      WriteStep(entries, rels, key, dest, base, mid, k);
    }
  }

  /** The extraction loop over the first `k` entries restores them. */
  lemma {:induction false} ExtractPrefix(entries: seq<TarEntry>, rels: seq<string>, key: string, dest: string,
                                          base: FileSystem, k: nat)
    requires Restorable(entries, rels, key) && FreshDestination(base, dest) && k <= |rels|
    ensures var r := ExtractAll(entries[..k], [Mapping(key, dest)], false, base);
            && r.failure == None && Outside(r.fs, base, dest)
            && Written(r.fs, dest, rels, entries, k) && Below(r.fs, dest, rels, k, k)
  {
    if k == 0 {
      assert entries[..0] == [];
    } else {
      ExtractPrefix(entries, rels, key, dest, base, k - 1);
      RestorableFits(entries, rels, key, k - 1);
      ExtractNext(entries, rels, key, dest, base, k - 1);
    }
  }

  /** Extending the extracted prefix by one entry keeps it restored. */
  lemma ExtractNext(entries: seq<TarEntry>, rels: seq<string>, key: string, dest: string,
                    base: FileSystem, k: nat)
    requires k < |rels| == |entries| && FitsAt(entries, rels, key, k) && FreshDestination(base, dest)
    requires var r := ExtractAll(entries[..k], [Mapping(key, dest)], false, base);
             && r.failure == None && Outside(r.fs, base, dest)
             && Written(r.fs, dest, rels, entries, k) && Below(r.fs, dest, rels, k, k)
    ensures var r := ExtractAll(entries[..k + 1], [Mapping(key, dest)], false, base);
            && r.failure == None && Outside(r.fs, base, dest)
            && Written(r.fs, dest, rels, entries, k + 1) && Below(r.fs, dest, rels, k + 1, k + 1)
  {
    ExtractAllSnoc(entries, k, [Mapping(key, dest)], false, base);
    var previous := ExtractAll(entries[..k], [Mapping(key, dest)], false, base);
    ExtractStep(entries, rels, key, dest, base, previous.fs, k);
  }

  /** After extraction, each entry's contents sit at its target, and every
      file below `dest` is the target of some entry. */
  ghost predicate Restored(x: FileSystem, entries: seq<TarEntry>, rels: seq<string>, dest: string)
    requires |entries| == |rels|
  {
    && (forall j :: 0 <= j < |rels| ==>
          FileExists(x, Target(dest, rels[j])) && x.nodes[Target(dest, rels[j])].content == entries[j].data)
    && (forall p :: FileExists(x, p) && StartsWith(p, dest + [Separator]) ==>
          exists j :: 0 <= j < |rels| && p == Target(dest, rels[j]))
  }

  /** Extracting a restorable archive into a fresh destination never fails,
      writes each entry's contents to its target, creates no other file below
      the destination, and changes nothing outside it. */
  lemma ExtractRestores(entries: seq<TarEntry>, rels: seq<string>, key: string, dest: string, base: FileSystem)
    requires Restorable(entries, rels, key) && FreshDestination(base, dest)
    ensures var r := ExtractAll(entries, [Mapping(key, dest)], false, base);
            r.failure == None && Restored(r.fs, entries, rels, dest) && Outside(r.fs, base, dest)
  {
    ExtractPrefix(entries, rels, key, dest, base, |rels|);
    assert entries[..|rels|] == entries;
  }

  /** What a canonical path below a canonical directory leaves after the
      directory and its separator is a canonical relative path. */
  lemma RelOfCanonical(dir: string, f: string)
    requires Canonical(dir) && Canonical(f) && StartsWith(f, dir + [Separator])
    ensures RelCanonical(f[|dir| + 1..])
  {
    var r := f[|dir| + 1..];
    assert f[|dir|] == (dir + [Separator])[|dir|];
    assert forall i :: 0 <= i < |r| ==> r[i] == f[|dir| + 1 + i];
  }

  lemma DirPrefixOfCanonical(dir: string)
    requires Canonical(dir)
    ensures DirPrefix(dir) == dir + [Separator]
  {
    assert TrimEnd(dir, Separators) == dir;
  }

  /** Each staged file is one of the listed files, passed the extension
      filter, and is named by the prefix, '/' and its path relative to
      `dir`. */
  ghost predicate StagedFrom(staged: seq<Staged>, files: seq<string>, dir: string, prefix: string, excluded: set<string>) {
    forall s <- staged ::
      && s.filePath in files && !Excluded(excluded, s.filePath) && |DirPrefix(dir)| <= |s.filePath|
      && s.entryName == prefix + [Separator] + s.filePath[|DirPrefix(dir)|..]
  }

  /** Under a prefix holding neither '/' nor '\\', `AddDirectory` stages each
      file that passes the extension filter, naming it by the prefix, '/' and
      its path relative to the directory. */
  lemma {:induction false} StagedUnderPrefix(files: seq<string>, dir: string, prefix: string, excluded: set<string>)
    requires forall f <- files :: |DirPrefix(dir)| <= |f| && StartsWith(f, DirPrefix(dir)) && '\\' !in f
    requires Separator !in prefix && '\\' !in prefix
    ensures StagedFrom(StageFiles(files, dir, Some(prefix), excluded), files, dir, prefix, excluded)
  {
    if files != [] {
      var f := files[|files| - 1];
      StagedUnderPrefix(files[..|files| - 1], dir, prefix, excluded);
      StagedName(dir, f, Some(prefix));
      var rel := f[|DirPrefix(dir)|..];
      assert forall i :: 0 <= i < |rel| ==> rel[i] == f[|DirPrefix(dir)| + i];
      ReplaceAbsent(rel, '\\', '/');
      ReplaceAbsent(prefix, '\\', '/');
      assert TrimEnd(prefix, {'/'}) == prefix;
    }
  }

  /** The paths of the staged files relative to their directory, whose
      prefix is `n` characters long. */
  ghost function RelativePaths(kept: seq<Staged>, n: nat): (r: seq<string>)
    requires forall i :: 0 <= i < |kept| ==> n <= |kept[i].filePath|
    ensures |r| == |kept| && forall i :: 0 <= i < |kept| ==> r[i] == kept[i].filePath[n..]
  {
    seq(|kept|, i requires 0 <= i < |kept| => kept[i].filePath[n..])
  }

  /** A staged regular file that is not a symlink is among those `Save`
      writes. */
  lemma InKept(staged: seq<Staged>, fs: FileSystem, f: string)
    requires f in FilePaths(staged) && f in fs.nodes && fs.nodes[f].File? && !fs.nodes[f].isSymlink
    ensures exists i :: 0 <= i < |Kept(staged, false, fs)| && Kept(staged, false, fs)[i].filePath == f
  {
    var kept := Kept(staged, false, fs);
    var m :| 0 <= m < |staged| && FilePaths(staged)[m] == f;
    assert staged[m] in kept;
    var i :| 0 <= i < |kept| && kept[i] == staged[m];
  }

  /** Every listed regular file that passes the extension filter and is not
      a symlink is among the staged files `kept`. */
  ghost predicate Covered(files: seq<string>, kept: seq<Staged>, fs: FileSystem, excluded: set<string>) {
    forall f :: f in files && !Excluded(excluded, f) && f in fs.nodes && fs.nodes[f].File? && !fs.nodes[f].isSymlink ==>
      exists i :: 0 <= i < |kept| && kept[i].filePath == f
  }

  /** When the staged paths are the listed files that pass the filter,
      each of those that is a regular file and not a symlink is written. */
  lemma KeptCovers(staged: seq<Staged>, files: seq<string>, fs: FileSystem, excluded: set<string>)
    requires FilePaths(staged) == NotExcluded(files, excluded)
    ensures Covered(files, Kept(staged, false, fs), fs, excluded)
  {
    forall f | f in files && !Excluded(excluded, f) && f in fs.nodes && fs.nodes[f].File? && !fs.nodes[f].isSymlink
      ensures exists i :: 0 <= i < |Kept(staged, false, fs)| && Kept(staged, false, fs)[i].filePath == f
    {
      assert f in NotExcluded(files, excluded);
      InKept(staged, fs, f);
    }
  }

  /** The entries written for the staged files `kept`: each a regular-file
      entry named by the prefix and the file's path relative to `dir`,
      holding the file's contents; each file canonical and below `dir`. */
  ghost predicate Entries(kept: seq<Staged>, w: seq<TarEntry>, fs: FileSystem, dir: string, prefix: string) {
    && |w| == |kept|
    && forall i :: 0 <= i < |kept| ==>
         && |dir| + 1 <= |kept[i].filePath| && kept[i].filePath in fs.nodes && fs.nodes[kept[i].filePath].File?
         && Canonical(kept[i].filePath) && '\\' !in kept[i].filePath
         && StartsWith(kept[i].filePath, dir + [Separator])
         && w[i] == TarEntry(prefix + [Separator] + kept[i].filePath[|dir| + 1..], RegularFile,
                             fs.nodes[kept[i].filePath].content)
  }

  /** The entries written for staged files named `prefix/rel`, each with the
      contents of its file, are one regular-file entry per relative path. */
  lemma EntriesNamed(kept: seq<Staged>, w: seq<TarEntry>, fs: FileSystem, dir: string, prefix: string)
    requires Canonical(dir) && Entries(kept, w, fs, dir, prefix)
    requires forall i :: 0 <= i < |kept| ==> |dir| + 1 <= |kept[i].filePath|
    ensures var rels := RelativePaths(kept, |dir| + 1);
            forall j :: 0 <= j < |rels| ==>
              && RelCanonical(rels[j]) && '\\' !in rels[j]
              && w[j] == TarEntry(prefix + [Separator] + rels[j], RegularFile, w[j].data)
  {
    var rels := RelativePaths(kept, |dir| + 1);
    forall j | 0 <= j < |rels|
      ensures RelCanonical(rels[j]) && '\\' !in rels[j]
    {
      RelOfCanonical(dir, kept[j].filePath);
      assert forall i :: 0 <= i < |rels[j]| ==> rels[j][i] == kept[j].filePath[|dir| + 1 + i];
    }
  }

  /** Files of a tree-shaped filesystem below one directory: equal relative
      paths are the same file, and no relative path lies below another. */
  lemma EntriesTree(kept: seq<Staged>, w: seq<TarEntry>, fs: FileSystem, dir: string, prefix: string)
    requires FilesAreLeaves(fs) && Entries(kept, w, fs, dir, prefix)
    requires forall i :: 0 <= i < |kept| ==> |dir| + 1 <= |kept[i].filePath|
    ensures var rels := RelativePaths(kept, |dir| + 1);
            && (forall i, j :: 0 <= i < |rels| && 0 <= j < |rels| && rels[i] == rels[j] ==> w[i].data == w[j].data)
            && (forall i, j :: 0 <= i < |rels| && 0 <= j < |rels| ==> !StartsWith(rels[j], rels[i] + [Separator]))
  {
    var rels := RelativePaths(kept, |dir| + 1);
    forall i, j | 0 <= i < |rels| && 0 <= j < |rels|
      ensures rels[i] == rels[j] ==> w[i].data == w[j].data
      ensures !StartsWith(rels[j], rels[i] + [Separator])
    {
      SplitBelow(kept[i].filePath, dir);
      SplitBelow(kept[j].filePath, dir);
      StartsWithCancel(dir + [Separator], rels[j], rels[i] + [Separator]);
      assert kept[i].filePath + [Separator] == (dir + [Separator]) + (rels[i] + [Separator]);
    }
  }

  /** Entries written for distinct files of a tree-shaped filesystem,
      under a prefix holding no '\\', form a restorable archive. */
  lemma EntriesRestorable(kept: seq<Staged>, w: seq<TarEntry>, fs: FileSystem, dir: string, prefix: string)
    requires Canonical(dir) && FilesAreLeaves(fs) && prefix != [] && '\\' !in prefix
    requires Entries(kept, w, fs, dir, prefix)
    requires forall i :: 0 <= i < |kept| ==> |dir| + 1 <= |kept[i].filePath|
    ensures Restorable(w, RelativePaths(kept, |dir| + 1), prefix)
  {
    EntriesNamed(kept, w, fs, dir, prefix);
    EntriesTree(kept, w, fs, dir, prefix);
  }

  /** The listed files are regular files with canonical paths holding no
      '\\', below `dir`. */
  ghost predicate Listed(files: seq<string>, fs: FileSystem, dir: string) {
    forall f <- files ::
      && |DirPrefix(dir)| <= |f| && StartsWith(f, DirPrefix(dir)) && '\\' !in f
      && f in fs.nodes && fs.nodes[f].File? && Canonical(f)
  }

  /** The files enumerated below a canonical directory of a canonical tree. */
  lemma ListedFiles(fs: FileSystem, dir: string)
    requires CanonicalTree(fs, dir)
    ensures forall f <- EnumerateFiles(fs, dir) :: |DirPrefix(dir)| <= |f| && StartsWith(f, DirPrefix(dir)) && '\\' !in f
    ensures Listed(EnumerateFiles(fs, dir), fs, dir)
  {
    DirPrefixOfCanonical(dir);
  }

  /** The entry written for one staged listed file. */
  lemma EntryOfListed(s: Staged, e: TarEntry, files: seq<string>, fs: FileSystem, dir: string, prefix: string)
    requires Canonical(dir) && Listed(files, fs, dir) && s.filePath in files
    requires |DirPrefix(dir)| <= |s.filePath| && s.entryName == prefix + [Separator] + s.filePath[|DirPrefix(dir)|..]
    requires s.filePath in fs.nodes && fs.nodes[s.filePath].File?
    requires e == TarEntry(s.entryName, RegularFile, fs.nodes[s.filePath].content)
    ensures && |dir| + 1 <= |s.filePath| && Canonical(s.filePath) && '\\' !in s.filePath
            && StartsWith(s.filePath, dir + [Separator])
            && e == TarEntry(prefix + [Separator] + s.filePath[|dir| + 1..], RegularFile, fs.nodes[s.filePath].content)
  {
    DirPrefixOfCanonical(dir);
  }

  /** What `Save` writes from files staged by `AddDirectory(dir, prefix)`,
      links not followed, entry by entry: a canonical file below `dir`,
      named by the prefix and its relative path, with the file's contents. */
  lemma WrittenEntries(staged: seq<Staged>, files: seq<string>, fs: FileSystem, dir: string, prefix: string, excluded: set<string>)
    requires Canonical(dir) && Listed(files, fs, dir) && StagedFrom(staged, files, dir, prefix, excluded)
    ensures WriteEntries(staged, false, fs).failure == None
    ensures forall i :: 0 <= i < |Kept(staged, false, fs)| ==> |dir| + 1 <= |Kept(staged, false, fs)[i].filePath|
    ensures Entries(Kept(staged, false, fs), WriteEntries(staged, false, fs).written, fs, dir, prefix)
  {
    forall t <- staged ensures t.filePath in fs.nodes && fs.nodes[t.filePath].File? {
      assert t.filePath in files;
    }
    SaveSkipsLinks(staged, fs);
    var kept, a := Kept(staged, false, fs), WriteEntries(staged, false, fs);
    forall i | 0 <= i < |kept|
      ensures && |dir| + 1 <= |kept[i].filePath| && kept[i].filePath in fs.nodes && fs.nodes[kept[i].filePath].File?
              && Canonical(kept[i].filePath) && '\\' !in kept[i].filePath
              && StartsWith(kept[i].filePath, dir + [Separator])
              && a.written[i] == TarEntry(prefix + [Separator] + kept[i].filePath[|dir| + 1..], RegularFile,
                                          fs.nodes[kept[i].filePath].content)
    {
      assert kept[i] in staged;
      EntryOfListed(kept[i], a.written[i], files, fs, dir, prefix);
    }
  }

  /** The archive `Save` writes from `AddDirectory(dir, prefix)`, links not
      followed, is written without failure and is restorable. */
  lemma ArchiveRestorable(fs: FileSystem, dir: string, prefix: string, excluded: set<string>)
    requires CanonicalTree(fs, dir) && FilesAreLeaves(fs)
    requires prefix != [] && Separator !in prefix && '\\' !in prefix
    ensures var staged := StageFiles(EnumerateFiles(fs, dir), dir, Some(prefix), excluded);
            var kept := Kept(staged, false, fs);
            && WriteEntries(staged, false, fs).failure == None
            && (forall i :: 0 <= i < |kept| ==> |dir| + 1 <= |kept[i].filePath|)
            && Restorable(WriteEntries(staged, false, fs).written, RelativePaths(kept, |dir| + 1), prefix)
  {
    ListedFiles(fs, dir);
    StagedUnderPrefix(EnumerateFiles(fs, dir), dir, prefix, excluded);
    var staged := StageFiles(EnumerateFiles(fs, dir), dir, Some(prefix), excluded);
    WrittenEntries(staged, EnumerateFiles(fs, dir), fs, dir, prefix, excluded);
    var kept := Kept(staged, false, fs);
    var w := WriteEntries(staged, false, fs).written;
    EntriesRestorable(kept, w, fs, dir, prefix);
  }

  /** Each written entry comes from a listed file at `dir/rel` that passed
      the extension filter and is a regular file, not a symlink, and holds
      that file's contents. */
  ghost predicate Origin(files: seq<string>, kept: seq<Staged>, rels: seq<string>, w: seq<TarEntry>,
                         fs: FileSystem, dir: string, excluded: set<string>) {
    && |rels| == |kept| == |w|
    && forall i :: 0 <= i < |kept| ==>
         && kept[i].filePath == Target(dir, rels[i]) && kept[i].filePath in files
         && !Excluded(excluded, kept[i].filePath)
         && kept[i].filePath in fs.nodes && fs.nodes[kept[i].filePath].File? && !fs.nodes[kept[i].filePath].isSymlink
         && w[i].data == fs.nodes[kept[i].filePath].content
  }

  /** The archived files come back: the listed regular file at `dir/r` that
      passed the filter and is not a symlink is, after extraction, a file at
      `dest/r` with the same contents. */
  ghost predicate ComeBack(files: seq<string>, fs: FileSystem, x: FileSystem, dir: string, dest: string, excluded: set<string>) {
    forall r :: && Target(dir, r) in files && !Excluded(excluded, Target(dir, r))
                && Target(dir, r) in fs.nodes && fs.nodes[Target(dir, r)].File? && !fs.nodes[Target(dir, r)].isSymlink
                ==> FileExists(x, Target(dest, r)) && x.nodes[Target(dest, r)].content == fs.nodes[Target(dir, r)].content
  }

  /** Only archived files come back: every file below `dest` after
      extraction is at `dest/r` for a listed regular file at `dir/r` that
      passed the filter and is not a symlink. */
  ghost predicate OnlyArchived(files: seq<string>, fs: FileSystem, x: FileSystem, dir: string, dest: string, excluded: set<string>) {
    forall p :: FileExists(x, p) && StartsWith(p, dest + [Separator]) ==>
      exists r :: && p == Target(dest, r) && Target(dir, r) in files && !Excluded(excluded, Target(dir, r))
                  && Target(dir, r) in fs.nodes && fs.nodes[Target(dir, r)].File? && !fs.nodes[Target(dir, r)].isSymlink
  }

  /** Written entries that come from archived files, cover all of them and
      are restored to their targets make the archived files come back, and
      only them. */
  lemma Correspond(files: seq<string>, kept: seq<Staged>, rels: seq<string>, w: seq<TarEntry>,
                   fs: FileSystem, x: FileSystem, dir: string, dest: string, excluded: set<string>)
    requires Origin(files, kept, rels, w, fs, dir, excluded) && Covered(files, kept, fs, excluded)
    requires Restored(x, w, rels, dest)
    ensures ComeBack(files, fs, x, dir, dest, excluded) && OnlyArchived(files, fs, x, dir, dest, excluded)
  {
    forall r | && Target(dir, r) in files && !Excluded(excluded, Target(dir, r))
               && Target(dir, r) in fs.nodes && fs.nodes[Target(dir, r)].File? && !fs.nodes[Target(dir, r)].isSymlink
      ensures FileExists(x, Target(dest, r)) && x.nodes[Target(dest, r)].content == fs.nodes[Target(dir, r)].content
    {
      var i :| 0 <= i < |kept| && kept[i].filePath == Target(dir, r);
      TargetInjective(dir, rels[i], r);
    }
    forall p | FileExists(x, p) && StartsWith(p, dest + [Separator])
      ensures exists r :: && p == Target(dest, r) && Target(dir, r) in files && !Excluded(excluded, Target(dir, r))
                          && Target(dir, r) in fs.nodes && fs.nodes[Target(dir, r)].File? && !fs.nodes[Target(dir, r)].isSymlink
    {
      var j :| 0 <= j < |rels| && p == Target(dest, rels[j]);
      assert Target(dir, rels[j]) == kept[j].filePath;
    }
  }

  /** Each entry `Save` writes from files staged by `AddDirectory(dir,
      prefix)`, links not followed, comes from a listed file at `dir/rel`
      that passed the filter and is not a symlink, and holds its contents. */
  lemma OriginOfArchive(staged: seq<Staged>, files: seq<string>, fs: FileSystem, dir: string, prefix: string, excluded: set<string>)
    requires Canonical(dir) && Listed(files, fs, dir) && StagedFrom(staged, files, dir, prefix, excluded)
    ensures var kept := Kept(staged, false, fs);
            && (forall i :: 0 <= i < |kept| ==> |dir| + 1 <= |kept[i].filePath|)
            && Origin(files, kept, RelativePaths(kept, |dir| + 1), WriteEntries(staged, false, fs).written, fs, dir, excluded)
  {
    WrittenEntries(staged, files, fs, dir, prefix, excluded);
    var kept := Kept(staged, false, fs);
    var rels := RelativePaths(kept, |dir| + 1);
    forall i | 0 <= i < |kept|
      ensures && kept[i].filePath == Target(dir, rels[i]) && kept[i].filePath in files
              && !Excluded(excluded, kept[i].filePath) && !fs.nodes[kept[i].filePath].isSymlink
    {
      assert kept[i] in staged;
      SplitBelow(kept[i].filePath, dir);
    }
  }

  /** Backing up the canonical directory `dir` under the relative prefix
      `prefix` (`AddDirectory`, then `Save` without following links) and
      extracting the archive with `prefix` mapped to a fresh destination
      `dest` (`Extract` without overwriting) fails nowhere; the archived
      files come back below `dest`, and only them; nothing outside `dest`
      changes. */
  lemma RelativePrefixRoundTrip(fs: FileSystem, dir: string, prefix: string, excluded: set<string>,
                                fs2: FileSystem, dest: string)
    requires CanonicalTree(fs, dir) && FilesAreLeaves(fs)
    requires prefix != [] && Separator !in prefix && '\\' !in prefix
    requires FreshDestination(fs2, dest)
    ensures var files := EnumerateFiles(fs, dir);
            var a := WriteEntries(StageFiles(files, dir, Some(prefix), excluded), false, fs);
            var x := ExtractAll(a.written, [Mapping(prefix, dest)], false, fs2);
            && a.failure == None && x.failure == None
            && ComeBack(files, fs, x.fs, dir, dest, excluded)
            && OnlyArchived(files, fs, x.fs, dir, dest, excluded)
            && Outside(x.fs, fs2, dest)
  {
    ListedFiles(fs, dir);
    var files := EnumerateFiles(fs, dir);
    StagedUnderPrefix(files, dir, prefix, excluded);
    var staged := StageFiles(files, dir, Some(prefix), excluded);
    var kept := Kept(staged, false, fs);
    ArchiveRestorable(fs, dir, prefix, excluded);
    OriginOfArchive(staged, files, fs, dir, prefix, excluded);
    StageFilesSelects(files, dir, Some(prefix), excluded);
    KeptCovers(staged, files, fs, excluded);
    var w := WriteEntries(staged, false, fs).written;
    var rels := RelativePaths(kept, |dir| + 1);
    ExtractRestores(w, rels, prefix, dest, fs2);
    Correspond(files, kept, rels, w, fs, ExtractAll(w, [Mapping(prefix, dest)], false, fs2).fs, dir, dest, excluded);
  }
}
