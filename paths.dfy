/** `System.IO.Path` on a Unix host, where both directory separators are '/'. */
module Paths {
  import opened Text

  const Separator: char := '/'
  const Separators: set<char> := {'/'}

  /** `Path.IsPathRooted`. */
  predicate IsRooted(p: string) {
    |p| > 0 && p[0] == Separator
  }

  /** `Path.GetFileName`: everything after the last separator. */
  function GetFileName(p: string): string {
    p[LastIndexOf(p, Separator) + 1..]
  }

  /** The file name is the part of the path after its last separator: it holds
      no separator and is either the whole path or preceded by one. */
  lemma FileNameFacts(p: string)
    ensures var r := GetFileName(p);
            && Separator !in r
            && EndsWith(p, r)
            && (|r| == |p| || p[|p| - |r| - 1] == Separator)
  {
    LastIndexOfFacts(p, Separator);
    var i := LastIndexOf(p, Separator);
    var r := p[i + 1..];
    forall j | 0 <= j < |r| ensures r[j] != Separator {
      assert r[j] == p[i + 1 + j];
    }
    assert p[|p| - |r|..] == r;
  }

  /** `Path.GetExtension`: from the last '.' of the file name, or "" when the
      name has no '.' or ends with it. */
  function GetExtension(p: string): string {
    var name := GetFileName(p);
    var i := LastIndexOf(name, '.');
    if i < 0 || i == |name| - 1 then "" else name[i..]
  }

  /** An extension is empty, or a '.' followed by at least one character and
      no other '.' nor separator, and it ends the path. */
  lemma ExtensionFacts(p: string)
    ensures var r := GetExtension(p);
            r == [] || (|r| >= 2 && r[0] == '.' && '.' !in r[1..] && Separator !in r && EndsWith(p, r))
  {
    var name := GetFileName(p);
    FileNameFacts(p);
    var i := LastIndexOf(name, '.');
    LastIndexOfFacts(name, '.');
    if !(i < 0 || i == |name| - 1) {
      var r := name[i..];
      assert forall j :: 0 <= j < |r| - 1 ==> r[1..][j] == name[i + 1 + j];
      assert forall j :: 0 <= j < |r| ==> r[j] == name[i + j];
      EndsWithSuffix(p, name, i);
    }
  }

  /** `Path.Join(a, b)`: inserts a separator only when neither side has one. */
  function Join(a: string, b: string): string {
    if a == [] then b
    else if b == [] then a
    else if a[|a| - 1] == Separator || b[0] == Separator then a + b
    else a + [Separator] + b
  }

  /** `Path.Combine(a, b)`: a rooted `b` replaces `a`. */
  function Combine(a: string, b: string): string {
    if b == [] then a
    else if a == [] then b
    else if IsRooted(b) then b
    else if a[|a| - 1] == Separator then a + b
    else a + [Separator] + b
  }

  /** `Path.GetFullPath` for a non-empty path, resolved against the working
      directory `cwd`; `.`/`..` segments are not collapsed. */
  function GetFullPath(cwd: string, p: string): string {
    if IsRooted(p) then p else Combine(cwd, p)
  }

  /** `Path.GetDirectoryName`: the path before the last separator ("/" for a
      top-level path, "" for a bare name). */
  function GetDirectoryName(p: string): string {
    var i := LastIndexOf(p, Separator);
    if i < 0 then "" else if i == 0 then [Separator] else p[..i]
  }
}
