/** Ordinal string helpers used by the backup engine: case folding, prefix and
    suffix tests, character replacement and trimming. Case folding is ASCII
    only (A-Z <-> a-z). */
module Text {

  function Lower(c: char): char {
    if 'A' <= c <= 'Z' then (c as int + 32) as char else c
  }

  /** `ToLowerInvariant`, restricted to ASCII letters. */
  function LowerAll(s: string): (r: string)
    ensures |r| == |s|
    ensures forall i {:trigger r[i]} :: 0 <= i < |s| ==> r[i] == Lower(s[i])
  {
    seq(|s|, i requires 0 <= i < |s| => Lower(s[i]))
  }

  lemma LowerAllIdempotent(s: string)
    ensures LowerAll(LowerAll(s)) == LowerAll(s)
  {
  }

  /** `StringComparer.OrdinalIgnoreCase` equality. */
  predicate EqualsIgnoreCase(a: string, b: string) {
    LowerAll(a) == LowerAll(b)
  }

  predicate StartsWith(s: string, prefix: string) {
    |prefix| <= |s| && s[..|prefix|] == prefix
  }

  /** `s.StartsWith(prefix, StringComparison.OrdinalIgnoreCase)`. */
  predicate StartsWithIgnoreCase(s: string, prefix: string) {
    |prefix| <= |s| && EqualsIgnoreCase(s[..|prefix|], prefix)
  }

  predicate EndsWith(s: string, suffix: string) {
    |suffix| <= |s| && s[|s| - |suffix|..] == suffix
  }

  /** A suffix of a suffix is a suffix. */
  lemma EndsWithSuffix(s: string, t: string, i: nat)
    requires EndsWith(s, t) && i <= |t|
    ensures EndsWith(s, t[i..])
  {
    assert s[|s| - |t[i..]|..] == s[|s| - |t|..][i..];
  }

  /** `s.Replace(from, to)` for single characters. */
  function Replace(s: string, from: char, to: char): (r: string)
    ensures |r| == |s|
    ensures forall i {:trigger r[i]} :: 0 <= i < |s| ==> r[i] == if s[i] == from then to else s[i]
    ensures from != to ==> from !in r
  {
    seq(|s|, i requires 0 <= i < |s| => if s[i] == from then to else s[i])
  }

  /** `s.TrimEnd(cs...)`: drops every trailing character that is in `cs`. */
  function TrimEnd(s: string, cs: set<char>): string {
    if |s| > 0 && s[|s| - 1] in cs then TrimEnd(s[..|s| - 1], cs) else s
  }

  /** What `TrimEnd` keeps is a prefix that does not end in `cs`, and what it
      drops is made of `cs` only. */
  lemma {:induction false} TrimEndFacts(s: string, cs: set<char>)
    ensures var r := TrimEnd(s, cs);
            && StartsWith(s, r)
            && (r == [] || r[|r| - 1] !in cs)
            && forall i :: |r| <= i < |s| ==> s[i] in cs
  {
    if |s| > 0 && s[|s| - 1] in cs {
      TrimEndFacts(s[..|s| - 1], cs);
    }
  }

  /** `s.TrimStart(cs...)`. */
  function TrimStart(s: string, cs: set<char>): string {
    if |s| > 0 && s[0] in cs then TrimStart(s[1..], cs) else s
  }

  /** What `TrimStart` keeps is a suffix that does not start in `cs`, and
      what it drops is made of `cs` only. */
  lemma {:induction false} TrimStartFacts(s: string, cs: set<char>)
    ensures var r := TrimStart(s, cs);
            && EndsWith(s, r)
            && (r == [] || r[0] !in cs)
            && forall i :: 0 <= i < |s| - |r| ==> s[i] in cs
  {
    if |s| > 0 && s[0] in cs {
      TrimStartFacts(s[1..], cs);
      var r := TrimStart(s, cs);
      assert s[|s| - |r|..] == s[1..][|s| - 1 - |r|..];
      forall i | 0 <= i < |s| - |r| ensures s[i] in cs {
        if i > 0 {
          assert s[i] == s[1..][i - 1];
        }
      }
    }
  }

  /** `s.Trim(cs...)`: both ends. */
  function Trim(s: string, cs: set<char>): string {
    TrimStart(TrimEnd(s, cs), cs)
  }

  /** A trimmed string neither starts nor ends with a character of `cs`. */
  lemma TrimFacts(s: string, cs: set<char>)
    ensures var r := Trim(s, cs);
            r == [] || (r[0] !in cs && r[|r| - 1] !in cs)
  {
    var e := TrimEnd(s, cs);
    TrimEndFacts(s, cs);
    TrimStartFacts(e, cs);
    var r := TrimStart(e, cs);
    if r != [] {
      assert r[|r| - 1] == e[|e| - 1];
    }
  }

  /** Index of the last occurrence of `c`, or -1. */
  function LastIndexOf(s: string, c: char): (i: int)
    ensures -1 <= i < |s|
  {
    if |s| == 0 then -1
    else if s[|s| - 1] == c then |s| - 1
    else LastIndexOf(s[..|s| - 1], c)
  }

  /** `LastIndexOf` is an index of `c` (or -1) after which `c` does not occur. */
  lemma {:induction false} LastIndexOfFacts(s: string, c: char)
    ensures var i := LastIndexOf(s, c);
            && (0 <= i ==> s[i] == c)
            && forall j :: i < j < |s| ==> s[j] != c
  {
    if |s| > 0 && s[|s| - 1] != c {
      LastIndexOfFacts(s[..|s| - 1], c);
    }
  }

  /** `string.Length`: the number of UTF-16 code units, two for a character
      outside the Basic Multilingual Plane. */
  function Utf16Length(s: string): (n: nat)
    ensures |s| <= n <= 2 * |s|
  {
    if s == [] then 0 else Utf16Length(s[..|s| - 1]) + (if s[|s| - 1] as int >= 0x1_0000 then 2 else 1)
  }

  /** Within the Basic Multilingual Plane the UTF-16 length is the number of
      characters. */
  lemma {:induction false} BmpUtf16Length(s: string)
    requires forall i :: 0 <= i < |s| ==> s[i] as int < 0x1_0000
    ensures Utf16Length(s) == |s|
  {
    if s != [] {
      BmpUtf16Length(s[..|s| - 1]);
    }
  }

  /** Outside it, every character takes two code units. */
  lemma {:induction false} AstralUtf16Length(s: string)
    requires forall i :: 0 <= i < |s| ==> s[i] as int >= 0x1_0000
    ensures Utf16Length(s) == 2 * |s|
  {
    if s != [] {
      AstralUtf16Length(s[..|s| - 1]);
    }
  }

  predicate IsAsciiDigit(c: char) {
    '0' <= c <= '9'
  }

  predicate AllDigits(s: string) {
    forall i :: 0 <= i < |s| ==> IsAsciiDigit(s[i])
  }

  /** Value of a run of decimal digits, most significant first. */
  function DigitsValue(s: string): (n: nat)
    requires AllDigits(s)
  {
    if |s| == 0 then 0 else DigitsValue(s[..|s| - 1]) * 10 + (s[|s| - 1] as int - '0' as int)
  }

  /** Ordinal (code unit) order on strings. */
  predicate OrdinalLess(a: string, b: string) {
    if |a| == 0 then |b| > 0
    else if |b| == 0 then false
    else if a[0] != b[0] then a[0] < b[0]
    else OrdinalLess(a[1..], b[1..])
  }

  lemma TakeAll<T>(s: seq<T>)
    ensures s[..|s|] == s
  {
  }

  /** Stated once so that accumulator invariants need no sequence
      extensionality in large contexts. */
  lemma AppendAssoc<T>(a: seq<T>, b: seq<T>, c: seq<T>)
    ensures (a + b) + c == a + (b + c)
  {
  }
}
