/** The checks a unit must pass before it is backed up or restored. Each check
    appends its errors to one list, in the order name, sources, excludes,
    destination, keep count; an empty list means the unit is valid. */
module UnitValidator {
  import opened Text
  import opened Paths
  import opened Errors
  import opened FileSystems
  import opened Units

  /** One `ValidationError`, by the check that raised it. */
  datatype ValidationError =
    | InvalidName
    | NameTooLong
    | NoSources
    | SourceNotRooted(source: string)
    | SourceMissing(source: string)
    | NestedSources(basePath: string, otherPath: string)
    | ExtensionWithoutDot(exclude: string)
    | DestinationNotRooted(destination: string)
    | DestinationMissing(destination: string)
    | KeepTooSmall

  const MaxNameLength := 30

  predicate IsAsciiLetter(c: char) {
    'a' <= c <= 'z' || 'A' <= c <= 'Z'
  }

  predicate IsNameChar(c: char) {
    IsAsciiLetter(c) || IsAsciiDigit(c) || c == '_' || c == '-'
  }

  /** `[a-zA-Z][a-zA-Z0-9_\-]*`: a letter, then letters, digits, '_' and '-'. */
  predicate IsPlainName(s: string) {
    |s| > 0 && IsAsciiLetter(s[0]) && forall i :: 1 <= i < |s| ==> IsNameChar(s[i])
  }

  /** What `$` leaves to match: the name less one final line feed. */
  function BeforeFinalLineFeed(name: string): string {
    if |name| > 0 && name[|name| - 1] == '\n' then name[..|name| - 1] else name
  }

  /** The name pattern `^[a-zA-Z][a-zA-Z0-9_\-]*$`. Its `$` also matches just
      before a final line feed, so one trailing "\n" is accepted. */
  predicate NameMatches(name: string) {
    IsPlainName(BeforeFinalLineFeed(name))
  }

  /** `Path.Exists`: false for "" and for a path holding U+0000 (the
      exception `GetFullPath` throws on it is caught); relative paths resolve
      against the working directory. */
  predicate Exists(fs: FileSystem, p: string) {
    p != [] && '\0' !in p && PathExists(fs, GetFullPath(fs.cwd, p))
  }

  /** The full path a source is compared under, when it has one. */
  function Full(fs: FileSystem, s: string): string {
    GetFullPath(fs.cwd, TrimEnd(s, Separators))
  }

  /** A source `GetFullPath` accepts once trimmed: not empty (as a source
      made only of separators becomes) and free of U+0000. */
  predicate Resolvable(s: string) {
    var t := TrimEnd(s, Separators);
    t != [] && '\0' !in t
  }

  /** `Path.GetFullPath(s.TrimEnd('/'))`, which throws on the empty string
      that a source made only of separators trims to, and on a path holding
      U+0000. */
  function Resolve(fs: FileSystem, s: string): (r: Result<string>)
    ensures r.Failure? <==> !Resolvable(s)
    ensures r.Failure? ==> r.error.Argument?
    ensures r.Success? ==> r.value == Full(fs, s)
  {
    var t := TrimEnd(s, Separators);
    if t == [] then Failure(Argument("The value cannot be an empty string."))
    else if '\0' in t then Failure(Argument("Null character in path."))
    else Success(GetFullPath(fs.cwd, t))
  }

  /** Trimming separators keeps every U+0000: a source is resolvable
      exactly when it does not trim to "" and holds no U+0000. */
  lemma ResolvableIff(s: string)
    ensures Resolvable(s) <==> TrimEnd(s, Separators) != [] && '\0' !in s
  {
    TrimEndFacts(s, Separators);
    var t := TrimEnd(s, Separators);
    if '\0' in s {
      var i :| 0 <= i < |s| && s[i] == '\0';
      assert i < |t|;
      assert t[i] == s[i];
    }
  }

  /** `other` lies strictly below `base`. */
  predicate IsSubPath(base: string, other: string) {
    StartsWith(other, base + [Separator])
  }

  /** Appends the errors of a check that may throw. */
  function Appended(errors: seq<ValidationError>, r: Result<seq<ValidationError>>): Result<seq<ValidationError>> {
    match r
    case Failure(e) => Failure(e)
    case Success(es) => Success(errors + es)
  }

  function NameErrors(name: string): seq<ValidationError> {
    (if NameMatches(name) then [] else [InvalidName]) + (if Utf16Length(name) > MaxNameLength then [NameTooLong] else [])
  }

  /** The nesting errors of source `i` (resolved to `base`) against the
      sources before `k`, in order. */
  function NestingFrom(fs: FileSystem, sources: seq<string>, i: int, base: string, k: nat): Result<seq<ValidationError>>
    requires k <= |sources|
  {
    if k == 0 then Success([])
    else match NestingFrom(fs, sources, i, base, k - 1)
      case Failure(e) => Failure(e)
      case Success(prev) =>
        if k - 1 == i then Success(prev)
        else match Resolve(fs, sources[k - 1])
          case Failure(e) => Failure(e)
          case Success(other) =>
            Success(prev + if IsSubPath(base, other) then [NestedSources(base, other)] else [])
  }

  /** Rooted, existing, and the nesting checks against every other source. */
  function SourceCheck(fs: FileSystem, sources: seq<string>, i: nat): Result<seq<ValidationError>>
    requires i < |sources|
  {
    var s := sources[i];
    var head := (if IsRooted(s) then [] else [SourceNotRooted(s)]) + (if Exists(fs, s) then [] else [SourceMissing(s)]);
    match Resolve(fs, s)
    case Failure(e) => Failure(e)
    case Success(base) => Appended(head, NestingFrom(fs, sources, i, base, |sources|))
  }

  function SourceChecksUpTo(fs: FileSystem, sources: seq<string>, k: nat): Result<seq<ValidationError>>
    requires k <= |sources|
  {
    if k == 0 then Success([])
    else match SourceChecksUpTo(fs, sources, k - 1)
      case Failure(e) => Failure(e)
      case Success(prev) => Appended(prev, SourceCheck(fs, sources, k - 1))
  }

  function SourceErrors(fs: FileSystem, sources: seq<string>): Result<seq<ValidationError>> {
    if |sources| == 0 then Success([NoSources]) else SourceChecksUpTo(fs, sources, |sources|)
  }

  function ExcludeErrors(excludes: seq<string>): seq<ValidationError> {
    if excludes == [] then []
    else ExcludeErrors(excludes[..|excludes| - 1])
         + if StartsWith(excludes[|excludes| - 1], ".") then [] else [ExtensionWithoutDot(excludes[|excludes| - 1])]
  }

  function DestinationErrors(fs: FileSystem, destination: string): seq<ValidationError> {
    (if IsRooted(destination) then [] else [DestinationNotRooted(destination)])
    + (if Exists(fs, destination) then [] else [DestinationMissing(destination)])
  }

  function KeepErrors(keep: int): seq<ValidationError> {
    if keep < 1 then [KeepTooSmall] else []
  }

  /** What `Validate` returns for `unit` on `fs`, or the exception it throws. */
  function Validation(fs: FileSystem, unit: Unit): Result<seq<ValidationError>> {
    match SourceErrors(fs, unit.sources)
    case Failure(e) => Failure(e)
    case Success(se) =>
      Success(NameErrors(unit.unitName) + se + ExcludeErrors(unit.excludes)
              + DestinationErrors(fs, unit.destination) + KeepErrors(unit.keepLastBackups))
  }

  predicate AllResolve(sources: seq<string>) {
    forall m :: 0 <= m < |sources| ==> Resolvable(sources[m])
  }

  /** The unit as the checks want it, stated directly. */
  predicate Acceptable(fs: FileSystem, unit: Unit) {
    && NameMatches(unit.unitName) && Utf16Length(unit.unitName) <= MaxNameLength
    && |unit.sources| > 0
    && (forall i :: 0 <= i < |unit.sources| ==> IsRooted(unit.sources[i]) && Exists(fs, unit.sources[i]))
    && (forall i, j :: 0 <= i < |unit.sources| && 0 <= j < |unit.sources| && i != j ==>
          !IsSubPath(Full(fs, unit.sources[i]), Full(fs, unit.sources[j])))
    && (forall e <- unit.excludes :: StartsWith(e, "."))
    && IsRooted(unit.destination) && Exists(fs, unit.destination)
    && unit.keepLastBackups >= 1
  }

  /** Once a nesting check throws, the rest of the inner loop never runs. */
  lemma {:induction false} NestingFailureIsFinal(fs: FileSystem, sources: seq<string>, i: int, base: string, k: nat, n: nat)
    requires k <= n <= |sources|
    requires NestingFrom(fs, sources, i, base, k).Failure?
    ensures NestingFrom(fs, sources, i, base, n) == NestingFrom(fs, sources, i, base, k)
    decreases n
  {
    if n > k {
      NestingFailureIsFinal(fs, sources, i, base, k, n - 1);
    }
  }

  /** Once a source check throws, no later source is checked. */
  lemma {:induction false} SourceFailureIsFinal(fs: FileSystem, sources: seq<string>, k: nat, n: nat)
    requires k <= n <= |sources|
    requires SourceChecksUpTo(fs, sources, k).Failure?
    ensures SourceChecksUpTo(fs, sources, n) == SourceChecksUpTo(fs, sources, k)
    decreases n
  {
    if n > k {
      SourceFailureIsFinal(fs, sources, k, n - 1);
    }
  }

  /** One pass of the outer source loop keeps its accumulator invariant, or
      throws what the whole loop throws. */
  lemma SourceLoopStep(fs: FileSystem, sources: seq<string>, k: nat, errors: seq<ValidationError>,
                       acc: seq<ValidationError>, checked: Result<seq<ValidationError>>)
    requires k < |sources|
    requires SourceChecksUpTo(fs, sources, k).Success?
    requires acc == errors + SourceChecksUpTo(fs, sources, k).value
    requires checked == Appended(acc, SourceCheck(fs, sources, k))
    ensures checked.Failure? ==> SourceChecksUpTo(fs, sources, |sources|) == Failure(checked.error)
    ensures checked.Success? ==>
              SourceChecksUpTo(fs, sources, k + 1).Success? && checked.value == errors + SourceChecksUpTo(fs, sources, k + 1).value
  {
    if checked.Failure? {
      SourceFailureIsFinal(fs, sources, k + 1, |sources|);
    } else {
      AppendAssoc(errors, SourceChecksUpTo(fs, sources, k).value, SourceCheck(fs, sources, k).value);
    }
  }

  class UnitValidator {
    const unit: Unit

    constructor (unit: Unit)
      ensures this.unit == unit
    {
      this.unit := unit;
    }

    /** Runs the five checks in order; an exception from the source checks
        escapes and the errors gathered so far are lost. */
    method Validate(fs: FileSystem) returns (r: Result<seq<ValidationError>>)
      ensures r == Validation(fs, unit)
    {
      var errors: seq<ValidationError> := [];
      errors := CheckUnitName(errors);
      var checked := CheckSources(fs, errors);
      if checked.Failure? {
        return Failure(checked.error);
      }
      errors := CheckExcludes(checked.value);
      errors := CheckDestination(fs, errors);
      errors := CheckLastBackups(errors);
      assert [] + NameErrors(unit.unitName) == NameErrors(unit.unitName);
      return Success(errors);
    }

    method CheckLastBackups(errors: seq<ValidationError>) returns (errors': seq<ValidationError>)
      ensures errors' == errors + KeepErrors(unit.keepLastBackups)
    {
      errors' := errors;
      if unit.keepLastBackups < 1 {
        errors' := errors' + [KeepTooSmall];
      }
    }

    method CheckUnitName(errors: seq<ValidationError>) returns (errors': seq<ValidationError>)
      ensures errors' == errors + NameErrors(unit.unitName)
    {
      errors' := errors;
      if !NameMatches(unit.unitName) {
        errors' := errors' + [InvalidName];
      }
      if Utf16Length(unit.unitName) > MaxNameLength {
        errors' := errors' + [NameTooLong];
      }
    }

    method CheckSources(fs: FileSystem, errors: seq<ValidationError>) returns (r: Result<seq<ValidationError>>)
      ensures r == Appended(errors, SourceErrors(fs, unit.sources))
    {
      var sources := unit.sources;
      if |sources| == 0 {
        return Success(errors + [NoSources]);
      }
      r := CheckEachSource(fs, errors);
    }

    /** The outer loop of `CheckSources`, over a non-empty source list. */
    method CheckEachSource(fs: FileSystem, errors: seq<ValidationError>) returns (r: Result<seq<ValidationError>>)
      ensures r == Appended(errors, SourceChecksUpTo(fs, unit.sources, |unit.sources|))
    {
      var sources := unit.sources;
      var acc := errors;
      for i := 0 to |sources|
        invariant SourceChecksUpTo(fs, sources, i).Success?
        invariant acc == errors + SourceChecksUpTo(fs, sources, i).value
      {
        var checked := CheckSource(fs, i, acc);
        SourceLoopStep(fs, sources, i, errors, acc, checked);
        if checked.Failure? {
          return Failure(checked.error);
        }
        acc := checked.value;
      }
      return Success(acc);
    }

    /** One pass of the outer loop of `CheckSources`. */
    method CheckSource(fs: FileSystem, i: nat, errors: seq<ValidationError>) returns (r: Result<seq<ValidationError>>)
      requires i < |unit.sources|
      ensures r == Appended(errors, SourceCheck(fs, unit.sources, i))
    {
      var source := unit.sources[i];
      var acc := errors;
      if !IsRooted(source) {
        acc := acc + [SourceNotRooted(source)];
      }
      if !Exists(fs, source) {
        acc := acc + [SourceMissing(source)];
      }
      var basePath := Resolve(fs, source);
      if basePath.Failure? {
        return Failure(basePath.error);
      }
      var head := (if IsRooted(source) then [] else [SourceNotRooted(source)])
                  + (if Exists(fs, source) then [] else [SourceMissing(source)]);
      assert acc == errors + head;
      r := CheckNesting(fs, i, basePath.value, acc);
      var nest := NestingFrom(fs, unit.sources, i, basePath.value, |unit.sources|);
      if nest.Success? {
        AppendAssoc(errors, head, nest.value);
      }
    }

    /** The inner loop of `CheckSources`: source `i` against every other. */
    method CheckNesting(fs: FileSystem, i: nat, basePath: string, errors: seq<ValidationError>) returns (r: Result<seq<ValidationError>>)
      requires i < |unit.sources|
      ensures r == Appended(errors, NestingFrom(fs, unit.sources, i, basePath, |unit.sources|))
    {
      var sources := unit.sources;
      var acc := errors;
      for j := 0 to |sources|
        invariant NestingFrom(fs, sources, i, basePath, j).Success?
        invariant acc == errors + NestingFrom(fs, sources, i, basePath, j).value
      {
        if i == j {
          continue;
        }
        var otherPath := Resolve(fs, sources[j]);
        if otherPath.Failure? {
          NestingFailureIsFinal(fs, sources, i, basePath, j + 1, |sources|);
          return Failure(otherPath.error);
        }
        var step: seq<ValidationError> := [];
        if IsSubPath(basePath, otherPath.value) {
          step := [NestedSources(basePath, otherPath.value)];
        }
        AppendAssoc(errors, NestingFrom(fs, sources, i, basePath, j).value, step);
        acc := acc + step;
      }
      return Success(acc);
    }

    method CheckExcludes(errors: seq<ValidationError>) returns (errors': seq<ValidationError>)
      ensures errors' == errors + ExcludeErrors(unit.excludes)
    {
      var excludes := unit.excludes;
      errors' := errors;
      for i := 0 to |excludes|
        invariant errors' == errors + ExcludeErrors(excludes[..i])
      {
        var exclude := excludes[i];
        assert excludes[..i + 1][..i] == excludes[..i];
        var step: seq<ValidationError> := if StartsWith(exclude, ".") then [] else [ExtensionWithoutDot(exclude)];
        AppendAssoc(errors, ExcludeErrors(excludes[..i]), step);
        errors' := errors' + step;
      }
      assert excludes[..|excludes|] == excludes;
    }

    method CheckDestination(fs: FileSystem, errors: seq<ValidationError>) returns (errors': seq<ValidationError>)
      ensures errors' == errors + DestinationErrors(fs, unit.destination)
    {
      errors' := errors;
      if !IsRooted(unit.destination) {
        errors' := errors' + [DestinationNotRooted(unit.destination)];
      }
      if !Exists(fs, unit.destination) {
        errors' := errors' + [DestinationMissing(unit.destination)];
      }
    }
  }

  /** The inner loop throws exactly when another source is not resolvable
      (it trims to "" or holds U+0000), and otherwise reports each other
      source strictly below `base`. */
  lemma NestingFacts(fs: FileSystem, sources: seq<string>, i: int, base: string, k: nat)
    requires k <= |sources|
    ensures NestingFrom(fs, sources, i, base, k).Failure? <==>
              exists j :: 0 <= j < k && j != i && !Resolvable(sources[j])
    ensures NestingFrom(fs, sources, i, base, k).Success? ==>
              var v := NestingFrom(fs, sources, i, base, k).value;
              && (forall e <- v :: e.NestedSources? && e.basePath == base)
              && (forall o :: NestedSources(base, o) in v <==>
                    exists j :: 0 <= j < k && j != i && o == Full(fs, sources[j]) && IsSubPath(base, o))
  {
    NestingFailsIff(fs, sources, i, base, k);
    NestingShape(fs, sources, i, base, k);
    NestingMembers(fs, sources, i, base, k);
  }

  /** One turn of the inner loop, once the turns before it succeeded. */
  lemma NestingStep(fs: FileSystem, sources: seq<string>, i: int, base: string, k: nat)
    requires 0 < k <= |sources|
    requires NestingFrom(fs, sources, i, base, k - 1).Success?
    ensures var prev := NestingFrom(fs, sources, i, base, k - 1).value;
            NestingFrom(fs, sources, i, base, k) ==
              if k - 1 == i then Success(prev)
              else if !Resolvable(sources[k - 1]) then Failure(Resolve(fs, sources[k - 1]).error)
              else
                var other := Full(fs, sources[k - 1]);
                Success(prev + if IsSubPath(base, other) then [NestedSources(base, other)] else [])
  {
  }

  lemma {:induction false} NestingFailsIff(fs: FileSystem, sources: seq<string>, i: int, base: string, k: nat)
    requires k <= |sources|
    ensures NestingFrom(fs, sources, i, base, k).Failure? <==>
              exists j :: 0 <= j < k && j != i && !Resolvable(sources[j])
  {
    if k > 0 {
      NestingFailsIff(fs, sources, i, base, k - 1);
      if NestingFrom(fs, sources, i, base, k - 1).Success? {
        NestingStep(fs, sources, i, base, k);
      }
    }
  }

  lemma {:induction false} NestingShape(fs: FileSystem, sources: seq<string>, i: int, base: string, k: nat)
    requires k <= |sources|
    ensures NestingFrom(fs, sources, i, base, k).Success? ==>
              forall e <- NestingFrom(fs, sources, i, base, k).value :: e.NestedSources? && e.basePath == base
  {
    if k > 0 {
      NestingShape(fs, sources, i, base, k - 1);
      if NestingFrom(fs, sources, i, base, k - 1).Success? {
        NestingStep(fs, sources, i, base, k);
      }
    }
  }

  lemma {:induction false} NestingMembers(fs: FileSystem, sources: seq<string>, i: int, base: string, k: nat)
    requires k <= |sources|
    ensures NestingFrom(fs, sources, i, base, k).Success? ==>
              var v := NestingFrom(fs, sources, i, base, k).value;
              forall o :: NestedSources(base, o) in v <==>
                exists j :: 0 <= j < k && j != i && o == Full(fs, sources[j]) && IsSubPath(base, o)
  {
    if k > 0 && NestingFrom(fs, sources, i, base, k).Success? {
      NestingMembers(fs, sources, i, base, k - 1);
      var prev := NestingFrom(fs, sources, i, base, k - 1);
      assert prev.Success?;
      NestingStep(fs, sources, i, base, k);
      var v := NestingFrom(fs, sources, i, base, k).value;
      if k - 1 == i {
        assert v == prev.value;
      } else {
        var other := Full(fs, sources[k - 1]);
        assert v == prev.value + if IsSubPath(base, other) then [NestedSources(base, other)] else [];
        forall o | NestedSources(base, o) in v
          ensures exists j :: 0 <= j < k && j != i && o == Full(fs, sources[j]) && IsSubPath(base, o)
        {
          if NestedSources(base, o) !in prev.value {
            assert o == other && IsSubPath(base, o);
          }
        }
        forall o, j | 0 <= j < k && j != i && o == Full(fs, sources[j]) && IsSubPath(base, o)
          ensures NestedSources(base, o) in v
        {
          if j < k - 1 {
            assert NestedSources(base, o) in prev.value;
          }
        }
      }
    }
  }

  /** What one pass of the outer source loop reports. */
  lemma SourceCheckFacts(fs: FileSystem, sources: seq<string>, i: nat)
    requires i < |sources|
    ensures SourceCheck(fs, sources, i).Failure? <==> !AllResolve(sources)
    ensures SourceCheck(fs, sources, i).Success? ==>
              var v := SourceCheck(fs, sources, i).value;
              && (forall e <- v :: e.SourceNotRooted? || e.SourceMissing? || e.NestedSources?)
              && (forall s :: SourceNotRooted(s) in v <==> s == sources[i] && !IsRooted(s))
              && (forall s :: SourceMissing(s) in v <==> s == sources[i] && !Exists(fs, s))
              && (forall b, o :: NestedSources(b, o) in v <==>
                    b == Full(fs, sources[i]) &&
                    exists j :: 0 <= j < |sources| && j != i && o == Full(fs, sources[j]) && IsSubPath(b, o))
  {
    var s := sources[i];
    if !Resolvable(s) {
      assert SourceCheck(fs, sources, i).Failure?;
    } else {
      var base := Full(fs, s);
      var head := (if IsRooted(s) then [] else [SourceNotRooted(s)]) + (if Exists(fs, s) then [] else [SourceMissing(s)]);
      assert SourceCheck(fs, sources, i) == Appended(head, NestingFrom(fs, sources, i, base, |sources|));
      NestingFacts(fs, sources, i, base, |sources|);
      if !AllResolve(sources) {
        var m :| 0 <= m < |sources| && !Resolvable(sources[m]);
        assert m != i;
      }
    }
  }

  /** The whole outer loop: it throws exactly when some source is not
      resolvable (it trims to "" or holds U+0000), and otherwise reports
      every unrooted source, every missing source and every ordered pair of
      distinct positions whose second source lies strictly below the first. */
  lemma {:induction false} SourceChecksFacts(fs: FileSystem, sources: seq<string>, k: nat)
    requires k <= |sources|
    ensures 0 < k ==> (SourceChecksUpTo(fs, sources, k).Failure? <==> !AllResolve(sources))
    ensures SourceChecksUpTo(fs, sources, k).Success? ==>
              var v := SourceChecksUpTo(fs, sources, k).value;
              && (forall e <- v :: e.SourceNotRooted? || e.SourceMissing? || e.NestedSources?)
              && (forall s :: SourceNotRooted(s) in v <==> exists i :: 0 <= i < k && s == sources[i] && !IsRooted(s))
              && (forall s :: SourceMissing(s) in v <==> exists i :: 0 <= i < k && s == sources[i] && !Exists(fs, s))
              && (forall b, o :: NestedSources(b, o) in v <==>
                    exists i, j :: 0 <= i < k && 0 <= j < |sources| && i != j &&
                      b == Full(fs, sources[i]) && o == Full(fs, sources[j]) && IsSubPath(b, o))
  {
    if k > 0 {
      SourceChecksFacts(fs, sources, k - 1);
      SourceCheckFacts(fs, sources, k - 1);
      var prev := SourceChecksUpTo(fs, sources, k - 1);
      if prev.Success? && AllResolve(sources) {
        var here := SourceCheck(fs, sources, k - 1).value;
        var v := SourceChecksUpTo(fs, sources, k).value;
        assert v == prev.value + here;
        forall s | SourceNotRooted(s) in v
          ensures exists i :: 0 <= i < k && s == sources[i] && !IsRooted(s)
        {
          if SourceNotRooted(s) !in prev.value {
            assert SourceNotRooted(s) in here;
          }
        }
        forall s | SourceMissing(s) in v
          ensures exists i :: 0 <= i < k && s == sources[i] && !Exists(fs, s)
        {
          if SourceMissing(s) !in prev.value {
            assert SourceMissing(s) in here;
          }
        }
        forall b, o | NestedSources(b, o) in v
          ensures exists i, j :: 0 <= i < k && 0 <= j < |sources| && i != j &&
                    b == Full(fs, sources[i]) && o == Full(fs, sources[j]) && IsSubPath(b, o)
        {
          if NestedSources(b, o) !in prev.value {
            assert NestedSources(b, o) in here;
          }
        }
        forall s, i | 0 <= i < k && s == sources[i] && !IsRooted(s)
          ensures SourceNotRooted(s) in v
        {
          if i < k - 1 {
            assert SourceNotRooted(s) in prev.value;
          }
        }
        forall s, i | 0 <= i < k && s == sources[i] && !Exists(fs, s)
          ensures SourceMissing(s) in v
        {
          if i < k - 1 {
            assert SourceMissing(s) in prev.value;
          }
        }
        forall b, o, i, j | 0 <= i < k && 0 <= j < |sources| && i != j &&
                            b == Full(fs, sources[i]) && o == Full(fs, sources[j]) && IsSubPath(b, o)
          ensures NestedSources(b, o) in v
        {
          if i < k - 1 {
            assert NestedSources(b, o) in prev.value;
          }
        }
      }
    }
  }

  lemma {:induction false} ExcludeFacts(excludes: seq<string>)
    ensures forall e <- ExcludeErrors(excludes) :: e.ExtensionWithoutDot?
    ensures forall x :: ExtensionWithoutDot(x) in ExcludeErrors(excludes) <==> x in excludes && !StartsWith(x, ".")
  {
    if excludes != [] {
      var init := excludes[..|excludes| - 1];
      ExcludeFacts(init);
      assert excludes == init + [excludes[|excludes| - 1]];
    }
  }

  /** `Validate` throws exactly when the unit has a source that is empty,
      made only of separators (such as "/"), or holds U+0000. */
  lemma ValidationThrowsIff(fs: FileSystem, unit: Unit)
    ensures Validation(fs, unit).Failure? <==> |unit.sources| > 0 && !AllResolve(unit.sources)
    ensures Validation(fs, unit).Failure? <==>
              exists m :: 0 <= m < |unit.sources| && (TrimEnd(unit.sources[m], Separators) == [] || '\0' in unit.sources[m])
  {
    SourceChecksFacts(fs, unit.sources, |unit.sources|);
    forall m | 0 <= m < |unit.sources| {
      ResolvableIff(unit.sources[m]);
    }
  }

  /** A source holding U+0000 makes `Validate` throw, whatever else the unit
      holds, because `GetFullPath` refuses it. */
  lemma NullCharacterThrows(fs: FileSystem, unit: Unit)
    requires unit.sources == ["/a\0b"]
    ensures Validation(fs, unit).Failure? && Validation(fs, unit).error == Argument("Null character in path.")
  {
    var s := unit.sources[0];
    assert TrimEnd(s, Separators) == s;
    assert s[2] == '\0';
    assert Resolve(fs, s) == Failure(Argument("Null character in path."));
    assert SourceCheck(fs, unit.sources, 0) == Failure(Argument("Null character in path."));
    assert SourceChecksUpTo(fs, unit.sources, 1) == Failure(Argument("Null character in path."));
  }

  /** The source checks report nothing exactly when every source is rooted
      and exists and none lies below another. */
  lemma SourcesCleanIff(fs: FileSystem, sources: seq<string>)
    requires |sources| > 0 && AllResolve(sources)
    ensures SourceErrors(fs, sources).Success?
    ensures SourceErrors(fs, sources).value == [] <==>
              && (forall i :: 0 <= i < |sources| ==> IsRooted(sources[i]) && Exists(fs, sources[i]))
              && (forall i, j :: 0 <= i < |sources| && 0 <= j < |sources| && i != j ==>
                    !IsSubPath(Full(fs, sources[i]), Full(fs, sources[j])))
  {
    SourceChecksFacts(fs, sources, |sources|);
    var se := SourceErrors(fs, sources).value;
    if se == [] {
      forall i | 0 <= i < |sources|
        ensures IsRooted(sources[i]) && Exists(fs, sources[i])
      {
        assert SourceNotRooted(sources[i]) !in se;
        assert SourceMissing(sources[i]) !in se;
      }
      forall i, j | 0 <= i < |sources| && 0 <= j < |sources| && i != j
        ensures !IsSubPath(Full(fs, sources[i]), Full(fs, sources[j]))
      {
        assert NestedSources(Full(fs, sources[i]), Full(fs, sources[j])) !in se;
      }
    } else {
      assert se[0] in se;
    }
  }

  /** The exclude check reports nothing exactly when every extension starts
      with '.'. */
  lemma ExcludesCleanIff(excludes: seq<string>)
    ensures ExcludeErrors(excludes) == [] <==> forall e <- excludes :: StartsWith(e, ".")
  {
    ExcludeFacts(excludes);
    var ex := ExcludeErrors(excludes);
    if ex == [] {
      forall x <- excludes
        ensures StartsWith(x, ".")
      {
        assert ExtensionWithoutDot(x) !in ex;
      }
    } else {
      assert ex[0] in ex;
    }
  }

  /** Otherwise it returns no error exactly when the unit meets every rule:
      a matching name of at most 30 characters, rooted existing sources none
      of which lies below another, dot-led extensions, a rooted existing
      destination and a keep count of at least one. */
  lemma ValidationAcceptsIff(fs: FileSystem, unit: Unit)
    requires AllResolve(unit.sources)
    ensures Validation(fs, unit).Success?
    ensures Validation(fs, unit).value == [] <==> Acceptable(fs, unit)
  {
    ExcludesCleanIff(unit.excludes);
    if |unit.sources| > 0 {
      SourcesCleanIff(fs, unit.sources);
    }
  }

  /** A name of exactly 30 allowed characters passes both name checks; one
      more character is reported as too long. */
  lemma NameLengthBoundary(name: string)
    requires |name| == MaxNameLength && IsAsciiLetter(name[0])
    requires forall i :: 0 <= i < |name| ==> IsNameChar(name[i])
    ensures NameErrors(name) == []
    ensures NameErrors(name + "a") == [NameTooLong]
  {
    var longer := name + "a";
    assert longer[|longer| - 1] == 'a';
    assert forall i :: 1 <= i < |longer| ==> IsNameChar(longer[i]);
    BmpUtf16Length(name);
    BmpUtf16Length(longer);
  }

  /** The length limit counts UTF-16 code units: sixteen characters from
      outside the Basic Multilingual Plane already exceed it. */
  lemma AstralNameTooLong(name: string)
    requires |name| == 16 && forall i :: 0 <= i < |name| ==> name[i] as int >= 0x1_0000
    ensures NameTooLong in NameErrors(name)
  {
    AstralUtf16Length(name);
  }

  /** The pattern's `$` lets a single trailing line feed through, but not
      two. */
  lemma TrailingLineFeedAccepted(name: string)
    requires NameMatches(name) && name[|name| - 1] != '\n'
    ensures NameMatches(name + "\n")
    ensures !NameMatches(name + "\n\n")
  {
    assert (name + "\n")[..|name|] == name;
    var twice := name + "\n\n";
    assert twice[|twice| - 1] == '\n';
    var body := BeforeFinalLineFeed(twice);
    assert 1 <= |name| < |body| && body[|name|] == '\n' && !IsNameChar('\n');
  }

  /** Examples of the nesting rule: a source below another is reported once,
      for the one ordered pair; siblings with a common name prefix and a
      duplicated source are not reported. */
  lemma NestingExamples(fs: FileSystem)
    ensures NestingFrom(fs, ["/data", "/data/sub"], 0, "/data", 2) == Success([NestedSources("/data", "/data/sub")])
    ensures NestingFrom(fs, ["/data", "/data/sub"], 1, "/data/sub", 2) == Success([])
    ensures NestingFrom(fs, ["/data", "/database"], 0, "/data", 2) == Success([])
    ensures NestingFrom(fs, ["/data", "/data/"], 0, "/data", 2) == Success([])
  {
    var none: seq<ValidationError> := [];
    assert TrimEnd("/data", Separators) == "/data";
    assert TrimEnd("/data/sub", Separators) == "/data/sub";
    assert TrimEnd("/database", Separators) == "/database";
    assert TrimEnd("/data/", Separators) == "/data";
    assert Resolve(fs, "/data") == Success("/data");
    assert Resolve(fs, "/data/sub") == Success("/data/sub");
    assert Resolve(fs, "/database") == Success("/database");
    assert Resolve(fs, "/data/") == Success("/data");
    assert IsSubPath("/data", "/data/sub");
    assert !IsSubPath("/data/sub", "/data");
    assert "/database"[5] == 'b';
    assert !IsSubPath("/data", "/database");
    assert !IsSubPath("/data", "/data");

    assert none + none == none == [];
    assert none + [NestedSources("/data", "/data/sub")] == [NestedSources("/data", "/data/sub")];
    var nested := ["/data", "/data/sub"];
    assert NestingFrom(fs, nested, 0, "/data", 1) == Success(none);
    assert NestingFrom(fs, nested, 0, "/data", 2) == Success(none + [NestedSources("/data", "/data/sub")]);
    assert NestingFrom(fs, nested, 1, "/data/sub", 0) == Success(none);
    assert NestingFrom(fs, nested, 1, "/data/sub", 1) == Success(none + none);
    assert NestingFrom(fs, nested, 1, "/data/sub", 2) == Success(none + none);

    var siblings := ["/data", "/database"];
    assert NestingFrom(fs, siblings, 0, "/data", 1) == Success(none);
    assert NestingFrom(fs, siblings, 0, "/data", 2) == Success(none + none);

    var duplicated := ["/data", "/data/"];
    assert NestingFrom(fs, duplicated, 0, "/data", 1) == Success(none);
    assert NestingFrom(fs, duplicated, 0, "/data", 2) == Success(none + none);
  }
}
