/** A unit: one named backup task as read from the configuration. */
module Units {

  datatype Unit = Unit(
    unitName: string,
    sources: seq<string>,
    destination: string,
    excludes: seq<string>,
    useAbsolutePaths: bool,
    followSymlinks: bool,
    ignoreGitRepositories: bool,
    keepLastBackups: int,   // a 32-bit `int` in the configuration; never incremented here
    enabled: bool)

  /** A unit built from its three required fields, every other field taking
      its declared default. */
  function NewUnit(unitName: string, sources: seq<string>, destination: string): (u: Unit)
    ensures u.unitName == unitName && u.sources == sources && u.destination == destination
    ensures u.excludes == []
    ensures u.useAbsolutePaths && !u.followSymlinks && u.ignoreGitRepositories
    ensures u.keepLastBackups == 3
    ensures u.enabled
  {
    Unit(unitName, sources, destination, [], true, false, true, 3, true)
  }
}
