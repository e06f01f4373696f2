/** The batch loop: every unit of the configuration, in order, gets a fresh
    unit processor that backs it up or restores it; an exception escaping
    one unit is logged and the next unit is processed. */
module ConfigProcessor {
  import opened Errors
  import opened FileSystems
  import opened Units
  import opened TarSearcher
  import opened UnitProcessor

  /** What the batch does with each unit: a backup, with the clock reading
      taken for the `i`th unit and the archives whose deletion throws, or a
      restore with the given `force`. */
  datatype Operation =
    | BackUp(clock: seq<DateTime>, undeletable: set<string>)
    | Load(force: bool)

  /** The clock gives a valid reading for each of the `n` units. */
  predicate Ready(op: Operation, n: nat) {
    op.BackUp? ==> |op.clock| >= n && forall i :: 0 <= i < n ==> ValidDateTime(op.clock[i])
  }

  /** One unit processed: the filesystem after it, its outcome, and the unit
      as the processor leaves it (`followSymlinks` switched off once the
      guards pass). */
  datatype Processed = Processed(fs: FileSystem, outcome: Outcome, unit: Unit)

  /** `BackupUnit` or `LoadUnit` on one unit, as their contracts state it. */
  function ProcessOne(fs: FileSystem, unit: Unit, op: Operation, i: nat): (r: Processed)
    requires Ready(op, i + 1)
    ensures r.unit == unit || r.unit == unit.(followSymlinks := false)
    ensures !unit.enabled ==> r == Processed(fs, Pass, unit)
  {
    match Guards(fs, unit)
    case Failure(e) => Processed(fs, Fail(e), unit)
    case Success(proceed) =>
      if !proceed then Processed(fs, Pass, unit)
      else
        var u := unit.(followSymlinks := false);
        var after := if op.BackUp? then Backup(fs, u, op.clock[i], op.undeletable) else Restore(fs, u, op.force);
        Processed(after.0, after.1, u)
  }

  /** The batch after its first `k` units: the filesystem, the units as left
      behind, and one outcome per unit, in order. */
  datatype Batch = Batch(fs: FileSystem, units: seq<Unit>, outcomes: seq<Outcome>)

  function BatchUpTo(fs: FileSystem, units: seq<Unit>, op: Operation, k: nat): (b: Batch)
    requires k <= |units| && Ready(op, k)
    ensures |b.units| == k && |b.outcomes| == k
  {
    if k == 0 then Batch(fs, [], [])
    else
      var prev := BatchUpTo(fs, units, op, k - 1);
      var p := ProcessOne(prev.fs, units[k - 1], op, k - 1);
      Batch(p.fs, prev.units + [p.unit], prev.outcomes + [p.outcome])
  }

  /** The body of the batch loop for one unit: a fresh processor runs the
      operation; the unit it leaves behind is the shared unit. */
  method ProcessUnit(fs: FileSystem, unit: Unit, op: Operation, i: nat) returns (p: Processed)
    requires Ready(op, i + 1)
    ensures p == ProcessOne(fs, unit, op, i)
  {
    var processor := new UnitProcessor(unit);
    var fs', r;
    if op.BackUp? {
      fs', r := processor.BackupUnit(fs, op.clock[i], op.undeletable);
    } else {
      fs', r := processor.LoadUnit(fs, op.force);
    }
    return Processed(fs', r, processor.unit);
  }

  class ConfigProcessor {
    /** The configuration's units; the processors share them, so the
        `followSymlinks` a processor switches off is seen here. */
    const units: array<Unit>

    constructor (units: array<Unit>)
      ensures this.units == units
    {
      this.units := units;
    }

    method BackupConfig(fs: FileSystem, clock: seq<DateTime>, undeletable: set<string>) returns (fs': FileSystem, outcomes: seq<Outcome>)
      requires Ready(BackUp(clock, undeletable), units.Length)
      modifies units
      ensures var b := BatchUpTo(fs, old(units[..]), BackUp(clock, undeletable), units.Length);
              fs' == b.fs && units[..] == b.units && outcomes == b.outcomes
    {
      // "Writing Backup..."
      fs', outcomes := ProcessConfig(fs, BackUp(clock, undeletable));
    }

    method LoadConfig(fs: FileSystem, force: bool) returns (fs': FileSystem, outcomes: seq<Outcome>)
      modifies units
      ensures var b := BatchUpTo(fs, old(units[..]), Load(force), units.Length);
              fs' == b.fs && units[..] == b.units && outcomes == b.outcomes
    {
      // "Loading Backup..."
      fs', outcomes := ProcessConfig(fs, Load(force));
    }

    /** The loop over the units in order. Each unit gets a fresh processor;
        its outcome, a failure included, is logged and the loop goes on. */
    method ProcessConfig(fs: FileSystem, op: Operation) returns (fs': FileSystem, outcomes: seq<Outcome>)
      requires Ready(op, units.Length)
      modifies units
      ensures var b := BatchUpTo(fs, old(units[..]), op, units.Length);
              fs' == b.fs && units[..] == b.units && outcomes == b.outcomes
    {
      // "Processing config! Found ... Units."
      ghost var declared := units[..];
      fs', outcomes := fs, [];
      for i := 0 to units.Length
        invariant units[i..] == declared[i..]
        invariant var b := BatchUpTo(fs, declared, op, i);
                  fs' == b.fs && units[..i] == b.units && outcomes == b.outcomes
      {
        var unit := units[i];
        assert unit == declared[i];
        // "Processing Unit ..."
        var p := ProcessUnit(fs', unit, op, i);
        // A failure is logged ("Failed processing Unit ... Skipping!").
        fs' := p.fs;
        units[i] := p.unit;
        outcomes := outcomes + [p.outcome];
        assert units[..i + 1] == units[..i] + [units[i]];
      }
      assert units[..] == units[..units.Length];
    }
  }

  // Properties of the batch.

  /** Every unit is processed exactly once, in order, starting from the
      filesystem its predecessors left: a failure of one unit does not keep
      the later ones from running. */
  lemma {:induction false} EachUnitProcessedInTurn(fs: FileSystem, units: seq<Unit>, op: Operation, n: nat, i: nat)
    requires i < n <= |units| && Ready(op, n)
    ensures var p := ProcessOne(BatchUpTo(fs, units, op, i).fs, units[i], op, i);
            && BatchUpTo(fs, units, op, n).outcomes[i] == p.outcome
            && BatchUpTo(fs, units, op, n).units[i] == p.unit
    decreases n
  {
    if n - 1 > i {
      EachUnitProcessedInTurn(fs, units, op, n - 1, i);
    }
  }

  /** The batch changes no field of any unit but `followSymlinks`, and that
      one only from true to false. */
  lemma {:induction false} OnlyFollowSymlinksChanges(fs: FileSystem, units: seq<Unit>, op: Operation, n: nat)
    requires n <= |units| && Ready(op, n)
    ensures forall i :: 0 <= i < n ==>
              var u := BatchUpTo(fs, units, op, n).units[i];
              && u == units[i].(followSymlinks := u.followSymlinks)
              && (u.followSymlinks ==> units[i].followSymlinks)
  {
    if n > 0 {
      OnlyFollowSymlinksChanges(fs, units, op, n - 1);
      var prev := BatchUpTo(fs, units, op, n - 1);
      var p := ProcessOne(prev.fs, units[n - 1], op, n - 1);
      assert BatchUpTo(fs, units, op, n).units == prev.units + [p.unit];
    }
  }

  /** A disabled unit is skipped: it passes, and neither it nor the
      filesystem changes. */
  lemma DisabledUnitSkipped(fs: FileSystem, units: seq<Unit>, op: Operation, n: nat, i: nat)
    requires i < n <= |units| && Ready(op, n) && !units[i].enabled
    ensures BatchUpTo(fs, units, op, n).outcomes[i] == Pass
    ensures BatchUpTo(fs, units, op, n).units[i] == units[i]
    ensures BatchUpTo(fs, units, op, i + 1).fs == BatchUpTo(fs, units, op, i).fs
  {
    EachUnitProcessedInTurn(fs, units, op, n, i);
  }
}
