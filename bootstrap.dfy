/** Defaults the bot starts from. */
module Constants {
  const DefaultMinimumAttendanceRate: real := 0.5
  const DefaultSnapshotIntervalSeconds: int := 3
}

/** The persistence set-up that runs once when the bot process starts. */
module Bootstrap {
  import opened Wrappers
  import opened Store
  import opened Constants

  /** Defaults of the three flag keys, which are defined outside the modelled constants. */
  datatype FlagDefaults = FlagDefaults(
    autoClearOnNewSession: bool,
    autoClearAfterReport: bool,
    responsesEphemeral: bool)

  /** The shelf after start-up: missing keys get their defaults, snapshots are always emptied. */
  function AfterStartup(s: Shelf, flags: FlagDefaults): (r: Shelf)
    ensures Initialised(r)
    ensures r.snapshots == Some([])
    ensures s.instructors.Some? ==> r.instructors == s.instructors
    ensures s.minimumAttendanceRate.Some? ==> r.minimumAttendanceRate == s.minimumAttendanceRate
    ensures s.snapshotInterval.Some? ==> r.snapshotInterval == s.snapshotInterval
    ensures s.autoClearOnNewSession.Some? ==> r.autoClearOnNewSession == s.autoClearOnNewSession
    ensures s.autoClearAfterReport.Some? ==> r.autoClearAfterReport == s.autoClearAfterReport
    ensures s.responsesEphemeral.Some? ==> r.responsesEphemeral == s.responsesEphemeral
    ensures s.instructors.None? ==> r.instructors == Some([])
    ensures s.minimumAttendanceRate.None? ==> r.minimumAttendanceRate == Some(DefaultMinimumAttendanceRate)
    ensures s.snapshotInterval.None? ==> r.snapshotInterval == Some(DefaultSnapshotIntervalSeconds)
    ensures s.autoClearOnNewSession.None? ==> r.autoClearOnNewSession == Some(flags.autoClearOnNewSession)
    ensures s.autoClearAfterReport.None? ==> r.autoClearAfterReport == Some(flags.autoClearAfterReport)
    ensures s.responsesEphemeral.None? ==> r.responsesEphemeral == Some(flags.responsesEphemeral)
  {
    Shelf(
      Some(s.instructors.GetOr([])),
      Some(s.minimumAttendanceRate.GetOr(DefaultMinimumAttendanceRate)),
      Some(s.snapshotInterval.GetOr(DefaultSnapshotIntervalSeconds)),
      Some(s.autoClearOnNewSession.GetOr(flags.autoClearOnNewSession)),
      Some(s.autoClearAfterReport.GetOr(flags.autoClearAfterReport)),
      Some(s.responsesEphemeral.GetOr(flags.responsesEphemeral)),
      Some([]))
  }

  /**
   * The start-up block: with the shelf open as `handle`, one conditional write per settings
   * key, then the snapshot reset; closing the handle stores the result.
   */
  method InitialisePersistence(db: Database, flags: FlagDefaults)
    modifies db
    ensures db.Contents() == AfterStartup(old(db.Contents()), flags)
  {
    var handle := db.Contents();
    ghost var expected := AfterStartup(handle, flags);
    if handle.instructors.None? {
      handle := handle.(instructors := Some([]));
    }
    if handle.minimumAttendanceRate.None? {
      handle := handle.(minimumAttendanceRate := Some(DefaultMinimumAttendanceRate));
    }
    if handle.snapshotInterval.None? {
      handle := handle.(snapshotInterval := Some(DefaultSnapshotIntervalSeconds));
    }
    if handle.autoClearOnNewSession.None? {
      handle := handle.(autoClearOnNewSession := Some(flags.autoClearOnNewSession));
    }
    if handle.autoClearAfterReport.None? {
      handle := handle.(autoClearAfterReport := Some(flags.autoClearAfterReport));
    }
    if handle.responsesEphemeral.None? {
      handle := handle.(responsesEphemeral := Some(flags.responsesEphemeral));
    }
    handle := handle.(snapshots := Some([]));
    assert handle == expected;
    db.Write(handle);
  }

  /** On a first run, every key holds its default and there are no instructors or snapshots. */
  lemma FirstRunDefaults(flags: FlagDefaults)
    ensures var r := AfterStartup(Shelf(None, None, None, None, None, None, None), flags);
            && r.instructors == Some([])
            && r.minimumAttendanceRate == Some(0.5)
            && r.snapshotInterval == Some(3)
            && r.autoClearOnNewSession == Some(flags.autoClearOnNewSession)
            && r.autoClearAfterReport == Some(flags.autoClearAfterReport)
            && r.responsesEphemeral == Some(flags.responsesEphemeral)
            && r.snapshots == Some([])
  {
  }

  /** Starting the bot twice in a row leaves the same shelf as starting it once. */
  lemma StartupIdempotent(s: Shelf, flags: FlagDefaults)
    ensures AfterStartup(AfterStartup(s, flags), flags) == AfterStartup(s, flags)
  {
  }

  /** A restart of an initialised shelf only wipes the snapshots: registry and settings persist. */
  lemma RestartWipesOnlySnapshots(s: Shelf, flags: FlagDefaults)
    requires Initialised(s)
    ensures AfterStartup(s, flags) == s.(snapshots := Some([]))
  {
  }
}
