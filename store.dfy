/**
 * The shelve database behind the bot: one record per key, read in full and written
 * back in full, with every setter re-reading what it wrote.
 */
module Store {
  import opened Wrappers
  import opened Sequences

  const InstructorsKey := "instructors"
  const MinimumAttendanceRateKey := "minimum_attendance_rate"
  const SnapshotIntervalKey := "snapshot_interval"
  const SnapshotsKey := "snapshots"

  /** Reading a key that is not in the shelf raises `KeyError` in the program. */
  datatype StoreError = MissingKey(key: string)

  /** The whole shelf as a value; `None` is a key that is absent. */
  datatype Shelf = Shelf(
    instructors: Option<seq<int>>,
    minimumAttendanceRate: Option<real>,
    snapshotInterval: Option<int>,
    autoClearOnNewSession: Option<bool>,
    autoClearAfterReport: Option<bool>,
    responsesEphemeral: Option<bool>,
    snapshots: Option<seq<seq<int>>>)

  /** Every key that the start-up block writes is present. */
  predicate Initialised(s: Shelf) {
    && s.instructors.Some?
    && s.minimumAttendanceRate.Some?
    && s.snapshotInterval.Some?
    && s.autoClearOnNewSession.Some?
    && s.autoClearAfterReport.Some?
    && s.responsesEphemeral.Some?
    && s.snapshots.Some?
  }

  class Database {
    var instructors: Option<seq<int>>
    var minimumAttendanceRate: Option<real>
    var snapshotInterval: Option<int>
    var autoClearOnNewSession: Option<bool>
    var autoClearAfterReport: Option<bool>
    var responsesEphemeral: Option<bool>
    var snapshots: Option<seq<seq<int>>>

    function Contents(): Shelf
      reads this
    {
      Shelf(instructors, minimumAttendanceRate, snapshotInterval, autoClearOnNewSession,
            autoClearAfterReport, responsesEphemeral, snapshots)
    }

    /** The instructor registry as `get_instructors` sees it: empty when the key is absent. */
    function Registry(): seq<int>
      reads this`instructors
    {
      instructors.GetOr([])
    }

    /** Opens a shelf file holding `initial`. */
    constructor (initial: Shelf)
      ensures Contents() == initial
    {
      instructors := initial.instructors;
      minimumAttendanceRate := initial.minimumAttendanceRate;
      snapshotInterval := initial.snapshotInterval;
      autoClearOnNewSession := initial.autoClearOnNewSession;
      autoClearAfterReport := initial.autoClearAfterReport;
      responsesEphemeral := initial.responsesEphemeral;
      snapshots := initial.snapshots;
    }

    /** Stores every key of `s`, replacing what the shelf held. */
    method Write(s: Shelf)
      modifies this
      ensures Contents() == s
    {
      instructors, minimumAttendanceRate, snapshotInterval := s.instructors, s.minimumAttendanceRate, s.snapshotInterval;
      autoClearOnNewSession, autoClearAfterReport, responsesEphemeral := s.autoClearOnNewSession, s.autoClearAfterReport, s.responsesEphemeral;
      snapshots := s.snapshots;
    }

    method GetInstructors() returns (r: seq<int>)
      ensures instructors.None? ==> r == []
      ensures instructors.Some? ==> r == instructors.value
    {
      r := if instructors.Some? then instructors.value else [];
    }

    /**
     * Appends `userId` unless it is already registered, then reports whether a fresh
     * read finds it. Only the instructors key can change.
     */
    method AddInstructor(userId: int) returns (r: Result<bool, StoreError>)
      modifies this`instructors
      ensures userId in old(Registry()) ==> r == Success(false) && instructors == old(instructors)
      ensures userId !in old(Registry()) && old(instructors).None? ==>
                r == Failure(MissingKey(InstructorsKey)) && instructors == old(instructors)
      ensures userId !in old(Registry()) && old(instructors).Some? ==>
                r == Success(true) && instructors == Some(old(Registry()) + [userId])
      ensures NoDuplicates(old(Registry())) ==> NoDuplicates(Registry())
    {
      var current := GetInstructors();
      if userId in current {
        return Success(false);
      }
      if instructors.None? {
        return Failure(MissingKey(InstructorsKey));
      }
      var temp := instructors.value;
      temp := temp + [userId];
      instructors := Some(temp);
      var reread := GetInstructors();
      r := Success(userId in reread);
    }

    /**
     * Removes the first occurrence of `userId` if it is registered, then reports whether a
     * fresh read no longer finds it. Only the instructors key can change.
     */
    method RemoveInstructor(userId: int) returns (r: bool)
      modifies this`instructors
      ensures userId !in old(Registry()) ==> !r && instructors == old(instructors)
      ensures userId in old(Registry()) ==>
                instructors == Some(RemoveFirst(old(Registry()), userId))
                && r == (userId !in RemoveFirst(old(Registry()), userId))
      ensures userId in old(Registry()) && NoDuplicates(old(Registry())) ==>
                r && NoDuplicates(Registry())
    {
      var current := GetInstructors();
      if userId !in current {
        return false;
      }
      var temp := instructors.value;
      temp := RemoveFirst(temp, userId);
      instructors := Some(temp);
      var reread := GetInstructors();
      r := userId !in reread;
      if NoDuplicates(old(Registry())) {
        RemoveFirstFromDistinct(old(Registry()), userId);
      }
    }

    /** Appends one snapshot (the ids seen in the channel) at the end of the stored list. */
    method TakeMemberSnapshot(memberIds: seq<int>) returns (r: Outcome<StoreError>)
      modifies this`snapshots
      ensures old(snapshots).None? ==> r == Fail(MissingKey(SnapshotsKey)) && snapshots == old(snapshots)
      ensures old(snapshots).Some? ==> r == Pass && snapshots == Some(old(snapshots).value + [memberIds])
    {
      if snapshots.None? {
        return Fail(MissingKey(SnapshotsKey));
      }
      var temp := snapshots.value;
      temp := temp + [memberIds];
      snapshots := Some(temp);
      r := Pass;
    }

    method GetSnapshots() returns (r: Result<seq<seq<int>>, StoreError>)
      ensures snapshots.None? ==> r == Failure(MissingKey(SnapshotsKey))
      ensures snapshots.Some? ==> r == Success(snapshots.value)
    {
      if snapshots.None? {
        return Failure(MissingKey(SnapshotsKey));
      }
      var stored := snapshots.value;
      // `stored or []`: an empty stored list is replaced by an empty list
      r := Success(if stored == [] then [] else stored);
    }

    /** Writes an empty snapshot list and confirms it by reading it back. */
    method ClearSnapshots() returns (ok: bool)
      modifies this`snapshots
      ensures snapshots == Some([]) && ok
    {
      snapshots := Some([]);
      var reread := GetSnapshots();
      ok := reread == Success([]);
    }

    method GetAttendanceRate() returns (r: Result<real, StoreError>)
      ensures minimumAttendanceRate.None? ==> r == Failure(MissingKey(MinimumAttendanceRateKey))
      ensures minimumAttendanceRate.Some? ==> r == Success(minimumAttendanceRate.value)
    {
      if minimumAttendanceRate.None? {
        return Failure(MissingKey(MinimumAttendanceRateKey));
      }
      r := Success(minimumAttendanceRate.value);
    }

    /** Writes the rate, then confirms that a fresh read returns exactly that rate. */
    method SetAttendanceRate(rate: real) returns (ok: bool)
      modifies this`minimumAttendanceRate
      ensures minimumAttendanceRate == Some(rate) && ok
    {
      minimumAttendanceRate := Some(rate);
      var reread := GetAttendanceRate();
      ok := reread == Success(rate);
    }

    method GetSnapshotInterval() returns (r: Result<int, StoreError>)
      ensures snapshotInterval.None? ==> r == Failure(MissingKey(SnapshotIntervalKey))
      ensures snapshotInterval.Some? ==> r == Success(snapshotInterval.value)
    {
      if snapshotInterval.None? {
        return Failure(MissingKey(SnapshotIntervalKey));
      }
      r := Success(snapshotInterval.value);
    }

    /** Writes the interval, then confirms that a fresh read returns exactly that interval. */
    method SetSnapshotInterval(interval: int) returns (ok: bool)
      modifies this`snapshotInterval
      ensures snapshotInterval == Some(interval) && ok
    {
      snapshotInterval := Some(interval);
      var reread := GetSnapshotInterval();
      ok := reread == Success(interval);
    }
  }

  /**
   * Registering an id that is not yet an instructor and then removing it gives back the
   * registry as it was.
   */
  method AddThenRemoveInstructor(db: Database, userId: int) returns (added: Result<bool, StoreError>, removed: bool)
    requires db.instructors.Some? && userId !in db.Registry()
    modifies db`instructors
    ensures added == Success(true) && removed
    ensures db.instructors == old(db.instructors)
  {
    added := db.AddInstructor(userId);
    removed := db.RemoveInstructor(userId);
    RemoveFirstAfterAppend(old(db.Registry()), userId);
  }
}
