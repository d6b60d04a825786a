/**
 * The attendance cog: a session is a sampling loop bound to one voice channel. Starting,
 * stopping and unloading move the loop between its states; every tick appends the ids in
 * the channel as one snapshot; a report aggregates the snapshots once no session runs.
 */
module Session {
  import opened Wrappers
  import opened Store
  import opened Aggregation
  import opened Embeds

  /**
   * The sampling loop: not started, running, or cancelled but not yet finished. The loop
   * library counts a loop whose cancellation is pending as running.
   */
  datatype TaskState = Idle | Running | Cancelling

  datatype StartReply =
    | AlreadyRunning(channel: int)
    | NoInstructorInChannel
    | StartFailed(error: StoreError)
    | Started(intervalSeconds: int)

  datatype StopReply = AlreadyCancelling | NothingToStop | Stopped

  datatype AttendanceReply =
    | RefusedWhileRunning
    | CannotSendMessages
    | ReportFailed(error: StoreError)
    | NoSnapshotData
    | Report(instructorsPresent: seq<int>, verdicts: seq<Verdict>, embeds: seq<Embed>, truncationNotice: bool)

  datatype ClearReply = ClearFailed | Cleared

  datatype TickOutcome =
    | SkippedCancelling
    | SkippedChannelGone
    | Sampled(cancelRequested: bool, stored: Outcome<StoreError>)

  /** Whether some registered instructor is among `members` (the first match ends the search). */
  method AnyInstructorIn(registry: seq<int>, members: seq<int>) returns (found: bool)
    ensures found <==> exists i :: i in registry && i in members
  {
    found := false;
    var k := 0;
    while k < |registry|
      invariant 0 <= k <= |registry|
      invariant forall i :: i in registry[..k] ==> i !in members
      invariant !found
    {
      var instructor := registry[k];
      if instructor in members {
        assert instructor in registry && instructor in members;
        found := true;
        break;
      }
      assert registry[..k + 1] == registry[..k] + [registry[k]];
      k := k + 1;
    }
    if !found {
      assert registry[..k] == registry;
    }
  }

  class AttendanceCog {
    /** The channel of the session, 0 when there is none. */
    var voiceChannel: int
    var task: TaskState
    /** The loop's interval in seconds. */
    var loopSeconds: int

    /** A running loop always has a channel to sample. */
    ghost predicate Valid()
      reads this
    {
      task == Running ==> voiceChannel != 0
    }

    predicate IsRunning()
      reads this`task
    {
      task != Idle
    }

    predicate IsBeingCancelled()
      reads this`task
    {
      task == Cancelling
    }

    constructor ()
      ensures Valid()
      ensures voiceChannel == 0 && task == Idle && loopSeconds == 0
    {
      voiceChannel, task, loopSeconds := 0, Idle, 0;
    }

    /**
     * Starts sampling `channel`, whose members are `channelMembers`, provided no loop is
     * alive and a registered instructor is in the channel; the interval is the stored one.
     */
    method StartSession(db: Database, channel: int, channelMembers: seq<int>) returns (reply: StartReply)
      requires Valid() && channel != 0
      modifies this
      ensures Valid()
      ensures old(IsRunning()) ==>
                reply == AlreadyRunning(old(voiceChannel)) && unchanged(this)
      ensures !old(IsRunning()) && (forall i :: i in db.Registry() ==> i !in channelMembers) ==>
                reply == NoInstructorInChannel && unchanged(this)
      ensures !old(IsRunning()) && (exists i :: i in db.Registry() && i in channelMembers) && db.snapshotInterval.None? ==>
                reply == StartFailed(MissingKey(SnapshotIntervalKey)) && unchanged(this)
      ensures !old(IsRunning()) && (exists i :: i in db.Registry() && i in channelMembers) && db.snapshotInterval.Some? ==>
                && reply == Started(db.snapshotInterval.value)
                && voiceChannel == channel && loopSeconds == db.snapshotInterval.value && task == Running
    {
      if IsRunning() {
        return AlreadyRunning(voiceChannel);
      }
      var registry := db.GetInstructors();
      var present := AnyInstructorIn(registry, channelMembers);
      if !present {
        return NoInstructorInChannel;
      }
      var interval := db.GetSnapshotInterval();
      if interval.Failure? {
        return StartFailed(interval.error);
      }
      voiceChannel := channel;
      loopSeconds := interval.value;
      task := Running;
      reply := Started(interval.value);
    }

    /** Asks a running loop to stop and forgets its channel. */
    method StopSession() returns (reply: StopReply)
      requires Valid()
      modifies this`voiceChannel, this`task
      ensures Valid()
      ensures old(task) == Cancelling ==> reply == AlreadyCancelling && unchanged(this)
      ensures old(task) == Idle ==> reply == NothingToStop && unchanged(this)
      ensures old(task) == Running ==> reply == Stopped && voiceChannel == 0 && task == Cancelling
    {
      if IsBeingCancelled() {
        return AlreadyCancelling;
      }
      if !IsRunning() {
        return NothingToStop;
      }
      voiceChannel := 0;
      task := Cancelling;
      reply := Stopped;
    }

    /**
     * The report: refused while a loop is alive, or when the bot may not post in the
     * invoking channel (`canSendHere`); with no snapshots there is nothing to report.
     * Otherwise the occurrences are tallied, registered instructors listed apart, every
     * other member judged against the stored rate, and the result packed into embeds.
     */
    method GetAttendance(db: Database, canSendHere: bool, limits: EmbedLimits) returns (reply: AttendanceReply)
      requires limits.maxEmbeds >= 1
      ensures IsRunning() ==> reply == RefusedWhileRunning
      ensures !IsRunning() && !canSendHere ==> reply == CannotSendMessages
      ensures !IsRunning() && canSendHere && db.snapshots.None? ==> reply == ReportFailed(MissingKey(SnapshotsKey))
      ensures !IsRunning() && canSendHere && db.snapshots == Some([]) ==> reply == NoSnapshotData
      ensures !IsRunning() && canSendHere && db.snapshots.Some? && db.snapshots.value != [] && db.minimumAttendanceRate.None? ==>
                reply == ReportFailed(MissingKey(MinimumAttendanceRateKey))
      ensures reply.Report? ==>
                && !IsRunning() && canSendHere && db.snapshots.Some? && db.minimumAttendanceRate.Some?
                && db.snapshots.value != []
      ensures !IsRunning() && canSendHere && db.snapshots.Some? && db.snapshots.value != [] && db.minimumAttendanceRate.Some? ==>
                var snapshots := db.snapshots.value;
                var members := Distinct(Flatten(snapshots));
                && reply.Report?
                && reply.instructorsPresent == PresentInstructors(members, db.Registry())
                && reply.verdicts == Verdicts(members, Totals(snapshots), |snapshots|, db.minimumAttendanceRate.value, db.Registry())
                && 1 <= |reply.embeds| <= limits.maxEmbeds
                && reply.embeds[0] == HeaderEmbed(|reply.verdicts|, |snapshots|, reply.instructorsPresent)
                && (forall j :: 1 <= j < |reply.embeds| ==>
                      reply.embeds[j].title.None? && |reply.embeds[j].description| > 0)
                && (forall j :: 1 <= j < |reply.embeds| - 1 ==>
                      |reply.embeds[j].description| >= limits.maxDescriptionLength)
                && (forall j :: 1 <= j <= |reply.embeds| ==> WholeLines(Descriptions(reply.embeds[..j]), Lines(reply.verdicts)))
                && AllClosedAtCap(reply.embeds, Lines(reply.verdicts), limits.maxDescriptionLength)
                && (reply.truncationNotice <==> |reply.embeds| >= limits.maxEmbeds)
                && Descriptions(reply.embeds) <= Listing(reply.verdicts)
                && (!reply.truncationNotice ==> Descriptions(reply.embeds) == Listing(reply.verdicts))
                && (Descriptions(reply.embeds) != Listing(reply.verdicts) ==>
                      && reply.truncationNotice
                      && forall j :: 1 <= j < |reply.embeds| ==>
                           |reply.embeds[j].description| >= limits.maxDescriptionLength)
    {
      if IsRunning() {
        return RefusedWhileRunning;
      }
      if !canSendHere {
        return CannotSendMessages;
      }
      var stored := db.GetSnapshots();
      if stored.Failure? {
        return ReportFailed(stored.error);
      }
      var snapshots := stored.value;
      if |snapshots| == 0 {
        return NoSnapshotData;
      }
      var order, total := TallySnapshots(snapshots);
      var rate := db.GetAttendanceRate();
      if rate.Failure? {
        return ReportFailed(rate.error);
      }
      var registry := db.GetInstructors();
      var instructorsPresent, verdicts := ClassifyMembers(order, total, |snapshots|, rate.value, registry);
      var header := HeaderEmbed(|verdicts|, |snapshots|, instructorsPresent);
      var lines := Lines(verdicts);
      LinesNonEmpty(verdicts);
      var embeds := BuildEmbeds(header, lines, limits);
      var notice := |embeds| >= limits.maxEmbeds;
      reply := Report(instructorsPresent, verdicts, embeds, notice);
    }

    /** Empties the stored snapshots. */
    method ClearAttendance(db: Database) returns (reply: ClearReply)
      modifies db`snapshots
      ensures reply == Cleared && db.snapshots == Some([])
    {
      var ok := db.ClearSnapshots();
      if !ok {
        return ClearFailed;
      }
      reply := Cleared;
    }

    /**
     * One iteration of the sampling loop. `channels` maps every channel the bot can resolve
     * to the ids of its members. A pending cancellation or an unresolvable channel skips the
     * tick; otherwise the loop asks to be cancelled when no registered instructor is in the
     * channel, and the ids are stored as one more snapshot either way.
     */
    method SnapshotTick(db: Database, channels: map<int, seq<int>>) returns (outcome: TickOutcome)
      requires Valid() && task != Idle
      modifies this`task, db`snapshots
      ensures Valid()
      ensures outcome.Sampled? ==> voiceChannel != 0
      ensures old(task) == Cancelling ==>
                outcome == SkippedCancelling && task == Cancelling && db.snapshots == old(db.snapshots)
      ensures old(task) == Running && voiceChannel !in channels ==>
                outcome == SkippedChannelGone && task == Running && db.snapshots == old(db.snapshots)
      ensures old(task) == Running && voiceChannel in channels ==>
                var members := channels[voiceChannel];
                var cancel := forall i :: i in db.Registry() ==> i !in members;
                && outcome.Sampled? && outcome.cancelRequested == cancel
                && task == (if cancel then Cancelling else Running)
                && (old(db.snapshots).Some? ==> outcome.stored == Pass && db.snapshots == Some(old(db.snapshots).value + [members]))
                && (old(db.snapshots).None? ==> outcome.stored == Fail(MissingKey(SnapshotsKey)) && db.snapshots == old(db.snapshots))
    {
      if IsBeingCancelled() {
        return SkippedCancelling;
      }
      if voiceChannel !in channels {
        return SkippedChannelGone;
      }
      var members := channels[voiceChannel];
      var registry := db.GetInstructors();
      var present := AnyInstructorIn(registry, members);
      if !present {
        task := Cancelling;
      }
      var stored := db.TakeMemberSnapshot(members);
      outcome := Sampled(!present, stored);
    }

    /** The loop library finishing a pending cancellation. */
    method FinishCancellation()
      requires Valid()
      modifies this`task
      ensures Valid()
      ensures task == (if old(task) == Cancelling then Idle else old(task))
    {
      if task == Cancelling {
        task := Idle;
      }
    }

    /** Unloading the cog forgets the channel and stops the loop, whatever its state. */
    method CogUnload()
      modifies this`voiceChannel, this`task
      ensures Valid()
      ensures voiceChannel == 0 && task == Idle
    {
      voiceChannel := 0;
      task := Idle;
    }
  }

  /**
   * A whole session without ticks: starting from no loop, a start that succeeds followed
   * by a stop and the end of the cancellation leaves the cog as it was, except for the
   * loop's interval, and never touches the store.
   */
  method StartThenStop(cog: AttendanceCog, db: Database, channel: int, channelMembers: seq<int>)
      returns (started: StartReply, stopped: StopReply)
    requires cog.Valid() && cog.task == Idle && cog.voiceChannel == 0 && channel != 0
    requires db.snapshotInterval.Some?
    requires exists i :: i in db.Registry() && i in channelMembers
    modifies cog
    ensures started == Started(db.snapshotInterval.value) && stopped == Stopped
    ensures cog.task == Idle && cog.voiceChannel == 0 && cog.loopSeconds == db.snapshotInterval.value
    ensures cog.Valid()
  {
    started := cog.StartSession(db, channel, channelMembers);
    stopped := cog.StopSession();
    cog.FinishCancellation();
  }
}
