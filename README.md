# Attendance bot: a verified model of its session engine

This project models, in Dafny, the core of a Discord attendance bot. The core has these parts:

- **The persistent store.** A shelve file holds:
  - the instructor registry;
  - the settings: minimum attendance rate, snapshot interval and three flags;
  - the snapshot list.
- **The store's start-up initialisation.**
- **The attendance cog.** It runs a session loop bound to one voice channel. It can:
  - start, stop and unload that loop;
  - take one snapshot of the channel's member ids per tick;
  - build a report once no loop is alive.
- **The report's aggregation.** It counts the occurrences of each id, lists registered instructors apart, and judges every other member against the minimum rate.
- **The report's packing into Discord embeds**, under a cap on embeds per message.
- **The presence line.** It shows how many different ids the snapshots have seen.
- **The CSV export of a report's verdicts.**
- **The three interaction checks** that decide who may manage sessions.

The modules are:

| module | file | what it holds |
|---|---|---|
| `Wrappers` | wrappers.dfy | `Option`, `Result`, `Outcome` |
| `Sequences` | sequences.dfy | list helpers: `NoDuplicates`, `RemoveFirst` (Python's `list.remove`) |
| `Text` | text.dfy | decimal rendering of ints (Python's `str(int)`) and its reader; `Find`, the first position of a character |
| `Store` | store.dfy | the shelf as a `Database` class with one `Option` field per key (`None` = key absent) |
| `Constants`, `Bootstrap` | bootstrap.dfy | the defaults and the start-up block |
| `Aggregation` | aggregation.dfy | the tally and the classification, as loops proved against functions |
| `Embeds` | embeds.dfy | the report text and the packing loop |
| `Session` | session.dfy | the cog as an `AttendanceCog` class: loop state, channel, interval |
| `Presence` | presence.dfy | the student count and its label |
| `Export` | export.dfy | the CSV text and a reader that takes it back |
| `Authorization` | authorization.dfy | the interaction checks, as written and corrected |

Reading a key that is absent raises `KeyError` in the program. The model returns such reads as `Failure(MissingKey(key))`, and no state changes on that path.

The loop library's states are modelled as `TaskState`:

- `Idle`: not started.
- `Running`.
- `Cancelling`: `cancel()` was called but the current iteration has not yet finished.

The library's `is_running()` is true in both `Running` and `Cancelling`. `is_being_cancelled()` is true only in `Cancelling`.

Two points about the code as written:

- **The authorization checks.** As written, the combined check admits every user (see Findings).
- **The attendance count.** It is the number of occurrences of an id over all snapshots, not the number of snapshots that contain it. The two agree whenever no snapshot lists an id twice, which a channel's member list never does.

## Model

| member | source | states |
|---|---|---|
| Store.Database.constructor | main.py:36 | opening the shelf gives a database whose contents are the stored shelf |
| Store.Database.GetInstructors | cogs/utils/shelve_utils.py:8-10 | the stored registry, or the empty list when the key is absent |
| Store.Database.AddInstructor | cogs/utils/shelve_utils.py:13-22 | a registered id gives `False` with the registry unchanged; otherwise the id is appended at the end and the re-read gives `True`; a missing key is the `KeyError` failure with nothing changed; a duplicate-free registry stays duplicate-free |
| Store.Database.RemoveInstructor | cogs/utils/shelve_utils.py:25-34 | an unregistered id gives `False` with nothing changed; otherwise the first occurrence is removed and the result says whether the re-read no longer finds the id (on a duplicate-free registry: `True`, and it stays duplicate-free) |
| Store.AddThenRemoveInstructor | cogs/utils/shelve_utils.py:13-34 | adding an unregistered id and removing it again both succeed and leave the registry exactly as it was, so every authorization answer is as before |
| Sequences.RemoveFirstFromDistinct | cogs/utils/shelve_utils.py:31 | `list.remove` on a duplicate-free list drops exactly that id and keeps every other |
| Store.Database.TakeMemberSnapshot | cogs/utils/shelve_utils.py:37-42 | the member ids become one more snapshot at the end; a missing key fails and changes nothing |
| Store.Database.GetSnapshots | cogs/utils/shelve_utils.py:45-49 | the stored snapshots, or the `KeyError` failure when the key is absent |
| Store.Database.ClearSnapshots | cogs/utils/shelve_utils.py:52-56 | the snapshots become the empty list and the re-read confirms it (`True`) |
| Store.Database.GetAttendanceRate | cogs/utils/shelve_utils.py:59-63 | the stored minimum rate, or the `KeyError` failure |
| Store.Database.SetAttendanceRate | cogs/utils/shelve_utils.py:66-70 | only the rate key changes, it reads back as the value written, and the result is `True` |
| Store.Database.GetSnapshotInterval | cogs/utils/shelve_utils.py:73-77 | the stored interval, or the `KeyError` failure |
| Store.Database.SetSnapshotInterval | cogs/utils/shelve_utils.py:80-84 | only the interval key changes, it reads back as the value written, and the result is `True` |
| Bootstrap.AfterStartup | main.py:36-56 | after start-up every key is present, a key that was present keeps its value, a missing key gets its default (no instructors, rate 0.5, interval 3 seconds, each flag its given default), and the snapshots are empty |
| Bootstrap.InitialisePersistence | main.py:36-56 | the start-up block's conditional writes leave exactly the shelf `AfterStartup` describes |
| Bootstrap.FirstRunDefaults | main.py:37-44 | on an empty shelf: no instructors, minimum rate 0.5, interval 3 seconds, each flag its given default, no snapshots |
| Bootstrap.StartupIdempotent | main.py:36-56 | starting twice leaves the same shelf as starting once |
| Bootstrap.RestartWipesOnlySnapshots | main.py:55-56 | restarting an initialised shelf only empties the snapshots; the registry and settings persist |
| Aggregation.TallySnapshots | cogs/attendance.py:116-122 | the tally's keys are the ids seen, in first-appearance order without repeats, and each maps to its number of occurrences over all snapshots |
| Aggregation.ClassifyMembers | cogs/attendance.py:124-137 | walking the tally in key order, registered ids go to the instructors-present list, and every other id gets a verdict of `count / snapshots >= rate` |
| Aggregation.DistinctElements | cogs/attendance.py:116-122 | the tally's key order holds every id seen, once each, and nothing else |
| Aggregation.DistinctInFirstAppearanceOrder | cogs/attendance.py:116-122 | an id comes earlier in the key order exactly when its first occurrence comes earlier |
| Aggregation.SelectPartition | cogs/attendance.py:129-137 | every member seen lands in exactly one of the two lists: instructors present or verdicts |
| Aggregation.VerdictMembers | cogs/attendance.py:129-137 | the ids with a verdict are exactly the members seen that are not registered, in order |
| Aggregation.VerdictValues | cogs/attendance.py:134-137 | each verdict is `True` exactly when the member's count divided by the number of snapshots meets the rate (inclusive) |
| Aggregation.SelectKeepsOrder | cogs/attendance.py:129-137 | both lists keep the first-appearance order of the snapshots |
| Aggregation.ReportCharacterisation | cogs/attendance.py:116-137 | the whole aggregation: verdicts for exactly the unregistered ids seen, instructors present for exactly the registered ids seen, each verdict set by its occurrence count against the rate, both lists in first-appearance order and free of duplicates, and together as many entries as different ids |
| Aggregation.WorkedExample | cogs/attendance.py:116-137 | for snapshots [1,2], [1] and [1,2,3] with rate 0.5 and instructor 1: instructor 1 is present, 2 attended (2/3) and 3 is absent (1/3) |
| Embeds.MentionsCount | cogs/attendance.py:145-148 | the mention list holds one `@` per instructor present |
| Embeds.MentionsRoundTrip | cogs/attendance.py:145-148 | the header's mention list, read back as `<@id>` items separated by ", ", gives exactly the instructors present, in order (the empty list for none) |
| Embeds.ListingLines | cogs/attendance.py:155-161 | the listing text holds exactly one line per verdict |
| Embeds.JoinPrefix | cogs/attendance.py:155-176 | a listing cut after fewer lines is a prefix of the full listing; with it, the text the embeds carry is always a prefix of the listing |
| Embeds.BuildEmbeds | cogs/attendance.py:155-176 | the header comes first, with never more than the cap of embeds. Listing embeds are untitled and non-empty, and each closes on a line boundary. Every listing embed but the last reached the description length. Every listing embed is a run of consecutive lines whose text before its last line was still below the description length (or a single line). The listing embeds' text is a prefix of the whole listing, and when the cap is not reached it is the whole listing. Lines are dropped only when the message holds the cap of embeds and every listing embed reached the description length |
| Embeds.ClosedAtCapLength | cogs/attendance.py:163-171 | a listing embed closed at the cap is shorter than the description length plus its longest line |
| Session.AnyInstructorIn | cogs/attendance.py:39-45 | true exactly when some registered instructor is among the channel's members |
| Session.AttendanceCog.constructor | cogs/attendance.py:20-23 | a new cog has no channel and no loop |
| Session.AttendanceCog.StartSession | cogs/attendance.py:27-62 | four outcomes. A live loop (running or cancelling) is reported with the stored channel and nothing changes. No instructor in the channel refuses the start. A missing interval key is the `KeyError` failure. Otherwise the loop runs on that channel at the stored interval |
| Session.AttendanceCog.StopSession | cogs/attendance.py:65-86 | a pending cancellation replies "please wait" and an idle loop "nothing to stop", neither changing anything; a running loop forgets its channel and moves to cancelling |
| Session.AttendanceCog.GetAttendance | cogs/attendance.py:89-183 | refused while a loop is alive or when the bot may not post; a missing key is a failure; no snapshots means no data. Otherwise the report is the aggregation's instructors present and verdicts, a header with the verdict count, the snapshot count and the mentions, and listing embeds that are untitled, non-empty and cut at line boundaries. Every listing embed but the last reached the description length, and each is a run of consecutive lines whose text before its last line was still below the description length. The truncation notice is shown exactly when the message holds the maximum number of embeds, and without it the embeds carry the whole listing; with it, a prefix of the listing. Lines are dropped only with the notice shown and every listing embed at the description length |
| Session.AttendanceCog.ClearAttendance | cogs/attendance.py:186-198 | the snapshots become empty and the reply is success |
| Session.AttendanceCog.SnapshotTick | cogs/attendance.py:201-221 | a pending cancellation or an unresolvable channel skips the tick and changes nothing. Otherwise the channel's ids are appended as one snapshot, and the loop moves to cancelling exactly when no registered instructor is in the channel. It records the tick first and never skips it. A sampled tick never samples channel 0, since a running loop always has a channel |
| Session.AttendanceCog.FinishCancellation | cogs/attendance.py:81 | the loop library ends a pending cancellation by going idle and leaves any other state alone |
| Session.AttendanceCog.CogUnload | cogs/attendance.py:223-225 | unloading forgets the channel and leaves no loop, whatever the state before |
| Session.StartThenStop | cogs/attendance.py:27-86 | a successful start, a stop and the end of the cancellation return the cog to no channel and no loop |
| Presence.CountStudents | cogs/presence.py:25-33 | the count is the number of different ids over all snapshots (zero without snapshots) |
| Presence.CountIncludesInstructors | cogs/presence.py:25-33 | the presence count includes instructors: it equals the report's instructors present plus its verdicts |
| Presence.ActivityName | cogs/presence.py:34 | the label ends in the plural `s` exactly when the count is not one |
| Presence.ActivityNameReadsBack | cogs/presence.py:34 | the number at the head of the label is the count |
| Presence.PresenceTask | cogs/presence.py:23-34 | the label for the number of different ids in the stored snapshots, or the `KeyError` failure |
| Export.AttendanceDataToCsv | cogs/views/attendance_export.py:30-36 | the header line, then one `member,True/False` line per verdict in the report's order |
| Export.RowRoundTrip | cogs/views/attendance_export.py:34 | one row reads back as the verdict it came from |
| Export.CsvRoundTrip | cogs/views/attendance_export.py:30-36 | reading the export back gives its header and every verdict in order |
| Export.CsvLineCount | cogs/views/attendance_export.py:30-36 | the export has one line per verdict after the header line |
| Text.IntDecimalRoundTrip | cogs/views/attendance_export.py:34 | an id written in decimal reads back as the same id |
| Authorization.UserIsInstructor | cogs/utils/interaction_checks.py:7-10 | true exactly when the user is in the stored registry |
| Authorization.UserIsOwnerAsWritten | cogs/utils/interaction_checks.py:13-14 | as written: the un-awaited `is_owner` coroutine, which is always truthy |
| Authorization.UserIsOwner | cogs/utils/interaction_checks.py:13-14 | corrected: true exactly when the user is an owner |
| Authorization.UserIsInstructorOrOwnerAsWritten | cogs/utils/interaction_checks.py:17-22 | as written: the `or` of two un-awaited coroutines, true for everybody |
| Authorization.UserIsInstructorOrOwner | cogs/utils/interaction_checks.py:17-22 | corrected: true exactly when the user is a registered instructor or an owner |
| Authorization.AsWrittenAdmitsOutsiders | cogs/utils/interaction_checks.py:20 | a user who is neither instructor nor owner passes both as-written checks and fails both corrected ones |

## Left out

- **Discord I/O.**
  - Replies, embeds sent, logging and `change_presence` become returned values: `StartReply`, `StopReply`, `AttendanceReply`, `ClearReply`, `TickOutcome` and the label string.
  - The bot's send permission in the invoking channel is the `canSendHere` parameter.
  - The channel lookup of a tick is the `channels` map: channel id to member ids, with no entry for a channel that cannot be resolved.
  - The started channel's members are the `channelMembers` parameter.
- **Python ints and floats.** Ids are unbounded integers. The attendance rate and the division `count / snapshots` are exact reals, not binary floats.
- **The loop library's timing.**
  - Scheduling, `change_interval`'s own checks and `current_loop` are not modelled.
  - The end of a cancelled loop is the explicit step `FinishCancellation`.
  - An exception inside a tick (the missing snapshots key) would end the library's loop. The model returns it as a failed `Outcome` and leaves the loop state to the tick's own decision.
- Session.AttendanceCog.CogUnload: `stop()` lets the current iteration finish in the library. The model goes straight to no loop.
- Session.AttendanceCog.StartSession: the cog can be stopped but still cancelling. Its "already running" reply then carries channel 0, whose mention the program cannot resolve (`get_channel(0)` is `None`), so it raises instead of replying. The model returns `AlreadyRunning(0)`.
- Session.AttendanceCog.SnapshotTick: requires a live loop, since the library never runs an iteration of a loop that was not started.
- **Constants not in the modelled constants file.** These are parameters:
  - the embed caps (`EmbedLimits`);
  - the CSV header (`headers`);
  - the defaults of the three flag keys (`FlagDefaults`).
- **The three flag keys** (auto-clear on a new session, auto-clear after a report, ephemeral responses) are initialised and stored only. No modelled operation reads them.
- Session.AttendanceCog.GetAttendance: the truncation notice is the text's presence, a boolean, not its wording.
  - The notice also appears when the last listing embed took the final line, so nothing was dropped. The model keeps this: the notice is exactly "the message holds the maximum number of embeds".
  - The header's "Total Attended" counts every member with a verdict, absent ones included, as the program does.
- Embeds.BuildEmbeds: takes the rendered listing lines (`Lines(verdicts)`) instead of rendering each line inside the loop. The text is the same.
- **Outside the model.** The settings, instructor, sync and developer cogs and the export view's buttons and upload are outside this model.
- **String and dict behaviour.**
  - Python's `str(int)` is modelled as `Text.IntToDecimal`, and f-string concatenation as sequence concatenation.
  - Dicts keep insertion order. Their iteration is modelled as a sequence of keys in that order.

## Findings

| source | as written | input that shows it | evidently intended | confidence | as-written member | corrected member |
|---|---|---|---|---|---|---|
| cogs/utils/interaction_checks.py:20 | `user_is_instructor(...) or user_is_owner(...)` calls two `async` functions without `await`; the `or` tests coroutine objects, which are always truthy, so the check returns `True` | any user who is neither in the instructor registry nor an owner of the bot | true only for a registered instructor or an owner | high, not executed | Authorization.UserIsInstructorOrOwnerAsWritten (shown by Authorization.AsWrittenAdmitsOutsiders) | Authorization.UserIsInstructorOrOwner |
| cogs/utils/interaction_checks.py:14 | returns `client.is_owner(...)` without `await`; the caller receives a coroutine object, truthy whatever the answer | any user who is not an owner of the bot | true only for an owner | medium (depends on `Bot.is_owner` being a coroutine function, as in discord.py 2), not executed | Authorization.UserIsOwnerAsWritten (shown by Authorization.AsWrittenAdmitsOutsiders) | Authorization.UserIsOwner |
