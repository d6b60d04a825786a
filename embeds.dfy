// The attendance report as Discord embeds: a header embed with the totals, then listing
// embeds holding one line per verdict, cut into pieces so that no message carries more
// embeds than Discord accepts.

module Embeds {
  import opened Wrappers
  import opened Sequences
  import opened Text
  import opened Aggregation

  /** A Discord embed: the header has a title, the listing embeds only a description. */
  datatype Embed = Embed(title: Option<string>, description: string)

  /** The two caps the report respects: embeds per message and description length. */
  datatype EmbedLimits = EmbedLimits(maxEmbeds: nat, maxDescriptionLength: nat)

  const ReportTitle: string := "Attendance Report"
  const AttendedMark: string := " \U{2705} **ATTENDED**"
  const AbsentMark: string := " \U{274C} **ABSENT**"

  /** A user mention, `<@id>`. */
  function Mention(id: int): string {
    "<@" + IntToDecimal(id) + ">"
  }

  /** The mentions of `ids`, joined by ", ". */
  function Mentions(ids: seq<int>): string {
    if ids == [] then ""
    else if |ids| == 1 then Mention(ids[0])
    else Mention(ids[0]) + ", " + Mentions(ids[1..])
  }

  /** The header's description: members with a verdict, snapshots taken, instructors present. */
  function HeaderDescription(totalAttended: nat, totalSnapshots: nat, instructorsPresent: seq<int>): string {
    "- **Total Attended**: `" + NatToDecimal(totalAttended)
      + "`\n- **Total Snapshots**: `" + NatToDecimal(totalSnapshots)
      + "`\n- **Instructors Present**: " + Mentions(instructorsPresent)
  }

  function HeaderEmbed(totalAttended: nat, totalSnapshots: nat, instructorsPresent: seq<int>): Embed {
    Embed(Some(ReportTitle), HeaderDescription(totalAttended, totalSnapshots, instructorsPresent))
  }

  /** One listing line: the member's mention and whether they met the rate. */
  function ListingLine(v: Verdict): (line: string)
    ensures |line| > 0
  {
    "- " + Mention(v.member) + (if v.attended then AttendedMark else AbsentMark) + "\n"
  }

  /** The listing's lines, one per verdict, in order. */
  function Lines(vs: seq<Verdict>): seq<string> {
    seq(|vs|, i requires 0 <= i < |vs| => ListingLine(vs[i]))
  }

  lemma LinesNonEmpty(vs: seq<Verdict>)
    ensures forall j :: 0 <= j < |Lines(vs)| ==> |Lines(vs)[j]| > 0
  {
  }

  /** The concatenation of `lines`. */
  function Join(lines: seq<string>): string {
    if lines == [] then "" else Join(lines[..|lines| - 1]) + lines[|lines| - 1]
  }

  /** The whole listing, every verdict's line in order. */
  function Listing(vs: seq<Verdict>): string {
    Join(Lines(vs))
  }

  /** The listing text carried by `embeds`: the descriptions of the untitled embeds, in order. */
  function Descriptions(embeds: seq<Embed>): string {
    if embeds == [] then ""
    else
      var e := embeds[|embeds| - 1];
      Descriptions(embeds[..|embeds| - 1]) + (if e.title.None? then e.description else "")
  }

  /** `text` is the first few of `lines`: it ends at a line boundary. */
  ghost predicate WholeLines(text: string, lines: seq<string>) {
    exists k :: 0 <= k <= |lines| && text == Join(lines[..k])
  }

  lemma JoinSnoc(lines: seq<string>, line: string)
    ensures Join(lines + [line]) == Join(lines) + line
  {
    assert (lines + [line])[..|lines|] == lines;
  }

  lemma DescriptionsSnoc(embeds: seq<Embed>, e: Embed)
    ensures Descriptions(embeds + [e]) == Descriptions(embeds) + (if e.title.None? then e.description else "")
  {
    assert (embeds + [e])[..|embeds|] == embeds;
  }

  /** Fewer lines give a prefix of the text. */
  lemma {:induction false} JoinPrefix(lines: seq<string>, k: nat)
    requires k <= |lines|
    ensures Join(lines[..k]) <= Join(lines)
    decreases |lines|
  {
    if k < |lines| {
      JoinPrefix(lines[..|lines| - 1], k);
      assert lines[..|lines| - 1][..k] == lines[..k];
    } else {
      assert lines[..k] == lines;
    }
  }
  /** Text that ends at a line boundary is a prefix of the whole listing. */
  lemma WholeLinesPrefix(text: string, lines: seq<string>)
    requires WholeLines(text, lines)
    ensures text <= Join(lines)
  {
    var k :| 0 <= k <= |lines| && text == Join(lines[..k]);
    JoinPrefix(lines, k);
  }


  /** A mention holds exactly one '@', since a decimal id has none. */
  lemma MentionAt(id: int)
    ensures multiset(Mention(id))['@'] == 1
  {
    var digits := IntToDecimal(id);
    assert '@' !in digits by {
      forall k | 0 <= k < |digits| ensures digits[k] != '@' {
      }
    }
    assert multiset(digits)['@'] == 0;
    assert Mention(id) == "<@" + digits + ">";
  }

  /** The mention list holds one '@' per instructor present. */
  lemma {:induction false} MentionsCount(ids: seq<int>)
    ensures multiset(Mentions(ids))['@'] == |ids|
    decreases |ids|
  {
    if |ids| == 1 {
      MentionAt(ids[0]);
    } else if |ids| > 1 {
      MentionsCount(ids[1..]);
      MentionAt(ids[0]);
      assert Mentions(ids) == Mention(ids[0]) + ", " + Mentions(ids[1..]);
    }
  }

  /**
   * Reads a non-empty mention list back: `<@id>` items separated by ", ", nothing else.
   * A reader of the header, so that the mentions can be shown to name the instructors.
   */
  function ReadMentionList(s: string): Option<seq<int>>
    decreases |s|, 1
  {
    if |s| < 2 || s[..2] != "<@" then None
    else
      match Find(s[2..], '>')
      case None => None
      case Some(k) =>
        match ParseInt(s[2..2 + k])
        case None => None
        case Some(id) => ReadMentionTail(id, s[2 + k + 1..])
  }

  /** What follows the mention of `id`: the end of the list, or ", " and more mentions. */
  function ReadMentionTail(id: int, rest: string): Option<seq<int>>
    decreases |rest|, 0
  {
    if rest == [] then Some([id])
    else if |rest| < 2 || rest[..2] != ", " then None
    else
      match ReadMentionList(rest[2..])
      case None => None
      case Some(ids) => Some([id] + ids)
  }

  /** Reads a mention list, the empty text being the empty list. */
  function ReadMentions(s: string): Option<seq<int>> {
    if s == [] then Some([]) else ReadMentionList(s)
  }

  /** One mention, followed by `tail`, reads as its id followed by `tail`. */
  lemma MentionSplit(id: int, tail: string)
    ensures var s := Mention(id) + tail;
            && |s| >= 2 && s[..2] == "<@"
            && Find(s[2..], '>') == Some(|IntToDecimal(id)|)
            && s[2..2 + |IntToDecimal(id)|] == IntToDecimal(id)
            && s[2 + |IntToDecimal(id)| + 1..] == tail
  {
    var digits := IntToDecimal(id);
    var s := Mention(id) + tail;
    assert s == "<@" + (digits + (">" + tail));
    assert s[2..] == digits + (">" + tail);
    assert '>' !in digits by {
      forall k | 0 <= k < |digits| ensures digits[k] != '>' {
      }
    }
    FindAfter(digits, ">" + tail, '>');
  }

  /** A mention is read up to its closing `>`, and its id passed on with what follows. */
  lemma ReadMentionStep(id: int, tail: string)
    ensures ReadMentionList(Mention(id) + tail) == ReadMentionTail(id, tail)
  {
    var s := Mention(id) + tail;
    var digits := IntToDecimal(id);
    MentionSplit(id, tail);
    assert ParseInt(s[2..2 + |digits|]) == Some(id) by {
      IntDecimalRoundTrip(id);
    }
  }

  /** A single mention reads back as its id. */
  lemma ReadOneMention(id: int)
    ensures ReadMentionList(Mention(id)) == Some([id])
  {
    ReadMentionStep(id, "");
    assert Mention(id) + "" == Mention(id);
  }

  /** A mention followed by ", " and more reads as its id followed by what the rest reads as. */
  lemma ReadMentionThen(id: int, rest: string)
    ensures ReadMentionList(Mention(id) + (", " + rest))
         == match ReadMentionList(rest) case None => None case Some(ids) => Some([id] + ids)
  {
    var tail := ", " + rest;
    ReadMentionStep(id, tail);
    assert tail[..2] == ", " && tail[2..] == rest;
  }

  /** The header's mentions read back as the instructors present, in order. */
  lemma {:induction false} MentionListRoundTrip(ids: seq<int>)
    requires |ids| > 0
    ensures ReadMentionList(Mentions(ids)) == Some(ids)
    decreases |ids|
  {
    if |ids| == 1 {
      ReadOneMention(ids[0]);
      assert Mentions(ids) == Mention(ids[0]) && ids == [ids[0]];
    } else {
      var rest := Mentions(ids[1..]);
      assert Mentions(ids) == Mention(ids[0]) + (", " + rest);
      ReadMentionThen(ids[0], rest);
      MentionListRoundTrip(ids[1..]);
      assert [ids[0]] + ids[1..] == ids;
    }
  }

  lemma MentionsRoundTrip(ids: seq<int>)
    ensures ReadMentions(Mentions(ids)) == Some(ids)
  {
    if ids != [] {
      MentionListRoundTrip(ids);
      assert |Mention(ids[0])| > 0;
    }
  }

  lemma MarksNoNewline()
    ensures '\n' !in AttendedMark && '\n' !in AbsentMark
  {
  }

  /** A listing line ends in its only newline. */
  lemma LineNewline(v: Verdict)
    ensures multiset(ListingLine(v))['\n'] == 1
  {
    var mention := Mention(v.member);
    MentionNoNewline(v.member);
    MarksNoNewline();
    var mark := if v.attended then AttendedMark else AbsentMark;
    var text := "- " + mention + mark;
    assert '\n' !in text;
    assert multiset(text)['\n'] == 0;
    assert ListingLine(v) == text + "\n";
  }

  /** Lines holding one newline each join into a text with one newline per line. */
  lemma {:induction false} JoinNewlines(lines: seq<string>)
    requires forall j :: 0 <= j < |lines| ==> multiset(lines[j])['\n'] == 1
    ensures multiset(Join(lines))['\n'] == |lines|
    decreases |lines|
  {
    if lines != [] {
      JoinNewlines(lines[..|lines| - 1]);
    }
  }

  /** The listing holds one line per verdict: as many newlines as verdicts. */
  lemma ListingLines(vs: seq<Verdict>)
    ensures multiset(Listing(vs))['\n'] == |vs|
  {
    forall j | 0 <= j < |vs| ensures multiset(Lines(vs)[j])['\n'] == 1 {
      LineNewline(vs[j]);
    }
    JoinNewlines(Lines(vs));
  }

  lemma MentionNoNewline(id: int)
    ensures '\n' !in Mention(id)
  {
    var digits := IntToDecimal(id);
    assert '\n' !in digits by {
      forall k | 0 <= k < |digits| ensures digits[k] != '\n' {
      }
    }
    assert Mention(id) == "<@" + digits + ">";
  }

  /** Appending the next line keeps the shown and pending text equal to the lines so far. */
  lemma PendingStep(embeds: seq<Embed>, message: string, lines: seq<string>, i: nat)
    requires i < |lines|
    requires Descriptions(embeds) + message == Join(lines[..i])
    ensures Descriptions(embeds) + (message + lines[i]) == Join(lines[..i + 1])
  {
    JoinSnoc(lines[..i], lines[i]);
    assert lines[..i + 1] == lines[..i] + [lines[i]];
    AppendAssociative(Descriptions(embeds), message, lines[i]);
  }

  /**
   * Every prefix `embeds[..j + 1]` carries the first `cuts[j]` lines, `cuts[j] <= i`:
   * no embed ends in the middle of a line.
   */
  ghost predicate CutAtLines(embeds: seq<Embed>, cuts: seq<nat>, lines: seq<string>, i: nat) {
    && |cuts| == |embeds|
    && i <= |lines|
    && forall j :: 0 <= j < |cuts| ==> cuts[j] <= i && Descriptions(embeds[..j + 1]) == Join(lines[..cuts[j]])
  }

  lemma CutAtLinesExtend(embeds: seq<Embed>, cuts: seq<nat>, lines: seq<string>, i: nat, e: Embed)
    requires CutAtLines(embeds, cuts, lines, i)
    requires Descriptions(embeds + [e]) == Join(lines[..i])
    ensures CutAtLines(embeds + [e], cuts + [i], lines, i)
  {
    var embeds', cuts' := embeds + [e], cuts + [i];
    forall j | 0 <= j < |cuts'|
      ensures cuts'[j] <= i && Descriptions(embeds'[..j + 1]) == Join(lines[..cuts'[j]])
    {
      if j < |cuts| {
        assert embeds'[..j + 1] == embeds[..j + 1];
      } else {
        assert embeds'[..j + 1] == embeds';
      }
    }
  }

  /** Closing the pending text as an embed keeps every embed ending at a line boundary. */
  lemma FlushStep(embeds: seq<Embed>, cuts: seq<nat>, message: string, lines: seq<string>, i: nat)
    requires CutAtLines(embeds, cuts, lines, i)
    requires Descriptions(embeds) + message == Join(lines[..i])
    ensures Descriptions(embeds + [Embed(None, message)]) == Join(lines[..i])
    ensures CutAtLines(embeds + [Embed(None, message)], cuts + [i], lines, i)
  {
    DescriptionsSnoc(embeds, Embed(None, message));
    CutAtLinesExtend(embeds, cuts, lines, i, Embed(None, message));
  }

  lemma CutAtLinesPrefixes(embeds: seq<Embed>, cuts: seq<nat>, lines: seq<string>, i: nat)
    requires CutAtLines(embeds, cuts, lines, i)
    ensures forall j :: 1 <= j <= |embeds| ==> WholeLines(Descriptions(embeds[..j]), lines)
  {
    forall j | 1 <= j <= |embeds|
      ensures WholeLines(Descriptions(embeds[..j]), lines)
    {
      var k := cuts[j - 1];
      assert Descriptions(embeds[..j - 1 + 1]) == Join(lines[..k]);
      assert embeds[..j - 1 + 1] == embeds[..j];
    }
  }

  /** After the header, every embed is an untitled listing whose text reached the cap. */
  ghost predicate FullListings(embeds: seq<Embed>, maxDescriptionLength: nat) {
    forall j :: 1 <= j < |embeds| ==>
      embeds[j].title.None? && 0 < |embeds[j].description| && maxDescriptionLength <= |embeds[j].description|
  }

  lemma FullListingsExtend(embeds: seq<Embed>, maxDescriptionLength: nat, message: string)
    requires FullListings(embeds, maxDescriptionLength)
    requires 0 < |message| && maxDescriptionLength <= |message|
    ensures FullListings(embeds + [Embed(None, message)], maxDescriptionLength)
  {
  }

  /** A last listing shorter than the cap still leaves the others full. */
  lemma LastListing(embeds: seq<Embed>, maxDescriptionLength: nat, message: string)
    requires FullListings(embeds, maxDescriptionLength)
    requires 0 < |message|
    ensures var embeds' := embeds + [Embed(None, message)];
            && (forall j :: 1 <= j < |embeds'| ==> embeds'[j].title.None? && |embeds'[j].description| > 0)
            && (forall j :: 1 <= j < |embeds'| - 1 ==> |embeds'[j].description| >= maxDescriptionLength)
  {
  }

  lemma CutAtLinesLater(embeds: seq<Embed>, cuts: seq<nat>, lines: seq<string>, i: nat, i': nat)
    requires CutAtLines(embeds, cuts, lines, i)
    requires i <= i' <= |lines|
    ensures CutAtLines(embeds, cuts, lines, i')
  {
  }

  /**
   * `text` is the lines `a` to `b` (at least one), closed as soon as it reached the cap: it
   * holds one line, or the text before its last line was still below `maxDescriptionLength`.
   */
  ghost predicate ClosedRun(text: string, lines: seq<string>, a: nat, b: nat, maxDescriptionLength: nat) {
    && a < b <= |lines| && text == Join(lines[a..b])
    && (b == a + 1 || |Join(lines[a..b - 1])| < maxDescriptionLength)
  }

  /** `text` is some run of consecutive lines closed at the cap. */
  ghost predicate ClosedAtCap(text: string, lines: seq<string>, maxDescriptionLength: nat) {
    exists a: nat, b: nat :: ClosedRun(text, lines, a, b, maxDescriptionLength)
  }

  /** A run closed at the cap overshoots the cap by less than its longest line. */
  lemma ClosedAtCapLength(text: string, lines: seq<string>, maxDescriptionLength: nat, longest: nat)
    requires ClosedAtCap(text, lines, maxDescriptionLength) && maxDescriptionLength > 0
    requires forall j :: 0 <= j < |lines| ==> |lines[j]| <= longest
    ensures |text| < maxDescriptionLength + longest
  {
    var a: nat, b: nat :| ClosedRun(text, lines, a, b, maxDescriptionLength);
    var last := lines[b - 1];
    assert text == Join(lines[a..b - 1]) + last by {
      JoinSliceSnoc(lines, a, b - 1);
      assert lines[a..b - 1 + 1] == lines[a..b];
    }
    if b == a + 1 {
      assert lines[a..b - 1] == [];
    }
  }

  /** Every listing embed after the header was closed at the cap. */
  ghost predicate AllClosedAtCap(embeds: seq<Embed>, lines: seq<string>, maxDescriptionLength: nat) {
    forall j :: 1 <= j < |embeds| ==> ClosedAtCap(embeds[j].description, lines, maxDescriptionLength)
  }

  /** The pending text is the lines from `start` on, and below the cap unless there are none. */
  ghost predicate Pending(message: string, lines: seq<string>, start: nat, i: nat, maxDescriptionLength: nat) {
    && start <= i <= |lines|
    && message == Join(lines[start..i])
    && (start == i || |message| < maxDescriptionLength)
  }

  lemma PendingEmpty(lines: seq<string>, i: nat, maxDescriptionLength: nat)
    requires i <= |lines|
    ensures Pending("", lines, i, i, maxDescriptionLength)
  {
    assert lines[i..i] == [];
  }

  lemma JoinSliceSnoc(lines: seq<string>, a: nat, i: nat)
    requires a <= i < |lines|
    ensures Join(lines[a..i + 1]) == Join(lines[a..i]) + lines[i]
  {
    assert lines[a..i + 1] == lines[a..i] + [lines[i]];
    JoinSnoc(lines[a..i], lines[i]);
  }

  /** Appending the next line to pending text gives a run that is closed at the cap. */
  lemma PendingAppend(message: string, lines: seq<string>, start: nat, i: nat, maxDescriptionLength: nat)
    requires Pending(message, lines, start, i, maxDescriptionLength) && i < |lines|
    ensures message + lines[i] == Join(lines[start..i + 1])
    ensures ClosedAtCap(message + lines[i], lines, maxDescriptionLength)
    ensures |message + lines[i]| < maxDescriptionLength ==>
              Pending(message + lines[i], lines, start, i + 1, maxDescriptionLength)
  {
    JoinSliceSnoc(lines, start, i);
    assert Join(lines[start..i + 1 - 1]) == message by {
      assert i + 1 - 1 == i;
    }
    assert ClosedRun(message + lines[i], lines, start, i + 1, maxDescriptionLength);
  }

  /** Pending text that is not empty is itself a run closed at the cap. */
  lemma PendingClosed(message: string, lines: seq<string>, start: nat, i: nat, maxDescriptionLength: nat)
    requires Pending(message, lines, start, i, maxDescriptionLength) && start < i
    ensures ClosedAtCap(message, lines, maxDescriptionLength)
  {
    JoinSliceSnoc(lines, start, i - 1);
    assert i - 1 + 1 == i;
    assert ClosedRun(message, lines, start, i, maxDescriptionLength);
  }

  lemma AllClosedAtCapExtend(embeds: seq<Embed>, lines: seq<string>, maxDescriptionLength: nat, message: string)
    requires AllClosedAtCap(embeds, lines, maxDescriptionLength)
    requires ClosedAtCap(message, lines, maxDescriptionLength)
    ensures AllClosedAtCap(embeds + [Embed(None, message)], lines, maxDescriptionLength)
  {
    var embeds' := embeds + [Embed(None, message)];
    forall j | 1 <= j < |embeds'| ensures ClosedAtCap(embeds'[j].description, lines, maxDescriptionLength) {
      if j < |embeds| {
        assert embeds'[j] == embeds[j];
      }
    }
  }

  /** What holds at the top of the packing loop, after `i` lines. */
  ghost predicate Packed(header: Embed, embeds: seq<Embed>, cuts: seq<nat>, message: string, lines: seq<string>,
                         start: nat, i: nat, limits: EmbedLimits) {
    && 1 <= |embeds| <= limits.maxEmbeds && embeds[0] == header
    && FullListings(embeds, limits.maxDescriptionLength)
    && CutAtLines(embeds, cuts, lines, i)
    && Descriptions(embeds) + message == Join(lines[..i])
    && Pending(message, lines, start, i, limits.maxDescriptionLength)
    && AllClosedAtCap(embeds, lines, limits.maxDescriptionLength)
  }

  /** The embeds as the report sends them, except for whether the listing is complete. */
  ghost predicate WellPacked(header: Embed, embeds: seq<Embed>, lines: seq<string>, limits: EmbedLimits) {
    && 1 <= |embeds| <= limits.maxEmbeds && embeds[0] == header
    && (forall j :: 1 <= j < |embeds| ==> embeds[j].title.None? && |embeds[j].description| > 0)
    && (forall j :: 1 <= j < |embeds| - 1 ==> |embeds[j].description| >= limits.maxDescriptionLength)
    && (forall j :: 1 <= j <= |embeds| ==> WholeLines(Descriptions(embeds[..j]), lines))
    && AllClosedAtCap(embeds, lines, limits.maxDescriptionLength)
  }

  lemma PackedStart(header: Embed, lines: seq<string>, limits: EmbedLimits)
    requires header.title.Some? && limits.maxEmbeds >= 1
    ensures Packed(header, [header], [0], "", lines, 0, 0, limits)
  {
    PendingEmpty(lines, 0, limits.maxDescriptionLength);
    assert [header][..1] == [header];
    assert Descriptions([header]) == Descriptions([]) + "";
  }

  /** The next line joins the pending text, which stays below the cap. */
  lemma KeepStep(header: Embed, embeds: seq<Embed>, cuts: seq<nat>, message: string, lines: seq<string>,
                 start: nat, i: nat, limits: EmbedLimits)
    requires Packed(header, embeds, cuts, message, lines, start, i, limits) && i < |lines|
    requires |message + lines[i]| < limits.maxDescriptionLength
    ensures Packed(header, embeds, cuts, message + lines[i], lines, start, i + 1, limits)
  {
    PendingStep(embeds, message, lines, i);
    PendingAppend(message, lines, start, i, limits.maxDescriptionLength);
    CutAtLinesLater(embeds, cuts, lines, i, i + 1);
  }

  /** The next line brings the pending text to the cap, and it is closed as one more embed. */
  lemma FlushAtCap(header: Embed, embeds: seq<Embed>, cuts: seq<nat>, message: string, lines: seq<string>,
                   start: nat, i: nat, limits: EmbedLimits)
    requires Packed(header, embeds, cuts, message, lines, start, i, limits) && i < |lines|
    requires |lines[i]| > 0 && |message + lines[i]| >= limits.maxDescriptionLength && |embeds| < limits.maxEmbeds
    ensures Packed(header, embeds + [Embed(None, message + lines[i])], cuts + [i + 1], "", lines, i + 1, i + 1, limits)
  {
    var message' := message + lines[i];
    PendingStep(embeds, message, lines, i);
    PendingAppend(message, lines, start, i, limits.maxDescriptionLength);
    CutAtLinesLater(embeds, cuts, lines, i, i + 1);
    FlushStep(embeds, cuts, message', lines, i + 1);
    FullListingsExtend(embeds, limits.maxDescriptionLength, message');
    AllClosedAtCapExtend(embeds, lines, limits.maxDescriptionLength, message');
    PendingEmpty(lines, i + 1, limits.maxDescriptionLength);
    assert Descriptions(embeds + [Embed(None, message')]) + "" == Join(lines[..i + 1]);
  }

  /** Stopping with the embeds as they are; the listing is complete when nothing is pending. */
  lemma ConcludeAsIs(header: Embed, embeds: seq<Embed>, cuts: seq<nat>, message: string, lines: seq<string>,
                     start: nat, i: nat, limits: EmbedLimits)
    requires Packed(header, embeds, cuts, message, lines, start, i, limits)
    ensures WellPacked(header, embeds, lines, limits)
    ensures FullListings(embeds, limits.maxDescriptionLength)
    ensures Descriptions(embeds) <= Join(lines)
    ensures i == |lines| && message == "" ==> Descriptions(embeds) == Join(lines)
  {
    CutAtLinesPrefixes(embeds, cuts, lines, i);
    assert lines[..|lines|] == lines;
    assert embeds[..|embeds|] == embeds;
    WholeLinesPrefix(Descriptions(embeds), lines);
  }

  /** Closing the pending text as the last embed completes the listing. */
  lemma ConcludeWithLast(header: Embed, embeds: seq<Embed>, cuts: seq<nat>, message: string, lines: seq<string>,
                         start: nat, limits: EmbedLimits)
    requires Packed(header, embeds, cuts, message, lines, start, |lines|, limits)
    requires |message| > 0 && |embeds| < limits.maxEmbeds
    ensures WellPacked(header, embeds + [Embed(None, message)], lines, limits)
    ensures Descriptions(embeds + [Embed(None, message)]) == Join(lines)
  {
    var i := |lines|;
    FlushStep(embeds, cuts, message, lines, i);
    LastListing(embeds, limits.maxDescriptionLength, message);
    PendingClosed(message, lines, start, i, limits.maxDescriptionLength);
    AllClosedAtCapExtend(embeds, lines, limits.maxDescriptionLength, message);
    CutAtLinesPrefixes(embeds + [Embed(None, message)], cuts + [i], lines, i);
    assert lines[..i] == lines;
  }

  /**
   * Packs the listing lines into the report's embeds, after the header. A listing embed is
   * closed as soon as its text reaches the description cap; once the message holds
   * `maxEmbeds` embeds, the remaining lines are dropped. Lines still pending when the lines
   * run out form one last embed if there is room for it.
   */
  method BuildEmbeds(header: Embed, lines: seq<string>, limits: EmbedLimits) returns (embeds: seq<Embed>)
    requires header.title.Some?
    requires limits.maxEmbeds >= 1
    requires forall j :: 0 <= j < |lines| ==> |lines[j]| > 0
    ensures 1 <= |embeds| <= limits.maxEmbeds && embeds[0] == header
    ensures forall j :: 1 <= j < |embeds| ==> embeds[j].title.None? && |embeds[j].description| > 0
    ensures forall j :: 1 <= j < |embeds| - 1 ==> |embeds[j].description| >= limits.maxDescriptionLength
    ensures forall j :: 1 <= j <= |embeds| ==> WholeLines(Descriptions(embeds[..j]), lines)
    ensures |embeds| < limits.maxEmbeds ==> Descriptions(embeds) == Join(lines)
    ensures AllClosedAtCap(embeds, lines, limits.maxDescriptionLength)
    ensures Descriptions(embeds) <= Join(lines)
    ensures Descriptions(embeds) != Join(lines) ==>
              |embeds| == limits.maxEmbeds
              && forall j :: 1 <= j < |embeds| ==> |embeds[j].description| >= limits.maxDescriptionLength
  {
    embeds := [header];
    ghost var cuts: seq<nat> := [0];
    ghost var start: nat := 0;
    var message: string := "";
    var i := 0;
    var dropped := false;
    PackedStart(header, lines, limits);
    while i < |lines|
      // Kept as one fact (not split into its conjuncts): the step lemmas maintain it whole.
      invariant Packed(header, embeds, cuts, message, lines, start, i, limits) == true
      invariant !dropped
    {
      var next := message + lines[i];
      if |next| < limits.maxDescriptionLength {
        KeepStep(header, embeds, cuts, message, lines, start, i, limits);
        message := next;
        i := i + 1;
      } else if |embeds| >= limits.maxEmbeds {
        // Do not add any embeds past the cap: the remaining lines are dropped.
        dropped := true;
        break;
      } else {
        FlushAtCap(header, embeds, cuts, message, lines, start, i, limits);
        embeds, cuts := embeds + [Embed(None, next)], cuts + [i + 1];
        message := "";
        i := i + 1;
        start := i;
      }
    }
    if !dropped && |message| > 0 && |embeds| < limits.maxEmbeds {
      ConcludeWithLast(header, embeds, cuts, message, lines, start, limits);
      embeds := embeds + [Embed(None, message)];
    } else {
      ConcludeAsIs(header, embeds, cuts, message, lines, start, i, limits);
    }
  }
}
