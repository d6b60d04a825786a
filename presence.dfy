/**
 * The bot's presence line: how many different people the stored snapshots have seen,
 * shown as "<n> student" or "<n> students".
 */
module Presence {
  import opened Wrappers
  import opened Sequences
  import opened Text
  import opened Store
  import opened Aggregation

  /** The number of different ids over all snapshots, instructors included. */
  method CountStudents(snapshots: seq<seq<int>>) returns (count: nat)
    ensures count == |set m | m in Flatten(snapshots)|
    ensures count == |Distinct(Flatten(snapshots))|
    ensures snapshots == [] ==> count == 0
  {
    var order, total := TallySnapshots(snapshots);
    count := |total|;
    TotalsKeys(snapshots);
    DistinctCount(Flatten(snapshots));
  }

  /** The distinct ids of `s` are as many as the different values in `s`. */
  lemma DistinctCount(s: seq<int>)
    ensures |Distinct(s)| == |set m | m in s|
  {
    DistinctElements(s);
    DistinctCardinality(Distinct(s));
    var a, b := set m | m in Distinct(s), set m | m in s;
    forall m ensures m in a <==> m in b {
      assert m in a <==> m in Distinct(s);
    }
    assert a == b;
  }

  /** The tally has one entry per different id. */
  lemma TotalsKeys(snapshots: seq<seq<int>>)
    ensures |Totals(snapshots)| == |set m | m in Flatten(snapshots)|
  {
    assert Totals(snapshots).Keys == set m | m in Flatten(snapshots);
  }

  /** The activity label, with the plural "s" for every count but one. */
  function ActivityName(n: nat): (name: string)
    ensures |name| > 0 && (name[|name| - 1] == 's' <==> n != 1)
  {
    NatToDecimal(n) + " student" + (if n != 1 then "s" else "")
  }

  /** The leading run of digits of `s`. */
  function LeadingDigits(s: string): (d: string)
    ensures AllDigits(d) && d <= s
  {
    if s == [] || !IsDigit(s[0]) then "" else [s[0]] + LeadingDigits(s[1..])
  }

  lemma {:induction false} LeadingDigitsOf(digits: string, rest: string)
    requires AllDigits(digits)
    requires rest == [] || !IsDigit(rest[0])
    ensures LeadingDigits(digits + rest) == digits
    decreases |digits|
  {
    if digits == [] {
      assert digits + rest == rest;
    } else {
      assert (digits + rest)[0] == digits[0];
      assert (digits + rest)[1..] == digits[1..] + rest;
      LeadingDigitsOf(digits[1..], rest);
    }
  }

  /** Reading the number at the head of the label gives the count back. */
  lemma ActivityNameReadsBack(n: nat)
    ensures ParseNat(LeadingDigits(ActivityName(n))) == n
  {
    var digits := NatToDecimal(n);
    var rest := " student" + (if n != 1 then "s" else "");
    assert ActivityName(n) == digits + rest;
    assert rest[0] == ' ';
    LeadingDigitsOf(digits, rest);
    NatDecimalRoundTrip(n);
  }

  /**
   * One run of the presence loop: the label for the stored snapshots. Reading the
   * snapshots fails when their key is absent.
   */
  method PresenceTask(db: Database) returns (r: Result<string, StoreError>)
    ensures db.snapshots.None? ==> r == Failure(MissingKey(SnapshotsKey))
    ensures db.snapshots.Some? ==> r == Success(ActivityName(|set m | m in Flatten(db.snapshots.value)|))
  {
    var stored := db.GetSnapshots();
    if stored.Failure? {
      return Failure(stored.error);
    }
    var count := CountStudents(stored.value);
    r := Success(ActivityName(count));
  }

  /**
   * Unlike the report, the presence count does not set registered instructors apart: it is
   * the report's instructors present plus its members with a verdict.
   */
  lemma {:induction false} CountIncludesInstructors(snapshots: seq<seq<int>>, rate: real, registry: seq<int>)
    requires |snapshots| > 0
    ensures var members := Distinct(Flatten(snapshots));
            |set m | m in Flatten(snapshots)|
              == |PresentInstructors(members, registry)| + |Verdicts(members, Totals(snapshots), |snapshots|, rate, registry)|
  {
    var flat := Flatten(snapshots);
    var members := Distinct(flat);
    DistinctCount(flat);
    DistinctElements(flat);
    assert forall m :: m in members ==> m in Totals(snapshots);
    VerdictMembers(members, Totals(snapshots), |snapshots|, rate, registry);
    SelectPartition(members, registry);
    var verdicts := Verdicts(members, Totals(snapshots), |snapshots|, rate, registry);
    assert |Members(verdicts)| == |verdicts|;
  }
}
