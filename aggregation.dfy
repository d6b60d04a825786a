/**
 * Turning the recorded snapshots into an attendance report: per-member counts in
 * first-appearance order, instructors set apart, and an attended/absent verdict for
 * everyone else.
 */
module Aggregation {
  import opened Sequences

  /** One entry of the verdict dictionary: a member id and whether they met the rate. */
  datatype Verdict = Verdict(member: int, attended: bool)

  /** Every id of every snapshot, in the order the report's nested loop visits them. */
  function Flatten(snapshots: seq<seq<int>>): seq<int> {
    if snapshots == [] then []
    else Flatten(snapshots[..|snapshots| - 1]) + snapshots[|snapshots| - 1]
  }

  /** How many times `m` occurs across all snapshots. */
  function Occurrences(snapshots: seq<seq<int>>, m: int): nat {
    multiset(Flatten(snapshots))[m]
  }

  /** The ids of `s` without repeats, each kept where it first appears (a dict's key order). */
  function Distinct(s: seq<int>): (r: seq<int>)
    ensures forall x :: x in r ==> x in s
  {
    if s == [] then []
    else
      var d := Distinct(s[..|s| - 1]);
      if s[|s| - 1] in d then d else d + [s[|s| - 1]]
  }

  /** The distinct ids are exactly the ids of `s`, each once. */
  lemma {:induction false} DistinctElements(s: seq<int>)
    ensures forall x :: x in Distinct(s) <==> x in s
    ensures NoDuplicates(Distinct(s))
  {
    if s != [] {
      var p := s[..|s| - 1];
      DistinctElements(p);
      assert s == p + [s[|s| - 1]];
    }
  }

  /** Extending the id list by one id extends its distinct ids by that id when it is new. */
  lemma DistinctSnoc(s: seq<int>, x: int)
    ensures Distinct(s + [x]) == if x in s then Distinct(s) else Distinct(s) + [x]
  {
    assert (s + [x])[..|s|] == s;
    DistinctElements(s);
  }

  lemma FlattenSnoc(snapshots: seq<seq<int>>, i: nat)
    requires i < |snapshots|
    ensures Flatten(snapshots[..i + 1]) == Flatten(snapshots[..i]) + snapshots[i]
  {
    assert snapshots[..i + 1][..i] == snapshots[..i];
  }

  /** The tally dictionary: each id that was seen, mapped to its number of occurrences. */
  function Totals(snapshots: seq<seq<int>>): map<int, nat> {
    map m | m in Flatten(snapshots) :: Occurrences(snapshots, m)
  }

  /** The verdict rule: attended when count / numSnapshots reaches the rate (inclusive). */
  predicate MeetsRate(count: nat, numSnapshots: nat, rate: real)
    requires numSnapshots > 0
  {
    (count as real) / (numSnapshots as real) >= rate
  }

  /** The ids of `members` whose registration as instructor is `registered`, in the order of `members`. */
  function Select(members: seq<int>, registry: seq<int>, registered: bool): seq<int> {
    if members == [] then []
    else
      var m := members[|members| - 1];
      Select(members[..|members| - 1], registry, registered) + (if (m in registry) == registered then [m] else [])
  }

  /** The instructors-present list: the registered instructors among `members`. */
  function PresentInstructors(members: seq<int>, registry: seq<int>): seq<int> {
    Select(members, registry, true)
  }

  /** The verdict dictionary for `members`, skipping registered instructors. */
  function Verdicts(members: seq<int>, totals: map<int, nat>, numSnapshots: nat, rate: real, registry: seq<int>): seq<Verdict>
    requires numSnapshots > 0
    requires forall m :: m in members ==> m in totals
  {
    if members == [] then []
    else
      var m := members[|members| - 1];
      Verdicts(members[..|members| - 1], totals, numSnapshots, rate, registry)
        + (if m in registry then [] else [Verdict(m, MeetsRate(totals[m], numSnapshots, rate))])
  }

  function Members(vs: seq<Verdict>): seq<int> {
    seq(|vs|, i requires 0 <= i < |vs| => vs[i].member)
  }

  /** The ids of `ms` occur in `flat` in the order of their first appearance there. */
  predicate InFirstAppearanceOrder(flat: seq<int>, ms: seq<int>) {
    && (forall x :: x in ms ==> x in flat)
    && forall i, j :: 0 <= i < j < |ms| ==> IndexOf(flat, ms[i]) < IndexOf(flat, ms[j])
  }

  /** `total` counts the ids of `seen`: it has exactly those keys, each with its number of occurrences. */
  ghost predicate Counts(total: map<int, nat>, seen: seq<int>) {
    && (forall m :: m in total <==> m in seen)
    && (forall m :: m in total ==> total[m] == multiset(seen)[m])
  }

  /** One step of the inner tally loop. */
  lemma CountsStep(total: map<int, nat>, seen: seq<int>, x: int)
    requires Counts(total, seen)
    ensures x in total ==> Counts(total[x := total[x] + 1], seen + [x])
    ensures x !in total ==> Counts(total[x := 1], seen + [x])
  {
    assert multiset(seen + [x]) == multiset(seen) + multiset{x};
  }

  lemma CountsAll(total: map<int, nat>, snapshots: seq<seq<int>>)
    requires Counts(total, Flatten(snapshots))
    ensures total == Totals(snapshots)
  {
    var t := Totals(snapshots);
    forall m ensures m in total <==> m in t {
      assert m in t <==> m in Flatten(snapshots);
    }
    assert total.Keys == t.Keys;
  }

  /** Distinct keeps ids in the order in which they first appear. */
  lemma {:induction false} DistinctInFirstAppearanceOrder(s: seq<int>)
    ensures InFirstAppearanceOrder(s, Distinct(s))
  {
    DistinctElements(s);
    if s != [] {
      var p, x := s[..|s| - 1], s[|s| - 1];
      assert s == p + [x];
      DistinctInFirstAppearanceOrder(p);
      DistinctElements(p);
      forall y | y in p
        ensures IndexOf(s, y) == IndexOf(p, y)
      {
        var k := IndexOf(p, y);
        assert s[..k] == p[..k];
        IndexOfUnique(s, y, k);
      }
      if x !in p {
        assert s[..|p|] == p;
        IndexOfUnique(s, x, |p|);
      }
    }
  }

  lemma MembersSnoc(vs: seq<Verdict>, v: Verdict)
    ensures Members(vs + [v]) == Members(vs) + [v.member]
  {
  }

  /** The verdict dictionary's keys are the non-instructors among `members`. */
  lemma {:induction false} VerdictMembers(members: seq<int>, totals: map<int, nat>, numSnapshots: nat, rate: real, registry: seq<int>)
    requires numSnapshots > 0
    requires forall m :: m in members ==> m in totals
    ensures Members(Verdicts(members, totals, numSnapshots, rate, registry)) == Select(members, registry, false)
  {
    if members != [] {
      var p, m := members[..|members| - 1], members[|members| - 1];
      VerdictMembers(p, totals, numSnapshots, rate, registry);
      if m !in registry {
        MembersSnoc(Verdicts(p, totals, numSnapshots, rate, registry), Verdict(m, MeetsRate(totals[m], numSnapshots, rate)));
      }
    }
  }

  /** Each verdict is the rate rule applied to that member's count. */
  lemma {:induction false} VerdictValues(members: seq<int>, totals: map<int, nat>, numSnapshots: nat, rate: real, registry: seq<int>)
    requires numSnapshots > 0
    requires forall m :: m in members ==> m in totals
    ensures forall v :: v in Verdicts(members, totals, numSnapshots, rate, registry) ==>
              v.member in totals && v.attended == MeetsRate(totals[v.member], numSnapshots, rate)
  {
    if members != [] {
      VerdictValues(members[..|members| - 1], totals, numSnapshots, rate, registry);
    }
  }

  /** Splitting by registration loses nobody and invents nobody. */
  lemma {:induction false} SelectPartition(members: seq<int>, registry: seq<int>)
    ensures forall m :: m in Select(members, registry, true) <==> m in members && m in registry
    ensures forall m :: m in Select(members, registry, false) <==> m in members && m !in registry
    ensures |Select(members, registry, true)| + |Select(members, registry, false)| == |members|
  {
    if members != [] {
      var p := members[..|members| - 1];
      assert members == p + [members[|members| - 1]];
      SelectPartition(p, registry);
    }
  }

  lemma OrderedPrefix(flat: seq<int>, ms: seq<int>, n: nat)
    requires InFirstAppearanceOrder(flat, ms) && n <= |ms|
    ensures InFirstAppearanceOrder(flat, ms[..n])
  {
    forall i, j | 0 <= i < j < n
      ensures IndexOf(flat, ms[..n][i]) < IndexOf(flat, ms[..n][j])
    {
      assert ms[..n][i] == ms[i] && ms[..n][j] == ms[j];
    }
  }

  /** Every id of an ordered list first appears before its last id. */
  lemma OrderedLast(flat: seq<int>, ms: seq<int>)
    requires InFirstAppearanceOrder(flat, ms) && ms != []
    ensures forall y :: y in ms[..|ms| - 1] ==> IndexOf(flat, y) < IndexOf(flat, ms[|ms| - 1])
  {
    forall y | y in ms[..|ms| - 1]
      ensures IndexOf(flat, y) < IndexOf(flat, ms[|ms| - 1])
    {
      var k :| 0 <= k < |ms| - 1 && ms[..|ms| - 1][k] == y;
      assert ms[k] == y;
    }
  }

  lemma OrderedSnoc(flat: seq<int>, ms: seq<int>, m: int)
    requires InFirstAppearanceOrder(flat, ms) && m in flat
    requires forall y :: y in ms ==> IndexOf(flat, y) < IndexOf(flat, m)
    ensures InFirstAppearanceOrder(flat, ms + [m])
  {
    var r := ms + [m];
    forall i, j | 0 <= i < j < |r|
      ensures IndexOf(flat, r[i]) < IndexOf(flat, r[j])
    {
      assert r[i] == ms[i];
      if j < |ms| {
        assert r[j] == ms[j];
      }
    }
  }

  /** Selecting ids does not reorder them. */
  lemma {:induction false} SelectKeepsOrder(flat: seq<int>, members: seq<int>, registry: seq<int>, registered: bool)
    requires InFirstAppearanceOrder(flat, members)
    ensures InFirstAppearanceOrder(flat, Select(members, registry, registered))
  {
    if members != [] {
      var p, m := members[..|members| - 1], members[|members| - 1];
      OrderedPrefix(flat, members, |members| - 1);
      OrderedLast(flat, members);
      SelectKeepsOrder(flat, p, registry, registered);
      SelectPartition(p, registry);
      if (m in registry) == registered {
        OrderedSnoc(flat, Select(p, registry, registered), m);
      }
    }
  }

  /**
   * What the report computes from the snapshots: the verdicts cover every id seen that is
   * not an instructor, once each and in first-appearance order, each decided by its number
   * of occurrences against the rate; the instructors present are the registered ids seen.
   */
  lemma ReportCharacterisation(snapshots: seq<seq<int>>, rate: real, registry: seq<int>)
    requires |snapshots| > 0
    ensures var members := Distinct(Flatten(snapshots));
            var verdicts := Verdicts(members, Totals(snapshots), |snapshots|, rate, registry);
            var present := PresentInstructors(members, registry);
            && (forall m :: m in Members(verdicts) <==> m in Flatten(snapshots) && m !in registry)
            && (forall m :: m in present <==> m in Flatten(snapshots) && m in registry)
            && (forall v :: v in verdicts ==> v.attended == MeetsRate(Occurrences(snapshots, v.member), |snapshots|, rate))
            && InFirstAppearanceOrder(Flatten(snapshots), Members(verdicts))
            && InFirstAppearanceOrder(Flatten(snapshots), present)
            && NoDuplicates(Members(verdicts)) && NoDuplicates(present)
            && |present| + |verdicts| == |members|
  {
    var flat := Flatten(snapshots);
    var members := Distinct(flat);
    DistinctElements(flat);
    DistinctInFirstAppearanceOrder(flat);
    VerdictMembers(members, Totals(snapshots), |snapshots|, rate, registry);
    VerdictValues(members, Totals(snapshots), |snapshots|, rate, registry);
    SelectPartition(members, registry);
    SelectKeepsOrder(flat, members, registry, true);
    SelectKeepsOrder(flat, members, registry, false);
    OrderedHasNoDuplicates(flat, Members(Verdicts(members, Totals(snapshots), |snapshots|, rate, registry)));
    OrderedHasNoDuplicates(flat, PresentInstructors(members, registry));
  }

  /** The worked example's snapshots: ids 1 and 2, then 1 alone, then 1, 2 and 3. */
  lemma ExampleFlatten(snapshots: seq<seq<int>>)
    requires snapshots == [[1, 2], [1], [1, 2, 3]]
    ensures Flatten(snapshots) == [1, 2, 1, 1, 2, 3]
  {
    assert |snapshots[..0]| == 0;
    FlattenSnoc(snapshots, 0);
    FlattenSnoc(snapshots, 1);
    FlattenSnoc(snapshots, 2);
    assert snapshots[..3] == snapshots;
  }

  /** One more id, given the distinct ids so far. */
  lemma DistinctStep(s: seq<int>, d: seq<int>, x: int)
    requires Distinct(s) == d
    ensures x in d ==> Distinct(s + [x]) == d
    ensures x !in d ==> Distinct(s + [x]) == d + [x]
  {
    DistinctSnoc(s, x);
    DistinctElements(s);
  }

  lemma ExampleDistinct(flat: seq<int>)
    requires flat == [1, 2, 1, 1, 2, 3]
    ensures Distinct(flat) == [1, 2, 3]
  {
    DistinctOfPattern(1, 2, 3);
  }

  lemma DistinctOfPrefix(a: int, b: int)
    requires a != b
    ensures Distinct([a, b, a]) == [a, b]
  {
    var s1: seq<int> := [a];
    DistinctStep([], [], a);
    assert [] + [a] == s1;
    DistinctStep(s1, [a], b);
    var s2 := s1 + [b];
    DistinctStep(s2, [a, b], a);
    assert s2 + [a] == [a, b, a];
  }

  /** The distinct ids of the worked example's pattern, for any three different ids. */
  lemma DistinctOfPattern(a: int, b: int, c: int)
    requires a != b && b != c && a != c
    ensures Distinct([a, b, a, a, b, c]) == [a, b, c]
  {
    var d := [a, b];
    var s3 := [a, b, a];
    DistinctOfPrefix(a, b);
    DistinctStep(s3, d, a);
    var s4 := s3 + [a];
    DistinctStep(s4, d, b);
    var s5 := s4 + [b];
    DistinctStep(s5, d, c);
    assert s5 + [c] == [a, b, a, a, b, c];
  }

  /** The ids of the worked example and how often each occurs. */
  lemma ExampleOccurrences(flat: seq<int>)
    requires flat == [1, 2, 1, 1, 2, 3]
    ensures multiset(flat)[1] == 3 && multiset(flat)[2] == 2 && multiset(flat)[3] == 1
    ensures forall m :: m in flat <==> m == 1 || m == 2 || m == 3
  {
    var s3 := [1, 2, 1];
    assert multiset(s3)[1] == 2 && multiset(s3)[2] == 1;
    assert flat == s3 + [1, 2, 3];
    assert multiset(flat) == multiset(s3) + multiset([1, 2, 3]);
  }

  lemma ExampleTotals(snapshots: seq<seq<int>>)
    requires snapshots == [[1, 2], [1], [1, 2, 3]]
    ensures Totals(snapshots) == map[1 := 3, 2 := 2, 3 := 1]
  {
    ExampleFlatten(snapshots);
    ExampleOccurrences(Flatten(snapshots));
    var total: map<int, nat> := map[1 := 3, 2 := 2, 3 := 1];
    var t := Totals(snapshots);
    assert t.Keys == total.Keys;
  }

  /** At rate 0.5 over 3 snapshots, 3 and 2 sightings meet the threshold and 1 does not. */
  lemma ExampleRates()
    ensures MeetsRate(3, 3, 0.5) && MeetsRate(2, 3, 0.5) && !MeetsRate(1, 3, 0.5)
  {
    assert (3 as real) / (3 as real) == 1.0;
    assert (2 as real) / (3 as real) > 0.5;
    assert (1 as real) / (3 as real) < 0.5;
  }

  /** The verdicts and instructors of the worked example, from its members and counts. */
  lemma ExampleClassification(members: seq<int>, totals: map<int, nat>)
    requires members == [1, 2, 3] && totals == map[1 := 3, 2 := 2, 3 := 1]
    ensures Verdicts(members, totals, 3, 0.5, []) == [Verdict(1, true), Verdict(2, true), Verdict(3, false)]
    ensures Verdicts(members, totals, 3, 0.5, [1]) == [Verdict(2, true), Verdict(3, false)]
    ensures PresentInstructors(members, [1]) == [1]
  {
    ExampleRates();
    var m2 := members[..2];
    var m1 := m2[..1];
    assert |m1| == 1 && m1[0] == 1 && m1[..0] == [];
    assert |m2| == 2 && m2[1] == 2 && m2[..1] == m1;
    assert members[2] == 3 && members[..2] == m2;
    assert totals[1] == 3 && totals[2] == 2 && totals[3] == 1;
    var m0 := m1[..0];
    assert Verdicts(m0, totals, 3, 0.5, []) == [] && Verdicts(m0, totals, 3, 0.5, [1]) == [];
    assert Select(m0, [1], true) == [];
    assert 1 in [1] && 2 !in [1] && 3 !in [1];
    var v1 := Verdicts(m1, totals, 3, 0.5, []);
    assert v1 == [Verdict(1, true)];
    var v2 := Verdicts(m2, totals, 3, 0.5, []);
    assert v2 == v1 + [Verdict(2, true)];
    var w1 := Verdicts(m1, totals, 3, 0.5, [1]);
    assert w1 == [];
    var w2 := Verdicts(m2, totals, 3, 0.5, [1]);
    assert w2 == [Verdict(2, true)];
    var p1 := Select(m1, [1], true);
    assert p1 == [1];
    assert Select(m2, [1], true) == p1;
  }

  /**
   * At rate 0.5, id 1 attends 3 of 3 snapshots, id 2 attends 2 of 3 (attended), and id 3
   * attends 1 of 3 (absent); once 1 is a registered instructor it leaves the verdicts and
   * is the only instructor present.
   */
  lemma WorkedExample(snapshots: seq<seq<int>>)
    requires snapshots == [[1, 2], [1], [1, 2, 3]]
    ensures var members := Distinct(Flatten(snapshots));
            var totals := Totals(snapshots);
            && Verdicts(members, totals, 3, 0.5, []) == [Verdict(1, true), Verdict(2, true), Verdict(3, false)]
            && Verdicts(members, totals, 3, 0.5, [1]) == [Verdict(2, true), Verdict(3, false)]
            && PresentInstructors(members, [1]) == [1]
  {
    ExampleFlatten(snapshots);
    ExampleDistinct(Flatten(snapshots));
    ExampleTotals(snapshots);
    ExampleClassification(Distinct(Flatten(snapshots)), Totals(snapshots));
  }

  /** Ids kept in first-appearance order are never repeated. */
  lemma OrderedHasNoDuplicates(flat: seq<int>, ms: seq<int>)
    requires InFirstAppearanceOrder(flat, ms)
    ensures NoDuplicates(ms)
  {
  }

  /** Counts every id of every snapshot (the nested loop over snapshots and their members). */
  method TallySnapshots(snapshots: seq<seq<int>>) returns (order: seq<int>, total: map<int, nat>)
    ensures order == Distinct(Flatten(snapshots))
    ensures total == Totals(snapshots)
  {
    order, total := [], map[];
    ghost var seen: seq<int> := [];
    var i := 0;
    while i < |snapshots|
      invariant 0 <= i <= |snapshots|
      invariant seen == Flatten(snapshots[..i])
      invariant order == Distinct(seen)
      invariant Counts(total, seen)
    {
      var snapshot := snapshots[i];
      var j := 0;
      while j < |snapshot|
        invariant 0 <= j <= |snapshot|
        invariant seen == Flatten(snapshots[..i]) + snapshot[..j]
        invariant order == Distinct(seen)
        invariant Counts(total, seen)
      {
        var member := snapshot[j];
        DistinctSnoc(seen, member);
        CountsStep(total, seen, member);
        if member in total {
          total := total[member := total[member] + 1];
        } else {
          total := total[member := 1];
          order := order + [member];
        }
        seen := seen + [member];
        TakeSnoc(snapshot, j);
        j := j + 1;
      }
      assert snapshot[..j] == snapshot;
      FlattenSnoc(snapshots, i);
      i := i + 1;
    }
    assert snapshots[..i] == snapshots;
    CountsAll(total, snapshots);
  }

  /**
   * Sets registered instructors apart and gives every other member a verdict, visiting
   * the tally in its key order.
   */
  method ClassifyMembers(order: seq<int>, total: map<int, nat>, numSnapshots: nat, rate: real, registry: seq<int>)
    returns (instructorsPresent: seq<int>, verdicts: seq<Verdict>)
    requires numSnapshots > 0
    requires forall m :: m in order ==> m in total
    ensures instructorsPresent == PresentInstructors(order, registry)
    ensures verdicts == Verdicts(order, total, numSnapshots, rate, registry)
  {
    instructorsPresent, verdicts := [], [];
    var i := 0;
    while i < |order|
      invariant 0 <= i <= |order|
      invariant instructorsPresent == PresentInstructors(order[..i], registry)
      invariant verdicts == Verdicts(order[..i], total, numSnapshots, rate, registry)
    {
      var member := order[i];
      var count := total[member];
      assert order[..i + 1][..i] == order[..i];
      i := i + 1;
      if member in registry {
        instructorsPresent := instructorsPresent + [member];
        continue;
      }
      if (count as real) / (numSnapshots as real) >= rate {
        verdicts := verdicts + [Verdict(member, true)];
      } else {
        verdicts := verdicts + [Verdict(member, false)];
      }
    }
    assert order[..i] == order;
  }
}
