/** The summary line: number of distinct courses, total credits over all
    entries, and weekly hours from the summed minutes, rounded half up. */
module Summary {
  import opened Wrappers
  import opened TimeGrid
  import opened Schedule
  import opened Grouping

  datatype Stats = Stats(totalCredits: int, courseCount: nat, weeklyHours: int)

  /** `new Set(classes.map(c => c.name)).size`: as many courses as the class
      list has groups, and never more than the entries. */
  function CourseCount(cs: seq<ClassEntry>): (n: nat)
    ensures n == |DistinctNames(cs)|
    ensures n <= |cs|
  {
    var names := DistinctNames(cs);
    DistinctCardinality(names);
    assert (set n | n in names) == Names(cs);
    |Names(cs)|
  }

  /** `c.credit || 0`: a credit that did not parse counts as 0. */
  function CreditOf(c: ClassEntry): int
  {
    c.credit.GetOr(0)
  }

  /** The credit `reduce`, from the first entry to the last. */
  function TotalCredits(cs: seq<ClassEntry>): (total: int)
    ensures (forall c :: c in cs ==> CreditOf(c) >= 0) ==> total >= 0
  {
    if |cs| == 0 then 0 else TotalCredits(cs[..|cs| - 1]) + CreditOf(cs[|cs| - 1])
  }

  predicate AllLabelled(cs: seq<ClassEntry>)
  {
    forall c :: c in cs ==> IsLabel(c.startTime) && IsLabel(c.endTime)
  }

  function Duration(c: ClassEntry): int
    requires IsLabel(c.startTime) && IsLabel(c.endTime)
  {
    TimeToMinutes(c.endTime) - TimeToMinutes(c.startTime)
  }

  /** The minutes `reduce`, from the first entry to the last. */
  function TotalMinutes(cs: seq<ClassEntry>): (total: int)
    requires AllLabelled(cs)
    ensures (forall c :: c in cs ==> Duration(c) >= 0) ==> total >= 0
  {
    if |cs| == 0 then 0
    else
      assert cs[|cs| - 1] in cs;
      TotalMinutes(cs[..|cs| - 1]) + Duration(cs[|cs| - 1])
  }

  /** `Math.round(minutes / 60)`: the whole number of hours nearest to the
      minutes, a half hour rounding up. */
  function RoundedHours(minutes: int): (hours: int)
    ensures 60 * hours - 30 <= minutes < 60 * hours + 30
  {
    (minutes + 30) / 60
  }

  /** `updateSummary`'s three values: the course count is at most the entry
      count, and the hours are the total minutes to the nearest hour. */
  function Summarize(cs: seq<ClassEntry>): (s: Stats)
    requires AllLabelled(cs)
    ensures s.courseCount <= |cs|
    ensures 60 * s.weeklyHours - 30 <= TotalMinutes(cs) < 60 * s.weeklyHours + 30
  {
    Stats(TotalCredits(cs), CourseCount(cs), RoundedHours(TotalMinutes(cs)))
  }

  // ---------- properties ----------

  /** A set built from a sequence without repeats has as many elements as the sequence. */
  lemma {:induction false} DistinctCardinality(names: seq<string>)
    requires forall i, j :: 0 <= i < j < |names| ==> names[i] != names[j]
    ensures |set n | n in names| == |names|
  {
    if |names| > 0 {
      var rest := names[..|names| - 1];
      var last := names[|names| - 1];
      assert names == rest + [last];
      assert last !in rest;
      assert (set n | n in names) == (set n | n in rest) + {last};
      DistinctCardinality(rest);
    }
  }

  /** Credits add up over a concatenation: every entry counts once, whatever its course. */
  lemma {:induction false} TotalCreditsConcat(a: seq<ClassEntry>, b: seq<ClassEntry>)
    ensures TotalCredits(a + b) == TotalCredits(a) + TotalCredits(b)
    decreases |b|
  {
    if |b| > 0 {
      var b', x := b[..|b| - 1], b[|b| - 1];
      assert (a + b)[..|a + b| - 1] == a + b';
      assert b[..|b| - 1] == b';
      TotalCreditsConcat(a, b');
    } else {
      assert a + b == a;
    }
  }

  /** An accepted submission adds its credit to the total; any other leaves the total alone. */
  lemma CreditsAfterSubmit(cs: seq<ClassEntry>, f: Form, confirmed: bool, id: int)
    ensures TotalCredits(AfterSubmit(cs, f, confirmed, id)) ==
              TotalCredits(cs) + (if Judge(cs, f, confirmed) == Accepted then f.credit.GetOr(0) else 0)
  {
    if Judge(cs, f, confirmed) == Accepted {
      var r := cs + [NewEntry(cs, f, id)];
      assert r[..|r| - 1] == cs;
    }
  }

  /** Removing a course takes exactly that course's credits off the total. */
  lemma {:induction false} CreditsAfterRemoveByName(cs: seq<ClassEntry>, name: string)
    ensures TotalCredits(WithoutName(cs, name)) == TotalCredits(cs) - TotalCredits(Named(cs, name))
  {
    if |cs| > 0 {
      var x, rest := cs[0], cs[1..];
      CreditsAfterRemoveByName(rest, name);
      assert cs == [x] + rest;
      CreditsCons(x, rest);
      if x.name == name {
        assert Named(cs, name) == [x] + Named(rest, name);
        assert WithoutName(cs, name) == WithoutName(rest, name);
        CreditsCons(x, Named(rest, name));
      } else {
        assert Named(cs, name) == Named(rest, name);
        assert WithoutName(cs, name) == [x] + WithoutName(rest, name);
        CreditsCons(x, WithoutName(rest, name));
      }
    }
  }

  /** The first entry's credit plus the rest's. */
  lemma CreditsCons(x: ClassEntry, rest: seq<ClassEntry>)
    ensures TotalCredits([x] + rest) == CreditOf(x) + TotalCredits(rest)
  {
    TotalCreditsConcat([x], rest);
    assert [x][..0] == [];
  }

  /** Minutes add up over a concatenation: every entry's duration counts once. */
  lemma {:induction false} TotalMinutesConcat(a: seq<ClassEntry>, b: seq<ClassEntry>)
    requires AllLabelled(a) && AllLabelled(b)
    ensures AllLabelled(a + b)
    ensures TotalMinutes(a + b) == TotalMinutes(a) + TotalMinutes(b)
    decreases |b|
  {
    if |b| > 0 {
      var b' := b[..|b| - 1];
      assert (a + b)[..|a + b| - 1] == a + b';
      assert forall c :: c in b' ==> c in b;
      TotalMinutesConcat(a, b');
    } else {
      assert a + b == a;
    }
  }

  /** An entry lasting a whole number of half hours, at least one and at most
      the nine hours of the grid. */
  predicate IsHalfHourSpan(c: ClassEntry)
  {
    IsLabel(c.startTime) && IsLabel(c.endTime) && 30 <= Duration(c) <= 540 && Duration(c) % 30 == 0
  }

  lemma WellTimedDuration(c: ClassEntry)
    requires WellTimed(c)
    ensures IsHalfHourSpan(c)
  {
    SlotSpan(c.startTime, c.endTime);
  }

  /** In a store that keeps its invariant the weekly minutes are a multiple of
      30, between 30 and 540 per entry. */
  lemma MinutesBounds(cs: seq<ClassEntry>)
    requires StoreInvariant(cs)
    ensures AllLabelled(cs)
    ensures 30 * |cs| <= TotalMinutes(cs) <= 540 * |cs|
    ensures TotalMinutes(cs) % 30 == 0
  {
    forall c | c in cs ensures IsHalfHourSpan(c) {
      WellTimedDuration(c);
    }
    SpanMinutesBounds(cs);
  }

  lemma {:induction false} SpanMinutesBounds(cs: seq<ClassEntry>)
    requires forall c :: c in cs ==> IsHalfHourSpan(c)
    ensures AllLabelled(cs)
    ensures 30 * |cs| <= TotalMinutes(cs) <= 540 * |cs|
    ensures TotalMinutes(cs) % 30 == 0
  {
    if |cs| > 0 {
      var pre, c := cs[..|cs| - 1], cs[|cs| - 1];
      assert forall e :: e in pre ==> e in cs;
      SpanMinutesBounds(pre);
      assert c in cs;
      assert TotalMinutes(cs) == TotalMinutes(pre) + Duration(c);
      SpanStep(TotalMinutes(pre), Duration(c), |pre|);
    }
  }

  /** One more half-hour span keeps the per-entry bounds. */
  lemma SpanStep(total: int, d: int, n: nat)
    requires 30 * n <= total <= 540 * n && total % 30 == 0
    requires 30 <= d <= 540 && d % 30 == 0
    ensures 30 * (n + 1) <= total + d <= 540 * (n + 1) && (total + d) % 30 == 0
  {
    HalfHoursAdd(total, d);
  }

  lemma HalfHoursAdd(a: int, b: int)
    requires a % 30 == 0 && b % 30 == 0
    ensures (a + b) % 30 == 0
  {
    assert a == 30 * (a / 30) && b == 30 * (b / 30);
    assert a + b == 30 * (a / 30 + b / 30);
  }

  // ---------- worked scenario ----------

  /** "Algorithms" on Monday 09:00-10:30 for 3 credits. */
  const MondayAlgorithms := Form("Algorithms", "", Some(3), 0, "09:00", "10:30")

  /** "Algorithms" again, on Wednesday 13:00-14:30. */
  const WednesdayAlgorithms := Form("Algorithms", "", Some(3), 2, "13:00", "14:30")

  /** Another course on Monday 10:00-11:00, overlapping the Monday lecture. */
  const MondayDataStructures := Form("Data Structures", "", Some(3), 0, "10:00", "11:00")

  /** The totals of a list of one entry. */
  lemma OneEntryTotals(e: ClassEntry)
    requires IsLabel(e.startTime) && IsLabel(e.endTime)
    ensures AllLabelled([e])
    ensures TotalCredits([e]) == CreditOf(e)
    ensures TotalMinutes([e]) == Duration(e)
    ensures CourseCount([e]) == 1
  {
    assert [e][..0] == [];
    assert Names([e]) == {e.name};
  }

  /** The totals of a list of two entries of one course. */
  lemma TwoEntryTotals(e1: ClassEntry, e2: ClassEntry)
    requires IsLabel(e1.startTime) && IsLabel(e1.endTime)
    requires IsLabel(e2.startTime) && IsLabel(e2.endTime)
    requires e1.name == e2.name
    ensures AllLabelled([e1, e2])
    ensures TotalCredits([e1, e2]) == CreditOf(e1) + CreditOf(e2)
    ensures TotalMinutes([e1, e2]) == Duration(e1) + Duration(e2)
    ensures CourseCount([e1, e2]) == 1
  {
    OneEntryTotals(e1);
    assert [e1, e2][..1] == [e1];
    assert Names([e1, e2]) == {e1.name};
  }

  /** The Monday lecture's labels: 09:00 before 10:30, 90 minutes apart. */
  lemma MondayLabels()
    ensures IsLabel("09:00") && IsLabel("10:30") && StrLess("09:00", "10:30")
    ensures TimeToMinutes("10:30") - TimeToMinutes("09:00") == 90
  {
  }

  /** The Wednesday lecture's labels: 13:00 before 14:30, 90 minutes apart. */
  lemma WednesdayLabels()
    ensures IsLabel("13:00") && IsLabel("14:30") && StrLess("13:00", "14:30")
    ensures TimeToMinutes("14:30") - TimeToMinutes("13:00") == 90
  {
  }

  /** Adding the Monday lecture to an empty list gives 3 credits, one course and
      90 minutes, which show as 2 hours. */
  lemma ScenarioFirstEntry(id: int)
    ensures var s := AfterSubmit([], MondayAlgorithms, false, id);
            && s == [NewEntry([], MondayAlgorithms, id)]
            && AllLabelled(s) && Summarize(s) == Stats(3, 1, 2)
  {
    var f := MondayAlgorithms;
    MondayLabels();
    assert Judge([], f, false) == Accepted;
    var e := NewEntry([], f, id);
    OneEntryTotals(e);
    assert Duration(e) == 90;
    assert RoundedHours(90) == 2;
  }

  /** A second lecture of the same course doubles the credits (credits count per
      entry), keeps one course with two times in its group, and shows 3 hours. */
  lemma ScenarioSecondEntry(id1: int, id2: int)
    ensures var s1 := [NewEntry([], MondayAlgorithms, id1)];
            var s := AfterSubmit(s1, WednesdayAlgorithms, false, id2);
            && s == s1 + [NewEntry(s1, WednesdayAlgorithms, id2)]
            && AllLabelled(s) && Summarize(s) == Stats(6, 1, 3)
            && DistinctNames(s) == ["Algorithms"]
            && |GroupOf(s, "Algorithms").times| == 2
  {
    var e1 := NewEntry([], MondayAlgorithms, id1);
    var s1 := [e1];
    WednesdayAccepted(s1);
    var e2 := NewEntry(s1, WednesdayAlgorithms, id2);
    assert s1 + [e2] == [e1, e2];
    SecondEntryTotals(e1, e2);
    SameNameCollapses(e1, e2);
  }

  /** The Wednesday lecture is accepted against any list of Monday entries. */
  lemma WednesdayAccepted(s1: seq<ClassEntry>)
    requires forall c :: c in s1 ==> c.day == 0
    ensures Judge(s1, WednesdayAlgorithms, false) == Accepted
  {
    WednesdayLabels();
  }

  /** The two lectures give 6 credits, 1 course and 180 minutes, shown as 3 hours. */
  lemma SecondEntryTotals(e1: ClassEntry, e2: ClassEntry)
    requires e1.name == e2.name && e1.credit == e2.credit == Some(3)
    requires e1.startTime == "09:00" && e1.endTime == "10:30"
    requires e2.startTime == "13:00" && e2.endTime == "14:30"
    ensures AllLabelled([e1, e2]) && Summarize([e1, e2]) == Stats(6, 1, 3)
  {
    MondayLabels();
    WednesdayLabels();
    TwoEntryTotals(e1, e2);
    assert RoundedHours(180) == 3;
  }

  /** An overlapping entry that the user does not confirm leaves the list as it was. */
  lemma ScenarioDeclinedOverlap(s: seq<ClassEntry>, id: int)
    requires |s| > 0 && s[0].day == 0 && s[0].startTime == "09:00" && s[0].endTime == "10:30"
    ensures Judge(s, MondayDataStructures, false).ConflictDeclined?
    ensures AfterSubmit(s, MondayDataStructures, false, id) == s
  {
    OverlapLabels();
    assert Conflicts(s[0], 0, "10:00", "11:00");
  }

  /** 10:00-11:00 is in order and shares the half hour from 10:00 with 09:00-10:30. */
  lemma OverlapLabels()
    ensures StrLess("10:00", "11:00") && StrLess("10:00", "10:30") && StrLess("09:00", "11:00")
  {
  }
}
