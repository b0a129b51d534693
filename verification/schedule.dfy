/** The schedule store: the list of class entries, the checks a submission
    passes before it is added (time order, overlap with an entry on the same
    day), the colour a new entry gets, and the two removals. */
module Schedule {
  import opened Wrappers
  import opened Seqs
  import opened TimeGrid

  /** One scheduled occurrence of a course. `day` indexes `Days`; the times are
      labels as the form supplies them; `credit` is None when the credit field
      did not parse as a number (`parseInt` gave NaN). */
  datatype ClassEntry = ClassEntry(
    id: int,
    name: string,
    room: string,
    day: int,
    startTime: string,
    endTime: string,
    color: int,
    credit: Option<int>)

  /** The values a submission reads from the form. */
  datatype Form = Form(
    name: string,
    room: string,
    credit: Option<int>,
    day: int,
    startTime: string,
    endTime: string)

  /** What a submission comes to: refused for its times, dropped because the user
      declined to add it over a conflict, or accepted. */
  datatype Verdict = TimeOrderError | ConflictDeclined(conflict: ClassEntry) | Accepted

  /** Number of entry colours; colours are 1 to ColourCount. */
  const ColourCount: int := 8

  // ---------- the submission gate ----------

  /** The overlap test against one existing entry:
      same day and `!(c.endTime <= startTime || c.startTime >= endTime)`, which is
      the overlap of the half-open spans in string order. */
  function Conflicts(c: ClassEntry, day: int, startTime: string, endTime: string): (overlap: bool)
    ensures overlap <==> c.day == day && StrLess(startTime, c.endTime) && StrLess(c.startTime, endTime)
  {
    c.day == day && !(Le(c.endTime, startTime) || Ge(c.startTime, endTime))
  }

  /** Two entries conflict with each other whichever of them is the candidate. */
  lemma ConflictIsSymmetric(a: ClassEntry, b: ClassEntry)
    ensures Conflicts(a, b.day, b.startTime, b.endTime) <==> Conflicts(b, a.day, a.startTime, a.endTime)
  {
  }

  /** On well-formed labels the overlap test is half-open interval overlap in minutes. */
  lemma ConflictIsMinuteOverlap(c: ClassEntry, day: int, startTime: string, endTime: string)
    requires IsClockLabel(c.startTime) && IsClockLabel(c.endTime)
    requires IsClockLabel(startTime) && IsClockLabel(endTime)
    ensures Conflicts(c, day, startTime, endTime) <==>
              c.day == day &&
              TimeToMinutes(startTime) < TimeToMinutes(c.endTime) &&
              TimeToMinutes(c.startTime) < TimeToMinutes(endTime)
  {
    LabelOrder(startTime, c.endTime);
    LabelOrder(c.startTime, endTime);
  }

  /** Spans that only touch at 10:00 do not conflict. */
  lemma TouchingSpansDoNotConflict(c: ClassEntry)
    requires c.startTime == "09:00" && c.endTime == "10:00"
    ensures !Conflicts(c, c.day, "10:00", "11:00")
  {
  }

  /** Spans that share the half hour from 10:00 conflict. */
  lemma SharedHalfHourConflicts(c: ClassEntry)
    requires c.startTime == "09:00" && c.endTime == "10:30"
    ensures Conflicts(c, c.day, "10:00", "11:00")
  {
  }

  /** The conflict `find`: the first entry in list order that overlaps the candidate. */
  function FindConflict(cs: seq<ClassEntry>, day: int, startTime: string, endTime: string): (r: Option<ClassEntry>)
    ensures r.None? <==> forall i :: 0 <= i < |cs| ==> !Conflicts(cs[i], day, startTime, endTime)
    ensures r.Some? ==> exists i :: 0 <= i < |cs| && cs[i] == r.value && Conflicts(cs[i], day, startTime, endTime) &&
                                   forall j :: 0 <= j < i ==> !Conflicts(cs[j], day, startTime, endTime)
  {
    Find(cs, (c: ClassEntry) => Conflicts(c, day, startTime, endTime))
  }

  /** The decision a submission gets from the list it is submitted against. */
  function Judge(cs: seq<ClassEntry>, f: Form, confirmed: bool): (v: Verdict)
    ensures v == TimeOrderError <==> Ge(f.startTime, f.endTime)
    ensures v.ConflictDeclined? ==>
              !confirmed && v.conflict in cs && Conflicts(v.conflict, f.day, f.startTime, f.endTime)
    ensures v.ConflictDeclined? ==> FindConflict(cs, f.day, f.startTime, f.endTime) == Some(v.conflict)
    ensures v == Accepted <==>
              StrLess(f.startTime, f.endTime) &&
              (confirmed || forall c :: c in cs ==> !Conflicts(c, f.day, f.startTime, f.endTime))
  {
    if Ge(f.startTime, f.endTime) then TimeOrderError
    else
      match FindConflict(cs, f.day, f.startTime, f.endTime)
      case Some(conflict) => if confirmed then Accepted else ConflictDeclined(conflict)
      case None => Accepted
  }

  // ---------- colours ----------

  predicate AllColoursInRange(cs: seq<ClassEntry>)
  {
    forall c :: c in cs ==> 1 <= c.color <= ColourCount
  }

  /** Entries of the same course share one colour. */
  predicate ColoursConsistent(cs: seq<ClassEntry>)
  {
    forall a, b :: a in cs && b in cs && a.name == b.name ==> a.color == b.color
  }

  function NameIs(name: string): ClassEntry -> bool
  {
    (c: ClassEntry) => c.name == name
  }

  function NameIsNot(name: string): ClassEntry -> bool
  {
    (c: ClassEntry) => c.name != name
  }

  function IdIs(id: int): ClassEntry -> bool
  {
    (c: ClassEntry) => c.id == id
  }

  function IdIsNot(id: int): ClassEntry -> bool
  {
    (c: ClassEntry) => c.id != id
  }

  /** The colour a new entry of course `name` gets: that of the first existing
      entry of the course, else the list length modulo 8, plus one. */
  function ColourFor(cs: seq<ClassEntry>, name: string): (color: int)
    ensures AllColoursInRange(cs) ==> 1 <= color <= ColourCount
    ensures ColoursConsistent(cs) ==> forall c :: c in cs && c.name == name ==> c.color == color
    ensures (forall c :: c in cs ==> c.name != name) ==> color == |cs| % ColourCount + 1
  {
    match Find(cs, NameIs(name))
    case Some(existing) => existing.color
    case None => |cs| % ColourCount + 1
  }

  // ---------- adding ----------

  /** The entry an accepted submission appends: its colour is in range and
      agrees with the course's other entries whenever the list's colours do. */
  function NewEntry(cs: seq<ClassEntry>, f: Form, id: int): (e: ClassEntry)
    ensures AllColoursInRange(cs) ==> AllColoursInRange(cs + [e])
    ensures ColoursConsistent(cs) ==> ColoursConsistent(cs + [e])
  {
    ClassEntry(id, f.name, f.room, f.day, f.startTime, f.endTime, ColourFor(cs, f.name), f.credit)
  }

  /** The list after a submission: one entry appended when accepted, unchanged otherwise. */
  function AfterSubmit(cs: seq<ClassEntry>, f: Form, confirmed: bool, id: int): (r: seq<ClassEntry>)
    ensures |cs| <= |r| <= |cs| + 1 && r[..|cs|] == cs
    ensures |r| == |cs| + 1 <==> Judge(cs, f, confirmed) == Accepted
    ensures |r| != |cs| + 1 ==> r == cs
  {
    if Judge(cs, f, confirmed) == Accepted then cs + [NewEntry(cs, f, id)] else cs
  }

  /** A submission keeps every existing entry in place and in order, adds at most
      one, and the one it adds carries the form's values, the given id and a
      colour in range that agrees with the course's other entries. */
  lemma SubmitAppendsAtEnd(cs: seq<ClassEntry>, f: Form, confirmed: bool, id: int)
    requires AllColoursInRange(cs) && ColoursConsistent(cs)
    ensures var r := AfterSubmit(cs, f, confirmed, id);
            && |cs| <= |r| <= |cs| + 1
            && r[..|cs|] == cs
            && (|r| == |cs| + 1 <==> Judge(cs, f, confirmed) == Accepted)
            && (|r| == |cs| + 1 ==>
                  var e := r[|cs|];
                  && e.id == id && e.name == f.name && e.room == f.room && e.day == f.day
                  && e.startTime == f.startTime && e.endTime == f.endTime && e.credit == f.credit
                  && 1 <= e.color <= ColourCount
                  && forall c :: c in cs && c.name == f.name ==> c.color == e.color)
  {
    var r := AfterSubmit(cs, f, confirmed, id);
    assert r[..|cs|] == cs;
  }

  // ---------- the store invariant ----------

  /** An entry whose times are grid labels, the start before the end. */
  predicate WellTimed(c: ClassEntry)
  {
    OnGrid(c.startTime) && OnGrid(c.endTime) && StrLess(c.startTime, c.endTime)
  }

  /** What every operation on the store keeps true of the list. */
  predicate StoreInvariant(cs: seq<ClassEntry>)
  {
    (forall c :: c in cs ==> WellTimed(c)) && AllColoursInRange(cs) && ColoursConsistent(cs)
  }

  lemma SubmitKeepsInvariant(cs: seq<ClassEntry>, f: Form, confirmed: bool, id: int)
    requires StoreInvariant(cs)
    requires OnGrid(f.startTime) && OnGrid(f.endTime)
    ensures StoreInvariant(AfterSubmit(cs, f, confirmed, id))
  {
    if Judge(cs, f, confirmed) == Accepted {
      var e := NewEntry(cs, f, id);
      var r := cs + [e];
      assert forall c :: c in r <==> c in cs || c == e;
    }
  }

  /** Any filter of a list that keeps the invariant keeps it too. */
  lemma FilterKeepsInvariant(cs: seq<ClassEntry>, p: ClassEntry -> bool)
    requires StoreInvariant(cs)
    ensures StoreInvariant(Filter(cs, p))
  {
  }

  /** No two entries of the list overlap. */
  predicate Disjoint(cs: seq<ClassEntry>)
  {
    forall i, j :: 0 <= i < j < |cs| ==> !Conflicts(cs[i], cs[j].day, cs[j].startTime, cs[j].endTime)
  }

  /** Without the user's confirmation a submission never introduces an overlap. */
  lemma UnconfirmedSubmitKeepsDisjoint(cs: seq<ClassEntry>, f: Form, id: int)
    requires Disjoint(cs)
    ensures Disjoint(AfterSubmit(cs, f, false, id))
  {
    if Judge(cs, f, false) == Accepted {
      var e := NewEntry(cs, f, id);
      var r := cs + [e];
      forall i, j | 0 <= i < j < |r|
        ensures !Conflicts(r[i], r[j].day, r[j].startTime, r[j].endTime)
      {
        if j == |cs| {
          assert r[i] in cs;
        }
      }
    }
  }

  // ---------- removing ----------

  /** The entries of course `name`, in list order. */
  function Named(cs: seq<ClassEntry>, name: string): seq<ClassEntry>
  {
    Filter(cs, NameIs(name))
  }

  /** `deleteClassByName`'s filter: the list without course `name`. */
  function WithoutName(cs: seq<ClassEntry>, name: string): (r: seq<ClassEntry>)
    ensures forall c :: c in r <==> c in cs && c.name != name
  {
    Filter(cs, NameIsNot(name))
  }

  /** `editClass`'s filter: the list without the entries whose id is `id`. */
  function WithoutId(cs: seq<ClassEntry>, id: int): (r: seq<ClassEntry>)
    ensures forall c :: c in r <==> c in cs && c.id != id
  {
    Filter(cs, IdIsNot(id))
  }

  /** `editClass`'s lookup: the first entry with id `id`. */
  function FindById(cs: seq<ClassEntry>, id: int): (r: Option<ClassEntry>)
    ensures r.None? <==> forall c :: c in cs ==> c.id != id
    ensures r.Some? ==> r.value in cs && r.value.id == id
    ensures r.Some? ==> exists i :: IsFirst(cs, IdIs(id), i) && cs[i] == r.value
  {
    Find(cs, IdIs(id))
  }

  /** Removal by name removes exactly the entries of that course, keeps the
      others in their order, and does nothing when the course is absent. */
  lemma RemoveByNameRemovesExactlyThatCourse(cs: seq<ClassEntry>, name: string)
    ensures forall c :: c in WithoutName(cs, name) <==> c in cs && c.name != name
    ensures IsSubsequence(WithoutName(cs, name), cs)
    ensures |WithoutName(cs, name)| == |cs| - |Named(cs, name)|
    ensures (forall c :: c in cs ==> c.name != name) ==> WithoutName(cs, name) == cs
  {
    FilterComplementLength(cs, NameIs(name), NameIsNot(name));
    FilterIsOrderedSelection(cs, NameIsNot(name));
  }

  /** Removing a course twice is removing it once. */
  lemma RemoveByNameIdempotent(cs: seq<ClassEntry>, name: string)
    ensures WithoutName(WithoutName(cs, name), name) == WithoutName(cs, name)
  {
    FilterOfFilter(cs, NameIsNot(name), NameIsNot(name));
  }

  /** Removing one course leaves every other course's entries as they were. */
  lemma RemoveByNameKeepsOtherCourses(cs: seq<ClassEntry>, name: string, other: string)
    requires other != name
    ensures Named(WithoutName(cs, name), other) == Named(cs, other)
  {
    FilterOfFilter(cs, NameIsNot(name), NameIs(other));
  }

  /** The edit's removal takes out exactly the entries with that id, keeps the
      others in their order, and changes nothing when no entry has the id. */
  lemma RemoveByIdRemovesExactlyThatId(cs: seq<ClassEntry>, id: int)
    ensures forall c :: c in WithoutId(cs, id) <==> c in cs && c.id != id
    ensures IsSubsequence(WithoutId(cs, id), cs)
    ensures |WithoutId(cs, id)| == |cs| - |Filter(cs, IdIs(id))|
    ensures FindById(cs, id).None? ==> WithoutId(cs, id) == cs
  {
    FilterComplementLength(cs, IdIs(id), IdIsNot(id));
    FilterIsOrderedSelection(cs, IdIsNot(id));
  }

  // ---------- the store ----------

  /** The schedule's single list of entries, changed only through these methods. */
  class Timetable {
    var classes: seq<ClassEntry>

    ghost predicate Valid()
      reads this
    {
      StoreInvariant(classes)
    }

    /** The store as the page starts it: empty. */
    constructor ()
      ensures Valid() && classes == []
    {
      classes := [];
    }

    /** `handleSubmit`: refuse an end not after the start, drop the entry when it
        overlaps an existing one and the user does not confirm, otherwise append
        it with its colour. `confirmed` is the user's answer to the overlap prompt;
        `id` is the identifier the clock supplies. */
    method Submit(f: Form, confirmed: bool, id: int) returns (verdict: Verdict)
      requires Valid()
      requires f.startTime in TimeSlots && f.endTime in TimeSlots
      modifies this
      ensures Valid()
      ensures verdict == Judge(old(classes), f, confirmed)
      ensures classes == AfterSubmit(old(classes), f, confirmed, id)
    {
      if Ge(f.startTime, f.endTime) {
        return TimeOrderError;
      }
      var conflict := FindConflict(classes, f.day, f.startTime, f.endTime);
      if conflict.Some? && !confirmed {
        return ConflictDeclined(conflict.value);
      }
      SlotLabel(f.startTime);
      SlotLabel(f.endTime);
      var color := ColourFor(classes, f.name);
      var entry := ClassEntry(id, f.name, f.room, f.day, f.startTime, f.endTime, color, f.credit);
      SubmitKeepsInvariant(classes, f, confirmed, id);
      classes := classes + [entry];
      verdict := Accepted;
    }

    /** `editClass`: look the entry up by id and, when it exists, take it out of
        the list. The caller refills the form from the returned entry's name,
        room, day and times, but not its credit, for resubmission. The page does
        not recompute the summary here, so the totals it shows still count the
        removed entry until the next add or delete. */
    method EditClass(id: int) returns (prefill: Option<ClassEntry>)
      requires Valid()
      modifies this
      ensures Valid()
      ensures prefill == FindById(old(classes), id)
      ensures classes == WithoutId(old(classes), id)
    {
      prefill := FindById(classes, id);
      if prefill.None? {
        RemoveByIdRemovesExactlyThatId(classes, id);
        return;
      }
      FilterKeepsInvariant(classes, IdIsNot(id));
      classes := WithoutId(classes, id);
    }

    /** `deleteClassByName`: when the user confirms, remove every entry of the course. */
    method DeleteClassByName(name: string, confirmed: bool)
      requires Valid()
      modifies this
      ensures Valid()
      ensures classes == if confirmed then WithoutName(old(classes), name) else old(classes)
    {
      if !confirmed {
        return;
      }
      FilterKeepsInvariant(classes, NameIsNot(name));
      classes := WithoutName(classes, name);
    }
  }
}
