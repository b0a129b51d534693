/** The weekly grid: for every weekday and half-hour row, the entry shown in
    that cell and whether the cell is the entry's first, the one that carries
    its name and room. */
module Projection {
  import opened Wrappers
  import opened Seqs
  import opened TimeGrid
  import opened Schedule

  /** An occupied cell: the entry in it, and whether its label is drawn here. */
  datatype Cell = Cell(entry: ClassEntry, isFirstSlot: bool)

  /** Entry `c` occupies row `time` of column `day`: `c.startTime <= time && c.endTime > time`,
      so the row lies in the entry's half-open span. */
  function Covers(c: ClassEntry, day: int, time: string): (covered: bool)
    ensures covered <==> c.day == day && (c.startTime == time || StrLess(c.startTime, time)) && StrLess(time, c.endTime)
  {
    c.day == day && Le(c.startTime, time) && StrLess(time, c.endTime)
  }

  function CoversAt(day: int, time: string): ClassEntry -> bool
  {
    (c: ClassEntry) => Covers(c, day, time)
  }

  /** The cell lookup: the first entry in list order that occupies the cell, with
      its label only where the row is the entry's start. */
  function CellAt(cs: seq<ClassEntry>, day: int, time: string): (r: Option<Cell>)
    ensures r.None? <==> forall i :: 0 <= i < |cs| ==> !Covers(cs[i], day, time)
    ensures r.Some? ==> exists i :: 0 <= i < |cs| && cs[i] == r.value.entry && Covers(cs[i], day, time) &&
                                   forall j :: 0 <= j < i ==> !Covers(cs[j], day, time)
    ensures r.Some? ==> (r.value.isFirstSlot <==> r.value.entry.startTime == time)
  {
    match FindIndex(cs, CoversAt(day, time))
    case None => None
    case Some(i) => Some(Cell(cs[i], cs[i].startTime == time))
  }

  /** `grid[d][t]` is the cell of weekday `d` at row `TimeSlots[t]`. */
  predicate IsGridOf(cs: seq<ClassEntry>, grid: seq<seq<Option<Cell>>>)
  {
    |grid| == |Days| &&
    forall d :: 0 <= d < |Days| ==>
      |grid[d]| == |TimeSlots| &&
      forall t :: 0 <= t < |TimeSlots| ==> grid[d][t] == CellAt(cs, d, TimeSlots[t])
  }

  /** `renderTimetable`'s grid, built column by column and row by row. */
  method RenderTimetable(cs: seq<ClassEntry>) returns (grid: seq<seq<Option<Cell>>>)
    ensures IsGridOf(cs, grid)
  {
    grid := [];
    var d := 0;
    while d < |Days|
      invariant 0 <= d <= |Days|
      invariant |grid| == d
      invariant forall d' :: 0 <= d' < d ==>
                  |grid[d']| == |TimeSlots| &&
                  forall t :: 0 <= t < |TimeSlots| ==> grid[d'][t] == CellAt(cs, d', TimeSlots[t])
    {
      var column: seq<Option<Cell>> := [];
      var t := 0;
      while t < |TimeSlots|
        invariant 0 <= t <= |TimeSlots|
        invariant |column| == t
        invariant forall t' :: 0 <= t' < t ==> column[t'] == CellAt(cs, d, TimeSlots[t'])
      {
        column := column + [CellAt(cs, d, TimeSlots[t])];
        t := t + 1;
      }
      grid := grid + [column];
      d := d + 1;
    }
  }

  /** The grid is a function of the entry list: projecting it twice gives the same grid. */
  lemma GridIsDetermined(cs: seq<ClassEntry>, g1: seq<seq<Option<Cell>>>, g2: seq<seq<Option<Cell>>>)
    requires IsGridOf(cs, g1) && IsGridOf(cs, g2)
    ensures g1 == g2
  {
    forall d | 0 <= d < |Days| ensures g1[d] == g2[d] {
      assert |g1[d]| == |g2[d]|;
      assert forall t :: 0 <= t < |TimeSlots| ==> g1[d][t] == g2[d][t];
    }
  }

  /** Two entries occupying the same cell overlap. */
  lemma SharedCellIsConflict(a: ClassEntry, b: ClassEntry, day: int, time: string)
    requires Covers(a, day, time) && Covers(b, day, time)
    ensures Conflicts(a, b.day, b.startTime, b.endTime)
  {
    LeLessTrans(b.startTime, time, a.endTime);
    LeLessTrans(a.startTime, time, b.endTime);
  }

  /** In a list without overlaps, a cell an entry occupies shows that entry. */
  lemma DisjointCellShowsItsEntry(cs: seq<ClassEntry>, i: int, day: int, time: string)
    requires Disjoint(cs)
    requires 0 <= i < |cs| && Covers(cs[i], day, time)
    ensures CellAt(cs, day, time) == Some(Cell(cs[i], cs[i].startTime == time))
  {
    var k := FindIndex(cs, CoversAt(day, time)).value;
    if k != i {
      assert k < i;
      SharedCellIsConflict(cs[k], cs[i], day, time);
      assert false;
    }
  }

  /** In a list without overlaps, an entry on a weekday with well-formed times
      has its label drawn in exactly one cell: the row of its start. */
  lemma DisjointEntryLabelledOnce(cs: seq<ClassEntry>, i: int, t: int)
    requires Disjoint(cs)
    requires 0 <= i < |cs| && WellTimed(cs[i]) && 0 <= cs[i].day < |Days|
    requires 0 <= t < |TimeSlots|
    ensures CellAt(cs, cs[i].day, TimeSlots[t]) == Some(Cell(cs[i], true)) <==> TimeSlots[t] == cs[i].startTime
  {
    var c := cs[i];
    if TimeSlots[t] == c.startTime {
      DisjointCellShowsItsEntry(cs, i, c.day, c.startTime);
    }
  }

  /** When an earlier entry covers a later entry's first row, the later entry's
      label is never drawn: with 09:00-10:30 and 10:00-11:00 on the same day, in
      that order, no cell shows the second one's name. */
  lemma ShadowedStartHidesLabel(a: ClassEntry, b: ClassEntry, time: string)
    requires a.day == b.day
    requires a.startTime == "09:00" && a.endTime == "10:30"
    requires b.startTime == "10:00" && b.endTime == "11:00"
    requires a != b
    ensures CellAt([a, b], b.day, time) != Some(Cell(b, true))
  {
    if time == "10:00" {
      assert StrLess("10:00", "10:30") && !StrLess("10:00", "09:00");
      assert Covers(a, b.day, time);
    }
  }
}
