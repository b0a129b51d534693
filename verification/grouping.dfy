/** The class list: entries grouped by course name, one group per course in the
    order each course first appears, each group carrying every occurrence and id
    of the course and the room, credit and colour of its first entry. */
module Grouping {
  import opened Wrappers
  import opened Seqs
  import opened Schedule

  /** One listed time of a course. */
  datatype Occurrence = Occurrence(day: int, startTime: string, endTime: string)

  /** One course of the list. */
  datatype Group = Group(
    name: string,
    room: string,
    credit: Option<int>,
    times: seq<Occurrence>,
    color: int,
    ids: seq<int>)

  function OccurrenceOf(c: ClassEntry): Occurrence
  {
    Occurrence(c.day, c.startTime, c.endTime)
  }

  function OccurrencesOf(cs: seq<ClassEntry>): (r: seq<Occurrence>)
    ensures |r| == |cs|
  {
    seq(|cs|, i requires 0 <= i < |cs| => OccurrenceOf(cs[i]))
  }

  function IdsOf(cs: seq<ClassEntry>): (r: seq<int>)
    ensures |r| == |cs|
  {
    seq(|cs|, i requires 0 <= i < |cs| => cs[i].id)
  }

  /** The names of the list.*/
  function Names(cs: seq<ClassEntry>): set<string>
  {
    set c | c in cs :: c.name
  }

  /** The course names of the list, each once, in order of first appearance. */
  function DistinctNames(cs: seq<ClassEntry>): (names: seq<string>)
    ensures |names| <= |cs|
    ensures forall n :: n in names <==> n in Names(cs)
    ensures forall i, j :: 0 <= i < j < |names| ==> names[i] != names[j]
  {
    if |cs| == 0 then []
    else
      var earlier := DistinctNames(cs[..|cs| - 1]);
      var last := cs[|cs| - 1];
      assert cs == cs[..|cs| - 1] + [last];
      assert Names(cs) == Names(cs[..|cs| - 1]) + {last.name};
      if last.name in earlier then earlier else earlier + [last.name]
  }

  /** The group the list shows for course `name`: one time and one id for each
      of the course's entries. */
  function GroupOf(cs: seq<ClassEntry>, name: string): (g: Group)
    requires name in Names(cs)
    ensures g.name == name
    ensures 0 < |g.times| == |g.ids| == |Named(cs, name)|
  {
    NamedNonEmpty(cs, name);
    var members := Named(cs, name);
    var first := members[0];
    Group(name, first.room, first.credit, OccurrencesOf(members), first.color, IdsOf(members))
  }

  lemma NamedNonEmpty(cs: seq<ClassEntry>, name: string)
    requires name in Names(cs)
    ensures |Named(cs, name)| > 0
  {
    var c :| c in cs && c.name == name;
    assert c in Named(cs, name);
  }

  lemma NamesSnoc(cs: seq<ClassEntry>, c: ClassEntry)
    ensures Names(cs + [c]) == Names(cs) + {c.name}
  {
    assert forall e :: e in cs + [c] <==> e in cs || e == c;
  }

  /** Appending an entry extends its own course's sub-list and no other. */
  lemma NamedSnoc(cs: seq<ClassEntry>, c: ClassEntry, name: string)
    ensures Named(cs + [c], name) == Named(cs, name) + (if c.name == name then [c] else [])
  {
    FilterConcat(cs, [c], NameIs(name));
    assert [c][1..] == [];
  }

  /** A name the list does not hold has no entries. */
  lemma {:induction false} NamedOfAbsentName(cs: seq<ClassEntry>, name: string)
    requires name !in Names(cs)
    ensures Named(cs, name) == []
  {
    if |cs| > 0 {
      assert cs[0] in cs;
      assert Names(cs[1..]) <= Names(cs);
      NamedOfAbsentName(cs[1..], name);
    }
  }

  /** A group started by entry `c`, before `c` itself is recorded in it. */
  function NewGroup(c: ClassEntry): Group
  {
    Group(c.name, c.room, c.credit, [], c.color, [])
  }

  /** Group `g` with entry `c` recorded as one more occurrence. */
  function WithOccurrence(g: Group, c: ClassEntry): Group
  {
    g.(times := g.times + [OccurrenceOf(c)], ids := g.ids + [c.id])
  }

  /** Appending an entry of another course leaves a course's group as it was. */
  lemma GroupOfSnocOther(cs: seq<ClassEntry>, c: ClassEntry, name: string)
    requires name in Names(cs + [c]) && name != c.name
    ensures name in Names(cs) && GroupOf(cs + [c], name) == GroupOf(cs, name)
  {
    NamesSnoc(cs, c);
    NamedSnoc(cs, c, name);
  }

  /** Appending an entry of a course already listed records it in that course's group. */
  lemma GroupOfSnocSame(cs: seq<ClassEntry>, c: ClassEntry)
    requires c.name in Names(cs)
    ensures c.name in Names(cs + [c])
    ensures GroupOf(cs + [c], c.name) == WithOccurrence(GroupOf(cs, c.name), c)
  {
    NamesSnoc(cs, c);
    NamedSnoc(cs, c, c.name);
    NamedNonEmpty(cs, c.name);
    var before, after := Named(cs, c.name), Named(cs + [c], c.name);
    assert OccurrencesOf(after) == OccurrencesOf(before) + [OccurrenceOf(c)];
    assert IdsOf(after) == IdsOf(before) + [c.id];
    assert after[0] == before[0];
  }

  /** Appending the first entry of a course starts its group with that entry. */
  lemma GroupOfSnocNew(cs: seq<ClassEntry>, c: ClassEntry)
    requires c.name !in Names(cs)
    ensures c.name in Names(cs + [c])
    ensures GroupOf(cs + [c], c.name) == WithOccurrence(NewGroup(c), c)
  {
    NamesSnoc(cs, c);
    NamedSnoc(cs, c, c.name);
    NamedOfAbsentName(cs, c.name);
    assert OccurrencesOf([c]) == [OccurrenceOf(c)];
    assert IdsOf([c]) == [c.id];
  }

  /** The group records every entry of its course, in list order, and takes
      room, credit and colour from the course's first entry. */
  lemma GroupDescribesCourse(cs: seq<ClassEntry>, name: string)
    requires name in Names(cs)
    ensures var g := GroupOf(cs, name);
            && var first := FindIndex(cs, NameIs(name));
            && first.Some?
            && g.name == name
            && g.room == cs[first.value].room
            && g.credit == cs[first.value].credit
            && g.color == cs[first.value].color
            && |g.times| == |g.ids| == |Named(cs, name)|
            && (forall k :: 0 <= k < |g.ids| ==> g.ids[k] == Named(cs, name)[k].id)
            && (forall k :: 0 <= k < |g.times| ==>
                  g.times[k] == Occurrence(Named(cs, name)[k].day, Named(cs, name)[k].startTime, Named(cs, name)[k].endTime))
  {
    var c :| c in cs && c.name == name;
    FirstNamedIsFirstOccurrence(cs, name);
  }

  /** The first entry of a course's sub-list is the first entry of the course in the list. */
  lemma {:induction false} FirstNamedIsFirstOccurrence(cs: seq<ClassEntry>, name: string)
    requires name in Names(cs)
    ensures FindIndex(cs, NameIs(name)).Some?
    ensures |Named(cs, name)| > 0 && Named(cs, name)[0] == cs[FindIndex(cs, NameIs(name)).value]
  {
    var c :| c in cs && c.name == name;
    if cs[0].name != name {
      assert c in cs[1..];
      assert Names(cs[1..]) <= Names(cs);
      FirstNamedIsFirstOccurrence(cs[1..], name);
    }
  }

  /** The courses come in the order of their first entries. */
  lemma {:induction false} DistinctNamesInFirstOccurrenceOrder(cs: seq<ClassEntry>, a: int, b: int)
    requires 0 <= a < b < |DistinctNames(cs)|
    ensures FindIndex(cs, NameIs(DistinctNames(cs)[a])).Some?
    ensures FindIndex(cs, NameIs(DistinctNames(cs)[b])).Some?
    ensures FindIndex(cs, NameIs(DistinctNames(cs)[a])).value < FindIndex(cs, NameIs(DistinctNames(cs)[b])).value
  {
    var pre, last := cs[..|cs| - 1], cs[|cs| - 1];
    assert cs == pre + [last];
    var names, earlier := DistinctNames(cs), DistinctNames(pre);
    var na, nb := names[a], names[b];
    FindIndexSnoc(pre, last, NameIs(na));
    FindIndexSnoc(pre, last, NameIs(nb));
    assert na in Names(cs) && nb in Names(cs);
    if b < |earlier| {
      DistinctNamesInFirstOccurrenceOrder(pre, a, b);
    } else {
      assert nb == last.name && nb !in Names(pre);
      assert na in earlier;
    }
  }

  function GroupNameIs(name: string): Group -> bool
  {
    (g: Group) => g.name == name
  }

  /** The groups of `pre` in order: what the dictionary holds after `pre` is processed. */
  predicate GroupsOf(pre: seq<ClassEntry>, groups: seq<Group>)
  {
    |groups| == |DistinctNames(pre)| &&
    forall k :: 0 <= k < |groups| ==> groups[k] == GroupOf(pre, DistinctNames(pre)[k])
  }

  /** One step of the grouping pass: entry `c` goes to the group of its name,
      which is created at the end when the name has none yet. */
  function Record(groups: seq<Group>, c: ClassEntry): seq<Group>
  {
    match FindIndex(groups, GroupNameIs(c.name))
    case None => groups + [WithOccurrence(NewGroup(c), c)]
    case Some(k) => groups[k := WithOccurrence(groups[k], c)]
  }

  /** Recording the next entry turns the groups of a prefix into the groups of
      the prefix one entry longer. */
  lemma RecordExtendsGroups(pre: seq<ClassEntry>, c: ClassEntry, groups: seq<Group>)
    requires GroupsOf(pre, groups)
    ensures GroupsOf(pre + [c], Record(groups, c))
  {
    var all := pre + [c];
    assert all[..|all| - 1] == pre;
    assert all[|all| - 1] == c;
    NamesSnoc(pre, c);
    if c.name in Names(pre) {
      RecordKnownName(pre, c, groups);
    } else {
      RecordNewName(pre, c, groups);
    }
  }

  lemma RecordExtendsPrefix(cs: seq<ClassEntry>, i: nat, groups: seq<Group>)
    requires i < |cs| && GroupsOf(cs[..i], groups)
    ensures GroupsOf(cs[..i + 1], Record(groups, cs[i]))
  {
    assert cs[..i + 1] == cs[..i] + [cs[i]];
    RecordExtendsGroups(cs[..i], cs[i], groups);
  }

  lemma RecordKnownName(pre: seq<ClassEntry>, c: ClassEntry, groups: seq<Group>)
    requires GroupsOf(pre, groups)
    requires c.name in Names(pre)
    requires DistinctNames(pre + [c]) == DistinctNames(pre)
    ensures GroupsOf(pre + [c], Record(groups, c))
  {
    var names := DistinctNames(pre);
    assert forall k :: 0 <= k < |groups| ==> groups[k].name == names[k];
    var k := FindIndex(groups, GroupNameIs(c.name)).value;
    assert names[k] == c.name;
    var r := Record(groups, c);
    assert r == groups[k := WithOccurrence(groups[k], c)];
    forall j | 0 <= j < |r|
      ensures r[j] == GroupOf(pre + [c], names[j])
    {
      if j == k {
        GroupOfSnocSame(pre, c);
      } else {
        GroupOfSnocOther(pre, c, names[j]);
      }
    }
  }

  lemma RecordNewName(pre: seq<ClassEntry>, c: ClassEntry, groups: seq<Group>)
    requires GroupsOf(pre, groups)
    requires c.name !in Names(pre)
    requires DistinctNames(pre + [c]) == DistinctNames(pre) + [c.name]
    ensures GroupsOf(pre + [c], Record(groups, c))
  {
    var names := DistinctNames(pre);
    assert forall k :: 0 <= k < |groups| ==> groups[k].name == names[k];
    assert FindIndex(groups, GroupNameIs(c.name)).None?;
    var r := Record(groups, c);
    assert r == groups + [WithOccurrence(NewGroup(c), c)];
    var names' := names + [c.name];
    forall j | 0 <= j < |r|
      ensures r[j] == GroupOf(pre + [c], names'[j])
    {
      if j == |groups| {
        GroupOfSnocNew(pre, c);
      } else {
        GroupOfSnocOther(pre, c, names[j]);
      }
    }
  }

  /** A new group pushed and then given the entry is the recorded step. */
  lemma PushThenRecord(groups: seq<Group>, c: ClassEntry)
    requires FindIndex(groups, GroupNameIs(c.name)).None?
    ensures (groups + [NewGroup(c)])[|groups| := WithOccurrence(NewGroup(c), c)] == Record(groups, c)
  {
    var g := WithOccurrence(NewGroup(c), c);
    var u := (groups + [NewGroup(c)])[|groups| := g];
    assert u == groups + [g] by {
      forall j | 0 <= j < |u| ensures u[j] == (groups + [g])[j] {
      }
    }
  }

  /** The found group given the entry is the recorded step. */
  lemma UpdateThenRecord(groups: seq<Group>, c: ClassEntry, k: nat)
    requires FindIndex(groups, GroupNameIs(c.name)) == Some(k)
    ensures k < |groups| && groups[k := WithOccurrence(groups[k], c)] == Record(groups, c)
  {
  }

  /** The body of `renderClassList`'s `forEach`: find the group of the entry's
      name, start one at the end when there is none, and append the entry's time
      and id to it. */
  method RecordEntry(groups: seq<Group>, c: ClassEntry) returns (updated: seq<Group>)
    ensures updated == Record(groups, c)
  {
    updated := groups;
    var found := FindIndex(updated, GroupNameIs(c.name));
    var k: nat;
    if found.None? {
      updated := updated + [NewGroup(c)];
      k := |updated| - 1;
    } else {
      k := found.value;
    }
    updated := updated[k := WithOccurrence(updated[k], c)];
    if found.None? {
      PushThenRecord(groups, c);
    } else {
      UpdateThenRecord(groups, c, found.value);
    }
  }

  /** `renderClassList`'s grouping: one pass over the list, recording each entry
      in the group of its name. */
  method GroupByName(cs: seq<ClassEntry>) returns (groups: seq<Group>)
    ensures |groups| == |DistinctNames(cs)|
    ensures forall k :: 0 <= k < |groups| ==> groups[k] == GroupOf(cs, DistinctNames(cs)[k])
  {
    groups := [];
    var i := 0;
    while i < |cs|
      invariant 0 <= i <= |cs|
      invariant GroupsOf(cs[..i], groups)
    {
      RecordExtendsPrefix(cs, i, groups);
      groups := RecordEntry(groups, cs[i]);
      i := i + 1;
    }
    assert cs[..|cs|] == cs;
  }

  /** Two entries of one course collapse into a single group with two occurrences. */
  lemma SameNameCollapses(a: ClassEntry, b: ClassEntry)
    requires a.name == b.name
    ensures DistinctNames([a, b]) == [a.name]
    ensures |GroupOf([a, b], a.name).times| == 2
  {
    assert [a][..0] == [];
    assert DistinctNames([a]) == [a.name];
    assert [a, b][..1] == [a];
    assert Named([a, b], a.name) == [a, b];
  }
}
