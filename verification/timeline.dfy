/** The timeline grouping of the client: every (company, application) pair,
    bucketed by the calendar day of the application's `createdAt`, days newest
    first and entries within a day newest first. */
module Timeline {
  import opened Store
  import opened Views

  const MsPerDay: int := 86400000

  /** The calendar day a timestamp falls on. Stands in for `toDateString()`;
      time zones are not modelled. */
  function Day(ts: int): (d: int)
    ensures d * MsPerDay <= ts < (d + 1) * MsPerDay
  {
    ts / MsPerDay
  }

  lemma DayMonotone(a: int, b: int)
    requires a <= b
    ensures Day(a) <= Day(b)
  {
  }

  /** One timeline row: an application tagged with its company's name and id. */
  datatype Entry = Entry(app: AppView, companyName: string, companyId: Id)

  /** A day bucket (`GroupedApplication`). */
  datatype Group = Group(day: int, entries: seq<Entry>)

  function DayOf(e: Entry): int {
    Day(e.app.createdAt)
  }

  /* ------------------------------------------------------------ flatten */

  /** One company's applications, tagged, in list order. */
  function Tag(c: CompanyView): (r: seq<Entry>)
    ensures |r| == |c.applications|
    ensures forall j :: 0 <= j < |r| ==> r[j] == Entry(c.applications[j], c.name, c.id)
  {
    seq(|c.applications|, j requires 0 <= j < |c.applications| => Entry(c.applications[j], c.name, c.id))
  }

  /** The two nested `forEach` loops: companies in order, each company's
      applications in order. */
  function Flatten(cs: seq<CompanyView>): (r: seq<Entry>)
    ensures |r| == TotalApps(cs)
  {
    if cs == [] then [] else Tag(cs[0]) + Flatten(cs[1..])
  }

  /** The flattened entries are exactly the (company, application) pairs. */
  lemma {:induction false} FlattenMembers(cs: seq<CompanyView>, e: Entry)
    ensures e in Flatten(cs) <==>
      exists i, j :: 0 <= i < |cs| && 0 <= j < |cs[i].applications|
                     && e == Entry(cs[i].applications[j], cs[i].name, cs[i].id)
  {
    if cs != [] {
      FlattenMembers(cs[1..], e);
      if e in Tag(cs[0]) {
        var j :| 0 <= j < |cs[0].applications| && Tag(cs[0])[j] == e;
        assert e == Entry(cs[0].applications[j], cs[0].name, cs[0].id);
      }
      if exists i, j :: 0 <= i < |cs| && 0 <= j < |cs[i].applications|
                        && e == Entry(cs[i].applications[j], cs[i].name, cs[i].id)
      {
        var i, j :| 0 <= i < |cs| && 0 <= j < |cs[i].applications|
                    && e == Entry(cs[i].applications[j], cs[i].name, cs[i].id);
        if i == 0 {
          assert Tag(cs[0])[j] == e;
        } else {
          assert cs[1..][i - 1] == cs[i];
        }
      }
    }
  }

  /* ---------------------------------------------------------- group facts */

  /** Every entry of every group, with multiplicity. */
  function Members(gs: seq<Group>): multiset<Entry> {
    if gs == [] then multiset{} else multiset(gs[0].entries) + Members(gs[1..])
  }

  /** The number of entries over all groups. */
  function Count(gs: seq<Group>): nat {
    if gs == [] then 0 else |gs[0].entries| + Count(gs[1..])
  }

  /** The group days, in group order. */
  function Days(gs: seq<Group>): (r: seq<int>)
    ensures |r| == |gs|
    ensures forall i :: 0 <= i < |gs| ==> r[i] == gs[i].day
  {
    if gs == [] then [] else [gs[0].day] + Days(gs[1..])
  }

  /** A bucket as the grouping builds it: non-empty, and every entry falls on
      the bucket's day. */
  predicate WellFormedGroup(g: Group) {
    && g.entries != []
    && forall k :: 0 <= k < |g.entries| ==> DayOf(g.entries[k]) == g.day
  }

  predicate AllWellFormed(gs: seq<Group>) {
    forall i :: 0 <= i < |gs| ==> WellFormedGroup(gs[i])
  }

  /** No two groups share a day. */
  predicate DistinctDays(gs: seq<Group>) {
    forall i, j :: 0 <= i < j < |gs| ==> gs[i].day != gs[j].day
  }

  /** Groups newest day first. */
  predicate DaysDescending(gs: seq<Group>) {
    forall i, j :: 0 <= i < j < |gs| ==> gs[i].day > gs[j].day
  }

  /** Entries newest first. */
  predicate NewestFirst(es: seq<Entry>) {
    forall i, j :: 0 <= i < j < |es| ==> es[i].app.createdAt >= es[j].app.createdAt
  }

  lemma {:induction false} MembersAppend(a: seq<Group>, b: seq<Group>)
    ensures Members(a + b) == Members(a) + Members(b)
  {
    if a == [] {
      assert a + b == b;
    } else {
      assert (a + b)[1..] == a[1..] + b;
      MembersAppend(a[1..], b);
    }
  }

  lemma {:induction false} CountIsSize(gs: seq<Group>)
    ensures Count(gs) == |Members(gs)|
  {
    if gs != [] {
      CountIsSize(gs[1..]);
    }
  }

  /** An entry counted by `Members` lies in some group. */
  lemma {:induction false} MembersIn(gs: seq<Group>, e: Entry)
    requires e in Members(gs)
    ensures exists i :: 0 <= i < |gs| && e in gs[i].entries
  {
    if e !in gs[0].entries {
      MembersIn(gs[1..], e);
      var i :| 0 <= i < |gs[1..]| && e in gs[1..][i].entries;
      assert e in gs[i + 1].entries;
    }
  }

  /* ------------------------------------------------------------- bucket */

  /** `dateMap.get(date).applications.push(...)`, creating the bucket at the
      end (a `Map` keeps insertion order) when the day is new. */
  function AddEntry(gs: seq<Group>, e: Entry): (r: seq<Group>)
    ensures r != []
    ensures |r| == |gs| || |r| == |gs| + 1
    ensures |r| == |gs| + 1 <==> DayOf(e) !in Days(gs)
  {
    if gs == [] then [Group(DayOf(e), [e])]
    else if gs[0].day == DayOf(e) then [gs[0].(entries := gs[0].entries + [e])] + gs[1..]
    else [gs[0]] + AddEntry(gs[1..], e)
  }

  /** Adding an entry adds it to the members. */
  lemma {:induction false} AddEntryMembers(gs: seq<Group>, e: Entry)
    ensures Members(AddEntry(gs, e)) == Members(gs) + multiset{e}
  {
    var r := AddEntry(gs, e);
    if gs != [] && gs[0].day == DayOf(e) {
      assert r[1..] == gs[1..];
    } else if gs != [] {
      AddEntryMembers(gs[1..], e);
      assert r[1..] == AddEntry(gs[1..], e);
    }
  }

  /** The bucket days gain the entry's day, at the end, exactly when it is new. */
  lemma {:induction false} AddEntryDays(gs: seq<Group>, e: Entry)
    ensures Days(AddEntry(gs, e)) == if DayOf(e) in Days(gs) then Days(gs) else Days(gs) + [DayOf(e)]
  {
    var r := AddEntry(gs, e);
    if gs != [] && gs[0].day == DayOf(e) {
      assert Days(gs)[0] == DayOf(e);
    } else if gs != [] {
      AddEntryDays(gs[1..], e);
      assert r[1..] == AddEntry(gs[1..], e);
      assert Days(gs) == [gs[0].day] + Days(gs[1..]);
    }
  }

  /** Adding an entry keeps every bucket well formed. */
  lemma {:induction false} AddEntryWellFormed(gs: seq<Group>, e: Entry)
    requires AllWellFormed(gs)
    ensures AllWellFormed(AddEntry(gs, e))
  {
    var r := AddEntry(gs, e);
    if gs != [] && gs[0].day != DayOf(e) {
      assert AllWellFormed(gs[1..]) by {
        forall i | 0 <= i < |gs[1..]|
          ensures WellFormedGroup(gs[1..][i])
        {
          assert gs[1..][i] == gs[i + 1];
        }
      }
      AddEntryWellFormed(gs[1..], e);
      forall i | 0 <= i < |r|
        ensures WellFormedGroup(r[i])
      {
        if i > 0 {
          assert r[i] == AddEntry(gs[1..], e)[i - 1];
        }
      }
    } else if gs != [] {
      assert WellFormedGroup(gs[0]);
      forall i | 0 <= i < |r|
        ensures WellFormedGroup(r[i])
      {
        if i > 0 {
          assert r[i] == gs[i];
        }
      }
    }
  }

  /** A sequence without repeats stays so when a new element is appended. */
  lemma DistinctAppend(xs: seq<int>, x: int)
    requires forall i, j :: 0 <= i < j < |xs| ==> xs[i] != xs[j]
    requires x !in xs
    ensures forall i, j :: 0 <= i < j < |xs + [x]| ==> (xs + [x])[i] != (xs + [x])[j]
  {
  }

  /** The bucketing loop over the flattened entries, as a left fold. */
  function Bucket(es: seq<Entry>): (r: seq<Group>)
    ensures |r| <= |es|
    ensures r == [] <==> es == []
  {
    if es == [] then [] else AddEntry(Bucket(es[..|es| - 1]), es[|es| - 1])
  }

  /** The buckets hold exactly the entries, each exactly once. */
  lemma {:induction false} BucketMembers(es: seq<Entry>)
    ensures Members(Bucket(es)) == multiset(es)
  {
    if es != [] {
      var init, last := es[..|es| - 1], es[|es| - 1];
      assert es == init + [last];
      assert multiset(es) == multiset(init) + multiset{last};
      BucketMembers(init);
      AddEntryMembers(Bucket(init), last);
    }
  }

  /** Every bucket is non-empty and holds only entries of its day. */
  lemma {:induction false} BucketWellFormed(es: seq<Entry>)
    ensures AllWellFormed(Bucket(es))
  {
    if es != [] {
      BucketWellFormed(es[..|es| - 1]);
      AddEntryWellFormed(Bucket(es[..|es| - 1]), es[|es| - 1]);
    }
  }

  /** No two buckets share a day. */
  lemma {:induction false} BucketDays(es: seq<Entry>)
    ensures DistinctDays(Bucket(es))
  {
    if es != [] {
      BucketDays(es[..|es| - 1]);
      AddEntryDistinct(Bucket(es[..|es| - 1]), es[|es| - 1]);
    }
  }

  /** Adding an entry keeps the bucket days distinct. */
  lemma AddEntryDistinct(b: seq<Group>, e: Entry)
    requires DistinctDays(b)
    ensures DistinctDays(AddEntry(b, e))
  {
    var r := AddEntry(b, e);
    AddEntryDays(b, e);
    assert forall i, j :: 0 <= i < j < |b| ==> Days(b)[i] != Days(b)[j];
    if DayOf(e) !in Days(b) {
      DistinctAppend(Days(b), DayOf(e));
    }
    assert forall i, j :: 0 <= i < j < |r| ==> Days(r)[i] != Days(r)[j];
  }

  /** Some entry of `es` falls on day `d`. */
  predicate Occurs(es: seq<Entry>, d: int) {
    exists k :: 0 <= k < |es| && DayOf(es[k]) == d
  }

  /** A day occurs in a non-empty sequence exactly when it occurs before the
      last entry or is the last entry's day. */
  lemma OccursSnoc(es: seq<Entry>, d: int)
    requires es != []
    ensures Occurs(es, d) <==> Occurs(es[..|es| - 1], d) || DayOf(es[|es| - 1]) == d
  {
    var init := es[..|es| - 1];
    if Occurs(init, d) {
      var k :| 0 <= k < |init| && DayOf(init[k]) == d;
      assert es[k] == init[k];
    }
    if Occurs(es, d) {
      var k :| 0 <= k < |es| && DayOf(es[k]) == d;
      if k < |init| {
        assert es[k] == init[k];
      }
    }
  }

  /** The bucket days are exactly the days that occur among the entries. */
  lemma {:induction false} BucketDaysOccur(es: seq<Entry>)
    ensures forall d :: d in Days(Bucket(es)) <==> Occurs(es, d)
  {
    if es != [] {
      var init, e := es[..|es| - 1], es[|es| - 1];
      BucketDaysOccur(init);
      AddEntryDays(Bucket(init), e);
      forall d
        ensures d in Days(Bucket(es)) <==> Occurs(es, d)
      {
        OccursSnoc(es, d);
      }
    }
  }

  /* --------------------------------------------------------- sort groups */

  /** Inserts a group into a newest-day-first sequence. */
  function InsertGroup(g: Group, gs: seq<Group>): (r: seq<Group>)
    ensures |r| == |gs| + 1
  {
    if gs == [] then [g]
    else if g.day > gs[0].day then [g] + gs
    else [gs[0]] + InsertGroup(g, gs[1..])
  }

  /** Insertion keeps the groups. */
  lemma {:induction false} InsertGroupMultiset(g: Group, gs: seq<Group>)
    ensures multiset(InsertGroup(g, gs)) == multiset(gs) + multiset{g}
  {
    if gs != [] && g.day <= gs[0].day {
      InsertGroupMultiset(g, gs[1..]);
      assert gs == [gs[0]] + gs[1..];
    }
  }

  /** Insertion keeps the members. */
  lemma {:induction false} InsertGroupMembers(g: Group, gs: seq<Group>)
    ensures Members(InsertGroup(g, gs)) == Members(gs) + multiset(g.entries)
  {
    var r := InsertGroup(g, gs);
    if gs != [] && g.day <= gs[0].day {
      InsertGroupMembers(g, gs[1..]);
      assert r[1..] == InsertGroup(g, gs[1..]);
    } else if gs != [] {
      assert r[1..] == gs;
    }
  }

  /** Every group day lies strictly below `d`. */
  predicate AllBefore(gs: seq<Group>, d: int) {
    forall i :: 0 <= i < |gs| ==> gs[i].day < d
  }

  lemma {:induction false} InsertGroupBefore(g: Group, gs: seq<Group>, d: int)
    requires AllBefore(gs, d) && g.day < d
    ensures AllBefore(InsertGroup(g, gs), d)
  {
    var r := InsertGroup(g, gs);
    if gs != [] && g.day <= gs[0].day {
      InsertGroupBefore(g, gs[1..], d);
      assert r[1..] == InsertGroup(g, gs[1..]);
    }
  }

  /** Insertion keeps the days strictly descending when the new day is not
      already there. */
  lemma {:induction false} InsertGroupDescending(g: Group, gs: seq<Group>)
    requires DaysDescending(gs) && g.day !in Days(gs)
    ensures DaysDescending(InsertGroup(g, gs))
  {
    var r := InsertGroup(g, gs);
    if gs != [] && g.day <= gs[0].day {
      var rest := InsertGroup(g, gs[1..]);
      assert Days(gs)[0] == gs[0].day;
      assert Days(gs) == [gs[0].day] + Days(gs[1..]);
      InsertGroupDescending(g, gs[1..]);
      assert AllBefore(gs[1..], gs[0].day);
      InsertGroupBefore(g, gs[1..], gs[0].day);
      assert r[1..] == rest;
    }
  }

  /** `.sort((a, b) => b.date - a.date)` over the buckets. */
  function SortGroups(gs: seq<Group>): (r: seq<Group>)
    ensures |r| == |gs|
  {
    if gs == [] then [] else InsertGroup(gs[0], SortGroups(gs[1..]))
  }

  /** Insertion adds exactly the new group's day. */
  lemma {:induction false} InsertGroupDays(g: Group, gs: seq<Group>)
    ensures forall d :: d in Days(InsertGroup(g, gs)) <==> d in Days(gs) || d == g.day
  {
    var r := InsertGroup(g, gs);
    if gs != [] && g.day <= gs[0].day {
      InsertGroupDays(g, gs[1..]);
      assert r[1..] == InsertGroup(g, gs[1..]);
      assert Days(r) == [gs[0].day] + Days(r[1..]);
      assert Days(gs) == [gs[0].day] + Days(gs[1..]);
    } else if gs != [] {
      assert Days(r) == [g.day] + Days(gs);
    }
  }

  /** Sorting keeps the groups. */
  lemma {:induction false} SortGroupsMultiset(gs: seq<Group>)
    ensures multiset(SortGroups(gs)) == multiset(gs)
  {
    if gs != [] {
      SortGroupsMultiset(gs[1..]);
      InsertGroupMultiset(gs[0], SortGroups(gs[1..]));
      assert gs == [gs[0]] + gs[1..];
    }
  }

  /** Sorting keeps the members. */
  lemma {:induction false} SortGroupsMembers(gs: seq<Group>)
    ensures Members(SortGroups(gs)) == Members(gs)
  {
    if gs != [] {
      SortGroupsMembers(gs[1..]);
      InsertGroupMembers(gs[0], SortGroups(gs[1..]));
    }
  }

  /** Sorting keeps the set of days. */
  lemma {:induction false} SortGroupsDays(gs: seq<Group>)
    ensures forall d :: d in Days(SortGroups(gs)) <==> d in Days(gs)
  {
    if gs != [] {
      SortGroupsDays(gs[1..]);
      InsertGroupDays(gs[0], SortGroups(gs[1..]));
      assert Days(gs) == [gs[0].day] + Days(gs[1..]);
    }
  }

  /** Groups with distinct days come out strictly newest day first. */
  lemma {:induction false} SortGroupsDescending(gs: seq<Group>)
    requires DistinctDays(gs)
    ensures DaysDescending(SortGroups(gs))
  {
    if gs != [] {
      var rest := SortGroups(gs[1..]);
      assert DistinctDays(gs[1..]);
      SortGroupsDescending(gs[1..]);
      SortGroupsDays(gs[1..]);
      assert gs[0].day !in Days(gs[1..]);
      InsertGroupDescending(gs[0], rest);
    }
  }

  /* -------------------------------------------------------- sort entries */

  /** The entries created at time `t`, in their order. */
  function WithTime(es: seq<Entry>, t: int): seq<Entry> {
    if es == [] then []
    else (if es[0].app.createdAt == t then [es[0]] else []) + WithTime(es[1..], t)
  }

  /** Inserts an entry into a newest-first sequence, before every entry no
      newer than it: an entry taken from earlier in the input goes ahead of
      its ties, which is what keeps the sort stable. */
  function InsertEntry(e: Entry, es: seq<Entry>): (r: seq<Entry>)
    requires NewestFirst(es)
    ensures |r| == |es| + 1
    ensures NewestFirst(r)
    ensures r[0] == e || (es != [] && r[0] == es[0])
  {
    if es == [] then [e]
    else if e.app.createdAt >= es[0].app.createdAt then [e] + es
    else
      var rest := InsertEntry(e, es[1..]);
      assert es[0].app.createdAt >= rest[0].app.createdAt;
      [es[0]] + rest
  }

  /** Insertion adds exactly the new entry. */
  lemma {:induction false} InsertEntryCounts(e: Entry, es: seq<Entry>)
    requires NewestFirst(es)
    ensures multiset(InsertEntry(e, es)) == multiset(es) + multiset{e}
  {
    if es != [] && e.app.createdAt < es[0].app.createdAt {
      assert es == [es[0]] + es[1..];
      InsertEntryCounts(e, es[1..]);
    }
  }

  lemma WithTimeCons(x: Entry, ys: seq<Entry>, t: int)
    ensures WithTime([x] + ys, t) == (if x.app.createdAt == t then [x] else []) + WithTime(ys, t)
  {
    assert ([x] + ys)[1..] == ys;
  }

  /** Among the entries of timestamp `t`, insertion puts the new one first. */
  lemma {:induction false} InsertEntryTiesAt(e: Entry, es: seq<Entry>, t: int)
    requires NewestFirst(es)
    ensures WithTime(InsertEntry(e, es), t) == (if e.app.createdAt == t then [e] else []) + WithTime(es, t)
  {
    if es != [] {
      if e.app.createdAt >= es[0].app.createdAt {
        WithTimeCons(e, es, t);
      } else {
        var rest := InsertEntry(e, es[1..]);
        InsertEntryTiesAt(e, es[1..], t);
        assert InsertEntry(e, es) == [es[0]] + rest;
        assert es == [es[0]] + es[1..];
        PassNewer(es[0], e, rest, es[1..], t);
      }
    }
  }

  /** An entry strictly newer than `e` and in front of both sides changes
      nothing about where `e` sits among its ties. */
  lemma PassNewer(x: Entry, e: Entry, rest: seq<Entry>, tail: seq<Entry>, t: int)
    requires e.app.createdAt < x.app.createdAt
    requires WithTime(rest, t) == (if e.app.createdAt == t then [e] else []) + WithTime(tail, t)
    ensures WithTime([x] + rest, t) == (if e.app.createdAt == t then [e] else []) + WithTime([x] + tail, t)
  {
    WithTimeCons(x, rest, t);
    WithTimeCons(x, tail, t);
    if e.app.createdAt == t {
      assert WithTime([x] + rest, t) == WithTime(rest, t);
      assert WithTime([x] + tail, t) == WithTime(tail, t);
    }
  }

  lemma InsertEntryTies(e: Entry, es: seq<Entry>)
    requires NewestFirst(es)
    ensures forall t ::
      WithTime(InsertEntry(e, es), t) == (if e.app.createdAt == t then [e] else []) + WithTime(es, t)
  {
    forall t {
      InsertEntryTiesAt(e, es, t);
    }
  }

  /** `group.applications.sort((a, b) => b.createdAt - a.createdAt)`.
      `Array.prototype.sort` is stable, and so is this: entries with the same
      timestamp keep their input order. */
  function SortEntries(es: seq<Entry>): (r: seq<Entry>)
    ensures |r| == |es|
    ensures multiset(r) == multiset(es)
    ensures NewestFirst(r)
    ensures forall t :: WithTime(r, t) == WithTime(es, t)
  {
    if es == [] then []
    else
      assert es == [es[0]] + es[1..];
      var sorted := SortEntries(es[1..]);
      InsertEntryCounts(es[0], sorted);
      InsertEntryTies(es[0], sorted);
      InsertEntry(es[0], sorted)
  }

  /** Sorts every group's entries. */
  function SortWithin(gs: seq<Group>): (r: seq<Group>)
    ensures |r| == |gs|
    ensures forall i :: 0 <= i < |r| ==> r[i].day == gs[i].day
    ensures forall i :: 0 <= i < |r| ==> multiset(r[i].entries) == multiset(gs[i].entries)
    ensures forall i :: 0 <= i < |r| ==> NewestFirst(r[i].entries)
    ensures Members(r) == Members(gs)
  {
    if gs == [] then []
    else [gs[0].(entries := SortEntries(gs[0].entries))] + SortWithin(gs[1..])
  }

  /* ------------------------------------------------------------ timeline */

  /** `groupedApplications` for a list of companies. */
  function Timeline(cs: seq<CompanyView>): (r: seq<Group>)
    ensures Members(r) == multiset(Flatten(cs))
  {
    BucketMembers(Flatten(cs));
    SortGroupsMembers(Bucket(Flatten(cs)));
    SortWithin(SortGroups(Bucket(Flatten(cs))))
  }

  /** The timeline regroups exactly the flattened pairs: nothing lost, nothing
      duplicated; every group is non-empty and holds only entries of its day;
      days are strictly descending; each group is newest first; the entry count
      is the footer total. */
  lemma TimelineCorrect(cs: seq<CompanyView>)
    ensures var gs := Timeline(cs);
      && Members(gs) == multiset(Flatten(cs))
      && Count(gs) == TotalApps(cs)
      && AllWellFormed(gs)
      && DaysDescending(gs)
      && forall i :: 0 <= i < |gs| ==> NewestFirst(gs[i].entries)
  {
    var b := Bucket(Flatten(cs));
    BucketWellFormed(Flatten(cs));
    BucketDays(Flatten(cs));
    SortGroupsWellFormed(b);
    SortGroupsDescending(b);
    SortWithinWellFormed(SortGroups(b));
    CountIsSize(Timeline(cs));
  }

  /** Sorting the buckets keeps every bucket well formed. */
  lemma SortGroupsWellFormed(gs: seq<Group>)
    requires AllWellFormed(gs)
    ensures AllWellFormed(SortGroups(gs))
  {
    var sorted := SortGroups(gs);
    SortGroupsMultiset(gs);
    forall i | 0 <= i < |sorted|
      ensures WellFormedGroup(sorted[i])
    {
      assert sorted[i] in multiset(gs);
    }
  }

  /** Sorting within each bucket keeps it well formed. */
  lemma SortWithinWellFormed(gs: seq<Group>)
    requires AllWellFormed(gs)
    ensures AllWellFormed(SortWithin(gs))
  {
    var r := SortWithin(gs);
    forall i | 0 <= i < |r|
      ensures WellFormedGroup(r[i])
    {
      assert WellFormedGroup(gs[i]);
      assert |r[i].entries| == |multiset(gs[i].entries)|;
      forall k | 0 <= k < |r[i].entries|
        ensures DayOf(r[i].entries[k]) == r[i].day
      {
        assert r[i].entries[k] in multiset(gs[i].entries);
      }
    }
  }

  /** Two timeline entries share a group exactly when they fall on the same day. */
  lemma SameGroupIffSameDay(cs: seq<CompanyView>, i: int, k: int, j: int, l: int)
    requires var gs := Timeline(cs);
      0 <= i < |gs| && 0 <= k < |gs[i].entries| && 0 <= j < |gs| && 0 <= l < |gs[j].entries|
    ensures var gs := Timeline(cs);
      i == j <==> DayOf(gs[i].entries[k]) == DayOf(gs[j].entries[l])
  {
    TimelineCorrect(cs);
    var gs := Timeline(cs);
    assert WellFormedGroup(gs[i]) && WellFormedGroup(gs[j]);
  }

  /** Every (company, application) pair appears in one group, and only one. */
  lemma ExactlyOneGroup(cs: seq<CompanyView>, e: Entry)
    requires e in Flatten(cs)
    ensures var gs := Timeline(cs);
      && (exists i :: 0 <= i < |gs| && e in gs[i].entries)
      && forall i, j :: 0 <= i < |gs| && 0 <= j < |gs| && e in gs[i].entries && e in gs[j].entries ==> i == j
  {
    var gs := Timeline(cs);
    TimelineCorrect(cs);
    MembersIn(gs, e);
    forall i, j | 0 <= i < |gs| && 0 <= j < |gs| && e in gs[i].entries && e in gs[j].entries
      ensures i == j
    {
      var k :| 0 <= k < |gs[i].entries| && gs[i].entries[k] == e;
      var l :| 0 <= l < |gs[j].entries| && gs[j].entries[l] == e;
      assert WellFormedGroup(gs[i]) && WellFormedGroup(gs[j]);
    }
  }

  /** Read top to bottom, the timeline lists entries newest first across groups
      too: an entry in an earlier group is strictly newer than one in a later
      group. */
  lemma TimelineNewestFirstOverall(cs: seq<CompanyView>, i: int, k: int, j: int, l: int)
    requires var gs := Timeline(cs);
      0 <= i < j < |gs| && 0 <= k < |gs[i].entries| && 0 <= l < |gs[j].entries|
    ensures var gs := Timeline(cs);
      gs[i].entries[k].app.createdAt > gs[j].entries[l].app.createdAt
  {
    TimelineCorrect(cs);
    var gs := Timeline(cs);
    assert WellFormedGroup(gs[i]) && WellFormedGroup(gs[j]);
    DayOrder(gs[j].entries[l].app.createdAt, gs[i].entries[k].app.createdAt);
  }

  /** A later day means a later timestamp. */
  lemma DayOrder(a: int, b: int)
    ensures Day(a) < Day(b) ==> a < b
  {
    if b <= a {
      DayMonotone(b, a);
    }
  }

  /** No applications at all gives no groups, and some gives some. */
  lemma EmptyIffNoApps(cs: seq<CompanyView>)
    ensures Timeline(cs) == [] <==> TotalApps(cs) == 0
  {
    TimelineCorrect(cs);
    var gs := Timeline(cs);
    if gs != [] {
      assert WellFormedGroup(gs[0]);
    }
  }
}
