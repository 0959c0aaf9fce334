/**
 The date-based view of a plan, `convert_to_time_based` without its file
 reading and writing: flatten the plan into (date, unit, index) entries in
 plan order, sort them by date with Python's stable `sorted`, and group them
 into one bucket of (unit, index) pairs per date.
 */
module Projection {
  import opened Dicts
  import opened Schedule
  import opened DueToday

  /** `(date, list_unit, index)` */
  datatype Entry = Entry(date: Day, unit: string, index: nat)

  /** `(list_unit, index)`, what a date bucket holds. */
  type Slot = (string, nat)

  predicate NoDuplicates<T(==)>(s: seq<T>)
  {
    forall a, b :: 0 <= a < b < |s| ==> s[a] != s[b]
  }

  /** The entries of one unit, in index order. */
  function Row(key: string, dates: seq<Day>): (row: seq<Entry>)
  {
    seq(|dates|, j requires 0 <= j < |dates| => Entry(dates[j], key, j))
  }

  /** The entries of the listed units, in plan order, then index order. */
  function Flat(keys: seq<string>, m: map<string, seq<Day>>): seq<Entry>
    requires forall k :: k in keys ==> k in m
  {
    if keys == [] then [] else Flat(keys[..|keys| - 1], m) + Row(keys[|keys| - 1], m[keys[|keys| - 1]])
  }

  /** The flattening loop, frontend/main.py lines 282 to 285. */
  method FlattenPlan(studyPlan: Plan) returns (datePlan: seq<Entry>)
    requires Valid(studyPlan)
    ensures datePlan == Flat(studyPlan.keys, studyPlan.m)
    ensures forall e :: e in datePlan <==> IsDue(studyPlan, e.unit, e.index, e.date)
    ensures NoDuplicates(datePlan)
  {
    datePlan := [];
    for u := 0 to |studyPlan.keys|
      invariant datePlan == Flat(studyPlan.keys[..u], studyPlan.m)
    {
      var listUnit := studyPlan.keys[u];
      var dates := studyPlan.m[listUnit];
      ghost var done := Flat(studyPlan.keys[..u], studyPlan.m);
      assert studyPlan.keys[..u + 1][..u] == studyPlan.keys[..u];
      for index := 0 to |dates|
        invariant datePlan == done + Row(listUnit, dates[..index])
      {
        assert Row(listUnit, dates[..index + 1]) == Row(listUnit, dates[..index]) + [Entry(dates[index], listUnit, index)];
        datePlan := datePlan + [Entry(dates[index], listUnit, index)];
      }
      assert dates[..|dates|] == dates;
    }
    assert studyPlan.keys[..|studyPlan.keys|] == studyPlan.keys;
    forall e ensures e in datePlan <==> IsDue(studyPlan, e.unit, e.index, e.date) {
      FlatMembers(studyPlan, studyPlan.keys, e);
    }
    FlatNoDuplicates(studyPlan, studyPlan.keys);
  }

  /** An entry is flattened exactly when it is one of the listed units' reviews. */
  lemma {:induction false} FlatMembers(plan: Plan, keys: seq<string>, e: Entry)
    requires forall k :: k in keys ==> k in plan.m
    ensures e in Flat(keys, plan.m) <==> e.unit in keys && IsDue(plan, e.unit, e.index, e.date)
  {
    if keys != [] {
      var init, last := keys[..|keys| - 1], keys[|keys| - 1];
      assert keys == init + [last];
      FlatMembers(plan, init, e);
      var row := Row(last, plan.m[last]);
      if e in row {
        var j :| 0 <= j < |row| && row[j] == e;
      }
      if e.unit == last && IsDue(plan, last, e.index, e.date) {
        assert row[e.index] == e;
      }
    }
  }

  /** Distinct keys flatten to distinct entries. */
  lemma {:induction false} FlatNoDuplicates(plan: Plan, keys: seq<string>)
    requires forall k :: k in keys ==> k in plan.m
    requires forall i, j :: 0 <= i < j < |keys| ==> keys[i] != keys[j]
    ensures NoDuplicates(Flat(keys, plan.m))
  {
    if keys != [] {
      var init, last := keys[..|keys| - 1], keys[|keys| - 1];
      FlatNoDuplicates(plan, init);
      var before, row := Flat(init, plan.m), Row(last, plan.m[last]);
      var all := before + row;
      forall a, b | 0 <= a < b < |all| ensures all[a] != all[b] {
        if a < |before| <= b {
          FlatMembers(plan, init, all[a]);
          assert all[b].unit == last;
        }
      }
    }
  }

  /** A generated plan flattens to 6 entries per unit. */
  lemma {:induction false} FlatSize(plan: Plan, start: Day, n: nat)
    requires IntroducedDaily(plan, start)
    requires n <= TotalUnits
    ensures |Flat(plan.keys[..n], plan.m)| == 6 * n
  {
    if n > 0 {
      assert plan.keys[..n][..n - 1] == plan.keys[..n - 1];
      FlatSize(plan, start, n - 1);
    }
  }

  /** 332 units times 6 reviews. */
  lemma GeneratedEntryCount(plan: Plan, start: Day)
    requires IsGenerated(plan, start)
    ensures |Flat(plan.keys, plan.m)| == 1992
  {
    GeneratedIntroducedDaily(plan, start);
    FlatSize(plan, start, TotalUnits);
    assert plan.keys[..TotalUnits] == plan.keys;
  }

  // Sorting by date

  predicate SortedByDate(s: seq<Entry>)
  {
    forall a, b :: 0 <= a < b < |s| ==> s[a].date <= s[b].date
  }

  /** The entries of `s` on day `d`, in their order in `s`. */
  function FilterDate(s: seq<Entry>, d: Day): seq<Entry>
  {
    if s == [] then []
    else FilterDate(s[..|s| - 1], d) + (if s[|s| - 1].date == d then [s[|s| - 1]] else [])
  }

  lemma {:induction false} FilterDateAppend(a: seq<Entry>, b: seq<Entry>, d: Day)
    ensures FilterDate(a + b, d) == FilterDate(a, d) + FilterDate(b, d)
  {
    if b != [] {
      var init := b[..|b| - 1];
      assert (a + b)[..|a + b| - 1] == a + init;
      FilterDateAppend(a, init, d);
    } else {
      assert a + b == a;
    }
  }

  lemma {:induction false} FilterDateMembers(s: seq<Entry>, d: Day, e: Entry)
    ensures e in FilterDate(s, d) <==> e in s && e.date == d
  {
    if s != [] {
      var init := s[..|s| - 1];
      assert s == init + [s[|s| - 1]];
      FilterDateMembers(init, d, e);
    }
  }

  lemma {:induction false} FilterDateNoDuplicates(s: seq<Entry>, d: Day)
    requires NoDuplicates(s)
    ensures NoDuplicates(FilterDate(s, d))
  {
    if s != [] {
      var init, last := s[..|s| - 1], s[|s| - 1];
      assert NoDuplicates(init);
      FilterDateNoDuplicates(init, d);
      FilterDateMembers(init, d, last);
      assert last !in init;
    }
  }

  /** Insert x before the first entry not earlier than it. */
  function InsertByDate(x: Entry, r: seq<Entry>): (out: seq<Entry>)
    ensures multiset(out) == multiset(r) + multiset{x}
    ensures forall e :: e in out ==> e == x || e in r
  {
    if r == [] || x.date <= r[0].date then [x] + r
    else
      assert r == [r[0]] + r[1..];
      [r[0]] + InsertByDate(x, r[1..])
  }

  lemma {:induction false} InsertSorted(x: Entry, r: seq<Entry>)
    requires SortedByDate(r)
    ensures SortedByDate(InsertByDate(x, r))
  {
    if r == [] || x.date <= r[0].date {
      SortedCons(x, r);
    } else {
      var tail := r[1..];
      InsertSorted(x, tail);
      var rest := InsertByDate(x, tail);
      forall e | e in rest ensures r[0].date <= e.date {
        if e != x {
          var j :| 0 <= j < |tail| && tail[j] == e;
          assert r[j + 1] == e;
        }
      }
      SortedCons(r[0], rest);
    }
  }

  /** An entry no later than any of a sorted sequence can go in front of it. */
  lemma SortedCons(h: Entry, rest: seq<Entry>)
    requires SortedByDate(rest)
    requires rest != [] ==> h.date <= rest[0].date
    ensures SortedByDate([h] + rest)
  {
    var out := [h] + rest;
    forall a, b | 0 <= a < b < |out| ensures out[a].date <= out[b].date {
      if a == 0 {
        assert rest[0].date <= rest[b - 1].date;
      } else {
        assert out[a] == rest[a - 1] && out[b] == rest[b - 1];
      }
    }
  }

  /** Python's `sorted(date_plan, key=lambda x: x[0])`. */
  function SortByDate(s: seq<Entry>): (r: seq<Entry>)
    ensures SortedByDate(r)
    ensures multiset(r) == multiset(s) && |r| == |s|
  {
    if s == [] then []
    else
      assert s == [s[0]] + s[1..];
      var rest := SortByDate(s[1..]);
      InsertSorted(s[0], rest);
      InsertByDate(s[0], rest)
  }

  lemma FilterDateSingle(e: Entry, d: Day)
    ensures FilterDate([e], d) == if e.date == d then [e] else []
  {
    assert [e][..0] == [];
  }

  lemma {:induction false} InsertStable(x: Entry, r: seq<Entry>, d: Day)
    ensures FilterDate(InsertByDate(x, r), d) == FilterDate([x] + r, d)
  {
    if r != [] && x.date > r[0].date {
      var inserted := InsertByDate(x, r[1..]);
      InsertStable(x, r[1..], d);
      assert r == [r[0]] + r[1..];
      FilterPastHead(x, r[0], r[1..], inserted, d);
    }
  }

  /** Moving an entry past one of another day does not change any day's entries. */
  lemma FilterPastHead(x: Entry, head: Entry, tail: seq<Entry>, inserted: seq<Entry>, d: Day)
    requires x.date != head.date
    requires FilterDate(inserted, d) == FilterDate([x] + tail, d)
    ensures FilterDate([head] + inserted, d) == FilterDate([x] + ([head] + tail), d)
  {
    FilterDateAppend([head], inserted, d);
    FilterDateAppend([x], tail, d);
    FilterDateSingle(x, d);
    FilterDateSingle(head, d);
    assert [x] + ([head] + tail) == [x] + [head] + tail;
    FilterDateAppend([x] + [head], tail, d);
    FilterDateAppend([x], [head], d);
    SwapDisjoint(FilterDate([head], d), FilterDate([x], d), FilterDate(tail, d));
  }

  /** When one of two sequences is empty, their order does not matter. */
  lemma SwapDisjoint<T>(a: seq<T>, b: seq<T>, c: seq<T>)
    requires a == [] || b == []
    ensures a + (b + c) == b + a + c
  {
    if a == [] {
      assert a + (b + c) == b + c;
    } else {
      assert b + a == a;
    }
  }

  /** The sort is stable: on every day, it keeps the entries in their input order. */
  lemma {:induction false} SortStable(s: seq<Entry>, d: Day)
    ensures FilterDate(SortByDate(s), d) == FilterDate(s, d)
  {
    if s != [] {
      var rest := SortByDate(s[1..]);
      SortStable(s[1..], d);
      InsertStable(s[0], rest, d);
      FilterDateAppend([s[0]], rest, d);
      FilterDateAppend([s[0]], s[1..], d);
      assert s == [s[0]] + s[1..];
    }
  }

  // Grouping by date

  function ToSlot(e: Entry): Slot
  {
    (e.unit, e.index)
  }

  /** The (list_unit, index) parts of the entries, in order. */
  function Strip(s: seq<Entry>): (r: seq<Slot>)
    ensures |r| == |s|
  {
    seq(|s|, i requires 0 <= i < |s| => ToSlot(s[i]))
  }

  predicate StrictlyIncreasing(days: seq<Day>)
  {
    forall a, b :: 0 <= a < b < |days| ==> days[a] < days[b]
  }

  type Buckets = Dict<Day, seq<Slot>>

  /** The buckets built from the first i entries of s have exactly those entries' dates. */
  predicate GroupedDays(buckets: Buckets, s: seq<Entry>, i: nat)
    requires i <= |s|
  {
    && Valid(buckets)
    && (forall d :: d in buckets.m ==> exists k :: 0 <= k < i && s[k].date == d)
    && (forall k :: 0 <= k < i ==> s[k].date in buckets.m)
  }

  /** ... and each bucket holds that day's entries among them, in order. */
  predicate GroupedContents(buckets: Buckets, s: seq<Entry>, i: nat)
    requires i <= |s|
  {
    forall d :: d in buckets.m ==> buckets.m[d] == Strip(FilterDate(s[..i], d))
  }

  /** Over sorted entries, buckets come in ascending date order and concatenate to the entries. */
  predicate GroupedInOrder(buckets: Buckets, s: seq<Entry>, i: nat)
    requires i <= |s|
    requires forall d :: d in buckets.keys ==> d in buckets.m
  {
    && StrictlyIncreasing(buckets.keys)
    && Concat(buckets.keys, buckets.m) == Strip(s[..i])
    && (i > 0 ==> buckets.keys != [] && buckets.keys[|buckets.keys| - 1] == s[i - 1].date)
  }

  /** `if date not in d: d[date] = []`, then `d[date].append(slot)`. */
  function AddToBucket(buckets: Buckets, e: Entry): (r: Buckets)
    requires Valid(buckets)
    ensures Valid(r)
    ensures forall d :: d in r.m <==> d in buckets.m || d == e.date
    ensures r.m[e.date] == (if e.date in buckets.m then buckets.m[e.date] else []) + [ToSlot(e)]
    ensures forall d :: d in buckets.m && d != e.date ==> r.m[d] == buckets.m[d]
    ensures r.keys == if e.date in buckets.m then buckets.keys else buckets.keys + [e.date]
  {
    var withBucket := if e.date !in buckets.m then Set(buckets, e.date, []) else buckets;
    Set(withBucket, e.date, withBucket.m[e.date] + [ToSlot(e)])
  }

  lemma FilterDateSnoc(s: seq<Entry>, i: nat, d: Day)
    requires i < |s|
    ensures FilterDate(s[..i + 1], d) == FilterDate(s[..i], d) + (if s[i].date == d then [s[i]] else [])
  {
    assert s[..i + 1][..i] == s[..i];
  }

  lemma StripSnoc(s: seq<Entry>, e: Entry)
    ensures Strip(s + [e]) == Strip(s) + [ToSlot(e)]
  {
  }

  lemma StripPrefixSnoc(s: seq<Entry>, i: nat)
    requires i < |s|
    ensures Strip(s[..i + 1]) == Strip(s[..i]) + [ToSlot(s[i])]
  {
    assert s[..i + 1] == s[..i] + [s[i]];
    StripSnoc(s[..i], s[i]);
  }

  lemma GroupStepDays(buckets: Buckets, s: seq<Entry>, i: nat)
    requires i < |s|
    requires GroupedDays(buckets, s, i)
    ensures GroupedDays(AddToBucket(buckets, s[i]), s, i + 1)
  {
    var r := AddToBucket(buckets, s[i]);
    forall d | d in r.m ensures exists k :: 0 <= k < i + 1 && s[k].date == d {
      if d != s[i].date {
        var k :| 0 <= k < i && s[k].date == d;
      } else {
        assert s[i].date == d;
      }
    }
  }

  /** A day without entries so far has an empty filter. */
  lemma FilterDateAbsent(s: seq<Entry>, i: nat, d: Day)
    requires i <= |s|
    requires forall k :: 0 <= k < i ==> s[k].date != d
    ensures FilterDate(s[..i], d) == []
  {
    if FilterDate(s[..i], d) != [] {
      FilterDateMembers(s[..i], d, FilterDate(s[..i], d)[0]);
    }
  }

  lemma GroupStepContents(buckets: Buckets, s: seq<Entry>, i: nat)
    requires i < |s|
    requires GroupedDays(buckets, s, i) && GroupedContents(buckets, s, i)
    ensures GroupedContents(AddToBucket(buckets, s[i]), s, i + 1)
  {
    var e := s[i];
    var r := AddToBucket(buckets, e);
    forall d | d in r.m ensures r.m[d] == Strip(FilterDate(s[..i + 1], d)) {
      FilterDateSnoc(s, i, d);
      if d == e.date {
        if d !in buckets.m {
          FilterDateAbsent(s, i, d);
        }
        StripSnoc(FilterDate(s[..i], d), e);
      }
    }
  }

  /** Over sorted entries, a day already seen is the latest bucket's day. */
  lemma SeenDayIsLatest(buckets: Buckets, s: seq<Entry>, i: nat)
    requires i < |s| && SortedByDate(s)
    requires GroupedDays(buckets, s, i) && GroupedInOrder(buckets, s, i)
    requires s[i].date in buckets.m
    ensures buckets.keys != [] && buckets.keys[|buckets.keys| - 1] == s[i].date
  {
    var n := |buckets.keys|;
    var j :| 0 <= j < n && buckets.keys[j] == s[i].date;
    var k :| 0 <= k < i && s[k].date == s[i].date;
    assert s[k].date <= s[i - 1].date <= s[i].date;
  }

  /** An entry whose day is already there extends the latest bucket. */
  lemma InOrderStepSeen(buckets: Buckets, s: seq<Entry>, i: nat)
    requires i < |s| && SortedByDate(s)
    requires GroupedDays(buckets, s, i) && GroupedInOrder(buckets, s, i)
    requires s[i].date in buckets.m
    ensures GroupedInOrder(AddToBucket(buckets, s[i]), s, i + 1)
  {
    SeenDayIsLatest(buckets, s, i);
    ConcatStepSeen(buckets, s, i);
  }

  /** Extending the latest bucket extends the concatenation by the entry. */
  lemma ConcatStepSeen(buckets: Buckets, s: seq<Entry>, i: nat)
    requires i < |s| && Valid(buckets)
    requires buckets.keys != [] && buckets.keys[|buckets.keys| - 1] == s[i].date
    requires Concat(buckets.keys, buckets.m) == Strip(s[..i])
    ensures AddToBucket(buckets, s[i]).keys == buckets.keys
    ensures Concat(AddToBucket(buckets, s[i]).keys, AddToBucket(buckets, s[i]).m) == Strip(s[..i + 1])
  {
    var e := s[i];
    var r := AddToBucket(buckets, e);
    var keys := buckets.keys;
    var n := |keys| - 1;
    assert keys[n] in buckets.m;
    forall j | 0 <= j < n ensures keys[j] != keys[n] {
    }
    assert keys[n] !in keys[..n];
    ConcatExtendLast(keys, buckets.m, r.m, ToSlot(e));
    StripPrefixSnoc(s, i);
  }

  /** An entry with a new day opens a bucket after all the others. */
  lemma InOrderStepNew(buckets: Buckets, s: seq<Entry>, i: nat)
    requires i < |s| && SortedByDate(s)
    requires GroupedDays(buckets, s, i) && GroupedInOrder(buckets, s, i)
    requires s[i].date !in buckets.m
    ensures GroupedInOrder(AddToBucket(buckets, s[i]), s, i + 1)
  {
    if i == 0 {
      NoBucketsYet(buckets, s);
    } else {
      assert s[i - 1].date <= s[i].date;
    }
    ConcatStepNew(buckets, s, i);
    NewDayIsLargest(buckets.keys, buckets.m, s[i].date, if i > 0 then s[i - 1].date else s[i].date);
  }

  /** The new bucket's one entry extends the concatenation by that entry. */
  lemma ConcatStepNew(buckets: Buckets, s: seq<Entry>, i: nat)
    requires i < |s| && Valid(buckets) && s[i].date !in buckets.m
    requires Concat(buckets.keys, buckets.m) == Strip(s[..i])
    ensures AddToBucket(buckets, s[i]).keys == buckets.keys + [s[i].date]
    ensures Concat(AddToBucket(buckets, s[i]).keys, AddToBucket(buckets, s[i]).m) == Strip(s[..i + 1])
  {
    var e := s[i];
    var r := AddToBucket(buckets, e);
    NewBucket(buckets, e);
    ConcatAppendKey(buckets.keys, buckets.m, r.m, e.date, ToSlot(e));
    assert Concat(r.keys, r.m) == Strip(s[..i]) + [ToSlot(e)];
    StripPrefixSnoc(s, i);
  }

  /** Before the first entry there are no buckets. */
  lemma NoBucketsYet(buckets: Buckets, s: seq<Entry>)
    requires GroupedDays(buckets, s, 0)
    ensures buckets.keys == []
  {
    assert forall d :: d !in buckets.m;
    assert buckets.m == map[];
    ValidSize(buckets);
  }

  /** Opening a bucket leaves the others as they were. */
  lemma NewBucket(buckets: Buckets, e: Entry)
    requires Valid(buckets) && e.date !in buckets.m
    ensures AddToBucket(buckets, e).keys == buckets.keys + [e.date]
    ensures forall d :: d in buckets.keys ==> d in buckets.m && d in AddToBucket(buckets, e).m && buckets.m[d] == AddToBucket(buckets, e).m[d]
    ensures AddToBucket(buckets, e).m[e.date] == [ToSlot(e)]
  {
  }

  /** A day above the last of ascending days keeps them ascending. */
  lemma NewDayIsLargest(keys: seq<Day>, m: map<Day, seq<Slot>>, d: Day, last: Day)
    requires StrictlyIncreasing(keys) && forall k :: k in keys ==> k in m
    requires d !in m
    requires keys != [] ==> keys[|keys| - 1] == last && last <= d
    ensures StrictlyIncreasing(keys + [d])
  {
    var r := keys + [d];
    forall a, b | 0 <= a < b < |r| ensures r[a] < r[b] {
      if b == |keys| {
        assert r[a] == keys[a] && keys[a] in m;
        assert keys[a] <= keys[|keys| - 1];
      }
    }
  }

  /** The grouping loop, frontend/main.py lines 291 to 295. */
  method GroupByDate(datePlanSorted: seq<Entry>) returns (sortedStudyPlan: Buckets)
    ensures Valid(sortedStudyPlan)
    ensures forall d :: d in sortedStudyPlan.m <==> exists e :: e in datePlanSorted && e.date == d
    ensures forall d :: d in sortedStudyPlan.m ==> sortedStudyPlan.m[d] == Strip(FilterDate(datePlanSorted, d))
    ensures forall d :: d in sortedStudyPlan.m ==> sortedStudyPlan.m[d] != []
    ensures SortedByDate(datePlanSorted) ==> StrictlyIncreasing(sortedStudyPlan.keys)
    ensures SortedByDate(datePlanSorted) ==> Concat(sortedStudyPlan.keys, sortedStudyPlan.m) == Strip(datePlanSorted)
  {
    sortedStudyPlan := Empty();
    for i := 0 to |datePlanSorted|
      invariant GroupedDays(sortedStudyPlan, datePlanSorted, i)
      invariant GroupedContents(sortedStudyPlan, datePlanSorted, i)
      invariant SortedByDate(datePlanSorted) ==> GroupedInOrder(sortedStudyPlan, datePlanSorted, i)
    {
      var entry := datePlanSorted[i];
      GroupStepDays(sortedStudyPlan, datePlanSorted, i);
      GroupStepContents(sortedStudyPlan, datePlanSorted, i);
      if SortedByDate(datePlanSorted) {
        if entry.date in sortedStudyPlan.m {
          InOrderStepSeen(sortedStudyPlan, datePlanSorted, i);
        } else {
          InOrderStepNew(sortedStudyPlan, datePlanSorted, i);
        }
      }
      sortedStudyPlan := AddToBucket(sortedStudyPlan, entry);
    }
    assert datePlanSorted[..|datePlanSorted|] == datePlanSorted;
    forall d | d in sortedStudyPlan.m ensures sortedStudyPlan.m[d] != [] {
      var k :| 0 <= k < |datePlanSorted| && datePlanSorted[k].date == d;
      FilterDateMembers(datePlanSorted, d, datePlanSorted[k]);
    }
  }

  /** The bucket of day d: the plan's reviews on d, in plan order. */
  function Bucket(plan: Plan, d: Day): seq<Slot>
    requires Valid(plan)
  {
    Strip(FilterDate(Flat(plan.keys, plan.m), d))
  }

  /** frontend/main.py lines 282 to 295: flatten, sort by date, group. */
  method ConvertToTimeBased(studyPlan: Plan) returns (sortedStudyPlan: Buckets)
    requires Valid(studyPlan)
    ensures Valid(sortedStudyPlan)
    ensures StrictlyIncreasing(sortedStudyPlan.keys)
    ensures forall d :: d in sortedStudyPlan.m <==> exists e :: e in Flat(studyPlan.keys, studyPlan.m) && e.date == d
    ensures forall d :: d in sortedStudyPlan.m ==> sortedStudyPlan.m[d] == Bucket(studyPlan, d) && sortedStudyPlan.m[d] != []
    ensures Concat(sortedStudyPlan.keys, sortedStudyPlan.m) == Strip(SortByDate(Flat(studyPlan.keys, studyPlan.m)))
    ensures |Concat(sortedStudyPlan.keys, sortedStudyPlan.m)| == |Flat(studyPlan.keys, studyPlan.m)|
  {
    var datePlan := FlattenPlan(studyPlan);
    var datePlanSorted := SortByDate(datePlan);
    sortedStudyPlan := GroupByDate(datePlanSorted);
    forall d | d in sortedStudyPlan.m ensures sortedStudyPlan.m[d] == Bucket(studyPlan, d) {
      SortStable(datePlan, d);
    }
    forall e | e in datePlan ensures e in datePlanSorted {
      assert e in multiset(datePlan);
    }
    forall e | e in datePlanSorted ensures e in datePlan {
      assert e in multiset(datePlanSorted);
    }
  }

  /** A bucket holds (unit, index) exactly when that unit's review of that index falls on the bucket's day. */
  lemma BucketMembers(plan: Plan, d: Day, key: string, i: nat)
    requires Valid(plan)
    ensures (key, i) in Bucket(plan, d) <==> IsDue(plan, key, i, d)
  {
    var flat := Flat(plan.keys, plan.m);
    var filtered := FilterDate(flat, d);
    var e := Entry(d, key, i);
    FlatMembers(plan, plan.keys, e);
    FilterDateMembers(flat, d, e);
    if (key, i) in Bucket(plan, d) {
      var a :| 0 <= a < |filtered| && ToSlot(filtered[a]) == (key, i);
      FilterDateMembers(flat, d, filtered[a]);
      assert filtered[a] == e;
    }
    if IsDue(plan, key, i, d) {
      var a :| 0 <= a < |filtered| && filtered[a] == e;
      assert Bucket(plan, d)[a] == (key, i);
    }
  }

  /** Each of the plan's reviews appears in its day's bucket once. */
  lemma BucketNoDuplicates(plan: Plan, d: Day)
    requires Valid(plan)
    ensures NoDuplicates(Bucket(plan, d))
  {
    var flat := Flat(plan.keys, plan.m);
    FlatNoDuplicates(plan, plan.keys);
    FilterDateNoDuplicates(flat, d);
    var filtered := FilterDate(flat, d);
    forall a, b | 0 <= a < b < |filtered| ensures ToSlot(filtered[a]) != ToSlot(filtered[b]) {
      FilterDateMembers(flat, d, filtered[a]);
      FilterDateMembers(flat, d, filtered[b]);
    }
  }

  /**
   For a generated plan the two views agree: the bucket of day d holds
   (unit, index) exactly when the due-today scan on day d labels that index
   with that unit.
   */
  lemma ProjectionMatchesDueToday(plan: Plan, start: Day, d: Day, key: string, i: nat)
    requires IsGenerated(plan, start)
    ensures var today := Collect(DuePairs(plan.keys, plan.m, d));
      (key, i) in Bucket(plan, d) <==> Label(i) in today.m && today.m[Label(i)] == key
  {
    BucketMembers(plan, d, key, i);
    TodayWordsOfGeneratedPlan(plan, start, d);
  }
}
