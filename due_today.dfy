/**
 The due-today scan of the "Today's Vocabulary" page: walk the plan in its
 iteration order and, for every review index whose date is today, record
 `keys_with_date[index + 'th'] = unit key`. After the plan has been through
 JSON the review indices are the strings "0" to "5", so the labels are
 "0th" to "5th", counted from zero.
 */
module DueToday {
  import opened Dicts
  import opened Text
  import opened Keys
  import opened Schedule

  /** A review due today: (review index, unit key). */
  type Due = (nat, string)

  /** The label under which a review index is recorded. */
  function Label(index: nat): (text: string)
    ensures |text| >= 3 && text[|text| - 2..] == "th"
    ensures forall j :: 0 <= j < |text| - 2 ==> IsDigit(text[j])
  {
    Decimal(index) + "th"
  }

  lemma LabelInjective(i: nat, j: nat)
    requires Label(i) == Label(j)
    ensures i == j
  {
    assert Decimal(i) == Label(i)[..|Label(i)| - 2];
    assert Decimal(j) == Label(j)[..|Label(j)| - 2];
    DecimalInjective(i, j);
  }

  /** Unit `key` has review index `index` on day `today`. */
  predicate IsDue(plan: Plan, key: string, index: nat, today: Day)
  {
    key in plan.m && index < |plan.m[key]| && plan.m[key][index] == today
  }

  /** The review indices of one unit that fall on `today`, in index order. */
  function DueIn(key: string, dates: seq<Day>, today: Day): seq<Due>
  {
    if dates == [] then []
    else
      DueIn(key, dates[..|dates| - 1], today)
      + (if dates[|dates| - 1] == today then [(|dates| - 1, key)] else [])
  }

  /** Every review of the listed units that falls on `today`, in plan order, then index order. */
  function DuePairs(keys: seq<string>, m: map<string, seq<Day>>, today: Day): seq<Due>
    requires forall k :: k in keys ==> k in m
  {
    if keys == [] then []
    else DuePairs(keys[..|keys| - 1], m, today) + DueIn(keys[|keys| - 1], m[keys[|keys| - 1]], today)
  }

  /** The assignments `keys_with_date[index + 'th'] = unit key` for a sequence of due reviews. */
  function Labelled(pairs: seq<Due>): (kvs: seq<(string, string)>)
    ensures |kvs| == |pairs|
    ensures forall a :: 0 <= a < |pairs| ==> kvs[a] == (Label(pairs[a].0), pairs[a].1)
  {
    seq(|pairs|, a requires 0 <= a < |pairs| => (Label(pairs[a].0), pairs[a].1))
  }

  /** The dictionary the scan builds from a sequence of due reviews, one assignment each. */
  function Collect(pairs: seq<Due>): (r: Dict<string, string>)
    ensures Valid(r)
  {
    Assign(Labelled(pairs))
  }

  /** The scan at frontend/main.py, lines 220 to 226. */
  method CheckTodayWords(plan: Plan, today: Day) returns (keysWithDate: Dict<string, string>)
    requires Valid(plan)
    ensures keysWithDate == Collect(DuePairs(plan.keys, plan.m, today))
    ensures forall i: nat :: Label(i) in keysWithDate.m <==> exists key :: IsDue(plan, key, i, today)
  {
    keysWithDate := Empty();
    for u := 0 to |plan.keys|
      invariant keysWithDate == Collect(DuePairs(plan.keys[..u], plan.m, today))
    {
      var mainKey := plan.keys[u];
      var value := plan.m[mainKey];
      ghost var done := DuePairs(plan.keys[..u], plan.m, today);
      DuePairsSnoc(plan.keys, plan.m, today, u);
      if today in value {
        keysWithDate := RecordDueIndices(keysWithDate, mainKey, value, today, done);
      } else {
        DueInNone(mainKey, value, today);
        assert done + DueIn(mainKey, value, today) == done;
      }
    }
    assert plan.keys[..|plan.keys|] == plan.keys;
    forall i: nat ensures Label(i) in keysWithDate.m <==> exists key :: IsDue(plan, key, i, today) {
      LabelledExactlyWhenDue(plan, today, i);
    }
  }

  /** Lines 224 to 226: record every index of one unit whose date is today. */
  method RecordDueIndices(keysWithDate: Dict<string, string>, mainKey: string, value: seq<Day>, today: Day, ghost done: seq<Due>)
    returns (r: Dict<string, string>)
    requires keysWithDate == Collect(done)
    ensures r == Collect(done + DueIn(mainKey, value, today))
  {
    r := keysWithDate;
    ghost var pairs := done;
    assert value[..0] == [];
    for index := 0 to |value|
      invariant pairs == done + DueIn(mainKey, value[..index], today)
      invariant r == Collect(pairs)
    {
      DueAfter(done, mainKey, value, today, index);
      if value[index] == today {
        CollectSnoc(pairs, (index, mainKey));
        r := Set(r, Label(index), mainKey);
        pairs := pairs + [(index, mainKey)];
      }
    }
    assert value[..|value|] == value;
  }

  /** An index is labelled exactly when some unit's review of that index falls on `today`. */
  lemma LabelledExactlyWhenDue(plan: Plan, today: Day, i: nat)
    requires Valid(plan)
    ensures Label(i) in Collect(DuePairs(plan.keys, plan.m, today)).m <==> exists key :: IsDue(plan, key, i, today)
  {
    var pairs := DuePairs(plan.keys, plan.m, today);
    CollectKeys(pairs, Label(i));
    if Label(i) in Collect(pairs).m {
      var p :| p in pairs && Label(p.0) == Label(i);
      LabelInjective(p.0, i);
      DuePairsMembers(plan, plan.keys, today, p);
      assert IsDue(plan, p.1, i, today);
    } else {
      forall key | IsDue(plan, key, i, today) ensures false {
        DuePairsMembers(plan, plan.keys, today, (i, key));
      }
    }
  }

  lemma DueInSnoc(key: string, dates: seq<Day>, today: Day, j: nat)
    requires j < |dates|
    ensures DueIn(key, dates[..j + 1], today)
      == DueIn(key, dates[..j], today) + (if dates[j] == today then [(j, key)] else [])
  {
    assert dates[..j + 1][..j] == dates[..j];
  }

  lemma DueAfter(done: seq<Due>, key: string, dates: seq<Day>, today: Day, j: nat)
    requires j < |dates|
    ensures dates[j] == today ==>
      done + DueIn(key, dates[..j + 1], today) == done + DueIn(key, dates[..j], today) + [(j, key)]
    ensures dates[j] != today ==>
      done + DueIn(key, dates[..j + 1], today) == done + DueIn(key, dates[..j], today)
  {
    DueInSnoc(key, dates, today, j);
    var before := DueIn(key, dates[..j], today);
    if dates[j] == today {
      assert done + (before + [(j, key)]) == done + before + [(j, key)];
    } else {
      assert before + [] == before;
    }
  }

  lemma DuePairsSnoc(keys: seq<string>, m: map<string, seq<Day>>, today: Day, u: nat)
    requires forall k :: k in keys ==> k in m
    requires u < |keys|
    ensures DuePairs(keys[..u + 1], m, today) == DuePairs(keys[..u], m, today) + DueIn(keys[u], m[keys[u]], today)
  {
    assert keys[..u + 1][..u] == keys[..u];
  }

  lemma CollectSnoc(pairs: seq<Due>, p: Due)
    ensures Collect(pairs + [p]) == Set(Collect(pairs), Label(p.0), p.1)
  {
    assert Labelled(pairs + [p]) == Labelled(pairs) + [(Label(p.0), p.1)];
    AssignSnoc(Labelled(pairs), (Label(p.0), p.1));
  }

  lemma {:induction false} DueInNone(key: string, dates: seq<Day>, today: Day)
    requires today !in dates
    ensures DueIn(key, dates, today) == []
  {
    if dates != [] {
      DueInNone(key, dates[..|dates| - 1], today);
    }
  }

  lemma {:induction false} DueInMembers(key: string, dates: seq<Day>, today: Day, p: Due)
    ensures p in DueIn(key, dates, today) <==> p.1 == key && p.0 < |dates| && dates[p.0] == today
  {
    if dates != [] {
      DueInMembers(key, dates[..|dates| - 1], today, p);
    }
  }

  /** A pair is collected exactly when that unit's review of that index falls on `today`. */
  lemma {:induction false} DuePairsMembers(plan: Plan, keys: seq<string>, today: Day, p: Due)
    requires forall k :: k in keys ==> k in plan.m
    ensures p in DuePairs(keys, plan.m, today) <==> p.1 in keys && IsDue(plan, p.1, p.0, today)
  {
    if keys != [] {
      var last := keys[|keys| - 1];
      var init := keys[..|keys| - 1];
      assert keys == init + [last];
      DuePairsMembers(plan, init, today, p);
      DueInMembers(last, plan.m[last], today, p);
    }
  }

  /** A label is present exactly when some collected pair carries that index. */
  lemma CollectKeys(pairs: seq<Due>, tag: string)
    ensures tag in Collect(pairs).m <==> exists p :: p in pairs && Label(p.0) == tag
  {
    var kvs := Labelled(pairs);
    AssignKeys(kvs, tag);
    if tag in Collect(pairs).m {
      var j :| 0 <= j < |kvs| && Firsts(kvs)[j] == tag;
      assert pairs[j] in pairs;
    }
    if exists p :: p in pairs && Label(p.0) == tag {
      var p :| p in pairs && Label(p.0) == tag;
      var j :| 0 <= j < |pairs| && pairs[j] == p;
      assert Firsts(kvs)[j] == tag;
    }
  }

  /** No two pairs have the same review index. */
  predicate DistinctIndices(pairs: seq<Due>)
  {
    forall a, b :: 0 <= a < b < |pairs| ==> pairs[a].0 != pairs[b].0
  }

  predicate DecreasingIndices(pairs: seq<Due>)
  {
    forall a, b :: 0 <= a < b < |pairs| ==> pairs[a].0 > pairs[b].0
  }

  /**
   When no index repeats, no assignment overwrites another: the dictionary
   holds one entry per pair, in the pairs' order.
   */
  lemma CollectDistinct(pairs: seq<Due>)
    requires DistinctIndices(pairs)
    ensures |Collect(pairs).keys| == |pairs|
    ensures forall a :: 0 <= a < |pairs| ==> Collect(pairs).keys[a] == Label(pairs[a].0)
    ensures forall a :: 0 <= a < |pairs| ==> Collect(pairs).m[Label(pairs[a].0)] == pairs[a].1
  {
    var kvs := Labelled(pairs);
    forall a, b | 0 <= a < b < |kvs| ensures kvs[a].0 != kvs[b].0 {
      if kvs[a].0 == kvs[b].0 {
        LabelInjective(pairs[a].0, pairs[b].0);
      }
    }
    AssignDistinct(kvs);
    forall a | 0 <= a < |pairs| ensures Collect(pairs).m[Label(pairs[a].0)] == pairs[a].1 {
      AssignDistinctValues(kvs, a);
    }
  }

  /** The review of index p.0 of the k-th unit falls on `today` only if `today` is start + k + interval. */
  lemma DueDay(plan: Plan, start: Day, today: Day, k: nat, p: Due)
    requires Valid(plan) && IntroducedDaily(plan, start)
    requires k < TotalUnits && p.1 == plan.keys[k] && IsDue(plan, p.1, p.0, today)
    ensures p.0 < 6 && start + k + ForgettingCurveIntervals[p.0] == today
  {
  }

  /** Larger intervals belong to larger indices. */
  lemma IntervalOrder(i: nat, j: nat)
    requires i < 6 && j < 6
    requires ForgettingCurveIntervals[i] > ForgettingCurveIntervals[j]
    ensures i > j
  {
  }

  /** A unit introduced earlier is due today at a larger index than a unit introduced later. */
  lemma EarlierUnitLargerIndex(plan: Plan, start: Day, today: Day, n: nat, p: Due, q: Due)
    requires Valid(plan) && IntroducedDaily(plan, start)
    requires 0 < n <= TotalUnits
    requires p in DuePairs(plan.keys[..n - 1], plan.m, today)
    requires q in DueIn(plan.keys[n - 1], plan.m[plan.keys[n - 1]], today)
    ensures p.0 > q.0
  {
    var init := plan.keys[..n - 1];
    DueInMembers(plan.keys[n - 1], plan.m[plan.keys[n - 1]], today, q);
    DueDay(plan, start, today, n - 1, q);
    DuePairsMembers(plan, init, today, p);
    var k :| 0 <= k < n - 1 && init[k] == p.1;
    DueDay(plan, start, today, k, p);
    IntervalOrder(p.0, q.0);
  }

  /** In a generated plan the pairs due on a day come with strictly decreasing indices. */
  lemma {:induction false} GeneratedDueDescending(plan: Plan, start: Day, today: Day, n: nat)
    requires Valid(plan) && IntroducedDaily(plan, start)
    requires n <= TotalUnits
    ensures DecreasingIndices(DuePairs(plan.keys[..n], plan.m, today))
  {
    if n > 0 {
      var init := plan.keys[..n - 1];
      assert plan.keys[..n][..n - 1] == init;
      GeneratedDueDescending(plan, start, today, n - 1);
      var before := DuePairs(init, plan.m, today);
      assert DecreasingIndices(before);
      var key := plan.keys[n - 1];
      var here := DueIn(key, plan.m[key], today);
      var pairs := before + here;
      assert pairs == DuePairs(plan.keys[..n], plan.m, today);
      DueInAtMostOne(key, plan.m[key], today);
      forall p, q | p in before && q in here ensures p.0 > q.0 {
        EarlierUnitLargerIndex(plan, start, today, n, p, q);
      }
      DecreasingAppend(before, here);
    }
  }

  lemma DecreasingAppend(before: seq<Due>, here: seq<Due>)
    requires DecreasingIndices(before) && |here| <= 1
    requires forall p, q :: p in before && q in here ==> p.0 > q.0
    ensures DecreasingIndices(before + here)
  {
    var pairs := before + here;
    forall a, b | 0 <= a < b < |pairs| ensures pairs[a].0 > pairs[b].0 {
      if b >= |before| {
        assert pairs[a] == before[a] && pairs[b] == here[0];
        assert before[a] in before && here[0] in here;
      } else {
        assert pairs[a] == before[a] && pairs[b] == before[b];
      }
    }
  }

  /** A unit whose review dates are all different is due at most once on a day. */
  lemma {:induction false} DueInAtMostOne(key: string, dates: seq<Day>, today: Day)
    requires forall i, j :: 0 <= i < j < |dates| ==> dates[i] != dates[j]
    ensures |DueIn(key, dates, today)| <= 1
  {
    if dates != [] {
      var init := dates[..|dates| - 1];
      DueInAtMostOne(key, init, today);
      if dates[|dates| - 1] == today {
        DueInNone(key, init, today);
      }
    }
  }

  /**
   For a generated plan the scan never overwrites an entry: at most one unit
   is due at each review index on a day, so the scan records one entry per
   due review, in plan order, and an index is labelled with a unit exactly
   when that unit's review of that index falls on `today`.
   */
  lemma TodayWordsOfGeneratedPlan(plan: Plan, start: Day, today: Day)
    requires IsGenerated(plan, start)
    ensures var pairs := DuePairs(plan.keys, plan.m, today);
      var r := Collect(pairs);
      && |r.keys| == |pairs| <= 6
      && (forall a :: 0 <= a < |pairs| ==> r.keys[a] == Label(pairs[a].0) && r.m[r.keys[a]] == pairs[a].1)
      && (forall i: nat, key :: (Label(i) in r.m && r.m[Label(i)] == key) <==> IsDue(plan, key, i, today))
  {
    GeneratedIntroducedDaily(plan, start);
    DailyPairsDescending(plan, start, today);
    var pairs := DuePairs(plan.keys, plan.m, today);
    CollectDistinct(pairs);
    DescendingBelowSix(pairs);
    CollectedExactlyWhenDue(plan, today);
  }

  /** The pairs due on a day of a daily plan: decreasing indices, all below six. */
  lemma DailyPairsDescending(plan: Plan, start: Day, today: Day)
    requires Valid(plan) && IntroducedDaily(plan, start)
    ensures DecreasingIndices(DuePairs(plan.keys, plan.m, today))
    ensures DistinctIndices(DuePairs(plan.keys, plan.m, today))
    ensures forall a :: 0 <= a < |DuePairs(plan.keys, plan.m, today)| ==> DuePairs(plan.keys, plan.m, today)[a].0 < 6
  {
    var pairs := DuePairs(plan.keys, plan.m, today);
    assert plan.keys[..TotalUnits] == plan.keys;
    GeneratedDueDescending(plan, start, today, TotalUnits);
    assert DecreasingIndices(pairs);
    forall a | 0 <= a < |pairs| ensures pairs[a].0 < 6 {
      DuePairsMembers(plan, plan.keys, today, pairs[a]);
      var k :| 0 <= k < |plan.keys| && plan.keys[k] == pairs[a].1;
    }
  }

  /** With distinct indices, the scan labels index i with key exactly when that review is due. */
  lemma CollectedExactlyWhenDue(plan: Plan, today: Day)
    requires Valid(plan) && DistinctIndices(DuePairs(plan.keys, plan.m, today))
    ensures var r := Collect(DuePairs(plan.keys, plan.m, today));
      forall i: nat, key :: (Label(i) in r.m && r.m[Label(i)] == key) <==> IsDue(plan, key, i, today)
  {
    var pairs := DuePairs(plan.keys, plan.m, today);
    var r := Collect(pairs);
    forall i: nat, key ensures (Label(i) in r.m && r.m[Label(i)] == key) <==> IsDue(plan, key, i, today) {
      CollectedPair(pairs, i, key);
      DuePairsMembers(plan, plan.keys, today, (i, key));
    }
  }

  /** With distinct indices, index i is labelled with key exactly when (i, key) is one of the pairs. */
  lemma CollectedPair(pairs: seq<Due>, i: nat, key: string)
    requires DistinctIndices(pairs)
    ensures (Label(i) in Collect(pairs).m && Collect(pairs).m[Label(i)] == key) <==> (i, key) in pairs
  {
    var r := Collect(pairs);
    CollectDistinct(pairs);
    CollectKeys(pairs, Label(i));
    if Label(i) in r.m {
      var p :| p in pairs && Label(p.0) == Label(i);
      LabelInjective(p.0, i);
      var a :| 0 <= a < |pairs| && pairs[a] == p;
      assert r.m[Label(i)] == p.1;
    }
    if (i, key) in pairs {
      var a :| 0 <= a < |pairs| && pairs[a] == (i, key);
      assert r.keys[a] == Label(i);
    }
  }

  /** Strictly decreasing indices below six: at most six of them. */
  lemma {:induction false} DescendingBelowSix(pairs: seq<Due>)
    requires DecreasingIndices(pairs)
    requires forall a :: 0 <= a < |pairs| ==> pairs[a].0 < 6
    ensures |pairs| <= 6
  {
    if |pairs| > 6 {
      DescendingDrop(pairs, 6);
    }
  }

  lemma {:induction false} DescendingDrop(pairs: seq<Due>, a: nat)
    requires DecreasingIndices(pairs)
    requires forall x :: 0 <= x < |pairs| ==> pairs[x].0 < 6
    requires a < |pairs|
    ensures pairs[a].0 + a <= 5
  {
    if a > 0 {
      DescendingDrop(pairs, a - 1);
    }
  }

  /** Before the start day or after the last review, nothing is due. */
  lemma NothingDueOutsidePlan(plan: Plan, start: Day, today: Day)
    requires IsGenerated(plan, start)
    requires today < start || today > start + LastReviewDay
    ensures Collect(DuePairs(plan.keys, plan.m, today)).keys == []
  {
    var pairs := DuePairs(plan.keys, plan.m, today);
    if pairs != [] {
      DuePairsMembers(plan, plan.keys, today, pairs[0]);
      ReviewSpan(plan, start, pairs[0].1, pairs[0].0);
    }
  }

  /**
   Every unit key the scan records splits, as the page splits it, into the
   printed numbers of a curriculum unit.
   */
  lemma DueKeysSplit(plan: Plan, start: Day, today: Day, tag: string)
    requires IsGenerated(plan, start)
    requires tag in Collect(DuePairs(plan.keys, plan.m, today)).m
    ensures exists listNumber: nat, unitNumber: nat ::
      && IsCurriculumUnit(listNumber, unitNumber)
      && Collect(DuePairs(plan.keys, plan.m, today)).m[tag] == UnitKey(listNumber, unitNumber)
      && SplitKey(UnitKey(listNumber, unitNumber)) == Some((Decimal(listNumber), Decimal(unitNumber)))
  {
    var pairs := DuePairs(plan.keys, plan.m, today);
    TodayWordsOfGeneratedPlan(plan, start, today);
    var r := Collect(pairs);
    var a :| 0 <= a < |r.keys| && r.keys[a] == tag;
    var key := pairs[a].1;
    DuePairsMembers(plan, plan.keys, today, pairs[a]);
    var k :| 0 <= k < |plan.keys| && plan.keys[k] == key;
    UnitAtPosition(k);
    KeyRoundTrip(ListOf(k), UnitOf(k));
  }
}
