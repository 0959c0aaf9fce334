/**
 The forgetting-curve plan generator, `PlanManager.generate_forgetting_curve_schedule`.

 The curriculum is 34 lists; lists 1 to 33 have 10 units and list 34 has 2.
 Units are introduced one per day in list-major, unit-minor order, and each
 unit is reviewed 0, 1, 2, 4, 7 and 15 days after its introduction. Dates are
 day numbers.
 */
module Schedule {
  import opened Dicts
  import opened Text
  import opened Keys

  type Day = int

  /** A plan maps each unit key to its review dates; position i is review index i. */
  type Plan = Dict<string, seq<Day>>

  const TotalLists: nat := 34
  const UnitsPerList: nat := 10
  const LastListUnits: nat := 2
  const ForgettingCurveIntervals: seq<nat> := [0, 1, 2, 4, 7, 15]

  /** 33 * 10 + 2 */
  const TotalUnits: nat := (TotalLists - 1) * UnitsPerList + LastListUnits

  /** The last review of the last unit falls this many days after the start. */
  const LastReviewDay: nat := TotalUnits - 1 + 15

  function UnitsIn(listNumber: nat): nat
  {
    if listNumber == TotalLists then LastListUnits else UnitsPerList
  }

  /** A (list, unit) pair of the curriculum. */
  predicate IsCurriculumUnit(listNumber: nat, unitNumber: nat)
  {
    1 <= listNumber <= TotalLists && 1 <= unitNumber <= UnitsIn(listNumber)
  }

  /** The review dates of a unit introduced on `start`, one per interval, in interval order. */
  function ReviewDates(start: Day): (dates: seq<Day>)
    ensures |dates| == 6 && dates[0] == start && dates[5] == start + 15
    ensures forall i, j :: 0 <= i < j < |dates| ==> dates[i] < dates[j]
  {
    seq(|ForgettingCurveIntervals|, i requires 0 <= i < |ForgettingCurveIntervals| => start + ForgettingCurveIntervals[i])
  }

  /** The list and unit numbers of the k-th unit (0-based) in introduction order. */
  function ListOf(k: nat): nat { k / UnitsPerList + 1 }
  function UnitOf(k: nat): nat { k % UnitsPerList + 1 }
  function KeyAt(k: nat): string { UnitKey(ListOf(k), UnitOf(k)) }

  /** The position in introduction order of a (list, unit) pair. */
  function PositionOf(listNumber: nat, unitNumber: nat): int
  {
    (listNumber - 1) * UnitsPerList + (unitNumber - 1)
  }

  /** Positions and curriculum units are in one-to-one correspondence. */
  lemma PositionRoundTrip(listNumber: nat, unitNumber: nat)
    requires IsCurriculumUnit(listNumber, unitNumber)
    ensures 0 <= PositionOf(listNumber, unitNumber) < TotalUnits
    ensures ListOf(PositionOf(listNumber, unitNumber)) == listNumber
    ensures UnitOf(PositionOf(listNumber, unitNumber)) == unitNumber
  {
    var k := PositionOf(listNumber, unitNumber);
    assert k == (listNumber - 1) * 10 + (unitNumber - 1);
    assert k / 10 == listNumber - 1;
  }

  lemma UnitAtPosition(k: nat)
    requires k < TotalUnits
    ensures IsCurriculumUnit(ListOf(k), UnitOf(k))
    ensures PositionOf(ListOf(k), UnitOf(k)) == k
  {
  }

  /** The k-th key and the j-th key differ unless j == k. */
  lemma KeyAtInjective(j: nat, k: nat)
    requires KeyAt(j) == KeyAt(k)
    ensures j == k
  {
    UnitKeyInjective(ListOf(j), UnitOf(j), ListOf(k), UnitOf(k));
    assert j == (j / 10) * 10 + j % 10;
    assert k == (k / 10) * 10 + k % 10;
  }

  /**
   The first n units and only those, in introduction order, the k-th one
   introduced on day `start + k` and reviewed on the forgetting-curve days
   after that.
   */
  predicate GeneratedPrefix(plan: Plan, start: Day, n: nat)
  {
    && Valid(plan)
    && |plan.keys| == n
    && (forall k :: 0 <= k < n ==> plan.keys[k] == KeyAt(k))
    && (forall k :: 0 <= k < n ==> plan.m[KeyAt(k)] == ReviewDates(start + k))
  }

  /** What the generator returns for `start`: all 332 units. */
  predicate IsGenerated(plan: Plan, start: Day)
  {
    GeneratedPrefix(plan, start, TotalUnits)
  }

  /** The k-th unit of the plan is introduced on day start + k; what the due-today reasoning needs. */
  predicate IntroducedDaily(plan: Plan, start: Day)
  {
    && |plan.keys| == TotalUnits
    && (forall k :: 0 <= k < TotalUnits ==> plan.keys[k] in plan.m)
    && (forall k :: 0 <= k < TotalUnits ==> plan.m[plan.keys[k]] == ReviewDates(start + k))
  }

  lemma GeneratedIntroducedDaily(plan: Plan, start: Day)
    requires IsGenerated(plan, start)
    ensures Valid(plan) && IntroducedDaily(plan, start)
  {
  }

  /** Adding the next unit never overwrites an earlier one. */
  lemma GeneratedStep(plan: Plan, start: Day, n: nat)
    requires GeneratedPrefix(plan, start, n)
    ensures KeyAt(n) !in plan.m
    ensures GeneratedPrefix(Set(plan, KeyAt(n), ReviewDates(start + n)), start, n + 1)
  {
    if KeyAt(n) in plan.m {
      var k :| 0 <= k < n && plan.keys[k] == KeyAt(n);
      KeyAtInjective(k, n);
    }
  }

  /** The unit at position n of the curriculum is the next one to add. */
  lemma AddUnit(plan: Plan, start: Day, listNumber: nat, unitNumber: nat)
    requires IsCurriculumUnit(listNumber, unitNumber)
    requires GeneratedPrefix(plan, start, PositionOf(listNumber, unitNumber))
    ensures GeneratedPrefix(Set(plan, UnitKey(listNumber, unitNumber), ReviewDates(start + PositionOf(listNumber, unitNumber))),
      start, PositionOf(listNumber, unitNumber) + 1)
  {
    var n := PositionOf(listNumber, unitNumber);
    PositionRoundTrip(listNumber, unitNumber);
    assert KeyAt(n) == UnitKey(listNumber, unitNumber);
    GeneratedStep(plan, start, n);
  }

  method GenerateForgettingCurveSchedule(startingDate: Day) returns (schedule: Plan)
    ensures IsGenerated(schedule, startingDate)
  {
    schedule := Empty();
    var currentDate := startingDate;
    ghost var n: nat := 0;
    for listNumber := 1 to TotalLists + 1
      invariant n == if listNumber <= TotalLists then (listNumber - 1) * UnitsPerList else TotalUnits
      invariant currentDate == startingDate + n
      invariant GeneratedPrefix(schedule, startingDate, n)
    {
      var totalUnits := if listNumber == 34 then 2 else UnitsPerList;
      for unitNumber := 1 to totalUnits + 1
        invariant n == (listNumber - 1) * UnitsPerList + (unitNumber - 1)
        invariant currentDate == startingDate + n
        invariant GeneratedPrefix(schedule, startingDate, n)
      {
        var reviewDates := ReviewDates(currentDate);
        AddUnit(schedule, startingDate, listNumber, unitNumber);
        schedule := Set(schedule, UnitKey(listNumber, unitNumber), reviewDates);
        currentDate := currentDate + 1;
        n := n + 1;
      }
    }
  }

  /** The plan has exactly one entry per curriculum unit, and no other. */
  lemma GeneratedKeys(plan: Plan, start: Day, listNumber: nat, unitNumber: nat)
    requires IsGenerated(plan, start)
    ensures UnitKey(listNumber, unitNumber) in plan.m <==> IsCurriculumUnit(listNumber, unitNumber)
  {
    var key := UnitKey(listNumber, unitNumber);
    if IsCurriculumUnit(listNumber, unitNumber) {
      PositionRoundTrip(listNumber, unitNumber);
      assert plan.keys[PositionOf(listNumber, unitNumber)] == key;
    } else if key in plan.m {
      var k :| 0 <= k < |plan.keys| && plan.keys[k] == key;
      UnitKeyInjective(ListOf(k), UnitOf(k), listNumber, unitNumber);
      UnitAtPosition(k);
    }
  }

  /** 332 distinct keys. */
  lemma GeneratedSize(plan: Plan, start: Day)
    requires IsGenerated(plan, start)
    ensures |plan.keys| == 332 && |plan.m| == 332
  {
    ValidSize(plan);
  }

  /** Keys come in list-major, unit-minor order. */
  lemma ListMajorOrder(plan: Plan, start: Day, j: nat, k: nat, l1: nat, u1: nat, l2: nat, u2: nat)
    requires IsGenerated(plan, start)
    requires j < k < TotalUnits
    requires plan.keys[j] == UnitKey(l1, u1) && plan.keys[k] == UnitKey(l2, u2)
    ensures l1 < l2 || (l1 == l2 && u1 < u2)
  {
    UnitKeyInjective(l1, u1, ListOf(j), UnitOf(j));
    UnitKeyInjective(l2, u2, ListOf(k), UnitOf(k));
  }

  /**
   Unit M of list N is introduced PositionOf(N, M) days after the start: the
   day counter runs on across list boundaries and is never reset.
   */
  lemma {:induction false} IntroductionDay(plan: Plan, start: Day, listNumber: nat, unitNumber: nat)
    requires IsGenerated(plan, start)
    requires IsCurriculumUnit(listNumber, unitNumber)
    ensures UnitKey(listNumber, unitNumber) in plan.m
    ensures plan.m[UnitKey(listNumber, unitNumber)] == ReviewDates(start + (listNumber - 1) * 10 + unitNumber - 1)
  {
    PositionRoundTrip(listNumber, unitNumber);
    assert KeyAt(PositionOf(listNumber, unitNumber)) == UnitKey(listNumber, unitNumber);
  }

  /** Each unit is reviewed on exactly its six forgetting-curve days. */
  lemma ReviewOffsets(plan: Plan, start: Day, k: nat, i: nat)
    requires IsGenerated(plan, start)
    requires k < TotalUnits && i < 6
    ensures plan.keys[k] in plan.m
    ensures |plan.m[plan.keys[k]]| == 6
    ensures plan.m[plan.keys[k]][i] == start + k + ForgettingCurveIntervals[i]
  {
  }

  /** Every review date of the plan lies in [start, start + 346]. */
  lemma ReviewSpan(plan: Plan, start: Day, key: string, i: nat)
    requires IsGenerated(plan, start)
    requires key in plan.m && i < |plan.m[key]|
    ensures start <= plan.m[key][i] <= start + LastReviewDay
  {
    var k :| 0 <= k < |plan.keys| && plan.keys[k] == key;
  }

  /** Generation is deterministic: the start day determines the whole plan. */
  lemma GeneratedUnique(p1: Plan, p2: Plan, start: Day)
    requires IsGenerated(p1, start) && IsGenerated(p2, start)
    ensures p1 == p2
  {
    assert p1.keys == p2.keys;
    forall key | key in p1.m ensures key in p2.m && p1.m[key] == p2.m[key] {
      var k :| 0 <= k < |p1.keys| && p1.keys[k] == key;
    }
    assert p1.m == p2.m;
  }

  /** The first two units of list 1, for a plan starting on day `start`. */
  lemma FirstUnits(plan: Plan, start: Day)
    requires IsGenerated(plan, start)
    ensures plan.keys[0] == "list:1,unit:1" && plan.keys[1] == "list:1,unit:2"
    ensures plan.m["list:1,unit:1"] == [start, start + 1, start + 2, start + 4, start + 7, start + 15]
    ensures plan.m["list:1,unit:2"][0] == start + 1
  {
    assert KeyAt(0) == "list:1,unit:1";
    assert KeyAt(1) == "list:1,unit:2";
  }
}
