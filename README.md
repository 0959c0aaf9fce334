# Forgetting-curve review planner

A model of the planning core of a vocabulary-learning web app. The
curriculum is 34 word lists: lists 1 to 33 have 10 units each and list 34
has 2, so 332 units in all. The planner introduces one unit per day, in
list-major, unit-minor order. Each unit is reviewed 0, 1, 2, 4, 7 and 15
days after its introduction. A plan is an insertion-ordered dictionary from
unit keys `"list:N,unit:M"` to the unit's six review dates, indexed 0 to 5.

The project models three operations of `frontend/main.py`:

- `PlanManager.generate_forgetting_curve_schedule` builds the plan. In the
  model it is `Schedule.GenerateForgettingCurveSchedule`.
- The "Today's Vocabulary" scan walks the plan and records, for each review
  index whose date is today, `keys_with_date[index + "th"] = unit key`. It
  then splits each recorded key back into its list and unit numbers. In the
  model these are `DueToday.CheckTodayWords` and `Keys.SplitKey`.
- `convert_to_time_based` flattens the plan into `(date, unit, index)`
  entries, sorts them by date with Python's stable `sorted`, and groups
  them into one bucket per date. In the model it is
  `Projection.ConvertToTimeBased`, without the file reading and writing.

Python dictionaries are modelled by `Dicts.Dict`, a key order plus a map,
with Python's assignment semantics. Assigning to a new key appends it to
the iteration order. Assigning to an existing key replaces its value and
keeps its position. Dates are integer day numbers. Unit keys are real
strings, built with the decimal rendering `Text.Decimal` and taken apart
with the model of `str.split`, `Text.Split`.

Modules:

- `Dicts`: the ordered dictionary.
- `Text`: decimal rendering and splitting.
- `Keys`: unit keys and the key split.
- `Schedule`: the generator.
- `DueToday`: the due-today scan.
- `Projection`: the date-based view.

## Model

| member | source | states |
|---|---|---|
| Dicts.Set | frontend/main.py:226 | Dictionary assignment. The key then maps to the new value and no other key changes. An existing key keeps its place in the iteration order; a new key goes at the end. |
| Dicts.ValidSize | frontend/main.py:222 | A dictionary has as many entries as keys in its iteration order. |
| Dicts.AssignDistinct | frontend/main.py:224-226 | A run of assignments to pairwise distinct keys produces keys in assignment order. |
| Dicts.AssignKeys | frontend/main.py:224-226 | After a run of assignments, a key is present exactly when it was assigned at some step. |
| Text.Decimal | frontend/main.py:41 | `str(n)` for a natural number, as the f-string of the key prints it: a non-empty string of decimal digits. |
| Text.DecimalNoLeadingZero | frontend/main.py:41 | Only zero is printed with a leading `0`. |
| Text.DigitsValueOfDecimal | frontend/main.py:41 | Reading back the decimal digits that an f-string prints for a number gives that number. |
| Text.Split | frontend/main.py:231 | `str.split(sep)` with a one-character separator: the pieces between separators, never an empty list. |
| Text.SplitCount | frontend/main.py:231 | Splitting gives exactly one more piece than there are separators in the string. |
| Text.SplitPieces | frontend/main.py:231 | No piece contains the separator, and every character of a piece is a character of the string. |
| Text.SplitJoin | frontend/main.py:231 | Joining the pieces with the separator gives back the string, so no character is lost or added. |
| Text.SplitAtFirst | frontend/main.py:231 | `str.split` ends the first piece at the first separator. |
| Keys.UnitKey | frontend/main.py:41 | The key f-string `list:N,unit:M`. Its contract gives the shortest key, 13 characters; its shape is stated by `Keys.KeyParts` and `Keys.KeyRoundTrip`. |
| Keys.KeyParts | frontend/main.py:231 | A key contains a comma, and splitting it on `,` gives exactly `list:<N>` and `unit:<M>`. |
| Keys.SplitKey | frontend/main.py:231 | The two-level split of line 231. It is None exactly where Python's indexing raises IndexError; a value without a comma always gives None. A result's fields contain neither `,` nor `:`. |
| Keys.KeyRoundTrip | frontend/main.py:231 | Splitting a key `list:N,unit:M` on `,` and then `:` gives the printed N and M, whose digits read back as N and M. |
| Keys.UnitKeyInjective | frontend/main.py:41 | Different (list, unit) pairs never produce the same key. |
| Schedule.ReviewDates | frontend/main.py:37-40 | Six review dates. The first is the introduction day, the last is 15 days later, and they strictly increase. |
| Schedule.GenerateForgettingCurveSchedule | frontend/main.py:14-47 | The plan holds the 332 units in list-major, unit-minor order. Unit number k (counting from 0) is introduced on day start + k with the six forgetting-curve review dates. |
| Schedule.GeneratedKeys | frontend/main.py:33-44 | A key `list:N,unit:M` is in the plan exactly when (N, M) is a unit of the curriculum: list 34 has units 1 and 2, every other list 1 to 10. |
| Schedule.GeneratedSize | frontend/main.py:28-36 | The plan has 332 keys and 332 entries. |
| Schedule.ListMajorOrder | frontend/main.py:33-36 | An earlier key of the plan has a smaller list number, or the same list number and a smaller unit number. |
| Schedule.IntroductionDay | frontend/main.py:31-45 | Unit M of list N is introduced (N-1)*10 + M-1 days after the start, because the day counter runs on across lists. |
| Schedule.ReviewOffsets | frontend/main.py:37-44 | Review i of unit number k falls on start + k + the i-th interval of [0, 1, 2, 4, 7, 15]. |
| Schedule.ReviewSpan | frontend/main.py:31-45 | Every review date lies between the start day and 346 days after it. |
| Schedule.GeneratedUnique | frontend/main.py:14-47 | Two plans generated from the same start day are equal. |
| Schedule.FirstUnits | frontend/main.py:33-44 | The first keys are `list:1,unit:1` and `list:1,unit:2`. The first unit is reviewed on start, +1, +2, +4, +7 and +15, and the second is introduced on start + 1. |
| DueToday.Label | frontend/main.py:226 | `key + 'th'` for a review index after the JSON round trip: the decimal digits of the index followed by `th`. |
| DueToday.LabelInjective | frontend/main.py:226 | Different review indices get different labels `<index>th`. |
| DueToday.CheckTodayWords | frontend/main.py:220-226 | The scan's result is the assignments of the due reviews, in plan order and then index order. A label is present exactly when some unit has a review with that index today. |
| DueToday.RecordDueIndices | frontend/main.py:224-226 | The inner loop adds one assignment for each review index of the unit whose date is today, in index order. |
| DueToday.DuePairsMembers | frontend/main.py:222-225 | A (index, unit) pair is collected exactly when the unit is in the plan and its review with that index falls today. |
| DueToday.LabelledExactlyWhenDue | frontend/main.py:220-226 | Over any valid plan, a label is in the result exactly when some unit's review with that index falls today. |
| DueToday.CollectDistinct | frontend/main.py:224-226 | When no two due reviews share an index, no assignment overwrites another. The result holds one entry per due review, in scan order. |
| DueToday.GeneratedDueDescending | frontend/main.py:222-226 | In a generated plan, the reviews due on any day come in strictly decreasing index order. |
| DueToday.DueInAtMostOne | frontend/main.py:224-226 | A unit whose review dates are all different is due at most once on a given day. |
| DueToday.TodayWordsOfGeneratedPlan | frontend/main.py:220-226 | For a generated plan the scan overwrites nothing, records at most six entries, one per due review in plan order, and labels index i with a unit exactly when that unit's review i is today. |
| DueToday.NothingDueOutsidePlan | frontend/main.py:220-226 | Before the start day, or more than 346 days after it, the scan records nothing. |
| DueToday.DueKeysSplit | frontend/main.py:231 | Every unit key the scan records is a curriculum unit's key, and splitting it gives that unit's printed numbers. |
| Projection.FlattenPlan | frontend/main.py:282-285 | The flattened entries come in plan order, then index order. An entry is present exactly when it is one of the plan's reviews, and no entry repeats. |
| Projection.FlatMembers | frontend/main.py:282-285 | An entry is flattened exactly when its unit is listed and that review of the unit falls on the entry's date. |
| Projection.GeneratedEntryCount | frontend/main.py:282-285 | A generated plan flattens to 332 * 6 = 1992 entries. |
| Projection.SortByDate | frontend/main.py:288 | The sort's output is sorted by date and is a permutation of its input. |
| Projection.SortStable | frontend/main.py:288 | The sort is stable: on every date, the entries keep their input order. |
| Projection.AddToBucket | frontend/main.py:292-295 | A new date starts an empty bucket at the end of the iteration order. The entry is appended to its date's bucket and no other bucket changes. |
| Projection.GroupByDate | frontend/main.py:291-295 | There is one non-empty bucket per date that occurs, holding that date's (unit, index) pairs in input order. Over sorted input the dates strictly ascend and the buckets concatenate back to the input. |
| Projection.ConvertToTimeBased | frontend/main.py:276-302 | The date view has strictly ascending dates, one per date with a review, and each bucket holds that day's reviews in plan order. The buckets together hold every review once, in sorted order. |
| Projection.BucketMembers | frontend/main.py:282-295 | A date's bucket holds (unit, index) exactly when that unit's review with that index falls on that date. |
| Projection.BucketNoDuplicates | frontend/main.py:282-295 | No pair appears twice in a bucket. |
| Projection.ProjectionMatchesDueToday | frontend/main.py:282-295 | For a generated plan, the bucket of day d holds (unit, index) exactly when the due-today scan on day d labels that index with that unit. |

## Left out

- The Streamlit pages, buttons, session state and page routing are user interface and are not modelled.
- Reading and writing JSON files is I/O and is not modelled: loading the plan (lines 216-217), loading and saving in `convert_to_time_based` (lines 278-279 and 297-302), and the output path built from the input name. The model works on the plan value itself.
- The HTTP request to the backend for a unit's words is not modelled, and neither is the `display` dictionary built from its answers (lines 233-244). Only the key split on line 231 is modelled. `backend/main.py` is not part of this model.
- `datetime` parsing and formatting are not modelled; dates are integer day numbers. `YYYY-MM-DD` strings sort in the same order as the days they name, so date order and the sort's key agree. The ValueError that `strptime` raises on line 24 for a malformed start date is not modelled.
- `today` comes from the system clock when the plan manager is created. It is a parameter here.
- The inner review dictionaries `{0: date, ..., 5: date}` are modelled as sequences, where the position is the index. After a JSON round trip the indices are the strings "0" to "5". In the model an index is a number, and the label `index + "th"` is its decimal rendering followed by "th".
- `sorted` is Python's built-in stable sort. The model uses a stable insertion sort, which produces the same output.
- Python's integers and strings have no width limits, and the model uses unbounded `int` and `seq<char>` to match.
- Schedule.GenerateForgettingCurveSchedule: returns a plan for every start day. In Python, `datetime` stops at 9999-12-31, and `current_date + timedelta(...)` on line 38 raises OverflowError once a review date would fall past it, which happens for any start on or after 9999-01-20. Day numbers are unbounded here, so that limit and its error are not modelled.
- The curriculum has no error path: its shape (34 lists, the last with 2 units) is fixed in the code, so no input makes it invalid.
- The due-today result lists reviews in plan order, so on a day with several reviews the earlier unit comes first.
- Labels count from zero: a unit's first review is labelled "0th". The page's explanation text on line 227 reads the label as a count from one ("the 5th time"). The model follows the code.
- Saving a schedule to the plan file and the other `PlanManager` helpers are persistence and are not modelled.
