# CloudTrail working-hours analyzer: a Dafny model of its decision core

The analyzer reads AWS CloudTrail audit events and reports, for each IAM
principal and each calendar day, when that principal was first and last
active. This project models the two stages that make the decisions and
proves what they guarantee. Both stages live in
`CloudTrailAnalyzer` in `cloudtrail_analyzer.py`.

* **Activity extraction** (`extract_user_activities`) walks the loaded
  events once. For each event it resolves the acting user:
  - an `IAMUser` is named by its `userName`;
  - an `AssumedRole` is named by the session name after the last `/` of an
    ARN that contains `/assumed-role/`, and otherwise by its session
    issuer's `userName`;
  - every other identity type is skipped.

  It then drops events that have no user, that belong to a user other than
  the requested one, or that have no `eventTime`. Each remaining event
  becomes an activity record, appended to the user's list (the list is
  created on first sight). The stage counts processed and skipped events
  and catches any exception raised while reading an event, counting that
  event as skipped. Finally it stable-sorts every list by time.
* **Daily aggregation** (`calculate_working_hours`) takes each user's list
  and groups it by UTC calendar date. Each date's list is sorted by time
  and becomes one row: user, date, start and end time of day, duration,
  activity count, first and last action, and the source address of the
  first activity.

Files:

* `wrappers.dfy`: `Option`.
* `events.dfy`: the event shapes. Each member read with `.get` is absent,
  present, or malformed (a shape that makes the next access raise). The
  file also defines the activity record and the integer-time abstraction.
* `identity.dfy`: actor resolution, and Python's `str.split` with the
  properties needed of it.
* `ordered_groups.dfy`: an insertion-ordered "dict of lists built by
  appending" (`KeyOrder`, `Group`, `Builds`). The user buckets and the
  date buckets are both instances of it.
* `time_order.dfy`: the stable sort by event time, and the proof that any
  stable sort gives the same result.
* `extraction.dfy`: the per-event decision (`Classify`), the extraction
  loop, and its properties.
* `aggregation.dfy`: the grouping and summary loops, and the properties of
  rows, of one user's rows and of the whole table.

Modelling choices:

* `eventTime` is an integer number of seconds since the epoch in UTC. The
  date is `t / 86400` and the time of day is `t % 86400` (Dafny's
  Euclidean division, so this also holds for times before 1970). The
  source sorts on the ISO-8601 strings at lines 169 and 205. The model
  assumes that the string order of the timestamps agrees with time order,
  which holds for timestamps of one fixed format in UTC.
* A missing, null or empty `eventTime` is `None`, because all three are
  falsy at line 127.
* A Python dict is an insertion-ordered key sequence plus a map. This
  keeps the order in which rows are emitted.
* `self.events` becomes a parameter, because the methods only read it.

## Model

| member | source | states |
|---|---|---|
| `Identity.Split` | cloudtrail_analyzer.py:105 | `arn.split('/')` yields at least one piece, and no piece contains the separator |
| `Identity.JoinSplit` | cloudtrail_analyzer.py:105 | splitting loses nothing: joining the pieces with `/` gives the ARN back |
| `Identity.JoinSplitStep` | cloudtrail_analyzer.py:105 | one more character of the ARN either opens a new piece (a `/`) or extends the last one, and joining still gives the string back |
| `Identity.LastPieceIsFinalSegment` | cloudtrail_analyzer.py:105 | `split('/')[-1]` is the text after the last `/`: a suffix of the ARN with no `/`, preceded by `/` unless it is the whole ARN |
| `Identity.ResolveActor` | cloudtrail_analyzer.py:99-107 | an IAM user resolves to its `userName`; an assumed role whose ARN contains `/assumed-role/` resolves to the final `/` segment of the ARN (the session name), which is strictly shorter than the ARN |
| `Identity.IssuerUserName` | cloudtrail_analyzer.py:107 | the chained `.get('sessionContext', {}).get('sessionIssuer', {}).get('userName')`: it raises exactly when a level is null; with both levels present it yields the issuer's `userName`; it yields a name only when both levels are present |
| `Identity.AssumedRoleFallback` | cloudtrail_analyzer.py:103-107 | an assumed role whose ARN does not name a session falls back to the issuer. It raises exactly when the session context or the issuer is null. With both present it resolves to the issuer's `userName`, whether or not that is set. With either level missing it resolves to no name. Any name it yields is the issuer's |
| `Identity.ResolveActorRaises` | cloudtrail_analyzer.py:99-107 | resolution raises if and only if the type is AssumedRole and either the ARN is malformed, or the ARN names no session and the issuer path raises |
| `Extraction.PrincipalTypeOf` | cloudtrail_analyzer.py:86-92 | only the type strings `IAMUser` and `AssumedRole` are in scope, each in both directions |
| `Extraction.FilterExcludes` | cloudtrail_analyzer.py:119 | a missing or empty filter excludes nobody; a non-empty filter excludes exactly the users other than itself |
| `Extraction.Classify` | cloudtrail_analyzer.py:83-149 | an accepted event is a well-formed record of an in-scope type; its actor resolves to a non-empty name the filter admits; it has an `eventTime`; and the activity carries its time, name, source, address, agent, region and type |
| `Extraction.AcceptedWhenInScope` | cloudtrail_analyzer.py:109-149 | conversely, every event that meets all of those conditions is accepted with exactly that activity |
| `Extraction.UnsupportedTypeSkipped` | cloudtrail_analyzer.py:92-96 | an identity type other than IAMUser and AssumedRole, or no type at all, is skipped as unsupported |
| `Extraction.SkippedEventContributesNothing` | cloudtrail_analyzer.py:92-131 | a skipped event, wherever it sits in the input, adds nothing to any bucket and adds exactly one to the skip count |
| `Extraction.TaggedPlusSkipped` | cloudtrail_analyzer.py:78-152 | every event either is skipped or contributes exactly one activity |
| `Extraction.TaggedFromAccepted` | cloudtrail_analyzer.py:136-149 | every stored (user, activity) pair comes from an input event that the decision accepts with that user and activity |
| `Extraction.FilterDecision` | cloudtrail_analyzer.py:119-123 | a non-empty filter only turns acceptances of other users into skips and changes nothing else |
| `Extraction.FilteredPairs` | cloudtrail_analyzer.py:119-123 | with a non-empty filter, the accepted pairs are exactly the unfiltered run's pairs of that user, in the same order |
| `Extraction.FilterKeepsOneUser` | cloudtrail_analyzer.py:119-123 | with a non-empty filter, the filtered user's bucket equals the bucket of the unfiltered run, and every other user's bucket is empty |
| `Extraction.FilteredKeys` | cloudtrail_analyzer.py:119-123 | with a non-empty filter, the only possible key of the result is the filtered user |
| `Extraction.AcceptStep` | cloudtrail_analyzer.py:146-149 | appending an accepted activity to its user's bucket, created on first sight, turns the dict of the first i events into the dict of the first i+1 |
| `Extraction.CollectActivities` | cloudtrail_analyzer.py:77-156 | the event loop counts every event as processed and counts the skipped ones; it builds the insertion-ordered dict that groups the accepted pairs by user |
| `Extraction.SortEachBucket` | cloudtrail_analyzer.py:167-169 | every bucket, and only the buckets, is replaced by its stable sort by time |
| `Extraction.ExtractedLedgerFacts` | cloudtrail_analyzer.py:146-169 | the returned dict is a valid dict whose buckets are non-empty and sorted by time; the skip count plus the number of stored activities equals the number of events; a non-empty filter admits only its user |
| `Extraction.AcceptedIsTagged` | cloudtrail_analyzer.py:146-149 | every accepted event's (user, activity) pair is among the stored pairs |
| `Extraction.TaggedIsAccepted` | cloudtrail_analyzer.py:109-149 | a (user, activity) pair is stored if and only if some input event is accepted with exactly that user and activity |
| `Extraction.BucketHoldsTagged` | cloudtrail_analyzer.py:146-169 | an activity is in a user's returned bucket if and only if the pair (user, activity) was stored; sorting neither adds nor drops members |
| `Extraction.BucketMembers` | cloudtrail_analyzer.py:66-171 | an activity is in a user's returned bucket if and only if some input event is accepted for that user with exactly that activity; in particular a user has a bucket exactly when some event is accepted for it |
| `Extraction.ExtractUserActivities` | cloudtrail_analyzer.py:66-171 | `extract_user_activities`: each bucket is the stable time sort of that user's accepted activities in input order, and is non-empty; processed is the number of events, and processed minus skipped is the number of stored activities; a non-empty filter leaves at most that user |
| `OrderedGroups.KeyOrder` | cloudtrail_analyzer.py:146-147 | the keys of a dict built by create-on-first-sight appends are distinct, and they are exactly the keys that received a value |
| `OrderedGroups.BuildsAppend` | cloudtrail_analyzer.py:199-201 | the create-then-append step extends the key order only on first sight and appends the value to that key's list only |
| `OrderedGroups.GroupsPartition` | cloudtrail_analyzer.py:146-149 | every appended value lands in exactly one list, so the list lengths add up to the number of appends |
| `OrderedGroups.GroupOfKeyOnly` | cloudtrail_analyzer.py:119-123 | keeping the pairs of one key keeps that key's list and empties all others |
| `TimeOrder.SortByTime` | cloudtrail_analyzer.py:169 | `list.sort(key=eventTime)` keeps the length of the list; `SortByTimeFacts` and `StableSortIsSortByTime` below characterise it completely |
| `TimeOrder.SortByTimeFacts` | cloudtrail_analyzer.py:169 | the sort by `eventTime` is ascending and a permutation of its input, and activities with equal times keep their input order |
| `TimeOrder.StableSortIsSortByTime` | cloudtrail_analyzer.py:169 | any ascending sort that keeps ties in input order, such as Python's `list.sort`, gives exactly `SortByTime` |
| `TimeOrder.StableSortIsUnique` | cloudtrail_analyzer.py:205 | two time-sorted sequences that agree on the order of activities at each timestamp are equal |
| `TimeOrder.SortedIsFixed` | cloudtrail_analyzer.py:205 | sorting an already sorted list changes nothing |
| `Aggregation.ClockOf` | cloudtrail_analyzer.py:215 | `str(last - first)` as H:MM:SS: hours, minutes and seconds recompose to the duration, with minutes and seconds under 60 and hours under 24 for a duration under a day |
| `Aggregation.GroupByDate` | cloudtrail_analyzer.py:194-201 | the grouping loop builds the dict that groups the activities by UTC date, with dates in order of first appearance |
| `Aggregation.GroupIsOnDate` | cloudtrail_analyzer.py:194-201 | the list stored under a date is that date's activities in their original order |
| `Aggregation.OnDateMembers` | cloudtrail_analyzer.py:196-201 | a date's list holds exactly the activities whose timestamp falls on that date |
| `Aggregation.DaySortIsNoOp` | cloudtrail_analyzer.py:205 | when a user's list is already sorted, as extraction leaves it, the per-day sort is a no-op |
| `Aggregation.Summary` | cloudtrail_analyzer.py:207-219 | the row for one date carries the user, the date and the number of activities of the day; for a day sorted by time whose activities all fall on the date, 0 <= start <= end < one day and the duration is end - start |
| `Aggregation.SummarizeDays` | cloudtrail_analyzer.py:204-220 | the summary loop emits one row per date, in key order, each summarising that date's sorted activities |
| `Aggregation.CalculateWorkingHours` | cloudtrail_analyzer.py:173-222 | `calculate_working_hours` returns the working-hours table: each user's rows in key order, with no rows for an empty list |
| `Aggregation.SortedEnds` | cloudtrail_analyzer.py:205-208 | the first activity of the sorted day is an earliest one of that date and the last a latest one, both taken from the date's activities |
| `Aggregation.SortedEndsTies` | cloudtrail_analyzer.py:205-219 | among activities with equal times, the first row entry is the first in input order and the last entry the last |
| `Aggregation.SummaryOfDay` | cloudtrail_analyzer.py:205-219 | a row counts all activities of its date (at least one); start and first action and address come from the earliest activity, and end and last action from the latest; 0 <= start <= end < one day; duration = end - start |
| `Aggregation.DayRowAt` | cloudtrail_analyzer.py:204-220 | each row of a user carries that user and summarises that user's non-empty list of activities of the row's date |
| `Aggregation.RowDates` | cloudtrail_analyzer.py:194-204 | a user's rows follow its dates in order of first appearance, one row per date |
| `Aggregation.ActorDates` | cloudtrail_analyzer.py:194-204 | the dates of a user's rows are exactly the dates of its activities |
| `Aggregation.ActorDatesDistinct` | cloudtrail_analyzer.py:199-204 | no two rows of a user share a date |
| `Aggregation.ActorCount` | cloudtrail_analyzer.py:216 | the activity counts of a user's rows add up to the length of its list |
| `Aggregation.DayRowFacts` | cloudtrail_analyzer.py:205-219 | every row's counted activities are non-empty and all fall on the row's date; the count is at least 1; 0 <= start <= end < one day and 0 <= duration < one day; start, first action and address come from an earliest activity, end and last action from a latest |
| `Aggregation.ActorNames` | cloudtrail_analyzer.py:211 | every row of a user carries that user's name |
| `Aggregation.TableRowsOf` | cloudtrail_analyzer.py:185-220 | the table's rows for a name are exactly that user's rows if it is a key (none for an empty list), and none otherwise |
| `Aggregation.WorkingHours` | cloudtrail_analyzer.py:185-220 | the table: every row belongs to a key of the dict; `TableRowsOf` and `TableCount` characterise each user's rows and the total count |
| `Aggregation.TableCount` | cloudtrail_analyzer.py:185-216 | the table's activity counts add up to the number of activities in the dict |
| `Aggregation.Pipeline` | cloudtrail_analyzer.py:66-222 | after extraction and aggregation, the table counts one activity for every event that was not skipped; under a non-empty filter every row belongs to the filtered user |
| `Aggregation.OneDayExample` | cloudtrail_analyzer.py:194-219 | a login at 09:00 and a read at 17:30 on 2024-01-01 give one row: 09:00:00 to 17:30:00, duration 8:30:00, two activities |

## Left out

- Loading the logs (`load_cloudtrail_logs`, `_load_single_file`, lines 24-64) is not modelled. It does filesystem walking, globbing and JSON decoding, so the event list is a parameter. At line 59, `data.get` on a bare-list file raises after that file's events were already added at line 54, and line 63 catches the error. So such a file's events are kept and an error is printed.
- Report rendering (`generate_report`, lines 224-246) is not modelled. It uses pandas for sorting and CSV/JSON/table formatting.
- `analyze` and `main` (lines 248-333) are not modelled. They are orchestration, argument parsing, printing, output-file writing and exit codes.
- Every `print` and debug trace (for example lines 88-89 and 158-165) is not modelled. They do not affect the returned data. The `debug` parameter therefore has no counterpart.
- Text formatting by `datetime.fromisoformat`, `strftime` and `str(timedelta)` (lines 196-197 and 207-215) is not modelled. Times are integers. The date, the time of day and H:MM:SS (`ClockOf`) are integer arithmetic.
- The model assumes every stored `eventTime` is a valid ISO-8601 UTC timestamp. In the source, extraction only requires a truthy value (line 127). An unparseable string would make `fromisoformat` raise at line 196, and no handler catches it there.
- String order versus time order is not modelled. The source sorts the timestamp strings (lines 169, 205). The model sorts on seconds. The two orders differ for mixed formats, for example with and without fractional seconds, or for non-UTC offsets.
- Non-string JSON values in string members are not modelled, for example a numeric `userName` or a list-valued `arn`. Members the analyzer reads as text are `string` or absent. Members whose wrong shape makes Python raise are `Malformed`.
- The unused locals `first_activity` and `last_activity` (lines 190-191) are not modelled. Nothing reads them.
- `ExtractUserActivities` does not state the source's in-place mutation of one dict. The model builds the key sequence and the map of lists as local values and returns them. The observable result is the same.
- `CollectActivities` appends in one map update (`bucket + [activity]` under the user). The source first stores `[]` and then appends to it (lines 146-149). The resulting dict is identical.
- Actor resolution can raise, and the model follows the code in this. A null or non-object `userIdentity`, `sessionContext` or `sessionIssuer` makes the code raise, and so does a null ARN. The `except` at line 151 then counts the event as skipped. The model has this path as `Raises` leading to `Skip(RaisedError)`, so the outcome is still a skip.
