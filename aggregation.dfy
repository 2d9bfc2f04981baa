/**
 * Daily aggregation: for every actor, its activities are grouped by UTC
 * calendar date (a dict of lists keyed by date, in order of first
 * appearance); each date's list is sorted by time and summarised as one
 * working-day row: start and end time of day, duration, activity count,
 * first and last action, and the address of the first activity.
 *
 * `WorkingHours` is the table the source builds; the method
 * `CalculateWorkingHours` is proved to build it, and the lemmas below state
 * what every row, every actor's rows and the whole table guarantee.
 */
module Aggregation {
  import opened Wrappers
  import opened Events
  import opened OrderedGroups
  import opened TimeOrder
  import opened Extraction

  /** One row of the working-hours table (times and duration in seconds). */
  datatype WorkingDay = WorkingDay(
    userName: string,
    date: int,            // days since the epoch (UTC)
    startTime: int,       // time of day of the first activity
    endTime: int,         // time of day of the last activity
    duration: int,        // last activity minus first activity
    activityCount: nat,
    firstAction: Option<string>,
    lastAction: Option<string>,
    sourceIPAddress: Option<string>)

  /** Hours, minutes and seconds of a duration, as `str(timedelta)` prints it. */
  datatype Clock = Clock(hours: nat, minutes: nat, seconds: nat)

  /** Splits a non-negative duration into H:MM:SS. */
  function ClockOf(duration: nat): (c: Clock)
    ensures c.hours * 3600 + c.minutes * 60 + c.seconds == duration
    ensures c.minutes < 60 && c.seconds < 60
    ensures duration < SecondsPerDay ==> c.hours < 24
  {
    Clock(duration / 3600, duration % 3600 / 60, duration % 60)
  }

  /** The activities paired with their dates, in order. */
  function Dated(activities: seq<Activity>): (dated: seq<(int, Activity)>)
    ensures |dated| == |activities|
  {
    seq(|activities|, k requires 0 <= k < |activities| => (Date(activities[k].eventTime), activities[k]))
  }

  lemma DatedPrefix(activities: seq<Activity>, i: nat)
    requires i < |activities|
    ensures Dated(activities[..i + 1]) == Dated(activities[..i]) + [(Date(activities[i].eventTime), activities[i])]
  {
  }

  /** The activities of one date, in their order in `activities`. */
  function OnDate(activities: seq<Activity>, date: int): seq<Activity> {
    if activities == [] then []
    else
      var last := activities[|activities| - 1];
      OnDate(activities[..|activities| - 1], date) + (if Date(last.eventTime) == date then [last] else [])
  }

  /** The date list `daily_activities[date]` is the activities of that date, in order. */
  lemma {:induction false} GroupIsOnDate(activities: seq<Activity>, date: int)
    ensures Group(Dated(activities), date) == OnDate(activities, date)
  {
    if activities != [] {
      var n := |activities|;
      GroupIsOnDate(activities[..n - 1], date);
      assert Dated(activities)[..n - 1] == Dated(activities[..n - 1]);
    }
  }

  /** The activities of a date are exactly those whose timestamp falls on it. */
  lemma {:induction false} OnDateMembers(activities: seq<Activity>, date: int)
    ensures forall a :: a in OnDate(activities, date) <==> a in activities && Date(a.eventTime) == date
  {
    if activities != [] {
      var n := |activities|;
      OnDateMembers(activities[..n - 1], date);
      assert activities == activities[..n - 1] + [activities[n - 1]];
    }
  }

  /** A subsequence of a sorted list is sorted: grouping by date keeps time order. */
  lemma {:induction false} OnDateSorted(activities: seq<Activity>, date: int)
    requires SortedByTime(activities)
    ensures SortedByTime(OnDate(activities, date))
  {
    if activities != [] {
      var n := |activities|;
      var init, last := activities[..n - 1], activities[n - 1];
      OnDateSorted(init, date);
      OnDateMembers(init, date);
      forall a | a in OnDate(init, date)
        ensures a.eventTime <= last.eventTime
      {
        var k :| 0 <= k < n - 1 && init[k] == a;
      }
    }
  }

  /**
   * The sort at the top of each day is a no-op on the ledger that extraction
   * returns: when an actor's activities are sorted, so is each date's list.
   */
  lemma DaySortIsNoOp(activities: seq<Activity>, date: int)
    requires SortedByTime(activities)
    ensures SortByTime(OnDate(activities, date)) == OnDate(activities, date)
  {
    OnDateSorted(activities, date);
    SortedIsFixed(OnDate(activities, date));
  }

  /** The row for one date, from that date's activities sorted by time. */
  function Summary(userName: string, date: int, day: seq<Activity>): (row: WorkingDay)
    requires day != []
    ensures row.userName == userName && row.date == date && row.activityCount == |day|
    ensures SortedByTime(day) && (forall a | a in day :: Date(a.eventTime) == date) ==>
      && 0 <= row.startTime <= row.endTime < SecondsPerDay
      && row.duration == row.endTime - row.startTime
  {
    var first, last := day[0], day[|day| - 1];
    WorkingDay(userName, date, TimeOfDay(first.eventTime), TimeOfDay(last.eventTime),
               last.eventTime - first.eventTime, |day|,
               first.eventName, last.eventName, first.sourceIPAddress)
  }

  /** The rows for the dates `dates` of the dated activities. */
  function RowsFor(userName: string, dated: seq<(int, Activity)>, dates: seq<int>): seq<WorkingDay>
    requires forall d | d in dates :: Group(dated, d) != []
  {
    if dates == [] then []
    else
      var date := dates[|dates| - 1];
      RowsFor(userName, dated, dates[..|dates| - 1]) + [Summary(userName, date, SortByTime(Group(dated, date)))]
  }

  /** One actor's rows: one per date, in order of the date's first appearance. */
  function DayRows(userName: string, activities: seq<Activity>): seq<WorkingDay> {
    var dated := Dated(activities);
    RowsFor(userName, dated, KeyOrder(dated))
  }

  /** The table: every actor's rows in key order; an empty list gives none. */
  function WorkingHours(users: seq<string>, lists: map<string, seq<Activity>>): (table: seq<WorkingDay>)
    requires forall u | u in users :: u in lists
    ensures forall k | 0 <= k < |table| :: table[k].userName in users
  {
    if users == [] then []
    else
      var user := users[|users| - 1];
      ActorNames(user, lists[user]);
      WorkingHours(users[..|users| - 1], lists) + (if lists[user] == [] then [] else DayRows(user, lists[user]))
  }

  /** Total number of activities counted by `rows`. */
  function Counted(rows: seq<WorkingDay>): nat {
    if rows == [] then 0 else Counted(rows[..|rows| - 1]) + rows[|rows| - 1].activityCount
  }

  /** The rows of `rows` that belong to `userName`, in order. */
  function RowsOf(rows: seq<WorkingDay>, userName: string): seq<WorkingDay> {
    if rows == [] then []
    else RowsOf(rows[..|rows| - 1], userName) + (if rows[|rows| - 1].userName == userName then [rows[|rows| - 1]] else [])
  }

  // ---------------------------------------------------------------------
  // The method
  // ---------------------------------------------------------------------

  /** The grouping loop: `daily_activities` keyed by date, in order of first appearance. */
  method GroupByDate(activities: seq<Activity>) returns (dates: seq<int>, days: map<int, seq<Activity>>)
    ensures Builds(dates, days, Dated(activities))
  {
    dates, days := [], map[];
    for i := 0 to |activities|
      invariant Builds(dates, days, Dated(activities[..i]))
    {
      var activity := activities[i];
      var date := Date(activity.eventTime);
      DatedPrefix(activities, i);
      BuildsAppend(dates, days, Dated(activities[..i]), date, activity);
      var day := if date in days then days[date] else [];
      if date !in days {
        dates := dates + [date];
      }
      days := days[date := day + [activity]];
    }
    assert activities[..|activities|] == activities;
  }

  /** The summary loop: each date's list is sorted and turned into one row. */
  method SummarizeDays(userName: string, dates: seq<int>, days: map<int, seq<Activity>>, ghost dated: seq<(int, Activity)>)
    returns (rows: seq<WorkingDay>)
    requires forall d | d in dates :: d in days && days[d] == Group(dated, d) != []
    ensures rows == RowsFor(userName, dated, dates)
  {
    rows := [];
    for j := 0 to |dates|
      invariant rows == RowsFor(userName, dated, dates[..j])
    {
      var date := dates[j];
      var day := SortByTime(days[date]);
      var firstTime, lastTime := day[0].eventTime, day[|day| - 1].eventTime;
      var row := WorkingDay(userName, date, TimeOfDay(firstTime), TimeOfDay(lastTime),
                            lastTime - firstTime, |day|,
                            day[0].eventName, day[|day| - 1].eventName, day[0].sourceIPAddress);
      assert row == Summary(userName, date, SortByTime(Group(dated, date)));
      assert dates[..j + 1] == dates[..j] + [date];
      rows := rows + [row];
    }
    assert dates[..|dates|] == dates;
  }

  /**
   * `calculate_working_hours`: for each actor in key order, skip an empty
   * list, group the rest by date and append one row per date.
   */
  method CalculateWorkingHours(userActivities: Dict<string, Activity>) returns (workingHours: seq<WorkingDay>)
    requires Valid(userActivities)
    ensures workingHours == WorkingHours(userActivities.keys, userActivities.lists)
  {
    var users, lists := userActivities.keys, userActivities.lists;
    workingHours := [];
    for i := 0 to |users|
      invariant workingHours == WorkingHours(users[..i], lists)
    {
      var userName := users[i];
      var activities := lists[userName];
      assert users[..i + 1][..i] == users[..i];
      if activities != [] {
        var dates, days := GroupByDate(activities);
        BuiltGroups(dates, days, Dated(activities));
        var rows := SummarizeDays(userName, dates, days, Dated(activities));
        workingHours := workingHours + rows;
      }
    }
    assert users[..|users|] == users;
  }

  // ---------------------------------------------------------------------
  // Properties of the rows
  // ---------------------------------------------------------------------

  /** The ends of the sorted day are an earliest and a latest activity of the group. */
  lemma SortedEnds(group: seq<Activity>)
    requires group != []
    ensures var day := SortByTime(group);
      var first, last := day[0], day[|day| - 1];
      && first in group && last in group
      && (forall a | a in group :: first.eventTime <= a.eventTime <= last.eventTime)
  {
    var day := SortByTime(group);
    SortByTimeSorted(group);
    SortByTimePermutes(group);
    var n := |day|;
    assert day[0] in multiset(group) && day[n - 1] in multiset(group);
    forall a | a in group
      ensures day[0].eventTime <= a.eventTime <= day[n - 1].eventTime
    {
      assert a in multiset(day);
      var k :| 0 <= k < n && day[k] == a;
    }
  }

  /**
   * Among activities with equal times the sort keeps input order: the first
   * of the sorted day is the first of its time in the group, the last the last.
   */
  lemma SortedEndsTies(group: seq<Activity>)
    requires group != []
    ensures var day := SortByTime(group);
      var first, last := day[0], day[|day| - 1];
      && StampedAt(group, first.eventTime) != [] && StampedAt(group, first.eventTime)[0] == first
      && StampedAt(group, last.eventTime) != []
      && StampedAt(group, last.eventTime)[|StampedAt(group, last.eventTime)| - 1] == last
  {
    var day := SortByTime(group);
    var n := |day|;
    var first, last := day[0], day[n - 1];
    SortByTimeKeepsTies(group, first.eventTime);
    SortByTimeKeepsTies(group, last.eventTime);
    assert StampedAt(day, first.eventTime) == [first] + StampedAt(day[1..], first.eventTime);
    assert day == day[..n - 1] + [last];
    StampedAtAppend(day[..n - 1], last, last.eventTime);
  }

  /**
   * One row summarises one date's activities: it counts all of them (at
   * least one); its start is the earliest of them (the first in input order
   * among equal times), which also gives the first action and the address;
   * its end is the latest (the last among equal times), which gives the last
   * action; both lie in that date, so start <= end and the duration is the
   * difference of the times of day, non-negative and under one day.
   */
  lemma SummaryOfDay(userName: string, date: int, group: seq<Activity>)
    requires group != []
    requires forall a | a in group :: Date(a.eventTime) == date
    ensures var day := SortByTime(group);
      var row := Summary(userName, date, day);
      var first, last := day[0], day[|day| - 1];
      && row.userName == userName && row.date == date
      && row.activityCount == |group| >= 1
      && first in group && last in group
      && (forall a | a in group :: first.eventTime <= a.eventTime <= last.eventTime)
      && StampedAt(group, first.eventTime) != [] && StampedAt(group, first.eventTime)[0] == first
      && StampedAt(group, last.eventTime) != []
      && StampedAt(group, last.eventTime)[|StampedAt(group, last.eventTime)| - 1] == last
      && row.startTime == TimeOfDay(first.eventTime)
      && row.firstAction == first.eventName && row.sourceIPAddress == first.sourceIPAddress
      && row.endTime == TimeOfDay(last.eventTime) && row.lastAction == last.eventName
      && 0 <= row.startTime <= row.endTime < SecondsPerDay
      && row.duration == row.endTime - row.startTime
  {
    SortedEnds(group);
    SortedEndsTies(group);
  }

  lemma {:induction false} RowsForLength(userName: string, dated: seq<(int, Activity)>, dates: seq<int>)
    requires forall d | d in dates :: Group(dated, d) != []
    ensures |RowsFor(userName, dated, dates)| == |dates|
  {
    if dates != [] {
      RowsForLength(userName, dated, dates[..|dates| - 1]);
    }
  }

  /** The k-th row is the summary of the k-th date. */
  lemma {:induction false} RowsForAt(userName: string, dated: seq<(int, Activity)>, dates: seq<int>, k: nat)
    requires forall d | d in dates :: Group(dated, d) != []
    requires k < |dates|
    ensures |RowsFor(userName, dated, dates)| == |dates|
    ensures RowsFor(userName, dated, dates)[k] == Summary(userName, dates[k], SortByTime(Group(dated, dates[k])))
  {
    var n := |dates|;
    var prefix := dates[..n - 1];
    RowsForLength(userName, dated, dates);
    RowsForLength(userName, dated, prefix);
    if k < n - 1 {
      RowsForAt(userName, dated, prefix, k);
      assert prefix[k] == dates[k];
    }
  }

  lemma {:induction false} CountedAppend(a: seq<WorkingDay>, b: seq<WorkingDay>)
    ensures Counted(a + b) == Counted(a) + Counted(b)
  {
    if b != [] {
      CountedAppend(a, b[..|b| - 1]);
      assert (a + b)[|a + b| - 1] == b[|b| - 1];
      assert (a + b)[..|a + b| - 1] == a + b[..|b| - 1];
    } else {
      assert a + b == a;
    }
  }

  lemma {:induction false} CountedRowsFor(userName: string, dated: seq<(int, Activity)>, dates: seq<int>)
    requires forall d | d in dates :: Group(dated, d) != []
    ensures Counted(RowsFor(userName, dated, dates)) == GroupLengths(dated, dates)
  {
    if dates != [] {
      CountedRowsFor(userName, dated, dates[..|dates| - 1]);
      var rows := RowsFor(userName, dated, dates);
      assert rows[..|rows| - 1] == RowsFor(userName, dated, dates[..|dates| - 1]);
    }
  }

  /** The k-th row of an actor is that actor's summary of one of its dates. */
  lemma DayRowAt(userName: string, activities: seq<Activity>, k: nat)
    requires k < |DayRows(userName, activities)|
    ensures var row := DayRows(userName, activities)[k];
      && row.userName == userName
      && OnDate(activities, row.date) != []
      && row == Summary(userName, row.date, SortByTime(OnDate(activities, row.date)))
  {
    var dated := Dated(activities);
    var dates := KeyOrder(dated);
    RowsForLength(userName, dated, dates);
    RowsForAt(userName, dated, dates, k);
    GroupIsOnDate(activities, dates[k]);
  }

  /** The rows of an actor follow the dates in order of first appearance. */
  lemma RowDates(userName: string, activities: seq<Activity>)
    ensures var dates := KeyOrder(Dated(activities));
      var rows := DayRows(userName, activities);
      && |rows| == |dates|
      && forall k | 0 <= k < |rows| :: rows[k].date == dates[k]
  {
    var dated := Dated(activities);
    var dates := KeyOrder(dated);
    RowsForLength(userName, dated, dates);
    forall k | 0 <= k < |dates|
      ensures DayRows(userName, activities)[k].date == dates[k]
    {
      RowsForAt(userName, dated, dates, k);
    }
  }

  /** A date is the date of some row exactly when some activity falls on it. */
  lemma {:induction false} DateOfSomeActivity(activities: seq<Activity>, date: int)
    ensures date in KeyOrder(Dated(activities)) <==> exists a | a in activities :: Date(a.eventTime) == date
  {
    GroupIsOnDate(activities, date);
    OnDateMembers(activities, date);
    if date in KeyOrder(Dated(activities)) {
      var a := OnDate(activities, date)[0];
      assert a in OnDate(activities, date);
    }
  }

  /** An actor's rows carry exactly the dates of its activities. */
  lemma ActorDates(userName: string, activities: seq<Activity>)
    ensures var rows := DayRows(userName, activities);
      (set k | 0 <= k < |rows| :: rows[k].date) == (set a | a in activities :: Date(a.eventTime))
  {
    var dates := KeyOrder(Dated(activities));
    var rows := DayRows(userName, activities);
    var rowDates := set k | 0 <= k < |rows| :: rows[k].date;
    var activityDates := set a | a in activities :: Date(a.eventTime);
    RowDates(userName, activities);
    forall d | d in rowDates
      ensures d in activityDates
    {
      var k :| 0 <= k < |rows| && rows[k].date == d;
      DateOfSomeActivity(activities, dates[k]);
    }
    forall d | d in activityDates
      ensures d in rowDates
    {
      DateOfSomeActivity(activities, d);
      var k :| 0 <= k < |dates| && dates[k] == d;
      assert rows[k].date == d;
    }
    assert rowDates == activityDates;
  }

  /** An actor gets at most one row per date. */
  lemma ActorDatesDistinct(userName: string, activities: seq<Activity>)
    ensures var rows := DayRows(userName, activities);
      forall i, j | 0 <= i < j < |rows| :: rows[i].date != rows[j].date
  {
    RowDates(userName, activities);
  }

  /** An actor's row counts add up to the length of its activity list. */
  lemma ActorCount(userName: string, activities: seq<Activity>)
    ensures Counted(DayRows(userName, activities)) == |activities|
  {
    var dated := Dated(activities);
    CountedRowsFor(userName, dated, KeyOrder(dated));
    GroupLengthsOfKeyOrder(dated);
  }

  /**
   * What each row of an actor states about the activities it counts: all of
   * them fall on the row's date, there is at least one, start <= end, the
   * duration is under a day, the first action and address come from the
   * earliest activity and the last action from the latest.
   */
  lemma DayRowFacts(userName: string, activities: seq<Activity>, k: nat)
    requires k < |DayRows(userName, activities)|
    ensures var row := DayRows(userName, activities)[k];
      var counted := OnDate(activities, row.date);
      && counted != []
      && (forall a | a in counted :: a in activities && Date(a.eventTime) == row.date)
      && row.activityCount == |counted| >= 1
      && 0 <= row.startTime <= row.endTime < SecondsPerDay
      && 0 <= row.duration < SecondsPerDay
      && (exists a | a in counted ::
            && (forall b | b in counted :: a.eventTime <= b.eventTime)
            && row.startTime == TimeOfDay(a.eventTime)
            && row.firstAction == a.eventName && row.sourceIPAddress == a.sourceIPAddress)
      && (exists z | z in counted ::
            && (forall b | b in counted :: b.eventTime <= z.eventTime)
            && row.endTime == TimeOfDay(z.eventTime) && row.lastAction == z.eventName)
  {
    var rows := DayRows(userName, activities);
    DayRowAt(userName, activities, k);
    var row := rows[k];
    var counted := OnDate(activities, row.date);
    OnDateMembers(activities, row.date);
    SummaryOfDay(userName, row.date, counted);
    var day := SortByTime(counted);
    assert day[0] in counted && day[|day| - 1] in counted;
  }

  lemma {:induction false} RowsOfAppend(a: seq<WorkingDay>, b: seq<WorkingDay>, userName: string)
    ensures RowsOf(a + b, userName) == RowsOf(a, userName) + RowsOf(b, userName)
  {
    if b != [] {
      RowsOfAppend(a, b[..|b| - 1], userName);
      assert (a + b)[|a + b| - 1] == b[|b| - 1];
      assert (a + b)[..|a + b| - 1] == a + b[..|b| - 1];
    } else {
      assert a + b == a;
    }
  }

  lemma {:induction false} RowsOfOneUser(rows: seq<WorkingDay>, owner: string, userName: string)
    requires forall k | 0 <= k < |rows| :: rows[k].userName == owner
    ensures RowsOf(rows, userName) == if userName == owner then rows else []
  {
    if rows != [] {
      RowsOfOneUser(rows[..|rows| - 1], owner, userName);
    }
  }

  /** Every row of an actor carries that actor's name. */
  lemma ActorNames(userName: string, activities: seq<Activity>)
    ensures forall k | 0 <= k < |DayRows(userName, activities)| :: DayRows(userName, activities)[k].userName == userName
  {
    forall k | 0 <= k < |DayRows(userName, activities)|
      ensures DayRows(userName, activities)[k].userName == userName
    {
      DayRowAt(userName, activities, k);
    }
  }

  /**
   * The rows the table holds for one name: exactly that actor's rows when it
   * is a key of the dict (none for an empty list), and none otherwise.
   */
  lemma {:induction false} TableRowsOf(users: seq<string>, lists: map<string, seq<Activity>>, userName: string)
    requires Distinct(users)
    requires forall u | u in users :: u in lists
    ensures RowsOf(WorkingHours(users, lists), userName) ==
      if userName in users then DayRows(userName, lists[userName]) else []
  {
    if users != [] {
      var init, user := users[..|users| - 1], users[|users| - 1];
      assert users == init + [user];
      TableRowsOf(init, lists, userName);
      var own := if lists[user] == [] then [] else DayRows(user, lists[user]);
      ActorNames(user, lists[user]);
      assert DayRows(user, []) == [];
      RowsOfAppend(WorkingHours(init, lists), own, userName);
      RowsOfOneUser(own, user, userName);
    }
  }

  /** The table's counts add up to the number of activities stored in the dict. */
  lemma {:induction false} TableCount(users: seq<string>, lists: map<string, seq<Activity>>)
    requires forall u | u in users :: u in lists
    ensures Counted(WorkingHours(users, lists)) == TotalLength(users, lists)
  {
    if users != [] {
      var init, user := users[..|users| - 1], users[|users| - 1];
      TableCount(init, lists);
      var own := if lists[user] == [] then [] else DayRows(user, lists[user]);
      ActorCount(user, lists[user]);
      CountedAppend(WorkingHours(init, lists), own);
    }
  }

  /**
   * The two stages together: the table counts one activity for every event
   * extraction did not skip, and under a non-empty filter every row belongs
   * to the filtered user.
   */
  lemma Pipeline(ledger: Dict<string, Activity>, events: seq<RawEvent>, username: Option<string>)
    requires IsExtractedLedger(ledger, events, username)
    ensures var table := WorkingHours(ledger.keys, ledger.lists);
      && Counted(table) + SkipCount(events, username) == |events|
      && (username.Some? && username.value != "" ==>
            forall k | 0 <= k < |table| :: table[k].userName == username.value)
  {
    ExtractedLedgerFacts(ledger, events, username);
    TableCount(ledger.keys, ledger.lists);
  }

  // ---------------------------------------------------------------------
  // Worked examples
  // ---------------------------------------------------------------------

  /** 2024-01-01 is day 19723 after the epoch; 09:00 and 17:30 UTC on it. */
  const NewYear := 19723
  const LoginAt := NewYear * SecondsPerDay + 9 * 3600
  const GetObjectAt := NewYear * SecondsPerDay + 17 * 3600 + 30 * 60

  function Act(eventTime: int, eventName: string): Activity {
    Activity(eventTime, Some(eventName), None, Some("203.0.113.7"), None, None, IAMUser)
  }

  /** The two activities of the example fall on one date and form its list. */
  lemma {:induction false} OneDayGrouping(acts: seq<Activity>)
    requires acts == [Act(LoginAt, "ConsoleLogin"), Act(GetObjectAt, "GetObject")]
    ensures KeyOrder(Dated(acts)) == [NewYear]
    ensures Group(Dated(acts), NewYear) == acts
  {
    var dated := Dated(acts);
    assert Date(LoginAt) == NewYear && Date(GetObjectAt) == NewYear;
    assert dated == [(NewYear, acts[0]), (NewYear, acts[1])];
    assert dated[..1] == [(NewYear, acts[0])];
    assert dated[..1][..0] == [];
    assert KeyOrder(dated[..1]) == [NewYear];
  }

  /** A console login at 09:00 and a read at 17:30 on one day give one row of 8:30:00. */
  lemma {:induction false} OneDayExample()
    ensures var rows := DayRows("alice", [Act(LoginAt, "ConsoleLogin"), Act(GetObjectAt, "GetObject")]);
      && |rows| == 1
      && rows[0] == WorkingDay("alice", NewYear, 9 * 3600, 17 * 3600 + 30 * 60, 8 * 3600 + 30 * 60, 2,
                               Some("ConsoleLogin"), Some("GetObject"), Some("203.0.113.7"))
      && ClockOf(rows[0].duration) == Clock(8, 30, 0)
  {
    var acts := [Act(LoginAt, "ConsoleLogin"), Act(GetObjectAt, "GetObject")];
    var dated := Dated(acts);
    OneDayGrouping(acts);
    SortedIsFixed(acts);
    assert [NewYear][..0] == [];
    assert RowsFor("alice", dated, []) == [];
    assert DayRows("alice", acts) == [Summary("alice", NewYear, acts)];
    assert TimeOfDay(LoginAt) == 9 * 3600;
    assert TimeOfDay(GetObjectAt) == 17 * 3600 + 30 * 60;
  }
}
