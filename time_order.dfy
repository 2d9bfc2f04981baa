/**
 * `list.sort(key=lambda x: x['eventTime'])`: Python's sort is stable, so the
 * result is the activities in ascending time order, with activities that share
 * a timestamp kept in their original relative order.
 *
 * `SortByTime` is one such sort (an insertion sort); `StableSortIsUnique`
 * shows that every sort with these two properties gives the same sequence,
 * so it is the one the analyzer computes.
 */
module TimeOrder {
  import opened Events

  predicate SortedByTime(s: seq<Activity>) {
    forall i, j | 0 <= i < j < |s| :: s[i].eventTime <= s[j].eventTime
  }

  /** The activities of `s` stamped `t`, in their order in `s`. */
  function StampedAt(s: seq<Activity>, t: int): seq<Activity> {
    if s == [] then []
    else (if s[0].eventTime == t then [s[0]] else []) + StampedAt(s[1..], t)
  }

  /** Places `x` before the first activity of `s` that is not earlier than it. */
  function Insert(x: Activity, s: seq<Activity>): (r: seq<Activity>)
    ensures |r| == |s| + 1
  {
    if s == [] || x.eventTime <= s[0].eventTime then [x] + s
    else [s[0]] + Insert(x, s[1..])
  }

  /** Inserting adds exactly `x`. */
  lemma {:induction false} InsertMultiset(x: Activity, s: seq<Activity>)
    ensures multiset(Insert(x, s)) == multiset(s) + multiset{x}
  {
    if !(s == [] || x.eventTime <= s[0].eventTime) {
      InsertMultiset(x, s[1..]);
      assert s == [s[0]] + s[1..];
    }
  }

  lemma {:induction false} InsertLowerBound(x: Activity, s: seq<Activity>, lo: int)
    requires lo <= x.eventTime
    requires forall y | y in s :: lo <= y.eventTime
    ensures forall y | y in Insert(x, s) :: lo <= y.eventTime
  {
    if !(s == [] || x.eventTime <= s[0].eventTime) {
      InsertLowerBound(x, s[1..], lo);
    }
  }

  /** Inserting into a sorted sequence keeps it sorted. */
  lemma {:induction false} InsertSorted(x: Activity, s: seq<Activity>)
    requires SortedByTime(s)
    ensures SortedByTime(Insert(x, s))
  {
    if !(s == [] || x.eventTime <= s[0].eventTime) {
      var rest := Insert(x, s[1..]);
      InsertSorted(x, s[1..]);
      InsertLowerBound(x, s[1..], s[0].eventTime);
      var r := [s[0]] + rest;
      forall i, j | 0 <= i < j < |r|
        ensures r[i].eventTime <= r[j].eventTime
      {
        assert r[j] == rest[j - 1];
        if i > 0 {
          assert r[i] == rest[i - 1];
        }
      }
    }
  }

  /** Inserting places `x` before the activities that share its timestamp. */
  lemma {:induction false} InsertStamped(x: Activity, s: seq<Activity>, t: int)
    ensures StampedAt(Insert(x, s), t) == if x.eventTime == t then [x] + StampedAt(s, t) else StampedAt(s, t)
  {
    if s == [] || x.eventTime <= s[0].eventTime {
      assert ([x] + s)[1..] == s;
    } else {
      var rest := Insert(x, s[1..]);
      InsertStamped(x, s[1..], t);
      assert s == [s[0]] + s[1..];
      assert ([s[0]] + rest)[1..] == rest;
    }
  }

  /** Python's stable `list.sort` by event time, as an insertion sort. */
  function SortByTime(s: seq<Activity>): (r: seq<Activity>)
    ensures |r| == |s|
  {
    if s == [] then [] else Insert(s[0], SortByTime(s[1..]))
  }

  lemma {:induction false} SortByTimeSorted(s: seq<Activity>)
    ensures SortedByTime(SortByTime(s))
  {
    if s != [] {
      SortByTimeSorted(s[1..]);
      InsertSorted(s[0], SortByTime(s[1..]));
    }
  }

  lemma {:induction false} SortByTimePermutes(s: seq<Activity>)
    ensures multiset(SortByTime(s)) == multiset(s)
  {
    if s != [] {
      SortByTimePermutes(s[1..]);
      InsertMultiset(s[0], SortByTime(s[1..]));
      assert s == [s[0]] + s[1..];
    }
  }

  lemma {:induction false} SortByTimeKeepsTies(s: seq<Activity>, t: int)
    ensures StampedAt(SortByTime(s), t) == StampedAt(s, t)
  {
    if s != [] {
      SortByTimeKeepsTies(s[1..], t);
      InsertStamped(s[0], SortByTime(s[1..]), t);
    }
  }

  /**
   * `SortByTime` is a stable ascending sort: its result is sorted by time, a
   * permutation of its input, and keeps the input order of the activities
   * that share a timestamp.
   */
  lemma SortByTimeFacts(s: seq<Activity>)
    ensures SortedByTime(SortByTime(s))
    ensures multiset(SortByTime(s)) == multiset(s)
    ensures forall t :: StampedAt(SortByTime(s), t) == StampedAt(s, t)
  {
    SortByTimeSorted(s);
    SortByTimePermutes(s);
    forall t
      ensures StampedAt(SortByTime(s), t) == StampedAt(s, t)
    {
      SortByTimeKeepsTies(s, t);
    }
  }

  lemma {:induction false} StampedAtMembers(s: seq<Activity>, t: int)
    ensures forall x :: x in StampedAt(s, t) <==> x in s && x.eventTime == t
  {
    if s != [] {
      StampedAtMembers(s[1..], t);
      assert s == [s[0]] + s[1..];
    }
  }

  /** Appending an activity extends the activities of its own timestamp only. */
  lemma {:induction false} StampedAtAppend(s: seq<Activity>, x: Activity, t: int)
    ensures StampedAt(s + [x], t) == StampedAt(s, t) + (if x.eventTime == t then [x] else [])
  {
    if s != [] {
      StampedAtAppend(s[1..], x, t);
      assert (s + [x])[1..] == s[1..] + [x];
    }
  }

  /** A sorted sequence needs no sorting: the stable sort leaves it as it is. */
  lemma SortedIsFixed(s: seq<Activity>)
    requires SortedByTime(s)
    ensures SortByTime(s) == s
  {
    SortByTimeFacts(s);
    StableSortIsUnique(s, SortByTime(s));
  }

  /**
   * A sorted sequence is determined by the order of its activities within
   * each timestamp: two sorted sequences that agree on every `StampedAt`
   * are equal.
   */
  lemma {:induction false} StableSortIsUnique(a: seq<Activity>, b: seq<Activity>)
    requires SortedByTime(a) && SortedByTime(b)
    requires forall t :: StampedAt(a, t) == StampedAt(b, t)
    ensures a == b
    decreases |a| + |b|
  {
    if a == [] || b == [] {
      var other := if a == [] then b else a;
      if other != [] {
        StampedAtMembers(other, other[0].eventTime);
        assert false;
      }
    } else {
      var t0, t1 := a[0].eventTime, b[0].eventTime;
      StampedAtMembers(a, t1);
      StampedAtMembers(b, t0);
      assert b[0] in StampedAt(a, t1);
      assert a[0] in StampedAt(b, t0);
      assert t0 == t1;
      assert StampedAt(a, t0) == [a[0]] + StampedAt(a[1..], t0);
      assert StampedAt(b, t0) == [b[0]] + StampedAt(b[1..], t0);
      assert a[0] == StampedAt(a, t0)[0] == StampedAt(b, t0)[0] == b[0];
      forall t
        ensures StampedAt(a[1..], t) == StampedAt(b[1..], t)
      {
        var head := if a[0].eventTime == t then [a[0]] else [];
        assert StampedAt(a, t) == head + StampedAt(a[1..], t);
        assert StampedAt(b, t) == head + StampedAt(b[1..], t);
        assert StampedAt(a, t) == StampedAt(b, t);
        assert StampedAt(a[1..], t) == StampedAt(a, t)[|head|..];
        assert StampedAt(b[1..], t) == StampedAt(b, t)[|head|..];
      }
      StableSortIsUnique(a[1..], b[1..]);
      assert a == [a[0]] + a[1..] && b == [b[0]] + b[1..];
    }
  }

  /** Any stable ascending sort by event time (such as Python's `list.sort`) yields `SortByTime`. */
  lemma StableSortIsSortByTime(s: seq<Activity>, r: seq<Activity>)
    requires SortedByTime(r)
    requires forall t :: StampedAt(r, t) == StampedAt(s, t)
    ensures r == SortByTime(s)
  {
    SortByTimeFacts(s);
    StableSortIsUnique(r, SortByTime(s));
  }
}
