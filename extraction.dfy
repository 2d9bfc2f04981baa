/**
 * Activity extraction: one pass over the event list that resolves each
 * event's actor, applies the optional user-name filter, drops events without
 * a time, appends an activity record to the actor's bucket (created on first
 * sight) and counts processed and skipped events; then every bucket is sorted
 * by event time.
 *
 * `Classify` is the per-event decision, `Tagged` the accepted (actor,
 * activity) pairs in input order; the method `ExtractUserActivities` is
 * proved to build the ordered dict that groups `Tagged` by actor.
 */
module Extraction {
  import opened Wrappers
  import opened Events
  import opened Identity
  import opened OrderedGroups
  import opened TimeOrder

  /** Why an event was counted as skipped. */
  datatype SkipReason =
    | UnsupportedType  // identity type other than IAMUser and AssumedRole
    | NoUserName       // the resolved actor is missing or empty
    | OtherUser        // a non-empty filter names another user
    | NoEventTime      // eventTime missing, null or empty
    | RaisedError      // reading a field raised; caught and counted

  datatype Outcome = Accept(user: string, activity: Activity) | Skip(reason: SkipReason)

  /** The in-scope identity types; everything else is skipped. */
  function PrincipalTypeOf(principalType: Option<string>): (kind: Option<PrincipalType>)
    ensures kind == Some(IAMUser) <==> principalType == Some("IAMUser")
    ensures kind == Some(AssumedRole) <==> principalType == Some("AssumedRole")
  {
    if principalType == Some("IAMUser") then Some(IAMUser)
    else if principalType == Some("AssumedRole") then Some(AssumedRole)
    else None
  }

  /** `if username and current_user != username`: a falsy filter excludes nothing. */
  predicate FilterExcludes(username: Option<string>, user: string): (excluded: bool)
    ensures username.None? || username == Some("") ==> !excluded
    ensures username.Some? && username.value != "" ==> (excluded <==> user != username.value)
  {
    username.Some? && username.value != "" && user != username.value
  }

  /** The identity an event carries once `.get('userIdentity', {})` succeeded. */
  function IdentityOf(userIdentity: Field<UserIdentity>): UserIdentity {
    if userIdentity.Present? then userIdentity.value else NoIdentity
  }

  /**
   * The per-event decision of the extraction loop. An accepted event is
   * projected into an activity that carries the event's own time, name,
   * source, address, agent and region, and its identity type.
   */
  function Classify(event: RawEvent, username: Option<string>): (r: Outcome)
    ensures r.Accept? ==>
      && event.Record?
      && event.userIdentity.Present?
      && PrincipalTypeOf(event.userIdentity.value.principalType) == Some(r.activity.userType)
      && ResolveActor(r.activity.userType, event.userIdentity.value) == Resolved(Some(r.user))
      && r.user != ""
      && !FilterExcludes(username, r.user)
      && event.eventTime == Some(r.activity.eventTime)
      && r.activity.eventName == event.eventName
      && r.activity.eventSource == event.eventSource
      && r.activity.sourceIPAddress == event.sourceIPAddress
      && r.activity.userAgent == event.userAgent
      && r.activity.awsRegion == event.awsRegion
  {
    match event
    case NotAnObject => Skip(RaisedError)
    case Record(userIdentity, eventTime, eventName, eventSource, sourceIPAddress, userAgent, awsRegion) =>
      if userIdentity.Malformed? then Skip(RaisedError)
      else
        var identity := IdentityOf(userIdentity);
        match PrincipalTypeOf(identity.principalType)
        case None => Skip(UnsupportedType)
        case Some(kind) =>
          match ResolveActor(kind, identity)
          case Raises => Skip(RaisedError)
          case Resolved(currentUser) =>
            if currentUser.None? || currentUser.value == "" then Skip(NoUserName)
            else if FilterExcludes(username, currentUser.value) then Skip(OtherUser)
            else if eventTime.None? then Skip(NoEventTime)
            else Accept(currentUser.value,
                        Activity(eventTime.value, eventName, eventSource, sourceIPAddress, userAgent, awsRegion, kind))
  }

  /** The converse of `Classify`'s contract: an event meeting every condition is accepted. */
  lemma AcceptedWhenInScope(event: RawEvent, username: Option<string>, kind: PrincipalType, user: string)
    requires event.Record? && event.userIdentity.Present?
    requires PrincipalTypeOf(event.userIdentity.value.principalType) == Some(kind)
    requires ResolveActor(kind, event.userIdentity.value) == Resolved(Some(user))
    requires user != "" && !FilterExcludes(username, user)
    requires event.eventTime.Some?
    ensures Classify(event, username) == Accept(user, Activity(
      event.eventTime.value, event.eventName, event.eventSource, event.sourceIPAddress,
      event.userAgent, event.awsRegion, kind))
  {
  }

  /** An identity type other than IAMUser and AssumedRole (or none at all) is skipped. */
  lemma UnsupportedTypeSkipped(event: RawEvent, username: Option<string>)
    requires event.Record? && !event.userIdentity.Malformed?
    requires IdentityOf(event.userIdentity).principalType !in {Some("IAMUser"), Some("AssumedRole")}
    ensures Classify(event, username) == Skip(UnsupportedType)
  {
  }

  /** What one event adds to the accepted pairs: one pair, or nothing. */
  function Contribution(outcome: Outcome): seq<(string, Activity)> {
    if outcome.Accept? then [(outcome.user, outcome.activity)] else []
  }

  /** The accepted (actor, activity) pairs, in input order. */
  function Tagged(events: seq<RawEvent>, username: Option<string>): seq<(string, Activity)> {
    if events == [] then []
    else Tagged(events[..|events| - 1], username) + Contribution(Classify(events[|events| - 1], username))
  }

  /** The number of skipped events. */
  function SkipCount(events: seq<RawEvent>, username: Option<string>): nat {
    if events == [] then 0
    else SkipCount(events[..|events| - 1], username) + (if Classify(events[|events| - 1], username).Skip? then 1 else 0)
  }

  lemma TaggedAppend(events: seq<RawEvent>, event: RawEvent, username: Option<string>)
    ensures Tagged(events + [event], username) == Tagged(events, username) + Contribution(Classify(event, username))
    ensures Classify(event, username).Skip? ==> Tagged(events + [event], username) == Tagged(events, username)
    ensures SkipCount(events + [event], username) ==
      SkipCount(events, username) + (if Classify(event, username).Skip? then 1 else 0)
  {
    assert (events + [event])[..|events|] == events;
  }

  /** Every event is either skipped or contributes exactly one activity. */
  lemma {:induction false} TaggedPlusSkipped(events: seq<RawEvent>, username: Option<string>)
    ensures |Tagged(events, username)| + SkipCount(events, username) == |events|
  {
    if events != [] {
      TaggedPlusSkipped(events[..|events| - 1], username);
    }
  }

  /** Every accepted pair comes from an event that `Classify` accepts. */
  lemma {:induction false} TaggedFromAccepted(events: seq<RawEvent>, username: Option<string>)
    ensures forall p | p in Tagged(events, username) ::
      exists e :: e in events && Classify(e, username) == Accept(p.0, p.1)
  {
    if events != [] {
      var init, last := events[..|events| - 1], events[|events| - 1];
      TaggedFromAccepted(init, username);
      assert events == init + [last];
      forall p | p in Tagged(events, username)
        ensures exists e :: e in events && Classify(e, username) == Accept(p.0, p.1)
      {
        if p in Tagged(init, username) {
          var e :| e in init && Classify(e, username) == Accept(p.0, p.1);
          assert e in events;
        } else {
          assert Classify(last, username) == Accept(p.0, p.1);
        }
      }
    }
  }

  /**
   * A skipped event changes nothing: removing it from anywhere in the input
   * leaves the accepted pairs unchanged and lowers the skip count by one.
   */
  lemma {:induction false} SkippedEventContributesNothing(
    before: seq<RawEvent>, event: RawEvent, after: seq<RawEvent>, username: Option<string>)
    requires Classify(event, username).Skip?
    ensures Tagged(before + [event] + after, username) == Tagged(before + after, username)
    ensures SkipCount(before + [event] + after, username) == SkipCount(before + after, username) + 1
  {
    if after == [] {
      assert before + [event] + after == before + [event];
      assert before + after == before;
      TaggedAppend(before, event, username);
    } else {
      var init, last := after[..|after| - 1], after[|after| - 1];
      SkippedEventContributesNothing(before, event, init, username);
      assert before + [event] + after == (before + [event] + init) + [last];
      assert before + after == (before + init) + [last];
      TaggedAppend(before + [event] + init, last, username);
      TaggedAppend(before + init, last, username);
    }
  }

  /**
   * The filter only ever turns an acceptance into a skip, and only for
   * another user: with a non-empty filter an event is accepted exactly when
   * it is accepted unfiltered and its actor is the filtered user.
   */
  lemma FilterDecision(event: RawEvent, name: string)
    requires name != ""
    ensures Classify(event, Some(name)).Accept? ==>
      Classify(event, None) == Classify(event, Some(name)) && Classify(event, None).user == name
    ensures Classify(event, Some(name)).Skip? && Classify(event, None).Accept? ==>
      Classify(event, None).user != name
  {
  }

  /** One more event under a non-empty filter adds what it adds unfiltered, if it is that user's. */
  lemma FilterStep(events: seq<RawEvent>, last: RawEvent, name: string) returns (added: seq<(string, Activity)>)
    requires name != ""
    ensures Tagged(events + [last], None) == Tagged(events, None) + added
    ensures Tagged(events + [last], Some(name)) == Tagged(events, Some(name)) + KeyOnly(added, name)
  {
    TaggedAppend(events, last, None);
    TaggedAppend(events, last, Some(name));
    FilterDecision(last, name);
    added := Contribution(Classify(last, None));
    if added != [] {
      assert added[..0] == [];
    }
  }

  /** A non-empty filter keeps exactly the accepted pairs of that user, in order. */
  lemma {:induction false} FilteredPairs(events: seq<RawEvent>, name: string)
    requires name != ""
    ensures Tagged(events, Some(name)) == KeyOnly(Tagged(events, None), name)
  {
    if events != [] {
      var init, last := events[..|events| - 1], events[|events| - 1];
      FilteredPairs(init, name);
      assert events == init + [last];
      var added := FilterStep(init, last, name);
      KeyOnlyAppend(Tagged(init, None), added, name);
    }
  }

  /**
   * Filtering by a non-empty user name keeps exactly that user's activities
   * of the unfiltered run, in the same order, and nobody else's.
   */
  lemma FilterKeepsOneUser(events: seq<RawEvent>, name: string, u: string)
    requires name != ""
    ensures Group(Tagged(events, Some(name)), u) == if u == name then Group(Tagged(events, None), u) else []
  {
    FilteredPairs(events, name);
    GroupOfKeyOnly(Tagged(events, None), name, u);
  }

  /** A non-empty filter admits its own user only. */
  lemma FilteredKeys(events: seq<RawEvent>, name: string)
    requires name != ""
    ensures forall u | u in KeyOrder(Tagged(events, Some(name))) :: u == name
  {
    forall u | u in KeyOrder(Tagged(events, Some(name)))
      ensures u == name
    {
      FilterKeepsOneUser(events, name, u);
    }
  }

  /** Sorted groups of the accepted pairs form a valid dict that stores every pair once. */
  lemma SortedGroupsFacts(tagged: seq<(string, Activity)>, lists: map<string, seq<Activity>>)
    requires forall u | u in lists :: u in KeyOrder(tagged)
    requires forall u | u in KeyOrder(tagged) :: u in lists
    requires forall u | u in lists :: lists[u] == SortByTime(Group(tagged, u))
    ensures Valid(Dict(KeyOrder(tagged), lists))
    ensures forall u | u in lists :: lists[u] != [] && SortedByTime(lists[u])
    ensures TotalLength(KeyOrder(tagged), lists) == |tagged|
  {
    forall u | u in lists
      ensures SortedByTime(lists[u])
    {
      SortByTimeFacts(Group(tagged, u));
    }
    GroupsPartition(tagged, lists);
  }

  /**
   * The final loop of `extract_user_activities`: every bucket, in key order,
   * is replaced by its stable sort by event time.
   */
  method SortEachBucket(users: seq<string>, buckets: map<string, seq<Activity>>)
    returns (sorted: map<string, seq<Activity>>)
    requires Distinct(users)
    requires forall u | u in buckets :: u in users
    requires forall u | u in users :: u in buckets
    ensures sorted.Keys == buckets.Keys
    ensures forall u | u in sorted :: sorted[u] == SortByTime(buckets[u])
  {
    sorted := buckets;
    for j := 0 to |users|
      invariant sorted.Keys == buckets.Keys
      invariant forall k | 0 <= k < j :: sorted[users[k]] == SortByTime(buckets[users[k]])
      invariant forall k | j <= k < |users| :: sorted[users[k]] == buckets[users[k]]
    {
      var user := users[j];
      assert forall k | 0 <= k < |users| && k != j :: users[k] != user;
      sorted := sorted[user := SortByTime(sorted[user])];
    }
    forall u | u in sorted
      ensures sorted[u] == SortByTime(buckets[u])
    {
      var k :| 0 <= k < |users| && users[k] == u;
    }
  }

  /** The ordered dict `extract_user_activities` returns for `events`. */
  predicate IsExtractedLedger(ledger: Dict<string, Activity>, events: seq<RawEvent>, username: Option<string>) {
    var tagged := Tagged(events, username);
    && ledger.keys == KeyOrder(tagged)
    && (forall u | u in ledger.keys :: u in ledger.lists)
    && (forall u | u in ledger.lists :: u in ledger.keys && ledger.lists[u] == SortByTime(Group(tagged, u)))
  }

  /**
   * What the extracted ledger guarantees: a valid dict whose buckets are
   * non-empty and sorted, holding one activity per event that was not
   * skipped; under a non-empty filter its only possible key is that user.
   */
  lemma ExtractedLedgerFacts(ledger: Dict<string, Activity>, events: seq<RawEvent>, username: Option<string>)
    requires IsExtractedLedger(ledger, events, username)
    ensures Valid(ledger)
    ensures forall u | u in ledger.lists :: ledger.lists[u] != [] && SortedByTime(ledger.lists[u])
    ensures SkipCount(events, username) + Size(ledger) == |events|
    ensures username.Some? && username.value != "" ==> forall u | u in ledger.lists :: u == username.value
  {
    SortedGroupsFacts(Tagged(events, username), ledger.lists);
    TaggedPlusSkipped(events, username);
    if username.Some? && username.value != "" {
      FilteredKeys(events, username.value);
    }
  }

  /** Every accepted event contributes its pair. */
  lemma {:induction false} AcceptedIsTagged(events: seq<RawEvent>, username: Option<string>, e: RawEvent)
    requires e in events && Classify(e, username).Accept?
    ensures (Classify(e, username).user, Classify(e, username).activity) in Tagged(events, username)
  {
    var init, last := events[..|events| - 1], events[|events| - 1];
    assert events == init + [last];
    if e != last {
      AcceptedIsTagged(init, username, e);
    }
  }

  /** An accepted pair is in the pairs exactly when some event is accepted with it. */
  lemma TaggedIsAccepted(events: seq<RawEvent>, username: Option<string>, u: string, a: Activity)
    ensures (u, a) in Tagged(events, username) <==> exists e | e in events :: Classify(e, username) == Accept(u, a)
  {
    TaggedFromAccepted(events, username);
    if e :| e in events && Classify(e, username) == Accept(u, a) {
      AcceptedIsTagged(events, username, e);
    }
  }

  /** A user's bucket in the ledger holds exactly the activities paired with that user. */
  lemma BucketHoldsTagged(ledger: Dict<string, Activity>, events: seq<RawEvent>, username: Option<string>, u: string, a: Activity)
    requires IsExtractedLedger(ledger, events, username)
    ensures (u in ledger.lists && a in ledger.lists[u]) <==> (u, a) in Tagged(events, username)
  {
    var tagged := Tagged(events, username);
    var group := Group(tagged, u);
    GroupMembers(tagged, u);
    SortByTimePermutes(group);
    if u in ledger.lists {
      assert ledger.lists[u] == SortByTime(group);
      assert a in ledger.lists[u] <==> a in multiset(group);
    } else {
      assert u !in KeyOrder(tagged);
    }
  }

  /**
   * A user's bucket holds exactly the activities accepted for that user, and
   * a user has a bucket exactly when some event is accepted for it.
   */
  lemma BucketMembers(ledger: Dict<string, Activity>, events: seq<RawEvent>, username: Option<string>, u: string, a: Activity)
    requires IsExtractedLedger(ledger, events, username)
    ensures (u in ledger.lists && a in ledger.lists[u]) <==> exists e | e in events :: Classify(e, username) == Accept(u, a)
  {
    BucketHoldsTagged(ledger, events, username, u, a);
    TaggedIsAccepted(events, username, u, a);
  }

  /** A skipped event leaves the accepted pairs as they were and adds one skip. */
  lemma SkipStep(events: seq<RawEvent>, i: nat, username: Option<string>)
    requires i < |events| && Classify(events[i], username).Skip?
    ensures Tagged(events[..i + 1], username) == Tagged(events[..i], username)
    ensures SkipCount(events[..i + 1], username) == SkipCount(events[..i], username) + 1
  {
    assert events[..i + 1] == events[..i] + [events[i]];
    TaggedAppend(events[..i], events[i], username);
  }

  /** An accepted event is appended to its actor's bucket, created on first sight. */
  lemma AcceptStep(events: seq<RawEvent>, i: nat, username: Option<string>,
                   users: seq<string>, buckets: map<string, seq<Activity>>, user: string, activity: Activity)
    requires i < |events| && Classify(events[i], username) == Accept(user, activity)
    requires Builds(users, buckets, Tagged(events[..i], username))
    ensures SkipCount(events[..i + 1], username) == SkipCount(events[..i], username)
    ensures Builds(if user in buckets then users else users + [user],
                   buckets[user := (if user in buckets then buckets[user] else []) + [activity]],
                   Tagged(events[..i + 1], username))
  {
    assert events[..i + 1] == events[..i] + [events[i]];
    TaggedAppend(events[..i], events[i], username);
    BuildsAppend(users, buckets, Tagged(events[..i], username), user, activity);
  }

  /**
   * The event loop of `extract_user_activities`: every event is counted as
   * processed; a skipped one is counted as skipped and changes nothing else;
   * an accepted one is appended to its actor's bucket, created on first
   * sight. The result is the dict that groups the accepted pairs by actor.
   */
  method CollectActivities(events: seq<RawEvent>, username: Option<string>)
    returns (users: seq<string>, buckets: map<string, seq<Activity>>, processed: nat, skipped: nat)
    ensures Builds(users, buckets, Tagged(events, username))
    ensures processed == |events|
    ensures skipped == SkipCount(events, username)
  {
    users, buckets := [], map[];
    processed, skipped := 0, 0;
    for i := 0 to |events|
      invariant processed == i
      invariant skipped == SkipCount(events[..i], username)
      invariant Builds(users, buckets, Tagged(events[..i], username))
    {
      processed := processed + 1;
      var outcome := Classify(events[i], username);
      if outcome.Skip? {
        SkipStep(events, i, username);
        skipped := skipped + 1;
      } else {
        var user, activity := outcome.user, outcome.activity;
        AcceptStep(events, i, username, users, buckets, user, activity);
        var bucket := if user in buckets then buckets[user] else [];
        if user !in buckets {
          users := users + [user];
        }
        buckets := buckets[user := bucket + [activity]];
      }
    }
    assert events[..|events|] == events;
  }

  /**
   * `extract_user_activities`: returns the per-actor buckets with the
   * processed and skipped counters. Each actor's bucket is the stable sort by
   * time of its accepted activities in input order; buckets are never empty;
   * every event is processed, and those not skipped are exactly the
   * activities stored; a non-empty filter admits only its own user.
   */
  method ExtractUserActivities(events: seq<RawEvent>, username: Option<string>)
    returns (userActivities: Dict<string, Activity>, processed: nat, skipped: nat)
    ensures IsExtractedLedger(userActivities, events, username)
    ensures Valid(userActivities)
    ensures forall u | u in userActivities.lists ::
      userActivities.lists[u] != [] && SortedByTime(userActivities.lists[u])
    ensures processed == |events|
    ensures skipped == SkipCount(events, username)
    ensures skipped <= processed && processed - skipped == Size(userActivities)
    ensures username.Some? && username.value != "" ==>
      forall u | u in userActivities.lists :: u == username.value
  {
    var users, buckets;
    users, buckets, processed, skipped := CollectActivities(events, username);
    var sorted := SortEachBucket(users, buckets);
    userActivities := Dict(users, sorted);
    ExtractedLedgerFacts(userActivities, events, username);
  }
}
