/**
 * The shapes of audit events as the analyzer reads them, and the compact
 * activity record it keeps for an accepted event.
 *
 * An event is a loosely shaped JSON object. Each member the analyzer reads
 * with `.get` is either absent, present, or present in a shape that makes the
 * next access raise (JSON null, or a non-object where an object is read with
 * `.get` again). Event times are abstracted to whole seconds since the epoch.
 */
module Events {
  import opened Wrappers

  /** A member read with `.get(key, default)`: absent (the default is used),
      present but malformed (the next access on it raises), or present. */
  datatype Field<+T> = Absent | Malformed | Present(value: T)

  datatype SessionIssuer = SessionIssuer(userName: Option<string>)

  datatype SessionContext = SessionContext(sessionIssuer: Field<SessionIssuer>)

  /** The `userIdentity` object; `principalType` is its `type` member. */
  datatype UserIdentity = UserIdentity(
    principalType: Option<string>,
    userName: Option<string>,
    arn: Field<string>,
    sessionContext: Field<SessionContext>)

  /** The empty object `{}` that `.get('userIdentity', {})` falls back to. */
  const NoIdentity := UserIdentity(None, None, Absent, Absent)

  /**
   * One element of the analyzer's event list. `eventTime` is `None` when the
   * member is missing, null or the empty string (all falsy); otherwise it is
   * the ISO-8601 UTC timestamp as seconds since the epoch.
   */
  datatype RawEvent =
    | Record(
        userIdentity: Field<UserIdentity>,
        eventTime: Option<int>,
        eventName: Option<string>,
        eventSource: Option<string>,
        sourceIPAddress: Option<string>,
        userAgent: Option<string>,
        awsRegion: Option<string>)
    | NotAnObject  // an element that is not a JSON object: `event.get` raises

  /** The two identity types the analyzer accepts. */
  datatype PrincipalType = IAMUser | AssumedRole

  /** The record kept for an accepted event (the `activity` dict). */
  datatype Activity = Activity(
    eventTime: int,
    eventName: Option<string>,
    eventSource: Option<string>,
    sourceIPAddress: Option<string>,
    userAgent: Option<string>,
    awsRegion: Option<string>,
    userType: PrincipalType)

  const SecondsPerDay := 86400

  /** The UTC calendar date of a timestamp, as days since the epoch. */
  function Date(t: int): int {
    t / SecondsPerDay
  }

  /** The UTC time of day of a timestamp, in seconds after midnight. */
  function TimeOfDay(t: int): int {
    t % SecondsPerDay
  }
}
