/**
 * Resolving the acting principal of an in-scope event: the user name of an
 * IAM user, or for an assumed role the session name at the end of its ARN,
 * falling back to the user name of the session issuer.
 */
module Identity {
  import opened Wrappers
  import opened Events

  const AssumedRoleMarker := "/assumed-role/"

  predicate OccursAt(s: string, pattern: string, i: nat) {
    i + |pattern| <= |s| && s[i..i + |pattern|] == pattern
  }

  /** Python's `pattern in s` on two strings. */
  predicate Contains(s: string, pattern: string) {
    exists i: nat | i <= |s| :: OccursAt(s, pattern, i)
  }

  /** Python's `s.split(sep)` for a one-character separator. */
  function Split(s: string, sep: char): (parts: seq<string>)
    ensures |parts| >= 1
    ensures forall k | 0 <= k < |parts| :: sep !in parts[k]
  {
    if s == [] then [[]]
    else
      var init := Split(s[..|s| - 1], sep);
      if s[|s| - 1] == sep then init + [[]]
      else init[..|init| - 1] + [init[|init| - 1] + [s[|s| - 1]]]
  }

  /** Python's `sep.join(parts)`. */
  function Join(parts: seq<string>, sep: char): string
    requires |parts| >= 1
  {
    if |parts| == 1 then parts[0]
    else Join(parts[..|parts| - 1], sep) + [sep] + parts[|parts| - 1]
  }

  /** Splitting loses nothing: joining the pieces gives the string back. */
  lemma {:induction false} JoinSplit(s: string, sep: char)
    ensures Join(Split(s, sep), sep) == s
  {
    if s != [] {
      var prefix, c := s[..|s| - 1], s[|s| - 1];
      assert s == prefix + [c];
      JoinSplit(prefix, sep);
      JoinSplitStep(prefix, c, sep);
    }
  }

  /** One more character: a separator opens a new piece, anything else extends the last. */
  lemma JoinSplitStep(prefix: string, c: char, sep: char)
    requires Join(Split(prefix, sep), sep) == prefix
    ensures Join(Split(prefix + [c], sep), sep) == prefix + [c]
  {
    var s := prefix + [c];
    assert s[..|s| - 1] == prefix && s[|s| - 1] == c;
    var init := Split(prefix, sep);
    var parts := Split(s, sep);
    if c == sep {
      assert parts == init + [[]];
      assert parts[..|parts| - 1] == init;
    } else if |init| > 1 {
      var n := |init|;
      assert parts == init[..n - 1] + [init[n - 1] + [c]];
      assert parts[..|parts| - 1] == init[..n - 1];
      assert Join(init, sep) == Join(init[..n - 1], sep) + [sep] + init[n - 1];
    } else {
      assert parts == [init[0] + [c]];
    }
  }

  /** `x` is what follows the last `sep` of `s` (all of `s` when there is none). */
  predicate IsFinalSegment(s: string, sep: char, x: string) {
    && sep !in x
    && |x| <= |s|
    && s[|s| - |x|..] == x
    && (|x| < |s| ==> s[|s| - |x| - 1] == sep)
  }

  /** `s.split(sep)[-1]` is the text after the last separator. */
  lemma {:induction false} LastPieceIsFinalSegment(s: string, sep: char)
    ensures var parts := Split(s, sep); IsFinalSegment(s, sep, parts[|parts| - 1])
  {
    if s != [] {
      var prefix := s[..|s| - 1];
      LastPieceIsFinalSegment(prefix, sep);
    }
  }

  lemma MarkerHasSlash(s: string)
    requires Contains(s, AssumedRoleMarker)
    ensures '/' in s
  {
    var i: nat :| i <= |s| && OccursAt(s, AssumedRoleMarker, i);
    assert s[i] == s[i..i + |AssumedRoleMarker|][0];
  }

  /** The outcome of reading the actor name: a value (possibly None or ""), or an exception. */
  datatype Resolution = Resolved(user: Option<string>) | Raises

  /** `identity.get('sessionContext', {}).get('sessionIssuer', {}).get('userName')`. */
  function IssuerUserName(context: Field<SessionContext>): (r: Resolution)
    ensures r.Raises? <==> context.Malformed? || (context.Present? && context.value.sessionIssuer.Malformed?)
    ensures context.Present? && context.value.sessionIssuer.Present? ==>
      r == Resolved(context.value.sessionIssuer.value.userName)
    ensures r.Resolved? && r.user.Some? ==> context.Present? && context.value.sessionIssuer.Present?
  {
    match context
    case Malformed => Raises
    case Absent => Resolved(None)
    case Present(c) =>
      match c.sessionIssuer
      case Malformed => Raises
      case Absent => Resolved(None)
      case Present(issuer) => Resolved(issuer.userName)
  }

  /** True when the ARN names a session: it is a string containing `/assumed-role/`. */
  predicate NamesSession(arn: Field<string>) {
    arn.Present? && Contains(arn.value, AssumedRoleMarker)
  }

  /**
   * The actor of an event whose identity type is in scope. An IAM user is
   * named by its `userName`. An assumed role is named by the final `/`
   * segment of its ARN when the ARN contains `/assumed-role/` (the session
   * name), and otherwise by its session issuer's `userName`. A null ARN, or a
   * null session context or issuer on the fallback path, raises.
   */
  function ResolveActor(kind: PrincipalType, identity: UserIdentity): (r: Resolution)
    ensures kind == IAMUser ==> r == Resolved(identity.userName)
    ensures kind == AssumedRole && NamesSession(identity.arn) ==>
      && r.Resolved? && r.user.Some?
      && IsFinalSegment(identity.arn.value, '/', r.user.value)
      && |r.user.value| < |identity.arn.value|
  {
    match kind
    case IAMUser => Resolved(identity.userName)
    case AssumedRole =>
      if identity.arn.Malformed? then Raises
      else
        var arn := if identity.arn.Present? then identity.arn.value else "";
        if Contains(arn, AssumedRoleMarker) then
          var parts := Split(arn, '/');
          LastPieceIsFinalSegment(arn, '/');
          MarkerHasSlash(arn);
          Resolved(Some(parts[|parts| - 1]))
        else IssuerUserName(identity.sessionContext)
  }

  /**
   * An assumed role whose ARN does not name a session falls back to the
   * session issuer: missing levels give no name, null levels raise.
   */
  lemma AssumedRoleFallback(identity: UserIdentity)
    requires !identity.arn.Malformed? && !NamesSession(identity.arn)
    ensures var r := ResolveActor(AssumedRole, identity);
      && (r.Raises? <==> identity.sessionContext.Malformed?
                         || (identity.sessionContext.Present? && identity.sessionContext.value.sessionIssuer.Malformed?))
      && (r.Resolved? && r.user.Some? ==>
            && identity.sessionContext.Present?
            && identity.sessionContext.value.sessionIssuer.Present?
            && r.user == identity.sessionContext.value.sessionIssuer.value.userName)
      && (identity.sessionContext.Present? && identity.sessionContext.value.sessionIssuer.Present? ==>
            r == Resolved(identity.sessionContext.value.sessionIssuer.value.userName))
      && (|| identity.sessionContext.Absent?
          || (identity.sessionContext.Present? && identity.sessionContext.value.sessionIssuer.Absent?) ==>
            r == Resolved(None))
  {
  }

  /** Only the assumed-role path can raise, and only on a null ARN or a null level of the fallback. */
  lemma ResolveActorRaises(kind: PrincipalType, identity: UserIdentity)
    ensures ResolveActor(kind, identity).Raises? <==>
      && kind == AssumedRole
      && (|| identity.arn.Malformed?
          || (!NamesSession(identity.arn) && IssuerUserName(identity.sessionContext).Raises?))
  {
  }
}
