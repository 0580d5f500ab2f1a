/** The `validate` callbacks of the two passport-jwt strategies, run after
    the library has checked the token's signature and expiry.  Each reads
    the user table (passed in as it stands) through `findUserById`,
    which throws NotFound for a missing account. */
module Strategies {
  import opened Common
  import opened UserEntity
  import opened Jwt
  import opened JsString
  import UserTable

  /** `request.user` as set by the access strategy. */
  datatype AuthenticatedUser = AuthenticatedUser(id: int, email: string, role: Role)

  /** `request.user` as set by the refresh strategy: the identity plus the
      raw token taken from the header. */
  datatype RefreshUser = RefreshUser(id: int, email: string, role: Role, refreshToken: string)

  const BearerPrefix: string := "Bearer "

  /** `req.get('Authorization')?.replace('Bearer ', '').trim()`: no header
      gives no token; otherwise the first "Bearer " is cut out and the rest
      trimmed. */
  function ExtractBearer(header: Option<string>): (r: Option<string>)
    ensures r.None? <==> header.None?
    ensures r.Some? ==> r.value == Trim(ReplaceFirst(header.value, BearerPrefix, "")) && IsTrimmed(r.value)
  {
    match header
    case None => None
    case Some(h) => Some(Trim(ReplaceFirst(h, BearerPrefix, "")))
  }

  /** A header "Bearer " + t, with t having nothing to trim, yields t. */
  lemma ExtractBearerRoundTrip(t: string)
    requires IsTrimmed(t)
    ensures ExtractBearer(Some(BearerPrefix + t)) == Some(t)
  {
    ReplacePrefix(BearerPrefix, t);
    TrimOfTrimmed(t);
  }

  /** The access strategy: a missing account is NotFound (thrown by the
      lookup, so the ACCESS_DENIED branch is never reached); otherwise the
      identity is the stored record's id, email and role. */
  function ValidateAccess(payload: JwtPayload, users: seq<User>): (r: Result<AuthenticatedUser>)
    ensures r.Err? <==> !UserTable.HasId(users, payload.sub)
    ensures r.Err? ==> r.error == NotFound(UserNotFound)
    ensures r.Ok? ==>
      exists u :: u in users && u.id == payload.sub && r.value == AuthenticatedUser(u.id, u.email, u.role)
  {
    match UserTable.FindOrNotFound(users, payload.sub)
    case Err(e) => Err(e)
    case Ok(u) => Ok(AuthenticatedUser(u.id, u.email, u.role))
  }

  /** Only the subject of the access token matters: its email and role
      claims never reach the identity. */
  lemma ValidateAccessIgnoresClaims(payload: JwtPayload, email: string, role: Role, users: seq<User>)
    ensures ValidateAccess(payload.(email := email, role := role), users) == ValidateAccess(payload, users)
    ensures ValidateAccess(payload, users).Ok? ==>
      ValidateAccess(payload, users).value.email == UserTable.FindById(users, payload.sub).value.email
  {
  }

  /** The refresh strategy: a header with no token after extraction is
      REFRESH_TOKEN_MISSING, checked before the lookup; a missing account
      is NotFound; otherwise the identity is the payload's claims with the
      raw token. */
  function ValidateRefresh(header: Option<string>, payload: JwtPayload, users: seq<User>): (r: Result<RefreshUser>)
    ensures (ExtractBearer(header).None? || ExtractBearer(header).value == "") ==>
      r == Err(Unauthorized(RefreshTokenMissing))
    ensures ExtractBearer(header).Some? && ExtractBearer(header).value != "" && !UserTable.HasId(users, payload.sub) ==>
      r == Err(NotFound(UserNotFound))
    ensures ExtractBearer(header).Some? && ExtractBearer(header).value != "" && UserTable.HasId(users, payload.sub) ==>
      r == Ok(RefreshUser(payload.sub, payload.email, payload.role, ExtractBearer(header).value))
  {
    var token := ExtractBearer(header);
    if token.None? || token.value == "" then Err(Unauthorized(RefreshTokenMissing))
    else match UserTable.FindOrNotFound(users, payload.sub)
      case Err(e) => Err(e)
      case Ok(_) => Ok(RefreshUser(payload.sub, payload.email, payload.role, token.value))
  }

  /** A well-formed "Bearer " header for a stored subject reaches the
      service with exactly the token it carried. */
  lemma ValidateRefreshPassesToken(t: string, payload: JwtPayload, users: seq<User>)
    requires IsTrimmed(t) && t != "" && UserTable.HasId(users, payload.sub)
    ensures ValidateRefresh(Some(BearerPrefix + t), payload, users).Ok?
    ensures ValidateRefresh(Some(BearerPrefix + t), payload, users).value.refreshToken == t
  {
    ExtractBearerRoundTrip(t);
  }

  /** The header "Bearer " alone, or padded with whitespace, carries no token. */
  lemma BlankBearerIsMissing(padding: string)
    requires forall k :: 0 <= k < |padding| ==> IsJsWhitespace(padding[k])
    ensures forall payload, users :: ValidateRefresh(Some(BearerPrefix + padding), payload, users) == Err(Unauthorized(RefreshTokenMissing))
  {
    ReplacePrefix(BearerPrefix, padding);
  }
}
