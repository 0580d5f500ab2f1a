/** The authentication service: registration, login, refresh-token
    rotation and logout over the user store, the hasher and the signer. */
module Auth {
  import opened Common
  import opened Crypto
  import opened UserEntity
  import opened Jwt
  import opened AuthDto
  import opened Store
  import opened Users
  import UserTable

  /** The value `updateRefreshToken` stores for a token: its digest, or null
      for a falsy token (null, or the empty string). */
  function RefreshColumn(token: Option<string>, salt: Salt): (h: Option<Digest>)
    ensures h.Some? <==> token.Some? && token.value != ""
    ensures h.Some? ==> h.value == Hash(token.value, salt)
  {
    if token.Some? && token.value != "" then Some(Hash(token.value, salt)) else None
  }

  /** The check of `refreshAccessToken`: a refresh digest is stored and the
      presented token verifies against it. */
  predicate AcceptsRefresh(u: User, token: string) {
    u.refreshHash.Some? && Verify(token, u.refreshHash.value)
  }

  /** After the column is written for a token, exactly that token is
      accepted, and the empty token never is. */
  lemma RefreshColumnAcceptsOnlyItsToken(u: User, issued: string, presented: string, salt: Salt)
    ensures AcceptsRefresh(u.(refreshHash := RefreshColumn(Some(issued), salt)), presented)
      <==> issued != "" && presented == issued
  {
    if issued != "" {
      VerifyHash(issued, presented, salt);
    }
  }

  /** After logout nothing is accepted. */
  lemma ClearedColumnAcceptsNothing(u: User, presented: string)
    ensures !AcceptsRefresh(u.(refreshHash := None), presented)
  {
  }

  class AuthService {
    const users: UserService
    const db: Database
    const sign: Signer
    const config: JwtConfig

    constructor (users: UserService, sign: Signer, config: JwtConfig)
      ensures this.users == users && db == users.db && this.sign == sign && this.config == config
    {
      this.users := users;
      this.db := users.db;
      this.sign := sign;
      this.config := config;
    }

    ghost predicate Valid()
      reads db
    {
      users.db == db && users.Valid()
    }

    /** `generateTokens` at time `now`: one payload `{ sub, email, role }`,
        signed once with the access secret and lifetime and once with the
        refresh secret and lifetime, both issued at `now`; `expiresIn` is the
        access lifetime. */
    function GenerateTokens(userId: int, email: string, role: Role, now: int): (t: Tokens)
      ensures exists claims: JwtPayload ::
        && claims.sub == userId && claims.email == email && claims.role == role
        && t.accessToken == sign(Stamped(claims, now, config.accessExpiration), config.accessSecret)
        && t.refreshToken == sign(Stamped(claims, now, config.refreshExpiration), config.refreshSecret)
      ensures t.expiresIn == config.accessExpiration
    {
      var claims := JwtPayload(userId, email, role, None, None);
      Tokens(sign(Stamped(claims, now, config.accessExpiration), config.accessSecret),
             sign(Stamped(claims, now, config.refreshExpiration), config.refreshSecret),
             config.accessExpiration)
    }

    /** Stores the digest of the token, or null for a falsy token. */
    method UpdateRefreshToken(userId: int, token: Option<string>, salt: Salt)
      requires Valid()
      modifies db
      ensures Valid()
      ensures db.users == UserTable.SetRefreshHash(old(db.users), userId, RefreshColumn(token, salt))
      ensures db.boards == old(db.boards) && db.nextUserId == old(db.nextUserId)
      ensures db.nextBoardId == old(db.nextBoardId) && db.clock == old(db.clock)
    {
      users.UpdateRefreshToken(userId, RefreshColumn(token, salt));
    }

    /** Registration.  An email in use fails with Conflict and writes
        nothing; an email or nickname wider than its column is refused by
        the store and writes nothing.  Otherwise the account is created
        with the digest of the password (never the password), the default
        role and no refresh digest; a token pair is issued for it and the
        digest of its refresh token is stored. */
    method SignUp(dto: RegisterDto, passwordSalt: Salt, refreshSalt: Salt, now: int) returns (r: Result<AuthResponse>)
      requires Valid()
      modifies db
      ensures Valid()
      ensures UserTable.HasEmail(old(db.users), dto.email) ==>
        r == Err(Conflict(EmailExists)) && unchanged(db)
      ensures !UserTable.HasEmail(old(db.users), dto.email) && !FitsColumns(dto.email, dto.nickname) ==>
        r == Err(Store(DataTooLong)) && unchanged(db)
      ensures !UserTable.HasEmail(old(db.users), dto.email) && FitsColumns(dto.email, dto.nickname) ==>
        var created := NewUser(old(db.nextUserId), CreateUserDto(dto.email, Hash(dto.password, passwordSalt), dto.nickname), old(db.clock));
        var tokens := GenerateTokens(created.id, created.email, created.role, now);
        && r == Ok(AuthDto.From(created, tokens))
        && db.users == old(db.users) + [created.(refreshHash := RefreshColumn(Some(tokens.refreshToken), refreshSalt))]
        && db.boards == old(db.boards) && db.nextBoardId == old(db.nextBoardId)
        && db.nextUserId == old(db.nextUserId) + 1 && db.clock == old(db.clock) + 1
    {
      var existing := users.ExistsByEmail(dto.email);
      if existing {
        return Err(Conflict(EmailExists));
      }
      var hashedPassword := Hash(dto.password, passwordSalt);
      ghost var before := db.users;
      var created := users.CreateUser(CreateUserDto(dto.email, hashedPassword, dto.nickname));
      if created.Err? {
        return Err(created.error);
      }
      var user := created.value;
      var tokens := GenerateTokens(user.id, user.email, user.role, now);
      UpdateRefreshToken(user.id, Some(tokens.refreshToken), refreshSalt);
      UserTable.SetRefreshHashOfNewRow(before, user, RefreshColumn(Some(tokens.refreshToken), refreshSalt));
      r := Ok(AuthDto.From(user, tokens));
    }

    /** Login.  An unknown email and a wrong password fail with the same
        error and write nothing; otherwise a token pair is issued and the
        digest of its refresh token replaces the stored one. */
    method Login(dto: LoginDto, refreshSalt: Salt, now: int) returns (r: Result<AuthResponse>)
      requires Valid()
      modifies db
      ensures Valid()
      ensures var found := UserTable.FindByEmail(old(db.users), dto.email);
        found.None? || !Verify(dto.password, found.value.passwordHash) ==>
          r == Err(Unauthorized(InvalidCredentials)) && unchanged(db)
      ensures var found := UserTable.FindByEmail(old(db.users), dto.email);
        found.Some? && Verify(dto.password, found.value.passwordHash) ==>
          var tokens := GenerateTokens(found.value.id, found.value.email, found.value.role, now);
          && r == Ok(AuthDto.From(found.value, tokens))
          && db.users == UserTable.SetRefreshHash(old(db.users), found.value.id, RefreshColumn(Some(tokens.refreshToken), refreshSalt))
          && db.boards == old(db.boards) && db.nextUserId == old(db.nextUserId)
          && db.nextBoardId == old(db.nextBoardId) && db.clock == old(db.clock)
    {
      var found := users.FindUserByEmail(dto.email);
      if found.None? {
        return Err(Unauthorized(InvalidCredentials));
      }
      var user := found.value;
      var isPasswordValid := Verify(dto.password, user.passwordHash);
      if !isPasswordValid {
        return Err(Unauthorized(InvalidCredentials));
      }
      var tokens := GenerateTokens(user.id, user.email, user.role, now);
      UpdateRefreshToken(user.id, Some(tokens.refreshToken), refreshSalt);
      r := Ok(AuthDto.From(user, tokens));
    }

    /** Refresh.  A vanished account is NotFound (the lookup throws before
        the null test is reached).  No stored digest, or a token that does
        not verify against it, is AccessDenied and writes nothing.
        Otherwise a new pair is issued and its refresh digest replaces the
        stored one, touching no other field and no other user. */
    method RefreshAccessToken(userId: int, refreshToken: string, refreshSalt: Salt, now: int) returns (r: Result<Tokens>)
      requires Valid()
      modifies db
      ensures Valid()
      ensures !UserTable.HasId(old(db.users), userId) ==>
        r == Err(NotFound(UserNotFound)) && unchanged(db)
      ensures UserTable.HasId(old(db.users), userId) &&
              !AcceptsRefresh(UserTable.FindById(old(db.users), userId).value, refreshToken) ==>
        r == Err(Unauthorized(AccessDenied)) && unchanged(db)
      ensures UserTable.HasId(old(db.users), userId) &&
              AcceptsRefresh(UserTable.FindById(old(db.users), userId).value, refreshToken) ==>
        var u := UserTable.FindById(old(db.users), userId).value;
        && r == Ok(GenerateTokens(u.id, u.email, u.role, now))
        && db.users == UserTable.SetRefreshHash(old(db.users), userId, RefreshColumn(Some(r.value.refreshToken), refreshSalt))
        && db.boards == old(db.boards) && db.nextUserId == old(db.nextUserId)
        && db.nextBoardId == old(db.nextBoardId) && db.clock == old(db.clock)
    {
      var found := users.FindUserById(userId);
      if found.Err? {
        return Err(found.error);
      }
      var user := found.value;
      if user.refreshHash.None? {
        return Err(Unauthorized(AccessDenied));
      }
      var isRefreshTokenValid := Verify(refreshToken, user.refreshHash.value);
      if !isRefreshTokenValid {
        return Err(Unauthorized(AccessDenied));
      }
      var tokens := GenerateTokens(user.id, user.email, user.role, now);
      UpdateRefreshToken(user.id, Some(tokens.refreshToken), refreshSalt);
      r := Ok(tokens);
    }

    /** Logout clears the stored refresh digest, whether or not one was
        stored and whether or not the account still exists. */
    method Logout(userId: int)
      requires Valid()
      modifies db
      ensures Valid()
      ensures db.users == UserTable.SetRefreshHash(old(db.users), userId, None)
      ensures db.boards == old(db.boards) && db.nextUserId == old(db.nextUserId)
      ensures db.nextBoardId == old(db.nextBoardId) && db.clock == old(db.clock)
    {
      UpdateRefreshToken(userId, None, 0);
    }
  }

  /** Each token of a pair is signed with the secret of the strategy that
      verifies it: the access token with the access strategy's, the refresh
      token with the refresh strategy's, from one set of claims. */
  lemma TokensSignedForTheirStrategies(auth: AuthService, userId: int, email: string, role: Role, now: int)
    ensures var t := auth.GenerateTokens(userId, email, role, now);
      exists claims: JwtPayload ::
        && claims.sub == userId
        && t.accessToken == auth.sign(Stamped(claims, now, auth.config.accessExpiration), SecretOf(AccessStrategyOptions.secret, auth.config))
        && t.refreshToken == auth.sign(Stamped(claims, now, auth.config.refreshExpiration), SecretOf(RefreshStrategyOptions.secret, auth.config))
  {
    var claims := JwtPayload(userId, email, role, None, None);
    assert auth.GenerateTokens(userId, email, role, now).accessToken
      == auth.sign(Stamped(claims, now, auth.config.accessExpiration), SecretOf(AccessStrategyOptions.secret, auth.config));
  }

  /** A client that logs out and then presents any refresh token is
      refused, and the refusal writes nothing. */
  method LogoutThenRefresh(auth: AuthService, userId: int, token: string, salt: Salt, now: int) returns (r: Result<Tokens>)
    requires auth.Valid()
    modifies auth.db
    ensures auth.Valid()
    ensures r == Err(if UserTable.HasId(old(auth.db.users), userId) then Unauthorized(AccessDenied) else NotFound(UserNotFound))
    ensures auth.db.users == UserTable.SetRefreshHash(old(auth.db.users), userId, None)
  {
    auth.Logout(userId);
    UserTable.SetRefreshHashLookup(old(auth.db.users), userId, None, userId);
    r := auth.RefreshAccessToken(userId, token, salt, now);
  }

  /** Presenting the same refresh token twice: after a successful first
      refresh, the second succeeds only if the token is also the one just
      issued, since the stored digest now belongs to that one. */
  method RefreshTwice(auth: AuthService, userId: int, token: string, salt1: Salt, salt2: Salt, now1: int, now2: int)
    returns (first: Result<Tokens>, second: Result<Tokens>)
    requires auth.Valid()
    modifies auth.db
    ensures auth.Valid()
    ensures first.Ok? ==> (second.Ok? <==> token == first.value.refreshToken && token != "")
    ensures first.Err? ==> second == first
  {
    ghost var before := auth.db.users;
    first := auth.RefreshAccessToken(userId, token, salt1, now1);
    if first.Ok? {
      var u := UserTable.FindById(before, userId).value;
      UserTable.SetRefreshHashLookup(before, userId, RefreshColumn(Some(first.value.refreshToken), salt1), userId);
      RefreshColumnAcceptsOnlyItsToken(u, first.value.refreshToken, token, salt1);
    }
    second := auth.RefreshAccessToken(userId, token, salt2, now2);
  }

  /** A fresh registration can log in at once with the same email and
      password, and both responses show the same profile. */
  method SignUpThenLogin(auth: AuthService, dto: RegisterDto, passwordSalt: Salt, salt1: Salt, salt2: Salt, now1: int, now2: int)
    returns (registered: Result<AuthResponse>, loggedIn: Result<AuthResponse>)
    requires auth.Valid()
    modifies auth.db
    ensures auth.Valid()
    ensures registered.Ok? ==> loggedIn.Ok? && loggedIn.value.user == registered.value.user
  {
    registered := auth.SignUp(dto, passwordSalt, salt1, now1);
    if registered.Ok? {
      var rows := auth.db.users;
      UserTable.FindByEmailFindsRow(rows, |rows| - 1);
      VerifyHash(dto.password, dto.password, passwordSalt);
    }
    loggedIn := auth.Login(LoginDto(dto.email, dto.password), salt2, now2);
  }
}
