/** The body returned by registration and login. */
module AuthDto {
  import opened Common
  import opened Crypto
  import opened UserEntity
  import opened UserDto
  import opened Jwt

  /** The registration body once validated. */
  datatype RegisterDto = RegisterDto(email: string, password: string, nickname: string)

  /** The login body. */
  datatype LoginDto = LoginDto(email: string, password: string)

  /** The profile (the same four fields as the user response) and the
      token pair. */
  datatype AuthResponse = AuthResponse(user: UserResponse, accessToken: string, refreshToken: string, expiresIn: int)

  /** `AuthResponseDto.from(user, tokens)`. */
  function From(u: User, tokens: Tokens): AuthResponse {
    AuthResponse(UserDto.From(u), tokens.accessToken, tokens.refreshToken, tokens.expiresIn)
  }

  /** The profile part equals the record's public fields; the tokens and
      the lifetime are copied verbatim. */
  lemma FromCopiesFields(u: User, tokens: Tokens)
    ensures From(u, tokens).user == UserResponse(u.id, u.email, u.nickname, u.createdAt)
    ensures From(u, tokens).accessToken == tokens.accessToken
    ensures From(u, tokens).refreshToken == tokens.refreshToken
    ensures From(u, tokens).expiresIn == tokens.expiresIn
  {
  }

  /** The response does not depend on the stored password digest, refresh
      digest or role. */
  lemma FromHidesSecrets(u: User, tokens: Tokens, password: Digest, refresh: Option<Digest>, role: Role)
    ensures From(u.(passwordHash := password, refreshHash := refresh, role := role), tokens) == From(u, tokens)
  {
  }
}
