/** The public view of a user returned by the user endpoints. */
module UserDto {
  import opened Common
  import opened Crypto
  import opened UserEntity

  /** The four public fields; no password, refresh token or role. */
  datatype UserResponse = UserResponse(id: int, email: string, nickname: string, createdAt: int)

  /** `UserResponseDto.from`. */
  function From(u: User): UserResponse {
    UserResponse(u.id, u.email, u.nickname, u.createdAt)
  }

  /** The profile carries the record's id, email, nickname and creation
      stamp, and two records give the same profile exactly when those agree. */
  lemma FromKeepsPublicFields(u: User, v: User)
    ensures From(u).id == u.id && From(u).email == u.email
    ensures From(u).nickname == u.nickname && From(u).createdAt == u.createdAt
    ensures From(u) == From(v) <==>
      u.id == v.id && u.email == v.email && u.nickname == v.nickname && u.createdAt == v.createdAt
  {
  }

  /** Nothing secret leaks: the profile does not depend on the password
      digest, the refresh digest or the role. */
  lemma FromHidesSecrets(u: User, password: Digest, refresh: Option<Digest>, role: Role)
    ensures From(u.(passwordHash := password, refreshHash := refresh, role := role)) == From(u)
  {
  }

  /** `UserResponseDto.fromArray`: `users.map(from)`. */
  function FromArray(us: seq<User>): (r: seq<UserResponse>)
    ensures |r| == |us|
    ensures forall i :: 0 <= i < |us| ==> r[i] == From(us[i])
  {
    if us == [] then [] else [From(us[0])] + FromArray(us[1..])
  }
}
