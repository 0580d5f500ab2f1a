/** The User entity: one row of the user table. */
module UserEntity {
  import opened Common
  import opened Crypto

  /** The role column's enumeration {'user', 'admin'}. */
  datatype Role = UserRole | AdminRole

  /** The column default for a newly created user. */
  const DefaultRole: Role := UserRole

  /** A stored user.  `id` is generated by the store; `passwordHash` holds a
      digest, never the password; `refreshHash` is the nullable digest of
      the one refresh token currently valid for the account. */
  datatype User = User(
    id: int,
    email: string,
    nickname: string,
    passwordHash: Digest,
    role: Role,
    refreshHash: Option<Digest>,
    createdAt: int)

  /** The width of the email and nickname columns: a plain `@Column()`
      string is TypeORM's default varchar(255), counted in characters. */
  const TextColumnLength: nat := 255

  /** Whether an email and a nickname fit their columns; the store refuses
      a wider value (DataTooLong) before it looks at the unique index. */
  predicate FitsColumns(email: string, nickname: string) {
    |email| <= TextColumnLength && |nickname| <= TextColumnLength
  }

  /** The fields a new account is created from. */
  datatype CreateUserDto = CreateUserDto(email: string, passwordHash: Digest, nickname: string)

  /** A partial update of a user's profile: only the fields present are
      copied onto the record. */
  datatype UserPatch = UserPatch(email: Option<string>, nickname: Option<string>)

  /** The row the store inserts for `dto`: the generated id, the column
      defaults (role 'user', no refresh hash) and the creation stamp. */
  function NewUser(id: int, dto: CreateUserDto, now: int): (u: User)
    ensures u.id == id && u.createdAt == now
    ensures u.email == dto.email && u.nickname == dto.nickname && u.passwordHash == dto.passwordHash
    ensures u.role == DefaultRole && u.refreshHash == None
  {
    User(id, dto.email, dto.nickname, dto.passwordHash, DefaultRole, None, now)
  }

  /** `Object.assign(user, patch)`: the present fields overwrite, the rest
      of the record is kept. */
  function ApplyPatch(u: User, patch: UserPatch): (r: User)
    ensures r.email == patch.email.GetOr(u.email)
    ensures r.nickname == patch.nickname.GetOr(u.nickname)
    ensures r == u.(email := r.email, nickname := r.nickname)
  {
    u.(email := patch.email.GetOr(u.email), nickname := patch.nickname.GetOr(u.nickname))
  }
}
