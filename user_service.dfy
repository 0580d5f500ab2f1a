/** The user service: lookups that throw NotFound, the profile endpoints,
    and the self-or-admin rule for changing or deleting an account. */
module Users {
  import opened Common
  import opened Crypto
  import opened UserEntity
  import opened UserDto
  import opened Store
  import opened UserRepo
  import UserTable
  import BoardTable

  /** Who may update or delete account `targetId`: the account itself, or
      an admin. */
  predicate MayModifyUser(targetId: int, callerId: int, callerRole: Role) {
    callerId == targetId || callerRole == AdminRole
  }

  class UserService {
    const repo: UserRepository
    const db: Database

    constructor (repo: UserRepository)
      ensures this.repo == repo && db == repo.db
    {
      this.repo := repo;
      this.db := repo.db;
    }

    ghost predicate Valid()
      reads db
    {
      repo.db == db && db.Valid()
    }

    /** The stored user, or NotFound exactly when no user has that id. */
    method FindUserOrThrow(id: int) returns (r: Result<User>)
      requires Valid()
      ensures r == UserTable.FindOrNotFound(db.users, id)
      ensures r.Err? <==> !UserTable.HasId(db.users, id)
      ensures r.Err? ==> r.error == NotFound(UserNotFound)
    {
      var found := repo.FindById(id);
      if found.None? {
        return Err(NotFound(UserNotFound));
      }
      r := Ok(found.value);
    }

    /** Public face of FindUserOrThrow: it throws rather than returning null. */
    method FindUserById(id: int) returns (r: Result<User>)
      requires Valid()
      ensures r == UserTable.FindOrNotFound(db.users, id)
      ensures r.Err? <==> !UserTable.HasId(db.users, id)
    {
      r := FindUserOrThrow(id);
    }

    /** The user with that email, or null; an absent email is not an error. */
    method FindUserByEmail(email: string) returns (r: Option<User>)
      requires Valid()
      ensures r == UserTable.FindByEmail(db.users, email)
      ensures r.None? <==> !UserTable.HasEmail(db.users, email)
    {
      r := repo.FindByEmail(email);
    }

    method ExistsByEmail(email: string) returns (b: bool)
      requires Valid()
      ensures b <==> UserTable.HasEmail(db.users, email)
    {
      b := repo.ExistByEmail(email);
    }

    method CreateUser(dto: CreateUserDto) returns (r: Result<User>)
      requires Valid()
      modifies db
      ensures Valid()
      ensures !FitsColumns(dto.email, dto.nickname) ==>
        r == Err(Store(DataTooLong)) && unchanged(db)
      ensures FitsColumns(dto.email, dto.nickname) && UserTable.HasEmail(old(db.users), dto.email) ==>
        r == Err(Store(DuplicateEmail)) && unchanged(db)
      ensures FitsColumns(dto.email, dto.nickname) && !UserTable.HasEmail(old(db.users), dto.email) ==>
        && r == Ok(NewUser(old(db.nextUserId), dto, old(db.clock)))
        && db.users == old(db.users) + [r.value]
        && db.nextUserId == old(db.nextUserId) + 1 && db.clock == old(db.clock) + 1
        && db.boards == old(db.boards) && db.nextBoardId == old(db.nextBoardId)
    {
      r := repo.Create(dto);
    }

    /** The profile of every user, in table order. */
    method GetUsers() returns (r: seq<UserResponse>)
      requires Valid()
      ensures |r| == |db.users|
      ensures forall i :: 0 <= i < |r| ==> r[i] == UserDto.From(db.users[i])
    {
      var users := repo.FindAll();
      r := FromArray(users);
    }

    /** The profile of one user, or NotFound. */
    method GetUser(id: int) returns (r: Result<UserResponse>)
      requires Valid()
      ensures r.Err? <==> !UserTable.HasId(db.users, id)
      ensures r.Err? ==> r.error == NotFound(UserNotFound)
      ensures r.Ok? ==> r.value == UserDto.From(UserTable.FindById(db.users, id).value)
    {
      var found := FindUserOrThrow(id);
      if found.Err? {
        return Err(found.error);
      }
      r := Ok(UserDto.From(found.value));
    }

    /** The permission check comes first, so a caller who is neither the
        account nor an admin is refused even for a missing account; then a
        missing account is NotFound; otherwise the patch is merged into the
        stored record and saved, which the store may refuse. */
    method UpdateUser(id: int, patch: UserPatch, callerId: int, callerRole: Role) returns (r: Result<UserResponse>)
      requires Valid()
      modifies db
      ensures Valid()
      ensures !MayModifyUser(id, callerId, callerRole) ==>
        r == Err(Unauthorized(UserUnauthorized)) && unchanged(db)
      ensures MayModifyUser(id, callerId, callerRole) && !UserTable.HasId(old(db.users), id) ==>
        r == Err(NotFound(UserNotFound)) && unchanged(db)
      ensures MayModifyUser(id, callerId, callerRole) && UserTable.HasId(old(db.users), id) ==>
        var updated := ApplyPatch(UserTable.FindById(old(db.users), id).value, patch);
        && (!FitsColumns(updated.email, updated.nickname) ==>
              r == Err(Store(DataTooLong)) && unchanged(db))
        && (FitsColumns(updated.email, updated.nickname) && UserTable.EmailTakenByOther(old(db.users), updated) ==>
              r == Err(Store(DuplicateEmail)) && unchanged(db))
        && (FitsColumns(updated.email, updated.nickname) && !UserTable.EmailTakenByOther(old(db.users), updated) ==>
              && r == Ok(UserDto.From(updated))
              && db.users == UserTable.Replace(old(db.users), updated)
              && db.boards == old(db.boards) && db.nextUserId == old(db.nextUserId)
              && db.nextBoardId == old(db.nextBoardId) && db.clock == old(db.clock))
    {
      if !MayModifyUser(id, callerId, callerRole) {
        return Err(Unauthorized(UserUnauthorized));
      }
      var found := FindUserOrThrow(id);
      if found.Err? {
        return Err(found.error);
      }
      var user := ApplyPatch(found.value, patch);
      var saved := repo.Update(user);
      if saved.Err? {
        return Err(saved.error);
      }
      r := Ok(UserDto.From(saved.value));
    }

    /** Passes the given digest (or null) to the repository unchanged. */
    method UpdateRefreshToken(userId: int, refreshHash: Option<Digest>)
      requires Valid()
      modifies db
      ensures Valid()
      ensures db.users == UserTable.SetRefreshHash(old(db.users), userId, refreshHash)
      ensures db.boards == old(db.boards) && db.nextUserId == old(db.nextUserId)
      ensures db.nextBoardId == old(db.nextBoardId) && db.clock == old(db.clock)
    {
      repo.UpdateRefreshToken(userId, refreshHash);
    }

    /** The same self-or-admin rule, then NotFound, then the delete, which
        removes only that user (and, by the cascade, that user's boards). */
    method DeleteUser(id: int, callerId: int, callerRole: Role) returns (r: Result<()>)
      requires Valid()
      modifies db
      ensures Valid()
      ensures !MayModifyUser(id, callerId, callerRole) ==>
        r == Err(Unauthorized(UserUnauthorized)) && unchanged(db)
      ensures MayModifyUser(id, callerId, callerRole) && !UserTable.HasId(old(db.users), id) ==>
        r == Err(NotFound(UserNotFound)) && unchanged(db)
      ensures MayModifyUser(id, callerId, callerRole) && UserTable.HasId(old(db.users), id) ==>
        && r == Ok(())
        && db.users == UserTable.Remove(old(db.users), id)
        && db.boards == BoardTable.RemoveOwnedBy(old(db.boards), id)
        && db.nextUserId == old(db.nextUserId) && db.nextBoardId == old(db.nextBoardId)
        && db.clock == old(db.clock)
    {
      if !MayModifyUser(id, callerId, callerRole) {
        return Err(Unauthorized(UserUnauthorized));
      }
      var found := FindUserOrThrow(id);
      if found.Err? {
        return Err(found.error);
      }
      repo.Delete(id);
      r := Ok(());
    }
  }
}
