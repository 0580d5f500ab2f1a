/** The user repository: queries and writes on the user table. */
module UserRepo {
  import opened Common
  import opened Crypto
  import opened UserEntity
  import opened Store
  import UserTable
  import BoardTable

  class UserRepository {
    const db: Database

    constructor (db: Database)
      ensures this.db == db
    {
      this.db := db;
    }

    /** `create` + `save` of a new user.  An email or nickname wider than
        its column is refused; then the unique index on the email column
        rejects a second account with the same email. */
    method Create(dto: CreateUserDto) returns (r: Result<User>)
      requires db.Valid()
      modifies db
      ensures db.Valid()
      ensures !FitsColumns(dto.email, dto.nickname) ==>
        r == Err(Store(DataTooLong)) && unchanged(db)
      ensures FitsColumns(dto.email, dto.nickname) && UserTable.HasEmail(old(db.users), dto.email) ==>
        r == Err(Store(DuplicateEmail)) && unchanged(db)
      ensures FitsColumns(dto.email, dto.nickname) && !UserTable.HasEmail(old(db.users), dto.email) ==>
        && r == Ok(NewUser(old(db.nextUserId), dto, old(db.clock)))
        && db.users == old(db.users) + [r.value]
        && db.nextUserId == old(db.nextUserId) + 1 && db.clock == old(db.clock) + 1
        && db.boards == old(db.boards) && db.nextBoardId == old(db.nextBoardId)
    {
      if !FitsColumns(dto.email, dto.nickname) {
        return Err(Store(DataTooLong));
      }
      if UserTable.HasEmail(db.users, dto.email) {
        return Err(Store(DuplicateEmail));
      }
      var u := NewUser(db.nextUserId, dto, db.clock);
      UserTable.InsertKeepsValid(db.users, db.nextUserId, u);
      BoardTable.OwnersKept(db.boards, db.users, UserTable.Insert(db.users, u));
      db.users := UserTable.Insert(db.users, u);
      db.nextUserId := db.nextUserId + 1;
      db.clock := db.clock + 1;
      r := Ok(u);
    }

    /** The user with that email, or null. */
    method FindByEmail(email: string) returns (r: Option<User>)
      ensures r == UserTable.FindByEmail(db.users, email)
      ensures r.Some? ==> r.value in db.users && r.value.email == email
      ensures r.None? <==> !UserTable.HasEmail(db.users, email)
    {
      r := UserTable.FindByEmail(db.users, email);
    }

    /** Whether some user has that email: true exactly when FindByEmail
        would return a record. */
    method ExistByEmail(email: string) returns (b: bool)
      ensures b == UserTable.HasEmail(db.users, email)
      ensures b <==> UserTable.FindByEmail(db.users, email).Some?
    {
      b := UserTable.HasEmail(db.users, email);
    }

    /** Every stored user, in table order. */
    method FindAll() returns (r: seq<User>)
      ensures r == db.users
    {
      r := db.users;
    }

    /** The user with that id, or null. */
    method FindById(id: int) returns (r: Option<User>)
      ensures r == UserTable.FindById(db.users, id)
      ensures r.Some? ==> r.value in db.users && r.value.id == id
      ensures r.None? <==> !UserTable.HasId(db.users, id)
    {
      r := UserTable.FindById(db.users, id);
    }

    /** Deletes the user with that id; the store's cascade deletes the boards
        the user owns.  A missing id deletes nothing. */
    method Delete(id: int)
      requires db.Valid()
      modifies db
      ensures db.Valid()
      ensures db.users == UserTable.Remove(old(db.users), id)
      ensures db.boards == BoardTable.RemoveOwnedBy(old(db.boards), id)
      ensures db.nextUserId == old(db.nextUserId) && db.nextBoardId == old(db.nextBoardId)
      ensures db.clock == old(db.clock)
    {
      UserTable.RemoveKeepsValid(db.users, db.nextUserId, id);
      BoardTable.RemoveOwnedByKeepsValid(db.boards, db.nextBoardId, db.clock, id);
      BoardTable.CascadeKeepsOwners(db.boards, db.users, id);
      db.users := UserTable.Remove(db.users, id);
      db.boards := BoardTable.RemoveOwnedBy(db.boards, id);
    }

    /** `save` of a user that is stored: its row becomes the given record.
        An email or nickname wider than its column is refused; then an email
        held by another user violates the unique index. */
    method Update(user: User) returns (r: Result<User>)
      requires db.Valid() && UserTable.HasId(db.users, user.id)
      modifies db
      ensures db.Valid()
      ensures !FitsColumns(user.email, user.nickname) ==>
        r == Err(Store(DataTooLong)) && unchanged(db)
      ensures FitsColumns(user.email, user.nickname) && UserTable.EmailTakenByOther(old(db.users), user) ==>
        r == Err(Store(DuplicateEmail)) && unchanged(db)
      ensures FitsColumns(user.email, user.nickname) && !UserTable.EmailTakenByOther(old(db.users), user) ==>
        && r == Ok(user)
        && db.users == UserTable.Replace(old(db.users), user)
        && db.boards == old(db.boards) && db.nextUserId == old(db.nextUserId)
        && db.nextBoardId == old(db.nextBoardId) && db.clock == old(db.clock)
    {
      if !FitsColumns(user.email, user.nickname) {
        return Err(Store(DataTooLong));
      }
      if UserTable.EmailTakenByOther(db.users, user) {
        return Err(Store(DuplicateEmail));
      }
      UserTable.ReplaceKeepsValid(db.users, db.nextUserId, user);
      ReplaceKeepsIds(db.users, user);
      BoardTable.OwnersKept(db.boards, db.users, UserTable.Replace(db.users, user));
      db.users := UserTable.Replace(db.users, user);
      r := Ok(user);
    }

    /** `update(userId, { refreshToken })`: only that column of that user
        changes; an id with no row changes nothing. */
    method UpdateRefreshToken(userId: int, refreshHash: Option<Digest>)
      requires db.Valid()
      modifies db
      ensures db.Valid()
      ensures db.users == UserTable.SetRefreshHash(old(db.users), userId, refreshHash)
      ensures db.boards == old(db.boards) && db.nextUserId == old(db.nextUserId)
      ensures db.nextBoardId == old(db.nextBoardId) && db.clock == old(db.clock)
    {
      UserTable.SetRefreshHashKeepsValid(db.users, db.nextUserId, userId, refreshHash);
      SetRefreshHashKeepsIds(db.users, userId, refreshHash);
      BoardTable.OwnersKept(db.boards, db.users, UserTable.SetRefreshHash(db.users, userId, refreshHash));
      db.users := UserTable.SetRefreshHash(db.users, userId, refreshHash);
    }
  }

  lemma ReplaceKeepsIds(rows: seq<User>, u: User)
    requires UserTable.HasId(rows, u.id)
    ensures forall id :: UserTable.HasId(rows, id) ==> UserTable.HasId(UserTable.Replace(rows, u), id)
  {
    var r := UserTable.Replace(rows, u);
    forall id | UserTable.HasId(rows, id) ensures UserTable.HasId(r, id) {
      var v :| v in rows && v.id == id;
      var i :| 0 <= i < |rows| && rows[i] == v;
      assert r[i] in r;
    }
  }

  lemma SetRefreshHashKeepsIds(rows: seq<User>, userId: int, h: Option<Digest>)
    ensures forall id :: UserTable.HasId(rows, id) ==> UserTable.HasId(UserTable.SetRefreshHash(rows, userId, h), id)
  {
    var r := UserTable.SetRefreshHash(rows, userId, h);
    forall id | UserTable.HasId(rows, id) ensures UserTable.HasId(r, id) {
      var v :| v in rows && v.id == id;
      var i :| 0 <= i < |rows| && rows[i] == v;
      assert r[i] in r;
    }
  }
}
