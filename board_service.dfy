/** The board service: the listing, lookups that throw NotFound, and the
    owner-only rule for changing or deleting a board. */
module Boards {
  import opened Common
  import opened UserEntity
  import opened BoardEntity
  import opened BoardDto
  import opened Store
  import opened Users
  import opened BoardRepo
  import UserTable
  import BoardTable

  /** `validateOwner`: only the board's own author passes; the caller's role
      plays no part, so an admin is refused like anyone else. */
  function ValidateOwner(boardUserId: int, requestUserId: int): (r: Result<()>)
    ensures r.Ok? <==> boardUserId == requestUserId
    ensures r.Err? ==> r.error == Unauthorized(BoardUnauthorized)
  {
    if boardUserId != requestUserId then Err(Unauthorized(BoardUnauthorized)) else Ok(())
  }

  /** The two permission rules differ: an admin may change any account but
      no board other than the admin's own. */
  lemma AdminOverridesOnlyAccounts(targetId: int, adminId: int, boardUserId: int)
    requires adminId != targetId && adminId != boardUserId
    ensures MayModifyUser(targetId, adminId, AdminRole)
    ensures ValidateOwner(boardUserId, adminId).Err?
  {
  }

  /** The stored board with that id, loaded with its owner. */
  function LoadedBoard(db: Database, id: int): (b: Board)
    reads db
    requires db.Valid() && BoardTable.HasId(db.boards, id)
    ensures b.id == id && b.user in db.users
    ensures b.user.id == BoardTable.FindById(db.boards, id).value.userId
  {
    BoardTable.Load(BoardTable.FindById(db.boards, id).value, db.users)
  }

  class BoardService {
    const repo: BoardRepository
    const users: UserService
    const db: Database

    constructor (repo: BoardRepository, users: UserService)
      requires repo.db == users.db
      ensures this.repo == repo && this.users == users && db == repo.db
    {
      this.repo := repo;
      this.users := users;
      this.db := repo.db;
    }

    ghost predicate Valid()
      reads db
    {
      repo.db == db && users.db == db && users.Valid()
    }

    /** The board with its owner, or NotFound exactly when no board has that id. */
    method FindBoardOrThrow(id: int) returns (r: Result<Board>)
      requires Valid()
      ensures r.Err? <==> !BoardTable.HasId(db.boards, id)
      ensures r.Err? ==> r.error == NotFound(BoardNotFound)
      ensures r.Ok? ==> BoardTable.HasId(db.boards, id) && r.value == LoadedBoard(db, id)
    {
      var found := repo.FindByIdWithUser(id);
      if found.None? {
        return Err(NotFound(BoardNotFound));
      }
      r := Ok(found.value);
    }

    /** A missing author is NotFound; a title wider than its column is
        rejected by the store; otherwise the board is stored with the author
        as owner and its view returned. */
    method CreateBoard(dto: CreateBoardDto, userId: int) returns (r: Result<BoardResponse>)
      requires Valid()
      modifies db
      ensures Valid()
      ensures !UserTable.HasId(old(db.users), userId) ==>
        r == Err(NotFound(UserNotFound)) && unchanged(db)
      ensures UserTable.HasId(old(db.users), userId) && |dto.title| > TitleColumnLength ==>
        r == Err(Store(DataTooLong)) && unchanged(db)
      ensures UserTable.HasId(old(db.users), userId) && |dto.title| <= TitleColumnLength ==>
        var owner := UserTable.FindById(old(db.users), userId).value;
        var row := NewRow(old(db.nextBoardId), dto, userId, old(db.clock));
        && r == Ok(BoardDto.From(WithOwner(row, owner)))
        && db.boards == old(db.boards) + [row]
        && db.nextBoardId == old(db.nextBoardId) + 1 && db.clock == old(db.clock) + 1
        && db.users == old(db.users) && db.nextUserId == old(db.nextUserId)
    {
      var user := users.FindUserById(userId);
      if user.Err? {
        return Err(user.error);
      }
      var board := repo.Create(dto, user.value);
      if board.Err? {
        return Err(board.error);
      }
      r := Ok(BoardDto.From(board.value));
    }

    /** Every board's view, newest first. */
    method GetBoards() returns (r: seq<BoardResponse>)
      requires Valid()
      ensures r == BoardDto.FromArray(BoardTable.LoadAllNewestFirst(db.boards, db.users))
      ensures |r| == |db.boards|
      ensures forall i, j :: 0 <= i < j < |r| ==> r[i].createdAt > r[j].createdAt
    {
      var boards := repo.FindAllWithUsers();
      r := BoardDto.FromArray(boards);
    }

    /** The view of one board, or NotFound. */
    method GetBoard(id: int) returns (r: Result<BoardResponse>)
      requires Valid()
      ensures r.Err? <==> !BoardTable.HasId(db.boards, id)
      ensures r.Err? ==> r.error == NotFound(BoardNotFound)
      ensures r.Ok? ==> BoardTable.HasId(db.boards, id) && r.value == BoardDto.From(LoadedBoard(db, id))
    {
      var board := FindBoardOrThrow(id);
      if board.Err? {
        return Err(board.error);
      }
      r := Ok(BoardDto.From(board.value));
    }

    /** A missing board is NotFound; a caller who is not its author is
        refused; otherwise the patch is merged and saved. */
    method UpdateBoard(id: int, patch: BoardPatch, userId: int) returns (r: Result<BoardResponse>)
      requires Valid()
      modifies db
      ensures Valid()
      ensures !BoardTable.HasId(old(db.boards), id) ==>
        r == Err(NotFound(BoardNotFound)) && unchanged(db)
      ensures BoardTable.HasId(old(db.boards), id) &&
              BoardTable.FindById(old(db.boards), id).value.userId != userId ==>
        r == Err(Unauthorized(BoardUnauthorized)) && unchanged(db)
      ensures BoardTable.HasId(old(db.boards), id) &&
              BoardTable.FindById(old(db.boards), id).value.userId == userId ==>
        var row := BoardTable.FindById(old(db.boards), id).value;
        var merged := BoardEntity.ApplyPatch(BoardTable.Load(row, old(db.users)), patch);
        && (!Differs(row, merged) ==> r == Ok(BoardDto.From(merged)) && unchanged(db))
        && (Differs(row, merged) && |merged.title| > TitleColumnLength ==>
              r == Err(Store(DataTooLong)) && unchanged(db))
        && (Differs(row, merged) && |merged.title| <= TitleColumnLength ==>
              && r == Ok(BoardDto.From(merged.(updatedAt := old(db.clock))))
              && db.boards == BoardTable.Merge(old(db.boards), id, merged.title, merged.content, old(db.clock))
              && db.clock == old(db.clock) + 1
              && db.users == old(db.users) && db.nextUserId == old(db.nextUserId)
              && db.nextBoardId == old(db.nextBoardId))
    {
      var found := FindBoardOrThrow(id);
      if found.Err? {
        return Err(found.error);
      }
      var board := found.value;
      var owner := ValidateOwner(board.user.id, userId);
      if owner.Err? {
        return Err(owner.error);
      }
      var patched := BoardEntity.ApplyPatch(board, patch);
      BoardEntity.ApplyPatchIdempotent(board, patch);
      var updated := repo.Update(patched, patch);
      if updated.Err? {
        return Err(updated.error);
      }
      r := Ok(BoardDto.From(updated.value));
    }

    /** A missing board is NotFound; a caller who is not its author is
        refused; otherwise exactly that board is deleted. */
    method DeleteBoard(id: int, userId: int) returns (r: Result<()>)
      requires Valid()
      modifies db
      ensures Valid()
      ensures !BoardTable.HasId(old(db.boards), id) ==>
        r == Err(NotFound(BoardNotFound)) && unchanged(db)
      ensures BoardTable.HasId(old(db.boards), id) &&
              BoardTable.FindById(old(db.boards), id).value.userId != userId ==>
        r == Err(Unauthorized(BoardUnauthorized)) && unchanged(db)
      ensures BoardTable.HasId(old(db.boards), id) &&
              BoardTable.FindById(old(db.boards), id).value.userId == userId ==>
        && r == Ok(())
        && db.boards == BoardTable.Remove(old(db.boards), id)
        && db.users == old(db.users) && db.nextUserId == old(db.nextUserId)
        && db.nextBoardId == old(db.nextBoardId) && db.clock == old(db.clock)
    {
      var found := FindBoardOrThrow(id);
      if found.Err? {
        return Err(found.error);
      }
      var owner := ValidateOwner(found.value.user.id, userId);
      if owner.Err? {
        return Err(owner.error);
      }
      repo.Delete(id);
      r := Ok(());
    }
  }
}
