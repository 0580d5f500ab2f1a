/** The board repository: queries and writes on the board table, loading
    each board together with its owner. */
module BoardRepo {
  import opened Common
  import opened UserEntity
  import opened BoardEntity
  import opened Store
  import UserTable
  import BoardTable

  /** The new row `create` + `save` stores: the next id, both stamps from
      the clock, and the owner's id in the join column. */
  function NewRow(id: int, dto: CreateBoardDto, ownerId: int, now: int): (b: BoardRow)
    ensures b.id == id && b.userId == ownerId
    ensures b.title == dto.title && b.content == dto.content
    ensures b.createdAt == now && b.updatedAt == now
  {
    BoardRow(id, dto.title, dto.content, now, now, ownerId)
  }

  /** Whether `save` of the patched entity finds a column that differs from
      the stored row; when none does it issues no UPDATE at all. */
  predicate Differs(row: BoardRow, merged: Board) {
    merged.title != row.title || merged.content != row.content
  }

  class BoardRepository {
    const db: Database

    constructor (db: Database)
      ensures this.db == db
    {
      this.db := db;
    }

    /** `create({ ...dto, user })` + `save`.  The store rejects a title wider
        than its column and an owner that is not a stored user; otherwise the
        row is appended and the saved entity carries the given owner. */
    method Create(dto: CreateBoardDto, user: User) returns (r: Result<Board>)
      requires db.Valid()
      modifies db
      ensures db.Valid()
      ensures |dto.title| > TitleColumnLength ==>
        r == Err(Store(DataTooLong)) && unchanged(db)
      ensures |dto.title| <= TitleColumnLength && !UserTable.HasId(old(db.users), user.id) ==>
        r == Err(Store(MissingOwner)) && unchanged(db)
      ensures |dto.title| <= TitleColumnLength && UserTable.HasId(old(db.users), user.id) ==>
        var row := NewRow(old(db.nextBoardId), dto, user.id, old(db.clock));
        && r == Ok(WithOwner(row, user))
        && db.boards == old(db.boards) + [row]
        && db.nextBoardId == old(db.nextBoardId) + 1 && db.clock == old(db.clock) + 1
        && db.users == old(db.users) && db.nextUserId == old(db.nextUserId)
    {
      if |dto.title| > TitleColumnLength {
        return Err(Store(DataTooLong));
      }
      if !UserTable.HasId(db.users, user.id) {
        return Err(Store(MissingOwner));
      }
      var row := NewRow(db.nextBoardId, dto, user.id, db.clock);
      BoardTable.InsertKeepsValid(db.boards, db.nextBoardId, db.clock, row);
      InsertKeepsOwners(db.boards, db.users, row);
      db.boards := BoardTable.Insert(db.boards, row);
      db.nextBoardId := db.nextBoardId + 1;
      db.clock := db.clock + 1;
      r := Ok(WithOwner(row, user));
    }

    /** `find({ relations: ['user'], order: { createdAt: 'DESC' } })`: every
        board with its owner, newest first. */
    method FindAllWithUsers() returns (r: seq<Board>)
      requires db.Valid()
      ensures r == BoardTable.LoadAllNewestFirst(db.boards, db.users)
      ensures |r| == |db.boards|
      ensures BoardTable.NewestFirst(r)
    {
      BoardTable.LoadAllIsNewestFirst(db.boards, db.users);
      r := BoardTable.LoadAllNewestFirst(db.boards, db.users);
    }

    /** `findOne({ where: { id }, relations: ['user'] })`: the board with
        that id and its owner, or null. */
    method FindByIdWithUser(id: int) returns (r: Option<Board>)
      requires db.Valid()
      ensures r.None? <==> !BoardTable.HasId(db.boards, id)
      ensures r.Some? ==>
        && BoardTable.FindById(db.boards, id).Some?
        && r.value == BoardTable.Load(BoardTable.FindById(db.boards, id).value, db.users)
    {
      var row := BoardTable.FindById(db.boards, id);
      if row.None? {
        return None;
      }
      r := Some(BoardTable.Load(row.value, db.users));
    }

    /** `Object.assign(board, patch)` + `save` of a stored board.  When no
        column differs nothing is written; a title wider than its column is
        rejected; otherwise the title and content are written and the update
        stamp is taken from the clock, and the returned entity carries it. */
    method Update(board: Board, patch: BoardPatch) returns (r: Result<Board>)
      requires db.Valid() && BoardTable.HasId(db.boards, board.id)
      requires BoardTable.FindById(db.boards, board.id).value.userId == board.user.id
      modifies db
      ensures db.Valid()
      ensures var row := BoardTable.FindById(old(db.boards), board.id).value;
        var merged := BoardEntity.ApplyPatch(board, patch);
        !Differs(row, merged) ==> r == Ok(merged) && unchanged(db)
      ensures var row := BoardTable.FindById(old(db.boards), board.id).value;
        var merged := BoardEntity.ApplyPatch(board, patch);
        Differs(row, merged) && |merged.title| > TitleColumnLength ==>
          r == Err(Store(DataTooLong)) && unchanged(db)
      ensures var row := BoardTable.FindById(old(db.boards), board.id).value;
        var merged := BoardEntity.ApplyPatch(board, patch);
        Differs(row, merged) && |merged.title| <= TitleColumnLength ==>
          && r == Ok(merged.(updatedAt := old(db.clock)))
          && db.boards == BoardTable.Merge(old(db.boards), board.id, merged.title, merged.content, old(db.clock))
          && db.clock == old(db.clock) + 1
          && db.users == old(db.users) && db.nextUserId == old(db.nextUserId)
          && db.nextBoardId == old(db.nextBoardId)
    {
      var row := BoardTable.FindById(db.boards, board.id).value;
      var merged := BoardEntity.ApplyPatch(board, patch);
      if !Differs(row, merged) {
        return Ok(merged);
      }
      if |merged.title| > TitleColumnLength {
        return Err(Store(DataTooLong));
      }
      BoardTable.MergeKeepsValid(db.boards, db.nextBoardId, db.clock, board.id, merged.title, merged.content);
      BoardTable.MergeKeepsOwners(db.boards, db.users, board.id, merged.title, merged.content, db.clock);
      db.boards := BoardTable.Merge(db.boards, board.id, merged.title, merged.content, db.clock);
      r := Ok(merged.(updatedAt := db.clock));
      db.clock := db.clock + 1;
    }

    /** `delete(id)`: removes the board with that id, if any. */
    method Delete(id: int)
      requires db.Valid()
      modifies db
      ensures db.Valid()
      ensures db.boards == BoardTable.Remove(old(db.boards), id)
      ensures db.users == old(db.users) && db.nextUserId == old(db.nextUserId)
      ensures db.nextBoardId == old(db.nextBoardId) && db.clock == old(db.clock)
    {
      BoardTable.RemoveKeepsValid(db.boards, db.nextBoardId, db.clock, id);
      RemoveKeepsOwners(db.boards, db.users, id);
      db.boards := BoardTable.Remove(db.boards, id);
    }
  }

  lemma InsertKeepsOwners(rows: seq<BoardRow>, users: seq<User>, b: BoardRow)
    requires BoardTable.OwnersExist(rows, users) && UserTable.HasId(users, b.userId)
    ensures BoardTable.OwnersExist(BoardTable.Insert(rows, b), users)
  {
    var r := BoardTable.Insert(rows, b);
    forall x | x in r ensures UserTable.HasId(users, x.userId) {
      var i :| 0 <= i < |r| && r[i] == x;
      if i < |rows| {
        assert rows[i] in rows;
      }
    }
  }

  lemma RemoveKeepsOwners(rows: seq<BoardRow>, users: seq<User>, id: int)
    requires BoardTable.OwnersExist(rows, users)
    ensures BoardTable.OwnersExist(BoardTable.Remove(rows, id), users)
  {
  }
}
