/** The relational store behind both repositories: the user and board
    tables, the two id generators, and a logical clock standing for the
    creation and update timestamps.  The clock ticks on every stamped
    write, so stamps are distinct and ordered like the writes. */
module Store {
  import opened UserEntity
  import opened BoardEntity
  import UserTable
  import BoardTable

  class Database {
    var users: seq<User>
    var boards: seq<BoardRow>
    var nextUserId: int
    var nextBoardId: int
    var clock: int

    /** The schema's constraints: unique ids and emails, the title width,
        and the foreign key from each board to its owner. */
    ghost predicate Valid()
      reads this
    {
      && 1 <= nextUserId && 1 <= nextBoardId
      && UserTable.Valid(users, nextUserId)
      && BoardTable.Valid(boards, nextBoardId, clock)
      && BoardTable.OwnersExist(boards, users)
    }

    constructor ()
      ensures Valid()
      ensures users == [] && boards == [] && nextUserId == 1 && nextBoardId == 1 && clock == 0
    {
      users, boards := [], [];
      nextUserId, nextBoardId, clock := 1, 1, 0;
    }
  }
}
