/** The Board entity: a stored row, and the entity as loaded together with
    its owner through the many-to-one `user` relation. */
module BoardEntity {
  import opened Common
  import opened UserEntity

  /** Width of the `title` varchar column. */
  const TitleColumnLength: nat := 100

  /** A stored board; `userId` is the join column to the owner. */
  datatype BoardRow = BoardRow(
    id: int,
    title: string,
    content: string,
    createdAt: int,
    updatedAt: int,
    userId: int)

  /** A board loaded with its `user` relation. */
  datatype Board = Board(
    id: int,
    title: string,
    content: string,
    createdAt: int,
    updatedAt: int,
    user: User)

  /** The body of a board creation request, after validation. */
  datatype CreateBoardDto = CreateBoardDto(title: string, content: string)

  /** A partial update of a board: only the fields present are copied. */
  datatype BoardPatch = BoardPatch(title: Option<string>, content: Option<string>)

  /** The loaded entity of a row whose owner is `owner`. */
  function WithOwner(row: BoardRow, owner: User): (b: Board)
    requires owner.id == row.userId
    ensures b.user == owner && b.user.id == row.userId
    ensures b.id == row.id && b.title == row.title && b.content == row.content
    ensures b.createdAt == row.createdAt && b.updatedAt == row.updatedAt
  {
    Board(row.id, row.title, row.content, row.createdAt, row.updatedAt, owner)
  }

  /** `Object.assign(board, patch)` on the loaded entity. */
  function ApplyPatch(b: Board, patch: BoardPatch): (r: Board)
    ensures r.title == patch.title.GetOr(b.title)
    ensures r.content == patch.content.GetOr(b.content)
    ensures r == b.(title := r.title, content := r.content)
  {
    b.(title := patch.title.GetOr(b.title), content := patch.content.GetOr(b.content))
  }

  /** Copying the same patch twice is copying it once. */
  lemma ApplyPatchIdempotent(b: Board, patch: BoardPatch)
    ensures ApplyPatch(ApplyPatch(b, patch), patch) == ApplyPatch(b, patch)
  {
  }
}
