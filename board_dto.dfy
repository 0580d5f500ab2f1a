/** The public view of a board. */
module BoardDto {
  import opened Common
  import opened Crypto
  import opened UserEntity
  import opened BoardEntity

  /** The board's own fields and two fields of its owner. */
  datatype BoardResponse = BoardResponse(
    id: int,
    title: string,
    content: string,
    createdAt: int,
    updatedAt: int,
    userNickname: string,
    userEmail: string)

  /** `BoardResponseDto.from(board)`. */
  function From(b: Board): BoardResponse {
    BoardResponse(b.id, b.title, b.content, b.createdAt, b.updatedAt, b.user.nickname, b.user.email)
  }

  /** The board's fields are copied and the two user fields come from the
      owner record. */
  lemma FromCopiesFields(b: Board)
    ensures From(b).id == b.id && From(b).title == b.title && From(b).content == b.content
    ensures From(b).createdAt == b.createdAt && From(b).updatedAt == b.updatedAt
    ensures From(b).userNickname == b.user.nickname && From(b).userEmail == b.user.email
  {
  }

  /** Of the owner, only the nickname and the email reach the response. */
  lemma FromHidesOwnerSecrets(b: Board, id: int, password: Digest, refresh: Option<Digest>, role: Role, createdAt: int)
    ensures From(b.(user := b.user.(id := id, passwordHash := password, refreshHash := refresh, role := role, createdAt := createdAt))) == From(b)
  {
  }

  /** `BoardResponseDto.fromArray`: `boards.map(from)`. */
  function FromArray(bs: seq<Board>): (r: seq<BoardResponse>)
    ensures |r| == |bs|
    ensures forall i :: 0 <= i < |bs| ==> r[i] == From(bs[i])
  {
    if bs == [] then [] else [From(bs[0])] + FromArray(bs[1..])
  }
}
