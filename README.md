# A verified model of a NestJS board backend's accounts, sessions and boards

The system is a small NestJS backend with users, boards and search, stored in
MySQL through TypeORM. This project models its core in Dafny:

- the user table and the refresh-token lifecycle behind registration, login,
  token refresh and logout;
- the self-or-admin rule on accounts and the owner-only rule on boards,
  including which error wins when several apply;
- the board table with its ordered listing, field merge and cascade;
- the `validate` callbacks of the two passport-jwt strategies, including
  bearer-token extraction;
- the response projections, the validation rules of the registration and
  board-creation bodies, and the pagination arithmetic of the search.

The shape of the model follows the code:

- The relational store is one class, `Store.Database`. It holds both tables
  as sequences in insertion order, the two id generators, and a logical clock
  that stands for the creation and update timestamps.
- The repositories and services are classes over that store. Each method that
  writes has a `modifies` clause and `ensures` that state its whole new state,
  in terms of pure table functions in `UserTable` and `BoardTable`.
- The facts the source promises about those functions are lemmas: lookups
  find the one matching row, deletes remove only their target, single-field
  updates touch only that field, and the table invariants are kept.
- Hashing is symbolic: a `Digest` remembers the secret it was computed from.
  bcrypt's random salt is passed in as a parameter.
- JWT signing is an opaque function given to the service. It receives the
  complete payload: the claims, plus the `iat` and `exp` that `jsonwebtoken`
  adds at signing time. The issue time is an input of each operation that
  issues tokens. `jsonwebtoken`'s encoding is not modelled.
- `findUserById` (src/user/user.service.ts:21-27) throws NotFound and never
  returns null. So the `!user` tests in `refreshAccessToken`
  (src/auth/auth.service.ts:80-83) and in both strategies are never reached
  for a missing account. A refresh, or an authenticated request, for an
  account that no longer exists fails with NotFound (USER.NOT_FOUND), not with
  the ACCESS_DENIED or Unauthorized those tests would raise.
- Lengths in the validation rules follow validator.js `isLength`, which
  class-validator's `@MinLength` and `@MaxLength` call. It counts code
  points, and does not count the variation selectors U+FE0E and U+FE0F.
  validator.js itself is not part of this model.

## Model

| member | source | states |
|---|---|---|
| Crypto.VerifyHash | src/auth/auth.service.ts:62-62 | `compare` against a digest made from a secret succeeds for that secret, whatever the salt, and for no other candidate |
| Crypto.HashIsSalted | src/auth/auth.service.ts:37-37 | the same secret hashed with two salts gives the same stored value only when the salts are equal |
| UserEntity.NewUser | src/user/entities/user.entity.ts:10-29 | a new row has the generated id, the given email, nickname and password digest, role 'user', no refresh digest, and the creation stamp |
| UserEntity.ApplyPatch | src/user/user.service.ts:68-68 | `Object.assign`: the present fields of the patch overwrite, every other field of the record is kept |
| BoardEntity.WithOwner | src/board/entities/board.entity.ts:29-31 | the loaded board carries the row's fields and, as `user`, the owner whose id is the join column |
| BoardEntity.ApplyPatch | src/board/board.service.ts:66-66 | `Object.assign` on a board: the present title and content overwrite, the rest is kept |
| BoardEntity.ApplyPatchIdempotent | src/board/repositories/board.repository.ts:33-33 | assigning the patch a second time inside `update` changes nothing more |
| UserTable.FindById | src/user/repositories/user.repository.ts:32-34 | a row found has that id; none is found exactly when no row has it |
| UserTable.FindByEmail | src/user/repositories/user.repository.ts:20-22 | a row found has that email; none is found exactly when no row has it |
| UserTable.FindOrNotFound | src/user/user.service.ts:21-27 | NotFound(USER.NOT_FOUND) exactly when no row has the id, otherwise the row with it |
| UserTable.FindByIdFindsRow | src/user/entities/user.entity.ts:10-11 | with store-generated ascending ids, the lookup by a row's id returns that row |
| UserTable.FindByEmailFindsRow | src/user/entities/user.entity.ts:13-14 | with the unique email index, the lookup by a row's email returns that row |
| UserTable.Insert | src/user/repositories/user.repository.ts:14-18 | the insert appends one row and keeps every existing row in place |
| UserTable.InsertKeepsValid | src/user/repositories/user.repository.ts:14-18 | an insert with the next id and an unused email keeps ids and emails unique, and the new row is then found by its id and by its email |
| UserTable.Remove | src/user/repositories/user.repository.ts:36-38 | exactly the rows without that id remain |
| UserTable.RemoveLookup | src/user/repositories/user.repository.ts:36-38 | after the delete the id is not found and every other lookup is unchanged |
| UserTable.RemoveKeepsValid | src/user/repositories/user.repository.ts:36-38 | the delete keeps the table invariant |
| UserTable.SetRefreshHashLookup | src/user/repositories/user.repository.ts:44-49 | the single-field update changes only the refresh digest of that one user; every other lookup is unchanged |
| UserTable.SetRefreshHashOfNewRow | src/auth/auth.service.ts:39-49 | writing the refresh digest of a just-appended row changes only that row |
| UserTable.SetRefreshHashIdempotent | src/auth/auth.service.ts:99-102 | writing the same refresh value twice is writing it once, so logout is idempotent |
| UserTable.SetRefreshHashKeepsValid | src/user/repositories/user.repository.ts:44-49 | the refresh update keeps the table invariant |
| UserTable.ReplaceLookup | src/user/repositories/user.repository.ts:40-42 | `save` of a stored user replaces that row and leaves every other lookup unchanged |
| UserTable.ReplaceKeepsValid | src/user/repositories/user.repository.ts:40-42 | a replacement whose email no other user holds keeps the table invariant |
| BoardTable.FindById | src/board/repositories/board.repository.ts:28-30 | a row found has that id; none is found exactly when no row has it |
| BoardTable.Keep | src/board/repositories/board.repository.ts:37-39 | the kept rows are exactly those satisfying the condition, never more rows than before |
| BoardTable.Remove | src/board/repositories/board.repository.ts:37-39 | exactly the boards without that id remain |
| BoardTable.RemoveOwnedBy | src/board/entities/board.entity.ts:29-29 | the ON DELETE CASCADE: exactly the boards not owned by the deleted user remain |
| BoardTable.KeepKeepsOrder | src/board/repositories/board.repository.ts:37-39 | a delete keeps the rows in id and creation order |
| BoardTable.RemoveLookup | src/board/repositories/board.repository.ts:37-39 | after the delete the id is not found and every other lookup is unchanged |
| BoardTable.RemoveKeepsValid | src/board/repositories/board.repository.ts:37-39 | the delete keeps the board table invariant |
| BoardTable.RemoveOwnedByKeepsValid | src/board/entities/board.entity.ts:29-29 | the cascade keeps the board table invariant |
| BoardTable.CascadeKeepsOwners | src/board/entities/board.entity.ts:29-31 | after a user and that user's boards are deleted, every remaining board's owner still exists |
| BoardTable.OwnersKept | src/board/entities/board.entity.ts:29-31 | a user-table change that keeps every id keeps the foreign key of every board |
| BoardTable.Insert | src/board/repositories/board.repository.ts:16-19 | the insert appends one board and keeps every existing board in place |
| BoardTable.InsertKeepsValid | src/board/entities/board.entity.ts:14-27 | a new row with the next id, both stamps from the clock and a title within 100 keeps the table invariant and is then found by its id |
| BoardTable.FindByIdFindsLast | src/board/repositories/board.repository.ts:16-19 | a just-appended board with a fresh id is found by that id |
| BoardTable.Merge | src/board/repositories/board.repository.ts:32-35 | the merge keeps the number of boards (which fields change is stated by `MergeLookup`) |
| BoardTable.MergeLookup | src/board/repositories/board.repository.ts:32-35 | only the target board changes: its title and content become the given ones and its update stamp is taken from the clock; every other lookup is unchanged |
| BoardTable.MergeKeepsValid | src/board/entities/board.entity.ts:26-27 | the merge keeps the ids and creation order, and the update stamp still falls between creation and the next tick |
| BoardTable.MergeKeepsOwners | src/board/entities/board.entity.ts:29-31 | the merge does not change any board's owner |
| BoardTable.Load | src/board/repositories/board.repository.ts:28-30 | the loaded board carries the row's fields and its owner's stored record |
| BoardTable.LoadAllNewestFirst | src/board/repositories/board.repository.ts:21-26 | one loaded board per row, the rows taken from the last to the first |
| BoardTable.LoadAllIsNewestFirst | src/board/repositories/board.repository.ts:24-24 | the listing is strictly descending in creation stamp |
| Store.Database.constructor | src/board/entities/board.entity.ts:14-31 | an empty store satisfies the schema's constraints |
| UserRepo.UserRepository.Create | src/user/repositories/user.repository.ts:14-18 | an email or nickname wider than its varchar(255) column is DataTooLong and nothing is written; then an email in use is refused by the unique index and nothing is written; otherwise exactly one row is appended with the next id, and the other rows are unchanged |
| UserRepo.UserRepository.FindByEmail | src/user/repositories/user.repository.ts:20-22 | the user with that email, or null exactly when there is none |
| UserRepo.UserRepository.ExistByEmail | src/user/repositories/user.repository.ts:24-26 | true exactly when `FindByEmail` would return a user |
| UserRepo.UserRepository.FindAll | src/user/repositories/user.repository.ts:28-30 | every stored user, in table order |
| UserRepo.UserRepository.FindById | src/user/repositories/user.repository.ts:32-34 | the user with that id, or null exactly when there is none |
| UserRepo.UserRepository.Delete | src/user/repositories/user.repository.ts:36-38 | only that user is removed, and the cascade removes only that user's boards |
| UserRepo.UserRepository.Update | src/user/repositories/user.repository.ts:40-42 | an email or nickname wider than its varchar(255) column is DataTooLong and nothing is written; then an email held by another user is refused and nothing is written; otherwise only that row changes, to the given record |
| UserRepo.UserRepository.UpdateRefreshToken | src/user/repositories/user.repository.ts:44-49 | only the refresh column of that one user changes |
| UserRepo.ReplaceKeepsIds | src/user/repositories/user.repository.ts:40-42 | replacing a stored user keeps every user id present |
| UserRepo.SetRefreshHashKeepsIds | src/user/repositories/user.repository.ts:44-49 | the refresh update keeps every user id present |
| UserDto.FromKeepsPublicFields | src/user/dto/user-response.dto.ts:13-20 | the profile is the record's id, email, nickname and creation stamp; two records give the same profile exactly when those four agree |
| UserDto.FromHidesSecrets | src/user/dto/user-response.dto.ts:3-8 | the profile does not depend on the password digest, the refresh digest or the role |
| UserDto.FromArray | src/user/dto/user-response.dto.ts:22-24 | same length, and element i is the profile of user i |
| Jwt.Stamped | src/auth/auth.service.ts:118-127 | the signed payload is the claims with `iat` set to the issue time and `exp` to the issue time plus the lifetime |
| Jwt.StampedDiffersOverTime | src/auth/auth.service.ts:118-127 | tokens issued at two different times are signed from two different payloads |
| Jwt.StrategiesUseOwnSecrets | src/auth/strategies/jwt.strategy.ts:16-20 | the access strategy uses the access secret and the refresh strategy the refresh secret, and neither ignores expiry |
| AuthDto.FromCopiesFields | src/auth/dto/auth-response.dto.ts:19-31 | the profile has the record's four public fields; both tokens and the lifetime are copied verbatim |
| AuthDto.FromHidesSecrets | src/auth/dto/auth-response.dto.ts:19-31 | the response does not depend on the password digest, the refresh digest or the role |
| BoardDto.FromCopiesFields | src/board/dto/board-response.dto.ts:16-26 | the board's id, title, content and both stamps are copied, and the nickname and email come from the owner |
| BoardDto.FromHidesOwnerSecrets | src/board/dto/board-response.dto.ts:3-10 | the response does not depend on the owner's digests, role, id or creation stamp |
| BoardDto.FromArray | src/board/dto/board-response.dto.ts:28-30 | same length, and element i is the response for board i |
| Users.UserService.FindUserOrThrow | src/user/user.service.ts:21-27 | NotFound(USER.NOT_FOUND) exactly when no user has the id |
| Users.UserService.FindUserById | src/user/user.service.ts:29-31 | the same as the lookup that throws: never a null result |
| Users.UserService.FindUserByEmail | src/user/user.service.ts:33-35 | null, not an error, exactly when no user has the email |
| Users.UserService.ExistsByEmail | src/user/user.service.ts:37-39 | true exactly when some user has the email |
| Users.UserService.CreateUser | src/user/user.service.ts:41-45 | the repository's create, with the same outcome |
| Users.UserService.GetUsers | src/user/user.service.ts:47-50 | one profile per stored user, in table order |
| Users.UserService.GetUser | src/user/user.service.ts:52-55 | NotFound exactly when no user has the id, otherwise that user's profile |
| Users.UserService.UpdateUser | src/user/user.service.ts:57-73 | a caller who is neither the account nor an admin is refused first, even for a missing account; then a missing account is NotFound; otherwise the patched record replaces only that row, unless its email or nickname is wider than its column or its email belongs to another user |
| Users.UserService.UpdateRefreshToken | src/user/user.service.ts:75-77 | the given value reaches the repository unchanged |
| Users.UserService.DeleteUser | src/user/user.service.ts:79-86 | the same self-or-admin rule first, then NotFound, then only that user and that user's boards are removed |
| Auth.RefreshColumn | src/auth/auth.service.ts:136-146 | a falsy token (null or "") stores null; any other token stores its digest |
| Auth.RefreshColumnAcceptsOnlyItsToken | src/auth/auth.service.ts:84-92 | once the column holds the digest of the issued token, refresh accepts exactly that token, and never the empty token |
| Auth.ClearedColumnAcceptsNothing | src/auth/auth.service.ts:80-83 | with no stored digest, no token is accepted |
| Auth.AuthService.GenerateTokens | src/auth/auth.service.ts:104-134 | both tokens sign the same `{sub, email, role}` claims issued at the given time, with the access secret and lifetime and with the refresh secret and lifetime; `expiresIn` is the access lifetime |
| Auth.AuthService.UpdateRefreshToken | src/auth/auth.service.ts:136-146 | only that user's refresh column changes, to the value `RefreshColumn` gives |
| Auth.AuthService.SignUp | src/auth/auth.service.ts:28-52 | an email in use is Conflict(EMAIL_EXISTS) and nothing is written; an email or nickname wider than its column is DataTooLong (a server error) and nothing is written; otherwise exactly one account is added, holding the password's digest, role 'user', and the digest of the refresh token returned |
| Auth.AuthService.Login | src/auth/auth.service.ts:54-74 | an unknown email and a wrong password give the same INVALID_CREDENTIALS and write nothing; otherwise the pair is issued for the stored record and only its refresh digest is replaced |
| Auth.AuthService.RefreshAccessToken | src/auth/auth.service.ts:76-97 | a vanished account is NotFound; no stored digest, or a token that does not verify, is ACCESS_DENIED with nothing written; otherwise a new pair is issued and only that user's refresh digest changes, to the new token's |
| Auth.AuthService.Logout | src/auth/auth.service.ts:99-102 | only that user's refresh digest is cleared, whether or not one was stored |
| Auth.TokensSignedForTheirStrategies | src/auth/strategies/jwt.strategy.ts:16-20 | the access token is signed with the secret the access strategy verifies with, the refresh token with the refresh strategy's, from the same claims |
| Auth.LogoutThenRefresh | src/auth/auth.service.ts:76-102 | after logout, every refresh is refused (ACCESS_DENIED, or NotFound for a missing account) |
| Auth.RefreshTwice | src/auth/auth.service.ts:76-97 | after one successful refresh, presenting a token again succeeds exactly when it is the non-empty token just issued, and after a failed refresh a second attempt fails the same way |
| Auth.SignUpThenLogin | src/auth/auth.service.ts:28-74 | a fresh registration can log in at once with its email and password, and both show the same profile |
| BoardRepo.NewRow | src/board/repositories/board.repository.ts:16-19 | the new row holds the next id, the body's title and content, the owner's id, and both stamps from the clock |
| BoardRepo.BoardRepository.Create | src/board/repositories/board.repository.ts:16-19 | a title over 100 characters or a missing owner is refused and nothing is written; otherwise one row is appended and the saved board carries the given owner |
| BoardRepo.BoardRepository.FindAllWithUsers | src/board/repositories/board.repository.ts:21-26 | every board with its owner, strictly newest first |
| BoardRepo.BoardRepository.FindByIdWithUser | src/board/repositories/board.repository.ts:28-30 | null exactly when no board has the id, otherwise that board with its owner |
| BoardRepo.BoardRepository.Update | src/board/repositories/board.repository.ts:32-35 | with no column changed nothing is written; a title over 100 is refused; otherwise only that board's title, content and update stamp change |
| BoardRepo.BoardRepository.Delete | src/board/repositories/board.repository.ts:37-39 | only that board is removed |
| BoardRepo.InsertKeepsOwners | src/board/entities/board.entity.ts:29-31 | a board inserted for a stored owner keeps the foreign key |
| BoardRepo.RemoveKeepsOwners | src/board/entities/board.entity.ts:29-31 | a board delete keeps the foreign key |
| Boards.ValidateOwner | src/board/board.service.ts:31-35 | passes exactly when the board's author is the caller; otherwise Unauthorized(BOARD.UNAUTHORIZED) |
| Boards.AdminOverridesOnlyAccounts | src/board/board.service.ts:31-35 | an admin may change another user's account but not another user's board |
| Boards.LoadedBoard | src/board/board.service.ts:23-29 | the stored board with that id, with its owner's record |
| Boards.BoardService.FindBoardOrThrow | src/board/board.service.ts:23-29 | NotFound(BOARD.NOT_FOUND) exactly when no board has the id, otherwise that board with its owner |
| Boards.BoardService.CreateBoard | src/board/board.service.ts:37-45 | a missing author is NotFound; a title over 100 is refused by the store; otherwise one board owned by the author is added and its response returned |
| Boards.BoardService.GetBoards | src/board/board.service.ts:47-50 | one response per stored board, strictly newest first |
| Boards.BoardService.GetBoard | src/board/board.service.ts:52-55 | NotFound exactly when no board has the id, otherwise its response |
| Boards.BoardService.UpdateBoard | src/board/board.service.ts:57-73 | a missing board is NotFound before anything else; a caller who is not its author is refused; otherwise only that board's fields from the patch change |
| Boards.BoardService.DeleteBoard | src/board/board.service.ts:75-82 | a missing board is NotFound before anything else; a caller who is not its author is refused; otherwise only that board is removed |
| JsString.TrimStart | src/auth/strategies/jwt-refresh.strategy.ts:35-35 | drops exactly the leading whitespace |
| JsString.TrimEnd | src/auth/strategies/jwt-refresh.strategy.ts:35-35 | drops exactly the trailing whitespace |
| JsString.Trim | src/auth/strategies/jwt-refresh.strategy.ts:35-35 | the result has no whitespace at either end, and is what is left of the input once only whitespace is dropped around it |
| JsString.TrimOfTrimmed | src/auth/strategies/jwt-refresh.strategy.ts:35-35 | a string with nothing to trim is its own trim |
| JsString.TrimIdempotent | src/auth/strategies/jwt-refresh.strategy.ts:35-35 | trimming twice is trimming once |
| JsString.IndexOf | src/auth/strategies/jwt-refresh.strategy.ts:34-34 | the found position is the first occurrence of the pattern; none is found exactly when it does not occur |
| JsString.ReplaceFirst | src/auth/strategies/jwt-refresh.strategy.ts:34-34 | only the first occurrence is replaced; with none, the string is unchanged |
| JsString.ReplacePrefix | src/auth/strategies/jwt-refresh.strategy.ts:34-34 | a string that starts with the pattern loses exactly that prefix |
| Strategies.ExtractBearer | src/auth/strategies/jwt-refresh.strategy.ts:32-35 | no header gives no token; otherwise the header with its first "Bearer " cut out, trimmed |
| Strategies.ExtractBearerRoundTrip | src/auth/strategies/jwt-refresh.strategy.ts:32-35 | "Bearer " followed by a token with nothing to trim yields that token |
| Strategies.ValidateAccess | src/auth/strategies/jwt.strategy.ts:23-35 | a missing account is NotFound; otherwise id, email and role of the stored record |
| Strategies.ValidateAccessIgnoresClaims | src/auth/strategies/jwt.strategy.ts:30-34 | the email and role claims never reach the identity; the stored email does |
| Strategies.ValidateRefresh | src/auth/strategies/jwt-refresh.strategy.ts:28-52 | no token after extraction is REFRESH_TOKEN_MISSING before any lookup; a missing account is NotFound; otherwise the payload's claims with the raw token |
| Strategies.ValidateRefreshPassesToken | src/auth/strategies/jwt-refresh.strategy.ts:46-51 | a well-formed bearer header for a stored subject reaches the service with exactly its token |
| Strategies.BlankBearerIsMissing | src/auth/strategies/jwt-refresh.strategy.ts:37-39 | "Bearer " followed only by whitespace is a missing token |
| Search.PageOf | src/search/search.service.ts:42-42 | an absent page is 1, a given page is kept |
| Search.LimitOf | src/search/search.service.ts:42-42 | an absent limit is 10, a given limit is kept |
| Search.Offset | src/search/search.service.ts:43-43 | for page ≥ 1 the offset is non-negative; for a positive limit it is a multiple of the limit whose quotient is page − 1 |
| Search.MultipleDivides | src/search/search.service.ts:43-43 | a multiple of the limit divides by it exactly |
| Search.BuildRequest | src/search/search.service.ts:42-50 | the engine receives the query, the offset as `from` and the limit as `size`; with no page and no limit, `from` is 0 and `size` is 10 |
| Search.TotalOf | src/search/search.service.ts:72-75 | the count itself when it is a number, otherwise its `value` |
| Search.ResultOf | src/search/search.service.ts:77-87 | each result carries the document's fields, the score or 0 when it is null, and the highlight as sent |
| Search.MapHits | src/search/search.service.ts:77-87 | same length and order as the hits, element i mapped from hit i |
| Search.CeilDiv | src/search/search.service.ts:95-95 | the ceiling of the quotient, stated by its bounds for either sign of the divisor |
| Search.TotalPages | src/search/search.service.ts:95-95 | for a positive limit, the least page count whose pages hold every hit; a zero limit gives Infinity or NaN as JavaScript does |
| Search.PagesCoverHits | src/search/search.service.ts:43-95 | with a positive limit, exactly pages 1 to totalPages start at a hit |
| Search.NoHitsNoPages | src/search/search.service.ts:95-95 | no hits means no pages |
| Search.Respond | src/search/search.service.ts:89-97 | the response echoes the page and limit, carries the normalised total and the page count of that total, and one result per hit |
| Validation.IsLength | src/auth/dto/register.dto.ts:15-16 | the measure `@MinLength` and `@MaxLength` compare: never more than the code-point count, equal to it without variation selectors, 0 for a string of selectors only |
| Validation.IsLengthAppend | src/auth/dto/register.dto.ts:15-16 | the measure of a concatenation is the sum of the measures |
| Validation.ValidateRegister | src/auth/dto/register.dto.ts:9-26 | accepted exactly when the email is an email, the nickname a string measuring 2 to 20, and the password a string measuring 4 to 20, with no rule on its characters |
| Validation.RegisterCodePointBounds | src/auth/dto/register.dto.ts:13-22 | an accepted nickname has at least 2 code points and an accepted password at least 4, so neither is empty |
| Validation.SelectorPaddedNicknameAccepted | src/auth/dto/register.dto.ts:16-16 | "ab" followed by any number of U+FE0F is an accepted nickname, so the maximum of 20 bounds no code-point count |
| Validation.SingleAstralNicknameRejected | src/auth/dto/register.dto.ts:15-15 | a one-character nickname outside the basic plane fails the minimum of 2 |
| Validation.EmptyFieldsRejected | src/auth/dto/register.dto.ts:14-20 | an empty or missing nickname or password is refused |
| Validation.ValidateCreateBoard | src/board/dto/create-board.dto.ts:3-11 | accepted exactly when the title is a string measuring at least 2 and the content a string measuring at most 100 |
| Validation.EmptyContentAccepted | src/board/dto/create-board.dto.ts:9-11 | the empty content is accepted |
| Validation.AstralContentAccepted | src/board/dto/create-board.dto.ts:9-11 | a content of 100 characters outside the basic plane (200 UTF-16 units) is accepted |
| Validation.NonTextFailsLengthRules | src/board/dto/create-board.dto.ts:4-9 | a value that is not a string fails the string and length rules |
| Findings.LongTitlePassesValidation | src/board/dto/create-board.dto.ts:4-7 | a 101-character title passes validation but does not fit the column |
| Findings.SelectorPaddedTitleOverflows | src/board/entities/board.entity.ts:17-18 | a title of 50 "a"s and 70 U+FE0F passes a `@MaxLength(100)` yet does not fit the column |
| Findings.ValidateCreateBoardBounded | src/board/entities/board.entity.ts:17-18 | with the title bounded at 100 code points, every accepted title fits the column, and nothing accepted now was refused before |
| Findings.Utf8Width | src/auth/auth.service.ts:141-141 | one to four bytes per code point, one for ASCII |
| Findings.Utf8Char | src/auth/auth.service.ts:141-141 | the UTF-8 encoding of a code point, as many bytes as its width |
| Findings.LeadGivesWidth | src/auth/auth.service.ts:141-141 | the lead byte of an encoded code point announces its width |
| Findings.Utf8CharInjective | src/auth/auth.service.ts:141-141 | distinct code points have distinct encodings |
| Findings.Encode | src/auth/auth.service.ts:141-141 | the encoding of a string is as long as its UTF-8 length |
| Findings.Utf8Length | src/auth/auth.service.ts:141-141 | one to four bytes per code point |
| Findings.EncodeAppend | src/auth/auth.service.ts:141-141 | the encoding of a concatenation is the concatenation of the encodings |
| Findings.EncodeInjective | src/auth/auth.service.ts:141-141 | two strings with the same encoding are equal |
| Findings.RepeatLength | src/auth/dto/register.dto.ts:22-22 | k copies of one character take k times its width |
| Findings.BcryptKey | src/auth/auth.service.ts:141-141 | the key bcrypt is given: a prefix of the UTF-8 encoding of at most 72 bytes, the whole encoding when it fits, and exactly 72 bytes otherwise |
| Findings.Cycle | src/auth/auth.service.ts:141-141 | a key read again and again for n bytes: n bytes that begin with the key, or the key cut at n |
| Findings.CycleTwice | src/auth/auth.service.ts:141-141 | reading a key written out twice is reading the key |
| Findings.BcryptInput | src/auth/auth.service.ts:141-141 | the 72 bytes the key schedule reads: for an input of 72 bytes or more its first 72 bytes; for a shorter one its whole encoding followed by a zero byte |
| Findings.BcryptHash | src/auth/auth.service.ts:37-37 | the digest of those bytes with its salt |
| Findings.BcryptIgnoresTail | src/auth/auth.service.ts:85-88 | two strings that share a prefix of at least 72 bytes look the same to bcrypt |
| Findings.BcryptInputOfLongPrefix | src/auth/auth.service.ts:85-88 | past a prefix of at least 72 bytes nothing is read |
| Findings.EncodeNulFree | src/auth/auth.service.ts:62-62 | a string without U+0000 encodes to bytes without a zero |
| Findings.ShortInputZeroAt | src/auth/auth.service.ts:62-62 | for a short string without U+0000, no zero byte is read before its length |
| Findings.ShortSecretComparedWhole | src/auth/auth.service.ts:62-62 | a secret shorter than 72 bytes matches itself, and another candidate only when one of the two holds U+0000 |
| Findings.RefreshColumnAsWritten | src/auth/auth.service.ts:136-146 | a falsy token stores null; any other token stores its bcrypt digest |
| Findings.SupersededRefreshTokenStillAccepted | src/auth/auth.service.ts:85-96 | after a rotation, the superseded refresh token still matches the new digest |
| Findings.RotationRevokesSuperseded | src/auth/auth.service.ts:94-96 | with a digest of the whole token, a rotation makes every other token fail |
| Findings.TruncatedPasswordAccepted | src/auth/dto/register.dto.ts:19-26 | 20 and 18 copies of U+1F600 are both accepted passwords, and the shorter matches the digest of the longer |
| Findings.NulSeparatedPasswordsCollide | src/auth/auth.service.ts:37-37 | "abcd" and "abcd", NUL, "abcd" are both accepted passwords, and the first matches the digest of the second |
| Findings.NulSeparatedKeys | src/auth/auth.service.ts:37-37 | the keys of "abcd" and of "abcd", NUL, "abcd", byte by byte |
| Findings.SameInputFromRepeatedKey | src/auth/auth.service.ts:37-37 | a key and the same key written twice are read alike |
| Findings.OverlongNicknamePassesValidation | src/auth/dto/register.dto.ts:13-17 | "ab" followed by 254 U+FE0F is an accepted nickname that does not fit the varchar(255) column |
| Findings.TruncatedPasswordMatches | src/auth/auth.service.ts:62-62 | 18 U+1F600 matches the digest of 20 U+1F600 |
| Findings.ValidateRegisterBounded | src/user/entities/user.entity.ts:16-17 | with the nickname bounded at 20 code points and the password without U+0000 and below 72 bytes, nothing accepted now was refused before, every accepted nickname fits its column, and every accepted password is digested whole |
| Findings.BoundedPasswordComparedWhole | src/auth/auth.service.ts:62-62 | under those rules, a login matches the registered password, and no other candidate without U+0000 |

## Left out

- Signature and expiry verification in passport-jwt, and `jsonwebtoken`'s encoding. Both are library internals. Signing is an opaque function. The strategies start from the decoded payload.
- The Authorization header's scheme check inside passport-jwt. The library accepts the scheme in any letter case, but the model's extraction removes only the exact "Bearer ".
- bcrypt's random salt. It is an input to the model.
- Wall-clock time. The creation and update stamps come from a logical clock that ticks on every stamped write.
- The Elasticsearch query (multi_match, fuzziness, highlighting, sort) and the client. The engine's response is an input. A failed search rethrows the error, which the model does not show.
- JavaScript floating point in `Math.ceil(total / limit)`. The model computes the exact integer ceiling. This agrees with the source for totals below 2^53.
- Non-integer `page` and `limit`, and a `null` where `undefined` is meant. The search DTO file is not part of this model. page and limit are taken as integers that may be absent.
- The DTO files `update-user.dto.ts`, `update-board.dto.ts`, `create-user.dto.ts`, `login.dto.ts` and `search-board.dto.ts` are not part of this model. A user patch is assumed to carry email and nickname, and a board patch title and content. Their validation rules are not modelled.
- `ErrorMessages.USER.UNAUTHORIZED` is not defined in `error-messages.ts`, so the message of that exception is undefined. The model uses a distinct error value instead. Message texts are replaced by an enumeration.
- Controllers, guards, the `Public` decorator, the exception filters, the success interceptor and module wiring.
- Logging.
- Auth.AuthService.GenerateTokens: the signer is an opaque function, so the model does not promise that tokens signed from different payloads differ. Two tokens issued in the same second carry the same `iat` and `exp`, since `iat` counts whole seconds.
- The main model hashes with an ideal digest of the whole secret (`Crypto.Hash`). bcrypt's 72-byte limit is modelled only in `Findings`.
- Findings.BcryptInput: follows the binding of the `bcrypt` package, which passes the key's byte length, so bytes after a U+0000 are still read. An implementation that stops the key at its first zero byte is not modelled. The bcrypt library is not part of this model.
- Findings.BoundedPasswordComparedWhole: a login candidate holding U+0000 is not excluded, because the login body's rules (`login.dto.ts`) are not part of this model.
- A JSON body may carry a lone surrogate such as "\uD800", which `isLength` counts as one. A Dafny string holds only scalar values, so such a string is not modelled.
- The widths of the password and refresh-token columns. They hold bcrypt digests of 60 characters, which always fit.
- The race between two concurrent refresh calls for one account. The model is sequential.
- MySQL's collation, which compares emails without regard to case or trailing spaces. The model compares them exactly.
- The `text` column's 65535-byte limit on board content.
- UserRepo.UserRepository.Update: requires that the user is stored. TypeORM's `save` would insert a missing entity, but the only caller loads the record first.
- BoardRepo.BoardRepository.Update: requires that the board is stored and that the entity's owner is the stored one. TypeORM's `save` would otherwise insert or re-point the foreign key, but the only caller passes the board it has just loaded.
- UserTable.FindById and BoardTable.FindById: return the first matching row in table order. Under the table invariant there is at most one.
- Strategies.ValidateAccess and Strategies.ValidateRefresh: read the user table as it stands, as a parameter, instead of through the service object.

## Findings

| source | as written | input that shows it | evidently intended | confidence | as-written member | corrected member |
|---|---|---|---|---|---|---|
| src/board/dto/create-board.dto.ts:4-7 | the title has only a minimum length, while the column is varchar(100) | a title of 101 "a"s passes validation, and the store then refuses it with a data-too-long error, reported as an internal error | the title is bounded by 100 code points, as the column is. A `@MaxLength(100)` alone would still pass titles padded with U+FE0F (`Findings.SelectorPaddedTitleOverflows`) | not executed; high | Findings.LongTitlePassesValidation | Findings.ValidateCreateBoardBounded |
| src/auth/auth.service.ts:85-96, 141 | the refresh token is hashed with bcrypt, which reads only the first 72 bytes of its input | two refresh tokens of one account issued a minute apart (`Findings.SupersededToken`, `Findings.CurrentToken`) share their first 121 characters. After rotating to the second, the first still verifies | a rotation revokes the superseded token: only the current token matches the stored digest | not executed; high | Findings.SupersededRefreshTokenStillAccepted | Findings.RotationRevokesSuperseded |
| src/auth/dto/register.dto.ts:19-26, src/auth/auth.service.ts:37, 62 | the password is bounded at 20 by `isLength`, which admits up to 80 bytes of UTF-8, while bcrypt reads only 72 | a password of 20 U+1F600 (80 bytes) is registered; logging in with 18 U+1F600 matches its digest | every accepted password is compared whole, so only it logs in. The corrected rule also refuses U+0000, after which bcrypt stops and starts the key again (`Findings.NulSeparatedPasswordsCollide`) | not executed; medium | Findings.TruncatedPasswordAccepted | Findings.BoundedPasswordComparedWhole |
| src/auth/dto/register.dto.ts:13-17, src/user/entities/user.entity.ts:16-17 | the nickname is bounded at 20 by `isLength`, which skips variation selectors, while the column is varchar(255) and counts every character | the nickname "ab" followed by 254 U+FE0F measures 2 and passes validation; the insert is then refused as too long, reported as an internal error | the nickname has at most 20 characters, as the message says, and so fits the column | not executed; medium | Findings.OverlongNicknamePassesValidation | Findings.ValidateRegisterBounded |

The second finding follows from the structure of a JWT. A refresh token is
the base64url of a fixed header, a dot, and the base64url of the claims in
the order sub, email, role, iat, exp. Everything before `iat` is the same for
every token of one account, and it is already longer than 72 characters. The
main model uses an ideal digest of the whole token (`Crypto.Hash`). That is
the behaviour the rotation in `refreshAccessToken` relies on.

The third finding uses the same byte limit. 20 copies of U+1F600 measure 20
and take 80 bytes, and their first 72 bytes are the encoding of 18 copies.
For a password under 72 bytes, bcrypt reads its whole encoding followed by a
zero byte. Without U+0000 in either string, that zero byte sits at the length
of the password, so a matching candidate has the same encoding, and
`Findings.EncodeInjective` makes it the same string. A candidate holding
U+0000 can still match, as `Findings.NulSeparatedPasswordsCollide` shows.

The fourth finding comes from two rules about length. A plain string
`@Column()` is `varchar(255)` in MySQL, and strict mode refuses a wider value.
`isLength` does not count U+FE0F, so the padded nickname measures 2. In
`Findings.ValidateRegisterBounded` the nickname is bounded at 20 code points.
Such a nickname always fits the column. Every nickname it accepts was
accepted before.
