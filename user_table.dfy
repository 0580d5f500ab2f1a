/** The user table as a value: its rows in insertion order, which is also
    ascending id order because ids are generated increasing and never
    reused.  Every query and write of the user repository is specified by
    a function here, and the facts the repository promises are lemmas. */
module UserTable {
  import opened Common
  import opened Crypto
  import opened UserEntity

  predicate IdsAscending(rows: seq<User>) {
    forall i, j :: 0 <= i < j < |rows| ==> rows[i].id < rows[j].id
  }

  /** The unique index on the email column. */
  predicate EmailsUnique(rows: seq<User>) {
    forall i, j :: 0 <= i < j < |rows| ==> rows[i].email != rows[j].email
  }

  /** Generated ids start at 1 and stay below the next one to be handed out. */
  predicate IdsBelow(rows: seq<User>, nextId: int) {
    forall u :: u in rows ==> 1 <= u.id < nextId
  }

  /** The table invariant: unique store-generated ids, unique emails. */
  predicate Valid(rows: seq<User>, nextId: int) {
    IdsAscending(rows) && EmailsUnique(rows) && IdsBelow(rows, nextId)
  }

  predicate HasId(rows: seq<User>, id: int) {
    exists u :: u in rows && u.id == id
  }

  /** `repository.exists({ where: { email } })`. */
  predicate HasEmail(rows: seq<User>, email: string) {
    exists u :: u in rows && u.email == email
  }

  /** `repository.findOne({ where: { id } })`. */
  function FindById(rows: seq<User>, id: int): (r: Option<User>)
    ensures r.Some? ==> r.value in rows && r.value.id == id
    ensures r.None? <==> !HasId(rows, id)
  {
    if rows == [] then None
    else if rows[0].id == id then Some(rows[0])
    else
      assert forall u :: u in rows ==> u == rows[0] || u in rows[1..];
      FindById(rows[1..], id)
  }

  /** `repository.findOne({ where: { email } })`. */
  function FindByEmail(rows: seq<User>, email: string): (r: Option<User>)
    ensures r.Some? ==> r.value in rows && r.value.email == email
    ensures r.None? <==> !HasEmail(rows, email)
  {
    if rows == [] then None
    else if rows[0].email == email then Some(rows[0])
    else
      assert forall u :: u in rows ==> u == rows[0] || u in rows[1..];
      FindByEmail(rows[1..], email)
  }

  /** `findUserOrThrow`: the user with that id, or NotFound(USER.NOT_FOUND)
      exactly when there is none; it never yields an empty result. */
  function FindOrNotFound(rows: seq<User>, id: int): (r: Result<User>)
    ensures r.Err? <==> !HasId(rows, id)
    ensures r.Err? ==> r.error == NotFound(UserNotFound)
    ensures r.Ok? ==> r.value in rows && r.value.id == id && r.value == FindById(rows, id).value
  {
    match FindById(rows, id)
    case None => Err(NotFound(UserNotFound))
    case Some(u) => Ok(u)
  }

  /** With unique ids, the lookup by id finds exactly the row that has it. */
  lemma {:induction false} FindByIdFindsRow(rows: seq<User>, i: int)
    requires IdsAscending(rows) && 0 <= i < |rows|
    ensures FindById(rows, rows[i].id) == Some(rows[i])
  {
    if i > 0 {
      assert rows[0].id < rows[i].id;
      FindByIdFindsRow(rows[1..], i - 1);
    }
  }

  /** With unique emails, the lookup by email finds exactly the row that has it. */
  lemma {:induction false} FindByEmailFindsRow(rows: seq<User>, i: int)
    requires EmailsUnique(rows) && 0 <= i < |rows|
    ensures FindByEmail(rows, rows[i].email) == Some(rows[i])
  {
    if i > 0 {
      assert rows[0].email != rows[i].email;
      FindByEmailFindsRow(rows[1..], i - 1);
    }
  }

  /** The insert of `save` for a new entity: appended with the next id. */
  function Insert(rows: seq<User>, u: User): (r: seq<User>)
    ensures |r| == |rows| + 1 && r[..|rows|] == rows && r[|rows|] == u
  {
    rows + [u]
  }

  /** An insert with the next generated id and an unused email keeps the
      table invariant, and the new row is then found by its id and email. */
  lemma InsertKeepsValid(rows: seq<User>, nextId: int, u: User)
    requires Valid(rows, nextId) && 1 <= nextId && u.id == nextId && !HasEmail(rows, u.email)
    ensures Valid(Insert(rows, u), nextId + 1)
    ensures FindById(Insert(rows, u), u.id) == Some(u)
    ensures FindByEmail(Insert(rows, u), u.email) == Some(u)
  {
    var r := Insert(rows, u);
    forall i, j | 0 <= i < j < |r| ensures r[i].id < r[j].id && r[i].email != r[j].email {
      if j == |rows| {
        assert r[i] in rows;
      }
    }
    FindByIdFindsRow(r, |rows|);
    FindByEmailFindsRow(r, |rows|);
  }

  /** `repository.delete(id)`: every row with that id goes, every other row
      stays, in the same order. */
  function Remove(rows: seq<User>, id: int): (r: seq<User>)
    ensures forall u :: u in r <==> u in rows && u.id != id
    ensures |r| <= |rows|
  {
    if rows == [] then []
    else
      assert forall u :: u in rows ==> u == rows[0] || u in rows[1..];
      if rows[0].id == id then Remove(rows[1..], id)
      else [rows[0]] + Remove(rows[1..], id)
  }

  /** After the delete, the id is gone and every other lookup is unchanged. */
  lemma {:induction false} RemoveLookup(rows: seq<User>, id: int, k: int)
    ensures FindById(Remove(rows, id), k) == if k == id then None else FindById(rows, k)
  {
    if rows != [] {
      RemoveLookup(rows[1..], id, k);
    }
  }

  /** A row placed before rows it precedes in id and differs from in email,
      keeps the order and the uniqueness of emails. */
  lemma ConsKeepsOrder(x: User, rest: seq<User>)
    requires IdsAscending(rest) && EmailsUnique(rest)
    requires forall v :: v in rest ==> x.id < v.id && x.email != v.email
    ensures IdsAscending([x] + rest) && EmailsUnique([x] + rest)
  {
    var r := [x] + rest;
    forall i, j | 0 <= i < j < |r| ensures r[i].id < r[j].id && r[i].email != r[j].email {
      if i == 0 {
        assert r[j] == rest[j - 1];
        assert r[j] in rest;
      } else {
        assert r[i] == rest[i - 1] && r[j] == rest[j - 1];
      }
    }
  }

  /** The first row of an ordered table precedes all the others. */
  lemma HeadPrecedes(rows: seq<User>)
    requires |rows| > 0 && IdsAscending(rows) && EmailsUnique(rows)
    ensures forall v :: v in rows[1..] ==> rows[0].id < v.id && rows[0].email != v.email
  {
    forall v | v in rows[1..] ensures rows[0].id < v.id && rows[0].email != v.email {
      var k :| 0 <= k < |rows[1..]| && rows[1..][k] == v;
      assert rows[k + 1] == v;
    }
  }

  /** Removing rows keeps the order of the rest, hence the invariant. */
  lemma {:induction false} RemoveKeepsValid(rows: seq<User>, nextId: int, id: int)
    requires Valid(rows, nextId)
    ensures Valid(Remove(rows, id), nextId)
  {
    if rows != [] {
      assert Valid(rows[1..], nextId);
      RemoveKeepsValid(rows[1..], nextId, id);
      if rows[0].id != id {
        HeadPrecedes(rows);
        ConsKeepsOrder(rows[0], Remove(rows[1..], id));
      }
    }
  }

  /** `repository.update(id, { refreshToken })`: one column of the rows
      with that id is overwritten; a missing id changes nothing. */
  function SetRefreshHash(rows: seq<User>, id: int, h: Option<Digest>): (r: seq<User>)
    ensures |r| == |rows|
  {
    seq(|rows|, i requires 0 <= i < |rows| =>
      if rows[i].id == id then rows[i].(refreshHash := h) else rows[i])
  }

  /** The refresh update changes only the refresh column of that one user. */
  lemma {:induction false} SetRefreshHashLookup(rows: seq<User>, id: int, h: Option<Digest>, k: int)
    ensures FindById(SetRefreshHash(rows, id, h), k) ==
      if k == id && FindById(rows, k).Some? then Some(FindById(rows, k).value.(refreshHash := h))
      else FindById(rows, k)
  {
    if rows != [] {
      assert SetRefreshHash(rows, id, h)[1..] == SetRefreshHash(rows[1..], id, h);
      SetRefreshHashLookup(rows[1..], id, h, k);
    }
  }

  /** Writing the refresh column of a row that was just appended with a
      fresh id touches only that row. */
  lemma SetRefreshHashOfNewRow(rows: seq<User>, u: User, h: Option<Digest>)
    requires !HasId(rows, u.id)
    ensures SetRefreshHash(rows + [u], u.id, h) == rows + [u.(refreshHash := h)]
  {
    var r := SetRefreshHash(rows + [u], u.id, h);
    forall i | 0 <= i < |rows| ensures r[i] == rows[i] {
      assert rows[i] in rows;
    }
  }

  /** Writing the same value to the refresh column twice is writing it once. */
  lemma SetRefreshHashIdempotent(rows: seq<User>, id: int, h: Option<Digest>)
    ensures SetRefreshHash(SetRefreshHash(rows, id, h), id, h) == SetRefreshHash(rows, id, h)
  {
  }

  lemma SetRefreshHashKeepsValid(rows: seq<User>, nextId: int, id: int, h: Option<Digest>)
    requires Valid(rows, nextId)
    ensures Valid(SetRefreshHash(rows, id, h), nextId)
  {
    var r := SetRefreshHash(rows, id, h);
    forall u | u in r ensures 1 <= u.id < nextId {
      var i :| 0 <= i < |r| && r[i] == u;
      assert rows[i] in rows;
    }
  }

  /** `repository.save(user)` for a user that is already stored: its row is
      replaced by the given record. */
  function Replace(rows: seq<User>, u: User): (r: seq<User>)
    ensures |r| == |rows|
  {
    seq(|rows|, i requires 0 <= i < |rows| => if rows[i].id == u.id then u else rows[i])
  }

  /** Another row already holds the email the record would be saved with. */
  predicate EmailTakenByOther(rows: seq<User>, u: User) {
    exists v :: v in rows && v.email == u.email && v.id != u.id
  }

  /** The save replaces exactly the record with that id. */
  lemma {:induction false} ReplaceLookup(rows: seq<User>, u: User, k: int)
    ensures FindById(Replace(rows, u), k) ==
      if k == u.id && FindById(rows, k).Some? then Some(u) else FindById(rows, k)
  {
    if rows != [] {
      assert Replace(rows, u)[1..] == Replace(rows[1..], u);
      ReplaceLookup(rows[1..], u, k);
    }
  }

  /** Saving a stored record keeps the invariant when its email is not
      held by another row. */
  lemma ReplaceKeepsValid(rows: seq<User>, nextId: int, u: User)
    requires Valid(rows, nextId) && HasId(rows, u.id) && !EmailTakenByOther(rows, u)
    ensures Valid(Replace(rows, u), nextId)
  {
    var r := Replace(rows, u);
    forall i, j | 0 <= i < j < |r| ensures r[i].id < r[j].id && r[i].email != r[j].email {
      assert rows[i] in rows && rows[j] in rows;
    }
    forall v | v in r ensures 1 <= v.id < nextId {
      var i :| 0 <= i < |r| && r[i] == v;
      assert rows[i] in rows;
    }
  }
}
