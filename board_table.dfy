/** The board table as a value: rows in insertion order.  Ids and creation
    stamps are both handed out increasing, so the rows are ascending in
    both; each row references its owner in the user table. */
module BoardTable {
  import opened Common
  import opened UserEntity
  import opened BoardEntity
  import UserTable

  /** Insertion order: ids and creation stamps strictly ascending. */
  predicate Ordered(rows: seq<BoardRow>) {
    forall i, j :: 0 <= i < j < |rows| ==> rows[i].id < rows[j].id && rows[i].createdAt < rows[j].createdAt
  }

  /** Column constraints of one row: the varchar(100) title, a store-generated
      id, stamps taken from the clock with the update stamp not before the
      creation stamp. */
  predicate RowValid(b: BoardRow, nextId: int, clock: int) {
    1 <= b.id < nextId && b.createdAt <= b.updatedAt < clock && |b.title| <= TitleColumnLength
  }

  predicate Valid(rows: seq<BoardRow>, nextId: int, clock: int) {
    Ordered(rows) && forall b :: b in rows ==> RowValid(b, nextId, clock)
  }

  /** The foreign key: every board's owner is a stored user. */
  predicate OwnersExist(rows: seq<BoardRow>, users: seq<User>) {
    forall b :: b in rows ==> UserTable.HasId(users, b.userId)
  }

  predicate HasId(rows: seq<BoardRow>, id: int) {
    exists b :: b in rows && b.id == id
  }

  /** `repository.findOne({ where: { id } })` on the board table. */
  function FindById(rows: seq<BoardRow>, id: int): (r: Option<BoardRow>)
    ensures r.Some? ==> r.value in rows && r.value.id == id
    ensures r.None? <==> !HasId(rows, id)
  {
    if rows == [] then None
    else if rows[0].id == id then Some(rows[0])
    else
      assert forall b :: b in rows ==> b == rows[0] || b in rows[1..];
      FindById(rows[1..], id)
  }

  /** The rows satisfying `keep`, in their order: the effect of a DELETE. */
  function Keep(rows: seq<BoardRow>, keep: BoardRow -> bool): (r: seq<BoardRow>)
    ensures forall b :: b in r <==> b in rows && keep(b)
    ensures |r| <= |rows|
  {
    if rows == [] then []
    else
      assert forall b :: b in rows ==> b == rows[0] || b in rows[1..];
      if keep(rows[0]) then [rows[0]] + Keep(rows[1..], keep) else Keep(rows[1..], keep)
  }

  /** `repository.delete(id)`. */
  function Remove(rows: seq<BoardRow>, id: int): (r: seq<BoardRow>)
    ensures forall b :: b in r <==> b in rows && b.id != id
  {
    Keep(rows, (b: BoardRow) => b.id != id)
  }

  /** The `ON DELETE CASCADE` of the owner relation: the rows of one owner go. */
  function RemoveOwnedBy(rows: seq<BoardRow>, userId: int): (r: seq<BoardRow>)
    ensures forall b :: b in r <==> b in rows && b.userId != userId
  {
    Keep(rows, (b: BoardRow) => b.userId != userId)
  }

  /** The first row of an ordered table precedes all the others. */
  lemma HeadPrecedes(rows: seq<BoardRow>)
    requires |rows| > 0 && Ordered(rows)
    ensures forall b :: b in rows[1..] ==> rows[0].id < b.id && rows[0].createdAt < b.createdAt
  {
    forall b | b in rows[1..] ensures rows[0].id < b.id && rows[0].createdAt < b.createdAt {
      var k :| 0 <= k < |rows[1..]| && rows[1..][k] == b;
      assert rows[k + 1] == b;
    }
  }

  lemma ConsKeepsOrder(x: BoardRow, rest: seq<BoardRow>)
    requires Ordered(rest)
    requires forall b :: b in rest ==> x.id < b.id && x.createdAt < b.createdAt
    ensures Ordered([x] + rest)
  {
    var r := [x] + rest;
    forall i, j | 0 <= i < j < |r| ensures r[i].id < r[j].id && r[i].createdAt < r[j].createdAt {
      if i == 0 {
        assert r[j] == rest[j - 1];
        assert r[j] in rest;
      } else {
        assert r[i] == rest[i - 1] && r[j] == rest[j - 1];
      }
    }
  }

  /** Deleting rows, whichever they are, keeps the order of the rest. */
  lemma {:induction false} KeepKeepsOrder(rows: seq<BoardRow>, keep: BoardRow -> bool)
    requires Ordered(rows)
    ensures Ordered(Keep(rows, keep))
  {
    if rows != [] {
      assert Ordered(rows[1..]);
      KeepKeepsOrder(rows[1..], keep);
      if keep(rows[0]) {
        HeadPrecedes(rows);
        ConsKeepsOrder(rows[0], Keep(rows[1..], keep));
      }
    }
  }

  lemma KeepKeepsValid(rows: seq<BoardRow>, nextId: int, clock: int, keep: BoardRow -> bool)
    requires Valid(rows, nextId, clock)
    ensures Valid(Keep(rows, keep), nextId, clock)
  {
    KeepKeepsOrder(rows, keep);
  }

  lemma RemoveKeepsValid(rows: seq<BoardRow>, nextId: int, clock: int, id: int)
    requires Valid(rows, nextId, clock)
    ensures Valid(Remove(rows, id), nextId, clock)
  {
    KeepKeepsValid(rows, nextId, clock, (b: BoardRow) => b.id != id);
  }

  lemma RemoveOwnedByKeepsValid(rows: seq<BoardRow>, nextId: int, clock: int, userId: int)
    requires Valid(rows, nextId, clock)
    ensures Valid(RemoveOwnedBy(rows, userId), nextId, clock)
  {
    KeepKeepsValid(rows, nextId, clock, (b: BoardRow) => b.userId != userId);
  }

  /** After deleting a board, that id is gone and every other lookup is unchanged. */
  lemma {:induction false} RemoveLookup(rows: seq<BoardRow>, id: int, k: int)
    ensures FindById(Remove(rows, id), k) == if k == id then None else FindById(rows, k)
  {
    if rows != [] {
      assert Remove(rows, id) == if rows[0].id != id then [rows[0]] + Remove(rows[1..], id) else Remove(rows[1..], id);
      RemoveLookup(rows[1..], id, k);
    }
  }

  /** Inserting the row of a new board. */
  function Insert(rows: seq<BoardRow>, b: BoardRow): (r: seq<BoardRow>)
    ensures |r| == |rows| + 1 && r[..|rows|] == rows && r[|rows|] == b
  {
    rows + [b]
  }

  /** A new row with the next id, stamped with the current clock, keeps the
      table ordered once the clock has ticked. */
  lemma InsertKeepsValid(rows: seq<BoardRow>, nextId: int, clock: int, b: BoardRow)
    requires Valid(rows, nextId, clock)
    requires b.id == nextId >= 1 && b.createdAt == b.updatedAt == clock && |b.title| <= TitleColumnLength
    ensures Valid(Insert(rows, b), nextId + 1, clock + 1)
    ensures FindById(Insert(rows, b), b.id) == Some(b)
  {
    var r := Insert(rows, b);
    assert r == rows + [b];
    forall i, j | 0 <= i < j < |r| ensures r[i].id < r[j].id && r[i].createdAt < r[j].createdAt {
      assert r[i] == rows[i] && rows[i] in rows;
      if j < |rows| {
        assert r[j] == rows[j];
      }
    }
    forall c | c in r ensures RowValid(c, nextId + 1, clock + 1) {
      if c != b {
        assert c in rows;
      }
    }
    assert !HasId(rows, b.id) by {
      forall c | c in rows ensures c.id != b.id {
        assert RowValid(c, nextId, clock);
      }
    }
    FindByIdFindsLast(rows, b);
  }

  lemma {:induction false} FindByIdFindsLast(rows: seq<BoardRow>, b: BoardRow)
    requires !HasId(rows, b.id)
    ensures FindById(rows + [b], b.id) == Some(b)
  {
    if rows != [] {
      assert (rows + [b])[1..] == rows[1..] + [b];
      assert rows[0] in rows;
      FindByIdFindsLast(rows[1..], b);
    }
  }

  /** `Object.assign(board, patch)` followed by `save`: the title and the
      content of the row with that id become the given ones and its update
      stamp is taken from the clock; nothing else about any row changes. */
  function Merge(rows: seq<BoardRow>, id: int, title: string, content: string, now: int): (r: seq<BoardRow>)
    ensures |r| == |rows|
  {
    seq(|rows|, i requires 0 <= i < |rows| =>
      if rows[i].id == id then rows[i].(title := title, content := content, updatedAt := now) else rows[i])
  }

  lemma {:induction false} MergeLookup(rows: seq<BoardRow>, id: int, title: string, content: string, now: int, k: int)
    ensures FindById(Merge(rows, id, title, content, now), k) ==
      if k == id && FindById(rows, k).Some?
      then Some(FindById(rows, k).value.(title := title, content := content, updatedAt := now))
      else FindById(rows, k)
  {
    if rows != [] {
      assert Merge(rows, id, title, content, now)[1..] == Merge(rows[1..], id, title, content, now);
      MergeLookup(rows[1..], id, title, content, now, k);
    }
  }

  lemma MergeKeepsValid(rows: seq<BoardRow>, nextId: int, clock: int, id: int, title: string, content: string)
    requires Valid(rows, nextId, clock) && |title| <= TitleColumnLength
    ensures Valid(Merge(rows, id, title, content, clock), nextId, clock + 1)
  {
    var r := Merge(rows, id, title, content, clock);
    forall i, j | 0 <= i < j < |r| ensures r[i].id < r[j].id && r[i].createdAt < r[j].createdAt {
    }
    forall b | b in r ensures RowValid(b, nextId, clock + 1) {
      var i :| 0 <= i < |r| && r[i] == b;
      assert rows[i] in rows;
    }
  }

  /** The rows that the merge leaves have the same owners. */
  lemma MergeKeepsOwners(rows: seq<BoardRow>, users: seq<User>, id: int, title: string, content: string, now: int)
    requires OwnersExist(rows, users)
    ensures OwnersExist(Merge(rows, id, title, content, now), users)
  {
    var r := Merge(rows, id, title, content, now);
    forall b | b in r ensures UserTable.HasId(users, b.userId) {
      var i :| 0 <= i < |r| && r[i] == b;
      assert rows[i] in rows;
    }
  }

  /** A change of the user table that keeps every user id keeps the foreign key. */
  lemma OwnersKept(rows: seq<BoardRow>, users: seq<User>, users': seq<User>)
    requires OwnersExist(rows, users)
    requires forall id :: UserTable.HasId(users, id) ==> UserTable.HasId(users', id)
    ensures OwnersExist(rows, users')
  {
  }

  /** Deleting a user together with its boards keeps the foreign key. */
  lemma CascadeKeepsOwners(rows: seq<BoardRow>, users: seq<User>, userId: int)
    requires OwnersExist(rows, users)
    ensures OwnersExist(RemoveOwnedBy(rows, userId), UserTable.Remove(users, userId))
  {
    var users' := UserTable.Remove(users, userId);
    forall b | b in RemoveOwnedBy(rows, userId) ensures UserTable.HasId(users', b.userId) {
      var u :| u in users && u.id == b.userId;
      assert u in users';
    }
  }

  /** The loaded entity of a stored row, joined with its owner. */
  function Load(row: BoardRow, users: seq<User>): (b: Board)
    requires UserTable.HasId(users, row.userId)
    ensures b.user in users && b.user.id == row.userId
    ensures b.id == row.id && b.title == row.title && b.content == row.content
    ensures b.createdAt == row.createdAt && b.updatedAt == row.updatedAt
  {
    WithOwner(row, UserTable.FindById(users, row.userId).value)
  }

  /** Every row, joined with its owner, newest first. */
  function LoadAllNewestFirst(rows: seq<BoardRow>, users: seq<User>): (r: seq<Board>)
    requires OwnersExist(rows, users)
    ensures |r| == |rows|
    ensures forall i :: 0 <= i < |r| ==> rows[|rows| - 1 - i] in rows && r[i] == Load(rows[|rows| - 1 - i], users)
  {
    seq(|rows|, i requires 0 <= i < |rows| =>
      assert rows[|rows| - 1 - i] in rows; Load(rows[|rows| - 1 - i], users))
  }

  predicate NewestFirst(bs: seq<Board>) {
    forall i, j :: 0 <= i < j < |bs| ==> bs[i].createdAt > bs[j].createdAt
  }

  /** Because stamps ascend along the table, reading it backwards is the
      listing ordered by creation stamp, descending. */
  lemma LoadAllIsNewestFirst(rows: seq<BoardRow>, users: seq<User>)
    requires Ordered(rows) && OwnersExist(rows, users)
    ensures NewestFirst(LoadAllNewestFirst(rows, users))
  {
    var r := LoadAllNewestFirst(rows, users);
    forall i, j | 0 <= i < j < |r| ensures r[i].createdAt > r[j].createdAt {
      assert r[i].createdAt == rows[|rows| - 1 - i].createdAt;
      assert r[j].createdAt == rows[|rows| - 1 - j].createdAt;
    }
  }
}
