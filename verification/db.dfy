/** The `DB` user store: the table of `User` rows held by the store's
    session, and its three operations `add_user`, `find_user_by` and
    `update_user`. */
module Database {
  import opened Users

  /** Rows are kept in store order, and the store assigns ids 1, 2, 3, ...
      in that order (rows are never deleted), so row `i` has id `i + 1`. */
  predicate IdsArePositions(rows: seq<User>)
  {
    forall i :: 0 <= i < |rows| ==> rows[i].id == i + 1
  }

  /** `find_user_by(**q)` on `rows`, as the position of the row found. */
  function Lookup(rows: seq<User>, q: Query): (r: Result<nat>)
    ensures r == Err(InvalidRequestError) <==> !KnownKeys(q)
    ensures r == Err(NoResultFound) <==>
      KnownKeys(q) && forall j :: 0 <= j < |rows| ==> !Matches(rows[j], q)
    ensures r != Err(ValueError)
    ensures r.Ok? ==> IsFirstMatch(rows, q, r.value)
  {
    if !KnownKeys(q) then Err(InvalidRequestError)
    else match FirstMatch(rows, q)
      case None => Err(NoResultFound)
      case Some(i) => Ok(i)
  }

  /** With ids equal to positions, looking a user up by id finds the row at
      position `id - 1`, and fails exactly when there is no such row. */
  lemma LookupById(rows: seq<User>, id: int)
    requires IdsArePositions(rows)
    ensures Lookup(rows, IdIs(id)) ==
      if 1 <= id <= |rows| then Ok(id - 1) else Err(NoResultFound)
  {
    forall u: User { SingleColumnQueries(u, "", id, None); }
    if 1 <= id <= |rows| {
      assert Matches(rows[id - 1], IdIs(id));
    }
  }

  /** Looking a user up by email finds the first row holding that email, and
      fails with `NoResultFound` exactly when no row holds it. */
  lemma LookupByEmail(rows: seq<User>, email: string)
    ensures match Lookup(rows, EmailIs(email))
      case Ok(i) => i < |rows| && rows[i].email == email &&
                    forall j :: 0 <= j < i ==> rows[j].email != email
      case Err(e) => e == NoResultFound && forall j :: 0 <= j < |rows| ==> rows[j].email != email
  {
    forall u: User { SingleColumnQueries(u, email, 0, None); }
  }

  /** Looking a user up by session id finds the first row holding it, and
      fails with `NoResultFound` exactly when no row holds it. */
  lemma LookupBySession(rows: seq<User>, sessionId: Option<string>)
    ensures match Lookup(rows, SessionIs(sessionId))
      case Ok(i) => i < |rows| && rows[i].sessionId == sessionId &&
                    forall j :: 0 <= j < i ==> rows[j].sessionId != sessionId
      case Err(e) => e == NoResultFound && forall j :: 0 <= j < |rows| ==> rows[j].sessionId != sessionId
  {
    forall u: User { SingleColumnQueries(u, "", 0, sessionId); }
  }

  /** What `update_user(userId, **q)` raises, and the table it leaves behind:
      the row with that id gets the keys of `q` assigned one by one, up to
      the first key it rejects. */
  function Update(rows: seq<User>, userId: int, q: Query): (res: (Result<()>, seq<User>))
    requires IdsArePositions(rows) && Updatable(q)
    ensures IdsArePositions(res.1) && |res.1| == |rows|
    ensures forall j :: 0 <= j < |rows| && j != userId - 1 ==> res.1[j] == rows[j]
    ensures res.0 == Err(NoResultFound) <==> !(1 <= userId <= |rows|)
    ensures res.0 == Err(NoResultFound) ==> res.1 == rows
    ensures res.0.Err? ==> res.0.error != InvalidRequestError
  {
    LookupById(rows, userId);
    match Lookup(rows, IdIs(userId))
    case Err(e) => (Err(e), rows)
    case Ok(i) =>
      var k := FirstRejected(rows[i], q);
      UpdatedRowKeepsId(rows[i], q, k);
      (if k < |q| then Err(ValueError) else Ok(()), rows[i := Assign(rows[i], q[..k])])
  }

  /** The keyword arguments `update_user` is called with: a keyword names
      each column at most once, none renames the primary key, and a value for
      a column has that column's type. */
  predicate Updatable(q: Query)
  {
    DistinctKeys(q) &&
    forall k :: 0 <= k < |q| && ColumnNamed(q[k].0).Some? ==>
      ColumnNamed(q[k].0).value != Id && Fits(ColumnNamed(q[k].0).value, q[k].1)
  }

  /** The keys before the first rejected one can all be assigned, and
      assigning them leaves the id alone. */
  lemma UpdatedRowKeepsId(u: User, q: Query, k: nat)
    requires Updatable(q) && k == FirstRejected(u, q)
    ensures Assignable(q[..k]) && DistinctKeys(q[..k])
    ensures Assign(u, q[..k]).id == u.id
  {
    var front := q[..k];
    forall j | 0 <= j < k ensures ColumnNamed(front[j].0).Some? {
      assert !Rejects(u, q[j].0);
    }
    AssignGet(u, front, Id);
  }

  /** `update_user` on an existing id: it raises `ValueError` exactly when a
      key is rejected, after assigning the keys before the first rejected
      one; every column named among those keys then holds its new value and
      every other column of the row is unchanged. */
  lemma {:induction false} UpdateAssignsPrefix(rows: seq<User>, userId: int, q: Query, c: Column)
    requires IdsArePositions(rows) && Updatable(q)
    requires 1 <= userId <= |rows|
    ensures
      var res := Update(rows, userId, q);
      var before := rows[userId - 1];
      var after := res.1[userId - 1];
      var k := FirstRejected(before, q);
      (res.0 == Ok(()) <==> k == |q|) &&
      (res.0 != Ok(()) ==> res.0 == Err(ValueError) && Rejects(before, q[k].0)) &&
      (forall j :: 0 <= j < k && ColumnNamed(q[j].0) == Some(c) ==> Get(after, c) == q[j].1) &&
      ((forall j :: 0 <= j < k ==> ColumnNamed(q[j].0) != Some(c)) ==> Get(after, c) == Get(before, c))
  {
    LookupById(rows, userId);
    var before := rows[userId - 1];
    var k := FirstRejected(before, q);
    UpdatedRowKeepsId(before, q, k);
    var front := q[..k];
    AssignGet(before, front, c);
    assert forall j :: 0 <= j < k ==> front[j] == q[j];
  }

  /** `Update` on an existing id, spelled out. */
  lemma UpdateAt(rows: seq<User>, userId: int, q: Query)
    requires IdsArePositions(rows) && Updatable(q)
    requires 1 <= userId <= |rows|
    ensures
      var k := FirstRejected(rows[userId - 1], q);
      Assignable(q[..k]) &&
      Update(rows, userId, q) ==
        (if k < |q| then Err(ValueError) else Ok(()),
         rows[userId - 1 := Assign(rows[userId - 1], q[..k])])
  {
    LookupById(rows, userId);
    UpdatedRowKeepsId(rows[userId - 1], q, FirstRejected(rows[userId - 1], q));
  }

  /** Before assigning key `k`, the row still holds its original value in the
      column `k` names, so the check on the partly updated row agrees with
      the check on the original row. */
  lemma CheckSeesOriginal(u: User, q: Query, k: nat)
    requires Updatable(q) && k < |q| && k <= FirstRejected(u, q)
    ensures Assignable(q[..k])
    ensures Rejects(Assign(u, q[..k]), q[k].0) == Rejects(u, q[k].0)
  {
    var front := q[..k];
    assert forall j :: 0 <= j < k ==> front[j] == q[j];
    forall j | 0 <= j < k ensures ColumnNamed(front[j].0).Some? {
      assert !Rejects(u, q[j].0);
    }
    match ColumnNamed(q[k].0)
    case None =>
    case Some(c) =>
      AssignGet(u, front, c);
      forall j | 0 <= j < k ensures ColumnNamed(front[j].0) != Some(c) {
        assert q[j].0 != q[k].0;
      }
  }

  /** Assigning one more accepted key extends the assigned prefix by one. */
  lemma AssignStep(u: User, q: Query, k: nat)
    requires Updatable(q) && k < FirstRejected(u, q)
    ensures Assignable(q[..k]) && Assignable(q[..k + 1])
    ensures ColumnNamed(q[k].0).Some? && ColumnNamed(q[k].0).value != Id
    ensures Fits(ColumnNamed(q[k].0).value, q[k].1)
    ensures Assign(u, q[..k + 1]) == Set(Assign(u, q[..k]), ColumnNamed(q[k].0).value, q[k].1)
  {
    var front := q[..k + 1];
    assert forall j :: 0 <= j < k + 1 ==> front[j] == q[j];
    forall j | 0 <= j < k + 1 ensures ColumnNamed(front[j].0).Some? {
      assert !Rejects(u, q[j].0);
    }
    assert front[..k] == q[..k];
  }

  /** `update_user(userId, column=v)` with a single keyword: `NoResultFound`
      for an unknown id; `ValueError`, changing nothing, when the column
      currently holds the string "None"; otherwise that one column of that
      one row is set. */
  lemma UpdateOneColumn(rows: seq<User>, userId: int, c: Column, v: Value)
    requires IdsArePositions(rows) && c != Id && Fits(c, v)
    ensures Updatable([(Name(c), v)])
    ensures Update(rows, userId, [(Name(c), v)]) ==
      if !(1 <= userId <= |rows|) then (Err(NoResultFound), rows)
      else if Get(rows[userId - 1], c) == Str("None") then (Err(ValueError), rows)
      else (Ok(()), rows[userId - 1 := Set(rows[userId - 1], c, v)])
  {
    var q := [(Name(c), v)];
    if 1 <= userId <= |rows| {
      UpdateAt(rows, userId, q);
      var u := rows[userId - 1];
      assert ColumnNamed(Name(c)) == Some(c);
      assert q[1..] == [];
      if Get(u, c) == Str("None") {
        assert FirstRejected(u, q) == 0;
        assert q[..0] == [];
        assert rows[userId - 1 := Assign(u, q[..0])] == rows;
      } else {
        assert FirstRejected(u, q) == 1;
        assert q[..1] == q && q[..1][..0] == [];
      }
    } else {
      LookupById(rows, userId);
    }
  }

  /** The store: its table, in store order. */
  class DB {
    var users: seq<User>

    ghost predicate Valid()
      reads this
    {
      IdsArePositions(users)
    }

    /** A fresh store starts from an empty table. */
    constructor()
      ensures Valid() && users == []
    {
      users := [];
    }

    /** Appends one row with the given email and hashed password, no session
        and no reset token, and the next id; returns that row. */
    method AddUser(email: string, hashedPassword: Bytes) returns (user: User)
      requires Valid()
      modifies this
      ensures Valid()
      ensures user == User(|old(users)| + 1, email, hashedPassword, None, None)
      ensures users == old(users) + [user]
    {
      user := User(|users| + 1, email, hashedPassword, None, None);
      users := users + [user];
    }

    /** The first row, in store order, satisfying every `key == value` of
        `kwargs`; `InvalidRequestError` when a key names no column,
        `NoResultFound` when no row satisfies them. */
    function FindUserBy(kwargs: Query): (r: Result<User>)
      reads this
      ensures r == Err(InvalidRequestError) <==> !KnownKeys(kwargs)
      ensures r == Err(NoResultFound) <==>
        KnownKeys(kwargs) && forall j :: 0 <= j < |users| ==> !Matches(users[j], kwargs)
      ensures r.Ok? ==> exists i: nat :: IsFirstMatch(users, kwargs, i) && users[i] == r.value
      ensures r != Err(ValueError)
    {
      match Lookup(users, kwargs)
      case Ok(i) => Ok(users[i])
      case Err(e) => Err(e)
    }

    /** Finds the row with id `userId`, then for each keyword in turn checks
        it and assigns it to that user; a rejected keyword raises
        `ValueError`, leaving the keywords before it assigned.  The user is a
        value here, so it goes back into the table on either exit. */
    method UpdateUser(userId: int, kwargs: Query) returns (r: Result<()>)
      requires Valid() && Updatable(kwargs)
      modifies this
      ensures Valid()
      ensures (r, users) == Update(old(users), userId, kwargs)
    {
      LookupById(users, userId);
      var found := Lookup(users, IdIs(userId));
      if found.Err? {
        return Err(found.error);
      }
      var i := found.value;
      var user := users[i];
      ghost var before := user;
      UpdateAt(users, userId, kwargs);
      var k := 0;
      while k < |kwargs|
        invariant k <= FirstRejected(before, kwargs)
        invariant Assignable(kwargs[..k]) && user == Assign(before, kwargs[..k])
        invariant users == old(users)
      {
        var (key, val) := kwargs[k];
        CheckSeesOriginal(before, kwargs, k);
        if Rejects(user, key) {
          assert k == FirstRejected(before, kwargs);
          users := users[i := user];
          return Err(ValueError);
        }
        AssignStep(before, kwargs, k);
        user := Set(user, ColumnNamed(key).value, val);
        k := k + 1;
      }
      assert k == FirstRejected(before, kwargs) && kwargs[..k] == kwargs;
      users := users[i := user];
      r := Ok(());
    }
  }
}
