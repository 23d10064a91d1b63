/** The `User` row of the authentication service's `users` table, the values a
    caller passes as keyword arguments, and the field-by-field reading and
    writing of a row that `DB.find_user_by` and `DB.update_user` perform.
    The table definition (user.py) is not part of this model: its columns are
    the five attributes the service reads and writes. */
module Users {

  type Bytes = seq<bv8>

  datatype Option<T> = None | Some(value: T)

  /** The exceptions the store raises, as values. */
  datatype Error = NoResultFound | InvalidRequestError | ValueError

  datatype Result<T> = Ok(value: T) | Err(error: Error)

  /** A Python value passed as a keyword argument: an int, a str, a bytes
      object or None. */
  datatype Value = Int(i: int) | Str(s: string) | Raw(b: Bytes) | Null

  /** The columns of the `users` table. */
  datatype Column = Id | Email | HashedPassword | SessionId | ResetToken

  /** One row; `sessionId` and `resetToken` are nullable. */
  datatype User = User(id: int, email: string, hashedPassword: Bytes,
                       sessionId: Option<string>, resetToken: Option<string>)

  /** Keyword arguments, in the order the caller wrote them. */
  type Query = seq<(string, Value)>

  function Name(c: Column): string
  {
    match c
    case Id => "id"
    case Email => "email"
    case HashedPassword => "hashed_password"
    case SessionId => "session_id"
    case ResetToken => "reset_token"
  }

  /** The column an attribute name denotes, if any. */
  function ColumnNamed(key: string): (c: Option<Column>)
    ensures c.Some? ==> Name(c.value) == key
    ensures forall col :: Name(col) == key ==> c == Some(col)
  {
    if key == "id" then Some(Id)
    else if key == "email" then Some(Email)
    else if key == "hashed_password" then Some(HashedPassword)
    else if key == "session_id" then Some(SessionId)
    else if key == "reset_token" then Some(ResetToken)
    else None
  }

  /** A nullable string column as a Python value. */
  function Nullable(s: Option<string>): (v: Value)
    ensures v.Null? <==> s.None?
    ensures forall t :: v == Str(t) <==> s == Some(t)
  {
    match s
    case None => Null
    case Some(t) => Str(t)
  }

  /** Whether a value has the type column `c` stores. */
  predicate Fits(c: Column, v: Value)
  {
    match c
    case Id => v.Int?
    case Email => v.Str?
    case HashedPassword => v.Raw?
    case SessionId => v.Str? || v.Null?
    case ResetToken => v.Str? || v.Null?
  }

  /** `getattr(user, column)` */
  function Get(u: User, c: Column): (v: Value)
    ensures Fits(c, v)
  {
    match c
    case Id => Int(u.id)
    case Email => Str(u.email)
    case HashedPassword => Raw(u.hashedPassword)
    case SessionId => Nullable(u.sessionId)
    case ResetToken => Nullable(u.resetToken)
  }

  /** `setattr(user, column, v)`: column `c` reads back as `v`, every other
      column reads as before. */
  function Set(u: User, c: Column, v: Value): (r: User)
    requires Fits(c, v)
    ensures Get(r, c) == v
    ensures forall d :: d != c ==> Get(r, d) == Get(u, d)
  {
    match c
    case Id => u.(id := v.i)
    case Email => u.(email := v.s)
    case HashedPassword => u.(hashedPassword := v.b)
    case SessionId => u.(sessionId := if v.Null? then None else Some(v.s))
    case ResetToken => u.(resetToken := if v.Null? then None else Some(v.s))
  }

  /** The query `filter_by(**q)` accepts: every key names a column. */
  predicate KnownKeys(q: Query)
  {
    forall k :: 0 <= k < |q| ==> ColumnNamed(q[k].0).Some?
  }

  /** Row `u` satisfies every `key == value` condition of `q`.  A `None`
      value matches a NULL column (SQLAlchemy turns `== None` into `IS NULL`). */
  predicate Matches(u: User, q: Query)
  {
    forall k :: 0 <= k < |q| ==>
      ColumnNamed(q[k].0).Some? && Get(u, ColumnNamed(q[k].0).value) == q[k].1
  }

  /** Row `i` is the first row, in store order, that satisfies `q`. */
  predicate IsFirstMatch(rows: seq<User>, q: Query, i: nat)
  {
    i < |rows| && Matches(rows[i], q) &&
    forall j :: 0 <= j < i ==> !Matches(rows[j], q)
  }

  /** The position of the row `query(User).filter_by(**q).first()` yields. */
  function FirstMatch(rows: seq<User>, q: Query): (r: Option<nat>)
    ensures r.Some? ==> IsFirstMatch(rows, q, r.value)
    ensures r.None? ==> forall j :: 0 <= j < |rows| ==> !Matches(rows[j], q)
  {
    if rows == [] then None
    else if Matches(rows[0], q) then Some(0)
    else match FirstMatch(rows[1..], q)
      case None => None
      case Some(i) => Some(i + 1)
  }

  function EmailIs(email: string): Query { [("email", Str(email))] }
  function IdIs(id: int): Query { [("id", Int(id))] }
  function SessionIs(sessionId: Option<string>): Query { [("session_id", Nullable(sessionId))] }

  /** The three single-column queries the service issues match exactly the
      rows holding the given value. */
  lemma SingleColumnQueries(u: User, email: string, id: int, sessionId: Option<string>)
    ensures KnownKeys(EmailIs(email)) && KnownKeys(IdIs(id)) && KnownKeys(SessionIs(sessionId))
    ensures Matches(u, EmailIs(email)) <==> u.email == email
    ensures Matches(u, IdIs(id)) <==> u.id == id
    ensures Matches(u, SessionIs(sessionId)) <==> u.sessionId == sessionId
  {
    assert EmailIs(email)[0].0 == Name(Email);
    assert IdIs(id)[0].0 == Name(Id);
    assert SessionIs(sessionId)[0].0 == Name(SessionId);
    if Matches(u, SessionIs(sessionId)) {
      assert Nullable(u.sessionId) == Nullable(sessionId);
    }
  }

  /** Keyword arguments never repeat a key. */
  predicate DistinctKeys(q: Query)
  {
    forall i, j :: 0 <= i < j < |q| ==> q[i].0 != q[j].0
  }

  /** Every key names a column and its value fits that column. */
  predicate Assignable(q: Query)
  {
    forall k :: 0 <= k < |q| ==>
      ColumnNamed(q[k].0).Some? && Fits(ColumnNamed(q[k].0).value, q[k].1)
  }

  /** The row after `setattr(user, key, val)` for each pair of `q` in turn. */
  function Assign(u: User, q: Query): User
    requires Assignable(q)
  {
    if q == [] then u
    else
      var n := |q| - 1;
      Set(Assign(u, q[..n]), ColumnNamed(q[n].0).value, q[n].1)
  }

  /** A column named in `q` reads back as the value `q` gives it; a column not
      named in `q` keeps its value. */
  lemma {:induction false} AssignGet(u: User, q: Query, c: Column)
    requires Assignable(q) && DistinctKeys(q)
    ensures forall j :: 0 <= j < |q| && ColumnNamed(q[j].0) == Some(c) ==>
      Get(Assign(u, q), c) == q[j].1
    ensures (forall j :: 0 <= j < |q| ==> ColumnNamed(q[j].0) != Some(c)) ==>
      Get(Assign(u, q), c) == Get(u, c)
  {
    if q != [] {
      var n := |q| - 1;
      var front := q[..n];
      assert forall j :: 0 <= j < n ==> front[j] == q[j];
      AssignGet(u, front, c);
      var last := ColumnNamed(q[n].0).value;
      var r := Set(Assign(u, front), last, q[n].1);
      assert Assign(u, q) == r;
      if last == c {
        forall j | 0 <= j < n ensures ColumnNamed(q[j].0) != Some(c) {
          assert q[j].0 != q[n].0;
        }
      } else {
        assert Get(r, c) == Get(Assign(u, front), c);
      }
    }
  }

  /** The check `getattr(user, key, 'None') == 'None'`: true for a key that
      names no column, and for a column whose value is the string "None". */
  predicate Rejects(u: User, key: string)
  {
    match ColumnNamed(key)
    case None => true
    case Some(c) => Get(u, c) == Str("None")
  }

  /** The position of the first key of `q` that `u` rejects, or `|q|`. */
  function FirstRejected(u: User, q: Query): (k: nat)
    ensures k <= |q|
    ensures forall j :: 0 <= j < k ==> !Rejects(u, q[j].0)
    ensures k < |q| ==> Rejects(u, q[k].0)
  {
    if q == [] then 0
    else if Rejects(u, q[0].0) then 0
    else 1 + FirstRejected(u, q[1..])
  }
}
