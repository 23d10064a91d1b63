/** The authentication service `Auth`: registration, login check, session
    creation, lookup and destruction, and reset-token issuance, each a short
    sequence of `DB` lookups and updates whose exceptions are mapped to
    results. */
module Authentication {
  import opened Users
  import opened Database

  /** The bcrypt library, as an oracle: `hashpw(password, salt)` and
      `checkpw(password, hashed)`.  Password encoding happens inside it. */
  datatype Bcrypt = Bcrypt(hashpw: (string, Bytes) -> Bytes, checkpw: (string, Bytes) -> bool)

  /** The one property the service relies on: a password checks against any
      hash computed from it. */
  ghost predicate Sound(b: Bcrypt)
  {
    forall password, salt :: b.checkpw(password, b.hashpw(password, salt))
  }

  /** `_hash_password`: a salted hash of the password; `salt` stands for the
      output of `bcrypt.gensalt()`. */
  function HashPassword(b: Bcrypt, password: string, salt: Bytes): (hashed: Bytes)
    ensures Sound(b) ==> b.checkpw(password, hashed)
  {
    b.hashpw(password, salt)
  }

  /** No two rows share an email. */
  ghost predicate UniqueEmails(rows: seq<User>)
  {
    forall i, j :: 0 <= i < j < |rows| ==> rows[i].email != rows[j].email
  }

  /** No two rows share a session id. */
  ghost predicate UniqueSessions(rows: seq<User>)
  {
    forall i, j :: 0 <= i < j < |rows| && rows[i].sessionId.Some? ==>
      rows[i].sessionId != rows[j].sessionId
  }

  class Auth {
    const db: DB
    const bcrypt: Bcrypt

    /** The store's invariant, and: registration keeps emails unique. */
    ghost predicate Valid()
      reads this, db
    {
      db.Valid() && UniqueEmails(db.users)
    }

    constructor(bcrypt: Bcrypt)
      ensures Valid() && fresh(db) && db.users == [] && this.bcrypt == bcrypt
    {
      this.bcrypt := bcrypt;
      db := new DB();
    }

    /** `register_user`: an email already in the table raises `ValueError`
        and adds nothing; a new email gets one new row holding the hashed
        password, which is returned.  `salt` stands for `bcrypt.gensalt()`. */
    method RegisterUser(email: string, password: string, salt: Bytes) returns (r: Result<User>)
      requires Valid()
      modifies db
      ensures Valid()
      ensures (exists j :: 0 <= j < |old(db.users)| && old(db.users)[j].email == email) ==>
        r == Err(ValueError) && db.users == old(db.users)
      ensures (forall j :: 0 <= j < |old(db.users)| ==> old(db.users)[j].email != email) ==>
        r == Ok(User(|old(db.users)| + 1, email, HashPassword(bcrypt, password, salt), None, None)) &&
        db.users == old(db.users) + [r.value]
    {
      LookupByEmail(db.users, email);
      var found := db.FindUserBy(EmailIs(email));
      if found.Ok? {
        return Err(ValueError);
      }
      var hashed := HashPassword(bcrypt, password, salt);
      var user := db.AddUser(email, hashed);
      r := Ok(user);
    }

    /** `valid_login`: false when no row has the email; otherwise whether the
        password checks against the stored hash of the first such row. */
    function ValidLogin(email: string, password: string): (ok: bool)
      reads db
      ensures (forall j :: 0 <= j < |db.users| ==> db.users[j].email != email) ==> !ok
      ensures ok ==> exists j :: 0 <= j < |db.users| && db.users[j].email == email &&
                                bcrypt.checkpw(password, db.users[j].hashedPassword)
      ensures UniqueEmails(db.users) ==>
        (ok <==> exists j :: 0 <= j < |db.users| && db.users[j].email == email &&
                   bcrypt.checkpw(password, db.users[j].hashedPassword))
    {
      LookupByEmail(db.users, email);
      match db.FindUserBy(EmailIs(email))
      case Ok(user) => bcrypt.checkpw(password, user.hashedPassword)
      case Err(_) => false
    }

    /** `create_session`: an unknown email yields `None` and changes nothing;
        a known email gets its session id set to the fresh `uuid` (the output
        of `uuid4()`), and the stored session id is returned.  Should the
        row's current session id be the string "None", `update_user` raises,
        the error is swallowed and `None` is returned. */
    method CreateSession(email: string, uuid: string) returns (r: Option<string>)
      requires Valid()
      modifies db
      ensures Valid()
      ensures match Lookup(old(db.users), EmailIs(email))
        case Err(_) => r == None && db.users == old(db.users)
        case Ok(i) =>
          if old(db.users)[i].sessionId == Some("None") then
            r == None && db.users == old(db.users)
          else
            r == Some(uuid) &&
            db.users == old(db.users)[i := old(db.users)[i].(sessionId := Some(uuid))]
    {
      var found := db.FindUserBy(EmailIs(email));
      if found.Err? {
        return None;
      }
      var user := found.value;
      LookupById(db.users, user.id);
      UpdateOneColumn(db.users, user.id, SessionId, Str(uuid));
      var outcome := db.UpdateUser(user.id, [("session_id", Str(uuid))]);
      if outcome.Err? {
        return None;
      }
      LookupById(db.users, user.id);
      var stored := db.FindUserBy(IdIs(user.id));
      r := stored.value.sessionId;
    }

    /** `get_user_from_session_id`: the first row whose session id equals
        `sessionId`, or `None`.  A missing token (`None`) is compared too,
        and matches a row that has no session. */
    function GetUserFromSessionId(sessionId: Option<string>): (r: Option<User>)
      reads db
      ensures r.None? <==> forall j :: 0 <= j < |db.users| ==> db.users[j].sessionId != sessionId
      ensures r.Some? ==> exists i :: 0 <= i < |db.users| && db.users[i] == r.value &&
                                     r.value.sessionId == sessionId &&
                                     forall j :: 0 <= j < i ==> db.users[j].sessionId != sessionId
    {
      LookupBySession(db.users, sessionId);
      match db.FindUserBy(SessionIs(sessionId))
      case Ok(user) => Some(user)
      case Err(_) => None
    }

    /** `get_user_from_session_id` as evidently intended: a missing token
        finds nobody, and a user found is the first stored row holding
        exactly the token asked for. */
    function GetUserFromSessionIdGuarded(sessionId: Option<string>): (r: Option<User>)
      reads db
      ensures sessionId.None? ==> r.None?
      ensures r.Some? ==> r.value.sessionId.Some? && r.value.sessionId == sessionId
      ensures sessionId.Some? ==>
        (r.None? <==> forall j :: 0 <= j < |db.users| ==> db.users[j].sessionId != sessionId)
      ensures r.Some? ==> exists i :: 0 <= i < |db.users| && db.users[i] == r.value &&
                                     forall j :: 0 <= j < i ==> db.users[j].sessionId != sessionId
    {
      if sessionId.None? then None else GetUserFromSessionId(sessionId)
    }

    /** `destroy_session`: never fails; the row with id `userId` gets no
        session, and an unknown id changes nothing (nor does a row whose
        session id is the string "None", which `update_user` refuses). */
    method DestroySession(userId: int)
      requires Valid()
      modifies db
      ensures Valid()
      ensures
        if 1 <= userId <= |old(db.users)| && old(db.users)[userId - 1].sessionId != Some("None") then
          db.users == old(db.users)[userId - 1 := old(db.users)[userId - 1].(sessionId := None)]
        else
          db.users == old(db.users)
    {
      LookupById(db.users, userId);
      var found := db.FindUserBy(IdIs(userId));
      if found.Err? {
        return;
      }
      var user := found.value;
      assert user == db.users[userId - 1] && user.id == userId;
      UpdateOneColumn(db.users, user.id, SessionId, Null);
      var _ := db.UpdateUser(user.id, [("session_id", Null)]);
    }

    /** `get_reset_password_token`: an unknown email raises `ValueError`; a
        known one gets its reset token set to the fresh `uuid`, which is
        returned as the stored reset token; its session id and all other
        rows are untouched. */
    method GetResetPasswordToken(email: string, uuid: string) returns (r: Result<Option<string>>)
      requires Valid()
      modifies db
      ensures Valid()
      ensures match Lookup(old(db.users), EmailIs(email))
        case Err(_) => r == Err(ValueError) && db.users == old(db.users)
        case Ok(i) =>
          if old(db.users)[i].resetToken == Some("None") then
            r == Err(ValueError) && db.users == old(db.users)
          else
            r == Ok(Some(uuid)) &&
            db.users == old(db.users)[i := old(db.users)[i].(resetToken := Some(uuid))]
    {
      var found := db.FindUserBy(EmailIs(email));
      if found.Err? {
        return Err(ValueError);
      }
      var user := found.value;
      LookupById(db.users, user.id);
      UpdateOneColumn(db.users, user.id, ResetToken, Str(uuid));
      var outcome := db.UpdateUser(user.id, [("reset_token", Str(uuid))]);
      if outcome.Err? {
        return Err(ValueError);
      }
      LookupById(db.users, user.id);
      var stored := db.FindUserBy(IdIs(user.id));
      r := Ok(stored.value.resetToken);
    }
  }

  /** A registered password logs in: once a row holds the email and a hash
      of the password, `valid_login` accepts that password. */
  lemma LoginAfterRegister(a: Auth, email: string, password: string, salt: Bytes, i: nat)
    requires a.Valid() && Sound(a.bcrypt)
    requires i < |a.db.users| && a.db.users[i].email == email
    requires a.db.users[i].hashedPassword == HashPassword(a.bcrypt, password, salt)
    ensures a.ValidLogin(email, password)
  {
    assert a.bcrypt.checkpw(password, a.db.users[i].hashedPassword);
  }

  /** A token held by exactly one row leads back to that row. */
  lemma SessionFindsItsHolder(a: Auth, i: nat, token: string)
    requires i < |a.db.users| && a.db.users[i].sessionId == Some(token)
    requires forall j :: 0 <= j < |a.db.users| && j != i ==> a.db.users[j].sessionId != Some(token)
    ensures a.GetUserFromSessionId(Some(token)) == Some(a.db.users[i])
  {
    var r := a.GetUserFromSessionId(Some(token));
    assert r.Some?;
    var k :| 0 <= k < |a.db.users| && a.db.users[k] == r.value && r.value.sessionId == Some(token);
    assert k == i;
  }

  /** A missing token is not refused: it finds the first row that has no
      session. */
  lemma MissingTokenFindsSessionless(a: Auth, i: nat)
    requires i < |a.db.users| && a.db.users[i].sessionId == None
    ensures a.GetUserFromSessionId(None).Some?
    ensures a.GetUserFromSessionId(None).value.sessionId == None
  {
    var r := a.GetUserFromSessionId(None);
    assert r.Some?;
  }

  /** Setting a row's session id to a token no row holds keeps session ids
      unique. */
  lemma FreshSessionIsUnique(rows: seq<User>, i: nat, token: string)
    requires UniqueSessions(rows) && i < |rows|
    requires forall j :: 0 <= j < |rows| ==> rows[j].sessionId != Some(token)
    ensures UniqueSessions(rows[i := rows[i].(sessionId := Some(token))])
  {
  }

  /** Clearing the session of the row holding `token` keeps session ids
      unique, and when they were unique no row holds `token` any more. */
  lemma DestroyedSessionIsGone(rows: seq<User>, after: seq<User>, i: nat, token: string)
    requires UniqueSessions(rows) && i < |rows| && rows[i].sessionId == Some(token)
    requires after == rows[i := rows[i].(sessionId := None)]
    ensures UniqueSessions(after)
    ensures forall j :: 0 <= j < |after| ==> after[j].sessionId != Some(token)
  {
    forall j | 0 <= j < |after| ensures after[j].sessionId != Some(token) {
      if j < i && rows[j].sessionId.Some? {
        assert rows[j].sessionId != rows[i].sessionId;
      }
    }
  }

  /** Registering the same email twice: the first call adds the row, the
      second raises `ValueError`, and the table holds exactly one row with
      that email. */
  method RegisterTwice(a: Auth, email: string, password1: string, salt1: Bytes,
                       password2: string, salt2: Bytes)
    returns (first: Result<User>, second: Result<User>)
    requires a.Valid()
    requires forall j :: 0 <= j < |a.db.users| ==> a.db.users[j].email != email
    modifies a.db
    ensures a.Valid()
    ensures first.Ok? && first.value.email == email && second == Err(ValueError)
    ensures a.db.users == old(a.db.users) + [first.value]
    ensures forall j :: 0 <= j < |a.db.users| && a.db.users[j].email == email ==>
      j == |a.db.users| - 1
  {
    first := a.RegisterUser(email, password1, salt1);
    assert a.db.users[|a.db.users| - 1].email == email;
    second := a.RegisterUser(email, password2, salt2);
  }

  /** A session created with a token no row holds leads back to the user it
      was created for, and keeps session ids unique; an unknown email
      creates no session. */
  method CreateThenLookup(a: Auth, email: string, token: string)
    returns (session: Option<string>, found: Option<User>)
    requires a.Valid()
    requires forall j :: 0 <= j < |a.db.users| ==> a.db.users[j].sessionId != Some(token)
    modifies a.db
    ensures a.Valid()
    ensures session.Some? <==> exists j :: 0 <= j < |old(a.db.users)| && old(a.db.users)[j].email == email &&
                                          old(a.db.users)[j].sessionId != Some("None")
    ensures session.Some? ==>
      session == Some(token) && found.Some? && found.value.email == email &&
      found.value.sessionId == Some(token) && found == a.GetUserFromSessionId(session)
    ensures session.None? ==> a.db.users == old(a.db.users) && found.None?
    ensures UniqueSessions(old(a.db.users)) ==> UniqueSessions(a.db.users)
  {
    LookupByEmail(a.db.users, email);
    session := a.CreateSession(email, token);
    found := a.GetUserFromSessionId(Some(token));
    match Lookup(old(a.db.users), EmailIs(email))
    case Err(_) =>
    case Ok(i) =>
      if session.Some? {
        SessionFindsItsHolder(a, i, token);
        if UniqueSessions(old(a.db.users)) {
          FreshSessionIsUnique(old(a.db.users), i, token);
        }
      }
  }

  /** With session ids unique, destroying the session of the user holding
      `token` leaves `token` leading to nobody. */
  method DestroyThenLookup(a: Auth, userId: int, token: string) returns (found: Option<User>)
    requires a.Valid() && UniqueSessions(a.db.users)
    requires 1 <= userId <= |a.db.users| && a.db.users[userId - 1].sessionId == Some(token)
    requires token != "None"
    modifies a.db
    ensures a.Valid() && UniqueSessions(a.db.users)
    ensures a.db.users == old(a.db.users)[userId - 1 := old(a.db.users)[userId - 1].(sessionId := None)]
    ensures found.None? && found == a.GetUserFromSessionId(Some(token))
  {
    ghost var before := a.db.users;
    a.DestroySession(userId);
    DestroyedSessionIsGone(before, a.db.users, userId - 1, token);
    found := a.GetUserFromSessionId(Some(token));
  }

  /** A client registers and logs in but holds no session yet; a request
      that carries no session cookie is then taken for that client. */
  method NoCookieScenario(bcrypt: Bcrypt, salt: Bytes)
    requires Sound(bcrypt)
  {
    var auth := new Auth(bcrypt);
    var registered := auth.RegisterUser("a@x.com", "pw1", salt);
    assert auth.db.users == [registered.value];
    LoginAfterRegister(auth, "a@x.com", "pw1", salt, 0);
    assert auth.ValidLogin("a@x.com", "pw1");
    MissingTokenFindsSessionless(auth, 0);
    assert auth.GetUserFromSessionId(None) == Some(registered.value);
    assert auth.GetUserFromSessionIdGuarded(None) == None;
  }
}
