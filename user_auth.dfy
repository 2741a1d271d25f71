/**
 * The user authentication service (`Auth` over `DB`): registration, login
 * check, sessions and password-reset tokens.
 *
 * `_hash_password` is `Passwords.HashPassword` with the salt as a parameter;
 * `_generate_uuid` is replaced by a token parameter that no user already
 * holds in the column it is written to.
 */
module UserAuth {
  import opened Wrappers
  import opened Passwords
  import opened UserDb

  function EmailIs(email: string): seq<Keyword> { [Keyword("email", Str(email))] }

  function IdIs(id: Value): seq<Keyword> { [Keyword("id", id)] }

  function SessionIdIs(sessionId: string): seq<Keyword> { [Keyword("session_id", Str(sessionId))] }

  function ResetTokenIs(token: Value): seq<Keyword> { [Keyword("reset_token", token)] }

  /** A non-NULL value of column `c` is held by at most one row. */
  ghost predicate UniqueIn(rows: map<RowId, User>, c: Column)
  {
    forall j, k | j in rows && k in rows && j != k && Get(rows[j], c) != Null :: Get(rows[j], c) != Get(rows[k], c)
  }

  /** The column types the service writes: an id equal to the row key, a string email, a digest, nullable tokens. */
  predicate WellTyped(k: RowId, u: User)
  {
    && u.id == Int(k)
    && u.email.Str?
    && u.hashedPassword.Digest?
    && (u.sessionId.Str? || u.sessionId.Null?)
    && (u.resetToken.Str? || u.resetToken.Null?)
  }

  /**
   * What the service keeps true of the table: every row well typed, and an
   * email, a session id or a reset token identifies at most one user.
   */
  ghost predicate WellFormed(rows: map<RowId, User>)
  {
    && (forall k | k in rows :: WellTyped(k, rows[k]))
    && UniqueIn(rows, Email)
    && UniqueIn(rows, SessionId)
    && UniqueIn(rows, ResetToken)
  }

  ghost predicate Registered(rows: map<RowId, User>, email: string)
  {
    exists k | k in rows :: rows[k].email == Str(email)
  }

  /** `bcrypt.checkpw` against a stored column value. */
  predicate CheckStored(password: string, stored: Value)
  {
    stored.Digest? && CheckPassword(password, stored.h)
  }

  /** What `valid_login` decides: some user has this email and the password checks against its hash. */
  ghost predicate LoginValid(rows: map<RowId, User>, email: string, password: string)
  {
    exists k | k in rows :: rows[k].email == Str(email) && CheckStored(password, rows[k].hashedPassword)
  }

  /** A one-keyword filter on column `c` matches exactly the records holding `v` there. */
  lemma MatchesOne(u: User, c: Column, v: Value)
    ensures Matches(u, [Keyword(ColumnName(c), v)]) <==> Get(u, c) == v
  {
    ColumnNameRoundTrip(c);
    var kws := [Keyword(ColumnName(c), v)];
    assert KeywordHolds(u, kws[0]) <==> Get(u, c) == v;
    assert forall i | 0 <= i < |kws| :: kws[i] == kws[0];
  }

  /**
   * Looking a row up by a column whose non-NULL values are unique finds the
   * row that holds the value, and raises NoResultFound when none does; it
   * never raises anything else.
   */
  lemma FindByUniqueColumn(rows: map<RowId, User>, c: Column, v: Value)
    requires UniqueIn(rows, c) && v != Null
    ensures FindSpec(rows, [Keyword(ColumnName(c), v)]) == Failure(NoResultFound) <==>
              forall k | k in rows :: Get(rows[k], c) != v
    ensures forall k | k in rows && Get(rows[k], c) == v :: FindSpec(rows, [Keyword(ColumnName(c), v)]) == Success(k)
    ensures FindSpec(rows, [Keyword(ColumnName(c), v)]).Success? || FindSpec(rows, [Keyword(ColumnName(c), v)]) == Failure(NoResultFound)
  {
    var kws := [Keyword(ColumnName(c), v)];
    ColumnNameRoundTrip(c);
    assert AllNamed(kws);
    forall k | k in rows ensures Matches(rows[k], kws) <==> Get(rows[k], c) == v {
      MatchesOne(rows[k], c, v);
    }
  }

  /** Ids are unique and equal to the row key, so `find_user_by(id=k)` finds row `k`. */
  lemma FindById(rows: map<RowId, User>, k: RowId)
    requires WellFormed(rows) && k in rows
    ensures FindSpec(rows, IdIs(Int(k))) == Success(k)
  {
    assert UniqueIn(rows, Id);
    FindByUniqueColumn(rows, Id, Int(k));
  }

  /** `find_user_by(id=i)` for an id no row has raises NoResultFound. */
  lemma FindByMissingId(rows: map<RowId, User>, i: int)
    requires WellFormed(rows) && i !in rows
    ensures FindSpec(rows, IdIs(Int(i))) == Failure(NoResultFound)
  {
    assert UniqueIn(rows, Id);
    FindByUniqueColumn(rows, Id, Int(i));
  }

  /**
   * In a table the service keeps, the id SQLite assigns next is the next
   * row key: ids equal keys, and the keys are 1 up to `next - 1`.
   */
  lemma NextIdIsNextRow(rows: map<RowId, User>, next: RowId, n: int)
    requires WellFormed(rows) && 1 <= next && forall k :: k in rows <==> 1 <= k < next
    requires IsNextId(rows, n)
    ensures n == next
  {
    assert forall k | k in rows && rows[k].id.Int? :: rows[k].id.i < next;
    if next > 1 {
      assert rows[next - 1].id == Int(next - 1);
    }
    assert IsNextId(rows, next);
    NextIdUnique(rows, n, next);
  }

  /** Adding a well-typed row with a new email and no tokens keeps the table well formed. */
  lemma AddKeepsWellFormed(rows: map<RowId, User>, k: RowId, u: User)
    requires WellFormed(rows) && k !in rows && WellTyped(k, u)
    requires u.sessionId == Null && u.resetToken == Null && !Registered(rows, u.email.s)
    ensures WellFormed(rows[k := u])
  {
  }

  /**
   * Changing column `c` of row `k` only, to its old value, to NULL or to a
   * value no row holds, keeps the non-NULL values of `c` unique.
   */
  lemma UniqueAfterSet(rows: map<RowId, User>, rows': map<RowId, User>, c: Column, k: RowId)
    requires UniqueIn(rows, c) && k in rows && rows'.Keys == rows.Keys
    requires forall j | j in rows && j != k :: Get(rows'[j], c) == Get(rows[j], c)
    requires || Get(rows'[k], c) == Get(rows[k], c)
             || Get(rows'[k], c) == Null
             || forall j | j in rows :: Get(rows[j], c) != Get(rows'[k], c)
    ensures UniqueIn(rows', c)
  {
    forall i, j | i in rows' && j in rows' && i != j && Get(rows'[i], c) != Null
      ensures Get(rows'[i], c) != Get(rows'[j], c)
    {
      if i != k && j != k {
        assert Get(rows[i], c) != Get(rows[j], c);
      }
    }
  }

  /** Giving one user a session id no one holds, or NULL, keeps the table well formed. */
  lemma SetSessionKeepsWellFormed(rows: map<RowId, User>, k: RowId, v: Value)
    requires WellFormed(rows) && k in rows
    requires v == Null || (v.Str? && forall j | j in rows :: rows[j].sessionId != v)
    ensures WellFormed(rows[k := rows[k].(sessionId := v)])
  {
    var rows' := rows[k := rows[k].(sessionId := v)];
    assert forall j | j in rows' :: WellTyped(j, rows'[j]);
    UniqueAfterSet(rows, rows', Email, k);
    UniqueAfterSet(rows, rows', ResetToken, k);
    UniqueAfterSet(rows, rows', SessionId, k);
  }

  /**
   * Setting a session token no one holds keeps the table well formed; the
   * token then finds that user, and the user's previous token finds no one.
   */
  lemma {:induction false} NewSessionReplacesOld(rows: map<RowId, User>, k: RowId, token: string)
    requires WellFormed(rows) && k in rows
    requires forall j | j in rows :: rows[j].sessionId != Str(token)
    ensures WellFormed(rows[k := rows[k].(sessionId := Str(token))])
    ensures FindSpec(rows[k := rows[k].(sessionId := Str(token))], SessionIdIs(token)) == Success(k)
    ensures rows[k].sessionId.Str? ==>
              FindSpec(rows[k := rows[k].(sessionId := Str(token))], SessionIdIs(rows[k].sessionId.s)) == Failure(NoResultFound)
  {
    var rows' := rows[k := rows[k].(sessionId := Str(token))];
    SetSessionKeepsWellFormed(rows, k, Str(token));
    FindByUniqueColumn(rows', SessionId, Str(token));
    if rows[k].sessionId.Str? {
      var old_ := rows[k].sessionId;
      assert forall j | j in rows' :: Get(rows'[j], SessionId) != old_;
      FindByUniqueColumn(rows', SessionId, old_);
    }
  }

  /** Clearing a session keeps the table well formed, and the cleared token finds no one. */
  lemma {:induction false} ClearedSessionIsGone(rows: map<RowId, User>, k: RowId)
    requires WellFormed(rows) && k in rows
    ensures WellFormed(rows[k := rows[k].(sessionId := Null)])
    ensures rows[k].sessionId.Str? ==>
              FindSpec(rows[k := rows[k].(sessionId := Null)], SessionIdIs(rows[k].sessionId.s)) == Failure(NoResultFound)
  {
    var rows' := rows[k := rows[k].(sessionId := Null)];
    SetSessionKeepsWellFormed(rows, k, Null);
    if rows[k].sessionId.Str? {
      var old_ := rows[k].sessionId;
      assert forall j | j in rows' :: Get(rows'[j], SessionId) != old_;
      FindByUniqueColumn(rows', SessionId, old_);
    }
  }

  /** Giving one user a reset token no one holds keeps the table well formed. */
  lemma SetResetTokenKeepsWellFormed(rows: map<RowId, User>, k: RowId, token: string)
    requires WellFormed(rows) && k in rows
    requires forall j | j in rows :: rows[j].resetToken != Str(token)
    ensures WellFormed(rows[k := rows[k].(resetToken := Str(token))])
  {
    var rows' := rows[k := rows[k].(resetToken := Str(token))];
    assert forall j | j in rows' :: WellTyped(j, rows'[j]);
    UniqueAfterSet(rows, rows', Email, k);
    UniqueAfterSet(rows, rows', SessionId, k);
    UniqueAfterSet(rows, rows', ResetToken, k);
  }

  /** Storing a reset token no one holds keeps the table well formed, and the token then finds that user. */
  lemma {:induction false} NewResetTokenFindsUser(rows: map<RowId, User>, k: RowId, token: string)
    requires WellFormed(rows) && k in rows
    requires forall j | j in rows :: rows[j].resetToken != Str(token)
    ensures WellFormed(rows[k := rows[k].(resetToken := Str(token))])
    ensures FindSpec(rows[k := rows[k].(resetToken := Str(token))], ResetTokenIs(Str(token))) == Success(k)
  {
    var rows' := rows[k := rows[k].(resetToken := Str(token))];
    SetResetTokenKeepsWellFormed(rows, k, token);
    FindByUniqueColumn(rows', ResetToken, Str(token));
  }

  /** The row after `update_password` consumed its reset token. */
  function Consumed(rows: map<RowId, User>, k: RowId, hashed: Hash): map<RowId, User>
    requires k in rows
  {
    rows[k := rows[k].(hashedPassword := Digest(hashed), resetToken := Null)]
  }

  /** Consuming a reset token (new hash, NULL token, in one update) keeps the table well formed. */
  lemma ConsumeKeepsWellFormed(rows: map<RowId, User>, k: RowId, hashed: Hash)
    requires WellFormed(rows) && k in rows
    ensures WellFormed(Consumed(rows, k, hashed))
  {
    var rows' := Consumed(rows, k, hashed);
    assert forall j | j in rows' :: WellTyped(j, rows'[j]);
    UniqueAfterSet(rows, rows', Email, k);
    UniqueAfterSet(rows, rows', SessionId, k);
    UniqueAfterSet(rows, rows', ResetToken, k);
  }

  /** After it is consumed, a reset token finds no one: a second use raises ValueError. */
  lemma {:induction false} ConsumedTokenIsGone(rows: map<RowId, User>, k: RowId, token: string, hashed: Hash)
    requires WellFormed(rows) && k in rows && rows[k].resetToken == Str(token)
    ensures FindSpec(Consumed(rows, k, hashed), ResetTokenIs(Str(token))) == Failure(NoResultFound)
  {
    var rows' := Consumed(rows, k, hashed);
    ConsumeKeepsWellFormed(rows, k, hashed);
    assert forall j | j in rows' :: Get(rows'[j], ResetToken) != Str(token) by {
      forall j | j in rows' ensures Get(rows'[j], ResetToken) != Str(token) {
        if j != k {
          assert Get(rows[j], ResetToken) != Get(rows[k], ResetToken);
        }
      }
    }
    FindByUniqueColumn(rows', ResetToken, Str(token));
  }

  /** After a password change, the new password logs that user in and no other password does. */
  lemma {:induction false} NewPasswordLogsIn(rows: map<RowId, User>, k: RowId, password: string, salt: nat)
    requires WellFormed(rows) && k in rows
    ensures LoginValid(Consumed(rows, k, HashPassword(password, salt)), rows[k].email.s, password)
    ensures forall other :: other != password ==>
              !LoginValid(Consumed(rows, k, HashPassword(password, salt)), rows[k].email.s, other)
  {
    var rows' := Consumed(rows, k, HashPassword(password, salt));
    ConsumeKeepsWellFormed(rows, k, HashPassword(password, salt));
    assert rows'[k].email == rows[k].email;
    LoginChecksStoredHash(rows', k, password);
    forall other | other != password
      ensures !LoginValid(rows', rows[k].email.s, other)
    {
      LoginChecksStoredHash(rows', k, other);
      CheckRejectsOtherPassword(password, other, salt);
    }
  }

  /** A registered user's login is decided by their stored hash alone. */
  lemma {:induction false} LoginChecksStoredHash(rows: map<RowId, User>, k: RowId, password: string)
    requires WellFormed(rows) && k in rows
    ensures LoginValid(rows, rows[k].email.s, password) <==> CheckStored(password, rows[k].hashedPassword)
  {
    if LoginValid(rows, rows[k].email.s, password) {
      var j :| j in rows && rows[j].email == Str(rows[k].email.s) && CheckStored(password, rows[j].hashedPassword);
      assert Get(rows[j], Email) == Get(rows[k], Email);
    }
  }

  lemma ApplySessionId(u: User, v: Value)
    ensures ApplyChanges(u, [Keyword("session_id", v)]) == (u.(sessionId := v), None)
  {
    assert [Keyword("session_id", v)][1..] == [];
  }

  lemma ApplyResetToken(u: User, v: Value)
    ensures ApplyChanges(u, [Keyword("reset_token", v)]) == (u.(resetToken := v), None)
  {
    assert [Keyword("reset_token", v)][1..] == [];
  }

  lemma ApplyNewPassword(u: User, hashed: Hash)
    ensures ApplyChanges(u, [Keyword("hashed_password", Digest(hashed)), Keyword("reset_token", Null)])
            == (u.(hashedPassword := Digest(hashed), resetToken := Null), None)
  {
    var kws := [Keyword("hashed_password", Digest(hashed)), Keyword("reset_token", Null)];
    assert kws[1..] == [Keyword("reset_token", Null)];
    ApplyResetToken(u.(hashedPassword := Digest(hashed)), Null);
  }

  class Auth {
    const db: DB

    ghost predicate Valid()
      reads this, db
    {
      db.Valid() && WellFormed(db.users)
    }

    /** `Auth()` opens a fresh, empty user table. */
    constructor ()
      ensures Valid() && fresh(db)
      ensures db.users == map[] && db.nextRow == 1
    {
      db := new DB();
    }

    /**
     * `register_user(email, password)`: an email already in the table raises
     * ValueError and adds nothing; otherwise exactly one user is added, with
     * that email, a hash of the password and no tokens, and returned.
     */
    method RegisterUser(email: string, password: string, salt: nat) returns (r: Result<User, Error>)
      requires Valid()
      modifies db
      ensures Valid()
      ensures Registered(old(db.users), email) ==>
                && r == Failure(ValueError("User " + email + " already exists"))
                && db.users == old(db.users) && db.nextRow == old(db.nextRow)
      ensures !Registered(old(db.users), email) ==>
                && r == Success(User(Int(old(db.nextRow)), Str(email), Digest(HashPassword(password, salt)), Null, Null))
                && old(db.nextRow) !in old(db.users)
                && db.users == old(db.users)[old(db.nextRow) := r.value]
    {
      var found := db.FindUserBy(EmailIs(email));
      FindByUniqueColumn(db.users, Email, Str(email));
      match found {
        case Success(_) =>
          r := Failure(ValueError("User " + email + " already exists"));
        case Failure(NoResultFound) =>
          var hashed := HashPassword(password, salt);
          ghost var rows := db.users;
          var u := db.AddUser(email, hashed);
          NextIdIsNextRow(rows, old(db.nextRow), u.id.i);
          AddKeepsWellFormed(rows, old(db.nextRow), u);
          r := Success(u);
        case Failure(_) =>
          assert false;
      }
    }

    /** `valid_login(email, password)`: false for an unknown email, else the hash check. */
    method ValidLogin(email: string, password: string) returns (ok: bool)
      requires Valid()
      ensures ok == LoginValid(db.users, email, password)
      ensures !Registered(db.users, email) ==> !ok
    {
      var found := db.FindUserBy(EmailIs(email));
      FindByUniqueColumn(db.users, Email, Str(email));
      match found {
        case Failure(NoResultFound) =>
          ok := false;
        case Success(k) =>
          var stored := db.users[k].hashedPassword;
          ok := CheckPassword(password, stored.h);
          LoginChecksStoredHash(db.users, k, password);
        case Failure(_) =>
          assert false;
      }
    }

    /**
     * `create_session(email)`: None and no change for an unknown email;
     * otherwise that user's session id, and only it, becomes the new token,
     * replacing any earlier one, and the token is returned.
     */
    method CreateSession(email: string, sessionId: string) returns (r: Option<string>)
      requires Valid()
      requires forall k | k in db.users :: db.users[k].sessionId != Str(sessionId)
      modifies db
      ensures Valid() && db.nextRow == old(db.nextRow)
      ensures !Registered(old(db.users), email) ==> r == None && db.users == old(db.users)
      ensures forall k | k in old(db.users) && old(db.users)[k].email == Str(email) ::
                && r == Some(sessionId)
                && db.users == old(db.users)[k := old(db.users)[k].(sessionId := Str(sessionId))]
    {
      var found := db.FindUserBy(EmailIs(email));
      FindByUniqueColumn(db.users, Email, Str(email));
      match found {
        case Failure(NoResultFound) =>
          r := None;
        case Success(k) =>
          ghost var rows := db.users;
          FindById(rows, k);
          NewSessionReplacesOld(rows, k, sessionId);
          ApplySessionId(rows[k], Str(sessionId));
          var raised := db.UpdateUser(db.users[k].id, [Keyword("session_id", Str(sessionId))]);
          assert raised == None;
          r := Some(sessionId);
        case Failure(_) =>
          assert false;
      }
    }

    /**
     * `get_user_from_session_id(session_id)`: None for a None id or one no
     * user holds, otherwise the user holding it.
     */
    method GetUserFromSessionId(sessionId: Option<string>) returns (u: Option<User>)
      requires Valid()
      ensures sessionId.None? ==> u == None
      ensures sessionId.Some? && (forall k | k in db.users :: db.users[k].sessionId != Str(sessionId.value)) ==> u == None
      ensures forall k | k in db.users && sessionId.Some? && db.users[k].sessionId == Str(sessionId.value) ::
                u == Some(db.users[k])
    {
      if sessionId.None? {
        return None;
      }
      var found := db.FindUserBy(SessionIdIs(sessionId.value));
      FindByUniqueColumn(db.users, SessionId, Str(sessionId.value));
      match found {
        case Failure(NoResultFound) =>
          u := None;
        case Success(k) =>
          u := Some(db.users[k]);
        case Failure(_) =>
          assert false;
      }
    }

    /**
     * `destroy_session(user_id)`: nothing for None; otherwise that user's
     * session id becomes NULL and nothing else changes. An id no user has
     * makes `update_user` raise NoResultFound.
     */
    method DestroySession(userId: Option<int>) returns (raised: Option<Error>)
      requires Valid()
      modifies db
      ensures Valid() && db.nextRow == old(db.nextRow)
      ensures userId.None? ==> raised == None && db.users == old(db.users)
      ensures userId.Some? && userId.value !in old(db.users) ==>
                raised == Some(NoResultFound) && db.users == old(db.users)
      ensures userId.Some? && userId.value in old(db.users) ==>
                && raised == None
                && db.users == old(db.users)[userId.value := old(db.users)[userId.value].(sessionId := Null)]
    {
      if userId.None? {
        return None;
      }
      ghost var rows := db.users;
      if userId.value in rows {
        FindById(rows, userId.value);
        ClearedSessionIsGone(rows, userId.value);
        ApplySessionId(rows[userId.value], Null);
      } else {
        FindByMissingId(rows, userId.value);
      }
      raised := db.UpdateUser(Int(userId.value), [Keyword("session_id", Null)]);
    }

    /**
     * `get_reset_password_token(email)`: ValueError for an unknown email;
     * otherwise the new token is stored as that user's reset token and returned.
     */
    method GetResetPasswordToken(email: string, token: string) returns (r: Result<string, Error>)
      requires Valid()
      requires forall k | k in db.users :: db.users[k].resetToken != Str(token)
      modifies db
      ensures Valid() && db.nextRow == old(db.nextRow)
      ensures !Registered(old(db.users), email) ==>
                r == Failure(ValueError("User not found")) && db.users == old(db.users)
      ensures forall k | k in old(db.users) && old(db.users)[k].email == Str(email) ::
                && r == Success(token)
                && db.users == old(db.users)[k := old(db.users)[k].(resetToken := Str(token))]
    {
      var found := db.FindUserBy(EmailIs(email));
      FindByUniqueColumn(db.users, Email, Str(email));
      match found {
        case Failure(NoResultFound) =>
          r := Failure(ValueError("User not found"));
        case Success(k) =>
          ghost var rows := db.users;
          FindById(rows, k);
          NewResetTokenFindsUser(rows, k, token);
          ApplyResetToken(rows[k], Str(token));
          var raised := db.UpdateUser(db.users[k].id, [Keyword("reset_token", Str(token))]);
          assert raised == None;
          r := Success(token);
        case Failure(_) =>
          assert false;
      }
    }

    /**
     * `update_password(reset_token, password)`: a token no user holds raises
     * ValueError and changes nothing; otherwise one update sets that user's
     * hash to a hash of the new password and its reset token to NULL.
     * A None token filters on `reset_token IS NULL`.
     */
    method UpdatePassword(resetToken: Option<string>, password: string, salt: nat) returns (raised: Option<Error>)
      requires Valid()
      modifies db
      ensures Valid() && db.nextRow == old(db.nextRow)
      ensures resetToken.Some? && (forall k | k in old(db.users) :: old(db.users)[k].resetToken != Str(resetToken.value)) ==>
                raised == Some(ValueError("Invalid reset token")) && db.users == old(db.users)
      ensures forall k | k in old(db.users) && resetToken.Some? && old(db.users)[k].resetToken == Str(resetToken.value) ::
                && raised == None
                && db.users == old(db.users)[k := old(db.users)[k].(hashedPassword := Digest(HashPassword(password, salt)), resetToken := Null)]
      ensures resetToken.None? ==>
                match FindSpec(old(db.users), ResetTokenIs(Null))
                case Success(k) =>
                  raised == None &&
                  db.users == old(db.users)[k := old(db.users)[k].(hashedPassword := Digest(HashPassword(password, salt)), resetToken := Null)]
                case Failure(NoResultFound) =>
                  raised == Some(ValueError("Invalid reset token")) && db.users == old(db.users)
                case Failure(e) =>
                  raised == Some(e) && db.users == old(db.users)
    {
      var token := if resetToken.Some? then Str(resetToken.value) else Null;
      var found := db.FindUserBy(ResetTokenIs(token));
      if resetToken.Some? {
        FindByUniqueColumn(db.users, ResetToken, token);
      }
      match found {
        case Failure(NoResultFound) =>
          raised := Some(ValueError("Invalid reset token"));
        case Failure(e) =>
          raised := Some(e);
        case Success(k) =>
          raised := Consume(k, HashPassword(password, salt));
      }
    }

    /**
     * The `update_user` call of `update_password`: looking the found user up
     * again by its id succeeds, and one update sets the hash and clears the
     * reset token of that row only.
     */
    method Consume(k: RowId, hashed: Hash) returns (raised: Option<Error>)
      requires Valid() && k in db.users
      modifies db
      ensures Valid() && db.nextRow == old(db.nextRow)
      ensures raised == None && db.users == Consumed(old(db.users), k, hashed)
    {
      ghost var rows := db.users;
      FindById(rows, k);
      ConsumeKeepsWellFormed(rows, k, hashed);
      ApplyNewPassword(rows[k], hashed);
      raised := db.UpdateUser(db.users[k].id, [Keyword("hashed_password", Digest(hashed)), Keyword("reset_token", Null)]);
    }
  }

  /**
   * The login half of the service's end-to-end flow: register, a duplicate
   * registration, a wrong and a right login, and a session that resolves
   * to the user until logout.
   */
  method LoginScenario(email: string, password: string, otherPassword: string, salt: nat, sessionToken: string)
    returns (duplicate: Result<User, Error>, wrongLogin: bool, login: bool, unlogged: Option<User>,
             profile: Option<User>, loggedOut: Option<User>)
    requires password != otherPassword
    ensures duplicate == Failure(ValueError("User " + email + " already exists"))
    ensures !wrongLogin && login && unlogged == None
    ensures profile.Some? && profile.value.email == Str(email) && loggedOut == None
  {
    var auth := new Auth();
    var registered := auth.RegisterUser(email, password, salt);
    var u := User(Int(1), Str(email), Digest(HashPassword(password, salt)), Null, Null);
    assert auth.db.users == map[1 := u];
    duplicate := auth.RegisterUser(email, password, salt);
    LoginChecksStoredHash(auth.db.users, 1, otherPassword);
    CheckRejectsOtherPassword(password, otherPassword, salt);
    wrongLogin := auth.ValidLogin(email, otherPassword);
    LoginChecksStoredHash(auth.db.users, 1, password);
    login := auth.ValidLogin(email, password);
    unlogged := auth.GetUserFromSessionId(None);
    var session := auth.CreateSession(email, sessionToken);
    assert auth.db.users == map[1 := u.(sessionId := Str(sessionToken))];
    profile := auth.GetUserFromSessionId(session);
    var logout := auth.DestroySession(Some(profile.value.id.i));
    assert auth.db.users == map[1 := u];
    loggedOut := auth.GetUserFromSessionId(session);
  }

  /**
   * The reset half of the service's end-to-end flow: a reset token changes
   * the password once; afterwards the new password logs in, the old one
   * does not, and the same token is refused.
   */
  method ResetScenario(email: string, password: string, newPassword: string, salt1: nat, salt2: nat, resetToken: string)
    returns (newLogin: bool, oldLogin: bool, reuse: Option<Error>)
    requires password != newPassword
    ensures newLogin && !oldLogin
    ensures reuse == Some(ValueError("Invalid reset token"))
  {
    var auth := new Auth();
    var registered := auth.RegisterUser(email, password, salt1);
    var u := User(Int(1), Str(email), Digest(HashPassword(password, salt1)), Null, Null);
    assert auth.db.users == map[1 := u];
    var token := auth.GetResetPasswordToken(email, resetToken);
    assert auth.db.users == map[1 := u.(resetToken := Str(resetToken))];
    var updated := auth.UpdatePassword(Some(token.value), newPassword, salt2);
    ghost var rows := auth.db.users;
    assert rows == map[1 := u.(hashedPassword := Digest(HashPassword(newPassword, salt2)))];
    LoginChecksStoredHash(rows, 1, newPassword);
    newLogin := auth.ValidLogin(email, newPassword);
    LoginChecksStoredHash(rows, 1, password);
    CheckRejectsOtherPassword(newPassword, password, salt2);
    oldLogin := auth.ValidLogin(email, password);
    reuse := auth.UpdatePassword(Some(token.value), newPassword, salt2);
  }
}
