/**
 * The user table of the user authentication service (`DB` over the `users`
 * table): `add_user`, `find_user_by` and `update_user`.
 *
 * The SQL engine is replaced by a map from a row key to the row's record.
 * Row keys play the part of the ORM objects' identities: `find_user_by`
 * hands back the row it found, and callers read that row's columns, as the
 * Python code reads the attributes of the `User` object it got back.
 * Column values are dynamically typed, as keyword arguments are in Python.
 */
module UserDb {
  import opened Wrappers
  import opened Passwords

  type RowId = nat

  /** A column value: an integer, a string, a bcrypt digest (bytes) or NULL. */
  datatype Value = Int(i: int) | Str(s: string) | Digest(h: Hash) | Null

  /** The mapped columns of `User`. */
  datatype Column = Id | Email | HashedPassword | SessionId | ResetToken

  datatype User = User(id: Value, email: Value, hashedPassword: Value, sessionId: Value, resetToken: Value)

  /** One keyword argument `name=value` of `find_user_by` or `update_user`. */
  datatype Keyword = Keyword(name: string, value: Value)

  /** The exceptions the table raises. */
  datatype Error = NoResultFound | MultipleResultsFound | InvalidRequestError | ValueError(message: string)

  function ColumnName(c: Column): string
  {
    match c
    case Id => "id"
    case Email => "email"
    case HashedPassword => "hashed_password"
    case SessionId => "session_id"
    case ResetToken => "reset_token"
  }

  /** The column an attribute name denotes, if `User` has such an attribute. */
  function ColumnNamed(name: string): (c: Option<Column>)
    ensures c.Some? ==> ColumnName(c.value) == name
    ensures c.None? ==> forall d: Column :: ColumnName(d) != name
  {
    if name == "id" then Some(Id)
    else if name == "email" then Some(Email)
    else if name == "hashed_password" then Some(HashedPassword)
    else if name == "session_id" then Some(SessionId)
    else if name == "reset_token" then Some(ResetToken)
    else None
  }

  lemma ColumnNameRoundTrip(c: Column)
    ensures ColumnNamed(ColumnName(c)) == Some(c)
  {
  }

  /** `getattr(user, column)`. */
  function Get(u: User, c: Column): Value
  {
    match c
    case Id => u.id
    case Email => u.email
    case HashedPassword => u.hashedPassword
    case SessionId => u.sessionId
    case ResetToken => u.resetToken
  }

  /** `setattr(user, column, v)`: that column becomes `v`, every other keeps its value. */
  function Set(u: User, c: Column, v: Value): (u': User)
    ensures Get(u', c) == v
    ensures forall d :: d != c ==> Get(u', d) == Get(u, d)
  {
    match c
    case Id => u.(id := v)
    case Email => u.(email := v)
    case HashedPassword => u.(hashedPassword := v)
    case SessionId => u.(sessionId := v)
    case ResetToken => u.(resetToken := v)
  }

  /** Every keyword names a column of `User`. */
  predicate AllNamed(kws: seq<Keyword>)
  {
    forall i :: 0 <= i < |kws| ==> ColumnNamed(kws[i].name).Some?
  }

  /** The keyword names a column and the record holds its value there. */
  predicate KeywordHolds(u: User, kw: Keyword)
  {
    match ColumnNamed(kw.name)
    case Some(c) => Get(u, c) == kw.value
    case None => false
  }

  /** The record agrees with every keyword (`filter_by` is a conjunction of equalities). */
  predicate Matches(u: User, kws: seq<Keyword>)
  {
    forall i :: 0 <= i < |kws| ==> KeywordHolds(u, kws[i])
  }

  function Matching(rows: map<RowId, User>, kws: seq<Keyword>): set<RowId>
  {
    set k | k in rows && Matches(rows[k], kws)
  }

  lemma SingletonMember(s: set<RowId>, a: RowId, b: RowId)
    requires |s| == 1 && a in s && b in s
    ensures a == b
  {
    var t := s - {a};
    assert s == t + {a};
    assert |t| == 0;
    assert b !in t;
  }

  /**
   * `query(User).filter_by(**kws).one()`: an unknown attribute name is an
   * InvalidRequestError, no match is NoResultFound, more than one match is
   * MultipleResultsFound, and otherwise the one matching row is returned.
   */
  ghost function FindSpec(rows: map<RowId, User>, kws: seq<Keyword>): (r: Result<RowId, Error>)
    ensures r == Failure(InvalidRequestError) <==> !AllNamed(kws)
    ensures r == Failure(NoResultFound) <==>
              AllNamed(kws) && forall k | k in rows :: !Matches(rows[k], kws)
    ensures r.Success? ==>
              r.value in rows && Matches(rows[r.value], kws) &&
              forall k | k in rows && Matches(rows[k], kws) :: k == r.value
    ensures r == Failure(MultipleResultsFound) ==>
              exists j, k :: j in rows && k in rows && j != k && Matches(rows[j], kws) && Matches(rows[k], kws)
    ensures !r.Failure? || r.error in {InvalidRequestError, NoResultFound, MultipleResultsFound}
  {
    if !AllNamed(kws) then Failure(InvalidRequestError)
    else
      var s := Matching(rows, kws);
      if |s| == 0 then
        assert forall k | k in rows :: !Matches(rows[k], kws) by {
          forall k | k in rows ensures !Matches(rows[k], kws) {
            assert k !in s;
          }
        }
        Failure(NoResultFound)
      else if |s| == 1 then
        var k :| k in s;
        assert forall j | j in rows && Matches(rows[j], kws) :: j == k by {
          forall j | j in rows && Matches(rows[j], kws) ensures j == k {
            assert j in s;
            SingletonMember(s, j, k);
          }
        }
        Success(k)
      else
        var j :| j in s;
        assert s == (s - {j}) + {j};
        var k :| k in s - {j};
        Failure(MultipleResultsFound)
  }

  /**
   * The effect of the `setattr` loop of `update_user` on one record: the
   * keywords are applied one at a time, in order; the first name that is not
   * an attribute raises ValueError, and what was already set stays set.
   */
  function ApplyChanges(u: User, kws: seq<Keyword>): (User, Option<Error>)
    decreases |kws|
  {
    if kws == [] then (u, None)
    else match ColumnNamed(kws[0].name)
      case None => (u, Some(ValueError("")))
      case Some(c) => ApplyChanges(Set(u, c, kws[0].value), kws[1..])
  }

  /**
   * With valid names, `update_user` sets exactly the named attributes: each
   * named column takes the value of the LAST keyword naming it, and every
   * column no keyword names keeps its value.
   */
  lemma {:induction false} ApplyChangesSetsNamedColumns(u: User, kws: seq<Keyword>)
    requires AllNamed(kws)
    ensures ApplyChanges(u, kws).1 == None
    ensures forall c :: (forall j :: 0 <= j < |kws| ==> ColumnNamed(kws[j].name) != Some(c)) ==>
              Get(ApplyChanges(u, kws).0, c) == Get(u, c)
    ensures forall j :: 0 <= j < |kws| && (forall k :: j < k < |kws| ==> kws[k].name != kws[j].name) ==>
              Get(ApplyChanges(u, kws).0, ColumnNamed(kws[j].name).value) == kws[j].value
    decreases |kws|
  {
    if kws != [] {
      var c0 := ColumnNamed(kws[0].name).value;
      var u0 := Set(u, c0, kws[0].value);
      var rest := kws[1..];
      assert AllNamed(rest) by {
        forall i | 0 <= i < |rest| ensures ColumnNamed(rest[i].name).Some? {
          assert rest[i] == kws[i + 1];
        }
      }
      ApplyChangesSetsNamedColumns(u0, rest);
      assert ApplyChanges(u, kws) == ApplyChanges(u0, rest);
      forall c | forall j :: 0 <= j < |kws| ==> ColumnNamed(kws[j].name) != Some(c)
        ensures Get(ApplyChanges(u, kws).0, c) == Get(u, c)
      {
        assert ColumnNamed(kws[0].name) != Some(c);
        forall j | 0 <= j < |rest| ensures ColumnNamed(rest[j].name) != Some(c) {
          assert rest[j] == kws[j + 1];
        }
      }
      forall j | 0 <= j < |kws| && (forall k :: j < k < |kws| ==> kws[k].name != kws[j].name)
        ensures Get(ApplyChanges(u, kws).0, ColumnNamed(kws[j].name).value) == kws[j].value
      {
        if j == 0 {
          forall i | 0 <= i < |rest| ensures ColumnNamed(rest[i].name) != Some(c0) {
            assert rest[i] == kws[i + 1];
            assert kws[i + 1].name != kws[0].name;
            assert ColumnName(c0) == kws[0].name;
          }
        } else {
          assert kws[j] == rest[j - 1];
          forall k | j - 1 < k < |rest| ensures rest[k].name != rest[j - 1].name {
            assert rest[k] == kws[k + 1];
          }
        }
      }
    }
  }

  /**
   * Keys are checked one at a time, in order: the first name that is not an
   * attribute raises ValueError, after the keywords before it were applied.
   */
  lemma {:induction false} ApplyChangesStopsAtUnknownName(u: User, kws: seq<Keyword>, p: nat)
    requires p < |kws| && ColumnNamed(kws[p].name).None?
    requires AllNamed(kws[..p])
    ensures ApplyChanges(u, kws) == (ApplyChanges(u, kws[..p]).0, Some(ValueError("")))
    decreases p
  {
    if p == 0 {
    } else {
      var c0 := ColumnNamed(kws[0].name).value;
      assert kws[..p][0] == kws[0];
      var u0 := Set(u, c0, kws[0].value);
      var init := kws[1..][..p - 1];
      assert AllNamed(init) by {
        forall i | 0 <= i < p - 1 ensures ColumnNamed(init[i].name).Some? {
          assert init[i] == kws[..p][i + 1];
        }
      }
      assert init == kws[..p][1..];
      assert kws[1..][p - 1] == kws[p];
      ApplyChangesStopsAtUnknownName(u0, kws[1..], p - 1);
      assert ApplyChanges(u, kws[..p]) == ApplyChanges(u0, init);
    }
  }

  /** Some row has an integer id. */
  ghost predicate HasIntId(rows: map<RowId, User>)
  {
    exists k | k in rows :: rows[k].id.Int?
  }

  /**
   * `n` is the id SQLite gives the next inserted row of an INTEGER PRIMARY
   * KEY column: one more than the largest integer id in the table, negative
   * ones included, or 1 when there is none. Ids that are not integers are
   * not counted.
   */
  ghost predicate IsNextId(rows: map<RowId, User>, n: int)
  {
    && (forall k | k in rows && rows[k].id.Int? :: rows[k].id.i < n)
    && (if HasIntId(rows) then exists k | k in rows :: rows[k].id == Int(n - 1) else n == 1)
  }

  /** There is at most one next id. */
  lemma NextIdUnique(rows: map<RowId, User>, n: int, m: int)
    requires IsNextId(rows, n) && IsNextId(rows, m)
    ensures n == m
  {
    if HasIntId(rows) {
      var j :| j in rows && rows[j].id == Int(n - 1);
      var k :| k in rows && rows[k].id == Int(m - 1);
      assert rows[j].id.i < m && rows[k].id.i < n;
    }
  }

  /** In a one-row table whose id is an integer `i`, negative or not, the next id is `i + 1`. */
  lemma OneRowNextId(k: RowId, u: User, i: int)
    requires u.id == Int(i)
    ensures IsNextId(map[k := u], i + 1)
  {
    assert map[k := u][k].id == Int(i);
  }

  /**
   * The table behind `DB`. The map key is the identity of the ORM object
   * that holds the row, handed out 1, 2, ... in insertion order; the `id`
   * column is a value like any other, which `update_user` may rewrite.
   */
  class DB {
    var users: map<RowId, User>
    var nextRow: RowId

    ghost predicate Valid()
      reads this
    {
      1 <= nextRow && forall k :: k in users <==> 1 <= k < nextRow
    }

    /** `DB()` drops and recreates the tables: the table starts empty. */
    constructor ()
      ensures Valid()
      ensures users == map[] && nextRow == 1
    {
      users := map[];
      nextRow := 1;
    }

    /** The id SQLite assigns to the next inserted row. */
    method NextId() returns (n: int)
      ensures IsNextId(users, n)
    {
      n := 1;
      var seen := false;
      var left := users.Keys;
      while left != {}
        invariant left <= users.Keys
        invariant forall k | k in users && k !in left && users[k].id.Int? :: seen && users[k].id.i < n
        invariant seen ==> exists k | k in users :: users[k].id == Int(n - 1)
        invariant !seen ==> n == 1
        decreases left
      {
        var k :| k in left;
        if users[k].id.Int? && (!seen || users[k].id.i >= n) {
          n := users[k].id.i + 1;
          seen := true;
        }
        left := left - {k};
      }
    }

    /**
     * `add_user(email, hashed_password)`: inserts one row whose id is the
     * next id SQLite assigns, with NULL session and reset token, and
     * returns it; the other rows are kept.
     */
    method AddUser(email: string, hashedPassword: Hash) returns (u: User)
      requires Valid()
      modifies this
      ensures Valid()
      ensures old(nextRow) !in old(users)
      ensures u.id.Int? && IsNextId(old(users), u.id.i)
      ensures u == User(u.id, Str(email), Digest(hashedPassword), Null, Null)
      ensures users == old(users)[old(nextRow) := u] && nextRow == old(nextRow) + 1
    {
      var id := NextId();
      u := User(Int(id), Str(email), Digest(hashedPassword), Null, Null);
      users := users[nextRow := u];
      nextRow := nextRow + 1;
    }

    /** `find_user_by(**kws)`: the row `FindSpec` describes, or the exception it names. */
    method FindUserBy(kws: seq<Keyword>) returns (r: Result<RowId, Error>)
      ensures r == FindSpec(users, kws)
    {
      if !AllNamed(kws) {
        return Failure(InvalidRequestError);
      }
      var s := Matching(users, kws);
      if |s| == 0 {
        r := Failure(NoResultFound);
      } else if |s| == 1 {
        var k :| k in s;
        var spec := FindSpec(users, kws);
        SingletonMember(s, k, spec.value);
        r := Success(k);
      } else {
        r := Failure(MultipleResultsFound);
      }
    }

    /**
     * `update_user(user_id, **kws)`: finds the row by id (its exceptions
     * propagate), then sets the keywords one by one; the first name that
     * is not an attribute raises ValueError. No other row changes.
     */
    method UpdateUser(userId: Value, kws: seq<Keyword>) returns (raised: Option<Error>)
      requires Valid()
      modifies this
      ensures Valid() && nextRow == old(nextRow)
      ensures match FindSpec(old(users), [Keyword("id", userId)])
        case Failure(e) => raised == Some(e) && users == old(users)
        case Success(k) =>
          users == old(users)[k := ApplyChanges(old(users)[k], kws).0] &&
          raised == ApplyChanges(old(users)[k], kws).1
    {
      var found := FindUserBy([Keyword("id", userId)]);
      match found {
        case Failure(e) =>
          return Some(e);
        case Success(k) =>
          ghost var target := ApplyChanges(users[k], kws);
          var i := 0;
          while i < |kws|
            invariant 0 <= i <= |kws|
            invariant k in users && Valid() && nextRow == old(nextRow)
            invariant users == old(users)[k := users[k]]
            invariant ApplyChanges(users[k], kws[i..]) == target
          {
            var column := ColumnNamed(kws[i].name);
            if column.None? {
              return Some(ValueError(""));
            }
            users := users[k := Set(users[k], column.value, kws[i].value)];
            assert kws[i..][1..] == kws[i + 1..];
            i := i + 1;
          }
          raised := None;
      }
    }
  }

  /**
   * Ids come from the table, not from a counter: after the first user's id
   * is rewritten to 2, the next user added gets id 3, so the two ids stay
   * distinct.
   */
  method RenumberedIdScenario(email1: string, email2: string, h1: Hash, h2: Hash)
    returns (first: User, raised: Option<Error>, second: User)
    ensures first.id == Int(1) && raised == None && second.id == Int(3)
  {
    var db := new DB();
    first := db.AddUser(email1, h1);
    assert IsNextId(map[], 1);
    NextIdUnique(map[], first.id.i, 1);
    assert db.users == map[1 := first];
    assert Matching(db.users, [Keyword("id", Int(1))]) == {1};
    raised := db.UpdateUser(Int(1), [Keyword("id", Int(2))]);
    ghost var renumbered := first.(id := Int(2));
    assert db.users == map[1 := renumbered];
    second := db.AddUser(email2, h2);
    assert IsNextId(map[1 := renumbered], 3);
    NextIdUnique(map[1 := renumbered], second.id.i, 3);
  }
}
