/** The user table behind the authentication service (`DatabaseHandler`):
    rows in insertion order, added one at a time, looked up by a conjunction
    of column equalities, and overwritten column by column. The SQL engine
    is modelled by what it does to the rows: a statement that fails leaves
    them as they were. */
module Database {
  import opened Wrappers
  import opened UserModel

  /** The exceptions the handler raises. */
  datatype DbError =
    | InvalidRequest(name: string)  // a filter names no column
    | NoResultFound                 // no row satisfies the filters
    | ValueError(name: string)      // an update names no column
    | IntegrityError                // a statement violates a column or key constraint

  /** The primary key: no two rows share an id. */
  ghost predicate DistinctIds(users: seq<User>)
  {
    forall i, j :: 0 <= i < j < |users| ==> users[i].id != users[j].id
  }

  /** The names of keyword arguments resolved to columns, in order; the
      first name that is not a column is the error. */
  function Resolve(pairs: seq<(string, Value)>): (r: Result<seq<Column>, string>)
    ensures r.Success? <==> forall k :: 0 <= k < |pairs| ==> ColumnOf(pairs[k].0).Some?
    ensures r.Success? ==> |r.value| == |pairs|
    ensures r.Success? ==> forall k :: 0 <= k < |pairs| ==> ColumnOf(pairs[k].0) == Some(r.value[k])
  {
    if pairs == [] then Success([])
    else
      var init := pairs[..|pairs| - 1];
      var last := pairs[|pairs| - 1];
      match Resolve(init)
      case Failure(name) => Failure(name)
      case Success(cols) =>
        match ColumnOf(last.0)
        case None =>
          assert forall j :: 0 <= j < |pairs| - 1 ==> ColumnOf(pairs[j].0).Some? by {
            forall j | 0 <= j < |pairs| - 1 ensures ColumnOf(pairs[j].0).Some? {
              assert init[j] == pairs[j];
            }
          }
          Failure(last.0)
        case Some(c) =>
          assert forall k :: 0 <= k < |pairs| - 1 ==> init[k] == pairs[k];
          Success(cols + [c])
  }

  /** A failure names the first argument whose name is not a column. */
  lemma {:induction false} ResolveFailure(pairs: seq<(string, Value)>)
    requires Resolve(pairs).Failure?
    ensures exists k :: (0 <= k < |pairs| && pairs[k].0 == Resolve(pairs).error && ColumnOf(pairs[k].0).None?
                         && forall j :: 0 <= j < k ==> ColumnOf(pairs[j].0).Some?)
  {
    var init := pairs[..|pairs| - 1];
    assert forall k :: 0 <= k < |init| ==> init[k] == pairs[k];
    if Resolve(init).Failure? {
      ResolveFailure(init);
      var k :| 0 <= k < |init| && init[k].0 == Resolve(init).error && ColumnOf(init[k].0).None?
        && (forall j :: 0 <= j < k ==> ColumnOf(init[j].0).Some?);
      assert pairs[k].0 == Resolve(pairs).error;
    } else {
      assert ColumnOf(pairs[|pairs| - 1].0).None?;
    }
  }

  /** Once a name fails to resolve, every longer list of arguments fails on
      that name. */
  lemma {:induction false} ResolveFailsAt(pairs: seq<(string, Value)>, i: nat, n: nat)
    requires i < n <= |pairs|
    requires Resolve(pairs[..i]).Success? && ColumnOf(pairs[i].0).None?
    ensures Resolve(pairs[..n]) == Failure(pairs[i].0)
  {
    var p := pairs[..n];
    assert p[|p| - 1] == pairs[n - 1];
    if n == i + 1 {
      assert p[..|p| - 1] == pairs[..i];
    } else {
      ResolveFailsAt(pairs, i, n - 1);
      assert p[..|p| - 1] == pairs[..n - 1];
    }
  }

  /** One more argument whose name resolves: its column and value are
      appended, and the update map gains that entry. */
  lemma ResolveStep(pairs: seq<(string, Value)>, i: nat)
    requires i < |pairs| && Resolve(pairs[..i]).Success? && ColumnOf(pairs[i].0).Some?
    ensures Resolve(pairs[..i + 1]) == Success(Resolve(pairs[..i]).value + [ColumnOf(pairs[i].0).value])
    ensures Values(pairs[..i + 1]) == Values(pairs[..i]) + [pairs[i].1]
  {
    assert pairs[..i + 1][..i] == pairs[..i];
  }

  /** The update map after one more resolved argument gains that entry. */
  lemma AssignStep(pairs: seq<(string, Value)>, i: nat)
    requires i < |pairs| && Resolve(pairs[..i]).Success? && ColumnOf(pairs[i].0).Some?
    ensures Resolve(pairs[..i + 1]).Success?
    ensures Assign(Resolve(pairs[..i + 1]).value, Values(pairs[..i + 1]))
         == Assign(Resolve(pairs[..i]).value, Values(pairs[..i]))[ColumnOf(pairs[i].0).value := pairs[i].1]
  {
    ResolveStep(pairs, i);
    var cols := Resolve(pairs[..i]).value;
    var c := ColumnOf(pairs[i].0).value;
    assert (cols + [c])[..i] == cols;
    assert (Values(pairs[..i]) + [pairs[i].1])[..i] == Values(pairs[..i]);
  }

  /** The values of keyword arguments, in order. */
  function Values(pairs: seq<(string, Value)>): (r: seq<Value>)
    ensures |r| == |pairs|
    ensures forall k :: 0 <= k < |pairs| ==> r[k] == pairs[k].1
  {
    if pairs == [] then []
    else
      var init := pairs[..|pairs| - 1];
      assert forall k :: 0 <= k < |init| ==> init[k] == pairs[k];
      Values(init) + [pairs[|pairs| - 1].1]
  }

  /** SQL equality: NULL equals nothing, not even NULL. */
  predicate SqlEquals(stored: Value, given: Value)
  {
    stored != NullVal && stored == given
  }

  /** The row satisfies the conjunction `col_1 = val_1 AND ...`. */
  predicate Matches(u: User, cols: seq<Column>, vals: seq<Value>)
    requires |cols| == |vals|
  {
    forall k :: 0 <= k < |cols| ==> SqlEquals(Get(u, cols[k]), vals[k])
  }

  /** The position of the first row, in table order, that satisfies the
      conjunction (the query's `.first()`). */
  function FirstMatching(users: seq<User>, cols: seq<Column>, vals: seq<Value>): (r: Option<nat>)
    requires |cols| == |vals|
    ensures r.Some? ==> r.value < |users| && Matches(users[r.value], cols, vals)
    ensures r.Some? ==> forall j :: 0 <= j < r.value ==> !Matches(users[j], cols, vals)
    ensures r.None? ==> forall j :: 0 <= j < |users| ==> !Matches(users[j], cols, vals)
  {
    if users == [] then None
    else if Matches(users[0], cols, vals) then Some(0)
    else match FirstMatching(users[1..], cols, vals)
      case None => None
      case Some(i) => Some(i + 1)
  }

  /** What `find_user_by(**filters)` answers on a table: InvalidRequest for
      the first name that is no column, else the first row satisfying every
      filter, else NoResultFound. */
  function FindSpec(users: seq<User>, filters: seq<(string, Value)>): Result<User, DbError>
  {
    match Resolve(filters)
    case Failure(name) => Failure(InvalidRequest(name))
    case Success(cols) =>
      match FirstMatching(users, cols, Values(filters))
      case None => Failure(NoResultFound)
      case Some(i) => Success(users[i])
  }

  /** The map an update writes, built the way a dict is: a later entry for
      the same column replaces an earlier one. */
  function Assign(cols: seq<Column>, vals: seq<Value>): (r: map<Column, Value>)
    requires |cols| == |vals|
    ensures forall c :: c in r <==> c in cols
  {
    if cols == [] then map[]
    else
      var n := |cols| - 1;
      SplitLast(cols);
      Assign(cols[..n], vals[..n])[cols[n] := vals[n]]
  }

  lemma SplitLast(cols: seq<Column>)
    requires cols != []
    ensures forall c :: c in cols <==> c in cols[..|cols| - 1] || c == cols[|cols| - 1]
  {
    assert cols == cols[..|cols| - 1] + [cols[|cols| - 1]];
  }

  /** The entry of the map for a column is the value of the last entry that
      names it. */
  lemma {:induction false} AssignLast(cols: seq<Column>, vals: seq<Value>, k: nat)
    requires |cols| == |vals| && k < |cols| && LastOf(cols, k)
    ensures cols[k] in Assign(cols, vals) && Assign(cols, vals)[cols[k]] == vals[k]
  {
    var n := |cols| - 1;
    if k < n {
      assert cols[n] != cols[k];
      assert LastOf(cols[..n], k) by {
        forall j | k < j < n ensures cols[..n][j] != cols[..n][k] {
          assert cols[j] != cols[k];
        }
      }
      AssignLast(cols[..n], vals[..n], k);
      assert cols[..n][k] == cols[k] && vals[..n][k] == vals[k];
    }
  }

  /** No later entry of `cols` names the same column as entry `k`. */
  predicate LastOf(cols: seq<Column>, k: nat)
    requires k < |cols|
  {
    forall j :: k < j < |cols| ==> cols[j] != cols[k]
  }

  /** The columns and values an update writes, once every name resolves. */
  function Changes(updates: seq<(string, Value)>): (r: map<Column, Value>)
    requires Resolve(updates).Success?
    ensures forall c :: c in r <==> exists k :: 0 <= k < |updates| && ColumnOf(updates[k].0) == Some(c)
    ensures forall k :: 0 <= k < |updates| && LastNamed(updates, k) ==> r[ColumnOf(updates[k].0).value] == updates[k].1
  {
    var cols := Resolve(updates).value;
    ResolvedColumns(updates);
    ChangesLast(updates);
    Assign(cols, Values(updates))
  }

  lemma ChangesLast(updates: seq<(string, Value)>)
    requires Resolve(updates).Success?
    ensures var cols := Resolve(updates).value;
      forall k :: 0 <= k < |updates| && LastNamed(updates, k) ==>
        cols[k] == ColumnOf(updates[k].0).value && Assign(cols, Values(updates))[cols[k]] == updates[k].1
  {
    var cols := Resolve(updates).value;
    LastNamedIsLastOf(updates);
    forall k | 0 <= k < |updates| && LastNamed(updates, k)
      ensures cols[k] == ColumnOf(updates[k].0).value && Assign(cols, Values(updates))[cols[k]] == updates[k].1
    {
      AssignLast(cols, Values(updates), k);
    }
  }

  lemma ResolvedColumns(updates: seq<(string, Value)>)
    requires Resolve(updates).Success?
    ensures forall c :: c in Resolve(updates).value <==>
      exists k :: 0 <= k < |updates| && ColumnOf(updates[k].0) == Some(c)
  {
    var cols := Resolve(updates).value;
    forall c | c in cols ensures exists k :: 0 <= k < |updates| && ColumnOf(updates[k].0) == Some(c) {
      var k :| 0 <= k < |cols| && cols[k] == c;
      assert ColumnOf(updates[k].0) == Some(c);
    }
    forall c | exists k :: 0 <= k < |updates| && ColumnOf(updates[k].0) == Some(c) ensures c in cols {
      var k :| 0 <= k < |updates| && ColumnOf(updates[k].0) == Some(c);
      assert cols[k] == c;
    }
  }

  lemma LastNamedIsLastOf(updates: seq<(string, Value)>)
    requires Resolve(updates).Success?
    ensures forall k :: 0 <= k < |updates| && LastNamed(updates, k) ==> LastOf(Resolve(updates).value, k)
  {
    var cols := Resolve(updates).value;
    forall k | 0 <= k < |updates| && LastNamed(updates, k) ensures LastOf(cols, k) {
      forall j | k < j < |cols| ensures cols[j] != cols[k] {
        assert ColumnOf(updates[j].0) != ColumnOf(updates[k].0);
      }
    }
  }

  /** No later argument names the same column as argument `k`. */
  predicate LastNamed(updates: seq<(string, Value)>, k: nat)
    requires k < |updates|
  {
    forall j :: k < j < |updates| ==> ColumnOf(updates[j].0) != ColumnOf(updates[k].0)
  }

  /** Whether the UPDATE of the rows with id `userId` succeeds:
      every value fits its column, and a new id is taken by no other row. */
  predicate Admissible(users: seq<User>, userId: int, data: map<Column, Value>)
  {
    WellTyped(data)
    && (Id in data ==> data[Id].IntVal? && forall k :: 0 <= k < |users| && users[k].id != userId ==> users[k].id != data[Id].i)
  }

  /** The table after `UPDATE users SET ... WHERE id = userId`. */
  function UpdateRows(users: seq<User>, userId: int, data: map<Column, Value>): (r: seq<User>)
    requires WellTyped(data)
    ensures |r| == |users|
    ensures forall k, c :: 0 <= k < |users| ==>
              Get(r[k], c) == if users[k].id == userId && c in data then data[c] else Get(users[k], c)
  {
    var rows := seq(|users|, k requires 0 <= k < |users| => if users[k].id == userId then Apply(users[k], data) else users[k]);
    assert forall k :: 0 <= k < |users| && users[k].id == userId ==> rows[k] == Apply(users[k], data);
    rows
  }

  /** What `update_user(user_id, **updates)` answers and leaves in the
      table: NoResultFound when no row has the id (checked first), then
      ValueError for the first name that is no column, then IntegrityError
      when the UPDATE fails, and otherwise the named columns of that row
      overwritten. */
  function UpdateSpec(users: seq<User>, userId: int, updates: seq<(string, Value)>): (Outcome<DbError>, seq<User>)
  {
    match FindSpec(users, [("id", IntVal(userId))])
    case Failure(e) => (Fail(e), users)
    case Success(_) =>
      match Resolve(updates)
      case Failure(name) => (Fail(ValueError(name)), users)
      case Success(cols) =>
        var data := Assign(cols, Values(updates));
        if !Admissible(users, userId, data) then (Fail(IntegrityError), users)
        else (Ok, UpdateRows(users, userId, data))
  }

  /** The id the table gives a new row: one more than the largest id, or 1
      in an empty table. */
  function NextId(users: seq<User>): (r: int)
    ensures forall k :: 0 <= k < |users| ==> users[k].id < r
  {
    if users == [] then 1
    else
      var rest := NextId(users[1..]);
      assert forall k :: 1 <= k < |users| ==> users[k] == users[1..][k - 1];
      if |users| == 1 || users[0].id >= rest then users[0].id + 1 else rest
  }

  class DatabaseHandler {
    /** The rows of the `users` table, in insertion order. */
    var users: seq<User>

    ghost predicate Valid()
      reads this
    {
      DistinctIds(users)
    }

    /** The schema is dropped and created afresh: the table is empty. */
    constructor()
      ensures users == [] && Valid()
    {
      users := [];
    }

    /** `add_new_user`: appends one row with a fresh id and the given email
        and hash, or, when the commit fails on a missing (NULL) email or
        hash, rolls back and answers None. */
    method AddNewUser(email: Option<string>, hashedPassword: Option<string>) returns (r: Option<User>)
      requires Valid()
      modifies this
      ensures Valid()
      ensures email.None? || hashedPassword.None? ==> r.None? && users == old(users)
      ensures email.Some? && hashedPassword.Some? ==>
        r == Some(NewUser(NextId(old(users)), email.value, hashedPassword.value))
        && users == old(users) + [r.value]
    {
      if email.None? || hashedPassword.None? {
        return None;
      }
      var u := NewUser(NextId(users), email.value, hashedPassword.value);
      users := users + [u];
      r := Some(u);
    }

    /** `find_user_by`: resolves the filter names one by one into columns
        and values, then runs the query. */
    method FindUserBy(filters: seq<(string, Value)>) returns (r: Result<User, DbError>)
      ensures r == FindSpec(users, filters)
    {
      var columns: seq<Column> := [];
      var values: seq<Value> := [];
      var i := 0;
      while i < |filters|
        invariant 0 <= i <= |filters|
        invariant Resolve(filters[..i]) == Success(columns)
        invariant values == Values(filters[..i])
      {
        var c := ColumnOf(filters[i].0);
        if c.None? {
          ResolveFailsAt(filters, i, |filters|);
          assert filters[..|filters|] == filters;
          assert Resolve(filters) == Failure(filters[i].0);
          return Failure(InvalidRequest(filters[i].0));
        }
        ResolveStep(filters, i);
        columns := columns + [c.value];
        values := values + [filters[i].1];
        i := i + 1;
      }
      assert filters[..i] == filters;
      assert Resolve(filters) == Success(columns) && values == Values(filters);
      var found := FirstMatching(users, columns, values);
      if found.None? {
        return Failure(NoResultFound);
      }
      return Success(users[found.value]);
    }

    /** `update_user`: looks the row up by id, collects the new values into
        a map one argument at a time, then runs the UPDATE; when it fails
        nothing changes. */
    method UpdateUser(userId: int, updates: seq<(string, Value)>) returns (r: Outcome<DbError>)
      requires Valid()
      modifies this
      ensures Valid()
      ensures (r, users) == UpdateSpec(old(users), userId, updates)
    {
      var found := FindUserBy([("id", IntVal(userId))]);
      if found.Failure? {
        return Fail(found.error);
      }
      var data: map<Column, Value> := map[];
      var i := 0;
      while i < |updates|
        invariant 0 <= i <= |updates|
        invariant users == old(users)
        invariant Resolve(updates[..i]).Success?
        invariant data == Assign(Resolve(updates[..i]).value, Values(updates[..i]))
      {
        var c := ColumnOf(updates[i].0);
        if c.None? {
          ResolveFailsAt(updates, i, |updates|);
          assert updates[..|updates|] == updates;
          assert Resolve(updates) == Failure(updates[i].0);
          return Fail(ValueError(updates[i].0));
        }
        AssignStep(updates, i);
        data := data[c.value := updates[i].1];
        i := i + 1;
      }
      assert updates[..i] == updates;
      if !Admissible(users, userId, data) {
        return Fail(IntegrityError);
      }
      UpdateKeepsIdsDistinct(users, userId, data);
      users := UpdateRows(users, userId, data);
      return Ok;
    }
  }

  /** An admissible update keeps the primary key: ids stay pairwise
      distinct. */
  lemma UpdateKeepsIdsDistinct(users: seq<User>, userId: int, data: map<Column, Value>)
    requires DistinctIds(users) && Admissible(users, userId, data)
    ensures DistinctIds(UpdateRows(users, userId, data))
  {
    var r := UpdateRows(users, userId, data);
    forall i, j | 0 <= i < j < |r|
      ensures r[i].id != r[j].id
    {
      assert Get(r[i], Id) == IntVal(r[i].id) && Get(r[j], Id) == IntVal(r[j].id);
    }
  }

  /** The row satisfies every filter: each name is a column, and the row's
      value there equals the filter's value in the SQL sense. */
  predicate Satisfies(u: User, filters: seq<(string, Value)>)
  {
    forall k :: 0 <= k < |filters| ==>
      ColumnOf(filters[k].0).Some? && SqlEquals(Get(u, ColumnOf(filters[k].0).value), filters[k].1)
  }

  /** Every filter name is a column. */
  predicate AllColumns(pairs: seq<(string, Value)>)
  {
    forall k :: 0 <= k < |pairs| ==> ColumnOf(pairs[k].0).Some?
  }

  lemma MatchesIffSatisfies(u: User, filters: seq<(string, Value)>)
    requires AllColumns(filters)
    ensures Matches(u, Resolve(filters).value, Values(filters)) <==> Satisfies(u, filters)
  {
    var cols := Resolve(filters).value;
    if Matches(u, cols, Values(filters)) {
      forall k | 0 <= k < |filters|
        ensures ColumnOf(filters[k].0).Some? && SqlEquals(Get(u, ColumnOf(filters[k].0).value), filters[k].1)
      {
        assert SqlEquals(Get(u, cols[k]), Values(filters)[k]);
      }
    }
    if Satisfies(u, filters) {
      forall k | 0 <= k < |cols| ensures SqlEquals(Get(u, cols[k]), Values(filters)[k]) {
        assert ColumnOf(filters[k].0) == Some(cols[k]);
      }
    }
  }

  /** A single filter on a column holds exactly when the row's value there
      equals the filter's value in the SQL sense. */
  lemma SingleFilter(u: User, c: Column, v: Value)
    ensures AllColumns([(NameOf(c), v)])
    ensures Satisfies(u, [(NameOf(c), v)]) <==> SqlEquals(Get(u, c), v)
  {
    ColumnOfNameOf(c);
    var filters := [(NameOf(c), v)];
    assert filters[0] == (NameOf(c), v);
    assert Satisfies(u, filters) <==> SqlEquals(Get(u, ColumnOf(filters[0].0).value), filters[0].1);
  }

  /** `find_user_by` rejects the first filter name that is not a column,
      whatever the rows are: the names are checked before any query. */
  lemma FindRejectsUnknownName(users: seq<User>, filters: seq<(string, Value)>, k: nat)
    requires k < |filters| && ColumnOf(filters[k].0).None?
    requires forall j :: 0 <= j < k ==> ColumnOf(filters[j].0).Some?
    ensures FindSpec(users, filters) == Failure(InvalidRequest(filters[k].0))
  {
    assert Resolve(filters[..k]).Success? by {
      forall j | 0 <= j < k ensures ColumnOf(filters[..k][j].0).Some? {
        assert filters[..k][j] == filters[j];
      }
    }
    ResolveFailsAt(filters, k, |filters|);
    assert filters[..|filters|] == filters;
  }

  /** `find_user_by` answers the first row, in table order, that satisfies
      every filter. */
  lemma FindReturnsFirstSatisfying(users: seq<User>, filters: seq<(string, Value)>, i: nat)
    requires AllColumns(filters)
    requires i < |users| && Satisfies(users[i], filters)
    requires forall j :: 0 <= j < i ==> !Satisfies(users[j], filters)
    ensures FindSpec(users, filters) == Success(users[i])
  {
    var cols := Resolve(filters).value;
    var found := FirstMatching(users, cols, Values(filters));
    MatchesIffSatisfies(users[i], filters);
    assert found.Some?;
    MatchesIffSatisfies(users[found.value], filters);
    assert found.value == i;
  }

  /** `find_user_by` raises NoResultFound when no row satisfies every
      filter. */
  lemma FindNoneSatisfying(users: seq<User>, filters: seq<(string, Value)>)
    requires AllColumns(filters)
    requires forall j :: 0 <= j < |users| ==> !Satisfies(users[j], filters)
    ensures FindSpec(users, filters) == Failure(NoResultFound)
  {
    var cols := Resolve(filters).value;
    var found := FirstMatching(users, cols, Values(filters));
    if found.Some? {
      MatchesIffSatisfies(users[found.value], filters);
    }
  }

  /** Emails are not unique: when several rows share an email, looking the
      email up answers the earliest of them. */
  lemma FindFirstOfSharedEmail(users: seq<User>, email: string, i: nat, j: nat)
    requires i < j < |users| && users[i].email == email && users[j].email == email
    requires forall k :: 0 <= k < i ==> users[k].email != email
    ensures FindSpec(users, [("email", StrVal(email))]) == Success(users[i])
  {
    var filters := [(NameOf(Email), StrVal(email))];
    forall k | 0 <= k < |users| ensures Satisfies(users[k], filters) <==> users[k].email == email {
      SingleFilter(users[k], Email, StrVal(email));
    }
    FindReturnsFirstSatisfying(users, filters, i);
  }

  /** A NULL filter value matches no row, not even a row whose column is
      NULL. */
  lemma FindNullMatchesNothing(users: seq<User>, name: string)
    requires ColumnOf(name).Some?
    ensures FindSpec(users, [(name, NullVal)]) == Failure(NoResultFound)
  {
    var c := ColumnOf(name).value;
    forall k | 0 <= k < |users| ensures !Satisfies(users[k], [(name, NullVal)]) {
      SingleFilter(users[k], c, NullVal);
    }
    SingleFilter(NewUser(0, "", ""), c, NullVal);
    FindNoneSatisfying(users, [(name, NullVal)]);
  }

  /** With ids distinct, looking an id up answers the one row that has it. */
  lemma FindById(users: seq<User>, i: nat)
    requires DistinctIds(users) && i < |users|
    ensures FindSpec(users, [("id", IntVal(users[i].id))]) == Success(users[i])
  {
    var filters := [(NameOf(Id), IntVal(users[i].id))];
    forall k | 0 <= k < |users| ensures Satisfies(users[k], filters) <==> users[k].id == users[i].id {
      SingleFilter(users[k], Id, IntVal(users[i].id));
    }
    FindReturnsFirstSatisfying(users, filters, i);
  }

  /** The row a successful `add_new_user` appends keeps the ids distinct and
      is found again by its id. */
  lemma AddThenFind(users: seq<User>, email: string, hashedPassword: string)
    requires DistinctIds(users)
    ensures var u := NewUser(NextId(users), email, hashedPassword);
      DistinctIds(users + [u])
      && FindSpec(users + [u], [("id", IntVal(u.id))]) == Success(u)
  {
    var u := NewUser(NextId(users), email, hashedPassword);
    var t := users + [u];
    assert DistinctIds(t) by {
      forall i, j | 0 <= i < j < |t| ensures t[i].id != t[j].id {
        if j == |users| {
          assert t[i] == users[i];
        } else {
          assert t[i] == users[i] && t[j] == users[j];
        }
      }
    }
    FindById(t, |users|);
  }

  /** The existence of the row is checked first: an id no row has answers
      NoResultFound whatever the updates are, and nothing is written. */
  lemma UpdateUnknownId(users: seq<User>, userId: int, updates: seq<(string, Value)>)
    requires forall k :: 0 <= k < |users| ==> users[k].id != userId
    ensures UpdateSpec(users, userId, updates) == (Fail(NoResultFound), users)
  {
    var filters := [(NameOf(Id), IntVal(userId))];
    SingleFilter(NewUser(0, "", ""), Id, IntVal(userId));
    forall k | 0 <= k < |users| ensures !Satisfies(users[k], filters) {
      SingleFilter(users[k], Id, IntVal(userId));
    }
    FindNoneSatisfying(users, filters);
  }

  /** For a row that exists, the first update name that is not a column
      raises ValueError, and nothing is written. */
  lemma UpdateRejectsUnknownName(users: seq<User>, i: nat, updates: seq<(string, Value)>, k: nat)
    requires i < |users|
    requires k < |updates| && ColumnOf(updates[k].0).None?
    requires forall j :: 0 <= j < k ==> ColumnOf(updates[j].0).Some?
    ensures UpdateSpec(users, users[i].id, updates) == (Fail(ValueError(updates[k].0)), users)
  {
    var filters := [(NameOf(Id), IntVal(users[i].id))];
    SingleFilter(users[i], Id, IntVal(users[i].id));
    MatchesIffSatisfies(users[i], filters);
    FindRejectsUnknownName(users, updates, k);
  }

  /** A NULL for a required column, or a value of the wrong kind, fails the
      UPDATE, and no row changes. */
  lemma UpdateRejectsMisfit(users: seq<User>, i: nat, c: Column, v: Value)
    requires i < |users| && !Fits(c, v)
    ensures UpdateSpec(users, users[i].id, [(NameOf(c), v)]) == (Fail(IntegrityError), users)
  {
    var filters := [(NameOf(Id), IntVal(users[i].id))];
    SingleFilter(users[i], Id, IntVal(users[i].id));
    MatchesIffSatisfies(users[i], filters);
    var updates := [(NameOf(c), v)];
    ColumnOfNameOf(c);
    assert updates[..|updates| - 1] == [];
    assert Resolve(updates[..|updates| - 1]) == Success([]);
    assert updates[|updates| - 1].0 == NameOf(c);
    assert Resolve(updates) == Success([] + [c]);
    assert Values(updates) == [v];
    var data := Assign([c], [v]);
    assert data == Assign([], [])[c := v] by {
      assert [c][..0] == [] && [v][..0] == [];
    }
    assert c in data && data[c] == v;
    assert !WellTyped(data);
  }

  /** For a row that exists and names that all resolve, the UPDATE decides:
      an inadmissible update map fails with IntegrityError and nothing is
      written. */
  lemma UpdateRejectsInadmissible(users: seq<User>, i: nat, updates: seq<(string, Value)>)
    requires i < |users| && Resolve(updates).Success?
    requires !Admissible(users, users[i].id, Changes(updates))
    ensures UpdateSpec(users, users[i].id, updates) == (Fail(IntegrityError), users)
  {
    IdFound(users, i);
  }

  /** For a row that exists, names that all resolve and an admissible update
      map, the update succeeds and writes exactly that map to the rows with
      the id. */
  lemma UpdateAdmissibleSucceeds(users: seq<User>, i: nat, updates: seq<(string, Value)>)
    requires i < |users| && Resolve(updates).Success?
    requires Admissible(users, users[i].id, Changes(updates))
    ensures UpdateSpec(users, users[i].id, updates) == (Ok, UpdateRows(users, users[i].id, Changes(updates)))
  {
    IdFound(users, i);
  }

  /** Looking up the id of an existing row succeeds. */
  lemma IdFound(users: seq<User>, i: nat)
    requires i < |users|
    ensures FindSpec(users, [("id", IntVal(users[i].id))]).Success?
  {
    var filters := [(NameOf(Id), IntVal(users[i].id))];
    SingleFilter(users[i], Id, IntVal(users[i].id));
    MatchesIffSatisfies(users[i], filters);
  }

  /** Among several arguments, a value that does not fit its column fails
      the UPDATE, unless a later argument names the same column again. */
  lemma UpdateRejectsMisfitAmong(users: seq<User>, i: nat, updates: seq<(string, Value)>, k: nat)
    requires i < |users| && Resolve(updates).Success?
    requires k < |updates| && LastNamed(updates, k)
    requires !Fits(ColumnOf(updates[k].0).value, updates[k].1)
    ensures UpdateSpec(users, users[i].id, updates) == (Fail(IntegrityError), users)
  {
    var data := Changes(updates);
    var c := ColumnOf(updates[k].0).value;
    assert c in data && data[c] == updates[k].1;
    UpdateRejectsInadmissible(users, i, updates);
  }

  /** An update that gives the row an id another row already has violates
      the primary key: the UPDATE fails and no row changes. */
  lemma UpdateRejectsTakenId(users: seq<User>, i: nat, j: nat, updates: seq<(string, Value)>)
    requires i < |users| && j < |users| && users[j].id != users[i].id
    requires Resolve(updates).Success?
    requires Id in Changes(updates) && Changes(updates)[Id] == IntVal(users[j].id)
    ensures UpdateSpec(users, users[i].id, updates) == (Fail(IntegrityError), users)
  {
    UpdateRejectsInadmissible(users, i, updates);
  }

  /** A successful update overwrites exactly the named columns of the rows
      with that id: every other column and every other row is as it was. */
  lemma UpdateOnlyNamedColumns(users: seq<User>, userId: int, updates: seq<(string, Value)>)
    requires UpdateSpec(users, userId, updates).0 == Ok
    ensures Resolve(updates).Success?
    ensures var after := UpdateSpec(users, userId, updates).1;
      |after| == |users|
      && forall k, c :: 0 <= k < |users| ==>
           Get(after[k], c) == if users[k].id == userId && c in Changes(updates)
                               then Changes(updates)[c] else Get(users[k], c)
  {
    var found := FindSpec(users, [("id", IntVal(userId))]);
    assert found.Success?;
    assert Resolve(updates).Success?;
    var data := Changes(updates);
    assert data == Assign(Resolve(updates).value, Values(updates));
    assert Admissible(users, userId, data);
    assert UpdateSpec(users, userId, updates).1 == UpdateRows(users, userId, data);
  }
}
