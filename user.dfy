/** The `users` table row: five columns, `id` the primary key, `email` and
    `hashed_password` required, `session_id` and `reset_token` nullable. A
    row is a value; the table that stores rows and overwrites them lives in
    module `Database`. */
module UserModel {
  import opened Wrappers

  /** The columns of the `users` table. */
  datatype Column = Id | Email | HashedPassword | SessionId | ResetToken

  /** The attribute name of each column. */
  function NameOf(c: Column): string
  {
    match c
    case Id => "id"
    case Email => "email"
    case HashedPassword => "hashed_password"
    case SessionId => "session_id"
    case ResetToken => "reset_token"
  }

  /** The column an attribute name denotes, or None for a name that is not
      one of the five columns. */
  function ColumnOf(name: string): (r: Option<Column>)
    ensures r.Some? <==> name in {"id", "email", "hashed_password", "session_id", "reset_token"}
    ensures r.Some? ==> NameOf(r.value) == name
  {
    if name == "id" then Some(Id)
    else if name == "email" then Some(Email)
    else if name == "hashed_password" then Some(HashedPassword)
    else if name == "session_id" then Some(SessionId)
    else if name == "reset_token" then Some(ResetToken)
    else None
  }

  /** Names and columns correspond one to one. */
  lemma ColumnOfNameOf(c: Column)
    ensures ColumnOf(NameOf(c)) == Some(c)
  {
  }

  /** A value as it is bound to a query: an integer, a text, or NULL. */
  datatype Value = IntVal(i: int) | StrVal(s: string) | NullVal

  /** Whether the column accepts NULL. */
  predicate Nullable(c: Column)
  {
    c == SessionId || c == ResetToken
  }

  /** Whether the value may be stored in the column: an integer key, a
      text, or, in a nullable column, NULL. */
  predicate Fits(c: Column, v: Value)
  {
    match c
    case Id => v.IntVal?
    case Email => v.StrVal?
    case HashedPassword => v.StrVal?
    case _ => v.StrVal? || v.NullVal?
  }

  /** NULL fits exactly the nullable columns. */
  lemma NullFitsNullable(c: Column)
    ensures Fits(c, NullVal) <==> Nullable(c)
  {
  }

  /** A stored row. The required columns are plain values, the nullable
      ones optional. */
  datatype User = User(id: int, email: string, hashedPassword: string,
                       sessionId: Option<string>, resetToken: Option<string>)

  /** A nullable text column as a value. */
  function OfOption(o: Option<string>): Value
  {
    if o.None? then NullVal else StrVal(o.value)
  }

  /** `User.__init__`: the row with the given email and password hash, the
      session id and reset token absent unless given; `id` is the key the
      table assigns on insert. */
  function NewUser(id: int, email: string, hashedPassword: string,
                   sessionId: Option<string> := None, resetToken: Option<string> := None): (u: User)
    ensures Get(u, Email) == StrVal(email) && Get(u, HashedPassword) == StrVal(hashedPassword)
    ensures Get(u, SessionId) == OfOption(sessionId) && Get(u, ResetToken) == OfOption(resetToken)
    ensures Get(u, Id) == IntVal(id)
  {
    User(id, email, hashedPassword, sessionId, resetToken)
  }

  /** The value of one column of a row (`getattr(user, name)`). */
  function Get(u: User, c: Column): (v: Value)
    ensures Fits(c, v)
    ensures v.NullVal? <==> (c == SessionId && u.sessionId.None?) || (c == ResetToken && u.resetToken.None?)
  {
    match c
    case Id => IntVal(u.id)
    case Email => StrVal(u.email)
    case HashedPassword => StrVal(u.hashedPassword)
    case SessionId => OfOption(u.sessionId)
    case ResetToken => OfOption(u.resetToken)
  }

  /** Rows that agree on every column are the same row. */
  lemma {:induction false} SameColumnsSameUser(u: User, w: User)
    requires forall c :: Get(u, c) == Get(w, c)
    ensures u == w
  {
    assert Get(u, Id) == Get(w, Id) && Get(u, Email) == Get(w, Email);
    assert Get(u, HashedPassword) == Get(w, HashedPassword);
    assert Get(u, SessionId) == Get(w, SessionId) && Get(u, ResetToken) == Get(w, ResetToken);
  }

  /** Overwrites one column of a row with a value that fits it. */
  function Set(u: User, c: Column, v: Value): (r: User)
    requires Fits(c, v)
    ensures Get(r, c) == v
    ensures forall d :: d != c ==> Get(r, d) == Get(u, d)
  {
    match c
    case Id => u.(id := v.i)
    case Email => u.(email := v.s)
    case HashedPassword => u.(hashedPassword := v.s)
    case SessionId => u.(sessionId := if v.NullVal? then None else Some(v.s))
    case ResetToken => u.(resetToken := if v.NullVal? then None else Some(v.s))
  }

  /** The columns in declaration order. */
  const COLUMNS: seq<Column> := [Id, Email, HashedPassword, SessionId, ResetToken]

  /** Whether every value of an update fits its column. */
  predicate WellTyped(data: map<Column, Value>)
  {
    forall c :: c in data ==> Fits(c, data[c])
  }

  /** Overwrites the columns of `cols` that `data` names. */
  function ApplyColumns(u: User, data: map<Column, Value>, cols: seq<Column>): (r: User)
    requires WellTyped(data)
    ensures forall c :: Get(r, c) == if c in data && c in cols then data[c] else Get(u, c)
  {
    if cols == [] then u
    else
      var w := ApplyColumns(u, data, cols[1..]);
      if cols[0] in data then Set(w, cols[0], data[cols[0]]) else w
  }

  /** The row after an update: every column the update names takes the new
      value, every other column keeps its old one. */
  function Apply(u: User, data: map<Column, Value>): (r: User)
    requires WellTyped(data)
    ensures forall c :: Get(r, c) == if c in data then data[c] else Get(u, c)
  {
    ApplyColumns(u, data, COLUMNS)
  }

  /** Writing the same values twice changes nothing the second time. */
  lemma ApplyIdempotent(u: User, data: map<Column, Value>)
    requires WellTyped(data)
    ensures Apply(Apply(u, data), data) == Apply(u, data)
  {
    SameColumnsSameUser(Apply(Apply(u, data), data), Apply(u, data));
  }

  /** An update that names no column leaves the row as it is. */
  lemma ApplyNothing(u: User)
    ensures Apply(u, map[]) == u
  {
    SameColumnsSameUser(Apply(u, map[]), u);
  }
}
