/** The `user` table behind `prisma.user`, held in memory: rows in insertion
    order, ids handed out in increasing order, and the unique constraints on
    `email` and `username` that `findUnique` on those columns relies on. */
module UserStore {
  import opened Common
  import opened HttpErrors

  type UserId = nat

  /** A row of the `user` table: its id and its columns by name. */
  datatype User = User(id: UserId, data: map<string, string>)

  predicate HasValue(u: User, column: string, value: string) {
    column in u.data && u.data[column] == value
  }

  /** The `where` argument of a query. Prisma ignores a property whose value is
      `undefined`, so only the defined conditions are kept. */
  datatype Where = Where(id: Option<UserId>, columns: map<string, string>)

  const Everything := Where(None, map[])

  predicate Matches(u: User, w: Where) {
    && (w.id.Some? ==> u.id == w.id.value)
    && forall c :: c in w.columns ==> HasValue(u, c, w.columns[c])
  }

  /** Adds `column: value` to a `where` object; `undefined` adds no condition. */
  function AndColumn(w: Where, column: string, value: Option<string>): Where {
    match value
    case Some(v) => w.(columns := w.columns[column := v])
    case None => w
  }

  /** `prisma.user.findFirst({ where })`: the first row, in table order, that
      meets every condition. */
  function FindFirst(rows: seq<User>, w: Where): (r: Option<User>)
    ensures r.None? <==> forall i :: 0 <= i < |rows| ==> !Matches(rows[i], w)
    ensures r.Some? ==> r.value in rows && Matches(r.value, w)
  {
    if rows == [] then None
    else if Matches(rows[0], w) then Some(rows[0])
    else FindFirst(rows[1..], w)
  }

  /** The row found is the first one that matches. */
  lemma {:induction false} FindFirstIsFirst(rows: seq<User>, w: Where, i: nat)
    requires i < |rows| && Matches(rows[i], w)
    requires forall j :: 0 <= j < i ==> !Matches(rows[j], w)
    ensures FindFirst(rows, w) == Some(rows[i])
  {
    if i > 0 {
      FindFirstIsFirst(rows[1..], w, i - 1);
    }
  }

  /** Some row holds `value` in `column`. */
  predicate Taken(rows: seq<User>, column: string, value: string) {
    exists i | 0 <= i < |rows| :: HasValue(rows[i], column, value)
  }

  /** No two rows share a value in `column`. */
  ghost predicate UniqueOn(rows: seq<User>, column: string) {
    forall i, j :: 0 <= i < j < |rows| && column in rows[i].data && column in rows[j].data
      ==> rows[i].data[column] != rows[j].data[column]
  }

  /** The invariant of the table: ids below the next one and distinct, and the
      unique constraints hold. */
  ghost predicate WellFormed(rows: seq<User>, nextId: UserId) {
    && (forall i :: 0 <= i < |rows| ==> rows[i].id < nextId)
    && (forall i, j :: 0 <= i < j < |rows| ==> rows[i].id != rows[j].id)
    && UniqueOn(rows, "email")
    && UniqueOn(rows, "username")
  }

  /** A new row would repeat the value of a unique column. */
  predicate Collides(rows: seq<User>, data: map<string, string>) {
    || ("email" in data && Taken(rows, "email", data["email"]))
    || ("username" in data && Taken(rows, "username", data["username"]))
  }

  /** The error Prisma raises when an insert breaks a unique constraint (code
      P2002); the handlers do not recognise it. */
  const UniqueConstraintFailed := Other(None, JStr("Unique constraint failed"))

  /** In a well-formed table a row is found by its id, or by the value of a
      unique column, whatever its position. */
  lemma FindById(rows: seq<User>, nextId: UserId, i: nat)
    requires WellFormed(rows, nextId) && i < |rows|
    ensures FindFirst(rows, Where(Some(rows[i].id), map[])) == Some(rows[i])
  {
  }

  lemma FindByEmail(rows: seq<User>, nextId: UserId, i: nat)
    requires WellFormed(rows, nextId) && i < |rows| && "email" in rows[i].data
    ensures FindFirst(rows, Where(None, map["email" := rows[i].data["email"]])) == Some(rows[i])
  {
    var w := Where(None, map["email" := rows[i].data["email"]]);
    forall j | 0 <= j < i
      ensures !Matches(rows[j], w)
    {
      assert "email" in w.columns;
    }
    FindFirstIsFirst(rows, w, i);
  }

  class UserTable {
    var rows: seq<User>
    var nextId: UserId

    ghost predicate Valid()
      reads this
    {
      WellFormed(rows, nextId)
    }

    constructor ()
      ensures Valid() && rows == [] && nextId == 0
    {
      rows := [];
      nextId := 0;
    }

    /** `prisma.user.findUnique({ where: { [column]: value }, select: { id: true } })` */
    method FindUnique(column: string, value: string) returns (id: Option<UserId>)
      ensures id.Some? <==> Taken(rows, column, value)
      ensures id.Some? ==> exists i :: 0 <= i < |rows| && rows[i].id == id.value && HasValue(rows[i], column, value)
    {
      var i := 0;
      while i < |rows|
        invariant 0 <= i <= |rows|
        invariant forall j :: 0 <= j < i ==> !HasValue(rows[j], column, value)
      {
        if HasValue(rows[i], column, value) {
          return Some(rows[i].id);
        }
        i := i + 1;
      }
      return None;
    }

    /** `prisma.user.create({ data })`: appends a row with a fresh id, unless a
        unique column would be repeated. */
    method Create(data: map<string, string>) returns (r: Result<User, Error>)
      requires Valid()
      modifies this
      ensures Valid()
      ensures r.Failure? <==> Collides(old(rows), data)
      ensures r.Failure? ==> r.error == UniqueConstraintFailed && rows == old(rows) && nextId == old(nextId)
      ensures r.Success? ==> r.value == User(old(nextId), data) && rows == old(rows) + [r.value]
      ensures r.Success? ==> nextId == old(nextId) + 1
    {
      if Collides(rows, data) {
        return Failure(UniqueConstraintFailed);
      }
      var user := User(nextId, data);
      rows := rows + [user];
      nextId := nextId + 1;
      return Success(user);
    }
  }
}
