/** The `user` table the service reaches through `prisma.user`. The storage
    engine itself is out of view; the table is an in-model map from the
    unique `email` column to the row, plus the id the next created row gets. */
module PrismaStore {
  import opened Results

  type Id = nat

  /** One row of the `user` table, with the columns signup writes and login reads. */
  datatype User = User(id: Id, email: string, password: string, name: string)

  /** The value of the table: rows keyed by their `email`, and the next id to hand out. */
  datatype Table = Table(users: map<string, User>, nextId: Id)

  /** The message a create that breaks the unique `email` constraint throws with. */
  const UniqueViolation := "Unique constraint failed on the fields: (`email`)"

  /** The table's integrity: each row sits under its own email (so no two rows
      share an email), and ids are distinct and below the next id to hand out. */
  ghost predicate Consistent(t: Table) {
    && (forall e :: e in t.users ==> t.users[e].email == e)
    && (forall e :: e in t.users ==> t.users[e].id < t.nextId)
    && (forall e, f :: e in t.users && f in t.users && e != f ==> t.users[e].id != t.users[f].id)
  }

  /** Some row of the table has this email. */
  ghost predicate HasEmail(t: Table, email: string) {
    exists u :: u in t.users.Values && u.email == email
  }

  /** In a consistent table, the email column is unique: two rows with the same email are the same row. */
  lemma EmailsUnique(t: Table, u: User, v: User)
    requires Consistent(t)
    requires u in t.users.Values && v in t.users.Values
    ensures u.email == v.email ==> u == v
  {
  }

  /** `findUnique({ where: { email } })`: the row with that email, or nothing. */
  function FindUnique(t: Table, email: string): (r: Option<User>)
    requires Consistent(t)
    ensures r.None? <==> !HasEmail(t, email)
    ensures r.Some? ==> r.value in t.users.Values && r.value.email == email
  {
    if email in t.users then
      assert t.users[email] in t.users.Values;
      Some(t.users[email])
    else
      assert forall u :: u in t.users.Values ==> u.email != email by {
        forall u | u in t.users.Values ensures u.email != email {
          var e :| e in t.users && t.users[e] == u;
        }
      }
      None
  }

  /** The table after `create` has stored a row for an email not yet present. */
  function Insert(t: Table, email: string, password: string, name: string): (r: Table)
    requires Consistent(t) && !HasEmail(t, email)
    ensures Consistent(r)
    ensures HasEmail(r, email)
    ensures r.users.Keys == t.users.Keys + {email}
    ensures forall e :: e in t.users ==> r.users[e] == t.users[e]
    ensures var u := r.users[email];
      && u.email == email && u.password == password && u.name == name
      && forall v :: v in t.users.Values ==> v.id != u.id
  {
    assert email !in t.users by {
      assert forall e :: e in t.users ==> t.users[e] in t.users.Values;
    }
    var u := User(t.nextId, email, password, name);
    var r := Table(t.users[email := u], t.nextId + 1);
    assert r.users[email] == u && u in r.users.Values;
    r
  }

  /** The `user` delegate of the Prisma client: the live table, created and read in place. */
  class UserDelegate {
    var users: map<string, User>
    var nextId: Id

    /** The table's current value. */
    function Snapshot(): Table
      reads this
    {
      Table(users, nextId)
    }

    ghost predicate Valid()
      reads this
    {
      Consistent(Snapshot())
    }

    /** An empty table whose autoincrement id starts at 1. */
    constructor ()
      ensures Valid()
      ensures users == map[] && nextId == 1
    {
      users := map[];
      nextId := 1;
    }

    /** `create({ data: { email, password, name } })`: stores a new row with a
        fresh id and returns it, or throws if the email is already taken. */
    method Create(email: string, password: string, name: string) returns (r: Outcome<User>)
      requires Valid()
      modifies this
      ensures Valid()
      ensures HasEmail(old(Snapshot()), email) ==>
                r == Throws(UniqueViolation) && Snapshot() == old(Snapshot())
      ensures !HasEmail(old(Snapshot()), email) ==>
                && Snapshot() == Insert(old(Snapshot()), email, password, name)
                && r == Returns(users[email])
    {
      if FindUnique(Snapshot(), email).Some? {
        return Throws(UniqueViolation);
      }
      var user := User(nextId, email, password, name);
      users := users[email := user];
      nextId := nextId + 1;
      r := Returns(user);
    }
  }
}
