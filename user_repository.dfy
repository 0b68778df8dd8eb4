/** The `users` table of
    internal/auth/infrastructure/persistence/gorm/user_repository_gorm.go,
    held in memory as its rows in insertion order. */
module UserStore {
  import opened Common

  /** An account. `password` holds the hash. The two reset fields are the
      optional pending reset code (its hash) and its expiry that the service
      assigns; they are absent from the struct in internal/auth/domain/model/user.go. */
  datatype User = User(
    id: string,
    email: string,
    password: string,
    name: string,
    isActive: bool,
    resetToken: Option<string>,
    resetExpiresAt: Option<Time>)

  /** The primary key on `id` and the unique index on `email`. */
  ghost predicate Keyed(rows: seq<User>) {
    forall i, j :: 0 <= i < j < |rows| ==> rows[i].id != rows[j].id && rows[i].email != rows[j].email
  }

  /** The row as the five columns of the repository file read it back: the
      reset fields, which it neither writes nor reads, come back absent. */
  function FiveColumns(u: User): (r: User)
    ensures r.id == u.id && r.email == u.email && r.password == u.password
    ensures r.name == u.name && r.isActive == u.isActive
    ensures r.resetToken.None? && r.resetExpiresAt.None?
  {
    User(u.id, u.email, u.password, u.name, u.isActive, None, None)
  }

  /** The table after `Save` of a user whose id is already stored: that row
      takes the new value in place, every other row is untouched. */
  function Replaced(rows: seq<User>, u: User): (r: seq<User>)
    ensures |r| == |rows|
    ensures forall i :: 0 <= i < |rows| ==> r[i] == if rows[i].id == u.id then u else rows[i]
  {
    seq(|rows|, i requires 0 <= i < |rows| => if rows[i].id == u.id then u else rows[i])
  }

  lemma ReplacedKeepsKey(rows: seq<User>, u: User)
    requires Keyed(rows)
    requires forall v :: v in rows && v.email == u.email ==> v.id == u.id
    ensures Keyed(Replaced(rows, u))
    ensures forall v :: v in Replaced(rows, u) ==> v == u || (v in rows && v.id != u.id)
  {
  }

  /** Appending a row whose id and email are new keeps the keys. */
  lemma AppendKeepsKey(rows: seq<User>, u: User)
    requires Keyed(rows)
    requires forall v :: v in rows ==> v.id != u.id && v.email != u.email
    ensures Keyed(rows + [u])
  {
    assert forall i :: 0 <= i < |rows| ==> rows[i] in rows;
  }

  /** In a keyed table a stored row is the only one with its email and the only one with its id. */
  lemma KeyedRowIsOnly(rows: seq<User>, u: User, v: User)
    requires Keyed(rows) && u in rows && v in rows
    requires u.email == v.email || u.id == v.id
    ensures u == v
  {
    var i :| 0 <= i < |rows| && rows[i] == u;
    var j :| 0 <= j < |rows| && rows[j] == v;
    assert !(i < j) && !(j < i);
  }

  class UserRepository {
    var rows: seq<User>

    ghost predicate Valid()
      reads this
    {
      Keyed(rows)
    }

    constructor ()
      ensures Valid() && rows == []
    {
      rows := [];
    }

    /** `Create`: insert a row; the primary key refuses a stored id and the
        unique index refuses a stored email. The active flag carries a column
        default of true, and GORM leaves a zero-valued field with a default
        out of the insert, so an account created inactive is stored active. */
    method Create(user: User) returns (err: Option<DbError>)
      requires Valid()
      modifies this
      ensures Valid()
      ensures err.None? <==> forall u :: u in old(rows) ==> u.id != user.id && u.email != user.email
      ensures err.None? ==> rows == old(rows) + [user.(isActive := true)]
      ensures err.None? ==>
        && FindByEmail(user.email) == Some(user.(isActive := true))
        && FindByID(user.id) == Some(user.(isActive := true))
      ensures err.Some? ==> rows == old(rows)
    {
      if exists u :: u in rows && u.id == user.id {
        err := Some(DuplicateKey("users"));
      } else if exists u :: u in rows && u.email == user.email {
        err := Some(UniqueViolation("email"));
      } else {
        var stored := user.(isActive := true);
        AppendKeepsKey(rows, stored);
        rows := rows + [stored];
        err := None;
      }
    }

    /** `FindByEmail`: exact, case-sensitive comparison; none when no row matches. */
    function FindByEmail(email: string): (r: Option<User>)
      reads this
      ensures r.Some? <==> exists u :: u in rows && u.email == email
      ensures r.Some? ==> r.value in rows && r.value.email == email
      ensures Valid() ==> forall u :: u in rows && u.email == email ==> r == Some(u)
    {
      var found := Filter(rows, (u: User) => u.email == email);
      if found == [] then None
      else
        assert found[0] in found;
        assert Valid() ==> forall u :: u in rows && u.email == email ==> u == found[0] by {
          if Valid() {
            forall u | u in rows && u.email == email {
              KeyedRowIsOnly(rows, u, found[0]);
            }
          }
        }
        Some(found[0])
    }

    /** `FindByID`: the row with that id; none when there is none. */
    function FindByID(id: string): (r: Option<User>)
      reads this
      ensures r.Some? <==> exists u :: u in rows && u.id == id
      ensures r.Some? ==> r.value in rows && r.value.id == id
      ensures Valid() ==> forall u :: u in rows && u.id == id ==> r == Some(u)
    {
      var found := Filter(rows, (u: User) => u.id == id);
      if found == [] then None
      else
        assert found[0] in found;
        assert Valid() ==> forall u :: u in rows && u.id == id ==> u == found[0] by {
          if Valid() {
            forall u | u in rows && u.id == id {
              KeyedRowIsOnly(rows, u, found[0]);
            }
          }
        }
        Some(found[0])
    }

    /** `Update` (GORM `Save`): overwrite the row with the user's id, or insert
        the user when no row has it; the unique index refuses an email that
        another row holds. */
    method Update(user: User) returns (err: Option<DbError>)
      requires Valid()
      modifies this
      ensures Valid()
      ensures err.Some? <==> exists u :: u in old(rows) && u.email == user.email && u.id != user.id
      ensures err.Some? ==> rows == old(rows)
      ensures err.None? && (exists u :: u in old(rows) && u.id == user.id) ==> rows == Replaced(old(rows), user)
      ensures err.None? && (forall u :: u in old(rows) ==> u.id != user.id) ==> rows == old(rows) + [user]
      ensures err.None? ==> forall u :: u in rows <==> u == user || (u in old(rows) && u.id != user.id)
      ensures err.None? ==> FindByEmail(user.email) == Some(user) && FindByID(user.id) == Some(user)
    {
      if exists u :: u in rows && u.email == user.email && u.id != user.id {
        err := Some(UniqueViolation("email"));
      } else if exists u :: u in rows && u.id == user.id {
        ReplacedKeepsKey(rows, user);
        rows := Replaced(rows, user);
        err := None;
      } else {
        AppendKeepsKey(rows, user);
        rows := rows + [user];
        err := None;
      }
    }
  }
}
