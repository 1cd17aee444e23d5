/** `initialize_database` (app/db/session.py): create the configured superuser unless a user with that email exists. */
module Bootstrap {
  import opened Prelude
  import opened Constants
  import opened Crud
  import opened Models
  import opened Schemas
  import opened Foreign
  import opened UserService

  /** The superuser the bootstrap asks for. */
  const SuperuserIn: UserCreate := UserCreate(FirstSuperuser, Some("админ"), FirstSuperuserPassword)

  /**
   * Looks the configured superuser up by email; when it is absent, inserts it as an active ADMIN through
   * `create_superuser`. Tells whether it created the user. Afterwards a user with the configured email exists
   * (the hash fitting its column), and a store that already had one is left as it was.
   */
  method InitializeDatabase(users: Table<User>, x: Externals, now: Time) returns (created: bool)
    requires UsersTable(users)
    modifies users
    ensures UsersTable(users)
    ensures EmailTaken(old(users.rows), FirstSuperuser) ==> !created && users.rows == old(users.rows)
    ensures created ==> exists k :: k !in old(users.rows) &&
                                   users.rows == old(users.rows)[k := Row(k, now, SuperuserRecord(x, SuperuserIn))]
    ensures !created ==> users.rows == old(users.rows)
    ensures HashFits(x) ==> EmailTaken(users.rows, FirstSuperuser)
  {
    var superuser := users.GetBy(EmailColumn, FirstSuperuser);
    if superuser.Some? {
      return false;
    }
    if HashFits(x) {
      assert |x.hashPassword(FirstSuperuserPassword)| <= 255;
      assert UserColumnsOk(SuperuserRecord(x, SuperuserIn));
    }
    var r := CreateSuperuser(users, x, SuperuserIn, now);
    created := r.Done?;
    if r.Done? {
      var row := r.value.value;
      assert users.rows[row.id].rec.email == FirstSuperuser;
    }
  }

  /** Running the bootstrap a second time creates nothing: two runs leave the store one run leaves. */
  method InitializeTwice(users: Table<User>, x: Externals, now: Time, later: Time) returns (first: bool, second: bool)
    requires UsersTable(users) && HashFits(x)
    modifies users
    ensures UsersTable(users)
    ensures !second
    ensures first ==> exists k :: k !in old(users.rows) &&
                                 users.rows == old(users.rows)[k := Row(k, now, SuperuserRecord(x, SuperuserIn))]
    ensures !first ==> users.rows == old(users.rows)
  {
    first := InitializeDatabase(users, x, now);
    second := InitializeDatabase(users, x, later);
  }
}
