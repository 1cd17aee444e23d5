/**
 * `UserService` (app/services/user.py): authentication, registration with duplicate-email rejection, the
 * conflict-ignoring superuser insert and the admin partial update, over the users table.
 */
module UserService {
  import opened Prelude
  import opened Constants
  import opened Crud
  import opened Models
  import opened Schemas
  import opened Foreign

  /** The users table: unique emails and the users column lengths. */
  ghost predicate UsersTable(t: Table<User>)
    reads t
  {
    t.Valid() && t.unique == UserUnique && t.check == UserColumnsOk
  }

  /** The email column, as `get_by` compares it. */
  function EmailColumn(r: Row<User>): string
  {
    r.rec.email
  }

  /** Some stored user has the email. */
  ghost predicate EmailTaken(rows: map<Id, Row<User>>, email: string)
  {
    exists k :: k in rows && rows[k].rec.email == email
  }

  /** A record whose email no other row holds clashes with nothing in the users table. */
  lemma NoClashWithFreeEmail(rows: map<Id, Row<User>>, u: User, except: Option<Id>)
    requires forall k :: k in rows && Some(k) != except ==> rows[k].rec.email != u.email
    ensures !Clashes(rows, UserUnique, u, except)
  {
    assert UserUnique[0] == EmailOf;
  }

  /**
   * `authenticate`: the user with the email, provided the password verifies against its stored hash.
   * It finds nobody exactly when no user with that email has a hash the password verifies against.
   */
  function Authenticate(users: Table<User>, verify: (string, string) -> bool, email: string, password: string)
    : (r: Option<Row<User>>)
    reads users
    requires UsersTable(users)
    ensures r.Some? ==> && r.value.id in users.rows && users.rows[r.value.id] == r.value
                        && r.value.rec.email == email && verify(password, r.value.rec.hashedPassword)
    ensures r.None? <==> forall k :: k in users.rows && users.rows[k].rec.email == email ==>
                          !verify(password, users.rows[k].rec.hashedPassword)
  {
    var user := users.GetBy(EmailColumn, email);
    if user.None? then None
    else
      var id := user.value.id;
      assert forall k :: k in users.rows && users.rows[k].rec.email == email ==> k == id by {
        forall k | k in users.rows && users.rows[k].rec.email == email ensures k == id {
          UserIdentified(users, k, id);
        }
      }
      if !verify(password, user.value.rec.hashedPassword) then None else user
  }

  /** A user stored with the hash of a password authenticates with that password. */
  lemma AuthenticateStored(users: Table<User>, x: Externals, k: Id, password: string)
    requires UsersTable(users) && PasswordCodecSound(x)
    requires k in users.rows && users.rows[k].rec.hashedPassword == x.hashPassword(password)
    ensures Authenticate(users, x.verifyPassword, users.rows[k].rec.email, password) == Some(users.rows[k])
  {
    var r := Authenticate(users, x.verifyPassword, users.rows[k].rec.email, password);
    assert x.verifyPassword(password, x.hashPassword(password));
    UserIdentified(users, k, r.value.id);
  }

  datatype CreateOutcome = Created(row: Row<User>) | AlreadyExists | Refused(error: DbError)

  /**
   * `create`: refuses an email that is already registered; otherwise stores a user with the email, the full
   * name and the hash of the password (never the password itself), active and with role USER. The registered
   * user can then log in with that password.
   */
  method Create(users: Table<User>, x: Externals, obj: UserCreate, now: Time) returns (res: CreateOutcome)
    requires UsersTable(users)
    modifies users
    ensures UsersTable(users)
    ensures res.AlreadyExists? <==> EmailTaken(old(users.rows), obj.email)
    ensures res.Refused? <==> !EmailTaken(old(users.rows), obj.email) &&
                              !UserColumnsOk(NewUser(obj.email, obj.fullName, x.hashPassword(obj.password)))
    ensures !res.Created? ==> users.rows == old(users.rows)
    ensures res.Created? ==> && res.row.rec == NewUser(obj.email, obj.fullName, x.hashPassword(obj.password))
                             && res.row.dateCreated == now
                             && res.row.id !in old(users.rows)
                             && users.rows == old(users.rows)[res.row.id := res.row]
    ensures res.Created? && PasswordCodecSound(x) ==>
              Authenticate(users, x.verifyPassword, obj.email, obj.password) == Some(res.row)
  {
    var existing := users.GetBy(EmailColumn, obj.email);
    if existing.Some? {
      return AlreadyExists;
    }
    var u := NewUser(obj.email, obj.fullName, x.hashPassword(obj.password));
    NoClashWithFreeEmail(users.rows, u, None);
    var r := users.Create(u, now);
    if r.Failed? {
      return Refused(r.error);
    }
    res := Created(r.value);
    if PasswordCodecSound(x) {
      AuthenticateStored(users, x, r.value.id, obj.password);
    }
  }

  /**
   * The record `create_superuser` inserts: the email, full name and hashed password of the body, with the
   * column defaults overridden: `role` is ADMIN and `is_active` is True.
   */
  function SuperuserRecord(x: Externals, obj: UserCreate): (u: User)
    ensures u.role == ADMIN && u.isActive
    ensures u.email == obj.email && u.fullName == obj.fullName && u.hashedPassword == x.hashPassword(obj.password)
  {
    User(obj.email, obj.fullName, x.hashPassword(obj.password), true, ADMIN)
  }

  /**
   * `create_superuser`: INSERT ... ON CONFLICT (email) DO NOTHING, then the user with the email. An existing
   * user with that email is left untouched and returned; otherwise an active ADMIN is added and returned.
   */
  method CreateSuperuser(users: Table<User>, x: Externals, obj: UserCreate, now: Time)
    returns (res: Result<Option<Row<User>>>)
    requires UsersTable(users)
    modifies users
    ensures UsersTable(users)
    ensures res.Failed? <==> !UserColumnsOk(SuperuserRecord(x, obj))
    ensures res.Failed? || EmailTaken(old(users.rows), obj.email) ==> users.rows == old(users.rows)
    ensures res.Done? ==> && res.value.Some?
                          && res.value.value.id in users.rows && users.rows[res.value.value.id] == res.value.value
                          && res.value.value.rec.email == obj.email
    ensures res.Done? && !EmailTaken(old(users.rows), obj.email) ==>
              && res.value.value.id !in old(users.rows)
              && res.value.value == Row(res.value.value.id, now, SuperuserRecord(x, obj))
              && users.rows == old(users.rows)[res.value.value.id := res.value.value]
  {
    var u := SuperuserRecord(x, obj);
    if !EmailTaken(users.rows, obj.email) {
      NoClashWithFreeEmail(users.rows, u, None);
    } else {
      assert Clashes(users.rows, users.unique, u, None) by {
        var k :| k in users.rows && users.rows[k].rec.email == obj.email;
        assert users.unique[0](users.rows[k].rec) == users.unique[0](u);
      }
    }
    ghost var newId := users.nextId;
    var inserted := users.InsertOrIgnore(u, now);
    if inserted.Failed? {
      return Failed(inserted.error);
    }
    var user := users.GetBy(EmailColumn, obj.email);
    if inserted.value {
      assert users.rows[newId].rec.email == obj.email;
      UserIdentified(users, newId, user.value.id);
    }
    res := Done(user);
  }

  /**
   * `admin_update`: sets the role and the active flag that the patch carries and nothing else. The update
   * cannot be refused: the email and the column lengths stay as they were.
   */
  method AdminUpdate(users: Table<User>, id: Id, patch: AdminUserUpdate) returns (row: Row<User>)
    requires UsersTable(users) && id in users.rows
    modifies users
    ensures UsersTable(users)
    ensures var old_ := old(users.rows)[id];
            row == old_.(rec := old_.rec.(role := Patched(patch.role, old_.rec.role),
                                          isActive := Patched(patch.isActive, old_.rec.isActive)))
    ensures users.rows == old(users.rows)[id := row]
  {
    var current := users.rows[id].rec;
    AdminUserUpdateEffect(current, patch);
    var updated := ApplyFields(AssignUser, current, AdminUserUpdateFields(patch));
    forall k | k in users.rows && Some(k) != Some(id) ensures users.rows[k].rec.email != updated.email {
      if users.rows[k].rec.email == updated.email {
        UserIdentified(users, k, id);
      }
    }
    NoClashWithFreeEmail(users.rows, updated, Some(id));
    var r := users.Update(id, AdminUserUpdateFields(patch), AssignUser);
    row := r.value;
  }
}
