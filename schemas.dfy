/**
 * The request and response schemas of app/schemas: the field constraints pydantic enforces before a handler
 * runs (as validity predicates), the public projections of the records, and `model_dump(exclude_unset=True)`
 * of the partial-update schemas as the list of field assignments the update loop performs.
 */
module Schemas {
  import opened Prelude
  import opened Constants
  import opened Crud
  import opened Models

  // ---- users (app/schemas/user.py) ----

  /** An optional full name is either absent or between 2 and 255 characters. */
  predicate FullNameOk(n: Option<string>)
  {
    n.Some? ==> 2 <= |n.value| <= 255
  }

  /** A password between 8 and 72 characters. */
  predicate PasswordOk(p: string)
  {
    8 <= |p| <= 72
  }

  datatype UserCreate = UserCreate(email: string, fullName: Option<string>, password: string)

  /** The body validates: the email is an address EmailStr accepts, the name and the password fit their bounds. */
  predicate UserCreateValid(emailStr: string -> Option<string>, u: UserCreate)
  {
    emailStr(u.email).Some? && FullNameOk(u.fullName) && PasswordOk(u.password)
  }

  /** The body a handler receives: validation replaces the email by its normal form and keeps the rest. */
  function ParseUserCreate(emailStr: string -> Option<string>, u: UserCreate): (v: UserCreate)
    requires UserCreateValid(emailStr, u)
    ensures v.email == emailStr(u.email).value && v.fullName == u.fullName && v.password == u.password
  {
    u.(email := emailStr(u.email).value)
  }

  /** `UserUpdate`: only the full name; an explicit null sets the column to NULL. */
  datatype UserUpdate = UserUpdate(fullName: Maybe<Option<string>>)

  predicate UserUpdateValid(u: UserUpdate)
  {
    u.fullName.Set? ==> FullNameOk(u.fullName.value)
  }

  /** `AdminUserUpdate`: only the role and the active flag, each optional. */
  datatype AdminUserUpdate = AdminUserUpdate(role: Maybe<UserRole>, isActive: Maybe<bool>)

  /** `UserPublic`: what a response shows of a user; there is no password field. */
  datatype UserPublic = UserPublic(email: string, fullName: Option<string>, isActive: bool, role: UserRole)

  /**
   * The response view of a user: email, full name, active flag and role copied from the record, and nothing
   * of the hash. The schema's default role USER never applies, since a stored user always has a role.
   */
  function ToUserPublic(u: User): (p: UserPublic)
    ensures p.email == u.email && p.fullName == u.fullName && p.isActive == u.isActive && p.role == u.role
  {
    UserPublic(u.email, u.fullName, u.isActive, u.role)
  }

  /** The public view of a user does not depend on the stored hash. */
  lemma UserPublicHidesPassword(u: User, hash: string)
    ensures ToUserPublic(u.(hashedPassword := hash)) == ToUserPublic(u)
  {
  }

  /** The fields of a user that an update schema can set. */
  datatype UserField = FullNameField(fullName: Option<string>) | RoleField(role: UserRole) | IsActiveField(isActive: bool)

  /** `setattr(user, field, value)` */
  function AssignUser(u: User, f: UserField): User
  {
    match f
    case FullNameField(n) => u.(fullName := n)
    case RoleField(r) => u.(role := r)
    case IsActiveField(a) => u.(isActive := a)
  }

  function UserUpdateFields(p: UserUpdate): seq<UserField>
  {
    if p.fullName.Set? then [FullNameField(p.fullName.value)] else []
  }

  function AdminUserUpdateFields(p: AdminUserUpdate): seq<UserField>
  {
    (if p.role.Set? then [RoleField(p.role.value)] else []) +
    (if p.isActive.Set? then [IsActiveField(p.isActive.value)] else [])
  }

  /** Patch semantics of a field that is set or left alone. */
  function Patched<T>(m: Maybe<T>, current: T): T
  {
    if m.Set? then m.value else current
  }

  /** Applying a `UserUpdate` changes the full name when it is set and nothing else. */
  lemma UserUpdateEffect(u: User, p: UserUpdate)
    ensures ApplyFields(AssignUser, u, UserUpdateFields(p)) == u.(fullName := Patched(p.fullName, u.fullName))
  {
    if p.fullName.Set? {
      assert UserUpdateFields(p)[..0] == [];
    }
  }

  /** Applying an `AdminUserUpdate` changes the role and the active flag that are set and nothing else. */
  lemma AdminUserUpdateEffect(u: User, p: AdminUserUpdate)
    ensures ApplyFields(AssignUser, u, AdminUserUpdateFields(p)) ==
            u.(role := Patched(p.role, u.role), isActive := Patched(p.isActive, u.isActive))
  {
    var fs := AdminUserUpdateFields(p);
    if |fs| == 2 {
      assert fs[..1] == [RoleField(p.role.value)] && fs[..1][..0] == [];
      assert ApplyFields(AssignUser, u, fs[..1]) == u.(role := p.role.value);
    } else if |fs| == 1 {
      assert fs[..0] == [];
    }
  }

  // ---- categories (app/schemas/category.py) ----

  datatype CategoryCreate = CategoryCreate(name: string)

  predicate CategoryCreateValid(c: CategoryCreate)
  {
    |c.name| <= 100
  }

  /** `CategoryUpdate`: only the name; there is no slug field. */
  datatype CategoryUpdate = CategoryUpdate(name: Maybe<string>)

  predicate CategoryUpdateValid(c: CategoryUpdate)
  {
    c.name.Set? ==> |c.name.value| <= 100
  }

  datatype CategoryField = NameField(name: string)

  function AssignCategory(c: Category, f: CategoryField): Category
  {
    c.(name := f.name)
  }

  function CategoryUpdateFields(p: CategoryUpdate): seq<CategoryField>
  {
    if p.name.Set? then [NameField(p.name.value)] else []
  }

  /** Applying a `CategoryUpdate` renames the category when a name is set; the slug never changes. */
  lemma CategoryUpdateEffect(c: Category, p: CategoryUpdate)
    ensures ApplyFields(AssignCategory, c, CategoryUpdateFields(p)) == c.(name := Patched(p.name, c.name))
    ensures ApplyFields(AssignCategory, c, CategoryUpdateFields(p)).slug == c.slug
  {
    if p.name.Set? {
      assert CategoryUpdateFields(p)[..0] == [];
    }
  }

  datatype CategoryPublic = CategoryPublic(id: Id, dateCreated: Time, name: string, slug: string)

  predicate CategoryPublicValid(c: CategoryPublic)
  {
    |c.name| <= 100 && |c.slug| <= 255
  }

  /**
   * The public view of a stored category: id, timestamp, name and slug copied. It is always valid, because the
   * column lengths match the schema bounds.
   */
  function ToCategoryPublic(r: Row<Category>): (p: CategoryPublic)
    requires CategoryColumnsOk(r.rec)
    ensures CategoryPublicValid(p)
    ensures p.id == r.id && p.dateCreated == r.dateCreated && p.name == r.rec.name && p.slug == r.rec.slug
  {
    CategoryPublic(r.id, r.dateCreated, r.rec.name, r.rec.slug)
  }

  // ---- posts (app/schemas/post.py) ----

  predicate TitleOk(t: string)
  {
    |t| <= 255
  }

  datatype PostCreate = PostCreate(title: string, categoryId: Id, contentHtml: string)

  predicate PostCreateValid(p: PostCreate)
  {
    TitleOk(p.title)
  }

  datatype PostUpdate = PostUpdate(title: Maybe<string>, contentHtml: Maybe<string>)

  predicate PostUpdateValid(p: PostUpdate)
  {
    p.title.Set? ==> TitleOk(p.title.value)
  }

  /** `PostPublic`: the list view, without the content. */
  datatype PostPublic = PostPublic(id: Id, dateCreated: Time, title: string, slug: string, categoryId: Id)

  /** `PostContent`: the detail view, with the content. */
  datatype PostContent = PostContent(id: Id, dateCreated: Time, title: string, slug: string, categoryId: Id,
                                     contentHtml: string)

  predicate PostPublicValid(p: PostPublic)
  {
    TitleOk(p.title) && |p.slug| <= 255
  }

  predicate PostContentValid(p: PostContent)
  {
    TitleOk(p.title) && |p.slug| <= 255
  }

  /** The list view of a stored post: its id, timestamp, title, slug and category, without the content. */
  function ToPostPublic(r: Row<Post>): (p: PostPublic)
    requires PostColumnsOk(r.rec)
    ensures PostPublicValid(p)
    ensures p.id == r.id && p.title == r.rec.title && p.slug == r.rec.slug && p.categoryId == r.rec.categoryId
  {
    PostPublic(r.id, r.dateCreated, r.rec.title, r.rec.slug, r.rec.categoryId)
  }

  /** The detail view of a stored post: the fields of the list view and the stored (sanitised) content. */
  function ToPostContent(r: Row<Post>): (p: PostContent)
    requires PostColumnsOk(r.rec)
    ensures PostContentValid(p)
    ensures p.id == r.id && p.title == r.rec.title && p.slug == r.rec.slug && p.categoryId == r.rec.categoryId
    ensures p.contentHtml == r.rec.contentHtml
  {
    PostContent(r.id, r.dateCreated, r.rec.title, r.rec.slug, r.rec.categoryId, r.rec.contentHtml)
  }

  /** The list view is the detail view without the content. */
  lemma PublicIsContentWithoutBody(r: Row<Post>)
    requires PostColumnsOk(r.rec)
    ensures var c := ToPostContent(r);
            ToPostPublic(r) == PostPublic(c.id, c.dateCreated, c.title, c.slug, c.categoryId)
  {
  }

  // ---- pagination (app/schemas/pagination.py) ----

  datatype Page<T> = Page(items: seq<T>, total: int, page: int, size: int, pages: int)

  predicate PageValid<T>(p: Page<T>)
  {
    p.total >= 0 && p.page >= 1 && 1 <= p.size <= 100 && p.pages >= 1
  }

  // ---- auth (app/schemas/auth.py) ----

  datatype Token = Token(accessToken: string, refreshToken: string, tokenType: string)

  /** `token_type` is the literal "bearer". */
  predicate TokenValid(t: Token)
  {
    t.tokenType == "bearer"
  }

  /** A token pair whose `token_type` is the schema's default "bearer", the only value the Literal admits. */
  function BearerToken(access: string, refresh: string): (t: Token)
    ensures TokenValid(t) && t.accessToken == access && t.refreshToken == refresh
  {
    Token(access, refresh, "bearer")
  }

  datatype RefreshRequest = RefreshRequest(refreshToken: string)
}
