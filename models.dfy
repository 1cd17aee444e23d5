/**
 * The ORM records of app/models: users, categories and posts, their column constraints (String(n) lengths,
 * NOT NULL is implicit in the Dafny types), their unique columns and defaults, and `Post.set_content_html`.
 */
module Models {
  import opened Prelude
  import opened Constants
  import opened Crud

  datatype User = User(email: string, fullName: Option<string>, hashedPassword: string, isActive: bool, role: UserRole)

  datatype Category = Category(name: string, slug: string)

  datatype Post = Post(title: string, contentHtml: string, slug: string, categoryId: Id)

  /**
   * A user built from the three columns a caller gives. The other two take their column defaults: `is_active`
   * is True and `role` is USER.
   */
  function NewUser(email: string, fullName: Option<string>, hashedPassword: string): (u: User)
    ensures u.isActive && u.role == USER
    ensures u.email == email && u.fullName == fullName && u.hashedPassword == hashedPassword
  {
    User(email, fullName, hashedPassword, true, USER)
  }

  /** The column lengths of the users table. */
  predicate UserColumnsOk(u: User)
  {
    && |u.email| <= 255
    && (u.fullName.Some? ==> |u.fullName.value| <= 255)
    && |u.hashedPassword| <= 255
    && |RoleText(u.role)| <= 16
  }

  /** The column lengths of the categories table. */
  predicate CategoryColumnsOk(c: Category)
  {
    |c.name| <= 100 && |c.slug| <= 255
  }

  /** The column lengths of the posts table; content_html is Text and unbounded. */
  predicate PostColumnsOk(p: Post)
  {
    |p.title| <= 255 && |p.slug| <= 255
  }

  /** The unique columns. */
  function EmailOf(u: User): string { u.email }
  function CategoryName(c: Category): string { c.name }
  function CategorySlug(c: Category): string { c.slug }
  function PostSlug(p: Post): string { p.slug }

  const UserUnique: seq<User -> string> := [EmailOf]
  const CategoryUnique: seq<Category -> string> := [CategoryName, CategorySlug]
  const PostUnique: seq<Post -> string> := [PostSlug]

  /**
   * `set_content_html`: the content becomes the sanitiser's output for `html` under the configured allow-lists,
   * with disallowed tags stripped; no other column changes.
   */
  function SetContentHtml(p: Post, html: string, clean: (string, seq<string>, map<string, seq<string>>, bool) -> string)
    : (q: Post)
    ensures q.contentHtml == clean(html, AllowedTags, AllowedAttributes, true)
    ensures q.title == p.title && q.slug == p.slug && q.categoryId == p.categoryId
  {
    p.(contentHtml := clean(html, AllowedTags, AllowedAttributes, true))
  }

  /** `Category.posts`: the ids of the posts whose category_id is the category. */
  ghost function PostsOf(posts: map<Id, Row<Post>>, category: Id): set<Id>
  {
    set k | k in posts && posts[k].rec.categoryId == category
  }

  /** Two categories never share a name or a slug: either one identifies the row. */
  lemma CategoryIdentified(t: Table<Category>, a: Id, b: Id)
    requires t.Valid() && t.unique == CategoryUnique
    requires a in t.rows && b in t.rows
    requires t.rows[a].rec.name == t.rows[b].rec.name || t.rows[a].rec.slug == t.rows[b].rec.slug
    ensures a == b
  {
    assert CategoryUnique[0] == CategoryName && CategoryUnique[1] == CategorySlug;
  }

  /** Two users never share an email: the email identifies the row. */
  lemma UserIdentified(t: Table<User>, a: Id, b: Id)
    requires t.Valid() && t.unique == UserUnique
    requires a in t.rows && b in t.rows && t.rows[a].rec.email == t.rows[b].rec.email
    ensures a == b
  {
    assert UserUnique[0] == EmailOf;
  }

  /** Two posts never share a slug: the slug identifies the row. */
  lemma PostIdentified(t: Table<Post>, a: Id, b: Id)
    requires t.Valid() && t.unique == PostUnique
    requires a in t.rows && b in t.rows && t.rows[a].rec.slug == t.rows[b].rec.slug
    ensures a == b
  {
    assert PostUnique[0] == PostSlug;
  }
}
