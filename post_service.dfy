/**
 * `PostService` (app/services/post.py): create assigns a unique slug generated from the title and stores the
 * sanitised content; update sanitises new content and sets the other fields the patch carries.
 */
module PostService {
  import opened Prelude
  import opened Constants
  import opened Ordering
  import opened Crud
  import opened Models
  import opened Schemas
  import opened Foreign
  import opened Slugs

  /** The posts table: unique slugs and the posts column lengths. */
  ghost predicate PostsTable(t: Table<Post>)
    reads t
  {
    t.Valid() && t.unique == PostUnique && t.check == PostColumnsOk
  }

  function TitleKey(r: Row<Post>): Key
  {
    Text(r.rec.title)
  }

  function DateCreatedKey(r: Row<Post>): Key
  {
    Num(r.dateCreated)
  }

  /** `POST_ORDER_FIELDS.get(name)`: the sortable columns are exactly title and date_created. */
  function OrderColumn(name: string): (c: Option<Row<Post> -> Key>)
    ensures c.Some? <==> name == "title" || name == "date_created"
    ensures name == "title" ==> c == Some(TitleKey)
    ensures name == "date_created" ==> c == Some(DateCreatedKey)
  {
    if name == "title" then Some(TitleKey)
    else if name == "date_created" then Some(DateCreatedKey)
    else None
  }

  /** A post whose slug no other row holds clashes with nothing in the posts table. */
  lemma NoClashWithFreeSlug(rows: map<Id, Row<Post>>, p: Post, except: Option<Id>)
    requires forall k :: k in rows && Some(k) != except ==> rows[k].rec.slug != p.slug
    ensures !Clashes(rows, PostUnique, p, except)
  {
    assert PostUnique[0] == PostSlug;
  }

  /** The post `create` builds: the title and category copied, the content sanitised, the generated slug. */
  function NewPost(obj: PostCreate, slug: string, clean: (string, seq<string>, map<string, seq<string>>, bool) -> string)
    : (p: Post)
    ensures p.title == obj.title && p.categoryId == obj.categoryId && p.slug == slug
    ensures p.contentHtml == clean(obj.contentHtml, AllowedTags, AllowedAttributes, true)
  {
    SetContentHtml(Post(obj.title, obj.contentHtml, slug, obj.categoryId), obj.contentHtml, clean)
  }

  /**
   * `create`: the slug is the first free candidate generated from the title, so it is unique among posts; the
   * title and the category are copied and the content is the sanitiser's output, not the raw input. It
   * succeeds exactly when the category exists and the title and slug fit their columns: a category that does
   * not exist is refused by the foreign key, and the unique constraint never fires.
   */
  method Create(posts: Table<Post>, categories: Table<Category>, x: Externals, obj: PostCreate, now: Time)
    returns (res: Result<Row<Post>>)
    requires PostsTable(posts) && categories.Valid()
    modifies posts
    ensures PostsTable(posts)
    ensures var used := UsedSlugs(old(posts.rows), PostSlug);
            var p := NewPost(obj, UniqueSlug(used, x.slugify(obj.title)), x.clean);
            && (res.Done? <==> obj.categoryId in categories.rows && PostColumnsOk(p))
            && (res.Done? ==> && res.value == Row(res.value.id, now, p)
                              && FirstFree(used, x.slugify(obj.title), p.slug)
                              && res.value.id !in old(posts.rows)
                              && posts.rows == old(posts.rows)[res.value.id := res.value])
    ensures obj.categoryId !in categories.rows ==> res == Failed(ForeignKeyViolation)
    ensures res.Failed? && obj.categoryId in categories.rows ==> res.error == ColumnViolation
    ensures res.Failed? ==> posts.rows == old(posts.rows)
  {
    var slug := GenerateUniqueSlug(posts, PostSlug, x.slugify, obj.title);
    var p := NewPost(obj, slug, x.clean);
    if obj.categoryId !in categories.rows {
      return Failed(ForeignKeyViolation);
    }
    UsedSlugsMembership(posts.rows, PostSlug, slug);
    NoClashWithFreeSlug(posts.rows, p, None);
    res := posts.Create(p, now);
  }

  /** The fields of a post that `PostUpdate` can set. */
  datatype PostField = TitleField(title: string) | ContentField(html: string)

  /** The content goes through `set_content_html`; every other field is a plain `setattr`. */
  function ApplyPostField(p: Post, f: PostField, clean: (string, seq<string>, map<string, seq<string>>, bool) -> string)
    : Post
  {
    match f
    case ContentField(h) => SetContentHtml(p, h, clean)
    case TitleField(t) => p.(title := t)
  }

  /** `model_dump(exclude_unset=True)` with the content popped first and the rest applied after it. */
  function UpdateFields(patch: PostUpdate): seq<PostField>
  {
    (if patch.contentHtml.Set? then [ContentField(patch.contentHtml.value)] else []) +
    (if patch.title.Set? then [TitleField(patch.title.value)] else [])
  }

  /** The post as `update` leaves it: new content sanitised, title patched, slug and category kept. */
  function Updated(p: Post, patch: PostUpdate, clean: (string, seq<string>, map<string, seq<string>>, bool) -> string)
    : Post
  {
    Post(Patched(patch.title, p.title),
         if patch.contentHtml.Set? then clean(patch.contentHtml.value, AllowedTags, AllowedAttributes, true)
         else p.contentHtml,
         p.slug, p.categoryId)
  }

  /** Applying the update fields one by one yields `Updated`. */
  lemma UpdateFieldsEffect(assign: (Post, PostField) -> Post,
                           clean: (string, seq<string>, map<string, seq<string>>, bool) -> string,
                           p: Post, patch: PostUpdate)
    requires forall q, f :: assign(q, f) == ApplyPostField(q, f, clean)
    ensures ApplyFields(assign, p, UpdateFields(patch)) == Updated(p, patch, clean)
  {
    var fs := UpdateFields(patch);
    if |fs| == 2 {
      assert fs[..1] == [ContentField(patch.contentHtml.value)] && fs[..1][..0] == [];
      assert ApplyFields(assign, p, fs[..1]) == SetContentHtml(p, patch.contentHtml.value, clean);
    } else if |fs| == 1 {
      assert fs[..0] == [];
    }
  }

  /**
   * `update`: sets the fields the patch carries, sanitising new content; the slug and the category are
   * unchanged. A valid patch cannot be refused.
   */
  method Update(posts: Table<Post>, x: Externals, id: Id, patch: PostUpdate) returns (row: Row<Post>)
    requires PostsTable(posts) && id in posts.rows
    requires PostUpdateValid(patch)
    modifies posts
    ensures PostsTable(posts)
    ensures row == old(posts.rows)[id].(rec := Updated(old(posts.rows)[id].rec, patch, x.clean))
    ensures row.rec.slug == old(posts.rows)[id].rec.slug && row.rec.categoryId == old(posts.rows)[id].rec.categoryId
    ensures posts.rows == old(posts.rows)[id := row]
  {
    var assign := (q: Post, f: PostField) => ApplyPostField(q, f, x.clean);
    var current := posts.rows[id].rec;
    UpdateFieldsEffect(assign, x.clean, current, patch);
    var updated := Updated(current, patch, x.clean);
    forall k | k in posts.rows && Some(k) != Some(id) ensures posts.rows[k].rec.slug != updated.slug {
      if posts.rows[k].rec.slug == updated.slug {
        PostIdentified(posts, k, id);
      }
    }
    NoClashWithFreeSlug(posts.rows, updated, Some(id));
    var r := posts.Update(id, UpdateFields(patch), assign);
    row := r.value;
  }
}
