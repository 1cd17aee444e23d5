/** The handlers of app/api/v1/endpoints/posts.py, with the framework stripped away. */
module PostsApi {
  import opened Prelude
  import opened Constants
  import opened Ordering
  import opened Crud
  import opened Models
  import opened Schemas
  import opened Foreign
  import opened Api
  import opened Slugs
  import PostService

  function SlugColumn(r: Row<Post>): string
  {
    r.rec.slug
  }

  /**
   * `get_posts`: a page of posts in the requested order. Page parameters outside their bounds are answered
   * with 422, a column that is not in POST_ORDER_FIELDS with 400 before any query. The total counts every post.
   */
  function ListPosts(posts: Table<Post>, page: int, size: int, orderBy: string, dir: OrderDirection)
    : (r: Response<Page<Row<Post>>>)
    reads posts
    requires posts.Valid()
    ensures r.Error? ==> r.status == 422 || r.status == 400
    ensures r.Error? && r.status == 422 <==> !PageQueryOk(page, size)
    ensures r.Error? && r.status == 400 <==> PageQueryOk(page, size) && orderBy != "title" && orderBy != "date_created"
    ensures r.Ok? ==> && r.status == 200
                      && PageValid(r.body)
                      && r.body.total == |posts.rows|
                      && r.body.items == posts.Paginate([], page, size, PostService.OrderColumn(orderBy), dir).0
  {
    if !PageQueryOk(page, size) then Error(422, InvalidRequest)
    else
      match PostService.OrderColumn(orderBy)
      case None => Error(400, "This column is not sortable or does not exist: " + orderBy)
      case Some(column) =>
        var (items, total) := posts.PaginateCounted([], page, size, Some(column), dir);
        posts.UnfilteredCountIsTableSize();
        Ok(200, MakePage(items, total, page, size))
  }

  /** `get_post`: the post with the slug, or 404 exactly when no post has it. */
  function GetPost(posts: Table<Post>, slug: string): (r: Response<Row<Post>>)
    reads posts
    requires posts.Valid()
    ensures r.Error? <==> forall k :: k in posts.rows ==> posts.rows[k].rec.slug != slug
    ensures r.Error? ==> r == Error(404, "Post not found")
    ensures r.Ok? ==> && r.status == 200 && r.body.rec.slug == slug
                      && r.body.id in posts.rows && posts.rows[r.body.id] == r.body
  {
    match posts.GetBy(SlugColumn, slug)
    case None => Error(404, "Post not found")
    case Some(p) => Ok(200, p)
  }

  /**
   * `create_post`: 422 for an invalid body; otherwise the service's create, whose database refusal (a category
   * that does not exist, a slug too long for its column) surfaces as 500. A valid post for an existing category
   * whose generated slug fits is added.
   */
  method CreatePost(posts: Table<Post>, categories: Table<Category>, x: Externals, obj: PostCreate, now: Time)
    returns (r: Response<Row<Post>>)
    requires PostService.PostsTable(posts) && categories.Valid()
    modifies posts
    ensures PostService.PostsTable(posts)
    ensures !PostCreateValid(obj) ==> r == Error(422, InvalidRequest)
    ensures PostCreateValid(obj) && obj.categoryId !in categories.rows ==> r == Error(500, ServerError)
    ensures var p := PostService.NewPost(obj, UniqueSlug(UsedSlugs(old(posts.rows), PostSlug), x.slugify(obj.title)), x.clean);
            && (r.Ok? <==> PostCreateValid(obj) && obj.categoryId in categories.rows && PostColumnsOk(p))
            && (r.Error? && PostCreateValid(obj) ==> r == Error(500, ServerError))
            && (r.Ok? ==> && r.status == 200 && r.body == Row(r.body.id, now, p)
                          && r.body.id !in old(posts.rows)
                          && posts.rows == old(posts.rows)[r.body.id := r.body])
    ensures r.Error? ==> posts.rows == old(posts.rows)
  {
    if !PostCreateValid(obj) {
      return Error(422, InvalidRequest);
    }
    var res := PostService.Create(posts, categories, x, obj, now);
    if res.Failed? {
      return Error(500, ServerError);
    }
    r := Ok(200, res.value);
  }

  /**
   * `update_post`: 422 for an invalid body, 404 when the identifier names no post (looked up as a UUID first,
   * as a slug otherwise), otherwise the service's update, which keeps the slug.
   */
  method UpdatePost(posts: Table<Post>, x: Externals, identifier: string, patch: PostUpdate)
    returns (r: Response<Row<Post>>)
    requires PostService.PostsTable(posts)
    modifies posts
    ensures PostService.PostsTable(posts)
    ensures !PostUpdateValid(patch) ==> r == Error(422, InvalidRequest)
    ensures PostUpdateValid(patch) ==>
              (r.Error? <==> old(Resolve(posts, x.parseUuid, PostSlug, identifier)).None?)
    ensures PostUpdateValid(patch) && r.Error? ==> r == Error(404, "Post not found")
    ensures var found := old(Resolve(posts, x.parseUuid, PostSlug, identifier));
            r.Ok? ==> found.Some? && r.body.id == found.value.id
    ensures r.Error? ==> posts.rows == old(posts.rows)
    ensures r.Ok? ==> && r.status == 200 && r.body.id in old(posts.rows)
                      && r.body.rec == PostService.Updated(old(posts.rows)[r.body.id].rec, patch, x.clean)
                      && posts.rows == old(posts.rows)[r.body.id := r.body]
  {
    if !PostUpdateValid(patch) {
      return Error(422, InvalidRequest);
    }
    var post := Resolve(posts, x.parseUuid, PostSlug, identifier);
    if post.None? {
      return Error(404, "Post not found");
    }
    var row := PostService.Update(posts, x, post.value.id, patch);
    r := Ok(200, row);
  }

  /**
   * `delete_post`: 404 when the identifier names no post; otherwise removes it and returns it as it was, after
   * which looking its slug up finds nothing.
   */
  method DeletePost(posts: Table<Post>, parseUuid: string -> Option<Id>, identifier: string)
    returns (r: Response<Row<Post>>)
    requires PostService.PostsTable(posts)
    modifies posts
    ensures PostService.PostsTable(posts)
    ensures r.Error? <==> old(Resolve(posts, parseUuid, PostSlug, identifier)).None?
    ensures r.Error? ==> r == Error(404, "Post not found") && posts.rows == old(posts.rows)
    ensures var found := old(Resolve(posts, parseUuid, PostSlug, identifier));
            r.Ok? ==> found.Some? && r.body == found.value
    ensures r.Ok? ==> && r.status == 200 && r.body.id in old(posts.rows)
                      && r.body == old(posts.rows)[r.body.id]
                      && posts.rows == old(posts.rows) - {r.body.id}
                      && GetPost(posts, r.body.rec.slug) == Error(404, "Post not found")
  {
    var post := Resolve(posts, parseUuid, PostSlug, identifier);
    if post.None? {
      return Error(404, "Post not found");
    }
    var id := post.value.id;
    assert PostUnique[0] == PostSlug;
    assert forall k :: k in posts.rows && k != id ==> posts.rows[k].rec.slug != posts.rows[id].rec.slug;
    var removed := posts.Remove(id);
    r := Ok(200, removed.value);
  }
}
