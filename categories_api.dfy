/** The handlers of app/api/v1/endpoints/categories.py, with the framework stripped away. */
module CategoriesApi {
  import opened Prelude
  import opened Constants
  import opened Ordering
  import opened Crud
  import opened Models
  import opened Schemas
  import opened Api
  import opened Slugs
  import CategoryService
  import PostService

  function SlugColumn(r: Row<Category>): string
  {
    r.rec.slug
  }

  function NameColumn(r: Row<Category>): string
  {
    r.rec.name
  }

  /**
   * `get_categories`: a page of categories in the requested order. Page parameters outside their bounds are
   * answered with 422, a column that is not in CATEGORY_ORDER_FIELDS with 400 before any query. The total
   * counts every category.
   */
  function ListCategories(categories: Table<Category>, page: int, size: int, orderBy: string, dir: OrderDirection)
    : (r: Response<Page<Row<Category>>>)
    reads categories
    requires categories.Valid()
    ensures r.Error? ==> r.status == 422 || r.status == 400
    ensures r.Error? && r.status == 422 <==> !PageQueryOk(page, size)
    ensures r.Error? && r.status == 400 <==> PageQueryOk(page, size) && orderBy != "name" && orderBy != "date_created"
    ensures r.Ok? ==> && r.status == 200
                      && PageValid(r.body)
                      && r.body.total == |categories.rows|
                      && r.body.items == categories.Paginate([], page, size, CategoryService.OrderColumn(orderBy), dir).0
  {
    if !PageQueryOk(page, size) then Error(422, InvalidRequest)
    else
      match CategoryService.OrderColumn(orderBy)
      case None => Error(400, "This column is not sortable or does not exist: " + orderBy)
      case Some(column) =>
        var (items, total) := categories.PaginateCounted([], page, size, Some(column), dir);
        categories.UnfilteredCountIsTableSize();
        Ok(200, MakePage(items, total, page, size))
  }

  /** The filter `Post.category_id == category.id`. */
  function InCategory(category: Id): Row<Post> -> bool
  {
    (r: Row<Post>) => r.rec.categoryId == category
  }

  /** The rows matching the category filter are the category's posts. */
  lemma InCategoryMatchesPostsOf(posts: map<Id, Row<Post>>, category: Id)
    ensures Matching(posts, [InCategory(category)]) == PostsOf(posts, category)
  {
    forall k | k in posts ensures MatchesAll([InCategory(category)], posts[k]) <==> posts[k].rec.categoryId == category {
      assert [InCategory(category)][0] == InCategory(category);
    }
  }

  /**
   * The page of a category's posts, oldest first: the page `paginate` draws from the posts whose category_id is
   * the category, with a total that counts that category's posts.
   */
  function CategoryPostsPage(posts: Table<Post>, c: Id, page: int, size: int): (p: Page<Row<Post>>)
    reads posts
    requires posts.Valid() && PageQueryOk(page, size)
    ensures PageValid(p) && p.page == page && p.size == size
    ensures p.items == posts.Paginate([InCategory(c)], page, size, Some(PostService.DateCreatedKey), ASC).0
    ensures p.total == |PostsOf(posts.rows, c)|
    ensures forall x :: x in p.items ==> x.id in posts.rows && posts.rows[x.id] == x && x.rec.categoryId == c
  {
    var filters := [InCategory(c)];
    var (items, total) := posts.PaginateCounted(filters, page, size, Some(PostService.DateCreatedKey), ASC);
    posts.PaginateItemsMatch(filters, page, size, Some(PostService.DateCreatedKey), ASC);
    InCategoryMatchesPostsOf(posts.rows, c);
    assert filters[0] == InCategory(c);
    MakePage(items, total, page, size)
  }

  /**
   * `get_posts_for_category`: 404 when no category has the slug; otherwise the page of that category's posts,
   * oldest first, with a total that counts that category's posts.
   */
  function PostsOfCategory(categories: Table<Category>, posts: Table<Post>, slug: string, page: int, size: int)
    : (r: Response<Page<Row<Post>>>)
    reads categories, posts
    requires categories.Valid() && posts.Valid()
    ensures r.Error? ==> r.status == 422 || r.status == 404
    ensures r.Error? && r.status == 422 <==> !PageQueryOk(page, size)
    ensures r.Error? && r.status == 404 <==>
              PageQueryOk(page, size) && forall k :: k in categories.rows ==> SlugColumn(categories.rows[k]) != slug
    ensures r.Ok? ==> r.status == 200 && PageValid(r.body)
  {
    if !PageQueryOk(page, size) then Error(422, InvalidRequest)
    else
      var category := categories.GetBy(SlugColumn, slug);
      if category.None? then Error(404, "Category not found")
      else
        Ok(200, CategoryPostsPage(posts, category.value.id, page, size))
  }

  /**
   * For the category that holds the slug, the answer is the page of that category's posts: slugs are
   * unique, so the lookup cannot land on another category.
   */
  lemma PostsOfCategoryPage(categories: Table<Category>, posts: Table<Post>, slug: string, page: int, size: int, c: Id)
    requires CategoryService.CategoriesTable(categories) && posts.Valid() && PageQueryOk(page, size)
    requires c in categories.rows && categories.rows[c].rec.slug == slug
    ensures PostsOfCategory(categories, posts, slug, page, size) == Ok(200, CategoryPostsPage(posts, c, page, size))
  {
    var found := categories.GetBy(SlugColumn, slug);
    assert SlugColumn(categories.rows[c]) == slug;
    CategoryIdentified(categories, found.value.id, c);
  }

  /**
   * `create_category`: 422 for an invalid body; 400 "Category already exists", with the store unchanged, when
   * a category has the name; otherwise the service's create, whose database refusal (a generated slug too long
   * for its column) surfaces as 500.
   */
  method CreateCategory(categories: Table<Category>, slugify: string -> string, obj: CategoryCreate, now: Time)
    returns (r: Response<Row<Category>>)
    requires CategoryService.CategoriesTable(categories)
    modifies categories
    ensures CategoryService.CategoriesTable(categories)
    ensures !CategoryCreateValid(obj) ==> r == Error(422, InvalidRequest)
    ensures r == Error(400, "Category already exists") <==>
              CategoryCreateValid(obj) && CategoryService.NameTaken(old(categories.rows), obj.name)
    ensures var used := UsedSlugs(old(categories.rows), CategorySlug);
            var c := Category(obj.name, UniqueSlug(used, slugify(obj.name)));
            && (r.Ok? <==> CategoryCreateValid(obj) && !CategoryService.NameTaken(old(categories.rows), obj.name) &&
                           CategoryColumnsOk(c))
            && (r == Error(500, ServerError) <==>
                  CategoryCreateValid(obj) && !CategoryService.NameTaken(old(categories.rows), obj.name) &&
                  !CategoryColumnsOk(c))
            && (r.Ok? ==> && r.status == 200 && r.body == Row(r.body.id, now, c)
                          && r.body.id !in old(categories.rows)
                          && categories.rows == old(categories.rows)[r.body.id := r.body])
    ensures r.Error? ==> categories.rows == old(categories.rows)
  {
    if !CategoryCreateValid(obj) {
      return Error(422, InvalidRequest);
    }
    var existing := categories.GetBy(NameColumn, obj.name);
    if existing.Some? {
      return Error(400, "Category already exists");
    }
    var res := CategoryService.Create(categories, slugify, obj, now);
    if res.Failed? {
      return Error(500, ServerError);
    }
    r := Ok(200, res.value);
  }

  /** `get_category`: the category the identifier names, or 404. */
  function GetCategory(categories: Table<Category>, parseUuid: string -> Option<Id>, identifier: string)
    : (r: Response<Row<Category>>)
    reads categories
    requires categories.Valid()
    ensures r.Error? <==> Resolve(categories, parseUuid, CategorySlug, identifier).None?
    ensures r.Error? ==> r == Error(404, "Category not found")
    ensures r.Ok? ==> && r.status == 200 && r.body == Resolve(categories, parseUuid, CategorySlug, identifier).value
                      && r.body.id in categories.rows && categories.rows[r.body.id] == r.body
  {
    match Resolve(categories, parseUuid, CategorySlug, identifier)
    case None => Error(404, "Category not found")
    case Some(c) => Ok(200, c)
  }

  /**
   * `update_category`: 422 for an invalid body, 404 when the identifier names no category, otherwise the
   * repository's update of that category: the slug is kept, and a name another category holds surfaces as 500.
   */
  method UpdateCategory(categories: Table<Category>, parseUuid: string -> Option<Id>, identifier: string,
                        patch: CategoryUpdate)
    returns (r: Response<Row<Category>>)
    requires CategoryService.CategoriesTable(categories)
    modifies categories
    ensures CategoryService.CategoriesTable(categories)
    ensures !CategoryUpdateValid(patch) ==> r == Error(422, InvalidRequest)
    ensures CategoryUpdateValid(patch) ==>
              (r == Error(404, "Category not found") <==> old(Resolve(categories, parseUuid, CategorySlug, identifier)).None?)
    ensures var found := old(Resolve(categories, parseUuid, CategorySlug, identifier));
            && (r == Error(500, ServerError) <==>
                  CategoryUpdateValid(patch) && found.Some? &&
                  CategoryService.NameTakenByOther(old(categories.rows), Patched(patch.name, found.value.rec.name),
                                                   found.value.id))
            && (r.Ok? <==> CategoryUpdateValid(patch) && found.Some? &&
                           !CategoryService.NameTakenByOther(old(categories.rows), Patched(patch.name, found.value.rec.name),
                                                             found.value.id))
            && (r.Ok? ==> found.Some? && r.body.id == found.value.id)
    ensures r.Error? ==> r == Error(422, InvalidRequest) || r == Error(404, "Category not found") ||
                         r == Error(500, ServerError)
    ensures r.Error? ==> categories.rows == old(categories.rows)
    ensures r.Ok? ==> && r.status == 200 && r.body.id in old(categories.rows)
                      && r.body.rec.slug == old(categories.rows)[r.body.id].rec.slug
                      && r.body.rec.name == Patched(patch.name, old(categories.rows)[r.body.id].rec.name)
                      && categories.rows == old(categories.rows)[r.body.id := r.body]
  {
    if !CategoryUpdateValid(patch) {
      return Error(422, InvalidRequest);
    }
    var category := Resolve(categories, parseUuid, CategorySlug, identifier);
    if category.None? {
      return Error(404, "Category not found");
    }
    var res := CategoryService.Update(categories, category.value.id, patch);
    if res.Failed? {
      return Error(500, ServerError);
    }
    r := Ok(200, res.value);
  }

  /** Some post still refers to the category. */
  predicate HasPosts(posts: map<Id, Row<Post>>, category: Id)
  {
    exists k :: k in posts && posts[k].rec.categoryId == category
  }

  /** The handler's test for referring posts is the test that `Category.posts` is not empty. */
  lemma HasPostsIffPostsOf(posts: map<Id, Row<Post>>, category: Id)
    ensures HasPosts(posts, category) <==> PostsOf(posts, category) != {}
  {
    if HasPosts(posts, category) {
      var k :| k in posts && posts[k].rec.categoryId == category;
      assert k in PostsOf(posts, category);
    }
  }

  /**
   * `delete_category`: 404 when the identifier names no category; otherwise removes it and returns it as it
   * was. While posts still refer to it, the database refuses the delete (their category_id cannot be set to
   * NULL), which surfaces as 500.
   */
  method DeleteCategory(categories: Table<Category>, posts: Table<Post>, parseUuid: string -> Option<Id>,
                        identifier: string)
    returns (r: Response<Row<Category>>)
    requires categories.Valid() && posts.Valid()
    modifies categories
    ensures categories.Valid()
    ensures r == Error(404, "Category not found") <==> old(Resolve(categories, parseUuid, CategorySlug, identifier)).None?
    ensures r.Error? ==> categories.rows == old(categories.rows)
    ensures var found := old(Resolve(categories, parseUuid, CategorySlug, identifier));
            && (r == Error(500, ServerError) <==> found.Some? && PostsOf(posts.rows, found.value.id) != {})
            && (r.Ok? <==> found.Some? && PostsOf(posts.rows, found.value.id) == {})
            && (r.Ok? ==> found.Some? && r.body == found.value)
    ensures r.Error? ==> r == Error(404, "Category not found") || r == Error(500, ServerError)
    ensures r.Ok? ==> && r.status == 200 && r.body.id in old(categories.rows)
                      && r.body == old(categories.rows)[r.body.id]
                      && PostsOf(posts.rows, r.body.id) == {}
                      && categories.rows == old(categories.rows) - {r.body.id}
  {
    var category := Resolve(categories, parseUuid, CategorySlug, identifier);
    if category.None? {
      return Error(404, "Category not found");
    }
    HasPostsIffPostsOf(posts.rows, category.value.id);
    if HasPosts(posts.rows, category.value.id) {
      return Error(500, ServerError);
    }
    var removed := categories.Remove(category.value.id);
    r := Ok(200, removed.value);
  }
}
