# Blog backend core, modelled in Dafny

This project models the core of a FastAPI blog backend that has users, categories and posts. Each piece of the backend becomes one or more Dafny modules:

- **Store and repository.** The SQL store is an in-memory table per entity. `Crud.Table` holds a map from id to row, the unique columns and the column constraints. The generic repository of `app/db/crud.py` is modelled by its methods and functions: `get`, `get_by`, `paginate`, `create`, `update` (a loop over the set fields) and `remove`.
- **Unique slugs.** The slug generator of `app/core/utils.py` is a probing loop (`Slugs.GenerateUniqueSlug`). It is proved to return the first free candidate among `base`, `base-1`, `base-2`, ….
- **Services.** `UserService`, `CategoryService` and `PostService` cover:
  - duplicate-email rejection and `authenticate`;
  - the conflict-ignoring superuser insert;
  - slug assignment;
  - sanitised content;
  - the partial updates.
- **Bootstrap.** `Bootstrap` models the create-if-absent step of `app/db/session.py`.
- **Endpoints.** `Api`, `CategoriesApi`, `PostsApi` and `AuthApi` model the handlers of `app/api/v1/endpoints` with the framework removed. This covers:
  - the query bounds and the `pages` arithmetic;
  - the order-column check;
  - UUID-or-slug resolution;
  - the 400/401/404 branches;
  - the login and refresh chains.
- **Rate limiting.** `RateLimit.RateLimiter` models the per-client counter of `app/core/middlewares.py`.
- **Records and schemas.** `Models` and `Schemas` hold the records, their column bounds and the request/response schemas.

## What comes from outside the model

Some libraries are called but not modelled: python-slugify, bleach, the password hasher, the JWT helpers, UUID parsing and printing, and the email validator. The email validator (pydantic's `EmailStr`) is a partial function that returns the address in normal form, so the registration handler stores the normalised address. Each is a function-valued field of `Foreign.Externals`. What the core relies on about them is stated as a named predicate and used only as a hypothesis:

- `PasswordCodecSound`: a password verifies against its own hash.
- `HashFits`: a hash fits its column.
- `TokensRoundTrip`: an issued refresh token verifies and carries its subject.
- `UuidTextRoundTrip`: the text of an id parses back to that id.

Other outside inputs are parameters:

- Timestamps are `Time` values supplied by the caller.
- Ids are handed out by the table.

app/core/security.py is not part of this model.

## Behaviour of the code that the model makes explicit

- **Pagination total.** `paginate` counts the whole table (app/db/crud.py:65). The `Page.total` field documents a count that respects the filters (app/schemas/pagination.py:11-13). This mismatch is logged under "## Findings".
  - `Crud.Table.Paginate` models the code as written, and `Crud.Table.PaginateCounted` is the corrected version.
  - The two list endpoints pass no filters, so both totals agree there (`Crud.Table.UnfilteredCountIsTableSize`).
  - The posts-by-category endpoint (`CategoriesApi.CategoryPostsPage`) uses the corrected total, so there the model departs from the code. Take an empty category while 25 posts exist in other categories, with size 20. The code answers total 25 and 2 pages; the model answers total 0 and 1 page. The items are the same.
- **Deleting a category that still has posts.** The ORM nulls the posts' `category_id` when their category is deleted, but that column is not nullable. The database therefore refuses the delete, and the handler surfaces the refusal as 500. `CategoriesApi.DeleteCategory` models exactly that.
- **Email normal form.** Registration validates the body, so the stored email is the validator's normal form. Login takes the username from an OAuth2 form, which is not validated, and compares it with the stored email as given.
- **Row order the database leaves open.** `.first()` runs without ORDER BY, and ORDER BY on a column that is not unique leaves the order of equal keys open. The model fixes one order: `.first()` returns the matching row with the least id, and equal keys come in the order the insertion sort leaves them.

## Model

| member | source | states |
|---|---|---|
| `Crud.Table.Get` | app/db/crud.py:24-25 | The result is the row stored under the id, and it is None exactly when no row has that id. |
| `Crud.Table.GetBy` | app/db/crud.py:27-37 | The result is None exactly when no row's column equals the value. Otherwise it is a stored row whose column equals the value. Among several matches the model picks the one with the least id, an order the database leaves open. |
| `Crud.OrderBy` | app/db/crud.py:50-58 | ORDER BY returns the rows sorted by the key, in the requested direction, as a permutation of its input. |
| `Crud.Window` | app/db/crud.py:48-58 | OFFSET/LIMIT returns at most `size` elements. Element i of the result is element `offset + i` of the input. The window is short only when it reaches the end. |
| `Crud.Table.Listing` | app/db/crud.py:58-63 | It returns exactly the stored rows that satisfy every filter, sorted by the column, or by id when none is given. |
| `Crud.Table.Paginate` | app/db/crud.py:39-67 | At most `size` items. Item i is the row at position `(page-1)*size + i` of the filtered, ordered listing, and a short page reaches the end. The total is the size of the whole table. |
| `Crud.Table.PaginateItemsMatch` | app/db/crud.py:60-61 | Every item of a page is a stored row that satisfies all filters. |
| `Crud.Table.PaginateItemsSorted` | app/db/crud.py:50-56 | A page is sorted by the requested column and direction, by id when no column is given, ascending unless DESC. |
| `Crud.Table.ListingCount` | app/db/crud.py:58-63 | The filtered listing holds exactly as many rows as match the filters. |
| `Crud.Table.PaginateCounted` | app/schemas/pagination.py:11-13 | It returns the same items as `paginate`, with a total equal to the number of rows that match the filters. |
| `Crud.Table.UnfilteredCountIsTableSize` | app/db/crud.py:65 | With no filters, the number of matching rows is the table size, so the as-written total is right there. |
| `Crud.Table.PaginateTotalIgnoresFilters` | app/db/crud.py:65 | When one stored row fails a filter, the as-written total strictly exceeds the number of rows the pages draw from. |
| `Crud.Table.PageEmptyIffPastTotal` | app/schemas/pagination.py:9-13 | With the filtered total, a page is empty exactly when its offset is at or past the total. |
| `Crud.CountBelowSize` | app/db/crud.py:65 | If a row fails the filters, fewer rows match than the table holds. |
| `Crud.WhereScanCount` | app/db/crud.py:60-63 | Filtering a scan of an id range yields one row per matching key in that range. |
| `Crud.Table.All` | app/db/crud.py:33-37 | The model's scan of the whole table holds exactly the stored rows, in increasing id order; the query itself has no ORDER BY. |
| `Crud.FirstMatchInRows` | app/db/crud.py:33-37 | The model's `.first()` over its id-ordered scan finds the matching row with the least id, or shows that no row matches. |
| `Crud.Table.Create` | app/db/crud.py:86-93 | A bad column value fails with ColumnViolation. A clash on a unique column fails with UniqueViolation. Otherwise exactly one row with a fresh id is added, built from the record and the current time. A refusal leaves the table unchanged. |
| `Crud.Table.InsertOrIgnore` | app/services/user.py:40-52 | INSERT … ON CONFLICT DO NOTHING inserts the record exactly when the constraints accept it and nothing clashes. On a conflict the table is unchanged, and only a column constraint is an error. |
| `Crud.Table.Update` | app/db/crud.py:100-108 | The loop applies the set fields in order to the stored record. The write succeeds exactly when the constraints accept the result and no other row clashes. Then only that row changes, its id and timestamp are kept, and a refusal changes nothing. |
| `Crud.Table.Remove` | app/db/crud.py:74-79 | On an existing id it returns the pre-deletion row and deletes exactly that row. On a missing id it returns None and leaves the table unchanged. |
| `Crud.Table.constructor` | app/db/crud.py:20-22 | A new table is empty and valid and has the given unique columns and constraints. |
| `Ordering.PrecedesTotal` | app/db/crud.py:53-56 | Any two keys can be ordered in either direction. |
| `Ordering.PrecedesTransitive` | app/db/crud.py:53-56 | The ORDER BY relation is transitive in either direction. |
| `Ordering.TextLeTotal` | app/db/crud.py:53-56 | Code-point order on texts is total. |
| `Ordering.TextLeTransitive` | app/db/crud.py:53-56 | Code-point order on texts is transitive. |
| `Slugs.GenerateUniqueSlug` | app/core/utils.py:11-34 | The loop returns exactly `UniqueSlug` of the used slugs and the base. The result is held by no row, and it is a candidate `base` or `base-k` such that every earlier candidate is taken. When the base is free, the base itself is returned. The loop only reads, and it terminates because fewer used slugs remain unprobed after each step. |
| `Slugs.Decimal` | app/core/utils.py:31 | The suffix is a non-empty string of digits, one digit long exactly below 10. |
| `Slugs.DecimalInjective` | app/core/utils.py:31 | Different counters print differently. |
| `Slugs.CandidateInjective` | app/core/utils.py:31-32 | The generator never tries the same slug twice. |
| `Slugs.Taken` | app/core/utils.py:25-30 | The probe finds a row exactly when some stored row holds the slug. |
| `Slugs.FirstFreeFromIsFirstFree` | app/core/utils.py:25-32 | The slug the probing settles on is held by no row, every candidate before it is taken, and it is the base when the base is free. |
| `Slugs.FirstFreeUnique` | app/core/utils.py:25-32 | Only one slug is the first free candidate for a base, so "first free" determines the generated slug. |
| `Models.NewUser` | app/models/user.py:25-29 | A new user is active and has the USER role, with the given email, name and hash. |
| `Models.SetContentHtml` | app/models/post.py:30-40 | The content becomes the sanitiser's output for the input, under the configured tag and attribute allow-lists with strip on. Title, slug and category are unchanged. |
| `Models.UserColumnsOk` | app/models/user.py:11-29 | The users columns: email, full name and hash at most 255 characters, the role text at most 16. |
| `Models.CategoryColumnsOk` | app/models/category.py:15-21 | The categories columns: a name of at most 100 characters and a slug of at most 255. |
| `Models.PostColumnsOk` | app/models/post.py:18-25 | The posts columns: a title and a slug of at most 255 characters each; the content is unbounded Text. |
| `Models.CategoryIdentified` | app/models/category.py:15-21 | In a valid categories table, two rows that share a name or a slug are the same row. |
| `Models.UserIdentified` | app/models/user.py:11-16 | In a valid users table, two rows that share an email are the same row. |
| `Models.PostIdentified` | app/models/post.py:20-25 | In a valid posts table, two rows that share a slug are the same row. |
| `Schemas.ToUserPublic` | app/schemas/user.py:28-30 | The public view carries the email, name, active flag and role. |
| `Schemas.FullNameOk` | app/schemas/user.py:8-10 | A full name is absent or between 2 and 255 characters. |
| `Schemas.PasswordOk` | app/schemas/user.py:14 | A password is between 8 and 72 characters. |
| `Schemas.UserCreateValid` | app/schemas/user.py:6-14 | A registration body validates when the email validates and the name and password fit their bounds. |
| `Schemas.ParseUserCreate` | app/schemas/user.py:7 | Validation replaces the email by its normal form and keeps the name and password. |
| `Schemas.UserUpdateValid` | app/schemas/user.py:17-20 | A set full name fits the full-name bounds; null is admitted. |
| `Schemas.UserPublicHidesPassword` | app/schemas/user.py:28-33 | The public view of a user does not depend on the stored hash. |
| `Schemas.UserUpdateEffect` | app/schemas/user.py:17-20 | A UserUpdate changes the full name when it is set, to a value or to null, and nothing else. |
| `Schemas.AdminUserUpdateEffect` | app/schemas/user.py:23-25 | An AdminUserUpdate changes exactly the role and active flag that are set. |
| `Schemas.CategoryUpdateEffect` | app/schemas/category.py:19-29 | A CategoryUpdate renames when a name is set and never changes the slug. |
| `Schemas.CategoryCreateValid` | app/schemas/category.py:6-16 | A category name has at most 100 characters. |
| `Schemas.CategoryUpdateValid` | app/schemas/category.py:19-29 | A set name has at most 100 characters. |
| `Schemas.CategoryPublicValid` | app/schemas/category.py:32-44 | The public view bounds: a name of at most 100 characters and a slug of at most 255. |
| `Schemas.ToCategoryPublic` | app/schemas/category.py:32-44 | A stored category always yields a valid public view: the name is at most 100 characters and the slug at most 255. |
| `Schemas.TitleOk` | app/schemas/post.py:13-18 | A title has at most 255 characters. |
| `Schemas.PostCreateValid` | app/schemas/post.py:21-29 | A post body validates when its title fits. |
| `Schemas.PostUpdateValid` | app/schemas/post.py:32-45 | A set title fits the title bound; the content is unbounded. |
| `Schemas.PostPublicValid` | app/schemas/post.py:48-58 | The list view bounds: the title and a slug of at most 255 characters. |
| `Schemas.PostContentValid` | app/schemas/post.py:64-77 | The detail view bounds: the title and a slug of at most 255 characters. |
| `Schemas.ToPostPublic` | app/schemas/post.py:48-58 | A stored post yields a valid list view with its id, title, slug and category. |
| `Schemas.ToPostContent` | app/schemas/post.py:64-77 | A stored post yields a valid detail view, which also carries the content. |
| `Schemas.PublicIsContentWithoutBody` | app/schemas/post.py:48-77 | The list view is the detail view without the content. |
| `Schemas.PageValid` | app/schemas/pagination.py:8-21 | The envelope bounds: total at least 0, page at least 1, size between 1 and 100, pages at least 1. |
| `Schemas.TokenValid` | app/schemas/auth.py:24 | The token type is the literal "bearer". |
| `Schemas.BearerToken` | app/schemas/auth.py:17-24 | A token pair built with the default type is valid, because its type is "bearer". |
| `UserService.Authenticate` | app/services/user.py:14-22 | A found user is stored, has the email and verifies the password. Nobody is found exactly when no user with that email verifies the password. |
| `UserService.AuthenticateStored` | app/services/user.py:14-22 | A user stored with the hash of a password authenticates with that password. |
| `UserService.Create` | app/services/user.py:24-35 | It refuses exactly when the email is taken, and then the store is unchanged. Otherwise it adds one active USER with the email, the name and the hash of the password, never the password. The new user then authenticates with that password. |
| `UserService.SuperuserRecord` | app/services/user.py:40-48 | The inserted superuser is an active ADMIN with the email, name and hashed password. |
| `UserService.CreateSuperuser` | app/services/user.py:37-55 | An existing row with the email is left untouched. Otherwise exactly one active ADMIN is added. The row returned is the stored one with the requested email. |
| `UserService.AdminUpdate` | app/services/user.py:57-65 | Only the role and active flag that are set change. The rest of the row and every other row stay as they were. |
| `UserService.NoClashWithFreeEmail` | app/models/user.py:11-16 | A record whose email no other row holds clashes with nothing in the users table. |
| `CategoryService.OrderColumn` | app/services/category.py:10-13 | The sortable columns are exactly name and date_created. |
| `CategoryService.Create` | app/services/category.py:15-23 | It succeeds exactly when no category has the name and the name and generated slug fit their columns. The new row holds the name and `UniqueSlug` of the stored slugs, which is the first free candidate, with the current time and a fresh id; exactly that row is added. A refusal changes nothing, and with a free name it is a column refusal. |
| `CategoryService.Update` | app/db/crud.py:100-108 | It succeeds exactly when the patched name fits and no other category holds it. The slug is kept, and a refusal changes nothing. |
| `CategoryService.NoClashWhenFree` | app/models/category.py:15-21 | A category whose name and slug no other row holds clashes with nothing. |
| `PostService.OrderColumn` | app/services/post.py:10-13 | The sortable columns are exactly title and date_created. |
| `PostService.NewPost` | app/services/post.py:15-24 | The post `create` builds carries the title and category of the body, the given slug and the sanitiser's output for the content. |
| `PostService.Create` | app/services/post.py:15-24 | It succeeds exactly when the category exists and the title and generated slug fit their columns. The new row is `NewPost`: the title and category copied, the sanitised content, and `UniqueSlug` of the stored slugs, the first free candidate. Exactly that row is added. A missing category is a foreign-key refusal, and any refusal changes nothing. |
| `PostService.UpdateFieldsEffect` | app/services/post.py:26-37 | Applying the content first through the sanitiser, then the other set fields, yields the post with the patched title and sanitised content. The slug and category are kept. |
| `PostService.Update` | app/services/post.py:26-37 | The stored row becomes the patched post. The slug and category are unchanged, and no other row changes. |
| `PostService.NoClashWithFreeSlug` | app/models/post.py:20-25 | A post whose slug no other row holds clashes with nothing. |
| `Bootstrap.InitializeDatabase` | app/db/session.py:21-37 | If the configured superuser exists, nothing changes. Otherwise at most the one superuser record is added. Afterwards a user with the configured email exists, given that the hash fits its column. |
| `Bootstrap.InitializeTwice` | app/db/session.py:21-37 | The second run creates nothing, so two runs leave the store one run leaves. |
| `Api.Pages` | app/api/v1/endpoints/categories.py:50 | `pages` is at least 1. `(pages-1)*size < max(total, 1)` and `total <= pages*size`, which makes it ceil(total/size), or 1 for an empty result. |
| `Api.PageQueryOk` | app/api/v1/endpoints/categories.py:23-29 | The query bounds: page between 1 and 10000, size between 1 and 100. |
| `Api.MakePage` | app/schemas/pagination.py:8-21 | The envelope always satisfies the bounds of Page and carries a ceil-exact page count. |
| `Api.Resolve` | app/api/v1/endpoints/categories.py:128-132 | Text that parses as a UUID is looked up by id only. Any other text is looked up by slug. |
| `CategoriesApi.ListCategories` | app/api/v1/endpoints/categories.py:19-58 | The only errors are 422 and 400. Bad page bounds give 422, and exactly then. A column outside the order fields gives 400 before any query, and exactly then. Otherwise the page holds the `paginate` items, with a total counting every category. |
| `CategoriesApi.InCategoryMatchesPostsOf` | app/api/v1/endpoints/categories.py:80-86 | The rows passing the category filter are exactly the category's posts. |
| `CategoriesApi.CategoryPostsPage` | app/api/v1/endpoints/categories.py:80-96 | The items are the `paginate` page of the posts filtered by the category, oldest first. The total counts that category's posts (the corrected total; see "## Left out"). |
| `CategoriesApi.PostsOfCategory` | app/api/v1/endpoints/categories.py:61-96 | It gives 422 for bad bounds. It gives 404 exactly when no category has the slug. Otherwise it gives a valid page. |
| `CategoriesApi.PostsOfCategoryPage` | app/api/v1/endpoints/categories.py:75-86 | For the category holding the slug, the answer is that category's page of posts. |
| `CategoriesApi.CreateCategory` | app/api/v1/endpoints/categories.py:99-115 | An invalid body gives 422. It gives 400 "Category already exists" exactly when the name is taken. It succeeds exactly when the body is valid, the name is free and the generated slug fits; then the row with the name and `UniqueSlug` is added. A column refusal gives 500, and exactly then. Every error leaves the store unchanged. |
| `CategoriesApi.GetCategory` | app/api/v1/endpoints/categories.py:118-137 | It gives 404 exactly when resolution finds nothing. Otherwise it returns the stored category that the identifier resolves to. |
| `CategoriesApi.UpdateCategory` | app/api/v1/endpoints/categories.py:140-162 | An invalid body gives 422. It gives 404 exactly when resolution finds nothing. It gives 500 exactly when the patched name is held by another category. No other error is possible. It succeeds exactly when the body is valid, the identifier resolves and the patched name is free; then the resolved category's name is patched, its slug is kept and only that row changes. |
| `CategoriesApi.HasPostsIffPostsOf` | app/models/category.py:23 | The handler's test for posts that refer to a category holds exactly when the category's `posts` relationship is not empty. |
| `CategoriesApi.DeleteCategory` | app/api/v1/endpoints/categories.py:165-185 | It gives 404 exactly when resolution finds nothing. It gives 500 exactly when the resolved category's `posts` are not empty, and no other error is possible. It succeeds exactly when the identifier resolves to a category without posts; then it removes that category and returns it as it was. |
| `PostsApi.ListPosts` | app/api/v1/endpoints/posts.py:17-56 | The only errors are 422 and 400. Bad page bounds give 422, and exactly then. A column outside the order fields gives 400 before any query, and exactly then. Otherwise the page holds the `paginate` items, with a total counting every post. |
| `PostsApi.GetPost` | app/api/v1/endpoints/posts.py:59-73 | It gives 404 "Post not found" exactly when no post has the slug. Otherwise it returns that stored post. |
| `PostsApi.CreatePost` | app/api/v1/endpoints/posts.py:76-81 | An invalid body gives 422. It succeeds exactly when the body is valid, the category exists and the generated slug fits; then the `NewPost` row is added. Any other valid body gives 500. Every error leaves the store unchanged. |
| `PostsApi.UpdatePost` | app/api/v1/endpoints/posts.py:84-103 | An invalid body gives 422. It gives 404 exactly when resolution finds nothing. Otherwise the post the identifier resolves to is patched, with its slug kept. |
| `PostsApi.DeletePost` | app/api/v1/endpoints/posts.py:106-123 | It gives 404 exactly when resolution finds nothing. Otherwise it removes the resolved post and returns it as it was, and a later lookup of its slug gives 404. |
| `AuthApi.IssueTokens` | app/api/v1/endpoints/auth.py:57-66 | It issues a bearer pair whose subject is the user's id: 30 minutes for the access token, 7 days for the refresh token. |
| `AuthApi.Register` | app/api/v1/endpoints/auth.py:20-32 | An invalid body gives 422. For a valid body, with the email in normal form: 400 "Email already registered" exactly when that email is taken, 500 exactly when the new record does not fit the columns, and 201 otherwise. On 201 the public view of the new user is returned, and exactly that user is added, with the hash. |
| `AuthApi.Login` | app/api/v1/endpoints/auth.py:35-66 | It gives 401 "Invalid email or password" exactly when authentication finds nobody. Otherwise it returns the pair for the user with that email and password. |
| `AuthApi.UserOfSubject` | app/api/v1/endpoints/auth.py:95 | The subject finds the stored user whose id it parses to. It finds nobody when the subject is not a UUID or names no row. |
| `AuthApi.Refresh` | app/api/v1/endpoints/auth.py:69-114 | Every error is one of three 401 answers, each given exactly when its condition holds. "Invalid refresh token" is for an unverifiable or empty payload. "Invalid token payload" is for a missing or empty subject. "User inactive or not found" is for a subject that names no active user. Otherwise it returns a new pair for that active user. |
| `AuthApi.LoginThenRefresh` | app/api/v1/endpoints/auth.py:69-114 | An active user's refresh token from login is exchanged for the same pair the login issued. |
| `AuthApi.InactiveUserLogsInButCannotRefresh` | app/api/v1/endpoints/auth.py:35-114 | A deactivated user with the right password still gets a pair from login, but the refresh of that pair is refused. |
| `RateLimit.ClientKey` | app/core/middlewares.py:14-15 | The counter key is "rate:" followed by the host, or "unknown" without a client. |
| `RateLimit.ClientKeySeparatesHosts` | app/core/middlewares.py:14-15 | Different hosts count against different keys. |
| `RateLimit.MissingClientSharesKey` | app/core/middlewares.py:14-15 | A request without a client shares the counter of the host named "unknown". |
| `RateLimit.Admitted` | app/core/middlewares.py:20-26 | Of a window's requests, all get through while the count stays within the limit, and exactly the limit beyond it. |
| `RateLimit.AdmittedStep` | app/core/middlewares.py:20-26 | One more request in a window is admitted exactly when the new count stays within the limit. |
| `RateLimit.RateLimiter.Handle` | app/core/middlewares.py:10-26 | The client's counter goes up by exactly one and no other counter changes. The 60-second expiry is set only when the new count is 1. The request gets 429 exactly when the count exceeds 60. Its forwarded count goes up exactly when the request is forwarded, and the invariant keeps it equal to `Admitted` of the counter, so a key never has more than 60 requests forwarded in one window. |
| `RateLimit.RateLimiter.Expire` | app/core/middlewares.py:17-18 | When a lifetime runs out, the key's counter and expiry are dropped, and the window invariant holds. |
| `RateLimit.RateLimiter.constructor` | app/core/middlewares.py:10-26 | The counter store starts empty. |

## Left out

- Cryptography, token signing, HTML sanitising, slug transliteration and email syntax are opaque functions. The assumptions made about them are explicit hypotheses (see `Foreign`).
- Time and expiry:
  - Token expiry and the clock are not modelled. Lifetimes are passed to the token functions as numbers of seconds.
  - The Redis key lifetime is an explicit `Expire` step rather than a clock.
- Concurrency is not modelled. The model is a single sequential caller, so the check-then-insert race of the slug generator and the rate-limit counter's non-atomic expiry are outside it. Sessions, commit/refresh and async plumbing are outside it too.
- Ids are natural numbers handed out in increasing order. The model does not look inside a UUID.
- `date_updated` is not modelled. The Base mixin that defines it is not part of this model.
- Text ordering is by code point, not the database collation.
- The authorisation guard (`AdminUser`) on the category and post handlers is not modelled. Its definition is not part of this model.
- FastAPI's `Literal["name", "date_created"]` validation of `order_by`, which answers 422 before the handler runs, is not modelled. Only the handler's own 400 check for a column outside the order fields is.
- Explicit `null` for `title`, `content_html`, `name`, `role` or `is_active` in a partial update is not modelled. Such a patch is treated as unset. A set title or name is a value, and only `full_name` may be set to null.
- `CategoriesApi.DeleteCategory` does not distinguish which database error the refused delete raises. It answers 500 exactly when posts still refer to the category.
- `PostService.Create` checks the foreign key before the column lengths. When both fail the handler answers 500 either way.
- `AuthApi.UserOfSubject`: a subject that is not the text of a UUID is passed to `service.get` unparsed in the source. What the database answers for it is not modelled; the model treats it as "user not found".
- `Api.Pages` uses exact integer ceiling. The source's floating-point `ceil(total / size)` agrees with it below roughly 10^14 rows; beyond that, float rounding can lose the last partial page.
- The users endpoints (`app/api/v1/endpoints/users.py`) and the self-service `UserUpdate` handler are outside the core. Only the schema's effect is modelled (`Schemas.UserUpdateEffect`).
- The `UserPublic` default role only matters when a value without a role is shown. Every response here carries the stored role.
- `CategoriesApi.CategoryPostsPage` reports the filtered total and the page count that follows from it, where the code reports the size of the whole posts table (app/db/crud.py:65). The items are the ones the code returns. The as-written total is `Crud.Table.Paginate`, and the difference is stated by `Crud.Table.PaginateTotalIgnoresFilters`.
- The order of rows with equal ORDER BY keys, and which row `.first()` picks among several matches, are left open by the database. The model fixes one order: the least id for `.first()`, and the insertion sort's order for equal keys. The columns the code looks up by (email, name, slug) are unique, so `.first()` has at most one candidate there.
- `Bootstrap.InitializeDatabase` takes the configured superuser address as already in the validator's normal form, which holds for admin@example.com. A settings value that fails validation at start-up is not modelled.
- The `UserLogin` schema (app/schemas/auth.py:6-14) is not modelled: the login handler reads an OAuth2 password form instead, and nothing else uses the schema.
- `CategoriesApi.ListCategories` and `PostsApi.ListPosts` compute their total with `Crud.Table.PaginateCounted`. With no filters it equals the as-written total (`Crud.Table.UnfilteredCountIsTableSize`).

## Findings

| source | as written | input that shows it | evidently intended | confidence | as-written member | corrected member |
|---|---|---|---|---|---|---|
| app/db/crud.py:65 | `total` counts every row of the table, ignoring the filters passed to `paginate`. | Posts-by-category for a category with no posts, while another category has one post: the page is empty but `total` is 1. | `total` counts the rows that match the filters, as the `Page.total` field documents (app/schemas/pagination.py:11-13). | not executed | `Crud.Table.PaginateTotalIgnoresFilters` | `Crud.Table.PaginateCounted` |
