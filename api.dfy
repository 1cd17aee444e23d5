/**
 * What the endpoints of app/api/v1/endpoints share: the response shape, the query-parameter bounds FastAPI
 * checks before a handler runs, the `pages` arithmetic of the pagination envelope, and the lookup of a path
 * identifier as a UUID first and as a slug otherwise.
 */
module Api {
  import opened Prelude
  import opened Crud
  import opened Schemas

  /** An HTTP answer: a body with its status code, or an error status with its detail text. */
  datatype Response<T> = Ok(status: nat, body: T) | Error(status: nat, detail: string)

  /** The detail FastAPI gives a request whose parameters or body fail validation (status 422). */
  const InvalidRequest: string := "Unprocessable Entity"

  /** The detail of an unhandled database error (status 500). */
  const ServerError: string := "Internal Server Error"

  /** `page: int = Query(1, ge=1, le=10000)` and `size: int = Query(20, ge=1, le=100)`. */
  predicate PageQueryOk(page: int, size: int)
  {
    1 <= page <= 10000 && 1 <= size <= 100
  }

  /**
   * `ceil(total / size) if total else 1`: the number of pages of `size` rows that hold `total` rows, and one
   * page for an empty result.
   */
  function Pages(total: nat, size: nat): (pages: nat)
    requires size >= 1
    ensures pages >= 1
    ensures (pages - 1) * size < if total == 0 then 1 else total
    ensures total <= pages * size
  {
    if total == 0 then 1
    else
      var q := (total + size - 1) / size;
      var r := (total + size - 1) % size;
      assert total + size - 1 == q * size + r;
      assert q * size - size == (q - 1) * size;
      q
  }

  /** The envelope of a page of rows. */
  function MakePage<T>(items: seq<T>, total: nat, page: int, size: int): (p: Page<T>)
    requires PageQueryOk(page, size)
    ensures PageValid(p)
    ensures p.items == items && p.total == total && p.page == page && p.size == size
    ensures (p.pages - 1) * size < (if total == 0 then 1 else total) <= p.pages * size
  {
    Page(items, total, page, size, Pages(total, size))
  }

  /**
   * The row a path identifier names: when the text parses as a UUID it is looked up by id only, and otherwise
   * by its slug column.
   */
  function Resolve<R(!new)>(t: Table<R>, parseUuid: string -> Option<Id>, slugOf: R -> string, identifier: string)
    : (r: Option<Row<R>>)
    reads t
    requires t.Valid()
    ensures r.Some? ==> r.value.id in t.rows && t.rows[r.value.id] == r.value
    ensures parseUuid(identifier).Some? ==>
              (r.Some? <==> parseUuid(identifier).value in t.rows) && (r.Some? ==> r.value.id == parseUuid(identifier).value)
    ensures parseUuid(identifier).None? ==>
              (r.None? <==> forall k :: k in t.rows ==> slugOf(t.rows[k].rec) != identifier) &&
              (r.Some? ==> slugOf(r.value.rec) == identifier)
  {
    match parseUuid(identifier)
    case Some(id) => t.Get(id)
    case None => t.GetBy((row: Row<R>) => slugOf(row.rec), identifier)
  }
}
