/**
 * The generic repository of app/db/crud.py (CRUDRead, CRUDCreate, CRUDUpdate, CRUDRemove) over an
 * in-memory table. A table maps ids to rows; it knows its unique columns and its column constraints
 * (string lengths, NOT NULL), and refuses a write that breaks them the way the database raises an
 * IntegrityError or a DataError.
 */
module Crud {
  import opened Prelude
  import opened Constants
  import opened Ordering

  /** A stored record: the columns every table shares (id, date_created) around the entity's own columns. */
  datatype Row<R> = Row(id: Id, dateCreated: Time, rec: R)

  /**
   * Why the database refused a write: a value another row holds in a unique column (IntegrityError), a value
   * the column cannot take, such as a string longer than its String(n) length (DataError), or a reference to a
   * row that does not exist (IntegrityError).
   */
  datatype DbError = UniqueViolation | ColumnViolation | ForeignKeyViolation

  datatype Result<T> = Done(value: T) | Failed(error: DbError)

  /** Every row is stored under its own id. */
  ghost predicate WellKeyed<R>(rows: map<Id, Row<R>>)
  {
    forall k :: k in rows ==> rows[k].id == k
  }

  /** No two rows share a value in any of the unique columns. */
  ghost predicate Distinct<R>(rows: map<Id, Row<R>>, unique: seq<R -> string>)
  {
    forall c, a, b :: 0 <= c < |unique| && a in rows && b in rows && a != b ==>
      unique[c](rows[a].rec) != unique[c](rows[b].rec)
  }

  /** Some row other than `except` already holds one of `rec`'s unique values. */
  predicate Clashes<R>(rows: map<Id, Row<R>>, unique: seq<R -> string>, rec: R, except: Option<Id>)
  {
    exists c, k :: 0 <= c < |unique| && k in rows && Some(k) != except && unique[c](rows[k].rec) == unique[c](rec)
  }

  /** The rows whose ids lie in [lo, hi), in increasing id order: the table as a scan reads it. */
  function Scan<R>(rows: map<Id, Row<R>>, lo: nat, hi: nat): (s: seq<Row<R>>)
    requires WellKeyed(rows)
    ensures forall i :: 0 <= i < |s| ==> lo <= s[i].id < hi && s[i].id in rows && rows[s[i].id] == s[i]
    ensures forall i, j :: 0 <= i < j < |s| ==> s[i].id < s[j].id
    decreases hi - lo
  {
    if lo >= hi then []
    else
      var rest := Scan(rows, lo + 1, hi);
      if lo in rows then [rows[lo]] + rest else rest
  }

  /** A scan reads every row whose id lies in its range. */
  lemma {:induction false} ScanComplete<R>(rows: map<Id, Row<R>>, lo: nat, hi: nat, k: Id)
    requires WellKeyed(rows) && lo <= k < hi && k in rows
    ensures rows[k] in Scan(rows, lo, hi)
    decreases hi - lo
  {
    if k > lo {
      ScanComplete(rows, lo + 1, hi, k);
    }
  }

  /** The first row of `s` whose column `col` equals `v` (`.first()` of a WHERE query). */
  function FirstMatch<R, V(==)>(s: seq<Row<R>>, col: Row<R> -> V, v: V): (r: Option<Row<R>>)
    ensures r.None? <==> forall i :: 0 <= i < |s| ==> col(s[i]) != v
    ensures r.Some? ==> exists i :: 0 <= i < |s| && s[i] == r.value && col(s[i]) == v &&
                          forall j :: 0 <= j < i ==> col(s[j]) != v
  {
    if s == [] then None
    else if col(s[0]) == v then Some(s[0])
    else
      var r := FirstMatch(s[1..], col, v);
      assert r.Some? ==> exists i :: 0 <= i < |s| && s[i] == r.value && col(s[i]) == v &&
                          forall j :: 0 <= j < i ==> col(s[j]) != v by {
        if r.Some? {
          var i :| 0 <= i < |s[1..]| && s[1..][i] == r.value && col(s[1..][i]) == v &&
                   forall j :: 0 <= j < i ==> col(s[1..][j]) != v;
          assert s[i + 1] == r.value && forall j :: 0 <= j < i + 1 ==> col(s[j]) != v;
        }
      }
      r
  }

  /** The filters of a query all hold of `x` (they are joined with AND). */
  predicate MatchesAll<R>(filters: seq<Row<R> -> bool>, x: Row<R>)
  {
    forall i :: 0 <= i < |filters| ==> filters[i](x)
  }

  /** The rows of `s` that satisfy every filter, in their order. */
  function Where<R(!new)>(s: seq<Row<R>>, filters: seq<Row<R> -> bool>): (r: seq<Row<R>>)
    ensures forall x :: x in r <==> x in s && MatchesAll(filters, x)
    ensures |r| <= |s|
  {
    if s == [] then []
    else if MatchesAll(filters, s[0]) then [s[0]] + Where(s[1..], filters)
    else Where(s[1..], filters)
  }

  /** `s` is listed in ORDER BY `key` (ASC or DESC) order. */
  ghost predicate SortedBy<R>(s: seq<Row<R>>, key: Row<R> -> Key, dir: OrderDirection)
  {
    forall i, j :: 0 <= i < j < |s| ==> Precedes(dir, key(s[i]), key(s[j]))
  }

  lemma PrependSorted<R>(x: Row<R>, s: seq<Row<R>>, key: Row<R> -> Key, dir: OrderDirection)
    requires SortedBy(s, key, dir)
    requires forall y :: y in s ==> Precedes(dir, key(x), key(y))
    ensures SortedBy([x] + s, key, dir)
  {
    var t := [x] + s;
    forall i, j | 0 <= i < j < |t| ensures Precedes(dir, key(t[i]), key(t[j])) {
      if i > 0 {
        assert t[i] == s[i - 1] && t[j] == s[j - 1];
      } else {
        assert t[j] == s[j - 1] && t[j] in s;
      }
    }
  }

  /** A row that precedes the head of a sorted sequence can lead it. */
  lemma PrependBeforeHead<R>(x: Row<R>, s: seq<Row<R>>, key: Row<R> -> Key, dir: OrderDirection)
    requires SortedBy(s, key, dir) && s != [] && Precedes(dir, key(x), key(s[0]))
    ensures SortedBy([x] + s, key, dir)
  {
    forall y | y in s ensures Precedes(dir, key(x), key(y)) {
      var j :| 0 <= j < |s| && s[j] == y;
      if j > 0 { PrecedesTransitive(dir, key(x), key(s[0]), key(y)); }
    }
    PrependSorted(x, s, key, dir);
  }

  /** The head of a sorted sequence can lead any arrangement of its tail and a row it precedes. */
  lemma PrependHead<R>(x: Row<R>, s: seq<Row<R>>, r: seq<Row<R>>, key: Row<R> -> Key, dir: OrderDirection)
    requires SortedBy(s, key, dir) && s != [] && !Precedes(dir, key(x), key(s[0]))
    requires SortedBy(r, key, dir) && multiset(r) == multiset(s[1..]) + multiset{x}
    ensures SortedBy([s[0]] + r, key, dir)
  {
    forall y | y in r ensures Precedes(dir, key(s[0]), key(y)) {
      assert y in multiset(r);
      if y == x {
        PrecedesTotal(dir, key(x), key(s[0]));
      } else {
        assert y in multiset(s[1..]);
        var j :| 0 <= j < |s[1..]| && s[1..][j] == y;
        assert s[j + 1] == y;
      }
    }
    PrependSorted(s[0], r, key, dir);
  }

  /** Places `x` into the sorted `s`, after every row it does not precede. */
  function Insert<R>(x: Row<R>, s: seq<Row<R>>, key: Row<R> -> Key, dir: OrderDirection): (r: seq<Row<R>>)
    requires SortedBy(s, key, dir)
    ensures SortedBy(r, key, dir)
    ensures multiset(r) == multiset(s) + multiset{x}
  {
    if s == [] then [x]
    else if Precedes(dir, key(x), key(s[0])) then
      PrependBeforeHead(x, s, key, dir);
      [x] + s
    else
      var r := Insert(x, s[1..], key, dir);
      PrependHead(x, s, r, key, dir);
      assert s == [s[0]] + s[1..];
      [s[0]] + r
  }

  /** `s` sorted by `key` in direction `dir`: an insertion sort, as ORDER BY returns the rows. */
  function OrderBy<R>(s: seq<Row<R>>, key: Row<R> -> Key, dir: OrderDirection): (r: seq<Row<R>>)
    ensures SortedBy(r, key, dir)
    ensures multiset(r) == multiset(s)
  {
    if s == [] then []
    else
      assert s == [s[0]] + s[1..];
      Insert(s[0], OrderBy(s[1..], key, dir), key, dir)
  }

  /** OFFSET `offset` LIMIT `size`. */
  function Window<T>(s: seq<T>, offset: nat, size: nat): (r: seq<T>)
    ensures |r| <= size
    ensures forall i :: 0 <= i < |r| ==> offset + i < |s| && r[i] == s[offset + i]
    ensures |r| == size || offset + |r| >= |s|
  {
    if offset >= |s| then []
    else s[offset .. if offset + size <= |s| then offset + size else |s|]
  }

  /** The column a query orders by: the given one, or the primary key when none is given. */
  function SortKey<R>(orderBy: Option<Row<R> -> Key>): Row<R> -> Key
  {
    if orderBy.Some? then orderBy.value else (x: Row<R>) => Num(x.id)
  }

  /** Updates `r` field by field, in the order the fields are listed (the `setattr` loop). */
  function ApplyFields<R, F>(assign: (R, F) -> R, r: R, fields: seq<F>): R
  {
    if fields == [] then r
    else assign(ApplyFields(assign, r, fields[..|fields| - 1]), fields[|fields| - 1])
  }

  /** The keys of `rows` in [lo, hi) whose rows satisfy every filter. */
  ghost function MatchingKeys<R>(rows: map<Id, Row<R>>, filters: seq<Row<R> -> bool>, lo: nat, hi: nat): set<Id>
  {
    set k | k in rows && lo <= k < hi && MatchesAll(filters, rows[k])
  }

  lemma MatchingKeysStep<R>(rows: map<Id, Row<R>>, filters: seq<Row<R> -> bool>, lo: nat, hi: nat)
    requires lo < hi
    ensures MatchingKeys(rows, filters, lo, hi) ==
            if lo in rows && MatchesAll(filters, rows[lo]) then MatchingKeys(rows, filters, lo + 1, hi) + {lo}
            else MatchingKeys(rows, filters, lo + 1, hi)
    ensures lo !in MatchingKeys(rows, filters, lo + 1, hi)
  {
  }

  lemma WhereCons<R(!new)>(a: Row<R>, t: seq<Row<R>>, filters: seq<Row<R> -> bool>)
    ensures Where([a] + t, filters) == if MatchesAll(filters, a) then [a] + Where(t, filters) else Where(t, filters)
  {
    assert ([a] + t)[0] == a && ([a] + t)[1..] == t;
  }

  lemma AddFresh(m: set<Id>, x: Id)
    requires x !in m
    ensures |m + {x}| == |m| + 1
  {
  }

  lemma {:induction false} WhereScanCount<R(!new)>(rows: map<Id, Row<R>>, filters: seq<Row<R> -> bool>, lo: nat, hi: nat)
    requires WellKeyed(rows)
    ensures |Where(Scan(rows, lo, hi), filters)| == |MatchingKeys(rows, filters, lo, hi)|
    decreases hi - lo
  {
    if lo >= hi {
      assert MatchingKeys(rows, filters, lo, hi) == {};
    } else {
      var t := Scan(rows, lo + 1, hi);
      var m := MatchingKeys(rows, filters, lo + 1, hi);
      WhereScanCount(rows, filters, lo + 1, hi);
      MatchingKeysStep(rows, filters, lo, hi);
      if lo in rows {
        assert Scan(rows, lo, hi) == [rows[lo]] + t;
        WhereCons(rows[lo], t, filters);
        if MatchesAll(filters, rows[lo]) {
          AddFresh(m, lo);
        }
      } else {
        assert Scan(rows, lo, hi) == t;
      }
    }
  }

  /** The offset of a page: the rows of the pages before it. */
  function PageOffset(page: nat, size: nat): nat
    requires page >= 1
  {
    (page - 1) * size
  }

  /** In a list whose ids increase, the first element satisfying a condition has the least id among them. */
  lemma FirstMatchLeast<R, V>(s: seq<Row<R>>, col: Row<R> -> V, v: V, i: nat, x: Row<R>)
    requires forall a, b :: 0 <= a < b < |s| ==> s[a].id < s[b].id
    requires i < |s| && forall j :: 0 <= j < i ==> col(s[j]) != v
    requires x in s && x.id < s[i].id
    ensures col(x) != v
  {
    var j :| 0 <= j < |s| && s[j] == x;
    assert j < i;
  }

  /** FirstMatch over a scan of `rows` finds a row of `rows`, the one with the least id, or proves there is none. */
  lemma FirstMatchInRows<R(!new), V>(rows: map<Id, Row<R>>, s: seq<Row<R>>, col: Row<R> -> V, v: V)
    requires forall x :: x in s <==> x.id in rows && rows[x.id] == x
    requires forall a, b :: 0 <= a < b < |s| ==> s[a].id < s[b].id
    requires WellKeyed(rows)
    ensures var r := FirstMatch(s, col, v);
            && (r.None? <==> forall k :: k in rows ==> col(rows[k]) != v)
            && (r.Some? ==> r.value.id in rows && rows[r.value.id] == r.value && col(r.value) == v)
            && (r.Some? ==> forall k :: k in rows && k < r.value.id ==> col(rows[k]) != v)
  {
    var r := FirstMatch(s, col, v);
    if r.None? {
      forall k | k in rows ensures col(rows[k]) != v {
        assert rows[k] in s;
      }
    } else {
      var i :| 0 <= i < |s| && s[i] == r.value && col(s[i]) == v && forall j :: 0 <= j < i ==> col(s[j]) != v;
      forall k | k in rows && k < r.value.id ensures col(rows[k]) != v {
        assert rows[k] in s;
        FirstMatchLeast(s, col, v, i, rows[k]);
      }
    }
  }

  /** A window of a sorted list is sorted. */
  lemma WindowSorted<R>(s: seq<Row<R>>, offset: nat, size: nat, key: Row<R> -> Key, dir: OrderDirection)
    requires SortedBy(s, key, dir)
    ensures SortedBy(Window(s, offset, size), key, dir)
  {
    var w := Window(s, offset, size);
    forall i, j | 0 <= i < j < |w| ensures Precedes(dir, key(w[i]), key(w[j])) {
      assert w[i] == s[offset + i] && w[j] == s[offset + j];
    }
  }

  /** The keys of the rows that satisfy every filter. */
  ghost function Matching<R>(rows: map<Id, Row<R>>, filters: seq<Row<R> -> bool>): set<Id>
  {
    set k | k in rows && MatchesAll(filters, rows[k])
  }

  /** Fewer rows match than the table holds when one of them fails a filter. */
  lemma CountBelowSize<R>(rows: map<Id, Row<R>>, filters: seq<Row<R> -> bool>, bad: Id)
    requires bad in rows && !MatchesAll(filters, rows[bad])
    ensures |Matching(rows, filters)| < |rows|
  {
    var matching := Matching(rows, filters);
    var rest := rows.Keys - matching;
    assert bad in rest;
    assert rows.Keys == matching + rest && matching * rest == {};
    assert |rows.Keys| == |matching| + |rest|;
    assert |rest| >= 1 by { assert rest == (rest - {bad}) + {bad}; }
    assert |rows| == |rows.Keys|;
    assert |matching| < |rows|;
  }

  class Table<R(!new)> {
    var rows: map<Id, Row<R>>
    var nextId: Id
    const unique: seq<R -> string>
    const check: R -> bool

    ghost predicate Valid()
      reads this
    {
      && WellKeyed(rows)
      && (forall k :: k in rows ==> k < nextId && check(rows[k].rec))
      && Distinct(rows, unique)
    }

    constructor (unique: seq<R -> string>, check: R -> bool)
      ensures Valid()
      ensures rows == map[] && nextId == 0
      ensures this.unique == unique && this.check == check
    {
      rows := map[];
      nextId := 0;
      this.unique := unique;
      this.check := check;
    }

    /** The whole table, in id order. */
    function All(): (s: seq<Row<R>>)
      reads this
      requires Valid()
      ensures forall x :: x in s <==> x.id in rows && rows[x.id] == x
      ensures forall i, j :: 0 <= i < j < |s| ==> s[i].id < s[j].id
    {
      forall k | k in rows ensures rows[k] in Scan(rows, 0, nextId) {
        ScanComplete(rows, 0, nextId, k);
      }
      Scan(rows, 0, nextId)
    }

    /** The number of rows that satisfy every filter. */
    ghost function MatchCount(filters: seq<Row<R> -> bool>): nat
      reads this
    {
      |Matching(rows, filters)|
    }

    /** `get`: the row stored under `id`, if any. */
    function Get(id: Id): (r: Option<Row<R>>)
      reads this
      requires Valid()
      ensures r.None? <==> id !in rows
      ensures r.Some? ==> r.value.id == id && r.value == rows[id]
    {
      if id in rows then Some(rows[id]) else None
    }

    /** `get_by`: a row whose column `col` equals `v` (the one with the least id), if any. */
    function GetBy<V(==)>(col: Row<R> -> V, v: V): (r: Option<Row<R>>)
      reads this
      requires Valid()
      ensures r.None? <==> forall k :: k in rows ==> col(rows[k]) != v
      ensures r.Some? ==> r.value.id in rows && rows[r.value.id] == r.value && col(r.value) == v
      ensures r.Some? ==> forall k :: k in rows && k < r.value.id ==> col(rows[k]) != v
    {
      FirstMatchInRows(rows, All(), col, v);
      FirstMatch(All(), col, v)
    }

    /** The rows that satisfy every filter, in ORDER BY order. */
    function Listing(filters: seq<Row<R> -> bool>, orderBy: Option<Row<R> -> Key>, dir: OrderDirection): (s: seq<Row<R>>)
      reads this
      requires Valid()
      ensures SortedBy(s, SortKey(orderBy), dir)
      ensures forall x :: x in s <==> x.id in rows && rows[x.id] == x && MatchesAll(filters, x)
    {
      var s := OrderBy(Where(All(), filters), SortKey(orderBy), dir);
      assert forall x :: x in s <==> x in Where(All(), filters) by {
        forall x ensures x in s <==> x in Where(All(), filters) {
          assert x in s <==> x in multiset(s);
        }
      }
      s
    }

    /**
     * `paginate` as written: the page of the filtered, ordered rows that starts after (page-1)*size rows
     * and holds at most size rows, together with a total that counts the whole table.
     */
    function Paginate(filters: seq<Row<R> -> bool>, page: nat, size: nat, orderBy: Option<Row<R> -> Key>,
                      dir: OrderDirection): (r: (seq<Row<R>>, nat))
      reads this
      requires Valid()
      requires page >= 1
      ensures |r.0| <= size
      ensures forall i :: 0 <= i < |r.0| ==>
                PageOffset(page, size) + i < |Listing(filters, orderBy, dir)| &&
                r.0[i] == Listing(filters, orderBy, dir)[PageOffset(page, size) + i]
      ensures |r.0| == size || PageOffset(page, size) + |r.0| >= |Listing(filters, orderBy, dir)|
      ensures r.1 == |rows|
    {
      (Window(Listing(filters, orderBy, dir), PageOffset(page, size), size), |rows|)
    }

    /** `paginate` with the total its envelope documents: the number of rows that match the filters. */
    function PaginateCounted(filters: seq<Row<R> -> bool>, page: nat, size: nat, orderBy: Option<Row<R> -> Key>,
                             dir: OrderDirection): (r: (seq<Row<R>>, nat))
      reads this
      requires Valid()
      requires page >= 1
      ensures r.0 == Paginate(filters, page, size, orderBy, dir).0
      ensures r.1 == MatchCount(filters)
    {
      ListingCount(filters, orderBy, dir);
      (Paginate(filters, page, size, orderBy, dir).0, |Listing(filters, orderBy, dir)|)
    }

    lemma ListingCount(filters: seq<Row<R> -> bool>, orderBy: Option<Row<R> -> Key>, dir: OrderDirection)
      requires Valid()
      ensures |Listing(filters, orderBy, dir)| == MatchCount(filters)
    {
      var w := Where(All(), filters);
      assert |OrderBy(w, SortKey(orderBy), dir)| == |multiset(w)|;
      WhereScanCount(rows, filters, 0, nextId);
      assert MatchingKeys(rows, filters, 0, nextId) == Matching(rows, filters);
    }

    /** With no filters, the count of matching rows is the size of the table. */
    lemma UnfilteredCountIsTableSize()
      requires Valid()
      ensures MatchCount([]) == |rows|
    {
      assert Matching(rows, []) == rows.Keys;
    }

    /** Every row a page holds is a stored row that satisfies every filter. */
    lemma PaginateItemsMatch(filters: seq<Row<R> -> bool>, page: nat, size: nat, orderBy: Option<Row<R> -> Key>,
                             dir: OrderDirection)
      requires Valid()
      requires page >= 1
      ensures forall x :: x in Paginate(filters, page, size, orderBy, dir).0 ==>
                x.id in rows && rows[x.id] == x && MatchesAll(filters, x)
    {
      var items := Paginate(filters, page, size, orderBy, dir).0;
      var l := Listing(filters, orderBy, dir);
      forall x | x in items ensures x.id in rows && rows[x.id] == x && MatchesAll(filters, x) {
        var i :| 0 <= i < |items| && items[i] == x;
        assert l[PageOffset(page, size) + i] in l;
      }
    }

    /** A page lists its rows in the requested order (by id when no column is given). */
    lemma PaginateItemsSorted(filters: seq<Row<R> -> bool>, page: nat, size: nat, orderBy: Option<Row<R> -> Key>,
                              dir: OrderDirection)
      requires Valid()
      requires page >= 1
      ensures SortedBy(Paginate(filters, page, size, orderBy, dir).0, SortKey(orderBy), dir)
    {
      WindowSorted(Listing(filters, orderBy, dir), PageOffset(page, size), size, SortKey(orderBy), dir);
    }

    /** With the filtered total, a page is empty exactly when it starts at or past the last matching row. */
    lemma PageEmptyIffPastTotal(filters: seq<Row<R> -> bool>, page: nat, size: nat, orderBy: Option<Row<R> -> Key>,
                                dir: OrderDirection)
      requires Valid()
      requires page >= 1 && size >= 1
      ensures var (items, total) := PaginateCounted(filters, page, size, orderBy, dir);
              items == [] <==> PageOffset(page, size) >= total
    {
      ListingCount(filters, orderBy, dir);
    }

    /**
     * The total of `paginate` as written overcounts as soon as one stored row fails a filter: it is then
     * strictly greater than the number of rows the pages are drawn from.
     */
    lemma PaginateTotalIgnoresFilters(filters: seq<Row<R> -> bool>, page: nat, size: nat,
                                      orderBy: Option<Row<R> -> Key>, dir: OrderDirection, k: Id)
      requires Valid()
      requires page >= 1
      requires k in rows && !MatchesAll(filters, rows[k])
      ensures Paginate(filters, page, size, orderBy, dir).1 > MatchCount(filters)
    {
      CountBelowSize(rows, filters, k);
    }

    /** `create`: stores `rec` under a fresh id, unless a column constraint or a unique column refuses it. */
    method Create(rec: R, now: Time) returns (res: Result<Row<R>>)
      requires Valid()
      modifies this
      ensures Valid()
      ensures !check(rec) ==> res == Failed(ColumnViolation)
      ensures check(rec) && Clashes(old(rows), unique, rec, None) ==> res == Failed(UniqueViolation)
      ensures res.Done? <==> check(rec) && !Clashes(old(rows), unique, rec, None)
      ensures res.Failed? ==> rows == old(rows) && nextId == old(nextId)
      ensures res.Done? ==> && res.value == Row(old(nextId), now, rec)
                            && old(nextId) !in old(rows)
                            && rows == old(rows)[old(nextId) := res.value]
                            && nextId == old(nextId) + 1
    {
      if !check(rec) {
        return Failed(ColumnViolation);
      }
      if Clashes(rows, unique, rec, None) {
        return Failed(UniqueViolation);
      }
      var row := Row(nextId, now, rec);
      rows := rows[nextId := row];
      nextId := nextId + 1;
      res := Done(row);
    }

    /**
     * INSERT ... ON CONFLICT DO NOTHING: stores `rec` unless a row already holds one of its unique values,
     * and tells whether it did; a column constraint still refuses the write.
     */
    method InsertOrIgnore(rec: R, now: Time) returns (res: Result<bool>)
      requires Valid()
      modifies this
      ensures Valid()
      ensures res.Failed? <==> !check(rec)
      ensures res.Failed? ==> res.error == ColumnViolation
      ensures res == Done(true) <==> check(rec) && !Clashes(old(rows), unique, rec, None)
      ensures res != Done(true) ==> rows == old(rows) && nextId == old(nextId)
      ensures res == Done(true) ==> && old(nextId) !in old(rows)
                                    && rows == old(rows)[old(nextId) := Row(old(nextId), now, rec)]
                                    && nextId == old(nextId) + 1
    {
      if !check(rec) {
        return Failed(ColumnViolation);
      }
      if Clashes(rows, unique, rec, None) {
        return Done(false);
      }
      rows := rows[nextId := Row(nextId, now, rec)];
      nextId := nextId + 1;
      res := Done(true);
    }

    /**
     * `update`: sets the given fields of the row `id` one after the other, then writes the row back,
     * unless a column constraint or a unique column refuses the new values.
     */
    method Update<F>(id: Id, fields: seq<F>, assign: (R, F) -> R) returns (res: Result<Row<R>>)
      requires Valid()
      requires id in rows
      modifies this
      ensures Valid()
      ensures nextId == old(nextId)
      ensures var updated := ApplyFields(assign, old(rows)[id].rec, fields);
              && (res.Done? <==> check(updated) && !Clashes(old(rows), unique, updated, Some(id)))
              && (!check(updated) ==> res == Failed(ColumnViolation))
              && (res.Done? ==> res.value == old(rows)[id].(rec := updated) && rows == old(rows)[id := res.value])
              && (res.Failed? ==> rows == old(rows))
    {
      var rec := rows[id].rec;
      var i := 0;
      while i < |fields|
        invariant 0 <= i <= |fields|
        invariant rec == ApplyFields(assign, rows[id].rec, fields[..i])
      {
        assert fields[..i + 1][..i] == fields[..i];
        rec := assign(rec, fields[i]);
        i := i + 1;
      }
      assert fields[..|fields|] == fields;
      if !check(rec) {
        return Failed(ColumnViolation);
      }
      if Clashes(rows, unique, rec, Some(id)) {
        return Failed(UniqueViolation);
      }
      var row := rows[id].(rec := rec);
      rows := rows[id := row];
      res := Done(row);
    }

    /** `remove`: deletes the row `id` and returns it as it was, or returns None when there is none. */
    method Remove(id: Id) returns (r: Option<Row<R>>)
      requires Valid()
      modifies this
      ensures Valid()
      ensures nextId == old(nextId)
      ensures id in old(rows) ==> r == Some(old(rows)[id]) && rows == old(rows) - {id}
      ensures id !in old(rows) ==> r == None && rows == old(rows)
    {
      r := Get(id);
      if r.Some? {
        rows := rows - {id};
      }
    }
  }
}
