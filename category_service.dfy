/**
 * `CategoryService` (app/services/category.py): create assigns a unique slug generated from the name;
 * update and remove are the repository's own, so a rename keeps the slug.
 */
module CategoryService {
  import opened Prelude
  import opened Ordering
  import opened Crud
  import opened Models
  import opened Schemas
  import opened Slugs

  /** The categories table: unique names and slugs and the categories column lengths. */
  ghost predicate CategoriesTable(t: Table<Category>)
    reads t
  {
    t.Valid() && t.unique == CategoryUnique && t.check == CategoryColumnsOk
  }

  function NameKey(r: Row<Category>): Key
  {
    Text(r.rec.name)
  }

  function DateCreatedKey(r: Row<Category>): Key
  {
    Num(r.dateCreated)
  }

  /** `CATEGORY_ORDER_FIELDS.get(name)`: the sortable columns are exactly name and date_created. */
  function OrderColumn(name: string): (c: Option<Row<Category> -> Key>)
    ensures c.Some? <==> name == "name" || name == "date_created"
    ensures name == "name" ==> c == Some(NameKey)
    ensures name == "date_created" ==> c == Some(DateCreatedKey)
  {
    if name == "name" then Some(NameKey)
    else if name == "date_created" then Some(DateCreatedKey)
    else None
  }

  /** Some stored category has the name. */
  ghost predicate NameTaken(rows: map<Id, Row<Category>>, name: string)
  {
    exists k :: k in rows && rows[k].rec.name == name
  }

  /** A category whose name and slug no other row holds clashes with nothing in the categories table. */
  lemma NoClashWhenFree(rows: map<Id, Row<Category>>, c: Category, except: Option<Id>)
    requires forall k :: k in rows && Some(k) != except ==> rows[k].rec.name != c.name && rows[k].rec.slug != c.slug
    ensures !Clashes(rows, CategoryUnique, c, except)
  {
    assert CategoryUnique[0] == CategoryName && CategoryUnique[1] == CategorySlug;
  }

  /**
   * `create`: the slug is the first free candidate generated from the name, so it is unique among categories;
   * the name is copied from the input and exactly one row is added. It succeeds exactly when no category has
   * the name and the name and slug fit their columns; a stored name is refused by the unique constraint.
   */
  method Create(categories: Table<Category>, slugify: string -> string, obj: CategoryCreate, now: Time)
    returns (res: Result<Row<Category>>)
    requires CategoriesTable(categories)
    modifies categories
    ensures CategoriesTable(categories)
    ensures var used := UsedSlugs(old(categories.rows), CategorySlug);
            var c := Category(obj.name, UniqueSlug(used, slugify(obj.name)));
            && (res.Done? <==> !NameTaken(old(categories.rows), obj.name) && CategoryColumnsOk(c))
            && (res.Done? ==> && res.value == Row(res.value.id, now, c)
                              && FirstFree(used, slugify(obj.name), c.slug)
                              && res.value.id !in old(categories.rows)
                              && categories.rows == old(categories.rows)[res.value.id := res.value])
    ensures res.Failed? ==> res.error != ForeignKeyViolation && categories.rows == old(categories.rows)
    ensures res.Failed? && !NameTaken(old(categories.rows), obj.name) ==> res.error == ColumnViolation
  {
    var slug := GenerateUniqueSlug(categories, CategorySlug, slugify, obj.name);
    var c := Category(obj.name, slug);
    if NameTaken(categories.rows, obj.name) {
      assert Clashes(categories.rows, categories.unique, c, None) by {
        var k :| k in categories.rows && categories.rows[k].rec.name == obj.name;
        assert categories.unique[0](categories.rows[k].rec) == categories.unique[0](c);
      }
    } else {
      NoClashWhenFree(categories.rows, c, None);
    }
    res := categories.Create(c, now);
  }

  /** Some stored category other than `id` has the name. */
  ghost predicate NameTakenByOther(rows: map<Id, Row<Category>>, name: string, id: Id)
  {
    exists k :: k in rows && k != id && rows[k].rec.name == name
  }

  /**
   * `update` (the repository's): renames the category when the patch sets a name. The slug never changes.
   * The database refuses a name another category holds, or one too long for the column.
   */
  method Update(categories: Table<Category>, id: Id, patch: CategoryUpdate) returns (res: Result<Row<Category>>)
    requires CategoriesTable(categories) && id in categories.rows
    modifies categories
    ensures CategoriesTable(categories)
    ensures var before := old(categories.rows)[id];
            var name := Patched(patch.name, before.rec.name);
            && (res.Done? <==> |name| <= 100 && !NameTakenByOther(old(categories.rows), name, id))
            && (res.Done? ==> res.value == before.(rec := Category(name, before.rec.slug)) &&
                              categories.rows == old(categories.rows)[id := res.value])
            && (res.Failed? ==> categories.rows == old(categories.rows))
  {
    var before := categories.rows[id];
    CategoryUpdateEffect(before.rec, patch);
    var name := Patched(patch.name, before.rec.name);
    var updated := before.rec.(name := name);
    if NameTakenByOther(categories.rows, name, id) {
      assert Clashes(categories.rows, categories.unique, updated, Some(id)) by {
        var k :| k in categories.rows && k != id && categories.rows[k].rec.name == name;
        assert categories.unique[0](categories.rows[k].rec) == categories.unique[0](updated);
      }
    } else {
      forall k | k in categories.rows && Some(k) != Some(id)
        ensures categories.rows[k].rec.name != updated.name && categories.rows[k].rec.slug != updated.slug
      {
        if categories.rows[k].rec.slug == updated.slug {
          CategoryIdentified(categories, k, id);
        }
      }
      NoClashWhenFree(categories.rows, updated, Some(id));
    }
    res := categories.Update(id, CategoryUpdateFields(patch), AssignCategory);
  }
}
