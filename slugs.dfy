/**
 * `generate_unique_slug` (app/core/utils.py): slugify the value, then probe `base`, `base-1`, `base-2`, ...
 * against the slugs already stored in a table and return the first one that no row holds.
 */
module Slugs {
  import opened Prelude
  import opened Crud

  /** The decimal digit for 0 <= d < 10. */
  function Digit(d: nat): char
    requires d < 10
  {
    "0123456789"[d]
  }

  /** The decimal text of `n`, as an f-string prints it. */
  function Decimal(n: nat): (s: string)
    ensures |s| >= 1
    ensures n < 10 <==> |s| == 1
    ensures forall i :: 0 <= i < |s| ==> '0' <= s[i] <= '9'
  {
    if n < 10 then [Digit(n)] else Decimal(n / 10) + [Digit(n % 10)]
  }

  /** Different numbers print differently. */
  lemma {:induction false} DecimalInjective(a: nat, b: nat)
    requires Decimal(a) == Decimal(b)
    ensures a == b
  {
    if a >= 10 && b >= 10 {
      var da, db := Decimal(a), Decimal(b);
      assert da[..|da| - 1] == Decimal(a / 10) && db[..|db| - 1] == Decimal(b / 10);
      assert Digit(a % 10) == da[|da| - 1] == db[|db| - 1] == Digit(b % 10);
      DecimalInjective(a / 10, b / 10);
    }
  }

  /** The k-th slug the generator tries: the base itself, then `base-k`. */
  function Candidate(base: string, k: nat): string
  {
    if k == 0 then base else base + "-" + Decimal(k)
  }

  /** The generator never tries the same slug twice. */
  lemma CandidateInjective(base: string, j: nat, k: nat)
    requires Candidate(base, j) == Candidate(base, k)
    ensures j == k
  {
    if j != 0 && k != 0 {
      var cj, ck := Candidate(base, j), Candidate(base, k);
      assert cj[|base| + 1..] == Decimal(j) && ck[|base| + 1..] == Decimal(k);
      DecimalInjective(j, k);
    }
  }

  /** The candidates tried before the n-th one. */
  ghost function Probed(base: string, n: nat): set<string>
  {
    set j: nat | j < n :: Candidate(base, j)
  }

  lemma ProbedStep(base: string, n: nat)
    ensures Probed(base, n + 1) == Probed(base, n) + {Candidate(base, n)}
    ensures Candidate(base, n) !in Probed(base, n)
  {
    if Candidate(base, n) in Probed(base, n) {
      var j: nat :| j < n && Candidate(base, j) == Candidate(base, n);
      CandidateInjective(base, j, n);
    }
  }

  /** Probing a taken candidate keeps the probed candidates among the used ones and leaves fewer unprobed. */
  lemma ProbeProgress(used: set<string>, base: string, n: nat)
    requires Probed(base, n) <= used && Candidate(base, n) in used
    ensures Probed(base, n + 1) <= used
    ensures |used - Probed(base, n + 1)| < |used - Probed(base, n)|
  {
    ProbedStep(base, n);
    assert used - Probed(base, n + 1) == (used - Probed(base, n)) - {Candidate(base, n)};
  }

  /** Once a later candidate is tried, the base was taken. */
  lemma BaseProbedFirst(used: set<string>, base: string, n: nat)
    requires Probed(base, n) <= used && n > 0
    ensures base in used
  {
    assert Candidate(base, 0) in Probed(base, n);
  }

  /** `slug` is the first candidate for `base` that `used` does not hold. */
  ghost predicate FirstFree(used: set<string>, base: string, slug: string)
  {
    slug !in used && exists k: nat :: slug == Candidate(base, k) && Probed(base, k) <= used
  }

  lemma FirstFreeAt(used: set<string>, base: string, n: nat)
    requires Probed(base, n) <= used && Candidate(base, n) !in used
    ensures FirstFree(used, base, Candidate(base, n))
    ensures base !in used ==> Candidate(base, n) == base
  {
    if n > 0 {
      BaseProbedFirst(used, base, n);
    }
  }

  /** The first free candidate from the k-th on: the slug the probing loop settles on once it reaches `k`. */
  ghost function FirstFreeFrom(used: set<string>, base: string, k: nat): string
    requires Probed(base, k) <= used
    decreases |used - Probed(base, k)|
  {
    if Candidate(base, k) !in used then Candidate(base, k)
    else
      ProbeProgress(used, base, k);
      FirstFreeFrom(used, base, k + 1)
  }

  /** The slug the generator assigns for `base` when the table holds the slugs `used`. */
  ghost function UniqueSlug(used: set<string>, base: string): string
  {
    FirstFreeFrom(used, base, 0)
  }

  /** The assigned slug is free, and it is the first free candidate: every candidate before it is taken. */
  lemma {:induction false} FirstFreeFromIsFirstFree(used: set<string>, base: string, k: nat)
    requires Probed(base, k) <= used
    ensures FirstFree(used, base, FirstFreeFrom(used, base, k))
    ensures base !in used ==> FirstFreeFrom(used, base, k) == base
    decreases |used - Probed(base, k)|
  {
    if Candidate(base, k) !in used {
      FirstFreeAt(used, base, k);
    } else {
      ProbeProgress(used, base, k);
      FirstFreeFromIsFirstFree(used, base, k + 1);
    }
  }

  /** Only one slug is the first free candidate for a base. */
  lemma FirstFreeUnique(used: set<string>, base: string, a: string, b: string)
    requires FirstFree(used, base, a) && FirstFree(used, base, b)
    ensures a == b
  {
    var i: nat :| a == Candidate(base, i) && Probed(base, i) <= used;
    var j: nat :| b == Candidate(base, j) && Probed(base, j) <= used;
    assert i < j ==> a in Probed(base, j);
    assert j < i ==> b in Probed(base, i);
  }

  /** The slugs the rows of a table hold in the column `slugOf`. */
  ghost function UsedSlugs<R>(rows: map<Id, Row<R>>, slugOf: R -> string): set<string>
  {
    set k | k in rows :: slugOf(rows[k].rec)
  }

  /** A slug that no row holds is not among the used slugs, and one that a row holds is. */
  lemma UsedSlugsMembership<R>(rows: map<Id, Row<R>>, slugOf: R -> string, slug: string)
    ensures slug in UsedSlugs(rows, slugOf) <==> exists k :: k in rows && slugOf(rows[k].rec) == slug
  {
  }

  /** The probe `SELECT ... WHERE slug = :slug`: some row already holds the slug. */
  function Taken<R(!new)>(table: Table<R>, slugOf: R -> string, slug: string): (b: bool)
    reads table
    requires table.Valid()
    ensures b <==> slug in UsedSlugs(table.rows, slugOf)
  {
    UsedSlugsMembership(table.rows, slugOf, slug);
    table.GetBy((row: Row<R>) => slugOf(row.rec), slug).Some?
  }

  /**
   * The probing loop. It only reads the table. The slug it returns is held by no row, and it is the first
   * candidate that is free: every candidate before it is taken. When the base is free it is the result.
   */
  method GenerateUniqueSlug<R(!new)>(table: Table<R>, slugOf: R -> string, slugify: string -> string, value: string)
    returns (slug: string)
    requires table.Valid()
    ensures slug == UniqueSlug(UsedSlugs(table.rows, slugOf), slugify(value))
    ensures FirstFree(UsedSlugs(table.rows, slugOf), slugify(value), slug)
    ensures slugify(value) !in UsedSlugs(table.rows, slugOf) ==> slug == slugify(value)
  {
    var base := slugify(value);
    ghost var used := UsedSlugs(table.rows, slugOf);
    slug := base;
    var counter: nat := 0;
    while Taken(table, slugOf, slug)
      invariant slug == Candidate(base, counter)
      invariant Probed(base, counter) <= used
      invariant FirstFreeFrom(used, base, counter) == UniqueSlug(used, base)
      decreases |used - Probed(base, counter)|
    {
      ProbeProgress(used, base, counter);
      counter := counter + 1;
      slug := base + "-" + Decimal(counter);
    }
    FirstFreeFromIsFirstFree(used, base, 0);
  }
}
