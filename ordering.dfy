/**
 * Sort keys for ORDER BY. A sortable column yields either a number (ids, timestamps) or a text
 * (titles, names). Text is compared code point by code point.
 */
module Ordering {
  import opened Constants

  datatype Key = Num(n: int) | Text(s: string)

  /** Lexicographic order on strings by code point; a proper prefix comes first. */
  predicate TextLe(a: string, b: string)
  {
    if a == [] then true
    else if b == [] then false
    else if a[0] != b[0] then a[0] < b[0]
    else TextLe(a[1..], b[1..])
  }

  /** Numbers before texts; each kind in its natural order. A column only ever yields one kind. */
  predicate KeyLe(a: Key, b: Key)
  {
    match (a, b)
    case (Num(x), Num(y)) => x <= y
    case (Text(x), Text(y)) => TextLe(x, y)
    case (Num(_), Text(_)) => true
    case (Text(_), Num(_)) => false
  }

  /** `a` may be listed before `b` under ORDER BY ... ASC, or ... DESC when `dir` is DESC. */
  predicate Precedes(dir: OrderDirection, a: Key, b: Key)
  {
    if dir == DESC then KeyLe(b, a) else KeyLe(a, b)
  }

  lemma {:induction false} TextLeTotal(a: string, b: string)
    ensures TextLe(a, b) || TextLe(b, a)
  {
    if a != [] && b != [] && a[0] == b[0] {
      TextLeTotal(a[1..], b[1..]);
    }
  }

  lemma {:induction false} TextLeTransitive(a: string, b: string, c: string)
    requires TextLe(a, b) && TextLe(b, c)
    ensures TextLe(a, c)
  {
    if a != [] && b != [] && c != [] && a[0] == b[0] && b[0] == c[0] {
      TextLeTransitive(a[1..], b[1..], c[1..]);
    }
  }

  lemma PrecedesTotal(dir: OrderDirection, a: Key, b: Key)
    ensures Precedes(dir, a, b) || Precedes(dir, b, a)
  {
    if a.Text? && b.Text? {
      TextLeTotal(a.s, b.s);
    }
  }

  lemma PrecedesTransitive(dir: OrderDirection, a: Key, b: Key, c: Key)
    requires Precedes(dir, a, b) && Precedes(dir, b, c)
    ensures Precedes(dir, a, c)
  {
    if a.Text? && b.Text? && c.Text? {
      if dir == DESC {
        TextLeTransitive(c.s, b.s, a.s);
      } else {
        TextLeTransitive(a.s, b.s, c.s);
      }
    }
  }
}
