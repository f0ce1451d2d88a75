/**
 * The order `sort_values` puts a key column in: Python string order (code
 * point by code point, a proper prefix first), NULL keys last.
 */
module KeyOrder {
  import opened Options

  predicate TextLe(a: string, b: string)
    decreases |a|
  {
    |a| == 0 || (|b| > 0 && (a[0] < b[0] || (a[0] == b[0] && TextLe(a[1..], b[1..]))))
  }

  predicate KeyLe(a: Option<string>, b: Option<string>)
  {
    match (a, b)
    case (Some(x), Some(y)) => TextLe(x, y)
    case (_, None) => true
    case (None, Some(_)) => false
  }

  lemma TextLeTotal(a: string, b: string)
    ensures TextLe(a, b) || TextLe(b, a)
    decreases |a|
  {
    if |a| > 0 && |b| > 0 && a[0] == b[0] {
      TextLeTotal(a[1..], b[1..]);
    }
  }

  lemma TextLeTransitive(a: string, b: string, c: string)
    requires TextLe(a, b) && TextLe(b, c)
    ensures TextLe(a, c)
    decreases |a|
  {
    if |a| > 0 && a[0] == b[0] && b[0] == c[0] {
      TextLeTransitive(a[1..], b[1..], c[1..]);
    }
  }

  lemma KeyLeTotal(a: Option<string>, b: Option<string>)
    ensures KeyLe(a, b) || KeyLe(b, a)
  {
    if a.Some? && b.Some? {
      TextLeTotal(a.value, b.value);
    }
  }

  lemma KeyLeTransitive(a: Option<string>, b: Option<string>, c: Option<string>)
    requires KeyLe(a, b) && KeyLe(b, c)
    ensures KeyLe(a, c)
  {
    if a.Some? && b.Some? && c.Some? {
      TextLeTransitive(a.value, b.value, c.value);
    }
  }
}
