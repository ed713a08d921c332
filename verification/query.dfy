/**
 The two query-set operations the views are built from, over rows kept in a
 sequence: `Filter` keeps the rows a condition admits (a `.filter(...)`), and
 `First` fetches one row (a `.get(...)` / `get_object_or_404`).
 */
module Query {

  /** A row that may be absent. */
  datatype Option<T> = None | Some(value: T)

  /** The rows of `s` that `keep` admits, in table order. Every admitted row
      occurs exactly as often as in `s`, every other row not at all. */
  function Filter<T(!new)>(s: seq<T>, keep: T -> bool): (r: seq<T>)
    ensures forall x :: multiset(r)[x] == if keep(x) then multiset(s)[x] else 0
    ensures forall x :: x in r <==> x in s && keep(x)
    ensures |r| <= |s|
  {
    if |s| == 0 then []
    else
      assert s == [s[0]] + s[1..];
      if keep(s[0]) then [s[0]] + Filter(s[1..], keep) else Filter(s[1..], keep)
  }

  /** The first row of `s` that `pred` admits, or `None` when no row does. */
  function First<T>(s: seq<T>, pred: T -> bool): (r: Option<T>)
    ensures r.Some? ==> r.value in s && pred(r.value)
    ensures r.None? <==> forall x :: x in s ==> !pred(x)
  {
    if |s| == 0 then None
    else if pred(s[0]) then Some(s[0])
    else
      assert forall x :: x in s ==> x == s[0] || x in s[1..];
      First(s[1..], pred)
  }
}
