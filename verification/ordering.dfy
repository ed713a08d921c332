/**
 `order_by('-pub_date')`: newest posts first. No tie-break is specified for
 equal publication dates, so only non-increasing dates are promised.
 */
module Ordering {
  import opened Query
  import opened Models

  /** Publication dates never increase along `s`. */
  predicate NewestFirst(s: seq<Post>) {
    forall i, j :: 0 <= i < j < |s| ==> s[i].pubDate >= s[j].pubDate
  }

  /** Places `p` into a list already ordered newest first. */
  function Insert(p: Post, s: seq<Post>): (r: seq<Post>)
    requires NewestFirst(s)
    ensures NewestFirst(r)
    ensures multiset(r) == multiset(s) + multiset{p}
    ensures forall q :: q in r ==> q == p || q in s
    ensures |r| == |s| + 1
  {
    if |s| == 0 then [p]
    else if p.pubDate >= s[0].pubDate then [p] + s
    else
      assert s == [s[0]] + s[1..];
      var rest := Insert(p, s[1..]);
      assert forall q :: q in rest ==> q.pubDate <= s[0].pubDate;
      [s[0]] + rest
  }

  /** The rows of `s`, rearranged newest first. */
  function OrderByNewest(s: seq<Post>): (r: seq<Post>)
    ensures NewestFirst(r)
    ensures multiset(r) == multiset(s)
    ensures |r| == |s|
  {
    if |s| == 0 then []
    else
      assert s == [s[0]] + s[1..];
      Insert(s[0], OrderByNewest(s[1..]))
  }

  /** `.filter(keep).order_by('-pub_date')`: the admitted rows, each as often
      as it occurs in the table, newest first. */
  function Listing(posts: seq<Post>, keep: Post -> bool): (r: seq<Post>)
    ensures NewestFirst(r)
    ensures forall p :: multiset(r)[p] == if keep(p) then multiset(posts)[p] else 0
    ensures forall p :: p in r <==> p in posts && keep(p)
  {
    var kept := Filter(posts, keep);
    var r := OrderByNewest(kept);
    assert forall p :: p in r <==> p in multiset(kept);
    r
  }
}
