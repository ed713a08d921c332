/**
 Which posts a viewer may read (blog/views.py): the public condition, the main
 feed, the detail page and the category page. `now` is the request's clock
 reading.
 */
module Visibility {
  import opened Query
  import opened Models
  import opened Ordering

  /** `category__is_published=True`: the post has a category and that category
      is published. A post without a category fails the join. */
  predicate CategoryPublished(db: Db, category: Option<nat>) {
    match category
    case None => false
    case Some(id) =>
      match FindCategory(db, id)
      case None => false
      case Some(c) => c.isPublished
  }

  /** The public condition shared by the feed, detail, comment and profile views. */
  predicate IsPublic(db: Db, p: Post, now: int) {
    p.isPublished && p.pubDate <= now && CategoryPublished(db, p.category)
  }

  /** A post is readable by its author and, when public, by everyone. */
  predicate CanView(db: Db, viewer: Viewer, p: Post, now: int) {
    IsUser(viewer, p.author) || IsPublic(db, p, now)
  }

  /** The main feed (`PostListView.get_queryset`). */
  function Feed(db: Db, viewer: Viewer, now: int): (r: seq<Post>)
    ensures NewestFirst(r)
    ensures viewer.Anonymous? ==>
      forall p :: p in r <==> p in db.posts && IsPublic(db, p, now)
    ensures viewer.Authenticated? ==>
      forall p :: p in r <==> p in db.posts && (p.author == viewer.userId || IsPublic(db, p, now))
    ensures forall p :: p in r ==> multiset(r)[p] == multiset(db.posts)[p]
  {
    if viewer.Authenticated? then
      Listing(db.posts, (p: Post) => p.author == viewer.userId || IsPublic(db, p, now))
    else
      Listing(db.posts, (p: Post) => IsPublic(db, p, now))
  }

  /** The detail page (`PostDetailView.get_queryset` followed by the lookup by
      primary key): the viewer's own post with that id if there is one,
      otherwise the public post with that id, otherwise a 404. */
  function Detail(db: Db, viewer: Viewer, postId: nat, now: int): (r: Response<Post>)
    ensures r.Ok? || r.NotFound?
    ensures r.Ok? ==> r.value in db.posts && r.value.id == postId && CanView(db, viewer, r.value, now)
    ensures r.NotFound? <==> forall p :: p in db.posts && p.id == postId ==> !CanView(db, viewer, p, now)
  {
    var own :=
      if viewer.Authenticated? then First(db.posts, (p: Post) => p.id == postId && p.author == viewer.userId)
      else None;
    if own.Some? then Ok(own.value)
    else
      match First(db.posts, (p: Post) => p.id == postId && IsPublic(db, p, now))
      case Some(p) => Ok(p)
      case None => NotFound
  }

  /** `get_object_or_404(Category, slug=slug, is_published=True)`. */
  function FindPublishedCategory(db: Db, slug: string): (r: Option<Category>)
    ensures r.Some? ==> r.value in db.categories && r.value.slug == slug && r.value.isPublished
    ensures r.None? <==> forall c :: c in db.categories && c.slug == slug ==> !c.isPublished
  {
    First(db.categories, (c: Category) => c.slug == slug && c.isPublished)
  }

  /** The category page's context: the category and its listing. */
  datatype CategoryPage = CategoryPage(category: Category, posts: seq<Post>)

  /** The category page (`CategoryPostsView.get_queryset`). It takes no viewer:
      the listing is the same for everyone, authors included. */
  function CategoryFeed(db: Db, slug: string, now: int): (r: Response<CategoryPage>)
    ensures r.Ok? || r.NotFound?
    ensures r.NotFound? <==> forall c :: c in db.categories && c.slug == slug ==> !c.isPublished
    ensures r.Ok? ==>
      var c := r.value.category;
      && c in db.categories && c.slug == slug && c.isPublished
      && NewestFirst(r.value.posts)
      && (forall p :: p in r.value.posts <==>
            p in db.posts && p.category == Some(c.id) && p.isPublished && p.pubDate <= now)
      && (forall p :: p in r.value.posts ==> multiset(r.value.posts)[p] == multiset(db.posts)[p])
  {
    match FindPublishedCategory(db, slug)
    case None => NotFound
    case Some(c) =>
      Ok(CategoryPage(c, Listing(db.posts,
        (p: Post) => p.category == Some(c.id) && p.isPublished && p.pubDate <= now)))
  }
}
