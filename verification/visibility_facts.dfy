/**
 How the feed, the detail page and the category page relate to each other.
 */
module VisibilityFacts {
  import opened Query
  import opened Models
  import opened Visibility

  /** A signed-in user's feed is their own posts together with the public feed. */
  lemma FeedIsOwnPlusPublic(db: Db, userId: nat, now: int)
    ensures forall p :: p in Feed(db, Authenticated(userId), now) <==>
      (p in db.posts && p.author == userId) || p in Feed(db, Anonymous, now)
  {
  }

  /** Every feed lists each post at most once. */
  lemma {:induction false} FeedListsPostsOnce(db: Db, viewer: Viewer, now: int)
    requires UniquePostIds(db.posts)
    ensures forall p :: multiset(Feed(db, viewer, now))[p] <= 1
  {
    var r := Feed(db, viewer, now);
    forall p
      ensures multiset(r)[p] <= 1
    {
      UniquePostsOccurOnce(db.posts, p);
      if p !in r {
        assert p !in multiset(r);
      }
    }
  }

  /** The detail page shows exactly the posts the same viewer's feed lists. */
  lemma DetailAgreesWithFeed(db: Db, viewer: Viewer, postId: nat, now: int, p: Post)
    requires UniquePostIds(db.posts)
    ensures Detail(db, viewer, postId, now) == Ok(p) <==> p in Feed(db, viewer, now) && p.id == postId
  {
  }

  /** The page of a published category lists exactly the posts of the
      anonymous feed that are filed under it. */
  lemma {:induction false} CategoryFeedIsPublicFeedOfCategory(db: Db, c: Category, now: int)
    requires WellFormed(db)
    requires c in db.categories && c.isPublished
    ensures var r := CategoryFeed(db, c.slug, now);
      && r.Ok? && r.value.category == c
      && forall p :: p in r.value.posts <==> p in Feed(db, Anonymous, now) && p.category == Some(c.id)
  {
    var r := CategoryFeed(db, c.slug, now);
    assert r.Ok?;
    var found := FindCategory(db, c.id);
    assert found.Some?;
    SameCategoryId(db, found.value, c);
    SameCategoryId(db, r.value.category, c);
  }

  /** Nothing appears on a category page that some viewer's main feed lacks. */
  lemma CategoryFeedWithinEveryFeed(db: Db, c: Category, viewer: Viewer, now: int)
    requires WellFormed(db)
    requires c in db.categories && c.isPublished
    ensures forall p :: p in CategoryFeed(db, c.slug, now).value.posts ==> p in Feed(db, viewer, now)
  {
    CategoryFeedIsPublicFeedOfCategory(db, c, now);
  }

  /** A post that is not published is hidden from everyone but its author:
      absent from their feed, their detail page and every category page. */
  lemma UnpublishedHiddenFromOthers(db: Db, viewer: Viewer, p: Post, slug: string, now: int)
    requires UniquePostIds(db.posts)
    requires p in db.posts && !p.isPublished && !IsUser(viewer, p.author)
    ensures p !in Feed(db, viewer, now)
    ensures Detail(db, viewer, p.id, now).NotFound?
    ensures CategoryFeed(db, slug, now).Ok? ==> p !in CategoryFeed(db, slug, now).value.posts
  {
  }

  /** A scheduled post (published, dated after `now`) is hidden from every
      feed but its author's, and from every category page, its author
      included, yet its author's own feed lists it. */
  lemma ScheduledPostVisibleOnlyToAuthorFeed(db: Db, p: Post, slug: string, now: int)
    requires p in db.posts && p.isPublished && p.pubDate > now
    ensures p !in Feed(db, Anonymous, now)
    ensures forall v :: !IsUser(v, p.author) ==> p !in Feed(db, v, now)
    ensures p in Feed(db, Authenticated(p.author), now)
    ensures CategoryFeed(db, slug, now).Ok? ==> p !in CategoryFeed(db, slug, now).value.posts
  {
  }
}
