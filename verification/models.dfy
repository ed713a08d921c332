/**
 The blog's records, reduced to the fields the visibility and ownership rules
 read, and the outcomes a view can produce.
 */
module Models {
  import opened Query

  /** Who makes a request: an anonymous visitor or a signed-in user. */
  datatype Viewer = Anonymous | Authenticated(userId: nat)

  datatype User = User(id: nat, username: string)

  datatype Category = Category(id: nat, slug: string, isPublished: bool)

  /** A post; `category` is the id of the category it is filed under, if any.
      `pubDate` is a point in time on the same scale as the `now` the views
      are given. */
  datatype Post = Post(id: nat, author: nat, isPublished: bool, pubDate: int, category: Option<nat>)

  datatype Comment = Comment(id: nat, postId: nat, author: nat, text: string, createdAt: int)

  /** The user, category and post tables, each in table order. */
  datatype Db = Db(users: seq<User>, categories: seq<Category>, posts: seq<Post>)

  /** What a view answers: a page built from `value`, a 404, a redirect to the
      login page, a redirect to a post's detail page, or a 403. */
  datatype Response<T> =
    | Ok(value: T)
    | NotFound
    | LoginRequired
    | RedirectToPost(postId: nat)
    | Forbidden

  /** `request.user == some_user`: Django compares users by primary key, and
      the anonymous user equals no stored user. */
  predicate IsUser(viewer: Viewer, userId: nat) {
    viewer.Authenticated? && viewer.userId == userId
  }

  /** The uniqueness the database enforces on primary keys, category slugs and
      usernames. */
  predicate WellFormed(db: Db) {
    && (forall i, j :: 0 <= i < j < |db.users| ==>
          db.users[i].id != db.users[j].id && db.users[i].username != db.users[j].username)
    && (forall i, j :: 0 <= i < j < |db.categories| ==>
          db.categories[i].id != db.categories[j].id && db.categories[i].slug != db.categories[j].slug)
    && UniquePostIds(db.posts)
  }

  predicate UniquePostIds(posts: seq<Post>) {
    forall i, j :: 0 <= i < j < |posts| ==> posts[i].id != posts[j].id
  }

  /** `Post.objects.get(pk=postId)`. */
  function FindPost(db: Db, postId: nat): (r: Option<Post>)
    ensures r.Some? ==> r.value in db.posts && r.value.id == postId
    ensures r.None? <==> forall p :: p in db.posts ==> p.id != postId
  {
    First(db.posts, (p: Post) => p.id == postId)
  }

  /** `Category.objects.get(pk=categoryId)`. */
  function FindCategory(db: Db, categoryId: nat): (r: Option<Category>)
    ensures r.Some? ==> r.value in db.categories && r.value.id == categoryId
    ensures r.None? <==> forall c :: c in db.categories ==> c.id != categoryId
  {
    First(db.categories, (c: Category) => c.id == categoryId)
  }

  /** `User.objects.get(username=username)`. */
  function FindUser(db: Db, username: string): (r: Option<User>)
    ensures r.Some? ==> r.value in db.users && r.value.username == username
    ensures r.None? <==> forall u :: u in db.users ==> u.username != username
  {
    First(db.users, (u: User) => u.username == username)
  }

  /** With unique keys, two rows of a table with the same key are the same row. */
  lemma SameCategoryId(db: Db, c: Category, d: Category)
    requires WellFormed(db)
    requires c in db.categories && d in db.categories && c.id == d.id
    ensures c == d
  {
  }

  lemma SameUsername(db: Db, u: User, v: User)
    requires WellFormed(db)
    requires u in db.users && v in db.users && u.username == v.username
    ensures u == v
  {
  }

  /** A table with unique post ids holds each post at most once. */
  lemma {:induction false} UniquePostsOccurOnce(posts: seq<Post>, p: Post)
    requires UniquePostIds(posts)
    ensures multiset(posts)[p] <= 1
  {
    if |posts| > 0 {
      assert posts == [posts[0]] + posts[1..];
      assert UniquePostIds(posts[1..]) by {
        forall i, j | 0 <= i < j < |posts[1..]|
          ensures posts[1..][i].id != posts[1..][j].id
        {
          assert posts[1..][i] == posts[i + 1] && posts[1..][j] == posts[j + 1];
        }
      }
      UniquePostsOccurOnce(posts[1..], p);
      if posts[0] == p {
        forall k | 0 <= k < |posts[1..]|
          ensures posts[1..][k] != p
        {
          assert posts[1..][k] == posts[k + 1];
        }
        assert p !in posts[1..];
      }
    }
  }
}
