/**
 The profile pages (users/views.py): any user's profile by username, and the
 signed-in user's own page.
 */
module Profiles {
  import opened Query
  import opened Models
  import opened Ordering
  import opened Visibility

  /** `Post.objects.filter(author=userId)`, newest first. */
  function AuthoredBy(db: Db, userId: nat): (r: seq<Post>)
    ensures NewestFirst(r)
    ensures forall p :: p in r <==> p in db.posts && p.author == userId
    ensures forall p :: p in r ==> multiset(r)[p] == multiset(db.posts)[p]
  {
    Listing(db.posts, (p: Post) => p.author == userId)
  }

  /** The profile page's context: the profile's user and their listing. */
  datatype ProfilePage = ProfilePage(user: User, posts: seq<Post>)

  /** `profile(request, username)`: a 404 for an unknown username; the owner
      sees all of their posts, anyone else only the public ones. */
  function Profile(db: Db, viewer: Viewer, username: string, now: int): (r: Response<ProfilePage>)
    ensures r.Ok? || r.NotFound?
    ensures r.NotFound? <==> forall u :: u in db.users ==> u.username != username
    ensures r.Ok? ==> r.value.user in db.users && r.value.user.username == username
    ensures r.Ok? ==> NewestFirst(r.value.posts)
    ensures r.Ok? ==> forall p :: p in r.value.posts ==> p.author == r.value.user.id
    ensures r.Ok? && IsUser(viewer, r.value.user.id) ==>
      forall p :: p in r.value.posts <==> p in db.posts && p.author == r.value.user.id
    ensures r.Ok? && !IsUser(viewer, r.value.user.id) ==>
      forall p :: p in r.value.posts <==> p in db.posts && p.author == r.value.user.id && IsPublic(db, p, now)
    ensures r.Ok? ==> forall p :: p in r.value.posts ==> multiset(r.value.posts)[p] == multiset(db.posts)[p]
  {
    match FindUser(db, username)
    case None => NotFound
    case Some(user) =>
      if IsUser(viewer, user.id) then Ok(ProfilePage(user, AuthoredBy(db, user.id)))
      else Ok(ProfilePage(user, Listing(db.posts, (p: Post) => p.author == user.id && IsPublic(db, p, now))))
  }

  /** `profile_view(request)`: behind a login; lists every post of the
      signed-in user, published or not. */
  function OwnProfile(db: Db, viewer: Viewer): (r: Response<seq<Post>>)
    ensures r.Ok? || r.LoginRequired?
    ensures r.LoginRequired? <==> viewer.Anonymous?
    ensures r.Ok? ==> NewestFirst(r.value)
    ensures r.Ok? ==> forall p :: p in r.value <==> p in db.posts && p.author == viewer.userId
  {
    match viewer
    case Anonymous => LoginRequired
    case Authenticated(userId) => Ok(AuthoredBy(db, userId))
  }
}
