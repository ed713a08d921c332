/**
 How the two profile pages relate to each other and to the main feed.
 */
module ProfileFacts {
  import opened Query
  import opened Models
  import opened Visibility
  import opened Profiles

  /** Whoever looks at a user's profile, its owner sees there at least as much. */
  lemma OthersSeeLessThanOwner(db: Db, viewer: Viewer, user: User, now: int)
    requires WellFormed(db)
    requires user in db.users
    ensures var seen, owned := Profile(db, viewer, user.username, now),
                               Profile(db, Authenticated(user.id), user.username, now);
      && seen.Ok? && owned.Ok? && seen.value.user == user && owned.value.user == user
      && forall p :: p in seen.value.posts ==> p in owned.value.posts
  {
  }

  /** What anyone but the owner sees on a profile is the public feed
      restricted to the profile's user. */
  lemma {:induction false} ProfileForOthersIsPublicFeedOfAuthor(db: Db, viewer: Viewer, user: User, now: int)
    requires WellFormed(db)
    requires user in db.users && !IsUser(viewer, user.id)
    ensures var r := Profile(db, viewer, user.username, now);
      && r.Ok? && r.value.user == user
      && forall p :: p in r.value.posts <==> p in Feed(db, Anonymous, now) && p.author == user.id
  {
    var found := FindUser(db, user.username);
    assert found.Some?;
    SameUsername(db, found.value, user);
  }

  /** A user's own page is the listing they get on their public profile. */
  lemma OwnProfileIsOwnersProfile(db: Db, user: User, now: int)
    requires WellFormed(db)
    requires user in db.users
    ensures Profile(db, Authenticated(user.id), user.username, now)
         == Ok(ProfilePage(user, OwnProfile(db, Authenticated(user.id)).value))
  {
  }
}
