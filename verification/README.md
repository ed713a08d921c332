# Blogicum visibility and ownership rules, in Dafny

Blogicum is a Django blog. Signed-in users write posts and comments. Visitors
browse what is published. An admin console manages the records. The only
logic of its own is the policy deciding who may read a post and who may change
a post or a comment. The admin console also has one string helper. This
project restates that policy as pure functions over immutable tables and
proves what the views promise.

- `Query` (query.dfy): the two query-set operations the views use. `Filter`
  is `.filter(...)`. `First` is a `.get(...)` or `get_object_or_404`.
- `Models` (models.dfy): the records, reduced to the fields the rules read.
  Posts refer to their category by id. The module also holds the view
  outcomes (`Response`: page, 404, login redirect, redirect to a post, 403),
  the key lookups, and the uniqueness the database enforces (`WellFormed`).
- `Ordering` (ordering.dfy): `order_by('-pub_date')`, as an insertion sort
  that is proved to order newest first and to keep each row's multiplicity.
- `Visibility` (visibility.dfy): the public condition, the main feed, the
  detail page and the category page (blog/views.py).
- `Profiles` (profiles.dfy): `profile` and `profile_view` (users/views.py).
- `PostAccess` (post_access.dfy): the author test of `PostUpdateView` and
  `PostDeleteView`, with each view's answer to a refusal.
- `Comments` (comments.dfy): `comment_create`, `comment_edit` and
  `comment_delete` as steps on a comment table. The table is a map from
  primary key to row, plus the next key the database will hand out.
- `Admin` (admin.dfy): `CommentAdmin.text_preview`.
- `VisibilityFacts`, `ProfileFacts`, `CommentFacts`: lemmas relating the
  views to each other.

The clock is a parameter `now`. A post is public when it is published, its
`pubDate` is at most `now`, and it has a category that is published. A post
without a category fails that join.

## Model

| member | source | states |
|---|---|---|
| Ordering.OrderByNewest | blogicum/blog/views.py:45 | the rows come back with the same multiplicities, publication dates non-increasing |
| Ordering.Listing | blogicum/blog/views.py:38-45 | a filtered, ordered listing holds exactly the admitted rows, each as often as in the table, with publication dates non-increasing |
| Visibility.Feed | blogicum/blog/views.py:26-45 | anonymous viewers get exactly the public posts; a signed-in viewer gets exactly their own posts plus the public ones; newest first; no row more often than in the table |
| VisibilityFacts.FeedIsOwnPlusPublic | blogicum/blog/views.py:37-42 | a signed-in user's feed is the union of their own posts and the anonymous feed |
| VisibilityFacts.FeedListsPostsOnce | blogicum/blog/views.py:37-45 | with unique post ids, every feed lists each post at most once |
| Visibility.Detail | blogicum/blog/views.py:53-69 | the detail page shows a post with the requested id that the viewer authored or that is public, and answers 404 exactly when no such post exists |
| VisibilityFacts.DetailAgreesWithFeed | blogicum/blog/views.py:57-69 | with unique post ids, the detail page shows post p exactly when p carries the requested id and the same viewer's feed lists p |
| Visibility.FindPublishedCategory | blogicum/blog/views.py:124-128 | the category lookup finds a published category with the slug, and fails exactly when every category with that slug is unpublished |
| Visibility.CategoryFeed | blogicum/blog/views.py:123-139 | 404 unless a published category has the slug; otherwise exactly the posts of that category that are published and dated no later than now, newest first, the same for every viewer |
| VisibilityFacts.CategoryFeedIsPublicFeedOfCategory | blogicum/blog/views.py:124-133 | a category page lists exactly the posts of the anonymous feed that are filed under that category |
| VisibilityFacts.CategoryFeedWithinEveryFeed | blogicum/blog/views.py:124-133 | every post on a category page is in every viewer's main feed: the category page never shows an author's hidden post |
| VisibilityFacts.UnpublishedHiddenFromOthers | blogicum/blog/views.py:37-69 | an unpublished post is absent from the feed, the detail page and every category page of anyone but its author |
| VisibilityFacts.ScheduledPostVisibleOnlyToAuthorFeed | blogicum/blog/views.py:37-42 | a published post dated after now is absent from every feed but its author's and from every category page, yet listed in its author's feed |
| Profiles.AuthoredBy | blogicum/users/views.py:30 | lists exactly the posts of one author, newest first, each as often as in the table |
| Profiles.Profile | blogicum/users/views.py:38-56 | 404 exactly for an unknown username; the owner sees all of their posts whatever their publication state; anyone else sees exactly the owner's public posts; every listed post is by the profile's user; newest first |
| Profiles.OwnProfile | blogicum/users/views.py:27-30 | anonymous visitors are sent to log in; a signed-in user gets exactly their own posts, newest first |
| ProfileFacts.OthersSeeLessThanOwner | blogicum/users/views.py:42-51 | whatever a viewer sees on a profile, the profile's owner sees there too |
| ProfileFacts.ProfileForOthersIsPublicFeedOfAuthor | blogicum/users/views.py:46-51 | a non-owner's view of a profile is the anonymous feed restricted to that author |
| ProfileFacts.OwnProfileIsOwnersProfile | blogicum/users/views.py:30-43 | a user's own page lists the same posts, in the same order, as their public profile seen by themselves |
| Models.FindCategory | blogicum/blog/views.py:30 | the category join finds a category with the post's category id, and fails exactly when no category has it |
| Models.FindUser | blogicum/users/views.py:39 | the user lookup finds a user with the username, and fails exactly when no user has it |
| Models.FindPost | blogicum/blog/views.py:97 | the post lookup finds a post with the id, and fails exactly when no post has it |
| PostAccess.EditPost | blogicum/blog/views.py:91-101 | the edit form is granted only to the post's author; a signed-in viewer gets 404 exactly for a missing id; any other refusal, an anonymous visitor's included, redirects to the post's detail page |
| PostAccess.DeletePost | blogicum/blog/views.py:107-114 | deletion is granted only to the post's author; anonymous visitors are sent to log in; a signed-in viewer gets 404 for a missing id and 403 for someone else's post |
| PostAccess.OnlyAuthorMayModifyPost | blogicum/blog/views.py:96-114 | for an existing post, edit and delete are granted exactly when the viewer is its author |
| PostAccess.EditAndDeleteDecideAlike | blogicum/blog/views.py:96-114 | for signed-in viewers both views grant, refuse and 404 on the same requests; a refused edit redirects to the detail page where a refused delete is a 403 |
| Comments.FindPublicPost | blogicum/blog/views.py:149-155 | the comment target lookup finds a public post with the id, and fails exactly when no post with the id is public |
| CommentFacts.FindCommentMatchesColumns | blogicum/blog/views.py:176 | in a consistent table, the comment lookup succeeds exactly when a stored comment has that primary key and belongs to that post, and returns that comment |
| Comments.CreateComment | blogicum/blog/views.py:147-171 | anonymous visitors are sent to log in; for any signed-in viewer, the post's author included, 404 exactly when no post with the id is public; a GET or an invalid submission renders the form for the post with the table unchanged; only a valid submission stores a comment; the stored comment takes a fresh key, the viewer as author and the URL's post, and no other row changes |
| Comments.EditComment | blogicum/blog/views.py:174-193 | anonymous visitors are sent to log in; 404, with the table unchanged, unless the comment belongs to the URL's post; a non-author is redirected with the table unchanged; the author's GET or invalid submission shows the comment's form; only a valid submission by the author changes the table, and it changes that comment's text and nothing else |
| Comments.DeleteComment | blogicum/blog/views.py:196-210 | anonymous visitors are sent to log in; 404, with the table unchanged, unless the comment belongs to the URL's post; a non-author is redirected with the table unchanged; the author's GET shows the confirmation; only the author's POST changes the table, and it removes exactly that comment |
| CommentFacts.NonAuthorLeavesTableUnchanged | blogicum/blog/views.py:176-201 | nobody but a comment's author changes the comment table through it, whatever the request |
| CommentFacts.HiddenPostTakesNoComment | blogicum/blog/views.py:149-155 | a post that is not public takes no comment, even from its own author |
| CommentFacts.NewCommentEditableByItsAuthorOnly | blogicum/blog/views.py:160-179 | after a comment is created, its author can open its edit form and every other user is redirected |
| CommentFacts.DeleteUndoesCreate | blogicum/blog/views.py:160-205 | deleting a comment right after creating it restores the comment table's rows |
| Admin.TextPreview | blogicum/blog/admin.py:43 | a text of at most 50 characters is shown unchanged; a longer one is shown as its first 50 characters and "..."; the preview never exceeds 53 characters |
| Admin.TextPreviewIdempotent | blogicum/blog/admin.py:43 | previewing a preview gives the same preview |
| Admin.TextPreviewCollisions | blogicum/blog/admin.py:43 | two texts share a preview exactly when they are equal or both are longer than 50 characters and agree on the first 50 |

## Behaviour worth knowing

- `order_by('-pub_date')` breaks no ties, so only non-increasing publication
  dates are promised.
- `category__is_published=True` is a join that a post without a category
  fails, so such a post is never public. The signed-in feed still lists the
  viewer's own category-less posts, because the author test is an
  alternative to the whole public condition.
- Refusals differ by view. A refused post deletion by a signed-in user is a
  403, and an anonymous deletion attempt goes to the login page. An anonymous
  attempt to edit a post is redirected to the post, because the login check
  calls the refusal handler that `PostUpdateView` overrides.

## Left out

- HTTP handling, template rendering and pagination (10 posts per page) are
  framework plumbing. Views return a `Response` instead.
- `annotate(Count(...))`, `select_related` and `prefetch_related` change
  neither which rows are listed nor their order.
- Post fields the rules do not read are left out: title, text, image,
  location and creation time.
- Creating a post, and saving the edit form or deleting the post once access
  is granted, are left out. They are model-form writes. Only the access
  decision is modelled.
- The comment list on the detail page, ordered by creation time, is left out.
  It is template context, not a visibility rule.
- Comment form validation is an input to the comment views (`formValid`).
  The form layer (blog/forms.py) is not part of this model.
- Lookups take the first matching row. Django raises an error when several
  rows match. The uniqueness of primary keys, slugs and usernames
  (`WellFormed`) rules that out, and the lemmas that need it assume it.
- Registration, login and sessions are left out. They are delegated to
  Django's auth.
- The settings-module environment variable, URL configuration and manage.py
  are environment setup.
- The missing `Count` import in users/views.py and the misnamed
  `RegistrationView` in users/urls.py are not reproduced. The profile listing
  is modelled as intended.
- The real clock is replaced by the parameter `now`. The current user is
  replaced by the parameter `viewer`.
