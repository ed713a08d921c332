/**
 Who may edit or delete a post (`PostUpdateView` and `PostDeleteView` in
 blog/views.py). Both views require a signed-in user, fetch the post by
 primary key and then test that the viewer is its author; they differ in how
 a refusal is answered.
 */
module PostAccess {
  import opened Query
  import opened Models

  /** Access to the edit form. `PostUpdateView` overrides the refusal handler
      with a redirect to the post's detail page, and the login check calls the
      same handler, so an anonymous visitor is redirected there too. `Ok(p)`
      means the form for `p` is served and may be saved. */
  function EditPost(db: Db, viewer: Viewer, postId: nat): (r: Response<Post>)
    ensures r.Ok? || r.NotFound? || r == RedirectToPost(postId)
    ensures viewer.Anonymous? ==> r == RedirectToPost(postId)
    ensures viewer.Authenticated? ==> (r.NotFound? <==> forall p :: p in db.posts ==> p.id != postId)
    ensures r.Ok? ==> r.value in db.posts && r.value.id == postId && IsUser(viewer, r.value.author)
    ensures viewer.Authenticated? && r.RedirectToPost? ==>
      FindPost(db, postId).Some? && !IsUser(viewer, FindPost(db, postId).value.author)
  {
    if viewer.Anonymous? then RedirectToPost(postId)
    else
      match FindPost(db, postId)
      case None => NotFound
      case Some(p) => if IsUser(viewer, p.author) then Ok(p) else RedirectToPost(postId)
  }

  /** Access to the delete confirmation. `PostDeleteView` keeps the default
      refusal handler: an anonymous visitor is sent to the login page and a
      signed-in non-author gets a 403. */
  function DeletePost(db: Db, viewer: Viewer, postId: nat): (r: Response<Post>)
    ensures r.Ok? || r.NotFound? || r.LoginRequired? || r.Forbidden?
    ensures r.LoginRequired? <==> viewer.Anonymous?
    ensures viewer.Authenticated? ==> (r.NotFound? <==> forall p :: p in db.posts ==> p.id != postId)
    ensures r.Ok? ==> r.value in db.posts && r.value.id == postId && IsUser(viewer, r.value.author)
    ensures r.Forbidden? ==>
      FindPost(db, postId).Some? && viewer.Authenticated? && !IsUser(viewer, FindPost(db, postId).value.author)
  {
    if viewer.Anonymous? then LoginRequired
    else
      match FindPost(db, postId)
      case None => NotFound
      case Some(p) => if IsUser(viewer, p.author) then Ok(p) else Forbidden
  }

  /** Editing and deleting a post are granted to the same people: its author. */
  lemma OnlyAuthorMayModifyPost(db: Db, viewer: Viewer, p: Post)
    requires UniquePostIds(db.posts)
    requires p in db.posts
    ensures EditPost(db, viewer, p.id).Ok? <==> IsUser(viewer, p.author)
    ensures DeletePost(db, viewer, p.id).Ok? <==> IsUser(viewer, p.author)
  {
  }

  /** For a signed-in viewer the two views decide alike; a refused edit is a
      redirect to the detail page where a refused delete is a 403. */
  lemma EditAndDeleteDecideAlike(db: Db, userId: nat, postId: nat)
    ensures var edit := EditPost(db, Authenticated(userId), postId);
      var delete := DeletePost(db, Authenticated(userId), postId);
      && (edit.Ok? <==> delete.Ok?)
      && (edit.NotFound? <==> delete.NotFound?)
      && (edit == RedirectToPost(postId) <==> delete.Forbidden?)
  {
  }
}
