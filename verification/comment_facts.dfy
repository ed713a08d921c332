/**
 How the comment views compose: who can change the table, and what creating
 and then editing or deleting a comment amounts to.
 */
module CommentFacts {
  import opened Query
  import opened Models
  import opened Visibility
  import opened Comments

  /** Nobody but a comment's author changes the table through it, whatever
      they send. */
  lemma NonAuthorLeavesTableUnchanged(t: CommentTable, viewer: Viewer, postId: nat, commentId: nat, request: Request)
    requires commentId in t.rows && !IsUser(viewer, t.rows[commentId].author)
    ensures EditComment(t, viewer, postId, commentId, request).table == t
    ensures DeleteComment(t, viewer, postId, commentId, request).table == t
  {
  }

  /** A post that is not public takes no comment, even from its author. */
  lemma HiddenPostTakesNoComment(db: Db, t: CommentTable, p: Post, request: Request, now: int)
    requires UniquePostIds(db.posts)
    requires p in db.posts && !IsPublic(db, p, now)
    ensures CreateComment(db, t, Authenticated(p.author), p.id, request, now) == Step(NotFound, t)
  {
  }

  /** The author of a comment just created can open its edit form, and no
      other user can. */
  lemma NewCommentEditableByItsAuthorOnly(
    db: Db, t: CommentTable, userId: nat, other: nat, postId: nat, text: string, now: int)
    requires ValidTable(t)
    requires other != userId
    requires CreateComment(db, t, Authenticated(userId), postId, Submit(text, true), now).response.RedirectToPost?
    ensures var t' := CreateComment(db, t, Authenticated(userId), postId, Submit(text, true), now).table;
      && EditComment(t', Authenticated(userId), postId, t.nextId, Display) == Step(Ok(t'.rows[t.nextId]), t')
      && EditComment(t', Authenticated(other), postId, t.nextId, Display) == Step(RedirectToPost(postId), t')
  {
  }

  /** Deleting a comment right after creating it restores the table's rows. */
  lemma DeleteUndoesCreate(db: Db, t: CommentTable, userId: nat, postId: nat, text: string, now: int)
    requires ValidTable(t)
    requires CreateComment(db, t, Authenticated(userId), postId, Submit(text, true), now).response.RedirectToPost?
    ensures var t' := CreateComment(db, t, Authenticated(userId), postId, Submit(text, true), now).table;
      DeleteComment(t', Authenticated(userId), postId, t.nextId, Submit("", false)).table.rows == t.rows
  {
  }

  /** Looking a comment up by its map key is the query on the row's own
      columns: some stored comment has that primary key and belongs to that
      post exactly when the lookup succeeds, and the lookup returns that row. */
  lemma {:induction false} FindCommentMatchesColumns(t: CommentTable, postId: nat, commentId: nat)
    requires ValidTable(t)
    ensures FindComment(t, postId, commentId).Some? <==>
      exists c :: c in t.rows.Values && c.id == commentId && c.postId == postId
    ensures forall c :: c in t.rows.Values && c.id == commentId && c.postId == postId ==>
      FindComment(t, postId, commentId) == Some(c)
  {
    forall c | c in t.rows.Values && c.id == commentId && c.postId == postId
      ensures FindComment(t, postId, commentId) == Some(c)
    {
      var k :| k in t.rows && t.rows[k] == c;
      assert k == commentId;
    }
    if FindComment(t, postId, commentId).Some? {
      assert t.rows[commentId] in t.rows.Values;
    }
  }
}
