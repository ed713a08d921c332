/**
 The comment views (`comment_create`, `comment_edit`, `comment_delete` in
 blog/views.py) as steps on the comment table. All three sit behind a login.
 */
module Comments {
  import opened Query
  import opened Models
  import opened Visibility

  /** The comment table: rows by primary key, and the key the database hands
      out next (keys are never reused). */
  datatype CommentTable = CommentTable(rows: map<nat, Comment>, nextId: nat)

  /** Every row is stored under its own key, and every key was handed out. */
  predicate ValidTable(t: CommentTable) {
    forall id :: id in t.rows ==> t.rows[id].id == id && id < t.nextId
  }

  /** The rows of `t` other than `except` are still in `t'`, unchanged. */
  predicate KeepsOtherRows(t: CommentTable, t': CommentTable, except: nat) {
    forall id :: id in t.rows && id != except ==> id in t'.rows && t'.rows[id] == t.rows[id]
  }

  /** A GET, or a POST carrying comment text. `text` is the form's cleaned
      value (the comment form strips surrounding whitespace), not the raw
      POST field; `formValid` is the verdict of the form's validation. */
  datatype Request = Display | Submit(text: string, formValid: bool)

  /** What a comment view answers, and the comment table afterwards. */
  datatype Step<T> = Step(response: Response<T>, table: CommentTable)

  /** `get_object_or_404(Post, pk=postId, <public condition>)`. */
  function FindPublicPost(db: Db, postId: nat, now: int): (r: Option<Post>)
    ensures r.Some? ==> r.value in db.posts && r.value.id == postId && IsPublic(db, r.value, now)
    ensures r.None? <==> forall p :: p in db.posts && p.id == postId ==> !IsPublic(db, p, now)
  {
    First(db.posts, (p: Post) => p.id == postId && IsPublic(db, p, now))
  }

  /** `get_object_or_404(Comment, pk=commentId, post_id=postId)`. */
  function FindComment(t: CommentTable, postId: nat, commentId: nat): (r: Option<Comment>)
    ensures r.Some? <==> commentId in t.rows && t.rows[commentId].postId == postId
    ensures r.Some? ==> r.value == t.rows[commentId]
  {
    if commentId in t.rows && t.rows[commentId].postId == postId then Some(t.rows[commentId]) else None
  }

  /** `comment_create`: only a public post takes comments, whoever asks, its
      author included. A valid submission stores a comment whose author and
      post are set from the request, not from the form. */
  function CreateComment(db: Db, t: CommentTable, viewer: Viewer, postId: nat, request: Request, now: int)
    : (s: Step<Post>)
    ensures viewer.Anonymous? ==> s == Step(LoginRequired, t)
    ensures s.response.Ok? || s.response.NotFound? || s.response.LoginRequired? || s.response == RedirectToPost(postId)
    ensures s.response.NotFound? <==>
      viewer.Authenticated? && forall p :: p in db.posts && p.id == postId ==> !IsPublic(db, p, now)
    ensures s.response.Ok? ==>
      s.table == t && s.response.value in db.posts && s.response.value.id == postId && IsPublic(db, s.response.value, now)
    ensures s.response.RedirectToPost? <==>
      viewer.Authenticated? && request.Submit? && request.formValid && FindPublicPost(db, postId, now).Some?
    ensures !s.response.RedirectToPost? ==> s.table == t
    ensures viewer.Authenticated? ==> !s.response.LoginRequired?
    ensures viewer.Authenticated? && FindPublicPost(db, postId, now).Some?
            && !(request.Submit? && request.formValid) ==>
      s == Step(Ok(FindPublicPost(db, postId, now).value), t)
    ensures s.response.RedirectToPost? ==>
      && s.table.rows.Keys == t.rows.Keys + {t.nextId}
      && s.table.nextId > t.nextId
      && var c := s.table.rows[t.nextId];
         c.id == t.nextId && c.author == viewer.userId && c.postId == postId
         && c.text == request.text && c.createdAt == now
    ensures ValidTable(t) ==> ValidTable(s.table) && KeepsOtherRows(t, s.table, t.nextId)
  {
    match viewer
    case Anonymous => Step(LoginRequired, t)
    case Authenticated(userId) =>
      match FindPublicPost(db, postId, now)
      case None => Step(NotFound, t)
      case Some(post) =>
        match request
        case Submit(text, true) =>
          var c := Comment(t.nextId, postId, userId, text, now);
          Step(RedirectToPost(postId), CommentTable(t.rows[t.nextId := c], t.nextId + 1))
        case _ => Step(Ok(post), t)
  }

  /** `comment_edit`: the comment is looked up by its key and its post; anyone
      but its author is redirected to the post with the table untouched. A
      valid submission by the author replaces the text and nothing else. */
  function EditComment(t: CommentTable, viewer: Viewer, postId: nat, commentId: nat, request: Request)
    : (s: Step<Comment>)
    ensures viewer.Anonymous? ==> s == Step(LoginRequired, t)
    ensures s.response.NotFound? <==> viewer.Authenticated? && FindComment(t, postId, commentId).None?
    ensures viewer.Authenticated? && FindComment(t, postId, commentId).Some?
            && !IsUser(viewer, t.rows[commentId].author) ==>
      s == Step(RedirectToPost(postId), t)
    ensures s.response.Ok? ==>
      s.table == t && s.response.value == t.rows[commentId] && IsUser(viewer, s.response.value.author)
    ensures s.response.NotFound? ==> s.table == t
    ensures s.table != t ==>
      && viewer.Authenticated? && FindComment(t, postId, commentId).Some?
      && IsUser(viewer, t.rows[commentId].author) && request.Submit? && request.formValid
    ensures viewer.Authenticated? && FindComment(t, postId, commentId).Some?
            && IsUser(viewer, t.rows[commentId].author) && !(request.Submit? && request.formValid) ==>
      s == Step(Ok(t.rows[commentId]), t)
    ensures s.table.nextId == t.nextId && s.table.rows.Keys == t.rows.Keys
    ensures KeepsOtherRows(t, s.table, commentId)
    ensures viewer.Authenticated? && FindComment(t, postId, commentId).Some?
            && IsUser(viewer, t.rows[commentId].author) && request.Submit? && request.formValid ==>
      && s.response == RedirectToPost(postId)
      && var before, after := t.rows[commentId], s.table.rows[commentId];
         after.text == request.text
         && after.id == before.id && after.postId == before.postId
         && after.author == before.author && after.createdAt == before.createdAt
  {
    match viewer
    case Anonymous => Step(LoginRequired, t)
    case Authenticated(_) =>
      match FindComment(t, postId, commentId)
      case None => Step(NotFound, t)
      case Some(c) =>
        if !IsUser(viewer, c.author) then Step(RedirectToPost(postId), t)
        else
          match request
          case Submit(text, true) =>
            Step(RedirectToPost(postId), CommentTable(t.rows[commentId := c.(text := text)], t.nextId))
          case _ => Step(Ok(c), t)
  }

  /** `comment_delete`: the same lookup and author test as editing; a POST by
      the author removes exactly that comment, a GET asks for confirmation. */
  function DeleteComment(t: CommentTable, viewer: Viewer, postId: nat, commentId: nat, request: Request)
    : (s: Step<Comment>)
    ensures viewer.Anonymous? ==> s == Step(LoginRequired, t)
    ensures s.response.NotFound? <==> viewer.Authenticated? && FindComment(t, postId, commentId).None?
    ensures viewer.Authenticated? && FindComment(t, postId, commentId).Some?
            && !IsUser(viewer, t.rows[commentId].author) ==>
      s == Step(RedirectToPost(postId), t)
    ensures s.response.Ok? ==>
      s.table == t && s.response.value == t.rows[commentId] && IsUser(viewer, s.response.value.author)
    ensures s.response.NotFound? ==> s.table == t
    ensures s.table != t ==>
      && viewer.Authenticated? && FindComment(t, postId, commentId).Some?
      && IsUser(viewer, t.rows[commentId].author) && request.Submit?
    ensures viewer.Authenticated? && FindComment(t, postId, commentId).Some?
            && IsUser(viewer, t.rows[commentId].author) && request.Display? ==>
      s == Step(Ok(t.rows[commentId]), t)
    ensures s.table.nextId == t.nextId
    ensures viewer.Authenticated? && FindComment(t, postId, commentId).Some?
            && IsUser(viewer, t.rows[commentId].author) && request.Submit? ==>
      && s.response == RedirectToPost(postId)
      && s.table.rows.Keys == t.rows.Keys - {commentId}
      && KeepsOtherRows(t, s.table, commentId)
  {
    match viewer
    case Anonymous => Step(LoginRequired, t)
    case Authenticated(_) =>
      match FindComment(t, postId, commentId)
      case None => Step(NotFound, t)
      case Some(c) =>
        if !IsUser(viewer, c.author) then Step(RedirectToPost(postId), t)
        else if request.Submit? then Step(RedirectToPost(postId), CommentTable(t.rows - {commentId}, t.nextId))
        else Step(Ok(c), t)
  }
}
