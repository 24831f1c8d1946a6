/** The request handlers of the news application that touch comments and
    views: the article page (which also takes comment posts), the separate
    comment endpoint, comment deletion, and the article list's pagination.

    Responses are reduced to what a handler decides: which kind of
    response it sends, which one-off message it attaches, and what it lists. */
module Views {
  import opened Wrappers
  import opened Models
  import opened Forms
  import opened Store

  datatype Request = Request(user: Identity, isPost: bool, ajax: bool, post: PostData)

  /** The one-off message shown on the next page. */
  datatype Notice = NoNotice | CommentAdded | LoginToComment | CommentRejected | CommentDeleted | WrongMethod

  datatype Response =
    | NotFound
    | LoginRedirect
    | Forbidden
    | Render(comments: seq<CommentId>)
    | Redirect(notice: Notice)
    | JsonCreated(commentId: CommentId)
    | JsonErrors(errors: set<FormField>)

  // ---------------------------------------------------------------------
  // Comment submission
  // ---------------------------------------------------------------------

  /** The parent a new comment on `a` gets: the comment named by the posted
      id when it is a comment of `a`; no parent otherwise. */
  function ResolveParent(rows: Table, a: Article, pv: ParentValue): (r: Option<CommentId>)
    ensures r.Some? ==> pv == Numeric(r.value) && r.value in rows && rows[r.value].article == a
    ensures pv.Numeric? && pv.n >= 0 && pv.n in rows && rows[pv.n].article == a ==> r == Some(pv.n)
  {
    match pv
    case Numeric(n) => if n >= 0 && n in rows && rows[n].article == a then Some(n) else None
    case _ => None
  }

  /** The parent the handlers give a new comment as they are written: the
      form has already set the parent it cleaned (any stored comment), and
      a failed same-article lookup leaves that value in place. */
  function ParentAsWritten(rows: Table, a: Article, pv: ParentValue): (r: Option<CommentId>)
    requires !CleanParent(rows, pv).InvalidChoice?
    ensures r.Some? ==> pv == Numeric(r.value) && r.value in rows
    ensures pv.Numeric? ==> r == Some(pv.n)
    ensures pv.Blank? ==> r.None?
  {
    var fromForm: Option<CommentId> := match CleanParent(rows, pv)
                                       case ParentChosen(p) => Some(p)
                                       case _ => None;
    match pv
    case Numeric(n) => if n >= 0 && n in rows && rows[n].article == a then Some(n) else fromForm
    case _ => fromForm
  }

  /** As written, a reply posted to article `a` under a comment of another
      article keeps that parent, so the stored thread crosses articles. */
  lemma ForeignParentKept(rows: Table, nextId: CommentId, a: Article, p: CommentId, author: UserId, text: string)
    requires Referential(rows, nextId)
    requires p in rows && rows[p].article != a
    ensures ParentAsWritten(rows, a, Numeric(p)) == Some(p)
    ensures !Threaded(rows[nextId := Comment(a, author, ParentAsWritten(rows, a, Numeric(p)), text, true)])
  {
    var stored := rows[nextId := Comment(a, author, Some(p), text, true)];
    assert p != nextId;
    assert stored[nextId].parent == Some(p) && stored[p].article != stored[nextId].article;
  }

  /** The two resolutions part only on the id of a stored comment of
      another article: the corrected one drops it, the code keeps it. */
  lemma ResolutionsDiffer(rows: Table, a: Article, pv: ParentValue)
    requires !CleanParent(rows, pv).InvalidChoice?
    ensures ParentAsWritten(rows, a, pv) != ResolveParent(rows, a, pv) <==>
              pv.Numeric? && pv.n in rows && rows[pv.n].article != a
  {
  }

  /** As written, storing an accepted comment still keeps every parent
      reference resolving to an older stored comment; only `Threaded` is
      lost. */
  lemma AsWrittenKeepsReferential(rows: Table, nextId: CommentId, a: Article, author: UserId, post: PostData)
    requires Referential(rows, nextId)
    requires FormErrors(rows, post) == {}
    ensures Referential(rows[nextId := Comment(a, author, ParentAsWritten(rows, a, post.parent),
                                               Strip(post.content), true)], nextId + 1)
  {
    var par := ParentAsWritten(rows, a, post.parent);
    assert par.Some? ==> par.value in rows && par.value < nextId;
    var stored := rows[nextId := Comment(a, author, par, Strip(post.content), true)];
    forall id | id in stored && stored[id].parent.Some?
      ensures stored[id].parent.value in stored && stored[id].parent.value < id
    {
      if id != nextId {
        assert rows[id].parent.value != nextId;
      }
    }
  }

  /** The outcome of validating a posted comment before anything is stored. */
  datatype Attempt = Refused(errors: set<FormField>) | Accepted(comment: Comment)

  /** Validates the form and builds the comment to store: on article `a`,
      by `author`, approved by default, with the cleaned text and the
      resolved parent. */
  function Prepare(rows: Table, a: Article, author: UserId, post: PostData): (r: Attempt)
    ensures r.Refused? <==> FormErrors(rows, post) != {}
    ensures r.Refused? ==> r.errors == FormErrors(rows, post)
    ensures r.Accepted? ==>
              r.comment.article == a && r.comment.author == author && r.comment.isApproved &&
              r.comment.content == Strip(post.content) && r.comment.content != [] &&
              r.comment.parent == ResolveParent(rows, a, post.parent)
  {
    var errors := FormErrors(rows, post);
    if errors != {} then Refused(errors)
    else Accepted(Comment(a, author, ResolveParent(rows, a, post.parent), Strip(post.content), true))
  }

  /** Parent resolution is best effort: a posted id of a comment on the same
      article becomes the parent; the id of a comment on another article is
      dropped without an error and the comment becomes a root. */
  lemma BestEffortParent(rows: Table, a: Article, author: UserId, post: PostData, p: CommentId)
    requires ContentAccepted(post.content)
    requires post.parent == Numeric(p) && p in rows
    ensures Prepare(rows, a, author, post).Accepted?
    ensures rows[p].article == a ==> Prepare(rows, a, author, post).comment.parent == Some(p)
    ensures rows[p].article != a ==> Prepare(rows, a, author, post).comment.parent == None
  {
  }

  /** Storing a prepared comment under the next id keeps both invariants of
      the comment table. */
  lemma PrepareKeepsInvariants(rows: Table, nextId: CommentId, a: Article, author: UserId, post: PostData)
    requires Referential(rows, nextId) && Threaded(rows)
    requires Prepare(rows, a, author, post).Accepted?
    ensures Referential(rows[nextId := Prepare(rows, a, author, post).comment], nextId + 1)
    ensures Threaded(rows[nextId := Prepare(rows, a, author, post).comment])
  {
    var c := Prepare(rows, a, author, post).comment;
    var stored := rows[nextId := c];
    forall id | id in stored && stored[id].parent.Some?
      ensures stored[id].parent.value in stored && stored[stored[id].parent.value].article == stored[id].article
    {
      if id != nextId {
        assert rows[id].parent.value != nextId;
      }
    }
  }

  /** What the article page does with a posted comment. */
  ghost predicate SubmissionEffect(rows: Table, next: CommentId, a: Article, req: Request,
                                   resp: Response, rows': Table, next': CommentId)
  {
    var same := rows' == rows && next' == next;
    if req.user.Anonymous? then resp == Redirect(LoginToComment) && same
    else match Prepare(rows, a, req.user.id, req.post)
      case Refused(_) => resp == Redirect(CommentRejected) && same
      case Accepted(c) => resp == Redirect(CommentAdded) && rows' == rows[next := c] && next' == next + 1
  }

  /** A stored comment shows up at once: a root at the end of the article's
      listing, a reply at the end of its parent's replies. */
  lemma SubmittedCommentListed(rows: Table, next: CommentId, a: Article, req: Request,
                               resp: Response, rows': Table, next': CommentId)
    requires forall id :: id in rows ==> id < next
    requires SubmissionEffect(rows, next, a, req, resp, rows', next')
    requires resp == Redirect(CommentAdded)
    ensures next in rows' && rows'[next].article == a
    ensures rows'[next].parent.None? ==> ApprovedRoots(rows', a, next') == ApprovedRoots(rows, a, next) + [next]
    ensures rows'[next].parent.Some? ==>
              var p := rows'[next].parent.value;
              Replies(rows', p, next') == Replies(rows, p, next) + [next]
    ensures CommentsCount(rows', a, next') == CommentsCount(rows, a, next) + 1
  {
    var c := Prepare(rows, a, req.user.id, req.post).comment;
    assert rows' == rows[next := c] && next' == next + 1;
    assert c.article == a && c.isApproved;
    InsertListed(rows, next, c);
  }

  /** `_handle_comment_submission`: signed-in users only, then the form,
      then one stored comment. */
  method HandleCommentSubmission(db: Database, a: Article, req: Request) returns (resp: Response)
    requires db.Valid() && a in db.articles.Values
    modifies db
    ensures db.Valid() && db.articles == old(db.articles)
    ensures SubmissionEffect(old(db.comments), old(db.nextId), a, req, resp, db.comments, db.nextId)
    ensures Threaded(old(db.comments)) ==> Threaded(db.comments)
  {
    if req.user.Anonymous? {
      return Redirect(LoginToComment);
    }
    var attempt := Prepare(db.comments, a, req.user.id, req.post);
    match attempt
    case Refused(_) =>
      resp := Redirect(CommentRejected);
    case Accepted(c) =>
      var _ := db.Save(c);
      resp := Redirect(CommentAdded);
  }

  /** The first step of `article_detail`: look the published article up by
      its slug and count one view on it. */
  method CountView(db: Database, slug: string) returns (found: Option<Article>)
    requires db.Valid()
    modifies db.articles.Values
    ensures db.articles == old(db.articles) && db.comments == old(db.comments) && db.nextId == old(db.nextId)
    ensures found == db.Published(slug)
    ensures forall a :: a in db.articles.Values ==>
              a.views == old(a.views) + (if found == Some(a) then 1 else 0)
  {
    found := db.Published(slug);
    if found.Some? {
      found.value.IncrementViews();
    }
  }

  /** The rest of `article_detail`, once the article is found: a post with
      comments enabled is a submission, anything else renders the thread. */
  method DetailResponse(db: Database, a: Article, req: Request) returns (resp: Response)
    requires db.Valid() && a in db.articles.Values
    modifies db
    ensures db.Valid() && db.articles == old(db.articles)
    ensures !(req.isPost && a.commentsEnabled) ==>
              resp == Render(ApprovedRoots(db.comments, a, db.nextId)) &&
              db.comments == old(db.comments) && db.nextId == old(db.nextId)
    ensures req.isPost && a.commentsEnabled ==>
              SubmissionEffect(old(db.comments), old(db.nextId), a, req, resp, db.comments, db.nextId)
    ensures Threaded(old(db.comments)) ==> Threaded(db.comments)
  {
    if req.isPost && a.commentsEnabled {
      resp := HandleCommentSubmission(db, a, req);
    } else {
      resp := Render(ApprovedRoots(db.comments, a, db.nextId));
    }
  }

  /** `article_detail`: the published article's page. Every visit counts one
      view; a post with comments enabled is a comment submission, anything
      else lists the approved top-level comments. */
  method ArticleDetail(db: Database, slug: string, req: Request) returns (resp: Response)
    requires db.Valid()
    modifies db, db.articles.Values
    ensures db.Valid() && db.articles == old(db.articles)
    ensures forall a :: a in db.articles.Values ==>
              a.views == old(a.views) + (if db.Published(slug) == Some(a) then 1 else 0)
    ensures db.Published(slug).None? ==>
              resp == NotFound && db.comments == old(db.comments) && db.nextId == old(db.nextId)
    ensures db.Published(slug).Some? && !(req.isPost && db.Published(slug).value.commentsEnabled) ==>
              resp == Render(ApprovedRoots(db.comments, db.Published(slug).value, db.nextId)) &&
              db.comments == old(db.comments) && db.nextId == old(db.nextId)
    ensures db.Published(slug).Some? && req.isPost && db.Published(slug).value.commentsEnabled ==>
              SubmissionEffect(old(db.comments), old(db.nextId), db.Published(slug).value, req,
                               resp, db.comments, db.nextId)
    ensures Threaded(old(db.comments)) ==> Threaded(db.comments)
  {
    var found := CountView(db, slug);
    if found.None? {
      return NotFound;
    }
    resp := DetailResponse(db, found.value, req);
    assert db.Published(slug) == found;
  }

  /** What the separate comment endpoint does. */
  ghost predicate AddCommentEffect(rows: Table, next: CommentId, found: Option<Article>, req: Request,
                                   resp: Response, rows': Table, next': CommentId)
  {
    var same := rows' == rows && next' == next;
    if req.user.Anonymous? then resp == LoginRedirect && same
    else if found.None? then resp == NotFound && same
    else if !(req.isPost && found.value.commentsEnabled) then resp == Redirect(NoNotice) && same
    else match Prepare(rows, found.value, req.user.id, req.post)
      case Refused(errs) =>
        same && resp == (if req.ajax then JsonErrors(errs) else Redirect(CommentRejected))
      case Accepted(c) =>
        rows' == rows[next := c] && next' == next + 1 &&
        resp == (if req.ajax then JsonCreated(next) else Redirect(CommentAdded))
  }

  /** The comment endpoint stores something only for a signed-in post to a
      published article with comments enabled, and then exactly one comment. */
  lemma AddCommentStoresOnlyWhenAllowed(rows: Table, next: CommentId, found: Option<Article>, req: Request,
                                        resp: Response, rows': Table, next': CommentId)
    requires AddCommentEffect(rows, next, found, req, resp, rows', next')
    requires rows' != rows
    ensures req.user.Member? && req.isPost && found.Some? && found.value.commentsEnabled
    ensures next' == next + 1 && rows' == rows[next := rows'[next]]
    ensures rows'[next].article == found.value && rows'[next].author == req.user.id
  {
  }

  /** `add_comment`: sign-in required; answers in JSON to script requests
      and with a message and redirect otherwise. */
  method AddComment(db: Database, slug: string, req: Request) returns (resp: Response)
    requires db.Valid()
    modifies db
    ensures db.Valid() && db.articles == old(db.articles)
    ensures AddCommentEffect(old(db.comments), old(db.nextId), db.Published(slug), req, resp, db.comments, db.nextId)
    ensures Threaded(old(db.comments)) ==> Threaded(db.comments)
  {
    if req.user.Anonymous? {
      return LoginRedirect;
    }
    var found := db.Published(slug);
    if found.None? {
      return NotFound;
    }
    var a := found.value;
    if !(req.isPost && a.commentsEnabled) {
      return Redirect(NoNotice);
    }
    var attempt := Prepare(db.comments, a, req.user.id, req.post);
    match attempt
    case Refused(errs) =>
      resp := if req.ajax then JsonErrors(errs) else Redirect(CommentRejected);
    case Accepted(c) =>
      var id := db.Save(c);
      assert db.Published(slug) == found;
      resp := if req.ajax then JsonCreated(id) else Redirect(CommentAdded);
  }

  // ---------------------------------------------------------------------
  // Comment deletion
  // ---------------------------------------------------------------------

  /** The author of a comment and staff users may delete it. */
  predicate MayDelete(user: Identity, c: Comment) {
    user.Member? && (c.author == user.id || user.isStaff)
  }

  /** How `delete_comment` answers: sign-in first, then the comment must
      exist, then the user must be allowed, and only a post deletes. */
  function DeleteOutcome(rows: Table, id: CommentId, req: Request): (r: Response)
    ensures r == LoginRedirect <==> req.user.Anonymous?
    ensures r == NotFound <==> req.user.Member? && id !in rows
    ensures r == Forbidden <==> req.user.Member? && id in rows && !MayDelete(req.user, rows[id])
    ensures r == Redirect(CommentDeleted) <==> id in rows && MayDelete(req.user, rows[id]) && req.isPost
    ensures r == Redirect(WrongMethod) <==> id in rows && MayDelete(req.user, rows[id]) && !req.isPost
  {
    if req.user.Anonymous? then LoginRedirect
    else if id !in rows then NotFound
    else if !MayDelete(req.user, rows[id]) then Forbidden
    else if req.isPost then Redirect(CommentDeleted)
    else Redirect(WrongMethod)
  }

  /** `delete_comment`: removes the comment and its replies when allowed,
      and changes nothing in every other case. */
  method DeleteComment(db: Database, id: CommentId, req: Request) returns (resp: Response)
    requires db.Valid()
    modifies db
    ensures db.Valid() && db.articles == old(db.articles) && db.nextId == old(db.nextId)
    ensures resp == DeleteOutcome(old(db.comments), id, req)
    ensures db.comments == if resp == Redirect(CommentDeleted) then Cascade(old(db.comments), {id})
                           else old(db.comments)
    ensures Threaded(old(db.comments)) ==> Threaded(db.comments)
  {
    if req.user.Anonymous? {
      return LoginRedirect;
    }
    if id !in db.comments {
      return NotFound;
    }
    if !MayDelete(req.user, db.comments[id]) {
      return Forbidden;
    }
    if req.isPost {
      db.Delete(id);
      resp := Redirect(CommentDeleted);
    } else {
      resp := Redirect(WrongMethod);
    }
  }

  // ---------------------------------------------------------------------
  // Article list pagination
  // ---------------------------------------------------------------------

  const ArticlesPerPage: nat := 3

  /** The `page` query parameter: absent, not an integer, or an integer. */
  datatype PageParam = NoPage | NotAnInteger | PageNumber(n: int)

  /** The number of pages; an empty list still has one (empty) page. */
  function NumPages(count: nat): (r: nat)
    ensures r >= 1
    ensures (r - 1) * ArticlesPerPage < (if count == 0 then 1 else count) <= r * ArticlesPerPage
  {
    var hits := if count == 0 then 1 else count;
    (hits + ArticlesPerPage - 1) / ArticlesPerPage
  }

  /** The page shown: page 1 for a missing or non-integer parameter, the
      requested page when it exists, and the last page for any integer out
      of range (below 1 as well as past the end). */
  function ClampPage(page: PageParam, count: nat): (r: nat)
    ensures 1 <= r <= NumPages(count)
    ensures !page.PageNumber? ==> r == 1
    ensures page.PageNumber? && 1 <= page.n <= NumPages(count) ==> r == page.n
    ensures page.PageNumber? && !(1 <= page.n <= NumPages(count)) ==> r == NumPages(count)
  {
    match page
    case NoPage => 1
    case NotAnInteger => 1
    case PageNumber(n) => if 1 <= n <= NumPages(count) then n else NumPages(count)
  }

  /** The items of page `p`. */
  function PageItems<T>(xs: seq<T>, p: nat): (r: seq<T>)
    requires 1 <= p <= NumPages(|xs|)
    ensures |r| <= ArticlesPerPage
    ensures xs != [] ==> |r| >= 1
    ensures (p - 1) * ArticlesPerPage + |r| <= |xs|
    ensures forall i :: 0 <= i < |r| ==> r[i] == xs[(p - 1) * ArticlesPerPage + i]
  {
    var bottom := (p - 1) * ArticlesPerPage;
    assert bottom <= (NumPages(|xs|) - 1) * ArticlesPerPage;
    assert bottom < |xs| || bottom == 0;
    var top := if bottom + ArticlesPerPage >= |xs| then |xs| else bottom + ArticlesPerPage;
    xs[bottom..top]
  }

  /** Every item is on exactly one page: item `i` is at position `i % 3` of
      page `i / 3 + 1`. */
  lemma ItemOnItsPage<T>(xs: seq<T>, i: nat)
    requires i < |xs|
    ensures 1 <= i / ArticlesPerPage + 1 <= NumPages(|xs|)
    ensures var page := PageItems(xs, i / ArticlesPerPage + 1);
            i % ArticlesPerPage < |page| && page[i % ArticlesPerPage] == xs[i]
  {
    var p := i / ArticlesPerPage + 1;
    var n := NumPages(|xs|);
    assert (p - 1) * ArticlesPerPage + i % ArticlesPerPage == i;
  }

  /** The published articles, in the order given. */
  function PublishedArticles(all: seq<Article>): (r: seq<Article>)
    ensures |r| <= |all|
    ensures forall i :: 0 <= i < |r| ==> r[i] in all && r[i].isPublished
    ensures forall i :: 0 <= i < |all| && all[i].isPublished ==> all[i] in r
  {
    if all == [] then []
    else (if all[0].isPublished then [all[0]] else []) + PublishedArticles(all[1..])
  }

  /** The filter keeps the given order: an article added at the end shows
      up at the end when published and not at all otherwise. */
  lemma {:induction false} PublishedAppend(all: seq<Article>, x: Article)
    ensures PublishedArticles(all + [x]) == PublishedArticles(all) + (if x.isPublished then [x] else [])
  {
    if all != [] {
      assert (all + [x])[1..] == all[1..] + [x];
      PublishedAppend(all[1..], x);
    } else {
      assert ([] + [x])[1..] == [];
    }
  }

  datatype ArticlePage = ArticlePage(number: nat, items: seq<Article>)

  /** `article_list`: the published articles, three per page. */
  function ArticleList(all: seq<Article>, page: PageParam): (r: ArticlePage)
    ensures r.number == ClampPage(page, |PublishedArticles(all)|)
    ensures r.items == PageItems(PublishedArticles(all), r.number)
    ensures forall i :: 0 <= i < |r.items| ==> r.items[i] in all && r.items[i].isPublished
    ensures |r.items| <= ArticlesPerPage
    ensures PublishedArticles(all) != [] ==> r.items != []
  {
    var published := PublishedArticles(all);
    var number := ClampPage(page, |published|);
    var items := PageItems(published, number);
    ArticlePage(number, items)
  }
}
