# Comment store and workflow of a Django news site

This project models the part of the news application that has real rules:
the comment table and what the request handlers and the admin screens do to
it, plus these small helpers:

- the article view counter,
- the article list's pagination,
- the admin's comment preview, tag article count and tag column.

It proves properties of that model in Dafny.

The model is laid out as follows:

- `wrappers.dfy` declares `Option`.
- `models.dfy` holds the records:
  - `Tag`;
  - `Article`, a class whose only mutable field is the `views` counter;
  - `Comment`, an immutable record kept in a `map` from id to comment.
  It also holds the comment queries (`Select`, `ApprovedRoots`, `Replies`,
  `CommentsCount`), the cascading delete (`Doomed`, `Cascade`), the bulk
  approval update (`SetApproval`) and the lemmas about them.
- `store.dfy` holds the `Database` class. Its fields are the article table,
  the comment table and the next id. Its methods are the row operations the
  handlers use: insert, delete with cascade, delete of an article, and bulk
  approval update. `Database.Valid` is the store's consistency: slugs are
  keys and foreign keys resolve, which the database enforces, and a parent is
  older than its reply, which holds because the modelled operations only
  insert new comments under fresh ids and never rewrite a parent.
  `Models.Threaded` is the application's promise on top of that: a reply sits
  under a comment of its own article. Every handler and admin action, as
  modelled, is proved to keep both; `Database.Save` itself keeps `Threaded`
  only for a comment whose parent is on its own article.
- `forms.dfy` models binding `CommentForm`. The text is a required text field:
  it is stripped of surrounding whitespace, may not be blank and may
  not hold a NUL character. The parent is an optional choice among all stored
  comments.
- `views.dfy` models the handlers `article_detail`,
  `_handle_comment_submission`, `add_comment`, `delete_comment` and the
  pagination of `article_list`. Each answer is a `Response` value.
- `admin.dfy` models `content_preview`, the approve and disapprove actions,
  `article_count` and `display_tags`.

A comment's id is handed out in increasing order. "Ordered by creation
time" is therefore modelled as "ordered by id".

Three behaviours of the code are easy to misread, so they are stated here:

- `add_comment` on an article with comments disabled, or with a method other
  than POST, only redirects to the article (the_game_post/news/views.py:174, 211).
  It does not answer Forbidden.
- A posted parent id that names no stored comment makes the form invalid,
  because the form's `parent` field is a model choice field
  (the_game_post/news/forms.py:7). The form is then refused; the comment is
  not stored as a root.
- A page number below 1 falls in the paginator's "empty page" case
  (the_game_post/news/views.py:79-81). It shows the last page, not the first.

The two comment handlers store a reply under the parent that
`Views.ResolveParent` picks: the posted comment when it is on the same
article, and no parent otherwise. The code as written keeps a stored parent
from another article too; that behaviour is `Views.ParentAsWritten`, and it is
the subject of the finding below.

## Model

| member | source | states |
|---|---|---|
| Models.Article.constructor | the_game_post/news/models.py:20-29 | a new article has the given fields and a view count of 0 |
| Models.Article.IncrementViews | the_game_post/news/models.py:42-45 | the view count rises by exactly one and no other field changes |
| Models.Select | the_game_post/news/models.py:84 | a comment query lists exactly the stored comments that match it, each once, in strictly increasing creation order |
| Models.CommentsCount | the_game_post/news/models.py:47-49 | once the bound is past every id, the comment count of an article equals the number of its approved comments at any depth |
| Models.ApprovedRoots | the_game_post/news/views.py:108 | the listing holds, in increasing creation order, exactly the approved comments of the article that have no parent |
| Models.Replies | the_game_post/news/models.py:93-95 | the replies hold, in increasing creation order, exactly the approved comments whose parent is the given comment |
| Models.CountAfterInsert | the_game_post/news/models.py:47-49 | storing one approved comment on an article raises its count by exactly one |
| Models.SelectAfterInsert | the_game_post/news/models.py:84 | after an insert under the next id, a query's list is the old list, plus the new id at the end exactly when the new comment matches |
| Models.InsertListed | the_game_post/news/models.py:47-95 | a new approved comment is appended to its article's top-level list when a root, to its parent's replies when a reply, and raises the article's count by one |
| Models.SelectAgrees | the_game_post/news/models.py:84 | a query depends only on the rows below its bound |
| Models.RootOrReply | the_game_post/news/models.py:89-95 | an approved comment of an article is listed among its top-level comments exactly when it is not a reply, and among the replies of `p` exactly when its parent is `p` |
| Models.RepliesAreDirectOnly | the_game_post/news/models.py:93-95 | a grandchild is never among a comment's replies; each approved child is |
| Models.AncestorIsOlder | the_game_post/news/models.py:75 | in a consistent table, every comment reached by following parent links from another was created before it |
| Models.NoReplyCycle | the_game_post/news/models.py:75 | in a consistent table, no comment reaches itself by following parent links |
| Models.Doomed | the_game_post/news/models.py:75 | the cascade deletes only stored comments, and every stored comment deleted directly |
| Models.DoomedIsSubtree | the_game_post/news/models.py:75 | in a consistent table, the cascade deletes exactly the stored seeds and every stored comment whose parent links reach a seed |
| Models.DoomedClosed | the_game_post/news/models.py:75 | the set a cascade deletes holds every reply to a comment it deletes |
| Models.DoomedGrounded | the_game_post/news/models.py:75 | each comment the cascade deletes, other than the ones deleted directly, is a reply to a deleted comment |
| Models.DoomedLeast | the_game_post/news/models.py:75 | the cascade deletes nothing beyond the smallest reply-closed set holding the directly deleted comments |
| Models.Cascade | the_game_post/news/models.py:73-75 | the table after a cascade is the old table without the deleted set, with every other row unchanged |
| Models.CascadeKeepsReferential | the_game_post/news/models.py:75 | after a cascade every remaining parent reference still resolves to an older comment |
| Models.CascadeKeepsThreaded | the_game_post/news/models.py:75 | after a cascade every remaining reply still sits under a comment of its own article |
| Models.DeletedThreadGone | the_game_post/news/models.py:75 | deleting a comment removes it and every comment whose parent links reach it, and leaves it with no replies |
| Models.CascadeStaysInArticle | the_game_post/news/models.py:73-75 | deleting a comment removes comments of its own article only |
| Models.ArticleCascadeExact | the_game_post/news/models.py:73 | deleting an article removes exactly its comments, since their replies are its comments too |
| Models.SetApproval | the_game_post/news/admin.py:86-91 | a bulk approval update keeps the same set of comments, each on its article and under its parent |
| Models.SetApprovalEffect | the_game_post/news/admin.py:86-91 | a selected comment gets the new flag with every other field kept; an unselected comment is unchanged |
| Models.SetApprovalIdempotent | the_game_post/news/admin.py:86-91 | applying the same approval action twice has the effect of applying it once |
| Models.SetApprovalKeepsInvariants | the_game_post/news/admin.py:86-91 | an approval update keeps parent references and threading intact |
| Models.DisapprovedHidden | the_game_post/news/admin.py:90-91 | a disapproved comment disappears from every comment listing and count |
| Store.Database.constructor | the_game_post/news/models.py:72-84 | an empty store is consistent and hands out ids from 1 |
| Store.Database.Published | the_game_post/news/views.py:97 | a found article is stored and published, and in a consistent store has that slug; when nothing is found, the slug is unknown or its article is unpublished |
| Store.Database.AddArticle | the_game_post/news/models.py:22 | an article with a taken slug is refused; otherwise it is stored under its slug |
| Store.Database.Save | the_game_post/news/views.py:164 | a saved comment is stored under the next id, the counter advances, and nothing else changes |
| Store.Database.Delete | the_game_post/news/views.py:226 | deleting a comment leaves exactly the cascade's table, with the store still consistent and threaded |
| Store.Database.DeleteArticle | the_game_post/news/models.py:73 | deleting an article removes it and its comments and their replies |
| Store.Database.UpdateApproval | the_game_post/news/admin.py:87 | a bulk update sets the approval flag of the selected comments and nothing else |
| Forms.Strip | the_game_post/news/models.py:76 | stripped text has no surrounding whitespace, and is empty exactly when the text is all whitespace |
| Forms.StripIsMiddle | the_game_post/news/models.py:76 | the text is whitespace, then the stripped text, then whitespace |
| Forms.TrimStartSplit | the_game_post/news/models.py:76 | the text is the whitespace cut from its start followed by what remains |
| Forms.TrimEndSplit | the_game_post/news/models.py:76 | the text is what remains followed by the whitespace cut from its end |
| Forms.CleanParent | the_game_post/news/forms.py:7 | a blank parent value means no parent; the id of any stored comment, of any article, is accepted as the parent; every other value is an invalid choice |
| Forms.FormErrors | the_game_post/news/views.py:147 | the form reports the text exactly when it is blank or holds NUL, and the parent exactly when it is not a stored comment's id |
| Views.ResolveParent | the_game_post/news/views.py:156-162 | a posted id of a comment on the same article becomes the parent; any other value gives no parent |
| Views.ParentAsWritten | the_game_post/news/views.py:151-162 | as written, any posted id that the form accepted stays the parent, whatever its article, and a blank value gives no parent |
| Views.ResolutionsDiffer | the_game_post/news/views.py:151-162 | the code as written and the corrected resolution differ exactly when the posted id names a stored comment of another article |
| Views.AsWrittenKeepsReferential | the_game_post/news/views.py:151-164 | as written, storing an accepted comment still leaves every parent reference resolving to an older stored comment |
| Views.ForeignParentKept | the_game_post/news/views.py:156-162 | as written, a reply posted under another article's comment keeps that parent, so the table stops being threaded |
| Views.Prepare | the_game_post/news/views.py:146-162 | a refused form yields its errors; an accepted one yields an approved comment on the target article by the requesting user, with the stripped text and the resolved parent |
| Views.BestEffortParent | the_game_post/news/views.py:156-162 | with valid text, naming a stored comment never refuses the form: the parent is kept when on the same article and dropped otherwise |
| Views.PrepareKeepsInvariants | the_game_post/news/views.py:151-164 | storing a prepared comment keeps parent references and threading intact |
| Views.SubmittedCommentListed | the_game_post/news/views.py:108 | a stored comment appears at the end of its article's top-level list or of its parent's replies, and raises the article's count by one |
| Views.HandleCommentSubmission | the_game_post/news/views.py:140-166 | an anonymous or invalid post changes nothing, and a valid one stores exactly the prepared comment; the store stays consistent and threaded |
| Views.CountView | the_game_post/news/views.py:97-100 | the published article under the slug is looked up, and it alone gains exactly one view |
| Views.DetailResponse | the_game_post/news/views.py:107-113 | on a found article, a post with comments enabled is a submission; anything else lists the approved top-level comments and changes nothing |
| Views.ArticleDetail | the_game_post/news/views.py:95-113 | a missing or unpublished article gives not-found; every visit adds exactly one view to the target only; a post with comments enabled is a submission, anything else lists the approved top-level comments |
| Views.AddCommentStoresOnlyWhenAllowed | the_game_post/news/views.py:169-190 | the comment endpoint changes the table only for a signed-in post on a published article with comments enabled, and then adds one comment by that user on that article |
| Views.AddComment | the_game_post/news/views.py:169-211 | sign-in, then the article, then the method and flag are checked before the form; the answer is JSON for script requests and a redirect otherwise |
| Views.DeleteOutcome | the_game_post/news/views.py:214-231 | sign-in is checked first, then existence, then authorship or staff; only an allowed post deletes, and each answer holds exactly in its case |
| Views.DeleteComment | the_game_post/news/views.py:214-231 | the comment and its replies go exactly when the answer is "deleted"; in every other case the store is unchanged |
| Views.NumPages | the_game_post/news/views.py:71 | there is at least one page, and the page count is the least number of pages of 3 holding every article |
| Views.ClampPage | the_game_post/news/views.py:72-81 | a missing or non-integer page shows page 1; an existing page is shown as asked; any other integer shows the last page |
| Views.PageItems | the_game_post/news/views.py:75 | a page holds at most 3 consecutive articles starting at its offset, and at least one when there are any |
| Views.ItemOnItsPage | the_game_post/news/views.py:71-75 | every article is at position `i % 3` of page `i / 3 + 1` |
| Views.PublishedArticles | the_game_post/news/views.py:55 | the list holds published articles only, and every published article |
| Views.PublishedAppend | the_game_post/news/views.py:55 | the filter keeps the order it is given: an article added at the end appears at the end exactly when published |
| Views.ArticleList | the_game_post/news/views.py:54-81 | the page shown is the clamped page, and it holds exactly that page's slice of the published articles: at most 3, and at least one when any exist |
| Admin.ContentPreview | the_game_post/news/admin.py:83 | a text of at most 50 characters is shown unchanged, a longer one as its first 50 characters and "..."; never more than 53 characters |
| Admin.PreviewIsPrefix | the_game_post/news/admin.py:83 | a preview is the text, or 53 characters made of the text's first 50 and "..." |
| Admin.PreviewIdempotent | the_game_post/news/admin.py:83 | previewing a preview changes nothing |
| Admin.PreviewFixedPoints | the_game_post/news/admin.py:83 | a text is its own preview exactly when it is short, or 50 characters followed by "..." |
| Admin.ApproveComments | the_game_post/news/admin.py:86-87 | every selected comment becomes approved and every other comment is unchanged |
| Admin.DisapproveComments | the_game_post/news/admin.py:90-91 | every selected comment becomes unapproved and every other comment is unchanged |
| Admin.ArticleCount | the_game_post/news/admin.py:29-30 | the count is at most the number of articles; it is zero exactly when no article carries the tag and full exactly when all do |
| Admin.ArticleCountAdd | the_game_post/news/admin.py:29-30 | adding one article raises the count by one exactly when that article carries the tag, which with the empty count 0 fixes every count |
| Admin.SplitJoin | the_game_post/news/admin.py:65 | cutting the joined names at each ", " gives them back, for one or more names none of which holds ", " |
| Admin.JoinSplit | the_game_post/news/admin.py:65 | cutting any text at each ", " gives one or more pieces, none holding ", ", that join back to the text |
| Admin.SplitTagsInjective | the_game_post/news/admin.py:65 | two texts that cut into the same names are the same text, so the names fix the column |
| Admin.DisplayTags | the_game_post/news/admin.py:64-65 | no tags give an empty column and one tag its bare name; when no tag name holds ", ", cutting the column at each ", " gives back the tag names in order |
| Admin.SeparatorFreeUncut | the_game_post/news/admin.py:65 | a text without ", ", whatever commas it holds, is never cut |

## Left out

- Registration, login and logout are not modelled. A request carries an `Identity`: anonymous, or a user id with a staff flag.
- Templates, the message framework, redirect targets and the JSON body are not modelled. A handler's answer is a `Response` value naming its kind and its message.
- Parsing of the raw `page` and `parent` strings is not modelled. The request carries them already classified: the form's `ParentValue` and the view's `PageParam`.
- Timestamps are not modelled. The auto-increment id stands for creation order.
- The popular-articles query, the tag-slug filter and the category filter of `article_list` are not modelled. They are plain queries.
- The `Category` model is not part of this model, nor is the admin's category requirement.
- Editing article fields through the admin's generic forms is not modelled. The model keeps those fields fixed and changes only `views`.
- Deleting a user, and the cascade to that user's articles and comments (the_game_post/news/models.py:25, 74), is not modelled. Users exist only as ids.
- `ArticleBlock`, image upload and the admin inlines are not modelled. They hold no comment rules.
- The tag relation's name ordering is taken as given. An article's `tags` sequence is assumed to be in the order the relation lists it.
- Concurrent requests and database transactions are not modelled. Every handler runs alone, from start to end.
- The text field's widgets and labels are not modelled. Only the facts that the form carries the text and an optional parent are kept.
- Models.Article.IncrementViews: does not model the database's upper limit on a positive integer column (2147483647), because the counter is an unbounded `nat`.
- The admin's generic comment forms are not modelled: the comment change form (the_game_post/news/admin.py:74-80) lets staff set any comment's article, author and parent, and the article page's comment inline (the_game_post/news/admin.py:10-15) lets staff edit author, text and approval. A parent set there may be younger than its reply, or on another article. So the parent-older part of `Models.Referential` and all of `Models.Threaded` are promises of the modelled operations only, not of the database.
- The articles' `-created_at` default order (the_game_post/news/models.py:34) is taken as given. `Views.ArticleList` receives the articles already in that order, and `Views.PublishedAppend` shows that the filter keeps it.
- Views.Prepare: uses the corrected parent resolution `Views.ResolveParent`, not the code as written. The as-written resolution is `Views.ParentAsWritten`, related to it by `Views.ResolutionsDiffer` and `Views.ForeignParentKept`.
- Views.BestEffortParent: states the corrected parent resolution, under which a parent from another article is dropped; as written it is kept (`Views.ForeignParentKept`).
- Views.PrepareKeepsInvariants: proves that threading is kept under the corrected parent resolution only; as written only `Models.Referential` is kept (`Views.AsWrittenKeepsReferential`).
- Views.HandleCommentSubmission: stores the comment with the corrected parent resolution. As written it would store a parent from another article, which keeps `Models.Referential` but not `Models.Threaded`.
- Views.DetailResponse: a submission uses the corrected parent resolution, as in `Views.HandleCommentSubmission`.
- Views.ArticleDetail: a submission uses the corrected parent resolution, as in `Views.HandleCommentSubmission`.
- Views.AddComment: stores the comment with the corrected parent resolution, as in `Views.HandleCommentSubmission`.
- Admin.DisplayTags: states nothing about how to cut a column of two or more tags when a tag name itself holds ", ". Tag names may hold it (the_game_post/news/models.py:7), and such a column is ambiguous.
- Admin.ArticleCount: counts over a set of articles given to it, not over the relation's rows, because the tag-to-article relation is modelled by each article's own tag list.

## Findings

| source | as written | input that shows it | evidently intended | confidence | as-written member | corrected member |
|---|---|---|---|---|---|---|
| the_game_post/news/views.py:156-162 | The form already sets the parent to any stored comment it cleaned. The same-article lookup only overwrites it on success, and `except DoesNotExist: pass` keeps the form's value. The same code is at lines 182-188. | A signed-in post to article A with `parent` set to the id of a comment on article B. | A parent from another article is dropped, and the comment becomes a root of A. | not executed; high | Views.ForeignParentKept | Views.ResolveParent |
