/** The records of the news application (tags, articles, comments) and the
    queries and cascades defined over the comment table.

    The comment table is a map from comment id to comment record. Ids are
    handed out in increasing order, so a comment's id is also its position
    in creation order, and "ordered by creation time" is "ordered by id". */
module Models {
  import opened Wrappers

  type UserId = nat
  type CommentId = nat

  /** Who sent a request: nobody, or a signed-in user with its staff flag. */
  datatype Identity = Anonymous | Member(id: UserId, isStaff: bool)

  datatype Tag = Tag(name: string, slug: string, color: string)

  /** An article. Only the view counter changes in place; the other
      fields are fixed for the lifetime of the object in this model. */
  class Article {
    const title: string
    const slug: string
    const author: UserId
    const isPublished: bool
    const commentsEnabled: bool
    /** The tags in the order the relation lists them (by name). */
    const tags: seq<Tag>
    var views: nat

    constructor (title: string, slug: string, author: UserId, isPublished: bool,
                 commentsEnabled: bool, tags: seq<Tag>)
      ensures this.title == title && this.slug == slug && this.author == author
      ensures this.isPublished == isPublished && this.commentsEnabled == commentsEnabled
      ensures this.tags == tags
      ensures views == 0
    {
      this.title := title;
      this.slug := slug;
      this.author := author;
      this.isPublished := isPublished;
      this.commentsEnabled := commentsEnabled;
      this.tags := tags;
      views := 0;
    }

    /** Raises the view counter by one and touches nothing else. */
    method IncrementViews()
      modifies this`views
      ensures views == old(views) + 1
    {
      views := views + 1;
    }
  }

  /** A stored comment. Its id is the key under which the table holds it. */
  datatype Comment = Comment(article: Article, author: UserId, parent: Option<CommentId>,
                             content: string, isApproved: bool)
  {
    predicate IsReply() {
      parent.Some?
    }
  }

  type Table = map<CommentId, Comment>

  /** The shape of the comment table: every id is below the next id to be
      handed out, and a parent reference names a stored comment. The
      database enforces that a parent resolves; that it is older than its
      reply holds because the modelled operations only ever insert new
      comments under fresh ids and never rewrite a parent. */
  ghost predicate Referential(rows: Table, nextId: CommentId) {
    forall id :: id in rows ==>
      id < nextId &&
      (rows[id].parent.Some? ==> rows[id].parent.value in rows && rows[id].parent.value < id)
  }

  /** What the application promises on top: a reply hangs under a comment
      of its own article. */
  ghost predicate Threaded(rows: Table) {
    forall id :: id in rows && rows[id].parent.Some? ==>
      rows[id].parent.value in rows && rows[rows[id].parent.value].article == rows[id].article
  }

  // ---------------------------------------------------------------------
  // Queries
  // ---------------------------------------------------------------------

  /** The comment filters of the application; each keeps approved comments only. */
  datatype Query =
    | ApprovedRootsOf(article: Article)
    | ApprovedRepliesTo(parent: CommentId)
    | ApprovedOn(article: Article)

  predicate Matches(c: Comment, q: Query) {
    c.isApproved &&
    match q
    case ApprovedRootsOf(a) => c.article == a && c.parent.None?
    case ApprovedRepliesTo(p) => c.parent == Some(p)
    case ApprovedOn(a) => c.article == a
  }

  /** The ids below `bound` of the comments that satisfy `q`, in creation order. */
  function Select(rows: Table, q: Query, bound: nat): (r: seq<CommentId>)
    ensures Increasing(r)
    ensures forall id :: id in r <==> id < bound && id in rows && Matches(rows[id], q)
    decreases bound
  {
    if bound == 0 then []
    else
      var k := bound - 1;
      var prefix := Select(rows, q, k);
      var last := if k in rows && Matches(rows[k], q) then [k] else [];
      assert forall i :: 0 <= i < |prefix| ==> prefix[i] in prefix;
      assert forall id :: id in prefix + last <==> id in prefix || id in last;
      prefix + last
  }

  /** The comments shown on an article's page: approved top-level ones,
      oldest first. */
  function ApprovedRoots(rows: Table, a: Article, bound: nat): (r: seq<CommentId>)
    ensures Increasing(r)
    ensures forall id :: id in r <==>
              id < bound && id in rows && rows[id].isApproved && rows[id].article == a && rows[id].parent.None?
  {
    Select(rows, ApprovedRootsOf(a), bound)
  }

  /** `get_replies`: the approved comments whose parent is `p`, oldest first. */
  function Replies(rows: Table, p: CommentId, bound: nat): (r: seq<CommentId>)
    ensures Increasing(r)
    ensures forall id :: id in r <==> id < bound && id in rows && rows[id].isApproved && rows[id].parent == Some(p)
  {
    Select(rows, ApprovedRepliesTo(p), bound)
  }

  /** `get_comments_count`: how many approved comments the article has,
      whatever their depth in the thread, once `bound` is past every id. */
  function CommentsCount(rows: Table, a: Article, bound: nat): (n: nat)
    ensures (forall id :: id in rows ==> id < bound) ==> n == |ApprovedOnArticle(rows, a)|
  {
    var r := Select(rows, ApprovedOn(a), bound);
    IncreasingCardinality(r);
    assert (forall id :: id in rows ==> id < bound) ==> (set x | x in r) == ApprovedOnArticle(rows, a);
    |r|
  }

  /** The approved comments of an article at any depth, as a set. */
  ghost function ApprovedOnArticle(rows: Table, a: Article): set<CommentId> {
    set id | id in rows && rows[id].article == a && rows[id].isApproved
  }

  predicate Increasing(r: seq<int>) {
    forall i, j :: 0 <= i < j < |r| ==> r[i] < r[j]
  }

  /** A strictly increasing sequence lists that many distinct values. */
  lemma {:induction false} IncreasingCardinality(r: seq<int>)
    requires Increasing(r)
    ensures |set x | x in r| == |r|
  {
    if r != [] {
      var tail := r[1..];
      IncreasingCardinality(tail);
      var all := set x | x in r;
      var rest := set x | x in tail;
      assert all == rest + {r[0]} by {
        assert r == [r[0]] + tail;
      }
      assert r[0] !in rest;
    }
  }

  /** Two tables that agree below `bound` give the same listings below `bound`. */
  lemma {:induction false} SelectAgrees(rows: Table, rows': Table, q: Query, bound: nat)
    requires forall id :: id < bound ==> (id in rows <==> id in rows')
    requires forall id :: id < bound && id in rows ==> rows[id] == rows'[id]
    ensures Select(rows, q, bound) == Select(rows', q, bound)
  {
    if bound > 0 {
      SelectAgrees(rows, rows', q, bound - 1);
    }
  }

  /** A comment stored under the next free id goes to the end of every
      listing it matches, and leaves the others as they were. */
  lemma SelectAfterInsert(rows: Table, q: Query, next: CommentId, c: Comment)
    requires forall id :: id in rows ==> id < next
    ensures Select(rows[next := c], q, next + 1)
         == Select(rows, q, next) + (if Matches(c, q) then [next] else [])
  {
    SelectAgrees(rows, rows[next := c], q, next);
  }

  /** A new approved comment raises its article's count by exactly one,
      whether it is a root or a reply at any depth. */
  lemma CountAfterInsert(rows: Table, next: CommentId, c: Comment)
    requires forall id :: id in rows ==> id < next
    requires c.isApproved
    ensures CommentsCount(rows[next := c], c.article, next + 1) == CommentsCount(rows, c.article, next) + 1
  {
    SelectAfterInsert(rows, ApprovedOn(c.article), next, c);
  }

  /** A new approved comment goes to the end of its own listing: its
      article's top-level comments when it is a root, its parent's replies
      when it is a reply; and the article's count rises by one. */
  lemma InsertListed(rows: Table, next: CommentId, c: Comment)
    requires forall id :: id in rows ==> id < next
    requires c.isApproved
    ensures c.parent.None? ==>
              ApprovedRoots(rows[next := c], c.article, next + 1) == ApprovedRoots(rows, c.article, next) + [next]
    ensures c.parent.Some? ==>
              Replies(rows[next := c], c.parent.value, next + 1) == Replies(rows, c.parent.value, next) + [next]
    ensures CommentsCount(rows[next := c], c.article, next + 1) == CommentsCount(rows, c.article, next) + 1
  {
    if c.parent.None? {
      SelectAfterInsert(rows, ApprovedRootsOf(c.article), next, c);
    } else {
      SelectAfterInsert(rows, ApprovedRepliesTo(c.parent.value), next, c);
    }
    CountAfterInsert(rows, next, c);
  }

  /** A listed approved comment of an article is either one of its roots or
      one of the replies of its parent, never both. */
  lemma RootOrReply(rows: Table, a: Article, id: CommentId, bound: nat)
    requires id in rows && id < bound && rows[id].isApproved && rows[id].article == a
    ensures id in ApprovedRoots(rows, a, bound) <==> !rows[id].IsReply()
    ensures forall p: CommentId :: id in Replies(rows, p, bound) <==> rows[id].parent == Some(p)
  {
  }

  /** `get_replies` goes one level down only: a reply to a reply is not
      among the replies of the top comment. */
  lemma {:induction false} RepliesAreDirectOnly(rows: Table, nextId: CommentId, top: CommentId, mid: CommentId, leaf: CommentId)
    requires Referential(rows, nextId)
    requires mid in rows && rows[mid].parent == Some(top)
    requires leaf in rows && rows[leaf].parent == Some(mid)
    ensures leaf !in Replies(rows, top, nextId)
    ensures rows[leaf].isApproved ==> leaf in Replies(rows, mid, nextId)
  {
    assert top < mid;
  }

  // ---------------------------------------------------------------------
  // Cascades
  // ---------------------------------------------------------------------

  /** Following at most `n + 1` parent links up from `c` reaches `anc`:
      `c` is a reply, at some depth, below `anc`. */
  predicate Reaches(rows: Table, c: CommentId, anc: CommentId, n: nat)
    decreases n
  {
    c in rows && rows[c].parent.Some? &&
    var p := rows[c].parent.value;
    p == anc || (n > 0 && Reaches(rows, p, anc, n - 1))
  }

  /** The walk the cascade takes: up the parent links, each step to an
      older comment, until `anc` is met. In a table whose parents are all
      older it is the same relation as `Reaches` (`ReachesIsDescendant`,
      `DescendantReaches`). */
  predicate IsDescendant(rows: Table, c: CommentId, anc: CommentId)
    decreases c
  {
    c in rows && rows[c].parent.Some? &&
    var p := rows[c].parent.value;
    p < c && (p == anc || IsDescendant(rows, p, anc))
  }

  /** The comments removed when `seeds` are deleted: the seeds themselves
      and every reply below them. */
  function Doomed(rows: Table, seeds: set<CommentId>): (r: set<CommentId>)
    ensures seeds * rows.Keys <= r <= rows.Keys
  {
    set c | c in rows && (c in seeds || exists s :: s in seeds && IsDescendant(rows, c, s))
  }

  /** Deleting the comments `seeds` with the cascade along `parent`. */
  function Cascade(rows: Table, seeds: set<CommentId>): (r: Table)
    ensures r.Keys == rows.Keys - Doomed(rows, seeds)
    ensures forall id :: id in r ==> r[id] == rows[id]
  {
    rows - Doomed(rows, seeds)
  }

  /** The ids of an article's comments. */
  function OnArticle(rows: Table, a: Article): set<CommentId> {
    set id | id in rows && rows[id].article == a
  }

  lemma {:induction false} ReachesFurther(rows: Table, c: CommentId, anc: CommentId, n: nat, m: nat)
    requires n <= m && Reaches(rows, c, anc, n)
    ensures Reaches(rows, c, anc, m)
    decreases n
  {
    var p := rows[c].parent.value;
    if p != anc {
      ReachesFurther(rows, p, anc, n - 1, m - 1);
    }
  }

  /** Every step of the cascade's walk is a parent link. */
  lemma {:induction false} DescendantReaches(rows: Table, c: CommentId, anc: CommentId)
    requires IsDescendant(rows, c, anc)
    ensures Reaches(rows, c, anc, c)
    decreases c
  {
    var p := rows[c].parent.value;
    if p != anc {
      DescendantReaches(rows, p, anc);
      ReachesFurther(rows, p, anc, p, c - 1);
    }
  }

  /** In a table whose parents are older, every reply chain is a walk the
      cascade takes. */
  lemma {:induction false} ReachesIsDescendant(rows: Table, nextId: CommentId, c: CommentId, anc: CommentId, n: nat)
    requires Referential(rows, nextId)
    requires Reaches(rows, c, anc, n)
    ensures IsDescendant(rows, c, anc)
    decreases n
  {
    var p := rows[c].parent.value;
    if p != anc {
      ReachesIsDescendant(rows, nextId, p, anc, n - 1);
    }
  }

  lemma {:induction false} DescendantIsYounger(rows: Table, c: CommentId, anc: CommentId)
    requires IsDescendant(rows, c, anc)
    ensures anc < c
    decreases c
  {
    var p := rows[c].parent.value;
    if p != anc {
      DescendantIsYounger(rows, p, anc);
    }
  }

  /** In a consistent table a comment is younger than every comment above it. */
  lemma {:induction false} AncestorIsOlder(rows: Table, nextId: CommentId, c: CommentId, anc: CommentId, n: nat)
    requires Referential(rows, nextId)
    requires Reaches(rows, c, anc, n)
    ensures anc < c
  {
    ReachesIsDescendant(rows, nextId, c, anc, n);
    DescendantIsYounger(rows, c, anc);
  }

  /** In a consistent table no comment is a reply below itself: threads
      have no cycles. */
  lemma NoReplyCycle(rows: Table, nextId: CommentId, c: CommentId, n: nat)
    requires Referential(rows, nextId)
    ensures !Reaches(rows, c, c, n)
  {
    if Reaches(rows, c, c, n) {
      AncestorIsOlder(rows, nextId, c, c, n);
    }
  }

  /** In a consistent table the cascade deletes exactly the seeds and every
      comment that replies to a seed at any depth. */
  lemma DoomedIsSubtree(rows: Table, nextId: CommentId, seeds: set<CommentId>, c: CommentId)
    requires Referential(rows, nextId)
    ensures c in Doomed(rows, seeds) <==>
              c in rows && (c in seeds || exists s: CommentId, n: nat :: s in seeds && Reaches(rows, c, s, n))
  {
    if c in rows && c !in seeds {
      if c in Doomed(rows, seeds) {
        var s :| s in seeds && IsDescendant(rows, c, s);
        DescendantReaches(rows, c, s);
        assert s in seeds && Reaches(rows, c, s, c);
        assert exists s': CommentId, n: nat :: s' in seeds && Reaches(rows, c, s', n);
      } else if exists s: CommentId, n: nat :: s in seeds && Reaches(rows, c, s, n) {
        var s, n :| s in seeds && Reaches(rows, c, s, n);
        ReachesIsDescendant(rows, nextId, c, s, n);
        assert false;
      }
    }
  }

  /** The doomed set is closed downwards: a reply to a doomed comment is doomed. */
  lemma DoomedClosed(rows: Table, nextId: CommentId, seeds: set<CommentId>, c: CommentId)
    requires Referential(rows, nextId)
    requires c in rows && rows[c].parent.Some? && rows[c].parent.value in Doomed(rows, seeds)
    ensures c in Doomed(rows, seeds)
  {
    var p := rows[c].parent.value;
    assert p < c;
    if p in seeds {
      assert IsDescendant(rows, c, p);
    } else {
      var s :| s in seeds && IsDescendant(rows, p, s);
      assert IsDescendant(rows, c, s);
    }
  }

  /** The doomed set is grounded: a doomed comment that is not a seed hangs
      under another doomed comment. */
  lemma DoomedGrounded(rows: Table, nextId: CommentId, seeds: set<CommentId>, c: CommentId)
    requires Referential(rows, nextId)
    requires c in Doomed(rows, seeds) && c !in seeds
    ensures rows[c].parent.Some? && rows[c].parent.value in Doomed(rows, seeds)
  {
    var s :| s in seeds && IsDescendant(rows, c, s);
    var p := rows[c].parent.value;
    if p != s {
      assert IsDescendant(rows, p, s);
    }
  }

  lemma {:induction false} DescendantInClosedSet(rows: Table, s: CommentId, c: CommentId, keep: set<CommentId>)
    requires s in keep
    requires forall x :: x in rows && rows[x].parent.Some? && rows[x].parent.value in keep ==> x in keep
    requires IsDescendant(rows, c, s)
    ensures c in keep
    decreases c
  {
    var p := rows[c].parent.value;
    if p != s {
      DescendantInClosedSet(rows, s, p, keep);
    }
  }

  /** The doomed set is the least one that holds the seeds and every reply
      to a member: any such set contains it. */
  lemma DoomedLeast(rows: Table, seeds: set<CommentId>, keep: set<CommentId>)
    requires seeds <= keep
    requires forall x :: x in rows && rows[x].parent.Some? && rows[x].parent.value in keep ==> x in keep
    ensures Doomed(rows, seeds) <= keep
  {
    forall c | c in Doomed(rows, seeds) ensures c in keep {
      if c !in seeds {
        var s :| s in seeds && IsDescendant(rows, c, s);
        DescendantInClosedSet(rows, s, c, keep);
      }
    }
  }

  /** Deleting with the cascade leaves no dangling parent reference. */
  lemma CascadeKeepsReferential(rows: Table, nextId: CommentId, seeds: set<CommentId>)
    requires Referential(rows, nextId)
    ensures Referential(Cascade(rows, seeds), nextId)
  {
    var r := Cascade(rows, seeds);
    forall id | id in r && r[id].parent.Some?
      ensures r[id].parent.value in r
    {
      if r[id].parent.value !in r {
        DoomedClosed(rows, nextId, seeds, id);
      }
    }
  }

  /** Deleting with the cascade keeps every thread inside its article. */
  lemma CascadeKeepsThreaded(rows: Table, nextId: CommentId, seeds: set<CommentId>)
    requires Referential(rows, nextId) && Threaded(rows)
    ensures Threaded(Cascade(rows, seeds))
  {
    CascadeKeepsReferential(rows, nextId, seeds);
  }

  lemma {:induction false} DescendantSameArticle(rows: Table, c: CommentId, anc: CommentId)
    requires Threaded(rows)
    requires IsDescendant(rows, c, anc)
    ensures anc in rows && rows[anc].article == rows[c].article
    decreases c
  {
    var p := rows[c].parent.value;
    if p != anc {
      DescendantSameArticle(rows, p, anc);
    }
  }

  /** Deleting an article's comments removes exactly those comments: the
      replies below them are on the same article already. */
  lemma ArticleCascadeExact(rows: Table, a: Article)
    requires Threaded(rows)
    ensures Doomed(rows, OnArticle(rows, a)) == OnArticle(rows, a)
  {
    forall c | c in Doomed(rows, OnArticle(rows, a)) ensures c in OnArticle(rows, a) {
      if c !in OnArticle(rows, a) {
        var s :| s in OnArticle(rows, a) && IsDescendant(rows, c, s);
        DescendantSameArticle(rows, c, s);
      }
    }
  }

  /** After a comment is deleted, neither it nor any reply below it is in
      the table, so no listing shows them. */
  lemma DeletedThreadGone(rows: Table, nextId: CommentId, id: CommentId, c: CommentId, n: nat)
    requires Referential(rows, nextId)
    requires c == id || Reaches(rows, c, id, n)
    ensures c !in Cascade(rows, {id})
    ensures forall x :: x !in Replies(Cascade(rows, {id}), id, nextId)
  {
    if c != id {
      ReachesIsDescendant(rows, nextId, c, id, n);
    }
    forall x | x in rows && rows[x].parent == Some(id) ensures x in Doomed(rows, {id}) {
      assert IsDescendant(rows, x, id);
    }
  }

  /** A cascade never reaches another article. */
  lemma CascadeStaysInArticle(rows: Table, id: CommentId, c: CommentId)
    requires Threaded(rows) && id in rows
    requires c in Doomed(rows, {id})
    ensures rows[c].article == rows[id].article
  {
    if c != id {
      DescendantSameArticle(rows, c, id);
    }
  }

  // ---------------------------------------------------------------------
  // Bulk approval
  // ---------------------------------------------------------------------

  /** Sets the approval flag of the selected stored comments to `approved`. */
  function SetApproval(rows: Table, sel: set<CommentId>, approved: bool): (r: Table)
    ensures r.Keys == rows.Keys
    ensures forall id :: id in r ==> r[id].article == rows[id].article && r[id].parent == rows[id].parent
  {
    map id | id in rows :: if id in sel then rows[id].(isApproved := approved) else rows[id]
  }

  /** Selected comments get the flag and keep everything else; the others
      are untouched. */
  lemma SetApprovalEffect(rows: Table, sel: set<CommentId>, approved: bool, id: CommentId)
    requires id in rows
    ensures id in sel ==> SetApproval(rows, sel, approved)[id].isApproved == approved
    ensures SetApproval(rows, sel, approved)[id].(isApproved := rows[id].isApproved) == rows[id]
    ensures id !in sel ==> SetApproval(rows, sel, approved)[id] == rows[id]
  {
  }

  lemma SetApprovalIdempotent(rows: Table, sel: set<CommentId>, approved: bool)
    ensures SetApproval(SetApproval(rows, sel, approved), sel, approved) == SetApproval(rows, sel, approved)
  {
  }

  lemma SetApprovalKeepsInvariants(rows: Table, nextId: CommentId, sel: set<CommentId>, approved: bool)
    ensures Referential(rows, nextId) ==> Referential(SetApproval(rows, sel, approved), nextId)
    ensures Threaded(rows) ==> Threaded(SetApproval(rows, sel, approved))
  {
  }

  /** A disapproved comment disappears from every listing and from the count. */
  lemma DisapprovedHidden(rows: Table, sel: set<CommentId>, q: Query, bound: nat, id: CommentId)
    requires id in sel
    ensures id !in Select(SetApproval(rows, sel, false), q, bound)
  {
  }
}
