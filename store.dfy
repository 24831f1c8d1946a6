/** The persistent store: the article table keyed by slug and the comment
    table keyed by id, with the row operations the handlers use (insert,
    delete with cascade, bulk update of the approval flag). */
module Store {
  import opened Wrappers
  import opened Models

  class Database {
    var articles: map<string, Article>
    var comments: Table
    /** The id the next inserted comment receives. */
    var nextId: CommentId

    /** The store's consistency: articles are keyed by their unique slug,
        every foreign key resolves, and every comment row has the shape of
        `Referential` (ids below the next id, parents older than replies). */
    ghost predicate Valid()
      reads this
    {
      (forall s :: s in articles ==> articles[s].slug == s) &&
      Referential(comments, nextId) &&
      (forall id :: id in comments ==> comments[id].article in articles.Values)
    }

    constructor ()
      ensures Valid()
      ensures articles == map[] && comments == map[] && nextId == 1
    {
      articles := map[];
      comments := map[];
      nextId := 1;
    }

    /** The published article with this slug, if there is one. */
    function Published(slug: string): (r: Option<Article>)
      reads this
      ensures r.Some? ==> r.value in articles.Values && r.value.isPublished
      ensures Valid() && r.Some? ==> r.value.slug == slug
      ensures r.None? ==> slug !in articles || !articles[slug].isPublished
    {
      if slug in articles && articles[slug].isPublished then Some(articles[slug]) else None
    }

    /** Stores a new article; a slug already taken is refused. */
    method AddArticle(a: Article) returns (ok: bool)
      requires Valid()
      modifies this
      ensures Valid()
      ensures ok <==> a.slug !in old(articles)
      ensures articles == if ok then old(articles)[a.slug := a] else old(articles)
      ensures comments == old(comments) && nextId == old(nextId)
    {
      ok := a.slug !in articles;
      if ok {
        articles := articles[a.slug := a];
        forall v | v in old(articles).Values ensures v in articles.Values {
          var s :| s in old(articles) && old(articles)[s] == v;
          assert articles[s] == v;
        }
      }
    }

    /** Inserts a comment under the next id. */
    method Save(c: Comment) returns (id: CommentId)
      requires Valid()
      requires c.article in articles.Values
      requires c.parent.Some? ==> c.parent.value in comments
      modifies this
      ensures Valid()
      ensures id == old(nextId) && nextId == id + 1
      ensures comments == old(comments)[id := c] && articles == old(articles)
      ensures Threaded(old(comments)) && (c.parent.Some? ==> comments[c.parent.value].article == c.article)
              ==> Threaded(comments)
    {
      id := nextId;
      comments := comments[id := c];
      nextId := nextId + 1;
    }

    /** Deletes a comment together with every reply below it. */
    method Delete(id: CommentId)
      requires Valid() && id in comments
      modifies this
      ensures Valid()
      ensures comments == Cascade(old(comments), {id})
      ensures articles == old(articles) && nextId == old(nextId)
      ensures Threaded(old(comments)) ==> Threaded(comments)
    {
      CascadeKeepsReferential(comments, nextId, {id});
      if Threaded(comments) {
        CascadeKeepsThreaded(comments, nextId, {id});
      }
      comments := Cascade(comments, {id});
    }

    /** Deletes an article together with all of its comments. */
    method DeleteArticle(slug: string)
      requires Valid()
      modifies this
      ensures Valid()
      ensures slug !in old(articles) ==> articles == old(articles) && comments == old(comments)
      ensures slug in old(articles) ==>
                articles == old(articles) - {slug} &&
                comments == Cascade(old(comments), OnArticle(old(comments), old(articles)[slug]))
      ensures nextId == old(nextId)
      ensures Threaded(old(comments)) ==> Threaded(comments)
    {
      if slug in articles {
        var a := articles[slug];
        var seeds := OnArticle(comments, a);
        CascadeKeepsReferential(comments, nextId, seeds);
        if Threaded(comments) {
          CascadeKeepsThreaded(comments, nextId, seeds);
        }
        var kept := Cascade(comments, seeds);
        forall id | id in kept ensures kept[id].article in (articles - {slug}).Values {
          var b := kept[id].article;
          assert id !in seeds && b != a;
          var s :| s in articles && articles[s] == b;
          var rest := articles - {slug};
          assert s in rest && rest[s] == b;
        }
        comments := kept;
        articles := articles - {slug};
      }
    }

    /** Sets the approval flag of the selected comments. */
    method UpdateApproval(sel: set<CommentId>, approved: bool)
      requires Valid()
      modifies this
      ensures Valid()
      ensures comments == SetApproval(old(comments), sel, approved)
      ensures articles == old(articles) && nextId == old(nextId)
      ensures Threaded(old(comments)) ==> Threaded(comments)
    {
      SetApprovalKeepsInvariants(comments, nextId, sel, approved);
      comments := SetApproval(comments, sel, approved);
    }
  }
}
