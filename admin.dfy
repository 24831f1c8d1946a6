/** The admin screens' own logic: the comment preview column, the bulk
    approve and disapprove actions, the tag's article count and the
    article's tag column. */
module Admin {
  import opened Models
  import opened Store

  // ---------------------------------------------------------------------
  // Comment preview
  // ---------------------------------------------------------------------

  const PreviewLength: nat := 50
  const Ellipsis: string := "..."

  /** The comment text cut to 50 characters, marked with "..." when cut. */
  function ContentPreview(content: string): (r: string)
    ensures |content| <= PreviewLength ==> r == content
    ensures |content| > PreviewLength ==> r == content[..PreviewLength] + Ellipsis
    ensures |r| <= PreviewLength + |Ellipsis|
  {
    if |content| > PreviewLength then content[..PreviewLength] + Ellipsis else content
  }

  /** A preview starts with the text it previews, or with its first 50
      characters followed by nothing but "...". */
  lemma PreviewIsPrefix(content: string)
    ensures var r := ContentPreview(content);
            (r == content) ||
            (|r| == PreviewLength + |Ellipsis| && r[..PreviewLength] == content[..PreviewLength] &&
             r[PreviewLength..] == Ellipsis)
  {
  }

  /** Previewing a preview changes nothing. */
  lemma PreviewIdempotent(content: string)
    ensures ContentPreview(ContentPreview(content)) == ContentPreview(content)
  {
    if |content| > PreviewLength {
      var r := content[..PreviewLength] + Ellipsis;
      assert r[..PreviewLength] == content[..PreviewLength];
    }
  }

  /** A text is its own preview exactly when it is short, or when it is
      already 50 characters followed by "...". */
  lemma PreviewFixedPoints(content: string)
    ensures ContentPreview(content) == content <==>
              |content| <= PreviewLength ||
              (|content| == PreviewLength + |Ellipsis| && content[PreviewLength..] == Ellipsis)
  {
    if |content| > PreviewLength && ContentPreview(content) == content {
      assert content[PreviewLength..] == ContentPreview(content)[PreviewLength..];
    }
    if |content| == PreviewLength + |Ellipsis| && content[PreviewLength..] == Ellipsis {
      assert content == content[..PreviewLength] + content[PreviewLength..];
    }
  }

  // ---------------------------------------------------------------------
  // Bulk moderation actions
  // ---------------------------------------------------------------------

  /** Marks every selected comment approved. */
  method ApproveComments(db: Database, selected: set<CommentId>)
    requires db.Valid()
    modifies db
    ensures db.Valid()
    ensures db.comments == SetApproval(old(db.comments), selected, true)
    ensures db.articles == old(db.articles) && db.nextId == old(db.nextId)
    ensures Threaded(old(db.comments)) ==> Threaded(db.comments)
  {
    db.UpdateApproval(selected, true);
  }

  /** Marks every selected comment not approved. */
  method DisapproveComments(db: Database, selected: set<CommentId>)
    requires db.Valid()
    modifies db
    ensures db.Valid()
    ensures db.comments == SetApproval(old(db.comments), selected, false)
    ensures db.articles == old(db.articles) && db.nextId == old(db.nextId)
    ensures Threaded(old(db.comments)) ==> Threaded(db.comments)
  {
    db.UpdateApproval(selected, false);
  }

  // ---------------------------------------------------------------------
  // Tag and article columns
  // ---------------------------------------------------------------------

  /** How many of the given articles carry the tag. */
  function ArticleCount(tag: Tag, articles: set<Article>): (n: nat)
    ensures n <= |articles|
    ensures n == 0 <==> forall a :: a in articles ==> tag !in a.tags
    ensures n == |articles| <==> forall a :: a in articles ==> tag in a.tags
  {
    var carrying := set a | a in articles && tag in a.tags;
    SubsetCardinality(carrying, articles);
    assert carrying == {} ==> forall a :: a in articles ==> tag !in a.tags by {
      if carrying == {} {
        forall a | a in articles ensures tag !in a.tags {
          assert a !in carrying;
        }
      }
    }
    assert (forall a :: a in articles ==> tag !in a.tags) ==> carrying == {};
    assert (forall a :: a in articles ==> tag in a.tags) <==> carrying == articles;
    |carrying|
  }

  /** Adding one more article raises the count by one exactly when that
      article carries the tag: together with `ArticleCount(tag, {}) == 0`
      (from `n <= |articles|`) this fixes the count of every finite set. */
  lemma ArticleCountAdd(tag: Tag, articles: set<Article>, a: Article)
    requires a !in articles
    ensures ArticleCount(tag, articles + {a}) == ArticleCount(tag, articles) + (if tag in a.tags then 1 else 0)
  {
    var before := set x | x in articles && tag in x.tags;
    var all := articles + {a};
    var after := set x | x in all && tag in x.tags;
    assert ArticleCount(tag, articles) == |before|;
    assert ArticleCount(tag, all) == |after|;
    if tag in a.tags {
      assert after == before + {a};
      assert a !in before;
    } else {
      assert after == before;
    }
  }

  lemma SubsetCardinality<T>(small: set<T>, big: set<T>)
    requires small <= big
    ensures |small| <= |big|
    ensures |small| == |big| ==> small == big
  {
    if small != big {
      var x :| x in big && x !in small;
      SubsetCardinality(small, big - {x});
    }
  }

  const TagSeparator: string := ", "

  /** The texts joined with ", " between neighbours. */
  function Join(parts: seq<string>): string {
    if |parts| == 0 then ""
    else if |parts| == 1 then parts[0]
    else parts[0] + TagSeparator + Join(parts[1..])
  }

  /** The tags' names, in tag order. */
  function TagNames(tags: seq<Tag>): seq<string> {
    seq(|tags|, i requires 0 <= i < |tags| => tags[i].name)
  }

  /** No ", " occurs inside the text. */
  predicate SeparatorFree(s: string) {
    forall k :: 0 <= k < |s| ==> !SeparatorAt(s, k)
  }

  /** A ", " starts at index `k`. */
  predicate SeparatorAt(s: string, k: int) {
    0 <= k && k + 1 < |s| && s[k] == ',' && s[k + 1] == ' '
  }

  /** Every tag name is free of ", ". */
  predicate SeparatorFreeNames(tags: seq<Tag>) {
    forall k :: 0 <= k < |tags| ==> SeparatorFree(tags[k].name)
  }

  /** The article's tag names, in tag order, joined with ", ": no tags give
      the empty column, one tag its bare name, and when no tag name holds
      ", ", cutting the column at each ", " gives back every name in order. */
  function DisplayTags(a: Article): (r: string)
    ensures a.tags == [] ==> r == ""
    ensures |a.tags| == 1 ==> r == a.tags[0].name
    ensures |a.tags| >= 1 && SeparatorFreeNames(a.tags) ==> SplitTags(r) == TagNames(a.tags)
  {
    var names := TagNames(a.tags);
    if |a.tags| >= 1 && SeparatorFreeNames(a.tags) then
      SplitJoin(names);
      Join(names)
    else
      Join(names)
  }

  /** The index of the first ", ", or the length when there is none. */
  function FirstSeparator(s: string): (i: nat)
    ensures i <= |s|
    ensures i < |s| ==> SeparatorAt(s, i)
    ensures forall k :: 0 <= k < i ==> !SeparatorAt(s, k)
    ensures i == |s| <==> SeparatorFree(s)
    decreases |s|
  {
    if |s| < 2 then |s|
    else if s[0] == ',' && s[1] == ' ' then 0
    else
      var t := s[1..];
      assert forall k :: 1 <= k < |s| ==> SeparatorAt(s, k) == SeparatorAt(t, k - 1);
      assert SeparatorFree(s) <==> SeparatorFree(t) by {
        forall k | 0 <= k < |t| ensures SeparatorAt(t, k) == SeparatorAt(s, k + 1) {
        }
      }
      1 + FirstSeparator(t)
  }

  /** Cuts a tag column back into names at each ", ". */
  function SplitTags(s: string): seq<string>
    decreases |s|
  {
    var i := FirstSeparator(s);
    if i == |s| then [s]
    else [s[..i]] + SplitTags(s[i + 2..])
  }

  /** Cutting before a name free of ", " and its separator yields the name,
      then the cuts of the rest. */
  lemma SplitAfterName(name: string, rest: string)
    requires SeparatorFree(name)
    ensures SplitTags(name + TagSeparator + rest) == [name] + SplitTags(rest)
  {
    var s := name + TagSeparator + rest;
    var n := |name|;
    assert SeparatorAt(s, n);
    forall k | 0 <= k < n ensures !SeparatorAt(s, k) {
      if k < n - 1 {
        assert s[k] == name[k] && s[k + 1] == name[k + 1];
        assert !SeparatorAt(name, k);
      } else {
        assert s[k + 1] == ',';
      }
    }
    assert FirstSeparator(s) == n;
    assert s[..n] == name;
    assert s[n + 2..] == rest;
  }

  /** Only ", " separates names: a text without it, whatever commas it
      holds, is never cut. */
  lemma SeparatorFreeUncut(s: string)
    requires SeparatorFree(s)
    ensures SplitTags(s) == [s]
  {
  }

  /** The other direction of the round trip: cutting any text at each ", "
      gives one or more pieces, none holding ", ", that join back to the
      text. */
  lemma {:induction false} JoinSplit(s: string)
    ensures |SplitTags(s)| >= 1
    ensures Join(SplitTags(s)) == s
    ensures forall k :: 0 <= k < |SplitTags(s)| ==> SeparatorFree(SplitTags(s)[k])
    decreases |s|
  {
    var i := FirstSeparator(s);
    if i == |s| {
      assert SplitTags(s) == [s];
    } else {
      CutAtSeparator(s, i);
      var rest := s[i + 2..];
      JoinSplit(rest);
      var cut := SplitTags(s);
      var parts := SplitTags(rest);
      JoinCons(s[..i], parts);
      forall k | 0 <= k < |cut| ensures SeparatorFree(cut[k]) {
        if k > 0 {
          assert cut[k] == parts[k - 1];
        }
      }
    }
  }

  /** Cutting at the first ", ": the piece before it holds none, and the
      text is that piece, the separator and the rest. */
  lemma CutAtSeparator(s: string, i: nat)
    requires i == FirstSeparator(s) && i < |s|
    ensures SplitTags(s) == [s[..i]] + SplitTags(s[i + 2..])
    ensures s == s[..i] + TagSeparator + s[i + 2..]
    ensures SeparatorFree(s[..i])
  {
    HeadSeparatorFree(s, i);
    SeparatorSplits(s, i);
  }

  /** The piece before the first ", " holds none. */
  lemma HeadSeparatorFree(s: string, i: nat)
    requires i == FirstSeparator(s) && i < |s|
    ensures SeparatorFree(s[..i])
  {
    var head := s[..i];
    forall k | 0 <= k < |head| ensures !SeparatorAt(head, k) {
      if k + 1 < |head| {
        assert head[k] == s[k] && head[k + 1] == s[k + 1];
        assert !SeparatorAt(s, k);
      }
    }
  }

  /** A text is what precedes a separator in it, the separator, and what
      follows. */
  lemma SeparatorSplits(s: string, i: int)
    requires SeparatorAt(s, i)
    ensures s == s[..i] + TagSeparator + s[i + 2..]
  {
    assert s[i..i + 2] == TagSeparator;
    assert s == s[..i] + s[i..i + 2] + s[i + 2..];
  }

  /** Joining one more name in front adds it and a separator. */
  lemma JoinCons(head: string, parts: seq<string>)
    requires |parts| >= 1
    ensures Join([head] + parts) == head + TagSeparator + Join(parts)
  {
    assert ([head] + parts)[1..] == parts;
  }

  /** Different texts never cut into the same names, so a column is fixed by
      what cutting it gives back. */
  lemma SplitTagsInjective(s: string, t: string)
    requires SplitTags(s) == SplitTags(t)
    ensures s == t
  {
    JoinSplit(s);
    JoinSplit(t);
  }

  /** The tag column loses nothing when no tag name holds ", ": cutting it
      at each ", " gives back the names in order. */
  lemma {:induction false} SplitJoin(names: seq<string>)
    requires |names| >= 1
    requires forall k :: 0 <= k < |names| ==> SeparatorFree(names[k])
    ensures SplitTags(Join(names)) == names
  {
    if |names| > 1 {
      SplitAfterName(names[0], Join(names[1..]));
      SplitJoin(names[1..]);
      assert names == [names[0]] + names[1..];
    }
  }
}
