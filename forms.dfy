/** Binding a posted comment form. The form carries the comment text and an
    optional hidden parent id. The text is cleaned as a required text field
    (surrounding whitespace stripped, blank and NUL characters refused); the
    parent is a choice among the stored comments of any article. */
module Forms {
  import opened Models

  /** The raw hidden `parent` value: absent or empty, an integer, or
      something that is not an integer. */
  datatype ParentValue = Blank | Numeric(n: int) | Malformed

  datatype PostData = PostData(content: string, parent: ParentValue)

  datatype FormField = ContentField | ParentField

  /** The characters Python's `str.strip()` removes. */
  predicate IsSpace(ch: char) {
    ('\U{0009}' <= ch <= '\U{000D}') || ('\U{001C}' <= ch <= '\U{0020}') ||
    ch == '\U{0085}' || ch == '\U{00A0}' || ch == '\U{1680}' ||
    ('\U{2000}' <= ch <= '\U{200A}') || ch == '\U{2028}' || ch == '\U{2029}' ||
    ch == '\U{202F}' || ch == '\U{205F}' || ch == '\U{3000}'
  }

  /** Every character of the text is whitespace. */
  predicate AllSpace(s: string) {
    forall k :: 0 <= k < |s| ==> IsSpace(s[k])
  }

  /** The text without its leading whitespace. */
  function TrimStart(s: string): (r: string)
    ensures |r| <= |s| && r == s[|s| - |r|..]
    ensures forall k :: 0 <= k < |s| - |r| ==> IsSpace(s[k])
    ensures r != [] ==> !IsSpace(r[0])
  {
    if s != [] && IsSpace(s[0]) then
      var r := TrimStart(s[1..]);
      assert s[1..][|s[1..]| - |r|..] == s[|s| - |r|..];
      r
    else s
  }

  /** The text without its trailing whitespace. */
  function TrimEnd(s: string): (r: string)
    ensures |r| <= |s| && r == s[..|r|]
    ensures forall k :: |r| <= k < |s| ==> IsSpace(s[k])
    ensures r != [] ==> !IsSpace(r[|r| - 1])
  {
    if s != [] && IsSpace(s[|s| - 1]) then TrimEnd(s[..|s| - 1]) else s
  }

  /** The text with leading and trailing whitespace removed. It is empty
      exactly when the text is all whitespace. */
  function Strip(s: string): (r: string)
    ensures |r| <= |s|
    ensures r != [] ==> !IsSpace(r[0]) && !IsSpace(r[|r| - 1])
    ensures r == [] <==> AllSpace(s)
  {
    var t := TrimStart(s);
    var r := TrimEnd(t);
    assert r == [] ==> t == [];
    assert t == [] <==> AllSpace(s) by {
      if t != [] {
        assert t[0] == s[|s| - |t|];
      }
    }
    r
  }

  lemma TrimStartSplit(s: string)
    ensures var n := |s| - |TrimStart(s)|;
            s == s[..n] + TrimStart(s) && AllSpace(s[..n])
  {
    var n := |s| - |TrimStart(s)|;
    var prefix := s[..n];
    forall k | 0 <= k < |prefix| ensures IsSpace(prefix[k]) {
      assert prefix[k] == s[k];
    }
  }

  lemma TrimEndSplit(s: string)
    ensures var n := |TrimEnd(s)|;
            s == TrimEnd(s) + s[n..] && AllSpace(s[n..])
  {
    var n := |TrimEnd(s)|;
    var suffix := s[n..];
    forall k | 0 <= k < |suffix| ensures IsSpace(suffix[k]) {
      assert suffix[k] == s[n + k];
    }
  }

  /** Regrouping a concatenation; stated on its own because the same step
      written as an assertion inside `StripIsMiddle` is far costlier. */
  lemma ConcatAssoc(a: string, b: string, c: string)
    ensures a + (b + c) == a + b + c
  {
  }

  /** The stripped text is the middle part of the text, left between a
      whitespace prefix and a whitespace suffix. */
  lemma StripIsMiddle(s: string)
    ensures exists p, q :: s == p + Strip(s) + q && AllSpace(p) && AllSpace(q)
  {
    var t := TrimStart(s);
    TrimStartSplit(s);
    TrimEndSplit(t);
    var p := s[..|s| - |t|];
    var m := TrimEnd(t);
    var q := t[|m|..];
    assert Strip(s) == m;
    assert s == p + (m + q);
    ConcatAssoc(p, m, q);
  }

  /** The text passes the field's validation. */
  predicate ContentAccepted(raw: string) {
    var s := Strip(raw);
    s != [] && '\0' !in s
  }

  /** The cleaned value of the parent field. */
  datatype ParentChoice = NoParent | ParentChosen(id: CommentId) | InvalidChoice

  /** The parent field accepts a blank value or the id of any stored
      comment, whatever its article. */
  function CleanParent(rows: Table, pv: ParentValue): (r: ParentChoice)
    ensures r.ParentChosen? ==> r.id in rows && pv == Numeric(r.id)
    ensures r.NoParent? <==> pv.Blank?
    ensures pv.Numeric? && pv.n >= 0 && pv.n in rows ==> r == ParentChosen(pv.n)
    ensures r.InvalidChoice? <==> pv.Malformed? || (pv.Numeric? && !(pv.n >= 0 && pv.n in rows))
  {
    match pv
    case Blank => NoParent
    case Numeric(n) => if n >= 0 && n in rows then ParentChosen(n) else InvalidChoice
    case Malformed => InvalidChoice
  }

  /** The fields that fail validation; the form is valid when there are none. */
  function FormErrors(rows: Table, post: PostData): (errs: set<FormField>)
    ensures ContentField in errs <==> !ContentAccepted(post.content)
    ensures ParentField in errs <==> CleanParent(rows, post.parent).InvalidChoice?
  {
    (if ContentAccepted(post.content) then {} else {ContentField}) +
    (if CleanParent(rows, post.parent).InvalidChoice? then {ParentField} else {})
  }
}
