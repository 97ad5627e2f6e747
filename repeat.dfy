/*
 * Edit sanitising for repeating the last completion (coq/shared/repeat.py):
 * whatever was positional about the edit is dropped, so that it can be
 * replayed at another cursor position.
 */
module Repeat {
  import opened SharedTypes

  /**
   * A range edit (checked first, so also a snippet range edit) becomes a plain
   * edit of its fallback text; a snippet edit is kept as it is; every other
   * edit becomes a plain edit of its own text.
   */
  function Sanitize(edit: Edit): (r: Edit)
    ensures !r.IsRange()
    ensures r.Plain? || r.Snippet?
    ensures r.newText == if edit.IsRange() then edit.fallback else edit.newText
    ensures r.Snippet? ==> r == edit
    ensures r == edit <==> edit.Plain? || edit.Snippet?
  {
    if edit.IsRange() then Plain(edit.fallback)
    else if edit.IsSnippet() then edit
    else Plain(edit.newText)
  }

  /** Sanitising twice is sanitising once. */
  lemma SanitizeIdempotent(edit: Edit)
    ensures Sanitize(Sanitize(edit)) == Sanitize(edit)
  {
    var r := Sanitize(edit);
    assert r.Plain? || r.Snippet?;
  }

  /** The range test wins over the snippet test: a snippet range edit loses its grammar. */
  lemma SanitizeRangeFirst(edit: Edit)
    requires edit.IsRange() && edit.IsSnippet()
    ensures Sanitize(edit) == Plain(edit.fallback)
    ensures !Sanitize(edit).IsSnippet()
  {
  }
}
