/*
 * The value types shared by the snippet parser and the repeat logic: the
 * family of edits a completion can carry, the editor context at the cursor,
 * and the marks a snippet leaves in the buffer.  The Python classes form a
 * small inheritance lattice (RangeEdit and SnippetEdit both extend Edit,
 * SnippetRangeEdit extends both, ParsedEdit extends RangeEdit); here each
 * concrete class is one constructor and `isinstance` is a predicate.
 */
module SharedTypes {

  datatype Option<T> = None | Some(value: T)

  datatype Result<T, E> = Ok(value: T) | Err(error: E)

  /** A (row, column) position in the editor buffer. */
  type NvimPos = (int, int)

  datatype SnippetGrammar = Lsp | Snu

  datatype Edit =
    | Plain(newText: string)
    | Contextual(newText: string, oldPrefix: string, newPrefix: string, oldSuffix: string)
    | Range(newText: string, begin: NvimPos, end: NvimPos, encoding: string, fallback: string)
    | Parsed(newText: string, begin: NvimPos, end: NvimPos, encoding: string, fallback: string, newPrefix: string)
    | Snippet(newText: string, grammar: SnippetGrammar)
    | SnippetRange(newText: string, grammar: SnippetGrammar, begin: NvimPos, end: NvimPos, encoding: string, fallback: string)
  {
    /** `isinstance(e, RangeEdit)`: RangeEdit itself and its subclasses. */
    predicate IsRange() {
      Range? || Parsed? || SnippetRange?
    }

    /** `isinstance(e, SnippetEdit)`: SnippetEdit itself and SnippetRangeEdit. */
    predicate IsSnippet() {
      Snippet? || SnippetRange?
    }
  }

  /** The fields of the editor context that the snippet parser reads. */
  datatype Context = Context(
    position: NvimPos,
    lineBefore: string,
    wordsBefore: string,
    symsBefore: string,
    wordsAfter: string,
    linefeed: string,
    tabstop: int,
    expandtab: bool)

  /** A placeholder of a parsed snippet, as byte offsets into its text. */
  datatype Region = Region(begin: int, end: int, text: string)

  /** A placeholder placed in the buffer: its index, begin and end positions, and text. */
  datatype Mark = Mark(idx: int, begin: NvimPos, end: NvimPos, text: string)
}
