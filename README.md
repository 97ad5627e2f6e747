# Fuzzy matching, snippet placement and edit sanitising of a Neovim completion engine

This project models three pieces of the completion engine in Dafny and proves
properties about them.

- **Fuzzy matching.** `dl_distance` is modelled by the Lowrance–Wagner
  recurrence for the unrestricted Damerau–Levenshtein distance. A transposition of two characters costs
  one edit, plus the deletions and insertions of whatever lies between them.
  `metrics(...).prefix_matches` is the length of the longest common literal
  prefix. The implementing module `coq/shared/fuzzy.py` is not part of this
  model. Its test suite `tests/shared/fuzzy.py` fixes the behaviour, and every
  one of its `dl_distance` and `prefix_matches` vectors is a lemma
  (module `FuzzyVectors`).
  - The distance is specified by a table filled row by row (`Fuzzy.Table`,
    `Fuzzy.Dist`).
  - `Fuzzy.DlDistance` is the imperative dynamic programme. It uses a 2-D array
    and a map from each character to the last row that holds it. Each row is
    filled by `Fuzzy.FillRow`, which keeps the last matching column of the row.
    The programme is proved equal to that table.
  - Proved about the distance: symmetry; zero exactly for identical strings;
    bounds; the cost of deleting a prefix; that it never exceeds plain
    Levenshtein.
  - The optimal-string-alignment variant (`Fuzzy.Osa`) shows why the tests pin
    the unrestricted distance. OSA gives 3 on two of the vectors where the
    tests expect 2.
- **Snippet placement** (`coq/snippets/parse.py`, module `SnippetParse`).
  - `_indent` computes the indentation of the snippet lines after the first.
  - `parse` chooses the old prefix and old suffix. It indents the snippet,
    reparses it and builds either a parsed range edit or a contextual edit.
  - `_marks` turns each placeholder's byte offsets into (row, column) marks by
    walking the running byte offsets of the lines.
  - The two snippet grammars' parsers, `is_word`, `expand_tabs` and the decoding
    of the cursor offset are supplied by the caller. They are the fields of the
    `Externals` record.
  - The line separator the parsers emit is the parameter `sep`.
  - `_marks` is one outer loop over the regions (`SnippetParse.Marks`). Its
    inner loop over the lines, which stops early once both ends are placed, is
    the method `SnippetParse.PlaceRegion`.
- **Edit sanitising** (`coq/shared/repeat.py`, module `Repeat`). `sanitize`
  drops what is positional about an edit so that it can be replayed.
- Shared pieces:
  - `SharedTypes`: the edit family, the context, regions and marks.
  - `Text`: the Python string operations the parser depends on.
    `len(encode(..))` is taken as the UTF-8 length. `str.replace` includes the
    empty-pattern case. `str.split` and `str.join` work on the literal
    separator. Only `str.splitlines(True)` uses Python's line boundaries.

## Model

| member | source | states |
|---|---|---|
| Fuzzy.Distance | tests/shared/fuzzy.py:72-125 | `dl_distance(a, b)` is zero if and only if the strings are identical, and lies between the difference of the lengths and the larger length |
| Fuzzy.Table | tests/shared/fuzzy.py:72-125 | rows `0..i` of the prefix-distance table, each with one cell per prefix of `b`, row 0 being the distances from the empty prefix |
| Fuzzy.DistIsCell | tests/shared/fuzzy.py:72-125 | cell `(i, j)` of the table is the recurrence applied to the rows above it and the cells to its left |
| Fuzzy.DlDistance | tests/shared/fuzzy.py:72-125 | the array-and-last-row-map dynamic programme returns exactly the Lowrance–Wagner distance of the two strings |
| Fuzzy.FillRow | tests/shared/fuzzy.py:72-125 | filling one row left to right, with the last matching column kept, gives exactly that row of the distance table and changes no other row |
| Fuzzy.DistUnfold | tests/shared/fuzzy.py:72-125 | each prefix distance is the least of substitution, insertion, deletion and, when `b[j-1]` was last seen in `a` at `k > 0` and `a[i-1]` in `b` at `l > 0`, transposition from cell `(k-1, l-1)` plus the characters between |
| Fuzzy.DistStep | tests/shared/fuzzy.py:72-125 | each prefix distance is no dearer than any candidate edit and equal to one of them |
| Fuzzy.DistBorder | tests/shared/fuzzy.py:103-107 | from or to an empty prefix the distance is the other prefix's length |
| Fuzzy.DistanceSymmetric | tests/shared/fuzzy.py:72-125 | `dl_distance(a, b) == dl_distance(b, a)` |
| Fuzzy.DistanceDeletedPrefix | tests/shared/fuzzy.py:121-125 | deleting a prefix `p` in front of `s` costs exactly `|p|` |
| Fuzzy.DistanceAtMostLevenshtein | tests/shared/fuzzy.py:85-89 | allowing transpositions never makes the distance dearer than plain Levenshtein |
| Fuzzy.LastSeenIs | tests/shared/fuzzy.py:85-89 | the last-seen position used by a transposition is the last occurrence of the character before the current one |
| Fuzzy.PrefixMatches | tests/shared/fuzzy.py:128-169 | the count is at most both lengths, the strings agree on that many leading characters, and differ at the next one when both go on |
| Fuzzy.PrefixMatchesLongest | tests/shared/fuzzy.py:128-169 | every common prefix is at most as long as the count |
| Fuzzy.PrefixMatchesSymmetric | tests/shared/fuzzy.py:128-169 | the count does not depend on the order of the strings |
| Fuzzy.PrefixMatchesExtend | tests/shared/fuzzy.py:128-169 | a common prefix in front of both strings adds exactly its length |
| FuzzyVectors.DistanceEmptyEmpty | tests/shared/fuzzy.py:73-77 | two empty strings are at distance 0 |
| FuzzyVectors.DistanceAB | tests/shared/fuzzy.py:79-83 | `"a"` and `"b"` are at distance 1 |
| FuzzyVectors.DistanceCaAbc | tests/shared/fuzzy.py:85-89 | `"ca"` and `"abc"` are at distance 2 |
| FuzzyVectors.DistanceCacAca | tests/shared/fuzzy.py:91-95 | `"cac"` and `"aca"` are at distance 2 |
| FuzzyVectors.DistanceCacacaAcacac | tests/shared/fuzzy.py:97-101 | `"cacaca"` and `"acacac"` are at distance 2 |
| FuzzyVectors.DistanceEmptyAbc | tests/shared/fuzzy.py:103-107 | `""` and `"abc"` are at distance 3 |
| FuzzyVectors.DistanceAbBca | tests/shared/fuzzy.py:109-113 | `"ab"` and `"bca"` are at distance 2 |
| FuzzyVectors.DistanceBadcAbcd | tests/shared/fuzzy.py:115-119 | `"badc"` and `"abcd"` are at distance 2 |
| FuzzyVectors.DistanceSupervisorPervisor | tests/shared/fuzzy.py:121-125 | `"supervisor"` and `"pervisor"` are at distance 2 |
| FuzzyVectors.OsaCaAbc | tests/shared/fuzzy.py:85-89 | on `"ca"`/`"abc"` the optimal-string-alignment variant gives 3 where the modelled distance gives 2 |
| FuzzyVectors.OsaAbBca | tests/shared/fuzzy.py:109-113 | on `"ab"`/`"bca"` the optimal-string-alignment variant gives 3 where the modelled distance gives 2 |
| FuzzyVectors.PrefixAbAbab | tests/shared/fuzzy.py:129-134 | `prefix_matches("ab", "abab") == 2` |
| FuzzyVectors.PrefixAbAc | tests/shared/fuzzy.py:136-141 | `prefix_matches("ab", "ac") == 1` |
| FuzzyVectors.PrefixAbcAbd | tests/shared/fuzzy.py:143-148 | `prefix_matches("abc", "abd") == 2` |
| FuzzyVectors.PrefixInfixNotCounted | tests/shared/fuzzy.py:150-162 | `"per"` and `"uper"` occur inside `"supervisor"` but share no prefix with it: both counts are 0 |
| FuzzyVectors.Prefix0011 | tests/shared/fuzzy.py:164-169 | `prefix_matches("00", "11") == 0` |
| Repeat.Sanitize | coq/shared/repeat.py:4-10 | the result is a plain or a snippet edit, never a range edit; its text is the fallback for a range edit and the edit's own text otherwise; only a snippet or plain edit is returned unchanged |
| Repeat.SanitizeIdempotent | coq/shared/repeat.py:4-10 | sanitising twice is sanitising once |
| Repeat.SanitizeRangeFirst | coq/shared/repeat.py:5-8 | an edit that is both a range and a snippet edit becomes the plain edit of its fallback |
| Text.ByteLen | coq/snippets/parse.py:39 | the UTF-8 length of text is between one and four bytes per character |
| Text.ByteLenAppend | coq/snippets/parse.py:52 | the UTF-8 length of a concatenation is the sum of the lengths |
| Text.Repeat | coq/snippets/parse.py:40-41 | Python's `s * n` has `n` times the length of `s`, and none when `n` is not positive |
| Text.ReplaceJoinsSplit | coq/snippets/parse.py:41 | for a non-empty pattern, `s.replace(pat, rep)` is `rep.join(s.split(pat))`: the occurrences found scanning from the left are the ones replaced |
| Text.ReplaceSpacesByTabs | coq/snippets/parse.py:40-41 | replacing runs of `ts` spaces by tabs in `n == q * ts + r` spaces, `r < ts`, leaves `q` tabs and `r` spaces |
| Text.ReplaceSpacesByTabsDivMod | coq/snippets/parse.py:40-41 | with a positive tab stop, `l` spaces become `l div ts` tabs followed by `l mod ts` spaces |
| Text.ReplaceEmptyInSpaces | coq/snippets/parse.py:40-41 | with a tab stop of zero or less the empty pattern puts a tab before every space and at the end |
| Text.Join | coq/snippets/parse.py:118-128 | the joined text starts with the first part, and when there are more parts the separator follows it |
| Text.Split | coq/snippets/parse.py:127 | Python's `split` on a non-empty separator gives at least one piece, no piece contains the separator, and joining the pieces with it gives the text back; the first piece runs up to the first occurrence of the separator, and there is a second piece exactly when the separator occurs |
| Text.SplitRest | coq/snippets/parse.py:127 | after the first piece and its separator, the rest of the text splits into the remaining pieces |
| Text.SplitJoin | coq/snippets/parse.py:127-128 | splitting at a one-character separator undoes joining with it, when no part contains that character |
| Text.FirstLineLen | coq/snippets/parse.py:115 | the first line runs up to and including the first line break, a `"\r\n"` counting as one break that is never torn apart |
| Text.SplitLines | coq/snippets/parse.py:115 | `splitlines(True)` gives non-empty lines that concatenate to the text, and no lines for empty text; every line but the last ends in a line break, no line holds a break before its end except the `'\r'` of a final `"\r\n"`, and no `"\r\n"` is split between two lines |
| Text.SplitLinesOneLine | coq/snippets/parse.py:115 | text without a line break is a single line |
| SnippetParse.Indent | coq/snippets/parse.py:38-41 | the indent's width is the bytes of the line before the cursor minus those of the old prefix; with `expandtab` it is that many spaces; otherwise each full tab stop of them is a tab and the rest spaces |
| SnippetParse.Len8 | coq/snippets/parse.py:52 | the running offsets have one entry per line, entry `i` summing the bytes of lines `0..i` plus a separator each |
| SnippetParse.Len8IsOffset | coq/snippets/parse.py:52 | entry `i` of the running offsets is the byte length of lines `0..i` joined by the separator, plus one separator |
| SnippetParse.Len8Total | coq/snippets/parse.py:52 | the last offset is the byte length of the whole joined text plus one separator |
| SnippetParse.Len8Increasing | coq/snippets/parse.py:35-52 | the running offsets never decrease, and strictly increase when the separator is not empty |
| SnippetParse.LocateFrom | coq/snippets/parse.py:58-70 | scanning the offsets from line `idx` on places an offset exactly when some later running offset reaches it, on a row between `row + idx` and `row` plus the number of lines |
| SnippetParse.Locate | coq/snippets/parse.py:55-75 | an offset is placed exactly when some running offset reaches it, on a row between the cursor's row and that row plus the number of lines |
| SnippetParse.LocateInside | coq/snippets/parse.py:58-68 | an offset strictly inside line `idx` is placed on row `row + idx`, at the offset minus the previous running offset, plus the indent length on the first line only |
| SnippetParse.LocateBoundary | coq/snippets/parse.py:63-70 | an offset equal to the running offset of line `idx` is placed on row `row + idx + 1`, at column `x_shift` of line `idx` |
| SnippetParse.LocateFound | coq/snippets/parse.py:58-79 | an offset is placed exactly when there are lines and it is at most the last running offset; the row is then at or below the cursor's row |
| SnippetParse.MarkOf | coq/snippets/parse.py:77-83 | a region has a mark exactly when both of its ends are placed; the mark carries the region's index and text and the placed ends; otherwise the region is the error |
| SnippetParse.MarkAll | coq/snippets/parse.py:54-83 | on success there is one mark per region, in region order, each the region's mark; on failure the error is the first region that cannot be placed |
| SnippetParse.MarkAllStep | coq/snippets/parse.py:54-83 | after a prefix of regions placed entirely, the next region either extends the marks by its own or is the error of the whole |
| SnippetParse.PlaceRegion | coq/snippets/parse.py:55-75 | the loop that looks for both ends at once and stops early finds exactly the placements of the begin and the end offsets |
| SnippetParse.Marks | coq/snippets/parse.py:44-83 | the nested loop over regions and offsets returns exactly the marks of all regions, or the first region that cannot be placed |
| SnippetParse.IndentLines | coq/snippets/parse.py:112-117 | the first line is kept unchanged, every later line gets the indent in front, and no line is added or lost |
| SnippetParse.PrefixEach | coq/snippets/parse.py:112-117 | every line gets the indent in front and the count of lines is kept |
| SnippetParse.IndentedText | coq/snippets/parse.py:111-118 | with no indentation the indented text is the expanded text itself, and it always starts with the expanded text's first line unindented |
| SnippetParse.IndentedTextOneLine | coq/snippets/parse.py:111-118 | a snippet of one line is inserted without indentation |
| SnippetParse.ParserFor | coq/snippets/parse.py:92-97 | the lsp grammar selects the lsp parser and the snu grammar the snu parser |
| SnippetParse.Reparse | coq/snippets/parse.py:119 | the indented snippet is parsed again by its grammar's parser, which sees exactly the expanded text when there is no indentation or the snippet is one line |
| SnippetParse.OldPrefix | coq/snippets/parse.py:103-107 | the old prefix is the words before the cursor when the first parsed character is a word character, otherwise the symbols before it |
| SnippetParse.Parse | coq/snippets/parse.py:86-160 | success exactly when every region is placed, the marks then being those of the reparsed regions; the edit's text is the parsed lines joined by the buffer's line feed; a snippet range edit gives a parsed edit copying begin, end, encoding and fallback; any other snippet gives a contextual edit with the chosen old prefix, and with an old suffix that is the words after the cursor only when the parsed text ends in a word character |
| SnippetParse.ParseKeepsTextWithSameLinefeed | coq/snippets/parse.py:127-128 | when the buffer's line feed is the parsers' separator the edit inserts the parsed text unchanged |
| SnippetParse.ParseMarksWithinText | coq/snippets/parse.py:147-154 | when every region lies within the parsed text, the parse succeeds, with one mark per region carrying its index and text, on rows at or below the cursor's |
| SnippetParse.First | coq/snippets/parse.py:105 | `s[:1]` is a prefix of `s` of length one, or empty for empty text |
| SnippetParse.Last | coq/snippets/parse.py:122 | `s[-1:]` is a suffix of `s` of length one, or empty for empty text |

## Left out

- `quick_ratio`, `multi_set_ratio` and the `edit_distance` field of `metrics` are not modelled. Their results are floating point, their implementation is not part of this model, and the test vectors do not determine their normalising formulas.
- The implementation of `dl_distance` in `coq/shared/fuzzy.py` is not part of this model. The Lowrance–Wagner recurrence is the one its tests require. The vectors `"ca"`/`"abc"` and `"ab"`/`"bca"` rule out the optimal-string-alignment variant.
- Fuzzy.Distance: the Lowrance–Wagner recurrence is taken as the definition of the distance. That it is the least number of insertions, deletions, substitutions and transpositions over all edit sequences is not proved.
- The triangle inequality of the distance is not proved.
- `coq/server/runtime.py`, `coq/lsp/requests/completion.py` and `coq/shared/executor.py` are configuration I/O, editor RPC and thread-pool plumbing. They are not modelled.
- The lsp and snu snippet parsers, `is_word`, `expand_tabs` and pynvim_pp's `decode` are not modelled. They are uninterpreted functions supplied in `SnippetParse.Externals`.
- The parsers are total functions here. A snippet that a parser rejects raises out of `parse` at coq/snippets/parse.py:99-101 or 119, and the model has no such error path.
- Text.SplitJoin: splitting undoes joining only for a one-character separator. With a longer separator that overlaps itself, such as `"aa"`, split need not return the joined parts.
- `encode` is taken to be UTF-8. Dafny characters are Unicode scalar values, so lone surrogates in Python strings are not modelled.
- The decoding of the cursor's byte prefix into `new_prefix` (coq/snippets/parse.py:126) is the external `decodePrefix`. The byte slicing and any decoding error are not modelled.
- The DEBUG logging (coq/snippets/parse.py:156-158) is left out.
- The value of `SNIP_LINE_SEP` lives in `coq/snippets/consts.py`, which is not part of this model. It is the parameter `sep`. `SnippetParse.Parse` requires it to be non-empty, because Python's `split` raises on an empty separator.
- The definitions in `coq/shared/types.py` are not part of this model. The edit classes are constructors carrying only the fields this code reads or writes, `isinstance` is `IsRange`/`IsSnippet`, and `Context` holds only the fields `parse` uses.
- The `never(snippet.grammar)` branch cannot be reached, because the grammar datatype has exactly two values.
- The failed `assert` in `_marks` is modelled as an error result carrying the region. Its `pformat` message is not modelled, and neither are the marks produced lazily before the failure, which `tuple(...)` discards.
- `unifying_chars` is a set of characters rather than a set of strings.
