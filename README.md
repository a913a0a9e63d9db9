# Open-domain question answering: the text logic

The repository answers a free-text question through a Flask web front end
(`src/app.py`) that hands the question to an answer finder and renders the
result, and it has a small search script (`test.py`). Two pieces of that code
are text manipulation with exact behaviour, and they are what this project
models and proves things about:

- **The answer clean-up** (`AnswerCleanup`, `answer_cleanup.dfy`). Before the
  answer is rendered, `ask_me` rewrites it with
  `re.sub('([(].*?[)])', "", answer)`. The model is a left-to-right scanner,
  `StripParens`. At a `(` it looks for the first `)` after it with no line
  feed in between (`FindClose`). This is the lazy `.*?`, and `.` does not
  match a line feed. If there is such a `)`, the whole span is dropped and
  scanning resumes after the `)`. Otherwise the `(` is kept. Every other
  character is kept.
- **The snippet collector** (`SnippetSearch`, `snippet_search.dfy`).
  `google_search` appends the descriptions of the first five results to a
  list in a `while i < 5` loop. It joins them with no separator and encodes
  the text with `encode('ascii', 'replace')`. `GoogleSearch` keeps that loop
  and is proved against the function `SearchText`. Encoding is modelled
  character by character: an ASCII character becomes its own byte and any
  other character becomes one `?` (63). The list is called
  `top_three_result`, but the loop collects five descriptions. The model
  keeps both the name and the count of five.

The clean-up only deletes the matched spans. It collapses no whitespace and
does not balance parentheses: a span ends at the first `)` after its `(`,
provided no line feed comes between them.
`"Newton was born (December 25, 1642)."` becomes `"Newton was born ."`, with
the space before the deleted span kept, and `"(a(b)c)"` becomes `"c)"`.
`CitationCut` states the first for every answer of that shape, and
`CitationRemovedVerbatim` checks it on a shorter instance of the same
sentence; `SpansDoNotNest` states the second.

## Model

| member | source | states |
|---|---|---|
| `AnswerCleanup.StripParens` | src/app.py:47 | The substitution itself. Its own ensures says only that the result is never longer than the answer. `SpanRemoved`, `UnclosedParenKept`, `PrefixWithoutParenKept` and `NoParenUnchanged` together pin it down case by case. |
| `AnswerCleanup.FindClose` | src/app.py:47 | Where the lazy `.*?[)]` ends when tried at a position: when it closes, it closes inside the text. `FindCloseSome` and `FindCloseNone` characterise it completely. |
| `AnswerCleanup.FindCloseSome` | src/app.py:47 | The lazy `.*?[)]` closes at index k exactly when `t[k]` is `)` and no `)` and no line feed come before it, so it stops at the nearest `)` and never at a later one. |
| `AnswerCleanup.FindCloseNone` | src/app.py:47 | The match fails exactly when every `)` in the rest of the text has a line feed before it. |
| `AnswerCleanup.StripIsSubsequence` | src/app.py:47 | The result is a subsequence of the answer: characters are only deleted, never added or reordered. It is never longer than the answer, and its multiset of characters is contained in the answer's. |
| `AnswerCleanup.LineFeedsKept` | src/app.py:47 | The result holds exactly as many line feeds as the answer: a removed span never contains one. |
| `AnswerCleanup.SpanHasNoLineFeed` | src/app.py:47 | A match started at `(` runs over no line feed up to and including its `)`. |
| `AnswerCleanup.PrefixWithoutParenKept` | src/app.py:47 | Text before the first `(` passes through unchanged, and the rest is cleaned on its own. |
| `AnswerCleanup.NoParenUnchanged` | src/app.py:47 | An answer with no `(` is returned unchanged. |
| `AnswerCleanup.SpanRemoved` | src/app.py:47 | A span `(` m `)` whose interior holds no `)` and no line feed is deleted as a whole, even when m holds further `(`. Scanning resumes right after its `)`. |
| `AnswerCleanup.UnclosedParenKept` | src/app.py:47 | A `(` that is not closed before the next line feed or the end of the text is kept verbatim, and scanning resumes right after it. |
| `AnswerCleanup.StripKeepsUnclosed` | src/app.py:47 | Deleting spans never brings a `)` onto the line of an earlier unclosed `(`. |
| `AnswerCleanup.StripLeavesNoClosedSpan` | src/app.py:47 | No `(` in the result is followed by a `)` on the same line, so the pattern matches nowhere in the result. |
| `AnswerCleanup.NoClosedSpanIff` | src/app.py:47 | "The pattern matches nowhere" means exactly that between every `(` and every later `)` there is a line feed. |
| `AnswerCleanup.NoClosedSpanUnchanged` | src/app.py:47 | Text in which the pattern matches nowhere is left unchanged. |
| `AnswerCleanup.FixedPointIff` | src/app.py:47 | The substitution leaves a text unchanged if and only if the pattern matches nowhere in it. |
| `AnswerCleanup.StripIdempotent` | src/app.py:47 | Applying the substitution twice gives the same result as applying it once. |
| `AnswerCleanup.NewlineStopsSpan` | src/app.py:47 | `"(a\nb)"` is left unchanged, because `.` does not cross a line feed. |
| `AnswerCleanup.SpansDoNotNest` | src/app.py:47 | `"(a(b)c)"` becomes `"c)"`: the inner `(` is swallowed and the text after the first `)` survives. |
| `AnswerCleanup.CitationCut` | src/app.py:47 | Plain text, then a closed span, then plain text gives exactly the two plain parts joined, with no whitespace changed. |
| `AnswerCleanup.CitationRemovedVerbatim` | src/app.py:47 | `"Newton was born (1642)."` becomes `"Newton was born ."`: the space before the span stays. |
| `SnippetSearch.GoogleSearch` | test.py:13-18 | The loop keeps the invariant that the list equals the first i descriptions, with i at most 5. The result is `SearchText` of the descriptions, and every byte of it is ASCII. It requires at least five results, because `first_page[i]` fails otherwise. |
| `SnippetSearch.SearchText` | test.py:13-19 | The value `google_search` returns: its length is the total length of the first five descriptions, and every byte is ASCII. `SearchTextIsFiveDescriptions` and `LaterResultsIgnored` pin down its content. |
| `SnippetSearch.Concat` | test.py:18 | `''.join` with the empty separator: the length of the result is the sum of the lengths of the parts. |
| `SnippetSearch.ConcatAppend` | test.py:18 | Joining two lists with the empty separator is joining each and concatenating the results. |
| `SnippetSearch.EncodeAsciiReplace` | test.py:18 | The encoding produces one byte per character. An ASCII character keeps its code and any other character becomes `?`. |
| `SnippetSearch.EncodeAppend` | test.py:18 | Encoding commutes with concatenation. |
| `SnippetSearch.EncodedIsAscii` | test.py:18 | Every byte of the encoded text is below 128. |
| `SnippetSearch.AsciiRoundTrip` | test.py:18 | ASCII text survives the encoding: decoding the bytes gives the text back. |
| `SnippetSearch.DecodeShowsReplacements` | test.py:18 | Decoding the encoded bytes gives the text with each non-ASCII character replaced by exactly one `?`, and the length is unchanged. |
| `SnippetSearch.SearchTextIsFiveDescriptions` | test.py:13-18 | The result is the encoding of `descriptions[0] + ... + descriptions[4]`: exactly the first five descriptions, in order, with no separator. Its length is the sum of their lengths. |
| `SnippetSearch.LaterResultsIgnored` | test.py:15 | Results after the fifth have no effect on the returned bytes. |

## Left out

- `answer_question` (src/app.py:12, 44): imported from `find_answer`. `find_answer` is not among the files modelled here, and none of its behaviour is modelled.
- The Flask application, its routes and templates, the WTForms form, the secret key and the gevent server (src/app.py:1-46, 48-63): web and I/O plumbing.
- The request-form access with its `KeyError` handling and prints (src/app.py:33-43): I/O. The answer text reaches `StripParens` as a parameter.
- `google.search` (test.py:9): a network call. `GoogleSearch` takes the `description` of each result on the first page, in page order, as its parameter `descriptions`; the other fields of a result are never read.
- The printing loop and `main` (test.py:11-12, 22-28), and the unused imports (test.py:1-2, 4-5): output and external libraries. `import google` (test.py:3) serves only the search call above.
- `venv/Lib/site-packages/monkey/__init__.py`: a vendored utility that re-binds methods at run time by reflection. It is unrelated to the text logic.
- GoogleSearch: a first page with fewer than five results raises `IndexError` in the source. The model makes five results a precondition instead of modelling the exception.
- Descriptions are taken to be Unicode text, and characters are Unicode scalar values. Python's lone surrogate code points are not modelled; they too would each become one `?`.
