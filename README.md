# Sudoku solver: reply cleaning and grid rendering

The application photographs a Sudoku puzzle and asks a vision model to read it
and solve it. The vision model answers in free text. Two pieces of `app.py` are pure
text handling. This project models both and proves properties of them.

- `clean_json_response` turns the vision model's reply into a candidate for the JSON
  parser. It applies three deleting regular-expression substitutions in
  order:
  1. It removes code fences: a tagged opening fence with the whitespace after
     it, or whitespace followed by a bare fence.
  2. It removes everything before the first `{`.
  3. It removes everything after the last `}`.
- `format_grid`, nested in `display_grids`, renders a grid as text lines. Each
  row shows its cells in three groups between `|` bars, with `_` for an empty
  cell. A dash line as long as the first line follows rows 2 and 5.

Modules:

- `Strings` (`strings.dfy`): the `\s` character class, prefixes and the
  subsequence relation.
- `ResponseCleaning` (`response_cleaning.dfy`): the three substitutions as
  pure functions, following the regular-expression engine's left-to-right
  scan. Lemmas cover deletion, the braced shape, the exact span that is kept,
  idempotence and reply shapes a vision model may produce.
- `GridDisplay` (`grid_display.dfy`): `FormatGrid` is a method with the
  source's loop. It is proved equal to `Layout(RowLines(grid))`. Lemmas show
  where each line and each cell ends up.

`\s` is taken to be the set of code points for which Python's `str.isspace`
holds. That is what `\s` matches in a `str` pattern.

`app.py` does not check the shape of the parsed reply. It does not check
that there are nine rows of nine cells, nor that each cell is an integer from
0 to 9. `detect_and_solve_sudoku` returns whatever `json.loads` produces.
This project follows the code: it has no shape check, and the grid renderer
accepts rows of any length, as long as every cell is a digit.

## Model

| member | source | states |
|---|---|---|
| ResponseCleaning.FenceMatch | app.py:29 | the match at the front is empty or at least a fence long, and never longer than the text |
| ResponseCleaning.FenceMatchIsMatch | app.py:29 | both directions: a positive length is a match of the first alternative (the `json`-tagged fence plus the maximal whitespace run after it), or, when no tagged fence starts there, of the second (a whitespace prefix then a bare fence); a zero length means no tagged fence starts there and no whitespace prefix is followed by a fence |
| ResponseCleaning.StripCodeFences | app.py:29 | the fence step never lengthens the text |
| ResponseCleaning.StripCodeFencesDeletes | app.py:29 | the fence step only deletes: its output is a subsequence of its input |
| ResponseCleaning.NoBacktickUnfenced | app.py:29 | text with no backtick passes the fence step unchanged |
| ResponseCleaning.PassThrough | app.py:29 | a backtick-free piece that does not end in whitespace is copied through, and the scan resumes right after it |
| ResponseCleaning.TaggedFenceDropped | app.py:29 | a tagged fence and the whole whitespace run after it are deleted as one match |
| ResponseCleaning.BareFenceDropped | app.py:29 | a whitespace run followed by a bare fence is deleted as one match, unless a tagged fence starts there |
| ResponseCleaning.ClosingFenceDropped | app.py:29 | a newline and closing fence are deleted; the prose after them stays |
| ResponseCleaning.DropBeforeFirstOpen | app.py:31 | the result is a suffix of the input, starts with `{` or is empty, and everything deleted is free of `{` |
| ResponseCleaning.DropBeforeFirstOpenAt | app.py:31 | the result is exactly the suffix starting at the first `{` |
| ResponseCleaning.DropAfterLastClose | app.py:32 | the result is a prefix of the input, ends with `}` or is empty, and everything deleted is free of `}` |
| ResponseCleaning.DropAfterLastCloseAt | app.py:32 | the result is exactly the prefix ending at the last `}` |
| ResponseCleaning.BraceTrim | app.py:31-32 | the result is empty or starts with `{` and ends with `}`; with no `{`, or with no `}`, it is empty |
| ResponseCleaning.BraceTrimSpan | app.py:31-32 | with the first `{` at f and the last `}` at l, the result is the text from f through l when f < l, and empty when l < f |
| ResponseCleaning.BraceTrimFramed | app.py:31-32 | text before the first `{` and after the last `}` is discarded and the braced body is kept |
| ResponseCleaning.BraceTrimIdempotent | app.py:31-32 | trimming the braces a second time changes nothing |
| ResponseCleaning.CleanJsonResponse | app.py:26-33 | the output is no longer than the reply, is empty or braced, and is empty when no `{` survives the fence step |
| ResponseCleaning.CleanJsonResponseDeletes | app.py:26-33 | the output is the reply with characters deleted, never longer than it |
| ResponseCleaning.NoOpenBraceYieldsEmpty | app.py:26-33 | a reply with no `{` cleans to the empty string |
| ResponseCleaning.RefusalYieldsEmpty | app.py:26-33 | the refusal "I cannot process this image." cleans to the empty string |
| ResponseCleaning.NoBacktickCleansBraces | app.py:26-33 | for a reply with no backtick, cleaning is brace trimming alone |
| ResponseCleaning.BodyInProse | app.py:26-33 | prose before and after an unfenced braced object is removed, leaving the object |
| ResponseCleaning.ChattyReply | app.py:26-33 | "Sure! Here is the result: " + object + " Hope that helps!" cleans to the object |
| ResponseCleaning.FencedBody | app.py:26-33 | a reply of a tagged fence, newline, object, newline and closing fence cleans to the object |
| ResponseCleaning.FencedBodyInProse | app.py:26-33 | prose, a fence tagged `json` or untagged, newline, object, newline, closing fence and prose clean to the object; a `json` tag left behind by the second alternative is removed by the brace steps |
| GridDisplay.Glyph | app.py:103 | an empty cell (0) shows as `_` and only it does; a digit 1 to 9 shows as that digit |
| GridDisplay.Cells | app.py:103 | each cell takes three columns: a space, its glyph, a space |
| GridDisplay.RowLine | app.py:105 | a row line is 4 + 3·min(len(row), 9) characters long: one bar before, between and after the groups, and three columns for each of the first nine cells |
| GridDisplay.RowLineColumns | app.py:103-105 | a nine-cell row line is 31 columns long, with bars at 0, 10, 20 and 30, and cell j at column 2 + 10·(j/3) + 3·(j%3) with a space on each side |
| GridDisplay.LayoutPlacesLines | app.py:100-109 | the lines of n rows number LinesFor(n) = n + [n ≥ 3] + [n ≥ 6]; row i's line is at index LinesFor(i), so rows 0-2 at 0-2, rows 3-5 at 4-6 and rows from 6 on at i + 2; lines 3 and 7 are all dashes and as long as line 0 |
| GridDisplay.LayoutDetermined | app.py:100-109 | that placement leaves no line open: two line lists that satisfy it for the same rows are equal |
| GridDisplay.LayoutWidths | app.py:100-109 | when all row lines have the same width, every line, separators included, has that width |
| GridDisplay.NineRowsLines | app.py:108-109 | nine rows give eleven lines; no separator follows row 8, so the last line is row 8's |
| GridDisplay.NineByNineLayout | app.py:103-109 | a 9×9 grid gives eleven lines of 31 columns, dash lines at 3 and 7, and row 8's line last |
| GridDisplay.LayoutStep | app.py:105-109 | one row's step: its line is appended, then a dash line when it is row 2 or row 5 |
| GridDisplay.FormatGrid | app.py:98-110 | the loop returns exactly `Layout(RowLines(grid))`, whose placement the lemmas above describe |

## Left out

- The Streamlit interface: camera capture, `main`, and the column and text output of `display_grids`. These are UI with no logic to capture.
- The early return in `display_grids` when the result is empty. It only guards the UI.
- The call to the vision model and reading the reply text out of its answer. This is network I/O; the reply is a parameter of `CleanJsonResponse`.
- Encoding the photograph with PIL and base64. This is image I/O.
- `json.loads` on the cleaned text and the error messages shown when parsing or the request fails. JSON parsing is not covered by this project.
- Loading the API key from the environment, and the unused `cv2` and `numpy` imports.
- Checking the puzzle against Sudoku rules. The application never does this.
- GridDisplay.FormatGrid: requires every cell to be a digit 0 to 9. The Python function formats whatever JSON value `json.loads` put in the grid: any integer, a float (where `0.0` equals 0 and so shows as `_`), a string, a boolean or null. A row that is a string is iterated character by character. The Dafny definitions cover only integer cells from 0 to 9, which take one column each, as the puzzle grids do.
- GridDisplay.RowLine: proved positionally only for nine-cell rows (`RowLineColumns`). For shorter or longer rows only the length is stated.
