# Web URL Summarizer: the text pipeline, in Dafny

This project is a Dafny model of the logic in the Streamlit page `app.py`.
The user gives a URL and a question. The page fetches the URL, reduces the
HTML to plain text, cleans up the whitespace, keeps the first 8000
characters, builds a prompt from them and hands it to an LLM agent.

The model covers the parts of that path whose behaviour is visible in the
source:

- **The whitespace cleanup** (`fetch_webpage_content`, app.py lines 55-57).
  The text is split with `splitlines()` and each line is stripped. Each line
  is then split on the two-space string `"  "` and each phrase is stripped.
  Empty phrases are dropped and the rest are joined with one space. The
  Python `str` operations involved are modelled on their own in module
  `PyStr`: `strip`, `split(sep)` (leftmost, non-overlapping occurrences),
  `sep.join` and `splitlines`. `splitlines` is modelled exactly, with
  "\r\n" as a single terminator and no trailing empty line. Whitespace and
  line boundaries are CPython's character tables (module `Chars`).
- **The error-as-content fallback** (lines 60-61). When the fetch or the
  parse raises, the function returns `"Error fetching content: "` followed by
  the exception text. The handler then treats that string like page text.
- **The cut to 8000 characters** (line 98) and the prompt built around it
  (lines 91-102).
- **The button handler** (lines 79-112). An empty URL is refused first and an
  empty query second. Only when both are present is the page fetched and the
  agent run. An agent failure becomes an error banner.

The network fetch with its HTML parsing becomes a parameter
`fetch: string -> PageText`. Its result is either the extracted text or the
message of the exception raised. The agent becomes a parameter
`agent: string -> AgentReply`. The handler returns the display together with
the outside calls it made, in order. So "no fetch happens" is a statement
about that list of calls.

The main results are in `Cleanup`:

- The cleaned text is *canonical*. It has no whitespace at either end, no
  line-boundary character, and never two spaces in a row.
- Canonical text is a fixed point of the cleanup, so the cleanup is
  idempotent.
- The cleanup keeps the non-whitespace characters of its input, all of them
  and in the same order.
- The cleaned text is empty exactly when the input is all whitespace.

`split("  ")` splits at each leftmost, non-overlapping occurrence of exactly
two spaces, not at runs of spaces. Three spaces give the pieces `""` and
`" "`, and the strip that follows removes the leftover space. A chunk may
still contain single spaces, tabs or other whitespace that is neither a line
boundary nor part of a double space: `"a\t b"` comes out unchanged.

## Model

| member | source | states |
|---|---|---|
| Chars.IsSpace | app.py:55-56 | the characters `strip()` removes, CPython's `isspace` table: U+0009-U+000D, U+001C-U+0020, U+0085, U+00A0, U+1680, U+2000-U+200A, U+2028, U+2029, U+202F, U+205F and U+3000 |
| Chars.IsLineBreak | app.py:55 | the line boundaries of `splitlines()`: U+000A-U+000D, U+001C-U+001E, U+0085, U+2028 and U+2029 |
| Chars.LineBreakIsSpace | app.py:55-56 | every line boundary is whitespace, so dropping terminators only removes whitespace |
| PyStr.Strip | app.py:55-56 | `strip()` leaves a string with no whitespace at either end. It is the input with a whitespace-only prefix and suffix removed, and it is empty exactly when the input is all whitespace |
| PyStr.StripUnique | app.py:55-56 | that description of `strip()` has exactly one solution, so any stripped infix left after removing whitespace from both ends equals `strip()` |
| PyStr.SkipSpace | app.py:55-56 | the left scan of `strip()` stops at the first non-whitespace character at or after its start (or at the end), and everything it passed over is whitespace |
| PyStr.SkipSpaceBack | app.py:55-56 | the right scan of `strip()` stops just after the last non-whitespace character before its end (or at the left bound), and everything it passed over is whitespace |
| PyStr.Find | app.py:56 | the separator search returns the leftmost occurrence, with none before it, and returns nothing exactly when the separator does not occur |
| PyStr.Split | app.py:56 | `split(sep)` gives at least one piece, no piece contains `sep`, joining the pieces with `sep` gives the input back, and each separator is the leftmost occurrence after the piece before it (no occurrence starts inside a piece and runs into the next separator) |
| PyStr.SplitUnique | app.py:56 | that description of `split(sep)` has exactly one solution, so it fixes the pieces |
| Cleanup.SplitThreeSpaces | app.py:56 | three spaces split on two spaces give the pieces `""` and `" "`: the separator is the leftmost occurrence, not the end of the run |
| PyStr.SplitLinesKeepEnds | app.py:55 | the lines concatenate back to the input. No line text holds a boundary and no line is empty. Every line but the last is terminated, and a lone "\r" terminator is never followed by "\n" |
| PyStr.SplitLines | app.py:55 | no line from `splitlines()` contains a line boundary, and only the empty string has no lines |
| Cleanup.SplitEach | app.py:56 | splitting every line on two spaces gives pieces without two spaces in a row, single-line when the lines are, and rejoining with the separator gives the same text as joining the lines |
| Cleanup.SplitEachOne | app.py:56 | a single line gives exactly its own `split` pieces |
| Cleanup.SplitEachAppend | app.py:56 | each line is split on its own: the pieces of consecutive runs of lines are the pieces of the first run followed by those of the second, so together with the single-line case every line contributes exactly its own pieces, in line order |
| Cleanup.NonEmpty | app.py:57 | every kept string is non-empty and comes from the input, every non-empty input string is kept, and their concatenation is unchanged |
| Cleanup.JoinAppend | app.py:57 | `sep.join` of two non-empty runs of strings is the join of the first, then `sep`, then the join of the second |
| Cleanup.ConcatIsJoin | app.py:57 | concatenating strings is joining them with the empty separator |
| Cleanup.NonEmptyOne | app.py:57 | the filter keeps a single string exactly when it is non-empty |
| Cleanup.NonEmptyAppend | app.py:57 | filtering consecutive runs of strings gives the kept strings of the first run followed by those of the second; with the single-string case this fixes the order and multiplicity of the kept strings |
| Cleanup.Lines | app.py:55 | the stripped lines contain no line boundary |
| Cleanup.Phrases | app.py:56 | every stripped phrase has no whitespace at either end, no line boundary and no two spaces in a row |
| Cleanup.Chunks | app.py:56-57 | every kept chunk is non-empty, stripped, single-line and free of two spaces in a row |
| Cleanup.Clean | app.py:55-57 | the cleaned text has no whitespace at either end, no line boundary and never two spaces in a row |
| Cleanup.CleanFixesCanonical | app.py:55-57 | text of that canonical form passes through the cleanup unchanged |
| Cleanup.CleanIdempotent | app.py:55-57 | cleaning cleaned text returns it unchanged |
| Cleanup.CleanKeepsNonSpace | app.py:55-57 | the non-whitespace characters of the output are exactly those of the input, in order; the cleanup only removes or replaces whitespace |
| Cleanup.NonSpaceLines | app.py:55 | splitting into lines and stripping each keeps the non-whitespace characters, in order |
| Cleanup.NonSpaceSplitEach | app.py:56 | splitting every line on two spaces keeps the non-whitespace characters, in order, because the separator is whitespace |
| Cleanup.NonSpacePhrases | app.py:56 | the stripped phrases hold the same non-whitespace characters, in the same order, as the stripped lines |
| Cleanup.CleanEmptyIffAllSpace | app.py:55-57 | the output is empty exactly when the input is all whitespace |
| Cleanup.JoinChunksCanonical | app.py:57 | joining chunks with one space gives canonical text, which is empty exactly when there are no chunks |
| Cleanup.ChunkThenCanonical | app.py:57 | a chunk, one space, then non-empty canonical text is still canonical: the added space can never form a double space or sit at an end |
| Analyze.FetchWebpageContent | app.py:37-61 | a page that was fetched yields canonical text with the page's non-whitespace characters, empty exactly when the page text is all whitespace. A failed fetch yields `"Error fetching content: "` followed by the exception message |
| Analyze.FailureLooksLikePage | app.py:55-61 | for a tidy message, a failed fetch and a page whose text reads `"Error fetching content: "` followed by the message give the same content. Downstream code cannot tell them apart |
| Analyze.TruncateContent | app.py:98 | the slice is a prefix of the content, at most 8000 characters long. It is the whole content when that has 8000 characters or fewer, and exactly 8000 characters otherwise |
| Analyze.RenderPrompt | app.py:91-102 | the filled template contains the URL, the query and the content, and adds a fixed number of characters |
| Analyze.BuildPrompt | app.py:91-102 | the prompt contains the URL, the query and the cut content, and its length is bounded whatever the size of the page |
| Analyze.PromptIgnoresTail | app.py:98 | page contents (the value of `webpage_content`) that agree on their first 8000 characters give the same prompt |
| Analyze.AnalyzeClick | app.py:79-112 | an empty URL gives the URL warning whatever the query, with no outside call. A non-empty URL with an empty query gives the query warning, with no outside call. Only with both present is there a fetch of that URL, then one agent call whose prompt carries the URL, the query and the cut content. The agent's answer is shown verbatim; an agent failure becomes the error banner with its message |
| Analyze.FailedFetchReachesAgent | app.py:60-98 | when the fetch raises, the agent is still called, and its prompt carries the cut error report |

## Left out

- The HTTP request with its User-Agent header and `raise_for_status` (app.py:39-43) is network I/O. Its outcome is the `PageText` parameter.
- BeautifulSoup parsing, the removal of `<script>` and `<style>` elements and `get_text()` (app.py:45-52) belong to a third-party library whose behaviour is not visible here. The extracted text is an arbitrary string, so the claim that script and style text never reaches the output is not modelled.
- The agent, the Gemini model, the DuckDuckGo tool and `@st.cache_resource` (app.py:28-35, 64, 105) are opaque external services. The agent is a function parameter.
- Streamlit page setup, the inputs, the spinner, the subheader and markdown rendering, and the CSS block (app.py:19-26, 67-77, 86, 108-124) are UI. So are the environment and API-key setup (app.py:9-16). Exceptions raised by the rendering calls themselves, which the same `except` would catch, are not modelled.
- Analyze.BuildPrompt: the contract states only that the prompt contains the URL, the query and the cut content, and gives a length bound. The model template leaves out three things: the line break right after the opening `f"""` (app.py:91), the 16-space indentation that begins every line of the f-string, and the two spaces and `# Limiting content length…` remark that follow the content on app.py:98, which the f-string sends to the agent as part of the prompt. Every other line break of the f-string is kept.
- Analyze.RenderPrompt: the exact length in the contract is that of the model template, not of the source's f-string. The model template leaves out three things: the line break right after the opening `f"""` (app.py:91), the 16-space indentation that begins every line of the f-string, and the two spaces and `# Limiting content length…` remark that follow the content on app.py:98, which the f-string sends to the agent as part of the prompt. Every other line break of the f-string is kept.
- Python strings can hold lone surrogate code points and Dafny characters cannot. Slicing and stripping are otherwise per code point in both.
- Exceptions that are not `Exception` subclasses (such as `KeyboardInterrupt`) escape both handlers in the source. They are not modelled.
