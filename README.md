# Image & knowledge assistant: text core and session history

`im.py` is a single-page Streamlit app. The user picks an analysis mode (Plants, Food or
Vehicles), uploads images and may type a question. The app sends them to a Gemini model
and shows the answer, a short summary and a keyword list. Every successful analysis is kept
in a per-session history. The history can be cleared or downloaded as a text file.

This project models the parts of that script that do not depend on the UI framework or
the model:

- `keywords.dfy`, module `Keywords`: `extract_keywords`. It covers tokenising the lowered
  text into word runs, counting with `Counter`, the `most_common()` ranking (descending
  count, ties in first-appearance order), dropping the twenty stopwords, the `[:top_n]`
  slice and the `", "` join.
- `summary.dfy`, module `Summary`: the one-line summary `". ".join(resp.split(".")[:3]) + "."`.
- `history.dfy`, module `History`: the history as a class `SessionHistory` whose
  `entries` field holds the list. Its constructor, `Clear` and `Append` update the field in
  place. `Download` builds the TXT text in a loop, one numbered block per entry.
- `submit.dfy`, module `Submit`: what the Analyze button does. The API key is checked
  first, then the uploads. An empty question is replaced by the default one. On success one
  entry is appended to the history. The model call is a function parameter (`Model`).
- `strings.dfy`, modules `Types` and `Strings`: ASCII word characters, `lower()`,
  `split`/`join` for a one-character separator, and decimal rendering of the query number.

The ranking is specified by `Keywords.Precedes`: higher count first, then earlier first
appearance. `most_common()` is modelled as a stable insertion sort by count over the
distinct words in first-appearance order. That is how `Counter` orders its keys, and
Python's `sorted(..., reverse=True)` keeps equal keys in their original order. The summary
is described a second way, character by character: the response up to its third `"."`,
with a space after each earlier `"."`, then a final `"."` (`Summary.SummaryShape`).

## Model

Several functions carry the model without a row of their own; the rows of lemmas about
them state their meaning. `Keywords.Words` (the tokens of the lowered text) is described
by `TokensFromSound`, `TokensSeparate`, `TokensOfRun` and `TokensEmpty`. `Keywords.Distinct`
(the `Counter` keys) is described by `DistinctSpec`. `Keywords.MostCommon` is described by
`InsertSpec`, `ByCountSpec` and `MostCommonSpec`. `Strings.Split` and `Strings.Join` are
described by `SplitPieces`, `JoinSplit` and `SplitJoin`. `Summary.Take` (the `[:3]` slice)
is described by `JoinFirstPieces` and `SummaryShape`. `History.Block` and
`History.Transcript` (the download text) are described by `BlocksAppend`,
`TranscriptAppend`, `TranscriptAt`, `BlockNumberInjective` and `TranscriptEmpty`.

| member | source | states |
|---|---|---|
| `Keywords.TokensFromSound` | im.py:100 | every word `re.findall(r'\b\w+\b', ...)` yields is a non-empty run of word characters that occurs as a slice of the scanned string |
| `Keywords.TokensSeparate` | im.py:100 | a non-word character separates words: the text on each side of it is tokenised on its own and the results are concatenated |
| `Keywords.TokensOfRun` | im.py:100 | a run of word characters with nothing around it is a single word |
| `Keywords.TokensEmpty` | im.py:100 | the empty text has no words; with the two rows above this fixes the words of every text |
| `Keywords.DistinctSpec` | im.py:101 | the keys of `Counter(words)` are exactly the words, listed by increasing position of first occurrence |
| `Keywords.InsertSpec` | im.py:101 | inserting a word that first appears before all the others keeps the ranking sorted and adds exactly that word |
| `Keywords.ByCountSpec` | im.py:101 | sorting by count is a permutation of its input and sorted by count descending, with ties in first-appearance order |
| `Keywords.MostCommonSpec` | im.py:101 | `most_common()` lists every word of the text exactly once, by descending count, ties in order of first appearance |
| `Keywords.DropStopwords` | im.py:102-106 | a word survives the comprehension exactly when it was in the ranking and is not one of the twenty stopwords |
| `Keywords.DropStopwordsRanked` | im.py:106 | dropping stopwords keeps the ranking order |
| `Keywords.KeywordList` | im.py:106-107 | the list is a prefix of the ranked non-stopwords; a non-negative `top_n` keeps `top_n` of them (all when there are fewer); a negative `top_n` drops the last `-top_n` (leaving none when there are no more than that), as Python's `[:top_n]` does |
| `Keywords.ExtractKeywords` | im.py:99-107 | `extract_keywords` returns `""` exactly when there are no keywords, and otherwise a string with one comma and one space fewer than there are keywords; with `ExtractKeywordsReadsBack` this makes every comma followed by one space, as `", ".join` writes |
| `Keywords.KeywordsAreWords` | im.py:100-106 | each keyword is a word of the text, not a stopword, a non-empty run of word characters with no upper-case letter, and equals the lowered slice of the text at some position |
| `Keywords.KeywordsOrdered` | im.py:101-107 | no keyword is repeated; keywords have non-increasing counts, and equal counts keep first-appearance order |
| `Keywords.KeywordsAreTop` | im.py:106-107 | a non-stopword of the text that is not a keyword ranks after every keyword, and is missing only because `top_n` keywords were already taken |
| `Keywords.ExtractKeywordsReadsBack` | im.py:107 | the returned string, split at `","` with one leading space removed from each later piece (`ParseList`), gives back exactly the keyword list, so it names at most `top_n` keywords |
| `Strings.LowerChar` | im.py:100 | an upper-case letter `A`..`Z` becomes the lower-case letter at the same place in the alphabet; every other character is unchanged; the result is never upper case and is a word character exactly when the input is |
| `Strings.SplitPieces` | im.py:132 | `split(sep)` yields one more piece than there are separators, and no piece contains the separator |
| `Strings.JoinSplit` | im.py:132 | joining the pieces of a split with the same separator gives the string back |
| `Strings.SplitJoin` | im.py:132 | splitting a join of separator-free pieces gives the pieces back |
| `Strings.Decimal` | im.py:53 | the rendering of a query number is a non-empty string of digits with no leading zero |
| `Strings.DecimalRoundTrip` | im.py:53 | reading the rendered number back gives the number |
| `Summary.Summarize` | im.py:132 | the summary is non-empty and ends with `"."` |
| `Summary.JoinFirstPieces` | im.py:132 | joining the first `k` pieces of the split with `". "` gives the text before the `k`-th `"."`, with a space after each `"."` |
| `Summary.SummaryShape` | im.py:132 | the summary is the response up to its third `"."`, with a space after each of the first two, followed by `"."` |
| `Summary.SummaryWithoutDot` | im.py:132 | a response without `"."` gives itself followed by `"."` |
| `Summary.SummaryOfShortResponse` | im.py:132 | a response with at most two `"."` is kept whole, each `"."` followed by a space, with a final `"."` |
| `Summary.SummaryDots` | im.py:132 | the summary holds one `"."` per kept piece boundary plus the final one, so at most three |
| `History.BlocksAppend` | im.py:52-53 | the text for two runs of entries is the first run's text followed by the second's, and the second run's numbering continues from the first |
| `History.TranscriptAppend` | im.py:52-53 | appending an entry adds exactly its block, numbered one past the earlier entries, at the end of the download text |
| `History.TranscriptAt` | im.py:52-53 | entry `i` (from 0) appears as block `i + 1`, between the blocks of the earlier and the later entries |
| `History.BlockNumberInjective` | im.py:52-53 | the `Query i:` header determines `i`: blocks numbered differently are different text |
| `History.TranscriptEmpty` | im.py:50-61 | the download text is empty exactly when the history is |
| `History.SessionHistory.constructor` | im.py:31-32 | a new session's history is empty |
| `History.SessionHistory.Clear` | im.py:45-47 | clearing leaves the history empty |
| `History.SessionHistory.Append` | im.py:129 | appending adds the (question, response) entry at the end and keeps the earlier entries unchanged |
| `History.SessionHistory.Download` | im.py:49-61 | an empty history gives the warning; otherwise the file `ai_history.txt` of type `text/plain` whose text is the numbered blocks of all entries in order |
| `Submit.EffectiveQuestion` | im.py:123 | the question sent is never empty: the user's text when it is non-empty, otherwise "Analyze the uploaded plants/food/vehicles images." for the chosen mode |
| `Submit.ErrorMessage` | im.py:110-142 | a failed press shows "Missing API key.", "Please upload at least one image." or "Error while calling Gemini API." according to which step failed, and a successful one shows no error |
| `Submit.ErrorMessageDistinct` | im.py:110-142 | the three failures show three different messages |
| `Submit.OutcomeOf` | im.py:109-143 | a missing or empty API key is reported whatever was uploaded; missing uploads are reported only when the key is present; an analysis succeeds exactly when both checks pass and the model answers, and then carries the effective question, the model's text, that text's summary and its keywords for `top_n` = 10 |
| `Submit.AnalyzedDisplay` | im.py:129-139 | after a successful analysis the summary ends with `"."` and holds at most three `"."`, and there are at most ten keywords, each a non-stopword word of the response |
| `Submit.Analyze` | im.py:109-143 | pressing Analyze yields `OutcomeOf`'s outcome, appends exactly one (effective question, response) entry on success, and leaves the history unchanged in every other case |

## Left out

- Streamlit rendering is not modelled: page config, sidebar, tabs, widgets, spinner and the
  history tab's expanders (im.py:17, 37-44, 66-79, 148-156). They are UI framework plumbing.
  So are two notices: the startup error "Environment variable GOOGLE_API_KEY not set."
  shown when the key is missing (im.py:23-24), and "History cleared!" shown after Clear
  History (im.py:47).
  The history is a plain `seq` field instead of an entry of `st.session_state`. The
  constructor models the first creation of the list (im.py:31-32); reruns that find it
  already present keep it.
- `genai.configure` (im.py:22-26) only hands the key to a third-party SDK, and
  `get_gemini_response` (im.py:89-97) calls the model over the network through it. Opening the uploads with PIL (im.py:116-120) is a foreign library. Both
  raise into the same `except`, so together they are one function parameter, `Submit.Model`.
  It receives the mode, the effective question and the uploads, and either answers or
  raises. The prompt text built from the mode is not modelled.
- Loading `.env`, reading `GOOGLE_API_KEY` and printing the traceback (im.py:2-3, 22,
  141-143) are I/O. The key is a parameter, and the failure is the outcome `CallFailed`
  with its message.
- Unicode is not modelled. `\w` is restricted to ASCII letters, digits and `_`, and
  `lower()` to ASCII upper-case letters. Python's `re` and `str.lower()` also treat
  non-ASCII letters as word characters and lower them; here any non-ASCII character is a
  separator and is left unchanged.
- Python's `str.split` and `str.join` are modelled for the separators the script uses:
  one character for `split` and any string for `join`.
- The repository's other scripts (scene splitting, deleting one history entry, and JSON,
  Markdown or PDF export) are not part of this model. `im.py` contains none of them.
