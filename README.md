# Body text extraction by tag-density search

This project models `BodyTextExtractor.py`. The extractor finds the main text of an HTML page as follows:

- The HTML parser's callbacks turn the page into a flat list of tokens (tag tokens and whitespace-separated words), with a parallel list that classifies each token as `+1` (tag) or `-1` (word).
- `close()` run-length encodes the classification into alternating tag and word runs. It also builds three tables: the tokens before each run, the tags before each run, and the tags after each run.
- `body_text()` searches every pair of word runs from the body start for the span that maximises "tags left outside plus words kept inside". It joins the words of that span with spaces, collapses runs of spaces and strips every line. The result is cached.
- `full_text()` joins every word token with a space.

The Dafny modules follow that pipeline:

- `Text`: Python's `str.split()`, `strip()`, `lstrip()` and `rstrip()` over the `str.isspace()` characters. Also `split`/`join` on a one-character separator, the `[ ]+` to `' '` substitution, and `_is_tag`.
- `Runs`: the classification constants, the encoder as a function (`Encode`, built from one step `Push`), `Expand` as its inverse, and the three tables as functions of the runs.
- `Search`: `_objective_fcn` (`Objective`) and a run-by-run reference count of what it means (`Oracle`). Also the nested scan as functions (`Row`, `Scan`, `SearchBest`) and the span lookup (`OptimalSpan`).
- `Tokenizer`: the callbacks as a pure step function `Apply` over a `State` value, and `Tokenize` over a sequence of already-parsed events. It carries the facts about the token lists, the body start and the pending line break.
- `Render`: the rendering of a span (`RenderBody`) and the full-text join (`FullText`).
- `Extractor`: the class `HtmlBodyTextExtractor`. Its fields are the source's lists and flags. Its handlers, `Close`, the counting loops, the search loops and `BodyText` are methods, each proved against the functions above. `Valid()` keeps the fields consistent with the specification functions across every call.

The source's two classes (the token parser and the extractor that extends it) are one Dafny class with all the fields of both.

Two behaviours of the code differ from what a reader might expect, and the model follows the code:

- A later `<body>` start tag moves the body start again. `handle_starttag` assigns it on every `body` tag, not only the first.
- `_find_optimal_span` uses the body start, a token index, directly as a run index. When it is past the end of `total_tokens_before`, the final lookup raises `IndexError`. The model returns `None` there.

## Model

| member | source | states |
|---|---|---|
| Runs.TokenClasses | BodyTextExtractor.py:25-26 | `TAG_TOKEN` and `DATA_TOKEN` have opposite signs and magnitude one, so every token adds exactly one to a run of its own class |
| Runs.Encode | BodyTextExtractor.py:105-113 | the encoder always leaves at least the initial run |
| Runs.EncodeAlternates | BodyTextExtractor.py:106-113 | on a +1/-1 list the runs alternate in sign and none is zero; an empty list leaves the single run `[0]` |
| Runs.EncodeExpands | BodyTextExtractor.py:106-113 | round trip: expanding the runs (each run becomes `abs(r)` copies of its sign) gives back the classification list |
| Runs.EncodeCounts | BodyTextExtractor.py:106-113 | the run magnitudes add up to the number of tokens |
| Runs.EncodeUnique | BodyTextExtractor.py:106-113 | any alternating, zero-free run list that expands to a non-empty classification list is the encoder's output: the encoder computes the run-length encoding |
| Runs.PushAlternates | BodyTextExtractor.py:108-112 | one step, from the initial `[0]` or from alternating zero-free runs, leaves the runs alternating and zero-free |
| Runs.PushExpands | BodyTextExtractor.py:108-112 | one step appends exactly the token to the expansion, whether it opens a run or extends one |
| Runs.ExtendExpands | BodyTextExtractor.py:112 | adding a token of the current run's sign adds one copy of it to the expansion |
| Runs.PushCounts | BodyTextExtractor.py:108-113 | one step covers exactly one more token |
| Runs.UnpushSpec | BodyTextExtractor.py:108-112 | taking one token off the last run inverts a step: the expansion loses its last token, the runs stay alternating, and pushing it back restores the runs unless it was the only token |
| Runs.TokensBefore | BodyTextExtractor.py:110-115 | `total_tokens_before` has one entry more than the runs |
| Runs.TokensBeforeStep | BodyTextExtractor.py:110-115 | entries `k` and `k+1` of `total_tokens_before` differ by the size of run `k`, so they bound it |
| Runs.TokensBeforeLast | BodyTextExtractor.py:106-115 | the last entry of `total_tokens_before` is the number of tokens |
| Runs.StartsRun | BodyTextExtractor.py:108 | the boundary test: the token would shrink the current run's magnitude; `PushExpands` and `PushAlternates` state what the step does on either side of it |
| Runs.Push | BodyTextExtractor.py:108-112 | one encoder step, never leaving the runs empty; `PushExpands`, `PushAlternates` and `PushCounts` state what it does |
| Runs.RunCountsStep | BodyTextExtractor.py:108-113 | the per-run counts stay in step with the runs: a new run copies the running total forward, and the current run's count grows by one |
| Runs.ShiftedCounts | BodyTextExtractor.py:115 | inserting 0 in front of the per-run counts gives the tokens before each run |
| Runs.TagsUntil | BodyTextExtractor.py:124-128 | `num_tags_until` has one entry per run |
| Runs.TagsAfter | BodyTextExtractor.py:129-136 | `num_tags_after` has one entry per run |
| Runs.TagsThrough | BodyTextExtractor.py:124-128 | the forward list before trimming has one entry more than the runs |
| Runs.TagsFromEnd | BodyTextExtractor.py:129-133 | the backward list before reversal has one entry more than the runs |
| Runs.Reversed | BodyTextExtractor.py:134 | `reverse()` puts entry `k` at position `len - 1 - k` |
| Runs.ReversedTwice | BodyTextExtractor.py:134 | reversing twice gives back the list, so `reverse()` loses and adds nothing |
| Runs.TrimmedTagTables | BodyTextExtractor.py:134-137 | reversing the backward list and dropping its first entry gives the tags strictly after each run; dropping the forward list's last entry gives the tags strictly before each run |
| Runs.ForwardTagStep | BodyTextExtractor.py:125-128 | one forward iteration adds the run's tags to the running total and appends it |
| Runs.BackwardTagStep | BodyTextExtractor.py:130-133 | one backward iteration does the same from the last run down |
| Runs.TagTablesPartition | BodyTextExtractor.py:117-137 | for every run, tags before it plus tags in it plus tags after it is the total number of tags |
| Search.Objective | BodyTextExtractor.py:139-148 | `_objective_fcn` on the four tables; its meaning is stated by `ObjectiveIsOracle` |
| Search.TextBefore | BodyTextExtractor.py:143-144 | tokens before run `k` minus tags before run `k` is the number of words before it |
| Search.ObjectiveIsOracle | BodyTextExtractor.py:139-148 | on the tables `close()` builds, the constant-time objective equals the tags before run `i`, plus the tags after run `j`, plus the words in runs `i..j-1`; so it is never negative |
| Search.Row | BodyTextExtractor.py:178-185 | the inner loop from column `j` as a function; `RowKeepsInv` states what it keeps |
| Search.Scan | BodyTextExtractor.py:175-185 | the outer loop from row `i` as a function; `ScanKeepsInv` states what it keeps |
| Search.SearchBest | BodyTextExtractor.py:172-185 | the whole search with its initial maximum; `SearchBestSpec` characterises its result |
| Search.OptimalSpan | BodyTextExtractor.py:186-188 | the token range of the winning runs, or `None` for the `IndexError`; `OptimalSpanSpec` states when each happens |
| Search.RowKeepsInv | BodyTextExtractor.py:178-185 | the inner loop keeps the running maximum at least every score seen and strictly above every earlier one |
| Search.ScanKeepsInv | BodyTextExtractor.py:175-185 | the outer loop keeps the same invariant over whole rows |
| Search.SearchBestSpec | BodyTextExtractor.py:169-185 | the search returns the first strict maximiser over word-run pairs from the body start; with no score above 0 it returns `(body_start, len(encoded) - 1)` |
| Search.SearchBestBounds | BodyTextExtractor.py:172-185 | `j` lies inside the run list; `i` does too unless it is still the body start; `i <= j` whenever the body start is a valid run index |
| Search.OptimalSpanSpec | BodyTextExtractor.py:186-188 | the lookup fails exactly when the body start is past the end of `total_tokens_before`; otherwise both span ends lie within the tokens, in order when the body start is a valid run index |
| Search.TokensBeforeMonotone | BodyTextExtractor.py:110-115 | `total_tokens_before` never decreases |
| Tokenizer.DataTokens | BodyTextExtractor.py:48-53 | one token per whitespace-split piece, none empty and none containing a space; every piece after the first is the split piece unchanged, and so is the first when no break is pending; a token that looks like a tag is its split piece |
| Tokenizer.StartTagToken | BodyTextExtractor.py:60 | a start tag's token is recognised by `_is_tag` |
| Tokenizer.EndTagToken | BodyTextExtractor.py:65 | an end tag's token is recognised by `_is_tag` |
| Tokenizer.LineBreakHeadings | BodyTextExtractor.py:27-29 | `LINEBREAK_ELEMENTS` holds `h1` and `h6` but no other heading, holds `br`, `p` and `div`, and holds no inline element such as `span` or `a`, nor `body` |
| Tokenizer.Apply | BodyTextExtractor.py:46-68 | one callback on the parser state; `ApplySpec`, `DataConsumesBreak` and the body-start lemmas state its effect |
| Tokenizer.Tokenize | BodyTextExtractor.py:39-68 | a fresh parser fed a sequence of callbacks; `TokenizeWellShaped`, `TokenizeExtends` and `BreakNextSpec` describe the result |
| Tokenizer.ApplySpec | BodyTextExtractor.py:46-68 | every callback keeps the two lists parallel and +1/-1, only appends, and appends one -1 per word or one +1 per tag |
| Tokenizer.TokenizeWellShaped | BodyTextExtractor.py:39-68 | any sequence of callbacks on a fresh parser leaves a well-shaped state |
| Tokenizer.TokenizeExtends | BodyTextExtractor.py:46-68 | the lists after a prefix of the callbacks are prefixes of the final lists |
| Tokenizer.BodyStartWithoutBody | BodyTextExtractor.py:42 | with no `body` start tag the body start stays 0 |
| Tokenizer.BodyStartAfterBody | BodyTextExtractor.py:61-62 | after a `body` start tag the body start is the token count just after the most recent one |
| Tokenizer.BreakNextSpec | BodyTextExtractor.py:50-67 | a line break is pending exactly when some line-break end tag has no text chunk after it |
| Tokenizer.DataConsumesBreak | BodyTextExtractor.py:50-56 | a text chunk always clears the pending break; with a break pending the tokens become the old ones, the first piece behind a newline, then the other pieces unchanged; otherwise the pieces are appended as split |
| Text.IsSpace | BodyTextExtractor.py:48 | the characters `str.isspace()` accepts, which `split()` and `strip()` treat as whitespace; `Split`, `LStripSpec`, `RStripSpec` and `StripSpec` state what the operations do with them |
| Text.Split | BodyTextExtractor.py:48 | `data.split()` yields non-empty pieces without whitespace |
| Text.SplitAfterBlank | BodyTextExtractor.py:48 | leading whitespace yields no piece |
| Text.SplitAfterWord | BodyTextExtractor.py:48 | the pieces are maximal: a word followed by whitespace, or by the end, is one whole piece, and splitting continues after it |
| Text.SplitJoinWith | BodyTextExtractor.py:48 | round trip: splitting non-empty whitespace-free words joined on a whitespace character gives back the words |
| Text.SplitKeepsText | BodyTextExtractor.py:48 | the pieces put back together are exactly the chunk's non-whitespace characters |
| Text.SplitOfWord | BodyTextExtractor.py:48 | a non-empty chunk without whitespace is one piece |
| Text.SplitOfBlank | BodyTextExtractor.py:48 | an all-whitespace chunk yields no piece |
| Text.CollapseSpaces | BodyTextExtractor.py:162 | the substitution leaves no two consecutive spaces, never lengthens the text, keeps it empty exactly when it was empty, and keeps its first character |
| Text.CollapseSpacesSpec | BodyTextExtractor.py:162 | the substitution removes spaces and nothing else, and changes nothing in a text with no double space |
| Text.CollapseDropsOneOfTwo | BodyTextExtractor.py:162 | removing one space of a pair does not change the result; with the identity clause of `CollapseSpacesSpec` this pins every run of spaces to exactly one space |
| Text.CollapseSpacesIdempotent | BodyTextExtractor.py:162 | applying the substitution twice is the same as once |
| Text.LStrip | BodyTextExtractor.py:164 | `lstrip()` returns a suffix of its input |
| Text.RStrip | BodyTextExtractor.py:164 | `rstrip()` returns a prefix of its input |
| Text.Strip | BodyTextExtractor.py:164 | `strip()` as `rstrip()` after `lstrip()`; `StripSpec` and `StripIsSlice` determine it |
| Text.LStripSpec | BodyTextExtractor.py:164 | `lstrip()` removes exactly the leading whitespace |
| Text.RStripSpec | BodyTextExtractor.py:164 | `rstrip()` removes exactly the trailing whitespace |
| Text.StripSpec | BodyTextExtractor.py:164 | `strip()` leaves no whitespace at either end, drops only whitespace, and leaves an already-stripped line unchanged |
| Text.StripIsSlice | BodyTextExtractor.py:164 | `strip()` returns a contiguous piece of its input |
| Text.StripKeepsNoDoubleSpace | BodyTextExtractor.py:162-164 | stripping a line without double spaces leaves none |
| Text.StripKeepsAbsent | BodyTextExtractor.py:164 | stripping adds no character |
| Text.JoinWith | BodyTextExtractor.py:160-164 | `sep.join(pieces)` for a one-character separator; `SplitOnJoinWith`, `JoinWithSplitOn` and `SplitJoinWith` are its round trips |
| Text.JoinWordsNoDoubleSpace | BodyTextExtractor.py:160-162 | joining non-empty words without `' '` on one space creates no double space |
| Text.IsTag | BodyTextExtractor.py:150-152 | `_is_tag`: the token starts with `<` and ends with `>`, defined for non-empty tokens only |
| Text.SplitOn | BodyTextExtractor.py:164 | `text.split('\n')` yields at least one piece, none containing the separator, the first a prefix of the text |
| Text.SplitOnJoinWith | BodyTextExtractor.py:164 | round trip: splitting a join on the same separator gives back the pieces when none contains it |
| Text.JoinWithSplitOn | BodyTextExtractor.py:164 | round trip: joining the pieces of a split gives back the text |
| Text.SplitOnKeepsNoDoubleSpace | BodyTextExtractor.py:164 | the lines of a text with no double space have none |
| Text.JoinWithKeepsNoDoubleSpace | BodyTextExtractor.py:164 | joining lines without double spaces on a newline creates none |
| Render.NonTags | BodyTextExtractor.py:160 | every token it keeps is non-empty, is no tag and comes from the input; `NonTagsOfOne` and `NonTagsAppend` state that every non-tag is kept, in order |
| Render.NonTagsOfOne | BodyTextExtractor.py:160 | a single token is kept exactly when `_is_tag` rejects it |
| Render.NonTagsAppend | BodyTextExtractor.py:160 | the filter distributes over concatenation, so it keeps every non-tag token in order and nothing else |
| Render.Slice | BodyTextExtractor.py:160 | `tokens[start:end]` is the range between the indices, or empty when `start >= end` |
| Render.StripAll | BodyTextExtractor.py:164 | every line is replaced by its stripped form |
| Render.CollapseKeepsNonSpace | BodyTextExtractor.py:162 | collapsing spaces keeps every non-whitespace character in order |
| Render.RenderBody | BodyTextExtractor.py:160-164 | the body rendering of a span's tokens; `RenderBodyKeepsText`, `RenderBodyIsClean` and `RenderBodyOfWords` state its properties |
| Render.FullText | BodyTextExtractor.py:190-192 | `full_text` of a token list; `FullTextSplitsBack` states its round trip |
| Render.RenderBodyOfWords | BodyTextExtractor.py:160-164 | when no token holds a space, the rendering is the full text with every line stripped: collapsing changes nothing there |
| Render.RenderBodyKeepsText | BodyTextExtractor.py:160-164 | the rendered body has the same non-whitespace characters, in order, as the plain join of the span's words |
| Render.RenderBodyIsClean | BodyTextExtractor.py:160-164 | the rendered body has no two consecutive spaces, and each of its lines has no whitespace at either end |
| Render.FullTextSplitsBack | BodyTextExtractor.py:190-192 | the full text splits back on `' '` into exactly the word tokens, when there is at least one and none contains a space |
| Extractor.ApplyKeepsConsistent | BodyTextExtractor.py:46-68 | every callback keeps the extractor's invariant, before and after `close()` |
| Extractor.ClosedReady | BodyTextExtractor.py:154-160 | the closed invariant gives non-empty tokens, derived tables, and runs covering no more tokens than there are |
| Extractor.BodyTextOf | BodyTextExtractor.py:158-167 | `body_text`'s uncached result, the rendered tokens of `OptimalSpan`'s range: it is `None` (the `IndexError`) exactly when the body start is past the end of `total_tokens_before`, and otherwise has no two consecutive spaces; `OptimalSpanSpec`, `SearchBestSpec`, `RenderBodyIsClean` and `RenderBodyKeepsText` state its properties |
| Extractor.CloseKeepsConsistent | BodyTextExtractor.py:94-97 | the tables built by `close()` establish the closed invariant |
| Extractor.HtmlBodyTextExtractor.constructor | BodyTextExtractor.py:72-78 | empty lists, body start 0, no pending break, each table `[0]` and an empty cache |
| Extractor.HtmlBodyTextExtractor.HandleData | BodyTextExtractor.py:46-56 | appends the chunk's pieces (the first prefixed with a newline when a break is pending) and one -1 each, clears the break, and keeps the invariant |
| Extractor.HtmlBodyTextExtractor.AppendWords | BodyTextExtractor.py:54-56 | the loop appends every piece and one -1 per piece |
| Extractor.HtmlBodyTextExtractor.HandleStartTag | BodyTextExtractor.py:58-62 | appends `<tag>` and +1, and sets the body start to the new token count on `body` |
| Extractor.HtmlBodyTextExtractor.HandleEndTag | BodyTextExtractor.py:64-68 | appends `<\tag>` and +1, and sets the pending break on a line-break element |
| Extractor.HtmlBodyTextExtractor.Close | BodyTextExtractor.py:94-97 | the tables become exactly the ones derived from the classification list, and the invariant now ties them to it |
| Extractor.HtmlBodyTextExtractor.CountCumulativeTokens | BodyTextExtractor.py:99-115 | the loop produces the encoder's runs and `total_tokens_before` for them |
| Extractor.HtmlBodyTextExtractor.CountToken | BodyTextExtractor.py:107-113 | one iteration performs one encoder step and keeps the counts in step |
| Extractor.HtmlBodyTextExtractor.CountCumulativeTags | BodyTextExtractor.py:117-137 | the two loops, the reversal and the two deletions produce `num_tags_until` and `num_tags_after` |
| Extractor.HtmlBodyTextExtractor.CountTagsForward | BodyTextExtractor.py:124-128 | the forward loop's list counts the tags in each prefix of the runs |
| Extractor.HtmlBodyTextExtractor.CountTagsBackward | BodyTextExtractor.py:129-133 | the backward loop's list counts the tags in each suffix of the runs |
| Extractor.HtmlBodyTextExtractor.FindOptimalSpan | BodyTextExtractor.py:169-188 | returns the span of the first strict maximiser, or `None` for the `IndexError` |
| Extractor.HtmlBodyTextExtractor.ScanSpans | BodyTextExtractor.py:172-188 | the nested loops compute the specified search and lookup |
| Extractor.HtmlBodyTextExtractor.BodyText | BodyTextExtractor.py:154-167 | a non-empty cache is returned unchanged; otherwise the rendered optimal span is returned and cached |
| Extractor.HtmlBodyTextExtractor.CachedBodyText | BodyTextExtractor.py:154-167 | the same, on the state as values |
| Extractor.HtmlBodyTextExtractor.RenderSpan | BodyTextExtractor.py:158-164 | rendering the found span gives the specified body text |
| Extractor.HtmlBodyTextExtractor.ClosedTables | BodyTextExtractor.py:154-158 | once closed, the tokens are non-empty, the tables are the ones derived from their runs, and the runs cover no more tokens than there are |
| Extractor.HtmlBodyTextExtractor.FullText | BodyTextExtractor.py:190-192 | `Render.FullText` of the current tokens; when there is a word and no token holds a space, splitting it on `' '` gives back exactly the word tokens |
| Extractor.BodyTextTwice | BodyTextExtractor.py:155-157 | calling `body_text()` twice gives the same answer: the cache never changes the result |

## Left out

- The HTML parser itself (`feed`, HTMLParser's tokenisation, entity handling and tag-name normalisation) is not modelled. The callbacks receive already-parsed events.
- `HtmlTokenParser.close` flushing buffered text into a final `handle_data` is not modelled. `Close` builds the tables from the callbacks seen so far.
- `_remove_unreadable` (BeautifulSoup removal of `head`, `script` and `style`) is not part of this model: it is a foreign library call.
- The Python 2 shims, `logging`, `error` and the `__main__` command-line reader are I/O and are left out.
- The `attrs` argument of `handle_starttag` is ignored by the source and is not a parameter here.
- `MULTI_SPACES_REGEX` is modelled only as the substitution it performs (`CollapseSpaces`), not as a general regular expression.
- Whitespace is the fixed `str.isspace()` set. There is no Unicode normalisation or case folding.
- Extractor.HtmlBodyTextExtractor.Close: requires that `close()` has not run before. Calling it again in the source would append to the existing tables; the model treats that as a usage error.
- Extractor.HtmlBodyTextExtractor.BodyText: requires a closed extractor, and so do `FindOptimalSpan` and `ClosedTables`. Calling `body_text()` before `close()` searches the initial `[0]` tables in the source; the model treats that as a usage error.
- Extractor.HtmlBodyTextExtractor.Close: builds the runs and tables in local lists and stores them at the end. The source appends to the fields as it goes, but nothing can observe the intermediate lists.
- Extractor.HtmlBodyTextExtractor.FindOptimalSpan: returns `None` where the source raises `IndexError`. No other exception of the source is modelled.
- Callbacks after `close()` are allowed, as in the source. The invariant records the classification list as it was at `close()`, and the tables keep describing that prefix.
