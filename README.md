# SikumAI chapter pipeline, modelled in Dafny

SikumAI builds study material for a book. It finds a chapter's pages in the book's PDF, asks a
generation service for the chapter's plot points, parses the reply into eight fields and saves them,
and then asks for Bagrut-style questions and answers. This project models the logic at the centre of
that pipeline and proves what it does:

- `book.dfy` covers `Book`, which models `find_chapter` (functions/book.py). It includes:
  - the greedy page scan that records one page per chapter title;
  - the page range of the requested chapter and the extraction of its text;
  - every way the call can end (cache hit, `None`, an escaping exception, extracted text);
  - the chapter-text cache.
- `executor.dfy` covers `PromptExecutor`, which models `execute_prompt` (chatbot/chatbot.py):
  - a prompt cache (`class PromptCache`) in front of a service that is retried on non-200 replies;
  - the service is a script `nat -> Response`, where the k-th POST gets `script(k)`.
- `parser.dfy` covers `PlotPointsParser`, which models `parse_plot_points_response`. It includes:
  - the header regex `\*\*([A-Za-z\s]+):\*\*` and `finditer`'s left-to-right, non-overlapping search;
  - the `sections` dict comprehension, with insertion order and the last value winning;
  - the slicing loop, `split('**')[-1]`, and the final strip loop.
- `plot_points.dfy` covers `PlotPoints`, which models the decision rules of `generate_plot_points`:
  - a reply that mentions "Error" is rejected;
  - otherwise the reply is parsed, the chapter is numbered, and the record is built and saved to a log.
- `bagrut.dfy` covers `BagrutQA`, which models `generate_bagrut_qa`:
  - `re.split(r'\n+', ...)`;
  - one question/answer pair per non-blank line.
- `text.dfy` covers `Text`, the string operations the code relies on:
  - substring test `in`, `str.strip()` (ASCII `isspace`), ASCII `lower()`, `replace(' ', '_')`;
  - slicing and `list.index`.

Each operation has a reference definition (a function) and, where the source loops or updates
state, a method proved equal to it. Lemmas state what the source promises, or what it does in
fact, about those definitions.

The model follows the code, including these behaviours of it:

- **Chapter end page.** The end is the next title's recorded page itself, not the page before
  it, and that page is included.
- **Fallback end page.** When the next title has no page, the end is the requested title's list
  index + 5, not its start page + 4.
- **Number of POSTs.** `execute_prompt` inspects three replies but sends up to four POSTs. The
  fourth reply is never looked at.
- **The failure message is saved.** It does not contain "Error", so `generate_plot_points` does
  not reject it. The failure is parsed and saved as a record whose fields are all empty.

## Model

| member | source | states |
|---|---|---|
| Book.InitialTable | functions/book.py:38 | the table's keys are exactly the listed titles, each mapped to 0 |
| Book.PageStep | functions/book.py:41-47 | the inner loop on one page: the first listed title on the page gets the page's index, or on the last page the first title examined gets -1; the key set is kept |
| Book.ScanUpTo | functions/book.py:38-47 | the table after the outer loop has processed the first k pages; its keys are the listed titles |
| Book.Scan | functions/book.py:38-47 | the table after the whole scan; its entries are characterised by FirstTitleRecorded and LaterTitleRecorded |
| Book.ScanRange | functions/book.py:40-47 | after k pages every entry is 0, -1, or the index of a page already scanned |
| Book.FirstMatch | functions/book.py:41-44 | the first listed title that occurs on the page, or none when no listed title occurs |
| Book.PageStepInner | functions/book.py:41-44 | on any page but the last, exactly the title FirstMatch picks is set to the page's index; nothing else changes |
| Book.LastPageTouchesFirstOnly | functions/book.py:41-47 | on the last page only the first listed title is examined: it gets n-1 if it occurs there and -1 otherwise |
| Book.FirstTitleRecorded | functions/book.py:40-47 | after the scan, the first listed title's entry is n-1 or -1, decided by the last page alone |
| Book.StepOnLaterTitle | functions/book.py:40-47 | a later title's entry changes only on a non-last page attributed to it, and then takes that page's index |
| Book.LaterTitleUpTo | functions/book.py:40-47 | after k pages, a later title's entry is the last non-last page attributed to it, or 0 |
| Book.LaterTitleRecorded | functions/book.py:40-47 | after the scan, a later title's entry is 0, or a page from 1 to n-2 that holds the title, is attributed to it and is the last such page |
| Book.ScanPages | functions/book.py:38-47 | the nested loops with their `break`s compute exactly the scan table |
| Book.Locate | functions/book.py:37-66 | KeyError exactly when the title is not listed; a found chapter's start and end pages lie inside the document |
| Book.NotFoundWhenUnrecorded | functions/book.py:51-52 | `None` exactly when the title's entry is 0 or -1 |
| Book.FoundBoundaries | functions/book.py:54-66 | start = the title's entry; end = the next title's entry when that is positive, else the list index + 5; the text is the pages from start to end inclusive, each followed by one space |
| Book.FoundStartHoldsTitle | functions/book.py:40-56 | a found chapter starts on a page that holds its title; for a later title that page comes before the last, no earlier title is on it, and no later non-last page is attributed to it |
| Book.FirstChapterStartsOnLastPage | functions/book.py:40-66 | the first listed chapter can only start on the last page, so its text is "" unless the document has six pages |
| Book.FirstChapterRepeated | functions/book.py:38-66 | when the first two listed titles are equal, a found first chapter starts and ends on the last page and its text is that page and one space |
| Book.LastChapterNeverFound | functions/book.py:54-60 | the last listed chapter is `None` or raises at `chapter_list[index + 1]`; the branch meant for it is dead |
| Book.Spaced | functions/book.py:64-66 | `chapter_text += page + " "` over a run of pages: each page followed by one space |
| Book.PageText | functions/book.py:64-66 | the text of pages start to end inclusive, "" when the range is empty |
| Book.SpacedAppend | functions/book.py:64-66 | appending one more page appends its text and one space |
| Book.LocateChapter | functions/book.py:37-68 | the method (scan, end computation, page loop with a failing read past the end) equals Locate |
| Book.FindChapterSpec | functions/book.py:32-68 | `find_chapter` as a function of the cache: the stored text on a hit, Locate otherwise |
| Book.CacheHitIgnoresDocument | functions/book.py:33-34 | a cache hit returns the stored text whatever the document and the list are |
| Book.UnlistedTitleNeedsCache | functions/book.py:32-51 | for a title missing from the list, `find_chapter` raises `KeyError` exactly when (book, title) is not cached |
| Book.FindChapter | functions/book.py:32-68 | equals the cache lookup, then Locate; stores the extracted text, "" included, under (book, chapter) only on the found path |
| PromptExecutor.SentinelIsPlain | chatbot/chatbot.py:61 | the failure message holds neither `*` nor `E` |
| PromptExecutor.FirstOkFrom | chatbot/chatbot.py:44-56 | the first 200 reply among the inspected ones, or none when all of them fail |
| PromptExecutor.Lookup | chatbot/chatbot.py:35-36 | `get_prompt`: the entry stored under exactly that prompt, if any |
| PromptExecutor.AfterCall | chatbot/chatbot.py:50 | the cache after a call: `save_prompt` overwrites the prompt's entry when the call saved an answer, and nothing changes otherwise |
| PromptExecutor.Execute | chatbot/chatbot.py:35-61 | no POST exactly on a cache hit without override; otherwise the answer is the first 200 reply after failures only, saved, and sent with that many POSTs; or, when all three fail, the sentinel after four POSTs, with nothing saved |
| PromptExecutor.FourthReplyIgnored | chatbot/chatbot.py:43-56 | two services that agree on the first three replies give the same call: the fourth reply is never read |
| PromptExecutor.SameFirstOk | chatbot/chatbot.py:44-56 | scripts that agree on the inspected replies have the same first 200 reply |
| PromptExecutor.AllRepliesFail | chatbot/chatbot.py:42-61 | three non-200 replies: four POSTs, the sentinel, and the cache unchanged |
| PromptExecutor.SuccessAfterTwoFailures | chatbot/chatbot.py:42-52 | two failures and then a 200: three POSTs, that text returned and stored under the prompt, every other entry kept |
| PromptExecutor.RepeatHitsCache | chatbot/chatbot.py:35-36 | after an answered call, asking again without override sends nothing and returns the same answer |
| PromptExecutor.PromptCache.ExecutePrompt | chatbot/chatbot.py:35-61 | the retry loop returns Execute's answer and POST count and leaves the cache as Execute says |
| PlotPointsParser.RunLength | chatbot/chatbot.py:116 | the longest run of `[A-Za-z\s]` characters at an offset |
| PlotPointsParser.MatchAt | chatbot/chatbot.py:116 | the pattern tried at one offset: `**`, the longest run of class characters, then `:**`; the match ends inside the reply |
| PlotPointsParser.MatchAtSound | chatbot/chatbot.py:116 | what the matcher reports is `**`, a label of class characters, and `:**` |
| PlotPointsParser.MatchAtComplete | chatbot/chatbot.py:116 | every match of the pattern at an offset is the one the matcher reports, so each offset has at most one |
| PlotPointsParser.FindHeadersFrom | chatbot/chatbot.py:119 | the headers found are real matches, in order, and do not overlap |
| PlotPointsParser.FindHeaders | chatbot/chatbot.py:119 | `list(pattern.finditer(response))`: the search from offset 0 |
| PlotPointsParser.FindHeadersComplete | chatbot/chatbot.py:119 | every offset where the pattern matches starts a found header or lies inside one |
| PlotPointsParser.AddHeader | chatbot/chatbot.py:120 | one step of the comprehension: a new label is appended to the key order, a repeated one keeps its place and takes the new offset |
| PlotPointsParser.SectionsOf | chatbot/chatbot.py:120 | the dict's keys are exactly its ordered labels |
| PlotPointsParser.SectionsHaveGroups | chatbot/chatbot.py:120 | every matched label is a key |
| PlotPointsParser.SectionsDistinct | chatbot/chatbot.py:120 | the keys in dict order carry no repeats |
| PlotPointsParser.SectionOffsetFrom | chatbot/chatbot.py:120 | every value is the start of a header with that label |
| PlotPointsParser.SectionOffsetIsLast | chatbot/chatbot.py:120 | a label's value is the start of its last header |
| PlotPointsParser.Groups | chatbot/chatbot.py:119-120 | `[m.group(1) for m in matches]`; its properties are SectionKeysAreGroups and SectionOrderIsFirstSeen |
| PlotPointsParser.SectionKeysAreGroups | chatbot/chatbot.py:120 | a label is a key of `sections` exactly when some header has it |
| PlotPointsParser.SectionOrderIsFirstSeen | chatbot/chatbot.py:120 | every key is a matched label, and for any two keys the earlier one's first header comes before the later one's first header |
| PlotPointsParser.FindSep | chatbot/chatbot.py:132 | the offset of the first `**`, or none |
| PlotPointsParser.NoSepNotContains | chatbot/chatbot.py:132 | no `**` at any offset means the text does not contain `**` |
| PlotPointsParser.LastPiece | chatbot/chatbot.py:132 | `split('**')[-1]` holds no `**` at any offset |
| PlotPointsParser.LastPieceIsTail | chatbot/chatbot.py:132 | the last piece is all of the text, or exactly what follows some `**` |
| PlotPointsParser.LastPieceHasNoSep | chatbot/chatbot.py:132 | the last piece does not contain `**` |
| PlotPointsParser.LastPieceOfTripleStar | chatbot/chatbot.py:132 | cuts are made left to right: the last piece of "a***" is "*" |
| PlotPointsParser.Normalize | chatbot/chatbot.py:129 | `section.strip().lower().replace(' ', '_')`; its properties are NormalizeShape, NormalizeIdempotent and the heading lemmas |
| PlotPointsParser.NormalizeShape | chatbot/chatbot.py:129 | a section key holds neither a space nor an upper-case letter |
| PlotPointsParser.NormalizeIdempotent | chatbot/chatbot.py:129 | normalising a section key again changes nothing |
| PlotPointsParser.DeathHeadingNormalizes | chatbot/chatbot.py:129 | the heading "Death and Tragic Events" gives the key `death_and_tragic_events` |
| PlotPointsParser.SummaryHeadingNormalizes | chatbot/chatbot.py:129 | the heading " Chapter Summary ", spaces around it included, gives the key `chapter_summary` |
| PlotPointsParser.EmptyFields | chatbot/chatbot.py:104-113 | the eight keys, each "" |
| PlotPointsParser.SectionEnd | chatbot/chatbot.py:127 | `end_pos` lies inside the reply |
| PlotPointsParser.SectionValue | chatbot/chatbot.py:126-132 | the value for the i-th key: the stripped last `**` piece of the reply from its offset to the next key's offset (or the end) |
| PlotPointsParser.FillUpTo | chatbot/chatbot.py:125-133 | assignments to keys outside the eight are dropped, so the key set stays the eight |
| PlotPointsParser.SectionValueClean | chatbot/chatbot.py:128-132 | every section value holds no `**` and has no whitespace at either end |
| PlotPointsParser.FillValues | chatbot/chatbot.py:125-133 | every stored value is "" or the value of an iteration whose key it is |
| PlotPointsParser.FillLastWins | chatbot/chatbot.py:125-133 | a key's value comes from the last iteration that names it |
| PlotPointsParser.StripValues | chatbot/chatbot.py:135-136 | the final loop: every value stripped, the keys kept |
| PlotPointsParser.StripValuesOfClean | chatbot/chatbot.py:135-136 | stripping values that are already stripped changes nothing |
| PlotPointsParser.FinalStripChangesNothing | chatbot/chatbot.py:135-136 | the final strip loop is a no-op on what the section loop left |
| PlotPointsParser.Parse | chatbot/chatbot.py:99-139 | the whole parse: headers, the `sections` dict, the section loop over the eight-key dict, and the final strip; its properties are ParseShape, ParseValue, ParseFieldHasHeader and ParseWithoutStars |
| PlotPointsParser.ParseShape | chatbot/chatbot.py:104-139 | the result has exactly the eight keys and every value is clean |
| PlotPointsParser.ParseFieldHasHeader | chatbot/chatbot.py:116-133 | a non-empty field has a header whose label normalises to its key |
| PlotPointsParser.ParseValue | chatbot/chatbot.py:125-132 | a field's value is the section of the last dict key that normalises to it |
| PlotPointsParser.ParseWithoutStars | chatbot/chatbot.py:116-136 | a reply without `*` gives eight empty fields |
| PlotPointsParser.NoStarsNoHeaders | chatbot/chatbot.py:116-119 | where there is no `*`, no header is found |
| PlotPointsParser.SkipNoStars | chatbot/chatbot.py:116-119 | offsets without `*` start no header: the search passes them |
| PlotPointsParser.LastPieceOfSection | chatbot/chatbot.py:132 | `split('**')[-1]` of a whole section `**label:**body`, `body` without `*`, is `body` |
| PlotPointsParser.SectionHeaders | chatbot/chatbot.py:116-119 | a whole section at an offset yields its header there, and the search resumes after its body |
| PlotPointsParser.TwoSectionHeaders | chatbot/chatbot.py:116-119 | a reply of two whole sections has exactly their two headers, at 0 and at the second's offset |
| PlotPointsParser.TwoSectionKeys | chatbot/chatbot.py:120 | with different labels, `sections` holds both, in reply order, at those offsets |
| PlotPointsParser.TwoSectionValues | chatbot/chatbot.py:125-132 | each of the two sections' values is its body, stripped |
| PlotPointsParser.UnlabelledKeyEmpty | chatbot/chatbot.py:104-133 | a key that no header's label normalises to stays "" |
| PlotPointsParser.ParseTwoSections | chatbot/chatbot.py:99-139 | two whole sections whose labels normalise to two different keys: those keys hold their bodies stripped and the other six stay "" |
| PlotPointsParser.ParseWorkedReply | chatbot/chatbot.py:99-139 | `"**Decisions:** She left.\n**Conflicts:** Man vs self."` parses to `decisions` = "She left.", `conflicts` = "Man vs self." and "" elsewhere |
| PlotPointsParser.WorkedKeys | chatbot/chatbot.py:129 | `Decisions` and `Conflicts` normalise to `decisions` and `conflicts` |
| PlotPointsParser.CollectSections | chatbot/chatbot.py:120 | the loop builds exactly the `sections` dict of the headers |
| PlotPointsParser.FillFields | chatbot/chatbot.py:125-133 | the section loop computes exactly FillUpTo of the keys and values |
| PlotPointsParser.ParsePlotPointsResponse | chatbot/chatbot.py:99-139 | the method (search, dict, section loop, strip loop) computes exactly the reference parse |
| PlotPoints.ChapterNumber | chatbot/chatbot.py:77 | positive exactly when the chapter is listed, and then one more than its first position |
| PlotPoints.Record | chatbot/chatbot.py:79-91 | the `PlotPoint` built from the book, the chapter, its number and `get` of each of the eight keys |
| PlotPoints.Decide | chatbot/chatbot.py:71-96 | rejected exactly when the reply contains "Error", with `{"error": reply}`; otherwise the data is the parse of the reply |
| PlotPoints.RecordMatches | chatbot/chatbot.py:77-91 | what a correct record is: book and chapter as asked, the chapter numbered from 1 by its first listed position when listed and 0 otherwise, field i the clean value of key i |
| PlotPoints.GeneratedRecord | chatbot/chatbot.py:74-91 | a generated record names the book and chapter, is numbered one more than the first listed position of the chapter (0 when unlisted), and field i holds the clean parsed value for key i |
| PlotPoints.RecordFields | chatbot/chatbot.py:83-90 | field i of a record is `get` of the i-th key |
| PlotPoints.EmptyRecord | chatbot/chatbot.py:79-91 | the record built from eight empty values has "" in every field |
| PlotPoints.PlotPointStore.GeneratePlotPoints | chatbot/chatbot.py:71-96 | returns Decide's outcome and appends to the saved log exactly the generated record, once; a rejected reply saves nothing |
| PlotPoints.PlainReplyIsSaved | chatbot/chatbot.py:71-95 | a reply with neither `*` nor `E` is not rejected and gives an all-empty record |
| PlotPoints.SentinelIsSaved | chatbot/chatbot.py:69-95 | the failure message of `execute_prompt` is not rejected: an all-empty record is built and saved |
| BagrutQA.SkipNewlines | chatbot/chatbot.py:148 | drops exactly the run of newlines at the front |
| BagrutQA.SplitRuns | chatbot/chatbot.py:148 | `re.split(r'\n+', s)`: the pieces between maximal newline runs, with an empty piece for a run at either end; at least one piece |
| BagrutQA.Collapse | chatbot/chatbot.py:148 | the reply with every newline run shortened to one newline, the partner of SplitRuns in SplitRunsJoin |
| BagrutQA.SplitRunsJoin | chatbot/chatbot.py:148 | joining the pieces with single newlines gives the reply with each newline run shortened to one |
| BagrutQA.SplitRunsNoNewline | chatbot/chatbot.py:148 | no piece holds a newline |
| BagrutQA.SplitRunsChars | chatbot/chatbot.py:148 | every character of a piece comes from the reply |
| BagrutQA.SplitRunsSingleLine | chatbot/chatbot.py:148 | a reply without a newline is a single piece |
| BagrutQA.QAPairs | chatbot/chatbot.py:150-166 | the list the loop builds: one pair per piece whose `strip()` is non-empty, with the unstripped piece as the question |
| BagrutQA.QAPairsExact | chatbot/chatbot.py:150-166 | the pairs are the non-blank pieces in order, each asked unstripped with its own answer, and no non-blank piece is skipped |
| BagrutQA.AllBlankNoPairs | chatbot/chatbot.py:151 | only blank pieces give no pairs |
| BagrutQA.AllSpaceIsBlank | chatbot/chatbot.py:151 | a piece of whitespace strips to "" |
| BagrutQA.BlankReplyGivesNothing | chatbot/chatbot.py:148-166 | a reply of whitespace only gives no questions |
| BagrutQA.SentinelHasOneLine | chatbot/chatbot.py:61 | the failure message has no newline and is not blank |
| BagrutQA.SentinelIsAsked | chatbot/chatbot.py:147-166 | when the questions prompt failed, the failure message is asked as the only question |
| BagrutQA.GenerateBagrutQA | chatbot/chatbot.py:148-168 | the loop builds exactly the pairs of the split reply |
| Text.Contains | functions/book.py:42 | Python's `sub in text`: `sub` is a prefix of some suffix of `text` |
| Text.ContainsAt | functions/book.py:42 | a substring at an offset is contained |
| Text.ContainsHasOffset | functions/book.py:42 | a contained substring occurs at some offset |
| Text.NotContainsWithoutFirstChar | chatbot/chatbot.py:71 | a text lacking the first character of `sub` does not contain `sub` |
| Text.IsSpace | chatbot/chatbot.py:151 | the ASCII characters `str.isspace` accepts: tab to carriage return and 0x1C to space |
| Text.Strip | chatbot/chatbot.py:129 | `str.strip()`: leading, then trailing whitespace dropped; characterised by StripSlice |
| Text.StripSlice | chatbot/chatbot.py:132 | `strip()` is the slice between the leading and trailing whitespace, with non-space ends |
| Text.StripClean | chatbot/chatbot.py:132 | a stripped string is empty or has non-space ends |
| Text.StripOfClean | chatbot/chatbot.py:136 | a string with non-space ends strips to itself |
| Text.StripContains | chatbot/chatbot.py:132 | a substring of the stripped string is a substring of the original |
| Text.StripIdempotent | chatbot/chatbot.py:132-136 | stripping twice is stripping once |
| Text.IndexOf | functions/book.py:54 | the position of the first occurrence |

## Left out

- PDF access (functions/book.py:7-29, and `pdfplumber.open` / `extract_text` in `find_chapter`): the document is an input, one extracted string per page. `get_book_chapter` and `get_possible_chapter_list` are only wrappers around that reading.
- The HTTP request, environment variables and JSON decoding in `execute_prompt`: a reply is `Ok(text)` for status 200 and `Fail` for any other status. The API key, URL and payload are not modelled.
- The `except` branch of `execute_prompt` (chatbot/chatbot.py:57-60). The model assumes every 200 reply is JSON that carries its text. A 200 reply that is not JSON makes `response.json()` raise at line 48, and `print(response.json())` at line 60 raises again, so the exception escapes. A 200 reply that is JSON but lacks the keys is caught and the loop runs again with `tries` and `response` unchanged, so the call never ends.
- Transport exceptions in `execute_prompt`. One raised by the first POST (chatbot/chatbot.py:43) escapes the call. One raised by a retry POST (line 54) is caught by the bare `except`: unless printing the previous reply's JSON raises, the loop POSTs again with `tries` unchanged, so transport failures are retried without limit.
- `chapters_to_list` and the prompt builders: they are in modules that are not part of this model. So `get_chapter_list` (chatbot/chatbot.py:19-22) is modelled only through its `execute_prompt` call.
- `Decide` does not compose the calls at chatbot/chatbot.py:65-69. `find_chapter` and `execute_prompt` are modelled on their own, by the Book and PromptExecutor modules. `Decide` takes the chapter list and the plot-points reply as inputs. One consequence of the composition is stated apart, as `Book.UnlistedTitleNeedsCache`. A chapter missing from the list raises `KeyError` at functions/book.py:51, inside the `find_chapter` call at chatbot/chatbot.py:66, unless (book, chapter) is cached. So `chapter_number == 0` at chatbot/chatbot.py:77 is reached only on a cache hit.
- `get_prompt`, `save_prompt`, `get_chapter`, `save_chapter` and `save` are in functions/prompt_caching.py, which is not part of this model. They are modelled as maps with exact-key lookup, and `save` as appending to a ghost log.
- `generate_chapter_bagrutQnA` (chatbot/chatbot.py:171-200): it calls `generate_plot_points` with three arguments where two are declared, so it always raises a TypeError.
- `print` and `logging` output.
- Non-ASCII whitespace and case mapping: `strip()` removes the ASCII `isspace` set, and `lower()` maps `A`-`Z` only. The `\s` of the regex is the same ASCII set.
- BagrutQA.QAPairs: each answer is `answerFor(question)`, a fixed function. The caching and retries of `execute_prompt` on the answer prompt, and the prompt text itself, are not modelled.
- Book.FirstChapterStartsOnLastPage: this requires the first two listed titles to differ. The equal case is `Book.FirstChapterRepeated`: the two titles share one entry, start and end are both the last page, and the text is that page followed by one space.
- The `index == len(chapter_list) - 1` branch of `find_chapter` (functions/book.py:59-60) is written out in `LocateChapter` but is dead: line 57 raises before it for the last title, as `LastChapterNeverFound` states.
