# Newsletter content pipeline, modelled in Dafny

This project models the content pipeline of `NewsCrew` in
`src/crew/news_crew.py`, a tool that builds and e-mails a weekly newsletter
about technology and UX design. One run does five things:

1. It searches news for two fixed queries, "technology trends" and
   "user experience design UX".
2. It extracts a JSON list of articles from each answer with a fail-soft
   extractor. The extractor takes the greedy, DOTALL `\[.*\]` match and
   returns `[]` on every failure.
3. It summarises every article in discovery order, technology first. An
   article is dropped when the summary tool raises, or when its answer
   starts with "Erro" or "Site", or mentions "indisponível" once
   lower-cased. A kept article's category is "tech" exactly when its
   position is below the number of technology articles.
4. It translates every kept title and summary. Text longer than 500
   characters is split on `". "`. Blank pieces are dropped, the rest are
   stripped and translated one by one, and the translations are rejoined
   with `". "`. If any call raises, the original text is used.
5. It lays the entries out as HTML rows, hands the page to the e-mail tool,
   and returns a success text with the entry count, whatever text the e-mail
   tool returned. The layout is:
   - the technology header row, when there are technology entries;
   - the technology rows;
   - the UX header row, inserted at index `len(tech)`, when there are UX
     entries;
   - the UX rows.

The run stops early, returning `None`, when no article was found and when
no article survived summarisation.

The model is functional, with one module per concern:

- `Wrappers`: `Option`, and `Attempt` for a call that returns or raises.
- `Text`: the Python string operations used. These are `split`, `join`,
  `strip`, `startswith`, `in`, `lower` and `str(int)`.
- `Extractor`: the regex span and `_extract_json_from_string`.
- `Translator`: `_translate_text`.
- `Digest`: article and entry records.
- `Summarisation`: step 3.
- `TranslationStage`: step 4.
- `Assembly`: the HTML layout.
- `Pipeline`: `run`.

The search, JSON parsing, summary, translation and e-mail tools are
function parameters. A run records every call it makes to them in order, so
"no translation or e-mail after an early stop" is a statement about that
trace. The markup is a `Markup` record:

- `Assembly.SourceMarkup` holds the source's strings verbatim.
- `Pipeline.Run` works with any markup.
- `Pipeline.NewsletterRun` is the run with the source's markup.

The one fact about the literals the layout needs is that neither header row
can be mistaken for an article row. `Assembly.SourceHeadersDistinct` proves
it for the source's strings.

Four behaviours of the code are easy to misread, and the model states them as
the code has them:

- An echoing translator does not give long text back unchanged. Each piece
  between `". "` separators is stripped, and blank pieces are dropped before
  the rejoin (`src/crew/news_crew.py:44-48`). The comment at line 53 promises
  the original text only when a call raises (`Translator.EchoRoundTrip`,
  `Translator.ChunklessTextVanishes`).
- The error test at line 105 (commented at line 104 as checking whether the
  summary holds an error) does not catch the summary tool's answers for pages
  with too little or no usable text (`src/tools/summary_tool.py:27` and `:36`).
  Such an article is kept with that answer as its summary, although the
  comment at line 162 says every summary left is valid
  (`Summarisation.FailureTextIsKept`).
- The run returns the same success text whatever text the e-mail tool returned.
  The answer is only printed at line 201 (`Pipeline.RunIgnoresDelivery`,
  `Pipeline.RunFinishedReport`).
- Every extracted item is read through the keys `title` and `url` without a
  check, and lines 97-98 do so outside any `try`. The model therefore makes
  these keys a precondition of the run (`Digest.AllHaveFields`).

## Model

| member | source | states |
|---|---|---|
| Text.TrimStart | src/crew/news_crew.py:45-46 | the left-stripped text is a suffix of the input, everything dropped is whitespace, and it does not start with whitespace |
| Text.TrimEnd | src/crew/news_crew.py:45-46 | the right-stripped text is a prefix of the input, everything dropped is whitespace, and it does not end with whitespace |
| Text.Strip | src/crew/news_crew.py:45-46 | `strip()` removes whitespace from the two ends and nothing else: the result occurs in the input at an offset with only whitespace before and after it, and has whitespace at neither end |
| Text.StripEmptyIffBlank | src/crew/news_crew.py:45 | `sentence.strip()` is empty, so falsy, exactly when the piece is all whitespace |
| Text.StripFixedIffUnpadded | src/crew/news_crew.py:46 | stripping leaves a piece unchanged exactly when it neither starts nor ends with whitespace |
| Text.ContainsIffOccurs | src/crew/news_crew.py:105 | Python's `needle in s` holds exactly when the needle occurs at some index of `s` |
| Text.LowerChar | src/crew/news_crew.py:105 | `lower()` maps an ASCII or Latin-1 capital (`A`-`Z`, `À`-`Þ` except `×`) to its small letter, 32 code points up; every other character stays as it is; the result is never such a capital |
| Text.Lower | src/crew/news_crew.py:105 | the lower-cased text holds no capital letter, and every character that is not a capital stays where it was |
| Text.LowerIdempotent | src/crew/news_crew.py:105 | lower-casing twice is lower-casing once |
| Text.LowerAppend | src/crew/news_crew.py:105 | lower-casing two texts joined is joining the two lower-cased texts |
| Text.AbsentLetterNotContains | src/crew/news_crew.py:105 | text holding neither case of some letter of the needle does not contain the needle once lower-cased |
| Text.SoleLetterNotContains | src/crew/news_crew.py:105 | when one character is the only one lower-casing to a letter of the needle and its neighbour mismatches, the lower-cased text does not contain the needle |
| Text.FindFrom | src/crew/news_crew.py:42 | the separator's leftmost occurrence at or after a position, or none at all |
| Text.Split | src/crew/news_crew.py:42 | `text.split('. ')` always yields at least one piece |
| Text.JoinSplit | src/crew/news_crew.py:42-48 | joining the pieces of a split with the same separator gives the text back |
| Text.SplitPiecesFree | src/crew/news_crew.py:42 | no piece of a split contains the separator |
| Text.NoOccurrenceNotContains | src/crew/news_crew.py:105 | text in which the needle occurs at no index does not contain it |
| Text.NatToString | src/crew/news_crew.py:203 | `str(len(...))` is a non-empty string of decimal digits with no leading zero; it is `"0"` exactly for zero |
| Text.NatToStringRoundTrip | src/crew/news_crew.py:203 | reading the digits of `str(n)` back gives `n` |
| Extractor.LastCloseBelow | src/crew/news_crew.py:27 | the greedy `.*` ends at the last `]` after the match start, or nowhere when there is none |
| Extractor.SearchFrom | src/crew/news_crew.py:27 | `re.search` matches exactly when some `[` has a `]` after it; the match starts at the first such `[` and ends at the last `]` |
| Extractor.Candidate | src/crew/news_crew.py:27-30 | there is no match exactly when no `[` is followed by a `]`; otherwise the match is the text from the first `[` to the last `]` |
| Extractor.Extract | src/crew/news_crew.py:25-33 | without a bracket pair the result is `[]`; when the parser accepts the matched span the result is exactly its list, and when it rejects the span the result is `[]` |
| Extractor.ExtractIgnoresProse | src/crew/news_crew.py:27-31 | prose before the first `[` and after the last `]` is ignored: only the bracketed span reaches the parser |
| Extractor.ExtractFailsSoft | src/crew/news_crew.py:29-33 | a span the parser rejects gives `[]`, never an error |
| Translator.SentencesOne | src/crew/news_crew.py:44-46 | a single piece gives no chunk when it is blank and its stripped text otherwise |
| Translator.SentencesAppend | src/crew/news_crew.py:44-46 | the chunks of two piece lists joined are the chunks of the first, then those of the second |
| Translator.SentencesAreStripped | src/crew/news_crew.py:45-46 | every chunk sent is non-empty and has no surrounding whitespace |
| Translator.ChunkIsStripped | src/crew/news_crew.py:45-46 | a non-blank piece strips to a non-empty chunk without surrounding whitespace |
| Translator.AllReturnCons | src/crew/news_crew.py:44-47 | a list of chunks translates without raising exactly when its head and its tail do |
| Translator.TranslationsCons | src/crew/news_crew.py:44-47 | translating a list of chunks is translating its head, then its tail |
| Translator.ChunkLoopStep | src/crew/news_crew.py:44-47 | a chunk whose translation returns, put in front of a loop run, keeps the loop's specification |
| Translator.TranslatePiecesSpec | src/crew/news_crew.py:43-53 | the sentence loop calls the service once per chunk, in order, until one raises; it succeeds exactly when no call raises, and then gives the chunks' translations in order; when it fails, its last call is the one that raised and every earlier call returned |
| Translator.TranslateText | src/crew/news_crew.py:35-53 | text of at most 500 characters is sent whole in one call; longer text is sent as a prefix of its chunks; if any call raised, the original text comes back |
| Translator.TranslateShortText | src/crew/news_crew.py:40-53 | text of at most 500 characters (500 included) gets one call on the whole text; the answer is the translation, or the text itself when the call raised |
| Translator.TranslateLongText | src/crew/news_crew.py:40-53 | for text over 500 characters with no raising call, the calls are exactly the chunks and the result is their translations joined with `". "`; otherwise the text comes back, after calls on a prefix of the chunks whose last call raised and whose earlier calls returned |
| Translator.AllReturnAppend | src/crew/news_crew.py:44-47 | every call on two chunk lists joined returns exactly when every call on each list does |
| Translator.TranslateTextRequests | src/crew/news_crew.py:35-50 | when no call raises, the calls `_translate_text` makes are exactly the text's chunks: the whole text up to 500 characters, its stripped non-blank pieces beyond |
| Translator.UnavailableFallsBack | src/crew/news_crew.py:51-53 | with a service that always raises, any text that is sent at all comes back unchanged |
| Translator.ChunklessTextVanishes | src/crew/news_crew.py:42-48 | long text whose pieces are all blank makes no call and becomes the empty string |
| Translator.JoinLength | src/crew/news_crew.py:48 | a join is as long as its pieces plus one separator between each two |
| Translator.StripShortensPadded | src/crew/news_crew.py:46 | stripping a padded piece makes it strictly shorter |
| Translator.SentencesKeepClean | src/crew/news_crew.py:44-46 | when no piece is blank or padded, the chunks are the pieces themselves |
| Translator.SentencesWeight | src/crew/news_crew.py:44-46 | chunking never adds characters, and loses some as soon as a piece is blank or padded |
| Translator.EchoRoundTrip | src/crew/news_crew.py:40-50 | with an echoing service, short text always comes back unchanged; long text does exactly when no piece of its split is blank or padded |
| TranslationStage.TranslateEntries | src/crew/news_crew.py:134-153 | one entry out per entry in, in order, with url and category kept and title and summary each translated by `_translate_text` |
| TranslationStage.TranslateEntriesRequests | src/crew/news_crew.py:134-153 | when no call raises, the stage sends each entry's title chunks, then its summary chunks, entry after entry, and nothing else |
| TranslationStage.TranslateEntriesFallback | src/crew/news_crew.py:134-153 | when every translation call raises, the entries come back unchanged, provided each title and summary is sent at all |
| Summarisation.NotFailureMarker | src/crew/news_crew.py:105 | text starting with neither "E" nor "S" and not mentioning "indisponível" in any case passes the marker |
| Summarisation.MarkerCatchesAnyCase | src/crew/news_crew.py:105 | a summary that holds "indisponível" in any mix of capitals and small letters, anywhere, is a failure marker |
| Summarisation.CapitalMarkerIsCaught | src/crew/news_crew.py:105 | a summary starting with neither "Erro" nor "Site" that holds "INDISPONÍVEL" in capitals is a failure marker |
| Summarisation.TooShortMessageIsKept | src/tools/summary_tool.py:35-36 | the summary tool's "page too short" answer passes the failure marker |
| Summarisation.NoTextMessageIsKept | src/tools/summary_tool.py:26-27 | the summary tool's "no meaningful text" answer passes the failure marker |
| Summarisation.FailureTextIsKept | src/crew/news_crew.py:103-113 | an article whose summary is either of those two answers is kept, with that answer as its summary |
| Summarisation.KeptFrom | src/crew/news_crew.py:94-116 | the positions of the surviving articles are in range and strictly increasing, and hold exactly the articles whose call returned a text that is not a failure marker |
| Summarisation.EntriesOfCons | src/crew/news_crew.py:113 | appending the entry of an article in front keeps entries and positions in step |
| Summarisation.SummariseFromSpec | src/crew/news_crew.py:94-116 | entry `k` of the output is the summary of the `k`-th surviving article |
| Summarisation.SummariseSpec | src/crew/news_crew.py:94-116 | the output is the in-order list of surviving articles: same title and url, the returned summary (not a failure marker), and category tech exactly when the position is below the tech count |
| Summarisation.SummariseEmptyIffAllDropped | src/crew/news_crew.py:94-120 | no summary survives exactly when every article was dropped |
| Assembly.SourceHeadersDistinct | src/crew/news_crew.py:175-187 | the source's two header rows differ from each other and from the start of every article row |
| Assembly.OfCategoryMembers | src/crew/news_crew.py:166-167 | filtering by category keeps exactly the entries of that category |
| Assembly.OfCategoryAppend | src/crew/news_crew.py:166-167 | filtering commutes with concatenation, so kept entries stay in input order |
| Assembly.PartitionSizes | src/crew/news_crew.py:166-167 | the tech and UX lists together are as long as the entries |
| Assembly.Insert | src/crew/news_crew.py:179 | `list.insert(i, x)` puts `x` at index `i` and only there: removing index `i` again gives the list back, and the elements are the old ones plus one `x` |
| Assembly.ConcatAppend | src/crew/news_crew.py:183 | `"".join` of two lists appended is the two joins appended |
| Assembly.InsertThenPrepend | src/crew/news_crew.py:179-187 | inserting the second header after the first group and then prepending the first header gives the join of header, group, header, group |
| Assembly.BodyIsLayout | src/crew/news_crew.py:160-187 | the body is the join of: tech header if there are tech entries, tech rows, UX header if there are UX entries, UX rows |
| Assembly.BlockIsNotHeader | src/crew/news_crew.py:175-187 | with distinct headers, no article row equals a header row |
| Assembly.RowsAreNotHeaders | src/crew/news_crew.py:174-181 | no row of a category's entries is a header row |
| Assembly.LayoutHeaders | src/crew/news_crew.py:173-187 | the layout holds the tech header exactly when some entry is tech, and the UX header exactly when some entry is UX |
| Assembly.LayoutSize | src/crew/news_crew.py:166-187 | the layout has one row per entry plus one per non-empty section |
| Assembly.LayoutRows | src/crew/news_crew.py:174-181 | every row of the layout that is not a header is the row of one of the entries |
| Pipeline.Run | src/crew/news_crew.py:62-203 | the run stops with nothing found exactly when both searches yield no article, and it reaches the e-mail tool exactly when it finishes |
| Pipeline.SendComesLast | src/crew/news_crew.py:95-200 | a trace of searches and summaries, then translations, then one send, ends with that send and holds no other |
| Pipeline.RunCalls | src/crew/news_crew.py:62-200 | the run starts with the two searches; an early stop makes no translation or e-mail call; a finished run's last call, and only that one, sends to the recipient |
| Pipeline.RunSummaryCalls | src/crew/news_crew.py:95-120 | after the two searches, a run that found articles calls the summary tool once per article on its url, technology articles first; a run that keeps none stops right after those calls |
| Pipeline.RunTranslateCalls | src/crew/news_crew.py:134-200 | when no translation call raises, a finished run's calls after the summaries are exactly the kept entries' title and summary chunks, entry by entry, followed by the single send |
| Pipeline.RunStopsWhenNothingSurvives | src/crew/news_crew.py:118-120 | the run stops after summarising exactly when articles were found but every one was dropped |
| Pipeline.RunFinishedReport | src/crew/news_crew.py:189-203 | a finished run reports success with the number of surviving articles and sends the page of the translated entries to the recipient |
| Pipeline.RunIgnoresDelivery | src/crew/news_crew.py:200-203 | the text the e-mail tool returns changes neither the outcome nor the calls of a run |

## Left out

- Printing and console narration are left out. They have no effect on the result.
- The crewai agents built at the start of `run` are left out. They are never used.
- `src/main.py` is not part of this model.
- The internals of the search, summary and e-mail tools are function parameters: HTTP, NewsAPI, the LLM chain and SendGrid. The search tool is taken never to raise, as it answers `"[]"` on any error.
- `json.loads` is a parameter returning the list or nothing. Articles are string-to-string maps, so a JSON `null` title is not modelled.
- `GoogleTranslator.translate` is a parameter that returns a string or raises. A `None` answer, which would make `join` raise, is not modelled.
- The `GoogleTranslator` constructor is taken never to raise. If it did, the text would come back without any call.
- The `valid_summaries` count at line 123 is left out: it is only printed.
- The re-check at lines 129-131 is left out: it cannot be reached after the check at line 118.
- The e-mail tool is taken never to raise. It builds its `Mail(...)` message before its own `try` (`src/tools/email_tools.py:19-26`), and `run` calls it outside any `try` (`src/crew/news_crew.py:200`). An exception there would end `run` before it returns the success text, so the success text and `Pipeline.RunIgnoresDelivery` hold only for answers the tool returns.
- `print(email_result)` is left out: it is the only use of the e-mail tool's answer, and it is output only.
- The markup is taken as given. No HTML escaping is done, as in the source.
- Text.LowerChar: models `str.lower()` only for ASCII and Latin-1 capitals. Other scripts' capitals stay unchanged, which is enough for the marker "indisponível".
- Text.Lower: keeps the length of its input. Python's `lower()` can lengthen text (`"İ".lower()` has two characters), which the model does not do.
- Text.Split: its own contract only says there is at least one piece. Its content is stated by `Text.JoinSplit`, `Text.SplitPiecesFree` and `Text.FindFrom`.
- Translator.Sentences: its own contract only bounds the number of chunks. Its body is the filter-and-strip reference the sentence loop is proved against (`Translator.TranslatePiecesSpec`). What the chunks are is stated by `Translator.SentencesOne` with `Translator.SentencesAppend`, and by `Translator.SentencesAreStripped`, `Translator.SentencesKeepClean` and `Translator.SentencesWeight`.
- Each tool is a function of its arguments, so two calls with the same argument get the same answer. A real service can answer differently each time, for example for a url found by both searches, a title equal to its summary, or a sentence that repeats. The model does not cover that.
- Pipeline.Run: its own contract states only how it ends. The calls, the report and the sent page are stated by the `Pipeline.Run…` lemmas.
