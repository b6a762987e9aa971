# Academic tutor assistant: the store, the agent's tools and the arXiv client

This project models the sequential core of a chat assistant for academic
research. The assistant has three parts, and the model follows them module by
module:

- **`DatabaseManager`** (`database.dfy`, module `Database`). The SQLite store
  is modelled as in-memory tables.
  - `search_history` and `chat_sessions` are append-only.
  - `user_interests` is a per-(user, topic) counter that `INSERT OR REPLACE`
    bumps by one.
  - `cached_papers` is a table keyed by `paper_id`. Its `INSERT OR REPLACE`
    clears the summary.
  - Each table is a sequence of rows in `id` order. `INSERT OR REPLACE` deletes
    the conflicting row and appends the new one.
  - `CURRENT_TIMESTAMP` is an integer field `clock`. The environment advances
    it, and every write stamps rows with it.
  - Reads are `ORDER BY … DESC LIMIT n`. SQLite does not fix the order of equal
    keys, so each read promises `Ordering.IsTopRows` of its result: descending
    order, drawn from the matching rows, the right length, and no row left out
    that ranks above a row kept.
- **`AcademicAPIClient`** (`api_integrations.dfy`, module `ApiIntegrations`).
  - Finding a paper's arXiv id from its cached URL (the `[^/?]+` pattern).
  - `download_paper`, over a map from path to file size and an abstract PDF
    response.
  - The arXiv query string.
  - The mapping of parsed Atom entries to paper records, with ids
    `paper_` + 8 hex digits of an uninterpreted md5.
  - `search_papers` dispatch.
- **`AcademicTutorAgent`** (`tutor_agent.dfy`, module `TutorAgent`).
  - The per-user transcript kept by `process_message`, and the reply it builds
    from the model's output.
  - The four tools the language model may call: search, summary, history and
    interests. This includes their input parsing, their writes to the store and
    the text they return.
  - Topic extraction, and reading the `SUMMARY_GENERATED:` marker back.

Supporting modules:

- `Text`: Python's `strip`, `lower`, `title`, `split()`, `split(c)`, `find`,
  `in`, `join`, `int()` and `str()` on `seq<char>`.
- `Json`: `json.dumps` of a list of strings with `ensure_ascii`, and a decoder
  proved to invert it.
- `Ordering`: `ORDER BY … DESC LIMIT n`.
- `Wrappers`: `Option`, and a map that may fail.

What the program delegates to the outside world is a parameter of the model:

- the language model (`invokeAgent`);
- the summariser (`summarize`);
- the arXiv feed request and XML parser (`fetchFeed`, which returns parsed
  entries);
- the PDF request (`fetchPdf`);
- md5 (`md5Hex`);
- the not-shown mock search (`mockSearch`);
- the rendering of timestamps (`timestampText`).

Ghost counters (`feedFetches`, `pdfFetches`) record the calls, so "no provider
call" can be stated. The summariser's counter `summaryCalls` is a real field.
`summarize` is given the call number as well as the title and abstract, so two
calls for the same paper may answer differently, as a language model does.

Where the description and the code differ, the model follows the code:

- A summary is generated when the cached abstract is non-empty. The title is
  not checked (`tutor_agent.py:196`).
- The export pattern of the arXiv id (`api_integrations.py:53`) can never apply
  after the first pattern fails. `ApiIntegrations.ExportPatternSubsumed` proves
  this.
- An old-style id such as `hep-th/9901001v1` is stored whole by the search. The
  download's `[^/?]+` pattern truncates it to `hep-th`.
  `ApiIntegrations.AbsIdStopsAtSlash` proves this for every id with a '/', and
  `ApiIntegrations.OldStyleId` for this one.

## Model

| member | source | states |
|---|---|---|
| Ordering.TopRowsSpec | database.py:95-101 | `ORDER BY key DESC LIMIT n` yields rows in descending order, drawn from the input, of length `min(n, count)` (all rows for a negative `n`), and every row left out ranks no higher than every row kept |
| Database.ReplaceSpec | database.py:85 | `INSERT OR REPLACE` of a row with key `k` keeps keys unique, makes that row the only one with key `k`, and leaves the row found for every other key as it was |
| Database.UpsertInterestSpec | database.py:81-90 | after an interest update there is exactly one row for (user, topic): its score is the old score + 1, or 1 when there was none, and its `last_accessed` is now; every other (user, topic) keeps its row |
| Database.UpsertInterestMonotone | database.py:81-90 | an interest update never lowers any stored score, nor removes its row |
| Database.NewPaperRow | database.py:129-141 | the row `cache_paper` writes has no summary, is stamped now, and its authors column decodes to the given author list, or to `[]` when none is given |
| Database.CachePaperSpec | database.py:126-165 | after `cache_paper(p)`, paper ids stay unique, and `p.id` reads back with p's fields (missing keys default to ""/[]/0) and no summary; every other paper reads as before |
| Database.UpsertPaperStores | database.py:126-142 | caching keeps ids unique and stores a row under the paper's id |
| Database.UpsertPaperOther | database.py:126-142 | caching a paper does not change what another id reads |
| Database.WithSummary | database.py:176-183 | `UPDATE … SET summary` keeps the table's length and changes only the summary of rows with the id |
| Database.SaveSummarySpec | database.py:176-183 | after saving a summary, the paper with the id reads back with it and all other fields as before; other ids read as before |
| Database.SaveSummaryAbsent | database.py:176-183 | saving a summary for an id with no row leaves the table unchanged |
| Database.UserHistory | database.py:96-98 | the history rows of a user are exactly that user's searches |
| Database.UserInterests | database.py:113-115 | the interest rows of a user are exactly that user's topics |
| Database.DatabaseManager.constructor | database.py:8-10 | a new store has four empty tables |
| Database.DatabaseManager.AdvanceClock | database.py:26 | the clock that `CURRENT_TIMESTAMP` reads moves forward by `dt`; the tables are unchanged |
| Database.DatabaseManager.LogSearch | database.py:72-79 | appends exactly one row (user, query, search type defaulting to "academic", now) |
| Database.DatabaseManager.UpdateUserInterest | database.py:81-90 | the interests table becomes the upsert of (user, lower-cased topic) at the current clock |
| Database.DatabaseManager.GetUserSearchHistory | database.py:92-107 | the user's searches newest first, at most `limit` (default 20), as top rows by timestamp |
| Database.DatabaseManager.GetUserInterests | database.py:109-124 | the user's topics by score, then `last_accessed`, descending, at most `limit` (default 10) |
| Database.DatabaseManager.CachePaper | database.py:126-142 | the papers table becomes the replace-on-conflict upsert of the paper at the current clock |
| Database.DatabaseManager.GetCachedPaper | database.py:144-165 | None (the empty dict) exactly when no row has the id; otherwise the record of a row with that id, authors decoded |
| Database.DatabaseManager.DebugCachedPapers | database.py:167-173 | id and title of the ten most recently cached papers, newest first |
| Database.DatabaseManager.SavePaperSummary | database.py:176-183 | the papers table becomes `WithSummary` of the old table |
| Database.DatabaseManager.LogChatSession | database.py:185-192 | appends exactly one row; function calls are stored as JSON, None as `[]` |
| Database.ChatCallsRoundTrip | database.py:191 | the stored function calls decode back to the list logged, or to `[]` for None |
| Json.DecodeEncodeStringList | database.py:136 | `json.loads(json.dumps(xs)) == xs` for a list of strings, so authors round-trip through the cache |
| Json.EncodeItemsAscii | database.py:136 | `json.dumps` with `ensure_ascii` writes only printable ASCII characters |
| Text.JoinSplit | tutor_agent.py:151 | `"|".join(s.split("|")) == s`: splitting the tool input loses nothing |
| Text.WordsConcat | tutor_agent.py:250 | `split()` keeps every non-whitespace character of the query, in order |
| Text.TitleThenLower | tutor_agent.py:239 | a topic in title case lower-cases back to the topic |
| Text.ParseIntToString | api_integrations.py:281 | `int(str(n)) == n` for every integer |
| ApiIntegrations.IdRun | api_integrations.py:52 | the `[^/?]+` group is the longest prefix without '/' or '?' |
| ApiIntegrations.FirstMatch | api_integrations.py:57 | `re.search` finds the leftmost position where the pattern matches, or None when it matches nowhere |
| ApiIntegrations.SearchId | api_integrations.py:56-61 | a found id is non-empty and holds no '/' or '?' |
| ApiIntegrations.ArxivIdFromUrl | api_integrations.py:51-64 | the id from the first pattern that matches is non-empty, without '/' or '?' |
| ApiIntegrations.ArxivIdOf | api_integrations.py:28-68 | a found id is non-empty and holds no '/' or '?' |
| ApiIntegrations.ArxivIdFromUrlNone | api_integrations.py:51-64 | no id is found in a URL exactly when "arxiv.org/abs/" is followed by a character other than '/' and '?' nowhere in it |
| ApiIntegrations.ArxivIdFromUrlAt | api_integrations.py:51-61 | the id found is the longest run of characters other than '/' and '?' after the leftmost "arxiv.org/abs/" that is followed by one |
| ApiIntegrations.ArxivIdOfNone | api_integrations.py:37-64 | the lookup gives None exactly when no row has the paper id, its URL is empty, or no id follows "arxiv.org/abs/" in the URL |
| ApiIntegrations.ArxivIdOfAt | api_integrations.py:37-61 | for a cached paper, the id is the run after the leftmost "arxiv.org/abs/" of its URL that is followed by one |
| ApiIntegrations.AbsIdStopsAtSlash | api_integrations.py:52 | for any id `a` without '/' or '?', the id found in "https://arxiv.org/abs/" + a + "/" + b is `a` |
| ApiIntegrations.ExportPatternSubsumed | api_integrations.py:51-54 | whenever the export pattern matches, the first pattern matches too |
| ApiIntegrations.OldStyleId | api_integrations.py:52 | the id found in `https://arxiv.org/abs/hep-th/9901001v1` is `hep-th` |
| ApiIntegrations.SafeFilename | api_integrations.py:91 | the filename is the id with '/' and ':' replaced by '_', plus ".pdf", and contains neither character |
| ApiIntegrations.JoinPath | api_integrations.py:92 | the joined path ends with the file name |
| ApiIntegrations.ResponseStep | api_integrations.py:108-167 | after the request, only the target path may be written or removed, and every other file keeps its size; a success names the paper and the URL, and its size, at least 1024, is that of the file stored at the target path |
| ApiIntegrations.HttpErrorText | api_integrations.py:111 | `raise_for_status` raises exactly for a status from 400 to 599 |
| ApiIntegrations.DownloadOutcome | api_integrations.py:77-167 | the result names the paper id. A success carries the id the lookup found, the target path in the directory, the PDF URL, and the size of the file stored at that path; a fresh success is at least 1024 bytes |
| ApiIntegrations.DownloadWithoutId | api_integrations.py:78-85 | with no resolvable arXiv id: this fixed error, no request, no file written |
| ApiIntegrations.DownloadExisting | api_integrations.py:94-106 | an existing target file is reported as success with `already_existed`, its path, its size and the PDF URL; no request, no write |
| ApiIntegrations.DownloadFetches | api_integrations.py:94-110 | the PDF is requested exactly when an id is found and the target file does not exist |
| ApiIntegrations.DownloadFresh | api_integrations.py:122-148 | a fresh success stores at the target path a file of the reported size, at least 1024, from the arXiv PDF URL |
| ApiIntegrations.DownloadKeepsOthers | api_integrations.py:122-136 | a download never changes a file other than its target |
| ApiIntegrations.DownloadTooSmall | api_integrations.py:127-136 | a complete PDF under 1024 bytes fails with this error, and the file is removed again |
| ApiIntegrations.ResponseTooSmall | api_integrations.py:127-136 | a response of under 1024 bytes fails with this error and leaves the files as they were |
| ApiIntegrations.DownloadHtml | api_integrations.py:113-120 | an HTML content type fails with this error and nothing is written |
| ApiIntegrations.SearchQuery | api_integrations.py:231-234 | the query is "all:" + query, followed by " AND submittedDate:[{year}0101 TO {year}1231]" exactly when a non-empty year is given |
| ApiIntegrations.TailCapture | api_integrations.py:259 | a `(.+)$` capture is non-empty and has no newline |
| ApiIntegrations.FirstCapture | api_integrations.py:259 | `re.search(r'arxiv\.org/abs/(.+)$', s)` finds the leftmost position where the marker is followed by a one-line rest, or None when there is none |
| ApiIntegrations.EntryArxivId | api_integrations.py:258-260 | with a match, the arXiv id is non-empty and one line; without one, it holds no '/' and ends the entry id |
| ApiIntegrations.EntryArxivIdAt | api_integrations.py:259-260 | where the pattern first matches, the entry's arXiv id is what `(.+)$` captures there |
| ApiIntegrations.EntryArxivIdAfterMarker | api_integrations.py:259-260 | an entry id `p` + "arxiv.org/abs/" + `t`, with `t` one line and no earlier match, has the arXiv id `t` |
| ApiIntegrations.EntryArxivIdFallback | api_integrations.py:260 | without a match, the arXiv id is the text after the last '/' of the entry id, or the whole entry id when it has no '/' |
| Text.SplitOnLast | api_integrations.py:260 | the last part of `split(sep)` is what follows the last separator, or the whole text |
| ApiIntegrations.PublishedYear | api_integrations.py:277-283 | the year is 2023 when `published` is missing or without text, or when its first four characters are not a number |
| ApiIntegrations.PublishedYearOf | api_integrations.py:277-283 | a `published` text starting with a four-digit year gives that year |
| ApiIntegrations.PaperIdFor | api_integrations.py:286 | the paper id is "paper_" + the first 8 md5 hex digits of the arXiv id: 14 characters |
| ApiIntegrations.CleanText | api_integrations.py:263 | a cleaned title or abstract has no newline |
| ApiIntegrations.AuthorList | api_integrations.py:266-270 | at most one name per `<author>`; every name listed is the text of an author's `<name>`, and every author whose `<name>` has text is listed |
| ApiIntegrations.EntryToPaper | api_integrations.py:256-295 | a record exists exactly when the entry has id and title text and its summary is not text-less. Its arXiv id is `EntryArxivId` of the entry id: what follows "arxiv.org/abs/", or else the last '/' part (`EntryArxivIdAfterMarker`, `EntryArxivIdFallback`). Its paper id is `PaperIdFor(arxivId)`. Its url is "https://arxiv.org/abs/" + id. Its year is `PublishedYear` of `published`: a leading four-digit year, 2023 when missing or unreadable |
| ApiIntegrations.PapersOfSome | api_integrations.py:253-297 | the entries give records exactly when every entry converts |
| ApiIntegrations.PapersOfRecords | api_integrations.py:253-297 | there is one record per entry, in entry order |
| ApiIntegrations.PaperDataOf | tutor_agent.py:165-166 | a record handed to `cache_paper` has every key present |
| ApiIntegrations.AcademicAPIClient.constructor | api_integrations.py:19-22 | a new client is not in mock mode and has made no calls |
| ApiIntegrations.AcademicAPIClient.DownloadPaper | api_integrations.py:71-167 | creates the directory, then returns the download outcome and leaves the files it gives; requests the PDF once exactly when the outcome fetched |
| ApiIntegrations.AcademicAPIClient.StoreResponse | api_integrations.py:108-148 | the result and the files after the response are `ResponseStep` |
| ApiIntegrations.AcademicAPIClient.WriteChunks | api_integrations.py:123-127 | the loop over chunks leaves the file with the total size of the chunks |
| ApiIntegrations.AcademicAPIClient.SearchPapers | api_integrations.py:169-175 | the mock search in mock mode, the arXiv search otherwise; one feed request in the latter case |
| ApiIntegrations.AcademicAPIClient.ArxivSearch | api_integrations.py:227-310 | one request; the records of its entries, or the mock search when the request, the parser or an entry fails |
| ApiIntegrations.AcademicAPIClient.RecordsOf | api_integrations.py:253-297 | the loop over entries gives the records of all entries in order, or fails when one entry raises |
| ApiIntegrations.AcademicAPIClient.GenerateSummary | api_integrations.py:177-179 | one summariser call, whose answer for this call number is returned |
| TutorAgent.ParseSearchInput | tutor_agent.py:151-153 | the query and the year hold no '\|', and the query has no whitespace at either end |
| TutorAgent.ParseSearchInputRest | tutor_agent.py:151-153 | "query\|year\|rest" reads as the stripped query and the stripped year: parts after the second are ignored |
| TutorAgent.ParseSearchInputYear | tutor_agent.py:151-153 | a year is read exactly when the input holds a '\|' |
| TutorAgent.ParseSearchInputOf | tutor_agent.py:151-153 | "query\|year" reads back as the stripped query and the stripped year |
| TutorAgent.ParseSearchInputPlain | tutor_agent.py:151-153 | an input without '\|' is the stripped query with no year |
| TutorAgent.KeepTopics | tutor_agent.py:254 | a word is kept exactly when it is a word of the query that is no stop word and is longer than 2 characters |
| TutorAgent.KeepTopicsConcat | tutor_agent.py:254 | topics keep the order of the words, duplicates included |
| TutorAgent.Topics | tutor_agent.py:246-256 | the first three topic words of the lower-cased query in order (all of them when there are fewer); each is a word of the query, is no stop word and is longer than 2 characters |
| TutorAgent.TopicsOfFirstWords | tutor_agent.py:254-256 | once the first words of the query hold three topic words, later words play no part in the topics |
| TutorAgent.TopicsLowerCase | tutor_agent.py:250 | topics are lower case, so the store's own `lower()` leaves them unchanged |
| TutorAgent.PaperEntryHasId | tutor_agent.py:177-180 | each paper's entry names its paper id |
| TutorAgent.SearchReportListsIds | tutor_agent.py:175-182 | the search reply names the id of every paper found |
| TutorAgent.HistoryReportListsQueries | tutor_agent.py:220-222 | the history reply lists the query of every search it reports |
| TutorAgent.InterestsReportListsTopics | tutor_agent.py:237-239 | the interests reply lists every topic it reports, in title case |
| TutorAgent.ExtractSummary | tutor_agent.py:269-273 | "" when the text has no "SUMMARY_GENERATED:"; otherwise a text with no whitespace at either end |
| TutorAgent.ExtractSummaryOfReply | tutor_agent.py:269-273 | extract("SUMMARY_GENERATED:\n" + s) is strip(s) when s holds no marker |
| TutorAgent.EnhancedMessageLines | tutor_agent.py:127 | the message to the model has a first line naming the user, then the message |
| TutorAgent.AgentResponse | tutor_agent.py:125-145 | the reply keeps the output and no function calls; it has papers exactly when the output holds "PAPERS_FOUND:", and a summary exactly when it holds "SUMMARY_GENERATED:" |
| TutorAgent.AgentResponseOfSearch | tutor_agent.py:139-140 | an answer that passes on the search reply is seen to hold (an empty list of) papers |
| TutorAgent.AgentResponseOfSummary | tutor_agent.py:142-143 | an answer that passes on the summary reply carries the summary, stripped |
| TutorAgent.CacheAllUnique | tutor_agent.py:165-166 | caching the papers found keeps paper ids unique |
| TutorAgent.CacheAllHas | tutor_agent.py:165-166 | every paper found is in the cache afterwards |
| TutorAgent.CacheAllKeeps | tutor_agent.py:165-166 | papers whose id was not found are untouched |
| TutorAgent.UpsertAllSpec | tutor_agent.py:171-172 | (user, topic) stays unique; each topic's score grows by the number of times it was named; other users and other topics are unchanged |
| TutorAgent.FormatPapers | tutor_agent.py:175-182 | the loop builds "PAPERS_FOUND:\n" and one numbered entry per paper, with at most 3 authors |
| TutorAgent.FormatHistory | tutor_agent.py:220-224 | the loop builds the header and one line per search, the timestamp cut to 10 characters |
| TutorAgent.FormatInterests | tutor_agent.py:237-241 | the loop builds the header and one line per topic, with its title case and score |
| TutorAgent.AcademicTutorAgent.constructor | tutor_agent.py:27-38 | a new agent has an empty conversation memory |
| TutorAgent.AcademicTutorAgent.ProcessMessage | tutor_agent.py:98-123 | the user turn is appended first. On an answer, the assistant turn is appended, one chat row is logged with `[]` as function calls, and the reply is `AgentResponse`. On a raise, only the user turn was appended, nothing is logged, and the reply is the error text. Other users' transcripts are unchanged |
| TutorAgent.AcademicTutorAgent.SearchTool | tutor_agent.py:147-185 | an empty result returns the no-papers text with no write. Otherwise every result is cached, exactly one search is logged for "default_user", each topic is counted once more, and the reply is the search report |
| TutorAgent.AcademicTutorAgent.RecordSearch | tutor_agent.py:161-172 | the three writes of a search that found papers |
| TutorAgent.AcademicTutorAgent.CacheEach | tutor_agent.py:165-166 | the loop caches each paper in turn |
| TutorAgent.AcademicTutorAgent.TrackTopics | tutor_agent.py:171-172 | the loop updates the interest of each topic in turn |
| TutorAgent.AcademicTutorAgent.SummaryTool | tutor_agent.py:187-210 | A non-empty cached summary is returned with no call and no write. Otherwise, a non-empty abstract gets exactly one summariser call, whose summary is saved, reads back, and is returned. Otherwise the not-in-cache text is returned with no call and no write |
| TutorAgent.AcademicTutorAgent.SummaryToolTwice | tutor_agent.py:191-205 | unless the first reply carries an empty summary, asking twice gives the same text and calls the summariser at most once, the second reply coming from the cache; after an empty summary the summariser is called again |
| TutorAgent.AcademicTutorAgent.HistoryTool | tutor_agent.py:212-227 | the no-history text, or the report of the user's ten latest searches |
| TutorAgent.AcademicTutorAgent.InterestsTool | tutor_agent.py:229-244 | the no-interests text, or the report of the user's ten strongest interests |

## Left out

- The `try`/`except` fallbacks of the tools ("Error searching papers: …", "Error generating summary: …" and the like) and `download_paper`'s "Unexpected error: …". The modelled store, file map and client do not raise, so these branches have no model.
- SQLite itself is not modelled: connections, commits, the file at `db_path` and schema creation. The arXiv-id lookup takes the `cached_papers` table as the parameter `papers` instead of opening the client's own connection.
- The real resolution of `CURRENT_TIMESTAMP` and its text form. Timestamps are integers, and `timestampText` renders them for the history tool.
- The language model and LangChain agent (`_create_agent`, `invoke`). Which tools the model calls, and what it outputs, are the abstract `invokeAgent`; the tools are separate methods.
- `_extract_papers_from_response` always returns `[]`, and `_extract_user_id_from_context` always returns "default_user". They are the constant `ExtractPapers` and the constant `DefaultUser`. The `if user_id:` guard is therefore always true and is not modelled.
- `_openai_generate_summary` (the Gemini call, the API key and its fallbacks) is the abstract `summarize`. `_mock_paper_search` and `_mock_generate_summary` are not among the files: `mockSearch` is abstract.
- Mock mode is always off in the constructor, but `SearchPapers` models both branches.
- HTTP and XML: `requests` details beyond status, reason, content type, chunk sizes and a mid-stream error (redirects, other headers, encodings); `ET.fromstring`, whose result arrives as parsed `Entry` values. `FeedFailed` stands for every failure of the feed request or parse.
- md5 is an uninterpreted function returning 32 lower-case hex digits.
- File system: `mkdir` is recorded as a set of directories, and files are a map from path to size. Errors of the operating system, and a directory at the target path, are not modelled.
- Unicode: `lower()` and `title()` act on ASCII letters only, and `int()` reads ASCII digits only (Python also accepts other Unicode decimal digits). `strip()` and `split()` use Python's whitespace set.
- `print` logging, `async` (treated as sequential) and concurrent requests.
- `app.py` (user interface) and `main.py` (HTTP endpoints) are not part of this model.
- ApiIntegrations.AuthorList: an `<author>` whose `<name>` has no text adds None to the source's list (api_integrations.py:268-270). That None is cached as JSON `null`, and joining the first three authors then raises at tutor_agent.py:178, after the cache, history and interest writes. The search tool then answers "Error searching papers: …". The model's records hold strings only, so such an author is left out of the list, and this failure is not modelled.
- TutorAgent.AcademicTutorAgent.ProcessMessage: its frame covers only the conversation memory and the chat log. In the source, `invoke` runs the tools the model picks, and their writes (cached papers, search history, interests, summaries) and provider calls happen inside this call. The model's choice of tools is not modelled, so ProcessMessage does not promise that those writes happen. The tools are the separate methods `SearchTool`, `SummaryTool`, `HistoryTool` and `InterestsTool`.
- TutorAgent.AgentResponseOfSearch: the papers part is always the empty list, because `_extract_papers_from_response` does not parse its input.
