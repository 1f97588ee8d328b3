# Web-Scrappy core, modelled in Dafny

Web-Scrappy crawls company websites for press-release pages and sends each page's text to a hosted
LLM (Groq). It keeps the pages the model does not reject and writes one Excel row per kept page.
This project models the deterministic logic inside that pipeline. Fetching, the LLM and the file
system become parameters.

- `text.dfy` (`Text`): the Python string primitives the core relies on. These are ASCII
  `lower`/`upper`, substring search, `str.isspace` whitespace, `strip`/`lstrip`/`rstrip` and
  `" ".join`.
- `keys.dfy` (`KeyRotation`): the `KeyManager` state machine. It holds the active list, the cooling
  list and the round-robin cursor, with `get_next_key`, `mark_key_as_used` and `reset_used_keys`.
- `dispatch.dfy` (`Dispatcher`): `run_groq_api` and its retry decorator.
  - Content is split into 6000-character chunks.
  - The "Here is/are …:" prefix is stripped from each answer and from the joined answer.
  - Each attempt uses one key, and a failing chunk marks that key as used.
  - The decorator allows at most five attempts, with waits clamped to [60, 120] seconds.
  - The LLM is an oracle `(CallSite, Key, chunk) -> Completion(text) | CallFailed`.
- `filter.dfy` (`LinkFilter`): `filter_links`. It keeps the keyword-matching links of a list- or
  dict-shaped JSON document, without duplicates, in code-point order. The parsed JSON value is
  the input.
- `spider.dfy` (`Spider`): the crawl state of `ContentSpider` and its operations:
  - the link classifier `should_visit_url`;
  - the tag pass of `filter_content`;
  - `handle_pagination` with its four candidate tiers;
  - `parse` as a transition function;
  - the `start_requests` seeding loop.

  A page is abstract data: absolute anchor hrefs, URLs found in the body text, optional next and
  previous links, page-number links, year options and the text. `urlparse(url).netloc` is an
  uninterpreted `domain` function.
- `crawl.dfy` (`Crawl`): a worklist driver that serves requests against a finite map from URL to
  page. It shows that no URL is ever requested twice.
- `workbook.dfy` (`Workbook`): `excel_operations`. It covers the file-name sanitiser, the pagination
  fill and append of `update_excel`, and the row deletion of `remove_row_from_excel`. The output
  directory is a map from file name to sheet, and a sheet is a sequence of rows.
- `processing.dfy` (`UrlProcessing`): `url_processing`. It covers:
  - the output directory name and the press-release decision;
  - the 8-column row of `process_groq_result`;
  - the per-item loop of `main` and the success flag of `process_url`.

Behaviours of the code worth knowing, each proved in the model:
- The prefix strip is not idempotent. A second "Here is …:" is stripped again by a second pass
  (`Dispatcher.StripIntroNotIdempotent`).
- For ASCII URLs, the keyword alternation of `url_pattern` never changes the verdict of
  `should_visit_url`. Every alternative contains a keyword, so the "contact" exclusion never
  matters (`Spider.ShouldVisitIsKeywordTest`).
- `extract_links_from_cards` is a generator that `parse` calls without iterating, so its body never
  runs. `Spider.Parse` therefore schedules nothing from cards and changes no state for them.
- In one failed attempt, a failing chunk marks the attempt's key as used twice: once in the inner
  handler and once in the outer one.
- When both the active and the cooling list are empty, the reset in `get_next_key` leaves the
  active list empty and the indexing at key_manager.py:53 raises `IndexError`; no key is returned
  (`KeyRotation.GetNextKey`).
- Inside an attempt, the outer handler then reads the unbound `api_key` and raises
  `UnboundLocalError`. That is not a rate-limit error, so nothing is retried
  (`Dispatcher.Dispatch`, outcome `Crashed`).
- `process_groq_result` fills row[5..7] from the first pagination parent. `update_excel` then
  overwrites those cells from the entry keyed by the item URL, so the first fill never reaches the
  sheet (`UrlProcessing.FirstEntryOverwritten`).

## Model

| member | source | states |
|---|---|---|
| KeyRotation.GetNextKey | key_manager.py:38-57 | The pool of keys is conserved. When the active list is empty, the cooling list becomes the active list. The key returned is the active key at the cursor, or at 0 when the cursor has run past the end, and the cursor then points one past it. No key is returned exactly when both lists are empty. |
| KeyRotation.MarkKeyAsUsed | key_manager.py:59-78 | An active key leaves the active list (its first occurrence only) and joins the end of the cooling list. A key that is not active leaves both lists as they are, apart from the threshold reset. Whenever the cooling list holds 30 or more it is merged back into the active list. The cooling list always ends shorter than 30, and the pool is conserved. |
| KeyRotation.ResetUsedKeys | key_manager.py:80-92 | The active list becomes active ++ cooling and the cooling list empties. The pool and cursor are kept, and an empty cooling list leaves the state unchanged. |
| KeyRotation.RemoveFirst | key_manager.py:65-69 | `list.remove` drops exactly the first occurrence: the elements before it and after it are kept in order, and one copy of the key leaves the multiset. |
| KeyRotation.MoveToUsed | key_manager.py:65-69 | Moving an active key to the cooling list keeps the multiset of all keys and the cursor. |
| KeyRotation.RoundRobin | key_manager.py:49-54 | n consecutive calls from cursor c, with no marking in between, return active keys c, c+1, …, c+n-1 in order and leave the cursor at c+n. |
| KeyRotation.FullRotation | key_manager.py:49-54 | From cursor 0, len(active) calls return every active key once, in list order, and the next call wraps back to the first key. |
| Dispatcher.Chunks | groq_test.py:42 | The chunks concatenate back to the content. Each chunk is non-empty and at most max_length long, every chunk but the last is exactly max_length long, and there are ceil(len/max_length) of them. |
| Dispatcher.ChunkCount | groq_test.py:42 | With the default length of 6000 there are (len + 5999) / 6000 chunks, so empty content gives none. |
| Dispatcher.StripIntro | groq_test.py:83 | Text with no case-insensitive "here is"/"here are" that has a ':' after it is returned unchanged. Otherwise the text after the first such phrase's first later ':' is returned, with its leading whitespace removed. |
| Dispatcher.IntroOf | groq_test.py:83 | The lazy match falls on the first "here is"/"here are" and the first ':' after it. There is no match exactly when no such phrase is followed by a ':'. |
| Dispatcher.IntroSpanUnique | groq_test.py:83 | The phrase and colon positions the pattern's lazy match picks are unique. |
| Dispatcher.StripIntroOpening | groq_test.py:83 | An answer that opens with "Here is:" loses exactly that opening and the whitespace after it. |
| Dispatcher.StripIntroOneSpace | groq_test.py:83 | "Here is: " followed by any text strips to that text without leading whitespace. |
| Dispatcher.StripIntroInner | groq_test.py:83 | "Here is: Here is: x" strips to "Here is: x": only the first introduction is cut. |
| Dispatcher.StripIntroNotIdempotent | groq_test.py:83-95 | The strip is not idempotent. "Here is: Here is: x" strips to "Here is: x" on the first pass and to x, without leading whitespace, on the second. |
| Dispatcher.CleanedAnswers | groq_test.py:83-85 | Each answer is phrase-stripped and then whitespace-stripped, in call order, one result per call. |
| Dispatcher.SendChunks | groq_test.py:44-91 | Chunks are sent in order with the same key. The run stops at the first failing call, so no later chunk is sent. Without a failure every chunk was answered. |
| Dispatcher.Attempt | groq_test.py:32-100 | One attempt takes exactly one key, and every chunk's call uses it and carries that chunk. The attempt has three outcomes: (1) if all chunks are answered, the result is the cleaned answers joined by single spaces and cleaned again; (2) if a chunk fails, the key is marked as used twice and the attempt is rate-limited; (3) if there is no key, the attempt makes no call. The key pool is conserved, and empty content yields "". |
| Dispatcher.AttemptAnswered | groq_test.py:38-91 | With a model that always answers and at least one key, the attempt succeeds with the combined answers to all its chunks, one call per chunk, and leaves the pool as the key draw left it. |
| Dispatcher.AttemptWithKey | groq_test.py:42-99 | Once the key is taken, a success leaves the pool as it was after the draw. A failure marks the key twice and keeps the pool's multiset. |
| Dispatcher.Wait | groq_test.py:14 | Every wait of the exponential back-off lies in [60, 120] seconds. |
| Dispatcher.WaitMonotone | groq_test.py:14 | Waits never shrink from one retry to the next. |
| Dispatcher.WaitSchedule | groq_test.py:14 | The waits after attempts 1 to 4 are 60, 60, 120 and 120 seconds. |
| Dispatcher.EmptyPool | key_manager.py:44-53 | The key multiset is empty exactly when both lists are empty, which is exactly when drawing a key fails. |
| Dispatcher.Chain | groq_test.py:12-16 | From attempt k on, between 1 and 5-k+1 attempts are made, and the first is the step from the starting pool. |
| Dispatcher.ChainLink | groq_test.py:12-16 | Every attempt but the last was rate-limited, and the next attempt starts from the pool it left, with the next attempt number. |
| Dispatcher.ChainStops | groq_test.py:13-15 | The attempts end on one that was not rate-limited, or on the fifth. |
| Dispatcher.AttemptsFirst | groq_test.py:12-38 | The first attempt of the decorated call is attempt 1, drawing from the pool the call starts with. |
| Dispatcher.AttemptsLink | groq_test.py:12-38 | Each retry follows a rate-limited attempt. It runs `run_groq_api` again on the same content, from the pool that attempt left, numbered one higher. |
| Dispatcher.OutcomeOfLast | groq_test.py:12-16 | The call succeeds, crashes or exhausts its retries exactly when its last attempt succeeded, found no key or was rate-limited. |
| Dispatcher.AttemptStepFacts | groq_test.py:32-100 | Every attempt keeps the key multiset and finds no key exactly when the pool is empty. A successful attempt returns the combined answers, which are empty for empty content. |
| Dispatcher.Dispatch | groq_test.py:12-100 | The attempts are exactly `Attempts`: attempt 1 from the given pool, then each retry from the pool the rate-limited attempt before it left. There are 1 to 5 of them, and the call's outcome is the last attempt's. It succeeds with that attempt's combined answers. It raises the retry error iff all 5 were rate-limited, and crashes after one attempt iff the pool is empty. The final pool is the last attempt's and keeps the key multiset. The wait before retry n is 30·2^(n-1) seconds clamped to [60, 120]. |
| Dispatcher.Retry | groq_test.py:12-16 | The same as `Dispatch`, for any attempt function that keeps the keys, finds no key only in an empty pool and succeeds with the combined answers. |
| Dispatcher.RunChain | groq_test.py:12-16 | The retry loop makes exactly the chained attempts, each from the pool the one before it left. Every attempt but the last was rate-limited, and the last was not or was the fifth. |
| Dispatcher.ChainStartKeeps | groq_test.py:12-16 | When every attempt keeps the keys, the last attempt starts with the keys the call started with. |
| Dispatcher.ChainRetriedNotEmpty | groq_test.py:12-16 | A call that retried started with at least one key, because an empty pool is not retried. |
| Dispatcher.Waits | groq_test.py:14 | The waits before retries 1 to k are the back-off waits after attempts 1 to k, each in [60, 120] seconds. |
| Dispatcher.AnsweredFirstTime | groq_test.py:12-100 | With a model that always answers and at least one key, the call needs one attempt. It succeeds with the combined answers and leaves the pool as the first key draw left it. |
| LinkFilter.Iterated | filter_links.py:43-49 | Python iteration over a JSON value gives the following. For a list, the candidates are its items, all of which must be strings. For a string, they are its characters; for a dict, its keys. Anything else cannot be iterated. |
| LinkFilter.Kept | filter_links.py:25-49 | The kept set is exactly the candidate links that match the keyword alternation. |
| LinkFilter.FilterLinks | filter_links.py:4-52 | The output is strictly ascending, so it has no duplicates. It holds exactly the matching candidates, and it fails exactly when the input iterates a non-string link. |
| LinkFilter.Insert | filter_links.py:52 | Inserting into a strictly ascending list keeps it strictly ascending and adds exactly one element to its set. |
| LinkFilter.SortedList | filter_links.py:52 | `sorted(set)` is strictly ascending and holds exactly the set's elements. |
| LinkFilter.AscendingUnique | filter_links.py:52 | Two strictly ascending lists with the same elements are equal, so the sorted output is determined by the set. |
| LinkFilter.BelowIrreflexive | filter_links.py:52 | No string sorts before itself under Python's code-point order. |
| LinkFilter.BelowTransitive | filter_links.py:52 | Python's code-point string order is transitive. |
| LinkFilter.BelowTotal | filter_links.py:52 | Of two different strings, one sorts before the other. |
| LinkFilter.BelowAsymmetric | filter_links.py:52 | Two strings never sort before each other. |
| LinkFilter.AsJson | filter_links.py:47-49 | A list of links as a JSON array holds those strings, in order. |
| LinkFilter.ListCandidates | filter_links.py:47-49 | For list input, the candidates are exactly the list's links. |
| LinkFilter.FilterList | filter_links.py:47-52 | For list input, the output is strictly ascending and holds exactly the matching input links. |
| LinkFilter.Refilter | filter_links.py:35-52 | Filtering an output list again, as list input, returns the same list. |
| LinkFilter.OtherDocumentsEmpty | filter_links.py:39-52 | A document that is neither a dict nor a list yields no links. |
| LinkFilter.DictCandidates | filter_links.py:39-44 | For dict input, every key is a candidate. So are the `pagination_links` of every dict-valued entry. |
| LinkFilter.NonObjectEntriesIgnored | filter_links.py:39-44 | Replacing one non-dict value of a dict entry by another non-dict value changes no candidate. |
| Spider.ShouldVisit | website_content_scraper/website_content_scraper/spiders/content_spider.py:144-159 | A URL whose domain is not allowed is refused, whatever it contains. On an allowed domain, a URL whose lower-case form contains a keyword is accepted, even if it contains "contact". Only allowed URLs that pass the keyword or pattern test are accepted. |
| Spider.AlternativeStartsWithKeyword | website_content_scraper/website_content_scraper/spiders/content_spider.py:25-33 | Every alternative of `url_pattern`, lower-cased, begins with an entry of `keywords`. |
| Spider.PatternImpliesKeyword | website_content_scraper/website_content_scraper/spiders/content_spider.py:25-33 | Any URL the pattern finds also contains a keyword once lower-cased. |
| Spider.ShouldVisitIsKeywordTest | website_content_scraper/website_content_scraper/spiders/content_spider.py:151-157 | `should_visit_url` holds iff the domain is allowed and the lower-case URL contains a keyword. The pattern and "contact" branch never changes the verdict. |
| Spider.FirstGt | website_content_scraper/website_content_scraper/spiders/content_spider.py:175 | The tag match of the lazy `<.*?>` ends at the first '>' after the '<'. |
| Spider.StripTags | website_content_scraper/website_content_scraper/spiders/content_spider.py:175 | Removing the tags leaves no '<' followed later by a '>'. It adds no new character and never lengthens the text. Text without '<' is unchanged. |
| Spider.FilterContent | website_content_scraper/website_content_scraper/spiders/content_spider.py:161-179 | The filtered text is the tag-free text with its surrounding whitespace removed. It has no leading or trailing whitespace, and no '<' in it is followed by a '>'. |
| Spider.StripTagsKeepsClean | website_content_scraper/website_content_scraper/spiders/content_spider.py:175 | Text without a '<'…'>' pair is left as it is by the tag pass. |
| Spider.StripTagsIdempotent | website_content_scraper/website_content_scraper/spiders/content_spider.py:175 | A second tag pass changes nothing. |
| Spider.StripTagsKeepsPrefix | website_content_scraper/website_content_scraper/spiders/content_spider.py:175 | Text before the first '<' is kept as it is, in front of the stripped rest. |
| Spider.StripTagsKeepsChar | website_content_scraper/website_content_scraper/spiders/content_spider.py:175 | A character other than '<' is kept in front of the stripped rest. |
| Spider.StripTagsDropsTag | website_content_scraper/website_content_scraper/spiders/content_spider.py:175 | A '<', the text up to the first '>' and that '>' are removed together. |
| Spider.StripTagsKeepsOpenBracket | website_content_scraper/website_content_scraper/spiders/content_spider.py:175 | A '<' with no '>' after it is kept, and so is everything after it. |
| Spider.Follow | website_content_scraper/website_content_scraper/spiders/content_spider.py:116-131 | Links are scheduled in order, without duplicates. Only unvisited links the classifier accepts are scheduled, and every one is added to the visited set. Every accepted link ends up visited, and every unvisited accepted link is scheduled. |
| Spider.FirstUnvisited | website_content_scraper/website_content_scraper/spiders/content_spider.py:207-238 | The tier scan stops at the first candidate not yet visited. |
| Spider.ScanCandidates | website_content_scraper/website_content_scraper/spiders/content_spider.py:207-238 | The scan has two results. If some candidate is unvisited, it chooses the first one, marks it visited and records every candidate up to and including it. Otherwise it chooses none and records every candidate. Candidates after the chosen one are not recorded. |
| Spider.ScanAppend | website_content_scraper/website_content_scraper/spiders/content_spider.py:207-238 | Scanning a + b is scanning a and, if nothing was chosen there, going on with b. |
| Spider.TiersAreOneScan | website_content_scraper/website_content_scraper/spiders/content_spider.py:207-238 | Trying the tiers one after another is a single scan of their concatenation: next, then prev, then the page numbers, then the year options. |
| Spider.CandidatesFlatten | website_content_scraper/website_content_scraper/spiders/content_spider.py:202-238 | The candidate order of a page is next, prev, page numbers, year options. |
| Spider.HandlePagination | website_content_scraper/website_content_scraper/spiders/content_spider.py:181-238 | The parent comes from the request meta, falling back to the spider's parent. An unseen parent gets an empty record. The page URL is added to its links and its page count grows by exactly 1, and other parents are unchanged. The first unvisited candidate is requested with the same parent, and the candidates up to it are recorded. |
| Spider.RequestUrls | website_content_scraper/website_content_scraper/spiders/content_spider.py:116-136 | The URLs of a request list, one per request, in order. |
| Spider.PlainRequests | website_content_scraper/website_content_scraper/spiders/content_spider.py:116-131 | Links found in anchors and body text are requested without meta, one request per link, in order. |
| Spider.Parse | website_content_scraper/website_content_scraper/spiders/content_spider.py:68-142 | The item is the request URL with the page's filtered text. The scheduled requests are distinct and were unvisited before, and the new visited set is the old one plus exactly those URLs. Every accepted anchor or body URL ends up visited. Every request without meta is an anchor or body URL that `should_visit_url` accepts. Pagination always runs: the parent's record gains the page and one page count, and other parents' records are unchanged. A last request with meta exists iff some candidate is still unvisited after the links were followed; it is for the first such candidate, with the page's parent. |
| Spider.ParseIgnoresCards | website_content_scraper/website_content_scraper/spiders/content_spider.py:300-311 | Whatever links the card selectors would find, `parse` produces the same state, item and requests: `parse` (line 142) calls this generator without iterating it, so no card link is ever requested or marked visited. |
| Spider.FreshInitial | website_content_scraper/website_content_scraper/spiders/content_spider.py:22-38 | A new spider starts with no visited URL, no pagination record and no allowed domain. |
| Spider.StartRequests | website_content_scraper/website_content_scraper/spiders/content_spider.py:42-66 | Without an input file nothing is requested. Otherwise the seeding loop runs over the URLs. |
| Spider.Seed | website_content_scraper/website_content_scraper/spiders/content_spider.py:58-66 | Each seed's domain is appended to the allowed domains once. Each distinct unvisited seed is marked visited and requested once, with itself as parent, and the parent field ends as the last requested seed. |
| Crawl.ParseRequestsAreLinks | website_content_scraper/website_content_scraper/spiders/content_spider.py:116-136 | Every URL `parse` schedules is one of the page's links. |
| Crawl.ParseNewlyVisited | website_content_scraper/website_content_scraper/spiders/content_spider.py:116-136 | Every URL `parse` newly marks visited is one of the page's links. |
| Crawl.CrawlWeb | website_content_scraper/website_content_scraper/spiders/content_spider.py:42-142 | Over a finite web, serving every request until none is left: (1) requests no URL twice; (2) requests only seeds and links of pages it fetched, each the page of one of its items; (3) marks exactly the requested URLs visited; (4) produces items only for fetched, visited pages. |
| Crawl.Serve | website_content_scraper/website_content_scraper/spiders/content_spider.py:68-142 | Serving one response schedules only fresh links of that page, each once, and yields that page's item. |
| Workbook.KeepSafe | excel_operations.py:51 | The result holds only letters, digits and spaces, and it contains each such character the input contains. It is never longer than the input. |
| Workbook.KeepSafeAppend | excel_operations.py:51 | Filtering a concatenation filters each part in turn, so the kept characters stay in their original order. |
| Workbook.KeepSafeKeeps | excel_operations.py:51 | A name made only of letters, digits and spaces passes through the filter unchanged. |
| Workbook.SafeFilename | excel_operations.py:51 | The safe name consists of letters, digits and spaces, with no trailing space. It is the filtered URL with only trailing spaces removed. |
| Workbook.SafeFilenameIdempotent | excel_operations.py:51 | Sanitising a safe name again changes nothing. |
| Workbook.SameWorkbook | excel_operations.py:51-54 | Two parent URLs share a workbook iff their safe names are equal. |
| Workbook.UnsafeCharIgnored | excel_operations.py:51-54 | Inserting a character other than a letter, digit or space into a URL leaves its workbook unchanged. |
| Workbook.FirstEntry | excel_operations.py:97-100 | The matching pagination entry is the first whose key equals row[3]. |
| Workbook.FillPagination | excel_operations.py:97-113 | Columns 0-4 are kept. If an entry is keyed by row[3], row[5..7] become that key, its links as JSON and its page count; a missing field raises. Otherwise row[5..7] become '', '[]' and ''. |
| Workbook.FillOverwrites | excel_operations.py:97-113 | The fill depends only on columns 0-4 and the tail, never on what row[5..7] held. |
| Workbook.FillIdempotent | excel_operations.py:97-113 | Filling an already filled row changes nothing. |
| Workbook.SheetOf | excel_operations.py:72-82 | A missing workbook starts as a sheet with just the header row. |
| Workbook.UpdateExcel | excel_operations.py:57-126 | The URL's workbook exists afterwards, and no other workbook changes. A short row or a failed fill raises and leaves the sheet as it was. Otherwise exactly the filled row is appended. |
| Workbook.UpdateAppendsOne | excel_operations.py:116 | A successful update grows the sheet by exactly one row and keeps every earlier row. |
| Workbook.DropMatching | excel_operations.py:158-164 | No remaining row has the URL in column 4, and rows are only removed. |
| Workbook.DropMatchingAppend | excel_operations.py:158-164 | Row deletion works row by row: deleting from a + b is deleting from each part. |
| Workbook.DropMatchingNone | excel_operations.py:158-164 | A sheet without the URL loses nothing. |
| Workbook.Survivors | excel_operations.py:158-164 | The header row always survives. |
| Workbook.MatchingRows | excel_operations.py:158-160 | The rows to delete are listed in ascending order. They are exactly the data rows whose column 4 holds the URL. |
| Workbook.DeleteRows | excel_operations.py:163-164 | Deleting the listed rows from the highest down leaves exactly the survivors: the header, then the other data rows in their order. |
| Workbook.RemoveRowFromExcel | excel_operations.py:128-173 | A missing workbook is first created with just the header (the save at line 148). The workbook then keeps its header and every data row except those with the URL in column 4, in order. No other workbook changes. `saved` reports the save at line 168, which happens iff at least one data row held the URL. |
| Workbook.SurvivorsSplit | excel_operations.py:158-164 | The survivors of a sheet are its header followed by the survivors of each part of its data rows. |
| Workbook.SurvivorsMembers | excel_operations.py:158-164 | A data row survives iff it was a data row and its column 4 is not the URL. |
| Workbook.DropMatchingMembers | excel_operations.py:158-164 | A row remains iff it was present and does not hold the URL. |
| UrlProcessing.LastSegment | url_processing.py:104 | The last segment is the suffix after the last '/' and contains no '/'. |
| UrlProcessing.LastSegmentAfterSlash | url_processing.py:104 | Whatever comes before the last '/', the segment after it is what is taken. |
| UrlProcessing.OutputDirName | url_processing.py:104 | The directory is the URL's last '/'-segment, or "default_directory" when that segment is empty. It is never empty. |
| UrlProcessing.TrailingSlashDefault | url_processing.py:104 | A URL ending in '/' gets the default directory. |
| UrlProcessing.SameLastSegmentSameDir | url_processing.py:104-110 | Two sites whose URLs end in the same segment share an output directory, so the second is skipped. |
| UrlProcessing.SentinelRejects | url_processing.py:54 | An answer containing "no press release" in any mix of cases is rejected. |
| UrlProcessing.DecisionIgnoresCase | url_processing.py:54 | An answer and its upper-case form get the same decision. |
| UrlProcessing.NoContentAnswerRejected | url_processing.py:54 | The answer the prompt asks for when nothing is found, "NO PRESS RELEASE CONTENT" (groq_test.py:68), is rejected. |
| UrlProcessing.BuildRow | url_processing.py:58-71 | The row has 8 cells, in this order: the ID, the start URL, the URL list as JSON, the item URL, the answer as JSON, the first pagination parent or '', its links or [], and its page count or ''. |
| UrlProcessing.FirstEntryOverwritten | url_processing.py:58-74 | What `process_groq_result` put in row[5..7] never reaches the sheet. |
| UrlProcessing.ProcessGroqResult | url_processing.py:38-86 | The result is true iff the answer is non-empty and lacks the sentinel, whatever the workbook does. On true, exactly one entry is appended, and the appended row is numbered with the new length. On false, the results are unchanged and the URL's rows are removed. No other workbook changes. |
| UrlProcessing.AppendedRowNumbered | url_processing.py:57-74 | When the update succeeds, the sheet gains one row, carrying ID = len(results) after the append and the item URL. |
| UrlProcessing.Accepted | url_processing.py:152-172 | Every accumulated result passed the press-release check, and there is at most one per item. |
| UrlProcessing.FailedItemSkipped | url_processing.py:155-172 | An item whose call raised contributes nothing, and the loop goes on. |
| UrlProcessing.HandleItem | url_processing.py:152-172 | The item's outcome is that of the retry attempts on its content from the given pool, and the item leaves the pool those attempts leave. It adds exactly its contribution to the results, crashes iff the key pool is empty, conserves the key pool and touches only the site's workbook. |
| UrlProcessing.ProcessItems | url_processing.py:152-172 | Items are handled in order. Item i+1 is dispatched from the pool item i left, starting from the given pool, and its outcome is that of its attempts. The results are exactly the accepted answers. The key pool is conserved, and only the site's workbook changes. |
| UrlProcessing.RunSite | url_processing.py:88-181 | A site whose directory exists is skipped and changes nothing. Otherwise the directory is created. Missing scraped data ends the run early and leaves the keys and workbooks as they were. A finished run reports the elapsed time. Its results are exactly the accepted answers of the scraped items, in order. Each item was dispatched from the pool the item before it left, starting from the given pool, with the outcome of its attempts. The key pool is conserved, and no workbook other than the site's changes. |
| UrlProcessing.ProcessUrl | url_processing.py:11-34 | The report is (url, time, True) iff `main` returns a time. Otherwise, and on any exception, it is (url, 0, False). |
| UrlProcessing.SuccessMeansFinished | url_processing.py:25-34 | A site is reported successful iff its run finished. A skipped or failed run is reported like an exception. |

## Left out

- Fetching and parsing HTML: Scrapy's scheduler, `CLOSESPIDER_TIMEOUT`, XPath/CSS selection and
  `urljoin` are out of scope, because they belong to the framework. Pages are abstract records
  with absolute links, and `urlparse(url).netloc` is an uninterpreted function.
- `Spider.ShouldVisit`, `LinkFilter.Matches`, `Dispatcher.StripIntro`: case-insensitive matching is modelled for ASCII
  letters only. Python's full Unicode case folding is not modelled.
- `UrlProcessing.IsPressRelease`: `str.upper` is modelled for ASCII letters only, because Unicode
  case mapping (e.g. 'ß' to "SS") is outside the model.
- `Workbook.SafeFilename`: `isalpha`/`isdigit` are modelled as ASCII letters and digits, because
  Unicode character classes are outside the model.
- `filter_content`'s other regular expressions (script-like fragments) are out of scope; only the
  `<.*?>` pass and the final strip are modelled.
- File I/O is modelled abstractly:
  - `update_env_file`, `write_pagination_info`, `closed()`, the JSON file reads of
    `start_requests`, `filter_links` and `read_pagination_info`, and the pandas input read are left
    out; their data are parameters and results.
  - The openpyxl load and save are modelled as a map from file name to sheet.
  - Load and save failures other than the modelled ones are left out.
  - Cell contents produced by `json.dumps` are abstract values, not text.
- Timing is out of scope: `time.time()` and the float timing are a parameter of
  `UrlProcessing.RunSite`.
- Concurrency is out of scope: the thread pool of `main.py` and unsynchronised sharing of the key
  manager between threads are not modelled.
- Foreign code is out of scope: the Selenium link extraction in `extract_links.py` and the
  `run_scrapy_command` subprocess in `file_operations.py` are not modelled.
- The Groq client is an oracle. The prompt text and the response object are not modelled.
- `api_operations.py` is a pass-through wrapper that re-raises, so it is not modelled separately.
- Sleeping is left out: `Dispatcher.Dispatch` returns the waits instead of sleeping them. The
  waits themselves are exact, 30·2^(n-1) seconds after attempt n, clamped to [60, 120].
- `retry.statistics` is left out, because it only feeds the attempt number into a log line.
- Logging is out of scope: `logging_config.py` and every logger call only print.
- `Crawl.CrawlWeb`: requests are served first-in first-out over a finite map of pages. A URL with
  no page is a failed fetch and yields no item. Scrapy's real scheduling order is not modelled.
- `Spider.Parse`: redirects are not modelled. `response.url` (content_spider.py:104 and :198) is
  taken to be the request URL. After a redirect, the program's item and pagination link carry
  the final URL, which was never requested and is not in `visited_urls`. So `Crawl.CrawlWeb`'s
  promise that items come only for visited pages holds for a web without redirects.
- `Spider.Seed`: every seed is handled before any response is served. In the program,
  `start_requests` is a lazy generator that Scrapy pulls from while `parse` runs. So a later seed's
  domain may not yet be allowed when an earlier page's links are classified. The fallback
  `parent_url` is also the latest seed yielded so far, not the last seed.
