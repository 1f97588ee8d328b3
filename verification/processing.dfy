/** Per-site processing: the output directory a start URL gets, the loop that sends every scraped
    item to the language model, the decision whether an answer is a press release, the result row
    built for one, and the success flag reported for the whole site. Scraping, the subprocess and
    file reads and writes are I/O: their results are parameters here. */
module UrlProcessing {

  import opened Options
  import opened Text
  import opened KeyRotation
  import opened Dispatcher
  import opened Workbook
  import Spider

  type Item = Spider.Item

  // ---------------------------------------------------------------------------------------------
  // Output directory

  /** `start_url.split('/')[-1]`: the text after the last '/', or all of it when there is none. */
  function LastSegment(s: string): (r: string)
    ensures |r| <= |s| && r == s[|s| - |r|..]
    ensures '/' !in r
    ensures |r| < |s| ==> s[|s| - |r| - 1] == '/'
  {
    if s == [] || s[|s| - 1] == '/' then []
    else LastSegment(s[..|s| - 1]) + [s[|s| - 1]]
  }

  /** Whatever comes before the last '/' does not matter. */
  lemma LastSegmentAfterSlash(a: string, b: string)
    requires '/' !in b
    ensures LastSegment(a + "/" + b) == b
  {
    var s := a + "/" + b;
    var r := LastSegment(s);
    assert s[|a|] == '/';
    assert forall i | 0 <= i < |b| :: s[|a| + 1 + i] == b[i];
    assert forall i | 0 <= i < |r| :: r[i] == s[|s| - |r| + i];
    assert r == s[|s| - |b|..] == b;
  }

  const DefaultDirectory := "default_directory"

  /** The name of the site's output directory: the last segment, or `DefaultDirectory` when the
      URL ends in '/' (or is empty). */
  function OutputDirName(startUrl: string): (r: string)
    ensures r != []
    ensures LastSegment(startUrl) != [] ==> r == LastSegment(startUrl)
    ensures LastSegment(startUrl) == [] ==> r == DefaultDirectory
  {
    var seg := LastSegment(startUrl);
    if seg == [] then DefaultDirectory else seg
  }

  /** A start URL ending in '/' gets the default directory. */
  lemma TrailingSlashDefault(startUrl: string)
    requires startUrl != [] && startUrl[|startUrl| - 1] == '/'
    ensures OutputDirName(startUrl) == DefaultDirectory
  {
  }

  /** Two sites whose URLs end in the same segment share an output directory, so whichever is
      processed second is skipped. */
  lemma SameLastSegmentSameDir(a: string, b: string, seg: string)
    requires '/' !in seg && seg != []
    ensures OutputDirName(a + "/" + seg) == OutputDirName(b + "/" + seg) == seg
  {
    LastSegmentAfterSlash(a, seg);
    LastSegmentAfterSlash(b, seg);
  }

  // ---------------------------------------------------------------------------------------------
  // Press-release decision

  /** The text the prompt tells the model to answer with when there is nothing to extract,
      as far as `process_groq_result`'s sentinel test looks for it. */
  const Sentinel := "NO PRESS RELEASE"

  /** `groq_result and "NO PRESS RELEASE".upper() not in groq_result.upper()`. */
  predicate IsPressRelease(groqResult: string) {
    groqResult != [] && !Contains(Upper(groqResult), Sentinel)
  }

  lemma UpperAppend(a: string, b: string)
    ensures Upper(a + b) == Upper(a) + Upper(b)
  {
  }

  /** The sentinel, written in any mix of cases anywhere in the answer, rejects it. */
  lemma SentinelRejects(a: string, t: string, b: string)
    requires Upper(t) == Sentinel
    ensures !IsPressRelease(a + t + b)
  {
    UpperAppend(a + t, b);
    UpperAppend(a, t);
    var u := Upper(a + t + b);
    assert u[|a|..|a| + |t|] == Sentinel;
    assert PrefixAt(u, Sentinel, |a|);
  }

  /** The decision does not depend on case: an answer and its upper-case form are judged alike. */
  lemma DecisionIgnoresCase(groqResult: string)
    ensures IsPressRelease(Upper(groqResult)) == IsPressRelease(groqResult)
  {
    assert Upper(Upper(groqResult)) == Upper(groqResult);
  }

  /** The answer the prompt asks for when nothing is found, "NO PRESS RELEASE CONTENT", is rejected. */
  lemma NoContentAnswerRejected()
    ensures !IsPressRelease("NO PRESS RELEASE CONTENT")
  {
    assert Upper("NO PRESS RELEASE") == Sentinel;
    SentinelRejects("", "NO PRESS RELEASE", " CONTENT");
    assert "" + "NO PRESS RELEASE" + " CONTENT" == "NO PRESS RELEASE CONTENT";
  }

  // ---------------------------------------------------------------------------------------------
  // One result

  /** An entry of `results`. */
  datatype ResultEntry = ResultEntry(url: string, groqResult: string)

  /** The pagination parent the row names: the first key of the map, or '' for an empty map. */
  function PaginationParent(info: Pagination): string {
    if info == [] then "" else info[0].0
  }

  /** The row `process_groq_result` builds: the result's number, the start URL, the extracted
      links, the item's URL, the answer, then the first pagination entry's key, links and page
      count (missing fields default to an empty list and ''). */
  function BuildRow(id: nat, startUrl: string, allUrls: seq<string>, itemUrl: string, groqResult: string, info: Pagination): (row: Row)
    ensures |row| == RowWidth
    ensures row[0] == Int(id) && row[1] == Str(startUrl) && row[2] == ListJson(allUrls)
    ensures row[3] == Str(itemUrl) && row[4] == StrJson(groqResult)
    ensures row[5] == Str(PaginationParent(info))
    ensures info == [] ==> row[6] == ListJson([]) && row[7] == Str("")
    ensures info != [] ==> row[6] == ListJson(info[0].1.links.GetOr([]))
    ensures info != [] && info[0].1.pageCount.Some? ==> row[7] == Int(info[0].1.pageCount.value)
    ensures info != [] && info[0].1.pageCount.None? ==> row[7] == Str("")
  {
    var page := if info == [] then PageInfo(None, None) else info[0].1;
    [Int(id), Str(startUrl), ListJson(allUrls), Str(itemUrl), StrJson(groqResult),
     Str(PaginationParent(info)), ListJson(page.links.GetOr([])),
     match page.pageCount case Some(n) => Int(n) case None => Str("")]
  }

  /** Whatever the row says about the first pagination entry, `update_excel` rewrites those
      columns from the entry keyed by the item's URL: the first-entry values never reach the sheet. */
  lemma FirstEntryOverwritten(id: nat, startUrl: string, allUrls: seq<string>, itemUrl: string, groqResult: string,
                              info: Pagination, other: Row)
    requires |other| == RowWidth
    requires other[..5] == BuildRow(id, startUrl, allUrls, itemUrl, groqResult, info)[..5]
    ensures FillPagination(BuildRow(id, startUrl, allUrls, itemUrl, groqResult, info), info) == FillPagination(other, info)
  {
    FillOverwrites(BuildRow(id, startUrl, allUrls, itemUrl, groqResult, info), other, info);
  }

  /** `process_groq_result`. A press release is appended to `results` and its row appended to the
      start URL's workbook; anything else removes the item's rows from that workbook. The flag
      says only which case it was: an update that raises does not change it. */
  method ProcessGroqResult(item: Item, groqResult: string, startUrl: string, allUrls: seq<string>,
                           results: seq<ResultEntry>, info: Pagination, files: Files)
    returns (results': seq<ResultEntry>, files': Files, ok: bool)
    ensures ok <==> IsPressRelease(groqResult)
    ensures ok ==> results' == results + [ResultEntry(item.url, groqResult)]
    ensures !ok ==> results' == results
    ensures ok ==> files' == UpdateExcel(files, startUrl, BuildRow(|results'|, startUrl, allUrls, item.url, groqResult, info), info).0
    ensures ExcelFileName(startUrl) in files'
    ensures !ok ==> files'[ExcelFileName(startUrl)] == Survivors(SheetOf(files, ExcelFileName(startUrl)), item.url)
    ensures OthersKept(files, files', ExcelFileName(startUrl))
  {
    if IsPressRelease(groqResult) {
      results' := results + [ResultEntry(item.url, groqResult)];
      var row := BuildRow(|results'|, startUrl, allUrls, item.url, groqResult, info);
      var (f, _) := UpdateExcel(files, startUrl, row, info);
      files' := f;
      ok := true;
    } else {
      results' := results;
      var saved;
      files', saved := RemoveRowFromExcel(files, startUrl, item.url);
      ok := false;
    }
  }

  /** A press release adds a row numbered with its place in `results` and holding the item's URL. */
  lemma AppendedRowNumbered(item: Item, groqResult: string, startUrl: string, allUrls: seq<string>,
                            results: seq<ResultEntry>, info: Pagination, files: Files)
    requires IsPressRelease(groqResult)
    requires UpdateExcel(files, startUrl, BuildRow(|results| + 1, startUrl, allUrls, item.url, groqResult, info), info).1.Appended?
    ensures var name := ExcelFileName(startUrl);
      var after := UpdateExcel(files, startUrl, BuildRow(|results| + 1, startUrl, allUrls, item.url, groqResult, info), info).0[name];
      |after| == |SheetOf(files, name)| + 1 &&
      after[|after| - 1][0] == Int(|results| + 1) && after[|after| - 1][3] == Str(item.url)
  {
  }

  // ---------------------------------------------------------------------------------------------
  // The per-item loop

  /** The contribution of one item to `results`, given what the dispatcher did with it. */
  function Contribution(item: Item, outcome: DispatchOutcome): seq<ResultEntry> {
    if outcome.Succeeded? && IsPressRelease(outcome.text) then [ResultEntry(item.url, outcome.text)] else []
  }

  /** The results the loop collects: in item order, one entry per item whose answer came back and
      was a press release. */
  function Accepted(items: seq<Item>, outcomes: seq<DispatchOutcome>): (r: seq<ResultEntry>)
    requires |items| == |outcomes|
    ensures |r| <= |items|
    ensures forall i | 0 <= i < |r| :: IsPressRelease(r[i].groqResult)
  {
    if items == [] then []
    else Accepted(items[..|items| - 1], outcomes[..|outcomes| - 1]) + Contribution(items[|items| - 1], outcomes[|outcomes| - 1])
  }

  /** An item whose dispatch fails contributes nothing and later items are still handled. */
  lemma FailedItemSkipped(items: seq<Item>, outcomes: seq<DispatchOutcome>, item: Item, outcome: DispatchOutcome)
    requires |items| == |outcomes| && !outcome.Succeeded?
    ensures Accepted(items + [item], outcomes + [outcome]) == Accepted(items, outcomes)
  {
    assert (items + [item])[..|items|] == items;
    assert (outcomes + [outcome])[..|outcomes|] == outcomes;
  }

  /** One pass of the loop body: the item's content goes to the dispatcher; an answer goes to
      `process_groq_result`; a failure (retries exhausted or a crash) is logged and dropped. */
  method HandleItem(item: Item, index: nat, pool: KeyPool, files: Files, results: seq<ResultEntry>,
                    startUrl: string, allUrls: seq<string>, info: Pagination, llm: Llm)
    returns (pool': KeyPool, files': Files, results': seq<ResultEntry>, outcome: DispatchOutcome)
    ensures outcome == Outcome(Attempts(pool, item.content, index, llm))
    ensures pool' == FinalPool(Attempts(pool, item.content, index, llm))
    ensures pool'.Pool() == pool.Pool()
    ensures results' == results + Contribution(item, outcome)
    ensures outcome.Crashed? <==> pool.Pool() == multiset{}
    ensures OthersKept(files, files', ExcelFileName(startUrl))
  {
    var attempts, waits;
    pool', outcome, attempts, waits := Dispatch(pool, item.content, index, llm);
    match outcome
    case Succeeded(text) =>
      var ok;
      results', files', ok := ProcessGroqResult(item, text, startUrl, allUrls, results, info, files);
    case _ =>
      results', files' := results, files;
  }

  /** Item `i` (numbered `i + 1`) was dispatched from `pools[i]`: its outcome is what the attempts
      on its content from that pool give, and the next item starts from the pool they leave. */
  ghost predicate DispatchedInTurn(items: seq<Item>, pools: seq<KeyPool>, outcomes: seq<DispatchOutcome>, llm: Llm, i: nat)
    requires i < |items| && i < |outcomes| && i + 1 < |pools|
  {
    && outcomes[i] == Outcome(Attempts(pools[i], items[i].content, i + 1, llm))
    && pools[i + 1] == FinalPool(Attempts(pools[i], items[i].content, i + 1, llm))
  }

  /** The loop of `main` over the scraped items, numbered from 1. Every item is handled whatever
      happened to the ones before it, each from the key pool the one before it left; `results` is
      exactly the accepted answers in item order; the key pool keeps its keys; only the start
      URL's workbook changes. */
  method ProcessItems(items: seq<Item>, pool: KeyPool, files: Files, startUrl: string, allUrls: seq<string>,
                      info: Pagination, llm: Llm)
    returns (results: seq<ResultEntry>, outcomes: seq<DispatchOutcome>, pools: seq<KeyPool>, pool': KeyPool, files': Files)
    ensures |outcomes| == |items| && |pools| == |items| + 1
    ensures pools[0] == pool && pools[|items|] == pool'
    ensures forall i | 0 <= i < |items| :: DispatchedInTurn(items, pools, outcomes, llm, i)
    ensures results == Accepted(items, outcomes)
    ensures pool'.Pool() == pool.Pool()
    ensures forall i | 0 <= i < |outcomes| :: outcomes[i].Crashed? <==> pool.Pool() == multiset{}
    ensures OthersKept(files, files', ExcelFileName(startUrl))
  {
    results, outcomes, pools, pool', files' := [], [], [pool], pool, files;
    var k := 0;
    while k < |items|
      invariant 0 <= k <= |items| && |outcomes| == k && |pools| == k + 1
      invariant pools[0] == pool && pools[k] == pool'
      invariant forall i | 0 <= i < k :: DispatchedInTurn(items, pools, outcomes, llm, i)
      invariant results == Accepted(items[..k], outcomes)
      invariant pool'.Pool() == pool.Pool()
      invariant forall i | 0 <= i < k :: outcomes[i].Crashed? <==> pool.Pool() == multiset{}
      invariant OthersKept(files, files', ExcelFileName(startUrl))
    {
      var outcome, next;
      next, files', results, outcome := HandleItem(items[k], k + 1, pool', files', results, startUrl, allUrls, info, llm);
      AcceptedNext(items, k, outcomes, outcome);
      DispatchedNext(items, pools, outcomes, llm, k, outcome, next);
      outcomes, pools, pool' := outcomes + [outcome], pools + [next], next;
      k := k + 1;
    }
    assert items[..k] == items;
  }

  /** Appending the next item's outcome and pool keeps the earlier items' records. */
  lemma DispatchedNext(items: seq<Item>, pools: seq<KeyPool>, outcomes: seq<DispatchOutcome>, llm: Llm,
                       k: nat, outcome: DispatchOutcome, next: KeyPool)
    requires k < |items| && |outcomes| == k && |pools| == k + 1
    requires forall i | 0 <= i < k :: DispatchedInTurn(items, pools, outcomes, llm, i)
    requires outcome == Outcome(Attempts(pools[k], items[k].content, k + 1, llm))
    requires next == FinalPool(Attempts(pools[k], items[k].content, k + 1, llm))
    ensures forall i | 0 <= i < k + 1 :: DispatchedInTurn(items, pools + [next], outcomes + [outcome], llm, i)
  {
    forall i | 0 <= i < k + 1
      ensures DispatchedInTurn(items, pools + [next], outcomes + [outcome], llm, i)
    {
      if i < k {
        assert DispatchedInTurn(items, pools, outcomes, llm, i);
      }
    }
  }

  /** Handling item `k` extends the accepted results by that item's contribution. */
  lemma AcceptedNext(items: seq<Item>, k: nat, outcomes: seq<DispatchOutcome>, outcome: DispatchOutcome)
    requires k < |items| && |outcomes| == k
    ensures Accepted(items[..k + 1], outcomes + [outcome])
      == Accepted(items[..k], outcomes) + Contribution(items[k], outcome)
  {
    assert items[..k + 1][..k] == items[..k];
    assert (outcomes + [outcome])[..k] == outcomes;
  }

  // ---------------------------------------------------------------------------------------------
  // One site

  /** What `main` ended with: skipped because the output directory exists, stopped because the
      scraped-content file is missing, or finished with its results after `seconds`. */
  datatype MainOutcome = Skipped | NoScrapedData | Finished(results: seq<ResultEntry>, seconds: int)

  /** `main` for one start URL. `dirs` are the existing output directories; `scraped` is the
      content file the crawler left (`None` when it is missing); `seconds` is the elapsed time.
      `outcomes` and `pools` record, item by item, how the scraped items were dispatched. */
  method RunSite(startUrl: string, dirs: set<string>, scraped: Option<seq<Item>>, pool: KeyPool, files: Files,
              allUrls: seq<string>, info: Pagination, llm: Llm, seconds: int)
    returns (dirs': set<string>, outcome: MainOutcome, pool': KeyPool, files': Files,
             outcomes: seq<DispatchOutcome>, pools: seq<KeyPool>)
    ensures OutputDirName(startUrl) in dirs ==> outcome.Skipped? && dirs' == dirs && pool' == pool && files' == files
    ensures OutputDirName(startUrl) !in dirs ==> dirs' == dirs + {OutputDirName(startUrl)} && !outcome.Skipped?
    ensures outcome.NoScrapedData? <==> OutputDirName(startUrl) !in dirs && scraped.None?
    ensures outcome.NoScrapedData? ==> pool' == pool && files' == files
    ensures outcome.Finished? ==> outcome.seconds == seconds && |outcome.results| <= |scraped.value|
    ensures outcome.Finished? ==> forall i | 0 <= i < |outcome.results| :: IsPressRelease(outcome.results[i].groqResult)
    ensures outcome.Finished? ==>
      && scraped.Some?
      && |outcomes| == |scraped.value| && |pools| == |scraped.value| + 1
      && pools[0] == pool && pools[|scraped.value|] == pool'
      && outcome.results == Accepted(scraped.value, outcomes)
    ensures outcome.Finished? ==> forall i | 0 <= i < |scraped.value| :: DispatchedInTurn(scraped.value, pools, outcomes, llm, i)
    ensures pool'.Pool() == pool.Pool()
    ensures OthersKept(files, files', ExcelFileName(startUrl))
  {
    var name := OutputDirName(startUrl);
    if name in dirs {
      return dirs, Skipped, pool, files, [], [pool];
    }
    dirs' := dirs + {name};
    if scraped.None? {
      return dirs', NoScrapedData, pool, files, [], [pool];
    }
    var results;
    results, outcomes, pools, pool', files' := ProcessItems(scraped.value, pool, files, startUrl, allUrls, info, llm);
    outcome := Finished(results, seconds);
  }

  /** What `process_url` gets from `main`: an exception, `None`, or the elapsed time. */
  datatype Run = Threw | ReturnedNone | ReturnedTime(seconds: int)

  function RunOf(outcome: MainOutcome): Run {
    match outcome
    case Finished(_, seconds) => ReturnedTime(seconds)
    case _ => ReturnedNone
  }

  /** `process_url`: the start URL, the time (0 unless `main` returned one) and the success flag. */
  function ProcessUrl(startUrl: string, run: Run): (r: (string, int, bool))
    ensures r.0 == startUrl
    ensures r.2 <==> run.ReturnedTime?
    ensures r.1 == if run.ReturnedTime? then run.seconds else 0
  {
    match run
    case ReturnedTime(seconds) => (startUrl, seconds, true)
    case _ => (startUrl, 0, false)
  }

  /** A site counts as processed exactly when `main` finished it: a skipped site, a missing
      content file and an exception all report failure with time 0. */
  lemma SuccessMeansFinished(startUrl: string, outcome: MainOutcome)
    ensures ProcessUrl(startUrl, RunOf(outcome)).2 <==> outcome.Finished?
    ensures !outcome.Finished? ==> ProcessUrl(startUrl, RunOf(outcome)) == ProcessUrl(startUrl, Threw) == (startUrl, 0, false)
  {
  }
}
