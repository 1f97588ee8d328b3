/** The crawl spider: which links it follows, how it records pagination, and the tag pass of its
    content filter. Fetching, HTML selection and URL joining are outside the model: a page arrives
    as `PageData`, whose link lists are already absolute URLs, and `urlparse(url).netloc` is an
    uninterpreted function `domain`. Writing the pagination record to disk is I/O and is left out. */
module Spider {

  import opened Options
  import opened Text

  type Url = string

  /* ---------------------------------------------------------------- link classification */

  /** The spider's keyword list, in source order. `"newsPage"` holds an upper-case letter and so
      never occurs in a lower-cased URL. */
  const Keywords: seq<string> := [
    "press release", "new", "newsroom", "newsPage", "press-release", "press", "press room",
    "news", "news-release", "announcement", "update", "updates", "news-research",
    "press-room", "results", "media", "releases", "insights", "statements", "publications",
    "reports", "announcements", "headlines", "bulletin", "communique", "briefing",
    "digest", "gazette", "journal", "dispatch", "news-feed", "live-feed", "breaking",
    "newsletter"
  ]

  /** The alternatives of the case-insensitive URL pattern, in source order. */
  const UrlAlternatives: seq<string> := [
    "press", "news", "newsPage", "news-releases", "newsroom", "press-release", "announcement",
    "update", "updates", "news-research", "press-room", "results", "media", "releases",
    "insights", "statements", "publications", "reports", "announcements", "headlines",
    "bulletin", "communique", "briefing", "digest", "gazette", "journal", "dispatch",
    "news-feed", "live-feed", "breaking", "newsletter"
  ]

  /** `any(keyword in url.lower() for keyword in keywords)`. */
  predicate KeywordHit(url: Url) {
    exists k | 0 <= k < |Keywords| :: Contains(Lower(url), Keywords[k])
  }

  /** The character class `[a-zA-Z0-9-\/]`. */
  predicate PathChar(c: char) {
    IsAsciiLetter(c) || IsAsciiDigit(c) || c == '-' || c == '/'
  }

  /** What the pattern demands after the alternative: `[a-zA-Z0-9-\/]+\/?$`. The optional slash is
      already a member of the class, and `$` also matches just before a final newline. */
  predicate PathTail(t: string) {
    || (|t| >= 1 && forall k | 0 <= k < |t| :: PathChar(t[k]))
    || (|t| >= 2 && t[|t| - 1] == '\n' && forall k | 0 <= k < |t| - 1 :: PathChar(t[k]))
  }

  /** The pattern matches with alternative `a` starting at index `i` (letters compared ignoring
      ASCII case). */
  predicate PatternMatchAt(url: Url, a: string, i: int) {
    PrefixAt(Lower(url), Lower(a), i) && PathTail(url[i + |a|..])
  }

  /** `url_pattern.search(url)` finds a match. */
  predicate PatternSearch(url: Url) {
    exists i, k | 0 <= i <= |url| && 0 <= k < |UrlAlternatives| :: PatternMatchAt(url, UrlAlternatives[k], i)
  }

  /** `exclude_pattern.search(url)`: "contact" in any case. */
  predicate Excluded(url: Url) {
    Contains(Lower(url), "contact")
  }

  /** `should_visit_url`. A URL outside the allowed domains is refused whatever it contains; on an
      allowed domain a keyword is enough, even when the URL also contains "contact". */
  function ShouldVisit(url: Url, allowed: seq<string>, domain: Url -> string): (r: bool)
    ensures domain(url) !in allowed ==> !r
    ensures domain(url) in allowed && KeywordHit(url) ==> r
    ensures r ==> domain(url) in allowed && (KeywordHit(url) || PatternSearch(url))
  {
    if domain(url) !in allowed then false
    else if KeywordHit(url) then true
    else if PatternSearch(url) && !Excluded(url) then true
    else false
  }

  /** For every alternative of the URL pattern, the keyword that its lower-case form begins with. */
  const AlternativeKeyword: seq<nat> := [
    5, 7, 7, 8, 2, 4, 9, 10, 11, 12, 13, 14, 15, 16, 17, 18, 19, 20, 21, 22,
    23, 24, 25, 26, 27, 28, 29, 30, 31, 32, 33
  ]

  /** `w` is a prefix of `a.lower()`, stated letter by letter. */
  predicate StartsLower(a: string, w: string) {
    |w| <= |a| && forall j | 0 <= j < |w| :: LowerChar(a[j]) == w[j]
  }

  lemma StartsLowerPrefix(a: string, w: string)
    requires StartsLower(a, w)
    ensures PrefixAt(Lower(a), w, 0)
  {
    assert Lower(a)[0..|w|] == w;
  }

  /** Every alternative of the URL pattern begins, ignoring case, with one of the keywords. */
  lemma AlternativeStartsWithKeyword(k: nat)
    requires k < |UrlAlternatives|
    ensures AlternativeKeyword[k] < |Keywords|
    ensures StartsLower(UrlAlternatives[k], Keywords[AlternativeKeyword[k]])
  {
    if k < 4 {
      AlternativesBelow4(k);
    } else if k < 8 {
      AlternativesBelow8(k);
    } else if k < 12 {
      AlternativesBelow12(k);
    } else if k < 16 {
      AlternativesBelow16(k);
    } else if k < 20 {
      AlternativesBelow20(k);
    } else if k < 24 {
      AlternativesBelow24(k);
    } else if k < 28 {
      AlternativesBelow28(k);
    } else {
      AlternativesBelow31(k);
    }
  }

  lemma AlternativesBelow4(k: nat)
    requires 0 <= k < 4
    ensures AlternativeKeyword[k] < |Keywords|
    ensures StartsLower(UrlAlternatives[k], Keywords[AlternativeKeyword[k]])
  {
  }

  lemma AlternativesBelow8(k: nat)
    requires 4 <= k < 8
    ensures AlternativeKeyword[k] < |Keywords|
    ensures StartsLower(UrlAlternatives[k], Keywords[AlternativeKeyword[k]])
  {
  }

  lemma AlternativesBelow12(k: nat)
    requires 8 <= k < 12
    ensures AlternativeKeyword[k] < |Keywords|
    ensures StartsLower(UrlAlternatives[k], Keywords[AlternativeKeyword[k]])
  {
  }

  lemma AlternativesBelow16(k: nat)
    requires 12 <= k < 16
    ensures AlternativeKeyword[k] < |Keywords|
    ensures StartsLower(UrlAlternatives[k], Keywords[AlternativeKeyword[k]])
  {
  }

  lemma AlternativesBelow20(k: nat)
    requires 16 <= k < 20
    ensures AlternativeKeyword[k] < |Keywords|
    ensures StartsLower(UrlAlternatives[k], Keywords[AlternativeKeyword[k]])
  {
  }

  lemma AlternativesBelow24(k: nat)
    requires 20 <= k < 24
    ensures AlternativeKeyword[k] < |Keywords|
    ensures StartsLower(UrlAlternatives[k], Keywords[AlternativeKeyword[k]])
  {
  }

  lemma AlternativesBelow28(k: nat)
    requires 24 <= k < 28
    ensures AlternativeKeyword[k] < |Keywords|
    ensures StartsLower(UrlAlternatives[k], Keywords[AlternativeKeyword[k]])
  {
  }

  lemma AlternativesBelow31(k: nat)
    requires 28 <= k < 31
    ensures AlternativeKeyword[k] < |Keywords|
    ensures StartsLower(UrlAlternatives[k], Keywords[AlternativeKeyword[k]])
  {
  }

  /** Whenever the URL pattern matches, the lower-case URL already contains a keyword. */
  lemma PatternImpliesKeyword(url: Url)
    ensures PatternSearch(url) ==> KeywordHit(url)
  {
    if PatternSearch(url) {
      var i, k :| 0 <= i <= |url| && 0 <= k < |UrlAlternatives| && PatternMatchAt(url, UrlAlternatives[k], i);
      AlternativeStartsWithKeyword(k);
      var w := Keywords[AlternativeKeyword[k]];
      StartsLowerPrefix(UrlAlternatives[k], w);
      ContainsTransitive(Lower(url), Lower(UrlAlternatives[k]), w, i, 0);
      assert Contains(Lower(url), Keywords[AlternativeKeyword[k]]);
    }
  }

  /** The pattern branch and its "contact" exclusion never change the verdict: a URL is followed
      exactly when its domain is allowed and its lower-case form contains a keyword. */
  lemma ShouldVisitIsKeywordTest(url: Url, allowed: seq<string>, domain: Url -> string)
    ensures ShouldVisit(url, allowed, domain) <==> domain(url) in allowed && KeywordHit(url)
  {
    PatternImpliesKeyword(url);
  }

  /* ---------------------------------------------------------------- content filter */

  predicate HasChar(s: string, c: char) {
    exists k | 0 <= k < |s| :: s[k] == c
  }

  /** Index of the first '>' in `s`. */
  function FirstGt(s: string): (j: nat)
    requires HasChar(s, '>')
    ensures j < |s| && s[j] == '>' && !HasChar(s[..j], '>')
  {
    if s[0] == '>' then 0
    else
      assert HasChar(s[1..], '>') by {
        var k :| 0 <= k < |s| && s[k] == '>';
        assert s[1..][k - 1] == '>';
      }
      var j := 1 + FirstGt(s[1..]);
      assert s[..j][1..] == s[1..][..j - 1];
      j
  }

  /** No '<' is followed, anywhere later, by a '>'. */
  predicate NoTagPair(s: string) {
    forall i, j | 0 <= i < j < |s| :: !(s[i] == '<' && s[j] == '>')
  }

  /** `re.sub(r'<.*?>', '', s, flags=re.DOTALL)`: scanning left to right, a '<' that has a '>'
      somewhere after it is removed together with everything up to the first such '>'; any other
      character is kept. The result keeps only characters of `s` and has no '<' ... '>' pair left. */
  function StripTags(s: string): (r: string)
    ensures |r| <= |s|
    ensures forall c | HasChar(r, c) :: HasChar(s, c)
    ensures NoTagPair(r)
    ensures !HasChar(s, '<') ==> r == s
  {
    if s == [] then []
    else if s[0] == '<' && HasChar(s[1..], '>') then
      var j := FirstGt(s[1..]);
      var r := StripTags(s[j + 2..]);
      assert forall c | HasChar(s[j + 2..], c) :: HasChar(s, c) by {
        forall c | HasChar(s[j + 2..], c)
          ensures HasChar(s, c)
        {
          var k :| 0 <= k < |s[j + 2..]| && s[j + 2..][k] == c;
          assert s[j + 2 + k] == c;
        }
      }
      assert HasChar(s, '<') by {
        assert s[0] == '<';
      }
      r
    else
      var rest := StripTags(s[1..]);
      KeepFirst(s[0], s[1..], rest);
      assert [s[0]] + s[1..] == s;
      [s[0]] + rest
  }

  /** Keeping a character in front of an already stripped tail: no character is invented, and a
      kept '<' has no '>' anywhere after it. */
  lemma KeepFirst(c: char, t: string, rest: string)
    requires forall x | HasChar(rest, x) :: HasChar(t, x)
    requires NoTagPair(rest)
    requires c == '<' ==> !HasChar(t, '>')
    ensures forall x | HasChar([c] + rest, x) :: HasChar([c] + t, x)
    ensures NoTagPair([c] + rest)
  {
    var r := [c] + rest;
    forall x | HasChar(r, x)
      ensures HasChar([c] + t, x)
    {
      var k :| 0 <= k < |r| && r[k] == x;
      if k > 0 {
        assert HasChar(rest, x) by { assert rest[k - 1] == x; }
        var m :| 0 <= m < |t| && t[m] == x;
        assert ([c] + t)[m + 1] == x;
      } else {
        assert ([c] + t)[0] == x;
      }
    }
    forall i, j | 0 <= i < j < |r|
      ensures !(r[i] == '<' && r[j] == '>')
    {
      assert r[j] == rest[j - 1];
      if i > 0 {
        assert r[i] == rest[i - 1];
      } else if c == '<' && rest[j - 1] == '>' {
        assert HasChar(rest, '>');
      }
    }
  }

  /** The tag pass of `filter_content` followed by `strip()`: no surrounding whitespace and no
      '<' ... '>' pair in what is left. */
  function FilterContent(content: string): (r: string)
    ensures r == [] || (!IsSpace(r[0]) && !IsSpace(r[|r| - 1]))
    ensures NoTagPair(r)
    ensures IsPaddingOf(StripTags(content), r, |StripTags(content)| - |LStrip(StripTags(content))|)
  {
    var t := StripTags(content);
    var r := Strip(t);
    var a := |t| - |LStrip(t)|;
    NoTagPairSlice(t, a, a + |r|);
    r
  }

  lemma NoTagPairSlice(t: string, a: int, b: int)
    requires 0 <= a <= b <= |t| && NoTagPair(t)
    ensures NoTagPair(t[a..b])
  {
    forall i, j | 0 <= i < j < b - a
      ensures !(t[a..b][i] == '<' && t[a..b][j] == '>')
    {
      assert t[a..b][i] == t[a + i] && t[a..b][j] == t[a + j];
    }
  }

  /** Text without a '<' ... '>' pair is left alone by the tag pass, so the pass is idempotent. */
  lemma {:induction false} StripTagsKeepsClean(s: string)
    requires NoTagPair(s)
    ensures StripTags(s) == s
  {
    if s != [] {
      assert !(s[0] == '<' && HasChar(s[1..], '>')) by {
        if HasChar(s[1..], '>') {
          var k :| 0 <= k < |s[1..]| && s[1..][k] == '>';
          assert s[k + 1] == '>';
        }
      }
      assert NoTagPair(s[1..]) by {
        forall i, j | 0 <= i < j < |s[1..]|
          ensures !(s[1..][i] == '<' && s[1..][j] == '>')
        {
          assert s[1..][i] == s[i + 1] && s[1..][j] == s[j + 1];
        }
      }
      StripTagsKeepsClean(s[1..]);
    }
  }

  lemma StripTagsIdempotent(s: string)
    ensures StripTags(StripTags(s)) == StripTags(s)
  {
    StripTagsKeepsClean(StripTags(s));
  }

  /** Text before the first '<' is kept as it is. */
  lemma {:induction false} StripTagsKeepsPrefix(t: string, u: string)
    requires !HasChar(t, '<')
    ensures StripTags(t + u) == t + StripTags(u)
  {
    if t != [] {
      var c, t' := t[0], t[1..];
      assert !HasChar(t', '<') by {
        assert forall i | 0 <= i < |t'| :: t'[i] == t[i + 1];
      }
      var su := StripTags(u);
      StripTagsKeepsPrefix(t', u);
      StripTagsKeepsChar(c, t' + u);
      ConsAppend(t, u);
      ConsAppend(t, su);
    } else {
      assert t + u == u;
    }
  }

  /** A character other than '<' is kept in front of the stripped rest. */
  lemma StripTagsKeepsChar(c: char, s: string)
    requires c != '<'
    ensures StripTags([c] + s) == [c] + StripTags(s)
  {
    assert ([c] + s)[1..] == s;
  }

  lemma ConsAppend<T>(t: seq<T>, x: seq<T>)
    requires t != []
    ensures [t[0]] + (t[1..] + x) == t + x
  {
  }

  /** A '<' ... '>' pair with no '>' in between is removed whole, with what is inside it. */
  lemma StripTagsDropsTag(x: string, u: string)
    requires !HasChar(x, '>')
    ensures StripTags(['<'] + x + ['>'] + u) == StripTags(u)
  {
    var s := ['<'] + x + ['>'] + u;
    assert s[1..] == x + ['>'] + u;
    assert HasChar(s[1..], '>') by { assert s[1..][|x|] == '>'; }
    var j := FirstGt(s[1..]);
    assert forall i | 0 <= i < |x| :: s[1..][i] == x[i];
    assert forall i | 0 <= i < |x| && i < j :: s[1..][..j][i] == x[i];
    assert j == |x|;
    assert s[j + 2..] == u;
  }

  /** A '<' with no '>' after it is not a tag: it and the rest are kept. */
  lemma StripTagsKeepsOpenBracket(x: string)
    requires !HasChar(x, '>')
    ensures StripTags(['<'] + x) == ['<'] + x
  {
    var s := ['<'] + x;
    assert s[1..] == x;
    assert NoTagPair(x) by {
      forall i, j | 0 <= i < j < |x|
        ensures !(x[i] == '<' && x[j] == '>')
      {
        if x[j] == '>' { assert HasChar(x, '>'); }
      }
    }
    StripTagsKeepsClean(x);
  }

  /* ---------------------------------------------------------------- crawl state */

  /** A key of the pagination record: the parent URL, which is `None` before any seed was read. */
  type ParentKey = Option<Url>

  datatype PageRecord = PageRecord(links: set<Url>, pageCount: nat)

  datatype SpiderState = SpiderState(
    allowedDomains: seq<string>,
    visited: set<Url>,
    pagination: map<ParentKey, PageRecord>,
    parentUrl: ParentKey,
    paginationCalls: nat)

  /** A scheduled request. `parentMeta` is `None` when the request carries no `parent_url` meta
      entry, and `Some(p)` when it carries `p`. */
  datatype Request = Request(url: Url, parentMeta: Option<ParentKey>)

  /** What the selectors find on a fetched page, with every href already resolved. `text` is the
      joined body text before `filter_content`; `bodyUrls` are the `https?://` URLs found in
      `FilterContent(text)`, the filtered text that the page item carries as its content. `cards`
      are the links the card selectors of `extract_links_from_cards` would find. */
  datatype PageData = PageData(
    text: string,
    anchors: seq<Url>,
    bodyUrls: seq<Url>,
    next: Option<Url>,
    prev: Option<Url>,
    pageNumbers: seq<Url>,
    yearOptions: seq<Url>,
    cards: seq<Url>)

  /** The item `parse` yields for a page (headings are left out). */
  datatype Item = Item(url: Url, content: string)

  function RequestUrls(reqs: seq<Request>): (r: seq<Url>)
    ensures |r| == |reqs| && forall i | 0 <= i < |reqs| :: r[i] == reqs[i].url
  {
    seq(|reqs|, i requires 0 <= i < |reqs| => reqs[i].url)
  }

  function FreshInitial(): (st: SpiderState)
    ensures st.visited == {} && st.pagination == map[] && st.allowedDomains == []
  {
    SpiderState([], {}, map[], None, 0)
  }

  /* ---------------------------------------------------------------- following links */

  /** One `for href in ...: if should_visit_url(url) and url not in visited_urls` loop of `parse`.
      It schedules, in input order, each link the classifier accepts that is not yet visited,
      marking it visited first; so no scheduled link was visited before, none is scheduled twice,
      the visited set grows by exactly the scheduled links, and afterwards every accepted link is
      visited. */
  function Follow(visited: set<Url>, urls: seq<Url>, allowed: seq<string>, domain: Url -> string): (r: (set<Url>, seq<Url>))
    ensures r.0 == visited + Elems(r.1)
    ensures Distinct(r.1)
    ensures forall i | 0 <= i < |r.1| :: r.1[i] !in visited && r.1[i] in urls && ShouldVisit(r.1[i], allowed, domain)
    ensures forall u | u in urls && ShouldVisit(u, allowed, domain) :: u in r.0
    ensures forall u | u in urls && u !in visited && ShouldVisit(u, allowed, domain) :: u in r.1
    decreases |urls|
  {
    if urls == [] then (visited, [])
    else
      var u := urls[0];
      if ShouldVisit(u, allowed, domain) && u !in visited then
        var (v, q) := Follow(visited + {u}, urls[1..], allowed, domain);
        var out := [u] + q;
        assert forall i | 1 <= i < |out| :: out[i] == q[i - 1];
        assert Elems(out) == {u} + Elems(q);
        (v, out)
      else
        Follow(visited, urls[1..], allowed, domain)
  }

  /* ---------------------------------------------------------------- pagination */

  /** The outcome of scanning pagination candidates: the parent's link set, the visited set, and
      the request target if one was chosen. */
  datatype Scan = Scan(links: set<Url>, visited: set<Url>, chosen: Option<Url>)

  /** Index of the first candidate not yet visited, or `|cands|` if there is none. */
  function FirstUnvisited(cands: seq<Url>, visited: set<Url>): (i: nat)
    ensures i <= |cands|
    ensures forall j | 0 <= j < i :: cands[j] in visited
    ensures i < |cands| ==> cands[i] !in visited
  {
    if cands == [] then 0
    else if cands[0] !in visited then 0
    else 1 + FirstUnvisited(cands[1..], visited)
  }

  /** One `for page in ...` loop of `handle_pagination`: every candidate up to and including the
      first unvisited one joins the parent's links, and that one is marked visited and chosen;
      when all are visited, all join the links and nothing is chosen. */
  function ScanCandidates(links: set<Url>, visited: set<Url>, cands: seq<Url>): (r: Scan)
    ensures var i := FirstUnvisited(cands, visited);
      && (r.chosen.Some? <==> i < |cands|)
      && (r.chosen.Some? ==>
            r.chosen.value == cands[i] && r.visited == visited + {cands[i]} && r.links == links + Elems(cands[..i + 1]))
      && (r.chosen.None? ==> r.visited == visited && r.links == links + Elems(cands))
    decreases |cands|
  {
    if cands == [] then Scan(links, visited, None)
    else
      var c := cands[0];
      if c !in visited then
        assert cands[..1] == [c];
        Scan(links + {c}, visited + {c}, Some(c))
      else
        var r := ScanCandidates(links + {c}, visited, cands[1..]);
        var i := FirstUnvisited(cands[1..], visited);
        assert Elems(cands) == {c} + Elems(cands[1..]);
        assert i < |cands| - 1 ==> cands[..i + 2] == [c] + cands[1..][..i + 1];
        r
  }

  function OptionalList(o: Option<Url>): seq<Url> {
    match o
    case Some(u) => [u]
    case None => []
  }

  function Flatten(tiers: seq<seq<Url>>): seq<Url> {
    if tiers == [] then [] else tiers[0] + Flatten(tiers[1..])
  }

  /** The tiers of `handle_pagination` in source order: each is scanned only when the ones before
      it chose nothing, and the handler returns as soon as one chooses. */
  function Tiers(links: set<Url>, visited: set<Url>, tiers: seq<seq<Url>>): Scan
    decreases |tiers|
  {
    if tiers == [] then Scan(links, visited, None)
    else
      var s := ScanCandidates(links, visited, tiers[0]);
      if s.chosen.Some? then s else Tiers(s.links, s.visited, tiers[1..])
  }

  /** Scanning `a + b` is scanning `a` and, only if it chose nothing, going on with `b`. */
  lemma {:induction false} ScanAppend(links: set<Url>, visited: set<Url>, a: seq<Url>, b: seq<Url>)
    ensures ScanCandidates(links, visited, a + b) ==
      (var s := ScanCandidates(links, visited, a);
       if s.chosen.Some? then s else ScanCandidates(s.links, s.visited, b))
    decreases |a|
  {
    if a != [] {
      assert (a + b)[0] == a[0] && (a + b)[1..] == a[1..] + b;
      if a[0] in visited {
        ScanAppend(links + {a[0]}, visited, a[1..], b);
      }
    } else {
      assert a + b == b;
    }
  }

  /** The tier-by-tier early returns amount to one scan over all candidates in order. */
  lemma {:induction false} TiersAreOneScan(links: set<Url>, visited: set<Url>, tiers: seq<seq<Url>>)
    ensures Tiers(links, visited, tiers) == ScanCandidates(links, visited, Flatten(tiers))
    decreases |tiers|
  {
    if tiers != [] {
      ScanAppend(links, visited, tiers[0], Flatten(tiers[1..]));
      var s := ScanCandidates(links, visited, tiers[0]);
      if s.chosen.None? {
        TiersAreOneScan(s.links, s.visited, tiers[1..]);
      }
    }
  }

  /** The pagination candidates of a page in the order the handler tries them: the next link, the
      previous link, the page-number links, then the year options. */
  function Candidates(page: PageData): seq<Url> {
    OptionalList(page.next) + OptionalList(page.prev) + page.pageNumbers + page.yearOptions
  }

  lemma CandidatesFlatten(page: PageData)
    ensures Flatten([OptionalList(page.next), OptionalList(page.prev), page.pageNumbers, page.yearOptions]) == Candidates(page)
  {
    var t := [OptionalList(page.next), OptionalList(page.prev), page.pageNumbers, page.yearOptions];
    assert t[1..] == [OptionalList(page.prev), page.pageNumbers, page.yearOptions];
    assert t[1..][1..] == [page.pageNumbers, page.yearOptions];
    assert t[1..][1..][1..] == [page.yearOptions];
    assert Flatten(t[1..][1..][1..]) == page.yearOptions by {
      assert t[1..][1..][1..][1..] == [];
    }
    assert Flatten(t[1..][1..]) == page.pageNumbers + page.yearOptions;
    assert Flatten(t[1..]) == OptionalList(page.prev) + (page.pageNumbers + page.yearOptions);
  }

  /** The parent a page's pagination is recorded under: its request's `parent_url` meta entry when
      there is one, otherwise the spider's last seed. */
  function ParentOf(st: SpiderState, meta: Option<ParentKey>): ParentKey {
    meta.GetOr(st.parentUrl)
  }

  /** `handle_pagination` for the page fetched at `pageUrl`. The parent's record is created empty
      if missing, gets the page URL and one more page count; other parents are untouched. The
      request returned is for the first candidate not yet visited (next, previous, page numbers,
      years), which is marked visited and carries the same parent; every candidate up to it is
      added to the parent's links. */
  function HandlePagination(st: SpiderState, pageUrl: Url, meta: Option<ParentKey>, page: PageData): (r: (SpiderState, Option<Request>))
    ensures var parent := ParentOf(st, meta);
      var before := if parent in st.pagination then st.pagination[parent] else PageRecord({}, 0);
      var cands := Candidates(page);
      var i := FirstUnvisited(cands, st.visited);
      && r.0.pagination.Keys == st.pagination.Keys + {parent}
      && (forall k | k in st.pagination && k != parent :: r.0.pagination[k] == st.pagination[k])
      && r.0.pagination[parent].pageCount == before.pageCount + 1
      && (i < |cands| ==>
            && r.1 == Some(Request(cands[i], Some(parent)))
            && r.0.visited == st.visited + {cands[i]}
            && r.0.pagination[parent].links == before.links + {pageUrl} + Elems(cands[..i + 1]))
      && (i == |cands| ==>
            && r.1 == None
            && r.0.visited == st.visited
            && r.0.pagination[parent].links == before.links + {pageUrl} + Elems(cands))
    ensures r.0.allowedDomains == st.allowedDomains && r.0.parentUrl == st.parentUrl
    ensures r.0.paginationCalls == st.paginationCalls + 1
  {
    var parent := ParentOf(st, meta);
    var before := if parent in st.pagination then st.pagination[parent] else PageRecord({}, 0);
    var links := before.links + {pageUrl};
    var tiers := [OptionalList(page.next), OptionalList(page.prev), page.pageNumbers, page.yearOptions];
    var s := Tiers(links, st.visited, tiers);
    TiersAreOneScan(links, st.visited, tiers);
    CandidatesFlatten(page);
    var st' := st.(
      visited := s.visited,
      pagination := st.pagination[parent := PageRecord(s.links, before.pageCount + 1)],
      paginationCalls := st.paginationCalls + 1);
    match s.chosen
    case Some(u) => (st', Some(Request(u, Some(parent))))
    case None => (st', None)
  }

  /* ---------------------------------------------------------------- parse and seeding */

  datatype ParseResult = ParseResult(state: SpiderState, item: Item, requests: seq<Request>)

  function PlainRequests(urls: seq<Url>): (r: seq<Request>)
    ensures |r| == |urls| && forall i | 0 <= i < |urls| :: r[i] == Request(urls[i], None)
  {
    seq(|urls|, i requires 0 <= i < |urls| => Request(urls[i], None))
  }

  function OptionalRequest(o: Option<Request>): seq<Request> {
    match o
    case Some(q) => [q]
    case None => []
  }

  /** How many of `parse`'s requests come from anchors and body text: all but a last request
      that carries a `parent_url` meta entry. */
  function PlainCount(reqs: seq<Request>): (m: nat)
    ensures m <= |reqs| && |reqs| <= m + 1
  {
    if reqs != [] && reqs[|reqs| - 1].parentMeta.Some? then |reqs| - 1 else |reqs|
  }

  /** `parse` for the response to `req`. It yields the page's item, then requests for accepted
      unvisited anchors, then for accepted unvisited URLs of the body text, then the pagination
      request if any. The card-link helper is a generator that is called but never iterated, so
      it contributes nothing (`ParseIgnoresCards`). Every request is for a URL that was not
      visited before, no URL is requested twice, and the visited set grows by exactly the
      requested URLs. The requests without meta are anchors or body URLs the classifier accepts;
      pagination always runs after them, and its request, the only one with meta, is for the
      first candidate still unvisited once the links were followed. */
  function Parse(st: SpiderState, req: Request, page: PageData, domain: Url -> string): (r: ParseResult)
    ensures r.item == Item(req.url, FilterContent(page.text))
    ensures Distinct(RequestUrls(r.requests))
    ensures forall i | 0 <= i < |r.requests| :: r.requests[i].url !in st.visited
    ensures r.state.visited == st.visited + Elems(RequestUrls(r.requests))
    ensures forall u | (u in page.anchors || u in page.bodyUrls) && ShouldVisit(u, st.allowedDomains, domain) :: u in r.state.visited
    ensures forall i | 0 <= i < PlainCount(r.requests) ::
      && r.requests[i].parentMeta.None?
      && (r.requests[i].url in page.anchors || r.requests[i].url in page.bodyUrls)
      && ShouldVisit(r.requests[i].url, st.allowedDomains, domain)
    ensures var m := PlainCount(r.requests);
      var cands := Candidates(page);
      var k := FirstUnvisited(cands, st.visited + Elems(RequestUrls(r.requests[..m])));
      && (k < |cands| <==> m < |r.requests|)
      && (k < |cands| ==> r.requests[m] == Request(cands[k], Some(ParentOf(st, req.parentMeta))))
    ensures var parent := ParentOf(st, req.parentMeta);
      var before := if parent in st.pagination then st.pagination[parent] else PageRecord({}, 0);
      && r.state.pagination.Keys == st.pagination.Keys + {parent}
      && (forall k | k in st.pagination && k != parent :: r.state.pagination[k] == st.pagination[k])
      && r.state.pagination[parent].pageCount == before.pageCount + 1
      && req.url in r.state.pagination[parent].links
    ensures r.state.allowedDomains == st.allowedDomains && r.state.parentUrl == st.parentUrl
    ensures r.state.paginationCalls == st.paginationCalls + 1
  {
    var item := Item(req.url, FilterContent(page.text));
    var (v1, a) := Follow(st.visited, page.anchors, st.allowedDomains, domain);
    var (v2, b) := Follow(v1, page.bodyUrls, st.allowedDomains, domain);
    var (st3, p) := HandlePagination(st.(visited := v2), req.url, req.parentMeta, page);
    var requests := PlainRequests(a) + PlainRequests(b) + OptionalRequest(p);
    ParseRequestsFresh(st.visited, v1, v2, st3.visited, a, b, p, requests);
    ParsePlainPart(st.visited, v1, v2, a, b, p, requests);
    ParseResult(st3, item, requests)
  }

  /** The requests without meta are exactly the followed anchors and body URLs, and the
      pagination request, if any, comes last. */
  lemma ParsePlainPart(v0: set<Url>, v1: set<Url>, v2: set<Url>, a: seq<Url>, b: seq<Url>,
                       p: Option<Request>, requests: seq<Request>)
    requires v1 == v0 + Elems(a) && v2 == v1 + Elems(b)
    requires p.Some? ==> p.value.parentMeta.Some?
    requires requests == PlainRequests(a) + PlainRequests(b) + OptionalRequest(p)
    ensures PlainCount(requests) == |a| + |b|
    ensures forall i | 0 <= i < |a| :: requests[i] == Request(a[i], None)
    ensures forall i | |a| <= i < |a| + |b| :: requests[i] == Request(b[i - |a|], None)
    ensures p.Some? ==> requests[|a| + |b|] == p.value
    ensures v2 == v0 + Elems(RequestUrls(requests[..|a| + |b|]))
  {
    var plain := PlainRequests(a) + PlainRequests(b);
    assert requests[..|a| + |b|] == plain;
    assert RequestUrls(plain) == a + b;
    assert Elems(a + b) == Elems(a) + Elems(b);
    if p.None? {
      assert requests == plain;
      if requests != [] {
        assert requests[|requests| - 1].parentMeta.None?;
      }
    }
  }

  /** The card selectors never change what `parse` does. */
  lemma ParseIgnoresCards(st: SpiderState, req: Request, page: PageData, domain: Url -> string, cards: seq<Url>)
    ensures Parse(st, req, page.(cards := cards), domain) == Parse(st, req, page, domain)
  {
    assert Candidates(page.(cards := cards)) == Candidates(page);
  }

  /** The three follow sites of `parse` share one visited set, so together they never repeat a
      URL. */
  lemma ParseRequestsFresh(v0: set<Url>, v1: set<Url>, v2: set<Url>, v3: set<Url>, a: seq<Url>, b: seq<Url>,
                           p: Option<Request>, requests: seq<Request>)
    requires Distinct(a) && Distinct(b)
    requires v1 == v0 + Elems(a) && v2 == v1 + Elems(b)
    requires forall i | 0 <= i < |a| :: a[i] !in v0
    requires forall i | 0 <= i < |b| :: b[i] !in v1
    requires p.Some? ==> p.value.url !in v2 && v3 == v2 + {p.value.url}
    requires p.None? ==> v3 == v2
    requires requests == PlainRequests(a) + PlainRequests(b) + OptionalRequest(p)
    ensures Distinct(RequestUrls(requests))
    ensures forall i | 0 <= i < |requests| :: requests[i].url !in v0
    ensures v3 == v0 + Elems(RequestUrls(requests))
  {
    var u := RequestUrls(requests);
    var tail := if p.Some? then [p.value.url] else [];
    assert u == a + b + tail;
    assert Elems(u) == Elems(a) + Elems(b) + Elems(tail);
    forall i, j | 0 <= i < j < |u|
      ensures u[i] != u[j]
    {
      if j < |a| {
      } else if i < |a| {
        assert u[i] in Elems(a);
        assert u[i] in v1;
      } else if j < |a| + |b| {
        assert u[i] == b[i - |a|] && u[j] == b[j - |a|];
      } else if i < |a| + |b| {
        assert u[i] in Elems(b);
        assert u[i] in v2;
      }
    }
  }

  /** `start_requests`. No input (no file given, or the file could not be read) schedules nothing.
      Otherwise each seed's domain is appended to the allowed list if missing, and each seed not
      yet visited is marked visited, becomes the fallback parent and is requested with itself as
      `parent_url`. */
  function StartRequests(st: SpiderState, input: Option<seq<Url>>, domain: Url -> string): (r: (SpiderState, seq<Request>))
    ensures input.None? ==> r == (st, [])
    ensures input.Some? ==> Seeded(st, input.value, domain, r.0, r.1)
  {
    match input
    case None => (st, [])
    case Some(urls) => Seed(st, urls, domain)
  }

  /** What seeding from `urls` promises. */
  predicate Seeded(st: SpiderState, urls: seq<Url>, domain: Url -> string, st': SpiderState, reqs: seq<Request>) {
    && DomainsAdded(st.allowedDomains, st'.allowedDomains, urls, domain)
    && SeedsRequested(st.visited, st'.visited, urls, reqs)
    && (reqs != [] ==> st'.parentUrl == Some(reqs[|reqs| - 1].url))
    && (reqs == [] ==> st'.parentUrl == st.parentUrl)
    && st'.pagination == st.pagination && st'.paginationCalls == st.paginationCalls
  }

  /** The allowed list only grows at its end, every seed's domain ends up in it, and each domain
      added is a seed's domain that was not in the list before. */
  predicate DomainsAdded(before: seq<string>, after: seq<string>, urls: seq<Url>, domain: Url -> string) {
    && |before| <= |after|
    && after[..|before|] == before
    && (forall u | u in urls :: domain(u) in after)
    && (forall i | |before| <= i < |after| :: after[i] !in after[..i] && exists u | u in urls :: domain(u) == after[i])
  }

  /** Every seed ends up visited; each seed not visited before is requested exactly once, with
      itself as `parent_url`; nothing else is requested. */
  predicate SeedsRequested(before: set<Url>, after: set<Url>, urls: seq<Url>, reqs: seq<Request>) {
    && after == before + Elems(urls)
    && Distinct(RequestUrls(reqs))
    && (forall i | 0 <= i < |reqs| :: reqs[i].url in urls && reqs[i].url !in before && reqs[i].parentMeta == Some(Some(reqs[i].url)))
    && (forall u | u in urls && u !in before :: u in RequestUrls(reqs))
  }

  /** The `for url in urls` loop of `start_requests`. */
  function Seed(st: SpiderState, urls: seq<Url>, domain: Url -> string): (r: (SpiderState, seq<Request>))
    ensures Seeded(st, urls, domain, r.0, r.1)
    decreases |urls|
  {
    if urls == [] then (st, [])
    else
      var u := urls[0];
      var allowed := if domain(u) !in st.allowedDomains then st.allowedDomains + [domain(u)] else st.allowedDomains;
      var st1 := st.(allowedDomains := allowed);
      var (st2, q) := if u !in st1.visited then (st1.(visited := st1.visited + {u}, parentUrl := Some(u)), [Request(u, Some(Some(u)))])
                      else (st1, []);
      var (st3, rest) := Seed(st2, urls[1..], domain);
      var reqs := q + rest;
      DomainsStep(st.allowedDomains, allowed, st3.allowedDomains, urls, domain);
      RequestsStep(st.visited, st2.visited, st3.visited, urls, q, rest);
      assert rest != [] ==> reqs[|reqs| - 1] == rest[|rest| - 1];
      (st3, reqs)
  }

  lemma DomainsStep(before: seq<string>, mid: seq<string>, after: seq<string>, urls: seq<Url>, domain: Url -> string)
    requires urls != []
    requires mid == if domain(urls[0]) !in before then before + [domain(urls[0])] else before
    requires DomainsAdded(mid, after, urls[1..], domain)
    ensures DomainsAdded(before, after, urls, domain)
  {
    var n := |before|;
    assert mid[..n] == before;
    assert after[..n] == before;
    assert domain(urls[0]) in after by {
      assert domain(urls[0]) in mid;
      assert forall x | x in mid :: x in after[..|mid|];
    }
    forall i | n <= i < |after|
      ensures after[i] !in after[..i] && exists u | u in urls :: domain(u) == after[i]
    {
      if i >= |mid| {
        var u :| u in urls[1..] && domain(u) == after[i];
        assert u in urls;
      } else {
        assert after[i] == domain(urls[0]) && after[..i] == before;
        assert urls[0] in urls;
      }
    }
  }

  lemma RequestsStep(before: set<Url>, mid: set<Url>, after: set<Url>, urls: seq<Url>, q: seq<Request>, rest: seq<Request>)
    requires urls != []
    requires urls[0] !in before ==> mid == before + {urls[0]} && q == [Request(urls[0], Some(Some(urls[0])))]
    requires urls[0] in before ==> mid == before && q == []
    requires SeedsRequested(mid, after, urls[1..], rest)
    ensures SeedsRequested(before, after, urls, q + rest)
  {
    var u := urls[0];
    var reqs := q + rest;
    assert Elems(urls) == {u} + Elems(urls[1..]) by {
      assert urls == [u] + urls[1..];
    }
    DistinctAfterFresh(q, rest, mid);
    forall i | 0 <= i < |reqs|
      ensures reqs[i].url in urls && reqs[i].url !in before && reqs[i].parentMeta == Some(Some(reqs[i].url))
    {
      if i >= |q| {
        assert reqs[i] == rest[i - |q|];
        assert rest[i - |q|].url in urls[1..];
      }
    }
    SeedsCovered(before, mid, urls, q, rest);
  }

  /** Putting requests for URLs of `mid` in front of requests for URLs outside `mid` keeps the
      URLs distinct. */
  lemma DistinctAfterFresh(q: seq<Request>, rest: seq<Request>, mid: set<Url>)
    requires Distinct(RequestUrls(q)) && Distinct(RequestUrls(rest))
    requires forall i | 0 <= i < |q| :: q[i].url in mid
    requires forall i | 0 <= i < |rest| :: rest[i].url !in mid
    ensures Distinct(RequestUrls(q + rest))
  {
    var ru := RequestUrls(q + rest);
    forall i, j | 0 <= i < j < |ru|
      ensures ru[i] != ru[j]
    {
      if j < |q| {
        assert ru[i] == RequestUrls(q)[i] && ru[j] == RequestUrls(q)[j];
      } else if i < |q| {
        assert ru[i] == q[i].url && ru[j] == rest[j - |q|].url;
      } else {
        assert ru[i] == RequestUrls(rest)[i - |q|] && ru[j] == RequestUrls(rest)[j - |q|];
      }
    }
  }

  lemma SeedsCovered(before: set<Url>, mid: set<Url>, urls: seq<Url>, q: seq<Request>, rest: seq<Request>)
    requires urls != []
    requires urls[0] !in before ==> mid == before + {urls[0]} && q == [Request(urls[0], Some(Some(urls[0])))]
    requires urls[0] in before ==> mid == before && q == []
    requires forall v | v in urls[1..] && v !in mid :: v in RequestUrls(rest)
    ensures forall v | v in urls && v !in before :: v in RequestUrls(q + rest)
  {
    var ru := RequestUrls(q + rest);
    var rr := RequestUrls(rest);
    forall v | v in urls && v !in before
      ensures v in ru
    {
      if v == urls[0] {
        assert ru[0] == v;
      } else {
        assert v in urls[1..];
        var k :| 0 <= k < |rr| && rr[k] == v;
        assert ru[|q| + k] == v;
      }
    }
  }
}
