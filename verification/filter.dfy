/** The link filter: reads a JSON document of links, keeps those matching a case-insensitive
    keyword alternation, drops duplicates and writes them back sorted. Reading and writing the
    files is I/O and is not modelled; the document is given as a `Json` value and the written list
    is the result. */
module LinkFilter {

  import opened Options
  import opened Text

  /** The alternatives of the filter's regular expression, in source order. */
  const Alternatives: seq<string> := [
    "press", "news", "newsPage", "news-releases", "newsroom", "press-release", "information",
    "update", "updates", "news-research", "press-room", "results", "media", "releases", "insights",
    "statements", "publications", "reports", "announcements", "headlines", "bulletin", "communique",
    "briefing", "digest", "gazette", "journal", "dispatch", "news-feed", "live-feed", "breaking",
    "newsletter"]

  /** `pattern.search(link)` under `re.IGNORECASE`: some alternative occurs somewhere in the link,
      letters compared without regard to case. */
  predicate Matches(link: string) {
    exists k | 0 <= k < |Alternatives| :: Contains(Lower(link), Lower(Alternatives[k]))
  }

  /** A parsed JSON document. Numbers, booleans and null are all `JOther`: the filter treats them
      alike. An object is a map, since `json.load` keeps one value per key. */
  datatype Json = JString(s: string) | JArray(items: seq<Json>) | JObject(fields: map<string, Json>) | JOther

  const PaginationLinks := "pagination_links"

  /** The strings `for link in v: pattern.search(link)` looks at, or `None` when that raises:
      iterating a number, boolean or null raises, and so does searching a non-string element.
      A string is iterated character by character and an object by its keys. */
  function Iterated(v: Json): (r: Option<set<string>>)
    ensures v.JArray? ==> (r.Some? <==> forall i | 0 <= i < |v.items| :: v.items[i].JString?)
    ensures v.JArray? && r.Some? ==> forall l :: l in r.value <==> exists i | 0 <= i < |v.items| :: v.items[i] == JString(l)
    ensures v.JString? ==> r.Some? && forall l :: l in r.value <==> |l| == 1 && l[0] in v.s
    ensures v.JObject? ==> r == Some(v.fields.Keys)
    ensures v.JOther? ==> r.None?
  {
    match v
    case JString(s) =>
      var r := set i | 0 <= i < |s| :: [s[i]];
      assert forall l :: l in r <==> |l| == 1 && l[0] in s by {
        forall l | |l| == 1 && l[0] in s
          ensures l in r
        {
          var i :| 0 <= i < |s| && s[i] == l[0];
          assert l == [s[i]];
        }
      }
      Some(r)
    case JArray(items) =>
      if forall i | 0 <= i < |items| :: items[i].JString? then
        Some(set i | 0 <= i < |items| :: items[i].s)
      else None
    case JObject(fields) => Some(fields.Keys)
    case JOther => None
  }

  /** What `value.get('pagination_links', [])` contributes for one entry of a dict document:
      nothing unless the entry is itself an object holding that key. */
  function Nested(v: Json): Option<set<string>> {
    if v.JObject? && PaginationLinks in v.fields then Iterated(v.fields[PaginationLinks]) else Some({})
  }

  function NestedOr(v: Json): set<string> {
    Nested(v).GetOr({})
  }

  /** Every string the filter tests: the items of a list document; the keys of a dict document
      plus the pagination links of its dict-valued entries; nothing for any other document.
      `None` when testing them raises. */
  function Candidates(data: Json): (r: Option<set<string>>)
  {
    match data
    case JArray(_) => Iterated(data)
    case JObject(m) =>
      if exists k | k in m :: Nested(m[k]).None? then None
      else Some(m.Keys + set k, l | k in m && l in NestedOr(m[k]) :: l)
    case _ => Some({})
  }

  /** The set `filtered_links` ends up holding. */
  function Kept(data: Json): (r: Option<set<string>>)
    ensures r.Some? <==> Candidates(data).Some?
    ensures r.Some? ==> forall l :: l in r.value <==> l in Candidates(data).value && Matches(l)
  {
    match Candidates(data)
    case None => None
    case Some(c) => Some(set l | l in c && Matches(l))
  }

  /** Python's `<` on strings: code points compared left to right, a proper prefix first. */
  predicate Below(a: string, b: string)
    decreases |a|
  {
    |b| > 0 && (|a| == 0 || a[0] < b[0] || (a[0] == b[0] && Below(a[1..], b[1..])))
  }

  predicate StrictlyAscending(s: seq<string>) {
    forall i, j | 0 <= i < j < |s| :: Below(s[i], s[j])
  }

  lemma {:induction false} BelowIrreflexive(a: string)
    ensures !Below(a, a)
    decreases |a|
  {
    if |a| > 0 {
      BelowIrreflexive(a[1..]);
    }
  }

  lemma {:induction false} BelowTransitive(a: string, b: string, c: string)
    requires Below(a, b) && Below(b, c)
    ensures Below(a, c)
    decreases |a|
  {
    if |a| > 0 && a[0] == b[0] && b[0] == c[0] {
      BelowTransitive(a[1..], b[1..], c[1..]);
    }
  }

  lemma {:induction false} BelowTotal(a: string, b: string)
    requires a != b
    ensures Below(a, b) || Below(b, a)
    decreases |a|
  {
    if |a| > 0 && |b| > 0 && a[0] == b[0] {
      assert a[1..] != b[1..] by {
        assert a == [a[0]] + a[1..] && b == [b[0]] + b[1..];
      }
      BelowTotal(a[1..], b[1..]);
    }
  }

  lemma BelowAsymmetric(a: string, b: string)
    requires Below(a, b)
    ensures !Below(b, a)
  {
    if Below(b, a) {
      BelowTransitive(a, b, a);
      BelowIrreflexive(a);
    }
  }

  /** Puts `x` into its place in an ascending list, unless it is already there. */
  function Insert(s: seq<string>, x: string): (r: seq<string>)
    requires StrictlyAscending(s)
    ensures StrictlyAscending(r)
    ensures Elems(r) == Elems(s) + {x}
    decreases |s|
  {
    if s == [] then [x]
    else if x == s[0] then s
    else if Below(x, s[0]) then
      assert forall j | 0 <= j < |s| :: Below(x, s[j]) by {
        forall j | 0 < j < |s| {
          BelowTransitive(x, s[0], s[j]);
        }
      }
      [x] + s
    else
      BelowTotal(x, s[0]);
      var tail := Insert(s[1..], x);
      assert Elems(s) == {s[0]} + Elems(s[1..]) by {
        assert s == [s[0]] + s[1..];
      }
      assert forall j | 0 <= j < |tail| :: Below(s[0], tail[j]) by {
        forall j | 0 <= j < |tail|
          ensures Below(s[0], tail[j])
        {
          assert tail[j] in Elems(s[1..]) + {x};
          if tail[j] != x {
            var k :| 0 <= k < |s[1..]| && s[1..][k] == tail[j];
            assert s[k + 1] == tail[j];
          }
        }
      }
      var r := [s[0]] + tail;
      assert forall j | 0 < j < |r| :: r[j] == tail[j - 1];
      assert Elems(r) == {s[0]} + Elems(tail) by {
        assert forall y :: y in r <==> y == s[0] || y in tail;
      }
      r
  }

  /** `sorted(filtered_links)`: the set as an ascending list. */
  method SortedList(links: set<string>) returns (r: seq<string>)
    ensures StrictlyAscending(r)
    ensures Elems(r) == links
  {
    r := [];
    var rest := links;
    while rest != {}
      invariant StrictlyAscending(r)
      invariant Elems(r) + rest == links
      decreases |rest|
    {
      var x :| x in rest;
      r := Insert(r, x);
      rest := rest - {x};
    }
  }

  /** `filter_links`: the list written to the output file, or `None` when the filter raises
      before writing. The list is strictly ascending, so it holds no duplicates, and it holds
      exactly the candidates that match. */
  method FilterLinks(data: Json) returns (r: Option<seq<string>>)
    ensures r.Some? <==> Candidates(data).Some?
    ensures r.Some? ==> StrictlyAscending(r.value)
    ensures r.Some? ==> forall l :: l in r.value <==> l in Candidates(data).value && Matches(l)
  {
    match Kept(data)
    case None =>
      r := None;
    case Some(kept) =>
      var sorted := SortedList(kept);
      r := Some(sorted);
  }

  /** Two ascending lists with the same elements are the same list: the output is determined
      by the set of kept links alone. */
  lemma {:induction false} AscendingUnique(a: seq<string>, b: seq<string>)
    requires StrictlyAscending(a) && StrictlyAscending(b) && Elems(a) == Elems(b)
    ensures a == b
    decreases |a|
  {
    if a != [] && b != [] {
      assert a[0] in Elems(b) && b[0] in Elems(a);
      if a[0] != b[0] {
        var i :| 0 <= i < |b| && b[i] == a[0];
        var j :| 0 <= j < |a| && a[j] == b[0];
        assert Below(b[0], a[0]) && Below(a[0], b[0]);
        BelowAsymmetric(a[0], b[0]);
        assert false;
      }
      TailsAgree(a, b);
      TailsAgree(b, a);
      AscendingUnique(a[1..], b[1..]);
      assert a == [a[0]] + a[1..] && b == [b[0]] + b[1..];
    } else {
      ElemsEmpty(a);
      ElemsEmpty(b);
    }
  }

  lemma ElemsEmpty(s: seq<string>)
    ensures Elems(s) == {} <==> s == []
  {
    if s != [] {
      assert s[0] in Elems(s);
    }
  }

  lemma TailsAgree(a: seq<string>, b: seq<string>)
    requires StrictlyAscending(a) && StrictlyAscending(b) && Elems(a) == Elems(b)
    requires a != [] && b != [] && a[0] == b[0]
    ensures Elems(a[1..]) <= Elems(b[1..])
  {
    forall x | x in Elems(a[1..])
      ensures x in Elems(b[1..])
    {
      var i :| 0 < i < |a| && a[i] == x;
      assert Below(a[0], x);
      BelowIrreflexive(x);
      assert x in Elems(b);
      var j :| 0 <= j < |b| && b[j] == x;
      assert j > 0;
      assert b[1..][j - 1] == x;
    }
  }

  /** A list of links as the JSON document the filter writes. */
  function AsJson(links: seq<string>): (r: Json)
    ensures r.JArray? && |r.items| == |links|
    ensures forall i | 0 <= i < |links| :: r.items[i] == JString(links[i])
  {
    JArray(seq(|links|, i requires 0 <= i < |links| => JString(links[i])))
  }

  /** For a list of links, the candidates are exactly the links. */
  lemma ListCandidates(links: seq<string>)
    ensures Candidates(AsJson(links)) == Some(Elems(links))
  {
    var d := AsJson(links);
    assert forall i | 0 <= i < |d.items| :: d.items[i].JString?;
    var c := Candidates(d);
    assert c == Iterated(d);
    assert c.Some?;
    forall l | l in c.value
      ensures l in Elems(links)
    {
      var i :| 0 <= i < |d.items| && d.items[i] == JString(l);
    }
    forall l | l in Elems(links)
      ensures l in c.value
    {
      var i :| 0 <= i < |links| && links[i] == l;
      assert d.items[i] == JString(l);
    }
    assert c.value == Elems(links);
  }

  /** Filtering a list keeps every matching link of it. */
  method FilterList(links: seq<string>) returns (r: seq<string>)
    ensures StrictlyAscending(r)
    ensures forall l :: l in r <==> l in links && Matches(l)
  {
    ListCandidates(links);
    var o := FilterLinks(AsJson(links));
    r := o.value;
  }

  /** Filtering a list the filter wrote gives back the same list. */
  method Refilter(data: Json) returns (first: Option<seq<string>>, second: seq<string>)
    ensures first.Some? <==> Candidates(data).Some?
    ensures first.Some? ==> second == first.value
  {
    first := FilterLinks(data);
    if first.Some? {
      second := FilterList(first.value);
      assert Elems(second) == Elems(first.value);
      AscendingUnique(second, first.value);
    } else {
      second := [];
    }
  }

  /** A document that is neither a list nor a dict is written out as an empty list. */
  lemma OtherDocumentsEmpty(data: Json)
    requires data.JString? || data.JOther?
    ensures Candidates(data) == Some({}) && Kept(data) == Some({})
  {
    var k := Kept(data);
    assert k.Some?;
    assert k.value <= {};
    var none: set<string> := {};
    assert k.value == none;
    assert k == Some(none);
  }

  /** In a dict document, every key is a candidate, and so is every pagination link of an entry
      that is an object; an entry that is not an object contributes nothing but its key. */
  lemma DictCandidates(m: map<string, Json>, k: string)
    requires k in m && Candidates(JObject(m)).Some?
    ensures k in Candidates(JObject(m)).value
    ensures m[k].JObject? && PaginationLinks in m[k].fields ==>
      Iterated(m[k].fields[PaginationLinks]).Some? &&
      Iterated(m[k].fields[PaginationLinks]).value <= Candidates(JObject(m)).value
  {
    if m[k].JObject? && PaginationLinks in m[k].fields {
      assert Nested(m[k]).Some?;
      forall l | l in Iterated(m[k].fields[PaginationLinks]).value
        ensures l in Candidates(JObject(m)).value
      {
        assert l in NestedOr(m[k]);
      }
    }
  }

  /** Replacing a dict entry that is not an object by another value that is not an object leaves
      the candidates as they were. */
  lemma NonObjectEntriesIgnored(m: map<string, Json>, k: string, v: Json)
    requires k in m && !m[k].JObject? && !v.JObject?
    ensures Candidates(JObject(m[k := v])) == Candidates(JObject(m))
  {
    var m' := m[k := v];
    assert forall j | j in m' :: Nested(m'[j]) == Nested(m[j]);
    assert m'.Keys == m.Keys;
    assert (exists j | j in m' :: Nested(m'[j]).None?) == (exists j | j in m :: Nested(m[j]).None?);
    var s' := set j, l | j in m' && l in NestedOr(m'[j]) :: l;
    var s := set j, l | j in m && l in NestedOr(m[j]) :: l;
    forall l | l in s'
      ensures l in s
    {
      var j :| j in m' && l in NestedOr(m'[j]);
      assert NestedOr(m[j]) == NestedOr(m'[j]);
    }
    forall l | l in s
      ensures l in s'
    {
      var j :| j in m && l in NestedOr(m[j]);
      assert NestedOr(m[j]) == NestedOr(m'[j]);
    }
    assert s == s';
    if exists j | j in m :: Nested(m[j]).None? {
      var j :| j in m && Nested(m[j]).None?;
      assert j in m' && Nested(m'[j]).None?;
    } else {
      assert Candidates(JObject(m)) == Some(m.Keys + s);
      assert Candidates(JObject(m')) == Some(m'.Keys + s');
    }
  }
}
