/**
 * The search-results half of `JobScraper` (`scrape_indeed`): building the
 * search URL from the keywords, trying the CSS selector rules in a fixed order
 * until one matches, and turning at most `max_results` matched links into
 * `{title, link}` records, with root-relative links made absolute.
 *
 * The HTTP request and BeautifulSoup are not modelled: the page is given as
 * `select`, the function that answers `soup.select(rule)` with the matched
 * elements in document order, and a fetch that raised is `None`.
 */
module IndeedSearch {
  import opened Wrappers
  import opened PyStr

  /** One element matched by a selector: `get_text(strip=True)` and `get("href")`. */
  datatype Element = Element(title: string, href: Option<string>)

  /** One search result as the scraper returns it. */
  datatype JobListing = JobListing(title: string, link: string)

  const Origin: string := "https://www.indeed.com"
  const SearchBase: string := "https://www.indeed.com/jobs?q="

  /** The selector rules, alternatives tried in the source's order because the page layout changes. */
  const Selectors: seq<string> := [
    "a[data-hide-spinner='true']",
    "h2.jobTitle a",
    "a[data-jk]",
    ".job_seen_beacon a",
    ".jobTitle a"
  ]

  // ---------------------------------------------------------------------------
  // Query and URL

  /** `"+".join(keywords.split())`: the keywords' words joined by `+`. The
      query never holds whitespace, and it is empty exactly when the keywords
      are all whitespace. */
  function Query(keywords: string): (query: string)
    ensures NoSpace(query)
    ensures query == [] <==> AllSpace(keywords)
  {
    var words := SplitWhitespace(keywords);
    JoinNoSpace(words, '+');
    JoinEmpty(words, '+');
    SplitWhitespaceEmpty(keywords);
    Join(words, '+')
  }

  /** The search URL for a query and a location: the fixed base, the query,
      then `&l=` and the location as given. */
  function SearchUrl(query: string, location: string): (url: string)
    ensures StartsWith(url, SearchBase)
    ensures |url| == |SearchBase| + |query| + 3 + |location|
    ensures url[|SearchBase|..|SearchBase| + |query|] == query
    ensures url[|SearchBase| + |query|..|SearchBase| + |query| + 3] == "&l="
    ensures url[|url| - |location|..] == location
  {
    var url := SearchBase + query + "&l=" + location;
    assert url[|SearchBase|..|SearchBase| + |query|] == query;
    assert url[|SearchBase| + |query|..|SearchBase| + |query| + 3] == "&l=";
    url
  }

  lemma {:induction false} JoinNoSpace(parts: seq<string>, sep: char)
    requires !IsSpace(sep)
    requires forall i | 0 <= i < |parts| :: NoSpace(parts[i])
    ensures NoSpace(Join(parts, sep))
  {
    if |parts| > 1 {
      JoinNoSpace(parts[1..], sep);
    }
  }

  lemma {:induction false} JoinEmpty(parts: seq<string>, sep: char)
    requires forall i | 0 <= i < |parts| :: parts[i] != []
    ensures Join(parts, sep) == [] <==> parts == []
  {
  }

  /** When no keyword holds a `+`, splitting the query on `+` gives back the
      words exactly: no empty segment, so no leading, trailing or doubled `+`. */
  lemma QueryWords(keywords: string)
    requires '+' !in keywords
    requires !AllSpace(keywords)
    ensures Split(Query(keywords), '+') == SplitWhitespace(keywords)
    ensures forall i | 0 <= i < |Split(Query(keywords), '+')| :: Split(Query(keywords), '+')[i] != []
  {
    var tokens := SplitWhitespace(keywords);
    SplitWhitespaceEmpty(keywords);
    forall i | 0 <= i < |tokens| ensures '+' !in tokens[i] {
      if '+' in tokens[i] {
        TokenChars(keywords, i, '+');
      }
    }
    SplitJoin(tokens, '+');
  }

  // ---------------------------------------------------------------------------
  // Links and records

  /** The link of a record: a root-relative `href` gets the site origin in front,
      any other `href` is kept as it is. */
  function ResolveLink(href: string): (link: string)
    ensures |href| <= |link| && link[|link| - |href|..] == href
    ensures link != href <==> StartsWith(href, "/")
    ensures link != href ==> link == Origin + href
  {
    if StartsWith(href, "/") then Origin + href else href
  }

  /** The record one matched element yields: none unless it has a non-empty
      `href` and a non-empty title. */
  function Listing(e: Element): (r: Option<JobListing>)
    ensures r.Some? <==> e.href.Some? && e.href.value != "" && e.title != ""
    ensures r.Some? ==> r.value.title == e.title && r.value.link == ResolveLink(e.href.value)
  {
    if e.href.Some? && e.href.value != "" && e.title != "" then
      Some(JobListing(e.title, ResolveLink(e.href.value)))
    else
      None
  }

  /** The records of a run of matched elements, in their order. */
  function Collect(links: seq<Element>): (jobs: seq<JobListing>)
    ensures |jobs| <= |links|
    ensures forall j | 0 <= j < |jobs| :: jobs[j].title != "" && jobs[j].link != ""
  {
    if links == [] then []
    else
      match Listing(links[0])
      case Some(job) => [job] + Collect(links[1..])
      case None => Collect(links[1..])
  }

  /** `links[:n]` for `n >= 0`. */
  function Take(links: seq<Element>, n: nat): (r: seq<Element>)
    ensures |r| <= n && |r| <= |links| && r == links[..|r|]
    ensures |r| == n || r == links
  {
    if n < |links| then links[..n] else links
  }

  /** The records of all matches of the first rule (in `rules` order) that
      matches anything, taking at most `maxResults` of its matches. */
  function Extract(rules: seq<string>, select: string -> seq<Element>, maxResults: nat): (jobs: seq<JobListing>)
    ensures |jobs| <= maxResults
    ensures forall j | 0 <= j < |jobs| :: jobs[j].title != "" && jobs[j].link != ""
  {
    if rules == [] then []
    else if select(rules[0]) != [] then Collect(Take(select(rules[0]), maxResults))
    else Extract(rules[1..], select, maxResults)
  }

  // ---------------------------------------------------------------------------
  // Properties of the extraction

  /** Collecting is a homomorphism on concatenation: records keep the order of
      the elements they come from. */
  lemma {:induction false} CollectAppend(a: seq<Element>, b: seq<Element>)
    ensures Collect(a + b) == Collect(a) + Collect(b)
  {
    if a == [] {
      assert a + b == b;
    } else {
      assert (a + b)[0] == a[0];
      assert (a + b)[1..] == a[1..] + b;
      CollectAppend(a[1..], b);
    }
  }

  /** When every element is complete, each yields exactly its own record, at
      its own position. */
  lemma {:induction false} CollectAllComplete(links: seq<Element>)
    requires forall i | 0 <= i < |links| :: Listing(links[i]).Some?
    ensures |Collect(links)| == |links|
    ensures forall i | 0 <= i < |links| :: Collect(links)[i] == Listing(links[i]).value
  {
    if links != [] {
      CollectAllComplete(links[1..]);
    }
  }

  /** Every record comes from some element of the input. */
  lemma {:induction false} CollectFrom(links: seq<Element>, job: JobListing)
    requires job in Collect(links)
    ensures exists e | e in links :: Listing(e) == Some(job)
  {
    var rest := Collect(links[1..]);
    if Listing(links[0]) == Some(job) {
      assert links[0] in links;
    } else {
      assert job in rest;
      CollectFrom(links[1..], job);
      var e :| e in links[1..] && Listing(e) == Some(job);
      assert e in links;
    }
  }

  /** The rule that is used is the first one that matches anything, and the
      result comes only from its first `maxResults` matches. */
  lemma {:induction false} ExtractFirstMatch(rules: seq<string>, select: string -> seq<Element>, maxResults: nat, k: nat)
    requires k < |rules| && select(rules[k]) != []
    requires forall j | 0 <= j < k :: select(rules[j]) == []
    ensures Extract(rules, select, maxResults) == Collect(Take(select(rules[k]), maxResults))
  {
    if k > 0 {
      assert select(rules[0]) == [];
      ExtractFirstMatch(rules[1..], select, maxResults, k - 1);
    }
  }

  /** When no rule matches anything the result is empty. */
  lemma {:induction false} ExtractNoMatch(rules: seq<string>, select: string -> seq<Element>, maxResults: nat)
    requires forall j | 0 <= j < |rules| :: select(rules[j]) == []
    ensures Extract(rules, select, maxResults) == []
  {
    if rules != [] {
      ExtractNoMatch(rules[1..], select, maxResults);
    }
  }

  /** Rules after the first matching one are never consulted: two pages that
      agree up to and including that rule give the same records, whatever the
      later rules would match. */
  lemma LaterRulesIgnored(rules: seq<string>, select1: string -> seq<Element>, select2: string -> seq<Element>, maxResults: nat, k: nat)
    requires k < |rules| && select1(rules[k]) != []
    requires forall j | 0 <= j < k :: select1(rules[j]) == []
    requires forall j | 0 <= j <= k :: select1(rules[j]) == select2(rules[j])
    ensures Extract(rules, select1, maxResults) == Extract(rules, select2, maxResults)
  {
    ExtractFirstMatch(rules, select1, maxResults, k);
    ExtractFirstMatch(rules, select2, maxResults, k);
  }

  /** A page on which the first rule matches only an element without a title
      and the second rule matches a complete one: the first rule is still the
      one used, so the result is empty. */
  function EmptyTitleFirst(rule: string): seq<Element>
  {
    if rule == Selectors[0] then [Element("", Some("/viewjob?jk=1"))]
    else [Element("Data Analyst", Some("/viewjob?jk=2"))]
  }

  lemma ChosenRuleMayYieldNothing()
    ensures Collect(EmptyTitleFirst(Selectors[1])) == [JobListing("Data Analyst", Origin + "/viewjob?jk=2")]
    ensures Extract(Selectors, EmptyTitleFirst, 10) == []
  {
    assert Selectors[1] != Selectors[0];
    var e := Element("Data Analyst", Some("/viewjob?jk=2"));
    assert StartsWith("/viewjob?jk=2", "/");
    assert Listing(e) == Some(JobListing("Data Analyst", Origin + "/viewjob?jk=2"));
    assert Collect([e]) == [JobListing("Data Analyst", Origin + "/viewjob?jk=2")];
    ExtractFirstMatch(Selectors, EmptyTitleFirst, 10, 0);
  }

  // ---------------------------------------------------------------------------
  // The scraper

  /** The loop over the taken matches: append the record of each complete one. */
  method CollectLinks(taken: seq<Element>) returns (jobs: seq<JobListing>)
    ensures jobs == Collect(taken)
  {
    jobs := [];
    for n := 0 to |taken|
      invariant jobs == Collect(taken[..n])
    {
      var link := taken[n];
      var title := link.title;
      var href := link.href;
      if href.Some? && href.value != "" && title != "" {
        var fullLink;
        if StartsWith(href.value, "/") {
          fullLink := Origin + href.value;
        } else {
          fullLink := href.value;
        }
        assert Collect([link]) == [JobListing(title, fullLink)];
        jobs := jobs + [JobListing(title, fullLink)];
      } else {
        assert Collect([link]) == [];
      }
      assert taken[..n + 1] == taken[..n] + [taken[n]];
      CollectAppend(taken[..n], [taken[n]]);
    }
    assert taken[..|taken|] == taken;
  }

  /** The selector loop of `scrape_indeed`: try each rule in order; on the
      first that matches anything, collect from its first `maxResults`
      matches and stop. */
  method ExtractListings(select: string -> seq<Element>, maxResults: nat) returns (jobs: seq<JobListing>)
    ensures jobs == Extract(Selectors, select, maxResults)
  {
    jobs := [];
    var i := 0;
    while i < |Selectors|
      invariant 0 <= i <= |Selectors|
      invariant jobs == []
      invariant forall j | 0 <= j < i :: select(Selectors[j]) == []
    {
      var jobLinks := select(Selectors[i]);
      if jobLinks != [] {
        jobs := CollectLinks(Take(jobLinks, maxResults));
        ExtractFirstMatch(Selectors, select, maxResults, i);
        return;
      }
      i := i + 1;
    }
    ExtractNoMatch(Selectors, select, maxResults);
  }

  /** `JobScraper.scrape_indeed`: fetch the search page for the keywords and
      location, then extract. A fetch that fails (any exception) gives `[]`. */
  method ScrapeIndeed(keywords: string, location: string, maxResults: nat := 10,
                      fetch: string -> Option<string -> seq<Element>>)
    returns (jobs: seq<JobListing>)
    ensures jobs == match fetch(SearchUrl(Query(keywords), location))
                    case None => []
                    case Some(select) => Extract(Selectors, select, maxResults)
  {
    var url := SearchUrl(Query(keywords), location);
    var page := fetch(url);
    match page {
      case None =>
        jobs := [];
      case Some(select) =>
        jobs := ExtractListings(select, maxResults);
    }
  }
}
