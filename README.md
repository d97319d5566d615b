# JobScraper extraction core, modelled in Dafny

`JobScraper` collects job postings from two places:

- **`scrape_indeed`** builds an Indeed search URL from free-text keywords and a location. It fetches the results page and tries five CSS selector rules in a fixed order. The first rule that matches anything is used. From its first `max_results` matches it keeps every element that has both a title and an `href`, and it makes root-relative links absolute.
- **`scrape_github_internships`** reads the Markdown README of an internship list line by line. A line such as `| **[Company](...)` sets the current company. A later table row whose third cell is a real role produces a `{company, role, location}` record for that company.

The model covers the data path of both operations. The network, the HTML parser and the base64/JSON decoding are replaced by parameters.

Modules:

- `Wrappers` holds the `Option` type.
- `PyStr` holds the Python `str` operations the scraper relies on. `isspace` (with its full 29-character set) and `startswith` are defined outright. `strip()`, `find`, substring `in`, `split(sep)`, `split()` and `sep.join` carry contracts about their results, and lemmas complete them: `split(sep)` and `sep.join` undo each other, and the `split()` lemmas fix the words of any text made of words and whitespace runs.
- `IndeedSearch` holds the query and URL construction, the record of one matched element, the selector fallback as the function `Extract`, the imperative loops `CollectLinks` and `ExtractListings`, each proved equal to its specification function, and the method `ScrapeIndeed` that puts them together.
- `ReadmeScan` holds the line classification, the scan as a fold (`Run` over `Kinds(lines)`) and the imperative loop `ScrapeGithubInternships`, which is proved equal to that fold. Its loop body is `ScanLine`.

## Model

| member | source | states |
|---|---|---|
| PyStr.IsSpace | src/job_scraper.py:78 | defined as Python's `str.isspace` on one character: tab through carriage return, U+001C to U+001F, space, U+0085, U+00A0, U+1680, U+2000 to U+200A, U+2028, U+2029, U+202F, U+205F and U+3000 (29 characters); `strip()` and `split()` both use it |
| PyStr.StartsWith | src/job_scraper.py:81 | defined as `startswith`: the prefix is no longer than the text and equals its first characters (also used at lines 36 and 89) |
| PyStr.Strip | src/job_scraper.py:78 | the result is a slice of the line with only whitespace before and after it, and it neither starts nor ends with whitespace |
| PyStr.TrimStart | src/job_scraper.py:78 | the result is a suffix of the input, everything dropped is whitespace, and the result does not start with whitespace |
| PyStr.TrimEnd | src/job_scraper.py:78 | the result is a prefix of the input, everything dropped is whitespace, and the result does not end with whitespace |
| PyStr.Find | src/job_scraper.py:83-84 | -1 exactly when the character is absent; otherwise an index holding the character with no earlier occurrence |
| PyStr.Contains | src/job_scraper.py:81 | true exactly when the substring occurs at some offset |
| PyStr.Split | src/job_scraper.py:74 | at least one part, and no part holds the separator |
| PyStr.JoinSplit | src/job_scraper.py:74 | joining the parts of a split with the separator gives back the original text |
| PyStr.Join | src/job_scraper.py:7 | `sep.join`: empty for no parts, the part itself for one part, and otherwise the first part followed by the separator; `SplitJoin` shows it is undone by `split` |
| PyStr.SplitJoin | src/job_scraper.py:7 | splitting a join of non-empty, separator-free parts gives back the parts |
| PyStr.SplitWhitespace | src/job_scraper.py:7 | every word of `split()` is non-empty and holds no whitespace; a text that starts with a non-space character has a first word that starts with it |
| PyStr.SplitWhitespaceChars | src/job_scraper.py:7 | the words, concatenated, are exactly the non-whitespace characters of the text, in order |
| PyStr.SplitWhitespaceEmpty | src/job_scraper.py:7 | `split()` is empty exactly when the text is all whitespace |
| PyStr.SplitWhitespaceAppend | src/job_scraper.py:7 | whitespace separates words: when the first text ends in whitespace or the second begins with it (or either is empty), the words of the two texts together are the words of the first followed by the words of the second |
| PyStr.SplitWhitespaceWord | src/job_scraper.py:7 | a non-empty run without whitespace is exactly one word |
| PyStr.TokenChars | src/job_scraper.py:7 | every character of a word occurs in the text |
| IndeedSearch.Query | src/job_scraper.py:7 | the query holds no whitespace, and it is empty exactly when the keywords are all whitespace |
| IndeedSearch.QueryWords | src/job_scraper.py:7 | when no keyword holds `+` and the keywords are not all whitespace, splitting the query on `+` gives back the words, and no segment is empty |
| IndeedSearch.Selectors | src/job_scraper.py:21-27 | defined as the five selector rules, alternatives tried in the source's order because the page layout changes |
| IndeedSearch.SearchUrl | src/job_scraper.py:8 | the URL is the fixed search base, then the query at a known position, then `&l=`, and it ends with the location unchanged |
| IndeedSearch.ResolveLink | src/job_scraper.py:36-39 | the href is a suffix of the link; the link differs from the href exactly when the href starts with `/`, and then the link is the site origin followed by the href |
| IndeedSearch.Listing | src/job_scraper.py:33-43 | an element yields a record exactly when its href is present and non-empty and its title is non-empty; the record keeps the title and carries the resolved link |
| IndeedSearch.Collect | src/job_scraper.py:32-43 | no more records than elements, and every record has a non-empty title and a non-empty link |
| IndeedSearch.Take | src/job_scraper.py:32 | `links[:n]`: a prefix of at most `n` elements, and all of them when there are fewer than `n` |
| IndeedSearch.CollectAppend | src/job_scraper.py:32-43 | the records of two runs of elements are the records of the first followed by the records of the second |
| IndeedSearch.CollectAllComplete | src/job_scraper.py:35-43 | when every element has a title and an href, each element yields its own record at its own position |
| IndeedSearch.CollectFrom | src/job_scraper.py:35-43 | every record is the record of some input element |
| IndeedSearch.Extract | src/job_scraper.py:29-44 | the selector fallback: at most `max_results` records, each with a non-empty title and a non-empty link; the four lemmas below fix which rule it uses |
| IndeedSearch.ExtractFirstMatch | src/job_scraper.py:29-44 | when rule k is the first rule that matches anything, the result is the records of the first `max_results` matches of rule k |
| IndeedSearch.ExtractNoMatch | src/job_scraper.py:19-46 | when no rule matches anything, the result is empty |
| IndeedSearch.LaterRulesIgnored | src/job_scraper.py:44 | two pages that agree on every rule up to and including the first matching one give the same records |
| IndeedSearch.ChosenRuleMayYieldNothing | src/job_scraper.py:31-44 | the stop depends on matches, not on records: a first rule whose only match lacks a title stops the search with no records, although the second rule would have yielded one |
| IndeedSearch.CollectLinks | src/job_scraper.py:32-43 | the loop over the taken matches returns exactly `Collect` of them |
| IndeedSearch.ExtractListings | src/job_scraper.py:19-46 | the selector loop with its early stop returns exactly `Extract` over the five rules |
| IndeedSearch.ScrapeIndeed | src/job_scraper.py:6-50 | `max_results` defaults to 10; the result is empty when the fetch of the search URL fails, and otherwise it is `Extract` of the fetched page |
| ReadmeScan.IsHeaderLine | src/job_scraper.py:81 | defined as the company-line test: the stripped line starts with the five characters pipe, space, two asterisks, open bracket, and contains `](` somewhere |
| ReadmeScan.IsActive | src/job_scraper.py:89 | defined as the truthiness of `current_company`: a company is present and its name is not empty |
| ReadmeScan.IsRole | src/job_scraper.py:95 | defined as the role filter: the role is not empty, is not the heading `Role`, and does not contain `---` |
| ReadmeScan.HeaderName | src/job_scraper.py:83-86 | the text between the first `[` and the first `]`; when present it is non-empty and holds no `]` |
| ReadmeScan.HeaderNameSpec | src/job_scraper.py:83-86 | on a company line, no name exactly when `]` follows `[` at once; otherwise the name is non-empty, holds no `]` and sits between the marker and the first `]` |
| ReadmeScan.ClassifyRow | src/job_scraper.py:89-95 | a stripped line is a kept row exactly when it is not a company line, starts with a pipe, splits on pipes into at least four cells and its third cell, stripped, passes the role filter; role and location are the stripped third and fourth cells |
| ReadmeScan.Classify | src/job_scraper.py:78-95 | what a stripped line is to the scan (company line, kept row or other); a company name it reads is never empty and a kept role always passes the filter |
| ReadmeScan.Apply | src/job_scraper.py:81-100 | one loop step: the company changes exactly on a company line with a name; the records only grow, by exactly one record when the line is a kept row and a company is current, and that record is the current company with the row's role and location |
| ReadmeScan.Run | src/job_scraper.py:75-100 | the loop as a fold over the classified lines from no company and no records; at most one record per line |
| ReadmeScan.Scan | src/job_scraper.py:74-100 | the fold over the lines of the text; at most one record per line |
| ReadmeScan.ScanStep | src/job_scraper.py:77-100 | one more line adds exactly one record when a company is current and the line is a kept row, and nothing otherwise; a company line never adds a record |
| ReadmeScan.CompanyIsLatestHeader | src/job_scraper.py:81-86 | the current company is the name on the last company line that has a name, and there is none exactly when no line has one |
| ReadmeScan.RecordsWellFormed | src/job_scraper.py:85-100 | every record has a non-empty company and a role that passes the filter |
| ReadmeScan.NoHeaderNoRecords | src/job_scraper.py:75-89 | with no named company line there is no current company and there are no records |
| ReadmeScan.ScanPrefix | src/job_scraper.py:77-100 | records keep line order: the records of a text are a prefix of the records of that text with more lines appended |
| ReadmeScan.ScanLine | src/job_scraper.py:78-100 | one loop iteration changes the company and the records exactly as the classification of the line prescribes |
| ReadmeScan.ScrapeGithubInternships | src/job_scraper.py:71-107 | the result is empty when the download fails, and otherwise it is the records of the scan over the README split on newlines |

## Left out

- HTTP requests, the request headers and `raise_for_status` are left out. `ScrapeIndeed` takes a `fetch` function that returns the page or `None`, and `None` stands for any exception. The README download, the JSON decoding, the base64 decoding and the UTF-8 decoding are also left out: `ScrapeGithubInternships` receives the decoded text or `None`.
- HTML parsing is left out. A page is the function that answers `soup.select(rule)` with the matched elements in document order. An element carries `get_text(strip=True)` as its title and `get("href")` as an optional string.
- The `print` calls are left out because they only log.
- Exceptions raised after the fetch are not modelled. Selecting, slicing and appending do not raise on a parsed page.
- ScrapeIndeed: `max_results` is a natural number with the default 10. A negative value, which Python's `[:max_results]` would count from the end, is not modelled.
- SearchUrl: builds the URL text as formatted. The percent-encoding that the HTTP library applies to it afterwards is not modelled.
- QueryWords: is stated only for keywords without `+` that are not all whitespace; for all-whitespace keywords the query is empty and splits into one empty segment, which `Query` itself states. A `+` inside a keyword cannot be told apart from the separator in the query, so the split-back property does not hold then.
- The `len(parts) > 2` and `len(parts) > 3` guards at lines 92-93 are always true under the `len(parts) >= 4` test at line 91, so `Classify` reads the cells directly.
- The unused `re` import and the rest of the repository (command-line entry points, tests, output formatting) are not part of this model.
