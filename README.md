# menu-crawler: a verified model of the section resolution logic

menu-crawler visits restaurant pages in a headless browser. For every menu
section named in its input, it finds the element to click, clicks it (opening
a menu button first when needed), and records the URL the click leads to.
It has two entry points:

- `main.js` is an Apify actor. It runs `crawlItem` on each input item.
- `index.js` is an express `/crawl` handler with a simpler anchor-based
  strategy and a fallback URL for single-page menus.

This project models the decision logic of both in Dafny and proves what it
guarantees. The browser is never modelled as a library. Whatever the code
reads from it is given as data:

- A page is a snapshot: its elements in document order, each with its tag,
  id, role, link, texts, box size, computed style, what the driver's
  `isVisible` reports, and its parent index.
- Each section of a crawl gets an observation record: which lookups found
  something, which clicks succeeded, the URLs read before, during and after
  the polling loops, the page content, and the errors thrown.

The modules follow the program's structure:

- `Common`: optional values and JSON string properties (absent, `null` or a
  string), with their JavaScript truthiness and template-literal rendering.
- `Text`: `trim`, `toLowerCase`, `includes`, `length` in UTF-16 code units,
  and decimal rendering of numbers.
- `Social`: `isSocialMediaLink` (main.js:228-244; the in-page copy at
  main.js:60-69 is the same function).
- `Dom`: the snapshot, `querySelectorAll` over type selectors and
  `[role="button"]`, and same-tag sibling counting.
- `XPathGen`: `getXPath` as a recursive method with its sibling loop. It is
  proved against a structural path datatype and its rendering, and its paths
  are proved to select exactly the element they were generated for.
- `ScoreSort`: the score sort, a stable sort by descending score.
- `SectionScan`: the evaluate callback of `findSectionByText`. Its nested
  loops push matches into `allMatches`, then it sorts and takes the first;
  the result is proved to be the earliest best-scoring candidate.
- `MenuButton`: `findMenuButton`. It tries two text lookups (given as
  oracle results), then the locator loop, a first-match search.
- `Crawl`: `crawlItem`. It validates the item, then runs the section loop,
  which rewrites `sectionResults[sectionIndex]` in an array one section at a
  time. The loop has the `clicked` flag and `continue` of the source, and two
  bounded polling loops with early exit.
- `CrawlProperties`: lemmas about `crawlItem`'s results and the browser work
  it does.
- `CrawlHandler`: the `/crawl` handler. It covers the 400 reply, the
  requests left unanswered when browser setup or iteration throws, the
  case-insensitive anchor match, the `data-id` scanner and fallback URL, and
  the results loop, where a `goBack` failure appends a second entry.

Every method that runs a loop is proved equal to, or characterized by, a specification.
The lemmas state the properties that function promises.

## Model

| member | source | states |
|---|---|---|
| Common.Show | main.js:263 | A template literal prints a string property as the string itself (and `undefined`/`null` for the other two cases). |
| Text.Trim | main.js:72 | Definition of `String.prototype.trim`: the JavaScript whitespace and line terminators are cut from both ends. |
| Text.Lower | main.js:67 | Definition of `toLowerCase`, character by character, including the one-to-two mapping of U+0130. |
| Text.Contains | main.js:98 | Definition of `includes`: the second string is a prefix of some suffix of the first. |
| Text.TrimIsSlice | main.js:72 | `trim` returns the slice of the input between leading and trailing whitespace, and only whitespace is removed at either end. |
| Text.TrimIdempotent | main.js:72 | Trimming an already trimmed label changes nothing. |
| Text.LowerIdempotent | main.js:67 | Lower-casing twice is the same as lower-casing once. |
| Text.TrimLowerCommute | index.js:28 | Trimming and lower-casing commute, so `s.trim().toLowerCase()` is also the trim of the lower-cased string. |
| Text.ContainsSpec | main.js:98 | `includes` holds exactly when the second string occurs at some position of the first. |
| Text.ContainsEmpty | main.js:98 | Every string includes the empty string, which is the cause of the empty-text quirk of the scan. |
| Text.Utf16Length | main.js:107 | `length` counts UTF-16 code units: between one and two per character. |
| Text.NatToString | main.js:48 | The decimal rendering of `ix + 1` is a non-empty digit string whose value is the number, with no leading zero (it starts with `0` exactly for zero). |
| Social.IsSocialMediaLink | main.js:228-244 | Definition of `isSocialMediaLink`: false for an empty link, otherwise whether the lower-cased link includes one of the ten listed domains. |
| Social.SomeDomainInSpec | main.js:243 | `domains.some(d => s.includes(d))` holds exactly when some listed domain occurs in `s`. |
| Social.SocialMediaLinkSpec | main.js:228-244 | A link is social exactly when it is non-empty and one of the ten domains occurs in its lower-cased form; an absent or empty link is never social. |
| Social.SocialIgnoresCase | main.js:242-243 | A link and its lower-cased form are classified alike. |
| Dom.Select | main.js:75 | Definition of `querySelectorAll` for a tag name or `[role="button"]`: the indices of the matching elements in document order. |
| Dom.Matches | main.js:75 | Definition of selector matching: a type selector matches the lower-cased tag name, `[role="button"]` the role attribute. |
| Dom.SelectSpec | main.js:75 | `querySelectorAll` lists every matching element, each once, in increasing document order, and nothing else. |
| Dom.SameTagBefore | main.js:43-53 | Definition of `ix` when the loop reaches the element: the number of earlier children of the same parent with the same tag name. |
| Dom.SameTagBeforeInjective | main.js:43-53 | Two distinct same-tag siblings get distinct sibling counts, the earlier one a smaller count. |
| XPathGen.XPathOf | main.js:36-54 | Definition of the path `getXPath` builds, as a structure: the id step, the `/html/body` root, or the parent's path plus a step with tag and position; `None` where the climb reaches the document. |
| XPathGen.Render | main.js:38-52 | Definition of the path's text: the strings the script concatenates for each kind of step. |
| XPathGen.SiblingIndex | main.js:43-53 | The sibling loop counts exactly the earlier element siblings with the element's tag name. |
| XPathGen.GetXPath | main.js:36-54 | The method computes the specified path string, or `None` where the script throws by climbing to the document. |
| XPathGen.XPathString | main.js:36-54 | Definition of `getXPath(element)`: the rendered path, or `None` where the script throws. |
| XPathGen.XPathStringShape | main.js:36-54 | An id gives `//*[@id="id"]`, the body gives `/html/body`, a root without either throws, and any other element gets its parent's path, `/`, the lower-cased tag and `[1 + earlier same-tag siblings]`. |
| XPathGen.XPathDenotes | main.js:36-54 | A generated path selects the element it was generated for. |
| XPathGen.DenotesUnique | main.js:36-54 | When ids are unique, a path selects at most one element. |
| XPathGen.XPathIdentifies | main.js:36-54 | Round trip: when ids are unique, the generated path selects element `j` if and only if `j` is the element it was generated for. |
| ScoreSort.SortByScore | main.js:115 | Definition of `allMatches.sort((a, b) => b.score - a.score)` as a stable insertion sort by descending score; the result has the input's length. |
| ScoreSort.SortByScoreCorrect | main.js:115 | The sort orders by descending score, is a permutation of its input, and keeps matches of equal score in input order. |
| ScoreSort.SortedHeadIsEarliestBest | main.js:115-118 | The first sorted match has the highest score, and it is the earliest input match with that score. |
| SectionScan.Rendered | main.js:87-92 | Definition of the rendering test: positive width and height, and `display`, `visibility` and `pointer-events` not hiding the element. |
| SectionScan.SocialHref | main.js:80-81 | Definition of the skip test: the element has a link and it is a social-media link. |
| SectionScan.ElementText | main.js:77 | Definition of the scanned text: the trimmed `innerText`, or the trimmed `textContent` when `innerText` is empty. |
| SectionScan.CandidateScore | main.js:79-110 | Definition of the callback's tests for one element: skip a social link, then the exact test and the contains test, each under the rendering test, with scores 100, 90 and 80. |
| SectionScan.CandidateScoreRules | main.js:77-110 | An element is a candidate exactly when its link is not social, it is rendered, and its trimmed text equals the label or is in a substring relation with it either way. It scores 100 exactly when the text equals the label. Otherwise it scores 90 when the text is at most as long as the label, else 80. |
| SectionScan.EmptyTextScoresNinety | main.js:98-107 | A rendered, non-social element with empty text scores 90 against any non-empty label. |
| SectionScan.ScoreElement | main.js:77-110 | The callback's tests compute the candidate score, or no candidate. |
| SectionScan.VisitElement | main.js:77-110 | One callback visit skips the element, pushes its match with path, score and text, or throws in `getXPath`, as specified. |
| SectionScan.VisitAndPush | main.js:76-110 | One inner-loop iteration extends `allMatches` with the visited element's match, or throws. |
| SectionScan.CollectGroup | main.js:76-111 | The inner loop over one selector group extends the matches so far by those of the group's elements, in document order; it gives `None` once `getXPath` throws. |
| SectionScan.CollectMatches | main.js:74-112 | The nested loops build the specified match list over the selector groups in order, or `None` when `getXPath` throws. |
| SectionScan.ScanOrder | main.js:74-76 | Definition of the visiting order: each selector group in turn, each group's elements in document order. |
| SectionScan.ScanStep | main.js:77-110 | Definition of one visit: skip a non-candidate, push the candidate's path, score and text, or throw when `getXPath` does. |
| SectionScan.MatchesOf | main.js:74-112 | Definition of `allMatches` after the loops visit a given order, or `None` once a visit throws. |
| SectionScan.CollectCharacterized | main.js:74-112 | The loops throw exactly when some visit throws. Otherwise the list holds every pushed match, in visiting order, each traced back to its visit. |
| SectionScan.EvaluateScan | main.js:56-122 | Definition of the callback's outcome: the matches collected over the selector groups, sorted, then the first or `{found: false}`; `None` when `getXPath` throws. |
| SectionScan.ScanForSection | main.js:56-122 | The evaluate callback returns the specified outcome: collect, sort, then the first match or `{found: false}`. |
| SectionScan.ScanSelectsBest | main.js:56-122 | `{found: false}` exactly when no element of the scan order is a candidate. The callback throws exactly when some candidate has no path. Otherwise the result is a candidate with the highest score, earliest in scan order among equal scores, carrying its path, text and score. |
| MenuButton.Accepts | main.js:160-164 | Definition of the test on each `getByText` lookup (also at main.js:174-178): visible, and no link or a link that is not social. |
| MenuButton.MenuCandidate | main.js:195-212 | Definition of the locator loop's acceptance test: trimmed text equal to or containing the trimmed label, no social link, visible. |
| MenuButton.TestElement | main.js:195-212 | One locator iteration accepts exactly the elements whose trimmed text equals or contains the trimmed label, whose link is not social, and which are visible. |
| MenuButton.LocateInGroup | main.js:193-214 | The loop over one group's elements returns the first accepted element of the group, or none, given that no earlier element was accepted. |
| MenuButton.LocateFirst | main.js:186-218 | The locator loop returns the first accepted element in selector-group order, then index order, and `null` when none is accepted. |
| MenuButton.FindMenuButton | main.js:158-220 | Either the exact lookup (visible, non-social link) is returned, else the contains lookup under the same test, else the locator loop's first accepted element, else `null`; each outcome holds exactly under its condition. |
| Crawl.PollSpec | main.js:409-423 | Definition of a polling loop's outcome from its first poll; the URL loop at main.js:490-498 is the same shape. |
| Crawl.PollFrom | main.js:409-423 | Definition of a bounded polling loop with early exit, from poll `i` on: the first successful poll below the bound, or the bound when none succeeds. |
| Crawl.PollSpecCorrect | main.js:409-423 | A polling loop runs at most its bound. It succeeds exactly when some poll below the bound would, and then it stopped at the first successful poll. |
| Crawl.Poll | main.js:490-498 | The `for` loop with `break` performs the specified polls and reports whether one succeeded. |
| Crawl.ValidParent | main.js:260 | Definition of the URL validation: `parent_page_url` is truthy and starts with "http". |
| Crawl.InvalidUrlError | main.js:263-266 | Definition of the message `Invalid URL: ${parent_page_url}`. |
| Crawl.MenuUsable | main.js:392 | Definition of `menu_button && menu_button.text`. |
| Crawl.UrlMoved | main.js:493 | Definition of the URL poll's test at poll `i`: the URL differs from `prevUrl`, from the parent page and from `about:blank`. |
| Crawl.SavableUrl | main.js:514 | Definition of the save test: non-empty, not the parent page, not `about:blank`, starts with "http". |
| Crawl.ClickSpec | main.js:352-475 | Definition of the click phase: the direct click under both visibility tests, else the menu path with its forced click, evaluate fallback and action-sheet poll. |
| Crawl.SectionSpec | main.js:336-562 | Definition of one section's run: the settle error, the click phase, the URL poll and `waitForURL`, the save test and the return to the parent page. |
| Crawl.CrawlSection | main.js:336-562 | The loop body for one section produces the specified new record and browser work: settle error, direct click, menu click with evaluate fallback, the two polls, the save test and the return to the parent page. |
| Crawl.CrawlSections | main.js:334-563 | The section loop leaves, in each slot of `sectionResults`, the record its own section's run produces. |
| Crawl.Passthrough | main.js:252-256 | Definition of `{ name, selector, url }` of a section that needs no crawl. |
| Crawl.Failed | main.js:263 | Definition of `{ name, selector: null, url: null, error }` of a section that cannot be crawled (also at main.js:300). |
| Crawl.CrawlSpec | main.js:247-573 | Definition of `crawlItem`'s result: the three validation branches, the launch failure, or the section records after the loop. |
| Crawl.CrawlItem | main.js:247-573 | `crawlItem` returns the specified result for every item: the three validation branches, the launch failure, and the crawled result. |
| CrawlProperties.OneEntryPerSection | main.js:250-334 | For array `sections`, the result has one entry per input section, in input order, with the section's name. The call throws exactly for a non-array in the first two branches. A missing or empty `sections` that reaches the third test gives no entries and "Sections must be a non-empty array". |
| CrawlProperties.NoCrawlPassesThrough | main.js:250-258 | `needs_crawl` false maps every section to `{name, selector, url}` and adds no error. |
| CrawlProperties.InvalidUrlFailsEverySection | main.js:260-268 | An absent, empty or non-"http" URL gives every section `selector: null`, `url: null` and the item's "Invalid URL: …" error. |
| CrawlProperties.LaunchFailureFailsEverySection | main.js:296-305 | A failed launch gives every section null selector and url and the launch message, and the item the same error. |
| CrawlProperties.CrawledItemShape | main.js:567-572 | A crawled item is returned with `needs_crawl: false`, no item error, the same parent URL, and one trace per section. |
| CrawlProperties.SectionKeepsIdentity | main.js:334 | Processing a section never changes its name or selector. |
| CrawlProperties.UnclickedSection | main.js:478-483 | A section that was not clicked gets `url: null` and "No clickable element found". |
| CrawlProperties.SavedUrlRule | main.js:511-520 | A clicked section's url is the browser URL exactly when that URL is non-empty, not the parent page, not `about:blank`, and starts with "http"; otherwise it is null. The error field is left unchanged. |
| CrawlProperties.RecordIgnoresPolls | main.js:486-520 | The saved record does not depend on `prevUrl`, on the URLs seen while polling, or on the action sheet: only the URL read after the wait counts. |
| CrawlProperties.ReturnOnlyBeforeLast | main.js:522-556 | The return to the parent page happens exactly for a clicked section that is not the last. It is skipped when the browser is already there, and retried once after a failed navigation. |
| CrawlProperties.PollsAreBounded | main.js:407-428 | The action sheet is polled at most 10 times, and only after the menu button was clicked. The URL is polled at most 15 times (main.js:489-509), and only after a click. `waitForURL` runs exactly when no poll saw the URL move. |
| CrawlProperties.ClickPaths | main.js:352-475 | A direct click needs the section found, both visibility tests and a successful click, and has no fallback. The menu is tried exactly when there was no direct click and the menu button has text. The evaluate click is used only on the menu path, after the forced click failed. |
| CrawlProperties.SettleErrorRecorded | main.js:558-562 | An error while the page settles leaves the section unclicked, with that message and a null url. |
| CrawlProperties.LastSectionStays | main.js:554-556 | The last section never returns to the parent page. |
| CrawlHandler.AnchorMatches | index.js:28 | Definition of the `find` test: the anchor's trimmed, lower-cased text includes the trimmed, lower-cased section name. |
| CrawlHandler.FindAnchor | index.js:26-29 | Definition of `Array.from(document.querySelectorAll("a")).find(...)`: the first `a` element that passes the test. |
| CrawlHandler.FindFirstNone | index.js:27 | `find` gives nothing exactly when no listed element passes. |
| CrawlHandler.FindFirstSome | index.js:27 | What `find` gives is the first listed element that passes. |
| CrawlHandler.FindAnchorSpec | index.js:26-29 | The clicked anchor is the earliest `a` element of the document whose trimmed, lower-cased text contains the trimmed, lower-cased section name. No anchor is clicked exactly when none matches. |
| CrawlHandler.AnchorMatchIgnoresCase | index.js:28 | Lower-casing the section name first does not change the match. |
| CrawlHandler.AnchorMatchIgnoresPadding | index.js:28 | Whitespace around the section name does not change the match. |
| CrawlHandler.DataIdAt | index.js:49 | Definition of a match of `data-id="(\d+)"` at one position: the literal, a non-empty digit run, then the closing quote. |
| CrawlHandler.CaptureAt | index.js:49 | Definition of the captured group of a match: the digit run after `data-id="`. |
| CrawlHandler.FindDataIdFrom | index.js:49 | Definition of the regular expression's search from a position on, left to right. |
| CrawlHandler.FindDataId | index.js:49 | Definition of `html.match(/data-id="(\d+)"/)`'s capture: a left-to-right scan for the first position where the pattern matches. |
| CrawlHandler.DigitRun | index.js:49 | Greedy `\d+` takes the longest run of digits at the front. |
| CrawlHandler.FindDataIdSpec | index.js:49 | The captured id is the non-empty digit run of the leftmost `data-id="<digits>"` occurrence. There is no match exactly when the HTML has no such occurrence. |
| CrawlHandler.DataIdRoundTrip | index.js:49 | An attribute written from a number is found again, carrying the number's decimal digits. |
| CrawlHandler.TrimOneSlash | index.js:51 | `replace(/\/$/, "")` removes exactly one trailing slash when there is one, and otherwise leaves the path unchanged. |
| CrawlHandler.FallbackUrl | index.js:51-52 | Definition of the fallback URL: origin, path with one trailing slash removed, `/menu/`, and the id. |
| CrawlHandler.RecordedUrl | index.js:42-54 | Definition of the URL a clicked section records: the new URL when it moved, else the fallback when the page has a `data-id`, else the unchanged URL. |
| CrawlHandler.SectionEntries | index.js:24-62 | Definition of what one section appends: the evaluate error entry; the no-match entry; the `page.content()` error entry when the URL did not move; otherwise the recorded URL, followed by an error entry when `goBack` throws. |
| CrawlHandler.SectionsTruthy | index.js:9 | Definition of `sections` being truthy: anything but `undefined`, `null`, `false`, `0` and the empty string. |
| CrawlHandler.Iterated | index.js:23 | Definition of what `for (const section of sections)` visits: an array's elements, a string's characters, or nothing (a TypeError) for a value that is not iterable. |
| CrawlHandler.SectionOutput | index.js:24-62 | Definition of what section `i` appends, as a function of `i`. |
| CrawlHandler.EntriesUpTo | index.js:21-63 | Definition of `results` after the loop has run over the first `n` sections, in order. |
| CrawlHandler.HandleSpec | index.js:8-66 | Definition of the reply: the 400 reply, an unanswered request when setup or iteration throws, or the results of all sections. |
| CrawlHandler.FallbackUrlShape | index.js:51-52 | The fallback URL is the origin, the path with at most one trailing slash removed, "/menu/", then the id; a path "/" leaves just the origin. |
| CrawlHandler.HandleSection | index.js:24-62 | One section's `try` block, with its `continue` and `catch`, appends the specified entries. |
| CrawlHandler.HandleCrawl | index.js:8-66 | The handler gives the 400 reply; otherwise it leaves the request unanswered when launch, `newPage` or `goto` throws or `sections` is not iterable; otherwise it replies with the results of running the loop over the iterated sections in order. |
| CrawlHandler.MissingFieldsRejected | index.js:9-11 | The 400 reply with "Missing url or sections" comes exactly when `url` is falsy or `sections` is falsy. |
| CrawlHandler.SectionEntriesShape | index.js:37-61 | Each section appends one or two entries carrying its name. It appends two exactly when its URL was recorded and `goBack` then threw: the success entry, then the error entry. |
| CrawlHandler.UnmatchedSectionEntry | index.js:37-40 | A section that no anchor matches appends the single entry `{name, url: null, error: "No clickable element found"}`. |
| CrawlHandler.RecordedUrlRule | index.js:42-56 | A URL that moved is recorded as is. An unchanged URL is replaced by the fallback built from the leftmost `data-id` occurrence, or kept when the page has none. |
| CrawlHandler.UnansweredRequests | index.js:13-23 | A request that passes the 400 check goes unanswered exactly when launch, `newPage` or `goto` throws or `sections` is not iterable; the error is the setup error, else the TypeError of the `for ... of`. |
| CrawlHandler.ResultsFollowSections | index.js:21-66 | The handler replies with results exactly when the 400 check passes, setup succeeds and `sections` is iterable. `results` is then cut into consecutive blocks, one per iterated section in order: block `i` is exactly what section `i` appends, one or two entries, all named after it. |

## Left out

- Browser and driver calls are not modelled as library behaviour. `getByText`, `isVisible`, `getAttribute`, clicks,
  `goBack`, `waitForURL` and `page.content()` are observation fields. In `main.js`, launch and context setup (main.js:283-313)
  is reduced to whether the launch throws. In `index.js`, `puppeteer.launch`, `newPage` and `goto` (index.js:13-19) are
  reduced to one optional setup error.
- In `index.js`, an array element that is not a string, and a truthy `url` that is not a string, are not modelled. A
  section object can cause an evaluate error or, on a page with no anchors, the no-click entry.
- In `index.js`, the browser is left open when setup or iteration throws. The model records only that no reply is sent.
- `findSectionByText` outside the evaluate callback is not modelled. This covers its two `getByText` lookups (main.js:11-32)
  and the XPath locator with its second social and visibility test (main.js:125-147). `crawlItem` takes
  "section found" and "visible" as observations, so the model does not connect `crawlItem` to the scan.
- `findMenuButton`'s two text lookups are oracle results; `crawlItem` takes "menu button found" as an observation.
- Timing is not modelled: `waitForTimeout`, `waitForLoadState`, `networkidle` and every timeout value. Only the iteration bounds
  of the two polling loops remain.
- The initial navigation and its hostname redirect check (main.js:315-331) are left out because their errors are caught and change no result.
- `new URL(...)` parsing is left out: the fallback URL takes the origin and path name as given parts.
- The regular expression at index.js:49 is a scanner for the one pattern `data-id="<ASCII digits>"`, not a regex engine.
- `toLowerCase` is exact only for Basic Latin, Latin-1, Latin Extended-A, U+0130 and U+212A; other characters are kept unchanged.
- Element text is one field per reading (`innerText`, `textContent`) as the browser reports it; layout and computed style are snapshot
  fields, not computed.
- An element's `href` property and `href` attribute are one field, although the property is the resolved URL.
- Playwright's `locator(selector)` is modelled as `querySelectorAll` in document order; shadow DOM is not modelled.
- The errors a locator group can throw (caught at main.js:215-217) are left out, and so are the errors `page.url()` can throw.
- In `crawlItem`, only the error while the page settles (main.js:345-347) is an observed throw reaching the section
  `catch` (main.js:558-562). Throws in the action-sheet poll (main.js:411) or in the search after the menu opens stop at the
  inner catches (main.js:463, 466): the section is left unclicked and no error is recorded. The model takes those
  as observations that the element was not found.
- Sections given as plain strings (`section.name || section`, main.js:338) are left out: sections are records.
- `menu_button` being `undefined` or `null` are one case.
- ScoreSort.SortByScore: the built-in sort is a stable insertion sort on values, so the in-place update of `allMatches` is not modelled.
- `browser.close`, the Apify actor main loop (main.js:576-597), the express setup and `listen` (index.js:1-8, 65-72),
  and all console output are left out as environment and plumbing.

## Behaviour worth knowing

- `prevUrl` is read after the click (main.js:486), not before it.
- Only the click after opening the menu has the programmatic `el.click()` fallback (main.js:448-455). A failed direct click
  moves on to the menu path instead.
- A section nothing could click gets "No clickable element found", never a separate click error.
- The scan's rendering test ignores `opacity` (main.js:89-92). Of the tests on the section element, only the direct-click test reads it (main.js:364);
  the action-sheet test also reads it (main.js:415).
- Failed sections do not navigate back, and `index.js` returns with `goBack` rather than direct navigation.
- A crawled section keeps the error field it was given (main.js:334, 514-519).
- The save test checks only that the URL starts with "http" (main.js:514), so `httpfoo:` passes.
- In `index.js`, `results` can hold two entries for one section, so its length need not equal the number of sections.
- In `index.js`, a string `sections` is crawled character by character, and a truthy value that is not iterable leaves
  the request unanswered.
- An id containing `"` gives a path string that is not well-formed. `XPathGen.XPathIdentifies` is stated over the
  structure of the path, not over its text.
