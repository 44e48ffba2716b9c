/**
 * The `/crawl` request handler: reject a request without `url` or
 * `sections`, then for each section click the first anchor whose text
 * contains the section name, record the URL it leads to (with a fallback
 * built from a `data-id` attribute for single-page menus) and go back.
 * The browser is an oracle supplying, per section, the page snapshot and the
 * URLs, page content and errors the handler reads.
 */
module CrawlHandler {
  import opened Common
  import opened Text
  import opened Dom

  // ---------------------------------------------------------------------------
  // The anchor match

  /** `a.innerText.trim().toLowerCase().includes(sectionName.trim().toLowerCase())`. */
  predicate AnchorMatches(e: Element, sectionName: string)
  {
    Contains(Lower(Trim(e.innerText)), Lower(Trim(sectionName)))
  }

  /** Whether element `i` exists and matches, as a value. */
  function Hits(d: Snapshot, sectionName: string): nat -> bool
  {
    (i: nat) => i < |d.elements| && AnchorMatches(d.elements[i], sectionName)
  }

  /** `find`: the first listed element that passes `p`. */
  function FindFirst(p: nat -> bool, xs: seq<nat>): Option<nat>
  {
    if xs == [] then None
    else if p(xs[0]) then Some(xs[0])
    else FindFirst(p, xs[1..])
  }

  /** `find` gives nothing exactly when no listed element passes. */
  lemma {:induction false} FindFirstNone(p: nat -> bool, xs: seq<nat>)
    ensures FindFirst(p, xs).None? <==> forall k :: 0 <= k < |xs| ==> !p(xs[k])
  {
    if xs != [] {
      FindFirstNone(p, xs[1..]);
      assert forall k :: 1 <= k < |xs| ==> xs[k] == xs[1..][k - 1];
    }
  }

  /** What `find` gives is the first listed element that passes. */
  lemma {:induction false} FindFirstSome(p: nat -> bool, xs: seq<nat>) returns (k: nat)
    requires FindFirst(p, xs).Some?
    ensures k < |xs| && p(xs[k]) && xs[k] == FindFirst(p, xs).value
    ensures forall j :: 0 <= j < k ==> !p(xs[j])
  {
    if p(xs[0]) {
      k := 0;
    } else {
      var rest := xs[1..];
      var m := FindFirstSome(p, rest);
      k := m + 1;
      forall j | 0 <= j < k ensures !p(xs[j]) {
        if j > 0 {
          assert xs[j] == rest[j - 1];
        }
      }
    }
  }

  /** The anchor the handler clicks: the first `a` element, in document order, that matches. */
  function FindAnchor(d: Snapshot, sectionName: string): Option<nat>
  {
    FindFirst(Hits(d, sectionName), Select(d, TypeSelector("a")))
  }

  /**
   * The clicked anchor is the earliest `a` element of the document whose
   * trimmed, lower-cased text contains the trimmed, lower-cased section name;
   * no anchor is clicked exactly when none matches.
   */
  lemma FindAnchorSpec(d: Snapshot, sectionName: string)
    ensures FindAnchor(d, sectionName).None? <==>
      forall i :: 0 <= i < |d.elements| && Matches(d.elements[i], TypeSelector("a")) ==> !AnchorMatches(d.elements[i], sectionName)
    ensures FindAnchor(d, sectionName).Some? ==>
      var i := FindAnchor(d, sectionName).value;
      && i < |d.elements| && Matches(d.elements[i], TypeSelector("a")) && AnchorMatches(d.elements[i], sectionName)
      && forall j :: 0 <= j < i && Matches(d.elements[j], TypeSelector("a")) ==> !AnchorMatches(d.elements[j], sectionName)
  {
    var anchors := Select(d, TypeSelector("a"));
    FindFirstNone(Hits(d, sectionName), anchors);
    if FindAnchor(d, sectionName).None? {
      NoAnchorMatches(d, sectionName, anchors);
    } else {
      var k := FindFirstSome(Hits(d, sectionName), anchors);
      EarliestAnchor(d, sectionName, anchors, k);
    }
  }

  lemma NoAnchorMatches(d: Snapshot, sectionName: string, anchors: seq<nat>)
    requires anchors == Select(d, TypeSelector("a"))
    requires forall k :: 0 <= k < |anchors| ==> !Hits(d, sectionName)(anchors[k])
    ensures forall i :: 0 <= i < |d.elements| && Matches(d.elements[i], TypeSelector("a")) ==> !AnchorMatches(d.elements[i], sectionName)
  {
    SelectSpec(d, TypeSelector("a"));
    forall i | 0 <= i < |d.elements| && Matches(d.elements[i], TypeSelector("a"))
      ensures !AnchorMatches(d.elements[i], sectionName)
    {
      var k :| 0 <= k < |anchors| && anchors[k] == i;
      assert !Hits(d, sectionName)(anchors[k]);
    }
  }

  /** Anchor `k` of the list is the first that matches, so no earlier `a` element of the document matches. */
  lemma EarliestAnchor(d: Snapshot, sectionName: string, anchors: seq<nat>, k: nat)
    requires anchors == Select(d, TypeSelector("a"))
    requires k < |anchors| && Hits(d, sectionName)(anchors[k])
    requires forall j :: 0 <= j < k ==> !Hits(d, sectionName)(anchors[j])
    ensures var i := anchors[k];
      && i < |d.elements| && Matches(d.elements[i], TypeSelector("a")) && AnchorMatches(d.elements[i], sectionName)
      && forall j :: 0 <= j < i && Matches(d.elements[j], TypeSelector("a")) ==> !AnchorMatches(d.elements[j], sectionName)
  {
    var p := Hits(d, sectionName);
    SelectSpec(d, TypeSelector("a"));
    forall j | 0 <= j < anchors[k] && Matches(d.elements[j], TypeSelector("a"))
      ensures !AnchorMatches(d.elements[j], sectionName)
    {
      EarlierListedFails(p, anchors, k, j);
    }
  }

  /** In an increasing list whose first `k` entries fail `p`, a listed value below entry `k` fails `p`. */
  lemma EarlierListedFails(p: nat -> bool, xs: seq<nat>, k: nat, j: nat)
    requires forall a, b :: 0 <= a < b < |xs| ==> xs[a] < xs[b]
    requires k < |xs| && j < xs[k] && j in xs
    requires forall m :: 0 <= m < k ==> !p(xs[m])
    ensures !p(j)
  {
    var m :| 0 <= m < |xs| && xs[m] == j;
    assert m < k;
  }

  /** The match ignores letter case in the section name: lower-casing it first changes nothing. */
  lemma AnchorMatchIgnoresCase(e: Element, sectionName: string)
    ensures AnchorMatches(e, Lower(sectionName)) == AnchorMatches(e, sectionName)
  {
    TrimLowerCommute(sectionName);
    LowerIdempotent(Trim(sectionName));
    assert Lower(Trim(Lower(sectionName))) == Lower(Trim(sectionName));
  }

  /** The match ignores whitespace around the section name. */
  lemma AnchorMatchIgnoresPadding(e: Element, sectionName: string)
    ensures AnchorMatches(e, Trim(sectionName)) == AnchorMatches(e, sectionName)
  {
    TrimIdempotent(sectionName);
  }

  // ---------------------------------------------------------------------------
  // The single-page-menu fallback

  const DataIdOpen := "data-id=\""

  /** The longest run of ASCII digits at the front of `s` (what greedy `\d+` consumes). */
  function DigitRun(s: string): (r: string)
    ensures r <= s && forall k :: 0 <= k < |r| ==> IsDigit(r[k])
    ensures |r| < |s| ==> !IsDigit(s[|r|])
  {
    if s != [] && IsDigit(s[0]) then [s[0]] + DigitRun(s[1..]) else []
  }

  /** `/data-id="(\d+)"/` matches at position `k` of `s`. */
  predicate DataIdAt(s: string, k: int)
  {
    0 <= k && k + |DataIdOpen| <= |s| && s[k..k + |DataIdOpen|] == DataIdOpen &&
    var run := DigitRun(s[k + |DataIdOpen|..]);
    run != [] && k + |DataIdOpen| + |run| < |s| && s[k + |DataIdOpen| + |run|] == '"'
  }

  /** The captured group of a match at `k`. */
  function CaptureAt(s: string, k: int): string
    requires 0 <= k && k + |DataIdOpen| <= |s|
  {
    DigitRun(s[k + |DataIdOpen|..])
  }

  /** The regular expression's first match from position `i` on, scanning left to right. */
  function FindDataIdFrom(s: string, i: nat): Option<string>
    decreases |s| - i
  {
    if i + |DataIdOpen| > |s| then None
    else if DataIdAt(s, i) then Some(CaptureAt(s, i))
    else FindDataIdFrom(s, i + 1)
  }

  /** `html.match(/data-id="(\d+)"/)`, giving the captured digits. */
  function FindDataId(html: string): Option<string>
  {
    FindDataIdFrom(html, 0)
  }

  /** No match from `i` on means no occurrence from `i` on. */
  lemma {:induction false} FindDataIdFromNone(s: string, i: nat)
    requires FindDataIdFrom(s, i).None?
    ensures forall k :: i <= k ==> !DataIdAt(s, k)
    decreases |s| - i
  {
    if i + |DataIdOpen| <= |s| {
      FindDataIdFromNone(s, i + 1);
    }
  }

  /** A match from `i` on is the capture of the leftmost occurrence from `i` on. */
  lemma {:induction false} FindDataIdFromSome(s: string, i: nat) returns (k: nat)
    requires FindDataIdFrom(s, i).Some?
    ensures i <= k && DataIdAt(s, k) && CaptureAt(s, k) == FindDataIdFrom(s, i).value
    ensures forall j :: i <= j < k ==> !DataIdAt(s, j)
    decreases |s| - i
  {
    if DataIdAt(s, i) {
      k := i;
    } else {
      k := FindDataIdFromSome(s, i + 1);
    }
  }

  /**
   * The captured id is the digit run of the leftmost `data-id="<digits>"`
   * occurrence, and there is none exactly when the HTML has no such occurrence.
   */
  lemma FindDataIdSpec(html: string)
    ensures FindDataId(html).None? <==> forall k :: !DataIdAt(html, k)
    ensures FindDataId(html).Some? ==>
      var id := FindDataId(html).value;
      && id != [] && (forall k :: 0 <= k < |id| ==> IsDigit(id[k]))
      && exists k :: DataIdAt(html, k) && CaptureAt(html, k) == id && forall j :: 0 <= j < k ==> !DataIdAt(html, j)
  {
    if FindDataId(html).None? {
      FindDataIdFromNone(html, 0);
    } else {
      var k := FindDataIdFromSome(html, 0);
      assert !DataIdAt(html, -1);
    }
  }

  /** An attribute written from a number is found again, with the number's decimal digits. */
  lemma DataIdRoundTrip(n: nat, tail: string)
    ensures FindDataId(DataIdOpen + NatToString(n) + "\"" + tail) == Some(NatToString(n))
  {
    var ds := NatToString(n);
    var s := DataIdOpen + ds + "\"" + tail;
    assert s[0..|DataIdOpen|] == DataIdOpen;
    assert s[|DataIdOpen|..] == ds + ("\"" + tail);
    DigitRunStops(ds, "\"" + tail);
  }

  /** The digit run of digits followed by a non-digit is exactly those digits. */
  lemma {:induction false} DigitRunStops(ds: string, rest: string)
    requires forall k :: 0 <= k < |ds| ==> IsDigit(ds[k])
    requires rest != [] && !IsDigit(rest[0])
    ensures DigitRun(ds + rest) == ds
  {
    if ds != [] {
      assert (ds + rest)[1..] == ds[1..] + rest;
      DigitRunStops(ds[1..], rest);
    } else {
      assert ds + rest == rest;
    }
  }

  /** `pathname.replace(/\/$/, "")`: drop one trailing slash, if there is one. */
  function TrimOneSlash(p: string): (r: string)
    ensures p != [] && p[|p| - 1] == '/' ==> r + "/" == p
    ensures !(p != [] && p[|p| - 1] == '/') ==> r == p
  {
    if p != [] && p[|p| - 1] == '/' then p[..|p| - 1] else p
  }

  /** The parts of the URL the handler reads after its click. */
  datatype UrlParts = UrlParts(href: string, origin: string, pathname: string)

  /** `` `${origin + pathname.replace(/\/$/, "")}/menu/${id}` ``. */
  function FallbackUrl(u: UrlParts, id: string): string
  {
    u.origin + TrimOneSlash(u.pathname) + "/menu/" + id
  }

  /**
   * The fallback URL is the origin, then the path with at most one trailing
   * slash removed, then "/menu/" and the id; a path "/" leaves just the origin.
   */
  lemma FallbackUrlShape(u: UrlParts, id: string)
    ensures exists mid ::
      && FallbackUrl(u, id) == u.origin + mid + "/menu/" + id
      && (mid == u.pathname || mid + "/" == u.pathname)
    ensures u.pathname == "/" ==> FallbackUrl(u, id) == u.origin + "/menu/" + id
  {
    var mid := TrimOneSlash(u.pathname);
    assert FallbackUrl(u, id) == u.origin + mid + "/menu/" + id;
  }

  // ---------------------------------------------------------------------------
  // The handler

  /** One entry of `results`; `error` is `None` when the entry has no error field. */
  datatype Entry = Entry(name: string, url: Option<string>, error: Option<string>)

  /**
   * `req.body.sections` as the handler can meet it: a falsy value (absent,
   * `null`, `false`, `0`), an array of section names, a string, or another
   * truthy value that `for…of` cannot iterate (an object, a number, `true`).
   */
  datatype SectionsField = Falsy | Names(names: seq<string>) | StringValue(s: string) | NotIterable

  /** `sections` passes `!sections`: anything but a falsy value or the empty string. */
  predicate SectionsTruthy(f: SectionsField)
  {
    !f.Falsy? && !(f.StringValue? && f.s == "")
  }

  /** What `for (const section of sections)` visits: the array's elements, a string's characters one at a time, or `None` where it throws. */
  function Iterated(f: SectionsField): Option<seq<string>>
  {
    match f
    case Names(ns) => Some(ns)
    case StringValue(s) => Some(seq(|s|, i requires 0 <= i < |s| => [s[i]]))
    case _ => None
  }

  /** The request body: `url` and `sections`. */
  datatype Request = Request(url: StrField, sections: SectionsField)

  /**
   * The 400 reply, the results, or a rejection of the handler's promise with
   * an error thrown outside every `try`, which sends no reply.
   */
  datatype Response = BadRequest(status: nat, error: string) | Ok(results: seq<Entry>) | Rejected(error: string)

  /**
   * What the browser reports for one section: an error thrown by the in-page
   * search, the page it searched, the URL before and after the wait, an error
   * reading the page content and the content itself, and an error thrown by
   * `goBack`.
   */
  datatype SectionObs = SectionObs(
    evalError: Option<string>, page: Snapshot, prevUrl: UrlParts, newUrl: string,
    contentError: Option<string>, html: string, goBackError: Option<string>)

  /**
   * The browser: an error thrown by `puppeteer.launch`, `browser.newPage` or
   * `page.goto(url)` (a URL it cannot load), and the observations for the
   * section at each index.
   */
  datatype Browser = Browser(setupError: Option<string>, observe: nat -> SectionObs)

  const NoClickError := "No clickable element found"
  const MissingFieldsError := "Missing url or sections"
  /** The message of the `TypeError` that `for…of` throws on a value it cannot iterate. */
  const NotIterableError := "sections is not iterable"

  /** The entries one section appends to `results`. */
  function SectionEntries(name: string, o: SectionObs): seq<Entry>
  {
    match o.evalError
    case Some(msg) => [Entry(name, None, Some(msg))]
    case None =>
      if FindAnchor(o.page, name).None? then [Entry(name, None, Some(NoClickError))]
      else if o.newUrl == o.prevUrl.href && o.contentError.Some? then [Entry(name, None, o.contentError)]
      else
        var saved := Entry(name, Some(RecordedUrl(o)), None);
        match o.goBackError
        case None => [saved]
        case Some(msg) => [saved, Entry(name, None, Some(msg))]
  }

  /** The URL a clicked section records: the URL after the wait, or the fallback when it did not move and the page has a `data-id`. */
  function RecordedUrl(o: SectionObs): string
  {
    if o.newUrl != o.prevUrl.href then o.newUrl
    else match FindDataId(o.html)
      case None => o.newUrl
      case Some(id) => FallbackUrl(o.prevUrl, id)
  }

  /** What section `i` of `ss` appends, as a value. */
  function SectionOutput(ss: seq<string>, b: Browser): nat -> seq<Entry>
  {
    (i: nat) => if i < |ss| then SectionEntries(ss[i], b.observe(i)) else []
  }

  /** The entries the first `n` sections append, in section order. */
  function EntriesUpTo(out: nat -> seq<Entry>, n: nat): seq<Entry>
  {
    if n == 0 then [] else EntriesUpTo(out, n - 1) + out(n - 1)
  }

  /** The handler: the 400 check, the browser setup, then the loop over what `sections` iterates. */
  function HandleSpec(req: Request, b: Browser): Response
  {
    if !Truthy(req.url) || !SectionsTruthy(req.sections) then BadRequest(400, MissingFieldsError)
    else if b.setupError.Some? then Rejected(b.setupError.value)
    else
      match Iterated(req.sections)
      case None => Rejected(NotIterableError)
      case Some(ss) => Ok(EntriesUpTo(SectionOutput(ss, b), |ss|))
  }

  /**
   * The `try` block for one section, with its `continue` and its `catch`.
   * The statements follow the source's branches one by one; `SectionEntries` states the same outcome as a
   * value, and the lemmas about the results are proved against it.
   */
  method HandleSection(name: string, o: SectionObs) returns (entries: seq<Entry>)
    ensures entries == SectionEntries(name, o)
  {
    if o.evalError.Some? {
      return [Entry(name, None, o.evalError)];
    }
    var clicked := FindAnchor(o.page, name).Some?;
    if !clicked {
      return [Entry(name, None, Some(NoClickError))];
    }
    var prevUrl := o.prevUrl;
    var newUrl := o.newUrl;
    if newUrl == prevUrl.href {
      if o.contentError.Some? {
        return [Entry(name, None, o.contentError)];
      }
      var id := FindDataId(o.html);
      if id.Some? {
        newUrl := FallbackUrl(prevUrl, id.value);
      }
    }
    entries := [Entry(name, Some(newUrl), None)];
    if o.goBackError.Some? {
      entries := entries + [Entry(name, None, o.goBackError)];
    }
  }

  /** The handler: the 400 check, the browser setup, then the loop appending to `results`. */
  method HandleCrawl(req: Request, b: Browser) returns (resp: Response)
    ensures resp == HandleSpec(req, b)
  {
    if !req.url.Str? || req.url.s == "" || req.sections.Falsy? || req.sections == StringValue("") {
      return BadRequest(400, MissingFieldsError);
    }
    if b.setupError.Some? {
      return Rejected(b.setupError.value);
    }
    var iterated := Iterated(req.sections);
    if iterated.None? {
      return Rejected(NotIterableError);
    }
    var sections := iterated.value;
    var results: seq<Entry> := [];
    for i := 0 to |sections|
      invariant results == EntriesUpTo(SectionOutput(sections, b), i)
    {
      var entries := HandleSection(sections[i], b.observe(i));
      results := results + entries;
    }
    return Ok(results);
  }

  // ---------------------------------------------------------------------------
  // Properties of the handler

  /** A request whose `url` or `sections` is falsy is answered 400 before any browser work. */
  lemma MissingFieldsRejected(req: Request, b: Browser)
    ensures HandleSpec(req, b).BadRequest? <==> !Truthy(req.url) || !SectionsTruthy(req.sections)
    ensures HandleSpec(req, b).BadRequest? ==>
      HandleSpec(req, b).status == 400 && HandleSpec(req, b).error == "Missing url or sections"
  {
  }

  /**
   * A request past the 400 check gets no reply exactly when the browser setup
   * throws or `sections` cannot be iterated; the setup error comes first.
   */
  lemma UnansweredRequests(req: Request, b: Browser)
    ensures HandleSpec(req, b).Rejected? <==>
      Truthy(req.url) && SectionsTruthy(req.sections) && (b.setupError.Some? || req.sections.NotIterable?)
    ensures HandleSpec(req, b).Rejected? ==>
      HandleSpec(req, b).error == (if b.setupError.Some? then b.setupError.value else "sections is not iterable")
  {
  }

  /**
   * Each section appends one or two entries, all carrying its name. It appends
   * two exactly when its URL was recorded and `goBack` then threw: the success
   * entry is already in `results`, and the error entry follows it.
   */
  lemma SectionEntriesShape(name: string, o: SectionObs)
    ensures var es := SectionEntries(name, o);
      && 1 <= |es| <= 2
      && (forall k :: 0 <= k < |es| ==> es[k].name == name)
      && (|es| == 2 <==>
            && o.evalError.None? && FindAnchor(o.page, name).Some?
            && !(o.newUrl == o.prevUrl.href && o.contentError.Some?) && o.goBackError.Some?)
      && (|es| == 2 ==> es[0].url.Some? && es[0].error.None? && es[1] == Entry(name, None, o.goBackError))
  {
  }

  /** A section appends one or two entries, all carrying its name. */
  lemma SectionEntriesNamed(name: string, o: SectionObs)
    ensures 1 <= |SectionEntries(name, o)| <= 2
    ensures forall k :: 0 <= k < |SectionEntries(name, o)| ==> SectionEntries(name, o)[k].name == name
  {
  }

  /** A section no anchor of the page matches gets the single "No clickable element found" entry. */
  lemma UnmatchedSectionEntry(name: string, o: SectionObs)
    requires o.evalError.None?
    requires forall i :: 0 <= i < |o.page.elements| && Matches(o.page.elements[i], TypeSelector("a")) ==>
      !AnchorMatches(o.page.elements[i], name)
    ensures SectionEntries(name, o) == [Entry(name, None, Some("No clickable element found"))]
  {
    FindAnchorSpec(o.page, name);
  }

  /**
   * The recorded URL: the URL after the wait when it moved; when it did not,
   * the fallback built from the leftmost `data-id="<digits>"` occurrence, or
   * the unchanged URL when the page has none.
   */
  lemma RecordedUrlRule(name: string, o: SectionObs)
    requires o.evalError.None? && FindAnchor(o.page, name).Some?
    requires o.newUrl != o.prevUrl.href || o.contentError.None?
    ensures var e := SectionEntries(name, o)[0];
      && e.error.None? && e.url.Some?
      && (o.newUrl != o.prevUrl.href ==> e.url.value == o.newUrl)
      && (o.newUrl == o.prevUrl.href && (forall k :: !DataIdAt(o.html, k)) ==> e.url.value == o.prevUrl.href)
      && (forall k :: o.newUrl == o.prevUrl.href && DataIdAt(o.html, k) && (forall j :: 0 <= j < k ==> !DataIdAt(o.html, j)) ==>
            e.url.value == FallbackUrl(o.prevUrl, CaptureAt(o.html, k)))
  {
    assert SectionEntries(name, o)[0] == Entry(name, Some(RecordedUrl(o)), None);
    RecordedUrlCases(o);
  }

  /** The cases of `RecordedUrl`, with the fallback stated on the leftmost `data-id` occurrence. */
  lemma RecordedUrlCases(o: SectionObs)
    ensures o.newUrl != o.prevUrl.href ==> RecordedUrl(o) == o.newUrl
    ensures o.newUrl == o.prevUrl.href && (forall k :: !DataIdAt(o.html, k)) ==> RecordedUrl(o) == o.prevUrl.href
    ensures forall k :: o.newUrl == o.prevUrl.href && DataIdAt(o.html, k) && (forall j :: 0 <= j < k ==> !DataIdAt(o.html, j)) ==>
      RecordedUrl(o) == FallbackUrl(o.prevUrl, CaptureAt(o.html, k))
  {
    FindDataIdSpec(o.html);
    forall k | o.newUrl == o.prevUrl.href && DataIdAt(o.html, k) && (forall j :: 0 <= j < k ==> !DataIdAt(o.html, j))
      ensures RecordedUrl(o) == FallbackUrl(o.prevUrl, CaptureAt(o.html, k))
    {
      LeftmostDataId(o.html, k);
    }
  }

  /** The `data-id` the regular expression captures is the one at its leftmost occurrence. */
  lemma LeftmostDataId(html: string, k: int)
    requires DataIdAt(html, k) && forall j :: 0 <= j < k ==> !DataIdAt(html, j)
    ensures FindDataId(html) == Some(CaptureAt(html, k))
  {
    FindDataIdSpec(html);
    var m :| DataIdAt(html, m) && CaptureAt(html, m) == FindDataId(html).value
      && forall j :: 0 <= j < m ==> !DataIdAt(html, j);
    assert !(m < k) && !(k < m);
  }

  /** `starts` cuts `rs` into `n` consecutive blocks, block `i` being `out(i)`. */
  ghost predicate Blocks(rs: seq<Entry>, out: nat -> seq<Entry>, starts: seq<nat>, n: nat)
  {
    && |starts| == n + 1 && starts[0] == 0 && starts[n] == |rs|
    && forall i {:trigger starts[i]} :: 0 <= i < n ==> starts[i] <= starts[i + 1] <= |rs| && rs[starts[i]..starts[i + 1]] == out(i)
  }

  lemma SliceOfPrefix(rs: seq<Entry>, extra: seq<Entry>, lo: nat, hi: nat)
    requires lo <= hi <= |rs|
    ensures (rs + extra)[lo..hi] == rs[lo..hi]
  {
  }

  lemma SliceOfSuffix(rs: seq<Entry>, extra: seq<Entry>)
    ensures (rs + extra)[|rs|..|rs + extra|] == extra
  {
  }

  /** The entries of the first `n` sections are their outputs, one block after another. */
  lemma {:induction false} EntriesBlocks(out: nat -> seq<Entry>, n: nat) returns (starts: seq<nat>)
    ensures Blocks(EntriesUpTo(out, n), out, starts, n)
  {
    if n == 0 {
      starts := [0];
    } else {
      var prev := EntriesBlocks(out, n - 1);
      var rs := EntriesUpTo(out, n - 1);
      var all := rs + out(n - 1);
      assert EntriesUpTo(out, n) == all;
      starts := prev + [|all|];
      forall i {:trigger starts[i]} | 0 <= i < n
        ensures starts[i] <= starts[i + 1] <= |all| && all[starts[i]..starts[i + 1]] == out(i)
      {
        if i < n - 1 {
          assert starts[i] == prev[i] && starts[i + 1] == prev[i + 1];
          SliceOfPrefix(rs, out(n - 1), prev[i], prev[i + 1]);
        } else {
          assert starts[i] == |rs| && starts[i + 1] == |all|;
          SliceOfSuffix(rs, out(n - 1));
        }
      }
    }
  }

  /**
   * The handler answers with results exactly when the request passes the 400
   * check, the browser setup succeeds and `sections` can be iterated. Then
   * `results` is cut into one block per iterated section, in order: block `i`
   * is exactly what section `i` appends, one or two entries named after it.
   */
  lemma ResultsFollowSections(req: Request, b: Browser) returns (starts: seq<nat>)
    ensures HandleSpec(req, b).Ok? <==>
      Truthy(req.url) && SectionsTruthy(req.sections) && b.setupError.None? && !req.sections.NotIterable?
    ensures HandleSpec(req, b).Ok? ==>
      var ss, rs := Iterated(req.sections).value, HandleSpec(req, b).results;
      && |starts| == |ss| + 1 && starts[0] == 0 && starts[|ss|] == |rs|
      && forall i {:trigger starts[i]} :: 0 <= i < |ss| ==>
           && starts[i] < starts[i + 1] <= starts[i] + 2 && starts[i + 1] <= |rs|
           && rs[starts[i]..starts[i + 1]] == SectionEntries(ss[i], b.observe(i))
           && forall p :: starts[i] <= p < starts[i + 1] ==> rs[p].name == ss[i]
  {
    if HandleSpec(req, b).Ok? {
      var ss := Iterated(req.sections).value;
      var out := SectionOutput(ss, b);
      var rs := EntriesUpTo(out, |ss|);
      assert HandleSpec(req, b).results == rs;
      starts := EntriesBlocks(out, |ss|);
      forall i {:trigger starts[i]} | 0 <= i < |ss|
        ensures && starts[i] < starts[i + 1] <= starts[i] + 2 && starts[i + 1] <= |rs|
                && rs[starts[i]..starts[i + 1]] == SectionEntries(ss[i], b.observe(i))
                && forall p :: starts[i] <= p < starts[i + 1] ==> rs[p].name == ss[i]
      {
        BlockOfSection(rs, out, starts, |ss|, i, ss[i], b.observe(i));
      }
    } else {
      starts := [];
    }
  }

  /** Block `i`, being one section's entries, holds one or two entries named after it. */
  lemma BlockOfSection(rs: seq<Entry>, out: nat -> seq<Entry>, starts: seq<nat>, n: nat, i: nat, name: string, o: SectionObs)
    requires Blocks(rs, out, starts, n) && i < n && out(i) == SectionEntries(name, o)
    ensures starts[i] < starts[i + 1] <= starts[i] + 2 && starts[i + 1] <= |rs|
    ensures rs[starts[i]..starts[i + 1]] == SectionEntries(name, o)
    ensures forall p :: starts[i] <= p < starts[i + 1] ==> rs[p].name == name
  {
    SectionEntriesNamed(name, o);
    var block := rs[starts[i]..starts[i + 1]];
    assert |block| == starts[i + 1] - starts[i];
    forall p | starts[i] <= p < starts[i + 1] ensures rs[p].name == name {
      assert rs[p] == block[p - starts[i]];
    }
  }
}
