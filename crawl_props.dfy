/** What `crawlItem` guarantees, stated over its specification. */
module CrawlProperties {
  import opened Common
  import opened Text
  import opened Crawl

  /** The item reached the section loop: crawl wanted, usable URL, non-empty array, browser launched. */
  predicate Launched(item: Item, b: Browser)
  {
    item.needsCrawl && ValidParent(item.parentPageUrl) && item.sections.Some? && item.sections.value != []
    && b.launchError.None?
  }

  /**
   * `sections.map` throws exactly on a non-array in the first two branches;
   * otherwise the result has one entry per input section, in input order,
   * each carrying that section's name; a non-array or an empty array that
   * reaches the third test yields no entries and the sections error.
   */
  lemma OneEntryPerSection(item: Item, b: Browser)
    ensures CrawlSpec(item, b).ThrewTypeError? <==>
      item.sections.None? && (!item.needsCrawl || !ValidParent(item.parentPageUrl))
    ensures item.sections.Some? ==>
      var ss, r := item.sections.value, CrawlSpec(item, b).result;
      && CrawlSpec(item, b).Returned?
      && |r.sections| == |ss|
      && forall i :: 0 <= i < |ss| ==> r.sections[i].name == ss[i].name
    ensures (item.sections.None? || item.sections.value == []) && item.needsCrawl && ValidParent(item.parentPageUrl) ==>
      CrawlSpec(item, b) == Returned(ItemResult(item.parentPageUrl, [], true, item.menuButton, Str(SectionsError)))
  {
    if item.sections.Some? && Launched(item, b) {
      var ss := item.sections.value;
      forall i | 0 <= i < |ss|
        ensures RunAt(item.parentPageUrl.s, item.menuButton, ss, b, i).record.name == ss[i].name
      {
        SectionKeepsIdentity(item.parentPageUrl.s, item.menuButton, ss[i], b.observe(i), i == |ss| - 1);
      }
    }
  }

  /** `needs_crawl` false: each entry is `{name, selector, url}` of its section, and nothing is marked as an error. */
  lemma NoCrawlPassesThrough(item: Item, b: Browser)
    requires !item.needsCrawl && item.sections.Some?
    ensures var ss, r := item.sections.value, CrawlSpec(item, b).result;
      && !r.needsCrawl && r.error == Missing && r.menuButton == item.menuButton
      && forall i :: 0 <= i < |ss| ==>
           && r.sections[i].name == ss[i].name && r.sections[i].selector == ss[i].selector
           && r.sections[i].url == ss[i].url && r.sections[i].error == Missing
  {
  }

  /**
   * A URL that is absent, empty or not starting with "http": every entry gets
   * a null selector and url and the item's own error, "Invalid URL: " followed
   * by the URL as JavaScript prints it.
   */
  lemma InvalidUrlFailsEverySection(item: Item, b: Browser)
    requires item.needsCrawl && !ValidParent(item.parentPageUrl) && item.sections.Some?
    ensures var ss, r := item.sections.value, CrawlSpec(item, b).result;
      && r.needsCrawl && r.error == Str("Invalid URL: " + Show(item.parentPageUrl))
      && forall i :: 0 <= i < |ss| ==>
           r.sections[i].selector == Null && r.sections[i].url == Null && r.sections[i].error == r.error
  {
  }

  /** A failed launch: every entry carries the launch error, as does the item. */
  lemma LaunchFailureFailsEverySection(item: Item, b: Browser)
    requires item.needsCrawl && ValidParent(item.parentPageUrl) && item.sections.Some? && item.sections.value != []
    requires b.launchError.Some?
    ensures var ss, r := item.sections.value, CrawlSpec(item, b).result;
      && r.needsCrawl && r.error == Str(b.launchError.value)
      && forall i :: 0 <= i < |ss| ==>
           r.sections[i].selector == Null && r.sections[i].url == Null && r.sections[i].error == r.error
  {
  }

  /** A crawled item comes back with `needs_crawl: false`, no item error, and one trace per section. */
  lemma CrawledItemShape(item: Item, b: Browser)
    requires Launched(item, b)
    ensures var r := CrawlSpec(item, b).result;
      && !r.needsCrawl && r.error == Missing && r.parentPageUrl == item.parentPageUrl
      && |TracesSpec(item, b)| == |r.sections| == |item.sections.value|
  {
  }

  // ---------------------------------------------------------------------------
  // One section

  /** Processing a section never changes its name or selector. */
  lemma SectionKeepsIdentity(parent: string, menu: MenuButtonField, rec: SectionRecord, o: SectionObs, isLast: bool)
    ensures var out := SectionSpec(parent, menu, rec, o, isLast).record;
      out.name == rec.name && out.selector == rec.selector
  {
  }

  /** A section that could not be clicked gets a null url and the "No clickable element found" error. */
  lemma UnclickedSection(parent: string, menu: MenuButtonField, rec: SectionRecord, o: SectionObs, isLast: bool)
    requires o.settleError.None?
    requires SectionSpec(parent, menu, rec, o, isLast).trace.path == NotClicked
    ensures var out := SectionSpec(parent, menu, rec, o, isLast).record;
      out.url == Null && out.error == Str(NoClickError)
  {
  }

  /**
   * A clicked section saves the browser URL exactly when it is non-empty, not
   * the parent page, not `about:blank` and starts with "http", and null
   * otherwise; its error field is left as it was.
   */
  lemma SavedUrlRule(parent: string, menu: MenuButtonField, rec: SectionRecord, o: SectionObs, isLast: bool)
    requires o.settleError.None?
    requires SectionSpec(parent, menu, rec, o, isLast).trace.path != NotClicked
    ensures var out := SectionSpec(parent, menu, rec, o, isLast).record;
      && (out.url == Str(o.browserUrl) <==> SavableUrl(o.browserUrl, parent))
      && (out.url.Str? ==> "http" <= out.url.s && out.url.s != parent && out.url.s != "about:blank")
      && (!SavableUrl(o.browserUrl, parent) ==> out.url == Null)
      && out.error == rec.error
  {
  }

  /**
   * The saved record depends neither on the URL read before polling nor on
   * the URLs seen while polling, nor on whether the action sheet showed up:
   * only the URL read after the wait counts.
   */
  lemma RecordIgnoresPolls(
    parent: string, menu: MenuButtonField, rec: SectionRecord, o: SectionObs, isLast: bool,
    prev: string, at: nat -> string, sheet: nat -> bool)
    ensures SectionSpec(parent, menu, rec, o.(prevUrl := prev, urlAt := at, sheetOpen := sheet), isLast).record
         == SectionSpec(parent, menu, rec, o, isLast).record
  {
  }

  /**
   * The return to the parent page happens exactly for a clicked section that
   * is not the last; it is skipped when the browser is already there, and
   * retried once when the first navigation fails.
   */
  lemma ReturnOnlyBeforeLast(parent: string, menu: MenuButtonField, rec: SectionRecord, o: SectionObs, isLast: bool)
    ensures var t := SectionSpec(parent, menu, rec, o, isLast).trace;
      && (t.back != NoReturn <==> o.settleError.None? && t.path != NotClicked && !isLast)
      && (t.back == AlreadyOnParent ==> o.urlAfterSave == parent)
      && (t.back.GotoParent? ==> o.urlAfterSave != parent && t.back.attempts == (if o.gotoOk then 1 else 2))
  {
  }

  /**
   * The action sheet is polled at most 10 times and only after the menu
   * button was clicked; the URL is polled at most 15 times and only after a
   * click; `waitForURL` runs exactly when no poll saw the URL move, and
   * otherwise polling stopped at the first poll that did.
   */
  lemma PollsAreBounded(parent: string, menu: MenuButtonField, rec: SectionRecord, o: SectionObs, isLast: bool)
    ensures var t := SectionSpec(parent, menu, rec, o, isLast).trace;
      var moved := UrlMoved(o, parent);
      var clicked := o.settleError.None? && t.path != NotClicked;
      && t.sheetPolls <= SheetPollBound
      && (t.sheetPolls > 0 <==> o.settleError.None? && t.menuTried && o.menuFound && o.menuClickOk)
      && t.urlPolls <= UrlPollBound
      && (t.urlPolls > 0 <==> clicked)
      && (t.waitedForUrl <==> clicked && forall j :: 0 <= j < UrlPollBound ==> !moved(j))
      && (clicked && !t.waitedForUrl ==> moved(t.urlPolls - 1) && forall j :: 0 <= j < t.urlPolls - 1 ==> !moved(j))
  {
    PollSpecCorrect(o.sheetOpen, SheetPollBound);
    PollSpecCorrect(UrlMoved(o, parent), UrlPollBound);
  }

  /**
   * The click paths: the direct click needs the section found and both
   * visibility tests passed and has no fallback; the menu is tried exactly
   * when the direct click did not happen and the menu button has a text; the
   * evaluate click is used only on the menu path, after the forced click failed.
   */
  lemma ClickPaths(parent: string, menu: MenuButtonField, rec: SectionRecord, o: SectionObs, isLast: bool)
    requires o.settleError.None?
    ensures var t := SectionSpec(parent, menu, rec, o, isLast).trace;
      var direct := o.directFound && o.directVisible && o.directClickOk;
      && (t.path == Direct <==> direct)
      && (t.menuTried <==> !direct && MenuUsable(menu))
      && (t.path == ViaMenu ==> t.menuTried && o.menuFound && o.menuClickOk && o.afterFound && o.afterVisible && o.afterClickOk)
      && (t.path == ViaEvalFallback ==> t.menuTried && o.afterFound && o.afterVisible && !o.afterClickOk && o.evalClickOk)
      && (!direct && !MenuUsable(menu) ==> t.path == NotClicked)
  {
  }

  /** An error while the page settles leaves the section unclicked, with that message and a null url. */
  lemma SettleErrorRecorded(parent: string, menu: MenuButtonField, rec: SectionRecord, o: SectionObs, isLast: bool)
    requires o.settleError.Some?
    ensures var run := SectionSpec(parent, menu, rec, o, isLast);
      && run.record.url == Null && run.record.error == Str(o.settleError.value)
      && run.trace.path == NotClicked && run.trace.back == NoReturn
  {
  }

  /** In a crawled item, the last section never triggers a return to the parent page. */
  lemma LastSectionStays(item: Item, b: Browser)
    requires Launched(item, b)
    ensures var ts := TracesSpec(item, b);
      ts != [] && ts[|ts| - 1].back == NoReturn
  {
    var ss := item.sections.value;
    ReturnOnlyBeforeLast(item.parentPageUrl.s, item.menuButton, ss[|ss| - 1], b.observe(|ss| - 1), true);
  }
}
