/**
 * `crawlItem`: input validation, then one pass per section that clicks the
 * section (directly, or after opening the menu), polls for a URL change,
 * saves the browser URL when it is usable, and goes back to the parent page
 * unless the section is the last one. The browser is an oracle: every
 * observation the code reads from it is a field of `SectionObs`.
 */
module Crawl {
  import opened Common
  import opened Text

  /** A section object with the fields the crawler reads or writes. */
  datatype SectionRecord = SectionRecord(name: StrField, selector: StrField, url: StrField, error: StrField)

  /** `menu_button`: absent (or null), or an object with a `text` field. */
  datatype MenuButtonField = NoMenuButton | MenuButtonObj(text: StrField)

  /** One input item; `sections` is `None` when it is not an array. */
  datatype Item = Item(parentPageUrl: StrField, sections: Option<seq<SectionRecord>>, menuButton: MenuButtonField, needsCrawl: bool)

  datatype ItemResult = ItemResult(
    parentPageUrl: StrField, sections: seq<SectionRecord>, needsCrawl: bool, menuButton: MenuButtonField, error: StrField)

  /** What `crawlItem` does with an item: return a result, or throw from `sections.map` on a non-array. */
  datatype Outcome = Returned(result: ItemResult) | ThrewTypeError

  /**
   * What the browser reports while one section is processed: an error thrown
   * while the page settles; the direct search (found, both visibility tests,
   * click); the menu path (button found, button click, the action-sheet test
   * at each poll, section found and visible, forced click, evaluate click);
   * the URLs read (after the click, at each poll, after the wait, after
   * saving) and whether the first navigation back succeeds.
   */
  datatype SectionObs = SectionObs(
    settleError: Option<string>,
    directFound: bool, directVisible: bool, directClickOk: bool,
    menuFound: bool, menuClickOk: bool, sheetOpen: nat -> bool,
    afterFound: bool, afterVisible: bool, afterClickOk: bool, evalClickOk: bool,
    prevUrl: string, urlAt: nat -> string, browserUrl: string,
    urlAfterSave: string, gotoOk: bool)

  /** The browser: whether the launch throws, and the observations for the section at each index. */
  datatype Browser = Browser(launchError: Option<string>, observe: nat -> SectionObs)

  /** How a section got clicked. */
  datatype ClickPath = NotClicked | Direct | ViaMenu | ViaEvalFallback

  /** What happens after the URL is saved. */
  datatype ReturnAction = NoReturn | AlreadyOnParent | GotoParent(attempts: nat)

  /** The browser work done for one section. */
  datatype SectionTrace = SectionTrace(
    path: ClickPath, menuTried: bool, sheetPolls: nat, urlPolls: nat, waitedForUrl: bool, back: ReturnAction)

  const SheetPollBound: nat := 10
  const UrlPollBound: nat := 15
  const NoClickError := "No clickable element found"
  const SectionsError := "Sections must be a non-empty array"

  function InvalidUrlError(parent: StrField): string
  {
    "Invalid URL: " + Show(parent)
  }

  /** `parent_page_url` is truthy and starts with "http". */
  predicate ValidParent(parent: StrField)
  {
    Truthy(parent) && "http" <= parent.s
  }

  /** `menu_button && menu_button.text`. */
  predicate MenuUsable(menu: MenuButtonField)
  {
    menu.MenuButtonObj? && Truthy(menu.text)
  }

  /** The save test: non-empty, not the parent page, not `about:blank`, starting with "http". */
  predicate SavableUrl(u: string, parent: string)
  {
    u != "" && u != parent && u != "about:blank" && "http" <= u
  }

  // ---------------------------------------------------------------------------
  // Bounded polling

  /** The outcome of a polling loop: how many polls ran and whether one succeeded. */
  datatype PollResult = PollResult(polls: nat, hit: bool)

  /** Poll `p` at `i`, `i + 1`, … below `bound`, stopping at the first success. */
  function PollFrom(p: nat -> bool, i: nat, bound: nat): PollResult
    decreases bound - i
  {
    if i >= bound then PollResult(bound, false)
    else if p(i) then PollResult(i + 1, true)
    else PollFrom(p, i + 1, bound)
  }

  function PollSpec(p: nat -> bool, bound: nat): PollResult
  {
    PollFrom(p, 0, bound)
  }

  lemma {:induction false} PollFromCorrect(p: nat -> bool, i: nat, bound: nat)
    requires i <= bound
    ensures var r := PollFrom(p, i, bound);
      && r.polls <= bound
      && (r.hit <==> exists j :: i <= j < bound && p(j))
      && (r.hit ==> i < r.polls && p(r.polls - 1) && forall j :: i <= j < r.polls - 1 ==> !p(j))
      && (!r.hit ==> r.polls == bound)
    decreases bound - i
  {
    if i < bound && !p(i) {
      PollFromCorrect(p, i + 1, bound);
    }
  }

  /**
   * A polling loop runs at most `bound` polls; it succeeds exactly when some
   * poll below the bound would, and then it stopped at the first success.
   */
  lemma PollSpecCorrect(p: nat -> bool, bound: nat)
    ensures var r := PollSpec(p, bound);
      && r.polls <= bound
      && (r.hit <==> exists j :: 0 <= j < bound && p(j))
      && (r.hit ==> 0 < r.polls && p(r.polls - 1) && forall j :: 0 <= j < r.polls - 1 ==> !p(j))
      && (!r.hit ==> r.polls == bound)
  {
    PollFromCorrect(p, 0, bound);
  }

  /** A `for` loop with `break` on the first successful poll. */
  method Poll(p: nat -> bool, bound: nat) returns (polls: nat, hit: bool)
    ensures PollResult(polls, hit) == PollSpec(p, bound)
  {
    hit := false;
    var i := 0;
    while i < bound
      invariant i <= bound
      invariant PollFrom(p, i, bound) == PollSpec(p, bound)
    {
      if p(i) {
        hit := true;
        break;
      }
      i := i + 1;
    }
    polls := if hit then i + 1 else bound;
  }

  // ---------------------------------------------------------------------------
  // One section

  /** The result of the click phase. */
  datatype ClickResult = ClickResult(path: ClickPath, menuTried: bool, sheetPolls: nat)

  /**
   * The click phase: the direct click when the section is found and passes both
   * visibility tests; otherwise, with a usable menu button, the menu path,
   * whose forced click falls back to an evaluate click.
   */
  function ClickSpec(menu: MenuButtonField, o: SectionObs): ClickResult
  {
    if o.directFound && o.directVisible && o.directClickOk then ClickResult(Direct, false, 0)
    else if !MenuUsable(menu) then ClickResult(NotClicked, false, 0)
    else if !(o.menuFound && o.menuClickOk) then ClickResult(NotClicked, true, 0)
    else
      var polls := PollSpec(o.sheetOpen, SheetPollBound).polls;
      var path :=
        if !(o.afterFound && o.afterVisible) then NotClicked
        else if o.afterClickOk then ViaMenu
        else if o.evalClickOk then ViaEvalFallback
        else NotClicked;
      ClickResult(path, true, polls)
  }

  /** The URL-change test at poll `i`. */
  function UrlMoved(o: SectionObs, parent: string): nat -> bool
  {
    (i: nat) => o.urlAt(i) != o.prevUrl && o.urlAt(i) != parent && o.urlAt(i) != "about:blank"
  }

  /** The new record and the trace of one section. */
  datatype SectionRun = SectionRun(record: SectionRecord, trace: SectionTrace)

  const Untouched := SectionTrace(NotClicked, false, 0, 0, false, NoReturn)

  function SectionSpec(parent: string, menu: MenuButtonField, rec: SectionRecord, o: SectionObs, isLast: bool): SectionRun
  {
    match o.settleError
    case Some(msg) => SectionRun(rec.(url := Null, error := Str(msg)), Untouched)
    case None =>
      var c := ClickSpec(menu, o);
      if c.path == NotClicked then
        SectionRun(rec.(url := Null, error := Str(NoClickError)),
                   SectionTrace(NotClicked, c.menuTried, c.sheetPolls, 0, false, NoReturn))
      else
        var poll := PollSpec(UrlMoved(o, parent), UrlPollBound);
        var url := if SavableUrl(o.browserUrl, parent) then Str(o.browserUrl) else Null;
        var back :=
          if isLast then NoReturn
          else if o.urlAfterSave == parent then AlreadyOnParent
          else GotoParent(if o.gotoOk then 1 else 2);
        SectionRun(rec.(url := url), SectionTrace(c.path, c.menuTried, c.sheetPolls, poll.polls, !poll.hit, back))
  }

  /** The loop body for one section, with the `clicked` flag and `continue` of the source. */
  method CrawlSection(parent: string, menu: MenuButtonField, rec: SectionRecord, o: SectionObs, isLast: bool)
    returns (out: SectionRecord, trace: SectionTrace)
    ensures SectionRun(out, trace) == SectionSpec(parent, menu, rec, o, isLast)
  {
    if o.settleError.Some? {
      return rec.(url := Null, error := Str(o.settleError.value)), Untouched;
    }
    var clicked := false;
    var path := NotClicked;
    var menuTried := false;
    var sheetPolls := 0;
    if o.directFound {
      if o.directVisible && o.directClickOk {
        clicked := true;
        path := Direct;
      }
    }
    if !clicked && menu.MenuButtonObj? && Truthy(menu.text) {
      menuTried := true;
      if o.menuFound && o.menuClickOk {
        var hit;
        sheetPolls, hit := Poll(o.sheetOpen, SheetPollBound);
        if o.afterFound && o.afterVisible {
          if o.afterClickOk {
            clicked := true;
            path := ViaMenu;
          } else if o.evalClickOk {
            clicked := true;
            path := ViaEvalFallback;
          }
        }
      }
    }
    if !clicked {
      return rec.(url := Null, error := Str(NoClickError)), SectionTrace(NotClicked, menuTried, sheetPolls, 0, false, NoReturn);
    }
    var urlPolls, urlChanged := Poll(UrlMoved(o, parent), UrlPollBound);
    var browserUrl := o.browserUrl;
    if browserUrl != "" && browserUrl != parent && browserUrl != "about:blank" && "http" <= browserUrl {
      out := rec.(url := Str(browserUrl));
    } else {
      out := rec.(url := Null);
    }
    var back := NoReturn;
    if !isLast {
      if o.urlAfterSave == parent {
        back := AlreadyOnParent;
      } else if o.gotoOk {
        back := GotoParent(1);
      } else {
        back := GotoParent(2);
      }
    }
    trace := SectionTrace(path, menuTried, sheetPolls, urlPolls, !urlChanged, back);
  }

  // ---------------------------------------------------------------------------
  // The item

  /** `{ name, selector, url }` of a section that needs no crawl. */
  function Passthrough(s: SectionRecord): SectionRecord
  {
    SectionRecord(s.name, s.selector, s.url, Missing)
  }

  /** `{ name, selector: null, url: null, error }` of a section that cannot be crawled. */
  function Failed(s: SectionRecord, msg: string): SectionRecord
  {
    SectionRecord(s.name, Null, Null, Str(msg))
  }

  /** Section `i` of a launched crawl; only the last section skips the return to the parent page. */
  function RunAt(parent: string, menu: MenuButtonField, ss: seq<SectionRecord>, b: Browser, i: nat): SectionRun
    requires i < |ss|
  {
    SectionSpec(parent, menu, ss[i], b.observe(i), i == |ss| - 1)
  }

  function CrawlSpec(item: Item, b: Browser): Outcome
  {
    if !item.needsCrawl then
      match item.sections
      case None => ThrewTypeError
      case Some(ss) =>
        Returned(ItemResult(item.parentPageUrl, seq(|ss|, i requires 0 <= i < |ss| => Passthrough(ss[i])),
                            false, item.menuButton, Missing))
    else if !ValidParent(item.parentPageUrl) then
      match item.sections
      case None => ThrewTypeError
      case Some(ss) =>
        var msg := InvalidUrlError(item.parentPageUrl);
        Returned(ItemResult(item.parentPageUrl, seq(|ss|, i requires 0 <= i < |ss| => Failed(ss[i], msg)),
                            true, item.menuButton, Str(msg)))
    else if item.sections.None? || item.sections.value == [] then
      Returned(ItemResult(item.parentPageUrl, [], true, item.menuButton, Str(SectionsError)))
    else
      var ss := item.sections.value;
      match b.launchError
      case Some(msg) =>
        Returned(ItemResult(item.parentPageUrl, seq(|ss|, i requires 0 <= i < |ss| => Failed(ss[i], msg)),
                            true, item.menuButton, Str(msg)))
      case None =>
        var parent := item.parentPageUrl.s;
        Returned(ItemResult(
          item.parentPageUrl,
          seq(|ss|, i requires 0 <= i < |ss| => RunAt(parent, item.menuButton, ss, b, i).record),
          false, item.menuButton, Missing))
  }

  /** The traces of the section loop (empty when the loop does not run). */
  function TracesSpec(item: Item, b: Browser): seq<SectionTrace>
  {
    if item.needsCrawl && ValidParent(item.parentPageUrl) && item.sections.Some? && item.sections.value != []
       && b.launchError.None?
    then
      var ss := item.sections.value;
      seq(|ss|, i requires 0 <= i < |ss| => RunAt(item.parentPageUrl.s, item.menuButton, ss, b, i).trace)
    else []
  }

  /**
   * `crawlItem`: the validation branches, then the loop that rewrites
   * `sectionResults[sectionIndex]` in place, one section at a time.
   */
  method CrawlItem(item: Item, b: Browser) returns (out: Outcome, traces: seq<SectionTrace>)
    ensures out == CrawlSpec(item, b)
    ensures traces == TracesSpec(item, b)
  {
    traces := [];
    if !item.needsCrawl {
      if item.sections.None? {
        return ThrewTypeError, [];
      }
      var ss := item.sections.value;
      var mapped := seq(|ss|, i requires 0 <= i < |ss| => Passthrough(ss[i]));
      return Returned(ItemResult(item.parentPageUrl, mapped, false, item.menuButton, Missing)), [];
    }
    if !item.parentPageUrl.Str? || item.parentPageUrl.s == "" || !("http" <= item.parentPageUrl.s) {
      if item.sections.None? {
        return ThrewTypeError, [];
      }
      var ss := item.sections.value;
      var msg := InvalidUrlError(item.parentPageUrl);
      var mapped := seq(|ss|, i requires 0 <= i < |ss| => Failed(ss[i], msg));
      return Returned(ItemResult(item.parentPageUrl, mapped, true, item.menuButton, Str(msg))), [];
    }
    if item.sections.None? || |item.sections.value| == 0 {
      return Returned(ItemResult(item.parentPageUrl, [], true, item.menuButton, Str(SectionsError))), [];
    }
    var ss := item.sections.value;
    if b.launchError.Some? {
      var msg := b.launchError.value;
      var mapped := seq(|ss|, i requires 0 <= i < |ss| => Failed(ss[i], msg));
      return Returned(ItemResult(item.parentPageUrl, mapped, true, item.menuButton, Str(msg))), [];
    }
    var parent := item.parentPageUrl.s;
    var records;
    records, traces := CrawlSections(parent, item.menuButton, ss, b);
    out := Returned(ItemResult(item.parentPageUrl, records, false, item.menuButton, Missing));
  }

  /** The section loop over a launched browser, rewriting `sectionResults` in place. */
  method CrawlSections(parent: string, menu: MenuButtonField, ss: seq<SectionRecord>, b: Browser)
    returns (records: seq<SectionRecord>, traces: seq<SectionTrace>)
    ensures records == seq(|ss|, i requires 0 <= i < |ss| => RunAt(parent, menu, ss, b, i).record)
    ensures traces == seq(|ss|, i requires 0 <= i < |ss| => RunAt(parent, menu, ss, b, i).trace)
  {
    traces := [];
    var sectionResults := new SectionRecord[|ss|](i requires 0 <= i < |ss| => ss[i]);
    for sectionIndex := 0 to |ss|
      invariant forall j :: 0 <= j < sectionIndex ==> sectionResults[j] == RunAt(parent, menu, ss, b, j).record
      invariant forall j :: sectionIndex <= j < |ss| ==> sectionResults[j] == ss[j]
      invariant |traces| == sectionIndex
      invariant forall j :: 0 <= j < sectionIndex ==> traces[j] == RunAt(parent, menu, ss, b, j).trace
    {
      var rec, trace := CrawlSection(parent, menu, sectionResults[sectionIndex], b.observe(sectionIndex),
                                     sectionIndex == |ss| - 1);
      sectionResults[sectionIndex] := rec;
      traces := traces + [trace];
    }
    records := sectionResults[..];
  }
}
