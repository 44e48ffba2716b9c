/**
 * The in-page scan of `findSectionByText`: every clickable-looking element is
 * tested against the section label, visible non-social matches are scored,
 * and the best-scoring one (earliest among equals) is returned with its path.
 */
module SectionScan {
  import opened Common
  import opened Text
  import opened Social
  import opened Dom
  import opened XPathGen
  import opened ScoreSort

  /** The selector groups, scanned in this order. */
  const ScanSelectors: seq<Selector> := [
    TypeSelector("button"), TypeSelector("a"), TypeSelector("li"),
    TypeSelector("div"), TypeSelector("span"), RoleButton
  ]

  /** A non-empty box, and neither hidden by display, visibility nor pointer-events. */
  predicate Rendered(e: Element)
  {
    e.width > 0.0 && e.height > 0.0 &&
    e.display != "none" && e.visibility != "hidden" && e.pointerEvents != "none"
  }

  /** `(el.innerText || el.textContent || '').trim()`. */
  function ElementText(e: Element): string
  {
    Trim(if e.innerText != "" then e.innerText else e.textContent)
  }

  /** Whether the element's link is a social-media link (the scan skips those). */
  predicate SocialHref(e: Element)
  {
    e.href != "" && IsSocialMediaLink(e.href)
  }

  /**
   * The score an element earns against the trimmed label, or `None` when it is
   * no candidate: 100 for equal text; 90 or 80 for text in a substring relation
   * either way, by whether the text is at most as long as the label; only for
   * rendered elements whose link is not social.
   */
  function CandidateScore(e: Element, target: string): Option<int>
  {
    var text := ElementText(e);
    if SocialHref(e) then None
    else if text == target then
      if Rendered(e) then Some(100) else None
    else if Contains(text, target) || Contains(target, text) then
      if Rendered(e) then Some(if Utf16Length(text) <= Utf16Length(target) then 90 else 80) else None
    else None
  }

  /** The scoring rules, stated per outcome. */
  lemma CandidateScoreRules(e: Element, target: string)
    ensures CandidateScore(e, target).Some? <==>
      !SocialHref(e) && Rendered(e) &&
      (ElementText(e) == target || Contains(ElementText(e), target) || Contains(target, ElementText(e)))
    ensures CandidateScore(e, target) == Some(100) <==> CandidateScore(e, target).Some? && ElementText(e) == target
    ensures CandidateScore(e, target).Some? && ElementText(e) != target ==>
      CandidateScore(e, target).value == (if Utf16Length(ElementText(e)) <= Utf16Length(target) then 90 else 80)
  {
  }

  /** An element with empty text is in a substring relation with every label, so it scores 90 when visible. */
  lemma EmptyTextScoresNinety(e: Element, target: string)
    requires ElementText(e) == "" && target != ""
    requires !SocialHref(e) && Rendered(e)
    ensures CandidateScore(e, target) == Some(90)
  {
    ContainsEmpty(target);
  }

  /** The elements in scan order: each selector group in turn, each in document order. */
  function ScanOrder(d: Snapshot, sels: seq<Selector>): seq<nat>
  {
    if sels == [] then [] else ScanOrder(d, sels[..|sels| - 1]) + Select(d, sels[|sels| - 1])
  }

  lemma {:induction false} ScanOrderInRange(d: Snapshot, sels: seq<Selector>)
    ensures forall k :: 0 <= k < |ScanOrder(d, sels)| ==> ScanOrder(d, sels)[k] < |d.elements|
  {
    if sels != [] {
      ScanOrderInRange(d, sels[..|sels| - 1]);
      SelectSpec(d, sels[|sels| - 1]);
    }
  }

  lemma {:induction false} ScanOrderPrefix(d: Snapshot, sels: seq<Selector>, g: nat)
    requires g <= |sels|
    ensures ScanOrder(d, sels[..g]) <= ScanOrder(d, sels)
  {
    if g < |sels| {
      assert sels[..|sels| - 1][..g] == sels[..g];
      ScanOrderPrefix(d, sels[..|sels| - 1], g);
      assert sels[..|sels|] == sels;
    } else {
      assert sels[..g] == sels;
    }
  }

  /** What visiting one element does to `allMatches`: nothing, push a match, or throw in `getXPath`. */
  datatype Step = Skip | Push(m: Match) | Abort

  /** The visit of element `i` in the scan against the trimmed label `target`. */
  function ScanStep(d: Snapshot, target: string, i: nat): Step
  {
    if i >= |d.elements| then Skip
    else
      match CandidateScore(d.elements[i], target)
      case None => Skip
      case Some(score) =>
        match XPathString(d, i)
        case None => Abort
        case Some(x) => Push(Match(i, x, score, ElementText(d.elements[i])))
  }

  /** The list built by visiting `order` with `step`, or `None` once a visit has thrown. */
  function Collect(step: nat -> Step, order: seq<nat>): Option<seq<Match>>
  {
    if order == [] then Some([])
    else
      match Collect(step, order[..|order| - 1])
      case None => None
      case Some(ms) =>
        match step(order[|order| - 1])
        case Skip => Some(ms)
        case Push(m) => Some(ms + [m])
        case Abort => None
  }

  lemma {:induction false} CollectAbortSticks(step: nat -> Step, order: seq<nat>, rest: seq<nat>)
    requires Collect(step, order) == None
    ensures Collect(step, order + rest) == None
  {
    if rest != [] {
      var shorter := rest[..|rest| - 1];
      assert (order + rest)[..|order + rest| - 1] == order + shorter;
      CollectAbortSticks(step, order, shorter);
    } else {
      assert order + rest == order;
    }
  }

  /**
   * What the visits build: `None` exactly when some visit throws; otherwise
   * every pushed match, in visiting order. `pos` maps each match to the
   * position of the visit that pushed it.
   */
  lemma {:induction false} CollectCharacterized(step: nat -> Step, order: seq<nat>) returns (pos: seq<nat>)
    ensures Collect(step, order).None? <==> exists k :: 0 <= k < |order| && step(order[k]).Abort?
    ensures Collect(step, order).Some? ==>
      var ms := Collect(step, order).value;
      && |pos| == |ms|
      && (forall p :: 0 <= p < |pos| ==> pos[p] < |order| && step(order[pos[p]]) == Push(ms[p]))
      && (forall p, q :: 0 <= p < q < |pos| ==> pos[p] < pos[q])
      && (forall k :: 0 <= k < |order| && step(order[k]).Push? ==> k in pos)
  {
    if order == [] {
      pos := [];
    } else {
      var init, i := order[..|order| - 1], order[|order| - 1];
      var pos0 := CollectCharacterized(step, init);
      assert forall k :: 0 <= k < |init| ==> init[k] == order[k];
      match Collect(step, init)
      case None =>
        pos := [];
      case Some(ms) =>
        match step(i)
        case Skip => pos := pos0;
        case Abort => pos := [];
        case Push(m) => pos := pos0 + [|init|];
    }
  }

  /** The list `allMatches` after visiting `order`, or `None` once `getXPath` has thrown. */
  function MatchesOf(d: Snapshot, target: string, order: seq<nat>): Option<seq<Match>>
  {
    Collect(Visit(d, target), order)
  }

  /** The visit function of the scan against `target`, as a value. */
  function Visit(d: Snapshot, target: string): nat -> Step
  {
    (i: nat) => ScanStep(d, target, i)
  }

  /** Once a visit has thrown, later visits change nothing. */
  lemma MatchesAbortSticks(d: Snapshot, target: string, order: seq<nat>, rest: seq<nat>)
    requires MatchesOf(d, target, order) == None
    ensures MatchesOf(d, target, order + rest) == None
  {
    CollectAbortSticks(Visit(d, target), order, rest);
  }

  /** One more visit extends `allMatches` by what that visit does. */
  lemma MatchesOfSnoc(d: Snapshot, target: string, visited: seq<nat>, i: nat, ms: seq<Match>, step: Step)
    requires MatchesOf(d, target, visited) == Some(ms) && step == ScanStep(d, target, i)
    ensures step.Skip? ==> MatchesOf(d, target, visited + [i]) == Some(ms)
    ensures step.Push? ==> MatchesOf(d, target, visited + [i]) == Some(ms + [step.m])
    ensures step.Abort? ==> MatchesOf(d, target, visited + [i]) == None
  {
    var next := visited + [i];
    assert next[..|next| - 1] == visited;
  }

  /** What the scan returns: the chosen match, nothing, or the thrown error. */
  datatype ScanOutcome = Found(xpath: string, text: string, score: int, element: nat) | NotFound | Threw

  /** The evaluate callback as a value: collect, sort, take the first. */
  function EvaluateScan(d: Snapshot, sectionName: string): ScanOutcome
  {
    match MatchesOf(d, Trim(sectionName), ScanOrder(d, ScanSelectors))
    case None => Threw
    case Some(ms) =>
      if ms == [] then NotFound
      else
        var best := SortByScore(ms)[0];
        Found(best.xpath, best.text, best.score, best.element)
  }

  /** Position `k` of the scan order holds a candidate. */
  ghost predicate CandidateAt(d: Snapshot, sectionName: string, k: int)
  {
    var order := ScanOrder(d, ScanSelectors);
    0 <= k < |order| && order[k] < |d.elements| &&
    CandidateScore(d.elements[order[k]], Trim(sectionName)).Some?
  }

  ghost function ScoreAt(d: Snapshot, sectionName: string, k: int): int
    requires CandidateAt(d, sectionName, k)
  {
    CandidateScore(d.elements[ScanOrder(d, ScanSelectors)[k]], Trim(sectionName)).value
  }

  /**
   * The scan's result: `NotFound` exactly when nothing is a candidate; `Threw`
   * exactly when some candidate has no path; otherwise position `k` of the
   * scan order holds the chosen element, a candidate with the highest score
   * that no earlier candidate matches, and the result carries its path, text
   * and score.
   */
  lemma ScanSelectsBest(d: Snapshot, sectionName: string) returns (k: nat)
    ensures EvaluateScan(d, sectionName).NotFound? <==> forall j :: !CandidateAt(d, sectionName, j)
    ensures EvaluateScan(d, sectionName).Threw? <==>
      exists j :: CandidateAt(d, sectionName, j) && XPathString(d, ScanOrder(d, ScanSelectors)[j]).None?
    ensures EvaluateScan(d, sectionName).Found? ==>
      var r := EvaluateScan(d, sectionName);
      && CandidateAt(d, sectionName, k) && ScanOrder(d, ScanSelectors)[k] == r.element
      && ScoreAt(d, sectionName, k) == r.score
      && XPathString(d, r.element) == Some(r.xpath)
      && r.text == ElementText(d.elements[r.element])
      && (forall j :: CandidateAt(d, sectionName, j) ==> ScoreAt(d, sectionName, j) <= r.score)
      && (forall j :: 0 <= j < k && CandidateAt(d, sectionName, j) ==> ScoreAt(d, sectionName, j) < r.score)
  {
    var ms := MatchesOf(d, Trim(sectionName), ScanOrder(d, ScanSelectors));
    ScanNotFoundIff(d, sectionName);
    ScanThrewIff(d, sectionName);
    if ms.None? {
      assert EvaluateScan(d, sectionName) == Threw;
      k := 0;
    } else if ms.value == [] {
      assert EvaluateScan(d, sectionName) == NotFound;
      k := 0;
    } else {
      k := ScanFoundBest(d, sectionName);
      var best := SortByScore(ms.value)[0];
      assert EvaluateScan(d, sectionName) == Found(best.xpath, best.text, best.score, best.element);
    }
  }

  /** The scan collects nothing exactly when no position holds a candidate. */
  lemma ScanNotFoundIff(d: Snapshot, sectionName: string)
    ensures MatchesOf(d, Trim(sectionName), ScanOrder(d, ScanSelectors)) == Some([]) <==>
      forall k :: !CandidateAt(d, sectionName, k)
  {
    var order := ScanOrder(d, ScanSelectors);
    var step := Visit(d, Trim(sectionName));
    CollectEmptyIff(step, order);
    if forall k :: 0 <= k < |order| ==> step(order[k]).Skip? {
      AllSkipNoCandidate(d, sectionName);
    } else {
      var k :| 0 <= k < |order| && !step(order[k]).Skip?;
      ScanOrderInRange(d, ScanSelectors);
      StepAt(d, sectionName, k);
    }
  }

  /** When every visit skips, no position holds a candidate. */
  lemma AllSkipNoCandidate(d: Snapshot, sectionName: string)
    requires var order := ScanOrder(d, ScanSelectors);
      forall k :: 0 <= k < |order| ==> Visit(d, Trim(sectionName))(order[k]).Skip?
    ensures forall k :: !CandidateAt(d, sectionName, k)
  {
    ScanOrderInRange(d, ScanSelectors);
    forall k | 0 <= k < |ScanOrder(d, ScanSelectors)| ensures !CandidateAt(d, sectionName, k) {
      StepAt(d, sectionName, k);
    }
  }

  /** The scan throws exactly when some candidate has no path. */
  lemma ScanThrewIff(d: Snapshot, sectionName: string)
    ensures MatchesOf(d, Trim(sectionName), ScanOrder(d, ScanSelectors)).None? <==>
      exists k :: CandidateAt(d, sectionName, k) && XPathString(d, ScanOrder(d, ScanSelectors)[k]).None?
  {
    var order := ScanOrder(d, ScanSelectors);
    var step := Visit(d, Trim(sectionName));
    CollectAborts(step, order);
    if Collect(step, order).None? {
      var k :| 0 <= k < |order| && step(order[k]).Abort?;
      ScanOrderInRange(d, ScanSelectors);
      StepAt(d, sectionName, k);
    } else {
      NoAbortAllPathed(d, sectionName);
    }
  }

  /** When no visit throws, every candidate has a path. */
  lemma NoAbortAllPathed(d: Snapshot, sectionName: string)
    requires var order := ScanOrder(d, ScanSelectors);
      forall k :: 0 <= k < |order| ==> !Visit(d, Trim(sectionName))(order[k]).Abort?
    ensures forall k :: CandidateAt(d, sectionName, k) ==> XPathString(d, ScanOrder(d, ScanSelectors)[k]).Some?
  {
    ScanOrderInRange(d, ScanSelectors);
    forall k | CandidateAt(d, sectionName, k) ensures XPathString(d, ScanOrder(d, ScanSelectors)[k]).Some? {
      StepAt(d, sectionName, k);
    }
  }

  /** The head of the sorted matches was pushed by a best-scoring candidate, the earliest of its score. */
  lemma ScanFoundBest(d: Snapshot, sectionName: string) returns (k: nat)
    requires MatchesOf(d, Trim(sectionName), ScanOrder(d, ScanSelectors)).Some?
    requires MatchesOf(d, Trim(sectionName), ScanOrder(d, ScanSelectors)).value != []
    ensures var best := SortByScore(MatchesOf(d, Trim(sectionName), ScanOrder(d, ScanSelectors)).value)[0];
      && CandidateAt(d, sectionName, k) && ScanOrder(d, ScanSelectors)[k] == best.element
      && ScoreAt(d, sectionName, k) == best.score
      && XPathString(d, best.element) == Some(best.xpath)
      && best.text == ElementText(d.elements[best.element])
      && (forall j :: CandidateAt(d, sectionName, j) ==> ScoreAt(d, sectionName, j) <= best.score)
      && (forall j :: 0 <= j < k && CandidateAt(d, sectionName, j) ==> ScoreAt(d, sectionName, j) < best.score)
  {
    var order := ScanOrder(d, ScanSelectors);
    var step := Visit(d, Trim(sectionName));
    ScanOrderInRange(d, ScanSelectors);
    CollectAborts(step, order);
    k := CollectPicksBest(step, order);
    StepAt(d, sectionName, k);
    BestDominates(d, sectionName, step(order[k]).m.score);
    EarlierScoreLower(d, sectionName, k, step(order[k]).m.score);
  }

  /** No candidate scores above `s` when no pushed match does and nothing threw. */
  lemma BestDominates(d: Snapshot, sectionName: string, s: int)
    requires var order, step := ScanOrder(d, ScanSelectors), Visit(d, Trim(sectionName));
      && (forall j :: 0 <= j < |order| ==> !step(order[j]).Abort?)
      && (forall j :: 0 <= j < |order| && step(order[j]).Push? ==> step(order[j]).m.score <= s)
    ensures forall j :: CandidateAt(d, sectionName, j) ==> ScoreAt(d, sectionName, j) <= s
  {
    ScanOrderInRange(d, ScanSelectors);
    forall j | CandidateAt(d, sectionName, j) ensures ScoreAt(d, sectionName, j) <= s {
      StepAt(d, sectionName, j);
    }
  }

  /** The candidates before position `k` score below `s` when the matches pushed before `k` do and nothing threw. */
  lemma EarlierScoreLower(d: Snapshot, sectionName: string, k: nat, s: int)
    requires var order, step := ScanOrder(d, ScanSelectors), Visit(d, Trim(sectionName));
      && k <= |order|
      && (forall j :: 0 <= j < |order| ==> !step(order[j]).Abort?)
      && (forall j :: 0 <= j < k && step(order[j]).Push? ==> step(order[j]).m.score < s)
    ensures forall j :: 0 <= j < k && CandidateAt(d, sectionName, j) ==> ScoreAt(d, sectionName, j) < s
  {
    ScanOrderInRange(d, ScanSelectors);
    forall j | 0 <= j < k && CandidateAt(d, sectionName, j) ensures ScoreAt(d, sectionName, j) < s {
      StepAt(d, sectionName, j);
    }
  }

  /** The visits build `None` exactly when one of them throws. */
  lemma {:induction false} CollectAborts(step: nat -> Step, order: seq<nat>)
    ensures Collect(step, order).None? <==> exists k :: 0 <= k < |order| && step(order[k]).Abort?
  {
    if order != [] {
      var init := order[..|order| - 1];
      CollectAborts(step, init);
      assert forall k :: 0 <= k < |init| ==> init[k] == order[k];
    }
  }

  /** The visits build the empty list exactly when every one of them skips. */
  lemma CollectEmptyIff(step: nat -> Step, order: seq<nat>)
    ensures Collect(step, order) == Some([]) <==> forall k :: 0 <= k < |order| ==> step(order[k]).Skip?
  {
    var pos := CollectCharacterized(step, order);
    if Collect(step, order) == Some([]) {
      CollectNothing(step, order);
    } else if Collect(step, order).Some? {
      assert 0 < |pos|;
      assert step(order[pos[0]]).Push?;
    }
  }

  /** What the visit at position `k` of the scan order does, in terms of candidates and paths. */
  lemma StepAt(d: Snapshot, sectionName: string, k: int)
    requires 0 <= k < |ScanOrder(d, ScanSelectors)| && ScanOrder(d, ScanSelectors)[k] < |d.elements|
    ensures var i := ScanOrder(d, ScanSelectors)[k];
      var st := Visit(d, Trim(sectionName))(i);
      && (st.Skip? <==> !CandidateAt(d, sectionName, k))
      && (st.Abort? <==> CandidateAt(d, sectionName, k) && XPathString(d, i).None?)
      && (st.Push? ==>
            && XPathString(d, i).Some?
            && st.m == Match(i, XPathString(d, i).value, ScoreAt(d, sectionName, k), ElementText(d.elements[i])))
  {
  }

  /** A visit list that builds the empty list skipped everything. */
  lemma CollectNothing(step: nat -> Step, order: seq<nat>)
    requires Collect(step, order) == Some([])
    ensures forall k :: 0 <= k < |order| ==> step(order[k]).Skip?
  {
    var pos := CollectCharacterized(step, order);
    assert pos == [];
  }

  /**
   * The head of the sorted list was pushed at some position `k`, no pushed
   * match scores higher, and every match pushed before `k` scores lower.
   */
  lemma CollectPicksBest(step: nat -> Step, order: seq<nat>) returns (k: nat)
    requires Collect(step, order).Some? && Collect(step, order).value != []
    ensures k < |order| && step(order[k]) == Push(SortByScore(Collect(step, order).value)[0])
    ensures forall j :: 0 <= j < |order| && step(order[j]).Push? ==> step(order[j]).m.score <= step(order[k]).m.score
    ensures forall j :: 0 <= j < k && step(order[j]).Push? ==> step(order[j]).m.score < step(order[k]).m.score
  {
    var ms := Collect(step, order).value;
    var pos := CollectCharacterized(step, order);
    SortedHeadIsEarliestBest(ms);
    var p :| 0 <= p < |ms| && ms[p] == SortByScore(ms)[0] && forall q :: 0 <= q < p ==> ms[q].score < ms[p].score;
    k := PickedPosition(step, order, ms, pos, p);
  }

  /**
   * Where the match `ms[p]` came from, given the visit positions `pos` of the
   * matches: a visit that scores at least every other push and more than
   * every earlier push when `ms[p]` does so among the matches.
   */
  lemma PickedPosition(step: nat -> Step, order: seq<nat>, ms: seq<Match>, pos: seq<nat>, p: nat) returns (k: nat)
    requires |pos| == |ms| && p < |ms|
    requires forall i :: 0 <= i < |pos| ==> pos[i] < |order| && step(order[pos[i]]) == Push(ms[i])
    requires forall i, q :: 0 <= i < q < |pos| ==> pos[i] < pos[q]
    requires forall j :: 0 <= j < |order| && step(order[j]).Push? ==> j in pos
    requires forall q :: 0 <= q < |ms| ==> ms[q].score <= ms[p].score
    requires forall q :: 0 <= q < p ==> ms[q].score < ms[p].score
    ensures k < |order| && step(order[k]) == Push(ms[p])
    ensures forall j :: 0 <= j < |order| && step(order[j]).Push? ==> step(order[j]).m.score <= ms[p].score
    ensures forall j :: 0 <= j < k && step(order[j]).Push? ==> step(order[j]).m.score < ms[p].score
  {
    k := pos[p];
    forall j | 0 <= j < |order| && step(order[j]).Push? ensures step(order[j]).m.score <= ms[p].score {
      var q :| 0 <= q < |pos| && pos[q] == j;
      assert step(order[j]) == Push(ms[q]);
    }
    forall j | 0 <= j < k && step(order[j]).Push? ensures step(order[j]).m.score < ms[p].score {
      var q :| 0 <= q < |pos| && pos[q] == j;
      assert step(order[j]) == Push(ms[q]);
      assert q < p;
    }
  }

  /** The evaluate callback: collect the matches, then sort and take the first. */
  method ScanForSection(d: Snapshot, sectionName: string) returns (r: ScanOutcome)
    requires WellFormed(d)
    ensures r == EvaluateScan(d, sectionName)
  {
    var collected := CollectMatches(d, Trim(sectionName), ScanSelectors);
    if collected.None? {
      return Threw;
    }
    var allMatches := collected.value;
    var sorted := SortByScore(allMatches);
    if |sorted| > 0 {
      var best := sorted[0];
      return Found(best.xpath, best.text, best.score, best.element);
    }
    SortByScoreCorrect(allMatches);
    return NotFound;
  }

  /**
   * The nested loops over the selector groups and their elements, pushing a
   * match per candidate; `None` when `getXPath` throws on the way.
   */
  method CollectMatches(d: Snapshot, target: string, sels: seq<Selector>) returns (r: Option<seq<Match>>)
    requires WellFormed(d)
    ensures r == MatchesOf(d, target, ScanOrder(d, sels))
  {
    var allMatches: seq<Match> := [];
    ghost var visited: seq<nat> := [];
    for g := 0 to |sels|
      invariant visited == ScanOrder(d, sels[..g])
      invariant MatchesOf(d, target, visited) == Some(allMatches)
    {
      var elements := Select(d, sels[g]);
      SelectSpec(d, sels[g]);
      ScanOrderStep(d, sels, g);
      var group := CollectGroup(d, target, elements, visited, allMatches);
      if group.None? {
        ScanOrderPrefix(d, sels, g + 1);
        var full := ScanOrder(d, sels);
        var upTo := visited + elements;
        assert full == upTo + full[|upTo|..];
        MatchesAbortSticks(d, target, upTo, full[|upTo|..]);
        return None;
      }
      allMatches := group.value;
      visited := visited + elements;
    }
    assert sels[..|sels|] == sels;
    return Some(allMatches);
  }

  /** The inner loop over one selector group's elements, continuing from the matches so far. */
  method CollectGroup(d: Snapshot, target: string, elements: seq<nat>, ghost before: seq<nat>, soFar: seq<Match>)
    returns (r: Option<seq<Match>>)
    requires WellFormed(d) && forall k :: 0 <= k < |elements| ==> elements[k] < |d.elements|
    requires MatchesOf(d, target, before) == Some(soFar)
    ensures r == MatchesOf(d, target, before + elements)
  {
    var allMatches := soFar;
    ghost var visited := before;
    assert before + elements[..0] == before;
    for k := 0 to |elements|
      invariant visited == before + elements[..k]
      invariant MatchesOf(d, target, visited) == Some(allMatches)
    {
      var i := elements[k];
      assert i < |d.elements|;
      var next: seq<nat> := visited + [i];
      assert elements[..k + 1] == elements[..k] + [i];
      assert next == before + elements[..k + 1];
      var extended := VisitAndPush(d, target, visited, allMatches, i);
      if extended.None? {
        SplitAfter(before, elements, k + 1);
        MatchesAbortSticks(d, target, next, elements[k + 1..]);
        return None;
      }
      allMatches := extended.value;
      visited := next;
    }
    assert elements[..|elements|] == elements;
    return Some(allMatches);
  }

  /** One iteration of the inner loop: visit element `i` and push its match, if any; `None` when it throws. */
  method VisitAndPush(d: Snapshot, target: string, ghost visited: seq<nat>, allMatches: seq<Match>, i: nat)
    returns (r: Option<seq<Match>>)
    requires WellFormed(d) && i < |d.elements|
    requires MatchesOf(d, target, visited) == Some(allMatches)
    ensures r == MatchesOf(d, target, visited + [i])
  {
    var step := VisitElement(d, target, i);
    MatchesOfSnoc(d, target, visited, i, allMatches, step);
    match step {
      case Skip => r := Some(allMatches);
      case Push(m) => r := Some(allMatches + [m]);
      case Abort => r := None;
    }
  }

  /** The body of the `forEach` callback for element `i`: skip it, push its match, or throw in `getXPath`. */
  method VisitElement(d: Snapshot, target: string, i: nat) returns (step: Step)
    requires WellFormed(d) && i < |d.elements|
    ensures step == ScanStep(d, target, i)
  {
    var el := d.elements[i];
    var score := ScoreElement(el, target);
    if score.None? {
      return Skip;
    }
    var xpath := GetXPath(d, i);
    if xpath.None? {
      return Abort;
    }
    return Push(Match(i, xpath.value, score.value, ElementText(el)));
  }

  /**
   * The tests of the callback: the social-link skip, then exact or partial text with the rendering test.
   * The statements follow the source's branches one by one; `CandidateScore` states the same tests as a
   * value, and the lemmas about the scan are proved against it.
   */
  method ScoreElement(el: Element, target: string) returns (score: Option<int>)
    ensures score == CandidateScore(el, target)
  {
    var text := ElementText(el);
    if el.href != "" && IsSocialMediaLink(el.href) {
      return None;
    } else if text == target {
      if Rendered(el) {
        return Some(100);
      }
    } else if Contains(text, target) || Contains(target, text) {
      if Rendered(el) {
        return Some(if Utf16Length(text) <= Utf16Length(target) then 90 else 80);
      }
    }
    return None;
  }

  /** Cutting `b` at `n` and gluing it back. */
  lemma SplitAfter(a: seq<nat>, b: seq<nat>, n: nat)
    requires n <= |b|
    ensures a + b == (a + b[..n]) + b[n..]
  {
    assert b == b[..n] + b[n..];
  }

  lemma ScanOrderStep(d: Snapshot, sels: seq<Selector>, g: nat)
    requires g < |sels|
    ensures ScanOrder(d, sels[..g + 1]) == ScanOrder(d, sels[..g]) + Select(d, sels[g])
  {
    assert sels[..g + 1][..g] == sels[..g];
  }
}
