/**
 * `findMenuButton`: two text lookups by the browser, then a first-match
 * search over the clickable selector groups for an element whose trimmed
 * text equals or contains the label, whose link is not social and which the
 * browser reports visible.
 */
module MenuButton {
  import opened Common
  import opened Text
  import opened Social
  import opened Dom
  import opened SectionScan

  /** The selector groups of the locator search, in this order (no `li`, unlike the section scan). */
  const MenuSelectors: seq<Selector> := [
    TypeSelector("button"), TypeSelector("a"), TypeSelector("div"), TypeSelector("span"), RoleButton
  ]

  /**
   * What one `getByText` lookup reports: whether the locator is visible and its
   * `href` attribute (the empty string when absent or when reading it fails).
   */
  datatype TextLookup = TextLookup(visible: bool, href: string)

  /** A lookup is taken when it is visible and its link, if any, is not social. */
  predicate Accepts(l: TextLookup)
  {
    l.visible && (l.href == "" || !IsSocialMediaLink(l.href))
  }

  /** Which locator `findMenuButton` returns. */
  datatype MenuHit = ExactMatch | ContainsMatch | Located(element: nat) | NoButton

  /** Element `i` passes every test of the locator loop against the trimmed label. */
  predicate MenuCandidate(d: Snapshot, target: string, i: nat)
  {
    i < |d.elements| &&
    var e := d.elements[i];
    var text := Trim(e.textContent);
    (text == target || Contains(text, target)) && !SocialHref(e) && e.locatorVisible
  }

  /**
   * The whole search: the exact lookup, then the contains lookup, then the
   * first candidate of the locator loop in selector-group and document order.
   */
  method FindMenuButton(d: Snapshot, buttonText: string, exact: TextLookup, partial: TextLookup) returns (r: MenuHit)
    ensures r == ExactMatch <==> Accepts(exact)
    ensures r == ContainsMatch <==> !Accepts(exact) && Accepts(partial)
    ensures r.Located? ==>
      && !Accepts(exact) && !Accepts(partial)
      && exists k :: FirstCandidateAt(d, Trim(buttonText), MenuSelectors, k) && ScanOrder(d, MenuSelectors)[k] == r.element
    ensures r == NoButton <==>
      && !Accepts(exact) && !Accepts(partial)
      && NoCandidate(d, Trim(buttonText), ScanOrder(d, MenuSelectors))
  {
    if exact.visible {
      if exact.href == "" || !IsSocialMediaLink(exact.href) {
        return ExactMatch;
      }
    }
    if partial.visible {
      if partial.href == "" || !IsSocialMediaLink(partial.href) {
        return ContainsMatch;
      }
    }
    var found := LocateFirst(d, Trim(buttonText), MenuSelectors);
    if found.Some? {
      return Located(found.value);
    }
    return NoButton;
  }

  /** Position `k` of the scan order over `sels` holds a candidate and no earlier position does. */
  ghost predicate FirstCandidateAt(d: Snapshot, target: string, sels: seq<Selector>, k: int)
  {
    var order := ScanOrder(d, sels);
    0 <= k < |order| && MenuCandidate(d, target, order[k]) && NoCandidate(d, target, order[..k])
  }

  /** No element listed in `s` is a candidate. */
  ghost predicate NoCandidate(d: Snapshot, target: string, s: seq<nat>)
  {
    forall j :: 0 <= j < |s| ==> !MenuCandidate(d, target, s[j])
  }

  lemma NoCandidateAppend(d: Snapshot, target: string, s: seq<nat>, t: seq<nat>)
    requires NoCandidate(d, target, s) && NoCandidate(d, target, t)
    ensures NoCandidate(d, target, s + t)
  {
    forall j | 0 <= j < |s + t| ensures !MenuCandidate(d, target, (s + t)[j]) {
      if j >= |s| {
        assert (s + t)[j] == t[j - |s|];
      }
    }
  }

  /** The locator loop: the first candidate over the groups `sels`, or `None`. */
  method LocateFirst(d: Snapshot, target: string, sels: seq<Selector>) returns (r: Option<nat>)
    ensures r.Some? ==> exists k :: FirstCandidateAt(d, target, sels, k) && ScanOrder(d, sels)[k] == r.value
    ensures r.None? ==> NoCandidate(d, target, ScanOrder(d, sels))
  {
    ghost var visited: seq<nat> := [];
    for g := 0 to |sels|
      invariant visited == ScanOrder(d, sels[..g])
      invariant NoCandidate(d, target, visited)
    {
      var elements := Select(d, sels[g]);
      ScanOrderStep(d, sels, g);
      var hit := LocateInGroup(d, target, elements, visited);
      if hit.Some? {
        var k := FirstInGroup(d, target, sels, g, visited, hit.value);
        return Some(elements[hit.value]);
      }
      visited := visited + elements;
    }
    assert sels[..|sels|] == sels;
    return None;
  }

  /** A first candidate at position `h` of group `g`, after the earlier groups had none, is the first overall. */
  lemma FirstInGroup(d: Snapshot, target: string, sels: seq<Selector>, g: nat, visited: seq<nat>, h: nat) returns (k: nat)
    requires g < |sels| && ScanOrder(d, sels[..g + 1]) == visited + Select(d, sels[g])
    requires h < |Select(d, sels[g])| && MenuCandidate(d, target, Select(d, sels[g])[h])
    requires NoCandidate(d, target, visited + Select(d, sels[g])[..h])
    ensures FirstCandidateAt(d, target, sels, k) && ScanOrder(d, sels)[k] == Select(d, sels[g])[h]
  {
    var elements := Select(d, sels[g]);
    ScanOrderPrefix(d, sels, g + 1);
    var full, pre := ScanOrder(d, sels), ScanOrder(d, sels[..g + 1]);
    k := |visited| + h;
    assert pre <= full;
    assert full[..|pre|] == pre;
    PrefixThrough(full, visited, elements, h);
    assert full[k] == elements[h];
    assert MenuCandidate(d, target, full[k]);
    assert full[..k] == visited + elements[..h];
    assert NoCandidate(d, target, full[..k]);
  }

  /** Cutting a sequence that starts with `v + e` inside `e`. */
  lemma PrefixThrough(full: seq<nat>, v: seq<nat>, e: seq<nat>, h: nat)
    requires |v| + |e| <= |full| && full[..|v| + |e|] == v + e && h < |e|
    ensures full[..|v| + h] == v + e[..h] && full[|v| + h] == e[h]
  {
    assert full[..|v| + h] == full[..|v| + |e|][..|v| + h];
    assert (v + e)[..|v| + h] == v + e[..h];
  }

  /**
   * The inner loop over one group's elements: the index of the first candidate
   * in `elements`, given that nothing visited `before` was one.
   */
  method LocateInGroup(d: Snapshot, target: string, elements: seq<nat>, ghost before: seq<nat>) returns (r: Option<nat>)
    requires NoCandidate(d, target, before)
    ensures r.Some? ==>
      r.value < |elements| && MenuCandidate(d, target, elements[r.value]) &&
      NoCandidate(d, target, before + elements[..r.value])
    ensures r.None? ==> NoCandidate(d, target, before + elements)
  {
    ghost var visited := before;
    assert before + elements[..0] == before;
    for k := 0 to |elements|
      invariant visited == before + elements[..k]
      invariant NoCandidate(d, target, visited)
    {
      var i := elements[k];
      var accepted := TestElement(d, target, i);
      if accepted {
        return Some(k);
      }
      assert !MenuCandidate(d, target, [i][0]);
      NoCandidateAppend(d, target, visited, [i]);
      assert elements[..k + 1] == elements[..k] + [i];
      visited := visited + [i];
    }
    assert elements[..|elements|] == elements;
    return None;
  }

  /**
   * The tests of one loop iteration: text, then the social-link skip, then visibility.
   * The statements follow the source's branches one by one; `MenuCandidate` states the same test as a
   * value, and the lemmas about the locator loop are proved against it.
   */
  method TestElement(d: Snapshot, target: string, i: nat) returns (accepted: bool)
    ensures accepted == MenuCandidate(d, target, i)
  {
    if i >= |d.elements| {
      return false;
    }
    var el := d.elements[i];
    var text := Trim(el.textContent);
    if text == target || Contains(text, target) {
      if el.href != "" && IsSocialMediaLink(el.href) {
        return false;
      }
      return el.locatorVisible;
    }
    return false;
  }
}
