/**
 * A rendered page as the in-page scripts see it: the elements in document
 * order, each with the fields the scripts read (tag, id, role, link target,
 * text, box size, computed style) and the index of its parent element.
 */
module Dom {
  import opened Text

  datatype Element = Element(
    tag: string,           // tagName as the DOM reports it, e.g. "DIV"
    id: string,            // "" when the element has no id
    role: string,          // the role attribute, "" when absent
    href: string,          // the link target, "" when absent
    innerText: string,
    textContent: string,
    width: real,           // bounding-box size
    height: real,
    display: string,       // computed style
    visibility: string,
    pointerEvents: string,
    locatorVisible: bool,  // what the driver's isVisible() reports for this element
    parent: int            // index of the parent element; -1 when the parent is the document
  )

  /** The elements in document order and the index of document.body (-1 when there is none). */
  datatype Snapshot = Snapshot(elements: seq<Element>, body: int)

  /** Document order puts every parent before its children. */
  predicate WellFormed(d: Snapshot)
  {
    forall i :: 0 <= i < |d.elements| ==> -1 <= d.elements[i].parent < i
  }

  /** No two elements share a non-empty id. */
  ghost predicate UniqueIds(d: Snapshot)
  {
    forall i, j :: 0 <= i < j < |d.elements| && d.elements[i].id != "" ==> d.elements[i].id != d.elements[j].id
  }

  /** The CSS selectors the scripts use: a type selector such as `div`, or `[role="button"]`. */
  datatype Selector = TypeSelector(name: string) | RoleButton

  /** Type selectors compare tag names case-insensitively in an HTML document. */
  predicate Matches(e: Element, sel: Selector)
  {
    match sel
    case TypeSelector(name) => Lower(e.tag) == name
    case RoleButton => e.role == "button"
  }

  /** The indices below `n` of elements matching `sel`, in document order. */
  function SelectBelow(d: Snapshot, sel: Selector, n: nat): seq<nat>
    requires n <= |d.elements|
  {
    if n == 0 then []
    else SelectBelow(d, sel, n - 1) + (if Matches(d.elements[n - 1], sel) then [n - 1] else [])
  }

  /** `document.querySelectorAll(sel)`. */
  function Select(d: Snapshot, sel: Selector): seq<nat>
  {
    SelectBelow(d, sel, |d.elements|)
  }

  /** Every listed index is below `n` and matches. */
  lemma {:induction false} SelectBelowSound(d: Snapshot, sel: Selector, n: nat)
    requires n <= |d.elements|
    ensures forall k :: 0 <= k < |SelectBelow(d, sel, n)| ==>
      SelectBelow(d, sel, n)[k] < n && Matches(d.elements[SelectBelow(d, sel, n)[k]], sel)
  {
    if n > 0 {
      SelectBelowSound(d, sel, n - 1);
      var prev := SelectBelow(d, sel, n - 1);
      var tail := if Matches(d.elements[n - 1], sel) then [n - 1] else [];
      var cur := SelectBelow(d, sel, n);
      assert cur == prev + tail;
      forall k | 0 <= k < |cur| ensures cur[k] < n && Matches(d.elements[cur[k]], sel) {
        if k >= |prev| {
          assert cur[k] == tail[k - |prev|];
        } else {
          assert cur[k] == prev[k];
        }
      }
    }
  }

  /** Every matching index below `n` is listed. */
  lemma {:induction false} SelectBelowComplete(d: Snapshot, sel: Selector, n: nat)
    requires n <= |d.elements|
    ensures forall i :: 0 <= i < n && Matches(d.elements[i], sel) ==> i in SelectBelow(d, sel, n)
  {
    if n > 0 {
      SelectBelowComplete(d, sel, n - 1);
      var prev := SelectBelow(d, sel, n - 1);
      var tail := if Matches(d.elements[n - 1], sel) then [n - 1] else [];
      assert SelectBelow(d, sel, n) == prev + tail;
    }
  }

  /** The listed indices strictly increase. */
  lemma {:induction false} SelectBelowIncreasing(d: Snapshot, sel: Selector, n: nat)
    requires n <= |d.elements|
    ensures forall k, l :: 0 <= k < l < |SelectBelow(d, sel, n)| ==> SelectBelow(d, sel, n)[k] < SelectBelow(d, sel, n)[l]
  {
    if n > 0 {
      SelectBelowIncreasing(d, sel, n - 1);
      SelectBelowSound(d, sel, n - 1);
      var prev := SelectBelow(d, sel, n - 1);
      var tail := if Matches(d.elements[n - 1], sel) then [n - 1] else [];
      var cur := SelectBelow(d, sel, n);
      assert cur == prev + tail;
      forall k, l | 0 <= k < l < |cur| ensures cur[k] < cur[l] {
        assert cur[k] == prev[k];
        if l >= |prev| {
          assert cur[l] == n - 1;
        } else {
          assert cur[l] == prev[l];
        }
      }
    }
  }

  /** `Select` lists every element matching the selector, each once, in document order. */
  lemma SelectSpec(d: Snapshot, sel: Selector)
    ensures forall k :: 0 <= k < |Select(d, sel)| ==> Select(d, sel)[k] < |d.elements| && Matches(d.elements[Select(d, sel)[k]], sel)
    ensures forall i :: 0 <= i < |d.elements| && Matches(d.elements[i], sel) ==> i in Select(d, sel)
    ensures forall k, l :: 0 <= k < l < |Select(d, sel)| ==> Select(d, sel)[k] < Select(d, sel)[l]
  {
    SelectBelowSound(d, sel, |d.elements|);
    SelectBelowComplete(d, sel, |d.elements|);
    SelectBelowIncreasing(d, sel, |d.elements|);
  }

  /** The number of elements before index `hi` whose parent is `p` and whose tag is `tag`. */
  function CountSiblings(d: Snapshot, p: int, tag: string, hi: nat): nat
    requires hi <= |d.elements|
  {
    if hi == 0 then 0
    else
      var e := d.elements[hi - 1];
      CountSiblings(d, p, tag, hi - 1) + (if e.parent == p && e.tag == tag then 1 else 0)
  }

  /** The number of earlier element siblings of element `i` with its tag name. */
  function SameTagBefore(d: Snapshot, i: nat): nat
    requires i < |d.elements|
  {
    CountSiblings(d, d.elements[i].parent, d.elements[i].tag, i)
  }

  /** No element at or before its parent's position is a child of that parent. */
  lemma {:induction false} NoSiblingsBeforeParent(d: Snapshot, p: int, tag: string, hi: nat)
    requires WellFormed(d) && hi <= |d.elements| && hi <= p + 1
    ensures CountSiblings(d, p, tag, hi) == 0
  {
    if hi > 0 {
      NoSiblingsBeforeParent(d, p, tag, hi - 1);
    }
  }

  /** Counting further never counts fewer. */
  lemma {:induction false} CountSiblingsMonotone(d: Snapshot, p: int, tag: string, lo: nat, hi: nat)
    requires lo <= hi <= |d.elements|
    ensures CountSiblings(d, p, tag, lo) <= CountSiblings(d, p, tag, hi)
  {
    if lo < hi {
      CountSiblingsMonotone(d, p, tag, lo, hi - 1);
    }
  }

  /** Two distinct same-tag siblings have distinct positions among their same-tag siblings. */
  lemma SameTagBeforeInjective(d: Snapshot, i: nat, j: nat)
    requires i < j < |d.elements|
    requires d.elements[i].parent == d.elements[j].parent && d.elements[i].tag == d.elements[j].tag
    ensures SameTagBefore(d, i) < SameTagBefore(d, j)
  {
    var e := d.elements[j];
    CountSiblingsMonotone(d, e.parent, e.tag, i + 1, j);
  }
}
