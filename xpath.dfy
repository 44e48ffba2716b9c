/**
 * `getXPath` of the in-page section scan: the path expression by which the
 * crawler later relocates the element it chose.
 */
module XPathGen {
  import opened Common
  import opened Text
  import opened Dom

  /** A generated path: by id, the body, or a numbered child step under a parent path. */
  datatype XPath = ById(id: string) | Body | Child(parent: XPath, tag: string, position: nat)

  /** The text of a path; child steps use the lower-cased tag name. */
  function Render(x: XPath): string
  {
    match x
    case ById(id) => "//*[@id=\"" + id + "\"]"
    case Body => "/html/body"
    case Child(p, tag, k) => Render(p) + "/" + Lower(tag) + "[" + NatToString(k) + "]"
  }

  /**
   * The path of element `i`. Climbing past a root element that is neither the
   * body nor has an id reaches the document, whose parent is null: the script
   * throws there, which is `None`. (A parent index at or after the element
   * cannot occur in a document; it also gives `None`.)
   */
  function XPathOf(d: Snapshot, i: nat): Option<XPath>
    decreases i
  {
    if i >= |d.elements| then None
    else
      var e := d.elements[i];
      if e.id != "" then Some(ById(e.id))
      else if i == d.body then Some(Body)
      else if e.parent < 0 || e.parent >= i then None
      else
        match XPathOf(d, e.parent)
        case None => None
        case Some(px) => Some(Child(px, e.tag, SameTagBefore(d, i) + 1))
  }

  /** `getXPath(element)` as a string, or `None` where it throws. */
  function XPathString(d: Snapshot, i: nat): Option<string>
  {
    match XPathOf(d, i)
    case None => None
    case Some(x) => Some(Render(x))
  }

  /**
   * The three forms of a generated path: by id, the body, or the parent's path
   * followed by `/tag[k]` with k one more than the number of earlier same-tag
   * element siblings.
   */
  lemma XPathStringShape(d: Snapshot, i: nat)
    requires WellFormed(d) && i < |d.elements|
    ensures d.elements[i].id != "" ==> XPathString(d, i) == Some("//*[@id=\"" + d.elements[i].id + "\"]")
    ensures d.elements[i].id == "" && i == d.body ==> XPathString(d, i) == Some("/html/body")
    ensures d.elements[i].id == "" && i != d.body && d.elements[i].parent < 0 ==> XPathString(d, i) == None
    ensures d.elements[i].id == "" && i != d.body && d.elements[i].parent >= 0 ==>
      XPathString(d, i) ==
        match XPathString(d, d.elements[i].parent)
        case None => None
        case Some(s) => Some(s + "/" + Lower(d.elements[i].tag) + "[" + NatToString(SameTagBefore(d, i) + 1) + "]")
  {
  }

  /**
   * The elements a path selects: an id step every element with that id, the
   * body step the body, and `/tag[k]` the child of a selected element that has
   * that tag and k - 1 earlier same-tag siblings.
   */
  ghost predicate Denotes(d: Snapshot, x: XPath, i: int)
    requires WellFormed(d)
    decreases x
  {
    0 <= i < |d.elements| &&
    match x
    case ById(id) => id != "" && d.elements[i].id == id
    case Body => i == d.body
    case Child(px, tag, k) =>
      var e := d.elements[i];
      e.parent >= 0 && Denotes(d, px, e.parent) && e.tag == tag && SameTagBefore(d, i) + 1 == k
  }

  /** A generated path selects the element it was generated for. */
  lemma {:induction false} XPathDenotes(d: Snapshot, i: nat)
    requires WellFormed(d) && i < |d.elements|
    ensures XPathOf(d, i).Some? ==> Denotes(d, XPathOf(d, i).value, i)
    decreases i
  {
    var e := d.elements[i];
    if e.id == "" && i != d.body && e.parent >= 0 {
      XPathDenotes(d, e.parent);
    }
  }

  /** When ids are unique, a path selects at most one element. */
  lemma {:induction false} DenotesUnique(d: Snapshot, x: XPath, i: int, j: int)
    requires WellFormed(d) && UniqueIds(d)
    requires Denotes(d, x, i) && Denotes(d, x, j)
    ensures i == j
    decreases x
  {
    match x
    case ById(id) =>
    case Body =>
    case Child(px, tag, k) =>
      DenotesUnique(d, px, d.elements[i].parent, d.elements[j].parent);
      if i < j { SameTagBeforeInjective(d, i, j); }
      else if j < i { SameTagBeforeInjective(d, j, i); }
  }

  /** Round trip: with unique ids, the generated path selects exactly element `i`. */
  lemma XPathIdentifies(d: Snapshot, i: nat, j: int)
    requires WellFormed(d) && UniqueIds(d) && i < |d.elements|
    requires XPathOf(d, i).Some?
    ensures Denotes(d, XPathOf(d, i).value, j) <==> j == i
  {
    XPathDenotes(d, i);
    if Denotes(d, XPathOf(d, i).value, j) {
      DenotesUnique(d, XPathOf(d, i).value, i, j);
    }
  }

  /** The sibling loop of `getXPath`: counts earlier siblings with the element's tag name. */
  method SiblingIndex(d: Snapshot, i: nat) returns (ix: nat)
    requires WellFormed(d) && i < |d.elements|
    ensures ix == SameTagBefore(d, i)
  {
    var e := d.elements[i];
    NoSiblingsBeforeParent(d, e.parent, e.tag, e.parent + 1);
    ix := 0;
    var j := e.parent + 1;
    while j < i
      invariant e.parent + 1 <= j <= i
      invariant ix == CountSiblings(d, e.parent, e.tag, j)
    {
      var sibling := d.elements[j];
      if sibling.parent == e.parent && sibling.tag == e.tag {
        ix := ix + 1;
      }
      j := j + 1;
    }
  }

  /** `getXPath(element)`: recursive on the parent, `None` where the script throws. */
  method GetXPath(d: Snapshot, i: nat) returns (r: Option<string>)
    requires WellFormed(d) && i < |d.elements|
    ensures r == XPathString(d, i)
    decreases i
  {
    var e := d.elements[i];
    if e.id != "" {
      return Some("//*[@id=\"" + e.id + "\"]");
    }
    if i == d.body {
      return Some("/html/body");
    }
    if e.parent < 0 {
      return None;
    }
    var ix := SiblingIndex(d, i);
    var up := GetXPath(d, e.parent);
    XPathStringShape(d, i);
    match up
    case None => r := None;
    case Some(s) => r := Some(s + "/" + Lower(e.tag) + "[" + NatToString(ix + 1) + "]");
  }
}
