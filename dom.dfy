/** A snapshot of the rendered results page, as the extraction script sees it
    through the DOM: elements with a tag, classes, attributes, text content,
    a parent and the top-left corner of their bounding box. An element's
    identity is its index; document order is index order, so a parent always
    comes before its children.

    CSS selectors are modelled on the small language the script uses (tag,
    attribute presence, attribute substring, class, a compound of those, and
    the descendant combinator). `querySelectorAll`, `querySelector` and
    `closest` are defined over the snapshot with their DOM meaning. */
module Dom {
  import opened Wrappers
  import opened Text

  type ElementId = nat

  /** Top-left corner of `getBoundingClientRect()`, in CSS pixels. */
  datatype Corner = Corner(left: real, top: real)

  datatype Element = Element(
    tag: string,                  // lower-case tag name
    classes: set<string>,         // the tokens of the class attribute
    attrs: map<string, string>,   // attribute name to value
    textContent: string,          // the element's textContent, untrimmed
    parent: Option<ElementId>,    // parentElement
    corner: Corner)

  datatype Document = Document(elements: seq<Element>)

  /** A tree in document order: every parent precedes its children. */
  predicate WellFormed(d: Document) {
    forall i :: 0 <= i < |d.elements| && d.elements[i].parent.Some? ==> d.elements[i].parent.value < i
  }

  type Snapshot = d: Document | WellFormed(d) witness Document([])

  predicate Valid(d: Snapshot, e: ElementId) {
    e < |d.elements|
  }

  /** `getAttribute(name)`, with `null` read as `""`. */
  function Attr(d: Snapshot, e: ElementId, name: string): string
    requires Valid(d, e)
  {
    var attrs := d.elements[e].attrs;
    if name in attrs then attrs[name] else ""
  }

  /** `textContent.trim()` */
  function TrimmedText(d: Snapshot, e: ElementId): string
    requires Valid(d, e)
  {
    Trim(d.elements[e].textContent)
  }

  /** `parentElement` */
  function Parent(d: Snapshot, e: ElementId): (p: Option<ElementId>)
    requires Valid(d, e)
    ensures p.Some? ==> p.value < e
  {
    d.elements[e].parent
  }

  /** `a` is a proper ancestor of `e`; ancestors come before their
      descendants in document order. */
  predicate IsAncestor(d: Snapshot, a: ElementId, e: ElementId): (b: bool)
    requires Valid(d, e)
    ensures b ==> a < e
    decreases e
  {
    match Parent(d, e)
    case None => false
    case Some(p) => p == a || IsAncestor(d, a, p)
  }

  /** Simple selectors and compounds of them. */
  datatype Compound =
    | Tag(name: string)                        // `img`
    | HasAttr(attr: string)                    // `[data-ved]`
    | AttrContains(attr: string, part: string) // `[src*="gstatic"]`
    | HasClass(cls: string)                    // `.rg_l`
    | Both(left: Compound, right: Compound)    // `a.umNKYc`, `img[alt*="gach"]`

  datatype Selector =
    | Simple(subject: Compound)                      // `a[data-ved]`
    | Descendant(ancestor: Compound, subject: Compound) // `[data-ved] img`

  predicate MatchesCompound(el: Element, c: Compound) {
    match c
    case Tag(n) => el.tag == n
    case HasAttr(a) => a in el.attrs
    case AttrContains(a, part) => a in el.attrs && part != "" && Contains(el.attrs[a], part)
    case HasClass(k) => k in el.classes
    case Both(l, r) => MatchesCompound(el, l) && MatchesCompound(el, r)
  }

  /** `e` matches `sel` in the whole document: for a descendant selector,
      the ancestor part may match any ancestor of `e`, inside or outside the
      element a query is scoped to. */
  predicate Matches(d: Snapshot, e: ElementId, sel: Selector)
    requires Valid(d, e)
  {
    match sel
    case Simple(c) => MatchesCompound(d.elements[e], c)
    case Descendant(a, c) =>
      && MatchesCompound(d.elements[e], c)
      && exists x {:trigger IsAncestor(d, x, e)} :: 0 <= x < e && IsAncestor(d, x, e) && MatchesCompound(d.elements[x], a)
  }

  /** `e` matches one selector of the selector list `sels`. */
  predicate MatchesAny(d: Snapshot, e: ElementId, sels: seq<Selector>)
    requires Valid(d, e)
  {
    sels != [] && (Matches(d, e, sels[0]) || MatchesAny(d, e, sels[1..]))
  }

  /** `MatchesAny` holds exactly when some selector of the list matches. */
  lemma {:induction false} MatchesAnyIff(d: Snapshot, e: ElementId, sels: seq<Selector>)
    requires Valid(d, e)
    ensures MatchesAny(d, e, sels) <==> exists k :: 0 <= k < |sels| && Matches(d, e, sels[k])
  {
    if sels != [] {
      var rest := sels[1..];
      MatchesAnyIff(d, e, rest);
      if MatchesAny(d, e, rest) {
        var k :| 0 <= k < |rest| && Matches(d, e, rest[k]);
        assert sels[k + 1] == rest[k];
      }
      if exists k :: 0 <= k < |sels| && Matches(d, e, sels[k]) {
        var k :| 0 <= k < |sels| && Matches(d, e, sels[k]);
        if k > 0 {
          assert rest[k - 1] == sels[k];
        }
      }
    }
  }

  /** The elements at `from` or later that match `sel`, in document order. */
  function MatchingFrom(d: Snapshot, sel: Selector, from: nat): (r: seq<ElementId>)
    ensures forall k :: 0 <= k < |r| ==> from <= r[k] < |d.elements|
    decreases |d.elements| - from
  {
    if from >= |d.elements| then []
    else if Matches(d, from, sel) then [from] + MatchingFrom(d, sel, from + 1)
    else MatchingFrom(d, sel, from + 1)
  }

  /** Every element `MatchingFrom` lists matches `sel`. */
  lemma {:induction false} MatchingFromSound(d: Snapshot, sel: Selector, from: nat)
    ensures forall k :: 0 <= k < |MatchingFrom(d, sel, from)| ==> Matches(d, MatchingFrom(d, sel, from)[k], sel)
    decreases |d.elements| - from
  {
    if from < |d.elements| {
      MatchingFromSound(d, sel, from + 1);
      var t := MatchingFrom(d, sel, from + 1);
      if Matches(d, from, sel) {
        var r := [from] + t;
        assert MatchingFrom(d, sel, from) == r;
        forall k | 0 < k < |r| ensures Matches(d, r[k], sel) {
          assert r[k] == t[k - 1];
        }
      }
    }
  }

  /** Every matching element from `from` on is listed. */
  lemma {:induction false} MatchingFromComplete(d: Snapshot, sel: Selector, from: nat)
    ensures forall e :: from <= e < |d.elements| && Matches(d, e, sel) ==> e in MatchingFrom(d, sel, from)
    decreases |d.elements| - from
  {
    if from < |d.elements| {
      MatchingFromComplete(d, sel, from + 1);
    }
  }

  /** `MatchingFrom` lists its elements in increasing document order. */
  lemma {:induction false} MatchingFromIncreasing(d: Snapshot, sel: Selector, from: nat)
    ensures forall j, k :: 0 <= j < k < |MatchingFrom(d, sel, from)| ==> MatchingFrom(d, sel, from)[j] < MatchingFrom(d, sel, from)[k]
    decreases |d.elements| - from
  {
    if from < |d.elements| {
      MatchingFromIncreasing(d, sel, from + 1);
      var t := MatchingFrom(d, sel, from + 1);
      if Matches(d, from, sel) {
        var r := [from] + t;
        assert MatchingFrom(d, sel, from) == r;
        forall j, k | 0 <= j < k < |r| ensures r[j] < r[k] {
          assert r[k] == t[k - 1];
          if j > 0 {
            assert r[j] == t[j - 1];
          }
        }
      }
    }
  }

  /** `document.querySelectorAll(sel)` */
  function QuerySelectorAll(d: Snapshot, sel: Selector): (r: seq<ElementId>)
    ensures forall k :: 0 <= k < |r| ==> Valid(d, r[k])
  {
    MatchingFrom(d, sel, 0)
  }

  /** `querySelectorAll` lists exactly the elements matching `sel`, in
      document order. */
  lemma QuerySelectorAllExactly(d: Snapshot, sel: Selector)
    ensures forall e: nat :: e in QuerySelectorAll(d, sel) <==> e < |d.elements| && Matches(d, e, sel)
    ensures forall j, k :: 0 <= j < k < |QuerySelectorAll(d, sel)| ==> QuerySelectorAll(d, sel)[j] < QuerySelectorAll(d, sel)[k]
  {
    MatchingFromSound(d, sel, 0);
    MatchingFromComplete(d, sel, 0);
    MatchingFromIncreasing(d, sel, 0);
    var r := QuerySelectorAll(d, sel);
    assert r == MatchingFrom(d, sel, 0);
    forall e: nat | e in r
      ensures e < |d.elements| && Matches(d, e, sel)
    {
      var k :| 0 <= k < |r| && r[k] == e;
    }
  }

  /** `e` is a descendant of `scope` that matches `sel`. */
  predicate InScope(d: Snapshot, scope: ElementId, sel: Selector, e: ElementId) {
    Valid(d, e) && IsAncestor(d, scope, e) && Matches(d, e, sel)
  }

  /** The first element at `from` or later that `InScope` accepts. */
  function FirstInScope(d: Snapshot, scope: ElementId, sel: Selector, from: nat): (r: Option<ElementId>)
    ensures r.Some? ==> from <= r.value < |d.elements|
    decreases |d.elements| - from
  {
    if from >= |d.elements| then None
    else if InScope(d, scope, sel, from) then Some(from)
    else FirstInScope(d, scope, sel, from + 1)
  }

  lemma {:induction false} FirstInScopeFinds(d: Snapshot, scope: ElementId, sel: Selector, from: nat)
    ensures FirstInScope(d, scope, sel, from).Some? ==> InScope(d, scope, sel, FirstInScope(d, scope, sel, from).value)
    ensures forall e: nat :: from <= e && (FirstInScope(d, scope, sel, from).None? || e < FirstInScope(d, scope, sel, from).value) ==> !InScope(d, scope, sel, e)
    decreases |d.elements| - from
  {
    if from < |d.elements| && !InScope(d, scope, sel, from) {
      FirstInScopeFinds(d, scope, sel, from + 1);
    }
  }

  /** `scope.querySelector(sel)` */
  function QuerySelector(d: Snapshot, scope: ElementId, sel: Selector): (r: Option<ElementId>)
    ensures r.Some? ==> Valid(d, r.value)
  {
    FirstInScope(d, scope, sel, 0)
  }

  /** `querySelector` returns the first descendant of `scope`, in document
      order, that matches `sel`, and nothing when there is none. */
  lemma QuerySelectorFinds(d: Snapshot, scope: ElementId, sel: Selector)
    ensures QuerySelector(d, scope, sel).Some? ==> InScope(d, scope, sel, QuerySelector(d, scope, sel).value)
    ensures forall e: nat :: (QuerySelector(d, scope, sel).None? || e < QuerySelector(d, scope, sel).value) ==> !InScope(d, scope, sel, e)
  {
    FirstInScopeFinds(d, scope, sel, 0);
  }

  /** `e` is the first descendant of `scope`, in document order, that
      matches `sel`. */
  predicate FirstMatch(d: Snapshot, scope: ElementId, sel: Selector, e: ElementId) {
    && InScope(d, scope, sel, e)
    && forall x: nat :: x < e ==> !InScope(d, scope, sel, x)
  }

  /** `querySelector` returns exactly the first match: what it returns is
      the first match, and when `e` is the first match it returns `e`. */
  lemma QuerySelectorFirstMatch(d: Snapshot, scope: ElementId, sel: Selector)
    ensures QuerySelector(d, scope, sel).Some? ==> FirstMatch(d, scope, sel, QuerySelector(d, scope, sel).value)
    ensures forall e: nat :: FirstMatch(d, scope, sel, e) ==> QuerySelector(d, scope, sel) == Some(e)
  {
    QuerySelectorFinds(d, scope, sel);
    forall e: nat | FirstMatch(d, scope, sel, e)
      ensures QuerySelector(d, scope, sel) == Some(e)
    {
      assert InScope(d, scope, sel, e);
    }
  }

  /** `x` is `e` or one of its ancestors. */
  predicate OnPath(d: Snapshot, x: ElementId, e: ElementId): (b: bool)
    requires Valid(d, e)
    ensures b ==> x <= e
  {
    x == e || IsAncestor(d, x, e)
  }

  /** `e.closest(sels)`: `e` itself or its nearest ancestor that matches one
      of `sels`. */
  function Closest(d: Snapshot, e: ElementId, sels: seq<Selector>): (r: Option<ElementId>)
    requires Valid(d, e)
    ensures r.Some? ==> r.value <= e
    decreases e
  {
    if MatchesAny(d, e, sels) then Some(e)
    else match Parent(d, e)
      case None => None
      case Some(p) => Closest(d, p, sels)
  }

  /** `closest` returns an element on the path from `e` up that matches;
      nearer ancestors come later in document order, so no element on the
      path after the result matches, and with no result none does. */
  lemma {:induction false} ClosestFinds(d: Snapshot, e: ElementId, sels: seq<Selector>)
    requires Valid(d, e)
    ensures Closest(d, e, sels).Some? ==> OnPath(d, Closest(d, e, sels).value, e) && MatchesAny(d, Closest(d, e, sels).value, sels)
    ensures forall x: nat :: OnPath(d, x, e) && (Closest(d, e, sels).None? || Closest(d, e, sels).value < x) ==> !MatchesAny(d, x, sels)
    decreases e
  {
    if !MatchesAny(d, e, sels) {
      match Parent(d, e)
      case None =>
      case Some(p) =>
        ClosestFinds(d, p, sels);
        assert forall x: nat :: OnPath(d, x, e) && x != e ==> OnPath(d, x, p);
    }
  }
}
