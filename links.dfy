/** The `sourceUrl`/`sourceTitle` of an image record (src/main.js:311-382):
    an ordered list of link selectors tried inside the result container,
    then inside each of at most five ancestors of the image, then a scan of
    every absolute link in the document for the first one near the image. */
module Links {
  import opened Wrappers
  import opened Text
  import opened Dom

  /** `a[href*="http"]` */
  const HttpLink: Selector := Simple(Both(Tag("a"), AttrContains("href", "http")))

  /** The link selectors, in the order they are tried. */
  const LinkSelectors: seq<Selector> := [
    HttpLink,                                    // a[href*="http"]
    Simple(Both(Tag("a"), HasClass("umNKYc"))),  // a.umNKYc
    Simple(Both(Tag("a"), HasAttr("data-ved"))), // a[data-ved]
    Simple(Tag("a")),                            // a
    Descendant(HasAttr("data-ved"), Tag("a")),   // [data-ved] a
    Descendant(HasClass("rg_l"), Tag("a")),      // .rg_l a
    Descendant(HasClass("islrc"), Tag("a"))      // .islrc a
  ]

  /** How many ancestor levels the parent walk visits. */
  const MaxDepth: nat := 5

  /** The pixel radius of the proximity fallback. */
  const NearRadius: real := 200.0

  datatype Source = Source(url: string, title: string)

  /** `href && href.startsWith('http')` */
  predicate IsHttp(url: string) {
    StartsWith(url, "http")
  }

  function Href(d: Snapshot, l: ElementId): string
    requires Valid(d, l)
  {
    Attr(d, l, "href")
  }

  /** `title || textContent?.trim() || aria-label || ''` */
  function LinkTitle(d: Snapshot, l: ElementId): string
    requires Valid(d, l)
  {
    FirstNonEmpty([Attr(d, l, "title"), TrimmedText(d, l), Attr(d, l, "aria-label")])
  }

  /** A link's title is its `title` attribute when non-empty, else its
      trimmed text when that is, else its `aria-label`. */
  lemma LinkTitleChoice(d: Snapshot, l: ElementId)
    requires Valid(d, l)
    ensures Attr(d, l, "title") != "" ==> LinkTitle(d, l) == Attr(d, l, "title")
    ensures Attr(d, l, "title") == "" && TrimmedText(d, l) != "" ==> LinkTitle(d, l) == TrimmedText(d, l)
    ensures Attr(d, l, "title") == "" && TrimmedText(d, l) == "" ==> LinkTitle(d, l) == Attr(d, l, "aria-label")
  {
    FirstNonEmptyOf3(Attr(d, l, "title"), TrimmedText(d, l), Attr(d, l, "aria-label"));
  }

  /** The first match of `sel` in `scope`, when its href is absolute. */
  function Probe(d: Snapshot, scope: ElementId, sel: Selector): (r: Option<ElementId>)
    ensures r.Some? ==> Valid(d, r.value) && IsHttp(Href(d, r.value))
  {
    match QuerySelector(d, scope, sel)
    case None => None
    case Some(l) => if IsHttp(Href(d, l)) then Some(l) else None
  }

  /** The probe succeeds exactly when the first match of `sel` in `scope`
      has an absolute href, and then it is that first match. */
  lemma ProbeFinds(d: Snapshot, scope: ElementId, sel: Selector)
    ensures Probe(d, scope, sel).Some? ==> FirstMatch(d, scope, sel, Probe(d, scope, sel).value)
    ensures Probe(d, scope, sel).Some? <==> exists l: nat :: FirstMatch(d, scope, sel, l) && IsHttp(Href(d, l))
  {
    QuerySelectorFirstMatch(d, scope, sel);
    var found := QuerySelector(d, scope, sel);
    if found.Some? {
      assert FirstMatch(d, scope, sel, found.value);
    }
  }

  /** The source a link gives: its href and its title. */
  function SourceOf(d: Snapshot, l: ElementId): Source
    requires Valid(d, l)
  {
    Source(Href(d, l), LinkTitle(d, l))
  }

  /** The source the selectors `sels`, tried in order, find in `scope`:
      the first whose first match in `scope` has an absolute href wins, and
      its link gives the url and title. */
  function SearchIn(d: Snapshot, scope: ElementId, sels: seq<Selector>): (r: Option<Source>)
    ensures r.Some? ==> IsHttp(r.value.url)
  {
    if sels == [] then None
    else match Probe(d, scope, sels[0])
      case Some(l) => Some(SourceOf(d, l))
      case None => SearchIn(d, scope, sels[1..])
  }

  /** `SearchIn` finds nothing exactly when no selector's probe succeeds. */
  lemma {:induction false} SearchInNone(d: Snapshot, scope: ElementId, sels: seq<Selector>)
    ensures SearchIn(d, scope, sels).None? <==> forall j :: 0 <= j < |sels| ==> Probe(d, scope, sels[j]).None?
  {
    if sels != [] && Probe(d, scope, sels[0]).None? {
      var rest := sels[1..];
      SearchInNone(d, scope, rest);
      assert forall j :: 0 < j < |sels| ==> sels[j] == rest[j - 1];
    }
  }

  /** The source the probe of `sel` gives, if it succeeds. */
  function ProbeSource(d: Snapshot, scope: ElementId, sel: Selector): Option<Source> {
    match Probe(d, scope, sel)
    case None => None
    case Some(l) => Some(SourceOf(d, l))
  }

  /** The `j`-th selector is the first of `sels` whose probe succeeds. */
  predicate FirstHit(d: Snapshot, scope: ElementId, sels: seq<Selector>, j: nat) {
    && j < |sels| && Probe(d, scope, sels[j]).Some?
    && forall i :: 0 <= i < j ==> Probe(d, scope, sels[i]).None?
  }

  /** When `SearchIn` finds a source, it is the link of the first selector
      whose probe succeeds. */
  lemma {:induction false} SearchInFirst(d: Snapshot, scope: ElementId, sels: seq<Selector>)
    requires SearchIn(d, scope, sels).Some?
    ensures exists j: nat :: FirstHit(d, scope, sels, j) && SearchIn(d, scope, sels) == ProbeSource(d, scope, sels[j])
  {
    if Probe(d, scope, sels[0]).Some? {
      assert FirstHit(d, scope, sels, 0);
    } else {
      var rest := sels[1..];
      assert SearchIn(d, scope, sels) == SearchIn(d, scope, rest);
      SearchInFirst(d, scope, rest);
      var j: nat :| FirstHit(d, scope, rest, j) && SearchIn(d, scope, rest) == ProbeSource(d, scope, rest[j]);
      assert sels[j + 1] == rest[j];
      forall i | 0 < i < j + 1 ensures Probe(d, scope, sels[i]).None? {
        assert sels[i] == rest[i - 1];
      }
      assert FirstHit(d, scope, sels, j + 1);
    }
  }

  /** The search in one scope, over all the link selectors. */
  function Search(d: Snapshot, scope: ElementId): (r: Option<Source>)
    ensures r.Some? ==> IsHttp(r.value.url)
  {
    SearchIn(d, scope, LinkSelectors)
  }

  /** The loop over the link selectors inside one scope (src/main.js:323-332
      and 341-350). */
  method SearchScope(d: Snapshot, scope: ElementId) returns (found: Option<Source>)
    ensures found == Search(d, scope)
  {
    var sels := LinkSelectors;
    for k := 0 to |sels|
      invariant Search(d, scope) == SearchIn(d, scope, sels[k..])
    {
      var link := Probe(d, scope, sels[k]);
      assert sels[k..][1..] == sels[k + 1..];
      if link.Some? {
        found := Some(SourceOf(d, link.value));
        return;
      }
    }
    found := None;
  }

  /** The elements the parent walk visits from `p`: `p` and its ancestors,
      nearest first, cut after `n` of them or at the root. */
  function Levels(d: Snapshot, p: Option<ElementId>, n: nat): (ls: seq<ElementId>)
    requires p.Some? ==> Valid(d, p.value)
    ensures |ls| <= n
    ensures forall k :: 0 <= k < |ls| ==> Valid(d, ls[k])
    decreases n
  {
    if n == 0 || p.None? then []
    else [p.value] + Levels(d, Parent(d, p.value), n - 1)
  }

  /** The levels are `p` and then each one's parent in turn, and they stop
      short of `n` only at the root. */
  lemma {:induction false} LevelsChain(d: Snapshot, p: Option<ElementId>, n: nat)
    requires p.Some? ==> Valid(d, p.value)
    ensures Levels(d, p, n) != [] ==> p == Some(Levels(d, p, n)[0])
    ensures Levels(d, p, n) == [] ==> n == 0 || p.None?
    ensures forall k :: 0 < k < |Levels(d, p, n)| ==> Parent(d, Levels(d, p, n)[k - 1]) == Some(Levels(d, p, n)[k])
    ensures 0 < |Levels(d, p, n)| < n ==> Parent(d, Levels(d, p, n)[|Levels(d, p, n)| - 1]).None?
    decreases n
  {
    if n > 0 && p.Some? {
      var up := Parent(d, p.value);
      var rest := Levels(d, up, n - 1);
      var ls := Levels(d, p, n);
      assert ls == [p.value] + rest;
      LevelsChain(d, up, n - 1);
      forall k | 0 < k < |ls| ensures Parent(d, ls[k - 1]) == Some(ls[k]) {
        if k > 1 {
          assert ls[k - 1] == rest[k - 2] && ls[k] == rest[k - 1];
        }
      }
    }
  }

  /** The walk from `p` up, at most `n` levels: the search with the link
      selectors `sels` in each level in turn, the first level with a source
      winning. */
  function WalkFrom(d: Snapshot, sels: seq<Selector>, p: Option<ElementId>, n: nat): Option<Source>
    requires p.Some? ==> Valid(d, p.value)
    decreases n
  {
    if n == 0 || p.None? then None
    else
      var here := SearchIn(d, p.value, sels);
      if here.Some? then here else WalkFrom(d, sels, Parent(d, p.value), n - 1)
  }

  /** The search results of the levels `ls`, in their order. */
  function Found(d: Snapshot, sels: seq<Selector>, ls: seq<ElementId>): (rs: seq<Option<Source>>)
    ensures |rs| == |ls|
  {
    if ls == [] then [] else [SearchIn(d, ls[0], sels)] + Found(d, sels, ls[1..])
  }

  /** Each result is the search in the level at the same position. */
  lemma {:induction false} FoundAt(d: Snapshot, sels: seq<Selector>, ls: seq<ElementId>, k: nat)
    requires k < |ls|
    ensures Found(d, sels, ls)[k] == SearchIn(d, ls[k], sels)
  {
    if k > 0 {
      FoundAt(d, sels, ls[1..], k - 1);
    }
  }

  /** The first result that is a source, if any. */
  function FirstSome(rs: seq<Option<Source>>): Option<Source> {
    if rs == [] then None else if rs[0].Some? then rs[0] else FirstSome(rs[1..])
  }

  /** `FirstSome` finds nothing exactly when every result is `None`. */
  lemma {:induction false} FirstSomeNone(rs: seq<Option<Source>>)
    ensures FirstSome(rs).None? <==> forall k :: 0 <= k < |rs| ==> rs[k].None?
  {
    if rs != [] && rs[0].None? {
      FirstSomeNone(rs[1..]);
      assert forall k :: 0 < k < |rs| ==> rs[k] == rs[1..][k - 1];
    }
  }

  /** `rs[k]` is the first result that is a source. */
  predicate FirstSomeAt(rs: seq<Option<Source>>, k: nat) {
    && k < |rs| && rs[k].Some?
    && forall i :: 0 <= i < k ==> rs[i].None?
  }

  /** A source `FirstSome` finds is the first result that is one. */
  lemma {:induction false} FirstSomeFirst(rs: seq<Option<Source>>)
    requires FirstSome(rs).Some?
    ensures exists k: nat :: FirstSomeAt(rs, k) && FirstSome(rs) == rs[k]
  {
    if rs[0].Some? {
      assert FirstSomeAt(rs, 0);
    } else {
      var t := rs[1..];
      FirstSomeFirst(t);
      var k: nat :| FirstSomeAt(t, k) && FirstSome(t) == t[k];
      assert rs[k + 1] == t[k];
      forall i | 0 < i < k + 1 ensures rs[i].None? {
        assert rs[i] == t[i - 1];
      }
      assert FirstSomeAt(rs, k + 1);
    }
  }

  /** The walk is the first source among the results of its levels. */
  lemma {:induction false} WalkFromLevels(d: Snapshot, sels: seq<Selector>, p: Option<ElementId>, n: nat)
    requires p.Some? ==> Valid(d, p.value)
    ensures WalkFrom(d, sels, p, n) == FirstSome(Found(d, sels, Levels(d, p, n)))
    decreases n
  {
    if n > 0 && p.Some? {
      var up := Parent(d, p.value);
      var ls := Levels(d, p, n);
      var rest := Levels(d, up, n - 1);
      assert ls == [p.value] + rest;
      assert ls[1..] == rest;
      WalkFromLevels(d, sels, up, n - 1);
    }
  }

  /** The walk finds nothing exactly when no visited level has a source. */
  lemma WalkFromNone(d: Snapshot, sels: seq<Selector>, p: Option<ElementId>, n: nat)
    requires p.Some? ==> Valid(d, p.value)
    ensures WalkFrom(d, sels, p, n).None? <==>
      forall k :: 0 <= k < |Levels(d, p, n)| ==> SearchIn(d, Levels(d, p, n)[k], sels).None?
  {
    var ls := Levels(d, p, n);
    var rs := Found(d, sels, ls);
    WalkFromLevels(d, sels, p, n);
    FirstSomeNone(rs);
    forall k | 0 <= k < |ls| ensures rs[k] == SearchIn(d, ls[k], sels) {
      FoundAt(d, sels, ls, k);
    }
  }

  /** `ls[k]` is the first of the levels `ls` whose search finds a source. */
  predicate FirstLevel(d: Snapshot, sels: seq<Selector>, ls: seq<ElementId>, k: nat) {
    && k < |ls| && SearchIn(d, ls[k], sels).Some?
    && forall i :: 0 <= i < k ==> SearchIn(d, ls[i], sels).None?
  }

  /** When the walk finds a source, it is the source of the nearest
      visited level that has one. */
  lemma WalkFromFirst(d: Snapshot, sels: seq<Selector>, p: Option<ElementId>, n: nat)
    requires p.Some? ==> Valid(d, p.value)
    requires WalkFrom(d, sels, p, n).Some?
    ensures exists k: nat :: FirstLevel(d, sels, Levels(d, p, n), k) && WalkFrom(d, sels, p, n) == SearchIn(d, Levels(d, p, n)[k], sels)
  {
    var ls := Levels(d, p, n);
    var rs := Found(d, sels, ls);
    WalkFromLevels(d, sels, p, n);
    FirstSomeFirst(rs);
    var k: nat :| FirstSomeAt(rs, k) && FirstSome(rs) == rs[k];
    FoundAt(d, sels, ls, k);
    forall i | 0 <= i < k ensures SearchIn(d, ls[i], sels).None? {
      FoundAt(d, sels, ls, i);
    }
    assert FirstLevel(d, sels, ls, k);
  }

  /** The parent walk of an image: the search in its parent and then in
      each further ancestor, at most `MaxDepth` levels. */
  function ParentWalk(d: Snapshot, img: ElementId): (r: Option<Source>)
    requires Valid(d, img)
    ensures r.Some? ==> IsHttp(r.value.url)
  {
    WalkFromHttp(d, LinkSelectors, Parent(d, img), MaxDepth);
    WalkFrom(d, LinkSelectors, Parent(d, img), MaxDepth)
  }

  lemma {:induction false} WalkFromHttp(d: Snapshot, sels: seq<Selector>, p: Option<ElementId>, n: nat)
    requires p.Some? ==> Valid(d, p.value)
    ensures WalkFrom(d, sels, p, n).Some? ==> IsHttp(WalkFrom(d, sels, p, n).value.url)
    decreases n
  {
    if n > 0 && p.Some? && SearchIn(d, p.value, sels).None? {
      WalkFromHttp(d, sels, Parent(d, p.value), n - 1);
    }
  }

  /** The `while (parent && searchDepth < maxDepth)` loop
      (src/main.js:336-354). */
  method WalkParents(d: Snapshot, img: ElementId) returns (found: Option<Source>)
    requires Valid(d, img)
    ensures found == ParentWalk(d, img)
  {
    var parent := Parent(d, img);
    var depth: nat := 0;
    while parent.Some? && depth < MaxDepth
      invariant depth <= MaxDepth
      invariant parent.Some? ==> Valid(d, parent.value)
      invariant ParentWalk(d, img) == WalkFrom(d, LinkSelectors, parent, MaxDepth - depth)
      decreases MaxDepth - depth
    {
      found := SearchScope(d, parent.value);
      if found.Some? {
        return;
      }
      parent := Parent(d, parent.value);
      depth := depth + 1;
    }
    found := None;
  }

  /** `Math.sqrt(dx * dx + dy * dy) < 200` for the top-left corners of the
      link and image boxes, stated without the square root. */
  predicate IsNear(d: Snapshot, link: ElementId, img: ElementId)
    requires Valid(d, link) && Valid(d, img)
  {
    var dx := d.elements[link].corner.left - d.elements[img].corner.left;
    var dy := d.elements[link].corner.top - d.elements[img].corner.top;
    dx * dx + dy * dy < NearRadius * NearRadius
  }

  /** `distance < 200 && link.href && link.href.startsWith('http')` */
  predicate NearAccepts(d: Snapshot, img: ElementId, link: ElementId)
    requires Valid(d, link) && Valid(d, img)
  {
    IsNear(d, link, img) && IsHttp(Href(d, link))
  }

  /** `title || textContent?.trim() || ''` (no aria-label here). */
  function NearTitle(d: Snapshot, l: ElementId): string
    requires Valid(d, l)
  {
    FirstNonEmpty([Attr(d, l, "title"), TrimmedText(d, l)])
  }

  /** A nearby link's title is its `title` attribute when non-empty, else
      its trimmed text; its `aria-label` is never used. */
  lemma NearTitleChoice(d: Snapshot, l: ElementId)
    requires Valid(d, l)
    ensures Attr(d, l, "title") != "" ==> NearTitle(d, l) == Attr(d, l, "title")
    ensures Attr(d, l, "title") == "" ==> NearTitle(d, l) == TrimmedText(d, l)
  {
    var xs := [Attr(d, l, "title"), TrimmedText(d, l)];
    if xs[0] != "" {
      FirstNonEmptyAt(xs, 0);
    } else {
      FirstNonEmptyAt(xs, 1);
    }
  }

  /** The first of `links`, in their order, that is near the image and
      absolute; not the nearest one. */
  function NearbyFrom(d: Snapshot, img: ElementId, links: seq<ElementId>): (r: Option<Source>)
    requires Valid(d, img) && forall k :: 0 <= k < |links| ==> Valid(d, links[k])
    ensures r.Some? ==> IsHttp(r.value.url)
  {
    if links == [] then None
    else if NearAccepts(d, img, links[0]) then Some(Source(Href(d, links[0]), NearTitle(d, links[0])))
    else NearbyFrom(d, img, links[1..])
  }

  /** The proximity fallback finds nothing exactly when no link is both
      near and absolute. */
  lemma {:induction false} NearbyFromNone(d: Snapshot, img: ElementId, links: seq<ElementId>)
    requires Valid(d, img) && forall k :: 0 <= k < |links| ==> Valid(d, links[k])
    ensures NearbyFrom(d, img, links).None? <==> forall k :: 0 <= k < |links| ==> !NearAccepts(d, img, links[k])
  {
    if links != [] && !NearAccepts(d, img, links[0]) {
      var rest := links[1..];
      NearbyFromNone(d, img, rest);
      assert forall k :: 0 < k < |links| ==> links[k] == rest[k - 1];
    }
  }

  /** When the proximity fallback finds a source, it is the first link
      that is near and absolute, with its `href` and its title. */
  lemma {:induction false} NearbyFromFirst(d: Snapshot, img: ElementId, links: seq<ElementId>)
    requires Valid(d, img) && forall k :: 0 <= k < |links| ==> Valid(d, links[k])
    requires NearbyFrom(d, img, links).Some?
    ensures exists k ::
      && 0 <= k < |links| && NearAccepts(d, img, links[k])
      && (forall j :: 0 <= j < k ==> !NearAccepts(d, img, links[j]))
      && NearbyFrom(d, img, links).value == Source(Href(d, links[k]), NearTitle(d, links[k]))
  {
    if !NearAccepts(d, img, links[0]) {
      var rest := links[1..];
      assert NearbyFrom(d, img, links) == NearbyFrom(d, img, rest);
      NearbyFromFirst(d, img, rest);
      var k :| && 0 <= k < |rest| && NearAccepts(d, img, rest[k])
               && (forall j :: 0 <= j < k ==> !NearAccepts(d, img, rest[j]))
               && NearbyFrom(d, img, rest).value == Source(Href(d, rest[k]), NearTitle(d, rest[k]));
      assert links[k + 1] == rest[k];
      forall j | 0 < j < k + 1 ensures !NearAccepts(d, img, links[j]) {
        assert links[j] == rest[j - 1];
      }
    }
  }

  /** The proximity fallback over `document.querySelectorAll('a[href*="http"]')`. */
  function Nearby(d: Snapshot, img: ElementId): Option<Source>
    requires Valid(d, img)
  {
    NearbyFrom(d, img, QuerySelectorAll(d, HttpLink))
  }

  /** The `for (const link of nearbyLinks)` loop (src/main.js:364-381). */
  method FindNearbyLink(d: Snapshot, img: ElementId) returns (found: Option<Source>)
    requires Valid(d, img)
    ensures found == Nearby(d, img)
  {
    var links := QuerySelectorAll(d, HttpLink);
    found := None;
    for i := 0 to |links|
      invariant Nearby(d, img) == NearbyFrom(d, img, links[i..])
    {
      var link := links[i];
      assert links[i..][1..] == links[i + 1..];
      if IsNear(d, link, img) && IsHttp(Href(d, link)) {
        found := Some(Source(Href(d, link), NearTitle(d, link)));
        break;
      }
    }
  }

  /** Where the source comes from: with a container, the container's
      selectors and then the parent walk; in every case the proximity
      fallback when those found nothing. */
  function SourceLink(d: Snapshot, img: ElementId, container: Option<ElementId>): (r: Option<Source>)
    requires Valid(d, img)
    ensures r.Some? ==> IsHttp(r.value.url)
  {
    match container
    case None => Nearby(d, img)
    case Some(c) =>
      var inside := Search(d, c);
      if inside.Some? then inside
      else
        var walked := ParentWalk(d, img);
        if walked.Some? then walked else Nearby(d, img)
  }

  /** A source found for an image comes from exactly one stage: with a
      container whose search succeeds, the link of the first link selector
      whose probe does; with a container where no selector finds one, the
      search of the nearest ancestor level that has one; otherwise the first
      absolute link in the document within the radius, with its `href` and
      its title. */
  lemma SourceLinkSome(d: Snapshot, img: ElementId, container: Option<ElementId>)
    requires Valid(d, img)
    requires SourceLink(d, img, container).Some?
    ensures container.Some? && Search(d, container.value).Some? ==>
      exists j: nat :: FirstHit(d, container.value, LinkSelectors, j) && SourceLink(d, img, container) == ProbeSource(d, container.value, LinkSelectors[j])
    ensures container.Some? && Search(d, container.value).None? && ParentWalk(d, img).Some? ==>
      && (forall j :: 0 <= j < |LinkSelectors| ==> Probe(d, container.value, LinkSelectors[j]).None?)
      && exists k: nat ::
           && FirstLevel(d, LinkSelectors, Levels(d, Parent(d, img), MaxDepth), k)
           && SourceLink(d, img, container) == Search(d, Levels(d, Parent(d, img), MaxDepth)[k])
    ensures container.None? || (Search(d, container.value).None? && ParentWalk(d, img).None?) ==>
      exists k ::
        && 0 <= k < |QuerySelectorAll(d, HttpLink)| && NearAccepts(d, img, QuerySelectorAll(d, HttpLink)[k])
        && (forall j :: 0 <= j < k ==> !NearAccepts(d, img, QuerySelectorAll(d, HttpLink)[j]))
        && SourceLink(d, img, container).value == Source(Href(d, QuerySelectorAll(d, HttpLink)[k]), NearTitle(d, QuerySelectorAll(d, HttpLink)[k]))
  {
    match container
    case None =>
      NearbyFromFirst(d, img, QuerySelectorAll(d, HttpLink));
    case Some(c) =>
      if Search(d, c).Some? {
        SearchInFirst(d, c, LinkSelectors);
      } else if ParentWalk(d, img).Some? {
        SearchInNone(d, c, LinkSelectors);
        WalkFromFirst(d, LinkSelectors, Parent(d, img), MaxDepth);
      } else {
        NearbyFromFirst(d, img, QuerySelectorAll(d, HttpLink));
      }
  }

  /** An image left without a source has no absolute link within the
      radius in the whole document; with a container, none of the link
      selectors finds an absolute link in it, nor in any of the ancestor
      levels the walk visits. */
  lemma SourceLinkNone(d: Snapshot, img: ElementId, container: Option<ElementId>)
    requires Valid(d, img)
    requires SourceLink(d, img, container).None?
    ensures forall k :: 0 <= k < |QuerySelectorAll(d, HttpLink)| ==> !NearAccepts(d, img, QuerySelectorAll(d, HttpLink)[k])
    ensures container.Some? ==> forall j :: 0 <= j < |LinkSelectors| ==> Probe(d, container.value, LinkSelectors[j]).None?
    ensures container.Some? ==> forall k :: 0 <= k < |Levels(d, Parent(d, img), MaxDepth)| ==> Search(d, Levels(d, Parent(d, img), MaxDepth)[k]).None?
  {
    NearbyFromNone(d, img, QuerySelectorAll(d, HttpLink));
    if container.Some? {
      SearchInNone(d, container.value, LinkSelectors);
      WalkFromNone(d, LinkSelectors, Parent(d, img), MaxDepth);
    }
  }

  /** The whole source search of src/main.js:307-382. */
  method ResolveSource(d: Snapshot, img: ElementId, container: Option<ElementId>) returns (found: Option<Source>)
    requires Valid(d, img)
    ensures found == SourceLink(d, img, container)
  {
    found := None;
    if container.Some? {
      found := SearchScope(d, container.value);
      if found.None? {
        found := WalkParents(d, img);
      }
    }
    if found.None? {
      found := FindNearbyLink(d, img);
    }
  }
}
