/** The image-record extraction run inside the results page
    (src/main.js:227-411): collect candidate images with an ordered list of
    selectors, drop repeated elements, and walk the candidates in order,
    keeping at most `maxImages` whose URL is usable and not yet taken, and
    building one record for each. */
module Extractor {
  import opened Wrappers
  import opened Text
  import opened Dom
  import opened Seqs
  import opened Label
  import opened Links

  /** The candidate image selectors, in the order they are queried. */
  const ImageSelectors: seq<Selector> := [
    Simple(Both(Tag("img"), AttrContains("src", "encrypted-tbn"))),     // img[src*="encrypted-tbn"]
    Simple(Both(Tag("img"), AttrContains("src", "googleusercontent"))), // img[src*="googleusercontent"]
    Simple(Both(Tag("img"), AttrContains("src", "gstatic"))),           // img[src*="gstatic"]
    Descendant(HasClass("rg_l"), Tag("img")),                           // .rg_l img
    Descendant(HasClass("islrc"), Tag("img")),                          // .islrc img
    Descendant(HasAttr("data-ved"), Tag("img")),                        // [data-ved] img
    Simple(Both(Tag("img"), AttrContains("alt", "gach"))),              // img[alt*="gach"]
    Simple(Both(Tag("img"), AttrContains("alt", "g\U{1EA1}ch")))        // img[alt*="gạch"]
  ]

  // ---------------------------------------------------------------------
  // Candidate images
  // ---------------------------------------------------------------------

  /** `allImages` after `forEach` has appended `querySelectorAll` of each of
      `sels` in turn. */
  function ConcatMatches(d: Snapshot, sels: seq<Selector>): (r: seq<ElementId>)
    ensures forall k :: 0 <= k < |r| ==> Valid(d, r[k])
    decreases |sels|
  {
    if sels == [] then []
    else ConcatMatches(d, sels[..|sels| - 1]) + QuerySelectorAll(d, sels[|sels| - 1])
  }

  /** An element is collected exactly when it matches one of the selectors. */
  lemma {:induction false} ConcatMembers(d: Snapshot, sels: seq<Selector>)
    ensures forall e: nat :: e in ConcatMatches(d, sels) <==> e < |d.elements| && MatchesAny(d, e, sels)
    decreases |sels|
  {
    if sels != [] {
      var n := |sels| - 1;
      var init := sels[..n];
      ConcatMembers(d, init);
      QuerySelectorAllExactly(d, sels[n]);
      forall e: nat | e < |d.elements|
        ensures MatchesAny(d, e, sels) <==> MatchesAny(d, e, init) || Matches(d, e, sels[n])
      {
        MatchesAnyIff(d, e, sels);
        MatchesAnyIff(d, e, init);
        if MatchesAny(d, e, sels) {
          var k :| 0 <= k < |sels| && Matches(d, e, sels[k]);
          if k < n {
            assert init[k] == sels[k];
          }
        }
        if MatchesAny(d, e, init) {
          var k :| 0 <= k < |init| && Matches(d, e, init[k]);
          assert sels[k] == init[k];
        }
        if Matches(d, e, sels[n]) {
          assert 0 <= n < |sels|;
        }
      }
    }
  }

  /** The `selectors.forEach(...)` loop (src/main.js:243-247). */
  method CollectCandidates(d: Snapshot) returns (all: seq<ElementId>)
    ensures all == ConcatMatches(d, ImageSelectors)
  {
    all := [];
    for k := 0 to |ImageSelectors|
      invariant all == ConcatMatches(d, ImageSelectors[..k])
    {
      var imgs := QuerySelectorAll(d, ImageSelectors[k]);
      assert ImageSelectors[..k + 1][..k] == ImageSelectors[..k];
      all := all + imgs;
    }
    assert ImageSelectors[..|ImageSelectors|] == ImageSelectors;
  }

  /** `uniqueImages`: the collected elements without repetitions. */
  function Candidates(d: Snapshot): (r: seq<ElementId>)
    ensures forall k :: 0 <= k < |r| ==> Valid(d, r[k])
  {
    var all := ConcatMatches(d, ImageSelectors);
    var r := Dedup(all);
    assert forall k :: 0 <= k < |r| ==> r[k] in all;
    r
  }

  /** The unique images are exactly the elements matching one of the image
      selectors, each once, in the order of its first collection. */
  lemma CandidatesExactly(d: Snapshot)
    ensures Distinct(Candidates(d))
    ensures forall e: nat :: e in Candidates(d) <==> e < |d.elements| && MatchesAny(d, e, ImageSelectors)
    ensures forall i, j :: 0 <= i < j < |Candidates(d)| ==> FirstIndex(ConcatMatches(d, ImageSelectors), Candidates(d)[i]) < FirstIndex(ConcatMatches(d, ImageSelectors), Candidates(d)[j])
  {
    ConcatMembers(d, ImageSelectors);
  }

  /** The tag a compound selector demands of the element it matches. */
  predicate DemandsTag(c: Compound, t: string) {
    match c
    case Tag(n) => n == t
    case Both(l, r) => DemandsTag(l, t) || DemandsTag(r, t)
    case _ => false
  }

  lemma {:induction false} DemandsTagSound(el: Element, c: Compound, t: string)
    requires DemandsTag(c, t) && MatchesCompound(el, c)
    ensures el.tag == t
  {
    match c
    case Tag(n) =>
    case Both(l, r) =>
      if DemandsTag(l, t) {
        DemandsTagSound(el, l, t);
      } else {
        DemandsTagSound(el, r, t);
      }
  }

  /** Every unique image is an `img` element. */
  lemma CandidatesAreImages(d: Snapshot)
    ensures forall e :: e in Candidates(d) ==> e < |d.elements| && d.elements[e].tag == "img"
  {
    CandidatesExactly(d);
    forall e | e in Candidates(d)
      ensures e < |d.elements| && d.elements[e].tag == "img"
    {
      MatchesAnyIff(d, e, ImageSelectors);
      var k :| 0 <= k < |ImageSelectors| && Matches(d, e, ImageSelectors[k]);
      var sel := ImageSelectors[k];
      assert DemandsTag(sel.subject, "img");
      DemandsTagSound(d.elements[e], sel.subject, "img");
    }
  }

  // ---------------------------------------------------------------------
  // Which images are kept
  // ---------------------------------------------------------------------

  /** `img.src || data-src || data-lazy-src`, with a missing value read as
      `""`. */
  function ImageUrl(d: Snapshot, img: ElementId): string
    requires Valid(d, img)
  {
    FirstNonEmpty([Attr(d, img, "src"), Attr(d, img, "data-src"), Attr(d, img, "data-lazy-src")])
  }

  /** The URL is the `src` attribute when it is non-empty, else
      `data-src` when that is, else `data-lazy-src`. */
  lemma ImageUrlChoice(d: Snapshot, img: ElementId)
    requires Valid(d, img)
    ensures Attr(d, img, "src") != "" ==> ImageUrl(d, img) == Attr(d, img, "src")
    ensures Attr(d, img, "src") == "" && Attr(d, img, "data-src") != "" ==> ImageUrl(d, img) == Attr(d, img, "data-src")
    ensures Attr(d, img, "src") == "" && Attr(d, img, "data-src") == "" ==> ImageUrl(d, img) == Attr(d, img, "data-lazy-src")
  {
    FirstNonEmptyOf3(Attr(d, img, "src"), Attr(d, img, "data-src"), Attr(d, img, "data-lazy-src"));
  }

  /** The acceptance test of src/main.js:297-303, clause by clause. */
  predicate Accepted(src: string, seen: set<string>) {
    && src != ""
    && |src| > 10
    && !Contains(src, "data:image/gif;base64")
    && !Contains(src, "data:image")
    && !Contains(src, "google.com/logos")
    && !Contains(src, "google.com/tia")
    && src !in seen
  }

  /** A URL the acceptance test lets through when not yet taken: longer
      than 10 characters, and containing none of `data:image`,
      `google.com/logos` and `google.com/tia`. */
  predicate UsableUrl(src: string) {
    && |src| > 10
    && !Contains(src, "data:image")
    && !Contains(src, "google.com/logos")
    && !Contains(src, "google.com/tia")
  }

  /** The emptiness and GIF clauses add nothing: a GIF data URL contains
      `data:image`, and a URL longer than 10 is not empty. */
  lemma AcceptedIff(src: string, seen: set<string>)
    ensures Accepted(src, seen) <==> UsableUrl(src) && src !in seen
  {
    if Contains(src, "data:image/gif;base64") {
      assert "data:image/gif;base64" == "data:image" + "/gif;base64";
      ContainsPrefixOf(src, "data:image", "/gif;base64");
    }
  }

  /** The images the loop keeps from `imgs`, given the URLs `seen` so far
      and `count` records already built: it stops once `count` reaches
      `maxImages`, and keeps an image when its URL passes the acceptance
      test. */
  function Selected(d: Snapshot, imgs: seq<ElementId>, maxImages: int, seen: set<string>, count: nat): (r: seq<ElementId>)
    requires forall k :: 0 <= k < |imgs| ==> Valid(d, imgs[k])
    ensures forall k :: 0 <= k < |r| ==> Valid(d, r[k])
    decreases |imgs|
  {
    if imgs == [] || count >= maxImages then []
    else
      var src := ImageUrl(d, imgs[0]);
      var rest := imgs[1..];
      if Accepted(src, seen) then [imgs[0]] + Selected(d, rest, maxImages, seen + {src}, count + 1)
      else Selected(d, rest, maxImages, seen, count)
  }

  /** No more images are kept than `maxImages` allows. */
  lemma {:induction false} SelectedBound(d: Snapshot, imgs: seq<ElementId>, maxImages: int, seen: set<string>, count: nat)
    requires forall k :: 0 <= k < |imgs| ==> Valid(d, imgs[k])
    ensures var r := Selected(d, imgs, maxImages, seen, count);
      && |r| <= |imgs|
      && (count >= maxImages ==> r == [])
      && (count < maxImages ==> count + |r| <= maxImages)
    decreases |imgs|
  {
    if imgs != [] && count < maxImages {
      var src := ImageUrl(d, imgs[0]);
      if Accepted(src, seen) {
        SelectedBound(d, imgs[1..], maxImages, seen + {src}, count + 1);
      } else {
        SelectedBound(d, imgs[1..], maxImages, seen, count);
      }
    }
  }

  /** The kept images are some of `imgs`, in their order. */
  lemma {:induction false} SelectedInOrder(d: Snapshot, imgs: seq<ElementId>, maxImages: int, seen: set<string>, count: nat)
    requires forall k :: 0 <= k < |imgs| ==> Valid(d, imgs[k])
    ensures IsSubsequence(Selected(d, imgs, maxImages, seen, count), imgs)
    decreases |imgs|
  {
    var r := Selected(d, imgs, maxImages, seen, count);
    if r != [] {
      var src := ImageUrl(d, imgs[0]);
      if Accepted(src, seen) {
        SelectedInOrder(d, imgs[1..], maxImages, seen + {src}, count + 1);
      } else {
        SelectedInOrder(d, imgs[1..], maxImages, seen, count);
      }
    }
  }

  /** The URLs of `r` are usable and none of them is in `seen`. */
  predicate FreshUrls(d: Snapshot, r: seq<ElementId>, seen: set<string>)
    requires forall k :: 0 <= k < |r| ==> Valid(d, r[k])
  {
    forall k :: 0 <= k < |r| ==> UsableUrl(ImageUrl(d, r[k])) && ImageUrl(d, r[k]) !in seen
  }

  /** No two of `r` have the same URL. */
  predicate DistinctUrls(d: Snapshot, r: seq<ElementId>)
    requires forall k :: 0 <= k < |r| ==> Valid(d, r[k])
  {
    forall i, j :: 0 <= i < j < |r| ==> ImageUrl(d, r[i]) != ImageUrl(d, r[j])
  }

  /** Every kept image has a usable URL that was not seen before, and no
      two kept images share a URL. */
  lemma {:induction false} SelectedUrls(d: Snapshot, imgs: seq<ElementId>, maxImages: int, seen: set<string>, count: nat)
    requires forall k :: 0 <= k < |imgs| ==> Valid(d, imgs[k])
    ensures FreshUrls(d, Selected(d, imgs, maxImages, seen, count), seen)
    ensures DistinctUrls(d, Selected(d, imgs, maxImages, seen, count))
    decreases |imgs|
  {
    var r := Selected(d, imgs, maxImages, seen, count);
    if r != [] {
      var src := ImageUrl(d, imgs[0]);
      var rest := imgs[1..];
      if Accepted(src, seen) {
        var seen' := seen + {src};
        var t := Selected(d, rest, maxImages, seen', count + 1);
        SelectedUrls(d, rest, maxImages, seen', count + 1);
        assert r == [imgs[0]] + t;
        assert forall k :: 0 < k < |r| ==> r[k] == t[k - 1];
      } else {
        assert r == Selected(d, rest, maxImages, seen, count);
        SelectedUrls(d, rest, maxImages, seen, count);
      }
    }
  }

  /** `url` is the URL of one of `r`. */
  predicate UrlOfSome(d: Snapshot, r: seq<ElementId>, url: string)
    requires forall k :: 0 <= k < |r| ==> Valid(d, r[k])
  {
    exists j :: 0 <= j < |r| && ImageUrl(d, r[j]) == url
  }

  /** Every image of `imgs` with a usable URL has a URL in `seen` or the
      URL of one of `r`. */
  predicate Covered(d: Snapshot, imgs: seq<ElementId>, r: seq<ElementId>, seen: set<string>)
    requires forall k :: 0 <= k < |imgs| ==> Valid(d, imgs[k])
    requires forall k :: 0 <= k < |r| ==> Valid(d, r[k])
  {
    forall k :: 0 <= k < |imgs| && UsableUrl(ImageUrl(d, imgs[k])) ==>
      ImageUrl(d, imgs[k]) in seen || UrlOfSome(d, r, ImageUrl(d, imgs[k]))
  }

  /** Nothing usable is passed over before the bound is reached: when
      fewer than `maxImages` records come out, the URL of every image with
      a usable URL was seen before or is the URL of a kept image. */
  lemma {:induction false} SelectedComplete(d: Snapshot, imgs: seq<ElementId>, maxImages: int, seen: set<string>, count: nat)
    requires forall k :: 0 <= k < |imgs| ==> Valid(d, imgs[k])
    requires count + |Selected(d, imgs, maxImages, seen, count)| < maxImages
    ensures Covered(d, imgs, Selected(d, imgs, maxImages, seen, count), seen)
    decreases |imgs|
  {
    var r := Selected(d, imgs, maxImages, seen, count);
    if imgs != [] {
      var src := ImageUrl(d, imgs[0]);
      var rest := imgs[1..];
      AcceptedIff(src, seen);
      if Accepted(src, seen) {
        var seen' := seen + {src};
        var t := Selected(d, rest, maxImages, seen', count + 1);
        assert r == [imgs[0]] + t;
        SelectedComplete(d, rest, maxImages, seen', count + 1);
        CoveredStep(d, imgs, t, seen, src);
      } else {
        assert r == Selected(d, rest, maxImages, seen, count);
        SelectedComplete(d, rest, maxImages, seen, count);
        forall k | 0 < k < |imgs|
          ensures imgs[k] == rest[k - 1]
        {
        }
      }
    }
  }

  /** How many of `imgs` the loop looks at: all of them, or those up to
      and including the image whose record reaches the bound. */
  function Reach(d: Snapshot, imgs: seq<ElementId>, maxImages: int, seen: set<string>, count: nat): (n: nat)
    requires forall k :: 0 <= k < |imgs| ==> Valid(d, imgs[k])
    ensures n <= |imgs|
    decreases |imgs|
  {
    if imgs == [] || count >= maxImages then 0
    else
      var src := ImageUrl(d, imgs[0]);
      if Accepted(src, seen) then 1 + Reach(d, imgs[1..], maxImages, seen + {src}, count + 1)
      else 1 + Reach(d, imgs[1..], maxImages, seen, count)
  }

  /** The loop looks at every image unless the bound is reached, and then
      it stops right after the last image it keeps. */
  lemma {:induction false} ReachEnds(d: Snapshot, imgs: seq<ElementId>, maxImages: int, seen: set<string>, count: nat)
    requires forall k :: 0 <= k < |imgs| ==> Valid(d, imgs[k])
    ensures var r := Selected(d, imgs, maxImages, seen, count); var n := Reach(d, imgs, maxImages, seen, count);
      && (count + |r| < maxImages ==> n == |imgs|)
      && (n < |imgs| && count < maxImages ==> 0 < n && r != [] && imgs[n - 1] == r[|r| - 1])
    decreases |imgs|
  {
    if imgs != [] && count < maxImages {
      var src := ImageUrl(d, imgs[0]);
      var rest := imgs[1..];
      if Accepted(src, seen) {
        ReachEnds(d, rest, maxImages, seen + {src}, count + 1);
      } else {
        ReachEnds(d, rest, maxImages, seen, count);
      }
    }
  }

  /** The kept images all lie, in order, in the part the loop looks at. */
  lemma {:induction false} SelectedInReach(d: Snapshot, imgs: seq<ElementId>, maxImages: int, seen: set<string>, count: nat)
    requires forall k :: 0 <= k < |imgs| ==> Valid(d, imgs[k])
    ensures IsSubsequence(Selected(d, imgs, maxImages, seen, count), imgs[..Reach(d, imgs, maxImages, seen, count)])
    decreases |imgs|
  {
    var r := Selected(d, imgs, maxImages, seen, count);
    var n := Reach(d, imgs, maxImages, seen, count);
    if imgs != [] && count < maxImages {
      var src := ImageUrl(d, imgs[0]);
      var rest := imgs[1..];
      var p := imgs[..n];
      if Accepted(src, seen) {
        var seen' := seen + {src};
        var t := Selected(d, rest, maxImages, seen', count + 1);
        var m := Reach(d, rest, maxImages, seen', count + 1);
        SelectedInReach(d, rest, maxImages, seen', count + 1);
        assert r == [imgs[0]] + t && n == m + 1;
        assert p[0] == imgs[0] && p[1..] == rest[..m];
        assert r[1..] == t;
      } else {
        var m := Reach(d, rest, maxImages, seen, count);
        SelectedInReach(d, rest, maxImages, seen, count);
        assert n == m + 1;
        assert p[1..] == rest[..m];
      }
    }
  }

  /** Every image with a usable URL in the part the loop looks at, that is
      up to the last image kept once the bound is reached, has a URL seen
      before or the URL of a kept image: the loop keeps the earliest usable
      images, not just some of them. */
  lemma {:induction false} ReachCovered(d: Snapshot, imgs: seq<ElementId>, maxImages: int, seen: set<string>, count: nat)
    requires forall k :: 0 <= k < |imgs| ==> Valid(d, imgs[k])
    ensures Covered(d, imgs[..Reach(d, imgs, maxImages, seen, count)], Selected(d, imgs, maxImages, seen, count), seen)
    decreases |imgs|
  {
    var r := Selected(d, imgs, maxImages, seen, count);
    var n := Reach(d, imgs, maxImages, seen, count);
    if imgs != [] && count < maxImages {
      var src := ImageUrl(d, imgs[0]);
      var rest := imgs[1..];
      var p := imgs[..n];
      AcceptedIff(src, seen);
      if Accepted(src, seen) {
        var seen' := seen + {src};
        var t := Selected(d, rest, maxImages, seen', count + 1);
        var m := Reach(d, rest, maxImages, seen', count + 1);
        ReachCovered(d, rest, maxImages, seen', count + 1);
        assert r == [imgs[0]] + t && n == m + 1;
        assert p[0] == imgs[0] && p[1..] == rest[..m];
        CoveredStep(d, p, t, seen, src);
      } else {
        var m := Reach(d, rest, maxImages, seen, count);
        ReachCovered(d, rest, maxImages, seen, count);
        assert r == Selected(d, rest, maxImages, seen, count) && n == m + 1;
        forall k | 0 < k < |p|
          ensures p[k] == rest[..m][k - 1]
        {
        }
      }
    }
  }

  /** `imgs[i]` is the first of `imgs` with its URL. */
  predicate FirstOfUrl(d: Snapshot, imgs: seq<ElementId>, i: nat)
    requires forall k :: 0 <= k < |imgs| ==> Valid(d, imgs[k])
  {
    && i < |imgs|
    && forall k :: 0 <= k < i ==> ImageUrl(d, imgs[k]) != ImageUrl(d, imgs[i])
  }

  /** Each of `r` is the first of `imgs` with its URL. */
  ghost predicate KeptFirst(d: Snapshot, imgs: seq<ElementId>, r: seq<ElementId>)
    requires forall k :: 0 <= k < |imgs| ==> Valid(d, imgs[k])
  {
    forall j :: 0 <= j < |r| ==> exists i: nat :: FirstOfUrl(d, imgs, i) && imgs[i] == r[j]
  }

  /** Each kept image is the first of `imgs` that carries its URL: a later
      duplicate never takes the place of an earlier image. */
  lemma {:induction false} SelectedFirstOfUrl(d: Snapshot, imgs: seq<ElementId>, maxImages: int, seen: set<string>, count: nat)
    requires forall k :: 0 <= k < |imgs| ==> Valid(d, imgs[k])
    ensures KeptFirst(d, imgs, Selected(d, imgs, maxImages, seen, count))
    decreases |imgs|
  {
    if imgs != [] && count < maxImages {
      var src := ImageUrl(d, imgs[0]);
      var rest := imgs[1..];
      AcceptedIff(src, seen);
      if Accepted(src, seen) {
        SelectedFirstOfUrl(d, rest, maxImages, seen + {src}, count + 1);
        SelectedUrls(d, rest, maxImages, seen + {src}, count + 1);
        var t := Selected(d, rest, maxImages, seen + {src}, count + 1);
        KeptFirstStep(d, imgs, t, 1);
        assert Selected(d, imgs, maxImages, seen, count) == imgs[..1] + t;
      } else {
        SelectedFirstOfUrl(d, rest, maxImages, seen, count);
        SelectedUrls(d, rest, maxImages, seen, count);
        var t := Selected(d, rest, maxImages, seen, count);
        KeptFirstStep(d, imgs, t, 0);
        assert Selected(d, imgs, maxImages, seen, count) == imgs[..0] + t;
      }
    }
  }

  /** Images of `imgs[1..]` that are first with their URL there, with a
      URL other than that of `imgs[0]`, are first in `imgs` too, with or
      without `imgs[0]` kept in front of them (`shift` is 1 or 0). */
  lemma KeptFirstStep(d: Snapshot, imgs: seq<ElementId>, t: seq<ElementId>, shift: nat)
    requires imgs != [] && forall k :: 0 <= k < |imgs| ==> Valid(d, imgs[k])
    requires KeptFirst(d, imgs[1..], t)
    requires forall j :: 0 <= j < |t| ==> ImageUrl(d, t[j]) != ImageUrl(d, imgs[0])
    requires shift <= 1
    ensures KeptFirst(d, imgs, imgs[..shift] + t)
  {
    var r := imgs[..shift] + t;
    forall j | 0 <= j < |r|
      ensures exists i: nat :: FirstOfUrl(d, imgs, i) && imgs[i] == r[j]
    {
      if j < shift {
        assert FirstOfUrl(d, imgs, 0) && imgs[0] == r[j];
      } else {
        assert r[j] == t[j - shift];
        var i: nat :| FirstOfUrl(d, imgs[1..], i) && imgs[1..][i] == t[j - shift];
        FirstOfUrlShift(d, imgs, i);
        assert FirstOfUrl(d, imgs, i + 1) && imgs[i + 1] == r[j];
      }
    }
    assert forall j :: 0 <= j < |r| ==> exists i: nat :: FirstOfUrl(d, imgs, i) && imgs[i] == r[j];
    assert KeptFirst(d, imgs, r);
  }

  /** The first image of `imgs[1..]` with a URL other than that of
      `imgs[0]` is also the first of `imgs` with it. */
  lemma FirstOfUrlShift(d: Snapshot, imgs: seq<ElementId>, i: nat)
    requires imgs != [] && forall k :: 0 <= k < |imgs| ==> Valid(d, imgs[k])
    requires FirstOfUrl(d, imgs[1..], i)
    requires ImageUrl(d, imgs[1..][i]) != ImageUrl(d, imgs[0])
    ensures FirstOfUrl(d, imgs, i + 1) && imgs[i + 1] == imgs[1..][i]
  {
    forall k | 0 < k < i + 1
      ensures ImageUrl(d, imgs[k]) != ImageUrl(d, imgs[i + 1])
    {
      assert imgs[k] == imgs[1..][k - 1];
    }
  }

  /** Keeping the first image, whose URL joins `seen`, covers it again. */
  lemma CoveredStep(d: Snapshot, imgs: seq<ElementId>, t: seq<ElementId>, seen: set<string>, src: string)
    requires imgs != [] && forall k :: 0 <= k < |imgs| ==> Valid(d, imgs[k])
    requires forall k :: 0 <= k < |t| ==> Valid(d, t[k])
    requires src == ImageUrl(d, imgs[0])
    requires Covered(d, imgs[1..], t, seen + {src})
    ensures Covered(d, imgs, [imgs[0]] + t, seen)
  {
    var r := [imgs[0]] + t;
    var rest := imgs[1..];
    forall k | 0 <= k < |imgs| && UsableUrl(ImageUrl(d, imgs[k]))
      ensures ImageUrl(d, imgs[k]) in seen || UrlOfSome(d, r, ImageUrl(d, imgs[k]))
    {
      var u := ImageUrl(d, imgs[k]);
      if u == src {
        assert ImageUrl(d, r[0]) == u;
      } else if u !in seen {
        assert imgs[k] == rest[k - 1];
        var j :| 0 <= j < |t| && ImageUrl(d, t[j]) == u;
        assert r[j + 1] == t[j];
      }
    }
  }

  // ---------------------------------------------------------------------
  // Records
  // ---------------------------------------------------------------------

  /** One pushed image record. */
  datatype ImageRecord = ImageRecord(
    imageUrl: string,
    alt: string,
    title: string,
    sourceUrl: string,
    sourceTitle: string,
    nearbyText: string,
    searchQuery: string,
    crawledAt: string)

  /** `el?.textContent?.trim() || ''` for an element that may be missing. */
  function TextOf(d: Snapshot, e: Option<ElementId>): string
    requires e.Some? ==> Valid(d, e.value)
  {
    match e
    case None => ""
    case Some(x) => TrimmedText(d, x)
  }

  /** `nearbyText || parentText || grandParentText`: the container's text,
      else the parent's, else the grandparent's. */
  function NearbyText(d: Snapshot, img: ElementId): string
    requires Valid(d, img)
  {
    var parent := Parent(d, img);
    var grand := if parent.Some? then Parent(d, parent.value) else None;
    FirstNonEmpty([TextOf(d, Container(d, img)), TextOf(d, parent), TextOf(d, grand)])
  }

  /** A record's nearby text is the container's text when it is non-empty,
      else the parent's when that is, else the grandparent's. */
  lemma RecordNearby(d: Snapshot, img: ElementId, index: nat, q: Option<string>, clock: nat -> string)
    requires Valid(d, img)
    ensures var parent := Parent(d, img);
      var grand := if parent.Some? then Parent(d, parent.value) else None;
      var r := RecordFor(d, img, index, q, clock).nearbyText;
      && (TextOf(d, Container(d, img)) != "" ==> r == TextOf(d, Container(d, img)))
      && (TextOf(d, Container(d, img)) == "" && TextOf(d, parent) != "" ==> r == TextOf(d, parent))
      && (TextOf(d, Container(d, img)) == "" && TextOf(d, parent) == "" ==> r == TextOf(d, grand))
  {
    var parent := Parent(d, img);
    var grand := if parent.Some? then Parent(d, parent.value) else None;
    assert RecordFor(d, img, index, q, clock).nearbyText == NearbyText(d, img);
    FirstNonEmptyOf3(TextOf(d, Container(d, img)), TextOf(d, parent), TextOf(d, grand));
  }

  /** `searchParams.get('q') || ''` for the page URL's query value. */
  function SearchQuery(q: Option<string>): string {
    q.GetOr("")
  }

  /** The record built for `img` as the `index`-th record, with the page's
      query value `q` and the wall clock read as `clock(index)`. */
  function RecordFor(d: Snapshot, img: ElementId, index: nat, q: Option<string>, clock: nat -> string): ImageRecord
    requires Valid(d, img)
  {
    var link := SourceLink(d, img, Container(d, img));
    var alt := Alt(d, img);
    ImageRecord(
      imageUrl := ImageUrl(d, img),
      alt := alt,
      title := alt,
      sourceUrl := if link.Some? then link.value.url else "",
      sourceTitle := if link.Some? then link.value.title else "",
      nearbyText := NearbyText(d, img),
      searchQuery := SearchQuery(q),
      crawledAt := clock(index))
  }

  /** A record's source is absolute or both source fields are empty. */
  lemma RecordSource(d: Snapshot, img: ElementId, index: nat, q: Option<string>, clock: nat -> string)
    requires Valid(d, img)
    ensures RecordFor(d, img, index, q, clock).sourceUrl == "" ==> RecordFor(d, img, index, q, clock).sourceTitle == ""
    ensures RecordFor(d, img, index, q, clock).sourceUrl == "" || IsHttp(RecordFor(d, img, index, q, clock).sourceUrl)
  {
    var link := SourceLink(d, img, Container(d, img));
    if link.Some? {
      assert link.value.url != "" by {
        assert StartsWith(link.value.url, "http");
      }
    }
  }

  /** A record's title repeats its alt, which is the image's own label or
      else a normalised container label of at most 103 characters. */
  lemma RecordAlt(d: Snapshot, img: ElementId, index: nat, q: Option<string>, clock: nat -> string)
    requires Valid(d, img)
    ensures RecordFor(d, img, index, q, clock).title == RecordFor(d, img, index, q, clock).alt
    ensures OwnLabel(d, img) != "" ==> RecordFor(d, img, index, q, clock).alt == OwnLabel(d, img)
    ensures OwnLabel(d, img) == "" ==>
      && Normalize(RecordFor(d, img, index, q, clock).alt) == RecordFor(d, img, index, q, clock).alt
      && |RecordFor(d, img, index, q, clock).alt| <= 103
  {
    AltShape(d, img);
    assert RecordFor(d, img, index, q, clock).alt == Alt(d, img);
  }

  /** Without an own label, a record's alt is empty when the image has no
      container or the container gives no non-empty candidate, and is
      otherwise the normalised earliest shortest non-empty candidate. */
  lemma RecordAltFallback(d: Snapshot, img: ElementId, index: nat, q: Option<string>, clock: nat -> string)
    requires Valid(d, img)
    requires OwnLabel(d, img) == ""
    ensures Container(d, img).None? ==> RecordFor(d, img, index, q, clock).alt == ""
    ensures Container(d, img).Some? ==>
      var cs := NonEmptyOnly(RawCandidates(d, Container(d, img).value));
      && (cs == [] ==> RecordFor(d, img, index, q, clock).alt == "")
      && (cs != [] ==> exists k: nat :: EarliestShortest(cs, k, |cs|) && RecordFor(d, img, index, q, clock).alt == Normalize(cs[k]))
  {
    assert RecordFor(d, img, index, q, clock).alt == Alt(d, img);
    AltFallback(d, img);
  }

  /** A record's query is the page's `q` parameter when it has one and
      empty otherwise; so it is empty exactly when the page has no
      non-empty `q` parameter. */
  lemma RecordQuery(d: Snapshot, img: ElementId, index: nat, q: Option<string>, clock: nat -> string)
    requires Valid(d, img)
    ensures q.Some? ==> RecordFor(d, img, index, q, clock).searchQuery == q.value
    ensures q.None? ==> RecordFor(d, img, index, q, clock).searchQuery == ""
    ensures RecordFor(d, img, index, q, clock).searchQuery == "" <==> q.None? || q.value == ""
  {
  }

  /** The images the whole loop over the unique images `unique` keeps. */
  function Picks(d: Snapshot, unique: seq<ElementId>, maxImages: int): (r: seq<ElementId>)
    requires forall k :: 0 <= k < |unique| ==> Valid(d, unique[k])
    ensures forall k :: 0 <= k < |r| ==> Valid(d, r[k])
  {
    Selected(d, unique, maxImages, {}, 0)
  }

  /** `records` are the records built for `picks`, one each, numbered in
      their order: what `push`ing them one after the other yields. */
  predicate BuiltFor(d: Snapshot, records: seq<ImageRecord>, picks: seq<ElementId>, q: Option<string>, clock: nat -> string)
    requires forall k :: 0 <= k < |picks| ==> Valid(d, picks[k])
  {
    && |records| == |picks|
    && forall k :: 0 <= k < |records| ==> records[k] == RecordFor(d, picks[k], k, q, clock)
  }

  /** At most `maxImages` images are kept and at most all the unique ones,
      in their order. */
  lemma PicksBound(d: Snapshot, unique: seq<ElementId>, maxImages: int)
    requires forall k :: 0 <= k < |unique| ==> Valid(d, unique[k])
    ensures |Picks(d, unique, maxImages)| <= |unique|
    ensures maxImages <= 0 ==> Picks(d, unique, maxImages) == []
    ensures |Picks(d, unique, maxImages)| <= (if maxImages < 0 then 0 else maxImages)
    ensures IsSubsequence(Picks(d, unique, maxImages), unique)
  {
    SelectedBound(d, unique, maxImages, {}, 0);
    SelectedInOrder(d, unique, maxImages, {}, 0);
  }

  /** Every record built for the kept images has a usable URL, and no two
      of them share one. */
  lemma RecordsUrls(d: Snapshot, unique: seq<ElementId>, maxImages: int, q: Option<string>, clock: nat -> string,
                    records: seq<ImageRecord>)
    requires forall k :: 0 <= k < |unique| ==> Valid(d, unique[k])
    requires BuiltFor(d, records, Picks(d, unique, maxImages), q, clock)
    ensures forall i :: 0 <= i < |records| ==> UsableUrl(records[i].imageUrl)
    ensures forall i, j :: 0 <= i < j < |records| ==> records[i].imageUrl != records[j].imageUrl
  {
    SelectedUrls(d, unique, maxImages, {}, 0);
  }

  /** Every record carries the page's query value and the clock reading
      for its own position. */
  lemma RecordsStamped(d: Snapshot, records: seq<ImageRecord>, picks: seq<ElementId>, q: Option<string>, clock: nat -> string)
    requires forall k :: 0 <= k < |picks| ==> Valid(d, picks[k])
    requires BuiltFor(d, records, picks, q, clock)
    ensures forall i :: 0 <= i < |records| ==> records[i].searchQuery == SearchQuery(q) && records[i].crawledAt == clock(i)
  {
    forall i | 0 <= i < |records|
      ensures records[i].searchQuery == SearchQuery(q) && records[i].crawledAt == clock(i)
    {
      assert records[i] == RecordFor(d, picks[i], i, q, clock);
    }
  }

  /** Nothing usable is passed over: when fewer than `maxImages` records
      come out, every unique image with a usable URL shares its URL with a
      record. */
  lemma RecordsComplete(d: Snapshot, unique: seq<ElementId>, maxImages: int, q: Option<string>, clock: nat -> string,
                        records: seq<ImageRecord>)
    requires forall k :: 0 <= k < |unique| ==> Valid(d, unique[k])
    requires BuiltFor(d, records, Picks(d, unique, maxImages), q, clock)
    requires |records| < maxImages
    ensures forall k :: 0 <= k < |unique| && UsableUrl(ImageUrl(d, unique[k])) ==>
      exists i :: 0 <= i < |records| && records[i].imageUrl == ImageUrl(d, unique[k])
  {
    var picks := Picks(d, unique, maxImages);
    SelectedComplete(d, unique, maxImages, {}, 0);
    forall k | 0 <= k < |unique| && UsableUrl(ImageUrl(d, unique[k]))
      ensures exists i :: 0 <= i < |records| && records[i].imageUrl == ImageUrl(d, unique[k])
    {
      var j :| 0 <= j < |picks| && ImageUrl(d, picks[j]) == ImageUrl(d, unique[k]);
      assert records[j].imageUrl == ImageUrl(d, unique[k]);
    }
  }

  /** Each record carries the URL of the image it was built for. */
  predicate UrlsOf(d: Snapshot, records: seq<ImageRecord>, picks: seq<ElementId>)
    requires forall k :: 0 <= k < |picks| ==> Valid(d, picks[k])
  {
    && |records| == |picks|
    && forall i :: 0 <= i < |records| ==> records[i].imageUrl == ImageUrl(d, picks[i])
  }

  lemma BuiltForUrls(d: Snapshot, records: seq<ImageRecord>, picks: seq<ElementId>, q: Option<string>, clock: nat -> string)
    requires forall k :: 0 <= k < |picks| ==> Valid(d, picks[k])
    requires BuiltFor(d, records, picks, q, clock)
    ensures UrlsOf(d, records, picks)
  {
    forall i | 0 <= i < |records| ensures records[i].imageUrl == ImageUrl(d, picks[i]) {
      assert records[i] == RecordFor(d, picks[i], i, q, clock);
    }
  }

  /** The earliest usable images are the ones recorded: every unique image
      with a usable URL that the loop looks at shares its URL with a
      record. */
  lemma RecordsEarliest(d: Snapshot, unique: seq<ElementId>, maxImages: int, records: seq<ImageRecord>)
    requires forall k :: 0 <= k < |unique| ==> Valid(d, unique[k])
    requires UrlsOf(d, records, Picks(d, unique, maxImages))
    ensures forall k :: 0 <= k < Reach(d, unique, maxImages, {}, 0) && UsableUrl(ImageUrl(d, unique[k])) ==>
      exists i :: 0 <= i < |records| && records[i].imageUrl == ImageUrl(d, unique[k])
  {
    var picks := Picks(d, unique, maxImages);
    var n := Reach(d, unique, maxImages, {}, 0);
    ReachCovered(d, unique, maxImages, {}, 0);
    forall k | 0 <= k < n && UsableUrl(ImageUrl(d, unique[k]))
      ensures exists i :: 0 <= i < |records| && records[i].imageUrl == ImageUrl(d, unique[k])
    {
      assert unique[..n][k] == unique[k];
      var j :| 0 <= j < |picks| && ImageUrl(d, picks[j]) == ImageUrl(d, unique[k]);
      assert records[j].imageUrl == ImageUrl(d, unique[k]);
    }
  }

  /** Once the bound stops the loop, the last record is that of the last
      image it looked at. */
  lemma RecordsLast(d: Snapshot, unique: seq<ElementId>, maxImages: int, records: seq<ImageRecord>)
    requires forall k :: 0 <= k < |unique| ==> Valid(d, unique[k])
    requires UrlsOf(d, records, Picks(d, unique, maxImages))
    ensures Reach(d, unique, maxImages, {}, 0) < |unique| && 0 < maxImages ==>
      && 0 < Reach(d, unique, maxImages, {}, 0) && records != []
      && records[|records| - 1].imageUrl == ImageUrl(d, unique[Reach(d, unique, maxImages, {}, 0) - 1])
  {
    ReachEnds(d, unique, maxImages, {}, 0);
  }

  /** Every record is built for the first unique image carrying its URL,
      never for a later duplicate, whose label, source and nearby text may
      differ. */
  lemma RecordsFirstOfUrl(d: Snapshot, unique: seq<ElementId>, maxImages: int, q: Option<string>, clock: nat -> string, records: seq<ImageRecord>)
    requires forall k :: 0 <= k < |unique| ==> Valid(d, unique[k])
    requires BuiltFor(d, records, Picks(d, unique, maxImages), q, clock)
    ensures forall i :: 0 <= i < |records| ==>
      exists k :: 0 <= k < |unique| && FirstOfUrl(d, unique, k) && records[i] == RecordFor(d, unique[k], i, q, clock)
  {
    var picks := Picks(d, unique, maxImages);
    SelectedFirstOfUrl(d, unique, maxImages, {}, 0);
    assert KeptFirst(d, unique, picks);
    forall i | 0 <= i < |records|
      ensures exists k :: 0 <= k < |unique| && FirstOfUrl(d, unique, k) && records[i] == RecordFor(d, unique[k], i, q, clock)
    {
      assert records[i] == RecordFor(d, picks[i], i, q, clock);
      var k: nat :| FirstOfUrl(d, unique, k) && unique[k] == picks[i];
      assert 0 <= k < |unique| && FirstOfUrl(d, unique, k) && records[i] == RecordFor(d, unique[k], i, q, clock);
    }
    assert forall i :: 0 <= i < |records| ==>
      exists k :: 0 <= k < |unique| && FirstOfUrl(d, unique, k) && records[i] == RecordFor(d, unique[k], i, q, clock);
  }

  /** What the loop has decided after some turns: the images kept so far,
      in order, and the `processedUrls` set. */
  datatype Progress = Progress(picked: seq<ElementId>, processed: set<string>)

  /** One turn of the loop on `img`: nothing once `maxImages` records are
      built (the loop breaks), otherwise `img` is kept when its URL passes
      the acceptance test. */
  function Visit(d: Snapshot, p: Progress, img: ElementId, maxImages: int): Progress
    requires Valid(d, img)
  {
    var src := ImageUrl(d, img);
    if |p.picked| >= maxImages then p
    else if Accepted(src, p.processed) then Progress(p.picked + [img], p.processed + {src})
    else p
  }

  /** The loop's state after its first `n` turns over `unique`. */
  function RunUpTo(d: Snapshot, unique: seq<ElementId>, n: nat, maxImages: int): (p: Progress)
    requires n <= |unique|
    requires forall k :: 0 <= k < |unique| ==> Valid(d, unique[k])
    ensures forall k :: 0 <= k < |p.picked| ==> Valid(d, p.picked[k])
  {
    if n == 0 then Progress([], {})
    else Visit(d, RunUpTo(d, unique, n - 1, maxImages), unique[n - 1], maxImages)
  }

  /** After any number of turns, the images kept so far followed by those
      the rest of the loop keeps are the images the whole loop keeps. */
  lemma {:induction false} RunUpToSelected(d: Snapshot, unique: seq<ElementId>, n: nat, maxImages: int)
    requires n <= |unique|
    requires forall k :: 0 <= k < |unique| ==> Valid(d, unique[k])
    ensures RunUpTo(d, unique, n, maxImages).picked
      + Selected(d, unique[n..], maxImages, RunUpTo(d, unique, n, maxImages).processed, |RunUpTo(d, unique, n, maxImages).picked|)
      == Picks(d, unique, maxImages)
  {
    if n == 0 {
      assert unique[0..] == unique;
    } else {
      RunUpToSelected(d, unique, n - 1, maxImages);
      var p := RunUpTo(d, unique, n - 1, maxImages);
      VisitSelected(d, unique[n - 1..], p, maxImages);
      assert unique[n - 1..][0] == unique[n - 1] && unique[n - 1..][1..] == unique[n..];
    }
  }

  /** Taking one turn on the first of `imgs` moves it from the images the
      rest of the loop keeps to the images kept so far. */
  lemma VisitSelected(d: Snapshot, imgs: seq<ElementId>, p: Progress, maxImages: int)
    requires imgs != [] && forall k :: 0 <= k < |imgs| ==> Valid(d, imgs[k])
    ensures Visit(d, p, imgs[0], maxImages).picked
      + Selected(d, imgs[1..], maxImages, Visit(d, p, imgs[0], maxImages).processed, |Visit(d, p, imgs[0], maxImages).picked|)
      == p.picked + Selected(d, imgs, maxImages, p.processed, |p.picked|)
  {
    var src := ImageUrl(d, imgs[0]);
    if |p.picked| < maxImages && Accepted(src, p.processed) {
      var after := Selected(d, imgs[1..], maxImages, p.processed + {src}, |p.picked| + 1);
      assert (p.picked + [imgs[0]]) + after == p.picked + ([imgs[0]] + after);
    }
  }

  /** The body of the loop for an accepted image (src/main.js:305-409). */
  method BuildRecord(d: Snapshot, img: ElementId, index: nat, q: Option<string>, clock: nat -> string)
    returns (rec: ImageRecord)
    requires Valid(d, img)
    ensures rec == RecordFor(d, img, index, q, clock)
  {
    var alt := Alt(d, img);
    var container := Container(d, img);
    var found := ResolveSource(d, img, container);
    var sourceUrl, sourceTitle := "", "";
    if found.Some? {
      sourceUrl, sourceTitle := found.value.url, found.value.title;
    }
    rec := ImageRecord(ImageUrl(d, img), alt, alt, sourceUrl, sourceTitle,
                       NearbyText(d, img), SearchQuery(q), clock(index));
  }

  /** Pushing the record of `img` as the next one keeps the records one
      per pick. */
  lemma BuiltForPush(d: Snapshot, records: seq<ImageRecord>, picked: seq<ElementId>, img: ElementId,
                     q: Option<string>, clock: nat -> string)
    requires Valid(d, img) && forall k :: 0 <= k < |picked| ==> Valid(d, picked[k])
    requires BuiltFor(d, records, picked, q, clock)
    ensures BuiltFor(d, records + [RecordFor(d, img, |records|, q, clock)], picked + [img], q, clock)
  {
    var r := records + [RecordFor(d, img, |records|, q, clock)];
    var p := picked + [img];
    forall k | 0 <= k < |r| ensures r[k] == RecordFor(d, p[k], k, q, clock) {
      if k < |records| {
        assert r[k] == records[k] && p[k] == picked[k];
      }
    }
  }

  /** One turn of the loop below the bound (src/main.js:254-409): the
      image is kept, and its record built as the next one, exactly when its
      URL passes the acceptance test. */
  method VisitImage(d: Snapshot, img: ElementId, maxImages: int, q: Option<string>, clock: nat -> string,
                    records: seq<ImageRecord>, processed: set<string>, ghost picked: seq<ElementId>)
    returns (records': seq<ImageRecord>, processed': set<string>, ghost picked': seq<ElementId>)
    requires Valid(d, img) && forall k :: 0 <= k < |picked| ==> Valid(d, picked[k])
    requires BuiltFor(d, records, picked, q, clock) && |records| < maxImages
    ensures Accepted(ImageUrl(d, img), processed) ==>
      && |records'| == |records| + 1 && records'[..|records|] == records
      && processed' == processed + {ImageUrl(d, img)}
    ensures !Accepted(ImageUrl(d, img), processed) ==> records' == records && processed' == processed
    ensures Progress(picked', processed') == Visit(d, Progress(picked, processed), img, maxImages)
    ensures forall k :: 0 <= k < |picked'| ==> Valid(d, picked'[k])
    ensures BuiltFor(d, records', picked', q, clock)
  {
    var src := ImageUrl(d, img);
    records', processed', picked' := records, processed, picked;
    if Accepted(src, processed) {
      var rec := BuildRecord(d, img, |records|, q, clock);
      BuiltForPush(d, records, picked, img, q, clock);
      records' := records + [rec];
      processed' := processed + {src};
      picked' := picked + [img];
    }
  }

  /** The `for (const img of uniqueImages)` loop (src/main.js:253-410). */
  method KeepImages(d: Snapshot, unique: seq<ElementId>, maxImages: int, q: Option<string>, clock: nat -> string)
    returns (records: seq<ImageRecord>)
    requires forall k :: 0 <= k < |unique| ==> Valid(d, unique[k])
    ensures BuiltFor(d, records, Picks(d, unique, maxImages), q, clock)
  {
    var processed: set<string> := {};
    records := [];
    ghost var picked: seq<ElementId> := [];
    var i := 0;
    while i < |unique|
      invariant i <= |unique|
      invariant Progress(picked, processed) == RunUpTo(d, unique, i, maxImages)
      invariant BuiltFor(d, records, picked, q, clock)
    {
      if |records| >= maxImages {
        break;
      }
      records, processed, picked := VisitImage(d, unique[i], maxImages, q, clock, records, processed, picked);
      i := i + 1;
    }
    RunUpToSelected(d, unique, i, maxImages);
    assert Selected(d, unique[i..], maxImages, processed, |picked|) == [];
    assert picked == Picks(d, unique, maxImages);
  }

  /** The whole `page.evaluate` callback: one record for each image kept
      from the unique candidates, at most `maxImages` of them, with usable
      and distinct URLs; below the bound, every candidate with a usable URL
      is represented. */
  method Extract(d: Snapshot, maxImages: int, q: Option<string>, clock: nat -> string)
    returns (records: seq<ImageRecord>)
    ensures BuiltFor(d, records, Picks(d, Candidates(d), maxImages), q, clock)
    ensures |records| <= (if maxImages < 0 then 0 else maxImages)
    ensures forall i :: 0 <= i < |records| ==> UsableUrl(records[i].imageUrl)
    ensures forall i, j :: 0 <= i < j < |records| ==> records[i].imageUrl != records[j].imageUrl
    ensures |records| < maxImages ==>
      forall k :: 0 <= k < |Candidates(d)| && UsableUrl(ImageUrl(d, Candidates(d)[k])) ==>
        exists i :: 0 <= i < |records| && records[i].imageUrl == ImageUrl(d, Candidates(d)[k])
    ensures forall k :: 0 <= k < Reach(d, Candidates(d), maxImages, {}, 0) && UsableUrl(ImageUrl(d, Candidates(d)[k])) ==>
      exists i :: 0 <= i < |records| && records[i].imageUrl == ImageUrl(d, Candidates(d)[k])
    ensures KeptFirst(d, Candidates(d), Picks(d, Candidates(d), maxImages))
    ensures forall i :: 0 <= i < |records| ==> records[i].searchQuery == SearchQuery(q) && records[i].crawledAt == clock(i)
  {
    var all := CollectCandidates(d);
    var unique := Dedup(all);
    assert unique == Candidates(d);
    records := KeepImages(d, unique, maxImages, q, clock);
    PicksBound(d, unique, maxImages);
    RecordsUrls(d, unique, maxImages, q, clock, records);
    if |records| < maxImages {
      RecordsComplete(d, unique, maxImages, q, clock, records);
    }
    BuiltForUrls(d, records, Picks(d, unique, maxImages), q, clock);
    RecordsEarliest(d, unique, maxImages, records);
    SelectedFirstOfUrl(d, unique, maxImages, {}, 0);
    RecordsStamped(d, records, Picks(d, unique, maxImages), q, clock);
  }
}
