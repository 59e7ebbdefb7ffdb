/** The `alt` of an image record (src/main.js:259-290): the image's own
    label attributes, or else a label found in its result container, picked
    by the "shortest candidate longer than 3" reduction and then cleaned and
    cut to 100 characters. */
module Label {
  import opened Wrappers
  import opened Text
  import opened Dom

  /** `'[data-ved], .rg_l, .islrc, .rg_i, .islir'`, the result-container
      selector list given to `closest`. */
  const ContainerSelectors: seq<Selector> := [
    Simple(HasAttr("data-ved")),
    Simple(HasClass("rg_l")),
    Simple(HasClass("islrc")),
    Simple(HasClass("rg_i")),
    Simple(HasClass("islir"))
  ]

  /** The container the image belongs to, if any. */
  function Container(d: Snapshot, img: ElementId): Option<ElementId>
    requires Valid(d, img)
  {
    Closest(d, img, ContainerSelectors)
  }

  /** `img.alt || aria-label || data-alt || data-title || ''` */
  function OwnLabel(d: Snapshot, img: ElementId): string
    requires Valid(d, img)
  {
    FirstNonEmpty([Attr(d, img, "alt"), Attr(d, img, "aria-label"),
                   Attr(d, img, "data-alt"), Attr(d, img, "data-title")])
  }

  /** The image's own label is the first non-empty one of its `alt`,
      `aria-label`, `data-alt` and `data-title` attributes, in that order. */
  lemma OwnLabelChoice(d: Snapshot, img: ElementId)
    requires Valid(d, img)
    ensures Attr(d, img, "alt") != "" ==> OwnLabel(d, img) == Attr(d, img, "alt")
    ensures Attr(d, img, "alt") == "" && Attr(d, img, "aria-label") != "" ==> OwnLabel(d, img) == Attr(d, img, "aria-label")
    ensures Attr(d, img, "alt") == "" && Attr(d, img, "aria-label") == "" && Attr(d, img, "data-alt") != "" ==>
      OwnLabel(d, img) == Attr(d, img, "data-alt")
    ensures Attr(d, img, "alt") == "" && Attr(d, img, "aria-label") == "" && Attr(d, img, "data-alt") == "" ==>
      OwnLabel(d, img) == Attr(d, img, "data-title")
  {
    var xs := [Attr(d, img, "alt"), Attr(d, img, "aria-label"), Attr(d, img, "data-alt"), Attr(d, img, "data-title")];
    if xs[0] != "" {
      FirstNonEmptyAt(xs, 0);
    } else if xs[1] != "" {
      FirstNonEmptyAt(xs, 1);
    } else if xs[2] != "" {
      FirstNonEmptyAt(xs, 2);
    } else {
      FirstNonEmptyAt(xs, 3);
    }
  }

  /** `scope.querySelector('[name]')?.getAttribute(name)`, with a missing
      element read as `""`. */
  function FirstAttr(d: Snapshot, scope: ElementId, name: string): string {
    match QuerySelector(d, scope, Simple(HasAttr(name)))
    case None => ""
    case Some(e) => Attr(d, e, name)
  }

  /** `FirstAttr` is the value of `name` on the first descendant of
      `scope` that has the attribute; with no such descendant it is empty. */
  lemma FirstAttrFinds(d: Snapshot, scope: ElementId, name: string)
    ensures (forall e: nat :: !InScope(d, scope, Simple(HasAttr(name)), e)) ==> FirstAttr(d, scope, name) == ""
    ensures forall e: nat :: FirstMatch(d, scope, Simple(HasAttr(name)), e) ==> FirstAttr(d, scope, name) == Attr(d, e, name)
    ensures FirstAttr(d, scope, name) != "" ==>
      exists e: nat :: FirstMatch(d, scope, Simple(HasAttr(name)), e) && FirstAttr(d, scope, name) == Attr(d, e, name)
  {
    QuerySelectorFinds(d, scope, Simple(HasAttr(name)));
    QuerySelectorFirstMatch(d, scope, Simple(HasAttr(name)));
  }

  /** `scope.querySelector(tag)?.textContent?.trim()`, with a missing
      element read as `""`. */
  function FirstText(d: Snapshot, scope: ElementId, tag: string): string {
    match QuerySelector(d, scope, Simple(Tag(tag)))
    case None => ""
    case Some(e) => TrimmedText(d, e)
  }

  /** `FirstText` is the trimmed text of the first descendant of `scope`
      with tag `tag`; with no such descendant it is empty. */
  lemma FirstTextFinds(d: Snapshot, scope: ElementId, tag: string)
    ensures (forall e: nat :: !InScope(d, scope, Simple(Tag(tag)), e)) ==> FirstText(d, scope, tag) == ""
    ensures forall e: nat :: FirstMatch(d, scope, Simple(Tag(tag)), e) ==> FirstText(d, scope, tag) == TrimmedText(d, e)
    ensures FirstText(d, scope, tag) != "" ==>
      exists e: nat :: FirstMatch(d, scope, Simple(Tag(tag)), e) && FirstText(d, scope, tag) == TrimmedText(d, e)
  {
    QuerySelectorFinds(d, scope, Simple(Tag(tag)));
    QuerySelectorFirstMatch(d, scope, Simple(Tag(tag)));
  }

  /** The five label candidates of a container, in the order they are
      listed, before empty ones are dropped. */
  function RawCandidates(d: Snapshot, c: ElementId): seq<string>
    requires Valid(d, c)
  {
    [FirstAttr(d, c, "aria-label"), FirstAttr(d, c, "title"),
     FirstText(d, c, "span"), FirstText(d, c, "div"), TrimmedText(d, c)]
  }

  /** `.filter(text => text && text.length > 0)`: the non-empty strings of
      `xs`, in their order. */
  function NonEmptyOnly(xs: seq<string>): (r: seq<string>)
    ensures forall k :: 0 <= k < |r| ==> r[k] != ""
    ensures forall x :: x in r <==> x in xs && x != ""
    ensures |r| <= |xs|
  {
    if xs == [] then []
    else if xs[0] == "" then NonEmptyOnly(xs[1..])
    else [xs[0]] + NonEmptyOnly(xs[1..])
  }

  /** The filter distributes over concatenation, so it keeps order and
      multiplicity: together with `NonEmptyOnlyOne` it says the result is
      `xs` with exactly its empty strings left out. */
  lemma {:induction false} NonEmptyOnlyAppend(a: seq<string>, b: seq<string>)
    ensures NonEmptyOnly(a + b) == NonEmptyOnly(a) + NonEmptyOnly(b)
  {
    if a == [] {
      assert a + b == b;
    } else {
      assert (a + b)[0] == a[0] && (a + b)[1..] == a[1..] + b;
      NonEmptyOnlyAppend(a[1..], b);
    }
  }

  /** A single string is kept exactly when it is non-empty. */
  lemma NonEmptyOnlyOne(x: string)
    ensures x != "" ==> NonEmptyOnly([x]) == [x]
    ensures x == "" ==> NonEmptyOnly([x]) == []
  {
    assert [x][1..] == [];
  }

  /** The candidates the reduction may settle on: the first one, and every
      later one longer than 3 characters. */
  predicate Eligible(c: seq<string>, j: nat) {
    j < |c| && (j == 0 || |c[j]| > 3)
  }

  /** `best` is the earliest of the shortest eligible candidates among the
      first `upto`. */
  predicate EarliestShortest(c: seq<string>, best: nat, upto: nat) {
    && best < upto <= |c|
    && Eligible(c, best)
    && (forall j :: 0 <= j < upto && Eligible(c, j) ==> |c[best]| <= |c[j]|)
    && (forall j :: 0 <= j < best && Eligible(c, j) ==> |c[best]| < |c[j]|)
  }

  /** One step after another of `reduce((shortest, current) => ...)`: the
      accumulator moves to `current` only when it is strictly shorter and
      longer than 3. */
  function ReduceFrom(c: seq<string>, best: nat, i: nat): (k: nat)
    requires EarliestShortest(c, best, i)
    ensures EarliestShortest(c, k, |c|)
    decreases |c| - i
  {
    if i == |c| then best
    else
      var next := if |c[i]| < |c[best]| && |c[i]| > 3 then i else best;
      ReduceFrom(c, next, i + 1)
  }

  /** The index the reduction ends on, starting from the first candidate
      (`reduce` without an initial value). It is the earliest of the
      shortest eligible candidates, so it is the first candidate or one
      strictly shorter than the first and longer than 3. */
  function ShortestIndex(c: seq<string>): (k: nat)
    requires |c| > 0
    ensures EarliestShortest(c, k, |c|)
    ensures k == 0 || (3 < |c[k]| < |c[0]|)
  {
    ReduceFrom(c, 0, 1)
  }

  /** `alt.replace(/\s+/g, ' ').trim()`, then cut to 100 characters plus
      `...` when longer than 100. */
  function Normalize(s: string): string {
    var t := Clean(s);
    if |t| > 100 then t[..100] + "..." else t
  }

  /** A normalised label is at most 103 characters; up to its cut it has no
      white-space runs and no white space at its ends; when the cleaned
      text was longer than 100 it is its first 100 characters and `...`. */
  lemma NormalizeShape(s: string)
    ensures var r := Normalize(s);
      && |r| <= 103
      && (|Clean(s)| <= 100 ==> r == Clean(s))
      && (|Clean(s)| > 100 ==> |r| == 103 && r == Clean(s)[..100] + "...")
      && Collapsed(Clean(s))
      && (Clean(s) == [] || (!IsWhitespace(Clean(s)[0]) && !IsWhitespace(Clean(s)[|Clean(s)| - 1])))
  {
    CleanCollapsed(s);
  }

  /** Normalising a normalised label changes nothing, also when it was cut. */
  lemma NormalizeIdempotent(s: string)
    ensures Normalize(Normalize(s)) == Normalize(s)
  {
    var t := Clean(s);
    CleanCollapsed(s);
    if |t| > 100 {
      CutIsClean(t);
      assert (t[..100] + "...")[..100] == t[..100];
    } else {
      CleanIdempotent(s);
    }
  }

  /** A cleaned text cut to 100 characters plus `...` is left as it is by
      cleaning. */
  lemma CutIsClean(t: string)
    requires Collapsed(t) && |t| > 100 && !IsWhitespace(t[0])
    ensures Clean(t[..100] + "...") == t[..100] + "..."
  {
    var u := t[..100];
    var x := u + "...";
    CollapsedSlice(t, 0, 100);
    assert Collapsed(x) by {
      forall i | 0 <= i < |x| && IsWhitespace(x[i]) ensures x[i] == ' ' {
        assert i < 100 && x[i] == u[i];
      }
      forall i | 1 <= i < |x| && IsWhitespace(x[i]) ensures !IsWhitespace(x[i - 1]) {
        assert i < 100 && x[i] == u[i] && x[i - 1] == u[i - 1];
      }
    }
    CollapseFixpoint(x);
    assert x[0] == t[0] && x[|x| - 1] == '.';
    TrimFixpoint(x);
  }

  /** The label chosen from a container's candidates: their non-empty
      ones reduced to the earliest shortest eligible one and normalised, or
      `""` when all are empty. */
  function ChooseLabel(raw: seq<string>): string {
    var cs := NonEmptyOnly(raw);
    if cs == [] then "" else Normalize(cs[ShortestIndex(cs)])
  }

  /** The chosen label is `""` when no candidate is non-empty, and
      otherwise the normalised earliest shortest eligible candidate. */
  lemma ChooseLabelPicks(raw: seq<string>)
    ensures NonEmptyOnly(raw) == [] ==> ChooseLabel(raw) == ""
    ensures NonEmptyOnly(raw) != [] ==>
      exists k: nat :: EarliestShortest(NonEmptyOnly(raw), k, |NonEmptyOnly(raw)|) && ChooseLabel(raw) == Normalize(NonEmptyOnly(raw)[k])
  {
    var cs := NonEmptyOnly(raw);
    if cs != [] {
      var k := ShortestIndex(cs);
      assert ChooseLabel(raw) == Normalize(cs[k]);
    }
  }

  /** The chosen label is normalised, so normalising it again changes
      nothing, and it is at most 103 characters. */
  lemma ChooseLabelNormal(raw: seq<string>)
    ensures Normalize(ChooseLabel(raw)) == ChooseLabel(raw)
    ensures |ChooseLabel(raw)| <= 103
  {
    var cs := NonEmptyOnly(raw);
    if cs == [] {
      NormalizeIdempotent("");
      assert ChooseLabel(raw) == Normalize("") by {
        NormalizeShape("");
      }
    } else {
      var k := ShortestIndex(cs);
      assert ChooseLabel(raw) == Normalize(cs[k]);
      NormalizeIdempotent(cs[k]);
      NormalizeShape(cs[k]);
    }
  }

  /** The label a container yields. */
  function ContainerLabel(d: Snapshot, c: ElementId): string
    requires Valid(d, c)
  {
    ChooseLabel(RawCandidates(d, c))
  }

  /** The record's `alt`: the image's own label when it has one, otherwise
      the label of its container, `""` when neither gives one. */
  function Alt(d: Snapshot, img: ElementId): string
    requires Valid(d, img)
  {
    var own := OwnLabel(d, img);
    if own != "" then own
    else match Container(d, img)
      case None => ""
      case Some(c) => ContainerLabel(d, c)
  }

  /** An own label wins as it is; otherwise the alt comes from the
      container and is normalised, so normalising it again changes nothing
      and it is at most 103 characters. */
  lemma AltShape(d: Snapshot, img: ElementId)
    requires Valid(d, img)
    ensures OwnLabel(d, img) != "" ==> Alt(d, img) == OwnLabel(d, img)
    ensures OwnLabel(d, img) == "" ==> Normalize(Alt(d, img)) == Alt(d, img) && |Alt(d, img)| <= 103
  {
    var c := Container(d, img);
    if OwnLabel(d, img) == "" {
      if c.Some? {
        var raw := RawCandidates(d, c.value);
        ChooseLabelNormal(raw);
        assert Alt(d, img) == ChooseLabel(raw);
      } else {
        assert Alt(d, img) == "";
        assert Normalize("") == "" by {
          NormalizeShape("");
        }
      }
    }
  }

  /** Without an own label, the alt is `""` when there is no container or
      the container yields no non-empty candidate; otherwise it is the
      normalised earliest shortest non-empty candidate. */
  lemma AltFallback(d: Snapshot, img: ElementId)
    requires Valid(d, img)
    requires OwnLabel(d, img) == ""
    ensures Container(d, img).None? ==> Alt(d, img) == ""
    ensures Container(d, img).Some? && NonEmptyOnly(RawCandidates(d, Container(d, img).value)) == [] ==> Alt(d, img) == ""
    ensures Container(d, img).Some? && NonEmptyOnly(RawCandidates(d, Container(d, img).value)) != [] ==>
      var cs := NonEmptyOnly(RawCandidates(d, Container(d, img).value));
      exists k: nat :: EarliestShortest(cs, k, |cs|) && Alt(d, img) == Normalize(cs[k])
  {
    var c := Container(d, img);
    if c.Some? {
      var raw := RawCandidates(d, c.value);
      ChooseLabelPicks(raw);
      assert Alt(d, img) == ChooseLabel(raw);
    }
  }
}
