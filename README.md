# Image-record extraction, modelled in Dafny

This project models the extraction step of the Google Images crawler: the
callback that `page.evaluate` runs inside a rendered results page
(src/main.js:227-411), together with the properties it promises. The callback
works in four steps:

1. It collects candidate `img` elements with eight CSS selectors, in order.
2. It drops repeated elements.
3. It walks the unique candidates in order. It stops once `maxImages` records
   exist, and keeps an image whose URL passes the acceptance test and was not
   taken before.
4. It builds one record for each kept image:
   - its URL;
   - its label (`alt`, `title`);
   - the page that links it (`sourceUrl`, `sourceTitle`);
   - nearby text;
   - the search query;
   - a timestamp.

The page is a `Dom.Snapshot`. This is a finite sequence of elements, each with:

- a tag;
- classes;
- attributes;
- text content;
- a parent;
- the top-left corner of its bounding box.

An element's identity is its index, and document order is index order. A
snapshot only requires each parent to precede its children. Every real
document fits this, with its pre-order as the index order. Some snapshots
have an index order that is the pre-order of no tree: with element 0 the
parent of 1 and 2, and 1 the parent of 3, a document would put 3 before 2.
The properties are proved for every snapshot, so they
hold for real documents as well.

The selectors the script uses are modelled as a small language: tag,
`[attr]`, `[attr*="part"]`, `.class`, compounds of those, and the descendant
combinator. `querySelectorAll`, `querySelector` and `closest` are defined with
their DOM meaning, and lemmas prove that meaning.

Modules:

| module | file | contents |
|---|---|---|
| `Wrappers` | `wrappers.dfy` | `Option` |
| `Text` | `text.dfy` | JavaScript's `trim`, `replace(/\s+/g, ' ')`, `includes`, `startsWith` and the `a \|\| b \|\| ''` chain |
| `Dom` | `dom.dfy` | the snapshot, selectors and queries |
| `Seqs` | `seqs.dfy` | subsequence, distinctness, and `[...new Set(xs)]` |
| `Label` | `label.dfy` | the `alt` of a record |
| `Links` | `links.dfy` | the `sourceUrl`/`sourceTitle` search: the container, then the parent walk, then the proximity scan |
| `Extractor` | `extractor.dfy` | candidate collection, which images are kept, the records, and the main loop |

The loops of the source are methods with `while`/`for` loops. Each is proved
equal to a specification function: `CollectCandidates`, `SearchScope`,
`WalkParents`, `FindNearbyLink`, `KeepImages`. The main loop's state is
specified as a left fold of one loop turn (`Visit`/`RunUpTo`). The lemmas tie
that fold to the recursive description of the kept images (`Selected`), and
the properties are proved about that description.

Details of the code that the model keeps as written:

- A URL is accepted only when it is longer than 10 characters (`src.length >
  10`), so a URL of exactly 10 characters is rejected.
- The label reduction starts from the first candidate, whatever its length. It
  moves to a later candidate only when that one is strictly shorter and longer
  than 3. So the first candidate can win even when it has 3 characters or
  fewer.
- The label is trimmed after white space is collapsed.
- `nearbyText` falls back to the parent's and then the grandparent's text
  whenever the container's text is empty. That includes the case where a
  container exists but has empty text, not only the case with no container.

## Model

| member | source | states |
|---|---|---|
| Text.ContainsIff | src/main.js:299-302 | `includes` finds `p` exactly when `p` occurs at some position of `s` |
| Text.ContainsPrefixOf | src/main.js:299-300 | a string containing `p + q` contains `p` |
| Text.FirstNonEmptyEmpty | src/main.js:259-263 | an `a \|\| b \|\| ''` chain is `""` exactly when every operand is empty |
| Text.FirstNonEmptyFirst | src/main.js:259-263 | a non-empty chain is its first non-empty operand, and every earlier operand is empty |
| Text.FirstNonEmptyAt | src/main.js:259-263 | when every operand before position `k` is empty, the chain is operand `k` if that is non-empty or the last |
| Text.FirstNonEmptyOf3 | src/main.js:256 | a three-operand chain is the first operand when non-empty, else the second when non-empty, else the third |
| Text.TrimStart | src/main.js:288 | the result is a suffix of `s`; everything dropped is white space; it does not start with white space |
| Text.TrimEnd | src/main.js:288 | the result is a prefix of `s`; everything dropped is white space; it does not end with white space |
| Text.Trim | src/main.js:288 | `trim()` neither starts nor ends with white space |
| Text.TrimSlice | src/main.js:288 | `trim()` is a slice of `s` with only white space outside it |
| Text.CollapseWhitespace | src/main.js:288 | `replace(/\s+/g, ' ')` leaves only plain spaces, no two white-space characters in a row, is no longer than `s`, and starts with white space exactly when `s` does |
| Text.SqueezeMapped | src/main.js:288 | turning white space into spaces and dropping repeated spaces, after a space or not, is collapsing the rest of the string, with its leading white space dropped after a space |
| Text.CollapseWhitespaceRuns | src/main.js:288 | collapsing equals an independent definition: map every white-space character to a space, then drop every space that follows a space; so each run becomes exactly one space and nothing else changes |
| Text.CollapseKeepsVisible | src/main.js:288 | collapsing keeps every non-white-space character, in order |
| Text.CollapseFixpoint | src/main.js:288 | a collapsed string is left unchanged by collapsing |
| Text.CleanCollapsed | src/main.js:288 | the collapsed and trimmed text has only single plain spaces |
| Text.CleanIdempotent | src/main.js:288 | collapsing and trimming twice is the same as once |
| Dom.MatchesAnyIff | src/main.js:267 | an element matches a selector list exactly when it matches one of its selectors |
| Dom.MatchingFromSound | src/main.js:245 | every element listed matches the selector |
| Dom.MatchingFromComplete | src/main.js:245 | every matching element is listed |
| Dom.MatchingFromIncreasing | src/main.js:245 | the list is in strictly increasing document order |
| Dom.QuerySelectorAllExactly | src/main.js:245 | `querySelectorAll` lists exactly the matching elements, in document order, each once |
| Dom.FirstInScopeFinds | src/main.js:324 | the scan returns a matching descendant of the scope, and no earlier element is one |
| Dom.QuerySelectorFinds | src/main.js:271-274 | `querySelector` returns the first matching descendant in document order, or nothing when there is none |
| Dom.QuerySelectorFirstMatch | src/main.js:271-274 | what `querySelector` returns is the first match, and whenever `e` is the first match it returns `e` |
| Dom.ClosestFinds | src/main.js:267 | `closest` returns the element or an ancestor that matches; no nearer element on the path matches; with no result, none does |
| Seqs.Dedup | src/main.js:250 | `[...new Set(s)]` has no repetitions, the same elements as `s`, and the order of first occurrences |
| Label.OwnLabelChoice | src/main.js:259-263 | the image's own label is `alt` if non-empty, else `aria-label`, else `data-alt`, else `data-title` |
| Label.FirstAttrFinds | src/main.js:271-272 | the attribute candidate is the attribute's value on the first descendant that has the attribute; with no such descendant it is empty |
| Label.FirstTextFinds | src/main.js:273-274 | the text candidate is the trimmed text of the first descendant with that tag; with no such descendant it is empty |
| Label.NonEmptyOnly | src/main.js:276 | the filter keeps exactly the non-empty candidates, and no more than there were |
| Label.NonEmptyOnlyAppend | src/main.js:276 | filtering a concatenation is the concatenation of the filtered parts, so order and repeats are kept |
| Label.NonEmptyOnlyOne | src/main.js:276 | a single candidate is kept when it is non-empty and dropped when it is empty |
| Label.ReduceFrom | src/main.js:280-285 | from any point of the reduction, the final accumulator is the earliest shortest eligible candidate |
| Label.ShortestIndex | src/main.js:280-285 | the reduction ends on the earliest shortest eligible candidate: the first one, or one strictly shorter than it and longer than 3 |
| Label.NormalizeShape | src/main.js:288-289 | the label is at most 103 characters: the cleaned text when it has at most 100, else its first 100 characters and `...`; the cleaned text is collapsed and trimmed |
| Label.NormalizeIdempotent | src/main.js:288-289 | normalising a normalised label changes nothing, also after the cut |
| Label.CutIsClean | src/main.js:289 | a cut label with `...` survives collapsing and trimming unchanged |
| Label.ChooseLabelPicks | src/main.js:276-289 | the container label is `""` without non-empty candidates, else the normalised earliest shortest eligible one |
| Label.ChooseLabelNormal | src/main.js:278-289 | the container label is normalised and at most 103 characters |
| Label.AltShape | src/main.js:259-292 | an own label wins unchanged; otherwise the alt is normalised and at most 103 characters |
| Label.AltFallback | src/main.js:265-291 | without an own label, the alt is empty when there is no container or no non-empty candidate; otherwise it is the normalised earliest shortest non-empty candidate of the container |
| Links.LinkTitleChoice | src/main.js:327-329 | a link's title is its `title` if non-empty, else its trimmed text if non-empty, else its `aria-label` |
| Links.Probe | src/main.js:324-325 | a probe result is an element of the page whose `href` starts with `http` |
| Links.ProbeFinds | src/main.js:324-325 | the probe succeeds exactly when the first match has an `href` starting with `http`, and then it returns that first match |
| Links.SearchIn | src/main.js:323-332 | a source found by the container search is absolute |
| Links.SearchInNone | src/main.js:323-332 | the selector search finds nothing exactly when every selector's probe fails |
| Links.SearchInFirst | src/main.js:323-332 | a found source comes from the first selector whose probe succeeds |
| Links.SearchScope | src/main.js:323-332 | the selector loop returns the specified search result |
| Links.Levels | src/main.js:340 | the walk visits at most `n` levels, all elements of the page |
| Links.LevelsChain | src/main.js:336-354 | the levels are the parent and then each one's parent, stopping early only at the root |
| Links.WalkFromLevels | src/main.js:340-354 | the parent walk returns the first source among the search results of its levels, nearest first |
| Links.FirstSomeNone | src/main.js:351 | the walk's early exit finds nothing exactly when every level's result is empty |
| Links.FirstSomeFirst | src/main.js:351 | the walk's early exit returns the first level result that is a source |
| Links.WalkFromNone | src/main.js:340-354 | the parent walk finds nothing exactly when no visited level has a source |
| Links.WalkFromFirst | src/main.js:340-354 | a walk result is the source of the nearest visited level that has one |
| Links.WalkFromHttp | src/main.js:343 | a source found by the walk is absolute |
| Links.WalkParents | src/main.js:336-354 | the `while` loop returns the specified walk result |
| Links.NearTitleChoice | src/main.js:378 | a nearby link's title is its `title` if non-empty, else its trimmed text; `aria-label` is not consulted |
| Links.NearbyFrom | src/main.js:376 | a source found by proximity is absolute |
| Links.NearbyFromNone | src/main.js:364-381 | the proximity scan finds nothing exactly when no link is within 200 pixels and absolute |
| Links.NearbyFromFirst | src/main.js:364-381 | a proximity result is the first link that is near and absolute, with its `href` and its title or text |
| Links.FindNearbyLink | src/main.js:364-381 | the `for` loop returns the specified proximity result |
| Links.SourceLink | src/main.js:311-382 | a source found for an image is absolute |
| Links.SourceLinkSome | src/main.js:311-382 | a found source is the link of the first succeeding selector in the container; or, when no container selector succeeds, the search of the nearest ancestor level with a source; or, without a container or when both fail, the first near absolute link of the page with its `href` and title |
| Links.SourceLinkNone | src/main.js:311-382 | an image without a source has no near absolute link; with a container, no selector finds an absolute link in it or in any visited ancestor |
| Links.ResolveSource | src/main.js:307-382 | the whole source search returns the specified source |
| Extractor.ConcatMembers | src/main.js:243-247 | an element is collected exactly when it matches one of the selectors |
| Extractor.CollectCandidates | src/main.js:243-247 | the `forEach` loop computes the concatenation of the per-selector results |
| Extractor.CandidatesExactly | src/main.js:232-250 | the unique images are distinct, are exactly the elements matching an image selector, and are in order of first collection |
| Extractor.CandidatesAreImages | src/main.js:232-241 | every candidate is an `img` element |
| Extractor.ImageUrlChoice | src/main.js:256 | the URL is `src` if non-empty, else `data-src` if non-empty, else `data-lazy-src` |
| Extractor.AcceptedIff | src/main.js:297-303 | the acceptance test is: longer than 10, none of `data:image`, `google.com/logos` and `google.com/tia` in it, not yet taken; its other clauses are implied |
| Extractor.SelectedBound | src/main.js:253-254 | no more images are kept than the remaining budget, and none once it is spent |
| Extractor.SelectedInOrder | src/main.js:253 | the kept images are a subsequence of the candidates |
| Extractor.SelectedUrls | src/main.js:297-303 | kept images have usable URLs not seen before, and no two share a URL |
| Extractor.SelectedComplete | src/main.js:253-303 | below the bound, every image with a usable URL has its URL seen before or taken by a kept image |
| Extractor.Reach | src/main.js:253-254 | the loop looks at no more images than there are |
| Extractor.ReachEnds | src/main.js:253-254 | below the bound the loop looks at every image; when the bound stops it, the last image looked at is the last one kept |
| Extractor.SelectedInReach | src/main.js:253-303 | the kept images lie, in order, among the images the loop looks at |
| Extractor.ReachCovered | src/main.js:253-303 | every image with a usable URL that the loop looks at, up to the last one kept, has its URL seen before or taken by a kept image |
| Extractor.SelectedFirstOfUrl | src/main.js:297-306 | each kept image is the first image with its URL |
| Extractor.KeptFirstStep | src/main.js:297-306 | being first with its URL survives putting an image of another URL in front |
| Extractor.FirstOfUrlShift | src/main.js:297-306 | first with its URL after the head, and with another URL than the head, means first with it overall |
| Extractor.RecordSource | src/main.js:307-382 | a record's `sourceUrl` is empty or absolute, and an empty one has an empty `sourceTitle` |
| Extractor.RecordAlt | src/main.js:395-398 | the title repeats the alt; the alt is the own label or else normalised and at most 103 characters |
| Extractor.RecordAltFallback | src/main.js:395-398 | without an own label, a record's alt is empty when there is no container or no non-empty candidate, and otherwise the normalised earliest shortest non-empty candidate |
| Extractor.RecordNearby | src/main.js:358-401 | `nearbyText` is the container's text if non-empty, else the parent's if non-empty, else the grandparent's |
| Extractor.RecordQuery | src/main.js:402 | `searchQuery` is the page's `q` parameter when present and `""` when absent, so empty exactly when there is no non-empty `q` |
| Extractor.PicksBound | src/main.js:253-254 | at most `maxImages` images are kept (none when it is not positive), at most all candidates, in their order |
| Extractor.RecordsUrls | src/main.js:395-406 | every record has a usable URL and no two records share one |
| Extractor.BuiltForUrls | src/main.js:395-396 | each record carries the URL of the image it was built for |
| Extractor.RecordsStamped | src/main.js:402-403 | every record carries the page's query value and the clock reading for its own position |
| Extractor.RecordsEarliest | src/main.js:253-406 | every candidate with a usable URL that the loop looks at shares its URL with a record |
| Extractor.RecordsLast | src/main.js:253-406 | when the bound stops the loop, the last record has the URL of the last candidate looked at |
| Extractor.RecordsFirstOfUrl | src/main.js:297-406 | each record is built for the first candidate with its URL, never for a later duplicate |
| Extractor.RecordsComplete | src/main.js:253-406 | below the bound, every candidate with a usable URL is represented by a record with that URL |
| Extractor.RunUpTo | src/main.js:253-408 | after any number of turns, the loop has kept only page elements |
| Extractor.RunUpToSelected | src/main.js:253-408 | the images kept after `n` turns, followed by what the rest of the loop keeps, are what the whole loop keeps |
| Extractor.VisitSelected | src/main.js:254-407 | one turn moves the first image from "still to keep" to "kept so far" |
| Extractor.BuiltForPush | src/main.js:395-404 | pushing the next image's record keeps exactly one record per kept image, numbered in order |
| Extractor.BuildRecord | src/main.js:305-404 | the loop body builds the specified record |
| Extractor.VisitImage | src/main.js:254-407 | one turn below the bound appends one record and adds the image's URL to `processedUrls` exactly when that URL passes the acceptance test, and otherwise changes nothing; the state moves by one step of the fold, and the records stay the records of the kept images, so the appended one is this image's |
| Extractor.KeepImages | src/main.js:253-408 | the loop builds one record for each kept image, in order |
| Extractor.Extract | src/main.js:227-411 | the callback returns one record per kept candidate, at most `maxImages`, with usable and distinct URLs; every usable candidate the loop looks at, and below the bound every usable candidate, has its URL in a record; each record is built for the first candidate with its URL (each pick is the first candidate with its URL); every record carries the query value and its clock reading |

## Left out

- The crawler around the callback is not part of this model:
  - browser launch and configuration, fingerprinting, and the CAPTCHA check, which logs and throws;
  - scrolling and human simulation, and random delays;
  - the server and batch flows, and storing records (`pushData`).
- `console.log` calls (src/main.js:251, 389-393) are left out, because they do not affect the records.
- The `img.title` read at src/main.js:294 is left out, because its value is never used.
- `crawledAt`: the clock `new Date().toISOString()` is the parameter `clock`, read with the record's index.
- `searchQuery`: the page URL's `q` parameter is the parameter `q`. Parsing `window.location.href` is left out.
- `ImageUrl`, `Href`: the `.src` and `.href` properties are read as the raw attribute values. The browser's resolution of relative URLs against the page URL is left out, because it is external to the script.
- `IsNear`: the Euclidean distance test is exact arithmetic on reals (`dx² + dy² < 200²`). Floating-point rounding of `Math.sqrt` and `Math.pow` is not modelled.
- `Normalize`, `Accepted`, `Eligible`, `ReduceFrom`: lengths and the 100-character cut count Unicode code points, whereas JavaScript counts UTF-16 code units. Characters outside the Basic Multilingual Plane are therefore counted differently.
- `Dom.Matches`: only the selector features the script uses are modelled. Attribute substring tests are case-sensitive and assume an HTML document.
- `Dom.Snapshot`: the page is a fixed snapshot. Changes to the page while the callback runs, and layout, are left out; each element's box corner is given.
