/** String operations the extraction script relies on: JavaScript's `trim`,
    `replace(/\s+/g, ' ')`, `includes`, `startsWith` and the `a || b || ''`
    chains that pick the first non-empty string. */
module Text {

  /** JavaScript's white space and line terminators: the characters `\s`
      matches and that `String.prototype.trim` removes. */
  predicate IsWhitespace(c: char) {
    || c == ' ' || c == '\t' || c == '\n' || c == '\r'
    || c == '\U{000B}' || c == '\U{000C}' || c == '\U{00A0}' || c == '\U{1680}'
    || ('\U{2000}' <= c <= '\U{200A}')
    || c == '\U{2028}' || c == '\U{2029}' || c == '\U{202F}' || c == '\U{205F}'
    || c == '\U{3000}' || c == '\U{FEFF}'
  }

  /** `s.startsWith(p)` */
  predicate StartsWith(s: string, p: string) {
    |p| <= |s| && s[..|p|] == p
  }

  /** `s.includes(p)`, defined by trying every start position in turn. */
  predicate Contains(s: string, p: string)
    decreases |s|
  {
    StartsWith(s, p) || (s != [] && Contains(s[1..], p))
  }

  /** `p` occurs in `s` starting at position `k`. */
  predicate OccursAt(s: string, p: string, k: nat) {
    k + |p| <= |s| && s[k..k + |p|] == p
  }

  /** `Contains` finds `p` exactly when `p` occurs at some position of `s`. */
  lemma {:induction false} ContainsIff(s: string, p: string)
    ensures Contains(s, p) <==> exists k: nat :: OccursAt(s, p, k)
    decreases |s|
  {
    if StartsWith(s, p) {
      assert OccursAt(s, p, 0);
    } else if s != [] {
      ContainsIff(s[1..], p);
      if Contains(s[1..], p) {
        var k: nat :| OccursAt(s[1..], p, k);
        assert s[k + 1..k + 1 + |p|] == s[1..][k..k + |p|];
        assert OccursAt(s, p, k + 1);
      }
      if exists k: nat :: OccursAt(s, p, k) {
        var k: nat :| OccursAt(s, p, k);
        assert k > 0;
        assert s[1..][k - 1..k - 1 + |p|] == s[k..k + |p|];
        assert OccursAt(s[1..], p, k - 1);
      }
    } else {
      assert forall k: nat :: !OccursAt(s, p, k);
    }
  }

  /** A string that contains `p + q` contains `p`. */
  lemma {:induction false} ContainsPrefixOf(s: string, p: string, q: string)
    requires Contains(s, p + q)
    ensures Contains(s, p)
    decreases |s|
  {
    if StartsWith(s, p + q) {
      assert s[..|p|] == (p + q)[..|p|];
    } else {
      ContainsPrefixOf(s[1..], p, q);
    }
  }

  /** The first non-empty string of `xs`, or `""`: the value of
      `xs[0] || xs[1] || ... || ''` when every operand is a string, `null`
      or `undefined` (the last two read as `""`). */
  function FirstNonEmpty(xs: seq<string>): string {
    if xs == [] then ""
    else if xs[0] != "" then xs[0]
    else FirstNonEmpty(xs[1..])
  }

  /** The `||` chain is `""` exactly when every operand is. */
  lemma {:induction false} FirstNonEmptyEmpty(xs: seq<string>)
    ensures FirstNonEmpty(xs) == "" <==> forall i :: 0 <= i < |xs| ==> xs[i] == ""
  {
    if xs != [] && xs[0] == "" {
      FirstNonEmptyEmpty(xs[1..]);
      assert forall i :: 0 < i < |xs| ==> xs[i] == xs[1..][i - 1];
    }
  }

  /** A non-empty `||` chain is its first non-empty operand. */
  lemma {:induction false} FirstNonEmptyFirst(xs: seq<string>)
    requires FirstNonEmpty(xs) != ""
    ensures exists k ::
      && 0 <= k < |xs| && xs[k] == FirstNonEmpty(xs)
      && forall j :: 0 <= j < k ==> xs[j] == ""
  {
    if xs[0] == "" {
      var t := xs[1..];
      FirstNonEmptyFirst(t);
      var k :| && 0 <= k < |t| && t[k] == FirstNonEmpty(t)
               && forall j :: 0 <= j < k ==> t[j] == "";
      assert xs[k + 1] == t[k];
      forall j | 0 < j < k + 1 ensures xs[j] == "" {
        assert xs[j] == t[j - 1];
      }
    }
  }

  /** When every operand before `xs[k]` is empty, the `||` chain is
      `xs[k]` if that is non-empty or the last operand. */
  lemma {:induction false} FirstNonEmptyAt(xs: seq<string>, k: nat)
    requires k < |xs| && forall j :: 0 <= j < k ==> xs[j] == ""
    requires xs[k] != "" || k == |xs| - 1
    ensures FirstNonEmpty(xs) == xs[k]
  {
    if k > 0 {
      var t := xs[1..];
      forall j | 0 <= j < k - 1 ensures t[j] == "" {
        assert t[j] == xs[j + 1];
      }
      FirstNonEmptyAt(t, k - 1);
    }
  }

  /** `a || b || c` is `a` if non-empty, else `b` if non-empty, else `c`. */
  lemma FirstNonEmptyOf3(a: string, b: string, c: string)
    ensures a != "" ==> FirstNonEmpty([a, b, c]) == a
    ensures a == "" && b != "" ==> FirstNonEmpty([a, b, c]) == b
    ensures a == "" && b == "" ==> FirstNonEmpty([a, b, c]) == c
  {
    var xs := [a, b, c];
    if a != "" {
      FirstNonEmptyAt(xs, 0);
    } else if b != "" {
      FirstNonEmptyAt(xs, 1);
    } else {
      FirstNonEmptyAt(xs, 2);
    }
  }

  /** `s` with its leading white space removed: the suffix of `s` left once
      the longest all-white-space prefix is dropped. */
  function TrimStart(s: string): (r: string)
    ensures |r| <= |s| && r == s[|s| - |r|..]
    ensures forall i :: 0 <= i < |s| - |r| ==> IsWhitespace(s[i])
    ensures r == [] || !IsWhitespace(r[0])
  {
    if s != [] && IsWhitespace(s[0]) then TrimStart(s[1..]) else s
  }

  /** `s` with its trailing white space removed: the prefix of `s` left once
      the longest all-white-space suffix is dropped. */
  function TrimEnd(s: string): (r: string)
    ensures |r| <= |s| && r == s[..|r|]
    ensures forall i :: |r| <= i < |s| ==> IsWhitespace(s[i])
    ensures r == [] || !IsWhitespace(r[|r| - 1])
  {
    if s != [] && IsWhitespace(s[|s| - 1]) then TrimEnd(s[..|s| - 1]) else s
  }

  /** `r` is the slice of `s` at `a`, and `s` holds only white space
      outside of it. */
  predicate TrimmedAt(s: string, r: string, a: nat) {
    && a + |r| <= |s| && r == s[a..a + |r|]
    && (forall i :: 0 <= i < a ==> IsWhitespace(s[i]))
    && (forall i :: a + |r| <= i < |s| ==> IsWhitespace(s[i]))
  }

  /** `s.trim()`: a slice of `s` that neither starts nor ends with white
      space, and outside of which `s` holds only white space. */
  function Trim(s: string): (r: string)
    ensures r == [] || (!IsWhitespace(r[0]) && !IsWhitespace(r[|r| - 1]))
  {
    TrimEnd(TrimStart(s))
  }

  /** The trimmed string is the slice of `s` at some position, with only
      white space around it. */
  lemma TrimSlice(s: string)
    ensures TrimmedAt(s, Trim(s), |s| - |TrimStart(s)|)
  {
    var t := TrimStart(s);
    var r := TrimEnd(t);
    assert Trim(s) == r;
    TrimEndInside(s, t, r);
  }

  /** Trimming the end of the suffix `t` of `s` leaves a slice of `s`. */
  lemma TrimEndInside(s: string, t: string, r: string)
    requires |t| <= |s| && t == s[|s| - |t|..]
    requires forall i :: 0 <= i < |s| - |t| ==> IsWhitespace(s[i])
    requires |r| <= |t| && r == t[..|r|]
    requires forall i :: |r| <= i < |t| ==> IsWhitespace(t[i])
    ensures TrimmedAt(s, r, |s| - |t|)
  {
    var a := |s| - |t|;
    assert r == s[a..a + |r|];
    forall i | a + |r| <= i < |s| ensures IsWhitespace(s[i]) {
      assert s[i] == t[i - a];
    }
  }

  /** What `replace(/\s+/g, ' ')` leaves: every white-space character is a
      plain space and no two white-space characters are adjacent. */
  predicate Collapsed(s: string) {
    && (forall i :: 0 <= i < |s| && IsWhitespace(s[i]) ==> s[i] == ' ')
    && (forall i :: 1 <= i < |s| && IsWhitespace(s[i]) ==> !IsWhitespace(s[i - 1]))
  }

  /** `s` with every white-space character removed. */
  function Visible(s: string): (r: string)
    ensures |r| <= |s|
    ensures forall i :: 0 <= i < |r| ==> !IsWhitespace(r[i])
  {
    if s == [] then []
    else if IsWhitespace(s[0]) then Visible(s[1..])
    else [s[0]] + Visible(s[1..])
  }

  /** `s.replace(/\s+/g, ' ')`: each maximal run of white space becomes a
      single space. */
  function CollapseWhitespace(s: string): (r: string)
    ensures Collapsed(r)
    ensures |r| <= |s|
    ensures s != [] ==> r != [] && (IsWhitespace(r[0]) <==> IsWhitespace(s[0]))
    decreases |s|
  {
    if s == [] then []
    else if IsWhitespace(s[0]) then [' '] + CollapseWhitespace(TrimStart(s[1..]))
    else [s[0]] + CollapseWhitespace(s[1..])
  }

  /** `s` with every white-space character replaced by a space. */
  function MapWhitespace(s: string): (r: string)
    ensures |r| == |s|
  {
    if s == [] then [] else [if IsWhitespace(s[0]) then ' ' else s[0]] + MapWhitespace(s[1..])
  }

  /** `s` without the spaces that follow a space; `afterSpace` says whether
      the character before `s` was one. */
  function SqueezeSpaces(s: string, afterSpace: bool): string {
    if s == [] then []
    else if s[0] == ' ' && afterSpace then SqueezeSpaces(s[1..], true)
    else [s[0]] + SqueezeSpaces(s[1..], s[0] == ' ')
  }

  /** `s` without every space that directly follows another space. */
  function DropRepeatedSpaces(s: string): string {
    SqueezeSpaces(s, false)
  }

  lemma {:induction false} SqueezeMapped(s: string, afterSpace: bool)
    ensures SqueezeSpaces(MapWhitespace(s), afterSpace) ==
      if afterSpace then CollapseWhitespace(TrimStart(s)) else CollapseWhitespace(s)
    decreases |s|
  {
    if s != [] {
      assert MapWhitespace(s)[1..] == MapWhitespace(s[1..]);
      SqueezeMapped(s[1..], IsWhitespace(s[0]));
    }
  }

  /** Collapsing white space is the same as turning every white-space
      character into a space and then dropping each space that follows
      another: each run of white space becomes one space, and nothing else
      changes. */
  lemma CollapseWhitespaceRuns(s: string)
    ensures CollapseWhitespace(s) == DropRepeatedSpaces(MapWhitespace(s))
  {
    SqueezeMapped(s, false);
  }

  /** Dropping leading white space keeps the visible characters. */
  lemma {:induction false} TrimStartVisible(s: string)
    ensures Visible(TrimStart(s)) == Visible(s)
  {
    if s != [] && IsWhitespace(s[0]) {
      TrimStartVisible(s[1..]);
    }
  }

  /** Collapsing white space keeps every other character, in order. */
  lemma {:induction false} CollapseKeepsVisible(s: string)
    ensures Visible(CollapseWhitespace(s)) == Visible(s)
    decreases |s|
  {
    if s == [] {
    } else if IsWhitespace(s[0]) {
      var t := TrimStart(s[1..]);
      CollapseKeepsVisible(t);
      TrimStartVisible(s[1..]);
      assert ([' '] + CollapseWhitespace(t))[1..] == CollapseWhitespace(t);
    } else {
      CollapseKeepsVisible(s[1..]);
      assert ([s[0]] + CollapseWhitespace(s[1..]))[1..] == CollapseWhitespace(s[1..]);
    }
  }

  /** A string that is already collapsed is left as it is. */
  lemma {:induction false} CollapseFixpoint(s: string)
    requires Collapsed(s)
    ensures CollapseWhitespace(s) == s
    decreases |s|
  {
    if s != [] {
      assert Collapsed(s[1..]) by {
        forall i | 1 <= i < |s| - 1 && IsWhitespace(s[1..][i])
          ensures !IsWhitespace(s[1..][i - 1])
        {
          assert s[1..][i] == s[i + 1] && s[1..][i - 1] == s[i];
        }
      }
      if IsWhitespace(s[0]) {
        assert |s| > 1 ==> !IsWhitespace(s[1]);
        assert TrimStart(s[1..]) == s[1..];
      }
      CollapseFixpoint(s[1..]);
    }
  }

  /** A slice of a collapsed string is collapsed. */
  lemma CollapsedSlice(s: string, a: nat, b: nat)
    requires a <= b <= |s| && Collapsed(s)
    ensures Collapsed(s[a..b])
  {
    var t := s[a..b];
    forall i | 1 <= i < |t| && IsWhitespace(t[i]) ensures !IsWhitespace(t[i - 1]) {
      assert t[i] == s[a + i] && t[i - 1] == s[a + i - 1];
    }
  }

  /** `s.replace(/\s+/g, ' ').trim()` */
  function Clean(s: string): string {
    Trim(CollapseWhitespace(s))
  }

  /** The cleaned string has no white-space runs and only plain spaces. */
  lemma CleanCollapsed(s: string)
    ensures Collapsed(Clean(s))
  {
    var c := CollapseWhitespace(s);
    TrimSlice(c);
    var a := |c| - |TrimStart(c)|;
    CollapsedSlice(c, a, a + |Trim(c)|);
  }

  /** A string without white space at either end is its own trim. */
  lemma TrimFixpoint(s: string)
    requires s == [] || (!IsWhitespace(s[0]) && !IsWhitespace(s[|s| - 1]))
    ensures Trim(s) == s
  {
    assert TrimStart(s) == s;
    assert TrimEnd(s) == s;
  }

  /** Cleaning twice is cleaning once. */
  lemma CleanIdempotent(s: string)
    ensures Clean(Clean(s)) == Clean(s)
  {
    var t := Clean(s);
    CleanCollapsed(s);
    CollapseFixpoint(t);
    TrimFixpoint(t);
  }
}
