/** The lesson content parser (`src/lib/content.ts`): the `<style>` and
    `<body>` of a standalone lesson page are pulled out, the outer container
    is unwrapped, the header, goals box and homework sections are cut, the
    footer is dropped, and the CSS is scoped under `.lesson-content`. */
module Content {
  import opened Wrappers
  import opened Text
  import opened Types
  import opened CssScope

  /** `<TAG[^>]*>([\s\S]*?)<\/TAG>` with the `i` flag matches at `p`: the
      opening tag's first `>` is at `g`, and the captured text runs from
      just after it up to `c`, where the first closing tag after `g`
      starts. */
  predicate TagMatch(s: string, tag: string, p: nat, g: nat, c: nat) {
    && MatchesAtCI(s, p, "<" + tag)
    && p + |tag| + 1 <= g < c
    && MatchesAtCI(s, c, "</" + tag + ">")
    && s[g] == '>'
    && (forall k :: p + |tag| + 1 <= k < g ==> s[k] != '>')
    && (forall k :: g < k < c ==> !MatchesAtCI(s, k, "</" + tag + ">"))
  }

  /** The match of the tag pattern at `p`, if there is one: its `>` and the
      start of its closing tag. */
  function TagAt(s: string, tag: string, p: nat): (r: Option<(nat, nat)>)
    ensures r.Some? ==> TagMatch(s, tag, p, r.value.0, r.value.1)
    ensures forall g: nat, c: nat :: TagMatch(s, tag, p, g, c) ==> r == Some((g, c))
  {
    if !MatchesAtCI(s, p, "<" + tag) then None
    else
      var g := IndexOfCharFrom(s, '>', p + |tag| + 1);
      if g == -1 then None
      else
        var c := IndexOfCIFrom(s, "</" + tag + ">", g + 1);
        if c == -1 then None else Some((g, c))
  }

  /** The leftmost match of the tag pattern: no match starts before `p`. */
  predicate LeftmostTag(s: string, tag: string, p: nat, g: nat, c: nat) {
    TagMatch(s, tag, p, g, c) && forall q: nat :: q < p ==> TagAt(s, tag, q).None?
  }

  /** The leftmost match starting at or after `from`. */
  function TagFrom(s: string, tag: string, from: nat): (r: Option<(nat, nat, nat)>)
    ensures r.Some? ==> from <= r.value.0 && TagMatch(s, tag, r.value.0, r.value.1, r.value.2)
    ensures r.Some? ==> forall q: nat :: from <= q < r.value.0 ==> TagAt(s, tag, q).None?
    ensures r.None? ==> forall q: nat :: from <= q ==> TagAt(s, tag, q).None?
    decreases |s| - from
  {
    if from > |s| then None
    else
      match TagAt(s, tag, from)
      case Some(gc) => Some((from, gc.0, gc.1))
      case None => TagFrom(s, tag, from + 1)
  }

  /** `raw.match(/<TAG[^>]*>([\s\S]*?)<\/TAG>/i)?.[1]`: the text captured by
      the leftmost match, or nothing when the pattern matches nowhere. */
  function TagContent(s: string, tag: string): (r: Option<string>)
    ensures r.None? <==> forall p: nat :: TagAt(s, tag, p).None?
  {
    match TagFrom(s, tag, 0)
    case None => None
    case Some(m) =>
      assert LeftmostTag(s, tag, m.0, m.1, m.2);
      assert TagAt(s, tag, m.0).Some?;
      Some(s[m.1 + 1..m.2])
  }

  /** There is at most one leftmost match. */
  lemma LeftmostTagUnique(s: string, tag: string, p: nat, g: nat, c: nat, p': nat, g': nat, c': nat)
    requires LeftmostTag(s, tag, p, g, c) && LeftmostTag(s, tag, p', g', c')
    ensures p == p' && g == g' && c == c'
  {
    assert p < p' ==> TagAt(s, tag, p).Some?;
    assert p' < p ==> TagAt(s, tag, p').Some?;
  }

  /** No closing `</TAG>` (any case) starts anywhere in `t`. */
  predicate NoClosingTag(t: string, tag: string) {
    forall k :: 0 <= k <= |t| ==> !MatchesAtCI(t, k, "</" + tag + ">")
  }

  /** An occurrence inside `s[a..b]` is an occurrence of the slice. */
  lemma MatchOfSlice(s: string, a: nat, b: nat, k: nat, pat: string)
    requires a <= k && k + |pat| <= b <= |s|
    requires MatchesAtCI(s, k, pat)
    ensures MatchesAtCI(s[a..b], k - a, pat)
  {
    forall j | 0 <= j < |pat|
      ensures FoldCase(s[a..b][k - a + j]) == FoldCase(pat[j])
    {
      assert s[a..b][k - a + j] == s[k + j];
    }
  }

  /** A slice equal to `pat` is a match of `pat`. */
  lemma SliceMatchesCI(s: string, i: nat, pat: string)
    requires i + |pat| <= |s| && s[i..i + |pat|] == pat
    ensures MatchesAtCI(s, i, pat)
  {
    forall k | 0 <= k < |pat|
      ensures s[i + k] == pat[k]
    {
      assert s[i..i + |pat|][k] == s[i + k];
    }
  }

  /** The opening tag of a written-out block, and its `>`. */
  lemma BlockOpening(s: string, p: nat, tag: string)
    requires p + |tag| + 2 <= |s| && s[p..p + |tag| + 2] == "<" + tag + ">"
    ensures MatchesAtCI(s, p, "<" + tag)
    ensures s[p + |tag| + 1] == '>'
  {
    assert s[p..p + |tag| + 1] == s[p..p + |tag| + 2][..|tag| + 1];
    assert ("<" + tag + ">")[..|tag| + 1] == "<" + tag;
    SliceMatchesCI(s, p, "<" + tag);
    assert s[p + |tag| + 1] == s[p..p + |tag| + 2][|tag| + 1];
  }

  /** A closing tag cannot start inside the content and run into the
      written closing tag, whose only `<` is its first character. */
  lemma NoCloseInside(s: string, g: nat, c: nat, tag: string)
    requires g < c && MatchesAtCI(s, c, "</" + tag + ">")
    requires '<' !in tag
    requires NoClosingTag(s[g + 1..c], tag)
    ensures forall k :: g < k < c ==> !MatchesAtCI(s, k, "</" + tag + ">")
  {
    var close := "</" + tag + ">";
    forall k | g < k < c
      ensures !MatchesAtCI(s, k, close)
    {
      if MatchesAtCI(s, k, close) {
        assert FoldCase(s[c]) == FoldCase(close[0]);
        if k + |close| <= c {
          MatchOfSlice(s, g + 1, c, k, close);
        } else {
          CloseHasOneOpening(tag, c - k);
        }
      }
    }
  }

  /** The only `<` of a closing tag is its first character. */
  lemma CloseHasOneOpening(tag: string, j: nat)
    requires '<' !in tag && 1 <= j < |tag| + 3
    ensures FoldCase(("</" + tag + ">")[j]) != '<'
  {
    var close := "</" + tag + ">";
    if 2 <= j < |tag| + 2 {
      assert close[j] == tag[j - 2];
    }
  }

  /** Nothing before the block opens a tag when no `<` precedes it. */
  lemma NoEarlierTag(s: string, a: string, tag: string)
    requires |a| <= |s| && s[..|a|] == a && '<' !in a
    ensures forall q: nat :: q < |a| ==> TagAt(s, tag, q).None?
  {
    forall q: nat | q < |a|
      ensures TagAt(s, tag, q).None?
    {
      assert s[q] == a[q];
      assert ("<" + tag)[0] == '<';
    }
  }

  /** A tagged block is found when nothing before it opens a tag and its
      content holds no closing tag: `<TAG>` at `p`, then `n` characters of
      content, then `</TAG>`. */
  lemma TagOfBlock(s: string, p: nat, tag: string, n: nat)
    requires p + 2 * |tag| + 5 + n <= |s|
    requires '<' !in s[..p] && '<' !in tag
    requires s[p..p + |tag| + 2] == "<" + tag + ">"
    requires NoClosingTag(s[p + |tag| + 2..p + |tag| + 2 + n], tag)
    requires s[p + |tag| + 2 + n..p + 2 * |tag| + 5 + n] == "</" + tag + ">"
    ensures TagContent(s, tag) == Some(s[p + |tag| + 2..p + |tag| + 2 + n])
  {
    var c := p + |tag| + 2 + n;
    BlockOpening(s, p, tag);
    SliceMatchesCI(s, c, "</" + tag + ">");
    TagOfBlockAt(s, tag, p, p + |tag| + 1, c);
  }

  /** The positional half of `TagOfBlock`: an opening `<TAG>` at `p` with no
      `<` before it and a closing tag at `c` with none between. */
  lemma TagOfBlockAt(s: string, tag: string, p: nat, g: nat, c: nat)
    requires g == p + |tag| + 1 && g < c
    requires MatchesAtCI(s, c, "</" + tag + ">")
    requires MatchesAtCI(s, p, "<" + tag) && s[g] == '>'
    requires '<' !in s[..p] && '<' !in tag
    requires NoClosingTag(s[g + 1..c], tag)
    ensures TagContent(s, tag) == Some(s[g + 1..c])
  {
    NoCloseInside(s, g, c, tag);
    assert TagMatch(s, tag, p, g, c);
    NoEarlierTag(s, s[..p], tag);
    assert LeftmostTag(s, tag, p, g, c);
    TagContentOfLeftmost(s, tag, p, g, c);
  }

  /** The scan stops at the leftmost match. */
  lemma TagFromLeftmost(s: string, tag: string, p: nat, g: nat, c: nat)
    requires LeftmostTag(s, tag, p, g, c)
    ensures TagFrom(s, tag, 0) == Some((p, g, c))
  {
    var r := TagFrom(s, tag, 0);
    assert TagAt(s, tag, p) == Some((g, c));
    assert r.Some? by {
      assert r.None? ==> TagAt(s, tag, p).None?;
    }
    var q := r.value.0;
    assert TagAt(s, tag, q).Some?;
  }

  /** The leftmost match determines the captured text. */
  lemma TagContentOfLeftmost(s: string, tag: string, p: nat, g: nat, c: nat)
    requires LeftmostTag(s, tag, p, g, c)
    ensures TagContent(s, tag) == Some(s[g + 1..c])
  {
    TagFromLeftmost(s, tag, p, g, c);
  }

  /** Without the opening `<TAG` anywhere, nothing is captured. */
  lemma TagAbsent(s: string, tag: string)
    requires forall k: nat :: !MatchesAtCI(s, k, "<" + tag)
    ensures TagContent(s, tag) == None
  {
  }

  /** The opening tag of the outer container. */
  const ContainerOpen: string := "<div class=\"container\">"

  /** `^[\s\S]*?<div class="container">([\s\S]*)<\/div>\s*$` with the `i`
      flag matches with the container's opening tag at `k` and the final
      `</div>` at `e`, followed only by whitespace. */
  predicate ContainerShape(s: string, k: nat, e: nat) {
    && MatchesAtCI(s, k, ContainerOpen)
    && k + |ContainerOpen| <= e
    && MatchesAtCI(s, e, "</div>")
    && AllSpace(s[e + 6..])
  }

  /** Every character of an all-whitespace suffix is whitespace. */
  lemma SpaceInSuffix(s: string, a: nat, i: int)
    ensures a <= i < |s| && AllSpace(s[a..]) ==> IsSpace(s[i])
  {
    if a <= i < |s| && AllSpace(s[a..]) {
      assert s[a..][i - a] == s[i];
    }
  }

  /** A `</div>` followed only by whitespace ends where the trailing
      whitespace starts. */
  lemma FinalCloseAt(s: string, e: nat)
    requires MatchesAtCI(s, e, "</div>") && AllSpace(s[e + 6..])
    ensures e + 6 == |TrimEnd(s)|
  {
    var l := |TrimEnd(s)|;
    assert FoldCase(s[e + 5]) == FoldCase("</div>"[5]);
    assert s[e + 5] == '>';
    SpaceInSuffix(s, e + 6, l - 1);
    SpaceInSuffix(s, l, e + 5);
  }

  /** The container unwrap of `parseHtmlContent`: when the pattern matches,
      the text between the first container opening and the final `</div>`
      (everything before the opening is dropped too); otherwise the text as
      it is (`UnwrapUnmatched`, `UnwrapMatched`). */
  function Unwrap(html: string): (r: string)
    ensures |r| <= |html|
  {
    var k := IndexOfCIFrom(html, ContainerOpen, 0);
    var l := |TrimEnd(html)|;
    if k != -1 && k + |ContainerOpen| + 6 <= l && MatchesAtCI(html, l - 6, "</div>") then
      html[k + |ContainerOpen|..l - 6]
    else html
  }

  /** Without a match of the pattern the text is kept. */
  lemma UnwrapUnmatched(html: string)
    requires forall k: nat, e: nat :: !ContainerShape(html, k, e)
    ensures Unwrap(html) == html
  {
    UnwrapCases(html, IndexOfCIFrom(html, ContainerOpen, 0), |TrimEnd(html)|);
  }

  /** With a match, the text between the first container opening and the
      final `</div>` is kept. */
  lemma UnwrapMatched(html: string, k: nat, e: nat)
    requires ContainerShape(html, k, e)
    requires forall j :: 0 <= j < k ==> !MatchesAtCI(html, j, ContainerOpen)
    ensures Unwrap(html) == html[k + |ContainerOpen|..e]
  {
    var k0 := IndexOfCIFrom(html, ContainerOpen, 0);
    var l := |TrimEnd(html)|;
    UnwrapCases(html, k0, l);
    assert k0 == k;
    assert e == l - 6;
  }

  lemma UnwrapCases(html: string, k: int, l: nat)
    requires k == IndexOfCIFrom(html, ContainerOpen, 0) && l == |TrimEnd(html)|
    ensures forall k': nat, e: nat :: ContainerShape(html, k', e) ==>
      k != -1 && k <= k' && e == l - 6 && MatchesAtCI(html, l - 6, "</div>")
    ensures k != -1 && k + |ContainerOpen| + 6 <= l && MatchesAtCI(html, l - 6, "</div>") ==>
      ContainerShape(html, k, l - 6)
  {
    forall k': nat, e: nat | ContainerShape(html, k', e)
      ensures k != -1 && k <= k' && e == l - 6 && MatchesAtCI(html, l - 6, "</div>")
    {
      FinalCloseAt(html, e);
    }
    if k != -1 && k + |ContainerOpen| + 6 <= l && MatchesAtCI(html, l - 6, "</div>") {
      assert html[l..] == html[l - 6 + 6..];
    }
  }

  /** `class="NAME"`, the attribute a stripped section is found by. */
  function ClassAttr(name: string): string {
    "class=\"" + name + "\""
  }

  /** `<div\s+class="NAME"[^>]*>` with the `i` flag matches at `p`: the
      attribute starts at `q`, after a run of whitespace, and the first `>`
      after the attribute is at `g`. */
  predicate SectionOpenShape(s: string, name: string, p: nat, q: nat, g: nat) {
    && MatchesAtCI(s, p, "<div")
    && p + 4 < q
    && MatchesAtCI(s, q, ClassAttr(name))
    && AllSpace(s[p + 4..q])
    && q + |ClassAttr(name)| <= g < |s|
    && s[g] == '>'
    && (forall k :: q + |ClassAttr(name)| <= k < g ==> s[k] != '>')
  }

  /** The match of the section's opening tag at `p`, if there is one: where
      its attribute starts and where its `>` is. */
  function SectionOpenAt(s: string, name: string, p: nat): (r: Option<(nat, nat)>)
    ensures r.Some? ==> SectionOpenShape(s, name, p, r.value.0, r.value.1)
    ensures forall q: nat, g: nat :: SectionOpenShape(s, name, p, q, g) ==> r == Some((q, g))
  {
    if !MatchesAtCI(s, p, "<div") then None
    else
      var q := SkipSpaces(s, p + 4);
      SectionOpenUnique(s, name, p, q);
      if q == p + 4 || !MatchesAtCI(s, q, ClassAttr(name)) then None
      else
        var g := IndexOfCharFrom(s, '>', q + |ClassAttr(name)|);
        if g == -1 then None else Some((q, g))
  }

  /** Any match of the opening tag has its attribute where the whitespace
      run ends. */
  lemma SectionOpenUnique(s: string, name: string, p: nat, q: nat)
    requires p + 4 <= |s| && q == SkipSpaces(s, p + 4)
    ensures forall q': nat, g: nat :: SectionOpenShape(s, name, p, q', g) ==> q' == q
  {
    forall q': nat, g: nat | SectionOpenShape(s, name, p, q', g)
      ensures q' == q
    {
      assert FoldCase(s[q']) == FoldCase(ClassAttr(name)[0]);
      SpaceRunEnds(s, p + 4, q, q');
    }
  }

  /** The leftmost match of the section's opening tag at or after `from`:
      where it starts, where its attribute starts and where its `>` is. */
  function SectionFrom(s: string, name: string, from: nat): (r: Option<(nat, nat, nat)>)
    ensures r.Some? ==> from <= r.value.0 && SectionOpenShape(s, name, r.value.0, r.value.1, r.value.2)
    ensures r.Some? ==> forall p: nat :: from <= p < r.value.0 ==> SectionOpenAt(s, name, p).None?
    ensures r.None? ==> forall p: nat :: from <= p ==> SectionOpenAt(s, name, p).None?
    decreases |s| - from
  {
    if from > |s| then
      NoSectionPastEnd(s, name, from);
      None
    else
      match SectionOpenAt(s, name, from)
      case Some(qg) => Some((from, qg.0, qg.1))
      case None =>
        var r := SectionFrom(s, name, from + 1);
        SectionFromStep(s, name, from, r);
        r
  }

  /** No opening tag starts past the end of the text. */
  lemma NoSectionPastEnd(s: string, name: string, from: nat)
    requires from > |s|
    ensures forall p: nat :: from <= p ==> SectionOpenAt(s, name, p).None?
  {
    forall p: nat | from <= p
      ensures SectionOpenAt(s, name, p).None?
    {
      assert !MatchesAtCI(s, p, "<div");
    }
  }

  /** The scan from `from + 1` is the scan from `from` when nothing opens
      at `from`. */
  lemma SectionFromStep(s: string, name: string, from: nat, r: Option<(nat, nat, nat)>)
    requires SectionOpenAt(s, name, from).None?
    requires r.Some? ==> from + 1 <= r.value.0
    requires r.Some? ==> forall p: nat :: from + 1 <= p < r.value.0 ==> SectionOpenAt(s, name, p).None?
    requires r.None? ==> forall p: nat :: from + 1 <= p ==> SectionOpenAt(s, name, p).None?
    ensures r.Some? ==> forall p: nat :: from <= p < r.value.0 ==> SectionOpenAt(s, name, p).None?
    ensures r.None? ==> forall p: nat :: from <= p ==> SectionOpenAt(s, name, p).None?
  {
  }

  /** `html.slice(i).startsWith("</div>")`, character by character. */
  predicate DivClosesAt(s: string, i: nat) {
    && i + 6 <= |s|
    && s[i] == '<' && s[i + 1] == '/' && s[i + 2] == 'd' && s[i + 3] == 'i' && s[i + 4] == 'v'
    && s[i + 5] == '>'
  }

  /** `/^<div[\s>]/` at `i`: a nested `div` opens there (case-sensitive). */
  predicate DivOpensAt(s: string, i: nat) {
    && i + 5 <= |s|
    && s[i] == '<' && s[i + 1] == 'd' && s[i + 2] == 'i' && s[i + 3] == 'v'
    && (IsSpace(s[i + 4]) || s[i + 4] == '>')
  }

  /** The depth-counting scan of `stripSection` from index `i` at nesting
      `depth`: a `</div>` closes a level, a nested `<div` opens one, and the
      scan ends just after the `</div>` that closes the outermost level, or
      finds nothing when the text runs out first. */
  function CloseFrom(s: string, i: nat, depth: nat): (r: Option<nat>)
    requires i <= |s| && depth >= 1
    ensures r.Some? ==> i + 6 <= r.value <= |s|
    decreases |s| - i
  {
    if i == |s| then None
    else if DivClosesAt(s, i) then
      if depth == 1 then Some(i + 6) else CloseFrom(s, i + 6, depth - 1)
    else if DivOpensAt(s, i) then CloseFrom(s, i + 1, depth + 1)
    else CloseFrom(s, i + 1, depth)
  }

  /** The number of nested `div` openings at positions in `[i, j)`. */
  function Opens(s: string, i: nat, j: nat): nat
    decreases j - i
  {
    if i >= j then 0 else (if DivOpensAt(s, i) then 1 else 0) + Opens(s, i + 1, j)
  }

  /** The number of `</div>` closings at positions in `[i, j)`. */
  function Closes(s: string, i: nat, j: nat): nat
    decreases j - i
  {
    if i >= j then 0 else (if DivClosesAt(s, i) then 1 else 0) + Closes(s, i + 1, j)
  }

  /** A `</div>` at `i` is the only tag the counts see in `[i, i + 6)`. */
  lemma SkipClose(s: string, i: nat, j: nat)
    requires DivClosesAt(s, i) && i + 6 <= j
    ensures Opens(s, i, j) == Opens(s, i + 6, j)
    ensures Closes(s, i, j) == 1 + Closes(s, i + 6, j)
  {
    assert Opens(s, i, j) == Opens(s, i + 1, j) && Closes(s, i, j) == 1 + Closes(s, i + 1, j);
    NoTagAt(s, i + 1, j);
    NoTagAt(s, i + 2, j);
    NoTagAt(s, i + 3, j);
    NoTagAt(s, i + 4, j);
    NoTagAt(s, i + 5, j);
  }

  /** A position without `<` adds nothing to either count. */
  lemma NoTagAt(s: string, k: nat, j: nat)
    requires k < j && k < |s| && s[k] != '<'
    ensures Opens(s, k, j) == Opens(s, k + 1, j) && Closes(s, k, j) == Closes(s, k + 1, j)
  {
  }

  /** What the depth scan finds, in terms of the tag counts alone: the
      `</div>` where it stops is the first one at which the closings since
      `i` outnumber `depth - 1` plus the openings; at every earlier `</div>`
      the count still leaves a level open, and when the scan finds nothing
      that holds at every `</div>` after `i`. */
  lemma {:induction false} CloseFromBalance(s: string, i: nat, depth: nat)
    requires i <= |s| && depth >= 1
    ensures var r := CloseFrom(s, i, depth);
      && (r.Some? ==> depth + Opens(s, i, r.value - 6) == Closes(s, i, r.value - 6) + 1)
      && forall j: nat :: i <= j && (r.None? || j < r.value - 6) && DivClosesAt(s, j) ==>
           depth + Opens(s, i, j) >= Closes(s, i, j) + 2
    decreases |s| - i
  {
    var r := CloseFrom(s, i, depth);
    if i < |s| {
      if DivClosesAt(s, i) {
        if depth > 1 {
          CloseFromBalance(s, i + 6, depth - 1);
          if r.Some? {
            SkipClose(s, i, r.value - 6);
          }
          forall j: nat | i <= j && (r.None? || j < r.value - 6) && DivClosesAt(s, j)
            ensures depth + Opens(s, i, j) >= Closes(s, i, j) + 2
          {
            if i < j {
              assert j >= i + 6 by {
                assert s[j] == '<';
                assert s[i + 1] != '<' && s[i + 2] != '<' && s[i + 3] != '<';
                assert s[i + 4] != '<' && s[i + 5] != '<';
              }
              SkipClose(s, i, j);
            }
          }
        }
      } else if DivOpensAt(s, i) {
        CloseFromBalance(s, i + 1, depth + 1);
      } else {
        CloseFromBalance(s, i + 1, depth);
      }
    }
  }

  /** Conversely, a `</div>` at `c` that balances the tags since `i`, with
      every earlier `</div>` leaving a level open, is where the scan from
      depth 1 stops. */
  lemma FirstBalancedClose(s: string, i: nat, c: nat)
    requires i <= c && DivClosesAt(s, c)
    requires Opens(s, i, c) == Closes(s, i, c)
    requires forall j: nat :: i <= j < c && DivClosesAt(s, j) ==> Opens(s, i, j) > Closes(s, i, j)
    ensures CloseFrom(s, i, 1) == Some(c + 6)
  {
    CloseFromBalance(s, i, 1);
    CloseFromEndsAtClose(s, i, 1);
  }

  /** `stripSection(html, name)`: the leftmost section opening tag and
      everything up to the `</div>` that closes it are cut out; the text is
      kept as it is when there is no opening tag or it is never closed. */
  function StripSection(html: string, name: string): (r: string)
    ensures r == html || |r| < |html|
  {
    match SectionFrom(html, name, 0)
    case None => html
    case Some(m) => CutFrom(html, m.0, m.2)
  }

  /** The cut for an opening tag at `p` whose `>` is at `g`: up to the
      `</div>` that closes it, or nothing when it is never closed. */
  function CutFrom(html: string, p: nat, g: nat): (r: string)
    requires p <= g < |html|
    ensures r == html || |r| < |html|
  {
    match CloseFrom(html, g + 1, 1)
    case None => html
    case Some(e) => html[..p] + html[e..]
  }

  /** The scan ends just after a `</div>`. */
  lemma {:induction false} CloseFromEndsAtClose(s: string, i: nat, depth: nat)
    requires i <= |s| && depth >= 1
    ensures CloseFrom(s, i, depth).Some? ==> DivClosesAt(s, CloseFrom(s, i, depth).value - 6)
    decreases |s| - i
  {
    if i < |s| {
      if DivClosesAt(s, i) {
        if depth > 1 {
          CloseFromEndsAtClose(s, i + 6, depth - 1);
        }
      } else if DivOpensAt(s, i) {
        CloseFromEndsAtClose(s, i + 1, depth + 1);
      } else {
        CloseFromEndsAtClose(s, i + 1, depth);
      }
    }
  }

  /** Text without `<` neither opens nor closes a `div`, so the scan passes
      over it at the same depth. */
  lemma {:induction false} ScanPlain(s: string, i: nat, j: nat, depth: nat)
    requires i <= j <= |s| && depth >= 1
    requires forall k :: i <= k < j ==> s[k] != '<'
    ensures CloseFrom(s, i, depth) == CloseFrom(s, j, depth)
    decreases j - i
  {
    if i < j {
      ScanPlain(s, i + 1, j, depth);
    }
  }

  /** A nested `<div>` raises the depth by one. */
  lemma ScanOpen(s: string, i: nat, depth: nat)
    requires i + 5 <= |s| && s[i..i + 5] == "<div>" && depth >= 1
    ensures CloseFrom(s, i, depth) == CloseFrom(s, i + 1, depth + 1)
  {
    var t := s[i..i + 5];
    assert s[i] == t[0] && s[i + 1] == t[1] && s[i + 2] == t[2] && s[i + 3] == t[3] && s[i + 4] == t[4];
  }

  /** A `</div>` lowers the depth by one, and at depth 1 ends the scan. */
  lemma ScanClose(s: string, i: nat, depth: nat)
    requires i + 6 <= |s| && s[i..i + 6] == "</div>" && depth >= 1
    ensures CloseFrom(s, i, depth) == if depth == 1 then Some(i + 6) else CloseFrom(s, i + 6, depth - 1)
  {
    var t := s[i..i + 6];
    assert s[i] == t[0] && s[i + 1] == t[1] && s[i + 2] == t[2] && s[i + 3] == t[3] && s[i + 4] == t[4];
    assert s[i + 5] == t[5];
  }

  /** The opening tag of a written-out section. */
  lemma SectionOpening(s: string, a: string, name: string)
    requires |a| + |ClassAttr(name)| + 6 <= |s|
    requires s[..|a| + |ClassAttr(name)| + 6] == a + ("<div " + ClassAttr(name) + ">")
    ensures SectionOpenShape(s, name, |a|, |a| + 5, |a| + 5 + |ClassAttr(name)|)
  {
    var p := |a|;
    var attr := ClassAttr(name);
    var u := a + ("<div " + attr + ">");
    assert forall k :: 0 <= k < |u| ==> s[k] == u[k];
    assert s[p..p + 4] == "<div";
    assert s[p + 4..p + 5] == " ";
    assert s[p + 5..p + 5 + |attr|] == attr;
    assert s[p + 5 + |attr|] == '>';
  }

  /** Nothing before a section opens one when no `<` precedes it. */
  lemma NoEarlierSection(s: string, a: string, name: string)
    requires |a| <= |s| && s[..|a|] == a && '<' !in a
    ensures forall p: nat :: p < |a| ==> SectionOpenAt(s, name, p).None?
  {
    forall p: nat | p < |a|
      ensures SectionOpenAt(s, name, p).None?
    {
      assert s[p] == a[p];
      assert MatchesAtCI(s, p, "<div") ==> FoldCase(s[p]) == FoldCase("<div"[0]);
    }
  }

  /** The search stops at the leftmost opening tag. */
  lemma SectionFromLeftmost(s: string, name: string, p: nat, q: nat, g: nat)
    requires SectionOpenShape(s, name, p, q, g)
    requires forall p': nat :: p' < p ==> SectionOpenAt(s, name, p').None?
    ensures SectionFrom(s, name, 0) == Some((p, q, g))
  {
    var r := SectionFrom(s, name, 0);
    assert SectionOpenAt(s, name, p) == Some((q, g));
    assert r.Some? by {
      assert r.None? ==> SectionOpenAt(s, name, p).None?;
    }
    var p' := r.value.0;
    assert SectionOpenAt(s, name, p').Some?;
    assert p' == p;
  }

  /** The cut of a section found at `p` whose scan from `g + 1` ends at `e`. */
  lemma StripFound(html: string, name: string, p: nat, q: nat, g: nat, e: nat)
    requires SectionOpenShape(html, name, p, q, g)
    requires forall p': nat :: p' < p ==> SectionOpenAt(html, name, p').None?
    requires CloseFrom(html, g + 1, 1) == Some(e)
    ensures StripSection(html, name) == html[..p] + html[e..]
    ensures g + 1 <= e - 6 && DivClosesAt(html, e - 6)
    ensures Opens(html, g + 1, e - 6) == Closes(html, g + 1, e - 6)
    ensures forall j: nat :: g + 1 <= j < e - 6 && DivClosesAt(html, j) ==>
              Opens(html, g + 1, j) > Closes(html, g + 1, j)
  {
    SectionFromLeftmost(html, name, p, q, g);
    StripAt(html, name, p, q, g, e);
    ClosedSpan(html, g + 1, e);
  }

  /** The span the scan from depth 1 closes ends in a balancing `</div>`,
      and no earlier `</div>` balances. */
  lemma ClosedSpan(s: string, i: nat, e: nat)
    requires i <= |s| && CloseFrom(s, i, 1) == Some(e)
    ensures i <= e - 6 && DivClosesAt(s, e - 6)
    ensures Opens(s, i, e - 6) == Closes(s, i, e - 6)
    ensures forall j: nat :: i <= j < e - 6 && DivClosesAt(s, j) ==> Opens(s, i, j) > Closes(s, i, j)
  {
    CloseFromEndsAtClose(s, i, 1);
    CloseFromBalance(s, i, 1);
  }

  /** The cut once the scan has settled on the opening at `p`. */
  lemma StripAt(html: string, name: string, p: nat, q: nat, g: nat, e: nat)
    requires p <= g < |html| && g + 1 <= e <= |html|
    requires SectionFrom(html, name, 0) == Some((p, q, g))
    requires CloseFrom(html, g + 1, 1) == Some(e)
    ensures StripSection(html, name) == html[..p] + html[e..]
  {
    StripAtOpening(html, name, p, q, g);
  }

  /** Without an opening tag anywhere the text is kept. */
  lemma StripUnmatched(html: string, name: string)
    requires forall p: nat :: SectionOpenAt(html, name, p).None?
    ensures StripSection(html, name) == html
  {
    var r := SectionFrom(html, name, 0);
    assert r.Some? ==> SectionOpenAt(html, name, r.value.0).Some?;
  }

  /** An opening tag whose depth count never closes leaves the text as it
      is. */
  lemma StripUnclosed(html: string, name: string, p: nat, q: nat, g: nat)
    requires SectionOpenShape(html, name, p, q, g)
    requires forall p': nat :: p' < p ==> SectionOpenAt(html, name, p').None?
    requires CloseFrom(html, g + 1, 1).None?
    ensures StripSection(html, name) == html
  {
    SectionFromLeftmost(html, name, p, q, g);
    StripAtOpening(html, name, p, q, g);
  }

  /** Once the scan has settled on the opening at `p`, the cut is decided
      by the depth count from its `>`. */
  lemma StripAtOpening(html: string, name: string, p: nat, q: nat, g: nat)
    requires p <= g < |html|
    requires SectionFrom(html, name, 0) == Some((p, q, g))
    ensures StripSection(html, name) == CutFrom(html, p, g)
  {
  }

  /** A section holding plain text is cut out together with its tags. */
  lemma StripLeaf(html: string, a: string, name: string, inner: string, b: string)
    requires html == a + ("<div " + ClassAttr(name) + ">") + inner + "</div>" + b
    requires '<' !in a && '<' !in inner
    ensures StripSection(html, name) == a + b
  {
    var open := "<div " + ClassAttr(name) + ">";
    var u1 := a + open;
    var u2 := u1 + inner;
    var u3 := u2 + "</div>";
    assert html[..|u3|] == u3;
    assert html[|u3|..] == b;
    StepClose(html, u2, 1);
    StepPlain(html, u1, inner, 1);
    StripAfterOpening(html, a, name, |u3|);
  }

  /** Once the leftmost opening tag is written out after a `<`-free
      prefix `a`, the section ends where the depth count closes it. */
  lemma StripAfterOpening(html: string, a: string, name: string, e: nat)
    requires |a| + |ClassAttr(name)| + 6 <= |html|
    requires html[..|a| + |ClassAttr(name)| + 6] == a + ("<div " + ClassAttr(name) + ">")
    requires '<' !in a
    requires CloseFrom(html, |a| + |ClassAttr(name)| + 6, 1) == Some(e)
    ensures StripSection(html, name) == a + html[e..]
  {
    var p := |a|;
    var g := p + 5 + |ClassAttr(name)|;
    PieceAt(html, a, "<div " + ClassAttr(name) + ">");
    SectionOpening(html, a, name);
    NoEarlierSection(html, a, name);
    assert CloseFrom(html, g + 1, 1) == Some(e);
    StripFound(html, name, p, p + 5, g, e);
  }

  /** No `<` in `s[i..j]`. */
  predicate Plain(s: string, i: nat, j: nat) {
    j <= |s| && forall k :: i <= k < j ==> s[k] != '<'
  }

  /** The scan over a nested `div` holding plain text, followed by the
      closing tag of the enclosing section. */
  lemma ScanNested(s: string, i: nat, i1: nat, i2: nat, i3: nat)
    requires i <= i1 && i1 + 5 <= i2 && i2 + 6 <= i3 && i3 + 6 <= |s|
    requires Plain(s, i, i1) && s[i1..i1 + 5] == "<div>"
    requires Plain(s, i1 + 5, i2) && s[i2..i2 + 6] == "</div>"
    requires Plain(s, i2 + 6, i3) && s[i3..i3 + 6] == "</div>"
    ensures CloseFrom(s, i, 1) == Some(i3 + 6)
  {
    ScanPlain(s, i, i1, 1);
    ScanOpen(s, i1, 1);
    var t := s[i1..i1 + 5];
    assert s[i1 + 1] == t[1] && s[i1 + 2] == t[2] && s[i1 + 3] == t[3] && s[i1 + 4] == t[4];
    ScanPlain(s, i1 + 1, i2, 2);
    ScanClose(s, i2, 2);
    ScanPlain(s, i2 + 6, i3, 1);
    ScanClose(s, i3, 1);
  }

  /** Where the last piece of a written-out prefix sits, and the prefix
      before it. */
  lemma PieceAt(s: string, u: string, x: string)
    requires |u| + |x| <= |s| && s[..|u| + |x|] == u + x
    ensures s[..|u|] == u
    ensures s[|u|..|u| + |x|] == x
    ensures '<' !in x ==> Plain(s, |u|, |u| + |x|)
  {
    assert forall k :: |u| <= k < |u| + |x| ==> s[k] == (u + x)[k] == x[k - |u|];
    assert forall k :: 0 <= k < |u| ==> s[k] == (u + x)[k] == u[k];
  }

  /** The depth count runs through a written-out piece without `<`. */
  lemma StepPlain(s: string, u: string, x: string, depth: nat)
    requires |u| + |x| <= |s| && s[..|u| + |x|] == u + x && '<' !in x && depth >= 1
    ensures s[..|u|] == u
    ensures CloseFrom(s, |u|, depth) == CloseFrom(s, |u| + |x|, depth)
  {
    PieceAt(s, u, x);
    ScanPlain(s, |u|, |u| + |x|, depth);
  }

  /** A written-out `</div>` lowers the depth count by one, and ends the
      scan when it reaches zero. */
  lemma StepClose(s: string, u: string, depth: nat)
    requires |u| + 6 <= |s| && s[..|u| + 6] == u + "</div>" && depth >= 1
    ensures s[..|u|] == u
    ensures CloseFrom(s, |u|, depth) == if depth == 1 then Some(|u| + 6) else CloseFrom(s, |u| + 6, depth - 1)
  {
    PieceAt(s, u, "</div>");
    ScanClose(s, |u|, depth);
  }

  /** A section holding a nested `div` is cut out whole, nested `div`
      included. */
  lemma StripNested(html: string, a: string, name: string, x: string, y: string, z: string, b: string)
    requires html == a + ("<div " + ClassAttr(name) + ">") + x + "<div>" + y + "</div>" + z + "</div>" + b
    requires '<' !in a && '<' !in x && '<' !in y && '<' !in z
    ensures StripSection(html, name) == a + b
  {
    var open := "<div " + ClassAttr(name) + ">";
    var i := |a| + |open|;
    var i1 := i + |x|;
    var i2 := i1 + 5 + |y|;
    var i3 := i2 + 6 + |z|;
    NestedLayout(html, a, open, x, y, z, b, i, i1, i2, i3);
    ScanNested(html, i, i1, i2, i3);
    StripAfterOpening(html, a, name, i3 + 6);
  }

  /** Where the pieces of a section holding one nested block lie. */
  lemma NestedLayout(html: string, a: string, open: string, x: string, y: string, z: string, b: string,
                     i: nat, i1: nat, i2: nat, i3: nat)
    requires html == a + open + x + "<div>" + y + "</div>" + z + "</div>" + b
    requires '<' !in x && '<' !in y && '<' !in z
    requires i == |a| + |open| && i1 == i + |x| && i2 == i1 + 5 + |y| && i3 == i2 + 6 + |z|
    ensures i <= |html| && html[..i] == a + open
    ensures i3 + 6 <= |html| && html[i3 + 6..] == b
    ensures Plain(html, i, i1) && html[i1..i1 + 5] == "<div>"
    ensures Plain(html, i1 + 5, i2) && html[i2..i2 + 6] == "</div>"
    ensures Plain(html, i2 + 6, i3) && html[i3..i3 + 6] == "</div>"
  {
    var u1 := a + open;
    var u2 := u1 + x;
    var u3 := u2 + "<div>";
    var u4 := u3 + y;
    var u5 := u4 + "</div>";
    var u6 := u5 + z;
    var u7 := u6 + "</div>";
    assert html[..|u7|] == u7;
    assert html[|u7|..] == b;
    PieceAt(html, u6, "</div>");
    PieceAt(html, u5, z);
    NestedInner(html, u2, y, i1, i2);
    PieceAt(html, u1, x);
  }

  /** Where the pieces of a nested `div` holding plain text lie. */
  lemma NestedInner(s: string, u: string, y: string, i1: nat, i2: nat)
    requires |u| + 11 + |y| <= |s| && s[..|u| + 11 + |y|] == u + "<div>" + y + "</div>"
    requires '<' !in y && i1 == |u| && i2 == i1 + 5 + |y|
    ensures s[..i1] == u && s[i1..i1 + 5] == "<div>"
    ensures Plain(s, i1 + 5, i2) && s[i2..i2 + 6] == "</div>"
  {
    var u3 := u + "<div>";
    var u4 := u3 + y;
    PieceAt(s, u4, "</div>");
    PieceAt(s, u3, y);
    PieceAt(s, u, "<div>");
  }

  /** The comment that marks the start of a lesson page's footer. */
  const FooterMarker: string := "<!-- FOOTER -->"

  /** `html.replace(/<!-- FOOTER -->[\s\S]*$/i, "")`: everything from the
      first marker, in any case, to the end is dropped. */
  function CutFooter(html: string): (r: string)
    ensures |r| <= |html| && r == html[..|r|]
    ensures r == html <==> forall k: nat :: !MatchesAtCI(html, k, FooterMarker)
    ensures r != html ==> MatchesAtCI(html, |r|, FooterMarker)
    ensures forall k: nat :: k < |r| ==> !MatchesAtCI(html, k, FooterMarker)
  {
    var k := IndexOfCIFrom(html, FooterMarker, 0);
    if k == -1 then html else html[..k]
  }

  /** No marker is left once the footer is cut. */
  lemma FooterGone(html: string)
    ensures forall k: nat :: !MatchesAtCI(CutFooter(html), k, FooterMarker)
  {
    var r := CutFooter(html);
    forall k: nat | MatchesAtCI(r, k, FooterMarker)
      ensures false
    {
      MatchInSlice(html, 0, |r|, k, FooterMarker);
    }
  }

  /** Cutting the footer twice cuts nothing more. */
  lemma CutFooterIdempotent(html: string)
    ensures CutFooter(CutFooter(html)) == CutFooter(html)
  {
    FooterGone(html);
  }

  /** Trimming cannot bring a marker back. */
  lemma TrimKeepsNoMarker(s: string)
    requires forall k: nat :: !MatchesAtCI(s, k, FooterMarker)
    ensures forall k: nat :: !MatchesAtCI(Trim(s), k, FooterMarker)
  {
    TrimKeepsNoMatchCI(s, FooterMarker);
  }

  /** The content a lesson page is rendered from: HTML with its scoped CSS,
      or the path of a PDF. */
  datatype LessonContent = HtmlContent(css: string, html: string) | PdfContent(filePath: string)

  /** The captured text of the first `TAG` element, `""` when there is none. */
  function TagContentOrEmpty(s: string, tag: string): (r: string)
    ensures TagContent(s, tag).Some? ==> r == TagContent(s, tag).value
    ensures TagContent(s, tag).None? ==> r == ""
  {
    match TagContent(s, tag)
    case Some(t) => t
    case None => ""
  }

  /** The body once the container is unwrapped and the sections rendered
      elsewhere (header, goals box, homework) are cut. */
  function StripSections(body: string): (r: string)
    ensures |r| <= |body|
  {
    StripSection(StripSection(StripSection(Unwrap(body), "header"), "goals-box"), "homework")
  }

  /** `parseHtmlContent`: the scoped CSS of the first `<style>` element and
      the trimmed body without the container, the three sections and the
      footer. */
  function ParseHtmlContent(raw: string): (r: LessonContent)
    ensures r.HtmlContent?
    ensures Unpadded(r.css) && Unpadded(r.html)
    ensures forall k: nat :: !MatchesAtCI(r.html, k, FooterMarker)
    ensures |r.html| <= |TagContentOrEmpty(raw, "body")|
    ensures r.css == ScopeCssWith(AsWritten, TagContentOrEmpty(raw, "style"))
    ensures r.html == Trim(CutFooter(StripSections(TagContentOrEmpty(raw, "body"))))
  {
    var html := CutFooter(StripSections(TagContentOrEmpty(raw, "body")));
    FooterGone(StripSections(TagContentOrEmpty(raw, "body")));
    TrimKeepsNoMarker(html);
    TrimShorter(html);
    HtmlContent(ScopeCssWith(AsWritten, TagContentOrEmpty(raw, "style")), Trim(html))
  }

  /** Trimming never lengthens. */
  lemma TrimShorter(s: string)
    ensures |Trim(s)| <= |s|
  {
  }

  /** Without a `<style>` element the CSS is empty. */
  lemma ParseWithoutStyle(raw: string)
    requires forall p: nat :: TagAt(raw, "style", p).None?
    ensures ParseHtmlContent(raw).css == ""
  {
    RulelessCss(AsWritten, "");
    TrimShorter(RemoveAll("", ImportRule));
  }

  /** Without a `<body>` element the HTML is empty. */
  lemma ParseWithoutBody(raw: string)
    requires forall p: nat :: TagAt(raw, "body", p).None?
    ensures ParseHtmlContent(raw).html == ""
  {
  }

  /** A pattern that starts with `<` cannot match text without one, in any
      case. */
  lemma NoAngleNoMatch(s: string, pat: string)
    requires '<' !in s && |pat| > 0 && pat[0] == '<'
    ensures forall k: nat :: !MatchesAtCI(s, k, pat)
  {
    forall k: nat
      ensures !MatchesAtCI(s, k, pat)
    {
      assert MatchesAtCI(s, k, pat) ==> k < |s| && FoldCase(s[k + 0]) == FoldCase(pat[0]);
    }
  }

  /** A body of plain text, without any tag, passes through untouched but
      for the trimming. */
  lemma PlainBodyKept(raw: string, body: string)
    requires TagContent(raw, "body") == Some(body) && '<' !in body
    ensures ParseHtmlContent(raw).html == Trim(body)
  {
    assert TagContentOrEmpty(raw, "body") == body;
    PlainSectionsKept(body);
    NoAngleNoMatch(body, FooterMarker);
    assert CutFooter(body) == body;
  }

  /** Text without any tag has no container to unwrap and no section to
      cut. */
  lemma PlainSectionsKept(body: string)
    requires '<' !in body
    ensures StripSections(body) == body
  {
    NoAngleNoMatch(body, ContainerOpen);
    UnwrapUnmatched(body);
    NoAngleNoMatch(body, "<div");
    forall name: string, p: nat
      ensures SectionOpenAt(body, name, p).None?
    {
    }
    StripUnmatched(body, "header");
    StripUnmatched(body, "goals-box");
    StripUnmatched(body, "homework");
  }

  /** `join(LESSONS_DIR, lesson.contentFile)`: the content file under the
      lessons directory `dir` (the path is not normalised). */
  function LessonFilePath(dir: string, lesson: Lesson): (r: string)
    ensures |r| == |dir| + 1 + |lesson.contentFile|
    ensures r[..|dir|] == dir && r[|dir|] == '/' && r[|dir| + 1..] == lesson.contentFile
  {
    dir + "/" + lesson.contentFile
  }

  /** `readLessonContent`. Reading the file is left to the caller: `raw` is
      the file's text, or `None` when it cannot be read. A lesson without a
      content file, a failed read of an HTML file and a markdown lesson all
      give no content. */
  function ReadLessonContent(lesson: Lesson, dir: string, raw: Option<string>): (r: Option<LessonContent>)
    ensures lesson.contentFile == [] ==> r.None?
    ensures lesson.contentType == Markdown ==> r.None?
    ensures r.Some? && r.value.PdfContent? <==> lesson.contentFile != [] && lesson.contentType == Pdf
    ensures r.Some? && r.value.HtmlContent? <==> lesson.contentFile != [] && lesson.contentType == Html && raw.Some?
    ensures r.Some? && r.value.PdfContent? ==> r.value.filePath == LessonFilePath(dir, lesson)
    ensures r.Some? && r.value.HtmlContent? ==> r.value == ParseHtmlContent(raw.value)
  {
    if lesson.contentFile == [] then None
    else
      match lesson.contentType
      case Pdf => Some(PdfContent(LessonFilePath(dir, lesson)))
      case Html => (match raw case Some(text) => Some(ParseHtmlContent(text)) case None => None)
      case Markdown => None
  }
}
