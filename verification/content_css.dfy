/** The CSS half of the lesson-content extractor (`scopeCss` and
    `scopeSelector` in lib/content.ts): four global rule removals, then a
    line-by-line pass that nests every rule's selectors under the content
    class while tracking `@media` blocks by brace depth. */
module CssScope {
  import opened Wrappers
  import opened Text

  /** The class kept selectors are nested under. */
  const ScopeClass: string := ".lesson-content"

  /** The four removal patterns, applied in this order. */
  datatype Removal = ImportRule | RootBlock | StarBlock | BodyBlock

  /** `HEAD\s*\{[^}]*\}` occupies `s[p..e]`, with its opening brace at `q`. */
  predicate BlockShape(s: string, p: nat, head: string, q: nat, e: nat) {
    && MatchesAt(s, p, head)
    && p + |head| <= q && q + 1 < e <= |s|
    && AllSpace(s[p + |head|..q])
    && s[q] == '{'
    && s[e - 1] == '}'
    && '}' !in s[q + 1..e - 1]
  }

  /** The end of the match of `HEAD\s*\{[^}]*\}` at `p`: there is one exactly
      when the text at `p` has that shape, and then it ends at the first
      closing brace. */
  function BlockEnd(s: string, p: nat, head: string): (r: Option<nat>)
    requires |head| > 0 && !IsSpace(head[0]) && '{' !in head
    ensures r.Some? ==> exists q :: BlockShape(s, p, head, q, r.value)
    ensures forall q: nat, e: nat :: BlockShape(s, p, head, q, e) ==> r == Some(e)
  {
    if !MatchesAt(s, p, head) then None
    else
      var q := SkipSpaces(s, p + |head|);
      if q < |s| && s[q] == '{' then
        var c := IndexOfCharFrom(s, '}', q + 1);
        if c == -1 then None
        else
          assert forall k :: q + 1 <= k < c ==> s[q + 1..c][k - q - 1] == s[k];
          assert BlockShape(s, p, head, q, c + 1);
          BlockShapeUnique(s, p, head, q, c + 1);
          Some(c + 1)
      else
        BlockShapeAbsent(s, p, head, q);
        None
  }

  lemma BlockShapeUnique(s: string, p: nat, head: string, q: nat, e: nat)
    requires BlockShape(s, p, head, q, e)
    ensures forall q': nat, e': nat :: BlockShape(s, p, head, q', e') ==> q' == q && e' == e
  {
    forall q': nat, e': nat | BlockShape(s, p, head, q', e')
      ensures q' == q && e' == e
    {
      SpaceRunEnds(s, p + |head|, q, q');
      FirstOccurrence(s, q + 1, e - 1, e' - 1, '}');
    }
  }

  lemma BlockShapeAbsent(s: string, p: nat, head: string, q: nat)
    requires MatchesAt(s, p, head) && p + |head| <= |s|
    requires q == SkipSpaces(s, p + |head|)
    requires !(q < |s| && s[q] == '{')
    ensures forall q': nat, e: nat :: !BlockShape(s, p, head, q', e)
  {
    forall q': nat, e: nat | BlockShape(s, p, head, q', e)
      ensures false
    {
      SpaceRunEnds(s, p + |head|, q, q');
    }
  }

  /** `@import\s+url\([^)]+\)\s*;` occupies `s[p..e]`, with `url(` at `q`
      and the closing parenthesis at `c`. */
  predicate ImportShape(s: string, p: nat, q: nat, c: nat, e: nat) {
    && MatchesAt(s, p, "@import")
    && p + 7 < q && q + 4 < c && c + 1 < e <= |s|
    && AllSpace(s[p + 7..q])
    && MatchesAt(s, q, "url(")
    && s[c] == ')' && ')' !in s[q + 4..c]
    && AllSpace(s[c + 1..e - 1])
    && s[e - 1] == ';'
  }

  /** The end of the match of `@import\s+url\([^)]+\)\s*;` at `p`: there is
      one exactly when the text at `p` has that shape. */
  function ImportEnd(s: string, p: nat): (r: Option<nat>)
    ensures r.Some? ==> exists q, c :: ImportShape(s, p, q, c, r.value)
    ensures forall q: nat, c: nat, e: nat :: ImportShape(s, p, q, c, e) ==> r == Some(e)
  {
    if !MatchesAt(s, p, "@import") then None
    else
      var q := SkipSpaces(s, p + 7);
      var c := if MatchesAt(s, q, "url(") then IndexOfCharFrom(s, ')', q + 4) else -1;
      var w := if c > q + 4 then SkipSpaces(s, c + 1) else |s|;
      ImportShapeDetermined(s, p, q, c, w);
      if q > p + 7 && c > q + 4 && w < |s| && s[w] == ';' then
        assert forall k :: q + 4 <= k < c ==> s[q + 4..c][k - q - 4] == s[k];
        assert ImportShape(s, p, q, c, w + 1);
        Some(w + 1)
      else None
  }

  /** Every part of an import match is found where `ImportEnd` looks. */
  lemma ImportShapeDetermined(s: string, p: nat, q: nat, c: int, w: nat)
    requires MatchesAt(s, p, "@import")
    requires q == SkipSpaces(s, p + 7)
    requires c == if MatchesAt(s, q, "url(") then IndexOfCharFrom(s, ')', q + 4) else -1
    requires w == if c > q + 4 then SkipSpaces(s, c + 1) else |s|
    ensures forall q': nat, c': nat, e': nat :: ImportShape(s, p, q', c', e') ==>
              q' == q && c' == c && e' == w + 1 && q > p + 7 && c > q + 4 && w < |s| && s[w] == ';'
  {
    forall q': nat, c': nat, e': nat | ImportShape(s, p, q', c', e')
      ensures q' == q && c' == c && e' == w + 1 && q > p + 7 && c > q + 4 && w < |s| && s[w] == ';'
    {
      ImportShapeIs(s, p, q, c, w, q', c', e');
    }
  }

  /** One import match has the parts `ImportEnd` finds. */
  lemma ImportShapeIs(s: string, p: nat, q: nat, c: int, w: nat, q': nat, c': nat, e': nat)
    requires MatchesAt(s, p, "@import")
    requires q == SkipSpaces(s, p + 7)
    requires c == if MatchesAt(s, q, "url(") then IndexOfCharFrom(s, ')', q + 4) else -1
    requires w == if c > q + 4 then SkipSpaces(s, c + 1) else |s|
    requires ImportShape(s, p, q', c', e')
    ensures q' == q && c' == c && e' == w + 1 && q > p + 7 && c > q + 4 && w < |s| && s[w] == ';'
  {
    ImportUrlIs(s, p, q, c, q', c', e');
    SpaceRunEnds(s, c + 1, w, e' - 1);
  }

  /** One import match has its `url(` and its closing parenthesis where
      `ImportEnd` looks. */
  lemma ImportUrlIs(s: string, p: nat, q: nat, c: int, q': nat, c': nat, e': nat)
    requires MatchesAt(s, p, "@import")
    requires q == SkipSpaces(s, p + 7)
    requires c == if MatchesAt(s, q, "url(") then IndexOfCharFrom(s, ')', q + 4) else -1
    requires ImportShape(s, p, q', c', e')
    ensures q' == q && c' == c
  {
    assert s[q'] == 'u';
    SpaceRunEnds(s, p + 7, q, q');
    CharFoundFrom(s, ')', q + 4, c');
    FirstOccurrence(s, q + 4, c, c', ')');
  }

  /** Where the removal pattern's match starting at `p` ends, if it matches
      there; a match is never empty. */
  function RemovalEnd(s: string, rule: Removal, p: nat): (r: Option<nat>)
    ensures r.Some? ==> p < r.value <= |s|
  {
    match rule
    case ImportRule => ImportEnd(s, p)
    case RootBlock => BlockEnd(s, p, ":root")
    case StarBlock => BlockEnd(s, p, "*")
    case BodyBlock => BlockEnd(s, p, "body")
  }

  /** No match of the removal pattern starts at or after `i`. */
  predicate MatchFree(s: string, rule: Removal, i: nat) {
    forall p :: i <= p < |s| ==> RemovalEnd(s, rule, p).None?
  }

  /** `s.replace(/pattern/g, "")` from index `i` on: scanning left to right, a
      match starting at the current position is dropped and the scan resumes
      after it; any other character is kept. Nothing changes exactly when no
      match starts anywhere, and otherwise the text gets shorter. */
  function RemoveFrom(s: string, rule: Removal, i: nat): (r: string)
    requires i <= |s|
    ensures |r| <= |s| - i
    ensures MatchFree(s, rule, i) ==> r == s[i..]
    ensures |r| == |s| - i ==> MatchFree(s, rule, i)
    decreases |s| - i
  {
    if i == |s| then ""
    else
      match RemovalEnd(s, rule, i)
      case Some(e) =>
        assert !MatchFree(s, rule, i);
        RemoveFrom(s, rule, e)
      case None =>
        var rest := RemoveFrom(s, rule, i + 1);
        assert s[i..] == [s[i]] + s[i + 1..];
        assert MatchFree(s, rule, i + 1) ==> MatchFree(s, rule, i);
        [s[i]] + rest
  }

  /** `s.replace(/pattern/g, "")`. */
  function RemoveAll(s: string, rule: Removal): (r: string)
    ensures |r| <= |s|
    ensures r == s <==> MatchFree(s, rule, 0)
  {
    RemoveFrom(s, rule, 0)
  }

  /** What the pass removes, for every input: from `i`, the characters up to
      the leftmost match (at `p`) are kept, that match is dropped whole, and
      the pass resumes right after it, so matches never overlap. */
  lemma {:induction false} RemoveLeftmost(s: string, rule: Removal, i: nat, p: nat, e: nat)
    requires i <= p < |s|
    requires forall q :: i <= q < p ==> RemovalEnd(s, rule, q).None?
    requires RemovalEnd(s, rule, p) == Some(e)
    ensures RemoveFrom(s, rule, i) == s[i..p] + RemoveFrom(s, rule, e)
    decreases p - i
  {
    if i < p {
      RemoveLeftmost(s, rule, i + 1, p, e);
      KeepBeforeMatch(s, rule, i, p, e);
    } else {
      RemoveFromStep(s, rule, i);
      assert s[i..p] == [];
    }
  }

  /** A character where no match starts is kept in front of the rest. */
  lemma KeepBeforeMatch(s: string, rule: Removal, i: nat, p: nat, e: nat)
    requires i < p <= |s| && e <= |s| && RemovalEnd(s, rule, i).None?
    requires RemoveFrom(s, rule, i + 1) == s[i + 1..p] + RemoveFrom(s, rule, e)
    ensures RemoveFrom(s, rule, i) == s[i..p] + RemoveFrom(s, rule, e)
  {
    RemoveFromStep(s, rule, i);
    ConsSlice(s, i, p, RemoveFrom(s, rule, e));
  }

  /** A slice is its first character followed by the remainder. */
  lemma ConsSlice(s: string, i: nat, p: nat, later: string)
    requires i < p <= |s|
    ensures [s[i]] + (s[i + 1..p] + later) == s[i..p] + later
  {
    assert s[i..p] == [s[i]] + s[i + 1..p];
  }

  /** `s.replace(/pattern/g, "")` keeps the text before the leftmost match,
      drops the match, and goes on after it. */
  lemma RemoveAllLeftmost(s: string, rule: Removal, p: nat, e: nat)
    requires p < |s|
    requires forall q :: 0 <= q < p ==> RemovalEnd(s, rule, q).None?
    requires RemovalEnd(s, rule, p) == Some(e)
    ensures RemoveAll(s, rule) == s[..p] + RemoveFrom(s, rule, e)
  {
    RemoveLeftmost(s, rule, 0, p, e);
  }

  /** The removals are one left-to-right pass: deleting a match can bring
      together text that forms a new one, which stays. */
  lemma RemovalIsSinglePass(s: string)
    requires s == "bobody{}dy{}"
    ensures RemoveAll(s, BodyBlock) == "body{}"
  {
    SinglePassFromMatch(s);
    SinglePassBeforeMatch(s);
    SinglePassJoin(s);
  }

  lemma SinglePassJoin(s: string)
    requires s == "bobody{}dy{}"
    ensures [s[0], s[1]] + "dy{}" == "body{}"
  {
  }

  lemma SinglePassFromMatch(s: string)
    requires s == "bobody{}dy{}"
    ensures RemoveFrom(s, BodyBlock, 2) == "dy{}"
  {
    SinglePassTail(s);
    SinglePassMatch(s);
    RemoveFromStep(s, BodyBlock, 2);
  }

  lemma SinglePassBeforeMatch(s: string)
    requires s == "bobody{}dy{}"
    ensures RemoveFrom(s, BodyBlock, 0) == [s[0], s[1]] + RemoveFrom(s, BodyBlock, 2)
  {
    SinglePassHead(s);
    RemoveFromStep(s, BodyBlock, 0);
    RemoveFromStep(s, BodyBlock, 1);
  }

  /** One step of the removal scan. */
  lemma RemoveFromStep(s: string, rule: Removal, i: nat)
    requires i < |s|
    ensures RemovalEnd(s, rule, i).None? ==> RemoveFrom(s, rule, i) == [s[i]] + RemoveFrom(s, rule, i + 1)
    ensures RemovalEnd(s, rule, i).Some? ==> RemoveFrom(s, rule, i) == RemoveFrom(s, rule, RemovalEnd(s, rule, i).value)
  {
  }

  lemma SinglePassTail(s: string)
    requires s == "bobody{}dy{}"
    ensures RemoveFrom(s, BodyBlock, 8) == "dy{}"
  {
    forall p | 8 <= p < |s|
      ensures RemovalEnd(s, BodyBlock, p).None?
    {
      assert s[p] != 'b';
    }
    assert MatchFree(s, BodyBlock, 8);
  }

  lemma SinglePassMatch(s: string)
    requires s == "bobody{}dy{}"
    ensures RemovalEnd(s, BodyBlock, 2) == Some(8)
  {
    assert s[2..6] == "body";
    assert BlockShape(s, 2, "body", 6, 8);
  }

  lemma SinglePassHead(s: string)
    requires s == "bobody{}dy{}"
    ensures RemovalEnd(s, BodyBlock, 0).None? && RemovalEnd(s, BodyBlock, 1).None?
  {
    assert s[1] != 'b';
    assert s[2] != "body"[2];
  }

  /** The selectors `scopeSelector` leaves alone. */
  predicate Exempt(selector: string) {
    selector == "body" || selector == "html" || selector == "*" || StartsWith(selector, ":root")
  }

  /** One comma-separated selector, trimmed and nested under the class. */
  function ScopePiece(piece: string): string {
    ScopeClass + " " + Trim(piece)
  }

  /** `out` is `selector` with each comma-separated piece trimmed and nested
      under the class: splitting `out` on commas gives the scoped pieces in
      order, every one after the first led by the space of the `, `
      separator. */
  predicate ScopesPieces(out: string, selector: string) {
    var pieces := Split(selector, ',');
    var outs := Split(out, ',');
    && |outs| == |pieces|
    && outs[0] == ScopePiece(pieces[0])
    && forall i :: 1 <= i < |outs| ==> outs[i] == " " + ScopePiece(pieces[i])
  }

  /** `pieces.map((s) => `.lesson-content ${s.trim()}`)`. */
  function ScopeAll(pieces: seq<string>): (r: seq<string>)
    ensures |r| == |pieces|
    ensures forall i :: 0 <= i < |pieces| ==> r[i] == ScopePiece(pieces[i])
  {
    if |pieces| == 0 then []
    else [ScopePiece(pieces[0])] + ScopeAll(pieces[1..])
  }

  /** `selector.split(",").map((s) => `.lesson-content ${s.trim()}`).join(", ")`. */
  function ScopedList(selector: string): string {
    Join(ScopeAll(Split(selector, ',')), ", ")
  }

  /** The scoped list holds the selector's pieces, scoped, in order, and adds
      no opening brace. */
  lemma ScopedListPieces(selector: string)
    ensures ScopesPieces(ScopedList(selector), selector)
    ensures '{' !in selector ==> '{' !in ScopedList(selector)
  {
    var scoped := ScopeAll(Split(selector, ','));
    ScopedListSplits(selector, scoped);
    ScopedListAvoidsBrace(selector, scoped);
  }

  lemma ScopedListSplits(selector: string, scoped: seq<string>)
    requires scoped == ScopeAll(Split(selector, ','))
    ensures ScopesPieces(Join(scoped, ", "), selector)
  {
    ScopedPiecesSplit(Split(selector, ','), scoped);
  }

  lemma ScopedPiecesSplit(pieces: seq<string>, scoped: seq<string>)
    requires |pieces| >= 1 && forall i :: 0 <= i < |pieces| ==> ',' !in pieces[i]
    requires scoped == ScopeAll(pieces)
    ensures var outs := Split(Join(scoped, ", "), ',');
      && |outs| == |pieces|
      && outs[0] == ScopePiece(pieces[0])
      && forall i :: 1 <= i < |outs| ==> outs[i] == " " + ScopePiece(pieces[i])
  {
    ScopedPiecesAvoid(pieces, ',');
    SplitJoin(scoped, ',', " ", ", ");
  }

  lemma ScopedListAvoidsBrace(selector: string, scoped: seq<string>)
    requires scoped == ScopeAll(Split(selector, ','))
    ensures '{' !in selector ==> '{' !in Join(scoped, ", ")
  {
    if '{' !in selector {
      SplitKeepsAbsent(selector, ',', '{');
      ScopedPiecesAvoidBrace(Split(selector, ','), scoped);
    }
  }

  lemma ScopedPiecesAvoidBrace(pieces: seq<string>, scoped: seq<string>)
    requires forall i :: 0 <= i < |pieces| ==> '{' !in pieces[i]
    requires scoped == ScopeAll(pieces)
    ensures '{' !in Join(scoped, ", ")
  {
    ScopedPiecesAvoid(pieces, '{');
    JoinKeepsAbsent(scoped, ", ", '{');
  }

  /** Scoping a piece adds neither a comma nor an opening brace. */
  lemma ScopedPiecesAvoid(pieces: seq<string>, c: char)
    requires c == ',' || c == '{'
    requires forall i :: 0 <= i < |pieces| ==> c !in pieces[i]
    ensures forall i :: 0 <= i < |pieces| ==> c !in ScopePiece(pieces[i])
  {
    forall i | 0 <= i < |pieces|
      ensures c !in ScopePiece(pieces[i])
    {
      PieceAvoids(pieces[i], c);
    }
  }

  lemma PieceAvoids(piece: string, c: char)
    requires c == ',' || c == '{'
    requires c !in piece
    ensures c !in ScopePiece(piece)
  {
    TrimKeepsAbsent(piece, c);
    PrefixAvoids(ScopeClass + " ", c);
    AbsentInConcat(ScopeClass + " ", Trim(piece), c);
  }

  /** The class prefix holds neither a comma nor an opening brace. */
  lemma PrefixAvoids(prefix: string, c: char)
    requires prefix == ScopeClass + " " && (c == ',' || c == '{')
    ensures c !in prefix
  {
    assert forall k :: 0 <= k < |prefix| ==> prefix[k] != c;
  }

  /** `scopeSelector`. */
  function ScopeSelector(line: string): string {
    var b := IndexOfChar(line, '{');
    if b == -1 then line
    else
      var selector := Trim(line[..b]);
      if Exempt(selector) then line
      else ScopedList(selector) + " " + line[b..]
  }

  /** A line with a brace and a selector that is not exempt gets every
      comma-separated selector before its first brace trimmed and nested
      under the class, followed by one space and the line from the brace
      on, unchanged; any other line is returned as it is. */
  lemma ScopeSelectorShape(line: string)
    ensures '{' !in line ==> ScopeSelector(line) == line
    ensures '{' in line && Exempt(Trim(line[..IndexOfChar(line, '{')])) ==> ScopeSelector(line) == line
    ensures '{' in line && !Exempt(Trim(line[..IndexOfChar(line, '{')])) ==>
              exists sel :: ScopeSelector(line) == sel + " " + line[IndexOfChar(line, '{')..] && '{' !in sel
                         && ScopesPieces(sel, Trim(line[..IndexOfChar(line, '{')]))
  {
    var b := IndexOfChar(line, '{');
    if b != -1 {
      var selector := Trim(line[..b]);
      TrimKeepsAbsent(line[..b], '{');
      ScopedListPieces(selector);
    }
  }

  /** What the line loop carries from one line to the next. */
  datatype MediaState = MediaState(inMedia: bool, depth: int)

  /** How a line opening an `@media` block sets the brace depth: as written,
      the depth starts at 0 and the line's own brace is not counted;
      counting it is the correction described in the README. */
  datatype MediaEntry = AsWritten | BraceCounted

  /** Opening braces minus closing braces on a line. */
  function BraceBalance(t: string): int {
    CountChar(t, '{') - CountChar(t, '}')
  }

  /** The state after a line (trimmed `t`) that opens an `@media` block. */
  function EnterMedia(entry: MediaEntry, t: string): MediaState {
    match entry
    case AsWritten => MediaState(true, 0)
    case BraceCounted =>
      if CountChar(t, '{') > 0 then MediaState(BraceBalance(t) > 0, BraceBalance(t))
      else MediaState(true, 0)
  }

  /** What one pass of the loop body decides for a line: the state after
      it, and whether the line is pushed through `scopeSelector`. */
  datatype Step = Step(next: MediaState, scoped: bool)

  /** A trimmed line the loop scopes outside an `@media` block: it holds an
      opening brace and starts with neither a closing brace, a comment nor
      an at-rule. */
  predicate TopLevelRule(t: string) {
    '{' in t && !StartsWith(t, "}") && !StartsWith(t, "/*") && !StartsWith(t, "@")
  }

  /** One pass of the loop body of `scopeCss`, from the trimmed line `t`.
      An `@media` line is kept and enters the block. Outside a block the
      state carries over and a line is scoped exactly when it is a
      top-level rule. Inside a block the depth moves by the line's brace
      balance, the block ends when it drops to 0 or below (that line is
      kept), and otherwise a line is scoped exactly when it holds an
      opening brace and does not start with a closing one. */
  function LineStep(entry: MediaEntry, st: MediaState, t: string): (r: Step)
    ensures r.scoped ==> '{' in t && !StartsWith(t, "}") && !StartsWith(t, "@media")
    ensures !st.inMedia && (StartsWith(t, "@") || StartsWith(t, "/*")) ==> !r.scoped
    ensures StartsWith(t, "@media") ==> r == Step(EnterMedia(entry, t), false)
    ensures !st.inMedia && !StartsWith(t, "@media") ==> r.next == st && (r.scoped <==> TopLevelRule(t))
    ensures st.inMedia && !StartsWith(t, "@media") ==>
      r.next.depth == st.depth + BraceBalance(t) && (r.next.inMedia <==> r.next.depth > 0)
    ensures st.inMedia && !StartsWith(t, "@media") ==>
      (r.scoped <==> r.next.inMedia && '{' in t && !StartsWith(t, "}"))
  {
    if StartsWith(t, "@media") then Step(EnterMedia(entry, t), false)
    else if StartsWith(t, "@") && !st.inMedia then Step(st, false)
    else if st.inMedia then
      var depth := st.depth + BraceBalance(t);
      if depth <= 0 then Step(MediaState(false, depth), false)
      else Step(MediaState(true, depth), '{' in t && !StartsWith(t, "}"))
    else Step(st, '{' in t && !StartsWith(t, "}") && !StartsWith(t, "/*"))
  }

  /** A trimmed line the loop may scope: it holds an opening brace and
      neither starts with a closing brace nor opens an `@media` block. */
  predicate Scopable(t: string) {
    '{' in t && !StartsWith(t, "}") && !StartsWith(t, "@media")
  }

  /** The decisions of the line loop of `scopeCss` over the trimmed lines
      `ts`, from state `st`: for each line, whether it is pushed through
      `scopeSelector` (`DecisionsScopable`: only a scopable line ever is). */
  function Decisions(entry: MediaEntry, st: MediaState, ts: seq<string>): (r: seq<bool>)
    ensures |r| == |ts|
    decreases |ts|
  {
    if |ts| == 0 then []
    else
      var step := LineStep(entry, st, ts[0]);
      [step.scoped] + Decisions(entry, step.next, ts[1..])
  }

  /** Up to the first `@media` line, outside a block, the loop scopes
      exactly the top-level rules, whatever follows. */
  lemma {:induction false} TopLevelDecisions(entry: MediaEntry, st: MediaState, ts: seq<string>, i: nat)
    requires !st.inMedia && i < |ts|
    requires forall j :: 0 <= j <= i ==> !StartsWith(ts[j], "@media")
    ensures Decisions(entry, st, ts)[i] == TopLevelRule(ts[i])
    decreases i
  {
    var step := LineStep(entry, st, ts[0]);
    assert Decisions(entry, st, ts) == [step.scoped] + Decisions(entry, step.next, ts[1..]);
    if i > 0 {
      assert ts[1..][i - 1] == ts[i];
      TopLevelDecisions(entry, step.next, ts[1..], i - 1);
    }
  }

  /** Only a scopable line is ever scoped. */
  lemma {:induction false} DecisionsScopable(entry: MediaEntry, st: MediaState, ts: seq<string>)
    ensures forall i :: 0 <= i < |ts| && Decisions(entry, st, ts)[i] ==> Scopable(ts[i])
    decreases |ts|
  {
    if |ts| > 0 {
      var step := LineStep(entry, st, ts[0]);
      DecisionsScopable(entry, step.next, ts[1..]);
      assert forall i :: 1 <= i < |ts| ==> ts[i] == ts[1..][i - 1];
    }
  }

  function Trimmed(lines: seq<string>): (ts: seq<string>)
    ensures |ts| == |lines|
  {
    seq(|lines|, i requires 0 <= i < |lines| => Trim(lines[i]))
  }

  /** The line loop of `scopeCss`: every line as it is, or through
      `scopeSelector` where the loop decides so; a line whose trimmed form
      is not scopable always comes out as it went in. */
  function ScopeLines(entry: MediaEntry, lines: seq<string>): (r: seq<string>)
    ensures |r| == |lines|
    ensures forall i :: 0 <= i < |lines| && !Scopable(Trimmed(lines)[i]) ==> r[i] == lines[i]
  {
    var d := Decisions(entry, MediaState(false, 0), Trimmed(lines));
    DecisionsScopable(entry, MediaState(false, 0), Trimmed(lines));
    seq(|lines|, i requires 0 <= i < |lines| => if d[i] then ScopeSelector(lines[i]) else lines[i])
  }

  /** Every line before the first `@media` line goes through
      `scopeSelector` exactly when its trimmed form is a top-level rule. */
  lemma TopLevelLineScoped(entry: MediaEntry, lines: seq<string>, i: nat)
    requires i < |lines|
    requires forall j :: 0 <= j <= i ==> !StartsWith(Trim(lines[j]), "@media")
    ensures ScopeLines(entry, lines)[i] == if TopLevelRule(Trim(lines[i])) then ScopeSelector(lines[i]) else lines[i]
  {
    TopLevelDecisions(entry, MediaState(false, 0), Trimmed(lines), i);
  }

  /** CSS without `@media` lines: every line goes through `scopeSelector`
      exactly when its trimmed form is a top-level rule, and is kept
      otherwise. */
  lemma TopLevelLinesScoped(entry: MediaEntry, lines: seq<string>)
    requires forall j :: 0 <= j < |lines| ==> !StartsWith(Trim(lines[j]), "@media")
    ensures forall i :: 0 <= i < |lines| ==>
      ScopeLines(entry, lines)[i] == if TopLevelRule(Trim(lines[i])) then ScopeSelector(lines[i]) else lines[i]
  {
    forall i | 0 <= i < |lines|
      ensures ScopeLines(entry, lines)[i] == if TopLevelRule(Trim(lines[i])) then ScopeSelector(lines[i]) else lines[i]
    {
      TopLevelLineScoped(entry, lines, i);
    }
  }

  /** A line without an opening brace is kept. */
  lemma BracelessKept(entry: MediaEntry, lines: seq<string>, i: nat)
    requires i < |lines| && '{' !in lines[i]
    ensures ScopeLines(entry, lines)[i] == lines[i]
  {
    TrimKeepsAbsent(lines[i], '{');
  }

  /** The loop takes one line at a time. */
  lemma DecisionsCons(entry: MediaEntry, st: MediaState, t: string, rest: seq<string>)
    ensures var step := LineStep(entry, st, t);
      Decisions(entry, st, [t] + rest) == [step.scoped] + Decisions(entry, step.next, rest)
  {
    assert ([t] + rest)[1..] == rest;
  }

  /** `n` lines all scoped. */
  function AllTrue(n: nat): (r: seq<bool>)
    ensures |r| == n
  {
    if n == 0 then [] else [true] + AllTrue(n - 1)
  }

  /** A trimmed one-line rule: balanced braces, an opening brace, and
      neither a leading closing brace nor an `@media` opening. */
  predicate OneLineRule(t: string) {
    BraceBalance(t) == 0 && Scopable(t)
  }

  /** A trimmed line that opens a media block in the usual layout: `@media …{`
      with one opening brace and no closing one. */
  predicate MediaOpening(t: string) {
    StartsWith(t, "@media") && CountChar(t, '{') == 1 && CountChar(t, '}') == 0
  }

  /** A media opening line is kept and enters the media block, at depth 0 as
      written and at depth 1 with its brace counted. */
  lemma MediaOpeningStep(entry: MediaEntry, st: MediaState, m: string)
    requires MediaOpening(m)
    ensures LineStep(entry, st, m)
         == Step(MediaState(true, if entry == AsWritten then 0 else 1), false)
  {
  }

  /** At depth 0 a one-line rule leaves the media block unscoped. */
  lemma RuleAtDepthZero(entry: MediaEntry, x: string)
    requires OneLineRule(x)
    ensures LineStep(entry, MediaState(true, 0), x) == Step(MediaState(false, 0), false)
  {
  }

  /** At depth 1 a one-line rule is scoped and the block goes on. */
  lemma RuleAtDepthOne(entry: MediaEntry, x: string)
    requires OneLineRule(x)
    ensures LineStep(entry, MediaState(true, 1), x) == Step(MediaState(true, 1), true)
  {
  }

  /** At depth 1 a lone closing brace ends the block. */
  lemma CloseAtDepthOne(entry: MediaEntry, close: string)
    requires close == "}"
    ensures LineStep(entry, MediaState(true, 1), close) == Step(MediaState(false, 0), false)
  {
    assert CountChar(close, '{') == 0 && CountChar(close, '}') == 1;
  }

  /** Inside a media block at depth 1, one-line rules are scoped one after
      the other, whichever way the block was entered. */
  lemma {:induction false} InsideMedia(entry: MediaEntry, xs: seq<string>, tail: seq<string>)
    requires forall i :: 0 <= i < |xs| ==> OneLineRule(xs[i])
    ensures Decisions(entry, MediaState(true, 1), xs + tail)
         == AllTrue(|xs|) + Decisions(entry, MediaState(true, 1), tail)
    decreases |xs|
  {
    if |xs| == 0 {
      assert xs + tail == tail;
    } else {
      InsideMedia(entry, xs[1..], tail);
      InsideMediaStep(entry, xs, tail);
    }
  }

  /** The inductive step of `InsideMedia`. */
  lemma InsideMediaStep(entry: MediaEntry, xs: seq<string>, tail: seq<string>)
    requires |xs| > 0 && OneLineRule(xs[0])
    requires Decisions(entry, MediaState(true, 1), xs[1..] + tail)
          == AllTrue(|xs| - 1) + Decisions(entry, MediaState(true, 1), tail)
    ensures Decisions(entry, MediaState(true, 1), xs + tail)
         == AllTrue(|xs|) + Decisions(entry, MediaState(true, 1), tail)
  {
    var rest := xs[1..] + tail;
    assert xs + tail == [xs[0]] + rest;
    ScopedCons(entry, xs[0], rest, |xs| - 1, Decisions(entry, MediaState(true, 1), tail));
  }

  /** One more one-line rule at depth 1 adds one more scoped line. */
  lemma ScopedCons(entry: MediaEntry, x: string, rest: seq<string>, n: nat, later: seq<bool>)
    requires OneLineRule(x)
    requires Decisions(entry, MediaState(true, 1), rest) == AllTrue(n) + later
    ensures Decisions(entry, MediaState(true, 1), [x] + rest) == AllTrue(n + 1) + later
  {
    RuleAtDepthOne(entry, x);
    DecisionsCons(entry, MediaState(true, 1), x, rest);
    assert AllTrue(n + 1) == [true] + AllTrue(n);
    assert [true] + (AllTrue(n) + later) == ([true] + AllTrue(n)) + later;
  }

  /** A lone closing brace at depth 1 ends the block. */
  lemma MediaClose(entry: MediaEntry, rest: seq<string>)
    ensures Decisions(entry, MediaState(true, 1), ["}"] + rest)
         == [false] + Decisions(entry, MediaState(false, 0), rest)
  {
    CloseAtDepthOne(entry, "}");
    DecisionsCons(entry, MediaState(true, 1), "}", rest);
  }

  /** As written, the first one-line rule after a media opening is not
      scoped: the opening line's brace is not counted, so the rule's balanced
      braces bring the depth to 0 and the loop leaves the media block before
      looking at the rule. */
  lemma MediaFirstRuleAsWritten(st: MediaState, m: string, x: string, rest: seq<string>)
    requires MediaOpening(m) && OneLineRule(x)
    ensures Decisions(AsWritten, st, [m, x] + rest)
         == [false, false] + Decisions(AsWritten, MediaState(false, 0), rest)
  {
    MediaOpeningStep(AsWritten, st, m);
    RuleAtDepthZero(AsWritten, x);
    DecisionsCons(AsWritten, MediaState(true, 0), x, rest);
    assert [m, x] + rest == [m] + ([x] + rest);
    DecisionsCons(AsWritten, st, m, [x] + rest);
  }

  /** With the opening line's brace counted, every one-line rule of a media
      block is scoped, and the block's closing brace ends it. */
  lemma MediaRulesScoped(st: MediaState, m: string, xs: seq<string>, rest: seq<string>)
    requires MediaOpening(m)
    requires forall i :: 0 <= i < |xs| ==> OneLineRule(xs[i])
    ensures Decisions(BraceCounted, st, [m] + xs + ["}"] + rest)
         == [false] + AllTrue(|xs|) + [false] + Decisions(BraceCounted, MediaState(false, 0), rest)
  {
    var after := Decisions(BraceCounted, MediaState(false, 0), rest);
    MediaOpeningStep(BraceCounted, st, m);
    assert [m] + xs + ["}"] + rest == [m] + (xs + (["}"] + rest));
    DecisionsCons(BraceCounted, st, m, xs + (["}"] + rest));
    InsideMedia(BraceCounted, xs, ["}"] + rest);
    MediaClose(BraceCounted, rest);
    assert [false] + (AllTrue(|xs|) + ([false] + after)) == [false] + AllTrue(|xs|) + [false] + after;
  }


  /** The correction changes nothing for text without `@media` lines. */
  lemma {:induction false} EntryOnlyMattersForMedia(st: MediaState, ts: seq<string>)
    requires forall i :: 0 <= i < |ts| ==> !StartsWith(ts[i], "@media")
    ensures Decisions(AsWritten, st, ts) == Decisions(BraceCounted, st, ts)
    decreases |ts|
  {
    if |ts| > 0 {
      assert ts == [ts[0]] + ts[1..];
      DecisionsCons(AsWritten, st, ts[0], ts[1..]);
      DecisionsCons(BraceCounted, st, ts[0], ts[1..]);
      assert forall i :: 0 <= i < |ts| - 1 ==> ts[1..][i] == ts[i + 1];
      EntryOnlyMattersForMedia(LineStep(AsWritten, st, ts[0]).next, ts[1..]);
    }
  }

  /** A line `SEL {…` whose selector is one non-exempt selector followed by
      one space is nested under the class, the rest of the line untouched. */
  lemma ScopeSimpleRule(sel: string, body: string)
    requires |sel| > 0 && Unpadded(sel)
    requires '{' !in sel && ',' !in sel && !Exempt(sel)
    requires |body| > 0 && body[0] == '{'
    ensures ScopeSelector(sel + " " + body) == ScopeClass + " " + sel + " " + body
  {
    var line := sel + " " + body;
    var head := sel + " ";
    assert '{' !in head;
    assert line == head + ['{'] + body[1..];
    IndexOfFirst(head, '{', body[1..]);
    assert line[..|head|] == head;
    assert line[|head|..] == body;
    TrimPadded(sel);
    assert Split(sel, ',') == [sel];
    TrimOfTrimmed(sel);
    assert ScopeAll([sel]) == [ScopePiece(sel)];
  }

  /** After a media block, a closing line alone is kept. */
  lemma ClosingLineKept(entry: MediaEntry)
    ensures Decisions(entry, MediaState(false, 0), ["}"]) == [false]
  {
    DecisionsCons(entry, MediaState(false, 0), "}", []);
    assert ["}"] + [] == ["}"];
    assert "}"[0] != "@"[0];
  }

  /** The decisions for a media block holding one one-line rule. */
  lemma MediaBlockDecisions(m: string, x: string)
    requires MediaOpening(m) && OneLineRule(x)
    ensures Decisions(AsWritten, MediaState(false, 0), [m, x, "}"]) == [false, false, false]
    ensures Decisions(BraceCounted, MediaState(false, 0), [m, x, "}"]) == [false, true, false]
  {
    assert [m, x, "}"] == [m, x] + ["}"];
    MediaFirstRuleAsWritten(MediaState(false, 0), m, x, ["}"]);
    ClosingLineKept(AsWritten);
    assert [m, x, "}"] == [m] + [x] + ["}"] + [];
    MediaRulesScoped(MediaState(false, 0), m, [x], []);
    assert Decisions(BraceCounted, MediaState(false, 0), []) == [];
    assert AllTrue(1) == [true];
  }

  /** Lines without whitespace at either end are their own trimmed form. */
  lemma TrimmedOfUnpadded(lines: seq<string>)
    requires forall i :: 0 <= i < |lines| ==> Unpadded(lines[i])
    ensures Trimmed(lines) == lines
  {
    forall i | 0 <= i < |lines|
      ensures Trimmed(lines)[i] == lines[i]
    {
      TrimOfTrimmed(lines[i]);
    }
  }

  /** What the loop makes of the rule line, as decided. */
  lemma RuleLineOut(entry: MediaEntry, lines: seq<string>, scoped: bool)
    requires |lines| == 3 && Trimmed(lines) == lines
    requires Decisions(entry, MediaState(false, 0), lines)[1] == scoped
    ensures ScopeLines(entry, lines)[1] == if scoped then ScopeSelector(lines[1]) else lines[1]
  {
  }

  /** The defect on a three-line media block: as written, its one-line rule
      comes out unscoped; with the opening brace counted, it is nested under
      the class. */
  lemma MediaDefect(m: string, sel: string, body: string)
    requires MediaOpening(m) && Unpadded(m)
    requires |sel| > 0 && Unpadded(sel)
    requires '{' !in sel && ',' !in sel && !Exempt(sel)
    requires |body| > 0 && body[0] == '{' && !IsSpace(body[|body| - 1])
    requires OneLineRule(sel + " " + body)
    ensures ScopeLines(AsWritten, [m, sel + " " + body, "}"])[1] == sel + " " + body
    ensures ScopeLines(BraceCounted, [m, sel + " " + body, "}"])[1] == ScopeClass + " " + sel + " " + body
  {
    var x := sel + " " + body;
    assert Unpadded(x);
    MediaBlockLines(m, x);
    ScopeSimpleRule(sel, body);
  }

  /** The rule line of a three-line media block, kept as written and scoped
      with the opening brace counted. */
  lemma MediaBlockLines(m: string, x: string)
    requires MediaOpening(m) && Unpadded(m) && Unpadded(x) && OneLineRule(x)
    ensures ScopeLines(AsWritten, [m, x, "}"])[1] == x
    ensures ScopeLines(BraceCounted, [m, x, "}"])[1] == ScopeSelector(x)
  {
    assert Unpadded("}");
    TrimmedOfUnpadded([m, x, "}"]);
    MediaBlockDecisions(m, x);
    RuleLineOut(AsWritten, [m, x, "}"], false);
    RuleLineOut(BraceCounted, [m, x, "}"], true);
  }

  /** `@media print {` opens a media block. */
  lemma ExampleOpening(a: string, m: string)
    requires a == "@media print " && m == a + "{"
    ensures MediaOpening(m) && Unpadded(m)
  {
    assert '{' !in a && '}' !in a;
    assert m == a + ['{'] + "";
    CountOne(a, '{', "");
    CountCharPresence(m, '}');
    assert m[..6] == "@media";
  }

  /** `h3 { color: red; }` is a one-line rule. */
  lemma ExampleRule(a: string, b: string, x: string)
    requires a == "h3 " && b == " color: red; " && x == a + "{" + b + "}"
    ensures OneLineRule(x)
  {
    assert '{' !in a && '}' !in a && '{' !in b && '}' !in b;
    assert '{' !in b + "}";
    assert x == a + ['{'] + (b + "}");
    CountOne(a, '{', b + "}");
    assert x == (a + "{" + b) + ['}'] + "";
    assert '}' !in a + "{" + b;
    CountOne(a + "{" + b, '}', "");
    assert x[|a|] == '{';
    assert x[0] == 'h';
  }

  /** `@media print {`, `h3 { color: red; }`, `}` meets the conditions of
      `MediaDefect`: the rule inside the block is left unscoped as written. */
  lemma MediaDefectWitness(m: string, sel: string, body: string)
    requires m == "@media print {" && sel == "h3" && body == "{ color: red; }"
    ensures MediaOpening(m) && Unpadded(m)
    ensures |sel| > 0 && Unpadded(sel)
    ensures '{' !in sel && ',' !in sel && !Exempt(sel)
    ensures |body| > 0 && body[0] == '{' && !IsSpace(body[|body| - 1])
    ensures OneLineRule(sel + " " + body)
  {
    ExampleOpening("@media print ", m);
    ExampleSelector(sel);
    ExampleBody(body);
    ExampleRule("h3 ", " color: red; ", sel + " " + body);
  }

  /** `h3` is a plain selector that is not exempt. */
  lemma ExampleSelector(sel: string)
    requires sel == "h3"
    ensures |sel| > 0 && Unpadded(sel)
    ensures '{' !in sel && ',' !in sel && !Exempt(sel)
  {
    assert !StartsWith(sel, ":root");
  }

  /** `{ color: red; }` opens with a brace and ends without whitespace. */
  lemma ExampleBody(body: string)
    requires body == "{ color: red; }"
    ensures |body| > 0 && body[0] == '{' && !IsSpace(body[|body| - 1])
  {
  }

  /** `c` absent from the text is absent after a removal pass. */
  lemma {:induction false} RemoveKeepsAbsent(s: string, rule: Removal, i: nat, c: char)
    requires i <= |s| && c !in s
    ensures c !in RemoveFrom(s, rule, i)
    decreases |s| - i
  {
    if i < |s| {
      var m := RemovalEnd(s, rule, i);
      RemoveFromStep(s, rule, i);
      if m.Some? {
        RemoveKeepsAbsent(s, rule, m.value, c);
      } else {
        RemoveKeepsAbsent(s, rule, i + 1, c);
        assert s[i] != c;
      }
    }
  }

  /** The three block patterns need an opening brace to match. */
  lemma BlocksNeedBrace(s: string, rule: Removal)
    requires rule != ImportRule && '{' !in s
    ensures RemoveAll(s, rule) == s
  {
    forall p | 0 <= p < |s|
      ensures RemovalEnd(s, rule, p).None?
    {
    }
  }

  /** `scopeCss` with the given treatment of `@media` opening lines: the four
      removals, then the line loop, then the lines joined and trimmed. The
      source's loop, and the content parser, use `AsWritten`; `BraceCounted`
      is the corrected loop (see `MediaRulesScoped`). */
  function ScopeCssWith(entry: MediaEntry, css: string): (r: string)
    ensures Unpadded(r)
  {
    var stripped := RemoveAll(RemoveAll(RemoveAll(RemoveAll(css, ImportRule), RootBlock), StarBlock), BodyBlock);
    Trim(Join(ScopeLines(entry, Split(stripped, '\n')), "\n"))
  }

  /** When none of the four removal patterns matches, the CSS goes straight
      into the line loop: its lines, each kept or scoped, joined and
      trimmed. */
  lemma ScopeCssWithoutRemovals(entry: MediaEntry, css: string)
    requires MatchFree(css, ImportRule, 0) && MatchFree(css, RootBlock, 0)
    requires MatchFree(css, StarBlock, 0) && MatchFree(css, BodyBlock, 0)
    ensures ScopeCssWith(entry, css) == Trim(Join(ScopeLines(entry, Split(css, '\n')), "\n"))
  {
  }

  /** Lines without an opening brace all come out as they went in. */
  lemma BracelessLinesKept(entry: MediaEntry, lines: seq<string>)
    requires forall i :: 0 <= i < |lines| ==> '{' !in lines[i]
    ensures ScopeLines(entry, lines) == lines
  {
    forall i | 0 <= i < |lines|
      ensures ScopeLines(entry, lines)[i] == lines[i]
    {
      BracelessKept(entry, lines, i);
    }
  }

  /** CSS without rules is only stripped of its `@import` lines and trimmed,
      whichever way `@media` lines are treated. */
  lemma RulelessCss(entry: MediaEntry, css: string)
    requires '{' !in css
    ensures ScopeCssWith(entry, css) == Trim(RemoveAll(css, ImportRule))
  {
    var s0 := RemoveAll(css, ImportRule);
    RemoveKeepsAbsent(css, ImportRule, 0, '{');
    BlocksNeedBrace(s0, RootBlock);
    BlocksNeedBrace(s0, StarBlock);
    BlocksNeedBrace(s0, BodyBlock);
    SplitKeepsAbsent(s0, '\n', '{');
    BracelessLinesKept(entry, Split(s0, '\n'));
    SplitJoinInverse(s0, '\n');
  }
}
