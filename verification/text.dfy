/** String helpers with JavaScript's meaning, over `seq<char>`: the whitespace
    class shared by `String.prototype.trim` and the regular-expression class
    `\s`, ASCII case folding for the `i` flag, searching, counting, and
    `split`/`join` on a separator. */
module Text {

  /** JavaScript's WhiteSpace and LineTerminator characters: exactly what
      `trim()` removes and what `\s` matches. */
  predicate IsSpace(c: char) {
    || c == ' ' || c == '\t' || c == '\n' || c == '\r'
    || c == '\U{000B}' || c == '\U{000C}' || c == '\U{00A0}' || c == '\U{1680}'
    || ('\U{2000}' <= c <= '\U{200A}')
    || c == '\U{2028}' || c == '\U{2029}' || c == '\U{202F}' || c == '\U{205F}'
    || c == '\U{3000}' || c == '\U{FEFF}'
  }

  predicate AllSpace(s: string) {
    forall i {:trigger IsSpace(s[i])} :: 0 <= i < |s| ==> IsSpace(s[i])
  }

  /** Case folding of the `i` flag. Only ASCII letters fold: JavaScript's
      non-unicode canonicalisation never maps a non-ASCII character onto an
      ASCII one, so for patterns spelled in ASCII this is exact. */
  function FoldCase(c: char): char {
    if 'A' <= c <= 'Z' then (c as int + 32) as char else c
  }

  /** `pat` occurs in `s` at index `i`, character for character. */
  predicate MatchesAt(s: string, i: nat, pat: string) {
    i + |pat| <= |s| && s[i..i + |pat|] == pat
  }

  /** `s.startsWith(p)`. */
  predicate StartsWith(s: string, p: string) {
    MatchesAt(s, 0, p)
  }

  /** `pat` occurs in `s` at index `i`, ignoring ASCII case. */
  predicate MatchesAtCI(s: string, i: nat, pat: string) {
    i + |pat| <= |s| && forall k :: 0 <= k < |pat| ==> FoldCase(s[i + k]) == FoldCase(pat[k])
  }

  /** `r` is the slice of `s` that starts at index `a`. */
  predicate IsSubstringAt(r: string, s: string, a: int) {
    0 <= a && a + |r| <= |s| && s[a..a + |r|] == r
  }

  /** An occurrence of `pat` inside a slice of `s` is an occurrence in `s`. */
  lemma MatchInSlice(s: string, a: nat, b: nat, p: nat, pat: string)
    requires a <= b <= |s|
    requires MatchesAtCI(s[a..b], p, pat)
    ensures MatchesAtCI(s, a + p, pat)
  {
    forall k | 0 <= k < |pat|
      ensures FoldCase(s[a + p + k]) == FoldCase(pat[k])
    {
      assert s[a..b][p + k] == s[a + p + k];
    }
  }

  /** No whitespace at either end: what `trim()` leaves. */
  predicate Unpadded(s: string) {
    s == [] || (!IsSpace(s[0]) && !IsSpace(s[|s| - 1]))
  }

  /** Drops leading whitespace. */
  function TrimStart(s: string): (r: string)
    ensures |r| <= |s| && r == s[|s| - |r|..]
    ensures AllSpace(s[..|s| - |r|])
    ensures r == [] || !IsSpace(r[0])
  {
    if |s| > 0 && IsSpace(s[0]) then
      var r := TrimStart(s[1..]);
      TrimStartStep(s, r);
      r
    else s
  }

  /** What `TrimStart` keeps of `s[1..]` after a leading space is what it
      keeps of `s`. */
  lemma TrimStartStep(s: string, r: string)
    requires |s| > 0 && IsSpace(s[0])
    requires |r| <= |s| - 1 && r == s[1..][|s| - 1 - |r|..]
    requires AllSpace(s[1..][..|s| - 1 - |r|])
    ensures |r| <= |s| && r == s[|s| - |r|..]
    ensures AllSpace(s[..|s| - |r|])
  {
    var n := |s| - |r|;
    assert s[1..][n - 1..] == s[n..];
    forall i | 1 <= i < n
      ensures IsSpace(s[..n][i])
    {
      assert s[..n][i] == s[1..][..n - 1][i - 1];
    }
  }

  /** Drops trailing whitespace. */
  function TrimEnd(s: string): (r: string)
    ensures |r| <= |s| && r == s[..|r|]
    ensures AllSpace(s[|r|..])
    ensures r == [] || !IsSpace(r[|r| - 1])
  {
    if |s| > 0 && IsSpace(s[|s| - 1]) then
      var r := TrimEnd(s[..|s| - 1]);
      TrimEndStep(s, r);
      r
    else s
  }

  /** What `TrimEnd` keeps of `s` without its trailing space is what it
      keeps of `s`. */
  lemma TrimEndStep(s: string, r: string)
    requires |s| > 0 && IsSpace(s[|s| - 1])
    requires |r| <= |s| - 1 && r == s[..|s| - 1][..|r|]
    requires AllSpace(s[..|s| - 1][|r|..])
    ensures |r| <= |s| && r == s[..|r|]
    ensures AllSpace(s[|r|..])
  {
    var n := |r|;
    assert s[..|s| - 1][..n] == s[..n];
    forall i | 0 <= i < |s| - 1 - n
      ensures IsSpace(s[n..][i])
    {
      assert s[n..][i] == s[..|s| - 1][n..][i];
    }
  }

  /** `r` is the slice of `s` at `a` with only whitespace around it. */
  predicate TrimmedAt(r: string, s: string, a: int) {
    IsSubstringAt(r, s, a) && AllSpace(s[..a]) && AllSpace(s[a + |r|..])
  }

  /** `String.prototype.trim`: the longest slice with no whitespace at
      either end, obtained by removing only whitespace. */
  function Trim(s: string): (r: string)
    ensures Unpadded(r)
    ensures exists a :: TrimmedAt(r, s, a)
  {
    var t := TrimStart(s);
    var r := TrimEnd(t);
    TrimWitness(s, t, r);
    r
  }

  /** The slice kept by trimming both ends sits at `|s| - |t|`. */
  lemma TrimWitness(s: string, t: string, r: string)
    requires |t| <= |s| && t == s[|s| - |t|..] && AllSpace(s[..|s| - |t|])
    requires |r| <= |t| && r == t[..|r|] && AllSpace(t[|r|..])
    requires t == [] || !IsSpace(t[0])
    requires r == [] || !IsSpace(r[|r| - 1])
    ensures Unpadded(r)
    ensures exists a :: TrimmedAt(r, s, a)
  {
    var a := |s| - |t|;
    assert forall k :: 0 <= k < |r| ==> r[k] == s[a + k];
    assert s[a..a + |r|] == r;
    assert s[a + |r|..] == t[|r|..];
    assert TrimmedAt(r, s, a);
  }

  /** A string with no whitespace at either end is its own trim. */
  lemma TrimOfTrimmed(s: string)
    requires Unpadded(s)
    ensures Trim(s) == s
  {
  }

  /** Trimming a trimmed word followed by one space gives the word back. */
  lemma TrimPadded(s: string)
    requires |s| > 0 && Unpadded(s)
    ensures Trim(s + " ") == s
  {
    var t := s + " ";
    assert TrimStart(t) == t;
    assert t[..|t| - 1] == s;
    assert TrimEnd(t) == TrimEnd(s);
  }

  /** A character absent from `s` is absent from its trim. */
  lemma TrimKeepsAbsent(s: string, c: char)
    ensures c !in s ==> c !in Trim(s)
  {
    var r := Trim(s);
    var a :| TrimmedAt(r, s, a);
    AbsentInSubstring(r, s, a, c);
  }

  /** A character absent from both halves is absent from the whole. */
  lemma AbsentInConcat(x: string, y: string, c: char)
    requires c !in x && c !in y
    ensures c !in x + y
  {
    forall k | 0 <= k < |x + y|
      ensures (x + y)[k] != c
    {
      if k < |x| {
        assert (x + y)[k] == x[k];
      } else {
        assert (x + y)[k] == y[k - |x|];
      }
    }
  }

  /** A substring of a text without `c` has no `c` either. */
  lemma AbsentInSubstring(r: string, s: string, a: int, c: char)
    requires IsSubstringAt(r, s, a)
    ensures c !in s ==> c !in r
  {
    forall j | 0 <= j < |r|
      ensures r[j] == s[a + j]
    {
      assert s[a..a + |r|][j] == s[a + j];
    }
  }

  /** Trimming cannot create a match of `pat` (ignoring case). */
  lemma TrimKeepsNoMatchCI(s: string, pat: string)
    requires forall k: nat :: !MatchesAtCI(s, k, pat)
    ensures forall k: nat :: !MatchesAtCI(Trim(s), k, pat)
  {
    var r := Trim(s);
    var a :| TrimmedAt(r, s, a);
    NoMatchInSubstring(r, s, a, pat);
  }

  /** A substring of a text without a match of `pat` has none either. */
  lemma NoMatchInSubstring(r: string, s: string, a: int, pat: string)
    requires IsSubstringAt(r, s, a)
    requires forall k: nat :: !MatchesAtCI(s, k, pat)
    ensures forall k: nat :: !MatchesAtCI(r, k, pat)
  {
    NoMatchInSlice(s, a, a + |r|, pat);
  }

  /** A slice of a text without a match of `pat` has none either. */
  lemma NoMatchInSlice(s: string, a: nat, b: nat, pat: string)
    requires a <= b <= |s|
    requires forall k: nat :: !MatchesAtCI(s, k, pat)
    ensures forall k: nat :: !MatchesAtCI(s[a..b], k, pat)
  {
    forall k: nat
      ensures !MatchesAtCI(s[a..b], k, pat)
    {
      if MatchesAtCI(s[a..b], k, pat) {
        MatchInSlice(s, a, b, k, pat);
      }
    }
  }

  /** `s.indexOf(c, from)`: the first index at or after `from` holding `c`,
      or -1. */
  function IndexOfCharFrom(s: string, c: char, from: nat): (r: int)
    ensures r == -1 || (from <= r < |s| && s[r] == c)
    ensures r == -1 ==> forall k :: from <= k < |s| ==> s[k] != c
    ensures r != -1 ==> forall k :: from <= k < r ==> s[k] != c
    decreases |s| - from
  {
    if from >= |s| then -1
    else if s[from] == c then from
    else IndexOfCharFrom(s, c, from + 1)
  }

  /** `s.indexOf(c)`. */
  function IndexOfChar(s: string, c: char): (r: int)
    ensures r == -1 <==> c !in s
    ensures r != -1 ==> 0 <= r < |s| && s[r] == c && c !in s[..r]
  {
    var r := IndexOfCharFrom(s, c, 0);
    assert r != -1 ==> forall k :: 0 <= k < r ==> s[..r][k] != c;
    r
  }

  /** Where `c` is the first occurrence, `indexOf` finds it. */
  lemma IndexOfFirst(a: string, c: char, b: string)
    requires c !in a
    ensures IndexOfChar(a + [c] + b, c) == |a|
  {
    var s := a + [c] + b;
    var r := IndexOfChar(s, c);
    assert s[|a|] == c;
    assert forall k :: 0 <= k < |a| ==> s[k] == a[k];
  }

  /** The first index at or after `from` where `pat` matches ignoring ASCII
      case, or -1 (a case-insensitive regex search for a literal). */
  function IndexOfCIFrom(s: string, pat: string, from: nat): (r: int)
    ensures r == -1 || (from <= r && MatchesAtCI(s, r, pat))
    ensures r == -1 ==> forall k :: from <= k ==> !MatchesAtCI(s, k, pat)
    ensures r != -1 ==> forall k :: from <= k < r ==> !MatchesAtCI(s, k, pat)
    decreases |s| - from
  {
    if from > |s| then -1
    else if MatchesAtCI(s, from, pat) then from
    else IndexOfCIFrom(s, pat, from + 1)
  }

  /** The end of the run of whitespace starting at `i` (greedy `\s*`). */
  function SkipSpaces(s: string, i: nat): (r: nat)
    requires i <= |s|
    ensures i <= r <= |s|
    ensures AllSpace(s[i..r])
    ensures r == |s| || !IsSpace(s[r])
    decreases |s| - i
  {
    if i < |s| && IsSpace(s[i]) then SkipSpaces(s, i + 1) else i
  }

  /** The number of occurrences of `c` in `s` (`(s.match(/c/g) || []).length`). */
  function CountChar(s: string, c: char): nat {
    if |s| == 0 then 0 else (if s[0] == c then 1 else 0) + CountChar(s[1..], c)
  }

  /** Counting distributes over concatenation. */
  lemma {:induction false} CountCharConcat(a: string, b: string, c: char)
    ensures CountChar(a + b, c) == CountChar(a, c) + CountChar(b, c)
    decreases |a|
  {
    if |a| > 0 {
      assert (a + b)[1..] == a[1..] + b;
      CountCharConcat(a[1..], b, c);
    } else {
      assert a + b == b;
    }
  }

  /** A character that does not occur is counted zero times, and one that
      does is counted at least once. */
  lemma {:induction false} CountCharPresence(s: string, c: char)
    ensures CountChar(s, c) == 0 <==> c !in s
    decreases |s|
  {
    if |s| > 0 {
      CountCharPresence(s[1..], c);
      assert s == [s[0]] + s[1..];
    }
  }

  /** A character occurring once, between two stretches without it. */
  lemma CountOne(a: string, c: char, b: string)
    requires c !in a && c !in b
    ensures CountChar(a + [c] + b, c) == 1
  {
    assert a + [c] + b == a + ([c] + b);
    CountCharConcat(a, [c] + b, c);
    CountCharPresence(a, c);
    CountCharPresence(b, c);
    assert ([c] + b)[1..] == b;
  }

  /** `parts.join(sep)`. */
  function Join(parts: seq<string>, sep: string): string {
    if |parts| == 0 then ""
    else if |parts| == 1 then parts[0]
    else parts[0] + sep + Join(parts[1..], sep)
  }

  /** `s.split(c)`: the pieces between occurrences of `c`. There is always
      at least one piece and no piece holds `c`; `SplitJoinInverse` and
      `SplitLast` state how the pieces make up `s`. */
  function Split(s: string, c: char): (r: seq<string>)
    ensures |r| >= 1
    ensures forall i :: 0 <= i < |r| ==> c !in r[i]
    decreases |s|
  {
    var k := IndexOfChar(s, c);
    if k == -1 then [s]
    else
      var rest := Split(s[k + 1..], c);
      var r := [s[..k]] + rest;
      assert forall i :: 1 <= i < |r| ==> r[i] == rest[i - 1];
      r
  }

  /** Joining the pieces of `s.split(c)` with `c` gives back `s`. */
  lemma {:induction false} SplitJoinInverse(s: string, c: char)
    ensures Join(Split(s, c), [c]) == s
    decreases |s|
  {
    var k := IndexOfChar(s, c);
    if k != -1 {
      SplitJoinInverse(s[k + 1..], c);
      SplitUnfold(s, c, k);
      JoinStep(s, c, k, Split(s[k + 1..], c));
    }
  }

  /** `last` is the text of `s` after its last `c` (all of `s` when there is
      no `c`). */
  predicate LastPieceFollows(s: string, c: char, last: string) {
    |last| <= |s| && s[|s| - |last|..] == last && (|last| == |s| || s[|s| - |last| - 1] == c)
  }

  /** One step of `Split`: the piece before the first `c`, joined with `c`
      to the pieces of the rest, gives back `s`. */
  lemma JoinStep(s: string, c: char, k: nat, rest: seq<string>)
    requires k < |s| && s[k] == c
    requires |rest| >= 1 && Join(rest, [c]) == s[k + 1..]
    ensures Join([s[..k]] + rest, [c]) == s
  {
    JoinCons(s[..k], rest, [c]);
    AroundIndex(s, k);
  }

  /** Joining a part in front of at least one more part. */
  lemma JoinCons(x: string, rest: seq<string>, sep: string)
    requires |rest| >= 1
    ensures Join([x] + rest, sep) == x + sep + Join(rest, sep)
  {
    assert ([x] + rest)[1..] == rest;
  }

  /** A text is what comes before index `k`, the character there, and what
      comes after. */
  lemma AroundIndex(s: string, k: nat)
    requires k < |s|
    ensures s == s[..k] + [s[k]] + s[k + 1..]
  {
    assert s[..k] + [s[k]] == s[..k + 1];
  }

  /** The text after the last `c` of a suffix that follows a `c` is also the
      text after the last `c` of the whole. */
  lemma LastStep(s: string, c: char, k: nat, last: string)
    requires k < |s| && s[k] == c
    requires LastPieceFollows(s[k + 1..], c, last)
    ensures LastPieceFollows(s, c, last)
  {
    var tail := s[k + 1..];
    assert s[|s| - |last|..] == tail[|tail| - |last|..];
    if |last| < |tail| {
      assert s[|s| - |last| - 1] == tail[|tail| - |last| - 1];
    }
  }

  /** The last piece of `s.split(c)` is the text after the last `c`. */
  lemma {:induction false} SplitLast(s: string, c: char)
    ensures LastPieceFollows(s, c, Split(s, c)[|Split(s, c)| - 1])
    decreases |s|
  {
    var k := IndexOfChar(s, c);
    if k == -1 {
      assert Split(s, c) == [s];
    } else {
      SplitLast(s[k + 1..], c);
      SplitLastStep(s, c, k);
    }
  }

  /** The inductive step of `SplitLast`. */
  lemma SplitLastStep(s: string, c: char, k: int)
    requires k == IndexOfChar(s, c) && k != -1
    requires LastPieceFollows(s[k + 1..], c, Split(s[k + 1..], c)[|Split(s[k + 1..], c)| - 1])
    ensures LastPieceFollows(s, c, Split(s, c)[|Split(s, c)| - 1])
  {
    var rest := Split(s[k + 1..], c);
    SplitUnfold(s, c, k);
    var last := rest[|rest| - 1];
    assert Split(s, c)[|Split(s, c)| - 1] == last;
    LastStep(s, c, k, last);
  }

  /** `Split` peels off the piece before the first `c`. */
  lemma SplitUnfold(s: string, c: char, k: int)
    requires k == IndexOfChar(s, c) && k != -1
    ensures Split(s, c) == [s[..k]] + Split(s[k + 1..], c)
  {
  }

  /** Prefixing the joined text prefixes its first part. */
  lemma JoinPrefixFirst(t: string, ys: seq<string>, sep: string)
    requires |ys| > 0
    ensures t + Join(ys, sep) == Join([t + ys[0]] + ys[1..], sep)
  {
    var zs := [t + ys[0]] + ys[1..];
    assert zs[1..] == ys[1..];
  }

  /** Joining with a separator made of `c` followed by `t`, then splitting on
      `c`, gives back the first part as it was and every later part with `t`
      in front of it. */
  lemma {:induction false} SplitJoin(xs: seq<string>, c: char, t: string, sep: string)
    requires |xs| > 0
    requires forall i :: 0 <= i < |xs| ==> c !in xs[i]
    requires c !in t && sep == [c] + t
    ensures |Split(Join(xs, sep), c)| == |xs|
    ensures Split(Join(xs, sep), c)[0] == xs[0]
    ensures forall i :: 1 <= i < |xs| ==> Split(Join(xs, sep), c)[i] == t + xs[i]
    decreases |xs|
  {
    if |xs| == 1 {
      assert Join(xs, sep) == xs[0];
      assert Split(xs[0], c) == [xs[0]];
    } else {
      var ys := [t + xs[1]] + xs[2..];
      SplitJoinUnfold(xs, c, t, sep);
      forall i | 0 <= i < |ys|
        ensures c !in ys[i]
      {
        if i > 0 {
          assert ys[i] == xs[i + 1];
        }
      }
      SplitJoin(ys, c, t, sep);
      var r := Split(Join(xs, sep), c);
      var r' := Split(Join(ys, sep), c);
      forall i | 1 <= i < |xs|
        ensures r[i] == t + xs[i]
      {
        assert r[i] == r'[i - 1];
        if i > 1 {
          assert ys[i - 1] == xs[i];
        }
      }
    }
  }

  /** Splitting the joined text peels off the first part; the rest is the
      joined text of the remaining parts with `t` moved into the first. */
  lemma SplitJoinUnfold(xs: seq<string>, c: char, t: string, sep: string)
    requires |xs| > 1 && c !in xs[0] && sep == [c] + t
    ensures Split(Join(xs, sep), c) == [xs[0]] + Split(Join([t + xs[1]] + xs[2..], sep), c)
  {
    var tail := Join(xs[1..], sep);
    var s := Join(xs, sep);
    assert s == xs[0] + [c] + (t + tail);
    IndexOfFirst(xs[0], c, t + tail);
    assert s[|xs[0]| + 1..] == t + tail;
    assert s[..|xs[0]|] == xs[0];
    assert xs[1..][1..] == xs[2..];
    JoinPrefixFirst(t, xs[1..], sep);
    SplitUnfold(s, c, |xs[0]|);
  }

  /** A character absent from `s` is absent from every piece of its split. */
  lemma {:induction false} SplitKeepsAbsent(s: string, c: char, d: char)
    requires d !in s
    ensures forall i :: 0 <= i < |Split(s, c)| ==> d !in Split(s, c)[i]
    decreases |s|
  {
    var k := IndexOfChar(s, c);
    if k != -1 {
      SplitUnfold(s, c, k);
      assert d !in s[k + 1..];
      SplitKeepsAbsent(s[k + 1..], c, d);
      var r := Split(s, c);
      assert forall i :: 1 <= i < |r| ==> r[i] == Split(s[k + 1..], c)[i - 1];
    }
  }

  /** A character absent from every part and from the separator is absent
      from the joined text. */
  lemma {:induction false} JoinKeepsAbsent(parts: seq<string>, sep: string, d: char)
    requires forall i :: 0 <= i < |parts| ==> d !in parts[i]
    requires d !in sep
    ensures d !in Join(parts, sep)
  {
    if |parts| > 1 {
      assert forall i :: 0 <= i < |parts| - 1 ==> parts[1..][i] == parts[i + 1];
      JoinKeepsAbsent(parts[1..], sep, d);
    }
  }

  /** Two positions that both end the run of whitespace starting at `a`, and
      hold no whitespace themselves, are the same position. */
  lemma SpaceRunEnds(s: string, a: nat, q: nat, q': nat)
    requires a <= q <= |s| && a <= q' < |s|
    requires AllSpace(s[a..q]) && (q == |s| || !IsSpace(s[q]))
    requires AllSpace(s[a..q']) && !IsSpace(s[q'])
    ensures q == q'
  {
  }

  /** A `c` at or after `from` is found by the search. */
  lemma CharFoundFrom(s: string, c: char, from: nat, k: nat)
    requires from <= k < |s| && s[k] == c
    ensures IndexOfCharFrom(s, c, from) != -1
  {
  }

  /** Two positions that both hold the first `c` at or after `a` are the
      same position. */
  lemma FirstOccurrence(s: string, a: nat, b: nat, b': nat, c: char)
    requires a <= b < |s| && a <= b' < |s|
    requires s[b] == c && c !in s[a..b]
    requires s[b'] == c && c !in s[a..b']
    ensures b == b'
  {
  }
}
