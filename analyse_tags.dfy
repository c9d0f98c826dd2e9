/**
 * The tag analyser: for every `.txt` file it picks the prompt segment, merges
 * wrapped lines, splits the segment into comma-separated tags (a parenthesised
 * group stays one tag), trims and lower-cases them, and at the end counts every
 * tag and writes one `"<tag> - <count>"` line per tag, most frequent first and
 * equal counts in alphabetical order.
 */
module AnalyseTags {
  import opened Wrappers
  import opened Strings
  import opened Seqs

  /** Everything from the first occurrence of this marker on is not analysed. */
  const Marker := "Negative prompt"

  // ---------------------------------------------------------------------------
  // Segment selection

  /** The length of the first line of `s`: the index of its first line break, or `|s|`. */
  function LineEnd(s: string): (n: nat)
    ensures n <= |s| && '\n' !in s[..n]
    ensures n < |s| ==> s[n] == '\n'
  {
    if s == [] || s[0] == '\n' then 0
    else
      var m := LineEnd(s[1..]);
      assert s[..1 + m] == [s[0]] + s[1..][..m];
      1 + m
  }

  /** `content.split('\n', 1)[0]`. */
  function FirstLine(content: string): string {
    content[..LineEnd(content)]
  }

  /**
   * The text to analyse: with the marker, the stripped text before its first
   * occurrence; without it, the stripped first line.
   */
  function Segment(content: string): (r: string)
    ensures IsStripped(r)
  {
    var i := Find(content, Marker);
    if i != -1 then Strip(content[..i]) else Strip(FirstLine(content))
  }

  /** Each character of `Strip(s)` is a character of `s`. */
  lemma StripChars(s: string)
    ensures forall c :: c in Strip(s) ==> c in s
  {
    var i := LeadingSpace(s);
    var t := s[i..];
    var r := t[..TrailingStart(t)];
    assert Strip(s) == r;
    forall c | c in r ensures c in s {
      var k :| 0 <= k < |r| && r[k] == c;
      assert s[i + k] == c;
    }
  }

  /** The marker starts with a letter that occurs nowhere else in it, so two occurrences never overlap. */
  lemma MarkerHeadUnique()
    ensures forall d :: 0 < d < |Marker| ==> Marker[d] != Marker[0]
  {
  }

  /** The marker starts with a capital letter, so lower-case text never contains it. */
  lemma LowerCaseHasNoMarker(s: string)
    requires IsLowerCase(s)
    ensures !Contains(s, Marker)
  {
    LowerCaseLacksCapitalised(s, Marker);
  }

  /** With the marker present, the segment is the stripped text before its first occurrence. */
  lemma {:induction false} SegmentBeforeMarker(prefix: string, suffix: string)
    requires !Contains(prefix, Marker)
    ensures Segment(prefix + Marker + suffix) == Strip(prefix)
  {
    var c := prefix + Marker + suffix;
    var n := |prefix|;
    assert c[n..n + |Marker|] == Marker;
    assert OccursAt(c, Marker, n);
    forall k | 0 <= k < n
      ensures !OccursAt(c, Marker, k)
    {
      if k + |Marker| <= n {
        assert c[k..k + |Marker|] == prefix[k..k + |Marker|];
        assert !OccursAt(prefix, Marker, k);
      } else {
        MarkerHeadUnique();
        assert c[n] == Marker[0] != Marker[n - k];
        assert c[k..k + |Marker|][n - k] == c[n];
      }
    }
    assert Find(c, Marker) == n;
    assert c[..n] == prefix;
  }

  /** Without the marker, only the first line counts: what follows the first line break never matters. */
  lemma {:induction false} SegmentIgnoresLaterLines(first: string, rest: string)
    requires '\n' !in first
    requires !Contains(first + "\n" + rest, Marker)
    ensures Segment(first + "\n" + rest) == Strip(first)
    ensures Segment(first + "\n" + rest) == Segment(first)
  {
    var c := first + "\n" + rest;
    assert Find(c, Marker) == -1;
    assert c[..|first|] == first;
    assert c[|first|] == '\n';
    LineEndOf(c, |first|);
    assert FirstLine(c) == first;
    ContainsExtends(first, "\n" + rest, Marker);
    assert c == first + ("\n" + rest);
    LineEndOf(first, |first|);
    assert first[..|first|] == first;
  }

  lemma {:induction false} LineEndOf(s: string, n: nat)
    requires n <= |s| && '\n' !in s[..n]
    requires n < |s| ==> s[n] == '\n'
    ensures LineEnd(s) == n
  {
    if s != [] && s[0] != '\n' {
      assert n > 0;
      assert s[1..][..n - 1] == s[1..n];
      assert s[1..n] == s[..n][1..];
      LineEndOf(s[1..], n - 1);
    }
  }

  // ---------------------------------------------------------------------------
  // Merging wrapped lines

  /** Python's `s.replace(pat, rep)`: every occurrence found scanning left to right is replaced. */
  function ReplaceAll(s: string, pat: string, rep: string): string
    requires |pat| > 0
    decreases |s|
  {
    if |s| < |pat| then s
    else if s[..|pat|] == pat then rep + ReplaceAll(s[|pat|..], pat, rep)
    else [s[0]] + ReplaceAll(s[1..], pat, rep)
  }

  /** `segment.replace(',\n', ',').replace('\n', ',')`. */
  function Normalise(segment: string): string {
    ReplaceAll(ReplaceAll(segment, ",\n", ","), "\n", ",")
  }

  /**
   * Reference reading of the two replacements: every line break becomes a
   * comma, except one that directly follows a comma of the original text,
   * which disappears. `afterComma` says whether the character before `s` was a comma.
   */
  function JoinLines(s: string, afterComma: bool): string
    decreases |s|
  {
    if s == [] then [] else JoinPiece(s[0], afterComma) + JoinLines(s[1..], s[0] == ',')
  }

  /** What one character of the original becomes. */
  function JoinPiece(c: char, afterComma: bool): string {
    if c == '\n' then (if afterComma then "" else ",") else [c]
  }

  lemma JoinLinesCons(c: char, t: string, afterComma: bool)
    ensures JoinLines([c] + t, afterComma) == JoinPiece(c, afterComma) + JoinLines(t, c == ',')
  {
    assert ([c] + t)[0] == c && ([c] + t)[1..] == t;
  }

  lemma ReplaceNewlineCons(c: char, t: string)
    ensures ReplaceAll([c] + t, "\n", ",") == (if c == '\n' then "," else [c]) + ReplaceAll(t, "\n", ",")
  {
    var s := [c] + t;
    assert s[..1] == [c] && s[1..] == t;
  }

  lemma {:induction false} NormaliseJoins(s: string, afterComma: bool)
    requires afterComma ==> s == [] || s[0] != '\n'
    ensures ReplaceAll(ReplaceAll(s, ",\n", ","), "\n", ",") == JoinLines(s, afterComma)
    decreases |s|
  {
    if s == [] {
    } else if |s| < 2 {
      assert s == [s[0]] + [];
      ReplaceNewlineCons(s[0], []);
      JoinLinesCons(s[0], [], afterComma);
    } else if s[..2] == ",\n" {
      NormaliseJoins(s[2..], false);
      JoinsAtPair(s, afterComma);
    } else {
      NormaliseJoins(s[1..], s[0] == ',');
      JoinsAtChar(s, afterComma);
    }
  }

  /** The step of `NormaliseJoins` at a comma and a line break. */
  lemma JoinsAtPair(s: string, afterComma: bool)
    requires |s| >= 2 && s[..2] == ",\n"
    requires ReplaceAll(ReplaceAll(s[2..], ",\n", ","), "\n", ",") == JoinLines(s[2..], false)
    ensures ReplaceAll(ReplaceAll(s, ",\n", ","), "\n", ",") == JoinLines(s, afterComma)
  {
    var rest := ReplaceAll(s[2..], ",\n", ",");
    assert ReplaceAll(s, ",\n", ",") == [','] + rest;
    ReplaceNewlineCons(',', rest);
    assert s == [','] + (['\n'] + s[2..]);
    JoinLinesCons(',', ['\n'] + s[2..], afterComma);
    JoinLinesCons('\n', s[2..], true);
  }

  /** The step of `NormaliseJoins` at any other character. */
  lemma JoinsAtChar(s: string, afterComma: bool)
    requires |s| >= 2 && s[..2] != ",\n" && (afterComma ==> s[0] != '\n')
    requires ReplaceAll(ReplaceAll(s[1..], ",\n", ","), "\n", ",") == JoinLines(s[1..], s[0] == ',')
    ensures ReplaceAll(ReplaceAll(s, ",\n", ","), "\n", ",") == JoinLines(s, afterComma)
  {
    var rest := ReplaceAll(s[1..], ",\n", ",");
    assert ReplaceAll(s, ",\n", ",") == [s[0]] + rest;
    ReplaceNewlineCons(s[0], rest);
    assert s == [s[0]] + s[1..];
    JoinLinesCons(s[0], s[1..], afterComma);
  }

  /** The two replacements of the source are exactly the reference reading. */
  lemma NormaliseIsJoinLines(s: string)
    ensures Normalise(s) == JoinLines(s, false)
  {
    NormaliseJoins(s, false);
  }

  predicate EndsInComma(a: string, afterComma: bool) {
    if a == [] then afterComma else a[|a| - 1] == ','
  }

  lemma {:induction false} JoinLinesConcat(a: string, b: string, afterComma: bool)
    ensures JoinLines(a + b, afterComma) == JoinLines(a, afterComma) + JoinLines(b, EndsInComma(a, afterComma))
    decreases |a|
  {
    if a == [] {
      assert a + b == b;
    } else {
      var ab := a + b;
      assert ab[0] == a[0] && ab[1..] == a[1..] + b;
      JoinLinesConcat(a[1..], b, a[0] == ',');
      assert EndsInComma(a[1..], a[0] == ',') == EndsInComma(a, afterComma) by {
        if a[1..] != [] {
          assert a[1..][|a[1..]| - 1] == a[|a| - 1];
        }
      }
    }
  }

  lemma {:induction false} JoinLinesNoNewline(s: string, afterComma: bool)
    ensures '\n' !in JoinLines(s, afterComma)
    ensures '\n' !in s ==> JoinLines(s, afterComma) == s
    decreases |s|
  {
    if s != [] {
      JoinLinesNoNewline(s[1..], s[0] == ',');
      assert s == [s[0]] + s[1..];
    }
  }

  /** After merging, the segment holds no line break; one that had none is unchanged. */
  lemma NormaliseNoNewline(s: string)
    ensures '\n' !in Normalise(s)
    ensures '\n' !in s ==> Normalise(s) == s
  {
    NormaliseIsJoinLines(s);
    JoinLinesNoNewline(s, false);
  }

  /** A comma followed by a line break becomes exactly one comma. */
  lemma CommaNewlineMerged(a: string, b: string)
    ensures Normalise(a + ",\n" + b) == Normalise(a) + "," + Normalise(b)
  {
    var tail := [','] + (['\n'] + b);
    var x := a + tail;
    AppendAssoc(a, ",\n", b);
    assert ",\n" + b == tail;
    var ja, jb := JoinLines(a, false), JoinLines(b, false);
    JoinLinesConcat(a, tail, false);
    JoinLinesCons(',', ['\n'] + b, EndsInComma(a, false));
    JoinLinesCons('\n', b, true);
    assert JoinPiece('\n', true) + jb == jb;
    AppendAssoc(ja, ",", jb);
    NormaliseIsJoinLines(x);
    NormaliseIsJoinLines(a);
    NormaliseIsJoinLines(b);
  }

  /** A line break after anything but a comma becomes one comma. */
  lemma NewlineBecomesComma(a: string, b: string)
    requires a == [] || a[|a| - 1] != ','
    ensures Normalise(a + "\n" + b) == Normalise(a) + "," + Normalise(b)
  {
    var tail := ['\n'] + b;
    var x := a + tail;
    assert a + "\n" + b == x;
    assert JoinLines(x, false) == JoinLines(a, false) + "," + JoinLines(b, false) by {
      JoinLinesConcat(a, tail, false);
      JoinLinesCons('\n', b, false);
    }
    NormaliseIsJoinLines(x);
    NormaliseIsJoinLines(a);
    NormaliseIsJoinLines(b);
  }

  // ---------------------------------------------------------------------------
  // Tokenising with the pattern `[^,()]+|\([^()]*\)`

  predicate IsSep(c: char) {
    c == ',' || c == '(' || c == ')'
  }

  predicate IsParen(c: char) {
    c == '(' || c == ')'
  }

  /** A match of the first alternative: a non-empty run without comma or parenthesis. */
  predicate IsRun(t: string) {
    t != [] && forall k :: 0 <= k < |t| ==> !IsSep(t[k])
  }

  /** A match of the second alternative: `(`, anything but parentheses, `)`. */
  predicate IsGroup(t: string) {
    |t| >= 2 && t[0] == '(' && t[|t| - 1] == ')' && forall k :: 0 < k < |t| - 1 ==> !IsParen(t[k])
  }

  predicate IsToken(t: string) {
    IsRun(t) || IsGroup(t)
  }

  /** Where the greedy `[^,()]+` starting at `i` stops. */
  function RunEnd(s: string, i: nat): (j: nat)
    requires i <= |s|
    ensures i <= j <= |s|
    ensures forall k :: i <= k < j ==> !IsSep(s[k])
    ensures j < |s| ==> IsSep(s[j])
    decreases |s| - i
  {
    if i < |s| && !IsSep(s[i]) then RunEnd(s, i + 1) else i
  }

  /** Where the greedy `[^()]*` starting at `i` stops. */
  function ParenFree(s: string, i: nat): (j: nat)
    requires i <= |s|
    ensures i <= j <= |s|
    ensures forall k :: i <= k < j ==> !IsParen(s[k])
    ensures j < |s| ==> IsParen(s[j])
    decreases |s| - i
  {
    if i < |s| && !IsParen(s[i]) then ParenFree(s, i + 1) else i
  }

  /** A match of the pattern, as the half-open range `s[lo..hi]`. */
  datatype Span = Span(lo: nat, hi: nat)

  /** Scanning may start at `i`: the previous match or skipped character ended there. */
  predicate ScanStart(s: string, i: nat)
    requires i <= |s|
  {
    i == 0 || i == |s| || IsSep(s[i - 1]) || IsSep(s[i])
  }

  /**
   * `re.findall` from position `i`: try the run alternative, then the group
   * alternative; when neither matches, skip one character.
   */
  function Scan(s: string, i: nat): (sp: seq<Span>)
    requires i <= |s| && ScanStart(s, i)
    ensures forall k :: 0 <= k < |sp| ==> i <= sp[k].lo < sp[k].hi <= |s|
    decreases |s| - i
  {
    if i == |s| then []
    else if !IsSep(s[i]) then
      var j := RunEnd(s, i);
      [Span(i, j)] + Scan(s, j)
    else if OpensGroup(s, i) then
      var j := ParenFree(s, i + 1) + 1;
      [Span(i, j)] + Scan(s, j)
    else Scan(s, i + 1)
  }

  /** One step of the scanner: where it continues and whether it matched `s[i..j]` on the way. */
  function ScanStep(s: string, i: nat): (j: nat)
    requires i < |s|
    ensures i < j <= |s| && ScanStart(s, j)
  {
    if !IsSep(s[i]) then RunEnd(s, i)
    else if OpensGroup(s, i) then ParenFree(s, i + 1) + 1
    else i + 1
  }

  /** The group alternative matches at `i`: a `(` whose next parenthesis is a `)`. */
  predicate OpensGroup(s: string, i: nat)
    requires i < |s|
  {
    s[i] == '(' && ParenFree(s, i + 1) < |s| && s[ParenFree(s, i + 1)] == ')'
  }

  predicate Matches(s: string, i: nat)
    requires i < |s|
  {
    !IsSep(s[i]) || OpensGroup(s, i)
  }

  lemma ScanUnfold(s: string, i: nat)
    requires i < |s| && ScanStart(s, i)
    ensures Scan(s, i) == (if Matches(s, i) then [Span(i, ScanStep(s, i))] else []) + Scan(s, ScanStep(s, i))
    ensures Matches(s, i) ==> IsToken(s[i..ScanStep(s, i)])
    ensures Matches(s, i) && IsRun(s[i..ScanStep(s, i)]) ==> !IsSep(s[i]) && (ScanStep(s, i) == |s| || IsSep(s[ScanStep(s, i)]))
    ensures !Matches(s, i) ==> IsSep(s[i]) && ScanStep(s, i) == i + 1
    ensures Matches(s, i) && !IsSep(s[i]) ==> forall p :: i <= p < ScanStep(s, i) ==> !IsSep(s[p])
  {
    var j := ScanStep(s, i);
    if !IsSep(s[i]) {
      RunStep(s, i);
    } else if Matches(s, i) {
      GroupStep(s, i);
    } else {
      assert j == i + 1;
    }
  }

  lemma RunStep(s: string, i: nat)
    requires i < |s| && ScanStart(s, i) && !IsSep(s[i])
    ensures Scan(s, i) == [Span(i, ScanStep(s, i))] + Scan(s, ScanStep(s, i))
    ensures IsRun(s[i..ScanStep(s, i)])
    ensures ScanStep(s, i) == |s| || IsSep(s[ScanStep(s, i)])
  {
  }

  lemma GroupStep(s: string, i: nat)
    requires i < |s| && ScanStart(s, i) && IsSep(s[i]) && Matches(s, i)
    ensures Scan(s, i) == [Span(i, ScanStep(s, i))] + Scan(s, ScanStep(s, i))
    ensures IsGroup(s[i..ScanStep(s, i)]) && !IsRun(s[i..ScanStep(s, i)])
  {
    GroupStepSlice(s, i);
  }

  lemma GroupStepSlice(s: string, i: nat)
    requires i < |s| && IsSep(s[i]) && Matches(s, i)
    ensures IsGroup(s[i..ScanStep(s, i)]) && !IsRun(s[i..ScanStep(s, i)])
  {
    var e := ParenFree(s, i + 1);
    var j := e + 1;
    assert j == ScanStep(s, i);
    var t := s[i..j];
    assert t[0] == '(' && t[|t| - 1] == ')';
    forall k | 0 < k < |t| - 1
      ensures !IsParen(t[k])
    {
      assert t[k] == s[i + k];
    }
  }

  /** Every match is a run or a flat parenthesised group. */
  lemma {:induction false} ScanTokens(s: string, i: nat)
    requires i <= |s| && ScanStart(s, i)
    ensures forall k :: 0 <= k < |Scan(s, i)| ==> IsToken(s[Scan(s, i)[k].lo..Scan(s, i)[k].hi])
    decreases |s| - i
  {
    if i < |s| {
      ScanUnfold(s, i);
      ScanTokens(s, ScanStep(s, i));
    }
  }

  /** Matches do not overlap and come in left-to-right order. */
  lemma {:induction false} ScanOrdered(s: string, i: nat)
    requires i <= |s| && ScanStart(s, i)
    ensures forall k :: 0 <= k < |Scan(s, i)| - 1 ==> Scan(s, i)[k].hi <= Scan(s, i)[k + 1].lo
    decreases |s| - i
  {
    if i < |s| {
      ScanUnfold(s, i);
      ScanOrdered(s, ScanStep(s, i));
    }
  }

  predicate Covered(sp: seq<Span>, p: int) {
    exists k :: 0 <= k < |sp| && sp[k].lo <= p < sp[k].hi
  }

  /** Nothing but separators is skipped: every other character lies inside some match. */
  lemma {:induction false} ScanCovers(s: string, i: nat)
    requires i <= |s| && ScanStart(s, i)
    ensures forall p :: i <= p < |s| && !IsSep(s[p]) ==> Covered(Scan(s, i), p)
    decreases |s| - i
  {
    if i < |s| {
      var j := ScanStep(s, i);
      var rest := Scan(s, j);
      ScanUnfold(s, i);
      ScanCovers(s, j);
      assert forall p :: j <= p < |s| && !IsSep(s[p]) ==> Covered(rest, p);
      if Matches(s, i) {
        var sp := [Span(i, j)] + rest;
        assert Scan(s, i) == sp;
        CoveredCons(Span(i, j), rest);
      } else {
        assert Scan(s, i) == rest;
      }
    }
  }

  lemma CoveredCons(m: Span, rest: seq<Span>)
    ensures forall p :: m.lo <= p < m.hi ==> Covered([m] + rest, p)
    ensures forall p :: Covered(rest, p) ==> Covered([m] + rest, p)
  {
    forall p | Covered(rest, p) ensures Covered([m] + rest, p) {
      var k :| 0 <= k < |rest| && rest[k].lo <= p < rest[k].hi;
      assert ([m] + rest)[k + 1] == rest[k];
    }
    forall p | m.lo <= p < m.hi ensures Covered([m] + rest, p) {
      assert ([m] + rest)[0] == m;
    }
  }

  /** A run match `m` cannot be extended: a separator or the end of the text lies on each side. */
  predicate MaximalRun(s: string, m: Span) {
    m.lo <= m.hi <= |s| && IsRun(s[m.lo..m.hi]) ==>
      (m.lo == 0 || IsSep(s[m.lo - 1])) && (m.hi == |s| || IsSep(s[m.hi]))
  }

  /** Every run the scanner matches is maximal. */
  lemma {:induction false} ScanRunsMaximal(s: string, i: nat)
    requires i <= |s| && ScanStart(s, i)
    ensures forall k :: 0 <= k < |Scan(s, i)| ==> MaximalRun(s, Scan(s, i)[k])
    decreases |s| - i
  {
    if i < |s| {
      var j := ScanStep(s, i);
      var rest := Scan(s, j);
      ScanUnfold(s, i);
      ScanRunsMaximal(s, j);
      if Matches(s, i) {
        assert MaximalRun(s, Span(i, j));
        MaximalCons(s, Span(i, j), rest);
      } else {
        assert Scan(s, i) == rest;
      }
    }
  }

  lemma MaximalCons(s: string, m: Span, rest: seq<Span>)
    requires MaximalRun(s, m) && forall k :: 0 <= k < |rest| ==> MaximalRun(s, rest[k])
    ensures forall k :: 0 <= k < |[m] + rest| ==> MaximalRun(s, ([m] + rest)[k])
  {
    forall k | 0 <= k < |[m] + rest| ensures MaximalRun(s, ([m] + rest)[k]) {
      if k > 0 {
        assert ([m] + rest)[k] == rest[k - 1];
      }
    }
  }

  /**
   * A parenthesised group without inner parentheses is matched whole, commas
   * included, once scanning reaches its opening parenthesis.
   */
  lemma GroupMatchedWhole(s: string, i: nat, j: nat)
    requires i < j < |s| && s[i] == '(' && s[j] == ')'
    requires forall k :: i < k < j ==> !IsParen(s[k])
    ensures Scan(s, i) == [Span(i, j + 1)] + Scan(s, j + 1)
    ensures IsGroup(s[i..j + 1])
  {
    ParenFreeAt(s, i + 1, j);
    GroupSlice(s, i, j);
  }

  lemma GroupSlice(s: string, i: nat, j: nat)
    requires i < j < |s| && s[i] == '(' && s[j] == ')'
    requires forall k :: i < k < j ==> !IsParen(s[k])
    ensures IsGroup(s[i..j + 1])
  {
    var g := s[i..j + 1];
    assert g[0] == '(' && g[|g| - 1] == ')';
    forall k | 0 < k < |g| - 1 ensures !IsParen(g[k]) {
      assert g[k] == s[i + k];
    }
  }

  lemma {:induction false} ParenFreeAt(s: string, i: nat, j: nat)
    requires i <= j < |s| && IsParen(s[j])
    requires forall k :: i <= k < j ==> !IsParen(s[k])
    ensures ParenFree(s, i) == j
    decreases j - i
  {
    if i < j {
      ParenFreeAt(s, i + 1, j);
    }
  }

  /**
   * Scanning from any point where it may resume before a parenthesised group
   * without inner parentheses reaches the group's `(` and matches the group whole.
   */
  lemma GroupMatchedFrom(s: string, p: nat, i: nat, j: nat)
    requires p <= i < j < |s| && s[i] == '(' && s[j] == ')' && ScanStart(s, p)
    requires forall k :: i < k < j ==> !IsParen(s[k])
    ensures exists k :: 0 <= k < |Scan(s, p)| && Scan(s, p)[k] == Span(i, j + 1)
  {
    var k := GroupIndexFrom(s, p, i, j);
  }

  /** Where in the scan from `p` the group from `i` to `j` is matched. */
  lemma {:induction false} GroupIndexFrom(s: string, p: nat, i: nat, j: nat) returns (k: nat)
    requires p <= i < j < |s| && s[i] == '(' && s[j] == ')' && ScanStart(s, p)
    requires forall k :: i < k < j ==> !IsParen(s[k])
    ensures k < |Scan(s, p)| && Scan(s, p)[k] == Span(i, j + 1)
    decreases i - p
  {
    if p == i {
      GroupMatchedWhole(s, i, j);
      k := 0;
    } else {
      StepBeforeGroup(s, p, i);
      var q := ScanStep(s, p);
      var k' := GroupIndexFrom(s, q, i, j);
      ScanUnfold(s, p);
      k := if Matches(s, p) then k' + 1 else k';
    }
  }

  /** A scanner step from before a `(` does not jump past it. */
  lemma StepBeforeGroup(s: string, p: nat, i: nat)
    requires p < i < |s| && s[i] == '('
    ensures ScanStep(s, p) <= i
  {
    if !IsSep(s[p]) {
      assert IsSep(s[i]);
    } else if OpensGroup(s, p) {
      assert s[ParenFree(s, p + 1)] == ')';
    }
  }

  /** `re.findall(r'[^,()]+|\([^()]*\)', s)`. */
  function Tokens(s: string): (r: seq<string>)
    ensures forall k :: 0 <= k < |r| ==> IsToken(r[k])
    ensures forall k, c :: 0 <= k < |r| && c in r[k] ==> c in s
  {
    var sp := Scan(s, 0);
    ScanTokens(s, 0);
    var r := seq(|sp|, k requires 0 <= k < |sp| => s[sp[k].lo..sp[k].hi]);
    assert forall k, c :: 0 <= k < |r| && c in r[k] ==> c in s by {
      forall k, c | 0 <= k < |r| && c in r[k] ensures c in s {
        var p :| 0 <= p < |r[k]| && r[k][p] == c;
        assert s[sp[k].lo + p] == c;
      }
    }
    r
  }

  /** Every parenthesised group without inner parentheses is one match, commas included. */
  lemma GroupAlwaysMatched(s: string, i: nat, j: nat)
    requires i < j < |s| && s[i] == '(' && s[j] == ')'
    requires forall k :: i < k < j ==> !IsParen(s[k])
    ensures s[i..j + 1] in Tokens(s)
  {
    GroupMatchedFrom(s, 0, i, j);
    var k :| 0 <= k < |Scan(s, 0)| && Scan(s, 0)[k] == Span(i, j + 1);
    assert Tokens(s)[k] == s[i..j + 1];
  }

  // ---------------------------------------------------------------------------
  // Tags

  /** `tag_str.strip().lower()`. */
  function NormaliseTag(token: string): string {
    Lower(Strip(token))
  }

  /** A normalised tag is stripped and lower-case, and it is empty exactly when the match was all whitespace. */
  lemma NormaliseTagSpec(token: string)
    ensures var t := NormaliseTag(token);
      IsStripped(t) && IsLowerCase(t) && (t == [] <==> AllSpace(token))
  {
    StripEmpty(token);
  }

  /** What the source appends to `all_tags`. */
  predicate IsTag(t: string) {
    t != [] && IsStripped(t) && IsLowerCase(t) && '\n' !in t && IsToken(t)
  }

  /** The tags a sequence of matches contributes: the normalised ones that are not empty. */
  function KeptTags(tokens: seq<string>): seq<string> {
    if tokens == [] then []
    else
      var tag := NormaliseTag(tokens[|tokens| - 1]);
      KeptTags(tokens[..|tokens| - 1]) + (if tag != [] then [tag] else [])
  }

  /** A non-empty slice of a run is a run. */
  lemma RunSlice(t: string, i: nat, j: nat)
    requires IsRun(t) && i < j <= |t|
    ensures IsRun(t[i..j])
  {
    forall k | 0 <= k < j - i ensures !IsSep(t[i..j][k]) {
      assert t[i..j][k] == t[i + k];
    }
  }

  /** Lower-casing keeps a match a match and adds no line break. */
  lemma LowerKeepsToken(t: string)
    requires IsToken(t) && '\n' !in t
    ensures IsToken(Lower(t)) && '\n' !in Lower(t)
  {
    var r := Lower(t);
    assert forall k :: 0 <= k < |t| ==> (IsSep(r[k]) <==> IsSep(t[k])) && (IsParen(r[k]) <==> IsParen(t[k]));
    assert forall k :: 0 <= k < |t| ==> r[k] != '\n' by {
      forall k | 0 <= k < |t| ensures r[k] != '\n' {
        assert t[k] in t;
      }
    }
  }

  /** Stripping a match, unless it was only whitespace, leaves a match without line breaks. */
  lemma StripKeepsToken(token: string)
    requires IsToken(token) && '\n' !in token && !AllSpace(token)
    ensures IsToken(Strip(token)) && '\n' !in Strip(token)
  {
    if IsGroup(token) {
      assert IsStripped(token);
      StripStripped(token);
    } else {
      StripRun(token);
    }
  }

  lemma StripRun(token: string)
    requires IsRun(token) && '\n' !in token && !AllSpace(token)
    ensures IsRun(Strip(token)) && '\n' !in Strip(token)
  {
    var stripped := Strip(token);
    StripEmpty(token);
    var i := LeadingSpace(token);
    var t := token[i..];
    var j := TrailingStart(t);
    assert stripped == t[..j] == token[i..i + j];
    RunSlice(token, i, i + j);
    forall k | 0 <= k < j ensures stripped[k] != '\n' {
      assert stripped[k] == token[i + k];
      assert token[i + k] in token;
    }
  }

  /** A match without line breaks normalises to a tag, unless it was only whitespace. */
  lemma NormaliseTagIsTag(token: string)
    requires IsToken(token) && '\n' !in token && !AllSpace(token)
    ensures IsTag(NormaliseTag(token))
  {
    StripKeepsToken(token);
    LowerKeepsToken(Strip(token));
  }

  lemma {:induction false} KeptTagsAreTags(tokens: seq<string>)
    requires forall k :: 0 <= k < |tokens| ==> IsToken(tokens[k]) && '\n' !in tokens[k]
    ensures forall k :: 0 <= k < |KeptTags(tokens)| ==> IsTag(KeptTags(tokens)[k])
  {
    if tokens != [] {
      var last := tokens[|tokens| - 1];
      KeptTagsAreTags(tokens[..|tokens| - 1]);
      if !AllSpace(last) {
        NormaliseTagIsTag(last);
      }
    }
  }

  /** The tags one file contributes. */
  function FileTags(content: string): seq<string> {
    KeptTags(Tokens(Normalise(Segment(content))))
  }

  /** Every tag a file contributes is non-empty, stripped, lower-case, one line, and a run or a group. */
  lemma FileTagsAreTags(content: string)
    ensures forall k :: 0 <= k < |FileTags(content)| ==> IsTag(FileTags(content)[k])
  {
    var segment := Normalise(Segment(content));
    NormaliseNoNewline(Segment(content));
    KeptTagsAreTags(Tokens(segment));
  }

  lemma {:induction false} RunEndAt(s: string, i: nat, j: nat)
    requires i <= j <= |s| && (j == |s| || IsSep(s[j]))
    requires forall k :: i <= k < j ==> !IsSep(s[k])
    ensures RunEnd(s, i) == j
    decreases j - i
  {
    if i < j {
      RunEndAt(s, i + 1, j);
    }
  }

  /** A run from `i` up to a separator or the end is the next match. */
  lemma RunMatched(s: string, i: nat, j: nat)
    requires i < j <= |s| && ScanStart(s, i) && (j == |s| || IsSep(s[j]))
    requires forall k :: i <= k < j ==> !IsSep(s[k])
    ensures ScanStart(s, j) && Scan(s, i) == [Span(i, j)] + Scan(s, j)
  {
    RunEndAt(s, i, j);
  }

  /** A comma is skipped. */
  lemma CommaSkipped(s: string, i: nat)
    requires i < |s| && s[i] == ','
    ensures ScanStart(s, i) && ScanStart(s, i + 1) && Scan(s, i) == Scan(s, i + 1)
  {
  }

  /** A tag that is already stripped and lower-case normalises to itself, also after a leading space. */
  lemma {:induction false} NormalisedTag(t: string)
    requires IsStripped(t) && t != [] && IsLowerCase(t)
    ensures NormaliseTag(t) == t && NormaliseTag(" " + t) == t
  {
    StripStripped(t);
    assert " " + t == " " + t + [];
    StripPadded(" ", t, []);
    LowerOfLowerCase(t);
  }

  /** One match contributes its normalised form, or nothing when that is empty. */
  lemma KeptOne(x: string)
    ensures KeptTags([x]) == if NormaliseTag(x) != [] then [NormaliseTag(x)] else []
  {
    assert [x][..0] == [];
  }

  lemma KeptSingle(x: string, t: string)
    requires NormaliseTag(x) == t && t != []
    ensures KeptTags([x]) == [t]
  {
    KeptOne(x);
  }

  /** `KeptTags` one match at a time, as the inner loop appends. */
  lemma KeptSnoc(tokens: seq<string>, x: string)
    ensures KeptTags(tokens + [x]) == KeptTags(tokens) + (if NormaliseTag(x) != [] then [NormaliseTag(x)] else [])
  {
    assert (tokens + [x])[..|tokens|] == tokens;
  }

  /** The matches of two pieces of text contribute their tags one after the other. */
  lemma {:induction false} KeptConcat(xs: seq<string>, ys: seq<string>)
    ensures KeptTags(xs + ys) == KeptTags(xs) + KeptTags(ys)
    decreases |ys|
  {
    if ys != [] {
      var init := ys[..|ys| - 1];
      assert (xs + ys)[..|xs + ys| - 1] == xs + init;
      assert (xs + ys)[|xs + ys| - 1] == ys[|ys| - 1];
      KeptConcat(xs, init);
    } else {
      assert xs + ys == xs;
    }
  }

  /** The kept tags are exactly the non-empty normalised forms of the matches. */
  lemma KeptTagsMembers(tokens: seq<string>, t: string)
    ensures t in KeptTags(tokens) <==> t != [] && exists k :: 0 <= k < |tokens| && NormaliseTag(tokens[k]) == t
  {
    if t in KeptTags(tokens) {
      var k := KeptTagSource(tokens, t);
    }
    if t != [] && exists k :: 0 <= k < |tokens| && NormaliseTag(tokens[k]) == t {
      var k :| 0 <= k < |tokens| && NormaliseTag(tokens[k]) == t;
      KeptTagOf(tokens, k);
    }
  }

  /** The match a kept tag comes from. */
  lemma {:induction false} KeptTagSource(tokens: seq<string>, t: string) returns (k: nat)
    requires t in KeptTags(tokens)
    ensures k < |tokens| && NormaliseTag(tokens[k]) == t && t != []
    decreases |tokens|
  {
    var init := tokens[..|tokens| - 1];
    var x := tokens[|tokens| - 1];
    if t in KeptTags(init) {
      k := KeptTagSource(init, t);
      assert tokens[k] == init[k];
    } else {
      k := |tokens| - 1;
    }
  }

  /** The non-empty normalised form of every match is kept. */
  lemma {:induction false} KeptTagOf(tokens: seq<string>, k: nat)
    requires k < |tokens| && NormaliseTag(tokens[k]) != []
    ensures NormaliseTag(tokens[k]) in KeptTags(tokens)
    decreases |tokens|
  {
    var init := tokens[..|tokens| - 1];
    var x := tokens[|tokens| - 1];
    assert tokens == init + [x];
    KeptSnoc(init, x);
    if k < |init| {
      assert init[k] == tokens[k];
      KeptTagOf(init, k);
    }
  }

  /** A plain tag as written in a prompt: one line, no separators, trimmed, lower-case. */
  predicate PlainTag(t: string) {
    IsRun(t) && IsStripped(t) && IsLowerCase(t) && '\n' !in t
  }

  /** Without line breaks or the marker, the segment is the whole stripped text. */
  lemma SegmentOfOneLine(s: string)
    requires '\n' !in s && !Contains(s, Marker)
    ensures Segment(s) == Strip(s)
  {
    LineEndOf(s, |s|);
    assert s[..|s|] == s;
  }

  /** Two plain tags separated by `", "` are matched as the tag and the tag with its leading space. */
  lemma {:induction false} TwoRuns(a: string, b: string)
    requires IsRun(a) && IsRun(b)
    ensures Tokens(a + ", " + b) == [a, " " + b]
  {
    var s := a + ", " + b;
    var n := |a|;
    forall k | 0 <= k < |s| && k != n ensures !IsSep(s[k]) {
      if k < n {
        assert s[k] == a[k];
      } else if k > n + 1 {
        assert s[k] == b[k - n - 2];
      }
    }
    CommaSplit(s, n);
    assert s[..n] == a && s[n + 1..] == " " + b;
  }

  /** Two runs around one comma are the two matches. */
  lemma {:induction false} CommaSplit(s: string, n: nat)
    requires 0 < n && n + 1 < |s| && s[n] == ','
    requires forall k :: 0 <= k < |s| && k != n ==> !IsSep(s[k])
    ensures Tokens(s) == [s[..n], s[n + 1..]]
  {
    RunMatched(s, 0, n);
    CommaSkipped(s, n);
    RunMatched(s, n + 1, |s|);
    assert Scan(s, |s|) == [];
    assert Scan(s, 0) == [Span(0, n), Span(n + 1, |s|)];
    assert s[0..n] == s[..n] && s[n + 1..|s|] == s[n + 1..];
  }

  /** Two plain tags come out of the matches `a` and `" " + b` unchanged. */
  lemma {:induction false} TwoTagsKept(a: string, b: string)
    requires PlainTag(a) && PlainTag(b)
    ensures KeptTags([a, " " + b]) == [a, b]
  {
    NormalisedTag(a);
    NormalisedTag(b);
    KeptTwo(a, " " + b, a, b);
  }

  lemma KeptTwo(x: string, y: string, t: string, u: string)
    requires NormaliseTag(x) == t && t != [] && NormaliseTag(y) == u && u != []
    ensures KeptTags([x, y]) == [t, u]
  {
    KeptPair(x, y);
    KeptSingle(x, t);
    KeptSingle(y, u);
  }

  lemma {:induction false} KeptPair(x: string, y: string)
    ensures KeptTags([x, y]) == KeptTags([x]) + KeptTags([y])
  {
    assert [x, y] == [x] + [y];
    KeptConcat([x], [y]);
  }

  /** With the marker after the first line, `a, b` before it gives exactly the tags `a` and `b`. */
  lemma {:induction false} TagsBeforeMarker(a: string, b: string, rest: string)
    requires PlainTag(a) && PlainTag(b)
    ensures FileTags(a + ", " + b + "\n" + Marker + rest) == [a, b]
  {
    var line := a + ", " + b;
    PlainPair(a, ", ", b);
    LowerCaseHasNoMarker(line + "\n");
    SegmentOfMarkedLine(line, rest);
    NormaliseNoNewline(line);
    TwoRuns(a, b);
    TwoTagsKept(a, b);
  }

  /** Two plain tags around a separator without line breaks make a stripped line without line breaks. */
  lemma {:induction false} PlainPair(a: string, sep: string, b: string)
    requires PlainTag(a) && PlainTag(b) && '\n' !in sep && IsLowerCase(sep)
    ensures IsStripped(a + sep + b) && a + sep + b != [] && '\n' !in a + sep + b
    ensures IsLowerCase(a + sep + b + "\n")
  {
    var line := a + sep + b;
    assert line[0] == a[0] && line[|line| - 1] == b[|b| - 1];
    assert forall k :: 0 <= k < |line| ==> line[k] in a || line[k] in b || line[k] in sep;
    assert forall k :: 0 <= k < |line| + 1 ==> (line + "\n")[k] in a || (line + "\n")[k] in b || (line + "\n")[k] in sep + "\n";
  }

  /** The segment of a stripped first line followed by a line starting with the marker is that first line. */
  lemma {:induction false} SegmentOfMarkedLine(line: string, rest: string)
    requires IsStripped(line) && line != [] && !Contains(line + "\n", Marker)
    ensures Segment(line + "\n" + Marker + rest) == line
  {
    assert line + "\n" + Marker + rest == (line + "\n") + Marker + rest;
    SegmentBeforeMarker(line + "\n", rest);
    assert line + "\n" == [] + line + "\n";
    StripPadded([], line, "\n");
  }

  /** A group keeps its internal comma: `a, (g), b` is matched as `a`, `" "`, `(g)` and `" " + b`. */
  lemma {:induction false} GroupRuns(a: string, g: string, b: string)
    requires IsRun(a) && IsRun(b) && forall k :: 0 <= k < |g| ==> !IsParen(g[k])
    ensures Tokens(a + ", (" + g + "), " + b) == [a, " ", "(" + g + ")", " " + b]
  {
    GroupScan(a, g, b);
    TokensOfFour(a + ", (" + g + "), " + b);
    GroupPieces(a, g, b);
  }

  lemma {:induction false} GroupScan(a: string, g: string, b: string)
    requires IsRun(a) && IsRun(b) && forall k :: 0 <= k < |g| ==> !IsParen(g[k])
    ensures var s := a + ", (" + g + "), " + b; var n := |a|; var p := n + 3 + |g|;
      Scan(s, 0) == [Span(0, n), Span(n + 1, n + 2), Span(n + 2, p + 1), Span(p + 2, |s|)]
  {
    var s := a + ", (" + g + "), " + b;
    var n := |a|;
    var p := n + 3 + |g|;
    GroupText(a, g, b);
    assert forall k :: 0 <= k < n ==> !IsSep(s[k]);
    assert forall k :: n + 2 < k < p ==> !IsParen(s[k]);
    assert forall k :: p + 2 <= k < |s| ==> !IsSep(s[k]);
    GroupLineScan(s, n, p);
  }

  /** The scan of a line shaped `run, (group), run`, given where its pieces sit. */
  lemma {:induction false} GroupLineScan(s: string, n: nat, p: nat)
    requires 0 < n && n + 2 < p && p + 2 < |s|
    requires forall k :: 0 <= k < n ==> !IsSep(s[k])
    requires s[n] == ',' && s[n + 1] == ' ' && s[n + 2] == '(' && s[p] == ')' && s[p + 1] == ','
    requires forall k :: n + 2 < k < p ==> !IsParen(s[k])
    requires forall k :: p + 2 <= k < |s| ==> !IsSep(s[k])
    ensures Scan(s, 0) == [Span(0, n), Span(n + 1, n + 2), Span(n + 2, p + 1), Span(p + 2, |s|)]
  {
    GroupLineHead(s, n);
    GroupLineTail(s, n + 2, p);
    assert [Span(0, n), Span(n + 1, n + 2)] + [Span(n + 2, p + 1), Span(p + 2, |s|)]
      == [Span(0, n), Span(n + 1, n + 2), Span(n + 2, p + 1), Span(p + 2, |s|)];
  }

  /** The run before `, (` and the space after the comma. */
  lemma {:induction false} GroupLineHead(s: string, n: nat)
    requires 0 < n && n + 2 < |s|
    requires forall k :: 0 <= k < n ==> !IsSep(s[k])
    requires s[n] == ',' && s[n + 1] == ' ' && s[n + 2] == '('
    ensures ScanStart(s, n + 2) && Scan(s, 0) == [Span(0, n), Span(n + 1, n + 2)] + Scan(s, n + 2)
  {
    RunThenComma(s, n);
    RunMatched(s, n + 1, n + 2);
    AppendAssoc([Span(0, n)], [Span(n + 1, n + 2)], Scan(s, n + 2));
  }

  /** A leading run ended by a comma, which is skipped. */
  lemma RunThenComma(s: string, n: nat)
    requires 0 < n < |s| && s[n] == ','
    requires forall k :: 0 <= k < n ==> !IsSep(s[k])
    ensures ScanStart(s, n + 1) && Scan(s, 0) == [Span(0, n)] + Scan(s, n + 1)
  {
    RunMatched(s, 0, n);
    CommaSkipped(s, n);
  }

  /** The group from `q` to `p`, the comma after it and the final run. */
  lemma {:induction false} GroupLineTail(s: string, q: nat, p: nat)
    requires q < p && p + 2 < |s| && s[q] == '(' && s[p] == ')' && s[p + 1] == ','
    requires forall k :: q < k < p ==> !IsParen(s[k])
    requires forall k :: p + 2 <= k < |s| ==> !IsSep(s[k])
    ensures ScanStart(s, q) && Scan(s, q) == [Span(q, p + 1), Span(p + 2, |s|)]
  {
    GroupMatchedWhole(s, q, p);
    CommaSkipped(s, p + 1);
    RunMatched(s, p + 2, |s|);
    var tail := Scan(s, p + 2);
    assert tail == [Span(p + 2, |s|)] by {
      assert Scan(s, |s|) == [];
    }
    assert Scan(s, q) == [Span(q, p + 1)] + tail;
  }

  /** Where the pieces of `a, (g), b` sit. */
  lemma {:induction false} GroupText(a: string, g: string, b: string)
    ensures var s := a + ", (" + g + "), " + b; var n := |a|; var p := n + 3 + |g|;
      && (forall k :: 0 <= k < n ==> s[k] == a[k])
      && (forall k :: n + 3 <= k < p ==> s[k] == g[k - n - 3])
      && (forall k :: p + 3 <= k < |s| ==> s[k] == b[k - p - 3])
      && s[n] == ',' && s[n + 1] == ' ' && s[n + 2] == '(' && s[p] == ')' && s[p + 1] == ',' && s[p + 2] == ' '
  {
  }

  lemma {:induction false} TokensOfFour(s: string)
    requires |Scan(s, 0)| == 4
    ensures var sp := Scan(s, 0);
      Tokens(s) == [s[sp[0].lo..sp[0].hi], s[sp[1].lo..sp[1].hi], s[sp[2].lo..sp[2].hi], s[sp[3].lo..sp[3].hi]]
  {
  }

  lemma {:induction false} GroupPieces(a: string, g: string, b: string)
    ensures var s := a + ", (" + g + "), " + b; var n := |a|; var p := n + 3 + |g|;
      s[0..n] == a && s[n + 1..n + 2] == " " && s[n + 2..p + 1] == "(" + g + ")" && s[p + 2..|s|] == " " + b
  {
    var s := a + ", (" + g + "), " + b;
    var n := |a|;
    var p := n + 3 + |g|;
    assert s[n + 2..p + 1] == "(" + g + ")" by {
      assert forall k :: 0 <= k < |g| ==> s[n + 3 + k] == g[k];
    }
  }

  /** The matches of `a, (g), b` normalise to the three tags `a`, `(g)` and `b`; the lone space is dropped. */
  lemma {:induction false} GroupTagsKept(a: string, g: string, b: string)
    requires PlainTag(a) && PlainTag(b) && IsLowerCase(g)
    ensures KeptTags([a, " ", "(" + g + ")", " " + b]) == [a, "(" + g + ")", b]
  {
    var group := "(" + g + ")";
    NormalisedTag(a);
    GroupNormalised(g);
    NormalisedTag(b);
    assert AllSpace(" ");
    KeptAroundBlank(a, " ", group, " " + b, a, group, b);
  }

  /** A group of lower-case text normalises to itself. */
  lemma GroupNormalised(g: string)
    requires IsLowerCase(g)
    ensures NormaliseTag("(" + g + ")") == "(" + g + ")"
  {
    var group := "(" + g + ")";
    assert IsLowerCase(group) by {
      assert forall k :: 0 < k < |group| - 1 ==> group[k] == g[k - 1];
    }
    StripStripped(group);
    LowerOfLowerCase(group);
  }

  /** Three kept matches around one that normalises to nothing give their three tags. */
  lemma {:induction false} KeptAroundBlank(x: string, w: string, y: string, z: string, t1: string, t2: string, t3: string)
    requires NormaliseTag(x) == t1 && t1 != [] && NormaliseTag(w) == []
    requires NormaliseTag(y) == t2 && t2 != [] && NormaliseTag(z) == t3 && t3 != []
    ensures KeptTags([x, w, y, z]) == [t1, t2, t3]
  {
    var s1 := [x];
    var s2 := s1 + [w];
    var s3 := s2 + [y];
    assert s3 + [z] == [x, w, y, z];
    KeptSingle(x, t1);
    KeptSnoc(s1, w);
    KeptSnoc(s2, y);
    KeptSnoc(s3, z);
    SingletonsJoined(t1, t2, t3);
  }

  lemma SingletonsJoined<T>(x: T, y: T, z: T)
    ensures [x] + [] + [y] + [z] == [x, y, z]
  {
  }

  /** A parenthesised group is one tag even when it holds a comma: `a, (g), b` gives `a`, `(g)`, `b`. */
  lemma {:induction false} GroupNotSplit(a: string, g: string, b: string)
    requires PlainTag(a) && PlainTag(b) && IsLowerCase(g)
    requires forall k :: 0 <= k < |g| ==> !IsParen(g[k]) && g[k] != '\n'
    ensures FileTags(a + ", (" + g + "), " + b) == [a, "(" + g + ")", b]
  {
    var s := a + ", (" + g + "), " + b;
    assert '\n' !in s && IsLowerCase(s) by {
      assert forall k :: 0 <= k < |s| ==> s[k] in a || s[k] in b || s[k] in g || s[k] in ", ()";
    }
    LowerCaseHasNoMarker(s);
    SegmentOfOneLine(s);
    assert s[0] == a[0] && s[|s| - 1] == b[|b| - 1];
    StripStripped(s);
    NormaliseNoNewline(s);
    GroupRuns(a, g, b);
    GroupTagsKept(a, g, b);
  }

  /** `masterpiece, (best quality:1.3), outdoor` gives `masterpiece`, `(best quality:1.3)`, `outdoor`. */
  lemma GroupExample()
    ensures FileTags("masterpiece, (best quality:1.3), outdoor") == ["masterpiece", "(best quality:1.3)", "outdoor"]
  {
    GroupExampleText();
    GroupExampleGroup();
    PlainWord("masterpiece");
    PlainWord("outdoor");
    GroupExampleInner();
    GroupNotSplit("masterpiece", "best quality:1.3", "outdoor");
  }

  lemma GroupExampleText()
    ensures "masterpiece, (best quality:1.3), outdoor" == "masterpiece" + ", (" + "best quality:1.3" + "), " + "outdoor"
  {
  }

  lemma GroupExampleGroup()
    ensures "(best quality:1.3)" == "(" + "best quality:1.3" + ")"
  {
  }

  lemma GroupExampleInner()
    ensures IsLowerCase("best quality:1.3")
    ensures forall k :: 0 <= k < |"best quality:1.3"| ==> !IsParen("best quality:1.3"[k]) && "best quality:1.3"[k] != '\n'
  {
  }

  /** A non-empty word of lower-case ASCII letters and digits is a plain tag. */
  lemma PlainWord(w: string)
    requires w != [] && forall k :: 0 <= k < |w| ==> 'a' <= w[k] <= 'z' || '0' <= w[k] <= '9'
    ensures PlainTag(w)
  {
    assert forall k :: 0 <= k < |w| ==> w[k] != '\n';
  }

  /** `tag1, tag2` on the line before `Negative prompt: blurry` gives the tags `tag1` and `tag2`. */
  lemma MarkerExample()
    ensures FileTags("tag1, tag2\nNegative prompt: blurry") == ["tag1", "tag2"]
  {
    MarkerExampleText();
    PlainWord("tag1");
    PlainWord("tag2");
    TagsBeforeMarker("tag1", "tag2", ": blurry");
  }

  lemma MarkerExampleText()
    ensures "tag1, tag2\nNegative prompt: blurry" == "tag1" + ", " + "tag2" + "\n" + Marker + ": blurry"
  {
  }

  /** A line ending in a comma continues on the next: `a,` and `b` on two lines give the tags `a` and `b`. */
  lemma {:induction false} WrappedLineMerged(a: string, b: string, rest: string)
    requires PlainTag(a) && PlainTag(b)
    ensures FileTags(a + ",\n" + b + "\n" + Marker + rest) == [a, b]
  {
    var text := a + ",\n" + b;
    WrappedText(a, b);
    LowerCaseHasNoMarker(text + "\n");
    SegmentOfMarkedLine(text, rest);
    WrappedNormalised(a, b);
    MergedRuns(a, b);
    TwoPlainKept(a, b);
  }

  lemma {:induction false} WrappedText(a: string, b: string)
    requires PlainTag(a) && PlainTag(b)
    ensures IsStripped(a + ",\n" + b) && a + ",\n" + b != [] && IsLowerCase(a + ",\n" + b + "\n")
  {
    var text := a + ",\n" + b;
    assert text[0] == a[0] && text[|text| - 1] == b[|b| - 1];
    assert forall k :: 0 <= k < |text| + 1 ==> (text + "\n")[k] in a || (text + "\n")[k] in b || (text + "\n")[k] in ",\n";
  }

  lemma {:induction false} WrappedNormalised(a: string, b: string)
    requires '\n' !in a && '\n' !in b
    ensures Normalise(a + ",\n" + b) == a + "," + b
  {
    CommaNewlineMerged(a, b);
    NormaliseNoNewline(a);
    NormaliseNoNewline(b);
  }

  lemma {:induction false} TwoPlainKept(a: string, b: string)
    requires PlainTag(a) && PlainTag(b)
    ensures KeptTags([a, b]) == [a, b]
  {
    NormalisedTag(a);
    NormalisedTag(b);
    KeptTwo(a, b, a, b);
  }

  /** `tag1,` wrapped onto `tag2` before the marker line gives the tags `tag1` and `tag2`. */
  lemma ContinuationExample()
    ensures FileTags("tag1,\ntag2\nNegative prompt") == ["tag1", "tag2"]
  {
    assert "tag1,\ntag2\nNegative prompt" == "tag1" + ",\n" + "tag2" + "\n" + Marker + "";
    PlainWord("tag1");
    PlainWord("tag2");
    WrappedLineMerged("tag1", "tag2", "");
  }

  /**
   * Without the marker only the first line is analysed, so a comma at its end
   * does not join the next line: `a,` followed by more lines gives only `a`.
   */
  lemma {:induction false} FirstLineOnly(a: string, rest: string)
    requires PlainTag(a) && !Contains(a + ",\n" + rest, Marker)
    ensures FileTags(a + ",\n" + rest) == [a]
  {
    var line := a + ",";
    FirstLineSegment(a, rest);
    NormaliseNoNewline(line);
    RunThenEnd(a);
    NormalisedTag(a);
    KeptSingle(a, a);
  }

  /** Without the marker, the segment of `a,` followed by more lines is `a,`. */
  lemma FirstLineSegment(a: string, rest: string)
    requires PlainTag(a) && !Contains(a + ",\n" + rest, Marker)
    ensures Segment(a + ",\n" + rest) == a + "," && '\n' !in a + ","
  {
    var line := a + ",";
    assert '\n' !in line;
    assert a + ",\n" + rest == line + "\n" + rest;
    SegmentIgnoresLaterLines(line, rest);
    assert IsStripped(line) by {
      assert line[0] == a[0] && line[|line| - 1] == ',';
    }
    StripStripped(line);
  }

  /** A run followed by a final comma is the one match. */
  lemma RunThenEnd(a: string)
    requires IsRun(a)
    ensures Tokens(a + ",") == [a]
  {
    var line := a + ",";
    RunMatched(line, 0, |a|);
    CommaSkipped(line, |a|);
    assert Scan(line, |a| + 1) == [];
    assert line[0..|a|] == a;
  }

  /** Without the marker, `tag1,` wrapped onto `tag2` gives only the tag `tag1`. */
  lemma UnmarkedContinuationExample()
    ensures FileTags("tag1,\ntag2") == ["tag1"]
  {
    assert "tag1,\ntag2" == "tag1" + ",\n" + "tag2";
    PlainWord("tag1");
    LowerCaseHasNoMarker("tag1,\ntag2");
    FirstLineOnly("tag1", "tag2");
  }

  lemma {:induction false} MergedRuns(a: string, b: string)
    requires IsRun(a) && IsRun(b)
    ensures Tokens(a + "," + b) == [a, b]
  {
    var s := a + "," + b;
    var n := |a|;
    forall k | 0 <= k < |s| && k != n ensures !IsSep(s[k]) {
      if k < n {
        assert s[k] == a[k];
      } else {
        assert s[k] == b[k - n - 1];
      }
    }
    CommaSplit(s, n);
    assert s[..n] == a && s[n + 1..] == b;
  }

  // ---------------------------------------------------------------------------
  // Accumulating `all_tags` over the walked files

  /** One walked file: its name and, unless reading it raised, its text. */
  datatype TextFile = TextFile(name: string, content: Option<string>)

  predicate IsTextFile(name: string) {
    EndsWith(name, ".txt")
  }

  /** `all_tags` after the walk has visited `files`. */
  function AllTags(files: seq<TextFile>): seq<string> {
    if files == [] then []
    else
      var f := files[|files| - 1];
      AllTags(files[..|files| - 1])
      + (if IsTextFile(f.name) && f.content.Some? then FileTags(f.content.value) else [])
  }

  lemma {:induction false} AllTagsAreTags(files: seq<TextFile>)
    ensures forall k :: 0 <= k < |AllTags(files)| ==> IsTag(AllTags(files)[k])
  {
    if files != [] {
      AllTagsAreTags(files[..|files| - 1]);
      var f := files[|files| - 1];
      if IsTextFile(f.name) && f.content.Some? {
        FileTagsAreTags(f.content.value);
      }
    }
  }

  /** Files that are not `.txt` or could not be read contribute nothing. */
  lemma {:induction false} SkippedFilesAddNothing(files: seq<TextFile>, f: TextFile)
    requires !IsTextFile(f.name) || f.content.None?
    ensures AllTags(files + [f]) == AllTags(files)
  {
    assert (files + [f])[..|files|] == files;
  }

  /** The collected tags are exactly the tags of the readable `.txt` files. */
  lemma AllTagsMembers(files: seq<TextFile>, t: string)
    ensures t in AllTags(files) <==>
      exists k :: 0 <= k < |files| && Contributes(files[k]) && t in FileTags(files[k].content.value)
  {
    if t in AllTags(files) {
      var k := AllTagSource(files, t);
    }
    if exists k :: 0 <= k < |files| && Contributes(files[k]) && t in FileTags(files[k].content.value) {
      var k :| 0 <= k < |files| && Contributes(files[k]) && t in FileTags(files[k].content.value);
      AllTagOf(files, k, t);
    }
  }

  /** A walked file whose tags are collected: a readable `.txt` file. */
  predicate Contributes(f: TextFile) {
    IsTextFile(f.name) && f.content.Some?
  }

  /** The file a collected tag comes from. */
  lemma {:induction false} AllTagSource(files: seq<TextFile>, t: string) returns (k: nat)
    requires t in AllTags(files)
    ensures k < |files| && Contributes(files[k]) && t in FileTags(files[k].content.value)
    decreases |files|
  {
    var init := files[..|files| - 1];
    if t in AllTags(init) {
      k := AllTagSource(init, t);
      assert files[k] == init[k];
    } else {
      k := |files| - 1;
    }
  }

  /** Every tag of a readable `.txt` file is collected. */
  lemma {:induction false} AllTagOf(files: seq<TextFile>, k: nat, t: string)
    requires k < |files| && Contributes(files[k]) && t in FileTags(files[k].content.value)
    ensures t in AllTags(files)
    decreases |files|
  {
    var init := files[..|files| - 1];
    var last := files[|files| - 1];
    assert files == init + [last];
    if k < |init| {
      AllTagOfInit(files, k, t);
      AllTagOf(init, k, t);
      AllTagsKeeps(init, last, t);
    } else {
      AllTagsAddsLast(init, last, t);
    }
  }

  lemma AllTagOfInit(files: seq<TextFile>, k: nat, t: string)
    requires k < |files| - 1 && Contributes(files[k]) && t in FileTags(files[k].content.value)
    ensures var init := files[..|files| - 1]; Contributes(init[k]) && t in FileTags(init[k].content.value)
  {
    assert files[..|files| - 1][k] == files[k];
  }

  lemma AllTagsKeeps(files: seq<TextFile>, f: TextFile, t: string)
    requires t in AllTags(files)
    ensures t in AllTags(files + [f])
  {
    assert (files + [f])[..|files|] == files;
  }

  lemma AllTagsAddsLast(files: seq<TextFile>, f: TextFile, t: string)
    requires Contributes(f) && t in FileTags(f.content.value)
    ensures t in AllTags(files + [f])
  {
    assert (files + [f])[..|files|] == files;
  }

  /** The nested loops of the walk: append every kept tag of every readable `.txt` file. */
  method CollectTags(files: seq<TextFile>) returns (allTags: seq<string>)
    ensures allTags == AllTags(files)
    ensures forall k :: 0 <= k < |allTags| ==> IsTag(allTags[k])
  {
    allTags := [];
    for i := 0 to |files|
      invariant allTags == AllTags(files[..i])
    {
      var file := files[i];
      TakeSnoc(files, i);
      assert files[..i + 1][i] == file;
      if IsTextFile(file.name) && file.content.Some? {
        var found := Tokens(Normalise(Segment(file.content.value)));
        allTags := AppendKept(allTags, found);
      }
    }
    TakeAll(files);
    AllTagsAreTags(files);
  }

  /** The inner loop over one file's matches: append each one's normalised form unless it is empty. */
  method AppendKept(allTags: seq<string>, found: seq<string>) returns (r: seq<string>)
    ensures r == allTags + KeptTags(found)
  {
    r := allTags;
    for j := 0 to |found|
      invariant r == allTags + KeptTags(found[..j])
    {
      var tag := NormaliseTag(found[j]);
      TakeSnoc(found, j);
      KeptSnoc(found[..j], found[j]);
      var kept := KeptTags(found[..j]);
      if tag != [] {
        AppendAssoc(allTags, kept, [tag]);
        r := r + [tag];
      } else {
        assert kept + [] == kept;
      }
    }
    TakeAll(found);
  }

  // ---------------------------------------------------------------------------
  // Counting (`Counter(all_tags)`)

  /** One `(tag, count)` entry of the counter. */
  datatype Item = Item(tag: string, count: nat)

  predicate DistinctTags(items: seq<Item>) {
    forall i, j :: 0 <= i < j < |items| ==> items[i].tag != items[j].tag
  }

  function TagSet(items: seq<Item>): set<string> {
    set k | 0 <= k < |items| :: items[k].tag
  }

  /** The count the counter holds for `t`: 0 when it has no entry for it. */
  function CountOf(items: seq<Item>, t: string): nat {
    if items == [] then 0 else if items[0].tag == t then items[0].count else CountOf(items[1..], t)
  }

  /** The sum of all counts. */
  function Total(items: seq<Item>): nat {
    if items == [] then 0 else items[0].count + Total(items[1..])
  }

  predicate PositiveCounts(items: seq<Item>) {
    forall k :: 0 <= k < |items| ==> items[k].count > 0
  }

  /** Counting one more occurrence of `t`: its entry goes up by one, or a new entry is appended. */
  function Bump(items: seq<Item>, t: string): seq<Item> {
    if items == [] then [Item(t, 1)]
    else if items[0].tag == t then [Item(t, items[0].count + 1)] + items[1..]
    else [items[0]] + Bump(items[1..], t)
  }

  /** Only the count of `t` goes up, by one, and so does the total. */
  lemma {:induction false} BumpCounts(items: seq<Item>, t: string)
    ensures forall u :: CountOf(Bump(items, t), u) == CountOf(items, u) + (if u == t then 1 else 0)
    ensures Total(Bump(items, t)) == Total(items) + 1
  {
    var r := Bump(items, t);
    if items != [] {
      assert r[1..] == if items[0].tag == t then items[1..] else Bump(items[1..], t);
      if items[0].tag != t {
        BumpCounts(items[1..], t);
      }
    }
  }

  /** `t` joins the tags. */
  lemma {:induction false} BumpTagSet(items: seq<Item>, t: string)
    ensures TagSet(Bump(items, t)) == TagSet(items) + {t}
  {
    var r := Bump(items, t);
    if items == [] {
      assert r == [Item(t, 1)] + [];
      TagSetCons(Item(t, 1), []);
    } else {
      var tail := items[1..];
      assert items == [items[0]] + tail;
      TagSetCons(items[0], tail);
      if items[0].tag == t {
        assert r == [r[0]] + tail;
        TagSetCons(r[0], tail);
      } else {
        BumpTagSet(tail, t);
        assert r == [items[0]] + Bump(tail, t);
        TagSetCons(items[0], Bump(tail, t));
      }
    }
  }

  /** Distinct tags stay distinct and counts stay positive. */
  lemma {:induction false} BumpDistinct(items: seq<Item>, t: string)
    requires DistinctTags(items) && PositiveCounts(items)
    ensures DistinctTags(Bump(items, t)) && PositiveCounts(Bump(items, t))
  {
    var r := Bump(items, t);
    if items != [] {
      var tail := items[1..];
      assert items == [items[0]] + tail;
      DistinctCons(items[0], tail);
      if items[0].tag == t {
        assert r == [r[0]] + tail;
        DistinctCons(r[0], tail);
      } else {
        BumpDistinct(tail, t);
        BumpTagSet(tail, t);
        assert r == [items[0]] + Bump(tail, t);
        DistinctCons(items[0], Bump(tail, t));
      }
    }
  }

  /** `Counter(all_tags)`, entries in order of first occurrence. */
  function CountTags(tags: seq<string>): (items: seq<Item>)
    ensures DistinctTags(items) && PositiveCounts(items)
    ensures TagSet(items) == set t | t in tags
    ensures forall u :: CountOf(items, u) == multiset(tags)[u]
    ensures Total(items) == |tags|
  {
    if tags == [] then []
    else
      var init := tags[..|tags| - 1];
      var last := tags[|tags| - 1];
      assert tags == init + [last];
      BumpCounts(CountTags(init), last);
      BumpTagSet(CountTags(init), last);
      BumpDistinct(CountTags(init), last);
      Bump(CountTags(init), last)
  }

  /** With distinct tags, an entry's count is what the counter reports for its tag. */
  lemma {:induction false} CountOfEntry(items: seq<Item>, k: nat)
    requires DistinctTags(items) && k < |items|
    ensures CountOf(items, items[k].tag) == items[k].count
  {
    if k > 0 {
      assert items[1..][k - 1] == items[k];
      CountOfEntry(items[1..], k - 1);
    }
  }

  // ---------------------------------------------------------------------------
  // Sorting by the key `(-count, tag)`

  /** `a` may come before `b`: a higher count, or an equal count and a tag not after `b`'s. */
  predicate KeyLe(a: Item, b: Item) {
    a.count > b.count || (a.count == b.count && (a.tag == b.tag || LexLess(a.tag, b.tag)))
  }

  predicate SortedByKey(s: seq<Item>) {
    forall i, j :: 0 <= i < j < |s| ==> KeyLe(s[i], s[j])
  }

  lemma KeyLeTotal(a: Item, b: Item)
    ensures KeyLe(a, b) || KeyLe(b, a)
  {
    if a.count == b.count && a.tag != b.tag {
      LexLessTotal(a.tag, b.tag);
    }
  }

  lemma KeyLeTransitive(a: Item, b: Item, c: Item)
    requires KeyLe(a, b) && KeyLe(b, c)
    ensures KeyLe(a, c)
  {
    if a.count == b.count == c.count && a.tag != b.tag && b.tag != c.tag {
      LexLessTransitive(a.tag, b.tag, c.tag);
    }
  }

  lemma KeyLeAntisymmetric(a: Item, b: Item)
    requires KeyLe(a, b) && KeyLe(b, a)
    ensures a == b
  {
    if a.tag != b.tag {
      LexLessAsymmetric(a.tag, b.tag);
    }
  }

  function Insert(x: Item, s: seq<Item>): (r: seq<Item>)
    ensures multiset(r) == multiset(s) + multiset{x}
  {
    if s == [] then [x]
    else if KeyLe(x, s[0]) then [x] + s
    else
      assert s == [s[0]] + s[1..];
      [s[0]] + Insert(x, s[1..])
  }

  /** `sorted(items, key=lambda item: (-item[1], item[0]))`. */
  function SortItems(items: seq<Item>): (r: seq<Item>)
    ensures multiset(r) == multiset(items)
  {
    if items == [] then []
    else
      assert items == [items[0]] + items[1..];
      Insert(items[0], SortItems(items[1..]))
  }

  lemma {:induction false} InsertSorted(x: Item, s: seq<Item>)
    requires SortedByKey(s)
    ensures SortedByKey(Insert(x, s))
  {
    if s != [] {
      var r := Insert(x, s);
      if KeyLe(x, s[0]) {
        forall j | 0 < j < |r| ensures KeyLe(x, r[j]) {
          if j > 1 { KeyLeTransitive(x, s[0], s[j - 1]); }
        }
      } else {
        KeyLeTotal(x, s[0]);
        var t := Insert(x, s[1..]);
        InsertSorted(x, s[1..]);
        assert r == [s[0]] + t;
        forall j | 0 <= j < |t| ensures KeyLe(s[0], t[j]) {
          assert t[j] in multiset(t);
          if t[j] != x {
            assert t[j] in multiset(s[1..]);
            var m :| 0 <= m < |s[1..]| && s[1..][m] == t[j];
            assert s[m + 1] == t[j];
          }
        }
      }
    }
  }

  /** The sorted list is ordered by the key. */
  lemma {:induction false} SortItemsSorted(items: seq<Item>)
    ensures SortedByKey(SortItems(items))
  {
    if items != [] {
      SortItemsSorted(items[1..]);
      InsertSorted(items[0], SortItems(items[1..]));
    }
  }

  /**
   * The key orders items totally, so there is only one ordered arrangement of a
   * collection: the result does not depend on the order of the counter's entries
   * nor on the sort's stability.
   */
  lemma {:induction false} SortedUnique(a: seq<Item>, b: seq<Item>)
    requires SortedByKey(a) && SortedByKey(b) && multiset(a) == multiset(b)
    ensures a == b
    decreases |a|
  {
    assert |a| == |multiset(a)| == |b|;
    if a != [] {
      SortedHead(a, b[0]);
      SortedHead(b, a[0]);
      KeyLeAntisymmetric(a[0], b[0]);
      MultisetTail(a, b);
      SortedUnique(a[1..], b[1..]);
      assert a == [a[0]] + a[1..] && b == [b[0]] + b[1..];
    }
  }

  /** The head of an ordered list has a key no greater than any of its elements, and its tail is ordered. */
  lemma SortedHead(s: seq<Item>, x: Item)
    requires SortedByKey(s) && x in multiset(s)
    ensures KeyLe(s[0], x) && SortedByKey(s[1..])
  {
    var j :| 0 <= j < |s| && s[j] == x;
    if j == 0 {
      assert KeyLe(x, x);
    } else {
      assert KeyLe(s[0], s[j]);
    }
    forall i, k | 0 <= i < k < |s| - 1 ensures KeyLe(s[1..][i], s[1..][k]) {
      assert s[1..][i] == s[i + 1] && s[1..][k] == s[k + 1];
    }
  }

  lemma MultisetTail(a: seq<Item>, b: seq<Item>)
    requires a != [] && b != [] && a[0] == b[0] && multiset(a) == multiset(b)
    ensures multiset(a[1..]) == multiset(b[1..])
  {
    assert a == [a[0]] + a[1..] && b == [b[0]] + b[1..];
    assert multiset(a) == multiset{a[0]} + multiset(a[1..]);
    assert multiset(b) == multiset{b[0]} + multiset(b[1..]);
    assert multiset(a[1..]) == multiset(a) - multiset{a[0]};
    assert multiset(b[1..]) == multiset(b) - multiset{b[0]};
  }

  /** Inserting adds the item's tag to the tags. */
  lemma {:induction false} InsertTagSet(x: Item, s: seq<Item>)
    ensures TagSet(Insert(x, s)) == TagSet(s) + {x.tag}
  {
    if s != [] && !KeyLe(x, s[0]) {
      InsertTagSet(x, s[1..]);
      TagSetCons(s[0], s[1..]);
      TagSetCons(s[0], Insert(x, s[1..]));
      assert s == [s[0]] + s[1..];
    } else {
      TagSetCons(x, s);
      if s == [] {
        assert Insert(x, s) == [x] + s;
      }
    }
  }

  /** Inserting an item whose tag is new keeps the tags distinct. */
  lemma {:induction false} InsertDistinct(x: Item, s: seq<Item>)
    requires DistinctTags(s) && x.tag !in TagSet(s)
    ensures DistinctTags(Insert(x, s))
  {
    if s != [] && !KeyLe(x, s[0]) {
      assert s == [s[0]] + s[1..];
      DistinctCons(s[0], s[1..]);
      TagSetCons(s[0], s[1..]);
      InsertDistinct(x, s[1..]);
      InsertTagSet(x, s[1..]);
      DistinctCons(s[0], Insert(x, s[1..]));
    } else {
      DistinctCons(x, s);
      if s == [] {
        assert Insert(x, s) == [x] + s;
      }
    }
  }

  lemma TagSetHead(s: seq<Item>)
    requires s != []
    ensures TagSet(s) == {s[0].tag} + TagSet(s[1..])
  {
    assert s == [s[0]] + s[1..];
    TagSetCons(s[0], s[1..]);
  }

  lemma TagSetCons(x: Item, s: seq<Item>)
    ensures TagSet([x] + s) == {x.tag} + TagSet(s)
  {
    var r := [x] + s;
    assert r[0].tag == x.tag;
    forall u | u in TagSet(r) ensures u in {x.tag} + TagSet(s) {
      var k :| 0 <= k < |r| && r[k].tag == u;
      if k > 0 { assert s[k - 1].tag == u; }
    }
    forall u | u in TagSet(s) ensures u in TagSet(r) {
      var k :| 0 <= k < |s| && s[k].tag == u;
      assert r[k + 1].tag == u;
    }
  }

  lemma DistinctCons(x: Item, s: seq<Item>)
    ensures DistinctTags([x] + s) <==> DistinctTags(s) && x.tag !in TagSet(s)
  {
    var r := [x] + s;
    if DistinctTags(r) {
      forall i, j | 0 <= i < j < |s| ensures s[i].tag != s[j].tag {
        assert r[i + 1] == s[i] && r[j + 1] == s[j];
      }
      forall k | 0 <= k < |s| ensures s[k].tag != x.tag {
        assert r[k + 1] == s[k] && r[0] == x;
        assert r[0].tag != r[k + 1].tag;
      }
    }
    if DistinctTags(s) && x.tag !in TagSet(s) {
      forall i, j | 0 <= i < j < |r| ensures r[i].tag != r[j].tag {
        if i == 0 {
          assert r[j] == s[j - 1];
        } else {
          assert r[i] == s[i - 1] && r[j] == s[j - 1];
        }
      }
    }
  }

  /** Sorting keeps the set of tags. */
  lemma {:induction false} SortItemsTagSet(items: seq<Item>)
    ensures TagSet(SortItems(items)) == TagSet(items)
  {
    if items != [] {
      SortItemsTagSet(items[1..]);
      InsertTagSet(items[0], SortItems(items[1..]));
      TagSetHead(items);
    }
  }

  /** Sorting keeps distinct tags distinct. */
  lemma {:induction false} SortItemsDistinct(items: seq<Item>)
    requires DistinctTags(items)
    ensures DistinctTags(SortItems(items))
  {
    if items != [] {
      assert items == [items[0]] + items[1..];
      DistinctCons(items[0], items[1..]);
      TagSetCons(items[0], items[1..]);
      SortItemsDistinct(items[1..]);
      SortItemsTagSet(items[1..]);
      InsertDistinct(items[0], SortItems(items[1..]));
    }
  }

  /** Between distinct tags the order is strict: count descending, then tag ascending. */
  lemma StrictOrder(s: seq<Item>)
    requires SortedByKey(s) && DistinctTags(s)
    ensures forall i, j :: 0 <= i < j < |s| ==>
      s[i].count > s[j].count || (s[i].count == s[j].count && LexLess(s[i].tag, s[j].tag))
  {
  }

  /** `{a: 3, b: 5, c: 3}` sorts to `b`, `a`, `c`. */
  lemma SortExample()
    ensures SortItems([Item("a", 3), Item("b", 5), Item("c", 3)]) == [Item("b", 5), Item("a", 3), Item("c", 3)]
  {
    var items := [Item("a", 3), Item("b", 5), Item("c", 3)];
    var want := [Item("b", 5), Item("a", 3), Item("c", 3)];
    SortItemsSorted(items);
    SortExampleOrder();
    SortExampleSame();
    SortedUnique(SortItems(items), want);
  }

  lemma SortExampleOrder()
    ensures SortedByKey([Item("b", 5), Item("a", 3), Item("c", 3)])
  {
    assert LexLess("a", "c");
  }

  lemma SortExampleSame()
    ensures multiset([Item("b", 5), Item("a", 3), Item("c", 3)]) == multiset([Item("a", 3), Item("b", 5), Item("c", 3)])
  {
  }

  // ---------------------------------------------------------------------------
  // The report

  /** `f"{tag.strip()} - {count}\n"`. */
  function Line(item: Item): string {
    Strip(item.tag) + " - " + NatToDecimal(item.count) + "\n"
  }

  /** The text of a report line without its line break. */
  function LineText(item: Item): string {
    item.tag + " - " + NatToDecimal(item.count)
  }

  /** A trimmed one-line tag gives a line that is its text and one line break. */
  lemma LineOfTag(x: Item)
    requires IsStripped(x.tag) && '\n' !in x.tag
    ensures Line(x) == LineText(x) + "\n" && '\n' !in LineText(x)
  {
    StripStripped(x.tag);
    var body := LineText(x);
    var d := NatToDecimal(x.count);
    forall k | 0 <= k < |body| ensures body[k] != '\n' {
      if k < |x.tag| { assert body[k] == x.tag[k]; }
      else if k >= |x.tag| + 3 { assert body[k] == d[k - |x.tag| - 3]; }
    }
  }

  /** The whole report: one line per entry, in order. */
  function Report(items: seq<Item>): string {
    if items == [] then [] else Line(items[0]) + Report(items[1..])
  }

  lemma {:induction false} ReportSnoc(items: seq<Item>, x: Item)
    ensures Report(items + [x]) == Report(items) + Line(x)
  {
    if items == [] {
      assert items + [x] == [x];
    } else {
      assert (items + [x])[1..] == items[1..] + [x];
      ReportSnoc(items[1..], x);
    }
  }

  /** The output loop: write each entry's line. */
  method WriteReport(items: seq<Item>) returns (out: string)
    ensures out == Report(items)
  {
    out := [];
    for i := 0 to |items|
      invariant out == Report(items[..i])
    {
      ReportSnoc(items[..i], items[i]);
      TakeSnoc(items, i);
      out := out + Line(items[i]);
    }
    TakeAll(items);
  }

  /** The lines of a text, each ended by a line break (an unterminated last line counts too). */
  function Lines(s: string): seq<string>
    decreases |s|
  {
    if s == [] then []
    else
      var n := LineEnd(s);
      if n == |s| then [s] else [s[..n]] + Lines(s[n + 1..])
  }

  lemma LinesCons(l: string, rest: string)
    requires '\n' !in l
    ensures Lines(l + "\n" + rest) == [l] + Lines(rest)
  {
    var s := l + "\n" + rest;
    assert s[..|l|] == l && s[|l|] == '\n';
    LineEndOf(s, |l|);
    assert s[|l| + 1..] == rest;
  }

  /**
   * Read back line by line, the report holds exactly one line per entry, in
   * order, each `<tag> - <count>`.
   */
  lemma {:induction false} ReportLines(items: seq<Item>)
    requires forall k :: 0 <= k < |items| ==> IsStripped(items[k].tag) && '\n' !in items[k].tag
    ensures |Lines(Report(items))| == |items|
    ensures forall k :: 0 <= k < |items| ==> Lines(Report(items))[k] == items[k].tag + " - " + NatToDecimal(items[k].count)
  {
    if items != [] {
      var x := items[0];
      LineOfTag(x);
      LinesCons(LineText(x), Report(items[1..]));
      ReportLines(items[1..]);
      var rest := Lines(Report(items[1..]));
      assert Lines(Report(items)) == [LineText(x)] + rest;
      assert forall k :: 0 < k < |items| ==> Lines(Report(items))[k] == rest[k - 1] && items[k] == items[1..][k - 1];
    }
  }

  /** The whole analyser, from the walked files to the report text. */
  method AnalyseTextFiles(files: seq<TextFile>) returns (report: string)
    ensures report == Report(SortItems(CountTags(AllTags(files))))
  {
    var allTags := CollectTags(files);
    var counts := CountTags(allTags);
    var sorted := SortItems(counts);
    report := WriteReport(sorted);
  }

  /**
   * What the report says: one line `<tag> - <count>` per distinct tag found,
   * each count the number of occurrences of its tag, the counts adding up to
   * the number of tags found, ordered by count descending and tag ascending.
   */
  lemma ReportSummary(files: seq<TextFile>)
    ensures var all := AllTags(files);
      var sorted := SortItems(CountTags(all));
      && |Lines(Report(sorted))| == |sorted|
      && (forall k :: 0 <= k < |sorted| ==> Lines(Report(sorted))[k] == sorted[k].tag + " - " + NatToDecimal(sorted[k].count))
      && DistinctTags(sorted) && TagSet(sorted) == (set t | t in all)
      && (forall k :: 0 <= k < |sorted| ==> sorted[k].count == multiset(all)[sorted[k].tag])
      && Total(sorted) == |all|
      && (forall i, j :: 0 <= i < j < |sorted| ==>
            sorted[i].count > sorted[j].count || (sorted[i].count == sorted[j].count && LexLess(sorted[i].tag, sorted[j].tag)))
  {
    var all := AllTags(files);
    var counts := CountTags(all);
    var sorted := SortItems(counts);
    AllTagsAreTags(files);
    SortItemsTagSet(counts);
    SortItemsDistinct(counts);
    SortItemsSorted(counts);
    StrictOrder(sorted);
    forall k | 0 <= k < |sorted|
      ensures IsTag(sorted[k].tag) && sorted[k].count == multiset(all)[sorted[k].tag]
    {
      assert sorted[k] in multiset(counts);
      var m :| 0 <= m < |counts| && counts[m] == sorted[k];
      CountOfEntry(counts, m);
      assert sorted[k].tag in TagSet(counts);
    }
    ReportLines(sorted);
    TotalPermutation(counts, sorted);
  }

  lemma {:induction false} TotalPermutation(a: seq<Item>, b: seq<Item>)
    requires multiset(a) == multiset(b)
    ensures Total(a) == Total(b)
    decreases |a|
  {
    if a != [] {
      assert a[0] in multiset(b);
      var j :| 0 <= j < |b| && b[j] == a[0];
      var b' := b[..j] + b[j + 1..];
      MultisetRemove(a, b, j);
      TotalPermutation(a[1..], b');
      TotalRemove(b, j);
    }
  }

  lemma MultisetRemove(a: seq<Item>, b: seq<Item>, j: nat)
    requires a != [] && j < |b| && b[j] == a[0] && multiset(a) == multiset(b)
    ensures multiset(a[1..]) == multiset(b[..j] + b[j + 1..])
  {
    assert a == [a[0]] + a[1..];
    assert b == b[..j] + [b[j]] + b[j + 1..];
    assert multiset(a[1..]) == multiset(a) - multiset{a[0]};
    assert multiset(b) == multiset(b[..j]) + multiset{b[j]} + multiset(b[j + 1..]);
    assert multiset(b[..j] + b[j + 1..]) == multiset(b[..j]) + multiset(b[j + 1..]);
  }

  lemma {:induction false} TotalRemove(b: seq<Item>, j: nat)
    requires j < |b|
    ensures Total(b) == b[j].count + Total(b[..j] + b[j + 1..])
  {
    if j > 0 {
      assert (b[..j] + b[j + 1..])[1..] == b[1..][..j - 1] + b[1..][j..];
      assert (b[..j] + b[j + 1..])[0] == b[0];
      TotalRemove(b[1..], j - 1);
    } else {
      assert b[..j] + b[j + 1..] == b[1..];
    }
  }
}
