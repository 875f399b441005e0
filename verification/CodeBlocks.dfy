/** The fenced-code splitter of src/lib/codeBlocks.ts. The regular expression, three backticks, a language run, a
    newline, a lazy body and three backticks, is written out as a scanner. */
module CodeBlocks {
  import opened Wrappers

  datatype Segment = Text(content: string) | Code(language: Option<string>, content: string)

  predicate LanguageChar(c: char) {
    'a' <= c <= 'z' || 'A' <= c <= 'Z' || '0' <= c <= '9' || c == '_' || c == '+' || c == '-'
  }

  /** The characters of a language, one by one. */
  lemma LanguageAlphabet(c: char)
    ensures LanguageChar(c) <==>
              || c in "abcdefghi" || c in "jklmnopqr" || c in "stuvwxyz"
              || c in "ABCDEFGHI" || c in "JKLMNOPQR" || c in "STUVWXYZ"
              || c in "0123456789" || c in "_+-"
  {
  }

  predicate FenceAt(text: string, i: nat) {
    i + 3 <= |text| && text[i] == '`' && text[i + 1] == '`' && text[i + 2] == '`'
  }

  // ---------------------------------------------------------------- the expression and its scanner

  /** A match starting at i whose language run ends at l and whose body ends at j. */
  ghost predicate Matches(text: string, i: nat, l: nat, j: nat) {
    && FenceAt(text, i) && i + 3 <= l < j
    && (forall k :: i + 3 <= k < l ==> k < |text| && LanguageChar(text[k]))
    && l < |text| && text[l] == '\n'
    && FenceAt(text, j)
  }

  /** One element of `text.matchAll`: where the match lies, and its two groups. */
  datatype Match = Match(start: nat, end: nat, language: string, body: string)

  /** The end of the run of language characters from i on. */
  function LanguageEnd(text: string, i: nat): (l: nat)
    requires i <= |text|
    ensures i <= l <= |text|
    decreases |text| - i
  {
    if i < |text| && LanguageChar(text[i]) then LanguageEnd(text, i + 1) else i
  }

  /** The first three backticks at or after i. */
  function ClosingFence(text: string, i: nat): (j: Option<nat>)
    ensures j.Some? ==> i <= j.value && j.value + 3 <= |text|
    decreases |text| - i
  {
    if i + 3 > |text| then None else if FenceAt(text, i) then Some(i) else ClosingFence(text, i + 1)
  }

  /** The match whose language run ends at l and whose body ends at j. */
  function MatchOf(text: string, i: nat, l: nat, j: nat): Match
    requires i + 3 <= l < j && j + 3 <= |text|
  {
    Match(i, j + 3, text[i + 3..l], text[l + 1..j])
  }

  function MatchAt(text: string, i: nat): (m: Option<Match>)
    ensures m.Some? ==> m.value.start == i && i + 7 <= m.value.end <= |text|
  {
    if !FenceAt(text, i) then None
    else
      var l := LanguageEnd(text, i + 3);
      if l >= |text| || text[l] != '\n' then None
      else
        match ClosingFence(text, l + 1)
        case None => None
        case Some(j) => Some(MatchOf(text, i, l, j))
  }

  /** The leftmost match that starts at or after `from`. */
  function NextMatch(text: string, from: nat): (m: Option<Match>)
    ensures m.Some? ==> from <= m.value.start && m.value.start + 7 <= m.value.end <= |text|
    decreases |text| - from
  {
    if from >= |text| then None
    else if MatchAt(text, from).Some? then MatchAt(text, from)
    else NextMatch(text, from + 1)
  }

  lemma {:induction false} LanguageRun(text: string, i: nat)
    requires i <= |text|
    ensures forall k :: i <= k < LanguageEnd(text, i) ==> LanguageChar(text[k])
    decreases |text| - i
  {
    if i < |text| && LanguageChar(text[i]) {
      LanguageRun(text, i + 1);
    }
  }

  /** A run of language characters up to a newline is the whole run. */
  lemma {:induction false} RunEnds(text: string, i: nat, l: nat)
    requires i <= l < |text| && text[l] == '\n'
    requires forall k :: i <= k < l ==> LanguageChar(text[k])
    ensures LanguageEnd(text, i) == l
    decreases l - i
  {
    if i < l {
      RunEnds(text, i + 1, l);
    }
  }

  lemma {:induction false} FirstFence(text: string, i: nat)
    ensures match ClosingFence(text, i)
            case Some(j) => FenceAt(text, j) && forall k :: i <= k < j ==> !FenceAt(text, k)
            case None => forall k :: i <= k ==> !FenceAt(text, k)
    decreases |text| - i
  {
    if i + 3 <= |text| && !FenceAt(text, i) {
      FirstFence(text, i + 1);
    }
  }

  lemma {:induction false} FirstMatch(text: string, from: nat)
    ensures match NextMatch(text, from)
            case Some(m) =>
              MatchAt(text, m.start) == Some(m) && forall i :: from <= i < m.start ==> MatchAt(text, i).None?
            case None => forall i :: from <= i ==> MatchAt(text, i).None?
    decreases |text| - from
  {
    if from < |text| && MatchAt(text, from).None? {
      FirstMatch(text, from + 1);
    }
  }

  /** The scanner finds a match at i exactly when there is one, with the one language run possible and, the body
      being lazy, the shortest body. */
  lemma ScannerMeetsExpression(text: string, i: nat)
    ensures MatchAt(text, i).Some? <==> exists l: nat, j: nat :: Matches(text, i, l, j)
    ensures MatchAt(text, i).Some? ==>
              exists l: nat, j: nat :: Matches(text, i, l, j) && MatchAt(text, i) == Some(MatchOf(text, i, l, j))
                && forall l': nat, j': nat :: Matches(text, i, l', j') ==> l' == l && j <= j'
  {
    if FenceAt(text, i) {
      var end := LanguageEnd(text, i + 3);
      LanguageRun(text, i + 3);
      FirstFence(text, end + 1);
      forall l: nat, j: nat | Matches(text, i, l, j) ensures l == end {
        RunEnds(text, i + 3, l);
      }
      if MatchAt(text, i).Some? {
        assert Matches(text, i, end, ClosingFence(text, end + 1).value);
      }
    }
  }

  /** `text.matchAll`: each match is the leftmost one that starts at or after the end of the one before. */
  function AllMatches(text: string, from: nat): (matches: seq<Match>)
    requires from <= |text|
    ensures InOrder(text, from, matches)
    decreases |text| - from
  {
    match NextMatch(text, from)
    case None => []
    case Some(m) => [m] + AllMatches(text, m.end)
  }

  /** The matches lie in the text one after another, none before `from`. */
  predicate InOrder(text: string, from: nat, matches: seq<Match>)
    decreases |matches|
  {
    matches == [] ||
    var m := matches[0];
    from <= m.start < m.end <= |text| && InOrder(text, m.end, matches[1..])
  }

  // ---------------------------------------------------------------- parsing

  function TrimFinalNewline(body: string): string {
    if body != [] && body[|body| - 1] == '\n' then body[..|body| - 1] else body
  }

  function CodeSegment(language: string, body: string): Segment {
    Code(if language == [] then None else Some(language), TrimFinalNewline(body))
  }

  /** The text between two matches, if there is any. */
  function TextSegment(text: string, from: nat, until: nat): seq<Segment>
    requires from <= until <= |text|
  {
    if from < until then [Text(text[from..until])] else []
  }

  /** The text from `from` on, cut at the given matches. */
  function Cut(text: string, from: nat, matches: seq<Match>): seq<Segment>
    requires from <= |text| && InOrder(text, from, matches)
    decreases |matches|
  {
    if matches == [] then TextSegment(text, from, |text|)
    else
      var m := matches[0];
      TextSegment(text, from, m.start) + [CodeSegment(m.language, m.body)] + Cut(text, m.end, matches[1..])
  }

  function Parse(text: string): seq<Segment> { Cut(text, 0, AllMatches(text, 0)) }

  /** One turn of the loop: what it pushes and what is still to come make up what was to come before. */
  lemma CutStep(text: string, from: nat, matches: seq<Match>, k: nat)
    requires k < |matches| && from <= |text| && InOrder(text, from, matches[k..])
    ensures var m := matches[k];
            && from <= m.start < m.end <= |text| && InOrder(text, m.end, matches[k + 1..])
            && Cut(text, from, matches[k..]) == TextSegment(text, from, m.start) + [CodeSegment(m.language, m.body)]
                 + Cut(text, m.end, matches[k + 1..])
  {
    assert matches[k..][1..] == matches[k + 1..];
  }

  lemma Regroup<T>(before: seq<T>, pushed: seq<T>, last: T, rest: seq<T>)
    ensures before + pushed + [last] + rest == before + (pushed + [last] + rest)
  {
  }

  method ParseCodeBlocks(text: string) returns (segments: seq<Segment>)
    ensures segments == Parse(text)
  {
    segments := [];
    var lastIndex: nat := 0;
    var matches := AllMatches(text, 0);
    ghost var rest := Parse(text);
    assert matches[0..] == matches;
    for k := 0 to |matches|
      invariant lastIndex <= |text| && InOrder(text, lastIndex, matches[k..])
      invariant rest == Cut(text, lastIndex, matches[k..])
      invariant segments + rest == Parse(text)
    {
      var m := matches[k];
      CutStep(text, lastIndex, matches, k);
      ghost var before := segments;
      rest := Cut(text, m.end, matches[k + 1..]);
      if m.start > lastIndex {
        segments := segments + [Text(text[lastIndex..m.start])];
      }
      segments := segments + [CodeSegment(m.language, m.body)];
      Regroup(before, TextSegment(text, lastIndex, m.start), CodeSegment(m.language, m.body), rest);
      assert segments == before + TextSegment(text, lastIndex, m.start) + [CodeSegment(m.language, m.body)];
      lastIndex := m.end;
    }
    assert rest == TextSegment(text, lastIndex, |text|) && text[lastIndex..|text|] == text[lastIndex..];
    assert lastIndex == |text| ==> segments == segments + rest;
    if lastIndex < |text| {
      segments := segments + [Text(text[lastIndex..])];
    }
  }

  /** A match found inside a window of the text is found in the whole text at that place. */
  lemma MatchInWindow(text: string, a: nat, b: nat, i: nat)
    requires a <= b <= |text| && MatchAt(text[a..b], i).Some?
    ensures MatchAt(text, a + i).Some?
  {
    var window := text[a..b];
    ScannerMeetsExpression(window, i);
    var l: nat, j: nat :| Matches(window, i, l, j);
    WindowMatches(text, a, b, i, l, j);
    ScannerMeetsExpression(text, a + i);
  }

  lemma WindowMatches(text: string, a: nat, b: nat, i: nat, l: nat, j: nat)
    requires a <= b <= |text| && Matches(text[a..b], i, l, j)
    ensures Matches(text, a + i, a + l, a + j)
  {
    var window := text[a..b];
    forall k | a + i + 3 <= k < a + l ensures k < |text| && LanguageChar(text[k]) {
      assert LanguageChar(window[k - a]);
    }
  }

  // ---------------------------------------------------------------- segments tile the text

  predicate NoFence(text: string) {
    forall k :: 0 <= k < |text| ==> !FenceAt(text, k)
  }

  predicate Language(text: string) {
    forall k :: 0 <= k < |text| ==> LanguageChar(text[k])
  }

  function Fenced(language: string, body: string): string { "```" + language + "\n" + body + "```" }

  function Slice(text: string, from: nat, until: nat): seq<string>
    requires from <= until <= |text|
  {
    if from < until then [text[from..until]] else []
  }

  /** The stretches of the text that the segments stand for. */
  function Pieces(text: string, from: nat, matches: seq<Match>): seq<string>
    requires from <= |text| && InOrder(text, from, matches)
    decreases |matches|
  {
    if matches == [] then Slice(text, from, |text|)
    else
      var m := matches[0];
      Slice(text, from, m.start) + [text[m.start..m.end]] + Pieces(text, m.end, matches[1..])
  }

  function Concat(pieces: seq<string>): string {
    if pieces == [] then [] else pieces[0] + Concat(pieces[1..])
  }

  /** A text segment is its piece, which holds no match; a code segment's piece is a fence around a language and
      a body without fences, and it shows that body less a final newline. */
  ghost predicate StandsFor(segment: Segment, piece: string) {
    match segment
    case Text(content) => content == piece && content != [] && AllMatches(content, 0) == []
    case Code(_, _) => exists language, body :: CodePiece(segment, piece, language, body)
  }

  predicate CodePiece(segment: Segment, piece: string, language: string, body: string) {
    && piece == Fenced(language, body) && Language(language) && NoFence(body)
    && segment.Code? && segment.language == (if language == "" then None else Some(language))
    && (body == segment.content + "\n" || (body == segment.content && (body == "" || body[|body| - 1] != '\n')))
  }

  lemma MatchFreeWindow(text: string, from: nat, until: nat)
    requires from <= until <= |text|
    requires forall i :: from <= i < until ==> MatchAt(text, i).None?
    ensures AllMatches(text[from..until], 0) == []
  {
    var window := text[from..until];
    FirstMatch(window, 0);
    var m := NextMatch(window, 0);
    if m.Some? { MatchInWindow(text, from, until, m.value.start); }
  }

  lemma TextStandsForItself(text: string, from: nat, until: nat)
    requires from <= until <= |text|
    requires forall i :: from <= i < until ==> MatchAt(text, i).None?
    ensures AllStandFor(TextSegment(text, from, until), Slice(text, from, until))
  {
    MatchFreeWindow(text, from, until);
  }

  lemma SliceJoin(text: string, a: nat, b: nat, c: nat)
    requires a <= b <= c <= |text|
    ensures text[a..b] + text[b..c] == text[a..c]
  {
  }

  lemma FencedSlice(text: string, i: nat, l: nat, j: nat)
    requires FenceAt(text, i) && FenceAt(text, j) && i + 3 <= l < j && text[l] == '\n'
    ensures text[i..j + 3] == Fenced(text[i + 3..l], text[l + 1..j])
  {
    assert text[i..i + 3] == "```" && text[l..l + 1] == "\n" && text[j..j + 3] == "```";
    SliceJoin(text, i, i + 3, l);
    SliceJoin(text, i, l, l + 1);
    SliceJoin(text, i, l + 1, j);
    SliceJoin(text, i, j, j + 3);
  }

  lemma NoFenceInSlice(text: string, a: nat, b: nat)
    requires a <= b <= |text| && forall k :: a <= k < b ==> !FenceAt(text, k)
    ensures NoFence(text[a..b])
  {
    var slice := text[a..b];
    forall k: nat | k < |slice| ensures !FenceAt(slice, k) {
      assert !FenceAt(text, a + k);
    }
  }

  /** A match is a fence around its two groups, the first made of language characters, the second fence-free. */
  lemma MatchIsFenced(text: string, m: Match)
    requires MatchAt(text, m.start) == Some(m)
    ensures text[m.start..m.end] == Fenced(m.language, m.body) && Language(m.language) && NoFence(m.body)
  {
    var i := m.start;
    var l := LanguageEnd(text, i + 3);
    var j := ClosingFence(text, l + 1).value;
    assert m == MatchOf(text, i, l, j);
    LanguageRun(text, i + 3);
    FirstFence(text, l + 1);
    NoFenceInSlice(text, l + 1, j);
    FencedSlice(text, i, l, j);
  }

  lemma MatchStandsForCode(text: string, m: Match)
    requires MatchAt(text, m.start) == Some(m)
    ensures StandsFor(CodeSegment(m.language, m.body), text[m.start..m.end])
  {
    MatchIsFenced(text, m);
    assert CodePiece(CodeSegment(m.language, m.body), text[m.start..m.end], m.language, m.body);
  }

  lemma {:induction false} ConcatAppend(a: seq<string>, b: seq<string>)
    ensures Concat(a + b) == Concat(a) + Concat(b)
  {
    var all := a + b;
    if a == [] {
      assert all == b;
    } else {
      assert all[0] == a[0] && all[1..] == a[1..] + b;
      ConcatAppend(a[1..], b);
      assert a[0] + (Concat(a[1..]) + Concat(b)) == a[0] + Concat(a[1..]) + Concat(b);
    }
  }

  lemma SliceConcat(text: string, from: nat, until: nat)
    requires from <= until <= |text|
    ensures Concat(Slice(text, from, until)) == text[from..until]
  {
    if from < until { assert Slice(text, from, until)[1..] == []; }
  }

  ghost predicate AllStandFor(segments: seq<Segment>, pieces: seq<string>) {
    |segments| == |pieces| && forall k :: 0 <= k < |segments| ==> StandsFor(segments[k], pieces[k])
  }

  lemma StandForAppend(s: seq<Segment>, p: seq<string>, t: seq<Segment>, q: seq<string>)
    requires AllStandFor(s, p) && AllStandFor(t, q)
    ensures AllStandFor(s + t, p + q)
  {
  }

  /** What `matchAll` found: each match is leftmost, and none is left after the last. */
  ghost predicate FoundIn(text: string, from: nat, matches: seq<Match>)
    requires from <= |text| && InOrder(text, from, matches)
    decreases |matches|
  {
    if matches == [] then forall i :: from <= i ==> MatchAt(text, i).None?
    else
      var m := matches[0];
      && MatchAt(text, m.start) == Some(m)
      && (forall i :: from <= i < m.start ==> MatchAt(text, i).None?)
      && FoundIn(text, m.end, matches[1..])
  }

  lemma {:induction false} AllMatchesFound(text: string, from: nat)
    requires from <= |text|
    ensures FoundIn(text, from, AllMatches(text, from))
    decreases |text| - from
  {
    FirstMatch(text, from);
    if NextMatch(text, from).Some? {
      AllMatchesFound(text, NextMatch(text, from).value.end);
    }
  }

  lemma ConcatJoin(a: seq<string>, piece: string, b: seq<string>)
    ensures Concat(a + [piece] + b) == Concat(a) + piece + Concat(b)
  {
    ConcatAppend(a + [piece], b);
    ConcatAppend(a, [piece]);
    assert Concat([piece]) == piece + Concat([]);
  }

  lemma {:induction false} PiecesTile(text: string, from: nat, matches: seq<Match>)
    requires from <= |text| && InOrder(text, from, matches)
    ensures Concat(Pieces(text, from, matches)) == text[from..]
    decreases |matches|
  {
    if matches == [] {
      SliceConcat(text, from, |text|);
    } else {
      var m := matches[0];
      var end := m.end;
      PiecesTile(text, end, matches[1..]);
      SliceConcat(text, from, m.start);
      ConcatJoin(Slice(text, from, m.start), text[m.start..end], Pieces(text, end, matches[1..]));
      assert text[from..] == text[from..m.start] + text[m.start..end] + text[end..];
    }
  }

  lemma {:induction false} PiecesStandFor(text: string, from: nat, matches: seq<Match>)
    requires from <= |text| && InOrder(text, from, matches) && FoundIn(text, from, matches)
    ensures AllStandFor(Cut(text, from, matches), Pieces(text, from, matches))
    decreases |matches|
  {
    if matches == [] {
      TextStandsForItself(text, from, |text|);
    } else {
      var m := matches[0];
      var end := m.end;
      var piece, segment := text[m.start..end], CodeSegment(m.language, m.body);
      PiecesStandFor(text, end, matches[1..]);
      TextStandsForItself(text, from, m.start);
      MatchStandsForCode(text, m);
      var head, headPieces := TextSegment(text, from, m.start), Slice(text, from, m.start);
      StandForAppend(head, headPieces, [segment], [piece]);
      StandForAppend(head + [segment], headPieces + [piece], Cut(text, end, matches[1..]),
          Pieces(text, end, matches[1..]));
    }
  }

  /** The pieces behind the segments, put together, are the text: nothing is lost, repeated or moved. */
  lemma SegmentsTileText(text: string)
    ensures var pieces := Pieces(text, 0, AllMatches(text, 0));
            Concat(pieces) == text && AllStandFor(Parse(text), pieces)
  {
    AllMatchesFound(text, 0);
    PiecesTile(text, 0, AllMatches(text, 0));
    PiecesStandFor(text, 0, AllMatches(text, 0));
  }

  /** Parsing a text segment again yields only that segment. */
  lemma TextSegmentsAreStable(text: string, k: nat)
    requires k < |Parse(text)| && Parse(text)[k].Text?
    ensures Parse(Parse(text)[k].content) == [Parse(text)[k]]
  {
    SegmentsTileText(text);
    var piece := Parse(text)[k].content;
    assert StandsFor(Parse(text)[k], Pieces(text, 0, AllMatches(text, 0))[k]);
    assert piece[0..|piece|] == piece;
  }

  // ---------------------------------------------------------------- print and parse

  function PrintSegment(segment: Segment): string {
    match segment
    case Text(content) => content
    case Code(language, content) => Fenced(if language.None? then [] else language.value, content + "\n")
  }

  function Print(segments: seq<Segment>): string {
    if segments == [] then [] else PrintSegment(segments[0]) + Print(segments[1..])
  }

  predicate PrintableSegment(segment: Segment) {
    match segment
    case Text(content) => content != [] && NoFence(content)
    case Code(language, content) =>
      NoFence(content) && (language.Some? ==> language.value != [] && Language(language.value))
  }

  /** Well-formed segments, no two texts in a row. */
  predicate Printable(segments: seq<Segment>) {
    segments == []
    || (&& PrintableSegment(segments[0])
        && (|segments| > 1 && segments[0].Text? ==> segments[1].Code?)
        && Printable(segments[1..]))
  }

  lemma {:induction false} ClosingFenceIs(text: string, i: nat, j: nat)
    requires i <= j && FenceAt(text, j)
    requires forall k :: i <= k < j ==> !FenceAt(text, k)
    ensures ClosingFence(text, i) == Some(j)
    decreases j - i
  {
    if i < j {
      assert !FenceAt(text, i);
      ClosingFenceIs(text, i + 1, j);
    }
  }

  /** The characters of a printed code block, one by one. */
  lemma FencedChars(language: string, content: string, rest: string)
    ensures var s := Fenced(language, content + "\n") + rest;
            var l := 3 + |language|;
            var j := l + 1 + |content| + 1;
            && j + 3 <= |s| && FenceAt(s, 0) && s[l] == '\n' && s[j - 1] == '\n' && FenceAt(s, j)
            && s[3..l] == language && s[l + 1..j - 1] == content && s[l + 1..j] == content + "\n" && s[j + 3..] == rest
  {
    var s, l := Fenced(language, content + "\n") + rest, 3 + |language|;
    var j := l + 1 + |content| + 1;
    assert s == ("```" + language + "\n" + content + "\n") + ("```" + rest);
    assert s[j..] == "```" + rest;
    assert s[j] == s[j..][0] && s[j + 1] == s[j..][1] && s[j + 2] == s[j..][2];
  }

  /** Parts that match, with no earlier fence in the body, are what the scanner finds. */
  lemma MatchFromParts(text: string, i: nat, l: nat, j: nat)
    requires Matches(text, i, l, j)
    requires forall k :: l + 1 <= k < j ==> !FenceAt(text, k)
    ensures NextMatch(text, i) == Some(MatchOf(text, i, l, j))
  {
    RunEnds(text, i + 3, l);
    ClosingFenceIs(text, l + 1, j);
    assert MatchAt(text, i) == Some(MatchOf(text, i, l, j));
  }

  lemma PrintedCodeParts(text: string, from: nat, language: string, content: string, rest: string)
    requires from <= |text| && text[from..] == Fenced(language, content + "\n") + rest
    requires Language(language) && NoFence(content)
    ensures var l := from + 3 + |language|;
            var j := l + 1 + |content| + 1;
            && Matches(text, from, l, j)
            && MatchOf(text, from, l, j)
                 == Match(from, from + |Fenced(language, content + "\n")|, language, content + "\n")
            && text[j + 3..] == rest
  {
    var suffix := text[from..];
    var l := 3 + |language|;
    var j := l + 1 + |content| + 1;
    FencedChars(language, content, rest);
    assert forall k :: 0 <= k < |suffix| ==> text[from + k] == suffix[k];
    forall k | from + 3 <= k < from + l ensures k < |text| && LanguageChar(text[k]) {
      assert text[k] == suffix[3..l][k - from - 3];
    }
    assert text[from + 3..from + l] == suffix[3..l];
    assert text[from + l + 1..from + j] == suffix[l + 1..j];
    assert text[from + j + 3..] == suffix[j + 3..];
  }

  /** A printed code block is found where it stands. */
  lemma PrintedCodeMatches(text: string, from: nat, language: string, content: string, rest: string)
    requires from <= |text| && text[from..] == Fenced(language, content + "\n") + rest
    requires Language(language) && NoFence(content)
    ensures var end := from + |Fenced(language, content + "\n")|;
            && NextMatch(text, from) == Some(Match(from, end, language, content + "\n"))
            && text[end..] == rest
  {
    var l := from + 3 + |language|;
    var j := l + 1 + |content| + 1;
    PrintedCodeParts(text, from, language, content, rest);
    PrintedBodyHasNoFence(text, l + 1, j, content);
    MatchFromParts(text, from, l, j);
  }

  lemma PrintedBodyHasNoFence(text: string, start: nat, end: nat, content: string)
    requires start <= end <= |text| && text[start..end] == content + "\n" && NoFence(content)
    ensures forall k :: start <= k < end ==> !FenceAt(text, k)
  {
    var body := text[start..end];
    forall k | start <= k < end ensures !FenceAt(text, k) {
      assert text[end - 1] == body[|content|] == '\n';
      assert forall i :: start <= i < end - 1 ==> text[i] == body[i - start] == content[i - start];
      assert k + 3 <= end - 1 ==> FenceAt(text, k) == FenceAt(content, k - start);
    }
  }

  lemma FenceInMiddle(prefix: string, content: string, rest: string, d: nat)
    requires d + 3 <= |content|
    ensures FenceAt(prefix + content + rest, |prefix| + d) <==> FenceAt(content, d)
  {
  }

  lemma FenceAcrossEnd(prefix: string, content: string, rest: string, d: nat)
    requires d < |content| < d + 3 && (rest == [] || FenceAt(rest, 0))
    ensures var text := prefix + content + rest; FenceAt(text, |prefix| + d) ==> text[|prefix| + d + 3] == '`'
  {
  }

  /** No match begins inside a printed text segment, not even on backticks that lean on the next fence. */
  lemma NoMatchInPrintedText(prefix: string, content: string, rest: string, d: nat)
    requires d < |content| && NoFence(content) && (rest == [] || FenceAt(rest, 0))
    ensures MatchAt(prefix + content + rest, |prefix| + d).None?
  {
    var text, i := prefix + content + rest, |prefix| + d;
    if d + 3 <= |content| {
      FenceInMiddle(prefix, content, rest, d);
    } else {
      FenceAcrossEnd(prefix, content, rest, d);
      if FenceAt(text, i) {
        assert LanguageEnd(text, i + 3) == i + 3;
      }
    }
  }

  lemma {:induction false} SkipUnmatched(text: string, from: nat, until: nat)
    requires from <= until <= |text|
    requires forall i :: from <= i < until ==> MatchAt(text, i).None?
    ensures NextMatch(text, from) == NextMatch(text, until)
    decreases until - from
  {
    if from < until {
      assert MatchAt(text, from).None?;
      SkipUnmatched(text, from + 1, until);
    }
  }

  /** A text in front of what is cut further on, when no match lies before that. */
  lemma CutPrependsText(text: string, from: nat, end: nat, matches: seq<Match>)
    requires from < end <= |text| && InOrder(text, end, matches)
    requires matches == [] ==> end == |text|
    requires matches != [] ==> matches[0].start == end
    ensures InOrder(text, from, matches)
        && Cut(text, from, matches) == [Text(text[from..end])] + Cut(text, end, matches)
  {
  }

  /** Printed segments after a prefix: the first one can be counted to the prefix. */
  lemma PrefixGrows(text: string, prefix: string, segments: seq<Segment>)
    requires text == prefix + Print(segments) && segments != []
    ensures text == (prefix + PrintSegment(segments[0])) + Print(segments[1..])
  {
  }

  lemma AfterPrefix(prefix: string, tail: string)
    ensures (prefix + tail)[|prefix|..] == tail
  {
  }

  lemma {:induction false} ParsePrinted(text: string, prefix: string, segments: seq<Segment>)
    returns (matches: seq<Match>)
    requires text == prefix + Print(segments) && Printable(segments)
    ensures matches == AllMatches(text, |prefix|) && Cut(text, |prefix|, matches) == segments
    ensures segments != [] && segments[0].Code? ==> matches != [] && matches[0].start == |prefix|
    ensures segments == [] ==> matches == []
    decreases |segments|, 1
  {
    if segments == [] {
      matches := AllMatches(text, |prefix|);
    } else if segments[0].Code? {
      matches := ParsePrintedCode(text, prefix, segments);
    } else {
      matches := ParsePrintedText(text, prefix, segments);
    }
  }

  lemma CutAtMatch(text: string, from: nat, m: Match, rest: seq<Match>)
    requires from == m.start < m.end <= |text| && InOrder(text, m.end, rest)
    ensures InOrder(text, from, [m] + rest)
    ensures Cut(text, from, [m] + rest) == [CodeSegment(m.language, m.body)] + Cut(text, m.end, rest)
  {
    assert ([m] + rest)[1..] == rest;
    assert TextSegment(text, from, m.start) == [];
  }

  lemma PrintedCodeIsSegment(segment: Segment)
    requires segment.Code? && PrintableSegment(segment)
    ensures CodeSegment(if segment.language.None? then [] else segment.language.value, segment.content + "\n")
        == segment
  {
    assert TrimFinalNewline(segment.content + "\n") == segment.content;
  }

  lemma PrintedCodeFound(text: string, prefix: string, segments: seq<Segment>) returns (m: Match)
    requires text == prefix + Print(segments) && Printable(segments) && segments != [] && segments[0].Code?
    ensures NextMatch(text, |prefix|) == Some(m) && m.start == |prefix|
    ensures m.end == |prefix + PrintSegment(segments[0])| && CodeSegment(m.language, m.body) == segments[0]
  {
    var Code(language, content) := segments[0];
    var name := if language.None? then [] else language.value;
    AfterPrefix(prefix, Print(segments));
    PrintedCodeMatches(text, |prefix|, name, content, Print(segments[1..]));
    PrintedCodeIsSegment(segments[0]);
    m := NextMatch(text, |prefix|).value;
  }

  lemma {:induction false} ParsePrintedCode(text: string, prefix: string, segments: seq<Segment>)
    returns (matches: seq<Match>)
    requires text == prefix + Print(segments) && Printable(segments) && segments != [] && segments[0].Code?
    ensures matches == AllMatches(text, |prefix|) && Cut(text, |prefix|, matches) == segments
    ensures matches != [] && matches[0].start == |prefix|
    decreases |segments|, 0
  {
    var m := PrintedCodeFound(text, prefix, segments);
    PrefixGrows(text, prefix, segments);
    var rest := ParsePrinted(text, prefix + PrintSegment(segments[0]), segments[1..]);
    CutAtMatch(text, |prefix|, m, rest);
    matches := [m] + rest;
  }

  lemma SkippedText(prefix: string, content: string, rest: string)
    requires NoFence(content) && (rest == [] || FenceAt(rest, 0))
    ensures AllMatches(prefix + content + rest, |prefix|) == AllMatches(prefix + content + rest, |prefix + content|)
  {
    var text, from, end := prefix + content + rest, |prefix|, |prefix + content|;
    forall i | from <= i < end ensures MatchAt(text, i).None? {
      NoMatchInPrintedText(prefix, content, rest, i - from);
    }
    SkipUnmatched(text, from, end);
    SameMatches(text, from, end);
  }

  lemma MiddleOf(prefix: string, content: string, rest: string)
    ensures (prefix + content + rest)[|prefix|..|prefix + content|] == content
  {
  }

  lemma PrintStartsWithFence(segments: seq<Segment>)
    requires segments != [] && segments[0].Code?
    ensures FenceAt(Print(segments), 0)
  {
  }

  /** A printed text segment is skipped: the matches begin after it. */
  lemma PrintedTextSkipped(text: string, prefix: string, segments: seq<Segment>)
    requires text == prefix + Print(segments) && Printable(segments) && segments != [] && segments[0].Text?
    ensures var from, end := |prefix|, |prefix + PrintSegment(segments[0])|;
            && from < end <= |text| && segments[0] == Text(text[from..end]) && (|segments| == 1 ==> end == |text|)
            && AllMatches(text, from) == AllMatches(text, end)
  {
    var content, rest := segments[0].content, Print(segments[1..]);
    PrefixGrows(text, prefix, segments);
    if |segments| > 1 {
      PrintStartsWithFence(segments[1..]);
    }
    SkippedText(prefix, content, rest);
    MiddleOf(prefix, content, rest);
  }

  lemma SameMatches(text: string, from: nat, end: nat)
    requires from <= end <= |text| && NextMatch(text, from) == NextMatch(text, end)
    ensures AllMatches(text, from) == AllMatches(text, end)
  {
  }

  lemma CutAfterText(text: string, from: nat, end: nat, segments: seq<Segment>, matches: seq<Match>)
    requires from < end <= |text| && matches == AllMatches(text, end) && AllMatches(text, from) == AllMatches(text, end)
    requires matches == [] ==> end == |text|
    requires matches != [] ==> matches[0].start == end
    requires segments != [] && segments[0] == Text(text[from..end]) && Cut(text, end, matches) == segments[1..]
    ensures matches == AllMatches(text, from) && Cut(text, from, matches) == segments
  {
    CutPrependsText(text, from, end, matches);
  }

  lemma {:induction false} ParsePrintedText(text: string, prefix: string, segments: seq<Segment>)
    returns (matches: seq<Match>)
    requires text == prefix + Print(segments) && Printable(segments) && segments != [] && segments[0].Text?
    ensures matches == AllMatches(text, |prefix|) && Cut(text, |prefix|, matches) == segments
    decreases |segments|, 0
  {
    var longer := prefix + PrintSegment(segments[0]);
    PrintedTextSkipped(text, prefix, segments);
    PrefixGrows(text, prefix, segments);
    matches := ParsePrinted(text, longer, segments[1..]);
    CutAfterText(text, |prefix|, |longer|, segments, matches);
  }

  /** Printing segments and parsing the result gives the segments back. */
  lemma PrintParseRoundTrip(segments: seq<Segment>)
    requires Printable(segments)
    ensures Parse(Print(segments)) == segments
  {
    assert "" + Print(segments) == Print(segments);
    var matches := ParsePrinted(Print(segments), "", segments);
  }
}
