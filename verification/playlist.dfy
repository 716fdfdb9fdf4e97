/** The playlist rewrite of proxy.js: `text.replace(/^(?!#)([^\s]+)/gm, …)`
    over an HLS playlist (section 4.1 of RFC 8216: every line is a URI, blank,
    or starts with `#`). It is written as a split into lines, a decision per
    line and a join, and proved equal to a left-to-right scan that follows
    the regular expression's own matching rules. */
module Playlist {
  import opened Wrappers
  import opened Text
  import UriComponent

  /** One line of text and the single line terminator that ends it; the last
      line has none. */
  datatype Line = Line(body: string, sep: string)

  predicate IsSeparator(sep: string) {
    |sep| == 1 && IsLineTerminator(sep[0])
  }

  /** What a split into lines looks like: at least one line, no terminator
      inside a body, one terminator after every line but the last. */
  predicate WellFormed(ls: seq<Line>) {
    && |ls| > 0
    && (forall i :: 0 <= i < |ls| ==> NoLineTerminator(ls[i].body))
    && (forall i :: 0 <= i < |ls| - 1 ==> IsSeparator(ls[i].sep))
    && ls[|ls| - 1].sep == ""
  }

  /** Length of the first line of `s`. */
  function BodyLength(s: string): (n: nat)
    ensures n <= |s|
  {
    if |s| == 0 || IsLineTerminator(s[0]) then 0
    else 1 + BodyLength(s[1..])
  }

  /** The first line of `s` holds no terminator and ends at one, or at the
      end of `s`. */
  lemma {:induction false} BodyLengthBounds(s: string)
    ensures forall i :: 0 <= i < BodyLength(s) ==> !IsLineTerminator(s[i])
    ensures BodyLength(s) < |s| ==> IsLineTerminator(s[BodyLength(s)])
    decreases |s|
  {
    if |s| > 0 && !IsLineTerminator(s[0]) {
      BodyLengthBounds(s[1..]);
      assert forall i :: 1 <= i < |s| ==> s[i] == s[1..][i - 1];
    }
  }

  /** The two facts of BodyLengthBounds determine BodyLength. */
  lemma {:induction false} BodyLengthUnique(s: string, m: nat)
    requires m <= |s|
    requires forall i :: 0 <= i < m ==> !IsLineTerminator(s[i])
    requires m < |s| ==> IsLineTerminator(s[m])
    ensures BodyLength(s) == m
    decreases m
  {
    if m > 0 {
      assert !IsLineTerminator(s[0]);
      assert forall i :: 0 <= i < m - 1 ==> s[1..][i] == s[i + 1];
      BodyLengthUnique(s[1..], m - 1);
    }
  }

  /** Length of the longest prefix of `s` without white space: the run the
      greedy `[^\s]+` takes. */
  function TokenLength(s: string): (n: nat)
    ensures n <= |s|
    ensures |s| > 0 && !IsSpace(s[0]) ==> n > 0
  {
    if |s| == 0 || IsSpace(s[0]) then 0
    else 1 + TokenLength(s[1..])
  }

  /** The token holds no white space and is followed by white space or by
      the end of `s`: it is the longest such prefix. */
  lemma {:induction false} TokenLengthBounds(s: string)
    ensures forall i :: 0 <= i < TokenLength(s) ==> !IsSpace(s[i])
    ensures TokenLength(s) < |s| ==> IsSpace(s[TokenLength(s)])
    decreases |s|
  {
    if |s| > 0 && !IsSpace(s[0]) {
      TokenLengthBounds(s[1..]);
      assert forall i :: 1 <= i < |s| ==> s[i] == s[1..][i - 1];
    }
  }

  /** The two facts of TokenLengthBounds determine TokenLength. */
  lemma {:induction false} TokenLengthUnique(s: string, m: nat)
    requires m <= |s|
    requires forall i :: 0 <= i < m ==> !IsSpace(s[i])
    requires m < |s| ==> IsSpace(s[m])
    ensures TokenLength(s) == m
    decreases m
  {
    if m > 0 {
      assert !IsSpace(s[0]);
      assert forall i :: 0 <= i < m - 1 ==> s[1..][i] == s[i + 1];
      TokenLengthUnique(s[1..], m - 1);
    }
  }

  function JoinLines(ls: seq<Line>): string {
    if |ls| == 0 then "" else ls[0].body + ls[0].sep + JoinLines(ls[1..])
  }

  /** The lines of `text`, cut after every `\n`, `\r`, U+2028 and U+2029, so
      that `\r\n` yields an empty line between its two halves. */
  function SplitLines(text: string): seq<Line>
    decreases |text|
  {
    var n := BodyLength(text);
    if n == |text| then [Line(text, "")]
    else [Line(text[..n], [text[n]])] + SplitLines(text[n + 1..])
  }

  lemma JoinLinesCons(x: Line, rest: seq<Line>)
    ensures JoinLines([x] + rest) == x.body + x.sep + JoinLines(rest)
  {
    assert ([x] + rest)[1..] == rest;
  }

  /** The split has the shape WellFormed describes. */
  lemma {:induction false} SplitLinesWellFormed(text: string)
    ensures WellFormed(SplitLines(text))
    decreases |text|
  {
    var n := BodyLength(text);
    BodyLengthBounds(text);
    assert NoLineTerminator(text[..n]);
    if n < |text| {
      SplitLinesWellFormed(text[n + 1..]);
    }
  }

  /** Nothing is lost: joining the lines gives the text back. */
  lemma {:induction false} JoinSplit(text: string)
    ensures JoinLines(SplitLines(text)) == text
    decreases |text|
  {
    var n := BodyLength(text);
    if n < |text| {
      JoinSplit(text[n + 1..]);
      JoinLinesCons(Line(text[..n], [text[n]]), SplitLines(text[n + 1..]));
      assert text[..n] + [text[n]] + text[n + 1..] == text;
    } else {
      assert text + "" == text;
    }
  }

  /** The split of a text with a terminator, seen element by element. */
  lemma SplitLinesCons(text: string)
    requires BodyLength(text) < |text|
    ensures var n := BodyLength(text);
      var ls := SplitLines(text);
      var rest := SplitLines(text[n + 1..]);
      && |ls| == 1 + |rest|
      && ls[0] == Line(text[..n], [text[n]])
      && forall i :: 1 <= i < |ls| ==> ls[i] == rest[i - 1]
  {
  }

  lemma ConsLine(body: string, c: char, rest: string)
    ensures var s := body + ([c] + rest);
      s[..|body|] == body && s[|body|] == c && s[|body| + 1..] == rest
  {
  }

  /** The split of a text without a terminator is that one line. */
  lemma SplitLinesLast(text: string)
    requires BodyLength(text) == |text|
    ensures |SplitLines(text)| == 1 && SplitLines(text)[0] == Line(text, "")
  {
  }

  lemma BodyLengthOfJoin(body: string, tail: string)
    requires NoLineTerminator(body)
    requires tail == "" || IsLineTerminator(tail[0])
    ensures BodyLength(body + tail) == |body|
  {
    var s := body + tail;
    assert forall i :: 0 <= i < |body| ==> s[i] == body[i];
    BodyLengthUnique(s, |body|);
  }

  /** A line the pattern can match: non-empty, not starting with `#` (the
      lookahead) and not starting with white space (the `[^\s]` class). */
  predicate IsCandidate(body: string) {
    |body| > 0 && body[0] != '#' && !IsSpace(body[0])
  }

  /** The decision for one line: a candidate has its leading token handed to
      `f` and the rest kept; any other line is kept whole. */
  function ReplaceLeadingToken(body: string, f: string -> string): string {
    if IsCandidate(body) then
      var n := TokenLength(body);
      f(body[..n]) + body[n..]
    else body
  }

  /** Split, decide, join, one line at a time: the first line is cut off at
      its terminator, decided by ReplaceLeadingToken, and joined to its
      terminator and the rest of the text, done the same way. */
  function ReplaceTokens(text: string, f: string -> string): string
    decreases |text|
  {
    var n := BodyLength(text);
    ReplaceLeadingToken(text[..n], f)
    + (if n < |text| then [text[n]] + ReplaceTokens(text[n + 1..], f) else "")
  }

  /** Reference semantics of `s.replace(/^(?!#)([^\s]+)/gm, f)`: scanning left
      to right, a match starts where `^` holds (at the start, or right after a
      line terminator) and the next character is neither `#` nor white space;
      it takes the longest run without white space, and scanning resumes at
      its end. Every other character is copied. */
  function RegexReplace(s: string, atLineStart: bool, f: string -> string): string
    decreases |s|
  {
    if |s| == 0 then ""
    else if atLineStart && s[0] != '#' && !IsSpace(s[0]) then
      var n := TokenLength(s);
      f(s[..n]) + RegexReplace(s[n..], false, f)
    else [s[0]] + RegexReplace(s[1..], IsLineTerminator(s[0]), f)
  }

  lemma Assoc(a: string, b: string, c: string)
    ensures a + (b + c) == (a + b) + c
  {
  }

  lemma SliceOfSlice(s: string, a: nat, b: nat)
    requires a <= b <= |s|
    ensures s[a..][b - a..] == s[b..]
    ensures s[a..][..b - a] == s[a..b]
  {
  }

  /** Inside a line, one character of the first line is copied. */
  lemma ScanCopyStep(s: string, f: string -> string)
    requires 0 < BodyLength(s)
    ensures RegexReplace(s, false, f) == [s[0]] + RegexReplace(s[1..], false, f)
    ensures BodyLength(s[1..]) == BodyLength(s) - 1
  {
  }

  /** Away from a line start the scan copies the rest of the line unchanged. */
  lemma {:induction false} ScanCopiesRestOfLine(s: string, f: string -> string)
    ensures RegexReplace(s, false, f) == s[..BodyLength(s)] + RegexReplace(s[BodyLength(s)..], false, f)
    decreases |s|
  {
    var n := BodyLength(s);
    if n > 0 {
      ScanCopyStep(s, f);
      ScanCopiesRestOfLine(s[1..], f);
      var rest := RegexReplace(s[n..], false, f);
      assert s[1..][n - 1..] == s[n..];
      Assoc([s[0]], s[1..][..n - 1], rest);
      assert [s[0]] + s[1..][..n - 1] == s[..n];
    }
  }

  /** After the first line's body, the scan moves past its terminator to
      the next line start. */
  lemma ScanAtLineEnd(s: string, f: string -> string)
    ensures var n := BodyLength(s);
      RegexReplace(s[n..], false, f) ==
        (if n < |s| then [s[n]] + RegexReplace(s[n + 1..], true, f) else "")
  {
    var n := BodyLength(s);
    BodyLengthBounds(s);
    if n < |s| {
      assert s[n..][0] == s[n] && s[n..][1..] == s[n + 1..];
    }
  }

  lemma TokenLengthOfPrefix(s: string, n: nat)
    requires n <= |s|
    requires TokenLength(s) <= n
    ensures TokenLength(s[..n]) == TokenLength(s)
  {
    var t := TokenLength(s);
    TokenLengthBounds(s);
    assert forall i :: 0 <= i < n ==> s[..n][i] == s[i];
    TokenLengthUnique(s[..n], t);
  }

  lemma BodyLengthOfSuffix(s: string, t: nat)
    requires t <= BodyLength(s)
    ensures BodyLength(s[t..]) == BodyLength(s) - t
  {
    var n := BodyLength(s);
    BodyLengthBounds(s);
    assert forall i :: 0 <= i < |s| - t ==> s[t..][i] == s[t + i];
    BodyLengthUnique(s[t..], n - t);
  }

  /** The token of a line ends no later than the line. */
  lemma TokenWithinLine(s: string)
    ensures TokenLength(s) <= BodyLength(s)
  {
    TokenLengthBounds(s);
    BodyLengthBounds(s);
    var n := BodyLength(s);
    if n < |s| {
      assert IsSpace(s[n]);
    }
  }

  /** At a line start a match takes the token and the scan resumes after it. */
  lemma ScanMatchStep(s: string, f: string -> string)
    requires |s| > 0 && s[0] != '#' && !IsSpace(s[0])
    ensures RegexReplace(s, true, f) ==
      f(s[..TokenLength(s)]) + RegexReplace(s[TokenLength(s)..], false, f)
  {
  }

  /** From the end of the token, the scan copies the rest of the line. */
  lemma ScanCopiesAfterToken(s: string, f: string -> string)
    requires TokenLength(s) <= BodyLength(s)
    ensures RegexReplace(s[TokenLength(s)..], false, f) ==
      s[TokenLength(s)..BodyLength(s)] + RegexReplace(s[BodyLength(s)..], false, f)
  {
    var n := BodyLength(s);
    var t := TokenLength(s);
    BodyLengthOfSuffix(s, t);
    ScanCopiesRestOfLine(s[t..], f);
    SliceOfSlice(s, t, n);
  }

  /** The line decision on the first line of `s`, read off `s` itself. */
  lemma CandidateOfFirstLine(s: string, f: string -> string)
    requires IsCandidate(s[..BodyLength(s)])
    ensures TokenLength(s) <= BodyLength(s)
    ensures ReplaceLeadingToken(s[..BodyLength(s)], f) ==
      f(s[..TokenLength(s)]) + s[TokenLength(s)..BodyLength(s)]
  {
    var n := BodyLength(s);
    var body := s[..n];
    var t := TokenLength(s);
    TokenWithinLine(s);
    TokenLengthOfPrefix(s, n);
    assert body[..t] == s[..t];
    assert body[t..] == s[t..n];
  }

  /** A candidate first line: the token goes to `f`, the rest of the line is
      copied. */
  lemma ScanCandidateLine(s: string, f: string -> string)
    requires IsCandidate(s[..BodyLength(s)])
    ensures var n := BodyLength(s);
      RegexReplace(s, true, f) == ReplaceLeadingToken(s[..n], f) + RegexReplace(s[n..], false, f)
  {
    var n := BodyLength(s);
    var t := TokenLength(s);
    assert s[0] == s[..n][0];
    ScanMatchStep(s, f);
    CandidateOfFirstLine(s, f);
    ScanCopiesAfterToken(s, f);
    Assoc(f(s[..t]), s[t..n], RegexReplace(s[n..], false, f));
  }

  /** At a line start whose character cannot begin a match and does not end
      the line, that character is copied and the scan leaves the line start. */
  lemma ScanSkipStep(s: string, f: string -> string)
    requires |s| > 0
    requires s[0] == '#' || IsSpace(s[0])
    requires !IsLineTerminator(s[0])
    ensures RegexReplace(s, true, f) == [s[0]] + RegexReplace(s[1..], false, f)
  {
  }

  /** ScanCopiesRestOfLine, started one character into the line. */
  lemma ScanCopiesAfterFirst(s: string, f: string -> string)
    requires 0 < BodyLength(s)
    ensures RegexReplace(s[1..], false, f) ==
      s[1..BodyLength(s)] + RegexReplace(s[BodyLength(s)..], false, f)
  {
    var n := BodyLength(s);
    var t := s[1..];
    assert BodyLength(t) == n - 1;
    ScanCopiesRestOfLine(t, f);
    SliceOfSlice(s, 1, n);
  }

  lemma ConsSlice(s: string, n: nat, r: string)
    requires 1 <= n <= |s|
    ensures [s[0]] + (s[1..n] + r) == s[..n] + r
  {
    assert [s[0]] + s[1..n] == s[..n];
  }

  /** A first line that is not a candidate is copied. */
  lemma ScanOtherLine(s: string, f: string -> string)
    requires |s| > 0
    requires s[0] == '#' || IsSpace(s[0])
    requires !IsLineTerminator(s[0])
    ensures var n := BodyLength(s);
      RegexReplace(s, true, f) == s[..n] + RegexReplace(s[n..], false, f)
  {
    ScanSkipStep(s, f);
    ScanCopiesAfterFirst(s, f);
    ConsSlice(s, BodyLength(s), RegexReplace(s[BodyLength(s)..], false, f));
  }

  /** What ScanOneLine states, for one `s`. */
  ghost predicate ScansOneLine(s: string, f: string -> string) {
    var n := BodyLength(s);
    RegexReplace(s, true, f) ==
      ReplaceLeadingToken(s[..n], f)
      + (if n < |s| then [s[n]] + RegexReplace(s[n + 1..], true, f) else "")
  }

  lemma ScanEmptyLine(s: string, f: string -> string)
    requires |s| > 0 && IsLineTerminator(s[0])
    ensures ScansOneLine(s, f)
  {
    assert BodyLength(s) == 0;
    assert s[..0] == "";
  }

  lemma ScanFullLine(s: string, f: string -> string)
    requires |s| > 0 && !IsLineTerminator(s[0])
    ensures ScansOneLine(s, f)
  {
    var n := BodyLength(s);
    ScanAtLineEnd(s, f);
    assert s[..n][0] == s[0];
    if IsCandidate(s[..n]) {
      ScanCandidateLine(s, f);
    } else {
      ScanOtherLine(s, f);
    }
  }

  /** The scan from a line start handles the first line as ReplaceLeadingToken
      does, then continues at the next line start. */
  lemma ScanOneLine(s: string, f: string -> string)
    ensures ScansOneLine(s, f)
  {
    if |s| == 0 {
      assert s[..0] == "";
    } else if IsLineTerminator(s[0]) {
      ScanEmptyLine(s, f);
    } else {
      ScanFullLine(s, f);
    }
  }

  /** The split/decide/join rewrite is exactly the regular-expression
      replacement. */
  lemma {:induction false} ReplaceTokensIsRegexReplace(text: string, f: string -> string)
    ensures ReplaceTokens(text, f) == RegexReplace(text, true, f)
    decreases |text|
  {
    var n := BodyLength(text);
    ScanOneLine(text, f);
    if n < |text| {
      ReplaceTokensIsRegexReplace(text[n + 1..], f);
    }
  }

  /** A line decision whose callback keeps lines whole keeps the line whole. */
  lemma ReplacedLineHasNoTerminator(body: string, f: string -> string)
    requires NoLineTerminator(body)
    requires forall m :: NoLineTerminator(m) ==> NoLineTerminator(f(m))
    ensures NoLineTerminator(ReplaceLeadingToken(body, f))
  {
    if IsCandidate(body) {
      var n := TokenLength(body);
      assert NoLineTerminator(body[..n]);
      assert NoLineTerminator(body[n..]);
    }
  }

  /** `after` is `before` with every line decided by ReplaceLeadingToken. */
  ghost predicate LinesReplaced(before: seq<Line>, after: seq<Line>, f: string -> string) {
    && |after| == |before|
    && forall i :: 0 <= i < |before| ==>
         after[i] == Line(ReplaceLeadingToken(before[i].body, f), before[i].sep)
  }

  lemma LinesReplacedCons(before: seq<Line>, after: seq<Line>, tb: seq<Line>, ta: seq<Line>, f: string -> string)
    requires |before| == 1 + |tb| && |after| == 1 + |ta|
    requires forall i :: 1 <= i < |before| ==> before[i] == tb[i - 1]
    requires forall i :: 1 <= i < |after| ==> after[i] == ta[i - 1]
    requires after[0] == Line(ReplaceLeadingToken(before[0].body, f), before[0].sep)
    requires LinesReplaced(tb, ta, f)
    ensures LinesReplaced(before, after, f)
  {
    forall i | 1 <= i < |before|
      ensures after[i] == Line(ReplaceLeadingToken(before[i].body, f), before[i].sep)
    {
      assert after[i] == ta[i - 1];
    }
  }

  lemma LastLineReplaced(text: string, f: string -> string)
    requires BodyLength(text) == |text|
    requires forall m :: NoLineTerminator(m) ==> NoLineTerminator(f(m))
    ensures LinesReplaced(SplitLines(text), SplitLines(ReplaceTokens(text, f)), f)
  {
    BodyLengthBounds(text);
    assert text[..|text|] == text;
    var r := ReplaceLeadingToken(text, f);
    ReplacedLineHasNoTerminator(text, f);
    var out := ReplaceTokens(text, f);
    assert out == r + "" == r;
    BodyLengthOfJoin(r, "");
    SplitLinesLast(text);
    SplitLinesLast(out);
  }

  /** A text with a terminator rewrites to the decided first line, the same
      terminator, and the rewrite of what follows. */
  lemma ReplaceTokensStep(text: string, f: string -> string)
    requires BodyLength(text) < |text|
    requires forall m :: NoLineTerminator(m) ==> NoLineTerminator(f(m))
    ensures var n := BodyLength(text);
      var r := ReplaceLeadingToken(text[..n], f);
      var out := ReplaceTokens(text, f);
      && BodyLength(out) == |r| < |out|
      && out[..|r|] == r && out[|r|] == text[n]
      && out[|r| + 1..] == ReplaceTokens(text[n + 1..], f)
  {
    var n := BodyLength(text);
    BodyLengthBounds(text);
    var body := text[..n];
    var r := ReplaceLeadingToken(body, f);
    ReplacedLineHasNoTerminator(body, f);
    var rest := ReplaceTokens(text[n + 1..], f);
    assert ReplaceTokens(text, f) == r + ([text[n]] + rest);
    JoinedLine(r, text[n], rest);
  }

  /** A line, its terminator and the rest: the line is the first line. */
  lemma JoinedLine(body: string, c: char, rest: string)
    requires NoLineTerminator(body) && IsLineTerminator(c)
    ensures var out := body + ([c] + rest);
      && BodyLength(out) == |body| < |out|
      && out[..|body|] == body && out[|body|] == c && out[|body| + 1..] == rest
  {
    BodyLengthOfJoin(body, [c] + rest);
    ConsLine(body, c, rest);
  }

  lemma NextLineReplaced(text: string, f: string -> string)
    requires BodyLength(text) < |text|
    requires forall m :: NoLineTerminator(m) ==> NoLineTerminator(f(m))
    requires var n := BodyLength(text);
      LinesReplaced(SplitLines(text[n + 1..]), SplitLines(ReplaceTokens(text[n + 1..], f)), f)
    ensures LinesReplaced(SplitLines(text), SplitLines(ReplaceTokens(text, f)), f)
  {
    var n := BodyLength(text);
    var out := ReplaceTokens(text, f);
    ReplaceTokensStep(text, f);
    SplitLinesCons(text);
    SplitLinesCons(out);
    LinesReplacedCons(SplitLines(text), SplitLines(out), SplitLines(text[n + 1..]), SplitLines(ReplaceTokens(text[n + 1..], f)), f);
  }

  lemma {:induction false} ReplaceTokensLines(text: string, f: string -> string)
    requires forall m :: NoLineTerminator(m) ==> NoLineTerminator(f(m))
    ensures LinesReplaced(SplitLines(text), SplitLines(ReplaceTokens(text, f)), f)
    decreases |text|
  {
    var n := BodyLength(text);
    if n == |text| {
      LastLineReplaced(text, f);
    } else {
      ReplaceTokensLines(text[n + 1..], f);
      NextLineReplaced(text, f);
    }
  }

  /** When the callback never introduces a line terminator, the lines of the
      result are the lines of `text`, each decided by ReplaceLeadingToken and
      each keeping its own terminator. */
  lemma LinesOfReplaceTokens(text: string, f: string -> string)
    requires forall m :: NoLineTerminator(m) ==> NoLineTerminator(f(m))
    ensures var before := SplitLines(text);
      var after := SplitLines(ReplaceTokens(text, f));
      && |after| == |before|
      && forall i :: 0 <= i < |before| ==>
           after[i] == Line(ReplaceLeadingToken(before[i].body, f), before[i].sep)
  {
    ReplaceTokensLines(text, f);
  }

  /** The relay's view of one playlist: how to resolve an entry against the
      playlist's URL (`new URL(entry, baseUrl).href`, None when it throws),
      the relay's own address and the referer to pass on. */
  datatype Context = Context(resolve: string -> Option<string>, proxyBase: string, referer: string)

  /** `${proxyBase}?url=${encodeURIComponent(absolute)}&referer=${encodeURIComponent(referer)}` */
  function RelayUrl(proxyBase: string, absolute: string, referer: string): string {
    proxyBase + "?url=" + UriComponent.Encode(absolute) + "&referer=" + UriComponent.Encode(referer)
  }

  /** The replacer callback: a blank or `#` match is returned as it is, an
      entry that does not resolve is returned as it is, and any other entry
      becomes a relay URL. */
  function Replacement(ctx: Context, m: string): string {
    if Trim(m) == "" || StartsWith(m, "#") then m
    else match ctx.resolve(m)
      case None => m
      case Some(absolute) => RelayUrl(ctx.proxyBase, absolute, ctx.referer)
  }

  function RewriteLine(ctx: Context, body: string): string {
    ReplaceLeadingToken(body, m => Replacement(ctx, m))
  }

  /** The rewritten playlist. */
  function Rewrite(ctx: Context, text: string): string {
    ReplaceTokens(text, m => Replacement(ctx, m))
  }

  /** Every match is non-empty, has no white space and does not start with
      `#`, so the callback's guard never returns a match early. */
  lemma GuardUnreachable(body: string)
    requires IsCandidate(body)
    ensures var m := body[..TokenLength(body)];
      |m| > 0 && !(Trim(m) == "" || StartsWith(m, "#"))
  {
    var m := body[..TokenLength(body)];
    TrimEmptyIffBlank(m);
    assert !IsSpace(m[0]);
  }

  lemma RewriteLineOfCandidate(ctx: Context, body: string)
    requires IsCandidate(body)
    ensures var n := TokenLength(body);
      RewriteLine(ctx, body) == Replacement(ctx, body[..n]) + body[n..]
  {
  }

  lemma CandidateUnresolved(ctx: Context, body: string)
    requires IsCandidate(body)
    requires ctx.resolve(body[..TokenLength(body)]).None?
    ensures RewriteLine(ctx, body) == body
  {
    var n := TokenLength(body);
    RewriteLineOfCandidate(ctx, body);
    assert Replacement(ctx, body[..n]) == body[..n];
    assert body[..n] + body[n..] == body;
  }

  lemma CandidateResolved(ctx: Context, body: string)
    requires IsCandidate(body)
    requires ctx.resolve(body[..TokenLength(body)]).Some?
    ensures var n := TokenLength(body);
      RewriteLine(ctx, body) == RelayUrl(ctx.proxyBase, ctx.resolve(body[..n]).value, ctx.referer) + body[n..]
  {
    RewriteLineOfCandidate(ctx, body);
    GuardUnreachable(body);
  }

  /** A candidate line: only its leading token changes; it is kept when it
      does not resolve, and otherwise becomes the relay URL for its absolute
      form, followed by the untouched remainder of the line, which is empty
      or starts with white space. */
  lemma CandidateLine(ctx: Context, body: string)
    requires IsCandidate(body)
    ensures var n := TokenLength(body);
      && 0 < n <= |body|
      && (forall i :: 0 <= i < n ==> !IsSpace(body[i]))
      && (n == |body| || IsSpace(body[n]))
      && (ctx.resolve(body[..n]).None? ==> RewriteLine(ctx, body) == body)
      && (ctx.resolve(body[..n]).Some? ==>
            RewriteLine(ctx, body) == RelayUrl(ctx.proxyBase, ctx.resolve(body[..n]).value, ctx.referer) + body[n..])
  {
    TokenLengthBounds(body);
    if ctx.resolve(body[..TokenLength(body)]).None? {
      CandidateUnresolved(ctx, body);
    } else {
      CandidateResolved(ctx, body);
    }
  }

  /** Empty lines, `#` lines and lines starting with white space are kept
      byte for byte. */
  lemma OtherLineKept(ctx: Context, body: string)
    requires !IsCandidate(body)
    ensures RewriteLine(ctx, body) == body
  {
  }

  lemma RelayShapeQuery(proxyBase: string, ea: string, er: string)
    requires NoChar(proxyBase, '?') && NoChar(proxyBase, '#')
    requires NoChar(ea, '#') && NoChar(er, '#')
    ensures UriComponent.QueryOf(proxyBase + "?url=" + ea + "&referer=" + er) == "url=" + ea + "&referer=" + er
  {
    var query := "url=" + ea + "&referer=" + er;
    var u := proxyBase + "?url=" + ea + "&referer=" + er;
    assert u == proxyBase + "?" + query;
    RelayShapeNoFragment(proxyBase, ea, er);
    UriComponent.IndexOfAbsent(u, '#');
    assert u[..|u|] == u;
    UriComponent.IndexOfPrefixed(proxyBase, '?', query);
    assert u[|proxyBase| + 1..] == query;
  }

  lemma RelayShapeNoFragment(proxyBase: string, ea: string, er: string)
    requires NoChar(proxyBase, '#') && NoChar(ea, '#') && NoChar(er, '#')
    ensures NoChar(proxyBase + "?url=" + ea + "&referer=" + er, '#')
  {
    var a := proxyBase + "?url=";
    var b := a + ea;
    var c := b + "&referer=";
    NoneOfAppend(proxyBase, "?url=", Just('#'));
    NoneOfAppend(a, ea, Just('#'));
    NoneOfAppend(b, "&referer=", Just('#'));
    NoneOfAppend(c, er, Just('#'));
  }

  lemma RelayShapeParameters(ea: string, er: string)
    requires NoChar(ea, '&') && NoChar(er, '&')
    ensures var ps := UriComponent.Parameters("url=" + ea + "&referer=" + er);
      |ps| == 2 && ps[0] == ("url", ea) && ps[1] == ("referer", er)
  {
    UriComponent.TwoParameters("url", ea, "referer", er);
    QueryRegroup(ea, er);
  }

  lemma QueryRegroup(ea: string, er: string)
    ensures "url=" + ea + "&referer=" + er == "url" + "=" + ea + "&" + "referer" + "=" + er
  {
  }

  /** When the relay address has neither a query nor a fragment, a relay URL
      holds exactly the two query parameters `url` and `referer`, in that
      order, whose values decode back to the absolute entry and the
      referer. */
  lemma RelayUrlParameters(proxyBase: string, absolute: string, referer: string)
    requires NoChar(proxyBase, '?') && NoChar(proxyBase, '#')
    ensures var ps := UriComponent.Parameters(UriComponent.QueryOf(RelayUrl(proxyBase, absolute, referer)));
      && |ps| == 2
      && ps[0].0 == "url" && UriComponent.Decode(ps[0].1) == Some(absolute)
      && ps[1].0 == "referer" && UriComponent.Decode(ps[1].1) == Some(referer)
  {
    var ea := UriComponent.Encode(absolute);
    var er := UriComponent.Encode(referer);
    UriComponent.EncodedIsInert(absolute);
    UriComponent.EncodedIsInert(referer);
    RelayShapeQuery(proxyBase, ea, er);
    RelayShapeParameters(ea, er);
    UriComponent.DecodeEncode(absolute);
    UriComponent.DecodeEncode(referer);
  }

  lemma EncodedIsOneToken(s: string)
    ensures NoSpace(UriComponent.Encode(s))
    ensures NoLineTerminator(UriComponent.Encode(s))
  {
    UriComponent.EncodedIsInert(s);
  }

  lemma RelayShapeNoSpace(proxyBase: string, ea: string, er: string)
    requires NoSpace(ea) && NoSpace(er)
    ensures NoSpace(proxyBase) ==> NoSpace(proxyBase + "?url=" + ea + "&referer=" + er)
  {
    var a := proxyBase + "?url=";
    var b := a + ea;
    var c := b + "&referer=";
    NoneOfAppend(proxyBase, "?url=", IsSpace);
    NoneOfAppend(a, ea, IsSpace);
    NoneOfAppend(b, "&referer=", IsSpace);
    NoneOfAppend(c, er, IsSpace);
  }

  lemma RelayShapeNoLineTerminator(proxyBase: string, ea: string, er: string)
    requires NoLineTerminator(ea) && NoLineTerminator(er)
    ensures NoLineTerminator(proxyBase) ==> NoLineTerminator(proxyBase + "?url=" + ea + "&referer=" + er)
  {
    var a := proxyBase + "?url=";
    var b := a + ea;
    var c := b + "&referer=";
    NoneOfAppend(proxyBase, "?url=", IsLineTerminator);
    NoneOfAppend(a, ea, IsLineTerminator);
    NoneOfAppend(b, "&referer=", IsLineTerminator);
    NoneOfAppend(c, er, IsLineTerminator);
  }

  /** A relay URL stays on one line, and has no white space at all, whenever
      the relay address has none. */
  lemma RelayUrlIsOneToken(proxyBase: string, absolute: string, referer: string)
    ensures NoLineTerminator(proxyBase) ==> NoLineTerminator(RelayUrl(proxyBase, absolute, referer))
    ensures NoSpace(proxyBase) ==> NoSpace(RelayUrl(proxyBase, absolute, referer))
  {
    var ea := UriComponent.Encode(absolute);
    var er := UriComponent.Encode(referer);
    EncodedIsOneToken(absolute);
    EncodedIsOneToken(referer);
    RelayShapeNoSpace(proxyBase, ea, er);
    RelayShapeNoLineTerminator(proxyBase, ea, er);
  }

  lemma ReplacementKeepsLinesWhole(ctx: Context)
    requires NoLineTerminator(ctx.proxyBase)
    ensures forall m :: NoLineTerminator(m) ==> NoLineTerminator(Replacement(ctx, m))
  {
    forall m | NoLineTerminator(m)
      ensures NoLineTerminator(Replacement(ctx, m))
    {
      if ctx.resolve(m).Some? {
        RelayUrlIsOneToken(ctx.proxyBase, ctx.resolve(m).value, ctx.referer);
      }
    }
  }

  /** With a relay address on one line, the rewritten playlist has the same
      lines as the original, in the same order and with the same terminators;
      each line is the rewrite of its original, and every line that is not a
      candidate is identical to its original. */
  lemma RewritePreservesLines(ctx: Context, text: string)
    requires NoLineTerminator(ctx.proxyBase)
    ensures var before := SplitLines(text);
      var after := SplitLines(Rewrite(ctx, text));
      && |after| == |before|
      && (forall i :: 0 <= i < |before| ==> after[i].sep == before[i].sep)
      && (forall i :: 0 <= i < |before| ==> after[i].body == RewriteLine(ctx, before[i].body))
      && (forall i :: 0 <= i < |before| && !IsCandidate(before[i].body) ==> after[i].body == before[i].body)
  {
    ReplacementKeepsLinesWhole(ctx);
    LinesOfReplaceTokens(text, m => Replacement(ctx, m));
  }
}
