/** Word wrapping: tokens of a paragraph, and the lines they are broken into. */
module Lines {
  import opened Core

  // -------------------------------------------------------------------- the text

  /** A byte of UTF-8 text: the first of a character `len` bytes long, or a later one. */
  datatype TextByte = Lead(ch: char, len: nat) | Trail

  type Text = seq<TextByte>

  ghost predicate IsBoundary(text: Text, b: nat) {
    b <= |text| && (b < |text| ==> text[b].Lead?)
  }

  /** A character that starts at `i` has all its bytes. */
  ghost predicate WholeChar(text: Text, i: nat)
    requires i < |text|
  {
    text[i].Lead? ==>
      && 1 <= text[i].len <= 4
      && IsBoundary(text, i + text[i].len)
      && forall j :: i < j < i + text[i].len ==> text[j].Trail?
  }

  ghost predicate ValidText(text: Text) {
    && (forall i :: 0 <= i < |text| ==> WholeChar(text, i))
    && IsBoundary(text, 0)
  }

  /** The Unicode White_Space property. */
  predicate IsWhitespace(ch: char) {
    || '\U{0009}' <= ch <= '\U{000D}' || ch == '\U{0020}' || ch == '\U{0085}' || ch == '\U{00A0}'
    || ch == '\U{1680}' || '\U{2000}' <= ch <= '\U{200A}' || ch == '\U{2028}' || ch == '\U{2029}'
    || ch == '\U{202F}' || ch == '\U{205F}' || ch == '\U{3000}'
  }

  predicate WhiteChar(text: Text, s: nat)
    requires s < |text|
  {
    text[s].Lead? && IsWhitespace(text[s].ch)
  }

  /** The byte is part of a whitespace character. */
  ghost predicate WhiteByte(text: Text, b: nat) {
    exists s :: 0 <= s <= b && s < |text| && WhiteChar(text, s) && b < s + text[s].len
  }

  /** Characters a line should not start with. */
  predicate IsClosing(ch: char) {
    || ch == '.' || ch == ',' || ch == ';' || ch == ':' || ch == '!' || ch == '?' || ch == ')' || ch == ']'
    || ch == '}' || ch == '\U{00BB}' || ch == '\U{201D}' || ch == '\U{2019}' || ch == '\U{060C}'
    || ch == '\U{061B}' || ch == '\U{061F}'
  }

  predicate IsLeadingForbidden(word: Text) {
    forall i :: 0 <= i < |word| && word[i].Lead? ==> IsClosing(word[i].ch)
  }

  // ---------------------------------------------------------------------- tokens

  datatype Token = Token(byteStart: nat, byteEnd: nat, width: real)

  function TotalLength(words: seq<Text>): nat {
    if words == [] then 0 else TotalLength(words[..|words| - 1]) + |words[|words| - 1]|
  }

  /** Without gaps from 0 to `to`, and none empty. */
  ghost predicate TokensTile(tokens: seq<Token>, to: nat) {
    && (forall i :: 0 <= i < |tokens| ==> tokens[i].byteStart < tokens[i].byteEnd)
    && (forall i :: 0 <= i < |tokens| - 1 ==> tokens[i].byteEnd == tokens[i + 1].byteStart)
    && (if tokens == [] then to == 0 else tokens[0].byteStart == 0 && tokens[|tokens| - 1].byteEnd == to)
  }

  ghost predicate StartsAt(tokens: seq<Token>, b: nat) {
    exists i :: 0 <= i < |tokens| && tokens[i].byteStart == b
  }

  ghost predicate MayStart(words: seq<Text>, b: nat) {
    exists w :: 0 <= w < |words| && TotalLength(words[..w]) == b && (w == 0 || !IsLeadingForbidden(words[w]))
  }

  /** A token may start exactly where a word does that is the first or may start a line. */
  ghost predicate TokensOf(tokens: seq<Token>, words: seq<Text>) {
    && TokensTile(tokens, TotalLength(words))
    && forall b: nat :: StartsAt(tokens, b) <==> MayStart(words, b)
  }

  lemma MayStartSnoc(words: seq<Text>, w: nat)
    requires w < |words|
    ensures forall b: nat :: MayStart(words[..w + 1], b) <==>
              MayStart(words[..w], b) || (b == TotalLength(words[..w]) && (w == 0 || !IsLeadingForbidden(words[w])))
  {
    var more, less := words[..w + 1], words[..w];
    forall b: nat ensures MayStart(more, b) <==>
              MayStart(less, b) || (b == TotalLength(less) && (w == 0 || !IsLeadingForbidden(words[w])))
    {
      assert forall v :: 0 <= v < w ==> more[..v] == less[..v] && more[v] == less[v];
      assert more[..w] == less && more[w] == words[w];
    }
  }

  lemma StartsAtSnoc(tokens: seq<Token>, t: Token)
    ensures forall b: nat :: StartsAt(tokens + [t], b) <==> StartsAt(tokens, b) || b == t.byteStart
  {
    forall b: nat ensures StartsAt(tokens + [t], b) <==> StartsAt(tokens, b) || b == t.byteStart {
      assert forall i :: 0 <= i < |tokens| ==> (tokens + [t])[i] == tokens[i];
      assert (tokens + [t])[|tokens|] == t;
    }
  }

  lemma StartsAtGrown(tokens: seq<Token>, byteEnd: nat)
    requires tokens != []
    ensures var last := |tokens| - 1;
            forall b: nat :: StartsAt(tokens[last := tokens[last].(byteEnd := byteEnd)], b) <==> StartsAt(tokens, b)
  {
    var last := |tokens| - 1;
    var grown := tokens[last := tokens[last].(byteEnd := byteEnd)];
    forall b: nat ensures StartsAt(grown, b) <==> StartsAt(tokens, b) {
      assert forall i :: 0 <= i < |tokens| ==> grown[i].byteStart == tokens[i].byteStart;
    }
  }

  function Joined(tokens: seq<Token>, byteEnd: nat): seq<Token>
    requires tokens != []
  {
    tokens[|tokens| - 1 := tokens[|tokens| - 1].(byteEnd := byteEnd)]
  }

  lemma WordJoins(tokens: seq<Token>, words: seq<Text>, w: nat)
    requires 0 < w < |words| && words[w] != [] && IsLeadingForbidden(words[w])
    requires tokens != [] && TokensOf(tokens, words[..w])
    ensures TokensOf(Joined(tokens, TotalLength(words[..w + 1])), words[..w + 1])
  {
    assert words[..w + 1][..w] == words[..w];
    MayStartSnoc(words, w);
    var joined := Joined(tokens, TotalLength(words[..w + 1]));
    StartsAtGrown(tokens, TotalLength(words[..w + 1]));
    assert TokensTile(joined, TotalLength(words[..w + 1]));
    forall b: nat ensures StartsAt(joined, b) <==> MayStart(words[..w + 1], b) {
      assert StartsAt(tokens, b) <==> MayStart(words[..w], b);
    }
  }

  lemma WordStarts(tokens: seq<Token>, words: seq<Text>, w: nat)
    requires w < |words| && words[w] != [] && (w == 0 || !IsLeadingForbidden(words[w]))
    requires TokensOf(tokens, words[..w])
    ensures TokensOf(tokens + [Token(TotalLength(words[..w]), TotalLength(words[..w + 1]), 0.0)], words[..w + 1])
  {
    assert words[..w + 1][..w] == words[..w];
    MayStartSnoc(words, w);
    StartsAtSnoc(tokens, Token(TotalLength(words[..w]), TotalLength(words[..w + 1]), 0.0));
  }

  /** Words that may not start a line join the token before them. */
  method WordWrapTokenRanges(words: seq<Text>) returns (tokens: seq<Token>)
    requires forall w :: 0 <= w < |words| ==> words[w] != []
    ensures TokensOf(tokens, words)
  {
    tokens := [];
    var cursor := 0;
    for w := 0 to |words|
      invariant TokensOf(tokens, words[..w]) && cursor == TotalLength(words[..w])
      invariant w > 0 <==> tokens != []
    {
      var word := words[w];
      var byteStart, byteEnd := cursor, cursor + |word|;
      assert words[..w + 1][..w] == words[..w];
      cursor := byteEnd;
      if IsLeadingForbidden(word) && tokens != [] {
        WordJoins(tokens, words, w);
        tokens := tokens[|tokens| - 1 := tokens[|tokens| - 1].(byteEnd := byteEnd)];
      } else {
        WordStarts(tokens, words, w);
        tokens := tokens + [Token(byteStart, byteEnd, 0.0)];
      }
    }
    assert words[..|words|] == words;
  }

  // -------------------------------------------------------------------- trimming

  function Trim(text: Text, start: nat, end: nat): (r: nat)
    requires end <= |text|
    ensures start <= end ==> start <= r
    decreases end - start
  {
    if start < end && WhiteChar(text, start) && text[start].len > 0
    then Trim(text, start + text[start].len, end) else start
  }

  /** A character that starts before a boundary ends by it, at a boundary. */
  lemma StaysInside(text: Text, s: nat, end: nat)
    requires ValidText(text) && s < end && IsBoundary(text, s) && IsBoundary(text, end)
    ensures text[s].Lead? && text[s].len > 0
    ensures s + text[s].len <= end && IsBoundary(text, s + text[s].len)
  {
    assert WholeChar(text, s);
  }

  lemma TrimOnce(text: Text, r: nat, end: nat)
    requires r < end <= |text| && WhiteChar(text, r) && text[r].len > 0
    ensures Trim(text, r, end) == Trim(text, r + text[r].len, end)
  {
  }

  method TrimLineStartWhitespace(text: Text, start: nat, end: nat) returns (r: nat)
    requires ValidText(text) && start <= end && IsBoundary(text, start) && IsBoundary(text, end)
    ensures r == Trim(text, start, end)
    ensures start <= r <= end && IsBoundary(text, r)
  {
    r := start;
    while r < end
      invariant start <= r <= end && IsBoundary(text, r)
      invariant Trim(text, r, end) == Trim(text, start, end)
    {
      StaysInside(text, r, end);
      var c := text[r];
      if !IsWhitespace(c.ch) {
        break;
      }
      TrimOnce(text, r, end);
      r := r + c.len;
    }
  }

  /** Trimming skips whitespace only, and all of it. */
  lemma {:induction false} TrimSkipsWhitespace(text: Text, start: nat, end: nat)
    requires ValidText(text) && start <= end && IsBoundary(text, start) && IsBoundary(text, end)
    ensures var r := Trim(text, start, end);
            && start <= r <= end && IsBoundary(text, r)
            && (forall b: nat :: start <= b < r ==> WhiteByte(text, b))
            && (r < end ==> !WhiteChar(text, r))
    decreases end - start
  {
    if start < end && WhiteChar(text, start) {
      StaysInside(text, start, end);
      var next := start + text[start].len;
      TrimSkipsWhitespace(text, next, end);
      assert forall b: nat :: start <= b < next ==> WhiteByte(text, b);
    }
  }

  // ---------------------------------------------------------------------- lines

  /** A line: its bytes, the tokens `first..end` it is made of, and its tracked width. */
  datatype Line = Line(byteStart: nat, byteEnd: nat, first: nat, end: nat, width: real)

  datatype LineRange = LineRange(byteStart: nat, byteEnd: nat)

  /** The paragraph with the widths its shaped runs give to any stretch of bytes. */
  datatype Paragraph = Paragraph(text: Text, tokens: seq<Token>, measure: (nat, nat) -> real)

  ghost predicate ValidParagraph(p: Paragraph) {
    && ValidText(p.text)
    && TokensTile(p.tokens, |p.text|)
    && (forall i :: 0 <= i < |p.tokens| ==>
          && p.tokens[i].byteEnd <= |p.text|
          && IsBoundary(p.text, p.tokens[i].byteStart) && IsBoundary(p.text, p.tokens[i].byteEnd)
          && p.tokens[i].width >= 0.0)
    && forall a, b :: p.measure(a, b) >= 0.0
  }

  /** A line that starts with token `i`, which loses its leading whitespace. */
  function Begun(p: Paragraph, i: nat): Line
    requires i < |p.tokens| && p.tokens[i].byteEnd <= |p.text|
  {
    var t := p.tokens[i];
    var start := Trim(p.text, t.byteStart, t.byteEnd);
    Line(start, t.byteEnd, i, i + 1, if start < t.byteEnd then p.measure(start, t.byteEnd) else 0.0)
  }

  function Extended(l: Line, t: Token): Line {
    l.(byteEnd := t.byteEnd, end := l.end + 1, width := l.width + t.width)
  }

  predicate WouldWrap(l: Line, t: Token, maxWidth: real) {
    l.width != 0.0 && l.width + t.width >= maxWidth
  }

  /** The lines from the open one on; a last line of whitespace alone is dropped. */
  function LinesFrom(p: Paragraph, maxWidth: real, open: Line): seq<Line>
    requires open.end <= |p.tokens|
    requires forall i :: 0 <= i < |p.tokens| ==> p.tokens[i].byteEnd <= |p.text|
    decreases |p.tokens| - open.end
  {
    if open.end == |p.tokens| then
      if open.byteStart < open.byteEnd then [open] else []
    else
      var t := p.tokens[open.end];
      if WouldWrap(open, t, maxWidth) then [open] + LinesFrom(p, maxWidth, Begun(p, open.end))
      else LinesFrom(p, maxWidth, Extended(open, t))
  }

  function LinesOf(p: Paragraph, maxWidth: real): seq<Line>
    requires forall i :: 0 <= i < |p.tokens| ==> p.tokens[i].byteEnd <= |p.text|
  {
    if p.tokens == [] then [] else LinesFrom(p, maxWidth, Begun(p, 0))
  }

  function RangesOf(lines: seq<Line>): (r: seq<LineRange>)
    ensures |r| == |lines|
  {
    seq(|lines|, i requires 0 <= i < |lines| => LineRange(lines[i].byteStart, lines[i].byteEnd))
  }

  lemma RangesOfCons(l: Line, rest: seq<Line>)
    ensures RangesOf([l] + rest) == [LineRange(l.byteStart, l.byteEnd)] + RangesOf(rest)
  {
  }

  /** A finished line moves from the lines to come to the lines done. */
  lemma LineBreaks(p: Paragraph, maxWidth: real, open: Line, done: seq<LineRange>)
    requires forall i :: 0 <= i < |p.tokens| ==> p.tokens[i].byteEnd <= |p.text|
    requires open.end < |p.tokens| && WouldWrap(open, p.tokens[open.end], maxWidth)
    ensures done + RangesOf(LinesFrom(p, maxWidth, open)) ==
            done + [LineRange(open.byteStart, open.byteEnd)] + RangesOf(LinesFrom(p, maxWidth, Begun(p, open.end)))
  {
    RangesOfCons(open, LinesFrom(p, maxWidth, Begun(p, open.end)));
  }

  method BuildLineRanges(p: Paragraph, maxWidth: real) returns (lines: seq<LineRange>)
    requires ValidParagraph(p)
    ensures lines == RangesOf(LinesOf(p, maxWidth))
  {
    lines := [];
    var crntWidth := 0.0;
    var crntStart: Option<nat> := None;
    var crntEnd := 0;
    ghost var open := Line(0, 0, 0, 0, 0.0);
    ghost var goal := RangesOf(LinesOf(p, maxWidth));
    for i := 0 to |p.tokens|
      invariant crntStart.Some? <==> i > 0
      invariant i > 0 ==> open.end == i && open.width == crntWidth
      invariant i > 0 ==> open.byteStart == crntStart.value && open.byteEnd == crntEnd
      invariant i == 0 ==> lines == []
      invariant i > 0 ==> goal == lines + RangesOf(LinesFrom(p, maxWidth, open))
    {
      var range := p.tokens[i];
      if crntStart.None? {
        var start := TrimLineStartWhitespace(p.text, range.byteStart, range.byteEnd);
        crntStart, crntEnd := Some(start), range.byteEnd;
        crntWidth := if start < crntEnd then p.measure(start, crntEnd) else 0.0;
        open := Begun(p, 0);
        assert lines + goal == goal;
        continue;
      }
      var wouldWrap := crntWidth != 0.0 && crntWidth + range.width >= maxWidth;
      if wouldWrap {
        LineBreaks(p, maxWidth, open, lines);
        lines := lines + [LineRange(crntStart.value, crntEnd)];
        var start := TrimLineStartWhitespace(p.text, range.byteStart, range.byteEnd);
        crntStart, crntEnd := Some(start), range.byteEnd;
        crntWidth := if start < crntEnd then p.measure(start, crntEnd) else 0.0;
        open := Begun(p, i);
      } else {
        crntWidth := crntWidth + range.width;
        crntEnd := range.byteEnd;
        open := Extended(open, range);
      }
    }
    if crntStart.Some? && crntStart.value < crntEnd {
      lines := lines + [LineRange(crntStart.value, crntEnd)];
    }
  }

  // ----------------------------------------------------------- what lines promise

  /** What token `k` adds to the tracked width of a line that starts at `byteStart`. */
  function Share(p: Paragraph, l: Line, k: nat): real
    requires k < |p.tokens|
  {
    if k != l.first then p.tokens[k].width
    else if l.byteStart < p.tokens[k].byteEnd then p.measure(l.byteStart, p.tokens[k].byteEnd)
    else 0.0
  }

  function Shares(p: Paragraph, l: Line, n: nat): real
    requires l.first <= n <= |p.tokens|
    decreases n
  {
    if n == l.first then 0.0 else Shares(p, l, n - 1) + Share(p, l, n - 1)
  }

  /** At most one token of the line has any width. */
  ghost predicate OneWideToken(p: Paragraph, l: Line)
    requires l.end <= |p.tokens|
  {
    forall j, k :: l.first <= j < l.end && l.first <= k < l.end && Share(p, l, j) != 0.0 && Share(p, l, k) != 0.0 ==>
      j == k
  }

  /** At least one has. */
  ghost predicate SomeWideToken(p: Paragraph, l: Line)
    requires l.end <= |p.tokens|
  {
    exists k :: l.first <= k < l.end && Share(p, l, k) != 0.0
  }

  lemma {:induction false} WidthComesFromTokens(p: Paragraph, l: Line, n: nat)
    requires l.first <= n <= l.end <= |p.tokens| && Shares(p, l, n) != 0.0
    ensures SomeWideToken(p, l)
    decreases n
  {
    if Share(p, l, n - 1) == 0.0 {
      WidthComesFromTokens(p, l, n - 1);
    }
  }

  /** Where a line, open or finished, stands in the text. */
  ghost predicate GoodBytes(p: Paragraph, l: Line) {
    && l.first < l.end <= |p.tokens|
    && p.tokens[l.first].byteStart <= l.byteStart <= p.tokens[l.first].byteEnd
    && l.byteEnd == p.tokens[l.end - 1].byteEnd
    && l.byteStart <= l.byteEnd <= |p.text|
    && forall b: nat :: p.tokens[l.first].byteStart <= b < l.byteStart ==> WhiteByte(p.text, b)
  }

  /** How its tracked width is made up. */
  ghost predicate GoodWidth(p: Paragraph, l: Line, maxWidth: real) {
    && l.first < l.end <= |p.tokens|
    && l.width == Shares(p, l, l.end) && l.width >= 0.0
    && (l.width == 0.0 ==> forall k :: l.first <= k < l.end ==> Share(p, l, k) == 0.0)
    && (l.width >= maxWidth ==> OneWideToken(p, l))
  }

  ghost predicate GoodLine(p: Paragraph, l: Line, maxWidth: real) {
    && GoodBytes(p, l)
    && GoodWidth(p, l, maxWidth)
    && (l.width != 0.0 ==> l.byteStart < l.byteEnd)
  }

  lemma BegunIsGood(p: Paragraph, i: nat, maxWidth: real)
    requires ValidParagraph(p) && i < |p.tokens|
    ensures GoodLine(p, Begun(p, i), maxWidth)
  {
    var t := p.tokens[i];
    TrimSkipsWhitespace(p.text, t.byteStart, t.byteEnd);
    var l := Begun(p, i);
    assert Shares(p, l, i) == 0.0;
  }

  lemma {:induction false} SharesAgree(p: Paragraph, l: Line, m: Line, n: nat)
    requires l.first == m.first <= n <= |p.tokens| && l.byteStart == m.byteStart
    ensures Shares(p, l, n) == Shares(p, m, n)
    decreases n
  {
    if n > l.first {
      SharesAgree(p, l, m, n - 1);
    }
  }

  lemma ExtendedShares(p: Paragraph, l: Line)
    requires l.first < l.end < |p.tokens|
    ensures var m := Extended(l, p.tokens[l.end]);
            && Shares(p, m, m.end) == Shares(p, l, l.end) + p.tokens[l.end].width
            && Share(p, m, l.end) == p.tokens[l.end].width
            && forall k :: l.first <= k < l.end ==> Share(p, m, k) == Share(p, l, k)
  {
    SharesAgree(p, l, Extended(l, p.tokens[l.end]), l.end);
  }

  lemma ExtendedWidth(p: Paragraph, l: Line, maxWidth: real)
    requires GoodWidth(p, l, maxWidth) && l.end < |p.tokens| && p.tokens[l.end].width >= 0.0
    requires !WouldWrap(l, p.tokens[l.end], maxWidth)
    ensures GoodWidth(p, Extended(l, p.tokens[l.end]), maxWidth)
  {
    ExtendedShares(p, l);
  }

  lemma ExtendedBytes(p: Paragraph, l: Line)
    requires TokensTile(p.tokens, |p.text|) && GoodBytes(p, l) && l.end < |p.tokens|
    requires p.tokens[l.end].byteEnd <= |p.text|
    ensures GoodBytes(p, Extended(l, p.tokens[l.end]))
    ensures l.byteEnd < p.tokens[l.end].byteEnd
  {
    assert p.tokens[l.end - 1].byteEnd == p.tokens[l.end - 1 + 1].byteStart;
  }

  lemma ExtendedIsGood(p: Paragraph, l: Line, maxWidth: real)
    requires ValidParagraph(p) && GoodLine(p, l, maxWidth) && l.end < |p.tokens|
    requires !WouldWrap(l, p.tokens[l.end], maxWidth)
    ensures GoodLine(p, Extended(l, p.tokens[l.end]), maxWidth)
  {
    ExtendedWidth(p, l, maxWidth);
    ExtendedBytes(p, l);
  }

  ghost predicate InLines(lines: seq<Line>, b: nat) {
    exists i :: 0 <= i < |lines| && lines[i].byteStart <= b < lines[i].byteEnd
  }

  predicate Follows(p: Paragraph, l: Line, m: Line, maxWidth: real) {
    && l.end == m.first && m.first < |p.tokens|
    && l.byteEnd <= m.byteStart
    && WouldWrap(l, p.tokens[l.end], maxWidth)
  }

  /** Lines that carry on from token `first`: good and not empty, each breaking before
      the next only because the next token would reach the maximum, and between them
      missing nothing but whitespace. */
  ghost predicate SoundLines(p: Paragraph, lines: seq<Line>, first: nat, maxWidth: real)
    requires first < |p.tokens|
  {
    && (lines != [] ==> lines[0].first == first)
    && (forall i :: 0 <= i < |lines| ==> GoodLine(p, lines[i], maxWidth) && lines[i].byteStart < lines[i].byteEnd)
    && (forall i :: 0 <= i < |lines| - 1 ==> Follows(p, lines[i], lines[i + 1], maxWidth))
    && (forall b: nat :: p.tokens[first].byteStart <= b < |p.text| ==> InLines(lines, b) || WhiteByte(p.text, b))
  }

  lemma LastLineIsSound(p: Paragraph, open: Line, maxWidth: real)
    requires ValidParagraph(p) && GoodLine(p, open, maxWidth) && open.end == |p.tokens|
    ensures SoundLines(p, if open.byteStart < open.byteEnd then [open] else [], open.first, maxWidth)
  {
    var lines := if open.byteStart < open.byteEnd then [open] else [];
    forall b: nat | p.tokens[open.first].byteStart <= b < |p.text| ensures InLines(lines, b) || WhiteByte(p.text, b) {
      if open.byteStart <= b { assert lines[0] == open; }
    }
  }

  /** Between the open line and the rest, as between any two, nothing but whitespace is missing. */
  lemma PrependCovers(p: Paragraph, open: Line, rest: seq<Line>, b: nat)
    requires GoodBytes(p, open) && open.end < |p.tokens|
    requires open.byteEnd == p.tokens[open.end].byteStart
    requires p.tokens[open.end].byteStart <= b ==> InLines(rest, b) || WhiteByte(p.text, b)
    requires p.tokens[open.first].byteStart <= b
    ensures InLines([open] + rest, b) || WhiteByte(p.text, b)
  {
    var lines := [open] + rest;
    if open.byteStart <= b < open.byteEnd {
      assert lines[0] == open;
    } else if b >= open.byteEnd {
      if j :| 0 <= j < |rest| && rest[j].byteStart <= b < rest[j].byteEnd { assert lines[j + 1] == rest[j]; }
    }
  }

  lemma PrependFollows(p: Paragraph, open: Line, rest: seq<Line>, maxWidth: real, i: nat)
    requires rest != [] ==> Follows(p, open, rest[0], maxWidth)
    requires forall k :: 0 <= k < |rest| - 1 ==> Follows(p, rest[k], rest[k + 1], maxWidth)
    requires i < |rest|
    ensures Follows(p, ([open] + rest)[i], ([open] + rest)[i + 1], maxWidth)
  {
    if i > 0 {
      assert Follows(p, rest[i - 1], rest[i - 1 + 1], maxWidth);
    }
  }

  lemma PrependLine(p: Paragraph, open: Line, rest: seq<Line>, maxWidth: real)
    requires ValidParagraph(p) && GoodLine(p, open, maxWidth) && open.end < |p.tokens|
    requires WouldWrap(open, p.tokens[open.end], maxWidth)
    requires SoundLines(p, rest, open.end, maxWidth)
    ensures SoundLines(p, [open] + rest, open.first, maxWidth)
  {
    var lines := [open] + rest;
    assert open.byteEnd == p.tokens[open.end].byteStart by {
      assert p.tokens[open.end - 1].byteEnd == p.tokens[open.end - 1 + 1].byteStart;
    }
    if rest != [] {
      assert GoodLine(p, rest[0], maxWidth);
    }
    forall i | 0 <= i < |lines| - 1 ensures Follows(p, lines[i], lines[i + 1], maxWidth) {
      PrependFollows(p, open, rest, maxWidth, i);
    }
    forall b: nat | p.tokens[open.first].byteStart <= b < |p.text| ensures InLines(lines, b) || WhiteByte(p.text, b) {
      PrependCovers(p, open, rest, b);
    }
  }

  lemma {:induction false} LinesFromAreSound(p: Paragraph, open: Line, maxWidth: real)
    requires ValidParagraph(p) && GoodLine(p, open, maxWidth)
    ensures SoundLines(p, LinesFrom(p, maxWidth, open), open.first, maxWidth)
    decreases |p.tokens| - open.end
  {
    if open.end == |p.tokens| {
      LastLineIsSound(p, open, maxWidth);
    } else if WouldWrap(open, p.tokens[open.end], maxWidth) {
      BegunIsGood(p, open.end, maxWidth);
      LinesFromAreSound(p, Begun(p, open.end), maxWidth);
      PrependLine(p, open, LinesFrom(p, maxWidth, Begun(p, open.end)), maxWidth);
    } else {
      ExtendedIsGood(p, open, maxWidth);
      LinesFromAreSound(p, Extended(open, p.tokens[open.end]), maxWidth);
    }
  }

  lemma {:induction false} InOrder(p: Paragraph, lines: seq<Line>, first: nat, maxWidth: real, i: nat, j: nat)
    requires first < |p.tokens| && SoundLines(p, lines, first, maxWidth) && i < j < |lines|
    ensures lines[i].byteEnd <= lines[j].byteStart
    decreases j
  {
    assert Follows(p, lines[j - 1], lines[j - 1 + 1], maxWidth);
    if i + 1 < j {
      InOrder(p, lines, first, maxWidth, i, j - 1);
    }
  }

  // ------------------------------------------------------ where the lines must break

  /** The line starts behind the leading whitespace of its first token. */
  ghost predicate StartsTrimmed(p: Paragraph, l: Line) {
    && l.first < |p.tokens| && p.tokens[l.first].byteEnd <= |p.text|
    && p.tokens[l.first].byteStart <= l.byteStart <= p.tokens[l.first].byteEnd
    && IsBoundary(p.text, l.byteStart)
    && (forall b: nat :: p.tokens[l.first].byteStart <= b < l.byteStart ==> WhiteByte(p.text, b))
    && (l.byteStart < p.tokens[l.first].byteEnd ==> !WhiteChar(p.text, l.byteStart))
  }

  /** No break was due before any of its tokens but the first. */
  ghost predicate RunsOn(p: Paragraph, l: Line, maxWidth: real) {
    && l.end <= |p.tokens|
    && forall k :: l.first < k < l.end ==>
         Shares(p, l, k) == 0.0 || Shares(p, l, k) + p.tokens[k].width < maxWidth
  }

  /** A break is due before the token that follows it. */
  ghost predicate BreaksBefore(p: Paragraph, l: Line, maxWidth: real) {
    l.end < |p.tokens| ==> l.width != 0.0 && l.width + p.tokens[l.end].width >= maxWidth
  }

  /** A line from its first token on, open or finished. */
  ghost predicate IsPart(p: Paragraph, l: Line, maxWidth: real) {
    && l.first < l.end <= |p.tokens|
    && StartsTrimmed(p, l) && RunsOn(p, l, maxWidth)
    && l.byteEnd == p.tokens[l.end - 1].byteEnd
    && l.width == Shares(p, l, l.end)
  }

  ghost predicate IsLine(p: Paragraph, l: Line, maxWidth: real) {
    IsPart(p, l, maxWidth) && BreaksBefore(p, l, maxWidth) && l.byteStart < l.byteEnd
  }

  ghost predicate AllWhite(p: Paragraph, k: nat)
    requires k < |p.tokens|
  {
    forall b: nat :: p.tokens[k].byteStart <= b < p.tokens[k].byteEnd ==> WhiteByte(p.text, b)
  }

  /** The tokens from `first` on in lines that follow one another: all of them, or all
      but a last one that is only whitespace. */
  ghost predicate IsBroken(p: Paragraph, lines: seq<Line>, first: nat, maxWidth: real) {
    var n, end := |p.tokens|, if lines == [] then first else lines[|lines| - 1].end;
    && (forall i :: 0 <= i < |lines| ==> IsLine(p, lines[i], maxWidth))
    && (forall i :: 0 <= i < |lines| - 1 ==> lines[i].end == lines[i + 1].first)
    && (lines != [] ==> lines[0].first == first)
    && (end == n || (end == n - 1 && AllWhite(p, end)))
  }

  lemma BegunIsPart(p: Paragraph, i: nat, maxWidth: real)
    requires ValidParagraph(p) && i < |p.tokens|
    ensures IsPart(p, Begun(p, i), maxWidth)
  {
    var t, l := p.tokens[i], Begun(p, i);
    TrimSkipsWhitespace(p.text, t.byteStart, t.byteEnd);
    assert Shares(p, l, i) == 0.0;
  }

  lemma ExtendedRunsOn(p: Paragraph, l: Line, maxWidth: real)
    requires l.first < l.end < |p.tokens| && RunsOn(p, l, maxWidth)
    requires l.width == Shares(p, l, l.end) && !WouldWrap(l, p.tokens[l.end], maxWidth)
    ensures RunsOn(p, Extended(l, p.tokens[l.end]), maxWidth)
  {
    var m := Extended(l, p.tokens[l.end]);
    forall k | m.first < k < m.end
      ensures Shares(p, m, k) == 0.0 || Shares(p, m, k) + p.tokens[k].width < maxWidth
    {
      SharesAgree(p, l, m, k);
    }
  }

  lemma ExtendedIsPart(p: Paragraph, l: Line, maxWidth: real)
    requires IsPart(p, l, maxWidth) && l.end < |p.tokens|
    requires !WouldWrap(l, p.tokens[l.end], maxWidth)
    ensures IsPart(p, Extended(l, p.tokens[l.end]), maxWidth)
  {
    ExtendedShares(p, l);
    ExtendedRunsOn(p, l, maxWidth);
  }

  lemma {:induction false} EndsIncrease(p: Paragraph, i: nat, j: nat)
    requires TokensTile(p.tokens, |p.text|) && i < j < |p.tokens|
    ensures p.tokens[i].byteEnd < p.tokens[j].byteEnd
    decreases j
  {
    assert p.tokens[j - 1].byteEnd == p.tokens[j - 1 + 1].byteStart;
    if i + 1 < j {
      EndsIncrease(p, i, j - 1);
    }
  }

  lemma EmptyIsOneToken(p: Paragraph, l: Line)
    requires TokensTile(p.tokens, |p.text|) && l.first < l.end <= |p.tokens|
    requires l.byteStart <= p.tokens[l.first].byteEnd && l.byteEnd == p.tokens[l.end - 1].byteEnd
    ensures l.byteStart >= l.byteEnd ==> l.end == l.first + 1 && l.byteStart == p.tokens[l.first].byteEnd
  {
    if l.first < l.end - 1 {
      EndsIncrease(p, l.first, l.end - 1);
    }
  }

  /** Only a single token of whitespace leaves nothing of a line. */
  lemma EmptyPart(p: Paragraph, l: Line, maxWidth: real)
    requires TokensTile(p.tokens, |p.text|) && IsPart(p, l, maxWidth)
    ensures l.byteStart >= l.byteEnd ==> l.end == l.first + 1 && AllWhite(p, l.first) && l.width == 0.0
  {
    EmptyIsOneToken(p, l);
    if l.byteStart >= l.byteEnd {
      assert Shares(p, l, l.first + 1) == Shares(p, l, l.first) + Share(p, l, l.first);
    }
  }

  lemma PrependIsBroken(p: Paragraph, l: Line, rest: seq<Line>, maxWidth: real)
    requires IsLine(p, l, maxWidth) && IsBroken(p, rest, l.end, maxWidth)
    ensures IsBroken(p, [l] + rest, l.first, maxWidth)
  {
    var lines := [l] + rest;
    forall i | 0 <= i < |lines| ensures IsLine(p, lines[i], maxWidth) {
      assert i > 0 ==> lines[i] == rest[i - 1];
    }
    forall i | 0 <= i < |lines| - 1 ensures lines[i].end == lines[i + 1].first {
      assert i > 0 ==> rest[i - 1].end == rest[i - 1 + 1].first;
    }
  }

  lemma LastIsBroken(p: Paragraph, open: Line, maxWidth: real)
    requires TokensTile(p.tokens, |p.text|) && IsPart(p, open, maxWidth) && open.end == |p.tokens|
    ensures IsBroken(p, if open.byteStart < open.byteEnd then [open] else [], open.first, maxWidth)
  {
    EmptyPart(p, open, maxWidth);
  }

  lemma {:induction false} LinesFromAreBroken(p: Paragraph, open: Line, maxWidth: real)
    requires ValidParagraph(p) && IsPart(p, open, maxWidth)
    ensures IsBroken(p, LinesFrom(p, maxWidth, open), open.first, maxWidth)
    decreases |p.tokens| - open.end
  {
    if open.end == |p.tokens| {
      LastIsBroken(p, open, maxWidth);
    } else if WouldWrap(open, p.tokens[open.end], maxWidth) {
      EmptyPart(p, open, maxWidth);
      BegunIsPart(p, open.end, maxWidth);
      LinesFromAreBroken(p, Begun(p, open.end), maxWidth);
      PrependIsBroken(p, open, LinesFrom(p, maxWidth, Begun(p, open.end)), maxWidth);
    } else {
      ExtendedIsPart(p, open, maxWidth);
      LinesFromAreBroken(p, Extended(open, p.tokens[open.end]), maxWidth);
    }
  }

  lemma WhiteBoundary(text: Text, b: nat)
    requires ValidText(text) && b < |text| && IsBoundary(text, b) && WhiteByte(text, b)
    ensures WhiteChar(text, b)
  {
    var s :| 0 <= s <= b && s < |text| && WhiteChar(text, s) && b < s + text[s].len;
    assert WholeChar(text, s);
  }

  /** There is one place only where a line of these tokens can start. */
  lemma NotEarlier(p: Paragraph, l: Line, m: Line)
    requires ValidText(p.text) && StartsTrimmed(p, l) && StartsTrimmed(p, m) && l.first == m.first
    ensures l.byteStart >= m.byteStart
  {
    if l.byteStart < m.byteStart {
      WhiteBoundary(p.text, l.byteStart);
    }
  }

  lemma OneStart(p: Paragraph, l: Line, m: Line)
    requires ValidText(p.text) && StartsTrimmed(p, l) && StartsTrimmed(p, m) && l.first == m.first
    ensures l.byteStart == m.byteStart
  {
    NotEarlier(p, l, m);
    NotEarlier(p, m, l);
  }

  /** The first tokens of a line, up to token `k`. */
  function Leading(p: Paragraph, l: Line, k: nat): Line
    requires l.first < k <= |p.tokens|
  {
    Line(l.byteStart, p.tokens[k - 1].byteEnd, l.first, k, Shares(p, l, k))
  }

  lemma LeadingFirst(p: Paragraph, l: Line, maxWidth: real)
    requires ValidParagraph(p) && IsPart(p, l, maxWidth)
    ensures Leading(p, l, l.first + 1) == Begun(p, l.first)
  {
    BegunIsPart(p, l.first, maxWidth);
    OneStart(p, l, Begun(p, l.first));
    assert Shares(p, l, l.first) == 0.0;
  }

  ghost predicate TokensWithin(p: Paragraph) {
    forall i :: 0 <= i < |p.tokens| ==> p.tokens[i].byteEnd <= |p.text|
  }

  lemma LoopTakesToken(p: Paragraph, l: Line, maxWidth: real, k: nat)
    requires TokensWithin(p) && l.first < k < l.end && RunsOn(p, l, maxWidth)
    ensures LinesFrom(p, maxWidth, Leading(p, l, k)) == LinesFrom(p, maxWidth, Leading(p, l, k + 1))
  {
    assert !WouldWrap(Leading(p, l, k), p.tokens[k], maxWidth);
    assert Extended(Leading(p, l, k), p.tokens[k]) == Leading(p, l, k + 1);
  }

  /** The loop goes through all tokens of the line before it comes to its end. */
  lemma {:induction false} LoopRunsThrough(p: Paragraph, l: Line, maxWidth: real, k: nat)
    requires TokensWithin(p) && l.first < k <= l.end && RunsOn(p, l, maxWidth)
    requires l.byteEnd == p.tokens[l.end - 1].byteEnd && l.width == Shares(p, l, l.end)
    ensures LinesFrom(p, maxWidth, Leading(p, l, k)) == LinesFrom(p, maxWidth, l)
    decreases l.end - k
  {
    if k == l.end {
      assert Leading(p, l, k) == l;
    } else {
      LoopTakesToken(p, l, maxWidth, k);
      LoopRunsThrough(p, l, maxWidth, k + 1);
    }
  }

  /** ... where it is finished and the next one begins, if a token is left. */
  lemma LoopFinishes(p: Paragraph, l: Line, maxWidth: real)
    requires ValidParagraph(p) && IsLine(p, l, maxWidth)
    ensures LinesFrom(p, maxWidth, Begun(p, l.first)) ==
            [l] + if l.end < |p.tokens| then LinesFrom(p, maxWidth, Begun(p, l.end)) else []
  {
    LeadingFirst(p, l, maxWidth);
    LoopRunsThrough(p, l, maxWidth, l.first + 1);
    assert l.end < |p.tokens| ==> WouldWrap(l, p.tokens[l.end], maxWidth);
  }

  lemma TailIsBroken(p: Paragraph, lines: seq<Line>, first: nat, maxWidth: real)
    requires IsBroken(p, lines, first, maxWidth) && lines != []
    ensures IsLine(p, lines[0], maxWidth) && IsBroken(p, lines[1..], lines[0].end, maxWidth)
    ensures lines == [lines[0]] + lines[1..] && lines[0].first == first
    ensures lines[0].end == |p.tokens| ==> lines[1..] == []
  {
    var rest := lines[1..];
    assert rest != [] ==> IsLine(p, rest[0], maxWidth) && rest[0].first == lines[0].end;
    forall i | 0 <= i < |rest| - 1 ensures rest[i].end == rest[i + 1].first {
      assert lines[i + 1].end == lines[i + 1 + 1].first;
    }
  }

  lemma NoLineOfWhitespace(p: Paragraph, k: nat, maxWidth: real)
    requires ValidParagraph(p) && k == |p.tokens| - 1 && AllWhite(p, k)
    ensures LinesFrom(p, maxWidth, Begun(p, k)) == []
  {
    BegunIsPart(p, k, maxWidth);
    var t, l := p.tokens[k], Begun(p, k);
    OneStart(p, l, l.(byteStart := t.byteEnd));
  }

  lemma {:induction false} OneBreaking(p: Paragraph, lines: seq<Line>, first: nat, maxWidth: real)
    requires ValidParagraph(p) && first < |p.tokens| && IsBroken(p, lines, first, maxWidth)
    ensures lines == LinesFrom(p, maxWidth, Begun(p, first))
    decreases |lines|
  {
    if lines == [] {
      NoLineOfWhitespace(p, first, maxWidth);
    } else {
      var l, rest := lines[0], lines[1..];
      TailIsBroken(p, lines, first, maxWidth);
      LoopFinishes(p, l, maxWidth);
      if l.end < |p.tokens| {
        OneBreaking(p, rest, l.end, maxWidth);
      }
    }
  }

  /** The lines are determined: each starts behind the leading whitespace of its first
      token, goes on exactly as long as its width is 0 or stays below the maximum with
      the next token, and only a last token of whitespace makes no line. No other lines
      have all of this. */
  lemma LinesAreDetermined(p: Paragraph, lines: seq<Line>, maxWidth: real)
    requires ValidParagraph(p)
    ensures lines == LinesOf(p, maxWidth) <==> IsBroken(p, lines, 0, maxWidth)
  {
    if p.tokens == [] {
      assert IsBroken(p, lines, 0, maxWidth) && lines != [] ==> IsLine(p, lines[0], maxWidth);
    } else {
      BegunIsPart(p, 0, maxWidth);
      LinesFromAreBroken(p, Begun(p, 0), maxWidth);
      if IsBroken(p, lines, 0, maxWidth) {
        OneBreaking(p, lines, 0, maxWidth);
      }
    }
  }

  /** A tail of whitespace may well make a line: once its first token is trimmed away,
      a second one starts where nothing has any width, so it joins and stays. */
  lemma WhitespaceCanMakeALine(m: (nat, nat) -> real)
    requires m(0, 1) == 1.0
    ensures var text := [Lead('a', 1), Lead(' ', 1), Lead(' ', 1)];
            var p := Paragraph(text, [Token(0, 1, 1.0), Token(1, 2, 1.0), Token(2, 3, 1.0)], m);
            LinesOf(p, 2.0) == [Line(0, 1, 0, 1, 1.0), Line(2, 3, 1, 3, 1.0)] && WhiteByte(text, 2)
  {
    var text := [Lead('a', 1), Lead(' ', 1), Lead(' ', 1)];
    var p := Paragraph(text, [Token(0, 1, 1.0), Token(1, 2, 1.0), Token(2, 3, 1.0)], m);
    assert WhiteChar(text, 1) && WhiteChar(text, 2);
    assert Trim(text, 1, 2) == 2;
    assert Begun(p, 0) == Line(0, 1, 0, 1, 1.0) && Begun(p, 1) == Line(2, 2, 1, 2, 0.0);
    assert Extended(Begun(p, 1), p.tokens[2]) == Line(2, 3, 1, 3, 1.0);
    assert LinesFrom(p, 2.0, Begun(p, 1)) == [Line(2, 3, 1, 3, 1.0)];
  }

  /** The lines of a paragraph are not empty, in order and disjoint; the bytes between
      them are whitespace; a line whose tracked width reaches the maximum has just one
      token of non-zero width; and they start and break where they must. */
  lemma LinesAreSound(p: Paragraph, maxWidth: real)
    requires ValidParagraph(p)
    ensures var lines := LinesOf(p, maxWidth);
            && (forall i :: 0 <= i < |lines| ==> lines[i].byteStart < lines[i].byteEnd <= |p.text|)
            && (forall i, j :: 0 <= i < j < |lines| ==> lines[i].byteEnd <= lines[j].byteStart)
            && (forall b: nat :: b < |p.text| ==> InLines(lines, b) || WhiteByte(p.text, b))
            && (forall i :: 0 <= i < |lines| && lines[i].width >= maxWidth ==>
                  && lines[i].end <= |p.tokens| && OneWideToken(p, lines[i])
                  && (maxWidth > 0.0 ==> SomeWideToken(p, lines[i])))
            && (forall i :: 0 <= i < |lines| - 1 ==> Follows(p, lines[i], lines[i + 1], maxWidth))
            && IsBroken(p, lines, 0, maxWidth)
  {
    LinesAreDetermined(p, LinesOf(p, maxWidth), maxWidth);
    if p.tokens != [] {
      var lines := LinesOf(p, maxWidth);
      BegunIsGood(p, 0, maxWidth);
      LinesFromAreSound(p, Begun(p, 0), maxWidth);
      forall i, j | 0 <= i < j < |lines| ensures lines[i].byteEnd <= lines[j].byteStart {
        InOrder(p, lines, 0, maxWidth, i, j);
      }
      forall i | 0 <= i < |lines| && lines[i].width >= maxWidth > 0.0 ensures SomeWideToken(p, lines[i]) {
        assert GoodLine(p, lines[i], maxWidth);
        WidthComesFromTokens(p, lines[i], lines[i].end);
      }
    }
  }
}
