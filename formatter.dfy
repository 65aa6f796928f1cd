/**
 * Post-processing of the language model's answer (app/formatter.py):
 * `split_sentences`, `emphasize_keywords` and `format_text`.
 *
 * Each loop of the source is a method proved equal to a specification
 * function; the properties the formatter promises are lemmas about those
 * functions.
 */
module Formatter {
  import opened Wrappers
  import opened PyStr
  import opened Seqs

  /** Default `max_len` of `split_sentences`, the one `format_text` uses. */
  const MAX_SENTENCE_LEN: int := 120

  /** What `format_text` returns for an empty or whitespace-only answer. */
  const NO_ANSWER: string := "No answer generated."

  /** The bullet marker `format_text` writes in front of bullet items. */
  const BULLET: string := "\U{2022} "

  // ---------------------------------------------------------------------
  // split_sentences
  // ---------------------------------------------------------------------

  predicate IsTerminator(c: char)
  {
    c == '.' || c == '!' || c == '?'
  }

  /** The pattern `(?<=[.!?]) +` starts a match at position `i` of `s`. */
  predicate BreaksAt(s: string, i: int)
  {
    0 < i < |s| && IsTerminator(s[i - 1]) && s[i] == ' '
  }

  /** The first break at or after `k`, or `|s|` when there is none. */
  function NextBreak(s: string, k: nat): (i: nat)
    requires k <= |s|
    ensures k <= i <= |s|
    ensures i < |s| ==> BreaksAt(s, i)
    ensures forall j :: k <= j < i ==> !BreaksAt(s, j)
    decreases |s| - k
  {
    if k == |s| || BreaksAt(s, k) then k else NextBreak(s, k + 1)
  }

  /** The end of the run of spaces that starts at `i`. */
  function SpaceRunEnd(s: string, i: nat): (j: nat)
    requires i <= |s|
    ensures i <= j <= |s|
    ensures j == |s| || s[j] != ' '
    ensures forall m :: i <= m < j ==> s[m] == ' '
    decreases |s| - i
  {
    if i < |s| && s[i] == ' ' then SpaceRunEnd(s, i + 1) else i
  }

  /** `re.split(r'(?<=[.!?]) +', s)`: `s` cut at every maximal run of spaces
      that directly follows `.`, `!` or `?`; the runs themselves are dropped. */
  function Sentences(s: string): (r: seq<string>)
    ensures |r| >= 1
    decreases |s|
  {
    if s == [] then [s]
    else
      var i := NextBreak(s, 1);
      if i == |s| then [s] else [s[..i]] + Sentences(s[SpaceRunEnd(s, i)..])
  }

  /** Every sentence but the last is non-empty and ends with its terminator. */
  lemma {:induction false} SentencesEndWithTerminator(s: string)
    ensures forall k :: 0 <= k < |Sentences(s)| - 1 ==>
              Sentences(s)[k] != [] && IsTerminator(Sentences(s)[k][|Sentences(s)[k]| - 1])
    decreases |s|
  {
    if s != [] {
      var i := NextBreak(s, 1);
      if i < |s| {
        var rest := s[SpaceRunEnd(s, i)..];
        SentencesEndWithTerminator(rest);
        assert Sentences(s) == [s[..i]] + Sentences(rest);
      }
    }
  }

  /** The first sentence starts `s`; no sentence holds a place where the pattern
      matches, and none after the first starts with a space: every maximal run
      of spaces after a terminator was cut. */
  lemma {:induction false} SentencesHaveNoBreak(s: string)
    ensures Sentences(s)[0] == s[..|Sentences(s)[0]|]
    ensures forall k, j :: 0 <= k < |Sentences(s)| && 0 < j < |Sentences(s)[k]| ==> !BreaksAt(Sentences(s)[k], j)
    ensures forall k :: 0 < k < |Sentences(s)| && Sentences(s)[k] != [] ==> Sentences(s)[k][0] != ' '
    decreases |s|
  {
    if s != [] {
      var i := NextBreak(s, 1);
      if i < |s| {
        var rest := s[SpaceRunEnd(s, i)..];
        SentencesHaveNoBreak(rest);
        assert Sentences(s) == [s[..i]] + Sentences(rest);
        forall m | 0 < m < i ensures !BreaksAt(s[..i], m) {
          assert !BreaksAt(s, m);
        }
      }
    }
  }

  /** The runs of spaces `re.split` drops between the sentences, in order. */
  function Gaps(s: string): seq<string>
    decreases |s|
  {
    if s == [] then []
    else
      var i := NextBreak(s, 1);
      if i == |s| then [] else [s[i..SpaceRunEnd(s, i)]] + Gaps(s[SpaceRunEnd(s, i)..])
  }

  /** The sentences with a gap put back between each two of them. */
  function Rejoin(parts: seq<string>, gaps: seq<string>): string
    requires |parts| == |gaps| + 1
    decreases |gaps|
  {
    if gaps == [] then parts[0] else parts[0] + gaps[0] + Rejoin(parts[1..], gaps[1..])
  }

  /** One sentence and one gap in front of the others. */
  lemma RejoinCons(p: string, g: string, parts: seq<string>, gaps: seq<string>)
    requires |parts| == |gaps| + 1
    ensures Rejoin([p] + parts, [g] + gaps) == p + g + Rejoin(parts, gaps)
  {
    assert ([p] + parts)[1..] == parts;
    assert ([g] + gaps)[1..] == gaps;
  }

  /** Every dropped run is a non-empty run of spaces. */
  lemma {:induction false} GapsAreSpaces(s: string)
    ensures forall k :: 0 <= k < |Gaps(s)| ==>
              Gaps(s)[k] != [] && forall m :: 0 <= m < |Gaps(s)[k]| ==> Gaps(s)[k][m] == ' '
    decreases |s|
  {
    if s != [] {
      var i := NextBreak(s, 1);
      if i < |s| {
        var j := SpaceRunEnd(s, i);
        GapsAreSpaces(s[j..]);
        assert Gaps(s) == [s[i..j]] + Gaps(s[j..]);
      }
    }
  }

  /** Putting the dropped runs back between the sentences gives `s` again. */
  lemma {:induction false} RejoinSentences(s: string)
    ensures |Gaps(s)| == |Sentences(s)| - 1
    ensures Rejoin(Sentences(s), Gaps(s)) == s
    decreases |s|
  {
    if s != [] {
      var i := NextBreak(s, 1);
      if i < |s| {
        var j := SpaceRunEnd(s, i);
        var rest := s[j..];
        var sentences := Sentences(rest);
        var gaps := Gaps(rest);
        RejoinSentences(rest);
        assert Sentences(s) == [s[..i]] + sentences;
        assert Gaps(s) == [s[i..j]] + gaps;
        RejoinCons(s[..i], s[i..j], sentences, gaps);
        SliceThree(s, i, j);
      }
    }
  }

  /** The split loses nothing but the runs of spaces it cuts at: putting them
      back between the sentences gives `s` again. */
  lemma SentencesRoundTrip(s: string)
    ensures |Gaps(s)| == |Sentences(s)| - 1
    ensures forall k :: 0 <= k < |Gaps(s)| ==>
              Gaps(s)[k] != [] && forall m :: 0 <= m < |Gaps(s)[k]| ==> Gaps(s)[k][m] == ' '
    ensures Rejoin(Sentences(s), Gaps(s)) == s
  {
    GapsAreSpaces(s);
    RejoinSentences(s);
  }

  /** Cutting into sentences keeps the pieces free of bold markers. */
  lemma {:induction false} SentencesNoDoubleStar(s: string)
    requires NoDoubleStar(s)
    ensures forall k :: 0 <= k < |Sentences(s)| ==> NoDoubleStar(Sentences(s)[k])
    decreases |s|
  {
    if s != [] {
      var i := NextBreak(s, 1);
      if i < |s| {
        var j := SpaceRunEnd(s, i);
        var rest := s[j..];
        NoDoubleStarSlice(s, j, |s|);
        NoDoubleStarSlice(s, 0, i);
        SentencesNoDoubleStar(rest);
        assert Sentences(s) == [s[..i]] + Sentences(rest);
      }
    }
  }

  /** `[s.strip() for s in fields]`. */
  function StripAll(fields: seq<string>): seq<string>
  {
    seq(|fields|, k requires 0 <= k < |fields| => Strip(fields[k]))
  }

  /** The pieces that one sentence adds to the result of `split_sentences`:
      nothing when it is blank, its comma-separated parts when it is longer
      than `maxLen`, and the stripped sentence otherwise. */
  function SentencePieces(raw: string, maxLen: int): seq<string>
  {
    var s := Strip(raw);
    if s == [] then [] else if |s| > maxLen then StripAll(SplitOn(s, ',')) else [s]
  }

  /** `SentencePieces` for a fixed `maxLen`, as a function value. */
  function PiecesFor(maxLen: int): string -> seq<string>
  {
    s => SentencePieces(s, maxLen)
  }

  /** The pieces of a list of sentences, in order. */
  function PiecesOf(sentences: seq<string>, maxLen: int): seq<string>
  {
    ConcatMap(sentences, PiecesFor(maxLen))
  }

  /** What `split_sentences(text, max_len)` returns. */
  function SentenceLines(text: string, maxLen: int): seq<string>
  {
    PiecesOf(Sentences(text), maxLen)
  }

  /** `split_sentences`: the loop over the sentences, appending to `lines`. */
  method SplitSentences(text: string, maxLen: int) returns (lines: seq<string>)
    ensures lines == SentenceLines(text, maxLen)
  {
    var sentences := Sentences(text);
    lines := [];
    for i := 0 to |sentences|
      invariant lines == PiecesOf(sentences[..i], maxLen)
    {
      PrefixSnoc(sentences, i);
      ConcatMapSnoc(sentences[..i], sentences[i], PiecesFor(maxLen));
      var sentence := Strip(sentences[i]);
      if sentence == [] {
        continue;
      }
      if |sentence| > maxLen {
        var subSentences := StripAll(SplitOn(sentence, ','));
        lines := lines + subSentences;
      } else {
        lines := lines + [sentence];
      }
    }
    assert sentences[..|sentences|] == sentences;
  }

  /** Every piece `split_sentences` returns is stripped. */
  lemma PiecesOfStripped(sentences: seq<string>, maxLen: int)
    ensures forall k :: 0 <= k < |PiecesOf(sentences, maxLen)| ==> IsStripped(PiecesOf(sentences, maxLen)[k])
  {
    ConcatMapAll(sentences, PiecesFor(maxLen), s => IsStripped(s));
  }

  /** Reference definition, read front to back: the stripped non-blank sentences. */
  function StrippedSentences(sentences: seq<string>): seq<string>
  {
    if sentences == [] then []
    else (if Strip(sentences[0]) == [] then [] else [Strip(sentences[0])]) + StrippedSentences(sentences[1..])
  }

  /** When no sentence is longer than `maxLen`, each non-blank sentence comes back
      whole, stripped, as one piece, and in its original order. */
  lemma ShortSentencesKeptWhole(sentences: seq<string>, maxLen: int)
    requires forall k :: 0 <= k < |sentences| ==> |Strip(sentences[k])| <= maxLen
    ensures PiecesOf(sentences, maxLen) == StrippedSentences(sentences)
  {
    ConcatMapFrontAgrees(sentences, PiecesFor(maxLen));
    ShortPiecesFront(sentences, maxLen);
  }

  lemma {:induction false} ShortPiecesFront(sentences: seq<string>, maxLen: int)
    requires forall k :: 0 <= k < |sentences| ==> |Strip(sentences[k])| <= maxLen
    ensures ConcatMapFront(sentences, PiecesFor(maxLen)) == StrippedSentences(sentences)
    decreases |sentences|
  {
    if sentences != [] {
      ShortPiecesFront(sentences[1..], maxLen);
    }
  }

  /** A sentence longer than `maxLen` gives one piece per comma-separated field,
      so one more piece than it has commas; the fields joined with `,` are the
      sentence, and each piece is its field stripped. */
  lemma LongSentencePieces(raw: string, maxLen: int)
    requires |Strip(raw)| > maxLen && |Strip(raw)| > 0
    ensures |SentencePieces(raw, maxLen)| == CountChar(Strip(raw), ',') + 1
    ensures Join(SplitOn(Strip(raw), ','), ",") == Strip(raw)
    ensures forall k :: 0 <= k < |SentencePieces(raw, maxLen)| ==>
              IsStripped(SentencePieces(raw, maxLen)[k]) &&
              SentencePieces(raw, maxLen)[k] == Strip(SplitOn(Strip(raw), ',')[k])
  {
    SplitOnCount(Strip(raw), ',');
    SplitOnJoin(Strip(raw), ',');
  }

  /** The pieces of one sentence are free of bold markers when the sentence is. */
  lemma SentencePiecesNoDoubleStar(raw: string, maxLen: int)
    requires NoDoubleStar(raw)
    ensures forall k :: 0 <= k < |SentencePieces(raw, maxLen)| ==> NoDoubleStar(SentencePieces(raw, maxLen)[k])
  {
    var s := Strip(raw);
    NoDoubleStarStrip(raw);
    var pieces := SentencePieces(raw, maxLen);
    forall k | 0 <= k < |pieces| ensures NoDoubleStar(pieces[k]) {
      if |s| > maxLen {
        var fields := SplitOn(s, ',');
        var a := SplitOnSlices(s, ',', k);
        NoDoubleStarSlice(s, a, a + |fields[k]|);
        NoDoubleStarStrip(fields[k]);
      }
    }
  }

  lemma SentenceLinesNoDoubleStar(text: string, maxLen: int)
    requires NoDoubleStar(text)
    ensures forall k :: 0 <= k < |SentenceLines(text, maxLen)| ==> NoDoubleStar(SentenceLines(text, maxLen)[k])
  {
    var sentences := Sentences(text);
    SentencesNoDoubleStar(text);
    forall i | 0 <= i < |sentences|
      ensures forall k :: 0 <= k < |PiecesFor(maxLen)(sentences[i])| ==> NoDoubleStar(PiecesFor(maxLen)(sentences[i])[k])
    {
      SentencePiecesNoDoubleStar(sentences[i], maxLen);
    }
    ConcatMapAll(sentences, PiecesFor(maxLen), s => NoDoubleStar(s));
  }

  // ---------------------------------------------------------------------
  // emphasize_keywords
  // ---------------------------------------------------------------------

  /** `\w`, restricted to ASCII. */
  predicate IsWordChar(c: char)
  {
    ('a' <= c <= 'z') || ('A' <= c <= 'Z') || ('0' <= c <= '9') || c == '_'
  }

  /** `[a-zA-Z0-9]`. */
  predicate IsAlnum(c: char)
  {
    ('a' <= c <= 'z') || ('A' <= c <= 'Z') || ('0' <= c <= '9')
  }

  /** The end of the run of `[a-zA-Z0-9]` characters that starts at `i`. */
  function AlnumRunEnd(t: string, i: nat): (j: nat)
    requires i <= |t|
    ensures i <= j <= |t|
    ensures j == |t| || !IsAlnum(t[j])
    decreases |t| - i
  {
    if i < |t| && IsAlnum(t[i]) then AlnumRunEnd(t, i + 1) else i
  }

  /** Length of the match of `\b([A-Z][a-zA-Z0-9]+|[A-Z]{2,})\b` at the start of
      `s`, or 0 when there is none; `afterWord` says whether the character before
      `s` is a word character. The second alternative never matches where the
      first fails, so only the first is written out. */
  function KeywordMatch(s: string, afterWord: bool): (n: nat)
    ensures n <= |s|
    ensures n == 0 || (n >= 2 && !afterWord && 'A' <= s[0] <= 'Z')
  {
    if s != [] && !afterWord && 'A' <= s[0] <= 'Z' then
      var j := AlnumRunEnd(s, 1);
      if j >= 2 && (j == |s| || !IsWordChar(s[j])) then j else 0
    else 0
  }

  /** `\b([A-Z][a-zA-Z0-9]+|[A-Z]{2,})\b` matches the first `m` characters of
      `s`, where `afterWord` says whether a word character precedes `s`. */
  predicate MatchesKeyword(s: string, afterWord: bool, m: int)
  {
    && !afterWord && 2 <= m <= |s| && 'A' <= s[0] <= 'Z'
    && (forall i :: 1 <= i < m ==> IsAlnum(s[i]))
    && (m == |s| || !IsWordChar(s[m]))
  }

  lemma {:induction false} AlnumRun(t: string, i: nat)
    requires i <= |t|
    ensures forall m :: i <= m < AlnumRunEnd(t, i) ==> IsAlnum(t[m])
    decreases |t| - i
  {
    if i < |t| && IsAlnum(t[i]) {
      AlnumRun(t, i + 1);
    }
  }

  /** `KeywordMatch` is the pattern's match: when it is positive the pattern
      matches that many characters, and any length the pattern matches is it. */
  lemma KeywordMatchExact(s: string, afterWord: bool)
    ensures KeywordMatch(s, afterWord) > 0 ==> MatchesKeyword(s, afterWord, KeywordMatch(s, afterWord))
    ensures forall m :: MatchesKeyword(s, afterWord, m) ==> m == KeywordMatch(s, afterWord)
  {
    if s != [] && !afterWord && 'A' <= s[0] <= 'Z' {
      AlnumRun(s, 1);
    }
  }

  /** The replacement `emphasize_keywords` passes to `re.sub`: the whole match,
      put back as it is. */
  function Emphasis(matched: string): string
  {
    matched
  }

  /** `re.sub` of the keyword pattern over `s`, scanning left to right: each
      match is replaced by its `Emphasis`, the other characters are copied. */
  function Substitute(s: string, afterWord: bool): string
    decreases |s|
  {
    if s == [] then []
    else
      var n := KeywordMatch(s, afterWord);
      if n > 0 then Emphasis(s[..n]) + Substitute(s[n..], true)
      else [s[0]] + Substitute(s[1..], IsWordChar(s[0]))
  }

  /** The substitution changes nothing: each match is put back as it was. */
  lemma {:induction false} SubstituteIdentity(s: string, afterWord: bool)
    ensures Substitute(s, afterWord) == s
    decreases |s|, 1
  {
    if s != [] {
      if KeywordMatch(s, afterWord) > 0 {
        MatchKept(s, afterWord);
      } else {
        CharKept(s, afterWord);
      }
    }
  }

  /** A keyword match is put back as it was, and so is the rest. */
  lemma {:induction false} MatchKept(s: string, afterWord: bool)
    requires KeywordMatch(s, afterWord) > 0
    ensures Substitute(s, afterWord) == s
    decreases |s|, 0
  {
    var n := KeywordMatch(s, afterWord);
    SubstituteIdentity(s[n..], true);
    assert s[..n] + s[n..] == s;
  }

  /** A character outside any match is copied, and the rest is put back as it was. */
  lemma {:induction false} CharKept(s: string, afterWord: bool)
    requires s != [] && KeywordMatch(s, afterWord) == 0
    ensures Substitute(s, afterWord) == s
    decreases |s|, 0
  {
    SubstituteIdentity(s[1..], IsWordChar(s[0]));
    assert [s[0]] + s[1..] == s;
  }

  /** `emphasize_keywords`: every keyword match is replaced by itself, so the
      text comes back unchanged. */
  function EmphasizeKeywords(text: string): (r: string)
    ensures r == text
  {
    SubstituteIdentity(text, false);
    Substitute(text, false)
  }

  // ---------------------------------------------------------------------
  // format_text
  // ---------------------------------------------------------------------

  predicate IsDigit(c: char)
  {
    '0' <= c <= '9'
  }

  /** The longest prefix of `s` made of digits. */
  function LeadingDigits(s: string): (d: string)
    ensures |d| <= |s| && d == s[..|d|]
    ensures forall i :: 0 <= i < |d| ==> IsDigit(d[i])
    ensures |d| == |s| || !IsDigit(s[|d|])
  {
    if s != [] && IsDigit(s[0]) then [s[0]] + LeadingDigits(s[1..]) else []
  }

  /** `re.match(r'^(\d+)\.\s*(.*)', line)`: the number and the rest of a
      numbered item, or None. */
  function NumberedItem(line: string): (m: Option<(string, string)>)
    ensures m.Some? ==> m.value.0 != [] && StartsWith(line, m.value.0 + ".")
    ensures m.Some? ==> forall i :: 0 <= i < |m.value.0| ==> IsDigit(m.value.0[i])
    ensures m.Some? ==> EndsWith(line, m.value.1) && (m.value.1 == [] || !IsSpace(m.value.1[0]))
    ensures m.None? ==> LeadingDigits(line) == [] || !StartsWith(line, LeadingDigits(line) + ".")
  {
    var num := LeadingDigits(line);
    if num != [] && |num| < |line| && line[|num|] == '.' then
      assert line[..|num| + 1] == num + ".";
      LStripSuffix(line[|num| + 1..]);
      Some((num, LStrip(line[|num| + 1..])))
    else None
  }

  /** Between the dot and the rest there is only whitespace, so the rest is
      everything `\s*` leaves of the line. */
  lemma NumberedItemRest(line: string)
    requires NumberedItem(line).Some?
    ensures var (num, rest) := NumberedItem(line).value;
            && |num| + 1 + |rest| <= |line|
            && forall i :: |num| + 1 <= i < |line| - |rest| ==> IsSpace(line[i])
  {
    var num := LeadingDigits(line);
    var after := line[|num| + 1..];
    LStripSuffix(after);
    forall i | |num| + 1 <= i < |line| - |LStrip(after)| ensures IsSpace(line[i]) {
      assert line[i] == after[i - |num| - 1];
    }
  }

  /** `[p + x for x in xs]`. */
  function Prefixed(p: string, xs: seq<string>): seq<string>
  {
    seq(|xs|, k requires 0 <= k < |xs| => p + xs[k])
  }

  /** A line `format_text` keeps as it is, as a heading: at most six words, or ending in `:`. */
  predicate IsHeading(line: string)
  {
    |Words(line)| <= 6 || EndsWith(line, ":")
  }

  /** A line `format_text` treats as a bullet item. */
  predicate IsBullet(line: string)
  {
    StartsWith(line, "- ") || StartsWith(line, BULLET)
  }

  /** The content of a bullet item, without its marker. */
  function BulletContent(line: string): string
    requires IsBullet(line)
  {
    if StartsWith(line, "- ") then Strip(line[2..]) else Strip(line[1..])
  }

  /** The output lines of a non-heading line, after `**` removal. */
  function ItemOutput(line: string): seq<string>
  {
    if IsBullet(line) then
      Prefixed(BULLET, SentenceLines(EmphasizeKeywords(BulletContent(line)), MAX_SENTENCE_LEN))
    else match NumberedItem(line)
      case Some((num, rest)) =>
        Prefixed(num + ". ", SentenceLines(EmphasizeKeywords(rest), MAX_SENTENCE_LEN))
      case None =>
        SentenceLines(EmphasizeKeywords(line), MAX_SENTENCE_LEN)
  }

  /** The output lines `format_text` produces for one input line. */
  function LineOutput(raw: string): seq<string>
  {
    var stripped := Strip(raw);
    if stripped == [] then []
    else
      var line := Replace(stripped, "**", "");
      if IsHeading(line) then [line] else ItemOutput(line)
  }

  /** The output lines of a list of input lines, in order. */
  function FormattedLines(lines: seq<string>): seq<string>
  {
    ConcatMap(lines, LineOutput)
  }

  /** What `format_text(text)` returns. */
  function FormattedText(text: string): string
  {
    if Strip(text) == [] then NO_ANSWER else Join(FormattedLines(SplitOn(text, '\n')), "\n")
  }

  /** `format_text`: the loop over the input lines, appending to `formatted_lines`. */
  method FormatText(text: string) returns (r: string)
    ensures r == FormattedText(text)
  {
    if text == [] || Strip(text) == [] {
      return NO_ANSWER;
    }
    var lines := SplitOn(text, '\n');
    var formattedLines: seq<string> := [];
    for i := 0 to |lines|
      invariant formattedLines == FormattedLines(lines[..i])
    {
      PrefixSnoc(lines, i);
      ConcatMapSnoc(lines[..i], lines[i], LineOutput);
      formattedLines := FormatLine(formattedLines, lines[i]);
    }
    assert lines[..|lines|] == lines;
    r := Join(formattedLines, "\n");
  }

  /** The body of the loop of `format_text`: appends the output of one input line. */
  method FormatLine(formattedLines: seq<string>, raw: string) returns (extended: seq<string>)
    ensures extended == formattedLines + LineOutput(raw)
  {
    extended := formattedLines;
    var line := Strip(raw);
    if line == [] {
      return;
    }
    line := Replace(line, "**", "");
    if |Words(line)| <= 6 || EndsWith(line, ":") {
      extended := extended + [line];
      return;
    }
    extended := FormatItem(extended, line);
  }

  /** The rest of the loop body, for a line that is not a heading: bullets,
      numbered items and plain text. */
  method FormatItem(formattedLines: seq<string>, line: string) returns (extended: seq<string>)
    ensures extended == formattedLines + ItemOutput(line)
  {
    if StartsWith(line, "- ") || StartsWith(line, BULLET) {
      var content := if StartsWith(line, "- ") then Strip(line[2..]) else Strip(line[1..]);
      content := EmphasizeKeywords(content);
      var subLines := SplitSentences(content, MAX_SENTENCE_LEN);
      extended := AppendPrefixed(formattedLines, BULLET, subLines);
      return;
    }
    var matchNumbered := NumberedItem(line);
    if matchNumbered.Some? {
      var (num, rest) := matchNumbered.value;
      rest := EmphasizeKeywords(rest);
      var subLines := SplitSentences(rest, MAX_SENTENCE_LEN);
      extended := AppendPrefixed(formattedLines, num + ". ", subLines);
      return;
    }
    var plain := EmphasizeKeywords(line);
    var subLines := SplitSentences(plain, MAX_SENTENCE_LEN);
    extended := formattedLines + subLines;
  }

  /** `for sub in sub_lines: formatted_lines.append(f"{prefix}{sub}")`. */
  method AppendPrefixed(formattedLines: seq<string>, prefix: string, subLines: seq<string>) returns (extended: seq<string>)
    ensures extended == formattedLines + Prefixed(prefix, subLines)
  {
    extended := formattedLines;
    for k := 0 to |subLines|
      invariant extended == formattedLines + Prefixed(prefix, subLines[..k])
    {
      assert Prefixed(prefix, subLines[..k + 1]) == Prefixed(prefix, subLines[..k]) + [prefix + subLines[k]];
      extended := extended + [prefix + subLines[k]];
    }
    assert subLines[..|subLines|] == subLines;
  }

  /** Output follows input order: the lines of two consecutive blocks of input
      are the output of the first block followed by the output of the second. */
  lemma FormattedLinesAppend(a: seq<string>, b: seq<string>)
    ensures FormattedLines(a + b) == FormattedLines(a) + FormattedLines(b)
  {
    ConcatMapAppend(a, b, LineOutput);
  }

  /** A line that is blank after stripping produces no output at all. */
  lemma BlankLineDropped(a: seq<string>, blank: string, b: seq<string>)
    requires IsBlank(blank)
    ensures FormattedLines(a + [blank] + b) == FormattedLines(a + b)
  {
    StripEmptyIffBlank(blank);
    ConcatMapAppend(a + [blank], b, LineOutput);
    ConcatMapSnoc(a, blank, LineOutput);
    ConcatMapAppend(a, b, LineOutput);
  }

  /** `replace` of a pattern that does not occur changes nothing. */
  lemma {:induction false} RemoveBoldAbsent(s: string)
    requires NoDoubleStar(s)
    ensures Replace(s, "**", "") == s
    decreases |s|
  {
    if |s| >= 2 {
      assert s[..2] != "**" by { assert !(s[0] == '*' && s[1] == '*'); }
      NoDoubleStarSlice(s, 1, |s|);
      RemoveBoldAbsent(s[1..]);
    }
  }

  /** A stripped line without bold markers that counts as a heading (at most six
      words, or ending in `:`) is emitted unchanged as a single output line, even
      when it starts with a bullet marker or a number. */
  lemma HeadingKeptVerbatim(raw: string)
    requires raw != [] && IsStripped(raw) && NoDoubleStar(raw)
    requires IsHeading(raw)
    ensures LineOutput(raw) == [raw]
  {
    StripStripped(raw);
    RemoveBoldAbsent(raw);
  }

  /** A longer `- ` or `• ` line becomes one output line per sentence piece of its
      content, each starting with the bullet marker. */
  lemma BulletLinesPrefixed(raw: string)
    requires !IsBlank(raw)
    requires !IsHeading(Replace(Strip(raw), "**", "")) && IsBullet(Replace(Strip(raw), "**", ""))
    ensures |LineOutput(raw)| == |SentenceLines(BulletContent(Replace(Strip(raw), "**", "")), MAX_SENTENCE_LEN)|
    ensures forall k :: 0 <= k < |LineOutput(raw)| ==>
              StartsWith(LineOutput(raw)[k], BULLET) &&
              LineOutput(raw)[k][|BULLET|..] == SentenceLines(BulletContent(Replace(Strip(raw), "**", "")), MAX_SENTENCE_LEN)[k]
  {
    var out := LineOutput(raw);
    forall k | 0 <= k < |out|
      ensures StartsWith(out[k], BULLET)
    {
      assert out[k][..|BULLET|] == BULLET;
    }
  }

  /** A longer line `N. rest` (not a bullet) becomes one output line per sentence
      piece of `rest`, each starting with the same digits followed by `. `. */
  lemma NumberedLinesPrefixed(raw: string, num: string, rest: string)
    requires !IsBlank(raw)
    requires !IsHeading(Replace(Strip(raw), "**", "")) && !IsBullet(Replace(Strip(raw), "**", ""))
    requires NumberedItem(Replace(Strip(raw), "**", "")) == Some((num, rest))
    ensures num != [] && forall i :: 0 <= i < |num| ==> IsDigit(num[i])
    ensures |LineOutput(raw)| == |SentenceLines(rest, MAX_SENTENCE_LEN)|
    ensures forall k :: 0 <= k < |LineOutput(raw)| ==>
              StartsWith(LineOutput(raw)[k], num + ". ") &&
              LineOutput(raw)[k][|num| + 2..] == SentenceLines(rest, MAX_SENTENCE_LEN)[k]
  {
    var out := LineOutput(raw);
    forall k | 0 <= k < |out|
      ensures StartsWith(out[k], num + ". ")
    {
      assert out[k][..|num + ". "|] == num + ". ";
    }
  }

  /** Any other line (not a heading, a bullet or a numbered item) is split like
      `split_sentences` splits it: one output line per sentence piece, each stripped;
      when no sentence is too long, the pieces are the line's stripped sentences. */
  lemma PlainLinesSplit(raw: string)
    requires !IsBlank(raw)
    requires !IsHeading(Replace(Strip(raw), "**", "")) && !IsBullet(Replace(Strip(raw), "**", ""))
    requires NumberedItem(Replace(Strip(raw), "**", "")).None?
    ensures LineOutput(raw) == SentenceLines(Replace(Strip(raw), "**", ""), MAX_SENTENCE_LEN)
    ensures forall k :: 0 <= k < |LineOutput(raw)| ==> IsStripped(LineOutput(raw)[k])
    ensures (forall k :: 0 <= k < |Sentences(Replace(Strip(raw), "**", ""))| ==>
               |Strip(Sentences(Replace(Strip(raw), "**", ""))[k])| <= MAX_SENTENCE_LEN) ==>
            LineOutput(raw) == StrippedSentences(Sentences(Replace(Strip(raw), "**", "")))
  {
    var line := Replace(Strip(raw), "**", "");
    var sentences := Sentences(line);
    PiecesOfStripped(sentences, MAX_SENTENCE_LEN);
    if forall k :: 0 <= k < |sentences| ==> |Strip(sentences[k])| <= MAX_SENTENCE_LEN {
      ShortSentencesKeptWhole(sentences, MAX_SENTENCE_LEN);
    }
  }

  lemma PrefixedNoDoubleStar(p: string, xs: seq<string>)
    requires p != [] && p[|p| - 1] == ' ' && NoDoubleStar(p)
    requires forall k :: 0 <= k < |xs| ==> NoDoubleStar(xs[k])
    ensures forall k :: 0 <= k < |Prefixed(p, xs)| ==> NoDoubleStar(Prefixed(p, xs)[k])
  {
    forall k | 0 <= k < |xs| ensures NoDoubleStar(p + xs[k]) {
      NoDoubleStarConcat(p, xs[k]);
    }
  }

  lemma BulletOutputNoDoubleStar(line: string)
    requires NoDoubleStar(line) && IsBullet(line)
    ensures forall k :: 0 <= k < |ItemOutput(line)| ==> NoDoubleStar(ItemOutput(line)[k])
  {
    var skip := if StartsWith(line, "- ") then 2 else 1;
    NoDoubleStarSlice(line, skip, |line|);
    NoDoubleStarStrip(line[skip..]);
    SentenceLinesNoDoubleStar(BulletContent(line), MAX_SENTENCE_LEN);
    PrefixedNoDoubleStar(BULLET, SentenceLines(BulletContent(line), MAX_SENTENCE_LEN));
  }

  lemma NumberedOutputNoDoubleStar(line: string, num: string, rest: string)
    requires NoDoubleStar(line) && !IsBullet(line) && NumberedItem(line) == Some((num, rest))
    ensures forall k :: 0 <= k < |ItemOutput(line)| ==> NoDoubleStar(ItemOutput(line)[k])
  {
    var after := line[|num| + 1..];
    LStripSuffix(after);
    NoDoubleStarSlice(line, |num| + 1, |line|);
    NoDoubleStarSlice(after, |after| - |rest|, |after|);
    SentenceLinesNoDoubleStar(rest, MAX_SENTENCE_LEN);
    assert forall i :: 0 <= i < |num| ==> num[i] != '*';
    PrefixedNoDoubleStar(num + ". ", SentenceLines(rest, MAX_SENTENCE_LEN));
  }

  /** No output line of `format_text` holds a bold marker `**`. */
  lemma LineOutputNoDoubleStar(raw: string)
    ensures forall k :: 0 <= k < |LineOutput(raw)| ==> NoDoubleStar(LineOutput(raw)[k])
  {
    var stripped := Strip(raw);
    if stripped != [] {
      var line := Replace(stripped, "**", "");
      RemoveBoldLeavesNone(stripped);
      if !IsHeading(line) {
        if IsBullet(line) {
          BulletOutputNoDoubleStar(line);
        } else if NumberedItem(line).Some? {
          NumberedOutputNoDoubleStar(line, NumberedItem(line).value.0, NumberedItem(line).value.1);
        } else {
          SentenceLinesNoDoubleStar(line, MAX_SENTENCE_LEN);
        }
      }
    }
  }

  lemma FormattedLinesNoDoubleStar(lines: seq<string>)
    ensures forall k :: 0 <= k < |FormattedLines(lines)| ==> NoDoubleStar(FormattedLines(lines)[k])
  {
    forall i | 0 <= i < |lines|
      ensures forall k :: 0 <= k < |LineOutput(lines[i])| ==> NoDoubleStar(LineOutput(lines[i])[k])
    {
      LineOutputNoDoubleStar(lines[i]);
    }
    ConcatMapAll(lines, LineOutput, s => NoDoubleStar(s));
  }

  /** The text `format_text` returns never holds a bold marker `**`. */
  lemma FormattedTextNoDoubleStar(text: string)
    ensures NoDoubleStar(FormattedText(text))
  {
    if Strip(text) == [] {
      assert forall i :: 0 <= i < |NO_ANSWER| ==> NO_ANSWER[i] != '*';
    } else {
      FormattedLinesNoDoubleStar(SplitOn(text, '\n'));
      NoDoubleStarJoin(FormattedLines(SplitOn(text, '\n')), "\n");
    }
  }

  /** An empty or whitespace-only answer becomes the fixed sentinel. */
  lemma BlankTextGivesSentinel(text: string)
    requires IsBlank(text)
    ensures FormattedText(text) == NO_ANSWER
  {
    StripEmptyIffBlank(text);
  }

  /** A non-blank answer made only of a bold marker formats to the empty string,
      not to the sentinel: the blank test runs before `**` is removed. */
  lemma BoldOnlyAnswerIsEmpty()
    ensures FormattedText("**") == ""
  {
    assert !IsSpace('*');
    assert SplitOn("**", '\n') == ["**"];
    assert FormattedLines(["**"]) == LineOutput("**");
    StripStripped("**");
    assert Replace("**", "**", "") == "";
    assert Words("") == [];
  }
}
